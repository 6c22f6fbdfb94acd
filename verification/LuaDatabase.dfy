/** The Lua database transaction: what a script may do inside it, and when a request reaches the engine. */
module LuaDatabase {
  import opened Bytes
  import opened FieldSchema
  import opened Profile
  import opened CatalogState
  import opened CatalogReads
  import opened SessionCatalog
  import opened MemoryTransaction
  import opened FieldTransaction
  import opened GuardedCommit
  import opened RecordAccess
  import opened RecordMeaning
  import opened Revalidation
  import opened TypedCommit
  import opened PendingChanges
  import SeqFacts

  // ----- what a script does

  /** A Lua value given to a field: an integer, a reference table, a malformed table, or anything else. */
  datatype LuaValue = IntegerValue(integer: int) | ReferenceValue(uniqueId: nat, row: nat) | MalformedTable | OtherValue

  datatype SetCall = SetCall(
    transactionOk: bool, record: Option<(TableHandle, nat)>, name: Option<string>, value: LuaValue)

  /** Steps of a callback. `Nested` is a call of the transaction function; `Protected` is a protected call,
      which catches any error raised inside it. */
  datatype Action = SetField(call: SetCall) | Nested | RaiseError | Protected(body: seq<Action>)

  datatype Event = Changed(change: PendingChange) | RefusedChange | NestedBegin

  predicate Clean(events: seq<Event>) {
    events == [] || (events[|events| - 1].Changed? && Clean(events[..|events| - 1]))
  }

  function Changes(events: seq<Event>): seq<PendingChange> {
    if events == [] then []
    else
      var last := events[|events| - 1];
      Changes(events[..|events| - 1]) + (if last.Changed? then [last.change] else [])
  }

  /** The catalog and schema one call sees. */
  datatype View = View(catalog: Catalog, schema: Option<seq<TableSchema>>)

  predicate SameField(a: PendingChange, b: PendingChange) {
    a.handle.uniqueId == b.handle.uniqueId && a.row == b.row && a.change.name == b.change.name
  }

  /** `PrepareSetField`: the change a call stands for, if the catalog and the schema admit it. */
  function AdmittedChange(view: View, handle: TableHandle, row: nat, name: string, value: LuaValue)
    : Option<PendingChange>
  {
    var d := Resolve(view.catalog, handle);
    if d.None? || !d.value.authority.DirectVerified? || view.schema.None? then None
    else
      var field := FindField(view.schema.value, d.value.sessionTableId, name);
      if field.None? then None
      else if field.value.encoding.PackedRef? then
        if !value.ReferenceValue? then None
        else
          var tableId := ActiveTableId(view.catalog, value.uniqueId, value.row, handle.generation);
          if tableId.None? then None
          else Some(PendingChange(handle, row, FieldChange(name, Reference(tableId.value, value.row))))
      else if !value.IntegerValue? then None
      else Some(PendingChange(handle, row, FieldChange(name, Number(value.integer))))
  }

  /** What a value stands for in a field: an integer itself; a reference the row of the table that the first current
      entry of the unique id with such a row has in this session. */
  ghost predicate StandsFor(c: Catalog, field: FieldDefinition, value: LuaValue, stored: FieldValue) {
    if field.encoding.PackedRef? then
      && value.ReferenceValue?
      && exists i: nat ::
        FirstFit(c.entries, c.generation, Some(value.uniqueId), None, value.row + 1, i)
        && stored == Reference(c.entries[i].descriptor.sessionTableId, value.row)
    else value.IntegerValue? && stored == Number(value.integer)
  }

  /** The field a call names, in a table the handle may write directly. */
  ghost predicate NamesField(view: View, handle: TableHandle, name: string, field: FieldDefinition) {
    && view.schema.Some?
    && exists d ::
      LeadsTo(view.catalog, handle, d) && d.authority.DirectVerified?
      && FindField(view.schema.value, d.sessionTableId, name) == Some(field)
  }

  /** The call asks for this change: its handle, its row, its name, and what its value stands for. */
  ghost predicate AsksFor(
    view: View, handle: TableHandle, row: nat, name: string, value: LuaValue, change: PendingChange)
  {
    && change.handle == handle && change.row == row && change.change.name == name
    && exists field ::
      NamesField(view, handle, name, field)
      && StandsFor(view.catalog, field, value, change.change.value)
  }

  /** What a value is stored as, when the call is made under a current handle. */
  lemma {:induction false} StoredExactly(
    c: Catalog, field: FieldDefinition, value: LuaValue, generation: nat, stored: FieldValue)
    requires generation == c.generation
    ensures StandsFor(c, field, value, stored) <==>
      if field.encoding.PackedRef? then
        && value.ReferenceValue? && stored.Reference? && stored == Reference(stored.tableId, value.row)
        && ActiveTableId(c, value.uniqueId, value.row, generation) == Some(stored.tableId)
      else value.IntegerValue? && stored == Number(value.integer)
  {
    if value.ReferenceValue? && stored.Reference? {
      ActiveTableIdExactly(c, value.uniqueId, value.row, generation, stored.tableId);
    }
  }

  lemma {:induction false} NamedExactly(view: View, handle: TableHandle, name: string, field: FieldDefinition)
    ensures NamesField(view, handle, name, field) <==>
      && view.schema.Some? && Resolve(view.catalog, handle).Some?
      && Resolve(view.catalog, handle).value.authority.DirectVerified?
      && FindField(view.schema.value, Resolve(view.catalog, handle).value.sessionTableId, name) == Some(field)
    ensures NamesField(view, handle, name, field) ==> handle.generation == view.catalog.generation
  {
    forall d
      ensures Resolve(view.catalog, handle) == Some(d) <==> LeadsTo(view.catalog, handle, d)
    {
      ResolveExactly(view.catalog, handle, d);
    }
  }

  /** A call is admitted with a change if and only if it asks for it. */
  lemma {:induction false} AdmittedExactly(
    view: View, handle: TableHandle, row: nat, name: string, value: LuaValue, change: PendingChange)
    ensures AdmittedChange(view, handle, row, name, value) == Some(change) <==>
      AsksFor(view, handle, row, name, value, change)
  {
    forall field
      ensures NamesField(view, handle, name, field) <==>
        && view.schema.Some? && Resolve(view.catalog, handle).Some?
        && Resolve(view.catalog, handle).value.authority.DirectVerified?
        && FindField(view.schema.value, Resolve(view.catalog, handle).value.sessionTableId, name) == Some(field)
    {
      NamedExactly(view, handle, name, field);
    }
    if view.schema.Some? && Resolve(view.catalog, handle).Some? {
      var named := FindField(view.schema.value, Resolve(view.catalog, handle).value.sessionTableId, name);
      if named.Some? && NamesField(view, handle, name, named.value) {
        NamedExactly(view, handle, name, named.value);
        StoredExactly(view.catalog, named.value, value, handle.generation, change.change.value);
      }
    }
  }

  /** The field is pending already. */
  predicate AlreadyAsked(pending: seq<PendingChange>, change: PendingChange) {
    exists i :: 0 <= i < |pending|
      && pending[i].handle.uniqueId == change.handle.uniqueId && pending[i].row == change.row
      && pending[i].change.name == change.change.name
  }

  predicate NoField(pending: seq<PendingChange>, change: PendingChange) {
    forall i :: 0 <= i < |pending| ==> !SameField(pending[i], change)
  }

  predicate FieldsDistinct(pending: seq<PendingChange>) {
    forall i, j :: 0 <= i < j < |pending| ==> !SameField(pending[i], pending[j])
  }

  // ----- what a callback amounts to

  /** The calls made and the events logged so far in one outer transaction. */
  datatype Progress = Progress(calls: nat, events: seq<Event>)

  function Logged(p: Progress, event: Event): Progress {
    p.(events := p.events + [event])
  }

  predicate WellTyped(call: SetCall) {
    call.transactionOk && call.record.Some? && call.name.Some? && !call.value.MalformedTable?
  }

  function AfterPrepare(change: Option<PendingChange>, p: Progress): (Progress, bool) {
    if change.None? || !NoField(Changes(p.events), change.value) then
      (Progress(p.calls + 1, p.events + [RefusedChange]), true)
    else (Progress(p.calls + 1, p.events + [Changed(change.value)]), false)
  }

  /** One call of the set function: a change, or an error and a refusal. */
  function AfterSet(view: nat -> View, call: SetCall, p: Progress): (Progress, bool) {
    if !WellTyped(call) then (Logged(p, RefusedChange), true)
    else AfterPrepare(
      AdmittedChange(view(p.calls), call.record.value.0, call.record.value.1, call.name.value, call.value), p)
  }

  function AfterAction(view: nat -> View, action: Action, p: Progress): (Progress, bool)
    decreases action, 0
  {
    match action
    case SetField(call) => AfterSet(view, call, p)
    case Nested => (Logged(p, NestedBegin), true)
    case RaiseError => (p, true)
    case Protected(body) => (AfterScript(view, body, p).0, false)
  }

  /** A callback: errors unwind to the nearest protected call. */
  function AfterScript(view: nat -> View, script: seq<Action>, p: Progress): (Progress, bool)
    decreases script, 1
  {
    if script == [] then (p, false)
    else
      var (next, raised) := AfterAction(view, script[0], p);
      if raised then (next, true) else AfterScript(view, script[1..], next)
  }

  /** What was refused stays refused: no script, catching errors or not, clears an earlier event. */
  lemma {:induction false} EventsOnlyGrow(view: nat -> View, script: seq<Action>, p: Progress)
    ensures var after := AfterScript(view, script, p).0;
      |p.events| <= |after.events| && after.events[..|p.events|] == p.events
    decreases script, 1
  {
    if script != [] {
      var (next, raised) := AfterAction(view, script[0], p);
      match script[0] {
        case Protected(body) => EventsOnlyGrow(view, body, p);
        case _ =>
      }
      assert |p.events| <= |next.events| && next.events[..|p.events|] == p.events;
      if !raised {
        EventsOnlyGrow(view, script[1..], next);
        var after := AfterScript(view, script[1..], next).0;
        assert after.events[..|p.events|] == after.events[..|next.events|][..|p.events|];
      }
    }
  }

  lemma {:induction false} CleanPrefix(events: seq<Event>, n: nat)
    requires Clean(events) && n <= |events|
    ensures Clean(events[..n])
  {
    if n < |events| {
      CleanPrefix(events[..|events| - 1], n);
      assert events[..|events| - 1][..n] == events[..n];
    } else {
      SeqFacts.TakeAll(events);
    }
  }

  /** A refused change or a nested begin anywhere in a callback poisons the whole of it. */
  lemma {:induction false} PoisonIsForever(view: nat -> View, script: seq<Action>, p: Progress)
    requires !Clean(p.events)
    ensures !Clean(AfterScript(view, script, p).0.events)
  {
    EventsOnlyGrow(view, script, p);
    if Clean(AfterScript(view, script, p).0.events) {
      CleanPrefix(AfterScript(view, script, p).0.events, |p.events|);
    }
  }

  /** What preparing a change amounts to: it is accepted if the call asks for one in a field not pending yet, and then
      that one is pending; anything else is a refusal. */
  ghost predicate PreparedAs(
    view: View, handle: TableHandle, row: nat, name: string, value: LuaValue, before: seq<Event>, after: seq<Event>,
    ok: bool)
  {
    && (ok ==> exists change :: AsksFor(view, handle, row, name, value, change))
    && (forall change :: AsksFor(view, handle, row, name, value, change) ==>
      && ok == !AlreadyAsked(Changes(before), change)
      && (ok ==> after == before + [Changed(change)]))
    && (!ok ==> after == before + [RefusedChange])
  }

  lemma {:induction false} PrepareMeans(
    view: View, handle: TableHandle, row: nat, name: string, value: LuaValue, p: Progress)
    ensures var (after, refused) := AfterPrepare(AdmittedChange(view, handle, row, name, value), p);
      PreparedAs(view, handle, row, name, value, p.events, after.events, !refused)
  {
    var admitted := AdmittedChange(view, handle, row, name, value);
    forall change
      ensures AsksFor(view, handle, row, name, value, change) <==> admitted == Some(change)
    {
      AdmittedExactly(view, handle, row, name, value, change);
    }
  }

  // ----- whose changes they are

  /** A call somewhere in the script asks for the change, in a view of some moment. */
  ghost predicate ScriptAsks(view: nat -> View, script: seq<Action>, change: PendingChange)
    decreases script, 1
  {
    exists i :: 0 <= i < |script| && ActionAsks(view, script[i], change)
  }

  ghost predicate AllAsked(view: nat -> View, script: seq<Action>, changes: seq<PendingChange>) {
    forall change :: change in changes ==> ScriptAsks(view, script, change)
  }

  ghost predicate CallAsks(view: View, call: SetCall, change: PendingChange)
    requires WellTyped(call)
  {
    AsksFor(view, call.record.value.0, call.record.value.1, call.name.value, call.value, change)
  }

  ghost predicate ActionAsks(view: nat -> View, action: Action, change: PendingChange)
    decreases action, 0
  {
    match action
    case SetField(call) => WellTyped(call) && exists n: nat :: CallAsks(view(n), call, change)
    case Protected(body) => ScriptAsks(view, body, change)
    case _ => false
  }

  lemma {:induction false} ChangesPush(events: seq<Event>, event: Event)
    ensures Changes(events + [event]) == Changes(events) + (if event.Changed? then [event.change] else [])
  {
    SeqFacts.PushFront(events, event);
  }

  lemma {:induction false} SetIsAsked(view: nat -> View, call: SetCall, p: Progress, change: PendingChange)
    requires change in Changes(AfterSet(view, call, p).0.events)
    ensures change in Changes(p.events) || ActionAsks(view, SetField(call), change)
  {
    ChangesPush(p.events, RefusedChange);
    if WellTyped(call) {
      var admitted :=
        AdmittedChange(view(p.calls), call.record.value.0, call.record.value.1, call.name.value, call.value);
      if admitted.Some? {
        ChangesPush(p.events, Changed(admitted.value));
        AdmittedExactly(view(p.calls), call.record.value.0, call.record.value.1, call.name.value, call.value,
            admitted.value);
        assert CallAsks(view(p.calls), call, admitted.value);
      }
    }
  }

  lemma {:induction false} ActionIsAsked(view: nat -> View, action: Action, p: Progress, change: PendingChange)
    requires change in Changes(AfterAction(view, action, p).0.events)
    ensures change in Changes(p.events) || ActionAsks(view, action, change)
    decreases action, 0
  {
    match action {
      case SetField(call) => SetIsAsked(view, call, p, change);
      case Nested => ChangesPush(p.events, NestedBegin);
      case RaiseError =>
      case Protected(body) => ScriptIsAsked(view, body, p, change);
    }
  }

  /** Every change a script leaves pending is one that a call in it asked for. */
  lemma {:induction false} ScriptIsAsked(view: nat -> View, script: seq<Action>, p: Progress, change: PendingChange)
    requires change in Changes(AfterScript(view, script, p).0.events)
    ensures change in Changes(p.events) || ScriptAsks(view, script, change)
    decreases script, 1
  {
    if script != [] {
      var (next, raised) := AfterAction(view, script[0], p);
      if !raised && change !in Changes(next.events) {
        ScriptIsAsked(view, script[1..], next, change);
        var i :| 0 <= i < |script[1..]| && ActionAsks(view, script[1..][i], change);
        assert ActionAsks(view, script[i + 1], change);
      } else {
        ActionIsAsked(view, script[0], p, change);
      }
    }
  }

  lemma {:induction false} EachIsAsked(view: nat -> View, script: seq<Action>, p: Progress)
    requires p.events == []
    ensures AllAsked(view, script, Changes(AfterScript(view, script, p).0.events))
  {
    forall change | change in Changes(AfterScript(view, script, p).0.events)
      ensures ScriptAsks(view, script, change)
    {
      ScriptIsAsked(view, script, p, change);
    }
  }

  // ----- the transaction id

  function Decimal(n: nat): string {
    if n < 10 then [(n + '0' as int) as char] else Decimal(n / 10) + [(n % 10 + '0' as int) as char]
  }

  function LuaTransactionId(generation: nat): string {
    "lua-db-" + Decimal(generation)
  }

  function Ten(n: nat): (power: nat)
    ensures power > 0
  {
    if n == 0 then 1 else 10 * Ten(n - 1)
  }

  lemma {:induction false} DecimalIsShort(n: nat, digits: nat)
    requires 0 < digits && n < Ten(digits)
    ensures 0 < |Decimal(n)| <= digits
    ensures forall i :: 0 <= i < |Decimal(n)| ==> '0' <= Decimal(n)[i] <= '9'
    decreases digits
  {
    if n >= 10 {
      DecimalIsShort(n / 10, digits - 1);
    }
  }

  /** The number a text of decimal digits stands for. */
  function NumberIn(digits: string): int {
    if digits == "" then 0
    else 10 * NumberIn(digits[..|digits| - 1]) + (digits[|digits| - 1] as int - '0' as int)
  }

  lemma {:induction false} DecimalReads(n: nat)
    ensures NumberIn(Decimal(n)) == n
  {
    if n >= 10 {
      DecimalReads(n / 10);
      SeqFacts.PushFront(Decimal(n / 10), (n % 10 + '0' as int) as char);
    } else {
      assert Decimal(n)[..0] == "";
    }
  }

  /** The id names the generation it was made under, so two generations never share one, and the engine takes it. */
  lemma {:induction false} LuaTransactionIdIsValid(generation: nat)
    requires generation <= GENERATIONS
    ensures ValidTransactionId(LuaTransactionId(generation))
    ensures "lua-db-" <= LuaTransactionId(generation) && NumberIn(LuaTransactionId(generation)[7..]) == generation
  {
    DecimalReads(generation);
    assert LuaTransactionId(generation)[7..] == Decimal(generation);
    assert Ten(20) == 100_000_000_000_000_000_000 by {
      assert Ten(5) == 100_000;
      assert Ten(10) == 10_000_000_000;
      assert Ten(15) == 1_000_000_000_000_000;
    }
    DecimalIsShort(generation, 20);
  }

  // ----- planning and submitting

  /** Why a transaction failed at its end. */
  datatype FinishError =
    | ContainedRefusal | NoChanges | SchemaMissing | PlanRefused(plan: PlanCode) | FinalRefused(final: FinalCode)
    | EngineFailed(engine: Code)

  /** The guard lists that justify a catalog. */
  ghost function Justifications(c: Catalog): iset<seq<Guard>> {
    iset guards | GuardsJustify(c, guards)
  }

  ghost predicate PlannedFor(c: Catalog, schema: seq<TableSchema>, memory: Memory, g: Group, plan: FieldWritePlan) {
    && plan.ok
    && plan == PlanOf(c, schema, memory, false, plan.evidence, g.handle, g.row, g.changes)
    && EvidenceIsActive(c, plan.evidence) && plan.evidence.guards in Justifications(c)
  }

  /** Each plan is the successful plan of its group, made on one catalog and one memory. */
  ghost predicate AllPlanned(
    c: Catalog, schema: seq<TableSchema>, memory: Memory, groups: seq<Group>, plans: seq<FieldWritePlan>)
  {
    && |plans| == |groups|
    && (plans != [] ==>
      var n := |plans| - 1;
      PlannedFor(c, schema, memory, groups[n], plans[n]) && AllPlanned(c, schema, memory, groups[..n], plans[..n]))
  }

  /** Every group is of a table with direct authority. */
  ghost predicate AllDirect(c: Catalog, groups: seq<Group>) {
    groups == []
    || (DirectTable(c, groups[|groups| - 1].handle) && AllDirect(c, groups[..|groups| - 1]))
  }

  lemma {:induction false} LastIsDirect(
    c: Catalog, schema: seq<TableSchema>, memory: Memory, groups: seq<Group>, plans: seq<FieldWritePlan>)
    requires AllPlanned(c, schema, memory, groups, plans) && plans != []
    ensures groups != [] && DirectTable(c, groups[|groups| - 1].handle)
    ensures AllPlanned(c, schema, memory, groups[..|groups| - 1], plans[..|plans| - 1])
  {
    var g, plan := groups[|groups| - 1], plans[|plans| - 1];
    assert PlannedFor(c, schema, memory, g, plan);
    AuthorityDecides(c, schema, memory, false, plan.evidence, g.handle, g.row, g.changes);
  }

  /** Only rows of tables with direct authority are ever planned. */
  lemma {:induction false} PlannedAreDirect(
    c: Catalog, schema: seq<TableSchema>, memory: Memory, groups: seq<Group>, plans: seq<FieldWritePlan>)
    requires AllPlanned(c, schema, memory, groups, plans)
    ensures AllDirect(c, groups)
  {
    if plans != [] {
      LastIsDirect(c, schema, memory, groups, plans);
      PlannedAreDirect(c, schema, memory, groups[..|groups| - 1], plans[..|plans| - 1]);
    }
  }

  /** Why a group cannot be planned on a current catalog and this memory, if it cannot. */
  function GroupRefusal(c: Catalog, schema: seq<TableSchema>, memory: Memory, g: Group): Option<PlanCode> {
    var plan := PlanOf(c, schema, memory, false, Evidence(0, [], []), g.handle, g.row, g.changes);
    if plan.ok then None else Some(plan.code)
  }

  /** A revalidation failed: the catalog had no entries, or it lost some and is under a new generation. */
  ghost predicate CatalogLost(c: Catalog, now: Catalog, discovery: DiscoveryBackend) {
    && (c.entries == [] || now.generation == NextGeneration(c.generation))
    && (Steady(discovery) ==> !Passes(c, discovery.view(0), discovery.allocations(0)))
  }

  /** The last of the calls from `lo` to `hi` was a read that failed. */
  predicate LastReadFailed(faults: Faults, lo: nat, hi: nat) {
    lo < hi && faults.readFails(hi - 1)
  }

  /** Why the plan of a group was refused. */
  ghost predicate PlanRefusal(
    c: Catalog, now: Catalog, discovery: DiscoveryBackend, schema: seq<TableSchema>, memory: Memory, readFailed: bool,
    g: Group, code: PlanCode)
  {
    || (code.CatalogStale? && CatalogLost(c, now, discovery))
    || (now == c && GroupRefusal(c, schema, memory, g) == Some(code))
    || (now == c && code.ReadFailed? && readFailed)
  }

  /** The groups whose plan may have been refused with this code. */
  ghost function RefusedGroups(
    c: Catalog, now: Catalog, discovery: DiscoveryBackend, schema: seq<TableSchema>, memory: Memory, readFailed: bool,
    sorted: seq<PendingChange>, code: PlanCode): iset<Group>
  {
    iset g | IsGroup(sorted, g) && PlanRefusal(c, now, discovery, schema, memory, readFailed, g, code)
  }

  /** Nothing around the transaction stands in its way: the catalog passes on steady discovery memory, the
      backend has no faults, and every row's changes can be planned. */
  ghost predicate Unhindered(
    c: Catalog, discovery: DiscoveryBackend, schema: seq<TableSchema>, memory: Memory, faults: Faults,
    sorted: seq<PendingChange>)
  {
    && Steady(discovery) && Passes(c, discovery.view(0), discovery.allocations(0)) && Honest(faults)
    && forall g :: IsGroup(sorted, g) ==> GroupRefusal(c, schema, memory, g).None?
  }

  lemma {:induction false} UnhinderedPlans(
    c: Catalog, now: Catalog, discovery: DiscoveryBackend, schema: seq<TableSchema>, memory: Memory, faults: Faults,
    sorted: seq<PendingChange>, code: PlanCode, lo: nat, hi: nat)
    requires Unhindered(c, discovery, schema, memory, faults, sorted)
    ensures RefusedGroups(c, now, discovery, schema, memory, LastReadFailed(faults, lo, hi), sorted, code) == iset{}
  {
    assert lo < hi ==> CallHonest(faults, hi - 1);
  }

  lemma {:induction false} PlanOutcome(
    c: Catalog, schema: seq<TableSchema>, memory: Memory, fault: bool, evidence: Evidence, g: Group)
    ensures var plan := PlanOf(c, schema, memory, fault, evidence, g.handle, g.row, g.changes);
      !plan.ok ==> GroupRefusal(c, schema, memory, g) == Some(plan.code) || (fault && plan.code.ReadFailed?)
  {
  }

  ghost predicate Planning(
    c: Catalog, schema: seq<TableSchema>, memory: Memory, sorted: seq<PendingChange>, cursor: nat, groups: seq<Group>,
    plans: seq<FieldWritePlan>)
  {
    GroupedUpTo(sorted, cursor, groups) && AllPlanned(c, schema, memory, groups, plans)
  }

  method NextGroup(sorted: seq<PendingChange>, cursor: nat, ghost groups: seq<Group>) returns (group: Group, next: nat)
    requires Sorted(sorted) && cursor < |sorted| && GroupedUpTo(sorted, cursor, groups)
    ensures cursor < next <= |sorted| && GroupedUpTo(sorted, next, groups + [group]) && IsGroup(sorted, group)
  {
    group, next := TakeGroup(sorted, cursor);
    GroupTaken(sorted, cursor, groups, group, next);
    assert RunOf(sorted, cursor, next, group);
  }

  lemma {:induction false} PlannedOnce(
    c: Catalog, schema: seq<TableSchema>, memory: Memory, fault: bool, evidence: Evidence, g: Group,
    plan: FieldWritePlan)
    requires plan.ok && plan == PlanOf(c, schema, memory, fault, evidence, g.handle, g.row, g.changes)
    requires EvidenceIsActive(c, evidence) && evidence.guards in Justifications(c)
    ensures PlannedFor(c, schema, memory, g, plan)
  {
    assert !fault && plan.evidence == evidence;
  }

  lemma {:induction false} PlanAdded(
    c: Catalog, schema: seq<TableSchema>, memory: Memory, groups: seq<Group>, plans: seq<FieldWritePlan>, g: Group,
    plan: FieldWritePlan)
    requires AllPlanned(c, schema, memory, groups, plans) && PlannedFor(c, schema, memory, g, plan)
    ensures AllPlanned(c, schema, memory, groups + [g], plans + [plan])
  {
    SeqFacts.PushFront(groups, g);
    SeqFacts.PushFront(plans, plan);
  }

  lemma {:induction false} DistinctPush(pending: seq<PendingChange>, change: PendingChange)
    requires FieldsDistinct(pending) && NoField(pending, change)
    ensures FieldsDistinct(pending + [change])
  {
  }

  /** The plan of one group, on a catalog that stays as it is. */
  method PlanGroup(
    session: Session, discovery: DiscoveryBackend, backend: MemoryBackend, schema: seq<TableSchema>, group: Group)
    returns (plan: FieldWritePlan)
    requires session.Valid()
    modifies session, discovery, backend`calls
    ensures session.Valid() && old(backend.calls) <= backend.calls
    ensures plan.ok ==>
      session.State() == old(session.State()) && PlannedFor(session.State(), schema, backend.memory, group, plan)
    ensures !plan.ok ==> PlanRefusal(
      old(session.State()), session.State(), discovery, schema, backend.memory,
      LastReadFailed(backend.faults, old(backend.calls), backend.calls), group, plan.code)
  {
    ghost var fault := backend.faults.readFails(backend.calls);
    ghost var current;
    plan, current := PlanFieldWrites(session, discovery, backend, schema, group.handle, group.row, group.changes);
    if plan.ok {
      PlannedOnce(session.State(), schema, backend.memory, backend.faults.readFails(old(backend.calls)),
          current.value, group, plan);
    } else if current.Some? {
      PlanOutcome(session.State(), schema, backend.memory, fault, current.value, group);
      PlanOutcome(session.State(), schema, backend.memory, false, current.value, group);
    }
  }

  method PlanNext(
    session: Session, discovery: DiscoveryBackend, backend: MemoryBackend, schema: seq<TableSchema>,
    sorted: seq<PendingChange>, cursor: nat, before: seq<FieldWritePlan>, ghost grouped: seq<Group>, ghost c: Catalog,
    ghost lo: nat)
    returns (refused: Option<PlanCode>, next: nat, plans: seq<FieldWritePlan>, ghost groups: seq<Group>)
    requires session.Valid() && Sorted(sorted) && cursor < |sorted| && lo <= backend.calls
    requires session.State() == c && Planning(c, schema, backend.memory, sorted, cursor, grouped, before)
    modifies session, discovery, backend`calls
    ensures session.Valid() && cursor < next && lo <= backend.calls
    ensures refused.None? ==>
      && next <= |sorted| && session.State() == c
      && Planning(c, schema, backend.memory, sorted, next, groups, plans)
    ensures refused.Some? ==>
      RefusedGroups(c, session.State(), discovery, schema, backend.memory,
                    LastReadFailed(backend.faults, lo, backend.calls), sorted, refused.value) != iset{}
  {
    var group;
    group, next := NextGroup(sorted, cursor, grouped);
    var plan := PlanGroup(session, discovery, backend, schema, group);
    plans, groups := before + [plan], grouped + [group];
    refused := if plan.ok then None else Some(plan.code);
    if plan.ok {
      PlanAdded(c, schema, backend.memory, grouped, before, group, plan);
    } else {
      assert group in RefusedGroups(c, session.State(), discovery, schema, backend.memory,
                                    LastReadFailed(backend.faults, lo, backend.calls), sorted, plan.code);
    }
  }

  /** The planning loop: one plan for each row that has changes. */
  method PlanGroups(
    session: Session, discovery: DiscoveryBackend, backend: MemoryBackend, schema: seq<TableSchema>,
    sorted: seq<PendingChange>)
    returns (refused: Option<PlanCode>, plans: seq<FieldWritePlan>, ghost groups: seq<Group>)
    requires session.Valid() && Sorted(sorted)
    modifies session, discovery, backend`calls
    ensures session.Valid()
    ensures refused.None? ==>
      && session.State() == old(session.State())
      && Planning(session.State(), schema, backend.memory, sorted, |sorted|, groups, plans)
    ensures refused.Some? ==>
      RefusedGroups(old(session.State()), session.State(), discovery, schema, backend.memory,
                    LastReadFailed(backend.faults, old(backend.calls), backend.calls), sorted, refused.value) != iset{}
  {
    plans, groups, refused := [], [], None;
    var cursor := 0;
    ghost var c, lo := session.State(), backend.calls;
    while cursor < |sorted|
      invariant session.Valid() && session.State() == c && refused.None? && lo <= backend.calls
      invariant Planning(c, schema, backend.memory, sorted, cursor, groups, plans)
      decreases |sorted| - cursor
    {
      refused, cursor, plans, groups :=
        PlanNext(session, discovery, backend, schema, sorted, cursor, plans, groups, c, lo);
      if refused.Some? {
        return;
      }
    }
  }

  /** The transaction has reached the engine and applied: its plans finalise, hold and may write. */
  ghost predicate Appliable(c: Catalog, plans: seq<FieldWritePlan>, memory: Memory, writable: set<int>) {
    Finalisable(c, plans) && PlansHold(memory, plans) && WritesAllowed(writable, plans)
  }

  /** The catalog passes on the memory as long as its own allocations are there. */
  ghost predicate PassesOn(c: Catalog, memory: Memory) {
    forall allocations :: AllocationsThere(c, allocations) ==> Passes(c, memory, allocations)
  }

  /** Plans that hold were made on a catalog that passes. */
  lemma {:induction false} AppliedOnPassing(
    c: Catalog, schema: seq<TableSchema>, planned: Memory, groups: seq<Group>, plans: seq<FieldWritePlan>,
    memory: Memory)
    requires AllPlanned(c, schema, planned, groups, plans) && plans != [] && PlansHold(memory, plans)
    ensures PassesOn(c, memory)
  {
    var plan := plans[|plans| - 1];
    assert PlannedFor(c, schema, planned, groups[|plans| - 1], plan);
    forall allocations | AllocationsThere(c, allocations)
      ensures Passes(c, memory, allocations)
    {
      HeldCatalogPasses(c, memory, allocations, plans, plan);
    }
  }

  /** Whether the submitter ran. */
  predicate Submitted(error: Option<FinishError>) {
    error.None? || error.value.EngineFailed?
  }

  /** What planning and submitting amount to. The submitter ran only on planned and finalisable plans; every error
      has its cause; success means that the plans held, on a catalog that passed, and are applied; and where
      nothing is in the way, finalisable plans are submitted, and applied exactly if they hold and may write. */
  ghost predicate SubmitMeans(
    c: Catalog, now: Catalog, discovery: DiscoveryBackend, schema: seq<TableSchema>, before: Memory, after: Memory,
    faults: Faults, lo: nat, hi: nat, writable: set<int>, sorted: seq<PendingChange>, error: Option<FinishError>,
    plans: seq<FieldWritePlan>, groups: seq<Group>)
  {
    && (error.Some? ==> error.value.PlanRefused? || error.value.FinalRefused? || error.value.EngineFailed?)
    && (Submitted(error) || error.value.FinalRefused? ==>
      now == c && Planning(now, schema, before, sorted, |sorted|, groups, plans))
    && (Submitted(error) ==> Finalisable(now, plans))
    && (error.Some? && error.value.FinalRefused? ==> !Finalisable(now, plans))
    && (error.Some? && error.value.PlanRefused? ==>
      RefusedGroups(c, now, discovery, schema, before, LastReadFailed(faults, lo, hi), sorted,
                    error.value.plan) != iset{})
    && (!Submitted(error) ==> after == before)
    && (error.Some? && error.value.EngineFailed? ==> !Structural(error.value.engine))
    && (error.None? ==> PlansHold(before, plans) && PlansApplied(before, after, plans) && PassesOn(now, before))
    && (Unhindered(c, discovery, schema, before, faults, sorted) ==>
      && now == c && (Submitted(error) <==> Finalisable(now, plans))
      && (error.None? <==> Appliable(now, plans, before, writable)))
  }

  /** What the engine has to show for it: one run more, of the request these plans finalise into, if the submitter
      ran; and otherwise neither a run nor a write. */
  ghost predicate RunOnce(
    c: Catalog, error: Option<FinishError>, plans: seq<FieldWritePlan>, runs: seq<Request>, runsAfter: seq<Request>,
    issued: seq<WriteCall>, issuedAfter: seq<WriteCall>)
  {
    && (Submitted(error) ==>
      && Finalisable(c, plans)
      && runsAfter == runs + [Request(LuaTransactionId(c.generation), FinalOperations(AllOperations(plans)))])
    && (!Submitted(error) ==> runsAfter == runs && issuedAfter == issued)
  }

  /** Plan every group, finalise, and hand the request to the engine. */
  method PlanAndSubmit(
    session: Session, discovery: DiscoveryBackend, backend: MemoryBackend, schema: seq<TableSchema>,
    sorted: seq<PendingChange>)
    returns (error: Option<FinishError>, ghost plans: seq<FieldWritePlan>, ghost groups: seq<Group>)
    requires session.Valid() && Sorted(sorted) && sorted != []
    modifies session, discovery, backend
    ensures session.Valid()
    ensures SubmitMeans(old(session.State()), session.State(), discovery, schema, old(backend.memory), backend.memory,
                        backend.faults, old(backend.calls), backend.calls, backend.writable, sorted, error, plans,
                        groups)
    ensures RunOnce(session.State(), error, plans, old(backend.runs), backend.runs, old(backend.issued), backend.issued)
  {
    ghost var c, memory, lo := session.State(), backend.memory, backend.calls;
    var refused, made;
    refused, made, groups := PlanGroups(session, discovery, backend, schema, sorted);
    plans := made;
    if refused.Some? {
      if Unhindered(c, discovery, schema, memory, backend.faults, sorted) {
        UnhinderedPlans(c, session.State(), discovery, schema, memory, backend.faults, sorted, refused.value,
            lo, backend.calls);
      }
      return Some(PlanRefused(refused.value)), plans, groups;
    }
    LuaTransactionIdIsValid(session.generation);
    var final, result := CommitPlans(session.State(), LuaTransactionId(session.generation), made, backend);
    error :=
      if result.None? then Some(FinalRefused(final.code))
      else if result.value.status.AppliedVerified? then None else Some(EngineFailed(result.value.code));
    if error.None? {
      AppliedOnPassing(c, schema, memory, groups, plans, memory);
    }
  }

  /** The refusals before any planning, in their order. */
  function EarlyError(events: seq<Event>, schema: Option<seq<TableSchema>>): Option<FinishError> {
    if !Clean(events) then Some(ContainedRefusal)
    else if Changes(events) == [] then Some(NoChanges)
    else if schema.None? then Some(SchemaMissing) else None
  }

  // ----- the object

  class LuaDatabaseApi {
    const view: nat -> View
    var calls: nat
    var active: bool
    var failed: bool
    var pending: seq<PendingChange>
    ghost var events: seq<Event>

    /** While a transaction runs, it is failed exactly when something in it was refused, and the pending
        changes are the accepted ones; otherwise nothing is left over. */
    ghost predicate Valid()
      reads this
    {
      if active then failed == !Clean(events) && pending == Changes(events) && FieldsDistinct(pending)
      else !failed && pending == []
    }

    constructor (view: nat -> View)
      ensures Valid() && !active && this.view == view && calls == 0
    {
      this.view, calls := view, 0;
      active, failed, pending, events := false, false, [], [];
    }

    ghost method Log(event: Event)
      modifies this`events
      ensures events == old(events) + [event]
      ensures Clean(events) == (event.Changed? && Clean(old(events)))
      ensures Changes(events) == Changes(old(events)) + (if event.Changed? then [event.change] else [])
    {
      SeqFacts.PushFront(events, event);
      events := events + [event];
    }

    method BeginTransaction() returns (ok: bool)
      requires Valid()
      modifies this`calls, this`active, this`failed, this`pending, this`events
      ensures Valid() && active && calls == old(calls) && (ok <==> !old(active))
      ensures ok ==> events == []
      ensures !ok ==> events == old(events) + [NestedBegin]
    {
      if active {
        failed := true;
        Log(NestedBegin);
        return false;
      }
      active, failed, pending, events := true, false, [], [];
      ok := true;
    }

    /** A change is refused or put in the list: the transaction counts as failed until the change is in the list. */
    method Append(change: Option<PendingChange>) returns (ok: bool)
      requires Valid() && active
      modifies this`failed, this`pending, this`events
      ensures Valid() && active
      ensures ok <==> change.Some? && NoField(Changes(old(events)), change.value)
      ensures events == old(events) + [if ok then Changed(change.value) else RefusedChange]
    {
      var alreadyFailed := failed;
      failed := true;
      if change.None? || !NoField(pending, change.value) {
        Log(RefusedChange);
        return false;
      }
      Log(Changed(change.value));
      DistinctPush(pending, change.value);
      pending := pending + [change.value];
      failed := alreadyFailed;
      ok := true;
    }

    method PrepareSetField(handle: TableHandle, row: nat, name: string, value: LuaValue) returns (ok: bool)
      requires Valid() && active
      modifies this`calls, this`active, this`failed, this`pending, this`events
      ensures Valid() && active
      ensures (Progress(calls, events), !ok) ==
        AfterPrepare(AdmittedChange(view(old(calls)), handle, row, name, value), Progress(old(calls), old(events)))
      ensures PreparedAs(view(old(calls)), handle, row, name, value, old(events), events, ok)
    {
      PrepareMeans(view(calls), handle, row, name, value, Progress(calls, events));
      var change := AdmittedChange(view(calls), handle, row, name, value);
      calls := calls + 1;
      ok := Append(change);
    }

    /** One call of the set function; every way it can raise an error inside a transaction poisons it. */
    method SetFieldCall(call: SetCall) returns (raised: bool)
      requires Valid()
      modifies this`calls, this`active, this`failed, this`pending, this`events
      ensures Valid() && active == old(active)
      ensures active ==> (Progress(calls, events), raised) == AfterSet(view, call, Progress(old(calls), old(events)))
      ensures !active ==> raised && events == old(events) && calls == old(calls)
    {
      if !active {
        return true;
      }
      if !call.transactionOk || call.record.None? || call.name.None? || call.value.MalformedTable? {
        failed := true;
        Log(RefusedChange);
        return true;
      }
      var ok := PrepareSetField(call.record.value.0, call.record.value.1, call.name.value, call.value);
      raised := !ok;
    }

    method RunAction(action: Action) returns (raised: bool)
      requires Valid() && active
      modifies this`calls, this`active, this`failed, this`pending, this`events
      ensures Valid() && active
      ensures (Progress(calls, events), raised) == AfterAction(view, action, Progress(old(calls), old(events)))
      decreases action, 0
    {
      match action {
        case SetField(call) =>
          raised := SetFieldCall(call);
        case Nested =>
          var began := BeginTransaction();
          raised := !began;
        case RaiseError =>
          raised := true;
        case Protected(body) =>
          var caught := RunScript(body);
          raised := false;
      }
    }

    method RunScript(script: seq<Action>) returns (raised: bool)
      requires Valid() && active
      modifies this`calls, this`active, this`failed, this`pending, this`events
      ensures Valid() && active
      ensures (Progress(calls, events), raised) == AfterScript(view, script, Progress(old(calls), old(events)))
      decreases script, 1
    {
      raised := false;
      var step := 0;
      ghost var whole := AfterScript(view, script, Progress(calls, events));
      assert script[0..] == script;
      while step < |script| && !raised
        invariant step <= |script| && Valid() && active
        invariant whole == if raised then (Progress(calls, events), true)
          else AfterScript(view, script[step..], Progress(calls, events))
        decreases |script| - step
      {
        assert script[step..][0] == script[step] && script[step..][1..] == script[step + 1..];
        raised := RunAction(script[step]);
        step := step + 1;
      }
    }

    method AbortTransaction()
      modifies this`calls, this`active, this`failed, this`pending, this`events
      ensures Valid() && !active && events == old(events) && calls == old(calls)
    {
      active, failed, pending := false, false, [];
    }

    /** The transaction is over whatever follows: the flag and the list are cleared, the changes handed on sorted. */
    method ClosePending(schema: Option<seq<TableSchema>>)
      returns (early: Option<FinishError>, order: seq<PendingChange>)
      requires Valid() && active
      modifies this`active, this`failed, this`pending
      ensures Valid() && !active && early == EarlyError(events, schema)
      ensures early.None? ==> Sorted(order) && multiset(order) == multiset(Changes(events))
    {
      active, order := false, [];
      if failed {
        failed, pending := false, [];
        return Some(ContainedRefusal), order;
      }
      if pending == [] {
        return Some(NoChanges), order;
      }
      order := SortPending(pending);
      pending := [];
      early := if schema.None? then Some(SchemaMissing) else None;
    }

    /** The end of a transaction. The submitter runs at most once, and only on a clean transaction with at least one
        change whose every row was planned and whose plans finalise together; what is early has its own error. */
    method FinishTransaction(
      session: Session, discovery: DiscoveryBackend, backend: MemoryBackend, schema: Option<seq<TableSchema>>)
      returns (error: Option<FinishError>, ghost plans: seq<FieldWritePlan>, ghost groups: seq<Group>,
               ghost sorted: seq<PendingChange>)
      requires Valid() && active && session.Valid()
      modifies this, session, discovery, backend
      ensures Valid() && !active && session.Valid() && events == old(events) && calls == old(calls)
      ensures RunOnce(session.State(), error, plans, old(backend.runs), backend.runs,
                      old(backend.issued), backend.issued)
      ensures EarlyError(events, schema).Some? ==> error == EarlyError(events, schema)
      ensures EarlyError(events, schema).Some? ==>
        backend.memory == old(backend.memory) && session.State() == old(session.State())
      ensures EarlyError(events, schema).None? ==> Sorted(sorted) && multiset(sorted) == multiset(Changes(events))
      ensures EarlyError(events, schema).None? ==>
        SubmitMeans(old(session.State()), session.State(), discovery, schema.value, old(backend.memory),
                    backend.memory, backend.faults, old(backend.calls), backend.calls, backend.writable, sorted,
                    error, plans, groups)
    {
      plans, groups := [], [];
      var early, order := ClosePending(schema);
      sorted := order;
      if early.Some? {
        return early, plans, groups, sorted;
      }
      error, plans, groups := PlanAndSubmit(session, discovery, backend, schema.value, order);
    }

    /** The transaction function, called outside any transaction. Whatever the script does, catching errors
        or not, a request is submitted only if it ended without an error and everything in it was accepted;
        and then every (table, row) was planned once and no change was lost. */
    method Transaction(
      script: seq<Action>, session: Session, discovery: DiscoveryBackend, backend: MemoryBackend,
      schema: Option<seq<TableSchema>>)
      returns (raised: bool, error: Option<FinishError>, ghost plans: seq<FieldWritePlan>, ghost groups: seq<Group>,
               ghost sorted: seq<PendingChange>)
      requires Valid() && !active && session.Valid()
      modifies this, session, discovery, backend
      ensures Valid() && !active && session.Valid()
      ensures (Progress(calls, events), raised) == AfterScript(view, script, Progress(old(calls), []))
      ensures raised ==> backend.runs == old(backend.runs) && backend.issued == old(backend.issued)
      ensures !raised ==> RunOnce(session.State(), error, plans, old(backend.runs), backend.runs,
                                  old(backend.issued), backend.issued)
      ensures !raised && Submitted(error) ==> Clean(events) && Changes(events) != []
      ensures !raised && EarlyError(events, schema).Some? ==> error == EarlyError(events, schema)
      ensures !raised && EarlyError(events, schema).None? ==>
        && Sorted(sorted) && multiset(sorted) == multiset(Changes(events))
        && SubmitMeans(old(session.State()), session.State(), discovery, schema.value, old(backend.memory),
                       backend.memory, backend.faults, old(backend.calls), backend.calls, backend.writable, sorted,
                       error, plans, groups)
      ensures AllAsked(view, script, Changes(events))
      ensures !raised && Submitted(error) ==>
        && AllDirect(session.State(), groups)
        && multiset(PendingChanges.Wishes(PendingChanges.Flatten(groups))) ==
          multiset(PendingChanges.Wishes(Changes(events)))
      ensures !raised && Submitted(error) ==> forall generation :: SameGeneration(Changes(events), generation) ==>
        multiset(PendingChanges.Flatten(groups)) == multiset(Changes(events)) && PendingChanges.Ascending(groups)
      ensures raised || !Submitted(error) ==> backend.memory == old(backend.memory)
    {
      plans, groups, sorted, error := [], [], [], None;
      var began := BeginTransaction();
      raised := RunScript(script);
      EachIsAsked(view, script, Progress(old(calls), []));
      if raised {
        AbortTransaction();
        return;
      }
      error, plans, groups, sorted := FinishTransaction(session, discovery, backend, schema);
      if Submitted(error) {
        NoWishLost(Changes(events), sorted, groups);
        PlannedAreDirect(session.State(), schema.value, old(backend.memory), groups, plans);
        forall generation | SameGeneration(Changes(events), generation)
          ensures multiset(PendingChanges.Flatten(groups)) == multiset(Changes(events))
          ensures PendingChanges.Ascending(groups)
        {
          NothingLost(Changes(events), sorted, groups, generation);
        }
      }
    }
  }
}
