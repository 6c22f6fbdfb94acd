/** From a plan to the record a typed commit leaves. */
module TypedCommit {
  import opened Bytes
  import opened Ranges
  import AddressText
  import opened FieldSchema
  import opened Bits
  import opened Profile
  import opened CatalogState
  import opened CatalogReads
  import opened Revalidation
  import opened MemoryTransaction
  import opened FieldTransaction
  import opened GuardedCommit
  import opened DiffRuns
  import opened RecordAccess

  lemma {:induction false} RunPiece(address: Address, before: seq<Byte>, after: seq<Byte>, r: Range)
    requires |before| == |after| && 0 <= r.begin < r.end <= |before| && address + |before| <= ADDRESS_MAX
    ensures PieceOf(RunOperation(address, before, after, r)) ==
      Some(RawPiece(address + r.begin, before[r.begin..r.end], after[r.begin..r.end], true))
  {
    AddressText.FormatParseBijection(address + r.begin, "");
  }

  lemma {:induction false} RunWritesAt(
    address: Address, before: seq<Byte>, after: seq<Byte>, r: Range, p: Piece, a: int)
    requires |before| == |after| && 0 <= r.begin < r.end <= |before| && address + |before| <= ADDRESS_MAX
    requires PieceOf(RunOperation(address, before, after, r)) == Some(p) && WritesAt(p, a)
    ensures Within(a - address, r) && ReplacementAt(p, a) == after[a - address]
  {
    RunPiece(address, before, after, r);
  }

  lemma {:induction false} WritingOperation(plan: FieldWritePlan, p: Piece, a: int) returns (n: nat)
    requires PlanWrites([plan], p, a)
    ensures n < |plan.operations| && PieceOf(plan.operations[n]) == Some(p) && WritesAt(p, a)
  {
    var op :| op in plan.operations && PieceOf(op) == Some(p) && WritesAt(p, a);
    n :| 0 <= n < |plan.operations| && plan.operations[n] == op;
  }

  /** The plan cut from two images of a record. */
  predicate CutFrom(plan: FieldWritePlan, address: Address, before: seq<Byte>, after: seq<Byte>) {
    && |before| == |after| && address + |before| <= ADDRESS_MAX && InImage(Runs(before, after, 0), |before|)
    && plan.operations == RunOperations(address, before, after, Runs(before, after, 0))
  }

  lemma {:induction false} RunCovers(before: seq<Byte>, after: seq<Byte>, n: nat, k: int)
    requires |before| == |after| && InImage(Runs(before, after, 0), |before|)
    requires n < |Runs(before, after, 0)| && Within(k, Runs(before, after, 0)[n])
    ensures 0 <= k < |before| && before[k] != after[k]
  {
    CoveredByIndex(k, Runs(before, after, 0));
    RunsCoverDifference(before, after, k);
  }

  lemma {:induction false} RunCovering(before: seq<Byte>, after: seq<Byte>, k: nat) returns (n: nat)
    requires |before| == |after| && k < |before| && before[k] != after[k]
    ensures n < |Runs(before, after, 0)| && Within(k, Runs(before, after, 0)[n])
    ensures 0 <= Runs(before, after, 0)[n].begin < Runs(before, after, 0)[n].end <= |before|
  {
    RunsInImage(before, after);
    RunsCoverDifference(before, after, k);
    CoveredByIndex(k, Runs(before, after, 0));
    n :| 0 <= n < |Runs(before, after, 0)| && Within(k, Runs(before, after, 0)[n]);
    RunsStartLate(before, after, 0, n);
  }

  /** Byte `a` is one where the images differ, and `p` gives it the new image's byte. */
  predicate WritesDifference(address: Address, before: seq<Byte>, after: seq<Byte>, p: Piece, a: int)
    requires |before| == |after| && WritesAt(p, a)
  {
    && 0 <= a - address < |before| && before[a - address] != after[a - address]
    && ReplacementAt(p, a) == after[a - address]
  }

  lemma {:induction false} RunWrites(address: Address, before: seq<Byte>, after: seq<Byte>, n: nat, p: Piece, a: int)
    requires |before| == |after| && address + |before| <= ADDRESS_MAX && InImage(Runs(before, after, 0), |before|)
    requires n < |Runs(before, after, 0)| && WritesAt(p, a)
    requires PieceOf(RunOperation(address, before, after, Runs(before, after, 0)[n])) == Some(p)
    ensures WritesDifference(address, before, after, p, a)
  {
    RunsStartLate(before, after, 0, n);
    RunWritesAt(address, before, after, Runs(before, after, 0)[n], p, a);
    RunCovers(before, after, n, a - address);
  }

  ghost predicate Written(plan: FieldWritePlan, a: int) {
    exists p :: PlanWrites([plan], p, a)
  }

  /** The plan writes exactly the bytes where the images differ, and gives them the new image's bytes. */
  ghost predicate WritesImage(plan: FieldWritePlan, address: Address, before: seq<Byte>, after: seq<Byte>) {
    && |before| == |after|
    && (forall p, a :: PlanWrites([plan], p, a) ==> WritesAt(p, a) && WritesDifference(address, before, after, p, a))
    && forall a :: address <= a < address + |before| && before[a - address] != after[a - address] ==> Written(plan, a)
  }

  lemma {:induction false} DifferenceIsWritten(
    plan: FieldWritePlan, address: Address, before: seq<Byte>, after: seq<Byte>, k: nat)
    requires CutFrom(plan, address, before, after)
    requires k < |before| && before[k] != after[k]
    ensures Written(plan, address + k)
  {
    var n := RunCovering(before, after, k);
    RunPiece(address, before, after, Runs(before, after, 0)[n]);
    var p := PieceOf(plan.operations[n]).value;
    assert plan.operations[n] in plan.operations && WritesAt(p, address + k);
    assert plan in [plan];
    assert PlanWrites([plan], p, address + k);
  }

  lemma {:induction false} CutWritesImage(plan: FieldWritePlan, address: Address, before: seq<Byte>, after: seq<Byte>)
    requires CutFrom(plan, address, before, after)
    ensures WritesImage(plan, address, before, after)
  {
    forall p, a | PlanWrites([plan], p, a)
      ensures WritesAt(p, a) && WritesDifference(address, before, after, p, a)
    {
      var n := WritingOperation(plan, p, a);
      RunWrites(address, before, after, n, p, a);
    }
    forall a | address <= a < address + |before| && before[a - address] != after[a - address]
      ensures Written(plan, a)
    {
      DifferenceIsWritten(plan, address, before, after, a - address);
    }
  }

  /** No other plan of the list writes into the record. */
  ghost predicate SoleWriter(plans: seq<FieldWritePlan>, plan: FieldWritePlan, target: WriteTarget) {
    forall p, a :: target.address <= a < target.address + target.size && PlanWrites(plans, p, a) ==>
      PlanWrites([plan], p, a)
  }

  /** `base` with the bytes in which two images of it differ replaced. */
  function Patched(base: seq<Byte>, live: seq<Byte>, changed: seq<Byte>): (patched: seq<Byte>)
    requires |base| == |live| == |changed|
    ensures |patched| == |base|
    ensures forall k :: 0 <= k < |base| ==> patched[k] == if live[k] != changed[k] then changed[k] else base[k]
  {
    seq(|base|, k requires 0 <= k < |base| => if live[k] != changed[k] then changed[k] else base[k])
  }

  /** The bytes the plan neither writes nor guards are still as they were planned. */
  predicate UnguardedKept(planned: Memory, before: Memory, target: WriteTarget, changed: seq<Byte>)
    requires TargetReadable(planned, target) && TargetReadable(before, target) && |changed| == target.size
  {
    var live, base := LiveRecord(planned, target), LiveRecord(before, target);
    forall k :: 0 <= k < target.size && live[k] == changed[k] ==> base[k] == live[k]
  }

  lemma {:induction false} PatchedIsChanged(base: seq<Byte>, live: seq<Byte>, changed: seq<Byte>)
    requires |base| == |live| == |changed|
    ensures Patched(base, live, changed) == changed <==>
      forall k :: 0 <= k < |base| && live[k] == changed[k] ==> base[k] == live[k]
  {
  }

  lemma {:induction false} PlannedIsCut(
    memory: Memory, target: WriteTarget, changes: seq<FieldChange>, plan: FieldWritePlan)
    requires TargetReadable(memory, target) && |target.definitions| == |changes|
    requires PlannedOperations(memory, target, changes) == Ok(plan.operations)
    ensures ChangedRecord(memory, target, changes).Ok?
    ensures WritesImage(plan, target.address, LiveRecord(memory, target), ChangedRecord(memory, target, changes).value)
  {
    RunsInImage(LiveRecord(memory, target), ChangedRecord(memory, target, changes).value);
    CutWritesImage(plan, target.address, LiveRecord(memory, target), ChangedRecord(memory, target, changes).value);
  }

  predicate ByteIs(memory: Memory, address: Address, bytes: seq<Byte>, a: int)
    requires address <= a < address + |bytes|
  {
    a in memory && memory[a] == bytes[a - address]
  }

  lemma {:induction false} LiveByte(memory: Memory, target: WriteTarget, a: int)
    requires TargetReadable(memory, target) && target.address <= a < target.address + target.size
    ensures ByteIs(memory, target.address, LiveRecord(memory, target), a)
  {
  }

  lemma {:induction false} SliceIs(memory: Memory, address: Address, bytes: seq<Byte>)
    requires forall a :: address <= a < address + |bytes| ==> ByteIs(memory, address, bytes, a)
    ensures Mapped(memory, address, |bytes|) && Slice(memory, address, |bytes|) == bytes
  {
    assert Mapped(memory, address, |bytes|) by {
      forall a | address <= a < address + |bytes|
        ensures a in memory
      {
        assert ByteIs(memory, address, bytes, a);
      }
    }
    forall i | 0 <= i < |bytes|
      ensures Slice(memory, address, |bytes|)[i] == bytes[i]
    {
      assert ByteIs(memory, address, bytes, address + i);
    }
  }

  lemma {:induction false} PlanWritesMore(plans: seq<FieldWritePlan>, plan: FieldWritePlan, p: Piece, a: int)
    requires plan in plans && PlanWrites([plan], p, a)
    ensures PlanWrites(plans, p, a)
  {
  }

  lemma {:induction false} CommittedByte(
    before: Memory, after: Memory, plans: seq<FieldWritePlan>, plan: FieldWritePlan, target: WriteTarget,
    base: seq<Byte>, live: seq<Byte>, changed: seq<Byte>, a: int)
    requires PlansApplied(before, after, plans) && plan in plans && SoleWriter(plans, plan, target)
    requires WritesImage(plan, target.address, live, changed) && |live| == |base| == target.size
    requires target.address <= a < target.address + target.size && ByteIs(before, target.address, base, a)
    ensures ByteIs(after, target.address, Patched(base, live, changed), a)
  {
    assert a in after.Keys;
    if Written(plan, a) {
      var p :| PlanWrites([plan], p, a);
      PlanWritesMore(plans, plan, p, a);
    }
    forall p | PlanWrites(plans, p, a)
      ensures Written(plan, a)
    {
      assert PlanWrites([plan], p, a);
    }
  }

  lemma {:induction false} CommittedImage(
    before: Memory, after: Memory, plans: seq<FieldWritePlan>, plan: FieldWritePlan, target: WriteTarget,
    live: seq<Byte>, changed: seq<Byte>)
    requires PlansApplied(before, after, plans) && plan in plans && SoleWriter(plans, plan, target)
    requires TargetReadable(before, target) && |live| == target.size
    requires WritesImage(plan, target.address, live, changed)
    ensures TargetReadable(after, target)
    ensures LiveRecord(after, target) == Patched(LiveRecord(before, target), live, changed)
  {
    var base := LiveRecord(before, target);
    forall a | target.address <= a < target.address + target.size
      ensures ByteIs(after, target.address, Patched(base, live, changed), a)
    {
      LiveByte(before, target, a);
      CommittedByte(before, after, plans, plan, target, base, live, changed, a);
    }
    SliceIs(after, target.address, Patched(base, live, changed));
  }

  /** A committed plan's record, no other plan of the list writing into it: the record found at the commit
      with the differing bytes replaced. A plan guards only the bytes it writes, so this is the record
      that was planned exactly when the other bytes have not changed since planning. */
  lemma {:induction false} CommittedRecord(
    planned: Memory, before: Memory, after: Memory, plans: seq<FieldWritePlan>, plan: FieldWritePlan,
    target: WriteTarget, changes: seq<FieldChange>)
    requires PlansApplied(before, after, plans) && plan in plans && SoleWriter(plans, plan, target)
    requires TargetReadable(planned, target) && TargetReadable(before, target) && |target.definitions| == |changes|
    requires PlannedOperations(planned, target, changes) == Ok(plan.operations)
    ensures TargetReadable(after, target) && ChangedRecord(planned, target, changes).Ok?
    ensures var changed := ChangedRecord(planned, target, changes).value;
      && LiveRecord(after, target) == Patched(LiveRecord(before, target), LiveRecord(planned, target), changed)
      && (LiveRecord(after, target) == changed <==> UnguardedKept(planned, before, target, changed))
  {
    PlannedIsCut(planned, target, changes, plan);
    var changed := ChangedRecord(planned, target, changes).value;
    CommittedImage(before, after, plans, plan, target, LiveRecord(planned, target), changed);
    PatchedIsChanged(LiveRecord(before, target), LiveRecord(planned, target), changed);
  }

  // ----- a commit that leaves another record than the planned one

  const BYTE_FIELD := FieldDefinition("f", Unsigned, 0, 1, 0, 8, 0, 255, None)

  /** A row of two bytes at `x`, of which one field takes the first. */
  function TwoBytes(x: Address): WriteTarget {
    WriteTarget(
      CatalogDescriptor(1, 1, x, 2, 1, x, 2, CanonicalRecords, None, 0, 1, DirectVerified), 2, x, [BYTE_FIELD])
  }

  function SetToOne(): seq<FieldChange> {
    [FieldChange("f", Number(1))]
  }

  /** The two bytes, and a guarded byte 5 at `y`. */
  function RowBytes(x: Address, y: Address, first: Byte, second: Byte): Memory {
    map[x := first, x + 1 := second, y := 5]
  }

  /** The plan that sets the field from 0 to 1. */
  function ByteWrite(x: Address, y: Address): FieldWritePlan
    requires x + 2 <= ADDRESS_MAX
  {
    FieldWritePlan(true, Planned, Evidence(1, [1], [Guard(y, [5])]), [RunOperation(x, [0, 0], [1, 0], Range(0, 1))])
  }

  lemma {:induction false} OneStored(d: FieldDefinition, storage: nat, raw: nat)
    requires d.bitWidth == 8 && d.bitOffset == 0 && d.storageBytes == 1 && storage == 0 && raw == 1
    ensures UpdatedStorage(storage, d, raw) == 1
  {
    assert Shl(Pow2(8) - 1, 0) == 255 && Shl(raw, 0) == 1;
    assert And(storage, Not(255, 64)) == 0;
    assert And(1, 255) == 1;
    assert Or(0, 1) == 1;
  }

  lemma {:induction false} OneEncoded(record: seq<Byte>, d: FieldDefinition)
    requires record == [0, 0] && d == BYTE_FIELD
    ensures Encode(record, d, Number(1)) == Ok([1, 0])
  {
    assert Pow2(8) == 256 && DefinitionFault(2, d).None?;
    assert Window(record, d) == [0];
    assert StorageOf([0]) == 0 by {
      assert [0][..0] == [];
    }
    OneStored(d, 0, 1);
    assert LowByte(1) == 1 && Shr(1, 8) == 0 && StorageBytes(0, 0) == [];
    assert StorageBytes(1, 1) == [1];
    assert Stored(record, 0, 1, 1) == [1, 0];
  }

  lemma {:induction false} OneRun(before: seq<Byte>, after: seq<Byte>)
    requires before == [0, 0] && after == [1, 0]
    ensures Runs(before, after, 0) == [Range(0, 1)]
  {
    assert NextDifference(before, after, 0) == 0 && NextAgreement(before, after, 0) == 1;
    assert NextDifference(before, after, 1) == 2;
  }

  lemma {:induction false} OneChange(record: seq<Byte>, definitions: seq<FieldDefinition>, changes: seq<FieldChange>)
    requires |definitions| == |changes| == 1
    ensures EncodeAll(record, definitions, changes) == Encode(record, definitions[0], changes[0].value)
  {
    assert definitions[..0] == [] && changes[..0] == [];
    assert EncodeAll(record, definitions[..0], changes[..0]) == Ok(record);
  }

  lemma {:induction false} OneCut(x: Address, before: seq<Byte>, after: seq<Byte>)
    requires before == [0, 0] && after == [1, 0] && x + 2 <= ADDRESS_MAX
    ensures InImage(Runs(before, after, 0), 2)
    ensures RunOperations(x, before, after, Runs(before, after, 0)) == [RunOperation(x, before, after, Range(0, 1))]
  {
    OneRun(before, after);
  }

  lemma {:induction false} OnePiece(x: Address, before: seq<Byte>, after: seq<Byte>)
    requires before == [0, 0] && after == [1, 0] && x + 2 <= ADDRESS_MAX
    ensures PieceOf(RunOperation(x, before, after, Range(0, 1))) == Some(RawPiece(x, [0], [1], true))
  {
    RunPiece(x, before, after, Range(0, 1));
    assert before[0..1] == [0] && after[0..1] == [1];
  }

  lemma {:induction false} OnePlanned(memory: Memory, target: WriteTarget, changes: seq<FieldChange>)
    requires TargetReadable(memory, target) && |target.definitions| == |changes| && target.address + 2 <= ADDRESS_MAX
    requires LiveRecord(memory, target) == [0, 0] && ChangedRecord(memory, target, changes) == Ok([1, 0])
    ensures PlannedOperations(memory, target, changes) ==
      Ok([RunOperation(target.address, [0, 0], [1, 0], Range(0, 1))])
  {
    var live, changed := LiveRecord(memory, target), ChangedRecord(memory, target, changes).value;
    OneRun(live, changed);
    OneCut(target.address, live, changed);
  }

  lemma {:induction false} RowIs(x: Address, y: Address, first: Byte, second: Byte)
    requires x + 2 <= ADDRESS_MAX && y != x && y != x + 1
    ensures TargetReadable(RowBytes(x, y, first, second), TwoBytes(x))
    ensures LiveRecord(RowBytes(x, y, first, second), TwoBytes(x)) == [first, second]
  {
  }

  lemma {:induction false} ByteWritePlanned(x: Address, y: Address)
    requires x + 2 <= ADDRESS_MAX && y != x && y != x + 1
    ensures var memory, target := RowBytes(x, y, 0, 0), TwoBytes(x);
      && TargetReadable(memory, target)
      && PlannedOperations(memory, target, SetToOne()) == Ok(ByteWrite(x, y).operations)
      && ChangedRecord(memory, target, SetToOne()) == Ok([1, 0])
  {
    var memory, target, changes := RowBytes(x, y, 0, 0), TwoBytes(x), SetToOne();
    RowIs(x, y, 0, 0);
    OneChange([0, 0], target.definitions, changes);
    OneEncoded([0, 0], target.definitions[0]);
    OnePlanned(memory, target, changes);
  }

  lemma {:induction false} ByteWriteHolds(x: Address, y: Address, memory: Memory)
    requires x + 2 <= ADDRESS_MAX && y < ADDRESS_MAX
    requires x in memory && memory[x] == 0 && y in memory && memory[y] == 5
    ensures PlansHold(memory, [ByteWrite(x, y)])
  {
    var plan := ByteWrite(x, y);
    OnePiece(x, [0, 0], [1, 0]);
    AddressText.FormatParseBijection(y, "");
    var guard := GuardOperation(Guard(y, [5]));
    assert PieceOf(guard) == Some(RawPiece(y, [5], [], false));
    assert PlanOperations(plan) == [guard] + plan.operations;
  }

  /** The plan writes one byte at `x`, and nothing else. */
  lemma {:induction false} ByteWriteWrites(x: Address, y: Address, p: Piece, a: int)
    requires x + 2 <= ADDRESS_MAX
    ensures PlanWrites([ByteWrite(x, y)], p, a) <==> p == RawPiece(x, [0], [1], true) && a == x
  {
    var plan := ByteWrite(x, y);
    OnePiece(x, [0, 0], [1, 0]);
    if p == RawPiece(x, [0], [1], true) && a == x {
      assert plan in [plan] && plan.operations[0] in plan.operations && WritesAt(p, a);
    }
  }

  lemma {:induction false} ByteWriteApplied(x: Address, y: Address, before: Memory, after: Memory)
    requires x + 2 <= ADDRESS_MAX && x in before && after == before[x := 1]
    ensures PlansApplied(before, after, [ByteWrite(x, y)])
  {
    forall p, a
      ensures PlanWrites([ByteWrite(x, y)], p, a) <==> p == RawPiece(x, [0], [1], true) && a == x
    {
      ByteWriteWrites(x, y, p, a);
    }
    assert PlanWrites([ByteWrite(x, y)], RawPiece(x, [0], [1], true), x);
  }

  /** A byte of the row the plan does not write changes between planning and commit: the plan still holds and is
      applied, but the row is not the one that was planned. */
  lemma {:induction false} UnguardedByteSurvives(x: Address, y: Address, v: Byte)
    requires x + 2 <= ADDRESS_MAX && y < ADDRESS_MAX && y != x && y != x + 1 && v != 0
    ensures var planned, before, after := RowBytes(x, y, 0, 0), RowBytes(x, y, 0, v), RowBytes(x, y, 1, v);
      && TargetReadable(planned, TwoBytes(x)) && TargetReadable(after, TwoBytes(x))
      && PlannedOperations(planned, TwoBytes(x), SetToOne()) == Ok(ByteWrite(x, y).operations)
      && PlansHold(before, [ByteWrite(x, y)]) && PlansApplied(before, after, [ByteWrite(x, y)])
      && ChangedRecord(planned, TwoBytes(x), SetToOne()) == Ok([1, 0])
      && LiveRecord(after, TwoBytes(x)) == [1, v]
  {
    ByteWritePlanned(x, y);
    ByteWriteHolds(x, y, RowBytes(x, y, 0, v));
    assert RowBytes(x, y, 1, v) == RowBytes(x, y, 0, v)[x := 1];
    ByteWriteApplied(x, y, RowBytes(x, y, 0, v), RowBytes(x, y, 1, v));
    RowIs(x, y, 1, v);
  }

  lemma {:induction false} GuardPiece(g: Guard, memory: Memory)
    requires PieceOf(GuardOperation(g)).Some? && PieceHeld(memory, PieceOf(GuardOperation(g)).value)
    ensures GuardHolds(memory, g)
  {
    AddressText.FormatParseBijection(g.address, "");
    var p := PieceOf(GuardOperation(g)).value;
    forall a | g.address <= a < g.address + |g.expected|
      ensures a in memory && memory[a] == g.expected[a - g.address]
    {
      assert ExpectedAt(p, a) == g.expected[a - g.address];
    }
  }

  lemma {:induction false} GuardsHeld(memory: Memory, plans: seq<FieldWritePlan>, plan: FieldWritePlan)
    requires PlansHold(memory, plans) && plan in plans
    ensures AllHold(memory, plan.evidence.guards)
  {
    var guards := plan.evidence.guards;
    forall i | 0 <= i < |guards|
      ensures GuardHolds(memory, guards[i])
    {
      var op := GuardOperations(guards)[i];
      assert PlanOperations(plan)[i] == op && op in PlanOperations(plan);
      GuardPiece(guards[i], memory);
    }
  }

  /** What the guards are for: memory on which a plan holds is memory on which the whole catalog passes, its
      allocations still there. */
  lemma {:induction false} HeldCatalogPasses(
    c: Catalog, memory: Memory, allocations: Allocations, plans: seq<FieldWritePlan>, plan: FieldWritePlan)
    requires PlansHold(memory, plans) && plan in plans && GuardsJustify(c, plan.evidence.guards)
    requires AllocationsThere(c, allocations)
    ensures Passes(c, memory, allocations)
  {
    GuardsHeld(memory, plans, plan);
    GuardSufficiency(c, plan.evidence.guards, memory, allocations);
  }

  predicate SameRecord(m: Memory, n: Memory, target: WriteTarget) {
    TargetReadable(m, target) && TargetReadable(n, target) && LiveRecord(m, target) == LiveRecord(n, target)
  }

  lemma {:induction false} SameRecordSameFields(
    c: Catalog, schema: seq<TableSchema>, m: Memory, n: Memory, handle: TableHandle, row: nat,
    changes: seq<FieldChange>)
    requires TargetOf(c, schema, handle, row, changes).Ok?
    requires SameRecord(m, n, TargetOf(c, schema, handle, row, changes).value)
    ensures FieldsOf(c, schema, m, false, handle, row, Names(changes)) ==
      FieldsOf(c, schema, n, false, handle, row, Names(changes))
  {
  }

  /** The whole way: plan, finalise, run, read. After an applied commit the changed fields read back as requested
      exactly if the changes agree (an indexed array's, if it stands for those values), and a field disjoint from them
      decodes as it did when planned. */
  lemma {:induction false} CommitReadsBack(
    c: Catalog, schema: seq<TableSchema>, planned: Memory, before: Memory, after: Memory, plans: seq<FieldWritePlan>,
    plan: FieldWritePlan, handle: TableHandle, row: nat, changes: seq<FieldChange>, e: FieldDefinition)
    requires TargetOf(c, schema, handle, row, changes).Ok?
    requires var target := TargetOf(c, schema, handle, row, changes).value;
      && TargetReadable(planned, target) && TargetReadable(before, target) && SoleWriter(plans, plan, target)
      && PlannedOperations(planned, target, changes) == Ok(plan.operations)
      && ChangedRecord(planned, target, changes).Ok?
      && UnguardedKept(planned, before, target, ChangedRecord(planned, target, changes).value)
    requires PlansApplied(before, after, plans) && plan in plans
    ensures FieldsOf(c, schema, after, false, handle, row, Names(changes)) == Ok(Values(changes)) <==>
      ReadsBack(c, handle.generation, TargetOf(c, schema, handle, row, changes).value, row, changes)
    ensures var target := TargetOf(c, schema, handle, row, changes).value;
      DisjointFrom(target.definitions, e) ==>
        TargetReadable(after, target) && Decode(RecordIn(after, target), e) == Decode(RecordIn(planned, target), e)
  {
    var target := TargetOf(c, schema, handle, row, changes).value;
    CommittedRecord(planned, before, after, plans, plan, target, changes);
    ReadAfterWrite(c, schema, planned, handle, row, changes);
    PlanMeaning(planned, target, changes, e);
    PlanCommits(planned, target, changes);
    ImageInPlace(planned, target, ChangedRecord(planned, target, changes).value);
    SameRecordSameFields(c, schema, Committed(planned, plan.operations), after, handle, row, changes);
  }
}
