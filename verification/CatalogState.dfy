/** The session catalog as a value: what each operation does to it, and what every run of them keeps. */
module CatalogState {
  import opened Bytes
  import opened Profile

  datatype TableStorage = CanonicalRecords | WordSwappedRecords | IndexedReferenceArray

  // ----- what discovery delivers

  datatype TableState = Resolved | Missing | Ambiguous | Unstable | RelationshipFailed | AllocationInvalid

  datatype TableDescriptor = TableDescriptor(
    uniqueId: nat, base: Address, stride: nat, capacity: nat, allocationBase: Address, allocationSize: nat,
    storage: TableStorage, virtualTarget: Option<nat>, virtualWidth: nat, directWriteVerified: bool)

  datatype TableDiscovery = TableDiscovery(uniqueId: nat, state: TableState, descriptor: Option<TableDescriptor>)

  datatype DiscoveryResult = DiscoveryResult(valid: bool, tables: seq<TableDiscovery>)

  // ----- the catalog

  datatype CatalogDescriptor = CatalogDescriptor(
    uniqueId: nat, sessionTableId: nat, base: Address, stride: nat, capacity: nat,
    allocationBase: Address, allocationSize: nat, storage: TableStorage,
    virtualTarget: Option<nat>, virtualWidth: nat, generation: nat, authority: AuthorityStatus)

  datatype Entry = Entry(descriptor: CatalogDescriptor, profile: TableProfile)

  datatype Catalog = Catalog(generation: nat, gameReady: bool, schema: seq<TableSchema>, entries: seq<Entry>)

  datatype TableHandle = TableHandle(uniqueId: nat, generation: nat)

  datatype Guard = Guard(address: Address, expected: seq<Byte>)

  datatype Evidence = Evidence(generation: nat, activeUniqueIds: seq<nat>, guards: seq<Guard>)

  const EMPTY_CATALOG := Catalog(0, true, [], [])

  // ----- generations: 64-bit, skipping zero

  const GENERATIONS: nat := 0xFFFF_FFFF_FFFF_FFFF

  function NextGeneration(g: nat): nat {
    if (g + 1) % (GENERATIONS + 1) == 0 then 1 else (g + 1) % (GENERATIONS + 1)
  }

  function AdvanceTimes(g: nat, n: nat): nat {
    if n == 0 then g else NextGeneration(AdvanceTimes(g, n - 1))
  }

  lemma {:induction false} MultipleIsFar(m: nat, d: int)
    requires d != 0
    ensures if d > 0 then m * d >= m else m * d <= -(m as int)
    decreases if d > 0 then d else -d
  {
  }

  lemma {:induction false} ModUnique(x: nat, m: nat, q: nat, r: nat)
    requires r < m && x == m * q + r
    ensures x % m == r
  {
    var q', r' := x / m, x % m;
    var d := q - q';
    assert m * d == r' - r by {
      assert m * d == m * q - m * q';
    }
    if d != 0 {
      MultipleIsFar(m, d);
      assert false;
    }
  }

  lemma {:induction false} ModStep(x: nat, m: nat)
    requires 0 < m
    ensures (x + 1) % m == if x % m + 1 == m then 0 else x % m + 1
  {
    var q, r := x / m, x % m;
    assert x == m * q + r;
    if r + 1 == m {
      assert m * (q + 1) == m * q + m;
      ModUnique(x + 1, m, q + 1, 0);
    } else {
      ModUnique(x + 1, m, q, r + 1);
    }
  }

  lemma {:induction false} NextInRange(g: nat)
    requires 1 <= g <= GENERATIONS
    ensures NextGeneration(g) == if g == GENERATIONS then 1 else g + 1
  {
  }

  /** Counting on from 1 to `m` and around. */
  function Around(x: nat, m: nat): (v: nat)
    requires 0 < m
    ensures 1 <= v <= m
  {
    x % m + 1
  }

  lemma {:induction false} AroundStep(x: nat, m: nat)
    requires 0 < m
    ensures Around(x + 1, m) == if Around(x, m) == m then 1 else Around(x, m) + 1
  {
    ModStep(x, m);
  }

  lemma {:induction false} AdvanceTimesClosedForm(g: nat, n: nat)
    requires 1 <= g <= GENERATIONS
    ensures AdvanceTimes(g, n) == (g - 1 + n) % GENERATIONS + 1
  {
    if n > 0 {
      AdvanceTimesClosedForm(g, n - 1);
      var x := g - 1 + (n - 1);
      NextInRange(Around(x, GENERATIONS));
      AroundStep(x, GENERATIONS);
      assert x + 1 == g - 1 + n;
    }
  }

  // ----- lookups

  function FindByUniqueId(entries: seq<Entry>, uniqueId: nat): (r: Option<Entry>)
    ensures r.Some? ==> r.value in entries && r.value.descriptor.uniqueId == uniqueId
    ensures r.None? ==> forall e :: e in entries ==> e.descriptor.uniqueId != uniqueId
  {
    if entries == [] then None
    else if entries[0].descriptor.uniqueId == uniqueId then Some(entries[0])
    else FindByUniqueId(entries[1..], uniqueId)
  }

  function GetHandle(c: Catalog, uniqueId: nat): Option<TableHandle> {
    if FindByUniqueId(c.entries, uniqueId).None? then None else Some(TableHandle(uniqueId, c.generation))
  }

  function Stamped(entries: seq<Entry>, generation: nat): (kept: seq<Entry>)
    ensures forall e :: e in kept <==> e in entries && e.descriptor.generation == generation
  {
    if entries == [] then []
    else
      (if entries[0].descriptor.generation == generation then [entries[0]] else [])
      + Stamped(entries[1..], generation)
  }

  function Resolve(c: Catalog, handle: TableHandle): Option<CatalogDescriptor> {
    if handle.generation != c.generation then None
    else
      var found := FindByUniqueId(Stamped(c.entries, c.generation), handle.uniqueId);
      if found.None? then None else Some(found.value.descriptor)
  }

  /** The first entry for a session table id. */
  function FindByTableId(entries: seq<Entry>, tableId: nat): (r: Option<Entry>)
    ensures r.Some? ==> r.value in entries && r.value.descriptor.sessionTableId == tableId
    ensures r.None? ==> forall e :: e in entries ==> e.descriptor.sessionTableId != tableId
  {
    if entries == [] then None
    else if entries[0].descriptor.sessionTableId == tableId then Some(entries[0])
    else FindByTableId(entries[1..], tableId)
  }

  predicate IsActiveReferenceTarget(c: Catalog, tableId: nat, row: nat, generation: nat) {
    generation == c.generation
    && var target := FindByTableId(Stamped(c.entries, c.generation), tableId);
       target.Some? && row < target.value.descriptor.capacity
  }

  function WithCapacity(entries: seq<Entry>, row: nat): (kept: seq<Entry>)
    ensures forall e :: e in kept <==> e in entries && row < e.descriptor.capacity
  {
    if entries == [] then []
    else (if row < entries[0].descriptor.capacity then [entries[0]] else []) + WithCapacity(entries[1..], row)
  }

  function ActiveUniqueId(c: Catalog, tableId: nat, row: nat, generation: nat): Option<nat> {
    if generation != c.generation then None
    else
      var found := FindByTableId(WithCapacity(Stamped(c.entries, c.generation), row), tableId);
      if found.None? then None else Some(found.value.descriptor.uniqueId)
  }

  function ActiveTableId(c: Catalog, uniqueId: nat, row: nat, generation: nat): Option<nat> {
    if generation != c.generation then None
    else
      var found := FindByUniqueId(WithCapacity(Stamped(c.entries, c.generation), row), uniqueId);
      if found.None? then None else Some(found.value.descriptor.sessionTableId)
  }

  // ----- what the lookups find

  /** The entry is of the current generation, of the table, and reaches beyond the row. */
  predicate Fits(e: Entry, generation: nat, uniqueId: Option<nat>, tableId: Option<nat>, room: nat) {
    && e.descriptor.generation == generation && room <= e.descriptor.capacity
    && (uniqueId.Some? ==> e.descriptor.uniqueId == uniqueId.value)
    && (tableId.Some? ==> e.descriptor.sessionTableId == tableId.value)
  }

  predicate FirstFit(
    entries: seq<Entry>, generation: nat, uniqueId: Option<nat>, tableId: Option<nat>, room: nat, i: nat)
  {
    && i < |entries| && Fits(entries[i], generation, uniqueId, tableId, room)
    && forall k :: 0 <= k < i ==> !Fits(entries[k], generation, uniqueId, tableId, room)
  }

  ghost predicate FoundFirst(
    found: Option<Entry>, entries: seq<Entry>, generation: nat, uniqueId: Option<nat>, tableId: Option<nat>, room: nat)
  {
    if found.None? then forall i: nat :: !FirstFit(entries, generation, uniqueId, tableId, room, i)
    else exists i: nat :: FirstFit(entries, generation, uniqueId, tableId, room, i) && found == Some(entries[i])
  }

  lemma {:induction false} FoundLater(
    found: Option<Entry>, entries: seq<Entry>, generation: nat, uniqueId: Option<nat>, tableId: Option<nat>, room: nat)
    requires entries != [] && !Fits(entries[0], generation, uniqueId, tableId, room)
    requires FoundFirst(found, entries[1..], generation, uniqueId, tableId, room)
    ensures FoundFirst(found, entries, generation, uniqueId, tableId, room)
  {
    if found.Some? {
      var i: nat :| FirstFit(entries[1..], generation, uniqueId, tableId, room, i) && found == Some(entries[1..][i]);
      assert FirstFit(entries, generation, uniqueId, tableId, room, i + 1);
    } else {
      forall i: nat
        ensures !FirstFit(entries, generation, uniqueId, tableId, room, i)
      {
        assert i > 0 ==> !FirstFit(entries[1..], generation, uniqueId, tableId, room, i - 1);
      }
    }
  }

  lemma {:induction false} StampedFind(entries: seq<Entry>, generation: nat, uniqueId: nat)
    requires entries != [] && !Fits(entries[0], generation, Some(uniqueId), None, 0)
    ensures FindByUniqueId(Stamped(entries, generation), uniqueId) ==
      FindByUniqueId(Stamped(entries[1..], generation), uniqueId)
  {
    var rest := Stamped(entries[1..], generation);
    assert [] + rest == rest && ([entries[0]] + rest)[1..] == rest;
  }

  lemma {:induction false} FindByUniqueIdMeans(entries: seq<Entry>, generation: nat, uniqueId: nat)
    ensures FoundFirst(FindByUniqueId(Stamped(entries, generation), uniqueId), entries, generation, Some(uniqueId),
                       None, 0)
  {
    if entries != [] {
      FindByUniqueIdMeans(entries[1..], generation, uniqueId);
      if Fits(entries[0], generation, Some(uniqueId), None, 0) {
        assert FirstFit(entries, generation, Some(uniqueId), None, 0, 0);
      } else {
        StampedFind(entries, generation, uniqueId);
        FoundLater(FindByUniqueId(Stamped(entries[1..], generation), uniqueId), entries, generation, Some(uniqueId),
            None, 0);
      }
    }
  }

  lemma {:induction false} FindByTableIdMeans(entries: seq<Entry>, generation: nat, tableId: nat)
    ensures FoundFirst(FindByTableId(Stamped(entries, generation), tableId), entries, generation, None,
                       Some(tableId), 0)
  {
    if entries != [] {
      FindByTableIdMeans(entries[1..], generation, tableId);
      if Fits(entries[0], generation, None, Some(tableId), 0) {
        assert FirstFit(entries, generation, None, Some(tableId), 0, 0);
      } else {
        var rest := Stamped(entries[1..], generation);
        assert [] + rest == rest && ([entries[0]] + rest)[1..] == rest;
        FoundLater(FindByTableId(rest, tableId), entries, generation, None, Some(tableId), 0);
      }
    }
  }

  lemma {:induction false} RoomyStep(entries: seq<Entry>, generation: nat, row: nat)
    requires entries != []
    ensures var rest, e := WithCapacity(Stamped(entries[1..], generation), row), entries[0];
      WithCapacity(Stamped(entries, generation), row) ==
        if e.descriptor.generation == generation && row < e.descriptor.capacity then [e] + rest else rest
  {
    var rest := Stamped(entries[1..], generation);
    assert [] + rest == rest && ([entries[0]] + rest)[1..] == rest;
    assert [] + WithCapacity(rest, row) == WithCapacity(rest, row);
  }

  lemma {:induction false} FindRoomyMeans(entries: seq<Entry>, generation: nat, uniqueId: nat, row: nat)
    ensures FoundFirst(FindByUniqueId(WithCapacity(Stamped(entries, generation), row), uniqueId), entries, generation,
                       Some(uniqueId), None, row + 1)
  {
    if entries != [] {
      FindRoomyMeans(entries[1..], generation, uniqueId, row);
      RoomyStep(entries, generation, row);
      var rest := WithCapacity(Stamped(entries[1..], generation), row);
      if Fits(entries[0], generation, Some(uniqueId), None, row + 1) {
        assert FirstFit(entries, generation, Some(uniqueId), None, row + 1, 0);
      } else {
        assert ([entries[0]] + rest)[1..] == rest;
        FoundLater(FindByUniqueId(rest, uniqueId), entries, generation, Some(uniqueId), None, row + 1);
      }
    }
  }

  /** A reference target is active if the first current entry of the table has the row. */
  lemma {:induction false} ActiveTargetExactly(c: Catalog, tableId: nat, row: nat, generation: nat)
    ensures IsActiveReferenceTarget(c, tableId, row, generation) <==>
      && generation == c.generation
      && exists i: nat ::
        FirstFit(c.entries, c.generation, None, Some(tableId), 0, i) && row < c.entries[i].descriptor.capacity
  {
    FindByTableIdMeans(c.entries, c.generation, tableId);
  }

  /** The session table id of a unique id is that of its first current entry that has the row. */
  lemma {:induction false} ActiveTableIdExactly(c: Catalog, uniqueId: nat, row: nat, generation: nat, tableId: nat)
    ensures ActiveTableId(c, uniqueId, row, generation) == Some(tableId) <==>
      && generation == c.generation
      && exists i: nat ::
        FirstFit(c.entries, c.generation, Some(uniqueId), None, row + 1, i)
        && tableId == c.entries[i].descriptor.sessionTableId
  {
    FindRoomyMeans(c.entries, c.generation, uniqueId, row);
  }

  /** A handle resolves to the first current entry of its table, and only a current handle does. */
  lemma {:induction false} ResolveExactly(c: Catalog, handle: TableHandle, d: CatalogDescriptor)
    ensures Resolve(c, handle) == Some(d) <==>
      && handle.generation == c.generation
      && exists i: nat ::
        FirstFit(c.entries, c.generation, Some(handle.uniqueId), None, 0, i) && d == c.entries[i].descriptor
  {
    FindByUniqueIdMeans(c.entries, c.generation, handle.uniqueId);
  }

  // ----- evidence

  function InsertId(x: nat, ids: seq<nat>): seq<nat> {
    if ids == [] || x <= ids[0] then [x] + ids else [ids[0]] + InsertId(x, ids[1..])
  }

  function ActiveIds(entries: seq<Entry>): seq<nat> {
    if entries == [] then [] else InsertId(entries[0].descriptor.uniqueId, ActiveIds(entries[1..]))
  }

  predicate AllStamped(entries: seq<Entry>, generation: nat) {
    forall i :: 0 <= i < |entries| ==> entries[i].descriptor.generation == generation
  }

  predicate EvidenceIsActive(c: Catalog, evidence: Evidence) {
    && evidence.generation != 0 && evidence.generation == c.generation
    && c.entries != [] && AllStamped(c.entries, c.generation)
    && ActiveIds(c.entries) == evidence.activeUniqueIds
  }

  predicate Ordered(ids: seq<nat>) {
    |ids| <= 1 || (ids[0] <= ids[1] && Ordered(ids[1..]))
  }

  function IdsOf(entries: seq<Entry>): (ids: seq<nat>)
    ensures |ids| == |entries| && forall i :: 0 <= i < |ids| ==> ids[i] == entries[i].descriptor.uniqueId
  {
    seq(|entries|, i requires 0 <= i < |entries| => entries[i].descriptor.uniqueId)
  }

  lemma {:induction false} InsertIdMeans(x: nat, ids: seq<nat>)
    requires Ordered(ids)
    ensures Ordered(InsertId(x, ids)) && multiset(InsertId(x, ids)) == multiset(ids) + multiset{x}
    ensures var r := InsertId(x, ids); r != [] && (r[0] == x || (ids != [] && r[0] == ids[0]))
  {
    if ids == [] || x <= ids[0] {
      assert InsertId(x, ids) == [x] + ids && ([x] + ids)[1..] == ids;
    } else {
      var rest := InsertId(x, ids[1..]);
      InsertIdMeans(x, ids[1..]);
      assert ids == [ids[0]] + ids[1..] && ([ids[0]] + rest)[1..] == rest;
    }
  }

  lemma {:induction false} IdsCons(entries: seq<Entry>)
    requires entries != []
    ensures multiset(IdsOf(entries)) == multiset(IdsOf(entries[1..])) + multiset{entries[0].descriptor.uniqueId}
  {
    assert IdsOf(entries) == [entries[0].descriptor.uniqueId] + IdsOf(entries[1..]);
  }

  lemma {:induction false} ActiveIdsMeans(entries: seq<Entry>)
    ensures Ordered(ActiveIds(entries)) && multiset(ActiveIds(entries)) == multiset(IdsOf(entries))
  {
    if entries != [] {
      ActiveIdsMeans(entries[1..]);
      InsertIdMeans(entries[0].descriptor.uniqueId, ActiveIds(entries[1..]));
      IdsCons(entries);
    }
  }

  lemma {:induction false} RestOf(s: seq<nat>)
    requires s != []
    ensures multiset(s[1..]) == multiset(s) - multiset{s[0]} && s == [s[0]] + s[1..]
  {
    assert s == [s[0]] + s[1..];
  }

  lemma {:induction false} FirstIsLeast(s: seq<nat>, x: nat)
    requires Ordered(s) && x in multiset(s)
    ensures s != [] && s[0] <= x
  {
    assert x in s;
    if x != s[0] {
      RestOf(s);
      FirstIsLeast(s[1..], x);
    }
  }

  lemma {:induction false} SameFirst(s: seq<nat>, t: seq<nat>)
    requires Ordered(s) && Ordered(t) && multiset(s) == multiset(t) && s != []
    ensures t != [] && s[0] == t[0] && multiset(s[1..]) == multiset(t[1..])
  {
    assert s[0] in multiset(s);
    FirstIsLeast(t, s[0]);
    assert t[0] in multiset(t);
    FirstIsLeast(s, t[0]);
    RestOf(s);
    RestOf(t);
  }

  lemma {:induction false} OrderedIsUnique(s: seq<nat>, t: seq<nat>)
    requires Ordered(s) && Ordered(t) && multiset(s) == multiset(t)
    ensures s == t
  {
    if s == [] {
      assert |t| == |multiset(t)| == |multiset(s)|;
    } else {
      SameFirst(s, t);
      OrderedIsUnique(s[1..], t[1..]);
      assert s == [s[0]] + s[1..] && t == [t[0]] + t[1..];
    }
  }

  /** Evidence is active if and only if it names the current generation, which is real, every entry is of it, there is
      one, and its ids are those of the entries, ascending. */
  lemma {:induction false} EvidenceExactly(c: Catalog, evidence: Evidence)
    ensures EvidenceIsActive(c, evidence) <==>
      && evidence.generation == c.generation && 1 <= c.generation && 1 <= |c.entries|
      && (forall e :: e in c.entries ==> e.descriptor.generation == c.generation)
      && Ordered(evidence.activeUniqueIds) && multiset(evidence.activeUniqueIds) == multiset(IdsOf(c.entries))
  {
    ActiveIdsMeans(c.entries);
    if Ordered(evidence.activeUniqueIds) && multiset(evidence.activeUniqueIds) == multiset(IdsOf(c.entries)) {
      OrderedIsUnique(ActiveIds(c.entries), evidence.activeUniqueIds);
    }
  }

  // ----- operations

  /** 32-bit unsigned arithmetic wraps. */
  function Wrap32(x: nat): nat {
    x % 0x1_0000_0000
  }

  predicate StorageAgrees(d: TableDescriptor, recordSize: nat) {
    if d.storage.IndexedReferenceArray? then
      d.stride == 8 && d.virtualTarget.Some? && d.virtualWidth != 0 && recordSize == Wrap32(d.virtualWidth * 4)
    else d.stride == recordSize
  }

  function FindDiscovery(tables: seq<TableDiscovery>, uniqueId: nat): (r: Option<TableDiscovery>)
    ensures r.Some? ==> r.value in tables && r.value.uniqueId == uniqueId
    ensures r.None? ==> forall t :: t in tables ==> t.uniqueId != uniqueId
  {
    if tables == [] then None
    else if tables[0].uniqueId == uniqueId then Some(tables[0])
    else FindDiscovery(tables[1..], uniqueId)
  }

  /** The entry installed for one profile table, if its schema and its discovered layout agree with it. */
  function InstalledEntry(schema: seq<TableSchema>, discovery: DiscoveryResult, table: TableProfile, generation: nat)
    : (r: Option<Entry>)
    ensures r.Some? ==>
      && r.value.profile == table && r.value.descriptor.generation == generation
      && r.value.descriptor.uniqueId == table.uniqueId && r.value.descriptor.sessionTableId == table.tableId
      && r.value.descriptor.capacity == table.capacity
  {
    var installed := FindTable(schema, table.tableId);
    if installed.None? || installed.value.uniqueId != table.uniqueId
       || installed.value.capacity != table.capacity || installed.value.recordSize != table.recordSize then None
    else
      var found := FindDiscovery(discovery.tables, table.uniqueId);
      if found.None? || !found.value.state.Resolved? || found.value.descriptor.None? then None
      else
        var d := found.value.descriptor.value;
        if d.uniqueId != table.uniqueId || d.stride > 0xFFFF_FFFF || d.capacity != table.capacity
           || !StorageAgrees(d, table.recordSize) then None
        else Some(Entry(
          CatalogDescriptor(
            table.uniqueId, table.tableId, d.base, d.stride, d.capacity, d.allocationBase, d.allocationSize, d.storage,
            d.virtualTarget, d.virtualWidth, generation,
            if d.directWriteVerified then DirectVerified else installed.value.authority),
          table))
  }

  predicate FirstDiscovery(tables: seq<TableDiscovery>, uniqueId: nat, j: nat) {
    j < |tables| && tables[j].uniqueId == uniqueId && forall k :: 0 <= k < j ==> tables[k].uniqueId != uniqueId
  }

  lemma {:induction false} FindDiscoveryExactly(tables: seq<TableDiscovery>, uniqueId: nat)
    ensures if FindDiscovery(tables, uniqueId).None? then forall j: nat :: !FirstDiscovery(tables, uniqueId, j)
            else exists j: nat ::
              FirstDiscovery(tables, uniqueId, j) && FindDiscovery(tables, uniqueId) == Some(tables[j])
  {
    if tables != [] && tables[0].uniqueId == uniqueId {
      assert FirstDiscovery(tables, uniqueId, 0);
    } else if tables != [] {
      FindDiscoveryExactly(tables[1..], uniqueId);
      if FindDiscovery(tables, uniqueId).Some? {
        var j: nat :|
          FirstDiscovery(tables[1..], uniqueId, j) && FindDiscovery(tables[1..], uniqueId) == Some(tables[1..][j]);
        assert FirstDiscovery(tables, uniqueId, j + 1);
      }
    }
  }

  /** The profile's table, the schema's and the discovered one are the same table. */
  predicate Concerted(table: TableProfile, installed: TableSchema, found: TableDiscovery) {
    && installed.uniqueId == table.uniqueId && installed.capacity == table.capacity
    && installed.recordSize == table.recordSize
    && found.state.Resolved? && found.descriptor.Some?
    && var d := found.descriptor.value;
    && d.uniqueId == table.uniqueId && d.stride <= 0xFFFF_FFFF && d.capacity == table.capacity
    && StorageAgrees(d, table.recordSize)
  }

  /** The entry lies where the table was discovered, under the installing generation. Its authority is direct only
      if the discovery verified direct writes or the schema grants it. */
  predicate InstalledAs(e: Entry, table: TableProfile, installed: TableSchema, d: TableDescriptor, generation: nat) {
    && e.profile == table && e.descriptor.generation == generation
    && e.descriptor.uniqueId == table.uniqueId && e.descriptor.sessionTableId == table.tableId
    && e.descriptor.base == d.base && e.descriptor.stride == d.stride && e.descriptor.capacity == d.capacity
    && e.descriptor.allocationBase == d.allocationBase && e.descriptor.allocationSize == d.allocationSize
    && e.descriptor.storage == d.storage && e.descriptor.virtualTarget == d.virtualTarget
    && e.descriptor.virtualWidth == d.virtualWidth
    && (e.descriptor.authority.DirectVerified? <==> d.directWriteVerified || installed.authority.DirectVerified?)
    && (e.descriptor.authority.DirectVerified? || e.descriptor.authority == installed.authority)
  }

  /** A table is installed exactly when the first schema with its id and the first discovery of it agree with it,
      and then as discovered. */
  lemma {:induction false} InstalledExactly(
    schema: seq<TableSchema>, discovery: DiscoveryResult, table: TableProfile, generation: nat, i: nat, j: nat)
    requires FirstTable(schema, table.tableId, i) && FirstDiscovery(discovery.tables, table.uniqueId, j)
    ensures var entry := InstalledEntry(schema, discovery, table, generation);
      && (entry.Some? <==> Concerted(table, schema[i], discovery.tables[j]))
      && (entry.Some? ==>
        InstalledAs(entry.value, table, schema[i], discovery.tables[j].descriptor.value, generation))
  {
    FindTableExactly(schema, table.tableId);
    FindDiscoveryExactly(discovery.tables, table.uniqueId);
  }

  /** Without a schema of its own or a discovery of its own a table is not installed. */
  lemma {:induction false} NothingInstalled(
    schema: seq<TableSchema>, discovery: DiscoveryResult, table: TableProfile, generation: nat)
    requires (forall i: nat :: !FirstTable(schema, table.tableId, i))
      || forall j: nat :: !FirstDiscovery(discovery.tables, table.uniqueId, j)
    ensures InstalledEntry(schema, discovery, table, generation).None?
  {
    FindTableExactly(schema, table.tableId);
    FindDiscoveryExactly(discovery.tables, table.uniqueId);
  }

  function InstalledEntries(
    schema: seq<TableSchema>, discovery: DiscoveryResult, tables: seq<TableProfile>, generation: nat): (r: seq<Entry>)
    ensures AllStamped(r, generation)
  {
    if tables == [] then []
    else
      var last := InstalledEntry(schema, discovery, tables[|tables| - 1], generation);
      InstalledEntries(schema, discovery, tables[..|tables| - 1], generation)
      + (if last.None? then [] else [last.value])
  }

  function Installed(c: Catalog, profile: ProfileBundle, discovery: DiscoveryResult): Catalog {
    var g := NextGeneration(c.generation);
    Catalog(g, true, profile.schema,
            if discovery.valid then InstalledEntries(profile.schema, discovery, profile.tables, g) else [])
  }

  function Invalidated(c: Catalog): Catalog {
    c.(generation := NextGeneration(c.generation), entries := [])
  }

  function LifecycleAdvanced(c: Catalog, ready: bool): Catalog {
    if !ready && c.gameReady then Invalidated(c).(gameReady := false)
    else if ready then c.(gameReady := true) else c
  }

  function Restamped(entries: seq<Entry>, quarantined: set<nat>, generation: nat): (r: seq<Entry>)
    ensures AllStamped(r, generation)
    ensures forall e :: e in r ==> e.descriptor.uniqueId !in quarantined
  {
    if entries == [] then []
    else
      (if entries[0].descriptor.uniqueId in quarantined then []
       else [entries[0].(descriptor := entries[0].descriptor.(generation := generation))])
      + Restamped(entries[1..], quarantined, generation)
  }

  /** What revalidation leaves: nothing changes unless something was quarantined. */
  function Revalidated(c: Catalog, quarantined: set<nat>): Catalog {
    if c.entries == [] || quarantined == {} then c
    else
      var g := NextGeneration(c.generation);
      c.(generation := g, entries := Restamped(c.entries, quarantined, g))
  }

  /** The entry is one of the tables', as installed. */
  ghost predicate InstalledFrom(
    schema: seq<TableSchema>, discovery: DiscoveryResult, tables: seq<TableProfile>, generation: nat, e: Entry)
  {
    exists k :: 0 <= k < |tables| && InstalledEntry(schema, discovery, tables[k], generation) == Some(e)
  }

  lemma {:induction false} InstalledFromLast(
    schema: seq<TableSchema>, discovery: DiscoveryResult, tables: seq<TableProfile>, generation: nat, e: Entry)
    requires tables != []
    ensures InstalledFrom(schema, discovery, tables, generation, e) <==>
      || InstalledFrom(schema, discovery, tables[..|tables| - 1], generation, e)
      || InstalledEntry(schema, discovery, tables[|tables| - 1], generation) == Some(e)
  {
    var n := |tables| - 1;
    forall k | 0 <= k < n
      ensures tables[..n][k] == tables[k]
    {
    }
  }

  /** The entries are those of the tables, each in and no other. */
  lemma {:induction false} InstalledEntriesMean(
    schema: seq<TableSchema>, discovery: DiscoveryResult, tables: seq<TableProfile>, generation: nat, e: Entry)
    ensures e in InstalledEntries(schema, discovery, tables, generation) <==>
      InstalledFrom(schema, discovery, tables, generation, e)
  {
    if tables != [] {
      InstalledEntriesMean(schema, discovery, tables[..|tables| - 1], generation, e);
      InstalledFromLast(schema, discovery, tables, generation, e);
    }
  }

  datatype CatalogEvent =
    | Install(profile: ProfileBundle, discovery: DiscoveryResult)
    | Invalidate
    | Lifecycle(ready: bool)
    | Revalidate(quarantined: set<nat>)

  function Step(c: Catalog, event: CatalogEvent): Catalog {
    match event
    case Install(profile, discovery) => Installed(c, profile, discovery)
    case Invalidate => Invalidated(c)
    case Lifecycle(ready) => LifecycleAdvanced(c, ready)
    case Revalidate(quarantined) => Revalidated(c, quarantined)
  }

  /** What an installation leaves: an invalid discovery nothing, a valid one every table of the profile that the schema
      and the discovery agree on, as discovered and under the next generation, and no other entry. */
  lemma {:induction false} InstallMeans(
    c: Catalog, profile: ProfileBundle, discovery: DiscoveryResult, k: nat, i: nat, j: nat)
    requires k < |profile.tables|
    requires FirstTable(profile.schema, profile.tables[k].tableId, i)
      && FirstDiscovery(discovery.tables, profile.tables[k].uniqueId, j)
    ensures var after, t := Step(c, CatalogEvent.Install(profile, discovery)), profile.tables[k];
      && after.generation == NextGeneration(c.generation) && after.gameReady && after.schema == profile.schema
      && (!discovery.valid ==> after.entries == [])
      && (discovery.valid && Concerted(t, profile.schema[i], discovery.tables[j]) ==>
        exists e :: e in after.entries
          && InstalledAs(e, t, profile.schema[i], discovery.tables[j].descriptor.value, after.generation))
      && forall e :: e in after.entries ==>
        discovery.valid && e.profile in profile.tables && e.descriptor.generation == after.generation
  {
    var g := NextGeneration(c.generation);
    forall e
      ensures e in InstalledEntries(profile.schema, discovery, profile.tables, g) <==>
        InstalledFrom(profile.schema, discovery, profile.tables, g, e)
    {
      InstalledEntriesMean(profile.schema, discovery, profile.tables, g, e);
    }
    InstalledExactly(profile.schema, discovery, profile.tables[k], g, i, j);
  }

  /** Entry `i` of the old entries is kept, and lands where the survivors before it leave off. */
  function Kept(entries: seq<Entry>, quarantined: set<nat>, n: nat): (count: nat)
    requires n <= |entries|
  {
    if n == 0 then 0
    else Kept(entries, quarantined, n - 1) + (if entries[n - 1].descriptor.uniqueId in quarantined then 0 else 1)
  }

  lemma {:induction false} RestampPush(entries: seq<Entry>, i: nat, gone: set<nat>, g: nat)
    requires i < |entries|
    ensures Restamped(entries[..i + 1], gone, g) ==
      Restamped(entries[..i], gone, g)
      + (if entries[i].descriptor.uniqueId in gone then []
         else [entries[i].(descriptor := entries[i].descriptor.(generation := g))])
  {
    if i == 0 {
      assert entries[..1][1..] == [] && entries[..0] == [];
    } else {
      assert entries[..i + 1][1..] == entries[1..][..i] && entries[..i][1..] == entries[1..][..i - 1];
      RestampPush(entries[1..], i - 1, gone, g);
    }
  }

  lemma {:induction false} RestampedMeans(entries: seq<Entry>, quarantined: set<nat>, generation: nat, n: nat)
    requires n <= |entries|
    ensures |Restamped(entries[..n], quarantined, generation)| == Kept(entries, quarantined, n)
    ensures n > 0 ==>
      Restamped(entries[..n], quarantined, generation) ==
        Restamped(entries[..n - 1], quarantined, generation)
        + (if entries[n - 1].descriptor.uniqueId in quarantined then []
           else [entries[n - 1].(descriptor := entries[n - 1].descriptor.(generation := generation))])
  {
    if n > 0 {
      RestampedMeans(entries, quarantined, generation, n - 1);
      RestampPush(entries, n - 1, quarantined, generation);
    }
  }

  lemma {:induction false} SurvivorAt(entries: seq<Entry>, quarantined: set<nat>, generation: nat, n: nat, i: nat)
    requires i < n <= |entries| && entries[i].descriptor.uniqueId !in quarantined
    ensures var kept := Restamped(entries[..n], quarantined, generation);
      && Kept(entries, quarantined, i) < |kept|
      && kept[Kept(entries, quarantined, i)] ==
        entries[i].(descriptor := entries[i].descriptor.(generation := generation))
  {
    RestampedMeans(entries, quarantined, generation, n);
    RestampedMeans(entries, quarantined, generation, n - 1);
    if i < n - 1 {
      SurvivorAt(entries, quarantined, generation, n - 1, i);
    }
  }

  /** What a failed revalidation leaves: every entry not quarantined is still there, in its old place among them and
      with only its generation changed, and there are no others. */
  lemma {:induction false} SurvivorsStay(c: Catalog, quarantined: set<nat>, i: nat)
    requires c.entries != [] && quarantined != {} && i < |c.entries|
    ensures var after := Step(c, CatalogEvent.Revalidate(quarantined));
      && after.generation == NextGeneration(c.generation) && after.gameReady == c.gameReady && after.schema == c.schema
      && |after.entries| == Kept(c.entries, quarantined, |c.entries|)
      && (c.entries[i].descriptor.uniqueId !in quarantined ==>
        && Kept(c.entries, quarantined, i) < |after.entries|
        && after.entries[Kept(c.entries, quarantined, i)] ==
          c.entries[i].(descriptor := c.entries[i].descriptor.(generation := after.generation)))
  {
    var n, g := |c.entries|, NextGeneration(c.generation);
    assert c.entries[..n] == c.entries;
    RestampedMeans(c.entries, quarantined, g, n);
    if c.entries[i].descriptor.uniqueId !in quarantined {
      SurvivorAt(c.entries, quarantined, g, n, i);
    }
  }

  // ----- runs

  function Run(c: Catalog, events: seq<CatalogEvent>): Catalog {
    if events == [] then c else Step(Run(c, events[..|events| - 1]), events[|events| - 1])
  }

  predicate Advances(c: Catalog, event: CatalogEvent) {
    match event
    case Install(_, _) => true
    case Invalidate => true
    case Lifecycle(ready) => !ready && c.gameReady
    case Revalidate(quarantined) => c.entries != [] && quarantined != {}
  }

  function AdvanceCount(c: Catalog, events: seq<CatalogEvent>): nat {
    if events == [] then 0
    else
      AdvanceCount(c, events[..|events| - 1])
      + (if Advances(Run(c, events[..|events| - 1]), events[|events| - 1]) then 1 else 0)
  }

  /** Every entry carries the current generation, and a non-empty catalog has a real one. */
  predicate Valid(c: Catalog) {
    && c.generation <= GENERATIONS
    && AllStamped(c.entries, c.generation)
    && (c.entries != [] ==> c.generation != 0)
  }

  lemma {:induction false} StepKeepsValid(c: Catalog, event: CatalogEvent)
    requires Valid(c)
    ensures Valid(Step(c, event))
    ensures Step(c, event).generation == if Advances(c, event) then NextGeneration(c.generation) else c.generation
  {
  }

  /** Over every run: stamps stay current, and the generation counts the advances. */
  lemma {:induction false} RunKeepsValid(c: Catalog, events: seq<CatalogEvent>)
    requires Valid(c)
    ensures Valid(Run(c, events))
    ensures Run(c, events).generation == AdvanceTimes(c.generation, AdvanceCount(c, events))
  {
    if events != [] {
      RunKeepsValid(c, events[..|events| - 1]);
      StepKeepsValid(Run(c, events[..|events| - 1]), events[|events| - 1]);
    }
  }

  /** A fresh handle resolves, and to its own table. */
  lemma {:induction false} FreshHandleResolves(c: Catalog, uniqueId: nat)
    requires Valid(c) && GetHandle(c, uniqueId).Some?
    ensures var r := Resolve(c, GetHandle(c, uniqueId).value);
      r.Some? && r.value.uniqueId == uniqueId && r.value.generation == c.generation
      && exists e :: e in c.entries && e.descriptor == r.value
  {
  }

  lemma {:induction false} ModShift(a: nat, n: nat, m: nat)
    requires a < m
    ensures (a + n) % m == a <==> n % m == 0
  {
    var q, r := n / m, n % m;
    assert n == m * q + r;
    if a + r < m {
      ModUnique(a + n, m, q, a + r);
    } else {
      assert a + n == m * (q + 1) + (a + r - m) by {
        assert m * (q + 1) == m * q + m;
      }
      ModUnique(a + n, m, q + 1, a + r - m);
    }
  }

  lemma {:induction false} AdvanceTimesReturns(g: nat, n: nat)
    requires g <= GENERATIONS
    ensures AdvanceTimes(g, n) == g <==> if g == 0 then n == 0 else n % GENERATIONS == 0
  {
    if g > 0 {
      AdvanceTimesClosedForm(g, n);
      ModShift(g - 1, n, GENERATIONS);
    }
  }

  /** A generation seen in one state is accepted after a run exactly when the number of advances in
      between is a multiple of 2^64 - 1, the number of non-zero generations: never again before that
      many. The first one, 0, never comes back. Handles, reference targets and evidence all hang on it. */
  lemma {:induction false} StaleExactly(c: Catalog, events: seq<CatalogEvent>)
    requires Valid(c)
    ensures Run(c, events).generation == c.generation <==>
      if c.generation == 0 then AdvanceCount(c, events) == 0
      else AdvanceCount(c, events) % 0xFFFF_FFFF_FFFF_FFFF == 0
  {
    RunKeepsValid(c, events);
    AdvanceTimesReturns(c.generation, AdvanceCount(c, events));
  }

  /** Nothing issued before an advance is accepted after it, short of 2^64 - 1 advances. */
  lemma {:induction false} NothingStaleIsAccepted(
    c: Catalog, events: seq<CatalogEvent>, handle: TableHandle, evidence: Evidence, tableId: nat, row: nat)
    requires Valid(c)
    requires handle.generation == evidence.generation == c.generation
    requires 0 < AdvanceCount(c, events) < 0xFFFF_FFFF_FFFF_FFFF
    ensures var later := Run(c, events);
      && Resolve(later, handle).None?
      && !EvidenceIsActive(later, evidence)
      && !IsActiveReferenceTarget(later, tableId, row, handle.generation)
      && ActiveUniqueId(later, tableId, row, handle.generation).None?
      && ActiveTableId(later, handle.uniqueId, row, handle.generation).None?
  {
    StaleExactly(c, events);
  }
}
