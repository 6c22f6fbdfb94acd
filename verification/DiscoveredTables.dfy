/** What discovery delivers, byte for byte, and that an installed discovery is in its place. */
module DiscoveredTables {
  import opened Bytes
  import opened Profile
  import opened CatalogState
  import opened CatalogReads
  import opened CatalogMeaning
  import opened Discovery

  /** The fingerprint fits memory in row `rowIndex` of a table at `base`. */
  predicate RowThere(t: TableProfile, memory: Memory, base: nat, f: RowFingerprint) {
    var at := base + f.rowIndex * t.recordSize;
    Mapped(memory, at, |f.pattern|) && MaskedMatches(f, Slice(memory, at, |f.pattern|))
  }

  predicate RowVisible(t: TableProfile, world: World, base: nat, f: RowFingerprint) {
    world.scannable(base + f.rowIndex * t.recordSize, |f.pattern|)
  }

  /** All records lie in what is reported as the allocation of the row. */
  predicate InAllocation(t: TableProfile, world: World, base: nat, f: RowFingerprint) {
    var (begin, size) := world.allocationOf(base + f.rowIndex * t.recordSize);
    && begin <= base && base + t.capacity * t.recordSize <= begin + size
    && base + t.capacity * t.recordSize <= 0xFFFF_FFFF_FFFF_FFFF && begin + size <= 0xFFFF_FFFF_FFFF_FFFF
  }

  predicate VisibleTriple(t: TableProfile, world: World, base: nat, a: nat, b: nat, c: nat)
    requires a < b < c < |t.rows|
  {
    && RowVisible(t, world, base, t.rows[a]) && RowVisible(t, world, base, t.rows[b])
    && RowVisible(t, world, base, t.rows[c]) && InAllocation(t, world, base, t.rows[a])
  }

  ghost predicate ThreeRows(t: TableProfile, world: World, base: nat) {
    exists a: nat, b: nat, c: nat :: a < b < c < |t.rows| && VisibleTriple(t, world, base, a, b, c)
  }

  lemma {:induction false} RowThereMeans(t: TableProfile, memory: Memory, base: nat, f: RowFingerprint)
    ensures RowThere(t, memory, base, f) <==> RowMatches(memory, f, RowAt(t, base, f.rowIndex))
  {
  }

  lemma {:induction false} TripleIsSeen(t: TableProfile, world: World, base: nat, a: nat, b: nat, c: nat)
    requires a < b < c < |t.rows|
    ensures VisibleTriple(t, world, base, a, b, c) <==> Seen(t, world, base, a, b, c)
  {
  }

  lemma {:induction false} ThreeRowsSeen(t: TableProfile, world: World, base: nat)
    ensures ThreeRows(t, world, base) <==>
      exists a: nat, b: nat, c: nat :: a < b < c < |t.rows| && Seen(t, world, base, a, b, c)
  {
    forall a: nat, b: nat, c: nat | a < b < c < |t.rows|
      ensures VisibleTriple(t, world, base, a, b, c) <==> Seen(t, world, base, a, b, c)
    {
      TripleIsSeen(t, world, base, a, b, c);
    }
  }

  /** A layout is a base where all rows are there, three of them visible in one allocation that holds all records, and
      the records are an allocation themselves. */
  lemma {:induction false} LayoutExactly(
    t: TableProfile, memory: Memory, allocations: Allocations, world: World, base: nat)
    ensures IsLayout(t, memory, allocations, world, base) <==>
      && base <= 0xFFFF_FFFF_FFFF_FFFF && allocations(base, t.capacity * t.recordSize)
      && (forall i :: 0 <= i < |t.rows| ==> RowThere(t, memory, base, t.rows[i])) && ThreeRows(t, world, base)
  {
    forall f: RowFingerprint
      ensures RowThere(t, memory, base, f) <==> RowMatches(memory, f, RowAt(t, base, f.rowIndex))
    {
      RowThereMeans(t, memory, base, f);
    }
    ThreeRowsSeen(t, world, base);
  }

  /** Two matches lie in one allocation and as far apart as their rows. */
  predicate InStep(t: TableProfile, ra: RowFingerprint, ma: ScanObservation, rb: RowFingerprint, mb: ScanObservation) {
    && ra.rowIndex < rb.rowIndex && mb.address == ma.address + (rb.rowIndex - ra.rowIndex) * t.recordSize
    && ma.allocationBase == mb.allocationBase && ma.allocationSize == mb.allocationSize
  }

  /** All records of the table whose row `row` is at the address lie in the allocation. */
  predicate RecordsFit(t: TableProfile, row: nat, at: nat, begin: nat, size: nat) {
    var base := at - row * t.recordSize;
    && begin <= base && base + t.capacity * t.recordSize <= begin + size
    && 0 <= base && base + t.capacity * t.recordSize <= 0xFFFF_FFFF_FFFF_FFFF && begin + size <= 0xFFFF_FFFF_FFFF_FFFF
  }

  /** The extent of a triple of matches is no good exactly if they are in step but their allocation does not hold the
      records. */
  lemma {:induction false} BadExtentExactly(
    t: TableProfile, ra: RowFingerprint, ma: ScanObservation, rb: RowFingerprint, mb: ScanObservation,
    rc: RowFingerprint, mc: ScanObservation)
    requires 0 < t.recordSize
    ensures TripleVerdict(t, ra, ma, rb, mb, rc, mc) == BadExtent <==>
      && InStep(t, ra, ma, rb, mb) && InStep(t, rb, mb, rc, mc)
      && !RecordsFit(t, ra.rowIndex, ma.address, ma.allocationBase, ma.allocationSize)
  {
    var s := t.recordSize;
    PairStrideMeans(ra, ma.address, rb, mb.address, s);
    PairStrideMeans(ra, ma.address, rc, mc.address, s);
    PairStrideMeans(rb, mb.address, rc, mc.address, s);
    if ra.rowIndex < rb.rowIndex < rc.rowIndex {
      assert (rc.rowIndex - ra.rowIndex) * s == (rc.rowIndex - rb.rowIndex) * s + (rb.rowIndex - ra.rowIndex) * s;
    }
  }

  /** The loader's guarantee: fingerprints are as long as a record. */
  predicate WholeRecords(t: TableProfile) {
    forall i :: 0 <= i < |t.rows| ==> |t.rows[i].pattern| == t.recordSize
  }

  lemma {:induction false} RowBelowEnd(t: TableProfile, base: nat, row: nat)
    requires row < t.capacity && base + t.capacity * t.recordSize <= ADDRESS_MAX
    ensures base + row * t.recordSize + t.recordSize <= ADDRESS_MAX
  {
    assert t.capacity * t.recordSize == row * t.recordSize + (t.capacity - row) * t.recordSize;
    assert (t.capacity - row) * t.recordSize == t.recordSize + (t.capacity - row - 1) * t.recordSize;
  }

  lemma {:induction false} FoundRowIsInPlace(
    t: TableProfile, memory: Memory, base: nat, d: CatalogDescriptor, f: RowFingerprint)
    requires RowThere(t, memory, base, f) && |f.pattern| == t.recordSize && 0 < t.recordSize
    requires f.rowIndex < t.capacity && base + t.capacity * t.recordSize <= ADDRESS_MAX
    requires d.base == base && d.stride == t.recordSize && d.capacity == t.capacity && d.storage == CanonicalRecords
    ensures RowInPlace(d, memory, f) <==> t.recordSize <= 262144
  {
    RowBelowEnd(t, base, f.rowIndex);
  }

  /** A table discovery resolves, once installed, has its rows in place on the memory it was discovered in, provided
      that its records are not larger than revalidation can read. */
  lemma {:induction false} DiscoveredIsInPlace(
    t: TableProfile, memory: Memory, allocations: Allocations, world: World, found: TableDiscovery, e: Entry,
    schema: TableSchema, generation: nat)
    requires RowsLegal(t) && WholeRecords(t) && t.rows != []
    requires Decided(t, memory, allocations, world, found) && found.state.Resolved?
    requires InstalledAs(e, t, schema, found.descriptor.value, generation)
    ensures (forall i :: 0 <= i < |t.rows| ==> RowInPlace(e.descriptor, memory, t.rows[i])) <==>
      t.recordSize <= 262144
    ensures allocations(e.descriptor.base, t.capacity * t.recordSize)
  {
    var base := found.descriptor.value.base;
    assert IsLayout(t, memory, allocations, world, base);
    LayoutExactly(t, memory, allocations, world, base);
    forall i | 0 <= i < |t.rows|
      ensures RowInPlace(e.descriptor, memory, t.rows[i]) <==> t.recordSize <= 262144
    {
      FoundRowIsInPlace(t, memory, base, e.descriptor, t.rows[i]);
    }
    assert RowInPlace(e.descriptor, memory, t.rows[0]) <==> t.recordSize <= 262144;
  }
}
