/** Discovering where a table lies from scans for its row fingerprints: the three-row layout search. */
module Discovery {
  import opened Bytes
  import opened Profile
  import opened CatalogState
  import opened CatalogReads
  import opened Revalidation

  datatype ScanObservation = ScanObservation(address: Address, allocationBase: Address, allocationSize: nat)

  datatype ScanObservationResult = ScanObservationResult(complete: bool, matches: seq<ScanObservation>)

  // ----- what a layout is

  function RowAt(t: TableProfile, base: nat, row: nat): nat {
    base + Product(row, t.recordSize)
  }

  /** The fingerprint fits memory at the address. */
  predicate RowMatches(memory: Memory, f: RowFingerprint, address: nat) {
    Mapped(memory, address, |f.pattern|) && MaskedMatches(f, Slice(memory, address, |f.pattern|))
  }

  /** Which ranges a scan can see, and which allocation it reports for an address. */
  datatype World = World(scannable: (nat, nat) -> bool, allocationOf: nat -> (nat, nat))

  function Extent(t: TableProfile): nat {
    Product(t.capacity, t.recordSize)
  }

  predicate ExtentFits(t: TableProfile, base: nat, allocation: (nat, nat)) {
    && base + Extent(t) <= ADDRESS_MAX && Extent(t) <= ADDRESS_MAX
    && allocation.0 <= base && allocation.0 + allocation.1 <= ADDRESS_MAX
    && base + Extent(t) <= allocation.0 + allocation.1
  }

  predicate RowSeen(t: TableProfile, world: World, base: nat, a: nat)
    requires a < |t.rows|
  {
    world.scannable(RowAt(t, base, t.rows[a].rowIndex), |t.rows[a].pattern|)
  }

  predicate Seen(t: TableProfile, world: World, base: nat, a: nat, b: nat, c: nat)
    requires a < b < c < |t.rows|
  {
    && RowSeen(t, world, base, a) && RowSeen(t, world, base, b) && RowSeen(t, world, base, c)
    && ExtentFits(t, base, world.allocationOf(RowAt(t, base, t.rows[a].rowIndex)))
  }

  /** A layout: every fingerprint fits at its row, the extent lies in one allocation that exists, and
      scans can see at least three of the rows. */
  ghost predicate IsLayout(t: TableProfile, memory: Memory, allocations: Allocations, world: World, base: nat) {
    && base <= ADDRESS_MAX
    && (forall i :: 0 <= i < |t.rows| ==> RowMatches(memory, t.rows[i], RowAt(t, base, t.rows[i].rowIndex)))
    && allocations(base, Extent(t))
    && exists a: nat, b: nat, c: nat :: a < b < c < |t.rows| && Seen(t, world, base, a, b, c)
  }

  /** The loader's guarantee: rows strictly ascending and inside the capacity, records not empty. */
  predicate RowsLegal(t: TableProfile) {
    && 0 < t.recordSize
    && (forall i :: 0 <= i < |t.rows| ==> t.rows[i].rowIndex < t.capacity)
    && forall i, j :: 0 <= i < j < |t.rows| ==> t.rows[i].rowIndex < t.rows[j].rowIndex
  }

  /** Each scan lists exactly the places a scan can see where its fingerprint fits. */
  ghost predicate ScanTells(memory: Memory, world: World, f: RowFingerprint, scan: ScanObservationResult) {
    && (forall k :: 0 <= k < |scan.matches| ==>
      var m := scan.matches[k];
      RowMatches(memory, f, m.address) && world.scannable(m.address, |f.pattern|)
      && world.allocationOf(m.address) == (m.allocationBase, m.allocationSize))
    && forall a: nat :: a <= ADDRESS_MAX && RowMatches(memory, f, a) && world.scannable(a, |f.pattern|) ==>
      exists k :: 0 <= k < |scan.matches| && scan.matches[k].address == a
  }

  ghost predicate ScansTell(t: TableProfile, memory: Memory, world: World, scans: seq<ScanObservationResult>) {
    && |scans| == |t.rows|
    && forall i :: 0 <= i < |scans| ==> ScanTells(memory, world, t.rows[i], scans[i])
  }

  /** Every address of an allocation is reported with that allocation. */
  ghost predicate AllocationsAgree(world: World) {
    forall x: nat, y: nat {:trigger world.allocationOf(x), world.allocationOf(y)} ::
      world.allocationOf(x).0 <= y < world.allocationOf(x).0 + world.allocationOf(x).1 ==>
        world.allocationOf(y) == world.allocationOf(x)
  }

  // ----- one triple of matches

  /** The stride two matches of different rows imply. */
  function PairStride(first: RowFingerprint, x: nat, second: RowFingerprint, y: nat): (stride: Option<nat>) {
    if second.rowIndex <= first.rowIndex || y <= x then None
    else
      var rows, bytes := second.rowIndex - first.rowIndex, y - x;
      if bytes % rows != 0 then None
      else if bytes / rows == 0 then None else Some(bytes / rows)
  }

  lemma {:induction false} Multiple(rows: nat, stride: nat)
    requires 0 < rows && 0 < stride
    ensures rows * stride > 0 && (rows * stride) % rows == 0 && (rows * stride) / rows == stride
  {
    ModUnique(rows * stride, rows, stride, 0);
    var quotient := (rows * stride) / rows;
    assert rows * quotient == rows * stride;
    assert rows * (quotient - stride) == 0;
    if quotient != stride {
      MultipleIsFar(rows, quotient - stride);
      assert false;
    }
  }

  lemma {:induction false} Quotient(bytes: nat, rows: nat, stride: nat)
    requires 0 < rows && bytes % rows == 0 && bytes / rows == stride
    ensures bytes == rows * stride
  {
  }

  /** A stride is implied exactly when it lies between the matches once per row. */
  lemma {:induction false} PairStrideMeans(first: RowFingerprint, x: nat, second: RowFingerprint, y: nat, stride: nat)
    requires 0 < stride
    ensures PairStride(first, x, second, y) == Some(stride) <==>
      first.rowIndex < second.rowIndex && y == x + Product(second.rowIndex - first.rowIndex, stride)
  {
    if first.rowIndex < second.rowIndex {
      var rows := second.rowIndex - first.rowIndex;
      if y == x + Product(rows, stride) {
        Multiple(rows, stride);
      } else if x < y && (y - x) % rows == 0 && (y - x) / rows == stride {
        Quotient(y - x, rows, stride);
        assert false;
      }
    }
  }

  datatype Verdict = NoLayout | BadExtent | Found(base: Address)

  predicate SameAllocation(x: ScanObservation, y: ScanObservation) {
    x.allocationBase == y.allocationBase && x.allocationSize == y.allocationSize
  }

  /** The tests on one triple of matches before the backend is asked. */
  function TripleVerdict(
    t: TableProfile, ra: RowFingerprint, ma: ScanObservation, rb: RowFingerprint, mb: ScanObservation,
    rc: RowFingerprint, mc: ScanObservation): (v: Verdict)
    ensures v.Found? ==> ExtentFits(t, v.base, (ma.allocationBase, ma.allocationSize))
  {
    var stride := Some(t.recordSize);
    if PairStride(ra, ma.address, rb, mb.address) != stride || PairStride(ra, ma.address, rc, mc.address) != stride
       || PairStride(rb, mb.address, rc, mc.address) != stride then NoLayout
    else if !SameAllocation(ma, mb) || !SameAllocation(ma, mc) then NoLayout
    else
      var offset := Product(ra.rowIndex, t.recordSize);
      if offset > ADDRESS_MAX || ma.address < offset || Extent(t) > ADDRESS_MAX then BadExtent
      else
        var base := ma.address - offset;
        if !ExtentFits(t, base, (ma.allocationBase, ma.allocationSize)) then BadExtent else Found(base)
  }

  lemma {:induction false} RowSteps(i: nat, j: nat, stride: nat)
    ensures i < j ==> Product(j, stride) == Product(i, stride) + Product(j - i, stride)
  {
  }

  /** A triple is found exactly when its matches are the three rows of one base. */
  lemma {:induction false} TripleMeans(
    t: TableProfile, ra: RowFingerprint, ma: ScanObservation, rb: RowFingerprint, mb: ScanObservation,
    rc: RowFingerprint, mc: ScanObservation, base: Address)
    requires 0 < t.recordSize
    ensures TripleVerdict(t, ra, ma, rb, mb, rc, mc) == Found(base) <==>
      && ra.rowIndex < rb.rowIndex < rc.rowIndex
      && ma.address == RowAt(t, base, ra.rowIndex) && mb.address == RowAt(t, base, rb.rowIndex)
      && mc.address == RowAt(t, base, rc.rowIndex)
      && ma.allocationBase == mb.allocationBase == mc.allocationBase
      && ma.allocationSize == mb.allocationSize == mc.allocationSize
      && ExtentFits(t, base, (ma.allocationBase, ma.allocationSize))
  {
    var s := t.recordSize;
    PairStrideMeans(ra, ma.address, rb, mb.address, s);
    PairStrideMeans(ra, ma.address, rc, mc.address, s);
    PairStrideMeans(rb, mb.address, rc, mc.address, s);
    RowSteps(ra.rowIndex, rb.rowIndex, s);
    RowSteps(ra.rowIndex, rc.rowIndex, s);
    RowSteps(rb.rowIndex, rc.rowIndex, s);
  }

  // ----- all triples

  predicate TripleAt(
    t: TableProfile, scans: seq<ScanObservationResult>, a: nat, b: nat, c: nat, i: int, j: int, k: int, base: Address)
    requires a < |t.rows| == |scans| && b < |t.rows| && c < |t.rows|
  {
    && 0 <= i < |scans[a].matches| && 0 <= j < |scans[b].matches| && 0 <= k < |scans[c].matches|
    && TripleVerdict(t, t.rows[a], scans[a].matches[i], t.rows[b], scans[b].matches[j],
                     t.rows[c], scans[c].matches[k]) == Found(base)
  }

  /** `base` comes from some triple of matches of the rows `a`, `b` and `c`, and its extent exists. */
  ghost predicate YieldedBy(
    t: TableProfile, scans: seq<ScanObservationResult>, allocations: Allocations, a: nat, b: nat, c: nat, base: Address)
    requires a < |t.rows| == |scans| && b < |t.rows| && c < |t.rows|
  {
    && allocations(base, Extent(t))
    && exists i, j, k :: TripleAt(t, scans, a, b, c, i, j, k, base)
  }

  ghost predicate Yielded(t: TableProfile, scans: seq<ScanObservationResult>, allocations: Allocations, base: Address)
    requires |t.rows| == |scans|
  {
    exists a: nat, b: nat, c: nat :: a < b < c < |t.rows| && YieldedBy(t, scans, allocations, a, b, c, base)
  }

  /** A triple of matches of the rows `a`, `b` and `c` whose extent is no good: it does not lie in the allocation of
      its matches, or is not allocated. */
  predicate FailsAt(
    t: TableProfile, scans: seq<ScanObservationResult>, allocations: Allocations, a: nat, b: nat, c: nat, i: int,
    j: int, k: int)
    requires a < |t.rows| == |scans| && b < |t.rows| && c < |t.rows|
  {
    && 0 <= i < |scans[a].matches| && 0 <= j < |scans[b].matches| && 0 <= k < |scans[c].matches|
    && var verdict := TripleVerdict(t, t.rows[a], scans[a].matches[i], t.rows[b], scans[b].matches[j],
                                    t.rows[c], scans[c].matches[k]);
       verdict.BadExtent? || (verdict.Found? && !allocations(verdict.base, Extent(t)))
  }

  ghost predicate FailsBy(
    t: TableProfile, scans: seq<ScanObservationResult>, allocations: Allocations, a: nat, b: nat, c: nat)
    requires a < |t.rows| == |scans| && b < |t.rows| && c < |t.rows|
  {
    exists i, j, k :: FailsAt(t, scans, allocations, a, b, c, i, j, k)
  }

  ghost predicate SomeFails(t: TableProfile, scans: seq<ScanObservationResult>, allocations: Allocations)
    requires |t.rows| == |scans|
  {
    exists a: nat, b: nat, c: nat :: a < b < c < |t.rows| && FailsBy(t, scans, allocations, a, b, c)
  }

  /** Candidates by base, in a form that does not depend on which allocation was reported first. */
  type Candidates = map<Address, TableDescriptor>

  function Describe(t: TableProfile, base: Address, m: ScanObservation): TableDescriptor {
    TableDescriptor(t.uniqueId, base, t.recordSize, t.capacity, m.allocationBase, m.allocationSize, CanonicalRecords,
                    None, 0, false)
  }

  predicate DescribesTable(t: TableProfile, base: Address, d: TableDescriptor) {
    && d.uniqueId == t.uniqueId && d.base == base && d.stride == t.recordSize && d.capacity == t.capacity
    && d.storage == CanonicalRecords && !d.directWriteVerified
    && ExtentFits(t, base, (d.allocationBase, d.allocationSize))
  }

  ghost predicate CandidatesSound(
    t: TableProfile, scans: seq<ScanObservationResult>, backend: DiscoveryBackend, candidates: Candidates)
    requires |t.rows| == |scans|
  {
    forall base :: base in candidates ==>
      && DescribesTable(t, base, candidates[base])
      && (Steady(backend) ==> Yielded(t, scans, backend.allocations(0), base))
  }

  /** One triple of matches: test it, ask whether the extent is allocated, keep the first for its base. */
  method VisitTriple(
    t: TableProfile, scans: seq<ScanObservationResult>, a: nat, b: nat, c: nat, i: nat, j: nat, k: nat,
    backend: DiscoveryBackend, before: Candidates)
    returns (candidates: Candidates, invalid: bool)
    requires a < b < c < |t.rows| == |scans| && CandidatesSound(t, scans, backend, before)
    requires i < |scans[a].matches| && j < |scans[b].matches| && k < |scans[c].matches|
    modifies backend
    ensures CandidatesSound(t, scans, backend, candidates) && before.Keys <= candidates.Keys
    ensures Steady(backend) ==> forall base ::
      (TripleAt(t, scans, a, b, c, i, j, k, base) && backend.allocations(0)(base, Extent(t)) ==> base in candidates)
    ensures Steady(backend) ==> (invalid <==> FailsAt(t, scans, backend.allocations(0), a, b, c, i, j, k))
  {
    candidates, invalid := before, false;
    var ma := scans[a].matches[i];
    var verdict := TripleVerdict(t, t.rows[a], ma, t.rows[b], scans[b].matches[j], t.rows[c], scans[c].matches[k]);
    match verdict {
      case NoLayout =>
      case BadExtent => invalid := true;
      case Found(base) =>
        var found := backend.AllocationExists(base, Extent(t));
        if !found {
          invalid := true;
        } else if base !in candidates {
          if Steady(backend) {
            assert TripleAt(t, scans, a, b, c, i, j, k, base);
            assert YieldedBy(t, scans, backend.allocations(0), a, b, c, base);
          }
          candidates := candidates[base := Describe(t, base, ma)];
        }
    }
  }

  /** Every base of a triple of matches before `(i, j, k)`, in the order of the loops, is a candidate. */
  ghost predicate Collected(
    t: TableProfile, scans: seq<ScanObservationResult>, backend: DiscoveryBackend, a: nat, b: nat, c: nat, i: int,
    j: int, k: int, candidates: Candidates)
    requires a < |t.rows| == |scans| && b < |t.rows| && c < |t.rows|
  {
    Steady(backend) ==> forall x, y, z, base :: TripleAt(t, scans, a, b, c, x, y, z, base) ==>
      (x < i || (x == i && (y < j || (y == j && z < k)))) ==>
        backend.allocations(0)(base, Extent(t)) ==> base in candidates
  }

  /** Whether a triple of matches before `(i, j, k)` failed is on record. */
  ghost predicate FailuresSeen(
    t: TableProfile, scans: seq<ScanObservationResult>, backend: DiscoveryBackend, a: nat, b: nat, c: nat, i: int,
    j: int, k: int, invalid: bool)
    requires a < |t.rows| == |scans| && b < |t.rows| && c < |t.rows|
  {
    Steady(backend) ==>
      && (invalid ==> FailsBy(t, scans, backend.allocations(0), a, b, c))
      && (!invalid ==> forall x, y, z :: FailsAt(t, scans, backend.allocations(0), a, b, c, x, y, z) ==>
        !(x < i || (x == i && (y < j || (y == j && z < k)))))
  }

  /** Every triple of matches of three rows. */
  method VisitMatches(
    t: TableProfile, scans: seq<ScanObservationResult>, a: nat, b: nat, c: nat, backend: DiscoveryBackend,
    before: Candidates)
    returns (candidates: Candidates, invalid: bool)
    requires a < b < c < |t.rows| == |scans| && CandidatesSound(t, scans, backend, before)
    modifies backend
    ensures CandidatesSound(t, scans, backend, candidates) && before.Keys <= candidates.Keys
    ensures Steady(backend) ==> forall base :: YieldedBy(t, scans, backend.allocations(0), a, b, c, base) ==>
      base in candidates
    ensures Steady(backend) ==> (invalid <==> FailsBy(t, scans, backend.allocations(0), a, b, c))
  {
    candidates, invalid := before, false;
    for i := 0 to |scans[a].matches|
      invariant CandidatesSound(t, scans, backend, candidates) && before.Keys <= candidates.Keys
      invariant Collected(t, scans, backend, a, b, c, i, 0, 0, candidates)
      invariant FailuresSeen(t, scans, backend, a, b, c, i, 0, 0, invalid)
    {
      for j := 0 to |scans[b].matches|
        invariant CandidatesSound(t, scans, backend, candidates) && before.Keys <= candidates.Keys
        invariant Collected(t, scans, backend, a, b, c, i, j, 0, candidates)
        invariant FailuresSeen(t, scans, backend, a, b, c, i, j, 0, invalid)
      {
        for k := 0 to |scans[c].matches|
          invariant CandidatesSound(t, scans, backend, candidates) && before.Keys <= candidates.Keys
          invariant Collected(t, scans, backend, a, b, c, i, j, k, candidates)
          invariant FailuresSeen(t, scans, backend, a, b, c, i, j, k, invalid)
        {
          var bad;
          candidates, bad := VisitTriple(t, scans, a, b, c, i, j, k, backend, candidates);
          invalid := invalid || bad;
        }
      }
    }
  }

  ghost predicate AllFailuresSeen(
    t: TableProfile, scans: seq<ScanObservationResult>, backend: DiscoveryBackend, a: nat, b: nat, c: nat,
    invalid: bool)
    requires |t.rows| == |scans|
  {
    Steady(backend) ==>
      && (invalid ==> SomeFails(t, scans, backend.allocations(0)))
      && (!invalid ==> forall x: nat, y: nat, z: nat :: x < y < z < |t.rows| ==>
        FailsBy(t, scans, backend.allocations(0), x, y, z) ==>
          !(x < a || (x == a && (y < b || (y == b && z < c)))))
  }

  ghost predicate AllCollected(
    t: TableProfile, scans: seq<ScanObservationResult>, backend: DiscoveryBackend, a: nat, b: nat, c: nat,
    candidates: Candidates)
    requires |t.rows| == |scans|
  {
    Steady(backend) ==> forall x: nat, y: nat, z: nat, base :: x < y < z < |t.rows| ==>
      (x < a || (x == a && (y < b || (y == b && z < c)))) ==>
        YieldedBy(t, scans, backend.allocations(0), x, y, z, base) ==> base in candidates
  }

  /** Every third row to two rows. */
  method VisitThirds(
    t: TableProfile, scans: seq<ScanObservationResult>, a: nat, b: nat, backend: DiscoveryBackend, before: Candidates,
    was: bool)
    returns (candidates: Candidates, invalid: bool)
    requires a < b < |t.rows| == |scans| && CandidatesSound(t, scans, backend, before)
    requires AllCollected(t, scans, backend, a, b, 0, before) && AllFailuresSeen(t, scans, backend, a, b, 0, was)
    modifies backend
    ensures CandidatesSound(t, scans, backend, candidates)
    ensures AllCollected(t, scans, backend, a, b + 1, 0, candidates)
    ensures AllFailuresSeen(t, scans, backend, a, b + 1, 0, invalid)
  {
    candidates, invalid := before, was;
    for c := b + 1 to |t.rows|
      invariant CandidatesSound(t, scans, backend, candidates)
      invariant AllCollected(t, scans, backend, a, b, c, candidates)
      invariant AllFailuresSeen(t, scans, backend, a, b, c, invalid)
    {
      var bad;
      candidates, bad := VisitMatches(t, scans, a, b, c, backend, candidates);
      invalid := invalid || bad;
    }
  }

  /** The structural search: every triple of rows, every triple of their matches. */
  method SearchLayouts(t: TableProfile, scans: seq<ScanObservationResult>, backend: DiscoveryBackend)
    returns (candidates: Candidates, invalid: bool)
    requires |t.rows| == |scans| >= 3
    modifies backend
    ensures CandidatesSound(t, scans, backend, candidates)
    ensures Steady(backend) ==> forall base :: Yielded(t, scans, backend.allocations(0), base) ==> base in candidates
    ensures Steady(backend) ==> (invalid <==> SomeFails(t, scans, backend.allocations(0)))
  {
    candidates, invalid := map[], false;
    var n := |t.rows|;
    for a := 0 to n - 2
      invariant CandidatesSound(t, scans, backend, candidates)
      invariant AllCollected(t, scans, backend, a, 0, 0, candidates)
      invariant AllFailuresSeen(t, scans, backend, a, 0, 0, invalid)
    {
      for b := a + 1 to n - 1
        invariant CandidatesSound(t, scans, backend, candidates)
        invariant AllCollected(t, scans, backend, a, b, 0, candidates)
        invariant AllFailuresSeen(t, scans, backend, a, b, 0, invalid)
      {
        candidates, invalid := VisitThirds(t, scans, a, b, backend, candidates, invalid);
      }
    }
  }

  // ----- the stable reread

  predicate RowsMatch(t: TableProfile, memory: Memory, base: Address) {
    forall i :: 0 <= i < |t.rows| ==>
      var address := RowAt(t, base, t.rows[i].rowIndex);
      address <= ADDRESS_MAX && RowMatches(memory, t.rows[i], address)
  }

  method RereadRequests(t: TableProfile, base: Address) returns (requests: Option<seq<ReadRequest>>)
    ensures requests.Some? <==> forall i :: 0 <= i < |t.rows| ==> RowAt(t, base, t.rows[i].rowIndex) <= ADDRESS_MAX
    ensures requests.Some? ==> |requests.value| == |t.rows| && forall i :: 0 <= i < |t.rows| ==>
      requests.value[i] == ReadRequest(RowAt(t, base, t.rows[i].rowIndex), |t.rows[i].pattern|)
  {
    var found: seq<ReadRequest> := [];
    for i := 0 to |t.rows|
      invariant |found| == i
      invariant forall j :: 0 <= j < i ==>
        RowAt(t, base, t.rows[j].rowIndex) <= ADDRESS_MAX
        && found[j] == ReadRequest(RowAt(t, base, t.rows[j].rowIndex), |t.rows[j].pattern|)
    {
      var offset := Product(t.rows[i].rowIndex, t.recordSize);
      if offset > ADDRESS_MAX || base + offset > ADDRESS_MAX {
        return None;
      }
      found := found + [ReadRequest(base + offset, |t.rows[i].pattern|)];
    }
    requests := Some(found);
  }

  lemma {:induction false} RereadMeans(
    t: TableProfile, base: Address, memory: Memory, requests: seq<ReadRequest>, bytes: Option<seq<seq<Byte>>>,
    stable: bool)
    requires |requests| == |t.rows|
    requires forall i :: 0 <= i < |t.rows| ==> RowAt(t, base, t.rows[i].rowIndex) <= ADDRESS_MAX
    requires forall i :: 0 <= i < |t.rows| ==>
      requests[i] == ReadRequest(RowAt(t, base, t.rows[i].rowIndex), |t.rows[i].pattern|)
    requires bytes.Some? && ShapeFits(requests, bytes.value) ==> forall i :: 0 <= i < |requests| ==>
      Readable(memory, requests[i]) && bytes.value[i] == BytesAt(memory, requests[i])
    requires (forall i :: 0 <= i < |requests| ==> Readable(memory, requests[i])) ==>
      bytes.Some? && ShapeFits(requests, bytes.value)
    requires stable <==> (
      && bytes.Some? && |bytes.value| == |t.rows|
      && forall i :: 0 <= i < |t.rows| ==> MaskedMatches(t.rows[i], bytes.value[i]))
    ensures stable <==> RowsMatch(t, memory, base)
  {
  }

  /** Every row of a candidate is read again in one batch and must still fit. */
  method Reread(t: TableProfile, base: Address, backend: DiscoveryBackend) returns (stable: bool)
    modifies backend
    ensures Steady(backend) ==> (stable <==> RowsMatch(t, backend.view(0), base))
  {
    var requests := RereadRequests(t, base);
    if requests.None? {
      return false;
    }
    ghost var now := backend.calls;
    var bytes := backend.ReadBatch(requests.value);
    stable := bytes.Some? && |bytes.value| == |t.rows|
      && forall i :: 0 <= i < |t.rows| ==> MaskedMatches(t.rows[i], bytes.value[i]);
    if Steady(backend) {
      assert backend.view(now) == backend.view(0) && backend.replies(now).Truth?;
      RereadMeans(t, base, backend.view(0), requests.value, bytes, stable);
    }
  }

  method KeepStable(t: TableProfile, candidates: Candidates, backend: DiscoveryBackend)
    returns (stable: set<Address>, unstable: bool)
    modifies backend
    ensures stable <= candidates.Keys
    ensures Steady(backend) ==> forall base :: base in stable <==>
      base in candidates && RowsMatch(t, backend.view(0), base)
    ensures unstable <==> stable != candidates.Keys
  {
    stable, unstable := {}, false;
    var todo := candidates.Keys;
    while todo != {}
      invariant todo <= candidates.Keys && stable <= candidates.Keys - todo
      invariant Steady(backend) ==> forall base ::
        (base in stable <==> base in candidates.Keys - todo && RowsMatch(t, backend.view(0), base))
      invariant unstable <==> stable != candidates.Keys - todo
      decreases todo
    {
      var base :| base in todo;
      var good := Reread(t, base, backend);
      ghost var seen := candidates.Keys - todo;
      todo := todo - {base};
      assert candidates.Keys - todo == seen + {base};
      if good {
        stable := stable + {base};
      } else {
        unstable := true;
      }
    }
  }

  // ----- the verdict on one table

  lemma {:induction false} RowInExtent(t: TableProfile, base: nat, row: nat)
    requires row < t.capacity && 0 < t.recordSize
    ensures base <= RowAt(t, base, row) < base + Extent(t)
  {
    RowSteps(row, t.capacity, t.recordSize);
    Multiple(t.capacity - row, t.recordSize);
  }

  lemma {:induction false} MatchOf(
    t: TableProfile, memory: Memory, allocations: Allocations, world: World, scans: seq<ScanObservationResult>, a: nat,
    base: Address)
    returns (i: nat)
    requires RowsLegal(t) && ScansTell(t, memory, world, scans) && a < |t.rows|
    requires IsLayout(t, memory, allocations, world, base) && base + Extent(t) <= ADDRESS_MAX
    requires RowSeen(t, world, base, a)
    ensures i < |scans[a].matches| && scans[a].matches[i].address == RowAt(t, base, t.rows[a].rowIndex)
    ensures world.allocationOf(scans[a].matches[i].address) ==
      (scans[a].matches[i].allocationBase, scans[a].matches[i].allocationSize)
  {
    var x := RowAt(t, base, t.rows[a].rowIndex);
    RowInExtent(t, base, t.rows[a].rowIndex);
    assert ScanTells(memory, world, t.rows[a], scans[a]);
    assert RowMatches(memory, t.rows[a], x);
    i :| 0 <= i < |scans[a].matches| && scans[a].matches[i].address == x;
  }

  lemma {:induction false} SeenIsYielded(
    t: TableProfile, memory: Memory, allocations: Allocations, world: World, scans: seq<ScanObservationResult>, a: nat,
    b: nat, c: nat, base: Address)
    requires RowsLegal(t) && ScansTell(t, memory, world, scans) && AllocationsAgree(world) && a < b < c < |t.rows|
    requires IsLayout(t, memory, allocations, world, base) && Seen(t, world, base, a, b, c)
    ensures Yielded(t, scans, allocations, base)
  {
    var i := MatchOf(t, memory, allocations, world, scans, a, base);
    var j := MatchOf(t, memory, allocations, world, scans, b, base);
    var k := MatchOf(t, memory, allocations, world, scans, c, base);
    var ma, mb, mc := scans[a].matches[i], scans[b].matches[j], scans[c].matches[k];
    RowInExtent(t, base, t.rows[b].rowIndex);
    RowInExtent(t, base, t.rows[c].rowIndex);
    assert world.allocationOf(mb.address) == world.allocationOf(ma.address);
    assert world.allocationOf(mc.address) == world.allocationOf(ma.address);
    TripleMeans(t, t.rows[a], ma, t.rows[b], mb, t.rows[c], mc, base);
    assert TripleAt(t, scans, a, b, c, i, j, k, base);
    assert YieldedBy(t, scans, allocations, a, b, c, base);
  }

  lemma {:induction false} LayoutIsYielded(
    t: TableProfile, memory: Memory, allocations: Allocations, world: World, scans: seq<ScanObservationResult>,
    base: Address)
    requires RowsLegal(t) && ScansTell(t, memory, world, scans) && AllocationsAgree(world)
    requires IsLayout(t, memory, allocations, world, base)
    ensures Yielded(t, scans, allocations, base) && RowsMatch(t, memory, base)
  {
    var a: nat, b: nat, c: nat :| a < b < c < |t.rows| && Seen(t, world, base, a, b, c);
    SeenIsYielded(t, memory, allocations, world, scans, a, b, c, base);
    forall i | 0 <= i < |t.rows|
      ensures RowAt(t, base, t.rows[i].rowIndex) <= ADDRESS_MAX
    {
      RowInExtent(t, base, t.rows[i].rowIndex);
    }
  }

  lemma {:induction false} YieldedIsSeen(
    t: TableProfile, memory: Memory, allocations: Allocations, world: World, scans: seq<ScanObservationResult>, a: nat,
    b: nat, c: nat, base: Address)
    requires RowsLegal(t) && ScansTell(t, memory, world, scans) && a < b < c < |t.rows|
    requires YieldedBy(t, scans, allocations, a, b, c, base)
    ensures Seen(t, world, base, a, b, c)
  {
    var i, j, k :| TripleAt(t, scans, a, b, c, i, j, k, base);
    var ma, mb, mc := scans[a].matches[i], scans[b].matches[j], scans[c].matches[k];
    TripleMeans(t, t.rows[a], ma, t.rows[b], mb, t.rows[c], mc, base);
    assert ScanTells(memory, world, t.rows[a], scans[a]);
    assert ScanTells(memory, world, t.rows[b], scans[b]);
    assert ScanTells(memory, world, t.rows[c], scans[c]);
  }

  /** The candidates that survive the reread are the layouts. */
  lemma {:induction false} StableIsLayout(
    t: TableProfile, memory: Memory, allocations: Allocations, world: World, scans: seq<ScanObservationResult>,
    base: Address)
    requires RowsLegal(t) && ScansTell(t, memory, world, scans) && AllocationsAgree(world)
    ensures Yielded(t, scans, allocations, base) && RowsMatch(t, memory, base) <==>
      IsLayout(t, memory, allocations, world, base)
  {
    if Yielded(t, scans, allocations, base) && RowsMatch(t, memory, base) {
      var a: nat, b: nat, c: nat :| a < b < c < |t.rows| && YieldedBy(t, scans, allocations, a, b, c, base);
      YieldedIsSeen(t, memory, allocations, world, scans, a, b, c, base);
      assert Seen(t, world, base, a, b, c);
    }
    if IsLayout(t, memory, allocations, world, base) {
      LayoutIsYielded(t, memory, allocations, world, scans, base);
    }
  }

  function Rejected(t: TableProfile, state: TableState): TableDiscovery {
    TableDiscovery(t.uniqueId, state, None)
  }

  /** Complete scans of steady memory for a table the loader admits. */
  ghost predicate StructuralPhase(
    t: TableProfile, scans: seq<ScanObservationResult>, backend: DiscoveryBackend, world: World)
  {
    && |t.rows| >= 3 && RowsLegal(t) && Steady(backend) && AllocationsAgree(world)
    && ScansTell(t, backend.view(0), world, scans)
    && forall i :: 0 <= i < |scans| ==> scans[i].complete
  }

  /** Resolved: there is one layout, and it is the descriptor's. Ambiguous: there are two. Otherwise: none. */
  ghost predicate Decided(t: TableProfile, memory: Memory, allocations: Allocations, world: World, d: TableDiscovery) {
    if d.state.Resolved? then
      && d.descriptor.Some? && DescribesTable(t, d.descriptor.value.base, d.descriptor.value)
      && forall base: Address :: IsLayout(t, memory, allocations, world, base) <==> base == d.descriptor.value.base
    else if d.state.Ambiguous? then
      exists x: Address, y: Address :: x != y
        && IsLayout(t, memory, allocations, world, x) && IsLayout(t, memory, allocations, world, y)
    else
      forall base: Address :: !IsLayout(t, memory, allocations, world, base)
  }

  /** Some base that the triples yield does not fit any more. */
  ghost predicate SomeUnfit(
    t: TableProfile, scans: seq<ScanObservationResult>, memory: Memory, allocations: Allocations)
    requires |t.rows| == |scans|
  {
    exists base :: Yielded(t, scans, allocations, base) && !RowsMatch(t, memory, base)
  }

  /** Why there is no layout: some base was found and lost; or none was lost but some triple's extent was no good;
      or no triple came that far. */
  ghost function NoLayoutState(
    t: TableProfile, scans: seq<ScanObservationResult>, memory: Memory, allocations: Allocations): TableState
    requires |t.rows| == |scans|
  {
    if SomeUnfit(t, scans, memory, allocations) then Unstable
    else if SomeFails(t, scans, allocations) then AllocationInvalid else Missing
  }

  method StableLayouts(
    t: TableProfile, scans: seq<ScanObservationResult>, backend: DiscoveryBackend, ghost world: World)
    returns (stable: map<Address, TableDescriptor>, unstable: bool, invalid: bool)
    requires |scans| == |t.rows| >= 3
    modifies backend
    ensures forall base :: base in stable ==> DescribesTable(t, base, stable[base])
    ensures StructuralPhase(t, scans, backend, world) ==> forall base: Address ::
      base in stable <==> IsLayout(t, backend.view(0), backend.allocations(0), world, base)
    ensures Steady(backend) ==> (unstable <==> SomeUnfit(t, scans, backend.view(0), backend.allocations(0)))
    ensures Steady(backend) ==> (invalid <==> SomeFails(t, scans, backend.allocations(0)))
  {
    var candidates;
    candidates, invalid := SearchLayouts(t, scans, backend);
    var bases;
    bases, unstable := KeepStable(t, candidates, backend);
    stable := map base | base in bases :: candidates[base];
    if Steady(backend) {
      assert unstable <==> exists base :: base in candidates && base !in bases;
    }
    if StructuralPhase(t, scans, backend, world) {
      forall base: Address
        ensures base in stable <==> IsLayout(t, backend.view(0), backend.allocations(0), world, base)
      {
        StableIsLayout(t, backend.view(0), backend.allocations(0), world, scans, base);
      }
    }
  }

  /** One stable layout resolves the table, several make it ambiguous, none leaves the reason. */
  method Conclude(t: TableProfile, stable: map<Address, TableDescriptor>, unstable: bool, invalid: bool)
    returns (d: TableDiscovery)
    requires forall base :: base in stable ==> DescribesTable(t, base, stable[base])
    ensures d.uniqueId == t.uniqueId
    ensures d.state.Resolved? ==> d.descriptor.Some? && stable.Keys == {d.descriptor.value.base}
    ensures d.state.Resolved? ==> d.descriptor.value == stable[d.descriptor.value.base]
    ensures d.state.Ambiguous? ==> exists x, y :: x in stable && y in stable && x != y
    ensures stable == map[] ==>
      d.state == if unstable then Unstable else if invalid then AllocationInvalid else Missing
    ensures !d.state.Resolved? && !d.state.Ambiguous? ==> stable == map[]
    ensures !d.state.Resolved? ==> d.descriptor.None?
  {
    if stable == map[] {
      return Rejected(t, if unstable then Unstable else if invalid then AllocationInvalid else Missing);
    }
    var base :| base in stable;
    if stable.Keys == {base} {
      return TableDiscovery(t.uniqueId, Resolved, Some(stable[base]));
    }
    assert stable.Keys == {base} + (stable.Keys - {base});
    ghost var other :| other in stable.Keys - {base};
    d := Rejected(t, Ambiguous);
  }

  /** The structural phase for one table. With complete scans of steady memory it resolves exactly when there is one
      layout, and then to that layout; two layouts make it ambiguous; and with none the rejection says why. */
  method DiscoverTable(
    t: TableProfile, scans: seq<ScanObservationResult>, backend: DiscoveryBackend, ghost world: World)
    returns (d: TableDiscovery)
    requires |scans| == |t.rows|
    modifies backend
    ensures d.uniqueId == t.uniqueId
    ensures |t.rows| < 3 || t.recordSize == 0 || (exists i :: 0 <= i < |scans| && !scans[i].complete) ==>
      d == Rejected(t, Missing)
    ensures StructuralPhase(t, scans, backend, world) ==>
      Decided(t, backend.view(0), backend.allocations(0), world, d)
    ensures StructuralPhase(t, scans, backend, world) && !d.state.Resolved? && !d.state.Ambiguous? ==>
      d == Rejected(t, NoLayoutState(t, scans, backend.view(0), backend.allocations(0)))
  {
    if |t.rows| < 3 || t.recordSize == 0 || exists i :: 0 <= i < |scans| && !scans[i].complete {
      return Rejected(t, Missing);
    }
    var stable, unstable, invalid := StableLayouts(t, scans, backend, world);
    d := Conclude(t, stable, unstable, invalid);
  }
}
