/** From the paged scan to the table it finds: discovery whose scans are the scanner's own. */
module ScanDiscovery {
  import opened Bytes
  import opened Profile
  import opened CatalogState
  import opened CatalogReads
  import opened MaskedPattern
  import opened Discovery
  import Scan = MemoryScan

  const MAX_FINGERPRINT_MATCHES: nat := 8

  function PatternOf(f: RowFingerprint): Pattern {
    Pattern(f.pattern, f.mask)
  }

  predicate Visible(space: Scan.Space, a: nat, n: nat) {
    space.minimum <= a <= space.maximum && Scan.EligibleAt(space, a) && a + n <= Scan.End(space.query(a).value)
  }

  /** The scanned space and the memory the backend shows are one process: eligible bytes are readable and the
      same, a range can be seen exactly if it lies in one eligible region below the maximum, and the address
      space ends with its last region. */
  ghost predicate SameProcess(space: Scan.Space, memory: Memory, world: World) {
    && Scan.Healthy(space) && space.minimum <= space.maximum && Scan.ScanEnd(space) == space.maximum + 1
    && (forall a: nat :: Scan.EligibleAt(space, a) ==> a in memory && memory[a] == space.contents(a))
    && (forall a: nat, n: nat :: world.scannable(a, n) <==> Visible(space, a, n))
    && forall a: nat :: world.allocationOf(a).0 <= ADDRESS_MAX
  }

  lemma {:induction false} VisibleBytes(space: Scan.Space, memory: Memory, world: World, a: nat, n: nat)
    requires SameProcess(space, memory, world) && Visible(space, a, n)
    ensures Mapped(memory, a, n)
    ensures forall x: nat :: a <= x < a + n ==> memory[x] == space.contents(x)
  {
    forall x: nat | a <= x < a + n
      ensures x in memory && memory[x] == space.contents(x)
    {
      assert Scan.SameRegion(space.query(a), space.query(x));
      assert Scan.EligibleAt(space, x);
    }
  }

  /** A match of the scanner is a place where the fingerprint fits and can be seen. */
  lemma {:induction false} MatchIsVisible(space: Scan.Space, memory: Memory, world: World, f: RowFingerprint, a: nat)
    requires SameProcess(space, memory, world) && Compilable(PatternOf(f)) && a <= ADDRESS_MAX
    ensures space.minimum <= a <= space.maximum && Scan.MatchAt(space, PatternOf(f), a) <==>
      RowMatches(memory, f, a) && world.scannable(a, |f.pattern|)
  {
    if Visible(space, a, |f.pattern|) {
      VisibleBytes(space, memory, world, a, |f.pattern|);
    }
  }

  function ObservedAt(world: World, a: nat): ScanObservation
    requires a <= ADDRESS_MAX && world.allocationOf(a).0 <= ADDRESS_MAX
  {
    ScanObservation(a, world.allocationOf(a).0, world.allocationOf(a).1)
  }

  function Observed(world: World, matches: seq<nat>): (seen: seq<ScanObservation>)
    requires forall i :: 0 <= i < |matches| ==> matches[i] <= ADDRESS_MAX
    requires forall a: nat :: world.allocationOf(a).0 <= ADDRESS_MAX
    ensures |seen| == |matches|
    ensures forall i :: 0 <= i < |matches| ==> seen[i] == ObservedAt(world, matches[i])
  {
    seq(|matches|, i requires 0 <= i < |matches| => ObservedAt(world, matches[i]))
  }

  /** A complete scan tells exactly where its fingerprint fits. */
  lemma {:induction false} CompleteScanTells(
    space: Scan.Space, memory: Memory, world: World, f: RowFingerprint, result: Scan.ScanAllResult, stop: nat)
    requires SameProcess(space, memory, world) && result.code.Complete?
    requires Scan.ScanAllMeans(space, PatternOf(f), MAX_FINGERPRINT_MATCHES, result, stop)
    requires Scan.LegalScan(space, Scan.ScanRequest(PatternOf(f), MAX_FINGERPRINT_MATCHES, None, true))
    ensures forall i :: 0 <= i < |result.matches| ==> result.matches[i] <= ADDRESS_MAX
    ensures ScanTells(memory, world, f, ScanObservationResult(true, Observed(world, result.matches)))
  {
    var p := PatternOf(f);
    assert result.matches == Scan.Matches(space, p, space.minimum, space.maximum + 1);
    forall i | 0 <= i < |result.matches|
      ensures result.matches[i] <= ADDRESS_MAX
      ensures RowMatches(memory, f, result.matches[i]) && world.scannable(result.matches[i], |f.pattern|)
    {
      MatchIsVisible(space, memory, world, f, result.matches[i]);
    }
    forall a: nat | a <= ADDRESS_MAX && RowMatches(memory, f, a) && world.scannable(a, |f.pattern|)
      ensures exists k :: 0 <= k < |result.matches| && Observed(world, result.matches)[k].address == a
    {
      MatchIsVisible(space, memory, world, f, a);
      Scan.MatchesExactly(space, p, space.minimum, space.maximum + 1, a);
      var k :| 0 <= k < |result.matches| && result.matches[k] == a;
      assert Observed(world, result.matches)[k].address == a;
    }
  }

  /** A row's fingerprint that the pages can find all of. */
  ghost predicate RowScannable(space: Scan.Space, f: RowFingerprint) {
    && Scan.LegalScan(space, Scan.ScanRequest(PatternOf(f), MAX_FINGERPRINT_MATCHES, None, true))
    && Scan.Coverable(space) && Scan.FewMatches(space, PatternOf(f), MAX_FINGERPRINT_MATCHES)
  }

  ghost predicate RowsScannable(space: Scan.Space, t: TableProfile) {
    forall i :: 0 <= i < |t.rows| ==> RowScannable(space, t.rows[i])
  }

  ghost predicate TableScannable(space: Scan.Space, t: TableProfile, world: World) {
    |t.rows| >= 3 && RowsLegal(t) && AllocationsAgree(world) && RowsScannable(space, t)
  }

  /** A scan is complete exactly if the pages can find all of the fingerprint, and then tells where it fits. */
  ghost predicate ScanIsRight(
    space: Scan.Space, memory: Memory, world: World, f: RowFingerprint, scan: ScanObservationResult)
  {
    && (scan.complete <==> RowScannable(space, f))
    && (RowScannable(space, f) ==> ScanTells(memory, world, f, scan))
  }

  method ScanRow(space: Scan.Space, f: RowFingerprint, world: World, ghost memory: Memory)
    returns (scan: ScanObservationResult)
    requires space.minimum <= space.maximum && forall a: nat :: world.allocationOf(a).0 <= ADDRESS_MAX
    ensures SameProcess(space, memory, world) ==> ScanIsRight(space, memory, world, f, scan)
  {
    var result, stop := Scan.ScanAll(space, PatternOf(f), MAX_FINGERPRINT_MATCHES);
    if result.code.Complete? && forall i :: 0 <= i < |result.matches| ==> result.matches[i] <= ADDRESS_MAX {
      scan := ScanObservationResult(true, Observed(world, result.matches));
    } else {
      scan := ScanObservationResult(false, []);
    }
    if SameProcess(space, memory, world) && result.code.Complete? {
      CompleteScanTells(space, memory, world, f, result, stop);
    }
  }

  method ScanRows(space: Scan.Space, t: TableProfile, world: World, ghost memory: Memory)
    returns (scans: seq<ScanObservationResult>)
    requires space.minimum <= space.maximum && forall a: nat :: world.allocationOf(a).0 <= ADDRESS_MAX
    ensures |scans| == |t.rows|
    ensures SameProcess(space, memory, world) ==>
      forall i :: 0 <= i < |scans| ==> (scans[i].complete <==> RowScannable(space, t.rows[i]))
    ensures SameProcess(space, memory, world) && RowsScannable(space, t) ==> ScansTell(t, memory, world, scans)
  {
    scans := [];
    for i := 0 to |t.rows|
      invariant |scans| == i
      invariant SameProcess(space, memory, world) ==>
        forall j :: 0 <= j < i ==> ScanIsRight(space, memory, world, t.rows[j], scans[j])
    {
      var scan := ScanRow(space, t.rows[i], world, memory);
      scans := scans + [scan];
    }
  }

  /** Scan for every row, then search the layouts. On one steady process, with fingerprints the pages can find all
      of, the table is resolved exactly when it has one layout, and the rejection says why there is none; nothing is
      taken on trust about the scans. A fingerprint they cannot find all of, such as one with more than eight matches,
      leaves the table missing, whatever layouts it has. */
  method DiscoverByScanning(space: Scan.Space, t: TableProfile, world: World, backend: DiscoveryBackend)
    returns (d: TableDiscovery, ghost scans: seq<ScanObservationResult>)
    requires space.minimum <= space.maximum && forall a: nat :: world.allocationOf(a).0 <= ADDRESS_MAX
    modifies backend
    ensures d.uniqueId == t.uniqueId && |scans| == |t.rows|
    ensures SameProcess(space, backend.view(0), world) && Steady(backend) && TableScannable(space, t, world) ==>
      && Decided(t, backend.view(0), backend.allocations(0), world, d) && ScansTell(t, backend.view(0), world, scans)
      && (!d.state.Resolved? && !d.state.Ambiguous? ==>
        d == Rejected(t, NoLayoutState(t, scans, backend.view(0), backend.allocations(0))))
    ensures SameProcess(space, backend.view(0), world) && !RowsScannable(space, t) ==> d == Rejected(t, Missing)
  {
    var found := ScanRows(space, t, world, backend.view(0));
    scans := found;
    d := DiscoverTable(t, found, backend, world);
  }
}
