/** Which scans are made, what counts as a match, and what a finished scan lists, without the scanner's own tests. */
module ScanMeaning {
  import opened Bytes
  import opened Profile
  import opened MaskedPattern
  import opened MemoryScan
  import CatalogMeaning
  import CatalogReads
  import CatalogState
  import DiscoveredTables
  import Discovery
  import ScanDiscovery

  /** A pattern of at most 4096 bytes with a mask of its length, at least 8 or for the engine's own scans 4; a limit of
      1 to 64 matches; a cursor inside the space. */
  lemma {:induction false} LegalScanExactly(space: Space, request: ScanRequest)
    ensures LegalScan(space, request) <==>
      && |request.pattern.mask| == |request.pattern.bytes| <= 4096
      && |request.pattern.bytes| >= (if request.frtkInternal then 4 else 8)
      && 1 <= request.maxMatches <= 64
      && (request.cursor == None || exists a: nat :: request.cursor == Some(a) && space.minimum <= a <= space.maximum)
  {
    if request.cursor.Some? {
      assert request.cursor == Some(request.cursor.value);
    }
  }

  /** From `a` on every byte agrees with the pattern bit by bit, wherever its mask selects. */
  ghost predicate BitsFit(space: Space, p: Pattern, a: nat)
    requires |p.bytes| == |p.mask|
  {
    forall i :: 0 <= i < |p.bytes| ==> SelectedBitsAgree(space.contents(a + i), p.bytes[i], p.mask[i])
  }

  /** A match lies wholly in the readable private region its first byte is in, and agrees there bit by bit. */
  ghost predicate IsMatch(space: Space, p: Pattern, a: nat)
    requires |p.bytes| == |p.mask|
  {
    && (exists base: nat, size: nat :: space.query(a) == Some(Region(base, size, true)) && a + |p.bytes| <= base + size)
    && BitsFit(space, p, a)
  }

  lemma {:induction false} MatchMeans(space: Space, p: Pattern, a: nat)
    requires Compilable(p)
    ensures MatchAt(space, p, a) <==> IsMatch(space, p, a)
  {
    forall i | 0 <= i < |p.bytes| {
      MaskedByBits(space.contents(a + i), p.bytes[i], p.mask[i]);
    }
    if space.query(a).Some? {
      var region := space.query(a).value;
      assert space.query(a) == Some(Region(region.base, region.size, region.eligible));
    }
  }

  function Readable(space: Space, lo: nat, hi: nat): set<int> {
    set a | lo <= a < hi && space.query(a).Some? && space.query(a).value.eligible
  }

  /** How many of the addresses from `lo` to `hi` lie in regions a scan reads. */
  lemma {:induction false} EligibleCounts(space: Space, lo: nat, hi: nat)
    requires lo <= hi
    ensures EligibleBytes(space, lo, hi) == |Readable(space, lo, hi)|
    decreases hi
  {
    if lo < hi {
      EligibleCounts(space, lo, hi - 1);
      var before := Readable(space, lo, hi - 1);
      assert Readable(space, lo, hi) == if EligibleAt(space, hi - 1) then before + {hi - 1} else before;
    } else {
      assert Readable(space, lo, hi) == {};
    }
  }

  ghost predicate ListsMatches(space: Space, p: Pattern, lo: nat, hi: nat, listed: seq<nat>)
    requires |p.bytes| == |p.mask|
  {
    && (forall a: nat :: a in listed <==> lo <= a < hi && IsMatch(space, p, a))
    && forall i, j :: 0 <= i < j < |listed| ==> listed[i] < listed[j]
  }

  lemma {:induction false} NaiveScanLists(space: Space, p: Pattern, lo: nat, hi: nat)
    requires Compilable(p)
    ensures ListsMatches(space, p, lo, hi, Matches(space, p, lo, hi))
  {
    forall a: nat
      ensures a in Matches(space, p, lo, hi) <==> lo <= a < hi && IsMatch(space, p, a)
    {
      MatchesExactly(space, p, lo, hi, a);
      MatchMeans(space, p, a);
    }
    MatchesExactly(space, p, lo, hi, 0);
  }

  /** On a healthy space where no more places match than the limit, a legal scan of all pages completes exactly when
      4096 pages of 32 MiB are more than the addresses it reads below the maximum; complete, it lists every match from
      the minimum to past the maximum once, in ascending order. */
  lemma {:induction false} FullScanExactly(
    space: Space, p: Pattern, maxMatches: nat, result: ScanAllResult, stop: nat, region: Region)
    requires ScanAllMeans(space, p, maxMatches, result, stop) && Healthy(space) && space.minimum <= space.maximum
    requires 4 <= |p.bytes| <= 4096 && |p.mask| == |p.bytes| && 1 <= maxMatches <= 64
    requires space.query(space.maximum) == Some(region)
    ensures |Matches(space, p, space.minimum, region.base + region.size)| <= maxMatches ==>
      (result.code.Complete? <==> |Readable(space, space.minimum, space.maximum)| < 4096 * 33554432)
    ensures result.code.Complete? ==>
      && space.maximum < stop <= region.base + region.size && |result.matches| <= maxMatches
      && ListsMatches(space, p, space.minimum, stop, result.matches)
  {
    LegalScanExactly(space, ScanRequest(p, maxMatches, None, true));
    EligibleCounts(space, space.minimum, space.maximum);
    NaiveScanLists(space, p, space.minimum, stop);
  }

  /** A row can be scanned for when its fingerprint is 4 to 4096 bytes under a mask of its length, fits in at most 8
      places, and the pages reach the maximum. */
  lemma {:induction false} RowScannableExactly(space: Space, f: RowFingerprint)
    requires space.minimum <= space.maximum
    ensures ScanDiscovery.RowScannable(space, f) <==>
      && 4 <= |f.pattern| == |f.mask| <= 4096
      && |Readable(space, space.minimum, space.maximum)| < 4096 * 33554432
      && |Matches(space, Pattern(f.pattern, f.mask), space.minimum, ScanEnd(space))| <= 8
  {
    LegalScanExactly(space, ScanRequest(Pattern(f.pattern, f.mask), 8, None, true));
    EligibleCounts(space, space.minimum, space.maximum);
  }

  /** A table that scanning and the layout search resolve has, once installed, its rows in place on the memory it was
      found in: records a scan can find are not too large for revalidation. */
  lemma {:induction false} ScannedIsInPlace(
    space: Space, t: TableProfile, memory: Memory, allocations: CatalogReads.Allocations, world: Discovery.World,
    found: CatalogState.TableDiscovery, e: CatalogState.Entry, schema: TableSchema, generation: nat, i: nat)
    requires space.minimum <= space.maximum && ScanDiscovery.RowsScannable(space, t) && i < |t.rows|
    requires Discovery.RowsLegal(t) && DiscoveredTables.WholeRecords(t)
    requires Discovery.Decided(t, memory, allocations, world, found) && found.state.Resolved?
    requires CatalogState.InstalledAs(e, t, schema, found.descriptor.value, generation)
    ensures CatalogMeaning.RowInPlace(e.descriptor, memory, t.rows[i])
    ensures allocations(e.descriptor.base, t.capacity * t.recordSize)
  {
    RowScannableExactly(space, t.rows[0]);
    DiscoveredTables.DiscoveredIsInPlace(t, memory, allocations, world, found, e, schema, generation);
  }
}
