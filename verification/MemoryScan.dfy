/** The paged, chunked scan of private memory, and the naive scan it stands for. */
module MemoryScan {
  import opened Bytes
  import opened Bits
  import opened MaskedPattern
  import SeqFacts

  const MIN_PATTERN_BYTES: nat := 8
  const MIN_FRTK_PATTERN_BYTES: nat := 4
  const MAX_PATTERN_BYTES: nat := 4096
  const MAX_MATCHES: nat := 64
  const SCAN_CHUNK_BYTES: nat := 4194304
  const MAX_SCAN_PAGE_BYTES: nat := 33554432
  const CANDIDATE_WINDOW: nat := 4096
  const MAX_PAGES: nat := 4096

  datatype Region = Region(base: nat, size: nat, eligible: bool)

  /** A process that does not change while it is scanned: what a region query answers, what the bytes
      are, and which reads succeed. */
  datatype Space = Space(
    minimum: Address, maximum: Address,
    query: nat -> Option<Region>, contents: nat -> Byte, readable: (nat, nat) -> bool)

  predicate Contains(r: Region, a: nat) {
    r.base <= a < r.base + r.size
  }

  function End(r: Region): nat {
    r.base + r.size
  }

  /** Two answers about one region: a query in mid-region may begin its answer at the page it was asked about,
      but it ends where the region ends. */
  predicate SameRegion(r: Option<Region>, q: Option<Region>) {
    r.Some? && q.Some? && End(r.value) == End(q.value) && r.value.eligible == q.value.eligible
  }

  /** Regions tile the space: a query answers a range that holds the address, and from there on to its end
      every address lies in the same region. */
  ghost predicate Tiled(space: Space) {
    forall a: nat, b: nat {:trigger space.query(a), space.query(b)} :: space.query(a).Some? ==>
      && Contains(space.query(a).value, a)
      && (a <= b < End(space.query(a).value) ==> SameRegion(space.query(a), space.query(b)))
  }

  const PAGE_BYTES: nat := 4096

  function Min(a: nat, b: nat): nat {
    if a <= b then a else b
  }

  function Max(a: nat, b: nat): nat {
    if a <= b then b else a
  }

  /** The answer of a query that begins at the page of the address asked. */
  function FromPage(whole: Option<Region>, a: nat): Option<Region> {
    if whole.None? || a < whole.value.base then whole
    else
      var begin := Max(whole.value.base, a - a % PAGE_BYTES);
      if End(whole.value) < begin then whole
      else Some(Region(begin, End(whole.value) - begin, whole.value.eligible))
  }

  /** Queries that answer from the page asked about tile the space, as whole regions do. */
  lemma {:induction false} PageQueriesTile(space: Space, whole: nat -> Option<Region>)
    requires forall a: nat, b: nat {:trigger whole(a), whole(b)} :: whole(a).Some? ==>
      Contains(whole(a).value, a) && (Contains(whole(a).value, b) ==> whole(b) == whole(a))
    requires forall a: nat :: space.query(a) == FromPage(whole(a), a)
    ensures Tiled(space)
  {
    forall a: nat, b: nat | space.query(a).Some? && a <= b < End(space.query(a).value)
      ensures SameRegion(space.query(a), space.query(b))
    {
      assert whole(b) == whole(a);
    }
  }

  predicate EligibleAt(space: Space, a: nat) {
    space.query(a).Some? && space.query(a).value.eligible
  }

  /** Every address up to the maximum lies in a region of the address space, and eligible regions can be read. */
  ghost predicate Healthy(space: Space) {
    && Tiled(space)
    && (forall a: nat :: a <= space.maximum ==>
      space.query(a).Some? && End(space.query(a).value) <= ADDRESS_MAX)
    && forall a: nat, size: nat ::
      EligibleAt(space, a) && a + size <= End(space.query(a).value) ==> space.readable(a, size)
  }

  // ----- the naive scan

  predicate FitsSpace(space: Space, p: Pattern, a: nat)
    requires Compilable(p)
  {
    forall i :: 0 <= i < |p.bytes| ==> Masked(space.contents(a + i), p.mask[i]) == Masked(p.bytes[i], p.mask[i])
  }

  /** A match: the pattern fits at `a`, wholly inside one eligible region. */
  predicate MatchAt(space: Space, p: Pattern, a: nat)
    requires Compilable(p)
  {
    var region := space.query(a);
    && region.Some? && region.value.eligible && a + |p.bytes| <= End(region.value)
    && FitsSpace(space, p, a)
  }

  /** All matches in `[lo, hi)`, ascending. */
  function Matches(space: Space, p: Pattern, lo: nat, hi: nat): (matches: seq<nat>)
    requires Compilable(p)
    ensures forall i :: 0 <= i < |matches| ==> lo <= matches[i] < hi && MatchAt(space, p, matches[i])
    decreases hi
  {
    if hi <= lo then []
    else Matches(space, p, lo, hi - 1) + (if MatchAt(space, p, hi - 1) then [hi - 1] else [])
  }

  /** The list holds every match once, in ascending order. */
  lemma {:induction false} MatchesExactly(space: Space, p: Pattern, lo: nat, hi: nat, a: nat)
    requires Compilable(p)
    ensures a in Matches(space, p, lo, hi) <==> lo <= a < hi && MatchAt(space, p, a)
    ensures forall i, j :: 0 <= i < j < |Matches(space, p, lo, hi)| ==>
      Matches(space, p, lo, hi)[i] < Matches(space, p, lo, hi)[j]
    decreases hi
  {
    if lo < hi {
      MatchesExactly(space, p, lo, hi - 1, a);
    }
  }

  lemma {:induction false} MatchesSplit(space: Space, p: Pattern, lo: nat, mid: nat, hi: nat)
    requires Compilable(p) && lo <= mid <= hi
    ensures Matches(space, p, lo, hi) == Matches(space, p, lo, mid) + Matches(space, p, mid, hi)
    decreases hi
  {
    if mid < hi {
      MatchesSplit(space, p, lo, mid, hi - 1);
      SeqFacts.Associate(Matches(space, p, lo, mid), Matches(space, p, mid, hi - 1),
                         if MatchAt(space, p, hi - 1) then [hi - 1] else []);
    }
  }

  lemma {:induction false} NoMatches(space: Space, p: Pattern, lo: nat, hi: nat)
    requires Compilable(p) && forall a: nat :: lo <= a < hi ==> !MatchAt(space, p, a)
    ensures Matches(space, p, lo, hi) == []
    decreases hi
  {
    if lo < hi {
      NoMatches(space, p, lo, hi - 1);
    }
  }

  // ----- the bytes a scan reads

  /** How many addresses in `[lo, hi)` lie in eligible regions. */
  function EligibleBytes(space: Space, lo: nat, hi: nat): (n: nat)
    ensures n <= if lo <= hi then hi - lo else 0
    decreases hi
  {
    if hi <= lo then 0 else EligibleBytes(space, lo, hi - 1) + (if EligibleAt(space, hi - 1) then 1 else 0)
  }

  lemma {:induction false} EligibleSplit(space: Space, lo: nat, mid: nat, hi: nat)
    requires lo <= mid <= hi
    ensures EligibleBytes(space, lo, hi) == EligibleBytes(space, lo, mid) + EligibleBytes(space, mid, hi)
    decreases hi
  {
    if mid < hi {
      EligibleSplit(space, lo, mid, hi - 1);
    }
  }

  /** From an address to the end of its region all bytes are eligible, or none is. */
  lemma {:induction false} EligibleInRegion(space: Space, lo: nat, hi: nat)
    requires Tiled(space) && space.query(lo).Some? && lo <= hi <= End(space.query(lo).value)
    ensures EligibleBytes(space, lo, hi) == if space.query(lo).value.eligible then hi - lo else 0
    decreases hi
  {
    if lo < hi {
      EligibleInRegion(space, lo, hi - 1);
      assert SameRegion(space.query(lo), space.query(hi - 1));
    }
  }

  /** Where a scan ends at the latest: at the end of the region of the maximum. */
  function ScanEnd(space: Space): nat {
    if space.query(space.maximum).Some? then End(space.query(space.maximum).value) else space.maximum + 1
  }

  lemma {:induction false} RegionBeforeScanEnd(space: Space, cursor: nat)
    requires Tiled(space) && space.query(space.maximum).Some? && space.query(cursor).Some? && cursor <= space.maximum
    ensures End(space.query(cursor).value) <= ScanEnd(space)
  {
    assert Contains(space.query(space.maximum).value, space.maximum);
  }

  // ----- one chunk

  datatype Chunk = Chunk(cursor: nat, unique: nat, size: nat)

  /** A chunk of the region: up to the next chunk begins, plus a lookahead of one byte less than the
      pattern, as far as the region reaches. */
  predicate ChunkOf(region: Region, p: Pattern, k: Chunk)
    requires Compilable(p)
  {
    && region.base <= k.cursor && 0 < k.unique && k.cursor + k.unique <= End(region)
    && k.size == k.unique + Min(|p.bytes| - 1, End(region) - (k.cursor + k.unique))
  }

  predicate Holds(space: Space, k: Chunk, buffer: seq<Byte>) {
    k.size <= |buffer| && forall i :: 0 <= i < k.size ==> buffer[i] == space.contents(k.cursor + i)
  }

  predicate Candidate(p: Pattern, k: Chunk, buffer: seq<Byte>, o: nat)
    requires Compilable(p)
  {
    o + |p.bytes| <= k.size <= |buffer| && FitsAt(p, buffer, o)
  }

  /** Inside the chunk, a match is a candidate that fits the bytes read. */
  ghost predicate Faithful(space: Space, p: Pattern, k: Chunk, buffer: seq<Byte>)
    requires Compilable(p)
  {
    forall o: nat :: o < k.unique ==> (MatchAt(space, p, k.cursor + o) <==> Candidate(p, k, buffer, o))
  }

  lemma {:induction false} ChunkIsFaithful(space: Space, p: Pattern, region: Region, k: Chunk, buffer: seq<Byte>)
    requires Compilable(p) && Tiled(space) && space.query(k.cursor) == Some(region) && region.eligible
    requires ChunkOf(region, p, k) && Holds(space, k, buffer)
    ensures Faithful(space, p, k, buffer)
  {
  }

  /** Matches found before offset `o` of the chunk. */
  ghost predicate Found(space: Space, p: Pattern, k: Chunk, o: nat, before: seq<nat>, matches: seq<nat>)
    requires Compilable(p)
  {
    matches == before + Matches(space, p, k.cursor, k.cursor + Min(o, k.unique))
  }

  /** A stretch of the chunk without candidates adds nothing. */
  lemma {:induction false} Skip(
    space: Space, p: Pattern, k: Chunk, buffer: seq<Byte>, o: nat, next: nat, before: seq<nat>, matches: seq<nat>)
    requires Compilable(p) && Faithful(space, p, k, buffer) && o <= next
    requires Found(space, p, k, o, before, matches)
    requires forall c: nat :: o <= c < next ==> !Candidate(p, k, buffer, c)
    ensures Found(space, p, k, next, before, matches)
  {
    var lo, hi := Min(o, k.unique), Min(next, k.unique);
    forall a: nat | k.cursor + lo <= a < k.cursor + hi
      ensures !MatchAt(space, p, a)
    {
      assert !Candidate(p, k, buffer, a - k.cursor);
    }
    NoMatches(space, p, k.cursor + lo, k.cursor + hi);
    MatchesSplit(space, p, k.cursor, k.cursor + lo, k.cursor + hi);
  }

  /** A candidate inside the chunk is the next match. */
  lemma {:induction false} Take(
    space: Space, p: Pattern, k: Chunk, buffer: seq<Byte>, o: nat, before: seq<nat>, matches: seq<nat>)
    requires Compilable(p) && Faithful(space, p, k, buffer) && o < k.unique
    requires Found(space, p, k, o, before, matches) && Candidate(p, k, buffer, o)
    ensures Found(space, p, k, o + 1, before, matches + [k.cursor + o])
  {
  }

  lemma {:induction false} NoneIsNoCandidate(m: Matcher, p: Pattern, k: Chunk, buffer: seq<Byte>, first: nat, end: nat)
    requires Compiled(m, p) && InReach(m) && end + m.size <= |buffer| + 1 && NonePass(m, buffer, first, end)
    ensures forall c: nat :: first <= c < end ==> !Candidate(p, k, buffer, c)
  {
    forall c: nat | first <= c < end
      ensures !Candidate(p, k, buffer, c)
    {
      CompiledMeans(m, p, buffer, c);
    }
  }

  datatype Step = Advance(next: nat) | Hit(at: nat) | Leave

  /** One window of at most 4096 candidates: nothing in it, a match, or a match that belongs to the next chunk. */
  method SearchWindow(p: Pattern, m: Matcher, k: Chunk, buffer: array<Byte>, offset: nat) returns (step: Step)
    requires Compiled(m, p) && m.size <= k.size <= buffer.Length && offset <= k.size - m.size
    ensures step.Advance? ==> offset < step.next <= k.size - m.size + 1
    ensures step.Advance? ==> forall c: nat :: offset <= c < step.next ==> !Candidate(p, k, buffer[..], c)
    ensures step.Hit? ==> offset <= step.at < k.unique && Candidate(p, k, buffer[..], step.at)
    ensures step.Hit? ==> forall c: nat :: offset <= c < step.at ==> !Candidate(p, k, buffer[..], c)
    ensures step.Leave? ==> forall c: nat :: offset <= c < k.unique ==> !Candidate(p, k, buffer[..], c)
  {
    CompiledMeans(m, p, buffer[..], offset);
    var last := k.size - m.size;
    var end := Min(last + 1, offset + CANDIDATE_WINDOW);
    var found := FindNext(m, buffer, offset, end);
    if found.None? {
      NoneIsNoCandidate(m, p, k, buffer[..], offset, end);
      return Advance(end);
    }
    NoneIsNoCandidate(m, p, k, buffer[..], offset, found.value);
    if found.value >= k.unique {
      return Leave;
    }
    CompiledMeans(m, p, buffer[..], found.value);
    step := Hit(found.value);
  }

  /** The candidate loop over one chunk. */
  method SearchChunk(space: Space, p: Pattern, m: Matcher, k: Chunk, buffer: array<Byte>, before: seq<nat>, limit: nat)
    returns (matches: seq<nat>, tooMany: bool, ghost reached: nat)
    requires Compiled(m, p) && k.size <= buffer.Length && 0 < k.unique <= k.size && |before| <= limit
    ensures Faithful(space, p, k, buffer[..]) ==> Found(space, p, k, reached, before, matches)
    ensures reached <= k.unique && if tooMany then |matches| == limit + 1 else |matches| <= limit && reached == k.unique
  {
    ghost var faithful := Faithful(space, p, k, buffer[..]);
    matches, tooMany, reached := before, false, k.unique;
    assert before + [] == before;
    if k.size < m.size {
      if faithful {
        Skip(space, p, k, buffer[..], 0, k.unique, before, matches);
      }
      return;
    }
    var last, offset := k.size - m.size, 0;
    while offset <= last
      invariant offset <= last + 1 && |matches| <= limit
      invariant faithful ==> Found(space, p, k, offset, before, matches)
    {
      var step := SearchWindow(p, m, k, buffer, offset);
      match step {
        case Advance(next) =>
          if faithful {
            Skip(space, p, k, buffer[..], offset, next, before, matches);
          }
          offset := next;
        case Leave =>
          if faithful {
            Skip(space, p, k, buffer[..], offset, Max(offset, k.unique), before, matches);
          }
          return;
        case Hit(at) =>
          if faithful {
            Skip(space, p, k, buffer[..], offset, at, before, matches);
            Take(space, p, k, buffer[..], at, before, matches);
          }
          matches := matches + [k.cursor + at];
          if |matches| > limit {
            return matches, true, at + 1;
          }
          offset := at + 1;
      }
    }
    if faithful {
      Skip(space, p, k, buffer[..], offset, Max(offset, k.unique), before, matches);
    }
  }

  // ----- one page

  datatype ScanRequest = ScanRequest(pattern: Pattern, maxMatches: nat, cursor: Option<nat>, frtkInternal: bool)

  datatype ScanCode = Scanned | InvalidRequest | AccessDenied | TooManyMatches

  datatype ScanPage = ScanPage(code: ScanCode, matches: seq<nat>, next: Option<nat>, complete: bool)

  predicate LegalScan(space: Space, request: ScanRequest) {
    && Compilable(request.pattern)
    && (if request.frtkInternal then MIN_FRTK_PATTERN_BYTES else MIN_PATTERN_BYTES) <= |request.pattern.bytes|
    && |request.pattern.bytes| <= MAX_PATTERN_BYTES
    && 1 <= request.maxMatches <= MAX_MATCHES
    && (request.cursor.Some? ==> space.minimum <= request.cursor.value <= space.maximum)
  }

  function StartOf(space: Space, request: ScanRequest): nat {
    if request.cursor.Some? then request.cursor.value else space.minimum
  }

  function Refusal(code: ScanCode): ScanPage {
    ScanPage(code, [], None, false)
  }

  /** What a page that did not fail says about the memory it covered, from `start` to `stop`. */
  ghost predicate PageMeans(space: Space, p: Pattern, start: nat, stop: nat, limit: nat, page: ScanPage)
    requires Compilable(p)
  {
    match page.code
    case Scanned =>
      && page.matches == Matches(space, p, start, stop) && |page.matches| <= limit && start < stop
      && (if page.complete then page.next == None && space.maximum < stop
          else page.next == Some(stop) && stop <= space.maximum)
    case TooManyMatches =>
      page.matches == Matches(space, p, start, stop) && |page.matches| == limit + 1
    case _ => true
  }

  /** How far a page of a healthy space went: an unfinished one read exactly its budget of eligible bytes, a
      complete one less than that below the maximum. */
  ghost predicate PageCovers(space: Space, start: nat, stop: nat, page: ScanPage) {
    && stop <= ScanEnd(space)
    && (page.code.Scanned? ==>
          if page.complete then EligibleBytes(space, start, space.maximum) < MAX_SCAN_PAGE_BYTES
          else EligibleBytes(space, start, stop) == MAX_SCAN_PAGE_BYTES)
  }

  method ReadChunk(space: Space, cursor: nat, size: nat, buffer: array<Byte>) returns (ok: bool)
    requires size <= buffer.Length
    modifies buffer
    ensures ok <==> space.readable(cursor, size)
    ensures ok ==> forall i :: 0 <= i < size ==> buffer[i] == space.contents(cursor + i)
    ensures forall i :: size <= i < buffer.Length ==> buffer[i] == old(buffer[i])
  {
    ok := space.readable(cursor, size);
    if ok {
      for i := 0 to size
        invariant forall j :: 0 <= j < i ==> buffer[j] == space.contents(cursor + j)
        invariant forall j :: i <= j < buffer.Length ==> buffer[j] == old(buffer[j])
      {
        buffer[i] := space.contents(cursor + i);
      }
    }
  }

  datatype Progress = More(cursor: nat, scanned: nat, matches: seq<nat>) | Done(page: ScanPage)

  /** The state of the page loop, as far as regions tile the space. */
  ghost predicate Covered(space: Space, p: Pattern, start: nat, cursor: nat, matches: seq<nat>)
    requires Compilable(p)
  {
    Tiled(space) ==> start <= cursor && matches == Matches(space, p, start, cursor)
  }

  /** The page has spent its budget on the eligible bytes it covered, and on nothing else. */
  ghost predicate Spent(space: Space, start: nat, cursor: nat, scanned: nat) {
    Tiled(space) ==> start <= cursor && scanned == EligibleBytes(space, start, cursor)
  }

  lemma {:induction false} RegionSpent(space: Space, start: nat, cursor: nat, next: nat, scanned: nat)
    requires Spent(space, start, cursor, scanned) && space.query(cursor).Some?
    requires cursor <= next <= End(space.query(cursor).value)
    ensures Spent(space, start, next, scanned + if EligibleAt(space, cursor) then next - cursor else 0)
  {
    if Tiled(space) {
      EligibleSplit(space, start, cursor, next);
      EligibleInRegion(space, cursor, next);
    }
  }

  /** The page loop can go on from here. */
  ghost predicate OnTrack(
    space: Space, p: Pattern, start: nat, limit: nat, cursor: nat, scanned: nat, matches: seq<nat>)
    requires Compilable(p)
  {
    && cursor <= space.maximum && scanned <= MAX_SCAN_PAGE_BYTES && |matches| <= limit
    && Covered(space, p, start, cursor, matches) && Spent(space, start, cursor, scanned)
  }

  /** The page may end here. */
  ghost predicate EndsRight(space: Space, p: Pattern, start: nat, limit: nat, stop: nat, page: ScanPage)
    requires Compilable(p)
  {
    && (Tiled(space) ==> PageMeans(space, p, start, stop, limit, page))
    && (Healthy(space) ==> (page.code.Scanned? || page.code.TooManyMatches?) && PageCovers(space, start, stop, page))
  }

  ghost predicate GoesRight(space: Space, p: Pattern, start: nat, limit: nat, progress: Progress, stop: nat)
    requires Compilable(p)
  {
    if progress.More? then OnTrack(space, p, start, limit, progress.cursor, progress.scanned, progress.matches)
    else EndsRight(space, p, start, limit, stop, progress.page)
  }

  lemma {:induction false} IneligibleHasNone(
    space: Space, p: Pattern, region: Region, start: nat, cursor: nat, matches: seq<nat>)
    requires Compilable(p) && space.query(cursor) == Some(region) && !region.eligible
    requires cursor < End(region) && Covered(space, p, start, cursor, matches)
    ensures Covered(space, p, start, End(region), matches)
  {
    if Tiled(space) {
      var end := End(region);
      forall a: nat | cursor <= a < end
        ensures !MatchAt(space, p, a)
      {
        assert SameRegion(space.query(cursor), space.query(a));
      }
      NoMatches(space, p, cursor, end);
      MatchesSplit(space, p, start, cursor, end);
    }
  }

  lemma {:induction false} ChunkCovered(
    space: Space, p: Pattern, k: Chunk, reached: nat, start: nat, before: seq<nat>, matches: seq<nat>)
    requires Compilable(p) && reached <= k.unique && Covered(space, p, start, k.cursor, before)
    requires Tiled(space) ==> Found(space, p, k, reached, before, matches)
    ensures Covered(space, p, start, k.cursor + reached, matches)
  {
    if Tiled(space) {
      MatchesSplit(space, p, start, k.cursor, k.cursor + reached);
    }
  }

  /** The next chunk of a region: at most 4 MiB, within the page budget, with its lookahead. */
  function NextChunk(region: Region, p: Pattern, cursor: nat, scanned: nat): (k: Chunk)
    requires Compilable(p) && cursor < End(region) && scanned < MAX_SCAN_PAGE_BYTES
    ensures k.cursor == cursor && cursor + k.unique <= cursor + k.size <= End(region)
    ensures 0 < k.unique <= k.size < SCAN_CHUNK_BYTES + |p.bytes|
    ensures scanned + k.unique <= MAX_SCAN_PAGE_BYTES
    ensures region.base <= cursor ==> ChunkOf(region, p, k)
  {
    var end := End(region);
    var unique := Min(end - cursor, Min(SCAN_CHUNK_BYTES, MAX_SCAN_PAGE_BYTES - scanned));
    Chunk(cursor, unique, unique + Min(|p.bytes| - 1, end - (cursor + unique)))
  }

  /** `ClassifyScanPageBoundary`: past the maximum the scan is complete, at the page budget it pauses. */
  function AtBoundary(space: Space, next: nat, scanned: nat, matches: seq<nat>): (progress: Progress) {
    if next > space.maximum then Done(ScanPage(Scanned, matches, None, true))
    else if scanned == MAX_SCAN_PAGE_BYTES then Done(ScanPage(Scanned, matches, Some(next), false))
    else More(next, scanned, matches)
  }

  function AfterChunk(space: Space, k: Chunk, scanned: nat, read: bool, over: bool, matches: seq<nat>): Progress {
    if !read then Done(Refusal(AccessDenied))
    else if over then Done(ScanPage(TooManyMatches, matches, None, false))
    else AtBoundary(space, k.cursor + k.unique, scanned + k.unique, matches)
  }

  lemma {:induction false} ChunkBeforeScanEnd(space: Space, k: Chunk, reached: nat)
    requires k.cursor <= space.maximum && reached <= k.unique && space.query(k.cursor).Some?
    requires k.cursor + k.unique <= End(space.query(k.cursor).value)
    ensures Healthy(space) ==> k.cursor + reached <= ScanEnd(space)
  {
    if Healthy(space) {
      RegionBeforeScanEnd(space, k.cursor);
    }
  }

  lemma {:induction false} BoundarySpent(space: Space, start: nat, k: Chunk, scanned: nat, matches: seq<nat>)
    requires Spent(space, start, k.cursor, scanned) && EligibleAt(space, k.cursor) && 0 < k.unique
    requires k.cursor + k.unique <= End(space.query(k.cursor).value) && k.cursor <= space.maximum
    requires scanned + k.unique <= MAX_SCAN_PAGE_BYTES
    ensures var progress := AtBoundary(space, k.cursor + k.unique, scanned + k.unique, matches);
      if progress.More? then Spent(space, start, progress.cursor, progress.scanned)
      else Healthy(space) ==> PageCovers(space, start, k.cursor + k.unique, progress.page)
  {
    RegionSpent(space, start, k.cursor, k.cursor + k.unique, scanned);
    ChunkBeforeScanEnd(space, k, k.unique);
    if k.cursor + k.unique > space.maximum {
      RegionSpent(space, start, k.cursor, space.maximum, scanned);
    }
  }

  lemma {:induction false} ChunkOutcome(
    space: Space, p: Pattern, start: nat, limit: nat, k: Chunk, scanned: nat, read: bool, over: bool, reached: nat,
    matches: seq<nat>)
    requires Compilable(p) && Spent(space, start, k.cursor, scanned) && EligibleAt(space, k.cursor) && 0 < k.unique
    requires k.unique <= k.size && k.cursor + k.size <= End(space.query(k.cursor).value) && k.cursor <= space.maximum
    requires scanned + k.unique <= MAX_SCAN_PAGE_BYTES && (read <==> space.readable(k.cursor, k.size))
    requires read ==> reached <= k.unique && Covered(space, p, start, k.cursor + reached, matches)
    requires read ==> if over then |matches| == limit + 1 else |matches| <= limit && reached == k.unique
    ensures GoesRight(space, p, start, limit, AfterChunk(space, k, scanned, read, over, matches), k.cursor + reached)
  {
    if read && !over {
      BoundarySpent(space, start, k, scanned, matches);
    } else if read {
      ChunkBeforeScanEnd(space, k, reached);
    }
  }

  /** Read one chunk into the reused buffer and search it. */
  method ScanChunk(
    space: Space, p: Pattern, m: Matcher, buffer: array<Byte>, ghost start: nat, region: Region, k: Chunk,
    matches: seq<nat>, limit: nat)
    returns (read: bool, all: seq<nat>, over: bool, ghost reached: nat)
    requires Compiled(m, p) && k.size <= buffer.Length && 0 < k.unique <= k.size && |matches| <= limit
    requires space.query(k.cursor) == Some(region) && region.eligible
    requires Tiled(space) ==> ChunkOf(region, p, k)
    requires Covered(space, p, start, k.cursor, matches)
    modifies buffer
    ensures read <==> space.readable(k.cursor, k.size)
    ensures read ==> reached <= k.unique && Covered(space, p, start, k.cursor + reached, all)
    ensures read ==> if over then |all| == limit + 1 else |all| <= limit && reached == k.unique
  {
    all, over, reached := [], false, 0;
    read := ReadChunk(space, k.cursor, k.size, buffer);
    if read {
      if Tiled(space) {
        ChunkIsFaithful(space, p, region, k, buffer[..]);
      }
      all, over, reached := SearchChunk(space, p, m, k, buffer, matches, limit);
      ChunkCovered(space, p, k, reached, start, matches, all);
    }
  }

  method VisitChunk(
    space: Space, p: Pattern, m: Matcher, buffer: array<Byte>, ghost start: nat, region: Region, cursor: nat,
    scanned: nat, matches: seq<nat>, limit: nat)
    returns (progress: Progress, ghost stop: nat)
    requires Compiled(m, p) && buffer.Length == SCAN_CHUNK_BYTES + |p.bytes| - 1
    requires space.query(cursor) == Some(region) && region.eligible && cursor < End(region)
    requires OnTrack(space, p, start, limit, cursor, scanned, matches) && scanned < MAX_SCAN_PAGE_BYTES
    modifies buffer
    ensures progress.More? ==> cursor < progress.cursor && progress.scanned < MAX_SCAN_PAGE_BYTES
    ensures GoesRight(space, p, start, limit, progress, stop)
  {
    var k := NextChunk(region, p, cursor, scanned);
    if Tiled(space) {
      assert Contains(region, cursor);
    }
    var read, scannedMatches, over, reached := ScanChunk(space, p, m, buffer, start, region, k, matches, limit);
    ChunkOutcome(space, p, start, limit, k, scanned, read, over, reached, scannedMatches);
    progress, stop := AfterChunk(space, k, scanned, read, over, scannedMatches), cursor + reached;
  }

  /** One round of the page loop: skip an ineligible region, or scan one chunk of an eligible one. */
  method VisitRegion(
    space: Space, p: Pattern, m: Matcher, buffer: array<Byte>, ghost start: nat, cursor: nat, scanned: nat,
    matches: seq<nat>, limit: nat)
    returns (progress: Progress, ghost stop: nat)
    requires Compiled(m, p) && buffer.Length == SCAN_CHUNK_BYTES + |p.bytes| - 1
    requires OnTrack(space, p, start, limit, cursor, scanned, matches)
    modifies buffer
    ensures progress.More? ==> cursor < progress.cursor
    ensures progress.More? ==> OnTrack(space, p, start, limit, progress.cursor, progress.scanned, progress.matches)
    ensures progress.More? && scanned < MAX_SCAN_PAGE_BYTES ==> progress.scanned < MAX_SCAN_PAGE_BYTES
    ensures progress.Done? && scanned < MAX_SCAN_PAGE_BYTES ==> EndsRight(space, p, start, limit, stop, progress.page)
  {
    stop := cursor;
    var found := space.query(cursor);
    if found.None? {
      return Done(Refusal(AccessDenied)), stop;
    }
    var region := found.value;
    var end := End(region);
    if end > ADDRESS_MAX || end <= cursor {
      return Done(Refusal(InvalidRequest)), stop;
    }
    if !region.eligible {
      IneligibleHasNone(space, p, region, start, cursor, matches);
      RegionSpent(space, start, cursor, end, scanned);
      if end > space.maximum {
        RegionSpent(space, start, cursor, space.maximum, scanned);
        if Healthy(space) {
          RegionBeforeScanEnd(space, cursor);
        }
        return Done(ScanPage(Scanned, matches, None, true)), end;
      }
      return More(end, scanned, matches), end;
    }
    var budget := MAX_SCAN_PAGE_BYTES - scanned;
    if budget == 0 {
      return Done(ScanPage(Scanned, matches, Some(cursor), false)), cursor;
    }
    progress, stop := VisitChunk(space, p, m, buffer, start, region, cursor, scanned, matches, limit);
  }

  /** One page: the matches from the cursor up to where the page stops, at most `maxMatches` of them. */
  method ScanPrivateMemory(space: Space, request: ScanRequest) returns (page: ScanPage, ghost stop: nat)
    requires space.minimum <= space.maximum
    ensures !LegalScan(space, request) ==> page == Refusal(InvalidRequest)
    ensures LegalScan(space, request) && Tiled(space) ==>
      PageMeans(space, request.pattern, StartOf(space, request), stop, request.maxMatches, page)
    ensures LegalScan(space, request) && Healthy(space) ==>
      (page.code.Scanned? || page.code.TooManyMatches?) && PageCovers(space, StartOf(space, request), stop, page)
  {
    stop := 0;
    var matcher := CompileMaskedPattern(request.pattern);
    if matcher.None? || !LegalScan(space, request) {
      return Refusal(InvalidRequest), stop;
    }
    var p, limit, start := request.pattern, request.maxMatches, StartOf(space, request);
    var buffer := new Byte[SCAN_CHUNK_BYTES + |p.bytes| - 1];
    var cursor, scanned, matches := start, 0, [];
    while true
      invariant scanned < MAX_SCAN_PAGE_BYTES && OnTrack(space, p, start, limit, cursor, scanned, matches)
      decreases space.maximum - cursor
    {
      var progress;
      progress, stop := VisitRegion(space, p, matcher.value, buffer, start, cursor, scanned, matches, limit);
      match progress {
        case Done(done) =>
          return done, stop;
        case More(next, total, all) =>
          cursor, scanned, matches := next, total, all;
      }
    }
  }

  // ----- all pages

  datatype ScanAllCode = Complete | PageFailed(code: ScanCode) | TooMany | Incomplete

  datatype ScanAllResult = ScanAllResult(code: ScanAllCode, matches: seq<nat>)

  /** The pages reach the maximum before their number runs out. */
  predicate Coverable(space: Space) {
    EligibleBytes(space, space.minimum, space.maximum) < MAX_PAGES * MAX_SCAN_PAGE_BYTES
  }

  /** The whole scan, as far as any page may reach, finds no more than the limit. */
  predicate FewMatches(space: Space, p: Pattern, limit: nat)
    requires Compilable(p)
  {
    |Matches(space, p, space.minimum, ScanEnd(space))| <= limit
  }

  lemma {:induction false} FoundTooMany(space: Space, p: Pattern, limit: nat, stop: nat)
    requires Compilable(p) && space.minimum <= stop <= ScanEnd(space)
    requires |Matches(space, p, space.minimum, stop)| > limit
    ensures !FewMatches(space, p, limit)
  {
    MatchesSplit(space, p, space.minimum, stop, ScanEnd(space));
  }

  /** Where the pages so far stopped, `pages` full budgets below the maximum. */
  ghost predicate PagesSpent(space: Space, pages: nat, stop: nat) {
    && space.minimum <= stop <= space.maximum
    && EligibleBytes(space, space.minimum, stop) == pages * MAX_SCAN_PAGE_BYTES
  }

  /** One more page either spends one more budget, or shows that the pages suffice. */
  lemma {:induction false} PageAdded(space: Space, pages: nat, start: nat, stop: nat, page: ScanPage)
    requires PagesSpent(space, pages, start) && PageCovers(space, start, stop, page) && page.code.Scanned?
    requires start <= stop && (!page.complete ==> stop <= space.maximum) && pages < MAX_PAGES
    ensures if page.complete then Coverable(space) else PagesSpent(space, pages + 1, stop)
  {
    EligibleSplit(space, space.minimum, start, if page.complete then space.maximum else stop);
  }

  lemma {:induction false} PagesRanOut(space: Space, stop: nat)
    requires PagesSpent(space, MAX_PAGES, stop)
    ensures !Coverable(space)
  {
    EligibleSplit(space, space.minimum, stop, space.maximum);
  }

  /** What the page loop's result says. When it completes, its matches are exactly the naive scan's from the minimum
      to past the maximum, in ascending order and once each; on a healthy space with no more matches than the
      limit it completes exactly when 4096 pages of 32 MiB cover the eligible bytes. */
  ghost predicate ScanAllMeans(space: Space, p: Pattern, maxMatches: nat, result: ScanAllResult, stop: nat) {
    var legal := LegalScan(space, ScanRequest(p, maxMatches, None, true));
    && (result.code.Complete? || result.code.TooMany? ==> legal)
    && (result.code.Complete? && Tiled(space) ==>
      && space.maximum < stop
      && result.matches == Matches(space, p, space.minimum, stop) && |result.matches| <= maxMatches)
    && (result.code.TooMany? && Tiled(space) ==>
      && |result.matches| == maxMatches + 1
      && result.matches <= Matches(space, p, space.minimum, stop))
    && (result.code.PageFailed? && Healthy(space) ==> !legal || result.code.code.TooManyMatches?)
    && (Healthy(space) && legal ==>
      && stop <= ScanEnd(space)
      && (result.code.Complete? ==> Coverable(space))
      && (FewMatches(space, p, maxMatches) && Coverable(space) ==> result.code.Complete?))
  }

  /** The pages so far. */
  ghost predicate PagesMean(
    space: Space, p: Pattern, maxMatches: nat, pages: nat, cursor: Option<nat>, matches: seq<nat>, stop: nat)
  {
    && |matches| <= maxMatches && (cursor.None? <==> pages == 0)
    && (cursor.None? ==> matches == [] && stop == space.minimum)
    && (Tiled(space) && cursor.Some? ==>
      && LegalScan(space, ScanRequest(p, maxMatches, cursor, true)) && stop == cursor.value
      && matches == Matches(space, p, space.minimum, stop))
    && (Healthy(space) && LegalScan(space, ScanRequest(p, maxMatches, None, true)) ==> PagesSpent(space, pages, stop))
  }

  /** What `ScanPrivateMemory` ensures. */
  ghost predicate PageIsRight(space: Space, request: ScanRequest, page: ScanPage, stop: nat) {
    && (!LegalScan(space, request) ==> page == Refusal(InvalidRequest))
    && (LegalScan(space, request) && Tiled(space) ==>
      PageMeans(space, request.pattern, StartOf(space, request), stop, request.maxMatches, page))
    && (LegalScan(space, request) && Healthy(space) ==>
      (page.code.Scanned? || page.code.TooManyMatches?) && PageCovers(space, StartOf(space, request), stop, page))
  }

  function Prefix(s: seq<nat>, n: nat): seq<nat> {
    if n <= |s| then s[..n] else s
  }

  /** How the loop ends on a page, if it does. */
  function PageEnds(maxMatches: nat, cursor: Option<nat>, matches: seq<nat>, page: ScanPage): Option<ScanAllResult> {
    if !page.code.Scanned? then Some(ScanAllResult(PageFailed(page.code), matches))
    else if |matches + page.matches| > maxMatches then
      Some(ScanAllResult(TooMany, Prefix(matches + page.matches, maxMatches + 1)))
    else if page.complete then Some(ScanAllResult(Complete, matches + page.matches))
    else if page.next.None? || page.next == cursor then Some(ScanAllResult(Incomplete, matches + page.matches))
    else None
  }

  lemma {:induction false} PageMatches(
    space: Space, p: Pattern, maxMatches: nat, pages: nat, cursor: Option<nat>, matches: seq<nat>, stop: nat,
    page: ScanPage, until: nat)
    requires PagesMean(space, p, maxMatches, pages, cursor, matches, stop) && Tiled(space)
    requires LegalScan(space, ScanRequest(p, maxMatches, cursor, true)) && stop <= until
    requires page.matches == Matches(space, p, stop, until)
    ensures matches + page.matches == Matches(space, p, space.minimum, until)
  {
    MatchesSplit(space, p, space.minimum, stop, until);
  }

  /** The step of the page loop, on a page that was scanned. */
  lemma {:induction false} ScannedStep(
    space: Space, p: Pattern, maxMatches: nat, pages: nat, cursor: Option<nat>, matches: seq<nat>, stop: nat,
    page: ScanPage, until: nat)
    requires PagesMean(space, p, maxMatches, pages, cursor, matches, stop) && page.code.Scanned?
    requires space.minimum <= space.maximum && pages < MAX_PAGES
    requires PageIsRight(space, ScanRequest(p, maxMatches, cursor, true), page, until)
    ensures var end := PageEnds(maxMatches, cursor, matches, page);
      if end.Some? then ScanAllMeans(space, p, maxMatches, end.value, until)
      else PagesMean(space, p, maxMatches, pages + 1, page.next, matches + page.matches, until)
  {
    if Tiled(space) {
      PageMatches(space, p, maxMatches, pages, cursor, matches, stop, page, until);
      if Healthy(space) {
        PageAdded(space, pages, stop, until, page);
        if |matches + page.matches| > maxMatches {
          FoundTooMany(space, p, maxMatches, until);
        }
      }
    }
  }

  /** The end of the page loop, on a page that failed. */
  lemma {:induction false} FailedStep(
    space: Space, p: Pattern, maxMatches: nat, pages: nat, cursor: Option<nat>, matches: seq<nat>, stop: nat,
    page: ScanPage, until: nat)
    requires PagesMean(space, p, maxMatches, pages, cursor, matches, stop) && !page.code.Scanned?
    requires space.minimum <= space.maximum
    requires PageIsRight(space, ScanRequest(p, maxMatches, cursor, true), page, until)
    ensures ScanAllMeans(space, p, maxMatches, ScanAllResult(PageFailed(page.code), matches), until)
  {
    if Healthy(space) && LegalScan(space, ScanRequest(p, maxMatches, None, true)) {
      MatchesSplit(space, p, space.minimum, stop, until);
      FoundTooMany(space, p, maxMatches, until);
    }
  }

  lemma {:induction false} PagesExhausted(
    space: Space, p: Pattern, maxMatches: nat, cursor: Option<nat>, matches: seq<nat>, stop: nat)
    requires PagesMean(space, p, maxMatches, MAX_PAGES, cursor, matches, stop) && space.minimum <= space.maximum
    ensures ScanAllMeans(space, p, maxMatches, ScanAllResult(Incomplete, matches), stop)
  {
    if Healthy(space) && LegalScan(space, ScanRequest(p, maxMatches, None, true)) {
      PagesRanOut(space, stop);
    }
  }

  /** The matches of one page, added one by one up to one too many. */
  method AddMatches(before: seq<nat>, found: seq<nat>, limit: nat) returns (matches: seq<nat>)
    requires |before| <= limit
    ensures matches == Prefix(before + found, limit + 1)
  {
    matches := before;
    for i := 0 to |found|
      invariant matches == before + found[..i] && |matches| <= limit
    {
      SeqFacts.TakePush(before, found, i);
      matches := matches + [found[i]];
      if |matches| > limit {
        assert matches == (before + found)[..limit + 1];
        return;
      }
    }
    SeqFacts.TakeAll(found);
  }

  /** The page loop. */
  method ScanAll(space: Space, p: Pattern, maxMatches: nat) returns (result: ScanAllResult, ghost stop: nat)
    requires space.minimum <= space.maximum
    ensures ScanAllMeans(space, p, maxMatches, result, stop)
  {
    var cursor: Option<nat> := None;
    var matches: seq<nat> := [];
    stop := space.minimum;
    for page := 0 to MAX_PAGES
      invariant PagesMean(space, p, maxMatches, page, cursor, matches, stop)
    {
      var scan, until := ScanPrivateMemory(space, ScanRequest(p, maxMatches, cursor, true));
      ghost var start := stop;
      stop := until;
      if !scan.code.Scanned? {
        FailedStep(space, p, maxMatches, page, cursor, matches, start, scan, until);
        return ScanAllResult(PageFailed(scan.code), matches), stop;
      }
      ScannedStep(space, p, maxMatches, page, cursor, matches, start, scan, until);
      matches := AddMatches(matches, scan.matches, maxMatches);
      if |matches| > maxMatches {
        return ScanAllResult(TooMany, matches), stop;
      }
      if scan.complete {
        return ScanAllResult(Complete, matches), stop;
      }
      if scan.next.None? || scan.next == cursor {
        return ScanAllResult(Incomplete, matches), stop;
      }
      cursor := scan.next;
    }
    PagesExhausted(space, p, maxMatches, cursor, matches, stop);
    result := ScanAllResult(Incomplete, matches);
  }
}
