/** The carry-over search of the board code: a region read chunk by chunk, the tail of one chunk carried
    into the next. */
module BoardSearch {
  import opened Bytes
  import SeqFacts

  const CHUNK_SIZE: nat := 262144

  /** A region that does not change while it is searched; a chunk is read whole or not at all. */
  datatype Region = Region(begin: nat, end: nat, contents: nat -> Byte, read: (nat, nat) -> bool)

  function Requested(r: Region, cursor: nat): (n: nat)
    requires cursor < r.end
    ensures 0 < n <= 262144 && cursor + n <= r.end && (n < 262144 ==> cursor + n == r.end)
  {
    if r.end - cursor < CHUNK_SIZE then r.end - cursor else CHUNK_SIZE
  }

  /** Byte `x` lies in a chunk that was read, chunks starting at `cursor`. */
  predicate CoveredFrom(r: Region, cursor: nat, x: nat)
    decreases r.end - cursor
  {
    && cursor < r.end && cursor <= x
    && if x < cursor + Requested(r, cursor) then r.read(cursor, Requested(r, cursor))
       else CoveredFrom(r, cursor + Requested(r, cursor), x)
  }

  /** The bytes in chunks that were read; the definitions below take them as `cov`. */
  ghost function CoveredBytes(r: Region): iset<int> {
    iset x: int | 0 <= x && CoveredFrom(r, r.begin, x)
  }

  /** All bytes of `[lo, hi)` were read. */
  ghost predicate AllCovered(cov: iset<int>, lo: nat, hi: nat) {
    forall x :: lo <= x < hi ==> x in cov
  }

  predicate OccursAt(r: Region, needle: seq<Byte>, a: nat) {
    forall i :: 0 <= i < |needle| ==> r.contents(a + i) == needle[i]
  }

  /** An occurrence the search can see: all of its bytes lie in chunks that were read. */
  ghost predicate Occurrence(r: Region, cov: iset<int>, needle: seq<Byte>, a: nat) {
    r.begin <= a && OccursAt(r, needle, a) && AllCovered(cov, a, a + |needle|)
  }

  /** The occurrences from `lo` on that end in `(from, hi]`, ascending. */
  ghost function Occurrences(r: Region, cov: iset<int>, needle: seq<Byte>, lo: nat, from: nat, hi: nat): seq<nat>
    decreases hi
  {
    if hi <= from || hi < lo + |needle| then []
    else
      Occurrences(r, cov, needle, lo, from, hi - 1)
      + (if Occurrence(r, cov, needle, hi - |needle|) then [hi - |needle|] else [])
  }

  ghost function AllOccurrences(r: Region, cov: iset<int>, needle: seq<Byte>): seq<nat> {
    Occurrences(r, cov, needle, r.begin, 0, r.end)
  }

  /** Member by member. */
  lemma {:induction false} OccurrenceIs(
    r: Region, cov: iset<int>, needle: seq<Byte>, lo: nat, from: nat, hi: nat, i: nat)
    requires i < |Occurrences(r, cov, needle, lo, from, hi)|
    ensures var a := Occurrences(r, cov, needle, lo, from, hi)[i];
      lo <= a && from < a + |needle| <= hi && Occurrence(r, cov, needle, a)
    decreases hi
  {
    if i < |Occurrences(r, cov, needle, lo, from, hi - 1)| {
      OccurrenceIs(r, cov, needle, lo, from, hi - 1, i);
    }
  }

  lemma {:induction false} OccurrencesExactly(
    r: Region, cov: iset<int>, needle: seq<Byte>, lo: nat, from: nat, hi: nat, a: nat)
    requires needle != []
    ensures a in Occurrences(r, cov, needle, lo, from, hi) <==>
      lo <= a && from < a + |needle| <= hi && Occurrence(r, cov, needle, a)
    ensures forall i, j :: 0 <= i < j < |Occurrences(r, cov, needle, lo, from, hi)| ==>
      Occurrences(r, cov, needle, lo, from, hi)[i] < Occurrences(r, cov, needle, lo, from, hi)[j]
    decreases hi
  {
    if hi > from && hi >= lo + |needle| {
      OccurrencesExactly(r, cov, needle, lo, from, hi - 1, a);
      var front := Occurrences(r, cov, needle, lo, from, hi - 1);
      forall i | 0 <= i < |front|
        ensures front[i] < hi - |needle|
      {
        OccurrenceIs(r, cov, needle, lo, from, hi - 1, i);
      }
    }
  }

  lemma {:induction false} OccurrencesSplit(
    r: Region, cov: iset<int>, needle: seq<Byte>, lo: nat, from: nat, mid: nat, hi: nat)
    requires from <= mid <= hi
    ensures Occurrences(r, cov, needle, lo, from, hi) ==
      Occurrences(r, cov, needle, lo, from, mid) + Occurrences(r, cov, needle, lo, mid, hi)
    decreases hi
  {
    if mid < hi {
      OccurrencesSplit(r, cov, needle, lo, from, mid, hi - 1);
      if hi >= lo + |needle| {
        SeqFacts.Associate(Occurrences(r, cov, needle, lo, from, mid), Occurrences(r, cov, needle, lo, mid, hi - 1),
                           if Occurrence(r, cov, needle, hi - |needle|) then [hi - |needle|] else []);
      }
    }
  }

  /** Starting later loses only occurrences that start earlier. */
  lemma {:induction false} SuffixFrom(
    r: Region, cov: iset<int>, needle: seq<Byte>, lo: nat, later: nat, from: nat, hi: nat)
    returns (k: nat)
    requires lo <= later && needle != []
    ensures k <= |Occurrences(r, cov, needle, lo, from, hi)|
    ensures Occurrences(r, cov, needle, later, from, hi) == Occurrences(r, cov, needle, lo, from, hi)[k..]
    ensures forall i :: 0 <= i < k ==> Occurrences(r, cov, needle, lo, from, hi)[i] < later
    decreases hi
  {
    var all := Occurrences(r, cov, needle, lo, from, hi);
    if hi <= from || hi < lo + |needle| {
      k := 0;
    } else if hi < later + |needle| {
      k := |all|;
      forall i | 0 <= i < k
        ensures all[i] < later
      {
        OccurrenceIs(r, cov, needle, lo, from, hi, i);
      }
    } else {
      k := SuffixFrom(r, cov, needle, lo, later, from, hi - 1);
      var front := Occurrences(r, cov, needle, lo, from, hi - 1);
      var last := if Occurrence(r, cov, needle, hi - |needle|) then [hi - |needle|] else [];
      assert (front + last)[k..] == front[k..] + last;
    }
  }

  // ----- which occurrences one window reports

  /** One address is remembered: an occurrence is reported unless it is the one remembered, and then remembered. */
  function Reported(found: seq<nat>, last: nat): seq<nat> {
    if found != [] && found[0] == last then found[1..] else found
  }

  function Remembered(found: seq<nat>, last: nat): nat {
    if found == [] then last else found[|found| - 1]
  }

  lemma {:induction false} ReportNext(found: seq<nat>, last: nat, x: nat)
    requires found != [] ==> found[|found| - 1] < x
    ensures Reported(found + [x], last) == Reported(found, last) + (if x != Remembered(found, last) then [x] else [])
    ensures Remembered(found + [x], last) == x
  {
  }

  // ----- searching one window

  predicate Prefix(r: Region, origin: nat, snapshot: seq<Byte>, n: nat) {
    n <= |snapshot| && forall i :: 0 <= i < n ==> snapshot[i] == r.contents(origin + i)
  }

  /** The first `available` bytes of the snapshot are the region's from `origin` on, all of them read. */
  ghost predicate Holds(r: Region, cov: iset<int>, origin: nat, snapshot: seq<Byte>, available: nat) {
    r.begin <= origin && AllCovered(cov, origin, origin + available) && Prefix(r, origin, snapshot, available)
  }

  predicate NeedleAt(snapshot: seq<Byte>, needle: seq<Byte>, at: nat)
    requires at + |needle| <= |snapshot|
  {
    forall i :: 0 <= i < |needle| ==> snapshot[at + i] == needle[i]
  }

  predicate NoNeedle(snapshot: seq<Byte>, needle: seq<Byte>, start: nat, end: nat)
    requires end + |needle| <= |snapshot| + 1
  {
    forall at: nat :: start <= at < end ==> !NeedleAt(snapshot, needle, at)
  }

  /** `std::search`: the first position from `start` on at which the needle lies before `finish`. */
  method FindSequence(snapshot: array<Byte>, start: nat, finish: nat, needle: seq<Byte>) returns (found: Option<nat>)
    requires start + |needle| <= finish <= snapshot.Length
    ensures found.Some? ==> start <= found.value && found.value + |needle| <= finish
    ensures found.Some? ==>
      NeedleAt(snapshot[..], needle, found.value) && NoNeedle(snapshot[..], needle, start, found.value)
    ensures found.None? ==> NoNeedle(snapshot[..], needle, start, finish + 1 - |needle|)
  {
    var at := start;
    while at + |needle| <= finish
      invariant start <= at <= finish + 1 - |needle| && NoNeedle(snapshot[..], needle, start, at)
    {
      var i := 0;
      while i < |needle| && snapshot[at + i] == needle[i]
        invariant i <= |needle|
        invariant forall j :: 0 <= j < i ==> snapshot[at + j] == needle[j]
      {
        i := i + 1;
      }
      if i == |needle| {
        return Some(at);
      }
      assert snapshot[..][at + i] != needle[i];
      at := at + 1;
    }
    found := None;
  }

  lemma {:induction false} NeedleIsOccurrence(
    r: Region, cov: iset<int>, origin: nat, snapshot: seq<Byte>, available: nat, needle: seq<Byte>, at: nat)
    requires Holds(r, cov, origin, snapshot, available) && at + |needle| <= available
    ensures NeedleAt(snapshot, needle, at) <==> Occurrence(r, cov, needle, origin + at)
  {
  }

  /** No needle from `start` to before `at`: the occurrences ending there are those known already. */
  lemma {:induction false} StretchWithout(
    r: Region, cov: iset<int>, origin: nat, snapshot: seq<Byte>, available: nat, needle: seq<Byte>, start: nat, at: nat)
    requires needle != [] && Holds(r, cov, origin, snapshot, available) && start <= at && at + |needle| <= available + 1
    requires at + |needle| <= |snapshot| + 1 && NoNeedle(snapshot, needle, start, at)
    ensures Occurrences(r, cov, needle, origin, 0, origin + at + |needle| - 1) ==
      Occurrences(r, cov, needle, origin, 0, origin + start + |needle| - 1)
    decreases at
  {
    if start < at {
      StretchWithout(r, cov, origin, snapshot, available, needle, start, at - 1);
      NeedleIsOccurrence(r, cov, origin, snapshot, available, needle, at - 1);
    }
  }

  /** Where the search of a window stands. */
  ghost predicate Searching(
    r: Region, cov: iset<int>, needle: seq<Byte>, origin: nat, search: nat, before: nat, reports: seq<nat>, last: nat)
    requires needle != []
  {
    var found := Occurrences(r, cov, needle, origin, 0, origin + search + |needle| - 1);
    reports == Reported(found, before) && last == Remembered(found, before)
  }

  method ReportOne(
    r: Region, ghost cov: iset<int>, needle: seq<Byte>, origin: nat, at: nat, before: nat, reports: seq<nat>, last: nat)
    returns (more: seq<nat>, now: nat)
    requires needle != [] && Occurrence(r, cov, needle, origin + at)
    requires Searching(r, cov, needle, origin, at, before, reports, last)
    ensures Searching(r, cov, needle, origin, at + 1, before, more, now)
  {
    var address := origin + at;
    ghost var found := Occurrences(r, cov, needle, origin, 0, address + |needle| - 1);
    if found != [] {
      OccurrenceIs(r, cov, needle, origin, 0, address + |needle| - 1, |found| - 1);
    }
    ReportNext(found, before, address);
    more, now := reports, last;
    if address != last {
      more, now := more + [address], address;
    }
  }

  lemma {:induction false} SearchSkips(
    r: Region, cov: iset<int>, origin: nat, snapshot: seq<Byte>, available: nat, needle: seq<Byte>, search: nat,
    at: nat, before: nat, reports: seq<nat>, last: nat)
    requires needle != [] && Holds(r, cov, origin, snapshot, available) && search <= at
    requires at + |needle| <= available + 1
    requires NoNeedle(snapshot, needle, search, at)
    requires Searching(r, cov, needle, origin, search, before, reports, last)
    ensures Searching(r, cov, needle, origin, at, before, reports, last)
  {
    StretchWithout(r, cov, origin, snapshot, available, needle, search, at);
  }

  /** From one position of the window to the next match and past it, or to the end of the window. */
  method ReportNextMatch(
    r: Region, ghost cov: iset<int>, needle: seq<Byte>, origin: nat, snapshot: array<Byte>, available: nat, search: nat,
    before: nat, reports: seq<nat>, last: nat)
    returns (next: nat, more: seq<nat>, now: nat)
    requires needle != [] && Holds(r, cov, origin, snapshot[..], available) && search + |needle| <= available
    requires Searching(r, cov, needle, origin, search, before, reports, last)
    ensures search < next <= available + 1 - |needle| && Searching(r, cov, needle, origin, next, before, more, now)
  {
    var found := FindSequence(snapshot, search, available, needle);
    if found.None? {
      SearchSkips(r, cov, origin, snapshot[..], available, needle, search, available + 1 - |needle|, before, reports,
          last);
      return available + 1 - |needle|, reports, last;
    }
    SearchSkips(r, cov, origin, snapshot[..], available, needle, search, found.value, before, reports, last);
    NeedleIsOccurrence(r, cov, origin, snapshot[..], available, needle, found.value);
    more, now := ReportOne(r, cov, needle, origin, found.value, before, reports, last);
    next := found.value + 1;
  }

  method ReportMatches(
    r: Region, ghost cov: iset<int>, needle: seq<Byte>, origin: nat, snapshot: array<Byte>, available: nat, before: nat)
    returns (reports: seq<nat>, last: nat)
    requires needle != [] && Holds(r, cov, origin, snapshot[..], available)
    ensures var found := Occurrences(r, cov, needle, origin, 0, origin + available);
      reports == Reported(found, before) && last == Remembered(found, before)
  {
    reports, last := [], before;
    var search := 0;
    while search + |needle| <= available
      invariant Searching(r, cov, needle, origin, search, before, reports, last)
      invariant search == 0 || search + |needle| <= available + 1
      decreases available - search
    {
      search, reports, last := ReportNextMatch(r, cov, needle, origin, snapshot, available, search, before, reports,
          last);
    }
    if search == 0 {
      assert Occurrences(r, cov, needle, origin, 0, origin + available) == [];
    } else {
      assert origin + search + |needle| - 1 == origin + available;
    }
  }

  // ----- from chunk to chunk

  ghost predicate CarriedInto(r: Region, cov: iset<int>, needle: seq<Byte>, longest: nat, c: nat, a: nat) {
    Occurrence(r, cov, needle, a) && a + |needle| <= c < a + longest && AllCovered(cov, a, c)
  }

  /** Two occurrences lie wholly in the bytes carried into the chunk at `c`. */
  ghost predicate CarriedTwice(r: Region, cov: iset<int>, needle: seq<Byte>, longest: nat, c: nat) {
    && r.begin < c < r.end && (c - r.begin) % CHUNK_SIZE == 0 && c in cov
    && exists a: nat, b: nat ::
      a < b && CarriedInto(r, cov, needle, longest, c, a) && CarriedInto(r, cov, needle, longest, c, b)
  }

  ghost predicate NeverCarriedTwice(r: Region, cov: iset<int>, needle: seq<Byte>, longest: nat) {
    forall c: nat :: !CarriedTwice(r, cov, needle, longest, c)
  }

  /** The chunks two occurrences are carried into; the tallies below take them as `twice`. */
  ghost function DoubleCarries(r: Region, cov: iset<int>, needle: seq<Byte>, longest: nat): iset<int> {
    iset c: int | 0 <= c && CarriedTwice(r, cov, needle, longest, c)
  }

  /** The loop stands before a chunk: `carry` bytes in front of it were read, as many as there can be. */
  ghost predicate WindowAt(r: Region, cov: iset<int>, longest: nat, cursor: nat, carry: nat) {
    && r.begin <= cursor - carry && cursor <= r.end && carry < longest
    && AllCovered(cov, cursor - carry, cursor)
    && (cursor - carry == r.begin || carry == longest - 1 || cursor - carry - 1 !in cov)
    && (cursor < r.end ==> (cursor - r.begin) % CHUNK_SIZE == 0)
  }

  /** From here on `cov` is what the chunks still to come cover. */
  ghost predicate CoversFrom(r: Region, cov: iset<int>, cursor: nat) {
    forall x: int :: cursor <= x ==> (x in cov <==> CoveredFrom(r, cursor, x))
  }

  function NextCarry(longest: nat, available: nat): nat
    requires 0 < longest
  {
    if longest - 1 <= available then longest - 1 else available
  }

  ghost predicate NoneCovered(cov: iset<int>, lo: nat, hi: nat) {
    forall x :: lo <= x < hi ==> x !in cov
  }

  lemma {:induction false} NextChunk(r: Region, cov: iset<int>, cursor: nat)
    requires CoversFrom(r, cov, cursor) && cursor < r.end
    ensures var e := cursor + Requested(r, cursor);
      && CoversFrom(r, cov, e)
      && if r.read(cursor, Requested(r, cursor)) then AllCovered(cov, cursor, e) else NoneCovered(cov, cursor, e)
  {
  }

  lemma {:induction false} WindowAfterRead(r: Region, cov: iset<int>, longest: nat, cursor: nat, carry: nat)
    requires WindowAt(r, cov, longest, cursor, carry) && cursor < r.end
    requires AllCovered(cov, cursor, cursor + Requested(r, cursor))
    ensures AllCovered(cov, cursor - carry, cursor + Requested(r, cursor))
    ensures WindowAt(r, cov, longest, cursor + Requested(r, cursor), NextCarry(longest, carry + Requested(r, cursor)))
  {
  }

  lemma {:induction false} WindowAfterMiss(r: Region, cov: iset<int>, longest: nat, cursor: nat, carry: nat)
    requires WindowAt(r, cov, longest, cursor, carry) && cursor < r.end
    requires NoneCovered(cov, cursor, cursor + Requested(r, cursor))
    ensures WindowAt(r, cov, longest, cursor + Requested(r, cursor), 0)
  {
  }

  function Members(s: seq<nat>): set<nat> {
    set a | a in s
  }

  lemma {:induction false} MembersConcat(s: seq<nat>, u: seq<nat>)
    ensures Members(s + u) == Members(s) + Members(u)
  {
  }

  /** Reports against the full list: the same addresses, `extra` of them reported again. */
  ghost predicate TalliedBy(all: seq<nat>, extra: nat, reports: seq<nat>, last: nat) {
    && last == Remembered(all, 0)
    && Members(reports) == Members(all)
    && |reports| == |all| + extra && (extra == 0 ==> reports == all)
  }

  /** What one needle's reports amount to when the loop stands at `cursor`. */
  ghost predicate Tallied(
    r: Region, cov: iset<int>, needle: seq<Byte>, cursor: nat, extra: nat, reports: seq<nat>, last: nat)
  {
    TalliedBy(Occurrences(r, cov, needle, r.begin, 0, cursor), extra, reports, last)
  }

  /** No chunk below the bound received two. */
  ghost predicate Quiet(twice: iset<int>, below: nat) {
    below == 0 || (below - 1 !in twice && Quiet(twice, below - 1))
  }

  /** Something was reported again exactly when two occurrences were carried into some chunk so far. */
  ghost predicate Counted(twice: iset<int>, cursor: nat, extra: nat) {
    extra == 0 <==> Quiet(twice, cursor)
  }

  lemma {:induction false} QuietMeans(twice: iset<int>, below: nat)
    ensures Quiet(twice, below) <==> forall c :: 0 <= c < below ==> c !in twice
  {
    if below > 0 {
      QuietMeans(twice, below - 1);
    }
  }

  lemma {:induction false} StartsInWindow(r: Region, cov: iset<int>, longest: nat, cursor: nat, carry: nat, a: nat)
    requires WindowAt(r, cov, longest, cursor, carry) && r.begin <= a && AllCovered(cov, a, cursor)
    requires cursor < a + longest
    ensures cursor - carry <= a
  {
  }

  lemma {:induction false} NewStartsInWindow(
    r: Region, cov: iset<int>, needle: seq<Byte>, longest: nat, cursor: nat, carry: nat, e: nat)
    requires WindowAt(r, cov, longest, cursor, carry) && 0 < |needle| <= longest && cursor <= e
    ensures Occurrences(r, cov, needle, r.begin, cursor, e) == Occurrences(r, cov, needle, cursor - carry, cursor, e)
  {
    var k := SuffixFrom(r, cov, needle, r.begin, cursor - carry, cursor, e);
    var all := Occurrences(r, cov, needle, r.begin, cursor, e);
    if k > 0 {
      OccurrenceIs(r, cov, needle, r.begin, cursor, e, 0);
      StartsInWindow(r, cov, longest, cursor, carry, all[0]);
      assert false;
    }
  }

  /** The occurrences carried into a chunk, by their number: none, one, or at least two. */
  lemma {:induction false} CarriedCount(
    r: Region, cov: iset<int>, needle: seq<Byte>, longest: nat, cursor: nat, carry: nat)
    requires WindowAt(r, cov, longest, cursor, carry) && 0 < |needle| <= longest
    requires cursor < r.end && AllCovered(cov, cursor, cursor + Requested(r, cursor))
    ensures CarriedTwice(r, cov, needle, longest, cursor) <==>
      |Occurrences(r, cov, needle, cursor - carry, 0, cursor)| >= 2
  {
    var w := cursor - carry;
    var carried := Occurrences(r, cov, needle, w, 0, cursor);
    assert cursor in cov;
    OccurrencesExactly(r, cov, needle, w, 0, cursor, 0);
    if |carried| >= 2 {
      OccurrenceIs(r, cov, needle, w, 0, cursor, 0);
      OccurrenceIs(r, cov, needle, w, 0, cursor, 1);
      assert CarriedInto(r, cov, needle, longest, cursor, carried[0])
        && CarriedInto(r, cov, needle, longest, cursor, carried[1]);
      assert r.begin < cursor;
    }
    if CarriedTwice(r, cov, needle, longest, cursor) {
      var a: nat, b: nat :| a < b
        && CarriedInto(r, cov, needle, longest, cursor, a) && CarriedInto(r, cov, needle, longest, cursor, b);
      StartsInWindow(r, cov, longest, cursor, carry, a);
      StartsInWindow(r, cov, longest, cursor, carry, b);
      OccurrencesExactly(r, cov, needle, w, 0, cursor, a);
      OccurrencesExactly(r, cov, needle, w, 0, cursor, b);
    }
  }

  lemma {:induction false} OnlyThisBoundary(
    r: Region, cov: iset<int>, twice: iset<int>, needle: seq<Byte>, longest: nat, cursor: nat, carry: nat)
    requires WindowAt(r, cov, longest, cursor, carry) && cursor < r.end
    requires twice == DoubleCarries(r, cov, needle, longest)
    ensures forall c :: cursor < c < cursor + Requested(r, cursor) ==> c !in twice
    ensures cursor in twice <==> CarriedTwice(r, cov, needle, longest, cursor)
  {
  }

  /** How many of the carried occurrences are reported again. */
  function Again(carried: nat): nat {
    if carried < 2 then 0 else carried
  }

  lemma {:induction false} CountStep(twice: iset<int>, cursor: nat, e: nat, extra: nat, count: nat)
    requires Counted(twice, cursor, extra) && cursor < e
    requires forall c :: cursor < c < e ==> c !in twice
    requires cursor in twice <==> count >= 2
    ensures Counted(twice, e, extra + Again(count))
  {
    QuietMeans(twice, cursor);
    QuietMeans(twice, e);
  }

  predicate Ascending(s: seq<nat>) {
    forall i, j :: 0 <= i < j < |s| ==> s[i] < s[j]
  }

  /** The arithmetic of one remembered address: a single carried occurrence is the remembered one and is
      skipped; two or more are all reported again. */
  lemma {:induction false} TallyStep(
    all: seq<nat>, k: nat, newOnes: seq<nat>, extra: nat, last: nat, reports: seq<nat>, found: seq<nat>)
    requires k <= |all| && TalliedBy(all, extra, reports, last)
    requires Ascending(all) && (newOnes != [] ==> newOnes[0] != last) && found == all[k..] + newOnes
    ensures TalliedBy(all + newOnes, extra + Again(|all| - k), reports + Reported(found, last), Remembered(found, last))
  {
    var carried := all[k..];
    var more := Reported(found, last);
    MembersConcat(reports, more);
    MembersConcat(all, newOnes);
    MembersConcat(carried, newOnes);
    if carried == [] {
      assert found == newOnes && more == newOnes;
    } else if |carried| == 1 {
      assert found[0] == last && more == newOnes;
    } else {
      assert found[0] == all[k] < last;
      assert more == carried + newOnes;
      assert Members(carried) <= Members(all);
    }
  }

  lemma {:induction false} NewIsNotRemembered(r: Region, cov: iset<int>, needle: seq<Byte>, cursor: nat, e: nat)
    requires 0 < r.begin && needle != []
    ensures var newOnes := Occurrences(r, cov, needle, r.begin, cursor, e);
      newOnes != [] ==> newOnes[0] != Remembered(Occurrences(r, cov, needle, r.begin, 0, cursor), 0)
  {
    var all := Occurrences(r, cov, needle, r.begin, 0, cursor);
    if Occurrences(r, cov, needle, r.begin, cursor, e) != [] {
      OccurrenceIs(r, cov, needle, r.begin, cursor, e, 0);
      if all != [] {
        OccurrenceIs(r, cov, needle, r.begin, 0, cursor, |all| - 1);
      }
    }
  }

  lemma {:induction false} KnownAscend(r: Region, cov: iset<int>, needle: seq<Byte>, cursor: nat)
    requires needle != []
    ensures Ascending(Occurrences(r, cov, needle, r.begin, 0, cursor))
  {
    OccurrencesExactly(r, cov, needle, r.begin, 0, cursor, 0);
  }

  /** What a window that was read holds: the carried tail of the known occurrences, then the new ones. */
  lemma {:induction false} WindowParts(
    r: Region, cov: iset<int>, needle: seq<Byte>, longest: nat, cursor: nat, carry: nat, e: nat, last: nat)
    returns (k: nat, newOnes: seq<nat>)
    requires 0 < r.begin && 0 < |needle| <= longest && WindowAt(r, cov, longest, cursor, carry) && cursor <= e
    requires last == Remembered(Occurrences(r, cov, needle, r.begin, 0, cursor), 0)
    ensures var all := Occurrences(r, cov, needle, r.begin, 0, cursor);
      && Occurrences(r, cov, needle, r.begin, 0, e) == all + newOnes && Ascending(all)
      && k <= |all| && all[k..] == Occurrences(r, cov, needle, cursor - carry, 0, cursor)
      && Occurrences(r, cov, needle, cursor - carry, 0, e) == all[k..] + newOnes
    ensures newOnes != [] ==> newOnes[0] != last
  {
    newOnes := Occurrences(r, cov, needle, r.begin, cursor, e);
    OccurrencesSplit(r, cov, needle, r.begin, 0, cursor, e);
    OccurrencesSplit(r, cov, needle, cursor - carry, 0, cursor, e);
    NewStartsInWindow(r, cov, needle, longest, cursor, carry, e);
    k := SuffixFrom(r, cov, needle, r.begin, cursor - carry, 0, cursor);
    KnownAscend(r, cov, needle, cursor);
    NewIsNotRemembered(r, cov, needle, cursor, e);
  }

  lemma {:induction false} CountRead(
    r: Region, cov: iset<int>, twice: iset<int>, needle: seq<Byte>, longest: nat, cursor: nat, carry: nat, extra: nat,
    count: nat)
    requires WindowAt(r, cov, longest, cursor, carry) && 0 < |needle| <= longest
    requires twice == DoubleCarries(r, cov, needle, longest)
    requires cursor < r.end && AllCovered(cov, cursor, cursor + Requested(r, cursor))
    requires count == |Occurrences(r, cov, needle, cursor - carry, 0, cursor)|
    requires Counted(twice, cursor, extra)
    ensures Counted(twice, cursor + Requested(r, cursor), extra + Again(count))
  {
    CarriedCount(r, cov, needle, longest, cursor, carry);
    OnlyThisBoundary(r, cov, twice, needle, longest, cursor, carry);
    CountStep(twice, cursor, cursor + Requested(r, cursor), extra, count);
  }

  /** A chunk that was read: the tally moves past it. */
  lemma {:induction false} TallyRead(
    r: Region, cov: iset<int>, needle: seq<Byte>, longest: nat, cursor: nat, carry: nat, e: nat, extra: nat,
    reports: seq<nat>, last: nat, found: seq<nat>)
    requires 0 < r.begin && 0 < |needle| <= longest && WindowAt(r, cov, longest, cursor, carry) && cursor <= e
    requires Tallied(r, cov, needle, cursor, extra, reports, last)
    requires found == Occurrences(r, cov, needle, cursor - carry, 0, e)
    ensures var count := |Occurrences(r, cov, needle, cursor - carry, 0, cursor)|;
      Tallied(r, cov, needle, e, extra + Again(count), reports + Reported(found, last), Remembered(found, last))
  {
    var k, newOnes := WindowParts(r, cov, needle, longest, cursor, carry, e, last);
    TallyStep(Occurrences(r, cov, needle, r.begin, 0, cursor), k, newOnes, extra, last, reports, found);
  }

  lemma {:induction false} MissedHasNone(r: Region, cov: iset<int>, needle: seq<Byte>, cursor: nat, e: nat)
    requires needle != [] && cursor <= e && NoneCovered(cov, cursor, e)
    ensures Occurrences(r, cov, needle, r.begin, cursor, e) == []
    decreases e
  {
    if cursor < e && e >= r.begin + |needle| {
      MissedHasNone(r, cov, needle, cursor, e - 1);
      assert e - 1 !in cov;
    }
  }

  lemma {:induction false} TallyMissed(
    r: Region, cov: iset<int>, needle: seq<Byte>, cursor: nat, e: nat, extra: nat, reports: seq<nat>, last: nat)
    requires needle != [] && cursor <= e && NoneCovered(cov, cursor, e)
    requires Tallied(r, cov, needle, cursor, extra, reports, last)
    ensures Tallied(r, cov, needle, e, extra, reports, last)
  {
    OccurrencesSplit(r, cov, needle, r.begin, 0, cursor, e);
    MissedHasNone(r, cov, needle, cursor, e);
  }

  lemma {:induction false} CountMissed(
    r: Region, cov: iset<int>, twice: iset<int>, needle: seq<Byte>, longest: nat, cursor: nat, carry: nat, extra: nat)
    requires WindowAt(r, cov, longest, cursor, carry) && twice == DoubleCarries(r, cov, needle, longest)
    requires cursor < r.end && NoneCovered(cov, cursor, cursor + Requested(r, cursor))
    requires Counted(twice, cursor, extra)
    ensures Counted(twice, cursor + Requested(r, cursor), extra)
  {
    OnlyThisBoundary(r, cov, twice, needle, longest, cursor, carry);
    assert cursor !in cov;
    CountStep(twice, cursor, cursor + Requested(r, cursor), extra, 0);
  }

  // ----- the two searches

  method ReadChunk(r: Region, cursor: nat, carry: nat, snapshot: array<Byte>) returns (ok: bool)
    requires carry <= cursor < r.end && carry + Requested(r, cursor) <= snapshot.Length
    requires Prefix(r, cursor - carry, snapshot[..], carry)
    modifies snapshot
    ensures ok <==> r.read(cursor, Requested(r, cursor))
    ensures ok ==> Prefix(r, cursor - carry, snapshot[..], carry + Requested(r, cursor))
  {
    var requested := Requested(r, cursor);
    ok := r.read(cursor, requested);
    if ok {
      for i := 0 to requested
        invariant Prefix(r, cursor - carry, snapshot[..], carry + i)
      {
        snapshot[carry + i] := r.contents(cursor + i);
      }
    }
  }

  /** `memmove`: the last `carry` bytes of the window to its front. */
  method MoveTail(r: Region, origin: nat, available: nat, carry: nat, snapshot: array<Byte>)
    requires carry <= available && Prefix(r, origin, snapshot[..], available)
    modifies snapshot
    ensures Prefix(r, origin + available - carry, snapshot[..], carry)
  {
    ghost var was := snapshot[..];
    for i := 0 to carry
      invariant forall j :: i <= j < snapshot.Length ==> snapshot[j] == was[j]
      invariant forall j :: 0 <= j < i ==> snapshot[j] == r.contents(origin + available - carry + j)
    {
      assert was[available - carry + i] == r.contents(origin + (available - carry + i));
      snapshot[i] := snapshot[available - carry + i];
    }
  }

  /** A window that was read: the carried bytes and the chunk behind them. */
  ghost predicate WindowRead(r: Region, cov: iset<int>, longest: nat, cursor: nat, carry: nat) {
    && 0 < r.begin && cursor < r.end && WindowAt(r, cov, longest, cursor, carry)
    && AllCovered(cov, cursor, cursor + Requested(r, cursor))
  }

  /** The tally of one needle, and when anything was reported again. */
  ghost predicate Standing(
    r: Region, cov: iset<int>, twice: iset<int>, needle: seq<Byte>, cursor: nat, extra: nat, reports: seq<nat>,
    last: nat)
  {
    Tallied(r, cov, needle, cursor, extra, reports, last) && Counted(twice, cursor, extra)
  }

  lemma {:induction false} StartsStanding(r: Region, cov: iset<int>, twice: iset<int>, needle: seq<Byte>, longest: nat)
    requires 0 < |needle| <= longest && r.begin <= r.end && twice == DoubleCarries(r, cov, needle, longest)
    ensures Standing(r, cov, twice, needle, r.begin, 0, [], 0) && WindowAt(r, cov, longest, r.begin, 0)
  {
    forall c | 0 <= c < r.begin
      ensures c !in twice
    {
      assert !CarriedTwice(r, cov, needle, longest, c);
    }
    QuietMeans(twice, r.begin);
  }

  lemma {:induction false} MissStanding(
    r: Region, cov: iset<int>, twice: iset<int>, needle: seq<Byte>, longest: nat, cursor: nat, carry: nat, extra: nat,
    reports: seq<nat>, last: nat)
    requires 0 < |needle| <= longest && WindowAt(r, cov, longest, cursor, carry)
    requires twice == DoubleCarries(r, cov, needle, longest)
    requires cursor < r.end && NoneCovered(cov, cursor, cursor + Requested(r, cursor))
    requires Standing(r, cov, twice, needle, cursor, extra, reports, last)
    ensures Standing(r, cov, twice, needle, cursor + Requested(r, cursor), extra, reports, last)
  {
    TallyMissed(r, cov, needle, cursor, cursor + Requested(r, cursor), extra, reports, last);
    CountMissed(r, cov, twice, needle, longest, cursor, carry, extra);
  }

  lemma {:induction false} ReadStanding(
    r: Region, cov: iset<int>, twice: iset<int>, needle: seq<Byte>, longest: nat, cursor: nat, carry: nat, extra: nat,
    reports: seq<nat>, last: nat, found: seq<nat>)
    returns (more: nat)
    requires 0 < |needle| <= longest && WindowRead(r, cov, longest, cursor, carry)
    requires twice == DoubleCarries(r, cov, needle, longest)
    requires Standing(r, cov, twice, needle, cursor, extra, reports, last)
    requires found == Occurrences(r, cov, needle, cursor - carry, 0, cursor + Requested(r, cursor))
    ensures Standing(r, cov, twice, needle, cursor + Requested(r, cursor), more,
                     reports + Reported(found, last), Remembered(found, last))
  {
    var count := |Occurrences(r, cov, needle, cursor - carry, 0, cursor)|;
    more := extra + Again(count);
    TallyRead(r, cov, needle, longest, cursor, carry, cursor + Requested(r, cursor), extra, reports, last, found);
    CountRead(r, cov, twice, needle, longest, cursor, carry, extra, count);
  }

  lemma {:induction false} WindowHolds(
    r: Region, cov: iset<int>, longest: nat, cursor: nat, carry: nat, snapshot: seq<Byte>)
    requires WindowRead(r, cov, longest, cursor, carry)
    requires Prefix(r, cursor - carry, snapshot, carry + Requested(r, cursor))
    ensures Holds(r, cov, cursor - carry, snapshot, carry + Requested(r, cursor))
  {
  }

  method WindowMatches(
    r: Region, ghost cov: iset<int>, needle: seq<Byte>, ghost longest: nat, cursor: nat, carry: nat,
    snapshot: array<Byte>, remembered: nat)
    returns (found: seq<nat>, last: nat)
    requires 0 < |needle| <= longest && WindowRead(r, cov, longest, cursor, carry)
    requires Prefix(r, cursor - carry, snapshot[..], carry + Requested(r, cursor))
    ensures var window := Occurrences(r, cov, needle, cursor - carry, 0, cursor + Requested(r, cursor));
      found == Reported(window, remembered) && last == Remembered(window, remembered)
  {
    WindowHolds(r, cov, longest, cursor, carry, snapshot[..]);
    found, last := ReportMatches(r, cov, needle, cursor - carry, snapshot, carry + Requested(r, cursor), remembered);
  }

  /** One needle over one window: what the reports become. */
  method SearchWindow(
    r: Region, ghost cov: iset<int>, ghost twice: iset<int>, needle: seq<Byte>, ghost longest: nat, cursor: nat,
    carry: nat, snapshot: array<Byte>, before: seq<nat>, remembered: nat, ghost extra: nat)
    returns (reports: seq<nat>, last: nat, ghost more: nat)
    requires 0 < |needle| <= longest && WindowRead(r, cov, longest, cursor, carry)
    requires twice == DoubleCarries(r, cov, needle, longest)
    requires Prefix(r, cursor - carry, snapshot[..], carry + Requested(r, cursor))
    requires Standing(r, cov, twice, needle, cursor, extra, before, remembered)
    ensures Standing(r, cov, twice, needle, cursor + Requested(r, cursor), more, reports, last)
  {
    more := ReadStanding(r, cov, twice, needle, longest, cursor, carry, extra, before, remembered,
                         Occurrences(r, cov, needle, cursor - carry, 0, cursor + Requested(r, cursor)));
    var found;
    found, last := WindowMatches(r, cov, needle, longest, cursor, carry, snapshot, remembered);
    reports := before + found;
  }

  /** A longest needle is never carried whole, let alone twice. */
  lemma {:induction false} LongestIsNeverCarried(r: Region, cov: iset<int>, needle: seq<Byte>)
    requires needle != []
    ensures NeverCarriedTwice(r, cov, needle, |needle|)
  {
  }

  /** The loop's state: where the window is, what is still to come, and what the snapshot begins with. */
  ghost predicate AtChunk(r: Region, cov: iset<int>, longest: nat, cursor: nat, carry: nat, snapshot: seq<Byte>) {
    WindowAt(r, cov, longest, cursor, carry) && CoversFrom(r, cov, cursor) && Prefix(r, cursor - carry, snapshot, carry)
  }

  /** Keep the tail of a window that was read and go to the next chunk. */
  method CarryOver(r: Region, ghost cov: iset<int>, longest: nat, cursor: nat, carry: nat, snapshot: array<Byte>)
    returns (next: nat, tail: nat)
    requires WindowRead(r, cov, longest, cursor, carry) && CoversFrom(r, cov, cursor + Requested(r, cursor))
    requires Prefix(r, cursor - carry, snapshot[..], carry + Requested(r, cursor))
    modifies snapshot
    ensures next == cursor + Requested(r, cursor) && AtChunk(r, cov, longest, next, tail, snapshot[..])
  {
    WindowAfterRead(r, cov, longest, cursor, carry);
    var available := carry + Requested(r, cursor);
    tail := NextCarry(longest, available);
    MoveTail(r, cursor - carry, available, tail, snapshot);
    next := cursor + Requested(r, cursor);
  }

  /** Read the next chunk behind the carried bytes; a chunk that cannot be read is skipped. */
  method NextWindow(r: Region, ghost cov: iset<int>, longest: nat, cursor: nat, carry: nat, snapshot: array<Byte>)
    returns (ok: bool)
    requires 0 < r.begin && cursor < r.end && AtChunk(r, cov, longest, cursor, carry, snapshot[..])
    requires snapshot.Length == CHUNK_SIZE + longest - 1
    modifies snapshot
    ensures CoversFrom(r, cov, cursor + Requested(r, cursor))
    ensures ok ==>
      && WindowRead(r, cov, longest, cursor, carry)
      && Prefix(r, cursor - carry, snapshot[..], carry + Requested(r, cursor))
    ensures !ok ==>
      && NoneCovered(cov, cursor, cursor + Requested(r, cursor))
      && AtChunk(r, cov, longest, cursor + Requested(r, cursor), 0, snapshot[..])
  {
    NextChunk(r, cov, cursor);
    ok := ReadChunk(r, cursor, carry, snapshot);
    if !ok {
      WindowAfterMiss(r, cov, longest, cursor, carry);
    }
  }

  method SearchNeedle(
    r: Region, ghost cov: iset<int>, ghost twice: iset<int>, needle: seq<Byte>, cursor: nat, carry: nat,
    snapshot: array<Byte>, before: seq<nat>, remembered: nat, ghost extra: nat)
    returns (next: nat, tail: nat, reports: seq<nat>, last: nat, ghost more: nat)
    requires 0 < r.begin && cursor < r.end && needle != [] && snapshot.Length == CHUNK_SIZE + |needle| - 1
    requires twice == DoubleCarries(r, cov, needle, |needle|) && AtChunk(r, cov, |needle|, cursor, carry, snapshot[..])
    requires Standing(r, cov, twice, needle, cursor, extra, before, remembered)
    modifies snapshot
    ensures next == cursor + Requested(r, cursor) && AtChunk(r, cov, |needle|, next, tail, snapshot[..])
    ensures Standing(r, cov, twice, needle, cursor + Requested(r, cursor), more, reports, last)
  {
    var ok := NextWindow(r, cov, |needle|, cursor, carry, snapshot);
    if ok {
      reports, last, more := SearchWindow(r, cov, twice, needle, |needle|, cursor, carry, snapshot, before,
          remembered, extra);
      next, tail := CarryOver(r, cov, |needle|, cursor, carry, snapshot);
    } else {
      MissStanding(r, cov, twice, needle, |needle|, cursor, carry, extra, before, remembered);
      next, tail := cursor + Requested(r, cursor), 0;
      reports, last, more := before, remembered, extra;
    }
  }

  /** What the reports of one needle are: its occurrences, each at least once, and exactly the list of them
      if and only if no chunk ever received two of them among its carried bytes. */
  ghost predicate ReportsMean(r: Region, needle: seq<Byte>, longest: nat, reports: seq<nat>) {
    var all := AllOccurrences(r, CoveredBytes(r), needle);
    && Members(reports) == Members(all) && |reports| >= |all|
    && (reports == all <==> NeverCarriedTwice(r, CoveredBytes(r), needle, longest))
  }

  lemma {:induction false} StandingMeans(
    r: Region, needle: seq<Byte>, longest: nat, extra: nat, reports: seq<nat>, last: nat)
    requires Standing(r, CoveredBytes(r), DoubleCarries(r, CoveredBytes(r), needle, longest), needle, r.end,
                      extra, reports, last)
    ensures ReportsMean(r, needle, longest, reports)
  {
    var twice := DoubleCarries(r, CoveredBytes(r), needle, longest);
    QuietMeans(twice, r.end);
    assert (forall c :: 0 <= c < r.end ==> c !in twice) <==> NeverCarriedTwice(r, CoveredBytes(r), needle, longest) by {
      forall c: nat
        ensures CarriedTwice(r, CoveredBytes(r), needle, longest, c) <==> c < r.end && c in twice
      {
      }
    }
  }

  /** Every occurrence in the bytes that were read, exactly once, in ascending order. */
  method FindBytes(r: Region, needle: seq<Byte>) returns (reports: seq<nat>)
    requires 0 < r.begin <= r.end && needle != []
    ensures reports == AllOccurrences(r, CoveredBytes(r), needle)
  {
    ghost var cov, extra := CoveredBytes(r), 0;
    ghost var twice := DoubleCarries(r, cov, needle, |needle|);
    var snapshot := new Byte[CHUNK_SIZE + |needle| - 1];
    var cursor, carry, last := r.begin, 0, 0;
    reports := [];
    StartsStanding(r, cov, twice, needle, |needle|);
    while cursor < r.end
      invariant AtChunk(r, cov, |needle|, cursor, carry, snapshot[..])
      invariant Standing(r, cov, twice, needle, cursor, extra, reports, last)
      decreases r.end - cursor
    {
      cursor, carry, reports, last, extra :=
        SearchNeedle(r, cov, twice, needle, cursor, carry, snapshot, reports, last, extra);
    }
    StandingMeans(r, needle, |needle|, extra, reports, last);
    LongestIsNeverCarried(r, cov, needle);
  }

  function Longest(needles: seq<seq<Byte>>): (n: nat)
    ensures forall p :: 0 <= p < |needles| ==> |needles[p]| <= n
  {
    if needles == [] then 0
    else
      var front := Longest(needles[..|needles| - 1]);
      if front < |needles[|needles| - 1]| then |needles[|needles| - 1]| else front
  }

  ghost function AllDoubleCarries(r: Region, cov: iset<int>, needles: seq<seq<Byte>>, longest: nat)
    : (twices: seq<iset<int>>)
    ensures |twices| == |needles|
    ensures forall p :: 0 <= p < |needles| ==> twices[p] == DoubleCarries(r, cov, needles[p], longest)
  {
    seq(|needles|, p requires 0 <= p < |needles| => DoubleCarries(r, cov, needles[p], longest))
  }

  /** The tallies of all needles at one cursor. */
  ghost predicate AllStanding(
    r: Region, cov: iset<int>, twices: seq<iset<int>>, needles: seq<seq<Byte>>, cursor: nat, extras: seq<nat>,
    reports: seq<seq<nat>>, lasts: seq<nat>)
  {
    && |extras| == |reports| == |lasts| == |needles| <= |twices|
    && forall p :: 0 <= p < |needles| ==>
      Standing(r, cov, twices[p], needles[p], cursor, extras[p], reports[p], lasts[p])
  }

  ghost predicate Searchable(r: Region, cov: iset<int>, twices: seq<iset<int>>, needles: seq<seq<Byte>>, longest: nat) {
    && 0 < r.begin && |twices| == |needles|
    && forall p :: 0 <= p < |needles| ==>
      0 < |needles[p]| <= longest && twices[p] == DoubleCarries(r, cov, needles[p], longest)
  }

  /** Every needle over one window. */
  method SearchAll(
    r: Region, ghost cov: iset<int>, ghost twices: seq<iset<int>>, needles: seq<seq<Byte>>, ghost longest: nat,
    cursor: nat, carry: nat, snapshot: array<Byte>, before: seq<seq<nat>>, remembered: seq<nat>, ghost extra: seq<nat>)
    returns (reports: seq<seq<nat>>, lasts: seq<nat>, ghost more: seq<nat>)
    requires Searchable(r, cov, twices, needles, longest) && WindowRead(r, cov, longest, cursor, carry)
    requires Prefix(r, cursor - carry, snapshot[..], carry + Requested(r, cursor))
    requires AllStanding(r, cov, twices, needles, cursor, extra, before, remembered)
    ensures AllStanding(r, cov, twices, needles, cursor + Requested(r, cursor), more, reports, lasts)
  {
    reports, lasts, more := [], [], [];
    for p := 0 to |needles|
      invariant AllStanding(r, cov, twices, needles[..p], cursor + Requested(r, cursor), more, reports, lasts)
    {
      var found, last;
      ghost var again;
      found, last, again := SearchWindow(r, cov, twices[p], needles[p], longest, cursor, carry, snapshot,
                                         before[p], remembered[p], extra[p]);
      reports, lasts, more := reports + [found], lasts + [last], more + [again];
    }
    SeqFacts.TakeAll(needles);
  }

  lemma {:induction false} AllMiss(
    r: Region, cov: iset<int>, twices: seq<iset<int>>, needles: seq<seq<Byte>>, longest: nat, cursor: nat, carry: nat,
    extras: seq<nat>, reports: seq<seq<nat>>, lasts: seq<nat>)
    requires Searchable(r, cov, twices, needles, longest) && WindowAt(r, cov, longest, cursor, carry)
    requires cursor < r.end && NoneCovered(cov, cursor, cursor + Requested(r, cursor))
    requires AllStanding(r, cov, twices, needles, cursor, extras, reports, lasts)
    ensures AllStanding(r, cov, twices, needles, cursor + Requested(r, cursor), extras, reports, lasts)
  {
    forall p | 0 <= p < |needles|
      ensures Standing(r, cov, twices[p], needles[p], cursor + Requested(r, cursor), extras[p], reports[p], lasts[p])
    {
      MissStanding(r, cov, twices[p], needles[p], longest, cursor, carry, extras[p], reports[p], lasts[p]);
    }
  }

  method SearchChunk(
    r: Region, ghost cov: iset<int>, ghost twices: seq<iset<int>>, needles: seq<seq<Byte>>, longest: nat, cursor: nat,
    carry: nat, snapshot: array<Byte>, before: seq<seq<nat>>, remembered: seq<nat>, ghost extra: seq<nat>)
    returns (next: nat, tail: nat, reports: seq<seq<nat>>, lasts: seq<nat>, ghost more: seq<nat>)
    requires Searchable(r, cov, twices, needles, longest) && cursor < r.end
    requires snapshot.Length == CHUNK_SIZE + longest - 1
    requires AtChunk(r, cov, longest, cursor, carry, snapshot[..])
    requires AllStanding(r, cov, twices, needles, cursor, extra, before, remembered)
    modifies snapshot
    ensures next == cursor + Requested(r, cursor) && AtChunk(r, cov, longest, next, tail, snapshot[..])
    ensures AllStanding(r, cov, twices, needles, cursor + Requested(r, cursor), more, reports, lasts)
  {
    var ok := NextWindow(r, cov, longest, cursor, carry, snapshot);
    if ok {
      reports, lasts, more := SearchAll(r, cov, twices, needles, longest, cursor, carry, snapshot, before,
          remembered, extra);
      next, tail := CarryOver(r, cov, longest, cursor, carry, snapshot);
    } else {
      AllMiss(r, cov, twices, needles, longest, cursor, carry, extra, before, remembered);
      next, tail := cursor + Requested(r, cursor), 0;
      reports, lasts, more := before, remembered, extra;
    }
  }

  lemma {:induction false} StartsAll(
    r: Region, cov: iset<int>, twices: seq<iset<int>>, needles: seq<seq<Byte>>, longest: nat, extras: seq<nat>,
    reports: seq<seq<nat>>, lasts: seq<nat>)
    requires 0 < longest && r.begin <= r.end && Searchable(r, cov, twices, needles, longest)
    requires |extras| == |reports| == |lasts| == |needles|
    requires forall p :: 0 <= p < |needles| ==> extras[p] == 0 && reports[p] == [] && lasts[p] == 0
    ensures WindowAt(r, cov, longest, r.begin, 0)
    ensures AllStanding(r, cov, twices, needles, r.begin, extras, reports, lasts)
  {
    forall p | 0 <= p < |needles|
      ensures Standing(r, cov, twices[p], needles[p], r.begin, extras[p], reports[p], lasts[p])
    {
      StartsStanding(r, cov, twices[p], needles[p], longest);
    }
  }

  method SearchRegion(
    r: Region, ghost cov: iset<int>, ghost twices: seq<iset<int>>, needles: seq<seq<Byte>>, longest: nat)
    returns (reports: seq<seq<nat>>, lasts: seq<nat>, ghost extras: seq<nat>)
    requires r.begin <= r.end && 0 < longest && Searchable(r, cov, twices, needles, longest)
    requires CoversFrom(r, cov, r.begin)
    ensures AllStanding(r, cov, twices, needles, r.end, extras, reports, lasts)
  {
    var snapshot := new Byte[CHUNK_SIZE + longest - 1];
    var cursor, carry := r.begin, 0;
    reports, lasts, extras := seq(|needles|, _ => []), seq(|needles|, _ => 0), seq(|needles|, _ => 0);
    StartsAll(r, cov, twices, needles, longest, extras, reports, lasts);
    while cursor < r.end
      invariant AtChunk(r, cov, longest, cursor, carry, snapshot[..])
      invariant AllStanding(r, cov, twices, needles, cursor, extras, reports, lasts)
      decreases r.end - cursor
    {
      cursor, carry, reports, lasts, extras :=
        SearchChunk(r, cov, twices, needles, longest, cursor, carry, snapshot, reports, lasts, extras);
    }
  }

  /** All needles in one pass, one address remembered for each. */
  method FindPatterns(r: Region, needles: seq<seq<Byte>>) returns (reports: seq<seq<nat>>)
    requires 0 < r.begin <= r.end && forall p :: 0 <= p < |needles| ==> needles[p] != []
    ensures |reports| == |needles|
    ensures forall p :: 0 <= p < |needles| ==> ReportsMean(r, needles[p], Longest(needles), reports[p])
  {
    var longest := Longest(needles);
    if longest == 0 {
      return [];
    }
    ghost var extras, lasts;
    ghost var twices := AllDoubleCarries(r, CoveredBytes(r), needles, longest);
    reports, lasts, extras := SearchRegion(r, CoveredBytes(r), twices, needles, longest);
    forall p | 0 <= p < |needles|
      ensures ReportsMean(r, needles[p], longest, reports[p])
    {
      StandingMeans(r, needles[p], longest, extras[p], reports[p], lasts[p]);
    }
  }

  // ----- when nothing is reported twice

  /** No proper prefix of the needle is also its suffix. */
  predicate Unbordered(needle: seq<Byte>) {
    forall n :: 0 < n < |needle| ==> needle[..n] != needle[|needle| - n..]
  }

  lemma {:induction false} OverlapIsBorder(r: Region, needle: seq<Byte>, a: nat, b: nat)
    requires a < b < a + |needle| && OccursAt(r, needle, a) && OccursAt(r, needle, b)
    ensures !Unbordered(needle)
  {
    var n := a + |needle| - b;
    forall i | 0 <= i < n
      ensures needle[i] == needle[|needle| - n + i]
    {
      assert r.contents(b + i) == needle[i];
      assert r.contents(a + (b - a + i)) == needle[b - a + i];
    }
    assert needle[..n] == needle[|needle| - n..];
  }

  /** An unbordered needle of at least half the longest length is never carried twice, so it is reported
      exactly once wherever it occurs. */
  lemma {:induction false} UnborderedIsNeverCarriedTwice(r: Region, cov: iset<int>, needle: seq<Byte>, longest: nat)
    requires needle != [] && Unbordered(needle) && 2 * |needle| >= longest
    ensures NeverCarriedTwice(r, cov, needle, longest)
  {
    forall c: nat, a: nat, b: nat | a < b
      && CarriedInto(r, cov, needle, longest, c, a) && CarriedInto(r, cov, needle, longest, c, b)
      ensures false
    {
      OverlapIsBorder(r, needle, a, b);
    }
  }

  // ----- a needle that is reported twice

  /** Zeros only, all readable, one chunk and one byte long. */
  const ZEROS: Region := Region(1, CHUNK_SIZE + 2, _ => 0, (_, _) => true)

  /** A short needle beside a longer one. */
  const SHORT_AND_LONG: seq<seq<Byte>> := [[0], [1, 1, 1]]

  lemma {:induction false} ZerosCovered(x: nat)
    requires 1 <= x < CHUNK_SIZE + 2
    ensures x in CoveredBytes(ZEROS)
  {
    assert Requested(ZEROS, 1) == CHUNK_SIZE && Requested(ZEROS, 1 + CHUNK_SIZE) == 1;
    assert CoveredFrom(ZEROS, 1 + CHUNK_SIZE, 1 + CHUNK_SIZE);
  }

  lemma {:induction false} ZeroCarried(a: nat)
    requires CHUNK_SIZE - 1 <= a <= CHUNK_SIZE
    ensures CarriedInto(ZEROS, CoveredBytes(ZEROS), [0], 3, CHUNK_SIZE + 1, a)
  {
    forall x | a <= x < CHUNK_SIZE + 1
      ensures x in CoveredBytes(ZEROS)
    {
      ZerosCovered(x);
    }
  }

  /** Two zeros are carried into the second chunk, and only one address is remembered: the reports of the short
      needle are not the list of its occurrences. */
  lemma {:induction false} ZerosReportedTwice(reports: seq<nat>)
    requires ReportsMean(ZEROS, [0], Longest(SHORT_AND_LONG), reports)
    ensures Longest(SHORT_AND_LONG) == 3 && !NeverCarriedTwice(ZEROS, CoveredBytes(ZEROS), [0], 3)
    ensures reports != AllOccurrences(ZEROS, CoveredBytes(ZEROS), [0])
  {
    assert SHORT_AND_LONG[..1] == [[0]] && [[0]][..0] == [] && Longest([[0]]) == 1;
    var c: nat := CHUNK_SIZE + 1;
    ZeroCarried(c - 2);
    ZeroCarried(c - 1);
    ZerosCovered(c);
    assert CarriedTwice(ZEROS, CoveredBytes(ZEROS), [0], 3, c);
  }
}
