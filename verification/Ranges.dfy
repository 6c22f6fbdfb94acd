/** Half-open address ranges: sorting, disjointness, and why testing neighbours is enough. */
module Ranges {
  datatype Range = Range(begin: int, end: int)

  predicate Apart(a: Range, b: Range) {
    a.end <= b.begin || b.end <= a.begin
  }

  predicate AllNonEmpty(ranges: seq<Range>) {
    forall i :: 0 <= i < |ranges| ==> ranges[i].begin < ranges[i].end
  }

  predicate PairwiseApart(ranges: seq<Range>) {
    forall i, j :: 0 <= i < j < |ranges| ==> Apart(ranges[i], ranges[j])
  }

  predicate SortedByBegin(ranges: seq<Range>) {
    forall i, j :: 0 <= i < j < |ranges| ==> ranges[i].begin <= ranges[j].begin
  }

  /** The order of the finaliser's sort: by begin, then by end. */
  predicate LexLeq(a: Range, b: Range) {
    a.begin < b.begin || (a.begin == b.begin && a.end <= b.end)
  }

  predicate SortedLex(ranges: seq<Range>) {
    forall i, j :: 0 <= i < j < |ranges| ==> LexLeq(ranges[i], ranges[j])
  }

  /** Disjointness stated on the bag of ranges alone, so that no order can matter. */
  ghost predicate ApartBag(bag: multiset<Range>) {
    && (forall x :: x in bag ==> bag[x] == 1)
    && (forall x, y :: x in bag && y in bag && x != y ==> Apart(x, y))
  }

  lemma {:induction false} RepeatedIndices(s: seq<Range>, x: Range)
    ensures multiset(s)[x] >= 2 <==> exists i, j :: 0 <= i < j < |s| && s[i] == x && s[j] == x
    ensures multiset(s)[x] >= 1 <==> x in s
  {
    if s != [] {
      var rest := s[..|s| - 1];
      assert s == rest + [s[|s| - 1]];
      RepeatedIndices(rest, x);
      if multiset(s)[x] >= 2 && s[|s| - 1] == x {
        var i :| 0 <= i < |rest| && rest[i] == x;
        assert s[i] == x && i < |s| - 1;
      } else if multiset(s)[x] >= 2 {
        var i, j :| 0 <= i < j < |rest| && rest[i] == x && rest[j] == x;
        assert s[i] == x && s[j] == x;
      }
      if i, j :| 0 <= i < j < |s| && s[i] == x && s[j] == x {
        assert rest[i] == x;
        if j < |rest| {
          assert rest[j] == x;
        }
      }
    }
  }

  lemma {:induction false} PairwiseApartIsOrderFree(s: seq<Range>)
    requires AllNonEmpty(s)
    ensures PairwiseApart(s) <==> ApartBag(multiset(s))
  {
    forall x | x in multiset(s) && PairwiseApart(s)
      ensures multiset(s)[x] == 1
    {
      RepeatedIndices(s, x);
    }
    if ApartBag(multiset(s)) {
      forall i, j | 0 <= i < j < |s|
        ensures Apart(s[i], s[j])
      {
        RepeatedIndices(s, s[i]);
        assert s[i] in multiset(s) && s[j] in multiset(s);
      }
    }
  }

  predicate NeighboursApart(s: seq<Range>, i: int)
    requires 1 <= i < |s|
  {
    s[i - 1].end <= s[i].begin
  }

  /** Sorted by begin with nothing empty, the neighbour test decides pairwise disjointness. */
  lemma {:induction false} NeighboursSuffice(s: seq<Range>)
    requires SortedByBegin(s) && AllNonEmpty(s)
    ensures PairwiseApart(s) <==> forall i :: 1 <= i < |s| ==> NeighboursApart(s, i)
  {
    if forall i :: 1 <= i < |s| ==> NeighboursApart(s, i) {
      forall i, j | 0 <= i < j < |s|
        ensures Apart(s[i], s[j])
      {
        assert NeighboursApart(s, i + 1);
      }
    }
    if PairwiseApart(s) {
      forall i | 1 <= i < |s|
        ensures NeighboursApart(s, i)
      {
        assert Apart(s[i - 1], s[i]);
      }
    }
  }

  lemma {:induction false} InsertionBag(front: seq<Range>, x: Range, back: seq<Range>)
    ensures multiset(front + [x] + back) == multiset(front + back) + multiset{x}
  {
  }

  lemma {:induction false} InsertionKeepsBegins(front: seq<Range>, x: Range, back: seq<Range>)
    requires SortedByBegin(front + back)
    requires forall i :: 0 <= i < |front| ==> front[i].begin <= x.begin
    requires back != [] ==> x.begin <= back[0].begin
    ensures SortedByBegin(front + [x] + back)
  {
    var s, t := front + back, front + [x] + back;
    forall i, j | 0 <= i < j < |t|
      ensures t[i].begin <= t[j].begin
    {
      var i', j' := if i <= |front| then i else i - 1, if j <= |front| then j else j - 1;
      assert i != |front| ==> t[i] == s[i'];
      assert j != |front| ==> t[j] == s[j'];
      assert back != [] ==> s[|front|] == back[0];
    }
  }

  method InsertByBegin(sorted: seq<Range>, x: Range) returns (result: seq<Range>)
    requires SortedByBegin(sorted)
    ensures SortedByBegin(result) && multiset(result) == multiset(sorted) + multiset{x}
  {
    var place := 0;
    while place < |sorted| && sorted[place].begin < x.begin
      invariant 0 <= place <= |sorted|
      invariant forall k :: 0 <= k < place ==> sorted[k].begin < x.begin
    {
      place := place + 1;
    }
    assert sorted == sorted[..place] + sorted[place..];
    InsertionBag(sorted[..place], x, sorted[place..]);
    InsertionKeepsBegins(sorted[..place], x, sorted[place..]);
    result := sorted[..place] + [x] + sorted[place..];
  }

  /** A sort whose contract leaves the order of ties open, like the library sort it stands for. */
  method SortByBegin(ranges: seq<Range>) returns (sorted: seq<Range>)
    ensures SortedByBegin(sorted) && multiset(sorted) == multiset(ranges)
  {
    sorted := [];
    for n := 0 to |ranges|
      invariant SortedByBegin(sorted)
      invariant multiset(sorted) == multiset(ranges[..n])
    {
      assert ranges[..n + 1] == ranges[..n] + [ranges[n]];
      sorted := InsertByBegin(sorted, ranges[n]);
    }
    assert ranges[..|ranges|] == ranges;
  }

  method NeighbourOverlap(sorted: seq<Range>) returns (overlapping: bool)
    requires SortedByBegin(sorted) && AllNonEmpty(sorted)
    ensures overlapping <==> !PairwiseApart(sorted)
  {
    NeighboursSuffice(sorted);
    var index := 1;
    while index < |sorted|
      invariant 1 <= index
      invariant forall i :: 1 <= i < index && i < |sorted| ==> NeighboursApart(sorted, i)
    {
      if sorted[index].begin < sorted[index - 1].end {
        return true;
      }
      index := index + 1;
    }
    overlapping := false;
  }

  /** The sort and the neighbour test decide disjointness, whatever order the sort gives to ties. */
  method AnyOverlap(ranges: seq<Range>) returns (overlapping: bool)
    requires AllNonEmpty(ranges)
    ensures overlapping <==> !PairwiseApart(ranges)
  {
    var sorted := SortByBegin(ranges);
    forall i | 0 <= i < |sorted|
      ensures sorted[i].begin < sorted[i].end
    {
      assert sorted[i] in multiset(ranges);
    }
    PairwiseApartIsOrderFree(ranges);
    PairwiseApartIsOrderFree(sorted);
    assert PairwiseApart(ranges) <==> PairwiseApart(sorted);
    overlapping := NeighbourOverlap(sorted);
  }

  function InsertLex(x: Range, sorted: seq<Range>): (result: seq<Range>)
    ensures |result| == |sorted| + 1
    ensures result[0] == x || (sorted != [] && result[0] == sorted[0])
  {
    if sorted == [] || LexLeq(x, sorted[0]) then [x] + sorted
    else [sorted[0]] + InsertLex(x, sorted[1..])
  }

  lemma {:induction false} InsertLexBag(x: Range, sorted: seq<Range>)
    ensures multiset(InsertLex(x, sorted)) == multiset(sorted) + multiset{x}
  {
    if sorted != [] && !LexLeq(x, sorted[0]) {
      InsertLexBag(x, sorted[1..]);
      assert sorted == [sorted[0]] + sorted[1..];
    }
  }

  /** Sortedness read off neighbours, which is what insertion changes. */
  lemma {:induction false} LexFromNeighbours(s: seq<Range>)
    requires forall i {:trigger s[i]} :: 1 <= i < |s| ==> LexLeq(s[i - 1], s[i])
    ensures SortedLex(s)
  {
    if s != [] {
      var rest := s[1..];
      forall i {:trigger rest[i]} | 1 <= i < |rest|
        ensures LexLeq(rest[i - 1], rest[i])
      {
        assert LexLeq(s[i], s[i + 1]);
      }
      LexFromNeighbours(rest);
      forall i, j | 0 <= i < j < |s|
        ensures LexLeq(s[i], s[j])
      {
        assert s[j] == rest[j - 1];
        if i > 0 {
          assert s[i] == rest[i - 1];
        } else {
          assert LexLeq(s[0], s[1]) && s[1] == rest[0];
        }
      }
    }
  }

  lemma {:induction false} InsertLexSorts(x: Range, sorted: seq<Range>)
    requires SortedLex(sorted)
    ensures SortedLex(InsertLex(x, sorted))
  {
    var result := InsertLex(x, sorted);
    if sorted != [] && !LexLeq(x, sorted[0]) {
      InsertLexSorts(x, sorted[1..]);
      var rest := InsertLex(x, sorted[1..]);
      assert result == [sorted[0]] + rest;
      assert LexLeq(sorted[0], rest[0]);
      forall i {:trigger result[i]} | 1 <= i < |result|
        ensures LexLeq(result[i - 1], result[i])
      {
        if i > 1 {
          assert LexLeq(rest[i - 2], rest[i - 1]);
        }
      }
    } else {
      forall i {:trigger result[i]} | 1 <= i < |result|
        ensures LexLeq(result[i - 1], result[i])
      {
        assert i > 1 ==> LexLeq(sorted[i - 2], sorted[i - 1]);
      }
    }
    LexFromNeighbours(result);
  }

  function SortLex(ranges: seq<Range>): (sorted: seq<Range>)
    ensures SortedLex(sorted) && multiset(sorted) == multiset(ranges)
  {
    if ranges == [] then []
    else
      var last, front := ranges[|ranges| - 1], SortLex(ranges[..|ranges| - 1]);
      InsertLexBag(last, front);
      InsertLexSorts(last, front);
      assert ranges == ranges[..|ranges| - 1] + [last];
      InsertLex(last, front)
  }

  lemma {:induction false} FirstIsLeast(s: seq<Range>, x: Range)
    requires SortedLex(s) && x in multiset(s)
    ensures s != [] && LexLeq(s[0], x)
  {
  }

  lemma {:induction false} RestBags(x: Range, s: seq<Range>, t: seq<Range>)
    requires multiset([x] + s) == multiset([x] + t)
    ensures multiset(s) == multiset(t)
  {
    assert multiset([x] + s) - multiset{x} == multiset(s);
    assert multiset([x] + t) - multiset{x} == multiset(t);
  }

  /** The lexicographic order leaves no ties open: the sorted sequence depends on the bag alone. */
  lemma {:induction false} SortedLexIsUnique(s: seq<Range>, t: seq<Range>)
    requires SortedLex(s) && SortedLex(t) && multiset(s) == multiset(t)
    ensures s == t
  {
    if s == [] || t == [] {
      assert |s| == |multiset(s)| == |multiset(t)| == |t|;
    } else {
      assert s[0] in multiset(s) && t[0] in multiset(t);
      FirstIsLeast(t, s[0]);
      FirstIsLeast(s, t[0]);
      assert s == [s[0]] + s[1..] && t == [s[0]] + t[1..];
      RestBags(s[0], s[1..], t[1..]);
      SortedLexIsUnique(s[1..], t[1..]);
    }
  }

  // ----- merging

  /** One step of the finaliser's merge: a range that starts before the last component ends joins it; one
      that merely touches it starts a component of its own. */
  function Join(merged: seq<Range>, next: Range): seq<Range> {
    if merged == [] || next.begin >= merged[|merged| - 1].end then merged + [next]
    else
      var last := merged[|merged| - 1];
      merged[..|merged| - 1] + [Range(last.begin, if next.end > last.end then next.end else last.end)]
  }

  function Merge(sorted: seq<Range>): seq<Range> {
    if sorted == [] then [] else Join(Merge(sorted[..|sorted| - 1]), sorted[|sorted| - 1])
  }

  predicate Within(a: int, range: Range) {
    range.begin <= a < range.end
  }

  predicate CoveredBy(a: int, ranges: seq<Range>) {
    ranges != [] && (Within(a, ranges[|ranges| - 1]) || CoveredBy(a, ranges[..|ranges| - 1]))
  }

  lemma {:induction false} CoveredByIndex(a: int, ranges: seq<Range>)
    ensures CoveredBy(a, ranges) <==> exists i :: 0 <= i < |ranges| && Within(a, ranges[i])
  {
    if ranges != [] {
      var front := ranges[..|ranges| - 1];
      CoveredByIndex(a, front);
      if i :| 0 <= i < |front| && Within(a, front[i]) {
        assert Within(a, ranges[i]);
      }
      if i :| 0 <= i < |ranges| && Within(a, ranges[i]) {
        assert i < |front| ==> Within(a, front[i]);
      }
    }
  }

  /** Non-empty ranges, in order, none reaching into the next. */
  predicate Separated(ranges: seq<Range>) {
    && AllNonEmpty(ranges)
    && forall i, j :: 0 <= i < j < |ranges| ==> ranges[i].end <= ranges[j].begin
  }

  predicate Joinable(merged: seq<Range>, next: Range) {
    && Separated(merged) && next.begin < next.end
    && (merged != [] ==> merged[|merged| - 1].begin <= next.begin)
  }

  lemma {:induction false} JoinSeparates(merged: seq<Range>, next: Range)
    requires Joinable(merged, next)
    ensures var joined := Join(merged, next);
      Separated(joined) && joined != [] && joined[|joined| - 1].begin <= next.begin
  {
  }

  lemma {:induction false} JoinCovers(merged: seq<Range>, next: Range, a: int)
    requires Joinable(merged, next)
    ensures CoveredBy(a, Join(merged, next)) <==> CoveredBy(a, merged) || Within(a, next)
  {
  }

  lemma {:induction false} CoveredByPush(a: int, s: seq<Range>, x: Range)
    ensures CoveredBy(a, s + [x]) <==> CoveredBy(a, s) || Within(a, x)
  {
  }

  lemma {:induction false} CoveredByCons(a: int, x: Range, s: seq<Range>)
    ensures CoveredBy(a, [x] + s) <==> Within(a, x) || CoveredBy(a, s)
  {
    if s == [] {
      assert [x] + s == [] + [x];
      CoveredByPush(a, [], x);
    } else {
      var front, last := s[..|s| - 1], s[|s| - 1];
      CoveredByCons(a, x, front);
      assert [x] + s == [x] + front + [last];
      CoveredByPush(a, [x] + front, last);
    }
  }

  lemma {:induction false} MergeStep(sorted: seq<Range>)
    requires SortedByBegin(sorted) && AllNonEmpty(sorted) && sorted != []
    ensures var front := sorted[..|sorted| - 1];
      SortedByBegin(front) && AllNonEmpty(front)
      && (front != [] ==> front[|front| - 1].begin <= sorted[|sorted| - 1].begin)
  {
  }

  /** Merging sorted ranges yields separated components. */
  lemma {:induction false} MergeSeparates(sorted: seq<Range>)
    requires SortedByBegin(sorted) && AllNonEmpty(sorted)
    ensures Separated(Merge(sorted)) && (sorted != [] ==> Merge(sorted) != [])
    ensures sorted != [] ==> Merge(sorted)[|Merge(sorted)| - 1].begin <= sorted[|sorted| - 1].begin
    ensures sorted != [] ==> Joinable(Merge(sorted[..|sorted| - 1]), sorted[|sorted| - 1])
  {
    if sorted != [] {
      MergeStep(sorted);
      MergeSeparates(sorted[..|sorted| - 1]);
      JoinSeparates(Merge(sorted[..|sorted| - 1]), sorted[|sorted| - 1]);
    }
  }

  /** Merging neither adds nor loses an address. */
  lemma {:induction false} MergeCovers(sorted: seq<Range>, a: int)
    requires SortedByBegin(sorted) && AllNonEmpty(sorted)
    ensures CoveredBy(a, Merge(sorted)) <==> CoveredBy(a, sorted)
  {
    if sorted != [] {
      var front, next := sorted[..|sorted| - 1], sorted[|sorted| - 1];
      MergeStep(sorted);
      MergeSeparates(sorted);
      MergeCovers(front, a);
      JoinCovers(Merge(front), next, a);
    }
  }
}
