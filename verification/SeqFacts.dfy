/** Extensional facts about sequences, proved once away from everything else. */
module SeqFacts {
  lemma {:induction false} TakePush<T>(done: seq<T>, s: seq<T>, i: nat)
    requires i < |s|
    ensures done + s[..i + 1] == done + s[..i] + [s[i]]
    ensures s[..i + 1] == s[..i] + [s[i]]
  {
  }

  lemma {:induction false} TakeRest<T>(done: seq<T>, s: seq<T>, i: nat)
    requires i < |s|
    ensures done + s == done + s[..i] + [s[i]] + s[i + 1..]
  {
  }

  lemma {:induction false} TakeAll<T>(s: seq<T>)
    ensures s[..|s|] == s
  {
  }

  lemma {:induction false} TakeTake<T>(s: seq<T>, i: nat)
    requires i < |s|
    ensures s[..i + 1][..i] == s[..i] && s[..i + 1][i] == s[i]
  {
  }

  lemma {:induction false} Associate<T>(a: seq<T>, b: seq<T>, c: seq<T>)
    ensures a + (b + c) == a + b + c
  {
  }

  lemma {:induction false} PushFront<T>(s: seq<T>, x: T)
    ensures (s + [x])[..|s|] == s && |s + [x]| == |s| + 1 && (s + [x])[|s|] == x
  {
  }

  lemma {:induction false} TakeOut<T>(t: seq<T>, x: T) returns (k: nat)
    requires x in multiset(t)
    ensures k < |t| && t[k] == x && t == t[..k] + [x] + t[k + 1..]
    ensures multiset(t[..k] + t[k + 1..]) == multiset(t) - multiset{x}
  {
    k :| 0 <= k < |t| && t[k] == x;
    assert t == t[..k] + [x] + t[k + 1..];
    assert multiset(t[..k] + [x] + t[k + 1..]) == multiset(t[..k] + t[k + 1..]) + multiset{x};
  }

  function Map<T, U>(f: T -> U, s: seq<T>): (r: seq<U>)
    ensures |r| == |s| && forall i :: 0 <= i < |s| ==> r[i] == f(s[i])
  {
    seq(|s|, i requires 0 <= i < |s| => f(s[i]))
  }

  lemma {:induction false} MapConcat<T, U>(f: T -> U, a: seq<T>, b: seq<T>)
    ensures Map(f, a + b) == Map(f, a) + Map(f, b)
  {
  }

  /** Mapping permuted sequences gives permuted sequences. */
  lemma {:induction false} MapBag<T, U>(f: T -> U, s: seq<T>, t: seq<T>)
    requires multiset(s) == multiset(t)
    ensures multiset(Map(f, s)) == multiset(Map(f, t))
  {
    if s == [] {
      assert |multiset(t)| == |t|;
    } else {
      var front, x := s[..|s| - 1], s[|s| - 1];
      assert s == front + [x];
      assert x in multiset(s);
      var k := TakeOut(t, x);
      var left, right := t[..k], t[k + 1..];
      MapBag(f, front, left + right);
      MapConcat(f, front, [x]);
      MapConcat(f, left, right);
      MapConcat(f, left, [x]);
      MapConcat(f, left + [x], right);
    }
  }
}
