/** Sorting a transaction's pending changes and grouping them by row. */
module PendingChanges {
  import opened CatalogState
  import opened RecordAccess
  import SeqFacts

  datatype PendingChange = PendingChange(handle: TableHandle, row: nat, change: FieldChange)

  datatype Group = Group(handle: TableHandle, row: nat, changes: seq<FieldChange>)

  predicate KeyLess(a: PendingChange, b: PendingChange) {
    a.handle.uniqueId < b.handle.uniqueId || (a.handle.uniqueId == b.handle.uniqueId && a.row < b.row)
  }

  predicate SameKey(a: PendingChange, b: PendingChange) {
    a.handle.uniqueId == b.handle.uniqueId && a.row == b.row
  }

  predicate Sorted(s: seq<PendingChange>) {
    forall i, j :: 0 <= i < j < |s| ==> !KeyLess(s[j], s[i])
  }

  lemma {:induction false} InsertionSorted(front: seq<PendingChange>, x: PendingChange, back: seq<PendingChange>)
    requires Sorted(front + back)
    requires forall k :: 0 <= k < |front| ==> !KeyLess(x, front[k])
    requires back != [] ==> KeyLess(x, back[0])
    ensures Sorted(front + [x] + back)
  {
    var s, r := front + back, front + [x] + back;
    forall i, j | 0 <= i < j < |r|
      ensures !KeyLess(r[j], r[i])
    {
      var a := if i < |front| then i else i - 1;
      var b := if j < |front| then j else j - 1;
      if i != |front| && j != |front| {
        assert !KeyLess(s[b], s[a]);
      } else if i == |front| && back != [] {
        assert b == |front| || !KeyLess(s[b], s[|front|]);
      }
    }
  }

  method InsertPending(sorted: seq<PendingChange>, x: PendingChange) returns (result: seq<PendingChange>)
    requires Sorted(sorted)
    ensures Sorted(result) && multiset(result) == multiset(sorted) + multiset{x}
  {
    var place := 0;
    while place < |sorted| && !KeyLess(x, sorted[place])
      invariant place <= |sorted|
      invariant forall k :: 0 <= k < place ==> !KeyLess(x, sorted[k])
    {
      place := place + 1;
    }
    result := sorted[..place] + [x] + sorted[place..];
    assert sorted == sorted[..place] + sorted[place..];
    InsertionSorted(sorted[..place], x, sorted[place..]);
  }

  /** Any sort by key: nothing below depends on the order of changes with one key. */
  method SortPending(pending: seq<PendingChange>) returns (sorted: seq<PendingChange>)
    ensures Sorted(sorted) && multiset(sorted) == multiset(pending)
  {
    sorted := [];
    for i := 0 to |pending|
      invariant Sorted(sorted) && multiset(sorted) == multiset(pending[..i])
    {
      SeqFacts.TakePush([], pending, i);
      sorted := InsertPending(sorted, pending[i]);
    }
    SeqFacts.TakeAll(pending);
  }

  // ----- groups

  function Expand(g: Group): seq<PendingChange> {
    SeqFacts.Map(change => PendingChange(g.handle, g.row, change), g.changes)
  }

  function Flatten(groups: seq<Group>): seq<PendingChange> {
    if groups == [] then [] else Flatten(groups[..|groups| - 1]) + Expand(groups[|groups| - 1])
  }

  /** What a change asks for, under whichever generation it was asked. */
  datatype Wish = Wish(uniqueId: nat, row: nat, change: FieldChange)

  function WishOf(p: PendingChange): Wish {
    Wish(p.handle.uniqueId, p.row, p.change)
  }

  function Wishes(s: seq<PendingChange>): (wishes: seq<Wish>)
    ensures |wishes| == |s| && forall i :: 0 <= i < |s| ==> wishes[i] == WishOf(s[i])
  {
    seq(|s|, i requires 0 <= i < |s| => WishOf(s[i]))
  }

  predicate GroupKeyLess(a: Group, b: Group) {
    a.handle.uniqueId < b.handle.uniqueId || (a.handle.uniqueId == b.handle.uniqueId && a.row < b.row)
  }

  /** Every (table, row) has one group, and every group has a change. */
  predicate Ascending(groups: seq<Group>) {
    && (forall i, j :: 0 <= i < j < |groups| ==> GroupKeyLess(groups[i], groups[j]))
    && forall i :: 0 <= i < |groups| ==> groups[i].changes != []
  }

  predicate SameGeneration(s: seq<PendingChange>, generation: nat) {
    forall i :: 0 <= i < |s| ==> s[i].handle.generation == generation
  }

  /** The groups of a sorted list up to `cursor`; with one generation throughout they are the list itself. */
  ghost predicate GroupedUpTo(sorted: seq<PendingChange>, cursor: nat, groups: seq<Group>) {
    && cursor <= |sorted| && Ascending(groups) && (cursor == 0 <==> groups == [])
    && (groups != [] ==>
      var last := groups[|groups| - 1];
      && last.handle.uniqueId == sorted[cursor - 1].handle.uniqueId && last.row == sorted[cursor - 1].row
      && (cursor < |sorted| ==> KeyLess(sorted[cursor - 1], sorted[cursor])))
    && Wishes(Flatten(groups)) == Wishes(sorted[..cursor])
    && forall g: nat :: SameGeneration(sorted, g) ==> Flatten(groups) == sorted[..cursor]
  }

  /** The group is the whole run of changes of one row from `i` to `j`. */
  predicate RunOf(sorted: seq<PendingChange>, i: nat, j: nat, g: Group) {
    && i < j <= |sorted| && |g.changes| == j - i && g.handle == sorted[i].handle && g.row == sorted[i].row
    && (forall k :: i <= k < j ==> SameKey(sorted[i], sorted[k]) && g.changes[k - i] == sorted[k].change)
    && (i > 0 ==> !SameKey(sorted[i - 1], sorted[i])) && (j < |sorted| ==> !SameKey(sorted[i], sorted[j]))
  }

  ghost predicate IsGroup(sorted: seq<PendingChange>, g: Group) {
    exists i: nat, j: nat :: RunOf(sorted, i, j, g)
  }

  /** The inner loop: the run of changes of one row. */
  method TakeGroup(sorted: seq<PendingChange>, cursor: nat) returns (group: Group, next: nat)
    requires Sorted(sorted) && cursor < |sorted|
    ensures cursor < next <= |sorted| && |group.changes| == next - cursor
    ensures group.handle == sorted[cursor].handle && group.row == sorted[cursor].row
    ensures forall i :: cursor <= i < next ==>
      SameKey(sorted[cursor], sorted[i]) && group.changes[i - cursor] == sorted[i].change
    ensures next < |sorted| ==> KeyLess(sorted[cursor], sorted[next])
  {
    var handle, row := sorted[cursor].handle, sorted[cursor].row;
    var changes: seq<FieldChange> := [];
    next := cursor;
    while next < |sorted| && sorted[next].handle.uniqueId == handle.uniqueId && sorted[next].row == row
      invariant cursor <= next <= |sorted| && |changes| == next - cursor
      invariant forall i :: cursor <= i < next ==>
        SameKey(sorted[cursor], sorted[i]) && changes[i - cursor] == sorted[i].change
      decreases |sorted| - next
    {
      changes := changes + [sorted[next].change];
      next := next + 1;
    }
    group := Group(handle, row, changes);
  }

  lemma {:induction false} WishesTaken(
    sorted: seq<PendingChange>, cursor: nat, groups: seq<Group>, group: Group, next: nat)
    requires cursor < next <= |sorted| && Wishes(Flatten(groups)) == Wishes(sorted[..cursor])
    requires group.handle == sorted[cursor].handle && group.row == sorted[cursor].row
    requires |group.changes| == next - cursor
    requires forall i :: cursor <= i < next ==>
      SameKey(sorted[cursor], sorted[i]) && group.changes[i - cursor] == sorted[i].change
    ensures Wishes(Flatten(groups + [group])) == Wishes(sorted[..next])
  {
    SeqFacts.PushFront(groups, group);
    var before, own := Flatten(groups), Expand(group);
    assert Flatten(groups + [group]) == before + own;
    assert |before| == |Wishes(before)| == cursor && |own| == next - cursor;
    forall k | 0 <= k < next
      ensures WishOf((before + own)[k]) == WishOf(sorted[k])
    {
      if k < cursor {
        assert Wishes(before)[k] == Wishes(sorted[..cursor])[k];
      } else {
        assert own[k - cursor] == PendingChange(group.handle, group.row, group.changes[k - cursor]);
        assert SameKey(sorted[cursor], sorted[k]);
      }
    }
  }

  /** Of one generation the changes of a row make up its group. */
  lemma {:induction false} OwnTaken(sorted: seq<PendingChange>, cursor: nat, group: Group, next: nat, g: nat)
    requires cursor < next <= |sorted| && SameGeneration(sorted, g)
    requires group.handle == sorted[cursor].handle && group.row == sorted[cursor].row
    requires |group.changes| == next - cursor
    requires forall i :: cursor <= i < next ==>
      SameKey(sorted[cursor], sorted[i]) && group.changes[i - cursor] == sorted[i].change
    ensures sorted[..cursor] + Expand(group) == sorted[..next]
  {
    forall i | 0 <= i < next - cursor
      ensures Expand(group)[i] == sorted[cursor..next][i]
    {
      assert SameKey(sorted[cursor], sorted[cursor + i]) && group.changes[i] == sorted[cursor + i].change;
    }
    assert sorted[..next] == sorted[..cursor] + sorted[cursor..next];
  }

  lemma {:induction false} GroupTaken(
    sorted: seq<PendingChange>, cursor: nat, groups: seq<Group>, group: Group, next: nat)
    requires Sorted(sorted) && cursor < next <= |sorted| && GroupedUpTo(sorted, cursor, groups)
    requires group.handle == sorted[cursor].handle && group.row == sorted[cursor].row
    requires |group.changes| == next - cursor
    requires forall i :: cursor <= i < next ==>
      SameKey(sorted[cursor], sorted[i]) && group.changes[i - cursor] == sorted[i].change
    requires next < |sorted| ==> KeyLess(sorted[cursor], sorted[next])
    ensures GroupedUpTo(sorted, next, groups + [group])
  {
    SeqFacts.PushFront(groups, group);
    WishesTaken(sorted, cursor, groups, group, next);
    assert SameKey(sorted[cursor], sorted[next - 1]);
    forall g: nat | SameGeneration(sorted, g)
      ensures Flatten(groups + [group]) == sorted[..next]
    {
      OwnTaken(sorted, cursor, group, next, g);
    }
  }

  lemma {:induction false} WishBag(s: seq<PendingChange>, t: seq<PendingChange>)
    requires multiset(s) == multiset(t)
    ensures multiset(Wishes(s)) == multiset(Wishes(t))
  {
    SeqFacts.MapBag(WishOf, s, t);
    assert SeqFacts.Map(WishOf, s) == Wishes(s);
    assert SeqFacts.Map(WishOf, t) == Wishes(t);
  }

  /** Whatever the generations, the groups ask for exactly what the pending changes ask for. */
  lemma {:induction false} NoWishLost(pending: seq<PendingChange>, sorted: seq<PendingChange>, groups: seq<Group>)
    requires multiset(sorted) == multiset(pending) && GroupedUpTo(sorted, |sorted|, groups)
    ensures multiset(Wishes(Flatten(groups))) == multiset(Wishes(pending)) && Ascending(groups)
  {
    SeqFacts.TakeAll(sorted);
    WishBag(sorted, pending);
  }

  lemma {:induction false} NothingLost(
    pending: seq<PendingChange>, sorted: seq<PendingChange>, groups: seq<Group>, generation: nat)
    requires multiset(sorted) == multiset(pending) && GroupedUpTo(sorted, |sorted|, groups)
    requires SameGeneration(pending, generation)
    ensures multiset(Flatten(groups)) == multiset(pending) && Ascending(groups)
  {
    forall i | 0 <= i < |sorted|
      ensures sorted[i].handle.generation == generation
    {
      assert sorted[i] in multiset(sorted);
      assert sorted[i] in pending;
    }
    assert SameGeneration(sorted, generation);
    SeqFacts.TakeAll(sorted);
  }
}
