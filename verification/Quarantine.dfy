/** The quarantine closure of revalidation: a table goes when a table its relationships point at is gone. */
module Quarantine {
  import opened Bytes
  import opened Profile
  import opened CatalogState

  /** The unique id a relationship leads to, if its target table is installed. */
  function TargetOf(entries: seq<Entry>, r: RelationshipConstraint): Option<nat> {
    var target := FindByTableId(entries, r.targetTableId);
    if target.None? then None else Some(target.value.descriptor.uniqueId)
  }

  predicate PointsInto(entries: seq<Entry>, r: RelationshipConstraint, gone: set<nat>) {
    var target := TargetOf(entries, r);
    target.None? || target.value in gone
  }

  predicate Drags(entries: seq<Entry>, e: Entry, gone: set<nat>) {
    exists i :: 0 <= i < |e.profile.relationships| && PointsInto(entries, e.profile.relationships[i], gone)
  }

  /** A relationship path of at most `n` steps leads from the table to a failed or a missing one. */
  ghost predicate ReachesIn(entries: seq<Entry>, failed: set<nat>, uniqueId: nat, n: nat)
    decreases n, 0
  {
    || uniqueId in failed
    || (n > 0 && exists e :: e in entries && e.descriptor.uniqueId == uniqueId
                   && exists r :: r in e.profile.relationships && LeadsIn(entries, failed, r, n - 1))
  }

  ghost predicate LeadsIn(entries: seq<Entry>, failed: set<nat>, r: RelationshipConstraint, n: nat)
    decreases n, 1
  {
    var target := TargetOf(entries, r);
    target.None? || ReachesIn(entries, failed, target.value, n)
  }

  ghost predicate Reaches(entries: seq<Entry>, failed: set<nat>, uniqueId: nat) {
    exists n: nat :: ReachesIn(entries, failed, uniqueId, n)
  }

  ghost predicate Closed(entries: seq<Entry>, gone: set<nat>) {
    forall i :: 0 <= i < |entries| && Drags(entries, entries[i], gone) ==> entries[i].descriptor.uniqueId in gone
  }

  lemma {:induction false} LeadingEntryReaches(
    entries: seq<Entry>, failed: set<nat>, e: Entry, r: RelationshipConstraint, n: nat)
    requires e in entries && r in e.profile.relationships && LeadsIn(entries, failed, r, n)
    ensures Reaches(entries, failed, e.descriptor.uniqueId)
  {
    assert LeadsIn(entries, failed, r, n + 1 - 1);
    assert ReachesIn(entries, failed, e.descriptor.uniqueId, n + 1);
  }

  lemma {:induction false} DraggedReaches(entries: seq<Entry>, failed: set<nat>, e: Entry, gone: set<nat>)
    requires e in entries && Drags(entries, e, gone)
    requires forall u :: u in gone ==> Reaches(entries, failed, u)
    ensures Reaches(entries, failed, e.descriptor.uniqueId)
  {
    var i :| 0 <= i < |e.profile.relationships| && PointsInto(entries, e.profile.relationships[i], gone);
    var r := e.profile.relationships[i];
    var target := TargetOf(entries, r);
    var n: nat := 0;
    if target.Some? {
      n :| ReachesIn(entries, failed, target.value, n);
    }
    LeadingEntryReaches(entries, failed, e, r, n);
  }

  /** Any closed set that holds the failed tables holds every table that reaches one. */
  lemma {:induction false} ClosedHoldsReaching(
    entries: seq<Entry>, failed: set<nat>, gone: set<nat>, uniqueId: nat, n: nat)
    requires Closed(entries, gone) && failed <= gone && ReachesIn(entries, failed, uniqueId, n)
    ensures uniqueId in gone
    decreases n
  {
    if uniqueId !in failed {
      var e :| e in entries && e.descriptor.uniqueId == uniqueId
        && exists r :: r in e.profile.relationships && LeadsIn(entries, failed, r, n - 1);
      var r :| r in e.profile.relationships && LeadsIn(entries, failed, r, n - 1);
      if TargetOf(entries, r).Some? {
        ClosedHoldsReaching(entries, failed, gone, TargetOf(entries, r).value, n - 1);
      }
      var i :| 0 <= i < |e.profile.relationships| && e.profile.relationships[i] == r;
      assert PointsInto(entries, e.profile.relationships[i], gone);
      assert Drags(entries, e, gone);
    }
  }

  lemma {:induction false} FailedReach(entries: seq<Entry>, failed: set<nat>)
    ensures forall u :: u in failed ==> Reaches(entries, failed, u)
  {
    forall u | u in failed
      ensures Reaches(entries, failed, u)
    {
      assert ReachesIn(entries, failed, u, 0);
    }
  }

  method AnyDrags(entries: seq<Entry>, e: Entry, gone: set<nat>) returns (dragged: bool)
    ensures dragged <==> Drags(entries, e, gone)
  {
    for i := 0 to |e.profile.relationships|
      invariant forall j :: 0 <= j < i ==> !PointsInto(entries, e.profile.relationships[j], gone)
    {
      if PointsInto(entries, e.profile.relationships[i], gone) {
        return true;
      }
    }
    dragged := false;
  }

  function UniqueIds(entries: seq<Entry>): set<nat> {
    set e | e in entries :: e.descriptor.uniqueId
  }

  /** One pass over the entries: it adds only tables that reach a failed one, and says whether it added any. */
  method SweepOnce(entries: seq<Entry>, ghost failed: set<nat>, before: set<nat>)
    returns (gone: set<nat>, changed: bool)
    requires forall u :: u in before ==> Reaches(entries, failed, u)
    ensures before <= gone <= before + UniqueIds(entries)
    ensures forall u :: u in gone ==> Reaches(entries, failed, u)
    ensures if changed then before < gone else gone == before && Closed(entries, gone)
  {
    gone, changed := before, false;
    for i := 0 to |entries|
      invariant before <= gone <= before + UniqueIds(entries)
      invariant forall u :: u in gone ==> Reaches(entries, failed, u)
      invariant changed ==> before < gone
      invariant !changed ==> gone == before
      invariant !changed ==> forall j :: 0 <= j < i && Drags(entries, entries[j], gone) ==>
        entries[j].descriptor.uniqueId in gone
    {
      var e := entries[i];
      if e.descriptor.uniqueId !in gone {
        var dragged := AnyDrags(entries, e, gone);
        if dragged {
          DraggedReaches(entries, failed, e, gone);
          gone, changed := gone + {e.descriptor.uniqueId}, true;
        }
      }
    }
  }

  /** The closure loop ends, and quarantines exactly the tables that reach a failed or a missing one. */
  method CloseQuarantine(entries: seq<Entry>, failed: set<nat>) returns (gone: set<nat>)
    ensures forall u :: u in gone <==> Reaches(entries, failed, u)
    ensures failed <= gone <= failed + UniqueIds(entries) && Closed(entries, gone)
  {
    gone := failed;
    FailedReach(entries, failed);
    var changed := true;
    while changed
      invariant failed <= gone <= failed + UniqueIds(entries)
      invariant forall u :: u in gone ==> Reaches(entries, failed, u)
      invariant !changed ==> Closed(entries, gone)
      decreases failed + UniqueIds(entries) - gone, changed
    {
      ghost var was := gone;
      gone, changed := SweepOnce(entries, failed, gone);
      assert changed ==> failed + UniqueIds(entries) - gone < failed + UniqueIds(entries) - was by {
        if changed {
          var u :| u in gone && u !in was;
          assert u in failed + UniqueIds(entries) - was;
        }
      }
    }
    forall u | Reaches(entries, failed, u)
      ensures u in gone
    {
      var n: nat :| ReachesIn(entries, failed, u, n);
      ClosedHoldsReaching(entries, failed, gone, u, n);
    }
  }

  // ----- survivors

  /** Tables that may stay together: none failed, and every relationship leads to an installed table of the set. */
  ghost predicate SelfSupporting(entries: seq<Entry>, failed: set<nat>, kept: set<nat>) {
    && kept !! failed
    && forall e, r :: e in entries && e.descriptor.uniqueId in kept && r in e.profile.relationships ==>
      TargetOf(entries, r).Some? && TargetOf(entries, r).value in kept
  }

  lemma {:induction false} KeptNeverReaches(entries: seq<Entry>, failed: set<nat>, kept: set<nat>, u: nat, n: nat)
    requires SelfSupporting(entries, failed, kept) && u in kept
    ensures !ReachesIn(entries, failed, u, n)
    decreases n
  {
    if n > 0 {
      forall e, r | e in entries && e.descriptor.uniqueId == u && r in e.profile.relationships
        ensures !LeadsIn(entries, failed, r, n - 1)
      {
        KeptNeverReaches(entries, failed, kept, TargetOf(entries, r).value, n - 1);
      }
    }
  }

  /** What survives the closure is self-supporting, and every self-supporting set of tables survives. */
  lemma {:induction false} SurvivorsAreLargest(entries: seq<Entry>, failed: set<nat>, gone: set<nat>, kept: set<nat>)
    requires forall u :: u in gone <==> Reaches(entries, failed, u)
    ensures SelfSupporting(entries, failed, UniqueIds(entries) - gone)
    ensures SelfSupporting(entries, failed, kept) ==> kept !! gone
  {
    FailedReach(entries, failed);
    forall e, r | e in entries && e.descriptor.uniqueId !in gone && r in e.profile.relationships
      ensures TargetOf(entries, r).Some? && TargetOf(entries, r).value in UniqueIds(entries) - gone
    {
      if PointsInto(entries, r, gone) {
        var i :| 0 <= i < |e.profile.relationships| && e.profile.relationships[i] == r;
        assert PointsInto(entries, e.profile.relationships[i], gone);
        DraggedReaches(entries, failed, e, gone);
      }
    }
    if SelfSupporting(entries, failed, kept) {
      forall u, n: nat | u in kept && ReachesIn(entries, failed, u, n)
        ensures false
      {
        KeptNeverReaches(entries, failed, kept, u, n);
      }
    }
  }

  // ----- entry order

  predicate DistinctTableIds(entries: seq<Entry>) {
    forall i, j :: 0 <= i < j < |entries| ==>
      entries[i].descriptor.sessionTableId != entries[j].descriptor.sessionTableId
  }

  lemma {:induction false} LookupIsOrderFree(entries: seq<Entry>, other: seq<Entry>, tableId: nat)
    requires DistinctTableIds(entries) && multiset(entries) == multiset(other)
    ensures FindByTableId(entries, tableId) == FindByTableId(other, tableId)
  {
    var a, b := FindByTableId(entries, tableId), FindByTableId(other, tableId);
    if b.Some? {
      assert b.value in multiset(other);
      assert b.value in entries;
    }
    if a.Some? {
      assert a.value in multiset(entries);
      assert a.value in other;
    }
  }

  lemma {:induction false} ReachingIsOrderFree(entries: seq<Entry>, other: seq<Entry>, failed: set<nat>, u: nat, n: nat)
    requires DistinctTableIds(entries) && multiset(entries) == multiset(other)
    ensures ReachesIn(entries, failed, u, n) <==> ReachesIn(other, failed, u, n)
    decreases n
  {
    if n > 0 {
      forall e
        ensures e in entries <==> e in other
      {
        assert e in entries <==> e in multiset(entries);
        assert e in other <==> e in multiset(other);
      }
      forall r: RelationshipConstraint {:trigger LeadsIn(entries, failed, r, n - 1)}
        ensures LeadsIn(entries, failed, r, n - 1) <==> LeadsIn(other, failed, r, n - 1)
      {
        LookupIsOrderFree(entries, other, r.targetTableId);
        if TargetOf(entries, r).Some? {
          ReachingIsOrderFree(entries, other, failed, TargetOf(entries, r).value, n - 1);
        }
      }
    }
  }

  /** The loader admits no table id twice; then the closure does not depend on the order of the entries. */
  lemma {:induction false} ClosureIsOrderFree(entries: seq<Entry>, other: seq<Entry>, failed: set<nat>, u: nat)
    requires DistinctTableIds(entries) && multiset(entries) == multiset(other)
    ensures Reaches(entries, failed, u) <==> Reaches(other, failed, u)
  {
    forall n: nat
      ensures ReachesIn(entries, failed, u, n) <==> ReachesIn(other, failed, u, n)
    {
      ReachingIsOrderFree(entries, other, failed, u, n);
    }
  }
}
