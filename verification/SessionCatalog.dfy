/** The session catalog object: the entries of one game session, and their revalidation. */
module SessionCatalog {
  import opened Bytes
  import opened Profile
  import opened CatalogState
  import opened CatalogReads
  import opened Quarantine
  import opened Revalidation
  import opened CatalogMeaning
  import opened CatalogSurvey
  import SeqFacts

  // ----- the second phase: every probe read twice

  function Requests(probes: seq<Probe>): (requests: seq<ReadRequest>)
    ensures |requests| == |probes|
    ensures forall i :: 0 <= i < |probes| ==> requests[i] == probes[i].request
  {
    seq(|probes|, i requires 0 <= i < |probes| => probes[i].request)
  }

  /** Probe `i` passed both reads. */
  predicate SlotPasses(p: Probe, first: BoundedReadResult, second: BoundedReadResult, i: nat)
    requires i < |first.bytes| == |first.failed| && i < |second.bytes| == |second.failed|
  {
    !first.failed[i] && !second.failed[i] && first.bytes[i] == second.bytes[i] && ProbeHolds(p, first.bytes[i])
  }

  /** `failed` adds to `before` the tables of exactly the first `n` probes that did not pass. */
  ghost predicate Judged(
    probes: seq<Probe>, first: BoundedReadResult, second: BoundedReadResult, n: nat, before: set<nat>, failed: set<nat>)
    requires n <= |probes|
    requires |first.bytes| == |first.failed| == |second.bytes| == |second.failed| == |probes|
  {
    && (forall u :: u in failed ==>
      u in before || exists i :: 0 <= i < n && probes[i].uniqueId == u && !SlotPasses(probes[i], first, second, i))
    && before <= failed
    && forall i :: 0 <= i < n && !SlotPasses(probes[i], first, second, i) ==> probes[i].uniqueId in failed
  }

  method Judge(probes: seq<Probe>, first: BoundedReadResult, second: BoundedReadResult, before: set<nat>)
    returns (failed: set<nat>)
    requires |first.bytes| == |first.failed| == |second.bytes| == |second.failed| == |probes|
    ensures Judged(probes, first, second, |probes|, before, failed)
  {
    failed := before;
    for i := 0 to |probes|
      invariant Judged(probes, first, second, i, before, failed)
    {
      if !SlotPasses(probes[i], first, second, i) {
        failed := failed + {probes[i].uniqueId};
      }
    }
  }

  /** Probe `i` was read twice with the same bytes, and they fit. */
  ghost predicate Proved(view: nat -> Memory, lo: nat, hi: nat, p: Probe, bytes: seq<Byte>) {
    && RequestLegal(p.request) && |bytes| == p.request.length
    && SeenTwice(view, lo, hi, p.request, bytes) && ProbeHolds(p, bytes)
  }

  ghost predicate AllPassable(memory: Memory, probes: seq<Probe>) {
    RequestsLegal(Requests(probes)) && AllReadableIn(memory, Requests(probes))
  }

  function TablesOf(probes: seq<Probe>): set<nat> {
    set p | p in probes :: p.uniqueId
  }

  predicate Differs(view: nat -> Memory, m: nat, n: nat, r: ReadRequest) {
    Readable(view(m), r) && Readable(view(n), r) && BytesAt(view(m), r) != BytesAt(view(n), r)
  }

  predicate Misfits(view: nat -> Memory, n: nat, p: Probe) {
    Readable(view(n), p.request) && !ProbeHolds(p, BytesAt(view(n), p.request))
  }

  /** One of the two calls that read probe `i`, the first among those from `lo` and the second among those from `mid`
      on, gave a reason to fail it: its batch was not read, the two saw different bytes, or the first saw bytes that do
      not fit. */
  ghost predicate Suspect(backend: DiscoveryBackend, lo: nat, mid: nat, hi: nat, probes: seq<Probe>, i: nat)
    requires i < |probes| && RequestsLegal(Requests(probes))
  {
    var m, n := lo + BatchIndex(Requests(probes), i), mid + BatchIndex(Requests(probes), i);
    || BatchFate(backend.view, backend.replies, lo, mid, Requests(probes), i, true)
    || BatchFate(backend.view, backend.replies, mid, hi, Requests(probes), i, true)
    || Differs(backend.view, m, n, probes[i].request)
    || Misfits(backend.view, m, probes[i])
  }

  /** The tables of suspect probes; an illegal request makes every probe suspect. */
  ghost function Suspected(backend: DiscoveryBackend, lo: nat, mid: nat, hi: nat, probes: seq<Probe>): set<nat> {
    if !RequestsLegal(Requests(probes)) then TablesOf(probes)
    else set i: nat | i < |probes| && Suspect(backend, lo, mid, hi, probes, i) :: probes[i].uniqueId
  }

  /** The tables of probes that fail by themselves. */
  ghost function Misfitting(memory: Memory, probes: seq<Probe>): set<nat> {
    set p | p in probes && !ProbePasses(memory, p) :: p.uniqueId
  }

  /** The tables that fail with others: those with a probe in a batch that holds an unreadable request, and every
      probed table when a request is illegal. */
  ghost function Dragged(memory: Memory, probes: seq<Probe>): set<nat> {
    if !RequestsLegal(Requests(probes)) then TablesOf(probes)
    else set i: nat | i < |probes| && !AllReadableIn(memory, BatchOf(Requests(probes), i)) :: probes[i].uniqueId
  }

  lemma {:induction false} NothingDragged(memory: Memory, probes: seq<Probe>)
    requires AllPassable(memory, probes)
    ensures Dragged(memory, probes) == {}
  {
    var requests := Requests(probes);
    forall i: nat | i < |probes|
      ensures AllReadableIn(memory, BatchOf(requests, i))
    {
      var batch := BatchOf(requests, i);
      BatchInside(requests, 0, i);
      forall k | 0 <= k < |batch|
        ensures Readable(memory, batch[k])
      {
        assert batch[k] in batch;
      }
    }
  }

  /** A slot that passed proves its probe; one that did not makes it suspect. */
  lemma {:induction false} SlotProves(
    backend: DiscoveryBackend, lo: nat, mid: nat, hi: nat, probes: seq<Probe>, first: BoundedReadResult,
    second: BoundedReadResult, i: nat)
    requires i < |probes| && RequestsLegal(Requests(probes)) && lo <= mid <= hi
    requires ReadsHonest(backend.view, lo, mid, Requests(probes), first)
    requires ReadsHonest(backend.view, mid, hi, Requests(probes), second)
    requires BatchFates(backend.view, backend.replies, lo, mid, Requests(probes), first.failed)
    requires BatchFates(backend.view, backend.replies, mid, hi, Requests(probes), second.failed)
    ensures SlotPasses(probes[i], first, second, i) ==> Proved(backend.view, lo, hi, probes[i], first.bytes[i])
    ensures !SlotPasses(probes[i], first, second, i) ==> Suspect(backend, lo, mid, hi, probes, i)
  {
    var requests := Requests(probes);
    var m, n := lo + BatchIndex(requests, i), mid + BatchIndex(requests, i);
    assert SlotHonest(backend.view, m, requests[i], first.bytes[i], first.failed[i]);
    assert SlotHonest(backend.view, n, requests[i], second.bytes[i], second.failed[i]);
    assert RequestLegal(requests[i]);
    if SlotPasses(probes[i], first, second, i) {
      SeenBySlots(backend.view, lo, m, n, hi, probes[i].request, first.bytes[i]);
    } else if first.failed[i] {
      assert BatchFate(backend.view, backend.replies, lo, mid, requests, i, first.failed[i]);
    } else if second.failed[i] {
      assert BatchFate(backend.view, backend.replies, mid, hi, requests, i, second.failed[i]);
    }
  }

  /** On steady memory a slot passes exactly when its batch is readable and its probe passes. */
  lemma {:induction false} SteadySlot(
    backend: DiscoveryBackend, lo: nat, mid: nat, hi: nat, probes: seq<Probe>, first: BoundedReadResult,
    second: BoundedReadResult, i: nat)
    requires i < |probes| && RequestsLegal(Requests(probes)) && Steady(backend)
    requires ReadsHonest(backend.view, lo, mid, Requests(probes), first)
    requires ReadsHonest(backend.view, mid, hi, Requests(probes), second)
    requires SteadyFates(backend.view(0), Requests(probes), first.failed)
    requires SteadyFates(backend.view(0), Requests(probes), second.failed)
    ensures SlotPasses(probes[i], first, second, i) <==>
      AllReadableIn(backend.view(0), BatchOf(Requests(probes), i)) && ProbePasses(backend.view(0), probes[i])
  {
    var requests := Requests(probes);
    assert SlotHonest(backend.view, lo + BatchIndex(requests, i), requests[i], first.bytes[i], first.failed[i]);
    assert SlotHonest(backend.view, mid + BatchIndex(requests, i), requests[i], second.bytes[i], second.failed[i]);
    assert RequestLegal(requests[i]);
  }

  /** The outcome of the second phase. Every failed table was failed before or is suspect, an illegal request fails
      every probed table, and every probe of a table that did not fail was read twice with fitting bytes. On steady
      memory the failed tables are exactly those failed before, those dragged along and those that misfit. */
  ghost predicate Checked(
    backend: DiscoveryBackend, lo: nat, mid: nat, hi: nat, probes: seq<Probe>, before: set<nat>, failed: set<nat>,
    bytes: seq<seq<Byte>>)
  {
    && lo <= mid <= hi && (probes == [] ==> bytes == [])
    && before <= failed <= before + Suspected(backend, lo, mid, hi, probes)
    && (!RequestsLegal(Requests(probes)) ==> failed == before + TablesOf(probes))
    && (forall i :: 0 <= i < |probes| && probes[i].uniqueId !in failed ==>
      |bytes| == |probes| && Proved(backend.view, lo, hi, probes[i], bytes[i]))
    && (Steady(backend) ==>
      failed == before + Dragged(backend.view(0), probes) + Misfitting(backend.view(0), probes))
  }

  lemma {:induction false} JudgedIsSteady(
    backend: DiscoveryBackend, lo: nat, mid: nat, hi: nat, probes: seq<Probe>, first: BoundedReadResult,
    second: BoundedReadResult, before: set<nat>, failed: set<nat>)
    requires RequestsLegal(Requests(probes)) && Steady(backend)
    requires ReadsHonest(backend.view, lo, mid, Requests(probes), first)
    requires ReadsHonest(backend.view, mid, hi, Requests(probes), second)
    requires SteadyFates(backend.view(0), Requests(probes), first.failed)
    requires SteadyFates(backend.view(0), Requests(probes), second.failed)
    requires Judged(probes, first, second, |probes|, before, failed)
    ensures failed == before + Dragged(backend.view(0), probes) + Misfitting(backend.view(0), probes)
  {
    var memory := backend.view(0);
    var expected := before + Dragged(memory, probes) + Misfitting(memory, probes);
    forall u | u in failed
      ensures u in expected
    {
      if u !in before {
        var i :| 0 <= i < |probes| && probes[i].uniqueId == u && !SlotPasses(probes[i], first, second, i);
        SteadySlot(backend, lo, mid, hi, probes, first, second, i);
        assert probes[i] in probes;
      }
    }
    forall u | u in expected
      ensures u in failed
    {
      if u in Dragged(memory, probes) {
        var i: nat :| i < |probes| && !AllReadableIn(memory, BatchOf(Requests(probes), i)) && probes[i].uniqueId == u;
        SteadySlot(backend, lo, mid, hi, probes, first, second, i);
      } else if u in Misfitting(memory, probes) {
        var p :| p in probes && !ProbePasses(memory, p) && p.uniqueId == u;
        var i :| 0 <= i < |probes| && probes[i] == p;
        SteadySlot(backend, lo, mid, hi, probes, first, second, i);
      }
    }
  }

  lemma {:induction false} JudgedIsChecked(
    backend: DiscoveryBackend, lo: nat, mid: nat, hi: nat, probes: seq<Probe>, first: BoundedReadResult,
    second: BoundedReadResult, before: set<nat>, failed: set<nat>)
    requires RequestsLegal(Requests(probes)) && lo <= mid <= hi
    requires ReadsHonest(backend.view, lo, mid, Requests(probes), first)
    requires ReadsHonest(backend.view, mid, hi, Requests(probes), second)
    requires BatchFates(backend.view, backend.replies, lo, mid, Requests(probes), first.failed)
    requires BatchFates(backend.view, backend.replies, mid, hi, Requests(probes), second.failed)
    requires Steady(backend) ==> SteadyFates(backend.view(0), Requests(probes), first.failed)
    requires Steady(backend) ==> SteadyFates(backend.view(0), Requests(probes), second.failed)
    requires Judged(probes, first, second, |probes|, before, failed)
    ensures Checked(backend, lo, mid, hi, probes, before, failed, first.bytes)
  {
    forall i: nat | i < |probes|
      ensures SlotPasses(probes[i], first, second, i) ==> Proved(backend.view, lo, hi, probes[i], first.bytes[i])
      ensures !SlotPasses(probes[i], first, second, i) ==> Suspect(backend, lo, mid, hi, probes, i)
    {
      SlotProves(backend, lo, mid, hi, probes, first, second, i);
    }
    if Steady(backend) {
      JudgedIsSteady(backend, lo, mid, hi, probes, first, second, before, failed);
    }
  }

  lemma {:induction false} IllegalIsChecked(
    backend: DiscoveryBackend, lo: nat, mid: nat, hi: nat, probes: seq<Probe>, before: set<nat>, failed: set<nat>)
    requires lo <= mid <= hi && !RequestsLegal(Requests(probes)) && before <= failed
    requires forall j :: 0 <= j < |probes| ==> probes[j].uniqueId in failed
    requires forall u :: u in failed ==> u in before || exists j :: 0 <= j < |probes| && probes[j].uniqueId == u
    ensures Checked(backend, lo, mid, hi, probes, before, failed, [])
  {
    assert failed == before + TablesOf(probes) by {
      forall u | u in failed
        ensures u in before + TablesOf(probes)
      {
        if u !in before {
          var j :| 0 <= j < |probes| && probes[j].uniqueId == u;
          assert probes[j] in probes;
        }
      }
    }
    assert probes != [];
  }

  /** Every probe is read and read again, from call `again` on. */
  method CheckProbes(backend: DiscoveryBackend, probes: seq<Probe>, before: set<nat>)
    returns (failed: set<nat>, bytes: seq<seq<Byte>>, ghost again: nat)
    modifies backend
    ensures Checked(backend, old(backend.calls), again, backend.calls, probes, before, failed, bytes)
  {
    var requests := Requests(probes);
    var first, _, _ := ReadBoundedBatches(backend, requests);
    if !first.requestsValid {
      failed := before;
      for i := 0 to |probes|
        invariant before <= failed
        invariant forall j :: 0 <= j < i ==> probes[j].uniqueId in failed
        invariant forall u :: u in failed ==> u in before || exists j :: 0 <= j < i && probes[j].uniqueId == u
      {
        failed := failed + {probes[i].uniqueId};
      }
      again := backend.calls;
      IllegalIsChecked(backend, old(backend.calls), again, backend.calls, probes, before, failed);
      return failed, [], again;
    }
    again := backend.calls;
    var second, _, _ := ReadBoundedBatches(backend, requests);
    failed := Judge(probes, first, second, before);
    JudgedIsChecked(backend, old(backend.calls), again, backend.calls, probes, first, second, before, failed);
    bytes := first.bytes;
  }

  // ----- all of it

  /** The tables that do not pass by themselves. */
  ghost function Failing(c: Catalog, memory: Memory, allocations: Allocations): set<nat> {
    set e | e in c.entries && !EntryPasses(c, e, memory, allocations) :: e.descriptor.uniqueId
  }

  lemma {:induction false} EntryOfProbe(c: Catalog, entries: seq<Entry>, allocations: Allocations, p: Probe)
    returns (e: Entry)
    requires p in AllProbes(c, entries, allocations)
    ensures e in entries && p in EntryProbes(c, e, allocations) && p.uniqueId == e.descriptor.uniqueId
  {
    var last := entries[|entries| - 1];
    if p in EntryProbes(c, last, allocations) {
      e := last;
      CandidateSource(c, e, p);
    } else {
      e := EntryOfProbe(c, entries[..|entries| - 1], allocations, p);
    }
  }

  lemma {:induction false} ProbeOfEntry(c: Catalog, allocations: Allocations, e: Entry, p: Probe) returns (i: nat)
    requires e in c.entries && p in EntryProbes(c, e, allocations)
    ensures i < |AllProbes(c, c.entries, allocations)| && AllProbes(c, c.entries, allocations)[i] == p
    ensures p.uniqueId == e.descriptor.uniqueId
  {
    var k :| 0 <= k < |c.entries| && c.entries[k] == e;
    ProbesOfEntry(c, c.entries, allocations, k, p);
    CandidateSource(c, e, p);
    i :| 0 <= i < |AllProbes(c, c.entries, allocations)| && AllProbes(c, c.entries, allocations)[i] == p;
  }

  lemma {:induction false} FailureIsCaught(c: Catalog, memory: Memory, allocations: Allocations, e: Entry)
    requires e in c.entries && !EntryPasses(c, e, memory, allocations)
    ensures e.descriptor.uniqueId in SurveyFailures(c, c.entries, memory, allocations)
      + Misfitting(memory, AllProbes(c, c.entries, allocations))
  {
    if SurveyFits(c, e, memory, allocations) {
      var p :| p in Somes(Candidates(c, e)) && !ProbePasses(memory, p);
      var i := ProbeOfEntry(c, allocations, e, p);
      assert p in AllProbes(c, c.entries, allocations);
    }
  }

  lemma {:induction false} MisfitIsFailing(c: Catalog, memory: Memory, allocations: Allocations, p: Probe)
    requires p in AllProbes(c, c.entries, allocations) && !ProbePasses(memory, p)
    ensures p.uniqueId in Failing(c, memory, allocations)
  {
    var e := EntryOfProbe(c, c.entries, allocations, p);
    assert !EntryPasses(c, e, memory, allocations);
  }

  /** A table fails in the survey or with a probe. */
  lemma {:induction false} FailingSplit(c: Catalog, memory: Memory, allocations: Allocations)
    ensures Failing(c, memory, allocations) ==
      SurveyFailures(c, c.entries, memory, allocations) + Misfitting(memory, AllProbes(c, c.entries, allocations))
  {
    forall e | e in c.entries && !EntryPasses(c, e, memory, allocations)
      ensures e.descriptor.uniqueId in SurveyFailures(c, c.entries, memory, allocations)
        + Misfitting(memory, AllProbes(c, c.entries, allocations))
    {
      FailureIsCaught(c, memory, allocations, e);
    }
    forall p | p in AllProbes(c, c.entries, allocations) && !ProbePasses(memory, p)
      ensures p.uniqueId in Failing(c, memory, allocations)
    {
      MisfitIsFailing(c, memory, allocations, p);
    }
  }

  /** On steady memory the failed tables are exactly those that fail by themselves and those dragged along; so
      they are the failing ones if and only if every table dragged along is itself failing. */
  lemma {:induction false} FailuresExactly(
    c: Catalog, backend: DiscoveryBackend, lo: nat, mid: nat, hi: nat, before: set<nat>, failed: set<nat>,
    probes: seq<Probe>, bytes: seq<seq<Byte>>)
    requires Steady(backend)
    requires probes == AllProbes(c, c.entries, backend.allocations(0))
    requires before == SurveyFailures(c, c.entries, backend.view(0), backend.allocations(0))
    requires Checked(backend, lo, mid, hi, probes, before, failed, bytes)
    ensures var failing := Failing(c, backend.view(0), backend.allocations(0));
      && failed == failing + Dragged(backend.view(0), probes)
      && (failed == failing <==> Dragged(backend.view(0), probes) <= failing)
  {
    var memory, allocations := backend.view(0), backend.allocations(0);
    FailingSplit(c, memory, allocations);
    assert failed == before + Dragged(memory, probes) + Misfitting(memory, probes);
    assert Failing(c, memory, allocations) == before + Misfitting(memory, probes);
  }

  lemma {:induction false} PassingProbes(c: Catalog, memory: Memory, allocations: Allocations)
    requires Failing(c, memory, allocations) == {}
    ensures AllPassable(memory, AllProbes(c, c.entries, allocations))
  {
    var probes := AllProbes(c, c.entries, allocations);
    forall i | 0 <= i < |probes|
      ensures ProbePasses(memory, probes[i])
    {
      var e := EntryOfProbe(c, c.entries, allocations, probes[i]);
      assert e.descriptor.uniqueId !in Failing(c, memory, allocations);
    }
  }

  lemma {:induction false} SeenProbes(
    backend: DiscoveryBackend, mid: nat, again: nat, hi: nat, probes: seq<Probe>, bytes: seq<seq<Byte>>)
    requires |bytes| == |probes| && Checked(backend, mid, again, hi, probes, {}, {}, bytes)
    ensures AllSeen(backend.view, mid, hi, GuardsOn(Requests(probes), bytes))
  {
  }

  lemma {:induction false} GuardsAreJustified(
    c: Catalog, backend: DiscoveryBackend, lo: nat, mid: nat, again: nat, hi: nat, marks: seq<nat>, probes: seq<Probe>,
    bytes: seq<seq<Byte>>, chain: seq<Guard>)
    requires c.entries != [] && Closed(c.entries, {})
    requires Surveyed(c, backend, lo, mid, marks, c.entries, {}, probes, chain)
    requires Checked(backend, mid, again, hi, probes, {}, {}, bytes)
    ensures |bytes| == |probes|
    ensures GuardsJustify(c, GuardsOn(Requests(probes), bytes) + chain)
    ensures AllSeen(backend.view, lo, hi, GuardsOn(Requests(probes), bytes) + chain)
  {
    if probes != [] {
      assert probes[0].uniqueId !in {};
    }
    var own := GuardsOn(Requests(probes), bytes);
    assert ProbeGuards(probes, own) by {
      forall i | 0 <= i < |probes|
        ensures Proved(backend.view, mid, hi, probes[i], bytes[i])
      {
        assert probes[i].uniqueId !in {};
      }
    }
    assert (own + chain)[..|own|] == own && (own + chain)[|own|..] == chain;
    SeenProbes(backend, mid, again, hi, probes, bytes);
    SeenLater(backend.view, lo, mid, hi, hi, own);
    SeenLater(backend.view, lo, lo, mid, hi, chain);
    SeenConcat(backend.view, lo, hi, own, chain);
  }

  /** What a check of the whole catalog leaves on record: the failed tables, the probes, at which calls the survey of
      each table and then the reading of the probes began, and from which call on the probes were read again. */
  datatype Findings = Findings(failed: set<nat>, probes: seq<Probe>, marks: seq<nat>, again: nat)

  /** Every failed table has its cause: one of the calls of its own survey gave a reason to fail it, or one of the two
      calls that read one of its probes did. */
  ghost predicate Caused(c: Catalog, backend: DiscoveryBackend, lo: nat, hi: nat, found: Findings) {
    && |found.marks| == |c.entries| + 1
    && var mid := found.marks[|c.entries|];
      && Marked(found.marks, |c.entries|, lo, mid) && mid <= found.again <= hi
      && ProbesFrom(c, found.probes, c.entries)
      && found.failed <= Unsound(c, c.entries, backend, found.marks)
        + Suspected(backend, mid, found.again, hi, found.probes)
  }

  /** What fails on steady memory. */
  ghost function SteadyFailures(c: Catalog, memory: Memory, allocations: Allocations): set<nat> {
    Failing(c, memory, allocations) + Dragged(memory, AllProbes(c, c.entries, allocations))
  }

  ghost predicate FailsExactly(c: Catalog, backend: DiscoveryBackend, failed: set<nat>) {
    Steady(backend) ==> failed == SteadyFailures(c, backend.view(0), backend.allocations(0))
  }

  lemma {:induction false} NothingFailed(entries: seq<Entry>, failed: set<nat>)
    requires forall u :: !Reaches(entries, failed, u)
    ensures failed == {}
  {
    FailedReach(entries, failed);
  }

  lemma {:induction false} SteadyVerdict(
    c: Catalog, backend: DiscoveryBackend, lo: nat, hi: nat, quarantined: set<nat>, guards: seq<Guard>,
    failed: set<nat>)
    requires c.entries != []
    requires forall u :: u in quarantined <==> Reaches(c.entries, failed, u)
    requires quarantined == {} ==> GuardsJustify(c, guards) && AllSeen(backend.view, lo, hi, guards)
    requires FailsExactly(c, backend, failed)
    ensures Steady(backend) ==> (quarantined == {} <==> Passes(c, backend.view(0), backend.allocations(0)))
  {
    if Steady(backend) {
      var memory, allocations := backend.view(0), backend.allocations(0);
      if quarantined == {} {
        FailedReach(c.entries, failed);
        forall i | 0 <= i < |c.entries|
          ensures EntryPasses(c, c.entries[i], memory, allocations)
        {
          assert c.entries[i].descriptor.uniqueId !in failed;
        }
      } else if Passes(c, memory, allocations) {
        assert Failing(c, memory, allocations) == {};
        PassingProbes(c, memory, allocations);
        NothingDragged(memory, AllProbes(c, c.entries, allocations));
        var u :| u in quarantined;
        var n: nat :| ReachesIn(c.entries, failed, u, n);
        ClosedHoldsReaching(c.entries, failed, {}, u, n);
        assert false;
      }
    }
  }

  /** The check behind revalidation, without its effect: what it quarantines and what evidence it gathers. */
  method FindQuarantined(c: Catalog, backend: DiscoveryBackend)
    returns (quarantined: set<nat>, guards: seq<Guard>, ghost found: Findings)
    requires c.entries != []
    modifies backend
    ensures forall u :: u in quarantined <==> Reaches(c.entries, found.failed, u)
    ensures quarantined == {} ==> GuardsJustify(c, guards)
    ensures quarantined == {} ==> AllSeen(backend.view, old(backend.calls), backend.calls, guards)
    ensures Caused(c, backend, old(backend.calls), backend.calls, found)
    ensures Steady(backend) ==> (quarantined == {} <==> Passes(c, backend.view(0), backend.allocations(0)))
    ensures FailsExactly(c, backend, found.failed)
  {
    var surveyFailed, probes, chain, marks := Survey(c, backend);
    ghost var lo, mid := old(backend.calls), backend.calls;
    var failed, bytes, again := CheckProbes(backend, probes, surveyFailed);
    found := Findings(failed, probes, marks, again);
    quarantined := CloseQuarantine(c.entries, failed);
    if Steady(backend) {
      FailuresExactly(c, backend, mid, again, backend.calls, surveyFailed, failed, probes, bytes);
    }
    guards := [];
    if quarantined == {} {
      NothingFailed(c.entries, failed);
      GuardsAreJustified(c, backend, lo, mid, again, backend.calls, marks, probes, bytes, chain);
      guards := GuardsOn(Requests(probes), bytes) + chain;
    }
    SteadyVerdict(c, backend, lo, backend.calls, quarantined, guards, failed);
  }

  // ----- a table that fails with another

  /** A table of one one-byte record at `base`, whose fingerprint is the byte 7. */
  function OneByteTable(id: nat, base: Address): Entry {
    Entry(CatalogDescriptor(id, id, base, 1, 1, base, 1, CanonicalRecords, None, 0, 1, DirectVerified),
          TableProfile(id, id, 1, 1, [RowFingerprint(0, [7], [0xFF])], []))
  }

  const TWO_TABLES: Catalog := Catalog(1, true, [], [OneByteTable(1, 16), OneByteTable(2, 32)])

  const ONE_READABLE: Memory := map[16 := 7]

  function OneByteProbe(id: nat, base: Address): Probe {
    Probe(id, false, ReadRequest(base, 1), Sentinel(RowFingerprint(0, [7], [0xFF])))
  }

  lemma {:induction false} OneByteProbes(c: Catalog, id: nat, base: Address)
    ensures Candidates(c, OneByteTable(id, base)) == [Some(OneByteProbe(id, base))]
    ensures EntryProbes(c, OneByteTable(id, base), EVERYWHERE) == [OneByteProbe(id, base)]
  {
    var p, s := OneByteProbe(id, base), [Some(OneByteProbe(id, base))];
    assert Product(0, 1) == 0;
    assert SentinelProbe(OneByteTable(id, base).descriptor, RowFingerprint(0, [7], [0xFF])) == Some(p);
    assert Candidates(c, OneByteTable(id, base)) == s;
    assert s[..0] == [] && Somes(s) == Somes(s[..0]) + [p];
  }

  lemma {:induction false} TwoProbes(c: Catalog)
    ensures AllProbes(c, TWO_TABLES.entries, EVERYWHERE) == [OneByteProbe(1, 16), OneByteProbe(2, 32)]
  {
    var a, b := OneByteTable(1, 16), OneByteTable(2, 32);
    OneByteProbes(c, 1, 16);
    OneByteProbes(c, 2, 32);
    assert [a, b][..1] == [a] && [a][..0] == [];
    assert AllProbes(c, [a], EVERYWHERE) == [OneByteProbe(1, 16)];
  }

  lemma {:induction false} OneBatch(x: ReadRequest, y: ReadRequest)
    requires RequestLegal(x) && RequestLegal(y) && x.length == y.length == 1
    ensures RequestsLegal([x, y]) && BatchOf([x, y], 0) == BatchOf([x, y], 1) == [x, y]
  {
    var s := [x, y];
    assert BatchSizeFrom(s, 0, 2, 2) == 2;
    assert BatchSizeFrom(s, 0, 1, 1) == 2;
    assert BatchSize(s, 0) == 2 && s[0..2] == s;
    assert BatchFrom(s, 0, 0) == s && BatchFrom(s, 0, 1) == s;
  }

  lemma {:induction false} TwoFailing()
    ensures Failing(TWO_TABLES, ONE_READABLE, EVERYWHERE) == {2}
  {
    var a, b := OneByteTable(1, 16), OneByteTable(2, 32);
    var p, q := OneByteProbe(1, 16), OneByteProbe(2, 32);
    OneByteProbes(TWO_TABLES, 1, 16);
    OneByteProbes(TWO_TABLES, 2, 32);
    assert BytesAt(ONE_READABLE, p.request) == [7] && ProbePasses(ONE_READABLE, p);
    assert 32 !in ONE_READABLE && !ProbePasses(ONE_READABLE, q);
    assert q in Somes(Candidates(TWO_TABLES, b));
    assert EntryPasses(TWO_TABLES, a, ONE_READABLE, EVERYWHERE);
  }

  lemma {:induction false} TwoDragged()
    ensures Dragged(ONE_READABLE, [OneByteProbe(1, 16), OneByteProbe(2, 32)]) == {1, 2}
  {
    var p, q := OneByteProbe(1, 16), OneByteProbe(2, 32);
    OneBatch(p.request, q.request);
    assert Requests([p, q]) == [p.request, q.request];
    assert !AllReadableIn(ONE_READABLE, [p.request, q.request]) by {
      assert 32 !in ONE_READABLE && !Readable(ONE_READABLE, [p.request, q.request][1]);
    }
    assert [p, q][0].uniqueId == 1 && [p, q][1].uniqueId == 2;
  }

  /** Of two tables only the second cannot be read, but their probes share a batch: on memory that stays so
      both fail, although the first passes by itself. */
  lemma {:induction false} BatchMateFails()
    ensures CatalogState.Valid(TWO_TABLES)
    ensures Failing(TWO_TABLES, ONE_READABLE, EVERYWHERE) == {2}
    ensures SteadyFailures(TWO_TABLES, ONE_READABLE, EVERYWHERE) == {1, 2}
  {
    TwoFailing();
    TwoDragged();
    TwoProbes(TWO_TABLES);
  }

  lemma {:induction false} NothingErased(c: Catalog)
    ensures Step(c, CatalogEvent.Revalidate({})) == c
  {
  }

  // ----- the object

  class Session {
    var generation: nat
    var gameReady: bool
    var schema: seq<TableSchema>
    var entries: seq<Entry>

    function State(): Catalog
      reads this
    {
      Catalog(generation, gameReady, schema, entries)
    }

    ghost predicate Valid()
      reads this
    {
      CatalogState.Valid(State())
    }

    constructor ()
      ensures State() == EMPTY_CATALOG && Valid()
    {
      generation, gameReady, schema, entries := 0, true, [], [];
    }

    method AdvanceGeneration()
      modifies `generation
      ensures generation == NextGeneration(old(generation))
      ensures old(generation) < 0xFFFF_FFFF_FFFF_FFFF ==> generation == old(generation) + 1
      ensures old(generation) == 0xFFFF_FFFF_FFFF_FFFF ==> generation == 1
    {
      generation := (generation + 1) % (GENERATIONS + 1);
      if generation == 0 {
        generation := generation + 1;
      }
    }

    method Install(profile: ProfileBundle, discovery: DiscoveryResult) returns (installed: nat)
      requires Valid()
      modifies this
      ensures Valid() && State() == Step(old(State()), CatalogEvent.Install(profile, discovery))
      ensures installed == generation
    {
      StepKeepsValid(State(), CatalogEvent.Install(profile, discovery));
      AdvanceGeneration();
      entries, schema, gameReady := [], profile.schema, true;
      if discovery.valid {
        for i := 0 to |profile.tables|
          invariant entries == InstalledEntries(profile.schema, discovery, profile.tables[..i], generation)
          invariant generation == NextGeneration(old(generation)) && schema == profile.schema && gameReady
        {
          var entry := InstalledEntry(schema, discovery, profile.tables[i], generation);
          SeqFacts.TakeTake(profile.tables, i);
          if entry.Some? {
            entries := entries + [entry.value];
          }
        }
        SeqFacts.TakeAll(profile.tables);
      }
      installed := generation;
    }

    method Invalidate()
      requires Valid()
      modifies this
      ensures Valid() && State() == Step(old(State()), CatalogEvent.Invalidate)
    {
      AdvanceGeneration();
      entries := [];
    }

    method AdvanceLifecycle(ready: bool)
      requires Valid()
      modifies this
      ensures Valid() && State() == Step(old(State()), Lifecycle(ready))
    {
      if !ready && gameReady {
        Invalidate();
        gameReady := false;
      } else if ready {
        gameReady := true;
      }
    }

    /** The quarantined tables go, the others are restamped under a new generation. */
    method EraseQuarantined(gone: set<nat>)
      requires Valid() && entries != [] && gone != {}
      modifies this
      ensures Valid() && State() == Step(old(State()), CatalogEvent.Revalidate(gone))
      ensures generation == NextGeneration(old(generation))
    {
      StepKeepsValid(State(), CatalogEvent.Revalidate(gone));
      AdvanceGeneration();
      var kept: seq<Entry> := [];
      for i := 0 to |entries|
        invariant entries == old(entries) && kept == Restamped(old(entries)[..i], gone, generation)
        invariant generation == NextGeneration(old(generation))
        invariant State() == old(State()).(generation := generation)
      {
        RestampPush(entries, i, gone, generation);
        if entries[i].descriptor.uniqueId !in gone {
          kept := kept + [entries[i].(descriptor := entries[i].descriptor.(generation := generation))];
        }
      }
      SeqFacts.TakeAll(entries);
      entries := kept;
    }

    /** The revalidation of a session. It succeeds exactly when nothing is quarantined; then nothing
        changes and the snapshot's guards justify it, each read twice. Otherwise exactly the tables that
        reach a failed or missing one are erased and the generation advances. */
    method Revalidate(backend: DiscoveryBackend)
      returns (ok: bool, snapshot: Option<Evidence>, ghost quarantined: set<nat>, ghost found: Findings)
      requires Valid()
      modifies this, backend
      ensures Valid() && State() == Step(old(State()), CatalogEvent.Revalidate(quarantined))
      ensures old(entries) != [] ==> forall u :: u in quarantined <==> Reaches(old(entries), found.failed, u)
      ensures ok <==> old(entries) != [] && quarantined == {}
      ensures ok <==> snapshot.Some?
      ensures ok ==> State() == old(State())
      ensures !ok ==> old(entries) == [] || generation == NextGeneration(old(generation))
      ensures ok ==> GuardsJustify(State(), snapshot.value.guards) && EvidenceIsActive(State(), snapshot.value)
      ensures ok ==> AllSeen(backend.view, old(backend.calls), backend.calls, snapshot.value.guards)
      ensures Steady(backend) ==> (ok <==> Passes(old(State()), backend.view(0), backend.allocations(0)))
      ensures Steady(backend) ==> (ok <==> CatalogInPlace(old(State()), backend.view(0), backend.allocations(0)))
      ensures old(entries) != [] ==> Caused(old(State()), backend, old(backend.calls), backend.calls, found)
      ensures old(entries) != [] ==> FailsExactly(old(State()), backend, found.failed)
    {
      PassesExactly(State(), backend.view(0), backend.allocations(0));
      if entries == [] {
        return false, None, {}, Findings({}, [], [], 0);
      }
      var gone, guards;
      gone, guards, found := FindQuarantined(State(), backend);
      quarantined := gone;
      if gone == {} {
        NothingErased(State());
        return true, Some(Evidence(generation, ActiveIds(entries), guards)), quarantined, found;
      }
      EraseQuarantined(gone);
      ok, snapshot := false, None;
    }

    /** The ids are sorted here whatever the order of the entries. */
    method EvidenceHolds(snapshot: Evidence) returns (active: bool)
      requires Valid()
      ensures active <==> EvidenceIsActive(State(), snapshot)
    {
      if snapshot.generation == 0 || snapshot.generation != generation || entries == [] {
        return false;
      }
      var ids: seq<nat> := [];
      for i := |entries| downto 0
        invariant ids == ActiveIds(entries[i..])
        invariant forall j :: i <= j < |entries| ==> entries[j].descriptor.generation == generation
      {
        if entries[i].descriptor.generation != generation {
          return false;
        }
        assert entries[i..][1..] == entries[i + 1..];
        ids := InsertId(entries[i].descriptor.uniqueId, ids);
      }
      assert entries[0..] == entries;
      active := ids == snapshot.activeUniqueIds;
    }
  }
}
