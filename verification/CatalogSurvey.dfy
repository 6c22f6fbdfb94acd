/** Revalidation step by step: survey every table, read the probes twice, close the quarantine. */
module CatalogSurvey {
  import opened Bytes
  import opened Profile
  import opened WordOrder
  import opened CatalogState
  import opened CatalogReads
  import opened Revalidation
  import SeqFacts

  // ----- what two reads of the same bytes show

  predicate Saw(view: nat -> Memory, n: nat, r: ReadRequest, bytes: seq<Byte>) {
    Readable(view(n), r) && bytes == BytesAt(view(n), r)
  }

  /** Two different backend calls between `lo` and `hi` both saw these bytes. */
  ghost predicate SeenTwice(view: nat -> Memory, lo: nat, hi: nat, r: ReadRequest, bytes: seq<Byte>) {
    exists m: nat, n: nat :: lo <= m < n < hi && Saw(view, m, r, bytes) && Saw(view, n, r, bytes)
  }

  ghost predicate AllSeen(view: nat -> Memory, lo: nat, hi: nat, guards: seq<Guard>) {
    forall i :: 0 <= i < |guards| ==>
      SeenTwice(view, lo, hi, ReadRequest(guards[i].address, |guards[i].expected|), guards[i].expected)
  }

  lemma {:induction false} SeenBySlots(
    view: nat -> Memory, lo: nat, m: nat, n: nat, hi: nat, r: ReadRequest, bytes: seq<Byte>)
    requires lo <= m < n < hi && SlotHonest(view, m, r, bytes, false) && SlotHonest(view, n, r, bytes, false)
    ensures SeenTwice(view, lo, hi, r, bytes) && |bytes| == r.length
  {
    assert Saw(view, m, r, bytes) && Saw(view, n, r, bytes);
  }

  lemma {:induction false} SeenLater(view: nat -> Memory, lo: nat, mid: nat, hi: nat, top: nat, guards: seq<Guard>)
    requires lo <= mid && hi <= top && AllSeen(view, mid, hi, guards)
    ensures AllSeen(view, lo, top, guards)
  {
  }

  lemma {:induction false} SeenGuards(
    view: nat -> Memory, lo: nat, hi: nat, requests: seq<ReadRequest>, bytes: seq<seq<Byte>>)
    requires LengthsFit(requests, bytes)
    requires forall i :: 0 <= i < |requests| ==> SeenTwice(view, lo, hi, requests[i], bytes[i])
    ensures AllSeen(view, lo, hi, GuardsOn(requests, bytes))
  {
  }

  // ----- the double read of an indexed array

  /** Every call between `lo` and `hi` answers truthfully and sees these bytes for the requests. */
  ghost predicate Calm(
    view: nat -> Memory, replies: nat -> Reply, lo: nat, hi: nat, requests: seq<ReadRequest>, bytes: seq<seq<Byte>>)
  {
    && LengthsFit(requests, bytes)
    && forall n: nat {:trigger view(n)} {:trigger replies(n)} :: lo <= n < hi ==>
      replies(n).Truth? && AllReadableIn(view(n), requests) && AllBytes(view(n), requests) == bytes
  }

  /** Within a calm window a read fails nowhere and finds what every call of the window sees. */
  lemma {:induction false} CalmRead(
    view: nat -> Memory, replies: nat -> Reply, from: nat, lo: nat, hi: nat, to: nat, requests: seq<ReadRequest>,
    result: BoundedReadResult, bytes: seq<seq<Byte>>)
    requires RequestsLegal(requests) && from <= lo <= hi <= to && Calm(view, replies, from, to, requests, bytes)
    requires ReadsHonest(view, lo, hi, requests, result) && BatchFates(view, replies, lo, hi, requests, result.failed)
    ensures NoneFailed(result.failed) && result.bytes == bytes
  {
    ReadableFates(view, replies, lo, hi, requests, result.failed);
    forall i | 0 <= i < |requests|
      ensures result.bytes[i] == bytes[i]
    {
      var n := lo + BatchIndex(requests, i);
      assert SlotHonest(view, n, requests[i], result.bytes[i], result.failed[i]);
      assert AllBytes(view(n), requests)[i] == bytes[i];
    }
  }

  lemma {:induction false} CalmReads(
    view: nat -> Memory, replies: nat -> Reply, lo: nat, mid: nat, hi: nat, requests: seq<ReadRequest>,
    first: BoundedReadResult, second: BoundedReadResult)
    requires RequestsLegal(requests) && lo <= mid <= hi
    requires ReadsHonest(view, lo, mid, requests, first) && BatchFates(view, replies, lo, mid, requests, first.failed)
    requires ReadsHonest(view, mid, hi, requests, second) && BatchFates(view, replies, mid, hi, requests, second.failed)
    ensures forall bytes :: Calm(view, replies, lo, hi, requests, bytes) ==>
      NoneFailed(first.failed) && NoneFailed(second.failed) && first.bytes == second.bytes == bytes
  {
    forall bytes | Calm(view, replies, lo, hi, requests, bytes)
      ensures NoneFailed(first.failed) && NoneFailed(second.failed) && first.bytes == second.bytes == bytes
    {
      CalmRead(view, replies, lo, lo, mid, hi, requests, first, bytes);
      CalmRead(view, replies, lo, mid, hi, hi, requests, second, bytes);
    }
  }

  lemma {:induction false} SteadyReads(memory: Memory, requests: seq<ReadRequest>, failed: seq<bool>)
    requires RequestsLegal(requests) && SteadyFates(memory, requests, failed)
    ensures NoneFailed(failed) <==> AllReadableIn(memory, requests)
  {
    forall i: nat | i < |requests|
      ensures AllReadableIn(memory, requests) ==> !failed[i]
      ensures !failed[i] ==> Readable(memory, requests[i])
    {
      var batch := BatchOf(requests, i);
      BatchInside(requests, 0, i);
      if AllReadableIn(memory, requests) {
        forall k | 0 <= k < |batch|
          ensures Readable(memory, batch[k])
        {
          assert batch[k] in batch;
        }
      }
    }
  }

  lemma {:induction false} AgreedSlot(
    backend: DiscoveryBackend, lo: nat, mid: nat, hi: nat, requests: seq<ReadRequest>, first: BoundedReadResult,
    second: BoundedReadResult, i: nat)
    requires RequestsLegal(requests) && i < |requests|
    requires ReadsHonest(backend.view, lo, mid, requests, first) && NoneFailed(first.failed)
    requires ReadsHonest(backend.view, mid, hi, requests, second) && NoneFailed(second.failed)
    requires first.bytes == second.bytes
    ensures SeenTwice(backend.view, lo, hi, requests[i], first.bytes[i]) && |first.bytes[i]| == requests[i].length
    ensures Steady(backend) ==> Saw(backend.view, 0, requests[i], first.bytes[i])
  {
    var m, n := lo + BatchIndex(requests, i), mid + BatchIndex(requests, i);
    assert SlotHonest(backend.view, m, requests[i], first.bytes[i], first.failed[i]);
    assert SlotHonest(backend.view, n, requests[i], second.bytes[i], second.failed[i]);
    SeenBySlots(backend.view, lo, m, n, hi, requests[i], first.bytes[i]);
  }

  /** Both reads must succeed and agree; they do when every call is truthful and sees the same readable bytes. */
  method DoubleRead(backend: DiscoveryBackend, requests: seq<ReadRequest>) returns (out: Option<seq<seq<Byte>>>)
    modifies backend
    ensures old(backend.calls) <= backend.calls
    ensures out.Some? ==> RequestsLegal(requests) && LengthsFit(requests, out.value)
    ensures out.Some? ==> forall i :: 0 <= i < |requests| ==>
      SeenTwice(backend.view, old(backend.calls), backend.calls, requests[i], out.value[i])
    ensures RequestsLegal(requests) ==> forall bytes ::
      Calm(backend.view, backend.replies, old(backend.calls), backend.calls, requests, bytes) ==> out == Some(bytes)
    ensures Steady(backend) ==>
      (out.Some? <==> RequestsLegal(requests) && AllReadableIn(backend.view(0), requests))
    ensures Steady(backend) && out.Some? ==> out.value == AllBytes(backend.view(0), requests)
  {
    var first, _, _ := ReadBoundedBatches(backend, requests);
    if !first.requestsValid {
      return None;
    }
    ghost var lo, mid := old(backend.calls), backend.calls;
    var second, _, _ := ReadBoundedBatches(backend, requests);
    CalmReads(backend.view, backend.replies, lo, mid, backend.calls, requests, first, second);
    if Steady(backend) {
      SteadyReads(backend.view(0), requests, first.failed);
      SteadyReads(backend.view(0), requests, second.failed);
    }
    if first.bytes != second.bytes || !NoneFailed(first.failed) || !NoneFailed(second.failed) {
      return None;
    }
    out := Some(first.bytes);
    forall i: nat | i < |requests|
      ensures SeenTwice(backend.view, lo, backend.calls, requests[i], first.bytes[i])
      ensures |first.bytes[i]| == requests[i].length
      ensures Steady(backend) ==> Saw(backend.view, 0, requests[i], first.bytes[i])
    {
      AgreedSlot(backend, lo, mid, backend.calls, requests, first, second, i);
    }
  }

  method CollectSlots(c: Catalog, e: Entry) returns (slots: Option<seq<ReadRequest>>)
    ensures slots.Some? <==> IndexedFits(c, e)
    ensures slots.Some? ==> slots.value == SlotRequests(e)
  {
    var d := e.descriptor;
    var valid := d.virtualTarget.Some? && d.virtualWidth != 0;
    for i := 0 to |e.profile.relationships|
      invariant valid <==> (
        && d.virtualTarget.Some? && d.virtualWidth != 0
        && forall j :: 0 <= j < i ==> IndexedRelationFits(c, d, e.profile.relationships[j]))
    {
      valid := valid && IndexedRelationFits(c, d, e.profile.relationships[i]);
    }
    var requests: seq<ReadRequest> := [];
    for i := 0 to |e.profile.rows|
      invariant |requests| == i
      invariant forall j :: 0 <= j < i ==> SlotRequest(d, e.profile.rows[j]) == Some(requests[j])
    {
      var request := SlotRequest(d, e.profile.rows[i]);
      if request.None? {
        return None;
      }
      requests := requests + [request.value];
    }
    slots := if valid then Some(requests) else None;
  }

  method CollectWrappers(slots: seq<seq<Byte>>) returns (wrappers: Option<seq<ReadRequest>>)
    ensures wrappers.Some? <==> AllPoint(slots)
    ensures wrappers.Some? ==> wrappers.value == WrapperRequests(slots)
  {
    var requests: seq<ReadRequest> := [];
    for i := 0 to |slots|
      invariant AllPoint(slots[..i]) && requests == WrapperRequests(slots[..i])
    {
      if !SlotPoints(slots[i]) {
        return None;
      }
      SeqFacts.TakePush([], slots, i);
      requests := requests + [ReadRequest(LittleEndian(slots[i]), WRAPPER_BYTES)];
    }
    SeqFacts.TakeAll(slots);
    wrappers := Some(requests);
  }

  method CheckWrappers(e: Entry, wrappers: seq<seq<Byte>>) returns (valid: bool)
    requires |wrappers| == |e.profile.rows|
    ensures valid <==> WrappersFit(e, wrappers)
  {
    var wrapperType: Option<nat> := None;
    for i := 0 to |wrappers|
      invariant wrapperType.None? <==> i == 0
      invariant forall j :: 0 <= j < i ==> WrapperFits(wrappers[j], wrappers[0], e.profile.rows[j].rowIndex)
      invariant wrapperType.Some? ==> |wrappers[0]| == WRAPPER_BYTES && wrapperType.value == WrapperType(wrappers[0])
    {
      var wrapper := wrappers[i];
      if |wrapper| != WRAPPER_BYTES {
        return false;
      }
      var ownType := WrapperType(wrapper);
      if ownType == 0 || (wrapperType.Some? && wrapperType.value != ownType)
         || LittleEndian(wrapper[24..]) != e.profile.rows[i].rowIndex {
        return false;
      }
      wrapperType := Some(ownType);
    }
    valid := true;
  }

  /** Between `lo` and `hi` every call is truthful and sees one and the same whole chain. */
  ghost predicate ChainCalm(
    c: Catalog, e: Entry, view: nat -> Memory, replies: nat -> Reply, lo: nat, hi: nat, slots: seq<seq<Byte>>,
    wrappers: seq<seq<Byte>>)
  {
    && IndexedFits(c, e) && RequestsLegal(SlotRequests(e)) && AllPoint(slots) && WrappersFit(e, wrappers)
    && Calm(view, replies, lo, hi, SlotRequests(e), slots)
    && Calm(view, replies, lo, hi, WrapperRequests(slots), wrappers)
  }

  ghost predicate ChainSettled(c: Catalog, e: Entry, view: nat -> Memory, replies: nat -> Reply, lo: nat, hi: nat)
  {
    exists slots, wrappers :: ChainCalm(c, e, view, replies, lo, hi, slots, wrappers)
  }

  /** The slot, wrapper and type chain of one indexed array, each link read twice. */
  method SurveyIndexed(c: Catalog, e: Entry, backend: DiscoveryBackend) returns (out: Option<seq<Guard>>)
    modifies backend
    ensures old(backend.calls) <= backend.calls
    ensures out.Some? ==> ChainGuards(c, e, out.value) && |out.value| == 2 * |e.profile.rows|
    ensures out.Some? ==> AllSeen(backend.view, old(backend.calls), backend.calls, out.value)
    ensures ChainSettled(c, e, backend.view, backend.replies, old(backend.calls), backend.calls) ==> out.Some?
    ensures Steady(backend) ==> (out.Some? <==> ChainHolds(c, e, backend.view(0)))
  {
    var slotRequests := CollectSlots(c, e);
    if slotRequests.None? {
      return None;
    }
    var slots := DoubleRead(backend, slotRequests.value);
    if slots.None? {
      return None;
    }
    ghost var lo, mid := old(backend.calls), backend.calls;
    var wrapperRequests := CollectWrappers(slots.value);
    if wrapperRequests.None? {
      return None;
    }
    var wrappers := DoubleRead(backend, wrapperRequests.value);
    forall s, w | ChainCalm(c, e, backend.view, backend.replies, lo, backend.calls, s, w)
      ensures wrappers == Some(w)
    {
      assert Calm(backend.view, backend.replies, lo, mid, slotRequests.value, s);
      assert Calm(backend.view, backend.replies, mid, backend.calls, wrapperRequests.value, w);
    }
    if wrappers.None? {
      return None;
    }
    var valid := CheckWrappers(e, wrappers.value);
    if !valid {
      return None;
    }
    var front, back := GuardsOn(slotRequests.value, slots.value), GuardsOn(wrapperRequests.value, wrappers.value);
    out := Some(front + back);
    assert ChainOf(e, front + back, slots.value, wrappers.value);
    ghost var hi := backend.calls;
    SeenGuards(backend.view, lo, mid, slotRequests.value, slots.value);
    SeenGuards(backend.view, mid, hi, wrapperRequests.value, wrappers.value);
    SeenLater(backend.view, lo, lo, mid, hi, front);
    SeenLater(backend.view, lo, mid, hi, hi, back);
  }

  // ----- the survey of all tables

  function Keep(probes: seq<Probe>, probe: Option<Probe>): seq<Probe> {
    if probe.Some? then probes + [probe.value] else probes
  }

  lemma {:induction false} KeepFromAll(all: seq<Option<Probe>>, i: nat)
    requires i < |all|
    ensures Somes(all[..i + 1]) == Keep(Somes(all[..i]), all[i])
    ensures AllSome(all[..i + 1]) <==> AllSome(all[..i]) && all[i].Some?
  {
    SeqFacts.TakeTake(all, i);
    SeqFacts.TakePush([], all, i);
  }

  lemma {:induction false} KeepNext(c: Catalog, e: Entry, i: nat, probe: Option<Probe>)
    requires i < |Candidates(c, e)| && probe == Candidates(c, e)[i]
    ensures Somes(Candidates(c, e)[..i + 1]) == Keep(Somes(Candidates(c, e)[..i]), probe)
    ensures AllSome(Candidates(c, e)[..i + 1]) <==> AllSome(Candidates(c, e)[..i]) && probe.Some?
  {
    KeepFromAll(Candidates(c, e), i);
  }

  /** How far the probes of one record table have been tried. */
  predicate Tried(c: Catalog, e: Entry, i: nat, passed: bool, probes: seq<Probe>) {
    && i <= |Candidates(c, e)|
    && (passed <==> AllSome(Candidates(c, e)[..i])) && probes == Somes(Candidates(c, e)[..i])
  }

  lemma {:induction false} TriedAll(c: Catalog, e: Entry, passed: bool, probes: seq<Probe>)
    requires Tried(c, e, |e.profile.rows| + |e.profile.relationships|, passed, probes)
    ensures (passed <==> AllSome(Candidates(c, e))) && probes == Somes(Candidates(c, e))
  {
    SeqFacts.TakeAll(Candidates(c, e));
  }

  method TryRows(c: Catalog, e: Entry) returns (passed: bool, probes: seq<Probe>)
    ensures Tried(c, e, |e.profile.rows|, passed, probes)
  {
    passed, probes := true, [];
    for i := 0 to |e.profile.rows|
      invariant Tried(c, e, i, passed, probes)
    {
      var probe := SentinelProbe(e.descriptor, e.profile.rows[i]);
      KeepNext(c, e, i, probe);
      passed, probes := passed && probe.Some?, Keep(probes, probe);
    }
  }

  lemma {:induction false} TriedNext(c: Catalog, e: Entry, i: nat, passed: bool, probes: seq<Probe>)
    requires i < |e.profile.relationships| && Tried(c, e, |e.profile.rows| + i, passed, probes)
    ensures var probe := RelationProbe(c, e.descriptor, e.profile.relationships[i]);
      Tried(c, e, |e.profile.rows| + i + 1, passed && probe.Some?, Keep(probes, probe))
  {
    KeepNext(c, e, |e.profile.rows| + i, RelationProbe(c, e.descriptor, e.profile.relationships[i]));
  }

  method TryRelationships(c: Catalog, e: Entry, before: bool, tried: seq<Probe>)
    returns (passed: bool, probes: seq<Probe>)
    requires Tried(c, e, |e.profile.rows|, before, tried)
    ensures Tried(c, e, |e.profile.rows| + |e.profile.relationships|, passed, probes)
  {
    passed, probes := before, tried;
    for i := 0 to |e.profile.relationships|
      invariant Tried(c, e, |e.profile.rows| + i, passed, probes)
    {
      var probe := RelationProbe(c, e.descriptor, e.profile.relationships[i]);
      TriedNext(c, e, i, passed, probes);
      passed, probes := passed && probe.Some?, Keep(probes, probe);
    }
  }

  method SurveyRecords(c: Catalog, e: Entry) returns (passed: bool, probes: seq<Probe>)
    ensures passed <==> AllSome(Candidates(c, e))
    ensures probes == Somes(Candidates(c, e))
  {
    passed, probes := TryRows(c, e);
    passed, probes := TryRelationships(c, e, passed, probes);
    TriedAll(c, e, passed, probes);
  }

  predicate SurveyFits(c: Catalog, e: Entry, memory: Memory, allocations: Allocations) {
    && allocations(e.descriptor.allocationBase, e.descriptor.allocationSize)
    && if Indexed(e) then ChainHolds(c, e, memory) else AllSome(Candidates(c, e))
  }

  /** What the survey of one table leaves when the table passes. */
  ghost predicate Passed(
    c: Catalog, e: Entry, view: nat -> Memory, lo: nat, hi: nat, probes: seq<Probe>, guards: seq<Guard>)
  {
    && probes == EntryProbes(c, e, EVERYWHERE) && AllSeen(view, lo, hi, guards)
    && if Indexed(e) then |guards| == 2 * |e.profile.rows| && ChainGuards(c, e, guards)
       else guards == [] && AllSome(Candidates(c, e))
  }

  /** Where the calls from `lo` to `hi` are those that survey one table, none of them gives a reason to fail it: the
      first finds its allocation, and the others see a calm chain or all of its probes can be placed. */
  ghost predicate Sound(c: Catalog, e: Entry, backend: DiscoveryBackend, lo: nat, hi: nat) {
    && backend.allocations(lo)(e.descriptor.allocationBase, e.descriptor.allocationSize)
    && if Indexed(e) then ChainSettled(c, e, backend.view, backend.replies, lo + 1, hi) else AllSome(Candidates(c, e))
  }

  method SurveyEntry(c: Catalog, e: Entry, backend: DiscoveryBackend)
    returns (passed: bool, probes: seq<Probe>, guards: seq<Guard>)
    modifies backend
    ensures old(backend.calls) <= backend.calls
    ensures passed ==> Passed(c, e, backend.view, old(backend.calls), backend.calls, probes, guards)
    ensures Sound(c, e, backend, old(backend.calls), backend.calls) ==> passed
    ensures probes == [] || probes == EntryProbes(c, e, EVERYWHERE)
    ensures Steady(backend) ==> (passed <==> SurveyFits(c, e, backend.view(0), backend.allocations(0)))
    ensures Steady(backend) ==> probes == EntryProbes(c, e, backend.allocations(0))
  {
    passed, probes, guards := false, [], [];
    var found := backend.AllocationExists(e.descriptor.allocationBase, e.descriptor.allocationSize);
    if !found {
      return;
    }
    if Indexed(e) {
      ghost var mid := backend.calls;
      var chain := SurveyIndexed(c, e, backend);
      if chain.Some? {
        SeenLater(backend.view, old(backend.calls), mid, backend.calls, backend.calls, chain.value);
        passed, guards := true, chain.value;
      }
    } else {
      passed, probes := SurveyRecords(c, e);
    }
  }

  ghost function SurveyFailures(c: Catalog, entries: seq<Entry>, memory: Memory, allocations: Allocations): set<nat> {
    set e | e in entries && !SurveyFits(c, e, memory, allocations) :: e.descriptor.uniqueId
  }

  /** The calls from `lo` to `hi` are those of `count` tables, one after the other: those of table `i` are the ones
      from `marks[i]` on. */
  ghost predicate Marked(marks: seq<nat>, count: nat, lo: nat, hi: nat) {
    && |marks| == count + 1 && marks[0] == lo && marks[count] == hi
    && forall i :: 0 <= i < count ==> marks[i] <= marks[i + 1]
  }

  /** The tables that one of their own calls gave a reason to fail. */
  ghost function Unsound(c: Catalog, entries: seq<Entry>, backend: DiscoveryBackend, marks: seq<nat>): set<nat>
    requires |marks| == |entries| + 1
  {
    set i: nat | i < |entries| && !Sound(c, entries[i], backend, marks[i], marks[i + 1])
      :: entries[i].descriptor.uniqueId
  }

  ghost predicate ProbesFrom(c: Catalog, probes: seq<Probe>, entries: seq<Entry>) {
    forall p :: p in probes ==> p in AllProbes(c, entries, EVERYWHERE)
  }

  /** A survey of steady memory fails exactly the tables that do not fit. */
  ghost predicate SteadySurvey(
    c: Catalog, backend: DiscoveryBackend, entries: seq<Entry>, failed: set<nat>, probes: seq<Probe>)
  {
    Steady(backend) ==>
      && probes == AllProbes(c, entries, backend.allocations(0))
      && failed == SurveyFailures(c, entries, backend.view(0), backend.allocations(0))
  }

  /** A survey that failed no table has the evidence of all of them. */
  ghost predicate CleanSurvey(
    c: Catalog, view: nat -> Memory, lo: nat, hi: nat, entries: seq<Entry>, failed: set<nat>, probes: seq<Probe>,
    guards: seq<Guard>)
  {
    failed == {} ==>
      && probes == AllProbes(c, entries, EVERYWHERE)
      && IndexedGuards(c, entries, guards) && AllSeen(view, lo, hi, guards)
  }

  ghost predicate Surveyed(
    c: Catalog, backend: DiscoveryBackend, lo: nat, hi: nat, marks: seq<nat>, entries: seq<Entry>, failed: set<nat>,
    probes: seq<Probe>, guards: seq<Guard>)
  {
    && lo <= hi && Marked(marks, |entries|, lo, hi)
    && failed <= Unsound(c, entries, backend, marks) && ProbesFrom(c, probes, entries)
    && CleanSurvey(c, backend.view, lo, hi, entries, failed, probes, guards)
    && SteadySurvey(c, backend, entries, failed, probes)
  }

  lemma {:induction false} SentinelSource(d: CatalogDescriptor, s: RowFingerprint)
    ensures SentinelProbe(d, s).Some? ==> SentinelProbe(d, s).value.uniqueId == d.uniqueId
  {
  }

  lemma {:induction false} RelationSource(c: Catalog, d: CatalogDescriptor, r: RelationshipConstraint)
    ensures RelationProbe(c, d, r).Some? ==> RelationProbe(c, d, r).value.uniqueId == d.uniqueId
  {
  }

  lemma {:induction false} CandidateSource(c: Catalog, e: Entry, p: Probe)
    requires p in Somes(Candidates(c, e))
    ensures p.uniqueId == e.descriptor.uniqueId
  {
    var i :| 0 <= i < |Candidates(c, e)| && Candidates(c, e)[i] == Some(p);
    if i < |e.profile.rows| {
      SentinelSource(e.descriptor, e.profile.rows[i]);
    } else {
      RelationSource(c, e.descriptor, e.profile.relationships[i - |e.profile.rows|]);
    }
  }

  lemma {:induction false} GuardsPush(c: Catalog, entries: seq<Entry>, e: Entry, guards: seq<Guard>, own: seq<Guard>)
    requires IndexedGuards(c, entries, guards)
    requires if Indexed(e) then |own| == 2 * |e.profile.rows| && ChainGuards(c, e, own)
             else own == [] && AllSome(Candidates(c, e))
    ensures IndexedGuards(c, entries + [e], guards + own)
  {
  }

  lemma {:induction false} SeenConcat(view: nat -> Memory, lo: nat, hi: nat, a: seq<Guard>, b: seq<Guard>)
    requires AllSeen(view, lo, hi, a) && AllSeen(view, lo, hi, b)
    ensures AllSeen(view, lo, hi, a + b)
  {
  }

  lemma {:induction false} GuardsStep(
    c: Catalog, view: nat -> Memory, lo: nat, mid: nat, hi: nat, entries: seq<Entry>, e: Entry, probes: seq<Probe>,
    guards: seq<Guard>, own: seq<Probe>, chain: seq<Guard>)
    requires lo <= mid <= hi
    requires probes == AllProbes(c, entries, EVERYWHERE)
    requires IndexedGuards(c, entries, guards) && AllSeen(view, lo, mid, guards)
    requires Passed(c, e, view, mid, hi, own, chain)
    ensures probes + own == AllProbes(c, entries + [e], EVERYWHERE)
    ensures IndexedGuards(c, entries + [e], guards + chain) && AllSeen(view, lo, hi, guards + chain)
  {
    SeqFacts.PushFront(entries, e);
    GuardsPush(c, entries, e, guards, chain);
    SeenLater(view, lo, lo, mid, hi, guards);
    SeenLater(view, lo, mid, hi, hi, chain);
    SeenConcat(view, lo, hi, guards, chain);
  }

  function WithFailure(failed: set<nat>, e: Entry, passed: bool): set<nat> {
    if passed then failed else failed + {e.descriptor.uniqueId}
  }

  lemma {:induction false} CleanStep(
    c: Catalog, view: nat -> Memory, lo: nat, mid: nat, hi: nat, entries: seq<Entry>, e: Entry, failed: set<nat>,
    probes: seq<Probe>, guards: seq<Guard>, passed: bool, own: seq<Probe>, chain: seq<Guard>)
    requires lo <= mid <= hi && CleanSurvey(c, view, lo, mid, entries, failed, probes, guards)
    requires passed ==> Passed(c, e, view, mid, hi, own, chain)
    ensures CleanSurvey(c, view, lo, hi, entries + [e], WithFailure(failed, e, passed), probes + own, guards + chain)
  {
    if WithFailure(failed, e, passed) == {} {
      assert passed;
      GuardsStep(c, view, lo, mid, hi, entries, e, probes, guards, own, chain);
    }
  }

  lemma {:induction false} SteadyStep(
    c: Catalog, backend: DiscoveryBackend, entries: seq<Entry>, e: Entry, failed: set<nat>, probes: seq<Probe>,
    passed: bool, own: seq<Probe>)
    requires SteadySurvey(c, backend, entries, failed, probes)
    requires Steady(backend) ==> (passed <==> SurveyFits(c, e, backend.view(0), backend.allocations(0)))
    requires Steady(backend) ==> own == EntryProbes(c, e, backend.allocations(0))
    ensures SteadySurvey(c, backend, entries + [e], WithFailure(failed, e, passed), probes + own)
  {
    SeqFacts.PushFront(entries, e);
  }

  lemma {:induction false} CausedStep(
    c: Catalog, backend: DiscoveryBackend, mid: nat, hi: nat, marks: seq<nat>, entries: seq<Entry>, e: Entry,
    failed: set<nat>, passed: bool)
    requires |marks| == |entries| + 1 && marks[|entries|] == mid && failed <= Unsound(c, entries, backend, marks)
    requires Sound(c, e, backend, mid, hi) ==> passed
    ensures WithFailure(failed, e, passed) <= Unsound(c, entries + [e], backend, marks + [hi])
  {
    var all, ends := entries + [e], marks + [hi];
    forall u | u in WithFailure(failed, e, passed)
      ensures u in Unsound(c, all, backend, ends)
    {
      if u in failed {
        var i: nat :| i < |entries| && !Sound(c, entries[i], backend, marks[i], marks[i + 1])
          && entries[i].descriptor.uniqueId == u;
        assert all[i] == entries[i] && ends[i] == marks[i] && ends[i + 1] == marks[i + 1];
      } else {
        assert all[|entries|] == e && ends[|entries|] == mid && ends[|entries| + 1] == hi;
      }
    }
  }

  lemma {:induction false} ProbesStep(c: Catalog, entries: seq<Entry>, e: Entry, probes: seq<Probe>, own: seq<Probe>)
    requires ProbesFrom(c, probes, entries) && (own == [] || own == EntryProbes(c, e, EVERYWHERE))
    ensures ProbesFrom(c, probes + own, entries + [e])
  {
    SeqFacts.PushFront(entries, e);
  }

  lemma {:induction false} SurveyStep(
    c: Catalog, backend: DiscoveryBackend, lo: nat, mid: nat, hi: nat, marks: seq<nat>, entries: seq<Entry>, e: Entry,
    failed: set<nat>, probes: seq<Probe>, guards: seq<Guard>, passed: bool, own: seq<Probe>, chain: seq<Guard>)
    requires mid <= hi && Surveyed(c, backend, lo, mid, marks, entries, failed, probes, guards)
    requires passed ==> Passed(c, e, backend.view, mid, hi, own, chain)
    requires Sound(c, e, backend, mid, hi) ==> passed
    requires own == [] || own == EntryProbes(c, e, EVERYWHERE)
    requires Steady(backend) ==> (passed <==> SurveyFits(c, e, backend.view(0), backend.allocations(0)))
    requires Steady(backend) ==> own == EntryProbes(c, e, backend.allocations(0))
    ensures Surveyed(c, backend, lo, hi, marks + [hi], entries + [e], WithFailure(failed, e, passed), probes + own,
                     guards + chain)
  {
    CleanStep(c, backend.view, lo, mid, hi, entries, e, failed, probes, guards, passed, own, chain);
    SteadyStep(c, backend, entries, e, failed, probes, passed, own);
    CausedStep(c, backend, mid, hi, marks, entries, e, failed, passed);
    ProbesStep(c, entries, e, probes, own);
  }

  method Survey(c: Catalog, backend: DiscoveryBackend)
    returns (failed: set<nat>, probes: seq<Probe>, guards: seq<Guard>, ghost marks: seq<nat>)
    modifies backend
    ensures Surveyed(c, backend, old(backend.calls), backend.calls, marks, c.entries, failed, probes, guards)
  {
    failed, probes, guards, marks := {}, [], [], [backend.calls];
    for i := 0 to |c.entries|
      invariant Surveyed(c, backend, old(backend.calls), backend.calls, marks, c.entries[..i], failed, probes, guards)
    {
      ghost var mid := backend.calls;
      var e := c.entries[i];
      var passed, own, chain := SurveyEntry(c, e, backend);
      SurveyStep(c, backend, old(backend.calls), mid, backend.calls, marks, c.entries[..i], e,
                 failed, probes, guards, passed, own, chain);
      SeqFacts.TakePush([], c.entries, i);
      failed := WithFailure(failed, e, passed);
      probes, guards, marks := probes + own, guards + chain, marks + [backend.calls];
    }
    SeqFacts.TakeAll(c.entries);
  }
}
