/** The discovery backend as the catalog sees it, and reads split into bounded batches. */
module CatalogReads {
  import opened Bytes
  import SeqFacts

  const MAX_BATCH_RANGES: nat := 64
  const MAX_BATCH_BYTES: nat := 262144

  datatype ReadRequest = ReadRequest(address: Address, length: nat)

  /** How the backend answers its `n`-th call: not at all, truthfully, or with an answer of the wrong shape. */
  datatype Reply = Fails | Truth | Misshapen(bytes: seq<seq<Byte>>)

  predicate ShapeFits(requests: seq<ReadRequest>, bytes: seq<seq<Byte>>) {
    |bytes| == |requests| && forall i :: 0 <= i < |bytes| ==> |bytes[i]| == requests[i].length
  }

  predicate Readable(memory: Memory, r: ReadRequest) {
    Mapped(memory, r.address, r.length)
  }

  predicate AllReadableIn(memory: Memory, requests: seq<ReadRequest>) {
    forall i :: 0 <= i < |requests| ==> Readable(memory, requests[i])
  }

  function BytesAt(memory: Memory, r: ReadRequest): seq<Byte>
    requires Readable(memory, r)
  {
    Slice(memory, r.address, r.length)
  }

  /** Which base and size pairs are allocations. */
  type Allocations = (Address, nat) -> bool

  /** Memory and allocations may differ at every call; `view(n)` and `allocations(n)` are what call `n` sees. */
  class DiscoveryBackend {
    const view: nat -> Memory
    const replies: nat -> Reply
    const allocations: nat -> Allocations
    var calls: nat
    ghost var batches: seq<seq<ReadRequest>>

    constructor (view: nat -> Memory, replies: nat -> Reply, allocations: nat -> Allocations)
      ensures this.view == view && this.replies == replies && this.allocations == allocations
      ensures calls == 0 && batches == []
    {
      this.view, this.replies, this.allocations := view, replies, allocations;
      calls, batches := 0, [];
    }

    method AllocationExists(base: Address, size: nat) returns (found: bool)
      modifies this`calls
      ensures found == allocations(old(calls))(base, size)
      ensures calls == old(calls) + 1
    {
      found := allocations(calls)(base, size);
      calls := calls + 1;
    }

    /** All of the batch or nothing; an answer of the right shape is the truth. */
    method ReadBatch(requests: seq<ReadRequest>) returns (out: Option<seq<seq<Byte>>>)
      modifies this
      ensures calls == old(calls) + 1 && batches == old(batches) + [requests]
      ensures out.Some? && ShapeFits(requests, out.value) ==> forall i :: 0 <= i < |requests| ==>
        Readable(view(old(calls)), requests[i]) && out.value[i] == BytesAt(view(old(calls)), requests[i])
      ensures replies(old(calls)).Truth? && AllReadableIn(view(old(calls)), requests) ==>
        out.Some? && ShapeFits(requests, out.value)
    {
      var memory, reply := view(calls), replies(calls);
      calls, batches := calls + 1, batches + [requests];
      if reply.Fails? || (reply.Misshapen? && ShapeFits(requests, reply.bytes)) {
        return None;
      }
      if reply.Misshapen? {
        return Some(reply.bytes);
      }
      if exists i :: 0 <= i < |requests| && !Readable(memory, requests[i]) {
        return None;
      }
      out := Some(seq(|requests|, i requires 0 <= i < |requests| => BytesAt(memory, requests[i])));
    }
  }

  /** Memory and allocations never change and every reply is truthful. */
  ghost predicate Steady(backend: DiscoveryBackend) {
    forall n: nat ::
      && backend.view(n) == backend.view(0) && backend.allocations(n) == backend.allocations(0)
      && backend.replies(n).Truth?
  }

  // ----- bounded batches

  predicate RequestLegal(r: ReadRequest) {
    0 < r.length <= MAX_BATCH_BYTES && r.address + r.length <= ADDRESS_MAX
  }

  predicate RequestsLegal(requests: seq<ReadRequest>) {
    forall i :: 0 <= i < |requests| ==> RequestLegal(requests[i])
  }

  function TotalLength(requests: seq<ReadRequest>): nat {
    if requests == [] then 0 else TotalLength(requests[..|requests| - 1]) + requests[|requests| - 1].length
  }

  predicate Bounded(batch: seq<ReadRequest>) {
    0 < |batch| <= MAX_BATCH_RANGES && TotalLength(batch) <= MAX_BATCH_BYTES
  }

  function Flatten(batches: seq<seq<ReadRequest>>): seq<ReadRequest> {
    if batches == [] then [] else Flatten(batches[..|batches| - 1]) + batches[|batches| - 1]
  }

  datatype BoundedReadResult = BoundedReadResult(requestsValid: bool, bytes: seq<seq<Byte>>, failed: seq<bool>)

  /** How many requests the greedy batch at `begin` takes, `count` of them with `total` bytes taken already. */
  function BatchSizeFrom(requests: seq<ReadRequest>, begin: nat, count: nat, total: nat): (size: nat)
    requires begin + count <= |requests| && total <= MAX_BATCH_BYTES
    ensures count <= size && begin + size <= |requests|
    decreases |requests| - count
  {
    if begin + count < |requests| && count < MAX_BATCH_RANGES
       && requests[begin + count].length <= MAX_BATCH_BYTES - total
    then BatchSizeFrom(requests, begin, count + 1, total + requests[begin + count].length)
    else count
  }

  function BatchSize(requests: seq<ReadRequest>, begin: nat): (size: nat)
    requires begin < |requests| && RequestsLegal(requests)
    ensures 0 < size && begin + size <= |requests|
  {
    BatchSizeFrom(requests, begin, 1, requests[begin].length)
  }

  /** The batch that holds request `i`, when the batches are cut from `begin` on. */
  function BatchFrom(requests: seq<ReadRequest>, begin: nat, i: nat): (batch: seq<ReadRequest>)
    requires begin <= i < |requests| && RequestsLegal(requests)
    decreases i - begin
  {
    var next := begin + BatchSize(requests, begin);
    if i < next then requests[begin..next] else BatchFrom(requests, next, i)
  }

  function BatchOf(requests: seq<ReadRequest>, i: nat): (batch: seq<ReadRequest>)
    requires i < |requests| && RequestsLegal(requests)
  {
    BatchFrom(requests, 0, i)
  }

  /** How many batches come before the one that holds request `i`. */
  function IndexFrom(requests: seq<ReadRequest>, begin: nat, i: nat): (index: nat)
    requires begin <= i < |requests| && RequestsLegal(requests)
    decreases i - begin
  {
    var next := begin + BatchSize(requests, begin);
    if i < next then 0 else 1 + IndexFrom(requests, next, i)
  }

  function BatchIndex(requests: seq<ReadRequest>, i: nat): (index: nat)
    requires i < |requests| && RequestsLegal(requests)
  {
    IndexFrom(requests, 0, i)
  }

  /** A batch fails or is read as a whole: the call was not answered truthfully or could not read one of its
      requests, or it read them all. */
  predicate CallFate(view: nat -> Memory, replies: nat -> Reply, n: nat, batch: seq<ReadRequest>, failed: bool) {
    if failed then !replies(n).Truth? || !AllReadableIn(view(n), batch) else AllReadableIn(view(n), batch)
  }

  /** Slot `i` shared the fate of the call made for its own batch, the calls being counted from `lo`. */
  predicate BatchFate(
    view: nat -> Memory, replies: nat -> Reply, lo: nat, hi: nat, requests: seq<ReadRequest>, i: nat, failed: bool)
    requires i < |requests| && RequestsLegal(requests)
  {
    var n := lo + BatchIndex(requests, i);
    n < hi && CallFate(view, replies, n, BatchOf(requests, i), failed)
  }

  predicate BatchFates(
    view: nat -> Memory, replies: nat -> Reply, lo: nat, hi: nat, requests: seq<ReadRequest>, failed: seq<bool>)
    requires RequestsLegal(requests)
  {
    && |failed| == |requests|
    && forall i :: 0 <= i < |failed| ==> BatchFate(view, replies, lo, hi, requests, i, failed[i])
  }

  /** A slot either failed or holds what its request reads in the memory that call `n` sees. */
  predicate SlotHonest(view: nat -> Memory, n: nat, r: ReadRequest, bytes: seq<Byte>, failed: bool) {
    if failed then bytes == [] else Readable(view(n), r) && bytes == BytesAt(view(n), r)
  }

  /** The slots before `begin` hold what their own calls saw, calls `lo` to `hi` being made so far. */
  predicate HonestUpTo(
    view: nat -> Memory, lo: nat, hi: nat, requests: seq<ReadRequest>, begin: nat, bytes: seq<seq<Byte>>,
    failed: seq<bool>)
    requires begin <= |requests| && RequestsLegal(requests)
  {
    && |bytes| == |failed| == begin
    && forall i :: 0 <= i < begin ==>
      && lo + BatchIndex(requests, i) < hi
      && SlotHonest(view, lo + BatchIndex(requests, i), requests[i], bytes[i], failed[i])
  }

  predicate ReadsHonest(view: nat -> Memory, lo: nat, hi: nat, requests: seq<ReadRequest>, result: BoundedReadResult)
    requires RequestsLegal(requests)
  {
    HonestUpTo(view, lo, hi, requests, |requests|, result.bytes, result.failed)
  }

  /** The longest run of requests from `begin` on that fits one batch. */
  method TakeBatch(requests: seq<ReadRequest>, begin: nat) returns (count: nat)
    requires begin < |requests| && RequestsLegal(requests)
    ensures count == BatchSize(requests, begin)
    ensures begin + count <= |requests| && Bounded(requests[begin..begin + count])
    ensures 1 <= count <= 64 && TotalLength(requests[begin..begin + count]) <= 262144
    ensures begin + count < |requests| && count < 64 ==> TotalLength(requests[begin..begin + count + 1]) > 262144
  {
    count := 0;
    var total := 0;
    assert requests[begin..begin] == [];
    while begin + count < |requests| && count < MAX_BATCH_RANGES
      invariant begin + count <= |requests| && count <= MAX_BATCH_RANGES
      invariant total == TotalLength(requests[begin..begin + count]) <= MAX_BATCH_BYTES
      invariant count == 0 ==> total == 0
      invariant BatchSize(requests, begin) == BatchSizeFrom(requests, begin, count, total)
      decreases |requests| - count
    {
      var length := requests[begin + count].length;
      ghost var next := requests[begin..begin + count + 1];
      assert next[..|next| - 1] == requests[begin..begin + count] && next[|next| - 1].length == length;
      if length > MAX_BATCH_BYTES - total {
        return;
      }
      total := total + length;
      count := count + 1;
    }
  }

  /** Every reply is truthful and every request readable at every call. */
  ghost predicate AllReadable(view: nat -> Memory, replies: nat -> Reply, requests: seq<ReadRequest>) {
    forall n: nat :: replies(n).Truth? && AllReadableIn(view(n), requests)
  }

  predicate NoneFailed(failed: seq<bool>) {
    forall i :: 0 <= i < |failed| ==> !failed[i]
  }

  function Repeat(count: nat, value: bool): (s: seq<bool>)
    ensures |s| == count && forall i :: 0 <= i < count ==> s[i] == value
  {
    seq(count, _ => value)
  }

  /** What one call gave for its batch. */
  predicate BatchHonest(view: nat -> Memory, n: nat, batch: seq<ReadRequest>, bytes: seq<seq<Byte>>, failed: seq<bool>)
  {
    && |bytes| == |failed| == |batch|
    && forall j :: 0 <= j < |batch| ==> SlotHonest(view, n, batch[j], bytes[j], failed[j])
  }

  method ReadOneBatch(backend: DiscoveryBackend, bounded: seq<ReadRequest>)
    returns (bytes: seq<seq<Byte>>, failed: seq<bool>, ghost fate: bool)
    modifies backend
    ensures backend.calls == old(backend.calls) + 1 && backend.batches == old(backend.batches) + [bounded]
    ensures BatchHonest(backend.view, old(backend.calls), bounded, bytes, failed)
    ensures failed == Repeat(|bounded|, fate)
    ensures CallFate(backend.view, backend.replies, old(backend.calls), bounded, fate)
  {
    ghost var n := backend.calls;
    var chunk := backend.ReadBatch(bounded);
    if chunk.Some? && ShapeFits(bounded, chunk.value) {
      bytes, failed, fate := chunk.value, Repeat(|bounded|, false), false;
      assert AllReadableIn(backend.view(n), bounded);
    } else {
      bytes, failed, fate := seq(|bounded|, _ => []), Repeat(|bounded|, true), true;
      assert !backend.replies(n).Truth? || !AllReadableIn(backend.view(n), bounded);
    }
  }

  /** Cutting `count` batches from `from` on comes to `begin`. */
  predicate Boundary(requests: seq<ReadRequest>, from: nat, begin: nat, count: nat)
    requires from <= begin <= |requests| && RequestsLegal(requests)
    decreases begin - from
  {
    if from == begin then count == 0
    else
      var next := from + BatchSize(requests, from);
      count > 0 && next <= begin && Boundary(requests, next, begin, count - 1)
  }

  lemma {:induction false} NextBoundary(requests: seq<ReadRequest>, from: nat, begin: nat, count: nat, i: nat)
    requires RequestsLegal(requests) && from <= begin < |requests| && Boundary(requests, from, begin, count)
    ensures Boundary(requests, from, begin + BatchSize(requests, begin), count + 1)
    ensures begin <= i < begin + BatchSize(requests, begin) ==>
      && BatchFrom(requests, from, i) == requests[begin..begin + BatchSize(requests, begin)]
      && IndexFrom(requests, from, i) == count
    decreases begin - from
  {
    if from < begin {
      NextBoundary(requests, from + BatchSize(requests, from), begin, count - 1, i);
    }
  }

  predicate NextBatch(requests: seq<ReadRequest>, begin: nat, batch: seq<ReadRequest>)
    requires begin < |requests| && RequestsLegal(requests)
  {
    |batch| == BatchSize(requests, begin) && batch == requests[begin..begin + |batch|] && Bounded(batch)
  }

  /** The batches are those that greedy cutting gives. */
  predicate Cut(requests: seq<ReadRequest>, batches: seq<seq<ReadRequest>>)
    requires RequestsLegal(requests)
  {
    batches != [] ==>
      var front, begin := batches[..|batches| - 1], |Flatten(batches[..|batches| - 1])|;
      && Cut(requests, front) && begin < |requests| && NextBatch(requests, begin, batches[|batches| - 1])
  }

  /** The slots of the batches, each with the fate of its batch. */
  function Spread(batches: seq<seq<ReadRequest>>, fates: seq<bool>): (slots: seq<bool>)
    requires |batches| == |fates|
    ensures |slots| == |Flatten(batches)|
  {
    if batches == [] then []
    else
      var n := |batches| - 1;
      Spread(batches[..n], fates[..n]) + Repeat(|batches[n]|, fates[n])
  }

  /** Cut batches partition the requests so far, in order, into bounded batches. */
  lemma {:induction false} CutMeans(requests: seq<ReadRequest>, batches: seq<seq<ReadRequest>>)
    requires RequestsLegal(requests) && Cut(requests, batches)
    ensures |Flatten(batches)| <= |requests| && Flatten(batches) == requests[..|Flatten(batches)|]
    ensures forall k :: 0 <= k < |batches| ==> Bounded(batches[k])
  {
    if batches != [] {
      CutMeans(requests, batches[..|batches| - 1]);
    }
  }

  lemma {:induction false} CutIsBoundary(requests: seq<ReadRequest>, batches: seq<seq<ReadRequest>>)
    requires RequestsLegal(requests) && Cut(requests, batches)
    ensures |Flatten(batches)| <= |requests| && Boundary(requests, 0, |Flatten(batches)|, |batches|)
  {
    if batches != [] {
      var front := batches[..|batches| - 1];
      CutIsBoundary(requests, front);
      NextBoundary(requests, 0, |Flatten(front)|, |front|, 0);
    }
  }

  /** How many of the batches met, from call `lo` on, the fates on record. */
  function FatesMet(
    view: nat -> Memory, replies: nat -> Reply, lo: nat, batches: seq<seq<ReadRequest>>, fates: seq<bool>): (n: nat)
    requires |fates| == |batches|
    ensures n <= |batches|
  {
    if batches == [] then 0
    else
      var n := |batches| - 1;
      FatesMet(view, replies, lo, batches[..n], fates[..n])
      + (if CallFate(view, replies, lo + n, batches[n], fates[n]) then 1 else 0)
  }

  lemma {:induction false} FateMet(
    view: nat -> Memory, replies: nat -> Reply, lo: nat, batches: seq<seq<ReadRequest>>, fates: seq<bool>, k: nat)
    requires |fates| == |batches| && FatesMet(view, replies, lo, batches, fates) == |batches| && k < |batches|
    ensures CallFate(view, replies, lo + k, batches[k], fates[k])
  {
    var n := |batches| - 1;
    if k < n {
      FateMet(view, replies, lo, batches[..n], fates[..n], k);
    }
  }

  /** Slot `i` has the fate of the batch that holds its request. */
  predicate InBatch(requests: seq<ReadRequest>, batches: seq<seq<ReadRequest>>, fates: seq<bool>, i: nat, failed: bool)
    requires i < |requests| && RequestsLegal(requests) && |fates| == |batches|
  {
    var k := BatchIndex(requests, i);
    k < |batches| && batches[k] == BatchOf(requests, i) && failed == fates[k]
  }

  lemma {:induction false} SlotInBatch(
    requests: seq<ReadRequest>, batches: seq<seq<ReadRequest>>, fates: seq<bool>, i: nat)
    requires RequestsLegal(requests) && Cut(requests, batches) && |fates| == |batches| && i < |Flatten(batches)|
    ensures i < |requests| && InBatch(requests, batches, fates, i, Spread(batches, fates)[i])
  {
    var n := |batches| - 1;
    var begin := |Flatten(batches[..n])|;
    CutIsBoundary(requests, batches[..n]);
    if i < begin {
      SlotInBatch(requests, batches[..n], fates[..n], i);
    } else {
      NextBoundary(requests, 0, begin, n, i);
    }
  }

  /** Call by call: the `k`-th batch met its fate at call `lo + k`, and every slot has the fate of its batch. */
  ghost predicate Fated(
    view: nat -> Memory, replies: nat -> Reply, lo: nat, requests: seq<ReadRequest>, batches: seq<seq<ReadRequest>>,
    fates: seq<bool>, failed: seq<bool>)
    requires RequestsLegal(requests)
  {
    && |fates| == |batches| && |failed| == |requests|
    && (forall k :: 0 <= k < |batches| ==> CallFate(view, replies, lo + k, batches[k], fates[k]))
    && (forall i :: 0 <= i < |requests| ==> InBatch(requests, batches, fates, i, failed[i]))
  }

  /** Where the batch loop stands: the calls so far made the batches so far and met their fates. */
  ghost predicate Logged(
    view: nat -> Memory, replies: nat -> Reply, lo: nat, requests: seq<ReadRequest>, begin: nat,
    batches: seq<seq<ReadRequest>>, fates: seq<bool>, failed: seq<bool>)
  {
    && RequestsLegal(requests) && Cut(requests, batches) && |Flatten(batches)| == begin
    && |fates| == |batches| && failed == Spread(batches, fates)
    && FatesMet(view, replies, lo, batches, fates) == |batches|
  }

  lemma {:induction false} LoggedIsFated(
    view: nat -> Memory, replies: nat -> Reply, lo: nat, requests: seq<ReadRequest>, batches: seq<seq<ReadRequest>>,
    fates: seq<bool>, failed: seq<bool>)
    requires Logged(view, replies, lo, requests, |requests|, batches, fates, failed)
    ensures Fated(view, replies, lo, requests, batches, fates, failed)
  {
    forall k | 0 <= k < |batches|
      ensures CallFate(view, replies, lo + k, batches[k], fates[k])
    {
      FateMet(view, replies, lo, batches, fates, k);
    }
    forall i | 0 <= i < |requests|
      ensures InBatch(requests, batches, fates, i, failed[i])
    {
      SlotInBatch(requests, batches, fates, i);
    }
  }

  /** So a slot can fail only for what went wrong with the one call made for its own batch. */
  lemma {:induction false} SlotFates(
    view: nat -> Memory, replies: nat -> Reply, lo: nat, requests: seq<ReadRequest>, batches: seq<seq<ReadRequest>>,
    fates: seq<bool>, failed: seq<bool>)
    requires RequestsLegal(requests) && Fated(view, replies, lo, requests, batches, fates, failed)
    ensures BatchFates(view, replies, lo, lo + |batches|, requests, failed)
  {
    forall i | 0 <= i < |requests|
      ensures BatchFate(view, replies, lo, lo + |batches|, requests, i, failed[i])
    {
      assert InBatch(requests, batches, fates, i, failed[i]);
    }
  }

  lemma {:induction false} LoggedStep(
    view: nat -> Memory, replies: nat -> Reply, lo: nat, mid: nat, requests: seq<ReadRequest>, begin: nat,
    batches: seq<seq<ReadRequest>>, fates: seq<bool>, failed: seq<bool>, batch: seq<ReadRequest>, fate: bool)
    requires Logged(view, replies, lo, requests, begin, batches, fates, failed) && begin < |requests|
    requires NextBatch(requests, begin, batch) && mid == lo + |batches| && CallFate(view, replies, mid, batch, fate)
    ensures Logged(view, replies, lo, requests, begin + |batch|, batches + [batch], fates + [fate],
                   failed + Repeat(|batch|, fate))
  {
    SeqFacts.PushFront(batches, batch);
    SeqFacts.PushFront(fates, fate);
  }

  lemma {:induction false} HonestStep(
    view: nat -> Memory, lo: nat, requests: seq<ReadRequest>, begin: nat, count: nat, bytes: seq<seq<Byte>>,
    failed: seq<bool>, batch: seq<ReadRequest>, b: seq<seq<Byte>>, f: seq<bool>)
    requires RequestsLegal(requests) && begin < |requests| && Boundary(requests, 0, begin, count)
    requires NextBatch(requests, begin, batch)
    requires HonestUpTo(view, lo, lo + count, requests, begin, bytes, failed)
    requires BatchHonest(view, lo + count, batch, b, f)
    ensures HonestUpTo(view, lo, lo + count + 1, requests, begin + |batch|, bytes + b, failed + f)
  {
    forall i | 0 <= i < begin + |batch|
      ensures lo + BatchIndex(requests, i) < lo + count + 1
      ensures SlotHonest(view, lo + BatchIndex(requests, i), requests[i], (bytes + b)[i], (failed + f)[i])
    {
      if i >= begin {
        NextBoundary(requests, 0, begin, count, i);
        assert batch[i - begin] == requests[i];
      }
    }
  }

  ghost predicate Standing(
    view: nat -> Memory, replies: nat -> Reply, lo: nat, hi: nat, requests: seq<ReadRequest>, begin: nat,
    batches: seq<seq<ReadRequest>>, fates: seq<bool>, bytes: seq<seq<Byte>>, failed: seq<bool>)
  {
    && begin <= |requests| && hi == lo + |batches|
    && Logged(view, replies, lo, requests, begin, batches, fates, failed)
    && HonestUpTo(view, lo, hi, requests, begin, bytes, failed)
  }

  lemma {:induction false} NextStep(
    view: nat -> Memory, replies: nat -> Reply, lo: nat, mid: nat, requests: seq<ReadRequest>, begin: nat,
    batches: seq<seq<ReadRequest>>, fates: seq<bool>, bytes: seq<seq<Byte>>, failed: seq<bool>, batch: seq<ReadRequest>,
    b: seq<seq<Byte>>, f: seq<bool>, fate: bool)
    requires Standing(view, replies, lo, mid, requests, begin, batches, fates, bytes, failed) && begin < |requests|
    requires NextBatch(requests, begin, batch) && CallFate(view, replies, mid, batch, fate)
    requires BatchHonest(view, mid, batch, b, f) && f == Repeat(|batch|, fate)
    ensures Standing(view, replies, lo, mid + 1, requests, begin + |batch|, batches + [batch], fates + [fate],
                     bytes + b, failed + f)
  {
    CutIsBoundary(requests, batches);
    LoggedStep(view, replies, lo, mid, requests, begin, batches, fates, failed, batch, fate);
    HonestStep(view, lo, requests, begin, |batches|, bytes, failed, batch, b, f);
  }

  lemma {:induction false} BatchInside(requests: seq<ReadRequest>, begin: nat, i: nat)
    requires begin <= i < |requests| && RequestsLegal(requests)
    ensures forall r :: r in BatchFrom(requests, begin, i) ==> r in requests
    ensures requests[i] in BatchFrom(requests, begin, i)
    decreases i - begin
  {
    var next := begin + BatchSize(requests, begin);
    if i < next {
      assert requests[begin..next][i - begin] == requests[i];
    }
    if begin + BatchSize(requests, begin) <= i {
      BatchInside(requests, begin + BatchSize(requests, begin), i);
    }
  }

  lemma {:induction false} ReadableFates(
    view: nat -> Memory, replies: nat -> Reply, lo: nat, hi: nat, requests: seq<ReadRequest>, failed: seq<bool>)
    requires RequestsLegal(requests) && BatchFates(view, replies, lo, hi, requests, failed)
    requires forall n: nat {:trigger view(n)} :: lo <= n < hi ==> replies(n).Truth? && AllReadableIn(view(n), requests)
    ensures NoneFailed(failed)
  {
    forall i | 0 <= i < |failed|
      ensures !failed[i]
    {
      var batch, n := BatchOf(requests, i), lo + BatchIndex(requests, i);
      BatchInside(requests, 0, i);
      assert BatchFate(view, replies, lo, hi, requests, i, failed[i]);
      forall k | 0 <= k < |batch|
        ensures Readable(view(n), batch[k])
      {
        assert batch[k] in batch;
      }
    }
  }

  /** On steady memory a slot fails exactly when its batch holds an unreadable request. */
  ghost predicate SteadyFates(memory: Memory, requests: seq<ReadRequest>, failed: seq<bool>)
    requires RequestsLegal(requests)
  {
    && |failed| == |requests|
    && forall i :: 0 <= i < |failed| ==> (failed[i] <==> !AllReadableIn(memory, BatchOf(requests, i)))
  }

  lemma {:induction false} FatesOnSteady(
    backend: DiscoveryBackend, lo: nat, requests: seq<ReadRequest>, failed: seq<bool>)
    requires RequestsLegal(requests) && Steady(backend)
    requires BatchFates(backend.view, backend.replies, lo, backend.calls, requests, failed)
    ensures SteadyFates(backend.view(0), requests, failed)
  {
    forall i | 0 <= i < |requests|
      ensures failed[i] <==> !AllReadableIn(backend.view(0), BatchOf(requests, i))
    {
      assert BatchFate(backend.view, backend.replies, lo, backend.calls, requests, i, failed[i]);
    }
  }

  /** The next batch. */
  method ReadNext(backend: DiscoveryBackend, requests: seq<ReadRequest>, begin: nat)
    returns (batch: seq<ReadRequest>, b: seq<seq<Byte>>, f: seq<bool>, ghost fate: bool)
    requires begin < |requests| && RequestsLegal(requests)
    modifies backend
    ensures NextBatch(requests, begin, batch) && Bounded(batch)
    ensures backend.calls == old(backend.calls) + 1 && backend.batches == old(backend.batches) + [batch]
    ensures BatchHonest(backend.view, old(backend.calls), batch, b, f)
    ensures CallFate(backend.view, backend.replies, old(backend.calls), batch, fate) && f == Repeat(|batch|, fate)
  {
    var count := TakeBatch(requests, begin);
    batch := requests[begin..begin + count];
    b, f, fate := ReadOneBatch(backend, batch);
  }

  /** The batch loop, with the fate of every call. */
  method ReadBatches(backend: DiscoveryBackend, requests: seq<ReadRequest>)
    returns (bytes: seq<seq<Byte>>, failed: seq<bool>, ghost batches: seq<seq<ReadRequest>>, ghost fates: seq<bool>)
    requires RequestsLegal(requests)
    modifies backend
    ensures Standing(backend.view, backend.replies, old(backend.calls), backend.calls, requests, |requests|,
                     batches, fates, bytes, failed)
    ensures backend.batches == old(backend.batches) + batches
  {
    bytes, failed, batches, fates := [], [], [], [];
    var begin := 0;
    ghost var lo := backend.calls;
    while begin < |requests|
      invariant Standing(backend.view, backend.replies, lo, backend.calls, requests, begin,
                         batches, fates, bytes, failed)
      invariant backend.batches == old(backend.batches) + batches
    {
      ghost var mid := backend.calls;
      var batch, b, f, fate := ReadNext(backend, requests, begin);
      NextStep(backend.view, backend.replies, lo, mid, requests, begin, batches, fates, bytes, failed,
               batch, b, f, fate);
      SeqFacts.Associate(old(backend.batches), batches, [batch]);
      batches, fates := batches + [batch], fates + [fate];
      bytes, failed, begin := bytes + b, failed + f, begin + |batch|;
    }
  }

  /** `ReadBoundedBatches`: transparent batching. The calls made are a partition of the requests, in order, into
      bounded batches; every slot fails with its whole batch, only when that batch's own call was not answered
      truthfully or could not read it; and a slot that did not fail holds what its request alone reads at that call. */
  method ReadBoundedBatches(backend: DiscoveryBackend, requests: seq<ReadRequest>)
    returns (result: BoundedReadResult, ghost batches: seq<seq<ReadRequest>>, ghost fates: seq<bool>)
    modifies backend
    ensures result.requestsValid <==> RequestsLegal(requests)
    ensures backend.batches == old(backend.batches) + batches && backend.calls == old(backend.calls) + |batches|
    ensures forall k :: 0 <= k < |batches| ==> Bounded(batches[k])
    ensures if result.requestsValid then Flatten(batches) == requests else batches == []
    ensures result.requestsValid ==>
      Fated(backend.view, backend.replies, old(backend.calls), requests, batches, fates, result.failed)
    ensures result.requestsValid ==> ReadsHonest(backend.view, old(backend.calls), backend.calls, requests, result)
    ensures result.requestsValid ==>
      BatchFates(backend.view, backend.replies, old(backend.calls), backend.calls, requests, result.failed)
    ensures result.requestsValid && AllReadable(backend.view, backend.replies, requests) ==> NoneFailed(result.failed)
    ensures result.requestsValid && Steady(backend) ==> SteadyFates(backend.view(0), requests, result.failed)
  {
    batches, fates := [], [];
    if !RequestsLegal(requests) {
      return BoundedReadResult(false, seq(|requests|, _ => []), seq(|requests|, _ => false)), [], [];
    }
    var bytes, failed;
    ghost var lo := backend.calls;
    bytes, failed, batches, fates := ReadBatches(backend, requests);
    CutMeans(requests, batches);
    SeqFacts.TakeAll(requests);
    result := BoundedReadResult(true, bytes, failed);
    LoggedIsFated(backend.view, backend.replies, lo, requests, batches, fates, failed);
    SlotFates(backend.view, backend.replies, lo, requests, batches, fates, failed);
    if AllReadable(backend.view, backend.replies, requests) {
      ReadableFates(backend.view, backend.replies, lo, backend.calls, requests, failed);
    }
    if Steady(backend) {
      FatesOnSteady(backend, lo, requests, failed);
    }
  }
}
