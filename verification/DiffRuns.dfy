/** Cutting the difference of two record images into write operations. */
module DiffRuns {
  import opened Bytes
  import opened Ranges
  import AddressText
  import opened MemoryTransaction

  /** The first index from `i` on where the images differ, or their length. */
  function NextDifference(before: seq<Byte>, after: seq<Byte>, i: nat): (j: nat)
    requires |before| == |after| && i <= |before|
    ensures i <= j <= |before| && (j < |before| ==> before[j] != after[j])
    ensures forall k :: i <= k < j ==> before[k] == after[k]
    decreases |before| - i
  {
    if i == |before| || before[i] != after[i] then i else NextDifference(before, after, i + 1)
  }

  /** The first index from `i` on where they agree again, or their length. */
  function NextAgreement(before: seq<Byte>, after: seq<Byte>, i: nat): (j: nat)
    requires |before| == |after| && i <= |before|
    ensures i <= j <= |before| && (j < |before| ==> before[j] == after[j])
    ensures forall k :: i <= k < j ==> before[k] != after[k]
    decreases |before| - i
  {
    if i == |before| || before[i] == after[i] then i else NextAgreement(before, after, i + 1)
  }

  function Runs(before: seq<Byte>, after: seq<Byte>, i: nat): seq<Range>
    requires |before| == |after| && i <= |before|
    decreases |before| - i
  {
    var begin := NextDifference(before, after, i);
    if begin == |before| then []
    else
      var end := NextAgreement(before, after, begin);
      [Range(begin, end)] + Runs(before, after, end)
  }

  /** A run: bytes that all differ, and no byte beside them that does. */
  predicate MaximalRun(before: seq<Byte>, after: seq<Byte>, r: Range)
    requires |before| == |after|
  {
    && 0 <= r.begin < r.end <= |before|
    && (forall k :: r.begin <= k < r.end ==> before[k] != after[k])
    && (r.begin > 0 ==> before[r.begin - 1] == after[r.begin - 1])
    && (r.end < |before| ==> before[r.end] == after[r.end])
  }

  /** Sorted, with at least one byte between neighbours. */
  predicate Gapped(runs: seq<Range>) {
    forall i, j :: 0 <= i < j < |runs| ==> runs[i].end < runs[j].begin
  }

  /** The runs are maximal, sorted and non-adjacent, and cover exactly the differing bytes. */
  lemma {:induction false} RunsAreMaximal(before: seq<Byte>, after: seq<Byte>, i: nat)
    requires |before| == |after| && i <= |before|
    requires i == 0 || (i < |before| ==> before[i] == after[i]) || before[i - 1] == after[i - 1]
    ensures var runs := Runs(before, after, i);
      && (forall n :: 0 <= n < |runs| ==> MaximalRun(before, after, runs[n]) && i <= runs[n].begin)
      && Gapped(runs)
      && (i < |before| && before[i] == after[i] ==> forall n :: 0 <= n < |runs| ==> i < runs[n].begin)
    decreases |before| - i
  {
    var begin := NextDifference(before, after, i);
    if begin < |before| {
      var end := NextAgreement(before, after, begin);
      RunsAreMaximal(before, after, end);
      var rest := Runs(before, after, end);
      assert Runs(before, after, i) == [Range(begin, end)] + rest;
    }
  }

  lemma {:induction false} RunsStartLate(before: seq<Byte>, after: seq<Byte>, i: nat, n: nat)
    requires |before| == |after| && i <= |before| && n < |Runs(before, after, i)|
    ensures i <= Runs(before, after, i)[n].begin < Runs(before, after, i)[n].end <= |before|
    decreases |before| - i
  {
    var begin := NextDifference(before, after, i);
    var end := NextAgreement(before, after, begin);
    if n > 0 {
      RunsStartLate(before, after, end, n - 1);
    }
  }

  lemma {:induction false} RunsCoverLate(before: seq<Byte>, after: seq<Byte>, i: nat, k: nat)
    requires |before| == |after| && k < i <= |before|
    ensures !CoveredBy(k, Runs(before, after, i))
  {
    CoveredByIndex(k, Runs(before, after, i));
    forall n | 0 <= n < |Runs(before, after, i)|
      ensures !Within(k, Runs(before, after, i)[n])
    {
      RunsStartLate(before, after, i, n);
    }
  }

  lemma {:induction false} RunsCover(before: seq<Byte>, after: seq<Byte>, i: nat, k: nat)
    requires |before| == |after| && i <= k < |before|
    ensures before[k] != after[k] <==> CoveredBy(k, Runs(before, after, i))
    decreases |before| - i
  {
    var begin := NextDifference(before, after, i);
    if begin < |before| {
      var end := NextAgreement(before, after, begin);
      var rest := Runs(before, after, end);
      CoveredByCons(k, Range(begin, end), rest);
      if k < end {
        RunsCoverLate(before, after, end, k);
      } else {
        RunsCover(before, after, end, k);
      }
    }
  }

  // ----- the operations

  function RunOperation(address: Address, before: seq<Byte>, after: seq<Byte>, r: Range): Operation
    requires |before| == |after| && 0 <= r.begin <= r.end <= |before| && address + |before| <= ADDRESS_MAX
  {
    Operation(AddressText.Format(address + r.begin), before[r.begin..r.end], after[r.begin..r.end], Write)
  }

  predicate InImage(runs: seq<Range>, size: nat) {
    forall n :: 0 <= n < |runs| ==> 0 <= runs[n].begin <= runs[n].end <= size
  }

  function RunOperations(address: Address, before: seq<Byte>, after: seq<Byte>, runs: seq<Range>): (ops: seq<Operation>)
    requires |before| == |after| && address + |before| <= ADDRESS_MAX && InImage(runs, |before|)
    ensures |ops| == |runs|
    ensures forall n :: 0 <= n < |runs| ==> ops[n] == RunOperation(address, before, after, runs[n])
  {
    seq(|runs|, n requires 0 <= n < |runs| => RunOperation(address, before, after, runs[n]))
  }

  lemma {:induction false} RunsInImage(before: seq<Byte>, after: seq<Byte>)
    requires |before| == |after|
    ensures InImage(Runs(before, after, 0), |before|)
  {
    forall n | 0 <= n < |Runs(before, after, 0)|
      ensures 0 <= Runs(before, after, 0)[n].begin <= Runs(before, after, 0)[n].end <= |before|
    {
      RunsStartLate(before, after, 0, n);
    }
  }

  lemma {:induction false} RunsUnfold(before: seq<Byte>, after: seq<Byte>, i: nat, all: seq<Range>, n: nat)
    requires |before| == |after| && i <= |before| && n <= |all| && all[n..] == Runs(before, after, i)
    requires NextDifference(before, after, i) < |before|
    ensures var begin := NextDifference(before, after, i);
      var end := NextAgreement(before, after, begin);
      n < |all| && all[n] == Range(begin, end) && all[n + 1..] == Runs(before, after, end)
  {
  }

  /** The index loop of the planner; it gives up as soon as one operation too many appears. */
  method CutOperations(address: Address, before: seq<Byte>, after: seq<Byte>) returns (ops: Option<seq<Operation>>)
    requires |before| == |after| && address + |before| <= ADDRESS_MAX
    ensures InImage(Runs(before, after, 0), |before|)
    ensures ops.Some? <==> |Runs(before, after, 0)| <= MAX_OPERATIONS
    ensures ops.Some? ==> ops.value == RunOperations(address, before, after, Runs(before, after, 0))
  {
    RunsInImage(before, after);
    ghost var all := Runs(before, after, 0);
    var index, found := 0, [];
    while index < |before|
      invariant index <= |before| && |found| <= |all| && |found| <= MAX_OPERATIONS
      invariant all[|found|..] == Runs(before, after, index)
      invariant forall n :: 0 <= n < |found| ==> found[n] == RunOperation(address, before, after, all[n])
      decreases |before| - index
    {
      ghost var start := index;
      while index < |before| && before[index] == after[index]
        invariant start <= index <= |before|
        invariant NextDifference(before, after, start) == NextDifference(before, after, index)
      {
        index := index + 1;
      }
      if index == |before| {
        break;
      }
      var begin := index;
      while index < |before| && before[index] != after[index]
        invariant begin <= index <= |before|
        invariant NextAgreement(before, after, begin) == NextAgreement(before, after, index)
        invariant begin < |before| && before[begin] != after[begin]
      {
        index := index + 1;
      }
      RunsUnfold(before, after, start, all, |found|);
      found := found + [RunOperation(address, before, after, Range(begin, index))];
      if |found| > MAX_OPERATIONS {
        return None;
      }
    }
    assert all[|found|..] == [];
    ops := Some(found);
  }

  // ----- what they do

  lemma {:induction false} RunOperationLegal(address: Address, before: seq<Byte>, after: seq<Byte>, r: Range)
    requires |before| == |after| && 0 <= r.begin <= r.end <= |before| && address + |before| <= ADDRESS_MAX
    ensures var op := RunOperation(address, before, after, r);
      AddressLegal(op) && AddressOf(op) == address + r.begin
  {
    AddressText.FormatParseBijection(address + r.begin, "");
  }

  predicate AllAddressed(ops: seq<Operation>) {
    forall n :: 0 <= n < |ops| ==> AddressLegal(ops[n])
  }

  lemma {:induction false} RunsAddressed(address: Address, before: seq<Byte>, after: seq<Byte>, runs: seq<Range>)
    requires |before| == |after| && address + |before| <= ADDRESS_MAX && InImage(runs, |before|)
    ensures AllAddressed(RunOperations(address, before, after, runs))
  {
    forall n | 0 <= n < |runs|
      ensures AddressLegal(RunOperations(address, before, after, runs)[n])
    {
      RunOperationLegal(address, before, after, runs[n]);
    }
  }

  lemma {:induction false} RunCommits(
    memory: Memory, address: Address, before: seq<Byte>, after: seq<Byte>, r: Range, a: int)
    requires |before| == |after| && address + |before| <= ADDRESS_MAX && a in memory
    requires 0 <= r.begin <= r.end <= |before|
    ensures var op := RunOperation(address, before, after, r);
      && AddressLegal(op)
      && Overlay(memory, AddressOf(op), op.replacement)[a] ==
        if Within(a - address, r) then after[a - address] else memory[a]
  {
    RunOperationLegal(address, before, after, r);
  }

  /** One byte after the operations: replaced when one of them covers it. */
  lemma {:induction false} RunsCommit(
    memory: Memory, address: Address, before: seq<Byte>, after: seq<Byte>, runs: seq<Range>, a: int)
    requires |before| == |after| && address + |before| <= ADDRESS_MAX && InImage(runs, |before|)
    requires AllAddressed(RunOperations(address, before, after, runs)) && a in memory
    requires CoveredBy(a - address, runs) ==> address <= a < address + |before|
    ensures Committed(memory, RunOperations(address, before, after, runs))[a] ==
      if CoveredBy(a - address, runs) then after[a - address] else memory[a]
  {
    if runs != [] {
      var n := |runs| - 1;
      var ops := RunOperations(address, before, after, runs);
      assert ops[..n] == RunOperations(address, before, after, runs[..n]);
      RunsCommit(memory, address, before, after, runs[..n], a);
      RunCommits(Committed(memory, ops[..n]), address, before, after, runs[n], a);
    }
  }

  lemma {:induction false} CoveredInImage(runs: seq<Range>, size: nat, k: int)
    requires InImage(runs, size) && CoveredBy(k, runs)
    ensures 0 <= k < size
  {
    CoveredByIndex(k, runs);
    var n :| 0 <= n < |runs| && Within(k, runs[n]);
  }

  /** Operations cut from an image inside the address space. */
  predicate Cuttable(address: Address, before: seq<Byte>, after: seq<Byte>, runs: seq<Range>) {
    && |before| == |after| && address + |before| <= ADDRESS_MAX && InImage(runs, |before|)
    && AllAddressed(RunOperations(address, before, after, runs))
  }

  /** Byte `a` comes out as the new image has it. */
  predicate ByteCommitted(
    memory: Memory, address: Address, before: seq<Byte>, after: seq<Byte>, runs: seq<Range>, a: int)
    requires Cuttable(address, before, after, runs) && a in memory
  {
    Committed(memory, RunOperations(address, before, after, runs))[a] == Overlay(memory, address, after)[a]
  }

  lemma {:induction false} RunsCoverDifference(before: seq<Byte>, after: seq<Byte>, k: int)
    requires |before| == |after| && InImage(Runs(before, after, 0), |before|)
    ensures CoveredBy(k, Runs(before, after, 0)) <==> 0 <= k < |before| && before[k] != after[k]
  {
    if CoveredBy(k, Runs(before, after, 0)) {
      CoveredInImage(Runs(before, after, 0), |before|, k);
    }
    if 0 <= k < |before| {
      RunsCover(before, after, 0, k);
    }
  }

  /** The runs cover byte `k` exactly if it differs. */
  predicate CoversAt(before: seq<Byte>, after: seq<Byte>, runs: seq<Range>, k: int)
    requires |before| == |after|
  {
    CoveredBy(k, runs) <==> 0 <= k < |before| && before[k] != after[k]
  }

  lemma {:induction false} AllCovered(before: seq<Byte>, after: seq<Byte>, runs: seq<Range>, k: int)
    requires |before| == |after| && InImage(runs, |before|) && runs == Runs(before, after, 0)
    ensures CoversAt(before, after, runs, k)
  {
    RunsCoverDifference(before, after, k);
  }

  /** Byte `a` of the memory is the image's, if it lies in it. */
  predicate HoldsAt(memory: Memory, address: Address, image: seq<Byte>, a: int) {
    address <= a < address + |image| ==> a in memory && memory[a] == image[a - address]
  }

  lemma {:induction false} SliceHolds(memory: Memory, address: Address, image: seq<Byte>)
    requires Mapped(memory, address, |image|) && Slice(memory, address, |image|) == image
    ensures forall a :: HoldsAt(memory, address, image, a)
  {
    forall a | address <= a < address + |image|
      ensures HoldsAt(memory, address, image, a)
    {
      assert Slice(memory, address, |image|)[a - address] == memory[a];
    }
  }

  lemma {:induction false} ImageByte(
    memory: Memory, address: Address, before: seq<Byte>, after: seq<Byte>, runs: seq<Range>, a: int)
    requires Cuttable(address, before, after, runs) && a in memory
    requires HoldsAt(memory, address, before, a) && CoversAt(before, after, runs, a - address)
    ensures ByteCommitted(memory, address, before, after, runs, a)
  {
    RunsCommit(memory, address, before, after, runs, a);
  }

  lemma {:induction false} ImageBytes(
    memory: Memory, address: Address, before: seq<Byte>, after: seq<Byte>, runs: seq<Range>)
    requires Cuttable(address, before, after, runs)
    requires forall a :: HoldsAt(memory, address, before, a)
    requires forall k :: CoversAt(before, after, runs, k)
    ensures forall a :: a in memory ==> ByteCommitted(memory, address, before, after, runs, a)
  {
    forall a | a in memory
      ensures ByteCommitted(memory, address, before, after, runs, a)
    {
      ImageByte(memory, address, before, after, runs, a);
    }
  }

  lemma {:induction false} ByteByByte(m: Memory, n: Memory)
    requires m.Keys == n.Keys && forall a :: a in m ==> m[a] == n[a]
    ensures m == n
  {
    forall a | a in m
      ensures a in n && m[a] == n[a]
    {
      assert a in m.Keys;
    }
    forall a | a in n
      ensures a in m && m[a] == n[a]
    {
      assert a in n.Keys;
    }
  }

  /** Committing the operations turns the old image into the new one and touches nothing else. */
  lemma {:induction false} OperationsCommitImage(memory: Memory, address: Address, before: seq<Byte>, after: seq<Byte>)
    requires |before| == |after| && address + |before| <= ADDRESS_MAX
    requires Mapped(memory, address, |before|) && Slice(memory, address, |before|) == before
    requires InImage(Runs(before, after, 0), |before|)
    ensures var ops := RunOperations(address, before, after, Runs(before, after, 0));
      AllAddressed(ops) && Committed(memory, ops) == Overlay(memory, address, after)
  {
    var runs := Runs(before, after, 0);
    RunsAddressed(address, before, after, runs);
    SliceHolds(memory, address, before);
    forall k: int
      ensures CoversAt(before, after, runs, k)
    {
      AllCovered(before, after, runs, k);
    }
    ImageBytes(memory, address, before, after, runs);
    ByteByByte(Committed(memory, RunOperations(address, before, after, runs)), Overlay(memory, address, after));
  }
}
