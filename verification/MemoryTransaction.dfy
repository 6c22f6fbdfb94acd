/** The transaction engine: compare before write, read back, and roll back in reverse order, over a
    backend whose writes may fail, lie or scribble inside their own range. */
module MemoryTransaction {
  import opened Bytes
  import opened Ranges
  import AddressText

  const MAX_OPERATIONS: nat := 32
  const MAX_OPERATION_BYTES: nat := 4096
  const MAX_TRANSACTION_BYTES: nat := 65536

  datatype OperationKind = Write | VerifyOnly

  datatype Operation = Operation(
    address: string, expected: seq<Byte>, replacement: seq<Byte>, kind: OperationKind)

  datatype Request = Request(transactionId: string, operations: seq<Operation>)

  datatype Status = Rejected | AppliedVerified | RolledBackVerified | RollbackUnverified

  datatype OperationResult = OperationResult(index: nat, applied: bool, verified: bool)

  /** The machine-readable code of each outcome. */
  datatype Code =
    | InvalidTransactionId | InvalidOperationCount
    | InvalidOperationSize | TransactionTooLarge | InvalidAddress | OverlappingOperations
    | InvalidMemoryRange | PreflightReadFailed | ExpectedMismatch
    | Applied | RolledBack | Unverified

  datatype Result = Result(status: Status, code: Code, operations: seq<OperationResult>)

  datatype WriteCall = WriteCall(address: int, bytes: seq<Byte>)

  predicate Structural(code: Code) {
    code.InvalidTransactionId? || code.InvalidOperationCount? || code.InvalidOperationSize?
    || code.TransactionTooLarge? || code.InvalidAddress? || code.OverlappingOperations?
  }

  // ----- what a legal request is

  predicate TransactionIdCharacter(c: char) {
    'A' <= c <= 'Z' || 'a' <= c <= 'z' || '0' <= c <= '9' || c == '.' || c == '_' || c == '-'
  }

  predicate ValidTransactionId(id: string) {
    0 < |id| <= 64 && forall i :: 0 <= i < |id| ==> TransactionIdCharacter(id[i])
  }

  predicate ShapeLegal(op: Operation) {
    && 0 < |op.expected| <= MAX_OPERATION_BYTES
    && (if op.kind.VerifyOnly? then op.replacement == [] else |op.replacement| == |op.expected|)
  }

  predicate AddressLegal(op: Operation) {
    var address := AddressText.ParseCanonical(op.address);
    address.Some? && address.value <= ADDRESS_MAX - |op.expected|
  }

  function TotalBytes(ops: seq<Operation>): nat {
    if ops == [] then 0 else TotalBytes(ops[..|ops| - 1]) + |ops[|ops| - 1].expected|
  }

  predicate OperationsLegal(ops: seq<Operation>) {
    && TotalBytes(ops) <= MAX_TRANSACTION_BYTES
    && forall i :: 0 <= i < |ops| ==> ShapeLegal(ops[i]) && AddressLegal(ops[i])
  }

  function AddressOf(op: Operation): Address
    requires AddressLegal(op)
  {
    AddressText.ParseCanonical(op.address).value
  }

  function RangeOf(op: Operation): Range
    requires AddressLegal(op)
  {
    Range(AddressOf(op), AddressOf(op) + |op.expected|)
  }

  function RangesOf(ops: seq<Operation>): (ranges: seq<Range>)
    requires forall i :: 0 <= i < |ops| ==> AddressLegal(ops[i])
    ensures |ranges| == |ops|
    ensures forall i :: 0 <= i < |ops| ==> ranges[i] == RangeOf(ops[i])
  {
    seq(|ops|, i requires 0 <= i < |ops| => RangeOf(ops[i]))
  }

  predicate WellFormed(request: Request) {
    && ValidTransactionId(request.transactionId)
    && 0 < |request.operations| <= MAX_OPERATIONS
    && OperationsLegal(request.operations)
    && PairwiseApart(RangesOf(request.operations))
  }

  lemma {:induction false} TotalBytesGrows(ops: seq<Operation>, n: nat)
    requires n <= |ops|
    ensures TotalBytes(ops[..n]) <= TotalBytes(ops)
    decreases |ops| - n
  {
    if n < |ops| {
      assert ops[..n + 1][..n] == ops[..n];
      TotalBytesGrows(ops, n + 1);
    } else {
      assert ops[..n] == ops;
    }
  }

  // ----- the backend

  /** What may go wrong, by the number of the backend call: a read can fail, a write can report
      failure, and a write can land any bytes of its own length in its own range. */
  datatype Faults = Faults(
    readFails: nat -> bool, writeFails: nat -> bool, lands: (nat, seq<Byte>) -> seq<Byte>)

  /** Nothing goes wrong at call `n`. */
  ghost predicate CallHonest(faults: Faults, n: nat) {
    !faults.readFails(n) && !faults.writeFails(n) && forall bytes: seq<Byte> :: faults.lands(n, bytes) == bytes
  }

  ghost predicate Honest(faults: Faults) {
    forall n: nat :: CallHonest(faults, n)
  }

  /** Nothing goes wrong from call `lo` up to call `hi`. */
  ghost predicate Faultless(faults: Faults, lo: nat, hi: nat) {
    forall n: nat :: lo <= n < hi ==> CallHonest(faults, n)
  }

  /** Two calls between `lo` and `hi` go wrong. */
  ghost predicate TwoFaults(faults: Faults, lo: nat, hi: nat) {
    exists m: nat, n: nat :: lo <= m < n < hi && !CallHonest(faults, m) && !CallHonest(faults, n)
  }

  lemma {:induction false} FaultThenFault(faults: Faults, lo: nat, mid: nat, hi: nat)
    requires lo <= mid <= hi && !Faultless(faults, lo, mid) && !Faultless(faults, mid, hi)
    ensures TwoFaults(faults, lo, hi)
  {
    var m: nat :| lo <= m < mid && !CallHonest(faults, m);
    var n: nat :| mid <= n < hi && !CallHonest(faults, n);
  }

  /** The requests the engine has run are on record, as are the writes it has issued. */
  class MemoryBackend {
    const faults: Faults
    const writable: set<int>
    var memory: Memory
    var calls: nat
    ghost var issued: seq<WriteCall>
    ghost var runs: seq<Request>

    constructor (faults: Faults, writable: set<int>, memory: Memory)
      ensures this.faults == faults && this.writable == writable && this.memory == memory
      ensures calls == 0 && issued == [] && runs == []
    {
      this.faults, this.writable, this.memory := faults, writable, memory;
      calls, issued, runs := 0, [], [];
    }

    predicate Validate(address: int, size: nat, write: bool)
      reads this
    {
      && 0 < size && address <= ADDRESS_MAX - size
      && Mapped(memory, address, size)
      && (write ==> forall a :: address <= a < address + size ==> a in writable)
    }

    /** Fails, or tells the truth. */
    method Read(address: int, size: nat) returns (bytes: Option<seq<Byte>>)
      modifies this`calls
      ensures bytes.Some? ==> Mapped(memory, address, size) && bytes.value == Slice(memory, address, size)
      ensures bytes.None? <==> faults.readFails(old(calls)) || !Mapped(memory, address, size)
      ensures calls == old(calls) + 1
    {
      bytes := if faults.readFails(calls) || !Mapped(memory, address, size) then None
               else Some(Slice(memory, address, size));
      calls := calls + 1;
    }

    method Write(address: int, bytes: seq<Byte>) returns (ok: bool)
      modifies this`memory, this`calls, this`issued
      ensures memory.Keys == old(memory.Keys)
      ensures forall a :: a in memory && !(address <= a < address + |bytes|) ==> memory[a] == old(memory)[a]
      ensures issued == old(issued) + [WriteCall(address, bytes)] && calls == old(calls) + 1
      ensures CallHonest(faults, old(calls)) && Mapped(memory, address, |bytes|) ==>
        ok && memory == Overlay(old(memory), address, bytes)
    {
      var landed := faults.lands(calls, bytes);
      ok := !faults.writeFails(calls) && Mapped(memory, address, |bytes|);
      if |landed| == |bytes| {
        memory := Overlay(memory, address, landed);
      }
      issued := issued + [WriteCall(address, bytes)];
      calls := calls + 1;
    }
  }

  // ----- what the outcomes mean

  predicate InWriteRange(ops: seq<Operation>, a: int)
    requires forall i :: 0 <= i < |ops| ==> AddressLegal(ops[i])
  {
    exists i :: 0 <= i < |ops| && ops[i].kind.Write? && RangeOf(ops[i]).begin <= a < RangeOf(ops[i]).end
  }

  /** Nothing outside a write operation's own range differs. */
  ghost predicate SameOutside(before: Memory, after: Memory, ops: seq<Operation>)
    requires forall i :: 0 <= i < |ops| ==> AddressLegal(ops[i])
  {
    && after.Keys == before.Keys
    && forall a :: a in before && !InWriteRange(ops, a) ==> after[a] == before[a]
  }

  /** Every write operation's replacement laid over the memory, in request order. */
  function Committed(memory: Memory, ops: seq<Operation>): (after: Memory)
    requires forall i :: 0 <= i < |ops| ==> AddressLegal(ops[i])
    ensures after.Keys == memory.Keys
  {
    if ops == [] then memory
    else
      var last, before := ops[|ops| - 1], Committed(memory, ops[..|ops| - 1]);
      if last.kind.Write? then Overlay(before, AddressOf(last), last.replacement) else before
  }

  predicate Accessible(memory: Memory, writable: set<int>, ops: seq<Operation>)
    requires forall i :: 0 <= i < |ops| ==> AddressLegal(ops[i])
  {
    forall i :: 0 <= i < |ops| ==>
      && Mapped(memory, AddressOf(ops[i]), |ops[i].expected|)
      && (ops[i].kind.Write? ==>
        forall a :: AddressOf(ops[i]) <= a < AddressOf(ops[i]) + |ops[i].expected| ==> a in writable)
  }

  /** The preflight condition: every range is accessible and holds its expected bytes. */
  predicate Ready(memory: Memory, writable: set<int>, ops: seq<Operation>)
    requires forall i :: 0 <= i < |ops| ==> AddressLegal(ops[i])
  {
    && Accessible(memory, writable, ops)
    && forall i :: 0 <= i < |ops| ==>
      Slice(memory, AddressOf(ops[i]), |ops[i].expected|) == ops[i].expected
  }

  function WriteLog(ops: seq<Operation>): seq<WriteCall>
    requires forall i :: 0 <= i < |ops| ==> AddressLegal(ops[i])
  {
    if ops == [] then []
    else
      var last := ops[|ops| - 1];
      WriteLog(ops[..|ops| - 1])
      + (if last.kind.Write? then [WriteCall(AddressOf(last), last.replacement)] else [])
  }

  /** The expected bytes put back, last write first. */
  function RestoreLog(ops: seq<Operation>): seq<WriteCall>
    requires forall i :: 0 <= i < |ops| ==> AddressLegal(ops[i])
  {
    if ops == [] then []
    else
      var last := ops[|ops| - 1];
      (if last.kind.Write? then [WriteCall(AddressOf(last), last.expected)] else [])
      + RestoreLog(ops[..|ops| - 1])
  }

  function WriteIndices(ops: seq<Operation>): (indices: seq<nat>)
    ensures forall n :: 0 <= n < |indices| ==> indices[n] < |ops|
  {
    if ops == [] then []
    else WriteIndices(ops[..|ops| - 1]) + (if ops[|ops| - 1].kind.Write? then [|ops| - 1] else [])
  }

  lemma {:induction false} WriteIndicesAre(ops: seq<Operation>, i: nat)
    requires i < |ops|
    ensures i in WriteIndices(ops) <==> ops[i].kind.Write?
  {
    var front := ops[..|ops| - 1];
    if i < |front| {
      WriteIndicesAre(front, i);
    } else {
      assert i !in WriteIndices(front);
    }
  }

  // ----- rollback

  datatype Prepared = Prepared(address: Address, original: seq<Byte>)

  function Restores(prepared: seq<Prepared>, attempted: seq<nat>): seq<WriteCall>
    requires forall n :: 0 <= n < |attempted| ==> attempted[n] < |prepared|
  {
    if attempted == [] then []
    else
      var last := prepared[attempted[|attempted| - 1]];
      [WriteCall(last.address, last.original)] + Restores(prepared, attempted[..|attempted| - 1])
  }

  ghost predicate PreparedFrom(prepared: seq<Prepared>, ops: seq<Operation>)
    requires forall i :: 0 <= i < |ops| ==> AddressLegal(ops[i])
  {
    && |prepared| == |ops|
    && forall i :: 0 <= i < |ops| ==> prepared[i] == Prepared(AddressOf(ops[i]), ops[i].expected)
  }

  lemma {:induction false} RestoresMatchLog(prepared: seq<Prepared>, ops: seq<Operation>)
    requires forall i :: 0 <= i < |ops| ==> AddressLegal(ops[i])
    requires |ops| <= |prepared| && PreparedFrom(prepared[..|ops|], ops)
    ensures Restores(prepared, WriteIndices(ops)) == RestoreLog(ops)
  {
    if ops != [] {
      var front, n := ops[..|ops| - 1], |ops| - 1;
      forall i | 0 <= i < n
        ensures prepared[..n][i] == Prepared(AddressOf(front[i]), front[i].expected)
      {
        assert prepared[..|ops|][i] == prepared[i] && ops[i] == front[i];
      }
      RestoresMatchLog(prepared, front);
      var w := WriteIndices(ops);
      if ops[n].kind.Write? {
        assert prepared[..|ops|][n] == prepared[n];
        assert w[..|w| - 1] == WriteIndices(front) && w[|w| - 1] == n;
      } else {
        assert w == WriteIndices(front);
      }
    }
  }

  predicate InPrepared(p: Prepared, a: int) {
    p.address <= a < p.address + |p.original|
  }

  ghost predicate InAttempted(prepared: seq<Prepared>, attempted: seq<nat>, a: int)
    requires forall n :: 0 <= n < |attempted| ==> attempted[n] < |prepared|
  {
    exists n :: 0 <= n < |attempted| && InPrepared(prepared[attempted[n]], a)
  }

  /** Only attempted ranges can differ from the memory at entry. */
  ghost predicate Confined(entry: Memory, memory: Memory, prepared: seq<Prepared>, attempted: seq<nat>)
    requires forall n :: 0 <= n < |attempted| ==> attempted[n] < |prepared|
  {
    && memory.Keys == entry.Keys
    && forall a :: a in entry && !InAttempted(prepared, attempted, a) ==> memory[a] == entry[a]
  }

  ghost predicate Captured(entry: Memory, prepared: seq<Prepared>) {
    forall i :: 0 <= i < |prepared| ==>
      && Mapped(entry, prepared[i].address, |prepared[i].original|)
      && Slice(entry, prepared[i].address, |prepared[i].original|) == prepared[i].original
  }

  function Cleared(results: seq<OperationResult>, attempted: seq<nat>): (cleared: seq<OperationResult>)
    ensures |cleared| == |results|
  {
    seq(|results|, i requires 0 <= i < |results| =>
      if i in attempted then OperationResult(results[i].index, false, false) else results[i])
  }

  /** Where the write-back loop stands with the first `n` attempts still to restore. */
  ghost predicate Restoring(
    entry: Memory, memory: Memory, log0: seq<WriteCall>, log: seq<WriteCall>, prepared: seq<Prepared>,
    attempted: seq<nat>, before: seq<OperationResult>, results: seq<OperationResult>, n: nat)
    requires forall m :: 0 <= m < |attempted| ==> attempted[m] < |prepared|
    requires n <= |attempted|
  {
    && Confined(entry, memory, prepared, attempted)
    && log + Restores(prepared, attempted[..n]) == log0 + Restores(prepared, attempted)
    && results == Cleared(before, attempted[n..])
  }

  lemma {:induction false} RestoringStep(
    entry: Memory, was: Memory, now: Memory, log0: seq<WriteCall>, log: seq<WriteCall>, prepared: seq<Prepared>,
    attempted: seq<nat>, before: seq<OperationResult>, results: seq<OperationResult>, n: nat)
    requires |prepared| == |before| && forall m :: 0 <= m < |attempted| ==> attempted[m] < |prepared|
    requires n < |attempted|
    requires Restoring(entry, was, log0, log, prepared, attempted, before, results, n + 1)
    requires now.Keys == was.Keys
    requires forall a :: a in was && !InPrepared(prepared[attempted[n]], a) ==> now[a] == was[a]
    ensures
      var p := prepared[attempted[n]];
      var cleared := OperationResult(before[attempted[n]].index, false, false);
      Restoring(entry, now, log0, log + [WriteCall(p.address, p.original)], prepared, attempted,
                before, results[attempted[n] := cleared], n)
  {
    assert attempted[..n + 1][..n] == attempted[..n];
    assert attempted[n..] == [attempted[n]] + attempted[n + 1..];
  }

  /** The range holds its bytes of entry. */
  predicate EntryBytes(entry: Memory, memory: Memory, p: Prepared) {
    forall a :: p.address <= a < p.address + |p.original| ==> a in entry && a in memory && memory[a] == entry[a]
  }

  /** The ranges attempted from the `n`-th on hold their bytes of entry again. */
  ghost predicate RestoredFrom(entry: Memory, memory: Memory, prepared: seq<Prepared>, attempted: seq<nat>, n: nat)
    requires forall m :: 0 <= m < |attempted| ==> attempted[m] < |prepared|
  {
    forall m :: n <= m < |attempted| ==> EntryBytes(entry, memory, prepared[attempted[m]])
  }

  /** Laying a range's original bytes over the memory restores it. */
  lemma {:induction false} OverlayRestores(entry: Memory, was: Memory, p: Prepared)
    requires was.Keys == entry.Keys && Mapped(entry, p.address, |p.original|)
    requires Slice(entry, p.address, |p.original|) == p.original
    ensures EntryBytes(entry, Overlay(was, p.address, p.original), p)
  {
    forall a | p.address <= a < p.address + |p.original|
      ensures a in entry && p.original[a - p.address] == entry[a]
    {
      assert Slice(entry, p.address, |p.original|)[a - p.address] == entry[a];
    }
  }

  /** And it keeps any other range restored, even one it overlaps. */
  lemma {:induction false} OverlayKeepsRestored(entry: Memory, was: Memory, p: Prepared, q: Prepared)
    requires EntryBytes(entry, was, q) && EntryBytes(entry, Overlay(was, p.address, p.original), p)
    ensures EntryBytes(entry, Overlay(was, p.address, p.original), q)
  {
    var now := Overlay(was, p.address, p.original);
    forall a | q.address <= a < q.address + |q.original|
      ensures now[a] == entry[a]
    {
      assert InPrepared(p, a) ==> now[a] == entry[a];
    }
  }

  /** A restoring write that lands leaves entry bytes, and what was restored already stays so. */
  lemma {:induction false} RestoredStep(
    entry: Memory, was: Memory, now: Memory, prepared: seq<Prepared>, attempted: seq<nat>, n: nat)
    requires forall m :: 0 <= m < |attempted| ==> attempted[m] < |prepared|
    requires n < |attempted| && Captured(entry, prepared) && was.Keys == entry.Keys
    requires now == Overlay(was, prepared[attempted[n]].address, prepared[attempted[n]].original)
    requires RestoredFrom(entry, was, prepared, attempted, n + 1)
    ensures RestoredFrom(entry, now, prepared, attempted, n)
  {
    var p := prepared[attempted[n]];
    OverlayRestores(entry, was, p);
    forall m | n <= m < |attempted|
      ensures EntryBytes(entry, now, prepared[attempted[m]])
    {
      if m > n {
        OverlayKeepsRestored(entry, was, p, prepared[attempted[m]]);
      }
    }
  }

  method WriteBack(
    prepared: seq<Prepared>, attempted: seq<nat>, before: seq<OperationResult>, backend: MemoryBackend,
    ghost entry: Memory)
    returns (restored: bool, results: seq<OperationResult>)
    requires |prepared| == |before| && forall n :: 0 <= n < |attempted| ==> attempted[n] < |prepared|
    requires Captured(entry, prepared) && Confined(entry, backend.memory, prepared, attempted)
    modifies backend`memory, backend`calls, backend`issued
    ensures Confined(entry, backend.memory, prepared, attempted) && old(backend.calls) <= backend.calls
    ensures backend.issued == old(backend.issued) + Restores(prepared, attempted)
    ensures results == Cleared(before, attempted)
    ensures Faultless(backend.faults, old(backend.calls), backend.calls) ==>
      restored && RestoredFrom(entry, backend.memory, prepared, attempted, 0)
  {
    restored, results := true, before;
    var n := |attempted|;
    assert attempted[..n] == attempted;
    while n > 0
      invariant 0 <= n <= |attempted| && |results| == |before|
      invariant Restoring(entry, backend.memory, old(backend.issued), backend.issued, prepared, attempted,
                          before, results, n)
      invariant old(backend.calls) <= backend.calls
      invariant Faultless(backend.faults, old(backend.calls), backend.calls) ==>
        restored && RestoredFrom(entry, backend.memory, prepared, attempted, n)
    {
      n := n - 1;
      var index := attempted[n];
      ghost var was, log, call := backend.memory, backend.issued, backend.calls;
      var ok := backend.Write(prepared[index].address, prepared[index].original);
      if !ok {
        restored := false;
      }
      if CallHonest(backend.faults, call) && RestoredFrom(entry, was, prepared, attempted, n + 1) {
        RestoredStep(entry, was, backend.memory, prepared, attempted, n);
      }
      RestoringStep(entry, was, backend.memory, old(backend.issued), log, prepared, attempted, before, results, n);
      results := results[index := OperationResult(before[index].index, false, false)];
    }
    assert attempted[0..] == attempted;
  }

  lemma {:induction false} RestoredReads(
    entry: Memory, memory: Memory, prepared: seq<Prepared>, attempted: seq<nat>, n: nat)
    requires forall m :: 0 <= m < |attempted| ==> attempted[m] < |prepared|
    requires n < |attempted| && Captured(entry, prepared) && RestoredFrom(entry, memory, prepared, attempted, 0)
    ensures var p := prepared[attempted[n]];
      Mapped(memory, p.address, |p.original|) && Slice(memory, p.address, |p.original|) == p.original
  {
    var p := prepared[attempted[n]];
    assert EntryBytes(entry, memory, p);
    assert Slice(memory, p.address, |p.original|) == Slice(entry, p.address, |p.original|);
  }

  method ReadBack(prepared: seq<Prepared>, attempted: seq<nat>, backend: MemoryBackend, ghost entry: Memory)
    returns (restored: bool)
    requires forall n :: 0 <= n < |attempted| ==> attempted[n] < |prepared|
    requires Captured(entry, prepared) && Confined(entry, backend.memory, prepared, attempted)
    modifies backend`calls
    ensures restored ==> backend.memory == entry
    ensures old(backend.calls) <= backend.calls
    ensures RestoredFrom(entry, backend.memory, prepared, attempted, 0) ==>
      Faultless(backend.faults, old(backend.calls), backend.calls) ==> restored
  {
    restored := true;
    var n := 0;
    while n < |attempted|
      invariant 0 <= n <= |attempted|
      invariant old(backend.calls) <= backend.calls
      invariant RestoredFrom(entry, backend.memory, prepared, attempted, 0) ==>
        Faultless(backend.faults, old(backend.calls), backend.calls) ==> restored
      invariant restored ==> forall m :: 0 <= m < n ==>
        forall a :: InPrepared(prepared[attempted[m]], a) ==> a in entry && backend.memory[a] == entry[a]
    {
      var p := prepared[attempted[n]];
      ghost var call := backend.calls;
      var readback := backend.Read(p.address, |p.original|);
      if CallHonest(backend.faults, call) && RestoredFrom(entry, backend.memory, prepared, attempted, 0) {
        RestoredReads(entry, backend.memory, prepared, attempted, n);
      }
      if readback.None? || readback.value != p.original {
        restored := false;
      } else {
        forall a | InPrepared(p, a)
          ensures backend.memory[a] == entry[a]
        {
          assert Slice(backend.memory, p.address, |p.original|)[a - p.address]
              == Slice(entry, p.address, |p.original|)[a - p.address];
        }
      }
      n := n + 1;
    }
    if restored {
      forall a | a in entry
        ensures backend.memory[a] == entry[a]
      {
        if InAttempted(prepared, attempted, a) {
          var m :| 0 <= m < |attempted| && InPrepared(prepared[attempted[m]], a);
        }
      }
    }
  }

  /** Restores the attempted ranges, last first, then reads each one back. A verified rollback means
      the memory at entry is back, byte for byte; it is verified whenever no restoring call goes wrong. */
  method RollBack(
    prepared: seq<Prepared>, attempted: seq<nat>, before: seq<OperationResult>, backend: MemoryBackend,
    ghost entry: Memory)
    returns (result: Result)
    requires |prepared| == |before| && forall n :: 0 <= n < |attempted| ==> attempted[n] < |prepared|
    requires Captured(entry, prepared) && Confined(entry, backend.memory, prepared, attempted)
    modifies backend`memory, backend`calls, backend`issued
    ensures result.status.RolledBackVerified? || result.status.RollbackUnverified?
    ensures old(backend.calls) <= backend.calls
    ensures Faultless(backend.faults, old(backend.calls), backend.calls) ==> result.status.RolledBackVerified?
    ensures result.code == if result.status.RolledBackVerified? then RolledBack else Unverified
    ensures result.status.RolledBackVerified? ==> backend.memory == entry
    ensures Confined(entry, backend.memory, prepared, attempted)
    ensures backend.issued == old(backend.issued) + Restores(prepared, attempted)
    ensures result.operations == Cleared(before, attempted)
  {
    var written, results := WriteBack(prepared, attempted, before, backend, entry);
    var verified := ReadBack(prepared, attempted, backend, entry);
    var restored := written && verified;
    result := Result(if restored then RolledBackVerified else RollbackUnverified,
                     if restored then RolledBack else Unverified, results);
  }

  // ----- the engine

  /** Why the scan of the operations stops at index `i`, if it does. */
  function OperationFault(ops: seq<Operation>, i: nat): Option<Code>
    requires i < |ops|
  {
    if !ShapeLegal(ops[i]) then Some(InvalidOperationSize)
    else if TotalBytes(ops[..i + 1]) > MAX_TRANSACTION_BYTES then Some(TransactionTooLarge)
    else if !AddressLegal(ops[i]) then Some(InvalidAddress)
    else None
  }

  ghost predicate FirstFault(ops: seq<Operation>, code: Code) {
    exists i :: 0 <= i < |ops| && OperationFault(ops, i) == Some(code)
      && forall j :: 0 <= j < i ==> OperationFault(ops, j).None?
  }

  method CheckOperations(ops: seq<Operation>) returns (fault: Option<Code>, addresses: seq<Address>)
    ensures fault.None? <==> OperationsLegal(ops)
    ensures fault.Some? ==> FirstFault(ops, fault.value)
    ensures fault.None? ==> |addresses| == |ops| && forall i :: 0 <= i < |ops| ==> addresses[i] == AddressOf(ops[i])
  {
    addresses := [];
    var aggregate := 0;
    for index := 0 to |ops|
      invariant |addresses| == index
      invariant aggregate == TotalBytes(ops[..index]) <= MAX_TRANSACTION_BYTES
      invariant forall i :: 0 <= i < index ==> OperationFault(ops, i).None?
      invariant forall i :: 0 <= i < index ==>
        ShapeLegal(ops[i]) && AddressLegal(ops[i]) && addresses[i] == AddressOf(ops[i])
    {
      var op := ops[index];
      assert ops[..index + 1][..index] == ops[..index];
      if !ShapeLegal(op) {
        assert OperationFault(ops, index) == Some(InvalidOperationSize);
        return Some(InvalidOperationSize), addresses;
      }
      if aggregate > MAX_TRANSACTION_BYTES - |op.expected| {
        TotalBytesGrows(ops, index + 1);
        assert OperationFault(ops, index) == Some(TransactionTooLarge);
        return Some(TransactionTooLarge), addresses;
      }
      aggregate := aggregate + |op.expected|;
      if !AddressLegal(op) {
        assert OperationFault(ops, index) == Some(InvalidAddress);
        return Some(InvalidAddress), addresses;
      }
      addresses := addresses + [AddressOf(op)];
    }
    assert ops[..|ops|] == ops;
    fault := None;
  }

  /** Validate every range, read every range, then compare every range; the first failure rejects. */
  method Preflight(ops: seq<Operation>, addresses: seq<Address>, backend: MemoryBackend)
    returns (refusal: Option<Code>, prepared: seq<Prepared>)
    requires forall i :: 0 <= i < |ops| ==> ShapeLegal(ops[i]) && AddressLegal(ops[i])
    requires |addresses| == |ops| && forall i :: 0 <= i < |ops| ==> addresses[i] == AddressOf(ops[i])
    modifies backend`calls
    ensures refusal.None? ==> Ready(backend.memory, backend.writable, ops) && PreparedFrom(prepared, ops)
    ensures refusal.Some? ==>
      refusal.value.InvalidMemoryRange? || refusal.value.PreflightReadFailed? || refusal.value.ExpectedMismatch?
    ensures refusal == Some(InvalidMemoryRange) <==> !Accessible(backend.memory, backend.writable, ops)
    ensures refusal == Some(ExpectedMismatch) ==> !Ready(backend.memory, backend.writable, ops)
    ensures old(backend.calls) <= backend.calls
    ensures refusal == Some(PreflightReadFailed) ==> !Faultless(backend.faults, old(backend.calls), backend.calls)
  {
    prepared := [];
    for index := 0 to |ops|
      invariant Accessible(backend.memory, backend.writable, ops[..index])
    {
      if !backend.Validate(addresses[index], |ops[index].expected|, ops[index].kind.Write?) {
        return Some(InvalidMemoryRange), [];
      }
    }
    assert ops[..|ops|] == ops;
    for index := 0 to |ops|
      invariant |prepared| == index && old(backend.calls) <= backend.calls
      invariant forall i :: 0 <= i < index ==>
        prepared[i] == Prepared(AddressOf(ops[i]), Slice(backend.memory, AddressOf(ops[i]), |ops[i].expected|))
    {
      ghost var call := backend.calls;
      var read := backend.Read(addresses[index], |ops[index].expected|);
      if read.None? {
        assert !CallHonest(backend.faults, call);
        return Some(PreflightReadFailed), [];
      }
      prepared := prepared + [Prepared(addresses[index], read.value)];
    }
    for index := 0 to |ops|
      invariant forall i :: 0 <= i < index ==> prepared[i].original == ops[i].expected
    {
      if prepared[index].original != ops[index].expected {
        return Some(ExpectedMismatch), [];
      }
    }
    refusal := None;
  }

  function Verified(ops: seq<Operation>, done: nat): (results: seq<OperationResult>)
    ensures |results| == |ops|
  {
    seq(|ops|, i requires 0 <= i < |ops| => OperationResult(i, i < done && ops[i].kind.Write?, i < done))
  }

  /** The log of a run that failed at the write `k`: the writes up to it, then their originals, last first. */
  ghost predicate UndoneAt(ops: seq<Operation>, k: nat, log0: seq<WriteCall>, log: seq<WriteCall>)
    requires forall i :: 0 <= i < |ops| ==> AddressLegal(ops[i])
  {
    && k < |ops| && ops[k].kind.Write?
    && log == log0 + WriteLog(ops[..k + 1]) + RestoreLog(ops[..k + 1])
  }

  lemma {:induction false} CommittedConfined(entry: Memory, ops: seq<Operation>, prepared: seq<Prepared>, n: nat)
    requires forall i :: 0 <= i < |ops| ==> AddressLegal(ops[i]) && ShapeLegal(ops[i])
    requires PreparedFrom(prepared, ops) && n <= |ops|
    ensures Confined(entry, Committed(entry, ops[..n]), prepared, WriteIndices(ops[..n]))
  {
    if n > 0 {
      CommittedConfined(entry, ops, prepared, n - 1);
      assert ops[..n][..n - 1] == ops[..n - 1];
      var w, v := WriteIndices(ops[..n]), WriteIndices(ops[..n - 1]);
      assert forall m :: 0 <= m < |v| ==> w[m] == v[m];
      if ops[n - 1].kind.Write? {
        assert w[|w| - 1] == n - 1;
      }
    }
  }

  /** Where the write loop stands after `n` operations. */
  ghost predicate Applying(
    entry: Memory, memory: Memory, log0: seq<WriteCall>, log: seq<WriteCall>, ops: seq<Operation>, attempted: seq<nat>,
    results: seq<OperationResult>, n: nat)
    requires forall i :: 0 <= i < |ops| ==> AddressLegal(ops[i])
    requires n <= |ops|
  {
    && memory == Committed(entry, ops[..n])
    && log == log0 + WriteLog(ops[..n])
    && attempted == WriteIndices(ops[..n])
    && results == Verified(ops, n)
  }

  lemma {:induction false} ApplyingVerifyOnly(
    entry: Memory, log0: seq<WriteCall>, log: seq<WriteCall>, ops: seq<Operation>, attempted: seq<nat>,
    results: seq<OperationResult>, n: nat)
    requires forall i :: 0 <= i < |ops| ==> AddressLegal(ops[i])
    requires n < |ops| && ops[n].kind.VerifyOnly?
    requires Applying(entry, Committed(entry, ops[..n]), log0, log, ops, attempted, results, n)
    ensures Applying(entry, Committed(entry, ops[..n]), log0, log, ops, attempted,
                     results[n := OperationResult(n, false, true)], n + 1)
  {
    assert ops[..n + 1][..n] == ops[..n];
  }

  lemma {:induction false} ApplyingWrite(
    entry: Memory, log0: seq<WriteCall>, log: seq<WriteCall>, ops: seq<Operation>, attempted: seq<nat>,
    results: seq<OperationResult>, n: nat)
    requires forall i :: 0 <= i < |ops| ==> AddressLegal(ops[i])
    requires n < |ops| && ops[n].kind.Write?
    requires Applying(entry, Committed(entry, ops[..n]), log0, log, ops, attempted, results, n)
    ensures Applying(entry, Overlay(Committed(entry, ops[..n]), AddressOf(ops[n]), ops[n].replacement), log0,
                     log + [WriteCall(AddressOf(ops[n]), ops[n].replacement)], ops, attempted + [n],
                     results[n := OperationResult(n, true, true)], n + 1)
  {
    assert ops[..n + 1][..n] == ops[..n];
  }

  /** A read-back that shows the replacement leaves no room for a lie: only the range could differ. */
  lemma {:induction false} ReadBackPinsOverlay(was: Memory, now: Memory, address: int, bytes: seq<Byte>)
    requires now.Keys == was.Keys && Mapped(now, address, |bytes|)
    requires forall a :: a in now && !(address <= a < address + |bytes|) ==> now[a] == was[a]
    requires Slice(now, address, |bytes|) == bytes
    ensures now == Overlay(was, address, bytes)
  {
    forall a | a in now
      ensures now[a] == Overlay(was, address, bytes)[a]
    {
      if address <= a < address + |bytes| {
        assert Slice(now, address, |bytes|)[a - address] == bytes[a - address];
      }
    }
  }

  lemma {:induction false} ConfinedAfterWrite(
    entry: Memory, was: Memory, now: Memory, ops: seq<Operation>, prepared: seq<Prepared>, n: nat)
    requires forall i :: 0 <= i < |ops| ==> AddressLegal(ops[i]) && ShapeLegal(ops[i])
    requires PreparedFrom(prepared, ops) && n < |ops| && ops[n].kind.Write?
    requires was == Committed(entry, ops[..n]) && now.Keys == was.Keys
    requires forall a :: a in now && !InPrepared(prepared[n], a) ==> now[a] == was[a]
    ensures WriteIndices(ops[..n + 1]) == WriteIndices(ops[..n]) + [n]
    ensures Confined(entry, now, prepared, WriteIndices(ops[..n + 1]))
  {
    CommittedConfined(entry, ops, prepared, n);
    assert ops[..n + 1][..n] == ops[..n];
    var v, w := WriteIndices(ops[..n]), WriteIndices(ops[..n + 1]);
    assert forall m :: 0 <= m < |v| ==> w[m] == v[m];
    assert w[|v|] == n;
    forall a | a in entry && !InAttempted(prepared, w, a)
      ensures now[a] == entry[a]
    {
      assert !InPrepared(prepared[w[|v|]], a);
      assert !InAttempted(prepared, v, a);
    }
  }

  /** The results of a run undone at write `k`: nothing applied, earlier verify-only checks kept. */
  function Undone(ops: seq<Operation>, k: nat): (results: seq<OperationResult>)
    ensures |results| == |ops|
  {
    seq(|ops|, i requires 0 <= i < |ops| => OperationResult(i, false, i < k && ops[i].kind.VerifyOnly?))
  }

  lemma {:induction false} RestoresMatchLogAt(prepared: seq<Prepared>, ops: seq<Operation>, n: nat)
    requires forall i :: 0 <= i < |ops| ==> AddressLegal(ops[i])
    requires PreparedFrom(prepared, ops) && n <= |ops|
    ensures Restores(prepared, WriteIndices(ops[..n])) == RestoreLog(ops[..n])
  {
    RestoresMatchLog(prepared, ops[..n]);
  }

  lemma {:induction false} ConfinedIsFramed(
    entry: Memory, now: Memory, ops: seq<Operation>, prepared: seq<Prepared>, n: nat)
    requires forall i :: 0 <= i < |ops| ==> AddressLegal(ops[i])
    requires PreparedFrom(prepared, ops) && n <= |ops|
    requires Confined(entry, now, prepared, WriteIndices(ops[..n]))
    ensures SameOutside(entry, now, ops)
  {
    var attempted := WriteIndices(ops[..n]);
    forall a | a in entry && !InWriteRange(ops, a)
      ensures now[a] == entry[a]
    {
      forall m | 0 <= m < |attempted|
        ensures !InPrepared(prepared[attempted[m]], a)
      {
        WriteIndicesAre(ops[..n], attempted[m]);
        assert ops[..n][attempted[m]] == ops[attempted[m]];
      }
    }
  }

  lemma {:induction false} SliceOfOverlay(memory: Memory, address: int, bytes: seq<Byte>)
    requires Mapped(memory, address, |bytes|)
    ensures Slice(Overlay(memory, address, bytes), address, |bytes|) == bytes
  {
  }

  method WriteAndReadBack(address: Address, bytes: seq<Byte>, backend: MemoryBackend)
    returns (written: bool, verified: bool)
    requires Mapped(backend.memory, address, |bytes|)
    modifies backend`memory, backend`calls, backend`issued
    ensures old(backend.calls) <= backend.calls
    ensures verified ==> backend.memory == Overlay(old(backend.memory), address, bytes)
    ensures backend.memory.Keys == old(backend.memory.Keys)
    ensures forall a :: a in backend.memory && !(address <= a < address + |bytes|) ==>
      backend.memory[a] == old(backend.memory)[a]
    ensures backend.issued == old(backend.issued) + [WriteCall(address, bytes)]
    ensures Faultless(backend.faults, old(backend.calls), backend.calls) ==> verified
  {
    ghost var was, call := backend.memory, backend.calls;
    written := backend.Write(address, bytes);
    if !written {
      assert !CallHonest(backend.faults, call);
      return false, false;
    }
    SliceOfOverlay(was, address, bytes);
    var readback := backend.Read(address, |bytes|);
    assert readback != Some(bytes) ==> !CallHonest(backend.faults, call) || !CallHonest(backend.faults, call + 1);
    verified := readback == Some(bytes);
    if verified {
      ReadBackPinsOverlay(was, backend.memory, address, bytes);
    }
  }

  lemma {:induction false} UndoneIsCleared(
    ops: seq<Operation>, k: nat, results: seq<OperationResult>, attempted: seq<nat>)
    requires k < |ops| && attempted == WriteIndices(ops[..k]) + [k] && |results| == |ops|
    requires ops[k].kind.Write?
    requires forall i :: 0 <= i < |ops| && i != k ==> results[i] == Verified(ops, k)[i]
    requires results[k].index == k
    ensures Cleared(results, attempted) == Undone(ops, k)
  {
    forall i | 0 <= i < |ops|
      ensures Cleared(results, attempted)[i] == Undone(ops, k)[i]
    {
      if i < k {
        WriteIndicesAre(ops[..k], i);
      }
    }
  }

  lemma {:induction false} UndoLog(ops: seq<Operation>, prepared: seq<Prepared>, k: nat, log0: seq<WriteCall>)
    requires forall i :: 0 <= i < |ops| ==> AddressLegal(ops[i])
    requires PreparedFrom(prepared, ops) && k < |ops| && ops[k].kind.Write?
    ensures WriteIndices(ops[..k + 1]) == WriteIndices(ops[..k]) + [k]
    ensures UndoneAt(ops, k, log0, log0 + WriteLog(ops[..k]) + [WriteCall(AddressOf(ops[k]), ops[k].replacement)]
                                   + Restores(prepared, WriteIndices(ops[..k]) + [k]))
  {
    assert ops[..k + 1][..k] == ops[..k];
    RestoresMatchLogAt(prepared, ops, k + 1);
    var write := [WriteCall(AddressOf(ops[k]), ops[k].replacement)];
    assert WriteLog(ops[..k + 1]) == WriteLog(ops[..k]) + write;
    assert log0 + WriteLog(ops[..k]) + write == log0 + WriteLog(ops[..k + 1]);
  }

  /** Everything a rollback at write `k` starts from. */
  lemma {:induction false} UndoFacts(
    entry: Memory, was: Memory, now: Memory, ops: seq<Operation>, prepared: seq<Prepared>, attempted: seq<nat>,
    results: seq<OperationResult>, k: nat, log0: seq<WriteCall>)
    requires forall i :: 0 <= i < |ops| ==> AddressLegal(ops[i]) && ShapeLegal(ops[i])
    requires PreparedFrom(prepared, ops)
    requires k < |ops| && ops[k].kind.Write? && attempted == WriteIndices(ops[..k])
    requires was == Committed(entry, ops[..k]) && now.Keys == was.Keys
    requires forall a :: a in now && !InPrepared(prepared[k], a) ==> now[a] == was[a]
    requires |results| == |ops| && results[k].index == k
    requires forall i :: 0 <= i < |ops| && i != k ==> results[i] == Verified(ops, k)[i]
    ensures attempted + [k] == WriteIndices(ops[..k + 1])
    ensures Confined(entry, now, prepared, attempted + [k])
    ensures Cleared(results, attempted + [k]) == Undone(ops, k)
    ensures UndoneAt(ops, k, log0, log0 + WriteLog(ops[..k]) + [WriteCall(AddressOf(ops[k]), ops[k].replacement)]
                                   + Restores(prepared, attempted + [k]))
  {
    assert ops[..k + 1][..k] == ops[..k];
    assert Confined(entry, now, prepared, attempted + [k]) by {
      ConfinedAfterWrite(entry, was, now, ops, prepared, k);
    }
    assert Cleared(results, attempted + [k]) == Undone(ops, k) by {
      UndoneIsCleared(ops, k, results, attempted + [k]);
    }
    UndoLog(ops, prepared, k, log0);
  }

  /** One write and its read-back; a failure of either rolls everything attempted back. */
  method WriteOne(
    ops: seq<Operation>, prepared: seq<Prepared>, attempted: seq<nat>, results: seq<OperationResult>, index: nat,
    backend: MemoryBackend, ghost entry: Memory, ghost log0: seq<WriteCall>)
    returns (outcome: Option<Result>)
    requires forall i :: 0 <= i < |ops| ==> AddressLegal(ops[i]) && ShapeLegal(ops[i])
    requires Captured(entry, prepared) && PreparedFrom(prepared, ops)
    requires index < |ops| && ops[index].kind.Write?
    requires Applying(entry, backend.memory, log0, backend.issued, ops, attempted, results, index)
    modifies backend`memory, backend`calls, backend`issued
    ensures old(backend.calls) <= backend.calls
    ensures outcome.None? ==>
      && backend.memory == Overlay(old(backend.memory), AddressOf(ops[index]), ops[index].replacement)
      && backend.issued == old(backend.issued) + [WriteCall(AddressOf(ops[index]), ops[index].replacement)]
    ensures outcome.Some? ==> var result := outcome.value;
      && (result.status.RolledBackVerified? || result.status.RollbackUnverified?)
      && result.code == (if result.status.RolledBackVerified? then RolledBack else Unverified)
      && UndoneAt(ops, index, log0, backend.issued) && result.operations == Undone(ops, index)
      && (result.status.RolledBackVerified? ==> backend.memory == entry)
      && SameOutside(entry, backend.memory, ops)
      && !Faultless(backend.faults, old(backend.calls), backend.calls)
      && (result.status.RollbackUnverified? ==> TwoFaults(backend.faults, old(backend.calls), backend.calls))
  {
    ghost var was, lo := backend.memory, backend.calls;
    var written, verified := WriteAndReadBack(prepared[index].address, ops[index].replacement, backend);
    if verified {
      return None;
    }
    var marked := if written then results[index := OperationResult(index, true, false)] else results;
    UndoFacts(entry, was, backend.memory, ops, prepared, attempted, marked, index, log0);
    ghost var mid := backend.calls;
    var result := RollBack(prepared, attempted + [index], marked, backend, entry);
    if result.status.RollbackUnverified? {
      FaultThenFault(backend.faults, lo, mid, backend.calls);
    }
    ConfinedIsFramed(entry, backend.memory, ops, prepared, index + 1);
    outcome := Some(result);
  }

  lemma {:induction false} CapturedFromReady(
    entry: Memory, writable: set<int>, ops: seq<Operation>, prepared: seq<Prepared>)
    requires forall i :: 0 <= i < |ops| ==> AddressLegal(ops[i])
    requires Ready(entry, writable, ops) && PreparedFrom(prepared, ops)
    ensures Captured(entry, prepared)
  {
  }

  /** The write loop. Applied means every read-back matched, so the memory is the full overlay. */
  method Apply(ops: seq<Operation>, prepared: seq<Prepared>, backend: MemoryBackend) returns (result: Result)
    requires forall i :: 0 <= i < |ops| ==> AddressLegal(ops[i]) && ShapeLegal(ops[i])
    requires Ready(backend.memory, backend.writable, ops) && PreparedFrom(prepared, ops)
    modifies backend`memory, backend`calls, backend`issued
    ensures !result.status.Rejected? && old(backend.calls) <= backend.calls
    ensures result.status.RollbackUnverified? ==> TwoFaults(backend.faults, old(backend.calls), backend.calls)
    ensures result.status.AppliedVerified? ==>
      && result.code.Applied?
      && backend.memory == Committed(old(backend.memory), ops)
      && backend.issued == old(backend.issued) + WriteLog(ops)
      && result.operations == Verified(ops, |ops|)
    ensures !result.status.AppliedVerified? ==>
      && result.code == (if result.status.RolledBackVerified? then RolledBack else Unverified)
      && (exists k ::
        0 <= k < |ops| && UndoneAt(ops, k, old(backend.issued), backend.issued) && result.operations == Undone(ops, k))
    ensures result.status.RolledBackVerified? ==> backend.memory == old(backend.memory)
    ensures SameOutside(old(backend.memory), backend.memory, ops)
    ensures Faultless(backend.faults, old(backend.calls), backend.calls) ==> result.status.AppliedVerified?
  {
    ghost var entry, log0 := backend.memory, backend.issued;
    CapturedFromReady(entry, backend.writable, ops, prepared);
    var results := Verified(ops, 0);
    var attempted: seq<nat> := [];
    var index := 0;
    while index < |ops|
      invariant 0 <= index <= |ops|
      invariant Applying(entry, backend.memory, log0, backend.issued, ops, attempted, results, index)
      invariant old(backend.calls) <= backend.calls
    {
      var op := ops[index];
      if op.kind.VerifyOnly? {
        ApplyingVerifyOnly(entry, log0, backend.issued, ops, attempted, results, index);
        results := results[index := OperationResult(index, false, true)];
      } else {
        ghost var was, log := backend.memory, backend.issued;
        var outcome := WriteOne(ops, prepared, attempted, results, index, backend, entry, log0);
        if outcome.Some? {
          return outcome.value;
        }
        ApplyingWrite(entry, log0, log, ops, attempted, results, index);
        attempted := attempted + [index];
        results := results[index := OperationResult(index, true, true)];
      }
      index := index + 1;
    }
    assert ops[..|ops|] == ops;
    CommittedConfined(entry, ops, prepared, |ops|);
    ConfinedIsFramed(entry, backend.memory, ops, prepared, |ops|);
    result := Result(AppliedVerified, Applied, results);
  }

  /** The engine: the whole contract of one transaction. */
  method RunTransaction(request: Request, backend: MemoryBackend) returns (result: Result)
    modifies backend
    // the run goes on record
    ensures backend.runs == old(backend.runs) + [request] && old(backend.calls) <= backend.calls
    // refusals issue no write and name the first failing check
    ensures result.status.Rejected? ==>
      backend.issued == old(backend.issued) && backend.memory == old(backend.memory) && result.operations == []
    ensures result.code.InvalidTransactionId? <==> !ValidTransactionId(request.transactionId)
    ensures result.code.InvalidOperationCount? <==>
      ValidTransactionId(request.transactionId) && !(0 < |request.operations| <= MAX_OPERATIONS)
    ensures result.code.InvalidOperationSize? || result.code.TransactionTooLarge? || result.code.InvalidAddress? ==>
      FirstFault(request.operations, result.code)
    ensures result.code.OverlappingOperations? ==>
      OperationsLegal(request.operations) && !PairwiseApart(RangesOf(request.operations))
    ensures WellFormed(request) <==> !Structural(result.code)
    ensures WellFormed(request) ==> (result.code.InvalidMemoryRange? <==>
      !Accessible(old(backend.memory), backend.writable, request.operations))
    ensures WellFormed(request) && result.status.Rejected? ==>
      || !Ready(old(backend.memory), backend.writable, request.operations)
      || !Faultless(backend.faults, old(backend.calls), backend.calls)
    // the preflight names its own failures
    ensures result.code.ExpectedMismatch? ==>
      && WellFormed(request) && Accessible(old(backend.memory), backend.writable, request.operations)
      && !Ready(old(backend.memory), backend.writable, request.operations)
    ensures result.code.PreflightReadFailed? ==>
      && WellFormed(request) && Accessible(old(backend.memory), backend.writable, request.operations)
      && !Faultless(backend.faults, old(backend.calls), backend.calls)
    // anything else passed the preflight
    ensures !result.status.Rejected? ==>
      WellFormed(request) && Ready(old(backend.memory), backend.writable, request.operations)
    ensures result.status.AppliedVerified? ==>
      && result.code.Applied?
      && backend.memory == Committed(old(backend.memory), request.operations)
      && backend.issued == old(backend.issued) + WriteLog(request.operations)
      && result.operations == Verified(request.operations, |request.operations|)
    ensures result.status.RolledBackVerified? ==> backend.memory == old(backend.memory)
    ensures result.status.RolledBackVerified? || result.status.RollbackUnverified? ==>
      exists k :: 0 <= k < |request.operations|
        && UndoneAt(request.operations, k, old(backend.issued), backend.issued)
        && result.operations == Undone(request.operations, k)
    // in every outcome only the write ranges can differ
    ensures WellFormed(request) ==> SameOutside(old(backend.memory), backend.memory, request.operations)
    // without a fault it applies exactly what is ready; with one at most it never ends unverified
    ensures Faultless(backend.faults, old(backend.calls), backend.calls) ==>
      (result.status.AppliedVerified? <==>
        WellFormed(request) && Ready(old(backend.memory), backend.writable, request.operations))
    ensures result.status.RolledBackVerified? ==> !Faultless(backend.faults, old(backend.calls), backend.calls)
    ensures result.status.RollbackUnverified? ==> TwoFaults(backend.faults, old(backend.calls), backend.calls)
  {
    backend.runs := backend.runs + [request];
    var ops := request.operations;
    if !ValidTransactionId(request.transactionId) {
      return Result(Rejected, InvalidTransactionId, []);
    }
    if ops == [] || |ops| > MAX_OPERATIONS {
      return Result(Rejected, InvalidOperationCount, []);
    }
    var fault, addresses := CheckOperations(ops);
    if fault.Some? {
      return Result(Rejected, fault.value, []);
    }
    var overlapping := AnyOverlap(RangesOf(ops));
    if overlapping {
      return Result(Rejected, OverlappingOperations, []);
    }
    var refusal, prepared := Preflight(ops, addresses, backend);
    if refusal.Some? {
      return Result(Rejected, refusal.value, []);
    }
    result := Apply(ops, prepared, backend);
  }

  // ----- what a commit leaves

  /** What byte `a` holds once `op` has committed. */
  function LeftBy(memory: Memory, op: Operation, a: int): Byte
    requires ShapeLegal(op) && AddressLegal(op) && a in memory && Within(a, RangeOf(op))
  {
    if op.kind.Write? then op.replacement[a - AddressOf(op)] else memory[a]
  }

  ghost predicate AllLegal(ops: seq<Operation>) {
    forall i :: 0 <= i < |ops| ==> ShapeLegal(ops[i]) && AddressLegal(ops[i])
  }

  lemma {:induction false} CommittedOutside(memory: Memory, ops: seq<Operation>, a: int)
    requires AllLegal(ops) && a in memory
    requires forall i :: 0 <= i < |ops| ==> !Within(a, RangeOf(ops[i]))
    ensures Committed(memory, ops)[a] == memory[a]
  {
    if ops != [] {
      var front := ops[..|ops| - 1];
      assert forall i :: 0 <= i < |front| ==> front[i] == ops[i];
      CommittedOutside(memory, front, a);
      assert !Within(a, RangeOf(ops[|ops| - 1]));
    }
  }

  lemma {:induction false} FrontRanges(ops: seq<Operation>)
    requires AllLegal(ops) && PairwiseApart(RangesOf(ops)) && ops != []
    ensures AllLegal(ops[..|ops| - 1]) && RangesOf(ops[..|ops| - 1]) == RangesOf(ops)[..|ops| - 1]
    ensures PairwiseApart(RangesOf(ops[..|ops| - 1]))
  {
  }

  /** With disjoint ranges each range ends up as its own operation says, whatever the order: writes
      leave their replacement, verify-only ranges and everything else are untouched. */
  lemma {:induction false} CommittedAt(memory: Memory, ops: seq<Operation>, i: nat, a: int)
    requires AllLegal(ops) && PairwiseApart(RangesOf(ops))
    requires a in memory && i < |ops| && Within(a, RangeOf(ops[i]))
    ensures Committed(memory, ops)[a] == LeftBy(memory, ops[i], a)
  {
    var n := |ops| - 1;
    FrontRanges(ops);
    if i < n {
      assert Apart(RangesOf(ops)[i], RangesOf(ops)[n]);
      CommittedAt(memory, ops[..n], i, a);
    } else {
      forall j | 0 <= j < n
        ensures !Within(a, RangeOf(ops[..n][j]))
      {
        assert Apart(RangesOf(ops)[j], RangesOf(ops)[n]);
      }
      CommittedOutside(memory, ops[..n], a);
    }
  }
}
