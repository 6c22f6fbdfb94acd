/** What requests the engine accepts, which fault it names, and what its write log and its results say, without its own
    tests. */
module EngineMeaning {
  import opened Bytes
  import opened Ranges
  import AddressText
  import opened MemoryTransaction
  import SeqFacts

  // ----- legal requests

  const HEX_DIGITS: string := "0123456789ABCDEF"

  /** An address is printed in digits of base 16, the highest first and none in vain. */
  lemma {:induction false} PrintedDigits(value: nat)
    ensures value < 16 ==> AddressText.Digits(value) == [HEX_DIGITS[value]]
    ensures value >= 16 ==> AddressText.Digits(value) == AddressText.Digits(value / 16) + [HEX_DIGITS[value % 16]]
  {
    assert AddressText.DigitChar(value % 16) == HEX_DIGITS[value % 16];
  }

  /** The operation is at this address. */
  predicate At(op: Operation, a: Address) {
    op.address == AddressText.Format(a)
  }

  /** 1 to 4096 expected bytes inside the address space, and a write replaces each of them, a check none. */
  ghost predicate Sound(op: Operation) {
    && 1 <= |op.expected| <= 4096
    && |op.replacement| == (if op.kind.Write? then |op.expected| else 0)
    && exists a: Address :: At(op, a) && a + |op.expected| <= 0xFFFF_FFFF_FFFF_FFFF
  }

  lemma {:induction false} SoundMeans(op: Operation)
    ensures Sound(op) <==> ShapeLegal(op) && AddressLegal(op)
    ensures AddressLegal(op) ==> forall a: Address :: At(op, a) <==> AddressOf(op) == a
  {
    forall a: Address
      ensures At(op, a) <==> AddressText.ParseCanonical(op.address) == Some(a)
    {
      AddressText.FormatParseBijection(a, op.address);
    }
    if AddressLegal(op) {
      assert At(op, AddressOf(op));
    }
  }

  /** Both operations reach the byte. */
  ghost predicate Collide(x: Operation, y: Operation, b: int) {
    exists s: Address, t: Address :: At(x, s) && At(y, t) && s <= b < s + |x.expected| && t <= b < t + |y.expected|
  }

  lemma {:induction false} CollideMeans(x: Operation, y: Operation)
    requires Sound(x) && Sound(y) && AddressLegal(x) && AddressLegal(y)
    ensures Apart(RangeOf(x), RangeOf(y)) <==> forall b :: !Collide(x, y, b)
  {
    SoundMeans(x);
    SoundMeans(y);
    var s, t := AddressOf(x), AddressOf(y);
    assert At(x, s) && At(y, t);
    if forall b :: !Collide(x, y, b) {
      assert !Collide(x, y, s) && !Collide(x, y, t);
    }
  }

  ghost predicate AllSound(ops: seq<Operation>) {
    forall i :: 0 <= i < |ops| ==> Sound(ops[i])
  }

  ghost predicate NoneCollide(ops: seq<Operation>) {
    forall i, j, b :: 0 <= i < j < |ops| ==> !Collide(ops[i], ops[j], b)
  }

  lemma {:induction false} SoundOperations(ops: seq<Operation>)
    ensures AllSound(ops) <==> AllLegal(ops)
  {
    forall op: Operation
      ensures Sound(op) <==> ShapeLegal(op) && AddressLegal(op)
    {
      SoundMeans(op);
    }
  }

  lemma {:induction false} NoneCollideMeans(ops: seq<Operation>)
    requires AllLegal(ops)
    ensures PairwiseApart(RangesOf(ops)) <==> NoneCollide(ops)
  {
    SoundOperations(ops);
    forall i, j | 0 <= i < j < |ops|
      ensures Apart(RangesOf(ops)[i], RangesOf(ops)[j]) <==> forall b :: !Collide(ops[i], ops[j], b)
    {
      CollideMeans(ops[i], ops[j]);
    }
  }

  /** The bytes a list of operations compares. */
  lemma {:induction false} TotalIsSum(s: seq<Operation>, t: seq<Operation>, op: Operation)
    ensures TotalBytes([]) == 0 && TotalBytes([op]) == |op.expected|
    ensures TotalBytes(s + t) == TotalBytes(s) + TotalBytes(t)
  {
    assert [op][..0] == [];
    if t == [] {
      assert s + t == s;
    } else {
      var n := |t| - 1;
      assert (s + t)[..|s + t| - 1] == s + t[..n];
      TotalIsSum(s, t[..n], op);
    }
  }

  predicate Letter(c: char) {
    'a' <= c <= 'z' || 'A' <= c <= 'Z'
  }

  predicate LegalId(id: string) {
    && 1 <= |id| <= 64
    && forall i :: 0 <= i < |id| ==> Letter(id[i]) || '0' <= id[i] <= '9' || id[i] in "._-"
  }

  /** The engine takes a request under an id of 1 to 64 letters, digits, dots, dashes and underlines, of 1 to 32 sound
      operations that compare at most 65536 bytes together and none of them twice. */
  lemma {:induction false} WellFormedExactly(request: Request)
    ensures WellFormed(request) <==>
      && LegalId(request.transactionId) && 1 <= |request.operations| <= 32
      && AllSound(request.operations) && TotalBytes(request.operations) <= 65536 && NoneCollide(request.operations)
  {
    SoundOperations(request.operations);
    if AllLegal(request.operations) {
      NoneCollideMeans(request.operations);
    }
  }

  // ----- the fault named

  /** The first operation at fault: of the wrong shape; or one too many bytes; or of no address. */
  ghost predicate AtFault(ops: seq<Operation>, code: Code, i: nat) {
    && i < |ops| && AllSound(ops[..i]) && TotalBytes(ops[..i]) <= 65536
    && var op := ops[i];
       var shaped := 1 <= |op.expected| <= 4096
         && |op.replacement| == (if op.kind.Write? then |op.expected| else 0);
       match code
       case InvalidOperationSize => !shaped
       case TransactionTooLarge => shaped && TotalBytes(ops[..i]) + |op.expected| > 65536
       case InvalidAddress => shaped && TotalBytes(ops[..i]) + |op.expected| <= 65536 && !Sound(op)
       case _ => false
  }

  lemma {:induction false} EarlierSound(ops: seq<Operation>, i: nat)
    requires i <= |ops| && forall j :: 0 <= j < i ==> OperationFault(ops, j).None?
    ensures AllSound(ops[..i]) && TotalBytes(ops[..i]) <= 65536
  {
    forall j | 0 <= j < i
      ensures Sound(ops[..i][j])
    {
      assert OperationFault(ops, j).None?;
      SoundMeans(ops[j]);
    }
    assert i > 0 ==> OperationFault(ops, i - 1).None?;
  }

  /** The engine names the first fault, and of one operation its shape before the total, and both before its address. */
  lemma {:induction false} FirstFaultMeans(ops: seq<Operation>, code: Code)
    requires FirstFault(ops, code)
    ensures exists i: nat :: AtFault(ops, code, i)
  {
    var i :| 0 <= i < |ops| && OperationFault(ops, i) == Some(code)
      && forall j :: 0 <= j < i ==> OperationFault(ops, j).None?;
    EarlierSound(ops, i);
    SoundMeans(ops[i]);
    SeqFacts.TakeTake(ops, i);
    assert AtFault(ops, code, i);
  }

  // ----- the log and the results

  /** The places of the writes, ascending. */
  ghost predicate WritePlaces(ops: seq<Operation>, places: seq<nat>) {
    && (forall m :: 0 <= m < |places| ==> places[m] < |ops| && ops[places[m]].kind.Write?)
    && (forall m, n :: 0 <= m < n < |places| ==> places[m] < places[n])
    && forall i :: 0 <= i < |ops| && ops[i].kind.Write? ==> i in places
  }

  lemma {:induction false} LastPlace(ops: seq<Operation>, places: seq<nat>)
    requires ops != [] && WritePlaces(ops, places)
    ensures var n := |ops| - 1;
      if ops[n].kind.Write? then
        places != [] && places[|places| - 1] == n && WritePlaces(ops[..n], places[..|places| - 1])
      else WritePlaces(ops[..n], places)
  {
    var n := |ops| - 1;
    if ops[n].kind.Write? {
      assert n in places;
      var k :| 0 <= k < |places| && places[k] == n;
      assert places[k] <= places[|places| - 1];
      forall i | 0 <= i < n && ops[..n][i].kind.Write?
        ensures i in places[..|places| - 1]
      {
        assert i in places;
      }
    }
  }

  /** Entry `m` of the log is the operation's write, and entry `m` from the end of the undo log takes it back. */
  predicate LoggedAt(op: Operation, log: seq<WriteCall>, undo: seq<WriteCall>, m: nat) {
    && m < |log| == |undo| && AddressLegal(op)
    && log[m] == WriteCall(AddressOf(op), op.replacement)
    && undo[|log| - 1 - m] == WriteCall(AddressOf(op), op.expected)
  }

  lemma {:induction false} StillLogged(
    op: Operation, log: seq<WriteCall>, undo: seq<WriteCall>, m: nat, x: WriteCall, y: WriteCall)
    requires LoggedAt(op, log, undo, m)
    ensures LoggedAt(op, log + [x], [y] + undo, m)
  {
    assert ([y] + undo)[1..] == undo;
  }

  lemma {:induction false} JustLogged(op: Operation, log: seq<WriteCall>, undo: seq<WriteCall>)
    requires |log| == |undo| && AddressLegal(op)
    ensures LoggedAt(op, log + [WriteCall(AddressOf(op), op.replacement)],
                     [WriteCall(AddressOf(op), op.expected)] + undo, |log|)
  {
  }

  /** The same place by place, from the last operation down. */
  predicate Placed(ops: seq<Operation>, places: seq<nat>) {
    if ops == [] then places == []
    else
      var n := |ops| - 1;
      if ops[n].kind.Write? then
        places != [] && places[|places| - 1] == n && Placed(ops[..n], places[..|places| - 1])
      else Placed(ops[..n], places)
  }

  lemma {:induction false} PlacesArePlaced(ops: seq<Operation>, places: seq<nat>)
    requires WritePlaces(ops, places)
    ensures Placed(ops, places)
  {
    if ops != [] {
      var n := |ops| - 1;
      LastPlace(ops, places);
      PlacesArePlaced(ops[..n], if ops[n].kind.Write? then places[..|places| - 1] else places);
    }
  }

  lemma {:induction false} LogSizes(ops: seq<Operation>, places: seq<nat>)
    requires AllLegal(ops) && Placed(ops, places)
    ensures |WriteLog(ops)| == |RestoreLog(ops)| == |places|
  {
    if ops != [] {
      var n := |ops| - 1;
      LogSizes(ops[..n], if ops[n].kind.Write? then places[..|places| - 1] else places);
    }
  }

  /** What is logged for the operations before the last stays where it is, counted from the proper ends. */
  lemma {:induction false} LogKept(ops: seq<Operation>, x: Operation, m: nat)
    requires AllLegal(ops) && ops != []
    requires LoggedAt(x, WriteLog(ops[..|ops| - 1]), RestoreLog(ops[..|ops| - 1]), m)
    ensures LoggedAt(x, WriteLog(ops), RestoreLog(ops), m)
  {
    var op, before := ops[|ops| - 1], ops[..|ops| - 1];
    if op.kind.Write? {
      StillLogged(x, WriteLog(before), RestoreLog(before), m,
                  WriteCall(AddressOf(op), op.replacement), WriteCall(AddressOf(op), op.expected));
    } else {
      assert WriteLog(ops) == WriteLog(before) && RestoreLog(ops) == RestoreLog(before);
    }
  }

  lemma {:induction false} LastLogged(ops: seq<Operation>, places: seq<nat>)
    requires AllLegal(ops) && Placed(ops, places) && ops != [] && ops[|ops| - 1].kind.Write?
    ensures LoggedAt(ops[|ops| - 1], WriteLog(ops), RestoreLog(ops), |places| - 1)
  {
    var before := ops[..|ops| - 1];
    LogSizes(before, places[..|places| - 1]);
    JustLogged(ops[|ops| - 1], WriteLog(before), RestoreLog(before));
  }

  lemma {:induction false} LogAt(ops: seq<Operation>, places: seq<nat>, m: nat)
    requires AllLegal(ops) && Placed(ops, places) && m < |places|
    ensures places[m] < |ops| && LoggedAt(ops[places[m]], WriteLog(ops), RestoreLog(ops), m)
  {
    var n, last := |ops| - 1, |places| - 1;
    if ops[n].kind.Write? && m == last {
      LastLogged(ops, places);
    } else {
      LogAt(ops[..n], if ops[n].kind.Write? then places[..last] else places, m);
      LogKept(ops, ops[places[m]], m);
    }
  }

  /** Writes are issued in the order of the request, and undone in the opposite order, with the expected bytes. */
  lemma {:induction false} LogsMean(ops: seq<Operation>, places: seq<nat>)
    requires AllLegal(ops) && WritePlaces(ops, places)
    ensures |WriteLog(ops)| == |RestoreLog(ops)| == |places|
    ensures forall m :: 0 <= m < |places| ==>
      && WriteLog(ops)[m] == WriteCall(AddressOf(ops[places[m]]), ops[places[m]].replacement)
      && RestoreLog(ops)[|places| - 1 - m] == WriteCall(AddressOf(ops[places[m]]), ops[places[m]].expected)
  {
    PlacesArePlaced(ops, places);
    LogSizes(ops, places);
    forall m | 0 <= m < |places|
      ensures LoggedAt(ops[places[m]], WriteLog(ops), RestoreLog(ops), m)
    {
      LogAt(ops, places, m);
    }
  }

  /** What the results of a run say: applied, every write is done and everything verified; undone at write `k`, nothing
      is applied and only the checks before it stay verified. */
  lemma {:induction false} ResultsMean(ops: seq<Operation>, k: nat, i: nat)
    requires k < |ops| && i < |ops|
    ensures Verified(ops, |ops|)[i] == OperationResult(i, ops[i].kind.Write?, true)
    ensures Undone(ops, k)[i] == OperationResult(i, false, i < k && ops[i].kind.VerifyOnly?)
  {
  }
}
