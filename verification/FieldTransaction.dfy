/** Finalising field write plans: guards and writes of many plans become one request of disjoint
    operations, through a constraint on every byte. */
module FieldTransaction {
  import opened Bytes
  import opened Ranges
  import AddressText
  import SeqFacts
  import opened MemoryTransaction
  import opened CatalogState

  datatype PlanCode = Planned | CatalogStale | FieldInvalid | AuthorityUnproven | ReadFailed

  datatype FieldWritePlan = FieldWritePlan(ok: bool, code: PlanCode, evidence: Evidence, operations: seq<Operation>)

  datatype FinalCode = Finalised | Invalid | EvidenceStale | EvidenceAmbiguous | LimitExceeded

  datatype GuardedFieldTransaction = GuardedFieldTransaction(ok: bool, code: FinalCode, request: Request)

  datatype ByteConstraint = ByteConstraint(expected: Byte, replacement: Option<Byte>)

  type Constraints = map<int, ByteConstraint>

  // ----- the operations a list of plans stands for

  function GuardOperation(guard: Guard): Operation {
    Operation(AddressText.Format(guard.address), guard.expected, [], VerifyOnly)
  }

  function GuardOperations(guards: seq<Guard>): (ops: seq<Operation>)
    ensures |ops| == |guards| && forall i :: 0 <= i < |guards| ==> ops[i] == GuardOperation(guards[i])
  {
    seq(|guards|, i requires 0 <= i < |guards| => GuardOperation(guards[i]))
  }

  function PlanOperations(plan: FieldWritePlan): seq<Operation> {
    GuardOperations(plan.evidence.guards) + plan.operations
  }

  function AllOperations(plans: seq<FieldWritePlan>): seq<Operation> {
    if plans == [] then [] else AllOperations(plans[..|plans| - 1]) + PlanOperations(plans[|plans| - 1])
  }

  // ----- pieces: operations with their address parsed

  datatype RawPiece = RawPiece(start: Address, expected: seq<Byte>, replacement: seq<Byte>, writes: bool)

  predicate WellShaped(p: RawPiece) {
    && p.expected != [] && p.start + |p.expected| <= ADDRESS_MAX
    && |p.replacement| == if p.writes then |p.expected| else 0
  }

  type Piece = p: RawPiece | WellShaped(p) witness RawPiece(0, [0], [], false)

  /** The shape and address tests of `AddOperationConstraints`; its address parser is the lenient one. */
  function PieceOf(op: Operation): Option<Piece> {
    var address := AddressText.ParseInternal(op.address);
    if address.None? then None
    else
      var p := RawPiece(address.value, op.expected, op.replacement, op.kind.Write?);
      if WellShaped(p) then Some(p) else None
  }

  function Span(p: Piece): Range {
    Range(p.start, p.start + |p.expected|)
  }

  predicate Covers(p: Piece, a: int) {
    p.start <= a < p.start + |p.expected|
  }

  predicate WritesAt(p: Piece, a: int) {
    p.writes && Covers(p, a)
  }

  function ExpectedAt(p: Piece, a: int): Byte
    requires Covers(p, a)
  {
    p.expected[a - p.start]
  }

  function ReplacementAt(p: Piece, a: int): Byte
    requires WritesAt(p, a)
  {
    p.replacement[a - p.start]
  }

  /** Two pieces that say the same wherever both speak. */
  predicate Agree(p: Piece, q: Piece) {
    forall a :: p.start <= a < p.start + |p.expected| && Covers(q, a) ==>
      && ExpectedAt(p, a) == ExpectedAt(q, a)
      && (p.writes && q.writes ==> ReplacementAt(p, a) == ReplacementAt(q, a))
  }

  /** No two pieces disagree about a byte. Neither order nor repetition plays a part in it. */
  ghost predicate Consistent(pieces: set<Piece>) {
    forall p, q :: p in pieces && q in pieces ==> Agree(p, q)
  }

  // ----- the constraint map

  /** The constraint on byte `a` is exactly what the pieces say of it. */
  ghost predicate SaysAt(constraints: Constraints, pieces: set<Piece>, a: int) {
    && (a in constraints ==> exists p :: p in pieces && Covers(p, a))
    && (a in constraints && constraints[a].replacement.Some? ==> exists p :: p in pieces && WritesAt(p, a))
    && (forall p :: p in pieces && Covers(p, a) ==>
      && a in constraints && constraints[a].expected == ExpectedAt(p, a)
      && (p.writes ==> constraints[a].replacement == Some(ReplacementAt(p, a))))
  }

  ghost predicate Represents(constraints: Constraints, pieces: set<Piece>) {
    forall a: int :: SaysAt(constraints, pieces, a)
  }

  /** What one piece needs of the constraint on byte `a`. */
  predicate CompatibleAt(constraints: Constraints, p: Piece, a: int)
    requires Covers(p, a)
  {
    a in constraints ==>
      var found := constraints[a];
      && found.expected == ExpectedAt(p, a)
      && (p.writes && found.replacement.Some? ==> found.replacement.value == ReplacementAt(p, a))
  }

  predicate Compatible(constraints: Constraints, p: Piece) {
    forall a :: p.start <= a < p.start + |p.expected| ==> CompatibleAt(constraints, p, a)
  }

  function Claim(constraints: Constraints, p: Piece, a: int): ByteConstraint
    requires Covers(p, a)
  {
    ByteConstraint(
      ExpectedAt(p, a),
      if p.writes then Some(ReplacementAt(p, a))
      else if a in constraints then constraints[a].replacement else None)
  }

  /** The constraints after the bytes of a piece below `end`. */
  function Added(constraints: Constraints, p: Piece, end: int): (after: Constraints)
    requires p.start <= end <= p.start + |p.expected|
    ensures forall a :: a in after <==> a in constraints || p.start <= a < end
    ensures forall a :: a in after ==>
      after[a] == (if p.start <= a < end then Claim(constraints, p, a) else constraints[a])
    decreases end - p.start
  {
    if end == p.start then constraints
    else Added(constraints, p, end - 1)[end - 1 := Claim(constraints, p, end - 1)]
  }

  function AddedAll(constraints: Constraints, p: Piece): Constraints {
    Added(constraints, p, p.start + |p.expected|)
  }

  lemma {:induction false} CompatibleAgrees(constraints: Constraints, pieces: set<Piece>, p: Piece, q: Piece)
    requires Represents(constraints, pieces) && Compatible(constraints, p) && q in pieces
    ensures Agree(q, p)
  {
    forall a | q.start <= a < q.start + |q.expected| && Covers(p, a)
      ensures ExpectedAt(q, a) == ExpectedAt(p, a)
      ensures q.writes && p.writes ==> ReplacementAt(q, a) == ReplacementAt(p, a)
    {
      assert SaysAt(constraints, pieces, a) && Covers(q, a);
      assert CompatibleAt(constraints, p, a);
    }
  }

  lemma {:induction false} AgreesCompatible(constraints: Constraints, pieces: set<Piece>, p: Piece, a: int)
    requires Represents(constraints, pieces) && Covers(p, a)
    requires forall q :: q in pieces ==> Agree(q, p)
    ensures CompatibleAt(constraints, p, a)
  {
    assert SaysAt(constraints, pieces, a);
    if a in constraints {
      var q :| q in pieces && Covers(q, a);
      assert Agree(q, p);
      if p.writes && constraints[a].replacement.Some? {
        var w :| w in pieces && WritesAt(w, a);
        assert Agree(w, p);
      }
    }
  }

  lemma {:induction false} AddedSaysInside(constraints: Constraints, pieces: set<Piece>, p: Piece, a: int)
    requires SaysAt(constraints, pieces, a) && Compatible(constraints, p) && Covers(p, a)
    ensures SaysAt(AddedAll(constraints, p), pieces + {p}, a)
  {
    var more, claim := pieces + {p}, Claim(constraints, p, a);
    assert CompatibleAt(constraints, p, a);
    assert AddedAll(constraints, p)[a] == claim;
    assert p in more;
    if claim.replacement.Some? && !p.writes {
      var w :| w in pieces && WritesAt(w, a);
      assert w in more;
    }
  }

  lemma {:induction false} AddedSaysOutside(constraints: Constraints, pieces: set<Piece>, p: Piece, a: int)
    requires SaysAt(constraints, pieces, a) && !Covers(p, a)
    ensures SaysAt(AddedAll(constraints, p), pieces + {p}, a)
  {
  }

  /** Adding a piece: it is accepted exactly when it agrees with all before it, and then the
      constraints represent one piece more. */
  lemma {:induction false} AddingKeepsRepresentation(constraints: Constraints, pieces: set<Piece>, p: Piece)
    requires Represents(constraints, pieces)
    ensures Compatible(constraints, p) <==> forall q :: q in pieces ==> Agree(q, p)
    ensures Compatible(constraints, p) ==> Represents(AddedAll(constraints, p), pieces + {p})
  {
    if Compatible(constraints, p) {
      forall q | q in pieces {
        CompatibleAgrees(constraints, pieces, p, q);
      }
      forall a: int
        ensures SaysAt(AddedAll(constraints, p), pieces + {p}, a)
      {
        if Covers(p, a) {
          AddedSaysInside(constraints, pieces, p, a);
        } else {
          AddedSaysOutside(constraints, pieces, p, a);
        }
      }
    } else if forall q :: q in pieces ==> Agree(q, p) {
      forall a | p.start <= a < p.start + |p.expected| {
        AgreesCompatible(constraints, pieces, p, a);
      }
      assert false;
    }
  }

  /** The constraint on byte `a` after the piece claims it, unless it conflicts. */
  function ClaimByte(constraints: Constraints, p: Piece, a: int): (r: Option<ByteConstraint>)
    requires Covers(p, a)
    ensures r == if CompatibleAt(constraints, p, a) then Some(Claim(constraints, p, a)) else None
  {
    var found := if a in constraints then constraints[a] else ByteConstraint(ExpectedAt(p, a), None);
    if found.expected != ExpectedAt(p, a) then None
    else if !p.writes then Some(found)
    else if found.replacement.Some? && found.replacement.value != ReplacementAt(p, a) then None
    else Some(found.(replacement := Some(ReplacementAt(p, a))))
  }

  lemma {:induction false} ClaimUnchanged(constraints: Constraints, p: Piece, a: int)
    requires Covers(p, a)
    ensures ClaimByte(Added(constraints, p, a), p, a)
      == if CompatibleAt(constraints, p, a) then Some(Claim(constraints, p, a)) else None
    ensures Added(constraints, p, a + 1) == Added(constraints, p, a)[a := Claim(constraints, p, a)]
  {
  }

  datatype Collection = Collection(constraints: Constraints, ranges: seq<Range>)

  /** The collection with one more operation, unless it is refused. */
  function Admit(before: Collection, op: Operation): Option<Collection> {
    var p := PieceOf(op);
    if p.None? || !Compatible(before.constraints, p.value) then None
    else Some(Collection(AddedAll(before.constraints, p.value), before.ranges + [Span(p.value)]))
  }

  predicate CompatibleBelow(constraints: Constraints, p: Piece, end: int)
    requires p.start <= end <= p.start + |p.expected|
    decreases end - p.start
  {
    end == p.start || (CompatibleBelow(constraints, p, end - 1) && CompatibleAt(constraints, p, end - 1))
  }

  lemma {:induction false} CompatibleBelowMeans(constraints: Constraints, p: Piece, end: int)
    requires p.start <= end <= p.start + |p.expected|
    ensures CompatibleBelow(constraints, p, end) <==> forall a :: p.start <= a < end ==> CompatibleAt(constraints, p, a)
    decreases end - p.start
  {
    if end > p.start {
      CompatibleBelowMeans(constraints, p, end - 1);
    }
  }

  method AddPiece(p: Piece, before: Constraints) returns (constraints: Option<Constraints>)
    ensures constraints == if Compatible(before, p) then Some(AddedAll(before, p)) else None
  {
    var after, a: int := before, p.start;
    while a < p.start + |p.expected|
      invariant p.start <= a <= p.start + |p.expected|
      invariant after == Added(before, p, a) && CompatibleBelow(before, p, a)
    {
      ClaimUnchanged(before, p, a);
      var found := ClaimByte(after, p, a);
      if found.None? {
        return None;
      }
      after := after[a := found.value];
      a := a + 1;
    }
    CompatibleBelowMeans(before, p, a);
    constraints := Some(after);
  }

  /** `AddOperationConstraints`: the operation's shape and address, its range, then one constraint per byte. */
  method AddOperationConstraints(op: Operation, before: Collection) returns (collected: Option<Collection>)
    ensures collected == Admit(before, op)
  {
    var piece := PieceOf(op);
    if piece.None? {
      return None;
    }
    var constraints := AddPiece(piece.value, before.constraints);
    if constraints.None? {
      return None;
    }
    collected := Some(Collection(constraints.value, before.ranges + [Span(piece.value)]));
  }

  // ----- collecting a list of operations

  /** The constraints and ranges after a list of operations, or nothing once one is refused. */
  function Collect(ops: seq<Operation>): Option<Collection> {
    if ops == [] then Some(Collection(map[], []))
    else
      var before := Collect(ops[..|ops| - 1]);
      if before.None? then None else Admit(before.value, ops[|ops| - 1])
  }

  lemma {:induction false} CollectPush(ops: seq<Operation>, op: Operation)
    requires Collect(ops).Some?
    ensures Collect(ops + [op]) == Admit(Collect(ops).value, op)
  {
  }

  lemma {:induction false} CollectPrefix(ops: seq<Operation>, more: seq<Operation>)
    requires Collect(ops + more).Some?
    ensures Collect(ops).Some?
    decreases |more|
  {
    if more == [] {
      assert ops + more == ops;
    } else {
      assert (ops + more)[..|ops + more| - 1] == ops + more[..|more| - 1];
      CollectPrefix(ops, more[..|more| - 1]);
    }
  }

  /** A refusal part of the way is a refusal of the whole. */
  lemma {:induction false} CollectRefused(done: seq<Operation>, op: Operation, more: seq<Operation>)
    requires Collect(done).Some? && Admit(Collect(done).value, op).None?
    ensures Collect(done + [op] + more).None?
  {
    CollectPush(done, op);
    if Collect(done + [op] + more).Some? {
      CollectPrefix(done + [op], more);
    }
  }

  predicate AllPieces(ops: seq<Operation>) {
    forall i :: 0 <= i < |ops| ==> PieceOf(ops[i]).Some?
  }

  function Pieces(ops: seq<Operation>): (pieces: seq<Piece>)
    requires AllPieces(ops)
    ensures |pieces| == |ops| && forall i :: 0 <= i < |ops| ==> pieces[i] == PieceOf(ops[i]).value
  {
    seq(|ops|, i requires 0 <= i < |ops| => PieceOf(ops[i]).value)
  }

  function Bag(pieces: seq<Piece>): (s: set<Piece>)
    ensures forall p :: p in s <==> p in pieces
  {
    set p | p in pieces
  }

  function Spans(pieces: seq<Piece>): (spans: seq<Range>)
    ensures |spans| == |pieces| && forall i :: 0 <= i < |pieces| ==> spans[i] == Span(pieces[i])
  {
    seq(|pieces|, i requires 0 <= i < |pieces| => Span(pieces[i]))
  }

  lemma {:induction false} ConsistentWith(pieces: set<Piece>, p: Piece)
    requires Consistent(pieces)
    ensures Consistent(pieces + {p}) <==> forall q :: q in pieces ==> Agree(q, p)
  {
  }

  /** What a list of operations amounts to when nothing refuses it. */
  ghost predicate ConsistentOperations(ops: seq<Operation>) {
    AllPieces(ops) && Consistent(Bag(Pieces(ops)))
  }

  /** An operation that the finaliser can collect: a 64-bit hexadecimal address, at least one byte, inside the
      address space, and as many replacement bytes as it needs. */
  predicate Collectable(op: Operation) {
    var start := AddressText.ParseInternal(op.address);
    && start.Some? && 1 <= |op.expected| && start.value + |op.expected| <= 0xFFFF_FFFF_FFFF_FFFF
    && |op.replacement| == if op.kind.Write? then |op.expected| else 0
  }

  /** Both operations speak of the byte, and not the same: they expect or write different values there. */
  predicate Clash(x: Operation, y: Operation, a: int)
    requires Collectable(x) && Collectable(y)
  {
    var s, t := AddressText.ParseInternal(x.address).value, AddressText.ParseInternal(y.address).value;
    && s <= a < s + |x.expected| && t <= a < t + |y.expected|
    && (x.expected[a - s] != y.expected[a - t]
        || (x.kind.Write? && y.kind.Write? && x.replacement[a - s] != y.replacement[a - t]))
  }

  lemma {:induction false} AgreeIsNoClash(x: Operation, y: Operation)
    requires PieceOf(x).Some? && PieceOf(y).Some?
    ensures Collectable(x) && Collectable(y)
    ensures Agree(PieceOf(x).value, PieceOf(y).value) <==> forall a :: !Clash(x, y, a)
  {
    var p, q := PieceOf(x).value, PieceOf(y).value;
    if forall a :: !Clash(x, y, a) {
      forall a | p.start <= a < p.start + |p.expected| && Covers(q, a)
        ensures ExpectedAt(p, a) == ExpectedAt(q, a)
        ensures p.writes && q.writes ==> ReplacementAt(p, a) == ReplacementAt(q, a)
      {
        assert !Clash(x, y, a);
      }
    }
    if Agree(p, q) {
      forall a
        ensures !Clash(x, y, a)
      {
        if Covers(p, a) && Covers(q, a) {
          assert ExpectedAt(p, a) == ExpectedAt(q, a);
        }
      }
    }
  }

  lemma {:induction false} ConsistentByIndex(pieces: seq<Piece>)
    ensures Consistent(Bag(pieces)) <==>
      forall i, j :: 0 <= i < |pieces| && 0 <= j < |pieces| ==> Agree(pieces[i], pieces[j])
  {
    if forall i, j :: 0 <= i < |pieces| && 0 <= j < |pieces| ==> Agree(pieces[i], pieces[j]) {
      forall p, q | p in Bag(pieces) && q in Bag(pieces)
        ensures Agree(p, q)
      {
        var i :| 0 <= i < |pieces| && pieces[i] == p;
        var j :| 0 <= j < |pieces| && pieces[j] == q;
      }
    }
    if Consistent(Bag(pieces)) {
      forall i, j | 0 <= i < |pieces| && 0 <= j < |pieces|
        ensures Agree(pieces[i], pieces[j])
      {
        assert pieces[i] in Bag(pieces) && pieces[j] in Bag(pieces);
      }
    }
  }

  /** Each operation can be collected, and no two clash. */
  ghost predicate Harmonious(ops: seq<Operation>) {
    && (forall i :: 0 <= i < |ops| ==> Collectable(ops[i]))
    && forall i, j, a :: 0 <= i < |ops| && 0 <= j < |ops| ==> !Clash(ops[i], ops[j], a)
  }

  /** That is when operations can be collected together. */
  lemma {:induction false} ConsistentExactly(ops: seq<Operation>)
    ensures ConsistentOperations(ops) <==> Harmonious(ops)
  {
    assert forall op :: Collectable(op) <==> PieceOf(op).Some?;
    if AllPieces(ops) {
      forall i, j | 0 <= i < |ops| && 0 <= j < |ops|
        ensures Agree(Pieces(ops)[i], Pieces(ops)[j]) <==> forall a :: !Clash(ops[i], ops[j], a)
      {
        AgreeIsNoClash(ops[i], ops[j]);
      }
      ConsistentByIndex(Pieces(ops));
    }
  }

  lemma {:induction false} PiecesPush(ops: seq<Operation>, op: Operation)
    requires AllPieces(ops) && PieceOf(op).Some?
    ensures AllPieces(ops + [op]) && Pieces(ops + [op]) == Pieces(ops) + [PieceOf(op).value]
    ensures Bag(Pieces(ops + [op])) == Bag(Pieces(ops)) + {PieceOf(op).value}
    ensures Spans(Pieces(ops + [op])) == Spans(Pieces(ops)) + [Span(PieceOf(op).value)]
  {
  }

  lemma {:induction false} ConsistentFront(ops: seq<Operation>, op: Operation)
    requires ConsistentOperations(ops + [op])
    ensures ConsistentOperations(ops) && PieceOf(op).Some?
  {
    assert PieceOf((ops + [op])[|ops|]).Some?;
    forall i | 0 <= i < |ops|
      ensures PieceOf(ops[i]).Some?
    {
      assert (ops + [op])[i] == ops[i];
    }
    PiecesPush(ops, op);
  }

  /** Collection succeeds exactly on consistent operations, and then represents them. */
  lemma {:induction false} CollectMeans(ops: seq<Operation>)
    ensures Collect(ops).Some? <==> ConsistentOperations(ops)
    ensures Collect(ops).Some? ==> Represents(Collect(ops).value.constraints, Bag(Pieces(ops)))
    ensures Collect(ops).Some? ==> Collect(ops).value.ranges == Spans(Pieces(ops))
  {
    if ops != [] {
      var front, op := ops[..|ops| - 1], ops[|ops| - 1];
      assert ops == front + [op];
      CollectMeans(front);
      if ConsistentOperations(ops) {
        ConsistentFront(front, op);
      }
      if Collect(front).Some? && PieceOf(op).Some? {
        var before, p := Collect(front).value, PieceOf(op).value;
        PiecesPush(front, op);
        AddingKeepsRepresentation(before.constraints, Bag(Pieces(front)), p);
        ConsistentWith(Bag(Pieces(front)), p);
      }
    }
  }

  method AddOperations(ops: seq<Operation>, before: Collection, ghost done: seq<Operation>)
    returns (collected: Option<Collection>)
    requires Collect(done) == Some(before)
    ensures collected == Collect(done + ops)
  {
    collected := Some(before);
    assert done + ops[..0] == done;
    for index := 0 to |ops|
      invariant collected.Some? && collected == Collect(done + ops[..index])
    {
      ghost var soFar := done + ops[..index];
      SeqFacts.TakePush(done, ops, index);
      CollectPush(soFar, ops[index]);
      collected := AddOperationConstraints(ops[index], collected.value);
      if collected.None? {
        CollectRefused(soFar, ops[index], ops[index + 1..]);
        SeqFacts.TakeRest(done, ops, index);
        return;
      }
    }
    SeqFacts.TakeAll(ops);
  }

  // ----- components and the request

  function Components(ranges: seq<Range>): seq<Range> {
    Merge(SortLex(ranges))
  }

  function Size(range: Range): int {
    range.end - range.begin
  }

  function TotalSize(ranges: seq<Range>): int {
    if ranges == [] then 0 else TotalSize(ranges[..|ranges| - 1]) + Size(ranges[|ranges| - 1])
  }

  predicate SizesFit(ranges: seq<Range>) {
    forall i :: 0 <= i < |ranges| ==> Size(ranges[i]) <= MAX_OPERATION_BYTES
  }

  predicate FitsLimits(components: seq<Range>) {
    SizesFit(components) && |components| <= MAX_OPERATIONS && TotalSize(components) <= MAX_TRANSACTION_BYTES
  }

  ghost predicate Constrained(constraints: Constraints, component: Range) {
    && 0 <= component.begin < component.end <= ADDRESS_MAX
    && forall a :: Within(a, component) ==> a in constraints
  }

  ghost predicate AllComponentsConstrained(constraints: Constraints, components: seq<Range>) {
    forall i :: 0 <= i < |components| ==> Constrained(constraints, components[i])
  }

  ghost predicate HasWrite(constraints: Constraints, component: Range) {
    exists a :: a in constraints && Within(a, component) && constraints[a].replacement.Some?
  }

  function NewByte(byte: ByteConstraint): Byte {
    if byte.replacement.Some? then byte.replacement.value else byte.expected
  }

  /** One operation per component: a write if any byte is replaced, a check otherwise. */
  ghost function ComponentOperation(constraints: Constraints, component: Range): (op: Operation)
    requires Constrained(constraints, component)
    ensures |op.expected| == Size(component)
  {
    var size := component.end - component.begin;
    var expected := seq<Byte>(size, i requires 0 <= i < size => constraints[component.begin + i].expected);
    var updated := seq<Byte>(size, i requires 0 <= i < size => NewByte(constraints[component.begin + i]));
    if HasWrite(constraints, component)
    then Operation(AddressText.Format(component.begin), expected, updated, Write)
    else Operation(AddressText.Format(component.begin), expected, [], VerifyOnly)
  }

  ghost function ComponentOperations(constraints: Constraints, components: seq<Range>): (ops: seq<Operation>)
    requires AllComponentsConstrained(constraints, components)
    ensures |ops| == |components|
    ensures forall i :: 0 <= i < |ops| ==> ops[i] == ComponentOperation(constraints, components[i])
  {
    seq(|components|, i requires 0 <= i < |components| => ComponentOperation(constraints, components[i]))
  }

  /** Ranges of pieces: non-empty and inside the address space. */
  predicate InAddressSpace(ranges: seq<Range>) {
    forall i :: 0 <= i < |ranges| ==> 0 <= ranges[i].begin < ranges[i].end <= ADDRESS_MAX
  }

  lemma {:induction false} SortedInAddressSpace(ranges: seq<Range>)
    requires InAddressSpace(ranges)
    ensures InAddressSpace(SortLex(ranges)) && AllNonEmpty(SortLex(ranges)) && SortedByBegin(SortLex(ranges))
  {
    var sorted := SortLex(ranges);
    forall i | 0 <= i < |sorted|
      ensures 0 <= sorted[i].begin < sorted[i].end <= ADDRESS_MAX
    {
      assert sorted[i] in multiset(ranges);
      var k :| 0 <= k < |ranges| && ranges[k] == sorted[i];
    }
    forall i, j | 0 <= i < j < |sorted|
      ensures sorted[i].begin <= sorted[j].begin
    {
      assert LexLeq(sorted[i], sorted[j]);
    }
  }

  lemma {:induction false} SortedCovers(ranges: seq<Range>, a: int)
    ensures CoveredBy(a, SortLex(ranges)) <==> exists k :: 0 <= k < |ranges| && Within(a, ranges[k])
  {
    var sorted := SortLex(ranges);
    CoveredByIndex(a, sorted);
    if i :| 0 <= i < |sorted| && Within(a, sorted[i]) {
      assert sorted[i] in multiset(ranges);
      var k :| 0 <= k < |ranges| && ranges[k] == sorted[i];
    }
    if k :| 0 <= k < |ranges| && Within(a, ranges[k]) {
      assert ranges[k] in multiset(sorted);
      var i :| 0 <= i < |sorted| && sorted[i] == ranges[k];
    }
  }

  lemma {:induction false} ComponentsSeparated(ranges: seq<Range>)
    requires InAddressSpace(ranges)
    ensures Separated(Components(ranges)) && (ranges != [] ==> Components(ranges) != [])
  {
    SortedInAddressSpace(ranges);
    MergeSeparates(SortLex(ranges));
    assert |SortLex(ranges)| == |multiset(SortLex(ranges))| == |ranges|;
  }

  /** An address lies in a component exactly when some range holds it. */
  lemma {:induction false} ComponentsCover(ranges: seq<Range>, a: int)
    requires InAddressSpace(ranges)
    ensures CoveredBy(a, Components(ranges)) <==> exists k :: 0 <= k < |ranges| && Within(a, ranges[k])
  {
    SortedInAddressSpace(ranges);
    MergeCovers(SortLex(ranges), a);
    SortedCovers(ranges, a);
  }

  lemma {:induction false} SpansInAddressSpace(pieces: seq<Piece>)
    ensures InAddressSpace(Spans(pieces))
  {
  }

  /** An address lies in a component exactly when some piece covers it. */
  lemma {:induction false} ComponentsCoverPieces(pieces: seq<Piece>, a: int)
    ensures CoveredBy(a, Components(Spans(pieces))) <==> exists p :: p in Bag(pieces) && Covers(p, a)
  {
    SpansInAddressSpace(pieces);
    ComponentsCover(Spans(pieces), a);
    if k :| 0 <= k < |Spans(pieces)| && Within(a, Spans(pieces)[k]) {
      assert pieces[k] in Bag(pieces) && Covers(pieces[k], a);
    }
    if p :| p in Bag(pieces) && Covers(p, a) {
      var k :| 0 <= k < |pieces| && pieces[k] == p;
      assert Within(a, Spans(pieces)[k]);
    }
  }

  /** No component has an unconstrained byte, so the finaliser's missing-byte exit is never taken. */
  lemma {:induction false} ComponentConstrained(constraints: Constraints, pieces: seq<Piece>, i: nat)
    requires Represents(constraints, Bag(pieces)) && i < |Components(Spans(pieces))|
    ensures Constrained(constraints, Components(Spans(pieces))[i])
  {
    var component := Components(Spans(pieces))[i];
    SpansInAddressSpace(pieces);
    ComponentsSeparated(Spans(pieces));
    forall a | Within(a, component)
      ensures a in constraints && 0 <= a < ADDRESS_MAX
    {
      CoveredByIndex(a, Components(Spans(pieces)));
      ComponentsCoverPieces(pieces, a);
      assert SaysAt(constraints, Bag(pieces), a);
    }
    assert Within(component.begin, component) && Within(component.end - 1, component);
  }

  // ----- plans

  /** The operations of the plans from the `n`-th on. */
  function OperationsFrom(plans: seq<FieldWritePlan>, n: nat): seq<Operation>
    requires n <= |plans|
    decreases |plans| - n
  {
    if n == |plans| then [] else PlanOperations(plans[n]) + OperationsFrom(plans, n + 1)
  }

  lemma {:induction false} AllOperationsPush(plans: seq<FieldWritePlan>, n: nat)
    requires n < |plans|
    ensures AllOperations(plans[..n + 1]) == AllOperations(plans[..n]) + PlanOperations(plans[n])
  {
    SeqFacts.TakeTake(plans, n);
  }

  lemma {:induction false} AllOperationsSplit(plans: seq<FieldWritePlan>, n: nat)
    requires n <= |plans|
    ensures AllOperations(plans) == AllOperations(plans[..n]) + OperationsFrom(plans, n)
    decreases |plans| - n
  {
    if n == |plans| {
      SeqFacts.TakeAll(plans);
    } else {
      AllOperationsSplit(plans, n + 1);
      AllOperationsPush(plans, n);
      SeqFacts.Associate(AllOperations(plans[..n]), PlanOperations(plans[n]), OperationsFrom(plans, n + 1));
    }
  }

  /** All of one plan's guards, then all of its operations. */
  method CollectPlan(plan: FieldWritePlan, before: Collection, ghost done: seq<Operation>)
    returns (collected: Option<Collection>)
    requires Collect(done) == Some(before)
    ensures collected == Collect(done + PlanOperations(plan))
  {
    var guards := GuardOperations(plan.evidence.guards);
    SeqFacts.Associate(done, guards, plan.operations);
    collected := AddOperations(guards, before, done);
    if collected.Some? {
      collected := AddOperations(plan.operations, collected.value, done + guards);
    } else if Collect(done + guards + plan.operations).Some? {
      CollectPrefix(done + guards, plan.operations);
    }
  }

  /** A plan that fails to collect spoils the whole list. */
  lemma {:induction false} PlanRefused(plans: seq<FieldWritePlan>, index: nat)
    requires index < |plans| && Collect(AllOperations(plans[..index]) + PlanOperations(plans[index])).None?
    ensures Collect(AllOperations(plans)).None?
  {
    AllOperationsSplit(plans, index + 1);
    AllOperationsPush(plans, index);
    if Collect(AllOperations(plans)).Some? {
      CollectPrefix(AllOperations(plans[..index + 1]), OperationsFrom(plans, index + 1));
    }
  }

  predicate PlanCurrent(catalog: Catalog, plan: FieldWritePlan) {
    plan.ok && plan.evidence.guards != [] && EvidenceIsActive(catalog, plan.evidence)
  }

  /** The test the source makes on a plan: against the first plan, and against the catalog. */
  predicate PassesEvidence(catalog: Catalog, first: Evidence, plan: FieldWritePlan) {
    && plan.ok && plan.evidence.generation == first.generation
    && plan.evidence.activeUniqueIds == first.activeUniqueIds
    && plan.evidence.guards != [] && EvidenceIsActive(catalog, plan.evidence)
  }

  predicate FirstPass(catalog: Catalog, plans: seq<FieldWritePlan>, n: nat)
    requires n <= |plans|
  {
    n == 0 || (FirstPass(catalog, plans, n - 1) && PassesEvidence(catalog, plans[0].evidence, plans[n - 1]))
  }

  lemma {:induction false} FirstPassAt(catalog: Catalog, plans: seq<FieldWritePlan>, n: nat, i: nat)
    requires i < n <= |plans| && FirstPass(catalog, plans, n)
    ensures PassesEvidence(catalog, plans[0].evidence, plans[i])
  {
    if i < n - 1 {
      FirstPassAt(catalog, plans, n - 1, i);
    }
  }

  /** Comparing with the first plan adds nothing to comparing each plan with the catalog. */
  lemma {:induction false} TestedIsCurrent(catalog: Catalog, plans: seq<FieldWritePlan>, i: nat)
    requires i < |plans| && FirstPass(catalog, plans, i)
    ensures PassesEvidence(catalog, plans[0].evidence, plans[i]) ==> PlanCurrent(catalog, plans[i])
    ensures !PassesEvidence(catalog, plans[0].evidence, plans[i]) ==>
      exists plan :: plan in plans && !PlanCurrent(catalog, plan)
  {
    if i > 0 {
      FirstPassAt(catalog, plans, i, 0);
    }
    assert plans[i] in plans;
  }

  lemma {:induction false} AllTestedIsCurrent(catalog: Catalog, plans: seq<FieldWritePlan>)
    requires FirstPass(catalog, plans, |plans|)
    ensures forall plan :: plan in plans ==> PlanCurrent(catalog, plan)
  {
    forall plan | plan in plans
      ensures PlanCurrent(catalog, plan)
    {
      var i :| 0 <= i < |plans| && plans[i] == plan;
      FirstPassAt(catalog, plans, |plans|, i);
    }
  }

  /** What the collection phase reports, and why. */
  ghost predicate PlansVerdict(
    catalog: Catalog, plans: seq<FieldWritePlan>, code: FinalCode, collected: Option<Collection>)
  {
    match code
    case EvidenceStale => exists plan :: plan in plans && !PlanCurrent(catalog, plan)
    case EvidenceAmbiguous => Collect(AllOperations(plans)).None?
    case Finalised =>
      && (forall plan :: plan in plans ==> PlanCurrent(catalog, plan))
      && collected.Some? && Collect(AllOperations(plans)) == collected
    case _ => false
  }

  lemma {:induction false} StaleVerdict(catalog: Catalog, plans: seq<FieldWritePlan>, index: nat)
    requires index < |plans| && FirstPass(catalog, plans, index)
    requires !PassesEvidence(catalog, plans[0].evidence, plans[index])
    ensures PlansVerdict(catalog, plans, EvidenceStale, None)
  {
    TestedIsCurrent(catalog, plans, index);
  }

  lemma {:induction false} FinalisedVerdict(catalog: Catalog, plans: seq<FieldWritePlan>, collected: Option<Collection>)
    requires FirstPass(catalog, plans, |plans|)
    requires collected.Some? && Collect(AllOperations(plans[..|plans|])) == collected
    ensures PlansVerdict(catalog, plans, Finalised, collected)
  {
    SeqFacts.TakeAll(plans);
    AllTestedIsCurrent(catalog, plans);
  }

  /** Where the loop over the plans stands. */
  ghost predicate Collecting(catalog: Catalog, plans: seq<FieldWritePlan>, index: nat, collected: Collection) {
    index <= |plans| && FirstPass(catalog, plans, index) && Collect(AllOperations(plans[..index])) == Some(collected)
  }

  /** One plan: its evidence, then its guards, then its operations. */
  method VisitPlan(catalog: Catalog, plans: seq<FieldWritePlan>, index: nat, before: Collection)
    returns (code: FinalCode, collected: Option<Collection>)
    requires index < |plans| && Collecting(catalog, plans, index, before)
    ensures if collected.Some? then code.Finalised? && Collecting(catalog, plans, index + 1, collected.value)
            else !code.Finalised? && PlansVerdict(catalog, plans, code, None)
  {
    if !PassesEvidence(catalog, plans[0].evidence, plans[index]) {
      StaleVerdict(catalog, plans, index);
      return EvidenceStale, None;
    }
    collected := CollectPlan(plans[index], before, AllOperations(plans[..index]));
    AllOperationsPush(plans, index);
    if collected.None? {
      PlanRefused(plans, index);
      return EvidenceAmbiguous, None;
    }
    code := Finalised;
  }

  method CollectPlans(catalog: Catalog, plans: seq<FieldWritePlan>)
    returns (code: FinalCode, collected: Option<Collection>)
    ensures PlansVerdict(catalog, plans, code, collected) && (collected.None? || code.Finalised?)
  {
    code, collected := Finalised, Some(Collection(map[], []));
    var index := 0;
    while index < |plans|
      invariant 0 <= index <= |plans|
      invariant code.Finalised? && collected.Some? && Collecting(catalog, plans, index, collected.value)
    {
      code, collected := VisitPlan(catalog, plans, index, collected.value);
      if collected.None? {
        return;
      }
      index := index + 1;
    }
    FinalisedVerdict(catalog, plans, collected);
  }

  // ----- the finaliser

  /** Everything that must hold of the plans; nothing in it mentions their order. */
  ghost predicate Mergeable(catalog: Catalog, plans: seq<FieldWritePlan>) {
    && plans != []
    && (forall plan :: plan in plans ==> PlanCurrent(catalog, plan))
    && ConsistentOperations(AllOperations(plans))
  }

  /** A plan that succeeded, with guards, under the current generation and for exactly the tables that are there. */
  predicate UpToDate(catalog: Catalog, plan: FieldWritePlan) {
    && plan.ok && 1 <= |plan.evidence.guards|
    && plan.evidence.generation == catalog.generation && 1 <= catalog.generation && 1 <= |catalog.entries|
    && (forall e :: e in catalog.entries ==> e.descriptor.generation == catalog.generation)
    && Ordered(plan.evidence.activeUniqueIds)
    && multiset(plan.evidence.activeUniqueIds) == multiset(IdsOf(catalog.entries))
  }

  predicate AllUpToDate(catalog: Catalog, plans: seq<FieldWritePlan>) {
    forall i :: 0 <= i < |plans| ==> UpToDate(catalog, plans[i])
  }

  lemma {:induction false} CurrentExactly(catalog: Catalog, plans: seq<FieldWritePlan>)
    ensures (forall plan :: plan in plans ==> PlanCurrent(catalog, plan)) <==> AllUpToDate(catalog, plans)
  {
    forall i | 0 <= i < |plans|
      ensures plans[i] in plans && (PlanCurrent(catalog, plans[i]) <==> UpToDate(catalog, plans[i]))
    {
      EvidenceExactly(catalog, plans[i].evidence);
    }
  }

  /** Plans can be merged exactly if there are any, all are up to date, and of their guards and operations each can be
      collected and no two clash. */
  lemma {:induction false} MergeableExactly(catalog: Catalog, plans: seq<FieldWritePlan>)
    ensures Mergeable(catalog, plans) <==>
      1 <= |plans| && AllUpToDate(catalog, plans) && Harmonious(AllOperations(plans))
  {
    CurrentExactly(catalog, plans);
    ConsistentExactly(AllOperations(plans));
  }

  ghost function ComponentsOf(ops: seq<Operation>): seq<Range>
    requires ConsistentOperations(ops)
  {
    Components(Spans(Pieces(ops)))
  }

  ghost predicate Finalisable(catalog: Catalog, plans: seq<FieldWritePlan>) {
    Mergeable(catalog, plans) && FitsLimits(ComponentsOf(AllOperations(plans)))
  }

  lemma {:induction false} AllConstrained(ops: seq<Operation>)
    requires Collect(ops).Some?
    ensures ConsistentOperations(ops)
    ensures forall i :: 0 <= i < |ComponentsOf(ops)| ==>
      Constrained(Collect(ops).value.constraints, ComponentsOf(ops)[i])
  {
    CollectMeans(ops);
    forall i | 0 <= i < |ComponentsOf(ops)| {
      ComponentConstrained(Collect(ops).value.constraints, Pieces(ops), i);
    }
  }

  /** The request for consistent operations: one operation per component, in ascending order. */
  ghost function FinalOperations(ops: seq<Operation>): seq<Operation>
    requires ConsistentOperations(ops)
  {
    CollectMeans(ops);
    AllConstrained(ops);
    ComponentOperations(Collect(ops).value.constraints, ComponentsOf(ops))
  }

  method MergeRanges(ranges: seq<Range>) returns (components: seq<Range>)
    ensures components == Components(ranges)
  {
    var sorted := SortLex(ranges);
    components := [];
    for index := 0 to |sorted|
      invariant components == Merge(sorted[..index])
    {
      SeqFacts.TakeTake(sorted, index);
      var range := sorted[index];
      if components == [] || range.begin >= components[|components| - 1].end {
        components := components + [range];
      } else {
        var last := components[|components| - 1];
        components := components[..|components| - 1]
          + [Range(last.begin, if range.end > last.end then range.end else last.end)];
      }
    }
    SeqFacts.TakeAll(sorted);
  }

  /** The byte loop over one component. */
  method BuildOperation(constraints: Constraints, component: Range) returns (op: Operation)
    requires Constrained(constraints, component)
    ensures op == ComponentOperation(constraints, component)
  {
    var expected, updated, hasWrite := [], [], false;
    var a := component.begin;
    while a < component.end
      invariant component.begin <= a <= component.end
      invariant |expected| == |updated| == a - component.begin
      invariant forall i :: 0 <= i < |expected| ==> expected[i] == constraints[component.begin + i].expected
      invariant forall i :: 0 <= i < |updated| ==> updated[i] == NewByte(constraints[component.begin + i])
      invariant hasWrite <==>
        exists b :: component.begin <= b < a && b in constraints && constraints[b].replacement.Some?
    {
      assert Within(a, component);
      var byte := constraints[a];
      expected, updated := expected + [byte.expected], updated + [NewByte(byte)];
      hasWrite := hasWrite || byte.replacement.Some?;
      a := a + 1;
    }
    assert hasWrite <==> HasWrite(constraints, component);
    op := if hasWrite then Operation(AddressText.Format(component.begin), expected, updated, Write)
          else Operation(AddressText.Format(component.begin), expected, [], VerifyOnly);
  }

  /** One operation per component, stopping at the first that is too large or one too many. */
  method BuildEach(constraints: Constraints, components: seq<Range>) returns (ops: Option<seq<Operation>>)
    requires AllComponentsConstrained(constraints, components)
    ensures ops.Some? <==> SizesFit(components) && |components| <= MAX_OPERATIONS
    ensures ops.Some? ==> ops.value == ComponentOperations(constraints, components)
  {
    var built: seq<Operation> := [];
    for index := 0 to |components|
      invariant |built| == index <= MAX_OPERATIONS && SizesFit(components[..index])
      invariant forall i :: 0 <= i < index ==> built[i] == ComponentOperation(constraints, components[i])
    {
      if Size(components[index]) > MAX_OPERATION_BYTES {
        return None;
      }
      var op := BuildOperation(constraints, components[index]);
      built := built + [op];
      if |built| > MAX_OPERATIONS {
        return None;
      }
    }
    SeqFacts.TakeAll(components);
    ops := Some(built);
  }

  lemma {:induction false} TotalSizeGrows(ranges: seq<Range>, n: nat)
    requires n <= |ranges| && forall i :: 0 <= i < |ranges| ==> ranges[i].begin < ranges[i].end
    ensures TotalSize(ranges[..n]) <= TotalSize(ranges)
    decreases |ranges| - n
  {
    if n < |ranges| {
      SeqFacts.TakeTake(ranges, n);
      TotalSizeGrows(ranges, n + 1);
    } else {
      SeqFacts.TakeAll(ranges);
    }
  }

  method AggregateFits(components: seq<Range>, ops: seq<Operation>) returns (fits: bool)
    requires forall i :: 0 <= i < |components| ==> components[i].begin < components[i].end
    requires |ops| == |components| && forall i :: 0 <= i < |ops| ==> |ops[i].expected| == Size(components[i])
    ensures fits <==> TotalSize(components) <= MAX_TRANSACTION_BYTES
  {
    var aggregate := 0;
    for index := 0 to |ops|
      invariant aggregate == TotalSize(components[..index]) <= MAX_TRANSACTION_BYTES
    {
      SeqFacts.TakeTake(components, index);
      if aggregate > MAX_TRANSACTION_BYTES - |ops[index].expected| {
        TotalSizeGrows(components, index + 1);
        return false;
      }
      aggregate := aggregate + |ops[index].expected|;
    }
    SeqFacts.TakeAll(components);
    fits := true;
  }

  method BuildOperations(constraints: Constraints, components: seq<Range>) returns (ops: Option<seq<Operation>>)
    requires AllComponentsConstrained(constraints, components)
    ensures ops.Some? <==> FitsLimits(components)
    ensures ops.Some? <==>
      && |components| <= 32 && TotalSize(components) <= 65536
      && forall i :: 0 <= i < |components| ==> components[i].end - components[i].begin <= 4096
    ensures ops.Some? ==> ops.value == ComponentOperations(constraints, components)
  {
    ops := BuildEach(constraints, components);
    if ops.Some? {
      var fits := AggregateFits(components, ops.value);
      if !fits {
        ops := None;
      }
    }
  }

  /** What a finished finalisation says: it succeeds exactly on finalisable plans, and its request and
      its refusal codes are what the plans, taken together, make them. */
  ghost predicate FinalVerdict(
    catalog: Catalog, transactionId: string, plans: seq<FieldWritePlan>, result: GuardedFieldTransaction)
  {
    && (result.ok <==> Finalisable(catalog, plans))
    && (result.ok <==> result.code.Finalised?)
    && match result.code
       case Finalised => Finalisable(catalog, plans)
         && result.request == Request(transactionId, FinalOperations(AllOperations(plans)))
       case Invalid => plans == []
       case EvidenceStale => exists plan :: plan in plans && !PlanCurrent(catalog, plan)
       case EvidenceAmbiguous => !ConsistentOperations(AllOperations(plans))
       case LimitExceeded => Mergeable(catalog, plans)
  }

  lemma {:induction false} RefusedVerdict(
    catalog: Catalog, transactionId: string, plans: seq<FieldWritePlan>, code: FinalCode)
    requires plans != [] && !code.Finalised? && PlansVerdict(catalog, plans, code, None)
    ensures FinalVerdict(catalog, transactionId, plans,
                         GuardedFieldTransaction(false, code, Request(transactionId, [])))
  {
    CollectMeans(AllOperations(plans));
  }

  lemma {:induction false} BuiltVerdict(
    catalog: Catalog, transactionId: string, plans: seq<FieldWritePlan>, collected: Collection,
    ops: Option<seq<Operation>>)
    requires plans != [] && PlansVerdict(catalog, plans, Finalised, Some(collected))
    requires Collect(AllOperations(plans)).Some? && ConsistentOperations(AllOperations(plans))
    requires ops.Some? <==> FitsLimits(ComponentsOf(AllOperations(plans)))
    requires ops.Some? ==> ops.value == FinalOperations(AllOperations(plans))
    ensures FinalVerdict(catalog, transactionId, plans,
      if ops.None? then GuardedFieldTransaction(false, LimitExceeded, Request(transactionId, []))
      else GuardedFieldTransaction(true, Finalised, Request(transactionId, ops.value)))
  {
  }

  lemma {:induction false} CollectedFacts(all: seq<Operation>, collected: Collection)
    requires Collect(all) == Some(collected)
    ensures ConsistentOperations(all) && Components(collected.ranges) == ComponentsOf(all)
    ensures AllComponentsConstrained(collected.constraints, Components(collected.ranges))
    ensures FinalOperations(all) == ComponentOperations(collected.constraints, Components(collected.ranges))
  {
    CollectMeans(all);
    AllConstrained(all);
  }

  method BuildRequest(collected: Collection) returns (ops: Option<seq<Operation>>)
    requires AllComponentsConstrained(collected.constraints, Components(collected.ranges))
    ensures ops.Some? <==> FitsLimits(Components(collected.ranges))
    ensures ops.Some? ==> ops.value == ComponentOperations(collected.constraints, Components(collected.ranges))
  {
    var components := MergeRanges(collected.ranges);
    ops := BuildOperations(collected.constraints, components);
  }

  /** `FinalizeFieldTransaction`. */
  method FinalizeFieldTransaction(catalog: Catalog, transactionId: string, plans: seq<FieldWritePlan>)
    returns (result: GuardedFieldTransaction)
    ensures FinalVerdict(catalog, transactionId, plans, result)
  {
    if plans == [] {
      return GuardedFieldTransaction(false, Invalid, Request(transactionId, []));
    }
    var code, collected := CollectPlans(catalog, plans);
    if !code.Finalised? {
      RefusedVerdict(catalog, transactionId, plans, code);
      return GuardedFieldTransaction(false, code, Request(transactionId, []));
    }
    CollectedFacts(AllOperations(plans), collected.value);
    var ops := BuildRequest(collected.value);
    BuiltVerdict(catalog, transactionId, plans, collected.value, ops);
    result := if ops.None? then GuardedFieldTransaction(false, LimitExceeded, Request(transactionId, []))
              else GuardedFieldTransaction(true, Finalised, Request(transactionId, ops.value));
  }
}
