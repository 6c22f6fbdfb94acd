/** What a typed commit means: the finaliser and the engine together. */
module GuardedCommit {
  import opened Bytes
  import opened Ranges
  import AddressText
  import SeqFacts
  import opened MemoryTransaction
  import opened CatalogState
  import opened FieldTransaction

  // ----- the finalised request is well formed for the engine

  lemma {:induction false} ComponentOperationLegal(constraints: Constraints, component: Range)
    requires Constrained(constraints, component) && Size(component) <= MAX_OPERATION_BYTES
    ensures var op := ComponentOperation(constraints, component);
      ShapeLegal(op) && AddressLegal(op) && RangeOf(op) == component
  {
    AddressText.FormatParseBijection(component.begin, "");
  }

  lemma {:induction false} TotalsAgree(ops: seq<Operation>, components: seq<Range>)
    requires |ops| == |components| && forall i :: 0 <= i < |ops| ==> |ops[i].expected| == Size(components[i])
    ensures TotalBytes(ops) == TotalSize(components)
  {
    if ops != [] {
      TotalsAgree(ops[..|ops| - 1], components[..|ops| - 1]);
    }
  }

  lemma {:induction false} FinalRanges(ops: seq<Operation>)
    requires Collect(ops).Some? && ConsistentOperations(ops) && SizesFit(ComponentsOf(ops))
    ensures AllLegal(FinalOperations(ops)) && RangesOf(FinalOperations(ops)) == ComponentsOf(ops)
    ensures PairwiseApart(RangesOf(FinalOperations(ops)))
  {
    CollectedFacts(ops, Collect(ops).value);
    var constraints, components, final := Collect(ops).value.constraints, ComponentsOf(ops), FinalOperations(ops);
    forall i | 0 <= i < |final|
      ensures ShapeLegal(final[i]) && AddressLegal(final[i]) && RangeOf(final[i]) == components[i]
    {
      ComponentOperationLegal(constraints, components[i]);
    }
    SpansInAddressSpace(Pieces(ops));
    ComponentsSeparated(Spans(Pieces(ops)));
  }

  lemma {:induction false} SomeComponent(catalog: Catalog, plans: seq<FieldWritePlan>)
    requires Mergeable(catalog, plans)
    ensures ComponentsOf(AllOperations(plans)) != []
  {
    var all := AllOperations(plans);
    assert PlanCurrent(catalog, plans[|plans| - 1]) by {
      assert plans[|plans| - 1] in plans;
    }
    assert all != [];
    SpansInAddressSpace(Pieces(all));
    ComponentsSeparated(Spans(Pieces(all)));
  }

  lemma {:induction false} ComponentsWellFormed(transactionId: string, ops: seq<Operation>, components: seq<Range>)
    requires AllLegal(ops) && RangesOf(ops) == components && PairwiseApart(components)
    requires components != [] && FitsLimits(components)
    ensures WellFormed(Request(transactionId, ops)) <==> ValidTransactionId(transactionId)
  {
    forall i | 0 <= i < |ops|
      ensures |ops[i].expected| == Size(components[i])
    {
      assert RangesOf(ops)[i] == RangeOf(ops[i]);
    }
    TotalsAgree(ops, components);
  }

  /** Given a legal transaction id, the engine never rejects a finalised request for its count, sizes,
      total, addresses or overlap. */
  lemma {:induction false} FinalRequestIsWellFormed(catalog: Catalog, transactionId: string, plans: seq<FieldWritePlan>)
    requires Finalisable(catalog, plans)
    ensures WellFormed(Request(transactionId, FinalOperations(AllOperations(plans)))) <==>
      ValidTransactionId(transactionId)
  {
    var all := AllOperations(plans);
    CollectMeans(all);
    FinalRanges(all);
    SomeComponent(catalog, plans);
    ComponentsWellFormed(transactionId, FinalOperations(all), ComponentsOf(all));
  }

  lemma {:induction false} TotalsOfWellFormed(ops: seq<Operation>)
    requires ConsistentOperations(ops) && ComponentsOf(ops) != []
    ensures FitsLimits(ComponentsOf(ops)) <==>
      && |FinalOperations(ops)| <= MAX_OPERATIONS && TotalBytes(FinalOperations(ops)) <= MAX_TRANSACTION_BYTES
      && forall i :: 0 <= i < |FinalOperations(ops)| ==> ShapeLegal(FinalOperations(ops)[i])
  {
    CollectMeans(ops);
    CollectedFacts(ops, Collect(ops).value);
    TotalsAgree(FinalOperations(ops), ComponentsOf(ops));
    if SizesFit(ComponentsOf(ops)) {
      FinalRanges(ops);
    }
  }

  /** The limits of the finaliser are the engine's own: plans that can be merged finalise if and only if the engine
      finds the request they merge into well formed. */
  lemma {:induction false} FinalisesExactly(catalog: Catalog, transactionId: string, plans: seq<FieldWritePlan>)
    requires Mergeable(catalog, plans) && ValidTransactionId(transactionId)
    ensures Finalisable(catalog, plans) <==>
      WellFormed(Request(transactionId, FinalOperations(AllOperations(plans))))
  {
    SomeComponent(catalog, plans);
    TotalsOfWellFormed(AllOperations(plans));
    if Finalisable(catalog, plans) {
      FinalRequestIsWellFormed(catalog, transactionId, plans);
    }
  }

  // ----- what a commit does to every byte

  lemma {:induction false} ComponentBytes(constraints: Constraints, component: Range, a: int)
    requires Constrained(constraints, component) && Within(a, component)
    ensures var op := ComponentOperation(constraints, component);
      && op.expected[a - component.begin] == constraints[a].expected
      && (op.kind.Write? ==>
        |op.replacement| == |op.expected| && op.replacement[a - component.begin] == NewByte(constraints[a]))
      && (op.kind.VerifyOnly? ==> NewByte(constraints[a]) == constraints[a].expected)
  {
  }

  lemma {:induction false} ReadyByte(memory: Memory, writable: set<int>, ops: seq<Operation>, i: nat, a: int)
    requires AllLegal(ops) && Ready(memory, writable, ops) && i < |ops| && Within(a, RangeOf(ops[i]))
    ensures a in memory && memory[a] == ops[i].expected[a - AddressOf(ops[i])]
  {
  }

  /** Final operations side by side with the components they came from. */
  ghost predicate BuiltFrom(constraints: Constraints, components: seq<Range>, final: seq<Operation>) {
    && AllComponentsConstrained(constraints, components)
    && final == ComponentOperations(constraints, components)
    && AllLegal(final) && RangesOf(final) == components && PairwiseApart(components)
  }

  lemma {:induction false} ByteHeld(
    constraints: Constraints, components: seq<Range>, final: seq<Operation>, memory: Memory, writable: set<int>, i: nat,
    a: int)
    requires BuiltFrom(constraints, components, final) && Ready(memory, writable, final)
    requires i < |components| && Within(a, components[i])
    ensures a in constraints && a in memory && memory[a] == constraints[a].expected
  {
    assert final[i] == ComponentOperation(constraints, components[i]) && RangesOf(final)[i] == RangeOf(final[i]);
    ComponentBytes(constraints, components[i], a);
    ReadyByte(memory, writable, final, i, a);
  }

  lemma {:induction false} ByteInside(
    constraints: Constraints, components: seq<Range>, final: seq<Operation>, memory: Memory, writable: set<int>, i: nat,
    a: int)
    requires BuiltFrom(constraints, components, final) && Ready(memory, writable, final)
    requires i < |components| && Within(a, components[i])
    ensures a in constraints && a in memory && memory[a] == constraints[a].expected
    ensures Committed(memory, final)[a] == NewByte(constraints[a])
  {
    assert final[i] == ComponentOperation(constraints, components[i]) && RangesOf(final)[i] == RangeOf(final[i]);
    ByteHeld(constraints, components, final, memory, writable, i, a);
    ComponentBytes(constraints, components[i], a);
    CommittedAt(memory, final, i, a);
  }

  lemma {:induction false} ByteOutside(
    constraints: Constraints, components: seq<Range>, final: seq<Operation>, memory: Memory, a: int)
    requires BuiltFrom(constraints, components, final) && a in memory && !CoveredBy(a, components)
    ensures Committed(memory, final)[a] == memory[a]
  {
    CoveredByIndex(a, components);
    forall i | 0 <= i < |final|
      ensures !Within(a, RangeOf(final[i]))
    {
      assert RangesOf(final)[i] == components[i];
    }
    CommittedOutside(memory, final, a);
  }

  lemma {:induction false} FinalBuilt(all: seq<Operation>)
    requires Collect(all).Some? && ConsistentOperations(all) && SizesFit(ComponentsOf(all))
    ensures BuiltFrom(Collect(all).value.constraints, ComponentsOf(all), FinalOperations(all))
  {
    CollectedFacts(all, Collect(all).value);
    FinalRanges(all);
  }

  lemma {:induction false} ConstrainedIsCovered(all: seq<Operation>, a: int)
    requires Collect(all).Some? && ConsistentOperations(all)
    ensures a in Collect(all).value.constraints <==> CoveredBy(a, ComponentsOf(all))
  {
    CollectMeans(all);
    ComponentsCoverPieces(Pieces(all), a);
    assert SaysAt(Collect(all).value.constraints, Bag(Pieces(all)), a);
  }

  /** A constrained byte held its expected value and now holds its new one; any other byte is as it was. */
  lemma {:induction false} ByteOutcome(all: seq<Operation>, memory: Memory, writable: set<int>, a: int)
    requires Collect(all).Some? && ConsistentOperations(all) && SizesFit(ComponentsOf(all))
    requires AllLegal(FinalOperations(all)) && Ready(memory, writable, FinalOperations(all))
    ensures var constraints := Collect(all).value.constraints;
      && (a in constraints ==>
        && a in memory && memory[a] == constraints[a].expected
        && Committed(memory, FinalOperations(all))[a] == NewByte(constraints[a]))
      && (a in memory && a !in constraints ==> Committed(memory, FinalOperations(all))[a] == memory[a])
  {
    FinalBuilt(all);
    ConstrainedIsCovered(all, a);
    var constraints, components, final := Collect(all).value.constraints, ComponentsOf(all), FinalOperations(all);
    if a in constraints {
      CoveredByIndex(a, components);
      var i :| 0 <= i < |components| && Within(a, components[i]);
      ByteInside(constraints, components, final, memory, writable, i, a);
    } else if a in memory {
      ByteOutside(constraints, components, final, memory, a);
    }
  }

  /** The memory holds what the piece expects. */
  predicate PieceHeld(memory: Memory, p: Piece) {
    forall a :: p.start <= a < p.start + |p.expected| ==> a in memory && memory[a] == ExpectedAt(p, a)
  }

  /** Every guard and every operation of every plan finds its expected bytes in memory. */
  ghost predicate PlansHold(memory: Memory, plans: seq<FieldWritePlan>) {
    forall plan, op :: plan in plans && op in PlanOperations(plan) ==>
      PieceOf(op).Some? && PieceHeld(memory, PieceOf(op).value)
  }

  ghost predicate PlanWrites(plans: seq<FieldWritePlan>, p: Piece, a: int) {
    exists plan, op :: plan in plans && op in plan.operations && PieceOf(op) == Some(p) && WritesAt(p, a)
  }

  /** The memory overlaid with exactly the plans' replacement bytes. */
  ghost predicate PlansApplied(before: Memory, after: Memory, plans: seq<FieldWritePlan>) {
    && after.Keys == before.Keys
    && forall a :: a in before ==>
      && (forall p :: PlanWrites(plans, p, a) ==> after[a] == ReplacementAt(p, a))
      && ((forall p :: !PlanWrites(plans, p, a)) ==> after[a] == before[a])
  }

  lemma {:induction false} InAllOperations(plans: seq<FieldWritePlan>, op: Operation)
    ensures op in AllOperations(plans) <==> exists plan :: plan in plans && op in PlanOperations(plan)
  {
    if plans != [] {
      var front, last := plans[..|plans| - 1], plans[|plans| - 1];
      InAllOperations(front, op);
      assert plans == front + [last];
      if plan :| plan in plans && op in PlanOperations(plan) {
        assert plan in front || plan == last;
      }
    }
  }

  lemma {:induction false} BagMember(ops: seq<Operation>, p: Piece)
    requires AllPieces(ops)
    ensures p in Bag(Pieces(ops)) <==> exists op :: op in ops && PieceOf(op) == Some(p)
  {
  }

  /** A piece that writes comes from a plan's own operations, never from a guard. */
  lemma {:induction false} WriterIsPlanned(plans: seq<FieldWritePlan>, p: Piece, a: int)
    requires AllPieces(AllOperations(plans)) && WritesAt(p, a)
    ensures p in Bag(Pieces(AllOperations(plans))) <==> PlanWrites(plans, p, a)
  {
    var all := AllOperations(plans);
    BagMember(all, p);
    if p in Bag(Pieces(all)) {
      var op :| op in all && PieceOf(op) == Some(p);
      InAllOperations(plans, op);
      var plan :| plan in plans && op in PlanOperations(plan);
      assert op in plan.operations;
    }
    if PlanWrites(plans, p, a) {
      var plan, op :| plan in plans && op in plan.operations && PieceOf(op) == Some(p) && WritesAt(p, a);
      assert op in PlanOperations(plan);
      InAllOperations(plans, op);
    }
  }

  lemma {:induction false} ExpectationIsConstrained(all: seq<Operation>, p: Piece, a: int)
    requires Collect(all).Some? && ConsistentOperations(all) && p in Bag(Pieces(all)) && Covers(p, a)
    ensures var constraints := Collect(all).value.constraints;
      a in constraints && constraints[a].expected == ExpectedAt(p, a)
  {
    CollectMeans(all);
    assert SaysAt(Collect(all).value.constraints, Bag(Pieces(all)), a);
  }

  lemma {:induction false} PieceHolds(all: seq<Operation>, memory: Memory, writable: set<int>, op: Operation)
    requires Collect(all).Some? && ConsistentOperations(all) && SizesFit(ComponentsOf(all)) && op in all
    requires AllLegal(FinalOperations(all)) && Ready(memory, writable, FinalOperations(all))
    ensures PieceOf(op).Some? && PieceHeld(memory, PieceOf(op).value)
  {
    CollectMeans(all);
    var i :| 0 <= i < |all| && all[i] == op;
    var p := PieceOf(op).value;
    BagMember(all, p);
    forall a | p.start <= a < p.start + |p.expected|
      ensures a in memory && memory[a] == ExpectedAt(p, a)
    {
      ExpectationIsConstrained(all, p, a);
      ByteOutcome(all, memory, writable, a);
    }
  }

  lemma {:induction false} ByteApplied(plans: seq<FieldWritePlan>, memory: Memory, writable: set<int>, a: int)
    requires var all := AllOperations(plans);
      && Collect(all).Some? && ConsistentOperations(all) && SizesFit(ComponentsOf(all))
      && AllLegal(FinalOperations(all)) && Ready(memory, writable, FinalOperations(all))
    requires a in memory
    ensures var after := Committed(memory, FinalOperations(AllOperations(plans)));
      && (forall p :: PlanWrites(plans, p, a) ==> after[a] == ReplacementAt(p, a))
      && ((forall p :: !PlanWrites(plans, p, a)) ==> after[a] == memory[a])
  {
    var all := AllOperations(plans);
    var constraints := Collect(all).value.constraints;
    CollectMeans(all);
    ByteOutcome(all, memory, writable, a);
    assert SaysAt(constraints, Bag(Pieces(all)), a);
    forall p | PlanWrites(plans, p, a)
      ensures Committed(memory, FinalOperations(all))[a] == ReplacementAt(p, a)
    {
      WriterIsPlanned(plans, p, a);
    }
    if a in constraints && constraints[a].replacement.Some? {
      var p :| p in Bag(Pieces(all)) && WritesAt(p, a);
      WriterIsPlanned(plans, p, a);
    }
  }

  /** Commit meaning: memory that satisfies the finalised request's preflight satisfied every guard and
      every expected byte of every plan, and the committed memory is that memory overlaid with exactly
      the plans' replacement bytes. */
  lemma {:induction false} CommitMeaning(
    catalog: Catalog, plans: seq<FieldWritePlan>, memory: Memory, writable: set<int>)
    requires Finalisable(catalog, plans)
    requires var final := FinalOperations(AllOperations(plans)); AllLegal(final) && Ready(memory, writable, final)
    ensures PlansHold(memory, plans)
    ensures PlansApplied(memory, Committed(memory, FinalOperations(AllOperations(plans))), plans)
  {
    var all := AllOperations(plans);
    var after := Committed(memory, FinalOperations(all));
    CollectMeans(all);
    forall plan, op | plan in plans && op in PlanOperations(plan)
      ensures PieceOf(op).Some? && PieceHeld(memory, PieceOf(op).value)
    {
      InAllOperations(plans, op);
      PieceHolds(all, memory, writable, op);
    }
    forall a | a in memory
      ensures forall p :: PlanWrites(plans, p, a) ==> after[a] == ReplacementAt(p, a)
      ensures (forall p :: !PlanWrites(plans, p, a)) ==> after[a] == memory[a]
    {
      ByteApplied(plans, memory, writable, a);
    }
  }

  // ----- when a commit applies

  /** Wherever a plan writes, the whole component around the byte may be written. */
  ghost predicate WritesAllowed(writable: set<int>, plans: seq<FieldWritePlan>)
    requires ConsistentOperations(AllOperations(plans))
  {
    forall component, p, a, b :: component in ComponentsOf(AllOperations(plans)) && PlanWrites(plans, p, a) ==>
      Within(a, component) && Within(b, component) ==> b in writable
  }

  /** Where the plans hold, every constrained byte has its expected value. */
  lemma {:induction false} ConstraintHeld(plans: seq<FieldWritePlan>, memory: Memory, a: int)
    requires var all := AllOperations(plans);
      ConsistentOperations(all) && Collect(all).Some? && a in Collect(all).value.constraints
    requires PlansHold(memory, plans)
    ensures a in memory && memory[a] == Collect(AllOperations(plans)).value.constraints[a].expected
  {
    var all := AllOperations(plans);
    CollectMeans(all);
    assert SaysAt(Collect(all).value.constraints, Bag(Pieces(all)), a);
    var p :| p in Bag(Pieces(all)) && Covers(p, a);
    BagMember(all, p);
    var op :| op in all && PieceOf(op) == Some(p);
    InAllOperations(plans, op);
  }

  /** A byte is replaced exactly where a plan writes. */
  lemma {:induction false} ReplacedWhereWritten(plans: seq<FieldWritePlan>, a: int)
    requires var all := AllOperations(plans); ConsistentOperations(all) && Collect(all).Some?
    ensures var constraints := Collect(AllOperations(plans)).value.constraints;
      (a in constraints && constraints[a].replacement.Some?) <==> exists p :: PlanWrites(plans, p, a)
  {
    var all := AllOperations(plans);
    var constraints := Collect(all).value.constraints;
    CollectMeans(all);
    assert SaysAt(constraints, Bag(Pieces(all)), a);
    if a in constraints && constraints[a].replacement.Some? {
      var p :| p in Bag(Pieces(all)) && WritesAt(p, a);
      WriterIsPlanned(plans, p, a);
    }
    if p :| PlanWrites(plans, p, a) {
      WriterIsPlanned(plans, p, a);
    }
  }

  predicate ByteFits(memory: Memory, writable: set<int>, op: Operation, begin: int, a: int)
    requires 0 <= a - begin < |op.expected|
  {
    a in memory && memory[a] == op.expected[a - begin] && (op.kind.Write? ==> a in writable)
  }

  /** The preflight of one operation. */
  ghost predicate OperationReady(memory: Memory, writable: set<int>, op: Operation)
    requires AddressLegal(op)
  {
    forall a :: Within(a, RangeOf(op)) ==> ByteFits(memory, writable, op, AddressOf(op), a)
  }

  lemma {:induction false} ReadyEach(memory: Memory, writable: set<int>, ops: seq<Operation>)
    requires AllLegal(ops) && forall i :: 0 <= i < |ops| ==> OperationReady(memory, writable, ops[i])
    ensures Ready(memory, writable, ops)
  {
    forall i | 0 <= i < |ops|
      ensures Mapped(memory, AddressOf(ops[i]), |ops[i].expected|)
      ensures Slice(memory, AddressOf(ops[i]), |ops[i].expected|) == ops[i].expected
      ensures ops[i].kind.Write? ==>
        forall a :: AddressOf(ops[i]) <= a < AddressOf(ops[i]) + |ops[i].expected| ==> a in writable
    {
      forall a | AddressOf(ops[i]) <= a < AddressOf(ops[i]) + |ops[i].expected|
        ensures a in memory && memory[a] == ops[i].expected[a - AddressOf(ops[i])]
        ensures ops[i].kind.Write? ==> a in writable
      {
        assert Within(a, RangeOf(ops[i]));
      }
    }
  }

  lemma {:induction false} ByteReady(
    plans: seq<FieldWritePlan>, memory: Memory, writable: set<int>, component: Range, a: int)
    requires var all := AllOperations(plans);
      ConsistentOperations(all) && Collect(all).Some? && component in ComponentsOf(all) && Within(a, component)
    requires Constrained(Collect(AllOperations(plans)).value.constraints, component)
    requires PlansHold(memory, plans) && WritesAllowed(writable, plans)
    ensures ByteFits(memory, writable, ComponentOperation(Collect(AllOperations(plans)).value.constraints, component),
                     component.begin, a)
  {
    var constraints := Collect(AllOperations(plans)).value.constraints;
    ConstraintHeld(plans, memory, a);
    ComponentBytes(constraints, component, a);
    if HasWrite(constraints, component) {
      var b :| b in constraints && Within(b, component) && constraints[b].replacement.Some?;
      ReplacedWhereWritten(plans, b);
    }
  }

  lemma {:induction false} FinalReady(plans: seq<FieldWritePlan>, memory: Memory, writable: set<int>, i: nat)
    requires var all := AllOperations(plans);
      && ConsistentOperations(all) && Collect(all).Some? && i < |ComponentsOf(all)|
      && BuiltFrom(Collect(all).value.constraints, ComponentsOf(all), FinalOperations(all))
    requires PlansHold(memory, plans) && WritesAllowed(writable, plans)
    ensures OperationReady(memory, writable, FinalOperations(AllOperations(plans))[i])
  {
    var all := AllOperations(plans);
    var component, op := ComponentsOf(all)[i], FinalOperations(all)[i];
    assert RangesOf(FinalOperations(all))[i] == RangeOf(op) == component;
    forall a | Within(a, component)
      ensures ByteFits(memory, writable, op, component.begin, a)
    {
      ByteReady(plans, memory, writable, component, a);
    }
  }

  lemma {:induction false} ReadyMayWrite(plans: seq<FieldWritePlan>, memory: Memory, writable: set<int>)
    requires var all := AllOperations(plans);
      && ConsistentOperations(all) && Collect(all).Some? && SizesFit(ComponentsOf(all))
      && AllLegal(FinalOperations(all)) && Ready(memory, writable, FinalOperations(all))
    ensures WritesAllowed(writable, plans)
  {
    var all := AllOperations(plans);
    var constraints, final := Collect(all).value.constraints, FinalOperations(all);
    FinalBuilt(all);
    forall component, p, a, b | component in ComponentsOf(all) && PlanWrites(plans, p, a)
      && Within(a, component) && Within(b, component)
      ensures b in writable
    {
      var i :| 0 <= i < |final| && ComponentsOf(all)[i] == component;
      assert RangesOf(final)[i] == RangeOf(final[i]) == component;
      ReplacedWhereWritten(plans, a);
      assert HasWrite(constraints, component);
    }
  }

  /** The finalised request passes the preflight exactly when every plan holds and may write. */
  lemma {:induction false} ReadyExactly(
    catalog: Catalog, plans: seq<FieldWritePlan>, memory: Memory, writable: set<int>)
    requires Finalisable(catalog, plans)
    ensures AllLegal(FinalOperations(AllOperations(plans)))
    ensures Ready(memory, writable, FinalOperations(AllOperations(plans))) <==>
      PlansHold(memory, plans) && WritesAllowed(writable, plans)
  {
    var all := AllOperations(plans);
    CollectMeans(all);
    FinalBuilt(all);
    if PlansHold(memory, plans) && WritesAllowed(writable, plans) {
      forall i: nat | i < |FinalOperations(all)|
        ensures OperationReady(memory, writable, FinalOperations(all)[i])
      {
        FinalReady(plans, memory, writable, i);
      }
      ReadyEach(memory, writable, FinalOperations(all));
    }
    if Ready(memory, writable, FinalOperations(all)) {
      CommitMeaning(catalog, plans, memory, writable);
      ReadyMayWrite(plans, memory, writable);
    }
  }

  // ----- a guard that shares its component with a write

  lemma {:induction false} TwoSpans(base: int)
    ensures Components([Range(base, base + 2), Range(base, base + 1)]) == [Range(base, base + 2)]
  {
    var x, y := Range(base, base + 2), Range(base, base + 1);
    assert [x][..0] == [] && [x, y][..1] == [x] && [y][..0] == [] && [y, x][..1] == [y];
    assert SortLex([x]) == [x];
    assert SortLex([x, y]) == [y, x];
    assert Merge([y]) == [y];
    assert Merge([y, x]) == [x];
  }

  /** A piece of two bytes that only guards, and one that writes the first of them. */
  predicate SharesStart(g: Piece, w: Piece, base: int) {
    && g.start == w.start == base && |g.expected| == 2 && |w.expected| == 1 && w.expected[0] == g.expected[0]
    && !g.writes && w.writes
  }

  lemma {:induction false} SharedComponent(ops: seq<Operation>, g: Piece, w: Piece, base: int)
    requires |ops| == 2 && PieceOf(ops[0]) == Some(g) && PieceOf(ops[1]) == Some(w) && SharesStart(g, w, base)
    ensures ConsistentOperations(ops) && ComponentsOf(ops) == [Range(base, base + 2)]
  {
    assert Pieces(ops) == [g, w];
    assert Consistent(Bag(Pieces(ops))) by {
      forall p, q | p in Bag(Pieces(ops)) && q in Bag(Pieces(ops))
        ensures Agree(p, q)
      {
        assert (p == g || p == w) && (q == g || q == w);
      }
    }
    assert Spans(Pieces(ops)) == [Range(base, base + 2), Range(base, base + 1)];
    TwoSpans(base);
  }

  lemma {:induction false} OnePlan(plan: FieldWritePlan)
    ensures AllOperations([plan]) == PlanOperations(plan)
  {
    assert [plan][..0] == [];
    assert AllOperations([plan]) == [] + PlanOperations(plan);
  }

  lemma {:induction false} OneFits(base: int)
    ensures FitsLimits([Range(base, base + 2)])
  {
    var s := [Range(base, base + 2)];
    assert s[..0] == [] && TotalSize(s) == TotalSize(s[..0]) + 2;
  }

  lemma {:induction false} HoldsAndMayWrite(
    plan: FieldWritePlan, g: Piece, w: Piece, memory: Memory, writable: set<int>)
    requires |PlanOperations(plan)| == 2 && |plan.operations| == 1
    requires PieceOf(PlanOperations(plan)[0]) == Some(g) && PieceOf(PlanOperations(plan)[1]) == Some(w)
    requires SharesStart(g, w, g.start) && PieceHeld(memory, g) && writable == {g.start}
    ensures PlansHold(memory, [plan])
    ensures forall p, a :: PlanWrites([plan], p, a) ==> a in writable
    ensures PlanWrites([plan], w, g.start)
  {
    var ops := PlanOperations(plan);
    assert ops[1] == plan.operations[0];
    forall op | op in ops
      ensures PieceOf(op).Some? && PieceHeld(memory, PieceOf(op).value)
    {
      assert op == ops[0] || op == ops[1];
      assert PieceHeld(memory, w);
    }
    assert plan in [plan] && plan.operations[0] in plan.operations && WritesAt(w, g.start);
  }

  lemma {:induction false} SharedIsNotAllowed(plans: seq<FieldWritePlan>, w: Piece, base: int, writable: set<int>)
    requires ConsistentOperations(AllOperations(plans)) && ComponentsOf(AllOperations(plans)) == [Range(base, base + 2)]
    requires PlanWrites(plans, w, base) && writable == {base}
    ensures !WritesAllowed(writable, plans)
  {
    var component := Range(base, base + 2);
    assert component in ComponentsOf(AllOperations(plans)) && Within(base, component) && Within(base + 1, component);
  }

  /** Every byte the plan writes may be written, and the plan holds; but a byte that its guard covers besides is in the
      same final operation and may not be written, so the request is refused. */
  lemma {:induction false} GuardedByteIsRefused(
    catalog: Catalog, plan: FieldWritePlan, g: Piece, w: Piece, memory: Memory, writable: set<int>)
    requires PlanCurrent(catalog, plan) && |PlanOperations(plan)| == 2 && |plan.operations| == 1
    requires PieceOf(PlanOperations(plan)[0]) == Some(g) && PieceOf(PlanOperations(plan)[1]) == Some(w)
    requires SharesStart(g, w, g.start) && PieceHeld(memory, g) && writable == {g.start}
    ensures Finalisable(catalog, [plan]) && PlansHold(memory, [plan])
    ensures forall p, a :: PlanWrites([plan], p, a) ==> a in writable
    ensures AllLegal(FinalOperations(AllOperations([plan])))
      && !Ready(memory, writable, FinalOperations(AllOperations([plan])))
  {
    OnePlan(plan);
    SharedComponent(PlanOperations(plan), g, w, g.start);
    OneFits(g.start);
    HoldsAndMayWrite(plan, g, w, memory, writable);
    SharedIsNotAllowed([plan], w, g.start, writable);
    ReadyExactly(catalog, [plan], memory, writable);
  }

  // ----- plan order

  lemma {:induction false} AllOperationsConcat(s: seq<FieldWritePlan>, t: seq<FieldWritePlan>)
    ensures AllOperations(s + t) == AllOperations(s) + AllOperations(t)
  {
    if t == [] {
      assert s + t == s;
    } else {
      var front, last := t[..|t| - 1], t[|t| - 1];
      assert (s + t)[..|s + t| - 1] == s + front;
      AllOperationsConcat(s, front);
      SeqFacts.Associate(AllOperations(s), AllOperations(front), PlanOperations(last));
    }
  }

  lemma {:induction false} AllOperationsMiddle(left: seq<FieldWritePlan>, x: FieldWritePlan, right: seq<FieldWritePlan>)
    ensures multiset(AllOperations(left + [x] + right)) ==
      multiset(AllOperations(left + right)) + multiset(PlanOperations(x))
  {
    AllOperationsConcat(left, right);
    AllOperationsConcat(left, [x]);
    AllOperationsConcat(left + [x], right);
    OnePlan(x);
  }

  lemma {:induction false} AllOperationsBag(s: seq<FieldWritePlan>, t: seq<FieldWritePlan>)
    requires multiset(s) == multiset(t)
    ensures multiset(AllOperations(s)) == multiset(AllOperations(t))
  {
    if s == [] {
      assert |multiset(t)| == |t|;
    } else {
      var front, x := s[..|s| - 1], s[|s| - 1];
      assert s == front + [x];
      assert x in multiset(s);
      var k := SeqFacts.TakeOut(t, x);
      var left, right := t[..k], t[k + 1..];
      AllOperationsBag(front, left + right);
      AllOperationsMiddle(left, x, right);
      assert t == left + [x] + right;
    }
  }

  lemma {:induction false} SpansBag(s: seq<Operation>, t: seq<Operation>)
    requires AllPieces(s) && AllPieces(t) && multiset(s) == multiset(t)
    ensures multiset(Spans(Pieces(s))) == multiset(Spans(Pieces(t)))
  {
    var f := (op: Operation) => if PieceOf(op).Some? then Span(PieceOf(op).value) else Range(0, 0);
    SeqFacts.MapBag(f, s, t);
    assert SeqFacts.Map(f, s) == Spans(Pieces(s));
    assert SeqFacts.Map(f, t) == Spans(Pieces(t));
  }

  /** The map is determined by the pieces it represents. */
  lemma {:induction false} RepresentationIsUnique(c: Constraints, d: Constraints, pieces: set<Piece>)
    requires Represents(c, pieces) && Represents(d, pieces)
    ensures c == d
  {
    forall a: int
      ensures a in c <==> a in d
      ensures a in c && a in d ==> c[a] == d[a]
    {
      assert SaysAt(c, pieces, a) && SaysAt(d, pieces, a);
    }
  }

  lemma {:induction false} SamePieces(s: seq<Operation>, t: seq<Operation>)
    requires multiset(s) == multiset(t) && AllPieces(s)
    ensures AllPieces(t) && Bag(Pieces(s)) == Bag(Pieces(t))
  {
    assert forall op :: op in s <==> op in multiset(s);
    assert forall op :: op in t <==> op in multiset(t);
    forall i | 0 <= i < |t|
      ensures PieceOf(t[i]).Some?
    {
      assert t[i] in s;
    }
    forall p
      ensures p in Bag(Pieces(s)) <==> p in Bag(Pieces(t))
    {
      BagMember(s, p);
      BagMember(t, p);
    }
  }

  lemma {:induction false} FinalOperationsBag(s: seq<Operation>, t: seq<Operation>)
    requires multiset(s) == multiset(t) && ConsistentOperations(s)
    ensures ConsistentOperations(t) && ComponentsOf(s) == ComponentsOf(t) && FinalOperations(s) == FinalOperations(t)
  {
    SamePieces(s, t);
    SpansBag(s, t);
    SortedLexIsUnique(SortLex(Spans(Pieces(s))), SortLex(Spans(Pieces(t))));
    CollectMeans(s);
    CollectMeans(t);
    RepresentationIsUnique(Collect(s).value.constraints, Collect(t).value.constraints, Bag(Pieces(s)));
    CollectedFacts(s, Collect(s).value);
    CollectedFacts(t, Collect(t).value);
  }

  /** Whether finalisation succeeds, and the request it builds, do not depend on the order of the plans. */
  lemma {:induction false} PlanOrderIsImmaterial(catalog: Catalog, s: seq<FieldWritePlan>, t: seq<FieldWritePlan>)
    requires multiset(s) == multiset(t)
    ensures Finalisable(catalog, s) <==> Finalisable(catalog, t)
    ensures Finalisable(catalog, s) ==> FinalOperations(AllOperations(s)) == FinalOperations(AllOperations(t))
  {
    assert forall plan :: plan in s <==> plan in multiset(s);
    assert forall plan :: plan in t <==> plan in multiset(t);
    assert |s| == |multiset(s)| == |multiset(t)| == |t|;
    AllOperationsBag(s, t);
    if Finalisable(catalog, s) {
      FinalOperationsBag(AllOperations(s), AllOperations(t));
    }
    if Finalisable(catalog, t) {
      FinalOperationsBag(AllOperations(t), AllOperations(s));
    }
  }

  // ----- finalise and run

  /** The tail of a typed commit: finalise the plans and, if that succeeds, run the request. */
  method CommitPlans(catalog: Catalog, transactionId: string, plans: seq<FieldWritePlan>, backend: MemoryBackend)
    returns (final: GuardedFieldTransaction, result: Option<Result>)
    modifies backend
    ensures FinalVerdict(catalog, transactionId, plans, final)
    ensures result.Some? <==> Finalisable(catalog, plans)
    ensures result.Some? ==>
      backend.runs == old(backend.runs) + [Request(transactionId, FinalOperations(AllOperations(plans)))]
    ensures result.None? ==>
      && backend.runs == old(backend.runs)
      && backend.memory == old(backend.memory) && backend.issued == old(backend.issued)
    ensures result.Some? && ValidTransactionId(transactionId) ==> !Structural(result.value.code)
    ensures result.Some? && !result.value.status.Rejected? ==>
      PlansHold(old(backend.memory), plans) && WritesAllowed(backend.writable, plans)
    ensures result.Some? && Honest(backend.faults) && ValidTransactionId(transactionId) ==>
      (result.value.status.AppliedVerified? <==>
        PlansHold(old(backend.memory), plans) && WritesAllowed(backend.writable, plans))
    ensures result.Some? && result.value.status.AppliedVerified? ==>
      PlansHold(old(backend.memory), plans) && PlansApplied(old(backend.memory), backend.memory, plans)
    ensures result.Some? && result.value.status.Rejected? ==>
      backend.memory == old(backend.memory) && backend.issued == old(backend.issued)
    ensures result.Some? && result.value.status.RolledBackVerified? ==> backend.memory == old(backend.memory)
  {
    final := FinalizeFieldTransaction(catalog, transactionId, plans);
    if !final.ok {
      return final, None;
    }
    ghost var before := backend.memory;
    var outcome := RunTransaction(final.request, backend);
    result := Some(outcome);
    FinalRequestIsWellFormed(catalog, transactionId, plans);
    ReadyExactly(catalog, plans, before, backend.writable);
    if outcome.status.AppliedVerified? {
      CommitMeaning(catalog, plans, before, backend.writable);
    }
  }
}
