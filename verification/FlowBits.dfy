/** The and/or/xor options of the flow classifier (f_flow.c), folded into one mask and one xor value. */
module FlowBits {
  import opened BitWords

  datatype BitOp = AndWith(v: bv32) | OrWith(v: bv32) | XorWith(v: bv32)

  datatype Pair = Pair(mask: bv32, xor: bv32)

  function Apply(op: BitOp, x: bv32): bv32 {
    match op
    case AndWith(v) => And(x, v)
    case OrWith(v) => Or(x, v)
    case XorWith(v) => Xor(x, v)
  }

  /** The options one by one, in order. */
  function ApplyAll(ops: seq<BitOp>, x: bv32): bv32 {
    if ops == [] then x else Apply(ops[|ops| - 1], ApplyAll(ops[..|ops| - 1], x))
  }

  /** What the classifier computes from the pair. */
  function Effect(p: Pair, x: bv32): bv32 { Xor(And(x, p.mask), p.xor) }

  function Not(x: bv32): bv32 { !x }

  /** `transfer_bitop`. */
  function Transfer(p: Pair, m: bv32, x: bv32): Pair { Pair(And(p.mask, m), Xor(x, And(p.xor, m))) }

  /** What an option hands to `transfer_bitop`. */
  function Fold1(p: Pair, op: BitOp): Pair {
    match op
    case AndWith(v) => Transfer(p, v, 0)
    case OrWith(v) => Transfer(p, Not(v), v)
    case XorWith(v) => Transfer(p, ONES, v)
  }

  function Fold(ops: seq<BitOp>): Pair {
    if ops == [] then Pair(ONES, 0) else Fold1(Fold(ops[..|ops| - 1]), ops[|ops| - 1])
  }

  // ------------------------------------------------------------ word identities

  lemma AndFolds(x: bv32, m: bv32, y: bv32, v: bv32)
    ensures And(Xor(And(x, m), y), v) == Xor(And(x, And(m, v)), Xor(0, And(y, v)))
  {}

  lemma OrFolds(x: bv32, m: bv32, y: bv32, v: bv32)
    ensures Or(Xor(And(x, m), y), v) == Xor(And(x, And(m, Not(v))), Xor(v, And(y, Not(v))))
  {}

  lemma XorFolds(x: bv32, m: bv32, y: bv32, v: bv32)
    ensures Xor(Xor(And(x, m), y), v) == Xor(And(x, And(m, ONES)), Xor(v, And(y, ONES)))
  {
    hide And, Xor;
    Neutral(m);
    Neutral(y);
    XorMoves(And(x, m), y, v);
  }

  lemma XorMoves(x: bv32, y: bv32, v: bv32)
    ensures Xor(Xor(x, y), v) == Xor(x, Xor(v, y))
  {}

  lemma Neutral(x: bv32)
    ensures And(x, ONES) == x == And(ONES, x) && And(0, x) == 0 == And(x, 0)
    ensures Xor(x, 0) == x == Xor(0, x) && Not(0) == ONES
  {}

  lemma XorCancels(x: bv32, y: bv32, z: bv32)
    requires Xor(x, z) == Xor(y, z)
    ensures x == y
  {}

  /** The bits of `y` split by the mask: the kept ones by xor, the others by or. */
  lemma SplitByMask(m: bv32, y: bv32)
    ensures var o := Xor(And(m, y), y);
            And(m, Not(o)) == m && Xor(o, And(And(m, y), Not(o))) == y
  {}

  // ------------------------------------------------------------ folding

  lemma Fold1Applies(p: Pair, op: BitOp, x: bv32)
    ensures Effect(Fold1(p, op), x) == Apply(op, Effect(p, x))
  {
    hide And, Or, Xor, Not;
    AndFolds(x, p.mask, p.xor, op.v);
    OrFolds(x, p.mask, p.xor, op.v);
    XorFolds(x, p.mask, p.xor, op.v);
  }

  /** The folded pair does what the options do one after the other. */
  lemma {:induction false} FoldApplies(ops: seq<BitOp>, x: bv32)
    ensures Effect(Fold(ops), x) == ApplyAll(ops, x)
  {
    hide And, Or, Xor, Not, Fold1, Apply;
    if ops == [] {
      Neutral(x);
    } else {
      FoldApplies(ops[..|ops| - 1], x);
      Fold1Applies(Fold(ops[..|ops| - 1]), ops[|ops| - 1], x);
    }
  }

  lemma EffectDetermines(p: Pair, q: Pair)
    requires Effect(p, 0) == Effect(q, 0) && Effect(p, ONES) == Effect(q, ONES)
    ensures p == q
  {
    hide And, Or, Xor, Not;
    Neutral(p.mask);
    Neutral(q.mask);
    Neutral(p.xor);
    Neutral(q.xor);
    XorCancels(p.mask, q.mask, p.xor);
  }

  lemma SameAt(a: seq<BitOp>, b: seq<BitOp>, x: bv32)
    requires ApplyAll(a, x) == ApplyAll(b, x)
    ensures Effect(Fold(a), x) == Effect(Fold(b), x)
  {
    hide *;
    FoldApplies(a, x);
    FoldApplies(b, x);
  }

  ghost predicate SameEffect(a: seq<BitOp>, b: seq<BitOp>) { forall x :: ApplyAll(a, x) == ApplyAll(b, x) }

  lemma FoldEqual(a: seq<BitOp>, b: seq<BitOp>)
    requires Fold(a) == Fold(b)
    ensures SameEffect(a, b)
  {
    hide Effect, Fold, ApplyAll;
    forall x ensures ApplyAll(a, x) == ApplyAll(b, x) {
      FoldApplies(a, x);
      FoldApplies(b, x);
    }
  }

  /** Two option lists fold to the same pair exactly when they do the same to every value. */
  lemma FoldCanonical(a: seq<BitOp>, b: seq<BitOp>)
    ensures Fold(a) == Fold(b) <==> SameEffect(a, b)
  {
    hide And, Or, Xor, Not, Effect, Fold, ApplyAll;
    if Fold(a) == Fold(b) {
      FoldEqual(a, b);
    } else if SameEffect(a, b) {
      SameAt(a, b, 0);
      SameAt(a, b, ONES);
      EffectDetermines(Fold(a), Fold(b));
    }
  }

  // ------------------------------------------------------------ printing

  /** The options `flow_print_opt` prints: and, then the xor bits kept by the mask, then the others as or. */
  function Printed(p: Pair): seq<BitOp> {
    var both := And(p.mask, p.xor);
    (if p.mask != ONES then [AndWith(p.mask)] else []) +
    (if both != 0 then [XorWith(both)] else []) +
    (if Xor(both, p.xor) != 0 then [OrWith(Xor(both, p.xor))] else [])
  }

  lemma FoldSnoc(a: seq<BitOp>, op: BitOp)
    ensures Fold(a + [op]) == Fold1(Fold(a), op)
  {
    assert (a + [op])[..|a|] == a;
  }

  /** The options that printing leaves out would change nothing. */
  lemma Fold1Nothing(p: Pair)
    ensures Fold1(p, XorWith(0)) == p == Fold1(p, OrWith(0)) == Fold1(p, AndWith(ONES))
  {
    hide And, Or, Xor, Not;
    Neutral(p.mask);
    Neutral(p.xor);
    Neutral(0);
  }

  lemma FoldThree(p: Pair)
    ensures var both := And(p.mask, p.xor);
            Fold1(Fold1(Fold1(Pair(ONES, 0), AndWith(p.mask)), XorWith(both)), OrWith(Xor(both, p.xor))) == p
  {
    hide And, Or, Xor, Not;
    Neutral(p.mask);
    Neutral(0);
    Neutral(And(p.mask, p.xor));
    SplitByMask(p.mask, p.xor);
  }

  /** Re-parsing the printed options gives back exactly the same mask and xor. */
  lemma PrintedParses(p: Pair)
    ensures Fold(Printed(p)) == p && |Printed(p)| <= 3
  {
    hide And, Or, Xor, Not, Fold1;
    var both := And(p.mask, p.xor);
    var rest := Xor(both, p.xor);
    var a := if p.mask != ONES then [AndWith(p.mask)] else [];
    var b := if both != 0 then a + [XorWith(both)] else a;
    FoldSnoc([], AndWith(p.mask));
    assert [] + [AndWith(p.mask)] == [AndWith(p.mask)];
    Fold1Nothing(Fold([]));
    FoldSnoc(a, XorWith(both));
    Fold1Nothing(Fold(a));
    FoldSnoc(b, OrWith(rest));
    Fold1Nothing(Fold(b));
    FoldThree(p);
    assert Printed(p) == if rest != 0 then b + [OrWith(rest)] else b;
  }

  /** So printing after parsing never changes what the options do. */
  lemma PrintPreserves(ops: seq<BitOp>, x: bv32)
    ensures ApplyAll(Printed(Fold(ops)), x) == ApplyAll(ops, x)
  {
    hide *;
    PrintedParses(Fold(ops));
    FoldApplies(ops, x);
    FoldApplies(Printed(Fold(ops)), x);
  }

  // ------------------------------------------------------------ the option loop

  method TransferBitop(mask: bv32, xor: bv32, m: bv32, x: bv32) returns (mask': bv32, xor': bv32)
    ensures Pair(mask', xor') == Transfer(Pair(mask, xor), m, x)
  {
    xor' := Xor(x, And(xor, m));
    mask' := And(mask, m);
  }

  /** The bit options of `flow_parse_opt`. */
  method ParseBitOps(ops: seq<BitOp>) returns (mask: bv32, xor: bv32)
    ensures forall x :: Effect(Pair(mask, xor), x) == ApplyAll(ops, x)
  {
    hide And, Or, Xor, Not, ApplyAll, Transfer, Effect;
    mask, xor := ONES, 0;
    var i := 0;
    while i < |ops|
      invariant 0 <= i <= |ops| && Pair(mask, xor) == Fold(ops[..i])
      decreases |ops| - i
    {
      assert ops[..i + 1][..i] == ops[..i];
      match ops[i] {
        case AndWith(v) => mask, xor := TransferBitop(mask, xor, v, 0);
        case OrWith(v) => mask, xor := TransferBitop(mask, xor, Not(v), v);
        case XorWith(v) => mask, xor := TransferBitop(mask, xor, ONES, v);
      }
      i := i + 1;
    }
    assert ops[..i] == ops;
    forall x ensures Effect(Pair(mask, xor), x) == ApplyAll(ops, x) { FoldApplies(ops, x); }
  }

  /** The bit part of `flow_print_opt`: what is printed parses back to the pair. */
  method PrintBitOps(mask: bv32, xor: bv32) returns (ops: seq<BitOp>)
    ensures Fold(ops) == Pair(mask, xor) && |ops| <= 3
  {
    hide And, Or, Xor, Not, Fold;
    ops := [];
    PrintedParses(Pair(mask, xor));
    Neutral(0);
    Neutral(ONES);
    if mask != ONES || xor != 0 {
      var or, x := Xor(And(mask, xor), xor), And(mask, xor);
      if mask != ONES { ops := ops + [AndWith(mask)]; }
      if x != 0 { ops := ops + [XorWith(x)]; }
      if or != 0 { ops := ops + [OrWith(or)]; }
    }
    assert ops == Printed(Pair(mask, xor));
  }
}
