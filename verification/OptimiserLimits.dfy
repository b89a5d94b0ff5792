/** Concrete operands on which the optimiser's rewritings change values, each breaking one guard, and how texts
    are read. */
module OptimiserLimits {
  import opened Operators
  import opened Cancellation
  import opened Expressions
  import opened SumTerms
  import opened ExponentTexts
  import opened OptimiserGuards
  import opened OptimiserResults
  import opened WorkItems
  import opened RingWords

  /** An environment of any kernel in which every variable is `v`. */
  function AllEqual(v: int, w: World): Env {
    AsReals(Lifted(Words((x: string) => v, (f: Work) => 0), w), w)
  }

  lemma AllEqualObeys(v: int, w: World)
    ensures Obeys(AllEqual(v, w), w)
  {
    LiftedObeys(Words((x: string) => v, (f: Work) => 0), w);
  }

  predicate ThreeVariables(a: Node, b: Node, x: Node) {
    a.Var? && b.Var? && x.Var? && a.name != b.name && a.name != x.name && b.name != x.name
  }

  /** (a - x) + (b - x) becomes a + b: the second x cancels the first. */
  lemma SubtractedTwiceIsLost(a: Node, b: Node, x: Node, h: Hint, w: World, m: Memory)
    requires ThreeVariables(a, b, x)
    ensures var s0, s1 := Bin(0, h, Minus, a, x), Bin(1, h, Minus, b, x);
            var r := OperationResult(Plus, s0, s1, w, m).0;
            && !CoveredTerms(SumList(s0, s1))
            && r == Done(Bin(m.next, h, Plus, a, b)) && !Computes(r.node, Plus, s0, s1, w)
  {
    var s0, s1 := Bin(0, h, Minus, a, x), Bin(1, h, Minus, b, x);
    var ta, tb, tx := Term(a, true), Term(b, true), Term(x, false);
    ListOfTwoDifferences(a, b, x, h);
    CancelsTwice(ta, tb, tx);
    SumOfTwo(s0, s1, h, w.sizes, m.next, ta, tb);
    TwiceIsAnother(s0, s1, a, b, x, Bin(m.next, h, Plus, a, b), w);
  }

  lemma TwiceIsAnother(s0: Node, s1: Node, a: Node, b: Node, x: Node, r: Node, w: World)
    requires s0.Bin? && s0.op.Minus? && s0.left == a && s0.right == x
    requires s1.Bin? && s1.op.Minus? && s1.left == b && s1.right == x
    requires a.Var? && b.Var? && x.Var? && Cancel(SumList(s0, s1), Contents) == [Term(a, true), Term(b, true)]
    requires r.Bin? && r.op.Plus? && r.left == a && r.right == b
    ensures !Computes(r, Plus, s0, s1, w) && !CoveredTerms(SumList(s0, s1))
  {
    var env := AllEqual(1, w);
    AllEqualObeys(1, w);
    assert Eval(a, env) == 1.0 && Eval(b, env) == 1.0 && Eval(x, env) == 1.0;
    assert Eval(s0, env) == 0.0 && Eval(s1, env) == 0.0 && Eval(r, env) == 2.0;
    var ta, tb := Term(a, true), Term(b, true);
    SumListWorth(s0, s1, env);
    WorthSplit([ta], [tb], env);
    WorthOfOne(ta, env);
    WorthOfOne(tb, env);
    assert [ta] + [tb] == [ta, tb];
    if CoveredTerms(SumList(s0, s1)) { CancelKeepsWorth(SumList(s0, s1), env); }
  }

  lemma SumOfTwo(s0: Node, s1: Node, h: Hint, sizes: seq<int>, next: nat, ta: Term<Node>, tb: Term<Node>)
    requires Cancel(SumList(s0, s1), Contents) == [ta, tb] && ta.plus && tb.plus && ta.item.Var? && tb.item.Var?
    ensures Flattened(s0, s1, h, sizes, next) == (Done(Bin(next, h, Plus, ta.item, tb.item)), next + 1)
  {
    var kept := [ta, tb];
    forall d: Dim ensures InDimension(kept, d, sizes, next) == (kept, next) { VariablesStay(kept, d, sizes, next); }
    assert kept[1..] == [tb] && [tb][1..] == [];
    assert SumTree(ta.item, [tb], h, next)
        == SumTree(Bin(next, h, Plus, ta.item, tb.item), [tb][1..], h, next + 1);
  }

  /** Among variables there is nothing to fold. */
  lemma VariablesStay(ts: Terms, d: Dim, sizes: seq<int>, next: nat)
    requires forall t | t in ts :: t.item.Var?
    ensures InDimension(ts, d, sizes, next) == (ts, next)
  {
    NoneSelected(ts, LocalPart, d);
    NoneSelected(ts, GroupPart, d);
  }

  lemma ListOfTwoDifferences(a: Node, b: Node, x: Node, h: Hint)
    requires ThreeVariables(a, b, x)
    ensures SumList(Bin(0, h, Minus, a, x), Bin(1, h, Minus, b, x))
         == [Term(a, true), Term(x, false), Term(b, true), Term(x, false)]
  {
    var ta, tb, tx := Term(a, true), Term(b, true), Term(x, false);
    assert Flatten(Bin(0, h, Minus, a, x), true) == [ta] + [tx];
    assert Flatten(Bin(1, h, Minus, b, x), true) == [tb] + [tx];
  }

  lemma CancelsTwice(ta: Term<Node>, tb: Term<Node>, tx: Term<Node>)
    requires ta.plus && tb.plus && !tx.plus && ThreeVariables(ta.item, tb.item, tx.item)
    ensures Cancel([ta, tx, tb, tx], Contents) == [ta, tb]
  {
    var ts := [ta, tx, tb, tx];
    assert ts[1..] == [tx, tb, tx] && [tx, tb, tx][1..] == [tb, tx] && [tb, tx][1..] == [tx] && [tx][1..] == [];
    assert Positive([tx]) == Positive([tx][1..]) == [];
    assert Positive([tb, tx]) == [tb] + Positive([tb, tx][1..]) == [tb];
    assert Positive([tx, tb, tx]) == Positive([tx, tb, tx][1..]) == [tb];
    assert Positive(ts) == [ta] + [tb] == [ta, tb];
    NotYetKept(ta, tb, tx);
    AlreadyKept(ta, tb, tx);
    calc {
      Cancel(ts, Contents);
      CancelRest([ta, tb], Contents, ts);
      CancelRest([ta, tb], Contents, [tx, tb, tx]);
      CancelRest([ta, tb, tx], Contents, [tb, tx]);
      CancelRest([ta, tb, tx], Contents, [tx]);
      CancelRest([ta, tb], Contents, []);
      [ta, tb];
    }
  }

  lemma NotYetKept(ta: Term<Node>, tb: Term<Node>, tx: Term<Node>)
    requires ThreeVariables(ta.item, tb.item, tx.item)
    ensures CancelOne([ta, tb], Contents, tx) == [ta, tb, tx]
  {
    assert FirstWith([ta, tb], Contents, Contents(tx.item)) == 2;
  }

  lemma AlreadyKept(ta: Term<Node>, tb: Term<Node>, tx: Term<Node>)
    requires ThreeVariables(ta.item, tb.item, tx.item)
    ensures CancelOne([ta, tb, tx], Contents, tx) == [ta, tb]
  {
    var kept := [ta, tb, tx];
    assert kept[2] == tx && FirstWith(kept, Contents, Contents(tx.item)) == 2;
    assert RemoveAt(kept, 2) == [ta, tb];
  }

  /** x && 1 becomes x: the same truth, but another value when x is neither 0 nor 1. */
  lemma AndWithOneIsNotExact(x: Node, one: Node, w: World, m: Memory)
    requires x.Var? && one.Const? && one.literal == Number(1.0)
    ensures OperationResult(And, x, one, w, m).0 == Done(x)
    ensures !Exact(And, x, one) && ComputesTruth(x, And, x, one, w) && !Computes(x, And, x, one, w)
  {
    var env := AllEqual(5, w);
    AllEqualObeys(5, w);
    assert Eval(x, env) == 5.0 && Apply(And, Eval(x, env), Eval(one, env), env) == 1.0;
  }

  /** x && 0x0 becomes x as well, because the text of the constant is not empty. */
  lemma ZeroTextIsTrue(x: Node, zero: Node, w: World, m: Memory)
    requires x.Var? && zero.Const? && zero.literal == Text(0.0, 0)
    ensures OperationResult(And, x, zero, w, m).0 == Done(x)
    ensures Truthy(zero.literal) && ZeroText(zero) && !ComputesTruth(x, And, x, zero, w)
  {
    var env := AllEqual(5, w);
    AllEqualObeys(5, w);
    assert Eval(x, env) == 5.0 && Apply(And, Eval(x, env), Eval(zero, env), env) == 0.0;
  }

  // ---- texts ----

  /** 1e5 + 1 becomes 486, because the text is read in base 16. */
  lemma ExponentIsFolded(text: Node, one: Node, w: World, m: Memory, env: Env)
    requires text.Const? && text.literal == Text(100000.0, 0x1e5) && one.Const? && one.literal == Number(1.0)
    ensures OperationResult(Plus, text, one, w, m).0
         == Done(Const(m.next, w.common(text.hint, one.hint), Number(486.0)))
    ensures Apply(Plus, Eval(text, env), Eval(one, env), env) == 100001.0
    ensures text.literal == ExponentText([1], [5])
  {
    assert [1][..0] == [] && [5][..0] == [];
    assert DigitsIn(10, [1]) == 1 && DigitsIn(10, [5]) == 5;
    assert Power(10, 5) == 10 * (10 * (10 * (10 * (10 * Power(10, 0)))));
    var digits := WithE([1]) + [5];
    assert digits[..2] == WithE([1]) && WithE([1])[..1] == [1];
    assert DigitsIn(16, [1]) == 1 && DigitsIn(16, WithE([1])) == 30;
  }

  /** The three tests on constants, for a text with an exponent: the test for zero is right exactly when the mantissa
      is not zero, that for one exactly when the text does not mean one, that for a negative number always. */
  lemma TestsExactly(text: Node, mantissa: seq<Decimal>, exponent: seq<Decimal>, env: Env)
    requires text.Const? && text.literal == ExponentText(mantissa, exponent)
    ensures (ConstZero(text) <==> Eval(text, env) == 0.0) <==> DigitsIn(10, mantissa) != 0
    ensures (ConstOne(text) <==> Eval(text, env) == 1.0) <==>
            !(DigitsIn(10, mantissa) == 1 && DigitsIn(10, exponent) == 0)
    ensures ConstNegative(text) <==> text.hint.signed && Eval(text, env) < 0.0
  {
    AtLeastFourteen(mantissa, exponent);
    MeansZeroOrOne(DigitsIn(10, mantissa), DigitsIn(10, exponent));
  }

  /** x / 0e5 is not noticed to be a division by zero. */
  lemma ZeroIsDivisor(x: Node, zero: Node, w: World, m: Memory, env: Env)
    requires x.Var? && zero.Const? && zero.literal == ExponentText([0], [5])
    ensures OperationResult(Div, x, zero, w, m).0 == Done(Bin(m.next, OperationHint(x, zero, w), Div, x, zero))
    ensures Eval(zero, env) == 0.0
  {
    assert [0][..0] == [];
    AtLeastFourteen([0], [5]);
  }

  /** x * 1e0 stays. */
  lemma OneIsFactor(x: Node, one: Node, w: World, m: Memory, env: Env)
    requires x.Var? && one.Const? && one.literal == ExponentText([1], [0])
    ensures OperationResult(Mul, x, one, w, m).0 == Done(Bin(m.next, OperationHint(x, one, w), Mul, x, one))
    ensures Eval(one, env) == 1.0
  {
    assert [1][..0] == [] && [0][..0] == [];
    assert DigitsIn(10, [1]) == 1 && DigitsIn(10, [0]) == 0;
    AtLeastFourteen([1], [0]);
  }

  lemma EqualProducts(a: real, b: real, v: real)
    ensures a * v == b * v <==> a == b || v == 0.0
    ensures v * a == v * b <==> a == b || v == 0.0
  {
    assert a * v - b * v == (a - b) * v;
  }

  lemma EqualQuotients(a: real, b: real, v: real)
    requires v != 0.0
    ensures a / v == b / v <==> a == b
  {
    assert a == a / v * v && b == b / v * v;
  }

  /** When it makes no difference to read `h` instead of `m`, before or after `v`. */
  predicate Harmless(op: Op, h: real, m: real, v: real, first: bool) {
    if op.Mul? then h == m || v == 0.0
    else if !IsCompare(op) then h == m
    else if first then Compare(op, h, v) == Compare(op, m, v)
    else Compare(op, v, h) == Compare(op, v, m)
  }

  /** Folding with `h` read first gives what the operation gives on `m` exactly where that is harmless. */
  predicate ReadsFirst(op: Op, h: real, m: real, v: real, w: World, env: Env) {
    var f := Fold(op, h, v, w.fold);
    f.Value? && (f.value == Apply(op, m, v, env) <==> Harmless(op, h, m, v, true))
  }

  predicate ReadsSecond(op: Op, h: real, m: real, v: real, w: World, env: Env) {
    var f := Fold(op, v, h, w.fold);
    f.Value? && (f.value == Apply(op, v, m, env) <==> Harmless(op, h, m, v, false))
  }

  lemma ReadFactor(h: real, m: real, v: real, w: World, env: Env)
    ensures ReadsFirst(Mul, h, m, v, w, env) && ReadsSecond(Mul, h, m, v, w, env)
  {
    EqualProducts(h, m, v);
  }

  lemma ReadDividend(h: real, m: real, v: real, w: World, env: Env)
    requires v != 0.0
    ensures ReadsFirst(Div, h, m, v, w, env)
  {
    EqualQuotients(h, m, v);
  }

  lemma ReadSummand(h: real, m: real, v: real, w: World, env: Env)
    ensures ReadsFirst(Plus, h, m, v, w, env) && ReadsSecond(Plus, h, m, v, w, env)
    ensures ReadsFirst(Minus, h, m, v, w, env) && ReadsSecond(Minus, h, m, v, w, env)
  {}

  lemma ReadCompared(op: Op, h: real, m: real, v: real, w: World, env: Env)
    requires IsCompare(op)
    ensures ReadsFirst(op, h, m, v, w, env) && ReadsSecond(op, h, m, v, w, env)
  {
    assert Fold(op, h, v, w.fold) == Value(Bit(Compare(op, h, v)));
    assert Fold(op, v, h, w.fold) == Value(Bit(Compare(op, v, h)));
  }

  /** Folding a text with a number is right exactly where its two readings give the same: what is added, subtracted
      or divided must be read right, a factor unless the other is zero. */
  lemma FoldedTextExactly(op: Op, text: Node, number: Node, w: World, next: nat, env: Env)
    requires text.Const? && text.literal.Text? && number.Const? && number.literal.Number?
    requires op.Plus? || op.Minus? || op.Mul? || IsCompare(op) || (op.Div? && !ConstZero(number))
    ensures var r, v := FoldResult(op, text, number, w, next).0, number.literal.value;
            var h, m := text.literal.hex as real, text.literal.meaning;
            && r.Done?
            && (Eval(r.node, env) == Apply(op, Eval(text, env), Eval(number, env), env)
                <==> Harmless(op, h, m, v, true))
  {
    var h, m, v := text.literal.hex as real, text.literal.meaning, number.literal.value;
    assert ReadsFirst(op, h, m, v, w, env) by {
      if op.Mul? { ReadFactor(h, m, v, w, env); }
      if op.Div? { ReadDividend(h, m, v, w, env); }
      if op.Plus? || op.Minus? { ReadSummand(h, m, v, w, env); }
      if IsCompare(op) { ReadCompared(op, h, m, v, w, env); }
    }
  }

  /** The same with the text on the right. */
  lemma FoldedNumberExactly(op: Op, number: Node, text: Node, w: World, next: nat, env: Env)
    requires text.Const? && text.literal.Text? && number.Const? && number.literal.Number?
    requires op.Plus? || op.Minus? || op.Mul? || IsCompare(op)
    ensures var r, v := FoldResult(op, number, text, w, next).0, number.literal.value;
            var h, m := text.literal.hex as real, text.literal.meaning;
            && r.Done?
            && (Eval(r.node, env) == Apply(op, Eval(number, env), Eval(text, env), env)
                <==> Harmless(op, h, m, v, false))
  {
    var h, m, v := text.literal.hex as real, text.literal.meaning, number.literal.value;
    assert ReadsSecond(op, h, m, v, w, env) by {
      if op.Mul? { ReadFactor(h, m, v, w, env); }
      if op.Plus? || op.Minus? { ReadSummand(h, m, v, w, env); }
      if IsCompare(op) { ReadCompared(op, h, m, v, w, env); }
    }
  }
}
