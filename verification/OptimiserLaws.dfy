/** What each operation becomes: the rewriting rules, and that nothing else is rewritten. */
module OptimiserLaws {
  import opened Options
  import opened Operators
  import opened Expressions
  import opened OptimiserGuards
  import opened OptimiserResults
  import opened WorkItems

  /** What a call returns, without its number. */
  function Result(op: Op, s0: Node, s1: Node, w: World, m: Memory): Outcome { OperationResult(op, s0, s1, w, m).0 }

  /** The operation as it was called. */
  function AsCalled(op: Op, s0: Node, s1: Node, w: World, m: Memory): Outcome {
    Done(Bin(m.next, OperationHint(s0, s1, w), op, s0, s1))
  }

  // ---- constants ----

  /** Two constants fold to one constant of their common type. */
  lemma ConstantsFold(op: Op, a: Node, b: Node, w: World, m: Memory)
    requires a.Const? && b.Const?
    ensures match Fold(op, Read(a.literal), Read(b.literal), w.fold)
            case Value(v) => Result(op, a, b, w, m) == Done(Const(m.next, w.common(a.hint, b.hint), Number(v)))
            case Failed(e) => Result(op, a, b, w, m) == Raised(e)
  {}

  /** Adding and subtracting zero, and multiplying and dividing by one, give the other operand; multiplying by zero
      gives the zero, and dividing by it an error. */
  lemma UnitsGo(x: Node, c: Node, w: World, m: Memory)
    requires !x.Const? && c.Const?
    ensures ConstZero(c) ==>
              && Result(Plus, x, c, w, m) == Done(x) == Result(Plus, c, x, w, m)
              && Result(Minus, x, c, w, m) == Done(x)
              && Result(Mul, x, c, w, m) == Done(c) == Result(Mul, c, x, w, m)
              && Result(Div, x, c, w, m) == Raised(AssertionFailed)
    ensures ConstOne(c) ==>
              && Result(Mul, x, c, w, m) == Done(x) == Result(Mul, c, x, w, m)
              && Result(Div, x, c, w, m) == Done(x)
  {}

  /** Adding a negative constant, on either side, is subtracting it without its sign, and the other way round. */
  lemma SignsTurn(x: Node, c: Node, w: World, m: Memory)
    requires !x.Const? && ConstNegative(c) && c.literal.Number?
    ensures var hint := OperationHint(x, c, w);
            && Result(Plus, x, c, w, m) == DifferenceResult(x, Abs(c), hint, w, m).0
                                        == Done(Bin(m.next, hint, Minus, x, Abs(c)))
            && Result(Minus, x, c, w, m) == SumResult(x, Abs(c), hint, w, m).0
    ensures Result(Plus, c, x, w, m) == Done(Bin(m.next, OperationHint(c, x, w), Minus, x, Abs(c)))
  {
    var hint := OperationHint(c, x, w);
    assert SumResult(c, x, hint, w, m) == SumResult(x, c, hint, w, m) == DifferenceResult(x, Abs(c), hint, w, m);
  }

  /** A difference of equal nodes is zero; 0 - (x - y) is what y - x is, in the type of the difference; 0 - p is
      -1 * p for a product or quotient p. */
  lemma DifferencesShrink(s0: Node, s1: Node, w: World, m: Memory)
    requires !s1.Const?
    ensures s0 == s1 ==> Result(Minus, s0, s1, w, m) == Done(Const(m.next, UINT, Number(0.0)))
    ensures ConstZero(s0) && s1.Bin? && s1.op.Minus? ==>
              Result(Minus, s0, s1, w, m) == DifferenceResult(s1.right, s1.left, OperationHint(s0, s1, w), w, m).0
    ensures ConstZero(s0) && s1.Bin? && (s1.op.Mul? || s1.op.Div?) ==>
              exists id, number :: Result(Minus, s0, s1, w, m)
                == Done(Bin(id, OperationHint(s0, s1, w), Mul, Const(number, INT, Number(-1.0)), s1))
  {
    if ConstZero(s0) && s1.Bin? && (s1.op.Mul? || s1.op.Div?) {
      assert Result(Minus, s0, s1, w, m)
          == Done(Bin(m.next + 1, OperationHint(s0, s1, w), Mul, Const(m.next, INT, Number(-1.0)), s1));
    }
  }

  // ---- products, quotients and logical operations ----

  /** A constant factor under a constant divisor goes into one quotient; it vanishes if that is one. */
  lemma QuotientsFold(x: Node, c: Node, d: Node, id: nat, hint: Hint, w: World, m: Memory)
    requires c.Const? && d.Const? && !ConstZero(d) && !ConstOne(d)
    ensures var q := Read(c.literal) / Read(d.literal);
            (Result(Div, Bin(id, hint, Mul, x, c), d, w, m)
          == if q == 1.0 then Done(x)
             else Done(Bin(id, hint, Mul, x, Const(m.next, w.common(c.hint, d.hint), Number(q)))))
  {}

  /** A group id times the declared size becomes the group id times the local size, in either order. */
  lemma GroupsFold(g: Node, c: Node, w: World, m: Memory)
    requires g.WorkItem? && g.work.GroupId? && c.Const? && !ConstZero(c) && !ConstOne(c)
    requires Index(g.work.dim) < |w.sizes| && c.literal == Number(w.sizes[Index(g.work.dim)] as real)
    ensures Result(Mul, g, c, w, m) == Result(Mul, c, g, w, m)
    ensures var r := Result(Mul, g, c, w, m);
            && r.Done? && r.node.Bin? && r.node.op.Mul? && r.node.hint == UINT
            && r.node.left.WorkItem? && r.node.right.WorkItem?
            && r.node.left.work == GroupId(g.work.dim) && r.node.right.work == LocalSize(g.work.dim)
  {}

  /** A constant operand decides: true && x is x, false && x is false, true || x is true. */
  lemma ConstantsDecide(x: Node, c: Node, w: World, m: Memory)
    requires !x.Const? && c.Const?
    ensures Truthy(c.literal) ==>
              && Result(And, x, c, w, m) == Done(x) == Result(And, c, x, w, m)
              && Result(Or, x, c, w, m) == Done(Const(m.next, OperationHint(x, c, w), Number(1.0)))
              && Result(Or, c, x, w, m) == Done(Const(m.next, OperationHint(c, x, w), Number(1.0)))
    ensures !Truthy(c.literal) ==>
              && Result(And, x, c, w, m) == Done(Const(m.next, OperationHint(x, c, w), Number(0.0)))
              && Result(And, c, x, w, m) == Done(Const(m.next, OperationHint(c, x, w), Number(0.0)))
  {}

  /** Double negations cancel, negated comparisons become the opposite ones, negated constants fold; nothing else. */
  lemma NegationsShrink(n: Node, next: nat)
    ensures NegationOf(n, next).None? <==> !n.Not? && !n.Const? && !(n.Bin? && IsCompare(n.op))
    ensures n.Not? ==> NegationOf(n, next) == Some(n.arg)
    ensures n.Const? ==>
              NegationOf(n, next) == Some(Const(next, UINT, Number(if ConstZero(n) then 1.0 else 0.0)))
    ensures n.Bin? && IsCompare(n.op) ==>
              exists op :: IsCompare(op) && NegationOf(n, next) == Some(Bin(n.id, n.hint, op, n.left, n.right))
                        && forall a, b :: Compare(op, a, b) == !Compare(n.op, a, b)
  {
    if n.Bin? && IsCompare(n.op) {
      forall a, b ensures Compare(InverseOf(n.op).value, a, b) == !Compare(n.op, a, b) {
        ComplementIsExact(n.op, a, b);
      }
    }
  }

  // ---- everything else ----

  /** An operation to which one of the rules applies. Sums are made of their terms. */
  predicate HasRule(op: Op, s0: Node, s1: Node, w: World) {
    || (s0.Const? && s1.Const?)
    || op.Plus?
    || (op.Minus? && (ConstZero(s1) || ConstNegative(s1) || s0 == s1 || (ConstZero(s0) && IsSumOrProduct(s1))))
    || (op.Mul? && (ProductRule(s0, s1, w) || ProductRule(s1, s0, w)))
    || (op.Div? && (ConstZero(s1) || ConstOne(s1) || (s1.Const? && s0.Bin? && s0.op.Mul? && s0.right.Const?)))
    || ((op.And? || op.Or?) && (Decisive(op, s0) || Decisive(op, s1)))
  }

  predicate ProductRule(a: Node, b: Node, w: World) { ConstZero(a) || ConstOne(a) || IsCountedGroup(a, b, w) }

  predicate Decisive(op: Op, c: Node) { c.Const? && (op.And? || Truthy(c.literal)) }

  predicate IsSumOrProduct(n: Node) { n.Bin? && (n.op.Minus? || n.op.Mul? || n.op.Div?) }

  /** A group id and a constant that is its declared size, or has none declared. */
  predicate IsCountedGroup(g: Node, c: Node, w: World) {
    && g.WorkItem? && g.work.GroupId? && c.Const?
    && (Index(g.work.dim) < |w.sizes| ==> c.literal == Number(w.sizes[Index(g.work.dim)] as real))
  }

  /** An operation without a rule stays as it was called. */
  lemma OthersStay(op: Op, s0: Node, s1: Node, w: World, m: Memory)
    requires !HasRule(op, s0, s1, w)
    ensures Result(op, s0, s1, w, m) == AsCalled(op, s0, s1, w, m)
  {}

  /** A sum whose constants are not zero or negative is made of its terms; a fraction added to a pointer is replaced by
      the operation that made it. */
  lemma SumsAreFlattened(s0: Node, s1: Node, w: World, m: Memory)
    requires !(s0.Const? && s1.Const?) && !ConstZero(s0) && !ConstZero(s1) && !ConstNegative(s0) && !ConstNegative(s1)
    ensures var hint := OperationHint(s0, s1, w);
            var r := OperationResult(Plus, s0, s1, w, m);
            if !s0.hint.pointer || !s1.Const? then r == Flattened(s0, s1, hint, w.sizes, m.next)
            else if s1.literal.Text? then r.0 == Raised(BadText)
            else if !Fraction(s1) then r == Flattened(s0, s1, hint, w.sizes, m.next)
            else if s1 !in m.originals then r.0 == Raised(MissingOriginal)
            else r == Flattened(s0, m.originals[s1], hint, w.sizes, m.next)
  {}

  /** Rebuilding applies the rules to what the operands are rebuilt to: with zero for y, x + y * z becomes x. */
  lemma RebuildingApplies(x: Node, y: Node, z: Node, id: nat, no: nat, h: Hint, k: Hint, w: World, m: Memory)
    requires x.Var? && z.Var? && ConstZero(y)
    ensures Rebuilt(Bin(id, h, Plus, x, Bin(no, k, Mul, y, z)), w, m).0 == Done(x)
  {
    var l := m.(next := m.next + 1);
    assert Rebuilt(y, w, m) == (Done(Const(m.next, y.hint, y.literal)), l);
    var product := Rebuilt(Bin(no, k, Mul, y, z), w, m);
    assert Rebuilt(z, w, l) == (Done(z), l);
    assert product == Added(Mul, Const(m.next, y.hint, y.literal), z, w, l);
    assert Rebuilt(x, w, m) == (Done(x), m);
    assert Rebuilt(Bin(id, h, Plus, x, Bin(no, k, Mul, y, z)), w, m) == Added(Plus, x, product.0.node, w, product.1);
  }

  // ---- what is remembered ----

  /** The entry of what a call returns spells out the operation on the originals of its operands, and no other entry
      changes. */
  lemma EntriesSpellOut(op: Op, s0: Node, s1: Node, w: World, m: Memory)
    ensures var (r, k) := Added(op, s0, s1, w, m);
            r.Done? ==>
              && r.node in k.originals && k.originals == m.originals[r.node := k.originals[r.node]]
              && IsOperation(k.originals[r.node], op, OriginalOf(s0, m.originals), OriginalOf(s1, m.originals))
  {}

  predicate IsOperation(n: Node, op: Op, left: Node, right: Node) {
    n.Bin? && n.op == op && n.left == left && n.right == right
  }

  /** The entry of a negation that is rewritten is the negation, and that of a ternary is one of originals. */
  lemma OtherEntriesSpellOut(c: Node, s0: Node, s1: Node, w: World, m: Memory)
    ensures var (r, k) := Negated(c, m);
            if NegationOf(c, m.next).None? then k.originals == m.originals && r.Not? && r.arg == c
            else k.originals == m.originals[r := k.originals[r]] && k.originals[r].Not? && k.originals[r].arg == c
    ensures var (r, k) := Chosen(c, s0, s1, w, m);
            var o := k.originals[r];
            && k.originals == m.originals[r := o] && o.Ternary? && o.cond == OriginalOf(c, m.originals)
            && o.left == OriginalOf(s0, m.originals) && o.right == OriginalOf(s1, m.originals)
            && r.Ternary? && r.cond == c && r.left == s0 && r.right == s1 && r.hint == w.common(s0.hint, s1.hint)
  {}
}
