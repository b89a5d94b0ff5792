/** Which printed expressions keep their value. */
module PrinterMeaning {
  import opened Operators
  import opened ExpressionText
  import opened PrinterReading

  /** Any meaning of the constants, names and operators. */
  datatype Meaning<!V> = Meaning(
    num: int -> V, name: string -> V, not: V -> V, min: (V, V) -> V, bin: (Op, V, V) -> V, pick: (V, V, V) -> V)

  function Value<V>(e: Expr, m: Meaning<V>): V
    decreases e
  {
    match e
    case Num(n) => m.num(n)
    case Name(x) => m.name(x)
    case Not(a) => m.not(Value(a, m))
    case Min(l, r) => m.min(Value(l, m), Value(r, m))
    case Bin(op, l, r) => m.bin(op, Value(l, m), Value(r, m))
    case Ternary(c, l, r) => m.pick(Value(c, m), Value(l, m), Value(r, m))
  }

  predicate IsAssociative(op: Op) { op.Plus? || op.Mul? || op.And? || op.Or? || op.Xor? }

  /** Operators that are not associative and yet lose the brackets of a nested right operand. */
  predicate LosesBrackets(op: Op) {
    op.Div? || op.Rem? || op.Eq? || op.Ne? || op.Lt? || op.Le? || op.Gt? || op.Ge?
  }

  ghost predicate Respects<V(!new)>(m: Meaning<V>) {
    forall op: Op, a: V, b: V, c: V | IsAssociative(op) ::
      m.bin(op, m.bin(op, a, b), c) == m.bin(op, a, m.bin(op, b, c))
  }

  /** No division, remainder or comparison has itself as its right operand. */
  predicate Unnested(e: Expr)
    decreases e
  {
    match e
    case Num(_) => true
    case Name(_) => true
    case Not(a) => Unnested(a)
    case Min(l, r) => Unnested(l) && Unnested(r)
    case Bin(op, l, r) => Unnested(l) && Unnested(r) && !(LosesBrackets(op) && r.Bin? && r.op == op)
    case Ternary(c, l, r) => Unnested(c) && Unnested(l) && Unnested(r)
  }

  /** Unnested expressions mean the same after printing and parsing. */
  lemma {:induction false} ReadingKeepsValue<V(!new)>(e: Expr, m: Meaning<V>)
    requires Respects(m) && Unnested(e)
    ensures Value(Reading(e), m) == Value(e, m)
    decreases e, 0
  {
    match e
    case Num(_) =>
    case Name(_) =>
    case Not(a) => ReadingKeepsValue(a, m);
    case Min(l, r) => ReadingKeepsValue(l, m); ReadingKeepsValue(r, m);
    case Bin(op, l, r) => ReadingKeepsValue(l, m); GraftKeepsValue(op, Reading(l), r, m);
    case Ternary(c, l, r) => ReadingKeepsValue(c, m); ReadingKeepsValue(l, m); ReadingKeepsValue(r, m);
  }

  lemma {:induction false} GraftKeepsValue<V(!new)>(op: Op, left: Expr, e: Expr, m: Meaning<V>)
    requires Respects(m) && Unnested(e) && !(LosesBrackets(op) && e.Bin? && e.op == op)
    ensures Value(Graft(op, left, e), m) == m.bin(op, Value(left, m), Value(e, m))
    decreases e, 1
  {
    if Chains(op, e) {
      assert e.op == op && IsAssociative(op);
      GraftKeepsValue(op, left, e.left, m);
      GraftKeepsValue(op, Graft(op, left, e.left), e.right, m);
    } else {
      ReadingKeepsValue(e, m);
    }
  }

  // ---- and no others do ----

  function Leaves(e: Expr): (n: int)
    ensures n >= 1
    decreases e
  {
    match e
    case Num(_) => 1
    case Name(_) => 1
    case Not(a) => Leaves(a)
    case Min(l, r) => Leaves(l) + Leaves(r)
    case Bin(_, l, r) => Leaves(l) + Leaves(r)
    case Ternary(c, l, r) => Leaves(c) + Leaves(l) + Leaves(r)
  }

  /** What a bracket-losing operator pays for the leaves on its right. */
  function Toll(op: Op, leaves: int): int { if LosesBrackets(op) then leaves else 0 }

  /** The sum of all tolls. */
  function Cost(e: Expr): int
    decreases e
  {
    match e
    case Num(_) => 0
    case Name(_) => 0
    case Not(a) => Cost(a)
    case Min(l, r) => Cost(l) + Cost(r)
    case Bin(op, l, r) => Cost(l) + Cost(r) + Toll(op, Leaves(r))
    case Ternary(c, l, r) => Cost(c) + Cost(l) + Cost(r)
  }

  lemma {:induction false} ReadingKeepsLeaves(e: Expr)
    ensures Leaves(Reading(e)) == Leaves(e)
    decreases e, 0
  {
    match e
    case Num(_) =>
    case Name(_) =>
    case Not(a) => ReadingKeepsLeaves(a);
    case Min(l, r) => ReadingKeepsLeaves(l); ReadingKeepsLeaves(r);
    case Bin(op, l, r) => ReadingKeepsLeaves(l); GraftAddsLeaves(op, Reading(l), r);
    case Ternary(c, l, r) => ReadingKeepsLeaves(c); ReadingKeepsLeaves(l); ReadingKeepsLeaves(r);
  }

  lemma {:induction false} GraftAddsLeaves(op: Op, left: Expr, e: Expr)
    ensures Leaves(Graft(op, left, e)) == Leaves(left) + Leaves(e)
    decreases e, 1
  {
    if Chains(op, e) {
      GraftAddsLeaves(op, left, e.left);
      GraftAddsLeaves(op, Graft(op, left, e.left), e.right);
    } else {
      ReadingKeepsLeaves(e);
    }
  }

  /** Reading lowers the cost exactly when something was nested. */
  lemma {:induction false} ReadingCost(e: Expr)
    ensures Cost(Reading(e)) <= Cost(e) - (if Unnested(e) then 0 else 1)
    decreases e, 0
  {
    match e
    case Num(_) =>
    case Name(_) =>
    case Not(a) => ReadingCost(a);
    case Min(l, r) => ReadingCost(l); ReadingCost(r);
    case Bin(op, l, r) => ReadingCost(l); GraftCost(op, Reading(l), r);
    case Ternary(c, l, r) => ReadingCost(c); ReadingCost(l); ReadingCost(r);
  }

  lemma {:induction false} GraftCost(op: Op, left: Expr, e: Expr)
    ensures Cost(Graft(op, left, e))
         <= Cost(left) + Cost(e) + Toll(op, Leaves(e))
            - (if !Unnested(e) || (LosesBrackets(op) && e.Bin? && e.op == op) then 1 else 0)
    decreases e, 1
  {
    if Chains(op, e) {
      GraftCost(op, left, e.left);
      GraftCost(op, Graft(op, left, e.left), e.right);
    } else {
      ReadingCost(e);
      ReadingKeepsLeaves(e);
    }
  }

  datatype Pair = Pair(leaves: int, cost: int)

  function Join(a: Pair, b: Pair): Pair { Pair(a.leaves + b.leaves, a.cost + b.cost) }

  function JoinThree(a: Pair, b: Pair, c: Pair): Pair { Join(Join(a, b), c) }

  function JoinBy(op: Op, a: Pair, b: Pair): Pair {
    Pair(a.leaves + b.leaves, a.cost + b.cost + Toll(op, b.leaves))
  }

  /** A meaning that computes leaves and cost together. */
  function CostMeaning(): (m: Meaning<Pair>)
    ensures Respects(m)
  {
    Meaning(_ => Pair(1, 0), _ => Pair(1, 0), a => a, Join, JoinBy, JoinThree)
  }

  lemma {:induction false} CostIsValue(e: Expr)
    ensures Value(e, CostMeaning()) == Pair(Leaves(e), Cost(e))
  {
    match e
    case Num(_) => LeafIsOne(e);
    case Name(_) => LeafIsOne(e);
    case Not(a) => CostIsValue(a);
    case Min(l, r) => CostIsValue(l); CostIsValue(r);
    case Bin(op, l, r) => CostIsValue(l); CostIsValue(r);
    case Ternary(c, l, r) => CostIsValue(c); CostIsValue(l); CostIsValue(r);
  }

  lemma LeafIsOne(e: Expr)
    requires e.Num? || e.Name?
    ensures Value(e, CostMeaning()) == Pair(1, 0) && Leaves(e) == 1 && Cost(e) == 0
  {}

  /** Printing and parsing keep the value under every meaning in which +, *, &&, || and ^ associate
      exactly when no division, remainder or comparison is nested in its own right operand. */
  lemma PrintingKeepsValueExactly(e: Expr)
    ensures ParseExpr(Print(e, End)).Ok? && ParseExpr(Print(e, End)).rest == End
    ensures Unnested(e) <==>
            forall m: Meaning<Pair> | Respects(m) :: Value(ParseExpr(Print(e, End)).expr, m) == Value(e, m)
  {
    TextIsRead(e, End);
    if Unnested(e) {
      forall m: Meaning<Pair> | Respects(m) ensures Value(Reading(e), m) == Value(e, m) { ReadingKeepsValue(e, m); }
    } else {
      ReadingCost(e);
      CostIsValue(e);
      CostIsValue(Reading(e));
      assert Respects(CostMeaning());
    }
  }

  /** The printed text of 8 / (4 / 2) is that of 8 / 4 / 2. */
  lemma NestedDivisionIsRegrouped(bin: (Op, real, real) -> real, m: Meaning<real>)
    requires m == Meaning((n: int) => n as real, _ => 0.0, v => v, (v, _) => v, bin, (_, v, _) => v)
    requires forall a: real, b: real | b != 0.0 :: bin(Div, a, b) == a / b
    ensures var e := Bin(Div, Num(8), Bin(Div, Num(4), Num(2)));
            ParseExpr(Print(e, End)) == Ok(Bin(Div, Bin(Div, Num(8), Num(4)), Num(2)), End)
            && Value(e, m) == 4.0 && Value(Reading(e), m) == 1.0
  {
    var inner := Bin(Div, Num(4), Num(2));
    var e := Bin(Div, Num(8), inner);
    TextIsRead(e, End);
    assert Reading(e) == Graft(Div, Graft(Div, Num(8), Num(4)), Num(2)) == Bin(Div, Bin(Div, Num(8), Num(4)), Num(2));
    assert Value(inner, m) == 2.0 && Value(Bin(Div, Num(8), Num(4)), m) == 2.0;
    assert Value(e, m) == 8.0 / 2.0;
  }
}
