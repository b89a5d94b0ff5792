/** The branches the optimiser takes, as functions of its operands, and the guards under which
    each rewriting keeps values. */
module OptimiserGuards {
  import opened Options
  import opened Operators
  import opened Cancellation
  import opened Expressions
  import opened SumTerms
  import opened WorkItems

  datatype Error =
    | ZeroDivision     // folding a division by a constant zero
    | FoldingFailed    // an operator that cannot be folded on these constants
    | AssertionFailed  // dividing by a constant zero
    | BadText          // a text constant where a number is needed
    | MissingOriginal  // a fraction that was not made by an operation
    | MissingSize      // a group id or count times a constant without a declared size

  // ---- folding two constants ----

  datatype Folded = Value(value: real) | Failed(error: Error)

  /** Python's `and` and `or` return one of their operands. */
  function Fold(op: Op, a: real, b: real, fold: (Op, real, real) -> Option<real>): Folded {
    match op
    case Plus => Value(a + b)
    case Minus => Value(a - b)
    case Mul => Value(a * b)
    case Div => if b == 0.0 then Failed(ZeroDivision) else Value(a / b)
    case And => Value(if a != 0.0 then b else a)
    case Or => Value(if a != 0.0 then a else b)
    case _ =>
      if IsCompare(op) then Value(Bit(Compare(op, a, b)))
      else if fold(op, a, b).Some? then Value(fold(op, a, b).value) else Failed(FoldingFailed)
  }

  predicate IsBit(v: real) { v == 0.0 || v == 1.0 }

  /** Folding is right, except that `and` and `or` are right as truth values, and as values exactly
      when Python's result is a bit. */
  lemma FoldIsRight(op: Op, a: real, b: real, env: Env, w: World)
    requires FoldsLike(env, w) && Fold(op, a, b, w.fold).Value?
    ensures var v := Fold(op, a, b, w.fold).value;
            && (v != 0.0 <==> Apply(op, a, b, env) != 0.0)
            && (v == Apply(op, a, b, env) <==> (op.And? || op.Or? ==> IsBit(v)))
  {}

  // ---- which operands a sum or a difference ends up flattening ----

  function Size(n: Node): nat {
    match n
    case Bin(_, _, _, l, r) => 1 + Size(l) + Size(r)
    case Not(_, _, x) => 1 + Size(x)
    case Ternary(_, _, c, l, r) => 1 + Size(c) + Size(l) + Size(r)
    case _ => 1
  }

  function NegativeCount(a: Node, b: Node): nat {
    (if ConstNegative(a) then 1 else 0) + if ConstNegative(b) then 1 else 0
  }

  /** The constant without its sign, with the number of the original. */
  function Abs(n: Node): Node
    requires ConstNegative(n) && n.literal.Number?
  {
    Const(n.id, n.hint, Number(-n.literal.value))
  }

  predicate Fraction(n: Node)
    requires n.Const? && n.literal.Number?
  {
    n.literal.value != n.literal.value.Floor as real
  }

  /** How a sum or difference is rewritten: without looking at terms, by flattening `left` and `right`,
      where `right` stands for `addend`, or not at all. */
  datatype Path = Direct | Flattening(left: Node, addend: Node, right: Node) | Failing(error: Error)

  function SumPath(s0: Node, s1: Node, originals: map<Node, Node>): Path
    decreases Size(s0) + Size(s1), NegativeCount(s0, s1), if ConstNegative(s0) && !ConstNegative(s1) then 1 else 0
  {
    if ConstZero(s0) || ConstZero(s1) then Direct
    else if ConstNegative(s0) && !ConstNegative(s1) then SumPath(s1, s0, originals)
    else if ConstNegative(s1) then
      if s1.literal.Text? then Failing(BadText) else SubPath(s0, Abs(s1), originals)
    else AddendPath(s0, s1, originals)
  }

  /** A fraction added to a pointer is replaced by the operation that made it. */
  function AddendPath(s0: Node, s1: Node, originals: map<Node, Node>): Path {
    if s0.hint.pointer && s1.Const? && s1.literal.Text? then Failing(BadText)
    else if s0.hint.pointer && s1.Const? && Fraction(s1) then
      if s1 in originals then Flattening(s0, s1, originals[s1]) else Failing(MissingOriginal)
    else Flattening(s0, s1, s1)
  }

  function SubPath(s0: Node, s1: Node, originals: map<Node, Node>): Path
    decreases Size(s0) + Size(s1), NegativeCount(s0, s1), 0
  {
    if ConstZero(s0) && s1.Bin? && s1.op.Minus? then SubPath(s1.right, s1.left, originals)
    else if ConstZero(s0) && s1.Bin? && (s1.op.Mul? || s1.op.Div?) then Direct
    else if ConstZero(s1) then Direct
    else if ConstNegative(s1) then
      if s1.literal.Text? then Failing(BadText) else SumPath(s0, Abs(s1), originals)
    else Direct
  }

  /** A number of work groups times a constant is added, in a dimension without a declared size. */
  predicate MissesSize(ts: Terms, sizes: seq<int>) {
    |ts| >= 2 && exists t ::
      t in ts && t.plus && GroupCount(t.item).Some? && Index(GroupCount(t.item).value.0) >= |sizes|
  }

  function PathError(p: Path, sizes: seq<int>): Option<Error> {
    match p
    case Direct => None
    case Failing(e) => Some(e)
    case Flattening(l, _, r) => if MissesSize(Cancel(SumList(l, r), Contents), sizes) then Some(MissingSize) else None
  }

  /** A group id times a constant, in either order: the dimension and the constant. */
  function GroupFactor(s0: Node, s1: Node): Option<(Dim, Literal)> {
    if s0.WorkItem? && s0.work.GroupId? && s1.Const? then Some((s0.work.dim, s1.literal))
    else if s1.WorkItem? && s1.work.GroupId? && s0.Const? then Some((s1.work.dim, s0.literal))
    else None
  }

  predicate MulFails(s0: Node, s1: Node, sizes: seq<int>) {
    && !ConstZero(s0) && !ConstZero(s1) && !ConstOne(s0) && !ConstOne(s1)
    && GroupFactor(s0, s1).Some? && Index(GroupFactor(s0, s1).value.0) >= |sizes|
  }

  lemma QuotientOfProduct(x: real, c: real, d: real)
    requires d != 0.0
    ensures (x * c) / d == x * (c / d)
  {
    var q := c / d;
    assert q * d == c;
    assert x * c == (x * q) * d;
  }

  lemma PlainReads(n: Node, env: Env)
    requires n.Const? && Plain(n)
    ensures Eval(n, env) == Read(n.literal)
  {}

  /** The exception an operation raises, if any. */
  function OperationError(op: Op, s0: Node, s1: Node, w: World, originals: map<Node, Node>): Option<Error> {
    if s0.Const? && s1.Const? then
      var f := Fold(op, Read(s0.literal), Read(s1.literal), w.fold);
      if f.Failed? then Some(f.error) else None
    else match op
      case Plus => PathError(SumPath(s0, s1, originals), w.sizes)
      case Minus => PathError(SubPath(s0, s1, originals), w.sizes)
      case Mul => if MulFails(s0, s1, w.sizes) then Some(MissingSize) else None
      case Div => if ConstZero(s1) then Some(AssertionFailed) else None
      case _ => None
  }

  /** The inverted operation of a comparison is its complement. */
  lemma ComplementIsExact(op: Op, a: real, b: real)
    requires IsCompare(op)
    ensures InverseOf(op).Some? && IsCompare(InverseOf(op).value)
    ensures Compare(InverseOf(op).value, a, b) == !Compare(op, a, b)
  {}

  // ---- guards ----

  /** Logical operators over trees without them. */
  predicate Logical(n: Node) {
    match n
    case Bin(_, _, op, l, r) => if op.And? || op.Or? then Logical(l) && Logical(r) else Arith(n)
    case Not(_, _, x) => Logical(x)
    case _ => Arith(n)
  }

  predicate NoGroupCount(ts: Terms) { forall t | t in ts :: GroupCount(t.item).None? }

  /** The guard of a sum: nothing is subtracted twice beyond its additions, no number of work groups is
      taken for a part of the global size, and what stands for a fraction is worth the fraction. */
  ghost predicate PathSafe(p: Path, w: World) {
    p.Flattening? ==>
      && CoveredTerms(SumList(p.left, p.right)) && NoGroupCount(SumList(p.left, p.right))
      && PairHolds(p.addend, p.right, w)
  }

  /** A constant that spells zero in a text. */
  predicate ZeroText(n: Node) { n.Const? && n.literal.Text? && n.literal.hex == 0 }

  /** When an operation keeps the value, or the truth value for the logical operators. */
  ghost predicate Safe(op: Op, s0: Node, s1: Node, w: World, originals: map<Node, Node>) {
    && Plain(s0) && Plain(s1)
    && (!(s0.Const? && s1.Const?) ==>
          && (op.Plus? ==> PathSafe(SumPath(s0, s1, originals), w))
          && (op.Minus? ==> PathSafe(SubPath(s0, s1, originals), w))
          && (op.And? || op.Or? ==> !ZeroText(s0) && !ZeroText(s1)))
  }

  predicate BitValued(n: Node) {
    || n.Not? || (n.Bin? && (IsCompare(n.op) || n.op.And? || n.op.Or?))
    || (n.Const? && IsBit(Read(n.literal)))
  }

  lemma BitValuedIsBit(n: Node, env: Env)
    requires BitValued(n) && Plain(n)
    ensures IsBit(Eval(n, env))
  {}

  /** When a logical operation keeps the value and not just its truth. */
  predicate Exact(op: Op, s0: Node, s1: Node) {
    if s0.Const? && s1.Const? then
      (op.And? ==> IsBit(if Read(s0.literal) != 0.0 then Read(s1.literal) else 0.0)) &&
      (op.Or? ==> IsBit(if Read(s0.literal) != 0.0 then Read(s0.literal) else Read(s1.literal)))
    else if op.And? && s0.Const? && Truthy(s0.literal) then BitValued(s1)
    else if op.And? && s1.Const? && Truthy(s1.literal) then BitValued(s0)
    else true
  }

  // ---- what an operation keeps ----

  /** `r` is worth what the operation is worth, in every environment of the kernel. */
  ghost predicate Computes(r: Node, op: Op, s0: Node, s1: Node, w: World) {
    forall env: Env | Obeys(env, w) :: Eval(r, env) == Apply(op, Eval(s0, env), Eval(s1, env), env)
  }

  ghost predicate ComputesTruth(r: Node, op: Op, s0: Node, s1: Node, w: World) {
    forall env: Env | Obeys(env, w) :: Eval(r, env) != 0.0 <==> Apply(op, Eval(s0, env), Eval(s1, env), env) != 0.0
  }

  /** The value, or for the logical operators the truth, and then the value too wherever that is exact. */
  ghost predicate Keeps(r: Node, op: Op, s0: Node, s1: Node, w: World) {
    if op.And? || op.Or? then ComputesTruth(r, op, s0, s1, w) && (Exact(op, s0, s1) ==> Computes(r, op, s0, s1, w))
    else Computes(r, op, s0, s1, w)
  }

  lemma KeepsWhenExact(r: Node, op: Op, s0: Node, s1: Node, w: World)
    requires Keeps(r, op, s0, s1, w)
    ensures Exact(op, s0, s1) || !(op.And? || op.Or?) ==> Computes(r, op, s0, s1, w)
  {}

  // ---- the map from optimised nodes to their originals ----

  /** The two trees are worth the same. */
  ghost predicate PairHolds(n: Node, original: Node, w: World) { Plain(n) && Plain(original) && Same(n, original, w) }

  function OriginalOf(n: Node, originals: map<Node, Node>): Node { if n in originals then originals[n] else n }

  /** The entry of `n`, if it has one, is right. */
  ghost predicate EntryHolds(n: Node, originals: map<Node, Node>, w: World) {
    n in originals ==> PairHolds(n, originals[n], w)
  }

  ghost predicate MapHolds(originals: map<Node, Node>, w: World) {
    forall n | n in originals :: PairHolds(n, originals[n], w)
  }

  /** The operation on the originals of its operands. */
  predicate Represents(o: Node, op: Op, s0: Node, s1: Node, hint: Hint, originals: map<Node, Node>) {
    && o.Bin? && o.op == op && o.hint == hint
    && o.left == OriginalOf(s0, originals) && o.right == OriginalOf(s1, originals)
  }

  /** An operation on originals is the original of an operation on optimised nodes. */
  lemma OperationPair(r: Node, op: Op, s0: Node, s1: Node, o: Node, hint: Hint, originals: map<Node, Node>, w: World)
    requires EntryHolds(s0, originals, w) && EntryHolds(s1, originals, w)
    requires Plain(s0) && Plain(s1) && Plain(r) && Computes(r, op, s0, s1, w)
    requires Represents(o, op, s0, s1, hint, originals)
    ensures PairHolds(r, o, w)
  {
    forall env: Env | Obeys(env, w) ensures Eval(r, env) == Eval(o, env) {
      assert Eval(s0, env) == Eval(o.left, env);
      assert Eval(s1, env) == Eval(o.right, env);
    }
  }

  predicate RepresentsTernary(o: Node, c: Node, s0: Node, s1: Node, originals: map<Node, Node>) {
    && o.Ternary? && o.cond == OriginalOf(c, originals)
    && o.left == OriginalOf(s0, originals) && o.right == OriginalOf(s1, originals)
  }

  lemma TernaryPair(r: Node, o: Node, originals: map<Node, Node>, w: World)
    requires r.Ternary? && Plain(r) && RepresentsTernary(o, r.cond, r.left, r.right, originals)
    requires EntryHolds(r.cond, originals, w) && EntryHolds(r.left, originals, w) && EntryHolds(r.right, originals, w)
    ensures PairHolds(r, o, w)
  {
    forall env: Env | Obeys(env, w) ensures Eval(r, env) == Eval(o, env) {
      assert Eval(r.cond, env) == Eval(o.cond, env);
      assert Eval(r.left, env) == Eval(o.left, env);
      assert Eval(r.right, env) == Eval(o.right, env);
    }
  }
}
