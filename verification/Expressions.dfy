/** Expression trees, their meaning, and the tests the optimiser makes on constants. */
module Expressions {
  import opened Options
  import opened Operators
  import opened WorkItems

  datatype Hint = Hint(typeName: string, signed: bool, pointer: bool, globalSpace: bool)

  /** A constant is a number, or text that was kept because it is no decimal number.
      `meaning` is the value the text has in C, `hex` the value of its digits in base 16. */
  datatype Literal = Number(value: real) | Text(meaning: real, hex: int)

  datatype Work =
    | GlobalId(dim: Dim) | GroupId(dim: Dim) | LocalId(dim: Dim) | Offset(dim: Dim)
    | LocalSize(dim: Dim) | GlobalSize(dim: Dim) | NumGroups(dim: Dim) | WorkDim

  /** Nodes are created with different numbers; copies share the number of the original. */
  datatype Node =
    | Const(id: nat, hint: Hint, literal: Literal)
    | Var(id: nat, hint: Hint, name: string)
    | WorkItem(id: nat, hint: Hint, work: Work)
    | Bin(id: nat, hint: Hint, op: Op, left: Node, right: Node)
    | Not(id: nat, hint: Hint, arg: Node)
    | Ternary(id: nat, hint: Hint, cond: Node, left: Node, right: Node)

  /** Equal in everything but the numbers; the condition of a ternary must be equal in these too. */
  predicate ContentsEqual(a: Node, b: Node) {
    match a
    case Const(_, h, c) => b.Const? && b.hint == h && b.literal == c
    case Var(_, h, x) => b.Var? && b.hint == h && b.name == x
    case WorkItem(_, h, w) => b.WorkItem? && b.hint == h && b.work == w
    case Bin(_, h, op, l, r) =>
      b.Bin? && b.hint == h && b.op == op && ContentsEqual(l, b.left) && ContentsEqual(r, b.right)
    case Not(_, h, x) => b.Not? && b.hint == h && ContentsEqual(x, b.arg)
    case Ternary(_, h, c, l, r) =>
      b.Ternary? && b.hint == h && b.cond == c && ContentsEqual(l, b.left) && ContentsEqual(r, b.right)
  }

  /** The tree with its numbers removed, as far as `ContentsEqual` ignores them. */
  function Contents(n: Node): Node {
    match n
    case Const(_, h, c) => Const(0, h, c)
    case Var(_, h, x) => Var(0, h, x)
    case WorkItem(_, h, w) => WorkItem(0, h, w)
    case Bin(_, h, op, l, r) => Bin(0, h, op, Contents(l), Contents(r))
    case Not(_, h, x) => Not(0, h, Contents(x))
    case Ternary(_, h, c, l, r) => Ternary(0, h, c, Contents(l), Contents(r))
  }

  lemma {:induction false} ContentsEqualIsEquality(a: Node, b: Node)
    ensures ContentsEqual(a, b) <==> Contents(a) == Contents(b)
  {
    match a
    case Const(_, _, _) =>
    case Var(_, _, _) =>
    case WorkItem(_, _, _) =>
    case Bin(_, _, _, l, r) => if b.Bin? { ContentsEqualIsEquality(l, b.left); ContentsEqualIsEquality(r, b.right); }
    case Not(_, _, x) => if b.Not? { ContentsEqualIsEquality(x, b.arg); }
    case Ternary(_, _, _, l, r) =>
      if b.Ternary? { ContentsEqualIsEquality(l, b.left); ContentsEqualIsEquality(r, b.right); }
  }

  // ---- constants ----

  /** The value the optimiser reads. */
  function Read(c: Literal): real {
    match c case Number(v) => v case Text(_, h) => h as real
  }

  predicate ConstZero(n: Node) { n.Const? && Read(n.literal) == 0.0 }

  predicate ConstOne(n: Node) { n.Const? && Read(n.literal) == 1.0 }

  predicate ConstNonZero(n: Node) { n.Const? && !ConstZero(n) }

  predicate ConstNegative(n: Node) { n.Const? && n.hint.signed && Read(n.literal) < 0.0 }

  /** Python's truth of the constant as it is stored: a text is true even when it spells zero. */
  predicate Truthy(c: Literal) {
    match c case Number(v) => v != 0.0 case Text(_, _) => true
  }

  // ---- meaning ----

  /** One work item's variables and work-item functions, and what the operators that are not
      interpreted here, and division by zero, give. */
  datatype Env = Env(
    vars: string -> real,
    work: Work -> real,
    other: (Op, real, real) -> real,
    divZero: real -> real)

  function Bit(b: bool): real { if b then 1.0 else 0.0 }

  function Compare(op: Op, a: real, b: real): bool
    requires IsCompare(op)
  {
    match op
    case Eq => a == b
    case Ne => a != b
    case Lt => a < b
    case Le => a <= b
    case Gt => a > b
    case Ge => a >= b
  }

  function Apply(op: Op, a: real, b: real, env: Env): real {
    match op
    case Plus => a + b
    case Minus => a - b
    case Mul => a * b
    case Div => if b == 0.0 then env.divZero(a) else a / b
    case And => Bit(a != 0.0 && b != 0.0)
    case Or => Bit(a != 0.0 || b != 0.0)
    case _ => if IsCompare(op) then Bit(Compare(op, a, b)) else env.other(op, a, b)
  }

  function Eval(n: Node, env: Env): real
    decreases n
  {
    match n
    case Const(_, _, Number(v)) => v
    case Const(_, _, Text(m, _)) => m
    case Var(_, _, x) => env.vars(x)
    case WorkItem(_, _, w) => env.work(w)
    case Bin(_, _, op, l, r) => Apply(op, Eval(l, env), Eval(r, env), env)
    case Not(_, _, x) => Bit(Eval(x, env) == 0.0)
    case Ternary(_, _, c, l, r) => if Eval(c, env) != 0.0 then Eval(l, env) else Eval(r, env)
  }

  lemma {:induction false} ContentsKeepValue(n: Node, env: Env)
    ensures Eval(Contents(n), env) == Eval(n, env)
  {
    match n
    case Const(_, _, _) =>
    case Var(_, _, _) =>
    case WorkItem(_, _, _) =>
    case Bin(_, _, _, l, r) => ContentsKeepValue(l, env); ContentsKeepValue(r, env);
    case Not(_, _, x) => ContentsKeepValue(x, env);
    case Ternary(_, _, _, l, r) => ContentsKeepValue(l, env); ContentsKeepValue(r, env);
  }

  // ---- sorts of trees ----

  /** Sorts of trees that are told by their leaves and operators alone. */
  datatype Sort =
    | PlainTree    // every text spells the number that its base-16 reading gives
    | NeatTree     // plain, without texts that spell zero
    | NaturalTree  // neat, of natural constants, without differences, quotients and numbers of work groups
    | RingTree     // sums, differences and products of integers
    | ArithTree    // without logical operators

  predicate Integral(v: real) { v == v.Floor as real }

  predicate ConstOf(c: Literal, s: Sort) {
    match s
    case ArithTree => true
    case RingTree => if c.Text? then c.meaning == c.hex as real else Integral(c.value)
    case _ =>
      && (c.Text? ==> c.meaning == c.hex as real)
      && (!s.PlainTree? && c.Text? ==> c.hex != 0)
      && (s.NaturalTree? ==> Integral(Read(c)) && Read(c) >= 0.0)
  }

  predicate WorkOf(w: Work, s: Sort) { s.NaturalTree? ==> !w.NumGroups? }

  predicate OpOf(op: Op, s: Sort) {
    match s
    case RingTree => op.Plus? || op.Minus? || op.Mul?
    case NaturalTree => !op.Minus? && !op.Div?
    case ArithTree => !op.And? && !op.Or?
    case _ => true
  }

  predicate Of(n: Node, s: Sort) {
    match n
    case Const(_, _, c) => ConstOf(c, s)
    case Var(_, _, _) => true
    case WorkItem(_, _, w) => WorkOf(w, s)
    case Bin(_, _, op, l, r) => OpOf(op, s) && Of(l, s) && Of(r, s)
    case Not(_, _, x) => !s.RingTree? && !s.ArithTree? && Of(x, s)
    case Ternary(_, _, c, l, r) => !s.RingTree? && Of(c, s) && Of(l, s) && Of(r, s)
  }

  predicate Plain(n: Node) { Of(n, PlainTree) }

  predicate Neat(n: Node) { Of(n, NeatTree) }

  predicate Natural(n: Node) { Of(n, NaturalTree) }

  predicate Ring(n: Node) { Of(n, RingTree) }

  predicate Arith(n: Node) { Of(n, ArithTree) }

  lemma {:induction false} NaturalIsNeat(n: Node)
    ensures Natural(n) ==> Neat(n)
    ensures Neat(n) ==> Plain(n)
    ensures Ring(n) ==> Plain(n)
  {
    match n
    case Const(_, _, _) =>
    case Var(_, _, _) =>
    case WorkItem(_, _, _) =>
    case Bin(_, _, _, l, r) =>
      NaturalIsNeat(l);
      NaturalIsNeat(r);
    case Not(_, _, x) => NaturalIsNeat(x);
    case Ternary(_, _, c, l, r) =>
      NaturalIsNeat(c);
      NaturalIsNeat(l);
      NaturalIsNeat(r);
  }

  // ---- the environments of a kernel ----

  /** The declared work-group size, how the optimiser folds the operators not interpreted here
      (None where folding raises an exception), and the common type of two operands. */
  datatype World = World(sizes: seq<int>, fold: (Op, real, real) -> Option<real>, common: (Hint, Hint) -> Hint)

  /** Section 3.2 of OpenCL 1.2, for one dimension. */
  predicate GlobalIdLaw(env: Env, d: Dim) {
    env.work(GlobalId(d))
    == env.work(GroupId(d)) * env.work(LocalSize(d)) + env.work(LocalId(d)) + env.work(Offset(d))
  }

  predicate DeclaredSize(env: Env, w: World, d: Dim) {
    Index(d) < |w.sizes| ==> env.work(LocalSize(d)) == w.sizes[Index(d)] as real
  }

  predicate Interpreted(op: Op) {
    op.Plus? || op.Minus? || op.Mul? || op.Div? || op.And? || op.Or? || IsCompare(op)
  }

  ghost predicate FoldsLike(env: Env, w: World) {
    forall op: Op, a: real, b: real | !Interpreted(op) && w.fold(op, a, b).Some? ::
      env.other(op, a, b) == w.fold(op, a, b).value
  }

  ghost predicate Obeys(env: Env, w: World) {
    && (forall d: Dim :: GlobalIdLaw(env, d) && DeclaredSize(env, w, d))
    && FoldsLike(env, w)
  }

  /** The same value in every environment of the kernel. */
  ghost predicate Same(a: Node, b: Node, w: World) {
    forall env: Env | Obeys(env, w) :: Eval(a, env) == Eval(b, env)
  }
}
