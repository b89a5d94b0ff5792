/** Sums, differences and products on machine words: what keeps the value over the rationals also
    keeps it modulo any word size. */
module RingWords {
  import opened Operators
  import opened Arithmetic
  import opened Expressions
  import opened OptimiserGuards
  import opened OptimiserResults
  import opened OptimiserValues
  import opened WorkItems

  /** Integer contents of the variables and work-item functions. */
  datatype Words = Words(vars: string -> int, work: Work -> int)

  function ConstValue(c: Literal): int { match c case Number(v) => v.Floor case Text(_, h) => h }

  function RingApply(op: Op, a: int, b: int): int { if op.Plus? then a + b else if op.Minus? then a - b else a * b }

  function EvalInt(n: Node, e: Words): int
    requires Ring(n)
  {
    match n
    case Const(_, _, c) => ConstValue(c)
    case Var(_, _, x) => e.vars(x)
    case WorkItem(_, _, w) => e.work(w)
    case Bin(_, _, op, l, r) => RingApply(op, EvalInt(l, e), EvalInt(r, e))
  }

  /** Every intermediate result is reduced modulo `m`. */
  function EvalWord(n: Node, e: Words, m: int): int
    requires Ring(n) && m > 0
  {
    match n
    case Const(_, _, c) => ConstValue(c) % m
    case Var(_, _, x) => e.vars(x) % m
    case WorkItem(_, _, w) => e.work(w) % m
    case Bin(_, _, op, l, r) => RingApply(op, EvalWord(l, e, m), EvalWord(r, e, m)) % m
  }

  predicate Congruent(a: int, b: int, m: int)
    requires m > 0
  {
    a % m == b % m
  }

  /** The laws of a kernel, modulo the word size. */
  predicate ObeysWords(e: Words, w: World, m: int)
    requires m > 0
  {
    && (forall d: Dim :: Congruent(e.work(GlobalId(d)), GlobalIdOf(e, w, d), m))
    && (forall d: Dim | Index(d) < |w.sizes| :: Congruent(e.work(LocalSize(d)), w.sizes[Index(d)], m))
  }

  function LocalSizeOf(e: Words, w: World, d: Dim): int {
    if Index(d) < |w.sizes| then w.sizes[Index(d)] else e.work(LocalSize(d))
  }

  function GlobalIdOf(e: Words, w: World, d: Dim): int {
    e.work(GroupId(d)) * LocalSizeOf(e, w, d) + e.work(LocalId(d)) + e.work(Offset(d))
  }

  /** Operands may be reduced before the operation. */
  lemma ReducedOperands(op: Op, a: int, b: int, m: int)
    requires m > 0
    ensures RingApply(op, a % m, b % m) % m == RingApply(op, a, b) % m
  {
    if op.Plus? {
      ReducedSum(a, b, m);
    } else if op.Minus? {
      ReducedDifference(a, b, m);
    } else {
      ReducedProduct(a, b, m);
    }
  }

  lemma {:induction false} WordIsIntModulo(n: Node, e: Words, m: int)
    requires Ring(n) && m > 0
    ensures EvalWord(n, e, m) == EvalInt(n, e) % m
  {
    if n.Bin? {
      WordIsIntModulo(n.left, e, m);
      WordIsIntModulo(n.right, e, m);
      ReducedOperands(n.op, EvalInt(n.left, e), EvalInt(n.right, e), m);
    }
  }

  // ---- lifting words to an environment of the kernel ----

  /** The same words modulo `m`, for which the laws of the kernel hold exactly. */
  function Lifted(e: Words, w: World): Words {
    Words(e.vars, (f: Work) =>
      if f.GlobalId? then GlobalIdOf(e, w, f.dim) else if f.LocalSize? then LocalSizeOf(e, w, f.dim) else e.work(f))
  }

  lemma {:induction false} LiftingKeepsWords(n: Node, e: Words, w: World, m: int)
    requires Ring(n) && m > 0 && ObeysWords(e, w, m)
    ensures EvalWord(n, Lifted(e, w), m) == EvalWord(n, e, m)
  {
    if n.Bin? {
      LiftingKeepsWords(n.left, e, w, m);
      LiftingKeepsWords(n.right, e, w, m);
    }
  }

  function AsReals(e: Words, w: World): Env {
    Env((x: string) => e.vars(x) as real, (f: Work) => e.work(f) as real,
        (op: Op, a: real, b: real) => if w.fold(op, a, b).Some? then w.fold(op, a, b).value else 0.0, (a: real) => 0.0)
  }

  lemma LiftedObeys(e: Words, w: World)
    ensures Obeys(AsReals(Lifted(e, w), w), w)
  {
    var env := AsReals(Lifted(e, w), w);
    forall d: Dim ensures GlobalIdLaw(env, d) && DeclaredSize(env, w, d) {
      IntegerProduct(e.work(GroupId(d)), LocalSizeOf(e, w, d));
      assert env.work(GlobalId(d)) == GlobalIdOf(e, w, d) as real;
    }
  }

  lemma {:induction false} RealIsInt(n: Node, e: Words, w: World)
    requires Ring(n)
    ensures Eval(n, AsReals(e, w)) == EvalInt(n, e) as real
  {
    if n.Bin? {
      RealIsInt(n.left, e, w);
      RealIsInt(n.right, e, w);
      IntegerProduct(EvalInt(n.left, e), EvalInt(n.right, e));
    }
  }

  predicate RingOperation(op: Op, s0: Node, s1: Node) { OpOf(op, RingTree) && Ring(s0) && Ring(s1) }

  /** An optimised sum, difference or product of integer trees without divisions has, for every word
      size, the value of the operation on words. */
  lemma OptimisedKeepsWords(op: Op, s0: Node, s1: Node, w: World, mem: Memory, e: Words, m: int)
    requires RingOperation(op, s0, s1) && Safe(op, s0, s1, w, mem.originals)
    requires m > 0 && ObeysWords(e, w, m)
    ensures var r := OperationResult(op, s0, s1, w, mem).0;
            r.Done? ==>
              && Ring(r.node)
              && EvalWord(r.node, e, m) == RingApply(op, EvalWord(s0, e, m), EvalWord(s1, e, m)) % m
  {
    var r := OperationResult(op, s0, s1, w, mem).0;
    if r.Done? {
      OperationOf(op, s0, s1, w, mem, RingTree);
      OperationKeeps(op, s0, s1, w, mem);
      KeepsWhenExact(r.node, op, s0, s1, w);
      OperationKeepsWords(r.node, op, s0, s1, w, e, m);
    }
  }

  /** A node that computes such an operation has, for every word
      size, the value of the operation on words. */
  lemma OperationKeepsWords(r: Node, op: Op, s0: Node, s1: Node, w: World, e: Words, m: int)
    requires RingOperation(op, s0, s1) && Ring(r) && Computes(r, op, s0, s1, w)
    requires m > 0 && ObeysWords(e, w, m)
    ensures EvalWord(r, e, m) == RingApply(op, EvalWord(s0, e, m), EvalWord(s1, e, m)) % m
  {
    var l := Lifted(e, w);
    var a, b := EvalInt(s0, l), EvalInt(s1, l);
    LiftingKeepsWords(r, e, w, m);
    LiftingKeepsWords(s0, e, w, m);
    LiftingKeepsWords(s1, e, w, m);
    WordIsIntModulo(r, l, m);
    WordIsIntModulo(s0, l, m);
    WordIsIntModulo(s1, l, m);
    assert EvalInt(r, l) == RingApply(op, a, b) by { ComputesOnIntegers(r, op, s0, s1, w, e); }
    ReducedOperands(op, a, b, m);
  }

  lemma ComputesOnIntegers(r: Node, op: Op, s0: Node, s1: Node, w: World, e: Words)
    requires RingOperation(op, s0, s1) && Ring(r) && Computes(r, op, s0, s1, w)
    ensures EvalInt(r, Lifted(e, w)) == RingApply(op, EvalInt(s0, Lifted(e, w)), EvalInt(s1, Lifted(e, w)))
  {
    var l := Lifted(e, w);
    var env, a, b, c := AsReals(l, w), EvalInt(s0, l), EvalInt(s1, l), EvalInt(r, l);
    LiftedObeys(e, w);
    RealIsInt(r, l, w);
    RealIsInt(s0, l, w);
    RealIsInt(s1, l, w);
    assert c as real == Apply(op, a as real, b as real, env);
    ApplyOnIntegers(op, a, b, c, env);
  }

  lemma ApplyOnIntegers(op: Op, a: int, b: int, c: int, env: Env)
    requires (op.Plus? || op.Minus? || op.Mul?) && c as real == Apply(op, a as real, b as real, env)
    ensures c == RingApply(op, a, b)
  {
    IntegerProduct(a, b);
  }
}
