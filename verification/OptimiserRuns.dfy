/** What sequences of calls and whole rebuilt trees keep. */
module OptimiserRuns {
  import opened Operators
  import opened Expressions
  import opened OptimiserGuards
  import opened OptimiserResults
  import opened OptimiserValues

  // ---- the map of originals ----

  datatype Call =
    | Operation(op: Op, s0: Node, s1: Node)
    | Negation(arg: Node)
    | Choice(cond: Node, s0: Node, s1: Node)

  /** The node a call returns, if any, and the memory it leaves. */
  function Called(c: Call, w: World, m: Memory): (Outcome, Memory) {
    match c
    case Operation(op, s0, s1) => Added(op, s0, s1, w, m)
    case Negation(n) => var (r, k) := Negated(n, m); (Done(r), k)
    case Choice(n, s0, s1) => var (r, k) := Chosen(n, s0, s1, w, m); (Done(r), k)
  }

  /** When a call makes a right entry: it is guarded, keeps the value, and its operands' entries are right. */
  ghost predicate Guarded(c: Call, w: World, m: Memory) {
    match c
    case Operation(op, s0, s1) =>
      && Safe(op, s0, s1, w, m.originals) && (op.And? || op.Or? ==> Exact(op, s0, s1))
      && EntryHolds(s0, m.originals, w) && EntryHolds(s1, m.originals, w)
    case Negation(n) => Plain(n) && (n.Not? ==> BitValued(n.arg))
    case Choice(n, s0, s1) =>
      && Plain(n) && Plain(s0) && Plain(s1)
      && EntryHolds(n, m.originals, w) && EntryHolds(s0, m.originals, w) && EntryHolds(s1, m.originals, w)
  }

  lemma AddedEntry(op: Op, s0: Node, s1: Node, w: World, m: Memory)
    requires Guarded(Operation(op, s0, s1), w, m)
    ensures var (r, k) := Added(op, s0, s1, w, m);
            r.Done? ==> r.node in k.originals && PairHolds(r.node, k.originals[r.node], w)
  {
    var (r, next) := OperationResult(op, s0, s1, w, m);
    if r.Done? {
      OperationKeeps(op, s0, s1, w, m);
      OperationIsPlain(op, s0, s1, w, m);
      KeepsWhenExact(r.node, op, s0, s1, w);
      var hint := OperationHint(s0, s1, w);
      var o := Registered(r.node, op, s0, s1, hint, m.(next := next)).originals[r.node];
      OperationPair(r.node, op, s0, s1, o, hint, m.originals, w);
    }
  }

  lemma NegatedEntry(n: Node, w: World, m: Memory)
    requires Guarded(Negation(n), w, m)
    ensures var r := NegationOf(n, m.next); r.Some? ==> forall id, h :: PairHolds(r.value, Not(id, h, n), w)
  {
    var r := NegationOf(n, m.next);
    if r.Some? {
      forall id, h ensures PairHolds(r.value, Not(id, h, n), w) {
        forall env: Env | Obeys(env, w) ensures Eval(r.value, env) == Eval(Not(id, h, n), env) {
          NegationKeepsExactly(n, m.next, env);
          if n.Not? { BitValuedIsBit(n.arg, env); }
        }
      }
    }
  }

  /** A call changes the entry of the node it returns and no other, and a guarded one makes it right. */
  lemma CallEntries(c: Call, w: World, m: Memory)
    ensures var (r, k) := Called(c, w, m);
            && (forall n | r != Done(n) :: (n in k.originals <==> n in m.originals) &&
                                           (n in m.originals ==> k.originals[n] == m.originals[n]))
            && (r.Done? && Guarded(c, w, m) ==>
                  r.node in k.originals && k.originals != m.originals ==> PairHolds(r.node, k.originals[r.node], w))
  {
    if Guarded(c, w, m) {
      match c
      case Operation(op, s0, s1) => AddedEntry(op, s0, s1, w, m);
      case Negation(n) => NegatedEntry(n, w, m);
      case Choice(n, s0, s1) =>
        var (r, k) := Chosen(n, s0, s1, w, m);
        TernaryPair(r, k.originals[r], m.originals, w);
    }
  }

  lemma CallKeepsMap(c: Call, w: World, m: Memory)
    requires MapHolds(m.originals, w) && Guarded(c, w, m)
    ensures MapHolds(Called(c, w, m).1.originals, w)
  {
    var (r, k) := Called(c, w, m);
    CallEntries(c, w, m);
    forall n | n in k.originals ensures PairHolds(n, k.originals[n], w) {
      if r != Done(n) || k.originals == m.originals { assert PairHolds(n, m.originals[n], w); }
    }
  }

  /** The memory after a sequence of calls. */
  function AfterCalls(calls: seq<Call>, w: World, m: Memory): Memory {
    if calls == [] then m else AfterCalls(calls[1..], w, Called(calls[0], w, m).1)
  }

  ghost predicate AllGuarded(calls: seq<Call>, w: World, m: Memory) {
    calls != [] ==> Guarded(calls[0], w, m) && AllGuarded(calls[1..], w, Called(calls[0], w, m).1)
  }

  /** After any sequence of guarded calls, every entry pairs two trees of equal value. */
  lemma {:induction false} CallsKeepMap(calls: seq<Call>, w: World, m: Memory)
    requires MapHolds(m.originals, w) && AllGuarded(calls, w, m)
    ensures MapHolds(AfterCalls(calls, w, m).originals, w)
    decreases calls
  {
    if calls == [] {
    } else {
      CallKeepsMap(calls[0], w, m);
      CallsKeepMap(calls[1..], w, Called(calls[0], w, m).1);
    }
  }

  /** After a sequence of calls, guarded or not: whether the last one that made the entry of `n` was guarded. */
  ghost predicate RightAfter(n: Node, calls: seq<Call>, w: World, m: Memory, right: bool)
    decreases calls
  {
    if calls == [] then right
    else
      var (r, k) := Called(calls[0], w, m);
      var now := if r == Done(n) && k.originals != m.originals then Guarded(calls[0], w, m) else right;
      RightAfter(n, calls[1..], w, k, now)
  }

  /** An entry stays right whatever is done to others. */
  lemma {:induction false} CallsKeepEntry(n: Node, calls: seq<Call>, w: World, m: Memory, right: bool)
    requires right ==> EntryHolds(n, m.originals, w)
    requires RightAfter(n, calls, w, m, right)
    ensures EntryHolds(n, AfterCalls(calls, w, m).originals, w)
    decreases calls
  {
    if calls == [] {
    } else {
      var (r, k) := Called(calls[0], w, m);
      var now := if r == Done(n) && k.originals != m.originals then Guarded(calls[0], w, m) else right;
      CallEntries(calls[0], w, m);
      CallsKeepEntry(n, calls[1..], w, k, now);
    }
  }

  // ---- rebuilt trees ----

  /** Every operation met when `n` is rebuilt is within its guard. */
  ghost predicate SafeRun(n: Node, w: World, m: Memory) {
    match n
    case Bin(_, _, op, l, r) =>
      var (a, k) := Rebuilt(l, w, m);
      var (b, j) := Rebuilt(r, w, k);
      SafeRun(l, w, m) && (a.Done? ==> SafeRun(r, w, k) && (b.Done? ==> Safe(op, a.node, b.node, w, j.originals)))
    case _ => Plain(n)
  }

  /** No logical operation met when `n` is rebuilt trades a value for its truth. */
  predicate ExactRun(n: Node, w: World, m: Memory) {
    match n
    case Not(_, _, x) => x.Not? ==> BitValued(x.arg)
    case Bin(_, _, op, l, r) =>
      var (a, k) := Rebuilt(l, w, m);
      var (b, j) := Rebuilt(r, w, k);
      ExactRun(l, w, m) && (a.Done? ==> ExactRun(r, w, k) && (b.Done? ==> Exact(op, a.node, b.node)))
    case _ => true
  }

  ghost predicate SameTruth(a: Node, b: Node, w: World) {
    forall env: Env | Obeys(env, w) :: Eval(a, env) != 0.0 <==> Eval(b, env) != 0.0
  }

  /** The result of rebuilding `n`: the same value if `n` has no logical operators or none was
      traded for its truth, the same truth if the logical operators are outermost. */
  ghost predicate Agrees(r: Node, n: Node, w: World, exact: bool) {
    && Plain(r)
    && (exact || Arith(n) ==> Same(r, n, w))
    && (Logical(n) ==> SameTruth(r, n, w))
  }

  lemma SameOperands(r: Node, n: Node, a: Node, b: Node, w: World)
    requires n.Bin? && Same(a, n.left, w) && Same(b, n.right, w) && Computes(r, n.op, a, b, w)
    ensures Same(r, n, w)
  {
    forall env: Env | Obeys(env, w) ensures Eval(r, env) == Eval(n, env) {
      assert Eval(a, env) == Eval(n.left, env) && Eval(b, env) == Eval(n.right, env);
    }
  }

  lemma SameTruthOperands(r: Node, n: Node, a: Node, b: Node, w: World)
    requires n.Bin? && (n.op.And? || n.op.Or?)
    requires SameTruth(a, n.left, w) && SameTruth(b, n.right, w) && ComputesTruth(r, n.op, a, b, w)
    ensures SameTruth(r, n, w)
  {
    forall env: Env | Obeys(env, w) ensures Eval(r, env) != 0.0 <==> Eval(n, env) != 0.0 {
      assert Eval(a, env) != 0.0 <==> Eval(n.left, env) != 0.0;
      assert Eval(b, env) != 0.0 <==> Eval(n.right, env) != 0.0;
    }
  }

  lemma OperationAgrees(r: Node, n: Node, a: Node, b: Node, w: World, exactA: bool, exactB: bool, exact: bool)
    requires n.Bin? && Plain(r) && Agrees(a, n.left, w, exactA) && Agrees(b, n.right, w, exactB)
    requires Keeps(r, n.op, a, b, w) && (exact ==> exactA && exactB && Exact(n.op, a, b))
    ensures Agrees(r, n, w, exact)
  {
    KeepsWhenExact(r, n.op, a, b, w);
    if exact || Arith(n) { SameOperands(r, n, a, b, w); }
    if Logical(n) {
      if n.op.And? || n.op.Or? { SameTruthOperands(r, n, a, b, w); } else { SameIsSameTruth(r, n, w); }
    }
  }

  lemma SameIsSameTruth(r: Node, n: Node, w: World)
    requires Same(r, n, w)
    ensures SameTruth(r, n, w)
  {}

  lemma NegationAgrees(n: Node, w: World, m: Memory)
    requires n.Not? && Plain(n)
    ensures Agrees(Negated(n.arg, m).0, n, w, n.arg.Not? ==> BitValued(n.arg.arg))
  {
    var x, r := n.arg, Negated(n.arg, m).0;
    NegatedOf(x, m, PlainTree);
    forall env: Env
      ensures Eval(r, env) != 0.0 <==> Eval(n, env) != 0.0
      ensures (x.Not? ==> BitValued(x.arg)) ==> Eval(r, env) == Eval(n, env)
    {
      NegationValue(x, w, m, env);
    }
  }

  lemma NegatedOf(x: Node, m: Memory, s: Sort)
    requires Of(x, s) && !s.RingTree? && !s.ArithTree?
    ensures Of(Negated(x, m).0, s)
  {}

  lemma NegationValue(x: Node, w: World, m: Memory, env: Env)
    requires Plain(x)
    ensures Eval(Negated(x, m).0, env) != 0.0 <==> Eval(x, env) == 0.0
    ensures (x.Not? ==> BitValued(x.arg)) ==> Eval(Negated(x, m).0, env) == Bit(Eval(x, env) == 0.0)
  {
    if NegationOf(x, m.next).Some? {
      NegationKeepsExactly(x, m.next, env);
      if x.Not? && BitValued(x.arg) { BitValuedIsBit(x.arg, env); }
    }
  }

  /** A rebuilt tree agrees with the tree, if every operation met was within its guard. */
  lemma {:induction false} RebuiltAgrees(n: Node, w: World, m: Memory)
    requires SafeRun(n, w, m)
    ensures var r := Rebuilt(n, w, m).0; r.Done? ==> Agrees(r.node, n, w, ExactRun(n, w, m))
    decreases n
  {
    if n.Not? {
      NegationAgrees(n, w, m);
    } else if n.Bin? {
      var (a, k) := Rebuilt(n.left, w, m);
      RebuiltAgrees(n.left, w, m);
      if a.Done? {
        var (b, j) := Rebuilt(n.right, w, k);
        RebuiltAgrees(n.right, w, k);
        if b.Done? { BinAgrees(n, a.node, b.node, w, j, ExactRun(n.left, w, m), ExactRun(n.right, w, k)); }
      }
    }
  }

  lemma BinAgrees(n: Node, a: Node, b: Node, w: World, m: Memory, exactA: bool, exactB: bool)
    requires n.Bin? && Agrees(a, n.left, w, exactA) && Agrees(b, n.right, w, exactB)
    requires Safe(n.op, a, b, w, m.originals)
    ensures var r := Added(n.op, a, b, w, m).0; r.Done? ==> Agrees(r.node, n, w, exactA && exactB && Exact(n.op, a, b))
  {
    var r := OperationResult(n.op, a, b, w, m).0;
    if r.Done? {
      OperationKeeps(n.op, a, b, w, m);
      OperationIsPlain(n.op, a, b, w, m);
      OperationAgrees(r.node, n, a, b, w, exactA, exactB, exactA && exactB && Exact(n.op, a, b));
    }
  }

  /** And a right map stays right, if moreover no value was traded for its truth. */
  lemma {:induction false} RebuiltKeepsMap(n: Node, w: World, m: Memory)
    requires MapHolds(m.originals, w) && SafeRun(n, w, m) && ExactRun(n, w, m)
    ensures MapHolds(Rebuilt(n, w, m).1.originals, w)
    decreases n
  {
    if n.Not? {
      CallKeepsMap(Negation(n.arg), w, m);
    } else if n.Bin? {
      var (a, k) := Rebuilt(n.left, w, m);
      RebuiltKeepsMap(n.left, w, m);
      if a.Done? {
        var (b, j) := Rebuilt(n.right, w, k);
        RebuiltKeepsMap(n.right, w, k);
        if b.Done? { CallKeepsMap(Operation(n.op, a.node, b.node), w, j); }
      }
    }
  }
}
