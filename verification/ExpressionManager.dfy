/** The manager as it runs: it creates nodes, and remembers for each node it returns what it stands for. */
module ExpressionManager {
  import opened Options
  import opened Operators
  import opened Cancellation
  import opened Expressions
  import opened SumTerms
  import opened OptimiserGuards
  import opened OptimiserResults
  import opened OptimiserValues
  import opened OptimiserRuns
  import opened TameTrees
  import opened Replacement
  import opened WorkItems

  /** The entry of a product that was registered on the way is overwritten. */
  lemma RegisteredOnce(r: Node, op: Op, s0: Node, s1: Node, hint: Hint, m: Memory, k: Memory)
    requires k.next == m.next
    requires k.originals == m.originals
          || (r.Bin? && GroupFactor(s0, s1).Some? && r in k.originals
              && k.originals == m.originals[r := k.originals[r]])
    ensures Registered(r, op, s0, s1, hint, k) == Registered(r, op, s0, s1, hint, m)
  {}

  class Manager {
    const fold: (Op, real, real) -> Option<real>
    const common: (Hint, Hint) -> Hint
    var sizes: seq<int>
    var nodes: seq<Node>
    var originals: map<Node, Node>
    var nextId: nat

    constructor (fold: (Op, real, real) -> Option<real>, common: (Hint, Hint) -> Hint)
      ensures this.fold == fold && this.common == common
      ensures sizes == [] && nodes == [] && Remembered() == Memory(map[], 0)
    {
      this.fold, this.common := fold, common;
      sizes, nodes, originals, nextId := [], [], map[], 0;
    }

    ghost function Kernel(): World
      reads this`sizes
    {
      World(sizes, fold, common)
    }

    ghost function Remembered(): Memory
      reads this`originals, this`nextId
    {
      Memory(originals, nextId)
    }

    /** A new kernel, about which nothing is known yet. */
    method Reset()
      modifies this
      ensures sizes == [] && nodes == [] && originals == map[] && nextId == old(nextId)
    {
      nodes, originals, sizes := [], map[], [];
    }

    method SetSizeOfWorkgroups(sizes: seq<int>)
      modifies this`sizes
      ensures this.sizes == sizes
    {
      this.sizes := sizes;
    }

    // ---- nodes ----

    method AddConst(c: Literal, hint: Hint) returns (n: Node)
      modifies this`nodes, this`nextId
      ensures n == Const(old(nextId), hint, c) && nextId == old(nextId) + 1 && nodes == old(nodes) + [n]
    {
      n := Const(nextId, hint, c);
      nextId, nodes := nextId + 1, nodes + [n];
    }

    method AddWorkItem(work: Work) returns (n: Node)
      modifies this`nodes, this`nextId
      ensures n == WorkItem(old(nextId), UINT, work) && nextId == old(nextId) + 1 && nodes == old(nodes) + [n]
    {
      n := WorkItem(nextId, UINT, work);
      nextId, nodes := nextId + 1, nodes + [n];
    }

    /** A node that is not registered. */
    method NewOperation(op: Op, left: Node, right: Node, hint: Hint) returns (n: Node)
      modifies this`nextId
      ensures n == Bin(old(nextId), hint, op, left, right) && nextId == old(nextId) + 1
    {
      n := Bin(nextId, hint, op, left, right);
      nextId := nextId + 1;
    }

    // ---- sums ----

    /** Negative terms remove the first kept term with equal contents, or else are kept. */
    method CancelTerms(ts: Terms) returns (kept: Terms)
      ensures kept == Cancel(ts, Contents)
    {
      kept := Positive(ts);
      var n := 0;
      while n < |ts|
        invariant n <= |ts|
        invariant CancelRest(kept, Contents, ts[n..]) == Cancel(ts, Contents)
      {
        assert ts[n..][0] == ts[n] && ts[n..][1..] == ts[n + 1..];
        if !ts[n].plus {
          var i := FirstEqual(kept, ts[n].item);
          kept := if i < |kept| then RemoveAt(kept, i) else kept + [ts[n]];
        }
        n := n + 1;
      }
    }

    /** The inner search, which compares contents node by node. */
    method FirstEqual(kept: Terms, n: Node) returns (i: nat)
      ensures i == FirstWith(kept, Contents, Contents(n))
    {
      i := 0;
      while i < |kept| && !ContentsEqual(n, kept[i].item)
        invariant i <= |kept|
        invariant FirstWith(kept, Contents, Contents(n)) == i + FirstWith(kept[i..], Contents, Contents(n))
      {
        ContentsEqualIsEquality(n, kept[i].item);
        assert kept[i..][0] == kept[i] && kept[i..][1..] == kept[i + 1..];
        i := i + 1;
      }
      if i < |kept| { ContentsEqualIsEquality(n, kept[i].item); }
    }

    /** Replaces offset + group id * local size + local id by the global id, as often as possible. */
    method FoldGlobalIds(ts: Terms, d: Dim) returns (result: Terms)
      modifies this`nodes, this`nextId
      ensures (result, nextId) == GlobalIds(ts, d, old(nextId))
    {
      result := ts;
      var l, o, g := Select(ts, LocalPart, d), Select(ts, OffsetPart, d), Select(ts, GroupPart, d);
      while |l| > 0 && |o| > 0 && |g| > 0
        invariant Selects(result, d, l, o, g)
        invariant GlobalIds(result, d, nextId) == GlobalIds(ts, d, old(nextId))
        decreases |l|
      {
        var n := AddWorkItem(GlobalId(d));
        FoldRound(result, l, o, g, n, d);
        result := Drop(Drop(Drop(result, l[0]), o[0]), g[0]) + [Term(n, true)];
        l, o, g := l[1..], o[1..], g[1..];
      }
    }

    /** Replaces group count * size + group id * local size by the global size, as often as possible. */
    method FoldGlobalSizes(ts: Terms, d: Dim, size: int) returns (result: Terms)
      modifies this`nodes, this`nextId
      ensures (result, nextId) == GlobalSizes(ts, d, size, old(nextId))
    {
      result := ts;
      var c, g := Select(ts, CountPart(size), d), Select(ts, GroupPart, d);
      while |c| > 0 && |g| > 0
        invariant c == Select(result, CountPart(size), d) && g == Select(result, GroupPart, d)
        invariant GlobalSizes(result, d, size, nextId) == GlobalSizes(ts, d, size, old(nextId))
        decreases |c|
      {
        var n := AddWorkItem(GlobalSize(d));
        SizeRound(result, c, g, n, d, size);
        result := Drop(Drop(result, c[0]), g[0]) + [Term(n, true)];
        c, g := c[1..], g[1..];
      }
    }

    method FoldDimension(ts: Terms, d: Dim) returns (result: Terms)
      modifies this`nodes, this`nextId
      ensures (result, nextId) == InDimension(ts, d, sizes, old(nextId))
    {
      result := FoldGlobalIds(ts, d);
      if Index(d) < |sizes| { result := FoldGlobalSizes(result, d, sizes[Index(d)]); }
    }

    method FoldDimensions(ts: Terms) returns (result: Terms)
      modifies this`nodes, this`nextId
      ensures (result, nextId) == InDimensions(ts, sizes, old(nextId))
    {
      result := FoldDimension(ts, X);
      result := FoldDimension(result, Y);
      result := FoldDimension(result, Z);
    }

    /** Moves a positive term to the front, or puts a zero there. */
    method PutPositiveFirst(ts: Terms) returns (result: Terms)
      requires ts != []
      modifies this`nodes, this`nextId
      ensures (result, nextId) == PositiveFirst(ts, old(nextId))
    {
      if ts[0].plus { return ts; }
      var i := 1;
      assert ts[1..] == ts[i..];
      while i < |ts| && !ts[i].plus
        invariant 1 <= i <= |ts| && FirstPositive(ts) == i + FirstPositive(ts[i..])
      {
        assert ts[i..][0] == ts[i] && ts[i..][1..] == ts[i + 1..];
        i := i + 1;
      }
      if i < |ts| {
        result := ts[0 := ts[i]][i := ts[0]];
      } else {
        var zero := AddConst(Number(0.0), UINT);
        result := [Term(zero, true)] + ts;
      }
    }

    /** The left-leaning tree of the terms; zero constants after the first are skipped. */
    method BuildSum(ts: Terms, hint: Hint) returns (cur: Node)
      requires ts != []
      modifies this`nextId
      ensures (cur, nextId) == SumTree(ts[0].item, ts[1..], hint, old(nextId))
    {
      cur := ts[0].item;
      var k := 1;
      while k < |ts|
        invariant 1 <= k <= |ts|
        invariant SumTree(cur, ts[k..], hint, nextId) == SumTree(ts[0].item, ts[1..], hint, old(nextId))
      {
        assert ts[k..][0] == ts[k] && ts[k..][1..] == ts[k + 1..];
        if !ConstZero(ts[k].item) {
          cur := NewOperation(if ts[k].plus then Plus else Minus, cur, ts[k].item, hint);
        }
        k := k + 1;
      }
    }

    /** The optimised sum, or the plain sum if no term is left. */
    method ParseAndOptimizeSum(left: Node, right: Node, hint: Hint) returns (r: Outcome)
      modifies this`nodes, this`nextId
      ensures (r, nextId) == Flattened(left, right, hint, sizes, old(nextId))
    {
      var kept := CancelTerms(SumList(left, right));
      if MissesSize(kept, sizes) { return Raised(MissingSize); }
      var ts := FoldDimensions(kept);
      var node := Assemble(ts, left, right, hint);
      return Done(node);
    }

    /** The tree of the terms that are left. */
    method Assemble(ts: Terms, left: Node, right: Node, hint: Hint) returns (node: Node)
      modifies this`nodes, this`nextId
      ensures (node, nextId) == Assembled(ts, left, right, hint, old(nextId))
    {
      if ts == [] {
        node := NewOperation(Plus, left, right, hint);
      } else {
        var ordered := PutPositiveFirst(ts);
        node := BuildSum(ordered, hint);
      }
    }

    method SumOf(s0: Node, s1: Node, hint: Hint) returns (r: Outcome)
      modifies this`nodes, this`nextId
      ensures (r, nextId) == SumResult(s0, s1, hint, Kernel(), old(Remembered()))
      decreases Size(s0) + Size(s1), NegativeCount(s0, s1), if ConstNegative(s0) && !ConstNegative(s1) then 1 else 0
    {
      if ConstZero(s0) { return Done(s1); }
      if ConstZero(s1) { return Done(s0); }
      if ConstNegative(s0) && !ConstNegative(s1) {
        r := SumOf(s1, s0, hint);
        return;
      }
      if ConstNegative(s1) {
        if s1.literal.Text? { return Raised(BadText); }
        r := DifferenceOf(s0, Abs(s1), hint);
        return;
      }
      r := SumOfAddend(s0, s1, hint);
    }

    /** The second operand of a pointer is replaced by its original if it is a fraction. */
    method SumOfAddend(s0: Node, s1: Node, hint: Hint) returns (r: Outcome)
      modifies this`nodes, this`nextId
      ensures (r, nextId) == AddendResult(s0, s1, hint, Kernel(), old(Remembered()))
    {
      var addend := s1;
      if s0.hint.pointer && s1.Const? {
        if s1.literal.Text? { return Raised(BadText); }
        if Fraction(s1) {
          if s1 !in originals { return Raised(MissingOriginal); }
          addend := originals[s1];
        }
      }
      r := ParseAndOptimizeSum(s0, addend, hint);
    }

    method DifferenceOf(s0: Node, s1: Node, hint: Hint) returns (r: Outcome)
      modifies this`nodes, this`nextId
      ensures (r, nextId) == DifferenceResult(s0, s1, hint, Kernel(), old(Remembered()))
      decreases Size(s0) + Size(s1), NegativeCount(s0, s1), 0
    {
      if ConstZero(s0) && s1.Bin? {
        if s1.op.Minus? {
          r := DifferenceOf(s1.right, s1.left, hint);
          return;
        }
        if s1.op.Mul? || s1.op.Div? {
          var minusOne := AddConst(Number(-1.0), INT);
          var node := NewOperation(Mul, minusOne, s1, hint);
          return Done(node);
        }
      }
      if ConstZero(s1) { return Done(s0); }
      if ConstNegative(s1) {
        if s1.literal.Text? { return Raised(BadText); }
        r := SumOf(s0, Abs(s1), hint);
        return;
      }
      var node: Node;
      if s0 == s1 { node := AddConst(Number(0.0), UINT); } else { node := NewOperation(Minus, s0, s1, hint); }
      return Done(node);
    }

    // ---- products and quotients ----

    /** A product that becomes group id times local size is registered on the way. */
    method ProductOf(s0: Node, s1: Node, hint: Hint) returns (r: Outcome)
      modifies this`nodes, this`nextId, this`originals
      ensures (r, nextId) == ProductResult(s0, s1, hint, sizes, old(nextId))
      ensures originals == old(originals)
           || (r.Done? && r.node.Bin? && GroupFactor(s0, s1).Some? && r.node in originals
               && originals == old(originals)[r.node := originals[r.node]])
    {
      if ConstZero(s0) { return Done(s0); }
      if ConstZero(s1) { return Done(s1); }
      if ConstOne(s0) { return Done(s1); }
      if ConstOne(s1) { return Done(s0); }
      var factor := GroupFactor(s0, s1);
      if factor.Some? {
        var (d, c) := factor.value;
        if Index(d) >= |sizes| { return Raised(MissingSize); }
        if c == Number(sizes[Index(d)] as real) {
          var left := AddWorkItem(GroupId(d));
          var right := AddWorkItem(LocalSize(d));
          var product := NewOperation(Mul, left, right, UINT);
          Register(product, Mul, left, right, UINT);
          return Done(product);
        }
      }
      var node := NewOperation(Mul, s0, s1, hint);
      return Done(node);
    }

    /** Remembers what `r` stands for, in terms of the originals of its operands. */
    method Register(r: Node, op: Op, s0: Node, s1: Node, hint: Hint)
      modifies this`nodes, this`nextId, this`originals
      ensures Remembered() == Registered(r, op, s0, s1, hint, old(Remembered())) && nodes == old(nodes) + [r]
    {
      var o := NewOperation(op, OriginalOf(s0, originals), OriginalOf(s1, originals), hint);
      originals := originals[r := o];
      nodes := nodes + [r];
    }

    method QuotientOf(s0: Node, s1: Node, hint: Hint) returns (r: Outcome)
      modifies this`nodes, this`nextId
      ensures (r, nextId) == QuotientResult(s0, s1, hint, Kernel(), old(nextId))
    {
      if ConstZero(s1) { return Raised(AssertionFailed); }
      if ConstOne(s1) { return Done(s0); }
      if s1.Const? && s0.Bin? && s0.op.Mul? && s0.right.Const? {
        var quotient := Read(s0.right.literal) / Read(s1.literal);
        if quotient == 1.0 { return Done(s0.left); }
        var c := AddConst(Number(quotient), common(s0.right.hint, s1.hint));
        return Done(Bin(s0.id, s0.hint, Mul, s0.left, c));
      }
      var node := NewOperation(Div, s0, s1, hint);
      return Done(node);
    }

    // ---- logical operations ----

    method LogicalOperation(op: Op, s0: Node, s1: Node, hint: Hint) returns (node: Node)
      modifies this`nextId
      ensures (node, nextId) == LogicalResult(op, s0, s1, hint, old(nextId))
    {
      if s0.Const? || s1.Const? {
        var (c, other) := if s0.Const? then (s0, s1) else (s1, s0);
        if op.Or? && Truthy(c.literal) {
          node := Const(nextId, hint, Number(1.0));
          nextId := nextId + 1;
          return;
        }
        if op.And? {
          if Truthy(c.literal) { return other; }
          node := Const(nextId, hint, Number(0.0));
          nextId := nextId + 1;
          return;
        }
      }
      node := NewOperation(op, s0, s1, hint);
    }

    // ---- any operation ----

    method FoldConstants(op: Op, s0: Node, s1: Node) returns (r: Outcome)
      requires s0.Const? && s1.Const?
      modifies this`nodes, this`nextId
      ensures (r, nextId) == FoldResult(op, s0, s1, Kernel(), old(nextId))
    {
      var f := Fold(op, Read(s0.literal), Read(s1.literal), fold);
      if f.Failed? { return Raised(f.error); }
      var node := AddConst(Number(f.value), common(s0.hint, s1.hint));
      return Done(node);
    }

    /** The optimised node, not yet registered. */
    method Optimize(op: Op, s0: Node, s1: Node, hint: Hint) returns (r: Outcome)
      requires hint == OperationHint(s0, s1, Kernel())
      modifies this`nodes, this`nextId, this`originals
      ensures (r, nextId) == OperationResult(op, s0, s1, Kernel(), old(Remembered()))
      ensures originals == old(originals)
           || (r.Done? && r.node.Bin? && GroupFactor(s0, s1).Some? && r.node in originals
               && originals == old(originals)[r.node := originals[r.node]])
    {
      if s0.Const? && s1.Const? {
        r := FoldConstants(op, s0, s1);
      } else if op.Plus? {
        r := SumOf(s0, s1, hint);
      } else if op.Minus? {
        r := DifferenceOf(s0, s1, hint);
      } else if op.Mul? {
        r := ProductOf(s0, s1, hint);
      } else if op.Div? {
        r := QuotientOf(s0, s1, hint);
      } else if IsLogical(op) {
        var node := LogicalOperation(op, s0, s1, hint);
        r := Done(node);
      } else {
        var node := NewOperation(op, s0, s1, hint);
        r := Done(node);
      }
    }

    method CommonHint(s0: Node, s1: Node) returns (hint: Hint)
      ensures hint == OperationHint(s0, s1, Kernel())
    {
      if s0.Const? && s1.Const? { return common(s0.hint, s1.hint); }
      if s0.Var? && (s0.hint.pointer || s0.hint.globalSpace) { return s0.hint; }
      if s1.Var? && (s1.hint.pointer || s1.hint.globalSpace) { return s1.hint; }
      if s0.hint == s1.hint { return s0.hint; }
      return common(s0.hint, s1.hint);
    }

    /** Optimises an operation and remembers what the result stands for. */
    method AddOperation(s0: Node, s1: Node, op: Op) returns (r: Outcome)
      modifies this`nodes, this`nextId, this`originals
      ensures (r, Remembered()) == Added(op, s0, s1, Kernel(), old(Remembered()))
      ensures FailsLike(r, OperationError(op, s0, s1, Kernel(), old(originals)))
      ensures Safe(op, s0, s1, Kernel(), old(originals)) && r.Done? ==>
                Plain(r.node) && Keeps(r.node, op, s0, s1, Kernel())
    {
      AddedKeeps(op, s0, s1, Kernel(), Remembered());
      r := OptimizeAndRegister(op, s0, s1);
    }

    method OptimizeAndRegister(op: Op, s0: Node, s1: Node) returns (r: Outcome)
      modifies this`nodes, this`nextId, this`originals
      ensures (r, Remembered()) == Added(op, s0, s1, Kernel(), old(Remembered()))
    {
      ghost var before := originals;
      var hint := CommonHint(s0, s1);
      r := Optimize(op, s0, s1, hint);
      Record(r, op, s0, s1, hint, Memory(before, nextId));
    }

    /** Registers the result, over the entry it may have got on the way. */
    method Record(r: Outcome, op: Op, s0: Node, s1: Node, hint: Hint, ghost m: Memory)
      requires nextId == m.next
      requires originals == m.originals
            || (r.Done? && r.node.Bin? && GroupFactor(s0, s1).Some? && r.node in originals
                && originals == m.originals[r.node := originals[r.node]])
      modifies this`nodes, this`nextId, this`originals
      ensures Remembered() == Recorded(r, op, s0, s1, hint, m)
    {
      if r.Done? {
        RegisteredOnce(r.node, op, s0, s1, hint, m, Remembered());
        Register(r.node, op, s0, s1, hint);
      }
    }

    /** Negation: double negations cancel, comparisons turn into their complements, constants fold. */
    method AddLogicalNot(n: Node) returns (r: Node)
      modifies this`nodes, this`nextId, this`originals
      ensures (r, Remembered()) == Negated(n, old(Remembered()))
      ensures Plain(n) ==> forall env: Env :: Eval(r, env) != 0.0 <==> Eval(n, env) == 0.0
    {
      ghost var m := Remembered();
      var optimized: Option<Node> := None;
      if n.Not? {
        optimized := Some(n.arg);
      } else if n.Bin? && IsCompare(n.op) {
        optimized := Some(Bin(n.id, n.hint, InverseOf(n.op).value, n.left, n.right));
      } else if ConstZero(n) {
        var one := AddConst(Number(1.0), UINT);
        optimized := Some(one);
      } else if ConstNonZero(n) {
        var zero := AddConst(Number(0.0), UINT);
        optimized := Some(zero);
      }
      var negation := Not(nextId, n.hint, n);
      nextId, nodes := nextId + 1, nodes + [negation];
      if optimized.Some? { originals := originals[optimized.value := negation]; }
      r := if optimized.Some? then optimized.value else negation;
      if Plain(n) {
        forall env: Env ensures Eval(r, env) != 0.0 <==> Eval(n, env) == 0.0 { NegationValue(n, Kernel(), m, env); }
      }
    }

    method AddIfTernary(c: Node, s0: Node, s1: Node) returns (r: Node)
      modifies this`nodes, this`nextId, this`originals
      ensures (r, Remembered()) == Chosen(c, s0, s1, Kernel(), old(Remembered())) && nodes == old(nodes) + [r]
    {
      var hint := common(s0.hint, s1.hint);
      r := Ternary(nextId, hint, c, s0, s1);
      var o := Ternary(nextId + 1, hint, OriginalOf(c, originals), OriginalOf(s0, originals),
                       OriginalOf(s1, originals));
      nextId, nodes, originals := nextId + 2, nodes + [r], originals[r := o];
    }

    // ---- whole trees ----

    /** Rebuilds a tree from its leaves, optimising on the way. */
    method ApplyOptimizations(n: Node) returns (r: Outcome)
      modifies this`nodes, this`nextId, this`originals
      ensures (r, Remembered()) == Rebuilt(n, Kernel(), old(Remembered()))
      ensures SafeRun(n, Kernel(), old(Remembered())) && r.Done? ==>
                Agrees(r.node, n, Kernel(), ExactRun(n, Kernel(), old(Remembered())))
      ensures Condition(n) && Neat(n) ==> r.Done? && SameTruth(r.node, n, Kernel())
      decreases n
    {
      ghost var m := Remembered();
      if SafeRun(n, Kernel(), m) { RebuiltAgrees(n, Kernel(), m); }
      if Condition(n) && Neat(n) { ConditionKeepsTruth(n, Kernel(), m); }
      match n
      case Not(_, _, x) =>
        var node := AddLogicalNot(x);
        r := Done(node);
      case Bin(_, _, op, left, right) =>
        var a := ApplyOptimizations(left);
        if a.Raised? { return a; }
        var b := ApplyOptimizations(right);
        if b.Raised? { return b; }
        r := AddOperation(a.node, b.node, op);
      case Const(_, hint, c) =>
        var node := AddConst(c, hint);
        r := Done(node);
      case _ =>
        r := Done(n);
    }

    /** Replaces `from` by `to` in a tree, looking into originals where the tree was optimised. */
    method ReplaceNode(n: Node, from: Node, to: Node) returns (r: Outcome)
      modifies this`nodes, this`nextId, this`originals
      ensures (r, Remembered()) == WithReplaced(n, from, to, Kernel(), old(Remembered()))
      ensures ReplacesSafely(n, from, to, Kernel(), old(Remembered())) && r.Done? ==>
                forall env: Env | Obeys(env, Kernel()) && Eval(from, env) == Eval(to, env) ::
                  Eval(r.node, env) == Eval(n, env)
    {
      if ReplacesSafely(n, from, to, Kernel(), Remembered()) {
        ReplacingKeepsValue(n, from, to, Kernel(), Remembered());
      }
      r := ReplaceAndRebuild(n, from, to);
    }

    method ReplaceAndRebuild(n: Node, from: Node, to: Node) returns (r: Outcome)
      modifies this`nodes, this`nextId, this`originals
      ensures (r, Remembered()) == WithReplaced(n, from, to, Kernel(), old(Remembered()))
    {
      if ContentsEqual(n, to) { return Done(n); }
      var start := OriginalOf(n, originals);
      var changed := Replaced(start, from, to, originals);
      r := ApplyOptimizations(changed);
    }
  }
}
