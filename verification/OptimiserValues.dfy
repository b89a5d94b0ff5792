/** What the optimiser's results are worth. */
module OptimiserValues {
  import opened Options
  import opened Operators
  import opened Cancellation
  import opened Expressions
  import opened SumTerms
  import opened OptimiserGuards
  import opened OptimiserResults
  import opened WorkItems

  // ---- terms ----

  lemma {:induction false} GlobalIdsKeep(ts: Terms, d: Dim, next: nat, w: World)
    ensures SameWorth(GlobalIds(ts, d, next).0, ts, w) && Grown(GlobalIds(ts, d, next).0, ts)
    decreases |Select(ts, LocalPart, d)|
  {
    var l, o, g := Select(ts, LocalPart, d), Select(ts, OffsetPart, d), Select(ts, GroupPart, d);
    if l != [] && o != [] && g != [] {
      var n := WorkItem(next, UINT, GlobalId(d));
      FoldRound(ts, l, o, g, n, d);
      FoldRoundKeeps(ts, ts, l[0], o[0], g[0], n, d, w);
      GlobalIdsKeep(Drop(Drop(Drop(ts, l[0]), o[0]), g[0]) + [Term(n, true)], d, next + 1, w);
    }
  }

  /** No global id is left to fold: one of its parts has run out. */
  lemma {:induction false} GlobalIdsExhaust(ts: Terms, d: Dim, next: nat)
    ensures var r := GlobalIds(ts, d, next).0;
            Select(r, LocalPart, d) == [] || Select(r, OffsetPart, d) == [] || Select(r, GroupPart, d) == []
    decreases |Select(ts, LocalPart, d)|
  {
    var l, o, g := Select(ts, LocalPart, d), Select(ts, OffsetPart, d), Select(ts, GroupPart, d);
    if l != [] && o != [] && g != [] {
      var n := WorkItem(next, UINT, GlobalId(d));
      FoldRound(ts, l, o, g, n, d);
      GlobalIdsExhaust(Drop(Drop(Drop(ts, l[0]), o[0]), g[0]) + [Term(n, true)], d, next + 1);
    }
  }

  lemma SizeRoundGrows(ts: Terms, start: Terms, c: Term<Node>, g: Term<Node>, n: Node)
    requires Grown(ts, start) && c in ts && g in Drop(ts, c) && n.WorkItem? && n.work.GlobalSize?
    ensures Grown(Drop(Drop(ts, c), g) + [Term(n, true)], start)
  {
    DropIsGrown(ts, c, start);
    DropIsGrown(Drop(ts, c), g, start);
  }

  lemma {:induction false} GlobalSizesGrow(ts: Terms, start: Terms, d: Dim, size: int, next: nat)
    requires Grown(ts, start)
    ensures Grown(GlobalSizes(ts, d, size, next).0, start)
    decreases |Select(ts, CountPart(size), d)|
  {
    var c, g := Select(ts, CountPart(size), d), Select(ts, GroupPart, d);
    if c != [] && g != [] {
      var n := WorkItem(next, UINT, GlobalSize(d));
      SizeRound(ts, c, g, n, d, size);
      SizeRoundGrows(ts, start, c[0], g[0], n);
      GlobalSizesGrow(Drop(Drop(ts, c[0]), g[0]) + [Term(n, true)], start, d, size, next + 1);
    }
  }

  lemma NoCountNoSize(ts: Terms, d: Dim, size: int, next: nat)
    requires NoGroupCount(ts)
    ensures GlobalSizes(ts, d, size, next) == (ts, next)
  {
    NoneSelected(ts, CountPart(size), d);
  }

  lemma InDimensionKeeps(ts: Terms, d: Dim, next: nat, w: World)
    ensures Grown(InDimension(ts, d, w.sizes, next).0, ts)
    ensures NoGroupCount(ts) ==> SameWorth(InDimension(ts, d, w.sizes, next).0, ts, w)
  {
    var (ids, n) := GlobalIds(ts, d, next);
    GlobalIdsKeep(ts, d, next, w);
    if Index(d) < |w.sizes| {
      GlobalSizesGrow(ids, ts, d, w.sizes[Index(d)], n);
      if NoGroupCount(ts) { NoCountNoSize(ids, d, w.sizes[Index(d)], n); }
    }
  }

  lemma InDimensionsKeep(ts: Terms, next: nat, w: World)
    ensures Grown(InDimensions(ts, w.sizes, next).0, ts)
    ensures NoGroupCount(ts) ==> SameWorth(InDimensions(ts, w.sizes, next).0, ts, w)
  {
    var (a, n) := InDimension(ts, X, w.sizes, next);
    var (b, k) := InDimension(a, Y, w.sizes, n);
    InDimensionKeeps(ts, X, next, w);
    InDimensionKeeps(a, Y, n, w);
    InDimensionKeeps(b, Z, k, w);
  }

  lemma PositiveFirstKeeps(ts: Terms, next: nat, env: Env)
    requires ts != []
    ensures var r := PositiveFirst(ts, next).0;
            r != [] && r[0].plus && Worth(r, env) == Worth(ts, env) && Grown(r, ts)
  {
    var i := FirstPositive(ts);
    if i == 0 {
    } else if i < |ts| {
      SwapWorth(ts, i, env);
    } else {
      var zero := Term(Const(next, UINT, Number(0.0)), true);
      WorthSplit([zero], ts, env);
      WorthOfOne(zero, env);
    }
  }

  lemma {:induction false} SumTreeWorth(cur: Node, rest: Terms, hint: Hint, next: nat, env: Env)
    requires TermsOf(rest, PlainTree)
    ensures Eval(SumTree(cur, rest, hint, next).0, env) == Eval(cur, env) + Worth(rest, env)
    decreases rest
  {
    if rest == [] {
    } else {
      var t, tail := rest[0], rest[1..];
      assert rest == [t] + tail;
      WorthSplit([t], tail, env);
      WorthOfOne(t, env);
      var longer := Bin(next, hint, if t.plus then Plus else Minus, cur, t.item);
      if ConstZero(t.item) {
        PlainReads(t.item, env);
        SumTreeWorth(cur, tail, hint, next, env);
      } else {
        SumTreeWorth(longer, tail, hint, next + 1, env);
      }
    }
  }

  /** A list with its first positive term in front is worth the tree made of it. */
  lemma OrderedTreeWorth(ts: Terms, hint: Hint, next: nat, env: Env)
    requires ts != [] && ts[0].plus && TermsOf(ts, PlainTree)
    ensures Eval(SumTree(ts[0].item, ts[1..], hint, next).0, env) == Worth(ts, env)
  {
    assert ts == [ts[0]] + ts[1..];
    WorthSplit([ts[0]], ts[1..], env);
    WorthOfOne(ts[0], env);
    SumTreeWorth(ts[0].item, ts[1..], hint, next, env);
  }

  lemma {:induction false} SumTreeOf(cur: Node, rest: Terms, hint: Hint, next: nat, s: Sort)
    requires Of(cur, s) && TermsOf(rest, s)
    ensures Of(SumTree(cur, rest, hint, next).0, s)
    decreases rest
  {
    if rest == [] {
    } else {
      var t, tail := rest[0], rest[1..];
      var longer := Bin(next, hint, if t.plus then Plus else Minus, cur, t.item);
      if ConstZero(t.item) { SumTreeOf(cur, tail, hint, next, s); } else { SumTreeOf(longer, tail, hint, next + 1, s); }
    }
  }

  lemma CancelIsGrown(ts: Terms)
    ensures Grown(Cancel(ts, Contents), ts)
  {
    PositiveAreTerms(ts);
    CancelRestIsGrown(Positive(ts), ts, ts);
  }

  lemma {:induction false} PositiveAreTerms(ts: Terms)
    ensures forall t | t in Positive(ts) :: t in ts
    decreases ts
  {
    if ts == [] {
    } else {
      PositiveAreTerms(ts[1..]);
    }
  }

  lemma {:induction false} CancelRestIsGrown(kept: Terms, rest: Terms, ts: Terms)
    requires Grown(kept, ts) && forall t | t in rest :: t in ts
    ensures Grown(CancelRest(kept, Contents, rest), ts)
    decreases rest
  {
    if rest == [] {
    } else {
      var next := if rest[0].plus then kept else CancelOne(kept, Contents, rest[0]);
      CancelRestIsGrown(next, rest[1..], ts);
    }
  }

  // ---- flattened sums ----

  lemma FlattenedOf(left: Node, right: Node, hint: Hint, sizes: seq<int>, next: nat, s: Sort)
    requires Of(left, s) && Of(right, s)
    ensures var r := Flattened(left, right, hint, sizes, next).0; r.Done? ==> Of(r.node, s)
  {
    var list := SumList(left, right);
    var kept := Cancel(list, Contents);
    SumListOf(left, right, s);
    CancelIsGrown(list);
    GrownOf(kept, list, s);
    if !MissesSize(kept, sizes) {
      var (ts, n) := InDimensions(kept, sizes, next);
      InDimensionsKeep(kept, next, World(sizes, (op, a, b) => None, (a, b) => UINT));
      GrownOf(ts, kept, s);
      AssembledOf(ts, left, right, hint, n, s);
    }
  }

  lemma AssembledOf(ts: Terms, left: Node, right: Node, hint: Hint, next: nat, s: Sort)
    requires TermsOf(ts, s) && Of(left, s) && Of(right, s) && OpOf(Plus, s)
    ensures Of(Assembled(ts, left, right, hint, next).0, s)
  {
    if ts != [] {
      var (ordered, k) := PositiveFirst(ts, next);
      assert TermsOf(ordered, s);
      SumTreeOf(ordered[0].item, ordered[1..], hint, k, s);
    }
  }

  lemma FlattenedComputes(left: Node, right: Node, hint: Hint, next: nat, w: World)
    requires Plain(left) && Plain(right) && CoveredTerms(SumList(left, right)) && NoGroupCount(SumList(left, right))
    ensures var r := Flattened(left, right, hint, w.sizes, next).0; r.Done? ==> Computes(r.node, Plus, left, right, w)
  {
    var list := SumList(left, right);
    var kept := Cancel(list, Contents);
    var (ts, n) := InDimensions(kept, w.sizes, next);
    SumListOf(left, right, PlainTree);
    CancelIsGrown(list);
    GrownOf(kept, list, PlainTree);
    InDimensionsKeep(kept, next, w);
    GrownOf(ts, kept, PlainTree);
    var r := Flattened(left, right, hint, w.sizes, next).0;
    if r.Done? {
      forall env: Env | Obeys(env, w) ensures Eval(r.node, env) == Apply(Plus, Eval(left, env), Eval(right, env), env) {
        AssembledWorth(ts, left, right, hint, n, env);
        CancelKeepsWorth(list, env);
        SumListWorth(left, right, env);
      }
    }
  }

  lemma AssembledWorth(ts: Terms, left: Node, right: Node, hint: Hint, next: nat, env: Env)
    requires TermsOf(ts, PlainTree)
    ensures Eval(Assembled(ts, left, right, hint, next).0, env)
         == if ts == [] then Eval(left, env) + Eval(right, env) else Worth(ts, env)
  {
    if ts != [] {
      var (ordered, k) := PositiveFirst(ts, next);
      PositiveFirstKeeps(ts, next, env);
      GrownOf(ordered, ts, PlainTree);
      OrderedTreeWorth(ordered, hint, k, env);
    }
  }

  // ---- sums and differences ----

  /** The addend is worth what stands for it. */
  lemma AddendComputes(s0: Node, s1: Node, hint: Hint, w: World, m: Memory)
    requires Plain(s0) && Plain(s1) && PathSafe(AddendPath(s0, s1, m.originals), w)
    ensures var r := AddendResult(s0, s1, hint, w, m).0; r.Done? ==> Computes(r.node, Plus, s0, s1, w)
  {
    var p, r := AddendPath(s0, s1, m.originals), AddendResult(s0, s1, hint, w, m).0;
    if r.Done? {
      FlattenedComputes(s0, p.right, hint, m.next, w);
      assert Computes(r.node, Plus, s0, p.right, w) && Same(s1, p.right, w);
    }
  }

  lemma SwappedSum(r: Node, s0: Node, s1: Node, w: World)
    requires Computes(r, Plus, s1, s0, w)
    ensures Computes(r, Plus, s0, s1, w)
  {}

  /** Adding a negative constant is subtracting its absolute value, and the other way round. */
  lemma AbsTurnsSign(r: Node, op: Op, s0: Node, s1: Node, w: World)
    requires (op.Plus? || op.Minus?) && ConstNegative(s1) && s1.literal.Number?
    requires Computes(r, if op.Plus? then Minus else Plus, s0, Abs(s1), w)
    ensures Computes(r, op, s0, s1, w)
  {
    forall env: Env | Obeys(env, w) ensures Eval(r, env) == Apply(op, Eval(s0, env), Eval(s1, env), env) {
      assert Eval(Abs(s1), env) == -Eval(s1, env);
    }
  }

  /** 0 - (x - y) is y - x. */
  lemma ZeroMinusDifference(r: Node, s0: Node, s1: Node, w: World)
    requires ConstZero(s0) && Plain(s0) && s1.Bin? && s1.op.Minus?
    requires Computes(r, Minus, s1.right, s1.left, w)
    ensures Computes(r, Minus, s0, s1, w)
  {
    forall env: Env | Obeys(env, w) ensures Eval(r, env) == Apply(Minus, Eval(s0, env), Eval(s1, env), env) {
      PlainReads(s0, env);
    }
  }

  lemma ZeroMinusProduct(r: Node, s0: Node, s1: Node, w: World)
    requires ConstZero(s0) && Plain(s0) && r.Bin? && r.op.Mul? && r.right == s1
    requires r.left.Const? && r.left.literal == Number(-1.0)
    ensures Computes(r, Minus, s0, s1, w)
  {
    forall env: Env | Obeys(env, w) ensures Eval(r, env) == Apply(Minus, Eval(s0, env), Eval(s1, env), env) {
      PlainReads(s0, env);
      assert Eval(r, env) == -1.0 * Eval(s1, env);
    }
  }

  lemma ZeroOperand(r: Node, op: Op, s0: Node, s1: Node, w: World)
    requires Plain(s0) && Plain(s1)
    requires (op.Plus? && ConstZero(s0) && r == s1) || ((op.Plus? || op.Minus?) && ConstZero(s1) && r == s0)
    ensures Computes(r, op, s0, s1, w)
  {}

  lemma {:induction false} SumComputes(s0: Node, s1: Node, hint: Hint, w: World, m: Memory)
    requires Plain(s0) && Plain(s1) && PathSafe(SumPath(s0, s1, m.originals), w)
    ensures var r := SumResult(s0, s1, hint, w, m).0; r.Done? ==> Computes(r.node, Plus, s0, s1, w)
    decreases Size(s0) + Size(s1), NegativeCount(s0, s1), if ConstNegative(s0) && !ConstNegative(s1) then 1 else 0
  {
    var r := SumResult(s0, s1, hint, w, m).0;
    if r.Done? {
      if ConstZero(s0) || ConstZero(s1) {
        ZeroOperand(r.node, Plus, s0, s1, w);
      } else if ConstNegative(s0) && !ConstNegative(s1) {
        SumComputes(s1, s0, hint, w, m);
        SwappedSum(r.node, s0, s1, w);
      } else if ConstNegative(s1) {
        DifferenceComputes(s0, Abs(s1), hint, w, m);
        AbsTurnsSign(r.node, Plus, s0, s1, w);
      } else {
        AddendComputes(s0, s1, hint, w, m);
      }
    }
  }

  lemma {:induction false} DifferenceComputes(s0: Node, s1: Node, hint: Hint, w: World, m: Memory)
    requires Plain(s0) && Plain(s1) && PathSafe(SubPath(s0, s1, m.originals), w)
    ensures var r := DifferenceResult(s0, s1, hint, w, m).0; r.Done? ==> Computes(r.node, Minus, s0, s1, w)
    decreases Size(s0) + Size(s1), NegativeCount(s0, s1), 0
  {
    var r := DifferenceResult(s0, s1, hint, w, m).0;
    if r.Done? {
      if ConstZero(s0) && s1.Bin? && s1.op.Minus? {
        DifferenceComputes(s1.right, s1.left, hint, w, m);
        ZeroMinusDifference(r.node, s0, s1, w);
      } else if ConstZero(s0) && s1.Bin? && (s1.op.Mul? || s1.op.Div?) {
        ZeroMinusProduct(r.node, s0, s1, w);
      } else if ConstZero(s1) {
        ZeroOperand(r.node, Minus, s0, s1, w);
      } else if ConstNegative(s1) {
        SumComputes(s0, Abs(s1), hint, w, m);
        AbsTurnsSign(r.node, Minus, s0, s1, w);
      }
    }
  }

  /** What stands for a fraction is of the sort of the operands; integral constants are no fractions. */
  predicate RestoresOf(p: Path, s: Sort) { p.Flattening? && !s.RingTree? && !s.NaturalTree? ==> Of(p.right, s) }

  lemma AbsOf(n: Node, s: Sort)
    requires ConstNegative(n) && n.literal.Number? && Of(n, s)
    ensures Of(Abs(n), s)
  {
    if s.RingTree? { NegatedInteger(n.literal.value.Floor, n.literal.value); }
  }

  lemma NegatedInteger(i: int, v: real)
    requires v == i as real
    ensures Integral(-v)
  {
    assert -v == (-i) as real;
  }

  lemma AddendOf(s0: Node, s1: Node, hint: Hint, w: World, m: Memory, s: Sort)
    requires Of(s0, s) && Of(s1, s) && RestoresOf(AddendPath(s0, s1, m.originals), s)
    ensures var r := AddendResult(s0, s1, hint, w, m).0; r.Done? ==> Of(r.node, s)
  {
    var p := AddendPath(s0, s1, m.originals);
    if p.Flattening? { FlattenedOf(s0, p.right, hint, w.sizes, m.next, s); }
  }

  lemma {:induction false} SumOf(s0: Node, s1: Node, hint: Hint, w: World, m: Memory, s: Sort)
    requires Of(s0, s) && Of(s1, s) && RestoresOf(SumPath(s0, s1, m.originals), s)
    ensures var r := SumResult(s0, s1, hint, w, m).0; r.Done? ==> Of(r.node, s)
    decreases Size(s0) + Size(s1), NegativeCount(s0, s1), if ConstNegative(s0) && !ConstNegative(s1) then 1 else 0
  {
    var r := SumResult(s0, s1, hint, w, m).0;
    if r.Done? && !ConstZero(s0) && !ConstZero(s1) {
      if ConstNegative(s0) && !ConstNegative(s1) {
        SumOf(s1, s0, hint, w, m, s);
      } else if ConstNegative(s1) {
        AbsOf(s1, s);
        DifferenceOf(s0, Abs(s1), hint, w, m, s);
      } else {
        AddendOf(s0, s1, hint, w, m, s);
      }
    }
  }

  lemma {:induction false} DifferenceOf(s0: Node, s1: Node, hint: Hint, w: World, m: Memory, s: Sort)
    requires Of(s0, s) && Of(s1, s) && OpOf(Minus, s) && RestoresOf(SubPath(s0, s1, m.originals), s)
    ensures var r := DifferenceResult(s0, s1, hint, w, m).0; r.Done? ==> Of(r.node, s)
    decreases Size(s0) + Size(s1), NegativeCount(s0, s1), 0
  {
    var r := DifferenceResult(s0, s1, hint, w, m).0;
    if r.Done? {
      if ConstZero(s0) && s1.Bin? && s1.op.Minus? {
        DifferenceOf(s1.right, s1.left, hint, w, m, s);
      } else if ConstZero(s0) && s1.Bin? && (s1.op.Mul? || s1.op.Div?) {
      } else if !ConstZero(s1) && ConstNegative(s1) {
        AbsOf(s1, s);
        SumOf(s0, Abs(s1), hint, w, m, s);
      }
    }
  }

  // ---- products and quotients ----

  lemma GroupTimesSize(s0: Node, s1: Node, d: Dim, next: nat, w: World)
    requires Index(d) < |w.sizes| && GroupFactor(s0, s1) == Some((d, Number(w.sizes[Index(d)] as real)))
    ensures Computes(GroupTimesLocalSize(d, next), Mul, s0, s1, w)
  {
    var r := GroupTimesLocalSize(d, next);
    forall env: Env | Obeys(env, w) ensures Eval(r, env) == Apply(Mul, Eval(s0, env), Eval(s1, env), env) {
      var g, size := env.work(GroupId(d)), w.sizes[Index(d)] as real;
      assert DeclaredSize(env, w, d);
      Commutes(g, size);
      assert Eval(r, env) == Apply(Mul, g, size, env);
      assert (Eval(s0, env) == g && Eval(s1, env) == size) || (Eval(s0, env) == size && Eval(s1, env) == g);
    }
  }

  lemma Commutes(a: real, b: real)
    ensures a * b == b * a
  {}

  lemma ProductComputes(s0: Node, s1: Node, hint: Hint, next: nat, w: World)
    requires Plain(s0) && Plain(s1)
    ensures var r := ProductResult(s0, s1, hint, w.sizes, next).0; r.Done? ==> Computes(r.node, Mul, s0, s1, w)
  {
    var factor := GroupFactor(s0, s1);
    if !MulFails(s0, s1, w.sizes) && IsLocalSize(factor, w.sizes) {
      GroupTimesSize(s0, s1, factor.value.0, next, w);
    }
  }

  lemma ProductValue(n: Node, x: real, c: real, env: Env)
    requires n.Bin? && n.op.Mul? && n.right.Const? && Plain(n.right) && Read(n.right.literal) == c
    requires x == Eval(n.left, env)
    ensures Eval(n, env) == x * c
  {}

  predicate FoldsQuotient(r: Node, s0: Node, s1: Node) {
    && s1.Const? && s0.Bin? && s0.op.Mul? && s0.right.Const? && !ConstZero(s1)
    && var q := Read(s0.right.literal) / Read(s1.literal);
       if q == 1.0 then r == s0.left
       else r.Bin? && r.op.Mul? && r.left == s0.left && r.right.Const? && r.right.literal == Number(q)
  }

  lemma QuotientValue(r: Node, s0: Node, s1: Node, x: real, q: real, env: Env)
    requires FoldsQuotient(r, s0, s1) && x == Eval(s0.left, env) && q == Read(s0.right.literal) / Read(s1.literal)
    ensures Eval(r, env) == x * q
  {
    if q != 1.0 { ProductValue(r, x, q, env); }
  }

  /** (x * c) / d is x * (c / d). */
  lemma QuotientFolded(r: Node, s0: Node, s1: Node, w: World)
    requires FoldsQuotient(r, s0, s1) && Plain(s0) && Plain(s1)
    ensures Computes(r, Div, s0, s1, w)
  {
    forall env: Env | Obeys(env, w) ensures Eval(r, env) == Apply(Div, Eval(s0, env), Eval(s1, env), env) {
      QuotientAt(r, s0, s1, env);
    }
  }

  lemma QuotientAt(r: Node, s0: Node, s1: Node, env: Env)
    requires FoldsQuotient(r, s0, s1) && Plain(s0) && Plain(s1)
    ensures Eval(r, env) == Apply(Div, Eval(s0, env), Eval(s1, env), env)
  {
    var x, c, d := Eval(s0.left, env), Read(s0.right.literal), Read(s1.literal);
    FoldedQuotientValue(r, s0, s1, x, c, d, env);
    assert Eval(s0, env) == x * c by { ProductValue(s0, x, c, env); }
    assert Eval(s1, env) == d by { PlainReads(s1, env); }
  }

  lemma FoldedQuotientValue(r: Node, s0: Node, s1: Node, x: real, c: real, d: real, env: Env)
    requires FoldsQuotient(r, s0, s1) && x == Eval(s0.left, env)
    requires c == Read(s0.right.literal) && d == Read(s1.literal)
    ensures d != 0.0 && Eval(r, env) == Apply(Div, x * c, d, env)
  {
    QuotientValue(r, s0, s1, x, c / d, env);
    QuotientOfProduct(x, c, d);
  }

  lemma DividedByOne(s0: Node, s1: Node, w: World)
    requires ConstOne(s1) && Plain(s1)
    ensures Computes(s0, Div, s0, s1, w)
  {}

  lemma QuotientComputes(s0: Node, s1: Node, hint: Hint, next: nat, w: World)
    requires Plain(s0) && Plain(s1)
    ensures var r := QuotientResult(s0, s1, hint, w, next).0; r.Done? ==> Computes(r.node, Div, s0, s1, w)
  {
    var r := QuotientResult(s0, s1, hint, w, next).0;
    if r.Done? {
      if ConstOne(s1) {
        DividedByOne(s0, s1, w);
      } else if s1.Const? && s0.Bin? && s0.op.Mul? && s0.right.Const? {
        QuotientFolded(r.node, s0, s1, w);
      }
    }
  }

  // ---- constants and logical operations ----

  lemma FoldKeeps(op: Op, s0: Node, s1: Node, w: World, next: nat)
    requires s0.Const? && s1.Const? && Plain(s0) && Plain(s1)
    ensures var r := FoldResult(op, s0, s1, w, next).0; r.Done? ==> Keeps(r.node, op, s0, s1, w)
  {
    var r := FoldResult(op, s0, s1, w, next).0;
    if r.Done? {
      forall env: Env | Obeys(env, w)
        ensures Eval(r.node, env) != 0.0 <==> Apply(op, Eval(s0, env), Eval(s1, env), env) != 0.0
        ensures Exact(op, s0, s1) ==> Eval(r.node, env) == Apply(op, Eval(s0, env), Eval(s1, env), env)
      {
        PlainReads(s0, env);
        PlainReads(s1, env);
        FoldIsRight(op, Read(s0.literal), Read(s1.literal), env, w);
      }
    }
  }

  /** With one constant operand, an optimised `and` or `or` has the right truth for a work item exactly when the
      constant is no text that spells zero or the other operand decides, and the right value exactly
      when moreover an operand that is returned is a bit. */
  lemma LogicalKeepsExactly(op: Op, s0: Node, s1: Node, hint: Hint, next: nat, env: Env)
    requires (op.And? || op.Or?) && Plain(s0) && Plain(s1) && s0.Const? != s1.Const?
    ensures var (c, other) := if s0.Const? then (s0, s1) else (s1, s0);
            var v := Eval(LogicalResult(op, s0, s1, hint, next).0, env);
            var right := Apply(op, Eval(s0, env), Eval(s1, env), env);
            && ((v != 0.0 <==> right != 0.0) <==> (ZeroText(c) ==> (Eval(other, env) != 0.0 <==> op.Or?)))
            && (v == right <==> (ZeroText(c) ==> (Eval(other, env) != 0.0 <==> op.Or?))
                                && (op.And? && Truthy(c.literal) ==> IsBit(Eval(other, env))))
  {
    PlainReads(if s0.Const? then s0 else s1, env);
  }

  lemma LogicalKeeps(op: Op, s0: Node, s1: Node, hint: Hint, next: nat, w: World)
    requires IsLogical(op) && Plain(s0) && Plain(s1) && !(s0.Const? && s1.Const?)
    requires op.And? || op.Or? ==> !ZeroText(s0) && !ZeroText(s1)
    ensures Keeps(LogicalResult(op, s0, s1, hint, next).0, op, s0, s1, w)
  {
    var r := LogicalResult(op, s0, s1, hint, next).0;
    if !op.Xor? && (s0.Const? || s1.Const?) {
      forall env: Env | Obeys(env, w)
        ensures Eval(r, env) != 0.0 <==> Apply(op, Eval(s0, env), Eval(s1, env), env) != 0.0
        ensures Exact(op, s0, s1) ==> Eval(r, env) == Apply(op, Eval(s0, env), Eval(s1, env), env)
      {
        LogicalKeepsExactly(op, s0, s1, hint, next, env);
        if BitValued(s0) { BitValuedIsBit(s0, env); }
        if BitValued(s1) { BitValuedIsBit(s1, env); }
      }
    }
  }

  /** A negation's optimised form has the opposite truth, and is worth the negation exactly when what a
      double negation leaves is a bit. */
  lemma NegationKeepsExactly(n: Node, next: nat, env: Env)
    requires Plain(n) && NegationOf(n, next).Some?
    ensures var v := Eval(NegationOf(n, next).value, env);
            && (v != 0.0 <==> Eval(n, env) == 0.0)
            && (v == Bit(Eval(n, env) == 0.0) <==> (n.Not? ==> IsBit(Eval(n.arg, env))))
  {
    if n.Const? {
      PlainReads(n, env);
    } else if n.Bin? {
      ComplementIsExact(n.op, Eval(n.left, env), Eval(n.right, env));
    }
  }

  // ---- any operation ----

  lemma AddendFails(s0: Node, s1: Node, hint: Hint, w: World, m: Memory)
    ensures FailsLike(AddendResult(s0, s1, hint, w, m).0, PathError(AddendPath(s0, s1, m.originals), w.sizes))
  {}

  /** The exceptions are exactly the stated ones. */
  lemma {:induction false} SumFails(s0: Node, s1: Node, hint: Hint, w: World, m: Memory)
    ensures FailsLike(SumResult(s0, s1, hint, w, m).0, PathError(SumPath(s0, s1, m.originals), w.sizes))
    decreases Size(s0) + Size(s1), NegativeCount(s0, s1), if ConstNegative(s0) && !ConstNegative(s1) then 1 else 0
  {
    if ConstZero(s0) || ConstZero(s1) {
    } else if ConstNegative(s0) && !ConstNegative(s1) {
      SumFails(s1, s0, hint, w, m);
    } else if ConstNegative(s1) && s1.literal.Number? {
      DifferenceFails(s0, Abs(s1), hint, w, m);
    } else if !ConstNegative(s1) {
      AddendFails(s0, s1, hint, w, m);
    }
  }

  lemma {:induction false} DifferenceFails(s0: Node, s1: Node, hint: Hint, w: World, m: Memory)
    ensures FailsLike(DifferenceResult(s0, s1, hint, w, m).0, PathError(SubPath(s0, s1, m.originals), w.sizes))
    decreases Size(s0) + Size(s1), NegativeCount(s0, s1), 0
  {
    if ConstZero(s0) && s1.Bin? && s1.op.Minus? {
      DifferenceFails(s1.right, s1.left, hint, w, m);
    } else if ConstZero(s0) && s1.Bin? && (s1.op.Mul? || s1.op.Div?) {
    } else if !ConstZero(s1) && ConstNegative(s1) && s1.literal.Number? {
      SumFails(s0, Abs(s1), hint, w, m);
    }
  }

  predicate FailsLike(r: Outcome, e: Option<Error>) { if e.Some? then r == Raised(e.value) else r.Done? }

  lemma OperationFailsExactly(op: Op, s0: Node, s1: Node, w: World, m: Memory)
    ensures FailsLike(OperationResult(op, s0, s1, w, m).0, OperationError(op, s0, s1, w, m.originals))
  {
    if s0.Const? && s1.Const? {
    } else if op.Plus? {
      SumFails(s0, s1, OperationHint(s0, s1, w), w, m);
    } else if op.Minus? {
      DifferenceFails(s0, s1, OperationHint(s0, s1, w), w, m);
    } else if op.Mul? {
      ProductFails(s0, s1, OperationHint(s0, s1, w), w.sizes, m.next);
    }
  }

  lemma ProductFails(s0: Node, s1: Node, hint: Hint, sizes: seq<int>, next: nat)
    ensures FailsLike(ProductResult(s0, s1, hint, sizes, next).0,
                      if MulFails(s0, s1, sizes) then Some(MissingSize) else None)
  {}

  lemma PlainComputes(r: Node, op: Op, s0: Node, s1: Node, w: World)
    requires r.Bin? && r.op == op && r.left == s0 && r.right == s1
    ensures Keeps(r, op, s0, s1, w)
  {}

  /** Under its guard, an operation keeps its value, or for the logical operators its truth. */
  lemma OperationKeeps(op: Op, s0: Node, s1: Node, w: World, m: Memory)
    requires Safe(op, s0, s1, w, m.originals)
    ensures var r := OperationResult(op, s0, s1, w, m).0; r.Done? ==> Keeps(r.node, op, s0, s1, w)
  {
    var r, hint := OperationResult(op, s0, s1, w, m).0, OperationHint(s0, s1, w);
    if s0.Const? && s1.Const? {
      FoldKeeps(op, s0, s1, w, m.next);
    } else if op.Plus? {
      SumComputes(s0, s1, hint, w, m);
    } else if op.Minus? {
      DifferenceComputes(s0, s1, hint, w, m);
    } else if op.Mul? {
      ProductComputes(s0, s1, hint, m.next, w);
    } else if op.Div? {
      QuotientComputes(s0, s1, hint, m.next, w);
    } else if IsLogical(op) {
      LogicalKeeps(op, s0, s1, hint, m.next, w);
    } else {
      PlainComputes(r.node, op, s0, s1, w);
    }
  }

  // ---- sorts ----

  /** Folding integers gives integers and folding natural numbers natural numbers, as in Python. */
  ghost predicate FoldsInKind(w: World) {
    forall op: Op, a: real, b: real | !Interpreted(op) && w.fold(op, a, b).Some? ::
      && (Integral(a) && Integral(b) ==> Integral(w.fold(op, a, b).value))
      && (a >= 0.0 && b >= 0.0 ==> w.fold(op, a, b).value >= 0.0)
  }

  lemma IntegerProduct(x: int, y: int)
    ensures (x * y) as real == x as real * y as real
  {}

  lemma FoldedInteger(op: Op, a: real, b: real, fold: (Op, real, real) -> Option<real>)
    requires (op.Plus? || op.Minus? || op.Mul?) && Integral(a) && Integral(b)
    ensures Fold(op, a, b, fold).Value? && Integral(Fold(op, a, b, fold).value)
  {
    var x, y := a.Floor, b.Floor;
    IntegerProduct(x, y);
    assert Fold(op, a, b, fold).value == (if op.Plus? then x + y else if op.Minus? then x - y else x * y) as real;
  }

  lemma FoldedNatural(op: Op, a: real, b: real, w: World)
    requires !op.Minus? && !op.Div? && FoldsInKind(w) && Integral(a) && Integral(b) && a >= 0.0 && b >= 0.0
    ensures var f := Fold(op, a, b, w.fold); f.Value? ==> Integral(f.value) && f.value >= 0.0
  {
    if op.Plus? || op.Mul? { FoldedInteger(op, a, b, w.fold); }
    if op.Mul? { assert a * b >= 0.0; }
  }

  lemma FoldOf(op: Op, s0: Node, s1: Node, w: World, next: nat, s: Sort)
    requires s0.Const? && s1.Const? && Of(s0, s) && Of(s1, s) && OpOf(op, s) && (s.NaturalTree? ==> FoldsInKind(w))
    ensures var r := FoldResult(op, s0, s1, w, next).0; r.Done? ==> Of(r.node, s)
  {
    var a, b := Read(s0.literal), Read(s1.literal);
    if s.RingTree? { FoldedInteger(op, a, b, w.fold); }
    if s.NaturalTree? { FoldedNatural(op, a, b, w); }
  }

  lemma ProductOf(s0: Node, s1: Node, hint: Hint, sizes: seq<int>, next: nat, s: Sort)
    requires Of(s0, s) && Of(s1, s)
    ensures var r := ProductResult(s0, s1, hint, sizes, next).0; r.Done? ==> Of(r.node, s)
  {
    forall d ensures Of(GroupTimesLocalSize(d, next), s) { GroupTimesLocalOf(d, next, s); }
  }

  lemma GroupTimesLocalOf(d: Dim, next: nat, s: Sort)
    ensures Of(GroupTimesLocalSize(d, next), s)
  {}

  lemma QuotientOf(s0: Node, s1: Node, hint: Hint, w: World, next: nat, s: Sort)
    requires Of(s0, s) && Of(s1, s) && OpOf(Div, s)
    ensures var r := QuotientResult(s0, s1, hint, w, next).0; r.Done? ==> Of(r.node, s)
  {}

  lemma LogicalOf(op: Op, s0: Node, s1: Node, hint: Hint, next: nat, s: Sort)
    requires Of(s0, s) && Of(s1, s) && OpOf(op, s)
    ensures Of(LogicalResult(op, s0, s1, hint, next).0, s)
  {}

  /** What an operation makes of trees of one sort is of that sort. */
  lemma OperationOf(op: Op, s0: Node, s1: Node, w: World, m: Memory, s: Sort)
    requires Of(s0, s) && Of(s1, s) && OpOf(op, s) && (s.NaturalTree? ==> FoldsInKind(w))
    requires op.Plus? ==> RestoresOf(SumPath(s0, s1, m.originals), s)
    requires op.Minus? ==> RestoresOf(SubPath(s0, s1, m.originals), s)
    ensures var r := OperationResult(op, s0, s1, w, m).0; r.Done? ==> Of(r.node, s)
  {
    var r, hint := OperationResult(op, s0, s1, w, m).0, OperationHint(s0, s1, w);
    if s0.Const? && s1.Const? {
      FoldOf(op, s0, s1, w, m.next, s);
    } else if op.Plus? {
      SumOf(s0, s1, hint, w, m, s);
    } else if op.Minus? {
      DifferenceOf(s0, s1, hint, w, m, s);
    } else if op.Mul? {
      ProductOf(s0, s1, hint, w.sizes, m.next, s);
    } else if op.Div? {
      QuotientOf(s0, s1, hint, w, m.next, s);
    } else if IsLogical(op) {
      LogicalOf(op, s0, s1, hint, m.next, s);
    } else {
      assert r.node == Bin(m.next, hint, op, s0, s1);
    }
  }

  lemma OperationIsPlain(op: Op, s0: Node, s1: Node, w: World, m: Memory)
    requires Safe(op, s0, s1, w, m.originals)
    ensures var r := OperationResult(op, s0, s1, w, m).0; r.Done? ==> Plain(r.node)
  {
    if s0.Const? && s1.Const? {
      FoldOf(op, s0, s1, w, m.next, PlainTree);
    } else {
      OperationOf(op, s0, s1, w, m, PlainTree);
    }
  }

  /** An added operation fails exactly where it is said to, and under its guard keeps its value or truth. */
  lemma AddedKeeps(op: Op, s0: Node, s1: Node, w: World, m: Memory)
    ensures var r := Added(op, s0, s1, w, m).0;
            && FailsLike(r, OperationError(op, s0, s1, w, m.originals))
            && (Safe(op, s0, s1, w, m.originals) && r.Done? ==> Plain(r.node) && Keeps(r.node, op, s0, s1, w))
  {
    OperationFailsExactly(op, s0, s1, w, m);
    if Safe(op, s0, s1, w, m.originals) {
      OperationKeeps(op, s0, s1, w, m);
      OperationIsPlain(op, s0, s1, w, m);
    }
  }
}
