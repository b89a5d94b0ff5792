/** Trees that can be rebuilt safely whatever the manager remembers, told by their shape alone. */
module TameTrees {
  import opened Operators
  import opened Cancellation
  import opened Expressions
  import opened SumTerms
  import opened OptimiserGuards
  import opened OptimiserResults
  import opened OptimiserValues
  import opened OptimiserRuns
  import opened Replacement

  /** Neat trees whose sums add natural trees, one of which may have a leaf taken away, and whose differences take
      natural trees away, or anything from a variable or work-item function that is no pointer. */
  predicate Tame(n: Node) {
    && Neat(n)
    && (n.Bin? ==>
          && Tame(n.left) && Tame(n.right)
          && (n.op.Plus? ==> Addends(n.left, n.right))
          && (n.op.Minus? ==> Natural(n.right) || Base(n.left)))
  }

  predicate Addends(l: Node, r: Node) {
    (Natural(l) && Natural(r)) || (Less(l) && Natural(r)) || (Natural(l) && Less(r))
  }

  /** A natural leaf taken from a variable or work-item function. */
  predicate Less(n: Node) { n.Bin? && n.op.Minus? && Base(n.left) && Leaf(n.right) && Natural(n.right) }

  predicate Leaf(n: Node) { n.Const? || n.Var? || n.WorkItem? }

  predicate Base(n: Node) { (n.Var? || n.WorkItem?) && !n.hint.pointer }

  /** Logical operators are applied to bits only. */
  predicate Proper(n: Node) {
    match n
    case Not(_, _, x) => x.Not? ==> BitValued(x.arg)
    case Bin(_, _, op, l, r) => Proper(l) && Proper(r) && (op.And? || op.Or? ==> BitValued(l) && BitValued(r))
    case _ => true
  }

  /** Without sums and differences. */
  predicate Sumless(n: Node) { n.Bin? ==> !n.op.Plus? && !n.op.Minus? && Sumless(n.left) && Sumless(n.right) }

  lemma {:induction false} NaturalIsTame(n: Node)
    requires Natural(n)
    ensures Tame(n)
  {
    NaturalIsNeat(n);
    if n.Bin? {
      NaturalIsTame(n.left);
      NaturalIsTame(n.right);
    }
  }

  // ---- sums of natural trees are within their guards ----

  lemma {:induction false} NothingSubtracted(ts: Terms, c: Node)
    requires forall t | t in ts :: t.plus
    ensures Count(ts, Contents, c, false) == 0
  {
    if ts == [] {
    } else {
      NothingSubtracted(ts[1..], c);
    }
  }

  lemma AddedIsCovered(ts: Terms)
    requires forall t | t in ts :: t.plus
    ensures CoveredTerms(ts)
  {
    forall c: Node ensures Count(ts, Contents, c, false) == 0 { NothingSubtracted(ts, c); }
  }

  lemma NaturalTermsAreSafe(a: Node, b: Node)
    requires Natural(a) && Natural(b)
    ensures CoveredTerms(SumList(a, b)) && NoGroupCount(SumList(a, b))
  {
    var ts := SumList(a, b);
    SumListOf(a, b, NaturalTree);
    AddedIsCovered(ts);
    forall t | t in ts ensures GroupCount(t.item).None? { NaturalHasNoCount(t.item); }
  }

  lemma NaturalHasNoCount(n: Node)
    requires Natural(n)
    ensures GroupCount(n).None?
  {
    if n.Bin? { assert Natural(n.left) && Natural(n.right); }
  }

  lemma NaturalSumIsSafe(a: Node, b: Node, w: World, originals: map<Node, Node>)
    requires Natural(a) && Natural(b)
    ensures PathSafe(SumPath(a, b, originals), w)
  {
    NaturalIsNeat(b);
    NaturalTermsAreSafe(a, b);
  }

  /** What a difference of leaves is rebuilt to. */
  predicate Lessened(n: Node) { Base(n) || Less(n) || Natural(n) }

  lemma NaturalTerms(n: Node, c: Node)
    requires Natural(n)
    ensures Count(Flatten(n, true), Contents, c, false) == 0 && NoGroupCount(Flatten(n, true))
  {
    FlattenOf(n, true, NaturalTree);
    NothingSubtracted(Flatten(n, true), c);
    forall t | t in Flatten(n, true) ensures GroupCount(t.item).None? { NaturalHasNoCount(t.item); }
  }

  lemma LessTerms(n: Node, c: Node)
    requires Lessened(n)
    ensures Count(Flatten(n, true), Contents, c, false) <= 1 && NoGroupCount(Flatten(n, true))
  {
    if Natural(n) {
      NaturalTerms(n, c);
    } else if Base(n) {
      assert Flatten(n, true) == [Term(n, true)] && [Term(n, true)][1..] == [];
    } else {
      assert Flatten(n, true) == [Term(n.left, true)] + [Term(n.right, false)];
      CountSplit([Term(n.left, true)], [Term(n.right, false)], Contents, c, false);
      assert [Term(n.left, true)][1..] == [] && [Term(n.right, false)][1..] == [];
    }
  }

  /** One difference of leaves beside a natural tree is within the guard of sums. */
  lemma LessSumIsSafe(a: Node, b: Node, w: World, originals: map<Node, Node>)
    requires (Natural(a) && Lessened(b)) || (Lessened(a) && Natural(b))
    requires Neat(a) && Neat(b)
    ensures var p := SumPath(a, b, originals); PathSafe(p, w) && RestoresOf(p, NeatTree)
  {
    NaturalIsNeat(a);
    NaturalIsNeat(b);
    forall c: Node ensures Count(SumList(a, b), Contents, c, false) <= 1 {
      CountSplit(Flatten(a, true), Flatten(b, true), Contents, c, false);
      if Natural(a) { NaturalTerms(a, c); } else { LessTerms(a, c); }
      if Natural(b) { NaturalTerms(b, c); } else { LessTerms(b, c); }
    }
    LessTerms(a, a);
    LessTerms(b, b);
  }

  lemma NaturalDifferenceIsSafe(a: Node, b: Node, w: World, originals: map<Node, Node>)
    requires Natural(b)
    ensures SubPath(a, b, originals) == Direct
  {
    if b.Bin? { assert OpOf(b.op, NaturalTree); }
    if b.Const? { assert ConstOf(b.literal, NaturalTree); }
  }

  lemma TwoLeaves(a: Node, c: Node)
    requires (a.Var? || a.WorkItem?) && c.Const?
    ensures CoveredTerms(SumList(a, c)) && NoGroupCount(SumList(a, c))
  {
    assert Flatten(a, true) == [Term(a, true)] && Flatten(c, true) == [Term(c, true)];
    AddedIsCovered(SumList(a, c));
  }

  lemma BaseDifferenceIsSafe(a: Node, b: Node, w: World, originals: map<Node, Node>)
    requires Base(a) && Neat(b)
    ensures var p := SubPath(a, b, originals); PathSafe(p, w) && RestoresOf(p, NeatTree)
  {
    NaturalIsNeat(b);
    if !ConstZero(b) && ConstNegative(b) && b.literal.Number? { TwoLeaves(a, Abs(b)); }
  }

  // ---- what is made of tame trees ----

  lemma {:induction false} RebuiltTame(n: Node, w: World, m: Memory)
    requires Tame(n) && (Sumless(n) || FoldsInKind(w))
    ensures var r := Rebuilt(n, w, m).0;
            && SafeRun(n, w, m)
            && (r.Done? ==>
                  Neat(r.node) && (Natural(n) && FoldsInKind(w) ==> Natural(r.node)) && (Less(n) ==> Lessened(r.node)))
    decreases n
  {
    NaturalIsNeat(n);
    if n.Not? {
      NegatedOf(n.arg, m, NeatTree);
      if Natural(n) { NegatedOf(n.arg, m, NaturalTree); }
    } else if n.Bin? {
      var (a, k) := Rebuilt(n.left, w, m);
      RebuiltTame(n.left, w, m);
      if a.Done? {
        var (b, j) := Rebuilt(n.right, w, k);
        RebuiltTame(n.right, w, k);
        if b.Done? { OperationTame(n, a.node, b.node, w, j); }
      }
    }
  }

  lemma LessStays(a: Node, b: Node, w: World, m: Memory)
    requires Base(a) && Leaf(b) && Natural(b)
    ensures var r := OperationResult(Minus, a, b, w, m).0; r.Done? && Lessened(r.node)
  {
    if b.Const? { assert ConstOf(b.literal, NaturalTree); }
    assert !ConstNegative(b);
    assert a == b ==> OperationResult(Minus, a, b, w, m).0 == Done(Const(m.next, UINT, Number(0.0)));
  }

  lemma OperationTame(n: Node, a: Node, b: Node, w: World, m: Memory)
    requires Tame(n) && n.Bin? && Neat(a) && Neat(b) && (Sumless(n) || FoldsInKind(w))
    requires FoldsInKind(w) ==> (Natural(n.left) ==> Natural(a)) && (Natural(n.right) ==> Natural(b))
    requires Base(n.left) ==> a == n.left
    requires Less(n.left) ==> Lessened(a)
    requires Less(n.right) ==> Lessened(b)
    requires Leaf(n.right) && Natural(n.right) ==> Leaf(b) && Natural(b)
    ensures Safe(n.op, a, b, w, m.originals)
    ensures var r := Added(n.op, a, b, w, m).0;
            r.Done? ==>
              Neat(r.node) && (Natural(n) && FoldsInKind(w) ==> Natural(r.node)) && (Less(n) ==> Lessened(r.node))
  {
    NaturalIsNeat(a);
    NaturalIsNeat(b);
    if Less(n) { LessStays(a, b, w, m); }
    if n.op.Plus? {
      if Natural(a) && Natural(b) {
        NaturalSumIsSafe(a, b, w, m.originals);
      } else {
        LessSumIsSafe(a, b, w, m.originals);
      }
    }
    if n.op.Minus? {
      if Natural(n.right) {
        NaturalDifferenceIsSafe(a, b, w, m.originals);
      } else {
        BaseDifferenceIsSafe(a, b, w, m.originals);
      }
    }
    OperationStays(n, a, b, w, m);
  }

  lemma OperationStays(n: Node, a: Node, b: Node, w: World, m: Memory)
    requires n.Bin? && Neat(a) && Neat(b)
    requires n.op.Plus? ==>
               (Natural(a) && Natural(b) && FoldsInKind(w)) || RestoresOf(SumPath(a, b, m.originals), NeatTree)
    requires n.op.Minus? ==> RestoresOf(SubPath(a, b, m.originals), NeatTree)
    requires Natural(n) && FoldsInKind(w) ==> Natural(a) && Natural(b)
    ensures var r := OperationResult(n.op, a, b, w, m).0;
            r.Done? ==> Neat(r.node) && (Natural(n) && FoldsInKind(w) ==> Natural(r.node))
  {
    var r := OperationResult(n.op, a, b, w, m).0;
    if Natural(a) && Natural(b) && FoldsInKind(w) && (n.op.Plus? || Natural(n)) {
      OperationOf(n.op, a, b, w, m, NaturalTree);
      if r.Done? { NaturalIsNeat(r.node); }
    } else {
      OperationOf(n.op, a, b, w, m, NeatTree);
    }
  }

  lemma {:induction false} RebuiltProper(n: Node, w: World, m: Memory)
    requires Proper(n)
    ensures ExactRun(n, w, m)
    ensures var r := Rebuilt(n, w, m).0; r.Done? && BitValued(n) ==> BitValued(r.node)
    decreases n
  {
    if n.Bin? {
      var (a, k) := Rebuilt(n.left, w, m);
      RebuiltProper(n.left, w, m);
      if a.Done? {
        var (b, j) := Rebuilt(n.right, w, k);
        RebuiltProper(n.right, w, k);
        if b.Done? { OperationProper(n, a.node, b.node, w, j); }
      }
    }
  }

  lemma OperationProper(n: Node, a: Node, b: Node, w: World, m: Memory)
    requires n.Bin? && (n.op.And? || n.op.Or? ==> BitValued(a) && BitValued(b))
    ensures Exact(n.op, a, b)
    ensures var r := OperationResult(n.op, a, b, w, m).0; r.Done? && BitValued(n) ==> BitValued(r.node)
  {}

  // ---- main results ----

  /** Rebuilding a tame tree keeps its value, if logical operators are applied to bits only. */
  lemma TameKeepsValue(n: Node, w: World, m: Memory)
    requires Tame(n) && (Sumless(n) || FoldsInKind(w)) && (Proper(n) || Arith(n))
    ensures var r := Rebuilt(n, w, m).0; r.Done? ==> Same(r.node, n, w)
  {
    RebuiltTame(n, w, m);
    RebuiltAgrees(n, w, m);
    if Proper(n) { RebuiltProper(n, w, m); }
  }

  /** And it keeps its truth, if the logical operators are outermost. */
  lemma TameKeepsTruth(n: Node, w: World, m: Memory)
    requires Tame(n) && (Sumless(n) || FoldsInKind(w)) && Logical(n)
    ensures var r := Rebuilt(n, w, m).0; r.Done? ==> SameTruth(r.node, n, w)
  {
    RebuiltTame(n, w, m);
    RebuiltAgrees(n, w, m);
  }

  /** Comparisons of leaves joined by NOT, AND and OR. */
  predicate Condition(n: Node) {
    match n
    case Bin(_, _, op, l, r) =>
      if op.And? || op.Or? then Condition(l) && Condition(r) else IsCompare(op) && Leaf(l) && Leaf(r)
    case Not(_, _, x) => Condition(x)
    case _ => Leaf(n)
  }

  /** Conditions are rebuilt without exceptions and keep their truth, unless a text spells zero. */
  lemma ConditionKeepsTruth(n: Node, w: World, m: Memory)
    requires Condition(n) && Neat(n)
    ensures var r := Rebuilt(n, w, m).0; r.Done? && SameTruth(r.node, n, w)
  {
    ConditionIsTame(n);
    ConditionIsDone(n, w, m);
    TameKeepsTruth(n, w, m);
  }

  lemma {:induction false} ConditionIsTame(n: Node)
    requires Condition(n) && Neat(n)
    ensures Tame(n) && Sumless(n) && Logical(n)
  {
    match n
    case Bin(_, _, op, l, r) =>
      if op.And? || op.Or? {
        ConditionIsTame(l);
        ConditionIsTame(r);
      } else {
        assert Tame(l) && Tame(r) && Arith(l) && Arith(r);
      }
    case Not(_, _, x) => ConditionIsTame(x);
    case _ =>
  }

  lemma {:induction false} ConditionIsDone(n: Node, w: World, m: Memory)
    requires Condition(n)
    ensures Rebuilt(n, w, m).0.Done?
    decreases n
  {
    if n.Bin? {
      var (a, k) := Rebuilt(n.left, w, m);
      ConditionIsDone(n.left, w, m);
      var (b, j) := Rebuilt(n.right, w, k);
      ConditionIsDone(n.right, w, k);
      OperationFailsExactly(n.op, a.node, b.node, w, j);
    }
  }

  // ---- replacing ----

  /** What replacing makes of a node: its original with the replacement made, rebuilt. */
  function WithReplaced(n: Node, from: Node, to: Node, w: World, m: Memory): (Outcome, Memory) {
    if ContentsEqual(n, to) then (Done(n), m)
    else Rebuilt(Replaced(OriginalOf(n, m.originals), from, to, m.originals), w, m)
  }

  /** The entries of both nodes are right, and what the replacement leaves is rebuilt within the guards, without
      trading a value for its truth. */
  ghost predicate ReplacesSafely(n: Node, from: Node, to: Node, w: World, m: Memory) {
    && EntryHolds(n, m.originals, w) && EntryHolds(from, m.originals, w)
    && var changed := Replaced(OriginalOf(n, m.originals), from, to, m.originals);
       SafeRun(changed, w, m) && (ExactRun(changed, w, m) || Arith(changed))
  }

  /** Then the result is worth what the node was, wherever the replaced and the replacing tree agree. */
  lemma ReplacingKeepsValue(n: Node, from: Node, to: Node, w: World, m: Memory)
    requires ReplacesSafely(n, from, to, w, m)
    ensures var r := WithReplaced(n, from, to, w, m).0;
            r.Done? ==>
              forall env: Env | Obeys(env, w) && Eval(from, env) == Eval(to, env) :: Eval(r.node, env) == Eval(n, env)
  {
    var changed := Replaced(OriginalOf(n, m.originals), from, to, m.originals);
    var r := WithReplaced(n, from, to, w, m).0;
    if r.Done? && !ContentsEqual(n, to) {
      RebuiltAgrees(changed, w, m);
      forall env: Env | Obeys(env, w) && Eval(from, env) == Eval(to, env) ensures Eval(r.node, env) == Eval(n, env) {
        ReplacedKeepsValue(n, from, to, m.originals, w, env);
      }
    }
  }

  /** Its truth is kept if the logical operators are outermost in what is rebuilt. */
  lemma ReplacingKeepsTruth(n: Node, from: Node, to: Node, w: World, m: Memory)
    requires EntryHolds(n, m.originals, w) && EntryHolds(from, m.originals, w)
    requires var changed := Replaced(OriginalOf(n, m.originals), from, to, m.originals);
             SafeRun(changed, w, m) && Logical(changed)
    ensures var r := WithReplaced(n, from, to, w, m).0;
            r.Done? ==> forall env: Env | Obeys(env, w) && Eval(from, env) == Eval(to, env) ::
                          (Eval(r.node, env) != 0.0 <==> Eval(n, env) != 0.0)
  {
    var changed := Replaced(OriginalOf(n, m.originals), from, to, m.originals);
    var r := WithReplaced(n, from, to, w, m).0;
    if r.Done? && !ContentsEqual(n, to) {
      RebuiltAgrees(changed, w, m);
      forall env: Env | Obeys(env, w) && Eval(from, env) == Eval(to, env)
        ensures Eval(r.node, env) != 0.0 <==> Eval(n, env) != 0.0
      {
        ReplacedKeepsValue(n, from, to, m.originals, w, env);
      }
    }
  }

  /** Told by shape alone: in a natural original without logical operators, replacing by another such tree keeps
      the value. */
  lemma ReplacingInNatural(n: Node, from: Node, to: Node, w: World, m: Memory)
    requires EntryHolds(n, m.originals, w) && EntryHolds(from, m.originals, w) && FoldsInKind(w)
    requires var original := OriginalOf(n, m.originals); Natural(original) && Arith(original)
    requires Natural(to) && Arith(to)
    ensures var r := WithReplaced(n, from, to, w, m).0;
            r.Done? ==>
              forall env: Env | Obeys(env, w) && Eval(from, env) == Eval(to, env) :: Eval(r.node, env) == Eval(n, env)
  {
    var original := OriginalOf(n, m.originals);
    var changed := Replaced(original, from, to, m.originals);
    ReplacedOf(original, from, to, m.originals, NaturalTree);
    ReplacedOf(original, from, to, m.originals, ArithTree);
    NaturalIsTame(changed);
    RebuiltTame(changed, w, m);
    ReplacingKeepsValue(n, from, to, w, m);
  }
}
