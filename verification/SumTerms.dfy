/** Sums as lists of signed terms: flattening, work-item terms, and what the list is worth. */
module SumTerms {
  import opened Options
  import opened Operators
  import opened Cancellation
  import opened Expressions
  import opened WorkItems

  type Terms = seq<Term<Node>>

  /** The terms of a sum; a difference flips the sign of its right operand. */
  function Flatten(n: Node, plus: bool): Terms
    decreases n
  {
    if n.Bin? && n.op.Plus? then Flatten(n.left, plus) + Flatten(n.right, plus)
    else if n.Bin? && n.op.Minus? then Flatten(n.left, plus) + Flatten(n.right, !plus)
    else [Term(n, plus)]
  }

  function ValueIn(env: Env): Node -> real { (n: Node) => Eval(n, env) }

  /** What a list of terms is worth. */
  function Worth(ts: Terms, env: Env): real { Sum(ts, Contents, ValueIn(env)) }

  function TermWorth(t: Term<Node>, env: Env): real { if t.plus then Eval(t.item, env) else -Eval(t.item, env) }

  lemma WorthOfOne(t: Term<Node>, env: Env)
    ensures Signed(t, Contents, ValueIn(env)) == TermWorth(t, env)
    ensures Worth([t], env) == TermWorth(t, env)
  {
    ContentsKeepValue(t.item, env);
    assert ValueIn(env)(Contents(t.item)) == Eval(Contents(t.item), env);
    assert [t][1..] == [];
    assert Sum([t], Contents, ValueIn(env))
        == Signed(t, Contents, ValueIn(env)) + Sum([t][1..], Contents, ValueIn(env));
  }

  lemma WorthSplit(a: Terms, b: Terms, env: Env)
    ensures Worth(a + b, env) == Worth(a, env) + Worth(b, env)
  {
    SumSplit(a, b, Contents, ValueIn(env));
  }

  lemma WorthRemoved(ts: Terms, i: nat, env: Env)
    requires i < |ts|
    ensures Worth(RemoveAt(ts, i), env) == Worth(ts, env) - TermWorth(ts[i], env)
  {
    SumRemoved(ts, i, Contents, ValueIn(env));
    WorthOfOne(ts[i], env);
  }

  /** Flattening keeps the value. */
  lemma {:induction false} FlattenWorth(n: Node, plus: bool, env: Env)
    ensures Worth(Flatten(n, plus), env) == if plus then Eval(n, env) else -Eval(n, env)
    decreases n
  {
    if n.Bin? && n.op.Plus? {
      FlattenWorth(n.left, plus, env);
      FlattenWorth(n.right, plus, env);
      WorthSplit(Flatten(n.left, plus), Flatten(n.right, plus), env);
    } else if n.Bin? && n.op.Minus? {
      FlattenWorth(n.left, plus, env);
      FlattenWorth(n.right, !plus, env);
      WorthSplit(Flatten(n.left, plus), Flatten(n.right, !plus), env);
    } else {
      WorthOfOne(Term(n, plus), env);
    }
  }

  function SumList(a: Node, b: Node): Terms { Flatten(a, true) + Flatten(b, true) }

  lemma SumListWorth(a: Node, b: Node, env: Env)
    ensures Worth(SumList(a, b), env) == Eval(a, env) + Eval(b, env)
  {
    FlattenWorth(a, true, env);
    FlattenWorth(b, true, env);
    WorthSplit(Flatten(a, true), Flatten(b, true), env);
  }

  /** The guard of the cancelling loop: no content is subtracted more than once beyond its additions. */
  ghost predicate CoveredTerms(ts: Terms) {
    forall c: Node :: Count(ts, Contents, c, false) <= Count(ts, Contents, c, true) + 1
  }

  lemma CancelKeepsWorth(ts: Terms, env: Env)
    requires CoveredTerms(ts)
    ensures Worth(Cancel(ts, Contents), env) == Worth(ts, env)
  {
    CancelKeepsSum(ts, Contents, ValueIn(env));
  }

  // ---- work-item terms ----

  /** The dimension of a product of a group id and the local size. */
  function GroupTimesLocal(n: Node): Option<Dim> {
    if n.Bin? && n.op.Mul? && n.left.WorkItem? && n.right.WorkItem? then
      if n.left.work.GroupId? && n.right.work == LocalSize(n.left.work.dim) then Some(n.left.work.dim)
      else if n.right.work.GroupId? && n.left.work == LocalSize(n.right.work.dim) then Some(n.right.work.dim)
      else None
    else None
  }

  /** The dimension of a product of a number of work groups and a constant, and the constant. */
  function GroupCount(n: Node): Option<(Dim, Literal)> {
    if !n.Bin? || !n.op.Mul? then None
    else if n.left.WorkItem? && n.left.work.NumGroups? && n.right.Const? then Some((n.left.work.dim, n.right.literal))
    else if n.right.WorkItem? && n.right.work.NumGroups? && n.left.Const? then Some((n.right.work.dim, n.left.literal))
    else None
  }

  /** The three parts of a global id, and a number of work groups times their declared size. */
  datatype Part = LocalPart | OffsetPart | GroupPart | CountPart(size: int)

  predicate IsPart(t: Term<Node>, p: Part, d: Dim) {
    t.plus &&
    match p
    case LocalPart => t.item.WorkItem? && t.item.work == LocalId(d)
    case OffsetPart => t.item.WorkItem? && t.item.work == Offset(d)
    case GroupPart => GroupTimesLocal(t.item) == Some(d)
    case CountPart(size) => GroupCount(t.item) == Some((d, Number(size as real)))
  }

  /** The terms that are this part, in order. */
  function Select(ts: Terms, p: Part, d: Dim): Terms {
    if ts == [] then [] else if IsPart(ts[0], p, d) then [ts[0]] + Select(ts[1..], p, d) else Select(ts[1..], p, d)
  }

  /** The position of the first term equal to `t`; the length if there is none. */
  function Find(ts: Terms, t: Term<Node>): (i: nat)
    ensures i <= |ts| && (i < |ts| ==> ts[i] == t) && (t in ts ==> i < |ts|)
  {
    if ts == [] || ts[0] == t then 0 else 1 + Find(ts[1..], t)
  }

  function Drop(ts: Terms, t: Term<Node>): Terms
    requires t in ts
  {
    RemoveAt(ts, Find(ts, t))
  }

  lemma {:induction false} Selected(ts: Terms, p: Part, d: Dim)
    ensures forall t | t in Select(ts, p, d) :: t in ts && IsPart(t, p, d)
  {
    if ts == [] {
    } else {
      Selected(ts[1..], p, d);
    }
  }

  lemma {:induction false} NoneSelected(ts: Terms, p: Part, d: Dim)
    requires forall t | t in ts :: !IsPart(t, p, d)
    ensures Select(ts, p, d) == []
  {
    if ts == [] {
    } else {
      NoneSelected(ts[1..], p, d);
    }
  }

  /** Dropping the first selected term drops it from its selection and from no other. */
  lemma {:induction false} SelectDropped(ts: Terms, t: Term<Node>, p: Part, d: Dim)
    requires t in ts
    ensures IsPart(t, p, d) && |Select(ts, p, d)| > 0 && Select(ts, p, d)[0] == t ==>
              Select(Drop(ts, t), p, d) == Select(ts, p, d)[1..]
    ensures !IsPart(t, p, d) ==> Select(Drop(ts, t), p, d) == Select(ts, p, d)
    decreases ts
  {
    if ts[0] == t {
      assert Drop(ts, t) == ts[1..];
    } else {
      SelectDropped(ts[1..], t, p, d);
      assert Drop(ts, t) == [ts[0]] + Drop(ts[1..], t);
    }
  }

  lemma {:induction false} SelectAppended(ts: Terms, t: Term<Node>, p: Part, d: Dim)
    ensures Select(ts + [t], p, d) == Select(ts, p, d) + if IsPart(t, p, d) then [t] else []
  {
    if ts == [] {
      assert [] + [t] == [t] && [t][1..] == [];
    } else {
      assert (ts + [t])[1..] == ts[1..] + [t] && (ts + [t])[0] == ts[0];
      SelectAppended(ts[1..], t, p, d);
    }
  }

  lemma WorthDropped(ts: Terms, t: Term<Node>, env: Env)
    requires t in ts
    ensures Worth(Drop(ts, t), env) == Worth(ts, env) - TermWorth(t, env)
  {
    WorthRemoved(ts, Find(ts, t), env);
  }

  /** The three parts of a global id together are worth the global id. */
  lemma PartsMakeGlobalId(l: Term<Node>, o: Term<Node>, g: Term<Node>, d: Dim, env: Env)
    requires IsPart(l, LocalPart, d) && IsPart(o, OffsetPart, d) && IsPart(g, GroupPart, d) && GlobalIdLaw(env, d)
    ensures TermWorth(l, env) + TermWorth(o, env) + TermWorth(g, env) == env.work(GlobalId(d))
  {
    assert TermWorth(g, env) == Eval(g.item.left, env) * Eval(g.item.right, env);
    if g.item.left.work.GroupId? {
      assert TermWorth(g, env) == env.work(GroupId(d)) * env.work(LocalSize(d));
    } else {
      assert TermWorth(g, env) == env.work(LocalSize(d)) * env.work(GroupId(d));
    }
  }

  /** The selections of the three parts. */
  predicate Selects(ts: Terms, d: Dim, l: Terms, o: Terms, g: Terms) {
    Select(ts, LocalPart, d) == l && Select(ts, OffsetPart, d) == o && Select(ts, GroupPart, d) == g
  }

  lemma IsOnePart(t: Term<Node>, p: Part, q: Part, d: Dim)
    requires IsPart(t, p, d) && p != q
    ensures !IsPart(t, q, d)
  {}

  /** Dropping the first term of one part. */
  lemma PartDropped(ts: Terms, t: Term<Node>, p: Part, d: Dim)
    requires Select(ts, p, d) != [] && Select(ts, p, d)[0] == t
    ensures t in ts && IsPart(t, p, d)
    ensures Select(Drop(ts, t), p, d) == Select(ts, p, d)[1..]
    ensures forall q: Part | q != p :: Select(Drop(ts, t), q, d) == Select(ts, q, d)
  {
    Selected(ts, p, d);
    SelectDropped(ts, t, p, d);
    forall q: Part | q != p ensures Select(Drop(ts, t), q, d) == Select(ts, q, d) {
      IsOnePart(t, p, q, d);
      SelectDropped(ts, t, q, d);
    }
  }

  /** One round of the global-id rewriting: the first term of each part goes, the global id comes. */
  lemma FoldRound(ts: Terms, l: Terms, o: Terms, g: Terms, n: Node, d: Dim)
    requires Selects(ts, d, l, o, g) && l != [] && o != [] && g != []
    requires n.WorkItem? && n.work == GlobalId(d)
    ensures l[0] in ts && o[0] in Drop(ts, l[0]) && g[0] in Drop(Drop(ts, l[0]), o[0])
    ensures IsPart(l[0], LocalPart, d) && IsPart(o[0], OffsetPart, d) && IsPart(g[0], GroupPart, d)
    ensures Selects(Drop(Drop(Drop(ts, l[0]), o[0]), g[0]) + [Term(n, true)], d, l[1..], o[1..], g[1..])
  {
    PartDropped(ts, l[0], LocalPart, d);
    var a := Drop(ts, l[0]);
    PartDropped(a, o[0], OffsetPart, d);
    var b := Drop(a, o[0]);
    PartDropped(b, g[0], GroupPart, d);
    SelectAppended(Drop(b, g[0]), Term(n, true), LocalPart, d);
    SelectAppended(Drop(b, g[0]), Term(n, true), OffsetPart, d);
    SelectAppended(Drop(b, g[0]), Term(n, true), GroupPart, d);
  }

  lemma FoldRoundWorth(ts: Terms, l: Term<Node>, o: Term<Node>, g: Term<Node>, n: Node, d: Dim, env: Env)
    requires l in ts && o in Drop(ts, l) && g in Drop(Drop(ts, l), o)
    requires IsPart(l, LocalPart, d) && IsPart(o, OffsetPart, d) && IsPart(g, GroupPart, d)
    requires n.WorkItem? && n.work == GlobalId(d) && GlobalIdLaw(env, d)
    ensures Worth(Drop(Drop(Drop(ts, l), o), g) + [Term(n, true)], env) == Worth(ts, env)
  {
    WorthDropped(ts, l, env);
    WorthDropped(Drop(ts, l), o, env);
    WorthDropped(Drop(Drop(ts, l), o), g, env);
    WorthSplit(Drop(Drop(Drop(ts, l), o), g), [Term(n, true)], env);
    WorthOfOne(Term(n, true), env);
    PartsMakeGlobalId(l, o, g, d, env);
  }

  ghost predicate SameWorth(a: Terms, b: Terms, w: World) {
    forall env: Env | Obeys(env, w) :: Worth(a, env) == Worth(b, env)
  }

  /** Terms of `ts`, and added work-item functions and zeros. */
  predicate Grown(result: Terms, ts: Terms) {
    forall t | t in result :: t in ts || (t.plus && AddedLeaf(t.item))
  }

  predicate AddedLeaf(n: Node) {
    (n.WorkItem? && !n.work.NumGroups?) || (n.Const? && n.literal == Number(0.0))
  }

  lemma DropIsGrown(ts: Terms, t: Term<Node>, start: Terms)
    requires t in ts && Grown(ts, start)
    ensures Grown(Drop(ts, t), start)
  {}

  lemma FoldRoundKeeps(start: Terms, ts: Terms, l: Term<Node>, o: Term<Node>, g: Term<Node>, n: Node, d: Dim,
                       w: World)
    requires l in ts && o in Drop(ts, l) && g in Drop(Drop(ts, l), o)
    requires IsPart(l, LocalPart, d) && IsPart(o, OffsetPart, d) && IsPart(g, GroupPart, d)
    requires n.WorkItem? && n.work == GlobalId(d)
    requires SameWorth(ts, start, w) && Grown(ts, start)
    ensures SameWorth(Drop(Drop(Drop(ts, l), o), g) + [Term(n, true)], start, w)
    ensures Grown(Drop(Drop(Drop(ts, l), o), g) + [Term(n, true)], start)
  {
    forall env: Env | Obeys(env, w)
      ensures Worth(Drop(Drop(Drop(ts, l), o), g) + [Term(n, true)], env) == Worth(start, env)
    {
      assert GlobalIdLaw(env, d);
      FoldRoundWorth(ts, l, o, g, n, d, env);
    }
    DropIsGrown(ts, l, start);
    DropIsGrown(Drop(ts, l), o, start);
    DropIsGrown(Drop(Drop(ts, l), o), g, start);
  }

  // ---- the first term must be positive ----

  function FirstPositive(ts: Terms): (i: nat)
    ensures i <= |ts| && (i < |ts| ==> ts[i].plus)
  {
    if ts == [] || ts[0].plus then 0 else 1 + FirstPositive(ts[1..])
  }

  lemma SwapWorth(ts: Terms, i: nat, env: Env)
    requires 0 < i < |ts|
    ensures Worth(ts[0 := ts[i]][i := ts[0]], env) == Worth(ts, env)
  {
    var a, m, b := ts[0], ts[1..i], ts[i + 1..];
    assert ts == [a] + (m + ([ts[i]] + b));
    assert ts[0 := ts[i]][i := ts[0]] == [ts[i]] + (m + ([a] + b));
    WorthSplit([a], m + ([ts[i]] + b), env);
    WorthSplit([ts[i]], m + ([a] + b), env);
    WorthSplit(m, [ts[i]] + b, env);
    WorthSplit(m, [a] + b, env);
    WorthSplit([ts[i]], b, env);
    WorthSplit([a], b, env);
  }

  // ---- what holds of every term ----

  predicate TermsOf(ts: Terms, s: Sort) { forall t | t in ts :: Of(t.item, s) && (t.plus || OpOf(Minus, s)) }

  lemma GrownOf(result: Terms, ts: Terms, s: Sort)
    requires Grown(result, ts) && TermsOf(ts, s)
    ensures TermsOf(result, s)
  {}

  lemma {:induction false} FlattenOf(n: Node, plus: bool, s: Sort)
    requires Of(n, s) && (plus || OpOf(Minus, s))
    ensures TermsOf(Flatten(n, plus), s)
    decreases n
  {
    if n.Bin? && n.op.Plus? {
      FlattenOf(n.left, plus, s);
      FlattenOf(n.right, plus, s);
    } else if n.Bin? && n.op.Minus? {
      FlattenOf(n.left, plus, s);
      FlattenOf(n.right, !plus, s);
    }
  }

  lemma SumListOf(a: Node, b: Node, s: Sort)
    requires Of(a, s) && Of(b, s)
    ensures TermsOf(SumList(a, b), s)
  {
    FlattenOf(a, true, s);
    FlattenOf(b, true, s);
  }
}
