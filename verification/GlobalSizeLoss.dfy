/** What the rewriting of group counts into global sizes loses. */
module GlobalSizeLoss {
  import opened Cancellation
  import opened Expressions
  import opened SumTerms
  import opened OptimiserResults
  import opened OptimiserSums
  import opened WorkItems

  /** A global size is the number of groups times the size of a group, where that divides evenly (section 3.2 of
      OpenCL 1.2). */
  predicate GlobalSizeLaw(env: Env, d: Dim, size: int) {
    env.work(GlobalSize(d)) == env.work(NumGroups(d)) * size as real
  }

  /** The group id times the local size. */
  function GroupStart(env: Env, d: Dim): real { env.work(GroupId(d)) * env.work(LocalSize(d)) }

  lemma CountWorth(t: Term<Node>, d: Dim, size: int, env: Env)
    requires IsPart(t, CountPart(size), d)
    ensures TermWorth(t, env) == env.work(NumGroups(d)) * size as real
  {
    var n := t.item;
    if n.left.WorkItem? {
      assert Eval(n, env) == env.work(NumGroups(d)) * size as real;
    } else {
      assert Eval(n, env) == (size as real) * env.work(NumGroups(d));
    }
  }

  lemma GroupWorth(t: Term<Node>, d: Dim, env: Env)
    requires IsPart(t, GroupPart, d)
    ensures TermWorth(t, env) == GroupStart(env, d)
  {
    if t.item.left.work.GroupId? {
      assert Eval(t.item, env) == env.work(GroupId(d)) * env.work(LocalSize(d));
    } else {
      assert Eval(t.item, env) == env.work(LocalSize(d)) * env.work(GroupId(d));
    }
  }

  lemma SizeRoundLoses(ts: Terms, c: Term<Node>, g: Term<Node>, n: Node, d: Dim, size: int, env: Env)
    requires c in ts && g in Drop(ts, c) && IsPart(c, CountPart(size), d) && IsPart(g, GroupPart, d)
    requires n.WorkItem? && n.work == GlobalSize(d) && GlobalSizeLaw(env, d, size)
    ensures Worth(Drop(Drop(ts, c), g) + [Term(n, true)], env) == Worth(ts, env) - GroupStart(env, d)
  {
    WorthDropped(ts, c, env);
    WorthDropped(Drop(ts, c), g, env);
    WorthSplit(Drop(Drop(ts, c), g), [Term(n, true)], env);
    WorthOfOne(Term(n, true), env);
    CountWorth(c, d, size, env);
    GroupWorth(g, d, env);
  }

  function Times(k: nat, v: real): real { if k == 0 then 0.0 else v + Times(k - 1, v) }

  lemma {:induction false} TimesZero(k: nat, v: real)
    ensures Times(k, v) == 0.0 <==> k == 0 || v == 0.0
    ensures v >= 0.0 ==> Times(k, v) >= 0.0
    ensures v <= 0.0 ==> Times(k, v) <= 0.0
  {
    if k > 0 { TimesZero(k - 1, v); }
  }

  lemma OneIsLost(ts: Terms, c: Terms, g: Terms, n: Node, d: Dim, size: int, env: Env)
    requires c == Select(ts, CountPart(size), d) != [] && g == Select(ts, GroupPart, d) != []
    requires n.WorkItem? && n.work == GlobalSize(d) && GlobalSizeLaw(env, d, size)
    ensures c[0] in ts && g[0] in Drop(ts, c[0])
    ensures var result := Drop(Drop(ts, c[0]), g[0]) + [Term(n, true)];
            && SizeRounds(result, d, size) + 1 == SizeRounds(ts, d, size)
            && |Select(result, CountPart(size), d)| < |c|
            && Worth(result, env) == Worth(ts, env) - GroupStart(env, d)
  {
    SizeRound(ts, c, g, n, d, size);
    PartDropped(ts, c[0], CountPart(size), d);
    PartDropped(Drop(ts, c[0]), g[0], GroupPart, d);
    SizeRoundLoses(ts, c[0], g[0], n, d, size, env);
  }

  /** Every global size that comes in loses one group id times local size. */
  lemma {:induction false} SizesLose(ts: Terms, d: Dim, size: int, next: nat, env: Env)
    requires GlobalSizeLaw(env, d, size)
    ensures Worth(GlobalSizes(ts, d, size, next).0, env)
         == Worth(ts, env) - Times(SizeRounds(ts, d, size), GroupStart(env, d))
    decreases |Select(ts, CountPart(size), d)|
  {
    var c, g := Select(ts, CountPart(size), d), Select(ts, GroupPart, d);
    if c == [] || g == [] {
    } else {
      var n := WorkItem(next, UINT, GlobalSize(d));
      OneIsLost(ts, c, g, n, d, size, env);
      SizesLose(Drop(Drop(ts, c[0]), g[0]) + [Term(n, true)], d, size, next + 1, env);
    }
  }

  /** Folding global sizes keeps what the list is worth exactly if nothing is folded, or in the group that starts at
      zero. */
  lemma SizesKeepExactly(ts: Terms, d: Dim, size: int, next: nat, env: Env)
    requires GlobalSizeLaw(env, d, size)
    ensures Worth(GlobalSizes(ts, d, size, next).0, env) == Worth(ts, env) <==>
              Select(ts, CountPart(size), d) == [] || Select(ts, GroupPart, d) == [] || GroupStart(env, d) == 0.0
  {
    SizesLose(ts, d, size, next, env);
    TimesZero(SizeRounds(ts, d, size), GroupStart(env, d));
  }
}
