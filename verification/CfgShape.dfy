/** The shape of the graph: mutual parent and child lists, branching at mask changes
    only, and what closing adds. */
module CfgShape {
  import opened ExecConditions
  import opened MaskCfg
  import opened MaskPaths
  import opened MaskRuns
  import opened LanePaths

  // ----- parent and child lists agree, whatever the program -----

  predicate Mutual(s: State)
    requires s.Ok()
  {
    && (forall a, b | 0 <= a < |s.nodes| && 0 <= b < |s.nodes| ::
          b in s.nodes[a].children <==> a in s.nodes[b].parents)
    && (forall a, k, l | 0 <= a < |s.nodes| && 0 <= k < l < |s.nodes[a].children| ::
          s.nodes[a].children[k] != s.nodes[a].children[l])
    && (forall b, p | 0 <= b < |s.nodes| && p in s.nodes[b].parents :: p < b)
  }

  lemma AppendInRange(parents: seq<nat>, end: nat, bound: nat)
    requires end < bound && forall p | p in parents :: p < bound
    ensures forall p | p in AppendUnique(parents, end) :: p < bound
  {}

  lemma {:induction false} ClosedParentsInRange(s: State, keep: nat, n: nat, parents: seq<nat>)
    requires s.Ok() && keep <= n <= |s.blocks|
    requires forall p | p in parents :: p < |s.nodes|
    ensures forall p | p in ClosedParents(s, keep, n, parents) :: p < |s.nodes|
    decreases n
  {
    if n == keep {
    } else {
      AppendInRange(parents, s.blocks[n - 1].End(), |s.nodes|);
      ClosedParentsInRange(s, keep, n - 1, AppendUnique(parents, s.blocks[n - 1].End()));
    }
  }

  lemma PlanParentsInRange(s: State, instr: Instr)
    requires s.Ok()
    ensures forall p | p in MakePlan(s, instr).parents :: p < |s.nodes|
  {
    var parents := if s.nodes[s.last].instr.Jump? then [] else [s.last];
    ClosedParentsInRange(s, OpenCount(s, Default(), |s.blocks|), |s.blocks|, parents);
    if instr.ChangeMask? {
      ClosedParentsInRange(s, OpenCount(s, instr.next, |s.blocks|), |s.blocks|, parents);
    }
  }

  /** The lists after a node `x` was attached under `parents`. */
  predicate Attached(s: State, parents: seq<nat>, s': State) {
    var x := |s.nodes|;
    && |s'.nodes| == x + 1
    && s'.nodes[x].parents == parents && s'.nodes[x].children == []
    && (forall p | p in parents :: p < x)
    && (forall a | 0 <= a < x :: s'.nodes[a].parents == s.nodes[a].parents
          && s'.nodes[a].children == if a in parents then s.nodes[a].children + [x] else s.nodes[a].children)
  }

  lemma AttachedEdge(s: State, parents: seq<nat>, s': State, a: nat, b: nat)
    requires s.Ok() && s'.Ok() && Mutual(s) && Attached(s, parents, s')
    requires a < |s'.nodes| && b < |s'.nodes|
    ensures b in s'.nodes[a].children <==> a in s'.nodes[b].parents
  {
    var x := |s.nodes|;
    if a < x {
      assert x !in s.nodes[a].children;
      if b < x { assert b in s'.nodes[a].children <==> b in s.nodes[a].children; }
    } else {
      assert a !in s'.nodes[b].parents;
    }
  }

  lemma AttachedOnce(s: State, parents: seq<nat>, s': State, a: nat, k: nat, l: nat)
    requires s.Ok() && s'.Ok() && Mutual(s) && Attached(s, parents, s')
    requires a < |s'.nodes| && k < l < |s'.nodes[a].children|
    ensures s'.nodes[a].children[k] != s'.nodes[a].children[l]
  {
    assert a < |s.nodes| && s.nodes[a].children[k] != |s.nodes|;
  }

  lemma AttachMutual(s: State, parents: seq<nat>, s': State)
    requires s.Ok() && s'.Ok() && Mutual(s) && Attached(s, parents, s')
    ensures Mutual(s')
  {
    forall a, b | 0 <= a < |s'.nodes| && 0 <= b < |s'.nodes| { AttachedEdge(s, parents, s', a, b); }
    forall a, k, l | 0 <= a < |s'.nodes| && 0 <= k < l < |s'.nodes[a].children| {
      AttachedOnce(s, parents, s', a, k, l);
    }
  }

  lemma StepMutual(s: State, instr: Instr)
    requires s.Ok() && Mutual(s)
    ensures Mutual(Step(s, instr))
  {
    PlanParentsInRange(s, instr);
    AttachMutual(s, MakePlan(s, instr).parents, Step(s, instr));
  }

  lemma {:induction false} RunMutual(s: State, prog: seq<Instr>)
    requires s.Ok() && Mutual(s)
    ensures Mutual(Run(s, prog))
    decreases |prog|
  {
    if prog == [] {
    } else {
      StepMutual(s, prog[0]);
      RunMutual(Step(s, prog[0]), prog[1..]);
    }
  }

  /** In the graph of any program, well nested or not, the child lists and the parent
      lists say the same edges, each edge once, and edges lead forward. */
  lemma EdgesAreMutual(prog: seq<Instr>)
    ensures Mutual(Run(Initial(), prog))
  {
    RunMutual(Initial(), prog);
  }

  // ----- branching happens at mask changes only -----

  predicate RoomForChild(node: Node) {
    |node.children| + 1 <= if node.instr.ChangeMask? then 2 else 1
  }

  /** Where lanes wait, the graph can still grow: a block without an else has its
      mask change as a node with at most one child, one that ended a first branch has
      the last node of that branch. */
  predicate Waits(s: State, open: OpenMask, bottom: bool)
    requires s.Ok() && open.changeMask < |s.nodes| && open.End() < |s.nodes|
  {
    && (!bottom ==> RoomForChild(s.nodes[open.End()]))
    && (open.previousBranchEnd.None? ==>
          && |s.nodes[open.changeMask].children| <= 1
          && (!bottom ==> s.nodes[open.changeMask].instr.ChangeMask?))
  }

  predicate Degrees(s: State)
    requires s.Ok()
  {
    && (forall n | 0 <= n < |s.nodes| :: |s.nodes[n].children| <= if s.nodes[n].instr.ChangeMask? then 2 else 1)
    && s.nodes[s.last].children == []
    && (forall j | 0 <= j < |s.blocks| :: Waits(s, s.blocks[j], j == 0))
  }

  /** Only the parents of the new node change, each by one child. */
  predicate ChildAdded(s: State, s': State, parents: seq<nat>) {
    && |s'.nodes| == |s.nodes| + 1 && s'.last == |s.nodes| && s'.nodes[s'.last].children == []
    && (forall n | 0 <= n < |s.nodes| && n !in parents :: s'.nodes[n] == s.nodes[n])
    && (forall n | 0 <= n < |s.nodes| && n in parents ::
          s'.nodes[n].instr == s.nodes[n].instr && |s'.nodes[n].children| == |s.nodes[n].children| + 1)
  }

  lemma StepAddsChild(s: State, instr: Instr)
    requires s.Ok()
    ensures ChildAdded(s, Step(s, instr), MakePlan(s, instr).parents)
  {
  }

  lemma DegreesFrom(s: State, s': State, parents: seq<nat>)
    requires s.Ok() && s'.Ok() && Degrees(s) && ChildAdded(s, s', parents)
    requires forall p | p in parents :: p < |s.nodes| && RoomForChild(s.nodes[p])
    requires forall j | 0 <= j < |s'.blocks| :: Waits(s', s'.blocks[j], j == 0)
    ensures Degrees(s')
  {
  }

  lemma KeepWaits(s: State, s': State, stack: seq<Level>, j: nat)
    requires Inv(s, stack) && Degrees(s) && s'.Ok() && ChildAdded(s, s', [s.last])
    requires j < |s.blocks|
    ensures Waits(s', s.blocks[j], j == 0)
  {
  }

  lemma KeepDegrees(s: State, s': State, stack: seq<Level>, instr: Instr)
    requires Inv(s, stack) && Degrees(s) && (KeepsMask(stack, instr) || Enters(stack, instr))
    requires s' == Step(s, instr)
    ensures Degrees(s')
  {
    if KeepsMask(stack, instr) { PlanKeep(s, stack, instr); }
    StepAddsChild(s, instr);
    forall j | 0 <= j < |s.blocks| { KeepWaits(s, s', stack, j); }
    forall j | 0 <= j < |s'.blocks| ensures Waits(s', s'.blocks[j], j == 0) {
      if j < |s.blocks| { assert s'.blocks[j] == s.blocks[j]; }
    }
    DegreesFrom(s, s', [s.last]);
  }

  lemma FlipDegrees(s: State, s': State, stack: seq<Level>, instr: Instr)
    requires Inv(s, stack) && Degrees(s) && instr.ChangeMask? && Flips(stack, instr.next)
    requires s' == Step(s, instr)
    ensures Degrees(s')
  {
    var top := |stack| - 1;
    PlanFlip(s, stack, instr);
    StepAddsChild(s, instr);
    forall j | 0 <= j < |s'.blocks| ensures Waits(s', s'.blocks[j], j == 0) {
      if j < top {
        assert s'.blocks[j] == s.blocks[j];
        EndsApart(s, stack, j, top);
      }
    }
    DegreesFrom(s, s', [s.blocks[top].changeMask]);
  }

  lemma CloseDegrees(s: State, s': State, stack: seq<Level>, instr: Instr, j: nat)
    requires Inv(s, stack) && Degrees(s) && ClosesTo(stack, instr, j)
    requires s' == Step(s, instr)
    ensures Degrees(s')
  {
    PlanClose(s, stack, instr, j);
    StepAddsChild(s, instr);
    var parents := MakePlan(s, instr).parents;
    forall i | 0 <= i < |s'.blocks| ensures Waits(s', s'.blocks[i], i == 0) {
      assert s'.blocks[i] == s.blocks[i];
      OldEndsStay(s, stack, parents, i, j);
    }
    DegreesFrom(s, s', parents);
  }

  /** The ends of the blocks that stay open are not parents of the closing node, unless
      the last node is one. */
  lemma OldEndsStay(s: State, stack: seq<Level>, parents: seq<nat>, i: nat, j: nat)
    requires Inv(s, stack) && i <= j < |stack| && ClosingParents(s, parents, j)
    ensures s.blocks[i].End() == s.last || s.blocks[i].End() !in parents
    ensures s.blocks[i].changeMask == s.last || s.blocks[i].changeMask !in parents
  {
    forall k | j < k < |stack|
      ensures s.blocks[i].End() < s.blocks[k].End() && s.blocks[i].changeMask < s.blocks[k].End()
    {
      EndsApart(s, stack, i, k);
    }
  }

  lemma StepDegrees(s: State, stack: seq<Level>, instr: Instr)
    requires Inv(s, stack) && Degrees(s) && Fits(stack, instr)
    ensures Degrees(Step(s, instr))
  {
    var s' := Step(s, instr);
    if KeepsMask(stack, instr) || Enters(stack, instr) {
      KeepDegrees(s, s', stack, instr);
    } else if instr.ChangeMask? && Flips(stack, instr.next) {
      FlipDegrees(s, s', stack, instr);
    } else {
      var j := 0;
      if instr.ChangeMask? { j := StackReturn(stack, instr.next); }
      CloseDegrees(s, s', stack, instr, j);
    }
  }

  // ----- every state of a well-nested run -----

  lemma StepInv(s: State, stack: seq<Level>, instr: Instr)
    requires Inv(s, stack) && Fits(stack, instr)
    ensures Inv(Step(s, instr), Next(stack, instr))
  {
    var _, _, _ := StepFacts(s, stack, instr, _ => true);
  }

  lemma {:induction false} RunInv(s: State, stack: seq<Level>, prog: seq<Instr>)
    requires Inv(s, stack) && Degrees(s) && WellNested(stack, prog)
    ensures Inv(Run(s, prog), FinalStack(stack, prog)) && Degrees(Run(s, prog))
    decreases |prog|
  {
    if prog == [] {
    } else {
      StepInv(s, stack, prog[0]);
      StepDegrees(s, stack, prog[0]);
      RunInv(Step(s, prog[0]), Next(stack, prog[0]), prog[1..]);
    }
  }

  lemma InitialInv()
    ensures Inv(Initial(), BOTTOM) && Degrees(Initial())
  {
  }

  /** In every reachable state the open masks grow strictly from the default mask to the
      mask of the last node. */
  lemma OpenMasksFormAChain(prog: seq<Instr>)
    requires WellNested(BOTTOM, prog)
    ensures var s := Run(Initial(), prog);
            && s.MaskOf(0) == Default()
            && s.MaskOf(|s.blocks| - 1) == s.nodes[s.last].mask
            && forall i, j | 0 <= i < j < |s.blocks| :: IsStrictSubsetOf(s.MaskOf(i), s.MaskOf(j))
  {
    InitialInv();
    RunInv(Initial(), BOTTOM, prog);
    ChainOfMasks(Run(Initial(), prog), FinalStack(BOTTOM, prog));
  }

  lemma ChainOfMasks(s: State, stack: seq<Level>)
    requires Inv(s, stack)
    ensures s.MaskOf(0) == Default() && s.MaskOf(|s.blocks| - 1) == s.nodes[s.last].mask
    ensures forall i, j | 0 <= i < j < |s.blocks| :: IsStrictSubsetOf(s.MaskOf(i), s.MaskOf(j))
  {
    assert Tracks(s, stack) && Chain(stack);
    forall i, j | 0 <= i < j < |s.blocks| ensures IsStrictSubsetOf(s.MaskOf(i), s.MaskOf(j)) {
      assert s.MaskOf(i) == stack[i].mask && s.MaskOf(j) == stack[j].mask;
    }
  }

  /** Only mask changes branch, and no node has more than two children. */
  lemma OnlyMaskChangesBranch(prog: seq<Instr>)
    requires WellNested(BOTTOM, prog)
    ensures var g := Run(Initial(), prog + [EndPgm]);
            forall n | 0 <= n < |g.nodes| :: |g.nodes[n].children| <= if g.nodes[n].instr.ChangeMask? then 2 else 1
  {
    InitialInv();
    RunInv(Initial(), BOTTOM, prog);
    RunAppend(Initial(), prog, EndPgm);
    var s := Run(Initial(), prog);
    CloseDegrees(s, Step(s, EndPgm), FinalStack(BOTTOM, prog), EndPgm, 0);
  }

  // ----- what closing adds -----

  predicate Distinct(xs: seq<nat>) {
    forall i, j | 0 <= i < j < |xs| :: xs[i] != xs[j]
  }

  /** The ends of the open blocks come one after the other, none after the last node. */
  predicate EndsIncrease(s: State)
    requires s.Ok()
  {
    && (forall i, k | 0 <= i < k < |s.blocks| :: s.blocks[i].End() < s.blocks[k].End())
    && (forall k | 0 <= k < |s.blocks| :: s.blocks[k].End() <= s.last)
  }

  lemma {:induction false} ClosedParentsCount(s: State, keep: nat, n: nat, parents: seq<nat>)
    requires s.Ok() && EndsIncrease(s) && keep <= n <= |s.blocks| && Distinct(parents)
    requires forall k | keep <= k < n :: s.blocks[k].End() !in parents
    ensures Distinct(ClosedParents(s, keep, n, parents))
    ensures |ClosedParents(s, keep, n, parents)| == |parents| + (n - keep)
    decreases n
  {
    if n == keep {
    } else {
      ClosedParentsCount(s, keep, n - 1, AppendUnique(parents, s.blocks[n - 1].End()));
    }
  }

  /** The number of parents of a closing node: the last node and the closed blocks' ends,
      the innermost of which may be the last node itself. */
  lemma ClosingCount(s: State, keep: nat, n: nat, start: seq<nat>)
    requires s.Ok() && EndsIncrease(s) && keep <= n == |s.blocks| && start == [s.last]
    ensures Distinct(ClosedParents(s, keep, n, start))
    ensures var shared := keep < n && s.blocks[n - 1].End() == s.last;
            |ClosedParents(s, keep, n, start)| == 1 + (n - keep) - (if shared then 1 else 0)
  {
    if keep < n && s.blocks[n - 1].End() == s.last {
      assert s.last in start;
      ClosedParentsCount(s, keep, n - 1, start);
    } else {
      forall k | keep <= k < n ensures s.blocks[k].End() < s.last {
        if k < n - 1 { assert s.blocks[k].End() < s.blocks[n - 1].End(); }
      }
      ClosedParentsCount(s, keep, n, start);
    }
  }

  /** Returning to level `j` pops exactly the blocks above it, and the closing node gets,
      besides the last node, one parent for each of them: the end of its first branch if
      it had an else, its mask change if not. Only the innermost block may have the last
      node itself as that end; no other two coincide. */
  lemma ClosingAddsOneParentPerBlock(s: State, stack: seq<Level>, instr: Instr, j: nat)
    requires Inv(s, stack) && ClosesTo(stack, instr, j)
    ensures var plan := MakePlan(s, instr);
            var shared := j < |stack| - 1 && s.blocks[|stack| - 1].End() == s.last;
            && plan.blocks == s.blocks[..j + 1]
            && ClosingParents(s, plan.parents, j) && Distinct(plan.parents)
            && |plan.parents| == 1 + (|stack| - 1 - j) - (if shared then 1 else 0)
  {
    PlanClose(s, stack, instr, j);
    OpenCountIs(s, stack, j, |stack|);
    EndsOfStack(s, stack);
    ClosingCount(s, j + 1, |stack|, [s.last]);
    assert MakePlan(s, instr).parents == ClosedParents(s, j + 1, |stack|, [s.last]);
  }

  lemma EndsOfStack(s: State, stack: seq<Level>)
    requires Inv(s, stack)
    ensures s.Ok() && |stack| == |s.blocks| && EndsIncrease(s)
  {
    forall i, k | 0 <= i < k < |stack| ensures s.blocks[i].End() < s.blocks[k].End() { EndsApart(s, stack, i, k); }
  }
}
