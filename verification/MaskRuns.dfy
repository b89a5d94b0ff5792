/** What every run of a well-nested mask program keeps, and the theorem on lane paths. */
module MaskRuns {
  import opened Options
  import opened ExecConditions
  import opened MaskCfg
  import opened MaskPaths

  // ----- plans of the four kinds of step -----

  predicate KeepsMask(stack: seq<Level>, instr: Instr)
    requires |stack| >= 1
  {
    instr.Ordinary? || (instr.ChangeMask? && instr.next == stack[|stack| - 1].mask)
  }

  predicate Enters(stack: seq<Level>, instr: Instr)
    requires |stack| >= 1
  {
    instr.ChangeMask? && IsStrictSupersetOf(instr.next, stack[|stack| - 1].mask)
  }

  predicate ClosesTo(stack: seq<Level>, instr: Instr, j: nat) {
    && j < |stack|
    && match instr
       case ChangeMask(next) => next == stack[j].mask && j < |stack| - 1
       case Unmask => j == 0
       case EndPgm => j == 0
       case _ => false
  }

  lemma SiblingsAreNotNested(a: ExecCondition, b: ExecCondition)
    requires IsSubsetOf(a, b) || IsSubsetOf(b, a)
    ensures NegatedSiblingParent(a, b).None?
  {
    if NegatedSiblingParent(a, b).Some? { SiblingsApart(a, b); }
  }

  lemma PlanKeep(s: State, stack: seq<Level>, instr: Instr)
    requires Inv(s, stack) && KeepsMask(stack, instr)
    ensures MakePlan(s, instr) == Plan([s.last], stack[|stack| - 1].mask, s.blocks, None)
  {
    SiblingsAreNotNested(stack[|stack| - 1].mask, stack[|stack| - 1].mask);
  }

  lemma PlanFlip(s: State, stack: seq<Level>, instr: Instr)
    requires Inv(s, stack) && instr.ChangeMask? && Flips(stack, instr.next)
    ensures var top := |stack| - 1;
            MakePlan(s, instr) == Plan([s.blocks[top].changeMask], stack[top].mask, s.blocks[..top], Some(Some(s.last)))
  {
    var top := |stack| - 1;
    SiblingsApart(stack[top].mask, instr.next);
    var branch := FindOpenMask(s, stack[top].mask, |s.blocks|);
    assert branch == Some(top);
    var parent := FindOpenMask(s, stack[top - 1].mask, top);
    assert parent == Some(top - 1);
  }

  lemma PlanClose(s: State, stack: seq<Level>, instr: Instr, j: nat)
    requires Inv(s, stack) && ClosesTo(stack, instr, j)
    ensures var plan := MakePlan(s, instr);
            && plan.inherited == stack[|stack| - 1].mask
            && plan.blocks == s.blocks[..j + 1] && plan.opens == None
            && forall q :: q in plan.parents <==> q == s.last || IsEndOf(s, j + 1, |s.blocks|, q)
  {
    OpenCountIs(s, stack, j, |stack|);
    ClosedParentsAre(s, j + 1, |s.blocks|, [s.last]);
  }

  // ----- the invariant is kept -----

  /** What a step leaves as it was, and the mask of the node it adds. */
  predicate Grown(s: State, s': State, instr: Instr, mask: ExecCondition) {
    && s.Ok() && s'.Ok()
    && s'.last == |s.nodes| && |s'.nodes| == |s.nodes| + 1
    && (forall i | 0 <= i < |s.nodes| :: s'.nodes[i].mask == s.nodes[i].mask && s'.nodes[i].instr == s.nodes[i].instr)
    && s'.nodes[s'.last].instr == instr && s'.nodes[s'.last].mask == mask
  }

  lemma StepGrows(s: State, instr: Instr)
    requires s.Ok()
    ensures Grown(s, Step(s, instr), instr, NewMask(instr, MakePlan(s, instr).inherited))
  {
  }

  lemma LevelsGrow(s: State, s': State, stack: seq<Level>, instr: Instr, mask: ExecCondition)
    requires Levels(s, stack) && Grown(s, s', instr, mask) && s'.blocks == s.blocks
    ensures Levels(s', stack)
  {
    forall j | 0 <= j < |stack| ensures s'.MaskOf(j) == s.MaskOf(j) { }
  }

  lemma LevelsPrefix(s: State, s': State, stack: seq<Level>, k: nat)
    requires Levels(s, stack) && 1 <= k <= |stack|
    requires s'.Ok() && s'.nodes == s.nodes && s'.last == s.last && s'.blocks == s.blocks[..k]
    ensures Levels(s', stack[..k])
  {
    forall j | 0 <= j < k ensures s'.MaskOf(j) == s.MaskOf(j) && stack[..k][j] == stack[j] { }
  }

  lemma LevelsPush(s: State, s': State, stack: seq<Level>, open: OpenMask, level: Level)
    requires Levels(s, stack)
    requires s'.Ok() && s'.nodes == s.nodes && s'.last == s.last && s'.blocks == s.blocks + [open]
    requires s.blocks[|s.blocks| - 1].changeMask < open.End() <= open.changeMask <= s.last < |s.nodes|
    requires s.nodes[open.changeMask].mask == level.mask && open.previousBranchEnd.Some? == level.elseTaken
    requires level.elseTaken ==> open.End() < open.changeMask
    requires IsStrictSubsetOf(stack[|stack| - 1].mask, level.mask)
    requires level.elseTaken ==> EndedUnder(s.nodes[open.End()].mask, level, stack[|stack| - 1])
    ensures Levels(s', stack + [level])
  {
    ChainPush(stack, level);
    OrderPush(s, s', open);
    forall j | 0 <= j < |stack| ensures s'.MaskOf(j) == s.MaskOf(j) { }
  }

  lemma ChainPush(stack: seq<Level>, level: Level)
    requires Chain(stack) && IsStrictSubsetOf(stack[|stack| - 1].mask, level.mask)
    ensures Chain(stack + [level])
  {
    forall i | 0 <= i < |stack| ensures stack[i].mask.conds < level.mask.conds {
      assert stack[i].mask.conds <= stack[|stack| - 1].mask.conds;
    }
  }

  lemma OrderPush(s: State, s': State, open: OpenMask)
    requires s.Ok() && s'.Ok() && Ordered(s)
    requires s'.nodes == s.nodes && s'.last == s.last && s'.blocks == s.blocks + [open]
    requires s.blocks[|s.blocks| - 1].changeMask < open.End() <= open.changeMask <= s.last
    requires open.previousBranchEnd.Some? ==> open.End() < open.changeMask
    ensures Ordered(s')
  {
    var n := |s.blocks|;
    forall i | 0 <= i < n ensures s.blocks[i].changeMask < open.End() {
      if i < n - 1 { assert s.blocks[i].changeMask < s.blocks[n - 1].End(); }
    }
  }

  lemma KeepInv(s: State, s': State, stack: seq<Level>, instr: Instr)
    requires Inv(s, stack) && Grown(s, s', instr, stack[|stack| - 1].mask) && s'.blocks == s.blocks
    requires !instr.Jump?
    ensures Inv(s', stack)
  {
    LevelsGrow(s, s', stack, instr, stack[|stack| - 1].mask);
  }

  lemma EnterInv(s: State, s': State, stack: seq<Level>, instr: Instr)
    requires Inv(s, stack) && Enters(stack, instr)
    requires Grown(s, s', instr, instr.next) && s'.blocks == s.blocks + [OpenMask(|s.nodes|, None)]
    ensures Inv(s', stack + [Level(instr.next, false)])
  {
    var grown := s'.(blocks := s.blocks);
    LevelsGrow(s, grown, stack, instr, instr.next);
    LevelsPush(grown, s', stack, OpenMask(|s.nodes|, None), Level(instr.next, false));
  }

  lemma FlipInv(s: State, s': State, stack: seq<Level>, instr: Instr)
    requires Inv(s, stack) && instr.ChangeMask? && Flips(stack, instr.next)
    requires Grown(s, s', instr, instr.next)
    requires s'.blocks == s.blocks[..|stack| - 1] + [OpenMask(|s.nodes|, Some(s.last))]
    ensures Inv(s', stack[..|stack| - 1] + [Level(instr.next, true)])
  {
    var top := |stack| - 1;
    SiblingsApart(stack[top].mask, instr.next);
    forall lane { SiblingsSplit(lane, stack[top].mask, instr.next); }
    var cut := s.(blocks := s.blocks[..top]);
    LevelsPrefix(s, cut, stack, top);
    var grown := s'.(blocks := s.blocks[..top]);
    LevelsGrow(cut, grown, stack[..top], instr, instr.next);
    LevelsPush(grown, s', stack[..top], OpenMask(|s.nodes|, Some(s.last)), Level(instr.next, true));
  }

  lemma CloseInv(s: State, s': State, stack: seq<Level>, instr: Instr, j: nat)
    requires Inv(s, stack) && j < |stack| && !instr.Jump?
    requires Grown(s, s', instr, stack[j].mask) && s'.blocks == s.blocks[..j + 1]
    ensures Inv(s', stack[..j + 1])
  {
    var cut := s.(blocks := s.blocks[..j + 1]);
    LevelsPrefix(s, cut, stack, j + 1);
    LevelsGrow(cut, s', stack[..j + 1], instr, stack[j].mask);
  }

  /** The ends of different blocks, and the last node, never coincide downwards. */
  lemma EndsApart(s: State, stack: seq<Level>, i: nat, j: nat)
    requires Levels(s, stack) && i < j <= |stack|
    ensures s.blocks[i].End() <= s.blocks[i].changeMask
    ensures j < |stack| ==> s.blocks[i].changeMask < s.blocks[j].End() <= s.last
    ensures i < |stack| - 1 ==> s.blocks[i].changeMask < s.last
  {
    if i < |stack| - 1 { assert s.blocks[i].changeMask < s.blocks[|stack| - 1].End(); }
  }

  // ----- where lanes wait, before and after -----

  lemma FailingIs(s: State, stack: seq<Level>, lane: Lane, j: nat)
    requires Inv(s, stack) && j < |stack|
    requires !Holds(lane, stack[j].mask)
    requires forall i | 0 <= i < j :: Holds(lane, stack[i].mask)
    ensures exists k :: 0 <= k < |s.blocks| && !Holds(lane, s.MaskOf(k))
    ensures FirstFailing(s, lane, 0) == j
  {
    assert !Holds(lane, s.MaskOf(j));
    var r := FirstFailing(s, lane, 0);
    assert r >= j;
  }

  /** A lane that fails the top mask has an outermost failing level. */
  lemma {:induction false} OutermostFailing(stack: seq<Level>, lane: Lane, n: nat) returns (j: nat)
    requires Chain(stack) && n < |stack| && !Holds(lane, stack[n].mask)
    ensures 1 <= j <= n && !Holds(lane, stack[j].mask)
    ensures forall i | 0 <= i < j :: Holds(lane, stack[i].mask)
    ensures forall i | j <= i < |stack| :: !Holds(lane, stack[i].mask)
  {
    if Holds(lane, stack[n - 1].mask) {
      j := n;
      forall i | 0 <= i < j ensures Holds(lane, stack[i].mask) {
        assert stack[i].mask.conds <= stack[n - 1].mask.conds;
      }
      forall i | j <= i < |stack| ensures !Holds(lane, stack[i].mask) {
        assert stack[n].mask.conds <= stack[i].mask.conds;
      }
    } else {
      j := OutermostFailing(stack, lane, n - 1);
    }
  }

  /** Either the lane runs the last node, or it waits at the end of one block. */
  lemma CursorIs(s: State, stack: seq<Level>, lane: Lane) returns (j: nat)
    requires Inv(s, stack)
    ensures j <= |stack|
    ensures forall i | 0 <= i < |stack| :: Holds(lane, stack[i].mask) <==> i < j
    ensures Cursor(s, lane) == if j == |stack| then s.last else s.blocks[j].End()
  {
    var top := |stack| - 1;
    if Holds(lane, stack[top].mask) {
      j := |stack|;
      forall i | 0 <= i < |stack| ensures Holds(lane, stack[i].mask) {
        assert stack[i].mask.conds <= stack[top].mask.conds;
      }
    } else {
      j := OutermostFailing(stack, lane, top);
      FailingIs(s, stack, lane, j);
    }
  }

  predicate CursorFollows(s: State, s': State, movers: set<nat>, lane: Lane)
    requires s.Ok() && s.nodes[s.last].mask == s.MaskOf(|s.blocks| - 1)
    requires s'.Ok() && s'.nodes[s'.last].mask == s'.MaskOf(|s'.blocks| - 1)
  {
    Cursor(s', lane) == if Cursor(s, lane) in movers then |s.nodes| else Cursor(s, lane)
  }

  lemma KeepCursor(s: State, s': State, stack: seq<Level>, to: Node, lane: Lane)
    requires Inv(s, stack) && KeepsMask(stack, to.instr) && to.mask == stack[|stack| - 1].mask
    requires Inv(s', stack) && Grown(s, s', to.instr, to.mask) && s'.blocks == s.blocks
    ensures CursorFollows(s, s', MoversTo(s, [s.last], to, lane), lane)
    ensures Cursor(s, lane) in MoversTo(s, [s.last], to, lane) <==> Holds(lane, to.mask)
  {
    var top := |stack| - 1;
    var j := CursorIs(s, stack, lane);
    var j' := CursorIs(s', stack, lane);
    assert j == j';
    if j == |stack| {
      assert Holds(lane, stack[top].mask);
      SiblingsAreNotNested(stack[top].mask, stack[top].mask);
    } else {
      EndsApart(s, stack, j, |stack|);
      assert !Holds(lane, stack[top].mask);
    }
  }

  lemma EnterCursor(s: State, s': State, stack: seq<Level>, stack': seq<Level>, to: Node, lane: Lane)
    requires Inv(s, stack) && Enters(stack, to.instr) && to.mask == to.instr.next
    requires stack' == stack + [Level(to.mask, false)]
    requires Inv(s', stack') && Grown(s, s', to.instr, to.mask) && s'.blocks == s.blocks + [OpenMask(|s.nodes|, None)]
    ensures CursorFollows(s, s', MoversTo(s, [s.last], to, lane), lane)
  {
    var top := |stack| - 1;
    var j := CursorIs(s, stack, lane);
    var j' := CursorIs(s', stack', lane);
    assert forall i | 0 <= i < |stack| :: stack'[i] == stack[i];
    if j == |stack| {
      assert Holds(lane, stack[top].mask);
      SiblingsAreNotNested(stack[top].mask, to.mask);
      assert j' >= |stack|;
    } else {
      EndsApart(s, stack, j, |stack|);
      assert !Holds(lane, stack[top].mask);
      assert j == j';
    }
  }

  /** The level at which a lane waits after a flip: the new branch takes the lanes that
      waited at the flipped block, and makes the lanes of the ended branch wait. */
  lemma FlipFailing(stack: seq<Level>, stack': seq<Level>, next: ExecCondition, lane: Lane, c: nat, c': nat)
    requires Chain(stack) && Flips(stack, next) && stack' == stack[..|stack| - 1] + [Level(next, true)]
    requires c <= |stack| && (forall i | 0 <= i < |stack| :: Holds(lane, stack[i].mask) <==> i < c)
    requires c' <= |stack| && (forall i | 0 <= i < |stack| :: Holds(lane, stack'[i].mask) <==> i < c')
    ensures c' == if c == |stack| then |stack| - 1 else if c == |stack| - 1 then |stack| else c
  {
    var top := |stack| - 1;
    SiblingsSplit(lane, stack[top].mask, next);
    assert forall i | 0 <= i < top :: stack'[i] == stack[i];
    assert Holds(lane, stack[top - 1].mask) <==> top - 1 < c;
    assert Holds(lane, stack[top].mask) <==> top < c;
    assert Holds(lane, stack'[top].mask) <==> top < c';
    if c < top {
      assert !Holds(lane, stack'[c].mask) && (c > 0 ==> Holds(lane, stack'[c - 1].mask));
    }
  }

  lemma FlipMoves(s: State, stack: seq<Level>, to: Node, lane: Lane, c: nat)
    requires Inv(s, stack) && to.instr.ChangeMask? && Flips(stack, to.mask)
    requires c <= |stack| && (forall i | 0 <= i < |stack| :: Holds(lane, stack[i].mask) <==> i < c)
    ensures var n := if c == |stack| then s.last else s.blocks[c].End();
            n in MoversTo(s, [s.blocks[|stack| - 1].changeMask], to, lane) <==> c == |stack| - 1
  {
    var top := |stack| - 1;
    var flipped := s.nodes[s.blocks[top].changeMask];
    assert flipped.mask == stack[top].mask;
    if c < top {
      EndsApart(s, stack, c, top);
    } else if c == top {
      SiblingsApart(stack[top].mask, to.mask);
      assert Leaves(flipped, to);
      assert !Holds(lane, flipped.mask);
    } else {
      assert Holds(lane, stack[top].mask);
      assert IsElseOf(flipped, to);
    }
  }

  lemma FlipCursor(s: State, s': State, stack: seq<Level>, stack': seq<Level>, to: Node, lane: Lane)
    requires Inv(s, stack) && to.instr.ChangeMask? && to.mask == to.instr.next && Flips(stack, to.mask)
    requires stack' == stack[..|stack| - 1] + [Level(to.mask, true)]
    requires Inv(s', stack') && Grown(s, s', to.instr, to.mask)
    requires s'.blocks == s.blocks[..|stack| - 1] + [OpenMask(|s.nodes|, Some(s.last))]
    ensures CursorFollows(s, s', MoversTo(s, [s.blocks[|stack| - 1].changeMask], to, lane), lane)
  {
    var c := CursorIs(s, stack, lane);
    var c' := CursorIs(s', stack', lane);
    FlipFailing(stack, stack', to.mask, lane, c, c');
    FlipMoves(s, stack, to, lane, c);
  }

  /** The parents of a closing node: where the lanes of every closed block wait. */
  ghost predicate ClosingParents(s: State, parents: seq<nat>, j: nat)
    requires s.Ok() && j < |s.blocks|
  {
    forall q :: q in parents <==> q == s.last || IsEndOf(s, j + 1, |s.blocks|, q)
  }

  /** A lane whose first branch ended leaves it for the closing node. */
  lemma EndedMoves(s: State, stack: seq<Level>, to: Node, lane: Lane, j: nat, c: nat)
    requires Inv(s, stack) && ClosesTo(stack, to.instr, j)
    requires to.instr.EndPgm? || to.mask == stack[j].mask
    requires j < c < |stack| && Holds(lane, stack[c - 1].mask) && !Holds(lane, stack[c].mask) && stack[c].elseTaken
    ensures var end := s.nodes[s.blocks[c].End()]; Admits(end, to, Holds(lane, end.mask))
  {
    var ended := s.nodes[s.blocks[c].End()].mask;
    assert EndedUnder(ended, stack[c], stack[c - 1]);
    if to.instr.ChangeMask? {
      assert stack[j].mask.conds <= stack[c - 1].mask.conds <= ended.conds;
      SiblingsAreNotNested(ended, to.mask);
    }
  }

  lemma SkippedMoves(s: State, stack: seq<Level>, to: Node, lane: Lane, j: nat, c: nat)
    requires Inv(s, stack) && ClosesTo(stack, to.instr, j)
    requires to.instr.EndPgm? || to.mask == stack[j].mask
    requires j < c < |stack| && !Holds(lane, stack[c].mask) && !stack[c].elseTaken
    ensures var end := s.nodes[s.blocks[c].End()]; Admits(end, to, Holds(lane, end.mask))
  {
    assert s.nodes[s.blocks[c].End()].mask == s.MaskOf(c) == stack[c].mask;
    assert stack[j].mask.conds < stack[c].mask.conds;
  }

  /** A lane that holds the returned-to mask waits at a parent of the closing node and moves. */
  lemma ClosingMoves(s: State, stack: seq<Level>, parents: seq<nat>, to: Node, lane: Lane, j: nat, c: nat)
    requires Inv(s, stack) && ClosesTo(stack, to.instr, j) && ClosingParents(s, parents, j)
    requires to.instr.EndPgm? || to.mask == stack[j].mask
    requires j < c <= |stack| && (forall i | 0 <= i < |stack| :: Holds(lane, stack[i].mask) <==> i < c)
    ensures (if c == |stack| then s.last else s.blocks[c].End()) in MoversTo(s, parents, to, lane)
  {
    if c == |stack| {
      assert Holds(lane, stack[c - 1].mask);
      SiblingsAreNotNested(stack[c - 1].mask, stack[j].mask);
    } else if stack[c].elseTaken {
      EndedMoves(s, stack, to, lane, j, c);
    } else {
      SkippedMoves(s, stack, to, lane, j, c);
    }
  }

  lemma CloseCursor(s: State, s': State, stack: seq<Level>, parents: seq<nat>, to: Node, lane: Lane, j: nat)
    requires Inv(s, stack) && ClosesTo(stack, to.instr, j) && ClosingParents(s, parents, j)
    requires !to.instr.EndPgm? && to.mask == stack[j].mask
    requires Inv(s', stack[..j + 1]) && Grown(s, s', to.instr, to.mask) && s'.blocks == s.blocks[..j + 1]
    ensures CursorFollows(s, s', MoversTo(s, parents, to, lane), lane)
  {
    var c := CursorIs(s, stack, lane);
    var c' := CursorIs(s', stack[..j + 1], lane);
    if j < c {
      ClosingMoves(s, stack, parents, to, lane, j, c);
      assert Holds(lane, stack[j].mask);
      assert c' == j + 1 by { assert forall i | 0 <= i < j + 1 :: stack[..j + 1][i] == stack[i]; }
    } else {
      assert !Holds(lane, stack[..j + 1][j].mask);
      assert c' == c by { assert forall i | 0 <= i < j + 1 :: stack[..j + 1][i] == stack[i]; }
      forall k | j < k < |stack| ensures s.blocks[c].End() < s.blocks[k].End() {
        EndsApart(s, stack, c, k);
      }
      EndsApart(s, stack, c, |stack|);
    }
  }
}
