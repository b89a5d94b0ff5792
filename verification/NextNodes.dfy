/** Which nodes the next node hangs under and which blocks stay open, for any program: also behind jumps, and where mask
    changes are not nested. */
module NextNodes {
  import opened Options
  import opened ExecConditions
  import opened MaskCfg
  import opened MaskPaths

  function Current(s: State): ExecCondition
    requires s.Ok()
  {
    s.nodes[s.last].mask
  }

  /** The instruction closes blocks, down to this mask. */
  predicate Closes(s: State, instr: Instr)
    requires s.Ok()
  {
    instr.Unmask? || instr.EndPgm? || (instr.ChangeMask? && IsStrictSubsetOf(instr.next, Current(s)))
  }

  function ClosedTo(instr: Instr): ExecCondition { if instr.ChangeMask? then instr.next else Default() }

  predicate Opens(s: State, instr: Instr)
    requires s.Ok()
  {
    instr.ChangeMask? && IsStrictSubsetOf(Current(s), instr.next)
  }

  /** The current mask and the next one add a condition and its negation to a common part. */
  ghost predicate Turns(s: State, instr: Instr, common: ExecCondition)
    requires s.Ok()
  {
    instr.ChangeMask? && exists c, d ::
      && AreNegations(c, d) && c !in common.conds && d !in common.conds
      && Current(s).conds == common.conds + {c} && instr.next.conds == common.conds + {d}
  }

  /** Block `j` is the innermost of the first `n` with this mask. */
  predicate Innermost(s: State, mask: ExecCondition, n: nat, j: nat)
    requires s.Ok() && n <= |s.blocks|
  {
    j < n && s.MaskOf(j) == mask && forall k | j < k < n :: s.MaskOf(k) != mask
  }

  predicate NoneWith(s: State, mask: ExecCondition, n: nat)
    requires s.Ok() && n <= |s.blocks|
  {
    forall k | 0 <= k < n :: s.MaskOf(k) != mask
  }

  /** Block `j` is turned to its else. */
  ghost predicate TurnsAt(s: State, instr: Instr, common: ExecCondition, j: nat)
    requires s.Ok()
  {
    Turns(s, instr, common) && Innermost(s, Current(s), |s.blocks|, j)
  }

  ghost predicate TurnsNone(s: State, instr: Instr)
    requires s.Ok()
  {
    forall common: ExecCondition, j: nat :: !TurnsAt(s, instr, common, j)
  }

  /** The blocks that closing leaves: at least the outermost; those behind all restrict the mask further. */
  predicate LeftOpen(s: State, mask: ExecCondition, keep: nat)
    requires s.Ok()
  {
    && 1 <= keep <= |s.blocks|
    && (forall k | keep <= k < |s.blocks| :: IsStrictSubsetOf(mask, s.MaskOf(k)))
    && (keep == 1 || !IsStrictSubsetOf(mask, s.MaskOf(keep - 1)))
  }

  // ---- the next node, blocks and mask ----

  lemma TurnsExactly(s: State, instr: Instr)
    requires s.Ok() && instr.ChangeMask?
    ensures match NegatedSiblingParent(Current(s), instr.next)
            case Some(common) => Turns(s, instr, common)
            case None => forall common: ExecCondition :: !Turns(s, instr, common)
    ensures forall a: ExecCondition, b: ExecCondition | Turns(s, instr, a) && Turns(s, instr, b) :: a == b
  {
    var cur, next := Current(s).conds, instr.next.conds;
    if AreSiblings(Current(s), instr.next) {
      var c, d :| c in cur && d in next && AreNegations(c, d) && cur - next == {c} && next - cur == {d};
      assert cur == cur * next + {c} && next == cur * next + {d};
    }
    forall common: ExecCondition | Turns(s, instr, common)
      ensures NegatedSiblingParent(Current(s), instr.next) == Some(common)
    {
      var c, d :| AreNegations(c, d) && c !in common.conds && d !in common.conds
                  && cur == common.conds + {c} && next == common.conds + {d};
      NegationsDiffer(c, d);
      assert cur - next == {c} && next - cur == {d} && cur * next == common.conds;
    }
  }

  lemma NegationsDiffer(c: string, d: string)
    requires AreNegations(c, d)
    ensures c != d
  {
    NegationsDisagree(_ => true, c, d);
  }

  lemma {:induction false} OpenCountLeaves(s: State, target: ExecCondition, n: nat)
    requires s.Ok() && 1 <= n <= |s.blocks|
    ensures var r := OpenCount(s, target, n);
            && (forall k | r <= k < n :: IsStrictSubsetOf(target, s.MaskOf(k)))
            && (r == 1 || !IsStrictSubsetOf(target, s.MaskOf(r - 1)))
  {
    if n == 1 || !IsStrictSupersetOf(s.MaskOf(n - 1), target) {
    } else {
      OpenCountLeaves(s, target, n - 1);
    }
  }

  /** The node that a step makes, for the instruction and with its mask. */
  lemma StepMakes(s: State, instr: Instr)
    requires s.Ok()
    ensures var s' := Step(s, instr);
            && s'.last == |s.nodes| && |s'.nodes| == |s.nodes| + 1 && s'.nodes[s'.last].instr == instr
            && (forall i | 0 <= i < |s.nodes| :: s'.nodes[i].instr == s.nodes[i].instr
                  && s'.nodes[i].mask == s.nodes[i].mask && s'.nodes[i].parents == s.nodes[i].parents)
            && Current(s') == match instr
                              case ChangeMask(next) => next
                              case Unmask => Default()
                              case _ => Current(s)
  {
  }

  /** A step carries out its plan. */
  lemma StepFollowsPlan(s: State, instr: Instr)
    requires s.Ok()
    ensures var s', plan := Step(s, instr), MakePlan(s, instr);
            && s'.last == |s.nodes| < |s'.nodes| && s'.nodes[s'.last].parents == plan.parents
            && s'.blocks == plan.blocks + if plan.opens.Some? then [OpenMask(s'.last, plan.opens.value)] else []
  {
  }

  lemma NoTurn(s: State, instr: Instr)
    requires s.Ok() && TurnsNone(s, instr) && instr.ChangeMask?
    ensures NegatedSiblingParent(Current(s), instr.next).None? || FindOpenMask(s, Current(s), |s.blocks|).None?
  {
    TurnsExactly(s, instr);
    var sibling, branch := NegatedSiblingParent(Current(s), instr.next), FindOpenMask(s, Current(s), |s.blocks|);
    assert sibling.Some? && branch.Some? ==> TurnsAt(s, instr, sibling.value, branch.value);
  }

  lemma PlanWithoutTurn(s: State, instr: Instr)
    requires s.Ok() && TurnsNone(s, instr)
    ensures var plan := MakePlan(s, instr);
            var start: seq<nat> := if s.nodes[s.last].instr.Jump? then [] else [s.last];
            && plan.opens == (if Opens(s, instr) then Some(None) else None)
            && if Closes(s, instr) then
                 var keep := OpenCount(s, ClosedTo(instr), |s.blocks|);
                 plan.blocks == s.blocks[..keep] && plan.parents == ClosedParents(s, keep, |s.blocks|, start)
               else plan.blocks == s.blocks && plan.parents == start
  {
    if instr.ChangeMask? { NoTurn(s, instr); }
  }

  ghost predicate HangsUnder(s: State, parents: seq<nat>, kept: nat)
    requires s.Ok()
  {
    forall p :: p in parents <==>
      (p == s.last && !s.nodes[s.last].instr.Jump?) || IsEndOf(s, kept, |s.blocks|, p)
  }

  lemma ClosingPlan(s: State, instr: Instr)
    requires s.Ok() && TurnsNone(s, instr) && Closes(s, instr)
    ensures var plan := MakePlan(s, instr);
            var kept := |plan.blocks|;
            && plan.opens.None? && 1 <= kept <= |s.blocks| && plan.blocks == s.blocks[..kept]
            && LeftOpen(s, ClosedTo(instr), kept) && HangsUnder(s, plan.parents, kept)
  {
    var start: seq<nat> := if s.nodes[s.last].instr.Jump? then [] else [s.last];
    var keep := OpenCount(s, ClosedTo(instr), |s.blocks|);
    PlanWithoutTurn(s, instr);
    OpenCountLeaves(s, ClosedTo(instr), |s.blocks|);
    ClosedParentsAre(s, keep, |s.blocks|, start);
  }

  lemma KeepingPlan(s: State, instr: Instr)
    requires s.Ok() && TurnsNone(s, instr) && !Closes(s, instr)
    ensures var plan := MakePlan(s, instr);
            && plan.opens == (if Opens(s, instr) then Some(None) else None)
            && plan.blocks == s.blocks && HangsUnder(s, plan.parents, |s.blocks|)
  {
    PlanWithoutTurn(s, instr);
    assert forall p: nat :: !IsEndOf(s, |s.blocks|, |s.blocks|, p);
  }

  /** Where nothing is turned to its else, the next node hangs under the last one, unless that is a jump, and under the
      ends of the blocks that it closes; and under nothing else. */
  lemma ParentsExactly(s: State, instr: Instr)
    requires s.Ok() && TurnsNone(s, instr)
    ensures var s' := Step(s, instr);
            var kept := if Opens(s, instr) then |s'.blocks| - 1 else |s'.blocks|;
            && 1 <= kept <= |s.blocks| && s'.blocks[..kept] == s.blocks[..kept]
            && (if Closes(s, instr) then LeftOpen(s, ClosedTo(instr), kept) else kept == |s.blocks|)
            && (Opens(s, instr) ==> s'.blocks[kept] == OpenMask(s'.last, None))
            && forall p :: p in s'.nodes[s'.last].parents <==>
                 (p == s.last && !s.nodes[s.last].instr.Jump?) || IsEndOf(s, kept, |s.blocks|, p)
  {
    StepFollowsPlan(s, instr);
    if Closes(s, instr) { ClosingPlan(s, instr); } else { KeepingPlan(s, instr); }
  }

  lemma PlanOfTurn(s: State, instr: Instr, common: ExecCondition, j: nat)
    requires s.Ok() && TurnsAt(s, instr, common, j)
    ensures var plan, below := MakePlan(s, instr), FindOpenMask(s, common, j);
            && plan.parents == [s.blocks[j].changeMask] && plan.opens == Some(Some(s.last))
            && |plan.blocks| == (if below.Some? then below.value else if j > 0 then j - 1 else 0) + 1
  {
    TurnsExactly(s, instr);
    SiblingsApart(Current(s), instr.next);
    assert FindOpenMask(s, Current(s), |s.blocks|) == Some(j);
  }

  /** Where block `j` is turned, the next node hangs under the mask change of that block alone. The blocks from it on
      are replaced by one whose first branch ended at the last node; so are those between it and the innermost block
      below that has the common mask, or, if there is none, the one right below it. */
  lemma TurnExactly(s: State, instr: Instr, common: ExecCondition, j: nat)
    requires s.Ok() && TurnsAt(s, instr, common, j)
    ensures var s' := Step(s, instr);
            && s'.nodes[s'.last].parents == [s.blocks[j].changeMask]
            && 2 <= |s'.blocks| <= |s.blocks| + 1
            && s'.blocks == s.blocks[..|s'.blocks| - 1] + [OpenMask(s'.last, Some(s.last))]
            && (if NoneWith(s, common, j) then |s'.blocks| - 2 == (if j == 0 then 0 else j - 1)
                else Innermost(s, common, j, |s'.blocks| - 2))
  {
    StepFollowsPlan(s, instr);
    PlanOfTurn(s, instr, common, j);
  }

  /** Block `k` of `s` is no longer open in `s'`. */
  predicate Closed(s: State, s': State, k: nat) {
    k < |s.blocks| && (k >= |s'.blocks| || s'.blocks[k] != s.blocks[k])
  }

  lemma ClosedFrom(s: State, s': State, instr: Instr) returns (kept: nat)
    requires s.Ok() && s' == Step(s, instr) && TurnsNone(s, instr)
    ensures kept <= |s.blocks| && s'.last < |s'.nodes|
    ensures forall k: nat :: Closed(s, s', k) <==> kept <= k < |s.blocks|
    ensures forall p :: p in s'.nodes[s'.last].parents <==>
              (p == s.last && !s.nodes[s.last].instr.Jump?) || IsEndOf(s, kept, |s.blocks|, p)
  {
    ParentsExactly(s, instr);
    kept := if Opens(s, instr) then |s'.blocks| - 1 else |s'.blocks|;
    forall k: nat ensures Closed(s, s', k) <==> kept <= k < |s.blocks| {
      if k < kept { assert s'.blocks[k] == s'.blocks[..kept][k] == s.blocks[..kept][k]; }
    }
  }

  lemma BehindJump(s: State, s': State, instr: Instr)
    requires s.Ok() && s' == Step(s, instr) && TurnsNone(s, instr)
    ensures s'.last < |s'.nodes|
    ensures !s.nodes[s.last].instr.Jump? ==> s.last in s'.nodes[s'.last].parents
    ensures s.nodes[s.last].instr.Jump? ==>
              && (s.last in s'.nodes[s'.last].parents <==>
                    exists k: nat :: Closed(s, s', k) && s.blocks[k].End() == s.last)
              && ((forall k: nat :: !Closed(s, s', k)) ==> s'.nodes[s'.last].parents == [])
  {
    var kept := ClosedFrom(s, s', instr);
    var parents := s'.nodes[s'.last].parents;
    if parents != [] && s.nodes[s.last].instr.Jump? {
      assert parents[0] in parents;
      var k :| kept <= k < |s.blocks| && parents[0] == s.blocks[k].End();
      assert Closed(s, s', k);
    }
  }

  // ---- on finished graphs ----

  lemma {:induction false} RunFrom(s: State, a: seq<Instr>, b: seq<Instr>)
    requires s.Ok()
    ensures Run(s, a + b) == Run(Run(s, a), b)
    decreases |a|
  {
    if a == [] {
      assert [] + b == b;
    } else {
      assert (a + b)[0] == a[0] && (a + b)[1..] == a[1..] + b;
      RunFrom(Step(s, a[0]), a[1..], b);
    }
  }

  /** Later steps change no instruction, mask or parent of a node. */
  lemma {:induction false} RunLeaves(s: State, prog: seq<Instr>)
    requires s.Ok()
    ensures var g := Run(s, prog);
            && |g.nodes| == |s.nodes| + |prog|
            && forall i | 0 <= i < |s.nodes| :: g.nodes[i].instr == s.nodes[i].instr
                 && g.nodes[i].mask == s.nodes[i].mask && g.nodes[i].parents == s.nodes[i].parents
    decreases |prog|
  {
    if prog == [] {
    } else {
      StepMakes(s, prog[0]);
      RunLeaves(Step(s, prog[0]), prog[1..]);
    }
  }

  lemma {:induction false} LastIsNewest(s: State, prog: seq<Instr>)
    requires s.Ok() && s.last == |s.nodes| - 1
    ensures Run(s, prog).last == |s.nodes| + |prog| - 1
    decreases |prog|
  {
    if prog == [] {
    } else {
      LastIsNewest(Step(s, prog[0]), prog[1..]);
    }
  }

  /** The state in front of instruction `i` of a program. */
  function At(prog: seq<Instr>, i: nat): (s: State)
    requires i <= |prog|
    ensures s.Ok()
  {
    Run(Initial(), prog[..i])
  }

  lemma StepsOn(prog: seq<Instr>, i: nat)
    requires i < |prog|
    ensures At(prog, i + 1) == Step(At(prog, i), prog[i]) && At(prog, i).last == i
    ensures |At(prog, i).nodes| == i + 1
    ensures var g := Run(Initial(), prog);
            && |g.nodes| == |prog| + 1 && g.nodes[i + 1].instr == prog[i]
            && g.nodes[i + 1].parents == At(prog, i + 1).nodes[i + 1].parents
            && g.nodes[i + 1].mask == At(prog, i + 1).nodes[i + 1].mask
            && g.nodes[i].instr == At(prog, i).nodes[i].instr
  {
    assert prog[..i + 1] == prog[..i] + [prog[i]] && prog == prog[..i + 1] + prog[i + 1..];
    RunFrom(Initial(), prog[..i], [prog[i]]);
    assert [prog[i]][1..] == [];
    assert Run(At(prog, i), [prog[i]]) == Run(Step(At(prog, i), prog[i]), []);
    RunFrom(Initial(), prog[..i + 1], prog[i + 1..]);
    LastIsNewest(Initial(), prog[..i]);
    RunLeaves(Initial(), prog[..i]);
    StepMakes(At(prog, i), prog[i]);
    RunLeaves(At(prog, i + 1), prog[i + 1..]);
  }

  /** In the graph of any program a jump is no parent of the next node, unless it is the end of an open block which that
      node closes; if nothing is closed, the next node has no parent at all. Behind any other node the next one has that
      node among its parents, unless it turns a block to its else. */
  lemma NothingBehindJumps(prog: seq<Instr>, i: nat)
    requires i < |prog| && TurnsNone(At(prog, i), prog[i])
    ensures |Run(Initial(), prog).nodes| == |prog| + 1
    ensures var g, s, s' := Run(Initial(), prog), At(prog, i), At(prog, i + 1);
            && (!g.nodes[i].instr.Jump? ==> i in g.nodes[i + 1].parents)
            && (g.nodes[i].instr.Jump? ==>
                  && (i in g.nodes[i + 1].parents <==> exists k: nat :: Closed(s, s', k) && s.blocks[k].End() == i)
                  && ((forall k: nat :: !Closed(s, s', k)) ==> g.nodes[i + 1].parents == []))
  {
    StepsOn(prog, i);
    BehindJump(At(prog, i), At(prog, i + 1), prog[i]);
  }
}
