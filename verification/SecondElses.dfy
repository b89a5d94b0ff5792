/** Why a block may have one else only: programs that are nested but for second elses. */
module SecondElses {
  import opened Options
  import opened ExecConditions
  import opened MaskCfg
  import opened MaskPaths
  import opened MaskRuns
  import opened LanePaths

  /** The flip of the innermost block, whether it has had its else or not. */
  predicate FlipsFreely(stack: seq<Level>, next: ExecCondition) {
    |stack| >= 2 && NegatedSiblingParent(stack[|stack| - 1].mask, next) == Some(stack[|stack| - 2].mask)
  }

  predicate SecondElse(stack: seq<Level>, instr: Instr) {
    instr.ChangeMask? && FlipsFreely(stack, instr.next) && stack[|stack| - 1].elseTaken
  }

  function Flipped(stack: seq<Level>, next: ExecCondition): seq<Level>
    requires |stack| >= 1
  {
    stack[..|stack| - 1] + [Level(next, true)]
  }

  /** Well nested but for second elses, each of which some lane takes. */
  ghost predicate NestedButElses(stack: seq<Level>, prog: seq<Instr>)
    requires |stack| >= 1
    decreases |prog|
  {
    prog != [] ==>
      if SecondElse(stack, prog[0]) then
        && (exists lane :: Holds(lane, prog[0].next))
        && NestedButElses(Flipped(stack, prog[0].next), prog[1..])
      else Fits(stack, prog[0]) && NestedButElses(Next(stack, prog[0]), prog[1..])
  }

  /** The first second else, of a program that is well nested up to it. */
  lemma {:induction false} FirstSecondElse(stack: seq<Level>, prog: seq<Instr>) returns (k: nat)
    requires |stack| >= 1 && NestedButElses(stack, prog) && !WellNested(stack, prog)
    ensures k < |prog| && WellNested(stack, prog[..k]) && SecondElse(FinalStack(stack, prog[..k]), prog[k])
    ensures exists lane :: Holds(lane, prog[k].next)
    decreases |prog|
  {
    if SecondElse(stack, prog[0]) {
      k := 0;
      assert prog[..0] == [];
    } else {
      k := FirstSecondElse(Next(stack, prog[0]), prog[1..]);
      assert prog[..k + 1][1..] == prog[1..][..k] && prog[..k + 1][0] == prog[0];
      k := k + 1;
    }
  }

  // ----- lanes that are left behind -----

  /** A second flip of the same block runs under a mask that the lanes of the first
      branch satisfy, yet those lanes stay behind where their branch ended: the code
      keeps only the end of the branch flipped last. */
  lemma SecondElseStrandsLanes(s: State, stack: seq<Level>, instr: Instr, lane: Lane, out: seq<string>)
    requires Reached(s, stack, lane, out) && SecondElse(stack, instr) && Holds(lane, instr.next)
    ensures var s', end := Step(s, instr), s.blocks[|stack| - 1].End();
            s'.nodes[s'.last].mask == instr.next && PathIs(s', lane, end, out) && Untouched(s', end)
  {
    var top := |stack| - 1;
    SiblingsApart(stack[top].mask, instr.next);
    SiblingsSplit(lane, stack[top].mask, instr.next);
    FlipAgain(s, stack, instr);
    var c := CursorIs(s, stack, lane);
    assert c == top by { assert Holds(lane, stack[top - 1].mask) <==> top - 1 < c; }
    StepGrows(s, instr);
    StepExtends(s, instr, lane);
    PathGrows(s, Step(s, instr), instr, Movers(s, instr, lane), lane, Cursor(s, lane), out);
    EndIsLeft(s, stack, instr);
  }

  lemma FlipAgain(s: State, stack: seq<Level>, instr: Instr)
    requires Inv(s, stack) && SecondElse(stack, instr)
    ensures var top := |stack| - 1;
            && MakePlan(s, instr).parents == [s.blocks[top].changeMask]
            && s.blocks[top].changeMask != s.blocks[top].End()
            && MakePlan(s, instr).blocks == s.blocks[..top] && MakePlan(s, instr).opens == Some(Some(s.last))
  {
    var top := |stack| - 1;
    SiblingsApart(stack[top].mask, instr.next);
    assert FindOpenMask(s, stack[top].mask, |s.blocks|) == Some(top);
    assert FindOpenMask(s, stack[top - 1].mask, top) == Some(top - 1);
  }

  /** No block refers to the node, and it is not the last one. */
  predicate Untouched(s: State, n: nat)
    requires s.Ok()
  {
    && n < |s.nodes| && n != s.last
    && forall j | 0 <= j < |s.blocks| :: s.blocks[j].End() != n && s.blocks[j].changeMask != n
  }

  lemma EndIsLeft(s: State, stack: seq<Level>, instr: Instr)
    requires Inv(s, stack) && SecondElse(stack, instr)
    ensures Untouched(Step(s, instr), s.blocks[|stack| - 1].End())
  {
    var top := |stack| - 1;
    FlipAgain(s, stack, instr);
    var end := s.blocks[top].End();
    forall i | 0 <= i < top ensures s.blocks[i].End() != end && s.blocks[i].changeMask != end {
      EndsApart(s, stack, i, top);
    }
  }

  lemma AppendedIsNot(parents: seq<nat>, end: nat, x: nat)
    requires x !in parents && end != x
    ensures x !in AppendUnique(parents, end)
  {}

  lemma {:induction false} ClosedParentsAreBlocks(s: State, keep: nat, n: nat, parents: seq<nat>, x: nat)
    requires s.Ok() && keep <= n <= |s.blocks| && Untouched(s, x) && x !in parents
    ensures x !in ClosedParents(s, keep, n, parents)
    decreases n
  {
    if n == keep {
    } else {
      AppendedIsNot(parents, s.blocks[n - 1].End(), x);
      ClosedParentsAreBlocks(s, keep, n - 1, AppendUnique(parents, s.blocks[n - 1].End()), x);
    }
  }

  /** Whatever comes next, a node no block refers to gets no child and stays so. */
  lemma StepLeaves(s: State, instr: Instr, x: nat)
    requires s.Ok() && Untouched(s, x)
    ensures x !in MakePlan(s, instr).parents && Untouched(Step(s, instr), x)
  {
    PlanLeaves(s, instr, x);
    var s', plan := Step(s, instr), MakePlan(s, instr);
    forall j | 0 <= j < |s'.blocks| ensures s'.blocks[j].End() != x && s'.blocks[j].changeMask != x {
      if j < |plan.blocks| { assert s'.blocks[j] == s.blocks[j]; }
    }
  }

  lemma PlanLeaves(s: State, instr: Instr, x: nat)
    requires s.Ok() && Untouched(s, x)
    ensures x !in MakePlan(s, instr).parents
  {
    var parents := if s.nodes[s.last].instr.Jump? then [] else [s.last];
    ClosedParentsAreBlocks(s, OpenCount(s, Default(), |s.blocks|), |s.blocks|, parents, x);
    if instr.ChangeMask? {
      ClosedParentsAreBlocks(s, OpenCount(s, instr.next, |s.blocks|), |s.blocks|, parents, x);
    }
  }

  /** A lane that waits at such a node never leaves it. */
  lemma {:induction false} StaysBehind(s: State, prog: seq<Instr>, lane: Lane, x: nat, out: seq<string>)
    requires s.Ok() && Untouched(s, x) && PathIs(s, lane, x, out)
    ensures Untouched(Run(s, prog), x) && PathIs(Run(s, prog), lane, x, out)
    decreases |prog|
  {
    if prog == [] {
    } else {
      StepLeaves(s, prog[0], x);
      StepGrows(s, prog[0]);
      StepExtends(s, prog[0], lane);
      PathGrows(s, Step(s, prog[0]), prog[0], Movers(s, prog[0], lane), lane, x, out);
      StaysBehind(Step(s, prog[0]), prog[1..], lane, x, out);
    }
  }

  lemma {:induction false} RunSplit(s: State, a: seq<Instr>, b: seq<Instr>)
    requires s.Ok()
    ensures Run(s, a + b) == Run(Run(s, a), b)
    decreases |a|
  {
    if a == [] {
      assert a + b == b;
    } else {
      assert (a + b)[0] == a[0] && (a + b)[1..] == a[1..] + b;
      RunSplit(Step(s, a[0]), a[1..], b);
    }
  }

  lemma LeftBehind(s: State, stack: seq<Level>, instr: Instr, rest: seq<Instr>, lane: Lane, out: seq<string>)
      returns (g: State, end: nat)
    requires Reached(s, stack, lane, out) && SecondElse(stack, instr) && Holds(lane, instr.next)
    ensures g == Run(s, [instr] + rest) && end != g.last && PathIs(g, lane, end, out)
  {
    SecondElseStrandsLanes(s, stack, instr, lane, out);
    assert ([instr] + rest)[1..] == rest && ([instr] + rest)[0] == instr;
    g, end := Run(s, [instr] + rest), s.blocks[|stack| - 1].End();
    StaysBehind(Step(s, instr), rest, lane, end, out);
  }

  lemma ReachedAfter(front: seq<Instr>, lane: Lane) returns (s: State, stack: seq<Level>, out: seq<string>)
    requires WellNested(BOTTOM, front)
    ensures s == Run(Initial(), front) && stack == FinalStack(BOTTOM, front)
    ensures out == Executed(front, Default(), lane) && Reached(s, stack, lane, out)
  {
    s, stack, out := Run(Initial(), front), FinalStack(BOTTOM, front), Executed(front, Default(), lane);
    InitialReached(lane);
    RunReaches(Initial(), BOTTOM, front, lane, []);
    assert [] + out == out;
  }

  lemma RunAt(prog: seq<Instr>, k: nat) returns (rest: seq<Instr>)
    requires k < |prog|
    ensures Run(Initial(), prog + [EndPgm]) == Run(Run(Initial(), prog[..k]), [prog[k]] + rest)
  {
    rest := prog[k + 1..] + [EndPgm];
    assert prog + [EndPgm] == prog[..k] + ([prog[k]] + rest);
    RunSplit(Initial(), prog[..k], [prog[k]] + rest);
  }

  /** The path of a lane that takes a second else ends before the end of the program. */
  lemma StrandedLane(prog: seq<Instr>, k: nat, lane: Lane) returns (end: nat)
    requires k < |prog| && WellNested(BOTTOM, prog[..k]) && SecondElse(FinalStack(BOTTOM, prog[..k]), prog[k])
    requires Holds(lane, prog[k].next)
    ensures var g := Run(Initial(), prog + [EndPgm]);
            end != g.last && PathIs(g, lane, end, Executed(prog[..k], Default(), lane))
  {
    var s, stack, out := ReachedAfter(prog[..k], lane);
    var rest := RunAt(prog, k);
    var g;
    g, end := LeftBehind(s, stack, prog[k], rest, lane, out);
  }

  /** Of the programs that are well nested but for second elses, each of which some lane takes, exactly the
      well-nested ones keep every lane on a path that runs what it executes. */
  lemma LanesStayExactly(prog: seq<Instr>)
    requires NestedButElses(BOTTOM, prog)
    ensures var g := Run(Initial(), prog + [EndPgm]);
            (forall lane: Lane :: PathIs(g, lane, g.last, Executed(prog, Default(), lane)))
            <==> WellNested(BOTTOM, prog)
  {
    var g := Run(Initial(), prog + [EndPgm]);
    if WellNested(BOTTOM, prog) {
      forall lane: Lane ensures PathIs(g, lane, g.last, Executed(prog, Default(), lane)) {
        LaneFollowsItsPath(prog, lane);
      }
    } else {
      var k := FirstSecondElse(BOTTOM, prog);
      var lane: Lane :| Holds(lane, prog[k].next);
      var end := StrandedLane(prog, k, lane);
      assert !PathIs(g, lane, g.last, Executed(prog, Default(), lane));
    }
  }

  // ----- an example -----

  function Twice(a: string, text: string): seq<Instr>
    requires a != DEFAULT
  {
    var then_, else_ := ChangeMask(Mask({a})), ChangeMask(Mask({"!(" + a + ")"}));
    [then_, else_, then_, Ordinary(text)]
  }

  lemma TwiceIsNested(a: string, text: string)
    requires a != DEFAULT && !IsNegation(a)
    ensures var prog := Twice(a, text);
            && WellNested(BOTTOM, prog[..2])
            && FinalStack(BOTTOM, prog[..2]) == [Level(Default(), false), Level(Mask({"!(" + a + ")"}), true)]
            && SecondElse(FinalStack(BOTTOM, prog[..2]), prog[2])
  {
    var prog, not := Twice(a, text), "!(" + a + ")";
    var then_, else_ := prog[0], prog[1];
    assert MakeNot(a) == not && AreNegations(a, not) && AreNegations(not, a) && a != not;
    SiblingsExactly({}, a, not);
    SiblingsExactly({}, not, a);
    assert {} + {a} == {a} && {} + {not} == {not};
    var first := [Level(Default(), false), Level(Mask({a}), false)];
    var second := [Level(Default(), false), Level(Mask({not}), true)];
    assert a in {a} && IsStrictSupersetOf(Mask({a}), Default());
    assert Next(BOTTOM, then_) == first && Fits(BOTTOM, then_);
    assert not !in {a} && Flips(first, Mask({not})) && Fits(first, else_);
    assert Next(first, else_) == second by { assert first[..1] + [Level(Mask({not}), true)] == second; }
    assert prog[..2] == [then_, else_] && [then_, else_][1..] == [else_] && [else_][1..] == [];
    assert WellNested(second, []) && FinalStack(second, []) == second;
    assert WellNested(first, [else_]) && FinalStack(first, [else_]) == second;
  }

  /** If a, else, then a again: a lane on which a holds executes the text, but its path ends in the first branch. */
  lemma SecondElseMissesText(a: string, text: string, lane: Lane)
    requires a != DEFAULT && !IsNegation(a) && lane(a)
    ensures var g := Run(Initial(), Twice(a, text) + [EndPgm]);
            && Executed(Twice(a, text), Default(), lane) == [text]
            && exists end :: end != g.last && PathIs(g, lane, end, [])
  {
    var prog := Twice(a, text);
    TwiceIsNested(a, text);
    assert CondHolds(lane, a) && Holds(lane, Mask({a}));
    var end := StrandedLane(prog, 2, lane);
    assert prog[..2][1..] == [prog[1]] && [prog[1]][1..] == [];
    assert Executed([prog[1]], Mask({a}), lane) == [] + Executed([], prog[1].next, lane) == [];
    assert Executed(prog[..2], Default(), lane) == [] + Executed(prog[..2][1..], Mask({a}), lane) == [];
    ExecutesText(prog, a, text, lane);
  }

  lemma ExecutesText(prog: seq<Instr>, a: string, text: string, lane: Lane)
    requires a != DEFAULT && prog == Twice(a, text) && Holds(lane, Mask({a}))
    ensures Executed(prog, Default(), lane) == [text]
  {
    var p1, p2, p3, p4 := prog[1..], prog[1..][1..], prog[1..][1..][1..], prog[1..][1..][1..][1..];
    assert p3 == [Ordinary(text)] && p4 == [];
    assert Executed(p3, Mask({a}), lane) == [text] + Executed(p4, Mask({a}), lane) == [text];
    assert Executed(p2, prog[1].next, lane) == [] + Executed(p3, Mask({a}), lane);
    assert Executed(p1, Mask({a}), lane) == [] + Executed(p2, prog[1].next, lane);
  }
}
