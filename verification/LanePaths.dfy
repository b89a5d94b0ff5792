/** The theorems about the graph of a mask program. */
module LanePaths {
  import opened Options
  import opened ExecConditions
  import opened MaskCfg
  import opened MaskPaths
  import opened MaskRuns

  function Own(instr: Instr, mask: ExecCondition, lane: Lane): seq<string> {
    if instr.Ordinary? && Holds(lane, mask) then [instr.text] else []
  }

  lemma StackReturn(stack: seq<Level>, next: ExecCondition) returns (j: nat)
    requires Chain(stack) && OnStack(stack, next) && next != stack[|stack| - 1].mask
    ensures j < |stack| - 1 && stack[j].mask == next && ReturnTo(stack, next) == stack[..j + 1]
  {
    j :| 0 <= j < |stack| && stack[j].mask == next;
    ReturnLength(stack, j);
  }

  lemma FlipsAreNotNested(stack: seq<Level>, next: ExecCondition)
    requires |stack| >= 1 && (next == stack[|stack| - 1].mask || IsStrictSupersetOf(next, stack[|stack| - 1].mask)
             || IsStrictSubsetOf(next, stack[|stack| - 1].mask))
    ensures !Flips(stack, next)
  {
    SiblingsAreNotNested(stack[|stack| - 1].mask, next);
  }

  /** A step keeps the invariant and moves exactly the lanes that wait at its parents. */
  ghost predicate Follows(s: State, s': State, stack': seq<Level>, instr: Instr, lane: Lane)
    requires s.Ok() && s.nodes[s.last].mask == s.MaskOf(|s.blocks| - 1)
  {
    Inv(s', stack') && CursorFollows(s, s', Movers(s, instr, lane), lane)
  }

  lemma KeepFollows(s: State, stack: seq<Level>, instr: Instr, lane: Lane)
    requires Inv(s, stack) && KeepsMask(stack, instr)
    ensures Follows(s, Step(s, instr), stack, instr, lane)
    ensures Cursor(s, lane) in Movers(s, instr, lane) <==> Holds(lane, stack[|stack| - 1].mask)
  {
    StepGrows(s, instr);
    PlanKeep(s, stack, instr);
    KeepInv(s, Step(s, instr), stack, instr);
    KeepCursor(s, Step(s, instr), stack, NewNode(s, instr), lane);
  }

  lemma EnterFollows(s: State, stack: seq<Level>, instr: Instr, lane: Lane)
    requires Inv(s, stack) && Enters(stack, instr)
    ensures Follows(s, Step(s, instr), stack + [Level(instr.next, false)], instr, lane)
  {
    StepGrows(s, instr);
    EnterInv(s, Step(s, instr), stack, instr);
    EnterCursor(s, Step(s, instr), stack, stack + [Level(instr.next, false)], NewNode(s, instr), lane);
  }

  lemma FlipFollows(s: State, stack: seq<Level>, instr: Instr, lane: Lane)
    requires Inv(s, stack) && instr.ChangeMask? && Flips(stack, instr.next)
    ensures Follows(s, Step(s, instr), stack[..|stack| - 1] + [Level(instr.next, true)], instr, lane)
  {
    StepGrows(s, instr);
    PlanFlip(s, stack, instr);
    FlipInv(s, Step(s, instr), stack, instr);
    FlipCursor(s, Step(s, instr), stack, stack[..|stack| - 1] + [Level(instr.next, true)], NewNode(s, instr), lane);
  }

  lemma CloseFollows(s: State, stack: seq<Level>, instr: Instr, j: nat, lane: Lane)
    requires Inv(s, stack) && ClosesTo(stack, instr, j) && !instr.EndPgm?
    ensures Follows(s, Step(s, instr), stack[..j + 1], instr, lane)
  {
    StepGrows(s, instr);
    PlanClose(s, stack, instr, j);
    CloseInv(s, Step(s, instr), stack, instr, j);
    CloseCursor(s, Step(s, instr), stack, MakePlan(s, instr).parents, NewNode(s, instr), lane, j);
  }

  /** One step of a well-nested program: the stack is kept in step, and every lane
      either moves to the new node or goes on waiting where it was. */
  lemma StepFollows(s: State, stack: seq<Level>, instr: Instr, lane: Lane)
    requires Inv(s, stack) && Fits(stack, instr)
    ensures Follows(s, Step(s, instr), Next(stack, instr), instr, lane)
    ensures instr.Ordinary? ==> (Cursor(s, lane) in Movers(s, instr, lane) <==> Holds(lane, stack[|stack| - 1].mask))
  {
    if KeepsMask(stack, instr) {
      KeepFollows(s, stack, instr, lane);
    } else if Enters(stack, instr) {
      EnterFollows(s, stack, instr, lane);
    } else if instr.ChangeMask? && Flips(stack, instr.next) {
      FlipFollows(s, stack, instr, lane);
    } else if instr.ChangeMask? {
      var j := StackReturn(stack, instr.next);
      CloseFollows(s, stack, instr, j, lane);
    } else {
      ReturnLength(stack, 0);
      CloseFollows(s, stack, instr, 0, lane);
    }
  }

  /** The lane's path, where it ends, and what is on it. */
  predicate PathIs(s: State, lane: Lane, end: nat, out: seq<string>)
    requires s.Ok()
  {
    var path := Walk(s, 0, lane);
    path[|path| - 1] == end && Emitted(s, path) == out
  }

  lemma PathGrows(s: State, s': State, instr: Instr, movers: set<nat>, lane: Lane, end: nat, out: seq<string>)
    requires s.Ok() && s'.Ok() && Extends(s, s', movers, lane) && PathIs(s, lane, end, out)
    requires forall i | 0 <= i < |s.nodes| :: s'.nodes[i].instr == s.nodes[i].instr
    requires s'.nodes[|s.nodes|].instr == instr
    ensures if end in movers
            then PathIs(s', lane, |s.nodes|, out + (if instr.Ordinary? then [instr.text] else []))
            else PathIs(s', lane, end, out)
  {
    GrowWalk(s, s', movers, 0, lane);
    EmittedAppend(s, s', Walk(s, 0, lane), |s.nodes|);
  }

  lemma NextMask(stack: seq<Level>, instr: Instr)
    requires Chain(stack) && Fits(stack, instr)
    ensures var next := Next(stack, instr); next[|next| - 1].mask == NewMask(instr, stack[|stack| - 1].mask)
  {
    if instr.Unmask? { ReturnLength(stack, 0); }
    if instr.ChangeMask? && (IsStrictSubsetOf(instr.next, stack[|stack| - 1].mask)) {
      FlipsAreNotNested(stack, instr.next);
    }
  }

  /** The state of a run in which the lane has executed `out`. */
  ghost predicate Reached(s: State, stack: seq<Level>, lane: Lane, out: seq<string>) {
    Inv(s, stack) && PathIs(s, lane, Cursor(s, lane), out)
  }

  /** Everything one step does to a lane, said without the step itself. */
  lemma StepFacts(s: State, stack: seq<Level>, instr: Instr, lane: Lane)
      returns (s': State, stack': seq<Level>, movers: set<nat>)
    requires Inv(s, stack) && Fits(stack, instr)
    ensures s' == Step(s, instr) && stack' == Next(stack, instr) && Inv(s', stack')
    ensures CursorFollows(s, s', movers, lane) && Extends(s, s', movers, lane)
    ensures Grown(s, s', instr, stack'[|stack'| - 1].mask)
    ensures instr.Ordinary? ==> (Cursor(s, lane) in movers <==> Holds(lane, stack[|stack| - 1].mask))
  {
    s', stack', movers := Step(s, instr), Next(stack, instr), Movers(s, instr, lane);
    StepFollows(s, stack, instr, lane);
    StepExtends(s, instr, lane);
    StepGrows(s, instr);
  }

  lemma Advance(s: State, s': State, stack: seq<Level>, stack': seq<Level>, instr: Instr, movers: set<nat>,
                lane: Lane, out: seq<string>)
    requires Reached(s, stack, lane, out) && Inv(s', stack')
    requires CursorFollows(s, s', movers, lane) && Extends(s, s', movers, lane)
    requires Grown(s, s', instr, stack'[|stack'| - 1].mask)
    requires instr.Ordinary? ==> (Cursor(s, lane) in movers <==> Holds(lane, stack[|stack| - 1].mask))
    ensures Reached(s', stack', lane, out + Own(instr, stack[|stack| - 1].mask, lane))
  {
    PathGrows(s, s', instr, movers, lane, Cursor(s, lane), out);
  }

  lemma StepReaches(s: State, stack: seq<Level>, instr: Instr, lane: Lane, out: seq<string>)
      returns (s': State, stack': seq<Level>, mask': ExecCondition, out': seq<string>)
    requires Reached(s, stack, lane, out) && Fits(stack, instr)
    ensures s' == Step(s, instr) && stack' == Next(stack, instr)
    ensures out' == out + Own(instr, stack[|stack| - 1].mask, lane)
    ensures mask' == NewMask(instr, stack[|stack| - 1].mask) == stack'[|stack'| - 1].mask
    ensures Reached(s', stack', lane, out')
  {
    var movers;
    s', stack', movers := StepFacts(s, stack, instr, lane);
    out' := out + Own(instr, stack[|stack| - 1].mask, lane);
    Advance(s, s', stack, stack', instr, movers, lane, out);
    NextMask(stack, instr);
    mask' := NewMask(instr, stack[|stack| - 1].mask);
  }

  lemma Regroup(a: seq<string>, b: seq<string>, c: seq<string>)
    ensures a + (b + c) == a + b + c
  {
  }

  lemma ExecutedStep(prog: seq<Instr>, mask: ExecCondition, lane: Lane, out: seq<string>)
    requires prog != []
    ensures out + Executed(prog, mask, lane) ==
            out + Own(prog[0], mask, lane) + Executed(prog[1..], NewMask(prog[0], mask), lane)
  {
    Regroup(out, Own(prog[0], mask, lane), Executed(prog[1..], NewMask(prog[0], mask), lane));
  }

  function FinalStack(stack: seq<Level>, prog: seq<Instr>): (r: seq<Level>)
    requires |stack| >= 1
    ensures |r| >= 1
    decreases |prog|
  {
    if prog == [] then stack else FinalStack(Next(stack, prog[0]), prog[1..])
  }

  /** At every point of a well-nested run the lane's path has run what the lane executed. */
  lemma {:induction false} RunReaches(s: State, stack: seq<Level>, prog: seq<Instr>, lane: Lane, out: seq<string>)
    requires Reached(s, stack, lane, out) && WellNested(stack, prog)
    ensures Reached(Run(s, prog), FinalStack(stack, prog), lane, out + Executed(prog, stack[|stack| - 1].mask, lane))
    decreases |prog|
  {
    if prog == [] {
      assert out + [] == out;
    } else {
      ExecutedStep(prog, stack[|stack| - 1].mask, lane, out);
      var s1, stack1, mask1, out1 := StepReaches(s, stack, prog[0], lane, out);
      RunReaches(s1, stack1, prog[1..], lane, out1);
    }
  }

  lemma {:induction false} RunAppend(s: State, prog: seq<Instr>, instr: Instr)
    requires s.Ok()
    ensures Run(s, prog + [instr]) == Step(Run(s, prog), instr)
    decreases |prog|
  {
    if prog == [] {
      assert [] + [instr] == [instr];
      assert Run(Step(s, instr), []) == Step(s, instr);
    } else {
      assert (prog + [instr])[1..] == prog[1..] + [instr];
      RunAppend(Step(s, prog[0]), prog[1..], instr);
    }
  }

  /** The end of the program is reached from wherever a lane waits. */
  lemma EndMoves(s: State, stack: seq<Level>, lane: Lane)
    requires Inv(s, stack)
    ensures Cursor(s, lane) in Movers(s, EndPgm, lane)
  {
    PlanClose(s, stack, EndPgm, 0);
    var c := CursorIs(s, stack, lane);
    assert Holds(lane, stack[0].mask);
    ClosingMoves(s, stack, MakePlan(s, EndPgm).parents, NewNode(s, EndPgm), lane, 0, c);
  }

  lemma EndReached(s: State, stack: seq<Level>, lane: Lane, out: seq<string>) returns (g: State)
    requires Reached(s, stack, lane, out)
    ensures g == Step(s, EndPgm) && g.nodes[g.last].instr == EndPgm && PathIs(g, lane, g.last, out)
  {
    g := Step(s, EndPgm);
    EndMoves(s, stack, lane);
    StepExtends(s, EndPgm, lane);
    StepGrows(s, EndPgm);
    PathGrows(s, g, EndPgm, Movers(s, EndPgm, lane), lane, Cursor(s, lane), out);
  }

  lemma InitialReached(lane: Lane)
    ensures Reached(Initial(), BOTTOM, lane, [])
  {
    var s := Initial();
    assert Successor(s, 0, lane) == None;
    assert Walk(s, 0, lane) == [0];
    assert Emitted(s, [0][1..]) == [];
  }

  /** Every lane that has executed `out` so far runs the rest of its program to the end. */
  lemma RunEnds(s0: State, stack: seq<Level>, prog: seq<Instr>, lane: Lane, out: seq<string>)
      returns (g: State)
    requires Reached(s0, stack, lane, out) && WellNested(stack, prog)
    ensures g == Run(s0, prog + [EndPgm]) && g.nodes[g.last].instr == EndPgm
    ensures PathIs(g, lane, g.last, out + Executed(prog, stack[|stack| - 1].mask, lane))
  {
    RunReaches(s0, stack, prog, lane, out);
    RunAppend(s0, prog, EndPgm);
    var run := out + Executed(prog, stack[|stack| - 1].mask, lane);
    g := EndReached(Run(s0, prog), FinalStack(stack, prog), lane, run);
  }

  /** The main theorem. The path a lane takes from the entry of the graph leads to the
      end of the program, and the instructions on it are, in order, exactly those the
      masks let the lane execute. */
  lemma LaneFollowsItsPath(prog: seq<Instr>, lane: Lane)
    requires WellNested(BOTTOM, prog)
    ensures var g := Run(Initial(), prog + [EndPgm]);
            g.nodes[g.last].instr == EndPgm && PathIs(g, lane, g.last, Executed(prog, Default(), lane))
  {
    InitialReached(lane);
    var out := Executed(prog, Default(), lane);
    assert [] + out == out;
    var g := RunEnds(Initial(), BOTTOM, prog, lane, []);
  }
}
