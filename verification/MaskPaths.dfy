/** Lane by lane, the graph built from a well-nested mask program has exactly one
    path, and that path runs exactly the instructions the masks let the lane run. */
module MaskPaths {
  import opened Options
  import opened ExecConditions
  import opened MaskCfg

  // ----- well-nested mask programs -----

  datatype Level = Level(mask: ExecCondition, elseTaken: bool)

  predicate OnStack(stack: seq<Level>, mask: ExecCondition) {
    exists j :: 0 <= j < |stack| && stack[j].mask == mask
  }

  /** The flip of the innermost block to its else branch. */
  predicate Flips(stack: seq<Level>, next: ExecCondition) {
    && |stack| >= 2
    && !stack[|stack| - 1].elseTaken
    && NegatedSiblingParent(stack[|stack| - 1].mask, next) == Some(stack[|stack| - 2].mask)
  }

  /** A mask change keeps the mask, adds conditions to it, returns to a mask on the
      stack, or flips the innermost block to the else it has not had yet. */
  predicate Fits(stack: seq<Level>, instr: Instr)
    requires |stack| >= 1
  {
    var top := stack[|stack| - 1].mask;
    match instr
    case Ordinary(_) => true
    case Unmask => true
    case ChangeMask(next) =>
      || next == top
      || IsStrictSupersetOf(next, top)
      || (IsStrictSubsetOf(next, top) && OnStack(stack, next))
      || Flips(stack, next)
    case _ => false
  }

  /** The stack cut back to its innermost level with this mask. */
  function ReturnTo(stack: seq<Level>, mask: ExecCondition): (r: seq<Level>)
    requires |stack| >= 1
    ensures 1 <= |r| <= |stack| && r == stack[..|r|]
    ensures OnStack(stack, mask) ==> r[|r| - 1].mask == mask
  {
    if |stack| == 1 || stack[|stack| - 1].mask == mask then stack
    else
      assert OnStack(stack, mask) ==> OnStack(stack[..|stack| - 1], mask);
      ReturnTo(stack[..|stack| - 1], mask)
  }

  function Next(stack: seq<Level>, instr: Instr): (r: seq<Level>)
    requires |stack| >= 1
    ensures |r| >= 1
  {
    match instr
    case Unmask => ReturnTo(stack, Default())
    case ChangeMask(next) =>
      if next == stack[|stack| - 1].mask then stack
      else if IsStrictSupersetOf(next, stack[|stack| - 1].mask) then stack + [Level(next, false)]
      else if Flips(stack, next) then stack[..|stack| - 1] + [Level(next, true)]
      else ReturnTo(stack, next)
    case _ => stack
  }

  predicate WellNested(stack: seq<Level>, prog: seq<Instr>)
    requires |stack| >= 1
    decreases |prog|
  {
    prog == [] || (Fits(stack, prog[0]) && WellNested(Next(stack, prog[0]), prog[1..]))
  }

  const BOTTOM: seq<Level> := [Level(Default(), false)]

  // ----- what a lane executes -----

  function Executed(prog: seq<Instr>, mask: ExecCondition, lane: Lane): seq<string>
    decreases |prog|
  {
    if prog == [] then []
    else
      var own := if prog[0].Ordinary? && Holds(lane, mask) then [prog[0].text] else [];
      own + Executed(prog[1..], NewMask(prog[0], mask), lane)
  }

  // ----- how a lane walks the graph -----

  predicate IsElseOf(from: Node, to: Node) {
    to.instr.ChangeMask? && NegatedSiblingParent(from.mask, to.mask).Some?
  }

  predicate Leaves(from: Node, to: Node) {
    to.instr.EndPgm? || !IsSubsetOf(from.mask, to.mask)
  }

  /** A lane for which the node's mask holds stays out of the node's else branch;
      a lane for which it fails leaves the node's mask. */
  predicate Admits(from: Node, to: Node, holds: bool) {
    if holds then !IsElseOf(from, to) else Leaves(from, to)
  }

  function FirstAdmitted(nodes: seq<Node>, from: Node, children: seq<nat>, holds: bool): (r: Option<nat>)
    requires forall k | 0 <= k < |children| :: children[k] < |nodes|
    ensures r.Some? ==> r.value in children && Admits(from, nodes[r.value], holds)
    ensures r.None? ==> forall k | 0 <= k < |children| :: !Admits(from, nodes[children[k]], holds)
  {
    if children == [] then None
    else if Admits(from, nodes[children[0]], holds) then Some(children[0])
    else FirstAdmitted(nodes, from, children[1..], holds)
  }

  function Successor(s: State, n: nat, lane: Lane): (r: Option<nat>)
    requires s.Ok() && n < |s.nodes|
    ensures r.Some? ==> n < r.value < |s.nodes|
  {
    FirstAdmitted(s.nodes, s.nodes[n], s.nodes[n].children, Holds(lane, s.nodes[n].mask))
  }

  /** The path of a lane from node `n` to a node it cannot leave. */
  function Walk(s: State, n: nat, lane: Lane): (path: seq<nat>)
    requires s.Ok() && n < |s.nodes|
    ensures |path| >= 1 && path[0] == n
    ensures forall i | 0 <= i < |path| :: path[i] < |s.nodes|
    decreases |s.nodes| - n
  {
    var next := Successor(s, n, lane);
    if next.None? then [n] else [n] + Walk(s, next.value, lane)
  }

  function Emitted(s: State, path: seq<nat>): seq<string>
    requires forall i | 0 <= i < |path| :: path[i] < |s.nodes|
  {
    if path == [] then []
    else
      var instr := s.nodes[path[0]].instr;
      (if instr.Ordinary? then [instr.text] else []) + Emitted(s, path[1..])
  }

  // ----- where a lane waits -----

  /** The outermost block, from `j` on, whose mask fails for the lane. */
  function FirstFailing(s: State, lane: Lane, j: nat): (r: nat)
    requires s.Ok() && j < |s.blocks|
    requires exists k :: j <= k < |s.blocks| && !Holds(lane, s.MaskOf(k))
    ensures j <= r < |s.blocks| && !Holds(lane, s.MaskOf(r))
    ensures forall k | j <= k < r :: Holds(lane, s.MaskOf(k))
    decreases |s.blocks| - j
  {
    if !Holds(lane, s.MaskOf(j)) then j else FirstFailing(s, lane, j + 1)
  }

  function Cursor(s: State, lane: Lane): (n: nat)
    requires s.Ok() && s.nodes[s.last].mask == s.MaskOf(|s.blocks| - 1)
    ensures n < |s.nodes|
  {
    if Holds(lane, s.nodes[s.last].mask) then s.last
    else s.blocks[FirstFailing(s, lane, 0)].End()
  }

  // ----- the invariant of every well-nested run -----

  /** The open masks are the levels of the stack. */
  predicate Tracks(s: State, stack: seq<Level>) {
    && s.Ok()
    && |stack| == |s.blocks|
    && forall j | 0 <= j < |stack| ::
         s.MaskOf(j) == stack[j].mask && s.blocks[j].previousBranchEnd.Some? == stack[j].elseTaken
  }

  /** The levels form a chain growing strictly from the default mask. */
  predicate Chain(stack: seq<Level>) {
    && |stack| >= 1
    && stack[0] == Level(Default(), false)
    && (forall i, j | 0 <= i < j < |stack| :: IsStrictSubsetOf(stack[i].mask, stack[j].mask))
  }

  /** Blocks were opened, and their first branches ended, one after the other. */
  predicate Ordered(s: State)
    requires s.Ok()
  {
    && (forall j | 0 <= j < |s.blocks| :: s.blocks[j].End() <= s.blocks[j].changeMask <= s.last)
    && (forall j | 0 <= j < |s.blocks| && s.blocks[j].previousBranchEnd.Some? ::
          s.blocks[j].End() < s.blocks[j].changeMask)
    && (forall i, j | 0 <= i < j < |s.blocks| :: s.blocks[i].changeMask < s.blocks[j].End())
  }

  /** A first branch ended under a mask that, with the mask of the else branch, splits
      the lanes of the level below. */
  ghost predicate EndedUnder(ended: ExecCondition, level: Level, below: Level) {
    IsSubsetOf(below.mask, ended) && forall lane: Lane :: Splits(lane, ended, level.mask, below.mask)
  }

  ghost predicate BranchEnds(s: State, stack: seq<Level>)
    requires Tracks(s, stack)
  {
    forall j | 0 <= j < |stack| && stack[j].elseTaken ::
      j >= 1 && EndedUnder(s.nodes[s.blocks[j].End()].mask, stack[j], stack[j - 1])
  }

  ghost predicate Levels(s: State, stack: seq<Level>) {
    Tracks(s, stack) && Chain(stack) && Ordered(s) && BranchEnds(s, stack)
  }

  ghost predicate Inv(s: State, stack: seq<Level>) {
    && Levels(s, stack)
    && s.nodes[s.last].mask == stack[|stack| - 1].mask
    && !s.nodes[s.last].instr.Jump?
  }

  // ----- growing the graph by one node -----

  lemma AdmittedFrame(nodes: seq<Node>, nodes': seq<Node>, from: Node, children: seq<nat>, holds: bool)
    requires |nodes| <= |nodes'|
    requires forall k | 0 <= k < |children| :: children[k] < |nodes|
    requires forall i | 0 <= i < |nodes| :: nodes'[i].instr == nodes[i].instr && nodes'[i].mask == nodes[i].mask
    ensures FirstAdmitted(nodes', from, children, holds) == FirstAdmitted(nodes, from, children, holds)
  {
  }

  lemma AdmittedAppend(nodes: seq<Node>, from: Node, children: seq<nat>, x: nat, holds: bool)
    requires forall k | 0 <= k < |children| :: children[k] < |nodes|
    requires x < |nodes|
    ensures FirstAdmitted(nodes, from, children + [x], holds) ==
            if FirstAdmitted(nodes, from, children, holds).Some? then FirstAdmitted(nodes, from, children, holds)
            else if Admits(from, nodes[x], holds) then Some(x) else None
  {
    if children == [] {
      assert [] + [x] == [x];
    } else {
      assert (children + [x])[1..] == children[1..] + [x];
      AdmittedAppend(nodes, from, children[1..], x, holds);
    }
  }

  /** The nodes from which the lane goes on to the new node `to`, if it waits there. */
  function MoversTo(s: State, parents: seq<nat>, to: Node, lane: Lane): set<nat> {
    set n: nat | n < |s.nodes| && n in parents && Admits(s.nodes[n], to, Holds(lane, s.nodes[n].mask))
  }

  function NewNode(s: State, instr: Instr): Node
    requires s.Ok()
  {
    var plan := MakePlan(s, instr);
    Node(instr, NewMask(instr, plan.inherited), plan.parents, [])
  }

  function Movers(s: State, instr: Instr, lane: Lane): set<nat>
    requires s.Ok()
  {
    MoversTo(s, MakePlan(s, instr).parents, NewNode(s, instr), lane)
  }

  lemma GrowSuccessor(s: State, instr: Instr, n: nat, lane: Lane)
    requires s.Ok() && n < |s.nodes|
    ensures Successor(Step(s, instr), n, lane) ==
            if Successor(s, n, lane).Some? then Successor(s, n, lane)
            else if n in Movers(s, instr, lane) then Some(|s.nodes|) else None
  {
    var nodes, x, s' := s.nodes, |s.nodes|, Step(s, instr);
    var holds := Holds(lane, nodes[n].mask);
    FromMaskOnly(nodes, nodes[n], s'.nodes[n], nodes[n].children, holds);
    AdmittedFrame(nodes, s'.nodes, s'.nodes[n], nodes[n].children, holds);
    AdmittedAppend(s'.nodes, s'.nodes[n], nodes[n].children, x, holds);
  }

  lemma FromMaskOnly(nodes: seq<Node>, from: Node, from': Node, children: seq<nat>, holds: bool)
    requires forall k | 0 <= k < |children| :: children[k] < |nodes|
    requires from.mask == from'.mask
    ensures FirstAdmitted(nodes, from, children, holds) == FirstAdmitted(nodes, from', children, holds)
  {
  }

  predicate Extends(s: State, s': State, movers: set<nat>, lane: Lane)
    requires s.Ok() && s'.Ok()
  {
    && |s'.nodes| == |s.nodes| + 1
    && s'.nodes[|s.nodes|].children == []
    && (forall n | 0 <= n < |s.nodes| :: Successor(s', n, lane) ==
          if Successor(s, n, lane).Some? then Successor(s, n, lane)
          else if n in movers then Some(|s.nodes|) else None)
  }

  /** A step lengthens a lane's walk by at most the new node. */
  lemma {:induction false} GrowWalk(s: State, s': State, movers: set<nat>, n: nat, lane: Lane)
    requires s.Ok() && s'.Ok() && Extends(s, s', movers, lane) && n < |s.nodes|
    ensures var path := Walk(s, n, lane);
            Walk(s', n, lane) == if path[|path| - 1] in movers then path + [|s.nodes|] else path
    decreases |s.nodes| - n
  {
    var next := Successor(s, n, lane);
    if next.Some? {
      GrowWalk(s, s', movers, next.value, lane);
      var rest := Walk(s, next.value, lane);
      assert [n] + (rest + [|s.nodes|]) == ([n] + rest) + [|s.nodes|];
    } else if n in movers {
      assert Walk(s', |s.nodes|, lane) == [|s.nodes|];
    }
  }

  lemma StepExtends(s: State, instr: Instr, lane: Lane)
    requires s.Ok()
    ensures Extends(s, Step(s, instr), Movers(s, instr, lane), lane)
  {
    forall n: nat | n < |s.nodes| {
      GrowSuccessor(s, instr, n, lane);
    }
  }

  lemma {:induction false} EmittedAppend(s: State, s': State, path: seq<nat>, x: nat)
    requires forall i | 0 <= i < |path| :: path[i] < |s.nodes|
    requires |s.nodes| <= |s'.nodes| && x < |s'.nodes|
    requires forall i | 0 <= i < |s.nodes| :: s'.nodes[i].instr == s.nodes[i].instr
    ensures Emitted(s', path) == Emitted(s, path)
    ensures Emitted(s', path + [x]) ==
            Emitted(s, path) + (if s'.nodes[x].instr.Ordinary? then [s'.nodes[x].instr.text] else [])
  {
    if path == [] {
      assert [] + [x] == [x];
      assert Emitted(s', []) == [];
    } else {
      assert (path + [x])[1..] == path[1..] + [x];
      EmittedAppend(s, s', path[1..], x);
    }
  }

  // ----- the stack against the chain -----

  lemma {:induction false} ReturnLength(stack: seq<Level>, j: nat)
    requires Chain(stack) && j < |stack|
    ensures ReturnTo(stack, stack[j].mask) == stack[..j + 1]
  {
    if j == |stack| - 1 {
      assert stack[..j + 1] == stack;
    } else {
      var shorter := stack[..|stack| - 1];
      ReturnLength(shorter, j);
      assert shorter[..j + 1] == stack[..j + 1];
    }
  }

  lemma {:induction false} OpenCountIs(s: State, stack: seq<Level>, j: nat, n: nat)
    requires Inv(s, stack) && j < n <= |stack|
    ensures OpenCount(s, stack[j].mask, n) == j + 1
  {
    if n > j + 1 {
      OpenCountIs(s, stack, j, n - 1);
    }
  }

  predicate IsEndOf(s: State, lo: nat, hi: nat, q: nat)
    requires s.Ok() && hi <= |s.blocks|
  {
    exists k :: lo <= k < hi && q == s.blocks[k].End()
  }

  /** Closing collects the starting parents and the end of every closed block. */
  lemma {:induction false} ClosedParentsAre(s: State, keep: nat, n: nat, parents: seq<nat>)
    requires s.Ok() && keep <= n <= |s.blocks|
    ensures var r := ClosedParents(s, keep, n, parents);
            forall q :: q in r <==> q in parents || IsEndOf(s, keep, n, q)
    decreases n
  {
    if n == keep {
    } else {
      var end := s.blocks[n - 1].End();
      ClosedParentsAre(s, keep, n - 1, AppendUnique(parents, end));
      forall q ensures IsEndOf(s, keep, n, q) <==> q == end || IsEndOf(s, keep, n - 1, q) {
      }
    }
  }
}
