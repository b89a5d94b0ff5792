/** Rebuilding the if/else graph of a kernel from a flat instruction list whose
    instructions change the execution mask. The builder keeps a stack of open
    masks; the graph it grows is judged lane by lane. */
module MaskCfg {
  import opened Options
  import opened ExecConditions

  // A ChangeMask carries the condition its predicate register holds at that point.
  datatype Instr =
    | Entry
    | Ordinary(text: string)
    | ChangeMask(next: ExecCondition)
    | Unmask
    | EndPgm
    | Jump

  // Nodes are identified by their position in the list of nodes built so far.
  datatype Node = Node(instr: Instr, mask: ExecCondition, parents: seq<nat>, children: seq<nat>)

  datatype OpenMask = OpenMask(changeMask: nat, previousBranchEnd: Option<nat>) {
    /** The node at which the lanes outside the current branch wait. */
    function End(): nat {
      if previousBranchEnd.Some? then previousBranchEnd.value else changeMask
    }
  }

  datatype State = State(nodes: seq<Node>, last: nat, blocks: seq<OpenMask>) {
    predicate Ok() {
      && last < |nodes|
      && |blocks| >= 1
      && (forall j | 0 <= j < |blocks| :: blocks[j].changeMask < |nodes| && blocks[j].End() < |nodes|)
      && (forall i, k | 0 <= i < |nodes| && 0 <= k < |nodes[i].children| :: i < nodes[i].children[k] < |nodes|)
    }

    function MaskOf(j: nat): ExecCondition
      requires Ok() && j < |blocks|
    {
      nodes[blocks[j].changeMask].mask
    }
  }

  function Initial(): (s: State)
    ensures s.Ok()
  {
    State([Node(Entry, Default(), [], [])], 0, [OpenMask(0, None)])
  }

  // ----- one step, as the pass takes it -----

  function AppendUnique(parents: seq<nat>, n: nat): seq<nat> {
    if n in parents then parents else parents + [n]
  }

  /** How many blocks stay open when masks are closed down to `target`. */
  function OpenCount(s: State, target: ExecCondition, n: nat): (r: nat)
    requires s.Ok() && 1 <= n <= |s.blocks|
    ensures 1 <= r <= n
  {
    if n > 1 && IsStrictSupersetOf(s.MaskOf(n - 1), target) then OpenCount(s, target, n - 1) else n
  }

  /** The parents gained by closing blocks `n - 1` down to `keep`. */
  function ClosedParents(s: State, keep: nat, n: nat, parents: seq<nat>): seq<nat>
    requires s.Ok() && keep <= n <= |s.blocks|
    decreases n
  {
    if n == keep then parents
    else ClosedParents(s, keep, n - 1, AppendUnique(parents, s.blocks[n - 1].End()))
  }

  /** The last of the first `end` blocks whose mask is `cond`. */
  function FindOpenMask(s: State, cond: ExecCondition, end: nat): (r: Option<nat>)
    requires s.Ok() && end <= |s.blocks|
    ensures r.Some? ==> r.value < end && s.MaskOf(r.value) == cond
    ensures forall j | (if r.Some? then r.value + 1 else 0) <= j < end :: s.MaskOf(j) != cond
  {
    if end == 0 then None
    else if s.MaskOf(end - 1) == cond then Some(end - 1)
    else FindOpenMask(s, cond, end - 1)
  }

  datatype Plan = Plan(parents: seq<nat>, inherited: ExecCondition, blocks: seq<OpenMask>, opens: Option<Option<nat>>)

  function ClosePlan(s: State, target: ExecCondition, parents: seq<nat>): Plan
    requires s.Ok()
  {
    var keep := OpenCount(s, target, |s.blocks|);
    Plan(ClosedParents(s, keep, |s.blocks|, parents), s.nodes[s.last].mask, s.blocks[..keep], None)
  }

  /** Parents and mask of the next node, the blocks that stay open, and whether
      a block is opened and with which previous branch end. */
  function MakePlan(s: State, instr: Instr): (plan: Plan)
    requires s.Ok()
    ensures 1 <= |plan.blocks| <= |s.blocks| && plan.blocks == s.blocks[..|plan.blocks|]
    ensures plan.opens.Some? && plan.opens.value.Some? ==> plan.opens.value.value == s.last
  {
    var prev := s.nodes[s.last].mask;
    var parents := if s.nodes[s.last].instr.Jump? then [] else [s.last];
    match instr
    case ChangeMask(next) =>
      if IsStrictSupersetOf(next, prev) then Plan(parents, prev, s.blocks, Some(None))
      else if IsStrictSubsetOf(next, prev) then ClosePlan(s, next, parents)
      else
        var sibling := NegatedSiblingParent(prev, next);
        var branch := FindOpenMask(s, prev, |s.blocks|);
        if sibling.None? || branch.None? then Plan(parents, prev, s.blocks, None)
        else
          var parent := FindOpenMask(s, sibling.value, branch.value);
          var parentIndex := if parent.Some? then parent.value else if branch.value > 0 then branch.value - 1 else 0;
          Plan([s.blocks[branch.value].changeMask], s.MaskOf(branch.value),
               s.blocks[..parentIndex + 1], Some(Some(s.last)))
    case Unmask => ClosePlan(s, Default(), parents)
    case EndPgm => ClosePlan(s, Default(), parents)
    case _ => Plan(parents, prev, s.blocks, None)
  }

  function NewMask(instr: Instr, inherited: ExecCondition): ExecCondition {
    match instr
    case ChangeMask(next) => next
    case Unmask => Default()
    case _ => inherited
  }

  /** Every parent gets the new node `x` as its next child. */
  function Attach(nodes: seq<Node>, parents: seq<nat>, x: nat): (r: seq<Node>)
    ensures |r| == |nodes|
    ensures forall i | 0 <= i < |nodes| ::
              r[i] == if i in parents then nodes[i].(children := nodes[i].children + [x]) else nodes[i]
  {
    seq(|nodes|, i requires 0 <= i < |nodes| =>
      if i in parents then nodes[i].(children := nodes[i].children + [x]) else nodes[i])
  }

  function Step(s: State, instr: Instr): (r: State)
    requires s.Ok()
    ensures r.Ok()
  {
    var plan := MakePlan(s, instr);
    var x := |s.nodes|;
    var node := Node(instr, NewMask(instr, plan.inherited), plan.parents, []);
    var nodes := Attach(s.nodes, plan.parents, x) + [node];
    StaysOk(s, nodes, plan.blocks, if plan.opens.Some? then [OpenMask(x, plan.opens.value)] else []);
    State(nodes, x, if plan.opens.Some? then plan.blocks + [OpenMask(x, plan.opens.value)] else plan.blocks)
  }

  lemma StaysOk(s: State, nodes: seq<Node>, blocks: seq<OpenMask>, more: seq<OpenMask>)
    requires s.Ok() && |nodes| == |s.nodes| + 1 && nodes[|s.nodes|].children == []
    requires forall i | 0 <= i < |s.nodes| ::
               nodes[i].children == s.nodes[i].children || nodes[i].children == s.nodes[i].children + [|s.nodes|]
    requires 1 <= |blocks| <= |s.blocks| && blocks == s.blocks[..|blocks|]
    requires forall open | open in more :: open.changeMask < |nodes| && open.End() < |nodes|
    ensures State(nodes, |s.nodes|, blocks + more).Ok()
  {
    var r := State(nodes, |s.nodes|, blocks + more);
    forall j | 0 <= j < |r.blocks| ensures r.blocks[j].changeMask < |nodes| && r.blocks[j].End() < |nodes| {
      if j < |blocks| { assert r.blocks[j] == s.blocks[j]; } else { assert r.blocks[j] in more; }
    }
    forall i, k | 0 <= i < |nodes| && 0 <= k < |nodes[i].children| ensures i < nodes[i].children[k] < |nodes| {
      if i < |s.nodes| && k < |s.nodes[i].children| { assert nodes[i].children[k] == s.nodes[i].children[k]; }
    }
  }

  function Run(s: State, prog: seq<Instr>): (r: State)
    requires s.Ok()
    ensures r.Ok()
    decreases |prog|
  {
    if prog == [] then s else Run(Step(s, prog[0]), prog[1..])
  }
}
