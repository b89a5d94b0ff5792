/** The pass itself: an object that reads the instruction list once and updates its
    node list, its last node and its stack of open masks in place. */
module CfgBuilder {
  import opened Options
  import opened ExecConditions
  import opened MaskCfg

  /** A list of nodes of the graph, each once. */
  predicate DistinctNodes(s: State, parents: seq<nat>) {
    && (forall i, j | 0 <= i < j < |parents| :: parents[i] != parents[j])
    && (forall i | 0 <= i < |parents| :: parents[i] < |s.nodes|)
  }

  lemma AppendDistinct(s: State, parents: seq<nat>, x: nat)
    requires DistinctNodes(s, parents) && x < |s.nodes|
    ensures DistinctNodes(s, AppendUnique(parents, x))
  {}

  lemma {:induction false} ClosedParentsDistinct(s: State, keep: nat, n: nat, parents: seq<nat>)
    requires s.Ok() && keep <= n <= |s.blocks| && DistinctNodes(s, parents)
    ensures DistinctNodes(s, ClosedParents(s, keep, n, parents))
    decreases n
  {
    if n == keep {
    } else {
      AppendDistinct(s, parents, s.blocks[n - 1].End());
      ClosedParentsDistinct(s, keep, n - 1, AppendUnique(parents, s.blocks[n - 1].End()));
    }
  }

  lemma ClosePlanDistinct(s: State, target: ExecCondition, start: seq<nat>)
    requires s.Ok() && DistinctNodes(s, start)
    ensures DistinctNodes(s, ClosePlan(s, target, start).parents)
  {
    ClosedParentsDistinct(s, OpenCount(s, target, |s.blocks|), |s.blocks|, start);
  }

  lemma PlanParentsDistinct(s: State, instr: Instr)
    requires s.Ok()
    ensures DistinctNodes(s, MakePlan(s, instr).parents)
  {
    var start: seq<nat> := if s.nodes[s.last].instr.Jump? then [] else [s.last];
    ClosePlanDistinct(s, Default(), start);
    if instr.ChangeMask? {
      ClosePlanDistinct(s, instr.next, start);
    }
  }

  class Builder {
    var nodes: seq<Node>
    var last: nat
    var maskedBlocks: seq<OpenMask>

    function Abs(): State
      reads this
    {
      State(nodes, last, maskedBlocks)
    }

    ghost predicate Valid()
      reads this
    {
      Abs().Ok()
    }

    constructor ()
      ensures Valid() && Abs() == Initial()
    {
      nodes := [Node(Entry, Default(), [], [])];
      last := 0;
      maskedBlocks := [OpenMask(0, None)];
    }

    method FindOpenMaskIndex(cond: ExecCondition, end: nat) returns (r: Option<nat>)
      requires Valid() && end <= |maskedBlocks|
      ensures r == FindOpenMask(Abs(), cond, end)
    {
      var index: nat := end;
      while index > 0
        invariant index <= end
        invariant FindOpenMask(Abs(), cond, end) == FindOpenMask(Abs(), cond, index)
      {
        index := index - 1;
        if nodes[maskedBlocks[index].changeMask].mask == cond {
          return Some(index);
        }
      }
      return None;
    }

    method CloseOpenMasks(cond: ExecCondition, parents: seq<nat>) returns (all: seq<nat>)
      requires Valid()
      modifies this`maskedBlocks
      ensures Valid()
      ensures var keep := OpenCount(old(Abs()), cond, |old(maskedBlocks)|);
              && maskedBlocks == old(maskedBlocks)[..keep]
              && all == ClosedParents(old(Abs()), keep, |old(maskedBlocks)|, parents)
    {
      ghost var was, n := Abs(), |maskedBlocks|;
      ghost var keep := OpenCount(was, cond, n);
      all := parents;
      while |maskedBlocks| > 1 && IsStrictSupersetOf(nodes[maskedBlocks[|maskedBlocks| - 1].changeMask].mask, cond)
        invariant 1 <= |maskedBlocks| <= n && maskedBlocks == was.blocks[..|maskedBlocks|]
        invariant keep == OpenCount(was, cond, |maskedBlocks|)
        invariant ClosedParents(was, keep, n, parents) == ClosedParents(was, keep, |maskedBlocks|, all)
      {
        var open := maskedBlocks[|maskedBlocks| - 1];
        maskedBlocks := maskedBlocks[..|maskedBlocks| - 1];
        all := AppendUnique(all, open.End());
      }
    }

    method Emit(instr: Instr, mask: ExecCondition, parents: seq<nat>)
      requires DistinctNodes(Abs(), parents)
      modifies this`nodes, this`last
      ensures last == |old(nodes)|
      ensures nodes == Attach(old(nodes), parents, |old(nodes)|) + [Node(instr, mask, parents, [])]
    {
      var x := |nodes|;
      ghost var was := nodes;
      nodes := nodes + [Node(instr, mask, [], [])];
      for i := 0 to |parents|
        invariant |nodes| == x + 1
        invariant nodes[x] == Node(instr, mask, parents[..i], [])
        invariant forall k | 0 <= k < x ::
                    nodes[k] == if k in parents[..i] then was[k].(children := was[k].children + [x]) else was[k]
      {
        var p := parents[i];
        assert p in parents && p !in parents[..i];
        assert parents[..i + 1] == parents[..i] + [p];
        nodes := nodes[x := nodes[x].(parents := nodes[x].parents + [p])];
        nodes := nodes[p := nodes[p].(children := nodes[p].children + [x])];
      }
      assert parents[..|parents|] == parents;
      last := x;
    }

    /** The else of the innermost block with the current mask: where the block to
        replace starts, and how many blocks stay below it. */
    method FindElse(prev: ExecCondition, parent: ExecCondition) returns (branch: Option<nat>, cut: nat)
      requires Valid()
      ensures branch == FindOpenMask(Abs(), prev, |maskedBlocks|)
      ensures branch.Some? ==>
                var below := FindOpenMask(Abs(), parent, branch.value);
                1 <= cut <= |maskedBlocks| &&
                cut == (if below.Some? then below.value else if branch.value > 0 then branch.value - 1 else 0) + 1
    {
      cut := 0;
      branch := FindOpenMaskIndex(prev, |maskedBlocks|);
      if branch.Some? {
        var below := FindOpenMaskIndex(parent, branch.value);
        cut := if below.Some? then below.value + 1 else if branch.value > 0 then branch.value else 1;
      }
    }

    /** Closes what the instruction closes, and says with which parents and inherited
        mask its node is made, how many blocks stay, and which block it opens. */
    method Prepare(instr: Instr)
        returns (parents: seq<nat>, inherited: ExecCondition, cut: nat, opens: Option<Option<nat>>)
      requires Valid()
      modifies this`maskedBlocks
      ensures Valid() && 1 <= cut <= |maskedBlocks|
      ensures Plan(parents, inherited, maskedBlocks[..cut], opens) == MakePlan(old(Abs()), instr)
    {
      inherited := nodes[last].mask;
      parents := if nodes[last].instr.Jump? then [] else [last];
      opens := None;
      var prev := inherited;
      if instr.ChangeMask? {
        var elseParent := NegatedSiblingParent(prev, instr.next);
        if IsStrictSupersetOf(instr.next, prev) {
          opens := Some(None);
        } else if IsStrictSubsetOf(instr.next, prev) {
          parents := CloseOpenMasks(instr.next, parents);
        } else if elseParent.Some? {
          var branch, below := FindElse(prev, elseParent.value);
          if branch.Some? {
            parents := [maskedBlocks[branch.value].changeMask];
            inherited := nodes[maskedBlocks[branch.value].changeMask].mask;
            opens := Some(Some(last));
            return parents, inherited, below, opens;
          }
        }
      } else if instr.EndPgm? || instr.Unmask? {
        parents := CloseOpenMasks(Default(), parents);
      }
      cut := |maskedBlocks|;
      assert maskedBlocks[..cut] == maskedBlocks;
    }

    /** Adds the planned node and opens the planned block. */
    method Commit(instr: Instr, plan: Plan)
      requires Valid() && DistinctNodes(Abs(), plan.parents)
      requires maskedBlocks == plan.blocks
      modifies this
      ensures last == |old(nodes)|
      ensures nodes
           == Attach(old(nodes), plan.parents, last) + [Node(instr, NewMask(instr, plan.inherited), plan.parents, [])]
      ensures maskedBlocks == if plan.opens.Some? then plan.blocks + [OpenMask(last, plan.opens.value)] else plan.blocks
    {
      Emit(instr, NewMask(instr, plan.inherited), plan.parents);
      if plan.opens.Some? {
        maskedBlocks := maskedBlocks + [OpenMask(last, plan.opens.value)];
      }
    }

    /** One turn of the loop of the pass. */
    method Take(instr: Instr)
      requires Valid()
      modifies this
      ensures Valid() && Abs() == Step(old(Abs()), instr)
    {
      ghost var was := Abs();
      var parents, inherited, cut, opens := Prepare(instr);
      maskedBlocks := maskedBlocks[..cut];
      PlanParentsDistinct(was, instr);
      Commit(instr, Plan(parents, inherited, maskedBlocks, opens));
      assert Abs() == Step(was, instr);
    }

    method TakeAll(prog: seq<Instr>)
      requires Valid()
      modifies this
      ensures Valid() && Abs() == Run(old(Abs()), prog)
    {
      ghost var was := Abs();
      var i := 0;
      while i < |prog|
        invariant i <= |prog| && Valid()
        invariant Run(was, prog) == Run(Abs(), prog[i..])
      {
        Take(prog[i]);
        i := i + 1;
      }
    }
  }
}
