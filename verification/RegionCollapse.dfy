/** The passes that collapse if and if-else regions and join linear ones, editing the lists in place. A search that
    fails raises an exception; how far the edits came before it is not modelled. */
module RegionCollapse {
  import opened Options
  import opened RegionPaths
  import opened RegionLists
  import opened RegionEdits

  class RegionGraph {
    var regions: Graph

    /** Puts a region that contributes nothing between two regions and their common child. */
    method CreateNewRegion(p1: nat, p2: nat, j: nat) returns (made: Option<nat>)
      requires p1 != p2
      modifies this
      ensures if CanSubdivide(old(regions), p1, p2, j)
              then made == Some(|old(regions)|) && regions == Subdivide(old(regions), p1, p2, j)
              else made.None?
    {
      if !CanSubdivide(regions, p1, p2, j) { return None; }
      var id := |regions|;
      regions := regions + [Region(Linear, Nothing, [p1, p2], [j])];
      regions := WithKids(regions, p1, RemoveFirst(regions[p1].kids, j));
      regions := WithKids(regions, p2, RemoveFirst(regions[p2].kids, j));
      regions := WithParents(regions, j, ReplaceFirst(regions[j].parents, p1, id));
      regions := WithParents(regions, j, RemoveFirst(regions[j].parents, p2));
      regions := WithKids(regions, p1, regions[p1].kids + [id]);
      regions := WithKids(regions, p2, regions[p2].kids + [id]);
      made := Some(id);
    }

    /** Makes a region and hangs it between `before` and `next`, editing their lists. */
    method AddParentAndChild(p: Place) returns (made: Option<nat>)
      modifies this
      ensures match Placed(old(regions), p)
              case None => made.None?
              case Some(h) => made == Some(|old(regions)|) && regions == h
    {
      if !Fits(regions, p) { return None; }
      ghost var g := regions;
      var id := |regions|;
      regions := regions + [Region(p.kind, Between(p.start, p.end), [], [])];
      if p.before.Some? {
        var b := p.before.value;
        regions := regions[b := regions[b].(kids := ReplaceFirst(regions[b].kids, p.child, id))];
        regions := regions[id := regions[id].(parents := [b])];
      }
      if p.next.Some? {
        var n := p.next.value;
        regions := regions[n := regions[n].(parents := ReplaceFirst(regions[n].parents, p.end, id))];
        regions := regions[id := regions[id].(kids := [n])];
      }
      assert regions == Insert(g, p);
      made := Some(id);
    }

    /** Makes one linear region of `before` and `curr`, and of what follows if that is no branch; below a branch, of
        `curr` and whatever follows. Returns the region that stands for `before` afterwards. */
    method JoinRegions(before: nat, curr: nat, next: Option<nat>) returns (result: Option<nat>)
      requires before < |regions| && curr < |regions| && (next.Some? ==> next.value < |regions|)
      modifies this
      ensures Did(JoinEdit(old(regions), before, curr, next), regions, result)
    {
      if !regions[before].kind.Basic? {
        result := JoinLine(before, curr, next);
      } else if next.Some? && |regions[curr].parents| == 1 {
        var made := AddParentAndChild(Whole(regions, Linear, curr, next.value, before));
        result := if made.None? then None else Some(before);
      } else {
        result := Some(before);
      }
    }

    method JoinLine(before: nat, curr: nat, next: Option<nat>) returns (result: Option<nat>)
      requires before < |regions| && curr < |regions|
      modifies this
      ensures Did(LineEdit(old(regions), before, curr, next), regions, result)
    {
      var head := LineHead(regions, before, |regions|);
      var region := AddParentAndChild(PairPlace(regions, before, curr, next));
      if region.None? { return None; }
      result := Some(head);
      if GoesFurther(regions, curr, next) {
        head := LineHead(regions, before, |regions|);
        var all := AddParentAndChild(LinePlace(regions, before, region.value, next.value));
        result := if all.None? then None else Some(head);
      }
    }

    /** The region where the arms join, or a new one before it. */
    method JoinFor(p1: nat, p2: nat, join: nat) returns (end: Option<nat>)
      requires p1 != p2 && join < |regions|
      modifies this
      ensures Did(EndEdit(old(regions), p1, p2, join), regions, end)
    {
      end := Some(join);
      if |regions[join].parents| > 2 { end := CreateNewRegion(p1, p2, join); }
    }

    method Close(kind: Kind, curr: nat, end: nat, before: nat) returns (result: Option<nat>)
      requires end < |regions|
      modifies this
      ensures Did(CloseEdit(old(regions), kind, curr, end, before), regions, result)
    {
      var next := FirstKid(regions, end);
      var made := AddParentAndChild(Whole(regions, kind, curr, end, before));
      if made.None? { return None; }
      result := JoinRegions(before, made.value, next);
    }

    /** Collapses an if, its arm and the region where they join, and joins it with its neighbours in line. A join with
        further parents is kept, behind a region that contributes nothing. */
    method ProcessIfStatement(curr: nat) returns (result: Option<nat>)
      requires CheckIf(regions, curr) && curr !in regions[curr].kids
      modifies this
      ensures Did(IfEdit(old(regions), curr), regions, result)
    {
      var child0, child1 := ArmOf(regions, curr), JoinOf(regions, curr);
      if regions[curr].parents == [] { return None; }
      var before := regions[curr].parents[0];
      var end := JoinFor(curr, child0, child1);
      if end.None? { return None; }
      result := Close(IfStatement, curr, end.value, before);
    }

    /** Collapses an if with an else. */
    method ProcessIfElseStatement(curr: nat) returns (result: Option<nat>)
      requires CheckIfElse(regions, curr) && regions[curr].kids[0] != regions[curr].kids[1]
      modifies this
      ensures Did(IfElseEdit(old(regions), curr), regions, result)
    {
      var child0, child1 := regions[curr].kids[0], regions[curr].kids[1];
      var join := regions[child0].kids[0];
      if join >= |regions| { return None; }
      var end := JoinFor(child0, child1, join);
      if end.None? || regions[curr].parents == [] { return None; }
      result := Close(IfElseStatement, curr, end.value, regions[curr].parents[0]);
    }
  }

  /** The graph and the region an edit yields, or no region if a search failed. */
  predicate Did(edit: Option<(Graph, nat)>, regions: Graph, result: Option<nat>) {
    match edit
    case None => result.None?
    case Some((h, r)) => regions == h && result == Some(r)
  }
}
