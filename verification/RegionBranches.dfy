/** One region for a part that may be led to from elsewhere or leave to several regions: what becomes of the lists. */
module RegionBranches {
  import opened Options
  import opened RegionPaths
  import opened RegionLists
  import opened RegionEdits
  import opened RegionShapes

  /** A branch `curr` whose arms all lead to `join` and nowhere else. Both may be led to from elsewhere, and the join
      may have any children. */
  predicate OpenDiamond(g: Graph, outer: set<nat>, curr: nat, arms: set<nat>, join: nat, before: nat)
    requires Closed(g, outer)
  {
    && curr in outer && arms <= outer && join in outer
    && g[curr].kids != [] && (forall c | c in g[curr].kids :: c in arms || c == join)
    && (forall a | a in arms :: g[a].kids == [join] && g[a].parents == [curr])
    && g[curr].parents != [] && g[curr].parents[0] == before
  }

  /** Nothing but these leads to the region, which has at most one child. */
  predicate OnlyAfter(g: Graph, these: set<nat>, x: nat)
    requires x < |g|
  {
    (forall q | q in g[x].parents :: q in these) && |g[x].kids| <= 1
  }

  /** The diamond has one way in and one way out. */
  predicate Sealed(g: Graph, curr: nat, arms: set<nat>, join: nat)
    requires curr < |g| && join < |g|
  {
    |g[curr].parents| == 1 && OnlyAfter(g, {curr} + arms, join)
  }

  /** These regions can be the outer ones. */
  predicate Agree(h: Graph, after: set<nat>) { Closed(h, after) && Mutual(h, after) }

  lemma OpenInOrder(g: Graph, outer: set<nat>, rank: nat -> int, curr: nat, arms: set<nat>, join: nat, before: nat)
    requires Consistent(g, outer) && Ordered(g, outer, rank) && OpenDiamond(g, outer, curr, arms, join, before)
    ensures before in outer && curr in g[before].kids && rank(before) < rank(curr) < rank(join)
    ensures forall a | a in arms :: rank(curr) < rank(a) < rank(join)
    ensures forall q | q in g[curr].parents :: q in outer && rank(q) < rank(curr)
    ensures forall n | n in g[join].kids :: rank(join) < rank(n)
  {
    assert before in g[curr].parents;
    forall q | q in g[curr].parents ensures q in outer && rank(q) < rank(curr) {
      ParentsComeEarlier(g, outer, rank, curr, q);
    }
    forall a | a in arms ensures rank(curr) < rank(a) < rank(join) {
      assert curr in g[a].parents && join in g[a].kids;
      ParentsComeEarlier(g, outer, rank, a, curr);
    }
    var c := g[curr].kids[0];
    assert c in g[curr].kids;
  }

  lemma WholeFits(g: Graph, outer: set<nat>, rank: nat -> int, kind: Kind, curr: nat, arms: set<nat>, join: nat,
                  before: nat)
    requires Consistent(g, outer) && Ordered(g, outer, rank) && OpenDiamond(g, outer, curr, arms, join, before)
    ensures Fits(g, Whole(g, kind, curr, join, before))
  {
    OpenInOrder(g, outer, rank, curr, arms, join, before);
    if FirstKid(g, join).Some? { assert FirstKid(g, join).value in g[join].kids; }
  }

  // ---- lists that cannot agree ----

  /** Region `q` draws in `curr`, directly or over `j` and `x`; and `curr` names `before`, which no longer names it. */
  predicate Snagged(h: Graph, q: nat, j: nat, x: nat, curr: nat, before: nat) {
    && q < |h| && j < |h| && x < |h| && curr < |h| && before < |h|
    && before in h[curr].parents && curr !in h[before].kids
    && (|| curr in h[q].kids
        || ((j in h[q].kids || j in h[q].parents) && x in h[j].parents && (x == curr || curr in h[x].parents)))
  }

  lemma SnaggedBreaks(h: Graph, q: nat, j: nat, x: nat, curr: nat, before: nat, after: set<nat>)
    requires Snagged(h, q, j, x, curr, before) && q in after
    ensures !Agree(h, after)
  {
    if Closed(h, after) {
      if curr !in h[q].kids { assert j in after && x in after; }
      assert curr in after && before in after;
    }
  }

  /** Edits that put new regions in the place of `kids` as children and of `parents` as parents, and nothing else. */
  predicate Retains(g: Graph, h: Graph, kids: set<nat>, parents: set<nat>) {
    |g| <= |h| && forall x | 0 <= x < |g| :: RetainsAt(g[x], h[x], |g|, kids, parents)
  }

  predicate RetainsAt(a: Region, b: Region, size: nat, kids: set<nat>, parents: set<nat>) {
    && (forall c | c in a.kids && c < size && c !in kids :: c in b.kids)
    && (forall c | c in b.kids :: c in a.kids || c >= size)
    && (forall q | q in a.parents && q < size && q !in parents :: q in b.parents)
  }

  lemma ReplaceRetains(list: seq<nat>, from: nat, to: nat)
    requires from in list
    ensures forall c | c in list && c != from :: c in ReplaceFirst(list, from, to)
    ensures forall c | c in ReplaceFirst(list, from, to) :: c in list || c == to
  {
    var b := ReplaceFirst(list, from, to);
    forall c | c in list && c != from ensures c in b {
      var k :| 0 <= k < |list| && list[k] == c;
      assert b[k] == c;
    }
  }

  lemma InsertRetains(g: Graph, p: Place)
    requires Fits(g, p)
    ensures Retains(g, Insert(g, p), {p.child}, {p.end})
  {
    InsertedAt(g, p);
    forall x | 0 <= x < |g| ensures RetainsAt(g[x], Insert(g, p)[x], |g|, {p.child}, {p.end}) {
      InsertAt(g, p, x);
      if p.before == Some(x) { ReplaceRetains(g[x].kids, p.child, |g|); }
      if p.next == Some(x) { ReplaceRetains(g[x].parents, p.end, |g|); }
    }
  }

  lemma SnagStays(g: Graph, h: Graph, kids: set<nat>, parents: set<nat>, q: nat, j: nat, x: nat, curr: nat, before: nat)
    requires Retains(g, h, kids, parents) && Snagged(g, q, j, x, curr, before)
    requires curr !in kids && j !in kids && curr !in parents && j !in parents && x !in parents && before !in parents
    ensures Snagged(h, q, j, x, curr, before)
  {
    forall y | y in {q, j, x, curr, before} ensures RetainsAt(g[y], h[y], |g|, kids, parents) {}
  }

  /** A region outside the diamond that draws it in after the edits. */
  lemma OpenIsSnagged(g: Graph, outer: set<nat>, rank: nat -> int, kind: Kind, curr: nat, arms: set<nat>, join: nat,
                      before: nat) returns (q: nat, j: nat, x: nat)
    requires Consistent(g, outer) && Ordered(g, outer, rank) && OpenDiamond(g, outer, curr, arms, join, before)
    requires !Sealed(g, curr, arms, join) && Fits(g, Whole(g, kind, curr, join, before))
    ensures q in outer - PartOf(curr, arms, join) && Some(q) != FirstKid(g, join) && (j == curr || j == join)
    ensures (x == curr || x in arms) && (q == before ==> j == join && join in g[before].kids)
    ensures Snagged(Insert(g, Whole(g, kind, curr, join, before)), q, j, x, curr, before)
  {
    var p := Whole(g, kind, curr, join, before);
    OpenInOrder(g, outer, rank, curr, arms, join, before);
    NoLongerNamed(g, outer, rank, kind, curr, arms, join, before);
    if |g[curr].parents| > 1 {
      q, j, x := g[curr].parents[1], curr, curr;
      assert q in g[curr].parents && curr in g[q].kids;
      if FirstKid(g, join).Some? { assert FirstKid(g, join).value in g[join].kids; }
      InsertAt(g, p, q);
    } else {
      assert g[curr].parents == [before];
      j := join;
      q := StillNamed(g, outer, rank, curr, arms, join, before);
      x := LeadsIn(g, outer, curr, arms, join, before);
      InsertAt(g, p, q);
      InsertAt(g, p, join);
      InsertAt(g, p, x);
      if FirstKid(g, join).Some? { FollowsJoin(g, outer, rank, curr, arms, join, before, q, x); }
      InsertRetains(g, p);
      assert RetainsAt(g[q], Insert(g, p)[q], |g|, {curr}, {join});
    }
  }

  /** What follows the join is none of the regions that are looked at here. */
  lemma FollowsJoin(g: Graph, outer: set<nat>, rank: nat -> int, curr: nat, arms: set<nat>, join: nat, before: nat,
                    q: nat, x: nat)
    requires Consistent(g, outer) && Ordered(g, outer, rank) && OpenDiamond(g, outer, curr, arms, join, before)
    requires FirstKid(g, join).Some? && (x == curr || x in arms)
    ensures var n := FirstKid(g, join).value; n != join && n != x && n != before && n != curr
  {
    OpenInOrder(g, outer, rank, curr, arms, join, before);
    assert FirstKid(g, join).value in g[join].kids;
  }

  lemma NoLongerNamed(g: Graph, outer: set<nat>, rank: nat -> int, kind: Kind, curr: nat, arms: set<nat>, join: nat,
                      before: nat)
    requires Consistent(g, outer) && Ordered(g, outer, rank) && OpenDiamond(g, outer, curr, arms, join, before)
    requires Fits(g, Whole(g, kind, curr, join, before))
    ensures var h := Insert(g, Whole(g, kind, curr, join, before));
            |h| == |g| + 1 && before < |g| && before in h[curr].parents && curr !in h[before].kids
  {
    var p := Whole(g, kind, curr, join, before);
    OpenInOrder(g, outer, rank, curr, arms, join, before);
    if FirstKid(g, join).Some? { assert FirstKid(g, join).value in g[join].kids; }
    InsertedAt(g, p);
    InsertAt(g, p, before);
    InsertAt(g, p, curr);
    assert before in g[curr].parents;
    NotYet(g, outer, before);
    ReplacedIsSwapped(g[before].kids, curr, |g|);
  }

  /** A region outside that names the join and goes on naming it. */
  lemma StillNamed(g: Graph, outer: set<nat>, rank: nat -> int, curr: nat, arms: set<nat>, join: nat, before: nat)
      returns (q: nat)
    requires Consistent(g, outer) && Ordered(g, outer, rank) && OpenDiamond(g, outer, curr, arms, join, before)
    requires !OnlyAfter(g, {curr} + arms, join)
    ensures q in outer - PartOf(curr, arms, join) && Some(q) != FirstKid(g, join)
    ensures join in g[q].kids || (join in g[q].parents && q != before)
  {
    OpenInOrder(g, outer, rank, curr, arms, join, before);
    if |g[join].kids| > 1 {
      q := g[join].kids[1];
      assert q in g[join].kids && join in g[q].parents && q != g[join].kids[0];
    } else {
      q :| q in g[join].parents && q != curr && q !in arms;
      ParentsComeEarlier(g, outer, rank, join, q);
      assert join in g[q].kids;
    }
  }

  /** A region of the part that leads to the join. */
  lemma LeadsIn(g: Graph, outer: set<nat>, curr: nat, arms: set<nat>, join: nat, before: nat) returns (x: nat)
    requires Consistent(g, outer) && OpenDiamond(g, outer, curr, arms, join, before)
    ensures (x == curr || x in arms) && x in g[join].parents
  {
    var c := g[curr].kids[0];
    assert c in g[curr].kids;
    x := if c == join then curr else c;
    assert join in g[x].kids;
  }

  // ---- lists that agree ----

  lemma SealedIsSese(g: Graph, outer: set<nat>, rank: nat -> int, kind: Kind, curr: nat, arms: set<nat>, join: nat,
                     before: nat)
    requires Consistent(g, outer) && Ordered(g, outer, rank) && OpenDiamond(g, outer, curr, arms, join, before)
    requires Sealed(g, curr, arms, join)
    ensures Sese(g, outer, PartOf(curr, arms, join), Whole(g, kind, curr, join, before))
    ensures FirstKid(g, join).Some? ==> rank(curr) < rank(FirstKid(g, join).value)
  {
    OpenInOrder(g, outer, rank, curr, arms, join, before);
    assert g[curr].parents == [before];
    if FirstKid(g, join).Some? { assert FirstKid(g, join).value in g[join].kids; }
    DiamondIsSese(g, outer, curr, arms, join, Some(before), kind);
  }

  /** A sealed diamond becomes one region: the graph stays tidy, and all paths are kept. */
  lemma SealedIsTidy(g: Graph, outer: set<nat>, inside: seq<set<nat>>, rank: nat -> int, kind: Kind, curr: nat,
                     arms: set<nat>, join: nat, before: nat)
    requires Good(g, outer, inside) && Ordered(g, outer, rank) && Slim(g, outer - PartOf(curr, arms, join))
    requires OpenDiamond(g, outer, curr, arms, join, before) && Sealed(g, curr, arms, join)
    ensures var p, part := Whole(g, kind, curr, join, before), PartOf(curr, arms, join);
            && Fits(g, p) && SamePaths(g, Insert(g, p), outer)
            && Tidy(Insert(g, p), NewOuter(g, outer, part), inside + [part], Placing(rank, |g|, curr))
            && forall w :: HasPath(g, curr, w) <==> HasPath(Insert(g, p), |g|, w)
  {
    var p, part := Whole(g, kind, curr, join, before), PartOf(curr, arms, join);
    SealedIsSese(g, outer, rank, kind, curr, arms, join, before);
    SeseFits(g, outer, part, p);
    PartHolds(g, outer, part, p);
    InsertTidy(g, outer, inside, rank, part, part, p);
    InsertKeepsPaths(g, outer, inside, part, p);
  }

  /** One region for a branch, its arms and their join keeps the lists in agreement, for the regions that are left,
      exactly when one region leads to the branch, nothing else to the join, and the join has at most one child; and
      then it keeps all paths. */
  lemma SealedExactly(g: Graph, outer: set<nat>, inside: seq<set<nat>>, rank: nat -> int, kind: Kind, curr: nat,
                      arms: set<nat>, join: nat, before: nat)
    requires Tidy(g, outer, inside, rank) && OpenDiamond(g, outer, curr, arms, join, before)
    ensures var p, part := Whole(g, kind, curr, join, before), PartOf(curr, arms, join);
            && Fits(g, p)
            && ((exists after :: outer - part <= after && |g| in after && Agree(Insert(g, p), after))
                <==> Sealed(g, curr, arms, join))
            && (Sealed(g, curr, arms, join) ==> SamePaths(g, Insert(g, p), outer))
  {
    var p, part := Whole(g, kind, curr, join, before), PartOf(curr, arms, join);
    WholeFits(g, outer, rank, kind, curr, arms, join, before);
    if Sealed(g, curr, arms, join) {
      SealedIsTidy(g, outer, inside, rank, kind, curr, arms, join, before);
      assert outer - part <= NewOuter(g, outer, part) && Agree(Insert(g, p), NewOuter(g, outer, part));
    } else {
      var q, j, x := OpenIsSnagged(g, outer, rank, kind, curr, arms, join, before);
      forall after | outer - part <= after ensures !Agree(Insert(g, p), after) {
        SnaggedBreaks(Insert(g, p), q, j, x, curr, before, after);
      }
    }
  }
}
