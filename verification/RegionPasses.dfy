/** What collapsing an if or an if-else, with or without a join of its own, does to the lists and the paths. */
module RegionPasses {
  import opened Options
  import opened RegionPaths
  import opened RegionLists
  import opened RegionEdits
  import opened RegionShapes
  import opened RegionBranches
  import opened RegionJoins
  import opened RegionMade

  predicate HasParent(g: Graph, curr: nat) { curr < |g| && g[curr].parents != [] }

  function Before(g: Graph, curr: nat): nat
    requires HasParent(g, curr)
  {
    g[curr].parents[0]
  }

  /** One region leads to the condition, and the join, if it has no further parents, to at most one. */
  predicate OneWay(g: Graph, curr: nat, join: nat)
    requires curr < |g| && join < |g|
  {
    |g[curr].parents| == 1 && (|g[join].parents| <= 2 ==> |g[join].kids| <= 1)
  }

  /** Below a branch, what follows is swallowed: nothing else may lead to it, and it may have one child. */
  predicate LineClear(g: Graph, curr: nat, join: nat)
    requires HasParent(g, curr) && Before(g, curr) < |g| && join < |g|
  {
    var next := Following(g, join);
    g[Before(g, curr)].kind.Basic? && next.Some? ==>
      |g[join].parents| <= 2 && next.value < |g| && OnlyAfter(g, {join}, next.value)
  }

  predicate Clear(g: Graph, curr: nat, join: nat)
    requires HasParent(g, curr) && Before(g, curr) < |g| && join < |g|
  {
    OneWay(g, curr, join) && LineClear(g, curr, join)
  }

  /** The regions of a diamond that leave: the join only if nothing else leads to it. */
  function Collapsing(g: Graph, curr: nat, arms: set<nat>, join: nat): set<nat>
    requires join < |g|
  {
    {curr} + arms + if |g[join].parents| > 2 then {} else {join}
  }

  /** Those that leave when it is joined: `before` unless it is a branch, and what follows if it is joined. */
  function Joining(g: Graph, before: nat, next: Option<nat>): set<nat>
    requires before < |g| && (next.Some? ==> next.value < |g|)
  {
    (if g[before].kind.Basic? then {} else {before})
    + if next.Some? && (g[before].kind.Basic? || !g[next.value].kind.Basic?) then {next.value} else {}
  }

  /** The outer regions afterwards: the region made last is the only new one. */
  function Remaining(g: Graph, h: Graph, outer: set<nat>, curr: nat, arms: set<nat>, join: nat): set<nat>
    requires HasParent(g, curr) && Before(g, curr) < |g| && join < |g| && |h| > 0
    requires Following(g, join).Some? ==> Following(g, join).value < |g|
  {
    outer - Collapsing(g, curr, arms, join) - Joining(g, Before(g, curr), Following(g, join)) + {|h| - 1}
  }

  /** All paths are kept, those from what was before the condition by the region that stands for it now. */
  ghost predicate PathsKept(g: Graph, h: Graph, head: nat, outer: set<nat>, curr: nat, arms: set<nat>, join: nat)
    requires HasParent(g, curr) && join < |g|
  {
    && SamePaths(g, h, outer - Collapsing(g, curr, arms, join))
    && forall w :: HasPath(g, Before(g, curr), w) <==> HasPath(h, head, w)
  }

  /** Whatever regions stay beside those looked at, the lists do not agree. */
  ghost predicate Torn(g: Graph, h: Graph, outer: set<nat>, curr: nat, arms: set<nat>, join: nat)
    requires HasParent(g, curr) && Before(g, curr) < |g| && join < |g|
    requires Following(g, join).Some? ==> Following(g, join).value < |g|
  {
    forall after | outer - PartOf(curr, arms, join) - Joining(g, Before(g, curr), Following(g, join)) <= after ::
      !Agree(h, after)
  }

  lemma AroundArms(g: Graph, outer: set<nat>, rank: nat -> int, curr: nat, arms: set<nat>, p1: nat, p2: nat, join: nat)
    requires Consistent(g, outer) && Ordered(g, outer, rank) && Arms(g, outer, curr, arms, p1, p2, join)
    requires HasParent(g, curr)
    ensures Before(g, curr) in outer && OpenDiamond(g, outer, curr, arms, join, Before(g, curr))
    ensures Following(g, join).Some? ==> Following(g, join).value < |g|
  {
    assert Before(g, curr) in g[curr].parents;
    if g[join].kids != [] { assert g[join].kids[0] in g[join].kids; }
  }

  // ---- the join, or a region before it ----

  /** The order with a new region just before region `x`. */
  function JustBefore(rank: nat -> int, made: nat, x: nat): nat -> int {
    (y: nat) => if y == made then 2 * rank(x) - 1 else 2 * rank(y)
  }

  /** The outer regions when the end is found. */
  function WithEnd(g: Graph, outer: set<nat>, join: nat): set<nat>
    requires join < |g|
  {
    if |g[join].parents| > 2 then outer + {|g|} else outer
  }

  ghost predicate OpenEnd(g: Graph, h: Graph, outer: set<nat>, ins: seq<set<nat>>, order: nat -> int, curr: nat,
                          arms: set<nat>, join: nat, end: nat)
    requires HasParent(g, curr) && join < |g|
  {
    var u := WithEnd(g, outer, join);
    && end < |h| && Good(h, u, ins) && Ordered(h, u, order) && Slim(h, u - PartOf(curr, arms, end))
    && SamePaths(g, h, outer) && OpenDiamond(h, u, curr, arms, end, Before(g, curr))
    && Before(g, curr) < |g| <= |h| && join < |h|
    && h[Before(g, curr)].kind == g[Before(g, curr)].kind && h[join].kind == g[join].kind
    && (Sealed(h, curr, arms, end) <==> OneWay(g, curr, join)) && FirstKid(h, end) == Following(g, join)
    && (if |g[join].parents| > 2 then end == |g| && Shared(h, end, join) else end == join && h == g)
  }

  /** Something else leads to `x` as well. */
  predicate Shared(h: Graph, known: nat, x: nat)
    requires x < |h|
  {
    exists q :: q in h[x].parents && q != known
  }

  lemma SubdividedFacts(g: Graph, outer: set<nat>, p1: nat, p2: nat, j: nat)
    requires Consistent(g, outer) && Joins(g, outer, p1, p2, j)
    ensures CanSubdivide(g, p1, p2, j) && SubdividedGraph(g, Subdivide(g, p1, p2, j), outer, p1, p2, j)
  {
    JoinsFit(g, outer, p1, p2, j);
    var h := Subdivide(g, p1, p2, j);
    SubdivideMade(g, p1, p2, j);
    forall x | x in outer ensures x < |g| && SubdividedAt(g[x], h[x], |g|, p1, p2, j, x) {
      SubdivideAt(g, p1, p2, j, x);
      SubdividedLists(g, h, outer, p1, p2, j, x);
    }
  }

  lemma OnlyElement(b: seq<nat>, x: nat)
    requires NoRepeats(b) && x in b && forall q | q in b :: q == x
    ensures b == [x]
  {
    var k :| 0 <= k < |b| && b[k] == x;
    forall l | 0 <= l < |b| ensures b[l] == x && l == k { assert b[l] in b; }
    assert b[0] == x && b[|b| - 1] == x;
  }

  /** After a region that contributes nothing is put before the join, the arms lead to it. */
  lemma OpenOverNothing(g: Graph, h: Graph, outer: set<nat>, rank: nat -> int, curr: nat, arms: set<nat>, p1: nat,
                        p2: nat, join: nat)
    requires Consistent(g, outer) && Ordered(g, outer, rank) && Arms(g, outer, curr, arms, p1, p2, join)
    requires HasParent(g, curr) && SubdividedGraph(g, h, outer, p1, p2, join) && Closed(h, outer + {|g|})
    ensures OpenDiamond(h, outer + {|g|}, curr, arms, |g|, Before(g, curr)) && h[curr].parents == g[curr].parents
    ensures OnlyAfter(h, {curr} + arms, |g|)
  {
    ArmsInOrder(g, outer, rank, curr, arms, p1, p2, join);
    assert SubdividedAt(g[curr], h[curr], |g|, p1, p2, join, curr);
    forall a | a in arms ensures h[a].kids == [|g|] && h[a].parents == [curr] {
      assert SubdividedAt(g[a], h[a], |g|, p1, p2, join, a);
      OnlyElement(h[a].kids, |g|);
    }
    CurrBranches(g, h, curr, arms, p1, p2, join);
  }

  lemma CurrBranches(g: Graph, h: Graph, curr: nat, arms: set<nat>, p1: nat, p2: nat, join: nat)
    requires curr < |g| && |h| == |g| + 1 && SubdividedAt(g[curr], h[curr], |g|, p1, p2, join, curr)
    requires g[curr].kids != [] && forall c | c in g[curr].kids :: c in arms || c == join
    requires p2 in arms && curr !in arms && (join in g[curr].kids ==> p1 == curr) && join !in arms
    ensures h[curr].kids != [] && forall c | c in h[curr].kids :: c in arms || c == |g|
  {
    if p1 == curr {
      assert |g| in h[curr].kids;
    } else {
      assert h[curr].kids == g[curr].kids;
    }
  }

  lemma SubdividedInOrder(g: Graph, h: Graph, outer: set<nat>, rank: nat -> int, p1: nat, p2: nat, join: nat)
    requires Consistent(g, outer) && Ordered(g, outer, rank) && Joins(g, outer, p1, p2, join)
    requires SubdividedGraph(g, h, outer, p1, p2, join) && Closed(h, outer + {|g|})
    ensures Ordered(h, outer + {|g|}, JustBefore(rank, |g|, join))
  {
    var order := JustBefore(rank, |g|, join);
    forall x, c | x in outer && c in h[x].kids ensures order(x) < order(c) {
      assert SubdividedAt(g[x], h[x], |g|, p1, p2, join, x);
      NotYet(g, outer, x);
      assert rank(p1) < rank(join) && rank(p2) < rank(join);
    }
  }

  /** Nothing but the ends of the edges changes its number of children or parents. */
  lemma SubdividedIsSlim(g: Graph, h: Graph, outer: set<nat>, p1: nat, p2: nat, join: nat, part: set<nat>)
    requires Slim(g, outer) && SubdividedGraph(g, h, outer, p1, p2, join) && p1 in part && p2 in part
    requires join in outer && |g[join].parents| > 2 && |g| !in outer
    ensures Slim(h, outer - part)
  {
    forall x | x in outer - part ensures !h[x].kind.Basic? ==> |h[x].kids| <= 1 && |h[x].parents| <= 1 {
      assert SubdividedAt(g[x], h[x], |g|, p1, p2, join, x);
    }
  }

  lemma JoinIsEnd(g: Graph, outer: set<nat>, inside: seq<set<nat>>, rank: nat -> int, curr: nat, arms: set<nat>,
                  p1: nat, p2: nat, join: nat)
    requires Tidy(g, outer, inside, rank) && Arms(g, outer, curr, arms, p1, p2, join) && HasParent(g, curr)
    requires |g[join].parents| <= 2
    ensures OpenEnd(g, g, outer, inside, rank, curr, arms, join, join)
  {
    AroundArms(g, outer, rank, curr, arms, p1, p2, join);
    ArmsInOrder(g, outer, rank, curr, arms, p1, p2, join);
    JoinParents(g, outer, p1, p2, join);
  }

  lemma NothingIsTidy(g: Graph, outer: set<nat>, inside: seq<set<nat>>, rank: nat -> int, p1: nat, p2: nat, join: nat,
                      part: set<nat>)
    requires Tidy(g, outer, inside, rank) && Joins(g, outer, p1, p2, join) && CanSubdivide(g, p1, p2, join)
    requires SubdividedGraph(g, Subdivide(g, p1, p2, join), outer, p1, p2, join)
    requires |g[join].parents| > 2 && p1 in part && p2 in part && |g| in part
    ensures var h, u := Subdivide(g, p1, p2, join), outer + {|g|};
            && Good(h, u, inside + [{}]) && Ordered(h, u, JustBefore(rank, |g|, join)) && Slim(h, u - part)
            && SamePaths(g, h, outer)
  {
    var h := Subdivide(g, p1, p2, join);
    SubdivideGood(g, outer, inside, p1, p2, join);
    SubdividedInOrder(g, h, outer, rank, p1, p2, join);
    NewId(g, outer);
    SubdividedIsSlim(g, h, outer, p1, p2, join, part);
    assert outer + {|g|} - part == outer - part;
  }

  lemma NothingIsEnd(g: Graph, outer: set<nat>, inside: seq<set<nat>>, rank: nat -> int, curr: nat, arms: set<nat>,
                     p1: nat, p2: nat, join: nat)
    requires Tidy(g, outer, inside, rank) && Arms(g, outer, curr, arms, p1, p2, join) && HasParent(g, curr)
    requires |g[join].parents| > 2 && CanSubdivide(g, p1, p2, join)
    requires SubdividedGraph(g, Subdivide(g, p1, p2, join), outer, p1, p2, join)
    ensures OpenEnd(g, Subdivide(g, p1, p2, join), outer, inside + [{}], JustBefore(rank, |g|, join), curr, arms, join,
                    |g|)
  {
    var h := Subdivide(g, p1, p2, join);
    AroundArms(g, outer, rank, curr, arms, p1, p2, join);
    ArmsInOrder(g, outer, rank, curr, arms, p1, p2, join);
    NothingIsTidy(g, outer, inside, rank, p1, p2, join, PartOf(curr, arms, |g|));
    OpenOverNothing(g, h, outer, rank, curr, arms, p1, p2, join);
    ThirdStays(g, h, outer, p1, p2, join);
    KindsStay(g, h, outer, p1, p2, join, Before(g, curr));
  }

  lemma KindsStay(g: Graph, h: Graph, outer: set<nat>, p1: nat, p2: nat, join: nat, x: nat)
    requires SubdividedGraph(g, h, outer, p1, p2, join) && x in outer
    ensures x < |g| && h[x].kind == g[x].kind
  {
    assert SubdividedAt(g[x], h[x], |g|, p1, p2, join, x);
  }

  lemma ThirdStays(g: Graph, h: Graph, outer: set<nat>, p1: nat, p2: nat, join: nat)
    requires Consistent(g, outer) && Joins(g, outer, p1, p2, join) && |g[join].parents| > 2
    requires SubdividedGraph(g, h, outer, p1, p2, join)
    ensures Shared(h, |g|, join) && h[join].kind == g[join].kind
  {
    JoinParents(g, outer, p1, p2, join);
    var q :| q in g[join].parents && q != p1 && q != p2;
    assert SubdividedAt(g[join], h[join], |g|, p1, p2, join, join);
    assert q in h[join].parents && q < |g|;
  }

  lemma EndIsOpen(g: Graph, outer: set<nat>, inside: seq<set<nat>>, rank: nat -> int, curr: nat, arms: set<nat>,
                  p1: nat, p2: nat, join: nat) returns (ins: seq<set<nat>>, order: nat -> int)
    requires Tidy(g, outer, inside, rank) && Arms(g, outer, curr, arms, p1, p2, join) && HasParent(g, curr)
    ensures var r := EndEdit(g, p1, p2, join);
            r.Some? && OpenEnd(g, r.value.0, outer, ins, order, curr, arms, join, r.value.1)
  {
    if |g[join].parents| <= 2 {
      JoinIsEnd(g, outer, inside, rank, curr, arms, p1, p2, join);
      ins, order := inside, rank;
    } else {
      ArmsInOrder(g, outer, rank, curr, arms, p1, p2, join);
      SubdividedFacts(g, outer, p1, p2, join);
      NothingIsEnd(g, outer, inside, rank, curr, arms, p1, p2, join);
      ins, order := inside + [{}], JustBefore(rank, |g|, join);
    }
  }

  // ---- one region in the place of it all ----

  /** The new region can be joined with its neighbours. */
  lemma WholeIsLinked(h: Graph, u: set<nat>, order: nat -> int, kind: Kind, curr: nat, arms: set<nat>, end: nat,
                      before: nat)
    requires Consistent(h, u) && Ordered(h, u, order) && OpenDiamond(h, u, curr, arms, end, before)
    requires Fits(h, Whole(h, kind, curr, end, before))
    ensures var k := Insert(h, Whole(h, kind, curr, end, before));
            && |k| == |h| + 1 && Linked(k, before, |h|, FirstKid(h, end)) && k[before].kind == h[before].kind
            && k[|h|] == Region(kind, Between(curr, end), [before], AsList(FirstKid(h, end)))
            && k[before].parents == h[before].parents
            && (FirstKid(h, end).Some? ==> k[FirstKid(h, end).value].kids == h[FirstKid(h, end).value].kids)
  {
    var p, next := Whole(h, kind, curr, end, before), FirstKid(h, end);
    OpenInOrder(h, u, order, curr, arms, end, before);
    InsertedAt(h, p);
    InsertAt(h, p, before);
    assert ReplaceFirst(h[before].kids, curr, |h|)[IndexOf(h[before].kids, curr)] == |h|;
    if next.Some? {
      assert next.value in h[end].kids;
      InsertAt(h, p, next.value);
      assert ReplaceFirst(h[next.value].parents, end, |h|)[IndexOf(h[next.value].parents, end)] == |h|;
      assert forall c | c in h[next.value].kids :: c in u && order(next.value) < order(c);
    }
    forall q | q in h[before].parents ensures q < |h| && before in h[q].kids && q != before && Some(q) != next {
      ParentsComeEarlier(h, u, order, before, q);
    }
    LinkedAfter(h, p, before, next);
  }

  lemma LinkedAfter(h: Graph, p: Place, before: nat, next: Option<nat>)
    requires Fits(h, p) && p.before == Some(before) && p.next == next && next != Some(before) && before < |h|
    requires forall q | q in h[before].parents :: q < |h| && before in h[q].kids && q != before && Some(q) != next
    requires next.Some? ==> next.value < |h| && forall c | c in h[next.value].kids ::
                              c < |h| && next.value in h[c].parents && c != next.value
    ensures |Insert(h, p)| == |h| + 1
    ensures var k := Insert(h, p); forall q | q in k[before].parents :: q < |k| && before in k[q].kids && q != before
    ensures next.Some? ==> var k := Insert(h, p); forall c | c in k[next.value].kids ::
                             c < |k| && next.value in k[c].parents && c != next.value
  {
    var k := Insert(h, p);
    InsertAt(h, p, before);
    forall q | q in k[before].parents ensures before in k[q].kids { InsertAt(h, p, q); }
    if next.Some? {
      InsertAt(h, p, next.value);
      forall c | c in k[next.value].kids ensures next.value in k[c].parents { InsertAt(h, p, c); }
    }
  }

  /** Joining does not help. */
  lemma SnagStaysJoined(k: Graph, before: nat, made: nat, next: Option<nat>, q: nat, j: nat, x: nat, curr: nat)
    requires Linked(k, before, made, next) && Snagged(k, q, j, x, curr, before)
    requires {curr, j} !! {before, made} && {curr, j, x, before} !! {made}
    requires next.Some? ==> next.value !in {curr, j, x, before}
    ensures var r := JoinEdit(k, before, made, next); r.Some? && Snagged(r.value.0, q, j, x, curr, before)
  {
    JoinGoesThrough(k, before, made, next);
    JoinRetains(k, before, made, next);
    var l := JoinEdit(k, before, made, next).value.0;
    SnagStays(k, l, {before, made}, if next.Some? then {made, next.value} else {made}, q, j, x, curr, before);
  }

  /** Where the condition or the join has further neighbours, one of them draws in the condition afterwards. */
  lemma CloseIsSnagged(h: Graph, u: set<nat>, order: nat -> int, kind: Kind, curr: nat, arms: set<nat>, end: nat,
                       before: nat) returns (q: nat, j: nat, x: nat)
    requires Consistent(h, u) && Ordered(h, u, order) && Slim(h, u - PartOf(curr, arms, end))
    requires OpenDiamond(h, u, curr, arms, end, before) && !Sealed(h, curr, arms, end)
    ensures var r := CloseEdit(h, kind, curr, end, before); r.Some? && Snagged(r.value.0, q, j, x, curr, before)
    ensures q in u - PartOf(curr, arms, end) && Some(q) != FirstKid(h, end)
    ensures before < |h| && (q == before ==> h[before].kind.Basic?)
  {
    var next := FirstKid(h, end);
    OpenInOrder(h, u, order, curr, arms, end, before);
    WholeFits(h, u, order, kind, curr, arms, end, before);
    WholeIsLinked(h, u, order, kind, curr, arms, end, before);
    q, j, x := OpenIsSnagged(h, u, order, kind, curr, arms, end, before);
    if next.Some? { FollowsJoin(h, u, order, curr, arms, end, before, q, x); }
    assert j < |h| && x < |h| && curr < |h| && before < |h|;
    SnagStaysJoined(Insert(h, Whole(h, kind, curr, end, before)), before, |h|, next, q, j, x, curr);
    if q == before && !h[before].kind.Basic? { OnlyCurr(h, u, curr, end, before, PartOf(curr, arms, end)); }
  }

  lemma OnlyCurr(h: Graph, u: set<nat>, curr: nat, end: nat, before: nat, part: set<nat>)
    requires Slim(h, u - part) && before in u - part && !h[before].kind.Basic? && curr in h[before].kids
    ensures end in h[before].kids ==> end == curr
  {
    assert h[before].kids == [curr];
  }

  /** Then no lists agree. */
  lemma CloseBreaks(g: Graph, h: Graph, outer: set<nat>, ins: seq<set<nat>>, order: nat -> int, kind: Kind, curr: nat,
                    arms: set<nat>, join: nat, end: nat)
    requires Closed(g, outer) && join in outer && HasParent(g, curr)
    requires Following(g, join).Some? ==> Following(g, join).value < |g|
    requires OpenEnd(g, h, outer, ins, order, curr, arms, join, end) && !OneWay(g, curr, join)
    ensures var r := CloseEdit(h, kind, curr, end, Before(g, curr));
            r.Some? && Torn(g, r.value.0, outer, curr, arms, join)
  {
    var before := Before(g, curr);
    var q, j, x := CloseIsSnagged(h, WithEnd(g, outer, join), order, kind, curr, arms, end, before);
    var l := CloseEdit(h, kind, curr, end, before).value.0;
    forall after | outer - PartOf(curr, arms, join) - Joining(g, before, Following(g, join)) <= after
      ensures !Agree(l, after)
    {
      SnaggedBreaks(l, q, j, x, curr, before, after);
    }
  }

  lemma OnlyParents(list: seq<nat>, from: nat, to: nat)
    requires NoRepeats(list) && from in list && to !in list
    ensures (forall q | q in ReplaceFirst(list, from, to) :: q == to) <==> (forall q | q in list :: q == from)
  {
    ReplacedIsSwapped(list, from, to);
    assert forall q | q in list && q != from :: q in ReplaceFirst(list, from, to);
  }

  /** Only the new region leads to what follows exactly if only the join did. */
  lemma FollowedOnly(h: Graph, u: set<nat>, order: nat -> int, kind: Kind, curr: nat, arms: set<nat>, end: nat,
                     before: nat)
    requires Consistent(h, u) && Ordered(h, u, order) && OpenDiamond(h, u, curr, arms, end, before)
    requires Fits(h, Whole(h, kind, curr, end, before)) && FirstKid(h, end).Some?
    ensures var n, k := FirstKid(h, end).value, Insert(h, Whole(h, kind, curr, end, before));
            n < |h| <= |k| && (OnlyAfter(k, {|h|}, n) <==> OnlyAfter(h, {end}, n)) && k[n].kind == h[n].kind
  {
    var p, n := Whole(h, kind, curr, end, before), FirstKid(h, end).value;
    var k := Insert(h, p);
    OpenInOrder(h, u, order, curr, arms, end, before);
    assert n in h[end].kids && end in h[n].parents;
    InsertAt(h, p, n);
    NotYet(h, u, n);
    OnlyParents(h[n].parents, end, |h|);
  }

  lemma LineIsClear(g: Graph, h: Graph, outer: set<nat>, ins: seq<set<nat>>, order: nat -> int, kind: Kind, curr: nat,
                    arms: set<nat>, join: nat, end: nat)
    requires HasParent(g, curr) && join < |g| && OpenEnd(g, h, outer, ins, order, curr, arms, join, end)
    requires Fits(h, Whole(h, kind, curr, end, Before(g, curr)))
    requires Following(g, join).Some? ==> Following(g, join).value < |g|
    ensures var before, k := Before(g, curr), Insert(h, Whole(h, kind, curr, end, Before(g, curr)));
            && before < |h| <= |k| && k[before].kind == h[before].kind
            && (OnlyLine(k, before, |h|, FirstKid(h, end)) <==> LineClear(g, curr, join))
  {
    var before, next := Before(g, curr), Following(g, join);
    var p := Whole(h, kind, curr, end, before);
    InsertAt(h, p, before);
    if next.Some? {
      FollowedOnly(h, WithEnd(g, outer, join), order, kind, curr, arms, end, before);
      if |g[join].parents| > 2 {
        var q :| q in h[join].parents && q != end;
        assert !OnlyAfter(h, {end}, join);
      }
    }
  }

  // ---- what a pass keeps ----

  /** The collapsed region stands in line between its neighbours. */
  lemma WholeInLine(h: Graph, u: set<nat>, ins: seq<set<nat>>, order: nat -> int, kind: Kind, curr: nat, arms: set<nat>,
                    end: nat, before: nat)
    requires Good(h, u, ins) && Ordered(h, u, order) && Slim(h, u - PartOf(curr, arms, end))
    requires OpenDiamond(h, u, curr, arms, end, before) && Sealed(h, curr, arms, end)
    ensures var p, v := Whole(h, kind, curr, end, before), NewOuter(h, u, PartOf(curr, arms, end));
            && Fits(h, p) && |Insert(h, p)| == |h| + 1 && before in v && before < |h|
            && Tidy(Insert(h, p), v, ins + [PartOf(curr, arms, end)], Placing(order, |h|, curr))
            && InLine(Insert(h, p), v, before, |h|, FirstKid(h, end)) && SamePaths(h, Insert(h, p), u)
  {
    SealedIsTidy(h, u, ins, order, kind, curr, arms, end, before);
    WholeIsLinked(h, u, order, kind, curr, arms, end, before);
    OpenInOrder(h, u, order, curr, arms, end, before);
  }

  /** The regions that leave in the two steps. */
  lemma RemainingAre(g: Graph, h: Graph, k: Graph, l: Graph, outer: set<nat>, after: set<nat>, curr: nat,
                     arms: set<nat>, join: nat, end: nat, before: nat, next: Option<nat>)
    requires Closed(g, outer) && HasParent(g, curr) && before == Before(g, curr)
    requires join < |g| && end == (if |g[join].parents| > 2 then |g| else join) && next == Following(g, join)
    requires |g| <= |h| && |k| == |h| + 1 && before < |g| && next != Some(before) && |l| >= |k|
    requires next.Some? ==> next.value < |g|
    requires k[before].kind == g[before].kind && (next.Some? ==> k[next.value].kind == g[next.value].kind)
    requires Joined(k, l, NewOuter(h, WithEnd(g, outer, join), PartOf(curr, arms, end)), after, before, |h|, next)
    ensures after == Remaining(g, l, outer, curr, arms, join)
  {
    NewId(g, outer);
    assert |h| !in outer;
    var v := NewOuter(h, WithEnd(g, outer, join), PartOf(curr, arms, end));
    assert v == outer - Collapsing(g, curr, arms, join) + {|h|};
    var first, last := LineStart(k, before, |h|), LineEnd(k, before, |h|, next);
    assert first != last ==>
             v - {first, |h|, last} == outer - Collapsing(g, curr, arms, join) - Joining(g, before, next);
  }

  lemma JoinGrows(g: Graph, before: nat, curr: nat, next: Option<nat>)
    requires before < |g| && curr < |g| && (next.Some? ==> next.value < |g|)
    requires JoinEdit(g, before, curr, next).Some?
    ensures |JoinEdit(g, before, curr, next).value.0| >= |g|
  {
    JoinRetains(g, before, curr, next);
  }

  lemma PathsOverall(g: Graph, h: Graph, k: Graph, l: Graph, head: nat, outer: set<nat>, u: set<nat>, v: set<nat>,
                     curr: nat, arms: set<nat>, join: nat)
    requires HasParent(g, curr) && SamePaths(g, h, outer) && SamePaths(h, k, u) && SamePaths(k, l, v)
    requires join < |g| && outer <= u && outer - Collapsing(g, curr, arms, join) <= v && Before(g, curr) in outer
    requires forall w :: HasPath(k, Before(g, curr), w) <==> HasPath(l, head, w)
    ensures PathsKept(g, l, head, outer, curr, arms, join)
  {}

  lemma CloseKeeps(g: Graph, h: Graph, outer: set<nat>, ins: seq<set<nat>>, order: nat -> int, kind: Kind, curr: nat,
                   arms: set<nat>, join: nat, end: nat) returns (all: seq<set<nat>>, later: nat -> int)
    requires Closed(g, outer) && join in outer && HasParent(g, curr) && Before(g, curr) in outer
    requires Following(g, join).Some? ==> Following(g, join).value < |g|
    requires OpenEnd(g, h, outer, ins, order, curr, arms, join, end) && Clear(g, curr, join)
    ensures var r := CloseEdit(h, kind, curr, end, Before(g, curr));
            && r.Some? && |r.value.0| > |g| && PathsKept(g, r.value.0, r.value.1, outer, curr, arms, join)
            && Tidy(r.value.0, Remaining(g, r.value.0, outer, curr, arms, join), all, later)
  {
    var u, before, next := WithEnd(g, outer, join), Before(g, curr), FirstKid(h, end);
    WholeInLine(h, u, ins, order, kind, curr, arms, end, before);
    LineIsClear(g, h, outer, ins, order, kind, curr, arms, join, end);
    var k, v := Insert(h, Whole(h, kind, curr, end, before)), NewOuter(h, u, PartOf(curr, arms, end));
    var after;
    after, all, later := JoinKeeps(k, v, ins + [PartOf(curr, arms, end)], Placing(order, |h|, curr), before, |h|, next);
    JoinGrows(k, before, |h|, next);
    var r := JoinEdit(k, before, |h|, next).value;
    FollowingKept(g, h, outer, ins, order, kind, curr, arms, join, end);
    LineInOrder(k, v, Placing(order, |h|, curr), before, |h|, next);
    RemainingAre(g, h, k, r.0, outer, after, curr, arms, join, end, before, next);
    PathsOverall(g, h, k, r.0, r.1, outer, u, v, curr, arms, join);
  }

  lemma FollowingKept(g: Graph, h: Graph, outer: set<nat>, ins: seq<set<nat>>, order: nat -> int, kind: Kind, curr: nat,
                      arms: set<nat>, join: nat, end: nat)
    requires HasParent(g, curr) && join < |g| && OpenEnd(g, h, outer, ins, order, curr, arms, join, end)
    requires Fits(h, Whole(h, kind, curr, end, Before(g, curr)))
    requires Following(g, join).Some? ==> Following(g, join).value < |g|
    ensures var k, next := Insert(h, Whole(h, kind, curr, end, Before(g, curr))), Following(g, join);
            next.Some? ==> next.value < |k| && k[next.value].kind == g[next.value].kind
  {
    if Following(g, join).Some? {
      FollowedOnly(h, WithEnd(g, outer, join), order, kind, curr, arms, end, Before(g, curr));
    }
  }

  /** What the passes keep, or what no choice of outer regions makes good. */
  ghost predicate Outcome(g: Graph, r: Option<(Graph, nat)>, outer: set<nat>, curr: nat, arms: set<nat>, join: nat,
                          all: seq<set<nat>>, later: nat -> int)
  {
    && HasParent(g, curr) && Before(g, curr) < |g| && join < |g| && r.Some? && |r.value.0| > |g|
    && (Following(g, join).Some? ==> Following(g, join).value < |g|)
    && if Clear(g, curr, join) then
         && Tidy(r.value.0, Remaining(g, r.value.0, outer, curr, arms, join), all, later)
         && PathsKept(g, r.value.0, r.value.1, outer, curr, arms, join)
       else Torn(g, r.value.0, outer, curr, arms, join)
  }

  /** Below a branch, where the line is not clear. */
  lemma LineBreaks(g: Graph, h: Graph, outer: set<nat>, ins: seq<set<nat>>, order: nat -> int, kind: Kind, curr: nat,
                   arms: set<nat>, join: nat, end: nat)
    requires Closed(g, outer) && join in outer && HasParent(g, curr) && Before(g, curr) in outer
    requires Following(g, join).Some? ==> Following(g, join).value < |g|
    requires OpenEnd(g, h, outer, ins, order, curr, arms, join, end)
    requires OneWay(g, curr, join) && !LineClear(g, curr, join)
    ensures var r := CloseEdit(h, kind, curr, end, Before(g, curr));
            r.Some? && Torn(g, r.value.0, outer, curr, arms, join)
  {
    var u, before, next := WithEnd(g, outer, join), Before(g, curr), FirstKid(h, end);
    WholeInLine(h, u, ins, order, kind, curr, arms, end, before);
    LineIsClear(g, h, outer, ins, order, kind, curr, arms, join, end);
    var k, v := Insert(h, Whole(h, kind, curr, end, before)), NewOuter(h, u, PartOf(curr, arms, end));
    JoinBreaks(k, v, Placing(order, |h|, curr), before, |h|, next);
    NewId(g, outer);
    forall after | outer - PartOf(curr, arms, join) - Joining(g, before, next) <= after
      ensures !Agree(JoinEdit(k, before, |h|, next).value.0, after)
    {
      assert v - {|h|, next.value} <= after;
    }
  }

  lemma CloseOutcome(g: Graph, h: Graph, outer: set<nat>, ins: seq<set<nat>>, order: nat -> int, kind: Kind, curr: nat,
                     arms: set<nat>, join: nat, end: nat) returns (all: seq<set<nat>>, later: nat -> int)
    requires Closed(g, outer) && join in outer && HasParent(g, curr) && Before(g, curr) in outer
    requires Following(g, join).Some? ==> Following(g, join).value < |g|
    requires OpenEnd(g, h, outer, ins, order, curr, arms, join, end)
    ensures Outcome(g, CloseEdit(h, kind, curr, end, Before(g, curr)), outer, curr, arms, join, all, later)
  {
    if Clear(g, curr, join) {
      all, later := CloseKeeps(g, h, outer, ins, order, kind, curr, arms, join, end);
    } else {
      all, later := ins, order;
      if OneWay(g, curr, join) {
        LineBreaks(g, h, outer, ins, order, kind, curr, arms, join, end);
      } else {
        CloseBreaks(g, h, outer, ins, order, kind, curr, arms, join, end);
      }
      CloseGrows(h, kind, curr, end, Before(g, curr));
    }
  }

  lemma CloseGrows(h: Graph, kind: Kind, curr: nat, end: nat, before: nat)
    requires end < |h| && CloseEdit(h, kind, curr, end, before).Some?
    ensures |CloseEdit(h, kind, curr, end, before).value.0| > |h|
  {
    InsertedAt(h, Whole(h, kind, curr, end, before));
    JoinGrows(Insert(h, Whole(h, kind, curr, end, before)), before, |h|, FirstKid(h, end));
  }

  /** Some choice of outer regions, of those that are left and the new one, has lists that agree. */
  ghost predicate Repairable(g: Graph, h: Graph, outer: set<nat>, curr: nat, arms: set<nat>, join: nat)
    requires HasParent(g, curr) && Before(g, curr) < |g| && join < |g|
    requires Following(g, join).Some? ==> Following(g, join).value < |g|
  {
    exists after ::
      && outer - PartOf(curr, arms, join) - Joining(g, Before(g, curr), Following(g, join)) <= after
      && |h| - 1 in after && Agree(h, after)
  }

  /** The regions that are left can be the outer ones exactly if nothing else leads to the condition, to the join unless
      it is kept, or to what is swallowed below a branch, and those that leave lead to one region at most. */
  lemma RepairableExactly(g: Graph, r: Option<(Graph, nat)>, outer: set<nat>, curr: nat, arms: set<nat>, join: nat,
                          all: seq<set<nat>>, later: nat -> int)
    requires Outcome(g, r, outer, curr, arms, join, all, later)
    ensures Repairable(g, r.value.0, outer, curr, arms, join) <==> Clear(g, curr, join)
  {
    if Clear(g, curr, join) {
      var after := Remaining(g, r.value.0, outer, curr, arms, join);
      assert |r.value.0| - 1 in after && Agree(r.value.0, after);
    }
  }

  /** An if goes through without exceptions, and becomes an if region. That keeps the graph tidy and all paths exactly
      if it is clear; otherwise no lists agree. */
  lemma IfExactly(g: Graph, outer: set<nat>, inside: seq<set<nat>>, rank: nat -> int, curr: nat, arm: nat, join: nat)
      returns (all: seq<set<nat>>, later: nat -> int)
    requires Tidy(g, outer, inside, rank) && CheckIf(g, curr) && IfShape(g, outer, curr, arm, join)
    requires HasParent(g, curr)
    ensures Outcome(g, IfEdit(g, curr), outer, curr, {arm}, join, all, later)
    ensures Repairable(g, IfEdit(g, curr).value.0, outer, curr, {arm}, join) <==> Clear(g, curr, join)
    ensures Made(g, IfEdit(g, curr).value.0, IfEdit(g, curr).value.1, IfStatement, curr, join, Before(g, curr))
  {
    IfArms(g, outer, rank, curr, arm, join);
    AroundArms(g, outer, rank, curr, {arm}, curr, arm, join);
    OpenInOrder(g, outer, rank, curr, {arm}, join, Before(g, curr));
    var ins, order := EndIsOpen(g, outer, inside, rank, curr, {arm}, curr, arm, join);
    var e := EndEdit(g, curr, arm, join).value;
    all, later := CloseOutcome(g, e.0, outer, ins, order, IfStatement, curr, {arm}, join, e.1);
    RepairableExactly(g, IfEdit(g, curr), outer, curr, {arm}, join, all, later);
    IfMakes(g, curr);
  }

  /** If it is not clear, no lists agree for regions that hold these. */
  lemma IfBreaks(g: Graph, outer: set<nat>, inside: seq<set<nat>>, rank: nat -> int, curr: nat, arm: nat, join: nat,
                 these: set<nat>)
    requires Tidy(g, outer, inside, rank) && CheckIf(g, curr) && IfShape(g, outer, curr, arm, join)
    requires HasParent(g, curr) && Before(g, curr) < |g|
    requires Following(g, join).Some? ==> Following(g, join).value < |g|
    requires !Clear(g, curr, join)
    requires outer - PartOf(curr, {arm}, join) - Joining(g, Before(g, curr), Following(g, join)) <= these
    ensures IfEdit(g, curr).Some?
    ensures forall after | these <= after :: !Agree(IfEdit(g, curr).value.0, after)
  {
    var all, later := IfExactly(g, outer, inside, rank, curr, arm, join);
  }

  /** And so does an if with an else, which becomes a region of its own type. */
  lemma IfElseExactly(g: Graph, outer: set<nat>, inside: seq<set<nat>>, rank: nat -> int, curr: nat, join: nat)
      returns (all: seq<set<nat>>, later: nat -> int)
    requires Tidy(g, outer, inside, rank) && CheckIfElse(g, curr) && IfElseShape(g, outer, curr, join)
    requires HasParent(g, curr)
    ensures Outcome(g, IfElseEdit(g, curr), outer, curr, BothKids(g, curr), join, all, later)
    ensures Repairable(g, IfElseEdit(g, curr).value.0, outer, curr, BothKids(g, curr), join) <==> Clear(g, curr, join)
    ensures Made(g, IfElseEdit(g, curr).value.0, IfElseEdit(g, curr).value.1, IfElseStatement, curr, join,
                 Before(g, curr))
  {
    var a, b, arms := g[curr].kids[0], g[curr].kids[1], BothKids(g, curr);
    IfElseArms(g, outer, rank, curr, join);
    AroundArms(g, outer, rank, curr, arms, a, b, join);
    OpenInOrder(g, outer, rank, curr, arms, join, Before(g, curr));
    var ins, order := EndIsOpen(g, outer, inside, rank, curr, arms, a, b, join);
    var e := EndEdit(g, a, b, join).value;
    all, later := CloseOutcome(g, e.0, outer, ins, order, IfElseStatement, curr, arms, join, e.1);
    RepairableExactly(g, IfElseEdit(g, curr), outer, curr, arms, join, all, later);
    IfElseMakes(g, curr, join);
  }

  // ---- whole runs ----

  datatype Found = If(curr: nat, arm: nat, join: nat) | IfElse(curr: nat, join: nat)

  /** The condition is there, with its arms. */
  predicate IsThere(g: Graph, outer: set<nat>, f: Found)
    requires Closed(g, outer)
  {
    && HasParent(g, f.curr)
    && match f
       case If(curr, arm, join) => CheckIf(g, curr) && IfShape(g, outer, curr, arm, join)
       case IfElse(curr, join) => CheckIfElse(g, curr) && IfElseShape(g, outer, curr, join)
  }

  function ArmsAt(g: Graph, f: Found): set<nat>
    requires f.IfElse? ==> f.curr < |g| && |g[f.curr].kids| == 2
  {
    match f
    case If(_, arm, _) => {arm}
    case IfElse(curr, _) => BothKids(g, curr)
  }

  function EditAt(g: Graph, f: Found): Option<(Graph, nat)>
    requires if f.If? then CheckIf(g, f.curr) else CheckIfElse(g, f.curr)
  {
    match f
    case If(curr, _, _) => IfEdit(g, curr)
    case IfElse(curr, _) => IfElseEdit(g, curr)
  }

  datatype State = State(g: Graph, outer: set<nat>)

  /** One clear pass. */
  predicate Pass(s: State, f: Found, t: State) {
    && Closed(s.g, s.outer) && IsThere(s.g, s.outer, f) && Before(s.g, f.curr) < |s.g| && f.join < |s.g|
    && (Following(s.g, f.join).Some? ==> Following(s.g, f.join).value < |s.g|)
    && Clear(s.g, f.curr, f.join) && EditAt(s.g, f).Some? && t.g == EditAt(s.g, f).value.0 && |t.g| > |s.g|
    && t.outer == Remaining(s.g, t.g, s.outer, f.curr, ArmsAt(s.g, f), f.join)
  }

  predicate Run(states: seq<State>, fs: seq<Found>) {
    |states| == |fs| + 1 && forall i | 0 <= i < |fs| :: Pass(states[i], fs[i], states[i + 1])
  }

  lemma OutcomeKeeps(g: Graph, r: Option<(Graph, nat)>, outer: set<nat>, curr: nat, arms: set<nat>, join: nat,
                     all: seq<set<nat>>, later: nat -> int)
    requires Closed(g, outer) && Outcome(g, r, outer, curr, arms, join, all, later) && Clear(g, curr, join)
    ensures var after := Remaining(g, r.value.0, outer, curr, arms, join);
            Tidy(r.value.0, after, all, later) && SamePaths(g, r.value.0, outer * after)
  {
    var after := Remaining(g, r.value.0, outer, curr, arms, join);
    assert |r.value.0| - 1 !in outer;
    assert outer * after <= outer - Collapsing(g, curr, arms, join);
  }

  lemma PassKeeps(s: State, f: Found, t: State, inside: seq<set<nat>>, rank: nat -> int)
      returns (all: seq<set<nat>>, later: nat -> int)
    requires Tidy(s.g, s.outer, inside, rank) && Pass(s, f, t)
    ensures Tidy(t.g, t.outer, all, later) && SamePaths(s.g, t.g, s.outer * t.outer)
  {
    if f.If? {
      all, later := IfExactly(s.g, s.outer, inside, rank, f.curr, f.arm, f.join);
      OutcomeKeeps(s.g, IfEdit(s.g, f.curr), s.outer, f.curr, {f.arm}, f.join, all, later);
    } else {
      all, later := IfElseExactly(s.g, s.outer, inside, rank, f.curr, f.join);
      OutcomeKeeps(s.g, IfElseEdit(s.g, f.curr), s.outer, f.curr, BothKids(s.g, f.curr), f.join, all, later);
    }
  }

  /** No region comes back. */
  lemma {:induction false} NoneComesBack(states: seq<State>, fs: seq<Found>, x: nat)
    requires Run(states, fs) && x in states[|fs|].outer && x < |states[0].g|
    ensures x in states[0].outer
    decreases |fs|
  {
    if fs == [] {
    } else {
      assert Pass(states[0], fs[0], states[1]);
      RunTail(states, fs);
      NoneComesBack(states[1..], fs[1..], x);
    }
  }

  lemma RunTail(states: seq<State>, fs: seq<Found>)
    requires Run(states, fs) && fs != []
    ensures Run(states[1..], fs[1..]) && states[1..][|fs| - 1] == states[|fs|]
  {
    forall i | 0 <= i < |fs| - 1 ensures Pass(states[1..][i], fs[1..][i], states[1..][i + 1]) {
      assert Pass(states[i + 1], fs[i + 1], states[i + 2]);
    }
  }

  /** However many clear passes are made, the graph stays tidy, and every region that is still there at the end has the
      paths that it had at first. */
  lemma {:induction false} RunKeeps(states: seq<State>, fs: seq<Found>, inside: seq<set<nat>>, rank: nat -> int)
      returns (all: seq<set<nat>>, later: nat -> int)
    requires Run(states, fs) && Tidy(states[0].g, states[0].outer, inside, rank)
    ensures Tidy(states[|fs|].g, states[|fs|].outer, all, later)
    ensures SamePaths(states[0].g, states[|fs|].g, states[0].outer * states[|fs|].outer)
    decreases |fs|
  {
    if fs == [] {
      all, later := inside, rank;
    } else {
      var s, t, last := states[0], states[1], states[|fs|];
      var mid, order := PassKeeps(s, fs[0], t, inside, rank);
      RunTail(states, fs);
      all, later := RunKeeps(states[1..], fs[1..], mid, order);
      forall x, w | x in s.outer * last.outer ensures HasPath(s.g, x, w) <==> HasPath(last.g, x, w) {
        assert Pass(s, fs[0], t);
        NoneComesBack(states[1..], fs[1..], x);
      }
    }
  }
}
