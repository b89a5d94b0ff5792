/** Parent and child lists of a region graph, and the edits the collapsing passes make to them. */
module RegionLists {
  import opened Options
  import opened RegionPaths

  predicate NoRepeats(list: seq<nat>) { forall a, b | 0 <= a < b < |list| :: list[a] != list[b] }

  function IndexOf(list: seq<nat>, x: nat): (i: nat)
    requires x in list
    ensures i < |list| && list[i] == x
  {
    if list[0] == x then 0 else 1 + IndexOf(list[1..], x)
  }

  function ReplaceFirst(list: seq<nat>, from: nat, to: nat): seq<nat>
    requires from in list
  {
    list[IndexOf(list, from) := to]
  }

  function RemoveFirst(list: seq<nat>, x: nat): seq<nat>
    requires x in list
  {
    list[..IndexOf(list, x)] + list[IndexOf(list, x) + 1..]
  }

  /** `b` is `a` with `to` in the place of `from`, and repeats nothing. */
  ghost predicate Swapped(a: seq<nat>, b: seq<nat>, from: nat, to: nat) {
    NoRepeats(b) && forall c :: c in b <==> (c in a && c != from) || c == to
  }

  lemma ReplacedIsSwapped(list: seq<nat>, from: nat, to: nat)
    requires NoRepeats(list) && from in list && to !in list
    ensures Swapped(list, ReplaceFirst(list, from, to), from, to)
    ensures ReplaceFirst(list, from, to) == Renamed(list, from, to)
  {
    var b, i := ReplaceFirst(list, from, to), IndexOf(list, from);
    assert b == Renamed(list, from, to);
    forall c ensures c in b <==> (c in list && c != from) || c == to { RenamedMembers(list, from, to, c); }
  }

  lemma RemovedMembers(list: seq<nat>, x: nat)
    requires NoRepeats(list) && x in list
    ensures NoRepeats(RemoveFirst(list, x)) && forall c :: c in RemoveFirst(list, x) <==> c in list && c != x
  {
    var b, i := RemoveFirst(list, x), IndexOf(list, x);
    forall c | c in list && c != x ensures c in b {
      var k :| 0 <= k < |list| && list[k] == c;
      assert b[if k < i then k else k - 1] == c;
    }
  }

  /** Removing an element and appending another puts the one in the place of the other. */
  lemma MovedIsSwapped(list: seq<nat>, from: nat, to: nat)
    requires NoRepeats(list) && from in list && to !in list
    ensures Swapped(list, RemoveFirst(list, from) + [to], from, to)
  {
    RemovedMembers(list, from);
  }

  // ---- what holds of the outer regions ----

  predicate Closed(g: Graph, outer: set<nat>) {
    forall x | x in outer ::
      x < |g| && (forall c | c in g[x].kids :: c in outer) && forall p | p in g[x].parents :: p in outer
  }

  /** Parent and child lists say the same. */
  predicate Mutual(g: Graph, outer: set<nat>)
    requires Closed(g, outer)
  {
    forall x, y | x in outer && y in outer :: y in g[x].kids <==> x in g[y].parents
  }

  predicate Distinct(g: Graph, outer: set<nat>)
    requires Closed(g, outer)
  {
    forall x | x in outer :: NoRepeats(g[x].kids) && NoRepeats(g[x].parents)
  }

  predicate Apart(inside: seq<set<nat>>, outer: set<nat>) {
    forall r | 0 <= r < |inside| :: inside[r] !! outer
  }

  predicate Consistent(g: Graph, outer: set<nat>) { Closed(g, outer) && Mutual(g, outer) && Distinct(g, outer) }

  predicate Good(g: Graph, outer: set<nat>, inside: seq<set<nat>>) {
    Consistent(g, outer) && Shut(g, inside) && Apart(inside, outer)
  }

  /** Changing the lists of outer regions and adding a region changes no inside. */
  lemma OuterChangesKeep(g: Graph, h: Graph, outer: set<nat>, inside: seq<set<nat>>)
    requires Good(g, outer, inside) && |g| <= |h|
    requires forall r | 0 <= r < |g| :: h[r].body == g[r].body && (r !in outer ==> h[r].kids == g[r].kids)
    ensures Keeps(g, h, inside)
  {
    forall r | 0 <= r < |g| ensures KeepsAt(g, h, r, inside[r]) { assert ShutAt(g, r, inside[r]); }
  }

  // ---- a region in place of a part ----

  function WithKid(g: Graph, before: Option<nat>, from: nat, to: nat): Graph
    requires before.Some? ==> before.value < |g| && from in g[before.value].kids
  {
    if before.None? then g
    else g[before.value := g[before.value].(kids := ReplaceFirst(g[before.value].kids, from, to))]
  }

  function WithParent(g: Graph, next: Option<nat>, from: nat, to: nat): Graph
    requires next.Some? ==> next.value < |g| && from in g[next.value].parents
  {
    if next.None? then g
    else g[next.value := g[next.value].(parents := ReplaceFirst(g[next.value].parents, from, to))]
  }

  function AsList(x: Option<nat>): seq<nat> { if x.Some? then [x.value] else [] }

  /** Where a new region goes: between which regions it extends, which child of `before` it
      replaces, and which parent of `next`. */
  datatype Place = Place(kind: Kind, start: nat, end: nat, child: nat, before: Option<nat>, next: Option<nat>)

  predicate Fits(g: Graph, p: Place) {
    && (p.before.Some? ==> p.before.value < |g| && p.child in g[p.before.value].kids)
    && (p.next.Some? ==> p.next.value < |g| && p.end in g[p.next.value].parents)
  }

  function Insert(g: Graph, p: Place): Graph
    requires Fits(g, p)
  {
    var made := g + [Region(p.kind, Between(p.start, p.end), AsList(p.before), AsList(p.next))];
    WithParent(WithKid(made, p.before, p.child, |g|), p.next, p.end, |g|)
  }

  /** The part has one entry, through `before`, and one exit, to `next`. */
  predicate Sese(g: Graph, outer: set<nat>, part: set<nat>, p: Place)
    requires Closed(g, outer)
  {
    && part <= outer && p.child in part && p.end in part
    && (forall i | i in part && i != p.end :: g[i].kids != [] && forall c | c in g[i].kids :: c in part)
    && (forall x | x in outer - part :: forall c | c in g[x].kids && c in part :: c == p.child && p.before == Some(x))
    && g[p.end].kids == AsList(p.next)
    && (p.next.Some? ==> p.next.value !in part)
    && (p.before.Some? ==> p.before.value in outer - part && p.child in g[p.before.value].kids)
  }

  lemma SeseFits(g: Graph, outer: set<nat>, part: set<nat>, p: Place)
    requires Closed(g, outer) && Mutual(g, outer) && Sese(g, outer, part, p)
    ensures Fits(g, p) && (p.next.Some? ==> p.next.value in outer - part)
  {
    if p.next.Some? { assert p.next.value in g[p.end].kids; }
  }

  lemma InsertAt(g: Graph, p: Place, x: nat)
    requires Fits(g, p) && x < |g|
    ensures |Insert(g, p)| == |g| + 1 && Insert(g, p)[x].body == g[x].body && Insert(g, p)[x].kind == g[x].kind
    ensures Insert(g, p)[x].kids == if p.before == Some(x) then ReplaceFirst(g[x].kids, p.child, |g|) else g[x].kids
    ensures Insert(g, p)[x].parents
         == if p.next == Some(x) then ReplaceFirst(g[x].parents, p.end, |g|) else g[x].parents
  {}

  lemma InsertedAt(g: Graph, p: Place)
    requires Fits(g, p)
    ensures |Insert(g, p)| == |g| + 1
    ensures Insert(g, p)[|g|] == Region(p.kind, Between(p.start, p.end), AsList(p.before), AsList(p.next))
  {}

  lemma NotYet(g: Graph, outer: set<nat>, x: nat)
    requires Closed(g, outer) && x in outer
    ensures |g| !in g[x].kids && |g| !in g[x].parents
  {
    assert forall c | c in g[x].kids :: c in outer && c < |g|;
    assert forall q | q in g[x].parents :: q in outer && q < |g|;
  }

  /** The lists of an outer region after the insertion. */
  lemma InsertedLists(g: Graph, outer: set<nat>, part: set<nat>, p: Place, x: nat)
    requires Consistent(g, outer) && Sese(g, outer, part, p) && Fits(g, p)
    requires x in outer
    ensures var h := Insert(g, p);
            && |h| == |g| + 1
            && (if p.before == Some(x)
                then Swapped(g[x].kids, h[x].kids, p.child, |g|) && h[x].kids == Renamed(g[x].kids, p.child, |g|)
                else h[x].kids == g[x].kids)
            && (if p.next == Some(x)
                then Swapped(g[x].parents, h[x].parents, p.end, |g|)
                else h[x].parents == g[x].parents)
  {
    InsertAt(g, p, x);
    NotYet(g, outer, x);
    if p.before == Some(x) { ReplacedIsSwapped(g[x].kids, p.child, |g|); }
    if p.next == Some(x) { ReplacedIsSwapped(g[x].parents, p.end, |g|); }
  }

  /** Parents of a region outside the part are outside it, but for the exit as parent of `next`. */
  lemma ParentsOutside(g: Graph, outer: set<nat>, part: set<nat>, p: Place, x: nat, q: nat)
    requires Closed(g, outer) && Mutual(g, outer) && Sese(g, outer, part, p)
    requires x in outer - part && q in g[x].parents && q in part
    ensures q == p.end && p.next == Some(x)
  {
    assert x in g[q].kids;
  }

  function NewOuter(g: Graph, outer: set<nat>, part: set<nat>): set<nat> { outer - part + {|g|} }

  lemma InsertClosed(g: Graph, outer: set<nat>, part: set<nat>, p: Place)
    requires Consistent(g, outer) && Sese(g, outer, part, p) && Fits(g, p)
    ensures Closed(Insert(g, p), NewOuter(g, outer, part))
  {
    var h, after := Insert(g, p), NewOuter(g, outer, part);
    SeseFits(g, outer, part, p);
    InsertedAt(g, p);
    forall x | x in outer - part
      ensures x < |h| && (forall c | c in h[x].kids :: c in after) && forall q | q in h[x].parents :: q in after
    {
      InsertedLists(g, outer, part, p, x);
      forall q | q in h[x].parents ensures q in after {
        if q in part && q in g[x].parents { ParentsOutside(g, outer, part, p, x, q); }
      }
    }
  }

  lemma InsertMutual(g: Graph, outer: set<nat>, part: set<nat>, p: Place)
    requires Consistent(g, outer) && Sese(g, outer, part, p) && Fits(g, p)
    requires Closed(Insert(g, p), NewOuter(g, outer, part))
    ensures Mutual(Insert(g, p), NewOuter(g, outer, part)) && Distinct(Insert(g, p), NewOuter(g, outer, part))
  {
    var h, after := Insert(g, p), NewOuter(g, outer, part);
    InsertedAt(g, p);
    forall x | x in outer - part
      ensures NoRepeats(h[x].kids) && NoRepeats(h[x].parents)
      ensures |g| in h[x].kids <==> p.before == Some(x)
      ensures |g| in h[x].parents <==> p.next == Some(x)
    {
      InsertedLists(g, outer, part, p, x);
      NotYet(g, outer, x);
    }
    forall x, y | x in outer - part && y in outer - part ensures y in h[x].kids <==> x in h[y].parents {
      InsertedLists(g, outer, part, p, x);
      InsertedLists(g, outer, part, p, y);
    }
  }

  /** `ins` is what a walk from the start to the end of the new region may visit. */
  lemma InsertGood(g: Graph, outer: set<nat>, inside: seq<set<nat>>, part: set<nat>, ins: set<nat>, p: Place)
    requires Good(g, outer, inside) && Sese(g, outer, part, p) && Fits(g, p)
    requires p.start in ins && Holds(g, ins, p.end) && ins !! outer - part
    ensures Good(Insert(g, p), NewOuter(g, outer, part), inside + [ins]) && Keeps(g, Insert(g, p), inside)
  {
    var h := Insert(g, p);
    InsertClosed(g, outer, part, p);
    InsertMutual(g, outer, part, p);
    InsertedAt(g, p);
    forall r | 0 <= r < |g| ensures h[r].body == g[r].body && (p.before != Some(r) ==> h[r].kids == g[r].kids) {
      InsertAt(g, p, r);
    }
    OuterChangesKeep(g, h, outer, inside);
    forall r | 0 <= r < |h|
      ensures ShutAt(h, r, (inside + [ins])[r]) && (inside + [ins])[r] !! NewOuter(g, outer, part)
    {
      InsideStaysShut(g, h, outer, inside, part, ins, p, r);
    }
  }

  lemma InsideStaysShut(g: Graph, h: Graph, outer: set<nat>, inside: seq<set<nat>>, part: set<nat>, ins: set<nat>,
                        p: Place, r: nat)
    requires Good(g, outer, inside) && Fits(g, p) && h == Insert(g, p) && r <= |g| && |h| == |g| + 1
    requires p.before.Some? ==> p.before.value in outer - part
    requires p.start in ins && Holds(g, ins, p.end) && ins !! outer - part
    requires Keeps(g, h, inside)
    ensures ShutAt(h, r, (inside + [ins])[r]) && (inside + [ins])[r] !! NewOuter(g, outer, part)
  {
    if r < |g| {
      assert ShutAt(g, r, inside[r]) && KeepsAt(g, h, r, inside[r]) && inside[r] !! outer;
      if g[r].body.Between? { assert Holds(h, inside[r], h[r].body.end); }
    } else {
      InsertedAt(g, p);
      forall i | i in ins ensures h[i].kids == g[i].kids { InsertAt(g, p, i); }
    }
  }

  /** The two graphs have the same node paths from every region of `outer`. */
  ghost predicate SamePaths(g: Graph, h: Graph, outer: set<nat>) {
    forall x, w | x in outer :: HasPath(g, x, w) <==> HasPath(h, x, w)
  }

  /** A region in place of a part with one entry and one exit keeps all node paths. */
  lemma InsertKeepsPaths(g: Graph, outer: set<nat>, inside: seq<set<nat>>, part: set<nat>, p: Place)
    requires Good(g, outer, inside) && Sese(g, outer, part, p) && Fits(g, p) && p.start == p.child
    ensures SamePaths(g, Insert(g, p), outer)
    ensures forall w :: HasPath(g, p.start, w) <==> HasPath(Insert(g, p), |g|, w)
  {
    var h := Insert(g, p);
    var cut := Cut(inside, outer, part, p.start, p.end, |g|);
    PartHolds(g, outer, part, p);
    InsertGood(g, outer, inside, part, part, p);
    InsertedAt(g, p);
    assert Collapsed(g, h, outer, part, p.start, p.end, |g|) by {
      forall x | x in outer
        ensures h[x].kids == g[x].kids || (x !in part && h[x].kids == Renamed(g[x].kids, p.start, |g|))
      {
        InsertedLists(g, outer, part, p, x);
      }
    }
    forall x, w | x in outer ensures HasPath(g, x, w) <==> HasPath(h, x, w) { CollapseKeepsPaths(g, h, cut, x, w); }
    forall w ensures HasPath(g, p.start, w) <==> HasPath(h, |g|, w) { CollapseKeepsPaths(g, h, cut, p.start, w); }
  }

  lemma PartHolds(g: Graph, outer: set<nat>, part: set<nat>, p: Place)
    requires Closed(g, outer) && Sese(g, outer, part, p)
    ensures Holds(g, part, p.end)
  {
    forall i | i in part ensures i < |g| { assert i in outer; }
  }

  // ---- a region that contributes nothing ----

  /** Regions `p1` and `p2` get the new region as a child instead of `j`. */
  function Subdivide(g: Graph, p1: nat, p2: nat, j: nat): Graph
    requires p1 < |g| && p2 < |g| && j < |g| && p1 != p2 && j in g[p1].kids && j in g[p2].kids
    requires p1 in g[j].parents && p2 in ReplaceFirst(g[j].parents, p1, |g|)
  {
    var made := |g|;
    var a := g + [Region(Linear, Nothing, [p1, p2], [j])];
    var b := WithKids(a, p1, RemoveFirst(a[p1].kids, j));
    var c := WithKids(b, p2, RemoveFirst(b[p2].kids, j));
    var d := WithParents(c, j, ReplaceFirst(c[j].parents, p1, made));
    var e := WithParents(d, j, RemoveFirst(d[j].parents, p2));
    var f := WithKids(e, p1, e[p1].kids + [made]);
    WithKids(f, p2, f[p2].kids + [made])
  }

  function WithKids(g: Graph, x: nat, kids: seq<nat>): Graph
    requires x < |g|
  {
    g[x := g[x].(kids := kids)]
  }

  function WithParents(g: Graph, x: nat, parents: seq<nat>): Graph
    requires x < |g|
  {
    g[x := g[x].(parents := parents)]
  }

  predicate Joins(g: Graph, outer: set<nat>, p1: nat, p2: nat, j: nat)
    requires Closed(g, outer)
  {
    p1 in outer && p2 in outer && j in outer && p1 != p2 && j in g[p1].kids && j in g[p2].kids
  }

  lemma JoinsFit(g: Graph, outer: set<nat>, p1: nat, p2: nat, j: nat)
    requires Consistent(g, outer) && Joins(g, outer, p1, p2, j)
    ensures p1 < |g| && p2 < |g| && j < |g| && p1 in g[j].parents && p2 in ReplaceFirst(g[j].parents, p1, |g|)
  {
    assert p1 in g[j].parents && p2 in g[j].parents;
    NotYet(g, outer, j);
    ReplacedIsSwapped(g[j].parents, p1, |g|);
  }

  /** The lists of region `x` before and after. */
  ghost predicate SubdividedAt(a: Region, b: Region, made: nat, p1: nat, p2: nat, j: nat, x: nat) {
    && b.kind == a.kind
    && (if x == p1 || x == p2 then Swapped(a.kids, b.kids, j, made) else b.kids == a.kids)
    && (x != j ==> b.parents == a.parents)
    && NoRepeats(b.parents)
    && forall q :: q in b.parents <==>
         if x == j then (q in a.parents && q != p1 && q != p2) || q == made else q in a.parents
  }

  lemma SubdividedLists(g: Graph, h: Graph, outer: set<nat>, p1: nat, p2: nat, j: nat, x: nat)
    requires Consistent(g, outer) && Joins(g, outer, p1, p2, j) && x in outer
    requires |h| == |g| + 1 && SubdivideForm(g[x], h[x], |g|, p1, p2, j, x)
    ensures SubdividedAt(g[x], h[x], |g|, p1, p2, j, x)
  {
    NotYet(g, outer, x);
    if x == p1 || x == p2 { MovedIsSwapped(g[x].kids, j, |g|); }
    if x == j {
      ReplacedIsSwapped(g[j].parents, p1, |g|);
      RemovedMembers(ReplaceFirst(g[j].parents, p1, |g|), p2);
    }
  }

  predicate SubdivideForm(a: Region, b: Region, made: nat, p1: nat, p2: nat, j: nat, x: nat) {
    && b.body == a.body && b.kind == a.kind
    && (if x == p1 || x == p2 then j in a.kids && b.kids == RemoveFirst(a.kids, j) + [made] else b.kids == a.kids)
    && (if x == j then
          p1 in a.parents && p2 in ReplaceFirst(a.parents, p1, made) &&
          b.parents == RemoveFirst(ReplaceFirst(a.parents, p1, made), p2)
        else b.parents == a.parents)
  }

  lemma SubdivideAt(g: Graph, p1: nat, p2: nat, j: nat, x: nat)
    requires p1 < |g| && p2 < |g| && j < |g| && p1 != p2 && j in g[p1].kids && j in g[p2].kids && x < |g|
    requires p1 in g[j].parents && p2 in ReplaceFirst(g[j].parents, p1, |g|)
    ensures |Subdivide(g, p1, p2, j)| == |g| + 1 && SubdivideForm(g[x], Subdivide(g, p1, p2, j)[x], |g|, p1, p2, j, x)
  {}

  lemma SubdivideMade(g: Graph, p1: nat, p2: nat, j: nat)
    requires p1 < |g| && p2 < |g| && j < |g| && p1 != p2 && j in g[p1].kids && j in g[p2].kids
    requires p1 in g[j].parents && p2 in ReplaceFirst(g[j].parents, p1, |g|)
    ensures |Subdivide(g, p1, p2, j)| == |g| + 1
    ensures Subdivide(g, p1, p2, j)[|g|] == Region(Linear, Nothing, [p1, p2], [j])
  {}

  /** All regions before and after. */
  ghost predicate SubdividedGraph(g: Graph, h: Graph, outer: set<nat>, p1: nat, p2: nat, j: nat) {
    && |h| == |g| + 1 && h[|g|] == Region(Linear, Nothing, [p1, p2], [j])
    && (forall x | x in outer :: x < |g| && SubdividedAt(g[x], h[x], |g|, p1, p2, j, x))
  }

  lemma SubdividedClosed(g: Graph, h: Graph, outer: set<nat>, p1: nat, p2: nat, j: nat)
    requires Closed(g, outer) && Joins(g, outer, p1, p2, j) && SubdividedGraph(g, h, outer, p1, p2, j)
    ensures Closed(h, outer + {|g|})
  {
    forall x | x in outer
      ensures x < |h| && (forall c | c in h[x].kids :: c in outer + {|g|})
      ensures forall q | q in h[x].parents :: q in outer + {|g|}
    {
      assert SubdividedAt(g[x], h[x], |g|, p1, p2, j, x);
    }
  }

  lemma SubdividedMutual(g: Graph, h: Graph, outer: set<nat>, p1: nat, p2: nat, j: nat)
    requires Consistent(g, outer) && Joins(g, outer, p1, p2, j)
    requires SubdividedGraph(g, h, outer, p1, p2, j) && Closed(h, outer + {|g|})
    ensures Mutual(h, outer + {|g|}) && Distinct(h, outer + {|g|})
  {
    forall x | x in outer
      ensures NoRepeats(h[x].kids) && NoRepeats(h[x].parents)
      ensures |g| in h[x].kids <==> x == p1 || x == p2
      ensures |g| in h[x].parents <==> x == j
    {
      assert SubdividedAt(g[x], h[x], |g|, p1, p2, j, x);
      NotYet(g, outer, x);
    }
    forall x, y | x in outer && y in outer ensures y in h[x].kids <==> x in h[y].parents {
      assert SubdividedAt(g[x], h[x], |g|, p1, p2, j, x) && SubdividedAt(g[y], h[y], |g|, p1, p2, j, y);
    }
  }

  /** The new region keeps the lists mutual and changes no node path. */
  lemma SubdivideGood(g: Graph, outer: set<nat>, inside: seq<set<nat>>, p1: nat, p2: nat, j: nat)
    requires Good(g, outer, inside) && Joins(g, outer, p1, p2, j)
    requires p1 < |g| && p2 < |g| && j < |g| && p1 in g[j].parents && p2 in ReplaceFirst(g[j].parents, p1, |g|)
    ensures Good(Subdivide(g, p1, p2, j), outer + {|g|}, inside + [{}])
    ensures SamePaths(g, Subdivide(g, p1, p2, j), outer)
  {
    var h := Subdivide(g, p1, p2, j);
    SubdivideMade(g, p1, p2, j);
    forall x | 0 <= x < |g| ensures SubdivideForm(g[x], h[x], |g|, p1, p2, j, x) { SubdivideAt(g, p1, p2, j, x); }
    forall x | x in outer ensures SubdividedAt(g[x], h[x], |g|, p1, p2, j, x) {
      SubdividedLists(g, h, outer, p1, p2, j, x);
    }
    SubdividedClosed(g, h, outer, p1, p2, j);
    SubdividedMutual(g, h, outer, p1, p2, j);
    SubdividedPaths(g, h, outer, inside, p1, p2, j);
  }

  lemma SubdividedPaths(g: Graph, h: Graph, outer: set<nat>, inside: seq<set<nat>>, p1: nat, p2: nat, j: nat)
    requires Good(g, outer, inside) && Joins(g, outer, p1, p2, j) && SubdividedGraph(g, h, outer, p1, p2, j)
    requires forall x | 0 <= x < |g| :: SubdivideForm(g[x], h[x], |g|, p1, p2, j, x)
    ensures Shut(h, inside + [{}]) && Apart(inside + [{}], outer + {|g|}) && SamePaths(g, h, outer)
  {
    forall r | 0 <= r < |g| ensures h[r].body == g[r].body && (r !in outer ==> h[r].kids == g[r].kids) {
      assert SubdivideForm(g[r], h[r], |g|, p1, p2, j, r);
    }
    OuterChangesKeep(g, h, outer, inside);
    forall r | 0 <= r < |h| ensures ShutAt(h, r, (inside + [{}])[r]) && (inside + [{}])[r] !! outer + {|g|} {
      if r < |g| {
        assert ShutAt(g, r, inside[r]) && KeepsAt(g, h, r, inside[r]) && inside[r] !! outer;
        if g[r].body.Between? { assert Holds(h, inside[r], h[r].body.end); }
      }
    }
    assert Subdivided(g, h, inside, outer, {p1, p2}, j) by {
      forall x | x in outer
        ensures x != p1 && x != p2 ==> h[x].kids == g[x].kids
        ensures x == p1 || x == p2 ==> SwapsKid(g[x].kids, h[x].kids, j, |g|)
      {
        assert SubdividedAt(g[x], h[x], |g|, p1, p2, j, x);
        NotYet(g, outer, j);
      }
    }
    forall x, w | x in outer ensures HasPath(g, x, w) <==> HasPath(h, x, w) {
      SubdividingKeepsPaths(g, h, inside, outer, {p1, p2}, j, x, w);
    }
  }
}
