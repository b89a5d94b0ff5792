/** Joining regions in line. */
module RegionJoins {
  import opened Options
  import opened RegionPaths
  import opened RegionLists
  import opened RegionEdits
  import opened RegionShapes
  import opened RegionBranches

  /** `curr` is alone below `before` and leads to `next` only, as a region just made does. */
  predicate InLine(g: Graph, outer: set<nat>, before: nat, curr: nat, next: Option<nat>)
    requires Closed(g, outer)
  {
    before in outer && curr in outer && g[curr].parents == [before] && g[curr].kids == AsList(next)
  }

  /** Below a branch, only `curr` leads to what follows, which has at most one child. */
  predicate OnlyLine(g: Graph, before: nat, curr: nat, next: Option<nat>)
    requires before < |g|
  {
    g[before].kind.Basic? && next.Some? ==> next.value < |g| && OnlyAfter(g, {curr}, next.value)
  }

  /** The first and the last region of the line: below a branch it starts at `curr`; it takes in what follows below a
      branch, and otherwise unless that is a branch. */
  function LineStart(g: Graph, before: nat, curr: nat): nat
    requires before < |g|
  {
    if g[before].kind.Basic? then curr else before
  }

  function LineEnd(g: Graph, before: nat, curr: nat, next: Option<nat>): nat
    requires before < |g| && (next.Some? ==> next.value < |g|)
  {
    if next.Some? && (g[before].kind.Basic? || !g[next.value].kind.Basic?) then next.value else curr
  }

  /** What joining leaves: nothing changes if the line is one region; else its regions leave the outer graph for a new
      linear one, the last made, that spans them. */
  predicate Joined(g: Graph, h: Graph, outer: set<nat>, after: set<nat>, before: nat, curr: nat, next: Option<nat>)
    requires before < |g| && (next.Some? ==> next.value < |g|)
  {
    var first, last := LineStart(g, before, curr), LineEnd(g, before, curr, next);
    if first == last then h == g && after == outer
    else
      && |h| > |g| && h[|h| - 1].kind.Linear? && h[|h| - 1].body == Between(first, last)
      && after == outer - {first, curr, last} + {|h| - 1}
  }

  lemma LineInOrder(g: Graph, outer: set<nat>, rank: nat -> int, before: nat, curr: nat, next: Option<nat>)
    requires Consistent(g, outer) && Ordered(g, outer, rank) && InLine(g, outer, before, curr, next)
    ensures curr in g[before].kids && rank(before) < rank(curr)
    ensures next.Some? ==> next.value in outer && curr in g[next.value].parents && rank(curr) < rank(next.value)
    ensures forall q | q in g[before].parents :: q in outer && before in g[q].kids && rank(q) < rank(before)
  {
    assert before in g[curr].parents;
    if next.Some? { assert next.value in g[curr].kids; }
    forall q | q in g[before].parents ensures rank(q) < rank(before) {
      ParentsComeEarlier(g, outer, rank, before, q);
    }
  }

  // ---- the edits go through ----

  /** The lists name each other where the edits look. */
  predicate Linked(g: Graph, before: nat, curr: nat, next: Option<nat>) {
    && before < |g| && curr < |g| && curr in g[before].kids
    && (forall q | q in g[before].parents :: q < |g| && before in g[q].kids && q != before && Some(q) != next)
    && (next.Some? ==>
          && next.value < |g| && curr in g[next.value].parents && next.value != before && next.value != curr
          && forall c | c in g[next.value].kids :: c < |g| && next.value in g[c].parents && c != next.value)
  }

  lemma LineIsLinked(g: Graph, outer: set<nat>, rank: nat -> int, before: nat, curr: nat, next: Option<nat>)
    requires Consistent(g, outer) && Ordered(g, outer, rank) && InLine(g, outer, before, curr, next)
    ensures Linked(g, before, curr, next)
  {
    LineInOrder(g, outer, rank, before, curr, next);
    if next.Some? {
      forall c | c in g[next.value].kids ensures c < |g| && next.value in g[c].parents && c != next.value {}
    }
  }

  lemma PairFits(g: Graph, before: nat, curr: nat, next: Option<nat>)
    requires Linked(g, before, curr, next)
    ensures Fits(g, PairPlace(g, before, curr, next))
  {
    if g[before].parents != [] { assert g[before].parents[0] in g[before].parents; }
  }

  /** The second insertion finds what the first has put in place. */
  lemma LineFits(g: Graph, before: nat, curr: nat, next: nat)
    requires Linked(g, before, curr, Some(next)) && Fits(g, PairPlace(g, before, curr, Some(next)))
    ensures var h := Insert(g, PairPlace(g, before, curr, Some(next)));
            && |h| == |g| + 1 && h[before].parents == g[before].parents && h[next].kids == g[next].kids
            && h[next].kind == g[next].kind
            && (curr != next ==> h[curr].parents == g[curr].parents)
            && Fits(h, LinePlace(h, before, |g|, next))
  {
    var p := PairPlace(g, before, curr, Some(next));
    InsertedAt(g, p);
    InsertAt(g, p, before);
    InsertAt(g, p, next);
    InsertAt(g, p, curr);
    if g[before].parents != [] {
      var q := g[before].parents[0];
      assert q in g[before].parents;
      InsertAt(g, p, q);
      var kids := g[q].kids;
      assert ReplaceFirst(kids, before, |g|)[IndexOf(kids, before)] == |g|;
    }
    if g[next].kids != [] {
      var c := g[next].kids[0];
      assert c in g[next].kids;
      InsertAt(g, p, c);
    }
  }

  lemma JoinGoesThrough(g: Graph, before: nat, curr: nat, next: Option<nat>)
    requires Linked(g, before, curr, next)
    ensures JoinEdit(g, before, curr, next).Some?
  {
    if !g[before].kind.Basic? {
      PairFits(g, before, curr, next);
      if next.Some? { LineFits(g, before, curr, next.value); }
    } else if next.Some? && g[next.value].kids != [] {
      assert g[next.value].kids[0] in g[next.value].kids;
    }
  }

  /** And they put new regions in the place of these only. */
  lemma JoinRetains(g: Graph, before: nat, curr: nat, next: Option<nat>)
    requires before < |g| && curr < |g| && (next.Some? ==> next.value < |g|)
    requires JoinEdit(g, before, curr, next).Some?
    ensures Retains(g, JoinEdit(g, before, curr, next).value.0, {before, curr},
                    if next.Some? then {curr, next.value} else {curr})
  {
    if !g[before].kind.Basic? {
      var p := PairPlace(g, before, curr, next);
      InsertRetains(g, p);
      var h := Insert(g, p);
      InsertedAt(g, p);
      if GoesFurther(h, curr, next) {
        var q := LinePlace(h, before, |g|, next.value);
        InsertRetains(h, q);
        RetainedTwice(g, h, Insert(h, q), before, curr, next.value);
      }
    } else if next.Some? && |g[curr].parents| == 1 {
      InsertRetains(g, Whole(g, Linear, curr, next.value, before));
    }
  }

  lemma RetainedTwice(g: Graph, h: Graph, k: Graph, before: nat, curr: nat, next: nat)
    requires |h| == |g| + 1 && Retains(g, h, {before}, {curr}) && Retains(h, k, {|g|}, {next})
    ensures Retains(g, k, {before, curr}, {curr, next})
  {
    forall x | 0 <= x < |g| ensures RetainsAt(g[x], k[x], |g|, {before, curr}, {curr, next}) {
      assert RetainsAt(g[x], h[x], |g|, {before}, {curr}) && RetainsAt(h[x], k[x], |h|, {|g|}, {next});
    }
  }

  // ---- below a branch ----

  lemma BranchOverLine(g: Graph, outer: set<nat>, rank: nat -> int, before: nat, curr: nat, next: nat)
    requires Consistent(g, outer) && Ordered(g, outer, rank) && InLine(g, outer, before, curr, Some(next))
    ensures next in outer && OpenDiamond(g, outer, curr, {}, next, before)
    ensures Sealed(g, curr, {}, next) <==> OnlyAfter(g, {curr}, next)
    ensures PartOf(curr, {}, next) == {curr, next}
  {
    LineInOrder(g, outer, rank, before, curr, Some(next));
    assert {curr} + {} == {curr};
  }

  /** Where something else leads to what follows, or that has several children, no lists agree. */
  lemma JoinBreaks(g: Graph, outer: set<nat>, rank: nat -> int, before: nat, curr: nat, next: Option<nat>)
    requires Consistent(g, outer) && Ordered(g, outer, rank) && InLine(g, outer, before, curr, next)
    requires !OnlyLine(g, before, curr, next)
    ensures next.Some? && next.value < |g|
    ensures var r := JoinEdit(g, before, curr, next);
            r.Some? && forall after | outer - {curr, next.value} <= after :: !Agree(r.value.0, after)
  {
    LineInOrder(g, outer, rank, before, curr, next);
    LineIsLinked(g, outer, rank, before, curr, next);
    JoinGoesThrough(g, before, curr, next);
    BranchOverLine(g, outer, rank, before, curr, next.value);
    var q, j, x := OpenIsSnagged(g, outer, rank, Linear, curr, {}, next.value, before);
    var h := JoinEdit(g, before, curr, next).value.0;
    forall after | outer - {curr, next.value} <= after ensures !Agree(h, after) {
      SnaggedBreaks(h, q, j, x, curr, before, after);
    }
  }

  // ---- in line ----

  /** The first insertion. */
  lemma PairIsTidy(g: Graph, outer: set<nat>, inside: seq<set<nat>>, rank: nat -> int, before: nat, curr: nat,
                   next: Option<nat>)
    requires Tidy(g, outer, inside, rank) && InLine(g, outer, before, curr, next) && !g[before].kind.Basic?
    ensures var p := PairPlace(g, before, curr, next);
            && Fits(g, p) && Sese(g, outer, {before, curr}, p) && SamePaths(g, Insert(g, p), outer)
            && Tidy(Insert(g, p), NewOuter(g, outer, {before, curr}), inside + [{before, curr}],
                    Placing(rank, |g|, before))
            && forall w :: HasPath(g, before, w) <==> HasPath(Insert(g, p), |g|, w)
  {
    var p := PairPlace(g, before, curr, next);
    LineInOrder(g, outer, rank, before, curr, next);
    assert g[before].kids == [curr] && g[before].parents == AsList(FirstOf(g[before].parents));
    if p.before.Some? { assert p.before.value in g[before].parents; }
    assert PartOf(before, {}, curr) == {before, curr};
    DiamondIsSese(g, outer, before, {}, curr, p.before, Linear);
    SeseFits(g, outer, {before, curr}, p);
    PartHolds(g, outer, {before, curr}, p);
    InsertTidy(g, outer, inside, rank, {before, curr}, {before, curr}, p);
    InsertKeepsPaths(g, outer, inside, {before, curr}, p);
  }

  lemma NewId(g: Graph, outer: set<nat>)
    requires Closed(g, outer)
    ensures |g| !in outer && |g| + 1 !in outer
  {}

  /** After the first insertion. */
  lemma AfterPair(g: Graph, outer: set<nat>, h: Graph, rank: nat -> int, before: nat, curr: nat, next: nat)
    requires Consistent(g, outer) && Ordered(g, outer, rank) && Slim(g, outer)
    requires InLine(g, outer, before, curr, Some(next)) && next < |g|
    requires !g[before].kind.Basic? && !g[next].kind.Basic?
    requires Fits(g, PairPlace(g, before, curr, Some(next))) && h == Insert(g, PairPlace(g, before, curr, Some(next)))
    ensures |h| == |g| + 1 && h[before].kids == [curr] && h[curr].kids == [next]
    ensures h[|g|].parents == AsList(FirstOf(g[before].parents)) && h[|g|].kids == [next]
    ensures h[next].parents == [|g|] && h[next].kids == g[next].kids && |g[next].kids| <= 1
  {
    var q := PairPlace(g, before, curr, Some(next));
    LineInOrder(g, outer, rank, before, curr, Some(next));
    InsertedAt(g, q);
    InsertAt(g, q, before);
    InsertAt(g, q, curr);
    InsertAt(g, q, next);
    assert g[before].kids == [curr];
    assert g[next].parents == [curr] && ReplaceFirst([curr], curr, |g|) == [|g|];
    if g[before].parents != [] { assert g[before].parents[0] in g[before].parents; }
  }

  /** The second insertion takes in what follows. */
  lemma LineIsSese(g: Graph, outer: set<nat>, h: Graph, rank: nat -> int, before: nat, curr: nat, next: nat)
    requires Consistent(g, outer) && Ordered(g, outer, rank) && Slim(g, outer)
    requires InLine(g, outer, before, curr, Some(next)) && next < |g|
    requires !g[before].kind.Basic? && !g[next].kind.Basic?
    requires Fits(g, PairPlace(g, before, curr, Some(next))) && h == Insert(g, PairPlace(g, before, curr, Some(next)))
    requires Consistent(h, NewOuter(g, outer, {before, curr})) && |h| == |g| + 1
    requires h[before].parents == g[before].parents
    ensures Holds(h, {before, curr, next}, next)
    ensures Sese(h, NewOuter(g, outer, {before, curr}), {|g|, next}, LinePlace(h, before, |g|, next))
    ensures FirstKid(h, next) == FirstKid(g, next) && next in outer
    ensures FirstKid(g, next).Some? ==> rank(before) < rank(FirstKid(g, next).value) && FirstKid(g, next).value < |g|
  {
    var after, parent := NewOuter(g, outer, {before, curr}), FirstOf(g[before].parents);
    AfterPair(g, outer, h, rank, before, curr, next);
    LineInOrder(g, outer, rank, before, curr, Some(next));
    NewId(g, outer);
    if parent.Some? { assert parent.value in g[before].parents; }
    if g[next].kids != [] { assert g[next].kids[0] in g[next].kids; }
    assert PartOf(|g|, {}, next) == {|g|, next};
    DiamondIsSese(h, after, |g|, {}, next, parent, Linear);
  }

  /** Both insertions are made. */
  lemma LineIsJoined(g: Graph, before: nat, curr: nat, next: nat)
    requires Linked(g, before, curr, Some(next)) && |g[curr].parents| == 1
    requires !g[before].kind.Basic? && !g[next].kind.Basic?
    ensures Fits(g, PairPlace(g, before, curr, Some(next)))
    ensures var h := Insert(g, PairPlace(g, before, curr, Some(next)));
            && |h| == |g| + 1 && h[before].parents == g[before].parents && Fits(h, LinePlace(h, before, |g|, next))
            && JoinEdit(g, before, curr, Some(next))
            == Some((Insert(h, LinePlace(h, before, |g|, next)), LineHead(g, before, |g| + 1)))
  {
    PairFits(g, before, curr, Some(next));
    LineFits(g, before, curr, next);
  }

  lemma LineIsTidy(g: Graph, outer: set<nat>, inside: seq<set<nat>>, rank: nat -> int, before: nat, curr: nat,
                   next: nat) returns (ins: seq<set<nat>>, later: nat -> int)
    requires Tidy(g, outer, inside, rank) && InLine(g, outer, before, curr, Some(next))
    requires next < |g| && !g[before].kind.Basic? && !g[next].kind.Basic?
    ensures var r := JoinEdit(g, before, curr, Some(next));
            && r.Some? && |r.value.0| == |g| + 2
            && r.value.0[|g| + 1].kind.Linear? && r.value.0[|g| + 1].body == Between(before, next)
            && Tidy(r.value.0, outer - {before, curr, next} + {|g| + 1}, ins, later)
            && SamePaths(g, r.value.0, outer)
            && forall w :: HasPath(g, before, w) <==> HasPath(r.value.0, r.value.1, w)
  {
    var part := {before, curr};
    LineIsLinked(g, outer, rank, before, curr, Some(next));
    LineIsJoined(g, before, curr, next);
    PairIsTidy(g, outer, inside, rank, before, curr, Some(next));
    var h := Insert(g, PairPlace(g, before, curr, Some(next)));
    var p := LinePlace(h, before, |g|, next);
    LineIsSese(g, outer, h, rank, before, curr, next);
    InsertedAt(h, p);
    later := FurtherIsTidy(g, outer, h, inside, rank, before, curr, next);
    ins := inside + [part] + [{before, curr, next}];
    JoinedPaths(g, outer, inside, rank, h, Insert(h, p), before, curr, next);
  }

  lemma FurtherIsTidy(g: Graph, outer: set<nat>, h: Graph, inside: seq<set<nat>>, rank: nat -> int, before: nat,
                      curr: nat, next: nat) returns (later: nat -> int)
    requires Closed(g, outer) && before in outer && curr in outer && |h| == |g| + 1 && before < |h| && next < |h|
    requires Tidy(h, NewOuter(g, outer, {before, curr}), inside + [{before, curr}], Placing(rank, |g|, before))
    requires Fits(h, LinePlace(h, before, |g|, next)) && Holds(h, {before, curr, next}, next)
    requires Sese(h, NewOuter(g, outer, {before, curr}), {|g|, next}, LinePlace(h, before, |g|, next))
    requires FirstKid(h, next).Some? ==> rank(before) < rank(FirstKid(h, next).value) && FirstKid(h, next).value < |g|
    ensures Tidy(Insert(h, LinePlace(h, before, |g|, next)), outer - {before, curr, next} + {|g| + 1},
                 inside + [{before, curr}] + [{before, curr, next}], later)
  {
    var p, u, order := LinePlace(h, before, |g|, next), NewOuter(g, outer, {before, curr}), Placing(rank, |g|, before);
    NewId(g, outer);
    InsertTidy(h, u, inside + [{before, curr}], order, {|g|, next}, {before, curr, next}, p);
    later := Placing(order, |h|, |g|);
    assert NewOuter(h, u, {|g|, next}) == outer - {before, curr, next} + {|g| + 1};
  }

  lemma RenamedTwice(a: seq<nat>, x: nat, y: nat, z: nat)
    requires y !in a && x != y
    ensures Renamed(Renamed(a, x, y), y, z) == Renamed(a, x, z)
  {}

  /** The two insertions together are one collapse. */
  lemma JoinedPaths(g: Graph, outer: set<nat>, inside: seq<set<nat>>, rank: nat -> int, h: Graph, k: Graph, before: nat,
                    curr: nat, next: nat)
    requires Tidy(g, outer, inside, rank) && InLine(g, outer, before, curr, Some(next)) && !g[before].kind.Basic?
    requires Fits(g, PairPlace(g, before, curr, Some(next))) && h == Insert(g, PairPlace(g, before, curr, Some(next)))
    requires |h| == |g| + 1 && Consistent(h, NewOuter(g, outer, {before, curr})) && next < |h|
    requires Fits(h, LinePlace(h, before, |g|, next)) && k == Insert(h, LinePlace(h, before, |g|, next))
    requires FirstKid(h, next) == FirstKid(g, next) && h[before].parents == g[before].parents
    requires !g[next].kind.Basic?
    ensures SamePaths(g, k, outer)
    ensures forall w :: HasPath(g, before, w) <==> HasPath(k, LineHead(g, before, |h|), w)
  {
    LineInOrder(g, outer, rank, before, curr, Some(next));
    assert g[before].kids == [curr];
    assert g[next].kids == AsList(FirstKid(g, next));
    JoinedLists(g, outer, rank, h, k, before, curr, next);
    LinePaths(g, outer, inside, k, before, curr, next, |h|);
  }

  /** A region in place of a line of three. */
  lemma LinePaths(g: Graph, o: set<nat>, ins: seq<set<nat>>, k: Graph, before: nat, curr: nat, next: nat, made: nat)
    requires Good(g, o, ins) && before in o && curr in o && next in o && |g| <= made < |k|
    requires g[before].kids == [curr] && g[curr].kids == [next] && before != next && curr != next
    requires k[made].body == Between(before, next) && k[made].kids == g[next].kids
    requires forall r | 0 <= r < |g| :: k[r].body == g[r].body && (r !in o ==> k[r].kids == g[r].kids)
    requires forall x | x in o ::
      k[x].kids == g[x].kids || (x != before && x != curr && x != next && k[x].kids == Renamed(g[x].kids, before, made))
    ensures SamePaths(g, k, o) && forall w :: HasPath(g, before, w) <==> HasPath(k, made, w)
  {
    var cut := Cut(ins, o, {before, curr, next}, before, next, made);
    OuterChangesKeep(g, k, o, ins);
    forall x, w | x in o ensures HasPath(g, x, w) <==> HasPath(k, x, w) { CollapseKeepsPaths(g, k, cut, x, w); }
    forall w ensures HasPath(g, before, w) <==> HasPath(k, made, w) { CollapseKeepsPaths(g, k, cut, before, w); }
  }

  lemma JoinedLists(g: Graph, o: set<nat>, rank: nat -> int, h: Graph, k: Graph, before: nat, curr: nat, next: nat)
    requires Consistent(g, o) && Ordered(g, o, rank) && InLine(g, o, before, curr, Some(next))
    requires Fits(g, PairPlace(g, before, curr, Some(next))) && h == Insert(g, PairPlace(g, before, curr, Some(next)))
    requires |h| == |g| + 1 && Consistent(h, NewOuter(g, o, {before, curr})) && next < |h|
    requires Fits(h, LinePlace(h, before, |g|, next)) && k == Insert(h, LinePlace(h, before, |g|, next))
    requires h[before].parents == g[before].parents
    ensures |k| == |h| + 1 && k[|h|].body == Between(before, next) && k[|h|].kids == AsList(FirstKid(h, next))
    ensures forall r | 0 <= r < |g| :: k[r].body == g[r].body && (r !in o ==> k[r].kids == g[r].kids)
    ensures forall x | x in o ::
      || k[x].kids == g[x].kids
      || (x != before && x != curr && x != next && k[x].kids == Renamed(g[x].kids, before, |h|))
  {
    var q, p := PairPlace(g, before, curr, Some(next)), LinePlace(h, before, |g|, next);
    InsertedAt(g, q);
    InsertedAt(h, p);
    LineInOrder(g, o, rank, before, curr, Some(next));
    forall r | 0 <= r < |g|
      ensures k[r].body == g[r].body && (q.before != Some(r) ==> k[r].kids == g[r].kids)
    {
      InsertAt(g, q, r);
      InsertAt(h, p, r);
    }
    if q.before.Some? { ParentRenamed(g, o, rank, h, k, before, curr, next, q.before.value); }
  }

  lemma ParentRenamed(g: Graph, o: set<nat>, rank: nat -> int, h: Graph, k: Graph, before: nat, curr: nat, next: nat,
                      x: nat)
    requires Consistent(g, o) && Ordered(g, o, rank) && InLine(g, o, before, curr, Some(next))
    requires Fits(g, PairPlace(g, before, curr, Some(next))) && h == Insert(g, PairPlace(g, before, curr, Some(next)))
    requires |h| == |g| + 1 && Consistent(h, NewOuter(g, o, {before, curr})) && next < |h|
    requires Fits(h, LinePlace(h, before, |g|, next)) && k == Insert(h, LinePlace(h, before, |g|, next))
    requires h[before].parents == g[before].parents && FirstOf(g[before].parents) == Some(x)
    ensures x in o && x != before && x != curr && x != next && k[x].kids == Renamed(g[x].kids, before, |h|)
  {
    var q, p := PairPlace(g, before, curr, Some(next)), LinePlace(h, before, |g|, next);
    var u := NewOuter(g, o, {before, curr});
    LineInOrder(g, o, rank, before, curr, Some(next));
    assert x in g[before].parents && before in g[x].kids;
    NotYet(g, o, x);
    InsertAt(g, q, x);
    InsertAt(h, p, x);
    ReplacedIsSwapped(g[x].kids, before, |g|);
    assert x in u;
    NotYet(h, u, x);
    ReplacedIsSwapped(h[x].kids, |g|, |h|);
    RenamedTwice(g[x].kids, before, |g|, |h|);
  }

  // ---- both ----

  lemma SwallowKeeps(g: Graph, outer: set<nat>, inside: seq<set<nat>>, rank: nat -> int, before: nat, curr: nat,
                     next: nat) returns (after: set<nat>, ins: seq<set<nat>>, later: nat -> int)
    requires Tidy(g, outer, inside, rank) && InLine(g, outer, before, curr, Some(next)) && g[before].kind.Basic?
    requires next < |g| && OnlyAfter(g, {curr}, next)
    ensures var r := JoinEdit(g, before, curr, Some(next));
            && r.Some? && Tidy(r.value.0, after, ins, later) && SamePaths(g, r.value.0, outer) && r.value.1 == before
            && Joined(g, r.value.0, outer, after, before, curr, Some(next))
  {
    LineInOrder(g, outer, rank, before, curr, Some(next));
    BranchOverLine(g, outer, rank, before, curr, next);
    SealedIsTidy(g, outer, inside, rank, Linear, curr, {}, next, before);
    InsertedAt(g, Whole(g, Linear, curr, next, before));
    after, ins, later := NewOuter(g, outer, {curr, next}), inside + [{curr, next}], Placing(rank, |g|, curr);
    assert outer - {curr, next} == outer - {curr, curr, next};
  }

  lemma PairKeeps(g: Graph, outer: set<nat>, inside: seq<set<nat>>, rank: nat -> int, before: nat, curr: nat,
                  next: Option<nat>) returns (after: set<nat>, ins: seq<set<nat>>, later: nat -> int)
    requires Tidy(g, outer, inside, rank) && InLine(g, outer, before, curr, next) && !g[before].kind.Basic?
    requires next.Some? ==> next.value < |g| && g[next.value].kind.Basic?
    ensures var r := JoinEdit(g, before, curr, next);
            && r.Some? && Tidy(r.value.0, after, ins, later) && SamePaths(g, r.value.0, outer)
            && Joined(g, r.value.0, outer, after, before, curr, next)
            && forall w :: HasPath(g, before, w) <==> HasPath(r.value.0, r.value.1, w)
  {
    var p := PairPlace(g, before, curr, next);
    LineInOrder(g, outer, rank, before, curr, next);
    PairIsTidy(g, outer, inside, rank, before, curr, next);
    InsertedAt(g, p);
    if next.Some? { InsertAt(g, p, next.value); }
    after, ins, later := NewOuter(g, outer, {before, curr}), inside + [{before, curr}], Placing(rank, |g|, before);
    assert outer - {before, curr} == outer - {before, curr, curr};
  }

  /** Joining keeps the graph tidy and all paths, also those of `before`, for which another region may stand. */
  lemma JoinKeeps(g: Graph, outer: set<nat>, inside: seq<set<nat>>, rank: nat -> int, before: nat, curr: nat,
                  next: Option<nat>) returns (after: set<nat>, ins: seq<set<nat>>, later: nat -> int)
    requires Tidy(g, outer, inside, rank) && InLine(g, outer, before, curr, next) && OnlyLine(g, before, curr, next)
    requires next.Some? ==> next.value < |g|
    ensures var r := JoinEdit(g, before, curr, next);
            && r.Some? && Tidy(r.value.0, after, ins, later) && SamePaths(g, r.value.0, outer)
            && Joined(g, r.value.0, outer, after, before, curr, next)
            && forall w :: HasPath(g, before, w) <==> HasPath(r.value.0, r.value.1, w)
  {
    if g[before].kind.Basic? && next.None? {
      after, ins, later := outer, inside, rank;
    } else if g[before].kind.Basic? {
      after, ins, later := SwallowKeeps(g, outer, inside, rank, before, curr, next.value);
    } else if next.Some? && !g[next.value].kind.Basic? {
      LineInOrder(g, outer, rank, before, curr, next);
      ins, later := LineIsTidy(g, outer, inside, rank, before, curr, next.value);
      after := outer - {before, curr, next.value} + {|g| + 1};
    } else {
      after, ins, later := PairKeeps(g, outer, inside, rank, before, curr, next);
    }
  }
}
