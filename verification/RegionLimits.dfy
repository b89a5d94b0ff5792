/** Region graphs on which collapsing an if breaks the lists or loses paths. */
module RegionLimits {
  import opened Options
  import opened RegionPaths
  import opened RegionLists
  import opened RegionEdits
  import opened RegionShapes
  import opened RegionBranches
  import opened RegionMade
  import opened RegionPasses

  /** A graph whose regions hold nodes of their own, given by its edges, all of which lead forward. */
  ghost predicate DrawnBy(g: Graph, edges: set<(nat, nat)>) {
    && (forall e | e in edges :: e.0 < e.1 < |g|)
    && forall x | 0 <= x < |g| :: Drawn(g[x], x, edges)
  }

  ghost predicate Drawn(r: Region, x: nat, edges: set<(nat, nat)>) {
    && r.body.Leaf? && NoRepeats(r.kids) && NoRepeats(r.parents)
    && (forall c :: c in r.kids <==> (x, c) in edges) && (forall q :: q in r.parents <==> (q, x) in edges)
    && (!r.kind.Basic? ==> |r.kids| <= 1 && |r.parents| <= 1)
  }

  lemma DrawnIsTidy(g: Graph, edges: set<(nat, nat)>, outer: set<nat>) returns (inside: seq<set<nat>>, rank: nat -> int)
    requires DrawnBy(g, edges) && forall x: nat :: x in outer <==> x < |g|
    ensures Tidy(g, outer, inside, rank)
  {
    var empty: set<nat> := {};
    inside, rank := seq(|g|, _ => empty), (x: nat) => x;
    forall x | x in outer
      ensures (forall c | c in g[x].kids :: (x, c) in edges && x < c < |g|)
      ensures (forall q | q in g[x].parents :: (q, x) in edges && q < x)
      ensures NoRepeats(g[x].kids) && NoRepeats(g[x].parents)
    {
      assert Drawn(g[x], x, edges);
    }
    forall x, y | x in outer && y in outer ensures y in g[x].kids <==> x in g[y].parents {
      assert Drawn(g[x], x, edges) && Drawn(g[y], y, edges);
    }
    forall r | 0 <= r < |g| ensures ShutAt(g, r, inside[r]) { assert Drawn(g[r], r, edges); }
    forall x | x in outer ensures !g[x].kind.Basic? ==> |g[x].kids| <= 1 && |g[x].parents| <= 1 {
      assert Drawn(g[x], x, edges);
    }
  }

  // ---- a join shared with an outer branch ----

  /** An if below the branch 0, whose join is also the join of 0. */
  function SharedJoin(): Graph {
    [ Region(Basic, Leaf(["0"]), [], [1, 3]),
      Region(Basic, Leaf(["1"]), [0], [2, 3]),
      Region(Linear, Leaf(["2"]), [1], [3]),
      Region(Basic, Leaf(["3"]), [0, 1, 2], [4]),
      Region(Linear, Leaf(["4"]), [3], []) ]
  }

  function SharedJoinEdges(): set<(nat, nat)> { {(0, 1), (0, 3), (1, 2), (1, 3), (2, 3), (3, 4)} }

  lemma SharedJoinIsDrawn()
    ensures DrawnBy(SharedJoin(), SharedJoinEdges())
  {
    forall x | 0 <= x < 5 ensures Drawn(SharedJoin()[x], x, SharedJoinEdges()) { SharedJoinRow(x); }
  }

  lemma SharedJoinRow(x: nat)
    requires x < 5
    ensures Drawn(SharedJoin()[x], x, SharedJoinEdges())
  {}

  lemma SharedJoinIsOpen()
    ensures CheckIf(SharedJoin(), 1) && Closed(SharedJoin(), {0, 1, 2, 3, 4})
    ensures IfShape(SharedJoin(), {0, 1, 2, 3, 4}, 1, 2, 3) && HasParent(SharedJoin(), 1)
    ensures Following(SharedJoin(), 3) == Some(3) && Before(SharedJoin(), 1) == 0
    ensures !Clear(SharedJoin(), 1, 3)
    ensures {0, 1, 2, 3, 4} - PartOf(1, {2}, 3) - Joining(SharedJoin(), 0, Some(3)) <= {0, 4}
  {}

  /** The if is given a join of its own, is collapsed, and swallows the shared one, although 0 leads there too. Then the
      lists do not agree, whichever regions count besides 0 and 4. */
  lemma SharedJoinBreaks() returns (inside: seq<set<nat>>, rank: nat -> int)
    ensures CheckIf(SharedJoin(), 1) && Tidy(SharedJoin(), {0, 1, 2, 3, 4}, inside, rank)
    ensures IfEdit(SharedJoin(), 1).Some?
    ensures forall after | {0, 4} <= after :: !Agree(IfEdit(SharedJoin(), 1).value.0, after)
  {
    var g, outer := SharedJoin(), {0, 1, 2, 3, 4};
    SharedJoinIsDrawn();
    inside, rank := DrawnIsTidy(g, SharedJoinEdges(), outer);
    SharedJoinIsOpen();
    IfBreaks(g, outer, inside, rank, 1, 2, 3, {0, 4});
  }

  // ---- a condition that several regions lead to ----

  /** The if of 0 and its arm 1 is followed by the condition 2 itself. */
  function SharedCondition(): Graph {
    [ Region(Basic, Leaf(["0"]), [], [1, 2]),
      Region(Linear, Leaf(["1"]), [0], [2]),
      Region(Basic, Leaf(["2"]), [0, 1], [3, 4]),
      Region(Linear, Leaf(["3"]), [2], [4]),
      Region(Basic, Leaf(["4"]), [2, 3], []) ]
  }

  function SharedConditionEdges(): set<(nat, nat)> { {(0, 1), (0, 2), (1, 2), (2, 3), (2, 4), (3, 4)} }

  lemma SharedConditionIsDrawn()
    ensures DrawnBy(SharedCondition(), SharedConditionEdges())
  {
    forall x | 0 <= x < 5 ensures Drawn(SharedCondition()[x], x, SharedConditionEdges()) { SharedConditionRow(x); }
  }

  lemma SharedConditionRow(x: nat)
    requires x < 5
    ensures Drawn(SharedCondition()[x], x, SharedConditionEdges())
  {}

  lemma SharedConditionIsOpen()
    ensures CheckIf(SharedCondition(), 2) && Closed(SharedCondition(), {0, 1, 2, 3, 4})
    ensures IfShape(SharedCondition(), {0, 1, 2, 3, 4}, 2, 3, 4) && HasParent(SharedCondition(), 2)
    ensures Following(SharedCondition(), 4) == None && Before(SharedCondition(), 2) == 0
    ensures !Clear(SharedCondition(), 2, 4)
    ensures {0, 1, 2, 3, 4} - PartOf(2, {3}, 4) - Joining(SharedCondition(), 0, None) <= {0, 1}
  {}

  /** Only 0 is led to the collapsed if; 1 goes on leading to the condition inside. */
  lemma SharedConditionBreaks() returns (inside: seq<set<nat>>, rank: nat -> int)
    ensures CheckIf(SharedCondition(), 2) && Tidy(SharedCondition(), {0, 1, 2, 3, 4}, inside, rank)
    ensures IfEdit(SharedCondition(), 2).Some?
    ensures forall after | {0, 1} <= after :: !Agree(IfEdit(SharedCondition(), 2).value.0, after)
  {
    var g, outer := SharedCondition(), {0, 1, 2, 3, 4};
    SharedConditionIsDrawn();
    inside, rank := DrawnIsTidy(g, SharedConditionEdges(), outer);
    SharedConditionIsOpen();
    IfBreaks(g, outer, inside, rank, 2, 3, 4, {0, 1});
  }

  // ---- a branch that is swallowed ----

  /** Below the branch 0 an if is followed by the branch 4. */
  function BranchBelow(): Graph {
    [ Region(Basic, Leaf(["0"]), [], [1, 5]),
      Region(Basic, Leaf(["1"]), [0], [2, 3]),
      Region(Linear, Leaf(["2"]), [1], [3]),
      Region(Basic, Leaf(["3"]), [1, 2], [4]),
      Region(Basic, Leaf(["4"]), [3], [5, 6]),
      Region(Basic, Leaf(["5"]), [0, 4], []),
      Region(Linear, Leaf(["6"]), [4], []) ]
  }

  function BranchBelowEdges(): set<(nat, nat)> { {(0, 1), (0, 5), (1, 2), (1, 3), (2, 3), (3, 4), (4, 5), (4, 6)} }

  lemma BranchBelowIsDrawn()
    ensures DrawnBy(BranchBelow(), BranchBelowEdges())
  {
    forall x | 0 <= x < 7 ensures Drawn(BranchBelow()[x], x, BranchBelowEdges()) { BranchBelowRow(x); }
  }

  lemma BranchBelowRow(x: nat)
    requires x < 7
    ensures Drawn(BranchBelow()[x], x, BranchBelowEdges())
  {
    if x < 4 { UpperRow(x); } else { LowerRow(x); }
  }

  lemma UpperRow(x: nat)
    requires x < 4
    ensures Drawn(BranchBelow()[x], x, BranchBelowEdges())
  {}

  lemma LowerRow(x: nat)
    requires 4 <= x < 7
    ensures Drawn(BranchBelow()[x], x, BranchBelowEdges())
  {}

  lemma Pair(x: nat, y: nat, z: nat)
    requires x != y
    ensures ReplaceFirst([x, y], x, z) == [z, y] && ReplaceFirst([x, y], y, z) == [x, z]
    ensures ReplaceFirst([x], x, z) == [z]
  {
    assert [x, y][0] == x && [x, y][1] == y && [x, y][1..] == [y];
  }

  /** The if becomes region 7, */
  lemma IfIsCollapsed()
    ensures CheckIf(BranchBelow(), 1) && Fits(BranchBelow(), Whole(BranchBelow(), IfStatement, 1, 3, 0))
    ensures IfEdit(BranchBelow(), 1) == CloseEdit(BranchBelow(), IfStatement, 1, 3, 0)
    ensures FirstKid(BranchBelow(), 3) == Some(4)
    ensures var k := Insert(BranchBelow(), Whole(BranchBelow(), IfStatement, 1, 3, 0));
            && |k| == 8 && k[0].kind.Basic? && k[0].body == Leaf(["0"]) && k[0].kids == [7, 5]
            && k[4].kids == [5, 6] && k[5] == Region(Basic, Leaf(["5"]), [0, 4], []) && k[7].parents == [0]
  {
    var g := BranchBelow();
    var p := Whole(g, IfStatement, 1, 3, 0);
    Pair(1, 5, 7);
    Pair(3, 4, 7);
    InsertedAt(g, p);
    InsertAt(g, p, 0);
    InsertAt(g, p, 4);
    InsertAt(g, p, 5);
  }

  /** and 7 and the branch become region 8, which leads to 5 only. */
  lemma BranchIsSwallowed()
    ensures CheckIf(BranchBelow(), 1) && IfEdit(BranchBelow(), 1).Some?
    ensures EndsInFive(IfEdit(BranchBelow(), 1).value.0)
  {
    IfIsCollapsed();
    var k := Insert(BranchBelow(), Whole(BranchBelow(), IfStatement, 1, 3, 0));
    var q := Whole(k, Linear, 7, 4, 0);
    Pair(7, 5, 8);
    Pair(0, 4, 8);
    InsertedAt(k, q);
    InsertAt(k, q, 0);
    InsertAt(k, q, 5);
  }

  predicate EndsInFive(h: Graph) {
    |h| == 9 && h[0].kids == [8, 5] && h[8].kids == [5] && h[5].body == Leaf(["5"]) && h[5].kids == []
  }

  /** The branch keeps its first child only: the path through the second is lost. */
  lemma SecondChildIsLost() returns (inside: seq<set<nat>>, rank: nat -> int)
    ensures CheckIf(BranchBelow(), 1) && Tidy(BranchBelow(), {0, 1, 2, 3, 4, 5, 6}, inside, rank)
    ensures IfEdit(BranchBelow(), 1).Some?
    ensures HasPath(BranchBelow(), 0, ["0", "1", "3", "4", "6"])
    ensures !HasPath(IfEdit(BranchBelow(), 1).value.0, 0, ["0", "1", "3", "4", "6"])
  {
    BranchBelowIsDrawn();
    inside, rank := DrawnIsTidy(BranchBelow(), BranchBelowEdges(), {0, 1, 2, 3, 4, 5, 6});
    FiveSteps(BranchBelow());
    BranchIsSwallowed();
    var h, w := IfEdit(BranchBelow(), 1).value.0, ["0", "1", "3", "4", "6"];
    if n: nat :| Leaves(h, 0, w, n) { EndsWithFive(h, w, n); }
  }

  lemma OneMore(g: Graph, x: nat, c: nat, node: string, w: Path, n: nat)
    requires x < |g| && g[x].body == Leaf([node]) && c in g[x].kids && Leaves(g, c, w, n)
    ensures Leaves(g, x, [node] + w, n + 1)
  {
    assert Takes(g, x, [node] + w, w, n) && Ends(g, x, w, n);
  }

  lemma FiveSteps(g: Graph)
    requires |g| == 7 && g[6].body == Leaf(["6"]) && g[6].kids == [] && g[4].body == Leaf(["4"]) && 6 in g[4].kids
    requires g[3].body == Leaf(["3"]) && 4 in g[3].kids && g[1].body == Leaf(["1"]) && 3 in g[1].kids
    requires g[0].body == Leaf(["0"]) && 1 in g[0].kids
    ensures HasPath(g, 0, ["0", "1", "3", "4", "6"])
  {
    assert ["6"] == ["6"] + [] && Takes(g, 6, ["6"], [], 0) && Ends(g, 6, [], 0);
    assert Leaves(g, 6, ["6"], 1);
    OneMore(g, 4, 6, "4", ["6"], 1);
    OneMore(g, 3, 4, "3", ["4"] + ["6"], 2);
    OneMore(g, 1, 3, "1", ["3"] + (["4"] + ["6"]), 3);
    OneMore(g, 0, 1, "0", ["1"] + (["3"] + (["4"] + ["6"])), 4);
    assert ["0"] + (["1"] + (["3"] + (["4"] + ["6"]))) == ["0", "1", "3", "4", "6"];
  }

  /** What a region takes, it takes from the front. */
  lemma {:induction false} TakesFront(g: Graph, r: nat, w: Path, rest: Path, n: nat)
    requires Takes(g, r, w, rest, n)
    ensures exists front: Path :: w == front + rest
    decreases n, 0
  {
    match g[r].body
    case Leaf(x) => assert w == x + rest;
    case Nothing => assert w == [] + rest;
    case Between(s, e) => WalksFront(g, s, e, w, rest, n - 1);
  }

  lemma {:induction false} WalksFront(g: Graph, s: nat, e: nat, w: Path, rest: Path, n: nat)
    requires Walks(g, s, e, w, rest, n)
    ensures exists front: Path :: w == front + rest
    decreases n, 1
  {
    var mid: Path :| Takes(g, s, w, mid, n - 1) && GoesOn(g, s, e, mid, rest, n - 1);
    TakesFront(g, s, w, mid, n - 1);
    if s != e {
      var c: nat :| c in g[s].kids && Walks(g, c, e, mid, rest, n - 1);
      WalksFront(g, c, e, mid, rest, n - 1);
      var a: Path :| w == a + mid;
      var b: Path :| mid == b + rest;
      assert w == (a + b) + rest;
    }
  }

  predicate LastIsFive(w: Path) { w != [] && w[|w| - 1] == "5" }

  lemma FrontKeepsLast(w: Path, mid: Path)
    requires (exists front: Path :: w == front + mid) && LastIsFive(mid)
    ensures LastIsFive(w)
  {}

  lemma FiveIsLast(h: Graph, w: Path, n: nat)
    requires |h| > 5 && h[5].body == Leaf(["5"]) && h[5].kids == [] && Leaves(h, 5, w, n)
    ensures LastIsFive(w)
  {
    var mid: Path :| Takes(h, 5, w, mid, n - 1) && Ends(h, 5, mid, n - 1);
    assert w == ["5"] + mid && mid == [];
  }

  /** Where every child of a region ends in 5, so does the region. */
  lemma EndsLikeKids(h: Graph, x: nat, w: Path, n: nat)
    requires Leaves(h, x, w, n) && h[x].kids != []
    requires forall c: nat, v: Path | c in h[x].kids && Leaves(h, c, v, n - 1) :: LastIsFive(v)
    ensures LastIsFive(w)
  {
    var mid: Path :| Takes(h, x, w, mid, n - 1) && Ends(h, x, mid, n - 1);
    var c: nat :| c in h[x].kids && Leaves(h, c, mid, n - 1);
    TakesFront(h, x, w, mid, n - 1);
    FrontKeepsLast(w, mid);
  }

  lemma EndsWithFive(h: Graph, w: Path, n: nat)
    requires EndsInFive(h) && Leaves(h, 0, w, n)
    ensures LastIsFive(w)
  {
    forall c: nat, v: Path | c in h[0].kids && Leaves(h, c, v, n - 1) ensures LastIsFive(v) {
      if c == 5 {
        FiveIsLast(h, v, n - 1);
      } else {
        forall u: Path | Leaves(h, 5, u, n - 2) ensures LastIsFive(u) { FiveIsLast(h, u, n - 2); }
        EndsLikeKids(h, 8, v, n - 1);
      }
    }
    EndsLikeKids(h, 0, w, n);
  }
}
