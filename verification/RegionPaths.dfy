/** Region graphs, the node paths they stand for, and collapsing a part with one entry and one exit. */
module RegionPaths {
  datatype Kind = Basic | Linear | IfStatement | IfElseStatement

  /** A region holds nodes of its own, nothing, or what lies between two regions. */
  datatype Body = Leaf(nodes: seq<string>) | Nothing | Between(start: nat, end: nat)

  datatype Region = Region(kind: Kind, body: Body, parents: seq<nat>, kids: seq<nat>)

  /** Regions are numbered. */
  type Graph = seq<Region>

  type Path = seq<string>

  // ---- paths ----

  /** Region `r` takes the nodes from `w` down to `rest`; `n` bounds the depth of the derivation. */
  ghost predicate Takes(g: Graph, r: nat, w: Path, rest: Path, n: nat)
    decreases n, 0
  {
    r < |g| &&
    match g[r].body
    case Leaf(x) => w == x + rest
    case Nothing => w == rest
    case Between(s, e) => n > 0 && Walks(g, s, e, w, rest, n - 1)
  }

  /** A walk along children from `s` to the first visit of `e`. */
  ghost predicate Walks(g: Graph, s: nat, e: nat, w: Path, rest: Path, n: nat)
    decreases n, 1
  {
    s < |g| && n > 0 && WalksOn(g, s, e, w, rest, n - 1)
  }

  ghost predicate WalksOn(g: Graph, s: nat, e: nat, w: Path, rest: Path, n: nat)
    requires s < |g|
    decreases n, 3
  {
    exists mid: Path :: Takes(g, s, w, mid, n) && GoesOn(g, s, e, mid, rest, n)
  }

  ghost predicate GoesOn(g: Graph, s: nat, e: nat, mid: Path, rest: Path, n: nat)
    requires s < |g|
    decreases n, 2
  {
    if s == e then mid == rest else exists c: nat :: c in g[s].kids && Walks(g, c, e, mid, rest, n)
  }

  /** A walk along children from `x` to a region without children. */
  ghost predicate Leaves(g: Graph, x: nat, w: Path, n: nat)
    decreases n, 1
  {
    x < |g| && n > 0 && LeavesOn(g, x, w, n - 1)
  }

  ghost predicate LeavesOn(g: Graph, x: nat, w: Path, n: nat)
    requires x < |g|
    decreases n, 3
  {
    exists mid: Path :: Takes(g, x, w, mid, n) && Ends(g, x, mid, n)
  }

  /** What follows region `x`. */
  ghost predicate Ends(g: Graph, x: nat, mid: Path, n: nat)
    requires x < |g|
    decreases n, 2
  {
    if g[x].kids == [] then mid == [] else exists c: nat :: c in g[x].kids && Leaves(g, c, mid, n)
  }

  /** The node paths that start at region `x`. */
  ghost predicate HasPath(g: Graph, x: nat, w: Path) { exists n: nat :: Leaves(g, x, w, n) }

  // ---- a larger bound changes nothing ----

  lemma {:induction false} TakesMore(g: Graph, r: nat, w: Path, rest: Path, n: nat, m: nat)
    requires Takes(g, r, w, rest, n) && n <= m
    ensures Takes(g, r, w, rest, m)
    decreases n, 0
  {
    if g[r].body.Between? { WalksMore(g, g[r].body.start, g[r].body.end, w, rest, n - 1, m - 1); }
  }

  lemma {:induction false} WalksMore(g: Graph, s: nat, e: nat, w: Path, rest: Path, n: nat, m: nat)
    requires Walks(g, s, e, w, rest, n) && n <= m
    ensures Walks(g, s, e, w, rest, m)
    decreases n, 1
  {
    var mid: Path :| Takes(g, s, w, mid, n - 1) && GoesOn(g, s, e, mid, rest, n - 1);
    TakesMore(g, s, w, mid, n - 1, m - 1);
    if s != e {
      var c: nat :| c in g[s].kids && Walks(g, c, e, mid, rest, n - 1);
      WalksMore(g, c, e, mid, rest, n - 1, m - 1);
    }
    assert GoesOn(g, s, e, mid, rest, m - 1);
  }

  lemma {:induction false} LeavesMore(g: Graph, x: nat, w: Path, n: nat, m: nat)
    requires Leaves(g, x, w, n) && n <= m
    ensures Leaves(g, x, w, m)
    decreases n, 1
  {
    var mid: Path :| Takes(g, x, w, mid, n - 1) && Ends(g, x, mid, n - 1);
    TakesMore(g, x, w, mid, n - 1, m - 1);
    EndsMore(g, x, mid, n - 1, m - 1);
  }

  lemma {:induction false} EndsMore(g: Graph, x: nat, mid: Path, n: nat, m: nat)
    requires x < |g| && Ends(g, x, mid, n) && n <= m
    ensures Ends(g, x, mid, m)
    decreases n, 2
  {
    if g[x].kids == [] {
    } else {
      var c: nat :| c in g[x].kids && Leaves(g, c, mid, n);
      LeavesMore(g, c, mid, n, m);
    }
  }

  // ---- the insides of regions ----

  /** The regions a walk from `i` to `e` may visit are all in `s`. */
  predicate Holds(g: Graph, s: set<nat>, e: nat) {
    forall i | i in s :: i < |g| && (i != e ==> forall c | c in g[i].kids :: c in s)
  }

  /** `inside[r]` holds what lies between the ends of region `r`. */
  predicate Shut(g: Graph, inside: seq<set<nat>>) {
    |inside| == |g| && forall r | 0 <= r < |g| :: ShutAt(g, r, inside[r])
  }

  predicate ShutAt(g: Graph, r: nat, s: set<nat>)
    requires r < |g|
  {
    && (forall i | i in s :: i < |g|)
    && (g[r].body.Between? ==> g[r].body.start in s && Holds(g, s, g[r].body.end))
  }

  /** `h` extends `g`, with the same bodies, and the same children inside every region of `g`. */
  predicate Keeps(g: Graph, h: Graph, inside: seq<set<nat>>)
    requires Shut(g, inside)
  {
    && |g| <= |h|
    && (forall r | 0 <= r < |g| :: h[r].body == g[r].body)
    && (forall r | 0 <= r < |g| :: KeepsAt(g, h, r, inside[r]))
  }

  predicate KeepsAt(g: Graph, h: Graph, r: nat, s: set<nat>)
    requires r < |g| <= |h| && ShutAt(g, r, s)
  {
    g[r].body.Between? ==> forall i | i in s && i != g[r].body.end :: h[i].kids == g[i].kids
  }

  lemma {:induction false} TakesKept(g: Graph, h: Graph, inside: seq<set<nat>>, r: nat, w: Path, rest: Path, n: nat)
    requires Shut(g, inside) && Keeps(g, h, inside) && r < |g|
    ensures Takes(g, r, w, rest, n) <==> Takes(h, r, w, rest, n)
    decreases n, 0
  {
    if g[r].body.Between? && n > 0 { WalksKept(g, h, inside, r, g[r].body.start, w, rest, n - 1); }
  }

  lemma {:induction false} WalksKept(g: Graph, h: Graph, inside: seq<set<nat>>, r: nat, i: nat, w: Path, rest: Path,
                                     n: nat)
    requires Shut(g, inside) && Keeps(g, h, inside) && r < |g| && g[r].body.Between? && i in inside[r]
    ensures Walks(g, i, g[r].body.end, w, rest, n) <==> Walks(h, i, g[r].body.end, w, rest, n)
    decreases n, 1
  {
    if n == 0 {
    } else {
      var e := g[r].body.end;
      var m := n - 1;
      assert ShutAt(g, r, inside[r]) && KeepsAt(g, h, r, inside[r]);
      forall mid: Path
        ensures Takes(g, i, w, mid, m) <==> Takes(h, i, w, mid, m)
        ensures GoesOn(g, i, e, mid, rest, m) <==> GoesOn(h, i, e, mid, rest, m)
      {
        TakesKept(g, h, inside, i, w, mid, m);
        if i != e {
          assert h[i].kids == g[i].kids;
          forall c: nat | c in g[i].kids ensures Walks(g, c, e, mid, rest, m) <==> Walks(h, c, e, mid, rest, m) {
            WalksKept(g, h, inside, r, c, mid, rest, m);
          }
        }
      }
      assert WalksOn(g, i, e, w, rest, m) <==> WalksOn(h, i, e, w, rest, m);
    }
  }

  // ---- collapsing a part with one exit ----

  /** The outer regions are closed under children, and a walk in `part` leaves it only from `e`. */
  predicate SingleExit(g: Graph, outer: set<nat>, part: set<nat>, s: nat, e: nat) {
    && part <= outer && s in part && e in part
    && (forall x | x in outer :: x < |g| && forall c | c in g[x].kids :: c in outer)
    && (forall i | i in part && i != e :: g[i].kids != [] && forall c | c in g[i].kids :: c in part)
  }

  /** `h` is `g` with a new region for the part, which some regions outside have as a child instead of `s`. */
  predicate Collapsed(g: Graph, h: Graph, outer: set<nat>, part: set<nat>, s: nat, e: nat, made: nat)
    requires SingleExit(g, outer, part, s, e)
  {
    && |g| <= made < |h|
    && h[made].body == Between(s, e) && h[made].kids == g[e].kids
    && (forall x | x in outer :: h[x].kids == g[x].kids || (x !in part && h[x].kids == Renamed(g[x].kids, s, made)))
  }

  function Renamed(kids: seq<nat>, from: nat, to: nat): (r: seq<nat>)
    ensures |r| == |kids| && forall k | 0 <= k < |r| :: r[k] == if kids[k] == from then to else kids[k]
  {
    seq(|kids|, k requires 0 <= k < |kids| => if kids[k] == from then to else kids[k])
  }

  lemma RenamedMembers(kids: seq<nat>, from: nat, to: nat, c: nat)
    requires to !in kids && from != to
    ensures c in Renamed(kids, from, to) <==> (c in kids && c != from) || (c == to && from in kids)
  {
    var r := Renamed(kids, from, to);
    if c in kids && c != from { var k :| 0 <= k < |kids| && kids[k] == c; assert r[k] == c; }
    if c == to && from in kids { var k :| 0 <= k < |kids| && kids[k] == from; assert r[k] == c; }
  }

  /** A walk out of the part is a walk to its exit, and then what follows the exit. */
  lemma {:induction false} LeavesThroughExit(g: Graph, outer: set<nat>, part: set<nat>, s: nat, e: nat, i: nat, w: Path,
                                             n: nat)
      returns (mid: Path)
    requires SingleExit(g, outer, part, s, e) && i in part && Leaves(g, i, w, n)
    ensures n > 0 && Walks(g, i, e, w, mid, n) && Ends(g, e, mid, n - 1)
    decreases n
  {
    mid :| Takes(g, i, w, mid, n - 1) && Ends(g, i, mid, n - 1);
    if i != e {
      var c: nat :| c in g[i].kids && Leaves(g, c, mid, n - 1);
      var first := mid;
      mid := LeavesThroughExit(g, outer, part, s, e, c, first, n - 1);
      EndsMore(g, e, mid, n - 2, n - 1);
      assert GoesOn(g, i, e, first, mid, n - 1);
    }
  }

  /** And the other way round. */
  lemma {:induction false} WalkThenLeaves(g: Graph, i: nat, e: nat, w: Path, mid: Path, n: nat, m: nat)
    requires e < |g| && Walks(g, i, e, w, mid, n) && Ends(g, e, mid, m)
    ensures Leaves(g, i, w, n + m)
    decreases n
  {
    var first: Path :| Takes(g, i, w, first, n - 1) && GoesOn(g, i, e, first, mid, n - 1);
    TakesMore(g, i, w, first, n - 1, n + m - 1);
    if i == e {
      EndsMore(g, e, mid, m, n + m - 1);
    } else {
      var c: nat :| c in g[i].kids && Walks(g, c, e, first, mid, n - 1);
      WalkThenLeaves(g, c, e, first, mid, n - 1, m);
    }
    assert Ends(g, i, first, n + m - 1);
  }

  /** One collapse: the insides of the regions so far, the outer regions, the part with its entry
      and exit, and the region made for it. */
  datatype Cut = Cut(inside: seq<set<nat>>, outer: set<nat>, part: set<nat>, s: nat, e: nat, made: nat)

  predicate Collapse(g: Graph, h: Graph, cut: Cut) {
    && Shut(g, cut.inside) && Keeps(g, h, cut.inside)
    && SingleExit(g, cut.outer, cut.part, cut.s, cut.e) && Collapsed(g, h, cut.outer, cut.part, cut.s, cut.e, cut.made)
  }

  lemma {:induction false} PartWalksKept(g: Graph, h: Graph, cut: Cut,
                                         i: nat, w: Path, rest: Path, n: nat)
    requires Collapse(g, h, cut) && i in cut.part
    ensures Walks(g, i, cut.e, w, rest, n) <==> Walks(h, i, cut.e, w, rest, n)
    decreases n
  {
    if n == 0 {
    } else {
      var m := n - 1;
      forall mid: Path
        ensures Takes(g, i, w, mid, m) <==> Takes(h, i, w, mid, m)
        ensures GoesOn(g, i, cut.e, mid, rest, m) <==> GoesOn(h, i, cut.e, mid, rest, m)
      {
        TakesKept(g, h, cut.inside, i, w, mid, m);
        if i != cut.e {
          assert h[i].kids == g[i].kids;
          forall c: nat | c in g[i].kids
            ensures Walks(g, c, cut.e, mid, rest, m) <==> Walks(h, c, cut.e, mid, rest, m)
          {
            PartWalksKept(g, h, cut, c, mid, rest, m);
          }
        }
      }
      assert WalksOn(g, i, cut.e, w, rest, m) <==> WalksOn(h, i, cut.e, w, rest, m);
    }
  }

  lemma {:induction false} PathsStay(g: Graph, h: Graph, cut: Cut,
                                     x: nat, w: Path, n: nat) returns (k: nat)
    requires Collapse(g, h, cut) && x in cut.outer && Leaves(g, x, w, n)
    ensures Leaves(h, x, w, k)
    decreases n, 1
  {
    var mid: Path :| Takes(g, x, w, mid, n - 1) && Ends(g, x, mid, n - 1);
    TakesKept(g, h, cut.inside, x, w, mid, n - 1);
    var j: nat := 0;
    if g[x].kids != [] {
      var c: nat :| c in g[x].kids && Leaves(g, c, mid, n - 1);
      RenamedMembers(g[x].kids, cut.s, cut.made, c);
      RenamedMembers(g[x].kids, cut.s, cut.made, cut.made);
      if c in h[x].kids {
        j := PathsStay(g, h, cut, c, mid, n - 1);
      } else {
        j := PartStays(g, h, cut, mid, n - 1);
        assert cut.made in h[x].kids;
      }
    }
    k := n + j;
    TakesMore(h, x, w, mid, n - 1, k - 1);
    EndsMore(h, x, mid, j, k - 1);
  }

  lemma {:induction false} PartStays(g: Graph, h: Graph, cut: Cut,
                                     w: Path, n: nat) returns (k: nat)
    requires Collapse(g, h, cut) && Leaves(g, cut.s, w, n)
    ensures Leaves(h, cut.made, w, k)
    decreases n, 0
  {
    var mid := LeavesThroughExit(g, cut.outer, cut.part, cut.s, cut.e, cut.s, w, n);
    PartWalksKept(g, h, cut, cut.s, w, mid, n);
    assert Takes(h, cut.made, w, mid, n + 1);
    var j: nat := 0;
    if g[cut.e].kids != [] {
      var c: nat :| c in g[cut.e].kids && Leaves(g, c, mid, n - 1);
      j := PathsStay(g, h, cut, c, mid, n - 1);
    }
    k := n + j + 2;
    TakesMore(h, cut.made, w, mid, n + 1, k - 1);
    EndsMore(h, cut.made, mid, j, k - 1);
  }

  lemma {:induction false} PathsReturn(g: Graph, h: Graph, cut: Cut,
                                       x: nat, w: Path, n: nat) returns (k: nat)
    requires Collapse(g, h, cut) && x in cut.outer && Leaves(h, x, w, n)
    ensures Leaves(g, x, w, k)
    decreases n, 1
  {
    var mid: Path :| Takes(h, x, w, mid, n - 1) && Ends(h, x, mid, n - 1);
    TakesKept(g, h, cut.inside, x, w, mid, n - 1);
    var j: nat := 0;
    if h[x].kids != [] {
      var c: nat :| c in h[x].kids && Leaves(h, c, mid, n - 1);
      RenamedMembers(g[x].kids, cut.s, cut.made, c);
      if c in g[x].kids {
        j := PathsReturn(g, h, cut, c, mid, n - 1);
      } else {
        j := PartReturns(g, h, cut, mid, n - 1);
        assert cut.s in g[x].kids;
      }
    }
    k := n + j;
    TakesMore(g, x, w, mid, n - 1, k - 1);
    EndsMore(g, x, mid, j, k - 1);
  }

  lemma {:induction false} PartReturns(g: Graph, h: Graph, cut: Cut,
                                       w: Path, n: nat) returns (k: nat)
    requires Collapse(g, h, cut) && Leaves(h, cut.made, w, n)
    ensures Leaves(g, cut.s, w, k)
    decreases n, 0
  {
    var mid: Path :| Takes(h, cut.made, w, mid, n - 1) && Ends(h, cut.made, mid, n - 1);
    PartWalksKept(g, h, cut, cut.s, w, mid, n - 2);
    var j: nat := 0;
    if g[cut.e].kids != [] {
      var c: nat :| c in h[cut.made].kids && Leaves(h, c, mid, n - 1);
      j := PathsReturn(g, h, cut, c, mid, n - 1);
    }
    k := n - 2 + j;
    WalkThenLeaves(g, cut.s, cut.e, w, mid, n - 2, j);
  }

  /** Collapsing a part with one exit keeps the node paths from every outer region, and the new
      region has the paths of the entry. */
  lemma CollapseKeepsPaths(g: Graph, h: Graph, cut: Cut, x: nat, w: Path)
    requires Collapse(g, h, cut) && x in cut.outer
    ensures HasPath(g, x, w) <==> HasPath(h, x, w)
    ensures HasPath(g, cut.s, w) <==> HasPath(h, cut.made, w)
  {
    if n: nat :| Leaves(g, x, w, n) { var k := PathsStay(g, h, cut, x, w, n); }
    if n: nat :| Leaves(h, x, w, n) { var k := PathsReturn(g, h, cut, x, w, n); }
    if n: nat :| Leaves(g, cut.s, w, n) { var k := PartStays(g, h, cut, w, n); }
    if n: nat :| Leaves(h, cut.made, w, n) { var k := PartReturns(g, h, cut, w, n); }
  }

  // ---- a region that contributes nothing, put on some edges to `j` ----

  predicate Subdivided(g: Graph, h: Graph, inside: seq<set<nat>>, outer: set<nat>, on: set<nat>, j: nat) {
    && Shut(g, inside) && Keeps(g, h, inside)
    && (forall x | x in outer :: x < |g| && forall c | c in g[x].kids :: c in outer)
    && on <= outer && j in outer
    && |h| == |g| + 1 && h[|g|].body == Nothing && h[|g|].kids == [j]
    && (forall x | x in outer && x !in on :: h[x].kids == g[x].kids)
    && (forall x | x in on :: j in g[x].kids && SwapsKid(g[x].kids, h[x].kids, j, |g|))
  }

  /** `b` has the members of `a`, with `to` instead of `from`. */
  predicate SwapsKid(a: seq<nat>, b: seq<nat>, from: nat, to: nat) {
    && to in b && from !in b
    && (forall c | c in a && c != from :: c in b)
    && (forall c | c in b && c != to :: c in a)
  }

  lemma {:induction false} PathsSubdivide(g: Graph, h: Graph, inside: seq<set<nat>>, outer: set<nat>, on: set<nat>,
                                          j: nat, x: nat, w: Path, n: nat) returns (k: nat)
    requires Subdivided(g, h, inside, outer, on, j) && x in outer && Leaves(g, x, w, n)
    ensures Leaves(h, x, w, k)
    decreases n
  {
    var mid: Path :| Takes(g, x, w, mid, n - 1) && Ends(g, x, mid, n - 1);
    TakesKept(g, h, inside, x, w, mid, n - 1);
    var i: nat := 0;
    if g[x].kids != [] {
      var c: nat :| c in g[x].kids && Leaves(g, c, mid, n - 1);
      i := PathsSubdivide(g, h, inside, outer, on, j, c, mid, n - 1);
      if c !in h[x].kids {
        assert Takes(h, |g|, mid, mid, i) && Ends(h, |g|, mid, i);
        i := i + 1;
        assert Leaves(h, |g|, mid, i);
      }
    }
    k := n + i;
    TakesMore(h, x, w, mid, n - 1, k - 1);
    EndsMore(h, x, mid, i, k - 1);
  }

  lemma NothingIsPassed(h: Graph, r: nat, j: nat, w: Path, n: nat)
    requires r < |h| && h[r].body == Nothing && h[r].kids == [j] && Leaves(h, r, w, n)
    ensures n > 0 && Leaves(h, j, w, n - 1)
  {
    var mid: Path :| Takes(h, r, w, mid, n - 1) && Ends(h, r, mid, n - 1);
  }

  lemma {:induction false} PathsUnite(g: Graph, h: Graph, inside: seq<set<nat>>, outer: set<nat>, on: set<nat>, j: nat,
                                      x: nat, w: Path, n: nat) returns (k: nat)
    requires Subdivided(g, h, inside, outer, on, j) && x in outer && Leaves(h, x, w, n)
    ensures Leaves(g, x, w, k)
    decreases n
  {
    var mid: Path :| Takes(h, x, w, mid, n - 1) && Ends(h, x, mid, n - 1);
    TakesKept(g, h, inside, x, w, mid, n - 1);
    var i: nat := 0;
    if h[x].kids != [] {
      var c: nat :| c in h[x].kids && Leaves(h, c, mid, n - 1);
      if c == |g| {
        NothingIsPassed(h, c, j, mid, n - 1);
        i := PathsUnite(g, h, inside, outer, on, j, j, mid, n - 2);
        assert j in g[x].kids;
      } else {
        i := PathsUnite(g, h, inside, outer, on, j, c, mid, n - 1);
      }
    }
    k := n + i;
    TakesMore(g, x, w, mid, n - 1, k - 1);
    EndsMore(g, x, mid, i, k - 1);
  }

  /** A region that contributes nothing changes no node path. */
  lemma SubdividingKeepsPaths(g: Graph, h: Graph, inside: seq<set<nat>>, outer: set<nat>, on: set<nat>, j: nat, x: nat,
                              w: Path)
    requires Subdivided(g, h, inside, outer, on, j) && x in outer
    ensures HasPath(g, x, w) <==> HasPath(h, x, w)
  {
    if n: nat :| Leaves(g, x, w, n) { var k := PathsSubdivide(g, h, inside, outer, on, j, x, w, n); }
    if n: nat :| Leaves(h, x, w, n) { var k := PathsUnite(g, h, inside, outer, on, j, x, w, n); }
  }
}
