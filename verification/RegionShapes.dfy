/** What holds of the graphs that the collapsing passes work on, and the parts they find. */
module RegionShapes {
  import opened Options
  import opened RegionPaths
  import opened RegionLists
  import opened RegionEdits

  // ---- what every pass keeps ----

  /** Children come later: nothing leads back. */
  ghost predicate Ordered(g: Graph, outer: set<nat>, rank: nat -> int)
    requires Closed(g, outer)
  {
    forall x, c | x in outer && c in g[x].kids :: rank(x) < rank(c)
  }

  /** Only branches, and where several regions meet, have several children or parents. */
  predicate Slim(g: Graph, some: set<nat>) {
    forall x | x in some :: x < |g| && (!g[x].kind.Basic? ==> |g[x].kids| <= 1 && |g[x].parents| <= 1)
  }

  ghost predicate Tidy(g: Graph, outer: set<nat>, inside: seq<set<nat>>, rank: nat -> int) {
    Good(g, outer, inside) && Ordered(g, outer, rank) && Slim(g, outer)
  }

  /** The order with a new region in the place of region `x`. */
  function Placing(rank: nat -> int, made: nat, x: nat): nat -> int {
    (y: nat) => if y == made then rank(x) else rank(y)
  }

  lemma ParentsComeEarlier(g: Graph, outer: set<nat>, rank: nat -> int, x: nat, q: nat)
    requires Closed(g, outer) && Mutual(g, outer) && Ordered(g, outer, rank) && x in outer && q in g[x].parents
    ensures q in outer && rank(q) < rank(x)
  {
    assert x in g[q].kids;
  }

  /** A region in the place of a part with one entry and one exit keeps the graph tidy. */
  lemma InsertTidy(g: Graph, outer: set<nat>, inside: seq<set<nat>>, rank: nat -> int, part: set<nat>, ins: set<nat>,
                   p: Place)
    requires Good(g, outer, inside) && Ordered(g, outer, rank) && Slim(g, outer - part)
    requires Sese(g, outer, part, p) && Fits(g, p) && p.start in ins && Holds(g, ins, p.end) && ins !! outer - part
    requires p.next.Some? ==> rank(p.child) < rank(p.next.value)
    ensures Tidy(Insert(g, p), NewOuter(g, outer, part), inside + [ins], Placing(rank, |g|, p.child))
  {
    var h, after, later := Insert(g, p), NewOuter(g, outer, part), Placing(rank, |g|, p.child);
    InsertGood(g, outer, inside, part, ins, p);
    InsertedAt(g, p);
    forall x | x in outer - part
      ensures !h[x].kind.Basic? ==> |h[x].kids| <= 1 && |h[x].parents| <= 1
      ensures forall c | c in h[x].kids :: later(x) < later(c)
    {
      InsertAt(g, p, x);
      InsertedLists(g, outer, part, p, x);
      NotYet(g, outer, x);
    }
    if p.next.Some? { assert p.next.value < |g|; }
  }

  // ---- conditions and their arms ----

  /** The arms below `curr`, two of whose edges to `join` start at `p1` and `p2`. */
  predicate Arms(g: Graph, outer: set<nat>, curr: nat, arms: set<nat>, p1: nat, p2: nat, join: nat)
    requires Closed(g, outer)
  {
    && curr in outer && arms <= outer && join in outer
    && g[curr].kids != [] && (forall c | c in g[curr].kids :: c in arms || c == join)
    && (forall a | a in arms :: g[a].kids == [join] && g[a].parents == [curr] && (a == p1 || a == p2))
    && p1 != p2 && p2 in arms && (p1 in arms || (p1 == curr && join in g[curr].kids))
    && (join in g[curr].kids ==> p1 == curr)
  }

  function PartOf(curr: nat, arms: set<nat>, join: nat): set<nat> { {curr, join} + arms }

  /** An arm and where it joins below the condition `curr`. */
  predicate IfShape(g: Graph, outer: set<nat>, curr: nat, arm: nat, join: nat)
    requires Closed(g, outer)
  {
    && curr in outer && arm in outer && join in outer
    && (g[curr].kids == [arm, join] || g[curr].kids == [join, arm])
    && g[arm].kids == [join] && g[arm].parents == [curr]
  }

  /** Two arms that meet at `join`. */
  predicate IfElseShape(g: Graph, outer: set<nat>, curr: nat, join: nat)
    requires Closed(g, outer)
  {
    && curr in outer && join in outer && |g[curr].kids| == 2
    && (forall a | a in g[curr].kids :: a in outer && g[a].kids == [join] && g[a].parents == [curr])
  }

  function BothKids(g: Graph, x: nat): set<nat>
    requires x < |g| && |g[x].kids| == 2
  {
    {g[x].kids[0], g[x].kids[1]}
  }

  /** A list without repetition that holds two elements and is no longer than that holds nothing else. */
  lemma OnlyTwo(b: seq<nat>, x: nat, y: nat)
    requires NoRepeats(b) && x in b && y in b && x != y
    ensures |b| >= 2 && (|b| <= 2 ==> forall q | q in b :: q == x || q == y)
  {
    var i :| 0 <= i < |b| && b[i] == x;
    var k :| 0 <= k < |b| && b[k] == y;
  }

  lemma Third(list: seq<nat>, x: nat, y: nat) returns (q: nat)
    requires NoRepeats(list) && |list| > 2
    ensures q in list && q != x && q != y
  {
    q := if list[0] != x && list[0] != y then list[0] else if list[1] != x && list[1] != y then list[1] else list[2];
  }

  lemma JoinParents(g: Graph, outer: set<nat>, p1: nat, p2: nat, join: nat)
    requires Consistent(g, outer) && Joins(g, outer, p1, p2, join)
    ensures |g[join].parents| >= 2
    ensures |g[join].parents| <= 2 ==> forall q | q in g[join].parents :: q == p1 || q == p2
    ensures |g[join].parents| > 2 ==> exists q :: q in g[join].parents && q != p1 && q != p2
  {
    OnlyTwo(g[join].parents, p1, p2);
    if |g[join].parents| > 2 { var q := Third(g[join].parents, p1, p2); }
  }

  /** The parts of a diamond in their order. */
  lemma ArmsInOrder(g: Graph, outer: set<nat>, rank: nat -> int, curr: nat, arms: set<nat>, p1: nat, p2: nat, join: nat)
    requires Consistent(g, outer) && Ordered(g, outer, rank) && Arms(g, outer, curr, arms, p1, p2, join)
    ensures Joins(g, outer, p1, p2, join) && rank(curr) < rank(join)
    ensures forall a | a in arms :: rank(curr) < rank(a) < rank(join)
  {
    forall a | a in arms ensures rank(curr) < rank(a) < rank(join) && join in g[a].kids {
      assert curr in g[a].parents && join in g[a].kids;
      ParentsComeEarlier(g, outer, rank, a, curr);
    }
    assert rank(curr) < rank(p2) < rank(join);
  }

  /** The arm has one parent and the join has more, which tells them apart. */
  lemma IfArms(g: Graph, outer: set<nat>, rank: nat -> int, curr: nat, arm: nat, join: nat)
    requires Consistent(g, outer) && Ordered(g, outer, rank) && TwoKids(g, curr) && IfShape(g, outer, curr, arm, join)
    ensures ArmOf(g, curr) == arm && JoinOf(g, curr) == join && Arms(g, outer, curr, {arm}, curr, arm, join)
    ensures curr !in g[curr].kids && CheckIf(g, curr)
  {
    assert join in g[arm].kids && arm in g[curr].kids && join in g[curr].kids;
    assert rank(curr) < rank(arm) && rank(curr) < rank(join);
    JoinParents(g, outer, curr, arm, join);
  }

  lemma IfElseArms(g: Graph, outer: set<nat>, rank: nat -> int, curr: nat, join: nat)
    requires Consistent(g, outer) && Ordered(g, outer, rank) && TwoKids(g, curr) && IfElseShape(g, outer, curr, join)
    ensures var a, b := g[curr].kids[0], g[curr].kids[1];
            && a in outer && FirstKid(g, a) == Some(join) && CheckIfElse(g, curr)
            && Arms(g, outer, curr, BothKids(g, curr), a, b, join)
  {
    var a, b := g[curr].kids[0], g[curr].kids[1];
    assert a in g[curr].kids && b in g[curr].kids;
    assert join in g[a].kids;
  }

  /** A child of `x` that leads on to another child of `x` is no branch. */
  predicate PlainArms(g: Graph, x: nat)
    requires TwoKids(g, x)
  {
    forall a | a in g[x].kids ::
      a < |g| && (FirstKid(g, a).Some? && FirstKid(g, a).value in g[x].kids ==> !g[a].kind.Basic?)
  }

  /** The test for an if finds exactly the ifs. */
  lemma IfIsShaped(g: Graph, outer: set<nat>, inside: seq<set<nat>>, rank: nat -> int, curr: nat)
    requires Tidy(g, outer, inside, rank) && curr in outer && TwoKids(g, curr) && PlainArms(g, curr)
    ensures CheckIf(g, curr) <==> exists arm, join :: IfShape(g, outer, curr, arm, join)
  {
    var a, b := g[curr].kids[0], g[curr].kids[1];
    assert a in g[curr].kids && b in g[curr].kids && curr in g[a].parents && curr in g[b].parents;
    if CheckIf(g, curr) {
      assert IfShape(g, outer, curr, a, b) || IfShape(g, outer, curr, b, a);
    }
    if arm, join :| IfShape(g, outer, curr, arm, join) { IfArms(g, outer, rank, curr, arm, join); }
  }

  /** The test for an if with an else finds exactly those, and no ifs. */
  lemma IfElseIsShaped(g: Graph, outer: set<nat>, inside: seq<set<nat>>, rank: nat -> int, curr: nat)
    requires Tidy(g, outer, inside, rank) && curr in outer && TwoKids(g, curr)
    requires forall a | a in g[curr].kids :: a < |g| && !g[a].kind.Basic?
    ensures CheckIfElse(g, curr) <==> exists join :: IfElseShape(g, outer, curr, join)
    ensures !(CheckIf(g, curr) && CheckIfElse(g, curr))
  {
    var a, b := g[curr].kids[0], g[curr].kids[1];
    assert a in g[curr].kids && b in g[curr].kids && curr in g[a].parents && curr in g[b].parents;
    if CheckIfElse(g, curr) {
      var join := g[a].kids[0];
      assert join in g[a].kids && IfElseShape(g, outer, curr, join);
      assert a != join && b != join by { assert rank(a) < rank(join) && rank(b) < rank(join); }
    }
    if join :| IfElseShape(g, outer, curr, join) { IfElseArms(g, outer, rank, curr, join); }
  }

  // ---- shapes with one entry and one exit ----

  /** `curr` branches into arms that all lead to `join` and nowhere else; nothing else leads in. */
  predicate Diamond(g: Graph, outer: set<nat>, curr: nat, arms: set<nat>, join: nat, before: Option<nat>)
    requires Closed(g, outer)
  {
    && curr in outer && arms <= outer && join in outer && curr != join && curr !in arms && join !in arms
    && g[curr].kids != [] && (forall c | c in g[curr].kids :: c in arms || c == join)
    && (forall a | a in arms :: g[a].kids == [join] && g[a].parents == [curr])
    && (forall q | q in g[join].parents :: q == curr || q in arms)
    && g[curr].parents == AsList(before)
    && (before.Some? ==> before.value !in arms && before.value != curr && before.value != join)
  }

  lemma DiamondIsSese(g: Graph, outer: set<nat>, curr: nat, arms: set<nat>, join: nat, before: Option<nat>, kind: Kind)
    requires Closed(g, outer) && Mutual(g, outer) && Diamond(g, outer, curr, arms, join, before)
    requires |g[join].kids| <= 1 && (FirstKid(g, join).Some? ==> FirstKid(g, join).value !in PartOf(curr, arms, join))
    ensures Sese(g, outer, PartOf(curr, arms, join), Place(kind, curr, join, curr, before, FirstKid(g, join)))
  {
    var part := PartOf(curr, arms, join);
    forall x | x in outer - part ensures forall c | c in g[x].kids && c in part :: c == curr && before == Some(x) {
      forall c | c in g[x].kids && c in part ensures c == curr && before == Some(x) {
        assert x in g[c].parents;
      }
    }
    if before.Some? {
      assert before.value in g[curr].parents;
      assert curr in g[before.value].kids;
    }
  }
}
