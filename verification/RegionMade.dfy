/** Which regions the passes make, of which types and from where to where, in any graph. */
module RegionMade {
  import opened Options
  import opened RegionPaths
  import opened RegionLists
  import opened RegionEdits

  /** No region changes its type or what it holds. */
  predicate KeepsRegions(g: Graph, h: Graph) {
    |g| <= |h| && forall x | 0 <= x < |g| :: h[x].kind == g[x].kind && h[x].body == g[x].body
  }

  predicate IsLine(r: Region, start: nat, end: nat) { r.kind.Linear? && r.body == Between(start, end) }

  /** What joining adds behind the first `size` regions, and the region that stands for `before` then: below a branch
      one linear region over `curr` and what follows; otherwise one over `before` and `curr`, and one more up to what
      follows, if that is no branch. */
  predicate LineMade(g: Graph, h: Graph, size: nat, head: nat, before: nat, curr: nat, next: Option<nat>)
    requires before < |g| && (next.Some? ==> next.value < |g|)
  {
    && (if g[before].kind.Basic? then
          if next.Some? then |h| == size + 1 && IsLine(h[size], curr, next.value) else |h| == size
        else
          && |h| == size + (if next.Some? && !g[next.value].kind.Basic? then 2 else 1)
          && IsLine(h[size], before, curr)
          && (|h| == size + 2 ==> IsLine(h[size + 1], before, next.value)))
    && head == if g[before].kind.Basic? || g[before].parents != [] then before else |h| - 1
  }

  /** The region where the arms join, or the one put before it if it has further parents. */
  function EndOf(g: Graph, join: nat): nat
    requires join < |g|
  {
    if |g[join].parents| > 2 then |g| else join
  }

  /** What follows the collapse of `curr` up to `join`: the join itself, behind a region that contributes nothing, if it
      has further parents. */
  function Following(g: Graph, join: nat): Option<nat>
    requires join < |g|
  {
    if |g[join].parents| > 2 then Some(join) else FirstKid(g, join)
  }

  /** A region of this type from `curr` to where its arms join is made, and then what joining adds. */
  predicate Made(g: Graph, h: Graph, head: nat, kind: Kind, curr: nat, join: nat, before: nat)
    requires join < |g| && before < |g| && (Following(g, join).Some? ==> Following(g, join).value < |g|)
  {
    var made := if |g[join].parents| > 2 then |g| + 1 else |g|;
    && KeepsRegions(g, h) && made < |h|
    && (made > |g| ==> h[|g|].kind.Linear? && h[|g|].body.Nothing?)
    && h[made].kind == kind && h[made].body == Between(curr, EndOf(g, join))
    && LineMade(g, h, made + 1, head, before, made, Following(g, join))
  }

  lemma InsertKeeps(g: Graph, p: Place)
    requires Fits(g, p)
    ensures KeepsRegions(g, Insert(g, p)) && |Insert(g, p)| == |g| + 1
    ensures Insert(g, p)[|g|] == Region(p.kind, Between(p.start, p.end), AsList(p.before), AsList(p.next))
    ensures forall x | 0 <= x < |g| :: |Insert(g, p)[x].parents| == |g[x].parents|
  {
    InsertedAt(g, p);
    forall x | 0 <= x < |g|
      ensures Insert(g, p)[x].kind == g[x].kind && Insert(g, p)[x].body == g[x].body
      ensures |Insert(g, p)[x].parents| == |g[x].parents|
    {
      InsertAt(g, p, x);
    }
  }

  /** What joining makes of a region just made. */
  lemma JoinMakes(g: Graph, before: nat, curr: nat, next: Option<nat>)
    requires before < |g| && curr < |g| && (next.Some? ==> next.value < |g|) && |g[curr].parents| == 1
    requires JoinEdit(g, before, curr, next).Some?
    ensures var r := JoinEdit(g, before, curr, next).value;
            KeepsRegions(g, r.0) && LineMade(g, r.0, |g|, r.1, before, curr, next)
  {
    if !g[before].kind.Basic? {
      var p := PairPlace(g, before, curr, next);
      InsertKeeps(g, p);
      var h := Insert(g, p);
      if GoesFurther(h, curr, next) { InsertKeeps(h, LinePlace(h, before, |g|, next.value)); }
    } else if next.Some? {
      InsertKeeps(g, Whole(g, Linear, curr, next.value, before));
    }
  }

  lemma EndMakes(g: Graph, p1: nat, p2: nat, join: nat)
    requires join < |g| && EndEdit(g, p1, p2, join).Some?
    ensures var (h, end) := EndEdit(g, p1, p2, join).value;
            && KeepsRegions(g, h) && end == EndOf(g, join) < |h| && FirstKid(h, end) == Following(g, join)
            && |h| == |g| + (if |g[join].parents| > 2 then 1 else 0)
            && (|h| > |g| ==> h[|g|].kind.Linear? && h[|g|].body.Nothing?)
            && forall x | 0 <= x < |g| && x != join :: h[x].parents == g[x].parents
  {
    if |g[join].parents| > 2 {
      SubdivideMade(g, p1, p2, join);
      var h := Subdivide(g, p1, p2, join);
      forall x | 0 <= x < |g|
        ensures h[x].kind == g[x].kind && h[x].body == g[x].body && (x != join ==> h[x].parents == g[x].parents)
      {
        SubdivideAt(g, p1, p2, join, x);
      }
    }
  }

  /** What is made of a region reads the same in a graph with the same types. */
  lemma LineMadeAlike(g: Graph, h: Graph, l: Graph, size: nat, head: nat, before: nat, curr: nat, next: Option<nat>)
    requires KeepsRegions(g, h) && before < |g| && (next.Some? ==> next.value < |g|)
    requires (g[before].parents == []) == (h[before].parents == []) && LineMade(h, l, size, head, before, curr, next)
    ensures LineMade(g, l, size, head, before, curr, next)
  {}

  lemma WholeMakes(h: Graph, kind: Kind, curr: nat, end: nat, before: nat, r: (Graph, nat))
    requires end < |h| && before < |h| && CloseEdit(h, kind, curr, end, before) == Some(r)
    requires FirstKid(h, end).Some? ==> FirstKid(h, end).value < |h|
    ensures |r.0| > |h| && KeepsRegions(h, r.0) && r.0[|h|].kind == kind && r.0[|h|].body == Between(curr, end)
    ensures LineMade(h, r.0, |h| + 1, r.1, before, |h|, FirstKid(h, end))
  {
    var p := Whole(h, kind, curr, end, before);
    InsertKeeps(h, p);
    var k := Insert(h, p);
    JoinMakes(k, before, |h|, FirstKid(h, end));
    LineMadeAlike(h, k, r.0, |h| + 1, r.1, before, |h|, FirstKid(h, end));
  }

  lemma MadeInTurn(g: Graph, h: Graph, r: (Graph, nat), kind: Kind, curr: nat, join: nat, before: nat)
    requires join < |g| && before < |g| && (Following(g, join).Some? ==> Following(g, join).value < |g|)
    requires KeepsRegions(g, h) && KeepsRegions(h, r.0) && |h| == |g| + (if |g[join].parents| > 2 then 1 else 0)
    requires |h| > |g| ==> h[|g|].kind.Linear? && h[|g|].body.Nothing?
    requires |r.0| > |h| && r.0[|h|].kind == kind && r.0[|h|].body == Between(curr, EndOf(g, join))
    requires h[before].parents == g[before].parents
    requires LineMade(h, r.0, |h| + 1, r.1, before, |h|, Following(g, join))
    ensures Made(g, r.0, r.1, kind, curr, join, before)
  {
    LineMadeAlike(g, h, r.0, |h| + 1, r.1, before, |h|, Following(g, join));
  }

  lemma CloseMakes(g: Graph, h: Graph, kind: Kind, curr: nat, join: nat, before: nat, r: (Graph, nat))
    requires join < |g| && KeepsRegions(g, h)
    requires EndOf(g, join) < |h| && FirstKid(h, EndOf(g, join)) == Following(g, join)
    requires |h| == |g| + (if |g[join].parents| > 2 then 1 else 0)
    requires |h| > |g| ==> h[|g|].kind.Linear? && h[|g|].body.Nothing?
    requires before < |g| && h[before].parents == g[before].parents
    requires Following(g, join).Some? ==> Following(g, join).value < |g|
    requires CloseEdit(h, kind, curr, EndOf(g, join), before) == Some(r)
    ensures Made(g, r.0, r.1, kind, curr, join, before)
  {
    WholeMakes(h, kind, curr, EndOf(g, join), before, r);
    MadeInTurn(g, h, r, kind, curr, join, before);
  }

  /** An if becomes an if region, */
  lemma IfMakes(g: Graph, curr: nat)
    requires CheckIf(g, curr) && IfEdit(g, curr).Some? && g[curr].parents[0] < |g|
    requires g[curr].parents[0] != JoinOf(g, curr) && forall c | c in g[JoinOf(g, curr)].kids :: c < |g|
    ensures Following(g, JoinOf(g, curr)).Some? ==> Following(g, JoinOf(g, curr)).value < |g|
    ensures var r := IfEdit(g, curr).value;
            Made(g, r.0, r.1, IfStatement, curr, JoinOf(g, curr), g[curr].parents[0])
  {
    EndMakes(g, curr, ArmOf(g, curr), JoinOf(g, curr));
    var e := EndEdit(g, curr, ArmOf(g, curr), JoinOf(g, curr)).value;
    FollowingInRange(g, JoinOf(g, curr));
    CloseMakes(g, e.0, IfStatement, curr, JoinOf(g, curr), g[curr].parents[0], IfEdit(g, curr).value);
  }

  lemma FollowingInRange(g: Graph, join: nat)
    requires join < |g| && forall c | c in g[join].kids :: c < |g|
    ensures Following(g, join).Some? ==> Following(g, join).value < |g|
  {
    if g[join].kids != [] { assert g[join].kids[0] in g[join].kids; }
  }

  /** and an if with an else a region of its own type. */
  lemma IfElseMakes(g: Graph, curr: nat, join: nat)
    requires CheckIfElse(g, curr) && IfElseEdit(g, curr).Some?
    requires FirstKid(g, g[curr].kids[0]) == Some(join) && join < |g|
    requires g[curr].parents != [] && g[curr].parents[0] < |g| && g[curr].parents[0] != join && curr != join
    requires forall c | c in g[join].kids :: c < |g|
    ensures Following(g, join).Some? ==> Following(g, join).value < |g|
    ensures var r := IfElseEdit(g, curr).value;
            Made(g, r.0, r.1, IfElseStatement, curr, join, g[curr].parents[0])
  {
    EndMakes(g, g[curr].kids[0], g[curr].kids[1], join);
    var e := EndEdit(g, g[curr].kids[0], g[curr].kids[1], join).value;
    FollowingInRange(g, join);
    CloseMakes(g, e.0, IfElseStatement, curr, join, g[curr].parents[0], IfElseEdit(g, curr).value);
  }
}
