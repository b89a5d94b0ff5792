/** What the passes make of a region graph, edit by edit; None where a search in a list fails, which raises an
    exception. */
module RegionEdits {
  import opened Options
  import opened RegionPaths
  import opened RegionLists

  // ---- the tests ----

  function FirstOf(list: seq<nat>): Option<nat> { if list == [] then None else Some(list[0]) }

  function FirstKid(g: Graph, x: nat): Option<nat>
    requires x < |g|
  {
    FirstOf(g[x].kids)
  }

  predicate TwoKids(g: Graph, x: nat) {
    x < |g| && g[x].kind.Basic? && |g[x].kids| == 2 && g[x].kids[0] < |g| && g[x].kids[1] < |g|
  }

  predicate CheckIf(g: Graph, x: nat) {
    TwoKids(g, x) &&
    (FirstKid(g, g[x].kids[0]) == Some(g[x].kids[1]) || FirstKid(g, g[x].kids[1]) == Some(g[x].kids[0]))
  }

  predicate CheckIfElse(g: Graph, x: nat) {
    TwoKids(g, x) && FirstKid(g, g[x].kids[0]).Some? && FirstKid(g, g[x].kids[0]) == FirstKid(g, g[x].kids[1])
  }

  // ---- the edits ----

  predicate CanSubdivide(g: Graph, p1: nat, p2: nat, j: nat) {
    && p1 < |g| && p2 < |g| && j < |g| && p1 != p2 && j in g[p1].kids && j in g[p2].kids
    && p1 in g[j].parents && p2 in ReplaceFirst(g[j].parents, p1, |g|)
  }

  function Placed(g: Graph, p: Place): Option<Graph> { if Fits(g, p) then Some(Insert(g, p)) else None }

  /** The place below `before` of a region from `curr` to `join`. */
  function Whole(g: Graph, kind: Kind, curr: nat, join: nat, before: nat): Place
    requires join < |g|
  {
    Place(kind, curr, join, curr, Some(before), FirstKid(g, join))
  }

  /** Below a branch, `curr` and whatever follows become one region. */
  function SwallowEdit(g: Graph, before: nat, curr: nat, next: nat): Option<Graph>
    requires next < |g|
  {
    Placed(g, Whole(g, Linear, curr, next, before))
  }

  /** Otherwise `before` and `curr` do, */
  function PairPlace(g: Graph, before: nat, curr: nat, next: Option<nat>): Place
    requires before < |g|
  {
    Place(Linear, before, curr, before, FirstOf(g[before].parents), next)
  }

  /** and then what follows with them, in the place of the region `made` just now. */
  function LinePlace(g: Graph, before: nat, made: nat, next: nat): Place
    requires before < |g| && next < |g|
  {
    Place(Linear, before, next, made, FirstOf(g[before].parents), FirstKid(g, next))
  }

  /** What follows joins the line: it is no branch, and `curr` has one parent. */
  predicate GoesFurther(h: Graph, curr: nat, next: Option<nat>)
    requires curr < |h|
  {
    next.Some? && next.value < |h| && !h[next.value].kind.Basic? && |h[curr].parents| == 1
  }

  /** The region that stands for `before` afterwards: a new one if nothing leads to it. */
  function LineHead(g: Graph, before: nat, made: nat): nat
    requires before < |g|
  {
    if g[before].parents == [] then made else before
  }

  function LineEdit(g: Graph, before: nat, curr: nat, next: Option<nat>): (r: Option<(Graph, nat)>)
    requires before < |g| && curr < |g|
  {
    match Placed(g, PairPlace(g, before, curr, next))
    case None => None
    case Some(h) =>
      if !GoesFurther(h, curr, next) then Some((h, LineHead(g, before, |g|)))
      else
        match Placed(h, LinePlace(h, before, |g|, next.value))
        case None => None
        case Some(k) => Some((k, LineHead(h, before, |h|)))
  }

  /** Joining what is in line, with the region that stands for `before` afterwards. */
  function JoinEdit(g: Graph, before: nat, curr: nat, next: Option<nat>): Option<(Graph, nat)>
    requires before < |g| && curr < |g| && (next.Some? ==> next.value < |g|)
  {
    if !g[before].kind.Basic? then LineEdit(g, before, curr, next)
    else if next.Some? && |g[curr].parents| == 1 then
      match SwallowEdit(g, before, curr, next.value)
      case None => None
      case Some(h) => Some((h, before))
    else Some((g, before))
  }

  /** The region where the arms join, or a new one before it if it has further parents. */
  function EndEdit(g: Graph, p1: nat, p2: nat, join: nat): (r: Option<(Graph, nat)>)
    requires join < |g|
    ensures r.Some? ==> r.value.1 < |r.value.0| && |r.value.0| >= |g|
  {
    if |g[join].parents| <= 2 then Some((g, join))
    else if CanSubdivide(g, p1, p2, join) then Some((Subdivide(g, p1, p2, join), |g|))
    else None
  }

  /** One region from `curr` to `end` below `before`, joined with what is in line. */
  function CloseEdit(g: Graph, kind: Kind, curr: nat, end: nat, before: nat): Option<(Graph, nat)>
    requires end < |g|
  {
    match Placed(g, Whole(g, kind, curr, end, before))
    case None => None
    case Some(h) => JoinEdit(h, before, |g|, FirstKid(g, end))
  }

  /** The arm of an if and where it joins, by their numbers of parents. */
  function ArmOf(g: Graph, curr: nat): nat
    requires TwoKids(g, curr)
  {
    if |g[g[curr].kids[0]].parents| == 1 then g[curr].kids[0] else g[curr].kids[1]
  }

  function JoinOf(g: Graph, curr: nat): (join: nat)
    requires TwoKids(g, curr)
    ensures join < |g|
  {
    if |g[g[curr].kids[1]].parents| > 1 then g[curr].kids[1] else g[curr].kids[0]
  }

  function IfEdit(g: Graph, curr: nat): Option<(Graph, nat)>
    requires CheckIf(g, curr)
  {
    if g[curr].parents == [] then None
    else
      match EndEdit(g, curr, ArmOf(g, curr), JoinOf(g, curr))
      case None => None
      case Some((h, end)) => CloseEdit(h, IfStatement, curr, end, g[curr].parents[0])
  }

  function IfElseEdit(g: Graph, curr: nat): Option<(Graph, nat)>
    requires CheckIfElse(g, curr)
  {
    var join := FirstKid(g, g[curr].kids[0]).value;
    if join >= |g| then None
    else
      match EndEdit(g, g[curr].kids[0], g[curr].kids[1], join)
      case None => None
      case Some((h, end)) =>
        if h[curr].parents == [] then None else CloseEdit(h, IfElseStatement, curr, end, h[curr].parents[0])
  }
}
