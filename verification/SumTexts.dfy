/** What simplifying makes of a sum of register contents, term by term and as it is printed. */
module SumTexts {
  import opened Options
  import opened WorkItems
  import opened SignedSums

  // ---- the texts ----

  function IdText(d: Dim): string {
    match d case X => "get_global_id(0)" case Y => "get_global_id(1)" case Z => "get_global_id(2)"
  }

  function SizeText(d: Dim): string {
    match d case X => "get_global_size(0)" case Y => "get_global_size(1)" case Z => "get_global_size(2)"
  }

  /** A global id or global size, added, under its own text. */
  predicate Named(t: Term) {
    && t.positive
    && (t.kind.GlobalId? || t.kind.GlobalSize?)
    && t.value == if t.kind.GlobalId? then IdText(t.kind.dim) else SizeText(t.kind.dim)
  }

  predicate NamesResult(c: Combination) { Named(Term(c.text, c.result, true)) }

  predicate AllName(cs: seq<Combination>) { forall c | c in cs :: NamesResult(c) }

  lemma CombinationsName()
    ensures AllName(Combinations())
  {}

  lemma {:induction false} RunNames(cs: seq<Combination>, ts: seq<Term>, rewritten: bool)
    requires AllTwoParts(cs) && AllName(cs)
    ensures forall t | t in TermsOf(Simplify(Sum, cs, ts, rewritten), ts) :: t in ts || Named(t)
    decreases |ts|
  {
    if |ts| != 1 && Rewrite(Sum, cs, ts).Some? {
      RewriteShrinks(Sum, cs, ts);
      RewriteNames(cs, ts);
      RunNames(cs, Rewrite(Sum, cs, ts).value, true);
    }
  }

  lemma RewriteNames(cs: seq<Combination>, ts: seq<Term>)
    requires AllName(cs) && Rewrite(Sum, cs, ts).Some?
    ensures forall t | t in Rewrite(Sum, cs, ts).value :: t in ts || Named(t)
  {
    var pair := FirstOpposite(ts, 0);
    if pair.Some? {
      WithoutMembers(ts, {pair.value.0, pair.value.1}, 0);
    } else {
      WithoutMembers(ts, PositionsOf(ts, FirstCombination(ts, cs).value.parts).value, 0);
    }
  }

  /** Every term of the result is one of the sum, or a global id or global size under the text of its own dimension. */
  lemma AddedAreNamed(ts: seq<Term>, rewritten: bool)
    ensures AllTwoParts(Combinations())
    ensures forall t | t in TermsOf(Simplify(Sum, Combinations(), ts, rewritten), ts) :: t in ts || Named(t)
  {
    CombinationsHaveTwoParts();
    CombinationsName();
    RunNames(Combinations(), ts, rewritten);
  }

  // ---- the sum as it is printed ----

  function Printed(t: Term, value: string -> real): real { if t.positive then value(t.value) else -value(t.value) }

  function PrintedTotal(ts: seq<Term>, value: string -> real): real {
    if ts == [] then 0.0 else Printed(ts[0], value) + PrintedTotal(ts[1..], value)
  }

  /** The text of each term is worth what the term is known to be. */
  predicate Agree(ts: seq<Term>, value: string -> real, env: Env) {
    forall t | t in ts :: value(t.value) == Meaning(t, env)
  }

  /** The texts of global ids are worth group id times local size plus local id plus offset. */
  predicate IdTextsObey(value: string -> real, env: Env) {
    forall d: Dim :: value(IdText(d)) == env.groupSize(d) + env.local(d) + env.offset(d)
  }

  lemma {:induction false} AgreeingTotals(ts: seq<Term>, value: string -> real, env: Env)
    requires Agree(ts, value, env)
    ensures PrintedTotal(ts, value) == Total(ts, env)
  {
    if ts == [] {
    } else {
      assert ts[0] in ts && forall t | t in ts[1..] :: t in ts;
      AgreeingTotals(ts[1..], value, env);
    }
  }

  lemma ResultAgrees(c: Combination, value: string -> real, env: Env)
    requires NamesResult(c) && MakesGlobalId(c) && IdTextsObey(value, env)
    ensures value(c.text) == Meaning(Term(c.text, c.result, true), env)
  {}

  lemma RewriteAgrees(cs: seq<Combination>, ts: seq<Term>, value: string -> real, env: Env)
    requires AllName(cs) && Rewrite(Sum, cs, ts).Some? && FoldAdds(cs, ts)
    requires Agree(ts, value, env) && IdTextsObey(value, env)
    ensures Agree(Rewrite(Sum, cs, ts).value, value, env)
  {
    var pair := FirstOpposite(ts, 0);
    if pair.Some? {
      WithoutMembers(ts, {pair.value.0, pair.value.1}, 0);
    } else {
      var c := FirstCombination(ts, cs).value;
      WithoutMembers(ts, PositionsOf(ts, c.parts).value, 0);
      ResultAgrees(c, value, env);
    }
  }

  lemma {:induction false} RunAgrees(cs: seq<Combination>, ts: seq<Term>, rewritten: bool, value: string -> real,
                                     env: Env)
    requires AllTwoParts(cs) && AllName(cs) && FoldsAdd(cs, ts) && Agree(ts, value, env) && IdTextsObey(value, env)
    ensures Agree(TermsOf(Simplify(Sum, cs, ts, rewritten), ts), value, env)
    decreases |ts|
  {
    if |ts| != 1 && Rewrite(Sum, cs, ts).Some? {
      RewriteShrinks(Sum, cs, ts);
      RewriteAgrees(cs, ts, value, env);
      RunAgrees(cs, Rewrite(Sum, cs, ts).value, true, value, env);
    }
  }

  /** Where texts are worth what their terms are known to be, and those of global ids obey the law of their dimension,
      the simplified sum prints to a text of the same value, if all that is folded is parts of global ids that are
      added. */
  lemma PrintedSumIsKept(ts: seq<Term>, rewritten: bool, value: string -> real, env: Env)
    requires AllTwoParts(Combinations()) && FoldsAdd(Combinations(), ts)
    requires Agree(ts, value, env) && IdTextsObey(value, env)
    ensures PrintedTotal(TermsOf(Simplify(Sum, Combinations(), ts, rewritten), ts), value) == PrintedTotal(ts, value)
  {
    var cs := Combinations();
    CombinationsName();
    RunAgrees(cs, ts, rewritten, value, env);
    AddingKeepsTotal(cs, ts, rewritten, env);
    AgreeingTotals(ts, value, env);
    AgreeingTotals(TermsOf(Simplify(Sum, cs, ts, rewritten), ts), value, env);
  }

  // ---- what is folded, and in which order ----

  predicate Occurs(ts: seq<Term>, k: Kind) { exists t :: t in ts && t.kind == k }

  /** Three ways to make up a global id, tried in this order, and then the one to make up a global size. */
  datatype Way = AllThree | OffsetAndRest | LocalAndRest | Groups

  function Order(w: Way): nat {
    match w case AllThree => 0 case OffsetAndRest => 1 case LocalAndRest => 2 case Groups => 3
  }

  predicate Complete(ts: seq<Term>, w: Way, d: Dim) {
    match w
    case AllThree => Occurs(ts, Offset(d)) && Occurs(ts, LocalId(d)) && Occurs(ts, GroupSize(d))
    case OffsetAndRest => Occurs(ts, Offset(d)) && Occurs(ts, GroupSizeLocalId(d))
    case LocalAndRest => Occurs(ts, LocalId(d)) && Occurs(ts, GroupSizeOffset(d))
    case Groups => Occurs(ts, NumGroups(d)) && Occurs(ts, GroupSize(d))
  }

  function Rank(w: Way, d: Dim): nat { 3 * Order(w) + Index(d) }

  function Made(w: Way, d: Dim): Term {
    if w.Groups? then Term(SizeText(d), GlobalSize(d), true) else Term(IdText(d), GlobalId(d), true)
  }

  lemma {:induction false} KindOccurs(ts: seq<Term>, k: Kind)
    ensures Occurs(ts, k) <==> FirstOfKind(ts, k) < |ts|
  {
    if ts == [] {
    } else {
      KindOccurs(ts[1..], k);
      assert forall t :: t in ts <==> t == ts[0] || t in ts[1..];
      if FirstOfKind(ts, k) < |ts| { assert ts[FirstOfKind(ts, k)] in ts; }
    }
  }

  lemma {:induction false} PositionsExist(ts: seq<Term>, kinds: seq<Kind>)
    ensures PositionsOf(ts, kinds).Some? <==> forall k | k in kinds :: Occurs(ts, k)
  {
    if kinds == [] {
    } else {
      KindOccurs(ts, kinds[0]);
      PositionsExist(ts, kinds[1..]);
      assert forall k :: k in kinds <==> k == kinds[0] || k in kinds[1..];
    }
  }

  lemma {:induction false} FirstAt(ts: seq<Term>, cs: seq<Combination>, i: nat)
    requires i < |cs| && PositionsOf(ts, cs[i].parts).Some?
    requires forall j | 0 <= j < i :: PositionsOf(ts, cs[j].parts).None?
    ensures FirstCombination(ts, cs) == Some(cs[i])
  {
    if i > 0 { FirstAt(ts, cs[1..], i - 1); }
  }

  function KindsOf(w: Way, d: Dim): seq<Kind> {
    match w
    case AllThree => [Offset(d), LocalId(d), GroupSize(d)]
    case OffsetAndRest => [Offset(d), GroupSizeLocalId(d)]
    case LocalAndRest => [LocalId(d), GroupSizeOffset(d)]
    case Groups => [NumGroups(d), GroupSize(d)]
  }

  lemma CombinationAt(w: Way, d: Dim)
    ensures Rank(w, d) < |Combinations()|
    ensures var c := Combinations()[Rank(w, d)]; c.parts == KindsOf(w, d) && Term(c.text, c.result, true) == Made(w, d)
  {}

  lemma CompleteExactly(ts: seq<Term>, w: Way, d: Dim)
    ensures Complete(ts, w, d) <==> forall k | k in KindsOf(w, d) :: Occurs(ts, k)
  {
    assert forall k :: k in KindsOf(w, d) <==>
      match w
      case AllThree => k == Offset(d) || k == LocalId(d) || k == GroupSize(d)
      case OffsetAndRest => k == Offset(d) || k == GroupSizeLocalId(d)
      case LocalAndRest => k == LocalId(d) || k == GroupSizeOffset(d)
      case Groups => k == NumGroups(d) || k == GroupSize(d);
  }

  lemma PlaceInOrder(ts: seq<Term>, w: Way, d: Dim)
    ensures Rank(w, d) < |Combinations()|
    ensures var c := Combinations()[Rank(w, d)];
            Term(c.text, c.result, true) == Made(w, d) && (Complete(ts, w, d) <==> PositionsOf(ts, c.parts).Some?)
  {
    CombinationAt(w, d);
    CompleteExactly(ts, w, d);
    PositionsExist(ts, KindsOf(w, d));
  }

  lemma EveryRank(i: nat)
    requires i < |Combinations()|
    ensures exists w, d :: Rank(w, d) == i
  {
    var w := if i < 3 then AllThree else if i < 6 then OffsetAndRest else if i < 9 then LocalAndRest else Groups;
    var d := if i % 3 == 0 then X else if i % 3 == 1 then Y else Z;
    assert Rank(w, d) == i;
  }

  /** The position of the first term of each of these kinds. */
  predicate Firsts(ts: seq<Term>, kinds: seq<Kind>, positions: set<nat>) {
    && (forall k | k in kinds :: exists i :: IsFirst(ts, k, i) && i in positions)
    && (forall i | i in positions :: exists k :: k in kinds && IsFirst(ts, k, i))
  }

  predicate IsFirst(ts: seq<Term>, k: Kind, i: nat) {
    i < |ts| && ts[i].kind == k && forall j | 0 <= j < i :: ts[j].kind != k
  }

  lemma {:induction false} FirstIsFirst(ts: seq<Term>, k: Kind)
    requires FirstOfKind(ts, k) < |ts|
    ensures IsFirst(ts, k, FirstOfKind(ts, k))
  {
    if ts[0].kind != k {
      FirstIsFirst(ts[1..], k);
      forall j | 0 <= j < FirstOfKind(ts, k) ensures ts[j].kind != k { if j > 0 { assert ts[j] == ts[1..][j - 1]; } }
    }
  }

  lemma FirstsGrow(ts: seq<Term>, k: Kind, kinds: seq<Kind>, i: nat, positions: set<nat>)
    requires IsFirst(ts, k, i) && Firsts(ts, kinds, positions)
    ensures Firsts(ts, [k] + kinds, {i} + positions)
  {
    forall j | j in {i} + positions ensures exists q :: q in [k] + kinds && IsFirst(ts, q, j) {
      if j == i {
        assert k in [k] + kinds;
      } else {
        var q :| q in kinds && IsFirst(ts, q, j);
        assert q in [k] + kinds;
      }
    }
  }

  lemma {:induction false} PositionsAreFirsts(ts: seq<Term>, kinds: seq<Kind>)
    requires PositionsOf(ts, kinds).Some?
    ensures Firsts(ts, kinds, PositionsOf(ts, kinds).value)
  {
    if kinds == [] {
    } else {
      FirstIsFirst(ts, kinds[0]);
      PositionsAreFirsts(ts, kinds[1..]);
      FirstsGrow(ts, kinds[0], kinds[1..], FirstOfKind(ts, kinds[0]), PositionsOf(ts, kinds[1..]).value);
      assert kinds == [kinds[0]] + kinds[1..];
    }
  }

  /** Without opposite terms, the first way whose parts all occur is folded: the first term of each part goes, and the
      global id or global size of the dimension comes in at the end. */
  lemma FoldsFirstWay(ts: seq<Term>, w: Way, d: Dim)
    requires FirstOpposite(ts, 0).None? && Complete(ts, w, d)
    requires forall v, e | Rank(v, e) < Rank(w, d) :: !Complete(ts, v, e)
    ensures exists positions :: Firsts(ts, KindsOf(w, d), positions)
                             && Rewrite(Sum, Combinations(), ts) == Some(Without(ts, positions, 0) + [Made(w, d)])
  {
    var cs := Combinations();
    PlaceInOrder(ts, w, d);
    forall j | 0 <= j < Rank(w, d) ensures PositionsOf(ts, cs[j].parts).None? {
      EveryRank(j);
      var v, e :| Rank(v, e) == j;
      PlaceInOrder(ts, v, e);
    }
    FirstAt(ts, cs, Rank(w, d));
    CombinationAt(w, d);
    PositionsAreFirsts(ts, KindsOf(w, d));
  }

  /** No pair of opposite terms begins before the one that is removed, or begins there and ends before. */
  lemma {:induction false} FirstPairIsFirst(ts: seq<Term>, from: nat, a: nat, b: nat)
    requires from <= a < b < |ts| && Opposite(ts[a], ts[b])
    ensures var pair := FirstOpposite(ts, from);
            pair.Some? && pair.value.0 <= a && (pair.value.0 == a ==> pair.value.1 <= b)
    decreases |ts| - from
  {
    if from < a { FirstPairIsFirst(ts, from + 1, a, b); } else { OppositeIsFirst(ts, a, a + 1, b); }
  }

  lemma {:induction false} OppositeIsFirst(ts: seq<Term>, i: nat, j: nat, b: nat)
    requires i < |ts| && j <= b < |ts| && Opposite(ts[i], ts[b])
    ensures OppositeFrom(ts, i, j) <= b
    decreases |ts| - j
  {
    if j < b { OppositeIsFirst(ts, i, j + 1, b); }
  }

  /** What is left is a single term, or has no opposite terms, and the parts of no global id and of no global size. */
  lemma NothingLeftToFold(ts: seq<Term>, rewritten: bool)
    ensures AllTwoParts(Combinations())
    ensures var r := TermsOf(Simplify(Sum, Combinations(), ts, rewritten), ts);
            |r| == 1 ||
            ((forall a, b | 0 <= a < b < |r| :: !Opposite(r[a], r[b])) && forall w, d :: !Complete(r, w, d))
  {
    CombinationsHaveTwoParts();
    var cs := Combinations();
    SimplifyFinishes(Sum, cs, ts, rewritten);
    var r := TermsOf(Simplify(Sum, cs, ts, rewritten), ts);
    if |r| != 1 {
      forall w, d ensures !Complete(r, w, d) {
        PlaceInOrder(r, w, d);
        assert cs[Rank(w, d)] in cs;
      }
    }
  }
}
