/** Simplifying a list of signed register contents joined by one operation. */
module SignedSums {
  import opened Options
  import opened WorkItems

  /** What a register content is known to be; products of a group id and the local size are one content,
      also together with the offset or the local id. */
  datatype Kind =
    | LocalId(dim: Dim) | Offset(dim: Dim) | GroupSize(dim: Dim)
    | GroupSizeOffset(dim: Dim) | GroupSizeLocalId(dim: Dim)
    | NumGroups(dim: Dim) | GlobalId(dim: Dim) | GlobalSize(dim: Dim)
    | Other

  datatype Term = Term(value: string, kind: Kind, positive: bool)

  datatype Operation = Sum | AnotherOperation

  /** A work item: its ids, and the values of everything else by its text. */
  datatype Env = Env(local: Dim -> real, offset: Dim -> real, groupSize: Dim -> real, other: string -> real)

  /** A global id is group id times local size plus local id plus offset (section 3.2 of OpenCL 1.2). */
  function Meaning(t: Term, env: Env): real {
    match t.kind
    case LocalId(d) => env.local(d)
    case Offset(d) => env.offset(d)
    case GroupSize(d) => env.groupSize(d)
    case GroupSizeOffset(d) => env.groupSize(d) + env.offset(d)
    case GroupSizeLocalId(d) => env.groupSize(d) + env.local(d)
    case GlobalId(d) => env.groupSize(d) + env.local(d) + env.offset(d)
    case _ => env.other(t.value)
  }

  function Signed(t: Term, env: Env): real { if t.positive then Meaning(t, env) else -Meaning(t, env) }

  function Total(ts: seq<Term>, env: Env): real { if ts == [] then 0.0 else Signed(ts[0], env) + Total(ts[1..], env) }

  // ---- positions ----

  predicate Opposite(a: Term, b: Term) { a.kind == b.kind && a.value == b.value && a.positive != b.positive }

  /** The first position from `j` on whose term is opposite to that at `i`; the length if there is none. */
  function OppositeFrom(ts: seq<Term>, i: nat, j: nat): (r: nat)
    requires i < |ts| && j <= |ts|
    ensures j <= r <= |ts| && (r < |ts| ==> Opposite(ts[i], ts[r]))
    decreases |ts| - j
  {
    if j == |ts| || Opposite(ts[i], ts[j]) then j else OppositeFrom(ts, i, j + 1)
  }

  /** The first pair of opposite terms, by their positions. */
  function FirstOpposite(ts: seq<Term>, i: nat): (r: Option<(nat, nat)>)
    requires i <= |ts|
    ensures r.Some? ==> i <= r.value.0 < r.value.1 < |ts| && Opposite(ts[r.value.0], ts[r.value.1])
    decreases |ts| - i
  {
    if i == |ts| then None
    else if OppositeFrom(ts, i, i + 1) < |ts| then Some((i, OppositeFrom(ts, i, i + 1)))
    else FirstOpposite(ts, i + 1)
  }

  function FirstOfKind(ts: seq<Term>, k: Kind): (r: nat)
    ensures r <= |ts| && (r < |ts| ==> ts[r].kind == k)
  {
    if ts == [] || ts[0].kind == k then 0 else 1 + FirstOfKind(ts[1..], k)
  }

  /** The positions of the first terms of these kinds, or None if one kind is missing. */
  function PositionsOf(ts: seq<Term>, kinds: seq<Kind>): (r: Option<set<nat>>)
    ensures r.Some? ==> forall p | p in r.value :: p < |ts| && ts[p].kind in kinds
  {
    if kinds == [] then Some({})
    else if FirstOfKind(ts, kinds[0]) == |ts| then None
    else match PositionsOf(ts, kinds[1..]) case None => None case Some(r) => Some({FirstOfKind(ts, kinds[0])} + r)
  }

  /** The terms from `i` on that are not at one of the positions. */
  function Without(ts: seq<Term>, positions: set<nat>, i: nat): seq<Term>
    requires i <= |ts|
    decreases |ts| - i
  {
    if i == |ts| then [] else (if i in positions then [] else [ts[i]]) + Without(ts, positions, i + 1)
  }

  // ---- simplifying ----

  datatype Combination = Combination(parts: seq<Kind>, text: string, result: Kind)

  /** The combinations that are folded, in the order they are tried. */
  function Combinations(): seq<Combination> {
    [ Combination([Offset(X), LocalId(X), GroupSize(X)], "get_global_id(0)", GlobalId(X)),
      Combination([Offset(Y), LocalId(Y), GroupSize(Y)], "get_global_id(1)", GlobalId(Y)),
      Combination([Offset(Z), LocalId(Z), GroupSize(Z)], "get_global_id(2)", GlobalId(Z)),
      Combination([Offset(X), GroupSizeLocalId(X)], "get_global_id(0)", GlobalId(X)),
      Combination([Offset(Y), GroupSizeLocalId(Y)], "get_global_id(1)", GlobalId(Y)),
      Combination([Offset(Z), GroupSizeLocalId(Z)], "get_global_id(2)", GlobalId(Z)),
      Combination([LocalId(X), GroupSizeOffset(X)], "get_global_id(0)", GlobalId(X)),
      Combination([LocalId(Y), GroupSizeOffset(Y)], "get_global_id(1)", GlobalId(Y)),
      Combination([LocalId(Z), GroupSizeOffset(Z)], "get_global_id(2)", GlobalId(Z)),
      Combination([NumGroups(X), GroupSize(X)], "get_global_size(0)", GlobalSize(X)),
      Combination([NumGroups(Y), GroupSize(Y)], "get_global_size(1)", GlobalSize(Y)),
      Combination([NumGroups(Z), GroupSize(Z)], "get_global_size(2)", GlobalSize(Z)) ]
  }

  /** The first combination whose parts all occur. */
  function FirstCombination(ts: seq<Term>, cs: seq<Combination>): (r: Option<Combination>)
    ensures r.Some? ==> r.value in cs && PositionsOf(ts, r.value.parts).Some?
    ensures r.None? ==> forall c | c in cs :: PositionsOf(ts, c.parts).None?
  {
    if cs == [] then None
    else if PositionsOf(ts, cs[0].parts).Some? then Some(cs[0])
    else FirstCombination(ts, cs[1..])
  }

  function Folded(ts: seq<Term>, c: Combination): seq<Term>
    requires PositionsOf(ts, c.parts).Some?
  {
    Without(ts, PositionsOf(ts, c.parts).value, 0) + [Term(c.text, c.result, true)]
  }

  /** One rewriting, if there is one: opposite terms go, whatever the operation; in a sum, the parts of a
      combination become one term, whatever their signs. */
  function Rewrite(op: Operation, cs: seq<Combination>, ts: seq<Term>): Option<seq<Term>> {
    var pair := FirstOpposite(ts, 0);
    if pair.Some? then Some(Without(ts, {pair.value.0, pair.value.1}, 0))
    else if op.Sum? && FirstCombination(ts, cs).Some? then Some(Folded(ts, FirstCombination(ts, cs).value))
    else None
  }

  /** How many positions lie from `i` up to `n`. */
  function CountFrom(positions: set<nat>, i: nat, n: nat): nat
    requires i <= n
    decreases n - i
  {
    if i == n then 0 else (if i in positions then 1 else 0) + CountFrom(positions, i + 1, n)
  }

  lemma {:induction false} WithoutCount(ts: seq<Term>, positions: set<nat>, i: nat)
    requires i <= |ts|
    ensures |Without(ts, positions, i)| + CountFrom(positions, i, |ts|) == |ts| - i
    decreases |ts| - i
  {
    if i >= |ts| {
    } else {
      var front: seq<Term> := if i in positions then [] else [ts[i]];
      WithoutCount(ts, positions, i + 1);
      assert |Without(ts, positions, i)| == |front| + |Without(ts, positions, i + 1)|;
    }
  }

  lemma {:induction false} CountsOne(positions: set<nat>, i: nat, n: nat, p: nat)
    requires i <= p < n && p in positions
    ensures CountFrom(positions, i, n) >= 1
    decreases n - i
  {
    if i >= p {
    } else {
      CountsOne(positions, i + 1, n, p);
    }
  }

  lemma {:induction false} CountsTwo(positions: set<nat>, i: nat, n: nat, p: nat, q: nat)
    requires i <= p < q < n && p in positions && q in positions
    ensures CountFrom(positions, i, n) >= 2
    decreases n - i
  {
    if i < p { CountsTwo(positions, i + 1, n, p, q); } else { CountsOne(positions, i + 1, n, q); }
  }

  lemma WithoutTwo(ts: seq<Term>, positions: set<nat>, p: nat, q: nat)
    requires p < q < |ts| && p in positions && q in positions
    ensures |Without(ts, positions, 0)| <= |ts| - 2
  {
    WithoutCount(ts, positions, 0);
    CountsTwo(positions, 0, |ts|, p, q);
  }

  predicate TwoParts(c: Combination) { |c.parts| >= 2 && c.parts[0] != c.parts[1] }

  predicate AllTwoParts(cs: seq<Combination>) { forall c | c in cs :: TwoParts(c) }

  lemma CombinationsHaveTwoParts()
    ensures AllTwoParts(Combinations())
  {}

  lemma PartsAreTwo(ts: seq<Term>, c: Combination)
    requires TwoParts(c) && PositionsOf(ts, c.parts).Some?
    ensures var p, q := FirstOfKind(ts, c.parts[0]), FirstOfKind(ts, c.parts[1]);
            p < |ts| && q < |ts| && p != q && p in PositionsOf(ts, c.parts).value && q in PositionsOf(ts, c.parts).value
  {
    var rest := c.parts[1..];
    assert rest[0] == c.parts[1] && PositionsOf(ts, rest).Some?;
  }

  /** Every rewriting leaves fewer terms. */
  lemma RewriteShrinks(op: Operation, cs: seq<Combination>, ts: seq<Term>)
    requires AllTwoParts(cs) && Rewrite(op, cs, ts).Some?
    ensures |Rewrite(op, cs, ts).value| < |ts|
  {
    var pair := FirstOpposite(ts, 0);
    if pair.Some? {
      WithoutTwo(ts, {pair.value.0, pair.value.1}, pair.value.0, pair.value.1);
    } else {
      var c := FirstCombination(ts, cs).value;
      PartsAreTwo(ts, c);
      var p, q := FirstOfKind(ts, c.parts[0]), FirstOfKind(ts, c.parts[1]);
      var positions := PositionsOf(ts, c.parts).value;
      if p < q { WithoutTwo(ts, positions, p, q); } else { WithoutTwo(ts, positions, q, p); }
    }
  }

  datatype Outcome = Unchanged | Content(terms: seq<Term>) | Single(term: Term) | SizeIsNoList

  /** Rewrites as often as possible. A single term is taken out of the list; on a content that was not made
      by a rewriting this fails, because its size is not kept as a list. */
  function Simplify(op: Operation, cs: seq<Combination>, ts: seq<Term>, rewritten: bool): (o: Outcome)
    requires AllTwoParts(cs)
    ensures o.SizeIsNoList? <==> |ts| == 1 && !rewritten
    decreases |ts|
  {
    if |ts| == 1 then (if rewritten then Single(ts[0]) else SizeIsNoList)
    else if Rewrite(op, cs, ts).None? then Unchanged
    else
      RewriteShrinks(op, cs, ts);
      var next := Rewrite(op, cs, ts).value;
      match Simplify(op, cs, next, true)
      case Unchanged => Content(next)
      case result => result
  }

  function TermsOf(o: Outcome, ts: seq<Term>): seq<Term> {
    match o case Content(r) => r case Single(t) => [t] case _ => ts
  }

  // ---- what is kept ----

  /** The sum of the terms from `i` on at the positions. */
  function TotalAt(ts: seq<Term>, positions: set<nat>, i: nat, env: Env): real
    requires i <= |ts|
    decreases |ts| - i
  {
    if i == |ts| then 0.0 else (if i in positions then Signed(ts[i], env) else 0.0) + TotalAt(ts, positions, i + 1, env)
  }

  lemma {:induction false} TotalSplit(a: seq<Term>, b: seq<Term>, env: Env)
    ensures Total(a + b, env) == Total(a, env) + Total(b, env)
  {
    if a == [] { assert a + b == b; } else {
      assert (a + b)[1..] == a[1..] + b && (a + b)[0] == a[0];
      TotalSplit(a[1..], b, env);
    }
  }

  lemma TotalOne(t: Term, env: Env)
    ensures Total([t], env) == Signed(t, env)
  {
    assert [t][1..] == [];
  }

  lemma {:induction false} TotalWithout(ts: seq<Term>, positions: set<nat>, i: nat, env: Env)
    requires i <= |ts|
    ensures Total(Without(ts, positions, i), env) + TotalAt(ts, positions, i, env) == Total(ts[i..], env)
    decreases |ts| - i
  {
    if i >= |ts| {
    } else {
      TotalWithout(ts, positions, i + 1, env);
      assert ts[i..][0] == ts[i] && ts[i..][1..] == ts[i + 1..];
      if i !in positions {
        TotalSplit([ts[i]], Without(ts, positions, i + 1), env);
        TotalOne(ts[i], env);
      } else {
        assert [] + Without(ts, positions, i + 1) == Without(ts, positions, i + 1);
      }
    }
  }

  lemma {:induction false} TotalAtOneMore(ts: seq<Term>, positions: set<nat>, p: nat, i: nat, env: Env)
    requires i <= |ts| && p < |ts| && p !in positions
    ensures TotalAt(ts, positions + {p}, i, env)
         == TotalAt(ts, positions, i, env) + if i <= p then Signed(ts[p], env) else 0.0
    decreases |ts| - i
  {
    if i >= |ts| {
    } else {
      TotalAtOneMore(ts, positions, p, i + 1, env);
    }
  }

  lemma {:induction false} TotalAtNone(ts: seq<Term>, i: nat, env: Env)
    requires i <= |ts|
    ensures TotalAt(ts, {}, i, env) == 0.0
    decreases |ts| - i
  {
    if i >= |ts| {
    } else {
      TotalAtNone(ts, i + 1, env);
    }
  }

  /** Removing an opposite pair from a sum keeps it. */
  lemma OppositesVanish(ts: seq<Term>, i: nat, j: nat, env: Env)
    requires i < j < |ts| && Opposite(ts[i], ts[j])
    ensures Total(Without(ts, {i, j}, 0), env) == Total(ts, env)
  {
    TotalWithout(ts, {i, j}, 0, env);
    TotalAtNone(ts, 0, env);
    TotalAtOneMore(ts, {}, i, 0, env);
    TotalAtOneMore(ts, {i}, j, 0, env);
    assert {} + {i} == {i} && {i} + {j} == {i, j};
    assert ts[0..] == ts;
  }

  /** What the terms of these kinds are worth, each at its first position. */
  function PartsTotal(ts: seq<Term>, kinds: seq<Kind>, env: Env): real
    requires forall k | k in kinds :: FirstOfKind(ts, k) < |ts|
  {
    if kinds == [] then 0.0 else Signed(ts[FirstOfKind(ts, kinds[0])], env) + PartsTotal(ts, kinds[1..], env)
  }

  predicate AllDifferent(kinds: seq<Kind>) { forall a, b | 0 <= a < b < |kinds| :: kinds[a] != kinds[b] }

  lemma {:induction false} PartsAtPositions(ts: seq<Term>, kinds: seq<Kind>, env: Env)
    requires PositionsOf(ts, kinds).Some? && AllDifferent(kinds)
    ensures forall k | k in kinds :: FirstOfKind(ts, k) < |ts|
    ensures TotalAt(ts, PositionsOf(ts, kinds).value, 0, env) == PartsTotal(ts, kinds, env)
  {
    if kinds == [] {
      TotalAtNone(ts, 0, env);
    } else {
      PartsAtPositions(ts, kinds[1..], env);
      var p, rest := FirstOfKind(ts, kinds[0]), PositionsOf(ts, kinds[1..]).value;
      assert kinds[0] !in kinds[1..];
      assert forall q | q in rest :: ts[q].kind in kinds[1..];
      TotalAtOneMore(ts, rest, p, 0, env);
      assert {p} + rest == rest + {p};
    }
  }

  /** Folding changes the total by what the parts and the result differ. */
  lemma FoldedTotal(ts: seq<Term>, c: Combination, env: Env)
    requires PositionsOf(ts, c.parts).Some? && AllDifferent(c.parts)
    ensures forall k | k in c.parts :: FirstOfKind(ts, k) < |ts|
    ensures Total(Folded(ts, c), env)
         == Total(ts, env) - PartsTotal(ts, c.parts, env) + Meaning(Term(c.text, c.result, true), env)
  {
    var positions := PositionsOf(ts, c.parts).value;
    PartsAtPositions(ts, c.parts, env);
    TotalWithout(ts, positions, 0, env);
    TotalSplit(Without(ts, positions, 0), [Term(c.text, c.result, true)], env);
    TotalOne(Term(c.text, c.result, true), env);
    assert ts[0..] == ts;
  }

  /** The parts of a global id, in one of the three ways it is put together. */
  predicate MakesGlobalId(c: Combination) {
    c.result.GlobalId? &&
    var d := c.result.dim;
    || c.parts == [Offset(d), LocalId(d), GroupSize(d)]
    || c.parts == [Offset(d), GroupSizeLocalId(d)]
    || c.parts == [LocalId(d), GroupSizeOffset(d)]
  }

  /** All the folded terms are positive. */
  predicate PositiveParts(ts: seq<Term>, kinds: seq<Kind>) {
    forall k | k in kinds :: FirstOfKind(ts, k) < |ts| ==> ts[FirstOfKind(ts, k)].positive
  }

  /** One of each. */
  function OneOfEach(): Env { Env((d: Dim) => 1.0, (d: Dim) => 1.0, (d: Dim) => 1.0, (s: string) => 0.0) }

  /** Folding a global id keeps the sum for every work item exactly when all its parts are positive. */
  lemma FoldingIsExact(ts: seq<Term>, c: Combination)
    requires MakesGlobalId(c) && PositionsOf(ts, c.parts).Some?
    ensures (forall env: Env :: Total(Folded(ts, c), env) == Total(ts, env)) <==> PositiveParts(ts, c.parts)
  {
    if PositiveParts(ts, c.parts) {
      forall env: Env ensures Total(Folded(ts, c), env) == Total(ts, env) { PositiveFold(ts, c, env); }
    } else {
      NegativeFold(ts, c);
    }
  }

  predicate IsPart(k: Kind) { k.LocalId? || k.Offset? || k.GroupSize? || k.GroupSizeOffset? || k.GroupSizeLocalId? }

  /** What parts of these kinds are worth when they are added. */
  function Worth(kinds: seq<Kind>, env: Env): real {
    if kinds == [] then 0.0 else Meaning(Term("", kinds[0], true), env) + Worth(kinds[1..], env)
  }

  lemma WorthOfTwo(a: Kind, b: Kind, env: Env)
    ensures Worth([a, b], env) == Meaning(Term("", a, true), env) + Meaning(Term("", b, true), env)
  {
    assert [a, b][1..] == [b] && [b][1..] == [];
    assert Worth([b], env) == Meaning(Term("", b, true), env) + Worth([], env);
  }

  lemma WorthOfThree(a: Kind, b: Kind, c: Kind, env: Env)
    ensures Worth([a, b, c], env) == Meaning(Term("", a, true), env) + Worth([b, c], env)
  {
    assert [a, b, c][1..] == [b, c];
  }

  /** The parts of a global id are worth the global id. */
  lemma PartsMakeGlobalId(c: Combination, env: Env)
    requires MakesGlobalId(c)
    ensures Worth(c.parts, env) == Meaning(Term(c.text, c.result, true), env)
    ensures forall k | k in c.parts :: IsPart(k)
  {
    var d := c.result.dim;
    WorthOfTwo(LocalId(d), GroupSize(d), env);
    WorthOfThree(Offset(d), LocalId(d), GroupSize(d), env);
    WorthOfTwo(Offset(d), GroupSizeLocalId(d), env);
    WorthOfTwo(LocalId(d), GroupSizeOffset(d), env);
  }

  lemma {:induction false} PositivePartsWorth(ts: seq<Term>, kinds: seq<Kind>, env: Env)
    requires forall k | k in kinds :: FirstOfKind(ts, k) < |ts| && IsPart(k)
    requires PositiveParts(ts, kinds)
    ensures PartsTotal(ts, kinds, env) == Worth(kinds, env)
  {
    if kinds == [] {
    } else {
      PositivePartsWorth(ts, kinds[1..], env);
    }
  }

  lemma PositiveFold(ts: seq<Term>, c: Combination, env: Env)
    requires MakesGlobalId(c) && PositionsOf(ts, c.parts).Some? && PositiveParts(ts, c.parts)
    ensures Total(Folded(ts, c), env) == Total(ts, env)
  {
    FoldedTotal(ts, c, env);
    PartsMakeGlobalId(c, env);
    PositivePartsWorth(ts, c.parts, env);
  }

  lemma {:induction false} PartsWeigh(ts: seq<Term>, kinds: seq<Kind>)
    requires forall k | k in kinds :: FirstOfKind(ts, k) < |ts| && IsPart(k)
    ensures PartsTotal(ts, kinds, OneOfEach()) <= Worth(kinds, OneOfEach())
    ensures !PositiveParts(ts, kinds) ==> PartsTotal(ts, kinds, OneOfEach()) < Worth(kinds, OneOfEach())
  {
    if kinds == [] {
    } else {
      PartsWeigh(ts, kinds[1..]);
    }
  }

  lemma NegativeFold(ts: seq<Term>, c: Combination)
    requires MakesGlobalId(c) && PositionsOf(ts, c.parts).Some? && !PositiveParts(ts, c.parts)
    ensures Total(Folded(ts, c), OneOfEach()) > Total(ts, OneOfEach())
  {
    FoldedTotal(ts, c, OneOfEach());
    PartsMakeGlobalId(c, OneOfEach());
    PartsWeigh(ts, c.parts);
  }

  // ---- whole runs ----

  /** Parts of global ids are only added, and no number of groups occurs, which would be taken for a part
      of a global size. */
  predicate OnlyAdded(ts: seq<Term>) { forall t | t in ts :: (IsPart(t.kind) ==> t.positive) && !t.kind.NumGroups? }

  /** A combination makes a global id or takes a number of groups. */
  predicate KnownCombination(c: Combination) { MakesGlobalId(c) || (TwoParts(c) && c.parts[0].NumGroups?) }

  predicate AllKnown(cs: seq<Combination>) { forall c | c in cs :: KnownCombination(c) && TwoParts(c) }

  lemma CombinationsAreKnown()
    ensures AllKnown(Combinations())
  {}

  lemma PartsOccur(ts: seq<Term>, kinds: seq<Kind>, k: Kind)
    requires PositionsOf(ts, kinds).Some? && k in kinds
    ensures FirstOfKind(ts, k) < |ts|
  {
    if kinds[0] != k { PartsOccur(ts, kinds[1..], k); }
  }

  lemma NoGlobalSize(ts: seq<Term>, c: Combination)
    requires OnlyAdded(ts) && KnownCombination(c) && PositionsOf(ts, c.parts).Some?
    ensures MakesGlobalId(c) && PositiveParts(ts, c.parts)
  {
    if !MakesGlobalId(c) {
      PartsOccur(ts, c.parts, c.parts[0]);
    }
    forall q | q in c.parts && FirstOfKind(ts, q) < |ts| ensures MakesGlobalId(c) ==> ts[FirstOfKind(ts, q)].positive {
      assert ts[FirstOfKind(ts, q)] in ts;
    }
  }

  lemma {:induction false} WithoutMembers(ts: seq<Term>, positions: set<nat>, i: nat)
    requires i <= |ts|
    ensures forall t | t in Without(ts, positions, i) :: t in ts
    decreases |ts| - i
  {
    if i >= |ts| {
    } else {
      WithoutMembers(ts, positions, i + 1);
    }
  }

  lemma RewriteKeepsTotal(cs: seq<Combination>, ts: seq<Term>, env: Env)
    requires AllKnown(cs) && OnlyAdded(ts) && Rewrite(Sum, cs, ts).Some?
    ensures OnlyAdded(Rewrite(Sum, cs, ts).value) && Total(Rewrite(Sum, cs, ts).value, env) == Total(ts, env)
  {
    var pair := FirstOpposite(ts, 0);
    if pair.Some? {
      OppositesVanish(ts, pair.value.0, pair.value.1, env);
      WithoutMembers(ts, {pair.value.0, pair.value.1}, 0);
    } else {
      var c := FirstCombination(ts, cs).value;
      NoGlobalSize(ts, c);
      PositiveFold(ts, c, env);
      WithoutMembers(ts, PositionsOf(ts, c.parts).value, 0);
    }
  }

  lemma {:induction false} RunKeepsTotal(cs: seq<Combination>, ts: seq<Term>, rewritten: bool, env: Env)
    requires AllTwoParts(cs) && AllKnown(cs) && OnlyAdded(ts)
    ensures var o := Simplify(Sum, cs, ts, rewritten);
            Total(TermsOf(o, ts), env) == Total(ts, env) && (o.Content? ==> |o.terms| < |ts|)
    decreases |ts|
  {
    if |ts| != 1 && Rewrite(Sum, cs, ts).Some? {
      var next := Rewrite(Sum, cs, ts).value;
      RewriteKeepsTotal(cs, ts, env);
      RewriteShrinks(Sum, cs, ts);
      RunKeepsTotal(cs, next, true, env);
    }
  }

  /** Simplifying a sum whose global-id parts are only added ends with fewer terms and the same sum. */
  lemma SimplifyKeepsTotal(ts: seq<Term>, rewritten: bool, env: Env)
    requires OnlyAdded(ts)
    ensures AllTwoParts(Combinations())
    ensures var o := Simplify(Sum, Combinations(), ts, rewritten);
            Total(TermsOf(o, ts), env) == Total(ts, env) && (o.Content? ==> |o.terms| < |ts|)
  {
    CombinationsHaveTwoParts();
    CombinationsAreKnown();
    RunKeepsTotal(Combinations(), ts, rewritten, env);
  }

  // ---- exactly when the sum is kept ----

  predicate IsSizeText(s: string) {
    s == "get_global_size(0)" || s == "get_global_size(1)" || s == "get_global_size(2)"
  }

  /** The two parts of a global size. */
  predicate MakesGlobalSize(c: Combination) {
    c.result.GlobalSize? && IsSizeText(c.text) && c.parts == [NumGroups(c.result.dim), GroupSize(c.result.dim)]
  }

  predicate AllMake(cs: seq<Combination>) { forall c | c in cs :: MakesGlobalId(c) || MakesGlobalSize(c) }

  lemma CombinationsMake()
    ensures AllMake(Combinations())
  {}

  /** Numbers of groups are not called global sizes. */
  predicate NamedApart(ts: seq<Term>) { forall t | t in ts && t.kind.NumGroups? :: !IsSizeText(t.value) }

  /** Whatever is folded on the way is the parts of a global id, all of them added. */
  predicate FoldsAdd(cs: seq<Combination>, ts: seq<Term>)
    requires AllTwoParts(cs)
    decreases |ts|
  {
    |ts| == 1 || Rewrite(Sum, cs, ts).None? ||
    (RewriteShrinks(Sum, cs, ts); FoldAdds(cs, ts) && FoldsAdd(cs, Rewrite(Sum, cs, ts).value))
  }

  predicate FoldAdds(cs: seq<Combination>, ts: seq<Term>) {
    var found := FirstCombination(ts, cs);
    FirstOpposite(ts, 0).Some? || found.None? || (MakesGlobalId(found.value) && PositiveParts(ts, found.value.parts))
  }

  /** No global size is folded on the way. */
  predicate NoSizes(cs: seq<Combination>, ts: seq<Term>)
    requires AllTwoParts(cs)
    decreases |ts|
  {
    |ts| == 1 || Rewrite(Sum, cs, ts).None? ||
    (RewriteShrinks(Sum, cs, ts); NoSize(cs, ts) && NoSizes(cs, Rewrite(Sum, cs, ts).value))
  }

  predicate NoSize(cs: seq<Combination>, ts: seq<Term>) {
    var found := FirstCombination(ts, cs);
    FirstOpposite(ts, 0).Some? || found.None? || MakesGlobalId(found.value)
  }

  /** Nothing but global sizes counts. */
  function SizesOnly(): Env {
    Env((d: Dim) => 0.0, (d: Dim) => 0.0, (d: Dim) => 0.0, (s: string) => if IsSizeText(s) then 1.0 else 0.0)
  }

  lemma NamedApartStays(cs: seq<Combination>, ts: seq<Term>)
    requires AllMake(cs) && NamedApart(ts) && Rewrite(Sum, cs, ts).Some?
    ensures NamedApart(Rewrite(Sum, cs, ts).value)
  {
    var pair := FirstOpposite(ts, 0);
    if pair.Some? {
      WithoutMembers(ts, {pair.value.0, pair.value.1}, 0);
    } else {
      WithoutMembers(ts, PositionsOf(ts, FirstCombination(ts, cs).value.parts).value, 0);
    }
  }

  /** A global id is worth its parts there, and a global size one more than its parts. */
  lemma FoldCountsSizes(ts: seq<Term>, c: Combination)
    requires PositionsOf(ts, c.parts).Some? && NamedApart(ts) && (MakesGlobalId(c) || MakesGlobalSize(c))
    ensures Total(Folded(ts, c), SizesOnly())
         == Total(ts, SizesOnly()) + if MakesGlobalId(c) then 0.0 else 1.0
  {
    PartsAreParts(c);
    FoldedTotal(ts, c, SizesOnly());
    PartsAreNothing(ts, c.parts);
    ResultCounts(c);
  }

  lemma PartsAreParts(c: Combination)
    requires MakesGlobalId(c) || MakesGlobalSize(c)
    ensures AllDifferent(c.parts) && forall k | k in c.parts :: IsPart(k) || k.NumGroups?
  {}

  lemma ResultCounts(c: Combination)
    requires MakesGlobalId(c) || MakesGlobalSize(c)
    ensures Meaning(Term(c.text, c.result, true), SizesOnly()) == if MakesGlobalId(c) then 0.0 else 1.0
  {}

  lemma {:induction false} PartsAreNothing(ts: seq<Term>, kinds: seq<Kind>)
    requires NamedApart(ts) && forall k | k in kinds :: FirstOfKind(ts, k) < |ts| && (IsPart(k) || k.NumGroups?)
    ensures PartsTotal(ts, kinds, SizesOnly()) == 0.0
  {
    if kinds == [] {
    } else {
      assert ts[FirstOfKind(ts, kinds[0])] in ts;
      PartsAreNothing(ts, kinds[1..]);
    }
  }

  /** What one rewriting adds: nothing or more where each part counts, unless it makes a global size; and as many as it
      makes where only sizes count. */
  lemma RewriteAdds(cs: seq<Combination>, ts: seq<Term>)
    requires AllMake(cs) && NamedApart(ts) && Rewrite(Sum, cs, ts).Some?
    ensures var next := Rewrite(Sum, cs, ts).value;
            && (NoSize(cs, ts) ==> Total(next, OneOfEach()) >= Total(ts, OneOfEach()))
            && (NoSize(cs, ts) && !FoldAdds(cs, ts) ==> Total(next, OneOfEach()) > Total(ts, OneOfEach()))
            && Total(next, SizesOnly()) == Total(ts, SizesOnly()) + if NoSize(cs, ts) then 0.0 else 1.0
  {
    var pair := FirstOpposite(ts, 0);
    if pair.Some? {
      OppositesVanish(ts, pair.value.0, pair.value.1, OneOfEach());
      OppositesVanish(ts, pair.value.0, pair.value.1, SizesOnly());
    } else {
      var c := FirstCombination(ts, cs).value;
      FoldCountsSizes(ts, c);
      if MakesGlobalId(c) {
        if PositiveParts(ts, c.parts) { PositiveFold(ts, c, OneOfEach()); } else { NegativeFold(ts, c); }
      }
    }
  }

  lemma {:induction false} RunAdds(cs: seq<Combination>, ts: seq<Term>, rewritten: bool)
    requires AllTwoParts(cs) && AllMake(cs) && NamedApart(ts)
    ensures var r := TermsOf(Simplify(Sum, cs, ts, rewritten), ts);
            && (NoSizes(cs, ts) ==> Total(r, OneOfEach()) >= Total(ts, OneOfEach()))
            && (NoSizes(cs, ts) && !FoldsAdd(cs, ts) ==> Total(r, OneOfEach()) > Total(ts, OneOfEach()))
            && Total(r, SizesOnly()) >= Total(ts, SizesOnly())
            && (!NoSizes(cs, ts) ==> Total(r, SizesOnly()) > Total(ts, SizesOnly()))
    decreases |ts|
  {
    if |ts| == 1 || Rewrite(Sum, cs, ts).None? {
    } else {
      RewriteShrinks(Sum, cs, ts);
      RewriteAdds(cs, ts);
      NamedApartStays(cs, ts);
      RunAdds(cs, Rewrite(Sum, cs, ts).value, true);
    }
  }

  lemma {:induction false} AddingKeepsTotal(cs: seq<Combination>, ts: seq<Term>, rewritten: bool, env: Env)
    requires AllTwoParts(cs) && FoldsAdd(cs, ts)
    ensures Total(TermsOf(Simplify(Sum, cs, ts, rewritten), ts), env) == Total(ts, env)
    decreases |ts|
  {
    if |ts| == 1 || Rewrite(Sum, cs, ts).None? {
    } else {
      RewriteShrinks(Sum, cs, ts);
      var pair := FirstOpposite(ts, 0);
      if pair.Some? {
        OppositesVanish(ts, pair.value.0, pair.value.1, env);
      } else {
        PositiveFold(ts, FirstCombination(ts, cs).value, env);
      }
      AddingKeepsTotal(cs, Rewrite(Sum, cs, ts).value, true, env);
    }
  }

  /** Simplifying a sum keeps it for every work item exactly when all that is folded on the way is parts of global ids
      that are added. */
  lemma SumKeptExactly(ts: seq<Term>, rewritten: bool)
    requires NamedApart(ts)
    ensures AllTwoParts(Combinations())
    ensures var r := TermsOf(Simplify(Sum, Combinations(), ts, rewritten), ts);
            (forall env: Env :: Total(r, env) == Total(ts, env)) <==> FoldsAdd(Combinations(), ts)
  {
    CombinationsHaveTwoParts();
    CombinationsMake();
    var cs := Combinations();
    if FoldsAdd(cs, ts) {
      forall env: Env { AddingKeepsTotal(cs, ts, rewritten, env); }
    } else {
      RunAdds(cs, ts, rewritten);
      var env := if NoSizes(cs, ts) then OneOfEach() else SizesOnly();
      assert Total(TermsOf(Simplify(Sum, cs, ts, rewritten), ts), env) != Total(ts, env);
    }
  }

  /** In a product the opposite factors x and -x are dropped just as in a sum. */
  lemma ProductsLoseFactors(cs: seq<Combination>, x: string, y: string)
    requires x != y && AllTwoParts(cs)
    ensures Simplify(AnotherOperation, cs, [Term(x, Other, true), Term(x, Other, false), Term(y, Other, true)], false)
         == Single(Term(y, Other, true))
  {
    var a, b, c := Term(x, Other, true), Term(x, Other, false), Term(y, Other, true);
    var ts := [a, b, c];
    assert FirstOpposite(ts, 0) == Some((0, 1));
    assert Without(ts, {0, 1}, 3) == [] && Without(ts, {0, 1}, 2) == [c] && Without(ts, {0, 1}, 1) == [c];
    assert Without(ts, {0, 1}, 0) == [c];
    assert Simplify(AnotherOperation, cs, [c], true) == Single(c);
  }

  // ---- simplified to the end ----

  lemma {:induction false} NoneOpposite(ts: seq<Term>, i: nat, j: nat)
    requires i < |ts| && j <= |ts|
    ensures OppositeFrom(ts, i, j) == |ts| <==> forall k | j <= k < |ts| :: !Opposite(ts[i], ts[k])
    decreases |ts| - j
  {
    if j >= |ts| {
    } else {
      NoneOpposite(ts, i, j + 1);
    }
  }

  lemma {:induction false} NoPair(ts: seq<Term>, i: nat)
    requires i <= |ts|
    ensures FirstOpposite(ts, i).None? <==> forall a, b | i <= a < b < |ts| :: !Opposite(ts[a], ts[b])
    decreases |ts| - i
  {
    if i >= |ts| {
    } else {
      NoneOpposite(ts, i, i + 1);
      NoPair(ts, i + 1);
    }
  }

  /** No opposite terms, and in a sum no combination. */
  predicate Finished(op: Operation, cs: seq<Combination>, ts: seq<Term>) {
    && (forall a, b | 0 <= a < b < |ts| :: !Opposite(ts[a], ts[b]))
    && (op.Sum? ==> forall c | c in cs :: PositionsOf(ts, c.parts).None?)
  }

  lemma FinishedExactly(op: Operation, cs: seq<Combination>, ts: seq<Term>)
    ensures Finished(op, cs, ts) <==> Rewrite(op, cs, ts).None?
  {
    NoPair(ts, 0);
  }

  /** What is left is finished or a single term. */
  lemma {:induction false} SimplifyFinishes(op: Operation, cs: seq<Combination>, ts: seq<Term>, rewritten: bool)
    requires AllTwoParts(cs)
    ensures var r := TermsOf(Simplify(op, cs, ts, rewritten), ts); |r| == 1 || Finished(op, cs, r)
    decreases |ts|
  {
    FinishedExactly(op, cs, ts);
    if |ts| != 1 && Rewrite(op, cs, ts).Some? {
      var next := Rewrite(op, cs, ts).value;
      RewriteShrinks(op, cs, ts);
      SimplifyFinishes(op, cs, next, true);
    }
  }

  // ---- products ----

  /** What the terms are worth when they are multiplied. */
  function Product(ts: seq<Term>, env: Env): real {
    if ts == [] then 1.0 else Signed(ts[0], env) * Product(ts[1..], env)
  }

  /** Two of each. */
  function TwoOfEach(): Env { Env((d: Dim) => 2.0, (d: Dim) => 2.0, (d: Dim) => 2.0, (s: string) => 2.0) }

  /** One of each, and one of everything else. */
  function OneOfAll(): Env { Env((d: Dim) => 1.0, (d: Dim) => 1.0, (d: Dim) => 1.0, (s: string) => 1.0) }

  function Doublings(n: nat): (r: real)
    ensures r >= 1.0
  {
    if n == 0 then 1.0 else 2.0 * Doublings(n - 1)
  }

  lemma {:induction false} DoublingsGrow(n: nat, m: nat)
    requires n < m
    ensures Doublings(n) < Doublings(m)
    decreases m
  {
    if n < m - 1 { DoublingsGrow(n, m - 1); }
  }

  lemma NonzeroProduct(x: real, y: real)
    requires x != 0.0 && y != 0.0
    ensures x * y != 0.0
  {}

  lemma TermTwice(t: Term)
    ensures Signed(t, TwoOfEach()) == 2.0 * Signed(t, OneOfAll()) && Signed(t, OneOfAll()) != 0.0
  {}

  predicate IsTimes(r: real, x: real, y: real) { r == x * y }

  lemma ProductUnfolds(ts: seq<Term>, env: Env)
    requires ts != []
    ensures IsTimes(Product(ts, env), Signed(ts[0], env), Product(ts[1..], env))
  {}

  lemma TwiceStep(p1: real, s1: real, r1: real, p2: real, s2: real, r2: real, k: real)
    requires IsTimes(p1, s1, r1) && IsTimes(p2, s2, r2) && s2 == 2.0 * s1 && IsTimes(r2, k, r1)
    requires s1 != 0.0 && r1 != 0.0
    ensures IsTimes(p2, 2.0 * k, p1) && p1 != 0.0
  {
    NonzeroProduct(s1, r1);
    assert p2 == 2.0 * s1 * (k * r1) == 2.0 * k * (s1 * r1);
  }

  /** Doubling everything doubles a product once for each factor. */
  lemma {:induction false} ProductTwice(ts: seq<Term>)
    ensures IsTimes(Product(ts, TwoOfEach()), Doublings(|ts|), Product(ts, OneOfAll()))
    ensures Product(ts, OneOfAll()) != 0.0
  {
    if ts == [] {
    } else {
      var one, two := OneOfAll(), TwoOfEach();
      ProductTwice(ts[1..]);
      TermTwice(ts[0]);
      ProductUnfolds(ts, one);
      ProductUnfolds(ts, two);
      TwiceStep(Product(ts, one), Signed(ts[0], one), Product(ts[1..], one),
                Product(ts, two), Signed(ts[0], two), Product(ts[1..], two), Doublings(|ts| - 1));
    }
  }

  lemma DifferentMultiples(a: real, b: real, c: real, p: real, q: real)
    requires a < b && c != 0.0 && IsTimes(p, a, c) && IsTimes(q, b, c)
    ensures p != q
  {
    NonzeroProduct(b - a, c);
    assert q - p == (b - a) * c;
  }

  /** Products of different lengths differ, for all or for double of it. */
  lemma LengthsTell(a: seq<Term>, b: seq<Term>)
    requires |a| < |b|
    ensures Product(a, OneOfAll()) != Product(b, OneOfAll()) || Product(a, TwoOfEach()) != Product(b, TwoOfEach())
  {
    var c := Product(b, OneOfAll());
    ProductTwice(a);
    ProductTwice(b);
    DoublingsGrow(|a|, |b|);
    if Product(a, OneOfAll()) == c {
      DifferentMultiples(Doublings(|a|), Doublings(|b|), c, Product(a, TwoOfEach()), Product(b, TwoOfEach()));
    }
  }

  lemma {:induction false} SimplifiedIsShorter(op: Operation, cs: seq<Combination>, ts: seq<Term>, rewritten: bool)
    requires AllTwoParts(cs)
    ensures var r := TermsOf(Simplify(op, cs, ts, rewritten), ts);
            |r| <= |ts| && (Rewrite(op, cs, ts).Some? && |ts| != 1 ==> |r| < |ts|)
    decreases |ts|
  {
    if |ts| != 1 && Rewrite(op, cs, ts).Some? {
      RewriteShrinks(op, cs, ts);
      SimplifiedIsShorter(op, cs, Rewrite(op, cs, ts).value, true);
    }
  }

  /** Simplifying a product keeps it under every valuation exactly when no two factors are opposite. */
  lemma ProductKeptExactly(cs: seq<Combination>, ts: seq<Term>, rewritten: bool)
    requires AllTwoParts(cs)
    ensures var r := TermsOf(Simplify(AnotherOperation, cs, ts, rewritten), ts);
            (forall env: Env :: Product(r, env) == Product(ts, env))
            <==> (forall a, b | 0 <= a < b < |ts| :: !Opposite(ts[a], ts[b]))
  {
    var r := TermsOf(Simplify(AnotherOperation, cs, ts, rewritten), ts);
    FinishedExactly(AnotherOperation, cs, ts);
    if |ts| == 1 {
      assert r == ts;
    } else if Rewrite(AnotherOperation, cs, ts).Some? {
      SimplifiedIsShorter(AnotherOperation, cs, ts, rewritten);
      LengthsTell(r, ts);
      var env := if Product(r, OneOfAll()) != Product(ts, OneOfAll()) then OneOfAll() else TwoOfEach();
      assert Product(r, env) != Product(ts, env);
    }
  }
}
