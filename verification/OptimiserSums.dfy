/** Which terms an optimised sum is made of, and in which order. */
module OptimiserSums {
  import opened Options
  import opened Operators
  import opened Cancellation
  import opened Expressions
  import opened SumTerms
  import opened OptimiserGuards
  import opened OptimiserResults
  import opened WorkItems

  // ---- terms in order ----

  /** `a` is what is left of `b` after some terms were taken out. */
  predicate LeftOf(a: Terms, b: Terms)
    decreases b
  {
    if b == [] then a == [] else (a != [] && a[0] == b[0] && LeftOf(a[1..], b[1..])) || LeftOf(a, b[1..])
  }

  lemma {:induction false} AllLeft(a: Terms)
    ensures LeftOf(a, a)
  {
    if a == [] {
    } else {
      AllLeft(a[1..]);
    }
  }

  lemma {:induction false} RemovedIsLeft(a: Terms, b: Terms, i: nat)
    requires LeftOf(a, b) && i < |a|
    ensures LeftOf(RemoveAt(a, i), b)
    decreases b
  {
    if a[0] == b[0] && LeftOf(a[1..], b[1..]) {
      RemovedTail(a, i);
      if i == 0 {
      } else {
        RemovedIsLeft(a[1..], b[1..], i - 1);
      }
    } else {
      RemovedIsLeft(a, b[1..], i);
    }
  }

  lemma {:induction false} LeftMembers(a: Terms, b: Terms)
    requires LeftOf(a, b)
    ensures |a| <= |b| && forall t | t in a :: t in b
    decreases b
  {
    if b == [] {
    } else if a != [] && a[0] == b[0] && LeftOf(a[1..], b[1..]) {
      LeftMembers(a[1..], b[1..]);
      assert a == [a[0]] + a[1..];
    } else {
      LeftMembers(a, b[1..]);
    }
  }

  // ---- folding global ids and global sizes ----

  function Made(work: Work, id: nat): Term<Node> { Term(WorkItem(id, UINT, work), true) }

  /** Work-item functions of one kind, added, with the numbers from `from` up to `next`. */
  function Copies(work: Work, from: nat, next: nat): (ts: Terms)
    requires from <= next
    ensures |ts| == next - from
    decreases next
  {
    if from == next then [] else Copies(work, from, next - 1) + [Made(work, next - 1)]
  }

  lemma {:induction false} CopiesAre(work: Work, from: nat, next: nat)
    requires from <= next
    ensures forall t | t in Copies(work, from, next) :: t.item.WorkItem? && t.item.work == work
    decreases next
  {
    if from < next { CopiesAre(work, from, next - 1); }
  }

  predicate GlobalWork(work: Work) { work.GlobalId? || work.GlobalSize? }

  lemma {:induction false} SelectSplit(a: Terms, b: Terms, p: Part, d: Dim)
    requires forall t | t in b :: !IsPart(t, p, d)
    ensures Select(a + b, p, d) == Select(a, p, d)
  {
    if a == [] {
      assert a + b == b;
      NoneSelected(b, p, d);
    } else {
      assert (a + b)[1..] == a[1..] + b && (a + b)[0] == a[0];
      SelectSplit(a[1..], b, p, d);
    }
  }

  /** A term that is there is dropped in front of what was added. */
  lemma {:induction false} DropInFront(a: Terms, b: Terms, t: Term<Node>)
    requires t in a
    ensures Find(a, t) < |a| && Drop(a + b, t) == Drop(a, t) + b
  {
    FindInFront(a, b, t);
  }

  lemma {:induction false} FindInFront(a: Terms, b: Terms, t: Term<Node>)
    requires t in a
    ensures Find(a + b, t) == Find(a, t)
  {
    if a[0] != t {
      assert (a + b)[1..] == a[1..] + b;
      FindInFront(a[1..], b, t);
    } else {
      assert (a + b)[0] == t;
    }
  }

  /** The first of one part is dropped from what is left, and the rest of it stays. */
  lemma DropPart(start: Terms, rest: Terms, made: Terms, p: Part, d: Dim)
    requires LeftOf(rest, start) && Select(rest, p, d) != []
    requires forall t | t in made :: t.item.WorkItem? && GlobalWork(t.item.work)
    ensures var t := Select(rest, p, d)[0];
            && Select(rest + made, p, d) == Select(rest, p, d)
            && t in rest && Drop(rest + made, t) == Drop(rest, t) + made
            && LeftOf(Drop(rest, t), start) && |Drop(rest, t)| == |rest| - 1
            && Select(Drop(rest, t), p, d) == Select(rest, p, d)[1..]
            && forall q: Part | q != p :: Select(Drop(rest, t), q, d) == Select(rest, q, d)
  {
    var t := Select(rest, p, d)[0];
    PartDropped(rest, t, p, d);
    DropInFront(rest, made, t);
    RemovedIsLeft(rest, start, Find(rest, t));
    SelectSplit(rest, made, p, d);
  }

  function Least(a: nat, b: nat): nat { if a < b then a else b }

  lemma Later(l: Terms, k: nat)
    requires k < |l|
    ensures l[1..][k..] == l[k + 1..]
  {}

  /** How often a global id is folded. */
  function Rounds(ts: Terms, d: Dim): nat {
    Least(|Select(ts, LocalPart, d)|, Least(|Select(ts, OffsetPart, d)|, |Select(ts, GroupPart, d)|))
  }

  /** `end` is `rest` without `k` of each part, the first ones. */
  predicate WithoutIds(rest: Terms, end: Terms, d: Dim, k: nat) {
    && |end| + 3 * k == |rest| && k <= Rounds(rest, d)
    && Select(end, LocalPart, d) == Select(rest, LocalPart, d)[k..]
    && Select(end, OffsetPart, d) == Select(rest, OffsetPart, d)[k..]
    && Select(end, GroupPart, d) == Select(rest, GroupPart, d)[k..]
  }

  predicate IdsGive(ts: Terms, d: Dim, next: nat, result: (Terms, nat)) { GlobalIds(ts, d, next) == result }

  lemma Regroup(a: Terms, b: Terms, c: Terms)
    ensures a + b + c == a + (b + c)
  {}

  /** One turn of the folding. */
  lemma IdTurn(ts: Terms, l: Terms, o: Terms, g: Terms, after: Terms, d: Dim, next: nat, result: (Terms, nat))
    requires Selects(ts, d, l, o, g) && l != [] && o != [] && g != [] && IdsGive(ts, d, next, result)
    requires l[0] in ts && o[0] in Drop(ts, l[0]) && g[0] in Drop(Drop(ts, l[0]), o[0])
    requires after == Drop(Drop(Drop(ts, l[0]), o[0]), g[0])
    ensures IdsGive(after + [Made(GlobalId(d), next)], d, next + 1, result)
  {
    FoldRound(ts, l, o, g, WorkItem(next, UINT, GlobalId(d)), d);
  }

  /** One of each part is dropped from what is left. */
  lemma DropThree(start: Terms, rest: Terms, made: Terms, d: Dim) returns (c: Terms, l: Terms, o: Terms, g: Terms)
    requires LeftOf(rest, start) && Rounds(rest, d) > 0
    requires forall t | t in made :: t.item.WorkItem? && GlobalWork(t.item.work)
    ensures LeftOf(c, start) && WithoutIds(rest, c, d, 1)
    ensures Selects(rest + made, d, l, o, g) && l != [] && o != [] && g != []
    ensures l[0] in rest + made && o[0] in Drop(rest + made, l[0]) && g[0] in Drop(Drop(rest + made, l[0]), o[0])
    ensures c + made == Drop(Drop(Drop(rest + made, l[0]), o[0]), g[0])
  {
    l, o, g := Select(rest, LocalPart, d), Select(rest, OffsetPart, d), Select(rest, GroupPart, d);
    SelectSplit(rest, made, LocalPart, d);
    SelectSplit(rest, made, OffsetPart, d);
    SelectSplit(rest, made, GroupPart, d);
    DropPart(start, rest, made, LocalPart, d);
    var a := Drop(rest, l[0]);
    DropPart(start, a, made, OffsetPart, d);
    var b := Drop(a, o[0]);
    DropPart(start, b, made, GroupPart, d);
    c := Drop(b, g[0]);
  }

  lemma IdRound(start: Terms, rest: Terms, made: Terms, d: Dim, next: nat, result: (Terms, nat)) returns (c: Terms)
    requires LeftOf(rest, start) && Rounds(rest, d) > 0 && IdsGive(rest + made, d, next, result)
    requires forall t | t in made :: t.item.WorkItem? && GlobalWork(t.item.work)
    ensures LeftOf(c, start) && WithoutIds(rest, c, d, 1)
    ensures IdsGive(c + (made + [Made(GlobalId(d), next)]), d, next + 1, result)
  {
    var l, o, g;
    c, l, o, g := DropThree(start, rest, made, d);
    IdTurn(rest + made, l, o, g, c + made, d, next, result);
    Regroup(c, made, [Made(GlobalId(d), next)]);
  }

  lemma NoIdRound(rest: Terms, made: Terms, d: Dim, next: nat, result: (Terms, nat))
    requires Rounds(rest, d) == 0 && IdsGive(rest + made, d, next, result)
    requires forall t | t in made :: t.item.WorkItem? && GlobalWork(t.item.work)
    ensures WithoutIds(rest, rest, d, 0) && result == (rest + made, next)
  {
    SelectSplit(rest, made, LocalPart, d);
    SelectSplit(rest, made, OffsetPart, d);
    SelectSplit(rest, made, GroupPart, d);
  }

  lemma OneMoreOut(rest: Terms, c: Terms, end: Terms, d: Dim)
    requires Rounds(rest, d) > 0 && WithoutIds(rest, c, d, 1) && WithoutIds(c, end, d, Rounds(c, d))
    ensures Rounds(rest, d) == Rounds(c, d) + 1 && WithoutIds(rest, end, d, Rounds(rest, d))
  {
    Later(Select(rest, LocalPart, d), Rounds(c, d));
    Later(Select(rest, OffsetPart, d), Rounds(c, d));
    Later(Select(rest, GroupPart, d), Rounds(c, d));
  }

  lemma {:induction false} IdsInOrder(start: Terms, rest: Terms, made: Terms, d: Dim, from: nat, next: nat,
                                      result: (Terms, nat)) returns (end: Terms)
    requires from <= next && made == Copies(GlobalId(d), from, next)
    requires LeftOf(rest, start) && IdsGive(rest + made, d, next, result)
    ensures LeftOf(end, start) && WithoutIds(rest, end, d, Rounds(rest, d))
    ensures result == (end + Copies(GlobalId(d), from, next + Rounds(rest, d)), next + Rounds(rest, d))
    decreases |rest|, 1
  {
    CopiesAre(GlobalId(d), from, next);
    if Rounds(rest, d) == 0 {
      NoIdRound(rest, made, d, next, result);
      end := rest;
    } else {
      end := IdsGoOn(start, rest, made, d, from, next, result);
    }
  }

  lemma {:induction false} IdsGoOn(start: Terms, rest: Terms, made: Terms, d: Dim, from: nat, next: nat,
                                   result: (Terms, nat)) returns (end: Terms)
    requires from <= next && made == Copies(GlobalId(d), from, next) && Rounds(rest, d) > 0
    requires forall t | t in made :: t.item.WorkItem? && GlobalWork(t.item.work)
    requires LeftOf(rest, start) && IdsGive(rest + made, d, next, result)
    ensures LeftOf(end, start) && WithoutIds(rest, end, d, Rounds(rest, d))
    ensures result == (end + Copies(GlobalId(d), from, next + Rounds(rest, d)), next + Rounds(rest, d))
    decreases |rest|, 0
  {
    var c := IdRound(start, rest, made, d, next, result);
    end := IdsInOrder(start, c, made + [Made(GlobalId(d), next)], d, from, next + 1, result);
    OneMoreOut(rest, c, end, d);
  }

  /** As many global ids come in as there are of each of their parts; they stand at the end, and in front of them is
      what is left without the first ones of each part, in order. */
  lemma GlobalIdsExactly(ts: Terms, d: Dim, next: nat) returns (rest: Terms)
    ensures LeftOf(rest, ts) && WithoutIds(ts, rest, d, Rounds(ts, d))
    ensures GlobalIds(ts, d, next) == (rest + Copies(GlobalId(d), next, next + Rounds(ts, d)), next + Rounds(ts, d))
  {
    AllLeft(ts);
    assert ts + [] == ts;
    rest := IdsInOrder(ts, ts, [], d, next, next, GlobalIds(ts, d, next));
  }

  function SizeRounds(ts: Terms, d: Dim, size: int): nat {
    Least(|Select(ts, CountPart(size), d)|, |Select(ts, GroupPart, d)|)
  }

  predicate WithoutSizes(rest: Terms, end: Terms, d: Dim, size: int, k: nat) {
    && |end| + 2 * k == |rest| && k <= SizeRounds(rest, d, size)
    && Select(end, CountPart(size), d) == Select(rest, CountPart(size), d)[k..]
    && Select(end, GroupPart, d) == Select(rest, GroupPart, d)[k..]
  }

  predicate SizesGive(ts: Terms, d: Dim, size: int, next: nat, result: (Terms, nat)) {
    GlobalSizes(ts, d, size, next) == result
  }

  lemma CountRound(start: Terms, rest: Terms, made: Terms, d: Dim, size: int, next: nat,
                   result: (Terms, nat)) returns (b: Terms)
    requires LeftOf(rest, start) && SizeRounds(rest, d, size) > 0 && SizesGive(rest + made, d, size, next, result)
    requires forall t | t in made :: t.item.WorkItem? && GlobalWork(t.item.work)
    ensures LeftOf(b, start) && WithoutSizes(rest, b, d, size, 1)
    ensures SizesGive(b + (made + [Made(GlobalSize(d), next)]), d, size, next + 1, result)
  {
    var c, g := Select(rest, CountPart(size), d), Select(rest, GroupPart, d);
    SelectSplit(rest, made, CountPart(size), d);
    SelectSplit(rest, made, GroupPart, d);
    DropPart(start, rest, made, CountPart(size), d);
    var a := Drop(rest, c[0]);
    DropPart(start, a, made, GroupPart, d);
    b := Drop(a, g[0]);
    assert b + made + [Made(GlobalSize(d), next)] == b + (made + [Made(GlobalSize(d), next)]);
  }

  lemma NoCountRound(rest: Terms, made: Terms, d: Dim, size: int, next: nat, result: (Terms, nat))
    requires SizeRounds(rest, d, size) == 0 && SizesGive(rest + made, d, size, next, result)
    requires forall t | t in made :: t.item.WorkItem? && GlobalWork(t.item.work)
    ensures WithoutSizes(rest, rest, d, size, 0) && result == (rest + made, next)
  {
    SelectSplit(rest, made, CountPart(size), d);
    SelectSplit(rest, made, GroupPart, d);
  }

  lemma OneMoreCount(rest: Terms, b: Terms, end: Terms, d: Dim, size: int)
    requires SizeRounds(rest, d, size) > 0
    requires WithoutSizes(rest, b, d, size, 1) && WithoutSizes(b, end, d, size, SizeRounds(b, d, size))
    ensures SizeRounds(rest, d, size) == SizeRounds(b, d, size) + 1
    ensures WithoutSizes(rest, end, d, size, SizeRounds(rest, d, size))
  {
    Later(Select(rest, CountPart(size), d), SizeRounds(b, d, size));
    Later(Select(rest, GroupPart, d), SizeRounds(b, d, size));
  }

  lemma {:induction false} SizesInOrder(start: Terms, rest: Terms, made: Terms, d: Dim, size: int, from: nat,
                                        next: nat, result: (Terms, nat)) returns (end: Terms)
    requires from <= next && made == Copies(GlobalSize(d), from, next)
    requires LeftOf(rest, start) && SizesGive(rest + made, d, size, next, result)
    ensures LeftOf(end, start) && WithoutSizes(rest, end, d, size, SizeRounds(rest, d, size))
    ensures var k := SizeRounds(rest, d, size); result == (end + Copies(GlobalSize(d), from, next + k), next + k)
    decreases |rest|, 1
  {
    CopiesAre(GlobalSize(d), from, next);
    if SizeRounds(rest, d, size) == 0 {
      NoCountRound(rest, made, d, size, next, result);
      end := rest;
    } else {
      end := SizesGoOn(start, rest, made, d, size, from, next, result);
    }
  }

  lemma {:induction false} SizesGoOn(start: Terms, rest: Terms, made: Terms, d: Dim, size: int, from: nat, next: nat,
                                     result: (Terms, nat)) returns (end: Terms)
    requires from <= next && made == Copies(GlobalSize(d), from, next) && SizeRounds(rest, d, size) > 0
    requires forall t | t in made :: t.item.WorkItem? && GlobalWork(t.item.work)
    requires LeftOf(rest, start) && SizesGive(rest + made, d, size, next, result)
    ensures LeftOf(end, start) && WithoutSizes(rest, end, d, size, SizeRounds(rest, d, size))
    ensures var k := SizeRounds(rest, d, size); result == (end + Copies(GlobalSize(d), from, next + k), next + k)
    decreases |rest|, 0
  {
    var b := CountRound(start, rest, made, d, size, next, result);
    end := SizesInOrder(start, b, made + [Made(GlobalSize(d), next)], d, size, from, next + 1, result);
    OneMoreCount(rest, b, end, d, size);
  }

  /** The same for global sizes and their two parts. */
  lemma GlobalSizesExactly(ts: Terms, d: Dim, size: int, next: nat) returns (rest: Terms)
    ensures LeftOf(rest, ts) && WithoutSizes(ts, rest, d, size, SizeRounds(ts, d, size))
    ensures GlobalSizes(ts, d, size, next)
         == (rest + Copies(GlobalSize(d), next, next + SizeRounds(ts, d, size)), next + SizeRounds(ts, d, size))
  {
    AllLeft(ts);
    assert ts + [] == ts;
    rest := SizesInOrder(ts, ts, [], d, size, next, next, GlobalSizes(ts, d, size, next));
  }

  // ---- nothing is left to fold ----

  /** Whatever is there was there, or is a global id or size, or a constant. */
  predicate OnlyGlobals(result: Terms, ts: Terms) {
    forall t | t in result :: t in ts || (t.item.WorkItem? && GlobalWork(t.item.work)) || t.item.Const?
  }

  lemma StaysEmpty(result: Terms, ts: Terms, p: Part, d: Dim)
    requires OnlyGlobals(result, ts) && Select(ts, p, d) == []
    ensures Select(result, p, d) == []
  {
    forall t | t in result ensures !IsPart(t, p, d) { if t in ts { NotSelected(ts, t, p, d); } }
    NoneSelected(result, p, d);
  }

  lemma {:induction false} NotSelected(ts: Terms, t: Term<Node>, p: Part, d: Dim)
    requires t in ts && Select(ts, p, d) == []
    ensures !IsPart(t, p, d)
  {
    if t != ts[0] { NotSelected(ts[1..], t, p, d); }
  }

  /** One of the three parts of a global id has run out, and one of the two parts of a global size of known size. */
  predicate Exhausted(ts: Terms, d: Dim, sizes: seq<int>) {
    && (Select(ts, LocalPart, d) == [] || Select(ts, OffsetPart, d) == [] || Select(ts, GroupPart, d) == [])
    && (Index(d) < |sizes| ==> Select(ts, CountPart(sizes[Index(d)]), d) == [] || Select(ts, GroupPart, d) == [])
  }

  lemma StaysExhausted(result: Terms, ts: Terms, d: Dim, sizes: seq<int>)
    requires OnlyGlobals(result, ts) && Exhausted(ts, d, sizes)
    ensures Exhausted(result, d, sizes)
  {
    if Select(ts, LocalPart, d) == [] { StaysEmpty(result, ts, LocalPart, d); }
    if Select(ts, OffsetPart, d) == [] { StaysEmpty(result, ts, OffsetPart, d); }
    if Select(ts, GroupPart, d) == [] { StaysEmpty(result, ts, GroupPart, d); }
    if Index(d) < |sizes| && Select(ts, CountPart(sizes[Index(d)]), d) == [] {
      StaysEmpty(result, ts, CountPart(sizes[Index(d)]), d);
    }
  }

  lemma AddedAreOnlyGlobals(rest: Terms, work: Work, from: nat, next: nat, ts: Terms)
    requires from <= next && LeftOf(rest, ts) && GlobalWork(work)
    ensures OnlyGlobals(rest + Copies(work, from, next), ts)
    ensures forall p: Part, d: Dim :: Select(rest + Copies(work, from, next), p, d) == Select(rest, p, d)
  {
    LeftMembers(rest, ts);
    CopiesAre(work, from, next);
    forall p: Part, d: Dim ensures Select(rest + Copies(work, from, next), p, d) == Select(rest, p, d) {
      SelectSplit(rest, Copies(work, from, next), p, d);
    }
  }

  lemma OneIdPartIsOut(ts: Terms, rest: Terms, d: Dim)
    requires WithoutIds(ts, rest, d, Rounds(ts, d))
    ensures Exhausted(rest, d, [])
  {}

  lemma OneSizePartIsOut(ts: Terms, rest: Terms, d: Dim, size: int)
    requires WithoutSizes(ts, rest, d, size, SizeRounds(ts, d, size))
    ensures Select(rest, CountPart(size), d) == [] || Select(rest, GroupPart, d) == []
  {}

  lemma RestIsOut(ts: Terms, rest: Terms, d: Dim, from: nat, next: nat)
    requires from <= next && LeftOf(rest, ts) && WithoutIds(ts, rest, d, Rounds(ts, d))
    ensures var r := rest + Copies(GlobalId(d), from, next); OnlyGlobals(r, ts) && Exhausted(r, d, [])
  {
    OneIdPartIsOut(ts, rest, d);
    AddedAreOnlyGlobals(rest, GlobalId(d), from, next, ts);
  }

  lemma RestHasNoSize(ts: Terms, rest: Terms, d: Dim, size: int, from: nat, next: nat)
    requires from <= next && LeftOf(rest, ts) && WithoutSizes(ts, rest, d, size, SizeRounds(ts, d, size))
    ensures var r := rest + Copies(GlobalSize(d), from, next);
            OnlyGlobals(r, ts) && (Select(r, CountPart(size), d) == [] || Select(r, GroupPart, d) == [])
  {
    OneSizePartIsOut(ts, rest, d, size);
    AddedAreOnlyGlobals(rest, GlobalSize(d), from, next, ts);
  }

  lemma IdsRunOut(ts: Terms, d: Dim, next: nat, result: (Terms, nat))
    requires IdsGive(ts, d, next, result)
    ensures OnlyGlobals(result.0, ts) && Exhausted(result.0, d, [])
  {
    var rest := GlobalIdsExactly(ts, d, next);
    RestIsOut(ts, rest, d, next, next + Rounds(ts, d));
  }

  lemma SizesRunOut(ts: Terms, d: Dim, size: int, next: nat, result: (Terms, nat))
    requires SizesGive(ts, d, size, next, result)
    ensures OnlyGlobals(result.0, ts)
    ensures Select(result.0, CountPart(size), d) == [] || Select(result.0, GroupPart, d) == []
  {
    var rest := GlobalSizesExactly(ts, d, size, next);
    RestHasNoSize(ts, rest, d, size, next, next + SizeRounds(ts, d, size));
  }

  lemma DimensionExhausts(ts: Terms, d: Dim, sizes: seq<int>, next: nat)
    ensures var r := InDimension(ts, d, sizes, next).0; OnlyGlobals(r, ts) && Exhausted(r, d, sizes)
  {
    var (ids, n) := GlobalIds(ts, d, next);
    IdsRunOut(ts, d, next, (ids, n));
    if Index(d) < |sizes| {
      var (r, k) := GlobalSizes(ids, d, sizes[Index(d)], n);
      SizesRunOut(ids, d, sizes[Index(d)], n, (r, k));
      StaysExhausted(r, ids, d, []);
    }
  }

  lemma DimensionsExhaust(ts: Terms, sizes: seq<int>, next: nat)
    ensures var r := InDimensions(ts, sizes, next).0; OnlyGlobals(r, ts) && forall d: Dim :: Exhausted(r, d, sizes)
  {
    var (a, n) := InDimension(ts, X, sizes, next);
    DimensionExhausts(ts, X, sizes, next);
    var (b, k) := InDimension(a, Y, sizes, n);
    DimensionExhausts(a, Y, sizes, n);
    StaysExhausted(b, a, X, sizes);
    var c := InDimension(b, Z, sizes, k).0;
    DimensionExhausts(b, Z, sizes, k);
    StaysExhausted(c, b, X, sizes);
    StaysExhausted(c, b, Y, sizes);
    forall d: Dim ensures Exhausted(c, d, sizes) { match d case X => case Y => case Z => }
  }

  // ---- the tree that is built ----

  predicate IsTerm(n: Node) { !(n.Bin? && (n.op.Plus? || n.op.Minus?)) }

  predicate AllTerms(ts: Terms) { forall t | t in ts :: IsTerm(t.item) }

  function NonZero(ts: Terms): Terms {
    if ts == [] then [] else (if ConstZero(ts[0].item) then [] else [ts[0]]) + NonZero(ts[1..])
  }

  lemma NonZeroUnfolds(t: Term<Node>, rest: Terms)
    ensures NonZero([t] + rest) == if ConstZero(t.item) then NonZero(rest) else [t] + NonZero(rest)
  {
    assert ([t] + rest)[1..] == rest;
  }

  lemma LongerTree(cur: Node, t: Term<Node>, hint: Hint, next: nat)
    requires IsTerm(t.item)
    ensures Flatten(Bin(next, hint, if t.plus then Plus else Minus, cur, t.item), true) == Flatten(cur, true) + [t]
  {}

  predicate TreeGives(cur: Node, rest: Terms, hint: Hint, next: nat, ts: Terms) {
    Flatten(SumTree(cur, rest, hint, next).0, true) == ts
  }

  /** The tree is made of its terms, in order, without the zeros. */
  lemma {:induction false} TreeIsItsTerms(cur: Node, rest: Terms, hint: Hint, next: nat)
    requires AllTerms(rest)
    ensures TreeGives(cur, rest, hint, next, Flatten(cur, true) + NonZero(rest))
    decreases rest
  {
    if rest == [] {
      assert Flatten(cur, true) + [] == Flatten(cur, true);
    } else {
      var t, tail := rest[0], rest[1..];
      assert t in rest && rest == [t] + tail;
      NonZeroUnfolds(t, tail);
      if ConstZero(t.item) {
        TreeIsItsTerms(cur, tail, hint, next);
      } else {
        LongerTree(cur, t, hint, next);
        TreeIsItsTerms(Bin(next, hint, if t.plus then Plus else Minus, cur, t.item), tail, hint, next + 1);
        Regroup(Flatten(cur, true), [t], NonZero(tail));
      }
    }
  }

  lemma {:induction false} FlattensToTerms(n: Node, plus: bool)
    ensures AllTerms(Flatten(n, plus)) && Flatten(n, plus) != []
    decreases n
  {
    if n.Bin? && (n.op.Plus? || n.op.Minus?) {
      FlattensToTerms(n.left, plus);
      FlattensToTerms(n.right, if n.op.Plus? then plus else !plus);
    }
  }

  // ---- whole sums ----

  lemma {:induction false} PositiveMembers(ts: Terms)
    ensures forall t | t in Positive(ts) :: t in ts
  {
    if ts == [] {
    } else {
      PositiveMembers(ts[1..]);
    }
  }

  lemma {:induction false} CancelMembers(kept: Terms, rest: Terms)
    ensures forall t | t in CancelRest(kept, Contents, rest) :: t in kept || t in rest
    decreases rest
  {
    if rest == [] {
    } else {
      CancelMembers(if rest[0].plus then kept else CancelOne(kept, Contents, rest[0]), rest[1..]);
    }
  }

  lemma {:induction false} NonZeroMembers(ts: Terms)
    ensures forall t | t in NonZero(ts) :: t in ts && !ConstZero(t.item)
  {
    if ts == [] {
    } else {
      NonZeroMembers(ts[1..]);
      NonZeroUnfolds(ts[0], ts[1..]);
      assert ts == [ts[0]] + ts[1..];
    }
  }

  /** The first positive term, if there is one, changes places with the first; otherwise a zero comes first. */
  lemma PositiveFirstExactly(ts: Terms, next: nat, i: nat)
    requires ts != [] && i <= |ts| && (forall j | 0 <= j < i :: !ts[j].plus) && (i < |ts| ==> ts[i].plus)
    ensures PositiveFirst(ts, next)
         == if i == |ts| then ([Term(Const(next, UINT, Number(0.0)), true)] + ts, next + 1)
            else (ts[0 := ts[i]][i := ts[0]], next)
  {
    FirstPositiveIs(ts, i);
    if i == 0 { assert ts[0 := ts[i]][i := ts[0]] == ts; }
  }

  lemma {:induction false} FirstPositiveIs(ts: Terms, i: nat)
    requires i <= |ts| && (forall j | 0 <= j < i :: !ts[j].plus) && (i < |ts| ==> ts[i].plus)
    ensures FirstPositive(ts) == i
  {
    if i > 0 { FirstPositiveIs(ts[1..], i - 1); }
  }

  lemma OrderedIs(ts: Terms, next: nat)
    requires ts != []
    ensures var r := PositiveFirst(ts, next).0;
            r != [] && r[0].plus && forall t | t in r :: t in ts || t.item.Const?
  {}

  lemma AssembledIsExhausted(ts: Terms, left: Node, right: Node, hint: Hint, sizes: seq<int>, next: nat)
    requires ts != [] && AllTerms(ts) && forall d: Dim :: Exhausted(ts, d, sizes)
    ensures Finished(Flatten(Assembled(ts, left, right, hint, next).0, true), sizes)
  {
    var (ordered, k) := PositiveFirst(ts, next);
    OrderedIs(ts, next);
    var first, rest := ordered[0], ordered[1..];
    assert first in ordered && forall t | t in rest :: t in ordered;
    TreeIsItsTerms(first.item, rest, hint, k);
    NonZeroMembers(rest);
    var result := [first] + NonZero(rest);
    assert result[1..] == NonZero(rest);
    assert OnlyGlobals(result, ts);
    forall d: Dim ensures Exhausted(result, d, sizes) { StaysExhausted(result, ts, d, sizes); }
  }

  /** The first term is added, no other is zero, and no parts of a global id or global size are left to fold. */
  predicate Finished(ts: Terms, sizes: seq<int>) {
    && ts != [] && ts[0].plus && (forall t | t in ts[1..] :: !ConstZero(t.item))
    && forall d: Dim :: Exhausted(ts, d, sizes)
  }

  predicate IsGiven(n: Node, hint: Hint, left: Node, right: Node) {
    n.Bin? && n.hint == hint && n.op.Plus? && n.left == left && n.right == right
  }

  /** An optimised sum is finished; if everything cancels, it is the sum as it was given. */
  lemma SumIsFinished(left: Node, right: Node, hint: Hint, sizes: seq<int>, next: nat)
    ensures var r := Flattened(left, right, hint, sizes, next).0;
            r.Done? ==>
              IsGiven(r.node, hint, left, right) || Finished(Flatten(r.node, true), sizes)
  {
    var list := SumList(left, right);
    var kept := Cancel(list, Contents);
    FlattensToTerms(left, true);
    FlattensToTerms(right, true);
    PositiveMembers(list);
    CancelMembers(Positive(list), list);
    DimensionsExhaust(kept, sizes, next);
    var (ts, n) := InDimensions(kept, sizes, next);
    if ts != [] {
      AssembledIsExhausted(ts, left, right, hint, sizes, n);
    }
  }

  // ---- sums without anything to fold ----

  function Negative(ts: Terms): Terms {
    if ts == [] then [] else (if ts[0].plus then [] else [ts[0]]) + Negative(ts[1..])
  }

  /** What is subtracted occurs once. */
  predicate Lone(ts: Terms) {
    forall i, j | 0 <= i < |ts| && 0 <= j < |ts| && i != j && !ts[j].plus ::
      Contents(ts[i].item) != Contents(ts[j].item)
  }

  predicate Strangers(kept: Terms, rest: Terms) {
    forall s, t | s in kept && t in rest && !t.plus :: Contents(s.item) != Contents(t.item)
  }

  lemma StrangerStays(kept: Terms, t: Term<Node>)
    requires forall s | s in kept :: Contents(s.item) != Contents(t.item)
    ensures CancelOne(kept, Contents, t) == kept + [t]
  {}

  lemma StrangersGrow(kept: Terms, t: Term<Node>, tail: Terms)
    requires Strangers(kept, tail) && Strangers([t], tail)
    ensures Strangers(kept + [t], tail)
  {
    assert t in [t];
  }

  lemma {:induction false} NothingCancels(kept: Terms, rest: Terms)
    requires Lone(rest) && Strangers(kept, rest)
    ensures CancelRest(kept, Contents, rest) == kept + Negative(rest)
    decreases rest
  {
    if rest == [] {
    } else {
      var t, tail := rest[0], rest[1..];
      assert t in rest && forall s | s in tail :: s in rest;
      LoneTail(rest);
      if t.plus {
        NothingCancels(kept, tail);
      } else {
        StrangerStays(kept, t);
        StrangersGrow(kept, t, tail);
        NothingCancels(kept + [t], tail);
        Regroup(kept, [t], Negative(tail));
      }
    }
  }

  lemma LoneTail(rest: Terms)
    requires Lone(rest) && rest != []
    ensures Lone(rest[1..]) && (!rest[0].plus ==> Strangers([rest[0]], rest[1..]))
  {
    var tail := rest[1..];
    forall i, j | 0 <= i < |tail| && 0 <= j < |tail| && i != j && !tail[j].plus
      ensures Contents(tail[i].item) != Contents(tail[j].item)
    {
      assert tail[i] == rest[i + 1] && tail[j] == rest[j + 1];
    }
    forall t | t in tail && !t.plus && !rest[0].plus ensures Contents(rest[0].item) != Contents(t.item) {
      var j :| 0 <= j < |tail| && tail[j] == t;
      assert rest[j + 1] == t;
    }
  }

  lemma {:induction false} SignsApart(ts: Terms)
    ensures (forall t | t in Positive(ts) :: t in ts && t.plus) && forall t | t in Negative(ts) :: t in ts && !t.plus
  {
    if ts == [] {
    } else {
      SignsApart(ts[1..]);
      assert ts == [ts[0]] + ts[1..];
    }
  }

  lemma PositivesAreStrangers(ts: Terms)
    requires Lone(ts)
    ensures Strangers(Positive(ts), ts)
  {
    SignsApart(ts);
    forall s, t | s in Positive(ts) && t in ts && !t.plus ensures Contents(s.item) != Contents(t.item) {
      var i :| 0 <= i < |ts| && ts[i] == s;
      var j :| 0 <= j < |ts| && ts[j] == t;
    }
  }

  /** No local id and no number of groups. */
  predicate NothingToFold(ts: Terms) {
    forall t | t in ts :: GroupCount(t.item).None? && forall d: Dim :: !IsPart(t, LocalPart, d)
  }

  lemma NothingFolds(ts: Terms, d: Dim, sizes: seq<int>, next: nat)
    requires forall t | t in ts :: GroupCount(t.item).None? && !IsPart(t, LocalPart, d)
    ensures InDimension(ts, d, sizes, next) == (ts, next)
  {
    NoneSelected(ts, LocalPart, d);
    if Index(d) < |sizes| { NoneSelected(ts, CountPart(sizes[Index(d)]), d); }
  }

  lemma {:induction false} AllNonZero(ts: Terms)
    requires forall t | t in ts :: !ConstZero(t.item)
    ensures NonZero(ts) == ts
  {
    if ts == [] {
    } else {
      AllNonZero(ts[1..]);
    }
  }

  /** Without anything to cancel or to fold, the terms stay: those that are added first, then those that are subtracted,
      each in their order. */
  lemma TermsStayInOrder(left: Node, right: Node, hint: Hint, sizes: seq<int>, next: nat)
    requires var list := SumList(left, right);
             Lone(list) && NothingToFold(list) && (forall t | t in list :: !ConstZero(t.item)) && Positive(list) != []
    ensures var r := Flattened(left, right, hint, sizes, next).0;
            r.Done? && Flatten(r.node, true) == Positive(SumList(left, right)) + Negative(SumList(left, right))
  {
    var list := SumList(left, right);
    var ts := Positive(list) + Negative(list);
    PositivesAreStrangers(list);
    NothingCancels(Positive(list), list);
    SignsApart(list);
    NothingFolds(ts, X, sizes, next);
    NothingFolds(ts, Y, sizes, next);
    NothingFolds(ts, Z, sizes, next);
    FlattensToTerms(left, true);
    FlattensToTerms(right, true);
    assert ts[0] == Positive(list)[0] && ts == [ts[0]] + ts[1..] && ts[0] in list;
    PositiveFirstExactly(ts, next, 0);
    assert ts[0 := ts[0]][0 := ts[0]] == ts;
    TreeIsItsTerms(ts[0].item, ts[1..], hint, next);
    AllNonZero(ts[1..]);
  }

  // ---- a global id, however it is put together ----

  /** Local id, offset, and group id times local size or the other way round. */
  predicate ThreeParts(l: Node, o: Node, g: Node, d: Dim) {
    && l.WorkItem? && l.work == LocalId(d) && o.WorkItem? && o.work == Offset(d)
    && g.Bin? && g.op.Mul? && g.left.WorkItem? && g.right.WorkItem?
    && {g.left.work, g.right.work} == {GroupId(d), LocalSize(d)}
  }

  lemma {:induction false} AddedStay(kept: Terms, rest: Terms)
    requires forall t | t in rest :: t.plus
    ensures Positive(rest) == rest && CancelRest(kept, Contents, rest) == kept
    decreases rest
  {
    if rest == [] {
    } else {
      AddedStay(kept, rest[1..]);
    }
  }

  lemma SumOfOne(left: Node, right: Node, n: Node, hint: Hint, next: nat)
    ensures Assembled([Term(n, true)], left, right, hint, next) == (n, next)
  {
    assert [Term(n, true)][1..] == [];
  }

  lemma PartsInDimensions(ts: Terms, l: Node, o: Node, g: Node, d: Dim, sizes: seq<int>, next: nat)
    requires ThreeParts(l, o, g, d) && |ts| == 3
    requires forall t :: t in ts <==> t == Term(l, true) || t == Term(o, true) || t == Term(g, true)
    ensures InDimensions(ts, sizes, next) == ([Made(GlobalId(d), next)], next + 1)
  {
    var one := [Made(GlobalId(d), next)];
    assert {GroupId(d), LocalSize(d)} == {g.left.work, g.right.work};
    assert GroupTimesLocal(g) == Some(d) && GroupCount(g).None? by {
      assert g.left.work in {GroupId(d), LocalSize(d)} && g.right.work in {GroupId(d), LocalSize(d)};
      assert GroupId(d) in {g.left.work, g.right.work} && LocalSize(d) in {g.left.work, g.right.work};
    }
    forall e: Dim, k: nat | e != d ensures InDimension(ts, e, sizes, k) == (ts, k) { NothingFolds(ts, e, sizes, k); }
    forall e: Dim, k: nat ensures InDimension(one, e, sizes, k) == (one, k) { NothingFolds(one, e, sizes, k); }
    PartsInOne(ts, l, o, g, d, sizes, next);
  }

  lemma PartsInOne(ts: Terms, l: Node, o: Node, g: Node, d: Dim, sizes: seq<int>, next: nat)
    requires |ts| == 3 && Term(l, true) in ts && Term(o, true) in ts && Term(g, true) in ts
    requires IsPart(Term(l, true), LocalPart, d) && IsPart(Term(o, true), OffsetPart, d)
    requires IsPart(Term(g, true), GroupPart, d)
    ensures InDimension(ts, d, sizes, next) == ([Made(GlobalId(d), next)], next + 1)
  {
    var one := [Made(GlobalId(d), next)];
    assert IdsGive(ts, d, next, (one, next + 1)) by {
      HasRound(ts, l, o, g, d);
      OneRound(ts, d, next);
    }
    if Index(d) < |sizes| { NoneSelected(one, CountPart(sizes[Index(d)]), d); }
  }

  lemma HasRound(ts: Terms, l: Node, o: Node, g: Node, d: Dim)
    requires Term(l, true) in ts && Term(o, true) in ts && Term(g, true) in ts
    requires IsPart(Term(l, true), LocalPart, d) && IsPart(Term(o, true), OffsetPart, d)
    requires IsPart(Term(g, true), GroupPart, d)
    ensures Rounds(ts, d) > 0
  {
    if Select(ts, LocalPart, d) == [] { NotSelected(ts, Term(l, true), LocalPart, d); }
    if Select(ts, OffsetPart, d) == [] { NotSelected(ts, Term(o, true), OffsetPart, d); }
    if Select(ts, GroupPart, d) == [] { NotSelected(ts, Term(g, true), GroupPart, d); }
  }

  lemma OneRound(ts: Terms, d: Dim, next: nat)
    requires |ts| == 3 && Rounds(ts, d) > 0
    ensures GlobalIds(ts, d, next) == ([Made(GlobalId(d), next)], next + 1)
  {
    var rest := GlobalIdsExactly(ts, d, next);
    assert Rounds(ts, d) == 1 && rest == [];
    assert Copies(GlobalId(d), next, next + 1) == Copies(GlobalId(d), next, next) + [Made(GlobalId(d), next)];
    assert rest + Copies(GlobalId(d), next, next + 1) == [Made(GlobalId(d), next)];
  }

  lemma FoldsToOne(left: Node, right: Node, n: Node, hint: Hint, sizes: seq<int>, next: nat)
    requires var list := SumList(left, right);
             && Cancel(list, Contents) == list && (forall t | t in list :: GroupCount(t.item).None?)
             && InDimensions(list, sizes, next) == ([Term(n, true)], next + 1)
    ensures Flattened(left, right, hint, sizes, next) == (Done(n), next + 1)
  {
    var list := SumList(left, right);
    assert !MissesSize(list, sizes);
    assert InDimensions(list, sizes, next).0 == [Term(n, true)] && InDimensions(list, sizes, next).1 == next + 1;
    SumOfOne(left, right, n, hint, next + 1);
  }

  lemma ThreeOf<T>(list: seq<T>, a: T, b: T, c: T)
    requires multiset(list) == multiset{a, b, c}
    ensures |list| == 3 && forall t :: t in list <==> t == a || t == b || t == c
  {
    assert |list| == |multiset(list)|;
    assert forall t :: t in list <==> t in multiset(list);
  }

  lemma PartsFold(left: Node, right: Node, l: Node, o: Node, g: Node, d: Dim, hint: Hint, sizes: seq<int>, next: nat)
    requires ThreeParts(l, o, g, d) && |SumList(left, right)| == 3
    requires forall t :: t in SumList(left, right) <==> t == Term(l, true) || t == Term(o, true) || t == Term(g, true)
    ensures Flattened(left, right, hint, sizes, next) == (Done(WorkItem(next, UINT, GlobalId(d))), next + 1)
  {
    var list := SumList(left, right);
    assert GroupCount(l).None? && GroupCount(o).None? && GroupCount(g).None?;
    PartsInDimensions(list, l, o, g, d, sizes, next);
    assert Cancel(list, Contents) == list by { AddedStay(list, list); }
    FoldsToOne(left, right, WorkItem(next, UINT, GlobalId(d)), hint, sizes, next);
  }

  /** However the three parts of a global id are grouped and ordered in a sum, it becomes the global id. */
  lemma GlobalIdIsFound(left: Node, right: Node, l: Node, o: Node, g: Node, d: Dim, hint: Hint, sizes: seq<int>,
                        next: nat)
    requires ThreeParts(l, o, g, d)
    requires multiset(SumList(left, right)) == multiset{Term(l, true), Term(o, true), Term(g, true)}
    ensures Flattened(left, right, hint, sizes, next) == (Done(WorkItem(next, UINT, GlobalId(d))), next + 1)
  {
    ThreeOf(SumList(left, right), Term(l, true), Term(o, true), Term(g, true));
    PartsFold(left, right, l, o, g, d, hint, sizes, next);
  }
}
