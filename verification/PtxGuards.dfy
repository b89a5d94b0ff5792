/** The exact condition, told by the program alone, under which lowering is sound. */
module PtxGuards {
  import opened Options
  import opened PtxPredicates
  import opened PtxSimulation

  /** An instruction changes no predicate but those it is declared to write. */
  ghost predicate Respects<D(!new)>(sem: Sem<D>, writes: string -> set<PredName>) {
    forall code, s, p :: p !in writes(code) ==> Pred(sem.exec(code, s), p) == Pred(s, p)
  }

  /** The next instruction runs under the mask opened for this one. */
  predicate SharesGuard(prog: seq<Instr>, i: nat) {
    i + 1 < |prog| && Guarded(prog[i]) && prog[i + 1].Compute? && prog[i + 1].guard == prog[i].guard
  }

  /** No instruction followed by one with the same guard is declared to write that guard. */
  predicate NoSelfWrite(prog: seq<Instr>, writes: string -> set<PredName>) {
    forall i: nat | i < |prog| && SharesGuard(prog, i) :: prog[i].guard.value.pred !in writes(prog[i].code)
  }

  predicate EndsIn<D>(prog: seq<Instr>, sem: Sem<D>, store: Store<D>, n: nat) {
    RunIn(prog, sem, Config(0, store), n).pc == |prog|
  }

  predicate EndsOut<D>(prog: seq<Instr>, sem: Sem<D>, store: Store<D>, m: nat) {
    RunOut(Lower(prog), sem, Masked(0, None, store), m).pc == |Lower(prog)|
  }

  predicate SameData<D(==)>(prog: seq<Instr>, sem: Sem<D>, store: Store<D>, n: nat, m: nat) {
    RunOut(Lower(prog), sem, Masked(0, None, store), m).store.data == RunIn(prog, sem, Config(0, store), n).store.data
  }

  /** The guarded and the masked run both end or both go on, and end with the same data. */
  ghost predicate SameEnd<D>(prog: seq<Instr>, sem: Sem<D>, store: Store<D>) {
    && ((exists n: nat :: EndsIn(prog, sem, store, n)) <==> (exists m: nat :: EndsOut(prog, sem, store, m)))
    && forall n: nat, m: nat | EndsIn(prog, sem, store, n) && EndsOut(prog, sem, store, m) ::
         SameData(prog, sem, store, n, m)
  }

  // ----- the condition is enough -----

  /** Then no run of the program falsifies a guard it still needs. */
  lemma NoSelfWriteKeepsGuards<D(!new)>(prog: seq<Instr>, writes: string -> set<PredName>, sem: Sem<D>, c: Config<D>,
                                        n: nat)
    requires NoSelfWrite(prog, writes) && Respects(sem, writes)
    ensures KeepsGuards(prog, sem, c, n)
  {
    forall k: nat | k < n ensures StaysTrue(prog, sem, RunIn(prog, sem, c, k)) {
      var i := RunIn(prog, sem, c, k).pc;
      if SharesGuard(prog, i) { assert prog[i].guard.value.pred !in writes(prog[i].code); }
    }
  }

  lemma {:induction false} PcInRange<D>(prog: seq<Instr>, sem: Sem<D>, c: Config<D>, n: nat)
    requires c.pc <= |prog|
    ensures RunIn(prog, sem, c, n).pc <= |prog|
    decreases n
  {
    if n == 0 {
    } else {
      PcInRange(prog, sem, StepIn(prog, sem, c), n - 1);
    }
  }

  lemma EndsOnce<D>(out: seq<Output>, sem: Sem<D>, d: Masked<D>, m: nat, n: nat)
    requires RunOut(out, sem, d, m).pc == |out| && RunOut(out, sem, d, n).pc == |out| && m <= n
    ensures RunOut(out, sem, d, m) == RunOut(out, sem, d, n)
  {
    RunOutAdd(out, sem, d, m, n - m);
    OutHaltedStays(out, sem, RunOut(out, sem, d, m), n - m);
  }

  /** For every program, with labels and branches or without. */
  lemma NoSelfWriteIsSound<D(!new)>(prog: seq<Instr>, names: set<PredName>, writes: string -> set<PredName>,
                                    sem: Sem<D>, store: Store<D>)
    requires Fresh(prog, names) && NoSelfWrite(prog, writes)
    requires Insensitive(names, sem) && Respects(sem, writes)
    ensures SameEnd(prog, sem, store)
  {
    var out, d := Lower(prog), Masked(0, None, store);
    forall n: nat | EndsIn(prog, sem, store, n)
      ensures exists m: nat :: EndsOut(prog, sem, store, m)
      ensures forall m: nat | EndsOut(prog, sem, store, m) :: SameData(prog, sem, store, n, m)
    {
      NoSelfWriteKeepsGuards(prog, writes, sem, Config(0, store), n);
      var m0 := LoweredEndsTheSame(prog, names, sem, store, n);
      assert EndsOut(prog, sem, store, m0) && SameData(prog, sem, store, n, m0);
      forall m: nat | EndsOut(prog, sem, store, m) ensures SameData(prog, sem, store, n, m) {
        if m <= m0 { EndsOnce(out, sem, d, m, m0); } else { EndsOnce(out, sem, d, m0, m); }
      }
    }
    forall m: nat | EndsOut(prog, sem, store, m) ensures EndsIn(prog, sem, store, m) {
      PcInRange(prog, sem, Config(0, store), m);
      NoSelfWriteKeepsGuards(prog, writes, sem, Config(0, store), m);
      if !EndsIn(prog, sem, store, m) { LoweredRunsAsLong(prog, names, sem, store, m); }
    }
  }

  // ----- the condition is needed -----

  /** No branch is taken. */
  ghost predicate FallsThrough<D(!new)>(sem: Sem<D>) { forall code, s :: sem.decide(code, s).None? }

  /** Every instruction counts itself; the one that runs after `l` others falsifies `g`, if it may. */
  function Counting(l: nat, g: Guard, writes: string -> set<PredName>): Sem<int> {
    Sem((code: string, s: Store<int>) =>
          Store(if s.data == l && g.pred in writes(code) then s.preds[g.pred := g.negated] else s.preds, s.data + 1),
        (code: string, s: Store<int>) => None)
  }

  function Primed(g: Guard): Store<int> { Store(map[g.pred := !g.negated], 0) }

  function Falsified(g: Guard): map<PredName, bool> { Primed(g).preds[g.pred := g.negated] }

  lemma CountingIsFair(l: nat, g: Guard, names: set<PredName>, writes: string -> set<PredName>)
    requires g.pred !in names
    ensures Insensitive(names, Counting(l, g, writes)) && Respects(Counting(l, g, writes), writes)
    ensures FallsThrough(Counting(l, g, writes))
  {
  }

  lemma {:induction false} RunInAdd<D>(prog: seq<Instr>, sem: Sem<D>, c: Config<D>, m: nat, n: nat)
    ensures RunIn(prog, sem, c, m + n) == RunIn(prog, sem, RunIn(prog, sem, c, m), n)
    decreases m
  {
    if m == 0 {
    } else {
      RunInAdd(prog, sem, StepIn(prog, sem, c), m - 1, n);
    }
  }

  lemma {:induction false} FallenPc<D(!new)>(prog: seq<Instr>, sem: Sem<D>, c: Config<D>, n: nat)
    requires FallsThrough(sem) && c.pc + n <= |prog|
    ensures RunIn(prog, sem, c, n).pc == c.pc + n
    decreases n
  {
    if n == 0 {
    } else {
      FallenPc(prog, sem, StepIn(prog, sem, c), n - 1);
    }
  }

  // ---- up to the instruction that falsifies the guard ----

  /** How many of the first `n` instructions run while no predicate changes. */
  function Executed(prog: seq<Instr>, g: Guard, n: nat): nat
    requires n <= |prog|
  {
    if n == 0 then 0
    else
      var i := prog[n - 1];
      Executed(prog, g, n - 1) + if i.Compute? && GuardHolds(Primed(g), i.guard) then 1 else 0
  }

  lemma {:induction false} ExecutedGrows(prog: seq<Instr>, g: Guard, m: nat, n: nat)
    requires m <= n <= |prog|
    ensures Executed(prog, g, m) <= Executed(prog, g, n)
    decreases n
  {
    if m == n {
    } else {
      ExecutedGrows(prog, g, m, n - 1);
    }
  }

  lemma {:induction false} GuardedCounts(prog: seq<Instr>, g: Guard, writes: string -> set<PredName>, i: nat, n: nat)
    requires n <= i <= |prog|
    ensures RunIn(prog, Counting(Executed(prog, g, i), g, writes), Config(0, Primed(g)), n)
         == Config(n, Store(Primed(g).preds, Executed(prog, g, n)))
  {
    if n == 0 {
    } else {
      var sem, c := Counting(Executed(prog, g, i), g, writes), Config(0, Primed(g));
      GuardedCounts(prog, g, writes, i, n - 1);
      RunInAdd(prog, sem, c, n - 1, 1);
      ExecutedGrows(prog, g, n, i);
      var last := Config(n - 1, Store(Primed(g).preds, Executed(prog, g, n - 1)));
      assert RunIn(prog, sem, last, 1) == RunIn(prog, sem, StepIn(prog, sem, last), 0);
    }
  }

  /** There the two machines still agree. */
  lemma PrefixRelated(prog: seq<Instr>, names: set<PredName>, i: nat, g: Guard, writes: string -> set<PredName>)
      returns (d: Masked<int>, m: nat)
    requires Fresh(prog, names) && i < |prog| && g.pred !in names
    ensures var sem := Counting(Executed(prog, g, i), g, writes);
            && d == RunOut(Lower(prog), sem, Masked(0, None, Primed(g)), m)
            && AtKeep(prog, names, Config(i, Store(Primed(g).preds, Executed(prog, g, i))), d)
  {
    var sem, c := Counting(Executed(prog, g, i), g, writes), Config(i, Store(Primed(g).preds, Executed(prog, g, i)));
    CountingIsFair(Executed(prog, g, i), g, names, writes);
    forall k: nat | k < i ensures StaysTrue(prog, sem, RunIn(prog, sem, Config(0, Primed(g)), k)) {
      GuardedCounts(prog, g, writes, i, k);
      ExecutedGrows(prog, g, k + 1, i);
    }
    StartRelated(prog, names, Primed(g));
    m := Simulates(prog, names, sem, Config(0, Primed(g)), Masked(0, None, Primed(g)), i);
    GuardedCounts(prog, g, writes, i, i);
    d := RunOut(Lower(prog), sem, Masked(0, None, Primed(g)), m);
    if AtChunk(prog, names, c, d) {
      var e, k := ReachKeep(prog, names, sem, c, d);
      RunOutAdd(Lower(prog), sem, Masked(0, None, Primed(g)), m, k);
      d, m := e, m + k;
    }
  }

  // ---- under the mask opened for it ----

  /** From `i` up to `j` all instructions have the same guard. */
  predicate Within(prog: seq<Instr>, i: nat, j: nat) {
    i < j <= |prog| && Guarded(prog[i]) && forall k | i <= k < j :: prog[k].Compute? && prog[k].guard == prog[i].guard
  }

  lemma {:induction false} GuardedSkips<D>(prog: seq<Instr>, sem: Sem<D>, i: nat, k: nat, j: nat, store: Store<D>)
    requires Within(prog, i, j) && i < k <= j && !GuardHolds(store, prog[i].guard)
    ensures RunIn(prog, sem, Config(k, store), j - k) == Config(j, store)
    decreases j - k
  {
    if k == j {
    } else {
      GuardedSkips(prog, sem, i, k + 1, j, store);
    }
  }

  /** One of them in the masked run. */
  lemma MaskedCounts(prog: seq<Instr>, names: set<PredName>, l: nat, g: Guard, writes: string -> set<PredName>, k: nat,
                     s: Store<int>, d: Masked<int>) returns (e: Masked<int>)
    requires k < |prog| && prog[k].Compute? && s.data > l
    requires d.pc == Pos(prog, k + 1) - 1 && d.mask == Some(true) && Agree(names, s, d.store)
    ensures e == RunOut(Lower(prog), Counting(l, g, writes), d, 1)
    ensures e.pc == Pos(prog, k + 1) && e.mask == Some(true) && Agree(names, Store(s.preds, s.data + 1), e.store)
  {
    KeepAt(prog, k);
    e := StepOut(Lower(prog), Counting(l, g, writes), d);
    assert RunOut(Lower(prog), Counting(l, g, writes), e, 0) == e;
  }

  /** Nothing is put between two of them. */
  lemma StaysOpen(prog: seq<Instr>, k: nat)
    requires k + 1 < |prog| && prog[k].Compute? && prog[k + 1].Compute? && prog[k + 1].guard == prog[k].guard
    ensures Pos(prog, k + 2) - 1 == Pos(prog, k + 1)
  {
    OpeningAt(prog, k + 1, []);
  }

  /** The masked run goes on with all of them. */
  lemma {:induction false} MaskedGoesOn(prog: seq<Instr>, names: set<PredName>, l: nat, g: Guard,
                                        writes: string -> set<PredName>, i: nat, k: nat, s: Store<int>, d: Masked<int>)
      returns (j: nat, e: Masked<int>, m: nat)
    requires Fresh(prog, names) && i < k && Within(prog, i, k + 1)
    requires d.pc == Pos(prog, k + 1) - 1 && d.mask == Some(true) && Agree(names, s, d.store) && s.data > l
    ensures k < j && Within(prog, i, j) && e == RunOut(Lower(prog), Counting(l, g, writes), d, m)
    ensures AtChunk(prog, names, Config(j, Store(s.preds, s.data + (j - k))), e)
    decreases |prog| - k
  {
    var sem, out, next := Counting(l, g, writes), Lower(prog), Store(s.preds, s.data + 1);
    var d1 := MaskedCounts(prog, names, l, g, writes, k, s, d);
    if k + 1 < |prog| && prog[k + 1].Compute? && prog[k + 1].guard == prog[i].guard {
      StaysOpen(prog, k);
      j, e, m := MaskedGoesOn(prog, names, l, g, writes, i, k + 1, next, d1);
      RunOutAdd(out, sem, d, 1, m);
      m := 1 + m;
    } else {
      j, e, m := k + 1, d1, 1;
      MaskCloses(prog, names, k, next, d1);
    }
  }

  lemma MaskCloses(prog: seq<Instr>, names: set<PredName>, k: nat, s: Store<int>, d: Masked<int>)
    requires Fresh(prog, names) && k < |prog| && Guarded(prog[k])
    requires k + 1 < |prog| ==> !(prog[k + 1].Compute? && prog[k + 1].guard == prog[k].guard)
    requires d.pc == Pos(prog, k + 1) && d.mask.Some? && Agree(names, s, d.store)
    ensures AtChunk(prog, names, Config(k + 1, s), d)
  {
    if k + 1 < |prog| && Guarded(prog[k + 1]) && NextOpen(prog[k + 1]) == NextOpen(prog[k]) {
      SameMaskSameGuard(prog, names, k, k + 1);
    }
  }

  /** What the instruction does in the masked run. */
  lemma MaskedFalsifies(prog: seq<Instr>, names: set<PredName>, writes: string -> set<PredName>, l: nat, i: nat,
                        d: Masked<int>) returns (e: Masked<int>)
    requires i < |prog| && SharesGuard(prog, i) && prog[i].guard.value.pred in writes(prog[i].code)
    requires AtKeep(prog, names, Config(i, Store(Primed(prog[i].guard.value).preds, l)), d)
    ensures e == RunOut(Lower(prog), Counting(l, prog[i].guard.value, writes), d, 1)
    ensures e.pc == Pos(prog, i + 2) - 1 && e.mask == Some(true)
    ensures Agree(names, Store(Falsified(prog[i].guard.value), l + 1), e.store)
  {
    var g, sem := prog[i].guard.value, Counting(l, prog[i].guard.value, writes);
    KeepAt(prog, i);
    OpeningAt(prog, i + 1, []);
    e := StepOut(Lower(prog), sem, d);
    assert RunOut(Lower(prog), sem, d, 1) == RunOut(Lower(prog), sem, e, 0) == e;
    assert GuardHolds(Store(Primed(g).preds, l), prog[i].guard);
  }

  // ---- after the mask ----

  /** The same, but `x` further in its count. */
  function Ahead(c: Config<int>, x: nat): Config<int> {
    Config(c.pc, Store(c.store.preds, c.store.data + x))
  }

  /** Once the count has passed `l`, no predicate changes, and counts that start apart stay as far apart. */
  lemma {:induction false} CountsApart(prog: seq<Instr>, l: nat, g: Guard, writes: string -> set<PredName>,
                                       c: Config<int>, x: nat, n: nat)
    requires c.store.data > l
    ensures var sem := Counting(l, g, writes);
            var a := RunIn(prog, sem, c, n);
            && RunIn(prog, sem, Ahead(c, x), n) == Ahead(a, x)
            && a.store.data > l && a.store.preds == c.store.preds
    decreases n
  {
    if n == 0 {
    } else {
      var sem := Counting(l, g, writes);
      var c' := StepIn(prog, sem, c);
      assert StepIn(prog, sem, Ahead(c, x)) == Ahead(c', x);
      CountsApart(prog, l, g, writes, c', x, n - 1);
    }
  }

  lemma CountedKeepsGuards(prog: seq<Instr>, l: nat, g: Guard, writes: string -> set<PredName>, c: Config<int>, n: nat)
    requires c.store.data > l
    ensures KeepsGuards(prog, Counting(l, g, writes), c, n)
  {
    var sem := Counting(l, g, writes);
    forall k: nat | k < n ensures StaysTrue(prog, sem, RunIn(prog, sem, c, k)) {
      CountsApart(prog, l, g, writes, c, 0, k);
    }
  }

  /** From the end of the mask the masked run ends like a guarded run with the same count. */
  lemma MaskedEnds(prog: seq<Instr>, names: set<PredName>, l: nat, g: Guard, writes: string -> set<PredName>,
                   c: Config<int>, d: Masked<int>) returns (m: nat)
    requires Fresh(prog, names) && g.pred !in names && AtChunk(prog, names, c, d) && c.store.data > l
    ensures var sem := Counting(l, g, writes);
            var e := RunOut(Lower(prog), sem, d, m);
            && e.pc == |Lower(prog)|
            && e.store.data == RunIn(prog, sem, c, |prog| - c.pc).store.data
  {
    var sem, n := Counting(l, g, writes), |prog| - c.pc;
    CountingIsFair(l, g, names, writes);
    CountedKeepsGuards(prog, l, g, writes, c, n);
    m := Simulates(prog, names, sem, c, d, n);
    FallenPc(prog, sem, c, n);
    var e, k := FinishRun(prog, names, sem, RunIn(prog, sem, c, n), RunOut(Lower(prog), sem, d, m));
    RunOutAdd(Lower(prog), sem, d, m, k);
    m := m + k;
  }

  // ---- both runs ----

  /** The masked run up to the end of the mask: the count has passed all instructions from `i` to `j`. */
  lemma MaskedRun(prog: seq<Instr>, names: set<PredName>, writes: string -> set<PredName>, i: nat)
      returns (j: nat, d: Masked<int>, m: nat)
    requires Fresh(prog, names) && i < |prog| && SharesGuard(prog, i)
    requires prog[i].guard.value.pred in writes(prog[i].code)
    ensures i + 1 < j && Within(prog, i, j)
    ensures var g := prog[i].guard.value;
            var l := Executed(prog, g, i);
            && d == RunOut(Lower(prog), Counting(l, g, writes), Masked(0, None, Primed(g)), m)
            && AtChunk(prog, names, Config(j, Store(Falsified(g), l + (j - i))), d)
  {
    var g, out := prog[i].guard.value, Lower(prog);
    var l := Executed(prog, g, i);
    var sem, start := Counting(l, g, writes), Masked(0, None, Primed(g));
    var d0, m0 := PrefixRelated(prog, names, i, g, writes);
    var d1 := MaskedFalsifies(prog, names, writes, l, i, d0);
    RunOutAdd(out, sem, start, m0, 1);
    var m1;
    j, d, m1 := MaskedGoesOn(prog, names, l, g, writes, i, i + 1, Store(Falsified(g), l + 1), d1);
    RunOutAdd(out, sem, start, m0 + 1, m1);
    m := m0 + 1 + m1;
  }

  /** The guarded run up to there: only instruction `i` has counted. */
  lemma GuardedRun(prog: seq<Instr>, writes: string -> set<PredName>, i: nat, j: nat)
    requires i < j && Within(prog, i, j) && prog[i].guard.value.pred in writes(prog[i].code)
    ensures var g := prog[i].guard.value;
            var l := Executed(prog, g, i);
            RunIn(prog, Counting(l, g, writes), Config(0, Primed(g)), j) == Config(j, Store(Falsified(g), l + 1))
  {
    var g := prog[i].guard.value;
    var l := Executed(prog, g, i);
    var sem, c := Counting(l, g, writes), Config(0, Primed(g));
    GuardedCounts(prog, g, writes, i, i);
    var at, past := Config(i, Store(Primed(g).preds, l)), Config(i + 1, Store(Falsified(g), l + 1));
    assert StepIn(prog, sem, at) == past;
    assert RunIn(prog, sem, at, 1) == RunIn(prog, sem, past, 0) == past;
    RunInAdd(prog, sem, c, i, 1);
    GuardedSkips(prog, sem, i, i + 1, j, past.store);
    RunInAdd(prog, sem, c, i + 1, j - (i + 1));
  }

  /** The guarded run to its end. */
  lemma GuardedEnds(prog: seq<Instr>, names: set<PredName>, writes: string -> set<PredName>, i: nat, j: nat)
    requires i < j && Within(prog, i, j) && prog[i].guard.value.pred in writes(prog[i].code)
    requires prog[i].guard.value.pred !in names
    ensures var g := prog[i].guard.value;
            var l := Executed(prog, g, i);
            var sem, c := Counting(l, g, writes), Config(j, Store(Falsified(g), l + 1));
            && RunIn(prog, sem, Config(0, Primed(g)), |prog|) == RunIn(prog, sem, c, |prog| - j)
            && RunIn(prog, sem, Config(0, Primed(g)), |prog|).pc == |prog|
  {
    var g := prog[i].guard.value;
    var l := Executed(prog, g, i);
    CountingIsFair(l, g, names, writes);
    GuardedRun(prog, writes, i, j);
    RunInAdd(prog, Counting(l, g, writes), Config(0, Primed(g)), j, |prog| - j);
    FallenPc(prog, Counting(l, g, writes), Config(0, Primed(g)), |prog|);
  }

  /** The masked run to its end. */
  lemma MaskedRunEnds(prog: seq<Instr>, names: set<PredName>, writes: string -> set<PredName>, i: nat)
      returns (j: nat, m: nat)
    requires Fresh(prog, names) && i < |prog| && SharesGuard(prog, i)
    requires prog[i].guard.value.pred in writes(prog[i].code)
    ensures i + 1 < j && Within(prog, i, j)
    ensures var g := prog[i].guard.value;
            var l := Executed(prog, g, i);
            var sem, c := Counting(l, g, writes), Config(j, Store(Falsified(g), l + (j - i)));
            var e := RunOut(Lower(prog), sem, Masked(0, None, Primed(g)), m);
            e.pc == |Lower(prog)| && e.store.data == RunIn(prog, sem, c, |prog| - j).store.data
  {
    var g := prog[i].guard.value;
    var l := Executed(prog, g, i);
    var d;
    j, d, m := MaskedRun(prog, names, writes, i);
    var k := MaskedEnds(prog, names, l, g, writes, Config(j, Store(Falsified(g), l + (j - i))), d);
    RunOutAdd(Lower(prog), Counting(l, g, writes), Masked(0, None, Primed(g)), m, k);
    m := m + k;
  }

  lemma SelfWriteIsSeen(prog: seq<Instr>, names: set<PredName>, writes: string -> set<PredName>, i: nat)
      returns (sem: Sem<int>, store: Store<int>)
    requires Fresh(prog, names) && i < |prog| && SharesGuard(prog, i)
    requires prog[i].guard.value.pred in writes(prog[i].code)
    ensures Insensitive(names, sem) && Respects(sem, writes) && !SameEnd(prog, sem, store)
  {
    var g := prog[i].guard.value;
    var l := Executed(prog, g, i);
    sem, store := Counting(l, g, writes), Primed(g);
    CountingIsFair(l, g, names, writes);
    var j, m := MaskedRunEnds(prog, names, writes, i);
    GuardedEnds(prog, names, writes, i, j);
    CountsApart(prog, l, g, writes, Config(j, Store(Falsified(g), l + 1)), j - i - 1, |prog| - j);
    assert EndsIn(prog, sem, store, |prog|) && EndsOut(prog, sem, store, m);
    assert !SameData(prog, sem, store, |prog|, m);
  }

  /** Lowering a program, with labels and branches or without, is sound for everything its instructions may do
      within their declared writes exactly when no instruction may write the guard that it shares with the next. */
  lemma SoundExactlyWithoutSelfWrites(prog: seq<Instr>, names: set<PredName>, writes: string -> set<PredName>)
    requires Fresh(prog, names)
    ensures NoSelfWrite(prog, writes) <==>
            forall sem: Sem<int>, store: Store<int> | Insensitive(names, sem) && Respects(sem, writes) ::
              SameEnd(prog, sem, store)
  {
    if NoSelfWrite(prog, writes) {
      forall sem: Sem<int>, store: Store<int> | Insensitive(names, sem) && Respects(sem, writes) {
        NoSelfWriteIsSound(prog, names, writes, sem, store);
      }
    } else {
      var i: nat :| i < |prog| && SharesGuard(prog, i) && prog[i].guard.value.pred in writes(prog[i].code);
      var sem, store := SelfWriteIsSeen(prog, names, writes, i);
    }
  }
}
