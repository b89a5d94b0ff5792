/** Running the lowered program with masks does what running the guarded one does. */
module PtxSimulation {
  import opened Options
  import opened PtxPredicates

  // ----- where the instructions are in the output -----

  /** Where the output of instruction `i` starts. */
  function Pos(prog: seq<Instr>, i: nat): nat
    requires i <= |prog|
  {
    if i == 0 then 0 else Pos(prog, i - 1) + |ChunkOf(prog, i - 1)|
  }

  lemma {:induction false} BodyLength(prog: seq<Instr>, n: nat)
    requires n <= |prog|
    ensures |Body(prog, n)| == Pos(prog, n)
  {
    if n == 0 {
    } else {
      BodyLength(prog, n - 1);
    }
  }

  lemma {:induction false} PosGrows(prog: seq<Instr>, t: nat, n: nat)
    requires t < n <= |prog|
    ensures 0 < Pos(prog, t + 1) <= Pos(prog, n)
    decreases n
  {
    if t + 1 < n { PosGrows(prog, t, n - 1); }
  }

  /** Output once appended stays where it is. */
  lemma {:induction false} BodyAt(prog: seq<Instr>, i: nat, n: nat, q: nat)
    requires i <= n <= |prog| && q < |Body(prog, i)|
    ensures q < |Body(prog, n)| && Body(prog, n)[q] == Body(prog, i)[q]
    decreases n
  {
    if i >= n {
    } else {
      BodyAt(prog, i, n - 1, q);
      AppendKeeps(Body(prog, n - 1), ChunkOf(prog, n - 1), q);
    }
  }

  lemma AppendKeeps(a: seq<Output>, b: seq<Output>, q: nat)
    requires q < |a|
    ensures q < |a + b| && (a + b)[q] == a[q]
  {
  }

  lemma LowerAt(prog: seq<Instr>, i: nat, q: nat)
    requires i <= |prog| && q < |Body(prog, i)|
    ensures q < |Lower(prog)| && Lower(prog)[q] == Body(prog, i)[q]
  {
    BodyAt(prog, i, |prog|, q);
  }

  /** The output of instruction `i`: what the pass puts in front of it, and itself. */
  predicate OutputOf(out: seq<Output>, lo: nat, pre: seq<Output>) {
    lo + |pre| <= |out| && forall k | 0 <= k < |pre| :: out[lo + k] == pre[k]
  }

  lemma OpeningAt(prog: seq<Instr>, i: nat, pre: seq<Output>)
    requires i < |prog| && pre == Opening(OpenBefore(prog, i), prog[i])
    ensures Pos(prog, i + 1) == Pos(prog, i) + |pre| + 1 <= |Lower(prog)|
    ensures OutputOf(Lower(prog), Pos(prog, i), pre)
    ensures Lower(prog)[Pos(prog, i) + |pre|] == Keep(Cleared(prog[i]))
  {
    BodyLength(prog, i);
    var body := Body(prog, i) + (pre + [Keep(Cleared(prog[i]))]);
    assert body == Body(prog, i + 1);
    forall q | 0 <= q < |body| ensures q < |Lower(prog)| && Lower(prog)[q] == body[q] {
      LowerAt(prog, i + 1, q);
    }
    assert body[Pos(prog, i) + |pre|] == Keep(Cleared(prog[i]));
  }

  lemma KeepAt(prog: seq<Instr>, i: nat)
    requires i < |prog|
    ensures Pos(prog, i) < Pos(prog, i + 1) <= |Lower(prog)|
    ensures Lower(prog)[Pos(prog, i + 1) - 1] == Keep(Cleared(prog[i]))
  {
    OpeningAt(prog, i, Opening(OpenBefore(prog, i), prog[i]));
  }

  /** Without the label among the first instructions there is none in their output. */
  lemma {:induction false} BodyHasNoLabel(prog: seq<Instr>, i: nat, name: string)
    requires i <= |prog| && forall j | 0 <= j < i :: !IsLabel(prog[j], name)
    ensures forall q | 0 <= q < |Body(prog, i)| :: !KeepsLabel(Body(prog, i)[q], name)
  {
    if i == 0 {
    } else {
      BodyHasNoLabel(prog, i - 1, name);
      OpeningKeepsNothing(OpenBefore(prog, i - 1), prog[i - 1]);
    }
  }

  lemma NoLabelBefore(prog: seq<Instr>, i: nat, name: string, q: nat)
    requires i <= |prog| && q < Pos(prog, i) && forall j | 0 <= j < i :: !IsLabel(prog[j], name)
    ensures q < |Lower(prog)| && !KeepsLabel(Lower(prog)[q], name)
  {
    BodyLength(prog, i);
    BodyHasNoLabel(prog, i, name);
    LowerAt(prog, i, q);
  }

  /** A label of the input stands, in the output, at the end of its chunk. */
  lemma TargetsAgree(prog: seq<Instr>, name: string)
    ensures var t := Target(prog, name);
            TargetOut(Lower(prog), name) == if t < |prog| then Pos(prog, t + 1) - 1 else |Lower(prog)|
  {
    var t, out := Target(prog, name), Lower(prog);
    forall q | 0 <= q < Pos(prog, t) ensures q < |out| && !KeepsLabel(out[q], name) {
      NoLabelBefore(prog, t, name, q);
    }
    if t < |prog| {
      var pre := Opening(OpenBefore(prog, t), prog[t]);
      OpeningAt(prog, t, pre);
      OpeningKeepsNothing(OpenBefore(prog, t), prog[t]);
      forall q | Pos(prog, t) <= q < Pos(prog, t) + |pre| ensures !KeepsLabel(out[q], name) {
        assert out[Pos(prog, t) + (q - Pos(prog, t))] == pre[q - Pos(prog, t)];
      }
    } else {
      BodyLength(prog, |prog|);
    }
  }

  // ----- what the theorem asks of a program and of its instructions -----

  /** `names` holds every predicate name the pass makes up, and no name a guard uses. */
  predicate Fresh(prog: seq<Instr>, names: set<PredName>) {
    && (forall i | 0 <= i < |prog| && Guarded(prog[i]) && prog[i].guard.value.negated ::
          MaskName(prog[i].guard.value) in names)
    && (forall i | 0 <= i < |prog| && prog[i].guard.Some? :: prog[i].guard.value.pred !in names)
  }

  ghost predicate Agree<D>(names: set<PredName>, s: Store<D>, t: Store<D>) {
    s.data == t.data && forall p: PredName :: p !in names ==> Pred(s, p) == Pred(t, p)
  }

  /** Instructions neither read nor depend on the made-up predicates. */
  ghost predicate Insensitive<D(!new)>(names: set<PredName>, sem: Sem<D>) {
    && (forall code, s, t :: Agree(names, s, t) ==> Agree(names, sem.exec(code, s), sem.exec(code, t)))
    && (forall code, s, t :: Agree(names, s, t) ==> sem.decide(code, s) == sem.decide(code, t))
  }

  /** If the machine is about to execute an instruction whose successor carries the same
      guard, the guard still holds afterwards. */
  predicate StaysTrue<D>(prog: seq<Instr>, sem: Sem<D>, c: Config<D>) {
    c.pc + 1 < |prog| && Guarded(prog[c.pc]) && prog[c.pc + 1].Compute? && prog[c.pc + 1].guard == prog[c.pc].guard
    && GuardHolds(c.store, prog[c.pc].guard)
    ==> GuardHolds(sem.exec(prog[c.pc].code, c.store), prog[c.pc].guard)
  }

  /** In its first `n` steps a run never falsifies a guard it still needs. */
  ghost predicate KeepsGuards<D>(prog: seq<Instr>, sem: Sem<D>, c: Config<D>, n: nat) {
    forall k: nat | k < n :: StaysTrue(prog, sem, RunIn(prog, sem, c, k))
  }

  lemma SameMaskSameGuard(prog: seq<Instr>, names: set<PredName>, i: nat, j: nat)
    requires Fresh(prog, names) && i < |prog| && j < |prog| && Guarded(prog[i]) && Guarded(prog[j])
    requires NextOpen(prog[i]) == NextOpen(prog[j])
    ensures prog[i].guard == prog[j].guard
  {
    var g, h := prog[i].guard.value, prog[j].guard.value;
    assert g.negated ==> MaskName(g) in names;
    assert h.negated ==> MaskName(h) in names;
  }

  // ----- the simulation relation -----

  /** Both machines are about to start on the same instruction. */
  ghost predicate AtChunk<D>(prog: seq<Instr>, names: set<PredName>, c: Config<D>, d: Masked<D>) {
    && c.pc <= |prog|
    && d.pc == Pos(prog, c.pc)
    && Agree(names, c.store, d.store)
    && d.mask.Some? == OpenBefore(prog, c.pc).Some?
    && (c.pc < |prog| && Guarded(prog[c.pc]) && OpenBefore(prog, c.pc) == NextOpen(prog[c.pc]) ==>
          d.mask == Some(GuardHolds(c.store, prog[c.pc].guard)))
  }

  /** Both machines are about to run the same instruction. */
  ghost predicate AtKeep<D>(prog: seq<Instr>, names: set<PredName>, c: Config<D>, d: Masked<D>) {
    && c.pc < |prog|
    && d.pc == Pos(prog, c.pc + 1) - 1
    && Agree(names, c.store, d.store)
    && d.mask == if Guarded(prog[c.pc]) then Some(GuardHolds(c.store, prog[c.pc].guard)) else None
  }

  ghost predicate AtEnd<D>(prog: seq<Instr>, names: set<PredName>, c: Config<D>, d: Masked<D>) {
    c.pc == |prog| && d.pc == |Lower(prog)| && Agree(names, c.store, d.store)
  }

  ghost predicate Related<D>(prog: seq<Instr>, names: set<PredName>, c: Config<D>, d: Masked<D>) {
    AtChunk(prog, names, c, d) || AtKeep(prog, names, c, d) || AtEnd(prog, names, c, d)
  }

  lemma {:induction false} RunOutAdd<D>(out: seq<Output>, sem: Sem<D>, d: Masked<D>, m: nat, n: nat)
    ensures RunOut(out, sem, d, m + n) == RunOut(out, sem, RunOut(out, sem, d, m), n)
    decreases m
  {
    if m == 0 {
    } else {
      RunOutAdd(out, sem, StepOut(out, sem, d), m - 1, n);
    }
  }

  // ----- one instruction -----

  lemma NamesAgree<D(!new)>(names: set<PredName>, s: Store<D>, t: Store<D>, guard: Option<Guard>)
    requires Agree(names, s, t) && (guard.Some? ==> guard.value.pred !in names)
    ensures GuardHolds(s, guard) == GuardHolds(t, guard)
  {
  }

  /** Opening a mask: the masked machine gets to the instruction, with the mask set to
      the value of the guard and only made-up predicates changed. */
  lemma OpenGuarded<D(!new)>(out: seq<Output>, names: set<PredName>, sem: Sem<D>, s: Store<D>, d: Masked<D>,
                             open: Option<PredName>, g: Guard, pre: seq<Output>, lo: nat)
      returns (e: Masked<D>)
    requires pre == OpenGuard(open, g)
    requires OutputOf(out, lo, pre)
    requires d.pc == lo && d.mask.Some? == open.Some? && Agree(names, s, d.store)
    requires g.pred !in names && (g.negated ==> MaskName(g) in names)
    ensures e == RunOut(out, sem, d, |pre|)
    ensures e.pc == lo + |pre| && e.mask == Some(GuardHolds(s, Some(g))) && Agree(names, s, e.store)
  {
    var d1 := d;
    var k := 0;
    if open.Some? {
      assert out[lo + 0] == pre[0];
      d1 := StepOut(out, sem, d);
      k := 1;
    }
    assert d1.pc == lo + k && d1.mask == None && d1.store == d.store && d1 == RunOut(out, sem, d, k);
    var d2 := d1;
    if g.negated {
      assert out[lo + k] == pre[k];
      d2 := StepOut(out, sem, d1);
      RunOutAdd(out, sem, d, k, 1);
      assert RunOut(out, sem, d1, 1) == d2;
      k := k + 1;
      assert Agree(names, s, d2.store);
    }
    assert out[lo + k] == pre[k];
    e := StepOut(out, sem, d2);
    RunOutAdd(out, sem, d, k, 1);
    assert RunOut(out, sem, d2, 1) == e;
    assert Pred(s, g.pred) == Pred(d.store, g.pred);
  }

  lemma ReachGuarded<D(!new)>(prog: seq<Instr>, names: set<PredName>, sem: Sem<D>, c: Config<D>, d: Masked<D>)
      returns (e: Masked<D>, k: nat)
    requires Fresh(prog, names) && AtChunk(prog, names, c, d) && c.pc < |prog| && Guarded(prog[c.pc])
    requires NextOpen(prog[c.pc]) != OpenBefore(prog, c.pc)
    ensures e == RunOut(Lower(prog), sem, d, k) && AtKeep(prog, names, c, e)
  {
    var g, open := prog[c.pc].guard.value, OpenBefore(prog, c.pc);
    var pre := OpenGuard(open, g);
    OpeningAt(prog, c.pc, pre);
    e := OpenGuarded(Lower(prog), names, sem, c.store, d, open, g, pre, Pos(prog, c.pc));
    k := |pre|;
  }

  /** From the start of an instruction's output the masked machine reaches the instruction. */
  lemma ReachKeep<D(!new)>(prog: seq<Instr>, names: set<PredName>, sem: Sem<D>, c: Config<D>, d: Masked<D>)
      returns (e: Masked<D>, k: nat)
    requires Fresh(prog, names) && AtChunk(prog, names, c, d) && c.pc < |prog|
    ensures e == RunOut(Lower(prog), sem, d, k) && AtKeep(prog, names, c, e)
  {
    var open := OpenBefore(prog, c.pc);
    if NextOpen(prog[c.pc]) == open {
      OpeningAt(prog, c.pc, []);
      e, k := d, 0;
    } else if Guarded(prog[c.pc]) {
      e, k := ReachGuarded(prog, names, sem, c, d);
    } else {
      OpeningAt(prog, c.pc, CloseMask(open));
      assert Lower(prog)[d.pc + 0] == CloseMask(open)[0];
      e, k := StepOut(Lower(prog), sem, d), 1;
      assert RunOut(Lower(prog), sem, e, 0) == e;
    }
  }

  lemma KeepCompute<D(!new)>(prog: seq<Instr>, names: set<PredName>, sem: Sem<D>, c: Config<D>, d: Masked<D>)
    requires Fresh(prog, names) && StaysTrue(prog, sem, c) && Insensitive(names, sem)
    requires AtKeep(prog, names, c, d) && prog[c.pc].Compute?
    requires d.pc < |Lower(prog)| && Lower(prog)[d.pc] == Keep(Cleared(prog[c.pc]))
    ensures AtChunk(prog, names, StepIn(prog, sem, c), StepOut(Lower(prog), sem, d))
  {
    var i, instr := c.pc, prog[c.pc];
    var c', d' := StepIn(prog, sem, c), StepOut(Lower(prog), sem, d);
    KeepAt(prog, i);
    assert GuardHolds(c.store, instr.guard) == Active(d.mask);
    if i + 1 < |prog| && Guarded(prog[i + 1]) && NextOpen(instr) == NextOpen(prog[i + 1]) {
      SameMaskSameGuard(prog, names, i, i + 1);
    }
  }

  lemma KeepLabel<D(!new)>(prog: seq<Instr>, names: set<PredName>, sem: Sem<D>, c: Config<D>, d: Masked<D>)
    requires AtKeep(prog, names, c, d) && prog[c.pc].Flow?
    ensures AtChunk(prog, names, Config(c.pc + 1, c.store), d.(pc := d.pc + 1))
  {
    KeepAt(prog, c.pc);
  }

  lemma KeepGoal<D(!new)>(prog: seq<Instr>, names: set<PredName>, c: Config<D>, d: Masked<D>, name: string)
    requires AtKeep(prog, names, c, d) && prog[c.pc].Flow?
    ensures Related(prog, names, c.(pc := Target(prog, name)), d.(pc := TargetOut(Lower(prog), name)))
  {
    TargetsAgree(prog, name);
    var t := Target(prog, name);
    if t < |prog| {
      assert AtKeep(prog, names, c.(pc := t), d.(pc := TargetOut(Lower(prog), name)));
    }
  }

  lemma KeepFlow<D(!new)>(prog: seq<Instr>, names: set<PredName>, sem: Sem<D>, c: Config<D>, d: Masked<D>)
    requires Fresh(prog, names) && Insensitive(names, sem)
    requires AtKeep(prog, names, c, d) && prog[c.pc].Flow?
    requires d.pc < |Lower(prog)| && Lower(prog)[d.pc] == Keep(prog[c.pc])
    ensures Related(prog, names, StepIn(prog, sem, c), StepOut(Lower(prog), sem, d))
  {
    var instr := prog[c.pc];
    KeepLabel(prog, names, sem, c, d);
    if instr.control.Branch? {
      NamesAgree(names, c.store, d.store, instr.guard);
      var goal := if GuardHolds(c.store, instr.guard) then sem.decide(instr.control.code, c.store) else None;
      assert goal == if GuardHolds(d.store, instr.guard) then sem.decide(instr.control.code, d.store) else None;
      if goal.Some? {
        KeepGoal(prog, names, c, d, goal.value);
      }
    }
  }

  lemma KeepStep<D(!new)>(prog: seq<Instr>, names: set<PredName>, sem: Sem<D>, c: Config<D>, d: Masked<D>)
      returns (c': Config<D>, d': Masked<D>)
    requires Fresh(prog, names) && StaysTrue(prog, sem, c) && Insensitive(names, sem)
    requires AtKeep(prog, names, c, d)
    ensures c' == StepIn(prog, sem, c) && d' == StepOut(Lower(prog), sem, d)
    ensures Related(prog, names, c', d')
  {
    KeepAt(prog, c.pc);
    c', d' := StepIn(prog, sem, c), StepOut(Lower(prog), sem, d);
    if prog[c.pc].Compute? {
      KeepCompute(prog, names, sem, c, d);
    } else {
      KeepFlow(prog, names, sem, c, d);
    }
  }

  lemma OneMore<D>(out: seq<Output>, sem: Sem<D>, d: Masked<D>, e: Masked<D>, k: nat)
    requires e == RunOut(out, sem, d, k)
    ensures StepOut(out, sem, e) == RunOut(out, sem, d, k + 1)
  {
    RunOutAdd(out, sem, d, k, 1);
    assert RunOut(out, sem, e, 1) == RunOut(out, sem, StepOut(out, sem, e), 0);
  }

  /** One step of the guarded machine is at least one step of the masked machine. */
  lemma OneStep<D(!new)>(prog: seq<Instr>, names: set<PredName>, sem: Sem<D>, c: Config<D>, d: Masked<D>)
      returns (c': Config<D>, d': Masked<D>, k: nat)
    requires Fresh(prog, names) && StaysTrue(prog, sem, c) && Insensitive(names, sem)
    requires Related(prog, names, c, d) && c.pc < |prog|
    ensures c' == StepIn(prog, sem, c) && d' == RunOut(Lower(prog), sem, d, k)
    ensures k >= 1 && Related(prog, names, c', d')
  {
    var e := d;
    k := 0;
    if AtChunk(prog, names, c, d) {
      e, k := ReachKeep(prog, names, sem, c, d);
    }
    c', d' := KeepStep(prog, names, sem, c, e);
    OneMore(Lower(prog), sem, d, e, k);
    k := k + 1;
  }

  lemma {:induction false} HaltedStays<D>(prog: seq<Instr>, sem: Sem<D>, c: Config<D>, n: nat)
    requires c.pc >= |prog|
    ensures RunIn(prog, sem, c, n) == c
    decreases n
  {
    if n == 0 {
    } else {
      HaltedStays(prog, sem, c, n - 1);
    }
  }

  lemma KeepsGuardsAfter<D>(prog: seq<Instr>, sem: Sem<D>, c: Config<D>, n: nat)
    requires n > 0 && KeepsGuards(prog, sem, c, n)
    ensures StaysTrue(prog, sem, c) && KeepsGuards(prog, sem, StepIn(prog, sem, c), n - 1)
  {
    assert StaysTrue(prog, sem, RunIn(prog, sem, c, 0));
    forall j: nat | j < n - 1 ensures StaysTrue(prog, sem, RunIn(prog, sem, StepIn(prog, sem, c), j)) {
      assert RunIn(prog, sem, StepIn(prog, sem, c), j) == RunIn(prog, sem, c, j + 1);
    }
  }

  /** Every run of the guarded program is followed by a run of the lowered one that is
      at least as long. */
  lemma {:induction false} Simulates<D(!new)>(prog: seq<Instr>, names: set<PredName>, sem: Sem<D>, c: Config<D>,
                                              d: Masked<D>, n: nat)
      returns (m: nat)
    requires Fresh(prog, names) && KeepsGuards(prog, sem, c, n) && Insensitive(names, sem)
    requires Related(prog, names, c, d)
    ensures Related(prog, names, RunIn(prog, sem, c, n), RunOut(Lower(prog), sem, d, m))
    ensures RunIn(prog, sem, c, n).pc < |prog| ==> m >= n
    decreases n
  {
    if n == 0 || c.pc >= |prog| {
      m := 0;
      if c.pc >= |prog| { HaltedStays(prog, sem, c, n); }
    } else {
      KeepsGuardsAfter(prog, sem, c, n);
      var c', d', k := OneStep(prog, names, sem, c, d);
      m := Simulates(prog, names, sem, c', d', n - 1);
      RunOutAdd(Lower(prog), sem, d, k, m);
      m := k + m;
    }
  }

  lemma StartRelated<D>(prog: seq<Instr>, names: set<PredName>, store: Store<D>)
    ensures Related(prog, names, Config(0, store), Masked(0, None, store))
  {
    assert AtChunk(prog, names, Config(0, store), Masked(0, None, store));
  }

  lemma LowerEnds(prog: seq<Instr>)
    ensures |Lower(prog)| == Pos(prog, |prog|) + |CloseMask(OpenBefore(prog, |prog|))|
    ensures forall q | Pos(prog, |prog|) <= q < |Lower(prog)| :: Lower(prog)[q] == Unmask
  {
    BodyLength(prog, |prog|);
  }

  lemma FinishRun<D(!new)>(prog: seq<Instr>, names: set<PredName>, sem: Sem<D>, c: Config<D>, d: Masked<D>)
      returns (d': Masked<D>, k: nat)
    requires Related(prog, names, c, d) && c.pc == |prog|
    ensures d' == RunOut(Lower(prog), sem, d, k)
    ensures d'.pc == |Lower(prog)| && Agree(names, c.store, d'.store)
  {
    LowerEnds(prog);
    if d.pc < |Lower(prog)| {
      d', k := StepOut(Lower(prog), sem, d), 1;
      assert RunOut(Lower(prog), sem, d', 0) == d';
    } else {
      d', k := d, 0;
    }
  }

  /** A guarded run that ends is matched by a masked run that ends with the same data and
      the same predicates, but for those the pass made up. */
  lemma LoweredEndsTheSame<D(!new)>(prog: seq<Instr>, names: set<PredName>, sem: Sem<D>, store: Store<D>, n: nat)
      returns (m: nat)
    requires Fresh(prog, names) && Insensitive(names, sem) && KeepsGuards(prog, sem, Config(0, store), n)
    requires RunIn(prog, sem, Config(0, store), n).pc == |prog|
    ensures var d := RunOut(Lower(prog), sem, Masked(0, None, store), m);
            && d.pc == |Lower(prog)|
            && Agree(names, RunIn(prog, sem, Config(0, store), n).store, d.store)
  {
    var c0, d0 := Config(0, store), Masked(0, None, store);
    StartRelated(prog, names, store);
    m := Simulates(prog, names, sem, c0, d0, n);
    var d', k := FinishRun(prog, names, sem, RunIn(prog, sem, c0, n), RunOut(Lower(prog), sem, d0, m));
    RunOutAdd(Lower(prog), sem, d0, m, k);
    m := m + k;
  }

  lemma {:induction false} OutHaltedStays<D>(out: seq<Output>, sem: Sem<D>, d: Masked<D>, n: nat)
    requires d.pc >= |out|
    ensures RunOut(out, sem, d, n) == d
    decreases n
  {
    if n == 0 {
    } else {
      OutHaltedStays(out, sem, d, n - 1);
    }
  }

  lemma RunningBefore<D>(out: seq<Output>, sem: Sem<D>, d: Masked<D>, n: nat, m: nat)
    requires n <= m && RunOut(out, sem, d, m).pc < |out|
    ensures RunOut(out, sem, d, n).pc < |out|
  {
    RunOutAdd(out, sem, d, n, m - n);
    if RunOut(out, sem, d, n).pc >= |out| {
      OutHaltedStays(out, sem, RunOut(out, sem, d, n), m - n);
    }
  }

  lemma RelatedRuns<D(!new)>(prog: seq<Instr>, names: set<PredName>, c: Config<D>, d: Masked<D>)
    requires Related(prog, names, c, d) && c.pc < |prog|
    ensures d.pc < |Lower(prog)|
  {
    KeepAt(prog, c.pc);
  }

  /** While the guarded run goes on, the masked run does not end either. */
  lemma LoweredRunsAsLong<D(!new)>(prog: seq<Instr>, names: set<PredName>, sem: Sem<D>, store: Store<D>, n: nat)
    requires Fresh(prog, names) && Insensitive(names, sem) && KeepsGuards(prog, sem, Config(0, store), n)
    requires RunIn(prog, sem, Config(0, store), n).pc < |prog|
    ensures RunOut(Lower(prog), sem, Masked(0, None, store), n).pc < |Lower(prog)|
  {
    var c, d := Config(0, store), Masked(0, None, store);
    StartRelated(prog, names, store);
    var m := Simulates(prog, names, sem, c, d, n);
    RelatedRuns(prog, names, RunIn(prog, sem, c, n), RunOut(Lower(prog), sem, d, m));
    RunningBefore(Lower(prog), sem, d, n, m);
  }
}
