/** Lowering guarded instructions to masked blocks: the pass, the two machines that
    run its input and its output, and the simulation between them. */
module PtxPredicates {
  import opened Options

  // A predicate name is split into its stem and the number of times "Not" follows it,
  // so that the name the pass makes up for a negation is one "Not" longer.
  datatype PredName = PredName(stem: string, nots: nat)

  datatype Guard = Guard(pred: PredName, negated: bool)

  datatype Control = Label(name: string) | Branch(code: string)

  datatype Instr =
    | Compute(code: string, guard: Option<Guard>)
    | Flow(control: Control, guard: Option<Guard>)

  datatype Output =
    | Keep(instr: Instr)
    | NotOf(dst: PredName, src: PredName)
    | OpenMask(pred: PredName)
    | Unmask

  // ----- the pass -----

  function NotName(p: PredName): PredName {
    PredName(p.stem, p.nots + 1)
  }

  function MaskName(g: Guard): PredName {
    if g.negated then NotName(g.pred) else g.pred
  }

  predicate Guarded(instr: Instr) {
    instr.Compute? && instr.guard.Some?
  }

  function Cleared(instr: Instr): Instr {
    match instr
    case Compute(code, _) => Compute(code, None)
    case Flow(_, _) => instr
  }

  /** The open mask after an instruction, by the name of its predicate. */
  function NextOpen(instr: Instr): Option<PredName> {
    if Guarded(instr) then Some(MaskName(instr.guard.value)) else None
  }

  function CloseMask(open: Option<PredName>): seq<Output> {
    if open.Some? then [Unmask] else []
  }

  /** Closing the open mask, if any, and opening that of a guard. */
  function OpenGuard(open: Option<PredName>, g: Guard): seq<Output> {
    var name := MaskName(g);
    if open.Some? && g.negated then [Unmask, NotOf(name, g.pred), OpenMask(name)]
    else if open.Some? then [Unmask, OpenMask(name)]
    else if g.negated then [NotOf(name, g.pred), OpenMask(name)]
    else [OpenMask(name)]
  }

  /** What the pass appends in front of an instruction. */
  function Opening(open: Option<PredName>, instr: Instr): seq<Output> {
    if NextOpen(instr) == open then []
    else if Guarded(instr) then OpenGuard(open, instr.guard.value)
    else CloseMask(open)
  }

  function Chunk(open: Option<PredName>, instr: Instr): seq<Output> {
    Opening(open, instr) + [Keep(Cleared(instr))]
  }

  /** The mask that is open in front of instruction `i`. */
  function OpenBefore(prog: seq<Instr>, i: nat): Option<PredName>
    requires i <= |prog|
  {
    if i == 0 then None else NextOpen(prog[i - 1])
  }

  function ChunkOf(prog: seq<Instr>, i: nat): (chunk: seq<Output>)
    requires i < |prog|
    ensures |chunk| >= 1
  {
    Chunk(OpenBefore(prog, i), prog[i])
  }

  /** What the loop of the pass has appended after `i` instructions. */
  function Body(prog: seq<Instr>, i: nat): seq<Output>
    requires i <= |prog|
  {
    if i == 0 then [] else Body(prog, i - 1) + ChunkOf(prog, i - 1)
  }

  function Lower(prog: seq<Instr>): seq<Output> {
    Body(prog, |prog|) + CloseMask(OpenBefore(prog, |prog|))
  }

  // ----- the machines -----

  datatype Store<D> = Store(preds: map<PredName, bool>, data: D)

  function Pred<D>(s: Store<D>, p: PredName): bool {
    p in s.preds && s.preds[p]
  }

  function GuardHolds<D>(s: Store<D>, guard: Option<Guard>): bool {
    guard.None? || Pred(s, guard.value.pred) != guard.value.negated
  }

  /** What instructions do: `exec` is the effect of a compute instruction, `decide` the
      label a branch goes to, if it is taken. */
  datatype Sem<!D> = Sem(exec: (string, Store<D>) -> Store<D>, decide: (string, Store<D>) -> Option<string>)

  datatype Config<D> = Config(pc: nat, store: Store<D>)

  predicate IsLabel(instr: Instr, name: string) {
    instr.Flow? && instr.control == Label(name)
  }

  /** The first of the first `i` instructions that is this label, or `i`. */
  function FirstLabel(prog: seq<Instr>, i: nat, name: string): (r: nat)
    requires i <= |prog|
    ensures r <= i && (r < i ==> IsLabel(prog[r], name))
    ensures forall j | 0 <= j < r :: !IsLabel(prog[j], name)
  {
    if i == 0 then 0
    else
      var r := FirstLabel(prog, i - 1, name);
      if r == i - 1 && !IsLabel(prog[i - 1], name) then i else r
  }

  /** Where a label stands; past the end if it is nowhere. */
  function Target(prog: seq<Instr>, name: string): nat {
    FirstLabel(prog, |prog|, name)
  }

  function StepIn<D>(prog: seq<Instr>, sem: Sem<D>, c: Config<D>): Config<D> {
    if c.pc >= |prog| then c
    else
      match prog[c.pc]
      case Compute(code, guard) =>
        Config(c.pc + 1, if GuardHolds(c.store, guard) then sem.exec(code, c.store) else c.store)
      case Flow(Label(_), _) => c.(pc := c.pc + 1)
      case Flow(Branch(code), guard) =>
        var goal := if GuardHolds(c.store, guard) then sem.decide(code, c.store) else None;
        c.(pc := if goal.Some? then Target(prog, goal.value) else c.pc + 1)
  }

  function RunIn<D>(prog: seq<Instr>, sem: Sem<D>, c: Config<D>, n: nat): Config<D>
    decreases n
  {
    if n == 0 then c else RunIn(prog, sem, StepIn(prog, sem, c), n - 1)
  }

  // A masked machine also remembers the value its mask predicate had when it was opened.
  datatype Masked<D> = Masked(pc: nat, mask: Option<bool>, store: Store<D>)

  predicate Active(mask: Option<bool>) {
    mask.None? || mask.value
  }

  predicate KeepsLabel(o: Output, name: string) {
    o.Keep? && IsLabel(o.instr, name)
  }

  function FirstLabelOut(out: seq<Output>, i: nat, name: string): (r: nat)
    requires i <= |out|
    ensures r <= i && (r < i ==> KeepsLabel(out[r], name))
    ensures forall j | 0 <= j < r :: !KeepsLabel(out[j], name)
  {
    if i == 0 then 0
    else
      var r := FirstLabelOut(out, i - 1, name);
      if r == i - 1 && !KeepsLabel(out[i - 1], name) then i else r
  }

  function TargetOut(out: seq<Output>, name: string): nat {
    FirstLabelOut(out, |out|, name)
  }

  function StepOut<D>(out: seq<Output>, sem: Sem<D>, d: Masked<D>): Masked<D> {
    if d.pc >= |out| then d
    else
      match out[d.pc]
      case OpenMask(p) => Masked(d.pc + 1, Some(Pred(d.store, p)), d.store)
      case Unmask => Masked(d.pc + 1, None, d.store)
      case NotOf(dst, src) =>
        var preds := d.store.preds[dst := !Pred(d.store, src)];
        Masked(d.pc + 1, d.mask, if Active(d.mask) then d.store.(preds := preds) else d.store)
      case Keep(Compute(code, guard)) =>
        var runs := Active(d.mask) && GuardHolds(d.store, guard);
        Masked(d.pc + 1, d.mask, if runs then sem.exec(code, d.store) else d.store)
      case Keep(Flow(Label(_), _)) => d.(pc := d.pc + 1)
      case Keep(Flow(Branch(code), guard)) =>
        var goal := if GuardHolds(d.store, guard) then sem.decide(code, d.store) else None;
        d.(pc := if goal.Some? then TargetOut(out, goal.value) else d.pc + 1)
  }

  function RunOut<D>(out: seq<Output>, sem: Sem<D>, d: Masked<D>, n: nat): Masked<D>
    decreases n
  {
    if n == 0 then d else RunOut(out, sem, StepOut(out, sem, d), n - 1)
  }

  // ----- the shape of the output -----

  function Erased(out: seq<Output>): seq<Instr> {
    if out == [] then []
    else Kept(out[0]) + Erased(out[1..])
  }

  /** The first `i` instructions, guards cleared. */
  function AllCleared(prog: seq<Instr>, i: nat): (r: seq<Instr>)
    requires i <= |prog|
    ensures |r| == i && forall j | 0 <= j < i :: r[j] == Cleared(prog[j])
  {
    if i == 0 then [] else AllCleared(prog, i - 1) + [Cleared(prog[i - 1])]
  }

  /** Whether a mask is open after `out`, or None when one was opened inside another,
      closed when none was open, or spanned a label or a branch. */
  function MaskOpen(out: seq<Output>): Option<bool> {
    if out == [] then Some(false)
    else MaskStep(MaskOpen(out[..|out| - 1]), out[|out| - 1])
  }

  function MaskStep(open: Option<bool>, o: Output): Option<bool> {
    if open.None? then None
    else
      match o
      case OpenMask(_) => if open.value then None else Some(true)
      case Unmask => if open.value then Some(false) else None
      case NotOf(_, _) => if open.value then None else open
      case Keep(instr) => if instr.Flow? && open.value then None else open
  }

  lemma Regroup(a: seq<Instr>, b: seq<Instr>, c: seq<Instr>)
    ensures a + (b + c) == a + b + c
  {
  }

  function Kept(o: Output): seq<Instr> {
    if o.Keep? then [o.instr] else []
  }

  lemma {:induction false} ErasedAppend(a: seq<Output>, b: seq<Output>)
    ensures Erased(a + b) == Erased(a) + Erased(b)
  {
    if a == [] {
      assert a + b == b;
    } else {
      var tail := a[1..];
      assert (a + b)[1..] == tail + b && (a + b)[0] == a[0];
      ErasedAppend(tail, b);
      Regroup(Kept(a[0]), Erased(tail), Erased(b));
    }
  }

  lemma {:induction false} NothingKept(out: seq<Output>)
    requires forall i | 0 <= i < |out| :: !out[i].Keep?
    ensures Erased(out) == []
  {
    if out == [] {
    } else {
      NothingKept(out[1..]);
    }
  }

  lemma OpeningKeepsNothing(open: Option<PredName>, instr: Instr)
    ensures forall i | 0 <= i < |Opening(open, instr)| :: !Opening(open, instr)[i].Keep?
  {
  }

  /** A chunk keeps the instruction it was made for, guard cleared, and nothing else. */
  lemma ChunkErases(out: seq<Output>, pre: seq<Output>, x: Instr)
    requires forall i | 0 <= i < |pre| :: !pre[i].Keep?
    ensures Erased(out + (pre + [Keep(x)])) == Erased(out) + [x]
  {
    NothingKept(pre);
    ErasedAppend(pre, [Keep(x)]);
    assert [Keep(x)][1..] == [];
    ErasedAppend(out, pre + [Keep(x)]);
  }

  lemma {:induction false} BodyErases(prog: seq<Instr>, i: nat)
    requires i <= |prog|
    ensures Erased(Body(prog, i)) == AllCleared(prog, i)
  {
    if i == 0 {
    } else {
      BodyErases(prog, i - 1);
      OpeningKeepsNothing(OpenBefore(prog, i - 1), prog[i - 1]);
      ChunkErases(Body(prog, i - 1), Opening(OpenBefore(prog, i - 1), prog[i - 1]), Cleared(prog[i - 1]));
    }
  }

  /** Erasing what the pass added gives back its input, in order, guards cleared. */
  lemma ErasingGivesInput(prog: seq<Instr>)
    ensures Erased(Lower(prog)) == AllCleared(prog, |prog|)
  {
    var close := CloseMask(OpenBefore(prog, |prog|));
    BodyErases(prog, |prog|);
    NothingKept(close);
    ErasedAppend(Body(prog, |prog|), close);
  }

  lemma MaskOpenAppend(out: seq<Output>, o: Output)
    ensures MaskOpen(out + [o]) == MaskStep(MaskOpen(out), o)
  {
    assert (out + [o])[..|out|] == out;
  }

  lemma MaskOpenClose(out: seq<Output>, open: Option<PredName>)
    requires MaskOpen(out) == Some(open.Some?)
    ensures MaskOpen(out + CloseMask(open)) == Some(false)
  {
    if open.Some? { MaskOpenAppend(out, Unmask); } else { assert out + [] == out; }
  }

  lemma MaskOpenOpening(out: seq<Output>, open: Option<PredName>, instr: Instr)
    requires MaskOpen(out) == Some(open.Some?)
    ensures MaskOpen(out + Opening(open, instr)) == Some(NextOpen(instr).Some?)
  {
    if NextOpen(instr) == open {
      assert out + [] == out;
    } else if Guarded(instr) {
      MaskOpenGuard(out, open, instr.guard.value);
    } else {
      MaskOpenClose(out, open);
    }
  }

  lemma MaskOpenGuard(out: seq<Output>, open: Option<PredName>, g: Guard)
    requires MaskOpen(out) == Some(open.Some?)
    ensures MaskOpen(out + OpenGuard(open, g)) == Some(true)
  {
    var closed := out + CloseMask(open);
    MaskOpenClose(out, open);
    var prepared := if g.negated then closed + [NotOf(MaskName(g), g.pred)] else closed;
    if g.negated { MaskOpenAppend(closed, NotOf(MaskName(g), g.pred)); }
    MaskOpenAppend(prepared, OpenMask(MaskName(g)));
    assert out + OpenGuard(open, g) == prepared + [OpenMask(MaskName(g))];
  }

  lemma MaskOpenChunk(out: seq<Output>, open: Option<PredName>, instr: Instr)
    requires MaskOpen(out) == Some(open.Some?)
    ensures MaskOpen(out + Chunk(open, instr)) == Some(NextOpen(instr).Some?)
  {
    MaskOpenOpening(out, open, instr);
    MaskOpenAppend(out + Opening(open, instr), Keep(Cleared(instr)));
    assert out + Chunk(open, instr) == out + Opening(open, instr) + [Keep(Cleared(instr))];
  }

  lemma {:induction false} BodyMask(prog: seq<Instr>, i: nat)
    requires i <= |prog|
    ensures MaskOpen(Body(prog, i)) == Some(OpenBefore(prog, i).Some?)
  {
    if i == 0 {
    } else {
      BodyMask(prog, i - 1);
      MaskOpenChunk(Body(prog, i - 1), OpenBefore(prog, i - 1), prog[i - 1]);
    }
  }

  /** Masks are balanced, never nested, and never open at a label or a branch. */
  lemma MasksAreBalanced(prog: seq<Instr>)
    ensures MaskOpen(Lower(prog)) == Some(false)
  {
    BodyMask(prog, |prog|);
    MaskOpenClose(Body(prog, |prog|), OpenBefore(prog, |prog|));
  }
}
