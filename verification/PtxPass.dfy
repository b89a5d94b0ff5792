/** The pass as it changes a kernel, when it fails, and why guards must be kept. */
module PtxPass {
  import opened Options
  import opened PtxPredicates
  import opened PtxSimulation

  /** Whether a Not can be built from a destination and a source alone. As written it
      cannot: its constructor also wants an operation type and has no default for it. */
  datatype NotConstructor = NeedsType | DefaultsType

  /** The pass builds a Not for instruction `i`: its guard is negated and its mask is not
      the one that is open. */
  predicate BuildsNot(prog: seq<Instr>, i: nat)
    requires i < |prog|
  {
    Guarded(prog[i]) && prog[i].guard.value.negated && NextOpen(prog[i]) != OpenBefore(prog, i)
  }

  /** The kernel's predicates after `i` instructions. */
  function PredsAfter(preds: set<PredName>, prog: seq<Instr>, i: nat): set<PredName>
    requires i <= |prog|
  {
    if i == 0 then preds
    else
      var before := PredsAfter(preds, prog, i - 1);
      if Guarded(prog[i - 1]) && prog[i - 1].guard.value.negated
      then before + {MaskName(prog[i - 1].guard.value)} else before
  }

  /** The instruction objects once the first `i` of them were read. */
  predicate IsRead(source: seq<Instr>, prog: seq<Instr>, i: nat) {
    |source| == |prog| && forall j | 0 <= j < |prog| :: source[j] == if j < i then Cleared(prog[j]) else prog[j]
  }

  /** `i` is the first instruction for which a Not is built. */
  predicate FirstNot(prog: seq<Instr>, i: nat) {
    i < |prog| && BuildsNot(prog, i) && forall j | 0 <= j < i :: !BuildsNot(prog, j)
  }

  class Kernel {
    var source: seq<Instr>  // the instruction objects, whose guards the pass clears in place
    var instructions: seq<Output>
    var predicates: set<PredName>

    /** What one turn of the loop appends. */
    static method Append(output: seq<Output>, open: Option<PredName>, instr: Instr)
        returns (output': seq<Output>, open': Option<PredName>)
      ensures output' == output + Chunk(open, instr) && open' == NextOpen(instr)
    {
      output', open' := output, open;
      if !Guarded(instr) {
        if open.Some? {
          output', open' := output' + [Unmask], None;
        }
      } else {
        var g := instr.guard.value;
        var mask := if g.negated then NotName(g.pred) else g.pred;
        if open != Some(mask) {
          if open.Some? {
            output' := output' + [Unmask];
          }
          if g.negated {
            output' := output' + [NotOf(mask, g.pred)];
          }
          output', open' := output' + [OpenMask(mask)], Some(mask);
        }
      }
      assert output' == output + Opening(open, instr);
      output' := output' + [Keep(Cleared(instr))];
      assert output' == output + Chunk(open, instr);
    }

    /** One turn of the loop: reads instruction `i`, or fails on building a Not for it. */
    method ReadOne(maker: NotConstructor, i: nat, output: seq<Output>, open: Option<PredName>,
                   ghost prog: seq<Instr>, ghost preds: set<PredName>)
        returns (ok: bool, output': seq<Output>, open': Option<PredName>)
      requires i < |prog| == |source| && IsRead(source, prog, i) && predicates == PredsAfter(preds, prog, i)
      requires output == Body(prog, i) && open == OpenBefore(prog, i)
      modifies this`source, this`predicates
      ensures ok <==> maker.DefaultsType? || !BuildsNot(prog, i)
      ensures predicates == PredsAfter(preds, prog, i + 1)
      ensures ok ==> IsRead(source, prog, i + 1) && output' == Body(prog, i + 1) && open' == OpenBefore(prog, i + 1)
      ensures !ok ==> source == old(source)
    {
      var instr := source[i];
      if Guarded(instr) && instr.guard.value.negated {
        predicates := predicates + {NotName(instr.guard.value.pred)};
        if maker.NeedsType? && open != Some(NotName(instr.guard.value.pred)) {
          return false, output, open;
        }
      }
      output', open' := Append(output, open, instr);
      source := source[i := Cleared(instr)];
      ok := true;
    }

    /** The loop of the pass; `stop` is the instruction it failed on, or the end. */
    method ReadThrough(maker: NotConstructor, ghost prog: seq<Instr>, ghost preds: set<PredName>)
        returns (ok: bool, output: seq<Output>, open: Option<PredName>, ghost stop: nat)
      requires source == prog && predicates == preds
      modifies this`source, this`predicates
      ensures stop <= |prog| && IsRead(source, prog, stop)
      ensures forall j | 0 <= j < stop :: maker.DefaultsType? || !BuildsNot(prog, j)
      ensures ok ==> stop == |prog| && predicates == PredsAfter(preds, prog, stop)
                     && output == Body(prog, stop) && open == OpenBefore(prog, stop)
      ensures !ok ==> stop < |prog| && maker.NeedsType? && BuildsNot(prog, stop)
                      && predicates == PredsAfter(preds, prog, stop + 1)
    {
      output, open := [], None;
      var i := 0;
      while i < |source|
        invariant i <= |prog| == |source| && IsRead(source, prog, i) && predicates == PredsAfter(preds, prog, i)
        invariant output == Body(prog, i) && open == OpenBefore(prog, i)
        invariant forall j | 0 <= j < i :: maker.DefaultsType? || !BuildsNot(prog, j)
      {
        ok, output, open := ReadOne(maker, i, output, open, prog, preds);
        if !ok {
          return false, output, open, i;
        }
        i := i + 1;
      }
      return true, output, open, i;
    }

    /** Runs the pass; false if building a Not raised an error on the way, after the guards
        of the instructions read so far were cleared. */
    method RunPredicatesPass(maker: NotConstructor) returns (ok: bool, ghost stop: nat)
      modifies this
      ensures ok <==> maker.DefaultsType? || forall i | 0 <= i < |old(source)| :: !BuildsNot(old(source), i)
      ensures ok ==> instructions == Lower(old(source)) && source == AllCleared(old(source), |old(source)|)
                     && predicates == PredsAfter(old(predicates), old(source), |old(source)|)
      ensures !ok ==> instructions == old(instructions) && FirstNot(old(source), stop)
                      && IsRead(source, old(source), stop)
                      && predicates == PredsAfter(old(predicates), old(source), stop + 1)
    {
      ghost var prog := source;
      var output, open;
      ok, output, open, stop := ReadThrough(maker, source, predicates);
      if ok {
        instructions := output + if open.Some? then [Unmask] else [];
      }
    }
  }

  /** Before a negated guard, or at it, a Not is built. */
  lemma {:induction false} FirstOfGroup(prog: seq<Instr>, names: set<PredName>, i: nat) returns (j: nat)
    requires Fresh(prog, names) && i < |prog| && Guarded(prog[i]) && prog[i].guard.value.negated
    ensures j <= i && BuildsNot(prog, j) && prog[j].guard == prog[i].guard
    decreases i
  {
    if BuildsNot(prog, i) {
      j := i;
    } else {
      SameMaskSameGuard(prog, names, i - 1, i);
      j := FirstOfGroup(prog, names, i - 1);
    }
  }

  /** As written the pass fails on exactly the programs that negate a guard, if no guard
      is spelled like a name the pass makes up. */
  lemma FailsExactlyOnNegation(prog: seq<Instr>, names: set<PredName>)
    requires Fresh(prog, names)
    ensures (exists i :: 0 <= i < |prog| && BuildsNot(prog, i)) <==>
            (exists i :: 0 <= i < |prog| && Guarded(prog[i]) && prog[i].guard.value.negated)
  {
    if i :| 0 <= i < |prog| && Guarded(prog[i]) && prog[i].guard.value.negated {
      var j := FirstOfGroup(prog, names, i);
    }
  }
}
