/** The predicates that the pass makes up: how they are spelled, and that they join those of the kernel. */
module PtxNames {
  import opened PtxPredicates
  import opened PtxSimulation
  import opened PtxPass

  // ---- spelling ----

  function Spelling(p: PredName): string
    decreases p.nots
  {
    if p.nots == 0 then p.stem else Spelling(PredName(p.stem, p.nots - 1)) + "Not"
  }

  predicate EndsInNot(s: string) { |s| >= 3 && s[|s| - 3..] == "Not" }

  /** Names whose stems do not end in "Not" are told apart by their texts. */
  lemma {:induction false} SpellingTells(a: PredName, b: PredName)
    requires !EndsInNot(a.stem) && !EndsInNot(b.stem) && Spelling(a) == Spelling(b)
    ensures a == b
    decreases a.nots
  {
    if a.nots > 0 { EndsAgain(a); }
    if b.nots > 0 { EndsAgain(b); }
    if a.nots > 0 && b.nots > 0 {
      var x, y := Spelling(PredName(a.stem, a.nots - 1)), Spelling(PredName(b.stem, b.nots - 1));
      assert x == (x + "Not")[..|x + "Not"| - 3] == (y + "Not")[..|y + "Not"| - 3] == y;
      SpellingTells(PredName(a.stem, a.nots - 1), PredName(b.stem, b.nots - 1));
    }
  }

  lemma EndsAgain(p: PredName)
    requires p.nots > 0
    ensures EndsInNot(Spelling(p))
  {}

  // ---- what the output assigns ----

  /** The output assigns the negation of `s` to `d`. */
  predicate Assigns(prog: seq<Instr>, d: PredName, s: PredName) { NotOf(d, s) in Lower(prog) }

  /** The predicate assigned is spelled like the negated one with "Not" behind it. */
  lemma AssignedIsNegation(prog: seq<Instr>, d: PredName, s: PredName)
    requires Assigns(prog, d, s)
    ensures Spelling(d) == Spelling(s) + "Not" && d.stem == s.stem
    ensures exists i :: 0 <= i < |prog| && Guarded(prog[i]) && prog[i].guard.value == Guard(s, true)
  {
    var i := AssignedIn(prog, |prog|, d, s);
    assert PredName(d.stem, d.nots - 1) == s;
  }

  lemma {:induction false} AssignedIn(prog: seq<Instr>, n: nat, d: PredName, s: PredName) returns (i: nat)
    requires n <= |prog| && NotOf(d, s) in Body(prog, n)
    ensures i < n && BuildsNot(prog, i) && prog[i].guard.value == Guard(s, true) && d == NotName(s)
  {
    if NotOf(d, s) in ChunkOf(prog, n - 1) {
      i := n - 1;
    } else {
      i := AssignedIn(prog, n - 1, d, s);
    }
  }

  lemma {:induction false} BuiltIsAssigned(prog: seq<Instr>, n: nat, i: nat)
    requires i < n <= |prog| && BuildsNot(prog, i)
    ensures NotOf(MaskName(prog[i].guard.value), prog[i].guard.value.pred) in Body(prog, n)
  {
    if i == n - 1 { BuiltInChunk(prog, i); } else { BuiltIsAssigned(prog, n - 1, i); }
  }

  lemma BuiltInChunk(prog: seq<Instr>, i: nat)
    requires i < |prog| && BuildsNot(prog, i)
    ensures NotOf(MaskName(prog[i].guard.value), prog[i].guard.value.pred) in ChunkOf(prog, i)
  {
    var g := prog[i].guard.value;
    assert NotOf(MaskName(g), g.pred) in OpenGuard(OpenBefore(prog, i), g);
  }

  // ---- the kernel's predicates ----

  lemma {:induction false} NewPredicate(preds: set<PredName>, prog: seq<Instr>, n: nat, p: PredName)
    requires n <= |prog|
    ensures p in PredsAfter(preds, prog, n) <==>
            p in preds || exists i :: 0 <= i < n && Guarded(prog[i]) && prog[i].guard.value.negated
                                      && p == MaskName(prog[i].guard.value)
  {
    if n > 0 { NewPredicate(preds, prog, n - 1, p); }
  }

  /** Every predicate that the output assigns has joined those of the kernel; the others are the old ones, if no guard
      is spelled like a name the pass makes up. */
  lemma PredicatesExactly(preds: set<PredName>, prog: seq<Instr>, p: PredName)
    ensures (exists s :: Assigns(prog, p, s)) ==> p in PredsAfter(preds, prog, |prog|)
    ensures p in preds ==> p in PredsAfter(preds, prog, |prog|)
    ensures (exists names :: Fresh(prog, names)) && p in PredsAfter(preds, prog, |prog|) && p !in preds ==>
              exists s :: Assigns(prog, p, s)
  {
    NewPredicate(preds, prog, |prog|, p);
    if s :| Assigns(prog, p, s) {
      var i := AssignedIn(prog, |prog|, p, s);
    }
    if names :| Fresh(prog, names) && p in PredsAfter(preds, prog, |prog|) && p !in preds {
      var i :| 0 <= i < |prog| && Guarded(prog[i]) && prog[i].guard.value.negated && p == MaskName(prog[i].guard.value);
      var j := FirstOfGroup(prog, names, i);
      BuiltIsAssigned(prog, |prog|, j);
      assert Assigns(prog, p, prog[j].guard.value.pred);
    }
  }

  // ---- when made-up names are new ----

  function MadeUp(prog: seq<Instr>): set<PredName> {
    set i | 0 <= i < |prog| && Guarded(prog[i]) && prog[i].guard.value.negated :: MaskName(prog[i].guard.value)
  }

  /** Made-up names are new exactly when no guard is spelled like a negated guard with "Not" behind it. */
  lemma FreshExactly(prog: seq<Instr>)
    requires forall i | 0 <= i < |prog| && prog[i].guard.Some? :: !EndsInNot(prog[i].guard.value.pred.stem)
    ensures (exists names :: Fresh(prog, names)) <==>
            forall i, j | 0 <= i < |prog| && 0 <= j < |prog| && Guarded(prog[i]) && prog[i].guard.value.negated
                          && prog[j].guard.Some? ::
              Spelling(prog[j].guard.value.pred) != Spelling(prog[i].guard.value.pred) + "Not"
  {
    if names :| Fresh(prog, names) {
      forall i, j | 0 <= i < |prog| && 0 <= j < |prog| && Guarded(prog[i]) && prog[i].guard.value.negated
                    && prog[j].guard.Some?
        ensures Spelling(prog[j].guard.value.pred) != Spelling(prog[i].guard.value.pred) + "Not"
      {
        NotIsAppended(prog[i].guard.value.pred);
        assert MaskName(prog[i].guard.value) in names;
        if Spelling(prog[j].guard.value.pred) == Spelling(prog[i].guard.value.pred) + "Not" {
          SpellingTells(prog[j].guard.value.pred, NotName(prog[i].guard.value.pred));
        }
      }
    }
    if !Fresh(prog, MadeUp(prog)) {
      var j :| 0 <= j < |prog| && prog[j].guard.Some? && prog[j].guard.value.pred in MadeUp(prog);
      var i :| 0 <= i < |prog| && Guarded(prog[i]) && prog[i].guard.value.negated
               && prog[j].guard.value.pred == MaskName(prog[i].guard.value);
      NotIsAppended(prog[i].guard.value.pred);
    }
  }

  lemma NotIsAppended(p: PredName)
    ensures Spelling(NotName(p)) == Spelling(p) + "Not"
  {
    assert PredName(p.stem, p.nots) == p;
  }
}
