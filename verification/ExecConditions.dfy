/** The execution-mask algebra: a mask is the conjunction of a finite set of
    conditions, each condition a string of source text, and a lane is an
    assignment of truth values to the condition texts that are not negations. */
module ExecConditions {
  import opened Options

  /** The condition text that stands for "every lane"; it never restricts a mask. */
  const DEFAULT := ""

  /** Which texts hold for one lane. Only texts that are not negations are looked up. */
  type Lane = string -> bool

  /** A mask, kept as the set of its significant conditions: the default text
      is dropped when a mask is built. */
  datatype ConditionSet = Mask(conds: set<string>)

  type ExecCondition = m: ConditionSet | DEFAULT !in m.conds witness Mask({})

  // ----- condition texts -----

  predicate IsNegation(cond: string) {
    |cond| >= 3 && cond[0] == '!' && cond[1] == '(' && cond[|cond| - 1] == ')'
  }

  function Negated(cond: string): string
    requires IsNegation(cond)
  {
    cond[2..|cond| - 1]
  }

  function MakeNot(cond: string): string {
    if IsNegation(cond) then Negated(cond) else "!(" + cond + ")"
  }

  predicate AreNegations(left: string, right: string) {
    left == MakeNot(right) || right == MakeNot(left)
  }

  /** What a condition text says about a lane. */
  predicate CondHolds(lane: Lane, cond: string)
    decreases |cond|
  {
    if cond == DEFAULT then true
    else if IsNegation(cond) then !CondHolds(lane, Negated(cond))
    else lane(cond)
  }

  predicate Holds(lane: Lane, mask: ExecCondition) {
    forall c | c in mask.conds :: CondHolds(lane, c)
  }

  lemma MakeNotNegates(lane: Lane, cond: string)
    ensures CondHolds(lane, MakeNot(cond)) == !CondHolds(lane, cond)
  {
    if !IsNegation(cond) {
      var n := MakeNot(cond);
      assert IsNegation(n) && Negated(n) == cond;
    }
  }

  lemma NegationsDisagree(lane: Lane, left: string, right: string)
    requires AreNegations(left, right)
    ensures CondHolds(lane, left) == !CondHolds(lane, right)
  {
    MakeNotNegates(lane, left);
    MakeNotNegates(lane, right);
  }

  // ----- operations -----

  function Default(): ExecCondition {
    Mask({})
  }

  function FromConditions(conds: set<string>): ExecCondition {
    Mask(conds - {DEFAULT})
  }

  function And(mask: ExecCondition, cond: string): ExecCondition {
    FromConditions(mask.conds + {cond})
  }

  predicate IsSubsetOf(a: ExecCondition, b: ExecCondition) {
    a.conds <= b.conds
  }

  predicate IsStrictSubsetOf(a: ExecCondition, b: ExecCondition) {
    a.conds < b.conds
  }

  predicate IsStrictSupersetOf(a: ExecCondition, b: ExecCondition) {
    b.conds < a.conds
  }

  /** The only element of a one-element set. */
  function Only<T(==)>(s: set<T>): (x: T)
    requires |s| == 1
    ensures s == {x}
  {
    var x :| x in s;
    assert |s - {x}| == 0;
    assert s == (s - {x}) + {x};
    x
  }

  predicate AreSiblings(a: ExecCondition, b: ExecCondition) {
    exists c, d | c in a.conds && d in b.conds ::
      AreNegations(c, d) && a.conds - b.conds == {c} && b.conds - a.conds == {d}
  }

  /** The common part of two masks that differ in one condition and its negation. */
  function NegatedSiblingParent(a: ExecCondition, b: ExecCondition): Option<ExecCondition> {
    if AreSiblings(a, b) then Some(Mask(a.conds * b.conds)) else None
  }

  /** Mask union; None where neither rule applies and no mask is formed. */
  function Or(a: ExecCondition, b: ExecCondition): Option<ExecCondition> {
    var parent := NegatedSiblingParent(a, b);
    if parent.Some? then parent
    else if IsSubsetOf(b, a) then Some(FromConditions(b.conds))
    else if IsSubsetOf(a, b) then Some(FromConditions(a.conds))
    else None
  }

  /** Removing `b` from the mask `a` that extends it; None where an assertion fails. */
  function XorFrom(a: ExecCondition, b: ExecCondition): Option<ExecCondition> {
    var added := a.conds - b.conds;
    if !IsSubsetOf(b, a) || |added| != 1 then None
    else Some(FromConditions(b.conds + {MakeNot(Only(added))}))
  }

  function Xor(a: ExecCondition, b: ExecCondition): Option<ExecCondition> {
    if IsStrictSubsetOf(b, a) then XorFrom(a, b)
    else if IsStrictSubsetOf(a, b) then XorFrom(b, a)
    else None
  }

  // ----- what the operations mean -----

  lemma FromConditionsHolds(lane: Lane, conds: set<string>)
    ensures Holds(lane, FromConditions(conds)) == (forall c | c in conds :: CondHolds(lane, c))
  {
    var m := FromConditions(conds);
    if Holds(lane, m) {
      forall c | c in conds ensures CondHolds(lane, c) {
        if c != DEFAULT { assert c in m.conds; }
      }
    }
  }

  lemma AndIsConjunction(lane: Lane, mask: ExecCondition, cond: string)
    ensures Holds(lane, And(mask, cond)) == (Holds(lane, mask) && CondHolds(lane, cond))
  {
    FromConditionsHolds(lane, mask.conds + {cond});
    if Holds(lane, And(mask, cond)) {
      assert cond in mask.conds + {cond};
      forall c | c in mask.conds ensures CondHolds(lane, c) {
        assert c in mask.conds + {cond};
      }
    }
  }

  /** A mask with more conditions selects fewer lanes. */
  lemma SupersetImplies(lane: Lane, a: ExecCondition, b: ExecCondition)
    requires IsSubsetOf(b, a)
    requires Holds(lane, a)
    ensures Holds(lane, b)
  {
  }

  /** Two siblings split the lanes of their parent between them. */
  predicate Splits(lane: Lane, a: ExecCondition, b: ExecCondition, parent: ExecCondition) {
    && Holds(lane, parent) == (Holds(lane, a) || Holds(lane, b))
    && !(Holds(lane, a) && Holds(lane, b))
  }

  lemma SiblingsSplit(lane: Lane, a: ExecCondition, b: ExecCondition)
    requires NegatedSiblingParent(a, b).Some?
    ensures Splits(lane, a, b, NegatedSiblingParent(a, b).value)
  {
    var common := a.conds * b.conds;
    var c, d :| c in a.conds && d in b.conds && AreNegations(c, d)
                && a.conds - b.conds == {c} && b.conds - a.conds == {d};
    assert a.conds == common + (a.conds - b.conds) && b.conds == common + (b.conds - a.conds);
    NegationsDisagree(lane, c, d);
  }

  /** The parent of two siblings lies strictly within both, and neither within the other. */
  lemma SiblingsApart(a: ExecCondition, b: ExecCondition)
    requires NegatedSiblingParent(a, b).Some?
    ensures IsStrictSubsetOf(NegatedSiblingParent(a, b).value, a)
    ensures IsStrictSubsetOf(NegatedSiblingParent(a, b).value, b)
    ensures !IsSubsetOf(a, b) && !IsSubsetOf(b, a)
  {
    var c, d :| c in a.conds && d in b.conds && AreNegations(c, d)
                && a.conds - b.conds == {c} && b.conds - a.conds == {d};
    assert c in a.conds - b.conds && d in b.conds - a.conds;
  }

  /** Where `Or` yields a mask, that mask selects exactly the lanes of either operand. */
  lemma OrIsDisjunction(lane: Lane, a: ExecCondition, b: ExecCondition)
    requires Or(a, b).Some?
    ensures Holds(lane, Or(a, b).value) == (Holds(lane, a) || Holds(lane, b))
  {
    if NegatedSiblingParent(a, b).Some? {
      SiblingsSplit(lane, a, b);
    } else {
      FromConditionsHolds(lane, a.conds);
      FromConditionsHolds(lane, b.conds);
    }
  }

  lemma XorFromIsDifference(lane: Lane, a: ExecCondition, b: ExecCondition)
    requires XorFrom(a, b).Some?
    ensures Holds(lane, XorFrom(a, b).value) == (Holds(lane, b) && !Holds(lane, a))
  {
    var c := Only(a.conds - b.conds);
    assert a.conds == b.conds + {c} by { assert a.conds == b.conds + (a.conds - b.conds); }
    MakeNotNegates(lane, c);
    AndIsConjunction(lane, b, MakeNot(c));
    assert XorFrom(a, b).value == And(b, MakeNot(c));
    assert c in a.conds;
  }

  /** Where `Xor` yields a mask, it selects the lanes on which the operands differ;
      as one operand lies within the other, that is also "saved and not exec",
      so lowering an and-not of the saved mask to an exclusive-or is exact. */
  lemma XorIsExclusiveOr(lane: Lane, a: ExecCondition, b: ExecCondition)
    requires Xor(a, b).Some?
    ensures Holds(lane, Xor(a, b).value) == (Holds(lane, a) != Holds(lane, b))
    ensures IsSubsetOf(b, a) ==> Holds(lane, Xor(a, b).value) == (Holds(lane, b) && !Holds(lane, a))
    ensures IsSubsetOf(a, b) ==> Holds(lane, Xor(a, b).value) == (Holds(lane, a) && !Holds(lane, b))
  {
    if IsStrictSubsetOf(b, a) {
      XorFromIsDifference(lane, a, b);
    } else {
      XorFromIsDifference(lane, b, a);
    }
  }

  /** Two masks are siblings exactly when each adds one condition to their common
      part and the two added conditions negate each other. */
  lemma SiblingsExactly(common: set<string>, c: string, d: string)
    requires c !in common && d !in common && c != d && DEFAULT !in common + {c, d}
    ensures NegatedSiblingParent(Mask(common + {c}), Mask(common + {d})) ==
            if AreNegations(c, d) then Some(Mask(common)) else None
  {
    var a, b := common + {c}, common + {d};
    assert a - b == {c} && b - a == {d} && a * b == common;
    if AreSiblings(Mask(a), Mask(b)) {
      var c', d' :| AreNegations(c', d') && a - b == {c'} && b - a == {d'};
      assert c' in {c} && d' in {d};
    }
  }

  /** A mask union is formed exactly for masks of which one lies within the other, and for siblings; it is always what
      the two have in common. */
  lemma OrExactly(a: ExecCondition, b: ExecCondition)
    ensures Or(a, b).Some? <==> IsSubsetOf(a, b) || IsSubsetOf(b, a) || AreSiblings(a, b)
    ensures Or(a, b).Some? ==> Or(a, b).value.conds == a.conds * b.conds
  {}

  predicate AddsOne(a: ExecCondition, b: ExecCondition, c: string) { c !in b.conds && a.conds == b.conds + {c} }

  /** An exclusive or is formed exactly where one mask adds one condition to the other, and it is the other with that
      condition negated. */
  lemma XorExactly(a: ExecCondition, b: ExecCondition)
    ensures Xor(a, b).Some? <==> exists c :: AddsOne(a, b, c) || AddsOne(b, a, c)
    ensures forall c :: (AddsOne(a, b, c) ==> Xor(a, b) == Some(And(b, MakeNot(c))))
                     && (AddsOne(b, a, c) ==> Xor(a, b) == Some(And(a, MakeNot(c))))
  {
    forall c | AddsOne(a, b, c) ensures Xor(a, b) == Some(And(b, MakeNot(c))) { XorOfOne(a, b, c); }
    forall c | AddsOne(b, a, c) ensures Xor(a, b) == Some(And(a, MakeNot(c))) { XorOfOne(b, a, c); }
    if Xor(a, b).Some? && IsStrictSubsetOf(b, a) {
      assert AddsOne(a, b, Only(a.conds - b.conds));
    } else if Xor(a, b).Some? {
      assert AddsOne(b, a, Only(b.conds - a.conds));
    }
  }

  lemma XorOfOne(a: ExecCondition, b: ExecCondition, c: string)
    requires AddsOne(a, b, c)
    ensures Xor(a, b) == Xor(b, a) == Some(And(b, MakeNot(c)))
  {
    assert a.conds - b.conds == {c};
    assert Only(a.conds - b.conds) in {c};
  }
}
