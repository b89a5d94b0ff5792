/** The printed text of every expression parses, and to which expression. */
module PrinterReading {
  import opened Operators
  import opened ExpressionText

  /** Operators that keep the brackets of an operand with the same operator. */
  predicate KeepsBrackets(op: Op) { op.Minus? || IsShift(op) || IsBitwise(op) }

  /** An operand that joins its parent's chain. */
  predicate Chains(op: Op, e: Expr) { e.Bin? && e.op == op && !KeepsBrackets(op) }

  /** These and single numbers and names are the operands that the printer leaves without brackets. */
  lemma ChainsLackBrackets(op: Op, e: Expr)
    ensures !NeedsBrackets(op, e) <==> Chains(op, e) || e.Num? || e.Name?
  {}

  /** The expression a C compiler sees in the text of `e`: chains of one operator
      are regrouped to the left. */
  function Reading(e: Expr): Expr
    decreases e, 0
  {
    match e
    case Num(_) => e
    case Name(_) => e
    case Not(a) => Not(Reading(a))
    case Min(l, r) => Min(Reading(l), Reading(r))
    case Bin(op, l, r) => Graft(op, Reading(l), r)
    case Ternary(c, l, r) => Ternary(Reading(c), Reading(l), Reading(r))
  }

  /** The operands of `e`'s chain, attached one by one to the right of `left`. */
  function Graft(op: Op, left: Expr, e: Expr): Expr
    decreases e, 1
  {
    if Chains(op, e) then Graft(op, Graft(op, left, e.left), e.right) else Bin(op, left, Reading(e))
  }

  /** Text at which no operator stronger than `level` can continue. */
  predicate Quiet(rest: Text, level: nat) {
    rest.Tok? && rest.head.Sym? ==> Strength(rest.head.op) <= level
  }

  /** Text at which an expression ends. */
  predicate Stop(rest: Text) {
    rest.Tok? ==> rest.head.Close? || rest.head.Comma? || rest.head.Colon?
  }

  lemma {:induction false} Climb(t: Text, e: Expr, rest: Text, level: nat)
    requires ParseUnary(t) == Ok(e, rest)
    requires 1 <= level <= 11 && Quiet(rest, level)
    ensures ParseLevel(t, level) == if level == 11 then Ok(e, rest) else ParseRest(e, rest, level)
    decreases 11 - level
  {
    if level >= 11 {
    } else {
      Climb(t, e, rest, level + 1);
    }
  }

  lemma {:induction false} ClimbFrom(t: Text, e: Expr, rest: Text, from: nat, level: nat)
    requires 1 <= level <= from <= 11 && ParseLevel(t, from) == Ok(e, rest) && Quiet(rest, 0)
    ensures ParseLevel(t, level) == Ok(e, rest)
    decreases from - level
  {
    if level >= from {
    } else {
      ClimbFrom(t, e, rest, from, level + 1);
    }
  }

  lemma WholeUnary(t: Text, e: Expr, rest: Text)
    requires ParseUnary(t) == Ok(e, rest) && Stop(rest)
    ensures ParseExpr(t) == Ok(e, rest)
  {
    Climb(t, e, rest, 1);
  }

  /** The text of every expression is read completely, and as its `Reading`. */
  lemma {:induction false} TextIsRead(e: Expr, rest: Text)
    requires Stop(rest)
    ensures ParseExpr(Print(e, rest)) == Ok(Reading(e), rest)
    decreases e, 2
  {
    match e
    case Num(n) => WholeUnary(Print(e, rest), e, rest);
    case Name(x) => WholeUnary(Print(e, rest), e, rest);
    case Not(a) =>
      BracketsAreRead(a, rest);
      WholeUnary(Print(e, rest), Reading(e), rest);
    case Min(l, r) =>
      MinIsRead(l, r, rest);
      WholeUnary(Print(e, rest), Reading(e), rest);
    case Bin(op, l, r) =>
      var s := Strength(op);
      ChainIsRead(op, l, Tok(Sym(op), PrintChild(op, r, rest)));
      ChainGoesOn(op, Reading(l), r, rest);
      ClimbFrom(Print(e, rest), Reading(e), rest, s, 1);
    case Ternary(c, l, r) => TernaryIsRead(c, l, r, rest);
  }

  lemma {:induction false} BracketsAreRead(e: Expr, rest: Text)
    ensures ParseUnary(Bracketed(e, rest)) == Ok(Reading(e), rest)
    decreases e, 3
  {
    TextIsRead(e, Tok(Close, rest));
  }

  lemma {:induction false} MinIsRead(l: Expr, r: Expr, rest: Text)
    ensures ParseUnary(Print(Min(l, r), rest)) == Ok(Reading(Min(l, r)), rest)
    decreases Min(l, r), 1
  {
    TextIsRead(l, Tok(Comma, Print(r, Tok(Close, rest))));
    TextIsRead(r, Tok(Close, rest));
  }

  lemma {:induction false} TernaryIsRead(c: Expr, l: Expr, r: Expr, rest: Text)
    requires Stop(rest)
    ensures ParseExpr(Print(Ternary(c, l, r), rest)) == Ok(Reading(Ternary(c, l, r)), rest)
    decreases Ternary(c, l, r), 1
  {
    var afterL := Tok(Colon, Bracketed(r, rest));
    var afterC := Tok(Question, Bracketed(l, afterL));
    BracketsAreRead(c, afterC);
    Climb(Bracketed(c, afterC), Reading(c), afterC, 1);
    BracketsAreRead(l, afterL);
    WholeUnary(Bracketed(l, afterL), Reading(l), afterL);
    BracketsAreRead(r, rest);
    WholeUnary(Bracketed(r, rest), Reading(r), rest);
  }

  /** An operand outside the chain is one unary expression. */
  lemma {:induction false} OperandIsRead(op: Op, e: Expr, rest: Text)
    requires !Chains(op, e)
    ensures ParseUnary(PrintChild(op, e, rest)) == Ok(Reading(e), rest)
    decreases e, 4
  {
    ChainsLackBrackets(op, e);
    if NeedsBrackets(op, e) { BracketsAreRead(e, rest); }
  }

  /** A left operand is read up to where the chain may go on. */
  lemma {:induction false} ChainIsRead(op: Op, e: Expr, rest: Text)
    requires Quiet(rest, Strength(op))
    ensures ParseLevel(PrintChild(op, e, rest), Strength(op)) == ParseRest(Reading(e), rest, Strength(op))
    decreases e, 5
  {
    ChainsLackBrackets(op, e);
    if Chains(op, e) {
      ChainIsRead(op, e.left, Tok(Sym(op), PrintChild(op, e.right, rest)));
      ChainGoesOn(op, Reading(e.left), e.right, rest);
    } else {
      OperandIsRead(op, e, rest);
      Climb(PrintChild(op, e, rest), Reading(e), rest, Strength(op));
    }
  }

  /** A right operand is attached to what was read before it. */
  lemma {:induction false} ChainGoesOn(op: Op, left: Expr, e: Expr, rest: Text)
    requires Quiet(rest, Strength(op))
    ensures ParseRest(left, Tok(Sym(op), PrintChild(op, e, rest)), Strength(op))
         == ParseRest(Graft(op, left, e), rest, Strength(op))
    decreases e, 5
  {
    ChainsLackBrackets(op, e);
    if Chains(op, e) {
      ChainGoesOn(op, left, e.left, Tok(Sym(op), PrintChild(op, e.right, rest)));
      ChainGoesOn(op, Graft(op, left, e.left), e.right, rest);
    } else {
      OperandIsRead(op, e, rest);
      OperandIsAttached(op, left, PrintChild(op, e, rest), Reading(e), rest);
    }
  }

  lemma OperandIsAttached(op: Op, left: Expr, t: Text, right: Expr, rest: Text)
    requires ParseUnary(t) == Ok(right, rest) && Quiet(rest, Strength(op))
    ensures ParseRest(left, Tok(Sym(op), t), Strength(op)) == ParseRest(Bin(op, left, right), rest, Strength(op))
  {
    var s := Strength(op);
    Climb(t, right, rest, s + 1);
    if s < 10 { assert ParseRest(right, rest, s + 1) == Ok(right, rest); }
    assert ParseLevel(t, s + 1) == Ok(right, rest);
  }

  /** Printing what was read gives the same text again. */
  lemma {:induction false} ReadingPrintsTheSame(e: Expr, rest: Text)
    ensures Print(Reading(e), rest) == Print(e, rest)
    decreases e, 0
  {
    match e
    case Num(_) =>
    case Name(_) =>
    case Not(a) => ReadingPrintsTheSame(a, Tok(Close, rest));
    case Min(l, r) =>
      ReadingPrintsTheSame(l, Tok(Comma, Print(r, Tok(Close, rest))));
      ReadingPrintsTheSame(r, Tok(Close, rest));
    case Bin(op, l, r) =>
      ReadingPrintsTheSameChild(op, l, Tok(Sym(op), PrintChild(op, r, rest)));
      GraftPrintsInOrder(op, Reading(l), r, rest);
    case Ternary(c, l, r) =>
      ReadingPrintsTheSame(c, Tok(Close, Tok(Question, Bracketed(l, Tok(Colon, Bracketed(r, rest))))));
      ReadingPrintsTheSame(l, Tok(Close, Tok(Colon, Bracketed(r, rest))));
      ReadingPrintsTheSame(r, Tok(Close, rest));
  }

  lemma {:induction false} GraftRoot(op: Op, left: Expr, e: Expr)
    ensures Graft(op, left, e).Bin? && Graft(op, left, e).op == op
    decreases e
  {
    if Chains(op, e) { GraftRoot(op, Graft(op, left, e.left), e.right); }
  }

  lemma {:induction false} ReadingPrintsTheSameChild(op: Op, e: Expr, rest: Text)
    ensures PrintChild(op, Reading(e), rest) == PrintChild(op, e, rest)
    decreases e, 1
  {
    if e.Bin? { GraftRoot(e.op, Reading(e.left), e.right); }
    assert NeedsBrackets(op, Reading(e)) == NeedsBrackets(op, e);
    ReadingPrintsTheSame(e, if NeedsBrackets(op, e) then Tok(Close, rest) else rest);
  }

  lemma {:induction false} GraftPrintsInOrder(op: Op, left: Expr, e: Expr, rest: Text)
    ensures Print(Graft(op, left, e), rest) == PrintChild(op, left, Tok(Sym(op), PrintChild(op, e, rest)))
    decreases e, 2
  {
    ChainsLackBrackets(op, e);
    if Chains(op, e) {
      GraftPrintsInOrder(op, left, e.left, Tok(Sym(op), PrintChild(op, e.right, rest)));
      GraftPrintsInOrder(op, Graft(op, left, e.left), e.right, rest);
      GraftRoot(op, left, e.left);
    } else {
      ReadingPrintsTheSameChild(op, e, rest);
    }
  }

  // ---- how many brackets are printed ----

  function Opened(t: Text): nat { if t.End? then 0 else (if t.head.Open? then 1 else 0) + Opened(t.tail) }

  predicate Simple(e: Expr) { e.Num? || e.Name? }

  /** One pair for a negation and a minimum, three for a ternary, and one for each operand that is neither simple nor
      part of the chain. */
  function Brackets(e: Expr): nat {
    match e
    case Not(a) => 1 + Brackets(a)
    case Min(l, r) => 1 + Brackets(l) + Brackets(r)
    case Bin(op, l, r) =>
      (if Simple(l) || Chains(op, l) then 0 else 1) + (if Simple(r) || Chains(op, r) then 0 else 1)
      + Brackets(l) + Brackets(r)
    case Ternary(c, l, r) => 3 + Brackets(c) + Brackets(l) + Brackets(r)
    case _ => 0
  }

  /** No other brackets are printed. */
  lemma {:induction false} BracketsAreCounted(e: Expr, rest: Text)
    ensures Opened(Print(e, rest)) == Brackets(e) + Opened(rest)
    decreases e, 2
  {
    match e
    case Num(n) =>
    case Name(x) =>
    case Not(a) => PairIsCounted(a, rest);
    case Min(l, r) => MinIsCounted(l, r, rest);
    case Bin(op, l, r) =>
      ChildIsCounted(op, r, rest);
      ChildIsCounted(op, l, Tok(Sym(op), PrintChild(op, r, rest)));
    case Ternary(c, l, r) => TernaryIsCounted(c, l, r, rest);
  }

  lemma {:induction false} PairIsCounted(e: Expr, rest: Text)
    ensures Opened(Bracketed(e, rest)) == 1 + Brackets(e) + Opened(rest)
    decreases e, 3
  {
    BracketsAreCounted(e, Tok(Close, rest));
  }

  lemma {:induction false} MinIsCounted(l: Expr, r: Expr, rest: Text)
    ensures Opened(Print(Min(l, r), rest)) == Brackets(Min(l, r)) + Opened(rest)
    decreases Min(l, r), 1
  {
    BracketsAreCounted(r, Tok(Close, rest));
    BracketsAreCounted(l, Tok(Comma, Print(r, Tok(Close, rest))));
  }

  lemma {:induction false} TernaryIsCounted(c: Expr, l: Expr, r: Expr, rest: Text)
    ensures Opened(Print(Ternary(c, l, r), rest)) == Brackets(Ternary(c, l, r)) + Opened(rest)
    decreases Ternary(c, l, r), 1
  {
    var right := Tok(Colon, Bracketed(r, rest));
    var left := Tok(Question, Bracketed(l, right));
    PairIsCounted(r, rest);
    PairIsCounted(l, right);
    PairIsCounted(c, left);
  }

  lemma {:induction false} ChildIsCounted(op: Op, e: Expr, rest: Text)
    ensures Opened(PrintChild(op, e, rest))
         == (if Simple(e) || Chains(op, e) then 0 else 1) + Brackets(e) + Opened(rest)
    decreases e, 4
  {
    ChainsLackBrackets(op, e);
    if NeedsBrackets(op, e) { PairIsCounted(e, rest); } else { BracketsAreCounted(e, rest); }
  }
}
