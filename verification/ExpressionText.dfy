/** Expressions, the token text the decompiler prints for them, and the grammar of
    section 6.5 of ISO/IEC 9899:1999 by which a C compiler reads that text back. */
module ExpressionText {
  import opened Options
  import opened Operators

  datatype Expr =
    | Num(value: int)
    | Name(text: string)
    | Not(arg: Expr)
    | Min(left: Expr, right: Expr)
    | Bin(op: Op, left: Expr, right: Expr)
    | Ternary(cond: Expr, left: Expr, right: Expr)

  datatype Token =
    | Digits(value: nat) | Word(text: string) | Sym(op: Op)
    | Bang | MinWord | Comma | Open | Close | Question | Colon

  datatype Text = End | Tok(head: Token, tail: Text)

  // ---- printing ----

  predicate Inverted(first: Op, second: Op) { InverseOf(first) == Some(second) }

  predicate NeedsBrackets(op: Op, child: Expr) {
    match child
    case Bin(inner, _, _) =>
      if IsShift(inner) || IsBitwise(inner) then true
      else if Inverted(op, inner) then true
      else if op == inner && op.Minus? then true
      else op != inner
    case Not(_) => true
    case Min(_, _) => true
    case Ternary(_, _, _) => true
    case _ => false
  }

  /** The text of `e` followed by `rest`. */
  function Print(e: Expr, rest: Text): Text
    decreases e, 0
  {
    match e
    case Num(n) => if n < 0 then Tok(Sym(Minus), Tok(Digits(-n), rest)) else Tok(Digits(n), rest)
    case Name(x) => Tok(Word(x), rest)
    case Not(a) => Tok(Bang, Bracketed(a, rest))
    case Min(l, r) => Tok(MinWord, Tok(Open, Print(l, Tok(Comma, Print(r, Tok(Close, rest))))))
    case Bin(op, l, r) => PrintChild(op, l, Tok(Sym(op), PrintChild(op, r, rest)))
    case Ternary(c, l, r) => Bracketed(c, Tok(Question, Bracketed(l, Tok(Colon, Bracketed(r, rest)))))
  }

  function Bracketed(e: Expr, rest: Text): Text
    decreases e, 1
  {
    Tok(Open, Print(e, Tok(Close, rest)))
  }

  function PrintChild(op: Op, e: Expr, rest: Text): Text
    decreases e, 2
  {
    if NeedsBrackets(op, e) then Bracketed(e, rest) else Print(e, rest)
  }

  // ---- the grammar ----

  /** The binding strength of a binary operator; all of them associate to the left. */
  function Strength(op: Op): (s: nat)
    ensures 1 <= s <= 10
  {
    match op
    case Or => 1
    case And => 2
    case BitOr => 3
    case Xor => 4
    case BitAnd => 5
    case Eq => 6 case Ne => 6
    case Lt => 7 case Le => 7 case Gt => 7 case Ge => 7
    case ShiftLeft => 8 case ShiftRight => 8
    case Plus => 9 case Minus => 9
    case Mul => 10 case Div => 10 case Rem => 10
  }

  datatype Parsed = Fail | Ok(expr: Expr, rest: Text)

  function Length(t: Text): nat { if t.End? then 0 else 1 + Length(t.tail) }

  predicate Starts(t: Text, token: Token) { t.Tok? && t.head == token }

  /** conditional-expression: binary expressions, then possibly `? expression : conditional`. */
  function ParseExpr(t: Text): (p: Parsed)
    ensures p.Ok? ==> Length(p.rest) < Length(t)
    decreases Length(t), 13
  {
    var c := ParseLevel(t, 1);
    if c.Fail? || !Starts(c.rest, Question) then c else
    var l := ParseExpr(c.rest.tail);
    if l.Fail? || !Starts(l.rest, Colon) then Fail else
    var r := ParseExpr(l.rest.tail);
    if r.Fail? then Fail else Ok(Ternary(c.expr, l.expr, r.expr), r.rest)
  }

  /** Operators of strength `level` and above. */
  function ParseLevel(t: Text, level: nat): (p: Parsed)
    requires 1 <= level <= 11
    ensures p.Ok? ==> Length(p.rest) < Length(t)
    decreases Length(t), 12 - level, 1
  {
    if level == 11 then ParseUnary(t) else
    var p := ParseLevel(t, level + 1);
    if p.Fail? then Fail else ParseRest(p.expr, p.rest, level)
  }

  /** Further operators of exactly this strength, taken from the left. */
  function ParseRest(left: Expr, t: Text, level: nat): (p: Parsed)
    requires 1 <= level <= 10
    ensures p.Ok? ==> Length(p.rest) <= Length(t)
    decreases Length(t), 12 - level, 0
  {
    if t.Tok? && t.head.Sym? && Strength(t.head.op) == level then
      var p := ParseLevel(t.tail, level + 1);
      if p.Fail? then Fail else ParseRest(Bin(t.head.op, left, p.expr), p.rest, level)
    else Ok(left, t)
  }

  function ParseUnary(t: Text): (p: Parsed)
    ensures p.Ok? ==> Length(p.rest) < Length(t)
    decreases Length(t), 0
  {
    if t.End? then Fail else
    match t.head
    case Digits(n) => Ok(Num(n), t.tail)
    case Word(x) => Ok(Name(x), t.tail)
    case Sym(op) =>
      if op.Minus? && t.tail.Tok? && t.tail.head.Digits? then Ok(Num(0 - t.tail.head.value), t.tail.tail) else Fail
    case Bang =>
      var a := ParseUnary(t.tail);
      if a.Fail? then Fail else Ok(Not(a.expr), a.rest)
    case MinWord =>
      if !Starts(t.tail, Open) then Fail else
      assert Length(t.tail) == 1 + Length(t.tail.tail);
      var l := ParseExpr(t.tail.tail);
      if l.Fail? || !Starts(l.rest, Comma) then Fail else
      var r := ParseExpr(l.rest.tail);
      if r.Fail? || !Starts(r.rest, Close) then Fail else Ok(Min(l.expr, r.expr), r.rest.tail)
    case Open =>
      var e := ParseExpr(t.tail);
      if e.Fail? || !Starts(e.rest, Close) then Fail else Ok(e.expr, e.rest.tail)
    case _ => Fail
  }
}
