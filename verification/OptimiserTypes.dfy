/** The types of the nodes that the optimiser creates. */
module OptimiserTypes {
  import opened Operators
  import opened Cancellation
  import opened Expressions
  import opened SumTerms
  import opened OptimiserGuards
  import opened OptimiserResults
  import opened WorkItems

  /** A variable that is a pointer, or lies in global memory. */
  predicate Addressing(n: Node) { n.Var? && (n.hint.pointer || n.hint.globalSpace) }

  /** `n` is a part of `whole`. */
  predicate Within(n: Node, whole: Node)
    decreases whole
  {
    n == whole ||
    match whole
    case Bin(_, _, _, l, r) => Within(n, l) || Within(n, r)
    case Not(_, _, x) => Within(n, x)
    case Ternary(_, _, c, l, r) => Within(n, c) || Within(n, l) || Within(n, r)
    case _ => false
  }

  /** A part of an operand or of a remembered original. */
  predicate Known(n: Node, s0: Node, s1: Node, originals: map<Node, Node>) {
    Within(n, s0) || Within(n, s1) || exists k :: k in originals && Within(n, originals[k])
  }

  /** Made of known parts, constants and work-item functions by operations of type `h`. */
  predicate Typed(n: Node, h: Hint, s0: Node, s1: Node, originals: map<Node, Node>)
    decreases n
  {
    || Known(n, s0, s1, originals)
    || n.Const?
    || (n.WorkItem? && n.hint == UINT)
    || (n.Bin? && n.hint == h && Typed(n.left, h, s0, s1, originals) && Typed(n.right, h, s0, s1, originals))
  }

  /** The operands of one call and what is remembered. */
  datatype Frame = Frame(h: Hint, s0: Node, s1: Node, originals: map<Node, Node>) {
    predicate Has(n: Node) { Typed(n, h, s0, s1, originals) }

    predicate Knows(n: Node) { Known(n, s0, s1, originals) || n.Const? }
  }

  lemma {:induction false} WithinPart(a: Node, b: Node, c: Node)
    requires Within(a, b) && Within(b, c)
    ensures Within(a, c)
    decreases c
  {
    if b == c {
    } else {
      match c
      case Bin(_, _, _, l, r) => if Within(b, l) { WithinPart(a, b, l); } else { WithinPart(a, b, r); }
      case Not(_, _, x) => WithinPart(a, b, x);
      case Ternary(_, _, x, l, r) =>
        if Within(b, x) { WithinPart(a, b, x); }
        else if Within(b, l) { WithinPart(a, b, l); }
        else { WithinPart(a, b, r); }
      case _ =>
    }
  }

  lemma PartIsKnown(f: Frame, n: Node, whole: Node)
    requires f.Knows(whole) && Within(n, whole)
    ensures f.Knows(n)
  {
    if whole.Const? {
    } else if Within(whole, f.s0) {
      WithinPart(n, whole, f.s0);
    } else if Within(whole, f.s1) {
      WithinPart(n, whole, f.s1);
    } else {
      var k :| k in f.originals && Within(whole, f.originals[k]);
      WithinPart(n, whole, f.originals[k]);
    }
  }

  lemma KnownIsHad(f: Frame, n: Node)
    requires f.Knows(n)
    ensures f.Has(n)
  {}

  lemma OperationIsHad(f: Frame, id: nat, op: Op, a: Node, b: Node)
    requires f.Has(a) && f.Has(b)
    ensures f.Has(Bin(id, f.h, op, a, b))
  {}

  // ---- sums ----

  predicate AllHad(f: Frame, ts: Terms) { forall t | t in ts :: f.Has(t.item) }

  lemma DroppedAreThere(f: Frame, ts: Terms, t: Term<Node>)
    requires AllHad(f, ts) && t in ts
    ensures AllHad(f, Drop(ts, t))
  {
    var i := Find(ts, t);
    assert Drop(ts, t) == ts[..i] + ts[i + 1..];
    assert forall s | s in Drop(ts, t) :: s in ts;
  }

  lemma AppendedAreThere(f: Frame, ts: Terms, n: Node)
    requires AllHad(f, ts) && n.WorkItem? && n.hint == UINT
    ensures AllHad(f, ts + [Term(n, true)])
  {
    assert f.Has(n);
  }

  lemma {:induction false} TermsAreKnown(f: Frame, n: Node, plus: bool)
    requires f.Knows(n)
    ensures AllHad(f, Flatten(n, plus))
    decreases n
  {
    if n.Bin? && (n.op.Plus? || n.op.Minus?) {
      PartIsKnown(f, n.left, n);
      PartIsKnown(f, n.right, n);
      TermsAreKnown(f, n.left, plus);
      TermsAreKnown(f, n.right, if n.op.Plus? then plus else !plus);
    }
  }

  lemma {:induction false} CancelledAreThere<K>(kept: Terms, key: Node -> K, rest: Terms, f: Frame)
    requires AllHad(f, kept) && AllHad(f, rest)
    ensures AllHad(f, CancelRest(kept, key, rest))
    decreases rest
  {
    if rest == [] {
    } else {
      assert rest[0] in rest && forall t | t in rest[1..] :: t in rest;
      CancelledAreThere(if rest[0].plus then kept else CancelOne(kept, key, rest[0]), key, rest[1..], f);
    }
  }

  lemma {:induction false} PositiveAreThere(ts: Terms, f: Frame)
    requires AllHad(f, ts)
    ensures AllHad(f, Positive(ts))
  {
    if ts == [] {
    } else {
      assert ts[0] in ts && forall t | t in ts[1..] :: t in ts;
      PositiveAreThere(ts[1..], f);
    }
  }

  lemma {:induction false} IdsAreTyped(f: Frame, ts: Terms, d: Dim, next: nat)
    requires AllHad(f, ts)
    ensures AllHad(f, GlobalIds(ts, d, next).0)
    decreases |Select(ts, LocalPart, d)|
  {
    var l, o, g := Select(ts, LocalPart, d), Select(ts, OffsetPart, d), Select(ts, GroupPart, d);
    if l == [] || o == [] || g == [] {
    } else {
      var n := WorkItem(next, UINT, GlobalId(d));
      FoldRound(ts, l, o, g, n, d);
      DroppedAreThere(f, ts, l[0]);
      DroppedAreThere(f, Drop(ts, l[0]), o[0]);
      DroppedAreThere(f, Drop(Drop(ts, l[0]), o[0]), g[0]);
      AppendedAreThere(f, Drop(Drop(Drop(ts, l[0]), o[0]), g[0]), n);
      IdsAreTyped(f, Drop(Drop(Drop(ts, l[0]), o[0]), g[0]) + [Term(n, true)], d, next + 1);
    }
  }

  lemma {:induction false} SizesAreTyped(f: Frame, ts: Terms, d: Dim, size: int, next: nat)
    requires AllHad(f, ts)
    ensures AllHad(f, GlobalSizes(ts, d, size, next).0)
    decreases |Select(ts, CountPart(size), d)|
  {
    var c, g := Select(ts, CountPart(size), d), Select(ts, GroupPart, d);
    if c == [] || g == [] {
    } else {
      var n := WorkItem(next, UINT, GlobalSize(d));
      SizeRound(ts, c, g, n, d, size);
      DroppedAreThere(f, ts, c[0]);
      DroppedAreThere(f, Drop(ts, c[0]), g[0]);
      AppendedAreThere(f, Drop(Drop(ts, c[0]), g[0]), n);
      SizesAreTyped(f, Drop(Drop(ts, c[0]), g[0]) + [Term(n, true)], d, size, next + 1);
    }
  }

  lemma DimensionsAreTyped(f: Frame, ts: Terms, sizes: seq<int>, next: nat)
    requires AllHad(f, ts)
    ensures AllHad(f, InDimensions(ts, sizes, next).0)
  {
    DimensionIsTyped(f, ts, X, sizes, next);
    var (a, n) := InDimension(ts, X, sizes, next);
    DimensionIsTyped(f, a, Y, sizes, n);
    var (b, k) := InDimension(a, Y, sizes, n);
    DimensionIsTyped(f, b, Z, sizes, k);
  }

  lemma DimensionIsTyped(f: Frame, ts: Terms, d: Dim, sizes: seq<int>, next: nat)
    requires AllHad(f, ts)
    ensures AllHad(f, InDimension(ts, d, sizes, next).0)
  {
    IdsAreTyped(f, ts, d, next);
    var (ids, n) := GlobalIds(ts, d, next);
    if Index(d) < |sizes| { SizesAreTyped(f, ids, d, sizes[Index(d)], n); }
  }

  lemma {:induction false} TreeIsTyped(f: Frame, cur: Node, rest: Terms, next: nat)
    requires f.Has(cur) && AllHad(f, rest)
    ensures f.Has(SumTree(cur, rest, f.h, next).0)
    decreases rest
  {
    if rest == [] {
    } else {
      assert rest[0] in rest && forall t | t in rest[1..] :: t in rest;
      if ConstZero(rest[0].item) {
        TreeIsTyped(f, cur, rest[1..], next);
      } else {
        var op := if rest[0].plus then Plus else Minus;
        TreeIsTyped(f, Bin(next, f.h, op, cur, rest[0].item), rest[1..], next + 1);
      }
    }
  }

  lemma FlattenedIsTyped(f: Frame, left: Node, right: Node, sizes: seq<int>, next: nat)
    requires f.Knows(left) && f.Knows(right)
    ensures var r := Flattened(left, right, f.h, sizes, next).0; r.Done? ==> f.Has(r.node)
  {
    var list := SumList(left, right);
    var kept := Cancel(list, Contents);
    TermsAreKnown(f, left, true);
    TermsAreKnown(f, right, true);
    PositiveAreThere(list, f);
    CancelledAreThere(Positive(list), Contents, list, f);
    DimensionsAreTyped(f, kept, sizes, next);
    var (ts, n) := InDimensions(kept, sizes, next);
    if ts != [] {
      var (ordered, k) := PositiveFirst(ts, n);
      assert AllHad(f, ordered);
      assert ordered[0] in ordered && forall t | t in ordered[1..] :: t in ordered;
      TreeIsTyped(f, ordered[0].item, ordered[1..], k);
    }
  }

  lemma {:induction false} SumIsTyped(f: Frame, s0: Node, s1: Node, w: World, next: nat)
    requires f.Knows(s0) && f.Knows(s1)
    ensures var r := SumResult(s0, s1, f.h, w, Memory(f.originals, next)).0; r.Done? ==> f.Has(r.node)
    decreases Size(s0) + Size(s1), NegativeCount(s0, s1), if ConstNegative(s0) && !ConstNegative(s1) then 1 else 0
  {
    if ConstZero(s0) || ConstZero(s1) {
    } else if ConstNegative(s0) && !ConstNegative(s1) {
      SumIsTyped(f, s1, s0, w, next);
    } else if ConstNegative(s1) {
      if s1.literal.Number? { DifferenceIsTyped(f, s0, Abs(s1), w, next); }
    } else {
      if s1 in f.originals {
        assert Within(f.originals[s1], f.originals[s1]);
        FlattenedIsTyped(f, s0, f.originals[s1], w.sizes, next);
      }
      FlattenedIsTyped(f, s0, s1, w.sizes, next);
    }
  }

  lemma {:induction false} DifferenceIsTyped(f: Frame, s0: Node, s1: Node, w: World, next: nat)
    requires f.Knows(s0) && f.Knows(s1)
    ensures var r := DifferenceResult(s0, s1, f.h, w, Memory(f.originals, next)).0; r.Done? ==> f.Has(r.node)
    decreases Size(s0) + Size(s1), NegativeCount(s0, s1), 0
  {
    if ConstZero(s0) && s1.Bin? && s1.op.Minus? {
      assert Within(s1.right, s1.right) && Within(s1.left, s1.left);
      PartIsKnown(f, s1.right, s1);
      PartIsKnown(f, s1.left, s1);
      DifferenceIsTyped(f, s1.right, s1.left, w, next);
    } else {
      KnownIsHad(f, s0);
      KnownIsHad(f, s1);
      OperationIsHad(f, next + 1, Mul, Const(next, INT, Number(-1.0)), s1);
      OperationIsHad(f, next, Minus, s0, s1);
      if ConstNegative(s1) && s1.literal.Number? { SumIsTyped(f, s0, Abs(s1), w, next); }
    }
  }

  // ---- any operation ----

  /** The type that an operation is to have: of the left operand if that is a pointer or global variable, or else of the
      right one if that is; or else the one both have, or the common one. */
  predicate Decides(h: Hint, s0: Node, s1: Node, w: World) {
    && (Addressing(s0) ==> h == s0.hint)
    && (!Addressing(s0) && Addressing(s1) ==> h == s1.hint)
    && (!Addressing(s0) && !Addressing(s1) ==> h == if s0.hint == s1.hint then s0.hint else w.common(s0.hint, s1.hint))
  }

  /** The two results that keep the type of another operation: a quotient that is folded into a product, and a group id
      times the local size. */
  predicate Retyped(r: Node, op: Op, s0: Node, s1: Node) {
    || (op.Div? && s0.Bin? && s1.Const? && r.Bin? && r.hint == s0.hint && r.left == s0.left && r.right.Const?)
    || (op.Mul? && GroupFactor(s0, s1).Some? && r.Bin? && r.hint == UINT && r.left.WorkItem? && r.right.WorkItem?
        && r.left.hint == UINT && r.right.hint == UINT)
  }

  lemma ResultIsTyped(op: Op, s0: Node, s1: Node, w: World, m: Memory, h: Hint)
    requires !(s0.Const? && s1.Const?) && Decides(h, s0, s1, w)
    ensures h == OperationHint(s0, s1, w)
    ensures var r := OperationResult(op, s0, s1, w, m).0;
            r.Done? ==> Typed(r.node, h, s0, s1, m.originals) || Retyped(r.node, op, s0, s1)
  {
    var f := Frame(h, s0, s1, m.originals);
    assert Within(s0, s0) && Within(s1, s1);
    KnownIsHad(f, s0);
    KnownIsHad(f, s1);
    OperationIsHad(f, m.next, op, s0, s1);
    if op.Plus? {
      SumIsTyped(f, s0, s1, w, m.next);
    } else if op.Minus? {
      DifferenceIsTyped(f, s0, s1, w, m.next);
    } else if op.Div? && s0.Bin? {
      assert Within(s0.left, s0.left);
      PartIsKnown(f, s0.left, s0);
      KnownIsHad(f, s0.left);
    }
  }

  /** Every operation node that is created for the result has that type; so what is made with a pointer variable is a
      pointer. Also the original that is registered has it. */
  lemma OperationsAreTyped(op: Op, s0: Node, s1: Node, w: World, m: Memory, h: Hint)
    requires !(s0.Const? && s1.Const?) && Decides(h, s0, s1, w)
    ensures var (r, k) := Added(op, s0, s1, w, m);
            r.Done? ==>
              && (Typed(r.node, h, s0, s1, m.originals) || Retyped(r.node, op, s0, s1))
              && r.node in k.originals && k.originals[r.node].Bin? && k.originals[r.node].hint == h
  {
    ResultIsTyped(op, s0, s1, w, m, h);
    EntryIsTyped(op, s0, s1, w, m);
  }

  lemma EntryIsTyped(op: Op, s0: Node, s1: Node, w: World, m: Memory)
    ensures var (r, k) := Added(op, s0, s1, w, m);
            && r == OperationResult(op, s0, s1, w, m).0
            && (r.Done? ==> r.node in k.originals && k.originals[r.node].Bin?
                            && k.originals[r.node].hint == OperationHint(s0, s1, w))
  {}

  /** An address: a pointer variable plus a value that is no pointer is a pointer of its type. */
  lemma AddressIsPointer(p: Node, i: Node, w: World, m: Memory)
    requires p.Var? && p.hint.pointer && i.Var? && i.name != p.name
    ensures var r := OperationResult(Plus, p, i, w, m).0;
            r.Done? && r.node.Bin? && r.node.hint == p.hint && r.node.left == p && r.node.right == i
  {
    var h := p.hint;
    var list := SumList(p, i);
    assert list == [Term(p, true), Term(i, true)];
    TwoVariablesStay(p, i, h, w.sizes, m.next);
  }

  lemma TwoVariablesStay(a: Node, b: Node, h: Hint, sizes: seq<int>, next: nat)
    requires a.Var? && b.Var?
    ensures Flattened(a, b, h, sizes, next) == (Done(Bin(next, h, Plus, a, b)), next + 1)
  {
    var ts := [Term(a, true), Term(b, true)];
    assert SumList(a, b) == ts && ts[1..] == [Term(b, true)] && [Term(b, true)][1..] == [];
    assert Positive(ts) == ts by { assert Positive(ts[1..]) == [Term(b, true)]; }
    assert CancelRest(ts, Contents, ts) == CancelRest(ts, Contents, ts[1..]) == CancelRest(ts, Contents, []) == ts;
    forall d: Dim, k: nat ensures InDimension(ts, d, sizes, k) == (ts, k) {
      NoneSelected(ts, LocalPart, d);
      NoneSelected(ts, GroupPart, d);
    }
    assert SumTree(a, [Term(b, true)], h, next) == SumTree(Bin(next, h, Plus, a, b), [], h, next + 1);
  }
}
