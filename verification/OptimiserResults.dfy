/** What the optimiser makes of its operands: the node it returns and the number of the next node it
    creates, as functions of the kernel and of the map of originals. */
module OptimiserResults {
  import opened Options
  import opened Operators
  import opened Cancellation
  import opened Expressions
  import opened SumTerms
  import opened OptimiserGuards
  import opened WorkItems

  datatype Outcome = Done(node: Node) | Raised(error: Error)

  /** What the manager remembers between calls. */
  datatype Memory = Memory(originals: map<Node, Node>, next: nat)

  const UINT := Hint("uint", false, false, false)
  const INT := Hint("int", true, false, false)

  // ---- sums ----

  /** Replaces offset + group id * local size + local id by the global id, as often as possible. */
  function GlobalIds(ts: Terms, d: Dim, next: nat): (Terms, nat)
    decreases |Select(ts, LocalPart, d)|
  {
    var l, o, g := Select(ts, LocalPart, d), Select(ts, OffsetPart, d), Select(ts, GroupPart, d);
    if l == [] || o == [] || g == [] then (ts, next)
    else
      var n := WorkItem(next, UINT, GlobalId(d));
      FoldRound(ts, l, o, g, n, d);
      GlobalIds(Drop(Drop(Drop(ts, l[0]), o[0]), g[0]) + [Term(n, true)], d, next + 1)
  }

  /** Replaces group count * size + group id * local size by the global size, as often as possible. */
  function GlobalSizes(ts: Terms, d: Dim, size: int, next: nat): (Terms, nat)
    decreases |Select(ts, CountPart(size), d)|
  {
    var c, g := Select(ts, CountPart(size), d), Select(ts, GroupPart, d);
    if c == [] || g == [] then (ts, next)
    else
      var n := WorkItem(next, UINT, GlobalSize(d));
      SizeRound(ts, c, g, n, d, size);
      GlobalSizes(Drop(Drop(ts, c[0]), g[0]) + [Term(n, true)], d, size, next + 1)
  }

  lemma SizeRound(ts: Terms, c: Terms, g: Terms, n: Node, d: Dim, size: int)
    requires c == Select(ts, CountPart(size), d) != [] && g == Select(ts, GroupPart, d) != []
    requires n.WorkItem? && n.work == GlobalSize(d)
    ensures c[0] in ts && g[0] in Drop(ts, c[0])
    ensures var result := Drop(Drop(ts, c[0]), g[0]) + [Term(n, true)];
            Select(result, CountPart(size), d) == c[1..] && Select(result, GroupPart, d) == g[1..]
  {
    PartDropped(ts, c[0], CountPart(size), d);
    PartDropped(Drop(ts, c[0]), g[0], GroupPart, d);
    SelectAppended(Drop(Drop(ts, c[0]), g[0]), Term(n, true), CountPart(size), d);
    SelectAppended(Drop(Drop(ts, c[0]), g[0]), Term(n, true), GroupPart, d);
  }

  /** Both rewritings in one dimension; the second needs the declared size. */
  function InDimension(ts: Terms, d: Dim, sizes: seq<int>, next: nat): (Terms, nat) {
    var (ids, n) := GlobalIds(ts, d, next);
    if Index(d) < |sizes| then GlobalSizes(ids, d, sizes[Index(d)], n) else (ids, n)
  }

  function InDimensions(ts: Terms, sizes: seq<int>, next: nat): (Terms, nat) {
    var (a, n) := InDimension(ts, X, sizes, next);
    var (b, k) := InDimension(a, Y, sizes, n);
    InDimension(b, Z, sizes, k)
  }

  /** Moves a positive term to the front, or puts a zero there. */
  function PositiveFirst(ts: Terms, next: nat): (Terms, nat)
    requires ts != []
  {
    var i := FirstPositive(ts);
    if i == 0 then (ts, next)
    else if i < |ts| then (ts[0 := ts[i]][i := ts[0]], next)
    else ([Term(Const(next, UINT, Number(0.0)), true)] + ts, next + 1)
  }

  /** The left-leaning tree of `cur` and the terms; zero constants are skipped. */
  function SumTree(cur: Node, rest: Terms, hint: Hint, next: nat): (Node, nat)
    decreases rest
  {
    if rest == [] then (cur, next)
    else if ConstZero(rest[0].item) then SumTree(cur, rest[1..], hint, next)
    else SumTree(Bin(next, hint, if rest[0].plus then Plus else Minus, cur, rest[0].item), rest[1..], hint, next + 1)
  }

  /** The tree of the terms that are left; the plain sum if there are none. */
  function Assembled(ts: Terms, left: Node, right: Node, hint: Hint, next: nat): (Node, nat) {
    if ts == [] then (Bin(next, hint, Plus, left, right), next + 1)
    else
      var (ordered, n) := PositiveFirst(ts, next);
      SumTree(ordered[0].item, ordered[1..], hint, n)
  }

  /** The sum of two trees by their terms. */
  function Flattened(left: Node, right: Node, hint: Hint, sizes: seq<int>, next: nat): (Outcome, nat) {
    var kept := Cancel(SumList(left, right), Contents);
    if MissesSize(kept, sizes) then (Raised(MissingSize), next)
    else
      var (ts, n) := InDimensions(kept, sizes, next);
      var (node, end) := Assembled(ts, left, right, hint, n);
      (Done(node), end)
  }

  function SumResult(s0: Node, s1: Node, hint: Hint, w: World, m: Memory): (Outcome, nat)
    decreases Size(s0) + Size(s1), NegativeCount(s0, s1), if ConstNegative(s0) && !ConstNegative(s1) then 1 else 0
  {
    if ConstZero(s0) then (Done(s1), m.next)
    else if ConstZero(s1) then (Done(s0), m.next)
    else if ConstNegative(s0) && !ConstNegative(s1) then SumResult(s1, s0, hint, w, m)
    else if ConstNegative(s1) then
      if s1.literal.Text? then (Raised(BadText), m.next) else DifferenceResult(s0, Abs(s1), hint, w, m)
    else AddendResult(s0, s1, hint, w, m)
  }

  /** A fraction added to a pointer is replaced by the operation that made it. */
  function AddendResult(s0: Node, s1: Node, hint: Hint, w: World, m: Memory): (Outcome, nat) {
    if s0.hint.pointer && s1.Const? && s1.literal.Text? then (Raised(BadText), m.next)
    else if s0.hint.pointer && s1.Const? && Fraction(s1) then
      if s1 in m.originals then Flattened(s0, m.originals[s1], hint, w.sizes, m.next)
      else (Raised(MissingOriginal), m.next)
    else Flattened(s0, s1, hint, w.sizes, m.next)
  }

  function DifferenceResult(s0: Node, s1: Node, hint: Hint, w: World, m: Memory): (Outcome, nat)
    decreases Size(s0) + Size(s1), NegativeCount(s0, s1), 0
  {
    if ConstZero(s0) && s1.Bin? && s1.op.Minus? then DifferenceResult(s1.right, s1.left, hint, w, m)
    else if ConstZero(s0) && s1.Bin? && (s1.op.Mul? || s1.op.Div?) then
      // no shortcut for products applies to -1 and a product or quotient
      (Done(Bin(m.next + 1, hint, Mul, Const(m.next, INT, Number(-1.0)), s1)), m.next + 2)
    else if ConstZero(s1) then (Done(s0), m.next)
    else if ConstNegative(s1) then
      if s1.literal.Text? then (Raised(BadText), m.next) else SumResult(s0, Abs(s1), hint, w, m)
    else if s0 == s1 then (Done(Const(m.next, UINT, Number(0.0))), m.next + 1)
    else (Done(Bin(m.next, hint, Minus, s0, s1)), m.next + 1)
  }

  // ---- products and quotients ----

  function ProductResult(s0: Node, s1: Node, hint: Hint, sizes: seq<int>, next: nat): (Outcome, nat) {
    if ConstZero(s0) then (Done(s0), next)
    else if ConstZero(s1) then (Done(s1), next)
    else if ConstOne(s0) then (Done(s1), next)
    else if ConstOne(s1) then (Done(s0), next)
    else if MulFails(s0, s1, sizes) then (Raised(MissingSize), next)
    else if IsLocalSize(GroupFactor(s0, s1), sizes) then
      (Done(GroupTimesLocalSize(GroupFactor(s0, s1).value.0, next)), next + 4)
    else (Done(Bin(next, hint, Mul, s0, s1)), next + 1)
  }

  predicate IsLocalSize(factor: Option<(Dim, Literal)>, sizes: seq<int>) {
    factor.Some? && Index(factor.value.0) < |sizes| && factor.value.1 == Number(sizes[Index(factor.value.0)] as real)
  }

  /** The product of a group id and the local size; it is registered, which takes one more number. */
  function GroupTimesLocalSize(d: Dim, next: nat): Node {
    Bin(next + 2, UINT, Mul, WorkItem(next, UINT, GroupId(d)), WorkItem(next + 1, UINT, LocalSize(d)))
  }

  function QuotientResult(s0: Node, s1: Node, hint: Hint, w: World, next: nat): (Outcome, nat) {
    if ConstZero(s1) then (Raised(AssertionFailed), next)
    else if ConstOne(s1) then (Done(s0), next)
    else if s1.Const? && s0.Bin? && s0.op.Mul? && s0.right.Const? then
      var quotient := Read(s0.right.literal) / Read(s1.literal);
      if quotient == 1.0 then (Done(s0.left), next)
      else
        var c := Const(next, w.common(s0.right.hint, s1.hint), Number(quotient));
        (Done(Bin(s0.id, s0.hint, Mul, s0.left, c)), next + 1)
    else (Done(Bin(next, hint, Div, s0, s1)), next + 1)
  }

  // ---- logical operations ----

  /** A constant operand decides by its truth in Python. */
  function LogicalResult(op: Op, s0: Node, s1: Node, hint: Hint, next: nat): (Node, nat) {
    var (c, other) := if s0.Const? then (s0, s1) else (s1, s0);
    if c.Const? && op.Or? && Truthy(c.literal) then (Const(next, hint, Number(1.0)), next + 1)
    else if c.Const? && op.And? && Truthy(c.literal) then (other, next)
    else if c.Const? && op.And? then (Const(next, hint, Number(0.0)), next + 1)
    else (Bin(next, hint, op, s0, s1), next + 1)
  }

  /** Double negations cancel, comparisons turn into their complements, constants fold. */
  function NegationOf(n: Node, next: nat): Option<Node> {
    if n.Not? then Some(n.arg)
    else if n.Bin? && IsCompare(n.op) then Some(Bin(n.id, n.hint, InverseOf(n.op).value, n.left, n.right))
    else if ConstZero(n) then Some(Const(next, UINT, Number(1.0)))
    else if ConstNonZero(n) then Some(Const(next, UINT, Number(0.0)))
    else None
  }

  // ---- any operation ----

  function FoldResult(op: Op, s0: Node, s1: Node, w: World, next: nat): (Outcome, nat)
    requires s0.Const? && s1.Const?
  {
    match Fold(op, Read(s0.literal), Read(s1.literal), w.fold)
    case Failed(e) => (Raised(e), next)
    case Value(v) => (Done(Const(next, w.common(s0.hint, s1.hint), Number(v))), next + 1)
  }

  /** The type of an operation: that of a pointer operand, or else common to both. */
  function OperationHint(s0: Node, s1: Node, w: World): Hint {
    if s0.Const? && s1.Const? then w.common(s0.hint, s1.hint)
    else if s0.Var? && (s0.hint.pointer || s0.hint.globalSpace) then s0.hint
    else if s1.Var? && (s1.hint.pointer || s1.hint.globalSpace) then s1.hint
    else if s0.hint == s1.hint then s0.hint
    else w.common(s0.hint, s1.hint)
  }

  /** The optimised node, not yet registered. */
  function OperationResult(op: Op, s0: Node, s1: Node, w: World, m: Memory): (Outcome, nat) {
    var hint := OperationHint(s0, s1, w);
    if s0.Const? && s1.Const? then FoldResult(op, s0, s1, w, m.next)
    else if op.Plus? then SumResult(s0, s1, hint, w, m)
    else if op.Minus? then DifferenceResult(s0, s1, hint, w, m)
    else if op.Mul? then ProductResult(s0, s1, hint, w.sizes, m.next)
    else if op.Div? then QuotientResult(s0, s1, hint, w, m.next)
    else if IsLogical(op) then
      var (node, next) := LogicalResult(op, s0, s1, hint, m.next);
      (Done(node), next)
    else (Done(Bin(m.next, hint, op, s0, s1)), m.next + 1)
  }

  // ---- calls ----

  /** The memory after `r` was registered as an operation on the originals of its operands. */
  function Registered(r: Node, op: Op, s0: Node, s1: Node, hint: Hint, m: Memory): Memory {
    var o := Bin(m.next, hint, op, OriginalOf(s0, m.originals), OriginalOf(s1, m.originals));
    Memory(m.originals[r := o], m.next + 1)
  }

  function Added(op: Op, s0: Node, s1: Node, w: World, m: Memory): (Outcome, Memory) {
    var (r, next) := OperationResult(op, s0, s1, w, m);
    (r, Recorded(r, op, s0, s1, OperationHint(s0, s1, w), m.(next := next)))
  }

  function Recorded(r: Outcome, op: Op, s0: Node, s1: Node, hint: Hint, m: Memory): Memory {
    if r.Raised? then m else Registered(r.node, op, s0, s1, hint, m)
  }

  /** A negation that is not optimised is not registered. */
  function Negated(n: Node, m: Memory): (Node, Memory) {
    var made := if n.Const? then m.next + 1 else m.next;
    var negation := Not(made, n.hint, n);
    match NegationOf(n, m.next)
    case None => (negation, m.(next := made + 1))
    case Some(r) => (r, Memory(m.originals[r := negation], made + 1))
  }

  function Chosen(c: Node, s0: Node, s1: Node, w: World, m: Memory): (Node, Memory) {
    var hint := w.common(s0.hint, s1.hint);
    var r := Ternary(m.next, hint, c, s0, s1);
    var o := Ternary(m.next + 1, hint, OriginalOf(c, m.originals), OriginalOf(s0, m.originals),
                     OriginalOf(s1, m.originals));
    (r, Memory(m.originals[r := o], m.next + 2))
  }

  /** A tree rebuilt from its leaves; a negation is rebuilt from its operand as it is. */
  function Rebuilt(n: Node, w: World, m: Memory): (Outcome, Memory) {
    match n
    case Not(_, _, x) => var (r, k) := Negated(x, m); (Done(r), k)
    case Bin(_, _, op, left, right) =>
      var (a, k) := Rebuilt(left, w, m);
      if a.Raised? then (a, k) else
      var (b, l) := Rebuilt(right, w, k);
      if b.Raised? then (b, l) else Added(op, a.node, b.node, w, l)
    case Const(_, hint, c) => (Done(Const(m.next, hint, c)), m.(next := m.next + 1))
    case _ => (Done(n), m)
  }
}
