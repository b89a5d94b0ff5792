/** Replacing subtrees by contents. */
module Replacement {
  import opened Expressions
  import opened OptimiserGuards

  /** Replaces every subtree with the contents of `from`; subtrees with the contents of `to` stay. */
  function Replace(n: Node, from: Node, to: Node): Node
    decreases n, 1
  {
    if ContentsEqual(n, to) then n else if ContentsEqual(n, from) then to else ReplaceInside(n, from, to)
  }

  function ReplaceInside(n: Node, from: Node, to: Node): Node
    decreases n, 0
  {
    match n
    case Bin(i, h, op, l, r) => Bin(i, h, op, Replace(l, from, to), Replace(r, from, to))
    case Not(i, h, x) => Not(i, h, Replace(x, from, to))
    case Ternary(i, h, c, l, r) => Ternary(i, h, Replace(c, from, to), Replace(l, from, to), Replace(r, from, to))
    case _ => n
  }

  /** First the original of `from` is looked for, then `from` itself, then its original once more. */
  function Replaced(n: Node, from: Node, to: Node, originals: map<Node, Node>): Node {
    var first := Replace(n, OriginalOf(from, originals), to);
    var second := if from in originals && ContentsEqual(n, first) then Replace(first, from, to) else first;
    if !ContentsEqual(n, second) then second else Replace(second, OriginalOf(from, originals), to)
  }

  lemma EqualContentsEqualValue(a: Node, b: Node, env: Env)
    requires ContentsEqual(a, b)
    ensures Eval(a, env) == Eval(b, env)
  {
    ContentsEqualIsEquality(a, b);
    ContentsKeepValue(a, env);
    ContentsKeepValue(b, env);
  }

  lemma {:induction false} ReplaceKeepsValue(n: Node, from: Node, to: Node, env: Env)
    requires Eval(from, env) == Eval(to, env)
    ensures Eval(Replace(n, from, to), env) == Eval(n, env)
    decreases n, 1
  {
    if !ContentsEqual(n, to) {
      if ContentsEqual(n, from) { EqualContentsEqualValue(n, from, env); } else { InsideKeepsValue(n, from, to, env); }
    }
  }

  lemma {:induction false} InsideKeepsValue(n: Node, from: Node, to: Node, env: Env)
    requires Eval(from, env) == Eval(to, env)
    ensures Eval(ReplaceInside(n, from, to), env) == Eval(n, env)
    decreases n, 0
  {
    match n
    case Bin(_, _, _, l, r) =>
      ReplaceKeepsValue(l, from, to, env);
      ReplaceKeepsValue(r, from, to, env);
    case Not(_, _, x) => ReplaceKeepsValue(x, from, to, env);
    case Ternary(_, _, c, l, r) =>
      ReplaceKeepsValue(c, from, to, env);
      ReplaceKeepsValue(l, from, to, env);
      ReplaceKeepsValue(r, from, to, env);
    case _ =>
  }

  lemma {:induction false} ReplaceOf(n: Node, from: Node, to: Node, s: Sort)
    requires Of(n, s) && Of(to, s)
    ensures Of(Replace(n, from, to), s)
    decreases n, 1
  {
    if !ContentsEqual(n, to) && !ContentsEqual(n, from) { InsideOf(n, from, to, s); }
  }

  lemma {:induction false} InsideOf(n: Node, from: Node, to: Node, s: Sort)
    requires Of(n, s) && Of(to, s)
    ensures Of(ReplaceInside(n, from, to), s)
    decreases n, 0
  {
    match n
    case Bin(_, _, _, l, r) =>
      ReplaceOf(l, from, to, s);
      ReplaceOf(r, from, to, s);
    case Not(_, _, x) => ReplaceOf(x, from, to, s);
    case Ternary(_, _, c, l, r) =>
      ReplaceOf(c, from, to, s);
      ReplaceOf(l, from, to, s);
      ReplaceOf(r, from, to, s);
    case _ =>
  }

  lemma ReplacedOf(n: Node, from: Node, to: Node, originals: map<Node, Node>, s: Sort)
    requires Of(n, s) && Of(to, s)
    ensures Of(Replaced(n, from, to, originals), s)
  {
    var source := OriginalOf(from, originals);
    var first := Replace(n, source, to);
    var second := if from in originals && ContentsEqual(n, first) then Replace(first, from, to) else first;
    ReplaceOf(n, source, to, s);
    ReplaceOf(first, from, to, s);
    ReplaceOf(second, source, to, s);
  }

  /** If the entries of the node and of `from` are right, the replaced tree is worth what the node was,
      wherever `from` and `to` agree. */
  lemma ReplacedKeepsValue(n: Node, from: Node, to: Node, originals: map<Node, Node>, w: World, env: Env)
    requires EntryHolds(n, originals, w) && EntryHolds(from, originals, w)
    requires Obeys(env, w) && Eval(from, env) == Eval(to, env)
    ensures Eval(Replaced(OriginalOf(n, originals), from, to, originals), env) == Eval(n, env)
  {
    var start, source := OriginalOf(n, originals), OriginalOf(from, originals);
    var first := Replace(start, source, to);
    var second := if from in originals && ContentsEqual(start, first) then Replace(first, from, to) else first;
    ReplaceKeepsValue(start, source, to, env);
    ReplaceKeepsValue(first, from, to, env);
    ReplaceKeepsValue(second, source, to, env);
  }

  // ---- nothing is left over ----

  /** A subtree of `n` has the contents of `f`. */
  predicate Contains(n: Node, f: Node)
    decreases n
  {
    ContentsEqual(n, f) ||
    match n
    case Bin(_, _, _, l, r) => Contains(l, f) || Contains(r, f)
    case Not(_, _, x) => Contains(x, f)
    case Ternary(_, _, c, l, r) => Contains(c, f) || Contains(l, f) || Contains(r, f)
    case _ => false
  }

  lemma {:induction false} ContainsByContents(a: Node, b: Node, f: Node)
    requires ContentsEqual(a, b)
    ensures Contains(a, f) == Contains(b, f)
    decreases a
  {
    ContentsEqualIsEquality(a, b);
    ContentsEqualIsEquality(a, f);
    ContentsEqualIsEquality(b, f);
    match a
    case Bin(_, _, _, l, r) => ContainsByContents(l, b.left, f); ContainsByContents(r, b.right, f);
    case Not(_, _, x) => ContainsByContents(x, b.arg, f);
    case Ternary(_, _, c, l, r) => ContainsByContents(l, b.left, f); ContainsByContents(r, b.right, f);
    case _ =>
  }

  /** A tree in which something was replaced contains the replacement. */
  lemma {:induction false} ReplaceLeavesTrace(n: Node, from: Node, to: Node)
    ensures Replace(n, from, to) == n || Contains(Replace(n, from, to), to)
    decreases n, 1
  {
    if !ContentsEqual(n, to) {
      if ContentsEqual(n, from) { ContentsEqualIsEquality(to, to); } else { InsideLeavesTrace(n, from, to); }
    }
  }

  lemma {:induction false} InsideLeavesTrace(n: Node, from: Node, to: Node)
    ensures ReplaceInside(n, from, to) == n || Contains(ReplaceInside(n, from, to), to)
    decreases n, 0
  {
    match n
    case Bin(_, _, _, l, r) =>
      ReplaceLeavesTrace(l, from, to);
      ReplaceLeavesTrace(r, from, to);
    case Not(_, _, x) => ReplaceLeavesTrace(x, from, to);
    case Ternary(_, _, c, l, r) =>
      ReplaceLeavesTrace(c, from, to);
      ReplaceLeavesTrace(l, from, to);
      ReplaceLeavesTrace(r, from, to);
    case _ =>
  }

  /** No `from` is left, if neither of the two trees contains the other. */
  lemma {:induction false} ReplaceLeavesNone(n: Node, from: Node, to: Node)
    requires !Contains(to, from) && !Contains(from, to)
    ensures !Contains(Replace(n, from, to), from)
    decreases n, 1
  {
    if ContentsEqual(n, to) {
      ContainsByContents(n, to, from);
    } else if !ContentsEqual(n, from) {
      var r := Replace(n, from, to);
      ReplaceLeavesTrace(n, from, to);
      if ContentsEqual(r, from) { ContainsByContents(r, from, to); }
      InsideLeavesNone(n, from, to);
    }
  }

  lemma {:induction false} InsideLeavesNone(n: Node, from: Node, to: Node)
    requires !Contains(to, from) && !Contains(from, to)
    ensures Contains(ReplaceInside(n, from, to), from) ==> ContentsEqual(ReplaceInside(n, from, to), from)
    decreases n, 0
  {
    match n
    case Bin(_, _, _, a, b) =>
      ReplaceLeavesNone(a, from, to);
      ReplaceLeavesNone(b, from, to);
    case Not(_, _, x) => ReplaceLeavesNone(x, from, to);
    case Ternary(_, _, c, a, b) =>
      ReplaceLeavesNone(c, from, to);
      ReplaceLeavesNone(a, from, to);
      ReplaceLeavesNone(b, from, to);
    case _ =>
  }
}
