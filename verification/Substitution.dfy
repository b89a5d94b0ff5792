/** Replacing a node substitutes: what is looked for goes, the replacement comes, and the value is that of the node with
    the variable set anew. */
module Substitution {
  import opened Operators
  import opened Expressions
  import opened OptimiserGuards
  import opened OptimiserResults
  import opened OptimiserRuns
  import opened Replacement
  import opened TameTrees
  import opened WorkItems

  // ---- what is replaced ----

  /** Where there is nothing to replace, nothing changes. */
  lemma {:induction false} ReplaceNothing(n: Node, from: Node, to: Node)
    requires !Contains(n, from)
    ensures Replace(n, from, to) == n
  {
    match n
    case Bin(_, _, _, l, r) => ReplaceNothing(l, from, to); ReplaceNothing(r, from, to);
    case Not(_, _, x) => ReplaceNothing(x, from, to);
    case Ternary(_, _, c, l, r) =>
      ReplaceNothing(c, from, to);
      ReplaceNothing(l, from, to);
      ReplaceNothing(r, from, to);
    case _ =>
  }

  /** Where there is something, the replacement comes in. */
  lemma {:induction false} ReplaceBringsIn(n: Node, from: Node, to: Node)
    requires Contains(n, from)
    ensures Contains(Replace(n, from, to), to)
  {
    ContentsEqualIsEquality(to, to);
    if ContentsEqual(n, to) || ContentsEqual(n, from) {
    } else {
      match n
      case Bin(_, _, _, l, r) =>
        if Contains(l, from) { ReplaceBringsIn(l, from, to); } else { ReplaceBringsIn(r, from, to); }
      case Not(_, _, x) => ReplaceBringsIn(x, from, to);
      case Ternary(_, _, c, l, r) =>
        if Contains(c, from) {
          ReplaceBringsIn(c, from, to);
        } else if Contains(l, from) {
          ReplaceBringsIn(l, from, to);
        } else {
          ReplaceBringsIn(r, from, to);
        }
      case _ =>
    }
  }

  predicate Apart(a: Node, b: Node) { !Contains(a, b) && !Contains(b, a) }

  lemma ReplaceChanges(n: Node, from: Node, to: Node)
    requires Contains(n, from) && Apart(from, to)
    ensures Contains(Replace(n, from, to), to) && !Contains(Replace(n, from, to), from)
    ensures !ContentsEqual(n, Replace(n, from, to))
  {
    ReplaceBringsIn(n, from, to);
    ReplaceLeavesNone(n, from, to);
    if ContentsEqual(n, Replace(n, from, to)) { ContainsByContents(n, Replace(n, from, to), from); }
  }

  /** The original of `from` is replaced if it occurs, or else `from` itself if that occurs; and what was replaced
      is gone. If neither occurs, nothing changes. */
  lemma ReplacedExactly(n: Node, from: Node, to: Node, originals: map<Node, Node>)
    ensures var source, r := OriginalOf(from, originals), Replaced(n, from, to, originals);
            && (Contains(n, source) && Apart(source, to) ==> Contains(r, to) && !Contains(r, source))
            && (!Contains(n, source) && Contains(n, from) && Apart(from, to) ==> Contains(r, to) && !Contains(r, from))
            && (!Contains(n, source) && !Contains(n, from) ==> r == n)
  {
    var source := OriginalOf(from, originals);
    ContentsEqualIsEquality(n, n);
    if Contains(n, source) {
      if Apart(source, to) { ReplaceChanges(n, source, to); }
    } else {
      ReplaceNothing(n, source, to);
      if Contains(n, from) {
        if Apart(from, to) { ReplaceChanges(n, from, to); }
      } else {
        ReplaceNothing(n, from, to);
      }
    }
  }

  // ---- what it is worth ----

  /** A variable of this name occurs. */
  predicate Names(n: Node, x: string) {
    match n
    case Var(_, _, y) => y == x
    case Bin(_, _, _, l, r) => Names(l, x) || Names(r, x)
    case Not(_, _, a) => Names(a, x)
    case Ternary(_, _, c, l, r) => Names(c, x) || Names(l, x) || Names(r, x)
    case _ => false
  }

  /** All variables of this name have this type. */
  predicate Typed(n: Node, x: string, h: Hint) {
    match n
    case Var(_, g, y) => y == x ==> g == h
    case Bin(_, _, _, l, r) => Typed(l, x, h) && Typed(r, x, h)
    case Not(_, _, a) => Typed(a, x, h)
    case Ternary(_, _, c, l, r) => Typed(c, x, h) && Typed(l, x, h) && Typed(r, x, h)
    case _ => true
  }

  /** The environment with one variable set anew. */
  function Setting(env: Env, x: string, v: real): Env {
    env.(vars := (y: string) => if y == x then v else env.vars(y))
  }

  lemma {:induction false} UnnamedKeepsValue(n: Node, env: Env, x: string, v: real)
    requires !Names(n, x)
    ensures Eval(n, Setting(env, x, v)) == Eval(n, env)
  {
    match n
    case Bin(_, _, op, l, r) =>
      UnnamedKeepsValue(l, env, x, v);
      UnnamedKeepsValue(r, env, x, v);
      AppliesAlike(op, Eval(l, env), Eval(r, env), env, x, v);
    case Not(_, _, a) => UnnamedKeepsValue(a, env, x, v);
    case Ternary(_, _, c, l, r) =>
      UnnamedKeepsValue(c, env, x, v);
      UnnamedKeepsValue(l, env, x, v);
      UnnamedKeepsValue(r, env, x, v);
    case _ =>
  }

  lemma AppliesAlike(op: Op, a: real, b: real, env: Env, x: string, v: real)
    ensures Apply(op, a, b, Setting(env, x, v)) == Apply(op, a, b, env)
  {}

  lemma SettingObeys(env: Env, w: World, x: string, v: real)
    requires Obeys(env, w)
    ensures Obeys(Setting(env, x, v), w)
  {
    forall d: Dim ensures GlobalIdLaw(Setting(env, x, v), d) && DeclaredSize(Setting(env, x, v), w, d) {
      assert GlobalIdLaw(env, d) && DeclaredSize(env, w, d);
    }
  }

  /** A variable that is replaced, and by what. */
  predicate Substitutes(n: Node, from: Node, to: Node) {
    from.Var? && !Names(to, from.name) && Typed(n, from.name, from.hint)
  }

  /** Replacing a variable is setting it to the value of the replacement. */
  lemma {:induction false} ReplaceSubstitutes(n: Node, from: Node, to: Node, env: Env)
    requires Substitutes(n, from, to)
    ensures Eval(Replace(n, from, to), env) == Eval(n, Setting(env, from.name, Eval(to, env)))
    ensures !Names(Replace(n, from, to), from.name)
  {
    var x, v := from.name, Eval(to, env);
    if ContentsEqual(n, to) {
      EqualContentsEqualValue(n, to, Setting(env, x, v));
      EqualContentsEqualValue(n, to, env);
      UnnamedKeepsValue(to, env, x, v);
      EqualContentsNameAlike(n, to, x);
    } else if ContentsEqual(n, from) {
    } else {
      match n
      case Bin(_, _, op, l, r) =>
        ReplaceSubstitutes(l, from, to, env);
        ReplaceSubstitutes(r, from, to, env);
        AppliesAlike(op, Eval(Replace(l, from, to), env), Eval(Replace(r, from, to), env), env, x, v);
      case Not(_, _, a) => ReplaceSubstitutes(a, from, to, env);
      case Ternary(_, _, c, l, r) =>
        ReplaceSubstitutes(c, from, to, env);
        ReplaceSubstitutes(l, from, to, env);
        ReplaceSubstitutes(r, from, to, env);
      case _ =>
    }
  }

  lemma {:induction false} EqualContentsNameAlike(a: Node, b: Node, x: string)
    requires ContentsEqual(a, b)
    ensures Names(a, x) == Names(b, x)
  {
    match a
    case Bin(_, _, _, l, r) => EqualContentsNameAlike(l, b.left, x); EqualContentsNameAlike(r, b.right, x);
    case Not(_, _, y) => EqualContentsNameAlike(y, b.arg, x);
    case Ternary(_, _, _, l, r) => EqualContentsNameAlike(l, b.left, x); EqualContentsNameAlike(r, b.right, x);
    case _ =>
  }

  lemma {:induction false} UnnamedContainsNot(n: Node, f: Node)
    requires f.Var? && !Names(n, f.name)
    ensures !Contains(n, f)
  {
    match n
    case Bin(_, _, _, l, r) => UnnamedContainsNot(l, f); UnnamedContainsNot(r, f);
    case Not(_, _, a) => UnnamedContainsNot(a, f);
    case Ternary(_, _, c, l, r) => UnnamedContainsNot(c, f); UnnamedContainsNot(l, f); UnnamedContainsNot(r, f);
    case _ =>
  }

  lemma ReplacedSubstitutes(n: Node, from: Node, to: Node, originals: map<Node, Node>, env: Env)
    requires Substitutes(n, from, to) && from !in originals
    ensures Eval(Replaced(n, from, to, originals), env) == Eval(n, Setting(env, from.name, Eval(to, env)))
  {
    var r := Replace(n, from, to);
    ReplaceSubstitutes(n, from, to, env);
    UnnamedContainsNot(r, from);
    ReplaceNothing(r, from, to);
  }

  /** In every environment the new node is worth what the old one is worth with the variable set to the value of the
      replacement; for a variable without an entry of its own, if the entry of the node is right and the changed tree is
      rebuilt within the guards. */
  lemma ReplacingSubstitutes(n: Node, from: Node, to: Node, w: World, m: Memory, env: Env)
    requires ReplacesSafely(n, from, to, w, m) && from !in m.originals && Obeys(env, w)
    requires Substitutes(n, from, to) && Substitutes(OriginalOf(n, m.originals), from, to)
    ensures var r := WithReplaced(n, from, to, w, m).0;
            r.Done? ==> Eval(r.node, env) == Eval(n, Setting(env, from.name, Eval(to, env)))
  {
    var x, v := from.name, Eval(to, env);
    SettingObeys(env, w, x, v);
    if ContentsEqual(n, to) {
      EqualContentsEqualValue(n, to, env);
      EqualContentsEqualValue(n, to, Setting(env, x, v));
      UnnamedKeepsValue(to, env, x, v);
    } else {
      var original := OriginalOf(n, m.originals);
      ReplacedSubstitutes(original, from, to, m.originals, env);
      RebuiltAgrees(Replaced(original, from, to, m.originals), w, m);
      assert Eval(original, Setting(env, x, v)) == Eval(n, Setting(env, x, v));
    }
  }
}
