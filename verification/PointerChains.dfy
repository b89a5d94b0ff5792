/** Definition chains from a memory access back to the kernel arguments it goes through. */
module PointerChains {
  import opened Options
  import opened RegisterFlow

  /** The first 32-bit part of a register; the search follows only this one. */
  function First(r: Reg): RegName {
    match r
    case Single(n) => n
    case Wide(t) => Low(t)
    case Several(f, _) => f
  }

  /** What the search looks at and never changes: the program, the register that points to the
      argument block, and the offsets of the pointer arguments. */
  datatype World = World(prog: seq<Instr>, argPtr: string, pointers: set<int>)

  /** Types by the offset of the argument. */
  type Types = map<int, string>

  const ADDRESS_BITS := 64

  /** The writer that answers for a use, if the register is read there. */
  function WriterOf(prog: seq<Instr>, u: Use): (w: Option<nat>)
    ensures w.Some? ==> w.value < u.0 && u.0 < |prog|
  {
    if u.0 < |prog| && u.1 in Read(prog[u.0]) then LastWriterBelow(prog, u.0, u.1); LastWriter(prog, u.0, u.1) else None
  }

  lemma {:induction false} LastWriterBelow(prog: seq<Instr>, n: nat, r: RegName)
    requires n <= |prog|
    ensures LastWriter(prog, n, r).Some? ==> LastWriter(prog, n, r).value < n
  {
    if n == 0 {
    } else {
      LastWriterBelow(prog, n - 1, r);
    }
  }

  /** From a use to a use in its writer. */
  predicate Link(w: World, u: Use, v: Use) {
    && WriterOf(w.prog, u).Some?
    && v.0 == WriterOf(w.prog, u).value
    && exists k | 0 <= k < |Sources(w.prog[v.0])| :: First(Sources(w.prog[v.0])[k]) == v.1
  }

  /** The pointer argument that the writer of this use loads, by its offset. */
  function Target(w: World, u: Use): Option<int> {
    match WriterOf(w.prog, u)
    case None => None
    case Some(i) => LoadedArgument(w, w.prog[i])
  }

  function LoadedArgument(w: World, i: Instr): Option<int> {
    if && i.load.Some?
       && i.load.value.base == w.argPtr
       && i.load.value.bits == ADDRESS_BITS
       && i.load.value.offset.Some?
       && i.load.value.offset.value in w.pointers
    then i.load.value.offset else None
  }

  /** An argument whose type is unknown so far or already the wanted one. */
  predicate Suits(inferred: Types, t: string, o: int) { o in inferred ==> inferred[o] == t }

  /** The search ends here with success. */
  predicate Hit(w: World, inferred: Types, t: string, u: Use) {
    Target(w, u).Some? && Suits(inferred, t, Target(w, u).value)
  }

  /** A definition chain from `u` to `v`, however it goes. */
  ghost predicate Connected(w: World, u: Use, v: Use)
    decreases u.0
  {
    u == v || exists x: Use :: Link(w, u, x) && Connected(w, x, v)
  }

  /** A definition chain that passes no success before its end. */
  ghost predicate Reaches(w: World, inferred: Types, t: string, u: Use, v: Use)
    decreases u.0
  {
    u == v || (!Hit(w, inferred, t, u) && exists x: Use :: Link(w, u, x) && Reaches(w, inferred, t, x, v))
  }

  ghost predicate Finds(w: World, inferred: Types, t: string, u: Use, o: int) {
    exists v: Use :: Reaches(w, inferred, t, u, v) && Hit(w, inferred, t, v) && Target(w, v) == Some(o)
  }

  /** Stopping at the first success loses no success. */
  lemma {:induction false} ChainMeetsHit(w: World, inferred: Types, t: string, u: Use, v: Use)
    requires Connected(w, u, v) && Hit(w, inferred, t, v)
    ensures exists x: Use :: Reaches(w, inferred, t, u, x) && Hit(w, inferred, t, x)
    decreases u.0
  {
    if Hit(w, inferred, t, u) {
      assert Reaches(w, inferred, t, u, u);
    } else {
      var x: Use :| Link(w, u, x) && Connected(w, x, v);
      ChainMeetsHit(w, inferred, t, x, v);
      var y: Use :| Reaches(w, inferred, t, x, y) && Hit(w, inferred, t, y);
      assert Reaches(w, inferred, t, u, y);
    }
  }

  lemma {:induction false} ReachesIsConnected(w: World, inferred: Types, t: string, u: Use, v: Use)
    requires Reaches(w, inferred, t, u, v)
    ensures Connected(w, u, v)
    decreases u.0
  {
    if u == v {
    } else {
      var x: Use :| Link(w, u, x) && Reaches(w, inferred, t, x, v);
      ReachesIsConnected(w, inferred, t, x, v);
    }
  }

  /** Some argument is found exactly when a definition chain of any kind leads to a suitable one. */
  lemma FindsExactlyWhatChainsReach(w: World, inferred: Types, t: string, u: Use)
    ensures (exists o :: Finds(w, inferred, t, u, o)) <==>
            exists v: Use :: Connected(w, u, v) && Hit(w, inferred, t, v)
  {
    if o :| Finds(w, inferred, t, u, o) {
      var v: Use :| Reaches(w, inferred, t, u, v) && Hit(w, inferred, t, v) && Target(w, v) == Some(o);
      ReachesIsConnected(w, inferred, t, u, v);
    }
    if v: Use :| Connected(w, u, v) && Hit(w, inferred, t, v) {
      ChainMeetsHit(w, inferred, t, u, v);
      var x: Use :| Reaches(w, inferred, t, u, x) && Hit(w, inferred, t, x);
      assert Finds(w, inferred, t, u, Target(w, x).value);
    }
  }

  // ---- what a depth-first search leaves behind ----

  /** `after` adds to `before` the arguments hit in `nodes`, all with type `t`. */
  ghost predicate Gained(w: World, before: Types, t: string, nodes: set<Use>, after: Types) {
    && (forall o :: o in after <==>
          o in before || exists v: Use :: v in nodes && Hit(w, before, t, v) && Target(w, v) == Some(o))
    && (forall o | o in after :: after[o] == if o in before then before[o] else t)
  }

  /** Nodes that are not hits have all their links inside `all`. */
  ghost predicate ClosedIn(w: World, inferred: Types, t: string, nodes: set<Use>, all: set<Use>) {
    forall v: Use, x: Use | v in nodes && Link(w, v, x) :: Hit(w, inferred, t, v) || x in all
  }

  ghost predicate AllReached(w: World, inferred: Types, t: string, u: Use, nodes: set<Use>) {
    forall v: Use | v in nodes :: Reaches(w, inferred, t, u, v)
  }

  ghost predicate SomeHit(w: World, inferred: Types, t: string, nodes: set<Use>) {
    exists v: Use :: v in nodes && Hit(w, inferred, t, v)
  }

  lemma HitsStay(w: World, before: Types, t: string, nodes: set<Use>, after: Types, v: Use)
    requires Gained(w, before, t, nodes, after)
    ensures Hit(w, after, t, v) == Hit(w, before, t, v)
  {}

  lemma {:induction false} ReachesStays(w: World, before: Types, t: string, nodes: set<Use>, after: Types,
                                        u: Use, v: Use)
    requires Gained(w, before, t, nodes, after) && Reaches(w, after, t, u, v)
    ensures Reaches(w, before, t, u, v)
    decreases u.0
  {
    if u == v {
    } else {
      HitsStay(w, before, t, nodes, after, u);
      var x: Use :| Link(w, u, x) && Reaches(w, after, t, x, v);
      ReachesStays(w, before, t, nodes, after, x, v);
    }
  }

  lemma GainedTwice(w: World, first: Types, t: string, a: set<Use>, second: Types, b: set<Use>,
                    third: Types)
    requires Gained(w, first, t, a, second) && Gained(w, second, t, b, third)
    ensures Gained(w, first, t, a + b, third)
  {
    forall v: Use ensures Hit(w, second, t, v) == Hit(w, first, t, v) { HitsStay(w, first, t, a, second, v); }
    forall o ensures o in third <==>
      o in first || exists v: Use :: v in a + b && Hit(w, first, t, v) && Target(w, v) == Some(o)
    {
      if v: Use :| v in b && Hit(w, second, t, v) && Target(w, v) == Some(o) {
        assert v in a + b && Hit(w, first, t, v) && Target(w, v) == Some(o);
      }
      if v: Use :| v in a && Hit(w, first, t, v) && Target(w, v) == Some(o) {
        assert v in a + b && Hit(w, first, t, v) && Target(w, v) == Some(o);
      }
    }
  }

  /** A closed set of nodes holds everything that is reached from its members. */
  lemma {:induction false} ClosedHoldsReached(w: World, inferred: Types, t: string, all: set<Use>, u: Use, v: Use)
    requires ClosedIn(w, inferred, t, all, all) && u in all && Reaches(w, inferred, t, u, v)
    ensures v in all
    decreases u.0
  {
    if u == v {
    } else {
      var x: Use :| Link(w, u, x) && Reaches(w, inferred, t, x, v);
      ClosedHoldsReached(w, inferred, t, all, x, v);
    }
  }

  // ---- the whole pass, as a function ----

  predicate IsAccess(w: World, i: nat) { i < |w.prog| && w.prog[i].access.Some? }

  function RootOf(w: World, i: nat): Use
    requires IsAccess(w, i)
  {
    (i, Low(w.prog[i].access.value.address))
  }

  ghost function InferAt(w: World, inferred: Types, i: nat): Types
    requires IsAccess(w, i)
  {
    var t := w.prog[i].access.value.typeName;
    map o | o in inferred.Keys + w.pointers && (o in inferred || Finds(w, inferred, t, RootOf(w, i), o)) ::
      if o in inferred then inferred[o] else t
  }

  /** The types inferred from the accesses among the first `n` instructions. */
  ghost function InferRun(w: World, start: Types, n: nat): Types
    requires n <= |w.prog|
  {
    if n == 0 then start
    else if IsAccess(w, n - 1) then InferAt(w, InferRun(w, start, n - 1), n - 1)
    else InferRun(w, start, n - 1)
  }

  ghost predicate FindsAt(w: World, start: Types, i: nat, o: int)
    requires i <= |w.prog|
  {
    IsAccess(w, i) && Finds(w, InferRun(w, start, i), w.prog[i].access.value.typeName, RootOf(w, i), o)
  }

  lemma FindsPointers(w: World, inferred: Types, t: string, u: Use, o: int)
    requires Finds(w, inferred, t, u, o)
    ensures o in w.pointers
  {}

  /** A type once inferred never changes. */
  lemma {:induction false} TypesNeverChange(w: World, start: Types, m: nat, n: nat, o: int)
    requires m <= n <= |w.prog| && o in InferRun(w, start, m)
    ensures o in InferRun(w, start, n) && InferRun(w, start, n)[o] == InferRun(w, start, m)[o]
    decreases n
  {
    if m >= n {
    } else {
      TypesNeverChange(w, start, m, n - 1, o);
    }
  }

  lemma StepInfers(w: World, start: Types, i: nat, o: int)
    requires i < |w.prog|
    ensures o in InferRun(w, start, i + 1) <==> o in InferRun(w, start, i) || FindsAt(w, start, i, o)
    ensures FindsAt(w, start, i, o) && o !in InferRun(w, start, i) ==>
              o in InferRun(w, start, i + 1) && InferRun(w, start, i + 1)[o] == w.prog[i].access.value.typeName
  {
    if FindsAt(w, start, i, o) {
      FindsPointers(w, InferRun(w, start, i), w.prog[i].access.value.typeName, RootOf(w, i), o);
    }
  }

  /** Exactly the arguments that some access finds get a type. */
  lemma {:induction false} InferredWhenFound(w: World, n: nat, o: int)
    requires n <= |w.prog|
    ensures o in InferRun(w, map[], n) <==> exists i: nat | i < n :: FindsAt(w, map[], i, o)
  {
    if n == 0 {
    } else {
      InferredWhenFound(w, n - 1, o);
      StepInfers(w, map[], n - 1, o);
    }
  }

  /** The first access that finds an argument decides its type for good. */
  lemma FirstAccessDecides(w: World, n: nat, i: nat, o: int)
    requires i < n <= |w.prog| && FindsAt(w, map[], i, o) && forall j: nat | j < i :: !FindsAt(w, map[], j, o)
    ensures o in InferRun(w, map[], n) && InferRun(w, map[], n)[o] == w.prog[i].access.value.typeName
  {
    InferredWhenFound(w, i, o);
    StepInfers(w, map[], i, o);
    TypesNeverChange(w, map[], i + 1, n, o);
  }
}
