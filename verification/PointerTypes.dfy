/** The pass that infers the types of pointer arguments, as it runs. */
module PointerTypes {
  import opened Options
  import opened RegisterFlow
  import opened PointerChains

  datatype Argument = Argument(name: string, typeName: string, size: int)

  const ADDRESS_BYTES := 8

  predicate NamesPointer(name: string) { name != "" && name[0] == '*' }

  /** The two indices lead to arguments in the list. */
  predicate IndexedBy(all: seq<Argument>, byName: map<string, nat>, byOffset: map<int, nat>) {
    && (forall o | o in byOffset :: byOffset[o] < |all| && all[byOffset[o]].name in byName)
    && (forall n | n in byName :: byName[n] < |all| && all[byName[n]].name == n)
    && (forall o, p | o in byOffset && p in byOffset && byOffset[o] == byOffset[p] :: o == p)
  }

  /** And the argument at an offset is the one with its name. */
  predicate ToldApart(all: seq<Argument>, byName: map<string, nat>, byOffset: map<int, nat>) {
    IndexedBy(all, byName, byOffset) && forall o | o in byOffset :: byName[all[byOffset[o]].name] == byOffset[o]
  }

  /** Giving an argument another type changes no name. */
  lemma Retyped(all: seq<Argument>, byName: map<string, nat>, byOffset: map<int, nat>, name: string, t: string)
    requires IndexedBy(all, byName, byOffset) && name in byName
    ensures var now := all[byName[name] := Argument(name, t, ADDRESS_BYTES)];
            && IndexedBy(now, byName, byOffset) && (forall k | 0 <= k < |all| :: now[k].name == all[k].name)
            && (ToldApart(all, byName, byOffset) ==> ToldApart(now, byName, byOffset))
  {
  }

  /** The offsets of pointer arguments, and the declared type of the argument at each offset. */
  function PointersOf(all: seq<Argument>, byOffset: map<int, nat>): set<int>
    requires forall o | o in byOffset :: byOffset[o] < |all|
  {
    set o | o in byOffset && NamesPointer(all[byOffset[o]].name)
  }

  function TypesOf(all: seq<Argument>, byOffset: map<int, nat>): Types
    requires forall o | o in byOffset :: byOffset[o] < |all|
  {
    map o | o in byOffset :: all[byOffset[o]].typeName
  }

  /** While arguments are told apart, only the type at that offset changes. */
  lemma RetypedAt(all: seq<Argument>, byName: map<string, nat>, byOffset: map<int, nat>, offset: int, t: string)
    requires ToldApart(all, byName, byOffset) && offset in byOffset
    ensures var name := all[byOffset[offset]].name;
            var now := all[byName[name] := Argument(name, t, ADDRESS_BYTES)];
            && IndexedBy(now, byName, byOffset) && PointersOf(now, byOffset) == PointersOf(all, byOffset)
            && TypesOf(now, byOffset) == TypesOf(all, byOffset)[offset := t]
  {
    var name := all[byOffset[offset]].name;
    Retyped(all, byName, byOffset, name, t);
    var now := all[byName[name] := Argument(name, t, ADDRESS_BYTES)];
    assert byName[name] == byOffset[offset];
    forall o | o in byOffset
      ensures now[byOffset[o]].name == all[byOffset[o]].name
      ensures now[byOffset[o]].typeName == if o == offset then t else all[byOffset[o]].typeName
    {}
    assert PointersOf(now, byOffset) == PointersOf(all, byOffset);
    assert TypesOf(now, byOffset) == TypesOf(all, byOffset)[offset := t];
  }

  /** The kernel's argument table. */
  class KernelArguments {
    var all: seq<Argument>
    var byName: map<string, nat>
    var byOffset: map<int, nat>

    ghost predicate Indexed()
      reads this
    {
      IndexedBy(all, byName, byOffset)
    }

    ghost predicate Valid()
      reads this
    {
      ToldApart(all, byName, byOffset)
    }

    constructor ()
      ensures Valid() && all == [] && byOffset == map[] && byName == map[]
    {
      all, byName, byOffset := [], map[], map[];
    }

    /** A name or offset that is in use is taken over. Arguments stay told apart by their names exactly when no
        other offset holds an argument of that name. */
    method Add(name: string, typeName: string, offset: int, size: int)
      requires Indexed()
      modifies this
      ensures Indexed()
      ensures old(Valid()) ==>
                (Valid() <==> forall o | o in old(byOffset) && o != offset :: old(all)[old(byOffset)[o]].name != name)
      ensures all == old(all) + [Argument(name, typeName, if NamesPointer(name) then ADDRESS_BYTES else size)]
      ensures byOffset == old(byOffset)[offset := |old(all)|] && byName == old(byName)[name := |old(all)|]
    {
      var argument := Argument(name, typeName, if NamesPointer(name) then ADDRESS_BYTES else size);
      ghost var were, at := all, byOffset;
      byName := byName[name := |all|];
      byOffset := byOffset[offset := |all|];
      all := all + [argument];
      forall o | o in at && o != offset
        ensures o in byOffset && all[byOffset[o]] == were[at[o]] && byOffset[o] < |were|
        ensures were[at[o]].name == name ==> byName[all[byOffset[o]].name] != byOffset[o]
      {
        assert byOffset[o] == at[o];
      }
    }

    ghost function Pointers(): set<int>
      requires Valid()
      reads this
    {
      PointersOf(all, byOffset)
    }

    ghost function Types(): Types
      requires Valid()
      reads this
    {
      TypesOf(all, byOffset)
    }

    /** Sets the type of the pointer argument that was added last under the name of the one at `offset`; that is the
        one at `offset` while arguments are told apart by their names. */
    method UpdatePointerByOffset(offset: int, typeName: string) returns (ok: bool)
      requires Indexed() && (offset in byOffset ==> NamesPointer(all[byOffset[offset]].name))
      modifies this
      ensures Indexed() && ok == (offset in byOffset) && byOffset == old(byOffset) && byName == old(byName)
      ensures !ok ==> all == old(all)
      ensures ok ==>
                var name := old(all[byOffset[offset]].name);
                all == old(all)[old(byName)[name] := Argument(name, typeName, ADDRESS_BYTES)]
      ensures old(Valid()) ==>
                && Valid() && Pointers() == old(Pointers())
                && Types() == if ok then old(Types())[offset := typeName] else old(Types())
    {
      if offset !in byOffset { return false; }
      var name := all[byOffset[offset]].name;
      if name !in byName { return false; }
      Retyped(all, byName, byOffset, name, typeName);
      if Valid() { RetypedAt(all, byName, byOffset, offset, typeName); }
      all := all[byName[name] := Argument(name, typeName, ADDRESS_BYTES)];
      return true;
    }
  }

  /** `after` is the table `before` into which the types inferred between `was` and `now` have been written. */
  ghost predicate Wrote(before: Types, was: Types, now: Types, after: Types) {
    forall o :: (o in after <==> o in before) &&
      (o in before ==> after[o] == if o in now && o !in was then now[o] else before[o])
  }

  // ---- one more branch of the search: uses `v1` were known before it, `v2` are after it ----

  lemma WroteTwice(w: World, t: string, nodes: set<Use>, b0: Types, i0: Types, i1: Types,
                   b1: Types, i2: Types, b2: Types, more: set<Use>)
    requires Gained(w, i0, t, nodes, i1) && Gained(w, i1, t, more, i2)
    requires Wrote(b0, i0, i1, b1) && Wrote(b1, i1, i2, b2)
    ensures Wrote(b0, i0, i2, b2)
  {}

  lemma BranchReached(w: World, i0: Types, i1: Types, t: string, u: Use, x: Use,
                      v0: set<Use>, v1: set<Use>, v2: set<Use>)
    requires Gained(w, i0, t, v1 - v0, i1) && Link(w, u, x) && !Hit(w, i0, t, u)
    requires AllReached(w, i0, t, u, v1 - v0) && AllReached(w, i1, t, x, v2 - v1)
    ensures AllReached(w, i0, t, u, v2 - v0)
  {
    forall v: Use | v in v2 - v0 ensures Reaches(w, i0, t, u, v) {
      if v !in v1 { ReachesStays(w, i0, t, v1 - v0, i1, x, v); }
    }
  }

  lemma BranchClosed(w: World, i0: Types, i1: Types, t: string, u: Use,
                     v0: set<Use>, v1: set<Use>, v2: set<Use>)
    requires Gained(w, i0, t, v1 - v0, i1) && v0 <= v1 <= v2 && u in v1
    requires ClosedIn(w, i0, t, v1 - v0 - {u}, v1) && ClosedIn(w, i1, t, v2 - v1, v2)
    ensures ClosedIn(w, i0, t, v2 - v0 - {u}, v2)
  {
    forall v: Use, x: Use | v in v2 - v0 - {u} && Link(w, v, x) ensures Hit(w, i0, t, v) || x in v2 {
      HitsStay(w, i0, t, v1 - v0, i1, v);
      if v in v1 { assert v in v1 - v0 - {u}; } else { assert v in v2 - v1; }
    }
  }

  lemma BranchHits(w: World, i0: Types, i1: Types, t: string, v0: set<Use>, v1: set<Use>, v2: set<Use>)
    requires Gained(w, i0, t, v1 - v0, i1) && v0 <= v1 <= v2
    ensures SomeHit(w, i0, t, v2 - v0) == (SomeHit(w, i0, t, v1 - v0) || SomeHit(w, i1, t, v2 - v1))
  {
    forall v: Use ensures Hit(w, i1, t, v) == Hit(w, i0, t, v) { HitsStay(w, i0, t, v1 - v0, i1, v); }
    if v: Use :| v in v2 - v0 && Hit(w, i0, t, v) { assert v in v1 - v0 || v in v2 - v1; }
    if v: Use :| v in v1 - v0 && Hit(w, i0, t, v) { assert v in v2 - v0; }
    if v: Use :| v in v2 - v1 && Hit(w, i1, t, v) { assert v in v2 - v0; }
  }

  lemma BranchGains(w: World, i0: Types, i1: Types, i2: Types, t: string,
                    v0: set<Use>, v1: set<Use>, v2: set<Use>)
    requires Gained(w, i0, t, v1 - v0, i1) && Gained(w, i1, t, v2 - v1, i2) && v0 <= v1 <= v2
    ensures Gained(w, i0, t, v2 - v0, i2)
  {
    GainedTwice(w, i0, t, v1 - v0, i1, v2 - v1, i2);
    assert v2 - v0 == (v1 - v0) + (v2 - v1);
  }

  /** The visited uses, the inferred types and the declared types at one moment. */
  datatype Moment = Moment(visited: set<Use>, inferred: Types, types: Types)

  /** What a search from `u` for type `t` made of `m0`, up to the links of `u` itself. */
  ghost predicate Exploring(w: World, t: string, u: Use, m0: Moment, m: Moment, updated: bool) {
    && m0.visited <= m.visited && u in m.visited
    && updated == SomeHit(w, m0.inferred, t, m.visited - m0.visited)
    && AllReached(w, m0.inferred, t, u, m.visited - m0.visited)
    && ClosedIn(w, m0.inferred, t, m.visited - m0.visited - {u}, m.visited)
    && Gained(w, m0.inferred, t, m.visited - m0.visited, m.inferred)
    && Wrote(m0.types, m0.inferred, m.inferred, m.types)
  }

  /** A finished search. */
  ghost predicate Explored(w: World, t: string, u: Use, m0: Moment, m: Moment, updated: bool) {
    && Exploring(w, t, u, m0, m, updated)
    && ClosedIn(w, m0.inferred, t, m.visited - m0.visited, m.visited)
  }

  lemma BranchExplored(w: World, t: string, u: Use, x: Use, m0: Moment, m1: Moment, m2: Moment, updated: bool,
                       below: bool)
    requires Exploring(w, t, u, m0, m1, updated) && Explored(w, t, x, m1, m2, below)
    requires Link(w, u, x) && !Hit(w, m0.inferred, t, u)
    ensures Exploring(w, t, u, m0, m2, below || updated)
  {
    var v0, v1, v2, i0, i1, i2 := m0.visited, m1.visited, m2.visited, m0.inferred, m1.inferred, m2.inferred;
    BranchReached(w, i0, i1, t, u, x, v0, v1, v2);
    BranchClosed(w, i0, i1, t, u, v0, v1, v2);
    BranchHits(w, i0, i1, t, v0, v1, v2);
    BranchGains(w, i0, i1, i2, t, v0, v1, v2);
    WroteTwice(w, t, v1 - v0, m0.types, i0, i1, m1.types, i2, m2.types, v2 - v1);
  }

  /** A search that stops at once, because the use is known, has no writer, or is a hit. */
  lemma StopsHere(w: World, t: string, u: Use, m0: Moment, m: Moment, hit: bool)
    requires m.visited == m0.visited + {u} && (hit ==> u !in m0.visited)
    requires u !in m0.visited ==> hit == Hit(w, m0.inferred, t, u)
    requires Gained(w, m0.inferred, t, if hit then {u} else {}, m.inferred)
    requires Wrote(m0.types, m0.inferred, m.inferred, m.types)
    ensures Exploring(w, t, u, m0, m, hit)
    ensures hit || u in m0.visited || WriterOf(w.prog, u).None? ==> Explored(w, t, u, m0, m, hit)
  {
    assert m.visited - m0.visited == if u in m0.visited then {} else {u};
  }

  /** The first `k` sources of the writer `i` have been followed. */
  ghost predicate Followed(w: World, t: string, u: Use, i: nat, k: nat, m0: Moment, m: Moment, updated: bool)
    requires i < |w.prog| && k <= |Sources(w.prog[i])|
  {
    && Exploring(w, t, u, m0, m, updated)
    && forall j | 0 <= j < k :: (i, First(Sources(w.prog[i])[j])) in m.visited
  }

  lemma OneMoreFollowed(w: World, t: string, u: Use, i: nat, k: nat, m0: Moment, m1: Moment, m2: Moment,
                        updated: bool, below: bool)
    requires WriterOf(w.prog, u) == Some(i) && k < |Sources(w.prog[i])| && !Hit(w, m0.inferred, t, u)
    requires Followed(w, t, u, i, k, m0, m1, updated)
    requires Explored(w, t, (i, First(Sources(w.prog[i])[k])), m1, m2, below)
    ensures Followed(w, t, u, i, k + 1, m0, m2, below || updated)
  {
    var x: Use := (i, First(Sources(w.prog[i])[k]));
    assert Link(w, u, x);
    BranchExplored(w, t, u, x, m0, m1, m2, updated, below);
  }

  lemma AllLinksTaken(w: World, t: string, u: Use, i: nat, m0: Moment, m: Moment, updated: bool)
    requires WriterOf(w.prog, u) == Some(i) && Followed(w, t, u, i, |Sources(w.prog[i])|, m0, m, updated)
    ensures Explored(w, t, u, m0, m, updated)
  {}

  /** A search that starts with nothing visited visits exactly what is reached, so it infers and reports
      exactly what is found. */
  lemma SearchFindsAll(w: World, t: string, u: Use, m0: Moment, m: Moment, updated: bool)
    requires Explored(w, t, u, m0, m, updated) && m0.visited == {}
    ensures forall o :: o in m.inferred <==> o in m0.inferred || Finds(w, m0.inferred, t, u, o)
    ensures updated <==> exists o :: Finds(w, m0.inferred, t, u, o)
  {
    assert m.visited - m0.visited == m.visited;
    forall v: Use ensures v in m.visited <==> Reaches(w, m0.inferred, t, u, v) {
      if Reaches(w, m0.inferred, t, u, v) { ClosedHoldsReached(w, m0.inferred, t, m.visited, u, v); }
    }
    if v: Use :| v in m.visited && Hit(w, m0.inferred, t, v) {
      assert Reaches(w, m0.inferred, t, u, v);
      assert Finds(w, m0.inferred, t, u, Target(w, v).value);
    }
    if o :| Finds(w, m0.inferred, t, u, o) {
      var v: Use :| Reaches(w, m0.inferred, t, u, v) && Hit(w, m0.inferred, t, v) && Target(w, v) == Some(o);
      assert v in m.visited;
    }
  }

  lemma SearchInfersAt(w: World, i: nat, m0: Moment, m: Moment, updated: bool)
    requires IsAccess(w, i) && m0.visited == {}
    requires Explored(w, w.prog[i].access.value.typeName, RootOf(w, i), m0, m, updated)
    ensures m.inferred == InferAt(w, m0.inferred, i)
  {
    var t := w.prog[i].access.value.typeName;
    SearchFindsAll(w, t, RootOf(w, i), m0, m, updated);
    var expected := InferAt(w, m0.inferred, i);
    forall o ensures o in m.inferred <==> o in expected {
      if Finds(w, m0.inferred, t, RootOf(w, i), o) { FindsPointers(w, m0.inferred, t, RootOf(w, i), o); }
      assert o in expected <==>
             o in m0.inferred.Keys + w.pointers && (o in m0.inferred || Finds(w, m0.inferred, t, RootOf(w, i), o));
    }
    forall o | o in m.inferred ensures m.inferred[o] == expected[o] {}
    assert m.inferred == expected;
  }

  ghost predicate FindsSome(w: World, start: Types, i: nat)
    requires i < |w.prog|
  {
    exists o :: FindsAt(w, start, i, o)
  }

  /** How many accesses among the first `n` instructions find an argument. */
  ghost function CountRun(w: World, start: Types, n: nat): nat
    requires n <= |w.prog|
  {
    if n == 0 then 0 else CountRun(w, start, n - 1) + if FindsSome(w, start, n - 1) then 1 else 0
  }

  lemma AccessInferred(w: World, start: Types, types: Types, n: nat, m0: Moment, m: Moment, updated: bool)
    requires IsAccess(w, n) && m0.visited == {} && m0.inferred == InferRun(w, start, n)
    requires Wrote(types, start, m0.inferred, m0.types)
    requires Explored(w, w.prog[n].access.value.typeName, RootOf(w, n), m0, m, updated)
    ensures m.inferred == InferRun(w, start, n + 1) && Wrote(types, start, m.inferred, m.types)
    ensures updated == FindsSome(w, start, n)
  {
    var t := w.prog[n].access.value.typeName;
    SearchFindsAll(w, t, RootOf(w, n), m0, m, updated);
    SearchInfersAt(w, n, m0, m, updated);
    if o :| Finds(w, m0.inferred, t, RootOf(w, n), o) { assert FindsAt(w, start, n, o); }
    if o :| FindsAt(w, start, n, o) { assert Finds(w, m0.inferred, t, RootOf(w, n), o); }
    forall o | o in start ensures o in m0.inferred && m0.inferred[o] == start[o] {
      TypesNeverChange(w, start, 0, n, o);
    }
  }

  class PointerInference {
    const prog: seq<Instr>
    const argPtr: string
    const flow: FlowGraph
    const args: KernelArguments
    var inferred: Types
    var visited: set<Use>
    var count: nat

    constructor (prog: seq<Instr>, argPtr: string, flow: FlowGraph, args: KernelArguments)
      ensures this.prog == prog && this.argPtr == argPtr && this.flow == flow && this.args == args
      ensures inferred == map[] && visited == {} && count == 0
    {
      this.prog, this.argPtr, this.flow, this.args := prog, argPtr, flow, args;
      inferred, visited, count := map[], {}, 0;
    }

    ghost predicate Valid()
      reads this, flow, args
    {
      flow.Describes(prog) && args.Valid()
    }

    ghost function Seen(): World
      requires args.Valid()
      reads this, args
    {
      World(prog, argPtr, args.Pointers())
    }

    lemma WriterAnswers(u: Use)
      requires flow.Describes(prog)
      ensures flow.GetWriter(u.0, u.1) == WriterOf(prog, u)
    {
    }

    /** One argument load: success unless it is not one, or its type is already known to be another. */
    method TryUpdate(u: Use, i: nat, t: string) returns (ok: bool)
      requires Valid() && WriterOf(prog, u) == Some(i)
      modifies this`inferred, args
      ensures Valid() && Seen() == old(Seen())
      ensures ok == Hit(Seen(), old(inferred), t, u)
      ensures Gained(Seen(), old(inferred), t, if ok then {u} else {}, inferred)
      ensures !ok ==> inferred == old(inferred)
      ensures Wrote(old(args.Types()), old(inferred), inferred, args.Types())
    {
      var instr := prog[i];
      if instr.load.None? { return false; }
      var load := instr.load.value;
      if load.base != argPtr { return false; }
      if load.bits != ADDRESS_BITS { return false; }
      if load.offset.None? { return false; }
      var offset := load.offset.value;
      if offset !in args.byOffset || !NamesPointer(args.all[args.byOffset[offset]].name) { return false; }
      if offset in inferred { return inferred[offset] == t; }
      ok := args.UpdatePointerByOffset(offset, t);
      if !ok { return false; }
      inferred := inferred[offset := t];
    }

    ghost function Now(): Moment
      requires args.Valid()
      reads this, args
    {
      Moment(visited, inferred, args.Types())
    }

    /** Depth-first along the definition chains of `u`, each use at most once. */
    method Propagate(u: Use, t: string) returns (updated: bool)
      requires Valid()
      modifies this`inferred, this`visited, args
      ensures Valid() && Seen() == old(Seen())
      ensures Explored(Seen(), t, u, old(Now()), Now(), updated)
      decreases u.0, 1
    {
      if u in visited {
        StopsHere(Seen(), t, u, Now(), Now(), false);
        return false;
      }
      ghost var m0 := Now();
      visited := visited + {u};
      var writer := flow.GetWriter(u.0, u.1);
      WriterAnswers(u);
      if writer.None? {
        StopsHere(Seen(), t, u, m0, Now(), false);
        return false;
      }
      var found := TryUpdate(u, writer.value, t);
      StopsHere(Seen(), t, u, m0, Now(), found);
      if found { return true; }
      updated := Explore(u, writer.value, t, m0);
    }

    method Explore(u: Use, i: nat, t: string, ghost m0: Moment) returns (updated: bool)
      requires Valid() && WriterOf(prog, u) == Some(i) && !Hit(Seen(), m0.inferred, t, u)
      requires Exploring(Seen(), t, u, m0, Now(), false)
      modifies this`inferred, this`visited, args
      ensures Valid() && Seen() == old(Seen())
      ensures Explored(Seen(), t, u, m0, Now(), updated)
      decreases u.0, 0
    {
      updated := false;
      var sources := Sources(prog[i]);
      var k := 0;
      while k < |sources|
        invariant k <= |sources|
        invariant Valid() && Seen() == old(Seen())
        invariant Followed(Seen(), t, u, i, k, m0, Now(), updated)
      {
        ghost var m1 := Now();
        var below := Propagate((i, First(sources[k])), t);
        OneMoreFollowed(Seen(), t, u, i, k, m0, m1, Now(), updated, below);
        updated := below || updated;
        k := k + 1;
      }
      AllLinksTaken(Seen(), t, u, i, m0, Now(), updated);
    }

    /** The whole pass, in program order. */
    method Run()
      requires Valid()
      modifies this, args
      ensures Valid() && Seen() == old(Seen())
      ensures inferred == InferRun(Seen(), old(inferred), |prog|)
      ensures count == CountRun(Seen(), old(inferred), |prog|)
      ensures Wrote(old(args.Types()), old(inferred), inferred, args.Types())
    {
      count := 0;
      var n := 0;
      while n < |prog|
        invariant n <= |prog|
        invariant Valid() && Seen() == old(Seen())
        invariant inferred == InferRun(Seen(), old(inferred), n)
        invariant count == CountRun(Seen(), old(inferred), n)
        invariant Wrote(old(args.Types()), old(inferred), inferred, args.Types())
      {
        if prog[n].access.Some? { InferOne(n, old(inferred), old(args.Types())); }
        n := n + 1;
      }
    }

    /** One access, with nothing visited yet. */
    method InferOne(n: nat, ghost start: Types, ghost types: Types)
      requires Valid() && n < |prog| && prog[n].access.Some?
      requires inferred == InferRun(Seen(), start, n) && Wrote(types, start, inferred, args.Types())
      modifies this, args
      ensures Valid() && Seen() == old(Seen())
      ensures inferred == InferRun(Seen(), start, n + 1) && Wrote(types, start, inferred, args.Types())
      ensures count == old(count) + if FindsSome(Seen(), start, n) then 1 else 0
    {
      visited := {};
      ghost var m0 := Now();
      var access := prog[n].access.value;
      var updated := Propagate((n, Low(access.address)), access.typeName);
      AccessInferred(Seen(), start, types, n, m0, Now(), updated);
      if updated { count := count + 1; }
    }
  }
}
