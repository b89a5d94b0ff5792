/** Which instruction wrote the value of a register that another instruction reads. */
module RegisterFlow {
  import opened Options

  /** Register names may not contain `|`, so the halves of a 64-bit register never clash with others. */
  datatype RegName = Plain(text: string) | Low(text: string) | High(text: string)

  /** A 32-bit register, a 64-bit (or predicate) register, or a list of 32-bit registers. */
  datatype Reg = Single(name: RegName) | Wide(text: string) | Several(first: RegName, others: seq<RegName>)

  datatype Operand = RegOperand(reg: Reg) | ValOperand(text: string)

  /** A load of `bits` bits at `base` + `offset`; the offset is None when its text is no integer. */
  datatype LoadShape = LoadShape(base: string, bits: nat, offset: Option<int>)

  /** A typed memory access through the 64-bit register `address`. */
  datatype AccessShape = AccessShape(address: string, typeName: string)

  datatype Instr = Instr(
    operands: seq<Operand>,
    writesFirst: bool,
    load: Option<LoadShape>,
    access: Option<AccessShape>)

  datatype Edge = Edge(register: RegName, writer: nat, reader: nat)

  // ---- what an instruction reads and writes ----

  function Names(r: Reg): set<RegName> {
    match r
    case Single(n) => {n}
    case Wide(t) => {Low(t), High(t)}
    case Several(f, o) => {f} + set n | n in o
  }

  predicate WritesFirst(i: Instr) { i.writesFirst && i.operands != [] }

  function Written(i: Instr): set<RegName> {
    if WritesFirst(i) && i.operands[0].RegOperand? then Names(i.operands[0].reg) else {}
  }

  /** The register operands that are read, in order. */
  function SourcesFrom(operands: seq<Operand>, k: nat): (s: seq<Reg>)
    requires k <= |operands|
    decreases |operands| - k
  {
    if k == |operands| then []
    else if operands[k].RegOperand? then [operands[k].reg] + SourcesFrom(operands, k + 1)
    else SourcesFrom(operands, k + 1)
  }

  function Sources(i: Instr): seq<Reg> { SourcesFrom(i.operands, if WritesFirst(i) then 1 else 0) }

  function Read(i: Instr): set<RegName> { set r, n | r in Sources(i) && n in Names(r) :: n }

  // ---- the simple definition ----

  /** The last of the first `n` instructions that writes `r`. */
  function LastWriter(prog: seq<Instr>, n: nat, r: RegName): Option<nat>
    requires n <= |prog|
  {
    if n == 0 then None
    else if r in Written(prog[n - 1]) then Some(n - 1)
    else LastWriter(prog, n - 1, r)
  }

  predicate NoneWrites(prog: seq<Instr>, from: int, to: int, r: RegName)
    requires 0 <= from <= to <= |prog|
  {
    forall j | from <= j < to :: r !in Written(prog[j])
  }

  lemma {:induction false} LastWriterIsGreatest(prog: seq<Instr>, n: nat, r: RegName)
    requires n <= |prog|
    ensures match LastWriter(prog, n, r)
            case None => NoneWrites(prog, 0, n, r)
            case Some(w) => w < n && r in Written(prog[w]) && NoneWrites(prog, w + 1, n, r)
  {
    if n > 0 && r !in Written(prog[n - 1]) { LastWriterIsGreatest(prog, n - 1, r); }
  }

  // ---- the index ----

  type Use = (nat, RegName)

  predicate InScope(prog: seq<Instr>, n: nat, done: set<RegName>, u: Use)
    requires n <= |prog|
  {
    (u.0 < n && u.1 in Read(prog[u.0])) || (u.0 == n && u.1 in done)
  }

  /** The writer map answers for the uses in the first `n` instructions and for those in `done` of the next. */
  ghost predicate Answers(prog: seq<Instr>, n: nat, done: set<RegName>, writerByUse: map<Use, nat>)
    requires n <= |prog|
  {
    forall u: Use :: u.0 <= n ==>
      if u in writerByUse then InScope(prog, n, done, u) && LastWriter(prog, u.0, u.1) == Some(writerByUse[u])
      else InScope(prog, n, done, u) ==> LastWriter(prog, u.0, u.1) == None
  }

  ghost predicate NoLater(n: nat, writerByUse: map<Use, nat>) {
    forall u: Use | u in writerByUse :: u.0 <= n
  }

  predicate Listed(writerByUse: map<Use, nat>, e: Edge) {
    (e.reader, e.register) in writerByUse && writerByUse[(e.reader, e.register)] == e.writer
  }

  /** The edge list holds each entry of the writer map once, by increasing reader. */
  ghost predicate Lists(edges: seq<Edge>, writerByUse: map<Use, nat>) {
    && (forall e: Edge :: e in edges <==> Listed(writerByUse, e))
    && (forall a, b | 0 <= a < b < |edges| :: edges[a] != edges[b] && edges[a].reader <= edges[b].reader)
  }

  /** The edges that start at `w`, in list order. */
  function From(edges: seq<Edge>, w: nat): seq<Edge> {
    if edges == [] then []
    else From(edges[..|edges| - 1], w) + if edges[|edges| - 1].writer == w then [edges[|edges| - 1]] else []
  }

  ghost predicate Groups(edges: seq<Edge>, usesByWriter: map<nat, seq<Edge>>) {
    forall w: nat :: From(edges, w) == if w in usesByWriter then usesByWriter[w] else []
  }

  ghost predicate NoEmptyGroup(usesByWriter: map<nat, seq<Edge>>) {
    forall w: nat | w in usesByWriter :: usesByWriter[w] != []
  }

  /** The bookkeeping of the build loop: what wrote each register last. */
  ghost predicate Tracks(prog: seq<Instr>, n: nat, lastWriter: map<RegName, nat>)
    requires n <= |prog|
  {
    forall r :: LastWriter(prog, n, r) == if r in lastWriter then Some(lastWriter[r]) else None
  }

  lemma AppendedEdge(edges: seq<Edge>, e: Edge, w: nat)
    ensures From(edges + [e], w) == From(edges, w) + if e.writer == w then [e] else []
  {
    assert (edges + [e])[..|edges|] == edges;
  }

  lemma GroupsGrow(edges: seq<Edge>, e: Edge, uses: map<nat, seq<Edge>>, group: seq<Edge>)
    requires Groups(edges, uses) && group == (if e.writer in uses then uses[e.writer] else []) + [e]
    ensures Groups(edges + [e], uses[e.writer := group])
  {
    forall w: nat
      ensures From(edges + [e], w) == if w in uses[e.writer := group] then uses[e.writer := group][w] else []
    {
      AppendedEdge(edges, e, w);
    }
  }

  lemma ListGrows(edges: seq<Edge>, e: Edge, writers: map<Use, nat>)
    requires Lists(edges, writers) && NoLater(e.reader, writers) && (e.reader, e.register) !in writers
    ensures Lists(edges + [e], writers[(e.reader, e.register) := e.writer])
  {
    assert !Listed(writers, e);
    forall k | 0 <= k < |edges| ensures edges[k].reader <= e.reader { assert edges[k] in edges; }
    forall f: Edge
      ensures f in edges + [e] <==> Listed(writers[(e.reader, e.register) := e.writer], f)
    {
      assert f in edges + [e] <==> f in edges || f == e;
    }
  }

  lemma AnswersGrow(prog: seq<Instr>, n: nat, done: set<RegName>, writers: map<Use, nat>,
                    lastWriter: map<RegName, nat>, r: RegName)
    requires n < |prog| && Answers(prog, n, done, writers) && Tracks(prog, n, lastWriter) && r !in done
    ensures (n, r) !in writers
    ensures Answers(prog, n, done + {r}, if r in lastWriter then writers[(n, r) := lastWriter[r]] else writers)
  {
    assert !InScope(prog, n, done, (n, r));
  }

  lemma NextInstruction(prog: seq<Instr>, n: nat, writers: map<Use, nat>)
    requires n < |prog| && Answers(prog, n, Read(prog[n]), writers) && NoLater(n, writers)
    ensures Answers(prog, n + 1, {}, writers) && NoLater(n + 1, writers)
    ensures forall u: Use | u in writers :: u.0 < n + 1
  {
    forall u: Use ensures InScope(prog, n + 1, {}, u) == InScope(prog, n, Read(prog[n]), u) {}
  }

  /** Every use in the program is mapped to its last writer, if it has one, and nothing else is mapped. */
  ghost predicate Indexes(prog: seq<Instr>, writerByUse: map<Use, nat>) {
    forall u: Use ::
      if u in writerByUse
      then u.0 < |prog| && u.1 in Read(prog[u.0]) && LastWriter(prog, u.0, u.1) == Some(writerByUse[u])
      else u.0 < |prog| && u.1 in Read(prog[u.0]) ==> LastWriter(prog, u.0, u.1) == None
  }

  lemma AllAnswered(prog: seq<Instr>, writers: map<Use, nat>)
    requires Answers(prog, |prog|, {}, writers) && forall u: Use | u in writers :: u.0 < |prog|
    ensures Indexes(prog, writers)
  {}

  class FlowGraph {
    var edges: seq<Edge>
    var writerByUse: map<Use, nat>
    var usesByWriter: map<nat, seq<Edge>>

    constructor ()
      ensures edges == [] && writerByUse == map[] && usesByWriter == map[]
    {
      edges, writerByUse, usesByWriter := [], map[], map[];
    }

    /** The three views agree with each other. */
    ghost predicate Consistent()
      reads this
    {
      Lists(edges, writerByUse) && Groups(edges, usesByWriter) && NoEmptyGroup(usesByWriter)
    }

    ghost predicate Describes(prog: seq<Instr>)
      reads this
    {
      Consistent() && Indexes(prog, writerByUse)
    }

    function GetWriter(reader: nat, r: RegName): Option<nat>
      reads this
    {
      if (reader, r) in writerByUse then Some(writerByUse[(reader, r)]) else None
    }

    method AddEdge(r: RegName, w: nat, reader: nat)
      requires Consistent() && NoLater(reader, writerByUse) && (reader, r) !in writerByUse
      modifies this
      ensures Consistent() && writerByUse == old(writerByUse)[(reader, r) := w]
    {
      var edge := Edge(r, w, reader);
      ListGrows(edges, edge, writerByUse);
      var group := (if w in usesByWriter then usesByWriter[w] else []) + [edge];
      GroupsGrow(edges, edge, usesByWriter, group);
      edges := edges + [edge];
      writerByUse := writerByUse[(reader, r) := w];
      usesByWriter := usesByWriter[w := group];
    }

    /** One edge for each register read at `n` that was written before, in whatever order the set yields them. */
    method RecordReads(prog: seq<Instr>, n: nat, lastWriter: map<RegName, nat>)
      requires n < |prog| && Consistent() && Tracks(prog, n, lastWriter)
      requires Answers(prog, n, {}, writerByUse) && NoLater(n, writerByUse)
      modifies this
      ensures Consistent() && Answers(prog, n, Read(prog[n]), writerByUse) && NoLater(n, writerByUse)
    {
      var todo := Read(prog[n]);
      ghost var done: set<RegName> := {};
      while todo != {}
        invariant done + todo == Read(prog[n]) && done !! todo
        invariant Consistent() && Answers(prog, n, done, writerByUse) && NoLater(n, writerByUse)
        decreases todo
      {
        var r :| r in todo;
        AnswersGrow(prog, n, done, writerByUse, lastWriter, r);
        if r in lastWriter {
          AddEdge(r, lastWriter[r], n);
        }
        todo, done := todo - {r}, done + {r};
      }
      assert done == Read(prog[n]);
    }

    method Build(prog: seq<Instr>)
      requires edges == [] && writerByUse == map[] && usesByWriter == map[]
      modifies this
      ensures Describes(prog)
    {
      var lastWriter: map<RegName, nat> := map[];
      var n := 0;
      while n < |prog|
        invariant n <= |prog| && Tracks(prog, n, lastWriter)
        invariant Consistent() && Answers(prog, n, {}, writerByUse)
        invariant forall u: Use | u in writerByUse :: u.0 < n
      {
        RecordReads(prog, n, lastWriter);
        NextInstruction(prog, n, writerByUse);
        lastWriter := NoteWrites(prog, n, lastWriter);
        n := n + 1;
      }
      AllAnswered(prog, writerByUse);
    }
  }

  method NoteWrites(prog: seq<Instr>, n: nat, before: map<RegName, nat>) returns (after: map<RegName, nat>)
    requires n < |prog| && Tracks(prog, n, before)
    ensures Tracks(prog, n + 1, after)
  {
    after := before;
    var todo := Written(prog[n]);
    while todo != {}
      invariant todo <= Written(prog[n])
      invariant forall r :: r !in Written(prog[n]) ==>
                  (r in after <==> r in before) && (r in before ==> after[r] == before[r])
      invariant forall r | r in Written(prog[n]) - todo :: r in after && after[r] == n
      decreases todo
    {
      var r :| r in todo;
      after, todo := after[r := n], todo - {r};
    }
  }
}
