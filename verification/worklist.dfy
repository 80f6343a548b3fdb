/**
 * HirBuilder.build: seed the entry block with the entry state, then drain a
 * FIFO worklist of blocks, fulfilling each block once and merging its exit
 * state into every successor of its terminal.
 */
module Worklist {
  import opened Wrappers
  import opened VmStates
  import opened Instrs
  import opened Blocks
  import opened Builder
  import B = Bytecodes

  /** A block's bytecodes and `peekNextBci()` after the last of them (-1 at the end of the code). */
  datatype BlockCode = BlockCode(code: seq<B.Bytecode>, nextBci: int)

  /** What fulfilling one block leaves behind. */
  datatype Step = Step(graph: Graph, body: seq<Node>, next: nat, writeFinal: bool, writeVolatile: bool)

  /** The finished IR: the blocks, their instructions, the order they were fulfilled in. */
  datatype Hir = Hir(graph: Graph, bodies: map<nat, seq<Node>>, order: seq<nat>,
                     next: nat, writeFinal: bool, writeVolatile: bool)

  /** The successors of a block whose end has been set. */
  function EndSuccessors(blk: BlockStart): seq<nat> {
    if blk.end.Some? then Successors(blk.end.value.instr.op) else []
  }

  /** Each block listed once in `succs` holds, in `after`, the merge of its entry in `g` with `exit`. */
  ghost predicate MergedOnce(g: Graph, succs: seq<nat>, exit: VmState, next: nat, after: Graph) {
    forall s :: s in g && s in after && multiset(succs)[s] == 1 ==>
      exists n, n2 :: next <= n && MergeVmState(g[s], exit, n) == Ok((after[s], n2))
  }

  /** Merging into the first successor and then into the rest merges once into each block listed once. */
  lemma MergedOnceStep(g: Graph, succs: seq<nat>, exit: VmState, next: nat, blk: BlockStart, n1: nat, after: Graph)
    requires |succs| > 0 && succs[0] in g && after.Keys == g.Keys
    requires MergeVmState(g[succs[0]], exit, next) == Ok((blk, n1)) && next <= n1
    requires succs[0] !in succs[1..] ==> after[succs[0]] == blk
    requires MergedOnce(g[succs[0] := blk], succs[1..], exit, n1, after)
    ensures MergedOnce(g, succs, exit, next, after)
  {
    assert succs == [succs[0]] + succs[1..];
    forall s | s in g && s in after && multiset(succs)[s] == 1
      ensures exists n, n2 :: next <= n && MergeVmState(g[s], exit, n) == Ok((after[s], n2))
    {
      if s == succs[0] {
        assert multiset(succs[1..])[s] == 0;
        assert MergeVmState(g[s], exit, next) == Ok((after[s], n1));
      } else {
        assert multiset(succs[1..])[s] == 1;
      }
    }
  }

  /** `succ.mergeVmState(exit)` for each successor in turn, the first failure ending the build. */
  method MergeInto(g: Graph, succs: seq<nat>, exit: VmState, next: nat) returns (r: Result<(Graph, nat)>)
    requires forall i :: 0 <= i < |succs| ==> succs[i] in g
    decreases |succs|
    ensures r.Ok? ==> r.value.0.Keys == g.Keys && r.value.1 >= next
    ensures r.Ok? ==> forall i :: 0 <= i < |succs| ==> r.value.0[succs[i]].state.Some?
    ensures r.Ok? ==> forall k :: k in g && g[k].state.Some? ==> r.value.0[k].state.Some?
    ensures r.Ok? ==> forall k :: k in g ==> r.value.0[k] == g[k].(state := r.value.0[k].state)
    ensures r.Ok? ==> forall k :: k in g && k !in succs ==> r.value.0[k] == g[k]
    ensures r.Ok? ==> MergedOnce(g, succs, exit, next, r.value.0)
    ensures r.Err? ==> r.error == StateMismatch || r.error == BailOut
  {
    if |succs| == 0 {
      return Ok((g, next));
    }
    var merged := MergeVmState(g[succs[0]], exit, next);
    if merged.Err? {
      return Err(merged.error);
    }
    var (blk, n1) := merged.value;
    var g1 := g[succs[0] := blk];
    r := MergeInto(g1, succs[1..], exit, n1);
    assert forall k :: k in succs[1..] ==> k in succs;
    if r.Ok? {
      MergedOnceStep(g, succs, exit, next, blk, n1, r.value.0);
    }
  }

  /** Each block listed once in `succs` holds, in `after`, the state a merge of `exit` into its entry in `g` gives. */
  ghost predicate MergedStates(g: Graph, succs: seq<nat>, exit: VmState, next: nat, after: Graph) {
    forall s :: s in g && s in after && multiset(succs)[s] == 1 ==>
      exists n :: (next <= n && MergeVmState(g[s], exit, n).Ok?
        && after[s].state == MergeVmState(g[s], exit, n).value.0.state)
  }

  /** A merge into blocks that differ only in their links gives the same states. */
  lemma MergedOnceLinked(g0: Graph, g1: Graph, succs: seq<nat>, exit: VmState, next: nat, after: Graph)
    requires g1.Keys == g0.Keys && after.Keys == g0.Keys
    requires forall k :: k in g0 ==>
      g1[k].id == g0[k].id && g1[k].loopHeader == g0[k].loopHeader && g1[k].state == g0[k].state
    requires MergedOnce(g1, succs, exit, next, after)
    ensures MergedStates(g0, succs, exit, next, after)
  {
    forall s | s in g0 && s in after && multiset(succs)[s] == 1
      ensures exists n :: (next <= n && MergeVmState(g0[s], exit, n).Ok?
        && after[s].state == MergeVmState(g0[s], exit, n).value.0.state)
    {
      var n, n2 :| next <= n && MergeVmState(g1[s], exit, n) == Ok((after[s], n2));
      MergeReadsOnlyState(g1[s], g0[s], exit, n);
    }
  }

  /** The terminal of a non-empty block body. */
  function LastOf(body: seq<Node>): Node
    requires |body| > 0
  {
    body[|body| - 1]
  }

  /**
   * The tail of `fulfillBlock`: the exit state stays as the block's state
   * (Java mutates the block's own state object), `setBlockEnd` links the
   * terminal, then the exit state is merged into each successor.
   */
  method LinkAndMerge(g: Graph, b: nat, exit: VmState, body: seq<Node>, next: nat) returns (r: Result<(Graph, nat)>)
    requires b in g && |body| > 0
    requires forall i :: 0 <= i < |Successors(LastOf(body).op)| ==> Successors(LastOf(body).op)[i] in g
    ensures r.Ok? ==> r.value.0.Keys == g.Keys && r.value.1 >= next
    ensures r.Ok? ==> r.value.0[b].end == Some(BlockEnd(LastOf(body), b))
    ensures r.Ok? ==> forall s :: s in Successors(LastOf(body).op) ==> r.value.0[s].state.Some?
    ensures r.Ok? ==> forall k :: k in g && k != b ==> r.value.0[k].end == g[k].end
    ensures r.Ok? ==> forall k :: k in g && g[k].state.Some? ==> r.value.0[k].state.Some?
    ensures r.Ok? ==> MergedStates(g[b := g[b].(state := Some(exit))], Successors(LastOf(body).op), exit, next, r.value.0)
    ensures r.Ok? && b !in Successors(LastOf(body).op) ==> r.value.0[b].state == Some(exit)
    ensures r.Err? ==> r.error == StateMismatch || r.error == BailOut
  {
    var end := LastOf(body);
    var g0 := g[b := g[b].(state := Some(exit))];
    var g1 := SetBlockEnd(g0, b, end);
    r := MergeInto(g1, Successors(end.op), exit, next);
    if r.Ok? {
      MergedOnceLinked(g0, g1, Successors(end.op), exit, next, r.value.0);
    }
  }

  /** The interpreter's run over one block's code, ending in a block terminal. */
  method RunBlock(env: Env, c: Ctx, code: BlockCode) returns (r: Result<Ctx>)
    ensures r == FulfillBlock(env, c, code.code, code.nextBci)
    ensures r.Ok? ==> |r.value.block| > 0 && IsBlockEnd(LastOf(r.value.block).op)
  {
    r := FulfillBlock(env, c, code.code, code.nextBci);
  }

  /**
   * `fulfillBlock(b)`: run the block from its entry state (a block without
   * one fails like Java's null state), then link and merge; the body is the
   * block's instructions as the interpreter produced them. Blocks are named
   * by id here, so a terminal naming an id outside the graph is rejected.
   */
  method Fulfill(env: Env, g: Graph, code: map<nat, BlockCode>, b: nat, next: nat, writeFinal: bool, writeVolatile: bool)
    returns (r: Result<Step>)
    requires b in g && b in code
    ensures r.Ok? ==> r.value.graph.Keys == g.Keys
    ensures r.Ok? ==> |r.value.body| > 0 && IsBlockEnd(LastOf(r.value.body).op)
    ensures r.Ok? ==> r.value.graph[b].end == Some(BlockEnd(LastOf(r.value.body), b))
    ensures r.Ok? ==> forall s :: s in EndSuccessors(r.value.graph[b]) ==> s in g && r.value.graph[s].state.Some?
    ensures r.Ok? ==> forall k :: k in g && k != b ==> r.value.graph[k].end == g[k].end
    ensures r.Ok? ==> forall k :: k in g && g[k].state.Some? ==> r.value.graph[k].state.Some?
    ensures g[b].state.None? ==> r == Err(NullPointer)
    ensures r.Ok? ==> g[b].state.Some?
    ensures r.Ok? && g[b].state.Some? ==>
      var ran := FulfillBlock(env, Ctx(g[b].state.value, [], next, writeFinal, writeVolatile), code[b].code, code[b].nextBci);
      && ran.Ok? && r.value.body == ran.value.block
      && r.value.writeFinal == ran.value.writeFinal && r.value.writeVolatile == ran.value.writeVolatile
      && (b !in EndSuccessors(r.value.graph[b]) ==> r.value.graph[b].state == Some(ran.value.state))
      && MergedStates(g[b := g[b].(state := Some(ran.value.state))], EndSuccessors(r.value.graph[b]),
                      ran.value.state, ran.value.next, r.value.graph)
  {
    var blk := g[b];
    if blk.state.None? {
      return Err(NullPointer);
    }
    var ran :- RunBlock(env, Ctx(blk.state.value, [], next, writeFinal, writeVolatile), code[b]);
    var succs := Successors(LastOf(ran.block).op);
    if !(forall i :: 0 <= i < |succs| ==> succs[i] in g) {
      return Err(ShouldNotReachHere);
    }
    var linked :- LinkAndMerge(g, b, ran.state, ran.block, ran.next);
    assert EndSuccessors(linked.0[b]) == succs;
    return Ok(Step(linked.0, ran.block, linked.1, ran.writeFinal, ran.writeVolatile));
  }

  /** `body` is what the interpreter makes of `code` from some entry state, id counter and flags. */
  ghost predicate Interpreted(env: Env, code: BlockCode, body: seq<Node>) {
    exists st: VmState, n: nat, wf: bool, wv: bool ::
      && FulfillBlock(env, Ctx(st, [], n, wf, wv), code.code, code.nextBci).Ok?
      && FulfillBlock(env, Ctx(st, [], n, wf, wv), code.code, code.nextBci).value.block == body
  }

  /** Every fulfilled block's body came from interpreting that block's code. */
  ghost predicate BodiesInterpreted(env: Env, code: map<nat, BlockCode>, bodies: map<nat, seq<Node>>, blocks: set<nat>) {
    forall v :: v in blocks ==> v in code && v in bodies && Interpreted(env, code[v], bodies[v])
  }

  /** A successful run of the interpreter over a block's code gives an interpreted body. */
  lemma RunIsInterpreted(env: Env, code: BlockCode, st: VmState, n: nat, wf: bool, wv: bool, body: seq<Node>)
    requires FulfillBlock(env, Ctx(st, [], n, wf, wv), code.code, code.nextBci).Ok?
    requires FulfillBlock(env, Ctx(st, [], n, wf, wv), code.code, code.nextBci).value.block == body
    ensures Interpreted(env, code, body)
  {
  }

  /** Recording one more interpreted body keeps every recorded body interpreted. */
  lemma BodiesInterpretedStep(env: Env, code: map<nat, BlockCode>, bodies: map<nat, seq<Node>>,
                              visited: set<nat>, b: nat, body: seq<Node>)
    requires BodiesInterpreted(env, code, bodies, visited) && b in code && Interpreted(env, code[b], body)
    ensures BodiesInterpreted(env, code, bodies[b := body], visited + {b})
  {
  }

  /** Every block of the visit order has a body interpreted from its own code. */
  ghost predicate OrderInterpreted(env: Env, code: map<nat, BlockCode>, bodies: map<nat, seq<Node>>, order: seq<nat>) {
    forall i :: 0 <= i < |order| ==> order[i] in code && order[i] in bodies && Interpreted(env, code[order[i]], bodies[order[i]])
  }

  /** Once the queue is empty, every block in the visit order has an interpreted body. */
  lemma BodiesInterpretedDone(env: Env, code: map<nat, BlockCode>, bodies: map<nat, seq<Node>>,
                              visited: set<nat>, order: seq<nat>)
    requires BodiesInterpreted(env, code, bodies, visited)
    requires forall i :: 0 <= i < |order| ==> order[i] in visited
    ensures OrderInterpreted(env, code, bodies, order)
  {
  }

  /** Every successor of a fulfilled block is fulfilled or still waiting in the queue. */
  ghost predicate Closed(graph: Graph, visited: set<nat>, queue: seq<nat>)
    requires visited <= graph.Keys
  {
    forall v, s :: v in visited && s in EndSuccessors(graph[v]) ==> s in visited || s in queue
  }

  /** Taking an already visited block off the queue keeps the queue closed. */
  lemma ClosedSkip(graph: Graph, visited: set<nat>, queue: seq<nat>)
    requires visited <= graph.Keys && |queue| > 0 && queue[0] in visited
    requires Closed(graph, visited, queue)
    ensures Closed(graph, visited, queue[1..])
  {
    forall v, s | v in visited && s in EndSuccessors(graph[v])
      ensures s in visited || s in queue[1..]
    {
      if s !in visited {
        var k :| 0 <= k < |queue| && queue[k] == s;
        assert k > 0 && queue[1..][k - 1] == s;
      }
    }
  }

  /** Fulfilling the front block and queueing its successors keeps the queue closed. */
  lemma ClosedStep(before: Graph, after: Graph, visited: set<nat>, queue: seq<nat>)
    requires visited <= before.Keys && before.Keys == after.Keys && |queue| > 0
    requires queue[0] in before && queue[0] !in visited
    requires Closed(before, visited, queue)
    requires forall v :: v in visited ==> after[v].end == before[v].end
    ensures Closed(after, visited + {queue[0]}, queue[1..] + EndSuccessors(after[queue[0]]))
  {
    var b := queue[0];
    var q := queue[1..] + EndSuccessors(after[b]);
    forall v, s | v in visited + {b} && s in EndSuccessors(after[v])
      ensures s in visited + {b} || s in q
    {
      if v == b {
        var k :| 0 <= k < |EndSuccessors(after[b])| && EndSuccessors(after[b])[k] == s;
        assert q[|queue[1..]| + k] == s;
      } else {
        assert EndSuccessors(after[v]) == EndSuccessors(before[v]);
        if s !in visited && s != b {
          var k :| 0 <= k < |queue| && queue[k] == s;
          assert k > 0 && q[k - 1] == s;
        }
      }
    }
  }

  /** Once the queue is empty, every successor of a fulfilled block has been fulfilled. */
  lemma ClosedDone(graph: Graph, visited: set<nat>, order: seq<nat>)
    requires visited <= graph.Keys && Closed(graph, visited, [])
    requires forall v :: v in visited ==> v in order
    requires forall i :: 0 <= i < |order| ==> order[i] in visited
    ensures forall i, s :: 0 <= i < |order| && s in EndSuccessors(graph[order[i]]) ==> s in order
  {
  }

  /** The bookkeeping the worklist loop keeps. */
  ghost predicate Bookkeeping(g: Graph, entry: nat, graph: Graph, bodies: map<nat, seq<Node>>,
                              queue: seq<nat>, visited: set<nat>, order: seq<nat>)
  {
    && graph.Keys == g.Keys
    && (forall i :: 0 <= i < |queue| ==> queue[i] in g)
    && visited <= g.Keys
    && (forall i :: 0 <= i < |order| ==> order[i] in visited)
    && (forall v :: v in visited ==> v in order)
    && (forall i, j :: 0 <= i < j < |order| ==> order[i] != order[j])
    && (|order| > 0 ==> order[0] == entry)
    && (|order| == 0 ==> |queue| > 0 && queue[0] == entry)
    && (forall v :: v in visited ==> v in bodies && graph[v].end.Some?)
    && Closed(graph, visited, queue)
  }

  lemma BookkeepingSkip(g: Graph, entry: nat, graph: Graph, bodies: map<nat, seq<Node>>,
                        queue: seq<nat>, visited: set<nat>, order: seq<nat>)
    requires Bookkeeping(g, entry, graph, bodies, queue, visited, order)
    requires |queue| > 0 && queue[0] in visited
    ensures Bookkeeping(g, entry, graph, bodies, queue[1..], visited, order)
  {
    ClosedSkip(graph, visited, queue);
  }

  lemma BookkeepingStep(g: Graph, entry: nat, before: Graph, after: Graph, bodies: map<nat, seq<Node>>,
                        body: seq<Node>, queue: seq<nat>, visited: set<nat>, order: seq<nat>)
    requires Bookkeeping(g, entry, before, bodies, queue, visited, order)
    requires |queue| > 0 && queue[0] !in visited
    requires after.Keys == g.Keys && after[queue[0]].end.Some?
    requires forall k :: k in g && k != queue[0] ==> after[k].end == before[k].end
    requires forall s :: s in EndSuccessors(after[queue[0]]) ==> s in g
    ensures Bookkeeping(g, entry, after, bodies[queue[0] := body],
                        queue[1..] + EndSuccessors(after[queue[0]]), visited + {queue[0]}, order + [queue[0]])
  {
    var b := queue[0];
    ClosedStep(before, after, visited, queue);
    var q := queue[1..] + EndSuccessors(after[b]);
    forall i | 0 <= i < |q| ensures q[i] in g {
      if i >= |queue[1..]| {
        assert q[i] in EndSuccessors(after[b]);
      } else {
        assert q[i] == queue[i + 1];
      }
    }
    var o := order + [b];
    forall i, j | 0 <= i < j < |o| ensures o[i] != o[j] {
      if j == |order| {
        assert o[i] in visited;
      }
    }
  }

  /**
   * What `build` promises: the graph keeps its blocks; the entry block is
   * fulfilled first; no block is fulfilled twice; every fulfilled block has
   * a body and an end; and every successor of a fulfilled block is itself
   * fulfilled.
   */
  ghost predicate Built(g: Graph, entry: nat, h: Hir) {
    && h.graph.Keys == g.Keys
    && |h.order| > 0 && h.order[0] == entry
    && (forall i, j :: 0 <= i < j < |h.order| ==> h.order[i] != h.order[j])
    && (forall i :: 0 <= i < |h.order| ==> (h.order[i] in g && h.order[i] in h.bodies && h.graph[h.order[i]].end.Some?))
    && (forall i, s :: 0 <= i < |h.order| && s in EndSuccessors(h.graph[h.order[i]]) ==> s in h.order)
  }

  /** With the queue empty, the visit order is what `build` promises. */
  lemma BookkeepingDone(g: Graph, entry: nat, graph: Graph, bodies: map<nat, seq<Node>>,
                        visited: set<nat>, order: seq<nat>, next: nat, writeFinal: bool, writeVolatile: bool)
    requires Bookkeeping(g, entry, graph, bodies, [], visited, order)
    ensures Built(g, entry, Hir(graph, bodies, order, next, writeFinal, writeVolatile))
  {
    ClosedDone(graph, visited, order);
  }

  /** One visit of the worklist loop: fulfil the unvisited block at the front of the queue. */
  method Visit(env: Env, g: Graph, code: map<nat, BlockCode>, entry: nat, graph: Graph, bodies: map<nat, seq<Node>>,
               queue: seq<nat>, visited: set<nat>, order: seq<nat>, next: nat, writeFinal: bool, writeVolatile: bool)
    returns (r: Result<Step>)
    requires g.Keys <= code.Keys
    requires Bookkeeping(g, entry, graph, bodies, queue, visited, order)
    requires |queue| > 0 && queue[0] !in visited
    requires BodiesInterpreted(env, code, bodies, visited)
    ensures r.Ok? ==> r.value.graph.Keys == g.Keys
    ensures r.Ok? ==> Bookkeeping(g, entry, r.value.graph, bodies[queue[0] := r.value.body],
                                  queue[1..] + EndSuccessors(r.value.graph[queue[0]]), visited + {queue[0]}, order + [queue[0]])
    ensures r.Ok? ==> BodiesInterpreted(env, code, bodies[queue[0] := r.value.body], visited + {queue[0]})
  {
    r := Fulfill(env, graph, code, queue[0], next, writeFinal, writeVolatile);
    if r.Ok? {
      BookkeepingStep(g, entry, graph, r.value.graph, bodies, r.value.body, queue, visited, order);
      RunIsInterpreted(env, code[queue[0]], graph[queue[0]].state.value, next, writeFinal, writeVolatile, r.value.body);
      BodiesInterpretedStep(env, code, bodies, visited, queue[0], r.value.body);
    }
  }

  /**
   * The worklist loop of `build`: take blocks from the front of the queue;
   * a block not yet visited is marked, fulfilled, and the successors of its
   * terminal are appended to the back. On success every block is fulfilled
   * at most once, the entry block first, and every successor of a
   * fulfilled block is itself fulfilled.
   */
  method Drain(env: Env, g: Graph, code: map<nat, BlockCode>, entry: nat, next: nat) returns (r: Result<Hir>)
    requires entry in g && g.Keys <= code.Keys
    ensures r.Ok? ==> Built(g, entry, r.value)
    ensures r.Ok? ==> OrderInterpreted(env, code, r.value.bodies, r.value.order)
  {
    r := DrainFrom(env, g, code, entry, g, map[], [entry], {}, [], next, false, false);
  }

  /** The loop of `build` from a given point: the queue, the visited set and the visit order so far. */
  method DrainFrom(env: Env, g: Graph, code: map<nat, BlockCode>, entry: nat, graph: Graph, bodies: map<nat, seq<Node>>,
                   queue: seq<nat>, visited: set<nat>, order: seq<nat>, next: nat, writeFinal: bool, writeVolatile: bool)
    returns (r: Result<Hir>)
    requires g.Keys <= code.Keys
    requires Bookkeeping(g, entry, graph, bodies, queue, visited, order)
    requires BodiesInterpreted(env, code, bodies, visited)
    ensures r.Ok? ==> Built(g, entry, r.value)
    ensures r.Ok? ==> OrderInterpreted(env, code, r.value.bodies, r.value.order)
    decreases |g.Keys - visited|, |queue|
  {
    if |queue| == 0 {
      BookkeepingDone(g, entry, graph, bodies, visited, order, next, writeFinal, writeVolatile);
      BodiesInterpretedDone(env, code, bodies, visited, order);
      return Ok(Hir(graph, bodies, order, next, writeFinal, writeVolatile));
    }
    var b := queue[0];
    if b in visited {
      BookkeepingSkip(g, entry, graph, bodies, queue, visited, order);
      r := DrainFrom(env, g, code, entry, graph, bodies, queue[1..], visited, order, next, writeFinal, writeVolatile);
    } else {
      var step :- Visit(env, g, code, entry, graph, bodies, queue, visited, order, next, writeFinal, writeVolatile);
      assert g.Keys - (visited + {b}) < g.Keys - visited by {
        assert b in g.Keys - visited;
      }
      r := DrainFrom(env, g, code, entry, step.graph, bodies[b := step.body], queue[1..] + EndSuccessors(step.graph[b]),
                     visited + {b}, order + [b], step.next, step.writeFinal, step.writeVolatile);
    }
  }

  /** `build`: merge the entry state into the entry block, then drain the worklist from it. */
  method Build(env: Env, g: Graph, code: map<nat, BlockCode>, entry: nat, next: nat) returns (r: Result<Hir>)
    requires entry in g && g.Keys <= code.Keys
    ensures r.Ok? ==> Built(g, entry, r.value)
    ensures r.Ok? ==> OrderInterpreted(env, code, r.value.bodies, r.value.order)
    ensures EntryState(env.meth, next).Err? ==> r.Err?
  {
    var entryState :- EntryState(env.meth, next);
    var merged :- MergeVmState(g[entry], entryState, next + |EntryKinds(env.meth)|);
    r := Drain(env, g[entry := merged.0], code, entry, merged.1);
  }
}
