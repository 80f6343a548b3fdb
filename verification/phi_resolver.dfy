/**
 * PhiResolver: at the end of a block whose single successor joins several
 * predecessors, build a graph of the copies the successor's phis need
 * (keyed by virtual register), then walk it depth-first and emit the
 * copies. The emitted copies are kept as a log of `emitMov(dst, src)`
 * calls.
 */
module PhiResolution {
  import opened Wrappers
  import opened Values
  import opened VmStates
  import opened Blocks

  /** A LIR operand: a virtual register (identified by its id) or any other operand. */
  datatype Operand = VReg(id: nat, kind: Kind) | Other(tag: nat, kind: Kind)

  /** `ResolveNode`: an operand and the nodes its value is copied to. */
  datatype ResolveNode = ResolveNode(operand: Operand, dests: seq<nat>)

  /** One `emitMov(dst, src)` call. */
  datatype Move = Move(dst: Operand, src: Operand)

  /**
   * The resolver's state. Nodes live in `nodes` and are named by index
   * (Java object identity); the visited / assigned / start-node flags are
   * the sets of nodes whose flag is set. `operandOf` is the operand stored
   * on each HIR value (by value id; a missing entry is a null operand) and
   * `nextVreg` is the id the next new VirtualRegister receives.
   */
  datatype Resolver = Resolver(
    nodes: seq<ResolveNode>,
    vregList: map<nat, nat>,
    virtualOperand: seq<nat>,
    otherOperand: seq<nat>,
    visitedNodes: set<nat>,
    assignedNodes: set<nat>,
    startNodes: set<nat>,
    loop: Option<nat>,
    temp: Option<Operand>,
    operandOf: map<nat, Operand>,
    nextVreg: nat,
    moves: seq<Move>)

  /** A resolver as constructed: no nodes, no moves. */
  function NewResolver(operandOf: map<nat, Operand>, nextVreg: nat): (r: Resolver)
    requires FreshAbove(operandOf, nextVreg)
    ensures |r.nodes| == 0 && |r.moves| == 0 && r.loop.None?
    ensures Valid(r)
  {
    Resolver([], map[], [], [], {}, {}, {}, None, None, operandOf, nextVreg, [])
  }

  /**
   * The shape the resolver keeps: every node reference is in range, each
   * register id maps to the one node holding that register, a node is
   * listed as a register source at most once, and the start nodes and
   * assigned nodes have been visited.
   */
  ghost predicate Valid(r: Resolver) {
    && Shape(r.nodes, r.vregList, r.virtualOperand, r.otherOperand)
    && (forall n :: n in r.visitedNodes ==> n < |r.nodes|)
    && r.startNodes <= r.visitedNodes && r.assignedNodes <= r.visitedNodes
    && (r.loop.Some? ==> r.loop.value < |r.nodes|)
    && FreshAbove(r.operandOf, r.nextVreg)
    && (forall i :: 0 <= i < |r.nodes| && r.nodes[i].operand.VReg? ==> r.nodes[i].operand.id < r.nextVreg)
  }

  /** The copy graph's own shape: references in range, one node per register id, register sources listed once. */
  ghost predicate Shape(nodes: seq<ResolveNode>, vregList: map<nat, nat>, virtualOperand: seq<nat>, otherOperand: seq<nat>) {
    && (forall i, j :: 0 <= i < |nodes| && 0 <= j < |nodes[i].dests| ==> nodes[i].dests[j] < |nodes|)
    && (forall id :: id in vregList ==> (
          && vregList[id] < |nodes|
          && nodes[vregList[id]].operand.VReg? && nodes[vregList[id]].operand.id == id))
    && (forall i :: 0 <= i < |virtualOperand| ==> virtualOperand[i] < |nodes|)
    && (forall i, j :: 0 <= i < j < |virtualOperand| ==> virtualOperand[i] != virtualOperand[j])
    && (forall i :: 0 <= i < |otherOperand| ==> otherOperand[i] < |nodes|)
  }

  /** Every register already handed out has an id below `nextVreg`, as VirtualRegister's counter guarantees. */
  ghost predicate FreshAbove(operandOf: map<nat, Operand>, nextVreg: nat) {
    forall id :: id in operandOf && operandOf[id].VReg? ==> operandOf[id].id < nextVreg
  }

  /** The copy graph of `r2` contains that of `r`: nodes are only appended and destinations only extended. */
  ghost predicate Grows(r: Resolver, r2: Resolver) {
    && |r.nodes| <= |r2.nodes|
    && (forall i :: 0 <= i < |r.nodes| ==> (
          && r2.nodes[i].operand == r.nodes[i].operand
          && |r.nodes[i].dests| <= |r2.nodes[i].dests|
          && r2.nodes[i].dests[..|r.nodes[i].dests|] == r.nodes[i].dests))
  }

  /** Operands already stored on values are never replaced. */
  ghost predicate KeepsOperands(r: Resolver, r2: Resolver) {
    forall id :: id in r.operandOf ==> id in r2.operandOf && r2.operandOf[id] == r.operandOf[id]
  }

  /** The graph holds a copy edge from a node for `src` to a node for `dst`. */
  ghost predicate HasEdge(r: Resolver, src: Operand, dst: Operand) {
    exists s, k :: 0 <= s < |r.nodes| && 0 <= k < |r.nodes[s].dests| && r.nodes[s].dests[k] < |r.nodes|
      && SameOperand(r.nodes[s].operand, src) && SameOperand(r.nodes[r.nodes[s].dests[k]].operand, dst)
  }

  /** Operands denote the same location: registers are identified by id, as `vregList` keys them. */
  predicate SameOperand(a: Operand, b: Operand) {
    if a.VReg? && b.VReg? then a.id == b.id else a == b
  }

  lemma GrowsTrans(a: Resolver, b: Resolver, c: Resolver)
    requires Grows(a, b) && Grows(b, c)
    ensures Grows(a, c)
  {
    forall i | 0 <= i < |a.nodes|
      ensures c.nodes[i].dests[..|a.nodes[i].dests|] == a.nodes[i].dests
    {
      assert c.nodes[i].dests[..|a.nodes[i].dests|] == c.nodes[i].dests[..|b.nodes[i].dests|][..|a.nodes[i].dests|];
    }
  }

  lemma GrowsKeepsEdges(r: Resolver, r2: Resolver, src: Operand, dst: Operand)
    requires Valid(r) && Grows(r, r2) && HasEdge(r, src, dst)
    ensures HasEdge(r2, src, dst)
  {
    var s, k :| 0 <= s < |r.nodes| && 0 <= k < |r.nodes[s].dests| && r.nodes[s].dests[k] < |r.nodes|
      && SameOperand(r.nodes[s].operand, src) && SameOperand(r.nodes[r.nodes[s].dests[k]].operand, dst);
    assert r2.nodes[s].dests[k] == r2.nodes[s].dests[..|r.nodes[s].dests|][k];
  }

  // ----- building the move graph -----

  /**
   * `createResolveNode`: a virtual register gets the one node registered
   * for its id (created on first use) and, as a source, is listed in
   * `virtualOperand` once; any other operand gets a fresh node listed in
   * `otherOperand`.
   */
  function CreateResolveNode(r: Resolver, operand: Operand, isSource: bool): (res: (Resolver, nat))
    requires Valid(r) && (operand.VReg? ==> operand.id < r.nextVreg)
    ensures var (r2, n) := res;
      && Valid(r2) && n < |r2.nodes| && |r.nodes| <= |r2.nodes|
      && r2 == r.(nodes := r2.nodes, vregList := r2.vregList,
                  virtualOperand := r2.virtualOperand, otherOperand := r2.otherOperand)
      && r2.nodes[..|r.nodes|] == r.nodes
      && Grows(r, r2) && SameOperand(r2.nodes[n].operand, operand)
      && (|r2.nodes| == |r.nodes| || (|r2.nodes| == |r.nodes| + 1 && n == |r.nodes| && r2.nodes[n] == ResolveNode(operand, [])))
    ensures operand.VReg? ==> var (r2, n) := res;
      && (operand.id in r.vregList ==> n == r.vregList[operand.id] && r2.nodes == r.nodes)
      && r2.vregList == r.vregList[operand.id := n]
      && r2.otherOperand == r.otherOperand
      && r2.virtualOperand == (if isSource && n !in r.virtualOperand then r.virtualOperand + [n] else r.virtualOperand)
    ensures operand.Other? ==> var (r2, n) := res;
      && n == |r.nodes| && r2.nodes == r.nodes + [ResolveNode(operand, [])]
      && r2.vregList == r.vregList && r2.virtualOperand == r.virtualOperand
      && r2.otherOperand == r.otherOperand + [n]
  {
    if operand.VReg? then
      var (r1, n) := RegisterNode(r, operand);
      if isSource && n !in r1.virtualOperand then
        ShapeAddSource(r1.nodes, r1.vregList, r1.virtualOperand, r1.otherOperand, n);
        (r1.(virtualOperand := r1.virtualOperand + [n]), n)
      else (r1, n)
    else
      var n := |r.nodes|;
      ShapeAddOther(r.nodes, r.vregList, r.virtualOperand, r.otherOperand, operand);
      assert (r.nodes + [ResolveNode(operand, [])])[..n] == r.nodes;
      (r.(nodes := r.nodes + [ResolveNode(operand, [])], otherOperand := r.otherOperand + [n]), n)
  }

  /** The node registered for a register's id, created on first use. */
  function RegisterNode(r: Resolver, operand: Operand): (res: (Resolver, nat))
    requires Valid(r) && operand.VReg? && operand.id < r.nextVreg
    ensures var (r1, n) := res;
      && Valid(r1) && n < |r1.nodes| && r1 == r.(nodes := r1.nodes, vregList := r1.vregList)
      && |r.nodes| <= |r1.nodes| && r1.nodes[..|r.nodes|] == r.nodes && r1.vregList == r.vregList[operand.id := n]
      && r1.nodes[n].operand.VReg? && r1.nodes[n].operand.id == operand.id
      && (operand.id in r.vregList ==> n == r.vregList[operand.id] && r1.nodes == r.nodes)
      && (operand.id !in r.vregList ==> n == |r.nodes| && r1.nodes == r.nodes + [ResolveNode(operand, [])])
  {
    if operand.id in r.vregList then
      assert r.nodes[..|r.nodes|] == r.nodes;
      (r, r.vregList[operand.id])
    else
      ShapeAddRegister(r.nodes, r.vregList, r.virtualOperand, r.otherOperand, operand);
      assert (r.nodes + [ResolveNode(operand, [])])[..|r.nodes|] == r.nodes;
      (r.(nodes := r.nodes + [ResolveNode(operand, [])], vregList := r.vregList[operand.id := |r.nodes|]), |r.nodes|)
  }

  lemma ShapeAddRegister(nodes: seq<ResolveNode>, vregList: map<nat, nat>, virtualOperand: seq<nat>, otherOperand: seq<nat>,
                         operand: Operand)
    requires Shape(nodes, vregList, virtualOperand, otherOperand) && operand.VReg? && operand.id !in vregList
    ensures Shape(nodes + [ResolveNode(operand, [])], vregList[operand.id := |nodes|], virtualOperand, otherOperand)
  {
    var nodes2 := nodes + [ResolveNode(operand, [])];
    assert forall i :: 0 <= i < |nodes| ==> nodes2[i] == nodes[i];
  }

  lemma ShapeAddSource(nodes: seq<ResolveNode>, vregList: map<nat, nat>, virtualOperand: seq<nat>, otherOperand: seq<nat>,
                       n: nat)
    requires Shape(nodes, vregList, virtualOperand, otherOperand) && n < |nodes| && n !in virtualOperand
    ensures Shape(nodes, vregList, virtualOperand + [n], otherOperand)
  {
  }

  lemma ShapeAddOther(nodes: seq<ResolveNode>, vregList: map<nat, nat>, virtualOperand: seq<nat>, otherOperand: seq<nat>,
                      operand: Operand)
    requires Shape(nodes, vregList, virtualOperand, otherOperand)
    ensures Shape(nodes + [ResolveNode(operand, [])], vregList, virtualOperand, otherOperand + [|nodes|])
  {
    var nodes2 := nodes + [ResolveNode(operand, [])];
    assert forall i :: 0 <= i < |nodes| ==> nodes2[i] == nodes[i];
  }

  /** `s.append(d)` */
  function AddEdge(r: Resolver, s: nat, d: nat, src: Operand, dst: Operand): (r2: Resolver)
    requires Valid(r) && s < |r.nodes| && d < |r.nodes|
    requires SameOperand(r.nodes[s].operand, src) && SameOperand(r.nodes[d].operand, dst)
    ensures Valid(r2) && |r2.nodes| == |r.nodes|
    ensures r2.nodes[s] == r.nodes[s].(dests := r.nodes[s].dests + [d])
    ensures forall i :: 0 <= i < |r.nodes| && i != s ==> r2.nodes[i] == r.nodes[i]
    ensures r2 == r.(nodes := r2.nodes)
    ensures Grows(r, r2) && HasEdge(r2, src, dst)
  {
    var r2 := r.(nodes := r.nodes[s := r.nodes[s].(dests := r.nodes[s].dests + [d])]);
    assert r2.nodes[s].dests[|r.nodes[s].dests|] == d;
    assert forall i :: 0 <= i < |r.nodes| && i != s ==> r2.nodes[i] == r.nodes[i];
    assert r2.nodes[s].dests[..|r.nodes[s].dests|] == r.nodes[s].dests;
    r2
  }

  /** The phi's operand, a new virtual register of the phi's kind when it has none yet. */
  function PhiOperand(r: Resolver, phi: Value): (res: (Resolver, Operand))
    requires Valid(r)
    ensures Valid(res.0) && KeepsOperands(r, res.0) && phi.id in res.0.operandOf && res.0.operandOf[phi.id] == res.1
    ensures res.0.nodes == r.nodes && res.0.moves == r.moves && r.nextVreg <= res.0.nextVreg
    ensures res.1.VReg? ==> res.1.id < res.0.nextVreg
    ensures phi.id in r.operandOf ==> res == (r, r.operandOf[phi.id])
    ensures phi.id !in r.operandOf ==>
      && res.1 == VReg(r.nextVreg, phi.kind)
      && res.0 == r.(operandOf := r.operandOf[phi.id := res.1], nextVreg := r.nextVreg + 1)
  {
    if phi.id in r.operandOf then (r, r.operandOf[phi.id])
    else
      var v := VReg(r.nextVreg, phi.kind);
      (r.(operandOf := r.operandOf[phi.id := v], nextVreg := r.nextVreg + 1), v)
  }

  /** The slot pairs `moveToPhi` acts on: a phi in the successor, fed by a different, non-null value. */
  predicate NeedsMove(cur: Option<Value>, sux: Option<Value>) {
    sux.Some? && IsPhi(sux.value) && cur.Some? && cur.value != sux.value
  }

  /**
   * `moveToPhi(cur, sux)`: when `sux` is a phi fed by a different non-null
   * value, register the edge from the value's operand to the phi's operand
   * (giving the phi a new register first if it has none). A value without
   * an operand fails like the null operand does in `createResolveNode`.
   */
  function MoveToPhi(r: Resolver, cur: Option<Value>, sux: Option<Value>): (res: Result<Resolver>)
    requires Valid(r)
    ensures !NeedsMove(cur, sux) ==> res == Ok(r)
    ensures NeedsMove(cur, sux) ==> (res.Err? <==> cur.value.id !in r.operandOf)
    ensures res.Err? ==> res.error == NullPointer
    ensures res.Ok? ==> Valid(res.value) && res.value.moves == r.moves && r.nextVreg <= res.value.nextVreg
    ensures res.Ok? ==> Grows(r, res.value) && KeepsOperands(r, res.value)
    ensures res.Ok? && NeedsMove(cur, sux) ==> (
      && cur.value.id in res.value.operandOf && sux.value.id in res.value.operandOf
      && HasEdge(res.value, res.value.operandOf[cur.value.id], res.value.operandOf[sux.value.id]))
  {
    if !NeedsMove(cur, sux) then Ok(r)
    else if cur.value.id !in r.operandOf then Err(NullPointer)
    else
      var src := r.operandOf[cur.value.id];
      var (r1, dst) := PhiOperand(r, sux.value);
      var r2 := Connect(r1, src, dst);
      GrowsTrans(r, r1, r2);
      Ok(r2)
  }

  /** `createResolveNode(source, true).append(createResolveNode(dest, false))` */
  function Connect(r: Resolver, src: Operand, dst: Operand): (r2: Resolver)
    requires Valid(r) && (src.VReg? ==> src.id < r.nextVreg) && (dst.VReg? ==> dst.id < r.nextVreg)
    ensures Valid(r2) && Grows(r, r2) && HasEdge(r2, src, dst)
    ensures r2.operandOf == r.operandOf && r2.nextVreg == r.nextVreg && r2.moves == r.moves
  {
    var (r1, s) := CreateResolveNode(r, src, true);
    var (r2, d) := CreateResolveNode(r1, dst, false);
    var r3 := AddEdge(r2, s, d, src, dst);
    GrowsTrans(r, r1, r2);
    GrowsTrans(r, r2, r3);
    r3
  }

  // ----- walking the move graph -----

  /** The nodes the walk has not reached yet. */
  function Unvisited(r: Resolver): set<nat> {
    set i: nat | i < |r.nodes| && i !in r.visitedNodes
  }

  /** `op` is the operand of one of the graph's nodes. */
  ghost predicate IsNodeOperand(r: Resolver, op: Operand) {
    exists i :: 0 <= i < |r.nodes| && r.nodes[i].operand == op
  }

  /** `op` is a temporary created between `r` and `r2`, or the operand of a node assigned in between. */
  ghost predicate IsNewTarget(r: Resolver, r2: Resolver, op: Operand) {
    || (op.VReg? && r.nextVreg <= op.id < r2.nextVreg)
    || (exists i :: i in r2.assignedNodes - r.assignedNodes && i < |r.nodes| && r.nodes[i].operand == op)
  }

  /**
   * What one part of the walk may do: the graph, the start flags and the
   * phi operands stay as they are; the visited and assigned flags are only
   * ever raised; moves are only appended; every appended move reads some
   * node's operand and writes either a new temporary or a node it marks
   * assigned.
   */
  ghost predicate WalkStep(r: Resolver, r2: Resolver) {
    && r2 == r.(visitedNodes := r2.visitedNodes, assignedNodes := r2.assignedNodes, loop := r2.loop,
                temp := r2.temp, nextVreg := r2.nextVreg, moves := r2.moves)
    && r.visitedNodes <= r2.visitedNodes && r.assignedNodes <= r2.assignedNodes
    && r.nextVreg <= r2.nextVreg
    && |r.moves| <= |r2.moves| && r2.moves[..|r.moves|] == r.moves
    && (forall k :: |r.moves| <= k < |r2.moves| ==> IsNodeOperand(r, r2.moves[k].src))
    && (forall k :: |r.moves| <= k < |r2.moves| ==> IsNewTarget(r, r2, r2.moves[k].dst))
  }

  lemma WalkStepTrans(a: Resolver, b: Resolver, c: Resolver)
    requires WalkStep(a, b) && WalkStep(b, c)
    ensures WalkStep(a, c)
  {
    forall k | |b.moves| <= k < |c.moves|
      ensures IsNewTarget(a, c, c.moves[k].dst)
    {
      var op := c.moves[k].dst;
      if !(op.VReg? && b.nextVreg <= op.id < c.nextVreg) {
        var i :| i in c.assignedNodes - b.assignedNodes && i < |b.nodes| && b.nodes[i].operand == op;
        assert i in c.assignedNodes - a.assignedNodes;
      }
    }
    forall k | |a.moves| <= k < |b.moves|
      ensures IsNewTarget(a, c, c.moves[k].dst)
    {
      assert c.moves[k] == b.moves[k] by {
        assert c.moves[..|b.moves|][k] == b.moves[k];
      }
      var op := c.moves[k].dst;
      if !(op.VReg? && a.nextVreg <= op.id < b.nextVreg) {
        var i :| i in b.assignedNodes - a.assignedNodes && i < |a.nodes| && a.nodes[i].operand == op;
        assert i in c.assignedNodes - a.assignedNodes;
      }
    }
    forall k | |a.moves| <= k < |c.moves|
      ensures IsNodeOperand(a, c.moves[k].src)
    {
      if k < |b.moves| {
        assert c.moves[k] == b.moves[k] by {
          assert c.moves[..|b.moves|][k] == b.moves[k];
        }
      }
    }
    assert c.moves[..|a.moves|] == c.moves[..|b.moves|][..|a.moves|];
  }

  lemma WalkStepRestart(a: Resolver, b: Resolver, st: set<nat>)
    requires WalkStep(a, b)
    ensures WalkStep(a.(startNodes := st), b.(startNodes := st))
  {
    var a', b' := a.(startNodes := st), b.(startNodes := st);
    forall k | |a'.moves| <= k < |b'.moves|
      ensures IsNodeOperand(a', b'.moves[k].src) && IsNewTarget(a', b', b'.moves[k].dst)
    {
      assert IsNodeOperand(a, b.moves[k].src) && IsNewTarget(a, b, b.moves[k].dst);
      var op := b.moves[k].dst;
      if !(op.VReg? && a.nextVreg <= op.id < b.nextVreg) {
        var i :| i in b.assignedNodes - a.assignedNodes && i < |a.nodes| && a.nodes[i].operand == op;
        assert i in b'.assignedNodes - a'.assignedNodes;
      }
    }
  }

  /** `temp = new VirtualRegister(kind); emitMov(temp, from)` */
  function NewTemp(r: Resolver, from: Operand): (r2: Resolver)
    ensures r2.temp == Some(VReg(r.nextVreg, from.kind)) && r2.nextVreg == r.nextVreg + 1
    ensures r2.moves == r.moves + [Move(r2.temp.value, from)]
    ensures r2 == r.(temp := r2.temp, nextVreg := r2.nextVreg, moves := r2.moves)
  {
    var t := VReg(r.nextVreg, from.kind);
    r.(temp := Some(t), nextVreg := r.nextVreg + 1, moves := r.moves + [Move(t, from)])
  }

  /**
   * The tail of `move(src, dest)`: an unassigned destination that closes
   * the recorded loop is copied into a new temporary (which needs a
   * source); otherwise it is written from its source, if it has one.
   */
  function Assign(r: Resolver, src: Option<nat>, dest: nat): (res: Result<Resolver>)
    requires Valid(r) && dest in r.visitedNodes && (src.Some? ==> src.value < |r.nodes|)
    ensures res.Err? <==> (dest !in r.assignedNodes && r.loop == Some(dest) && src.None?)
    ensures res.Err? ==> res.error == NullPointer
    ensures res.Ok? ==> Valid(res.value) && WalkStep(r, res.value) && res.value.visitedNodes == r.visitedNodes
    ensures res.Ok? ==> (dest in res.value.assignedNodes <==> (dest in r.assignedNodes || src.Some?))
    ensures res.Ok? && dest !in r.assignedNodes && src.Some? && r.loop != Some(dest) ==>
      res.value.moves == r.moves + [Move(r.nodes[dest].operand, r.nodes[src.value].operand)]
  {
    if dest in r.assignedNodes then Ok(r)
    else if r.loop == Some(dest) then
      if src.None? then Err(NullPointer)
      else Ok(SaveLoop(r, src.value, dest))
    else if src.Some? then Ok(WriteDest(r, src.value, dest))
    else Ok(r)
  }

  /** The loop closer is saved into a new temporary and marked assigned. */
  function SaveLoop(r: Resolver, src: nat, dest: nat): (r2: Resolver)
    requires Valid(r) && dest in r.visitedNodes && src < |r.nodes|
    ensures Valid(r2) && WalkStep(r, r2) && r2.visitedNodes == r.visitedNodes
    ensures r2.assignedNodes == r.assignedNodes + {dest}
    ensures r2.moves == r.moves + [Move(VReg(r.nextVreg, r.nodes[src].operand.kind), r.nodes[src].operand)]
  {
    var r2 := NewTemp(r, r.nodes[src].operand).(assignedNodes := r.assignedNodes + {dest});
    assert IsNodeOperand(r, r2.moves[|r.moves|].src);
    r2
  }

  /** `emitMov(dest.operand, src.operand)`, and the destination is marked assigned. */
  function WriteDest(r: Resolver, src: nat, dest: nat): (r2: Resolver)
    requires Valid(r) && dest in r.visitedNodes && src < |r.nodes| && dest !in r.assignedNodes
    ensures Valid(r2) && WalkStep(r, r2) && r2.visitedNodes == r.visitedNodes
    ensures r2.assignedNodes == r.assignedNodes + {dest}
    ensures r2.moves == r.moves + [Move(r.nodes[dest].operand, r.nodes[src].operand)]
  {
    var r2 := r.(moves := r.moves + [Move(r.nodes[dest].operand, r.nodes[src].operand)],
                 assignedNodes := r.assignedNodes + {dest});
    assert IsNodeOperand(r, r2.moves[|r.moves|].src);
    assert IsNewTarget(r, r2, r2.moves[|r.moves|].dst) by {
      assert dest in r2.assignedNodes - r.assignedNodes;
    }
    r2
  }

  /**
   * `move(src, dest)`: a depth-first walk that writes every destination
   * after the nodes it feeds. Reaching a node that is on the current path
   * (visited, not a start node) records it as the loop and saves the
   * source into a new temporary; the temporary is never read back.
   */
  function MoveNode(r: Resolver, src: Option<nat>, dest: nat): (res: Result<Resolver>)
    requires Valid(r) && dest < |r.nodes| && (src.Some? ==> src.value < |r.nodes|)
    ensures res.Err? ==> res.error == NullPointer && src.None?
    ensures res.Ok? ==> Valid(res.value) && WalkStep(r, res.value) && dest in res.value.visitedNodes
    decreases Unvisited(r), 0, 0
  {
    if dest !in r.visitedNodes then
      var r1 := r.(visitedNodes := r.visitedNodes + {dest});
      assert Unvisited(r1) < Unvisited(r) by {
        assert dest in Unvisited(r) - Unvisited(r1);
      }
      var r2 := MoveDests(r1, dest, r.nodes[dest].dests);
      WalkStepTrans(r, r1, r2);
      var res := Assign(r2, src, dest);
      if res.Ok? then WalkStepTrans(r, r2, res.value); res else res
    else if dest !in r.startNodes then
      if src.None? then Err(NullPointer)
      else Ok(CloseLoop(r, src.value, dest))
    else
      Assign(r, src, dest)
  }

  /** A node reached again on the current path is recorded as the loop, and the source is saved into a new temporary. */
  function CloseLoop(r: Resolver, src: nat, dest: nat): (r2: Resolver)
    requires Valid(r) && dest in r.visitedNodes && src < |r.nodes|
    ensures Valid(r2) && WalkStep(r, r2) && r2.visitedNodes == r.visitedNodes && r2.loop == Some(dest)
    ensures r2.assignedNodes == r.assignedNodes
    ensures r2.moves == r.moves + [Move(VReg(r.nextVreg, r.nodes[src].operand.kind), r.nodes[src].operand)]
  {
    var r2 := NewTemp(r.(loop := Some(dest)), r.nodes[src].operand);
    assert IsNodeOperand(r, r2.moves[|r.moves|].src);
    r2
  }

  /** `for (d : dest.getDestinations()) move(dest, d)` over the remaining destinations `ds`. */
  function MoveDests(r: Resolver, from: nat, ds: seq<nat>): (r2: Resolver)
    requires Valid(r) && from < |r.nodes|
    requires forall j :: 0 <= j < |ds| ==> ds[j] < |r.nodes|
    ensures Valid(r2) && WalkStep(r, r2)
    ensures forall j :: 0 <= j < |ds| ==> ds[j] in r2.visitedNodes
    decreases Unvisited(r), 1, |ds|
  {
    if |ds| == 0 then r
    else
      var r1 := MoveNode(r, Some(from), ds[0]).value;
      assert Unvisited(r1) <= Unvisited(r);
      var r2 := MoveDests(r1, from, ds[1..]);
      WalkStepTrans(r, r1, r2);
      assert forall j :: 1 <= j < |ds| ==> ds[j] == ds[1..][j - 1];
      r2
  }

  /**
   * The first loop of `genMove`: every register source not reached yet is
   * the root of a walk, `move(null, node)`, and becomes a start node.
   */
  function WalkRoots(r: Resolver, i: nat): (res: Result<Resolver>)
    requires Valid(r) && i <= |r.virtualOperand|
    ensures res.Err? ==> res.error == NullPointer
    ensures res.Ok? ==> Valid(res.value)
    decreases |r.virtualOperand| - i
  {
    if i == |r.virtualOperand| then Ok(r)
    else
      var n := r.virtualOperand[i];
      if n in r.visitedNodes then WalkRoots(r, i + 1)
      else
        var r2 :- WalkRoot(r, n);
        WalkRoots(r2, i + 1)
  }

  /** The first loop of `genMove` leaves the graph as it was and only appends moves that read a node's operand. */
  lemma {:induction false} WalkRootsExtends(r: Resolver, i: nat)
    requires Valid(r) && i <= |r.virtualOperand| && WalkRoots(r, i).Ok?
    ensures Extends(r, WalkRoots(r, i).value)
    decreases |r.virtualOperand| - i
  {
    if i == |r.virtualOperand| {
      assert r.moves[..|r.moves|] == r.moves;
    } else if r.virtualOperand[i] in r.visitedNodes {
      WalkRootsExtends(r, i + 1);
    } else {
      var r2 := WalkRoot(r, r.virtualOperand[i]).value;
      WalkRootsExtends(r2, i + 1);
      ExtendsTrans(r, r2, WalkRoots(r2, i + 1).value);
    }
  }

  /** Every register root from `i` on ends up visited, and nothing visited before is forgotten. */
  lemma {:induction false} WalkRootsVisit(r: Resolver, i: nat)
    requires Valid(r) && i <= |r.virtualOperand| && WalkRoots(r, i).Ok?
    ensures var res := WalkRoots(r, i).value;
      && r.visitedNodes <= res.visitedNodes
      && forall j :: i <= j < |r.virtualOperand| ==> r.virtualOperand[j] in res.visitedNodes
    decreases |r.virtualOperand| - i
  {
    if i < |r.virtualOperand| {
      if r.virtualOperand[i] in r.visitedNodes {
        WalkRootsVisit(r, i + 1);
      } else {
        var r2 := WalkRoot(r, r.virtualOperand[i]).value;
        WalkRootsVisit(r2, i + 1);
      }
    }
  }

  /** Only register roots the walk had not reached become start nodes; start nodes are never cleared. */
  lemma {:induction false} WalkRootsStart(r: Resolver, i: nat)
    requires Valid(r) && i <= |r.virtualOperand| && WalkRoots(r, i).Ok?
    ensures var res := WalkRoots(r, i).value;
      && r.startNodes <= res.startNodes
      && forall n :: n in res.startNodes - r.startNodes ==> n in r.virtualOperand[i..] && n !in r.visitedNodes
    decreases |r.virtualOperand| - i
  {
    if i < |r.virtualOperand| {
      if r.virtualOperand[i] in r.visitedNodes {
        WalkRootsStart(r, i + 1);
        assert r.virtualOperand[i..] == [r.virtualOperand[i]] + r.virtualOperand[i + 1..];
      } else {
        var r2 := WalkRoot(r, r.virtualOperand[i]).value;
        WalkRootsStart(r2, i + 1);
        assert r.virtualOperand[i..] == [r.virtualOperand[i]] + r2.virtualOperand[i + 1..];
      }
    }
  }

  /** One root of the first loop of `genMove`: `move(null, node)`, then the node becomes a start node. */
  function WalkRoot(r: Resolver, n: nat): (res: Result<Resolver>)
    requires Valid(r) && n < |r.nodes|
    ensures res.Err? ==> res.error == NullPointer
    ensures res.Ok? ==> Valid(res.value) && Extends(r, res.value)
    ensures res.Ok? ==> n in res.value.visitedNodes && r.visitedNodes <= res.value.visitedNodes
    ensures res.Ok? ==> res.value.startNodes == r.startNodes + {n}
  {
    var r1 :- MoveNode(r, None, n);
    WalkStepExtends(r, r1);
    Ok(r1.(startNodes := r1.startNodes + {n}))
  }

  /** The graph and operands are as they were; moves are only appended, and each appended one reads a node's operand. */
  ghost predicate Extends(r: Resolver, r2: Resolver) {
    && r2.nodes == r.nodes && r2.vregList == r.vregList && r2.operandOf == r.operandOf
    && r2.virtualOperand == r.virtualOperand && r2.otherOperand == r.otherOperand
    && |r.moves| <= |r2.moves| && r2.moves[..|r.moves|] == r.moves
    && (forall k :: |r.moves| <= k < |r2.moves| ==> IsNodeOperand(r, r2.moves[k].src))
  }

  lemma WalkStepExtends(a: Resolver, b: Resolver)
    requires WalkStep(a, b)
    ensures Extends(a, b)
  {
  }

  lemma ExtendsTrans(a: Resolver, b: Resolver, c: Resolver)
    requires Extends(a, b) && Extends(b, c)
    ensures Extends(a, c)
  {
    forall k | |a.moves| <= k < |b.moves|
      ensures c.moves[k] == b.moves[k]
    {
      assert c.moves[..|b.moves|][k] == b.moves[k];
    }
    assert c.moves[..|a.moves|] == c.moves[..|b.moves|][..|a.moves|];
  }

  /** `emitMov(node.operand(), destNode.operand())` for each destination in `ds`: the node's own operand is written. */
  function EdgeMoves(g: seq<ResolveNode>, n: nat, ds: seq<nat>): (ms: seq<Move>)
    requires n < |g| && forall j :: 0 <= j < |ds| ==> ds[j] < |g|
    ensures |ms| == |ds|
  {
    seq(|ds|, j requires 0 <= j < |ds| => Move(g[n].operand, g[ds[j]].operand))
  }

  /** The graph's edges are in range. */
  ghost predicate EdgesInRange(g: seq<ResolveNode>) {
    forall i, j :: 0 <= i < |g| && 0 <= j < |g[i].dests| ==> g[i].dests[j] < |g|
  }

  /**
   * The second loop of `genMove`, over the non-register sources. Every
   * move it emits writes the source node's operand and reads the operand
   * of one of its destinations: the reverse of the copy the edge stands
   * for.
   */
  function OtherMoves(g: seq<ResolveNode>, others: seq<nat>): (ms: seq<Move>)
    requires EdgesInRange(g) && forall i :: 0 <= i < |others| ==> others[i] < |g|
    ensures forall k :: 0 <= k < |ms| ==> exists i, j :: (
      && 0 <= i < |others| && 0 <= j < |g[others[i]].dests|
      && ms[k] == Move(g[others[i]].operand, g[g[others[i]].dests[j]].operand))
  {
    if |others| == 0 then []
    else
      var head := EdgeMoves(g, others[0], g[others[0]].dests);
      var tail := OtherMoves(g, others[1..]);
      assert forall k :: 0 <= k < |head| ==> head[k] == Move(g[others[0]].operand, g[g[others[0]].dests[k]].operand);
      assert forall k :: 0 <= k < |tail| ==> exists i, j :: (
        && 1 <= i < |others| && 0 <= j < |g[others[i]].dests|
        && tail[k] == Move(g[others[i]].operand, g[g[others[i]].dests[j]].operand)) by {
        forall k | 0 <= k < |tail|
          ensures exists i, j :: (
            && 1 <= i < |others| && 0 <= j < |g[others[i]].dests|
            && tail[k] == Move(g[others[i]].operand, g[g[others[i]].dests[j]].operand))
        {
          var i, j :| 0 <= i < |others[1..]| && 0 <= j < |g[others[1..][i]].dests|
            && tail[k] == Move(g[others[1..][i]].operand, g[g[others[1..][i]].dests[j]].operand);
          assert others[1..][i] == others[i + 1];
        }
      }
      head + tail
  }

  /** Every edge out of a non-register source yields its (reversed) move. */
  lemma {:induction false} OtherMovesComplete(g: seq<ResolveNode>, others: seq<nat>, i: nat, j: nat)
    requires EdgesInRange(g) && forall i :: 0 <= i < |others| ==> others[i] < |g|
    requires i < |others| && j < |g[others[i]].dests|
    ensures Move(g[others[i]].operand, g[g[others[i]].dests[j]].operand) in OtherMoves(g, others)
  {
    var head := EdgeMoves(g, others[0], g[others[0]].dests);
    if i == 0 {
      assert head[j] == Move(g[others[0]].operand, g[g[others[0]].dests[j]].operand);
      assert OtherMoves(g, others)[j] == head[j];
    } else {
      OtherMovesComplete(g, others[1..], i - 1, j);
      assert others[1..][i - 1] == others[i];
      var tail := OtherMoves(g, others[1..]);
      assert OtherMoves(g, others) == head + tail;
    }
  }

  /**
   * `genMove`: walk from every register source not yet reached, then emit
   * the moves out of the non-register sources.
   */
  function GenMove(r: Resolver): (res: Result<Resolver>)
    requires Valid(r)
    ensures res.Err? ==> res.error == NullPointer
    ensures res.Ok? ==> Valid(res.value) && Extends(r, res.value)
    ensures res.Ok? ==> forall j :: 0 <= j < |r.virtualOperand| ==> r.virtualOperand[j] in res.value.visitedNodes
    ensures res.Ok? ==> (
      var others := OtherMoves(r.nodes, r.otherOperand);
      |others| <= |res.value.moves| && res.value.moves[|res.value.moves| - |others|..] == others)
  {
    var r1 :- WalkRoots(r, 0);
    WalkRootsExtends(r, 0);
    WalkRootsVisit(r, 0);
    var others := OtherMoves(r1.nodes, r1.otherOperand);
    var r2 := r1.(moves := r1.moves + others);
    AppendOtherMoves(r1, others);
    ExtendsTrans(r, r1, r2);
    assert r2.moves[|r2.moves| - |others|..] == others;
    Ok(r2)
  }

  lemma AppendOtherMoves(r: Resolver, others: seq<Move>)
    requires Valid(r) && others == OtherMoves(r.nodes, r.otherOperand)
    ensures Extends(r, r.(moves := r.moves + others))
  {
    var r2 := r.(moves := r.moves + others);
    assert r2.moves[..|r.moves|] == r.moves;
    forall k | |r.moves| <= k < |r2.moves|
      ensures IsNodeOperand(r, r2.moves[k].src)
    {
      assert r2.moves[k] == others[k - |r.moves|];
      var i, j :| 0 <= i < |r.otherOperand| && 0 <= j < |r.nodes[r.otherOperand[i]].dests|
        && others[k - |r.moves|] == Move(r.nodes[r.otherOperand[i]].operand, r.nodes[r.nodes[r.otherOperand[i]].dests[j]].operand);
      assert r.nodes[r.nodes[r.otherOperand[i]].dests[j]].operand == r2.moves[k].src;
    }
  }

  /**
   * The temporaries the walk creates for cycles (registers numbered from
   * `nextVreg` on) are never the source of an emitted move: a cycle's
   * saved value is never copied back.
   */
  lemma GenMoveNeverReadsTemps(r: Resolver)
    requires Valid(r) && GenMove(r).Ok?
    ensures var r2 := GenMove(r).value;
      forall k :: |r.moves| <= k < |r2.moves| ==> !(r2.moves[k].src.VReg? && r2.moves[k].src.id >= r.nextVreg)
  {
    var r2 := GenMove(r).value;
    forall k | |r.moves| <= k < |r2.moves|
      ensures !(r2.moves[k].src.VReg? && r2.moves[k].src.id >= r.nextVreg)
    {
      assert IsNodeOperand(r, r2.moves[k].src);
      var i :| 0 <= i < |r.nodes| && r.nodes[i].operand == r2.moves[k].src;
    }
  }

  // ----- the walk writes every node after reading it -----

  /** No node other than `n` holds `n`'s operand. */
  ghost predicate Sole(nodes: seq<ResolveNode>, n: nat) {
    n < |nodes| && forall m :: 0 <= m < |nodes| && nodes[m].operand == nodes[n].operand ==> m == n
  }

  /** Every copy target is held by a single node, as a phi's register is. */
  ghost predicate TargetsSole(nodes: seq<ResolveNode>) {
    forall i, j :: 0 <= i < |nodes| && 0 <= j < |nodes[i].dests| ==> Sole(nodes, nodes[i].dests[j])
  }

  /** `d` may no longer be read: it is an issued register, and every node holding it is assigned. */
  ghost predicate Spent(r: Resolver, d: Operand) {
    && (d.VReg? ==> d.id < r.nextVreg)
    && forall n :: 0 <= n < |r.nodes| && r.nodes[n].operand == d ==> n in r.assignedNodes
  }

  /**
   * The moves from index `m0` on write only spent operands, and no move
   * reads or writes an operand an earlier one wrote.
   */
  ghost predicate PostOrder(m0: nat, r: Resolver) {
    && m0 <= |r.moves|
    && (forall j :: m0 <= j < |r.moves| ==> Spent(r, r.moves[j].dst))
    && (forall j, k :: m0 <= j < k < |r.moves| ==>
          r.moves[j].dst != r.moves[k].src && r.moves[j].dst != r.moves[k].dst)
  }

  lemma PostOrderKeep(m0: nat, r: Resolver, r2: Resolver)
    requires PostOrder(m0, r)
    requires r2.nodes == r.nodes && r2.moves == r.moves
    requires r.assignedNodes <= r2.assignedNodes && r.nextVreg <= r2.nextVreg
    ensures PostOrder(m0, r2)
  {
    forall j | m0 <= j < |r2.moves|
      ensures Spent(r2, r2.moves[j].dst)
    {
      assert Spent(r, r.moves[j].dst);
    }
  }

  /** Appending a move that reads an unassigned node and writes a fresh operand, which it spends, keeps the order. */
  lemma PostOrderAppend(m0: nat, r: Resolver, r2: Resolver, s: nat)
    requires PostOrder(m0, r)
    requires r2.nodes == r.nodes && r.assignedNodes <= r2.assignedNodes && r.nextVreg <= r2.nextVreg
    requires |r2.moves| == |r.moves| + 1 && r2.moves[..|r.moves|] == r.moves
    requires s < |r.nodes| && s !in r.assignedNodes && r2.moves[|r.moves|].src == r.nodes[s].operand
    requires Spent(r2, r2.moves[|r.moves|].dst) && !Spent(r, r2.moves[|r.moves|].dst)
    ensures PostOrder(m0, r2)
  {
    var last := r2.moves[|r.moves|];
    forall j | m0 <= j < |r.moves|
      ensures r2.moves[j] == r.moves[j] && Spent(r2, r2.moves[j].dst)
      ensures r2.moves[j].dst != last.src && r2.moves[j].dst != last.dst
    {
      assert r2.moves[j] == r2.moves[..|r.moves|][j];
      assert Spent(r, r.moves[j].dst);
    }
  }

  lemma CloseLoopPostOrder(m0: nat, r: Resolver, src: nat, dest: nat)
    requires Valid(r) && dest in r.visitedNodes && src < |r.nodes| && src !in r.assignedNodes
    requires PostOrder(m0, r)
    ensures PostOrder(m0, CloseLoop(r, src, dest))
  {
    var r2 := CloseLoop(r, src, dest);
    assert r2.moves[..|r.moves|] == r.moves;
    PostOrderAppend(m0, r, r2, src);
  }

  lemma SaveLoopPostOrder(m0: nat, r: Resolver, src: nat, dest: nat)
    requires Valid(r) && dest in r.visitedNodes && src < |r.nodes| && src !in r.assignedNodes
    requires PostOrder(m0, r)
    ensures PostOrder(m0, SaveLoop(r, src, dest))
  {
    var r2 := SaveLoop(r, src, dest);
    assert r2.moves[..|r.moves|] == r.moves;
    PostOrderAppend(m0, r, r2, src);
  }

  lemma WriteDestPostOrder(m0: nat, r: Resolver, src: nat, dest: nat)
    requires Valid(r) && dest in r.visitedNodes && src < |r.nodes| && dest !in r.assignedNodes
    requires src !in r.assignedNodes && Sole(r.nodes, dest) && PostOrder(m0, r)
    ensures PostOrder(m0, WriteDest(r, src, dest))
  {
    var r2 := WriteDest(r, src, dest);
    assert r2.moves[..|r.moves|] == r.moves;
    PostOrderAppend(m0, r, r2, src);
  }

  lemma AssignPostOrder(m0: nat, r: Resolver, src: Option<nat>, dest: nat)
    requires Valid(r) && dest in r.visitedNodes
    requires src.Some? ==> src.value < |r.nodes| && src.value !in r.assignedNodes && Sole(r.nodes, dest)
    requires Assign(r, src, dest).Ok? && PostOrder(m0, r)
    ensures PostOrder(m0, Assign(r, src, dest).value)
    ensures Assign(r, src, dest).value.assignedNodes <= r.assignedNodes + {dest}
  {
    if dest !in r.assignedNodes {
      if r.loop == Some(dest) {
        SaveLoopPostOrder(m0, r, src.value, dest);
      } else if src.Some? {
        WriteDestPostOrder(m0, r, src.value, dest);
      }
    }
  }

  /**
   * One `move(src, dest)` keeps the order. It assigns only nodes it reaches
   * for the first time and start nodes, so a source on the current path is
   * still unassigned when it is read.
   */
  lemma MoveNodePostOrder(m0: nat, r: Resolver, src: Option<nat>, dest: nat)
    requires Valid(r) && dest < |r.nodes| && TargetsSole(r.nodes) && PostOrder(m0, r)
    requires src.Some? ==> (
      && src.value < |r.nodes| && src.value in r.visitedNodes && src.value !in r.assignedNodes
      && src.value !in r.startNodes && Sole(r.nodes, dest))
    requires MoveNode(r, src, dest).Ok?
    ensures var r2 := MoveNode(r, src, dest).value;
      PostOrder(m0, r2) && r2.assignedNodes <= r.assignedNodes + Unvisited(r) + r.startNodes
    decreases Unvisited(r), 0, 0
  {
    if dest !in r.visitedNodes {
      var r1 := r.(visitedNodes := r.visitedNodes + {dest});
      assert Unvisited(r1) < Unvisited(r) by {
        assert dest in Unvisited(r) - Unvisited(r1);
      }
      PostOrderKeep(m0, r, r1);
      var ds := r.nodes[dest].dests;
      assert forall j :: 0 <= j < |ds| ==> ds[j] < |r.nodes| && Sole(r.nodes, ds[j]);
      MoveDestsPostOrder(m0, r1, dest, ds);
      var r2 := MoveDests(r1, dest, ds);
      AssignPostOrder(m0, r2, src, dest);
    } else if dest !in r.startNodes {
      CloseLoopPostOrder(m0, r, src.value, dest);
    } else {
      AssignPostOrder(m0, r, src, dest);
    }
  }

  /** The destinations loop of a node on the current path keeps the order and leaves that node unassigned. */
  lemma MoveDestsPostOrder(m0: nat, r: Resolver, from: nat, ds: seq<nat>)
    requires Valid(r) && from < |r.nodes| && TargetsSole(r.nodes) && PostOrder(m0, r)
    requires forall j :: 0 <= j < |ds| ==> ds[j] < |r.nodes| && Sole(r.nodes, ds[j])
    requires from in r.visitedNodes && from !in r.assignedNodes && from !in r.startNodes
    ensures var r2 := MoveDests(r, from, ds);
      PostOrder(m0, r2) && r2.assignedNodes <= r.assignedNodes + Unvisited(r) + r.startNodes
    decreases Unvisited(r), 1, |ds|
  {
    if |ds| > 0 {
      MoveNodePostOrder(m0, r, Some(from), ds[0]);
      var r1 := MoveNode(r, Some(from), ds[0]).value;
      assert Unvisited(r1) <= Unvisited(r);
      assert forall j :: 0 <= j < |ds[1..]| ==> ds[1..][j] == ds[j + 1];
      MoveDestsPostOrder(m0, r1, from, ds[1..]);
    }
  }

  /** The first loop of `genMove` keeps the order. */
  lemma {:induction false} WalkRootsPostOrder(m0: nat, r: Resolver, i: nat)
    requires Valid(r) && i <= |r.virtualOperand| && TargetsSole(r.nodes) && PostOrder(m0, r)
    requires WalkRoots(r, i).Ok?
    ensures PostOrder(m0, WalkRoots(r, i).value)
    decreases |r.virtualOperand| - i
  {
    if i < |r.virtualOperand| {
      var n := r.virtualOperand[i];
      if n in r.visitedNodes {
        WalkRootsPostOrder(m0, r, i + 1);
      } else {
        MoveNodePostOrder(m0, r, None, n);
        var r1 := MoveNode(r, None, n).value;
        var r2 := WalkRoot(r, n).value;
        PostOrderKeep(m0, r1, r2);
        WalkRootsPostOrder(m0, r2, i + 1);
      }
    }
  }

  /**
   * The copies of the walk are emitted in post-order: no copy reads an
   * operand that an earlier copy of the walk wrote, and no two copies write
   * the same operand, so every node is assigned at most once and only after
   * all its readers.
   */
  lemma GenMovePostOrder(r: Resolver)
    requires Valid(r) && TargetsSole(r.nodes) && GenMove(r).Ok?
    ensures var g := GenMove(r).value;
      var w := |g.moves| - |OtherMoves(r.nodes, r.otherOperand)|;
      && |r.moves| <= w
      && forall j, k :: |r.moves| <= j < k < w ==>
           g.moves[j].dst != g.moves[k].src && g.moves[j].dst != g.moves[k].dst
  {
    var w := WalkRoots(r, 0).value;
    WalkRootsPostOrder(|r.moves|, r, 0);
    WalkRootsExtends(r, 0);
    var g := GenMove(r).value;
    assert g.moves == w.moves + OtherMoves(r.nodes, r.otherOperand);
    assert forall j :: 0 <= j < |w.moves| ==> g.moves[j] == w.moves[j];
  }

  // ----- resolvePhi -----

  /** The stack loop of `resolvePhi`, from slot `i` on. */
  function ScanStack(r: Resolver, cur: seq<Value>, sux: seq<Value>, i: nat): (res: Result<Resolver>)
    requires Valid(r) && i <= |sux|
    ensures res.Err? ==> res.error == NullPointer || res.error == IndexOutOfBounds
    ensures res.Ok? ==> i == |sux| || |sux| <= |cur|
    ensures res.Ok? ==> Valid(res.value) && res.value.moves == r.moves && Grows(r, res.value) && KeepsOperands(r, res.value)
    ensures res.Ok? ==> forall j :: i <= j < |sux| && NeedsMove(Some(cur[j]), Some(sux[j])) ==> (
      && cur[j].id in res.value.operandOf && sux[j].id in res.value.operandOf
      && HasEdge(res.value, res.value.operandOf[cur[j].id], res.value.operandOf[sux[j].id]))
    decreases |sux| - i
  {
    if i == |sux| then Ok(r)
    else if i >= |cur| then Err(IndexOutOfBounds)
    else
      var r1 :- MoveToPhi(r, Some(cur[i]), Some(sux[i]));
      var res := ScanStack(r1, cur, sux, i + 1);
      if res.Ok? then
        GrowsTrans(r, r1, res.value);
        assert NeedsMove(Some(cur[i]), Some(sux[i])) ==> (
          && cur[i].id in res.value.operandOf && sux[i].id in res.value.operandOf
          && HasEdge(res.value, res.value.operandOf[cur[i].id], res.value.operandOf[sux[i].id])) by {
          if NeedsMove(Some(cur[i]), Some(sux[i])) {
            GrowsKeepsEdges(r1, res.value, r1.operandOf[cur[i].id], r1.operandOf[sux[i].id]);
          }
        }
        res
      else res
  }

  /** The local-variable loop of `resolvePhi`, from slot `i` on; only slots the successor defines are looked at. */
  function ScanLocals(r: Resolver, cur: seq<Option<Value>>, sux: seq<Option<Value>>, i: nat): (res: Result<Resolver>)
    requires Valid(r) && i <= |sux|
    ensures res.Err? ==> res.error == NullPointer || res.error == IndexOutOfBounds
    ensures res.Ok? ==> forall j :: i <= j < |sux| && sux[j].Some? ==> j < |cur|
    ensures res.Ok? ==> Valid(res.value) && res.value.moves == r.moves && Grows(r, res.value) && KeepsOperands(r, res.value)
    ensures res.Ok? ==> forall j :: i <= j < |sux| && j < |cur| && NeedsMove(cur[j], sux[j]) ==> (
      && cur[j].value.id in res.value.operandOf && sux[j].value.id in res.value.operandOf
      && HasEdge(res.value, res.value.operandOf[cur[j].value.id], res.value.operandOf[sux[j].value.id]))
    decreases |sux| - i
  {
    if i == |sux| then Ok(r)
    else if sux[i].None? then ScanLocals(r, cur, sux, i + 1)
    else if i >= |cur| then Err(IndexOutOfBounds)
    else
      var r1 :- MoveToPhi(r, cur[i], sux[i]);
      var res := ScanLocals(r1, cur, sux, i + 1);
      if res.Ok? then
        GrowsTrans(r, r1, res.value);
        assert NeedsMove(cur[i], sux[i]) ==> (
          && cur[i].value.id in res.value.operandOf && sux[i].value.id in res.value.operandOf
          && HasEdge(res.value, res.value.operandOf[cur[i].value.id], res.value.operandOf[sux[i].value.id])) by {
          if NeedsMove(cur[i], sux[i]) {
            GrowsKeepsEdges(r1, res.value, r1.operandOf[cur[i].value.id], r1.operandOf[sux[i].value.id]);
          }
        }
        res
      else res
  }

  /** `resolvePhi` acts only on the edge into a single successor that joins two or more predecessors. */
  predicate Joins(successors: seq<BlockStart>) {
    |successors| == 1 && |successors[0].preds| >= 2
  }

  /** Every phi slot of `sux` that `cur` feeds with another value has its copy edge registered. */
  ghost predicate EdgesRegistered(r: Resolver, sux: VmState, cur: VmState)
    requires |sux.stack| <= |cur.stack|
  {
    && (forall j :: 0 <= j < |sux.stack| && NeedsMove(Some(cur.stack[j]), Some(sux.stack[j])) ==> (
        && cur.stack[j].id in r.operandOf && sux.stack[j].id in r.operandOf
        && HasEdge(r, r.operandOf[cur.stack[j].id], r.operandOf[sux.stack[j].id])))
    && (forall j :: 0 <= j < |sux.locals| && j < |cur.locals| && NeedsMove(cur.locals[j], sux.locals[j]) ==> (
        && cur.locals[j].value.id in r.operandOf && sux.locals[j].value.id in r.operandOf
        && HasEdge(r, r.operandOf[cur.locals[j].value.id], r.operandOf[sux.locals[j].value.id])))
  }

  lemma SameGraph(r: Resolver, r2: Resolver, sux: VmState, cur: VmState)
    requires r2.nodes == r.nodes && r2.operandOf == r.operandOf
    requires |sux.stack| <= |cur.stack| && EdgesRegistered(r, sux, cur)
    ensures Grows(r, r2) && KeepsOperands(r, r2) && EdgesRegistered(r2, sux, cur)
  {
    assert forall i :: 0 <= i < |r.nodes| ==> r.nodes[i].dests[..|r.nodes[i].dests|] == r.nodes[i].dests;
  }

  /** Both loops of `resolvePhi`: the copy graph for the edge from `cur` into `sux`. */
  function ScanSlots(r: Resolver, sux: VmState, cur: VmState): (res: Result<Resolver>)
    requires Valid(r)
    ensures res.Err? ==> res.error == NullPointer || res.error == IndexOutOfBounds
    ensures |cur.stack| < |sux.stack| ==> res.Err?
    ensures res.Ok? ==> Valid(res.value) && res.value.moves == r.moves && Grows(r, res.value) && KeepsOperands(r, res.value)
    ensures res.Ok? ==> |sux.stack| <= |cur.stack| && forall j :: 0 <= j < |sux.locals| && sux.locals[j].Some? ==> j < |cur.locals|
    ensures res.Ok? ==> EdgesRegistered(res.value, sux, cur)
  {
    var r1 :- ScanStack(r, cur.stack, sux.stack, 0);
    var r2 :- ScanLocals(r1, cur.locals, sux.locals, 0);
    GrowsTrans(r, r1, r2);
    StackEdgesKept(r1, r2, cur.stack, sux.stack);
    Ok(r2)
  }

  /** Edges registered for the stack slots survive the scan of the locals. */
  lemma StackEdgesKept(r1: Resolver, r2: Resolver, cur: seq<Value>, sux: seq<Value>)
    requires Valid(r1) && Grows(r1, r2) && KeepsOperands(r1, r2) && |sux| <= |cur|
    requires forall j :: 0 <= j < |sux| && NeedsMove(Some(cur[j]), Some(sux[j])) ==> (
      && cur[j].id in r1.operandOf && sux[j].id in r1.operandOf
      && HasEdge(r1, r1.operandOf[cur[j].id], r1.operandOf[sux[j].id]))
    ensures forall j :: 0 <= j < |sux| && NeedsMove(Some(cur[j]), Some(sux[j])) ==> (
      && cur[j].id in r2.operandOf && sux[j].id in r2.operandOf
      && HasEdge(r2, r2.operandOf[cur[j].id], r2.operandOf[sux[j].id]))
  {
    forall j | 0 <= j < |sux| && NeedsMove(Some(cur[j]), Some(sux[j]))
      ensures HasEdge(r2, r2.operandOf[cur[j].id], r2.operandOf[sux[j].id])
    {
      GrowsKeepsEdges(r1, r2, r1.operandOf[cur[j].id], r1.operandOf[sux[j].id]);
    }
  }

  /**
   * `resolvePhi(successor, curState)`: on an edge into a join, register a
   * copy for every phi slot of the successor's state that the current
   * state feeds with another value, then emit the moves. The successor's
   * stack is walked to its own height, so a shorter current stack (or
   * local array) fails with an index error.
   */
  function ResolvePhi(r: Resolver, successors: seq<BlockStart>, cur: VmState): (res: Result<Resolver>)
    requires Valid(r)
    ensures !Joins(successors) ==> res == Ok(r)
    ensures Joins(successors) && successors[0].state.None? ==> res == Err(NullPointer)
    ensures res.Err? ==> res.error == NullPointer || res.error == IndexOutOfBounds
    ensures Joins(successors) && successors[0].state.Some? && |cur.stack| < |successors[0].state.value.stack| ==> res.Err?
    ensures res.Ok? ==> Valid(res.value) && KeepsOperands(r, res.value) && Grows(r, res.value)
    ensures res.Ok? && Joins(successors) ==> (
      && |successors[0].state.value.stack| <= |cur.stack|
      && EdgesRegistered(res.value, successors[0].state.value, cur))
  {
    if !Joins(successors) then Ok(r)
    else if successors[0].state.None? then Err(NullPointer)
    else
      var sux := successors[0].state.value;
      var r1 :- ScanSlots(r, sux, cur);
      var r2 :- GenMove(r1);
      SameGraph(r1, r2, sux, cur);
      GrowsTrans(r, r1, r2);
      Ok(r2)
  }
}
