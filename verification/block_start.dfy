/**
 * BlockStartInstr: a basic block's header, its entry state, and the merge
 * that inserts phis when several predecessors flow into it.
 */
module Blocks {
  import opened Wrappers
  import opened Values
  import opened VmStates
  import opened Instrs

  /** A terminal together with the block it was linked back to (`setBlockStart`). */
  datatype BlockEnd = BlockEnd(instr: Node, blockStart: nat)

  /**
   * `succs` is the provisional successor list of the control-flow graph; it
   * becomes `None` (Java null) once the block end is set.
   */
  datatype BlockStart = BlockStart(
    id: nat,
    loopHeader: bool,
    state: Option<VmState>,
    preds: seq<nat>,
    succs: Option<seq<nat>>,
    end: Option<BlockEnd>)

  // ----- slot rules -----

  /** A later non-loop merge replaces a stack slot by a phi: the values differ and the incoming one is not this block's phi. */
  predicate StackNeedsPhi(b: nat, existing: Value, incoming: Value) {
    incoming != existing && !IsPhiOf(incoming, b)
  }

  /** `val != null && val.isType(existing.type())` */
  predicate Compatible(existing: Value, incoming: Option<Value>) {
    incoming.Some? && incoming.value.kind == existing.kind
  }

  /** A later non-loop merge nulls a live local that meets a null or differently typed value. */
  predicate LocalInvalidated(existing: Option<Value>, incoming: Option<Value>) {
    existing.Some? && !Compatible(existing.value, incoming)
  }

  /** A later non-loop merge gives a live local a phi when a compatible, different, foreign value arrives. */
  predicate LocalNeedsPhi(b: nat, existing: Option<Value>, incoming: Option<Value>) {
    existing.Some? && Compatible(existing.value, incoming)
    && StackNeedsPhi(b, existing.value, incoming.value)
  }

  // ----- first merge into a loop header -----

  /** Every stack slot becomes a fresh phi of `b`, ids allocated bottom-up from `next`. */
  function {:induction false} PhiEveryStackSlot(b: nat, s: seq<Value>, next: nat): (r: (seq<Value>, nat))
    ensures |r.0| == |s| && r.1 == next + |s|
    ensures forall i :: 0 <= i < |s| ==>
      IsPhiOf(r.0[i], b) && r.0[i].kind == s[i].kind && r.0[i].id == next + i
  {
    if |s| == 0 then ([], next)
    else
      var (pre, n) := PhiEveryStackSlot(b, s[..|s| - 1], next);
      (pre + [NewPhi(b, s[|s| - 1], n)], n + 1)
  }

  /** Every non-null local becomes a fresh phi of `b`; null locals stay null. */
  function {:induction false} PhiEveryLocal(b: nat, l: seq<Option<Value>>, next: nat): (r: (seq<Option<Value>>, nat))
    ensures |r.0| == |l| && r.1 >= next
    ensures forall i :: 0 <= i < |l| ==> (r.0[i].None? <==> l[i].None?)
    ensures forall i :: 0 <= i < |l| && l[i].Some? ==>
      IsPhiOf(r.0[i].value, b) && r.0[i].value.kind == l[i].value.kind
      && next <= r.0[i].value.id < r.1
    ensures forall i, j :: 0 <= i < j < |l| && l[i].Some? && l[j].Some? ==>
      r.0[i].value.id < r.0[j].value.id
  {
    if |l| == 0 then ([], next)
    else
      var (pre, n) := PhiEveryLocal(b, l[..|l| - 1], next);
      var last := l[|l| - 1];
      if last.None? then (pre + [None], n)
      else (pre + [Some(NewPhi(b, last.value, n))], n + 1)
  }

  // ----- later merge into an ordinary block -----

  function {:induction false} MergeStack(b: nat, existing: seq<Value>, incoming: seq<Value>, next: nat): (r: (seq<Value>, nat))
    requires |existing| == |incoming|
    ensures |r.0| == |existing| && r.1 >= next
    ensures forall i :: 0 <= i < |existing| && StackNeedsPhi(b, existing[i], incoming[i]) ==>
      IsPhiOf(r.0[i], b) && r.0[i].kind == existing[i].kind && next <= r.0[i].id < r.1
    ensures forall i :: 0 <= i < |existing| && !StackNeedsPhi(b, existing[i], incoming[i]) ==>
      r.0[i] == existing[i]
    ensures (forall i :: 0 <= i < |existing| ==> !StackNeedsPhi(b, existing[i], incoming[i])) ==> r.1 == next
  {
    if |existing| == 0 then ([], next)
    else
      var k := |existing| - 1;
      var (pre, n) := MergeStack(b, existing[..k], incoming[..k], next);
      if StackNeedsPhi(b, existing[k], incoming[k]) then (pre + [NewPhi(b, existing[k], n)], n + 1)
      else (pre + [existing[k]], n)
  }

  function {:induction false} MergeLocals(b: nat, existing: seq<Option<Value>>, incoming: seq<Option<Value>>, next: nat)
    : (r: (seq<Option<Value>>, nat))
    requires |existing| == |incoming|
    ensures |r.0| == |existing| && r.1 >= next
    ensures forall i :: 0 <= i < |existing| && LocalInvalidated(existing[i], incoming[i]) ==> r.0[i].None?
    ensures forall i :: 0 <= i < |existing| && LocalNeedsPhi(b, existing[i], incoming[i]) ==>
      r.0[i].Some? && IsPhiOf(r.0[i].value, b) && r.0[i].value.kind == existing[i].value.kind
      && next <= r.0[i].value.id < r.1
    ensures forall i :: 0 <= i < |existing| ==>
      (!LocalInvalidated(existing[i], incoming[i]) && !LocalNeedsPhi(b, existing[i], incoming[i]) ==> r.0[i] == existing[i])
    ensures (forall i :: 0 <= i < |existing| ==> !LocalNeedsPhi(b, existing[i], incoming[i])) ==> r.1 == next
  {
    if |existing| == 0 then ([], next)
    else
      var k := |existing| - 1;
      var (pre, n) := MergeLocals(b, existing[..k], incoming[..k], next);
      if LocalInvalidated(existing[k], incoming[k]) then (pre + [None], n)
      else if LocalNeedsPhi(b, existing[k], incoming[k]) then
        (pre + [Some(NewPhi(b, existing[k].value, n))], n + 1)
      else (pre + [existing[k]], n)
  }

  /** Constraint.matchVmState: both states have the same stack depth and local count. */
  predicate SameShape(a: VmState, b: VmState) {
    |a.stack| == |b.stack| && |a.locals| == |b.locals|
  }

  /** A later loop-header merge bails out when a live entry local meets a null or differently typed local. */
  predicate LoopLocalsClash(existing: VmState, incoming: VmState)
    requires SameShape(existing, incoming)
  {
    exists i :: 0 <= i < |existing.locals| && LocalInvalidated(existing.locals[i], incoming.locals[i])
  }

  /**
   * `mergeVmState(newState)`. Fresh phis take ids from `next`; the second
   * component of the result is the next unused id.
   */
  function MergeVmState(blk: BlockStart, incoming: VmState, next: nat): (r: Result<(BlockStart, nat)>)
    ensures r.Ok? ==> r.value.0 == blk.(state := r.value.0.state) && r.value.0.state.Some? && r.value.1 >= next
    ensures r.Ok? ==> SameShape(r.value.0.state.value, incoming)
    ensures blk.state.None? && !blk.loopHeader ==> r == Ok((blk.(state := Some(incoming)), next))
    ensures blk.state.None? && blk.loopHeader ==> r.Ok? && var s := r.value.0.state.value;
      && (forall i :: 0 <= i < |s.stack| ==> IsPhiOf(s.stack[i], blk.id) && s.stack[i].kind == incoming.stack[i].kind)
      && (forall i :: 0 <= i < |s.locals| ==> (s.locals[i].None? <==> incoming.locals[i].None?))
      && (forall i :: 0 <= i < |s.locals| && s.locals[i].Some? ==>
            IsPhiOf(s.locals[i].value, blk.id) && s.locals[i].value.kind == incoming.locals[i].value.kind)
    ensures blk.state.Some? ==> (r == Err(StateMismatch) <==> !SameShape(blk.state.value, incoming))
    ensures blk.state.Some? && blk.loopHeader && SameShape(blk.state.value, incoming) ==>
      (r.Err? <==> LoopLocalsClash(blk.state.value, incoming)) && (r.Err? ==> r.error == BailOut)
      && (r.Ok? ==> r.value == (blk, next))
    ensures blk.state.Some? && !blk.loopHeader && SameShape(blk.state.value, incoming) ==> r.Ok?
  {
    if blk.state.None? then
      if blk.loopHeader then
        var (st, n1) := PhiEveryStackSlot(blk.id, incoming.stack, next);
        var (lo, n2) := PhiEveryLocal(blk.id, incoming.locals, n1);
        Ok((blk.(state := Some(VmState(st, lo))), n2))
      else
        Ok((blk.(state := Some(incoming)), next))
    else
      var ex := blk.state.value;
      if !SameShape(ex, incoming) then Err(StateMismatch)
      else if blk.loopHeader then
        if LoopLocalsClash(ex, incoming) then Err(BailOut) else Ok((blk, next))
      else
        var (st, n1) := MergeStack(blk.id, ex.stack, incoming.stack, next);
        var (lo, n2) := MergeLocals(blk.id, ex.locals, incoming.locals, n1);
        Ok((blk.(state := Some(VmState(st, lo))), n2))
  }

  // ----- properties of mergeVmState -----

  /** The merge reads only the block's id, its loop-header flag and its entry state. */
  lemma MergeReadsOnlyState(blk: BlockStart, other: BlockStart, incoming: VmState, next: nat)
    requires blk.id == other.id && blk.loopHeader == other.loopHeader && blk.state == other.state
    ensures MergeVmState(blk, incoming, next).Ok? == MergeVmState(other, incoming, next).Ok?
    ensures MergeVmState(blk, incoming, next).Ok? ==>
      MergeVmState(blk, incoming, next).value.0.state == MergeVmState(other, incoming, next).value.0.state
      && MergeVmState(blk, incoming, next).value.1 == MergeVmState(other, incoming, next).value.1
  {
  }

  /** Every value held in the state has an id below `next` (so ids from `next` on are fresh). */
  predicate IdsBelow(s: VmState, next: nat) {
    && (forall i :: 0 <= i < |s.stack| ==> s.stack[i].id < next)
    && (forall i :: 0 <= i < |s.locals| && s.locals[i].Some? ==> s.locals[i].value.id < next)
  }

  /** The first merge into an ordinary block makes its entry state a copy of the incoming state. */
  lemma FirstMergeCopies(blk: BlockStart, incoming: VmState, next: nat)
    requires blk.state.None? && !blk.loopHeader
    ensures MergeVmState(blk, incoming, next) == Ok((blk.(state := Some(incoming)), next))
  {
  }

  /**
   * The first merge into a loop header replaces every stack slot and every
   * non-null local by a fresh phi owned by the header; null locals stay null.
   */
  lemma FirstLoopMergeMakesPhis(blk: BlockStart, incoming: VmState, next: nat)
    requires blk.state.None? && blk.loopHeader
    ensures MergeVmState(blk, incoming, next).Ok?
    ensures var s := MergeVmState(blk, incoming, next).value.0.state.value;
      && SameShape(s, incoming)
      && (forall i :: 0 <= i < |s.stack| ==> IsPhiOf(s.stack[i], blk.id) && s.stack[i].kind == incoming.stack[i].kind)
      && (forall i :: 0 <= i < |s.locals| ==> (s.locals[i].None? <==> incoming.locals[i].None?))
      && (forall i :: 0 <= i < |s.locals| && s.locals[i].Some? ==>
            IsPhiOf(s.locals[i].value, blk.id) && s.locals[i].value.kind == incoming.locals[i].value.kind)
  {
  }

  /** The phis of a first loop-header merge are all distinct and fresh. */
  lemma FirstLoopMergePhisFresh(blk: BlockStart, incoming: VmState, next: nat)
    requires blk.state.None? && blk.loopHeader
    ensures MergeVmState(blk, incoming, next).Ok?
    ensures var (b2, n2) := MergeVmState(blk, incoming, next).value;
      var s := b2.state.value;
      && (forall i :: 0 <= i < |s.stack| ==> next <= s.stack[i].id < next + |s.stack|)
      && (forall i :: 0 <= i < |s.locals| && s.locals[i].Some? ==> next + |s.stack| <= s.locals[i].value.id < n2)
      && IdsBelow(s, n2)
  {
  }

  /** A merge into a block that already has a state rejects an incoming state of another shape. */
  lemma LaterMergeShape(blk: BlockStart, incoming: VmState, next: nat)
    requires blk.state.Some?
    ensures MergeVmState(blk, incoming, next) == Err(StateMismatch) <==> !SameShape(blk.state.value, incoming)
  {
  }

  /**
   * A later merge into a loop header bails out exactly when a non-null entry
   * local meets a null or differently typed incoming local; otherwise the
   * block, its entry state included, is left untouched.
   */
  lemma LaterLoopMerge(blk: BlockStart, incoming: VmState, next: nat)
    requires blk.state.Some? && blk.loopHeader && SameShape(blk.state.value, incoming)
    ensures var r := MergeVmState(blk, incoming, next);
      && var ex := blk.state.value.locals;
      && (r.Err? <==> (exists i :: 0 <= i < |ex| && ex[i].Some? && (incoming.locals[i].None? || incoming.locals[i].value.kind != ex[i].value.kind)))
      && (r.Err? ==> r.error == BailOut)
      && (r.Ok? ==> r.value == (blk, next))
  {
  }

  /**
   * On a later merge into an ordinary block, stack slot i changes exactly
   * when the incoming value differs from the entry value and is not a phi of
   * this block; a changed slot holds a phi of this block of the slot's kind.
   */
  lemma LaterMergeStack(blk: BlockStart, incoming: VmState, next: nat, i: nat)
    requires blk.state.Some? && !blk.loopHeader && SameShape(blk.state.value, incoming)
    requires IdsBelow(blk.state.value, next)
    requires i < |incoming.stack|
    ensures MergeVmState(blk, incoming, next).Ok?
    ensures var ex := blk.state.value.stack[i];
      var now := MergeVmState(blk, incoming, next).value.0.state.value.stack[i];
      && (now != ex <==> (incoming.stack[i] != ex && !IsPhiOf(incoming.stack[i], blk.id)))
      && (now != ex ==> IsPhiOf(now, blk.id) && now.kind == ex.kind && now.id >= next)
  {
  }

  /**
   * On a later merge into an ordinary block: a null local stays null; a
   * non-null local becomes null when the incoming local is null or of another
   * kind; it becomes a fresh phi of this block when a compatible, different
   * value that is not this block's phi arrives; otherwise it is kept.
   */
  lemma LaterMergeLocal(blk: BlockStart, incoming: VmState, next: nat, i: nat)
    requires blk.state.Some? && !blk.loopHeader && SameShape(blk.state.value, incoming)
    requires IdsBelow(blk.state.value, next)
    requires i < |incoming.locals|
    ensures MergeVmState(blk, incoming, next).Ok?
    ensures var ex := blk.state.value.locals[i];
      var inc := incoming.locals[i];
      var now := MergeVmState(blk, incoming, next).value.0.state.value.locals[i];
      && (ex.None? ==> now.None?)
      && (ex.Some? && (inc.None? || inc.value.kind != ex.value.kind) ==> now.None?)
      && (ex.Some? && inc.Some? && inc.value.kind == ex.value.kind ==>
            now.Some? && (now != ex <==> (inc.value != ex.value && !IsPhiOf(inc.value, blk.id))))
      && (now.Some? && now != ex ==> IsPhiOf(now.value, blk.id) && now.value.kind == ex.value.kind && now.value.id >= next)
  {
  }

  /** Merging a state identical to the entry state changes nothing and allocates no phi. */
  lemma MergeIdenticalIsNoOp(blk: BlockStart, next: nat)
    requires blk.state.Some?
    ensures MergeVmState(blk, blk.state.value, next) == Ok((blk, next))
  {
    var ex := blk.state.value;
    if !blk.loopHeader {
      var (st, n1) := MergeStack(blk.id, ex.stack, ex.stack, next);
      var (lo, n2) := MergeLocals(blk.id, ex.locals, ex.locals, n1);
      assert st == ex.stack;
      assert forall i :: 0 <= i < |ex.locals| ==> !LocalInvalidated(ex.locals[i], ex.locals[i]);
      assert lo == ex.locals;
    } else {
      assert forall i :: 0 <= i < |ex.locals| ==> !LocalInvalidated(ex.locals[i], ex.locals[i]);
    }
  }

  /**
   * Merge is not idempotent as coded: the stack test looks at whether the
   * INCOMING value is this block's phi, so merging the same predecessor state
   * a second time replaces the phi made by the first merge with yet another one.
   */
  lemma RemergeAddsAnotherPhi()
    ensures var a := Value(0, Int, None);
      var c := Value(1, Int, None);
      var blk := BlockStart(7, false, Some(VmState([a], [])), [], None, None);
      var r1 := MergeVmState(blk, VmState([c], []), 2);
      && r1.Ok?
      && var r2 := MergeVmState(r1.value.0, VmState([c], []), r1.value.1);
      && r2.Ok?
      && IsPhiOf(r1.value.0.state.value.stack[0], 7)
      && IsPhiOf(r2.value.0.state.value.stack[0], 7)
      && r2.value.0.state.value.stack[0] != r1.value.0.state.value.stack[0]
  {
    var a := Value(0, Int, None);
    var c := Value(1, Int, None);
    var blk := BlockStart(7, false, Some(VmState([a], [])), [], None, None);
    assert StackNeedsPhi(7, a, c);
    var p := MergeStack(7, [a], [c], 2);
    assert p.0[0] == NewPhi(7, a, 2);
    var q := MergeStack(7, [NewPhi(7, a, 2)], [c], 3);
    assert q.0[0] == NewPhi(7, a, 3);
  }

  // ----- setBlockEnd -----

  /** The block graph: every BlockStartInstr by id. */
  type Graph = map<nat, BlockStart>

  function AddPredecessor(g: Graph, succs: seq<nat>, id: nat): (r: Graph)
    requires forall i :: 0 <= i < |succs| ==> succs[i] in g
    ensures r.Keys == g.Keys
    ensures forall k :: k in g ==>
      r[k] == g[k].(preds := g[k].preds + seq(multiset(succs)[k], _ => id))
  {
    if |succs| == 0 then g
    else
      var n := |succs| - 1;
      var g1 := AddPredecessor(g, succs[..n], id);
      var s := succs[n];
      var r := g1[s := g1[s].(preds := g1[s].preds + [id])];
      AddPredecessorStep(g, g1, r, succs, id);
      r
  }

  /** One more occurrence of `succs[n]` adds one more copy of `id` to that block's predecessors. */
  lemma AddPredecessorStep(g: Graph, g1: Graph, r: Graph, succs: seq<nat>, id: nat)
    requires |succs| > 0 && succs[|succs| - 1] in g
    requires g1.Keys == g.Keys
    requires forall k :: k in g ==>
      g1[k] == g[k].(preds := g[k].preds + seq(multiset(succs[..|succs| - 1])[k], _ => id))
    requires r == g1[succs[|succs| - 1] := g1[succs[|succs| - 1]].(preds := g1[succs[|succs| - 1]].preds + [id])]
    ensures r.Keys == g.Keys
    ensures forall k :: k in g ==>
      r[k] == g[k].(preds := g[k].preds + seq(multiset(succs)[k], _ => id))
  {
    var n := |succs| - 1;
    var s := succs[n];
    assert succs == succs[..n] + [s];
    assert multiset(succs) == multiset(succs[..n]) + multiset{s};
    forall k | k in g
      ensures r[k] == g[k].(preds := g[k].preds + seq(multiset(succs)[k], _ => id))
    {
      var m := multiset(succs[..n])[k];
      if k == s {
        assert seq(m + 1, _ => id) == seq(m, _ => id) + [id];
        assert g[k].preds + seq(m, _ => id) + [id] == g[k].preds + seq(m + 1, _ => id);
      }
    }
  }

  /**
   * `setBlockEnd(end)`: records the terminal, drops the provisional successor
   * list, appends this block once to the predecessor list of the terminal's
   * successor per occurrence, and links the terminal back to this block.
   */
  function SetBlockEnd(g: Graph, id: nat, end: Node): (r: Graph)
    requires id in g
    requires forall i :: 0 <= i < |Successors(end.op)| ==> Successors(end.op)[i] in g
    ensures r.Keys == g.Keys
    ensures r[id].succs.None? && r[id].end == Some(BlockEnd(end, id))
    ensures forall k :: k in g ==>
      r[k].preds == g[k].preds + seq(multiset(Successors(end.op))[k], _ => id)
    ensures forall k :: k in g ==>
      r[k].id == g[k].id && r[k].loopHeader == g[k].loopHeader && r[k].state == g[k].state
    ensures forall k :: k in g && k != id ==> r[k].succs == g[k].succs && r[k].end == g[k].end
  {
    var g1 := g[id := g[id].(end := Some(BlockEnd(end, id)), succs := None)];
    AddPredecessor(g1, Successors(end.op), id)
  }

  /** After `setBlockEnd`, every successor of the terminal lists this block as a predecessor. */
  lemma SetBlockEndLinksSuccessors(g: Graph, id: nat, end: Node, s: nat)
    requires id in g
    requires forall i :: 0 <= i < |Successors(end.op)| ==> Successors(end.op)[i] in g
    requires s in Successors(end.op)
    ensures id in SetBlockEnd(g, id, end)[s].preds
    ensures |SetBlockEnd(g, id, end)[s].preds| > |g[s].preds|
  {
    var r := SetBlockEnd(g, id, end);
    var n := multiset(Successors(end.op))[s];
    assert n > 0;
    assert r[s].preds[|g[s].preds|] == id;
  }

  // ----- equals / hashCode -----

  /** `equals`: two block starts are equal iff their ids are. */
  predicate BlockEquals(a: BlockStart, b: BlockStart) {
    a.id == b.id
  }

  const TWO_31: int := 0x8000_0000
  const TWO_32: int := 0x1_0000_0000

  /** Java `int` wrap-around. */
  function WrapInt(x: int): (r: int)
    ensures -TWO_31 <= r < TWO_31
    ensures (r - x) % TWO_32 == 0
  {
    (x + TWO_31) % TWO_32 - TWO_31
  }

  /** `Objects.hash(blockId)` = `31 * 1 + blockId` in 32-bit arithmetic. */
  function BlockHash(a: BlockStart): int {
    WrapInt(31 + a.id)
  }

  /** Equal blocks hash alike, and for ids that fit a Java int, equal hashes mean equal blocks. */
  lemma EqualsAgreesWithHash(a: BlockStart, b: BlockStart)
    requires a.id < TWO_31 && b.id < TWO_31
    ensures BlockEquals(a, b) <==> BlockHash(a) == BlockHash(b)
  {
    if BlockHash(a) == BlockHash(b) {
      var x, y := 31 + a.id, 31 + b.id;
      assert (x - y) % TWO_32 == 0 by {
        assert (WrapInt(x) - x) % TWO_32 == 0;
        assert (WrapInt(y) - y) % TWO_32 == 0;
      }
      assert -TWO_32 < x - y < TWO_32;
    }
  }
}
