/**
 * HirBuilder's per-opcode transfer functions: symbolic execution of one
 * decoded bytecode against the operand stack and local slots, emitting IR
 * instructions into the current block.
 */
module Builder {
  import opened Wrappers
  import opened Values
  import opened VmStates
  import opened Instrs
  import B = Bytecodes

  /** What the builder reads from the method being compiled. */
  datatype Method = Method(
    returnKind: Kind,
    isConstructor: bool,
    hasReceiver: bool,
    params: seq<Kind>,
    maxStack: nat,
    maxLocals: nat)

  /**
   * The builder's collaborators: the method, local value numbering (after
   * idealisation) as an oracle that may name an existing replacement for a
   * pure instruction, and `cfg.blockContain(bci)`.
   */
  datatype Env = Env(meth: Method, lvn: Op -> Option<Value>, blockContaining: int -> nat)

  /**
   * The build context: the current state, the instructions appended to the
   * current block so far, the next instruction id, and the method-level
   * write-final / write-volatile flags.
   */
  datatype Ctx = Ctx(state: VmState, block: seq<Node>, next: nat, writeFinal: bool, writeVolatile: bool)

  /** The write flags of a context. */
  function Flags(c: Ctx): (bool, bool) {
    (c.writeFinal, c.writeVolatile)
  }

  /** The failures of a transfer function that are not about the opcode itself. */
  predicate OperandError(e: Error) {
    e == EmptyStack || e == IndexOutOfBounds || e == NullLocal || e == BailOut || e == NullPointer
  }

  /** The node an append records: StateInstrs get a copy of the current state. */
  function NodeFor(c: Ctx, op: Op): Node {
    Node(c.next, op, if IsStateInstr(op) then Some(c.state) else None)
  }

  /**
   * The contract of `appendToBlock(op)` yielding `v`: the instruction takes
   * the next id; either value numbering supplies a replacement for a pure
   * instruction and nothing is appended, or the instruction is appended
   * (with a state copy when it is a StateInstr) and is itself the result.
   */
  ghost predicate Emits(env: Env, c: Ctx, c2: Ctx, op: Op, v: Value) {
    && c2 == c.(block := c2.block, next := c.next + 1)
    && ( (c2.block == c.block + [NodeFor(c, op)] && v == Value(c.next, ResultKind(op), None))
      || (c2.block == c.block && IsPure(op) && env.lvn(op) == Some(v)) )
  }

  /** `appendToBlock` */
  function Append(env: Env, c: Ctx, op: Op): (r: (Ctx, Value))
    ensures Emits(env, c, r.0, op, r.1)
    ensures r.0.block == c.block <==> (IsPure(op) && env.lvn(op).Some?)
  {
    var c1 := c.(next := c.next + 1);
    if IsPure(op) && env.lvn(op).Some? then (c1, env.lvn(op).value)
    else (c1.(block := c.block + [NodeFor(c, op)]), Value(c.next, ResultKind(op), None))
  }

  /** An instruction that is constructed but never appended still consumes an id. */
  function Construct(c: Ctx, op: Op): (r: (Ctx, Value))
    ensures r.0 == c.(next := c.next + 1) && r.1.id == c.next && r.1.kind == ResultKind(op)
  {
    (c.(next := c.next + 1), Value(c.next, ResultKind(op), None))
  }

  function PushValue(c: Ctx, v: Value): Ctx {
    c.(state := Push(c.state, v))
  }

  function PopValue(c: Ctx): (r: Result<(Ctx, Value)>)
    ensures r.Ok? <==> |c.state.stack| > 0
    ensures r.Err? ==> r.error == EmptyStack
    ensures r.Ok? ==> r.value.0 == c.(state := r.value.0.state)
    ensures r.Ok? ==> r.value.0.state.stack + [r.value.1] == c.state.stack
    ensures r.Ok? ==> r.value.0.state.locals == c.state.locals
  {
    var p :- Pop(c.state);
    Ok((c.(state := p.0), p.1))
  }

  /** Pops `n` entries; entry i of the answer is the i-th of them counted from the deepest. */
  function {:induction false} PopValues(c: Ctx, n: nat): (r: Result<(Ctx, seq<Value>)>)
    decreases n
    ensures r.Ok? <==> |c.state.stack| >= n
    ensures r.Err? ==> r.error == EmptyStack
    ensures r.Ok? ==> r.value.0 == c.(state := r.value.0.state) && |r.value.1| == n
    ensures r.Ok? ==> r.value.0.state.stack + r.value.1 == c.state.stack
    ensures r.Ok? ==> r.value.0.state.locals == c.state.locals
  {
    if n == 0 then Ok((c, []))
    else
      var p :- PopValue(c);
      var q :- PopValues(p.0, n - 1);
      Ok((q.0, q.1 + [p.1]))
  }

  // ----- constants and locals -----

  /** `loadConst` */
  function LoadConst(env: Env, c: Ctx, kind: Kind, bits: int): (r: Ctx)
    ensures Flags(r) == Flags(c)
    ensures |r.state.stack| == |c.state.stack| + 1 && r.state.stack[..|c.state.stack|] == c.state.stack
    ensures r.state.locals == c.state.locals
    ensures Emits(env, c, r.(state := c.state), ConstantInstr(kind, bits), r.state.stack[|c.state.stack|])
  {
    var (c1, v) := Append(env, c, ConstantInstr(kind, bits));
    PushValue(c1, v)
  }

  /** `ldc`: only a JavaConstant pool entry can be loaded; anything else bails out. */
  function LoadPoolConstant(env: Env, c: Ctx, item: Option<(Kind, int)>): (r: Result<Ctx>)
    ensures r.Err? ==> OperandError(r.error)
    ensures r.Ok? ==> Flags(r.value) == Flags(c)
    ensures r.Err? <==> item.None?
    ensures r.Err? ==> r.error == BailOut
    ensures r.Ok? ==> r.value == LoadConst(env, c, item.value.0, item.value.1)
  {
    if item.None? then Err(BailOut) else Ok(LoadConst(env, c, item.value.0, item.value.1))
  }

  /**
   * `load(kind, index)`: pushes the very value held in the slot; no
   * instruction is emitted. An empty slot is rejected (see README).
   */
  function Load(c: Ctx, kind: Kind, index: nat): (r: Result<Ctx>)
    ensures r.Err? ==> OperandError(r.error)
    ensures r.Ok? ==> Flags(r.value) == Flags(c)
    ensures r.Ok? <==> index < |c.state.locals| && c.state.locals[index].Some?
    ensures r.Err? ==> (index >= |c.state.locals| ==> r.error == IndexOutOfBounds)
    ensures r.Ok? ==> r.value == c.(state := r.value.state)
    ensures r.Ok? ==> r.value.state.stack == c.state.stack + [c.state.locals[index].value]
    ensures r.Ok? ==> r.value.state.locals == c.state.locals
  {
    var slot :- Get(c.state, index);
    if slot.None? then Err(NullLocal) else Ok(PushValue(c, slot.value))
  }

  /** `store(kind, index)`: pops the top into the slot; no instruction is emitted. */
  function Store(c: Ctx, kind: Kind, index: nat): (r: Result<Ctx>)
    ensures r.Err? ==> OperandError(r.error)
    ensures r.Ok? ==> Flags(r.value) == Flags(c)
    ensures r.Ok? <==> |c.state.stack| > 0 && index < |c.state.locals|
    ensures r.Ok? ==> r.value == c.(state := r.value.state)
    ensures r.Ok? ==> r.value.state.stack + [c.state.stack[|c.state.stack| - 1]] == c.state.stack
    ensures r.Ok? ==> |r.value.state.locals| == |c.state.locals|
    ensures r.Ok? ==> r.value.state.locals[index] == Some(c.state.stack[|c.state.stack| - 1])
    ensures r.Ok? ==> forall j :: 0 <= j < |c.state.locals| && j != index ==> r.value.state.locals[j] == c.state.locals[j]
  {
    var p :- PopValue(c);
    var s :- Set(p.0.state, index, p.1);
    Ok(p.0.(state := s))
  }

  /** A load followed by a store back into the same slot leaves the state as it was. */
  lemma LoadThenStoreIsIdentity(c: Ctx, kind: Kind, index: nat)
    requires index < |c.state.locals| && c.state.locals[index].Some?
    ensures Load(c, kind, index).Ok?
    ensures Store(Load(c, kind, index).value, kind, index) == Ok(c)
  {
    var c1 := Load(c, kind, index).value;
    var c2 := Store(c1, kind, index).value;
    assert c2.state.stack == c.state.stack;
    assert c2.state.locals == c.state.locals;
  }

  /** A store followed by a load of the same slot leaves the stack as it was and the slot holding the old top. */
  lemma StoreThenLoad(c: Ctx, kind: Kind, index: nat)
    requires |c.state.stack| > 0 && index < |c.state.locals|
    ensures Store(c, kind, index).Ok?
    ensures Load(Store(c, kind, index).value, kind, index).Ok?
    ensures Load(Store(c, kind, index).value, kind, index).value.state.stack == c.state.stack
  {
  }

  // ----- stack shuffles -----

  /** `duplicate(opcode)`: each form rearranges the entries it reads as `Shuffled` says and keeps everything below. */
  function DuplicateTop(c: Ctx, form: B.DupForm): (r: Result<Ctx>)
    ensures r.Err? ==> OperandError(r.error)
    ensures r.Ok? ==> Flags(r.value) == Flags(c)
    ensures var s := c.state.stack; var n := |s|;
      && (r.Ok? <==> n >= Needed(form))
      && (r.Ok? ==> r.value == c.(state := r.value.state) && r.value.state.locals == c.state.locals)
      && (r.Ok? ==> r.value.state.stack == s[..n - Needed(form)] + Shuffled(form, s[n - Needed(form)..]))
  {
    var s := c.state;
    if |s.stack| < Needed(form) then Err(EmptyStack)
    else
      var r := DupForm(s, form);
      DupFormLayout(s, form);
      Ok(c.(state := r))
  }

  function DupForm(s: VmState, form: B.DupForm): VmState
    requires |s.stack| >= Needed(form)
  {
    match form
    case Dup => DupTop(s)
    case DupX1 => DupTopX1(s)
    case DupX2 => DupTopX2(s)
    case Dup2 => DupTop2(s)
    case Dup2X1 => DupTop2X1(s)
    case Dup2X2 => DupTop2X2(s)
  }

  lemma DupFormLayout(s: VmState, form: B.DupForm)
    requires |s.stack| >= Needed(form)
    ensures var n := |s.stack|; var k := Needed(form);
      DupForm(s, form).locals == s.locals
      && DupForm(s, form).stack == s.stack[..n - k] + Shuffled(form, s.stack[n - k..])
  {
    var n := |s.stack|;
    var k := Needed(form);
    var t := s.stack;
    var top := t[n - k..];
    match form {
      case Dup =>
        assert Shuffled(form, top) == [t[n - 1], t[n - 1]];
        assert t + [t[n - 1]] == t[..n - 1] + [t[n - 1], t[n - 1]];
      case DupX1 =>
        assert Shuffled(form, top) == [t[n - 1], t[n - 2], t[n - 1]];
      case DupX2 =>
        assert Shuffled(form, top) == [t[n - 1], t[n - 3], t[n - 2], t[n - 1]];
      case Dup2 =>
        assert Shuffled(form, top) == [t[n - 2], t[n - 1], t[n - 2], t[n - 1]];
      case Dup2X1 =>
        assert Shuffled(form, top) == [t[n - 2], t[n - 1], t[n - 3], t[n - 2], t[n - 1]];
      case Dup2X2 =>
        assert Shuffled(form, top) == [t[n - 2], t[n - 1], t[n - 4], t[n - 3], t[n - 2], t[n - 1]];
    }
  }

  // One function per form, each the source's sequence of unsafePop/unsafePush.

  function DupTop(s0: VmState): (r: VmState)
    requires |s0.stack| >= 1
    ensures var n := |s0.stack|; r.locals == s0.locals && r.stack == s0.stack + [s0.stack[n - 1]]
  {
    var (s1, t) := Pop(s0).value;
    Push(Push(s1, t), t)
  }

  function DupTopX1(s0: VmState): (r: VmState)
    requires |s0.stack| >= 2
    ensures var s := s0.stack; var n := |s|;
      r.locals == s0.locals && r.stack == s[..n - 2] + [s[n - 1], s[n - 2], s[n - 1]]
  {
    var (s1, t) := Pop(s0).value;
    var (s2, t2) := Pop(s1).value;
    Push(Push(Push(s2, t), t2), t)
  }

  function DupTopX2(s0: VmState): (r: VmState)
    requires |s0.stack| >= 3
    ensures var s := s0.stack; var n := |s|;
      r.locals == s0.locals && r.stack == s[..n - 3] + [s[n - 1], s[n - 3], s[n - 2], s[n - 1]]
  {
    var (s1, t) := Pop(s0).value;
    var (s2, t2) := Pop(s1).value;
    var (s3, t3) := Pop(s2).value;
    Push(Push(Push(Push(s3, t), t3), t2), t)
  }

  function DupTop2(s0: VmState): (r: VmState)
    requires |s0.stack| >= 2
    ensures var s := s0.stack; var n := |s|;
      r.locals == s0.locals && r.stack == s[..n - 2] + [s[n - 2], s[n - 1], s[n - 2], s[n - 1]]
  {
    var (s1, t) := Pop(s0).value;
    var (s2, t2) := Pop(s1).value;
    Push(Push(Push(Push(s2, t2), t), t2), t)
  }

  function DupTop2X1(s0: VmState): (r: VmState)
    requires |s0.stack| >= 3
    ensures var s := s0.stack; var n := |s|;
      r.locals == s0.locals && r.stack == s[..n - 3] + [s[n - 2], s[n - 1], s[n - 3], s[n - 2], s[n - 1]]
  {
    var (s1, t) := Pop(s0).value;
    var (s2, t2) := Pop(s1).value;
    var (s3, t3) := Pop(s2).value;
    Push(Push(Push(Push(Push(s3, t2), t), t3), t2), t)
  }

  function DupTop2X2(s0: VmState): (r: VmState)
    requires |s0.stack| >= 4
    ensures var s := s0.stack; var n := |s|;
      r.locals == s0.locals && r.stack == s[..n - 4] + [s[n - 2], s[n - 1], s[n - 4], s[n - 3], s[n - 2], s[n - 1]]
  {
    var (s1, t) := Pop(s0).value;
    var (s2, t2) := Pop(s1).value;
    var (s3, t3) := Pop(s2).value;
    var (s4, t4) := Pop(s3).value;
    Push(Push(Push(Push(Push(Push(s4, t2), t), t4), t3), t2), t)
  }

  /** How many top entries each form reads. */
  function Needed(form: B.DupForm): nat {
    match form
    case Dup => 1
    case DupX1 => 2
    case DupX2 => 3
    case Dup2 => 2
    case Dup2X1 => 3
    case Dup2X2 => 4
  }

  /**
   * The layout each form leaves in place of the entries it read, written
   * with v1 the top: DUP `v1 -> v1 v1`, DUP_X1 `v2 v1 -> v1 v2 v1`,
   * DUP_X2 `v3 v2 v1 -> v1 v3 v2 v1`, DUP2 `v2 v1 -> v2 v1 v2 v1`,
   * DUP2_X1 `v3 v2 v1 -> v2 v1 v3 v2 v1`, DUP2_X2 `v4 v3 v2 v1 -> v2 v1 v4 v3 v2 v1`.
   */
  function Shuffled(form: B.DupForm, top: seq<Value>): seq<Value>
    requires |top| == Needed(form)
  {
    match form
    case Dup => [top[0], top[0]]
    case DupX1 => [top[1], top[0], top[1]]
    case DupX2 => [top[2], top[0], top[1], top[2]]
    case Dup2 => [top[0], top[1], top[0], top[1]]
    case Dup2X1 => [top[1], top[2], top[0], top[1], top[2]]
    case Dup2X2 => [top[2], top[3], top[0], top[1], top[2], top[3]]
  }

  /** `swap`: `v2 v1 -> v1 v2`. */
  function SwapTop(c: Ctx): (r: Result<Ctx>)
    ensures r.Err? ==> OperandError(r.error)
    ensures r.Ok? ==> Flags(r.value) == Flags(c)
    ensures var s := c.state.stack; var n := |s|;
      && (r.Ok? <==> n >= 2)
      && (r.Ok? ==> r.value == c.(state := r.value.state) && r.value.state.locals == c.state.locals)
      && (r.Ok? ==> r.value.state.stack == s[..n - 2] + [s[n - 1], s[n - 2]])
  {
    var (s1, t) :- Pop(c.state);
    var (s2, t1) :- Pop(s1);
    Ok(c.(state := Push(Push(s2, t), t1)))
  }

  /** Swapping twice restores the stack. */
  lemma SwapSwap(c: Ctx)
    requires |c.state.stack| >= 2
    ensures SwapTop(c).Ok? && SwapTop(SwapTop(c).value) == Ok(c)
  {
    var s := c.state.stack;
    var n := |s|;
    var s1 := SwapTop(c).value.state.stack;
    assert s1[..n - 2] == s[..n - 2];
    assert SwapTop(SwapTop(c).value).value.state.stack == s;
  }

  // ----- instructions over popped operands -----

  /** The context with the top `k` stack entries removed. */
  function Drop(c: Ctx, k: nat): Ctx
    requires |c.state.stack| >= k
  {
    c.(state := c.state.(stack := c.state.stack[..|c.state.stack| - k]))
  }

  /** The top `k` stack entries, deepest first. */
  function Top(c: Ctx, k: nat): seq<Value>
    requires |c.state.stack| >= k
  {
    c.state.stack[|c.state.stack| - k..]
  }

  /** Appends `op` and, when `push`, pushes the value it yields. */
  function Produce(env: Env, c: Ctx, op: Op, push: bool): Ctx {
    var (c1, v) := Append(env, c, op);
    if push then PushValue(c1, v) else c1
  }

  lemma PopTwo(c: Ctx)
    requires |c.state.stack| >= 2
    ensures PopValue(c).Ok? && PopValue(PopValue(c).value.0).Ok?
    ensures var (c1, right) := PopValue(c).value; var (c2, left) := PopValue(c1).value;
      c2 == Drop(c, 2) && [left, right] == Top(c, 2)
  {
    var s := c.state.stack;
    var n := |s|;
    assert s[..n - 1][..n - 2] == s[..n - 2];
  }

  lemma PopThree(c: Ctx)
    requires |c.state.stack| >= 3
    ensures PopValue(c).Ok? && PopValue(PopValue(c).value.0).Ok?
    ensures PopValue(PopValue(PopValue(c).value.0).value.0).Ok?
    ensures var (c1, a) := PopValue(c).value; var (c2, b) := PopValue(c1).value;
      var (c3, d) := PopValue(c2).value;
      c3 == Drop(c, 3) && [d, b, a] == Top(c, 3)
  {
    var s := c.state.stack;
    var n := |s|;
    assert s[..n - 1][..n - 2] == s[..n - 2];
    assert s[..n - 2][..n - 3] == s[..n - 3];
  }

  /** `arithmetic`, `shift`, `logic`, `compare`: pop right then left, emit, push. */
  function Binary(env: Env, c: Ctx, mk: (Value, Value) -> Op): (r: Result<Ctx>)
    ensures r.Err? ==> OperandError(r.error)
    ensures r.Ok? ==> Flags(r.value) == Flags(c)
    ensures r.Ok? <==> |c.state.stack| >= 2
    ensures r.Ok? ==> r.value == Produce(env, Drop(c, 2), mk(Top(c, 2)[0], Top(c, 2)[1]), true)
  {
    var (c1, right) :- PopValue(c);
    var (c2, left) :- PopValue(c1);
    PopTwo(c);
    Ok(Produce(env, c2, mk(left, right), true))
  }

  /** Pop one operand, emit, and push the result when `push`. */
  function Unary(env: Env, c: Ctx, mk: Value -> Op, push: bool): (r: Result<Ctx>)
    ensures r.Err? ==> OperandError(r.error)
    ensures r.Ok? ==> Flags(r.value) == Flags(c)
    ensures r.Ok? <==> |c.state.stack| >= 1
    ensures r.Ok? ==> r.value == Produce(env, Drop(c, 1), mk(Top(c, 1)[0]), push)
  {
    var (c1, v) :- PopValue(c);
    Ok(Produce(env, c1, mk(v), push))
  }

  /** `loadArray`: pops index then array reference, pushes the element. */
  function LoadArray(env: Env, c: Ctx, kind: Kind): (r: Result<Ctx>)
    ensures r.Err? ==> OperandError(r.error)
    ensures r.Ok? ==> Flags(r.value) == Flags(c)
    ensures r.Ok? <==> |c.state.stack| >= 2
    ensures r.Ok? ==> r.value == Produce(env, Drop(c, 2), LoadIndexInstr(Top(c, 2)[0], Top(c, 2)[1], kind), true)
  {
    Binary(env, c, (arr, idx) => LoadIndexInstr(arr, idx, kind))
  }

  /** `storeArray`: pops value, index and array reference; pushes nothing. */
  function StoreArray(env: Env, c: Ctx, kind: Kind): (r: Result<Ctx>)
    ensures r.Err? ==> OperandError(r.error)
    ensures r.Ok? ==> Flags(r.value) == Flags(c)
    ensures r.Ok? <==> |c.state.stack| >= 3
    ensures r.Ok? ==> var t := Top(c, 3);
      r.value == Produce(env, Drop(c, 3), StoreIndexInstr(t[0], t[1], kind, t[2]), false)
  {
    if |c.state.stack| < 3 then Err(EmptyStack)
    else
      PopThree(c);
      var (c1, value) := PopValue(c).value;
      var (c2, index) := PopValue(c1).value;
      var (c3, arr) := PopValue(c2).value;
      Ok(Produce(env, c3, StoreIndexInstr(arr, index, kind, value), false))
  }

  /** The kind a TypeCastInstr records: Byte, Char and Short destinations become Int. */
  function CastKind(to: Kind): (k: Kind)
    ensures !(k == Byte || k == Char || k == Short)
    ensures k == to || k == Int
    ensures to != Boolean ==> k == Decay(to)
  {
    if to == Byte || to == Char || to == Short then Int else to
  }

  /** `typeCast`: the conversion records the normalised destination kind. */
  function TypeCast(env: Env, c: Ctx, from: Kind, to: Kind, opcode: int): (r: Result<Ctx>)
    ensures r.Err? ==> OperandError(r.error)
    ensures r.Ok? ==> Flags(r.value) == Flags(c)
    ensures r.Ok? <==> |c.state.stack| >= 1
    ensures r.Ok? ==> r.value == Produce(env, Drop(c, 1), TypeCastInstr(opcode, Top(c, 1)[0], CastKind(to)), true)
  {
    Unary(env, c, v => TypeCastInstr(opcode, v, CastKind(to)), true)
  }

  /** Without value numbering, a conversion appends one TypeCastInstr whose kind is the normalised destination. */
  lemma TypeCastRecordsNormalisedKind(env: Env, c: Ctx, from: Kind, to: Kind, opcode: int)
    requires |c.state.stack| >= 1
    requires env.lvn(TypeCastInstr(opcode, c.state.stack[|c.state.stack| - 1], CastKind(to))).None?
    ensures TypeCast(env, c, from, to, opcode).Ok?
    ensures var r := TypeCast(env, c, from, to, opcode).value;
      && |r.block| == |c.block| + 1
      && r.block[|c.block|].op.TypeCastInstr?
      && r.block[|c.block|].op.toKind == (if to in {Byte, Char, Short} then Int else to)
      && r.state.stack[|r.state.stack| - 1].kind == r.block[|c.block|].op.toKind
  {
  }

  /** `increment`: load, push the constant, add, store back. */
  function Increment(env: Env, c: Ctx, index: nat, delta: int): (r: Result<Ctx>)
    ensures r.Err? ==> OperandError(r.error)
    ensures r.Ok? ==> Flags(r.value) == Flags(c)
    ensures r.Ok? <==> index < |c.state.locals| && c.state.locals[index].Some?
    ensures r.Ok? ==> r.value.state.stack == c.state.stack && r.value.next == c.next + 2
    ensures r.Ok? ==> |r.value.state.locals| == |c.state.locals| && r.value.state.locals[index].Some?
    ensures r.Ok? ==> forall j :: 0 <= j < |c.state.locals| && j != index ==> r.value.state.locals[j] == c.state.locals[j]
  {
    var c1 :- Load(c, Int, index);
    var c2 := LoadConst(env, c1, Int, delta);
    var (c3, right) := PopValue(c2).value;
    var (c4, left) := PopValue(c3).value;
    Store(Produce(env, c4, ArithmeticInstr(Int, IADD, left, right), true), Int, index)
  }

  /**
   * Without value numbering, `iinc` keeps the stack depth, appends the
   * constant then the addition, and leaves the slot holding the addition.
   */
  lemma IncrementAppendsAdd(env: Env, c: Ctx, index: nat, delta: int)
    requires index < |c.state.locals| && c.state.locals[index].Some?
    requires forall op :: env.lvn(op).None?
    ensures Increment(env, c, index, delta).Ok?
    ensures var r := Increment(env, c, index, delta).value;
      var k := Value(c.next, Int, None);
      && r.state.stack == c.state.stack
      && r.block == c.block + [Node(c.next, ConstantInstr(Int, delta), None),
                               Node(c.next + 1, ArithmeticInstr(Int, IADD, c.state.locals[index].value, k), None)]
      && r.state.locals[index] == Some(Value(c.next + 1, Int, None))
  {
  }

  // ----- block ends -----

  /** The node appended last, if any. */
  function LastNode(c: Ctx): Option<Node> {
    if |c.block| == 0 then None else Some(c.block[|c.block| - 1])
  }

  /**
   * `branchIfZero` / `branchIfNull`: snapshot, pop the operand, compare it
   * with a constant that is constructed but never appended.
   */
  function BranchAgainstConstant(env: Env, c: Ctx, cond: Cond, constKind: Kind, trueBci: int, falseBci: int)
    : (r: Result<Ctx>)
    ensures r.Err? ==> OperandError(r.error)
    ensures r.Ok? ==> Flags(r.value) == Flags(c)
    ensures r.Ok? <==> |c.state.stack| >= 1
    ensures r.Ok? ==> (
      && |r.value.block| == |c.block| + 1
      && r.value.block[|c.block|] == Node(c.next + 1,
           IfInstr(c.state, env.blockContaining(trueBci), env.blockContaining(falseBci),
                   Top(c, 1)[0], Value(c.next, constKind, None), cond),
           Some(Drop(c, 1).state))
      && r.value.state == Drop(c, 1).state)
  {
    var before := c.state;
    var (c1, left) :- PopValue(c);
    var (c2, right) := Construct(c1, ConstantInstr(constKind, 0));
    Ok(Append(env, c2, IfInstr(before, env.blockContaining(trueBci), env.blockContaining(falseBci), left, right, cond)).0)
  }

  /** `branchIfSame`: snapshot, pop right then left. */
  function BranchIfSame(env: Env, c: Ctx, cond: Cond, trueBci: int, falseBci: int): (r: Result<Ctx>)
    ensures r.Err? ==> OperandError(r.error)
    ensures r.Ok? ==> Flags(r.value) == Flags(c)
    ensures r.Ok? <==> |c.state.stack| >= 2
    ensures r.Ok? ==> (
      && |r.value.block| == |c.block| + 1
      && r.value.block[|c.block|] == Node(c.next,
           IfInstr(c.state, env.blockContaining(trueBci), env.blockContaining(falseBci),
                   Top(c, 2)[0], Top(c, 2)[1], cond),
           Some(Drop(c, 2).state))
      && r.value.state == Drop(c, 2).state)
  {
    if |c.state.stack| < 2 then Err(EmptyStack)
    else
      var before := c.state;
      PopTwo(c);
      var (c1, right) := PopValue(c).value;
      var (c2, left) := PopValue(c1).value;
      Ok(Append(env, c2, IfInstr(before, env.blockContaining(trueBci), env.blockContaining(falseBci), left, right, cond)).0)
  }

  /** `goTo` */
  function GoTo(env: Env, c: Ctx, bci: int): (r: Ctx)
    ensures Flags(r) == Flags(c)
    ensures r.state == c.state && r.block == c.block + [Node(c.next, GotoInstr(env.blockContaining(bci)), Some(c.state))]
  {
    Append(env, c, GotoInstr(env.blockContaining(bci))).0
  }

  /** The blocks containing each target, in order. */
  function Resolve(env: Env, bcis: seq<int>): (r: seq<nat>)
    ensures |r| == |bcis| && forall i :: 0 <= i < |bcis| ==> r[i] == env.blockContaining(bcis[i])
  {
    seq(|bcis|, i requires 0 <= i < |bcis| => env.blockContaining(bcis[i]))
  }

  /**
   * `tableSwitch`: one successor per case in key order, the default last;
   * the selector is popped after the snapshot.
   */
  function TableSwitch(env: Env, c: Ctx, lowKey: int, targets: seq<int>, defaultTarget: int): (r: Result<Ctx>)
    ensures r.Err? ==> OperandError(r.error)
    ensures r.Ok? ==> Flags(r.value) == Flags(c)
    ensures r.Ok? <==> |c.state.stack| >= 1
    ensures r.Ok? ==> |r.value.block| == |c.block| + 1 && r.value.state == Drop(c, 1).state
    ensures r.Ok? ==> var n := r.value.block[|c.block|];
      && n.op.TableSwitchInstr? && n.op.before == c.state && n.op.index == Top(c, 1)[0] && n.op.lowKey == lowKey
      && |n.op.successors| == |targets| + 1
      && (forall i :: 0 <= i < |targets| ==> n.op.successors[i] == env.blockContaining(targets[i]))
      && n.op.successors[|targets|] == env.blockContaining(defaultTarget)
      && SwitchLength(n.op) == |targets|
  {
    var succ := Resolve(env, targets) + [env.blockContaining(defaultTarget)];
    var before := c.state;
    var (c1, index) :- PopValue(c);
    Ok(Append(env, c1, TableSwitchInstr(before, succ, index, lowKey)).0)
  }

  /** `lookupSwitch`: case keys in order, successors in the same order, the default last. */
  function LookupSwitch(env: Env, c: Ctx, cases: seq<(int, int)>, defaultTarget: int): (r: Result<Ctx>)
    ensures r.Err? ==> OperandError(r.error)
    ensures r.Ok? ==> Flags(r.value) == Flags(c)
    ensures r.Ok? <==> |c.state.stack| >= 1
    ensures r.Ok? ==> |r.value.block| == |c.block| + 1 && r.value.state == Drop(c, 1).state
    ensures r.Ok? ==> var n := r.value.block[|c.block|];
      && n.op.LookupSwitchInstr? && n.op.index == Top(c, 1)[0] && n.op.before == c.state
      && |n.op.successors| == |cases| + 1 && |n.op.keys| == |cases|
      && (forall i :: 0 <= i < |cases| ==>
            n.op.keys[i] == cases[i].0 && n.op.successors[i] == env.blockContaining(cases[i].1))
      && n.op.successors[|cases|] == env.blockContaining(defaultTarget)
  {
    var keys := seq(|cases|, i requires 0 <= i < |cases| => cases[i].0);
    var succ := Resolve(env, seq(|cases|, i requires 0 <= i < |cases| => cases[i].1))
                + [env.blockContaining(defaultTarget)];
    var before := c.state;
    var (c1, index) :- PopValue(c);
    Ok(Append(env, c1, LookupSwitchInstr(before, succ, index, keys)).0)
  }

  /** The mask a sub-integer return kind applies to the returned value. */
  function ReturnMask(k: Kind): Option<int> {
    match k
    case Byte => Some(0xFF)
    case Short => Some(0xFFFF)
    case Char => Some(0xFFFF)
    case Boolean => Some(1)
    case _ => None
  }

  /** The masking step of `returnOp`: `val & mask` through a constant and an IAND. */
  function MaskReturnValue(env: Env, c: Ctx, val: Option<Value>): (r: Result<(Ctx, Option<Value>)>)
    ensures r.Err? ==> OperandError(r.error)
    ensures r.Ok? ==> Flags(r.value.0) == Flags(c) && r.value.0.state == c.state
    ensures r.Ok? ==> |r.value.0.block| >= |c.block| && r.value.1.Some? == val.Some?
    ensures ReturnMask(env.meth.returnKind).None? ==> r == Ok((c, val))
    ensures ReturnMask(env.meth.returnKind).Some? ==> (r.Ok? <==> val.Some?)
    ensures r.Ok? && ReturnMask(env.meth.returnKind).Some? ==>
      var (c1, m) := Append(env, c, ConstantInstr(Int, ReturnMask(env.meth.returnKind).value));
      var (c2, w) := Append(env, c1, LogicInstr(Int, IAND, m, val.value));
      r.value == (c2, Some(w))
  {
    var mask := ReturnMask(env.meth.returnKind);
    if mask.None? then Ok((c, val))
    else if val.None? then Err(NullPointer)
    else
      var (c1, m) := Append(env, c, ConstantInstr(Int, mask.value));
      var (c2, w) := Append(env, c1, LogicInstr(Int, IAND, m, val.value));
      Ok((c2, Some(w)))
  }

  /** A constructor that has written a final field fences its returns. */
  predicate NeedsBarrier(env: Env, c: Ctx) {
    env.meth.isConstructor && c.writeFinal
  }

  /** The store-store barrier a constructor that wrote a final field puts before its return. */
  function Fence(env: Env, c: Ctx): (r: Ctx)
    ensures !NeedsBarrier(env, c) ==> r == c
    ensures NeedsBarrier(env, c) ==> r == c.(block := c.block + [Node(c.next, MemBarrierInstr(STORE_STORE), None)], next := c.next + 1)
  {
    if NeedsBarrier(env, c) then Append(env, c, MemBarrierInstr(STORE_STORE)).0 else c
  }

  /** What `returnOp` does once the value is known: mask it, fence, and append the ReturnInstr. */
  function EmitReturn(env: Env, c: Ctx, val: Option<Value>): (r: Result<Ctx>)
    ensures r.Err? <==> ReturnMask(env.meth.returnKind).Some? && val.None?
    ensures r.Err? ==> r.error == NullPointer
    ensures r.Ok? ==> Flags(r.value) == Flags(c) && r.value.state == c.state && |r.value.block| > |c.block|
    ensures r.Ok? ==> var b := r.value.block; var last := b[|b| - 1];
      && last.op.ReturnInstr? && last.state == Some(c.state)
      && (ReturnMask(env.meth.returnKind).None? ==> last.op.returnValue == val)
      && (ReturnMask(env.meth.returnKind).Some? ==> last.op.returnValue.Some?)
      && (NeedsBarrier(env, c) ==> |b| >= 2 && b[|b| - 2].op == MemBarrierInstr(STORE_STORE))
  {
    var (c1, rv) :- MaskReturnValue(env, c, val);
    var c2 := Fence(env, c1);
    var c3 := Append(env, c2, ReturnInstr(rv)).0;
    assert c3.block == c2.block + [Node(c2.next, ReturnInstr(rv), Some(c.state))];
    Ok(c3)
  }

  /**
   * `returnOp`: pop the value (unless `return`), mask it for sub-integer
   * return kinds, fence constructors that wrote a final field, then append
   * the ReturnInstr.
   */
  function ReturnOp(env: Env, c: Ctx, kind: Kind, justReturn: bool): (r: Result<Ctx>)
    ensures r.Err? ==> OperandError(r.error)
    ensures r.Ok? ==> Flags(r.value) == Flags(c)
    ensures r.Ok? ==> justReturn || |c.state.stack| >= 1
    ensures r.Ok? ==> |r.value.block| > |c.block| && r.value.state == (if justReturn then c else Drop(c, 1)).state
    ensures r.Ok? ==> r.value.writeFinal == c.writeFinal && r.value.writeVolatile == c.writeVolatile
    ensures !justReturn && |c.state.stack| == 0 ==> r == Err(EmptyStack)
    ensures justReturn ==> r == EmitReturn(env, c, None)
    ensures !justReturn && |c.state.stack| > 0 ==> r == EmitReturn(env, Drop(c, 1), Some(Top(c, 1)[0]))
  {
    if justReturn then EmitReturn(env, c, None)
    else if |c.state.stack| == 0 then Err(EmptyStack)
    else
      var (c1, v) := PopValue(c).value;
      assert c1 == Drop(c, 1) && [v] == Top(c, 1);
      EmitReturn(env, c1, Some(v))
  }

  /**
   * Without value numbering, returning `v` from a method of a masked kind
   * appends exactly: the mask constant, `mask & v`, the barrier when the
   * constructor wrote a final field, and the return of the AND.
   */
  lemma ReturnMaskSequence(env: Env, c: Ctx, kind: Kind)
    requires |c.state.stack| >= 1 && ReturnMask(env.meth.returnKind).Some?
    requires forall op :: env.lvn(op).None?
    ensures ReturnOp(env, c, kind, false).Ok?
    ensures var r := ReturnOp(env, c, kind, false).value;
      var v := Top(c, 1)[0];
      var m := Value(c.next, Int, None);
      var and := Value(c.next + 1, Int, None);
      var tail := if NeedsBarrier(env, c)
        then [Node(c.next + 2, MemBarrierInstr(STORE_STORE), None),
              Node(c.next + 3, ReturnInstr(Some(and)), Some(Drop(c, 1).state))]
        else [Node(c.next + 2, ReturnInstr(Some(and)), Some(Drop(c, 1).state))];
      r.block == c.block + [Node(c.next, ConstantInstr(Int, ReturnMask(env.meth.returnKind).value), None),
                            Node(c.next + 1, LogicInstr(Int, IAND, m, v), None)] + tail
  {
    var c1 := Drop(c, 1);
    assert NeedsBarrier(env, c1) == NeedsBarrier(env, c);
    EmitMasked(env, c1, Top(c, 1)[0]);
  }

  /** The fence and the return appended after the (possibly masked) value is known, without value numbering. */
  lemma FenceAndReturn(env: Env, c: Ctx, rv: Option<Value>)
    requires forall op :: env.lvn(op).None?
    ensures var r := Append(env, Fence(env, c), ReturnInstr(rv)).0;
      r.block == c.block + (if NeedsBarrier(env, c)
        then [Node(c.next, MemBarrierInstr(STORE_STORE), None), Node(c.next + 1, ReturnInstr(rv), Some(c.state))]
        else [Node(c.next, ReturnInstr(rv), Some(c.state))])
  {
  }

  /** Masking without value numbering appends the mask constant and the AND. */
  lemma MaskAppends(env: Env, c: Ctx, v: Value)
    requires ReturnMask(env.meth.returnKind).Some?
    requires forall op :: env.lvn(op).None?
    ensures MaskReturnValue(env, c, Some(v)) == Ok((
      c.(block := c.block + [Node(c.next, ConstantInstr(Int, ReturnMask(env.meth.returnKind).value), None),
                             Node(c.next + 1, LogicInstr(Int, IAND, Value(c.next, Int, None), v), None)],
         next := c.next + 2),
      Some(Value(c.next + 1, Int, None))))
  {
    var a := Node(c.next, ConstantInstr(Int, ReturnMask(env.meth.returnKind).value), None);
    var b := Node(c.next + 1, LogicInstr(Int, IAND, Value(c.next, Int, None), v), None);
    assert c.block + [a] + [b] == c.block + [a, b];
  }

  /** `EmitReturn` for a masked kind, without value numbering. */
  lemma EmitMasked(env: Env, c: Ctx, v: Value)
    requires ReturnMask(env.meth.returnKind).Some?
    requires forall op :: env.lvn(op).None?
    ensures EmitReturn(env, c, Some(v)).Ok?
    ensures var m := Value(c.next, Int, None);
      var and := Value(c.next + 1, Int, None);
      var tail := if NeedsBarrier(env, c)
        then [Node(c.next + 2, MemBarrierInstr(STORE_STORE), None),
              Node(c.next + 3, ReturnInstr(Some(and)), Some(c.state))]
        else [Node(c.next + 2, ReturnInstr(Some(and)), Some(c.state))];
      EmitReturn(env, c, Some(v)).value.block
        == c.block + [Node(c.next, ConstantInstr(Int, ReturnMask(env.meth.returnKind).value), None),
                      Node(c.next + 1, LogicInstr(Int, IAND, m, v), None)] + tail
  {
    MaskAppends(env, c, v);
    var (c1, rv) := MaskReturnValue(env, c, Some(v)).value;
    assert NeedsBarrier(env, c1) == NeedsBarrier(env, c);
    FenceAndReturn(env, c1, rv);
  }

  /** Without value numbering, a kind with no mask returns the popped value itself, fenced or not. */
  lemma ReturnUnmaskedSequence(env: Env, c: Ctx, kind: Kind, justReturn: bool)
    requires justReturn || |c.state.stack| >= 1
    requires ReturnMask(env.meth.returnKind).None?
    requires forall op :: env.lvn(op).None?
    ensures ReturnOp(env, c, kind, justReturn).Ok?
    ensures var r := ReturnOp(env, c, kind, justReturn).value;
      var rv := if justReturn then None else Some(Top(c, 1)[0]);
      var s := (if justReturn then c else Drop(c, 1)).state;
      r.block == c.block + (if NeedsBarrier(env, c)
        then [Node(c.next, MemBarrierInstr(STORE_STORE), None), Node(c.next + 1, ReturnInstr(rv), Some(s))]
        else [Node(c.next, ReturnInstr(rv), Some(s))])
  {
    var c1 := if justReturn then c else Drop(c, 1);
    var rv := if justReturn then None else Some(Top(c, 1)[0]);
    assert ReturnOp(env, c, kind, justReturn) == EmitReturn(env, c1, rv);
    assert NeedsBarrier(env, c1) == NeedsBarrier(env, c);
    EmitUnmasked(env, c1, rv);
    FenceAndReturn(env, c1, rv);
  }

  /** Without a mask, `EmitReturn` is the fence followed by the return. */
  lemma EmitUnmasked(env: Env, c: Ctx, val: Option<Value>)
    requires ReturnMask(env.meth.returnKind).None?
    ensures EmitReturn(env, c, val) == Ok(Append(env, Fence(env, c), ReturnInstr(val)).0)
  {
    assert MaskReturnValue(env, c, val) == Ok((c, val));
  }

  // ----- fields, calls and allocation -----

  /** The stack entries a field access consumes. */
  function FieldOperands(access: B.FieldOp): nat {
    match access
    case GetStatic => 0
    case PutStatic => 1
    case GetField => 1
    case PutField => 2
  }

  /** An instruction value numbering never replaces is appended as it is. */
  lemma AppendImpure(env: Env, c: Ctx, op: Op)
    requires !IsPure(op)
    ensures Append(env, c, op) == (c.(block := c.block + [NodeFor(c, op)], next := c.next + 1), Value(c.next, ResultKind(op), None))
  {
  }

  /** The class constant a static access appends for the field's holder. */
  function StaticHolder(env: Env, c: Ctx, holder: TypeRef): (r: Ctx)
    ensures r == c.(block := r.block, next := c.next + 1)
    ensures r.block == c.block || r.block == c.block + [Node(c.next, ConstantInstr(Object, holder), None)]
  {
    Append(env, c, ConstantInstr(Object, holder)).0
  }

  /**
   * `getstatic`: the load reads through the holder constant itself (id
   * `c.next`), even when value numbering answers with a replacement.
   */
  function GetStaticField(env: Env, c: Ctx, field: Field, holder: TypeRef): (r: Ctx)
    ensures var h := Value(c.next, Object, None); var k := c.next + 1;
      && r.state.stack == c.state.stack + [Value(k, field.kind, None)]
      && (var load := Node(k, LoadFieldInstr(h, field), None);
          r.block == c.block + [load]
          || r.block == c.block + [Node(c.next, ConstantInstr(Object, holder), None), load])
      && r == c.(state := r.state, block := r.block, next := k + 1)
  {
    var c0 := StaticHolder(env, c, holder);
    AppendImpure(env, c0, LoadFieldInstr(Value(c.next, Object, None), field));
    Produce(env, c0, LoadFieldInstr(Value(c.next, Object, None), field), true)
  }

  /** `putstatic`: pops the value and stores it through the holder constant. */
  function PutStaticField(env: Env, c: Ctx, field: Field, holder: TypeRef): (r: Result<Ctx>)
    ensures r.Ok? <==> |c.state.stack| >= 1
    ensures r.Ok? ==> var s := c.state.stack; var n := |s|;
      var h := Value(c.next, Object, None); var k := c.next + 1;
      && r.value.state.stack == s[..n - 1]
      && (var store := Node(k, StoreFieldInstr(h, field, s[n - 1]), None);
          r.value.block == c.block + [store]
          || r.value.block == c.block + [Node(c.next, ConstantInstr(Object, holder), None), store])
      && r.value == c.(state := r.value.state, block := r.value.block, next := k + 1)
  {
    var c0 := StaticHolder(env, c, holder);
    var (c1, val) :- PopValue(c0);
    AppendImpure(env, c1, StoreFieldInstr(Value(c.next, Object, None), field, val));
    Ok(Produce(env, c1, StoreFieldInstr(Value(c.next, Object, None), field, val), false))
  }

  /** `getfield`: pops the object, pushes the loaded value. */
  function GetInstanceField(env: Env, c: Ctx, field: Field): (r: Result<Ctx>)
    ensures r.Ok? <==> |c.state.stack| >= 1
    ensures r.Ok? ==> var s := c.state.stack; var n := |s|;
      && r.value.state.stack == s[..n - 1] + [Value(c.next, field.kind, None)]
      && r.value.block == c.block + [Node(c.next, LoadFieldInstr(s[n - 1], field), None)]
      && r.value == c.(state := r.value.state, block := r.value.block, next := c.next + 1)
  {
    var (c1, obj) :- PopValue(c);
    AppendImpure(env, c1, LoadFieldInstr(obj, field));
    Ok(Produce(env, c1, LoadFieldInstr(obj, field), true))
  }

  /**
   * `putfield`: raises the write-final (write-volatile) flag when the
   * field is final (volatile), then pops the value and the object.
   */
  function PutInstanceField(env: Env, c: Ctx, field: Field): (r: Result<Ctx>)
    ensures r.Ok? <==> |c.state.stack| >= 2
    ensures r.Ok? ==> var s := c.state.stack; var n := |s|;
      && r.value.state.stack == s[..n - 2]
      && r.value.block == c.block + [Node(c.next, StoreFieldInstr(s[n - 2], field, s[n - 1]), None)]
      && r.value.writeFinal == (c.writeFinal || field.isFinal)
      && r.value.writeVolatile == (c.writeVolatile || field.isVolatile)
      && r.value.next == c.next + 1 && r.value.state.locals == c.state.locals
  {
    var c1 := c.(writeFinal := c.writeFinal || field.isFinal,
                 writeVolatile := c.writeVolatile || field.isVolatile);
    if |c1.state.stack| < 2 then Err(EmptyStack)
    else
      PopTwo(c1);
      var (c2, val) := PopValue(c1).value;
      var (c3, obj) := PopValue(c2).value;
      assert c3 == Drop(c1, 2) && [obj, val] == Top(c1, 2);
      var op := StoreFieldInstr(obj, field, val);
      AppendImpure(env, c3, op);
      assert !IsStateInstr(op);
      Ok(Produce(env, c3, op, false))
  }

  /** `accessField`: only a `putfield` touches the method's write flags. */
  function AccessField(env: Env, c: Ctx, access: B.FieldOp, field: Field, holder: TypeRef): (r: Result<Ctx>)
    ensures r.Err? ==> OperandError(r.error)
    ensures r.Ok? <==> |c.state.stack| >= FieldOperands(access)
    ensures r.Ok? ==> r.value.writeFinal == (c.writeFinal || (access.PutField? && field.isFinal))
    ensures r.Ok? ==> r.value.writeVolatile == (c.writeVolatile || (access.PutField? && field.isVolatile))
    ensures r.Ok? ==> r.value.state.locals == c.state.locals
  {
    match access
    case GetStatic => Ok(GetStaticField(env, c, field, holder))
    case PutStatic => PutStaticField(env, c, field, holder)
    case GetField => GetInstanceField(env, c, field)
    case PutField => PutInstanceField(env, c, field)
  }

  /** The stack entries a call consumes: the arguments, and the receiver when there is one. */
  function CallOperands(invoke: B.InvokeKind, callee: MethodRef): nat {
    |callee.params| + (if B.HasReceiver(invoke) then 1 else 0)
  }

  /**
   * The operands of `call` taken off the stack at once: the arguments in
   * declaration order on top, and below them the receiver for virtual,
   * special and interface calls.
   */
  function PopCallOperands(c: Ctx, invoke: B.InvokeKind, callee: MethodRef)
    : (r: Result<(Ctx, Option<Value>, seq<Value>)>)
    ensures r.Ok? <==> |c.state.stack| >= CallOperands(invoke, callee)
    ensures r.Ok? ==> var s := c.state.stack; var n := |s|; var a := |callee.params|;
      var m := CallOperands(invoke, callee);
      var (c2, receiver, args) := r.value;
      && args == s[n - a..]
      && c2 == c.(state := c.state.(stack := s[..n - m]))
      && receiver == (if B.HasReceiver(invoke) then Some(s[n - m]) else None)
  {
    var s := c.state.stack;
    var n := |s|;
    var m := CallOperands(invoke, callee);
    if n < m then Err(EmptyStack)
    else Ok((c.(state := c.state.(stack := s[..n - m])),
             if B.HasReceiver(invoke) then Some(s[n - m]) else None,
             s[n - |callee.params|..]))
  }

  /**
   * The pops `call` performs, one at a time: the arguments, the last one
   * first so that the list keeps declaration order, then the receiver.
   */
  function PopArgsThenReceiver(c: Ctx, invoke: B.InvokeKind, callee: MethodRef)
    : Result<(Ctx, Option<Value>, seq<Value>)>
  {
    var (c1, args) :- PopValues(c, |callee.params|);
    if B.HasReceiver(invoke) then
      var (c2, receiver) :- PopValue(c1);
      Ok((c2, Some(receiver), args))
    else
      Ok((c1, None, args))
  }

  /** Popping the arguments one by one and then the receiver takes exactly the operands the call consumes. */
  lemma PopsTakeCallOperands(c: Ctx, invoke: B.InvokeKind, callee: MethodRef)
    ensures PopArgsThenReceiver(c, invoke, callee) == PopCallOperands(c, invoke, callee)
  {
    var s := c.state.stack;
    var n := |s|;
    var a := |callee.params|;
    if n < a {
      assert PopValues(c, a) == Err(EmptyStack);
      assert PopArgsThenReceiver(c, invoke, callee) == Err(EmptyStack);
    } else {
      var (c1, args) := PopValues(c, a).value;
      assert args == s[n - a..] && c1.state.stack == s[..n - a] by {
        assert c1.state.stack + args == s;
      }
      assert c1 == c.(state := c.state.(stack := s[..n - a]));
      if !B.HasReceiver(invoke) {
        assert PopArgsThenReceiver(c, invoke, callee) == Ok((c1, None, args));
      } else if n == a {
        PopAfterArgs(c, c1, s, a);
        assert PopArgsThenReceiver(c, invoke, callee) == Err(EmptyStack);
      } else {
        PopAfterArgs(c, c1, s, a);
        var c2 := c.(state := c.state.(stack := s[..n - a - 1]));
        assert PopArgsThenReceiver(c, invoke, callee) == Ok((c2, Some(s[n - a - 1]), args));
      }
    }
  }

  /** The receiver pop that follows the argument pops. */
  lemma PopAfterArgs(c: Ctx, c1: Ctx, s: seq<Value>, a: nat)
    requires s == c.state.stack && a <= |s|
    requires c1 == c.(state := c.state.(stack := s[..|s| - a]))
    ensures |s| == a ==> PopValue(c1).Err?
    ensures |s| > a ==> PopValue(c1) == Ok((c.(state := c.state.(stack := s[..|s| - a - 1])), s[|s| - a - 1]))
  {
    if |s| > a {
      var (c2, receiver) := PopValue(c1).value;
      assert c2.state.stack == s[..|s| - a - 1] && receiver == s[|s| - a - 1] by {
        assert c2.state.stack + [receiver] == c1.state.stack;
      }
    }
  }

  /**
   * `call`: snapshot, pop the operands, append the CallInstr with the
   * decayed return kind and push its value unless the callee returns void.
   * A CallInstr is never pure, so appending it is the plain append of
   * `AppendImpure`.
   */
  function Call(env: Env, c: Ctx, invoke: B.InvokeKind, callee: MethodRef): (r: Result<Ctx>)
    ensures r.Err? ==> OperandError(r.error)
    ensures r.Ok? ==> Flags(r.value) == Flags(c)
    ensures r.Ok? <==> |c.state.stack| >= CallOperands(invoke, callee)
    ensures r.Ok? ==> var s := c.state.stack; var n := |s|;
      var m := CallOperands(invoke, callee);
      r.value.block == c.block + [Node(c.next,
        CallInstr(Decay(callee.returnKind), c.state,
                  if B.HasReceiver(invoke) then Some(s[n - m]) else None,
                  s[n - |callee.params|..], callee, B.InvokeOpcode(invoke)),
        Some(c.state.(stack := s[..n - m])))]
    ensures r.Ok? ==> var s := c.state.stack; var n := |s|;
      var m := CallOperands(invoke, callee);
      r.value.state.stack == s[..n - m]
        + (if callee.returnKind != Void then [Value(c.next, Decay(callee.returnKind), None)] else [])
    ensures r.Ok? ==> r.value == c.(state := r.value.state, block := r.value.block, next := c.next + 1)
  {
    if |c.state.stack| < CallOperands(invoke, callee) then Err(EmptyStack)
    else
      var s := c.state.stack;
      var m := CallOperands(invoke, callee);
      var popped := PopCallOperands(c, invoke, callee).value;
      var after := c.state.(stack := s[..|s| - m]);
      assert popped.0 == c.(state := after);
      assert popped.1 == (if B.HasReceiver(invoke) then Some(s[|s| - m]) else None);
      assert popped.2 == s[|s| - |callee.params|..];
      var op := CallInstr(Decay(callee.returnKind), c.state, popped.1, popped.2, callee, B.InvokeOpcode(invoke));
      var c3 := popped.0.(block := c.block + [Node(c.next, op, Some(after))], next := c.next + 1);
      Ok(if callee.returnKind != Void then PushValue(c3, Value(c.next, Decay(callee.returnKind), None)) else c3)
  }

  /** `multiNewArray`: snapshot, pop one length per dimension (the outermost deepest), push the array. */
  function MultiNewArray(env: Env, c: Ctx, klass: TypeRef, dimensions: nat): (r: Result<Ctx>)
    ensures r.Err? ==> OperandError(r.error)
    ensures r.Ok? ==> Flags(r.value) == Flags(c)
    ensures r.Ok? <==> |c.state.stack| >= dimensions
    ensures r.Ok? ==> var s := c.state.stack; var n := |s|;
      && r.value.block == c.block + [Node(c.next,
           NewMultiArrayInstr(c.state, klass, s[n - dimensions..]), Some(c.state.(stack := s[..n - dimensions])))]
      && r.value.state.stack == s[..n - dimensions] + [Value(c.next, Object, None)]
      && r.value.state.locals == c.state.locals
  {
    var before := c.state;
    var (c1, dims) :- PopValues(c, dimensions);
    assert dims == c.state.stack[|c.state.stack| - dimensions..] by {
      assert c1.state.stack + dims == c.state.stack;
    }
    Ok(Produce(env, c1, NewMultiArrayInstr(before, klass, dims), true))
  }

  /** `newInstance` */
  function NewInstance(env: Env, c: Ctx, klass: TypeRef): (r: Ctx)
    ensures Flags(r) == Flags(c)
    ensures r.block == c.block + [Node(c.next, NewInstr(c.state, klass), Some(c.state))]
    ensures r.state.stack == c.state.stack + [Value(c.next, Object, None)] && r.state.locals == c.state.locals
  {
    Produce(env, c, NewInstr(c.state, klass), true)
  }

  /**
   * The allocation and type-test shapes that pop one operand after the
   * snapshot and push one result: `newTypeArray`, `newObjectArray`,
   * `checkCast`, `instanceOf`; and `arrayLength`, which has no snapshot.
   */
  function PopOnePushOne(env: Env, c: Ctx, mk: Value -> Op): (r: Result<Ctx>)
    ensures r.Err? ==> OperandError(r.error)
    ensures r.Ok? ==> Flags(r.value) == Flags(c)
    requires forall v :: !IsPure(mk(v))
    ensures r.Ok? <==> |c.state.stack| >= 1
    ensures r.Ok? ==> var s := c.state.stack; var n := |s|; var op := mk(s[n - 1]);
      && r.value.block == c.block + [Node(c.next, op, if IsStateInstr(op) then Some(c.state.(stack := s[..n - 1])) else None)]
      && r.value.state.stack == s[..n - 1] + [Value(c.next, ResultKind(op), None)]
      && r.value.state.locals == c.state.locals
  {
    Unary(env, c, mk, true)
  }

  /** `athrow`: snapshot, pop the exception, append the ThrowInstr. */
  function Throw(env: Env, c: Ctx): (r: Result<Ctx>)
    ensures r.Err? ==> OperandError(r.error)
    ensures r.Ok? ==> Flags(r.value) == Flags(c)
    ensures r.Ok? <==> |c.state.stack| >= 1
    ensures r.Ok? ==> var s := c.state.stack; var n := |s|;
      && r.value.block == c.block + [Node(c.next, ThrowInstr(c.state, s[n - 1]), Some(c.state.(stack := s[..n - 1])))]
      && r.value.state.stack == s[..n - 1]
  {
    Unary(env, c, e => ThrowInstr(c.state, e), false)
  }

  /**
   * `monitorEnter`: pop the object and only then snapshot, so that the
   * attached state no longer holds the object.
   */
  function MonitorEnter(env: Env, c: Ctx): (r: Result<Ctx>)
    ensures r.Err? ==> OperandError(r.error)
    ensures r.Ok? ==> Flags(r.value) == Flags(c)
    ensures r.Ok? <==> |c.state.stack| >= 1
    ensures r.Ok? ==> var s := c.state.stack; var n := |s|; var after := c.state.(stack := s[..n - 1]);
      && r.value.block == c.block + [Node(c.next, MonitorEnterInstr(after, s[n - 1]), Some(after))]
      && r.value.state == after
  {
    var (c1, obj) :- PopValue(c);
    Ok(Produce(env, c1, MonitorEnterInstr(c1.state, obj), false))
  }

  /** `monitorExit`: appends the exit and leaves the stack alone. */
  function MonitorExit(env: Env, c: Ctx): (r: Ctx)
    ensures Flags(r) == Flags(c)
    ensures r.block == c.block + [Node(c.next, MonitorExitInstr, None)] && r.state == c.state
  {
    Produce(env, c, MonitorExitInstr, false)
  }

  // ----- the interpreter loop -----

  /** Bytecodes that only move values between the stack and the locals, or push constants. */
  predicate IsStackOp(bc: B.Bytecode) {
    bc.Nop? || bc.PushConstant? || bc.Ldc? || bc.LoadLocal? || bc.StoreLocal? || bc.Pop? || bc.Pop2?
    || bc.Duplicate? || bc.Swap? || bc.Iinc?
  }

  /** Bytecodes that compute on popped operands. */
  predicate IsComputeOp(bc: B.Bytecode) {
    bc.LoadElement? || bc.StoreElement? || bc.Arithmetic? || bc.Negate? || bc.Shift? || bc.Logic?
    || bc.Convert? || bc.Compare?
  }

  /** Bytecodes that end a block, and the unsupported subroutine bytecodes. */
  predicate IsControlOp(bc: B.Bytecode) {
    bc.IfZero? || bc.IfNull? || bc.IfCompare? || bc.Goto? || bc.Jsr? || bc.Ret? || bc.JsrW?
    || bc.TableSwitch? || bc.LookupSwitch? || bc.Return? || bc.ReturnVoid? || bc.AThrow?
  }

  function InterpretStackOp(env: Env, c: Ctx, bc: B.Bytecode): (r: Result<Ctx>)
    requires IsStackOp(bc)
    ensures r.Err? ==> OperandError(r.error)
    ensures r.Ok? ==> Flags(r.value) == Flags(c)
  {
    match bc
    case Nop => Ok(c)
    case PushConstant(kind, bits) => Ok(LoadConst(env, c, kind, bits))
    case Ldc(item) => LoadPoolConstant(env, c, item)
    case LoadLocal(kind, index) => Load(c, kind, index)
    case StoreLocal(kind, index) => Store(c, kind, index)
    case Pop => var p :- PopValue(c); Ok(p.0)
    case Pop2 => var p :- PopValues(c, 2); Ok(p.0)
    case Duplicate(form) => DuplicateTop(c, form)
    case Swap => SwapTop(c)
    case Iinc(index, delta) => Increment(env, c, index, delta)
  }

  function InterpretComputeOp(env: Env, c: Ctx, bc: B.Bytecode): (r: Result<Ctx>)
    requires IsComputeOp(bc)
    ensures r.Err? ==> OperandError(r.error)
    ensures r.Ok? ==> Flags(r.value) == Flags(c)
  {
    match bc
    case LoadElement(kind) => LoadArray(env, c, kind)
    case StoreElement(kind) => StoreArray(env, c, kind)
    case Arithmetic(kind, opcode) => Binary(env, c, (l, r) => ArithmeticInstr(kind, opcode, l, r))
    case Negate(kind) => Unary(env, c, v => NegateInstr(kind, v), true)
    case Shift(kind, opcode) => Binary(env, c, (l, r) => ShiftInstr(kind, opcode, l, r))
    case Logic(kind, opcode) => Binary(env, c, (l, r) => LogicInstr(kind, opcode, l, r))
    case Convert(from, to, opcode) => TypeCast(env, c, from, to, opcode)
    case Compare(_, opcode) => Binary(env, c, (l, r) => CompareInstr(opcode, l, r))
  }

  function InterpretControlOp(env: Env, c: Ctx, bc: B.Bytecode): (r: Result<Ctx>)
    requires IsControlOp(bc)
    ensures r == Err(Unimplemented) <==> bc.Jsr? || bc.Ret? || bc.JsrW?
    ensures r.Err? && !(bc.Jsr? || bc.Ret? || bc.JsrW?) ==> OperandError(r.error)
    ensures r.Ok? ==> Flags(r.value) == Flags(c)
  {
    match bc
    case IfZero(cond, target, fallThrough) => BranchAgainstConstant(env, c, cond, Int, target, fallThrough)
    case IfNull(cond, target, fallThrough) => BranchAgainstConstant(env, c, cond, Object, target, fallThrough)
    case IfCompare(_, cond, target, fallThrough) => BranchIfSame(env, c, cond, target, fallThrough)
    case Goto(target) => Ok(GoTo(env, c, target))
    case Jsr => Err(Unimplemented)
    case Ret => Err(Unimplemented)
    case JsrW => Err(Unimplemented)
    case TableSwitch(lowKey, targets, defaultTarget) => TableSwitch(env, c, lowKey, targets, defaultTarget)
    case LookupSwitch(cases, defaultTarget) => LookupSwitch(env, c, cases, defaultTarget)
    case Return(kind) => ReturnOp(env, c, kind, false)
    case ReturnVoid => ReturnOp(env, c, Void, true)
    case AThrow => Throw(env, c)
  }

  /** `new`, `multianewarray`, `monitorenter`, `monitorexit`. */
  function AllocOrMonitorOp(env: Env, c: Ctx, bc: B.Bytecode): (r: Result<Ctx>)
    requires bc.New? || bc.MultiANewArray? || bc.MonitorEnter? || bc.MonitorExit?
    ensures r.Err? ==> OperandError(r.error)
    ensures r.Ok? ==> Flags(r.value) == Flags(c)
  {
    match bc
    case New(klass) => Ok(NewInstance(env, c, klass))
    case MultiANewArray(klass, dimensions) => MultiNewArray(env, c, klass, dimensions)
    case MonitorEnter => MonitorEnter(env, c)
    case MonitorExit => Ok(MonitorExit(env, c))
  }

  /** `newarray`, `anewarray`, `arraylength`, `checkcast`, `instanceof`: pop one operand, push the instruction's value. */
  function ArrayOrTypeOp(env: Env, c: Ctx, bc: B.Bytecode): (r: Result<Ctx>)
    requires bc.NewArray? || bc.ANewArray? || bc.ArrayLength? || bc.CheckCast? || bc.InstanceOf?
    ensures r.Err? ==> OperandError(r.error)
    ensures r.Ok? ==> Flags(r.value) == Flags(c)
    ensures r.Ok? <==> |c.state.stack| >= 1
  {
    match bc
    case NewArray(elem) => PopOnePushOne(env, c, len => NewTypeArrayInstr(c.state, len, elem))
    case ANewArray(klass) => PopOnePushOne(env, c, len => NewObjectArrayInstr(c.state, len, klass))
    case ArrayLength => PopOnePushOne(env, c, arr => ArrayLenInstr(arr))
    case CheckCast(klass) => PopOnePushOne(env, c, obj => CheckCastInstr(c.state, klass, obj))
    case InstanceOf(klass) => PopOnePushOne(env, c, obj => InstanceOfInstr(c.state, klass, obj))
  }

  /** Field access, calls, allocation, type tests, monitors, and the opcodes the builder rejects. */
  function InterpretObjectOp(env: Env, c: Ctx, bc: B.Bytecode): (r: Result<Ctx>)
    requires !IsStackOp(bc) && !IsComputeOp(bc) && !IsControlOp(bc)
    ensures bc.Wide? || bc.Unknown? ==> r == Err(ShouldNotReachHere)
    ensures !bc.Wide? && !bc.Unknown? ==> (r.Err? ==> OperandError(r.error))
    ensures r.Ok? ==> r.value.writeFinal == (c.writeFinal || WritesFinal(bc))
    ensures r.Ok? ==> r.value.writeVolatile == (c.writeVolatile || WritesVolatile(bc))
  {
    match bc
    case AccessField(access, field, holder) => AccessField(env, c, access, field, holder)
    case Invoke(invoke, callee) => Call(env, c, invoke, callee)
    case New(_) => AllocOrMonitorOp(env, c, bc)
    case NewArray(_) => ArrayOrTypeOp(env, c, bc)
    case ANewArray(_) => ArrayOrTypeOp(env, c, bc)
    case ArrayLength => ArrayOrTypeOp(env, c, bc)
    case CheckCast(_) => ArrayOrTypeOp(env, c, bc)
    case InstanceOf(_) => ArrayOrTypeOp(env, c, bc)
    case MonitorEnter => AllocOrMonitorOp(env, c, bc)
    case MonitorExit => AllocOrMonitorOp(env, c, bc)
    case Wide => Err(ShouldNotReachHere)
    case MultiANewArray(_, _) => AllocOrMonitorOp(env, c, bc)
    case Unknown(_) => Err(ShouldNotReachHere)
  }

  /**
   * One iteration of `fulfillBlock`'s dispatch: `jsr`, `ret` and `jsr_w`
   * are unimplemented; `wide` and opcodes outside the table should not
   * reach the builder; only a `putfield` of a final (volatile) field
   * raises the write-final (write-volatile) flag.
   */
  function Interpret(env: Env, c: Ctx, bc: B.Bytecode): (r: Result<Ctx>)
    ensures IsSubroutineOp(bc) ==> r == Err(Unimplemented)
    ensures bc.Wide? || bc.Unknown? ==> r == Err(ShouldNotReachHere)
    ensures !IsSubroutineOp(bc) && !bc.Wide? && !bc.Unknown? ==> (r.Err? ==> OperandError(r.error))
    ensures r.Ok? ==> r.value.writeFinal == (c.writeFinal || WritesFinal(bc))
    ensures r.Ok? ==> r.value.writeVolatile == (c.writeVolatile || WritesVolatile(bc))
  {
    if IsStackOp(bc) then InterpretStackOp(env, c, bc)
    else if IsComputeOp(bc) then InterpretComputeOp(env, c, bc)
    else if IsControlOp(bc) then InterpretControlOp(env, c, bc)
    else InterpretObjectOp(env, c, bc)
  }

  /** A `putfield` of a final field. */
  predicate WritesFinal(bc: B.Bytecode) {
    bc.AccessField? && bc.access.PutField? && bc.field.isFinal
  }

  /** A `putfield` of a volatile field. */
  predicate WritesVolatile(bc: B.Bytecode) {
    bc.AccessField? && bc.access.PutField? && bc.field.isVolatile
  }

  /** `jsr`, `ret`, `jsr_w`. */
  predicate IsSubroutineOp(bc: B.Bytecode) {
    bc.Jsr? || bc.Ret? || bc.JsrW?
  }

  /**
   * The loop of `fulfillBlock` over a block's bytecodes. The method-level
   * write-final flag ends up raised exactly when it was raised before or
   * the code holds a `putfield` of a final field (and the code ran to the
   * end); an unimplemented-opcode failure names a subroutine bytecode of
   * the code.
   */
  function {:induction false} Run(env: Env, c: Ctx, code: seq<B.Bytecode>): (r: Result<Ctx>)
    decreases |code|
    ensures r.Ok? ==> r.value.writeFinal == (c.writeFinal || exists i :: 0 <= i < |code| && WritesFinal(code[i]))
    ensures r == Err(Unimplemented) ==> exists i :: 0 <= i < |code| && IsSubroutineOp(code[i])
    ensures (forall i :: 0 <= i < |code| ==> !IsSubroutineOp(code[i]) && !code[i].Wide? && !code[i].Unknown?)
      ==> r.Err? ==> OperandError(r.error)
  {
    if |code| == 0 then Ok(c)
    else
      var c1 :- Interpret(env, c, code[0]);
      SplitFirst(code);
      Run(env, c1, code[1..])
  }

  /** What a property of some (every) bytecode means for the head and the rest. */
  lemma SplitFirst(code: seq<B.Bytecode>)
    requires |code| > 0
    ensures (exists i :: 0 <= i < |code| && WritesFinal(code[i]))
      <==> WritesFinal(code[0]) || exists i :: 0 <= i < |code[1..]| && WritesFinal(code[1..][i])
    ensures (exists i :: 0 <= i < |code| && IsSubroutineOp(code[i]))
      <==> IsSubroutineOp(code[0]) || exists i :: 0 <= i < |code[1..]| && IsSubroutineOp(code[1..][i])
  {
    if exists i :: 0 <= i < |code| && WritesFinal(code[i]) {
      var i :| 0 <= i < |code| && WritesFinal(code[i]);
      if i > 0 { assert WritesFinal(code[1..][i - 1]); }
    }
    if exists i :: 0 <= i < |code| && IsSubroutineOp(code[i]) {
      var i :| 0 <= i < |code| && IsSubroutineOp(code[i]);
      if i > 0 { assert IsSubroutineOp(code[1..][i - 1]); }
    }
  }

  /**
   * `fulfillBlock` up to the block end: run the block's bytecodes, then,
   * when the last appended instruction is not a block end (a back edge
   * split a straight-line run), append a goto to the block holding the
   * next bytecode, or the block holding bci 0 when there is none (`nextBci`
   * is -1). The result always ends with a block end.
   */
  function FulfillBlock(env: Env, c: Ctx, code: seq<B.Bytecode>, nextBci: int): (r: Result<Ctx>)
    ensures r.Ok? <==> Run(env, c, code).Ok?
    ensures r.Ok? ==> LastNode(r.value).Some? && IsBlockEnd(LastNode(r.value).value.op)
    ensures r.Ok? ==> var ran := Run(env, c, code).value;
      if LastNode(ran).Some? && IsBlockEnd(LastNode(ran).value.op) then r.value == ran
      else r.value.block == ran.block + [Node(ran.next,
             GotoInstr(env.blockContaining(if nextBci == -1 then 0 else nextBci)), Some(ran.state))]
           && r.value.state == ran.state
  {
    var ran :- Run(env, c, code);
    var last := LastNode(ran);
    if last.Some? && IsBlockEnd(last.value.op) then Ok(ran)
    else Ok(GoTo(env, ran, if nextBci == -1 then 0 else nextBci))
  }

  // ----- the entry state -----

  /** The kinds of the entry slots: the receiver first (as an Object), then each parameter. */
  function EntryKinds(m: Method): (ks: seq<Kind>)
    ensures |ks| == |m.params| + (if m.hasReceiver then 1 else 0)
  {
    (if m.hasReceiver then [Object] else []) + m.params
  }

  /** Stores one fresh parameter value per kind into consecutive slots from `from`. */
  function {:induction false} SetParams(s: VmState, kinds: seq<Kind>, from: nat, next: nat): (r: Result<VmState>)
    decreases |kinds|
    ensures r.Ok? <==> |kinds| == 0 || from + |kinds| <= |s.locals|
    ensures r.Err? ==> r.error == IndexOutOfBounds
    ensures r.Ok? ==> r.value.stack == s.stack && |r.value.locals| == |s.locals|
    ensures r.Ok? ==> forall j :: from <= j < from + |kinds| ==>
      r.value.locals[j] == Some(Value(next + (j - from), kinds[j - from], None))
    ensures r.Ok? ==> forall j :: 0 <= j < |s.locals| && !(from <= j < from + |kinds|) ==>
      r.value.locals[j] == s.locals[j]
  {
    if |kinds| == 0 then Ok(s)
    else
      var s1 :- Set(s, from, Value(next, kinds[0], None));
      SetParams(s1, kinds[1..], from + 1, next + 1)
  }

  /**
   * `createEntryVmState`: an empty stack, the receiver (when there is one)
   * in slot 0, then the parameters in consecutive slots, one slot each;
   * the ParamInstrs take ids from `next` on. The remaining slots are null.
   */
  function EntryState(m: Method, next: nat): (r: Result<VmState>)
    ensures r.Ok? <==> |EntryKinds(m)| <= m.maxLocals
    ensures r.Ok? ==> |r.value.stack| == 0 && |r.value.locals| == m.maxLocals
    ensures r.Ok? && m.hasReceiver ==> r.value.locals[0] == Some(Value(next, Object, None))
    ensures r.Ok? ==> var base := if m.hasReceiver then 1 else 0;
      forall i :: 0 <= i < |m.params| ==> r.value.locals[base + i] == Some(Value(next + base + i, m.params[i], None))
    ensures r.Ok? ==> forall j :: |EntryKinds(m)| <= j < m.maxLocals ==> r.value.locals[j].None?
  {
    EntryKindsLayout(m);
    SetParams(SizedState(m.maxLocals), EntryKinds(m), 0, next)
  }

  lemma EntryKindsLayout(m: Method)
    ensures m.hasReceiver ==> EntryKinds(m)[0] == Object
    ensures var base := if m.hasReceiver then 1 else 0;
      forall i :: 0 <= i < |m.params| ==> EntryKinds(m)[base + i] == m.params[i]
  {
  }
}
