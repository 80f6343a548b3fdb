/**
 * The symbolic execution state at one program point: operand stack and
 * local slots. The lock stack is not part of the model.
 */
module VmStates {
  import opened Wrappers
  import opened Values

  /** stack: bottom first, top last. locals: `None` is a null (empty) slot. */
  datatype VmState = VmState(stack: seq<Value>, locals: seq<Option<Value>>)

  /**
   * `new VmState(stackSize, localSize)`: both sizes are only capacity hints
   * of the Java collections, so the state starts with no stack entries and
   * no local slots at all.
   */
  function NewState(maxStack: nat, maxLocals: nat): (s: VmState)
    ensures |s.stack| == 0 && |s.locals| == 0
  {
    VmState([], [])
  }

  /**
   * The state the builder relies on (its `getLocal()` is an array): an empty
   * stack and `maxLocals` null local slots.
   */
  function SizedState(maxLocals: nat): (s: VmState)
    ensures |s.stack| == 0 && |s.locals| == maxLocals
    ensures forall i :: 0 <= i < |s.locals| ==> s.locals[i].None?
  {
    VmState([], seq(maxLocals, _ => None))
  }

  function Push(s: VmState, v: Value): (r: VmState)
    ensures |r.stack| == |s.stack| + 1 && r.stack[|s.stack|] == v
    ensures r.stack[..|s.stack|] == s.stack && r.locals == s.locals
  {
    VmState(s.stack + [v], s.locals)
  }

  /** `stack.pop()`: fails on an empty stack, otherwise yields the top and the rest. */
  function Pop(s: VmState): (r: Result<(VmState, Value)>)
    ensures r.Err? <==> |s.stack| == 0
    ensures r.Err? ==> r.error == EmptyStack
    ensures r.Ok? ==> r.value.0.stack + [r.value.1] == s.stack && r.value.0.locals == s.locals
  {
    if |s.stack| == 0 then Err(EmptyStack)
    else Ok((VmState(s.stack[..|s.stack| - 1], s.locals), s.stack[|s.stack| - 1]))
  }

  /** `local.set(index, v)`: only slots that already exist can be written. */
  function Set(s: VmState, index: nat, v: Value): (r: Result<VmState>)
    ensures r.Err? <==> index >= |s.locals|
    ensures r.Ok? ==> r.value.stack == s.stack && |r.value.locals| == |s.locals|
    ensures r.Ok? ==> r.value.locals[index] == Some(v)
    ensures r.Ok? ==> forall j :: 0 <= j < |s.locals| && j != index ==> r.value.locals[j] == s.locals[j]
  {
    if index < |s.locals| then Ok(VmState(s.stack, s.locals[index := Some(v)]))
    else Err(IndexOutOfBounds)
  }

  /** `local.get(index)`: the slot's content, which may be null. */
  function Get(s: VmState, index: nat): (r: Result<Option<Value>>)
    ensures r.Err? <==> index >= |s.locals|
    ensures r.Ok? ==> r.value == s.locals[index]
  {
    if index < |s.locals| then Ok(s.locals[index]) else Err(IndexOutOfBounds)
  }

  /** Pushing then popping gives back the pushed value and the original state. */
  lemma PushPop(s: VmState, v: Value)
    ensures Pop(Push(s, v)) == Ok((s, v))
  {
    assert (s.stack + [v])[..|s.stack|] == s.stack;
  }

  /** Popping then pushing the popped value back restores the state. */
  lemma PopPush(s: VmState)
    requires |s.stack| > 0
    ensures Pop(s).Ok? && Push(Pop(s).value.0, Pop(s).value.1) == s
  {
  }

  /** A written slot reads back the written value; every other slot is untouched. */
  lemma SetGet(s: VmState, i: nat, j: nat, v: Value)
    requires i < |s.locals| && j < |s.locals|
    ensures Set(s, i, v).Ok?
    ensures Get(Set(s, i, v).value, i) == Ok(Some(v))
    ensures j != i ==> Get(Set(s, i, v).value, j) == Get(s, j)
  {
  }

  /** A fresh state rejects every `set` and every `get`. */
  lemma NewStateHasNoSlots(maxStack: nat, maxLocals: nat, i: nat, v: Value)
    ensures Set(NewState(maxStack, maxLocals), i, v) == Err(IndexOutOfBounds)
    ensures Get(NewState(maxStack, maxLocals), i) == Err(IndexOutOfBounds)
    ensures Pop(NewState(maxStack, maxLocals)) == Err(EmptyStack)
  {
  }

  /** `lockPush(object)`: a stub that always answers lock index 0 and records nothing. */
  function LockPush(s: VmState, obj: Value): (r: (int, VmState))
    ensures r.0 == 0 && r.1 == s
  {
    (0, s)
  }

  /** `lockPop()`: a stub that always answers 0 and records nothing. */
  function LockPop(s: VmState): (r: (int, VmState))
    ensures r.0 == 0 && r.1 == s
  {
    (0, s)
  }

  /** Locking and unlocking leave the operand stack and the locals exactly as they were. */
  lemma LockPushPopIsInvisible(s: VmState, obj: Value)
    ensures LockPush(s, obj).0 == 0 && LockPop(s).0 == 0
    ensures LockPop(LockPush(s, obj).1).1 == s
    ensures Pop(LockPush(s, obj).1) == Pop(s)
    ensures forall i: nat :: Get(LockPop(s).1, i) == Get(s, i)
  {
  }
}
