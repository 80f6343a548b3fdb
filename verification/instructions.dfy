/**
 * The high-level IR instructions the builder creates, one constructor per
 * instruction class, with the operand shapes the builder passes them.
 */
module Instrs {
  import opened Wrappers
  import opened Values
  import opened VmStates

  /** JVM opcodes the builder itself plants into instructions. */
  const IADD: int := 0x60
  const IAND: int := 0x7e

  /** jdk.vm.ci.code.MemoryBarriers.STORE_STORE */
  const STORE_STORE: int := 0x0008

  datatype Cond = EQ | NE | LT | GE | GT | LE

  /** A resolved field (the JVMCI lookup is outside the model). */
  datatype Field = Field(offset: int, kind: Kind, isFinal: bool, isVolatile: bool)

  /** A resolved call target with its signature (receiver not counted). */
  datatype MethodRef = MethodRef(target: nat, params: seq<Kind>, returnKind: Kind)

  /** A resolved class or array type, abstracted to an identifier. */
  type TypeRef = nat

  datatype Op =
    | ConstantInstr(kind: Kind, bits: int)
    | ArithmeticInstr(kind: Kind, opcode: int, left: Value, right: Value)
    | NegateInstr(kind: Kind, operand: Value)
    | ShiftInstr(kind: Kind, opcode: int, left: Value, right: Value)
    | LogicInstr(kind: Kind, opcode: int, left: Value, right: Value)
    | TypeCastInstr(opcode: int, from: Value, toKind: Kind)
    | CompareInstr(opcode: int, left: Value, right: Value)
    | LoadIndexInstr(array: Value, index: Value, elem: Kind)
    | StoreIndexInstr(array: Value, index: Value, elem: Kind, value: Value)
    | LoadFieldInstr(object: Value, field: Field)
    | StoreFieldInstr(object: Value, field: Field, value: Value)
    | CallInstr(returnKind: Kind, before: VmState, receiver: Option<Value>,
                arguments: seq<Value>, callee: MethodRef, opcode: int)
    | NewInstr(before: VmState, klass: TypeRef)
    | NewTypeArrayInstr(before: VmState, length: Value, elem: Kind)
    | NewObjectArrayInstr(before: VmState, length: Value, klass: TypeRef)
    | NewMultiArrayInstr(before: VmState, klass: TypeRef, dimensions: seq<Value>)
    | ArrayLenInstr(array: Value)
    | CheckCastInstr(before: VmState, klass: TypeRef, object: Value)
    | InstanceOfInstr(before: VmState, klass: TypeRef, object: Value)
    | MonitorEnterInstr(before: VmState, object: Value)
    | MonitorExitInstr
    | MemBarrierInstr(barrier: int)
    | IfInstr(before: VmState, ifTrue: nat, ifFalse: nat, left: Value, right: Value, cond: Cond)
    | GotoInstr(target: nat)
    | TableSwitchInstr(before: VmState, successors: seq<nat>, index: Value, lowKey: int)
    | LookupSwitchInstr(before: VmState, successors: seq<nat>, index: Value, keys: seq<int>)
    | ReturnInstr(returnValue: Option<Value>)
    | ThrowInstr(before: VmState, exception: Value)

  /** An appended instruction: its identity, what it is and the state attached on append. */
  datatype Node = Node(id: nat, op: Op, state: Option<VmState>)

  /** BlockEndInstr subclasses. */
  predicate IsBlockEnd(op: Op) {
    op.IfInstr? || op.GotoInstr? || op.TableSwitchInstr? || op.LookupSwitchInstr?
    || op.ReturnInstr? || op.ThrowInstr?
  }

  /** StateInstr subclasses: every instruction built with a state slot, and all block ends. */
  predicate IsStateInstr(op: Op) {
    IsBlockEnd(op) || op.CallInstr? || op.NewInstr? || op.NewTypeArrayInstr?
    || op.NewObjectArrayInstr? || op.NewMultiArrayInstr? || op.CheckCastInstr?
    || op.InstanceOfInstr? || op.MonitorEnterInstr?
  }

  /** Side-effect-free instructions, the only ones value numbering may replace. */
  predicate IsPure(op: Op) {
    op.ConstantInstr? || op.ArithmeticInstr? || op.NegateInstr? || op.ShiftInstr?
    || op.LogicInstr? || op.TypeCastInstr? || op.CompareInstr?
  }

  /** The result kind each instruction class passes to its superclass. */
  function ResultKind(op: Op): Kind {
    match op
    case ConstantInstr(k, _) => k
    case ArithmeticInstr(k, _, _, _) => k
    case NegateInstr(k, _) => k
    case ShiftInstr(k, _, _, _) => k
    case LogicInstr(k, _, _, _) => k
    case TypeCastInstr(_, _, k) => k
    case CompareInstr(_, _, _) => Int
    case LoadIndexInstr(_, _, k) => k
    case LoadFieldInstr(_, f) => f.kind
    case CallInstr(k, _, _, _, _, _) => k
    case NewInstr(_, _) => Object
    case NewTypeArrayInstr(_, _, _) => Object
    case NewObjectArrayInstr(_, _, _) => Object
    case NewMultiArrayInstr(_, _, _) => Object
    case ArrayLenInstr(_) => Int
    case CheckCastInstr(_, _, _) => Object
    case InstanceOfInstr(_, _, _) => Int
    case ReturnInstr(v) => if v.None? then Void else v.value.kind
    case _ => Illegal
  }

  /** The successor list a block end owns (`getSuccessor()`); empty for other instructions. */
  function Successors(op: Op): seq<nat> {
    match op
    case IfInstr(_, t, f, _, _, _) => [t, f]
    case GotoInstr(t) => [t]
    case TableSwitchInstr(_, s, _, _) => s
    case LookupSwitchInstr(_, s, _, _) => s
    case _ => []
  }

  /** The state handed to the instruction's constructor (`null` for ReturnInstr and GotoInstr). */
  function ConstructorState(op: Op): Option<VmState> {
    match op
    case CallInstr(_, b, _, _, _, _) => Some(b)
    case NewInstr(b, _) => Some(b)
    case NewTypeArrayInstr(b, _, _) => Some(b)
    case NewObjectArrayInstr(b, _, _) => Some(b)
    case NewMultiArrayInstr(b, _, _) => Some(b)
    case CheckCastInstr(b, _, _) => Some(b)
    case InstanceOfInstr(b, _, _) => Some(b)
    case MonitorEnterInstr(b, _) => Some(b)
    case IfInstr(b, _, _, _, _, _) => Some(b)
    case TableSwitchInstr(b, _, _, _) => Some(b)
    case LookupSwitchInstr(b, _, _, _) => Some(b)
    case ThrowInstr(b, _) => Some(b)
    case _ => None
  }

  /** `new ReturnInstr(v)` */
  function NewReturn(v: Option<Value>): (op: Op)
    ensures op.ReturnInstr? && op.returnValue == v
    ensures ResultKind(op) == Void <==> (v.None? || v.value.kind == Void)
    ensures v.Some? ==> ResultKind(op) == v.value.kind
    ensures IsBlockEnd(op) && Successors(op) == [] && ConstructorState(op).None?
  {
    ReturnInstr(v)
  }

  /** `getReturnValue()` */
  function ReturnValue(op: Op): Option<Value>
    requires op.ReturnInstr?
  {
    op.returnValue
  }

  /** `getReturnValue()` hands back exactly what the constructor received. */
  lemma ReturnValueRoundTrip(v: Option<Value>)
    ensures ReturnValue(NewReturn(v)) == v
  {
  }

  // ----- TableSwitchInstr -----

  /** `new TableSwitchInstr(stateBefore, successor, index, lowKey)` */
  function NewTableSwitch(before: VmState, succs: seq<nat>, index: Value, lowKey: int): (op: Op)
    ensures op.TableSwitchInstr? && Successors(op) == succs
    ensures op.index == index && op.lowKey == lowKey
    ensures ConstructorState(op) == Some(before) && ResultKind(op) == Illegal
  {
    TableSwitchInstr(before, succs, index, lowKey)
  }

  /** `getLength()`: the number of case successors, the default not counted. */
  function SwitchLength(op: Op): (n: int)
    requires op.TableSwitchInstr?
    ensures n + 1 == |Successors(op)|
  {
    |op.successors| - 1
  }

  /** The key selecting case successor `i` (the `lowKey + i` labelling of toString). */
  function CaseKey(op: Op, i: nat): int
    requires op.TableSwitchInstr?
  {
    op.lowKey + i
  }

  /** The successor a selector value reaches: the case `key - lowKey` when in range, else the default. */
  function Dispatch(op: Op, key: int): (b: nat)
    requires op.TableSwitchInstr? && |op.successors| > 0
    ensures b in op.successors
    ensures op.lowKey <= key < op.lowKey + SwitchLength(op) ==> b == op.successors[key - op.lowKey]
    ensures !(op.lowKey <= key < op.lowKey + SwitchLength(op)) ==> b == op.successors[|op.successors| - 1]
  {
    var n := |op.successors| - 1;
    if op.lowKey <= key < op.lowKey + n then op.successors[key - op.lowKey] else op.successors[n]
  }

  /** Case successor `i` is exactly the block reached by its key; the last successor is the default. */
  lemma CaseKeyDispatch(op: Op, i: nat)
    requires op.TableSwitchInstr? && |op.successors| > 0
    ensures i < SwitchLength(op) ==> Dispatch(op, CaseKey(op, i)) == op.successors[i]
    ensures Dispatch(op, op.lowKey - 1) == op.successors[SwitchLength(op)]
    ensures Dispatch(op, op.lowKey + SwitchLength(op)) == op.successors[SwitchLength(op)]
  {
  }

  /** The accessors of a table switch return its constructor arguments unchanged. */
  lemma TableSwitchAccessors(before: VmState, succs: seq<nat>, index: Value, lowKey: int)
    requires |succs| > 0
    ensures NewTableSwitch(before, succs, index, lowKey).index == index
    ensures NewTableSwitch(before, succs, index, lowKey).lowKey == lowKey
    ensures SwitchLength(NewTableSwitch(before, succs, index, lowKey)) == |succs| - 1
  {
  }
}
