/**
 * Decoded bytecodes as the builder receives them: the opcode's category with
 * its immediates already decoded, branch targets as absolute bytecode
 * indices, and constant-pool references already resolved.
 */
module Bytecodes {
  import opened Wrappers
  import opened Values
  import opened Instrs

  /** The six stack-duplication forms, each entry counted as one slot. */
  datatype DupForm = Dup | DupX1 | DupX2 | Dup2 | Dup2X1 | Dup2X2

  datatype FieldOp = GetStatic | PutStatic | GetField | PutField

  datatype InvokeKind = InvokeVirtual | InvokeSpecial | InvokeStatic | InvokeInterface | InvokeDynamic

  /** The JVM opcode of each invoke form. */
  function InvokeOpcode(k: InvokeKind): int {
    match k
    case InvokeVirtual => 0xb6
    case InvokeSpecial => 0xb7
    case InvokeStatic => 0xb8
    case InvokeInterface => 0xb9
    case InvokeDynamic => 0xba
  }

  /** Virtual, special and interface calls pop a receiver; static and dynamic ones do not. */
  predicate HasReceiver(k: InvokeKind) {
    k == InvokeVirtual || k == InvokeSpecial || k == InvokeInterface
  }

  datatype Bytecode =
    | Nop
    | PushConstant(kind: Kind, bits: int)          // ACONST_NULL .. SIPUSH
    | Ldc(constant: Option<(Kind, int)>)           // None: the pool entry is not a JavaConstant
    | LoadLocal(kind: Kind, index: nat)            // ILOAD .. ALOAD_3
    | StoreLocal(kind: Kind, index: nat)           // ISTORE .. ASTORE_3
    | LoadElement(kind: Kind)                      // IALOAD .. SALOAD
    | StoreElement(kind: Kind)                     // IASTORE .. SASTORE
    | Pop
    | Pop2
    | Duplicate(form: DupForm)
    | Swap
    | Arithmetic(kind: Kind, opcode: int)          // xADD, xSUB, xMUL, xDIV, xREM
    | Negate(kind: Kind)
    | Shift(kind: Kind, opcode: int)
    | Logic(kind: Kind, opcode: int)
    | Iinc(index: nat, delta: int)
    | Convert(from: Kind, to: Kind, opcode: int)   // I2L .. I2S
    | Compare(kind: Kind, opcode: int)             // LCMP, FCMPx, DCMPx
    | IfZero(cond: Cond, target: int, fallThrough: int)
    | IfNull(cond: Cond, target: int, fallThrough: int)
    | IfCompare(kind: Kind, cond: Cond, target: int, fallThrough: int)
    | Goto(target: int)                            // GOTO, GOTO_W
    | Jsr
    | Ret
    | JsrW
    | TableSwitch(lowKey: int, targets: seq<int>, defaultTarget: int)
    | LookupSwitch(cases: seq<(int, int)>, defaultTarget: int)   // (match key, target)
    | Return(kind: Kind)                           // IRETURN .. ARETURN
    | ReturnVoid                                   // RETURN
    | AccessField(access: FieldOp, field: Field, holder: TypeRef)   // holder: the declaring class
    | Invoke(invoke: InvokeKind, callee: MethodRef)
    | New(klass: TypeRef)
    | NewArray(elem: Kind)
    | ANewArray(klass: TypeRef)
    | ArrayLength
    | AThrow
    | CheckCast(klass: TypeRef)
    | InstanceOf(klass: TypeRef)
    | MonitorEnter
    | MonitorExit
    | Wide
    | MultiANewArray(klass: TypeRef, dimensions: nat)
    | Unknown(opcode: int)                         // anything the switch does not list
}
