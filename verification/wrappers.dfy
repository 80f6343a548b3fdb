/** Failure-carrying wrappers shared by every module of the model. */
module Wrappers {

  /** A Java reference that may be null. */
  datatype Option<+T> = None | Some(value: T)

  /** The ways a build (or a single state operation) can abort. */
  datatype Error =
    | Unimplemented        // YarrowError.unimplemented: JSR, RET, JSR_W
    | ShouldNotReachHere   // YarrowError.shouldNotReachHere: WIDE, unknown opcodes
    | BailOut              // CompilerErrors.bailOut: ldc of a non-constant, loop type mismatch
    | EmptyStack           // java.util.Stack.pop on an empty stack
    | IndexOutOfBounds     // java.util.List.get/set outside the current size
    | NullLocal            // an empty local slot read by a load (see README)
    | NullPointer          // a dereference of null in the source
    | StateMismatch        // Constraint.matchVmState: incoming state of another shape

  datatype Result<+T> = Ok(value: T) | Err(error: Error) {
    predicate IsFailure() { Err? }
    function PropagateFailure<U>(): Result<U>
      requires Err?
    {
      Err(error)
    }
    function Extract(): T
      requires Ok?
    {
      value
    }
  }
}
