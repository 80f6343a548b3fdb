# yarrow HIR construction and phi resolution, in Dafny

This project models two parts of yarrow, a JIT compiler for the JVM written in Java:

- **HIR construction.** `HirBuilder` is an abstract interpreter over a method's bytecode. It
  walks the control-flow graph in worklist order and keeps a `VmState`: the operand stack and
  the local variable slots, each holding SSA values. For each bytecode it emits a
  high-level IR instruction into the current block. At each block end it merges the exit state
  into every successor's `BlockStartInstr`. That merge creates phi instructions for slots
  whose values disagree, and for every slot of a loop header.
- **Phi resolution.** When LIR is generated, `PhiResolver` turns the phis of a join block
  into register moves along each incoming edge. It builds a graph of `ResolveNode`s. A virtual
  register has one node, shared by all its uses. A non-register operand, such as a constant,
  gets a fresh node at every occurrence. The resolver walks that graph depth-first from every
  virtual-register source. It emits a move into a node the first time it assigns that node,
  and no move into a node already assigned. The moves out of non-register nodes come last.

The model is functional. Mutable Java objects become immutable datatypes:

- A `VmState` is a stack of values plus a sequence of optional local slots.
- A value's identity is its `id`.
- A block is named by its integer id. The graph of blocks is a `map`.
- Builder context that Java keeps in fields is threaded through every transfer function.
  This covers the current block's instruction list, the next instruction id, and the
  write-final and write-volatile flags.
- A Java exception is an `Err` of a `Result`:
  - a `NullPointerException` or `IndexOutOfBoundsException`;
  - an empty-stack pop;
  - `CompilerErrors.bailOut`;
  - `YarrowError.shouldNotReachHere`;
  - `YarrowError.unimplemented`.

Modules:

- `Wrappers` holds `Option`, `Result` and the error kinds.
- `Values` holds kinds, values and phi ownership.
- `VmStates` holds the interpreter state.
- `Instrs` holds the HIR instructions, including `TableSwitchInstr` and `ReturnInstr`.
- `Blocks` models `BlockStartInstr`.
- `Bytecodes` holds the already-decoded bytecode stream.
- `Builder` holds the per-bytecode transfer functions and `fulfillBlock`.
- `Worklist` holds `build`.
- `PhiResolution` models `PhiResolver`.
- `PhiExamples` holds three concrete resolutions:
  - a chain of copies;
  - two phis swapped around a loop back edge;
  - a constant flowing into a phi.

Three behaviours of the resolver are kept as the code has them. Each is stated as a lemma.

- `genMove` passes `(node, destNode)` to `emitMov`. `emitMov` is called `(dst, src)` at the
  other sites in the resolver, so the move emitted for a constant *writes the constant operand*
  and reads the phi's register. `PhiResolution.OtherMovesComplete` states this for every
  graph. `PhiExamples.ConstantIntoPhiIsReversed` shows it end to end.
- When the walk closes a cycle, the resolver copies into a fresh temporary register, and no
  emitted move ever reads that register (`PhiResolution.GenMoveNeverReadsTemps`).
- Two phis swapped across a back edge form a cycle whose first node is a walk root. The walk
  closes the cycle at that root and records it as `loop`. It then reaches `move(null, root)`
  with `loop == root`, and line 174 dereferences the null source. So `resolvePhi` fails with
  a null dereference (`PhiExamples.SwappedPhisFail`). The model states this for the two-phi
  swap only. In a longer walk, a cycle closed later can overwrite `loop` first.

The walk itself writes each node only after every copy that reads it, and it never writes an
operand twice, provided no other node holds a copy target's operand
(`PhiResolution.GenMovePostOrder`).

## Model

| member | source | states |
|---|---|---|
| Values.Decay | src/com/kelthuzadx/yarrow/hir/HirBuilder.java:868-876 | the stack kind is never boolean, byte, short or char; a kind is kept exactly when it is not one of those, and is otherwise replaced by int |
| Values.DecayIdempotent | src/com/kelthuzadx/yarrow/hir/HirBuilder.java:868-876 | decaying an already decayed kind changes nothing |
| VmStates.NewState | src/com/kelthuzadx/yarrow/hir/VmState.java:22-27 | the sized constructor only reserves capacity: the state has an empty stack and no local slots at all |
| VmStates.SizedState | src/com/kelthuzadx/yarrow/hir/HirBuilder.java:103-104 | the entry state the builder relies on: an empty stack and maxLocals local slots, all empty |
| VmStates.Push | src/com/kelthuzadx/yarrow/hir/VmState.java:29-31 | push grows the stack by one with the value on top and leaves the locals alone |
| VmStates.Pop | src/com/kelthuzadx/yarrow/hir/VmState.java:33-35 | pop fails exactly on an empty stack; otherwise it returns the top and the stack below it |
| VmStates.Set | src/com/kelthuzadx/yarrow/hir/VmState.java:37-39 | set fails exactly when the index is outside the local slots; otherwise only that slot changes |
| VmStates.Get | src/com/kelthuzadx/yarrow/hir/VmState.java:41-43 | get fails exactly when the index is outside the local slots; otherwise it returns that slot |
| VmStates.PushPop | src/com/kelthuzadx/yarrow/hir/VmState.java:29-35 | popping right after a push gives back the pushed value and the earlier state |
| VmStates.PopPush | src/com/kelthuzadx/yarrow/hir/VmState.java:29-35 | pushing back a popped value restores the state |
| VmStates.SetGet | src/com/kelthuzadx/yarrow/hir/VmState.java:37-43 | a get after a set reads the stored value at that index and the old value at every other index |
| VmStates.NewStateHasNoSlots | src/com/kelthuzadx/yarrow/hir/VmState.java:22-43 | on a freshly constructed state, set and get fail with an index error at every index and pop fails on the empty stack |
| VmStates.LockPushPopIsInvisible | src/com/kelthuzadx/yarrow/hir/VmState.java:45-51 | lockPush and lockPop both answer 0, and a lock push followed by a pop is observable neither through pop nor through get |
| Instrs.NewReturn | src/com/kelthuzadx/yarrow/hir/instr/ReturnInstr.java:11-16 | a return has no successors and no state; its kind is the value's kind, or void when there is no value |
| Instrs.ReturnValueRoundTrip | src/com/kelthuzadx/yarrow/hir/instr/ReturnInstr.java:11-20 | getReturnValue returns the value the return was built with |
| Instrs.NewTableSwitch | src/com/kelthuzadx/yarrow/hir/instr/TableSwitchInstr.java:13-17 | a table switch keeps its state, its successors, its index and its low key, and has the illegal kind |
| Instrs.CaseKeyDispatch | src/com/kelthuzadx/yarrow/hir/instr/TableSwitchInstr.java:23-44 | the key printed for case i dispatches to successor i |
| Instrs.TableSwitchAccessors | src/com/kelthuzadx/yarrow/hir/instr/TableSwitchInstr.java:13-29 | the getters return the constructor's arguments, and the length counts the successors other than the default |
| Blocks.PhiEveryStackSlot | src/com/kelthuzadx/yarrow/hir/instr/BlockStartInstr.java:163-168 | a first loop-header merge replaces every stack slot with a fresh phi of this block and of the same kind, with distinct increasing ids |
| Blocks.PhiEveryLocal | src/com/kelthuzadx/yarrow/hir/instr/BlockStartInstr.java:169-173 | a first loop-header merge replaces every non-empty local with a fresh phi of this block and keeps empty locals empty |
| Blocks.MergeStack | src/com/kelthuzadx/yarrow/hir/instr/BlockStartInstr.java:188-198 | a later stack merge keeps a slot when the values agree or the incoming value is already a phi of this block; otherwise it makes a fresh phi |
| Blocks.MergeLocals | src/com/kelthuzadx/yarrow/hir/instr/BlockStartInstr.java:200-221 | a later local merge clears a slot whose incoming value is missing or of another kind, keeps agreeing values and this block's phis, and makes a phi otherwise |
| Blocks.MergeVmState | src/com/kelthuzadx/yarrow/hir/instr/BlockStartInstr.java:160-224 | a first merge always succeeds: an ordinary block copies the incoming state, and a loop header gets a phi of this block in every stack slot and live local. A later merge fails with a mismatch exactly when the shapes differ. At a loop header it then bails out exactly on a clashing local and otherwise changes nothing; an ordinary block always succeeds. The block keeps everything but its state |
| Blocks.MergeReadsOnlyState | src/com/kelthuzadx/yarrow/hir/instr/BlockStartInstr.java:160-224 | the merge depends only on the block's id, loop-header flag and entry state, not on its predecessor or successor links |
| Blocks.FirstMergeCopies | src/com/kelthuzadx/yarrow/hir/instr/BlockStartInstr.java:161-162 | the first merge into an ordinary block installs the incoming state unchanged |
| Blocks.FirstLoopMergeMakesPhis | src/com/kelthuzadx/yarrow/hir/instr/BlockStartInstr.java:163-174 | the first merge into a loop header puts a phi of this block in every stack slot and every non-empty local |
| Blocks.FirstLoopMergePhisFresh | src/com/kelthuzadx/yarrow/hir/instr/BlockStartInstr.java:163-174 | those phis have ids no earlier value has, and no two of them share an id |
| Blocks.LaterMergeShape | src/com/kelthuzadx/yarrow/hir/instr/BlockStartInstr.java:177 | a later merge succeeds only when stack depth and local count agree, and keeps that shape |
| Blocks.LaterLoopMerge | src/com/kelthuzadx/yarrow/hir/instr/BlockStartInstr.java:178-186 | a later loop-header merge bails out exactly when a non-empty local meets a missing or mistyped value; otherwise the state is unchanged |
| Blocks.LaterMergeStack | src/com/kelthuzadx/yarrow/hir/instr/BlockStartInstr.java:188-198 | slot by slot, a later ordinary merge keeps the value or puts a fresh phi of this block there, as the two cases say |
| Blocks.LaterMergeLocal | src/com/kelthuzadx/yarrow/hir/instr/BlockStartInstr.java:200-221 | slot by slot, a later ordinary merge clears, keeps or re-phis each local, as the three cases say |
| Blocks.MergeIdenticalIsNoOp | src/com/kelthuzadx/yarrow/hir/instr/BlockStartInstr.java:176-221 | merging a block's own state back into it changes nothing |
| Blocks.RemergeAddsAnotherPhi | src/com/kelthuzadx/yarrow/hir/instr/BlockStartInstr.java:191-196 | merging the same foreign value twice makes a second, different phi, so the merge is not idempotent |
| Blocks.AddPredecessor | src/com/kelthuzadx/yarrow/hir/instr/BlockStartInstr.java:147-149 | every listed successor gains the block as its last predecessor, once for each time it is listed; other blocks are unchanged |
| Blocks.AddPredecessorStep | src/com/kelthuzadx/yarrow/hir/instr/BlockStartInstr.java:147-149 | adding the block to the last listed successor extends the count for every listed block by one occurrence |
| Blocks.SetBlockEnd | src/com/kelthuzadx/yarrow/hir/instr/BlockStartInstr.java:140-151 | the block records its end and drops its successor list, and each successor of the end learns the block as a predecessor |
| Blocks.SetBlockEndLinksSuccessors | src/com/kelthuzadx/yarrow/hir/instr/BlockStartInstr.java:140-151 | after setBlockEnd, every successor of the end lists the block among its predecessors and has gained at least one predecessor |
| Blocks.WrapInt | src/com/kelthuzadx/yarrow/hir/instr/BlockStartInstr.java:236-238 | the hash is a 32-bit int congruent to the exact value modulo 2^32, as Java int overflow gives |
| Blocks.EqualsAgreesWithHash | src/com/kelthuzadx/yarrow/hir/instr/BlockStartInstr.java:227-238 | for ids below 2^31, two blocks are equal exactly when their hashes are equal |
| Builder.Append | src/com/kelthuzadx/yarrow/hir/HirBuilder.java:687-713 | a pure instruction that local value numbering knows yields the earlier value and emits nothing; otherwise the instruction is appended with a fresh id, and a state instruction records a copy of the state |
| Builder.Construct | src/com/kelthuzadx/yarrow/hir/HirBuilder.java:687-713 | building an instruction consumes exactly one id, and its value has that id and the instruction's kind |
| Builder.PopValue | src/com/kelthuzadx/yarrow/hir/VmState.java:33-35 | popping fails on an empty stack and otherwise returns the top, leaving the locals alone |
| Builder.PopValues | src/com/kelthuzadx/yarrow/hir/HirBuilder.java:1042-1096 | popping n values fails exactly when fewer are present; otherwise the remaining stack followed by the popped values, in order, is the original stack |
| Builder.LoadConst | src/com/kelthuzadx/yarrow/hir/HirBuilder.java:715-718 | a constant is emitted and its value pushed on the stack; the locals are untouched |
| Builder.LoadPoolConstant | src/com/kelthuzadx/yarrow/hir/HirBuilder.java:720-728 | a resolved pool constant loads like any constant, and an unresolved one bails out |
| Builder.Load | src/com/kelthuzadx/yarrow/hir/HirBuilder.java:730-733 | a load succeeds exactly on an in-range, non-empty local and pushes that local's value |
| Builder.Store | src/com/kelthuzadx/yarrow/hir/HirBuilder.java:742-745 | a store succeeds exactly with a value on the stack and an in-range index; it moves the top into that local and changes no other local |
| Builder.LoadThenStoreIsIdentity | src/com/kelthuzadx/yarrow/hir/HirBuilder.java:730-745 | storing a just-loaded local back into the same slot restores the state |
| Builder.StoreThenLoad | src/com/kelthuzadx/yarrow/hir/HirBuilder.java:730-745 | loading a just-stored slot restores the stack |
| Builder.DuplicateTop | src/com/kelthuzadx/yarrow/hir/HirBuilder.java:755-817 | each dup form succeeds exactly when the stack holds enough values, and rearranges the top values as the JVM dup form prescribes |
| Builder.DupFormLayout | src/com/kelthuzadx/yarrow/hir/HirBuilder.java:755-817 | each dup form leaves the stack below the values it touches unchanged and grows the stack by one or two |
| Builder.DupTop | src/com/kelthuzadx/yarrow/hir/HirBuilder.java:757-762 | dup gives ..., v, v |
| Builder.DupTopX1 | src/com/kelthuzadx/yarrow/hir/HirBuilder.java:763-770 | dup_x1 gives ..., v1, v2, v1 |
| Builder.DupTopX2 | src/com/kelthuzadx/yarrow/hir/HirBuilder.java:771-780 | dup_x2 gives ..., v1, v3, v2, v1 |
| Builder.DupTop2 | src/com/kelthuzadx/yarrow/hir/HirBuilder.java:781-789 | dup2 gives ..., v2, v1, v2, v1 |
| Builder.DupTop2X1 | src/com/kelthuzadx/yarrow/hir/HirBuilder.java:790-800 | dup2_x1 gives ..., v2, v1, v3, v2, v1 |
| Builder.DupTop2X2 | src/com/kelthuzadx/yarrow/hir/HirBuilder.java:801-816 | dup2_x2 gives ..., v2, v1, v4, v3, v2, v1 |
| Builder.SwapTop | src/com/kelthuzadx/yarrow/hir/HirBuilder.java:819-824 | swap succeeds exactly with two values on the stack and exchanges them |
| Builder.SwapSwap | src/com/kelthuzadx/yarrow/hir/HirBuilder.java:819-824 | swapping twice restores the state |
| Builder.PopTwo | src/com/kelthuzadx/yarrow/hir/HirBuilder.java:826-831 | the right operand is popped first and the left second, so the operands keep their stack order |
| Builder.PopThree | src/com/kelthuzadx/yarrow/hir/HirBuilder.java:747-753 | an array store pops the value, then the index, then the array |
| Builder.Binary | src/com/kelthuzadx/yarrow/hir/HirBuilder.java:826-851 | arithmetic, shift and logic succeed exactly with two operands and replace them by one result built from them in stack order |
| Builder.Unary | src/com/kelthuzadx/yarrow/hir/HirBuilder.java:833-837 | negation succeeds exactly with one operand and replaces it by the result |
| Builder.LoadArray | src/com/kelthuzadx/yarrow/hir/HirBuilder.java:735-740 | an array load needs an index and an array, and pushes the element |
| Builder.StoreArray | src/com/kelthuzadx/yarrow/hir/HirBuilder.java:747-753 | an array store needs three operands, pushes nothing, and records the state before the store |
| Builder.CastKind | src/com/kelthuzadx/yarrow/hir/HirBuilder.java:868-876 | the recorded kind is never byte, char or short; it is the destination or int, and for every destination but boolean it is the stack kind the cast pushes |
| Builder.TypeCast | src/com/kelthuzadx/yarrow/hir/HirBuilder.java:868-876 | a cast succeeds exactly with one operand and pushes a value of the widened kind |
| Builder.TypeCastRecordsNormalisedKind | src/com/kelthuzadx/yarrow/hir/HirBuilder.java:868-876 | the cast instruction records the target kind, and the pushed value has that kind widened |
| Builder.Increment | src/com/kelthuzadx/yarrow/hir/HirBuilder.java:853-866 | iinc succeeds exactly on an in-range, non-empty local; the stack is unchanged, only that local changes and it stays non-empty, and two ids are used |
| Builder.IncrementAppendsAdd | src/com/kelthuzadx/yarrow/hir/HirBuilder.java:853-866 | without value numbering, iinc emits the delta constant and then an add of the local and that constant |
| Builder.BranchAgainstConstant | src/com/kelthuzadx/yarrow/hir/HirBuilder.java:888-900 | ifeq-style and ifnull-style branches pop one value and end the block with an if that compares it with the zero or null constant |
| Builder.BranchIfSame | src/com/kelthuzadx/yarrow/hir/HirBuilder.java:902-912 | two-operand branches pop two values in stack order and end the block with an if whose successors are the blocks of both targets |
| Builder.GoTo | src/com/kelthuzadx/yarrow/hir/HirBuilder.java:914-917 | goto ends the block with a jump to the block containing the target |
| Builder.Resolve | src/com/kelthuzadx/yarrow/hir/HirBuilder.java:919-951 | each target bci is mapped to the block containing it, in order |
| Builder.TableSwitch | src/com/kelthuzadx/yarrow/hir/HirBuilder.java:919-933 | tableswitch pops the index and ends the block with a table switch whose successors are the case blocks followed by the default block |
| Builder.LookupSwitch | src/com/kelthuzadx/yarrow/hir/HirBuilder.java:935-951 | lookupswitch pops the key and ends the block with a switch over the listed keys, then the default block |
| Builder.MaskReturnValue | src/com/kelthuzadx/yarrow/hir/HirBuilder.java:959-985 | for boolean, byte, char and short methods the returned value is masked by an AND with 1, 0xff, 0xFFFF or 0xFFFF, and a missing value fails; other kinds return the value as is |
| Builder.Fence | src/com/kelthuzadx/yarrow/hir/HirBuilder.java:987-992 | a constructor that has written a final field appends a store-store barrier; any other method appends nothing |
| Builder.EmitReturn | src/com/kelthuzadx/yarrow/hir/HirBuilder.java:959-995 | once the value is known, return fails exactly when a masked kind has no value; otherwise the block ends with a return of the state, carrying the value itself when no mask applies, and the barrier comes right before it when one is needed |
| Builder.ReturnOp | src/com/kelthuzadx/yarrow/hir/HirBuilder.java:953-996 | a return pops its value unless it returns void, and an empty stack fails; the flags are kept, and the rest is the emission above on the popped state |
| Builder.ReturnMaskSequence | src/com/kelthuzadx/yarrow/hir/HirBuilder.java:953-996 | a sub-int return emits the mask constant, then the AND of the mask and the value, then the barrier when due, then the return of the AND |
| Builder.MaskAppends | src/com/kelthuzadx/yarrow/hir/HirBuilder.java:959-985 | without value numbering, masking appends the mask constant and then an and of the mask with the value, and returns the and |
| Builder.ReturnUnmaskedSequence | src/com/kelthuzadx/yarrow/hir/HirBuilder.java:953-996 | without masking or a barrier, return appends exactly one instruction |
| Builder.AppendImpure | src/com/kelthuzadx/yarrow/hir/HirBuilder.java:687-713 | an impure instruction is always appended, whatever value numbering says |
| Builder.StaticHolder | src/com/kelthuzadx/yarrow/hir/HirBuilder.java:998-1010 | a static access first obtains the holder class as an object constant |
| Builder.GetStaticField | src/com/kelthuzadx/yarrow/hir/HirBuilder.java:998-1040 | getstatic pushes a load of the field from the holder constant |
| Builder.PutStaticField | src/com/kelthuzadx/yarrow/hir/HirBuilder.java:998-1040 | putstatic succeeds exactly with one value and stores it into the field of the holder |
| Builder.GetInstanceField | src/com/kelthuzadx/yarrow/hir/HirBuilder.java:998-1040 | getfield succeeds exactly with an object on the stack and replaces it by the field's value |
| Builder.PutInstanceField | src/com/kelthuzadx/yarrow/hir/HirBuilder.java:998-1040 | putfield succeeds exactly with two operands and stores the top into the field of the object below it |
| Builder.AccessField | src/com/kelthuzadx/yarrow/hir/HirBuilder.java:998-1040 | field access succeeds exactly with enough operands; a putfield of a final or volatile field sets the matching flag, and nothing else sets it |
| Builder.PopCallOperands | src/com/kelthuzadx/yarrow/hir/HirBuilder.java:1042-1096 | a call pops its arguments in order, plus the receiver unless the call is static |
| Builder.PopsTakeCallOperands | src/com/kelthuzadx/yarrow/hir/HirBuilder.java:1042-1096 | popping the arguments one at a time, last first, and then the receiver takes exactly those operands, and fails exactly when they do |
| Builder.PopAfterArgs | src/com/kelthuzadx/yarrow/hir/HirBuilder.java:1082-1088 | once the arguments are popped, the receiver pop fails exactly when the stack held only the arguments, and otherwise takes the value right below them |
| Builder.Call | src/com/kelthuzadx/yarrow/hir/HirBuilder.java:1042-1096 | a call succeeds exactly with enough operands, and pushes a result unless the callee returns void |
| Builder.MultiNewArray | src/com/kelthuzadx/yarrow/hir/HirBuilder.java:1165-1177 | multianewarray pops one size per dimension, in order, and pushes the array |
| Builder.NewInstance | src/com/kelthuzadx/yarrow/hir/HirBuilder.java:1098-1103 | new always emits an allocation that records the state, and pushes the object |
| Builder.PopOnePushOne | src/com/kelthuzadx/yarrow/hir/HirBuilder.java:1105-1149 | newarray, anewarray, arraylength, checkcast and instanceof consume one value and push the result |
| Builder.Throw | src/com/kelthuzadx/yarrow/hir/HirBuilder.java:1128-1133 | athrow pops the exception and ends the block with a throw of it |
| Builder.MonitorEnter | src/com/kelthuzadx/yarrow/hir/HirBuilder.java:1151-1157 | monitorenter pops the object and emits a lock of it |
| Builder.MonitorExit | src/com/kelthuzadx/yarrow/hir/HirBuilder.java:1159-1163 | monitorexit emits an unlock and changes no state |
| Builder.ArrayOrTypeOp | src/com/kelthuzadx/yarrow/hir/HirBuilder.java:1105-1149 | newarray, anewarray, arraylength, checkcast and instanceof succeed exactly with one operand, fail only through a missing operand, and keep the flags |
| Builder.AllocOrMonitorOp | src/com/kelthuzadx/yarrow/hir/HirBuilder.java:1098-1177 | new, multianewarray, monitorenter and monitorexit fail only through a missing operand and keep the flags |
| Builder.InterpretStackOp | src/com/kelthuzadx/yarrow/hir/HirBuilder.java:134-665 | loads, stores, constants and stack shuffles fail only through a missing operand or slot |
| Builder.InterpretComputeOp | src/com/kelthuzadx/yarrow/hir/HirBuilder.java:134-665 | arithmetic, conversions and comparisons fail only through a missing operand |
| Builder.InterpretControlOp | src/com/kelthuzadx/yarrow/hir/HirBuilder.java:134-665 | jsr, ret and jsr_w are unimplemented; other branches fail only through a missing operand |
| Builder.InterpretObjectOp | src/com/kelthuzadx/yarrow/hir/HirBuilder.java:134-665 | wide and unknown opcodes should not be reached; field, call and allocation bytecodes fail only through a missing operand; the write-final and write-volatile flags are set exactly by a putfield of a final or volatile field |
| Builder.Interpret | src/com/kelthuzadx/yarrow/hir/HirBuilder.java:134-665 | subroutine opcodes are unimplemented and wide and unknown ones should not be reached; every other bytecode fails only through a missing operand; the flags are set exactly by a putfield of a final or volatile field |
| Builder.Run | src/com/kelthuzadx/yarrow/hir/HirBuilder.java:128-666 | after a block's bytecodes, the write-final flag is set exactly when a putfield of a final field occurred; a subroutine-free block never fails as unimplemented |
| Builder.SplitFirst | src/com/kelthuzadx/yarrow/hir/HirBuilder.java:128-666 | a property holds of some bytecode of a block exactly when it holds of the first one or of some later one |
| Builder.FulfillBlock | src/com/kelthuzadx/yarrow/hir/HirBuilder.java:123-685 | a block succeeds exactly when its bytecodes do, and always ends with a block end, adding a goto to the next block if it fell through |
| Builder.EntryKinds | src/com/kelthuzadx/yarrow/hir/HirBuilder.java:103-121 | the entry slots are the receiver, if any, followed by one slot per parameter |
| Builder.SetParams | src/com/kelthuzadx/yarrow/hir/HirBuilder.java:103-121 | each parameter goes into its own slot, with consecutive ids; other slots and the stack are untouched |
| Builder.EntryState | src/com/kelthuzadx/yarrow/hir/HirBuilder.java:103-121 | the entry state has an empty stack, the receiver in slot 0, the parameters after it, and every later local empty |
| Builder.EntryKindsLayout | src/com/kelthuzadx/yarrow/hir/HirBuilder.java:103-121 | the receiver slot has the object kind and parameter i sits at slot i plus the receiver offset |
| Worklist.MergeInto | src/com/kelthuzadx/yarrow/hir/HirBuilder.java:680-683 | each successor listed once ends up holding the merge of its earlier entry with the exit state, with phi ids from the shared counter; blocks that are not successors are unchanged; a failure is a state mismatch or a bail-out |
| Worklist.MergedOnceStep | src/com/kelthuzadx/yarrow/hir/HirBuilder.java:680-683 | merging into the first successor and then into the rest merges exactly once into every block listed once |
| Worklist.MergedOnceLinked | src/com/kelthuzadx/yarrow/hir/HirBuilder.java:678-683 | the predecessor links that setBlockEnd adds do not change the states the merge gives |
| Worklist.LinkAndMerge | src/com/kelthuzadx/yarrow/hir/HirBuilder.java:678-683 | the block records its end; every successor listed once holds the merge of its entry, or of the exit state for the block itself, with the exit state; a failure is a state mismatch or a bail-out |
| Worklist.RunBlock | src/com/kelthuzadx/yarrow/hir/HirBuilder.java:127-677 | the block's run is exactly fulfillBlock's interpretation of its code, and a successful run ends with a block end |
| Worklist.Fulfill | src/com/kelthuzadx/yarrow/hir/HirBuilder.java:123-685 | a block with no state fails with a null dereference. Otherwise the body and flags are the interpreter's output from the block's entry state, and the body ends with a block end. The block keeps its exit state unless it is its own successor. Each successor listed once holds the merge of its earlier entry with that exit state |
| Worklist.ClosedSkip | src/com/kelthuzadx/yarrow/hir/HirBuilder.java:82-84 | dropping an already-visited block from the worklist keeps every successor of a visited block visited or queued |
| Worklist.ClosedStep | src/com/kelthuzadx/yarrow/hir/HirBuilder.java:82-93 | visiting a block and queueing its successors keeps that property |
| Worklist.ClosedDone | src/com/kelthuzadx/yarrow/hir/HirBuilder.java:81-94 | with an empty worklist, every successor of a visited block is itself visited |
| Worklist.BookkeepingSkip | src/com/kelthuzadx/yarrow/hir/HirBuilder.java:82-84 | skipping a visited block keeps the order, the visit set and the bodies consistent |
| Worklist.BookkeepingStep | src/com/kelthuzadx/yarrow/hir/HirBuilder.java:82-93 | visiting a new block appends it once to the order and records its body |
| Worklist.BookkeepingDone | src/com/kelthuzadx/yarrow/hir/HirBuilder.java:81-94 | once the worklist is empty, the order starts at the entry, lists each block once, gives each a body and an end, and is closed under successors |
| Worklist.Visit | src/com/kelthuzadx/yarrow/hir/HirBuilder.java:82-92 | fulfilling the unvisited block at the head of the queue keeps the graph's blocks, appends it to the order, records the interpreter's output for its code as its body, and queues the successors of its end |
| Worklist.Drain | src/com/kelthuzadx/yarrow/hir/HirBuilder.java:78-94 | the visit order starts at the entry, lists each block at most once, gives each a body interpreted from its own code and an end, and is closed under successors |
| Worklist.DrainFrom | src/com/kelthuzadx/yarrow/hir/HirBuilder.java:81-94 | from any consistent point of the loop whose bodies so far are interpreted, a successful drain ends with an order of that shape |
| Worklist.Build | src/com/kelthuzadx/yarrow/hir/HirBuilder.java:71-97 | build visits the entry block first and each block at most once, gives each visited block a body interpreted from its code and an end, and visits every successor of a visited block |
| PhiResolution.NewResolver | src/com/kelthuzadx/yarrow/lir/PhiResolver.java:26-32 | a new resolver has an empty graph, no moves, and is well formed |
| PhiResolution.CreateResolveNode | src/com/kelthuzadx/yarrow/lir/PhiResolver.java:123-142 | a register gets one node, shared by every use, and is listed once as a walk root when it is a source; any other operand gets a fresh node listed among the non-register operands |
| PhiResolution.RegisterNode | src/com/kelthuzadx/yarrow/lir/PhiResolver.java:126-132 | a register's node is the one already registered for its id, or else a new node appended for it; nothing else changes |
| PhiResolution.AddEdge | src/com/kelthuzadx/yarrow/lir/PhiResolver.java:50-52 | appending a destination adds the edge and keeps every existing node and edge |
| PhiResolution.PhiOperand | src/com/kelthuzadx/yarrow/lir/PhiResolver.java:112-116 | a phi without an operand gets a fresh virtual register of its kind; an existing operand is kept |
| PhiResolution.MoveToPhi | src/com/kelthuzadx/yarrow/lir/PhiResolver.java:107-121 | nothing happens unless the successor value is a phi distinct from the current value; otherwise the call fails exactly when the current value has no operand, and on success records an edge from its operand to the phi's |
| PhiResolution.Assign | src/com/kelthuzadx/yarrow/lir/PhiResolver.java:172-181 | assignment fails exactly when the walk returns to the loop node with no source; otherwise it emits at most one move, and marks the node assigned exactly when a move was emitted |
| PhiResolution.SaveLoop | src/com/kelthuzadx/yarrow/lir/PhiResolver.java:173-176 | at the loop node, the source is copied into a new temporary register and the node is marked assigned |
| PhiResolution.WriteDest | src/com/kelthuzadx/yarrow/lir/PhiResolver.java:177-180 | otherwise one move writes the node's operand from the source's operand, and the node is marked assigned |
| PhiResolution.MoveNode | src/com/kelthuzadx/yarrow/lir/PhiResolver.java:159-182 | a move of a node marks it visited; only a null source can make it fail |
| PhiResolution.CloseLoop | src/com/kelthuzadx/yarrow/lir/PhiResolver.java:165-169 | a node reached again on the current path becomes the loop node and the source is copied into a new temporary; no node is marked assigned |
| PhiResolution.MoveDests | src/com/kelthuzadx/yarrow/lir/PhiResolver.java:162-164 | walking a node's destinations marks all of them visited |
| PhiResolution.WalkRoots | src/com/kelthuzadx/yarrow/lir/PhiResolver.java:145-150 | the first loop fails only with a null dereference and keeps the resolver well formed |
| PhiResolution.WalkRoot | src/com/kelthuzadx/yarrow/lir/PhiResolver.java:146-149 | one walk from a root visits it and makes it a start node; the graph is unchanged and moves are only appended |
| PhiResolution.WalkRootsExtends | src/com/kelthuzadx/yarrow/lir/PhiResolver.java:145-150 | the first loop leaves the graph unchanged, only appends moves, and each appended move reads a node's operand |
| PhiResolution.WalkRootsVisit | src/com/kelthuzadx/yarrow/lir/PhiResolver.java:145-150 | after the first loop every remaining register root is visited, and nothing visited before is forgotten |
| PhiResolution.WalkRootsStart | src/com/kelthuzadx/yarrow/lir/PhiResolver.java:145-150 | only register roots not yet visited become start nodes, and start nodes are never cleared |
| PhiResolution.OtherMoves | src/com/kelthuzadx/yarrow/lir/PhiResolver.java:152-156 | each move for a non-register operand writes that operand and reads its destination, so source and destination are swapped |
| PhiResolution.OtherMovesComplete | src/com/kelthuzadx/yarrow/lir/PhiResolver.java:152-156 | there is one such move for every edge out of a non-register node, in order, and no other |
| PhiResolution.GenMove | src/com/kelthuzadx/yarrow/lir/PhiResolver.java:144-157 | every register node is visited, and the moves end with the swapped non-register moves; only a null dereference can make it fail |
| PhiResolution.AppendOtherMoves | src/com/kelthuzadx/yarrow/lir/PhiResolver.java:152-156 | the second loop appends the swapped moves to those of the walk |
| PhiResolution.GenMoveNeverReadsTemps | src/com/kelthuzadx/yarrow/lir/PhiResolver.java:165-176 | no emitted move reads a temporary created during the walk |
| PhiResolution.GenMovePostOrder | src/com/kelthuzadx/yarrow/lir/PhiResolver.java:159-182 | when every copy target is held by one node, no copy of the walk reads an operand an earlier copy wrote, and no two copies write the same operand: each node is written once, after all its readers |
| PhiResolution.MoveNodePostOrder | src/com/kelthuzadx/yarrow/lir/PhiResolver.java:159-182 | one move keeps that order and assigns only nodes it reaches for the first time or start nodes, so the source on the current path is still unassigned when read |
| PhiResolution.WalkRootsPostOrder | src/com/kelthuzadx/yarrow/lir/PhiResolver.java:145-150 | the first loop of genMove keeps that order from root to root |
| PhiResolution.ScanStack | src/com/kelthuzadx/yarrow/lir/PhiResolver.java:92-94 | the stack scan fails when the current stack is shorter; otherwise it records an edge for every slot that needs a move |
| PhiResolution.ScanLocals | src/com/kelthuzadx/yarrow/lir/PhiResolver.java:96-100 | only non-empty successor locals are looked at; an out-of-range current local fails, and every local that needs a move gets an edge |
| PhiResolution.ScanSlots | src/com/kelthuzadx/yarrow/lir/PhiResolver.java:91-100 | scanning both stack and locals records every needed edge and fails when the current stack is shorter |
| PhiResolution.StackEdgesKept | src/com/kelthuzadx/yarrow/lir/PhiResolver.java:91-100 | the edges recorded for the stack slots survive the scan of the locals |
| PhiResolution.ResolvePhi | src/com/kelthuzadx/yarrow/lir/PhiResolver.java:83-105 | nothing happens unless there is one successor with two or more predecessors; otherwise every slot that needs a move gets an edge before the moves are generated |
| PhiExamples.ChainIsWrittenDeepestFirst | src/com/kelthuzadx/yarrow/lir/PhiResolver.java:159-182 | for copies V0 to V1 and V1 to V2, the depth-first walk emits V2 := V1 before V1 := V0, so no value is overwritten before it is read |
| PhiExamples.SwapFails | src/com/kelthuzadx/yarrow/lir/PhiResolver.java:165-176 | on a two-node cycle the walk copies into a temporary and then reaches the loop node with a null source, which fails |
| PhiExamples.SwappedPhisFail | src/com/kelthuzadx/yarrow/lir/PhiResolver.java:83-182 | resolving two phis swapped across a loop back edge fails with a null dereference |
| PhiExamples.ConstantIntoPhiIsReversed | src/com/kelthuzadx/yarrow/lir/PhiResolver.java:152-156 | resolving a constant into a phi emits one move, and that move writes the constant's operand from the phi's register |
| PhiExamples.ResolveAtJoin | src/com/kelthuzadx/yarrow/lir/PhiResolver.java:83-105 | at a join, resolution is the slot scan followed by move generation |

## Left out

- Logging and tracing, `toString` and `toCFGString`, and the `PrintIdeal`, `PrintLVN` and
  `TraceHIRGeneration` switches. These only print.
- Bytecode decoding (`BytecodeStream`). Each block's code arrives already decoded as a
  sequence of `Bytecodes.Bytecode`, with its fall-through bci.
- Metadata resolution through JVMCI: constant-pool lookups, field and method signatures, and
  `cfg.blockContain`. These are parameters of the environment.
- Local value numbering (`LVN`) and `ideal()`. Together they are one oracle, consulted only for
  pure instructions. Their internals are not part of this model.
- Floating point semantics and constant folding. Constants are opaque bit patterns.
- Builder.Load: loading a local that merging cleared fails with `NullLocal`, where the Java
  code would push `null`. Every later use of that `null` would fail anyway.
- Long and double values occupy one slot. The code under model treats them as one stack entry.
- The lock stack of `VmState`. `lockPush` and `lockPop` are modelled faithfully: they return 0
  and change nothing. `monitorenter` calls `state.lock`, which `VmState.java` does not
  define, so the model locks the popped object. The same holds for `unsafePop` and
  `copy`, which are absent from `VmState.java` but used by the builder.
- `Constraint.matchVmState` is not part of this model. It is taken to require equal stack
  depth and equal local count, and the merge fails otherwise.
- Builder.EntryState: `new VmState(maxStack, maxLocals)` in `VmState.java` creates no local
  slots, so `set` would throw. The builder relies on `maxLocals` empty slots, and the model
  gives it those.
- Instruction records: each HIR instruction class is a constructor of `Instrs.Op`. Only
  `TableSwitchInstr` and `ReturnInstr` have their own accessors.
- Exception handlers, block flags and liveness sets of `BlockStartInstr`. They are not read by
  the code modelled here.
- Blocks are named by id, and a value's identity is its id. Java uses object identity; two
  values with the same id are the same instruction.
- LIR operand classes (`LirOperand`, `VirtualRegister`, `LirGenerator.emitMov`) are not part of
  this model:
  - `emitMov` is taken as `(destination, source)`, the order used at lines 168, 175 and 178.
  - The global virtual-register counter is a parameter, `nextVreg`. It must be above every
    register already in use.
- The operand stored on each HIR value (`loadOperandRaw`/`storeOperand`) is a map from
  value id to operand. A missing entry is a `null` operand.
- `LirGenTest` and the other test drivers.
- Worklist.Fulfill: the model does not prove that the instruction-id counter only grows
  across a block. Ids are still taken from a single counter.
- The merge of a non-loop stack slot tests whether the *incoming* value is a phi of this block.
  `Blocks.RemergeAddsAnotherPhi` shows the resulting non-idempotence.
- Builder.Increment: the contract says only which local changes. The value it then holds, the
  add of the local and the delta constant, is stated by `Builder.IncrementAppendsAdd`, and only
  without value numbering, because value numbering may replace the add by an earlier value.
- PhiResolution.GenMovePostOrder: the lemma assumes that no other node holds the operand of a
  copy target. A phi's register has a single node, but the model does not prove that the graphs
  resolvePhi builds meet this.
- Builder.MaskReturnValue: a masked return kind with no value fails with `NullPointer`. At lines
  963-964 the Java code builds an AND with a `null` operand and throws nothing there. Only
  bytecode that fails verification returns no value from such a method.
