/** SSA values of the high-level IR and the kinds they carry. */
module Values {
  import opened Wrappers

  /** The JVMCI JavaKind values the builder distinguishes. */
  datatype Kind =
    | Boolean | Byte | Short | Char | Int | Long | Float | Double | Object | Void | Illegal

  /** Kinds the operand stack widens to Int (TypeUtil.decayType). */
  predicate SubInt(k: Kind) {
    k == Boolean || k == Byte || k == Short || k == Char
  }

  /** The stack kind of a declared kind: sub-integer kinds become Int. */
  function Decay(k: Kind): (d: Kind)
    ensures !SubInt(d)
    ensures d == k <==> !SubInt(k)
    ensures d != k ==> d == Int
  {
    if SubInt(k) then Int else k
  }

  /** A kind that has decayed stays as it is. */
  lemma DecayIdempotent(k: Kind)
    ensures Decay(Decay(k)) == Decay(k)
  {
  }

  /**
   * An IR value. Its identity is `id` (Java object identity); `owner` is
   * `Some(b)` exactly when the value is a PhiInstr owned by block `b`.
   */
  datatype Value = Value(id: nat, kind: Kind, owner: Option<nat>)

  predicate IsPhi(v: Value) {
    v.owner.Some?
  }

  /** `v instanceof PhiInstr && ((PhiInstr) v).getBlock() == b` */
  predicate IsPhiOf(v: Value, b: nat) {
    v.owner == Some(b)
  }

  /** createPhiFor*: a fresh phi with id `nextId`, owned by `b`, of the slot's kind. */
  function NewPhi(b: nat, slot: Value, nextId: nat): (p: Value)
    ensures IsPhiOf(p, b) && p.kind == slot.kind && p.id == nextId
  {
    Value(nextId, slot.kind, Some(b))
  }
}
