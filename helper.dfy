/** The hit record handed from bone to bone (Assets/Scripts/Ragdoll/RagdollHelper.cs). */
module RagdollHelper {

  /** A reference that may be null. */
  datatype Option<T> = None | Some(value: T)

  /** A world-space vector. */
  datatype Vec3 = Vec3(x: real, y: real, z: real)

  /** One impact. It is a value (a C# struct), so every handler works on its own copy.
      `bone` is the index of the originally struck bone in the character's bone arena, or
      None for a null reference; `inherited` says that a joint has already been weakened
      for this impact on the way down to the bone holding this copy. */
  datatype HitInfo = HitInfo(
    bone: Option<nat>,
    impulse: real,
    point: Vec3,
    direction: Vec3,
    inherited: bool)

  /** The record's bone, if any, is one of the n bones of the arena. */
  predicate Targets(h: HitInfo, n: nat)
  {
    h.bone.Some? ==> h.bone.value < n
  }
}
