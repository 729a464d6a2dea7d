/**
 * Value types shared by the perception and belief-tracking core: world vectors,
 * actor identities and an optional value.
 */
module Common {

  /** A world-space vector (FVector). The core only passes vectors to its
      collaborators and stores them; it never does arithmetic on them. */
  datatype Vec3 = Vec3(x: real, y: real, z: real)

  /** The identity of an actor in the scene (a pawn, a target's owner, a wall). */
  type ActorId = nat

  /** A value that may be missing (a null pointer, a failed map lookup). */
  datatype Option<T> = None | Some(value: T) {
    function GetOr(default: T): T {
      match this
      case Some(v) => v
      case None => default
    }
  }
}
