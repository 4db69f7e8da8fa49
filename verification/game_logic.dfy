/** The player record shared by server and client, and the value types it is built from.
    Floats are carried as opaque 4-byte words (their IEEE-754 bit pattern, least significant
    byte first): nothing in this model does float arithmetic. */
module GameLogic {

  type byte = x: int | 0 <= x < 256

  /** A System.Guid, as the 16 bytes of Guid.ToByteArray(). */
  type Guid = s: seq<byte> | |s| == 16 witness [0, 0, 0, 0, 0, 0, 0, 0, 0, 0, 0, 0, 0, 0, 0, 0]

  const EmptyGuid: Guid := [0, 0, 0, 0, 0, 0, 0, 0, 0, 0, 0, 0, 0, 0, 0, 0]

  datatype Option<T> = None | Some(value: T)

  /** A 32-bit float as its four bytes in wire order. */
  datatype Float32 = Float32(b0: byte, b1: byte, b2: byte, b3: byte)

  /** 0.0f and 1.0f (0x3F800000). */
  const ZeroFloat := Float32(0, 0, 0, 0)
  const OneFloat := Float32(0, 0, 0x80, 0x3F)

  datatype Vector3 = Vector3(x: Float32, y: Float32, z: Float32)
  datatype Quaternion = Quaternion(x: Float32, y: Float32, z: Float32, w: Float32)

  const ZeroVector := Vector3(ZeroFloat, ZeroFloat, ZeroFloat)
  const IdentityQuaternion := Quaternion(ZeroFloat, ZeroFloat, ZeroFloat, OneFloat)

  /** A display name: None is a null string, Some(bytes) its UTF-8 encoding, so Some([])
      is the empty string and every non-empty string has at least one byte. */
  type Name = Option<seq<byte>>

  /** A value copy of the PlayerState class: every field read produces an independent value. */
  datatype PlayerState = PlayerState(
    guid: Guid,
    name: Name,
    position: Vector3,
    rotation: Quaternion,
    velocity: Vector3,
    isAlive: bool)

  /** `new PlayerState()`: the field initialisers of the class. */
  function NewPlayerState(): (s: PlayerState)
    ensures s.guid == EmptyGuid && s.name == None
    ensures s.position == ZeroVector && s.velocity == ZeroVector
    ensures s.rotation == IdentityQuaternion
    ensures s.isAlive
  {
    PlayerState(EmptyGuid, None, ZeroVector, IdentityQuaternion, ZeroVector, true)
  }

  /** Clone(): a new record built field by field from this one. */
  function Clone(s: PlayerState): (c: PlayerState)
    ensures c.guid == s.guid && c.name == s.name
    ensures c.position == s.position && c.rotation == s.rotation
    ensures c.velocity == s.velocity && c.isAlive == s.isAlive
  {
    PlayerState(s.guid, s.name, s.position, s.rotation, s.velocity, s.isAlive)
  }

  /** Cloning a clone gives the same field values as cloning once. */
  lemma CloneIdempotent(s: PlayerState)
    ensures Clone(Clone(s)) == Clone(s)
    ensures Clone(s) == s
  {
  }
}
