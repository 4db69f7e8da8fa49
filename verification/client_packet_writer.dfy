/** The client's own PacketWriter: a MemoryStream that is only ever appended to (the class
    exposes no way to move its position), written through a BinaryWriter. Every write is
    proved to append exactly the Wire encoding of its argument. */
module ClientPacketWriter {
  import opened GameLogic
  import opened Wire

  class PacketWriter {
    /** The stream's contents; the position is always at the end. */
    var buffer: seq<byte>

    constructor ()
      ensures buffer == []
    {
      buffer := [];
    }

    function Length(): (n: nat)
      reads this
      ensures n == |buffer|
    {
      |buffer|
    }

    /** The BinaryWriter.Write(byte[]) every field write goes through. */
    method WriteBytes(bytes: seq<byte>)
      modifies this
      ensures buffer == old(buffer) + bytes
    {
      buffer := buffer + bytes;
    }

    method WriteInt32(v: int32)
      modifies this
      ensures buffer == old(buffer) + EncodeInt32(v)
    {
      WriteBytes(EncodeInt32(v));
    }

    method WriteFloat(f: Float32)
      modifies this
      ensures buffer == old(buffer) + EncodeFloat(f)
    {
      WriteBytes(EncodeFloat(f));
    }

    method WriteBoolean(b: bool)
      modifies this
      ensures buffer == old(buffer) + EncodeBool(b)
    {
      WriteBytes(EncodeBool(b));
    }

    method WriteGuid(g: Guid)
      modifies this
      ensures buffer == old(buffer) + EncodeGuid(g)
    {
      WriteBytes(EncodeGuid(g));
    }

    /** WriteString: on a name over 1 MiB it throws before writing anything. */
    method WriteString(s: Name) returns (r: Outcome)
      modifies this
      ensures r.Pass? <==> Encodable(s)
      ensures r.Fail? ==> r.error == InvalidData && buffer == old(buffer)
      ensures r.Pass? ==> buffer == old(buffer) + EncodeString(s).value
    {
      if s.None? {
        WriteBytes([0]);
        return Pass;
      }
      var bytes := s.value;
      if |bytes| == 0 {
        WriteBytes([1]);
        return Pass;
      }
      if |bytes| > MaxStringLength {
        return Fail(InvalidData);
      }
      ghost var start := buffer;
      if |bytes| <= 255 {
        WriteBytes([2]);
        WriteBytes([|bytes|]);
        WriteBytes(bytes);
        ShortStringAppend(start, bytes);
      } else {
        WriteBytes([3]);
        WriteInt32(|bytes|);
        WriteBytes(bytes);
        LongStringAppend(start, bytes);
      }
      r := Pass;
    }

    method WriteVector3(v: Vector3)
      modifies this
      ensures buffer == old(buffer) + EncodeVector3(v)
    {
      WriteFloat(v.x);
      WriteFloat(v.y);
      WriteFloat(v.z);
      assert buffer == old(buffer) + (EncodeFloat(v.x) + EncodeFloat(v.y) + EncodeFloat(v.z));
    }

    method WriteQuaternion(q: Quaternion)
      modifies this
      ensures buffer == old(buffer) + EncodeQuaternion(q)
    {
      WriteFloat(q.x);
      WriteFloat(q.y);
      WriteFloat(q.z);
      WriteFloat(q.w);
      assert buffer == old(buffer) + (EncodeFloat(q.x) + EncodeFloat(q.y) + EncodeFloat(q.z) + EncodeFloat(q.w));
    }

    /** The four writes WritePlayerState makes between the identifier and the name. */
    method WriteMotion(m: Motion)
      modifies this
      ensures buffer == old(buffer) + EncodeMotion(m)
    {
      WriteVector3(m.position);
      WriteVector3(m.velocity);
      WriteQuaternion(m.rotation);
      WriteBoolean(m.isAlive);
      assert buffer == old(buffer) + (EncodeVector3(m.position) + EncodeVector3(m.velocity)
        + EncodeQuaternion(m.rotation) + EncodeBool(m.isAlive));
    }

    /** WritePlayerState: the guid first, then the rest. A name over 1 MiB throws from
        WriteString after the 57 bytes of the fixed part have been appended. */
    method WritePlayerState(p: PlayerState) returns (r: Outcome)
      modifies this
      ensures r.Pass? <==> EncodableState(p)
      ensures r.Pass? ==> buffer == old(buffer) + EncodePlayerState(p).value
      ensures r.Fail? ==> r.error == InvalidData
      ensures r.Fail? ==> buffer == old(buffer) + EncodeFixedPart(p)
    {
      ghost var start := buffer;
      WriteGuid(p.guid);
      WriteMotion(MotionOf(p));
      assert buffer == start + EncodeFixedPart(p);
      r := WriteString(p.name);
      if r.Pass? {
        RecordAppend(start, p);
      }
    }

    /** Reset: position 0 and length 0. */
    method Reset()
      modifies this
      ensures buffer == []
    {
      buffer := [];
    }

    /** ToArray: a copy of the contents. */
    method ToArray() returns (bytes: seq<byte>)
      ensures bytes == buffer
    {
      bytes := buffer;
    }
  }

  /** A fresh client writer given one record holds exactly that record's encoding, the same
      bytes the shared writer produces; this is the upload the server decodes. */
  method WriteRecordToFreshWriter(p: PlayerState) returns (bytes: seq<byte>, r: Outcome)
    ensures r.Pass? <==> EncodableState(p)
    ensures r.Pass? ==> bytes == EncodePlayerState(p).value
    ensures r.Fail? ==> bytes == EncodeFixedPart(p)
  {
    var writer := new PacketWriter();
    r := writer.WritePlayerState(p);
    bytes := writer.ToArray();
  }
}
