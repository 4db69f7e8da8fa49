/** The shared PacketWriter: a MemoryStream buffer with a position, written through a
    BinaryWriter. Every write lands at the position (overwriting, then extending) and moves
    the position past what it wrote. */
module SharedPacketWriter {
  import opened GameLogic
  import opened Wire

  class PacketWriter {
    /** The stream's contents (its Length is |buffer|). */
    var buffer: seq<byte>
    /** The stream's Position. */
    var position: nat

    ghost predicate Valid()
      reads this
    {
      position <= |buffer|
    }

    constructor ()
      ensures Valid() && buffer == [] && position == 0
    {
      buffer := [];
      position := 0;
    }

    function Length(): (n: nat)
      reads this
      requires Valid()
      ensures position <= n
    {
      |buffer|
    }

    function Position(): (n: nat)
      reads this
      requires Valid()
      ensures n <= |buffer|
    {
      position
    }

    /** The BinaryWriter.Write(byte[]) every field write goes through. */
    method WriteBytes(bytes: seq<byte>)
      requires Valid()
      modifies this
      ensures Valid()
      ensures buffer == Splice(old(buffer), old(position), bytes)
      ensures position == old(position) + |bytes|
    {
      buffer := Splice(buffer, position, bytes);
      position := position + |bytes|;
    }

    method WriteInt32(v: int32)
      requires Valid()
      modifies this
      ensures Valid()
      ensures buffer == Splice(old(buffer), old(position), EncodeInt32(v))
      ensures position == old(position) + 4
    {
      WriteBytes(EncodeInt32(v));
    }

    method WriteFloat(f: Float32)
      requires Valid()
      modifies this
      ensures Valid()
      ensures buffer == Splice(old(buffer), old(position), EncodeFloat(f))
      ensures position == old(position) + 4
    {
      WriteBytes(EncodeFloat(f));
    }

    method WriteBoolean(b: bool)
      requires Valid()
      modifies this
      ensures Valid()
      ensures buffer == Splice(old(buffer), old(position), EncodeBool(b))
      ensures position == old(position) + 1
    {
      WriteBytes(EncodeBool(b));
    }

    method WriteGuid(g: Guid)
      requires Valid()
      modifies this
      ensures Valid()
      ensures buffer == Splice(old(buffer), old(position), EncodeGuid(g))
      ensures position == old(position) + 16
    {
      WriteBytes(EncodeGuid(g));
    }

    /** WriteString: on a name over 1 MiB it throws before writing anything. */
    method WriteString(s: Name) returns (r: Outcome)
      requires Valid()
      modifies this
      ensures Valid()
      ensures r.Pass? <==> Encodable(s)
      ensures r.Fail? ==> r.error == InvalidData && buffer == old(buffer) && position == old(position)
      ensures r.Pass? ==> buffer == Splice(old(buffer), old(position), EncodeString(s).value)
      ensures r.Pass? ==> position == old(position) + |EncodeString(s).value|
    {
      if s.None? {
        WriteBytes([0]);
        return Pass;
      }
      var bytes := s.value;
      if |bytes| == 0 {
        WriteBytes([1]);
        return Pass;
      }
      if |bytes| > MaxStringLength {
        return Fail(InvalidData);
      }
      ghost var start, at := buffer, position;
      if |bytes| <= 255 {
        WriteBytes([2]);
        WriteBytes([|bytes|]);
        WriteBytes(bytes);
        ShortStringSplice(start, at, bytes);
      } else {
        WriteBytes([3]);
        WriteInt32(|bytes|);
        WriteBytes(bytes);
        LongStringSplice(start, at, bytes);
      }
      r := Pass;
    }

    method WriteVector3(v: Vector3)
      requires Valid()
      modifies this
      ensures Valid()
      ensures buffer == Splice(old(buffer), old(position), EncodeVector3(v))
      ensures position == old(position) + 12
    {
      ghost var start, at := buffer, position;
      WriteFloat(v.x);
      WriteFloat(v.y);
      SpliceThen(start, at, EncodeFloat(v.x), EncodeFloat(v.y));
      WriteFloat(v.z);
      SpliceThen(start, at, EncodeFloat(v.x) + EncodeFloat(v.y), EncodeFloat(v.z));
    }

    method WriteQuaternion(q: Quaternion)
      requires Valid()
      modifies this
      ensures Valid()
      ensures buffer == Splice(old(buffer), old(position), EncodeQuaternion(q))
      ensures position == old(position) + 16
    {
      ghost var start, at := buffer, position;
      WriteFloat(q.x);
      WriteFloat(q.y);
      SpliceThen(start, at, EncodeFloat(q.x), EncodeFloat(q.y));
      WriteFloat(q.z);
      SpliceThen(start, at, EncodeFloat(q.x) + EncodeFloat(q.y), EncodeFloat(q.z));
      WriteFloat(q.w);
      SpliceThen(start, at, EncodeFloat(q.x) + EncodeFloat(q.y) + EncodeFloat(q.z), EncodeFloat(q.w));
    }

    /** The four writes WritePlayerState makes between the identifier and the name. */
    method WriteMotion(m: Motion)
      requires Valid()
      modifies this
      ensures Valid()
      ensures buffer == Splice(old(buffer), old(position), EncodeMotion(m))
      ensures position == old(position) + 41
    {
      ghost var start, at := buffer, position;
      WriteVector3(m.position);
      WriteVector3(m.velocity);
      WriteQuaternion(m.rotation);
      WriteBoolean(m.isAlive);
      MotionSplice(start, at, m);
    }

    /** WritePlayerState: the guid first, then the rest. A name over 1 MiB throws from
        WriteString after the 57 bytes of the fixed part have been written. */
    method WritePlayerState(p: PlayerState) returns (r: Outcome)
      requires Valid()
      modifies this
      ensures Valid()
      ensures r.Pass? <==> EncodableState(p)
      ensures r.Pass? ==> buffer == Splice(old(buffer), old(position), EncodePlayerState(p).value)
      ensures r.Pass? ==> position == old(position) + |EncodePlayerState(p).value|
      ensures r.Fail? ==> r.error == InvalidData
      ensures r.Fail? ==> buffer == Splice(old(buffer), old(position), EncodeFixedPart(p))
      ensures r.Fail? ==> position == old(position) + FixedRecordLength
    {
      ghost var start, at := buffer, position;
      WriteGuid(p.guid);
      WriteMotion(MotionOf(p));
      SpliceThen(start, at, EncodeGuid(p.guid), EncodeMotion(MotionOf(p)));
      r := WriteString(p.name);
      if r.Pass? {
        RecordSplice(start, at, p);
      }
    }

    /** SetPosition: a target outside [0, Length] is ArgumentOutOfRange. */
    method SetPosition(p: int) returns (r: Outcome)
      requires Valid()
      modifies this
      ensures Valid() && buffer == old(buffer)
      ensures r.Pass? <==> 0 <= p <= |buffer|
      ensures r.Pass? ==> position == p
      ensures r.Fail? ==> r.error == OutOfRange && position == old(position)
    {
      if p < 0 || p > |buffer| {
        return Fail(OutOfRange);
      }
      position := p;
      r := Pass;
    }

    /** Reset: position 0 and length 0. */
    method Reset()
      requires Valid()
      modifies this
      ensures Valid() && buffer == [] && position == 0
    {
      position := 0;
      buffer := [];
    }

    /** ToArray: a copy of the contents up to Length. */
    method ToArray() returns (bytes: seq<byte>)
      requires Valid()
      ensures bytes == buffer
    {
      bytes := buffer;
    }
  }

  /** A fresh writer given one record holds exactly that record's encoding, so what the
      snapshot and upload builders send is the wire layout. */
  method WriteRecordToFreshWriter(p: PlayerState) returns (bytes: seq<byte>, r: Outcome)
    ensures r.Pass? <==> EncodableState(p)
    ensures r.Pass? ==> bytes == EncodePlayerState(p).value
    ensures r.Fail? ==> bytes == EncodeFixedPart(p)
  {
    var writer := new PacketWriter();
    r := writer.WritePlayerState(p);
    SpliceAtEnd([], if r.Pass? then EncodePlayerState(p).value else EncodeFixedPart(p));
    bytes := writer.ToArray();
  }
}
