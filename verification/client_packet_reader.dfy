/** The client's own PacketReader: the same reads as the shared one, except that ReadGuid
    checks for 16 bytes before reading, so a cut identifier is EndOfStream and the cursor
    stays put. Each read is proved against the Wire decoder for the client copy. */
module ClientPacketReader {
  import opened GameLogic
  import opened Wire

  class PacketReader {
    /** The bytes handed to the constructor; the stream over them is not writable. */
    const data: seq<byte>
    /** The stream's Position. */
    var pos: nat

    ghost predicate Valid()
      reads this
    {
      pos <= |data|
    }

    constructor (bytes: seq<byte>)
      ensures Valid() && data == bytes && pos == 0
    {
      data := bytes;
      pos := 0;
    }

    function Position(): (n: nat)
      reads this
      requires Valid()
      ensures n <= |data|
    {
      pos
    }

    function Length(): (n: nat)
      reads this
      requires Valid()
      ensures Position() <= n
    {
      |data|
    }

    /** EnsureAvailable: false where the source throws EndOfStreamException. */
    method EnsureAvailable(n: int) returns (ok: bool)
      requires Valid()
      ensures ok <==> pos + n <= |data|
    {
      ok := |data| - pos >= n;
    }

    method ReadInt32() returns (r: Result<int32>)
      requires Valid()
      modifies this
      ensures Valid()
      ensures r == Strip(GetInt32(data, old(pos)))
      ensures r.Ok? ==> pos == old(pos) + 4
      ensures r.Err? ==> pos == old(pos)
    {
      var ok := EnsureAvailable(4);
      if !ok {
        return Err(EndOfStream);
      }
      var b := data[pos..pos + 4];
      pos := pos + 4;
      r := Ok(DecodeInt32(b));
    }

    method ReadFloat() returns (r: Result<Float32>)
      requires Valid()
      modifies this
      ensures Valid()
      ensures r == Strip(GetFloat(data, old(pos)))
      ensures r.Ok? ==> pos == old(pos) + 4
      ensures r.Err? ==> pos == old(pos)
    {
      var ok := EnsureAvailable(4);
      if !ok {
        return Err(EndOfStream);
      }
      r := Ok(DecodeFloat(data[pos..pos + 4]));
      pos := pos + 4;
    }

    method ReadBoolean() returns (r: Result<bool>)
      requires Valid()
      modifies this
      ensures Valid()
      ensures r == Strip(GetBoolean(data, old(pos)))
      ensures r.Ok? ==> pos == old(pos) + 1
      ensures r.Err? ==> pos == old(pos)
    {
      var ok := EnsureAvailable(1);
      if !ok {
        return Err(EndOfStream);
      }
      r := Ok(data[pos] != 0);
      pos := pos + 1;
    }

    /** ReadString. A one-byte length always passes ValidateStringLength, so only the long
        form can fail it. */
    method ReadString() returns (r: Result<Name>)
      requires Valid()
      modifies this
      ensures Valid()
      ensures r == Strip(GetString(data, old(pos)))
      ensures r.Ok? ==> pos == GetString(data, old(pos)).value.next
      ensures r.Err? ==> old(pos) <= pos
    {
      var ok := EnsureAvailable(1);
      if !ok {
        return Err(EndOfStream);
      }
      var tag := data[pos];
      pos := pos + 1;
      if tag == 0 {
        return Ok(None);
      } else if tag == 1 {
        return Ok(Some([]));
      } else if tag == 2 {
        ok := EnsureAvailable(1);
        if !ok {
          return Err(EndOfStream);
        }
        var length := data[pos];
        pos := pos + 1;
        ok := EnsureAvailable(length);
        if !ok {
          return Err(EndOfStream);
        }
        r := Ok(Some(data[pos..pos + length]));
        pos := pos + length;
      } else if tag == 3 {
        var length :- ReadInt32();
        if !ValidStringLength(length) {
          return Err(InvalidData);
        }
        ok := EnsureAvailable(length);
        if !ok {
          return Err(EndOfStream);
        }
        r := Ok(Some(data[pos..pos + length]));
        pos := pos + length;
      } else {
        r := Err(InvalidData);
      }
    }

    method ReadVector3() returns (r: Result<Vector3>)
      requires Valid()
      modifies this
      ensures Valid()
      ensures r == Strip(GetVector3(data, old(pos)))
      ensures r.Ok? ==> pos == old(pos) + 12
      ensures r.Err? ==> old(pos) <= pos
    {
      var x :- ReadFloat();
      var y :- ReadFloat();
      var z :- ReadFloat();
      r := Ok(Vector3(x, y, z));
    }

    method ReadQuaternion() returns (r: Result<Quaternion>)
      requires Valid()
      modifies this
      ensures Valid()
      ensures r == Strip(GetQuaternion(data, old(pos)))
      ensures r.Ok? ==> pos == old(pos) + 16
      ensures r.Err? ==> old(pos) <= pos
    {
      var x :- ReadFloat();
      var y :- ReadFloat();
      var z :- ReadFloat();
      var w :- ReadFloat();
      r := Ok(Quaternion(x, y, z, w));
    }

    /** ReadGuid: EnsureAvailable(16) first, then the 16 bytes. */
    method ReadGuid() returns (r: Result<Guid>)
      requires Valid()
      modifies this
      ensures Valid()
      ensures r == Strip(GetGuid(ClientCopy, data, old(pos)))
      ensures r.Ok? ==> pos == old(pos) + 16
      ensures r.Err? ==> pos == old(pos)
    {
      var ok := EnsureAvailable(16);
      if !ok {
        return Err(EndOfStream);
      }
      var g: Guid := data[pos..pos + 16];
      pos := pos + 16;
      r := Ok(g);
    }

    /** The four reads ReadPlayerState makes between the identifier and the name. */
    method ReadMotion() returns (r: Result<Motion>)
      requires Valid()
      modifies this
      ensures Valid()
      ensures r == Strip(GetMotion(data, old(pos)))
      ensures r.Ok? ==> pos == old(pos) + 41
      ensures r.Err? ==> old(pos) <= pos
    {
      var position :- ReadVector3();
      var velocity :- ReadVector3();
      var rotation :- ReadQuaternion();
      var alive :- ReadBoolean();
      r := Ok(Motion(position, velocity, rotation, alive));
    }

    /** ReadPlayerState: guid, then position, velocity, rotation and alive, then name. */
    method ReadPlayerState() returns (r: Result<PlayerState>)
      requires Valid()
      modifies this
      ensures Valid()
      ensures r == Strip(GetPlayerState(ClientCopy, data, old(pos)))
      ensures r.Ok? ==> pos == GetPlayerState(ClientCopy, data, old(pos)).value.next
      ensures r.Err? ==> old(pos) <= pos
    {
      var guid :- ReadGuid();
      var motion :- ReadMotion();
      var name :- ReadString();
      r := Ok(PlayerState(guid, name, motion.position, motion.rotation, motion.velocity, motion.isAlive));
    }

    /** HasRemaining: the cursor is before the end. */
    function HasRemaining(): (b: bool)
      reads this
      requires Valid()
      ensures b <==> Available(data, pos, 1)
    {
      pos < |data|
    }

    /** SetPosition: a target outside [0, Length] is ArgumentOutOfRange. */
    method SetPosition(p: int) returns (r: Outcome)
      requires Valid()
      modifies this
      ensures Valid()
      ensures r.Pass? <==> 0 <= p <= |data|
      ensures r.Pass? ==> pos == p
      ensures r.Fail? ==> r.error == OutOfRange && pos == old(pos)
    {
      if p < 0 || p > |data| {
        return Fail(OutOfRange);
      }
      pos := p;
      r := Pass;
    }
  }
}
