/** The byte layout of the wire protocol, as pure functions over a byte sequence and a cursor.
    The packet writer and reader classes are proved against these functions; the lemmas here
    state what the layout guarantees (round trip, truncation, the string-tag boundaries). */
module Wire {
  import opened GameLogic

  /** MaxStringLength in both codec copies: 1 MiB of UTF-8. */
  const MaxStringLength := 1024 * 1024

  /** Bytes of the part of a PlayerState record that precedes the name:
      guid 16, position 12, velocity 12, rotation 16, alive 1. */
  const FixedRecordLength := 57

  type int32 = x: int | -0x8000_0000 <= x < 0x8000_0000

  /** C#'s unchecked 32-bit wrap-around of an int. */
  function WrapInt32(x: int): (r: int32)
    ensures (r - x) % 0x1_0000_0000 == 0
    ensures -0x8000_0000 <= x < 0x8000_0000 ==> r == x
  {
    (x + 0x8000_0000) % 0x1_0000_0000 - 0x8000_0000
  }

  /** The exceptions the codec throws: EndOfStreamException, InvalidDataException, the
      ArgumentException of `new Guid(byte[])` for a short array, and
      ArgumentOutOfRangeException from SetPosition. */
  datatype Error = EndOfStream | InvalidData | InvalidGuid | OutOfRange

  datatype Result<T> = Ok(value: T) | Err(error: Error) {
    predicate IsFailure() { Err? }
    function PropagateFailure<U>(): Result<U> requires Err? { Err(error) }
    function Extract(): T requires Ok? { value }
  }

  datatype Outcome = Pass | Fail(error: Error)

  /** A decoded value and the cursor just after it. */
  datatype Parsed<T> = Parsed(value: T, next: nat)

  /** What a reader method returns: the value without the cursor. */
  function Strip<T>(r: Result<Parsed<T>>): Result<T>
  {
    match r
    case Ok(p) => Ok(p.value)
    case Err(e) => Err(e)
  }

  /** The two copies of the reader differ only in ReadGuid. */
  datatype Copy = SharedCopy | ClientCopy

  // ---------------------------------------------------------------------------
  // Encoding
  // ---------------------------------------------------------------------------

  /** The n low-order bytes of u, least significant first. */
  function LittleEndian(u: nat, n: nat): (r: seq<byte>)
    ensures |r| == n
    decreases n
  {
    if n == 0 then [] else [u % 256] + LittleEndian(u / 256, n - 1)
  }

  /** BinaryWriter.Write(int): four bytes, two's complement, least significant first. */
  function EncodeInt32(v: int32): (r: seq<byte>)
    ensures |r| == 4
  {
    LittleEndian(if v < 0 then v as int + 0x1_0000_0000 else v as int, 4)
  }

  function DecodeInt32(b: seq<byte>): int32
    requires |b| == 4
  {
    var u := b[0] as int + 256 * (b[1] as int + 256 * (b[2] as int + 256 * b[3] as int));
    if u < 0x8000_0000 then u else u - 0x1_0000_0000
  }

  function EncodeFloat(f: Float32): (r: seq<byte>)
    ensures |r| == 4
  {
    [f.b0, f.b1, f.b2, f.b3]
  }

  function DecodeFloat(b: seq<byte>): Float32
    requires |b| == 4
  {
    Float32(b[0], b[1], b[2], b[3])
  }

  /** BinaryWriter.Write(bool): one byte, 1 for true and 0 for false. */
  function EncodeBool(b: bool): (r: seq<byte>)
    ensures |r| == 1
  {
    [if b then 1 else 0]
  }

  /** Guid.ToByteArray(): the 16 raw bytes, no length prefix. */
  function EncodeGuid(g: Guid): (r: seq<byte>)
    ensures |r| == 16
  {
    g
  }

  function EncodeVector3(v: Vector3): (r: seq<byte>)
    ensures |r| == 12
  {
    EncodeFloat(v.x) + EncodeFloat(v.y) + EncodeFloat(v.z)
  }

  function EncodeQuaternion(q: Quaternion): (r: seq<byte>)
    ensures |r| == 16
  {
    EncodeFloat(q.x) + EncodeFloat(q.y) + EncodeFloat(q.z) + EncodeFloat(q.w)
  }

  /** A name the writer accepts: null, or at most MaxStringLength bytes of UTF-8. */
  predicate Encodable(s: Name)
  {
    s.None? || |s.value| <= MaxStringLength
  }

  /** WriteString: tag 0 for null, 1 for empty, 2 with a one-byte length up to 255 bytes,
      3 with a four-byte length beyond; longer than MaxStringLength is InvalidData. */
  function EncodeString(s: Name): (r: Result<seq<byte>>)
    ensures r.Ok? <==> Encodable(s)
    ensures r.Ok? ==> 1 <= |r.value| && r.value[0] <= 3
  {
    match s
    case None => Ok([0])
    case Some(b) =>
      if |b| == 0 then Ok([1])
      else if |b| > MaxStringLength then Err(InvalidData)
      else if |b| <= 255 then Ok([2, |b|] + b)
      else Ok([3] + EncodeInt32(|b|) + b)
  }

  /** The four fields a record holds between its identifier and its name. */
  datatype Motion = Motion(position: Vector3, velocity: Vector3, rotation: Quaternion, isAlive: bool)

  function MotionOf(p: PlayerState): Motion
  {
    Motion(p.position, p.velocity, p.rotation, p.isAlive)
  }

  /** WritePlayerState's writes after the identifier and before the name. */
  function EncodeMotion(m: Motion): (r: seq<byte>)
    ensures |r| == 41
  {
    EncodeVector3(m.position) + EncodeVector3(m.velocity) + EncodeQuaternion(m.rotation)
      + EncodeBool(m.isAlive)
  }

  /** The part of WritePlayerState before the name: guid, position, velocity, rotation, alive. */
  function EncodeFixedPart(p: PlayerState): (r: seq<byte>)
    ensures |r| == FixedRecordLength
  {
    EncodeGuid(p.guid) + EncodeMotion(MotionOf(p))
  }

  predicate EncodableState(p: PlayerState)
  {
    Encodable(p.name)
  }

  /** WritePlayerState: the fixed part followed by the name. */
  function EncodePlayerState(p: PlayerState): (r: Result<seq<byte>>)
    ensures r.Ok? <==> EncodableState(p)
    ensures r.Ok? ==> |r.value| == FixedRecordLength + |EncodeString(p.name).value|
    ensures r.Ok? ==> r.value[..FixedRecordLength] == EncodeFixedPart(p)
  {
    var name :- EncodeString(p.name);
    Ok(EncodeFixedPart(p) + name)
  }

  /** Records back to back, as a snapshot body holds them. */
  function EncodeRecords(states: seq<PlayerState>): (r: seq<byte>)
    requires forall i | 0 <= i < |states| :: EncodableState(states[i])
  {
    if states == [] then []
    else EncodePlayerState(states[0]).value + EncodeRecords(states[1..])
  }

  /** One more record at the end of a run of records adds its encoding at the end. */
  lemma {:induction false} EncodeRecordsSnoc(states: seq<PlayerState>, p: PlayerState)
    requires forall i | 0 <= i < |states| :: EncodableState(states[i])
    requires EncodableState(p)
    ensures EncodeRecords(states + [p]) == EncodeRecords(states) + EncodePlayerState(p).value
    decreases |states|
  {
    if states == [] {
      assert [] + [p] == [p];
      assert [p][1..] == [];
    } else {
      EncodeRecordsSnoc(states[1..], p);
      assert (states + [p])[1..] == states[1..] + [p];
    }
  }

  /** A datagram envelope: identifier, 32-bit integer, then the records. */
  function Envelope(g: Guid, id: int32, body: seq<byte>): (r: seq<byte>)
    ensures |r| == 20 + |body| && r[20..] == body
  {
    EncodeGuid(g) + EncodeInt32(id) + body
  }

  // ---------------------------------------------------------------------------
  // Decoding: each function is one reader operation started at cursor `pos`
  // ---------------------------------------------------------------------------

  /** EnsureAvailable(n): at least n bytes remain after the cursor. */
  predicate Available(data: seq<byte>, pos: nat, n: int)
  {
    |data| - pos >= n
  }

  /** ValidateStringLength. */
  predicate ValidStringLength(length: int)
  {
    0 <= length <= MaxStringLength
  }

  function GetByte(data: seq<byte>, pos: nat): (r: Result<Parsed<byte>>)
    requires pos <= |data|
    ensures r.Ok? <==> Available(data, pos, 1)
    ensures r.Ok? ==> r.value.next == pos + 1 && r.value.value == data[pos]
    ensures r.Err? ==> r.error == EndOfStream
  {
    if !Available(data, pos, 1) then Err(EndOfStream) else Ok(Parsed(data[pos], pos + 1))
  }

  /** EnsureAvailable(n) followed by ReadBytes(n). */
  function GetBytes(data: seq<byte>, pos: nat, n: nat): (r: Result<Parsed<seq<byte>>>)
    requires pos <= |data|
    ensures r.Ok? <==> Available(data, pos, n)
    ensures r.Ok? ==> r.value.next == pos + n && r.value.value == data[pos..pos + n]
    ensures r.Err? ==> r.error == EndOfStream
  {
    if !Available(data, pos, n) then Err(EndOfStream) else Ok(Parsed(data[pos..pos + n], pos + n))
  }

  function GetInt32(data: seq<byte>, pos: nat): (r: Result<Parsed<int32>>)
    requires pos <= |data|
    ensures r.Ok? <==> Available(data, pos, 4)
    ensures r.Ok? ==> r.value.next == pos + 4
    ensures r.Err? ==> r.error == EndOfStream
  {
    if !Available(data, pos, 4) then Err(EndOfStream)
    else Ok(Parsed(DecodeInt32(data[pos..pos + 4]), pos + 4))
  }

  function GetFloat(data: seq<byte>, pos: nat): (r: Result<Parsed<Float32>>)
    requires pos <= |data|
    ensures r.Ok? <==> Available(data, pos, 4)
    ensures r.Ok? ==> r.value.next == pos + 4 && EncodeFloat(r.value.value) == data[pos..pos + 4]
    ensures r.Err? ==> r.error == EndOfStream
  {
    if !Available(data, pos, 4) then Err(EndOfStream)
    else Ok(Parsed(DecodeFloat(data[pos..pos + 4]), pos + 4))
  }

  /** ReadBoolean: any nonzero byte is true. */
  function GetBoolean(data: seq<byte>, pos: nat): (r: Result<Parsed<bool>>)
    requires pos <= |data|
    ensures r.Ok? <==> Available(data, pos, 1)
    ensures r.Ok? ==> r.value.next == pos + 1 && r.value.value == (data[pos] != 0)
    ensures r.Err? ==> r.error == EndOfStream
  {
    var b :- GetByte(data, pos);
    Ok(Parsed(b.value != 0, b.next))
  }

  /** ReadGuid. The client copy checks for 16 bytes first (EndOfStream); the shared copy
      does not, so ReadBytes returns what is left and `new Guid` rejects the short array. */
  function GetGuid(copy: Copy, data: seq<byte>, pos: nat): (r: Result<Parsed<Guid>>)
    requires pos <= |data|
    ensures r.Ok? <==> Available(data, pos, 16)
    ensures r.Ok? ==> r.value.next == pos + 16 && r.value.value == data[pos..pos + 16]
    ensures r.Err? ==> r.error == (if copy == SharedCopy then InvalidGuid else EndOfStream)
  {
    if !Available(data, pos, 16) then Err(if copy == SharedCopy then InvalidGuid else EndOfStream)
    else Ok(Parsed(data[pos..pos + 16], pos + 16))
  }

  function GetVector3(data: seq<byte>, pos: nat): (r: Result<Parsed<Vector3>>)
    requires pos <= |data|
    ensures r.Ok? <==> Available(data, pos, 12)
    ensures r.Ok? ==> r.value.next == pos + 12
    ensures r.Err? ==> r.error == EndOfStream
  {
    var x :- GetFloat(data, pos);
    var y :- GetFloat(data, x.next);
    var z :- GetFloat(data, y.next);
    Ok(Parsed(Vector3(x.value, y.value, z.value), z.next))
  }

  function GetQuaternion(data: seq<byte>, pos: nat): (r: Result<Parsed<Quaternion>>)
    requires pos <= |data|
    ensures r.Ok? <==> Available(data, pos, 16)
    ensures r.Ok? ==> r.value.next == pos + 16
    ensures r.Err? ==> r.error == EndOfStream
  {
    var x :- GetFloat(data, pos);
    var y :- GetFloat(data, x.next);
    var z :- GetFloat(data, y.next);
    var w :- GetFloat(data, z.next);
    Ok(Parsed(Quaternion(x.value, y.value, z.value, w.value), w.next))
  }

  /** ReadString. Never reads past the end; a decoded name is always one the writer accepts.
      Tags 0 and 1 take one byte; tag 2 is followed by a one-byte length, tag 3 by a 4-byte
      length that must lie in [0, 1 MiB]; then that many bytes are the name. */
  function GetString(data: seq<byte>, pos: nat): (r: Result<Parsed<Name>>)
    requires pos <= |data|
    ensures r.Ok? ==> pos < r.value.next <= |data| && Encodable(r.value.value)
    ensures !Available(data, pos, 1) ==> r == Err(EndOfStream)
    ensures Available(data, pos, 1) && data[pos] > 3 ==> r == Err(InvalidData)
    ensures Available(data, pos, 1) && data[pos] == 0 ==> r == Ok(Parsed(None, pos + 1))
    ensures Available(data, pos, 1) && data[pos] == 1 ==> r == Ok(Parsed(Some([]), pos + 1))
    ensures Available(data, pos, 1) && data[pos] == 2 && r.Err? ==> r.error == EndOfStream
    ensures Available(data, pos, 1) && data[pos] == 2 ==>
              (r.Ok? <==> Available(data, pos, 2) && Available(data, pos + 2, data[pos + 1]))
    ensures Available(data, pos, 2) && data[pos] == 2 && r.Ok? ==>
              r.value == Parsed(Some(data[pos + 2..pos + 2 + data[pos + 1]]), pos + 2 + data[pos + 1])
    ensures Available(data, pos, 1) && data[pos] == 3 && !Available(data, pos, 5) ==> r == Err(EndOfStream)
    ensures Available(data, pos, 5) && data[pos] == 3 && !ValidStringLength(DecodeInt32(data[pos + 1..pos + 5])) ==>
              r == Err(InvalidData)
    ensures Available(data, pos, 5) && data[pos] == 3 && ValidStringLength(DecodeInt32(data[pos + 1..pos + 5])) ==>
              var n := DecodeInt32(data[pos + 1..pos + 5]);
              (r.Ok? <==> Available(data, pos + 5, n)) &&
              (r.Ok? ==> r.value == Parsed(Some(data[pos + 5..pos + 5 + n]), pos + 5 + n)) &&
              (r.Err? ==> r.error == EndOfStream)
  {
    var tag :- GetByte(data, pos);
    if tag.value == 0 then Ok(Parsed(None, tag.next))
    else if tag.value == 1 then Ok(Parsed(Some([]), tag.next))
    else if tag.value == 2 then
      var length :- GetByte(data, tag.next);
      if !ValidStringLength(length.value) then Err(InvalidData)
      else
        var bytes :- GetBytes(data, length.next, length.value);
        Ok(Parsed(Some(bytes.value), bytes.next))
    else if tag.value == 3 then
      var length :- GetInt32(data, tag.next);
      if !ValidStringLength(length.value) then Err(InvalidData)
      else
        var bytes :- GetBytes(data, length.next, length.value);
        Ok(Parsed(Some(bytes.value), bytes.next))
    else Err(InvalidData)
  }

  /** ReadPlayerState's reads after the identifier: position, velocity, rotation, alive. */
  function GetMotion(data: seq<byte>, pos: nat): (r: Result<Parsed<Motion>>)
    requires pos <= |data|
    ensures r.Ok? <==> Available(data, pos, 41)
    ensures r.Ok? ==> r.value.next == pos + 41
    ensures r.Err? ==> r.error == EndOfStream
  {
    var position :- GetVector3(data, pos);
    var velocity :- GetVector3(data, position.next);
    var rotation :- GetQuaternion(data, velocity.next);
    var alive :- GetBoolean(data, rotation.next);
    Ok(Parsed(Motion(position.value, velocity.value, rotation.value, alive.value), alive.next))
  }

  /** ReadPlayerState: the six fields in wire order. */
  function GetPlayerState(copy: Copy, data: seq<byte>, pos: nat): (r: Result<Parsed<PlayerState>>)
    requires pos <= |data|
    ensures r.Ok? ==> pos + FixedRecordLength < r.value.next <= |data|
    ensures r.Ok? ==> EncodableState(r.value.value)
    ensures r.Ok? ==> r.value.value.guid == data[pos..pos + 16]
  {
    var g :- GetGuid(copy, data, pos);
    var m :- GetMotion(data, g.next);
    var name :- GetString(data, m.next);
    var f := m.value;
    Ok(Parsed(PlayerState(g.value, name.value, f.position, f.rotation, f.velocity, f.isAlive), name.next))
  }

  /** GetPlayerState fails with the first field that fails, and otherwise assembles the three parts. */
  lemma GetPlayerStateSteps(copy: Copy, data: seq<byte>, pos: nat)
    requires pos <= |data|
    ensures !Available(data, pos, 16) ==> GetPlayerState(copy, data, pos) == Err(GetGuid(copy, data, pos).error)
    ensures Available(data, pos, 16) && !Available(data, pos + 16, 41) ==> GetPlayerState(copy, data, pos) == Err(EndOfStream)
    ensures Available(data, pos, 57) && GetString(data, pos + 57).Err? ==>
              GetPlayerState(copy, data, pos) == Err(GetString(data, pos + 57).error)
    ensures Available(data, pos, 57) && GetString(data, pos + 57).Ok? ==>
              var f := GetMotion(data, pos + 16).value.value;
              var name := GetString(data, pos + 57).value;
              GetPlayerState(copy, data, pos) ==
                Ok(Parsed(PlayerState(data[pos..pos + 16], name.value, f.position, f.rotation, f.velocity, f.isAlive), name.next))
  {
  }


  // ---------------------------------------------------------------------------
  // The writer's buffer: MemoryStream writes at its position, overwriting and extending
  // ---------------------------------------------------------------------------

  /** MemoryStream.WriteByte at position `at`: overwrite inside the stream, extend at its end. */
  function PutByte(buf: seq<byte>, at: nat, b: byte): (r: seq<byte>)
    requires at <= |buf|
    ensures |r| == if at < |buf| then |buf| else at + 1
  {
    if at < |buf| then buf[at := b] else buf + [b]
  }

  /** The buffer after writing `bytes` at position `at`, one byte after another. */
  function Splice(buf: seq<byte>, at: nat, bytes: seq<byte>): (r: seq<byte>)
    requires at <= |buf|
    ensures |r| == if at + |bytes| > |buf| then at + |bytes| else |buf|
    decreases |bytes|
  {
    if bytes == [] then buf
    else Splice(PutByte(buf, at, bytes[0]), at + 1, bytes[1..])
  }

  /** A write keeps the bytes before the position, holds `bytes` after it, and keeps
      whatever followed the overwritten stretch. */
  lemma {:induction false} SpliceParts(buf: seq<byte>, at: nat, bytes: seq<byte>)
    requires at <= |buf|
    ensures var r := Splice(buf, at, bytes);
            && (forall i | 0 <= i < at :: r[i] == buf[i])
            && (forall i | 0 <= i < |bytes| :: r[at + i] == bytes[i])
            && (forall i | at + |bytes| <= i < |buf| :: r[i] == buf[i])
    decreases |bytes|
  {
    if bytes != [] {
      var next := PutByte(buf, at, bytes[0]);
      SpliceParts(next, at + 1, bytes[1..]);
      var r := Splice(buf, at, bytes);
      assert r == Splice(next, at + 1, bytes[1..]);
      forall i | 0 <= i < |bytes| ensures r[at + i] == bytes[i] {
        if i > 0 {
          assert r[at + 1 + (i - 1)] == bytes[1..][i - 1];
        }
      }
    }
  }

  /** At the end of the buffer (the only place a writer is without SetPosition), a write appends. */
  lemma {:induction false} SpliceAtEnd(buf: seq<byte>, bytes: seq<byte>)
    ensures Splice(buf, |buf|, bytes) == buf + bytes
    decreases |bytes|
  {
    if bytes != [] {
      SpliceAtEnd(buf + [bytes[0]], bytes[1..]);
      assert buf + [bytes[0]] + bytes[1..] == buf + bytes;
    }
  }

  /** Two consecutive writes are one write of the concatenation. */
  lemma {:induction false} SpliceThen(buf: seq<byte>, at: nat, x: seq<byte>, y: seq<byte>)
    requires at <= |buf|
    ensures Splice(Splice(buf, at, x), at + |x|, y) == Splice(buf, at, x + y)
    decreases |x|
  {
    if x != [] {
      SpliceThen(PutByte(buf, at, x[0]), at + 1, x[1..], y);
      assert (x + y)[0] == x[0];
      assert (x + y)[1..] == x[1..] + y;
    } else {
      assert x + y == y;
    }
  }

  /** Three consecutive writes are one write of the concatenation. */
  lemma SpliceThree(buf: seq<byte>, at: nat, x: seq<byte>, y: seq<byte>, z: seq<byte>)
    requires at <= |buf|
    ensures Splice(Splice(Splice(buf, at, x), at + |x|, y), at + |x| + |y|, z)
            == Splice(buf, at, x + y + z)
  {
    SpliceThen(buf, at, x, y);
    SpliceThen(buf, at, x + y, z);
  }

  /** WriteString's three writes of a short string are the write of its encoding. */
  lemma ShortStringSplice(buf: seq<byte>, at: nat, bytes: seq<byte>)
    requires at <= |buf| && 1 <= |bytes| <= 255
    ensures Splice(Splice(Splice(buf, at, [2]), at + 1, [|bytes|]), at + 2, bytes)
            == Splice(buf, at, EncodeString(Some(bytes)).value)
  {
    SpliceThree(buf, at, [2], [|bytes|], bytes);
    assert [2] + [|bytes|] + bytes == EncodeString(Some(bytes)).value;
  }

  /** WriteString's three writes of a long string are the write of its encoding. */
  lemma LongStringSplice(buf: seq<byte>, at: nat, bytes: seq<byte>)
    requires at <= |buf| && 255 < |bytes| <= MaxStringLength
    ensures Splice(Splice(Splice(buf, at, [3]), at + 1, EncodeInt32(|bytes|)), at + 5, bytes)
            == Splice(buf, at, EncodeString(Some(bytes)).value)
  {
    SpliceThree(buf, at, [3], EncodeInt32(|bytes|), bytes);
  }

  /** The four writes after the identifier are the write of the motion fields. */
  lemma MotionSplice(buf: seq<byte>, at: nat, m: Motion)
    requires at <= |buf|
    ensures Splice(Splice(Splice(Splice(buf, at, EncodeVector3(m.position)),
              at + 12, EncodeVector3(m.velocity)), at + 24, EncodeQuaternion(m.rotation)),
              at + 40, EncodeBool(m.isAlive))
            == Splice(buf, at, EncodeMotion(m))
  {
    var v1, v2 := EncodeVector3(m.position), EncodeVector3(m.velocity);
    var q, b := EncodeQuaternion(m.rotation), EncodeBool(m.isAlive);
    SpliceThen(buf, at, v1, v2);
    SpliceThen(buf, at, v1 + v2, q);
    SpliceThen(buf, at, v1 + v2 + q, b);
  }

  /** The fixed part followed by the name is the write of the whole record. */
  lemma RecordSplice(buf: seq<byte>, at: nat, p: PlayerState)
    requires at <= |buf| && EncodableState(p)
    ensures Splice(Splice(buf, at, EncodeFixedPart(p)), at + FixedRecordLength, EncodeString(p.name).value)
            == Splice(buf, at, EncodePlayerState(p).value)
  {
    SpliceThen(buf, at, EncodeFixedPart(p), EncodeString(p.name).value);
  }

  /** The three appends of a short string are the append of its encoding. */
  lemma ShortStringAppend(buf: seq<byte>, bytes: seq<byte>)
    requires 0 < |bytes| <= 255
    ensures buf + [2] + [|bytes|] + bytes == buf + EncodeString(Some(bytes)).value
  {
    assert EncodeString(Some(bytes)).value == [2, |bytes|] + bytes;
  }

  /** The three appends of a long string are the append of its encoding. */
  lemma LongStringAppend(buf: seq<byte>, bytes: seq<byte>)
    requires 255 < |bytes| <= MaxStringLength
    ensures buf + [3] + EncodeInt32(|bytes|) + bytes == buf + EncodeString(Some(bytes)).value
  {
    assert EncodeString(Some(bytes)).value == [3] + EncodeInt32(|bytes|) + bytes;
  }

  /** Appending the fixed part and then the name appends the whole record. */
  lemma RecordAppend(buf: seq<byte>, p: PlayerState)
    requires EncodableState(p)
    ensures buf + EncodeFixedPart(p) + EncodeString(p.name).value == buf + EncodePlayerState(p).value
  {
    assert EncodePlayerState(p).value == EncodeFixedPart(p) + EncodeString(p.name).value;
  }

  // ---------------------------------------------------------------------------
  // Properties of the layout
  // ---------------------------------------------------------------------------

  lemma DivModByte(u: int, q: int, r: int)
    requires 0 <= r < 256 && u == 256 * q + r
    ensures u / 256 == q && u % 256 == r
  {
  }

  /** The four bytes of u, written out. */
  lemma LittleEndianFour(u: nat, b0: byte, b1: byte, b2: byte, b3: byte)
    requires u == b0 + 256 * (b1 + 256 * (b2 + 256 * b3))
    ensures LittleEndian(u, 4) == [b0, b1, b2, b3]
  {
    var q1 := b1 + 256 * (b2 + 256 * b3);
    var q2 := b2 + 256 * b3;
    DivModByte(u, q1, b0);
    DivModByte(q1, q2, b1);
    DivModByte(q2, b3, b2);
    DivModByte(b3, 0, b3);
    assert LittleEndian(b3, 1) == [b3] + LittleEndian(0, 0);
    assert LittleEndian(q2, 2) == [b2] + LittleEndian(b3, 1);
    assert LittleEndian(q1, 3) == [b1] + LittleEndian(q2, 2);
  }

  /** The four-byte encoding of an int32 decodes to the same int32. */
  lemma Int32RoundTrip(v: int32)
    ensures DecodeInt32(EncodeInt32(v)) == v
  {
    var u: int := if v < 0 then v as int + 0x1_0000_0000 else v as int;
    var q1 := u / 256;
    var q2 := q1 / 256;
    var q3 := q2 / 256;
    assert u == u % 256 + 256 * q1;
    assert q1 == q1 % 256 + 256 * q2;
    assert q2 == q2 % 256 + 256 * q3;
    LittleEndianFour(u, u % 256, q1 % 256, q2 % 256, q3);
  }

  /** Every four bytes are the encoding of exactly one int32. */
  lemma Int32Surjective(b: seq<byte>)
    requires |b| == 4
    ensures EncodeInt32(DecodeInt32(b)) == b
  {
    var u := b[0] as int + 256 * (b[1] as int + 256 * (b[2] as int + 256 * b[3] as int));
    var v := DecodeInt32(b);
    assert (if v < 0 then v as int + 0x1_0000_0000 else v as int) == u;
    LittleEndianFour(u, b[0], b[1], b[2], b[3]);
  }

  /** `data` holds `enc` from `pos` on, or as much of it as there is room for. */
  ghost predicate Agrees(data: seq<byte>, pos: nat, enc: seq<byte>)
  {
    pos <= |data| &&
    if |data| - pos >= |enc| then data[pos..pos + |enc|] == enc
    else data[pos..] == enc[..|data| - pos]
  }

  /** What a read of an encoded value returns when `data` agrees with its encoding. */
  function Expected<T>(data: seq<byte>, pos: nat, v: T, n: nat, e: Error): Result<Parsed<T>>
  {
    if |data| - pos >= n then Ok(Parsed(v, pos + n)) else Err(e)
  }

  lemma AgreesSplit(data: seq<byte>, pos: nat, a: seq<byte>, b: seq<byte>)
    requires Agrees(data, pos, a + b)
    ensures Agrees(data, pos, a)
    ensures |data| - pos >= |a| ==> Agrees(data, pos + |a|, b)
  {
    if |data| - pos >= |a| + |b| {
      assert data[pos..pos + |a|] == data[pos..pos + |a| + |b|][..|a|];
      assert data[pos + |a|..pos + |a| + |b|] == data[pos..pos + |a| + |b|][|a|..];
    } else if |data| - pos >= |a| {
      assert data[pos..pos + |a|] == data[pos..][..|a|] == (a + b)[..|data| - pos][..|a|];
      assert data[pos + |a|..] == data[pos..][|a|..] == (a + b)[..|data| - pos][|a|..];
    } else {
      assert (a + b)[..|data| - pos] == a[..|data| - pos];
    }
  }

  lemma AgreesWhole(data: seq<byte>, pos: nat, enc: seq<byte>)
    requires pos + |enc| <= |data| && data[pos..pos + |enc|] == enc
    ensures Agrees(data, pos, enc)
  {
  }

  lemma AgreesPrefix(enc: seq<byte>, k: nat)
    requires k <= |enc|
    ensures Agrees(enc[..k], 0, enc)
  {
    assert enc[..k][0..] == enc[..k];
  }

  lemma GetFloatAgrees(data: seq<byte>, pos: nat, f: Float32)
    requires Agrees(data, pos, EncodeFloat(f))
    ensures GetFloat(data, pos) == Expected(data, pos, f, 4, EndOfStream)
  {
  }

  lemma GetVector3Agrees(data: seq<byte>, pos: nat, v: Vector3)
    requires Agrees(data, pos, EncodeVector3(v))
    ensures GetVector3(data, pos) == Expected(data, pos, v, 12, EndOfStream)
  {
    AgreesSplit(data, pos, EncodeFloat(v.x) + EncodeFloat(v.y), EncodeFloat(v.z));
    AgreesSplit(data, pos, EncodeFloat(v.x), EncodeFloat(v.y));
    GetFloatAgrees(data, pos, v.x);
    if |data| - pos >= 4 {
      GetFloatAgrees(data, pos + 4, v.y);
      if |data| - pos >= 8 {
        GetFloatAgrees(data, pos + 8, v.z);
      }
    }
  }

  lemma GetQuaternionAgrees(data: seq<byte>, pos: nat, q: Quaternion)
    requires Agrees(data, pos, EncodeQuaternion(q))
    ensures GetQuaternion(data, pos) == Expected(data, pos, q, 16, EndOfStream)
  {
    var X, Y, Z, W := EncodeFloat(q.x), EncodeFloat(q.y), EncodeFloat(q.z), EncodeFloat(q.w);
    AgreesSplit(data, pos, X + Y + Z, W);
    AgreesSplit(data, pos, X + Y, Z);
    AgreesSplit(data, pos, X, Y);
    GetFloatAgrees(data, pos, q.x);
    if |data| - pos >= 4 {
      GetFloatAgrees(data, pos + 4, q.y);
      if |data| - pos >= 8 {
        GetFloatAgrees(data, pos + 8, q.z);
        if |data| - pos >= 12 {
          GetFloatAgrees(data, pos + 12, q.w);
        }
      }
    }
  }

  lemma GetInt32Agrees(data: seq<byte>, pos: nat, v: int32)
    requires Agrees(data, pos, EncodeInt32(v))
    ensures GetInt32(data, pos) == Expected(data, pos, v, 4, EndOfStream)
  {
    if |data| - pos >= 4 {
      Int32RoundTrip(v);
    }
  }

  lemma GetBytesAgrees(data: seq<byte>, pos: nat, b: seq<byte>)
    requires Agrees(data, pos, b)
    ensures GetBytes(data, pos, |b|) == Expected(data, pos, b, |b|, EndOfStream)
  {
  }

  /** The string layout decodes back to the name, or fails with EndOfStream when cut short. */
  lemma GetStringAgrees(data: seq<byte>, pos: nat, s: Name)
    requires Encodable(s)
    requires Agrees(data, pos, EncodeString(s).value)
    ensures GetString(data, pos) == Expected(data, pos, s, |EncodeString(s).value|, EndOfStream)
  {
    if s.Some? && |s.value| > 0 {
      if |s.value| <= 255 {
        GetShortStringAgrees(data, pos, s.value);
      } else {
        GetLongStringAgrees(data, pos, s.value);
      }
    }
  }

  /** A string of 1 to 255 bytes: tag 2, one length byte, the bytes. */
  lemma GetShortStringAgrees(data: seq<byte>, pos: nat, b: seq<byte>)
    requires 1 <= |b| <= 255
    requires Agrees(data, pos, [2, |b|] + b)
    ensures GetString(data, pos) == Expected(data, pos, Some(b), 2 + |b|, EndOfStream)
  {
    assert [2, |b|] + b == [2] + [|b|] + b;
    AgreesSplit(data, pos, [2] + [|b|], b);
    AgreesSplit(data, pos, [2], [|b|]);
    if |data| - pos >= 2 {
      assert data[pos + 1] == data[pos + 1..pos + 2][0];
      GetBytesAgrees(data, pos + 2, b);
    }
  }

  /** A string of more than 255 bytes: tag 3, a 4-byte length, the bytes. */
  lemma GetLongStringAgrees(data: seq<byte>, pos: nat, b: seq<byte>)
    requires 255 < |b| <= MaxStringLength
    requires Agrees(data, pos, [3] + EncodeInt32(|b|) + b)
    ensures GetString(data, pos) == Expected(data, pos, Some(b), 5 + |b|, EndOfStream)
  {
    AgreesSplit(data, pos, [3] + EncodeInt32(|b|), b);
    AgreesSplit(data, pos, [3], EncodeInt32(|b|));
    if |data| - pos >= 1 {
      assert GetByte(data, pos) == Ok(Parsed(3, pos + 1));
      GetInt32Agrees(data, pos + 1, |b|);
      if |data| - pos >= 5 {
        assert GetInt32(data, pos + 1) == Ok(Parsed(|b|, pos + 5));
        GetBytesAgrees(data, pos + 5, b);
      }
    }
  }

  /** The error a read of a cut-short record reports: the shared ReadGuid fails inside
      `new Guid` when the identifier itself is cut, every other cut is EndOfStream. */
  function TruncationError(copy: Copy, available: int): Error
  {
    if copy == SharedCopy && available < 16 then InvalidGuid else EndOfStream
  }

  /** The motion fields decode back to the record's, or fail with EndOfStream when cut short. */
  lemma GetMotionAgrees(data: seq<byte>, pos: nat, m: Motion)
    requires Agrees(data, pos, EncodeMotion(m))
    ensures GetMotion(data, pos) == Expected(data, pos, m, 41, EndOfStream)
  {
    var P, V := EncodeVector3(m.position), EncodeVector3(m.velocity);
    var R, B := EncodeQuaternion(m.rotation), EncodeBool(m.isAlive);
    AgreesSplit(data, pos, P + V + R, B);
    AgreesSplit(data, pos, P + V, R);
    AgreesSplit(data, pos, P, V);
    GetVector3Agrees(data, pos, m.position);
    if Available(data, pos, 12) {
      GetVector3Agrees(data, pos + 12, m.velocity);
    }
    if Available(data, pos, 24) {
      GetQuaternionAgrees(data, pos + 24, m.rotation);
    }
    if Available(data, pos, 41) {
      assert data[pos + 40] == data[pos + 40..pos + 41][0];
    }
  }

  /** ReadPlayerState once the identifier and the motion fields have been read: the
      record, or the failure of ReadString. */
  lemma RecordFromFields(copy: Copy, data: seq<byte>, pos: nat, p: PlayerState, n: nat)
    requires pos + FixedRecordLength <= |data|
    requires GetGuid(copy, data, pos) == Ok(Parsed(p.guid, pos + 16))
    requires GetMotion(data, pos + 16) == Ok(Parsed(MotionOf(p), pos + FixedRecordLength))
    requires GetString(data, pos + FixedRecordLength)
          == Expected(data, pos + FixedRecordLength, p.name, n, EndOfStream)
    ensures GetPlayerState(copy, data, pos) == Expected(data, pos, p, FixedRecordLength + n, EndOfStream)
  {
  }

  /** A record cut inside its fixed part: the identifier or the motion fields fail. */
  lemma RecordCutInFixedPart(copy: Copy, data: seq<byte>, pos: nat, p: PlayerState)
    requires Agrees(data, pos, EncodeFixedPart(p))
    requires !Available(data, pos, FixedRecordLength)
    ensures GetPlayerState(copy, data, pos) == Err(TruncationError(copy, |data| - pos))
  {
    AgreesSplit(data, pos, EncodeGuid(p.guid), EncodeMotion(MotionOf(p)));
    if Available(data, pos, 16) {
      GetMotionAgrees(data, pos + 16, MotionOf(p));
    }
  }

  /** A record whose fixed part is all there: the result is whatever the name read gives. */
  lemma RecordPastFixedPart(copy: Copy, data: seq<byte>, pos: nat, p: PlayerState)
    requires EncodableState(p)
    requires Agrees(data, pos, EncodeFixedPart(p) + EncodeString(p.name).value)
    requires Available(data, pos, FixedRecordLength)
    ensures GetPlayerState(copy, data, pos)
         == Expected(data, pos, p, FixedRecordLength + |EncodeString(p.name).value|, EndOfStream)
  {
    var G, M, S := EncodeGuid(p.guid), EncodeMotion(MotionOf(p)), EncodeString(p.name).value;
    AgreesSplit(data, pos, G + M, S);
    AgreesSplit(data, pos, G, M);
    GetMotionAgrees(data, pos + 16, MotionOf(p));
    GetStringAgrees(data, pos + 57, p.name);
    RecordFromFields(copy, data, pos, p, |S|);
  }

  /** ReadPlayerState on bytes that agree with WritePlayerState's output: the same record and
      the cursor at its end when all of it is there, otherwise a failure and never a partial
      record. */
  lemma GetPlayerStateAgrees(copy: Copy, data: seq<byte>, pos: nat, p: PlayerState)
    requires EncodableState(p)
    requires Agrees(data, pos, EncodePlayerState(p).value)
    ensures GetPlayerState(copy, data, pos)
         == Expected(data, pos, p, |EncodePlayerState(p).value|, TruncationError(copy, |data| - pos))
  {
    if Available(data, pos, FixedRecordLength) {
      RecordPastFixedPart(copy, data, pos, p);
    } else {
      AgreesSplit(data, pos, EncodeFixedPart(p), EncodeString(p.name).value);
      RecordCutInFixedPart(copy, data, pos, p);
    }
  }

  /** Round trip: ReadPlayerState(WritePlayerState(p)) == p, with the cursor at the record's
      end, wherever the record sits in the buffer and whatever surrounds it. */
  lemma PlayerStateRoundTrip(copy: Copy, p: PlayerState, data: seq<byte>, pos: nat)
    requires EncodableState(p)
    requires pos + |EncodePlayerState(p).value| <= |data|
    requires data[pos..pos + |EncodePlayerState(p).value|] == EncodePlayerState(p).value
    ensures GetPlayerState(copy, data, pos) == Ok(Parsed(p, pos + |EncodePlayerState(p).value|))
  {
    AgreesWhole(data, pos, EncodePlayerState(p).value);
    GetPlayerStateAgrees(copy, data, pos, p);
  }

  /** A record cut short by any number of bytes fails to decode, with EndOfStream once the
      identifier is complete; no partially populated record is ever returned. */
  lemma TruncatedRecordFails(copy: Copy, p: PlayerState, k: nat)
    requires EncodableState(p)
    requires k < |EncodePlayerState(p).value|
    ensures GetPlayerState(copy, EncodePlayerState(p).value[..k], 0) == Err(TruncationError(copy, k))
  {
    var enc := EncodePlayerState(p).value;
    AgreesPrefix(enc, k);
    GetPlayerStateAgrees(copy, enc[..k], 0, p);
  }

  /** The two reader copies decode the same records and fail the same way, except for the
      error kind reported for a cut-short identifier. */
  lemma CopiesAgree(data: seq<byte>, pos: nat)
    requires pos <= |data|
    ensures GetPlayerState(SharedCopy, data, pos).Ok? <==> GetPlayerState(ClientCopy, data, pos).Ok?
    ensures GetPlayerState(SharedCopy, data, pos).Ok? ==>
              GetPlayerState(SharedCopy, data, pos) == GetPlayerState(ClientCopy, data, pos)
    ensures !Available(data, pos, 16) ==>
              GetPlayerState(SharedCopy, data, pos) == Err(InvalidGuid) &&
              GetPlayerState(ClientCopy, data, pos) == Err(EndOfStream)
    ensures Available(data, pos, 16) ==> GetPlayerState(SharedCopy, data, pos) == GetPlayerState(ClientCopy, data, pos)
  {
  }

  /** The string-tag boundary: 255 bytes take the short tag, 256 the long one. */
  lemma StringTagBoundary(b255: seq<byte>, b256: seq<byte>)
    requires |b255| == 255 && |b256| == 256
    ensures EncodeString(Some(b255)) == Ok([2, 255] + b255)
    ensures EncodeString(Some(b256)) == Ok([3, 0, 1, 0, 0] + b256)
  {
    assert EncodeInt32(256) == [0, 1, 0, 0];
    assert [3] + [0, 1, 0, 0] + b256 == [3, 0, 1, 0, 0] + b256;
  }

  /** A string over 1 MiB is refused and one of exactly 1 MiB is not. */
  lemma StringCap(b: seq<byte>)
    ensures EncodeString(Some(b)).Err? <==> |b| > MaxStringLength
    ensures |b| == MaxStringLength ==> EncodeString(Some(b)) == Ok([3, 0, 0, 0x10, 0] + b)
  {
    assert EncodeInt32(MaxStringLength) == [0, 0, 0x10, 0];
    assert [3] + [0, 0, 0x10, 0] + b == [3, 0, 0, 0x10, 0] + b;
  }
}
