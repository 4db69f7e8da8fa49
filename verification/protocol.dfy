/** The two ends of the protocol side by side: what the server sends, the client reads
    back, and the other way round. */
module Protocol {
  import opened GameLogic
  import opened Wire
  import opened Server
  import opened Client

  /** A run of encoded records at `pos` parses back to exactly those records, followed by
      whatever the bytes after them parse to. */
  lemma {:induction false} RecordsRoundTrip(data: seq<byte>, pos: nat, states: seq<PlayerState>, end: nat)
    requires forall i | 0 <= i < |states| :: EncodableState(states[i])
    requires end == pos + |EncodeRecords(states)| <= |data|
    requires data[pos..end] == EncodeRecords(states)
    ensures ParseRecords(data, pos) == Parse(states + ParseRecords(data, end).records, ParseRecords(data, end).complete)
    decreases |states|
  {
    if states == [] {
      assert [] + ParseRecords(data, pos).records == ParseRecords(data, pos).records;
    } else {
      var mid := pos + |EncodePlayerState(states[0]).value|;
      RecordsBytes(data, pos, mid, end, states);
      RecordsEncodedFirst(data, pos, states[0], mid);
      RecordsRoundTrip(data, mid, states[1..], end);
      ChainParse(ParseRecords(data, pos), ParseRecords(data, mid), ParseRecords(data, end), states);
    }
  }

  /** Bytes holding a run of records hold its first record, then the rest of the run. */
  lemma RecordsBytes(data: seq<byte>, pos: nat, mid: nat, end: nat, states: seq<PlayerState>)
    requires states != [] && forall i | 0 <= i < |states| :: EncodableState(states[i])
    requires end == pos + |EncodeRecords(states)| <= |data|
    requires data[pos..end] == EncodeRecords(states)
    requires mid == pos + |EncodePlayerState(states[0]).value|
    ensures end == mid + |EncodeRecords(states[1..])|
    ensures data[pos..mid] == EncodePlayerState(states[0]).value
    ensures data[mid..end] == EncodeRecords(states[1..])
  {
    var first := EncodePlayerState(states[0]).value;
    var rest := EncodeRecords(states[1..]);
    assert EncodeRecords(states) == first + rest;
    SliceSplit(data, pos, mid, end, first, rest);
  }

  /** The first record in front of the parse of the rest is the parse of all of them. */
  lemma ChainParse(whole: Parse, afterFirst: Parse, afterAll: Parse, states: seq<PlayerState>)
    requires states != []
    requires whole == Parse([states[0]] + afterFirst.records, afterFirst.complete)
    requires afterFirst == Parse(states[1..] + afterAll.records, afterAll.complete)
    ensures whole == Parse(states + afterAll.records, afterAll.complete)
  {
    assert [states[0]] + states[1..] == states;
    assert [states[0]] + (states[1..] + afterAll.records) == states + afterAll.records;
  }

  /** Bytes that hold `a + b` at `pos` hold `a` there and `b` right after it. */
  lemma SliceSplit(data: seq<byte>, pos: nat, mid: nat, end: nat, a: seq<byte>, b: seq<byte>)
    requires mid == pos + |a| && end == mid + |b| <= |data| && data[pos..end] == a + b
    ensures data[pos..mid] == a
    ensures data[mid..end] == b
  {
    assert data[pos..mid] == data[pos..end][..|a|];
    assert data[mid..end] == data[pos..end][|a|..];
  }

  /** An encoded record at `pos` is the first record the client parses there. */
  lemma RecordsEncodedFirst(data: seq<byte>, pos: nat, p: PlayerState, next: nat)
    requires EncodableState(p)
    requires next == pos + |EncodePlayerState(p).value| <= |data|
    requires data[pos..next] == EncodePlayerState(p).value
    ensures ParseRecords(data, pos) == Parse([p] + ParseRecords(data, next).records, ParseRecords(data, next).complete)
  {
    RecordDecodesAt(data, pos, p, next);
    RecordsFirst(data, pos, p, next);
  }

  /** The shared decoder reads an encoded record at `pos` back, ending at `next`. */
  lemma RecordDecodesAt(data: seq<byte>, pos: nat, p: PlayerState, next: nat)
    requires EncodableState(p)
    requires next == pos + |EncodePlayerState(p).value| <= |data|
    requires data[pos..next] == EncodePlayerState(p).value
    ensures GetPlayerState(SharedCopy, data, pos) == Ok(Parsed(p, next))
  {
    PlayerStateRoundTrip(SharedCopy, p, data, pos);
  }

  /** The body of a snapshot datagram starts right after its 20-byte header. */
  lemma EnvelopeBody(recipient: Guid, id: int32, body: seq<byte>)
    ensures |Envelope(recipient, id, body)| == 20 + |body|
    ensures Envelope(recipient, id, body)[20..|Envelope(recipient, id, body)|] == body
  {
    var data := Envelope(recipient, id, body);
    assert data[20..|data|] == data[20..];
  }

  /** A snapshot the server sends is read back by the client as exactly the records it
      holds, in order, and the receive loop keeps running. */
  lemma SnapshotRoundTrip(recipient: Guid, id: int32, states: seq<PlayerState>)
    requires forall i | 0 <= i < |states| :: EncodableState(states[i])
    ensures ParseSnapshot(Envelope(recipient, id, EncodeRecords(states))) == Parse(states, true)
  {
    var body := EncodeRecords(states);
    var data := Envelope(recipient, id, body);
    EnvelopeBody(recipient, id, body);
    RecordsRoundTrip(data, 20, states, |data|);
    assert ParseRecords(data, |data|) == Parse([], true);
    assert ParseSnapshot(data) == ParseRecords(data, 20);
    assert states + [] == states;
  }

  /** A snapshot whose last record is cut short delivers the records before it and stops
      the client's receive loop. */
  lemma TruncatedSnapshot(recipient: Guid, id: int32, states: seq<PlayerState>, last: PlayerState, k: nat)
    requires forall i | 0 <= i < |states| :: EncodableState(states[i])
    requires EncodableState(last)
    requires 0 < k < |EncodePlayerState(last).value|
    ensures ParseSnapshot(Envelope(recipient, id, EncodeRecords(states) + EncodePlayerState(last).value[..k]))
            == Parse(states, false)
  {
    var body := EncodeRecords(states);
    var tail := EncodePlayerState(last).value[..k];
    var data := Envelope(recipient, id, body + tail);
    var at := 20 + |body|;
    EnvelopeBody(recipient, id, body + tail);
    SliceSplit(data, 20, at, |data|, body, tail);
    RecordsRoundTrip(data, 20, states, at);
    RecordsCutShort(data, at, last, k);
    assert ParseSnapshot(data) == ParseRecords(data, 20);
    assert states + [] == states;
  }

  /** A record cut short at the end of the data fails to decode, which ends the parse. */
  lemma RecordsCutShort(data: seq<byte>, pos: nat, p: PlayerState, k: nat)
    requires EncodableState(p)
    requires 0 < k < |EncodePlayerState(p).value|
    requires pos + k == |data| && data[pos..|data|] == EncodePlayerState(p).value[..k]
    ensures ParseRecords(data, pos) == Parse([], false)
  {
    assert Agrees(data, pos, EncodePlayerState(p).value) by {
      assert data[pos..] == data[pos..|data|];
    }
    GetPlayerStateAgrees(SharedCopy, data, pos, p);
    RecordsStop(data, pos);
  }

  /** The datagram SendPlayerState builds is read by the server as the client's own
      identifier and its exact record, which Receive then stores unchanged. */
  lemma UploadRoundTrip(p: PlayerState)
    requires EncodableState(p)
    ensures Upload(p).Ok?
    ensures DatagramGuid(Upload(p).value) == Ok(p.guid)
    ensures DatagramRecord(Upload(p).value) == Ok(p)
    ensures DatagramRecord(Upload(p).value).value.(guid := p.guid) == p
  {
    var d := Upload(p).value;
    var record := EncodePlayerState(p).value;
    UploadLayout(p);
    RecordDecodesAt(d, 16, p, 16 + |record|);
    assert DatagramRecord(d) == Strip(GetPlayerState(SharedCopy, d, 16));
  }

  /** The upload is the identifier followed by the record. */
  lemma UploadLayout(p: PlayerState)
    requires EncodableState(p)
    ensures |Upload(p).value| == 16 + |EncodePlayerState(p).value|
    ensures Upload(p).value[..16] == p.guid
    ensures Upload(p).value[16..16 + |EncodePlayerState(p).value|] == EncodePlayerState(p).value
  {
    var d := Upload(p).value;
    assert d == EncodeGuid(p.guid) + EncodePlayerState(p).value;
  }

  /** As written, the client's handshake takes the first 16 bytes of any server error
      reply whose message has at least ten characters as its session identifier, and that
      identifier starts with the text "ERROR:". */
  lemma AuthAcceptsErrorReplies(message: string)
    requires forall i | 0 <= i < |message| :: message[i] as int < 128
    requires |message| >= 10
    ensures AuthReply(ErrorReply(message)).Ok?
    ensures AuthReply(ErrorReply(message)).value[..6] == [69, 82, 82, 79, 82, 58]
  {
    var reply := ErrorReply(message);
    assert reply[..16][..6] == reply[..6];
  }

  /** In particular the reply to a request without exactly one ':' is accepted. */
  lemma AuthAcceptsInvalidFormatReply()
    ensures AuthReply(InvalidFormatReply()).Ok?
    ensures AuthReply(InvalidFormatReply()).value[..6] == [69, 82, 82, 79, 82, 58]
  {
    AuthAcceptsErrorReplies("Invalid format");
  }

  /** The corrected guard refuses the server's error reply and accepts exactly the issued
      identifier, so after a successful handshake the client holds the session the server
      recorded. */
  lemma AuthCheckedOnServerReplies(issued: Guid)
    ensures AuthReplyChecked(InvalidFormatReply()).Err?
    ensures AuthReplyChecked(EncodeGuid(issued)) == Ok(issued)
    ensures AuthReply(EncodeGuid(issued)) == Ok(issued)
  {
    assert EncodeGuid(issued)[..16] == EncodeGuid(issued);
  }
}
