/** The game server's session tables: the TCP handshake that issues session identifiers,
    the per-datagram update of the player tables, the snapshot each client is sent every
    tick, and the eviction of players that have gone quiet. Each receive, tick and eviction
    is one atomic step; the clock is a parameter counting DateTime ticks of 100 ns. */
module Server {
  import opened GameLogic
  import opened Wire
  import opened Handshake
  import SharedPacketReader
  import SharedPacketWriter

  /** `timeout = TimeSpan.FromSeconds(5)`, in ticks of 100 ns. */
  const TimeoutTicks := 50_000_000

  /** The remote IPEndPoint a datagram came from. */
  datatype Endpoint = Endpoint(address: seq<byte>, port: nat)

  /** One `udp.Send(bytes, length, endpoint)`. */
  datatype Send = Send(to: Endpoint, bytes: seq<byte>)

  /** Encoding.UTF8.GetBytes of a string of ASCII characters. */
  function Ascii(s: string): (r: seq<byte>)
    requires forall i | 0 <= i < |s| :: s[i] as int < 128
    ensures |r| == |s|
    ensures forall i | 0 <= i < |s| :: r[i] == s[i] as int
  {
    if s == [] then [] else [s[0] as int] + Ascii(s[1..])
  }

  /** SendTcpError: the UTF-8 bytes of "ERROR:" followed by the message. */
  function ErrorReply(message: string): (r: seq<byte>)
    requires forall i | 0 <= i < |message| :: message[i] as int < 128
    ensures |r| == 6 + |message|
    ensures r[..6] == [69, 82, 82, 79, 82, 58]
    ensures forall i | 0 <= i < |message| :: r[6 + i] == message[i] as int
  {
    var text := "ERROR:" + message;
    assert forall i | 0 <= i < |text| :: text[i] as int < 128;
    Ascii(text)
  }

  /** The reply to a request that does not split into exactly two parts. */
  function InvalidFormatReply(): (r: seq<byte>)
    ensures |r| == 20
  {
    ErrorReply("Invalid format")
  }

  /** The identifier a datagram starts with, as ReadGuid on a fresh shared reader gives it. */
  function DatagramGuid(d: seq<byte>): (r: Result<Guid>)
    ensures r.Ok? <==> |d| >= 16
    ensures r.Ok? ==> r.value == d[..16]
    ensures r.Err? ==> r.error == InvalidGuid
  {
    Strip(GetGuid(SharedCopy, d, 0))
  }

  /** The record ReadPlayerState decodes after the datagram's identifier. Its contract only
      names the decoder; what it yields for a client upload is Protocol.UploadRoundTrip. */
  function DatagramRecord(d: seq<byte>): (r: Result<PlayerState>)
    requires |d| >= 16
    ensures r.Ok? ==> EncodableState(r.value)
    ensures r.Ok? ==> GetPlayerState(SharedCopy, d, 16).Ok? && r.value == GetPlayerState(SharedCopy, d, 16).value.value
  {
    Strip(GetPlayerState(SharedCopy, d, 16))
  }

  /** `keys` lists every element of `s` exactly once, as an enumeration of a dictionary does. */
  ghost predicate Lists(keys: seq<Guid>, s: set<Guid>)
  {
    (forall i, j | 0 <= i < j < |keys| :: keys[i] != keys[j]) &&
    (forall g :: g in keys <==> g in s)
  }

  /** `records` lists every value of `m` exactly once, each under its own identifier. */
  ghost predicate ListsValues(records: seq<PlayerState>, m: map<Guid, PlayerState>)
  {
    (forall i | 0 <= i < |records| :: records[i].guid in m && m[records[i].guid] == records[i]) &&
    (forall i, j | 0 <= i < j < |records| :: records[i].guid != records[j].guid) &&
    (forall g | g in m :: exists i | 0 <= i < |records| :: records[i].guid == g)
  }

  /** The players whose last datagram is more than the timeout older than `now`. */
  function Expired(lastSeen: map<Guid, int>, now: int): (s: set<Guid>)
    ensures forall g :: g in s <==> g in lastSeen && now - lastSeen[g] > TimeoutTicks
  {
    set g | g in lastSeen && now - lastSeen[g] > TimeoutTicks
  }

  /** The elements of a list. */
  function Elements(s: seq<Guid>): (r: set<Guid>)
    ensures forall g :: g in r <==> g in s
  {
    set g | g in s
  }

  /** `foreach` over a dictionary's keys: some order, each key once. */
  method EnumerateKeys(s: set<Guid>) returns (keys: seq<Guid>)
    ensures Lists(keys, s)
  {
    keys := [];
    var rest := s;
    while rest != {}
      invariant rest <= s
      invariant forall g :: g in keys <==> g in s && g !in rest
      invariant forall i, j | 0 <= i < j < |keys| :: keys[i] != keys[j]
      decreases |rest|
    {
      var g :| g in rest;
      keys := keys + [g];
      rest := rest - {g};
    }
  }

  /** `foreach` over a player table's values, each filed under its own identifier. */
  method EnumerateValues(m: map<Guid, PlayerState>) returns (records: seq<PlayerState>)
    requires forall g | g in m :: m[g].guid == g
    ensures ListsValues(records, m)
  {
    records := [];
    var rest := m.Keys;
    while rest != {}
      invariant rest <= m.Keys
      invariant forall i | 0 <= i < |records| :: records[i].guid in m && records[i].guid !in rest
      invariant forall i | 0 <= i < |records| :: m[records[i].guid] == records[i]
      invariant forall i, j | 0 <= i < j < |records| :: records[i].guid != records[j].guid
      invariant forall g | g in m && g !in rest :: exists i | 0 <= i < |records| :: records[i].guid == g
      decreases |rest|
    {
      var g :| g in rest;
      CoverStep(records, m, rest, g);
      records := records + [m[g]];
      rest := rest - {g};
    }
  }

  /** Listing one more value covers one more key. */
  lemma CoverStep(records: seq<PlayerState>, m: map<Guid, PlayerState>, rest: set<Guid>, g: Guid)
    requires g in rest && g in m
    requires m[g].guid == g
    requires forall h | h in m && h !in rest :: exists i | 0 <= i < |records| :: records[i].guid == h
    ensures forall h | h in m && h !in rest - {g} ::
              exists i | 0 <= i < |records| + 1 :: (records + [m[g]])[i].guid == h
  {
    var next := records + [m[g]];
    forall h | h in m && h !in rest - {g}
      ensures exists i | 0 <= i < |next| :: next[i].guid == h
    {
      if h == g {
        assert next[|records|].guid == h;
      } else {
        var i :| 0 <= i < |records| && records[i].guid == h;
        assert next[i].guid == h;
      }
    }
  }

  /** The first loop of RemoveTimedOutPlayers: the identifiers whose last datagram is
      more than the timeout older than `now`, strictly. */
  method CollectExpired(lastSeen: map<Guid, int>, now: int) returns (toRemove: seq<Guid>)
    ensures Elements(toRemove) == Expired(lastSeen, now)
  {
    toRemove := [];
    var rest := lastSeen.Keys;
    while rest != {}
      invariant rest <= lastSeen.Keys
      invariant forall g :: g in toRemove <==> g in Expired(lastSeen, now) && g !in rest
      decreases |rest|
    {
      var g :| g in rest;
      if now - lastSeen[g] > TimeoutTicks {
        toRemove := toRemove + [g];
      }
      rest := rest - {g};
    }
  }

  class GameServer {
    /** Session identifier to username, filled by the handshake and never emptied. */
    var sessions: map<Guid, string>
    /** The last record each player uploaded. */
    var players: map<Guid, PlayerState>
    /** Where each player's datagrams come from, and so where its snapshots go. */
    var endpoints: map<Guid, Endpoint>
    /** When each player's last datagram arrived, in ticks. */
    var lastSeen: map<Guid, int>
    /** The number stamped on each snapshot; C# `int` with unchecked wrap-around. */
    var snapshotId: int32

    /** A player is stored only once it has been seen, seen only with a session, and filed
        under the identifier it carries; every stored name can be written back out. */
    ghost predicate Valid()
      reads this
    {
      players.Keys <= lastSeen.Keys && lastSeen.Keys == endpoints.Keys &&
      endpoints.Keys <= sessions.Keys &&
      (forall g | g in players :: players[g].guid == g && EncodableState(players[g]))
    }

    constructor ()
      ensures Valid()
      ensures sessions == map[] && players == map[] && endpoints == map[] && lastSeen == map[]
      ensures snapshotId == 0
    {
      sessions := map[];
      players := map[];
      endpoints := map[];
      lastSeen := map[];
      snapshotId := 0;
    }

    /** The parse and registration of HandleTcpClient. `issued` is what Guid.NewGuid()
        returns, an identifier no session has. The credential check is the constant true. */
    method Authenticate(request: string, issued: Guid) returns (reply: seq<byte>)
      requires Valid()
      requires issued !in sessions
      modifies this
      ensures Valid()
      ensures players == old(players) && endpoints == old(endpoints) && lastSeen == old(lastSeen)
      ensures snapshotId == old(snapshotId)
      ensures ParseRequest(request).Malformed? ==>
                sessions == old(sessions) && reply == InvalidFormatReply()
      ensures ParseRequest(request).Credentials? ==>
                sessions == old(sessions)[issued := ParseRequest(request).username] &&
                reply == EncodeGuid(issued)
    {
      var parts := Split(Trim(request), ':');
      if |parts| != 2 {
        reply := InvalidFormatReply();
        return;
      }
      var username := parts[0];
      sessions := sessions[issued := username];
      reply := EncodeGuid(issued);
    }

    /** The body of ReceiveLoop for one datagram. An unknown identifier is ignored; a known
        one refreshes the endpoint and the clock before the record is decoded, so a
        malformed record still counts as a sign of life. Every exception is caught. */
    method Receive(datagram: seq<byte>, from: Endpoint, now: int)
      requires Valid()
      modifies this
      ensures Valid()
      ensures sessions == old(sessions) && snapshotId == old(snapshotId)
      ensures DatagramGuid(datagram).Err? || DatagramGuid(datagram).value !in sessions ==>
                players == old(players) && endpoints == old(endpoints) && lastSeen == old(lastSeen)
      ensures DatagramGuid(datagram).Ok? && DatagramGuid(datagram).value in sessions ==>
                var g := DatagramGuid(datagram).value;
                endpoints == old(endpoints)[g := from] && lastSeen == old(lastSeen)[g := now] &&
                players == (if DatagramRecord(datagram).Err? then old(players)
                            else old(players)[g := DatagramRecord(datagram).value.(guid := g)])
    {
      var reader := new SharedPacketReader.PacketReader(datagram);
      var guid := reader.ReadGuid();
      if guid.Err? {
        return;
      }
      assert guid == DatagramGuid(datagram);
      var g := guid.value;
      if g !in sessions {
        return;
      }
      endpoints := endpoints[g := from];
      lastSeen := lastSeen[g := now];
      var state := reader.ReadPlayerState();
      assert state == DatagramRecord(datagram);
      if state.Err? {
        return;
      }
      players := players[g := state.value.(guid := g)];
    }

    /** SendSnapshots: to every endpoint, its own identifier, the snapshot number and every
        stored record. `recipients` and `records` are the two enumeration orders. */
    method SendSnapshots() returns (sent: seq<Send>, recipients: seq<Guid>, records: seq<PlayerState>)
      requires Valid()
      ensures Lists(recipients, endpoints.Keys)
      ensures ListsValues(records, players)
      ensures forall i | 0 <= i < |records| :: EncodableState(records[i])
      ensures |sent| == |recipients|
      ensures forall i | 0 <= i < |sent| ::
                sent[i] == Send(endpoints[recipients[i]], Envelope(recipients[i], snapshotId, EncodeRecords(records)))
    {
      recipients := EnumerateKeys(endpoints.Keys);
      records := EnumerateValues(players);
      sent := [];
      var i := 0;
      while i < |recipients|
        invariant 0 <= i <= |recipients| && |sent| == i
        invariant forall k | 0 <= k < i ::
                    sent[k] == Send(endpoints[recipients[k]], Envelope(recipients[k], snapshotId, EncodeRecords(records)))
      {
        var guid := recipients[i];
        var bytes := BuildSnapshot(guid, snapshotId, records);
        sent := sent + [Send(endpoints[guid], bytes)];
        i := i + 1;
      }
    }

    /** RemoveTimedOutPlayers: collect the identifiers whose last datagram is more than
        the timeout old, then drop them from the three player tables. */
    method RemoveTimedOutPlayers(now: int)
      requires Valid()
      modifies this
      ensures Valid()
      ensures sessions == old(sessions) && snapshotId == old(snapshotId)
      ensures players == old(players) - Expired(old(lastSeen), now)
      ensures endpoints == old(endpoints) - Expired(old(lastSeen), now)
      ensures lastSeen == old(lastSeen) - Expired(old(lastSeen), now)
    {
      var toRemove := CollectExpired(lastSeen, now);
      ghost var done: set<Guid> := {};
      var i := 0;
      while i < |toRemove|
        invariant 0 <= i <= |toRemove|
        invariant done == Elements(toRemove[..i])
        invariant sessions == old(sessions) && snapshotId == old(snapshotId)
        invariant players == old(players) - done
        invariant endpoints == old(endpoints) - done
        invariant lastSeen == old(lastSeen) - done
      {
        var g := toRemove[i];
        RemoveOneMore(toRemove, i);
        RemoveKey(old(players), done, g);
        RemoveKey(old(endpoints), done, g);
        RemoveKey(old(lastSeen), done, g);
        players := players - {g};
        endpoints := endpoints - {g};
        lastSeen := lastSeen - {g};
        done := done + {g};
        i := i + 1;
      }
      assert toRemove[..i] == toRemove;
      EvictionKeepsTables(old(players), old(endpoints), old(lastSeen), sessions, done);
    }

    /** One pass of TickLoop: send the snapshots, evict, then advance the snapshot number. */
    method Tick(now: int) returns (sent: seq<Send>, recipients: seq<Guid>, records: seq<PlayerState>)
      requires Valid()
      modifies this
      ensures Valid()
      ensures Lists(recipients, old(endpoints).Keys)
      ensures ListsValues(records, old(players))
      ensures forall i | 0 <= i < |records| :: EncodableState(records[i])
      ensures |sent| == |recipients|
      ensures forall i | 0 <= i < |sent| ::
                sent[i] == Send(old(endpoints)[recipients[i]],
                                Envelope(recipients[i], old(snapshotId), EncodeRecords(records)))
      ensures sessions == old(sessions)
      ensures players == old(players) - Expired(old(lastSeen), now)
      ensures endpoints == old(endpoints) - Expired(old(lastSeen), now)
      ensures lastSeen == old(lastSeen) - Expired(old(lastSeen), now)
      ensures snapshotId == WrapInt32(old(snapshotId) + 1)
    {
      sent, recipients, records := SendSnapshots();
      RemoveTimedOutPlayers(now);
      snapshotId := WrapInt32(snapshotId + 1);
    }
  }

  /** The inner part of SendSnapshots for one recipient: a fresh shared writer given the
      recipient's identifier, the snapshot number and every record. */
  method BuildSnapshot(recipient: Guid, id: int32, records: seq<PlayerState>) returns (bytes: seq<byte>)
    requires forall i | 0 <= i < |records| :: EncodableState(records[i])
    ensures bytes == Envelope(recipient, id, EncodeRecords(records))
  {
    var writer := new SharedPacketWriter.PacketWriter();
    writer.WriteGuid(recipient);
    SpliceAtEnd([], EncodeGuid(recipient));
    assert [] + EncodeGuid(recipient) == EncodeGuid(recipient);
    writer.WriteInt32(id);
    SpliceAtEnd(EncodeGuid(recipient), EncodeInt32(id));
    EnvelopeStart(recipient, id, records);
    var j := 0;
    while j < |records|
      invariant 0 <= j <= |records|
      invariant writer.Valid() && writer.position == |writer.buffer|
      invariant writer.buffer == Envelope(recipient, id, EncodeRecords(records[..j]))
    {
      ghost var before := writer.buffer;
      var r := writer.WritePlayerState(records[j]);
      SpliceAtEnd(before, EncodePlayerState(records[j]).value);
      EnvelopeExtend(recipient, id, records, j);
      j := j + 1;
    }
    assert records[..j] == records;
    bytes := writer.ToArray();
  }

  lemma EnvelopeStart(recipient: Guid, id: int32, records: seq<PlayerState>)
    ensures Envelope(recipient, id, EncodeRecords(records[..0])) == EncodeGuid(recipient) + EncodeInt32(id)
  {
    assert records[..0] == [];
  }

  /** Writing record j after the first j records gives the first j + 1. */
  lemma EnvelopeExtend(recipient: Guid, id: int32, records: seq<PlayerState>, j: nat)
    requires j < |records|
    requires forall i | 0 <= i < |records| :: EncodableState(records[i])
    ensures Envelope(recipient, id, EncodeRecords(records[..j])) + EncodePlayerState(records[j]).value
            == Envelope(recipient, id, EncodeRecords(records[..j + 1]))
  {
    assert records[..j + 1] == records[..j] + [records[j]];
    EncodeRecordsSnoc(records[..j], records[j]);
  }

  /** Removing the next listed key removes one more element of the list. */
  lemma RemoveOneMore(toRemove: seq<Guid>, i: nat)
    requires i < |toRemove|
    ensures Elements(toRemove[..i + 1]) == Elements(toRemove[..i]) + {toRemove[i]}
  {
    assert toRemove[..i + 1] == toRemove[..i] + [toRemove[i]];
  }

  /** Removing one more key is removing the enlarged set. */
  lemma RemoveKey<V>(m: map<Guid, V>, done: set<Guid>, g: Guid)
    ensures (m - done) - {g} == m - (done + {g})
  {
  }

  /** Removing the same keys from all three tables keeps the session-table invariant. */
  lemma EvictionKeepsTables(players: map<Guid, PlayerState>, endpoints: map<Guid, Endpoint>,
                            lastSeen: map<Guid, int>, sessions: map<Guid, string>, gone: set<Guid>)
    requires players.Keys <= lastSeen.Keys && lastSeen.Keys == endpoints.Keys
    requires endpoints.Keys <= sessions.Keys
    ensures (players - gone).Keys <= (lastSeen - gone).Keys
    ensures (lastSeen - gone).Keys == (endpoints - gone).Keys
    ensures (endpoints - gone).Keys <= sessions.Keys
  {
  }
}
