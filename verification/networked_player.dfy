/** The client's networking state: snapshot datagrams are parsed into a queue of records,
    the queue is drained once per network tick into the predicted own state and the table
    of remote players, and the player's own record is uploaded. The client code uses the
    shared codec (so its ReadGuid is the unchecked one). */
module Client {
  import opened GameLogic
  import opened Wire
  import SharedPacketReader
  import SharedPacketWriter

  /** What one datagram leaves behind: the records enqueued, in wire order, and whether the
      receive loop is still running afterwards (false once any read threw). */
  datatype Parse = Parse(records: seq<PlayerState>, complete: bool)

  /** The inner loop of StartReceivingLoop from cursor `pos`: stop once Position reaches
      Length, otherwise run the loop body. */
  function ParseRecords(data: seq<byte>, pos: nat): (r: Parse)
    requires pos <= |data|
    ensures |r.records| * (FixedRecordLength + 1) <= |data| - pos
    ensures forall i | 0 <= i < |r.records| :: EncodableState(r.records[i])
    decreases |data| - pos, 1
  {
    if pos == |data| then Parse([], true) else ParseNext(data, pos)
  }

  /** The body of that loop: ReadPlayerState, then the rest of the loop; a record that fails
      to decode ends the parse. */
  function ParseNext(data: seq<byte>, pos: nat): (r: Parse)
    requires pos < |data|
    ensures |r.records| * (FixedRecordLength + 1) <= |data| - pos
    ensures forall i | 0 <= i < |r.records| :: EncodableState(r.records[i])
    decreases |data| - pos, 0
  {
    match GetPlayerState(SharedCopy, data, pos)
    case Err(_) => Parse([], false)
    case Ok(p) =>
      var rest := ParseRecords(data, p.next);
      Parse([p.value] + rest.records, rest.complete)
  }

  /** One snapshot datagram: the recipient identifier and the snapshot number (both read
      and ignored), then the records. */
  function ParseSnapshot(data: seq<byte>): (r: Parse)
    ensures |data| < 20 ==> r == Parse([], false)
    ensures |data| >= 20 ==> r == ParseRecords(data, 20)
  {
    var header := GetGuid(SharedCopy, data, 0);
    if header.Err? then Parse([], false)
    else
      var id := GetInt32(data, header.value.next);
      if id.Err? then Parse([], false)
      else ParseRecords(data, id.value.next)
  }

  /** A record that fails to decode ends the parse as incomplete. */
  lemma RecordsStop(data: seq<byte>, pos: nat)
    requires pos < |data| && GetPlayerState(SharedCopy, data, pos).Err?
    ensures ParseRecords(data, pos) == Parse([], false)
  {
    assert ParseRecords(data, pos) == ParseNext(data, pos);
  }

  /** A record that decodes is followed by the parse of the bytes after it. */
  lemma RecordsFirst(data: seq<byte>, pos: nat, p: PlayerState, next: nat)
    requires pos <= |data| && GetPlayerState(SharedCopy, data, pos) == Ok(Parsed(p, next))
    ensures next <= |data|
    ensures ParseRecords(data, pos) == Parse([p] + ParseRecords(data, next).records, ParseRecords(data, next).complete)
  {
    assert ParseRecords(data, pos) == ParseNext(data, pos);
  }

  /** A record that decodes is followed by the parse of what comes after it. */
  lemma RecordsNext(data: seq<byte>, pos: nat, next: nat, p: PlayerState, done: seq<PlayerState>, expected: Parse)
    requires pos < next <= |data|
    requires ParseRecords(data, pos) == Parse([p] + ParseRecords(data, next).records, ParseRecords(data, next).complete)
    requires expected == Parse(done + ParseRecords(data, pos).records, ParseRecords(data, pos).complete)
    ensures expected == Parse((done + [p]) + ParseRecords(data, next).records, ParseRecords(data, next).complete)
  {
    assert done + ([p] + ParseRecords(data, next).records) == (done + [p]) + ParseRecords(data, next).records;
  }

  /** ReadPlayerState at a cursor short of the end, described by the parse it takes part in. */
  method ReadRecord(reader: SharedPacketReader.PacketReader) returns (r: Result<PlayerState>)
    requires reader.Valid() && reader.pos < |reader.data|
    modifies reader
    ensures reader.Valid() && old(reader.pos) <= reader.pos
    ensures r.Err? ==> ParseRecords(reader.data, old(reader.pos)) == Parse([], false)
    ensures r.Ok? ==> old(reader.pos) < reader.pos
    ensures r.Ok? ==>
              ParseRecords(reader.data, old(reader.pos))
              == Parse([r.value] + ParseRecords(reader.data, reader.pos).records, ParseRecords(reader.data, reader.pos).complete)
  {
    ghost var at := reader.pos;
    r := reader.ReadPlayerState();
    if r.Err? {
      RecordsStop(reader.data, at);
    }
  }

  /** At the end of the data the parse is complete. */
  lemma RecordsEnd(data: seq<byte>, done: seq<PlayerState>, expected: Parse)
    requires expected == Parse(done + ParseRecords(data, |data|).records, ParseRecords(data, |data|).complete)
    ensures expected == Parse(done, true)
  {
    assert done + [] == done;
  }

  /** The inner loop of StartReceivingLoop: ReadPlayerState until the cursor reaches the
      end of the datagram, each record enqueued as soon as it is read (here: returned in
      order); an exception ends the loop with the records read so far. */
  method ReadRecords(reader: SharedPacketReader.PacketReader) returns (records: seq<PlayerState>, complete: bool)
    requires reader.Valid()
    modifies reader
    ensures Parse(records, complete) == ParseRecords(reader.data, old(reader.pos))
  {
    ghost var expected := ParseRecords(reader.data, reader.pos);
    records := [];
    complete := true;
    while reader.pos < |reader.data|
      invariant reader.Valid()
      invariant expected == Parse(records + ParseRecords(reader.data, reader.pos).records,
                                  ParseRecords(reader.data, reader.pos).complete)
      decreases |reader.data| - reader.pos
    {
      ghost var at := reader.pos;
      var state := ReadRecord(reader);
      if state.Err? {
        complete := false;
        assert records + [] == records;
        return;
      }
      RecordsNext(reader.data, at, reader.pos, state.value, records, expected);
      records := records + [state.value];
    }
    RecordsEnd(reader.data, records, expected);
  }

  /** The client's view of the game: its own predicted record, the last record of every
      other player, and the identifiers that have a spawned remote object. */
  datatype View = View(predicted: PlayerState, states: map<Guid, PlayerState>, remote: set<Guid>)

  /** Every remote player has a record and a spawned object, the own identifier is never
      among them, and every record is filed under its own identifier. */
  predicate Consistent(v: View, me: Guid)
  {
    v.remote == v.states.Keys && me !in v.states &&
    forall g | g in v.states :: v.states[g].guid == g
  }

  /** One iteration of ProcessPacketQueue: the own record replaces the predicted state
      wholesale; any other is stored, spawning its remote object if it has none. */
  function Route(v: View, me: Guid, s: PlayerState): View
  {
    if s.guid == me then v.(predicted := s)
    else View(v.predicted, v.states[s.guid := s], if s.guid in v.remote then v.remote else v.remote + {s.guid})
  }

  /** ProcessPacketQueue as a fold over the queue, front first. */
  function Ingest(v: View, me: Guid, queue: seq<PlayerState>): View
    decreases |queue|
  {
    if queue == [] then v else Ingest(Route(v, me, queue[0]), me, queue[1..])
  }

  /** The last record in `queue` carrying identifier `g`, if any. */
  function LastWith(queue: seq<PlayerState>, g: Guid): (r: Option<PlayerState>)
    ensures r.Some? <==> exists i | 0 <= i < |queue| :: queue[i].guid == g
    ensures r.Some? ==> r.value.guid == g
    ensures r.Some? ==> exists i | 0 <= i < |queue| :: queue[i] == r.value &&
                          forall j | i < j < |queue| :: queue[j].guid != g
  {
    if queue == [] then None
    else
      var rest := LastWith(queue[1..], g);
      if rest.Some? then
        var i :| 0 <= i < |queue[1..]| && queue[1..][i] == rest.value &&
                 forall j | i < j < |queue[1..]| :: queue[1..][j].guid != g;
        assert queue[i + 1] == rest.value;
        rest
      else if queue[0].guid == g then
        assert forall j | 0 < j < |queue| :: queue[j] == queue[1..][j - 1];
        Some(queue[0])
      else
        assert forall i | 0 <= i < |queue| && queue[i].guid == g :: i > 0 && queue[1..][i - 1].guid == g;
        None
  }

  /** Draining the queue keeps the view consistent. */
  lemma {:induction false} IngestKeepsConsistent(v: View, me: Guid, queue: seq<PlayerState>)
    requires Consistent(v, me)
    ensures Consistent(Ingest(v, me, queue), me)
    decreases |queue|
  {
    if queue != [] {
      IngestKeepsConsistent(Route(v, me, queue[0]), me, queue[1..]);
    }
  }

  /** After the drain the predicted state is the last own record in the queue, or is
      untouched when there is none. */
  lemma {:induction false} IngestPredicted(v: View, me: Guid, queue: seq<PlayerState>)
    ensures Ingest(v, me, queue).predicted ==
              (if LastWith(queue, me).Some? then LastWith(queue, me).value else v.predicted)
    decreases |queue|
  {
    if queue != [] {
      IngestPredicted(Route(v, me, queue[0]), me, queue[1..]);
    }
  }

  /** After the drain every other identifier maps to the last record for it in the queue,
      or keeps its earlier record; the own identifier and the other records do not move,
      and no identifier is ever dropped. */
  lemma {:induction false} IngestStates(v: View, me: Guid, queue: seq<PlayerState>, g: Guid)
    requires g != me
    ensures var w := Ingest(v, me, queue);
            (g in w.states <==> g in v.states || LastWith(queue, g).Some?) &&
            (LastWith(queue, g).Some? ==> w.states[g] == LastWith(queue, g).value) &&
            (LastWith(queue, g).None? && g in v.states ==> w.states[g] == v.states[g])
    decreases |queue|
  {
    if queue != [] {
      IngestStates(Route(v, me, queue[0]), me, queue[1..], g);
    }
  }

  /** The own identifier never enters the table of other players. */
  lemma {:induction false} IngestNeverStoresSelf(v: View, me: Guid, queue: seq<PlayerState>)
    requires me !in v.states
    ensures me !in Ingest(v, me, queue).states
    ensures Ingest(v, me, queue).states.Keys == v.states.Keys + (set i | 0 <= i < |queue| && queue[i].guid != me :: queue[i].guid)
    decreases |queue|
  {
    if queue != [] {
      var w := Route(v, me, queue[0]);
      IngestNeverStoresSelf(w, me, queue[1..]);
      var rest := set i | 0 <= i < |queue[1..]| && queue[1..][i].guid != me :: queue[1..][i].guid;
      var all := set i | 0 <= i < |queue| && queue[i].guid != me :: queue[i].guid;
      assert all == (if queue[0].guid != me then {queue[0].guid} else {}) + rest by {
        forall x | x in all ensures x in (if queue[0].guid != me then {queue[0].guid} else {}) + rest {
          var i :| 0 <= i < |queue| && queue[i].guid != me && queue[i].guid == x;
          if i > 0 {
            assert queue[1..][i - 1] == queue[i];
          }
        }
        forall x | x in rest ensures x in all {
          var i :| 0 <= i < |queue[1..]| && queue[1..][i].guid != me && queue[1..][i].guid == x;
          assert queue[i + 1] == queue[1..][i];
        }
      }
    }
  }

  /** The prune of UpdateRemotePlayers: the spawned objects whose identifier still has a record. */
  function Prune(remote: set<Guid>, states: map<Guid, PlayerState>): (r: set<Guid>)
    ensures r <= remote
    ensures forall g | g in remote :: g in r <==> g in states
  {
    set g | g in remote && g in states
  }

  /** In a consistent view the prune removes nothing. */
  lemma PruneRemovesNothing(v: View, me: Guid)
    requires Consistent(v, me)
    ensures Prune(v.remote, v.states) == v.remote
  {
  }

  /** The datagram SendPlayerState builds: the own identifier, then the own record (which
      starts with the identifier again). A name over 1 MiB throws instead. */
  function Upload(p: PlayerState): (r: Result<seq<byte>>)
    ensures r.Ok? <==> EncodableState(p)
    ensures r.Err? ==> r.error == InvalidData
  {
    var record :- EncodePlayerState(p);
    Ok(EncodeGuid(p.guid) + record)
  }

  /** The guard of TcpAuthenticate as written: one read of up to 16 bytes, and a reply that
      fills them is taken as the session identifier (the whole reply is assumed to arrive in
      that read). */
  function AuthReply(reply: seq<byte>): (r: Result<Guid>)
    ensures r.Ok? <==> |reply| >= 16
    ensures r.Ok? ==> r.value == reply[..16]
  {
    var read := if |reply| < 16 then |reply| else 16;
    if read != 16 then Err(InvalidData) else var g: Guid := reply[..16]; Ok(g)
  }

  /** The guard as evidently intended: only a reply that is exactly one identifier is
      accepted, so the server's "ERROR:..." replies are refused. */
  function AuthReplyChecked(reply: seq<byte>): (r: Result<Guid>)
    ensures r.Ok? <==> |reply| == 16
    ensures r.Ok? ==> r.value == reply
  {
    if |reply| != 16 then Err(InvalidData) else var g: Guid := reply; Ok(g)
  }

  class NetworkedPlayer {
    /** The session identifier the handshake returned. */
    const myPlayerGuid: Guid
    var predictedState: PlayerState
    var playerStates: map<Guid, PlayerState>
    /** The keys of the remotePlayers dictionary; the GameObjects themselves are left out. */
    var remotePlayers: set<Guid>
    /** The ConcurrentQueue the receive loop fills and the tick drains, front first. */
    var packetQueue: seq<PlayerState>
    /** Whether StartReceivingLoop is still running. */
    var receiving: bool

    ghost predicate Valid()
      reads this
    {
      Consistent(View(predictedState, playerStates, remotePlayers), myPlayerGuid)
    }

    /** The end of Start: the predicted state built from the handshake's identifier, the
        configured name and the transform, and the receive loop started. */
    constructor (guid: Guid, name: seq<byte>, position: Vector3, rotation: Quaternion)
      ensures Valid() && myPlayerGuid == guid
      ensures predictedState == PlayerState(guid, Some(name), position, rotation, ZeroVector, true)
      ensures playerStates == map[] && remotePlayers == {} && packetQueue == [] && receiving
    {
      myPlayerGuid := guid;
      predictedState := PlayerState(guid, Some(name), position, rotation, ZeroVector, true);
      playerStates := map[];
      remotePlayers := {};
      packetQueue := [];
      receiving := true;
    }

    /** One iteration of StartReceivingLoop's outer loop. Any exception (a short header, a
        bad record) escapes both loops, so the receive loop stops for good after the
        records before it have been enqueued. */
    method ReceiveDatagram(datagram: seq<byte>)
      requires receiving
      modifies this
      ensures packetQueue == old(packetQueue) + ParseSnapshot(datagram).records
      ensures receiving == ParseSnapshot(datagram).complete
      ensures predictedState == old(predictedState) && playerStates == old(playerStates)
      ensures remotePlayers == old(remotePlayers)
    {
      var reader := new SharedPacketReader.PacketReader(datagram);
      var recipient := reader.ReadGuid();
      if recipient.Err? {
        receiving := false;
        return;
      }
      var snapshotId := reader.ReadInt32();
      if snapshotId.Err? {
        receiving := false;
        return;
      }
      var records, complete := ReadRecords(reader);
      packetQueue := packetQueue + records;
      receiving := complete;
    }

    /** ProcessPacketQueue: dequeue until empty, routing each record. */
    method ProcessPacketQueue()
      requires Valid()
      modifies this
      ensures Valid()
      ensures packetQueue == [] && receiving == old(receiving)
      ensures View(predictedState, playerStates, remotePlayers)
              == Ingest(View(old(predictedState), old(playerStates), old(remotePlayers)), myPlayerGuid, old(packetQueue))
    {
      ghost var start := View(predictedState, playerStates, remotePlayers);
      while packetQueue != []
        invariant Valid()
        invariant receiving == old(receiving)
        invariant Ingest(View(predictedState, playerStates, remotePlayers), myPlayerGuid, packetQueue)
                  == Ingest(start, myPlayerGuid, old(packetQueue))
        decreases |packetQueue|
      {
        var state := packetQueue[0];
        packetQueue := packetQueue[1..];
        if state.guid == myPlayerGuid {
          predictedState := state;
          continue;
        }
        if state.guid !in remotePlayers {
          remotePlayers := remotePlayers + {state.guid};
        }
        playerStates := playerStates[state.guid := state];
      }
    }

    /** The key-pruning part of UpdateRemotePlayers: collect the spawned identifiers that
        have no record, then remove them. The smoothing that follows looks up every other
        player's object, and the postcondition says each lookup finds one. */
    method UpdateRemotePlayers()
      requires Valid()
      modifies this
      ensures Valid()
      ensures remotePlayers == Prune(old(remotePlayers), old(playerStates))
      ensures playerStates == old(playerStates) && predictedState == old(predictedState)
      ensures packetQueue == old(packetQueue) && receiving == old(receiving)
      ensures forall g | g in playerStates && g != myPlayerGuid :: g in remotePlayers
    {
      var toRemove: set<Guid> := {};
      var rest := remotePlayers;
      while rest != {}
        invariant rest <= remotePlayers
        invariant toRemove == set g | g in remotePlayers && g !in rest && g !in playerStates
        decreases |rest|
      {
        var g :| g in rest;
        if g !in playerStates {
          toRemove := toRemove + {g};
        }
        rest := rest - {g};
      }
      remotePlayers := remotePlayers - toRemove;
      PruneRemovesNothing(View(predictedState, playerStates, old(remotePlayers)), myPlayerGuid);
    }

    /** The guard of ApplyPredictionCorrection: the server's record of this player, looked
        up in the table of other players. The table never holds it, so the correction
        never runs. */
    function ServerCorrection(): (r: Option<PlayerState>)
      reads this
      ensures r.Some? <==> myPlayerGuid in playerStates
      ensures Valid() ==> r == None
    {
      if myPlayerGuid in playerStates then Some(playerStates[myPlayerGuid]) else None
    }

    /** SendPlayerState: a fresh shared writer given the own identifier and the own record.
        A name over 1 MiB throws from WritePlayerState and nothing is sent. */
    method SendPlayerState() returns (r: Result<seq<byte>>)
      requires Valid()
      ensures r == Upload(predictedState)
    {
      var writer := new SharedPacketWriter.PacketWriter();
      writer.WriteGuid(predictedState.guid);
      SpliceAtEnd([], EncodeGuid(predictedState.guid));
      assert [] + EncodeGuid(predictedState.guid) == EncodeGuid(predictedState.guid);
      var written := writer.WritePlayerState(predictedState);
      if written.Fail? {
        return Err(written.error);
      }
      SpliceAtEnd(EncodeGuid(predictedState.guid), EncodePlayerState(predictedState).value);
      var bytes := writer.ToArray();
      r := Ok(bytes);
    }

    /** The network part of Update: send, drain the queue, prune. An exception from the send
        leaves Update before the other steps run. */
    method NetworkTick() returns (sent: Result<seq<byte>>)
      requires Valid()
      modifies this
      ensures Valid()
      ensures sent == Upload(old(predictedState))
      ensures sent.Err? ==> predictedState == old(predictedState) && playerStates == old(playerStates)
                            && remotePlayers == old(remotePlayers) && packetQueue == old(packetQueue)
      ensures sent.Ok? ==> packetQueue == []
      ensures sent.Ok? ==>
                View(predictedState, playerStates, remotePlayers) == Ingest(View(old(predictedState), old(playerStates), old(remotePlayers)), myPlayerGuid, old(packetQueue))
      ensures receiving == old(receiving)
    {
      sent := SendPlayerState();
      if sent.Err? {
        return;
      }
      ProcessPacketQueue();
      UpdateRemotePlayers();
    }
  }
}
