# MyGame networking core in Dafny

This project models the networking core of MyGame, a small client/server game. Clients
authenticate over a TCP handshake and then exchange player state with an authoritative server
over UDP. The model covers five parts:

- **The binary wire codec, in both of its copies.** One copy is the shared `PacketWriter` and
  `PacketReader` used by the server and by `NetworkedPlayer`. The other is the client's own
  copy under `MyClient/Assets`, which differs only in a bounds-checked `ReadGuid`.
  - `Wire` states the byte layout as pure functions:
    - int32 and float are 4 bytes, little-endian;
    - bool is 1 byte;
    - a Guid is its 16 raw bytes;
    - a string carries a 4-way tag: 0 for null, 1 for empty, 2 with a one-byte length, and 3
      with a four-byte length, up to the 1 MiB cap;
    - a `PlayerState` record is guid, position, velocity, rotation, alive flag and name, in that
      order.
  - `Wire` also gives the decoders as functions from a byte sequence and a cursor to a result
    and the next cursor.
  - The four reader and writer classes are imperative models of the C# classes: a buffer and a
    position, or an immutable byte sequence and a cursor. Each method is proved against the
    `Wire` function for its field.
- **The `PlayerState` record** (`GameLogic`): its field defaults and `Clone`.
- **The server's session tables** (`Server`, with the text handling of the handshake in
  `Handshake`):
  - the `username:password` handshake;
  - the per-datagram update of the `endpoints`, `lastSeen` and `players` maps, gated on
    `sessions`;
  - the snapshot datagram built for every endpoint;
  - timeout eviction;
  - the `snapshotId` step of the tick loop.

  Each receive, tick and eviction is one atomic step. The clock is an integer parameter
  counting `DateTime` ticks of 100 ns.
- **Client snapshot ingestion** (`Client`):
  - the parse loop of `StartReceivingLoop`;
  - the queue drain of `ProcessPacketQueue`;
  - the key pruning of `UpdateRemotePlayers`;
  - the guard of `ApplyPredictionCorrection`;
  - the upload datagram of `SendPlayerState`;
  - the 16-byte check of `TcpAuthenticate`.
- **The two ends side by side** (`Protocol`):
  - a snapshot the server builds is parsed by the client into exactly its records;
  - a truncated snapshot stops the client's receive loop after the whole records;
  - the client's upload is read by the server as the client's own identifier and record;
  - the client's handshake guard accepts the server's error replies (see Findings).

Floats are carried as opaque 4-byte words, because nothing in the core does float arithmetic.
Names are the UTF-8 bytes of the string: `None` is null, `Some([])` is the empty string, and a
non-empty string has at least one byte.

Where the design description and the code disagree, the model follows the code:

- Eviction removes a player from `players`, `endpoints` and `lastSeen`, but never from
  `sessions`. No code path removes a session.
- A record carrying the client's own identifier overwrites `predictedState` directly. It does
  not go into a separate authoritative slot.
- The client never removes an entry from `playerStates`. The prune of `remotePlayers` tests
  against `playerStates`, not against the latest snapshot, so in every reachable state it
  removes nothing (`Client.PruneRemovesNothing`).
- A malformed record in a snapshot does not drop just that packet on the client. It ends the
  whole receive loop (`receiving` becomes false). The records before it stay queued.

## Model

| member | source | states |
|---|---|---|
| GameLogic.NewPlayerState | MyServer/GameLogic/PlayerState.cs:12-25 | a new record has the empty guid, a null name, zero position and velocity, identity rotation, and is alive |
| GameLogic.Clone | MyServer/GameLogic/PlayerState.cs:30-41 | the copy has each of the six fields equal to the original's |
| GameLogic.CloneIdempotent | MyServer/GameLogic/PlayerState.cs:30-41 | cloning twice equals cloning once, and a clone equals the original as a value |
| Wire.WrapInt32 | MyServer/GameServer.cs:166 | C# unchecked int arithmetic: congruent to the exact result modulo 2^32, and equal to it when in range |
| Wire.EncodeInt32 | Shared/Shared/PacketWriter.cs:25-28 | BinaryWriter.Write(int) produces exactly 4 bytes |
| Wire.Int32RoundTrip | Shared/Shared/PacketReader.cs:30-34 | decoding the 4 bytes written for an int32 gives that int32 back |
| Wire.Int32Surjective | Shared/Shared/PacketReader.cs:30-34 | every 4 bytes are the encoding of the int32 they decode to, so the int32 encoding is a bijection |
| Wire.EncodeFloat | Shared/Shared/PacketWriter.cs:30-33 | a float is written as exactly 4 bytes |
| Wire.EncodeBool | Shared/Shared/PacketWriter.cs:35-38 | a bool is written as exactly 1 byte |
| Wire.EncodeGuid | Shared/Shared/PacketWriter.cs:96-100 | a guid is written as its 16 bytes |
| Wire.EncodeVector3 | Shared/Shared/PacketWriter.cs:81-86 | a vector is written as 12 bytes |
| Wire.EncodeQuaternion | Shared/Shared/PacketWriter.cs:88-94 | a quaternion is written as 16 bytes |
| Wire.EncodeString | Shared/Shared/PacketWriter.cs:44-75 | the write succeeds exactly when the name is null or at most 1 MiB, and its encoding starts with a tag from 0 to 3 |
| Wire.StringTagBoundary | Shared/Shared/PacketWriter.cs:63-74 | a 255-byte name takes tag 2 with a one-byte length; a 256-byte name takes tag 3 with a 4-byte length |
| Wire.StringCap | Shared/Shared/PacketWriter.cs:58-61 | a name is refused exactly when it exceeds 1 MiB; a name of exactly 1 MiB is written with tag 3 |
| Wire.EncodeMotion | Shared/Shared/PacketWriter.cs:112-115 | position, velocity, rotation and the alive flag take 41 bytes |
| Wire.EncodeFixedPart | Shared/Shared/PacketWriter.cs:109-115 | the part of a record before the name is 57 bytes |
| Wire.EncodePlayerState | Shared/Shared/PacketWriter.cs:106-117 | a record is encodable exactly when its name is; its encoding is the 57-byte fixed part followed by the name's encoding |
| Wire.EncodeRecordsSnoc | MyServer/GameServer.cs:182-185 | writing one more record after a run of records appends exactly that record's encoding |
| Wire.Envelope | MyServer/GameServer.cs:178-186 | a datagram envelope is 20 header bytes followed by the body unchanged |
| Wire.GetByte | Shared/Shared/PacketReader.cs:54-55 | reading a byte succeeds exactly when one byte remains, and then returns it and advances the cursor by one |
| Wire.GetBytes | Shared/Shared/PacketReader.cs:71-73 | reading n bytes succeeds exactly when n remain, and then returns those bytes and advances by n; otherwise EndOfStream |
| Wire.GetInt32 | Shared/Shared/PacketReader.cs:30-34 | ReadInt32 succeeds exactly when 4 bytes remain and advances by 4; otherwise EndOfStream |
| Wire.GetFloat | Shared/Shared/PacketReader.cs:36-40 | ReadFloat succeeds exactly when 4 bytes remain, returns the float whose encoding is those bytes, and advances by 4 |
| Wire.GetBoolean | Shared/Shared/PacketReader.cs:42-46 | ReadBoolean succeeds exactly when 1 byte remains, and returns true for any nonzero byte |
| Wire.GetGuid | Shared/Shared/PacketReader.cs:114-118 | ReadGuid succeeds exactly when 16 bytes remain and returns them; on failure the shared copy reports an invalid Guid and the client copy EndOfStream |
| Wire.GetVector3 | Shared/Shared/PacketReader.cs:96-103 | ReadVector3 succeeds exactly when 12 bytes remain and advances by 12 |
| Wire.GetQuaternion | Shared/Shared/PacketReader.cs:105-113 | ReadQuaternion succeeds exactly when 16 bytes remain and advances by 16 |
| Wire.GetString | Shared/Shared/PacketReader.cs:52-90 | ReadString never reads past the end; an empty remainder is EndOfStream; a tag above 3 is InvalidData; tag 0 is null and tag 1 the empty string, one byte each; tag 2 yields the bytes its one-byte length declares, or EndOfStream when fewer remain; tag 3 with a 4-byte length outside [0, 1 MiB] is InvalidData, and otherwise yields the declared bytes or EndOfStream; a decoded name is always a byte sequence the writer accepts |
| Wire.GetMotion | Shared/Shared/PacketReader.cs:127-130 | the four reads after the guid succeed exactly when 41 bytes remain |
| Wire.GetPlayerState | Shared/Shared/PacketReader.cs:124-142 | a decoded record ends past its 57-byte fixed part and within the data, has an encodable name, and carries the 16 bytes at the cursor as its guid |
| Wire.SpliceParts | Shared/Shared/PacketWriter.cs:136-142 | a write at the stream position keeps the bytes before it, holds the written bytes after it, and keeps any older bytes beyond them |
| Wire.SpliceAtEnd | Shared/Shared/PacketWriter.cs:25-38 | a write at the end of the stream appends, so the earlier bytes are unchanged |
| Wire.GetFloatAgrees | Shared/Shared/PacketReader.cs:36-40 | on bytes holding a float's encoding, or a prefix of it at the end of the data, ReadFloat returns the float or EndOfStream |
| Wire.GetVector3Agrees | Shared/Shared/PacketReader.cs:96-103 | the same for a vector: the vector back, or EndOfStream when cut short |
| Wire.GetQuaternionAgrees | Shared/Shared/PacketReader.cs:105-113 | the same for a quaternion |
| Wire.GetInt32Agrees | Shared/Shared/PacketReader.cs:30-34 | the same for an int32 |
| Wire.GetStringAgrees | Shared/Shared/PacketReader.cs:52-90 | on bytes holding a name's encoding, ReadString returns the name and stops at its end, or EndOfStream when cut short |
| Wire.GetShortStringAgrees | Shared/Shared/PacketReader.cs:65-74 | tag 2 with a one-byte length reads back the 1 to 255 bytes |
| Wire.GetLongStringAgrees | Shared/Shared/PacketReader.cs:76-85 | tag 3 with a 4-byte length passes the length check and reads back the 256 bytes to 1 MiB |
| Wire.GetMotionAgrees | Shared/Shared/PacketReader.cs:127-130 | the four fields after the guid read back, or EndOfStream when cut short |
| Wire.RecordCutInFixedPart | Shared/Shared/PacketReader.cs:124-130 | a record cut inside its first 57 bytes fails: an invalid Guid in the shared copy when under 16 bytes remain, otherwise EndOfStream |
| Wire.RecordPastFixedPart | Shared/Shared/PacketReader.cs:124-142 | a record whose fixed part is all there decodes to the record or fails exactly as its name read does |
| Wire.GetPlayerStateAgrees | Shared/Shared/PacketReader.cs:124-142 | on bytes holding a record's encoding, or a prefix of it at the end of the data, ReadPlayerState returns the record and stops at its end, or fails with the truncation error |
| Wire.PlayerStateRoundTrip | Shared/Shared/PacketReader.cs:124-142 | ReadPlayerState on the bytes of WritePlayerState, in either reader copy, returns the same six fields and leaves the cursor at the record's end |
| Wire.TruncatedRecordFails | Shared/Shared/PacketReader.cs:124-142 | every proper prefix of a record's encoding fails to decode, with the truncation error of that copy |
| Wire.CopiesAgree | MyClient/Assets/PacketReader.cs:33-38 | the two reader copies give the same result, success or error, whenever 16 bytes remain at the cursor, and differ only in the error for a guid cut short |
| SharedPacketWriter.PacketWriter.constructor | Shared/Shared/PacketWriter.cs:15-19 | a new writer is empty, with position 0 |
| SharedPacketWriter.PacketWriter.Length | Shared/Shared/PacketWriter.cs:134 | Length is the buffer size and never below Position |
| SharedPacketWriter.PacketWriter.Position | Shared/Shared/PacketWriter.cs:133 | Position never exceeds Length |
| SharedPacketWriter.PacketWriter.WriteBytes | Shared/Shared/PacketWriter.cs:67 | BinaryWriter.Write(byte[]) writes the bytes at the position and advances it by their count |
| SharedPacketWriter.PacketWriter.WriteInt32 | Shared/Shared/PacketWriter.cs:25-28 | writes the int32's 4 bytes at the position and advances by 4 |
| SharedPacketWriter.PacketWriter.WriteFloat | Shared/Shared/PacketWriter.cs:30-33 | writes the float's 4 bytes and advances by 4 |
| SharedPacketWriter.PacketWriter.WriteBoolean | Shared/Shared/PacketWriter.cs:35-38 | writes 1 byte and advances by 1 |
| SharedPacketWriter.PacketWriter.WriteGuid | Shared/Shared/PacketWriter.cs:96-100 | writes the 16 guid bytes and advances by 16 |
| SharedPacketWriter.PacketWriter.WriteString | Shared/Shared/PacketWriter.cs:44-75 | succeeds exactly when the name is encodable and then writes its encoding; a name over 1 MiB fails with InvalidData and leaves the buffer and position unchanged |
| SharedPacketWriter.PacketWriter.WriteVector3 | Shared/Shared/PacketWriter.cs:81-86 | writes x, y, z: 12 bytes |
| SharedPacketWriter.PacketWriter.WriteQuaternion | Shared/Shared/PacketWriter.cs:88-94 | writes x, y, z, w: 16 bytes |
| SharedPacketWriter.PacketWriter.WriteMotion | Shared/Shared/PacketWriter.cs:112-115 | the four writes after the guid write the 41-byte motion encoding |
| SharedPacketWriter.PacketWriter.WritePlayerState | Shared/Shared/PacketWriter.cs:106-117 | succeeds exactly when the record is encodable and then writes its whole encoding; otherwise InvalidData after the 57 fixed bytes have been written |
| SharedPacketWriter.PacketWriter.SetPosition | Shared/Shared/PacketWriter.cs:136-142 | succeeds exactly when 0 <= p <= Length and then sets the position; otherwise OutOfRange with nothing changed |
| SharedPacketWriter.PacketWriter.Reset | Shared/Shared/PacketWriter.cs:144-148 | leaves Length 0 and Position 0 |
| SharedPacketWriter.PacketWriter.ToArray | Shared/Shared/PacketWriter.cs:128-131 | returns the buffer's contents |
| SharedPacketWriter.WriteRecordToFreshWriter | Shared/Shared/PacketWriter.cs:106-117 | a fresh writer given one record holds exactly that record's encoding |
| SharedPacketReader.PacketReader.constructor | Shared/Shared/PacketReader.cs:17-24 | a new reader holds the given bytes with the cursor at 0 |
| SharedPacketReader.PacketReader.Position | Shared/Shared/PacketReader.cs:148 | Position never exceeds the data length |
| SharedPacketReader.PacketReader.Length | Shared/Shared/PacketReader.cs:149 | Length is never below Position |
| SharedPacketReader.PacketReader.EnsureAvailable | Shared/Shared/PacketReader.cs:163-167 | passes exactly when n bytes remain after the cursor |
| SharedPacketReader.PacketReader.ReadInt32 | Shared/Shared/PacketReader.cs:30-34 | returns what GetInt32 decodes at the cursor; advances by 4 on success and not at all on failure |
| SharedPacketReader.PacketReader.ReadFloat | Shared/Shared/PacketReader.cs:36-40 | returns what GetFloat decodes; advances by 4 or not at all |
| SharedPacketReader.PacketReader.ReadBoolean | Shared/Shared/PacketReader.cs:42-46 | returns what GetBoolean decodes; advances by 1 or not at all |
| SharedPacketReader.PacketReader.ReadString | Shared/Shared/PacketReader.cs:52-90 | returns what GetString decodes, with the cursor at the end of the name on success |
| SharedPacketReader.PacketReader.ReadVector3 | Shared/Shared/PacketReader.cs:96-103 | returns what GetVector3 decodes; advances by 12 on success |
| SharedPacketReader.PacketReader.ReadQuaternion | Shared/Shared/PacketReader.cs:105-113 | returns what GetQuaternion decodes; advances by 16 on success |
| SharedPacketReader.PacketReader.ReadGuid | Shared/Shared/PacketReader.cs:114-118 | returns the next 16 bytes; with fewer left it fails as an invalid Guid after consuming the rest of the data |
| SharedPacketReader.PacketReader.ReadMotion | Shared/Shared/PacketReader.cs:127-130 | returns what GetMotion decodes; advances by 41 on success |
| SharedPacketReader.PacketReader.ReadPlayerState | Shared/Shared/PacketReader.cs:124-142 | returns what GetPlayerState decodes, with the cursor at the end of the record on success |
| SharedPacketReader.PacketReader.SetPosition | Shared/Shared/PacketReader.cs:151-157 | succeeds exactly when 0 <= p <= Length and then moves the cursor; otherwise OutOfRange with the cursor unchanged |
| ClientPacketWriter.PacketWriter.constructor | MyClient/Assets/PacketWriter.cs:16-20 | a new writer is empty |
| ClientPacketWriter.PacketWriter.Length | MyClient/Assets/PacketWriter.cs:103 | Length is the number of bytes written |
| ClientPacketWriter.PacketWriter.WriteBytes | MyClient/Assets/PacketWriter.cs:54 | appends the bytes |
| ClientPacketWriter.PacketWriter.WriteInt32 | MyClient/Assets/PacketWriter.cs:25 | appends the int32's 4 bytes |
| ClientPacketWriter.PacketWriter.WriteFloat | MyClient/Assets/PacketWriter.cs:26 | appends the float's 4 bytes |
| ClientPacketWriter.PacketWriter.WriteBoolean | MyClient/Assets/PacketWriter.cs:27 | appends 1 byte |
| ClientPacketWriter.PacketWriter.WriteGuid | MyClient/Assets/PacketWriter.cs:32-35 | appends exactly the 16 guid bytes |
| ClientPacketWriter.PacketWriter.WriteString | MyClient/Assets/PacketWriter.cs:40-62 | the same four tags and 255/256 boundary as the shared writer; a name over 1 MiB fails with InvalidData before any byte is appended |
| ClientPacketWriter.PacketWriter.WriteVector3 | MyClient/Assets/PacketWriter.cs:67-72 | appends x, y, z |
| ClientPacketWriter.PacketWriter.WriteQuaternion | MyClient/Assets/PacketWriter.cs:74-80 | appends x, y, z, w |
| ClientPacketWriter.PacketWriter.WriteMotion | MyClient/Assets/PacketWriter.cs:91-94 | the four writes after the guid append the 41-byte motion encoding |
| ClientPacketWriter.PacketWriter.WritePlayerState | MyClient/Assets/PacketWriter.cs:85-96 | appends the same bytes as the shared writer for the same record, or fails with InvalidData after the 57 fixed bytes |
| ClientPacketWriter.PacketWriter.Reset | MyClient/Assets/PacketWriter.cs:105-109 | empties the buffer |
| ClientPacketWriter.PacketWriter.ToArray | MyClient/Assets/PacketWriter.cs:102 | returns the buffer's contents |
| ClientPacketWriter.WriteRecordToFreshWriter | MyClient/Assets/PacketWriter.cs:85-96 | a fresh client writer given one record holds exactly the encoding the shared writer produces |
| ClientPacketReader.PacketReader.constructor | MyClient/Assets/PacketReader.cs:16-21 | a new reader holds the given bytes with the cursor at 0 |
| ClientPacketReader.PacketReader.Position | MyClient/Assets/PacketReader.cs:111 | Position never exceeds the data length |
| ClientPacketReader.PacketReader.Length | MyClient/Assets/PacketReader.cs:112 | Length is never below Position |
| ClientPacketReader.PacketReader.EnsureAvailable | MyClient/Assets/PacketReader.cs:124-128 | passes exactly when n bytes remain after the cursor |
| ClientPacketReader.PacketReader.ReadInt32 | MyClient/Assets/PacketReader.cs:26 | returns what GetInt32 decodes; a failed read leaves the cursor unchanged |
| ClientPacketReader.PacketReader.ReadFloat | MyClient/Assets/PacketReader.cs:27 | returns what GetFloat decodes; a failed read leaves the cursor unchanged |
| ClientPacketReader.PacketReader.ReadBoolean | MyClient/Assets/PacketReader.cs:28 | returns what GetBoolean decodes; a failed read leaves the cursor unchanged |
| ClientPacketReader.PacketReader.ReadString | MyClient/Assets/PacketReader.cs:43-70 | returns what GetString decodes, with the cursor at the end of the name on success |
| ClientPacketReader.PacketReader.ReadVector3 | MyClient/Assets/PacketReader.cs:75-78 | returns what GetVector3 decodes; advances by 12 on success |
| ClientPacketReader.PacketReader.ReadQuaternion | MyClient/Assets/PacketReader.cs:80-83 | returns what GetQuaternion decodes; advances by 16 on success |
| ClientPacketReader.PacketReader.ReadGuid | MyClient/Assets/PacketReader.cs:33-38 | returns the next 16 bytes; with fewer left it fails with EndOfStream and consumes nothing |
| ClientPacketReader.PacketReader.ReadMotion | MyClient/Assets/PacketReader.cs:91-94 | returns what GetMotion decodes; advances by 41 on success |
| ClientPacketReader.PacketReader.ReadPlayerState | MyClient/Assets/PacketReader.cs:88-106 | returns what GetPlayerState decodes for the client copy, with the cursor at the end of the record on success |
| ClientPacketReader.PacketReader.HasRemaining | MyClient/Assets/PacketReader.cs:113 | true exactly when Position < Length |
| ClientPacketReader.PacketReader.SetPosition | MyClient/Assets/PacketReader.cs:115-119 | succeeds exactly when 0 <= p <= Length and then moves the cursor; otherwise OutOfRange with the cursor unchanged |
| Handshake.Trim | MyServer/GameServer.cs:60 | Trim() gives a slice of the input with only white space removed on either side, which neither starts nor ends with white space |
| Handshake.Split | MyServer/GameServer.cs:61 | Split(':') gives one more piece than there are separators, none containing ':' |
| Handshake.JoinSplit | MyServer/GameServer.cs:61 | joining the pieces of a split with ':' gives the string back |
| Handshake.SplitJoin | MyServer/GameServer.cs:61 | splitting a join of ':'-free pieces gives the pieces back |
| Handshake.ParseRequest | MyServer/GameServer.cs:60-70 | the request is credentials exactly when the trimmed text holds one ':', and then it is username ':' password |
| Handshake.ClientRequest | MyClient/Assets/NetworkedPlayer.cs:230 | the request line is username, ':', password and a newline |
| Handshake.RequestRoundTrip | MyServer/GameServer.cs:60-70 | the server reads back the client's username and password when neither holds ':' and the line has no white space at either end |
| Server.Ascii | MyServer/GameServer.cs:101 | UTF-8 of ASCII text is one byte per character, holding its code |
| Server.ErrorReply | MyServer/GameServer.cs:99-103 | the error reply is the six bytes of "ERROR:" followed by the message's bytes, one per character, 6 bytes longer than it |
| Server.InvalidFormatReply | MyServer/GameServer.cs:63-67 | the reply to a malformed request is 20 bytes long |
| Server.DatagramGuid | MyServer/GameServer.cs:132-135 | the leading identifier is read exactly when the datagram has 16 bytes, and is those bytes; otherwise an invalid Guid |
| Server.DatagramRecord | MyServer/GameServer.cs:147 | the record after the identifier, when it decodes, is the one ReadPlayerState returns there, with an encodable name |
| Server.Expired | MyServer/GameServer.cs:197-199 | the identifiers whose last datagram is strictly more than the timeout older than now |
| Server.EnumerateKeys | MyServer/GameServer.cs:173 | a dictionary enumeration lists each key exactly once |
| Server.EnumerateValues | MyServer/GameServer.cs:182 | an enumeration of the player table lists each stored record exactly once |
| Server.CollectExpired | MyServer/GameServer.cs:194-199 | the first loop collects exactly the expired identifiers |
| Server.BuildSnapshot | MyServer/GameServer.cs:178-185 | a fresh writer given the recipient, the snapshot number and every record holds the envelope of the records' encodings |
| Server.EvictionKeepsTables | MyServer/GameServer.cs:201-206 | removing the same identifiers from the three tables keeps players ⊆ lastSeen = endpoints ⊆ sessions |
| Server.GameServer.constructor | MyServer/GameServer.cs:14-25 | all tables start empty and snapshotId at 0 |
| Server.GameServer.Authenticate | MyServer/GameServer.cs:60-86 | a malformed request gets the "ERROR:Invalid format" reply with sessions unchanged; otherwise the fresh identifier is mapped to the username and its 16 bytes are the reply; the table invariant holds |
| Server.GameServer.Receive | MyServer/GameServer.cs:132-149 | an unreadable or unknown identifier changes nothing; a known one refreshes endpoint and clock even when the record is malformed, and a good record is stored with the envelope identifier overwriting its own; the table invariant holds |
| Server.GameServer.SendSnapshots | MyServer/GameServer.cs:171-190 | each endpoint is sent its own identifier, the snapshot number and the encoding of every stored record, the same body for all |
| Server.GameServer.RemoveTimedOutPlayers | MyServer/GameServer.cs:192-208 | exactly the expired identifiers leave all three tables; sessions and the other entries are untouched; the table invariant holds |
| Server.GameServer.Tick | MyServer/GameServer.cs:162-167 | the snapshots are sent with the old number and tables, then eviction, then snapshotId advances by one with 32-bit wrap-around |
| Client.ParseRecords | MyClient/Assets/NetworkedPlayer.cs:149-153 | the receive loop enqueues at most one record per 58 bytes left in the datagram, and every record it enqueues has a name the writer accepts |
| Client.ParseNext | MyClient/Assets/NetworkedPlayer.cs:151-153 | one pass of the loop body and the rest of the loop keep the same bound and the same guarantee on names |
| Client.ParseSnapshot | MyClient/Assets/NetworkedPlayer.cs:143-154 | a datagram shorter than the 20-byte header yields nothing and stops the loop; otherwise the records are parsed from byte 20 |
| Client.RecordsStop | MyClient/Assets/NetworkedPlayer.cs:149-160 | a record that fails to decode ends the parse, incomplete, with nothing after it |
| Client.RecordsFirst | MyClient/Assets/NetworkedPlayer.cs:149-154 | a record that decodes is enqueued before the records parsed after it |
| Client.ReadRecord | MyClient/Assets/NetworkedPlayer.cs:151 | one ReadPlayerState short of the end either ends the parse or yields the next record and moves the cursor forward |
| Client.ReadRecords | MyClient/Assets/NetworkedPlayer.cs:149-154 | the inner loop yields exactly the records the parse specifies, in wire order, and whether it reached the end |
| Client.LastWith | MyClient/Assets/NetworkedPlayer.cs:165-180 | the last record in the queue with a given identifier, present exactly when some record carries it |
| Client.IngestKeepsConsistent | MyClient/Assets/NetworkedPlayer.cs:163-182 | draining the queue keeps remotePlayers equal to the keys of playerStates, the own identifier out of them, and every record filed under its own identifier |
| Client.IngestPredicted | MyClient/Assets/NetworkedPlayer.cs:167-171 | after the drain predictedState is the last own record in the queue, or unchanged if there is none |
| Client.IngestStates | MyClient/Assets/NetworkedPlayer.cs:173-180 | after the drain every other identifier has a record exactly when it had one or occurs in the queue, and the record is the last one in the queue |
| Client.IngestNeverStoresSelf | MyClient/Assets/NetworkedPlayer.cs:167-180 | the own identifier never enters playerStates, whose keys grow by exactly the other identifiers in the queue |
| Client.Prune | MyClient/Assets/NetworkedPlayer.cs:186-193 | keeps exactly the spawned identifiers that still have a record |
| Client.PruneRemovesNothing | MyClient/Assets/NetworkedPlayer.cs:184-193 | in a consistent view the prune removes nothing |
| Client.Upload | MyClient/Assets/NetworkedPlayer.cs:120-124 | the upload can be built exactly when the record is encodable; otherwise InvalidData |
| Client.AuthReply | MyClient/Assets/NetworkedPlayer.cs:234-238 | as written, any reply of at least 16 bytes is accepted, and its first 16 bytes become the identifier |
| Client.AuthReplyChecked | MyClient/Assets/NetworkedPlayer.cs:234-238 | corrected, exactly a 16-byte reply is accepted, as the identifier |
| Client.NetworkedPlayer.constructor | MyClient/Assets/NetworkedPlayer.cs:73-81 | the predicted state carries the handshake identifier, the name, the position and rotation, zero velocity and alive; the tables and queue are empty |
| Client.NetworkedPlayer.ReceiveDatagram | MyClient/Assets/NetworkedPlayer.cs:143-160 | the parsed records are appended to the queue in wire order, and the loop goes on only if the whole datagram parsed |
| Client.NetworkedPlayer.ProcessPacketQueue | MyClient/Assets/NetworkedPlayer.cs:163-182 | the queue is drained front first into the view the fold specifies, and left empty; consistency holds |
| Client.NetworkedPlayer.UpdateRemotePlayers | MyClient/Assets/NetworkedPlayer.cs:184-198 | remotePlayers becomes the prune of itself against playerStates, and every other stored identifier has a spawned entry afterwards |
| Client.NetworkedPlayer.ServerCorrection | MyClient/Assets/NetworkedPlayer.cs:204-206 | the guard finds a record exactly when playerStates holds the own identifier, which in a consistent state it never does |
| Client.NetworkedPlayer.SendPlayerState | MyClient/Assets/NetworkedPlayer.cs:120-130 | the datagram is the own identifier followed by the predicted record |
| Client.NetworkedPlayer.NetworkTick | MyClient/Assets/NetworkedPlayer.cs:88-98 | send, drain, prune: the upload of the old predicted state, then the drained view; a failed send skips the rest |
| Protocol.RecordsRoundTrip | MyClient/Assets/NetworkedPlayer.cs:149-154 | a run of records written back to back parses into exactly those records, followed by whatever the later bytes parse to |
| Protocol.SnapshotRoundTrip | MyServer/GameServer.cs:178-186 | a snapshot the server builds is parsed by the client into exactly its records, in order, and the loop keeps running |
| Protocol.TruncatedSnapshot | MyClient/Assets/NetworkedPlayer.cs:149-160 | a snapshot whose last record is cut short delivers the records before it and stops the receive loop |
| Protocol.RecordsCutShort | MyClient/Assets/NetworkedPlayer.cs:149-160 | a record cut short at the end of the data ends the parse, incomplete |
| Protocol.UploadRoundTrip | MyServer/GameServer.cs:135-149 | the server reads the client's upload as the client's identifier and its exact record, which it stores unchanged |
| Protocol.UploadLayout | MyClient/Assets/NetworkedPlayer.cs:122-124 | the upload is the 16 identifier bytes followed by the record's encoding |
| Protocol.AuthAcceptsErrorReplies | MyClient/Assets/NetworkedPlayer.cs:234-238 | as written, the guard accepts every server error reply with a message of at least 10 characters, as an identifier starting "ERROR:" |
| Protocol.AuthAcceptsInvalidFormatReply | MyClient/Assets/NetworkedPlayer.cs:234-238 | in particular it accepts the reply to a malformed request |
| Protocol.AuthCheckedOnServerReplies | MyClient/Assets/NetworkedPlayer.cs:234-238 | the corrected guard rejects that reply, and both guards read an issued identifier back unchanged |

## Left out

- Sockets and async I/O are not modelled: the TCP accept loop, `ReadAsync` and `WriteAsync`, `udp.Send` and `ReceiveAsync`, `Task.Delay` and cancellation. Each receive, tick and eviction is one atomic step, and what would be sent is returned as a value.
- The server reads a handshake request in one `ReadAsync` into a 1024-byte buffer, so a longer or split request is cut. The model takes the request as a whole string.
- The client's single `ReadAsync` of the reply is modelled as delivering the whole reply, up to 16 bytes.
- A send that throws is ignored in the source. In the model every send is delivered, so the remaining recipients are still processed.
- Concurrency is not modelled: the concurrent dictionaries and queue, and the races between the receive loop and the tick.
- Floating-point arithmetic is not modelled. Floats are 4-byte words. Movement, `Lerp`/`Slerp` smoothing, the correction distance test and the `tickTimer` gating are left out, so `ApplyPredictionCorrection` is only its dictionary guard.
- Conversion of `Encoding.UTF8` between strings and bytes is not modelled. A name is its byte sequence. Two consequences follow:
  - `Encoding.UTF8.GetString` replaces each invalid byte by U+FFFD, which re-encodes as 3 bytes. A tag-3 name of 1 MiB of 0xFF bytes is accepted by ReadString, but its string re-encodes to 3 MiB, which WriteString refuses. `Wire.GetString`'s promise that the writer accepts a decoded name holds for the bytes only.
  - A name whose bytes are not valid UTF-8 is re-broadcast by the server with different bytes. `Protocol.UploadRoundTrip` and `Protocol.SnapshotRoundTrip` are stated on byte sequences and do not capture that change.
- `Guid.NewGuid()` is a parameter known not to be in `sessions`, and `DateTime.UtcNow` is an integer count of ticks.
- Unity objects are not modelled: `Instantiate`, `Destroy` and transforms. `remotePlayers` is its key set.
- `Dispose` and `AsSpan` are not modelled; they touch only stream lifetime and buffer views.
- The order in which a dictionary enumerates its entries is a chosen listing: each key appears once, in some order.
- Clone's fresh allocation is not modelled. `PlayerState` is a value, so no later mutation can be shared between a record and its clone.
- The "Invalid credentials" branch of the handshake is dead code, because the credential check is the constant `true`.
- `Client.NetworkedPlayer.ReceiveDatagram`: the records of one datagram are enqueued together after its inner loop, rather than one at a time. With no concurrent reader of the queue the effect is the same.
- `Wire.GetString`, `Wire.GetPlayerState` and the reader methods: after a failed read of a string, vector, quaternion or record, the cursor is only stated not to move backwards. The model does not say how far it moved, because the reader is abandoned after such a failure.
- MyClient/Assets/PlayerState.cs, MyClient/Assets/NetConversions.cs, MyServer/Program.cs, MyServer/AuthState.cs and MyClient/Assets/PlayerMovement.cs are not part of this model. They hold data declarations, vector conversions, the entry point, unused tables and Rigidbody physics.

## Findings

| source | as written | input that shows it | evidently intended | confidence | as-written member | corrected member |
|---|---|---|---|---|---|---|
| MyClient/Assets/NetworkedPlayer.cs:234-238 | the handshake accepts any reply from which 16 bytes can be read, and takes those bytes as the session identifier | the server's reply to a request without exactly one ':' is the 20 bytes of "ERROR:Invalid format" (MyServer/GameServer.cs:63-67, :99-103); the client accepts it and keeps "ERROR:Invalid fo" as its session identifier, which the server never issued, so all its datagrams are ignored | only a reply of exactly 16 bytes, an issued identifier, is accepted; an "ERROR:" reply fails the handshake | not executed | Protocol.AuthAcceptsInvalidFormatReply | Protocol.AuthCheckedOnServerReplies |
