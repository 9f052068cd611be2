# Verification model of the IM server core

This project models the parts of the instant-messaging server in which a mistake would be hard to
see, and proves what they promise. `dafny verify dfyconfig.toml` checks all of it.

* **Envelope codec** (`Bytes`, `Words`, `CrcTable`, `Crc32`, `FrameCrc`, `Varint`, `Codec`,
  `CodecLaws`, `KnownAnswer`). The frame is `varint header_size | varint type_size | type | header | body | CRC32`.
  The table-driven checksum is proved equal to the bit-serial definition; what the trailer detects is
  stated exactly; printer and both parsers are proved inverse wherever they are, with the exact
  condition for when they are not.
* **Protocol Buffers messages** (`Wire`, `Messages`, `Header`, `Response`, `Friends`,
  `MessageObjects`, `FriendListObject`, `Utf8Laws`, `WireBytes`). The parser follows the Protocol Buffers Encoding document
  ("Base 128 Varints", "Packed Repeated Fields", "Last One Wins"); size pass, serialise pass and
  merge are objects updated in place, proved against the wire form.
* **WebSocket server and sessions** (`SessionIds`, `Hub`, `HubInvariant`, `HubLaws`, `HubProgress`, `SendQueue`,
  `WebSocketObjects`, `Durations`, `HandshakeCounter`). `Hub` is a step system over the server and all its sessions,
  `SendQueue` one over a single session's queue; the objects in `WebSocketObjects` take exactly one
  step of each per handler. `Durations` and
  `HandshakeCounter` are the lock-free updates over any interleaving.
* **TCP framing** (`TcpFraming`, `TcpSession`). What a byte stream means, and a session object whose
  reader and send queue keep to it for every chunking.
* **Pools** (`PoolMonitor`, `PoolLaws`, `ConnectionPool`, `IOServicePool`). A monitor with a condition variable,
  and a round-robin allocator.

## Assumptions

* Frames are shorter than 2^31 bytes and the host is little-endian (the trailer is copied in host order).
* The WebSocket server runs on one io_context, and an io_context is run by one thread
  (`common/network/IOService_pool.cpp:21-37`), so one handler is one step; session handles escape only
  through the connect and message handlers; fewer than 2^64 connections are accepted.
* The send-queue claims assume that handlers run first in, first out. The claims on the order of writes stop
  when the session closes.
* Frames go onto a TCP connection as units. Heartbeats bypass the send queue, and header length and type byte
  are passed to `async_write` as addresses of local variables
  (`common/network/tcp_session.cpp:191-198`, `common/network/tcp_session.cpp:424-430`) that are gone once the
  function returns; the model takes their bytes when the write starts.
* The connection factory and its clients behave as the predicates `InOrder` and `Polite` say; what happens
  when they do not is stated by `CoverageLostIff` and `ReleaseConservesIff`.
* A TCP session sends heartbeats only from its timer (a PING) and in answer to a PING (a PONG), the two calls there are
  (`common/network/tcp_session.cpp:246`, `common/network/tcp_session.cpp:350`).
* A read that is started on a closed socket fails at once, whatever its length.
* Parameters: the clock, the device and platform of an answer, the factory's results, which thread runs
  next, which waiter is notified, when deadlines pass, and whether a compare-and-swap fails spuriously.

## Where the code falls short

* Both decoders copy the type name and the header bytes before the skips look at the sizes, after a bound check
  whose sum wraps in 32 bits. `CodecLaws.CopiesInsideIff` states exactly when every copy stays inside the data,
  `CodecLaws.WrappedSizesLeaveTheData` gives an input for which it does not, and
  `CodecLaws.UnboundedCheckSuffices` shows that a sum made without wrapping would do. The decoder contracts say
  what happens when the copies stay inside, and promise nothing where one does not.
* A write that succeeds after a close has cleared the queue pops an empty queue
  (`common/network/websocket_session.cpp:217-222`). `SendQueue.PopsEmptyIff` proves that this happens exactly
  when `closed_` is set, the guard the handler lacks; `SendQueue.WriteOutlivesClose` gives the run. The model
  records it and says nothing of the program afterwards.
* `GetIOService` loads the pool size twice and looks the service up after that; `StopRace.CallFailsIff` states
  exactly when a `Stop` on another thread makes either step undefined, and `StopRace.StopBetweenTheLoads` and
  `StopRace.StopBeforeTheLookUp` give the runs.

## Where the code and its documentation differ

* The codec is documented as giving back what was encoded. An all-default header serialises to zero bytes and
  is refused on decoding (`common/network/protobuf_codec.cpp:197-201`); `CodecLaws.ComesBackIff` gives the
  exact condition.
* `decode` checks the type name only when the body is not empty
  (`common/network/protobuf_codec.cpp:253-274`); `Codec.Decode` states this.
* A PING or PONG header with a non-zero length is not followed by a read of that many bytes
  (`common/network/tcp_session.cpp:349-368`): the payload is read as frames (`TcpFraming.PayloadTakenForFrame`),
  and `TcpFraming.PayloadSkippedIff` states exactly when nothing is lost by that.
* The branch of the connection pool that would create a connection outside the pool
  (`common/utils/connection_pool.hpp:163-181`) cannot run, because the wait's predicate is checked under the
  same lock; `ConnectionPoolObject.ConnectionPool.Proceed` proves it.

## Model

| member | source | states |
|---|---|---|
| `CrcTable.TableIsShift8` | common/network/protobuf_codec.cpp:20-57 | every one of the 256 printed table entries is the register after eight bit steps from its index |
| `Crc32.TableStep` | common/network/protobuf_codec.cpp:391-394 | one turn of the table loop equals feeding the eight bits of the byte, low bit first |
| `Crc32.CalculateCrc32` | common/network/protobuf_codec.cpp:387-397 | for every byte string the table loop returns the bit-serial reflected CRC-32 of section 8 of RFC 1952 |
| `Bytes.OctetIsBinary` | common/network/protobuf_codec.cpp:387-393 | bit i of a byte as the checksum sees it is the i-th binary digit of its value |
| `FrameCrc.OctetBitsAreBinary` | common/network/protobuf_codec.cpp:391-394 | the checksum takes the binary digits of every byte, the least significant first |
| `KnownAnswer.CheckValue` | common/network/protobuf_codec.cpp:387-397 | the CRC of the nine digits "123456789" is 0xCBF43926 |
| `KnownAnswer.TrailerOfCheckValue` | common/network/protobuf_codec.cpp:122-125 | the trailer of that checksum is 26 39 F4 CB, low byte first |
| `Crc32.RunInjective` | common/network/protobuf_codec.cpp:391-394 | the same bits never bring two different registers together |
| `Crc32.RunXor` | common/network/protobuf_codec.cpp:391-394 | two runs differ by exactly the run of their differences |
| `FrameCrc.TrailerRoundTrip` | common/network/protobuf_codec.cpp:122-125 | the four bytes copied out of the checksum word are read back as the same word |
| `FrameCrc.ResidueCriterion` | common/network/protobuf_codec.cpp:162-172 | a frame passes the trailer check if and only if the CRC of the whole frame, trailer included, is 0x2144DF1C |
| `FrameCrc.ShortPatternsAreSeen` | common/network/protobuf_codec.cpp:162-172 | no non-zero pattern of at most 32 bits is a codeword |
| `FrameCrc.BurstDetected` | common/network/protobuf_codec.cpp:300-309 | any change confined to 32 consecutive bits anywhere in an accepted frame, across the trailer border too, is refused |
| `FrameCrc.UndetectedChange` | common/network/protobuf_codec.cpp:300-309 | between frames of equal length a change passes if and only if it is itself a codeword |
| `FrameCrc.ThirtyThreeBitsCanHide` | common/network/protobuf_codec.cpp:300-309 | the bound is sharp: a frame that differs from an accepted one by one fixed 33-bit pattern passes |
| `FrameCrc.HiddenDamageExists` | common/network/protobuf_codec.cpp:300-309 | every accepted frame has, for every position of the 33 bits, such an undetected and different twin, built from its bits |
| `Varint.SizeIsLength` | common/proto/base.pb.cc:576-617 | the size functions give the length of the written varint |
| `Varint.VarintRoundTrip` | common/network/protobuf_codec.cpp:101-114 | reading undoes writing whatever follows, as soon as the byte limit covers the value |
| `Varint.ReadVarintLocal` | common/network/protobuf_codec.cpp:183-195 | a successful read depends only on the bytes it used |
| `Varint.VarintForm` | common/network/protobuf_codec.cpp:101-114 | a written varint has its value as positional value in base 128, and exactly its last byte is below 128 |
| `Varint.ReadForm` | common/network/protobuf_codec.cpp:183-195 | a varint read ends at the first byte below 128 within the limit, and its value is the positional value of the bytes used |
| `Varint.RefusedIff` | common/network/protobuf_codec.cpp:183-195 | a varint is refused if and only if no byte below 128 comes within its limit |
| `Varint.Limits` | common/network/protobuf_codec.cpp:183-195 | the limits are ten bytes for a varint and five for a tag or a length |
| `Wire.RecordRoundTrip` | common/proto/base.pb.cc:356-450 | a written field is read back, whatever follows it |
| `Wire.ParseAppend` | common/proto/base.pb.cc:356-450 | bytes that parse, followed by an encoding, give the records of the one followed by the records of the other |
| `Wire.ParseEncode` | common/proto/base.pb.cc:356-450 | parsing undoes encoding for every list of writable records |
| `Header.ApplyRecords` | common/proto/base.pb.cc:630-666 | applying the fields of a header, last one wins, is `MergeImpl` with that header |
| `Header.ParseConcatenation` | common/proto/base.pb.cc:630-666 | bytes that parse followed by a serialised header parse to the merge of the two |
| `Header.RoundTrip` | common/proto/base.pb.cc:477-562 | a serialised header with valid strings parses back to itself |
| `Header.ParsesBackIff` | common/proto/base.pb.cc:483-562 | a serialised header parses back if and only if its strings are well-formed UTF-8, and is refused otherwise |
| `Header.EmptyIffDefault` | common/proto/base.pb.cc:477-562 | only the all-default header serialises to zero bytes |
| `Header.ExplicitDefaultOverwrites` | common/proto/base.pb.cc:630-666 | a default value present on the wire does overwrite, so merging bytes is not merging values for every wire form |
| `Utf8Laws.ValidUtf8Iff` | common/proto/base.pb.cc:483-562 | a string field is well formed if and only if it is the concatenation of the encodings of Unicode scalar values, computed arithmetically |
| `WireBytes.HeaderBytes` | common/proto/base.pb.cc:483-562 | the bytes of every header in literal tags 10, 16, 24, 34, 42, 48, 58, 66, 74 |
| `WireBytes.ResponseBytes` | common/proto/base.pb.cc:865-903 | the bytes of every response in literal tags 8, 18, 26, the code in 64-bit two's complement |
| `WireBytes.FriendBytes` | common/proto/friend.pb.cc:1049-1102 | the bytes of every friend entry in literal tags 10, 18, 24, 34, 40, 50, 56 |
| `WireBytes.ListBytes` | common/proto/friend.pb.cc:3302-3337 | the bytes of every friend list: tag 10 for the base if there is one, tag 18 for each friend in order |
| `WireBytes.HeaderText` | common/proto/base.pb.cc:374-410 | after bytes that parse, each text tag overwrites its field, empty or not, and is refused if and only if it is not UTF-8 |
| `WireBytes.HeaderNumber` | common/proto/base.pb.cc:374-400 | tags 16 and 24 keep the low 32 bits of a varint, tag 48 all 64 |
| `WireBytes.HeaderSkips` | common/proto/base.pb.cc:371-372 | unknown fields and known fields of another wire type are skipped |
| `WireBytes.ResponseFields` | common/proto/base.pb.cc:813-825 | what tags 8, 18 and 26 do to a response, for every value |
| `WireBytes.ResponseSkips` | common/proto/base.pb.cc:810-812 | everything else is skipped |
| `WireBytes.FriendTexts` | common/proto/friend.pb.cc:958-990 | what tags 10, 18 and 50 do to a friend entry |
| `WireBytes.FriendNumbers` | common/proto/friend.pb.cc:958-990 | what tags 24, 40 and 56 do, as signed 64-bit, unsigned 64-bit and signed 32-bit values |
| `WireBytes.FriendPermissions` | common/proto/friend.pb.cc:958-990 | permissions packed under tag 34 or single under tag 32 are appended |
| `WireBytes.FriendSkips` | common/proto/friend.pb.cc:942-957 | everything else is skipped |
| `WireBytes.ListFields` | common/proto/friend.pb.cc:3239-3275 | tag 10 is parsed into the base that is there, tag 18 afresh and appended |
| `WireBytes.ListSkips` | common/proto/friend.pb.cc:3239-3275 | everything else is skipped |
| `WireBytes.BlobReadIff` | common/proto/base.pb.cc:356-450 | a length-delimited field is read if and only if its length is below the parser's limit and the bytes are there |
| `WireBytes.ScalarRead` | common/proto/base.pb.cc:356-450 | a varint field takes up to ten bytes and keeps the low 64 bits |
| `WireBytes.FixedRead` | common/proto/base.pb.cc:356-450 | wire types 1 and 5 are eight and four bytes |
| `WireBytes.RefusedTags` | common/proto/base.pb.cc:356-450 | groups, unassigned wire types and field number 0 are refused |
| `WireBytes.ResponseParsesBackIff` | common/proto/base.pb.cc:865-958 | a serialised response parses back if and only if its message is UTF-8 |
| `WireBytes.FriendParsesBackIff` | common/proto/friend.pb.cc:1040-1110 | a serialised friend entry parses back if and only if its three texts are UTF-8 |
| `WireBytes.ListParsesBackIff` | common/proto/friend.pb.cc:3302-3337 | a serialised list parses back if and only if every text in it, nested ones included, is UTF-8 |
| `Response.ApplyRecords` | common/proto/base.pb.cc:940-958 | applying the fields of a response is `MergeImpl` with it |
| `Response.ParseConcatenation` | common/proto/base.pb.cc:865-958 | parsing into a message with content merges: prefix bytes, then the serialised response |
| `Response.RoundTrip` | common/proto/base.pb.cc:865-903 | a serialised response parses back to itself |
| `Friends.UnpackPacked` | common/proto/friend.pb.cc:1072-1080 | the packed enum field is unpacked to the same values, negative ones included, and is empty only when there are none |
| `Friends.ApplyFriendRecords` | common/proto/friend.pb.cc:1171-1199 | applying the fields of a friend entry is `MergeImpl`: tags appended, the rest overwritten |
| `Friends.ParseFriendConcatenation` | common/proto/friend.pb.cc:942-1199 | bytes that parse followed by a serialised entry parse to the merge |
| `Friends.FriendRoundTrip` | common/proto/friend.pb.cc:1040-1110 | a serialised friend entry parses back to itself |
| `Friends.ApplyListRecords` | common/proto/friend.pb.cc:3375-3398 | applying the fields of a list merges the optional base and appends the friends in order |
| `Friends.ParseListConcatenation` | common/proto/friend.pb.cc:3297-3398 | bytes that parse followed by a serialised list parse to `MergeImpl` of the two, nested and repeated fields included |
| `Friends.ListRoundTrip` | common/proto/friend.pb.cc:3302-3337 | a serialised list parses back to itself |
| `MessageObjects.IMHeader.InternalSerialize` | common/proto/base.pb.cc:477-562 | appends exactly the wire form of the object to the target |
| `MessageObjects.IMHeader.ByteSizeLong` | common/proto/base.pb.cc:568-628 | result and cached size equal the length of what the serialise pass writes |
| `MessageObjects.IMHeader.MergeFrom` | common/proto/base.pb.cc:630-666 | the new state is the merge of the old state and the argument |
| `MessageObjects.BaseResponse.InternalSerialize` | common/proto/base.pb.cc:865-903 | appends exactly the wire form of the object |
| `MessageObjects.BaseResponse.ByteSizeLong` | common/proto/base.pb.cc:908-938 | result and cached size equal the serialised length |
| `MessageObjects.BaseResponse.MergeFrom` | common/proto/base.pb.cc:940-958 | the new state is the merge of the old state and the argument |
| `MessageObjects.EnumSize` | common/proto/friend.pb.cc:1128-1134 | the loop over the enum values sums to the length of the packed bytes |
| `MessageObjects.WriteEnumPacked` | common/proto/friend.pb.cc:1072-1080 | writes tag, the size it is told, and the packed values |
| `MessageObjects.FriendInfo.InternalSerialize` | common/proto/friend.pb.cc:1040-1110 | given current cached sizes, appends exactly the wire form |
| `MessageObjects.FriendInfo.ByteSizeLong` | common/proto/friend.pb.cc:1117-1169 | makes the packed and total cached sizes current and returns the serialised length |
| `MessageObjects.FriendInfo.MergeFrom` | common/proto/friend.pb.cc:1171-1199 | the new state is the merge of the old state and the argument |
| `FriendListObject.GetFriendListResponse.ByteSizeLong` | common/proto/friend.pb.cc:3343-3373 | leaves every nested and packed cached size equal to what will be written, and returns the total length |
| `FriendListObject.GetFriendListResponse.InternalSerialize` | common/proto/friend.pb.cc:3302-3337 | given current sizes, every length prefix is right and the output is the wire form |
| `FriendListObject.GetFriendListResponse.SerializeToString` | common/proto/friend.pb.cc:3302-3373 | refused if and only if the wire form exceeds INT_MAX bytes; otherwise the two passes give it for any state of the cached sizes before |
| `FriendListObject.GetFriendListResponse.MergeFrom` | common/proto/friend.pb.cc:3375-3398 | merges or copies the base, appends fresh copies of the entries, and leaves the argument alone |
| `CodedStream.CodedInputStream.ReadVarint32` | common/network/protobuf_codec.cpp:183-195 | reads within the 64 MiB window and keeps the low 32 bits |
| `CodedStream.CodedInputStream.Skip` | common/network/protobuf_codec.cpp:223-237 | succeeds if and only if the count is below 2^31 and stays within the window |
| `Codec.Encode` | common/network/protobuf_codec.cpp:70-137 | succeeds if and only if both messages serialise, and then returns header size, type size cut to 32 bits, type, header, body and checksum in that order |
| `Codec.ChecksumMatches` | common/network/protobuf_codec.cpp:300-309 | the frame is long enough and its last four bytes are the checksum of the rest |
| `Codec.Decided` | common/network/protobuf_codec.cpp:311-371 | what becomes of every frame, test by test in the order the code makes them, copies included |
| `Codec.DecodeEnvelope` | common/network/protobuf_codec.cpp:289-376 | reports exactly whether every copy stayed inside the data; if so, accepts exactly the frames `Open` accepts and returns header, type name and body bytes |
| `Codec.Decode` | common/network/protobuf_codec.cpp:150-287 | reports exactly whether every copy stayed inside the data; if so, accepts if and only if `decodeEnvelope` would and the body is empty or both parses and has the expected type name; the headers are equal |
| `CodecLaws.AcceptedIsLaidOut` | common/network/protobuf_codec.cpp:209-246 | in every accepted frame the announced sizes, added as unbounded integers, partition the data exactly |
| `CodecLaws.LaidOutIsAccepted` | common/network/protobuf_codec.cpp:317-371 | conversely every frame so laid out is accepted and yields its parts |
| `CodecLaws.BoundCheckNeverWraps` | common/network/protobuf_codec.cpp:335-342 | for sizes both skips let through, the 32-bit sum of the bound check is the true sum; it says nothing of the copies before the skips |
| `CodecLaws.CopiesInsideIff` | common/network/protobuf_codec.cpp:209-237 | once the 32-bit check passed, every copy made before a skip stays inside the data if and only if the sizes sum to less than 2^32, or the type name fits and its skip is refused by the 64 MiB limit |
| `CodecLaws.WrappedSizesLeaveTheData` | common/network/protobuf_codec.cpp:335-353 | a 7-byte data with a good checksum whose sizes wrap to 0: the check passes and the header copy leaves the data |
| `CodecLaws.OutsideIsNotAccepted` | common/network/protobuf_codec.cpp:345-356 | where a copy leaves the data the sizes fail a skip, so no accepted frame has one |
| `CodecLaws.UnboundedCheckSuffices` | common/network/protobuf_codec.cpp:335-342 | a bound check made without wrapping keeps every copy inside |
| `CodecLaws.FrameRoundTrip` | common/network/protobuf_codec.cpp:70-137 | for a header with content and every body, within the size limits, what was encoded is what is decoded |
| `CodecLaws.FrameLayout` | common/network/protobuf_codec.cpp:97-125 | the frame is header size, type size, type, header, body and checksum, in that order |
| `CodecLaws.ComesBackIff` | common/network/protobuf_codec.cpp:197-207 | the exact condition under which an encoded frame comes back: non-default header, valid strings, non-empty type name, size limit |
| `CodecLaws.FrameInjective` | common/network/protobuf_codec.cpp:97-125 | equal frames have equal header, type name and body, although the body carries no length |
| `CodecLaws.DamagedFrameRefused` | common/network/protobuf_codec.cpp:300-309 | an accepted frame damaged within 32 consecutive bits is refused with a checksum error |
| `CodecLaws.ReturnHeaderBuilder` | common/network/protobuf_codec.cpp:399-422 | all nine fields: sender and receiver change places, version, seq and token are kept, command id 2, the given time, device id and platform |
| `CodecLaws.BuildErrorResponse` | common/network/protobuf_codec.cpp:434-463 | returns the frame of the answer header and a `BaseResponse` with code and text, or nothing when encoding fails |
| `CodecLaws.ErrorResponseAccepted` | common/network/protobuf_codec.cpp:434-463 | every error response for a request with valid strings, within the size limits, is accepted with the literal type name `im.base.BaseResponse`, all header fields as the builder set them, and the response as its body |
| `SessionIds.ValueOfDecimal` | common/network/websocket_session.hpp:104-107 | reading the decimal rendering gives the number back |
| `SessionIds.IdInjective` | common/network/websocket_session.hpp:104-107 | different counter values give different ids |
| `SessionIds.KnownIds` | common/network/websocket_session.hpp:104-107 | the first id is session_1, and digits run from the most significant: session_120 |
| `HubInvariant.StepKeepsInv` | common/network/websocket_session.cpp:23-46 | every step of the server and its sessions keeps the invariant on flags, counters, ids and registry |
| `HubInvariant.RunKeepsInv` | common/network/websocket_session.cpp:161-191 | the invariant holds at the end of every run of fewer than 2^64 connections |
| `HubInvariant.ActiveIsCounted` | common/network/websocket_server.cpp:59-66 | a tracked session is counted, so the guard never suppresses its decrement |
| `HubInvariant.FreshIdNotRegistered` | common/network/websocket_server.cpp:161-165 | a fresh id is not in the registry, so `emplace` never loses a session |
| `HubLaws.HandshakesBalance` | common/network/websocket_server.cpp:55-66 | in every reachable state the handshake counter is the number of tracked sessions, and every session was finished once or is still tracked |
| `HubLaws.RegistryIsSound` | common/network/websocket_session.cpp:251-301 | closed sessions are never registered, ids never repeat, connects less disconnects is the number registered, one disconnect at most each |
| `HubLaws.RegistryAfterStop` | common/network/websocket_server.cpp:139-159 | after `stop` the registry only ever holds sessions that were mid-handshake then, or the one of a pending accept |
| `HubLaws.DrainedReportedOnce` | common/network/websocket_server.cpp:139-159 | a session drained by `stop` is reported disconnected exactly once, when its posted close runs |
| `HubLaws.StopPostsOnePerEntry` | common/network/websocket_server.cpp:143-157 | `stop` posts one close for each registry entry, none twice and none to anybody else |
| `HubProgress.AcceptingGoesOn` | common/network/websocket_server.cpp:100-120 | in every run without a failed accept and a stop, the next connection can be accepted |
| `HubProgress.NoAcceptAfterFailure` | common/network/websocket_server.cpp:101-108 | after a failed accept no session is ever added |
| `HubProgress.ThreeStepsRegister` | common/network/websocket_session.cpp:23-193 | a handshake registers its session after three successes and not before, with id, registry entry, connect call and end of tracking |
| `HubProgress.ReadingGoesOn` | common/network/websocket_session.cpp:195-211 | reading a message changes nothing the server keeps, and the next read is under way |
| `HubProgress.PostedAccount` | common/network/websocket_session.cpp:245-256 | by how much every kind of event moves the number of posted closes |
| `HubProgress.RequestedCloseHolds` | common/network/websocket_session.cpp:50-54 | a close asked for is never forgotten: the session is closed, or its close can run and closes it |
| `HubProgress.NoCloseWithoutCause` | common/network/websocket_session.cpp:245-256 | no session is closed unless its close was asked for, its reading failed, or the server was stopped |
| `HubProgress.StopsAccount` | common/network/websocket_server.cpp:139-159 | every requested stop is posted until it runs |
| `HubProgress.RemovingById` | common/network/websocket_server.cpp:197-205 | takes out that entry and no other, and touches no session |
| `HandshakeCounter.EveryFinishDecrements` | common/network/websocket_server.cpp:55-66 | under any interleaving of threads the counter is the tracked sessions plus the calls on their way, and every returned call decremented once; starts and finishes are counted by the run |
| `HandshakeCounter.UndisturbedReturns` | common/network/websocket_server.cpp:59-66 | undisturbed, a call returns after two steps, one lower |
| `SendQueue.StepKeepsInv` | common/network/websocket_session.cpp:56-72 | every posted send, write completion and close keeps the queue invariant, in open and closed sessions |
| `SendQueue.PopsEmptyIff` | common/network/websocket_session.cpp:217-222 | in every run, the handler of a successful write finds an empty queue to pop if and only if the session has been closed |
| `SendQueue.WriteOutlivesClose` | common/network/websocket_session.cpp:217-270 | such a run exists for every message: a close posted while its write is in flight, which then succeeds |
| `SendQueue.StartedIsPrefixOfRequests` | common/network/websocket_session.cpp:214-227 | while open, the writes started are a gap-free prefix of the send requests |
| `SendQueue.QueueDiscipline` | common/network/websocket_session.cpp:62-69 | the queue never exceeds 1024 and a write is outstanding exactly when it is non-empty |
| `SendQueue.RequestsAre` | common/network/websocket_session.cpp:56-58 | the requests of a run are its sends, in order |
| `SendQueue.NothingStartsAfterOverflow` | common/network/websocket_session.cpp:62-65 | what was queued after an overflow is never handed to the stream before the posted close |
| `WebSocketObjects.WebSocketSession.Start` | common/network/websocket_session.cpp:23-46 | sets the tracking flag, counts the handshake and waits for TLS |
| `WebSocketObjects.WebSocketSession.FinishHandshakeTracking` | common/network/websocket_session.cpp:297-301 | clears the flag and decrements the counter exactly when the flag was set |
| `WebSocketObjects.WebSocketSession.OnUpgraded` | common/network/websocket_session.cpp:176-190 | gives a new id, registers, calls the connect handler and ends tracking |
| `WebSocketObjects.WebSocketSession.PerformClose` | common/network/websocket_session.cpp:251-295 | only the first close acts: it drops the queue, ends tracking and deregisters a registered session |
| `WebSocketObjects.WebSocketSession.Send` | common/network/websocket_session.cpp:56-58 | posts the message behind everything posted before; the objects stay in step with the model |
| `WebSocketObjects.WebSocketSession.Close` | common/network/websocket_session.cpp:50-54 | posts one close; one step of both models |
| `WebSocketObjects.WebSocketSession.RunClose` | common/network/websocket_session.cpp:245-295 | the posted close is exactly one step of the server model and of the queue model |
| `WebSocketObjects.WebSocketSession.RunSendSide` | common/network/websocket_session.cpp:56-72 | a posted send or a finished write is one step of the queue model, the pop of an emptied queue included, and posts a close exactly on overflow or failure |
| `WebSocketObjects.WebSocketSession.OnWritten` | common/network/websocket_session.cpp:217-226 | pops the front and writes the next, records a pop of an empty queue, or posts a close |
| `WebSocketObjects.WebSocketSession.FindsEmptyIff` | common/network/websocket_session.cpp:217-222 | for the objects too: when a successful write's handler is next, its queue is empty if and only if the session was closed |
| `WebSocketObjects.WebSocketSession.WriteCompletes` | common/network/websocket_session.cpp:214-227 | a finished write joins the line of handlers |
| `WebSocketObjects.WebSocketSession.OnSslHandshake` | common/network/websocket_session.cpp:31-43 | success reads the upgrade request, failure posts a close: one step of the server model |
| `WebSocketObjects.WebSocketSession.OnUpgradeRead` | common/network/websocket_session.cpp:82-92 | success accepts the upgrade, failure posts a close: one step of the server model |
| `WebSocketObjects.WebSocketSession.OnAccept` | common/network/websocket_session.cpp:161-191 | success registers the session, failure posts a close: one step of the server model |
| `WebSocketObjects.WebSocketSession.OnRead` | common/network/websocket_session.cpp:195-211 | a message is handed over and the next read starts, failure posts a close: one step of the server model |
| `WebSocketObjects.WebSocketServer.RecordHandshakeFinished` | common/network/websocket_server.cpp:59-66 | the compare-and-swap loop decrements once if the counter is positive, however many spurious failures |
| `WebSocketObjects.WebSocketServer.GenerateId` | common/network/websocket_session.hpp:104-107 | increments the 64-bit counter and renders it |
| `WebSocketObjects.WebSocketServer.AddSession` | common/network/websocket_server.cpp:161-170 | inserts unless the id is taken, and calls the connect handler once |
| `WebSocketObjects.WebSocketServer.RemoveSession` | common/network/websocket_server.cpp:179-188 | erases the id and calls the disconnect handler once |
| `WebSocketObjects.WebSocketServer.RemoveSessionById` | common/network/websocket_server.cpp:197-205 | erases the id only: one step of the server model |
| `WebSocketObjects.WebSocketServer.OnConnection` | common/network/websocket_server.cpp:100-121 | starts a fresh session and accepts the next connection: one step of the server model |
| `WebSocketObjects.WebSocketServer.OnAcceptFailed` | common/network/websocket_server.cpp:101-108 | a failed accept ends accepting: one step of the server model |
| `WebSocketObjects.WebSocketServer.Listed` | common/network/websocket_server.cpp:143-150 | the copied list holds each registered session once and nothing else |
| `WebSocketObjects.WebSocketServer.CloseAll` | common/network/websocket_server.cpp:153-157 | exactly the listed sessions get one more posted close |
| `WebSocketObjects.WebSocketServer.RunStop` | common/network/websocket_server.cpp:139-159 | closes the acceptor, empties the registry and asks each registered session once: one step of the server model |
| `WebSocketObjects.RegisteredObjectsAreOpen` | common/network/websocket_session.cpp:288-290 | between handlers every registered object is open under its own id, and no session was reported gone twice |
| `Durations.QuietStateIsSequential` | common/network/websocket_server.cpp:84-98 | once all concurrent calls have finished, the statistics are those of the same calls in sequence: their number, the sum of their non-negative values mod 2^64, and the largest |
| `Durations.MaximumCoversFinished` | common/network/websocket_server.cpp:92-97 | at any moment the maximum is at least the value of every finished call |
| `Durations.UndisturbedFinishes` | common/network/websocket_server.cpp:84-98 | undisturbed, a call is done after four steps and has recorded its value |
| `Durations.RetriesAreBounded` | common/network/websocket_server.cpp:92-97 | a call, finished or not, has failed genuinely at most as often as other calls raised the maximum since it first looked, less often than there are calls |
| `Durations.FailureMeansRise` | common/network/websocket_server.cpp:92-97 | the swap of a waiting call can fail genuinely exactly when the maximum rose since it last looked |
| `Durations.DurationStats.RecordDuration` | common/network/websocket_server.cpp:84-98 | one call alone adds one, adds its clamped value, and raises the maximum to it if larger |
| `TcpFraming.HeaderRoundTrip` | common/network/tcp_session.cpp:423-427 | the header gives back the length modulo 2^32 and the type byte |
| `TcpFraming.FramesAreBytes` | common/network/tcp_session.cpp:423-431 | every frame byte by byte: four length bytes, most significant first, and type byte 0, 1 or 2 |
| `TcpFraming.GivesUpIff` | common/network/tcp_session.cpp:322-367 | a header ends the connection if and only if it announces more than 10 MiB or its type byte is above 2 |
| `TcpFraming.TypesOfFrames` | common/network/tcp_session.cpp:335-368 | what a receiver takes for each type byte, and that every shorter part of a frame is waited for |
| `TcpFraming.ParseAppend` | common/network/tcp_session.cpp:284-414 | the meaning of a longer stream depends only on what was delivered and on the bytes of the unfinished frame |
| `TcpFraming.ParseWire` | common/network/tcp_session.cpp:284-448 | frames that fit deliver exactly their messages in order, whatever PING and PONG frames lie between |
| `TcpFraming.DeliveredIff` | common/network/tcp_session.cpp:322-332 | messages in equals messages out if and only if none is longer than 10 MiB, lengths being unbounded |
| `TcpFraming.PayloadTakenForFrame` | common/network/tcp_session.cpp:349-368 | the payload of a PING or PONG is read as frames: whatever message it spells is delivered |
| `TcpFraming.PayloadSkippedIff` | common/network/tcp_session.cpp:349-368 | a PING or PONG announcing n bytes within the limit is skipped with all of them if and only if n is 0 |
| `TcpSession.QueueAdd` | common/network/tcp_session.cpp:150-171 | accepting a message keeps: frames handed to the socket and the queue together are the accepted messages in order |
| `TcpSession.QueueRemove` | common/network/tcp_session.cpp:440-446 | a finished write keeps the same, with one data write in flight |
| `TcpSession.TCPSession.constructor` | common/network/tcp_session.cpp:13-18 | an open session with nothing read, queued or sent |
| `TcpSession.TCPSession.Send` | common/network/tcp_session.cpp:150-171 | a full queue drops the message; otherwise it is queued, and written at once if nothing was |
| `TcpSession.TCPSession.DoWrite` | common/network/tcp_session.cpp:417-448 | hands the front of the queue to the socket as one frame |
| `TcpSession.TCPSession.WriteDone` | common/network/tcp_session.cpp:434-447 | success pops and writes the next, failure closes |
| `TcpSession.TCPSession.SendHeartbeat` | common/network/tcp_session.cpp:181-208 | only PING and PONG go out, past the queue, and no message is disturbed |
| `TcpSession.TCPSession.OnHeartbeatTimer` | common/network/tcp_session.cpp:218-251 | the timer sends a PING as long as the socket is open |
| `TcpSession.TCPSession.Fill` | common/network/tcp_session.cpp:295-297 | bytes go to the free part of the buffer in use; what is held is still what the stream means |
| `TcpSession.TCPSession.OnHeader` | common/network/tcp_session.cpp:312-368 | a complete header starts a body, is skipped, or closes the session, as the stream means; an open session answers a PING within the limit with one PONG frame and sends nothing else |
| `TcpSession.TCPSession.DoReadBody` | common/network/tcp_session.cpp:373-385 | grows the buffer when needed; fails at once on a closed socket, and on an open one finishes an empty body at once |
| `TcpSession.TCPSession.OnBody` | common/network/tcp_session.cpp:401-412 | delivers exactly the bytes received for this body, none left over from an earlier one |
| `TcpSession.TCPSession.Receive` | common/network/tcp_session.cpp:284-414 | for a chunk of any size the session still delivered exactly what its bytes mean, and sent nothing but PONG frames, one for each ping while open |
| `TcpSession.TCPSession.Close` | common/network/tcp_session.cpp:82-146 | only the first call closes the socket and calls back |
| `TcpSession.TCPSession.ReadFails` | common/network/tcp_session.cpp:301-310 | a failed read closes the session and ends reading |
| `TcpSession.TCPSession.Expire` | common/network/tcp_session.cpp:273-279 | the read timer closes the session |
| `TcpSession.Delivery` | common/network/tcp_session.cpp:150-447 | end to end, the receiver has delivered a prefix of what the sender accepted, and all of it once everything has arrived; only a receiver closed meanwhile may lack one last message, and only an empty one; an open receiver has answered every PING with one PONG |
| `TcpSession.EmptyMessageUndelivered` | common/network/tcp_session.cpp:373-399 | such a run: a session closed while it waits for a header reads the header of an empty message and does not deliver it |
| `PoolMonitor.CoverageLostIff` | common/utils/connection_pool.hpp:116-134 | a step can leave more idle connections than notified threads beside a waiter if and only if it is a filling `Init` past waiters |
| `PoolMonitor.WakeInvKept` | common/utils/connection_pool.hpp:145-234 | with positive sizes and no caller before the first `Init`, every step keeps the wakeup invariant |
| `PoolMonitor.NoLostWakeup` | common/utils/connection_pool.hpp:195-216 | in every such run a waiter left un-notified is outnumbered by notified threads for every idle connection, and each takes one when it runs |
| `PoolLaws.InsideIff` | common/utils/connection_pool.hpp:145-191 | along every run a thread is in one of the wait sets if and only if its last critical section ended in waiting |
| `PoolLaws.ResumedIffWaits` | common/utils/connection_pool.hpp:149-156 | a caller that runs again and returns, a timed-out one too, is in no set afterwards |
| `PoolLaws.WokenCanRun` | common/utils/connection_pool.hpp:149-156 | every wakeup lets the caller run, and after a close it runs and gets nothing |
| `PoolLaws.FirstInFirstOut` | common/utils/connection_pool.hpp:183-216 | until a close, connections are handed out in the order in which they became idle |
| `PoolLaws.SupplyIs` | common/utils/connection_pool.hpp:129-135 | the factory's connections are queued in order, nulls left out, up to the first throw |
| `PoolMonitor.EarlyCallerSleeps` | common/utils/connection_pool.hpp:116-134 | without that rule the wakeup is lost: a caller before `Init` sleeps beside an idle connection |
| `PoolMonitor.ConservedKept` | common/utils/connection_pool.hpp:145-234 | every step of polite clients keeps idle and borrowed disjoint and together equal to what was created |
| `PoolMonitor.NeverFull` | common/utils/connection_pool.hpp:208-213 | a connection on loan is never turned away or discarded when given back |
| `PoolMonitor.PoolConserves` | common/utils/connection_pool.hpp:244-247 | in every polite run: conservation, idle within the size, the in-use count does not wrap, and counts the borrows iff every factory call succeeded |
| `PoolMonitor.ReleaseConservesIff` | common/utils/connection_pool.hpp:195-216 | a release keeps the pool whole if and only if the connection is on loan or the release is turned away |
| `PoolMonitor.LateReleaseIntrudes` | common/utils/connection_pool.hpp:223-234 | a run in which a borrow returned after `Close` and a new `Init` becomes part of the new pool |
| `ConnectionPoolObject.ConnectionPool.Init` | common/utils/connection_pool.hpp:116-142 | the fill loop is one step of the monitor, and reports a throwing factory |
| `ConnectionPoolObject.ConnectionPool.Proceed` | common/utils/connection_pool.hpp:157-190 | nothing from a closed pool, else the front of the queue; the branch creating outside the pool has no run |
| `ConnectionPoolObject.ConnectionPool.GetConnection` | common/utils/connection_pool.hpp:145-155 | waits exactly when the pool is open and empty; one step of the monitor |
| `ConnectionPoolObject.ConnectionPool.RunAgain` | common/utils/connection_pool.hpp:149-155 | rechecks under the lock: takes, waits again, or gives up after the deadline; one step of the monitor |
| `ConnectionPoolObject.ConnectionPool.ReleaseConnection` | common/utils/connection_pool.hpp:195-219 | refuses null, closed and full; else queues and notifies one; one step of the monitor |
| `ConnectionPoolObject.ConnectionPool.Close` | common/utils/connection_pool.hpp:223-234 | the drain loop and `notify_all` are one step of the monitor |
| `ConnectionPoolObject.ConnectionPool.GetInUsedCount` | common/utils/connection_pool.hpp:244-247 | the 64-bit difference of size and idle connections |
| `RoundRobin.WindowIsEven` | common/network/IOService_pool.cpp:52-61 | any m calls in a row give each of n services m/n of them, rounded down or up |
| `RoundRobin.EvenForeverIff` | common/network/IOService_pool.cpp:59-60 | every window is even, across the wrap of the counter too, if and only if n divides 2^64 |
| `StopRace.CallFailsIff` | common/network/IOService_pool.cpp:52-86 | with `Stop` on another thread: the second load divides by zero if and only if it has begun, the look-up fails if and only if it has cleared the container |
| `StopRace.StopBetweenTheLoads` | common/network/IOService_pool.cpp:54-64 | such a run for every pool size: `Stop` begins between the two loads, and the second divides by zero |
| `StopRace.StopBeforeTheLookUp` | common/network/IOService_pool.cpp:59-86 | such a run for every pool size: `Stop` clears the container while a call holds an index, and the look-up is out of range |
| `StopRace.DefinedWithoutStop` | common/network/IOService_pool.cpp:52-61 | in every run without a `Stop`, every remainder and every look-up is defined |
| `StopRace.DrawnInTurn` | common/network/IOService_pool.cpp:58-60 | whatever the threads, each call draws the number of draws before it, modulo the size |
| `IOServicePoolObject.IOServicePool.constructor` | common/network/IOService_pool.cpp:10-38 | one running service, guard and thread per slot, all distinct, with the fallbacks for size zero |
| `IOServicePoolObject.IOServicePool.GetIOService` | common/network/IOService_pool.cpp:52-61 | throws on a stopped pool, else returns the service the counter picks, index in range, and advances the counter |
| `IOServicePoolObject.IOServicePool.Stop` | common/network/IOService_pool.cpp:63-89 | stops every service, empties the containers, and does nothing the second time |

## Left out

- Unknown fields are skipped and dropped, not kept and serialised again; groups (wire types 3 and 4) are refused.
- Recursion limits, arenas, swap, reflection and metadata of the generated code; `IsInitialized` is true for these messages.
- The parser is library code; it is taken from the Protocol Buffers Encoding document, with tags and lengths of at most five bytes.
- The values that out-parameters hold after a failed decode.
- Codec.DecodeEnvelope: promises nothing for a frame from which a copy leaves the data; whether the allocation for such a copy fails first is not modelled.
- Codec.Decode: the same.
- The other messages of the friend, group, push and command protocols, and all RPC stubs, repeat what is modelled.
- TLS, the HTTP upgrade parser, sockets, timers and keep-alive are events that succeed or fail.
- The bodies of connect, disconnect, close and message callbacks; they act on a session only through `send` and `close`.
- `broadcast` is `send` to each registered session; token extraction, `get_client_ip` and `get_stats` are not modelled.
- Accept counters, and the other three statistics groups, which are updated as the modelled one is.
- WebSocketObjects.WebSocketServer.RecordHandshakeFinished: one thread only, as the server runs on one; any interleaving is the step system `HandshakeCounter`.
- Durations.DurationStats.RecordDuration: one call alone; interleaved calls are the step system of the same file.
- `TCPServer` and its `stop`, which closes sessions while it holds the mutex their close callback takes.
- TcpSession.TCPSession.SendHeartbeat: the frame is handed over whole; interleaving with a data write in flight and the lifetime of its locals are not modelled.
- TcpSession.TCPSession.DoWrite: the frame is handed over whole; the lifetime of the header locals is not modelled.
- IOServicePoolObject.IOServicePool.GetIOService: one call with no `Stop` between its steps; the interleavings are the step system `StopRace`.
- ConnectionPoolObject.ConnectionPool.GetConnection: blocking is two critical sections with the wait between them; fairness of the scheduler is not modelled.
- PoolMonitor.NoLostWakeup: a safety statement; that a notified thread is eventually scheduled is not stated.
- Logging, configuration, command line, process start-up and exceptions thrown by the standard library.
