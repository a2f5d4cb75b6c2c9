# Multiplayer relay: a Dafny model

The system is a TCP relay for a small multiplayer setup. The relay server
accepts clients and gives each one an 8-bit id. It reads length-prefixed
frames from every client and forwards each decoded message to all the other
clients, with the sender id replaced by the id of the session the message
arrived on. The client frames and sends messages. Its receive loop sorts
incoming messages into an inbox: two queues (Text, Event) and a map that
keeps the latest Snapshot of each sender. A processing pass drains the inbox.

This project models the shared core of both programs:

- `codec.dfy`: module `Codec` (with `Wrappers` for `Option` and
  `Sequences` for one fact about concatenation). It holds the message
  envelope. A message is serialised as type byte, sender byte, big-endian
  32-bit payload length, then the payload. `Encode`, the step-by-step
  `Serialize` and `Decode` are here, and `Decode` returns `None` where the
  source returns a null pointer. The outer frame is the 4-byte big-endian
  length of the encoded buffer, then the buffer.
- `framing.dfy`: module `Framing`. It holds the receive loop that both
  programs share. A connection is the sequence of outcomes its `recv` calls
  return. `ReadFrame` is one pass of the loop as written; `FillBuffer` is its inner
  loop over an array filled from `totalReceived`. `Fill`, `NextFrame` and `Frames` specify it. The lemmas
  show two things. Every payload that reaches `Decode` is complete,
  whatever way the bytes were split. A payload cut short never reaches
  `Decode`.
- `server.dfy`: module `Relay`. It holds the server class with its
  `clients` registry and `nextClientID` counter. It has id assignment,
  removal by id, broadcast with one excluded id, and the per-session loop
  that overwrites the sender and relays.
- `client.dfy`: module `Inbox`. It holds the client class with its three
  containers, plus sending, the receive loop, sorting by type, and the
  draining pass.
- `scenarios.dfy`: module `Scenarios`. It puts the pieces together: a
  message sent by one client is decoded by every other client with the
  sender set to the originating session's id. It also holds two concrete
  scenarios: two clients relaying a text message, and a broadcast after a
  disconnect.

Integers are unbounded in Dafny, so the C++ widths are written out:

- A byte is `0..255`.
- `htonl(size())` truncates to 32 bits, so the encoded length is the size
  modulo 2^32.
- The `uint8_t` id counter wraps modulo 256.

A malformed frame does not end the session: the code drops it and goes on
reading (Multiplayer/Server.cpp:189-195, Client/Client.cpp:180-184). The
model follows the code.

## Model

| member | source | states |
|---|---|---|
| Codec.ParseKind | Client/Client.cpp:293-332 | the type switch accepts exactly the bytes 0, 1, 2 and maps each to its kind; every other byte is rejected |
| Codec.BE32RoundTrip | Client/Client.cpp:263-264 | ntohl undoes htonl: the four big-endian bytes of any n < 2^32 read back as n |
| Codec.BE32ValueRoundTrip | Client/Client.cpp:296-298 | htonl undoes ntohl: a 4-byte length field is determined by its value |
| Codec.Serialize | Client/Client.cpp:256-283 | the appended bytes are type at offset 0, sender at offset 1, the payload length mod 2^32 big-endian at offsets 2..5, then the payload; total length 6 + the payload length; the caller's earlier bytes are kept |
| Codec.DecodeRejects | Multiplayer/Server.cpp:266-311 | decode fails exactly when fewer than 6 bytes are present, the type byte is not 0, 1 or 2, or the declared length exceeds the bytes after offset 6 (both directions) |
| Codec.DecodeFields | Multiplayer/Server.cpp:266-284 | a successful decode takes kind from byte 0, sender from byte 1, and exactly the declared number of payload bytes starting at offset 6 |
| Codec.DecodeEncode | Client/Client.cpp:256-333 | round trip: decoding an encoded message followed by any trailing bytes gives back the message, for payloads shorter than 2^32 |
| Codec.EncodeDecode | Multiplayer/Server.cpp:266-284 | the reverse: whatever decode accepts is re-encoded as exactly the prefix of the buffer it read, so trailing bytes are the only ones ignored |
| Codec.OuterFrame | Client/Client.cpp:148-156 | an outgoing frame is the buffer length mod 2^32 as four big-endian bytes, then the buffer unchanged |
| Codec.OuterFramePrefix | Multiplayer/Server.cpp:216 | (proof helper) for buffers below 2^32 bytes the prefix is exactly the big-endian encoding of the buffer's length |
| Framing.PrefixValue | Client/Client.cpp:160-165 | the declared size is below 2^32 and, for a 4-byte prefix read, is its big-endian value |
| Framing.Fill | Client/Client.cpp:167-175 | the inner loop, when it completes, yields a buffer of exactly the requested size and consumes outcomes |
| Framing.FillExtends | Client/Client.cpp:169-175 | bytes already received are kept: a completed buffer starts with them |
| Framing.FillStep | Client/Client.cpp:170-174 | (proof helper, one unfolding of Fill) one recv that delivers bytes adds at most the number still missing, and the loop goes on from the next outcome |
| Framing.FillEnded | Client/Client.cpp:171-173 | (proof helper for FillBuffer) a recv that returns 0 or less before the buffer is full breaks the loop with no complete buffer |
| Framing.NextFrame | Multiplayer/Server.cpp:165-186 | one pass yields a payload only when its length equals the declared size (below 2^32), and always consumes at least one outcome |
| Framing.Frames | Client/Client.cpp:158-185 | every payload the receive loop hands to decode has exactly the length its prefix declared |
| Framing.ReadFrame | Client/Client.cpp:160-178 | one pass as written yields exactly the frame and the next position that NextFrame specifies, and yields none when the prefix recv or any later recv returns 0 or less before the buffer is full |
| Framing.FillBuffer | Client/Client.cpp:167-178 | the inner loop over the msgSize-byte array reports a complete buffer exactly when Fill does, and then the array holds exactly Fill's bytes and reading resumes where Fill stops |
| Framing.CopyInto | Client/Client.cpp:170 | recv writes the delivered bytes into the buffer at offset totalReceived, keeping the bytes before and after them |
| Framing.FillPieces | Client/Client.cpp:169-175 | however the payload is split into non-empty recv chunks, the inner loop reassembles exactly those bytes and stops after the last chunk |
| Framing.NextFrameOfChunks | Multiplayer/Server.cpp:167-183 | a prefix followed by any split of its payload is received as that payload, and the loop resumes right after it |
| Framing.CutFrameEnds | Client/Client.cpp:169-178 | a payload cut short by a recv that returns 0 or less, or by the end of the outcomes, is never decoded, and the session ends with no further frames |
| Framing.FillBroken | Client/Client.cpp:169-173 | an inner loop that meets a recv returning 0 or less, or runs out of outcomes, before the buffer is full breaks without a complete buffer |
| Framing.FramesAfterStream | Multiplayer/Server.cpp:165-189 | whatever follows a connection's whole frames is read after all of them: the frames are those of the stream followed by those of the rest |
| Framing.TruncatedFrameDropped | Client/Client.cpp:158-178 | after any number of whole frames, a payload cut short is dropped: the frames received are exactly those before it |
| Framing.FramesOfStream | Multiplayer/Server.cpp:165-189 | reassembly inverts sending: a connection carrying any number of framed payloads, each split arbitrarily, yields every payload whole and in order |
| Relay.WithoutMembers | Multiplayer/Server.cpp:199-203 | after removal of id k, a handler remains exactly when it was registered and its id differs from k |
| Relay.WithoutAppend | Multiplayer/Server.cpp:201-202 | removal distributes over concatenation, so survivors keep their relative order |
| Relay.WithoutAbsent | Multiplayer/Server.cpp:199-203 | removing an id that no handler has leaves the registry unchanged |
| Relay.WithoutIdempotent | Multiplayer/Server.cpp:199-203 | removing the same id twice is the same as removing it once |
| Relay.WithoutIncreasing | Multiplayer/Server.cpp:199-203 | removal keeps the ids strictly increasing, hence distinct |
| Relay.WithoutOnePresent | Multiplayer/Server.cpp:199-203 | with distinct ids, in any order, removing a registered id drops exactly one handler |
| Relay.FanoutExcludes | Multiplayer/Server.cpp:212-225 | a broadcast sends nothing to the excluded id; every copy goes to a registered handler and carries the same frame; every other registered handler receives a copy |
| Relay.FanoutCount | Multiplayer/Server.cpp:219-224 | with distinct ids, in any order, and the originator registered, a broadcast writes one copy fewer than there are clients |
| Relay.ForwardCarriesSessionId | Multiplayer/Server.cpp:189-195 | every relayed frame decodes to the received message with its sender replaced by the session's id, and none goes back to the session |
| Relay.ForwardAllDropsMalformed | Multiplayer/Server.cpp:189-190 | payloads that fail to decode cause no writes at all |
| Relay.Server.constructor | Multiplayer/Server.cpp:85 | the id counter starts at 1 with no client registered |
| Relay.Server.Accept | Multiplayer/Server.cpp:140-147 | the new id is the counter's old value and the counter increments modulo 256; exactly one handler is appended and nothing else changes; while fewer than 255 ids have been issued the id is nonzero, and while fewer than 256 it is distinct from every registered id |
| Relay.Server.Remove | Multiplayer/Server.cpp:199-203 | the registry becomes the old one without the handlers of that id, in order, and keeps its invariant |
| Relay.Server.Broadcast | Multiplayer/Server.cpp:212-225 | the writes are one frame, OuterFrame of the message encoded once, to each handler whose id differs from excludeID, in registry order |
| Relay.Server.RelayFrame | Multiplayer/Server.cpp:189-195 | a payload that decodes is broadcast with sender := session id, excluding the session; one that does not decode writes nothing |
| Relay.Server.HandleClient | Multiplayer/Server.cpp:161-203 | the session writes exactly the relays of the complete payloads it receives, in order, and then the registry loses the session's id |
| Inbox.SortWellFormed | Client/Client.cpp:190-210 | sorting files each message in its own kind's container, and a snapshot under its sender's id |
| Inbox.TakeAllQueues | Client/Client.cpp:194-203 | after any received payloads, the text and event queues are the old ones followed by the decoded messages of their kind, in arrival order |
| Inbox.TakeAllSnapshots | Client/Client.cpp:204-207 | after any received payloads, each sender's snapshot is the last one received from it, or the old one if none arrived |
| Inbox.TakeAllContents | Client/Client.cpp:158-188 | after any received payloads, each queue is the old one followed by the decoded messages of its kind in arrival order; each sender's snapshot is the last one received from it, or the old one; malformed payloads change nothing |
| Inbox.OfKindAppend | Client/Client.cpp:194-203 | selecting one kind distributes over concatenation of arrival sequences |
| Inbox.LastSnapshotAppend | Client/Client.cpp:204-207 | the latest snapshot of a sender across two arrival sequences is the one in the later sequence if any, else the earlier one |
| Inbox.Client.constructor | Client/Client.cpp:81-88 | a client starts disconnected with all three containers empty |
| Inbox.Client.ConnectToServer | Client/Client.cpp:107-138 | success is reported exactly when the socket calls succeed, and only then is the client marked connected |
| Inbox.Client.Disconnect | Client/Client.cpp:140-146 | the client is marked disconnected |
| Inbox.Client.SendMessage | Client/Client.cpp:148-156 | the bytes written are the encoded message preceded by its length, 6 + the payload length mod 2^32, big-endian |
| Inbox.Client.SortMessageByType | Client/Client.cpp:190-210 | a Text or Event message is appended to its queue; a Snapshot replaces its sender's entry; the other containers are unchanged |
| Inbox.Client.ReceiveMessages | Client/Client.cpp:158-188 | a connected client's inbox becomes the old one with every complete, decodable payload sorted in arrival order; at the end the client is disconnected |
| Inbox.Client.ProcessMessages | Client/Client.cpp:216-232 | the pass returns the texts in arrival order, the events in arrival order, and each stored snapshot exactly once in ascending sender order; all three containers end empty |
| Inbox.Client.DrainTexts | Client/Client.cpp:216-220 | every text message is handled in arrival order and the queue ends empty; nothing else changes |
| Inbox.Client.DrainEvents | Client/Client.cpp:222-226 | every event message is handled in arrival order and the queue ends empty; nothing else changes |
| Inbox.Client.DrainSnapshots | Client/Client.cpp:228-232 | every stored snapshot is handled exactly once, in strictly ascending sender order, and the map ends empty |
| Scenarios.FramesOfOuterFrame | Client/Client.cpp:152-175 | a frame written by a sender and read whole by the peer yields exactly the encoded buffer |
| Scenarios.PeerDecodes | Client/Client.cpp:152-182 | a peer that reads a framed message decodes exactly that message |
| Scenarios.ServerRelaysOnce | Multiplayer/Server.cpp:168-193 | a client's framed message read by the server becomes one broadcast of the message with sender := session id |
| Scenarios.RelayToOnlyPeer | Multiplayer/Server.cpp:189-224 | with two registered clients, what one sends is relayed to the other alone, with its sender replaced |
| Scenarios.OneTextQueued | Client/Client.cpp:180-196 | a client that receives exactly one decodable Text message queues exactly that message |
| Scenarios.RelayEndToEnd | Multiplayer/Server.cpp:161-225 | end to end: every other client receives a frame that decodes to the sent message with sender := session id |

`Scenarios.TwoClientsRelayText` and `Scenarios.BroadcastAfterDisconnect`
are concrete scenarios with two clients. Their asserts state what each step yields.

## Left out

- Sockets are not modelled. `socket`, `bind`, `listen`, `accept`, `connect`, `inet_pton`, `closesocket` and the WSA calls are OS I/O. `ConnectToServer` takes their success as a parameter, and `Accept` takes the accepted socket as a parameter.
- Threads, `detach`, the mutexes and the cross-thread `isRunning` and `isConnected` flags are not modelled. The locks only serialise the operations, which the model runs one at a time. `HandleClient` runs until a recv ends the session. A `stop()` that clears `isRunning` during a session is not modelled.
- Console output and the interactive `main` loops are not modelled. This covers the display and process callbacks, which `ProcessMessages` replaces by returning the handled messages. It also covers the 1,999,999-iteration snapshot send loop and the notify placeholders.
- Inbox.Client.ProcessMessages models one locked pass. The outer `while (isConnected)` loop with its 100 ms sleep is not modelled.
- Inbox.Client.DrainSnapshots stands in for std::map's ascending iteration with a scan of the keys 0..255.
- Framing.PrefixValue takes the 4-byte prefix read as atomic. A short prefix read is padded with zero bytes, where the source would use uninitialised memory. Partial prefixes are not claimed to be handled.
- Framing.Fill models each recv as delivering at most the bytes asked for. A chunk longer than requested is cut to the requested length. A sequence of outcomes that runs out behaves like a closed peer.
- The return values of `send` are ignored, as the source ignores them. A write is modelled as the bytes handed to `send`.
- Relay.Server.Accept proves distinct ids only while fewer than 256 ids have been issued. It proves a nonzero id only while fewer than 255 have been issued. After wrap-around, ids repeat, and id 0 collides with broadcast's default exclusion.
- Codec.DecodeEncode requires a payload below 2^32. Above that, `htonl(size())` truncates the length, and the model writes that truncation out (modulo 2^32) but proves nothing about it.
- The three identical cases of the type switch in both codec functions are merged into one over `Kind`. Text, Event and Snapshot differ only in the type byte.
- Inbox.Client.ReceiveMessages holds `isConnected` constant during its loop; a `disconnect()` called from `main` while the loop runs (Client/Client.cpp:393, 141) is not modelled, so the loop ends only when a recv returns 0 or less.
- Framing.ReadFrame: allocating the msgSize-byte buffer never fails in the model, whereas the vector constructor (Client/Client.cpp:167, Multiplayer/Server.cpp:175) can throw `bad_alloc` for a large declared size, which terminates the process from its detached thread.
- Codec.DecodeRejects assumes a 64-bit `size_t`: the bound test `offset + length` (Multiplayer/Server.cpp:281) is taken without wrap-around; on a 32-bit build `6 + length` can wrap and let a short buffer through.
- Framing.FramesOfStream assumes recv accepts the requested length as asked; Winsock's `recv` takes an `int` length, so a request of `msgSize - totalReceived` above 2^31-1 (Client/Client.cpp:170) is not modelled.
- Host byte order is not modelled. `htonl`/`ntohl` are modelled as the big-endian encoding of a number below 2^32.
