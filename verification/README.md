# WireDrop signaling and transfer core, in Dafny

WireDrop lets two browsers that see the same signaling server exchange a file
over a WebRTC data channel. This project models the three deterministic pieces
of that path as pure step functions over immutable state. Each step returns the
new state and the messages it sends.

- **Transfer engine** (`client/src/core/webrtc.ts`):
  - The sender's `sendFile` pump puts one META frame on the channel, then the
    file in 64 KiB binary slices, then one DONE frame. It keeps sending only
    while the channel buffers less than 8 MiB. When it stops short, it resumes
    on the channel's low-buffer event, whose threshold is 1 MiB.
  - The receiver's `onmessage` handler rebuilds the file.
  - The `wasEverConnected` flag separates "connection failed" from "peer
    disconnected".

  Modules: `Protocol` (frames, chunking, percentages), `Sender`, `Reassembly`,
  `Channel` and `Transfer` (the two halves together).
- **Relay** (`server/src/server.ts`), modules `Relay`, `Messages`, `Upstream` and
  `Downstream`. The relay keeps an ordered registry of connected users. It
  broadcasts each user the list of the others. It routes the signaling messages
  of a connection handshake.
- **Client session** (`client/src/context/WebSocketContext.tsx`), module
  `Session`. This is the React provider's state tuple. It is driven by five
  user actions, by the `ws.onmessage` dispatcher, and by the effect that notices
  a peer missing from an `online-users` update.
- **End-to-end exchanges** (module `Scenarios`). Two sessions talk through the
  relay. Each scenario covers one of four exchanges: a cancelled request, an
  accepted request, an abrupt peer loss, and a hang-up.

The environment is passed in as inputs:

- The channel's `bufferedAmount` is a function `buffered: nat -> nat`. It is
  read once at each evaluation of the pump's loop condition. So every pattern of
  pauses and drains is one choice of inputs.
- Fresh ids from `uuid()` are parameters. A new user's id must not already be
  registered.
- SDP descriptions and ICE candidates are opaque strings.

Behaviour of the code worth knowing, which the model reproduces:

- After a peer loss the session keeps `targetUser` and `isCaller` and drops
  only the channel and the room (client/src/context/WebSocketContext.tsx:80-89).
- No handler guards `JSON.parse` (server/src/server.ts:67,
  client/src/context/WebSocketContext.tsx:93, client/src/core/webrtc.ts:130), so
  no message is dropped as malformed; parsing is outside the model.
- Only a callee ever receives a file. The caller's manager sets up only the
  sending side of the channel it creates (client/src/core/webrtc.ts:85-88), and
  the `onmessage` handler is installed for a channel that arrives through
  `ondatachannel` (client/src/core/webrtc.ts:63-67). The receiver model applies
  to that manager.
- A second `webrtc-start` replaces `rtc` with a new manager
  (client/src/context/WebSocketContext.tsx:137-142). `Session.OnWebrtcStart`
  states that the new manager differs from the previous one. Nothing bounds the
  number of managers alive at once.
- `connection-rejected` (client/src/context/WebSocketContext.tsx:165-172) and
  a second `webrtc-start` drop the held manager without `peer.close()`. The
  dropped manager's ICE callback (client/src/context/WebSocketContext.tsx:145-150)
  keeps sending `ice-candidate` to its old peer; `Session.StaleManagerSends`
  states this.

## Model

| member | source | states |
|---|---|---|
| Protocol.Slice | client/src/core/webrtc.ts:233-238 | The next chunk is the file's bytes from `offset` on, `min(64 KiB, remaining)` long, and non-empty while bytes remain |
| Protocol.ConcatChunks | client/src/core/webrtc.ts:233-238 | The chunks cut from `offset` concatenate back to exactly the file bytes from `offset` |
| Protocol.ChunkSizes | client/src/core/webrtc.ts:225-238 | Every chunk is non-empty and at most 64 KiB, and every chunk but the last is exactly 64 KiB |
| Protocol.ChunkCount | client/src/core/webrtc.ts:233-238 | The number of chunks is the remaining size divided by 64 KiB, rounded up |
| Protocol.PercentMonotone | client/src/core/webrtc.ts:240 | More bytes sent never gives a smaller percentage |
| Protocol.PercentRange | client/src/core/webrtc.ts:240 | The percentage is at most 100, and is 100 exactly when every byte is counted |
| Protocol.ChunkPercents | client/src/core/webrtc.ts:240 | The per-chunk percentages of a send never decrease and stay within `[Percent(offset), 100]`; every value but the last is below 100 and the last is 100 |
| Sender.Loop | client/src/core/webrtc.ts:233-241 | The `while` loop stops within the file and never moves the offset back |
| Sender.LoopChunks | client/src/core/webrtc.ts:233-241 | The loop sends, in order, exactly the chunks owed between the offset it starts at and the offset it stops at |
| Sender.LoopReadings | client/src/core/webrtc.ts:233-243 | The loop sends a chunk only after a reading below 8 MiB. If it stops with bytes left, the reading that stopped it was at least 8 MiB |
| Sender.RunPump | client/src/core/webrtc.ts:232-251 | One pump run sends a prefix of the frames and progress still owed. It leaves the pump re-installed on the low-buffer event while bytes remain; otherwise it has sent DONE and cleared the handler |
| Sender.RunPumpReadings | client/src/core/webrtc.ts:233-245 | A pump run reports one percentage per reading below 8 MiB. When it re-installs itself on the low-buffer event, the reading after its last chunk was at least 8 MiB |
| Sender.StartSend | client/src/core/webrtc.ts:205-253 | `sendFile` fails, sending nothing, exactly when no channel is attached or it is not open. Otherwise it sends META first, and what it sent plus what is still owed is the file's complete frame sequence |
| Sender.OnBufferedAmountLow | client/src/core/webrtc.ts:243-248 | A low-buffer event continues the same frame sequence and progress sequence; once DONE has gone out it does nothing |
| Sender.SendRun | client/src/core/webrtc.ts:231-254 | Over any number of pauses and resumptions, frames sent plus frames owed is always the file's frame sequence, and the same holds for progress |
| Sender.SendProgress | client/src/core/webrtc.ts:240 | Over any run, send progress never decreases and never exceeds 100. It equals 100 only on the final report, after the last chunk, and it reaches 100 once a non-empty file is done |
| Sender.NoBackpressureFinishes | client/src/core/webrtc.ts:233-249 | If the channel never reaches 8 MiB buffered, the first pump run sends the whole file and DONE |
| Sender.ResumeAdvances | client/src/core/webrtc.ts:226-245 | A low-buffer event fires at or below the 1 MiB threshold, so while bytes remain it sends at least one chunk |
| Reassembly.OnMessage | client/src/core/webrtc.ts:125-170 | META resets the header, buffers and count. A binary frame is appended and counted even without a header, with a progress report only when a header is present. DONE with a header hands over one file, the buffers in order, named and typed by the header, and keeps the count. DONE without a header and other text frames change nothing |
| Reassembly.FeedChunks | client/src/core/webrtc.ts:160-170 | With a header present, a run of binary frames appends each buffer in order, adds their total length to the count, and reports one percentage per frame |
| Reassembly.ProgressNoticesArePercents | client/src/core/webrtc.ts:165-169 | For a non-empty size, receive percentages are the same integer floors the sender reports |
| Reassembly.NoDoneNoFile | client/src/core/webrtc.ts:139-156 | Without a DONE frame no file is ever handed over |
| Channel.Step | client/src/core/webrtc.ts:70-180 | Open fires `onConnected` and sets both flags. A close, or a failed or closed connection state, fires `onDisconnected` and clears `isChannelOpen` exactly when the channel was ever open. A failed or closed state fires `onConnectionFailed` exactly when it never was. A close before any open does nothing |
| Channel.Classification | client/src/core/webrtc.ts:35-122 | Over any event history of a new manager: `wasEverConnected` holds exactly when some open happened, and an open channel has been connected. "Connection failed" is reported only before any open; "disconnected" only after one |
| Transfer.RoundTrip | client/src/core/webrtc.ts:125-170 | A file's complete frame sequence, fed to a receiver in any state, hands over exactly that file once. It reports the sender's percentages and leaves the receiver empty with the count at the file size |
| Transfer.SendThenReceive | client/src/core/webrtc.ts:205-255 | For any backpressure interleaving on an open channel: once the sender is done, it sent exactly the frame sequence and the receiver hands over exactly the original file; before that, the receiver hands over nothing |
| Transfer.DuplicateDoneIgnored | client/src/core/webrtc.ts:139-156 | A second DONE after a complete transfer hands over nothing more |
| Transfer.ReceiveReaches100 | client/src/core/webrtc.ts:165-169 | For a non-empty file, the last receive report before the file is 100 |
| Relay.Find | server/src/server.ts:89 | Lookup finds a record exactly when the id is registered, and with unique ids it is that id's record |
| Relay.Broadcast | server/src/server.ts:25-43 | Every registered user, in registry order, is sent one `online-users` message |
| Relay.BroadcastExact | server/src/server.ts:25-43 | With unique ids, each user's list holds every other user's view in registry order, and never the recipient |
| Relay.Connect | server/src/server.ts:46-64 | A new socket appends one record with the new id, named only for a non-empty name parameter. `your-id` goes to it first, then the broadcast, and ids stay unique |
| Relay.Close | server/src/server.ts:209-212 | A close removes every record with the id and keeps all others, keeps ids unique, and re-broadcasts to the remaining users |
| Relay.CloseExact | server/src/server.ts:209-212 | With unique ids, a close removes exactly the closing user's record and leaves the rest in order |
| Relay.ConnectThenClose | server/src/server.ts:46-212 | Connecting an unused id and then closing it restores the registry |
| Relay.RegisterDevice | server/src/server.ts:69-76 | Present device details replace only the sender's record's details, then broadcast. Absent details change nothing and send nothing |
| Relay.RegisterName | server/src/server.ts:79-86 | A non-empty name replaces only the sender's name, then broadcast. An empty name changes nothing and sends nothing |
| Relay.RequestConnection | server/src/server.ts:88-100 | A registered target receives exactly one `incoming-request` with the sender's id, name and device details; an absent target receives nothing |
| Relay.AcceptConnectionAsWritten | server/src/server.ts:102-125 | The handler as written throws exactly when the requester is absent, and otherwise sends what the corrected handler sends |
| Relay.AcceptFromUnknownThrows | server/src/server.ts:105-121 | Accepting a request from an unregistered id throws |
| Relay.AcceptConnection | server/src/server.ts:102-125 | One room id goes to exactly two users: to the requester as caller with the accepter as peer, and to the accepter as callee with the requester as peer. An absent requester gets nothing (corrected behaviour) |
| Relay.RelayMessage | server/src/server.ts:127-206 | The seven relayed types produce one message exactly when the target is registered. It goes to that target, with the same type except that `reject-connection` becomes `connection-rejected`, stamped with the sender, payload verbatim |
| Relay.Handle | server/src/server.ts:66-207 | Each message is one atomic step: ids and order stay as they were, only the sender's record can change, and only the two register types change the registry. An unknown type sends nothing |
| Relay.HandleKeepsUnique | server/src/server.ts:66-207 | Every message keeps registry ids unique |
| Session.SendConnectionRequest | client/src/context/WebSocketContext.tsx:200-204 | Becomes caller towards `to` and sends `request-connection`; nothing else changes |
| Session.AcceptRequest | client/src/context/WebSocketContext.tsx:206-211 | Becomes callee towards `from`, sends `accept-connection` and clears the pending request; nothing else changes |
| Session.RejectRequest | client/src/context/WebSocketContext.tsx:213-216 | Sends `reject-connection` to the requester and clears only the pending request |
| Session.CancelConnectionRequest | client/src/context/WebSocketContext.tsx:218-224 | Sends `cancel-connection` exactly when there is a target, and always clears only role and target |
| Session.DisconnectPeer | client/src/context/WebSocketContext.tsx:226-236 | Sends `peer-disconnect` exactly when there is a target, and resets exactly the manager, room, role, target and pending request |
| Session.OnLocalCandidate | client/src/context/WebSocketContext.tsx:145-150 | A local ICE candidate of any manager the session created goes to the peer that manager was created for, whether or not the session still holds it |
| Session.PeerLossCheck | client/src/context/WebSocketContext.tsx:80-89 | With a target and a room but the target not listed, only the manager and the room are cleared; otherwise nothing changes. Afterwards no peer is lost |
| Session.OnYourId | client/src/context/WebSocketContext.tsx:96-99 | `your-id` sets only the own id |
| Session.OnOnlineUsers | client/src/context/WebSocketContext.tsx:102-105 | `online-users` stores the list and then applies the peer-loss check to it |
| Session.OnIncomingRequest | client/src/context/WebSocketContext.tsx:108-112 | Records the requester and the requester's name when it is non-empty; nothing else changes |
| Session.OnPeerGone | client/src/context/WebSocketContext.tsx:115-126 | `peer-disconnect` and `connection-timeout` reset exactly the manager, room, role, target and pending request, silently |
| Session.OnCancelled | client/src/context/WebSocketContext.tsx:129-134 | `cancel-connection` clears only the pending request and the target |
| Session.OnRejected | client/src/context/WebSocketContext.tsx:165-172 | `connection-rejected` clears only role, room, target and manager; a pending request stays |
| Session.OnWebrtcStart | client/src/context/WebSocketContext.tsx:137-162 | Enters the room with the other user in the given role and installs a manager different from the previous one. It sends an offer to the other user exactly when it is the caller |
| Session.OnOffer | client/src/context/WebSocketContext.tsx:175-183 | With a manager, an offer produces exactly one answer to its sender; without one it is ignored |
| Session.Dispatch | client/src/context/WebSocketContext.tsx:92-196 | Unknown types, `answer` and `ice-candidate` change nothing and send nothing, and so does `offer` without a manager. Something is sent exactly for `webrtc-start` as caller and for `offer` with a manager. The manager counter never decreases, and a newly installed manager carries the counter value from before the step, so it differs from every manager installed earlier |
| Session.TeardownPathsAgree | client/src/context/WebSocketContext.tsx:115-126 | Inbound `peer-disconnect`, inbound `connection-timeout` and local `disconnectPeer` leave the same session |
| Session.DisconnectIdempotent | client/src/context/WebSocketContext.tsx:226-236 | Disconnecting twice is disconnecting once, and the second call sends nothing |
| Session.RequestThenCancel | client/src/context/WebSocketContext.tsx:200-224 | From a session with no outgoing request, requesting and then cancelling restores the session exactly |
| Session.RequestWithdrawn | client/src/context/WebSocketContext.tsx:108-134 | On the callee, `incoming-request` records the request, and the `cancel-connection` that follows clears the request and the target and nothing else |
| Session.NoPeerLossAfterTeardown | client/src/context/WebSocketContext.tsx:80-89 | After a teardown, an `online-users` update changes only the list |
| Session.RoomTracksChannel | client/src/context/WebSocketContext.tsx:92-196 | Every inbound message keeps "in a room exactly while holding a manager" |
| Session.ActionsTrackChannel | client/src/context/WebSocketContext.tsx:145-236 | The five user actions and a local ICE candidate keep "in a room exactly while holding a manager" |
| Session.StaleManagerSends | client/src/context/WebSocketContext.tsx:137-172 | After `connection-rejected` the session holds no manager, and after a second `webrtc-start` it holds a new one; in both cases the dropped manager's candidates still go to its old peer |
| Scenarios.RequestRouted | server/src/server.ts:88-100 | A request from A reaches a registered B as one `incoming-request` from A |
| Scenarios.Routed | server/src/server.ts:127-206 | Any relayed message from A to a registered target reaches that target alone, as the forwarded message stamped with A |
| Scenarios.AcceptRouted | server/src/server.ts:102-125 | B accepting A's request sends A the room as caller and B the same room as callee, in that order |
| Scenarios.CancelledRequest | client/src/context/WebSocketContext.tsx:129-134 | When A requests and then cancels, B's pending request appears and is then cleared. A ends with no role or target, and no `webrtc-start` is ever sent |
| Scenarios.AcceptedRequest | server/src/server.ts:102-147 | When B accepts A's request, both are in the same room with opposite roles and each other as target. A's offer reaches B from A, and B's answer reaches A from B, verbatim |
| Scenarios.ClosedUserNotListed | server/src/server.ts:209-212 | After a user's socket closes, no list in the re-broadcast names that user |
| Scenarios.OthersAreTold | server/src/server.ts:209-212 | Every remaining user receives the re-broadcast |
| Scenarios.ListWithoutPeer | client/src/context/WebSocketContext.tsx:80-89 | A list without the peer makes a session in a room with it drop the manager and the room, keeping target and role |
| Scenarios.PeerLoss | client/src/context/WebSocketContext.tsx:80-89 | When B's socket closes abruptly, A receives a list without B and drops its manager and room within that one broadcast |
| Scenarios.HangUp | server/src/server.ts:160-170 | When A hangs up, B receives `peer-disconnect` from A and ends in the same torn-down state as after its own `disconnectPeer` |

## Left out

- Protocol.Percent: progress is `done * 100 / total` in integers. The source computes `Math.floor((done / total) * 100)` in floating point, which can be one lower mid-transfer (29 of 100 bytes gives 28). The model claims bounds, monotonicity and reaching 100, which hold for the integer form.
- Sender.SendRun: each resume runs the pump to the end of its loop before the next event, because handlers are treated as atomic steps. In the source the pump stays installed as `onbufferedamountlow` after its first pause (client/src/core/webrtc.ts:245), so a low-buffer event while `await slice.arrayBuffer()` is pending (client/src/core/webrtc.ts:235) starts a second pump over the same `offset`. That interleaving could send a chunk twice and skip another, and it is not modelled.
- The channel's `bufferedAmount`, the low-buffer event and the socket are inputs, not processes: there is no concurrency, timing or message loss.
- RTCPeerConnection, SDP and ICE internals, the STUN configuration, `createOffer`, `createAnswer`, `setRemoteDescription` and `addIceCandidate` (webrtc.ts:45-48, 183-202). Descriptions and candidates are opaque strings, and the description a manager produces is a parameter.
- `peer.close()` on teardown is a side effect on the platform object. Its later events reach the manager that is being dropped, which the session no longer holds.
- JSON encoding and parsing of every message. A message that fails to parse throws in the source. The model starts from already-decoded messages.
- `client/src/core/ws.ts` (socket construction and the JSON envelope), the HTTP health endpoint, `dotenv` and port setup.
- `uuid()` is an input. New socket ids are assumed unused. Room ids are unconstrained.
- `setMyName` (a local name change, `localStorage`, and a socket-open check before `register-name`). The relay's `register-name` handler is modelled.
- `alert`, `console.log` and the connection-state log handler.
- React batching, stale closures and effect scheduling. Each handler is one atomic step, and the peer-loss effect runs right after the `online-users` update that triggers it.
- Relay.Handle: `accept-connection` is routed through the corrected `Relay.AcceptConnection`, so an accept naming an absent requester sends nothing and leaves the registry as it was. As written, the source throws there (see "## Findings"); `Relay.AcceptConnectionAsWritten` models that path, and `Scenarios.AcceptRouted` and `Scenarios.AcceptedRequest` only use accepts whose requester is registered, where the two agree.
- Relay handlers assume the sender is registered. Handlers only run between a socket's connect and its close, so this always holds in the source.
- The caller's manager never installs `onmessage`, so it cannot receive files. This is how the source is written. The receive model applies to the callee's manager.
- Callbacks (`onConnected`, `onReceiveProgress` and the others) are assumed installed. An absent callback only suppresses the corresponding notice.

## Findings

| source | as written | input that shows it | evidently intended | confidence | as-written member | corrected member |
|---|---|---|---|---|---|---|
| server/src/server.ts:102-125 | `accept-connection` skips the requester with `requester?.` but then reads `requester!.id`. If the requester is absent, the handler throws a TypeError instead of routing | registry holding only `b`; `b` sends `accept-connection` with `from: "a"` | drop the message silently, as every other handler does for an absent peer | medium, not executed | Relay.AcceptConnectionAsWritten, Relay.AcceptFromUnknownThrows | Relay.AcceptConnection |
