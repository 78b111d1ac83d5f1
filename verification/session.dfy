/**
  The client session of client/src/context/WebSocketContext.tsx: the React state
  tuple, the five user actions, the `ws.onmessage` dispatcher, and the effect
  that notices a lost peer in each `online-users` update. Every handler is one
  atomic step from a session to a new session plus the messages it sends on the
  socket. A WebRTCManager is represented by the epoch it was created in and the
  peer id its ICE callback addresses; the SDP it produces is an input (`local`).
*/
module Session {
  import opened Common
  import opened Messages
  import Upstream
  import Downstream

  /** A WebRTCManager held in `rtc`: its creation epoch and the `otherUser` its ICE callback sends to. */
  datatype Peer = Peer(epoch: nat, remote: Id)

  /** The provider's state; `created` counts the managers created so far. */
  datatype Session = Session(
    myId: Id,
    users: seq<UserView>,
    incomingRequest: Option<Id>,
    incomingRequestName: Option<string>,
    connectedRoom: Option<Id>,
    isCaller: bool,
    targetUser: Option<Id>,
    rtc: Option<Peer>,
    created: nat)

  /** The initial `useState` values. */
  const Start: Session := Session("", [], None, None, None, false, None, None, 0)

  /** A handler's result: the session afterwards and the messages sent, in order. */
  datatype Reaction = Reaction(s: Session, out: seq<Upstream.Msg>)

  // ---------------------------------------------------------------------------
  // Which fields a step touches

  datatype Field =
    MyId | Users | IncomingRequest | IncomingRequestName | ConnectedRoom | IsCaller | TargetUser | Rtc | Created

  /** Field `f` is the same in `a` and `b`. */
  predicate Agree(a: Session, b: Session, f: Field)
  {
    match f
    case MyId => a.myId == b.myId
    case Users => a.users == b.users
    case IncomingRequest => a.incomingRequest == b.incomingRequest
    case IncomingRequestName => a.incomingRequestName == b.incomingRequestName
    case ConnectedRoom => a.connectedRoom == b.connectedRoom
    case IsCaller => a.isCaller == b.isCaller
    case TargetUser => a.targetUser == b.targetUser
    case Rtc => a.rtc == b.rtc
    case Created => a.created == b.created
  }

  /** Field `f` of `s` holds its initial value (null, false, empty). */
  predicate Blank(s: Session, f: Field)
  {
    Agree(s, Start, f)
  }

  /** Every field outside `fs` is unchanged from `s` to `s'`. */
  predicate Keeps(s: Session, s': Session, fs: set<Field>)
  {
    forall f :: f !in fs ==> Agree(s, s', f)
  }

  /** Every field in `fs` is back at its initial value. */
  predicate Clears(s: Session, fs: set<Field>)
  {
    forall f :: f in fs ==> Blank(s, f)
  }

  /** What tearing a session down resets: the channel, the room, the role, the peer and any pending request. */
  const Teardown: set<Field> := {Rtc, ConnectedRoom, IsCaller, TargetUser, IncomingRequest}

  /** The manager, if any, was created before now: each new one is distinct from every earlier one. */
  predicate Wf(s: Session)
  {
    s.rtc.Some? ==> s.rtc.value.epoch < s.created
  }

  /** The same session with the `Teardown` fields reset. */
  function TornDown(s: Session): (t: Session)
    ensures Keeps(s, t, Teardown) && Clears(t, Teardown)
  {
    s.(rtc := None, connectedRoom := None, isCaller := false, targetUser := None, incomingRequest := None)
  }

  // ---------------------------------------------------------------------------
  // User actions

  /** `sendConnectionRequest(to)`: become the caller towards `to` and ask the relay. */
  function SendConnectionRequest(s: Session, to: Id): (r: Reaction)
    ensures Keeps(s, r.s, {IsCaller, TargetUser})
    ensures r.s.isCaller && r.s.targetUser == Some(to)
    ensures r.out == [Upstream.RequestConnection(to)]
  {
    Reaction(s.(isCaller := true, targetUser := Some(to)), [Upstream.RequestConnection(to)])
  }

  /** `acceptRequest(from)`: become the callee towards `from`, tell the relay, drop the pending request. */
  function AcceptRequest(s: Session, from: Id): (r: Reaction)
    ensures Keeps(s, r.s, {IsCaller, TargetUser, IncomingRequest})
    ensures !r.s.isCaller && r.s.targetUser == Some(from) && Clears(r.s, {IncomingRequest})
    ensures r.out == [Upstream.AcceptConnection(from)]
  {
    Reaction(s.(isCaller := false, targetUser := Some(from), incomingRequest := None), [Upstream.AcceptConnection(from)])
  }

  /** `rejectRequest(from)`: tell `from` no, and drop the pending request only. */
  function RejectRequest(s: Session, from: Id): (r: Reaction)
    ensures Keeps(s, r.s, {IncomingRequest}) && Clears(r.s, {IncomingRequest})
    ensures r.out == [Upstream.RejectConnection(from)]
  {
    Reaction(s.(incomingRequest := None), [Upstream.RejectConnection(from)])
  }

  /** `cancelConnectionRequest()`: withdraw the request (telling the target if there is one) and drop the role. */
  function CancelConnectionRequest(s: Session): (r: Reaction)
    ensures Keeps(s, r.s, {IsCaller, TargetUser}) && Clears(r.s, {IsCaller, TargetUser})
    ensures Truthy(s.targetUser) ==> r.out == [Upstream.CancelConnection(s.targetUser.value)]
    ensures !Truthy(s.targetUser) ==> r.out == []
  {
    Reaction(
      s.(isCaller := false, targetUser := None),
      if Truthy(s.targetUser) then [Upstream.CancelConnection(s.targetUser.value)] else [])
  }

  /** `disconnectPeer()`: tell the peer (if there is one), close the channel, reset the session. */
  function DisconnectPeer(s: Session): (r: Reaction)
    ensures Keeps(s, r.s, Teardown) && Clears(r.s, Teardown)
    ensures Truthy(s.targetUser) ==> r.out == [Upstream.PeerDisconnect(s.targetUser.value)]
    ensures !Truthy(s.targetUser) ==> r.out == []
  {
    Reaction(TornDown(s), if Truthy(s.targetUser) then [Upstream.PeerDisconnect(s.targetUser.value)] else [])
  }

  /**
    The ICE callback of manager `p`, one of the managers this session created:
    a local candidate goes to the peer `p` was created for. The callback belongs
    to the manager, not to the session's current state, so a manager the
    session has dropped without closing it still sends (`StaleManagerSends`).
  */
  function OnLocalCandidate(s: Session, p: Peer, candidate: string): (r: Reaction)
    requires p.epoch < s.created
    ensures r.s == s
    ensures r.out == [Upstream.IceCandidate(p.remote, candidate)]
  {
    Reaction(s, [Upstream.IceCandidate(p.remote, candidate)])
  }

  // ---------------------------------------------------------------------------
  // Peer-loss effect

  /** The peer is listed in `users`. */
  predicate Listed(users: seq<UserView>, id: Id)
  {
    exists i :: 0 <= i < |users| && users[i].id == id
  }

  /** A session with a peer and a room whose peer is missing from the online list. */
  predicate PeerLost(s: Session)
  {
    Truthy(s.targetUser) && Truthy(s.connectedRoom) && !Listed(s.users, s.targetUser.value)
  }

  /**
    The `useEffect` on `users`: a peer missing from the list closes the channel
    and leaves the room, keeping `targetUser` and `isCaller`.
  */
  function PeerLossCheck(s: Session): (t: Session)
    ensures PeerLost(s) ==> Keeps(s, t, {Rtc, ConnectedRoom}) && Clears(t, {Rtc, ConnectedRoom})
    ensures !PeerLost(s) ==> t == s
    ensures !PeerLost(t)
  {
    if !Truthy(s.targetUser) || !Truthy(s.connectedRoom) then s
    else if Listed(s.users, s.targetUser.value) then s
    else s.(rtc := None, connectedRoom := None)
  }

  // ---------------------------------------------------------------------------
  // Inbound messages, one handler per `type`

  /** `your-id`. */
  function OnYourId(s: Session, id: Id): (r: Reaction)
    ensures Keeps(s, r.s, {MyId}) && r.s.myId == id && r.out == []
  {
    Reaction(s.(myId := id), [])
  }

  /** `online-users`: store the list, then run the peer-loss effect on it. */
  function OnOnlineUsers(s: Session, users: seq<UserView>): (r: Reaction)
    ensures r.s.users == users && r.out == []
    ensures PeerLost(s.(users := users)) ==> Keeps(s, r.s, {Users, Rtc, ConnectedRoom}) && Clears(r.s, {Rtc, ConnectedRoom})
    ensures !PeerLost(s.(users := users)) ==> Keeps(s, r.s, {Users})
  {
    Reaction(PeerLossCheck(s.(users := users)), [])
  }

  /** `incoming-request`: remember who asks, and their name when it is non-empty. */
  function OnIncomingRequest(s: Session, from: Id, fromName: Option<string>): (r: Reaction)
    ensures Keeps(s, r.s, {IncomingRequest, IncomingRequestName})
    ensures r.s.incomingRequest == Some(from)
    ensures r.s.incomingRequestName == (if Truthy(fromName) then fromName else None)
    ensures r.out == []
  {
    Reaction(s.(incomingRequest := Some(from), incomingRequestName := if Truthy(fromName) then fromName else None), [])
  }

  /** `peer-disconnect` and `connection-timeout`: close the channel and reset the session, silently. */
  function OnPeerGone(s: Session): (r: Reaction)
    ensures Keeps(s, r.s, Teardown) && Clears(r.s, Teardown) && r.out == []
  {
    Reaction(TornDown(s), [])
  }

  /** `cancel-connection`: the requester withdrew; drop the pending request and the peer. */
  function OnCancelled(s: Session): (r: Reaction)
    ensures Keeps(s, r.s, {IncomingRequest, TargetUser}) && Clears(r.s, {IncomingRequest, TargetUser})
    ensures r.out == []
  {
    Reaction(s.(incomingRequest := None, targetUser := None), [])
  }

  /** `connection-rejected`: drop role, room, peer and channel; a pending incoming request stays. */
  function OnRejected(s: Session): (r: Reaction)
    ensures Keeps(s, r.s, {IsCaller, ConnectedRoom, TargetUser, Rtc})
    ensures Clears(r.s, {IsCaller, ConnectedRoom, TargetUser, Rtc})
    ensures r.out == []
  {
    Reaction(s.(isCaller := false, connectedRoom := None, targetUser := None, rtc := None), [])
  }

  /**
    `webrtc-start`: enter the room with the other user in the given role, install
    a new manager, and as caller send the offer it produces (`local`).
  */
  function OnWebrtcStart(s: Session, roomId: Id, other: Id, isCaller: bool, local: string): (r: Reaction)
    requires Wf(s)
    ensures Wf(r.s)
    ensures Keeps(s, r.s, {ConnectedRoom, TargetUser, IsCaller, Rtc, Created})
    ensures r.s.connectedRoom == Some(roomId) && r.s.targetUser == Some(other) && r.s.isCaller == isCaller
    ensures r.s.rtc.Some? && r.s.rtc.value.remote == other && r.s.rtc != s.rtc
    ensures r.s.rtc.value.epoch == s.created < r.s.created
    ensures isCaller ==> r.out == [Upstream.Offer(other, local)]
    ensures !isCaller ==> r.out == []
  {
    var t := s.(connectedRoom := Some(roomId), targetUser := Some(other), isCaller := isCaller,
                rtc := Some(Peer(s.created, other)), created := s.created + 1);
    Reaction(t, if isCaller then [Upstream.Offer(other, local)] else [])
  }

  /** `offer`: with a manager, answer the sender with the description it produces (`local`); else ignore. */
  function OnOffer(s: Session, from: Id, local: string): (r: Reaction)
    ensures r.s == s
    ensures s.rtc.Some? ==> r.out == [Upstream.Answer(from, local)]
    ensures s.rtc.None? ==> r.out == []
  {
    Reaction(s, if s.rtc.Some? then [Upstream.Answer(from, local)] else [])
  }

  /**
    The `ws.onmessage` dispatcher: the first `type` that matches is handled, an
    unknown `type` changes nothing. `local` is the description the manager
    produces when the handler asks it for an offer or an answer.
  */
  function Dispatch(s: Session, m: Downstream.Msg, local: string): (r: Reaction)
    requires Wf(s)
    ensures Wf(r.s)
    ensures m.Unrecognized? || m.Answer? || m.IceCandidate? ==> r == Reaction(s, [])
    ensures m.Offer? && s.rtc.None? ==> r == Reaction(s, [])
    ensures |r.out| > 0 <==> (m.WebrtcStart? && m.isCaller) || (m.Offer? && s.rtc.Some?)
    ensures !m.YourId? ==> r.s.myId == s.myId
    ensures !m.OnlineUsers? ==> r.s.users == s.users
    ensures s.created <= r.s.created
    ensures r.s.rtc.Some? && r.s.rtc != s.rtc ==> r.s.rtc.value.epoch == s.created
  {
    match m
    case YourId(id, _) => OnYourId(s, id)
    case OnlineUsers(users) => OnOnlineUsers(s, users)
    case IncomingRequest(from, fromName, _) => OnIncomingRequest(s, from, fromName)
    case PeerDisconnect(_) => OnPeerGone(s)
    case ConnectionTimeout(_) => OnPeerGone(s)
    case CancelConnection(_) => OnCancelled(s)
    case WebrtcStart(roomId, other, isCaller) => OnWebrtcStart(s, roomId, other, isCaller, local)
    case ConnectionRejected(_) => OnRejected(s)
    case Offer(from, _) => OnOffer(s, from, local)
    case Answer(_, _) => Reaction(s, [])
    case IceCandidate(_, _) => Reaction(s, [])
    case Unrecognized(_) => Reaction(s, [])
  }

  // ---------------------------------------------------------------------------
  // Properties

  /**
    The three teardown paths (local `disconnectPeer`, inbound `peer-disconnect`,
    inbound `connection-timeout`) leave the same session; only the local one
    tells the peer.
  */
  lemma TeardownPathsAgree(s: Session, from: Id, local: string)
    requires Wf(s)
    ensures Dispatch(s, Downstream.PeerDisconnect(from), local).s == DisconnectPeer(s).s
    ensures Dispatch(s, Downstream.ConnectionTimeout(from), local).s == DisconnectPeer(s).s
    ensures Dispatch(s, Downstream.PeerDisconnect(from), local).out == []
  {
  }

  /** Disconnecting twice is disconnecting once; the second time sends nothing. */
  lemma DisconnectIdempotent(s: Session)
    ensures DisconnectPeer(DisconnectPeer(s).s) == Reaction(DisconnectPeer(s).s, [])
  {
  }

  /** From a session with no outgoing request, requesting and then cancelling restores it exactly. */
  lemma RequestThenCancel(s: Session, to: Id)
    requires !s.isCaller && s.targetUser == None && to != ""
    ensures CancelConnectionRequest(SendConnectionRequest(s, to).s)
      == Reaction(s, [Upstream.CancelConnection(to)])
  {
  }

  /**
    The callee's side of a withdrawn request: `incoming-request` shows the
    request, and the following `cancel-connection` clears it and the target
    again, whatever else the session holds.
  */
  lemma RequestWithdrawn(s: Session, from: Id, fromName: Option<string>, info: Option<DeviceInfo>, local: string)
    requires Wf(s)
    ensures var s1 := Dispatch(s, Downstream.IncomingRequest(from, fromName, info), local).s;
      && s1.incomingRequest == Some(from)
      && var s2 := Dispatch(s1, Downstream.CancelConnection(from), local).s;
      && s2.incomingRequest == None && s2.targetUser == None
      && Keeps(s1, s2, {IncomingRequest, TargetUser})
  {
  }

  /** After any teardown there is no room, so a later online-users update changes nothing but the list. */
  lemma NoPeerLossAfterTeardown(s: Session, users: seq<UserView>)
    ensures OnOnlineUsers(DisconnectPeer(s).s, users).s == DisconnectPeer(s).s.(users := users)
  {
  }

  /** The session is in a room exactly while it holds a manager. */
  predicate InRoomIffChannel(s: Session)
  {
    s.connectedRoom.Some? <==> s.rtc.Some?
  }

  /** Every inbound message keeps "in a room exactly while holding a channel". */
  lemma RoomTracksChannel(s: Session, m: Downstream.Msg, local: string)
    requires Wf(s) && InRoomIffChannel(s)
    ensures InRoomIffChannel(Dispatch(s, m, local).s)
  {
  }

  /**
    Every user action keeps "in a room exactly while holding a channel":
    `disconnectPeer` clears both, the others touch neither.
  */
  lemma ActionsTrackChannel(s: Session, id: Id, p: Peer, candidate: string)
    requires InRoomIffChannel(s) && p.epoch < s.created
    ensures InRoomIffChannel(SendConnectionRequest(s, id).s)
    ensures InRoomIffChannel(AcceptRequest(s, id).s)
    ensures InRoomIffChannel(RejectRequest(s, id).s)
    ensures InRoomIffChannel(CancelConnectionRequest(s).s)
    ensures InRoomIffChannel(DisconnectPeer(s).s)
    ensures InRoomIffChannel(OnLocalCandidate(s, p, candidate).s)
  {
  }

  /**
    `connection-rejected` and a second `webrtc-start` drop the held manager
    without closing it: the session no longer holds it, yet the manager's ICE
    callback still sends its candidates to the peer it was created for.
  */
  lemma StaleManagerSends(s: Session, from: Id, roomId: Id, other: Id, isCaller: bool, candidate: string, local: string)
    requires Wf(s) && s.rtc.Some?
    ensures var t := Dispatch(s, Downstream.ConnectionRejected(from), local).s;
      && t.rtc == None
      && s.rtc.value.epoch < t.created
      && OnLocalCandidate(t, s.rtc.value, candidate).out == [Upstream.IceCandidate(s.rtc.value.remote, candidate)]
    ensures var t := Dispatch(s, Downstream.WebrtcStart(roomId, other, isCaller), local).s;
      && t.rtc != s.rtc
      && s.rtc.value.epoch < t.created
      && OnLocalCandidate(t, s.rtc.value, candidate).out == [Upstream.IceCandidate(s.rtc.value.remote, candidate)]
  {
  }
}
