/**
  End-to-end exchanges between two client sessions (client/src/context/WebSocketContext.tsx)
  through the relay (server/src/server.ts): each client step's outbound message
  is handed to the relay's handler for that client's socket, and each delivery
  to the other client is handed to that client's dispatcher.
*/
module Scenarios {
  import opened Common
  import opened Messages
  import Upstream
  import Downstream
  import opened Relay
  import opened Session

  /** The relay passes a request from A to a registered B as one `incoming-request` naming A. */
  lemma RequestRouted(users: seq<User>, a: Id, b: Id, roomId: Id)
    requires Registered(users, a) && Registered(users, b)
    ensures Handle(users, a, Upstream.RequestConnection(b), roomId).out
      == [Delivery(b, Downstream.IncomingRequest(a, Me(users, a).name, Me(users, a).deviceInfo))]
  {
    assert Handle(users, a, Upstream.RequestConnection(b), roomId).out == RequestConnection(users, a, b);
    assert Me(users, a).id == a;
  }

  /** The relay passes a relayed message from A to its registered target, stamped with A. */
  lemma Routed(users: seq<User>, a: Id, msg: Upstream.Msg, roomId: Id)
    requires Registered(users, a) && msg.Relayed() && Registered(users, msg.to)
    ensures Handle(users, a, msg, roomId).out == [Delivery(msg.to, Forward(msg, a))]
  {
    assert Handle(users, a, msg, roomId).out == RelayMessage(users, a, msg);
    assert Me(users, a).id == a;
  }

  /** B accepting A's request sends the same room to A as caller and to B as callee. */
  lemma AcceptRouted(users: seq<User>, a: Id, b: Id, roomId: Id)
    requires Registered(users, a) && Registered(users, b)
    ensures Handle(users, b, Upstream.AcceptConnection(a), roomId).out
      == [Delivery(a, Downstream.WebrtcStart(roomId, b, true)), Delivery(b, Downstream.WebrtcStart(roomId, a, false))]
  {
    assert Handle(users, b, Upstream.AcceptConnection(a), roomId).out == AcceptConnection(users, b, a, roomId);
  }

  /**
    A asks B, then withdraws before B answers: B sees the request and then loses
    it, and A ends with no role and no target. The only messages the relay sends
    are the request and its withdrawal, so no `webrtc-start` is ever sent.
  */
  lemma CancelledRequest(
    users: seq<User>, a: Id, b: Id, sa: Session, sb: Session, roomId: Id, local: string)
    requires Registered(users, a) && Registered(users, b) && b != ""
    requires Wf(sb)
    ensures
      var req := SendConnectionRequest(sa, b);
      var ask := Downstream.IncomingRequest(a, Me(users, a).name, Me(users, a).deviceInfo);
      && req.out == [Upstream.RequestConnection(b)]
      && Handle(users, a, req.out[0], roomId).out == [Delivery(b, ask)]
      && var sb1 := Dispatch(sb, ask, local).s;
      && sb1.incomingRequest == Some(a)
      && var cancel := CancelConnectionRequest(req.s);
      && cancel.out == [Upstream.CancelConnection(b)]
      && !cancel.s.isCaller && cancel.s.targetUser == None
      && Handle(users, a, cancel.out[0], roomId).out == [Delivery(b, Downstream.CancelConnection(a))]
      && var sb2 := Dispatch(sb1, Downstream.CancelConnection(a), local).s;
      sb2.incomingRequest == None && sb2.targetUser == None
  {
    RequestRouted(users, a, b, roomId);
    RequestWithdrawn(sb, a, Me(users, a).name, Me(users, a).deviceInfo, local);
    Routed(users, a, Upstream.CancelConnection(b), roomId);
  }

  /**
    A asks B and B accepts: both enter the same room with opposite roles and
    each other as target; A's offer reaches B stamped with A, and B's answer
    reaches A stamped with B, descriptions verbatim.
  */
  lemma AcceptedRequest(
    users: seq<User>, a: Id, b: Id, sa: Session, sb: Session, roomId: Id, offer: string, answer: string)
    requires UniqueIds(users) && Registered(users, a) && Registered(users, b)
    requires Wf(sa) && Wf(sb)
    ensures
      var sa1 := SendConnectionRequest(sa, b).s;
      var acc := AcceptRequest(sb, a);
      var starts := Handle(users, b, acc.out[0], roomId).out;
      && |starts| == 2 && starts[0].to == a && starts[1].to == b
      && var ra := Dispatch(sa1, starts[0].msg, offer);
      var rb := Dispatch(acc.s, starts[1].msg, answer);
      && ra.s.connectedRoom == rb.s.connectedRoom == Some(roomId)
      && ra.s.isCaller && !rb.s.isCaller
      && ra.s.targetUser == Some(b) && rb.s.targetUser == Some(a)
      && ra.out == [Upstream.Offer(b, offer)] && rb.out == []
      && var fwdOffer := Handle(users, a, ra.out[0], roomId).out;
      && fwdOffer == [Delivery(b, Downstream.Offer(a, offer))]
      && var rb2 := Dispatch(rb.s, fwdOffer[0].msg, answer);
      && rb2.out == [Upstream.Answer(a, answer)]
      && Handle(users, b, rb2.out[0], roomId).out == [Delivery(a, Downstream.Answer(b, answer))]
  {
    var acc := AcceptRequest(sb, a);
    AcceptRouted(users, a, b, roomId);
    var rb := Dispatch(acc.s, Downstream.WebrtcStart(roomId, a, false), answer);
    Routed(users, a, Upstream.Offer(b, offer), roomId);
    Routed(users, b, Upstream.Answer(a, answer), roomId);
    assert Dispatch(rb.s, Downstream.Offer(a, offer), answer).out == [Upstream.Answer(a, answer)];
  }

  /** No entry of the list a user is sent after `id` leaves names `id`. */
  lemma {:induction false} ClosedUserNotListed(users: seq<User>, id: Id, k: nat)
    requires k < |Close(users, id).users|
    ensures
      var rest := Close(users, id).users;
      !Listed(Broadcast(rest)[k].msg.users, id)
  {
    var rest := Close(users, id).users;
    var w := Without(rest, rest[k].id);
    WithoutMembers(rest, rest[k].id);
    forall i | 0 <= i < |Views(w)|
      ensures Views(w)[i].id != id
    {
      assert w[i] in w;
    }
  }

  /** `r` is session `sa` after dropping its channel and room, keeping peer `b` as target and its role. */
  predicate DropsPeer(sa: Session, r: Reaction, b: Id)
  {
    && r.s.rtc == None && r.s.connectedRoom == None
    && r.s.targetUser == Some(b) && r.s.isCaller == sa.isCaller
    && r.out == []
  }

  /** An `online-users` list without the peer makes a session in a room with it drop the channel and the room. */
  lemma ListWithoutPeer(sa: Session, list: seq<UserView>, b: Id, local: string)
    requires Wf(sa) && sa.targetUser == Some(b) && b != "" && Truthy(sa.connectedRoom)
    requires !Listed(list, b)
    ensures DropsPeer(sa, Dispatch(sa, Downstream.OnlineUsers(list), local), b)
  {
    assert PeerLost(sa.(users := list));
  }

  /** When B's socket closes, every other registered user is sent the new list. */
  lemma {:induction false} OthersAreTold(users: seq<User>, a: Id, b: Id)
    requires Registered(users, a) && a != b
    ensures exists d :: d in Close(users, b).out && d.to == a
  {
    var closed := Close(users, b);
    var i :| 0 <= i < |users| && users[i].id == a;
    assert users[i] in closed.users;
    var j :| 0 <= j < |closed.users| && closed.users[j] == users[i];
    assert closed.out[j] in closed.out;
  }

  /**
    A is in a room with B when B's socket closes: the broadcast A receives no
    longer lists B, so A drops its channel and leaves the room, keeping B as
    its target and its role.
  */
  lemma PeerLoss(users: seq<User>, a: Id, b: Id, sa: Session, local: string)
    requires UniqueIds(users) && Registered(users, a) && a != b
    requires Wf(sa) && sa.targetUser == Some(b) && b != "" && Truthy(sa.connectedRoom)
    ensures exists d :: d in Close(users, b).out && d.to == a
    ensures forall d :: d in Close(users, b).out && d.to == a ==> DropsPeer(sa, Dispatch(sa, d.msg, local), b)
  {
    OthersAreTold(users, a, b);
    var closed := Close(users, b);
    forall d | d in closed.out && d.to == a
      ensures DropsPeer(sa, Dispatch(sa, d.msg, local), b)
    {
      var k :| 0 <= k < |closed.out| && closed.out[k] == d;
      ClosedUserNotListed(users, b, k);
      assert d.msg == Downstream.OnlineUsers(d.msg.users);
      ListWithoutPeer(sa, d.msg.users, b, local);
    }
  }

  /**
    A hangs up while in a room with B: B receives `peer-disconnect` stamped with
    A and tears down exactly as A did.
  */
  lemma HangUp(users: seq<User>, a: Id, b: Id, sa: Session, sb: Session, local: string)
    requires Registered(users, a) && Registered(users, b)
    requires Wf(sb) && sa.targetUser == Some(b) && b != ""
    ensures
      var down := DisconnectPeer(sa);
      && down.out == [Upstream.PeerDisconnect(b)]
      && var d := Handle(users, a, down.out[0], "").out;
      && d == [Delivery(b, Downstream.PeerDisconnect(a))]
      && Dispatch(sb, d[0].msg, local).s == DisconnectPeer(sb).s
      && Clears(Dispatch(sb, d[0].msg, local).s, Teardown) && Clears(down.s, Teardown)
  {
    Routed(users, a, Upstream.PeerDisconnect(b), "");
    TeardownPathsAgree(sb, a, local);
  }
}
