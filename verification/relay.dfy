/**
  The signaling relay of server/src/server.ts: the ordered `users` registry, the
  full-list `online-users` broadcast, the connection and close handlers, and the
  per-type message router. Each handler is one atomic transition from a registry
  to a new registry plus the messages it puts on sockets, in order. A user's
  socket is named by the user's id; uuid generation is an input (`newId`,
  `roomId`).
*/
module Relay {
  import opened Common
  import opened Messages
  import Upstream
  import Downstream

  /** A registry record (server/src/types.ts): id, optional name, optional device details. */
  datatype User = User(id: Id, name: Option<string>, deviceInfo: Option<DeviceInfo>)

  /** A message sent on the socket of user `to`. */
  datatype Delivery = Delivery(to: Id, msg: Downstream.Msg)

  /** A handler's result: the registry afterwards and the deliveries, in sending order. */
  datatype Step = Step(users: seq<User>, out: seq<Delivery>)

  predicate Registered(users: seq<User>, id: Id)
  {
    exists i :: 0 <= i < |users| && users[i].id == id
  }

  /** Ids are unique in the registry. */
  predicate UniqueIds(users: seq<User>)
  {
    forall i, j :: 0 <= i < j < |users| ==> users[i].id != users[j].id
  }

  /** `users.find((u) => u.id === id)`: the first record with that id. */
  function Find(users: seq<User>, id: Id): (r: Option<User>)
    ensures r.Some? <==> Registered(users, id)
    ensures r.Some? ==> r.value.id == id && r.value in users
    ensures UniqueIds(users) ==> forall i :: 0 <= i < |users| && users[i].id == id ==> r == Some(users[i])
  {
    if |users| == 0 then None
    else if users[0].id == id then Some(users[0])
    else
      var r := Find(users[1..], id);
      assert Registered(users, id) ==> Registered(users[1..], id) by {
        if Registered(users, id) {
          var i :| 0 <= i < |users| && users[i].id == id;
          assert users[1..][i - 1].id == id;
        }
      }
      assert r.Some? ==> r.value in users by {
        if r.Some? {
          assert r.value in users[1..];
        }
      }
      r
  }

  /** The entry a record contributes to an `online-users` list. */
  function View(u: User): UserView
  {
    match u.deviceInfo
    case None => UserView(u.id, u.name, None, None, None)
    case Some(d) => UserView(u.id, u.name, d.deviceName, d.deviceModel, d.manufacturer)
  }

  function Views(users: seq<User>): (vs: seq<UserView>)
    ensures |vs| == |users|
    ensures forall i :: 0 <= i < |users| ==> vs[i] == View(users[i])
  {
    seq(|users|, i requires 0 <= i < |users| => View(users[i]))
  }

  /** `users.filter((u) => u.id !== id)`. */
  function Without(users: seq<User>, id: Id): seq<User>
  {
    if |users| == 0 then []
    else (if users[0].id != id then [users[0]] else []) + Without(users[1..], id)
  }

  /** The list user `id` is sent: every other record's view, in registry order. */
  function Others(users: seq<User>, id: Id): seq<UserView>
  {
    Views(Without(users, id))
  }

  /** `broadcastOnlineUsers`: one `online-users` message to every registered user, in registry order. */
  function Broadcast(users: seq<User>): (out: seq<Delivery>)
    ensures |out| == |users|
    ensures forall i :: 0 <= i < |users| ==> out[i].to == users[i].id && out[i].msg.OnlineUsers?
  {
    seq(|users|, i requires 0 <= i < |users| => Delivery(users[i].id, Downstream.OnlineUsers(Others(users, users[i].id))))
  }

  /**
    A new socket: append a record with the new id (named only when the `name`
    query parameter is non-empty), send it `your-id`, then broadcast.
  */
  function Connect(users: seq<User>, newId: Id, nameParam: string): (r: Step)
    requires !Registered(users, newId)
    ensures |r.users| == |users| + 1 && r.users[..|users|] == users
    ensures Last(r.users).id == newId && Last(r.users).deviceInfo == None
    ensures Last(r.users).name == (if nameParam != "" then Some(nameParam) else None)
    ensures UniqueIds(users) ==> UniqueIds(r.users)
    ensures |r.out| == |users| + 2
    ensures r.out[0] == Delivery(newId, Downstream.YourId(newId, Last(r.users).name))
    ensures r.out[1..] == Broadcast(r.users)
  {
    var u := User(newId, if nameParam != "" then Some(nameParam) else None, None);
    var users' := users + [u];
    assert users'[..|users|] == users;
    Step(users', [Delivery(newId, Downstream.YourId(newId, u.name))] + Broadcast(users'))
  }

  /** A socket closes: drop its record and broadcast to the rest. */
  function Close(users: seq<User>, id: Id): (r: Step)
    ensures !Registered(r.users, id)
    ensures forall u :: u in r.users <==> u in users && u.id != id
    ensures UniqueIds(users) ==> UniqueIds(r.users)
    ensures r.out == Broadcast(r.users)
  {
    WithoutMembers(users, id);
    WithoutUnique(users, id);
    Step(Without(users, id), Broadcast(Without(users, id)))
  }

  /** The first record with id `id` replaced by `u`. */
  function Replace(users: seq<User>, id: Id, u: User): (r: seq<User>)
    ensures |r| == |users|
  {
    if |users| == 0 then []
    else if users[0].id == id then [u] + users[1..]
    else [users[0]] + Replace(users[1..], id, u)
  }

  /** The message the relay passes on for a relayed request from `from`; only `reject-connection` changes its type. */
  function Forward(msg: Upstream.Msg, from: Id): (m: Downstream.Msg)
    requires msg.Relayed()
    ensures m.Type() == (if msg.RejectConnection? then "connection-rejected" else msg.Type())
    ensures Stamp(m) == Some(from) && DownPayload(m) == UpPayload(msg)
  {
    match msg
    case RejectConnection(_) => Downstream.ConnectionRejected(from)
    case CancelConnection(_) => Downstream.CancelConnection(from)
    case PeerDisconnect(_) => Downstream.PeerDisconnect(from)
    case ConnectionTimeout(_) => Downstream.ConnectionTimeout(from)
    case Offer(_, sdp) => Downstream.Offer(from, sdp)
    case Answer(_, sdp) => Downstream.Answer(from, sdp)
    case IceCandidate(_, c) => Downstream.IceCandidate(from, c)
  }

  /** Send `m` to user `to` if registered; drop it otherwise. */
  function SendTo(users: seq<User>, to: Id, m: Downstream.Msg): (out: seq<Delivery>)
    ensures out == (if Registered(users, to) then [Delivery(to, m)] else [])
  {
    match Find(users, to)
    case Some(t) => [Delivery(t.id, m)]
    case None => []
  }

  /** The opaque payload of an upstream message, if it has one. */
  function UpPayload(m: Upstream.Msg): Option<string>
  {
    match m
    case Offer(_, sdp) => Some(sdp)
    case Answer(_, sdp) => Some(sdp)
    case IceCandidate(_, c) => Some(c)
    case _ => None
  }

  /** The `from` a relayed downstream message carries. */
  function Stamp(m: Downstream.Msg): Option<Id>
  {
    match m
    case ConnectionRejected(from) => Some(from)
    case CancelConnection(from) => Some(from)
    case PeerDisconnect(from) => Some(from)
    case ConnectionTimeout(from) => Some(from)
    case Offer(from, _) => Some(from)
    case Answer(from, _) => Some(from)
    case IceCandidate(from, _) => Some(from)
    case _ => None
  }

  /** The opaque payload of a downstream message, if it has one. */
  function DownPayload(m: Downstream.Msg): Option<string>
  {
    match m
    case Offer(_, sdp) => Some(sdp)
    case Answer(_, sdp) => Some(sdp)
    case IceCandidate(_, c) => Some(c)
    case _ => None
  }

  /** The record of a registered user (the handler's `newUser`). */
  function Me(users: seq<User>, sender: Id): User
    requires Registered(users, sender)
  {
    Find(users, sender).value
  }

  /**
    The registry keeps its ids and order, and with unique ids only the sender's
    record may differ.
  */
  predicate OnlySenderChanged(users: seq<User>, users': seq<User>, sender: Id)
  {
    && |users'| == |users|
    && (forall i :: 0 <= i < |users| ==> users'[i].id == users[i].id)
    && (UniqueIds(users) ==> forall i :: 0 <= i < |users| && users[i].id != sender ==> users'[i] == users[i])
  }

  /** `register-device`: store a truthy `deviceInfo` on the sender's record and broadcast; otherwise nothing. */
  function RegisterDevice(users: seq<User>, sender: Id, info: Option<DeviceInfo>): (r: Step)
    requires Registered(users, sender)
    ensures OnlySenderChanged(users, r.users, sender)
    ensures info.Some? && UniqueIds(users) ==>
      && (forall i :: 0 <= i < |users| && users[i].id == sender ==> r.users[i] == users[i].(deviceInfo := info))
      && r.out == Broadcast(r.users)
    ensures info.None? ==> r == Step(users, [])
  {
    if info.Some? then
      var me := Me(users, sender);
      ReplaceFacts(users, sender, me.(deviceInfo := info));
      var users' := Replace(users, sender, me.(deviceInfo := info));
      Step(users', Broadcast(users'))
    else Step(users, [])
  }

  /** `register-name`: store a non-empty name on the sender's record and broadcast; otherwise nothing. */
  function RegisterName(users: seq<User>, sender: Id, name: string): (r: Step)
    requires Registered(users, sender)
    ensures OnlySenderChanged(users, r.users, sender)
    ensures name != "" && UniqueIds(users) ==>
      && (forall i :: 0 <= i < |users| && users[i].id == sender ==> r.users[i] == users[i].(name := Some(name)))
      && r.out == Broadcast(r.users)
    ensures name == "" ==> r == Step(users, [])
  {
    if name != "" then
      var me := Me(users, sender);
      ReplaceFacts(users, sender, me.(name := Some(name)));
      var users' := Replace(users, sender, me.(name := Some(name)));
      Step(users', Broadcast(users'))
    else Step(users, [])
  }

  /** `request-connection`: one `incoming-request` naming the sender to a present target; nothing otherwise. */
  function RequestConnection(users: seq<User>, sender: Id, to: Id): (out: seq<Delivery>)
    requires Registered(users, sender)
    ensures Registered(users, to) ==>
      out == [Delivery(to, Downstream.IncomingRequest(sender, Me(users, sender).name, Me(users, sender).deviceInfo))]
    ensures !Registered(users, to) ==> out == []
  {
    var me := Me(users, sender);
    SendTo(users, to, Downstream.IncomingRequest(me.id, me.name, me.deviceInfo))
  }

  /** The exception a handler raises. */
  datatype Thrown = TypeError

  /**
    `accept-connection` exactly as written: with the requester missing, its
    message is skipped by `requester?.`, and building the sender's message then
    reads `.id` of undefined and throws, so nothing is sent.
  */
  function AcceptConnectionAsWritten(users: seq<User>, sender: Id, from: Id, roomId: Id): (r: Result<seq<Delivery>, Thrown>)
    requires Registered(users, sender)
    ensures r.Failure? <==> !Registered(users, from)
    ensures r.Success? ==> r.value == AcceptConnection(users, sender, from, roomId)
  {
    match Find(users, from)
    case None => Failure(TypeError)
    case Some(requester) =>
      var me := Me(users, sender);
      Success([Delivery(requester.id, Downstream.WebrtcStart(roomId, me.id, true)),
               Delivery(me.id, Downstream.WebrtcStart(roomId, requester.id, false))])
  }

  /** A registry holding only the accepting user, who accepts a request from an id nobody holds. */
  lemma AcceptFromUnknownThrows()
    ensures Registered([User("b", None, None)], "b")
    ensures AcceptConnectionAsWritten([User("b", None, None)], "b", "a", "r") == Failure(TypeError)
  {
    assert [User("b", None, None)][0].id == "b";
    assert !Registered([User("b", None, None)], "a");
  }

  /**
    `accept-connection` from `sender` for requester `from`, as evidently
    intended: the minted room id goes to the requester as caller and to the
    sender as callee; an absent requester makes it send nothing, like every
    other handler with an absent peer.
  */
  function AcceptConnection(users: seq<User>, sender: Id, from: Id, roomId: Id): (out: seq<Delivery>)
    requires Registered(users, sender)
    ensures !Registered(users, from) ==> out == []
    ensures Registered(users, from) ==>
      && |out| == 2
      && (forall d :: d in out ==> d.msg.WebrtcStart? && d.msg.roomId == roomId)
      && out[0].to == from && out[0].msg.isCaller && out[0].msg.otherUser == sender
      && out[1].to == sender && !out[1].msg.isCaller && out[1].msg.otherUser == from
  {
    match Find(users, from)
    case None => []
    case Some(requester) =>
      var me := Me(users, sender);
      [Delivery(requester.id, Downstream.WebrtcStart(roomId, me.id, true)),
       Delivery(me.id, Downstream.WebrtcStart(roomId, requester.id, false))]
  }

  /**
    The seven relayed types: at most one message, to the named target when it is
    present, stamped with the sender, payload verbatim, type kept except that
    `reject-connection` arrives as `connection-rejected`.
  */
  function RelayMessage(users: seq<User>, sender: Id, msg: Upstream.Msg): (out: seq<Delivery>)
    requires Registered(users, sender) && msg.Relayed()
    ensures |out| <= 1
    ensures |out| == 1 <==> Registered(users, msg.to)
    ensures |out| == 1 ==>
      && out[0].to == msg.to
      && out[0].msg.Type() == (if msg.RejectConnection? then "connection-rejected" else msg.Type())
      && Stamp(out[0].msg) == Some(sender)
      && DownPayload(out[0].msg) == UpPayload(msg)
  {
    SendTo(users, msg.to, Forward(msg, Me(users, sender).id))
  }

  /**
    The `message` handler of the socket of registered user `sender`: one atomic
    step. `roomId` is the uuid an `accept-connection` mints. The seven relayed
    types are tested first; the source tests one type after another, and since
    the types are disjoint the order does not matter.
  */
  function Handle(users: seq<User>, sender: Id, msg: Upstream.Msg, roomId: Id): (r: Step)
    requires Registered(users, sender)
    ensures OnlySenderChanged(users, r.users, sender)
    ensures !msg.RegisterName? && !msg.RegisterDevice? ==> r.users == users
    ensures msg.Unrecognized? ==> r.out == []
  {
    if msg.Relayed() then Step(users, RelayMessage(users, sender, msg))
    else match msg
      case RegisterDevice(info) => RegisterDevice(users, sender, info)
      case RegisterName(name) => RegisterName(users, sender, name)
      case RequestConnection(to) => Step(users, RequestConnection(users, sender, to))
      case AcceptConnection(from) => Step(users, AcceptConnection(users, sender, from, roomId))
      case _ => Step(users, [])
  }

  // ---------------------------------------------------------------------------

  lemma {:induction false} WithoutMembers(users: seq<User>, id: Id)
    ensures forall u :: u in Without(users, id) <==> u in users && u.id != id
  {
    if |users| > 0 {
      WithoutMembers(users[1..], id);
      assert users == [users[0]] + users[1..];
    }
  }

  lemma {:induction false} WithoutUnique(users: seq<User>, id: Id)
    ensures UniqueIds(users) ==> UniqueIds(Without(users, id))
  {
    if |users| > 0 && UniqueIds(users) {
      WithoutUnique(users[1..], id);
      WithoutMembers(users[1..], id);
      var rest := Without(users[1..], id);
      var w := Without(users, id);
      if users[0].id != id {
        assert w == [users[0]] + rest;
        forall i, j | 0 <= i < j < |w|
          ensures w[i].id != w[j].id
        {
          if i == 0 {
            assert w[j] in users[1..];
            var k :| 0 <= k < |users[1..]| && users[1..][k] == w[j];
            assert users[k + 1] == w[j];
          } else {
            assert w[i] == rest[i - 1] && w[j] == rest[j - 1];
          }
        }
      } else {
        assert w == rest;
      }
    }
  }

  /** With unique ids, dropping `id` removes exactly its one record and keeps the others in order. */
  lemma {:induction false} WithoutExact(users: seq<User>, k: nat)
    requires UniqueIds(users) && k < |users|
    ensures Without(users, users[k].id) == users[..k] + users[k + 1..]
  {
    var id := users[k].id;
    if k == 0 {
      WithoutAbsent(users[1..], id);
      assert users[..0] + users[1..] == users[1..];
    } else {
      assert users[0].id != id;
      assert Without(users, id) == [users[0]] + Without(users[1..], id);
      WithoutExact(users[1..], k - 1);
      assert users[1..][k - 1] == users[k];
      assert users[1..][..k - 1] + users[1..][k..] == users[1..k] + users[k + 1..];
      assert [users[0]] + users[1..k] == users[..k];
    }
  }

  /** Dropping an id nobody has changes nothing. */
  lemma {:induction false} WithoutAbsent(users: seq<User>, id: Id)
    requires forall i :: 0 <= i < |users| ==> users[i].id != id
    ensures Without(users, id) == users
  {
    if |users| > 0 {
      WithoutAbsent(users[1..], id);
      assert users == [users[0]] + users[1..];
    }
  }

  lemma {:induction false} ReplaceFacts(users: seq<User>, id: Id, u: User)
    requires Registered(users, id) && u.id == id
    ensures forall i :: 0 <= i < |users| ==> Replace(users, id, u)[i].id == users[i].id
    ensures UniqueIds(users) ==> forall i :: 0 <= i < |users| ==>
      Replace(users, id, u)[i] == (if users[i].id == id then u else users[i])
  {
    var r := Replace(users, id, u);
    if users[0].id == id {
      assert r == [u] + users[1..];
    } else {
      assert Registered(users[1..], id) by {
        var i :| 0 <= i < |users| && users[i].id == id;
        assert users[1..][i - 1].id == id;
      }
      ReplaceFacts(users[1..], id, u);
      assert r == [users[0]] + Replace(users[1..], id, u);
      forall i | 0 <= i < |users|
        ensures r[i].id == users[i].id
      {
        if i > 0 {
          assert r[i] == Replace(users[1..], id, u)[i - 1];
        }
      }
      if UniqueIds(users) {
        assert UniqueIds(users[1..]) by {
          forall i, j | 0 <= i < j < |users[1..]|
            ensures users[1..][i].id != users[1..][j].id
          {
            assert users[1..][i] == users[i + 1] && users[1..][j] == users[j + 1];
          }
        }
        forall i | 0 <= i < |users|
          ensures r[i] == (if users[i].id == id then u else users[i])
        {
          if i > 0 {
            assert r[i] == Replace(users[1..], id, u)[i - 1];
            assert users[1..][i - 1] == users[i];
          }
        }
      }
    }
  }

  // ---------------------------------------------------------------------------
  // Properties of the registry

  /**
    With unique ids, the broadcast sends each registered user, in registry
    order, the views of exactly the other users, in registry order; no list
    contains its recipient.
  */
  lemma BroadcastExact(users: seq<User>)
    requires UniqueIds(users)
    ensures forall i :: 0 <= i < |users| ==>
      Broadcast(users)[i] == Delivery(users[i].id, Downstream.OnlineUsers(Views(users[..i] + users[i + 1..])))
    ensures forall i, v :: 0 <= i < |users| && v in Broadcast(users)[i].msg.users ==> v.id != users[i].id
  {
    forall i | 0 <= i < |users|
      ensures Broadcast(users)[i] == Delivery(users[i].id, Downstream.OnlineUsers(Views(users[..i] + users[i + 1..])))
    {
      WithoutExact(users, i);
    }
    forall i, v | 0 <= i < |users| && v in Broadcast(users)[i].msg.users
      ensures v.id != users[i].id
    {
      WithoutMembers(users, users[i].id);
      var w := Without(users, users[i].id);
      var k :| 0 <= k < |w| && Views(w)[k] == v;
      assert w[k] in w;
    }
  }

  /** Closing removes exactly the closing user's record, keeping the others in order. */
  lemma CloseExact(users: seq<User>, k: nat)
    requires UniqueIds(users) && k < |users|
    ensures Close(users, users[k].id).users == users[..k] + users[k + 1..]
  {
    WithoutExact(users, k);
  }

  /** Connecting a newId id and then closing it gives back the registry it started from. */
  lemma ConnectThenClose(users: seq<User>, newId: Id, nameParam: string)
    requires !Registered(users, newId)
    ensures Close(Connect(users, newId, nameParam).users, newId).users == users
  {
    var c := Connect(users, newId, nameParam).users;
    assert c == users + [Last(c)];
    WithoutAppend(users, [Last(c)], newId);
    WithoutAbsent(users, newId);
    assert Without([Last(c)], newId) == [] + Without([], newId);
  }

  lemma {:induction false} WithoutAppend(a: seq<User>, b: seq<User>, id: Id)
    ensures Without(a + b, id) == Without(a, id) + Without(b, id)
  {
    if |a| == 0 {
      assert a + b == b;
    } else {
      assert (a + b)[1..] == a[1..] + b;
      WithoutAppend(a[1..], b, id);
    }
  }

  /** Every message a registered user sends keeps the registry's ids unique. */
  lemma HandleKeepsUnique(users: seq<User>, sender: Id, msg: Upstream.Msg, roomId: Id)
    requires UniqueIds(users) && Registered(users, sender)
    ensures UniqueIds(Handle(users, sender, msg, roomId).users)
  {
    var r := Handle(users, sender, msg, roomId);
    forall i, j | 0 <= i < j < |r.users|
      ensures r.users[i].id != r.users[j].id
    {
      assert r.users[i].id == users[i].id && r.users[j].id == users[j].id;
    }
  }
}
