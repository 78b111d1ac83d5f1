/**
  The JSON messages exchanged over the signaling WebSocket
  (server/src/server.ts, client/src/context/WebSocketContext.tsx). SDP
  descriptions and ICE candidates are opaque tokens passed through verbatim.
*/
module Messages {
  import opened Common

  /** A server-issued session id (a uuid). */
  type Id = string

  /** Optional device details a mobile client registers (server/src/types.ts). */
  datatype DeviceInfo = DeviceInfo(deviceName: Option<string>, deviceModel: Option<string>, manufacturer: Option<string>)

  /** One entry of an `online-users` list. */
  datatype UserView = UserView(
    id: Id, name: Option<string>,
    deviceName: Option<string>, deviceModel: Option<string>, manufacturer: Option<string>)

  /** JavaScript truthiness of an optional string: present and non-empty. */
  predicate Truthy(s: Option<string>)
  {
    s.Some? && s.value != ""
  }
}

/** Client-to-server messages, one constructor per `type`. */
module Upstream {
  import opened Messages

  /**
    `register-name` carries its name as a string; an empty string stands for a
    missing or falsy `name`. `Unrecognized(kind)` is a message whose `type` is
    none of the others; a well-formed value never carries a known type there
    (`KnownKind`).
  */
  datatype Msg =
    | RegisterDevice(deviceInfo: Common.Option<DeviceInfo>)
    | RegisterName(name: string)
    | RequestConnection(to: Id)
    | AcceptConnection(from: Id)
    | RejectConnection(to: Id)
    | CancelConnection(to: Id)
    | PeerDisconnect(to: Id)
    | ConnectionTimeout(to: Id)
    | Offer(to: Id, sdp: string)
    | Answer(to: Id, sdp: string)
    | IceCandidate(to: Id, candidate: string)
    | Unrecognized(kind: string)
  {
    /** The message's `type` field. */
    function Type(): string
    {
      match this
      case RegisterDevice(_) => "register-device"
      case RegisterName(_) => "register-name"
      case RequestConnection(_) => "request-connection"
      case AcceptConnection(_) => "accept-connection"
      case RejectConnection(_) => "reject-connection"
      case CancelConnection(_) => "cancel-connection"
      case PeerDisconnect(_) => "peer-disconnect"
      case ConnectionTimeout(_) => "connection-timeout"
      case Offer(_, _) => "offer"
      case Answer(_, _) => "answer"
      case IceCandidate(_, _) => "ice-candidate"
      case Unrecognized(k) => k
    }

    /** A `type` some other constructor stands for. */
    static predicate KnownKind(kind: string)
    {
      kind in {"register-device", "register-name", "request-connection", "accept-connection",
               "reject-connection", "cancel-connection", "peer-disconnect", "connection-timeout",
               "offer", "answer", "ice-candidate"}
    }

    /** Each message has exactly one constructor for its `type`. */
    predicate WellFormed()
    {
      Unrecognized? ==> !KnownKind(kind)
    }

    /** Messages the relay passes on to the peer named in `to`. */
    predicate Relayed()
    {
      RejectConnection? || CancelConnection? || PeerDisconnect? || ConnectionTimeout?
      || Offer? || Answer? || IceCandidate?
    }
  }
}

/** Server-to-client messages, one constructor per `type`. */
module Downstream {
  import opened Common
  import opened Messages

  /**
    `Unrecognized(kind)` is any other `type`, which the client ignores; a
    well-formed value never carries a known type there (`KnownKind`).
  */
  datatype Msg =
    | YourId(id: Id, name: Option<string>)
    | OnlineUsers(users: seq<UserView>)
    | IncomingRequest(from: Id, fromName: Option<string>, deviceInfo: Option<DeviceInfo>)
    | WebrtcStart(roomId: Id, otherUser: Id, isCaller: bool)
    | ConnectionRejected(from: Id)
    | CancelConnection(from: Id)
    | PeerDisconnect(from: Id)
    | ConnectionTimeout(from: Id)
    | Offer(from: Id, sdp: string)
    | Answer(from: Id, sdp: string)
    | IceCandidate(from: Id, candidate: string)
    | Unrecognized(kind: string)
  {
    /** A `type` some other constructor stands for. */
    static predicate KnownKind(kind: string)
    {
      kind in {"your-id", "online-users", "incoming-request", "webrtc-start", "connection-rejected",
               "cancel-connection", "peer-disconnect", "connection-timeout", "offer", "answer", "ice-candidate"}
    }

    /** Each message has exactly one constructor for its `type`. */
    predicate WellFormed()
    {
      Unrecognized? ==> !KnownKind(kind)
    }

    /** The message's `type` field. */
    function Type(): string
    {
      match this
      case YourId(_, _) => "your-id"
      case OnlineUsers(_) => "online-users"
      case IncomingRequest(_, _, _) => "incoming-request"
      case WebrtcStart(_, _, _) => "webrtc-start"
      case ConnectionRejected(_) => "connection-rejected"
      case CancelConnection(_) => "cancel-connection"
      case PeerDisconnect(_) => "peer-disconnect"
      case ConnectionTimeout(_) => "connection-timeout"
      case Offer(_, _) => "offer"
      case Answer(_, _) => "answer"
      case IceCandidate(_, _) => "ice-candidate"
      case Unrecognized(k) => k
    }
  }
}
