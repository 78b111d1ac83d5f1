/**
  The connection lifecycle of a WebRTCManager (client/src/core/webrtc.ts): the
  `isChannelOpen` flag that gates sending, and the `wasEverConnected` flag that
  tells a connection that never came up ("connection failed") from one that went
  down after it was up ("peer disconnected").
*/
module Channel {
  import opened Common

  /**
    The manager's channel bookkeeping: whether a data channel object is attached
    (`dataChannel !== null`), `isChannelOpen`, and `wasEverConnected`.
  */
  datatype Link = Link(hasChannel: bool, isChannelOpen: bool, wasEverConnected: bool)

  /** A newly constructed manager. */
  const Fresh: Link := Link(false, false, false)

  /** `RTCPeerConnection.connectionState`. */
  datatype PeerState = New | Connecting | Connected | Disconnected | Failed | Closed

  /**
    What the platform reports: a data channel attached (created by the caller,
    or delivered by `ondatachannel` to the callee), the channel's `onopen` and
    `onclose`, and a connection-state change.
  */
  datatype Event = ChannelAttached | ChannelOpened | ChannelClosed | StateChanged(state: PeerState)

  /** The callbacks the manager fires: `onConnected`, `onDisconnected`, `onConnectionFailed`. */
  datatype Signal = OnConnected | OnDisconnected | OnConnectionFailed

  datatype Reaction = Reaction(link: Link, signal: Option<Signal>)

  /** A connection state of failed or closed ends the connection. */
  predicate Ends(e: Event)
  {
    e.StateChanged? && (e.state == Failed || e.state == Closed)
  }

  /** `sendFile` may proceed only with a channel attached and open. */
  predicate CanSend(l: Link)
  {
    l.hasChannel && l.isChannelOpen
  }

  /** One lifecycle event handled by the manager's installed handlers. */
  function Step(l: Link, e: Event): (r: Reaction)
    ensures r.signal == Some(OnConnected) <==> e.ChannelOpened?
    ensures r.signal == Some(OnDisconnected) <==> l.wasEverConnected && (e.ChannelClosed? || Ends(e))
    ensures r.signal == Some(OnConnectionFailed) <==> !l.wasEverConnected && Ends(e)
    ensures r.link.wasEverConnected <==> l.wasEverConnected || e.ChannelOpened?
    ensures r.link.isChannelOpen <==> e.ChannelOpened? || (l.isChannelOpen && r.signal != Some(OnDisconnected))
    ensures r.link.hasChannel <==> l.hasChannel || e.ChannelAttached?
  {
    match e
    case ChannelAttached => Reaction(l.(hasChannel := true), None)
    case ChannelOpened => Reaction(l.(isChannelOpen := true, wasEverConnected := true), Some(OnConnected))
    case ChannelClosed =>
      if l.wasEverConnected then Reaction(l.(isChannelOpen := false), Some(OnDisconnected))
      else Reaction(l, None)
    case StateChanged(s) =>
      if s == Failed || s == Closed then
        if l.wasEverConnected then Reaction(l.(isChannelOpen := false), Some(OnDisconnected))
        else Reaction(l, Some(OnConnectionFailed))
      else Reaction(l, None)
  }

  /** The link after a sequence of events, and the callback (if any) each event fired. */
  datatype History = History(link: Link, signals: seq<Option<Signal>>)

  function Run(l: Link, es: seq<Event>): (h: History)
    ensures |h.signals| == |es|
    decreases |es|
  {
    if |es| == 0 then History(l, [])
    else
      var h := Run(l, es[..|es| - 1]);
      var r := Step(h.link, es[|es| - 1]);
      History(r.link, h.signals + [r.signal])
  }

  /** Some event before position `i` opened the channel. */
  predicate OpenedBefore(es: seq<Event>, i: nat)
    requires i <= |es|
  {
    exists j :: 0 <= j < i && es[j] == ChannelOpened
  }

  /**
    Over any history of a fresh manager: `wasEverConnected` records exactly whether
    the channel ever opened, an open channel has been connected, "connection failed"
    is reported only while the channel has never opened, and "disconnected" only
    after it has.
  */
  lemma {:induction false} Classification(es: seq<Event>)
    ensures var h := Run(Fresh, es);
      && (h.link.wasEverConnected <==> OpenedBefore(es, |es|))
      && (h.link.isChannelOpen ==> h.link.wasEverConnected)
      && (forall i :: 0 <= i < |es| && h.signals[i] == Some(OnConnectionFailed) ==> !OpenedBefore(es, i))
      && (forall i :: 0 <= i < |es| && h.signals[i] == Some(OnDisconnected) ==> OpenedBefore(es, i))
    decreases |es|
  {
    if |es| > 0 {
      var n := |es| - 1;
      var pre := es[..n];
      Classification(pre);
      var h := Run(Fresh, pre);
      var r := Step(h.link, es[n]);
      assert OpenedBefore(pre, n) <==> OpenedBefore(es, n) by {
        forall j | 0 <= j < n
          ensures pre[j] == es[j]
        {
        }
      }
      forall i | 0 <= i < n
        ensures OpenedBefore(pre, i) <==> OpenedBefore(es, i)
      {
        forall j | 0 <= j < i
          ensures pre[j] == es[j]
        {
        }
      }
      if es[n] == ChannelOpened {
        assert OpenedBefore(es, |es|);
      } else {
        assert OpenedBefore(es, |es|) <==> OpenedBefore(es, n);
      }
    }
  }
}
