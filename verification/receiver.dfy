/**
  The receive side of the transfer engine: the data channel's `onmessage`
  handler of client/src/core/webrtc.ts. META resets the accumulation, binary
  frames are appended in arrival order, DONE hands over the reassembled file.
*/
module Reassembly {
  import opened Common
  import opened Protocol

  /** `incomingMeta`, `receivedBuffers` and `receivedSize`. */
  datatype Receiver = Receiver(meta: Option<FileMeta>, buffers: seq<seq<byte>>, receivedSize: nat)

  /** A newly constructed manager's receive state. */
  const Initial: Receiver := Receiver(None, [], 0)

  /**
    The value handed to `onReceiveProgress`: a whole percentage, or not a finite
    number when the announced size is 0.
  */
  datatype Progress = Pct(value: nat) | NotFinite

  /** The callbacks the handler fires: `onReceiveProgress` and `onFileReceived`. */
  datatype Notice = ReceiveProgress(progress: Progress) | FileReceived(file: File)

  datatype Reaction = Reaction(receiver: Receiver, notices: seq<Notice>)

  /** `Math.floor((receivedSize / size) * 100)`, taken in integers. */
  function ReceivePercent(received: nat, size: nat): Progress
  {
    if size == 0 then NotFinite else Pct(Percent(received, size))
  }

  /** The files among the notices, in order. */
  function Delivered(ns: seq<Notice>): seq<File>
  {
    if |ns| == 0 then []
    else (if ns[0].FileReceived? then [ns[0].file] else []) + Delivered(ns[1..])
  }

  /** The file a DONE hands over: the buffers in order, named and typed by the announced header. */
  function Assemble(m: FileMeta, buffers: seq<seq<byte>>): File
  {
    File(m.name, m.mime, Concat(buffers))
  }

  /** The `onmessage` handler for one frame. */
  function OnMessage(r: Receiver, f: Frame): (x: Reaction)
    ensures |Delivered(x.notices)| == (if f.Done? && r.meta.Some? then 1 else 0)
    ensures f.Meta? ==> x.receiver == Initial.(meta := Some(f.meta)) && x.notices == []
    ensures f.Binary? ==>
      && x.receiver.meta == r.meta
      && Concat(x.receiver.buffers) == Concat(r.buffers) + f.bytes
      && x.receiver.receivedSize == r.receivedSize + |f.bytes|
      && (r.meta.Some? <==> |x.notices| == 1)
      && (r.meta.Some? ==> x.notices[0] == ReceiveProgress(ReceivePercent(x.receiver.receivedSize, r.meta.value.size)))
    ensures f.Done? && r.meta.Some? ==>
      && x.notices == [FileReceived(File(r.meta.value.name, r.meta.value.mime, Concat(r.buffers)))]
      && x.receiver == Receiver(None, [], r.receivedSize)
    ensures (f.Done? && r.meta.None?) || f.OtherText? ==> x == Reaction(r, [])
  {
    match f
    case Meta(m) => Reaction(Receiver(Some(m), [], 0), [])
    case Done =>
      if r.meta.Some? then
        Reaction(Receiver(None, [], r.receivedSize), [FileReceived(Assemble(r.meta.value, r.buffers))])
      else Reaction(r, [])
    case OtherText => Reaction(r, [])
    case Binary(bytes) =>
      var size := r.receivedSize + |bytes|;
      ConcatAppend(r.buffers, [bytes]);
      assert Concat([bytes]) == bytes + Concat([]);
      Reaction(
        Receiver(r.meta, r.buffers + [bytes], size),
        if r.meta.Some? then [ReceiveProgress(ReceivePercent(size, r.meta.value.size))] else [])
  }

  /** The handler applied to frames in arrival order, notices concatenated. */
  function Feed(r: Receiver, fs: seq<Frame>): Reaction
    decreases |fs|
  {
    if |fs| == 0 then Reaction(r, [])
    else
      var x := OnMessage(r, fs[0]);
      var y := Feed(x.receiver, fs[1..]);
      Reaction(y.receiver, x.notices + y.notices)
  }

  /** The progress notices for chunks `cs` after `n` bytes, against announced size `size`. */
  function ProgressNotices(size: nat, n: nat, cs: seq<seq<byte>>): (ns: seq<Notice>)
    ensures |ns| == |cs|
    decreases |cs|
  {
    if |cs| == 0 then []
    else [ReceiveProgress(ReceivePercent(n + |cs[0]|, size))] + ProgressNotices(size, n + |cs[0]|, cs[1..])
  }

  /** Progress values as notices. */
  function AsNotices(ps: seq<nat>): (ns: seq<Notice>)
    ensures |ns| == |ps|
  {
    if |ps| == 0 then [] else [ReceiveProgress(Pct(ps[0]))] + AsNotices(ps[1..])
  }

  // ---------------------------------------------------------------------------

  lemma {:induction false} DeliveredAppend(a: seq<Notice>, b: seq<Notice>)
    ensures Delivered(a + b) == Delivered(a) + Delivered(b)
  {
    if |a| == 0 {
      assert a + b == b;
    } else {
      var head := if a[0].FileReceived? then [a[0].file] else [];
      assert (a + b)[0] == a[0];
      assert (a + b)[1..] == a[1..] + b;
      assert Delivered(a + b) == head + Delivered(a[1..] + b);
      DeliveredAppend(a[1..], b);
      assert Delivered(a) == head + Delivered(a[1..]);
    }
  }

  /** Feeding two frame sequences one after the other is feeding their concatenation. */
  lemma {:induction false} FeedAppend(r: Receiver, a: seq<Frame>, b: seq<Frame>)
    ensures var x := Feed(r, a);
      var y := Feed(x.receiver, b);
      Feed(r, a + b) == Reaction(y.receiver, x.notices + y.notices)
    decreases |a|
  {
    if |a| == 0 {
      assert a + b == b;
    } else {
      var x0 := OnMessage(r, a[0]);
      assert (a + b)[0] == a[0] && (a + b)[1..] == a[1..] + b;
      FeedAppend(x0.receiver, a[1..], b);
      var x1 := Feed(x0.receiver, a[1..]);
      var y := Feed(x1.receiver, b);
      assert Feed(r, a) == Reaction(x1.receiver, x0.notices + x1.notices);
      assert Feed(r, a + b) == Reaction(y.receiver, x0.notices + (x1.notices + y.notices));
      AppendAssoc(x0.notices, x1.notices, y.notices);
    }
  }

  /**
    With a header present, a run of binary frames is appended buffer by buffer,
    counted into `receivedSize`, and reported as one progress notice each.
  */
  lemma {:induction false} FeedChunks(m: FileMeta, bufs: seq<seq<byte>>, n: nat, cs: seq<seq<byte>>)
    ensures Feed(Receiver(Some(m), bufs, n), Binaries(cs))
      == Reaction(Receiver(Some(m), bufs + cs, n + |Concat(cs)|), ProgressNotices(m.size, n, cs))
    decreases |cs|
  {
    if |cs| == 0 {
      assert bufs + cs == bufs;
    } else {
      var r := Receiver(Some(m), bufs, n);
      var fs := Binaries(cs);
      assert fs[0] == Binary(cs[0]) && fs[1..] == Binaries(cs[1..]);
      var x := OnMessage(r, Binary(cs[0]));
      var r1 := Receiver(Some(m), bufs + [cs[0]], n + |cs[0]|);
      assert x == Reaction(r1, [ReceiveProgress(ReceivePercent(n + |cs[0]|, m.size))]);
      FeedChunks(m, bufs + [cs[0]], n + |cs[0]|, cs[1..]);
      var y := Feed(r1, Binaries(cs[1..]));
      assert Feed(r, fs) == Reaction(y.receiver, x.notices + y.notices);
      assert bufs + [cs[0]] + cs[1..] == bufs + cs;
      assert Concat(cs) == cs[0] + Concat(cs[1..]);
      assert n + |cs[0]| + |Concat(cs[1..])| == n + |Concat(cs)|;
      assert y.receiver == Receiver(Some(m), bufs + cs, n + |Concat(cs)|);
      assert ProgressNotices(m.size, n, cs) == x.notices + y.notices;
    }
  }

  /** For a non-empty announced size, the receive percentages are the same integer floor as the sender's. */
  lemma {:induction false} ProgressNoticesArePercents(size: nat, n: nat, cs: seq<seq<byte>>)
    requires size > 0
    ensures ProgressNotices(size, n, cs) == AsNotices(Percents(size, n, cs))
    decreases |cs|
  {
    if |cs| > 0 {
      ProgressNoticesArePercents(size, n + |cs[0]|, cs[1..]);
      assert Percents(size, n, cs)[1..] == Percents(size, n + |cs[0]|, cs[1..]);
    }
  }

  /** Without a DONE frame, no file is handed over, whatever the frames. */
  lemma {:induction false} NoDoneNoFile(r: Receiver, fs: seq<Frame>)
    requires forall i :: 0 <= i < |fs| ==> fs[i] != Done
    ensures Delivered(Feed(r, fs).notices) == []
    decreases |fs|
  {
    if |fs| > 0 {
      var x := OnMessage(r, fs[0]);
      NoDoneNoFile(x.receiver, fs[1..]);
      DeliveredAppend(x.notices, Feed(x.receiver, fs[1..]).notices);
    }
  }

  lemma {:induction false} AsNoticesHaveNoFile(ps: seq<nat>)
    ensures Delivered(AsNotices(ps)) == []
  {
    if |ps| > 0 {
      AsNoticesHaveNoFile(ps[1..]);
    }
  }
}
