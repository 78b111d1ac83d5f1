/**
  The two halves of the transfer engine put together: whatever the sender puts
  on the channel, in whatever bursts the buffered-amount watermarks allow, the
  receiver turns back into exactly the file that was sent.
*/
module Transfer {
  import opened Common
  import opened Protocol
  import opened Reassembly
  import Sender
  import Channel

  /**
    The complete frame sequence of a file, fed to a receiver in any state, hands
    over exactly that file once, reports the same percentages the sender reports,
    and leaves the receiver empty with `receivedSize` at the file size.
  */
  lemma {:induction false} RoundTrip(f: File, r: Receiver)
    ensures Feed(r, Wire(f))
      == Reaction(Receiver(None, [], |f.data|), AsNotices(Sender.FullProgress(f)) + [FileReceived(f)])
  {
    var m := MetaOf(f);
    var cs := ChunksFrom(f.data, 0);
    var head := [Meta(m)];
    var body := Binaries(cs);
    assert Wire(f) == head + body + [Done];
    FeedAppend(r, head + body, [Done]);
    FeedAppend(r, head, body);
    var x := Feed(r, head);
    assert head[1..] == [];
    assert x == Reaction(Receiver(Some(m), [], 0), []);
    FeedChunks(m, [], 0, cs);
    ConcatChunks(f.data, 0);
    assert f.data[0..] == f.data;
    assert [] + cs == cs;
    var y := Feed(x.receiver, body);
    assert y.receiver == Receiver(Some(m), cs, |f.data|);
    var z := Feed(y.receiver, [Done]);
    assert [Done][1..] == [];
    assert File(m.name, m.mime, Concat(cs)) == f;
    assert OnMessage(y.receiver, Done) == Reaction(Receiver(None, [], |f.data|), [FileReceived(f)]);
    assert z == Reaction(Receiver(None, [], |f.data|), [FileReceived(f)]);
    if |f.data| > 0 {
      ProgressNoticesArePercents(|f.data|, 0, cs);
    } else {
      assert cs == [];
    }
  }

  /** A second DONE after a complete transfer is ignored: the file is handed over once. */
  lemma DuplicateDoneIgnored(f: File, r: Receiver)
    ensures Feed(r, Wire(f) + [Done]) == Feed(r, Wire(f))
  {
    RoundTrip(f, r);
    FeedAppend(r, Wire(f), [Done]);
    assert [Done][1..] == [];
  }

  /** Every frame of the wire sequence before its last is a META or a binary frame. */
  lemma WireBeforeDone(f: File)
    ensures forall i :: 0 <= i < |Wire(f)| - 1 ==> Wire(f)[i] != Done
  {
    var cs := ChunksFrom(f.data, 0);
    BinariesAreBinary(cs);
    forall i | 0 <= i < |Wire(f)| - 1
      ensures Wire(f)[i] != Done
    {
      if i > 0 {
        assert Wire(f)[i] == Binaries(cs)[i - 1];
      }
    }
  }

  /**
    The headline property. For any send over an open channel, with any pattern of
    backpressure pauses and resumptions: once the sender is done, what it sent is
    the file's wire sequence and the receiver hands over exactly that file; before
    that, the receiver hands over nothing.
  */
  lemma SendThenReceive(link: Channel.Link, f: File, first: nat -> nat, resumes: seq<nat -> nat>, r: Receiver)
    requires Channel.CanSend(link)
    ensures var e := Sender.SendRun(link, f, first, resumes).value;
      && (e.pump.done ==> e.frames == Wire(f) && Delivered(Feed(r, e.frames).notices) == [f])
      && (!e.pump.done ==> Delivered(Feed(r, e.frames).notices) == [])
  {
    var e := Sender.SendRun(link, f, first, resumes).value;
    var pending := Sender.Pending(e.pump);
    if e.pump.done {
      Sender.ChunksFromEnd(f.data);
      assert pending == [];
      assert e.frames == Wire(f);
      RoundTrip(f, r);
      AsNoticesHaveNoFile(Sender.FullProgress(f));
      DeliveredAppend(AsNotices(Sender.FullProgress(f)), [FileReceived(f)]);
      assert Delivered([FileReceived(f)]) == [f] + Delivered([]);
    } else {
      WireBeforeDone(f);
      assert |pending| > 0;
      forall i | 0 <= i < |e.frames|
        ensures e.frames[i] != Done
      {
        assert e.frames[i] == Wire(f)[i];
      }
      NoDoneNoFile(r, e.frames);
    }
  }

  /** On a non-empty file, the last progress the receiver reports before the file is 100. */
  lemma ReceiveReaches100(f: File, r: Receiver)
    requires |f.data| > 0
    ensures var ns := Feed(r, Wire(f)).notices;
      |ns| >= 2 && ns[|ns| - 2] == ReceiveProgress(Pct(100))
  {
    RoundTrip(f, r);
    var ps := Sender.FullProgress(f);
    ChunkPercents(f.data, 0);
    ChunkCount(f.data, 0);
    assert |ps| > 0;
    AsNoticesLast(ps);
  }

  lemma {:induction false} AsNoticesLast(ps: seq<nat>)
    requires |ps| > 0
    ensures AsNotices(ps)[|ps| - 1] == ReceiveProgress(Pct(Last(ps)))
  {
    if |ps| > 1 {
      AsNoticesLast(ps[1..]);
      assert AsNotices(ps)[|ps| - 1] == AsNotices(ps[1..])[|ps| - 2];
    }
  }
}
