/**
  The send side of the transfer engine: `sendFile` and its `pump`
  (client/src/core/webrtc.ts). The channel's `bufferedAmount` is an input: each
  run of the pump reads it through `buffered`, where `buffered(j)` is the value
  seen at the j-th evaluation of the loop condition in that run. Any pattern of
  draining and any number of pauses is therefore some choice of these inputs.
*/
module Sender {
  import opened Common
  import opened Protocol
  import Channel

  /**
    The state `sendFile` leaves between pump runs: the file, the next `offset`,
    the channel's `bufferedAmountLowThreshold`, whether `onbufferedamountlow` is
    the pump (`resumeOnLow`), and whether DONE went out and the promise resolved.
  */
  datatype Pump = Pump(file: File, offset: nat, lowThreshold: nat, resumeOnLow: bool, done: bool)

  /** A pump state together with the frames sent and progress values reported so far. */
  datatype Emit = Emit(pump: Pump, frames: seq<Frame>, progress: seq<nat>)

  /** `sendFile` throws "DataChannel not open". */
  datatype SendError = ChannelNotOpen

  /** What one run of the `while` loop sends: its chunks and the offset it stops at. */
  datatype Burst = Burst(chunks: seq<seq<byte>>, offset: nat)

  /**
    The `while (offset < file.size && bufferedAmount < HIGH_WATER)` loop, starting
    at `offset` with the k-th reading of the buffered amount: the chunks it sends
    and the offset it stops at. The percentage reported after each chunk is a
    function of the chunks sent, so `RunPump` computes it from them.
  */
  function Loop(data: seq<byte>, offset: nat, buffered: nat -> nat, k: nat): (b: Burst)
    requires offset <= |data|
    ensures offset <= b.offset <= |data|
    decreases |data| - offset
  {
    if offset < |data| && buffered(k) < HIGH_WATER then
      var c := Slice(data, offset);
      var rest := Loop(data, offset + |c|, buffered, k + 1);
      Burst([c] + rest.chunks, rest.offset)
    else
      Burst([], offset)
  }

  /** The loop sends, in order, exactly the chunks owed between its start and stop offsets. */
  lemma {:induction false} LoopChunks(data: seq<byte>, offset: nat, buffered: nat -> nat, k: nat)
    requires offset <= |data|
    ensures var b := Loop(data, offset, buffered, k);
      ChunksFrom(data, offset) == b.chunks + ChunksFrom(data, b.offset)
    decreases |data| - offset
  {
    var b := Loop(data, offset, buffered, k);
    if offset < |data| && buffered(k) < HIGH_WATER {
      var c := Slice(data, offset);
      var rest := Loop(data, offset + |c|, buffered, k + 1);
      LoopChunks(data, offset + |c|, buffered, k + 1);
      assert b == Burst([c] + rest.chunks, rest.offset);
      assert ChunksFrom(data, offset) == [c] + ChunksFrom(data, offset + |c|);
      AppendAssoc([c], rest.chunks, ChunksFrom(data, rest.offset));
    } else {
      assert b == Burst([], offset);
      assert [] + ChunksFrom(data, offset) == ChunksFrom(data, offset);
    }
  }

  /** The loop sends a chunk only after a reading below the high-water mark. */
  lemma {:induction false} LoopBelowAt(data: seq<byte>, offset: nat, buffered: nat -> nat, k: nat, j: nat)
    requires offset <= |data|
    requires k <= j < k + |Loop(data, offset, buffered, k).chunks|
    ensures buffered(j) < HIGH_WATER
    decreases |data| - offset
  {
    var c := Slice(data, offset);
    if j > k {
      var rest := Loop(data, offset + |c|, buffered, k + 1);
      assert |Loop(data, offset, buffered, k).chunks| == 1 + |rest.chunks|;
      LoopBelowAt(data, offset + |c|, buffered, k + 1, j);
    }
  }

  /** When the loop stops with bytes left, the reading that stopped it is at or above the high-water mark. */
  lemma {:induction false} LoopStopsHigh(data: seq<byte>, offset: nat, buffered: nat -> nat, k: nat)
    requires offset <= |data|
    ensures var b := Loop(data, offset, buffered, k);
      b.offset < |data| ==> buffered(k + |b.chunks|) >= HIGH_WATER
    decreases |data| - offset
  {
    if offset < |data| && buffered(k) < HIGH_WATER {
      var c := Slice(data, offset);
      var rest := Loop(data, offset + |c|, buffered, k + 1);
      LoopStopsHigh(data, offset + |c|, buffered, k + 1);
      var b := Loop(data, offset, buffered, k);
      assert b.offset == rest.offset && |b.chunks| == 1 + |rest.chunks|;
    }
  }

  /**
    The loop sends only after readings below the high-water mark, and when it
    stops with bytes left, the reading that stopped it is at or above the mark.
  */
  lemma LoopReadings(data: seq<byte>, offset: nat, buffered: nat -> nat, k: nat)
    requires offset <= |data|
    ensures var b := Loop(data, offset, buffered, k);
      && (forall j :: k <= j < k + |b.chunks| ==> buffered(j) < HIGH_WATER)
      && (b.offset < |data| ==> buffered(k + |b.chunks|) >= HIGH_WATER)
  {
    forall j | k <= j < k + |Loop(data, offset, buffered, k).chunks|
      ensures buffered(j) < HIGH_WATER
    {
      LoopBelowAt(data, offset, buffered, k, j);
    }
    LoopStopsHigh(data, offset, buffered, k);
  }

  /** Pump states that can exist between runs. */
  predicate Valid(p: Pump)
  {
    && p.offset <= |p.file.data|
    && p.lowThreshold == LOW_WATER
    && (p.done <==> p.offset == |p.file.data|)
    && (p.resumeOnLow <==> !p.done)
  }

  /** The frames `p` has yet to send. */
  function Pending(p: Pump): seq<Frame>
    requires p.offset <= |p.file.data|
  {
    Binaries(ChunksFrom(p.file.data, p.offset)) + (if p.done then [] else [Done])
  }

  /** The progress values `p` has yet to report. */
  function PendingProgress(p: Pump): seq<nat>
    requires p.offset <= |p.file.data|
  {
    if |p.file.data| == 0 then [] else Percents(|p.file.data|, p.offset, ChunksFrom(p.file.data, p.offset))
  }

  /** Every progress value a complete send of `f` reports, in order. */
  function FullProgress(f: File): seq<nat>
  {
    if |f.data| == 0 then [] else Percents(|f.data|, 0, ChunksFrom(f.data, 0))
  }

  /**
    One run of `pump`: the loop, then either re-install the pump as the
    low-buffer handler (bytes remain) or send DONE and clear the handler.
  */
  function RunPump(p: Pump, buffered: nat -> nat): (e: Emit)
    requires p.offset <= |p.file.data| && p.lowThreshold == LOW_WATER && !p.done
    ensures Valid(e.pump) && e.pump.file == p.file && p.offset <= e.pump.offset
    ensures e.frames + Pending(e.pump) == Pending(p)
    ensures e.progress + PendingProgress(e.pump) == PendingProgress(p)
  {
    var data := p.file.data;
    var b := Loop(data, p.offset, buffered, 0);
    LoopChunks(data, p.offset, buffered, 0);
    LoopAccounting(data, p.offset, b);
    var sent := Binaries(b.chunks);
    var owed := Binaries(ChunksFrom(data, b.offset));
    var progress := if |data| == 0 then [] else Percents(|data|, p.offset, b.chunks);
    if b.offset < |data| then
      AppendAssoc(sent, owed, [Done]);
      Emit(p.(offset := b.offset, resumeOnLow := true), sent, progress)
    else
      assert owed == [];
      Emit(p.(offset := b.offset, resumeOnLow := false, done := true), sent + [Done], progress)
  }

  /**
    A pump run sends one chunk, and reports one percentage, per reading below
    the high-water mark; when it pauses, the reading after the last chunk is at
    or above the mark.
  */
  lemma RunPumpReadings(p: Pump, buffered: nat -> nat)
    requires p.offset <= |p.file.data| && p.lowThreshold == LOW_WATER && !p.done
    ensures var e := RunPump(p, buffered);
      && (forall j :: 0 <= j < |e.progress| ==> buffered(j) < HIGH_WATER)
      && (e.pump.resumeOnLow ==> buffered(|e.progress|) >= HIGH_WATER)
  {
    var data := p.file.data;
    var b := Loop(data, p.offset, buffered, 0);
    LoopChunks(data, p.offset, buffered, 0);
    LoopReadings(data, p.offset, buffered, 0);
    var e := RunPump(p, buffered);
    assert e.pump.offset == b.offset && |e.progress| == |b.chunks|;
  }

  lemma ChunksFromEnd(data: seq<byte>)
    ensures ChunksFrom(data, |data|) == []
  {
  }

  /** What a loop run sends splits the frames and progress still to come at its stopping offset. */
  lemma LoopAccounting(data: seq<byte>, offset: nat, b: Burst)
    requires offset <= b.offset <= |data|
    requires ChunksFrom(data, offset) == b.chunks + ChunksFrom(data, b.offset)
    ensures ChunksFrom(data, |data|) == []
    ensures |data| == 0 ==> b.chunks == []
    ensures Binaries(ChunksFrom(data, offset)) == Binaries(b.chunks) + Binaries(ChunksFrom(data, b.offset))
    ensures |data| > 0 ==>
      Percents(|data|, offset, ChunksFrom(data, offset))
      == Percents(|data|, offset, b.chunks) + Percents(|data|, b.offset, ChunksFrom(data, b.offset))
  {
    ChunksFromEnd(data);
    BinariesAppend(b.chunks, ChunksFrom(data, b.offset));
    if |data| > 0 {
      ConcatChunks(data, offset);
      ConcatChunks(data, b.offset);
      ConcatAppend(b.chunks, ChunksFrom(data, b.offset));
      assert data[offset..] == Concat(b.chunks) + data[b.offset..];
      assert |Concat(b.chunks)| == b.offset - offset;
      PercentsAppend(|data|, offset, b.chunks, ChunksFrom(data, b.offset));
    }
  }

  /**
    `sendFile(file)`: throws unless a channel is attached and open; otherwise
    sends META, sets the low-water threshold, and runs the pump once.
  */
  function StartSend(link: Channel.Link, file: File, buffered: nat -> nat): (r: Result<Emit, SendError>)
    ensures r.Failure? <==> !Channel.CanSend(link)
    ensures r.Success? ==> var e := r.value;
      && Valid(e.pump) && e.pump.file == file
      && |e.frames| > 0 && e.frames[0] == Meta(MetaOf(file))
      && e.frames + Pending(e.pump) == Wire(file)
      && e.progress + PendingProgress(e.pump) == FullProgress(file)
  {
    if !link.hasChannel || !link.isChannelOpen then Failure(ChannelNotOpen)
    else
      var e := RunPump(Pump(file, 0, LOW_WATER, false, false), buffered);
      AppendAssoc([Meta(MetaOf(file))], e.frames, Pending(e.pump));
      Success(Emit(e.pump, [Meta(MetaOf(file))] + e.frames, e.progress))
  }

  /**
    The channel's `bufferedamountlow` event: runs the pump if it is installed as
    the handler, and does nothing once the handler has been cleared.
  */
  function OnBufferedAmountLow(p: Pump, buffered: nat -> nat): (e: Emit)
    requires Valid(p)
    ensures Valid(e.pump) && e.pump.file == p.file && p.offset <= e.pump.offset
    ensures e.frames + Pending(e.pump) == Pending(p)
    ensures e.progress + PendingProgress(e.pump) == PendingProgress(p)
    ensures p.done ==> e == Emit(p, [], [])
  {
    if p.resumeOnLow then RunPump(p, buffered) else Emit(p, [], [])
  }

  /**
    A whole send: `sendFile` with the first pump run reading `first`, then one
    low-buffer event per element of `resumes`. Every interleaving of pauses and
    drains of the channel is one such run.
  */
  function SendRun(link: Channel.Link, file: File, first: nat -> nat, resumes: seq<nat -> nat>): (r: Result<Emit, SendError>)
    ensures r.Failure? <==> !Channel.CanSend(link)
    ensures r.Success? ==> var e := r.value;
      && Valid(e.pump) && e.pump.file == file
      && e.frames + Pending(e.pump) == Wire(file)
      && e.progress + PendingProgress(e.pump) == FullProgress(file)
    decreases |resumes|
  {
    if |resumes| == 0 then StartSend(link, file, first)
    else
      match SendRun(link, file, first, resumes[..|resumes| - 1])
      case Failure(err) => Failure(err)
      case Success(e) =>
        var e2 := OnBufferedAmountLow(e.pump, resumes[|resumes| - 1]);
        AppendAssoc(e.frames, e2.frames, Pending(e2.pump));
        AppendAssoc(e.progress, e2.progress, PendingProgress(e2.pump));
        Success(Emit(e2.pump, e.frames + e2.frames, e.progress + e2.progress))
  }

  /** A prefix of a progress trace that ends at 100 and is below 100 before that. */
  lemma ProgressPrefix(pre: seq<nat>, rest: seq<nat>)
    requires NonDecreasing(pre + rest)
    requires forall i :: 0 <= i < |pre + rest| ==> (pre + rest)[i] <= 100
    requires forall i :: 0 <= i < |pre + rest| - 1 ==> (pre + rest)[i] < 100
    requires |pre + rest| > 0 ==> Last(pre + rest) == 100
    ensures NonDecreasing(pre)
    ensures forall i :: 0 <= i < |pre| ==> pre[i] <= 100
    ensures forall i :: 0 <= i < |pre| && pre[i] == 100 ==> |rest| == 0 && i == |pre| - 1
    ensures |rest| == 0 && |pre| > 0 ==> Last(pre) == 100
  {
    var full := pre + rest;
    forall i | 0 <= i < |pre|
      ensures pre[i] == full[i]
    {
    }
    if |rest| == 0 {
      assert full == pre;
    }
  }

  /**
    Send progress over any run: never decreases, never exceeds 100, reaches 100
    only on the final chunk, and does reach it once a non-empty file is done.
  */
  lemma SendProgress(link: Channel.Link, file: File, first: nat -> nat, resumes: seq<nat -> nat>)
    requires Channel.CanSend(link)
    ensures var e := SendRun(link, file, first, resumes).value;
      && NonDecreasing(e.progress)
      && (forall i :: 0 <= i < |e.progress| ==> e.progress[i] <= 100)
      && (forall i :: 0 <= i < |e.progress| && e.progress[i] == 100 ==> e.pump.done && i == |e.progress| - 1)
      && (e.pump.done && |file.data| > 0 ==> |e.progress| > 0 && Last(e.progress) == 100)
  {
    var e := SendRun(link, file, first, resumes).value;
    var rest := PendingProgress(e.pump);
    if |file.data| > 0 {
      ChunkPercents(file.data, 0);
      ProgressPrefix(e.progress, rest);
      if !e.pump.done {
        ChunkCount(file.data, e.pump.offset);
        assert |rest| > 0;
      } else {
        ChunksFromEnd(file.data);
        assert |rest| == 0;
      }
    } else {
      assert |e.progress + rest| == 0;
    }
  }

  /** With the channel never at the high-water mark, the first pump run sends the whole file and DONE. */
  lemma NoBackpressureFinishes(link: Channel.Link, file: File, buffered: nat -> nat)
    requires Channel.CanSend(link)
    requires forall j :: buffered(j) < HIGH_WATER
    ensures StartSend(link, file, buffered).value.pump.done
    ensures StartSend(link, file, buffered).value.frames == Wire(file)
  {
    var e := StartSend(link, file, buffered).value;
    var b := Loop(file.data, 0, buffered, 0);
    LoopChunks(file.data, 0, buffered, 0);
    LoopReadings(file.data, 0, buffered, 0);
    assert b.offset == |file.data|;
    ChunksFromEnd(file.data);
  }

  /**
    A low-buffer event (the channel has drained below the threshold, hence below
    the high-water mark) while bytes remain sends at least one more chunk.
  */
  lemma ResumeAdvances(p: Pump, buffered: nat -> nat)
    requires Valid(p) && !p.done
    requires buffered(0) <= p.lowThreshold
    ensures OnBufferedAmountLow(p, buffered).pump.offset > p.offset
    ensures |OnBufferedAmountLow(p, buffered).progress| > 0
  {
    var b := Loop(p.file.data, p.offset, buffered, 0);
    LoopChunks(p.file.data, p.offset, buffered, 0);
    LoopReadings(p.file.data, p.offset, buffered, 0);
    assert |b.chunks| > 0;
  }
}
