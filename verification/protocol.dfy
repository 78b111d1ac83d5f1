/**
  The data-channel wire protocol of the transfer engine (client/src/core/webrtc.ts):
  a file travels as one META frame, then its bytes cut into 64 KiB slices sent as
  binary frames, then one DONE frame. This module holds the frame vocabulary, the
  chunking of a file, the integer progress percentage, and the facts about them
  that the sender and the receiver share.
*/
module Protocol {
  import opened Common

  /** `CHUNK_SIZE`: bytes per binary frame. */
  const CHUNK_SIZE: nat := 64 * 1024
  /** `LOW_WATER`: the buffered-amount threshold at which a paused pump resumes. */
  const LOW_WATER: nat := 1 * 1024 * 1024
  /** `HIGH_WATER`: the pump sends only while the channel buffers less than this. */
  const HIGH_WATER: nat := 8 * 1024 * 1024

  /** `FileMeta`: the header announced before the bytes. */
  datatype FileMeta = FileMeta(name: string, size: nat, mime: string)

  /** A file: its name, MIME type and contents; its size is `|data|`. */
  datatype File = File(name: string, mime: string, data: seq<byte>)

  /**
    One data-channel message. `Meta` and `Done` are the JSON text frames
    `{type:"META",meta}` and `{type:"DONE"}`; `Binary` is an ArrayBuffer frame;
    `OtherText` is any other text frame, which the receiver ignores.
  */
  datatype Frame = Meta(meta: FileMeta) | Done | Binary(bytes: seq<byte>) | OtherText

  /** The header `sendFile` announces for `f`. */
  function MetaOf(f: File): FileMeta
  {
    FileMeta(f.name, |f.data|, f.mime)
  }

  /** `file.slice(offset, offset + CHUNK_SIZE)`: the next chunk, clipped at the end of the file. */
  function Slice(data: seq<byte>, offset: nat): (c: seq<byte>)
    requires offset <= |data|
    ensures |c| == Min(CHUNK_SIZE, |data| - offset)
    ensures offset < |data| ==> 0 < |c|
    ensures forall i :: 0 <= i < |c| ==> c[i] == data[offset + i]
  {
    data[offset..Min(offset + CHUNK_SIZE, |data|)]
  }

  /** The chunks the sender emits for `data` starting at byte `offset`, in order. */
  function ChunksFrom(data: seq<byte>, offset: nat): seq<seq<byte>>
    requires offset <= |data|
    decreases |data| - offset
  {
    if offset == |data| then []
    else
      var c := Slice(data, offset);
      [c] + ChunksFrom(data, offset + |c|)
  }

  /** The in-order concatenation of buffers (`new Blob(buffers)`). */
  function Concat(bufs: seq<seq<byte>>): seq<byte>
  {
    if |bufs| == 0 then [] else bufs[0] + Concat(bufs[1..])
  }

  /** Each chunk as a binary frame. */
  function Binaries(cs: seq<seq<byte>>): (fs: seq<Frame>)
    ensures |fs| == |cs|
  {
    if |cs| == 0 then [] else [Binary(cs[0])] + Binaries(cs[1..])
  }

  /** The complete frame sequence of one transfer of `f`. */
  function Wire(f: File): seq<Frame>
  {
    [Meta(MetaOf(f))] + Binaries(ChunksFrom(f.data, 0)) + [Done]
  }

  /** Integer progress: `floor(done * 100 / total)`. */
  function Percent(done: nat, total: nat): nat
    requires total > 0
  {
    done * 100 / total
  }

  /** The percentages reported after each chunk of `cs`, counting from `start` bytes. */
  function Percents(total: nat, start: nat, cs: seq<seq<byte>>): (ps: seq<nat>)
    requires total > 0
    ensures |ps| == |cs|
    decreases |cs|
  {
    if |cs| == 0 then []
    else [Percent(start + |cs[0]|, total)] + Percents(total, start + |cs[0]|, cs[1..])
  }

  // ---------------------------------------------------------------------------
  // Arithmetic of the percentage

  lemma MulLeMono(a: nat, b: nat, t: nat)
    requires a <= b
    ensures a * t <= b * t
  {
    assert b * t == a * t + (b - a) * t;
  }

  lemma DivLowerBound(x: nat, y: nat, t: nat)
    requires t > 0
    ensures x * t <= y ==> x <= y / t
  {
    var q := y / t;
    assert y == q * t + y % t;
    if x > q {
      MulLeMono(q + 1, x, t);
      assert (q + 1) * t == q * t + t;
    }
  }

  lemma MulLtCancel(x: nat, m: nat, t: nat)
    ensures x * t < m * t ==> x < m
  {
    if x >= m {
      MulLeMono(m, x, t);
    }
  }

  /** More bytes done never means a smaller percentage. */
  lemma PercentMonotone(a: nat, b: nat, t: nat)
    requires t > 0 && a <= b
    ensures Percent(a, t) <= Percent(b, t)
  {
    var q := a * 100 / t;
    assert q * t <= a * 100;
    MulLeMono(a, b, 100);
    DivLowerBound(q, b * 100, t);
  }

  /** Within the file the percentage is at most 100, and is 100 exactly at the end. */
  lemma PercentRange(a: nat, t: nat)
    requires 0 < t && a <= t
    ensures Percent(a, t) <= 100
    ensures Percent(a, t) == 100 <==> a == t
  {
    PercentMonotone(a, t, t);
    assert t * 100 / t == 100 by {
      assert t * 100 == 100 * t + 0;
    }
    if a < t {
      var q := a * 100 / t;
      assert q * t <= a * 100;
      MulLeMono(a + 1, t, 100);
      MulLtCancel(q, 100, t);
    }
  }

  // ---------------------------------------------------------------------------
  // Chunking

  lemma {:induction false} ConcatAppend(a: seq<seq<byte>>, b: seq<seq<byte>>)
    ensures Concat(a + b) == Concat(a) + Concat(b)
  {
    if |a| == 0 {
      assert a + b == b;
    } else {
      assert (a + b)[1..] == a[1..] + b;
      ConcatAppend(a[1..], b);
    }
  }

  /** The chunks from `offset` concatenate back to the file bytes from `offset`. */
  lemma {:induction false} ConcatChunks(data: seq<byte>, offset: nat)
    requires offset <= |data|
    ensures Concat(ChunksFrom(data, offset)) == data[offset..]
    decreases |data| - offset
  {
    if offset < |data| {
      var c := Slice(data, offset);
      var cs := ChunksFrom(data, offset);
      assert cs[1..] == ChunksFrom(data, offset + |c|);
      ConcatChunks(data, offset + |c|);
      assert data[offset..] == c + data[offset + |c|..];
    }
  }

  /** Every chunk is non-empty and at most 64 KiB, and every chunk but the last is exactly 64 KiB. */
  predicate WellSized(cs: seq<seq<byte>>)
  {
    forall i :: 0 <= i < |cs| ==> 0 < |cs[i]| <= CHUNK_SIZE && (i < |cs| - 1 ==> |cs[i]| == CHUNK_SIZE)
  }

  /** The chunking of any file from any offset is well sized. */
  lemma {:induction false} ChunkSizes(data: seq<byte>, offset: nat)
    requires offset <= |data|
    ensures WellSized(ChunksFrom(data, offset))
    decreases |data| - offset
  {
    if offset < |data| {
      var c := Slice(data, offset);
      ChunkSizes(data, offset + |c|);
      var cs := ChunksFrom(data, offset);
      var rest := ChunksFrom(data, offset + |c|);
      assert cs == [c] + rest;
      forall i | 0 <= i < |cs|
        ensures 0 < |cs[i]| <= CHUNK_SIZE && (i < |cs| - 1 ==> |cs[i]| == CHUNK_SIZE)
      {
        if i > 0 {
          assert cs[i] == rest[i - 1];
        } else if |rest| > 0 {
          assert offset + |c| < |data|;
        }
      }
    }
  }

  /** The number of chunks is the file size divided by 64 KiB, rounded up. */
  lemma {:induction false} ChunkCount(data: seq<byte>, offset: nat)
    requires offset <= |data|
    ensures |ChunksFrom(data, offset)| == (|data| - offset + CHUNK_SIZE - 1) / CHUNK_SIZE
    decreases |data| - offset
  {
    if offset < |data| {
      var c := Slice(data, offset);
      ChunkCount(data, offset + |c|);
    }
  }

  lemma {:induction false} BinariesAppend(a: seq<seq<byte>>, b: seq<seq<byte>>)
    ensures Binaries(a + b) == Binaries(a) + Binaries(b)
  {
    if |a| == 0 {
      assert a + b == b;
    } else {
      assert (a + b)[1..] == a[1..] + b;
      BinariesAppend(a[1..], b);
    }
  }

  /** The frames of a chunk list are all binary: none is a META or DONE. */
  lemma {:induction false} BinariesAreBinary(cs: seq<seq<byte>>)
    ensures forall i :: 0 <= i < |cs| ==> Binaries(cs)[i] == Binary(cs[i])
  {
    if |cs| > 0 {
      BinariesAreBinary(cs[1..]);
    }
  }

  // ---------------------------------------------------------------------------
  // Progress over chunks

  lemma {:induction false} PercentsAppend(t: nat, s: nat, a: seq<seq<byte>>, b: seq<seq<byte>>)
    requires t > 0
    ensures Percents(t, s, a + b) == Percents(t, s, a) + Percents(t, s + |Concat(a)|, b)
    decreases |a|
  {
    if |a| == 0 {
      assert a + b == b;
    } else {
      assert (a + b)[1..] == a[1..] + b;
      PercentsAppend(t, s + |a[0]|, a[1..], b);
    }
  }

  /**
    The progress reported over the chunks of `data` from `offset` never decreases,
    stays within [Percent(offset), 100], is below 100 on every chunk but the last,
    and is 100 on the last one.
  */
  lemma {:induction false} ChunkPercents(data: seq<byte>, offset: nat)
    requires offset <= |data| && 0 < |data|
    ensures var ps := Percents(|data|, offset, ChunksFrom(data, offset));
      && NonDecreasing(ps)
      && (forall i :: 0 <= i < |ps| ==> Percent(offset, |data|) <= ps[i] <= 100)
      && (forall i :: 0 <= i < |ps| - 1 ==> ps[i] < 100)
      && (|ps| > 0 ==> Last(ps) == 100)
    decreases |data| - offset
  {
    if offset < |data| {
      var c := Slice(data, offset);
      var next := offset + |c|;
      ChunkPercents(data, next);
      var cs := ChunksFrom(data, offset);
      var ps := Percents(|data|, offset, cs);
      var rest := Percents(|data|, next, ChunksFrom(data, next));
      assert cs[1..] == ChunksFrom(data, next);
      assert ps == [Percent(next, |data|)] + rest;
      PercentMonotone(offset, next, |data|);
      PercentRange(next, |data|);
      if next < |data| {
        assert |rest| > 0;
      } else {
        assert |rest| == 0;
      }
    }
  }
}
