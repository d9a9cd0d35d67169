/** The viewing renderer (viewer/renderer.js): it feeds incoming chunks to a
    single-consumer decoder through a first-in first-out queue, and keeps the
    inter-arrival jitter of the frames with a running average every ten
    frames. */
module ViewerRenderer {
  import opened Media
  import opened Stats
  import opened SourceBuffers

  /** The jitter list kept for receive times `t`: one entry per frame after
      the first, the gap to the frame before it. */
  function Jitters(t: seq<real>): (r: seq<real>)
    ensures |r| == if t == [] then 0 else |t| - 1
    ensures forall k :: 0 <= k < |r| ==> r[k] == t[k + 1] - t[k]
  {
    if |t| <= 1 then [] else Jitters(t[..|t| - 1]) + [t[|t| - 1] - t[|t| - 2]]
  }

  /** A new frame adds its gap to the frame before, if there is one. */
  lemma {:induction false} JittersSnoc(t: seq<real>, x: real)
    ensures Jitters(t + [x]) == if t == [] then [] else Jitters(t) + [x - t[|t| - 1]]
  {
    assert (t + [x])[..|t|] == t;
  }

  /** The gaps add up to the time between the first and the last frame. */
  lemma {:induction false} JittersTelescope(t: seq<real>)
    requires t != []
    ensures Sum(Jitters(t)) == t[|t| - 1] - t[0]
    decreases |t|
  {
    if |t| > 1 {
      var init := t[..|t| - 1];
      JittersTelescope(init);
      SumSnoc(Jitters(init), t[|t| - 1] - t[|t| - 2]);
    }
  }

  /** The average jitter over `n` frames is the time from the first to the
      last frame divided by `n - 1`. */
  lemma {:induction false} MeanJitter(t: seq<real>)
    requires |t| >= 2
    ensures Mean(Jitters(t)) == (t[|t| - 1] - t[0]) / ((|t| - 1) as real)
  {
    JittersTelescope(t);
  }

  /** `avgJitterBlocks` after frames received at `t`: each time the frame
      count reaches a multiple of 10, the average of the whole jitter list
      so far is appended. */
  function BlockAverages(t: seq<real>): seq<real>
  {
    if t == [] then []
    else BlockAverages(t[..|t| - 1]) + (if |t| % 10 == 0 then [Mean(Jitters(t))] else [])
  }

  /** A new frame adds a block average exactly when it brings the frame
      count to a multiple of 10. */
  lemma {:induction false} BlockAveragesSnoc(t: seq<real>, x: real)
    ensures BlockAverages(t + [x]) == BlockAverages(t) + BlockDue(t + [x], Jitters(t + [x]))
  {
    assert (t + [x])[..|t|] == t;
  }

  /** The block average frame count `|t|` adds, given the jitter list
      `gaps` of `t`. */
  function BlockDue(t: seq<real>, gaps: seq<real>): seq<real>
    requires gaps == Jitters(t)
  {
    if t != [] && |t| % 10 == 0 then [Mean(gaps)] else []
  }

  /** One block average per ten frames. */
  lemma {:induction false} BlockAveragesLength(t: seq<real>)
    ensures |BlockAverages(t)| == |t| / 10
    decreases |t|
  {
    if t != [] {
      BlockAveragesLength(t[..|t| - 1]);
    }
  }

  /** The `b`-th block average is not the average of the `b`-th block of ten
      gaps but the cumulative one: the time from the first frame to frame
      `10 b + 9`, over the `10 b + 9` gaps in between. */
  lemma {:induction false} BlockAverageIsCumulative(t: seq<real>, b: nat)
    requires b < |t| / 10
    ensures |BlockAverages(t)| == |t| / 10
    ensures BlockAverages(t)[b] == (t[10 * b + 9] - t[0]) / ((10 * b + 9) as real)
    decreases |t|
  {
    var init := t[..|t| - 1];
    BlockAveragesLength(t);
    BlockAveragesLength(init);
    if |t| % 10 == 0 && b == |t| / 10 - 1 {
      assert BlockAverages(t)[b] == Mean(Jitters(t));
      MeanJitter(t);
    } else {
      BlockAverageIsCumulative(init, b);
      assert BlockAverages(t)[b] == BlockAverages(init)[b];
    }
  }

  /** The decoder feed built in the `sourceopen` handler: `appendChunk`, the
      `updateend` listener and their array queue. */
  class Feed {
    const sourceBuffer: SourceBuffer
    var queue: seq<Chunk>
    var isUpdating: bool
    /** Every chunk handed to `appendBuffer`, accepted or not, in order. */
    ghost var Submitted: seq<Chunk>

    /** Every chunk passed to `appendChunk` from outside, in call order: the
        ones submitted, then the ones waiting. */
    ghost function Arrived(): seq<Chunk>
      reads this
    {
      Submitted + queue
    }

    /** The decoder threw on the last submission: `isUpdating` stays set and
        no `updateend` will ever clear it. */
    ghost predicate Stalled()
      reads this, sourceBuffer
    {
      isUpdating && !sourceBuffer.updating
    }

    /** An append is in flight only while `isUpdating` is set, and the
        decoder has accepted every submitted chunk except a rejected last
        one. */
    ghost predicate Accounting()
      reads this, sourceBuffer
    {
      (sourceBuffer.updating ==> isUpdating) &&
      (Stalled() ==> Submitted != [] && sourceBuffer.log == Submitted[..|Submitted| - 1]) &&
      (!Stalled() ==> sourceBuffer.log == Submitted)
    }

    /** Besides, chunks wait only while `isUpdating` is set. */
    ghost predicate Valid()
      reads this, sourceBuffer
    {
      Accounting() && (queue != [] ==> isUpdating)
    }

    /** An empty queue and a fresh idle decoder. */
    constructor ()
      ensures Valid() && fresh(sourceBuffer)
      ensures queue == [] && !isUpdating && Submitted == [] && sourceBuffer.log == []
    {
      sourceBuffer := new SourceBuffer();
      queue := [];
      isUpdating := false;
      Submitted := [];
    }

    /** `appendChunk(chunk)`: while an append is in flight the chunk is
        pushed on the queue; otherwise `isUpdating` is set and the chunk is
        handed to the decoder, which may throw (`accepted` false). Chunks
        may be waiting with both flags clear, as inside `updateend`. */
    method AppendChunk(chunk: Chunk, accepted: bool)
      requires Accounting()
      modifies this, sourceBuffer
      ensures Valid()
      ensures isUpdating
      ensures old(sourceBuffer.updating || isUpdating) ==>
        queue == old(queue) + [chunk] && Submitted == old(Submitted) &&
        sourceBuffer.updating == old(sourceBuffer.updating) && sourceBuffer.log == old(sourceBuffer.log)
      ensures !old(sourceBuffer.updating || isUpdating) ==>
        queue == old(queue) && Submitted == old(Submitted) + [chunk] &&
        sourceBuffer.updating == accepted &&
        sourceBuffer.log == old(sourceBuffer.log) + (if accepted then [chunk] else [])
    {
      if sourceBuffer.updating || isUpdating {
        queue := queue + [chunk];
      } else {
        isUpdating, Submitted := true, Submitted + [chunk];
        sourceBuffer.AppendBuffer(chunk, accepted);
      }
    }

    /** The in-flight append completes and `updateend` runs: `isUpdating` is
        cleared, and if the queue is not empty its head is shifted off and
        passed to `appendChunk`, which submits it at once since neither flag
        is set. */
    method OnUpdateEnd(accepted: bool)
      requires Valid()
      requires sourceBuffer.updating
      modifies this, sourceBuffer
      ensures Valid()
      ensures Arrived() == old(Arrived())
      ensures old(queue) == [] ==>
        !isUpdating && !sourceBuffer.updating &&
        queue == [] && Submitted == old(Submitted) && sourceBuffer.log == old(sourceBuffer.log)
      ensures old(queue) != [] ==>
        isUpdating && queue == old(queue)[1..] && Submitted == old(Submitted) + [old(queue)[0]] &&
        sourceBuffer.updating == accepted &&
        sourceBuffer.log == old(sourceBuffer.log) + (if accepted then [old(queue)[0]] else [])
    {
      sourceBuffer.Complete();
      isUpdating := false;
      if |queue| > 0 {
        var nextChunk := queue[0];
        queue := queue[1..];
        AppendChunk(nextChunk, accepted);
      }
    }
  }

  /** What reached the decoder is a prefix of what arrived, in arrival order:
      only the waiting chunks and a rejected last submission are missing. */
  lemma DecoderLogIsPrefix(f: Feed)
    requires f.Valid()
    ensures f.sourceBuffer.log <= f.Arrived()
    ensures |f.Arrived()| - |f.sourceBuffer.log| == |f.queue| + (if f.Stalled() then 1 else 0)
  {
    assert f.Submitted <= f.Arrived();
  }

  /** What the `video-frame` handler logs every ten frames. */
  datatype BlockReport = BlockReport(avgDecodeTime: real, avgJitter: real, overallAvgJitter: real)

  /** The module-level measurement lists and the decoder feed. */
  class Viewer {
    const feed: Feed
    var frameDecodeTimes: seq<real>
    var frameReceiveTimes: seq<real>
    var frameJitterValues: seq<real>
    var avgJitterBlocks: seq<real>

    /** The jitter list and the block averages are those of the receive
        times, with one decode time per frame. */
    ghost predicate Measured()
      reads this
    {
      frameJitterValues == Jitters(frameReceiveTimes) &&
      avgJitterBlocks == BlockAverages(frameReceiveTimes) &&
      |frameDecodeTimes| == |frameReceiveTimes|
    }

    /** Besides, one chunk passed to the feed per frame. */
    ghost predicate Valid()
      reads this, feed, feed.sourceBuffer
    {
      feed.Valid() && Measured() && |frameReceiveTimes| == |feed.Arrived()|
    }

    constructor ()
      ensures Valid() && fresh(feed) && fresh(feed.sourceBuffer)
      ensures frameReceiveTimes == [] && frameDecodeTimes == [] && avgJitterBlocks == []
      ensures !feed.isUpdating && !feed.sourceBuffer.updating && feed.queue == [] && feed.sourceBuffer.log == []
    {
      feed := new Feed();
      frameDecodeTimes, frameReceiveTimes, frameJitterValues, avgJitterBlocks := [], [], [], [];
    }

    /** `video-frame`: the receive time is logged and, from the second frame
        on, its gap to the previous one; the chunk is passed to
        `appendChunk` and the decode time logged. Every tenth frame the
        average decode time and the average jitter are reported, the latter
        is kept as a block average, and the mean of the block averages is
        reported too. */
    method OnFrame(chunk: Chunk, receivedTime: real, decodeTime: real, accepted: bool)
      returns (report: Option<BlockReport>)
      requires Valid()
      modifies this, feed, feed.sourceBuffer
      ensures Valid()
      ensures frameReceiveTimes == old(frameReceiveTimes) + [receivedTime]
      ensures frameDecodeTimes == old(frameDecodeTimes) + [decodeTime]
      ensures feed.Arrived() == old(feed.Arrived()) + [chunk]
      ensures feed.isUpdating
      ensures old(feed.sourceBuffer.updating || feed.isUpdating) ==>
        feed.queue == old(feed.queue) + [chunk] && feed.Submitted == old(feed.Submitted) &&
        feed.sourceBuffer.updating == old(feed.sourceBuffer.updating) &&
        feed.sourceBuffer.log == old(feed.sourceBuffer.log)
      ensures !old(feed.sourceBuffer.updating || feed.isUpdating) ==>
        feed.queue == old(feed.queue) && feed.Submitted == old(feed.Submitted) + [chunk] &&
        feed.sourceBuffer.updating == accepted &&
        feed.sourceBuffer.log == old(feed.sourceBuffer.log) + (if accepted then [chunk] else [])
      ensures report.Some? <==> |frameReceiveTimes| % 10 == 0
      ensures report.None? ==> avgJitterBlocks == old(avgJitterBlocks)
      ensures report.Some? ==>
        report.value.avgDecodeTime == Mean(frameDecodeTimes) &&
        report.value.avgJitter == Mean(frameJitterValues) &&
        avgJitterBlocks == old(avgJitterBlocks) + [report.value.avgJitter] &&
        report.value.overallAvgJitter == Mean(avgJitterBlocks)
    {
      RecordArrival(receivedTime);
      ghost var arrived := feed.Arrived();
      feed.AppendChunk(chunk, accepted);
      assert feed.Arrived() == arrived + [chunk];
      report := RecordDecode(decodeTime);
    }

    /** The first half of `video-frame`: the receive time and, from the
        second frame on, its gap to the previous frame are pushed. */
    method RecordArrival(receivedTime: real)
      requires Measured()
      modifies this
      ensures frameReceiveTimes == old(frameReceiveTimes) + [receivedTime]
      ensures frameJitterValues == Jitters(frameReceiveTimes)
      ensures BlockAverages(frameReceiveTimes) == avgJitterBlocks + BlockDue(frameReceiveTimes, frameJitterValues)
      ensures frameDecodeTimes == old(frameDecodeTimes) && avgJitterBlocks == old(avgJitterBlocks)
    {
      JittersSnoc(frameReceiveTimes, receivedTime);
      BlockAveragesSnoc(frameReceiveTimes, receivedTime);
      frameReceiveTimes := frameReceiveTimes + [receivedTime];
      if |frameReceiveTimes| > 1 {
        var lastDiff := receivedTime - frameReceiveTimes[|frameReceiveTimes| - 2];
        frameJitterValues := frameJitterValues + [lastDiff];
      }
    }

    /** The second half of `video-frame`: the decode time is pushed and,
        every tenth frame, the report is computed and the average jitter
        kept as a block average. */
    method RecordDecode(decodeTime: real) returns (report: Option<BlockReport>)
      requires frameReceiveTimes != [] && |frameDecodeTimes| + 1 == |frameReceiveTimes|
      requires frameJitterValues == Jitters(frameReceiveTimes)
      requires BlockAverages(frameReceiveTimes) == avgJitterBlocks + BlockDue(frameReceiveTimes, frameJitterValues)
      modifies this
      ensures Measured()
      ensures frameDecodeTimes == old(frameDecodeTimes) + [decodeTime]
      ensures frameReceiveTimes == old(frameReceiveTimes) && frameJitterValues == old(frameJitterValues)
      ensures report.Some? <==> |frameReceiveTimes| % 10 == 0
      ensures report.None? ==> avgJitterBlocks == old(avgJitterBlocks)
      ensures report.Some? ==>
        report.value.avgDecodeTime == Mean(frameDecodeTimes) &&
        report.value.avgJitter == Mean(frameJitterValues) &&
        avgJitterBlocks == old(avgJitterBlocks) + [report.value.avgJitter] &&
        report.value.overallAvgJitter == Mean(avgJitterBlocks)
    {
      frameDecodeTimes := frameDecodeTimes + [decodeTime];
      if |frameDecodeTimes| % 10 == 0 {
        var avgDecodeTime := Mean(frameDecodeTimes);
        var avgJitter := Mean(frameJitterValues);
        avgJitterBlocks := avgJitterBlocks + [avgJitter];
        var overallAvgJitter := Mean(avgJitterBlocks);
        report := Some(BlockReport(avgDecodeTime, avgJitter, overallAvgJitter));
      } else {
        report := None;
      }
    }
  }
}
