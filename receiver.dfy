/** The receiving renderer (receiver/renderer.js): it feeds incoming chunks to
    a single-consumer decoder through a ring queue, measures how far each
    chunk arrives from its playback schedule, keeps every received chunk in a
    ring, and writes them out merged when the transmission ends. */
module ReceiverRenderer {
  import opened Media
  import opened Stats
  import opened Rings
  import opened SourceBuffers

  /** The schedule deltas logged for frames arriving at `arrivals` with
      declared `durations`: each frame's arrival time minus the first arrival
      time advanced by every duration declared so far, its own included. */
  function Deltas(arrivals: seq<real>, durations: seq<real>): (r: seq<real>)
    requires |arrivals| == |durations|
    ensures |r| == |arrivals|
  {
    if arrivals == [] then []
    else
      var n := |arrivals|;
      Deltas(arrivals[..n - 1], durations[..n - 1]) + [arrivals[n - 1] - (arrivals[0] + Sum(durations))]
  }

  /** The `k`-th delta is `t_k - (t_0 + dur_0 + ... + dur_k)`. */
  lemma {:induction false} DeltaAt(arrivals: seq<real>, durations: seq<real>, k: nat)
    requires k < |arrivals| == |durations|
    ensures Deltas(arrivals, durations)[k] == arrivals[k] - (arrivals[0] + Sum(durations[..k + 1]))
    decreases |arrivals|
  {
    var n := |arrivals|;
    if k == n - 1 {
      assert durations[..k + 1] == durations;
    } else {
      var a, d := arrivals[..n - 1], durations[..n - 1];
      DeltaAt(a, d, k);
      assert d[..k + 1] == durations[..k + 1];
    }
  }

  /** Logging one more frame keeps the earlier deltas and appends the new
      one. */
  lemma {:induction false} DeltasSnoc(arrivals: seq<real>, durations: seq<real>, t: real, d: real)
    requires |arrivals| == |durations|
    ensures Deltas(arrivals + [t], durations + [d])
         == Deltas(arrivals, durations) + [t - ((arrivals + [t])[0] + Sum(durations + [d]))]
  {
    var a, ds := arrivals + [t], durations + [d];
    assert a[..|arrivals|] == arrivals;
    assert ds[..|durations|] == durations;
  }

  /** Sum of `k` copies of `d`. */
  lemma {:induction false} SumConstant(s: seq<real>, d: real)
    requires forall k :: 0 <= k < |s| ==> s[k] == d
    ensures Sum(s) == (|s| as real) * d
    decreases |s|
  {
    if s != [] {
      SumConstant(s[..|s| - 1], d);
    }
  }

  /** With the sender's durations (0 for the first chunk, `d` after it) and
      frames arriving exactly every `d` milliseconds, every schedule delta is
      zero. */
  lemma {:induction false} OnScheduleDeltaIsZero(arrivals: seq<real>, durations: seq<real>, d: real, k: nat)
    requires k < |arrivals| == |durations|
    requires durations[0] == 0.0
    requires forall j :: 1 <= j < |durations| ==> durations[j] == d
    requires forall j :: 0 <= j < |arrivals| ==> arrivals[j] == arrivals[0] + (j as real) * d
    ensures Deltas(arrivals, durations)[k] == 0.0
  {
    var prefix := durations[..k + 1];
    var rest := prefix[1..];
    assert prefix == [0.0] + rest;
    SumConstant(rest, d);
    SumFront(0.0, rest);
    var late := (k as real) * d;
    assert Sum(prefix) == late;
    assert arrivals[k] == arrivals[0] + late;
    DeltaAt(arrivals, durations, k);
  }

  /** A sum folded from the left can also be split at the front. */
  lemma {:induction false} SumFront(x: real, s: seq<real>)
    ensures Sum([x] + s) == x + Sum(s)
    decreases |s|
  {
    if s != [] {
      var init := s[..|s| - 1];
      assert ([x] + s)[..|s|] == [x] + init;
      SumFront(x, init);
    }
  }

  /** The schedule bookkeeping after frames arriving at `arrivals` with
      declared `durations`: no expected arrival before the first frame, then
      the first arrival advanced by every duration. */
  ghost predicate OnSchedule(arrivals: seq<real>, durations: seq<real>, expected: Option<real>)
  {
    |arrivals| == |durations| &&
    (expected == None <==> arrivals == []) &&
    (arrivals != [] ==> expected == Some(arrivals[0] + Sum(durations)))
  }

  /** `expectedArrivalTime` once a frame of duration `dur` arrived at `t`: the
      first frame seeds it with its own arrival time. */
  function NextExpected(expected: Option<real>, t: real, dur: real): real
  {
    if expected == None then t + dur else expected.value + dur
  }

  /** One more frame keeps the schedule bookkeeping exact: the new expected
      arrival is the first arrival advanced by every duration so far. */
  lemma {:induction false} OnScheduleStep(arrivals: seq<real>, durations: seq<real>, expected: Option<real>,
                       t: real, dur: real)
    requires OnSchedule(arrivals, durations, expected)
    ensures NextExpected(expected, t, dur) == (arrivals + [t])[0] + Sum(durations + [dur])
    ensures OnSchedule(arrivals + [t], durations + [dur], Some(NextExpected(expected, t, dur)))
  {
    SumSnoc(durations, dur);
  }

  /** `sum`, `min` and `max` are the sum, running minimum and running
      maximum of `log`. */
  ghost predicate Summarizes(log: seq<real>, sum: real, min: Extended, max: Extended)
  {
    sum == Sum(log) && min == RunningMin(log) && max == RunningMax(log)
  }

  /** `sum += x`, `if (x < min) min = x` and `if (x > max) max = x` keep the
      aggregates exact. */
  lemma {:induction false} SummarizesStep(log: seq<real>, sum: real, min: Extended, max: Extended, x: real)
    requires Summarizes(log, sum, min, max)
    ensures Summarizes(log + [x], sum + x, if Below(x, min) then Finite(x) else min,
                       if Above(x, max) then Finite(x) else max)
  {
    SumSnoc(log, x);
    RunningMinSnoc(log, x);
    RunningMaxSnoc(log, x);
  }

  /** The running minimum and maximum bound every logged delta and are
      attained by one; both are still the infinities while the log is
      empty. */
  lemma {:induction false} ExtremesBound(log: seq<real>, sum: real, min: Extended, max: Extended)
    requires Summarizes(log, sum, min, max)
    ensures log == [] ==> min == PosInfinity && max == NegInfinity
    ensures forall k :: 0 <= k < |log| ==>
      min.Finite? && min.value <= log[k] && max.Finite? && log[k] <= max.value
    ensures log != [] ==>
      (exists i :: 0 <= i < |log| && Finite(log[i]) == min) &&
      (exists j :: 0 <= j < |log| && Finite(log[j]) == max)
  {
    if log != [] {
      MinMaxBound(log);
    }
  }

  /** The `milestone` label for a mark in milliseconds. */
  datatype MilestoneLabel = OneMinute | FiveMinutes | ThirtyMinutesEnd | NoLabel

  /** What the `milestone` handler reports. */
  datatype MilestoneReport = Report(title: MilestoneLabel, netDelta: real, average: real,
                                    minDelay: Extended, maxDelay: Extended)

  /** The decoder feed built in the `sourceopen` handler: `appendChunk`, the
      `updateend` listener and their ring queue. */
  class AppendQueue {
    const sourceBuffer: SourceBuffer
    const queue: array<Option<Chunk>>
    var queueHead: nat
    var queueTail: nat
    var isUpdating: bool
    /** When the append now in flight was submitted (opaque clock reading). */
    var lastAppendTime: Option<real>
    /** Every chunk handed to `appendBuffer`, accepted or not, in order. */
    ghost var Submitted: seq<Chunk>
    /** The chunks waiting in the queue, head first. */
    ghost var Pending: seq<Chunk>

    /** Every chunk passed to `appendChunk` from outside, in call order: the
        ones submitted, then the ones waiting. */
    ghost function Arrived(): seq<Chunk>
      reads this
    {
      Submitted + Pending
    }

    /** The decoder threw on the last submission: `isUpdating` stays set and
        no `updateend` will ever clear it. */
    ghost predicate Stalled()
      reads this, sourceBuffer
    {
      isUpdating && !sourceBuffer.updating
    }

    /** The queue holds `Pending` from slot `queueHead % N` on. */
    ghost predicate Window()
      reads this, queue
    {
      0 < queue.Length &&
      queueHead + |Pending| == queueTail && |Pending| <= queue.Length &&
      forall k :: 0 <= k < |Pending| ==> queue[(queueHead + k) % queue.Length] == Some(Pending[k])
    }

    /** An append is in flight only while `isUpdating` is set, and the
        decoder has accepted every submitted chunk except a rejected last
        one. */
    ghost predicate Accounting()
      reads this, sourceBuffer
    {
      (sourceBuffer.updating ==> isUpdating) &&
      (Stalled() ==> Submitted != [] && sourceBuffer.log == Submitted[..|Submitted| - 1]) &&
      (!Stalled() ==> sourceBuffer.log == Submitted)
    }

    /** Besides, chunks wait only while `isUpdating` is set. */
    ghost predicate Valid()
      reads this, queue, sourceBuffer
    {
      Window() && Accounting() && (Pending != [] ==> isUpdating)
    }

    /** `new Array(MAX_FRAME_LOG).fill(null)`, both indices at 0, a fresh
        idle decoder. */
    constructor (n: nat)
      requires 0 < n
      ensures Valid() && fresh(queue) && fresh(sourceBuffer) && queue.Length == n
      ensures !isUpdating && !sourceBuffer.updating && sourceBuffer.log == []
      ensures queueHead == 0 && queueTail == 0 && lastAppendTime == None
      ensures Submitted == [] && Pending == []
      ensures forall j :: 0 <= j < queue.Length ==> queue[j] == None
    {
      sourceBuffer := new SourceBuffer();
      queue := new Option<Chunk>[n](_ => None);
      queueHead, queueTail := 0, 0;
      isUpdating := false;
      lastAppendTime := None;
      Submitted, Pending := [], [];
    }

    /** `appendChunk(chunk)`: while an append is in flight the chunk goes to
        slot `queueTail % N` and the tail advances; otherwise `isUpdating` is
        set and the chunk is handed to the decoder, which may throw
        (`accepted` false). The ring is never checked for an unconsumed
        slot, so a caller must leave room in it. Chunks may be waiting with
        both flags clear, as inside `updateend`. */
    method AppendChunk(chunk: Chunk, now: real, accepted: bool)
      requires Window() && Accounting()
      requires queueTail - queueHead < queue.Length
      modifies this, queue, sourceBuffer
      ensures Valid()
      ensures isUpdating
      ensures old(sourceBuffer.updating || isUpdating) ==>
        queue[old(queueTail) % queue.Length] == Some(chunk) &&
        (forall j :: 0 <= j < queue.Length && j != old(queueTail) % queue.Length ==> queue[j] == old(queue[j])) &&
        queueTail == old(queueTail) + 1 && queueHead == old(queueHead) &&
        Pending == old(Pending) + [chunk] && Submitted == old(Submitted) &&
        sourceBuffer.updating == old(sourceBuffer.updating) && sourceBuffer.log == old(sourceBuffer.log) &&
        lastAppendTime == old(lastAppendTime)
      ensures !old(sourceBuffer.updating || isUpdating) ==>
        queueTail == old(queueTail) && queueHead == old(queueHead) &&
        queue[..] == old(queue[..]) &&
        Pending == old(Pending) && Submitted == old(Submitted) + [chunk] &&
        sourceBuffer.updating == accepted &&
        sourceBuffer.log == old(sourceBuffer.log) + (if accepted then [chunk] else []) &&
        lastAppendTime == Some(now)
    {
      var n := queue.Length;
      if sourceBuffer.updating || isUpdating {
        queue[queueTail % n] := Some(chunk);
        forall k | 0 <= k < |Pending|
          ensures queue[(queueHead + k) % n] == Some(Pending[k])
        {
          ModDistinct(queueHead + k, queueTail, n);
        }
        queueTail, Pending := queueTail + 1, Pending + [chunk];
      } else {
        isUpdating, lastAppendTime, Submitted := true, Some(now), Submitted + [chunk];
        sourceBuffer.AppendBuffer(chunk, accepted);
      }
    }

    /** The dequeue step of `updateend`: the head slot is read and cleared to
        null, and `queueHead` advances. */
    method Shift() returns (nextChunk: Chunk)
      requires Window() && Pending != []
      modifies this, queue
      ensures Window()
      ensures nextChunk == old(Pending)[0] && Pending == old(Pending)[1..]
      ensures queue[old(queueHead) % queue.Length] == None
      ensures forall j :: 0 <= j < queue.Length && j != old(queueHead) % queue.Length ==> queue[j] == old(queue[j])
      ensures queueHead == old(queueHead) + 1 && queueTail == old(queueTail)
      ensures Submitted == old(Submitted) && isUpdating == old(isUpdating)
      ensures lastAppendTime == old(lastAppendTime)
    {
      var n := queue.Length;
      assert queue[queueHead % n] == Some(Pending[0]);
      var slot := queue[queueHead % n];
      queue[queueHead % n] := None;
      forall k | 0 <= k < |Pending| - 1
        ensures queue[(queueHead + 1 + k) % n] == Some(Pending[1..][k])
      {
        assert queue[(queueHead + (k + 1)) % n] == old(queue[(queueHead + (k + 1)) % n]) by {
          ModDistinct(queueHead, queueHead + 1 + k, n);
        }
      }
      queueHead, Pending := queueHead + 1, Pending[1..];
      nextChunk := slot.value;
    }

    /** The in-flight append completes and `updateend` runs: `isUpdating` is
        cleared, and if the queue is not empty its head is dequeued and
        passed to `appendChunk`, which submits it at once since neither flag
        is set. */
    method OnUpdateEnd(now: real, accepted: bool)
      requires Valid()
      requires sourceBuffer.updating
      modifies this, queue, sourceBuffer
      ensures Valid()
      ensures Arrived() == old(Arrived()) && queueTail == old(queueTail)
      ensures old(Pending) == [] ==>
        !isUpdating && !sourceBuffer.updating && queueHead == old(queueHead) &&
        queue[..] == old(queue[..]) && lastAppendTime == old(lastAppendTime) &&
        Pending == [] && Submitted == old(Submitted) && sourceBuffer.log == old(sourceBuffer.log)
      ensures old(Pending) != [] ==>
        isUpdating && queueHead == old(queueHead) + 1 &&
        queue[old(queueHead) % queue.Length] == None &&
        Pending == old(Pending)[1..] && Submitted == old(Submitted) + [old(Pending)[0]] &&
        sourceBuffer.updating == accepted &&
        sourceBuffer.log == old(sourceBuffer.log) + (if accepted then [old(Pending)[0]] else []) &&
        lastAppendTime == Some(now)
    {
      sourceBuffer.Complete();
      isUpdating := false;
      if queueTail > queueHead {
        var nextChunk := Shift();
        AppendChunk(nextChunk, now, accepted);
      }
    }
  }

  /** What reached the decoder is a prefix of what arrived, in arrival order. */
  lemma DecoderLogIsPrefix(q: AppendQueue)
    requires q.Valid()
    ensures q.sourceBuffer.log <= q.Arrived()
    ensures |q.Arrived()| - |q.sourceBuffer.log| == |q.Pending| + (if q.Stalled() then 1 else 0)
  {
    assert q.Submitted <= q.Arrived();
  }

  /** The non-null slots among the first `min(count, N)` of a chunk ring:
      every chunk written, in order, until the ring wraps; after that the
      last `N` chunks in slot order. */
  lemma MergeOrder(ring: Ring<Chunk>)
    requires ring.Valid()
    ensures var n := ring.slots.Length;
      Present(ring.slots[..if ring.count < n then ring.count else n])
        == if ring.count <= n then ring.Written else SlotOrder(ring.Written, n)
  {
    var n := ring.slots.Length;
    var taken := if ring.count < n then ring.count else n;
    if ring.count <= n {
      forall k | 0 <= k < taken
        ensures ring.slots[..taken][k] == Some(ring.Written[k])
      {
        ModSmall(k, n);
      }
      PresentAllSome(ring.slots[..taken], ring.Written);
    } else {
      SlotsHoldSlotOrder(ring);
      PresentAllSome(ring.slots[..taken], SlotOrder(ring.Written, n));
    }
  }

  /** The playback schedule kept at module level: `expectedArrivalTime` and
      `firstReceiveTime`, with the arrival time and declared duration of
      every frame so far. */
  class Schedule {
    var expectedArrivalTime: Option<real>
    var firstReceiveTime: Option<real>
    ghost var Arrivals: seq<real>
    ghost var Durations: seq<real>

    /** The expected arrival is the first arrival advanced by every declared
        duration; `firstReceiveTime` is set from the first frame on, and is
        the first arrival time unless that was 0, which JavaScript reads as
        unset. */
    ghost predicate Valid()
      reads this
    {
      OnSchedule(Arrivals, Durations, expectedArrivalTime) &&
      (Arrivals == [] ==> firstReceiveTime == None) &&
      (Arrivals != [] ==> firstReceiveTime.Some?) &&
      (Arrivals != [] && Arrivals[0] != 0.0 ==> firstReceiveTime == Some(Arrivals[0]))
    }

    constructor ()
      ensures Valid() && Arrivals == [] && Durations == []
      ensures expectedArrivalTime == None && firstReceiveTime == None
    {
      expectedArrivalTime := None;
      firstReceiveTime := None;
      Arrivals, Durations := [], [];
    }

    /** The timing part of `video-frame`: the first frame seeds the expected
        arrival with its own arrival time plus its duration, later frames
        advance it by their duration; the delta is the arrival time minus the
        expected arrival. `firstReceiveTime` is (re)set while it is unset or
        0. */
    method Advance(tNow: real, dur: real) returns (deltaDelay: real)
      requires Valid()
      modifies this
      ensures Valid()
      ensures Arrivals == old(Arrivals) + [tNow] && Durations == old(Durations) + [dur]
      ensures deltaDelay == tNow - (Arrivals[0] + Sum(Durations))
      ensures old(Arrivals) == [] ==> deltaDelay == -dur
      ensures old(firstReceiveTime).Some? && old(firstReceiveTime).value != 0.0 ==>
        firstReceiveTime == old(firstReceiveTime)
    {
      OnScheduleStep(Arrivals, Durations, expectedArrivalTime, tNow, dur);
      var expected := NextExpected(expectedArrivalTime, tNow, dur);
      deltaDelay := tNow - expected;
      expectedArrivalTime, firstReceiveTime, Arrivals, Durations :=
        Some(expected),
        if firstReceiveTime == None || firstReceiveTime == Some(0.0) then Some(tNow) else firstReceiveTime,
        Arrivals + [tNow],
        Durations + [dur];
    }
  }

  /** The delay log kept at module level: the `delays` ring with `delayInx`,
      and the running `sumDelay`, `minDelay` and `maxDelay`. */
  class DelayLog {
    const delays: Ring<real>
    var sumDelay: real
    var minDelay: Extended
    var maxDelay: Extended

    /** The sum, minimum and maximum are those of every delta logged. */
    ghost predicate Valid()
      reads this, delays, delays.slots
    {
      delays.Valid() && Summarizes(delays.Written, sumDelay, minDelay, maxDelay)
    }

    constructor (n: nat)
      requires 0 < n
      ensures Valid() && fresh(delays) && fresh(delays.slots) && delays.slots.Length == n
      ensures delays.Written == []
    {
      delays := new Ring<real>(n);
      sumDelay := 0.0;
      minDelay := PosInfinity;
      maxDelay := NegInfinity;
    }

    /** `delays[delayInx % N] = deltaDelay; delayInx++`, then the sum, minimum
        and maximum are updated. */
    method Add(deltaDelay: real)
      requires Valid()
      modifies this, delays, delays.slots
      ensures Valid()
      ensures delays.Written == old(delays.Written) + [deltaDelay]
    {
      SummarizesStep(delays.Written, sumDelay, minDelay, maxDelay, deltaDelay);
      delays.Put(deltaDelay);
      sumDelay, minDelay, maxDelay :=
        sumDelay + deltaDelay,
        if Below(deltaDelay, minDelay) then Finite(deltaDelay) else minDelay,
        if Above(deltaDelay, maxDelay) then Finite(deltaDelay) else maxDelay;
    }

    /** The `milestone` handler: the label of the mark, the wall-clock
        difference to the sender, and the delay average, minimum and maximum.
        The average divides `sumDelay` by the length of the `delays` array,
        not by the number of frames. */
    method Milestone(mark: int, senderTime: real, recvNow: real) returns (r: MilestoneReport)
      requires Valid()
      ensures r.title == (if mark == 60000 then OneMinute
                          else if mark == 300000 then FiveMinutes
                          else if mark == 1800000 then ThirtyMinutesEnd
                          else NoLabel)
      ensures r.netDelta == recvNow - senderTime
      ensures r.average == Sum(delays.Written) / (delays.slots.Length as real)
      ensures delays.Written == [] ==> r.minDelay == PosInfinity && r.maxDelay == NegInfinity
      ensures forall k :: 0 <= k < |delays.Written| ==>
        r.minDelay.Finite? && r.minDelay.value <= delays.Written[k] &&
        r.maxDelay.Finite? && delays.Written[k] <= r.maxDelay.value
      ensures delays.Written != [] ==>
        (exists i :: 0 <= i < |delays.Written| && Finite(delays.Written[i]) == r.minDelay) &&
        (exists j :: 0 <= j < |delays.Written| && Finite(delays.Written[j]) == r.maxDelay)
    {
      var title := NoLabel;
      if mark == 60000 {
        title := OneMinute;
      } else if mark == 300000 {
        title := FiveMinutes;
      } else if mark == 1800000 {
        title := ThirtyMinutesEnd;
      }
      ExtremesBound(delays.Written, sumDelay, minDelay, maxDelay);
      r := Report(title, recvNow - senderTime, sumDelay / (delays.slots.Length as real), minDelay, maxDelay);
    }
  }

  /** The delay accounting of `video-frame`: the schedule, and the log of
      schedule deltas it produces. */
  class DelayStats {
    const schedule: Schedule
    const log: DelayLog

    /** The `k`-th logged delta is the `k`-th frame's schedule delta. */
    ghost predicate Valid()
      reads this, schedule, log, log.delays, log.delays.slots
    {
      schedule.Valid() && log.Valid() &&
      |schedule.Arrivals| == |schedule.Durations| &&
      log.delays.Written == Deltas(schedule.Arrivals, schedule.Durations)
    }

    constructor (n: nat)
      requires 0 < n
      ensures Valid() && fresh(schedule) && fresh(log) && fresh(log.delays) && fresh(log.delays.slots)
      ensures log.delays.slots.Length == n && schedule.Arrivals == []
    {
      schedule := new Schedule();
      log := new DelayLog(n);
    }

    /** The delay part of `video-frame`: the frame is timed against the
        schedule and its delta logged. */
    method Record(tNow: real, dur: real) returns (deltaDelay: real)
      requires Valid()
      modifies schedule, log, log.delays, log.delays.slots
      ensures Valid()
      ensures schedule.Arrivals == old(schedule.Arrivals) + [tNow]
      ensures schedule.Durations == old(schedule.Durations) + [dur]
      ensures deltaDelay == tNow - (schedule.Arrivals[0] + Sum(schedule.Durations))
      ensures log.delays.Written == old(log.delays.Written) + [deltaDelay]
      ensures old(schedule.firstReceiveTime).Some? && old(schedule.firstReceiveTime).value != 0.0 ==>
        schedule.firstReceiveTime == old(schedule.firstReceiveTime)
    {
      ghost var arrivals, durations := schedule.Arrivals, schedule.Durations;
      DeltasSnoc(arrivals, durations, tNow, dur);
      deltaDelay := schedule.Advance(tNow, dur);
      log.Add(deltaDelay);
      assert log.delays.Written == Deltas(arrivals + [tNow], durations + [dur]);
    }
  }

  /** The whole receiver: the decoder feed, the delay accounting (whose
      schedule keeps `firstReceiveTime`), and the `receivedChunks` ring with
      its counter `chunkIdx`. */
  class Receiver {
    const feed: AppendQueue
    const stats: DelayStats
    const receivedChunks: Ring<Chunk>

    /** Every chunk handed to the feed is logged in `receivedChunks`, in
        the same order. */
    ghost predicate Fed()
      reads this, feed, feed.queue, feed.sourceBuffer, receivedChunks, receivedChunks.slots
    {
      feed.Valid() && receivedChunks.Valid() &&
      feed.queue != receivedChunks.slots &&
      feed.Arrived() == receivedChunks.Written
    }

    /** Besides, every frame was also measured against the schedule. */
    ghost predicate Valid()
      reads this, feed, feed.queue, feed.sourceBuffer, stats, stats.schedule, stats.log,
            stats.log.delays, stats.log.delays.slots, receivedChunks, receivedChunks.slots
    {
      Fed() && stats.Valid() &&
      |receivedChunks.Written| == |stats.schedule.Arrivals|
    }

    constructor (n: nat)
      requires 0 < n
      ensures Valid() && fresh(feed) && fresh(feed.queue) && fresh(feed.sourceBuffer)
      ensures fresh(stats) && fresh(stats.schedule) && fresh(stats.log)
      ensures fresh(stats.log.delays) && fresh(stats.log.delays.slots)
      ensures fresh(receivedChunks) && fresh(receivedChunks.slots)
      ensures feed.queue.Length == n && stats.log.delays.slots.Length == n && receivedChunks.slots.Length == n
      ensures receivedChunks.Written == [] && !feed.isUpdating
    {
      feed := new AppendQueue(n);
      stats := new DelayStats(n);
      receivedChunks := new Ring<Chunk>(n);
    }

    /** `video-frame`: the delay against the schedule is recorded,
        `firstReceiveTime` is set if it is unset (or 0), the chunk is passed
        to `appendChunk` and stored at `chunkIdx % N`. */
    method OnFrame(chunk: Chunk, dur: real, tNow: real, accepted: bool) returns (deltaDelay: real)
      requires Valid()
      requires feed.queueTail - feed.queueHead < feed.queue.Length
      modifies feed, feed.queue, feed.sourceBuffer, stats.schedule, stats.log, stats.log.delays,
               stats.log.delays.slots,
               receivedChunks, receivedChunks.slots
      ensures Valid()
      ensures stats.schedule.Arrivals == old(stats.schedule.Arrivals) + [tNow]
      ensures stats.schedule.Durations == old(stats.schedule.Durations) + [dur]
      ensures deltaDelay == tNow - (stats.schedule.Arrivals[0] + Sum(stats.schedule.Durations))
      ensures receivedChunks.Written == old(receivedChunks.Written) + [chunk]
      ensures feed.Arrived() == old(feed.Arrived()) + [chunk]
      ensures feed.isUpdating
      ensures old(feed.sourceBuffer.updating || feed.isUpdating) ==>
        feed.Pending == old(feed.Pending) + [chunk] && feed.Submitted == old(feed.Submitted) &&
        feed.sourceBuffer.updating == old(feed.sourceBuffer.updating) &&
        feed.sourceBuffer.log == old(feed.sourceBuffer.log)
      ensures !old(feed.sourceBuffer.updating || feed.isUpdating) ==>
        feed.Pending == old(feed.Pending) && feed.Submitted == old(feed.Submitted) + [chunk] &&
        feed.sourceBuffer.updating == accepted &&
        feed.sourceBuffer.log == old(feed.sourceBuffer.log) + (if accepted then [chunk] else [])
      ensures old(feed.Stalled()) ==> feed.Stalled() && feed.sourceBuffer.log == old(feed.sourceBuffer.log)
      ensures old(stats.schedule.firstReceiveTime).Some? && old(stats.schedule.firstReceiveTime).value != 0.0 ==>
        stats.schedule.firstReceiveTime == old(stats.schedule.firstReceiveTime)
    {
      deltaDelay := stats.Record(tNow, dur);
      Store(chunk, tNow, accepted);
    }

    /** The end of `video-frame`: the chunk is passed to `appendChunk` and
        stored at `chunkIdx % N`. */
    method Store(chunk: Chunk, tNow: real, accepted: bool)
      requires Fed()
      requires feed.queueTail - feed.queueHead < feed.queue.Length
      modifies feed, feed.queue, feed.sourceBuffer, receivedChunks, receivedChunks.slots
      ensures Fed()
      ensures receivedChunks.Written == old(receivedChunks.Written) + [chunk]
      ensures feed.isUpdating
      ensures old(feed.sourceBuffer.updating || feed.isUpdating) ==>
        feed.Pending == old(feed.Pending) + [chunk] && feed.Submitted == old(feed.Submitted) &&
        feed.sourceBuffer.updating == old(feed.sourceBuffer.updating) &&
        feed.sourceBuffer.log == old(feed.sourceBuffer.log)
      ensures !old(feed.sourceBuffer.updating || feed.isUpdating) ==>
        feed.Pending == old(feed.Pending) && feed.Submitted == old(feed.Submitted) + [chunk] &&
        feed.sourceBuffer.updating == accepted &&
        feed.sourceBuffer.log == old(feed.sourceBuffer.log) + (if accepted then [chunk] else [])
      ensures old(feed.Stalled()) ==> feed.Stalled() && feed.sourceBuffer.log == old(feed.sourceBuffer.log)
    {
      ghost var arrived := feed.Arrived();
      feed.AppendChunk(chunk, tNow, accepted);
      assert feed.Arrived() == arrived + [chunk];
      assert receivedChunks.Valid();
      receivedChunks.Put(chunk);
      assert feed.Valid();
    }

    /** `transmission-ended`: the reception duration (the unset first time
        counts as 0) and the merged artifact, the concatenation of the
        non-null slots among the first `chunkIdx` of `receivedChunks`. As
        long as the ring has not wrapped, that is every received chunk in
        arrival order; after that, the last `N` chunks in slot order, which
        starts mid-stream unless `chunkIdx` is a multiple of `N`. */
    method OnTransmissionEnded(wallNow: real) returns (duration: real, merged: seq<byte>)
      requires Valid()
      ensures duration == wallNow - (if stats.schedule.firstReceiveTime.Some? then stats.schedule.firstReceiveTime.value else 0.0)
      ensures receivedChunks.count <= receivedChunks.slots.Length ==>
        merged == Concat(receivedChunks.Written) && merged == Concat(feed.Arrived())
      ensures receivedChunks.count > receivedChunks.slots.Length ==>
        merged == Concat(SlotOrder(receivedChunks.Written, receivedChunks.slots.Length))
    {
      var lastReceiveTime := wallNow;
      duration := lastReceiveTime - (if stats.schedule.firstReceiveTime.Some? then stats.schedule.firstReceiveTime.value else 0.0);
      var n := receivedChunks.slots.Length;
      var taken := if receivedChunks.count < n then receivedChunks.count else n;
      var validBufs := Present(receivedChunks.slots[..taken]);
      merged := Concat(validBufs);
      MergeOrder(receivedChunks);
    }
  }
}
