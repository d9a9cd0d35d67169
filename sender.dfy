/** The sending renderer (sender/renderer.js): it timestamps each recorded
    chunk, keeps it in a fixed ring `chunks[chunkIdx++ % MAX]`, emits it as a
    `video-frame` with a 1-based index, and on stop reads the ring back in
    production order. */
module SenderRenderer {
  import opened Media
  import opened Rings

  /** `MediaRecorder.state`. */
  datatype RecorderState = Inactive | Recording | Paused

  /** The `video-frame` message: `{ buffer, idx, dur, tSend, isFirst: false }`. */
  datatype Envelope = Frame(buffer: Chunk, idx: nat, dur: real, tSend: real)

  /** The last `n` elements of `s`, or all of `s` when it is shorter. */
  function LastN<T>(s: seq<T>, n: nat): (r: seq<T>)
    ensures |r| == if |s| < n then |s| else n
    ensures forall k :: 0 <= k < |r| ==> r[k] == s[|s| - |r| + k]
  {
    if |s| <= n then s else s[|s| - n..]
  }

  /** The slot the flush reads for its `i`-th output once the ring has
      wrapped is the slot of the `(count - n + i)`-th chunk written. */
  lemma {:induction false} FlushSlot(count: nat, i: nat, n: nat)
    requires 0 < n <= count && i < n
    ensures (count % n + i) % n == (count - n + i) % n
  {
    var q, r := count / n, count % n;
    assert count == q * n + r;
    assert 1 <= q;
    if r + i < n {
      ModSmall(r + i, n);
      ModUnique(count - n + i, q - 1, r + i, n);
    } else {
      ModUnique(r + i, 1, r + i - n, n);
      ModUnique(count - n + i, q, r + i - n, n);
    }
  }

  class Sender {
    /** `chunks` with its counter `chunkIdx` (`chunks.count`). */
    const chunks: Ring<Chunk>
    /** `mediaRecorder`: `None` until screen capture has started. */
    var recorder: Option<RecorderState>
    var startTime: Option<real>
    var lastChunkTime: Option<real>
    /** Every `video-frame` message emitted so far. */
    ghost var Sent: seq<Envelope>

    /** The ring holds every non-empty chunk recorded, and the `k`-th message
        sent carried the `k`-th of them with index `k + 1`. */
    ghost predicate Valid()
      reads this, chunks, chunks.slots
    {
      chunks.Valid() &&
      |Sent| == |chunks.Written| &&
      forall k :: 0 <= k < |Sent| ==>
        Sent[k].idx == k + 1 && Sent[k].buffer == chunks.Written[k] && |Sent[k].buffer| > 0
    }

    constructor (max: nat)
      requires 0 < max
      ensures Valid() && fresh(chunks) && fresh(chunks.slots)
      ensures chunks.slots.Length == max && chunks.Written == [] && Sent == []
      ensures recorder == None && startTime == None && lastChunkTime == None
    {
      chunks := new Ring<Chunk>(max);
      recorder := None;
      startTime := None;
      lastChunkTime := None;
      Sent := [];
    }

    /** `startScreenShare`: when capture is granted (`captured`), a recorder
        is created and started and `startTime` is stamped; a failed capture is
        only logged. Nothing else is reset. */
    method StartScreenShare(captured: bool, wallNow: real)
      requires Valid()
      modifies this
      ensures Valid() && Sent == old(Sent) && lastChunkTime == old(lastChunkTime)
      ensures captured ==> recorder == Some(Recording) && startTime == Some(wallNow)
      ensures !captured ==> recorder == old(recorder) && startTime == old(startTime)
    {
      if captured {
        recorder := Some(Recording);
        startTime := Some(wallNow);
      }
    }

    /** `ondataavailable`: the slice duration is measured from the previous
        data event (0 when there is none, or when its time was 0); the time
        is recorded even for an empty chunk; only a non-empty chunk is stored
        at `chunkIdx % MAX` and sent, with index `chunkIdx` after the
        increment. */
    method OnDataAvailable(data: Chunk, nowTime: real) returns (sent: Option<Envelope>)
      requires Valid()
      modifies this, chunks, chunks.slots
      ensures Valid()
      ensures lastChunkTime == Some(nowTime)
      ensures recorder == old(recorder) && startTime == old(startTime)
      ensures |data| == 0 ==> sent == None && chunks.Written == old(chunks.Written) && Sent == old(Sent)
      ensures |data| > 0 ==>
        chunks.Written == old(chunks.Written) + [data] &&
        chunks.slots[old(chunks.count) % chunks.slots.Length] == Some(data) &&
        sent == Some(Frame(data, chunks.count,
                           if old(lastChunkTime) == None || old(lastChunkTime) == Some(0.0) then 0.0
                           else nowTime - old(lastChunkTime).value,
                           nowTime)) &&
        Sent == old(Sent) + [sent.value]
    {
      var sliceDurMs := if lastChunkTime.Some? && lastChunkTime.value != 0.0 then nowTime - lastChunkTime.value else 0.0;
      lastChunkTime := Some(nowTime);
      if |data| > 0 {
        chunks.Put(data);
        sent := Some(Frame(data, chunks.count, sliceDurMs, nowTime));
        Sent := Sent + [sent.value];
      } else {
        sent := None;
      }
    }

    /** `onstop`: nothing when no chunk was stored; otherwise the stored
        chunks in production order, the last `MAX` of them once the ring has
        wrapped, read from slot `chunkIdx % MAX` on. */
    method OnStop() returns (ordered: Option<seq<Chunk>>)
      requires Valid()
      ensures ordered == None <==> chunks.count == 0
      ensures ordered.Some? ==> ordered.value == LastN(chunks.Written, chunks.slots.Length)
    {
      if chunks.count == 0 {
        return None;
      }
      var n := chunks.slots.Length;
      var totalChunks := if chunks.count < n then chunks.count else n;
      var startIdx := if chunks.count >= n then chunks.count % n else 0;
      ghost var base := chunks.count - totalChunks;
      var orderedChunks: seq<Chunk> := [];
      for i := 0 to totalChunks
        invariant orderedChunks == chunks.Written[base..base + i]
      {
        if chunks.count >= n {
          FlushSlot(chunks.count, i, n);
        } else {
          ModSmall(i, n);
        }
        assert chunks.slots[(base + i) % n] == Some(chunks.Written[base + i]);
        var chunk := chunks.slots[(startIdx + i) % n];
        if chunk.Some? {
          orderedChunks := orderedChunks + [chunk.value];
        }
      }
      return Some(orderedChunks);
    }

    /** `stopScreenShare`: acts only on a recorder that exists and is not
        inactive; it stops it, schedules `screen-share-ended` (`ended`) and
        clears `startTime` and `lastChunkTime`. */
    method StopScreenShare() returns (ended: bool)
      requires Valid()
      modifies this
      ensures Valid() && Sent == old(Sent)
      ensures ended <==> old(recorder).Some? && old(recorder).value != Inactive
      ensures ended ==> recorder == Some(Inactive) && startTime == None && lastChunkTime == None
      ensures !ended ==> recorder == old(recorder) && startTime == old(startTime) && lastChunkTime == old(lastChunkTime)
    {
      ended := recorder.Some? && recorder.value != Inactive;
      if ended {
        recorder := Some(Inactive);
        startTime := None;
        lastChunkTime := None;
      }
    }
  }
}
