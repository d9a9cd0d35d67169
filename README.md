# Screen-share renderers: chunk bookkeeping in Dafny

This project models the client-side chunk bookkeeping of a screen-sharing
pipeline: the sending, receiving and viewing renderer scripts. Each script is
a set of single-threaded event handlers over module-level state, modelled as
classes whose methods are the handlers.

- **Sender** (`SenderRenderer`):
  - `ondataavailable` timestamps each recorded chunk and measures its slice
    duration from the previous data event;
  - it stores every non-empty chunk in a fixed ring `chunks[chunkIdx++ % MAX]`
    and emits it as a `video-frame` with index `chunkIdx`;
  - `onstop` reads the ring back in production order from slot
    `chunkIdx % MAX`;
  - `stopScreenShare` is a guarded reset.
- **Receiver** (`ReceiverRenderer`):
  - `appendChunk` and `updateend` feed a single-consumer decoder, one append
    at a time, through a ring queue with ever-growing `queueHead` and
    `queueTail`;
  - `video-frame` measures each frame against a playback schedule: the first
    arrival advanced by every declared duration;
  - it keeps a ring of schedule deltas with their running sum, minimum and
    maximum, and a ring of received chunks;
  - `transmission-ended` merges the received chunks;
  - `milestone` reports a label and the delay statistics.
- **Viewer** (`ViewerRenderer`):
  - the same one-append-at-a-time feed, using a growing array as the queue;
  - the inter-arrival jitter of frames, with a cumulative average every ten
    frames.

Shared pieces:

- `Media` holds chunks, bytes, `Concat` and the `filter(Boolean)` of null
  slots.
- `Stats` holds sums, means, and the running minimum and maximum seeded with
  `±Infinity`.
- `Rings` holds the `arr[idx % N] = x; idx++` log as a class over an array.
- `SourceBuffers` holds the browser decoder, seen from outside: an `updating`
  flag and the log of chunks it accepted.

Modelling choices:

- Times and durations are `real` milliseconds. Floating-point rounding is
  ignored.
- The capacities `MAX` and `MAX_FRAME_LOG` are a parameter `N > 0`.
- JavaScript truthiness is written out: a time of 0 reads as unset in
  `lastChunkTime ? … : 0` and `!firstReceiveTime`.
- Clock readings (`performance.now()`, `Date.now()`) and the decoder's
  accept-or-throw outcome are method parameters.
- When `appendBuffer` throws, the code keeps `isUpdating` set, and no
  `updateend` ever follows. Every later chunk is then only queued, and the
  model keeps exactly that (the `Stalled` state). A design that drops the
  rejected chunk and carries on would differ; the code does not do that.

## Model

| member | source | states |
|---|---|---|
| Media.PresentAllSome | receiver/renderer.js:151-157 | filtering out null slots from slots that all hold chunks gives back exactly those chunks, in slot order |
| Stats.RunningMinSnoc | receiver/renderer.js:115 | `if (x < min) min = x`, seeded with `Infinity`, keeps the minimum of all samples so far |
| Stats.RunningMaxSnoc | receiver/renderer.js:116 | `if (x > max) max = x`, seeded with `-Infinity`, keeps the maximum of all samples so far |
| Stats.MinMaxBound | receiver/renderer.js:114-116 | every sample lies between the minimum and the maximum, and each of the two is one of the samples |
| Rings.SlotOrder | receiver/renderer.js:119-120 | once the ring has wrapped, its slots hold a permutation of the last `N` values written |
| Rings.SlotsHoldSlotOrder | receiver/renderer.js:119-120 | once at least `N` values were written, slot `j` holds the value written last at a position congruent to `j` modulo `N`, which makes slot order a rotation of production order starting at `count % N` |
| Rings.Ring.constructor | receiver/renderer.js:13-15 | a fresh log of `N` null slots with its counter at 0 |
| Rings.Ring.Put | receiver/renderer.js:111-112 | the value goes to slot `count % N` and the counter grows by one; every one of the last `N` values stays in its slot, and unreached slots stay null |
| SourceBuffers.SourceBuffer.constructor | receiver/renderer.js:37 | `addSourceBuffer(mime)` yields a decoder that is not updating and has accepted no chunk |
| SourceBuffers.SourceBuffer.AppendBuffer | receiver/renderer.js:52-56 | an append may only start while none is in flight; an accepted chunk is logged and starts an append, and a rejected one changes nothing |
| SourceBuffers.SourceBuffer.Complete | receiver/renderer.js:60-61 | the in-flight append completes, and the log is unchanged |
| SenderRenderer.LastN | sender/renderer.js:77 | the flush keeps `min(chunkIdx, MAX)` chunks, namely the last ones produced, in order |
| SenderRenderer.FlushSlot | sender/renderer.js:78-82 | once wrapped, the flush's `i`-th read, slot `(chunkIdx % MAX + i) % MAX`, is the slot of the `(chunkIdx - MAX + i)`-th chunk |
| SenderRenderer.Sender.constructor | sender/renderer.js:31-37 | empty ring, no recorder, `startTime` and `lastChunkTime` null |
| SenderRenderer.Sender.StartScreenShare | sender/renderer.js:151-154 | a granted capture starts a recording recorder and stamps `startTime`; a failed one changes nothing; sent frames are untouched |
| SenderRenderer.Sender.OnDataAvailable | sender/renderer.js:107-148 | the slice duration is 0 without a previous (non-zero) time and the gap otherwise; `lastChunkTime` is set even for an empty chunk; only a non-empty chunk goes to slot `chunkIdx % MAX` and is sent, with idx `chunkIdx + 1`, so the sent indices are 1, 2, 3, … and carry the stored chunks in order |
| SenderRenderer.Sender.OnStop | sender/renderer.js:71-86 | nothing exactly when no chunk was stored; otherwise the last `min(chunkIdx, MAX)` stored chunks in production order, across the wrap |
| SenderRenderer.Sender.StopScreenShare | sender/renderer.js:220-234 | acts exactly when a recorder exists and is not inactive; it then stops it and clears `startTime` and `lastChunkTime`; otherwise nothing changes |
| ReceiverRenderer.Deltas | receiver/renderer.js:85-93 | one schedule delta per frame |
| ReceiverRenderer.DeltaAt | receiver/renderer.js:85-93 | the `k`-th delta is `t_k - (t_0 + dur_0 + … + dur_k)` |
| ReceiverRenderer.DeltasSnoc | receiver/renderer.js:85-93 | a new frame keeps the earlier deltas and appends its own |
| ReceiverRenderer.OnScheduleDeltaIsZero | receiver/renderer.js:85-93 | with the sender's durations (0 first, then `d`) and arrivals exactly every `d` ms, every delta is 0 |
| ReceiverRenderer.OnScheduleStep | receiver/renderer.js:85-91 | the first frame seeds `expectedArrivalTime` with `tNow + dur` and later frames add `dur`, so it is always the first arrival plus every duration so far |
| ReceiverRenderer.SummarizesStep | receiver/renderer.js:114-116 | `sumDelay`, `minDelay` and `maxDelay` stay the sum, minimum and maximum of every logged delta |
| ReceiverRenderer.ExtremesBound | receiver/renderer.js:114-116 | with no delta both extremes are the infinities; otherwise every delta lies in `[minDelay, maxDelay]` and both bounds are attained |
| ReceiverRenderer.AppendQueue.constructor | receiver/renderer.js:39-43 | `N` queue slots, every one null, both indices 0, not updating, idle decoder |
| ReceiverRenderer.AppendQueue.AppendChunk | receiver/renderer.js:45-58 | while an append is in flight, the chunk is queued at `queueTail % N`, every other slot is unchanged and only the tail grows; otherwise it is submitted and `lastAppendTime` stamped, never both; `isUpdating` is set and at most one append is in flight |
| ReceiverRenderer.AppendQueue.Shift | receiver/renderer.js:70-73 | the head slot's chunk is read, the slot nulled and `queueHead` advanced by one; every other slot and the rest of the pending window are kept |
| ReceiverRenderer.AppendQueue.OnUpdateEnd | receiver/renderer.js:60-76 | clears `isUpdating`; with an empty queue nothing else changes (slots, head, `lastAppendTime`, decoder log), otherwise exactly the head chunk is dequeued and submitted; the sequence of chunks that arrived is unchanged |
| ReceiverRenderer.DecoderLogIsPrefix | receiver/renderer.js:45-76 | the decoder receives chunks in the order `appendChunk` was called; only the queued ones and a rejected last one are missing |
| ReceiverRenderer.MergeOrder | receiver/renderer.js:151-154 | the non-null slots among the first `chunkIdx` are every chunk written, in order, until the ring wraps, and after that the last `N` chunks in slot order |
| ReceiverRenderer.Schedule.constructor | receiver/renderer.js:22 | no frame yet: `expectedArrivalTime` and `firstReceiveTime` (line 78) both start null, with no arrivals or durations recorded |
| ReceiverRenderer.Schedule.Advance | receiver/renderer.js:85-109 | the delta is the arrival time minus the first arrival and every duration so far, `-dur` on the first frame; `firstReceiveTime`, once set to a non-zero time, never changes |
| ReceiverRenderer.DelayLog.constructor | receiver/renderer.js:15-21 | empty delay log, sum 0, minimum `Infinity`, maximum `-Infinity` |
| ReceiverRenderer.DelayLog.Add | receiver/renderer.js:111-116 | the delta is logged at `delayInx % N`, and the sum and extremes stay those of every logged delta |
| ReceiverRenderer.DelayLog.Milestone | receiver/renderer.js:174-188 | the label of each of the three marks (none otherwise), the wall-clock difference, the average as the sum of deltas over the array length `N`, and extremes that bound and are attained by the logged deltas |
| ReceiverRenderer.DelayStats.constructor | receiver/renderer.js:12-22 | no frame yet, empty delay log of `N` slots |
| ReceiverRenderer.DelayStats.Record | receiver/renderer.js:85-116 | the frame is timed against the schedule, and the delay log stays the list of every frame's schedule delta |
| ReceiverRenderer.Receiver.constructor | receiver/renderer.js:12-43 | all three rings hold `N` slots and are empty |
| ReceiverRenderer.Receiver.OnFrame | receiver/renderer.js:81-121 | the delta formula, the delay log and its aggregates; the chunk is stored in `receivedChunks` and handed to the feed, which queues it while an append is in flight and otherwise submits it to the decoder (logged if accepted), leaving `isUpdating` set; both keep the chunks in the same order; a stalled decoder stays stalled; `firstReceiveTime` is stable |
| ReceiverRenderer.Receiver.Store | receiver/renderer.js:118-120 | the chunk goes to `receivedChunks` and to the feed, which queues it while an append is in flight and otherwise submits it (logged if accepted), leaving `isUpdating` set; both keep every chunk that arrived, in the same order |
| ReceiverRenderer.Receiver.OnTransmissionEnded | receiver/renderer.js:137-157 | the duration since `firstReceiveTime` (null counts as 0); the merged artifact is every received chunk in arrival order until the ring wraps, and the last `N` chunks in slot order afterwards |
| ViewerRenderer.Jitters | viewer/renderer.js:51-58 | after `n` frames the jitter list has `max(n-1, 0)` entries, entry `k` being `receive[k+1] - receive[k]` |
| ViewerRenderer.JittersSnoc | viewer/renderer.js:54-57 | a new frame adds its gap to the previous frame, if any |
| ViewerRenderer.JittersTelescope | viewer/renderer.js:56-57 | the jitter values add up to `receive[n-1] - receive[0]` |
| ViewerRenderer.MeanJitter | viewer/renderer.js:74 | the average jitter is `(last - first) / (n - 1)` |
| ViewerRenderer.BlockAveragesSnoc | viewer/renderer.js:72-79 | a frame adds a block average exactly when it brings the count to a multiple of 10 |
| ViewerRenderer.BlockAveragesLength | viewer/renderer.js:72-79 | after `n` frames there are `floor(n/10)` block averages |
| ViewerRenderer.BlockAverageIsCumulative | viewer/renderer.js:72-79 | block average `b` is the cumulative jitter average over frames `0..10b+9`, not the average of block `b` alone |
| ViewerRenderer.Feed.constructor | viewer/renderer.js:22-25 | empty queue, not updating, idle decoder |
| ViewerRenderer.Feed.AppendChunk | viewer/renderer.js:28-39 | while an append is in flight the chunk is pushed; otherwise it is submitted, never both; `isUpdating` is set and at most one append is in flight |
| ViewerRenderer.Feed.OnUpdateEnd | viewer/renderer.js:41-47 | clears `isUpdating`; exactly the head of a non-empty queue is shifted off and submitted; the sequence of chunks that arrived is unchanged |
| ViewerRenderer.DecoderLogIsPrefix | viewer/renderer.js:28-47 | the decoder receives chunks in the order `appendChunk` was called; only the queued ones and a rejected last one are missing |
| ViewerRenderer.Viewer.constructor | viewer/renderer.js:5-26 | all measurement lists empty; the feed starts idle: empty queue, `isUpdating` false, a decoder that is not updating and has accepted nothing |
| ViewerRenderer.Viewer.OnFrame | viewer/renderer.js:49-85 | one receive time, one decode time and one chunk per frame; the chunk is pushed on the queue while an append is in flight and otherwise submitted to the decoder (logged if accepted), leaving `isUpdating` set; the jitter list and block averages stay those of the receive times; a report comes exactly every tenth frame, with the mean decode time, the mean jitter (appended to the block averages) and the mean of the block averages |
| ViewerRenderer.Viewer.RecordArrival | viewer/renderer.js:51-58 | the receive time is pushed, and its gap to the previous frame when there is one |
| ViewerRenderer.Viewer.RecordDecode | viewer/renderer.js:65-84 | the decode time is pushed; on every tenth frame the three averages are reported and the jitter average is kept as a block average |

## Left out

- The relay server, the Java capture client and server, and the Electron
  window and IPC bootstrapping are not part of this model. They hold socket
  fan-out, AWT and TCP loops, and window setup, with no bookkeeping of their
  own. What the relay forwards matters to the receiver; see below.
- Frame analysis through `ffprobe` (`analyzeVideoFPS`, `analyzeChunkFrames`)
  is an external tool call.
- The round-trip-time handler in the sender is dead code:
  `firstFrameSentTime` is never assigned.
- Decode-to-display timing through `requestVideoFrameCallback`
  (receiver/renderer.js:63-68) is left out. `lastAppendTime` is kept as an
  opaque clock reading. In the viewer, the measured decode time is a
  parameter.
- Also left out: `pidusage` polling, the `console.log` override and log
  streams, file writes, `Blob`/`FileReader`, `toFixed` formatting, and the
  milestone and auto-stop timers.
- The `lossLog` write at receiver/renderer.js:167 throws on an undefined
  name. It comes after every state change of `transmission-ended`, so the
  model's state is unaffected.
- SenderRenderer.Sender.OnDataAvailable treats the handler as atomic. In the
  code, `await event.data.arrayBuffer()` sits between the ring write and the
  emit, and a data event interleaved there could change the `chunkIdx` that
  is sent as `idx`.
- ReceiverRenderer.Receiver.OnTransmissionEnded takes the wall-clock time as
  given. The code subtracts a `performance.now()` reading (`firstReceiveTime`)
  from a `Date.now()` reading, which mixes two clocks. The model keeps the
  subtraction as written.
- ReceiverRenderer.Receiver.OnFrame requires room in the queue ring
  (`queueTail - queueHead < N`). The code never checks for overwriting an
  unconsumed slot.
- The schedule delta reaches 0 for on-schedule arrivals only if the first
  declared duration is 0, as the sender sends it. The first frame's delta is
  `-dur`, so a non-zero first duration offsets every later delta.
- ReceiverRenderer.Schedule.Advance, ReceiverRenderer.DelayStats.Record and
  ReceiverRenderer.OnScheduleDeltaIsZero take `dur` to be a number, as the
  sender emits it. The relay in server/server.js:20 forwards only `buffer`,
  `sendTime` and `receiveTime`, so `dur` is undefined when frames come
  through that relay. Then `expectedArrivalTime` becomes NaN
  (receiver/renderer.js:87-90), so do `deltaDelay` and `sumDelay` (93, 114),
  and the extremes stay at their infinite seeds (115-116). The model does not
  represent NaN.
- ReceiverRenderer.DelayLog.Milestone models the `milestone` handler
  (receiver/renderer.js:174). server/server.js has no `milestone` handler and
  does not forward that event, so with this relay the handler never runs.
- A decoder that rejected a chunk is not recovered. The code never drops the
  chunk and carries on, so neither does the model.
