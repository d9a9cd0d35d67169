/** The browser's single-consumer streaming decoder (a Media Source
    `SourceBuffer`), seen from outside: it takes one `appendBuffer` at a time,
    is `updating` until that append completes, and then raises `updateend`. */
module SourceBuffers {
  import opened Media

  class SourceBuffer {
    /** True from an accepted `appendBuffer` until its `updateend`. */
    var updating: bool
    /** The chunks the decoder has accepted, in the order it got them. */
    var log: seq<Chunk>

    constructor ()
      ensures !updating && log == []
    {
      updating := false;
      log := [];
    }

    /** `appendBuffer(chunk)`. Whether the decoder accepts the chunk or throws
        is decided outside the model (`accepted`); a throw leaves the decoder
        as it was. Calling it while an append is in flight is not allowed. */
    method AppendBuffer(chunk: Chunk, accepted: bool)
      requires !updating
      modifies this
      ensures updating == accepted
      ensures log == if accepted then old(log) + [chunk] else old(log)
    {
      if accepted {
        updating := true;
        log := log + [chunk];
      }
    }

    /** The in-flight append completes; `updateend` is raised afterwards. */
    method Complete()
      requires updating
      modifies this
      ensures !updating && log == old(log)
    {
      updating := false;
    }
  }
}
