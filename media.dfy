/** Values shared by the three renderers: the opaque encoded media chunk and
    the byte artifact that concatenating chunks produces. */
module Media {

  /** The conventional Some/None datatype, standing for a JavaScript value that
      may be `null` (or an unwritten array slot, `undefined`). */
  datatype Option<+T> = None | Some(value: T)

  newtype byte = x: int | 0 <= x < 256

  /** One encoded, time-boxed media segment (a `Uint8Array` or `Blob`). */
  type Chunk = seq<byte>

  /** `Buffer.concat` / `new Blob(parts)`: the bytes of the parts, in order. */
  function Concat(parts: seq<Chunk>): seq<byte>
  {
    if parts == [] then [] else Concat(parts[..|parts| - 1]) + parts[|parts| - 1]
  }

  /** `parts.filter(Boolean)`: the present parts, in slot order. */
  function Present(slots: seq<Option<Chunk>>): seq<Chunk>
  {
    if slots == [] then []
    else Present(slots[..|slots| - 1]) + (if slots[|slots| - 1].Some? then [slots[|slots| - 1].value] else [])
  }

  /** Filtering slots that all hold a chunk drops nothing and keeps the order. */
  lemma {:induction false} PresentAllSome(slots: seq<Option<Chunk>>, parts: seq<Chunk>)
    requires |slots| == |parts|
    requires forall k :: 0 <= k < |slots| ==> slots[k] == Some(parts[k])
    ensures Present(slots) == parts
    decreases |slots|
  {
    if slots != [] {
      PresentAllSome(slots[..|slots| - 1], parts[..|parts| - 1]);
    }
  }
}
