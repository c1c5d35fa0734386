/**
 * The selection state of the `Overlay` component (src/index.tsx:22-35):
 * whether the scene may start (`ready`) and the audio bytes of a file the
 * user chose, if any (`arrayBuffer`). The overlay starts in "selecting";
 * either the Play button or choosing a file moves it to "ready", and
 * nothing moves it back.
 */
module Overlay {
  import opened Wrappers
  import opened FrequencyData

  /** The contents of a JavaScript `ArrayBuffer`. */
  type Bytes = seq<Byte>

  class OverlayState {
    var ready: bool
    var arrayBuffer: Option<Bytes>

    /** A stored buffer is always accompanied by `ready`: it is set only just before `ready` is. */
    ghost predicate Valid()
      reads this
    {
      arrayBuffer.Some? ==> ready
    }

    /** `useState(false)` and `useState<ArrayBuffer>()`: not ready, no buffer. */
    constructor ()
      ensures Valid()
      ensures !ready && arrayBuffer == None
    {
      ready := false;
      arrayBuffer := None;
    }

    /** `handlePlayClick`: becomes ready and keeps whatever buffer there is. */
    method HandlePlayClick()
      requires Valid()
      modifies this
      ensures Valid()
      ensures ready
      ensures arrayBuffer == old(arrayBuffer)
    {
      ready := true;
    }

    /**
     * `addFile`, taken as one step: `file` is the first selected file's
     * contents, or None when no file was chosen or reading it was rejected
     * (then neither state update runs). With no file nothing
     * changes; otherwise its bytes are stored and the overlay becomes ready.
     */
    method AddFile(file: Option<Bytes>)
      requires Valid()
      modifies this
      ensures Valid()
      ensures file.None? ==> ready == old(ready) && arrayBuffer == old(arrayBuffer)
      ensures file.Some? ==> ready && arrayBuffer == file
      ensures old(ready) ==> ready
    {
      if file.Some? {
        arrayBuffer := file;
        ready := true;
      }
    }
  }
}
