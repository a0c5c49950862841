/**
 * The single shared cell that holds the latest frame: the one-element list
 * `data` of app.py, created holding the empty byte string and overwritten by
 * every successful poll.
 */
module FrameChannel {
  import opened Bytes

  class FrameSlot {
    var frame: seq<Byte>

    /** Before the first capture the slot holds the empty frame. */
    constructor ()
      ensures frame == []
    {
      frame := [];
    }
  }
}
