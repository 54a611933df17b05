/**
  The LED sink as the orchestrator sees it: every write hands over one frame
  and one global brightness. Gamma correction and the hardware transfer are
  not modelled; a write is recorded as it is handed over.
 */
module LedDriver {
  import opened Primitives
  import opened Configuration

  /** One call of `update_from_buffer`: the frame and the brightness it was given. */
  datatype LedWrite = LedWrite(frame: seq<RGB8>, brightness: U8)

  /** `LedBuffer::default()`: a frame with every pixel off. */
  function DefaultBuffer(): (f: seq<RGB8>)
    ensures |f| == LED_STRING_SIZE
    ensures forall i :: 0 <= i < |f| ==> f[i] == BLACK
  {
    seq(LED_STRING_SIZE, _ => BLACK)
  }

  /** The write `all_off` makes: the all-off frame at brightness 0. */
  function AllOff(): (w: LedWrite)
    ensures |w.frame| == LED_STRING_SIZE && w.brightness == 0
    ensures forall i :: 0 <= i < |w.frame| ==> w.frame[i] == BLACK
  {
    LedWrite(DefaultBuffer(), 0)
  }

  /** The write `torch` makes: every pixel white, at the given brightness. */
  function Torch(brightness: U8): (w: LedWrite)
    ensures |w.frame| == LED_STRING_SIZE && w.brightness == brightness
    ensures forall i :: 0 <= i < |w.frame| ==> w.frame[i] == WHITE
  {
    LedWrite(seq(LED_STRING_SIZE, _ => WHITE), brightness)
  }
}
