/** Values shared by the compositor and the player: pixel bytes and the
    frame records that `framesFromGif` builds and the player plays. */
module Frames {

  /** One channel of an RGBA pixel, as stored in a `Uint8ClampedArray`. */
  newtype byte = x: int | 0 <= x < 256

  /** One entry of the frame list: the buffer handed to `putImageData` and
      the delay in milliseconds. The buffer is a reference, as in the source:
      the blit that follows the record's creation writes into it. */
  datatype ImageFrame = ImageFrame(data: array<byte>, delay: nat)

  /** The buffer `createImageData` hands out: every channel zero
      (transparent black). */
  function Zeros(n: nat): (z: seq<byte>)
    ensures |z| == n
    ensures forall k :: 0 <= k < n ==> z[k] == 0
  {
    seq(n, _ => 0)
  }

  /** The delays of a frame list, in order; all the scheduler looks at. */
  function Delays(frames: seq<ImageFrame>): (d: seq<nat>)
    ensures |d| == |frames|
    ensures forall i :: 0 <= i < |frames| ==> d[i] == frames[i].delay
  {
    seq(|frames|, i requires 0 <= i < |frames| => frames[i].delay)
  }
}
