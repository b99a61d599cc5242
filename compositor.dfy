/** `framesFromGif`: turns a decoded GIF into one full-canvas RGBA buffer
    per frame. Each buffer starts blank or as a copy of the previous frame's
    finished buffer, and the decoder's blit then paints the frame into it. */
module Compositor {
  import opened Frames

  /** The part of `frameInfo(i)` the compositor reads. `delay` is in
      hundredths of a second, as stored in the GIF. */
  datatype FrameInfo = FrameInfo(disposal: nat, delay: nat)

  /** The decoder object as the compositor sees it: canvas size, one
      `FrameInfo` per frame (so `numFrames()` is `|info|`), and
      `decodeAndBlitFrameRGBA`, the decoder's own code, as a function from a
      frame index and a buffer's contents to its contents afterwards. */
  datatype GifReader = GifReader(
    width: nat,
    height: nat,
    info: seq<FrameInfo>,
    blit: (nat, seq<byte>) -> seq<byte>)

  /** The one thing assumed of the decoder's blit: it writes into the buffer
      it is given and never changes that buffer's length. */
  ghost predicate BlitPreservesLength(g: GifReader)
  {
    forall i: nat, buf: seq<byte> {:trigger g.blit(i, buf)} :: |g.blit(i, buf)| == |buf|
  }

  /** Bytes in one canvas-sized RGBA buffer. */
  function CanvasBytes(g: GifReader): nat
  {
    g.width * g.height * 4
  }

  /** Reference definition of the finished buffer of frame `i`: frame 0, and
      every frame whose OWN disposal is 2 or more, starts blank; any other
      frame starts from a copy of frame `i - 1`'s finished buffer; the blit of
      frame `i` is then applied. */
  ghost function Composited(g: GifReader, i: nat): (buf: seq<byte>)
    requires BlitPreservesLength(g)
    requires i < |g.info|
    ensures |buf| == CanvasBytes(g)
    decreases i
  {
    var start := if i > 0 && g.info[i].disposal < 2 then Composited(g, i - 1)
                 else Zeros(CanvasBytes(g));
    g.blit(i, start)
  }

  /** Frame `k` depends on the frames from `i` on only, when `i` is the first
      frame or a frame that starts blank: two readers that agree on the canvas,
      on the blit and on frames `i..k` produce the same buffer for frame `k`,
      whatever came before `i` or comes after `k`. With `i == 0` this says that
      frame `k` never depends on later frames. */
  lemma {:induction false} CompositedDependsOnlyOn(g: GifReader, h: GifReader, i: nat, k: nat)
    requires BlitPreservesLength(g) && BlitPreservesLength(h)
    requires g.width == h.width && g.height == h.height && g.blit == h.blit
    requires i <= k < |g.info| && k < |h.info|
    requires g.info[i..k + 1] == h.info[i..k + 1]
    requires i == 0 || g.info[i].disposal >= 2
    ensures Composited(g, k) == Composited(h, k)
    decreases k
  {
    assert g.info[k] == g.info[i..k + 1][k - i];
    assert h.info[k] == h.info[i..k + 1][k - i];
    if k > i {
      assert g.info[i..k] == g.info[i..k + 1][..k - i];
      assert h.info[i..k] == h.info[i..k + 1][..k - i];
      CompositedDependsOnlyOn(g, h, i, k - 1);
    } else {
      assert k == i;
    }
  }

  /** `decodeAndBlitFrameRGBA(i, buf)`: the decoder paints frame `i` into
      `buf` in place. */
  method DecodeAndBlit(g: GifReader, i: nat, buf: array<byte>)
    requires BlitPreservesLength(g)
    modifies buf
    ensures buf[..] == g.blit(i, old(buf[..]))
  {
    var painted := g.blit(i, buf[..]);
    forall k | 0 <= k < buf.Length {
      buf[k] := painted[k];
    }
  }

  /** `imageData.data.set(new Uint8ClampedArray(previous))`: copies the
      contents of `previous` into `dst`; the two stay separate arrays. */
  method SetFrom(dst: array<byte>, previous: array<byte>)
    requires dst.Length == previous.Length && dst != previous
    modifies dst
    ensures dst[..] == previous[..]
  {
    forall k | 0 <= k < dst.Length {
      dst[k] := previous[k];
    }
  }

  /** No two frames of the list share a buffer. */
  ghost predicate Unaliased(frames: seq<ImageFrame>)
  {
    forall j, l :: 0 <= j < l < |frames| ==> frames[j].data != frames[l].data
  }

  /** A frame whose buffer no earlier frame uses keeps the list unaliased. */
  lemma UnaliasedAppend(frames: seq<ImageFrame>, frame: ImageFrame)
    requires Unaliased(frames)
    requires forall j :: 0 <= j < |frames| ==> frames[j].data != frame.data
    ensures Unaliased(frames + [frame])
  {
  }

  /** One pass of the loop in `framesFromGif`: `createImageData` gives a
      fresh blank buffer; when `i > 0` and the frame's own disposal is below 2,
      the previous frame's finished buffer is copied into it; the record
      `{data, delay * 10}` is made, and the blit paints frame `i` into its
      buffer. The record holds the buffer by reference, so the blit after the
      record is made shows in the record. */
  method BuildFrame(g: GifReader, i: nat, previous: array<byte>) returns (frame: ImageFrame)
    requires BlitPreservesLength(g) && i < |g.info|
    requires i > 0 ==> previous[..] == Composited(g, i - 1)
    ensures fresh(frame.data) && frame.data.Length == CanvasBytes(g)
    ensures frame.data[..] == Composited(g, i)
    ensures frame.delay == g.info[i].delay * 10
  {
    var data := new byte[CanvasBytes(g)](_ => 0);
    assert data[..] == Zeros(CanvasBytes(g));
    if i > 0 && g.info[i].disposal < 2 {
      SetFrom(data, previous);
    }
    frame := ImageFrame(data, g.info[i].delay * 10);
    DecodeAndBlit(g, i, data);
  }

  /** `framesFromGif(gif)`: preallocates the frame list and fills it in
      order. Every buffer is a fresh canvas-sized array, so building frame `i`
      leaves frames `0..i-1` as they were. Delays are scaled to milliseconds. */
  method FramesFromGif(g: GifReader) returns (width: nat, height: nat, frames: array<ImageFrame>)
    requires BlitPreservesLength(g)
    ensures width == g.width && height == g.height
    ensures fresh(frames) && frames.Length == |g.info|
    ensures forall i :: 0 <= i < frames.Length ==>
              && fresh(frames[i].data)
              && frames[i].data.Length == CanvasBytes(g)
              && frames[i].data[..] == Composited(g, i)
              && frames[i].delay == g.info[i].delay * 10
    ensures Unaliased(frames[..])
  {
    width, height := g.width, g.height;
    var size := CanvasBytes(g);
    var frameCount := |g.info|;
    // `new Array(frameCount)` holds no frames yet; `hole` stands for its empty slots
    var hole := new byte[0];
    frames := new ImageFrame[frameCount](_ => ImageFrame(hole, 0));
    var i := 0;
    while i < frameCount
      invariant 0 <= i <= frameCount
      invariant forall j :: 0 <= j < i ==>
                  && fresh(frames[j].data)
                  && frames[j].data.Length == size
                  && frames[j].data[..] == Composited(g, j)
                  && frames[j].delay == g.info[j].delay * 10
      invariant Unaliased(frames[..i])
    {
      ghost var built := frames[..i];
      var frame := BuildFrame(g, i, if i > 0 then frames[i - 1].data else hole);
      frames[i] := frame;
      assert frames[..i + 1] == built + [frame];
      UnaliasedAppend(built, frame);
      i := i + 1;
    }
    assert frames[..] == frames[..frameCount];
  }
}
