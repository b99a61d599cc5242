/** The `GifPlayer` element's playback: its fields, `play`, `pause`, the
    per-tick `step` handler, `renderFrame`, the tail of `loadSource` and the
    resize branch of `updated`. */
module Player {
  import opened Frames
  import Compositor
  import Schedule

  class GifPlayer {
    var frames: seq<ImageFrame>
    var currentFrame: nat
    var playing: bool
    var width: nat
    var height: nat
    /** Handle of the latest animation-frame request; 0 while none has been
        made (the field is `undefined` then, and falsy like 0). */
    var animationFrame: nat
    /** The variable `step`'s closure keeps between ticks; 0 while unset
        (`undefined` and 0 are both falsy, so they act alike). */
    var previousTimestamp: int
    /** The frame indices handed to `putImageData`, oldest first. */
    var drawn: seq<nat>
    /** The browser's side of this element's animation-frame requests: the
        handles still waiting for their callback, and the handle the next
        request is given. */
    var pendingTicks: set<nat>
    var nextHandle: nat

    /** At most one request is pending, and it is the one `animationFrame`
        names; handles are positive and increase, so a new one is never a
        pending one. */
    ghost predicate Valid()
      reads this
    {
      && 0 < nextHandle
      && animationFrame < nextHandle
      && 0 !in pendingTicks
      && pendingTicks <= {animationFrame}
    }

    /** The delays of the loaded frames. */
    function Delays(): seq<nat>
      reads this
    {
      Frames.Delays(frames)
    }

    /** The state one tick of `step` works on. */
    function Head(): Schedule.Playhead
      reads this
    {
      Schedule.Playhead(currentFrame, previousTimestamp)
    }

    /** A new element: playing, at frame 0, with no frames and no request
        made yet. */
    constructor ()
      ensures Valid()
      ensures playing && currentFrame == 0 && frames == [] && drawn == []
      ensures width == 0 && height == 0
      ensures animationFrame == 0 && previousTimestamp == 0 && pendingTicks == {}
    {
      playing := true;
      currentFrame := 0;
      frames := [];
      width, height := 0, 0;
      animationFrame := 0;
      previousTimestamp := 0;
      drawn := [];
      pendingTicks, nextHandle := {}, 1;
    }

    /** `requestAnimationFrame(this.step)`: the browser hands out a new handle
        and keeps the request until its callback runs or it is cancelled. */
    method RequestAnimationFrame() returns (handle: nat)
      modifies this`pendingTicks, this`nextHandle
      ensures handle == old(nextHandle) && nextHandle == old(nextHandle) + 1
      ensures pendingTicks == old(pendingTicks) + {handle}
    {
      handle := nextHandle;
      nextHandle := nextHandle + 1;
      pendingTicks := pendingTicks + {handle};
    }

    /** `cancelAnimationFrame(handle)`: drops the request if it is still
        pending, and does nothing otherwise. */
    method CancelAnimationFrame(handle: nat)
      modifies this`pendingTicks
      ensures pendingTicks == old(pendingTicks) - {handle}
    {
      pendingTicks := pendingTicks - {handle};
    }

    /** `play()`: cancels the request `animationFrame` names, if any was made,
        arms a new one and turns playback on. Whatever came before, exactly
        one request is pending afterwards; the tick baseline is kept. */
    method Play()
      requires Valid()
      modifies this
      ensures Valid()
      ensures playing
      ensures pendingTicks == {animationFrame}
      ensures animationFrame == old(nextHandle) && nextHandle == old(nextHandle) + 1
      ensures previousTimestamp == old(previousTimestamp)
      ensures frames == old(frames) && currentFrame == old(currentFrame) && drawn == old(drawn)
      ensures width == old(width) && height == old(height)
    {
      if animationFrame != 0 {
        CancelAnimationFrame(animationFrame);
      }
      animationFrame := RequestAnimationFrame();
      playing := true;
    }

    /** `pause()`: turns playback off and cancels the request
        `animationFrame` names, if any was made. Afterwards no request is
        pending, whatever came before; the handle and the tick baseline are
        kept. */
    method Pause()
      requires Valid()
      modifies this
      ensures Valid()
      ensures !playing
      ensures pendingTicks == {}
      ensures animationFrame == old(animationFrame) && nextHandle == old(nextHandle)
      ensures previousTimestamp == old(previousTimestamp)
      ensures frames == old(frames) && currentFrame == old(currentFrame) && drawn == old(drawn)
      ensures width == old(width) && height == old(height)
    {
      playing := false;
      if animationFrame != 0 {
        CancelAnimationFrame(animationFrame);
      }
    }

    /** `renderFrame(progress)`: does `Schedule.Render` to the index and the
        canvas. On `MissingFrame` it throws, which `ok == false` stands for. */
    method RenderFrame(progress: bool) returns (ok: bool)
      modifies this`currentFrame, this`drawn
      ensures var r := Schedule.Render(|frames|, old(currentFrame), progress);
              && ok == !r.MissingFrame?
              && if r.Drawn? then currentFrame == r.next && drawn == old(drawn) + [r.index]
                 else currentFrame == old(currentFrame) && drawn == old(drawn)
    {
      if |frames| == 0 {
        return true;
      }
      if currentFrame == |frames| - 1 {
        currentFrame := 0;
      }
      if currentFrame >= |frames| {
        // `this.frames[this.currentFrame].data` reads a property of undefined
        return false;
      }
      drawn := drawn + [currentFrame];
      if progress {
        currentFrame := currentFrame + 1;
      }
      ok := true;
    }

    /** The callback `step` returns, run by the browser for the pending
        request `animationFrame`, which the browser retires first. The tick
        does what `Schedule.Tick` says to the index, the baseline and the
        canvas (so at most one frame per tick), and a new request is always
        armed, paused or not. */
    method Step(timestamp: int)
      requires Valid() && animationFrame in pendingTicks
      modifies this
      ensures Valid()
      ensures var t := Schedule.Tick(old(Delays()), old(playing), old(Head()), timestamp);
              Head() == t.head && drawn == old(drawn) + t.drawn
      ensures pendingTicks == {animationFrame}
      ensures animationFrame == old(nextHandle) && nextHandle == old(nextHandle) + 1
      ensures frames == old(frames) && playing == old(playing)
      ensures width == old(width) && height == old(height)
    {
      pendingTicks := pendingTicks - {animationFrame};
      if previousTimestamp == 0 {
        previousTimestamp := timestamp;
      }
      var delta := timestamp - previousTimestamp;
      var delay := if currentFrame < |frames| then frames[currentFrame].delay else 0;
      if playing && delay != 0 && delta > delay {
        previousTimestamp := timestamp;
        var ok := RenderFrame(true);
        assert ok;
      }
      animationFrame := RequestAnimationFrame();
    }

    /** The tail of `loadSource`, from the decoded GIF on: the frames are
        built, `width`, `height` and `frames` are replaced wholesale, and one
        advancing render follows, from the index as it was (it is not reset).
        `ok == false` stands for that render throwing. */
    method LoadSource(reader: Compositor.GifReader) returns (ok: bool)
      requires Valid() && Compositor.BlitPreservesLength(reader)
      modifies this
      ensures Valid()
      ensures width == reader.width && height == reader.height
      ensures |frames| == |reader.info|
      ensures forall i :: 0 <= i < |frames| ==>
                && fresh(frames[i].data)
                && frames[i].data[..] == Compositor.Composited(reader, i)
                && frames[i].delay == reader.info[i].delay * 10
      ensures Compositor.Unaliased(frames)
      ensures var r := Schedule.Render(|reader.info|, old(currentFrame), true);
              && ok == !r.MissingFrame?
              && if r.Drawn? then currentFrame == r.next && drawn == old(drawn) + [r.index]
                 else currentFrame == old(currentFrame) && drawn == old(drawn)
      ensures playing == old(playing) && previousTimestamp == old(previousTimestamp)
      ensures animationFrame == old(animationFrame) && pendingTicks == old(pendingTicks)
      ensures nextHandle == old(nextHandle)
    {
      var w, h, list := Compositor.FramesFromGif(reader);
      width := w;
      height := h;
      frames := list[..];
      ok := RenderFrame(true);
    }

    /** The resize branches of `updated`: a changed width and a changed
        height each cause one non-advancing render, the height's only if the
        width's did not throw. Both renders show the same frame. */
    method Updated(widthChanged: bool, heightChanged: bool) returns (ok: bool)
      modifies this
      ensures var r := Schedule.Render(|frames|, old(currentFrame), false);
              var renders := (if widthChanged then 1 else 0) + (if heightChanged then 1 else 0);
              && ok == (renders == 0 || !r.MissingFrame?)
              && if renders > 0 && r.Drawn? then
                   currentFrame == r.index && drawn == old(drawn) + seq(renders, _ => r.index)
                 else
                   currentFrame == old(currentFrame) && drawn == old(drawn)
      ensures frames == old(frames) && playing == old(playing)
      ensures previousTimestamp == old(previousTimestamp) && animationFrame == old(animationFrame)
      ensures pendingTicks == old(pendingTicks) && nextHandle == old(nextHandle)
      ensures width == old(width) && height == old(height)
    {
      ok := true;
      if widthChanged {
        ok := RenderFrame(false);
      }
      if ok && heightChanged {
        if widthChanged && |frames| > 0 {
          Schedule.RedrawIsIdempotent(|frames|, old(currentFrame));
        }
        ok := RenderFrame(false);
      }
    }
  }
}
