/** The arithmetic of playback: what one `renderFrame` call does to the
    frame index, what one tick of `step` does to the index and the
    timestamp baseline, and what a run of ticks adds up to. The player's
    methods are specified by these functions. */
module Schedule {

  /** The effect of one `renderFrame(progress)` call. `NoFrames`: the list
      is empty and nothing happens. `Drawn`: frame `index` goes to the canvas
      and the index becomes `next`. `MissingFrame`: the index points past the
      list, so reading the frame's `data` throws a TypeError before anything
      is drawn or changed. */
  datatype Rendered = NoFrames | Drawn(index: nat, next: nat) | MissingFrame

  /** `renderFrame(progress)` over a list of `count` frames with the index at
      `current`: an index on the last frame is first reset to 0; the frame at
      the index is drawn; the index then moves up by one if `progress`. */
  function Render(count: nat, current: nat, progress: bool): (r: Rendered)
    ensures r.NoFrames? <==> count == 0
    ensures r.MissingFrame? <==> 0 < count <= current
    ensures r.Drawn? ==> r.index < count
    ensures r.Drawn? ==> r.index == Shown(count, current)
    ensures r.Drawn? ==> r.next == (if progress then r.index + 1 else r.index)
  {
    if count == 0 then NoFrames
    else
      var shown := if current == count - 1 then 0 else current;
      if shown < count then Drawn(shown, if progress then shown + 1 else shown)
      else MissingFrame
  }

  /** With two or more frames and the index in range, a render keeps the index
      in range and never draws the last frame. */
  lemma RenderKeepsIndexInRange(count: nat, current: nat, progress: bool)
    requires 2 <= count && current < count
    ensures Render(count, current, progress).Drawn?
    ensures Render(count, current, progress).index < count - 1
    ensures Render(count, current, progress).next < count
  {
  }

  /** A one-frame list: the first advancing render draws frame 0 and leaves
      the index at 1, past the end; every later render throws. */
  lemma SingleFrameRunsOffTheEnd(progress: bool)
    ensures Render(1, 0, true) == Drawn(0, 1)
    ensures Render(1, 1, progress) == MissingFrame
  {
  }

  /** A non-advancing render (the resize hook) settles the index: repeating
      it draws the same frame and changes nothing more. */
  lemma RedrawIsIdempotent(count: nat, current: nat)
    requires Render(count, current, false).Drawn?
    ensures var r := Render(count, current, false);
            r.next == r.index && Render(count, r.index, false) == r
  {
  }

  /** The playback state `step` works on: the frame index and the
      timestamp baseline, where 0 stands for "not set yet". */
  datatype Playhead = Playhead(current: nat, baseline: int)

  /** The outcome of a tick or a run of ticks: the new playhead and the
      indices drawn, oldest first. */
  datatype Ticked = Ticked(head: Playhead, drawn: seq<nat>)

  /** When a tick at `timestamp` advances: playback is on, a baseline was
      already set by an earlier tick, the current frame exists with a nonzero
      delay, and strictly more than that delay has passed since the baseline. */
  predicate Advances(delays: seq<nat>, playing: bool, p: Playhead, timestamp: int)
  {
    && playing
    && p.baseline != 0
    && p.current < |delays|
    && 0 < delays[p.current] < timestamp - p.baseline
  }

  /** One call of `step(timestamp)`: an unset baseline becomes `timestamp`;
      the delay of the current frame is read (a missing frame reads as no
      delay); the frame advances by one advancing render when playback is on,
      the delay is nonzero and the time since the baseline exceeds it, and
      then the baseline becomes `timestamp`. */
  function Tick(delays: seq<nat>, playing: bool, p: Playhead, timestamp: int): (r: Ticked)
    ensures |r.drawn| <= 1
    ensures r.drawn != [] <==> Advances(delays, playing, p, timestamp)
    ensures r.drawn == [] ==>
              r.head == Playhead(p.current, if p.baseline == 0 then timestamp else p.baseline)
    ensures r.drawn != [] ==>
              && r.head.baseline == timestamp
              && Render(|delays|, p.current, true) == Drawn(r.drawn[0], r.head.current)
  {
    var baseline := if p.baseline == 0 then timestamp else p.baseline;
    var delta := timestamp - baseline;
    var delay := if p.current < |delays| then delays[p.current] else 0;
    if playing && delay != 0 && delta > delay then
      var render := Render(|delays|, p.current, true);
      Ticked(Playhead(render.next, timestamp), [render.index])
    else
      Ticked(Playhead(p.current, baseline), [])
  }

  /** The ticks at `timestamps`, one after the other, with `playing` fixed. */
  function Run(delays: seq<nat>, playing: bool, p: Playhead, timestamps: seq<int>): (r: Ticked)
    ensures |r.drawn| <= |timestamps|
    decreases |timestamps|
  {
    if timestamps == [] then Ticked(p, [])
    else
      var first := Tick(delays, playing, p, timestamps[0]);
      var rest := Run(delays, playing, first.head, timestamps[1..]);
      Ticked(rest.head, first.drawn + rest.drawn)
  }

  /** The playhead is stuck, whatever the ticks: paused, on a frame that
      has a zero delay, or past the end of the list. Such a run draws nothing
      and leaves the index where it was. */
  lemma {:induction false} RunStalls(delays: seq<nat>, playing: bool, p: Playhead, timestamps: seq<int>)
    requires !playing || p.current >= |delays| || delays[p.current] == 0
    ensures Run(delays, playing, p, timestamps).drawn == []
    ensures Run(delays, playing, p, timestamps).head.current == p.current
    decreases |timestamps|
  {
    if timestamps != [] {
      var first := Tick(delays, playing, p, timestamps[0]);
      assert first.drawn == [] && first.head.current == p.current;
      RunStalls(delays, playing, first.head, timestamps[1..]);
    }
  }

  /** The frame a render shows when the index is at `current`: the last
      frame's position shows frame 0. */
  function Shown(count: nat, current: nat): nat
  {
    if current == count - 1 then 0 else current
  }

  /** With two or more frames and the index in range, the index stays in
      range over any run of ticks, however the ticks are timed: the first
      frame drawn is the one at the index (frame 0 if that is the last one),
      each later one is the next in the cycle `0, 1, ..., count - 2, 0, ...`,
      the last frame is never drawn, and the index ends one past the frame
      drawn last. */
  lemma {:induction false} RunCycles(delays: seq<nat>, playing: bool, p: Playhead, timestamps: seq<int>)
    requires 2 <= |delays| && p.current < |delays|
    ensures var r := Run(delays, playing, p, timestamps);
            && r.head.current < |delays|
            && (forall k :: 0 <= k < |r.drawn| ==> r.drawn[k] < |delays| - 1)
            && (r.drawn != [] ==> r.drawn[0] == Shown(|delays|, p.current))
            && (forall k :: 0 < k < |r.drawn| ==>
                  r.drawn[k] == if r.drawn[k - 1] == |delays| - 2 then 0 else r.drawn[k - 1] + 1)
            && (r.drawn == [] ==> r.head.current == p.current)
            && (r.drawn != [] ==> r.head.current == r.drawn[|r.drawn| - 1] + 1)
    decreases |timestamps|
  {
    if timestamps != [] {
      var first := Tick(delays, playing, p, timestamps[0]);
      var rest := Run(delays, playing, first.head, timestamps[1..]);
      var r := Run(delays, playing, p, timestamps);
      assert r.drawn == first.drawn + rest.drawn && r.head == rest.head;
      RenderKeepsIndexInRange(|delays|, p.current, true);
      RunCycles(delays, playing, first.head, timestamps[1..]);
      if first.drawn != [] && rest.drawn != [] {
        assert r.drawn[1] == rest.drawn[0];
      }
    }
  }

  /** Frames with delays 100, 200 and 50 ms, ticks at 1000, 1100, 1101, 1300,
      1302 and 1360 ms. The first tick only sets the baseline; 100 ms after it
      is not enough (the test is strict); the third tick draws frame 0; frame 1
      follows 201 ms later; the last frame is skipped, but its 50 ms delay
      decides when frame 0 comes round again. */
  lemma TimingExample()
    ensures Run([100, 200, 50], true, Playhead(0, 0), [1000, 1100, 1101, 1300, 1302, 1360])
            == Ticked(Playhead(1, 1360), [0, 1, 0])
  {
  }
}
