# gif-player in Dafny

A model of the `<gif-player>` web component (`gif-player.js`): a custom
element that turns a GIF into a list of full-canvas RGBA frames and plays
them on a canvas, advancing on animation-frame ticks according to each
frame's delay, under `play()` / `pause()` control.

The project has four modules:

- `Frames` (`frames.dfy`): the `byte` of a `Uint8ClampedArray`, the frame
  record `{data, delay}` as `ImageFrame` (its buffer is an `array<byte>`,
  shared by reference as in the source), the zero-filled buffer of
  `createImageData`.
- `Compositor` (`compositor.dfy`): `framesFromGif`. The decoder object is a
  `GifReader` value holding the canvas size, each frame's `disposal` and
  `delay`, and `decodeAndBlitFrameRGBA` as a function from a frame index and a
  buffer's contents to the contents afterwards. `FramesFromGif` fills a
  preallocated `array<ImageFrame>` in a loop, allocating one fresh buffer per
  frame, and is proved against the reference function `Composited`.
- `Schedule` (`schedule.dfy`): the index and timing arithmetic as pure
  functions. `Render` is what one `renderFrame(progress)` call does, `Tick`
  is one call of the `step` callback, `Run` is a sequence of ticks. The
  lemmas about them cover cycling, stalling and range.
- `Player` (`player.dfy`): the `GifPlayer` class. It holds the fields the
  source updates (`frames`, `currentFrame`, `playing`, `width`, `height`,
  `animationFrame`) and the closure variable `previousTimestamp` of `step`.
  It also holds the canvas as the list `drawn` of indices handed to
  `putImageData`, and the browser's side of the animation-frame requests. That
  side is the set `pendingTicks` of handles still waiting and the counter
  `nextHandle`. Each method states its whole new state in terms of
  `Schedule`'s functions. The invariant `Valid()` says that at most one
  request is pending and that it is the one `animationFrame` names.

Behaviour of the code that the model keeps:

- When there are two or more frames, the last frame is never drawn. A render
  with the index on the last frame resets it to 0 first.
- With one frame, the first advancing render leaves the index at 1, past the
  end. From then on `renderFrame` throws, because `frames[1]` is undefined,
  and `step` never advances.
- A frame whose delay is 0 never advances. A missing frame counts as delay 0,
  since `undefined` and 0 are both falsy.
- A tick advances only when the elapsed time is strictly greater than the
  delay.
- The very first tick only sets the baseline, and an unset baseline is
  represented as 0.
- `pause()` and `play()` do not touch the baseline. The paused time therefore
  counts towards the next frame.
- `loadSource` does not reset `currentFrame`.
- Disposal is read from the frame being built, not from the previous frame.
  Disposal values 0 and 1 keep the previous frame's pixels. Any value of 2 or
  more starts from a blank buffer.
- A throw in the width branch of `updated` skips the height branch.

Where this differs from the general design of such a player, the model
follows the code. A design would reset the baseline on `play`, compare with
`>=`, wrap the index modulo the frame count, and implement restore-to-previous
and sub-rectangle disposal. The code does none of these.

Millisecond timestamps are integers. A thrown TypeError is modelled as a
`false` result with no change of state at the point of the throw.

## Model

| member | source | states |
|---|---|---|
| `Frames.Zeros` | gif-player.js:109 | `createImageData` gives a buffer of the requested length whose channels are all 0 |
| `Compositor.Composited` | gif-player.js:107-118 | reference definition of frame `i`'s finished buffer; its length is `width*height*4` for every frame, given a length-preserving blit |
| `Compositor.CompositedDependsOnlyOn` | gif-player.js:110-117 | frame `k` depends only on frames `i..k` when `i` is frame 0 or starts blank (disposal >= 2); so no frame depends on later ones, and a blank start cuts off everything earlier |
| `Compositor.DecodeAndBlit` | gif-player.js:117 | the blit rewrites the buffer in place to `blit(i, old contents)` |
| `Compositor.SetFrom` | gif-player.js:111 | copies the previous frame's contents into the new buffer, which stays a separate array |
| `Compositor.BuildFrame` | gif-player.js:108-117 | one loop pass: a fresh canvas-sized buffer that ends up holding `Composited(g, i)`, in a record whose delay is the raw delay times 10 |
| `Compositor.FramesFromGif` | gif-player.js:101-121 | returns the reader's width and height and exactly `numFrames` frames; each buffer is fresh, `width*height*4` long and holds `Composited(g, i)`; no two frames share a buffer, so building a frame leaves the earlier ones as they were; each delay is the raw delay times 10 |
| `Schedule.Render` | gif-player.js:76-85 | empty list: nothing happens; index past the end: throws and changes nothing; otherwise draws the index (0 if it was on the last frame) and moves it up by one exactly when `progress` |
| `Schedule.RenderKeepsIndexInRange` | gif-player.js:78-84 | with two or more frames and the index in range, a render draws a frame other than the last and keeps the index in range |
| `Schedule.SingleFrameRunsOffTheEnd` | gif-player.js:77-84 | with one frame, the first advancing render draws frame 0 and leaves the index at 1; every render after that throws |
| `Schedule.RedrawIsIdempotent` | gif-player.js:36-44 | a non-advancing render leaves the index on the frame it drew, so repeating it draws that frame again and changes nothing |
| `Schedule.Tick` | gif-player.js:62-74 | at most one frame per tick; it advances exactly when playing, a baseline was set, the current frame exists with a nonzero delay, and strictly more than that delay has passed; on advance the baseline becomes the tick's time, otherwise the index stays and an unset baseline becomes the tick's time |
| `Schedule.Run` | gif-player.js:64-73 | a run of ticks draws at most one frame per tick |
| `Schedule.RunStalls` | gif-player.js:67-68 | paused, on a zero-delay frame or past the end of the list, any run of ticks draws nothing and leaves the index unchanged |
| `Schedule.RunCycles` | gif-player.js:64-84 | with two or more frames, over any run of ticks: the index stays in range, the last frame is never drawn, the drawn frames follow the cycle 0..count-2 from the starting index, and the index ends one past the last drawn frame |
| `Schedule.TimingExample` | gif-player.js:64-84 | delays 100/200/50 ms with ticks at 1000, 1100, 1101, 1300, 1302 and 1360 ms draw frames 0, 1, 0 |
| `Player.GifPlayer.constructor` | gif-player.js:18-23 | a new element is playing, at frame 0, with no frames, no request made and no baseline |
| `Player.GifPlayer.RequestAnimationFrame` | gif-player.js:53 | a new request gets a fresh handle and becomes pending |
| `Player.GifPlayer.CancelAnimationFrame` | gif-player.js:52 | cancelling removes the handle from the pending requests, and does nothing if it is not pending |
| `Player.GifPlayer.Play` | gif-player.js:51-55 | afterwards exactly one request is pending (the new one), whatever was pending before and however often it is called; playing is on; the baseline, index and frames are unchanged |
| `Player.GifPlayer.Pause` | gif-player.js:57-60 | afterwards no request is pending and playing is off, from any state (so it is idempotent); the baseline, handle, index and frames are unchanged |
| `Player.GifPlayer.RenderFrame` | gif-player.js:76-85 | the index and the canvas change exactly as `Schedule.Render` says; the result is false exactly when the render throws |
| `Player.GifPlayer.Step` | gif-player.js:62-74 | index, baseline and canvas change exactly as `Schedule.Tick` says; exactly one fresh request is pending afterwards; frames and the playing flag are unchanged |
| `Player.GifPlayer.LoadSource` | gif-player.js:91-97 | width, height and frames are replaced wholesale with `framesFromGif`'s result (unaliased buffers holding `Composited`); exactly one advancing render follows from the unreset index; playback state and requests are unchanged |
| `Player.GifPlayer.Updated` | gif-player.js:36-45 | one non-advancing render per changed dimension, all drawing the same frame; the height's render is skipped if the width's throws; nothing else changes |

## Left out

- Fetching the GIF (`fetch`, `arrayBuffer`, gif-player.js:88-90) is network I/O. The model's `LoadSource` starts from a decoded reader.
- GIF parsing and LZW decoding (`GifReader`, `decodeAndBlitFrameRGBA`) belong to the omggif library, which is not part of this model. The blit is a function field of the reader. The one thing assumed of it, `BlitPreservesLength`, is that it never changes a buffer's length.
- Canvas and DOM calls are modelled only by their effect on state. `putImageData` appends the index to `drawn`. `createImageData` gives a zero-filled buffer. `querySelector`, `getContext`, `document.createElement` and setting `canvas.width`/`canvas.height` are left out.
- `Frames.Zeros`: does not model `createImageData` throwing when the width or height is 0. That is browser behaviour, not code in the component.
- `requestAnimationFrame` and `cancelAnimationFrame` are modelled only for this element's requests: a handle counter and a set of pending handles. The browser's frame loop is not modelled. A tick is an explicit call of `Step` with an integer timestamp, and Step may only be called while the request is pending. Floating-point timestamps are not modelled.
- The LitElement plumbing is framework glue and is left out. This covers `static properties`, `render`, `firstUpdated` (which calls `loadSource` once), `customElements.define` and the `bind` calls in the constructor. The calling of `updated` with the changed properties is left out too: `Updated` takes the two "changed" flags as inputs.
- `loadSource` is asynchronous. Its interleaving with ticks, and a rejected promise after a throwing render, are not modelled: a throw is reported through the `ok` result.
- The storybook file `stories/gif-player.stories.js` only has buttons that call `play` and `pause`. It contains no logic of its own.
- Restore-to-previous disposal, clearing of sub-rectangles and transparency are not modelled because the code does not implement them. The blit's effect on pixels is whatever the reader's function does.
