# JetTest1 compositor and frame loop, modelled in Dafny

JetTest1 is a small Win32 program: a software framebuffer is composited every frame from a
background image and a plane sprite, then blitted to a native window. The arrow keys move the
sprite, and a timer raises a score until the game closes itself at 100.

This project models the two pieces of pure logic in it:

- The software compositor of `Renderer`. The state is a fixed-length BGRA byte framebuffer of
  `width*height*4` bytes, row-major and top-down. `Clear` is an opaque fill. `DrawImage` blits a
  BGRA image at `(posX, posY)`. It clips pixel by pixel, blends B, G and R with source-over
  alpha, and forces the destination alpha to 255. `Present` fails when no window handle is set,
  and otherwise hands the framebuffer unchanged to the window.
- One iteration of the main loop of `Program.Main`. It covers the sprite movement rule (left
  beats right, up beats down, each move clamped to `[0, window - image]`), the draw order of a
  frame (clear to black, background at the origin, sprite at its position), and the score timer
  with its sticky goal latch.

Layout:

- `wrappers.dfy` (`Wrappers`): `Result`, standing in for the exception `Present` throws.
- `pixels.dfy` (`Pixels`): `byte`, `Color`, `Color.Black`, the BGRA channel layout, `Blend`.
- `geometry.dfy` (`Geometry`): the index arithmetic `(y*width + x)*4 + k` and its inverse.
- `compositor.dfy` (`Compositor`): the `Renderer` state, with `Clear`, `DrawImage` and `Present`.
  `Clear` and `DrawImage` are methods whose loops follow the C# loops. Each is proved equal to a
  reference function: `Cleared`, and `Drawn`, which is defined destination byte by destination
  byte. The per-pixel lemmas are stated against those reference functions.
- `movement.dfy` (`Movement`): the sprite step as a pure function of position and held keys.
- `score.dfy` (`Score`): the timer tick, the goal check, and histories of both events.
- `game.dfy` (`Game`): the composed frame, and one loop iteration as a method.

The framebuffer is a value (`seq<byte>`) inside an immutable `Renderer` datatype, so it is not an
array mutated in place. Each operation returns the next renderer. The loops in `Clear` and
`DrawImage` still update the buffer one byte at a time, in the order the C# code writes it.
`DrawImage` reads the destination bytes before it writes them, as the source does. The sprite's
keys, the window handle and the timer ticks are inputs.

Blending uses the integer formula `(s*a + d*(255-a)) / 255`, truncating as the `(byte)` cast
does. The source computes it in `float`. The two agree exactly when `a = 0` and when `a = 255`,
and the properties of blended colour that carry over to the source are the ones at those two
endpoints. The code truncates, and the model follows the code; a rounding blend would differ at
intermediate alpha. `Blend` also states that its result lies between the source and destination
values. That bound is a fact about the integer model only: in the `float` code rounding error can
put the result one below `min(s, d)` (for example `s = d = 3`, `a = 65` gives 2).

## Model

| member | source | states |
|---|---|---|
| `Pixels.Blend` | Renderer.cs:90-93 | With source alpha 255 the result is the source channel; with alpha 0 it is the destination channel; in every case it lies between the two. |
| `Geometry.ByteIndexInBounds` | Renderer.cs:77-88 | For `x < w`, `y < h`, `k < 4`, the offset `(y*w + x)*4 + k` is below `w*h*4`. This covers both the source read index (image of `imgWidth*imgHeight*4` bytes) and the destination index (framebuffer). |
| `Geometry.CoordinatesOfIndex` | Renderer.cs:84 | The offset of `(x, y, k)` decodes back to column `x`, row `y` and channel `k`, so distinct pixels have disjoint bytes. |
| `Geometry.IndexOfCoordinates` | Renderer.cs:84 | Every byte of a `w*h*4` buffer is the offset of exactly one in-range `(x, y, k)`. |
| `Compositor.NewRenderer` | Renderer.cs:17-22 | The constructor gives a framebuffer of exactly `width*height*4` zero bytes and no window handle. |
| `Compositor.SetWindowHandle` | Renderer.cs:25-28 | Only the handle changes; the size and every framebuffer byte are kept. |
| `Compositor.Filled` | Renderer.cs:31-41 | A filled buffer of `n` pixels has `4n` bytes, and every pixel `i < n` holds `(c.B, c.G, c.R, c.A)` at bytes `4i..4i+3`. |
| `Compositor.Cleared` | Renderer.cs:31-41 | After a clear, every pixel `(x, y)` of the framebuffer has colour `c`; the size and the handle are kept. |
| `Compositor.ClearIdempotent` | Renderer.cs:31-41 | Clearing twice with the same colour gives the same renderer as clearing once. |
| `Compositor.Clear` | Renderer.cs:31-41 | The byte-by-byte loop over `width*height` pixels produces exactly the cleared renderer. |
| `Compositor.Drawn` | Renderer.cs:65-97 | A draw keeps the renderer's size, its handle and the framebuffer length: nothing is reallocated. |
| `Compositor.DrawnByte` | Renderer.cs:77-94 | The reference value of destination byte `j` after a draw, computed from the pixel `j` belongs to. Outside the placed image it is the old byte. Under it, the alpha byte is 255, and a colour byte is the source byte where the source alpha is 255 and the old byte where it is 0. |
| `Compositor.DrawSpec` | Renderer.cs:65-97 | The reference framebuffer after a draw, defined destination byte by destination byte. It has the old length, and every byte that differs from the old buffer belongs to a pixel under the placed image. |
| `Compositor.DrawPixelStep` | Renderer.cs:77-94 | Blending one in-frame source pixel into its destination pixel advances the blit by exactly that pixel and changes no other byte. |
| `Compositor.DrawImage` | Renderer.cs:65-97 | The nested row and column loops, with the per-pixel clip `continue`s, produce exactly the destination-defined `Drawn` result, for every position including negative ones. No index they touch is out of range. |
| `Compositor.DrawnByteAt` | Renderer.cs:77-94 | Byte `k` of destination pixel `(x, y)` after a draw. Under the image, the alpha byte is 255 and a colour byte is the source channel blended over the old byte with the source alpha. Elsewhere the old byte is kept. |
| `Compositor.DrawPixel` | Renderer.cs:77-94 | The same, stated per pixel. A covered pixel becomes `(255, blend R, blend G, blend B)` of the source over the old pixel. An uncovered pixel keeps its colour. |
| `Compositor.DrawKeepsUncovered` | Renderer.cs:67-75 | Clipping: a pixel not under the placed image keeps all four bytes, for any `posX` and `posY`. |
| `Compositor.DrawChangesOnlyCovered` | Renderer.cs:67-75 | Any byte a draw changes belongs to a pixel inside `[0,width) x [0,height)` that lies under the image placed at `(posX, posY)`. |
| `Compositor.DrawForcesOpaque` | Renderer.cs:94 | Every pixel a draw touches ends with alpha 255, whatever the source alpha and the old alpha were. |
| `Compositor.DrawOpaqueCopies` | Renderer.cs:90-94 | Where the source pixel has alpha 255, the destination pixel becomes exactly the source pixel. |
| `Compositor.DrawTransparentKeeps` | Renderer.cs:90-94 | Where the source pixel has alpha 0, the destination keeps its B, G and R, and its alpha becomes 255. |
| `Compositor.Present` | Renderer.cs:100-126 | Present fails with `WindowHandleNotSet` exactly when the handle is zero. Otherwise it hands over the framebuffer byte for byte, all `width*height*4` bytes, and the renderer is left as it was. |
| `Compositor.ApplyCommand` | Renderer.cs:12-21 | Any single call (clear, draw, set handle) keeps the renderer valid and its size fixed. |
| `Compositor.ExecuteKeepsSize` | Renderer.cs:12-21 | No sequence of calls resizes the framebuffer: it keeps `width*height*4` bytes and the renderer keeps its width and height. |
| `Movement.MoveAxis` | Program.cs:143-163 | One axis of the rule. The key towards 0 gives `max(0, v - 10)`; otherwise the key away from 0 gives `min(limit, v + 10)`; with neither, `v` stays. A value in `[0, limit]` stays there. |
| `Movement.Step` | Program.cs:143-163 | The sprite's next position from the held keys: x by left/right with limit `1280 - imgWidth`, y by up/down with limit `720 - imgHeight`. An in-bounds position stays in bounds, and with no key held nothing moves. |
| `Movement.StepHorizontal` | Program.cs:143-152 | With left held, x becomes `max(0, x - 10)`. With right held and left not held, x becomes `min(1280 - imgWidth, x + 10)`. With neither, x stays. |
| `Movement.StepVertical` | Program.cs:154-163 | With up held, y becomes `max(0, y - 10)`. With down held and up not held, y becomes `min(720 - imgHeight, y + 10)`. With neither, y stays. |
| `Movement.StepAxesIndependent` | Program.cs:143-163 | The new x depends only on left and right, and the new y only on up and down. |
| `Movement.StepNoKeys` | Program.cs:143-163 | With no arrow key held, the position is unchanged. |
| `Movement.StartInBounds` | Program.cs:129-130 | The start position (100, 100) is in bounds exactly when `imgWidth <= 1180` and `imgHeight <= 620`. |
| `Movement.StepInBounds` | Program.cs:143-163 | From a position in `[0, 1280-imgWidth] x [0, 720-imgHeight]`, a step stays in that rectangle and moves at most 10 on each axis. |
| `Movement.RunInBounds` | Program.cs:136-163 | A sprite that starts in bounds stays in bounds for any sequence of per-frame key states. |
| `Score.OnTimedEvent` | Program.cs:189-192 | One timer tick adds 10 to the score and leaves the goal flag alone. |
| `Score.CheckGoal` | Program.cs:174-178 | A score of at least 100 sets the flag to 1. A flag already 1 stays 1. Below 100 nothing changes. The score is never touched. |
| `Score.RunScore` | Program.cs:189-192 | After any history of ticks and goal checks, the score is the initial score plus 10 per tick. |
| `Score.RunScoreMonotone` | Program.cs:189-192 | The score at an earlier moment of a history is never above the score at a later one. |
| `Score.LatchSticky` | Program.cs:174-183 | Once the goal flag is 1 at some moment of a history, it is 1 at every later moment, so the close request repeats on every later frame. |
| `Score.LatchReached` | Program.cs:174-183 | The flag is 1 after a history exactly when it was 1 at the start, or some goal check saw a score of at least 100. |
| `Game.Composed` | Program.cs:165-167 | The composed frame (clear to black, background at (0, 0), sprite at its position) keeps the renderer's size and handle. |
| `Game.FrameOpaque` | Program.cs:165-167 | Every pixel of a composed frame has alpha 255. |
| `Game.FrameSpriteOnTop` | Program.cs:165-167 | Where a sprite pixel is opaque, the frame shows exactly that pixel, whatever the background holds there. The sprite is drawn over the background. |
| `Game.FrameBackground` | Program.cs:165-167 | Away from the sprite, the frame shows the background blended over black, or black where the background does not reach. |
| `Game.DrawOrderMatters` | Program.cs:165-167 | Over an opaque pixel, drawing the second image last blends it in, while drawing it first lets the opaque image cover it. The two orders give different pixels wherever that blend differs from the opaque pixel. |
| `Game.Frame` | Program.cs:141-185 | One loop iteration: the sprite moves by the step rule, the renderer becomes the composed frame, and the score is untouched. WM_CLOSE is posted exactly when the score is at least 100 or the flag was already set. Present fails exactly when the handle is zero, and otherwise shows the composed framebuffer. |

## Left out

- `LoadImagePixels` (Renderer.cs:45-60): it decodes through `System.Drawing.Bitmap` and `LockBits`, which are foreign calls. The model takes the decoded `(pixels, width, height)` as an `Image`. So the loader's failure case and its "shape" guarantee are not modelled.
- The GDI part of `Present` (Renderer.cs:105-141): device contexts, `CreateDIBSection`, its failure exception, `BitBlt` and the cleanup. This is Win32 interop. `Present` returns the bytes it would copy.
- `Pixels.Blend`: it models the truncating integer formula, not the `float` arithmetic of Renderer.cs:90-93. For alpha strictly between 0 and 255 the two can differ by rounding, so no property of the blended colour is claimed there for the source. In particular the bound "between `s` and `d`" holds of the integer formula only; the `float` code can fall one below `min(s, d)`.
- `Compositor.DrawImage`: it requires the pixel array to hold at least `imgWidth*imgHeight*4` bytes, on every call. The source reads only the bytes of source pixels whose destination survives the clip: the `continue`s at Renderer.cs:70 and :75 come before the reads at :78-81. So the source also draws, without an exception, a shorter array whose missing bytes belong only to clipped pixels (for example a 2x1 image of 4 bytes at `posX = width - 1`); the model excludes such calls. When a read does fall past the end, the source throws `IndexOutOfRangeException` after the earlier pixels are already written; neither the exception nor that partial write is modelled. Every call site (Program.cs:118 and :121) passes an array from `LoadImagePixels`, which locks the bitmap as `Format32bppArgb` with stride `4*width`, so it holds exactly `width*height*4` bytes. Image sizes are natural numbers, since a decoded bitmap never has a negative size.
- `Compositor.NewRenderer`: width and height are natural numbers. The source's `int` overflow of `width*height*4`, and its exception for a negative size, are not modelled.
- Window creation, class registration, the message pump and the P/Invoke declarations (Program.cs:13-63, 75-112, 136-139, 195-211): OS plumbing.
- `GetAsyncKeyState` polling (Program.cs:143-163): the four keys are boolean inputs to the step.
- `TextOut` of the score and the `PostMessage` call itself: OS side effects. `Game.Frame` returns `close` instead of posting WM_CLOSE.
- The `System.Timers.Timer` thread racing the loop (Program.cs:124-127, 189-192): concurrency. A tick is a discrete event in a history.
- `Score.RunScore`: the score is an unbounded integer, so the 32-bit wrap-around of `score += 10` is not modelled. It would take more than 200 million ticks.
