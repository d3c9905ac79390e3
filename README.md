# Mandelbrot renderer: progressive four-pass fill, index mapping and escape-time control flow

This project models the rendering core of a WPF Mandelbrot-set viewer, `GenerateImage` in
`MandelbrotSetWPF/MainWindow.xaml.cs`, and proves properties of the model in Dafny.

- **Escape** (`escape.dfy`). This is `GetColor`: the loop `for (i = 0; i < maxIterations; i++)`.
  It records the step index `i` it has reached and breaks once the squared magnitude passes 2^16.
  When the recorded index is `maxIterations - 1` it returns `uint.MaxValue`. Otherwise it packs a
  grey `lerp << 16 | lerp << 8 | lerp`. The magnitude test is abstracted as the oracle `escapes`.
  The floating-point smoothing is abstracted as the oracle `shade`, which gives the `uint` value
  `lerp` when the loop stopped at step `k`.
- **Mapping** (`mapping.dfy`). This is the integer part of the pixel mapping: `col = index % width`,
  `row = index / width`. Its inverse is the row-major linear index that `WritePixels` uses.
- **Progressive** (`progressive.dfy`). This gives the four-pass block fill as functions on the
  buffer's contents. In pass `p`, block `i` samples the colour of index `4i + p`. It then paints
  that colour over the indices `4i + p .. 4i + 3` that lie inside the buffer.
- **Render** (`render.dfy`). This is the imperative `GenerateImage`. It allocates a zeroed `uint`
  array and hands the pass loop to `Task.Run` with the cancellation token. Each pass has a block
  loop that looks at the token once per block. Each block maps its index to a column and row,
  runs `GetColor` on that pixel, and paints with the inner `j` loop. After each pass the loop
  checks the token, then either stops or flushes the buffer. A flush is recorded as a snapshot of
  the array. The method returns the list of snapshots, the number of passes started, and whether
  the task started at all.

Cancellation is modelled by ticks. Each look at the token takes one tick:
- tick 0 is the look `Task.Run` takes before it starts the task (line 148);
- after that, one tick per block (line 120) and one after every block loop (line 140).

The token reads as requested from tick `cancelAt` onward, or never when `cancelAt` is `None`.
`Parallel.For` is modelled as a sequential loop over the blocks. `state.Break()` returns normally
and no `return` follows it, so the block that sees the token still computes and writes its colour;
the loop starts no later block.
`Progressive.ScheduleIrrelevant` shows that the order of the blocks does not change the result.

Behaviour of the code that the model keeps:
- A point that escapes on the very last permitted step gets the interior sentinel `uint.MaxValue`
  (lines 74 and 84-85), just like a point that never escapes.
- `maxIterations <= 0` is not rejected. The loop never runs, and the point is shaded as stopped at
  step 0 (lines 74 and 84-95).
- An empty bitmap still runs four passes, and each pass flushes an empty buffer (lines 114-146).
- A cancelled pass is not flushed, even though some of its blocks have already written
  (lines 118-141).
- A token that is already cancelled when `Task.Run` would start the task stops everything: no pass
  runs, nothing is flushed, and the `await` throws `TaskCanceledException` (lines 112 and 148).

## Model

| member | source | states |
|---|---|---|
| Escape.Pack | MandelbrotSetWPF/MainWindow.xaml.cs:95 | the grey packing of line 95, three shifted copies of `lerp` or-ed together on 32 bits; it has no contract of its own, and its properties are `PackChannels`, `PackNotInterior` and `PackInjective` |
| Escape.Channel | MandelbrotSetWPF/MainWindow.xaml.cs:95 | reads byte `k` of a Bgr32 colour so that the packing can be stated byte by byte; its only own ensures is the mask bound `< 256` |
| Escape.PackChannels | MandelbrotSetWPF/MainWindow.xaml.cs:95 | for `lerp < 256` the packing holds `lerp` in bits 0-7, 8-15 and 16-23 and 0 in bits 24-31 |
| Escape.PackNotInterior | MandelbrotSetWPF/MainWindow.xaml.cs:85-95 | a grey packed from a byte is never `uint.MaxValue`, so escaped and interior colours are distinct |
| Escape.PackInjective | MandelbrotSetWPF/MainWindow.xaml.cs:95 | distinct bytes give distinct greys |
| Escape.StopFrom | MandelbrotSetWPF/MainWindow.xaml.cs:74-82 | from step `i` on, the loop stops at the first escaping step, or at the last step if none escapes; the stop is in `[i, maxIterations)` and no step before it escapes |
| Escape.LastStep | MandelbrotSetWPF/MainWindow.xaml.cs:74-82 | the recorded index is in `[0, maxIterations-1]`; no step before it escapes; it escapes or is the last step; it is 0 when the loop never runs |
| Escape.LastStepIsFirstEscape | MandelbrotSetWPF/MainWindow.xaml.cs:74-82 | any step that escapes (or is the last) with no escaping step before it is the recorded index |
| Escape.ColorOf | MandelbrotSetWPF/MainWindow.xaml.cs:84-95 | the interior/escaped classification: the sentinel when the recorded index is `maxIterations - 1`, else the grey of its shade; it has no contract of its own, and its properties are `NoEarlyEscapeIsInterior`, `InteriorMeansNoEarlyEscape`, `EarlyEscapeIsShaded`, `SingleStepIsInterior` and `EmptyBudgetIsShaded` |
| Escape.GetColor | MandelbrotSetWPF/MainWindow.xaml.cs:66-96 | the imperative loop with `break` returns exactly `ColorOf`: the sentinel when the recorded step is `maxIterations - 1`, otherwise the grey of the shade at the recorded step |
| Escape.NoEarlyEscapeIsInterior | MandelbrotSetWPF/MainWindow.xaml.cs:74-85 | if no step before the last one escapes, the result is `uint.MaxValue`, also when the point escapes on the last step |
| Escape.InteriorMeansNoEarlyEscape | MandelbrotSetWPF/MainWindow.xaml.cs:84-95 | converse: when the shades fit a byte, a `uint.MaxValue` result means that no step before the last escaped |
| Escape.EarlyEscapeIsShaded | MandelbrotSetWPF/MainWindow.xaml.cs:84-95 | a point that first escapes at step `k < maxIterations - 1` gets the grey packing of the shade at `k` |
| Escape.SingleStepIsInterior | MandelbrotSetWPF/MainWindow.xaml.cs:74-85 | with `maxIterations == 1` every point gets `uint.MaxValue` |
| Escape.EmptyBudgetIsShaded | MandelbrotSetWPF/MainWindow.xaml.cs:74-95 | with `maxIterations <= 0` the loop never runs and the result is the grey of the shade at step 0 |
| Mapping.PixelOf | MandelbrotSetWPF/MainWindow.xaml.cs:124 | the column is below `width` and `row * width + col` is the index |
| Mapping.IndexOf | MandelbrotSetWPF/MainWindow.xaml.cs:145 | the row-major index `row * width + col` of the buffer handed to `WritePixels`; it has no contract of its own, and its properties are `IndexOfPixelOf` and `PixelOfIndexOf` |
| Mapping.PixelInImage | MandelbrotSetWPF/MainWindow.xaml.cs:124 | an index below `width * height` maps to a column below `width` and a row below `height` |
| Mapping.IndexOfPixelOf | MandelbrotSetWPF/MainWindow.xaml.cs:124 | mapping an index to (col, row) and back to the row-major index gives the index |
| Mapping.PixelOfIndexOf | MandelbrotSetWPF/MainWindow.xaml.cs:145 | a pixel at row-major index `row * width + col` with `col < width` maps back to (col, row) |
| Progressive.BlockCount | MandelbrotSetWPF/MainWindow.xaml.cs:118 | the `length / 4` blocks of a pass; it has no contract of its own, and `FullImage` states that the blocks cover all but the last `length % 4` indices |
| Progressive.BlockWrite | MandelbrotSetWPF/MainWindow.xaml.cs:127-128 | a block's write keeps the buffer length; its contents are given by `BlockWriteAt` |
| Progressive.BlockWriteAt | MandelbrotSetWPF/MainWindow.xaml.cs:123-128 | block `i` of pass `p` changes exactly the positions `j` of block `i` with `j % 4 >= p` inside the buffer, all to the block's colour |
| Progressive.Pass | MandelbrotSetWPF/MainWindow.xaml.cs:118-128 | running a pass's blocks keeps the buffer length; its contents are given by `PassAt` |
| Progressive.PassNext | MandelbrotSetWPF/MainWindow.xaml.cs:118-128 | one-step unfolding of `Pass`: the sequential loop runs block `k` after blocks `0..k-1`, with the colour sampled at `4k + p` |
| Progressive.PassAt | MandelbrotSetWPF/MainWindow.xaml.cs:118-128 | after blocks `0..k-1` of pass `p`, index `j` holds the colour of `4*(j/4) + p` when `j/4 < k` and `j % 4 >= p`, otherwise its old value |
| Progressive.RunBlocks | MandelbrotSetWPF/MainWindow.xaml.cs:118 | running blocks in any listed order keeps the buffer length; its contents are given by `RunBlocksAt` |
| Progressive.RunBlocksAt | MandelbrotSetWPF/MainWindow.xaml.cs:118-128 | in whatever order the blocks run, index `j` is painted exactly when its block ran and `j % 4 >= p` |
| Progressive.BlockWritesCommute | MandelbrotSetWPF/MainWindow.xaml.cs:118-128 | two different blocks of a pass write disjoint ranges, so their writes commute |
| Progressive.ScheduleIrrelevant | MandelbrotSetWPF/MainWindow.xaml.cs:118-128 | any two schedules that run the same blocks leave the same buffer |
| Progressive.ScheduleIsSequential | MandelbrotSetWPF/MainWindow.xaml.cs:118-128 | any schedule of exactly the blocks `0..k-1` leaves what the sequential loop leaves |
| Progressive.Blank | MandelbrotSetWPF/MainWindow.xaml.cs:64 | `new uint[length]`; its ensures spell out that this is `length` zeros, which the tail results rely on |
| Progressive.AfterPasses | MandelbrotSetWPF/MainWindow.xaml.cs:114-128 | the buffer after `q` full passes has the buffer's length; its contents are given by `AfterPassesAt` |
| Progressive.AfterPassesNext | MandelbrotSetWPF/MainWindow.xaml.cs:114-128 | one-step unfolding of `AfterPasses`: pass `q` runs all its blocks over the result of passes `0..q-1` |
| Progressive.Snapshots | MandelbrotSetWPF/MainWindow.xaml.cs:143-146 | the sequence of buffers flushed after the first `q` passes has length `q`, and entry `k` is the buffer after `k + 1` passes |
| Progressive.AfterPassesAt | MandelbrotSetWPF/MainWindow.xaml.cs:114-128 | after `q` passes, index `j < 4*(length/4)` holds the colour of `4*(j/4) + min(j % 4, q-1)` and the tail holds 0 |
| Progressive.FullImage | MandelbrotSetWPF/MainWindow.xaml.cs:114-128 | after four passes `pixels[j] == color(j)` for every `j < 4*(length/4)`, the `length % 4` tail still holds 0, and `4*(length/4)` is `length - length % 4` |
| Progressive.RefinedStaysFinal | MandelbrotSetWPF/MainWindow.xaml.cs:114-128 | once pass `j % 4` has run, index `j` holds its own colour, and no later pass changes it |
| Progressive.PassTouchesOnly | MandelbrotSetWPF/MainWindow.xaml.cs:114-128 | pass `p` changes only indices of the painted prefix with `j % 4 >= p`; block positions before `p` and the tail stay unchanged |
| Render.ColorAt | MandelbrotSetWPF/MainWindow.xaml.cs:123-125 | the colour of linear index `index`: `GetColor`'s classification of the point of its column and row; it has no contract of its own, and `FinalPixel` states what it gives a painted pixel |
| Render.Requested | MandelbrotSetWPF/MainWindow.xaml.cs:120 | whether the token reads as requested at a tick (`IsCancellationRequested`); it has no contract of its own, and `BlocksRun`, `RunPass` and `GenerateImage` state their results in terms of it |
| Render.BlocksRun | MandelbrotSetWPF/MainWindow.xaml.cs:118-121 | a pass runs all its blocks unless one sees the token; then it runs that block and the blocks before it, and no earlier block saw the token |
| Render.Flushed | MandelbrotSetWPF/MainWindow.xaml.cs:140-146 | at most four passes are flushed, and none when the token is already requested when the task would start; `CancelledInPass` and `NotCancelledInAnyPass` tie the count to the pass in which the token is first seen |
| Render.FinalPixel | MandelbrotSetWPF/MainWindow.xaml.cs:114-128 | after the fourth pass, every painted pixel shows `GetColor` of its own column and row, and both lie inside the image |
| Render.SampleColor | MandelbrotSetWPF/MainWindow.xaml.cs:123-125 | what a running block computes: the column and row of its index, then the `GetColor` loop on that pixel, giving the colour `ColorAt` assigns (the value `RunBlock` paints) |
| Render.FillBlock | MandelbrotSetWPF/MainWindow.xaml.cs:127-128 | the inner `j` loop leaves the array equal to `BlockWrite` of its old contents |
| Render.RunBlock | MandelbrotSetWPF/MainWindow.xaml.cs:123-128 | a started block samples with `SampleColor` and paints, leaving the array equal to `BlockWrite` of its old contents with the colour of `ColorAt` at `4i + p` |
| Render.BlockLoop | MandelbrotSetWPF/MainWindow.xaml.cs:118-138 | the block loop uses one tick per block, and the array becomes the old contents with the first `BlocksRun` blocks applied; the block that sees the token still writes |
| Render.PassStartIs | MandelbrotSetWPF/MainWindow.xaml.cs:114-141 | the block loop of pass `p` starts at tick `1 + p * (blocks + 1)`: after the look of `Task.Run` and `blocks + 1` looks for each earlier pass |
| Render.UncancelledPassRanAll | MandelbrotSetWPF/MainWindow.xaml.cs:118-141 | if the check after the block loop does not see the token, every block of the pass ran |
| Render.CancelledInPass | MandelbrotSetWPF/MainWindow.xaml.cs:114-146 | a token first seen during pass `p` means exactly `p` passes are flushed |
| Render.NotCancelledInAnyPass | MandelbrotSetWPF/MainWindow.xaml.cs:114-146 | a token not seen before the end of pass 3 means all four passes are flushed |
| Render.RunPass | MandelbrotSetWPF/MainWindow.xaml.cs:116-141 | the token check after the block loop reports cancellation exactly when the token was requested by then; if it was not, every block ran and the array holds the full pass |
| Render.PassLoop | MandelbrotSetWPF/MainWindow.xaml.cs:114-147 | once the task has started, the flushes are `Snapshots` of the successive full passes, their number is the number of passes finished before the token is seen, and one pass more is started unless all four were flushed |
| Render.GenerateImage | MandelbrotSetWPF/MainWindow.xaml.cs:62-152 | the task starts exactly when the token is not yet requested at tick 0; the flushes, on a fresh zero buffer of `width * height` pixels, are the successive pass results under the `GetColor` colours; a cancelled pass is not flushed, and no pass runs after it; no pass runs if the task did not start |

## Left out

- Floating-point numerics are abstracted through the oracles `escapes` and `shade`. These are: the `Complex` iteration and the magnitude test (lines 78-80), the `Log(Log(...,2),2)` smoothing (line 88), `Lerp` and `iterations % 1` (lines 56-57 and 93), and the `(uint)` cast of a possibly negative double (line 93).
- The scaling of (column, row) by `_size` and `_position` (lines 124 and 205) and the viewport update in `Update` (lines 258-261) are float arithmetic. The model keeps only the integer index mapping. Each pixel gets its own `escapes` and `shade` oracle, indexed by its column and row.
- InteriorMeansNoEarlyEscape: holds only when every shade is below 256. For small budgets the `(uint)` cast of a negative double is platform-defined and could produce a larger `lerp`. The packing of such a value is modelled as written (32-bit shifts), but nothing is claimed about it.
- Progress reporting (lines 130-137) is left out. It uses the racy `completed++` counter, the shared `_percentage` field, a float percentage, and `Dispatcher.Invoke`.
- Real parallelism is left out. Under cancellation, blocks with indices above the breaking block may already have started in `Parallel.For`, and they may write into the buffer of the cancelled pass. That buffer is never flushed, so the flushes are unaffected.
- Cancelling, disposing and recreating `CancellationTokenSource` across overlapping calls (lines 102-107) is left out. The model captures only the effect of a later call's `Cancel()` on a run's token. That effect is the run's `cancelAt`.
- Overlapping runs that share the viewport are not modelled. A run's viewport is fixed for the whole run: the per-pixel `escapes` and `shade` of `RenderInput` do not change. The source copies only the width, the height and `maxIterations` to locals (lines 98-100). Line 124 re-reads the shared fields `_size` and `_position` for every block. `Update` (line 261) and `Reset` (lines 272-273) write those fields before the new `GenerateImage` cancels the old token at line 102. In that window the old run's remaining blocks sample the new viewport. If the old run's check at line 140 also falls in that window, it may flush a pass that mixes both viewports.
- The `TaskCanceledException` that the `await` throws out of the `async void` method when the task never started (lines 112 and 148) is left out. The model reports it only as `started == false` with no flushes.
- `Image.PixelWidth * Image.PixelHeight` is taken as an unbounded `nat` product. The bitmap is 1920 by 1080 (line 173), far below the 32-bit limit.
- The UI work around the render is left out: the progress-text and checkmark visibility (lines 109-110 and 150-151), window chrome, dragging and zooming, the storyboard, the Iterations/PaletteLength dependency-property linking (lines 28-48), and saving a PNG (lines 283-299).
- `ColorPicker.xaml.cs`, `ColorSelect.xaml.cs` and `Themes.xaml.cs` are UI widget code with no rendering logic and are not part of this model.
