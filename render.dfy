/** `GenerateImage`: a fresh buffer of `width * height` pixels, filled in four passes; after each
    pass that was not cancelled the buffer is flushed to the display.

    `Parallel.For` is modelled as the sequential loop over the blocks (the order does not matter,
    see `Progressive.ScheduleIrrelevant`). The cancellation token is modelled by ticks: every look at
    the token takes one tick, and the token reads as requested from tick `cancelAt` on, or never
    when `cancelAt` is `None`. Tick 0 is the look of `Task.Run` before the task starts; after it,
    every block looks once, and every pass looks once more after its block loop. */
module Render {
  import Escape
  import Mapping
  import Progressive

  datatype Option<T> = None | Some(value: T)

  /** The input of one rendering: the bitmap's size, the iteration budget, and for the point of
      each pixel (`col`, `row`) the escape test and the shade of `GetColor`. The viewport behind
      these oracles is fixed for the whole run. */
  datatype RenderInput = RenderInput(
    width: nat,
    height: nat,
    maxIterations: int,
    escapes: (nat, nat) -> nat -> bool,
    shade: (nat, nat) -> nat -> bv32)

  /** The number of pixels of the bitmap, `PixelWidth * PixelHeight`. */
  function Size(input: RenderInput): nat
  {
    input.width * input.height
  }

  /** The colour `GetColor` gives the pixel at linear index `index`. The block loop only ever asks
      for an index inside the buffer, so `width` is positive whenever this is consulted. */
  function ColorAt(input: RenderInput, index: nat): bv32
  {
    if input.width == 0 then 0
    else
      var (col, row) := Mapping.PixelOf(index, input.width);
      Escape.ColorOf(input.escapes(col, row), input.shade(col, row), input.maxIterations)
  }

  function Colors(input: RenderInput): nat -> bv32
  {
    (index: nat) => ColorAt(input, index)
  }

  /** Whether the token reads as requested at tick `tick`. */
  predicate Requested(cancelAt: Option<nat>, tick: nat)
  {
    cancelAt.Some? && cancelAt.value <= tick
  }

  /** How many blocks a pass of `blocks` blocks runs when its block loop starts at tick `tick`: all of
      them, unless one sees the token, in which case that block and the ones before it. */
  function BlocksRun(blocks: nat, cancelAt: Option<nat>, tick: nat): (count: nat)
    ensures count <= blocks
    ensures count < blocks ==> count > 0 && Requested(cancelAt, tick + count - 1)
    ensures forall t :: tick <= t < tick + count - 1 ==> !Requested(cancelAt, t)
  {
    match cancelAt
    case Some(c) =>
      if blocks > 0 && c < tick + blocks then (if c <= tick then 1 else c - tick + 1) else blocks
    case None =>
      blocks
  }

  /** How many passes are flushed when the buffer has `blocks` blocks: none when the task is
      cancelled before it starts (tick 0); otherwise pass `p` takes the ticks `PassStart(p, blocks)`
      to `PassStart(p, blocks) + blocks`, and is flushed when none of them sees the token. */
  function Flushed(blocks: nat, cancelAt: Option<nat>): (count: nat)
    ensures count <= Progressive.PassCount
    ensures Requested(cancelAt, 0) ==> count == 0
  {
    if cancelAt.None? then Progressive.PassCount
    else if cancelAt.value == 0 then 0
    else Progressive.Min(Progressive.PassCount, (cancelAt.value - 1) / (blocks + 1))
  }

  /** After the fourth pass each pixel of the painted prefix shows the colour `GetColor` gives the
      point of its own column and row, and that column and row lie inside the image. */
  lemma FinalPixel(input: RenderInput, j: nat)
    requires j < 4 * Progressive.BlockCount(Size(input))
    ensures input.width > 0
    ensures var (col, row) := Mapping.PixelOf(j, input.width);
      col < input.width && row < input.height &&
      Progressive.AfterPasses(Size(input), Colors(input), Progressive.PassCount)[j] ==
        Escape.ColorOf(input.escapes(col, row), input.shade(col, row), input.maxIterations)
  {
    Progressive.FullImage(Size(input), Colors(input), j);
    Mapping.PixelInImage(j, input.width, input.height);
  }

  /** Lines `position = ...; color = GetColor(position, maxIterations)` of a block: the column and
      row of `index`, then the loop of `GetColor` on that pixel's point. */
  method SampleColor(input: RenderInput, index: nat) returns (color: bv32)
    requires input.width > 0
    ensures color == ColorAt(input, index)
  {
    var (col, row) := Mapping.PixelOf(index, input.width);
    color := Escape.GetColor(input.escapes(col, row), input.shade(col, row), input.maxIterations);
  }

  /** The inner loop `for (j = index; j < i * 4 + 4 && j < length; j++) pixels[j] = color`. */
  method FillBlock(pixels: array<bv32>, pass: nat, i: nat, color: bv32)
    modifies pixels
    ensures pixels[..] == Progressive.BlockWrite(old(pixels[..]), pass, i, color)
  {
    var j := i * 4 + pass;
    while j < i * 4 + 4 && j < pixels.Length
      invariant i * 4 + pass <= j
      invariant j == i * 4 + pass || (j <= i * 4 + 4 && j <= pixels.Length)
      invariant forall k :: 0 <= k < pixels.Length ==>
        pixels[k] == if i * 4 + pass <= k < j then color else old(pixels[k])
    {
      pixels[j] := color;
      j := j + 1;
    }
    assert forall k :: 0 <= k < pixels.Length ==>
      pixels[..][k] == Progressive.BlockWrite(old(pixels[..]), pass, i, color)[k];
  }

  /** A buffer with at least one pixel has a positive width. */
  lemma PositiveSizeHasWidth(input: RenderInput)
    requires Size(input) > 0
    ensures input.width > 0
  {
  }

  /** Block `i` of pass `pass` once it is started (lines 123-128): sample the colour of index
      `4 * i + pass`, then paint its part of the block. */
  method RunBlock(pixels: array<bv32>, input: RenderInput, pass: nat, i: nat)
    requires pass < Progressive.PassCount
    requires i < Progressive.BlockCount(pixels.Length)
    requires pixels.Length == Size(input)
    modifies pixels
    ensures pixels[..] == Progressive.BlockWrite(old(pixels[..]), pass, i, Colors(input)(4 * i + pass))
  {
    var index := i * 4 + pass;
    PositiveSizeHasWidth(input);
    var color := SampleColor(input, index);
    FillBlock(pixels, pass, i, color);
  }

  /** The block loop of pass `pass`, started at tick `tick`; returns the tick after it. Block `i`
      looks at the token, then runs (`RunBlock`). A block that sees the token calls `state.Break()`,
      which returns normally and is not followed by a `return`: the block still computes and writes
      its colour, and the loop starts no later block. */
  method BlockLoop(pixels: array<bv32>, input: RenderInput, pass: nat, cancelAt: Option<nat>, tick: nat) returns (next: nat)
    requires pass < Progressive.PassCount
    requires pixels.Length == Size(input)
    modifies pixels
    ensures next == tick + BlocksRun(Progressive.BlockCount(pixels.Length), cancelAt, tick)
    ensures pixels[..] == Progressive.Pass(old(pixels[..]), pass, Colors(input), BlocksRun(Progressive.BlockCount(pixels.Length), cancelAt, tick))
  {
    var blocks := Progressive.BlockCount(pixels.Length);
    ghost var before := pixels[..];
    var i := 0;
    next := tick;
    while i < blocks
      invariant 0 <= i <= blocks
      invariant next == tick + i
      invariant i > 0 && cancelAt.Some? ==> tick + i <= cancelAt.value
      invariant pixels[..] == Progressive.Pass(before, pass, Colors(input), i)
    {
      var cancelled := Requested(cancelAt, next);
      next := next + 1;
      RunBlock(pixels, input, pass, i);
      Progressive.PassNext(before, pass, Colors(input), i);
      i := i + 1;
      if cancelled {
        break;
      }
    }
    assert i == BlocksRun(blocks, cancelAt, tick);
  }

  /** The tick at which the block loop of pass `pass` starts, when no earlier pass was cancelled:
      after the look of `Task.Run`, each earlier pass took `blocks + 1` looks. */
  function PassStart(pass: nat, blocks: nat): nat
    decreases pass
  {
    if pass == 0 then 1 else PassStart(pass - 1, blocks) + blocks + 1
  }

  /** In closed form, pass `pass` starts at tick `1 + pass * (blocks + 1)`. */
  lemma {:induction false} PassStartIs(pass: nat, blocks: nat)
    ensures PassStart(pass, blocks) == 1 + pass * (blocks + 1)
    decreases pass
  {
    if pass > 0 {
      PassStartIs(pass - 1, blocks);
    }
  }

  /** A pass whose closing look at the token does not see it ran all its blocks. */
  lemma UncancelledPassRanAll(blocks: nat, cancelAt: Option<nat>, tick: nat)
    requires !Requested(cancelAt, tick + BlocksRun(blocks, cancelAt, tick))
    ensures BlocksRun(blocks, cancelAt, tick) == blocks
  {
  }

  /** The token first seen during pass `pass` means exactly `pass` passes were flushed. */
  lemma CancelledInPass(blocks: nat, c: nat, pass: nat)
    requires pass < Progressive.PassCount
    requires PassStart(pass, blocks) <= c <= PassStart(pass, blocks) + blocks
    ensures Flushed(blocks, Some(c)) == pass
  {
    PassStartIs(pass, blocks);
    QuotientOf(c - 1, blocks + 1, pass, c - PassStart(pass, blocks));
  }

  /** Division by `d` recovers the quotient `q` of `q * d + r` when `r < d`. */
  lemma QuotientOf(n: nat, d: nat, q: nat, r: nat)
    requires r < d
    requires n == q * d + r
    ensures n / d == q
  {
    var q' := n / d;
    var r' := n % d;
    assert (q' - q) * d == r - r';
    if q' > q {
      Mapping.MulMonotone(1, q' - q, d);
    } else if q' < q {
      Mapping.MulMonotone(1, q - q', d);
    }
  }

  /** A token not seen before the end of the fourth pass means all four passes were flushed. */
  lemma NotCancelledInAnyPass(blocks: nat, c: nat)
    requires PassStart(Progressive.PassCount, blocks) <= c
    ensures Flushed(blocks, Some(c)) == Progressive.PassCount
  {
    PassStartIs(Progressive.PassCount, blocks);
    var d := blocks + 1;
    var extra := c - 1 - Progressive.PassCount * d;
    QuotientOf(c - 1, d, Progressive.PassCount + extra / d, extra % d);
  }

  /** One pass: the block loop, then the look at the token after it. When the token is not seen
      there, every block ran and the buffer holds the pass's full result. */
  method RunPass(pixels: array<bv32>, input: RenderInput, pass: nat, cancelAt: Option<nat>, tick: nat)
    returns (next: nat, cancelled: bool)
    requires pass < Progressive.PassCount
    requires pixels.Length == Size(input)
    requires cancelAt.Some? ==> tick <= cancelAt.value
    modifies pixels
    ensures cancelled <==> cancelAt.Some? && cancelAt.value <= tick + Progressive.BlockCount(pixels.Length)
    ensures !cancelled ==> next == tick + Progressive.BlockCount(pixels.Length) + 1
    ensures !cancelled ==> (cancelAt.Some? ==> next <= cancelAt.value)
    ensures !cancelled ==>
      pixels[..] == Progressive.Pass(old(pixels[..]), pass, Colors(input), Progressive.BlockCount(pixels.Length))
  {
    var blocks := Progressive.BlockCount(pixels.Length);
    next := BlockLoop(pixels, input, pass, cancelAt, tick);
    cancelled := Requested(cancelAt, next);
    if !cancelled {
      UncancelledPassRanAll(blocks, cancelAt, tick);
    }
    next := next + 1;
  }

  /** The body of `Task.Run` (`for (var pass = 0; pass < 4; pass++) ...`) over a fresh buffer, once
      the task has started. Returns every flushed snapshot of the buffer, in order, and how many
      passes were started. */
  method PassLoop(pixels: array<bv32>, input: RenderInput, cancelAt: Option<nat>)
    returns (flushes: seq<seq<bv32>>, passes: nat)
    requires pixels.Length == Size(input)
    requires pixels[..] == Progressive.Blank(pixels.Length)
    requires !Requested(cancelAt, 0)
    modifies pixels
    ensures |flushes| == Flushed(Progressive.BlockCount(pixels.Length), cancelAt)
    ensures flushes == Progressive.Snapshots(pixels.Length, Colors(input), |flushes|)
    ensures passes == Progressive.Min(|flushes| + 1, Progressive.PassCount)
  {
    var blocks := Progressive.BlockCount(pixels.Length);
    ghost var color := Colors(input);
    var tick := PassStart(0, blocks);
    flushes := [];
    passes := 0;
    while passes < Progressive.PassCount
      invariant passes <= Progressive.PassCount
      invariant tick == PassStart(passes, blocks)
      invariant cancelAt.Some? ==> tick <= cancelAt.value
      invariant flushes == Progressive.Snapshots(pixels.Length, color, passes)
      invariant pixels[..] == Progressive.AfterPasses(pixels.Length, color, passes)
    {
      var cancelled;
      tick, cancelled := RunPass(pixels, input, passes, cancelAt, tick);
      if cancelled {
        CancelledInPass(blocks, cancelAt.value, passes);
        passes := passes + 1;
        return;
      }
      Progressive.AfterPassesNext(pixels.Length, color, passes);
      flushes := flushes + [pixels[..]];
      passes := passes + 1;
    }
    if cancelAt.Some? {
      NotCancelledInAnyPass(blocks, cancelAt.value);
    }
  }

  /** `GenerateImage`: a fresh zero buffer of `PixelWidth * PixelHeight` pixels, then `Task.Run`
      with the token. A token already requested when the task would start (tick 0) cancels the task:
      `started` is false, no pass runs, nothing is flushed, and the `await` throws. Otherwise the pass
      loop fills the buffer with the colours of `GetColor`. */
  method GenerateImage(input: RenderInput, cancelAt: Option<nat>)
    returns (flushes: seq<seq<bv32>>, passes: nat, started: bool)
    ensures started <==> !Requested(cancelAt, 0)
    ensures |flushes| == Flushed(Progressive.BlockCount(Size(input)), cancelAt)
    ensures forall k :: 0 <= k < |flushes| ==> flushes[k] == Progressive.AfterPasses(Size(input), Colors(input), k + 1)
    ensures passes == if started then Progressive.Min(|flushes| + 1, Progressive.PassCount) else 0
  {
    var pixels := new bv32[Size(input)](_ => 0);
    assert pixels[..] == Progressive.Blank(pixels.Length);
    started := !Requested(cancelAt, 0);
    if !started {
      flushes, passes := [], 0;
      return;
    }
    flushes, passes := PassLoop(pixels, input, cancelAt);
  }
}
