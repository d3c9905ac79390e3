/** The escape-time evaluator `GetColor`: the iteration loop with its early exit, the
    interior/escaped classification and the grey packing of an escaped point's shade.

    The floating-point part of the evaluator is abstracted:
    - `escapes(i)` says whether step `i` of `z := z * z + c` takes the squared magnitude past 2^16;
    - `shade(k)` is the unsigned value `(uint)(Lerp(...) * 255)` that the smoothing computes once the
      loop has stopped at step `k` (for a fixed point `c` it depends on `k` alone). */
module Escape {

  /** `uint.MaxValue`: the colour given to points taken as inside the set. */
  const Interior: bv32 := 0xFFFF_FFFF

  /** `lerp << 16 | lerp << 8 | lerp` on a 32-bit unsigned value (shifts drop the bits past bit 31). */
  function Pack(lerp: bv32): bv32
  {
    (lerp << 16) | (lerp << 8) | lerp
  }

  /** Byte `k` of a packed colour (0 = blue, 1 = green, 2 = red, 3 = the ignored top byte). */
  function Channel(color: bv32, k: nat): (b: bv32)
    requires k < 4
    ensures b < 256
  {
    (color >> (8 * k)) & 0xFF
  }

  /** A shade that fits a byte lands unchanged in the blue, green and red bytes, and the top byte is 0. */
  lemma PackChannels(lerp: bv32)
    requires lerp < 256
    ensures Channel(Pack(lerp), 0) == lerp
    ensures Channel(Pack(lerp), 1) == lerp
    ensures Channel(Pack(lerp), 2) == lerp
    ensures Channel(Pack(lerp), 3) == 0
  {
  }

  /** So a grey made from a byte is never the interior sentinel. */
  lemma PackNotInterior(lerp: bv32)
    requires lerp < 256
    ensures Pack(lerp) != Interior
  {
    PackChannels(lerp);
  }

  /** And distinct bytes give distinct greys. */
  lemma PackInjective(a: bv32, b: bv32)
    requires a < 256 && b < 256
    ensures Pack(a) == Pack(b) ==> a == b
  {
    PackChannels(a);
    PackChannels(b);
  }

  /** The step the loop stops at when it starts looking at step `i` of `maxIterations`:
      the first escaping step, or the last step if none escapes. */
  function StopFrom(escapes: nat -> bool, i: nat, maxIterations: int): (last: nat)
    requires i < maxIterations
    ensures i <= last < maxIterations
    ensures forall k :: i <= k < last ==> !escapes(k)
    ensures escapes(last) || last == maxIterations - 1
    decreases maxIterations - i
  {
    if escapes(i) || i == maxIterations - 1 then i else StopFrom(escapes, i + 1, maxIterations)
  }

  /** The loop index recorded in `iterations` / `i_iterations` when the loop of `GetColor` ends. */
  function LastStep(escapes: nat -> bool, maxIterations: int): (last: nat)
    ensures maxIterations <= 0 ==> last == 0
    ensures maxIterations >= 1 ==> last <= maxIterations - 1
    ensures maxIterations >= 1 ==> escapes(last) || last == maxIterations - 1
    ensures forall k :: 0 <= k < last ==> !escapes(k)
  {
    if maxIterations <= 0 then 0 else StopFrom(escapes, 0, maxIterations)
  }

  /** The loop's stop is the FIRST escaping step: any step that escapes with none before it is it. */
  lemma LastStepIsFirstEscape(escapes: nat -> bool, maxIterations: int, k: nat)
    requires k < maxIterations
    requires escapes(k) || k == maxIterations - 1
    requires forall j :: 0 <= j < k ==> !escapes(j)
    ensures LastStep(escapes, maxIterations) == k
  {
  }

  /** The colour `GetColor` returns for the point whose steps escape as `escapes` says. */
  function ColorOf(escapes: nat -> bool, shade: nat -> bv32, maxIterations: int): bv32
  {
    var last := LastStep(escapes, maxIterations);
    if last == maxIterations - 1 then Interior else Pack(shade(last))
  }

  /** `GetColor`, with the recorded double `iterations` and int `i_iterations` (always equal until
      the smoothing, which lives in `shade`) held in one variable. */
  method GetColor(escapes: nat -> bool, shade: nat -> bv32, maxIterations: int) returns (color: bv32)
    ensures color == ColorOf(escapes, shade, maxIterations)
  {
    var iterations: nat := 0;
    var i: nat := 0;
    while i < maxIterations
      invariant i == 0 || i <= maxIterations
      invariant iterations == if i == 0 then 0 else i - 1
      invariant forall k :: 0 <= k < i ==> !escapes(k)
    {
      iterations := i;
      if escapes(i) {
        break;
      }
      i := i + 1;
    }
    if maxIterations >= 1 {
      LastStepIsFirstEscape(escapes, maxIterations, iterations);
    }
    if iterations == maxIterations - 1 {
      return Interior;
    }
    color := Pack(shade(iterations));
  }

  /** If no step before the last escapes, the point is given the sentinel, even when it escapes on
      the very last step. */
  lemma NoEarlyEscapeIsInterior(escapes: nat -> bool, shade: nat -> bv32, maxIterations: int)
    requires maxIterations >= 1
    requires forall k :: 0 <= k < maxIterations - 1 ==> !escapes(k)
    ensures ColorOf(escapes, shade, maxIterations) == Interior
  {
    LastStepIsFirstEscape(escapes, maxIterations, maxIterations - 1);
  }

  /** Conversely, when the shades fit a byte, the sentinel means that no step before the last escaped. */
  lemma InteriorMeansNoEarlyEscape(escapes: nat -> bool, shade: nat -> bv32, maxIterations: int, k: nat)
    requires forall j :: 0 <= j < maxIterations ==> shade(j) < 256
    requires ColorOf(escapes, shade, maxIterations) == Interior
    requires k < maxIterations - 1
    ensures !escapes(k)
  {
    var last := LastStep(escapes, maxIterations);
    if last != maxIterations - 1 {
      PackNotInterior(shade(last));
    }
  }

  /** A point that first escapes at step `k` before the last step gets the grey of `shade(k)`. */
  lemma EarlyEscapeIsShaded(escapes: nat -> bool, shade: nat -> bv32, maxIterations: int, k: nat)
    requires k < maxIterations - 1
    requires escapes(k)
    requires forall j :: 0 <= j < k ==> !escapes(j)
    ensures ColorOf(escapes, shade, maxIterations) == Pack(shade(k))
  {
    LastStepIsFirstEscape(escapes, maxIterations, k);
  }

  /** With a budget of one step every point is given the sentinel. */
  lemma SingleStepIsInterior(escapes: nat -> bool, shade: nat -> bv32)
    ensures ColorOf(escapes, shade, 1) == Interior
  {
    NoEarlyEscapeIsInterior(escapes, shade, 1);
  }

  /** With no budget at all the loop never runs and the point is shaded as stopped at step 0. */
  lemma EmptyBudgetIsShaded(escapes: nat -> bool, shade: nat -> bv32, maxIterations: int)
    requires maxIterations <= 0
    ensures ColorOf(escapes, shade, maxIterations) == Pack(shade(0))
  {
  }
}
