/** The four-pass progressive fill of `GenerateImage`, as functions on the buffer's contents.

    The buffer is cut into blocks of 4 consecutive linear indices. In pass `pass`, block `i` samples
    one colour, that of index `4 * i + pass`, and paints it over the indices `4 * i + pass` up to
    `4 * i + 3` that lie inside the buffer. Only the blocks `0 .. length / 4 - 1` are visited, so the
    last `length % 4` indices are never painted. */
module Progressive {

  /** The number of passes, and of pixels in a block. */
  const PassCount: nat := 4

  /** The block loop of one pass visits `length / 4` blocks. */
  function BlockCount(length: nat): nat
  {
    length / 4
  }

  /** Block `i` of pass `pass` painting `color` over `[4 * i + pass, 4 * i + 4)` within the buffer. */
  function BlockWrite(s: seq<bv32>, pass: nat, i: nat, color: bv32): (r: seq<bv32>)
    ensures |r| == |s|
  {
    seq(|s|, j requires 0 <= j < |s| => if 4 * i + pass <= j < 4 * i + 4 then color else s[j])
  }

  /** Stated per index: exactly the positions of block `i` whose offset in the block is at least
      `pass` change, and they all become `color`. */
  lemma BlockWriteAt(s: seq<bv32>, pass: nat, i: nat, color: bv32, j: nat)
    requires j < |s|
    ensures BlockWrite(s, pass, i, color)[j] == if j / 4 == i && j % 4 >= pass then color else s[j]
  {
  }

  /** The buffer after blocks `0 .. k - 1` of pass `pass` ran in this order, each block sampling
      `color` at its own index `4 * i + pass`. */
  function Pass(s: seq<bv32>, pass: nat, color: nat -> bv32, k: nat): (r: seq<bv32>)
    ensures |r| == |s|
    decreases k
  {
    if k == 0 then s else BlockWrite(Pass(s, pass, color, k - 1), pass, k - 1, color(4 * (k - 1) + pass))
  }

  /** One more block of the sequential loop. */
  lemma PassNext(s: seq<bv32>, pass: nat, color: nat -> bv32, k: nat)
    ensures Pass(s, pass, color, k + 1) == BlockWrite(Pass(s, pass, color, k), pass, k, color(k * 4 + pass))
  {
  }

  /** Blocks `0 .. k - 1` of a pass change exactly the positions of those blocks at offset `pass` or
      later, each to the colour sampled by its own block; every other position keeps its value. */
  lemma {:induction false} PassAt(s: seq<bv32>, pass: nat, color: nat -> bv32, k: nat, j: nat)
    requires j < |s|
    ensures Pass(s, pass, color, k)[j] == if j / 4 < k && j % 4 >= pass then color(4 * (j / 4) + pass) else s[j]
    decreases k
  {
    if k > 0 {
      PassAt(s, pass, color, k - 1, j);
      BlockWriteAt(Pass(s, pass, color, k - 1), pass, k - 1, color(4 * (k - 1) + pass), j);
    }
  }

  /** The buffer after the blocks listed in `order` ran one after the other, in that order. */
  function RunBlocks(s: seq<bv32>, pass: nat, color: nat -> bv32, order: seq<nat>): (r: seq<bv32>)
    ensures |r| == |s|
    decreases |order|
  {
    if order == [] then s
    else
      var i := order[|order| - 1];
      BlockWrite(RunBlocks(s, pass, color, order[..|order| - 1]), pass, i, color(4 * i + pass))
  }

  /** Whatever their order, the blocks listed in `order` leave position `j` painted exactly when its
      block is listed and its offset is at least `pass`. */
  lemma {:induction false} RunBlocksAt(s: seq<bv32>, pass: nat, color: nat -> bv32, order: seq<nat>, j: nat)
    requires j < |s|
    ensures RunBlocks(s, pass, color, order)[j] ==
      if j / 4 in order && j % 4 >= pass then color(4 * (j / 4) + pass) else s[j]
    decreases |order|
  {
    if order != [] {
      var init := order[..|order| - 1];
      var i := order[|order| - 1];
      RunBlocksAt(s, pass, color, init, j);
      BlockWriteAt(RunBlocks(s, pass, color, init), pass, i, color(4 * i + pass), j);
      assert order == init + [i];
    }
  }

  /** Two different blocks of a pass write disjoint ranges, so they commute. */
  lemma BlockWritesCommute(s: seq<bv32>, pass: nat, i: nat, a: bv32, k: nat, b: bv32)
    requires i != k
    ensures BlockWrite(BlockWrite(s, pass, i, a), pass, k, b) == BlockWrite(BlockWrite(s, pass, k, b), pass, i, a)
  {
    forall j | 0 <= j < |s|
      ensures BlockWrite(BlockWrite(s, pass, i, a), pass, k, b)[j] == BlockWrite(BlockWrite(s, pass, k, b), pass, i, a)[j]
    {
      BlockWriteAt(s, pass, i, a, j);
      BlockWriteAt(s, pass, k, b, j);
      BlockWriteAt(BlockWrite(s, pass, i, a), pass, k, b, j);
      BlockWriteAt(BlockWrite(s, pass, k, b), pass, i, a, j);
    }
  }

  /** Hence the order in which a pass's blocks run does not matter: any two schedules that run the
      same blocks leave the same buffer. */
  lemma ScheduleIrrelevant(s: seq<bv32>, pass: nat, color: nat -> bv32, order1: seq<nat>, order2: seq<nat>)
    requires forall i :: i in order1 <==> i in order2
    ensures RunBlocks(s, pass, color, order1) == RunBlocks(s, pass, color, order2)
  {
    forall j | 0 <= j < |s|
      ensures RunBlocks(s, pass, color, order1)[j] == RunBlocks(s, pass, color, order2)[j]
    {
      RunBlocksAt(s, pass, color, order1, j);
      RunBlocksAt(s, pass, color, order2, j);
    }
  }

  /** In particular every schedule of exactly the blocks `0 .. k - 1`, whatever its order, leaves
      what the sequential loop leaves. */
  lemma ScheduleIsSequential(s: seq<bv32>, pass: nat, color: nat -> bv32, order: seq<nat>, k: nat)
    requires forall i :: i in order <==> i < k
    ensures RunBlocks(s, pass, color, order) == Pass(s, pass, color, k)
  {
    forall j | 0 <= j < |s|
      ensures RunBlocks(s, pass, color, order)[j] == Pass(s, pass, color, k)[j]
    {
      RunBlocksAt(s, pass, color, order, j);
      PassAt(s, pass, color, k, j);
    }
  }

  /** The buffer `new uint[length]`. */
  function Blank(length: nat): (r: seq<bv32>)
    ensures |r| == length
    ensures forall j :: 0 <= j < length ==> r[j] == 0
  {
    seq(length, _ => 0)
  }

  /** The buffer after the first `q` passes over a fresh buffer, each running all its blocks. */
  function AfterPasses(length: nat, color: nat -> bv32, q: nat): (r: seq<bv32>)
    requires q <= PassCount
    ensures |r| == length
    decreases q
  {
    if q == 0 then Blank(length) else Pass(AfterPasses(length, color, q - 1), q - 1, color, BlockCount(length))
  }

  /** One more full pass. */
  lemma AfterPassesNext(length: nat, color: nat -> bv32, q: nat)
    requires q < PassCount
    ensures AfterPasses(length, color, q + 1) == Pass(AfterPasses(length, color, q), q, color, BlockCount(length))
  {
  }

  /** The buffer as flushed after each of the first `q` passes, in order. */
  function Snapshots(length: nat, color: nat -> bv32, q: nat): (r: seq<seq<bv32>>)
    requires q <= PassCount
    ensures |r| == q
    ensures forall k :: 0 <= k < q ==> r[k] == AfterPasses(length, color, k + 1)
    decreases q
  {
    if q == 0 then [] else Snapshots(length, color, q - 1) + [AfterPasses(length, color, q)]
  }

  /** After `q` passes, index `j` of the painted prefix holds the colour sampled at offset
      `min(j % 4, q - 1)` of its block, and the tail still holds 0. */
  lemma {:induction false} AfterPassesAt(length: nat, color: nat -> bv32, q: nat, j: nat)
    requires q <= PassCount
    requires j < length
    ensures AfterPasses(length, color, q)[j] ==
      if q > 0 && j < 4 * BlockCount(length) then color(4 * (j / 4) + Min(j % 4, q - 1)) else 0
    decreases q
  {
    if q > 0 {
      AfterPassesAt(length, color, q - 1, j);
      PassAt(AfterPasses(length, color, q - 1), q - 1, color, BlockCount(length), j);
    }
  }

  function Min(a: nat, b: nat): nat
  {
    if a <= b then a else b
  }

  /** After all four passes every index of the painted prefix holds its own colour, and the
      `length % 4` indices of the tail were never painted and hold 0. */
  lemma FullImage(length: nat, color: nat -> bv32, j: nat)
    requires j < length
    ensures j < 4 * BlockCount(length) ==> AfterPasses(length, color, PassCount)[j] == color(j)
    ensures j >= 4 * BlockCount(length) ==> AfterPasses(length, color, PassCount)[j] == 0
    ensures 4 * BlockCount(length) == length - length % 4
  {
    AfterPassesAt(length, color, PassCount, j);
  }

  /** Progressive refinement: once pass `j % 4` has run, index `j` holds its own colour and no later
      pass changes it. */
  lemma RefinedStaysFinal(length: nat, color: nat -> bv32, q: nat, j: nat)
    requires q <= PassCount
    requires j < 4 * BlockCount(length)
    requires j % 4 < q
    ensures AfterPasses(length, color, q)[j] == color(j)
  {
    AfterPassesAt(length, color, q, j);
  }

  /** Pass `pass` leaves alone the positions before offset `pass` in every block and the whole tail:
      between two consecutive states, only those positions change. */
  lemma PassTouchesOnly(length: nat, color: nat -> bv32, pass: nat, j: nat)
    requires pass < PassCount
    requires j < length
    requires AfterPasses(length, color, pass + 1)[j] != AfterPasses(length, color, pass)[j]
    ensures j < 4 * BlockCount(length) && j % 4 >= pass
  {
    AfterPassesAt(length, color, pass, j);
    AfterPassesAt(length, color, pass + 1, j);
  }
}
