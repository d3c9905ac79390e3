/** The row-major layout of the pixel buffer: the linear index of a pixel and the column and row a
    linear index stands for. The scaling of (column, row) into the complex plane is floating point
    and is not part of this model. */
module Mapping {

  /** `(index % width, index / width)`: the column and row of linear index `index`. */
  function PixelOf(index: nat, width: nat): (p: (nat, nat))
    requires width > 0
    ensures p.0 < width
    ensures index == p.1 * width + p.0
  {
    (index % width, index / width)
  }

  /** Where pixel (`col`, `row`) sits in a buffer whose rows are `width` pixels long. */
  function IndexOf(col: nat, row: nat, width: nat): nat
  {
    row * width + col
  }

  /** A linear index inside a `width` by `height` buffer maps to a pixel inside the image. */
  lemma PixelInImage(index: nat, width: nat, height: nat)
    requires width > 0
    requires index < width * height
    ensures PixelOf(index, width).0 < width
    ensures PixelOf(index, width).1 < height
  {
    var (col, row) := PixelOf(index, width);
    if row >= height {
      MulMonotone(height, row, width);
    }
  }

  lemma MulMonotone(a: nat, b: nat, c: nat)
    requires a <= b
    ensures a * c <= b * c
  {
  }

  /** Mapping a linear index to its pixel and back gives the index again. */
  lemma IndexOfPixelOf(index: nat, width: nat)
    requires width > 0
    ensures IndexOf(PixelOf(index, width).0, PixelOf(index, width).1, width) == index
  {
  }

  /** Mapping a pixel of the row to its linear index and back gives the pixel again. */
  lemma PixelOfIndexOf(col: nat, row: nat, width: nat)
    requires col < width
    ensures PixelOf(IndexOf(col, row, width), width) == (col, row)
  {
    var index := IndexOf(col, row, width);
    var (c, r) := PixelOf(index, width);
    assert (r - row) * width == col - c;
    if r > row {
      MulMonotone(1, r - row, width);
    } else if r < row {
      MulMonotone(1, row - r, width);
    }
  }
}
