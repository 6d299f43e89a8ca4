/**
 * Facts about the row-major layout `index = row * width + col` shared by the
 * fractal kernel, the bitmap encoder and the framebuffer fill.
 */
module RowMajor {

  /** Row `row`, column `col` of a grid `width` wide lands in slot `row * width + col`. */
  function Index(width: nat, row: nat, col: nat): nat
  {
    row * width + col
  }

  /** A cell of a `width` x `height` grid lands inside the flat buffer of `width * height` slots. */
  lemma IndexInGrid(width: nat, height: nat, row: nat, col: nat)
    requires row < height && col < width
    ensures Index(width, row, col) < width * height
  {
    calc {
      row * width + col;
    <
      row * width + width;
    ==
      (row + 1) * width;
    <=  { MulMonotone(row + 1, height, width); }
      height * width;
    }
  }

  /** The slot of a cell gives the cell back: its quotient is the row and its remainder the column. */
  lemma IndexDecompose(width: nat, row: nat, col: nat)
    requires col < width
    ensures Index(width, row, col) / width == row
    ensures Index(width, row, col) % width == col
  {
    var i := row * width + col;
    var q, r := i / width, i % width;
    assert i == q * width + r;
    if q < row {
      MulMonotone(q + 1, row, width);
      assert false;
    } else if q > row {
      MulMonotone(row + 1, q, width);
      assert false;
    }
  }

  /** Every slot of a `width * height` buffer is the slot of exactly one cell of the grid. */
  lemma SlotInGrid(width: nat, height: nat, i: nat)
    requires i < width * height
    ensures width > 0
    ensures i / width < height && i % width < width
    ensures Index(width, i / width, i % width) == i
  {
    if i / width >= height {
      MulMonotone(height, i / width, width);
      assert false;
    }
  }

  lemma MulMonotone(a: nat, b: nat, c: nat)
    requires a <= b
    ensures a * c <= b * c
  {
  }

  lemma MulCommutes(a: nat, b: nat)
    ensures a * b == b * a
  {
  }

  /** The slots start, start+1, .., start+count-1, in increasing order. */
  function Span(start: nat, count: nat): (s: seq<nat>)
    ensures |s| == count
  {
    seq(count, k => start + k)
  }

  /** Two adjacent runs of slots make one run. */
  lemma SpanAppend(start: nat, count: nat, more: nat)
    ensures Span(start, count) + Span(start + count, more) == Span(start, count + more)
  {
    var joined := Span(start, count) + Span(start + count, more);
    forall k | 0 <= k < count + more
      ensures joined[k] == start + k
    {
      if k >= count {
        assert joined[k] == Span(start + count, more)[k - count];
      }
    }
  }
}
