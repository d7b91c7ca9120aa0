/**
 * The row-major convention shared by every multiplier: element (row, col) of a
 * matrix with `cols` columns sits at linear index `col + row*cols` of a flat buffer.
 */
module Layout {

  /** Linear index of element (row, col) in a row-major buffer with `cols` columns. */
  function Idx(row: nat, col: nat, cols: nat): nat
  {
    col + row * cols
  }

  /** The indices 0, 1, ..., n-1 in increasing order. */
  function Range(n: nat): seq<nat>
  {
    seq(n, i requires 0 <= i => i as nat)
  }

  /** Element i of s, or 0 when i is outside s; keeps the specification functions total. */
  function At(s: seq<int>, i: int): int
  {
    if 0 <= i < |s| then s[i] else 0
  }

  lemma {:induction false} MulMono(a: nat, b: nat, k: nat)
    requires a <= b
    ensures a * k <= b * k
  {
    if a < b {
      MulMono(a, b - 1, k);
    }
  }

  /** Every in-range (row, col) pair lands inside the rows*cols buffer. */
  lemma IdxInBounds(row: nat, col: nat, rows: nat, cols: nat)
    requires row < rows && col < cols
    ensures Idx(row, col, cols) < rows * cols
    ensures row * cols + cols <= rows * cols
  {
    MulMono(row + 1, rows, cols);
  }

  /** Division by the row length recovers the (row, col) pair: the index map is injective. */
  lemma IdxDivMod(row: nat, col: nat, cols: nat)
    requires col < cols
    ensures Idx(row, col, cols) / cols == row
    ensures Idx(row, col, cols) % cols == col
  {
    var t := Idx(row, col, cols);
    var q, m := t / cols, t % cols;
    assert t == q * cols + m;
    if q > row {
      MulMono(row + 1, q, cols);
      assert false;
    } else if q < row {
      MulMono(q + 1, row, cols);
      assert false;
    }
  }

  /**
   * The optimised multipliers read the rows*cols transposed copy at k + c*cols for
   * k < rows and c < cols. Those reads stay inside the buffer when cols <= rows.
   */
  lemma StrideReadInBounds(c: nat, k: nat, rows: nat, cols: nat)
    requires c < cols <= rows && k < rows
    ensures Idx(c, k, cols) < rows * cols
    ensures c * cols + rows <= rows * cols
  {
    MulMono(c, cols - 1, cols);
    MulMono(cols, rows, cols - 1);
    assert (cols - 1) * rows + rows == rows * cols;
  }

  /** Every index of a rows*cols buffer is the index of exactly one in-range (row, col) pair. */
  lemma IdxSplit(t: nat, rows: nat, cols: nat)
    requires t < rows * cols
    ensures cols > 0
    ensures t / cols < rows && t % cols < cols
    ensures Idx(t / cols, t % cols, cols) == t
  {
    var q := t / cols;
    assert t == q * cols + t % cols;
    if q >= rows {
      MulMono(rows, q, cols);
      assert false;
    }
  }
}
