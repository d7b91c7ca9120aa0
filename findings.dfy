/**
 * The stride of the transposed copy. Both cache-optimised multipliers write aux as the
 * c2 x r2 transpose of matrix_2, whose rows have length r2, but read row c of it at
 * aux[k + c*c2]. Row 0 is read correctly whatever the stride, so the two agree when
 * r2 == c2 or c2 <= 1 (MatrixSpec.OptimizedProductColumn). For 1 < c2 < r2 every row
 * c > 0 is read from the wrong place and the result can be wrong; for a wider
 * matrix_2 (c2 > r2) the reads run past the end of aux. Reading with stride r2, as
 * MatrixSpec.TransposedProduct does, gives the product for every shape.
 */
module Findings {
  import opened Layout
  import opened MatrixSpec

  /** The transposed copy of B = [[1,2],[3,4],[5,6]] is [[1,3,5],[2,4,6]]. */
  lemma {:induction false} ExampleTranspose(B: seq<int>)
    requires |B| == 6 && B[0] == 1 && B[1] == 2 && B[2] == 3 && B[3] == 4 && B[4] == 5 && B[5] == 6
    ensures var T := Transpose(B, 3, 2);
      |T| == 6 && T[0] == 1 && T[1] == 3 && T[2] == 5 && T[3] == 2 && T[4] == 4 && T[5] == 6
  {
  }

  /**
   * A = [1 1 1] times the 3 x 2 matrix B = [[1,2],[3,4],[5,6]] is [9 12], but the
   * optimised multipliers, reading the transpose [1,3,5,2,4,6] with stride 2, get
   * [9 11]: cell 1 adds aux[2] + aux[3] + aux[4] = 5 + 2 + 4 instead of 2 + 4 + 6.
   */
  lemma {:induction false} LiteralStrideMisreads(A: seq<int>, B: seq<int>)
    requires |A| == 3 && A[0] == 1 && A[1] == 1 && A[2] == 1
    requires |B| == 6 && B[0] == 1 && B[1] == 2 && B[2] == 3 && B[3] == 4 && B[4] == 5 && B[5] == 6
    ensures var P := Product(A, 1, 3, B, 2);
      |P| == 2 && P[0] == 9 && P[1] == 12
    ensures var Q := OptimizedProduct(A, 1, 3, B, 3, 2);
      |Q| == 2 && Q[0] == 9 && Q[1] == 11
  {
    ExampleProductCell(A, B, 0);
    ExampleProductCell(A, B, 1);
    ExampleOptimizedCell(A, B, 0);
    ExampleOptimizedCell(A, B, 1);
  }

  /** Cell c of [1 1 1] times [[1,2],[3,4],[5,6]] as the optimised multipliers compute it: 9 and 11. */
  lemma {:induction false} ExampleOptimizedCell(A: seq<int>, B: seq<int>, c: nat)
    requires |A| == 3 && A[0] == 1 && A[1] == 1 && A[2] == 1
    requires |B| == 6 && B[0] == 1 && B[1] == 2 && B[2] == 3 && B[3] == 4 && B[4] == 5 && B[5] == 6
    requires c < 2
    ensures |OptimizedProduct(A, 1, 3, B, 3, 2)| == 2
    ensures OptimizedProduct(A, 1, 3, B, 3, 2)[c] == if c == 0 then 9 else 11
  {
    ExampleTranspose(B);
    ExampleMisreadCell(A, Transpose(B, 3, 2), c);
  }

  /** Cell c of [1 1 1] times [[1,2],[3,4],[5,6]]: column c summed, 9 and 12. */
  lemma {:induction false} ExampleProductCell(A: seq<int>, B: seq<int>, c: nat)
    requires |A| == 3 && A[0] == 1 && A[1] == 1 && A[2] == 1
    requires |B| == 6 && B[0] == 1 && B[1] == 2 && B[2] == 3 && B[3] == 4 && B[4] == 5 && B[5] == 6
    requires c < 2
    ensures |Product(A, 1, 3, B, 2)| == 2
    ensures Product(A, 1, 3, B, 2)[c] == if c == 0 then 9 else 12
  {
    RowTimes3x2At(A, B, c);
    var x, y, z := B[c], B[c + 2], B[c + 4];
    assert A[0] * x + A[1] * y + A[2] * z == x + y + z;
  }

  /** Cell c of [1 1 1] times the transposed copy read with stride 2: 1+3+5 and 5+2+4. */
  lemma {:induction false} ExampleMisreadCell(A: seq<int>, T: seq<int>, c: nat)
    requires |A| == 3 && A[0] == 1 && A[1] == 1 && A[2] == 1
    requires |T| == 6 && T[0] == 1 && T[1] == 3 && T[2] == 5 && T[3] == 2 && T[4] == 4 && T[5] == 6
    requires c < 2
    ensures |AuxProduct(A, 1, 3, T, 2, 2)| == 2
    ensures AuxProduct(A, 1, 3, T, 2, 2)[c] == if c == 0 then 9 else 11
  {
    StrideTwoAt(A, T, c);
    var x, y, z := T[2 * c], T[2 * c + 1], T[2 * c + 2];
    assert A[0] * x + A[1] * y + A[2] * z == x + y + z;
  }

  /** Cell c of a 1 x 3 row times a 3 x 2 matrix. */
  lemma {:induction false} RowTimes3x2At(A: seq<int>, B: seq<int>, c: nat)
    requires |A| == 3 && |B| == 6 && c < 2
    ensures |Product(A, 1, 3, B, 2)| == 2
    ensures Product(A, 1, 3, B, 2)[c] == A[0] * B[c] + A[1] * B[c + 2] + A[2] * B[c + 4]
  {
    ProductAt(A, 1, 3, B, 2, 0, c);
    TermsAt(A, 1, 3, B, 2, 0, c, 0);
    TermsAt(A, 1, 3, B, 2, 0, c, 1);
    TermsAt(A, 1, 3, B, 2, 0, c, 2);
    assert Idx(0, c, 2) == c && Idx(1, c, 2) == c + 2 && Idx(2, c, 2) == c + 4;
    assert Idx(0, 0, 3) == 0 && Idx(0, 1, 3) == 1 && Idx(0, 2, 3) == 2;
    Sum3(Terms(A, 3, B, 2, 0, c));
  }

  /** Cell c of a 1 x 3 row times a two-column matrix read from aux with stride 2. */
  lemma {:induction false} StrideTwoAt(A: seq<int>, T: seq<int>, c: nat)
    requires |A| == 3 && |T| == 6 && c < 2
    ensures |AuxProduct(A, 1, 3, T, 2, 2)| == 2
    ensures AuxProduct(A, 1, 3, T, 2, 2)[c] == A[0] * T[2 * c] + A[1] * T[2 * c + 1] + A[2] * T[2 * c + 2]
  {
    AuxProductAt(A, 1, 3, T, 2, 2, 0, c);
    AuxTermAt(A, 1, 3, T, 3, 2, 0, c, 0);
    AuxTermAt(A, 1, 3, T, 3, 2, 0, c, 1);
    AuxTermAt(A, 1, 3, T, 3, 2, 0, c, 2);
    Sum3(AuxTerms(A, 3, T, 2, 0, c));
  }

  /**
   * When matrix_2 has more columns than rows, the last read of the last cell,
   * aux[(r2-1) + (c2-1)*c2], lies beyond the r2*c2 entries of aux.
   */
  lemma {:induction false} LiteralStrideOverruns(r2: nat, c2: nat)
    requires 0 < r2 < c2
    ensures Idx(c2 - 1, r2 - 1, c2) >= r2 * c2
  {
    MulMono(1, c2 - r2, c2 - 1);
    assert (c2 - 1) * c2 + (r2 - 1) - r2 * c2 == (c2 - r2) * (c2 - 1) - 1;
  }
}
