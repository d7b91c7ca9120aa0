/**
 * What a multiplication computes, independently of any loop: the dot-product terms
 * of a result cell, the product matrix, the transposed copy of the right operand
 * and the identity matrix, all as flat row-major sequences of integers.
 */
module MatrixSpec {
  import opened Layout
  import opened Sums

  /**
   * The terms of result cell (r, c) of an r1 x c1 matrix A times a c1 x c2 matrix B:
   * term k is A[k + r*c1] * B[c + k*c2].
   */
  function Terms(A: seq<int>, c1: nat, B: seq<int>, c2: nat, r: nat, c: nat): seq<int>
  {
    seq(c1, k requires 0 <= k => At(A, Idx(r, k as nat, c1)) * At(B, Idx(k as nat, c, c2)))
  }

  /** Result cell (r, c): the dot product of row r of A and column c of B. */
  function Dot(A: seq<int>, c1: nat, B: seq<int>, c2: nat, r: nat, c: nat): int
  {
    Sum(Terms(A, c1, B, c2, r, c))
  }

  /** The r1 x c2 product of an r1 x c1 matrix A and a c1 x c2 matrix B, row-major. */
  function Product(A: seq<int>, r1: nat, c1: nat, B: seq<int>, c2: nat): seq<int>
  {
    seq(r1 * c2, t requires 0 <= t < r1 * c2 => Dot(A, c1, B, c2, t / c2, t % c2))
  }

  /**
   * The c2 x r2 transpose of an r2 x c2 matrix B: what was column c of B is row c,
   * so entry r + c*r2 holds B[c + r*c2].
   */
  function Transpose(B: seq<int>, r2: nat, c2: nat): seq<int>
  {
    seq(r2 * c2, t requires 0 <= t < r2 * c2 => At(B, Idx(t % r2, t / r2, c2)))
  }

  /**
   * The terms of result cell (r, c) as the unrolled loops read them from the
   * transposed copy: term k is A[k + r*c1] * aux[k + c*stride].
   */
  function AuxTerms(A: seq<int>, c1: nat, aux: seq<int>, stride: nat, r: nat, c: nat): seq<int>
  {
    seq(c1, k requires 0 <= k => At(A, Idx(r, k as nat, c1)) * At(aux, Idx(c, k as nat, stride)))
  }

  /**
   * The r1 x c2 matrix whose cell (r, c) sums the terms read from row c of aux with
   * the given stride: what the unrolled loops leave in the result buffer.
   */
  function AuxProduct(A: seq<int>, r1: nat, c1: nat, aux: seq<int>, stride: nat, c2: nat): seq<int>
  {
    seq(r1 * c2, t requires 0 <= t < r1 * c2 => Sum(AuxTerms(A, c1, aux, stride, t / c2, t % c2)))
  }

  /**
   * What the two cache-optimised multipliers compute as written: the transposed copy
   * of the r2 x c2 matrix B has rows of length r2, but row c is read from k + c*c2.
   */
  function OptimizedProduct(A: seq<int>, r1: nat, c1: nat, B: seq<int>, r2: nat, c2: nat): seq<int>
  {
    AuxProduct(A, r1, c1, Transpose(B, r2, c2), c2, c2)
  }

  /** The n x n identity matrix. */
  function Identity(n: nat): seq<int>
  {
    seq(n * n, t requires 0 <= t < n * n => if t / n == t % n then 1 else 0)
  }

  /**
   * Every term of a result cell reads inside both operands, and term k is
   * A[k + r*c1] * B[c + k*c2].
   */
  lemma {:induction false} TermsAt(A: seq<int>, r1: nat, c1: nat, B: seq<int>, c2: nat, r: nat, c: nat, k: nat)
    requires |A| == r1 * c1 && |B| == c1 * c2
    requires r < r1 && c < c2 && k < c1
    ensures Idx(r, k, c1) < |A| && Idx(k, c, c2) < |B|
    ensures |Terms(A, c1, B, c2, r, c)| == c1
    ensures Terms(A, c1, B, c2, r, c)[k] == A[Idx(r, k, c1)] * B[Idx(k, c, c2)]
  {
    IdxInBounds(r, k, r1, c1);
    IdxInBounds(k, c, c1, c2);
  }

  /** Cell (r, c) of the product, at index c + r*c2, is the dot product of row r and column c. */
  lemma {:induction false} ProductAt(A: seq<int>, r1: nat, c1: nat, B: seq<int>, c2: nat, r: nat, c: nat)
    requires r < r1 && c < c2
    ensures |Product(A, r1, c1, B, c2)| == r1 * c2
    ensures Idx(r, c, c2) < r1 * c2
    ensures Product(A, r1, c1, B, c2)[Idx(r, c, c2)] == Dot(A, c1, B, c2, r, c)
  {
    IdxInBounds(r, c, r1, c2);
    IdxDivMod(r, c, c2);
  }

  /**
   * With c2 <= r2 every term k < r2 of a cell the optimised loops read sits inside
   * both buffers, and it is matrix_1[k + r*c1] * aux[k + c*c2].
   */
  lemma {:induction false} AuxTermAt(A: seq<int>, r1: nat, c1: nat, aux: seq<int>, r2: nat, c2: nat, r: nat, c: nat, k: nat)
    requires |A| == r1 * c1 && |aux| == r2 * c2
    requires c1 == r2 && r < r1 && c < c2 <= r2 && k < r2
    ensures k + r * c1 < |A| && k + c * c2 < |aux|
    ensures At(AuxTerms(A, c1, aux, c2, r, c), k) == A[k + r * c1] * aux[k + c * c2]
  {
    IdxInBounds(r, k, r1, c1);
    StrideReadInBounds(c, k, r2, c2);
  }

  /** Cell (r, c) of AuxProduct, at index c + r*c2, sums the terms read from row c of aux. */
  lemma {:induction false} AuxProductAt(A: seq<int>, r1: nat, c1: nat, aux: seq<int>, stride: nat, c2: nat, r: nat, c: nat)
    requires r < r1 && c < c2
    ensures |AuxProduct(A, r1, c1, aux, stride, c2)| == r1 * c2
    ensures Idx(r, c, c2) < r1 * c2
    ensures AuxProduct(A, r1, c1, aux, stride, c2)[Idx(r, c, c2)] == Sum(AuxTerms(A, c1, aux, stride, r, c))
  {
    IdxInBounds(r, c, r1, c2);
    IdxDivMod(r, c, c2);
  }

  /** The transpose layout: aux[r + c*r2] == B[c + r*c2] for every r < r2 and c < c2. */
  lemma {:induction false} TransposeAt(B: seq<int>, r2: nat, c2: nat, r: nat, c: nat)
    requires |B| == r2 * c2 && r < r2 && c < c2
    ensures |Transpose(B, r2, c2)| == r2 * c2
    ensures Idx(c, r, r2) < r2 * c2 && Idx(r, c, c2) < r2 * c2
    ensures Transpose(B, r2, c2)[Idx(c, r, r2)] == B[Idx(r, c, c2)]
  {
    IdxInBounds(c, r, c2, r2);
    IdxInBounds(r, c, r2, c2);
    IdxDivMod(c, r, r2);
  }

  /** Transposing twice gives back the original matrix. */
  lemma {:induction false} TransposeTwice(B: seq<int>, r2: nat, c2: nat)
    requires |B| == r2 * c2
    ensures Transpose(Transpose(B, r2, c2), c2, r2) == B
  {
    var U := Transpose(Transpose(B, r2, c2), c2, r2);
    forall t | 0 <= t < |B|
      ensures U[t] == B[t]
    {
      TransposeTwiceAt(B, r2, c2, t);
    }
  }

  lemma {:induction false} TransposeTwiceAt(B: seq<int>, r2: nat, c2: nat, t: nat)
    requires |B| == r2 * c2 && t < |B|
    ensures Transpose(Transpose(B, r2, c2), c2, r2)[t] == B[t]
  {
    IdxSplit(t, r2, c2);
    var r, c := t / c2, t % c2;
    TransposeAt(Transpose(B, r2, c2), c2, r2, c, r);
    TransposeAt(B, r2, c2, r, c);
  }

  /**
   * Row c of the transposed copy, read with the stride it was written with (r2 = c1),
   * holds column c of B: the terms read from it are the terms of cell (r, c), for
   * every shape of B.
   */
  lemma {:induction false} TransposedTerms(A: seq<int>, c1: nat, B: seq<int>, c2: nat, r: nat, c: nat)
    requires |B| == c1 * c2 && c < c2
    ensures AuxTerms(A, c1, Transpose(B, c1, c2), c1, r, c) == Terms(A, c1, B, c2, r, c)
  {
    forall k | 0 <= k < c1
      ensures AuxTerms(A, c1, Transpose(B, c1, c2), c1, r, c)[k] == Terms(A, c1, B, c2, r, c)[k]
    {
      TransposeAt(B, c1, c2, k, c);
    }
  }

  /**
   * Reading the transposed copy with the stride it was written with (r2 = c1) yields
   * the product, for every shape of B.
   */
  lemma {:induction false} TransposedProduct(A: seq<int>, r1: nat, c1: nat, B: seq<int>, c2: nat)
    requires |B| == c1 * c2
    ensures AuxProduct(A, r1, c1, Transpose(B, c1, c2), c1, c2) == Product(A, r1, c1, B, c2)
  {
    var Q := AuxProduct(A, r1, c1, Transpose(B, c1, c2), c1, c2);
    var P := Product(A, r1, c1, B, c2);
    forall t | 0 <= t < r1 * c2
      ensures Q[t] == P[t]
    {
      TransposedCell(A, r1, c1, B, c2, t);
    }
  }

  /** For square right operands the stride the optimised multipliers use is the right one. */
  lemma {:induction false} OptimizedProductSquare(A: seq<int>, r1: nat, c1: nat, B: seq<int>, r2: nat, c2: nat)
    requires c1 == r2 && r2 == c2 && |B| == r2 * c2
    ensures OptimizedProduct(A, r1, c1, B, r2, c2) == Product(A, r1, c1, B, c2)
  {
    TransposedProduct(A, r1, c1, B, c2);
  }

  /**
   * For a right operand with at most one column only row 0 of the transposed copy is
   * read, and at offset 0 the stride does not matter: the optimised multipliers
   * compute the product.
   */
  lemma {:induction false} OptimizedProductColumn(A: seq<int>, r1: nat, c1: nat, B: seq<int>, r2: nat, c2: nat)
    requires c1 == r2 && c2 <= 1 && |B| == r2 * c2
    ensures OptimizedProduct(A, r1, c1, B, r2, c2) == Product(A, r1, c1, B, c2)
  {
    TransposedProduct(A, r1, c1, B, c2);
    var T := Transpose(B, c1, c2);
    var Q := OptimizedProduct(A, r1, c1, B, r2, c2);
    var P := AuxProduct(A, r1, c1, T, c1, c2);
    forall t | 0 <= t < r1 * c2
      ensures Q[t] == P[t]
    {
      assert c2 == 1 && t / 1 == t && t % 1 == 0;
      forall k | 0 <= k < c1
        ensures AuxTerms(A, c1, T, 1, t, 0)[k] == AuxTerms(A, c1, T, c1, t, 0)[k]
      {
        assert Idx(0, k, 1) == k == Idx(0, k, c1);
      }
      assert AuxTerms(A, c1, T, 1, t, 0) == AuxTerms(A, c1, T, c1, t, 0);
    }
  }

  lemma {:induction false} TransposedCell(A: seq<int>, r1: nat, c1: nat, B: seq<int>, c2: nat, t: nat)
    requires |B| == c1 * c2 && t < r1 * c2
    ensures AuxProduct(A, r1, c1, Transpose(B, c1, c2), c1, c2)[t] == Product(A, r1, c1, B, c2)[t]
  {
    IdxSplit(t, r1, c2);
    TransposedTerms(A, c1, B, c2, t / c2, t % c2);
  }

  /** Row r of A times column c of the identity matrix picks out A[c + r*n]. */
  lemma {:induction false} IdentityDot(A: seq<int>, r1: nat, n: nat, r: nat, c: nat)
    requires |A| == r1 * n && r < r1 && c < n
    ensures Idx(r, c, n) < |A|
    ensures Dot(A, n, Identity(n), n, r, c) == A[Idx(r, c, n)]
  {
    IdxInBounds(r, c, r1, n);
    var v := Terms(A, n, Identity(n), n, r, c);
    forall k | 0 <= k < n
      ensures v[k] == if k == c then A[Idx(r, c, n)] else 0
    {
      IdxInBounds(k, c, n, n);
      IdxDivMod(k, c, n);
      IdxInBounds(r, k, r1, n);
    }
    SumOneNonzero(v, c, n);
    assert v[..n] == v;
  }

  /** Multiplying by the identity matrix returns the left operand unchanged. */
  lemma {:induction false} IdentityProduct(A: seq<int>, r1: nat, n: nat)
    requires |A| == r1 * n
    ensures Product(A, r1, n, Identity(n), n) == A
  {
    var P := Product(A, r1, n, Identity(n), n);
    forall t | 0 <= t < |A|
      ensures P[t] == A[t]
    {
      IdentityCell(A, r1, n, t);
    }
  }

  lemma {:induction false} IdentityCell(A: seq<int>, r1: nat, n: nat, t: nat)
    requires |A| == r1 * n && t < |A|
    ensures Product(A, r1, n, Identity(n), n)[t] == A[t]
  {
    IdxSplit(t, r1, n);
    IdentityDot(A, r1, n, t / n, t % n);
  }

  lemma {:induction false} Sum2(v: seq<int>)
    requires |v| == 2
    ensures Sum(v) == v[0] + v[1]
  {
    SumStep(v, 0);
    SumStep(v, 1);
    assert v[..0] == [] && v[..2] == v;
  }

  lemma {:induction false} Sum3(v: seq<int>)
    requires |v| == 3
    ensures Sum(v) == v[0] + v[1] + v[2]
  {
    SumStep(v, 0);
    SumStep(v, 1);
    SumStep(v, 2);
    assert v[..0] == [] && v[..3] == v;
  }

  /** Cell (r, c) of the product of two 2 x 2 matrices. */
  lemma {:induction false} Product2x2At(A: seq<int>, B: seq<int>, r: nat, c: nat)
    requires |A| == 4 && |B| == 4 && r < 2 && c < 2
    ensures |Product(A, 2, 2, B, 2)| == 4
    ensures Product(A, 2, 2, B, 2)[c + 2 * r] == A[2 * r] * B[c] + A[2 * r + 1] * B[c + 2]
  {
    ProductAt(A, 2, 2, B, 2, r, c);
    Sum2(Terms(A, 2, B, 2, r, c));
  }

  /** Worked example: [[1,2],[3,4]] * [[5,6],[7,8]] = [[19,22],[43,50]]. */
  lemma {:induction false} ExampleSquare()
    ensures Product([1, 2, 3, 4], 2, 2, [5, 6, 7, 8], 2) == [19, 22, 43, 50]
  {
    var A, B := [1, 2, 3, 4], [5, 6, 7, 8];
    Product2x2At(A, B, 0, 0);
    Product2x2At(A, B, 0, 1);
    Product2x2At(A, B, 1, 0);
    Product2x2At(A, B, 1, 1);
    var P := Product(A, 2, 2, B, 2);
    assert P[0] == 19 && P[1] == 22 && P[2] == 43 && P[3] == 50;
  }

  /** Worked example: the row [1,2,3] times the column [4,5,6] is the 1 x 1 matrix [32]. */
  lemma {:induction false} ExampleRowTimesColumn()
    ensures Product([1, 2, 3], 1, 3, [4, 5, 6], 1) == [32]
  {
    var u, w := [1, 2, 3], [4, 5, 6];
    ProductAt(u, 1, 3, w, 1, 0, 0);
    Sum3(Terms(u, 3, w, 1, 0, 0));
  }
}
