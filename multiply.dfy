/**
 * The four multipliers of Matrix_Multiplication.c as methods over flat row-major
 * arrays. Each one checks that the inner dimensions agree, and otherwise leaves the
 * result untouched and reports the mismatch (the program prints
 * "Error: Wrong matrix size" and exits). On success the basic and parallel
 * multipliers leave in `result` exactly Product(matrix_1, matrix_2), whatever the
 * buffer held before. The two cache-optimised ones leave OptimizedProduct, which
 * reads the transposed copy with the stride the program uses; it is the product when
 * matrix_2 is square or has at most one column, and can differ from it when
 * 1 < c2 < r2 (module Findings gives such an input).
 *
 * OpenMP work sharing is modelled by a schedule: the order in which the iterations
 * of a shared row loop run. It is a permutation of the rows (each row is computed
 * by exactly one iteration) and, when the `if` clause keeps the region on one
 * thread, the plain order 0, 1, 2, .... Rows write disjoint cells and read only the
 * operands (and `aux`), so running them in any order stands for running them on
 * any number of threads. The barrier that closes a work-shared loop is the
 * sequencing of two statements.
 */
module Multiply {
  import opened Layout
  import opened Sums
  import opened Schedules
  import opened MatrixSpec

  /** How a multiplier call ends. */
  datatype Outcome = Multiplied | DimensionMismatch

  /**
   * The clause `if(r_1*c_1 > 100)` (lines 71 and 91): the product is taken in 32-bit
   * unsigned arithmetic. Below 2^32 it is the plain comparison; a product that wraps
   * around to 100 or less keeps the region on one thread.
   */
  predicate Threaded(r1: nat, c1: nat): (b: bool)
    ensures r1 * c1 <= 100 ==> !b
    ensures 100 < r1 * c1 < 0x1_0000_0000 ==> b
    ensures r1 * c1 == 0x1_0000_0000 ==> !b
  {
    (r1 * c1) % 0x1_0000_0000 > 100
  }

  /** An order of the iterations of a work-shared loop over 0..n-1 that runs each iteration once. */
  predicate IsSchedule(order: seq<nat>, n: nat): (b: bool)
    ensures b ==> |order| == n
    ensures order == Range(n) ==> b
  {
    multiset(order) == multiset(Range(n))
  }

  /** A schedule runs only iterations below n, and runs all of them. */
  lemma ScheduleCovers(order: seq<nat>, n: nat)
    requires IsSchedule(order, n)
    ensures forall i :: 0 <= i < |order| ==> order[i] < n
    ensures forall r :: 0 <= r < n ==> r in order
  {
    forall i | 0 <= i < |order|
      ensures order[i] < n
    {
      assert order[i] in multiset(Range(n));
    }
    forall r | 0 <= r < n
      ensures r in order
    {
      assert Range(n)[r] == r;
      assert r in multiset(Range(n));
    }
  }

  /**
   * One iteration of the transposition loop (lines 31-34 and 95-97): row r of matrix_2
   * becomes column r of aux, aux[r + c*r2] = matrix_2[c + r*c2] for c = 0, ..., c2-1.
   * Only the entries t of aux with t % r2 == r change.
   */
  method TransposeRow(B: array<int>, r2: nat, c2: nat, aux: array<int>, r: nat)
    requires aux != B && B.Length == r2 * c2 && aux.Length == r2 * c2 && r < r2
    modifies aux
    ensures forall t :: 0 <= t < aux.Length ==>
      aux[t] == if t % r2 == r then Transpose(B[..], r2, c2)[t] else old(aux[t])
  {
    ghost var T := Transpose(B[..], r2, c2);
    var c := 0;
    while c < c2
      invariant 0 <= c <= c2
      invariant forall t :: 0 <= t < aux.Length ==>
        aux[t] == if t % r2 == r && t / r2 < c then T[t] else old(aux[t])
    {
      TransposeAt(B[..], r2, c2, r, c);
      IdxDivMod(c, r, r2);
      aux[r + c * r2] := B[c + r * c2];
      forall t | 0 <= t < aux.Length && t % r2 == r && t / r2 == c
        ensures t == r + c * r2
      {
        IdxSplit(t, c2, r2);
      }
      c := c + 1;
    }
    forall t | 0 <= t < aux.Length
      ensures t / r2 < c2
    {
      IdxSplit(t, c2, r2);
    }
  }

  /**
   * The transposition loop (lines 30-35, and 94-98 where OpenMP shares it out): the
   * rows r of matrix_2 are copied in `order`, after which aux is the transpose of
   * matrix_2, aux[r + c*r2] = matrix_2[c + r*c2].
   */
  method TransposeInto(B: array<int>, r2: nat, c2: nat, aux: array<int>, order: seq<nat>)
    requires aux != B && B.Length == r2 * c2 && aux.Length == r2 * c2
    requires IsSchedule(order, r2)
    modifies aux
    ensures aux[..] == Transpose(B[..], r2, c2)
  {
    ScheduleCovers(order, r2);
    ghost var T := Transpose(B[..], r2, c2);
    var i := 0;
    while i < |order|
      invariant 0 <= i <= |order|
      invariant forall t :: 0 <= t < aux.Length && t % r2 in order[..i] ==> aux[t] == T[t]
    {
      TransposeRow(B, r2, c2, aux, order[i]);
      assert order[..i + 1] == order[..i] + [order[i]];
      i := i + 1;
    }
    assert order[..|order|] == order;
    forall t | 0 <= t < aux.Length
      ensures aux[t] == T[t]
    {
      IdxSplit(t, c2, r2);
    }
  }

  /**
   * One cell of basic_multiplication (lines 12-15) and of parallel_multiplication
   * (lines 74-77): cell c + r*c2 is reset to 0 and then accumulates
   * matrix_1[k + r*c1] * matrix_2[c + k*c2] for k = 0, 1, ..., r2-1, ending as the
   * dot product of row r and column c; no other cell changes.
   */
  method BasicCell(A: array<int>, r1: nat, c1: nat, B: array<int>, r2: nat, c2: nat, result: array<int>, r: nat, c: nat)
    requires result != A && result != B
    requires c1 == r2 && r < r1 && c < c2
    requires A.Length == r1 * c1 && B.Length == r2 * c2 && result.Length == r1 * c2
    modifies result
    ensures forall t :: 0 <= t < result.Length ==>
      result[t] == if t == Idx(r, c, c2) then Dot(A[..], c1, B[..], c2, r, c) else old(result[t])
  {
    IdxInBounds(r, c, r1, c2);
    var p := c + r * c2;
    ghost var a, b := A[..], B[..];
    ghost var v := Terms(a, c1, b, c2, r, c);
    result[p] := 0;
    var k := 0;
    while k < r2
      invariant 0 <= k <= r2
      invariant result[p] == Sum(v[..k])
      invariant forall t :: 0 <= t < result.Length && t != p ==> result[t] == old(result[t])
    {
      TermsAt(a, r1, c1, b, c2, r, c, k);
      result[p] := result[p] + A[k + r * c1] * B[c + k * c2];
      SumStep(v, k);
      k := k + 1;
    }
    assert v[..r2] == v;
    assert A[..] == a && B[..] == b;
  }

  /**
   * The body of the row loop of basic_multiplication (lines 10-16) and of
   * parallel_multiplication (lines 73-78): every cell c of row r is computed by
   * BasicCell. Row r ends up as in the product; no other cell changes.
   */
  method MultiplyRow(A: array<int>, r1: nat, c1: nat, B: array<int>, r2: nat, c2: nat, result: array<int>, r: nat)
    requires result != A && result != B
    requires c1 == r2 && r < r1
    requires A.Length == r1 * c1 && B.Length == r2 * c2 && result.Length == r1 * c2
    modifies result
    ensures forall t :: 0 <= t < result.Length ==>
      result[t] == if t / c2 == r then Product(A[..], r1, c1, B[..], c2)[t] else old(result[t])
  {
    ghost var P := Product(A[..], r1, c1, B[..], c2);
    var c := 0;
    while c < c2
      invariant 0 <= c <= c2
      invariant forall t :: 0 <= t < result.Length ==>
        result[t] == if t / c2 == r && t % c2 < c then P[t] else old(result[t])
    {
      ProductAt(A[..], r1, c1, B[..], c2, r, c);
      IdxDivMod(r, c, c2);
      BasicCell(A, r1, c1, B, r2, c2, result, r, c);
      forall t | 0 <= t < result.Length && t != Idx(r, c, c2)
        ensures t / c2 != r || t % c2 != c
      {
        IdxSplit(t, r1, c2);
      }
      c := c + 1;
    }
  }

  /** The four unrolled reduction loops of the cache-optimised multipliers. */
  datatype Kernel =
    | Even          // optimiced_multiplication, r2 even (lines 41-45)
    | Odd           // optimiced_multiplication, r2 odd (lines 52-56)
    | ParallelEven  // optimiced_parallel_multiplication, r2 even (lines 103-107)
    | ParallelOdd   // optimiced_parallel_multiplication, r2 odd (lines 114-119)

  /** Each loop is the branch taken for one parity of r2. */
  predicate Fits(kernel: Kernel, r2: nat)
  {
    if kernel == Even || kernel == ParallelEven then r2 % 2 == 0 else r2 % 2 == 1
  }

  /**
   * The loop `for (k = start; k < r2; k += 2)` whose body adds the terms k and k+1 of
   * cell p = c + r*c2, each read as matrix_1[k + r*c1] * aux[k + c*c2] (lines 42-45 with
   * start 0, lines 53-56 with start 1). When it ends, the cell has gained the terms of
   * PairsUp(start, (r2 - start) / 2); no other cell changes.
   */
  method PairsUpLoop(A: array<int>, r1: nat, c1: nat, aux: array<int>, r2: nat, c2: nat,
                     result: array<int>, r: nat, c: nat, start: nat)
    requires result != A && result != aux
    requires c1 == r2 && r < r1 && c < c2 && (r2 == 0 || c2 <= r2)
    requires A.Length == r1 * c1 && aux.Length == r2 * c2 && result.Length == r1 * c2
    requires start <= r2 && (r2 - start) % 2 == 0
    modifies result
    ensures Idx(r, c, c2) < result.Length
    ensures result[Idx(r, c, c2)] ==
      old(result[Idx(r, c, c2)]) + SumOver(AuxTerms(A[..], c1, aux[..], c2, r, c), PairsUp(start, (r2 - start) / 2))
    ensures forall t :: 0 <= t < result.Length && t != Idx(r, c, c2) ==> result[t] == old(result[t])
  {
    IdxInBounds(r, c, r1, c2);
    var p := c + r * c2;
    ghost var a, x := A[..], aux[..];
    ghost var v := AuxTerms(a, c1, x, c2, r, c);
    ghost var j := 0;
    var k := start;
    while k < r2
      invariant k == start + 2 * j && k <= r2
      invariant result[p] == old(result[p]) + SumOver(v, PairsUp(start, j))
      invariant forall t :: 0 <= t < result.Length && t != p ==> result[t] == old(result[t])
    {
      AuxTermAt(a, r1, c1, x, r2, c2, r, c, k);
      AuxTermAt(a, r1, c1, x, r2, c2, r, c, k + 1);
      result[p] := result[p] + A[k + r * c1] * aux[k + c * c2];
      result[p] := result[p] + A[k + 1 + r * c1] * aux[k + 1 + c * c2];
      PairsUpStep(v, start, j, k);
      k, j := k + 2, j + 1;
    }
    assert A[..] == a && aux[..] == x;
  }

  /**
   * The loop `for (k = 1; k < r2; k += 2)` of optimiced_parallel_multiplication (lines
   * 104-107 and 115-118): its body adds the terms k and then k-1 of cell c + r*c2.
   * When it ends, the cell has gained the terms of PairsDown(r2 / 2); no other cell
   * changes.
   */
  method PairsDownLoop(A: array<int>, r1: nat, c1: nat, aux: array<int>, r2: nat, c2: nat,
                       result: array<int>, r: nat, c: nat)
    requires result != A && result != aux
    requires c1 == r2 && r < r1 && c < c2 && (r2 == 0 || c2 <= r2)
    requires A.Length == r1 * c1 && aux.Length == r2 * c2 && result.Length == r1 * c2
    modifies result
    ensures Idx(r, c, c2) < result.Length
    ensures result[Idx(r, c, c2)] ==
      old(result[Idx(r, c, c2)]) + SumOver(AuxTerms(A[..], c1, aux[..], c2, r, c), PairsDown(r2 / 2))
    ensures forall t :: 0 <= t < result.Length && t != Idx(r, c, c2) ==> result[t] == old(result[t])
  {
    IdxInBounds(r, c, r1, c2);
    var p := c + r * c2;
    ghost var a, x := A[..], aux[..];
    ghost var v := AuxTerms(a, c1, x, c2, r, c);
    ghost var j := 0;
    var k := 1;
    while k < r2
      invariant k == 2 * j + 1 && 2 * j <= r2
      invariant result[p] == old(result[p]) + SumOver(v, PairsDown(j))
      invariant forall t :: 0 <= t < result.Length && t != p ==> result[t] == old(result[t])
    {
      AuxTermAt(a, r1, c1, x, r2, c2, r, c, k);
      AuxTermAt(a, r1, c1, x, r2, c2, r, c, k - 1);
      result[p] := result[p] + A[k + r * c1] * aux[k + c * c2];
      result[p] := result[p] + A[k - 1 + r * c1] * aux[k - 1 + c * c2];
      PairsDownStep(v, j, k);
      k, j := k + 2, j + 1;
    }
    assert j == r2 / 2;
    assert A[..] == a && aux[..] == x;
  }

  /**
   * One cell of optimiced_multiplication with r2 even (lines 41-45): reset to 0, then
   * the pairs k, k+1 for k = 0, 2, ..., r2-2. The cell adds the terms in the order
   * OptimizedOrder(r2), which visits every index once, so it ends up holding the sum
   * of the terms read from row c of aux with stride c2.
   */
  method OptimizedEvenCell(A: array<int>, r1: nat, c1: nat, aux: array<int>, r2: nat, c2: nat,
                           result: array<int>, r: nat, c: nat)
    requires result != A && result != aux
    requires c1 == r2 && r < r1 && c < c2 && (r2 == 0 || c2 <= r2)
    requires A.Length == r1 * c1 && aux.Length == r2 * c2 && result.Length == r1 * c2
    requires r2 % 2 == 0
    modifies result
    ensures forall t :: 0 <= t < result.Length ==>
      result[t] == if t == Idx(r, c, c2) then Sum(AuxTerms(A[..], c1, aux[..], c2, r, c)) else old(result[t])
  {
    IdxInBounds(r, c, r1, c2);
    result[c + r * c2] := 0;
    PairsUpLoop(A, r1, c1, aux, r2, c2, result, r, c, 0);
    ghost var v := AuxTerms(A[..], c1, aux[..], c2, r, c);
    assert |v| == r2 && OptimizedOrder(r2) == PairsUp(0, r2 / 2);
    OptimizedOrderSum(v);
  }

  /**
   * One cell of optimiced_multiplication with r2 odd (lines 52-56): it starts as
   * term 0, matrix_1[r*c1] * aux[c*c2], then the pairs k, k+1 for k = 1, 3, ..., r2-2
   * are added; the terms are added in the order OptimizedOrder(r2).
   */
  method OptimizedOddCell(A: array<int>, r1: nat, c1: nat, aux: array<int>, r2: nat, c2: nat,
                          result: array<int>, r: nat, c: nat)
    requires result != A && result != aux
    requires c1 == r2 && r < r1 && c < c2 && (r2 == 0 || c2 <= r2)
    requires A.Length == r1 * c1 && aux.Length == r2 * c2 && result.Length == r1 * c2
    requires r2 % 2 == 1
    modifies result
    ensures forall t :: 0 <= t < result.Length ==>
      result[t] == if t == Idx(r, c, c2) then Sum(AuxTerms(A[..], c1, aux[..], c2, r, c)) else old(result[t])
  {
    IdxInBounds(r, c, r1, c2);
    IdxInBounds(r, 0, r1, c1);
    StrideReadInBounds(c, 0, r2, c2);
    result[c + r * c2] := A[r * c1] * aux[c * c2];
    PairsUpLoop(A, r1, c1, aux, r2, c2, result, r, c, 1);
    ghost var v := AuxTerms(A[..], c1, aux[..], c2, r, c);
    AuxTermAt(A[..], r1, c1, aux[..], r2, c2, r, c, 0);
    PeeledPairsSum(v);
  }

  /**
   * One cell of optimiced_parallel_multiplication with r2 even (lines 103-107): reset
   * to 0, then for k = 1, 3, ..., r2-1 the terms k and k-1 are added, in that order;
   * the terms are added in the order OptimizedParallelOrder(r2).
   */
  method OptimizedParallelEvenCell(A: array<int>, r1: nat, c1: nat, aux: array<int>, r2: nat, c2: nat,
                                   result: array<int>, r: nat, c: nat)
    requires result != A && result != aux
    requires c1 == r2 && r < r1 && c < c2 && (r2 == 0 || c2 <= r2)
    requires A.Length == r1 * c1 && aux.Length == r2 * c2 && result.Length == r1 * c2
    requires r2 % 2 == 0
    modifies result
    ensures forall t :: 0 <= t < result.Length ==>
      result[t] == if t == Idx(r, c, c2) then Sum(AuxTerms(A[..], c1, aux[..], c2, r, c)) else old(result[t])
  {
    IdxInBounds(r, c, r1, c2);
    result[c + r * c2] := 0;
    PairsDownLoop(A, r1, c1, aux, r2, c2, result, r, c);
    ghost var v := AuxTerms(A[..], c1, aux[..], c2, r, c);
    assert |v| == r2 && OptimizedParallelOrder(r2) == PairsDown(r2 / 2);
    OptimizedParallelOrderSum(v);
  }

  /**
   * One cell of optimiced_parallel_multiplication with r2 odd (lines 114-119): as in
   * the even case, after which the tail term r2-1, left out by the pairs, is added
   * once; the terms are added in the order OptimizedParallelOrder(r2).
   */
  method OptimizedParallelOddCell(A: array<int>, r1: nat, c1: nat, aux: array<int>, r2: nat, c2: nat,
                                  result: array<int>, r: nat, c: nat)
    requires result != A && result != aux
    requires c1 == r2 && r < r1 && c < c2 && (r2 == 0 || c2 <= r2)
    requires A.Length == r1 * c1 && aux.Length == r2 * c2 && result.Length == r1 * c2
    requires r2 % 2 == 1
    modifies result
    ensures forall t :: 0 <= t < result.Length ==>
      result[t] == if t == Idx(r, c, c2) then Sum(AuxTerms(A[..], c1, aux[..], c2, r, c)) else old(result[t])
  {
    IdxInBounds(r, c, r1, c2);
    result[c + r * c2] := 0;
    PairsDownLoop(A, r1, c1, aux, r2, c2, result, r, c);
    ghost var a, x := A[..], aux[..];
    ghost var v := AuxTerms(a, c1, x, c2, r, c);
    AuxTermAt(a, r1, c1, x, r2, c2, r, c, r2 - 1);
    result[c + r * c2] := result[c + r * c2] + A[r2 - 1 + r * c1] * aux[r2 - 1 + c * c2];
    SumOverStep(v, PairsDown(r2 / 2), r2 - 1);
    assert A[..] == a && aux[..] == x;
    assert |v| == r2 && OptimizedParallelOrder(r2) == PairsDown(r2 / 2) + [r2 - 1];
    OptimizedParallelOrderSum(v);
  }

  /**
   * The body of a row loop of the cache-optimised multipliers (lines 40-46, 50-57,
   * 102-108 and 113-120): every cell c of row r is computed by the reduction loop
   * `kernel`. Row r ends up as in AuxProduct with stride c2; no other cell changes.
   */
  method UnrolledRow(A: array<int>, r1: nat, c1: nat, aux: array<int>, r2: nat, c2: nat,
                     result: array<int>, r: nat, kernel: Kernel)
    requires result != A && result != aux
    requires c1 == r2 && Fits(kernel, r2) && r < r1 && (r2 == 0 || c2 <= r2)
    requires A.Length == r1 * c1 && aux.Length == r2 * c2 && result.Length == r1 * c2
    modifies result
    ensures forall t :: 0 <= t < result.Length ==>
      result[t] == if t / c2 == r then AuxProduct(A[..], r1, c1, aux[..], c2, c2)[t] else old(result[t])
  {
    ghost var Q := AuxProduct(A[..], r1, c1, aux[..], c2, c2);
    var c := 0;
    while c < c2
      invariant 0 <= c <= c2
      invariant forall t :: 0 <= t < result.Length ==>
        result[t] == if t / c2 == r && t % c2 < c then Q[t] else old(result[t])
    {
      AuxProductAt(A[..], r1, c1, aux[..], c2, c2, r, c);
      IdxDivMod(r, c, c2);
      match kernel {
        case Even => OptimizedEvenCell(A, r1, c1, aux, r2, c2, result, r, c);
        case Odd => OptimizedOddCell(A, r1, c1, aux, r2, c2, result, r, c);
        case ParallelEven => OptimizedParallelEvenCell(A, r1, c1, aux, r2, c2, result, r, c);
        case ParallelOdd => OptimizedParallelOddCell(A, r1, c1, aux, r2, c2, result, r, c);
      }
      forall t | 0 <= t < result.Length && t != Idx(r, c, c2)
        ensures t / c2 != r || t % c2 != c
      {
        IdxSplit(t, r1, c2);
      }
      c := c + 1;
    }
  }

  /** Every index of the r1 x c2 result lies in one of its rows 0..r1-1. */
  lemma RowOfIndex(r1: nat, c2: nat)
    ensures forall t :: 0 <= t < r1 * c2 ==> t / c2 < r1
  {
    forall t | 0 <= t < r1 * c2
      ensures t / c2 < r1
    {
      IdxSplit(t, r1, c2);
    }
  }

  /** Under a schedule of the rows, every index of the r1 x c2 result lies in a row the loop runs. */
  lemma RowsCover(rows: seq<nat>, r1: nat, c2: nat)
    requires IsSchedule(rows, r1)
    ensures forall t :: 0 <= t < r1 * c2 ==> t / c2 in rows
  {
    ScheduleCovers(rows, r1);
    RowOfIndex(r1, c2);
  }

  /** basic_multiplication (lines 6-23): the reference triple loop, rows in order. */
  method Basic(A: array<int>, r1: nat, c1: nat, B: array<int>, r2: nat, c2: nat, result: array<int>)
    returns (outcome: Outcome)
    requires result != A && result != B
    requires c1 == r2 ==> A.Length == r1 * c1 && B.Length == r2 * c2 && result.Length == r1 * c2
    modifies result
    ensures outcome == if c1 == r2 then Multiplied else DimensionMismatch
    ensures outcome == Multiplied ==> result[..] == Product(A[..], r1, c1, B[..], c2)
    ensures outcome == DimensionMismatch ==> result[..] == old(result[..])
  {
    if c1 != r2 {
      return DimensionMismatch;
    }
    ghost var P := Product(A[..], r1, c1, B[..], c2);
    var r := 0;
    while r < r1
      invariant 0 <= r <= r1
      invariant forall t :: 0 <= t < result.Length ==> result[t] == if t / c2 < r then P[t] else old(result[t])
    {
      MultiplyRow(A, r1, c1, B, r2, c2, result, r);
      r := r + 1;
    }
    RowOfIndex(r1, c2);
    assert result[..] == P;
    return Multiplied;
  }

  /**
   * parallel_multiplication (lines 69-85): the basic algorithm with its row loop
   * shared out by OpenMP; `rows` is the order the iterations run in.
   */
  method Parallel(A: array<int>, r1: nat, c1: nat, B: array<int>, r2: nat, c2: nat, result: array<int>,
                  rows: seq<nat>)
    returns (outcome: Outcome)
    requires result != A && result != B
    requires c1 == r2 ==> A.Length == r1 * c1 && B.Length == r2 * c2 && result.Length == r1 * c2
    requires IsSchedule(rows, r1)
    requires !Threaded(r1, c1) ==> rows == Range(r1)
    modifies result
    ensures outcome == if c1 == r2 then Multiplied else DimensionMismatch
    ensures outcome == Multiplied ==> result[..] == Product(A[..], r1, c1, B[..], c2)
    ensures outcome == DimensionMismatch ==> result[..] == old(result[..])
  {
    if c1 != r2 {
      return DimensionMismatch;
    }
    ScheduleCovers(rows, r1);
    ghost var P := Product(A[..], r1, c1, B[..], c2);
    var i := 0;
    while i < |rows|
      invariant 0 <= i <= |rows|
      invariant forall t :: 0 <= t < result.Length ==> result[t] == if t / c2 in rows[..i] then P[t] else old(result[t])
    {
      MultiplyRow(A, r1, c1, B, r2, c2, result, rows[i]);
      assert rows[..i + 1] == rows[..i] + [rows[i]];
      i := i + 1;
    }
    assert rows[..|rows|] == rows;
    RowsCover(rows, r1, c2);
    assert result[..] == P;
    return Multiplied;
  }

  /**
   * The row loop of the cache-optimised multipliers, its iterations run in the order
   * `rows`: every row of the result is computed by `kernel`, and the result buffer
   * ends up as AuxProduct with stride c2.
   */
  method UnrolledRows(A: array<int>, r1: nat, c1: nat, aux: array<int>, r2: nat, c2: nat,
                      result: array<int>, rows: seq<nat>, kernel: Kernel)
    requires result != A && result != aux
    requires c1 == r2 && Fits(kernel, r2) && (r1 == 0 || r2 == 0 || c2 <= r2)
    requires A.Length == r1 * c1 && aux.Length == r2 * c2 && result.Length == r1 * c2
    requires IsSchedule(rows, r1)
    modifies result
    ensures result[..] == AuxProduct(A[..], r1, c1, aux[..], c2, c2)
  {
    ScheduleCovers(rows, r1);
    ghost var Q := AuxProduct(A[..], r1, c1, aux[..], c2, c2);
    var i := 0;
    while i < |rows|
      invariant 0 <= i <= |rows|
      invariant forall t :: 0 <= t < result.Length ==> result[t] == if t / c2 in rows[..i] then Q[t] else old(result[t])
    {
      UnrolledRow(A, r1, c1, aux, r2, c2, result, rows[i], kernel);
      assert rows[..i + 1] == rows[..i] + [rows[i]];
      i := i + 1;
    }
    assert rows[..|rows|] == rows;
    RowsCover(rows, r1, c2);
    assert result[..] == Q;
  }

  /**
   * optimiced_multiplication (lines 26-66): transpose matrix_2 into aux, then the
   * reduction unrolled by two, with term 0 peeled off when r2 is odd, rows in order.
   * aux is read as aux[k + c*c2], as the program does; those reads stay inside aux
   * when c2 <= r2 (or when there is nothing to read), and the result is the product
   * when r2 == c2 or c2 <= 1.
   */
  method Optimized(A: array<int>, r1: nat, c1: nat, B: array<int>, r2: nat, c2: nat, result: array<int>)
    returns (outcome: Outcome)
    requires result != A && result != B
    requires c1 == r2 ==> A.Length == r1 * c1 && B.Length == r2 * c2 && result.Length == r1 * c2
    requires c1 == r2 ==> r1 == 0 || r2 == 0 || c2 <= r2
    modifies result
    ensures outcome == if c1 == r2 then Multiplied else DimensionMismatch
    ensures outcome == Multiplied ==> result[..] == OptimizedProduct(A[..], r1, c1, B[..], r2, c2)
    ensures outcome == Multiplied && (r2 == c2 || c2 <= 1) ==> result[..] == Product(A[..], r1, c1, B[..], c2)
    ensures outcome == DimensionMismatch ==> result[..] == old(result[..])
  {
    if c1 != r2 {
      return DimensionMismatch;
    }
    var aux := new int[r2 * c2];
    TransposeInto(B, r2, c2, aux, Range(r2));
    var kernel := if r2 % 2 == 0 then Even else Odd;
    UnrolledRows(A, r1, c1, aux, r2, c2, result, Range(r1), kernel);
    if r2 == c2 {
      OptimizedProductSquare(A[..], r1, c1, B[..], r2, c2);
    } else if c2 <= 1 {
      OptimizedProductColumn(A[..], r1, c1, B[..], r2, c2);
    }
    return Multiplied;
  }

  /**
   * optimiced_parallel_multiplication (lines 88-130): the transposition and then the
   * (k, k-1)-paired reduction, both row loops shared out by OpenMP inside one parallel
   * region; `auxRows` and `rows` are the orders their iterations run in. The barrier
   * ending the transposition loop is the sequencing of the two phases.
   */
  method OptimizedParallel(A: array<int>, r1: nat, c1: nat, B: array<int>, r2: nat, c2: nat, result: array<int>,
                           auxRows: seq<nat>, rows: seq<nat>)
    returns (outcome: Outcome)
    requires result != A && result != B
    requires c1 == r2 ==> A.Length == r1 * c1 && B.Length == r2 * c2 && result.Length == r1 * c2
    requires c1 == r2 ==> r1 == 0 || r2 == 0 || c2 <= r2
    requires IsSchedule(auxRows, r2) && IsSchedule(rows, r1)
    requires !Threaded(r1, c1) ==> auxRows == Range(r2) && rows == Range(r1)
    modifies result
    ensures outcome == if c1 == r2 then Multiplied else DimensionMismatch
    ensures outcome == Multiplied ==> result[..] == OptimizedProduct(A[..], r1, c1, B[..], r2, c2)
    ensures outcome == Multiplied && (r2 == c2 || c2 <= 1) ==> result[..] == Product(A[..], r1, c1, B[..], c2)
    ensures outcome == DimensionMismatch ==> result[..] == old(result[..])
  {
    if c1 != r2 {
      return DimensionMismatch;
    }
    var aux := new int[r2 * c2];
    TransposeInto(B, r2, c2, aux, auxRows);
    var kernel := if r2 % 2 == 0 then ParallelEven else ParallelOdd;
    UnrolledRows(A, r1, c1, aux, r2, c2, result, rows, kernel);
    if r2 == c2 {
      OptimizedProductSquare(A[..], r1, c1, B[..], r2, c2);
    } else if c2 <= 1 {
      OptimizedProductColumn(A[..], r1, c1, B[..], r2, c2);
    }
    return Multiplied;
  }
}
