/**
 * The order in which the unrolled reduction loops of the two cache-optimised
 * multipliers visit the reduction indices 0..n-1 of one result cell (n = r_2).
 * Each function lists the indices whose term has been added, in the order the
 * `+=` statements add them.
 */
module Schedules {
  import opened Layout
  import opened Sums

  /**
   * After j iterations of `for (k = start; k < n; k += 2) { add k; add k+1; }`:
   * start, start+1, start+2, ..., start+2j-1.
   */
  function PairsUp(start: nat, j: nat): seq<nat>
  {
    if j == 0 then [] else PairsUp(start, j - 1) + [start + 2 * (j - 1), start + 2 * (j - 1) + 1]
  }

  /** After j iterations of `for (k = 1; k < n; k += 2) { add k; add k-1; }`: 1, 0, 3, 2, ..., 2j-1, 2j-2. */
  function PairsDown(j: nat): seq<nat>
  {
    if j == 0 then [] else PairsDown(j - 1) + [2 * j - 1, 2 * j - 2]
  }

  /**
   * The whole reduction of optimiced_multiplication: pairs from 0 when n is even;
   * term 0 peeled off first and pairs from 1 when n is odd.
   */
  function OptimizedOrder(n: nat): seq<nat>
  {
    if n % 2 == 0 then PairsUp(0, n / 2) else [0] + PairsUp(1, n / 2)
  }

  /**
   * The whole reduction of optimiced_parallel_multiplication: pairs (k, k-1) for
   * k = 1, 3, ... below n, then the tail term n-1 once more when n is odd.
   */
  function OptimizedParallelOrder(n: nat): seq<nat>
  {
    if n % 2 == 0 then PairsDown(n / 2) else PairsDown(n / 2) + [n - 1]
  }

  /** How many times the visiting order ks adds the term of index i. */
  function Visits(ks: seq<nat>, i: nat): nat
  {
    if ks == [] then 0 else Visits(ks[..|ks| - 1], i) + (if ks[|ks| - 1] == i then 1 else 0)
  }

  lemma {:induction false} VisitsAppend(a: seq<nat>, b: seq<nat>, i: nat)
    ensures Visits(a + b, i) == Visits(a, i) + Visits(b, i)
    decreases |b|
  {
    if b != [] {
      assert (a + b)[..|a + b| - 1] == a + b[..|b| - 1];
      VisitsAppend(a, b[..|b| - 1], i);
    } else {
      assert a + b == a;
    }
  }

  lemma {:induction false} VisitsOne(x: nat, i: nat)
    ensures Visits([x], i) == if x == i then 1 else 0
  {
    assert [x][..0] == [];
  }

  lemma {:induction false} VisitsPair(x: nat, y: nat, i: nat)
    ensures Visits([x, y], i) == (if x == i then 1 else 0) + (if y == i then 1 else 0)
  {
    VisitsOne(x, i);
    assert [x, y][..1] == [x];
  }

  /** j upward pairs from start visit each of start..start+2j-1 once, and nothing else. */
  lemma {:induction false} PairsUpOnce(start: nat, j: nat, i: nat)
    ensures Visits(PairsUp(start, j), i) == if start <= i < start + 2 * j then 1 else 0
  {
    if j > 0 {
      PairsUpOnce(start, j - 1, i);
      var m := start + 2 * (j - 1);
      VisitsAppend(PairsUp(start, j - 1), [m, m + 1], i);
      VisitsPair(m, m + 1, i);
    }
  }

  /** j (k, k-1) pairs visit each of 0..2j-1 once, and nothing else. */
  lemma {:induction false} PairsDownOnce(j: nat, i: nat)
    ensures Visits(PairsDown(j), i) == if i < 2 * j then 1 else 0
  {
    if j > 0 {
      PairsDownOnce(j - 1, i);
      VisitsAppend(PairsDown(j - 1), [2 * j - 1, 2 * j - 2], i);
      VisitsPair(2 * j - 1, 2 * j - 2, i);
    }
  }

  /** Every reduction index below n is added exactly once by optimiced_multiplication, and no other. */
  lemma {:induction false} OptimizedVisitsEachOnce(n: nat, i: nat)
    ensures Visits(OptimizedOrder(n), i) == if i < n then 1 else 0
  {
    if n % 2 == 0 {
      PairsUpOnce(0, n / 2, i);
    } else {
      VisitsAppend([0], PairsUp(1, n / 2), i);
      VisitsOne(0, i);
      PairsUpOnce(1, n / 2, i);
    }
  }

  /**
   * Every reduction index below n is added exactly once by
   * optimiced_parallel_multiplication, and no other: the pairs cover [0, n) when n is
   * even and [0, n-1) when it is odd, and the odd tail supplies n-1.
   */
  lemma {:induction false} OptimizedParallelVisitsEachOnce(n: nat, i: nat)
    ensures Visits(OptimizedParallelOrder(n), i) == if i < n then 1 else 0
  {
    PairsDownOnce(n / 2, i);
    if n % 2 == 1 {
      VisitsAppend(PairsDown(n / 2), [n - 1], i);
      VisitsOne(n - 1, i);
    }
  }

  lemma {:induction false} PairsUpAscending(start: nat, j: nat)
    ensures PairsUp(start, j) == seq(2 * j, i requires 0 <= i => (start + i) as nat)
  {
    if j > 0 {
      PairsUpAscending(start, j - 1);
    }
  }

  /** optimiced_multiplication adds the terms in plain increasing order 0, 1, ..., n-1, for even and odd n. */
  lemma {:induction false} OptimizedOrderIsAscending(n: nat)
    ensures OptimizedOrder(n) == Range(n)
  {
    if n % 2 == 0 {
      PairsUpAscending(0, n / 2);
    } else {
      PairsUpAscending(1, n / 2);
    }
  }

  /** One more iteration of an upward pair loop, at k = start + 2j, adds terms k and k+1, in that order. */
  lemma {:induction false} PairsUpStep(v: seq<int>, start: nat, j: nat, k: nat)
    requires k == start + 2 * j
    ensures SumOver(v, PairsUp(start, j + 1)) == SumOver(v, PairsUp(start, j)) + At(v, k) + At(v, k + 1)
  {
    var xs := PairsUp(start, j);
    assert PairsUp(start, j + 1) == xs + [k] + [k + 1];
    SumOverStep(v, xs, k);
    SumOverStep(v, xs + [k], k + 1);
  }

  /** One more iteration of the (k, k-1) pair loop, at k = 2j+1, adds terms k and k-1, in that order. */
  lemma {:induction false} PairsDownStep(v: seq<int>, j: nat, k: nat)
    requires k == 2 * j + 1
    ensures SumOver(v, PairsDown(j + 1)) == SumOver(v, PairsDown(j)) + At(v, k) + At(v, k - 1)
  {
    var xs := PairsDown(j);
    assert 2 * (j + 1) - 1 == k && 2 * (j + 1) - 2 == k - 1;
    assert PairsDown(j + 1) == xs + [k, k - 1];
    assert xs + [k, k - 1] == xs + [k] + [k - 1];
    SumOverStep(v, xs, k);
    SumOverStep(v, xs + [k], k - 1);
  }

  /** The first j (k, k-1) pairs add up to the left-to-right sum of the first 2j terms. */
  lemma {:induction false} PairsDownSum(v: seq<int>, j: nat)
    requires 2 * j <= |v|
    ensures SumOver(v, PairsDown(j)) == Sum(v[..2 * j])
  {
    if j > 0 {
      PairsDownSum(v, j - 1);
      PairsDownStep(v, j - 1, 2 * j - 1);
      SumStep(v, 2 * j - 2);
      SumStep(v, 2 * j - 1);
    }
  }

  /** Adding the terms in the order of optimiced_multiplication gives the left-to-right sum. */
  lemma {:induction false} OptimizedOrderSum(v: seq<int>)
    ensures SumOver(v, OptimizedOrder(|v|)) == Sum(v)
  {
    OptimizedOrderIsAscending(|v|);
    SumOverRange(v, |v|);
    assert v[..|v|] == v;
  }

  /** For odd n, term 0 peeled off and then the pairs from 1 add up to the left-to-right sum. */
  lemma {:induction false} PeeledPairsSum(v: seq<int>)
    requires |v| % 2 == 1
    ensures At(v, 0) + SumOver(v, PairsUp(1, |v| / 2)) == Sum(v)
  {
    SumOverCons(v, 0, PairsUp(1, |v| / 2));
    assert OptimizedOrder(|v|) == [0] + PairsUp(1, |v| / 2);
    OptimizedOrderSum(v);
  }

  /** Adding the terms in the order of optimiced_parallel_multiplication gives the left-to-right sum. */
  lemma {:induction false} OptimizedParallelOrderSum(v: seq<int>)
    ensures SumOver(v, OptimizedParallelOrder(|v|)) == Sum(v)
  {
    var n, h := |v|, |v| / 2;
    PairsDownSum(v, h);
    assert v[..n] == v;
    if n % 2 == 0 {
      assert 2 * h == n;
      assert OptimizedParallelOrder(n) == PairsDown(h);
    } else {
      assert 2 * h == n - 1;
      SumOverStep(v, PairsDown(h), n - 1);
      SumStep(v, n - 1);
      calc {
        SumOver(v, OptimizedParallelOrder(n));
        SumOver(v, PairsDown(h) + [n - 1]);
        SumOver(v, PairsDown(h)) + At(v, n - 1);
        Sum(v[..n - 1]) + v[n - 1];
        Sum(v[..n]);
      }
    }
  }
}
