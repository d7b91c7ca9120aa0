/**
 * Reductions over the terms of a dot product. `Sum` adds a vector left to right, as the
 * reference loop does; `SumOver` adds the entries a loop visits, in the order it visits
 * them.
 */
module Sums {
  import opened Layout

  /** v[0] + v[1] + ... + v[|v|-1], accumulated from the left. */
  function Sum(v: seq<int>): int
  {
    if v == [] then 0 else Sum(v[..|v| - 1]) + v[|v| - 1]
  }

  /** The sum of v[k] for the indices k of ks, accumulated in the order ks lists them. */
  function SumOver(v: seq<int>, ks: seq<nat>): int
  {
    if ks == [] then 0 else SumOver(v, ks[..|ks| - 1]) + At(v, ks[|ks| - 1])
  }

  /** One more step of a left-to-right accumulation. */
  lemma {:induction false} SumStep(v: seq<int>, k: nat)
    requires k < |v|
    ensures Sum(v[..k + 1]) == Sum(v[..k]) + v[k]
  {
    assert v[..k + 1][..k] == v[..k];
  }

  /** Visiting one more index adds that entry. */
  lemma {:induction false} SumOverStep(v: seq<int>, ks: seq<nat>, k: nat)
    ensures SumOver(v, ks + [k]) == SumOver(v, ks) + At(v, k)
  {
    assert (ks + [k])[..|ks|] == ks;
  }

  /** Visiting one index first adds that entry in front of the rest. */
  lemma {:induction false} SumOverCons(v: seq<int>, i: nat, ks: seq<nat>)
    ensures SumOver(v, [i] + ks) == At(v, i) + SumOver(v, ks)
    decreases |ks|
  {
    if ks == [] {
      assert [i] + ks == [i];
      assert [i][..0] == [];
    } else {
      var init := ks[..|ks| - 1];
      assert ([i] + ks)[..|ks|] == [i] + init;
      SumOverCons(v, i, init);
    }
  }

  /** Visiting 0, 1, ..., n-1 in order is the left-to-right sum of the first n entries. */
  lemma {:induction false} SumOverRange(v: seq<int>, n: nat)
    requires n <= |v|
    ensures SumOver(v, Range(n)) == Sum(v[..n])
  {
    if n > 0 {
      assert Range(n)[..n - 1] == Range(n - 1);
      assert v[..n][..n - 1] == v[..n - 1];
      SumOverRange(v, n - 1);
    }
  }

  /** A vector whose entries are all zero except entry j sums to v[j] (over any prefix that holds j). */
  lemma {:induction false} SumOneNonzero(v: seq<int>, j: nat, m: nat)
    requires j < |v| && m <= |v|
    requires forall k :: 0 <= k < |v| && k != j ==> v[k] == 0
    ensures Sum(v[..m]) == if j < m then v[j] else 0
  {
    if m > 0 {
      SumOneNonzero(v, j, m - 1);
      SumStep(v, m - 1);
    }
  }
}
