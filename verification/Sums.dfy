/** Sums of a weight over a finite set, independent of the order of summation. */
module Sums {

  ghost function SumBy<T>(keys: set<T>, weight: T -> int): int
  {
    if keys == {} then 0
    else
      var k :| k in keys;
      weight(k) + SumBy(keys - {k}, weight)
  }

  /** Any element can be taken out first. */
  lemma {:induction false} SumTakeOut<T>(keys: set<T>, weight: T -> int, k: T)
    requires k in keys
    ensures SumBy(keys, weight) == weight(k) + SumBy(keys - {k}, weight)
    decreases |keys|
  {
    var j :| j in keys && SumBy(keys, weight) == weight(j) + SumBy(keys - {j}, weight);
    if j != k {
      SumTakeOut(keys - {j}, weight, k);
      SumTakeOut(keys - {k}, weight, j);
      assert keys - {j} - {k} == keys - {k} - {j};
    }
  }

  lemma SumAdd<T>(keys: set<T>, weight: T -> int, k: T)
    requires k !in keys
    ensures SumBy(keys + {k}, weight) == weight(k) + SumBy(keys, weight)
  {
    SumTakeOut(keys + {k}, weight, k);
    assert keys + {k} - {k} == keys;
  }

  lemma {:induction false} SumCong<T>(keys: set<T>, v: T -> int, w: T -> int)
    requires forall k <- keys :: v(k) == w(k)
    ensures SumBy(keys, v) == SumBy(keys, w)
    decreases |keys|
  {
    if keys != {} {
      var k :| k in keys;
      SumTakeOut(keys, v, k);
      SumTakeOut(keys, w, k);
      SumCong(keys - {k}, v, w);
    }
  }

  lemma {:induction false} SumMono<T>(keys: set<T>, v: T -> int, w: T -> int)
    requires forall k <- keys :: v(k) <= w(k)
    ensures SumBy(keys, v) <= SumBy(keys, w)
    decreases |keys|
  {
    if keys != {} {
      var k :| k in keys;
      SumTakeOut(keys, v, k);
      SumTakeOut(keys, w, k);
      SumMono(keys - {k}, v, w);
    }
  }

  lemma {:induction false} SumAtLeast<T>(keys: set<T>, w: T -> int, least: int)
    requires forall k <- keys :: w(k) >= least
    ensures SumBy(keys, w) >= |keys| * least
    decreases |keys|
  {
    if keys != {} {
      var k :| k in keys;
      SumTakeOut(keys, w, k);
      SumAtLeast(keys - {k}, w, least);
      assert |keys| * least == |keys - {k}| * least + least;
    }
  }

  lemma {:induction false} SumZero<T>(keys: set<T>, w: T -> int)
    requires forall k <- keys :: w(k) == 0
    ensures SumBy(keys, w) == 0
    decreases |keys|
  {
    if keys != {} {
      var k :| k in keys;
      SumTakeOut(keys, w, k);
      SumZero(keys - {k}, w);
    }
  }

  /** Changing the weight of one element, which may be new, moves the sum by the difference. */
  lemma SumUpdate<T>(keys: set<T>, v: T -> int, w: T -> int, k: T)
    requires forall j <- keys :: j != k ==> v(j) == w(j)
    requires k !in keys ==> v(k) == 0
    ensures SumBy(keys + {k}, w) == SumBy(keys, v) - v(k) + w(k)
  {
    var rest := keys - {k};
    SumCong(rest, v, w);
    SumAdd(rest, w, k);
    assert rest + {k} == keys + {k};
    if k in keys {
      SumTakeOut(keys, v, k);
    } else {
      assert rest == keys;
    }
  }
}
