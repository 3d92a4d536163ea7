/** The ordered index behind both of the engine's indexes, seen from outside:
    a finite map from keys to values under a strict total order on the keys,
    with `rangeApply` modelled as "visit every key in the inclusive window
    [lo, hi] in ascending order". The tree layout and its comparison counter
    are not part of this model. */
module OrderedIndex {

  ghost predicate StrictTotalOrder<K(!new)>(less: (K, K) -> bool) {
    && (forall x :: !less(x, x))
    && (forall x, y, z :: less(x, y) && less(y, z) ==> less(x, z))
    && (forall x, y :: x != y ==> less(x, y) || less(y, x))
  }

  /** `k` lies in the inclusive window [lo, hi]. */
  predicate InRange<K>(less: (K, K) -> bool, lo: K, hi: K, k: K) {
    !less(k, lo) && !less(hi, k)
  }

  /** Keys strictly ascending, hence each visited once. */
  predicate Ascending<K>(less: (K, K) -> bool, ks: seq<K>) {
    forall i, j :: 0 <= i < j < |ks| ==> less(ks[i], ks[j])
  }

  /** Every finite non-empty set has a least element under a strict total order. */
  lemma {:induction false} LeastExists<K(!new)>(s: set<K>, less: (K, K) -> bool)
    requires s != {}
    requires StrictTotalOrder(less)
    ensures exists m :: m in s && forall k :: k in s ==> !less(k, m)
    decreases |s|
  {
    var x :| x in s;
    var rest := s - {x};
    if rest != {} {
      LeastExists(rest, less);
      var m :| m in rest && forall k :: k in rest ==> !less(k, m);
      if !less(x, m) {
        assert forall k :: k in s ==> !less(k, m);
      } else {
        assert forall k :: k in s ==> !less(k, x);
      }
    } else {
      assert s == {x};
    }
  }

  /** `rangeApply(lo, hi, visit)`: the keys of `m` the visitor sees, in the
      order it sees them. */
  method RangeKeys<K(==, !new), V>(m: map<K, V>, less: (K, K) -> bool, lo: K, hi: K)
    returns (ks: seq<K>)
    requires StrictTotalOrder(less)
    ensures Ascending(less, ks)
    ensures forall k :: k in ks <==> k in m && InRange(less, lo, hi, k)
  {
    var todo := set k | k in m.Keys && InRange(less, lo, hi, k);
    ks := [];
    while todo != {}
      invariant forall k :: k in todo ==> k in m && InRange(less, lo, hi, k)
      invariant forall k :: k in ks <==> k in m && InRange(less, lo, hi, k) && k !in todo
      invariant Ascending(less, ks)
      invariant forall i, k :: 0 <= i < |ks| && k in todo ==> less(ks[i], k)
      decreases todo
    {
      LeastExists(todo, less);
      var k :| k in todo && forall k' :: k' in todo ==> !less(k', k);
      ks := ks + [k];
      todo := todo - {k};
    }
  }

  /** The order the primary index keeps its integer ids in. */
  function IntLess(a: int, b: int): bool {
    a < b
  }

  lemma IntLessIsStrictTotalOrder()
    ensures StrictTotalOrder(IntLess)
  {
  }
}
