/** The value side of the last-name index: each key maps to a bucket, the list
    of heap positions (RIDs) of the records filed under that name. */
module Buckets {

  type Bucket = seq<int>

  predicate NoDup(b: Bucket) {
    forall i, j :: 0 <= i < j < |b| ==> b[i] != b[j]
  }

  /** Putting a new position in front of a duplicate-free list. */
  lemma NoDupCons(h: int, t: Bucket)
    requires NoDup(t) && h !in t
    ensures NoDup([h] + t)
  {
  }

  /** `b.erase(remove(b.begin(), b.end(), x), b.end())`: drop every copy of `x`. */
  function RemoveAll(b: Bucket, x: int): (r: Bucket)
    ensures multiset(r) == multiset(b)[x := 0]
    ensures x !in b ==> r == b
  {
    if |b| == 0 then []
    else
      var rest := RemoveAll(b[1..], x);
      assert b == [b[0]] + b[1..];
      assert multiset(b) == multiset{b[0]} + multiset(b[1..]);
      if b[0] == x then rest
      else
        assert multiset([b[0]] + rest) == multiset{b[0]} + multiset(rest);
        [b[0]] + rest
  }

  /** Dropping a position keeps a duplicate-free bucket duplicate-free. */
  lemma {:induction false} RemoveAllKeepsNoDup(b: Bucket, x: int)
    requires NoDup(b)
    ensures NoDup(RemoveAll(b, x))
  {
    if |b| > 0 {
      assert b == [b[0]] + b[1..];
      RemoveAllKeepsNoDup(b[1..], x);
      if b[0] != x {
        var rest := RemoveAll(b[1..], x);
        assert b[0] !in b[1..];
        assert multiset(rest)[b[0]] == multiset(b[1..])[b[0]];
        NoDupCons(b[0], rest);
      }
    }
  }

  /** The bucket filed under `key`, empty when the key is absent. */
  function BucketOf(idx: map<string, Bucket>, key: string): Bucket {
    if key in idx then idx[key] else []
  }

  /** Appending `rid` to the bucket for `key`, creating `[rid]` if there is none. */
  function AppendToBucket(idx: map<string, Bucket>, key: string, rid: int): (r: map<string, Bucket>)
    ensures r.Keys == idx.Keys + {key}
    ensures r[key] == BucketOf(idx, key) + [rid]
    ensures forall k :: k in idx && k != key ==> r[k] == idx[k]
  {
    if key in idx then idx[key := idx[key] + [rid]] else idx[key := [rid]]
  }

  /** Dropping `rid` from the bucket for `key` if that bucket exists; the key
      itself stays, possibly with an empty bucket. */
  function RemoveFromBucket(idx: map<string, Bucket>, key: string, rid: int): (r: map<string, Bucket>)
    ensures r.Keys == idx.Keys
    ensures key in idx ==> multiset(r[key]) == multiset(idx[key])[rid := 0]
    ensures forall k :: k in idx && k != key ==> r[k] == idx[k]
  {
    if key in idx then idx[key := RemoveAll(idx[key], rid)] else idx
  }
}
