/** The record store of Engine.h: an append-only heap of soft-deleted records,
    a unique primary index from id to heap position, and a non-unique
    secondary index from the lower-cased last name to the list of heap
    positions filed under it. Both indexes are finite maps here; the ordered
    walk of `rangeApply` is OrderedIndex.RangeKeys. */
module Engine {

  import opened Text
  import opened Buckets
  import OrderedIndex

  /** The fields of a record the store looks at. */
  datatype Record = Record(id: int, last: string, deleted: bool)

  datatype Option<T> = None | Some(value: T)

  /** The key a record is filed under in the last-name index. */
  function NameKey(r: Record): string {
    ToLower(r.last)
  }

  datatype EngineState = EngineState(heap: seq<Record>, idIndex: map<int, int>, lastIndex: map<string, Bucket>)
  {
    /** Heap position `p` holds a record that has not been soft-deleted. */
    predicate Live(p: int) {
      0 <= p < |heap| && !heap[p].deleted
    }

    /** Every primary-index entry points at a live record with that id. */
    ghost predicate IdIndexSound() {
      forall id :: id in idIndex ==> Live(idIndex[id]) && heap[idIndex[id]].id == id
    }

    /** Every live record is reachable through the primary index. */
    ghost predicate IdIndexComplete() {
      forall p :: Live(p) ==> heap[p].id in idIndex && idIndex[heap[p].id] == p
    }

    /** Every live record is filed in the bucket of its own name key. */
    ghost predicate BucketsComplete() {
      forall p :: Live(p) ==> NameKey(heap[p]) in lastIndex && p in lastIndex[NameKey(heap[p])]
    }

    /** Buckets hold only live positions, each under its own name key. */
    ghost predicate BucketsSound() {
      forall k, p :: k in lastIndex && p in lastIndex[k] ==> Live(p) && NameKey(heap[p]) == k
    }

    /** No bucket lists a position twice. */
    ghost predicate BucketsDistinct() {
      forall k :: k in lastIndex ==> NoDup(lastIndex[k])
    }

    ghost predicate Valid() {
      && IdIndexSound()
      && IdIndexComplete()
      && BucketsComplete()
      && BucketsSound()
      && BucketsDistinct()
    }
  }

  /** A freshly constructed engine: empty heap, empty indexes. */
  function Empty(): (s: EngineState)
    ensures s.Valid()
    ensures forall p :: !s.Live(p)
  {
    EngineState([], map[], map[])
  }

  // ---------------------------------------------------------------------
  // Helpers shared by insertRecord and deleteById

  lemma NoDupAppend(b: Bucket, rid: int)
    requires NoDup(b) && rid !in b
    ensures NoDup(b + [rid])
  {
  }

  /** The state after appending `rec` and filing it in both indexes. */
  function Appended(s: EngineState, rec: Record): EngineState {
    EngineState(s.heap + [rec], s.idIndex[rec.id := |s.heap|],
                AppendToBucket(s.lastIndex, NameKey(rec), |s.heap|))
  }

  lemma AppendedLive(s: EngineState, rec: Record)
    requires !rec.deleted
    ensures var t := Appended(s, rec);
            forall p :: t.Live(p) <==> s.Live(p) || p == |s.heap|
    ensures var t := Appended(s, rec);
            forall p :: 0 <= p < |s.heap| ==> t.heap[p] == s.heap[p]
  {
  }

  lemma AppendedIdIndex(s: EngineState, rec: Record)
    requires s.Valid() && !rec.deleted && rec.id !in s.idIndex
    ensures Appended(s, rec).IdIndexSound() && Appended(s, rec).IdIndexComplete()
  {
    AppendedLive(s, rec);
  }

  lemma AppendedBuckets(s: EngineState, rec: Record)
    requires s.Valid() && !rec.deleted && rec.id !in s.idIndex
    ensures Appended(s, rec).BucketsComplete()
    ensures Appended(s, rec).BucketsSound()
    ensures Appended(s, rec).BucketsDistinct()
  {
    var rid := |s.heap|;
    var key := NameKey(rec);
    var t := Appended(s, rec);
    AppendedLive(s, rec);
    forall p | t.Live(p)
      ensures NameKey(t.heap[p]) in t.lastIndex && p in t.lastIndex[NameKey(t.heap[p])]
    {
      if p < rid {
        var k := NameKey(s.heap[p]);
        assert p in s.lastIndex[k];
        if k == key {
          assert t.lastIndex[k] == s.lastIndex[k] + [rid];
        }
      } else {
        assert t.heap[p] == rec;
      }
    }
    forall k, p | k in t.lastIndex && p in t.lastIndex[k]
      ensures t.Live(p) && NameKey(t.heap[p]) == k
    {
      if k == key {
        assert p in BucketOf(s.lastIndex, k) || p == rid;
        if p == rid {
          assert t.heap[rid] == rec;
        } else {
          assert p in s.lastIndex[k];
        }
      } else {
        assert p in s.lastIndex[k];
      }
    }
    forall p | p in BucketOf(s.lastIndex, key)
      ensures p < rid
    {
      assert s.Live(p);
    }
    if key in s.lastIndex {
      NoDupAppend(s.lastIndex[key], rid);
    }
  }

  /** Appending a record whose id is free keeps every invariant. */
  lemma AppendFreshValid(s: EngineState, rec: Record)
    requires s.Valid() && !rec.deleted && rec.id !in s.idIndex
    ensures Appended(s, rec).Valid()
  {
    AppendedIdIndex(s, rec);
    AppendedBuckets(s, rec);
  }

  /** Engine.h:43-62: the append-and-index sequence for a record whose id is
      not yet taken. */
  function AppendFresh(s: EngineState, rec: Record): (r: EngineState)
    requires s.Valid() && !rec.deleted && rec.id !in s.idIndex
    ensures r.Valid()
    ensures r.heap == s.heap + [rec]
    ensures r.idIndex == s.idIndex[rec.id := |s.heap|]
    ensures r.lastIndex == AppendToBucket(s.lastIndex, NameKey(rec), |s.heap|)
  {
    AppendFreshValid(s, rec);
    Appended(s, rec)
  }

  /** Engine.h:122-133: the state `deleteById` leaves behind for a present
      id, step by step in the source's order. The position is read once,
      before the primary-index entry is erased. */
  function SoftDeleted(s: EngineState, id: int): (r: EngineState)
    requires id in s.idIndex && s.Live(s.idIndex[id])
    ensures |r.heap| == |s.heap| && id !in r.idIndex
    ensures forall p :: r.Live(p) <==> s.Live(p) && p != s.idIndex[id]
    ensures forall p :: r.Live(p) ==> r.heap[p] == s.heap[p]
    ensures var key := NameKey(s.heap[s.idIndex[id]]);
            key in r.lastIndex ==> s.idIndex[id] !in r.lastIndex[key]
  {
    var pos := s.idIndex[id];
    var heap1 := s.heap[pos := s.heap[pos].(deleted := true)];
    var idIndex1 := s.idIndex - {id};
    var lastIndex1 := RemoveFromBucket(s.lastIndex, ToLower(heap1[pos].last), pos);
    var key := ToLower(heap1[pos].last);
    assert key in lastIndex1 ==> multiset(lastIndex1[key])[pos] == 0;
    EngineState(heap1, idIndex1, lastIndex1)
  }

  lemma SoftDeletedLive(s: EngineState, id: int)
    requires s.Valid() && id in s.idIndex
    ensures var t := SoftDeleted(s, id);
            forall p :: t.Live(p) <==> s.Live(p) && p != s.idIndex[id]
    ensures var t := SoftDeleted(s, id);
            forall p :: t.Live(p) ==> t.heap[p] == s.heap[p]
  {
  }

  lemma SoftDeletedIdIndex(s: EngineState, id: int)
    requires s.Valid() && id in s.idIndex
    ensures SoftDeleted(s, id).IdIndexSound() && SoftDeleted(s, id).IdIndexComplete()
  {
    var t := SoftDeleted(s, id);
    SoftDeletedLive(s, id);
    forall i | i in t.idIndex
      ensures t.Live(t.idIndex[i]) && t.heap[t.idIndex[i]].id == i
    {
      assert s.heap[s.idIndex[i]].id == i != id;
    }
  }

  lemma SoftDeletedBucketsComplete(s: EngineState, id: int)
    requires s.Valid() && id in s.idIndex
    ensures SoftDeleted(s, id).BucketsComplete()
  {
    var pos := s.idIndex[id];
    var key := NameKey(s.heap[pos]);
    var t := SoftDeleted(s, id);
    SoftDeletedLive(s, id);
    forall p | t.Live(p)
      ensures NameKey(t.heap[p]) in t.lastIndex && p in t.lastIndex[NameKey(t.heap[p])]
    {
      var k := NameKey(s.heap[p]);
      assert p in s.lastIndex[k];
      if k == key {
        assert multiset(t.lastIndex[k])[p] == multiset(s.lastIndex[k])[p];
      }
    }
  }

  lemma SoftDeletedBucketsSound(s: EngineState, id: int)
    requires s.Valid() && id in s.idIndex
    ensures SoftDeleted(s, id).BucketsSound()
  {
    var pos := s.idIndex[id];
    var key := NameKey(s.heap[pos]);
    var t := SoftDeleted(s, id);
    SoftDeletedLive(s, id);
    forall k, p | k in t.lastIndex && p in t.lastIndex[k]
      ensures t.Live(p) && NameKey(t.heap[p]) == k
    {
      if k == key {
        assert multiset(t.lastIndex[k])[p] == multiset(s.lastIndex[k])[pos := 0][p];
      }
      assert p in s.lastIndex[k];
    }
  }

  lemma SoftDeletedBucketsDistinct(s: EngineState, id: int)
    requires s.Valid() && id in s.idIndex
    ensures SoftDeleted(s, id).BucketsDistinct()
  {
    var pos := s.idIndex[id];
    var key := NameKey(s.heap[pos]);
    var t := SoftDeleted(s, id);
    forall k | k in t.lastIndex
      ensures NoDup(t.lastIndex[k])
    {
      if k == key {
        assert t.lastIndex[k] == RemoveAll(s.lastIndex[k], pos);
        RemoveAllKeepsNoDup(s.lastIndex[k], pos);
      }
    }
  }

  /** Soft-deleting the record an id points at keeps every invariant. */
  lemma SoftDeleteValid(s: EngineState, id: int)
    requires s.Valid() && id in s.idIndex
    ensures SoftDeleted(s, id).Valid()
  {
    SoftDeletedIdIndex(s, id);
    SoftDeletedBucketsComplete(s, id);
    SoftDeletedBucketsSound(s, id);
    SoftDeletedBucketsDistinct(s, id);
  }

  // ---------------------------------------------------------------------
  // The public operations of Engine

  /** Engine.h:113-136 `deleteById`. */
  function DeleteById(s: EngineState, id: int): (r: (EngineState, bool))
    requires s.Valid()
    ensures r.0.Valid()
    ensures r.1 <==> id in s.idIndex
    ensures !r.1 ==> r.0 == s
    ensures r.1 ==>
      var pos := s.idIndex[id];
      && r.0.heap == s.heap[pos := s.heap[pos].(deleted := true)]
      && r.0.idIndex == s.idIndex - {id}
      && r.0.lastIndex == RemoveFromBucket(s.lastIndex, NameKey(s.heap[pos]), pos)
    ensures forall p :: r.0.Live(p) ==> r.0.heap[p].id != id
    ensures r.1 ==> forall k :: k in r.0.lastIndex ==> s.idIndex[id] !in r.0.lastIndex[k]
  {
    if id !in s.idIndex then (s, false)
    else
      SoftDeleteValid(s, id);
      (SoftDeleted(s, id), true)
  }

  /** Engine.h:70-105: the update path of `insertRecord`, step by step in
      the source's order. */
  function Update(s: EngineState, rec: Record): (r: EngineState)
    requires s.Valid() && rec.id in s.idIndex
    ensures |r.heap| == |s.heap| + 1 && r.heap[|s.heap|] == rec
    ensures rec.id in r.idIndex && r.idIndex[rec.id] == |s.heap|
    ensures r.heap[s.idIndex[rec.id]].deleted
    ensures forall p :: 0 <= p < |s.heap| && p != s.idIndex[rec.id] ==> r.heap[p] == s.heap[p]
  {
    var oldIndex := s.idIndex[rec.id];
    var heap1 := s.heap[oldIndex := s.heap[oldIndex].(deleted := true)];
    var lastIndex1 := RemoveFromBucket(s.lastIndex, ToLower(heap1[oldIndex].last), oldIndex);
    var heap2 := heap1 + [rec];
    var newRid := |heap2| - 1;
    var idIndex2 := (s.idIndex - {rec.id})[rec.id := newRid];
    var lastIndex2 := AppendToBucket(lastIndex1, ToLower(rec.last), newRid);
    EngineState(heap2, idIndex2, lastIndex2)
  }

  /** The update path ends where deleting the id and then appending afresh
      ends; in particular its `newRid` is the old heap size. */
  lemma UpdateIsDeleteThenAppend(s: EngineState, rec: Record)
    requires s.Valid() && !rec.deleted && rec.id in s.idIndex
    ensures Update(s, rec) == AppendFresh(DeleteById(s, rec.id).0, rec)
  {
  }

  /** What the update path leaves behind, field by field. */
  lemma UpdateResult(s: EngineState, rec: Record)
    requires s.Valid() && !rec.deleted && rec.id in s.idIndex
    ensures var t := Update(s, rec);
            var prev := s.idIndex[rec.id];
            && t.Valid()
            && t.heap == s.heap[prev := s.heap[prev].(deleted := true)] + [rec]
            && t.idIndex == s.idIndex[rec.id := |s.heap|]
            && t.lastIndex == AppendToBucket(RemoveFromBucket(s.lastIndex, NameKey(s.heap[prev]), prev), NameKey(rec), |s.heap|)
  {
    UpdateIsDeleteThenAppend(s, rec);
  }

  /** Engine.h:34-109 `insertRecord`. A taken id turns the insert into an
      update: the previous holder is soft-deleted and unfiled first. Either
      way the result is `heap.size()` read before the append, which is the
      new record's position. */
  function InsertRecord(s: EngineState, rec: Record): (r: (EngineState, int))
    requires s.Valid()
    requires !rec.deleted
    ensures r.0.Valid()
    ensures r.1 == |s.heap| && |r.0.heap| == |s.heap| + 1 && r.0.heap[r.1] == rec
    ensures r.0.idIndex == s.idIndex[rec.id := r.1]
    ensures forall p :: 0 <= p < |s.heap| ==>
      && r.0.heap[p].id == s.heap[p].id
      && r.0.heap[p].last == s.heap[p].last
      && (r.0.heap[p].deleted <==> s.heap[p].deleted || (rec.id in s.idIndex && p == s.idIndex[rec.id]))
    ensures rec.id !in s.idIndex ==>
      r.0.lastIndex == AppendToBucket(s.lastIndex, NameKey(rec), r.1)
    ensures rec.id in s.idIndex ==>
      var prev := s.idIndex[rec.id];
      r.0.lastIndex == AppendToBucket(RemoveFromBucket(s.lastIndex, NameKey(s.heap[prev]), prev), NameKey(rec), r.1)
  {
    var rid := |s.heap|;
    if rec.id !in s.idIndex then
      (AppendFresh(s, rec), rid)
    else
      UpdateResult(s, rec);
      (Update(s, rec), rid)
  }

  /** Engine.h:141-154 `findById`. */
  function FindById(s: EngineState, id: int): (r: Option<Record>)
    requires s.Valid()
    ensures r.Some? <==> exists p :: s.Live(p) && s.heap[p].id == id
    ensures r.Some? ==> r.value in s.heap && !r.value.deleted && r.value.id == id
  {
    if id in s.idIndex then Some(s.heap[s.idIndex[id]]) else None
  }

  /** A live record in the heap is the one the primary index finds for its id. */
  lemma LiveRecordIndexed(s: EngineState, r: Record)
    requires s.Valid()
    requires r in s.heap && !r.deleted
    ensures r.id in s.idIndex && s.heap[s.idIndex[r.id]] == r
  {
    var p :| 0 <= p < |s.heap| && s.heap[p] == r;
    assert s.Live(p);
  }

  /** What the primary index tells about one of its keys. */
  lemma IdLookup(s: EngineState, k: int)
    requires s.Valid() && k in s.idIndex
    ensures s.Live(s.idIndex[k]) && s.heap[s.idIndex[k]].id == k
    ensures forall r :: r in s.heap && !r.deleted && r.id == k ==> r == s.heap[s.idIndex[k]]
  {
    forall r | r in s.heap && !r.deleted && r.id == k
      ensures r == s.heap[s.idIndex[k]]
    {
      LiveRecordIndexed(s, r);
    }
  }

  /** The callback of `rangeById` (Engine.h:164-171) applied to the ids the
      walk visits, in order. Every visited id leads to a live record, so the
      deleted-record filter keeps them all. */
  method CollectById(s: EngineState, ids: seq<int>) returns (rs: seq<Record>)
    requires forall m :: 0 <= m < |ids| ==> ids[m] in s.idIndex && s.Live(s.idIndex[ids[m]])
    ensures |rs| == |ids|
    ensures forall m :: 0 <= m < |ids| ==> s.Live(s.idIndex[ids[m]]) && rs[m] == s.heap[s.idIndex[ids[m]]] && !rs[m].deleted
  {
    rs := [];
    var n := 0;
    while n < |ids|
      invariant 0 <= n <= |ids| && |rs| == n
      invariant forall m :: 0 <= m < n ==> rs[m] == s.heap[s.idIndex[ids[m]]]
    {
      var rid := s.idIndex[ids[n]];
      if !s.heap[rid].deleted {
        rs := rs + [s.heap[rid]];
      }
      n := n + 1;
    }
  }

  /** Engine.h:158-178 `rangeById`: the live records with ids in [lo, hi],
      in ascending id order. */
  method RangeById(s: EngineState, lo: int, hi: int) returns (rs: seq<Record>)
    requires s.Valid()
    ensures forall r :: r in rs <==> r in s.heap && !r.deleted && lo <= r.id <= hi
    ensures forall i, j :: 0 <= i < j < |rs| ==> rs[i].id < rs[j].id
  {
    OrderedIndex.IntLessIsStrictTotalOrder();
    var ids := OrderedIndex.RangeKeys(s.idIndex, OrderedIndex.IntLess, lo, hi);
    forall m | 0 <= m < |ids|
      ensures ids[m] in s.idIndex && s.Live(s.idIndex[ids[m]]) && s.heap[s.idIndex[ids[m]]].id == ids[m]
    {
      assert ids[m] in ids;
      IdLookup(s, ids[m]);
    }
    rs := CollectById(s, ids);
    forall r | r in rs
      ensures r in s.heap && !r.deleted && lo <= r.id <= hi
    {
      var m :| 0 <= m < |rs| && rs[m] == r;
      assert ids[m] in ids;
    }
    forall r | r in s.heap && !r.deleted && lo <= r.id <= hi
      ensures r in rs
    {
      LiveRecordIndexed(s, r);
      var m :| 0 <= m < |ids| && ids[m] == r.id;
      assert rs[m] == r;
    }
  }

  /** No record appears twice. */
  predicate Distinct(rs: seq<Record>) {
    forall i, j :: 0 <= i < j < |rs| ==> rs[i] != rs[j]
  }

  /** The inner loop of the `prefixByLast` callback (Engine.h:198-204) over
      a bucket `b` of live positions: the deleted-record filter keeps every
      one of them, in bucket order. */
  method CollectBucketEntries(s: EngineState, b: Bucket) returns (out: seq<Record>)
    requires forall m :: 0 <= m < |b| ==> s.Live(b[m])
    ensures |out| == |b|
    ensures forall m :: 0 <= m < |b| ==> s.Live(b[m]) && out[m] == s.heap[b[m]] && !out[m].deleted
  {
    out := [];
    var j := 0;
    while j < |b|
      invariant 0 <= j <= |b| && |out| == j
      invariant forall m :: 0 <= m < j ==> out[m] == s.heap[b[m]]
    {
      var rid := b[j];
      if !s.heap[rid].deleted {
        out := out + [s.heap[rid]];
      }
      j := j + 1;
    }
  }

  /** The live records filed under `k`, each once. */
  method CollectBucket(s: EngineState, k: string) returns (out: seq<Record>)
    requires s.Valid() && k in s.lastIndex
    ensures forall i :: 0 <= i < |out| ==> out[i] in s.heap && !out[i].deleted && NameKey(out[i]) == k
    ensures forall r :: r in s.heap && !r.deleted && NameKey(r) == k ==> r in out
    ensures Distinct(out)
  {
    var b := s.lastIndex[k];
    forall m | 0 <= m < |b|
      ensures s.Live(b[m]) && NameKey(s.heap[b[m]]) == k
    {
      assert b[m] in b;
    }
    out := CollectBucketEntries(s, b);
    forall i, j | 0 <= i < j < |out|
      ensures out[i] != out[j]
    {
      assert b[i] != b[j];
      assert b[i] in b && b[j] in b;
    }
    forall r | r in s.heap && !r.deleted && NameKey(r) == k
      ensures r in out
    {
      LiveRecordIndexed(s, r);
      var p := s.idIndex[r.id];
      assert p in b;
      var m :| 0 <= m < |b| && b[m] == p;
      assert out[m] == r;
    }
  }

  /** Records grouped by ascending name key. */
  predicate KeyOrdered(rs: seq<Record>) {
    forall i, j :: 0 <= i < j < |rs| ==> LexLe(NameKey(rs[i]), NameKey(rs[j]))
  }

  /** One step of the walk over the name keys: the bucket of `keys[n]` goes
      after everything collected from the earlier keys. */
  lemma CollectStep(rs: seq<Record>, out: seq<Record>, keys: seq<string>, n: nat)
    requires n < |keys| && OrderedIndex.Ascending(LexLess, keys)
    requires OrderedIndex.StrictTotalOrder(LexLess)
    requires forall i :: 0 <= i < |rs| ==> NameKey(rs[i]) in keys[..n]
    requires forall i :: 0 <= i < |rs| ==> LexLess(NameKey(rs[i]), keys[n])
    requires forall i :: 0 <= i < |out| ==> NameKey(out[i]) == keys[n]
    requires Distinct(rs) && Distinct(out) && KeyOrdered(rs)
    ensures Distinct(rs + out) && KeyOrdered(rs + out)
    ensures forall i :: 0 <= i < |rs + out| ==> NameKey((rs + out)[i]) in keys[..n + 1]
    ensures n + 1 < |keys| ==>
      forall i :: 0 <= i < |rs + out| ==> LexLess(NameKey((rs + out)[i]), keys[n + 1])
  {
    var t := rs + out;
    assert keys[..n + 1] == keys[..n] + [keys[n]];
    forall i, j | 0 <= i < j < |t|
      ensures t[i] != t[j] && LexLe(NameKey(t[i]), NameKey(t[j]))
    {
      if j >= |rs| && i < |rs| {
        assert LexLess(NameKey(t[i]), keys[n]);
      }
    }
    if n + 1 < |keys| {
      forall i | 0 <= i < |t|
        ensures LexLess(NameKey(t[i]), keys[n + 1])
      {
        assert LexLess(keys[n], keys[n + 1]);
      }
    }
  }

  /** The same step, seen from the heap: what was found so far plus the live
      records under `keys[n]` are the live records under `keys[..n + 1]`. */
  lemma CollectStepFound(heap: seq<Record>, rs: seq<Record>, out: seq<Record>, keys: seq<string>, n: nat)
    requires n < |keys|
    requires forall i :: 0 <= i < |rs| ==> rs[i] in heap && !rs[i].deleted
    requires forall i :: 0 <= i < |out| ==> out[i] in heap && !out[i].deleted
    requires forall r :: r in heap && !r.deleted && NameKey(r) in keys[..n] ==> r in rs
    requires forall r :: r in heap && !r.deleted && NameKey(r) == keys[n] ==> r in out
    ensures forall i :: 0 <= i < |rs + out| ==> (rs + out)[i] in heap && !(rs + out)[i].deleted
    ensures forall r :: r in heap && !r.deleted && NameKey(r) in keys[..n + 1] ==> r in rs + out
  {
    assert keys[..n + 1] == keys[..n] + [keys[n]];
  }

  /** The `prefixByLast` callback (Engine.h:196-205) applied to the name keys
      the walk visits, in order. */
  method CollectByName(s: EngineState, keys: seq<string>) returns (rs: seq<Record>)
    requires s.Valid()
    requires forall m :: 0 <= m < |keys| ==> keys[m] in s.lastIndex
    requires OrderedIndex.Ascending(LexLess, keys)
    ensures forall i :: 0 <= i < |rs| ==> rs[i] in s.heap && !rs[i].deleted && NameKey(rs[i]) in keys
    ensures forall r :: r in s.heap && !r.deleted && NameKey(r) in keys ==> r in rs
    ensures Distinct(rs) && KeyOrdered(rs)
  {
    LexLessIsStrictTotalOrder();
    rs := [];
    var n := 0;
    while n < |keys|
      invariant 0 <= n <= |keys|
      invariant forall i :: 0 <= i < |rs| ==> rs[i] in s.heap && !rs[i].deleted
      invariant forall i :: 0 <= i < |rs| ==> NameKey(rs[i]) in keys[..n]
      invariant forall r :: r in s.heap && !r.deleted && NameKey(r) in keys[..n] ==> r in rs
      invariant Distinct(rs) && KeyOrdered(rs)
      invariant n < |keys| ==> forall i :: 0 <= i < |rs| ==> LexLess(NameKey(rs[i]), keys[n])
    {
      var out := CollectBucket(s, keys[n]);
      CollectStep(rs, out, keys, n);
      CollectStepFound(s.heap, rs, out, keys, n);
      rs := rs + out;
      n := n + 1;
    }
    assert keys[..n] == keys;
  }

  /** Engine.h:182-211 `prefixByLast`: the live records whose name key lies
      in the window [toLower(prefix), toLower(prefix) + "{"], grouped by
      ascending name key, each once. */
  method PrefixByLast(s: EngineState, prefix: string) returns (rs: seq<Record>)
    requires s.Valid()
    ensures forall r :: r in rs <==> r in s.heap && !r.deleted && InPrefixRange(ToLower(prefix), NameKey(r))
    ensures Distinct(rs) && KeyOrdered(rs)
  {
    var lowerBound := ToLower(prefix);
    var higherBound := lowerBound + [Brace];
    LexLessIsStrictTotalOrder();
    var keys := OrderedIndex.RangeKeys(s.lastIndex, LexLess, lowerBound, higherBound);
    assert forall m :: 0 <= m < |keys| ==> keys[m] in s.lastIndex;
    rs := CollectByName(s, keys);
    forall r | r in s.heap && !r.deleted && InPrefixRange(lowerBound, NameKey(r))
      ensures r in rs
    {
      LiveRecordIndexed(s, r);
      assert NameKey(r) in keys;
    }
  }

  // ---------------------------------------------------------------------
  // Properties relating several operations

  /** Insert-then-find: the record just inserted is what its id finds. */
  lemma InsertThenFind(s: EngineState, rec: Record)
    requires s.Valid() && !rec.deleted
    ensures FindById(InsertRecord(s, rec).0, rec.id) == Some(rec)
  {
  }

  /** Inserting touches no other id's lookup. */
  lemma InsertKeepsOtherIds(s: EngineState, rec: Record, id: int)
    requires s.Valid() && !rec.deleted && id != rec.id
    ensures FindById(InsertRecord(s, rec).0, id) == FindById(s, id)
  {
  }

  /** After a delete the id finds nothing, and a second delete of it fails. */
  lemma DeleteThenFindFails(s: EngineState, id: int)
    requires s.Valid()
    ensures FindById(DeleteById(s, id).0, id) == None
    ensures !DeleteById(DeleteById(s, id).0, id).1
  {
  }

  /** Deleting touches no other id's lookup. */
  lemma DeleteKeepsOtherIds(s: EngineState, id: int, other: int)
    requires s.Valid() && other != id
    ensures FindById(DeleteById(s, id).0, other) == FindById(s, other)
  {
  }

  /** The update path of insertRecord ends in the same state, with the same
      result, as deleting the id first and then inserting afresh. */
  lemma UpdateIsDeleteThenInsert(s: EngineState, rec: Record)
    requires s.Valid() && !rec.deleted && rec.id in s.idIndex
    ensures InsertRecord(s, rec) == InsertRecord(DeleteById(s, rec.id).0, rec)
  {
  }

  /** On the update path the previous holder of the id is soft-deleted and
      listed in no bucket any more. */
  lemma UpdateUnfilesPrevious(s: EngineState, rec: Record)
    requires s.Valid() && !rec.deleted && rec.id in s.idIndex
    ensures var t := InsertRecord(s, rec).0;
            && t.heap[s.idIndex[rec.id]].deleted
            && forall k :: k in t.lastIndex ==> s.idIndex[rec.id] !in t.lastIndex[k]
  {
  }

  lemma {:induction false} NoDupOccursOnce(b: Bucket, x: int)
    requires NoDup(b) && x in b
    ensures multiset(b)[x] == 1
  {
    assert b == [b[0]] + b[1..];
    if b[0] == x {
      assert x !in b[1..];
    } else {
      NoDupOccursOnce(b[1..], x);
    }
  }

  /** A live record's position is listed exactly once in the bucket of its
      own name key and in no other bucket. */
  lemma LiveFiledOnce(s: EngineState, p: int)
    requires s.Valid() && s.Live(p)
    ensures NameKey(s.heap[p]) in s.lastIndex
    ensures multiset(s.lastIndex[NameKey(s.heap[p])])[p] == 1
    ensures forall k :: k in s.lastIndex && k != NameKey(s.heap[p]) ==> p !in s.lastIndex[k]
  {
    NoDupOccursOnce(s.lastIndex[NameKey(s.heap[p])], p);
  }
}
