/** The `Engine` struct of Engine.h as a mutable object: three fields guarded
    by `Valid()`, each public operation delegating to the value-level model
    in module Engine. */
module EngineObject {

  import E = Engine
  import opened Text

  class Engine {
    var heap: seq<E.Record>
    var idIndex: map<int, int>
    var lastIndex: map<string, seq<int>>

    function State(): E.EngineState
      reads this
    {
      E.EngineState(heap, idIndex, lastIndex)
    }

    ghost predicate Valid()
      reads this
    {
      State().Valid()
    }

    constructor ()
      ensures Valid()
      ensures heap == [] && idIndex == map[] && lastIndex == map[]
    {
      heap, idIndex, lastIndex := [], map[], map[];
    }

    method InsertRecord(rec: E.Record) returns (rid: int)
      requires Valid() && !rec.deleted
      modifies this
      ensures Valid()
      ensures rec.id !in old(idIndex) ==> heap == old(heap) + [rec]
      ensures rid == old(|heap|) && rid == |heap| - 1 && heap[rid] == rec
      ensures idIndex == old(idIndex)[rec.id := rid]
      ensures (State(), rid) == E.InsertRecord(old(State()), rec)
    {
      var r := E.InsertRecord(State(), rec);
      heap, idIndex, lastIndex := r.0.heap, r.0.idIndex, r.0.lastIndex;
      rid := r.1;
    }

    method DeleteById(id: int) returns (ok: bool)
      requires Valid()
      modifies this
      ensures Valid()
      ensures ok <==> id in old(idIndex)
      ensures !ok ==> heap == old(heap) && idIndex == old(idIndex) && lastIndex == old(lastIndex)
      ensures id !in idIndex && |heap| == old(|heap|)
      ensures (State(), ok) == E.DeleteById(old(State()), id)
    {
      var r := E.DeleteById(State(), id);
      heap, idIndex, lastIndex := r.0.heap, r.0.idIndex, r.0.lastIndex;
      ok := r.1;
    }

    method FindById(id: int) returns (r: E.Option<E.Record>)
      requires Valid()
      ensures r.Some? ==> r.value in heap && !r.value.deleted && r.value.id == id
      ensures r.None? ==> forall p :: 0 <= p < |heap| && heap[p].id == id ==> heap[p].deleted
    {
      r := E.FindById(State(), id);
    }

    method RangeById(lo: int, hi: int) returns (rs: seq<E.Record>)
      requires Valid()
      ensures forall r :: r in rs <==> r in heap && !r.deleted && lo <= r.id <= hi
      ensures forall i, j :: 0 <= i < j < |rs| ==> rs[i].id < rs[j].id
    {
      rs := E.RangeById(State(), lo, hi);
    }

    method PrefixByLast(prefix: string) returns (rs: seq<E.Record>)
      requires Valid()
      ensures forall r :: r in rs <==> r in heap && !r.deleted && InPrefixRange(ToLower(prefix), ToLower(r.last))
      ensures E.Distinct(rs) && E.KeyOrdered(rs)
    {
      rs := E.PrefixByLast(State(), prefix);
    }
  }
}
