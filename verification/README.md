# Record store engine: a Dafny model of `Engine.h`

`Engine.h` is a tiny in-memory "database engine". It keeps student records in an
append-only heap (a `vector<Record>`) and soft-deletes them by setting a
`deleted` flag. Two binary-search-tree indexes sit over the heap:

- `idIndex` maps a student id to the heap position (RID) of the record holding it. It is a unique index.
- `lastIndex` maps a lower-cased last name to the list of RIDs filed under it. It is non-unique.

Its operations are:

- `insertRecord`: a duplicate id turns the insert into an update.
- `deleteById`
- `findById`
- `rangeById`: ids in `[lo, hi]`, ascending.
- `prefixByLast`: a case-insensitive last-name prefix search over the window `[toLower(p), toLower(p) + "{"]`.

The project models this as follows:

- `text.dfy` (module `Text`): `toLower` folds ASCII `A`..`Z` only, as in the "C" locale. The file also defines `std::string`'s lexicographic `<` as `LexLess`; Dafny's `<` on sequences is the proper-prefix relation. It proves `LexLess` is a strict total order and gives an exact description of the prefix window.
- `ordered_index.dfy` (module `OrderedIndex`): an index is a finite map. `rangeApply` is `RangeKeys`, which yields the keys in the inclusive window in ascending order under any strict total order.
- `buckets.dfy` (module `Buckets`): the RID lists of the last-name index. `RemoveAll` models the erase-remove idiom. The module also has append-or-create and remove-from-bucket on the map.
- `engine.dfy` (module `Engine`): the engine state `EngineState(heap, idIndex, lastIndex)`, its invariant `Valid()`, and the five operations as pure functions and methods.
- `engine_object.dfy` (module `EngineObject`): the `Engine` struct as a class with the three fields and `Valid()`. Every public method requires `Valid()`, and every mutator also ensures it. Each method delegates to module `Engine`.

`Valid()` has five conjuncts:

1. Every `idIndex` entry points at a live (not deleted) heap record with that id.
2. Every live record is reachable from `idIndex` through its own id.
3. Every live record's position is in the bucket of `toLower(last)`.
4. Buckets hold only live positions, each under its own name key. So a deleted position is in no bucket.
5. No bucket lists a position twice.

Together, conjuncts 3-5 give `LiveFiledOnce`: a live position appears exactly once in its own bucket and in no other bucket.

The result of `insertRecord` is `heap.size()` read before any append (Engine.h:38). On the update path the code appends exactly once and sets `newRid = heap.size() - 1`, so that result equals the new record's position. `InsertRecord`'s contract proves this on both paths. It is not the position of the record that was replaced.

## Model

| member | source | states |
|---|---|---|
| Text.ToLower | Engine.h:15-20 | the key has the input's length, contains no upper-case ASCII letter, and agrees with the input up to case |
| Text.ToLowerIdempotent | Engine.h:15-20 | folding a folded key changes nothing |
| Text.LowerCasedIsFixed | Engine.h:15-20 | a string is left unchanged by `toLower` exactly when it has no upper-case ASCII letter |
| Text.SameKeyIffSameIgnoringCase | Engine.h:45 | two last names share an index key exactly when they agree up to ASCII case |
| Text.LexLessIsStrictTotalOrder | Engine.h:30 | the string order the last-name tree is keyed by is irreflexive, transitive and total |
| Text.PrefixRangeExactly | Engine.h:189-191 | a key is in `[lo, lo + "{"]` exactly when it starts with `lo` and then ends, or continues with a byte below `{`, or continues with exactly `{` |
| Text.PrefixMatchFound | Engine.h:189-191 | a key that starts with `lo`, and whose next byte (if any) sorts below `{`, is in the window |
| Text.PrefixWindowMissesHighBytes | Engine.h:189-191 | a key that starts with `lo` and continues with a byte above `{` is outside the window and is not found |
| Text.CaseInsensitivePrefixFound | Engine.h:186-191 | a name that begins with the prefix up to ASCII case, and then ends or goes on with a byte whose folding sorts below `{`, lies in the searched window |
| Text.PrefixSearchFinds | Engine.h:189-191 | the mixed-case prefix "Smi" finds the upper-case name "SMITHSON" |
| Text.PrefixSearchMisses | Engine.h:189-191 | the prefix "smithz" does not find "Smith", which is shorter than the prefix |
| OrderedIndex.LeastExists | Engine.h:174 | every finite non-empty key set has a least key, which is the next key an ascending walk visits |
| OrderedIndex.RangeKeys | Engine.h:174 | the keys `rangeApply` visits are exactly the index keys in `[lo, hi]`, each once, strictly ascending |
| Buckets.RemoveAll | Engine.h:79-83 | erase-remove drops every copy of the RID, keeps the count of every other RID, and changes nothing when the RID is absent |
| Buckets.RemoveAllKeepsNoDup | Engine.h:130-132 | removing a position from a duplicate-free bucket leaves it duplicate-free |
| Buckets.AppendToBucket | Engine.h:49-62 | the bucket for the key becomes the old bucket (or none) followed by the RID, and every other bucket is unchanged |
| Buckets.RemoveFromBucket | Engine.h:74-84 | the bucket for the key loses every copy of the RID, an absent key stays absent, and other buckets are unchanged |
| Engine.Empty | Engine.h:26-30 | a new engine with empty heap and indexes satisfies the invariant and holds no live record |
| Engine.AppendFresh | Engine.h:43-62 | appending a record whose id is free keeps the invariant, maps the id to the old heap size and files that position under the record's name key |
| Engine.Update | Engine.h:70-105 | the update path, in the source's step order, appends the record at the old heap size, points the id at that position, flags the previous holder and leaves every other heap slot alone |
| Engine.UpdateIsDeleteThenAppend | Engine.h:70-105 | the step-by-step update path ends in the same state as deleting the id and then appending afresh |
| Engine.UpdateResult | Engine.h:70-105 | the update path keeps the invariant, flags the previous holder, points the id at the old heap size, unfiles the previous position and files the new one |
| Engine.InsertRecord | Engine.h:34-109 | keeps the invariant; the heap grows by exactly the record; the result is the old heap size, which is the new record's position; `idIndex[id]` is that position; only the previous holder's `deleted` flag changes; the buckets change only as stated |
| Engine.SoftDeleted | Engine.h:122-133 | the soft-delete step keeps the heap size, unindexes the id, makes exactly the id's record non-live while every other live record stays as it was, and unfiles its position from its name bucket |
| Engine.DeleteById | Engine.h:113-136 | keeps the invariant; returns true exactly when the id was indexed; an absent id changes nothing; a present id's record is flagged, its id unindexed and its position unfiled; afterwards no live record has the id |
| Engine.FindById | Engine.h:141-154 | finds something exactly when a live record with the id exists; what it finds is a live heap record with that id |
| Engine.LiveRecordIndexed | Engine.h:37 | every live heap record is the one the primary index yields for its id |
| Engine.CollectById | Engine.h:164-171 | when every visited id leads to a live record, the deleted-record filter keeps each of them, in visiting order |
| Engine.RangeById | Engine.h:158-178 | returns exactly the live records whose id is in `[lo, hi]`, strictly ascending by id, so each appears once |
| Engine.CollectBucketEntries | Engine.h:198-204 | over a bucket of live positions, the filter keeps the record at every position, in bucket order |
| Engine.CollectBucket | Engine.h:198-204 | returns exactly the live records filed under the key, each once |
| Engine.CollectStep | Engine.h:207 | the bucket for the next, larger key is placed after the results so far; the results stay duplicate-free and grouped by ascending key |
| Engine.CollectByName | Engine.h:196-207 | over ascending name keys, returns exactly the live records filed under those keys, each once, grouped by ascending key |
| Engine.PrefixByLast | Engine.h:182-211 | returns exactly the live records whose lower-cased last name lies in `[toLower(prefix), toLower(prefix) + "{"]`, each once, grouped by ascending key |
| Engine.InsertThenFind | Engine.h:37-44 | after inserting a record, finding its id yields that record, on both the fresh and the update path |
| Engine.InsertKeepsOtherIds | Engine.h:86-93 | inserting does not change what any other id finds |
| Engine.DeleteThenFindFails | Engine.h:116-123 | after deleting an id, it finds nothing and a second delete returns false |
| Engine.DeleteKeepsOtherIds | Engine.h:122-123 | deleting does not change what any other id finds |
| Engine.UpdateIsDeleteThenInsert | Engine.h:66-108 | inserting over a taken id gives the same state and result as deleting the id and then inserting |
| Engine.UpdateUnfilesPrevious | Engine.h:70-84 | on the update path the previous holder is flagged deleted and its position is in no bucket |
| Engine.NoDupOccursOnce | Engine.h:61 | in a duplicate-free bucket, a listed RID occurs exactly once |
| Engine.LiveFiledOnce | Engine.h:45-62 | a live record's position is listed exactly once in its own name bucket and in no other bucket |
| EngineObject.Engine.constructor | Engine.h:26-30 | a new engine has an empty heap and empty indexes and satisfies `Valid()` |
| EngineObject.Engine.InsertRecord | Engine.h:34-109 | the mutable engine keeps `Valid()`, returns the old heap size as the new record's position, points the id at it, and ends in exactly the state (heap, both indexes) that `Engine.InsertRecord` describes on both paths |
| EngineObject.Engine.DeleteById | Engine.h:113-136 | the mutable engine keeps `Valid()`, reports whether the id was indexed, changes nothing when it was not, and otherwise ends in exactly the state `Engine.DeleteById` describes: the id's record flagged, the id unindexed, its position unfiled |
| EngineObject.Engine.FindById | Engine.h:141-154 | a found record is a live heap record with the id; finding nothing means every heap record with the id is deleted |
| EngineObject.Engine.RangeById | Engine.h:158-178 | returns exactly the live heap records with id in `[lo, hi]`, strictly ascending by id |
| EngineObject.Engine.PrefixByLast | Engine.h:182-211 | returns exactly the live heap records whose lower-cased last name lies in the prefix window, each once, grouped by ascending key |

## Left out

- Comparison counters (`resetMetrics`, `comparisons`, `cmpOut`) are not modelled, because their values depend on the tree code in `BST.h`.
- `BST.h` is not part of this model. Node layout, insertion order, the erase strategy and the worst-case linear depth are not modelled. Each index is a finite map, and `rangeApply` is an ascending walk over the keys in the window.
- Results are record values or heap positions, not `const Record*` pointers. Pointer invalidation by `vector::push_back` is not modelled.
- DeleteById: reads the heap position before the primary-index entry is erased. The source reads `*heapIndex` after `idIndex.erase(id)` (Engine.h:123-131). That read is the same value only if the tree's erase leaves that node's storage intact, which `BST.h` would decide.
- InsertRecord: requires the incoming record's `deleted` flag to be false. `Record.h` is not part of this model, and the invariant relies on new records arriving live.
- ToLower: only ASCII `A`..`Z` is folded. Locale-dependent `tolower` behaviour is not modelled.
- Bytes are Dafny `char`s, compared by code. This matches `std::string`'s unsigned byte comparison for values 0..255.
- Integer widths are not modelled. Ids are unbounded `int`s, and `heap.size()` is not truncated to a 32-bit `int`.
- Buckets.RemoveAll: states the surviving contents and their counts, but not that the survivors keep their relative order, which `std::remove` does.
- Record fields other than `id`, `last` and `deleted` are not modelled.
