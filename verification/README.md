# EC entity-component manager, modelled in Dafny

This project models the core of the header-only C++ library `EC`.

- `EC::Manager<ComponentsList, TagsList>` keeps a table of entities. Each row holds an alive flag and a bitset with one bit per component, one per tag, and one extra bit that is never set.
- The manager hands out and recycles entity ids, and adds and removes components and tags.
- It calls user functions on every alive entity whose bits cover a signature.
- It keeps a store of such functions under integer keys, to call later.
- The compile-time type lists (`EC::Meta`) are modelled as ordinary lists of type names.

Every operation is a pure function or a method on an immutable `Manager` value.

- `EntityManager.Valid` is the invariant that a new manager establishes and that every operation keeps.
- The matching loops return the ids they would call back, in call order. Each loop is proved equal to a recursive reference definition, `Queries.MatchingBelow`.
- A stored function's call is an `Invocation`: its key, callback identity, context and id list.
- The parallel branches are modelled by their split of `[0, n)` into per-thread ranges (`ThreadSplit`). `ChunkedVisits` proves that the queued tasks, run one after the other in queue order, together visit exactly the ids of the sequential loop. With real threads the call order is not guaranteed (src/EC/Manager.hpp:1413-1418); see "## Left out".

Files (one module each):

| file | module | models |
|---|---|---|
| `wrappers.dfy` | `Wrappers` | `Option` |
| `meta.dfy` | `Meta` | `Contains`, `IndexOf`, `ContainsAll`, `Combine`, `Matching`, `TypeListGet`, `Morph` |
| `bitset.dfy` | `Bitsets` | `EC::Bitset` and the bit layout |
| `function_store.dfy` | `FunctionStore` | the map of stored functions and its key counter |
| `manager.dfy` | `EntityManager` | entity table, ids, components, tags |
| `queries.dfy` | `Queries` | the sequential matching loops and the calls of stored functions |
| `thread_split.dfy` | `ThreadSplit` | the chunk arithmetic of the parallel branches |
| `chunked_visits.dfy` | `ChunkedVisits` | the chunked scan equals the sequential scan |

## Model

| member | source | states |
|---|---|---|
| Meta.Contains | src/EC/Meta/Contains.hpp:12-29 | the answer is true exactly when the type occurs in the list |
| Meta.IndexOf | src/EC/Meta/IndexOf.hpp:11-28 | the index of the first occurrence; a type that does not occur gets the list length, as src/test/MetaTest.cpp:79-80 expects |
| Meta.ContainsAll | src/EC/Meta/ContainsAll.hpp:12-29 | true exactly when every element of the first list occurs in the second |
| Meta.Combine | src/EC/Meta/Combine.hpp:11-24 | the first list's elements keep their positions; the second list's follow, shifted by the first list's length |
| Meta.Filtered | src/EC/Meta/Matching.hpp:12-49 | reference filter: the elements of `a` that are in `b`, no longer than `a`, all of `a` when `b` covers it, empty when they share nothing |
| Meta.MatchingAccumulate | src/EC/Meta/Matching.hpp:17-36 | the accumulating phase yields what it has gathered followed by exactly the filter of the rest of the list |
| Meta.Matching | src/EC/Meta/Matching.hpp:38-49 | the two-phase `Matching` (skip until the first member of `B`, then accumulate) equals the reference filter |
| Meta.MatchingProperties | src/EC/Meta/Matching.hpp:12-49 | `Matching<A, B>` keeps exactly the members of `A` that `B` contains, in order; empty when none match, as src/test/MetaTest.cpp:234-238 expects |
| Meta.TypeListGetHelper | src/EC/Meta/TypeListGet.hpp:19-40 | finds an element of the remaining list whose `IndexOf` is the index, or reports that none has it |
| Meta.TypeListGet | src/EC/Meta/TypeListGet.hpp:42-44 | found exactly when the index is in range and is the first occurrence of its type; then the result is the element at that index |
| Meta.TypeListGetDuplicateFree | src/test/MetaTest.cpp:180-200 | on a list without repetitions every index in range gives back its element |
| Meta.TypeListGetIndexOf | src/EC/Meta/TypeListGet.hpp:19-44 | getting at `IndexOf<T>` gives back `T` |
| Meta.Morph | src/EC/Meta/Morph.hpp:11-23 | the result has the second pack's template and the first pack's arguments, with the same length and the same indices |
| Meta.MorphRoundTrip | src/EC/Meta/Morph.hpp:16-20 | morphing back into the original template restores the original pack |
| Meta.IndexOfCombine | src/EC/Bitset.hpp:28-46 | a component keeps its own index in the combined list; a tag that is only a tag is shifted by the number of components; an absent type gets the combined length |
| Meta.ContainsAllReflexive | src/test/MetaTest.cpp:65-66 | a list contains all of itself |
| Bitsets.NewBitset | src/EC/Bitset.hpp:30-33 | a new bitset has the width components + tags + 1 and every bit clear, the extra bit included |
| Bitsets.BitIndex | src/EC/Bitset.hpp:35-61 | a known type is read at its position in the combined list; an unknown type lands on the extra bit |
| Bitsets.TypeBit | src/EC/Bitset.hpp:35-61 | on a well-formed bitset an unknown type reads false |
| Bitsets.ComponentBitPosition | src/EC/Bitset.hpp:35-47 | a component's bit is its index among the components |
| Bitsets.TagBitPosition | src/EC/Bitset.hpp:49-61 | tag `k` (when not also a component) is bit `components.size + k`, as src/test/MetaTest.cpp:100-102 uses it |
| Bitsets.SetTypeBit | src/EC/Bitset.hpp:42-61 | writing through the returned bit reference changes exactly that type's bit |
| Bitsets.GenerateFrom | src/EC/Bitset.hpp:66-74 | after the loop a bit is set exactly when it was already set or it belongs to a known member of the signature |
| Bitsets.GenerateBitset | src/EC/Bitset.hpp:63-77 | exactly the bits of the known members of the signature are set; the extra bit stays clear |
| Bitsets.Matches | src/EC/Manager.hpp:716-717 | `(signature & bits) == signature` holds exactly when every set bit of the signature is set in the entity's bits |
| Bitsets.GeneratedSignatureMatches | src/EC/Manager.hpp:705-717 | an entity passes the test against a generated signature exactly when it has every member of the signature the bitset knows |
| Bitsets.CombinedBit | src/test/ECTest.cpp:1270-1293 | a raw position beyond the components and tags reads false; any other reads its bit; on a well-formed bitset, true exactly when the position is inside the bitset and its bit is set |
| Bitsets.CombinedBitOfType | src/EC/Manager.hpp:1897-1905 | reading a known type's position gives the same answer as reading the type's own bit |
| FunctionStore.SortedKeys | src/EC/Manager.hpp:1158-1163 | iteration order of the ordered map: strictly ascending, each key exactly once |
| FunctionStore.FirstFreeKey | src/EC/Manager.hpp:957-961 | the skip loop stops at the first free key at or above the counter; every key it passed is taken |
| FunctionStore.Add | src/EC/Manager.hpp:953-1042 | the new key is free and at least the counter, the map gains exactly that entry, the counter ends one past the key, and keys stay below the counter |
| FunctionStore.AddUsesCounter | src/EC/Manager.hpp:957-961 | while every key is below the counter the skip loop never advances: the key is the counter |
| FunctionStore.AddOrder | src/EC/Manager.hpp:1041 | a function added later gets a larger key |
| FunctionStore.Remove | src/EC/Manager.hpp:1256-1259 | the key is erased and nothing else changes; the answer is true exactly when the key was present; `deleteForMatchingFunction` at src/EC/Manager.hpp:1351-1354 behaves the same |
| FunctionStore.RemoveAfterAdd | src/EC/Manager.hpp:1256-1259 | removing a just-added function gives back the old map and answers true; a second removal answers false |
| FunctionStore.RemoveSome | src/EC/Manager.hpp:1316-1327 | every listed key is erased, nothing else changes, and the count is the number of listed keys that were stored |
| FunctionStore.UnlistedStep | src/EC/Manager.hpp:1274-1287 | each step of the walk either keeps a listed key or erases and counts an unlisted one, never the same key twice |
| FunctionStore.UnlistedAll | src/EC/Manager.hpp:1274-1287 | at the end of the walk the erased keys are exactly the stored keys the list does not mention |
| FunctionStore.EraseUnlisted | src/EC/Manager.hpp:1274-1287 | the loop over the ascending keys erases and counts exactly the unlisted keys seen |
| FunctionStore.KeepSome | src/EC/Manager.hpp:1271-1290 | exactly the stored keys the list does not mention are erased, and the count is their number |
| FunctionStore.ChangeContext | src/EC/Manager.hpp:1361-1370 | a stored key gets the new context and the answer true; an absent key changes nothing and answers false; signatures, callbacks and other entries are untouched |
| EntityManager.FreshEntity | src/EC/Manager.hpp:193-196 | a row that `resize` writes is not alive and its bitset is well-formed |
| EntityManager.Resize | src/EC/Manager.hpp:181-200 | a capacity already large enough changes nothing; otherwise the table has the new capacity, old rows are kept and new rows are fresh |
| EntityManager.ResizeKeepsValid | src/EC/Manager.hpp:181-200 | growing by a multiple of the grow step keeps the manager valid |
| EntityManager.New | src/EC/Manager.hpp:172-178 | a new manager is valid, has no entities, has capacity `EC_INIT_ENTITIES_SIZE` (src/EC/Manager.hpp:10), no deleted ids, an empty store and only fresh rows |
| EntityManager.Reset | src/EC/Manager.hpp:582-590 | after a reset the size is 0, the capacity is the initial one, nothing is deleted and the store is empty |
| EntityManager.ResetIsNew | src/EC/Manager.hpp:582-590 | a reset manager equals a new one, so a grown table shrinks back to 256 rows |
| EntityManager.HasEntity | src/EC/Manager.hpp:250-259 | true exactly for ids below the size; in a valid manager, exactly for the alive ids and the deleted ones, since deleted entities still count as in the system |
| EntityManager.IsAlive | src/EC/Manager.hpp:270-273 | true exactly for ids below the size that are not in the deleted set |
| EntityManager.RangeSize | src/EC/Manager.hpp:281-284 | there are `n` ids below `n` |
| EntityManager.GetCurrentSize | src/EC/Manager.hpp:281-284 | size minus the number of deleted ids is the number of alive entities |
| EntityManager.SubsetSize | src/EC/Manager.hpp:281-284 | removing a subset removes its cardinality |
| EntityManager.GetCurrentCapacity | src/EC/Manager.hpp:293-296 | the capacity is a positive multiple of the grow step (src/EC/Manager.hpp:11) and at least the size |
| EntityManager.Grow | src/EC/Manager.hpp:212-215 | a full table gains one grow step of fresh rows; old rows are kept; the manager stays valid |
| EntityManager.AddAtEnd | src/EC/Manager.hpp:210-219 | with no deleted id, the id is the old size, the size grows by one, the row comes to life with no bits and nothing else changes |
| EntityManager.Revive | src/EC/Manager.hpp:220-231 | a deleted id comes back to life with no bits, leaves the deleted set, and nothing else changes |
| EntityManager.AddEntity | src/EC/Manager.hpp:208-232 | the returned id was not alive and now is; without deleted ids it is the old size and the table grows when full; otherwise it is the recycled id |
| EntityManager.AddEntityCounts | src/EC/Manager.hpp:208-232 | every `addEntity` adds one to `getCurrentSize` |
| EntityManager.DeleteEntity | src/EC/Manager.hpp:241-249 | an id below the size becomes not alive, loses its bits and joins the deleted set; any other id changes nothing |
| EntityManager.DeleteIdempotent | src/EC/Manager.hpp:241-249 | deleting twice is deleting once |
| EntityManager.DeleteDeadIsNoOp | src/EC/Manager.hpp:241-249 | deleting an entity that is not alive changes nothing |
| EntityManager.RecycledIdHasNoBits | src/test/ECTest.cpp:253-281 | an id recycled after a deletion starts without any component or tag |
| EntityManager.GetEntityInfo | src/EC/Manager.hpp:298-310 | the row of the table, present exactly below the capacity (`at` fails beyond it); its flag is true exactly when the entity is alive, and its bitset is well-formed and answers `hasComponent`/`hasTag` for every type |
| EntityManager.HasType | src/EC/Manager.hpp:428-447 | defined exactly for rows inside the table; a true answer means a known type and an alive entity |
| EntityManager.GetEntityData | src/EC/Manager.hpp:325-342 | an unknown component gives a null pointer for any id; a known one gives that component's slot for the id, and `at` fails beyond the storage |
| EntityManager.SetBitIf | src/EC/Manager.hpp:478-573 | when the type is known and the entity alive, exactly that type's bit of that row takes the value; otherwise nothing changes |
| EntityManager.AddComponent | src/EC/Manager.hpp:478-502 | a known component on an alive entity becomes present; otherwise nothing changes |
| EntityManager.RemoveComponent | src/EC/Manager.hpp:515-527 | a known component on an alive entity becomes absent; otherwise nothing changes |
| EntityManager.AddTag | src/EC/Manager.hpp:537-549 | a known tag on an alive entity becomes present; otherwise nothing changes |
| EntityManager.RemoveTag | src/EC/Manager.hpp:561-573 | a known tag on an alive entity becomes absent; otherwise nothing changes |
| EntityManager.AddThenRemoveComponent | src/EC/Manager.hpp:478-527 | removing a component that was just added to an entity without it gives back the same manager |
| EntityManager.AddForMatchingFunction | src/EC/Manager.hpp:953-1042 | the key is the counter, which was free; the store gains exactly the entry (generated signature, context, callback); the entity table is untouched |
| EntityManager.ClearForMatchingFunctions | src/EC/Manager.hpp:1245-1249 | the store is empty and the counter back at 0; the entity table is untouched |
| EntityManager.RegistryEditKeepsValid | src/EC/Manager.hpp:1256-1370 | erasing keys or changing contexts keeps the manager valid |
| Queries.MatchingBelowSpec | src/EC/Manager.hpp:709-722 | the reference list is ascending, stays below `n`, and holds exactly the alive ids below `n` that pass the filter |
| Queries.MatchingIds | src/EC/Manager.hpp:709-722 | the ids a sequential loop calls back on: ascending, and exactly the alive ids that pass the filter |
| Queries.MatchingStep | src/EC/Manager.hpp:709-722 | one more loop iteration appends the id exactly when it is alive and passes |
| Queries.AliveOnlyMatching | src/EC/Manager.hpp:984-994 | the wrapper's aliveness re-check drops nothing from a list a matching pass built |
| Queries.CallbackArguments | src/EC/Manager.hpp:698-703 | a callback receives exactly the components of the signature, in signature order; tags are never passed |
| Queries.SignatureSelects | src/EC/Manager.hpp:705-722 | an entity is called back for a generated signature exactly when it is alive and has every known member of the signature |
| Queries.SignatureMatchingIds | src/EC/Manager.hpp:705-722 | the ids matching a generated signature are exactly the alive entities with every known member |
| Queries.ForMatchingSignature | src/EC/Manager.hpp:693-723 | the loop calls back, in ascending order, exactly the alive entities that have every known member of the signature; `forMatchingSimple` at src/EC/Manager.hpp:1813-1828 is the same loop |
| Queries.DeadAddsNothing | src/EC/Manager.hpp:1052-1057 | a dead id adds to no list |
| Queries.AppendMatches | src/EC/Manager.hpp:1058-1065 | the inner loop extends every list by one id exactly when that id matches its bitset |
| Queries.GetMatchingEntities | src/EC/Manager.hpp:1045-1066 | list `j` holds exactly the alive ids matching bitset `j`, in ascending order |
| Queries.AliveOnly | src/EC/Manager.hpp:1524-1529 | keeps exactly the alive ids of a list, in order; a list of alive ids comes back unchanged |
| Queries.ForMatchingSignatures | src/EC/Manager.hpp:1420-1529 | each function is called on exactly the ids its signature matches, in ascending order, in signature order |
| Queries.ForMatchingIterable | src/EC/Manager.hpp:1889-1912 | the loop calls back exactly the alive entities whose bits at every listed position are set |
| Queries.OutOfRangeIndexMatchesNothing | src/test/ECTest.cpp:1270-1293 | with a position beyond the components and tags in the list, no entity is called back |
| Queries.SameSelectionBelow | src/EC/Manager.hpp:709-722 | two filters that agree on every id below `n` give the same list |
| Queries.PositionsPass | src/EC/Manager.hpp:1897-1905 | for known types, testing their positions one by one is the same as having every type of the signature |
| Queries.IterableAgreesWithSignature | src/EC/Manager.hpp:1889-1912 | `forMatchingIterable` over a signature's positions visits the same ids as `forMatchingSignature` |
| Queries.InvocationOf | src/EC/Manager.hpp:1155-1176 | the call a stored function makes carries its key, callback and context, and goes to exactly the alive entities whose bits cover its signature, in ascending order |
| Queries.RunStored | src/EC/Manager.hpp:984-994 | the stored wrapper calls the callback with the stored context on exactly the listed ids that are still alive; on a fresh matching list that is the function's invocation |
| Queries.CallForMatchingFunctions | src/EC/Manager.hpp:1155-1176 | one call per stored function, in strictly ascending key order, each on exactly the alive entities its signature matches |
| Queries.MatchKeyed | src/EC/Manager.hpp:1156-1165 | list `i` of the first pass holds exactly the alive ids matching the signature stored under the `i`-th key, in ascending order |
| Queries.CallInOrder | src/EC/Manager.hpp:1168-1175 | call `i` is the invocation of the `i`-th key |
| Queries.KeysCovered | src/EC/Manager.hpp:1155-1176 | the calls cover every stored key exactly once, in ascending order |
| Queries.CallForMatchingFunction | src/EC/Manager.hpp:1207-1221 | false and no call for an absent key; otherwise true and the one function's invocation |
| ThreadSplit.ChunkLength | src/EC/Manager.hpp:728 | `s = n / ThreadCount`, so `s * ThreadCount <= n < (s + 1) * ThreadCount` |
| ThreadSplit.ChunkBegin | src/EC/Manager.hpp:728-730 | the first `ThreadCount` chunk starts lie inside `[0, n]` |
| ThreadSplit.ChunkEnd | src/EC/Manager.hpp:731-736 | every chunk lies inside `[0, n)` and is not reversed: it ends no earlier than it begins and no later than `n` |
| ThreadSplit.ChunksContiguous | src/EC/Manager.hpp:728-736 | the first chunk begins at 0, the last ends at `n`, and each chunk ends where the next begins |
| ThreadSplit.ChunksDisjoint | src/EC/Manager.hpp:728-736 | an earlier chunk ends no later than a later one begins |
| ThreadSplit.LastChunkAbsorbsRemainder | src/EC/Manager.hpp:732-736 | the last chunk has `s + n % ThreadCount` elements |
| ThreadSplit.ChunkOf | src/EC/Manager.hpp:728-736 | every element lies in some chunk |
| ThreadSplit.ExactlyOneChunk | src/EC/Manager.hpp:728-736 | every element lies in exactly one chunk |
| ThreadSplit.QueuedChunks | src/EC/Manager.hpp:728-739 | the queued chunks are nonempty, tile `[0, n)` in thread order, and none is queued when `n` is 0 |
| ChunkedVisits.SplitScan | src/EC/Manager.hpp:746-761 | scanning `[0, begin)` and then `[begin, end)` is scanning `[0, end)` |
| ChunkedVisits.ScanRange | src/EC/Manager.hpp:746-761 | one pool task visits exactly the selected ids of its range, in order |
| ChunkedVisits.TiledScan | src/EC/Manager.hpp:726-763 | tasks over ranges that tile `[0, n)` together visit, task after task, what the sequential scan visits |
| ChunkedVisits.ParallelScan | src/EC/Manager.hpp:726-763 | the queued tasks, run one after the other in queue order, together visit exactly the ids of the sequential loop; thread interleaving is left out (see "## Left out") |

## Left out

- Threads, the thread pool, the mutex in `forMatchingSignatures`, and the busy-wait until the pool is idle are not modelled. Only the split of `[0, n)` into ranges and the per-range scan are modelled, with the tasks run one after the other (`ThreadSplit`, `ChunkedVisits`). The same split appears, among others, at src/EC/Manager.hpp:849, 999-1010, 1072-1084, 1463-1474, 1531-1543, 1671, 1745 and 1831-1842, and for `forMatchingIterable` at src/EC/Manager.hpp:1916-1927.
- The ordering of callbacks across threads is not modelled, so nothing is claimed about interleavings: with threads the source does not guarantee call order (src/EC/Manager.hpp:1413-1418).
- Component values, their storage deques, constructor arguments and pointer identity are not modelled. `getEntityData` is modelled by the storage slot it points at (`DataRef`).
- Callbacks are abstract identities. Their effect on the manager or on component values is not modelled, so a callback that adds or deletes entities mid-loop is outside the model. The aliveness re-check in the stored wrapper is modelled (`RunStored`).
- `void*` contexts are numbers; 0 stands for nullptr.
- `addEntity` takes the first element that iteration over the unordered deleted set yields. That order is unspecified, so it is a parameter, `reuse`, which must be a deleted id when there is one.
- `functionIndex` is an unbounded counter. Its `size_t` wrap-around after 2^64 additions is not modelled. Because of this, the skip loop of `addForMatchingFunction` never advances under the invariant (`FunctionStore.AddUsesCounter`).
- `std::vector<std::size_t>` and `std::size_t` ids are unbounded naturals. The entity count never comes near `size_t` limits in the model.
- The `...Ptr` variants (`forMatchingSignaturePtr`, `forMatchingSignaturesPtr`) and `getEntityComponent` behave like the modelled functions apart from how the callback is passed, so they are not modelled separately.
- The `initializer_list` overloads of `keepSomeMatchingFunctions` and `removeSomeMatchingFunctions` forward to the modelled templates. Lists are sequences of naturals.
- `static_assert`s and other compile-time errors are not modelled. This includes `IndexOf` of a type that is absent. The primary templates give no `value` there, but the manager and the tests rely on the list length (src/test/MetaTest.cpp:79-80), which is what `Meta.IndexOf` returns.
- `Matching` of lists with no common member: the primary template has no `type`. The model returns the empty list, as src/test/MetaTest.cpp:234-238 expects.
- `TypeListGet` with an index that no element has falls back to the whole list type in the source. The model returns `None`.
- `getCombinedBit`, used by `forMatchingIterable`, is not defined in the bitset header shown. `Bitsets.CombinedBit` reads false beyond the components and tags, as src/test/ECTest.cpp:1270-1293 expects.
- Exceptions from `at` are `None` results.
- `forEach`, `forEachWithIndex`, `forEachDoubleTuple`, `Meta.hpp`, `TypeList.hpp`, `ThreadPool.hpp`, the packaging recipe and the usage example are not part of this model.
- Queries.MatchingIds: the ids are the callback targets. The callback arguments (component pointers) are described separately by `Queries.CallbackArguments`, not per call.
