# A verified model of a generational slot map

This project models the core of a Rust slot map crate in Dafny and proves
properties of the model. The crate stores values in chunks of 256 cells and
hands out key data `(index_in_chunk, chunk_index, generation)` as handles.

How the map works, in the crate's own terms:

- A cell whose generation is even is filled. A removal increments the
  generation, so older key data stop matching the cell.
- Vacant cells form an intrusive LIFO free list. Each vacant cell stores the
  coordinates of the next vacant cell; the last one stores the fill point.
  The head of the list is `next_open_slot`.
- `insert` takes the head cell, or writes a fresh cell at the fill point.
  `remove_raw` and `drain` push cells back onto the list.
- Both directions use the same trick: increment the generation, then swap
  coordinates with the head.

Files:

| file | module | contents |
|---|---|---|
| `slot_map_key_data.dfy` | `SlotMapKeyData` | bit constants, the key data triple, generation and coordinate steps, packing into a `u64` (bit operations written as arithmetic on `nat`, with the masks proved to partition the word) |
| `slot_storage.dfy` | `SlotStorage` | `Slots<T>` as a value; the flat view of initialised cells (`Cells`), routing, reads and writes of one cell, sealing the open chunk, `iter_raw` and `map` of the storage |
| `free_list.dfy` | `FreeList` | the free list as a ghost sequence of flat positions, with the push and pop lemmas |
| `slot_map_spec.dfy` | `SlotMapSpec` | `Inner<T>` as a value, the invariant `Valid(m, free)`, and every map operation as a function from the old state to the new one |
| `map_lookups.dfy` | `MapLookups` | what `get_raw`, `get_mut_raw` and `contains_key_raw` return |
| `insert_remove.dfy` | `InsertRemove` | `insert` and `remove_raw`: the invariant, lookups afterwards, LIFO reuse |
| `drain_iterate.dfy` | `DrainIterate` | `drain`/`clear`, `values`, `iter_raw` and `iter` |
| `map_write.dfy` | `MapWrite` | `map`, `clone`, and a write through `get_mut_raw` |
| `insert_sequence.dfy` | `InsertSequence` | a run of inserts into a new map: the layout, keys and values after `n` inserts |
| `slot_maps.dfy` | `SlotMaps` | the imperative form: class `Slots<T>`, whose open chunk is an `array` of 256 optional cells updated in place, and class `SlotMap<T>` with its fields, a ghost free list and `Valid()`; every method is proved to follow the matching `SlotMapSpec` function and to keep `Valid()` |

`Valid(m, free)` (in `SlotMapSpec`) has the following parts:

- **Layout.** Sealed chunks are full, `current_chunk_index == filled_chunks.len()`, and the open chunk is initialised exactly below the cursor.
- **Ranges.** Every stored key data is in range and names a position at or before the fill point.
- **Own coordinates.** Every filled cell stores its own coordinates.
- **Free list.** `free` lists each vacant cell exactly once. Each entry links to the next, and the last links to the fill point. The head names the first entry, or the fill point when the list is empty.
- **Head generation.** The head's generation is 0.
- **Count.** `len` counts the filled cells.

A handle `K` of the crate is modelled as the pair of the caller's payload and the key data. So `get`, `get_unbounded`, `remove`, `contains_key` and their `_unbounded` forms are the `_raw` operations on the key data.

## Model

| member | source | states |
|---|---|---|
| SlotMapKeyData.ConstantsMatchSource | src/slot_map_key_data.rs:5-18 | each constant equals the expression the source defines it by: 8 index bits (the trailing zeros of 256), 32 chunk bits, 24 generation bits, the masks and shifts, and both maxima |
| SlotMapKeyData.MasksPartitionWord | src/slot_map_key_data.rs:5-15 | the widths sum to 64; the three masks sum to 2^64 - 1; for every word, the parts kept by the three masks add up to the word, so the masks are disjoint and cover all 64 bits |
| SlotMapKeyData.IncrementGeneration | src/slot_map_key_data.rs:40-52 | the generation becomes g + 1 below MAX_GENERATION and 0 at it, stays at most MAX_GENERATION, coordinates are untouched and `is_filled` flips |
| SlotMapKeyData.NextGenerationWraps | src/slot_map_key_data.rs:40-46 | one increment is a step modulo 2^24 and stays in range |
| SlotMapKeyData.NextGenerationTwice | src/slot_map_key_data.rs:40-46 | two increments never give the same generation back |
| SlotMapKeyData.IncrementGenerationTimesSpec | src/slot_map_key_data.rs:40-52 | after n increments the generation is (g + n) mod 2^24, the coordinates are unchanged and `is_filled` has flipped n times, the wrap included |
| SlotMapKeyData.SwapCoordinates | src/slot_map_key_data.rs:55-58 | each side gets the other's chunk index and index in chunk and keeps its own generation |
| SlotMapKeyData.SwapCoordinatesTwice | src/slot_map_key_data.rs:55-58 | swapping twice gives both key data back |
| SlotMapKeyData.IncrementCoordinates | src/slot_map_key_data.rs:63-72 | reports a crossing exactly at index 255; then the index is 0 and the chunk is one more, otherwise the index is one more; the generation is untouched and `chunk * 256 + index` rises by exactly 1 |
| SlotMapKeyData.EncodeLayout | src/slot_map_key_data.rs:92-100 | the word holds the index in bits 0-7, the chunk index in bits 8-39 and the generation in bits 40-63 |
| SlotMapKeyData.Decode | src/slot_map_key_data.rs:81-89 | the corrected decode always yields key data in range |
| SlotMapKeyData.DecodeFields | src/slot_map_key_data.rs:81-89 | the corrected decode reads the index, chunk and generation bit ranges back |
| SlotMapKeyData.DecodeEncode | src/slot_map_key_data.rs:81-100 | decode(encode(k)) == k for every key whose fields are in range |
| SlotMapKeyData.EncodeDecode | src/slot_map_key_data.rs:81-100 | encode(decode(w)) == w for every 64-bit word |
| SlotMapKeyData.DecodeZero | src/slot_map_key_data.rs:81-89 | the word 0 decodes into the default all-zero key data |
| SlotMapKeyData.DecodeCount | src/slot_map_key_data.rs:81-89 | a cell count n below 2^40 decodes into index n mod 256, chunk n div 256, generation 0 |
| SlotMapKeyData.DecodeAsWrittenChunk | src/slot_map_key_data.rs:85-86 | the decode as written returns chunk index `c / 2^24` for an encoded key with chunk `c`; the index comes back intact |
| SlotMapKeyData.WrappingMulGenerationMask | src/slot_map_key_data.rs:87 | a word times GENERATION_MASK, truncated to 64 bits, is the word's negation modulo 2^24 placed in bits 40-63 |
| SlotMapKeyData.DecodeAsWrittenGeneration | src/slot_map_key_data.rs:87 | for every key in range, the decode as written returns generation `-(index + 256 * chunk) mod 2^24`; the generation the key had does not enter |
| SlotMapKeyData.DecodeAsWrittenOfEncode | src/slot_map_key_data.rs:85-87 | for every key in range, the decode as written of its encoding is (index, chunk div 2^24, `-(index + 256 * chunk) mod 2^24`) |
| SlotMapKeyData.DecodeAsWrittenRoundTripsExactly | src/slot_map_key_data.rs:81-100 | a key in range survives encode then the decode as written exactly when its chunk is 0 and its generation is `-index mod 2^24` |
| SlotMapKeyData.DecodeAsWrittenFirstCell | src/slot_map_key_data.rs:85-87 | the first cell of chunk c (0 < c < 2^16) at generation 0 comes back as (0, 0, 2^24 - 256 c) |
| SlotMapKeyData.DecodeAsWrittenOrigin | src/slot_map_key_data.rs:87 | a key at index 0 of chunk 0 comes back at generation 0, whatever its generation was |
| SlotMapKeyData.DecodeAsWrittenBreaksRoundTrip | src/slot_map_key_data.rs:85-87 | key data (0, 1, 0) comes back as (0, 0, 0xFFFF00), and (0, 0, 2) as (0, 0, 0) |
| SlotMapKeyData.DecodeAsWrittenCount | src/slot_map_key_data.rs:85-87 | a cell count n below 2^40, read as a word by the decode as written, gives (n mod 256, n div 2^32, -n mod 2^24) instead of (n mod 256, n div 256, 0) |
| SlotMapKeyData.DecodeAsWrittenMissesHead | src/slot_map.rs:1138-1141 | the word 2688 decodes correctly into (128, 10, 0), but as written into (128, 0, 2^24 - 2688) |
| SlotStorage.NewStorage | src/slot_map.rs:26-34 | a new storage has the layout, no initialised cell and fill point 0 |
| SlotStorage.Cells | src/slot_map.rs:108-120 | `values` of the storage yields exactly as many cells as the fill point counts |
| SlotStorage.LookupsReadRoutedCell | src/slot_map.rs:36-91 | `get_slot` and `get_existing_slot_mut` agree, and both read the cell at the routed flat position; they miss exactly when that position is not initialised |
| SlotStorage.LookupsRouteLateChunksToOpenChunk | src/slot_map.rs:36-48 | key data whose chunk index lies past the open chunk are routed to the open chunk |
| SlotStorage.SetExistingSlotInCells | src/slot_map.rs:79-91 | a write through `get_existing_slot_mut` replaces the routed cell of the flat view and nothing else, and keeps the layout |
| SlotStorage.MoveCurrentChunkToFilledChunk | src/slot_map.rs:94-106 | one more sealed chunk holding the open chunk's cells in order; the open chunk becomes empty; the cursor is 0 and the chunk index is the new chunk count, truncated to u32 |
| SlotStorage.AppendToOpenChunk | src/slot_map.rs:369-376 | a fresh cell written at the cursor of an open chunk with room, followed by `cursor += 1`, is appended to the flat view |
| SlotStorage.AppendSealsOpenChunk | src/slot_map.rs:369-373 | a fresh cell written at index 255 makes the open chunk full, so both `expect`s of the sealing hold; after sealing, the cell is appended to the flat view and the chunk index rises by one |
| SlotStorage.IterCellsAt | src/slot_map.rs:141-175 | the storage `iter_raw` yields every initialised cell in flat order, with key data naming the cell's own position and carrying the stored generation |
| SlotStorage.MapStorageCells | src/slot_map.rs:223-242 | a mapped storage has the same layout and fill point; every cell keeps its key data and gets `mapper(value)`, vacant cells included |
| SlotStorage.MapStorageIdentity | src/slot_map.rs:223-242 | mapping with the identity gives the same storage (the step clone rests on) |
| FreeList.PopFree | src/slot_map.rs:358-366 | filling the head cell with the head's coordinates and an even generation, with the new head taking the cell's link, leaves the list minus its first entry |
| FreeList.PushFree | src/slot_map.rs:625-627 | vacating a filled cell that takes the head's coordinates, with the head taking the cell's, puts the cell in front of the list |
| FreeList.AppendFresh | src/slot_map.rs:368-377 | with an empty list, appending the head as a filled cell and moving the head one position on keeps an empty chain |
| FreeList.AllFilledEmptiesChain | src/slot_map.rs:354-356 | when every cell is filled the list is empty and the head names the fill point |
| FreeList.CountFilledBound | src/slot_map.rs:335-337 | the filled count is at most the cell count; it equals the cell count exactly when every cell is filled, and it is 0 exactly when every cell is vacant |
| SlotMapSpec.New | src/slot_map.rs:292-303 | a new map satisfies the invariant with an empty list, has no cells, and its head is the default key data |
| SlotMapSpec.Insert | src/slot_map.rs:351-383 | `len` grows by one, the returned key data has the old head's coordinates, and at most one chunk is sealed |
| SlotMapSpec.ReusedCellInitialised | src/slot_map.rs:354-362 | when insert takes the reusing branch, the head names an initialised cell, so the `expect` at line 362 cannot fail |
| SlotMapSpec.FreshCellAtFillPoint | src/slot_map.rs:368-371 | otherwise the head names exactly the fill point |
| SlotMapSpec.RemoveRaw | src/slot_map.rs:617-632 | returns what `get_mut_raw` finds; on a miss the map is unchanged; on a hit `len` drops by one and the fill point stays |
| SlotMapSpec.DrainCell | src/slot_map.rs:722-728 | the closure vacates the cell it is given and only that cell; `len` drops by one when the cell was filled |
| SlotMapSpec.DrainPrefix | src/slot_map.rs:712-732 | after the closure has run on the first n cells, those are all vacant and the rest are untouched |
| SlotMapSpec.Drain | src/slot_map.rs:859-868 | once the `Drop` has run the iterator out, every cell is vacant |
| SlotMapSpec.Iter | src/slot_map.rs:743-753 | `iter` yields one handle per entry of `iter_raw` |
| MapLookups.ReuseBranchBelowFillPoint | src/slot_map.rs:354-356 | insert's branch test holds exactly when the head names a position below the fill point |
| MapLookups.GetMutRawAgreesWithGetRaw | src/slot_map.rs:548-555 | `get_mut_raw` and `get_raw` return the same value on every key `get_raw` accepts |
| MapLookups.LiveCellResolves | src/slot_map.rs:451-458 | the key data stored in a filled cell find that cell's value under `get_raw`, `get_mut_raw` and `contains_key_raw` |
| MapLookups.DeadCellMisses | src/slot_map.rs:451-458 | key data routed to a vacant cell, or to a cell with another generation, miss under `get_raw` and `get_mut_raw` |
| MapLookups.AllVacantMisses | src/slot_map.rs:451-458 | in a map whose cells are all vacant, every lookup misses |
| MapLookups.ContainsKeyRawParity | src/slot_map.rs:701-709 | for an even generation `contains_key_raw` agrees with `get_raw`; for an odd generation `get_raw` misses, but `contains_key_raw` still reports a cell that stores that generation |
| MapLookups.LateChunkKeysReadOpenChunk | src/slot_map.rs:36-48 | every lookup treats a chunk index past the open chunk as the open chunk |
| InsertRemove.InsertReuseCells | src/slot_map.rs:358-366 | the reusing branch stores the value in the head cell with the next generation and the head's coordinates; the head takes the cell's link; the layout stays |
| InsertRemove.InsertReusesHead | src/slot_map.rs:354-366 | with a non-empty list, insert fills the first entry, pops it, keeps the invariant and changes neither the chunk count, the chunk index nor the cursor |
| InsertRemove.InsertFreshCells | src/slot_map.rs:368-377 | the bump-allocating branch returns the head, which is the fill point with generation 0, appends one cell and moves the head to the new fill point; the chunk is sealed exactly when the cursor was 255 |
| InsertRemove.InsertAppendsFresh | src/slot_map.rs:368-377 | with an empty list, insert keeps the invariant, appends one cell and returns the old fill point's key data with generation 0 |
| InsertRemove.InsertValid | src/slot_map.rs:351-383 | insert keeps the invariant with the popped list and returns in-range, filled key data naming the cell that holds the value |
| InsertRemove.InsertThenGet | src/slot_map.rs:351-383 | the key data insert returns find the inserted value under `get_raw`, `get_mut_raw` and `contains_key_raw` |
| InsertRemove.InsertReuseKeepsOthers | src/slot_map.rs:358-366 | the reusing branch changes the lookup of no other key data naming an existing chunk |
| InsertRemove.InsertFreshKeepsOthers | src/slot_map.rs:368-377 | the bump-allocating branch changes the lookup of no other key data naming an existing chunk |
| InsertRemove.InsertKeepsOtherEntries | src/slot_map.rs:351-383 | insert changes the lookup of no other key data naming an existing chunk |
| InsertRemove.RemoveCells | src/slot_map.rs:617-632 | on a live entry only the routed cell changes: it keeps its value and takes the head's coordinates with an in-range key |
| InsertRemove.RemoveLiveKey | src/slot_map.rs:617-632 | remove returns the resident value and decrements `len`; the cell gets the next, odd, generation and the old head's coordinates; the head names the cell, and the invariant holds with the cell pushed on the list |
| InsertRemove.RemoveThenMiss | src/slot_map.rs:617-632 | after removing a live key, `get_raw`, `get_mut_raw` and a second remove all miss |
| InsertRemove.RemoveKeepsOtherEntries | src/slot_map.rs:617-632 | remove changes the lookup of no other key data naming an existing chunk |
| InsertRemove.RemoveThenInsertCells | src/slot_map.rs:354-366 | an insert right after a remove reuses the freed cell, with a generation two steps on, and finds the new value |
| InsertRemove.LifoReuse | src/slot_map.rs:354-366 | the reinsert returns the removed key's coordinates with a different generation; the removed key stays dead |
| InsertRemove.RemoveThenInsertRestoresFreeList | src/slot_map.rs:617-632 | remove followed by insert leaves the head and the free list as they were |
| DrainIterate.DrainCellIsRemove | src/slot_map.rs:722-728 | on a filled cell the drain closure is `remove_raw` with the key data that cell stores |
| DrainIterate.DrainCellValid | src/slot_map.rs:722-728 | each drain step keeps the invariant and pushes the cell when it was filled |
| DrainIterate.DrainedFree | src/slot_map.rs:722-728 | the list after n steps grows by the number of filled cells among the first n |
| DrainIterate.DrainPrefixValid | src/slot_map.rs:712-732 | after any prefix of cells, drain keeps the invariant with the filled cells of that prefix pushed in flat order |
| DrainIterate.DrainPrefixLen | src/slot_map.rs:722-724 | after any prefix, `len` has dropped by the number of filled cells in it |
| DrainIterate.DrainYieldValues | src/slot_map.rs:719-728 | after n steps of drain's filtered closure, the values yielded are exactly the values of the filled cells among the first n, in flat order |
| DrainIterate.DrainEmpties | src/slot_map.rs:859-868 | drain run out yields the live values in flat order (through `DrainYieldValues`, since `SlotMapSpec.Drain` builds its values step by step), as many as `len` counted; `len` becomes 0, the fill point stays, every lookup misses, and the invariant holds with every freed cell on the list |
| DrainIterate.ClearEmpties | src/slot_map.rs:737-739 | after clear the map is empty, `values` is empty, `get_mut_raw` misses everywhere, and the invariant holds |
| DrainIterate.FilledValuesCount | src/slot_map.rs:792-798 | `values` yields one value per filled cell |
| DrainIterate.LenCountsValues | src/slot_map.rs:771-798 | `len` equals the number of values and of `iter_raw` entries, and `iter_raw` carries the same values in the same order |
| DrainIterate.IterRawResolves | src/slot_map.rs:771-777 | every entry of `iter_raw` has an even generation, and `get_raw` finds its value under its key data |
| DrainIterate.LiveKeysIterated | src/slot_map.rs:771-777 | every key data naming an existing chunk that `get_mut_raw` resolves appears in `iter_raw` with its value |
| DrainIterate.IterHandlesResolve | src/slot_map.rs:743-753 | `iter` yields `len` handles; each carries `pointer_finder(value)`, and its key data resolve to that value |
| MapWrite.FilledValuesMapped | src/slot_map.rs:223-242 | the values of mapped cells are the mapped values |
| MapWrite.MapStorageLookups | src/slot_map.rs:223-242 | both storage lookups in a mapped storage return the mapped cell |
| MapWrite.MapKeepsLayout | src/slot_map.rs:812-825 | map keeps the invariant with the same free list, every stored key data, the fill point, `len` and the head; `values` are the mapped values in order |
| MapWrite.MapLookupsMapped | src/slot_map.rs:812-825 | every lookup in the mapped map returns the mapped value, or misses as before |
| MapWrite.CloneEqual | src/slot_map.rs:828-836 | with `T::clone` taken as returning an equal value, clone gives an equal map; this follows from that assumption and says nothing further about clone |
| MapWrite.WriteMutRawUpdates | src/slot_map.rs:548-555 | a write through the `get_mut_raw` reference replaces that value only; key data, head, `len` and the invariant stay; without a reference nothing changes |
| MapWrite.WriteMutRawKeepsOthers | src/slot_map.rs:548-555 | such a write changes no lookup that routes to another cell |
| InsertSequence.InsertAll | src/slot_map.rs:1115-1120 | n inserts into a new map satisfy the invariant with an empty list and return n keys; the fill point is n |
| InsertSequence.InsertAllStep | src/slot_map.rs:368-377 | each further insert appends a cell keyed by the fill point |
| InsertSequence.EmptyListHeadAtFillPoint | src/slot_map.rs:368-377 | with an empty list the head is (fill mod 256, fill div 256, 0) and the chunk count and cursor match it |
| InsertSequence.InsertAllHead | src/slot_map.rs:1115-1120 | after n inserts there are n div 256 sealed chunks, `current_chunk_index` is n div 256, the cursor is n mod 256, and the head is (n mod 256, n div 256, 0) |
| InsertSequence.InsertAllHeadDecodes | src/slot_map.rs:1138-1141 | after n inserts the head is the key data the word n decodes into |
| InsertSequence.InsertAllHeadAsWritten | src/slot_map.rs:1138-1141 | with the decode as written the same check fails for every insert count n that is not a multiple of 2^24: the decoded generation is nonzero, the head's is 0 |
| InsertSequence.InsertAllCells | src/slot_map.rs:1122-1136 | the i-th insert returns position i with generation 0, and cell i holds it with the i-th value |
| InsertSequence.InsertAllLookups | src/slot_map.rs:928-936 | every returned key finds its own value |
| InsertSequence.InsertAllValues | src/slot_map.rs:1006-1017 | `values` lists the inserted values in insertion order, and `len` counts them |
| InsertSequence.FirstInsertKey | src/slot_map.rs:441-449 | the first insert returns the key data decoded from 0 and is found under it; the key data decoded from 1 miss |
| SlotMaps.Slots.constructor | src/slot_map.rs:26-34 | a fresh open-chunk array of 256 empty cells, no sealed chunk, index and cursor 0 |
| SlotMaps.Slots.GetSlot | src/slot_map.rs:36-48 | returns what `SlotStorage.GetSlot` gives for the current storage |
| SlotMaps.Slots.GetExistingSlot | src/slot_map.rs:79-91 | returns what `SlotStorage.GetExistingSlot` gives for the current storage |
| SlotMaps.Slots.SetExistingSlot | src/slot_map.rs:79-91 | the new storage is `SlotStorage.SetExistingSlot` of the old one |
| SlotMaps.Slots.SetCurrentChunkSlot | src/slot_map.rs:66-73 | the array cell is overwritten in place; the new storage is `SlotStorage.SetCurrentChunkSlot` of the old one |
| SlotMaps.Slots.MoveCurrentChunkToFilledChunk | src/slot_map.rs:94-106 | the loop takes each array cell, leaving `None` in place, and pushes the sealed chunk; the new storage is `SlotStorage.MoveCurrentChunkToFilledChunk` of the old one |
| SlotMaps.Slots.Map | src/slot_map.rs:223-242 | a fresh storage whose value is `MapStorage` of this one |
| SlotMaps.SlotMap.constructor | src/slot_map.rs:292-303 | a new map in state `New()`, valid with an empty free list |
| SlotMaps.SlotMap.Len | src/slot_map.rs:317-319 | returns `len`, which is the number of values |
| SlotMaps.SlotMap.IsEmpty | src/slot_map.rs:335-337 | true exactly when `values` is empty |
| SlotMaps.SlotMap.Insert | src/slot_map.rs:351-383 | moves the object to the state `SlotMapSpec.Insert` gives and returns its key; keeps `Valid()` with the popped free list |
| SlotMaps.SlotMap.InsertIntoVacantCell | src/slot_map.rs:358-366 | the reusing branch: storage, head and key as `SlotMapSpec.Insert` gives them |
| SlotMaps.SlotMap.InsertAtFillPoint | src/slot_map.rs:368-377 | the bump-allocating branch: storage, head and key as `SlotMapSpec.Insert` gives them |
| SlotMaps.SlotMap.GetRaw | src/slot_map.rs:451-458 | returns `SlotMapSpec.GetRaw` of the current state |
| SlotMaps.SlotMap.ContainsKeyRaw | src/slot_map.rs:701-709 | returns `SlotMapSpec.ContainsKeyRaw` of the current state |
| SlotMaps.SlotMap.WriteMutRaw | src/slot_map.rs:548-555 | reports whether `get_mut_raw` found a value; the new state is `SlotMapSpec.WriteMutRaw` of the old one, and `Valid()` is kept |
| SlotMaps.SlotMap.RemoveRaw | src/slot_map.rs:617-632 | state and result as `SlotMapSpec.RemoveRaw` gives them; `Valid()` is kept, with the routed cell pushed on the free list on a hit |
| SlotMaps.SlotMap.VacateLiveCell | src/slot_map.rs:625-627 | the live branch of remove: the state `SlotMapSpec.RemoveRaw` gives |
| SlotMaps.SlotMap.Drain | src/slot_map.rs:712-732 | a loop over every cell up to the fill point; state and yielded values as `SlotMapSpec.Drain` gives them; `Valid()` is kept with the drained free list |
| SlotMaps.SlotMap.DrainAt | src/slot_map.rs:722-728 | the closure on one cell: the state `DrainCell` gives, and the value when the cell was filled |
| SlotMaps.SlotMap.Clear | src/slot_map.rs:737-739 | the state `SlotMapSpec.Clear` gives; `Valid()` is kept |
| SlotMaps.SlotMap.Map | src/slot_map.rs:812-825 | a fresh map in state `SlotMapSpec.Map`, valid with the same free list |
| SlotMaps.SlotMap.Clone | src/slot_map.rs:828-836 | a fresh map whose state equals this one's, valid with the same free list |

Further members have no rows. Some are pure functions that state no contract of their own; the lemmas above are about them:

- `SlotStorage.GetSlot`, `GetExistingSlot`, `GetStorageSlot`, `SetExistingSlot`, `SetCurrentChunkSlot`, `IterCells`, `MapStorage`;
- `SlotMapSpec.GetRaw`, `GetMutRaw`, `WriteMutRaw`, `ContainsKeyRaw`, `Values`, `IterRaw`, `Map`, `Clone`, `Len`, `IsEmpty`;
- `SlotMapKeyData.Encode`, `DecodeAsWritten`, `IsFilled`.

The rest are proof helpers.

## Left out

- IncrementGeneration, SwapCoordinates, IncrementCoordinates: modelled as functions that return the updated key data, not as in-place mutation through `&mut self`. Key data is a `Copy` value stored inside cells, and a class would add aliasing the source does not have.
- IncrementGeneration: requires a generation of at most MAX_GENERATION, so the panic at src/slot_map_key_data.rs:47 is not modelled. Every key data the map stores is in range by the invariant, so the map never reaches it.
- IncrementCoordinates: requires `index_in_chunk < 0xFFFF`, so the u16 overflow of `index_in_chunk += 1` at src/slot_map_key_data.rs:69 is not modelled. The map only calls it on its head, whose index is at most 255 by the invariant.
- SlotStorage.Routable, SlotStorage.GetSlot, SlotMapSpec.GetRaw, SlotMapSpec.ContainsKeyRaw, SlotMaps.Slots.GetSlot, SlotMaps.SlotMap.GetRaw, SlotMaps.SlotMap.ContainsKeyRaw: require that the key can be routed. This excludes the `.unwrap()` panics at src/slot_map.rs:40 and src/slot_map.rs:45. The first cannot happen while `current_chunk_index == filled_chunks.len()`; the second is hit by a key with an index of 256 or more that is routed to the open chunk. Key data from the map, or from the 8-bit-masking `From<u64>`, always have an index below 256 (`LookupsReadRoutedCell` proves them routable).
- IncrementCoordinates, SlotMapSpec.Insert, SlotMaps.SlotMap.Insert: require `current_chunk_index < u32::MAX`. This rules out the u32 overflow of the chunk index after 2^32 chunks.
- InsertRemove.InsertReuseKeepsOthers, InsertRemove.InsertFreshKeepsOthers, InsertRemove.InsertKeepsOtherEntries, InsertRemove.RemoveKeepsOtherEntries, DrainIterate.LiveKeysIterated: stated only for key data naming an existing chunk. Key data naming a chunk past the open one, which only a forged key can have, are routed as the source routes them (`LateChunkKeysReadOpenChunk`), so they can alias a cell of the open chunk.
- `get_mut_raw` hands out a reference. It is modelled as the value it refers to (`GetMutRaw`) plus one write through it (`WriteMutRaw`); other uses of the reference are out of scope.
- `remove_raw` returns a reference to the removed value. It is modelled as the value.
- `iter_mut_raw`, `values_mut` and `iter_mut` differ from `iter_raw`, `values` and `iter` only by handing out mutable references; they are not modelled separately.
- `drain` is modelled as run to completion, as its `Drop` forces. The laziness of the iterator, and a caller observing the map midway, are out of scope.
- `map` and `iter` take an `FnMut` closure; the model treats it as a pure function.
- `Clone` is modelled with a `T::clone` that returns an equal value (`Identity`).
- The `Debug` impl (formatting), the `define_key_type!` macro, the marker trait, the handle wrappers (`get`, `get_unbounded` and the other `_unbounded` forms, which pass the key data to the `_raw` operations) and the benchmarks carry no behaviour of the core.
- Rust's debug-mode overflow panic in the multiplication of the decode as written is not modelled. The model uses wrapping multiplication, as release builds do.
- `Slots::map` builds its open chunk with `array!` before the struct is assembled. The model builds the array with a loop, with the same result.

## Findings

| source | as written | input that shows it | evidently intended | confidence | as-written member | corrected member |
|---|---|---|---|---|---|---|
| src/slot_map_key_data.rs:85-87 | `From<u64>` shifts the masked chunk bits right by `CHUNK_INDEX_BITS` (32), not by `CHUNK_INDEX_SHIFT` (8), so an encoded chunk c comes back as c div 2^24. It also multiplies the word by `GENERATION_MASK` instead of masking it. Truncated to 64 bits, that product leaves `-(index + 256 * chunk) mod 2^24` in the generation bits, so the key's own generation is lost. A key survives encode then decode only when its chunk is 0 and its generation is `-index mod 2^24`. For the same reason the head check in the test at src/slot_map.rs:1138-1141 cannot hold: 2688 decodes into (128, 0, 2^24 - 2688), not the head (128, 10, 0). | key data (0, 1, 0) comes back as (0, 0, 0xFFFF00); key data (0, 0, 2) comes back as (0, 0, 0); the word 2688 decodes into (128, 0, 16774528) | mask then shift by the same amounts the encode uses, so that decode inverts encode | not executed | SlotMapKeyData.DecodeAsWrittenBreaksRoundTrip | SlotMapKeyData.DecodeEncode |
