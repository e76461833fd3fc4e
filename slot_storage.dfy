/**
 * The cell storage of a slot map, `Slots<T>` in src/slot_map.rs, as a value.
 *
 * Cells live in sealed chunks of `SLOT_MAP_CHUNK_SIZE` initialised cells
 * (`filledChunks`) and in one open chunk of optional cells (`currentChunk`)
 * that is filled up to `currentChunkCursor`.  `currentChunkIndex` is the
 * chunk index the open chunk will receive when it is sealed.
 *
 * The flat view `Cells` (the sequence `Slots::values` yields) numbers the
 * cells by position `chunk * 256 + index`; every lookup and update below is
 * related to that view.
 */
module SlotStorage {
  import opened SlotMapKeyData

  datatype Option<T> = None | Some(value: T)

  /** A cell: the key data stored in it and its resident value */
  datatype Slot<T> = Slot(key: KeyData, value: T)

  datatype Storage<T> = Storage(
    currentChunk: seq<Option<Slot<T>>>,
    filledChunks: seq<seq<Slot<T>>>,
    currentChunkIndex: u32,
    currentChunkCursor: u16)

  // ---------------------------------------------------------------------
  // Structure
  // ---------------------------------------------------------------------

  /** Every sealed chunk holds a full chunk of cells */
  predicate SealedChunksFull<T>(chunks: seq<seq<Slot<T>>>) {
    forall c :: 0 <= c < |chunks| ==> |chunks[c]| == SLOT_MAP_CHUNK_SIZE
  }

  /** The open chunk is initialised exactly below the cursor */
  predicate OpenChunkFilledTo<T>(chunk: seq<Option<Slot<T>>>, cursor: nat) {
    && |chunk| == SLOT_MAP_CHUNK_SIZE
    && cursor < SLOT_MAP_CHUNK_SIZE
    && forall i :: 0 <= i < |chunk| ==> (chunk[i].Some? <==> i < cursor)
  }

  /** The layout every reachable storage has */
  predicate Shape<T>(s: Storage<T>) {
    && SealedChunksFull(s.filledChunks)
    && s.currentChunkIndex == |s.filledChunks|
    && OpenChunkFilledTo(s.currentChunk, s.currentChunkCursor)
  }

  /** Number of initialised cells: the position the next fresh cell gets */
  function FillPoint<T>(s: Storage<T>): nat {
    s.currentChunkIndex * SLOT_MAP_CHUNK_SIZE + s.currentChunkCursor
  }

  /** The key data naming the next fresh cell, with generation 0 */
  function FillPointKey<T>(s: Storage<T>): KeyData {
    KeyData(s.currentChunkCursor, s.currentChunkIndex, 0)
  }

  /** Slots::new (src/slot_map.rs:26-34) */
  function NewStorage<T>(): (s: Storage<T>)
    ensures Shape(s) && Cells(s) == [] && FillPoint(s) == 0
  {
    Storage(seq(SLOT_MAP_CHUNK_SIZE, _ => None), [], 0, 0)
  }

  // ---------------------------------------------------------------------
  // The flat view: Slots::values
  // ---------------------------------------------------------------------

  function Flatten<T>(chunks: seq<seq<Slot<T>>>): seq<Slot<T>>
    decreases |chunks|
  {
    if chunks == [] then [] else Flatten(chunks[..|chunks| - 1]) + chunks[|chunks| - 1]
  }

  /** `Iterator::take` on a sequence */
  function Take<X>(xs: seq<X>, n: nat): seq<X> {
    if n <= |xs| then xs[..n] else xs
  }

  /** `filter_map(Option::as_ref)`: the initialised cells, in order */
  function SomeValues<T>(cells: seq<Option<Slot<T>>>): seq<Slot<T>>
    decreases |cells|
  {
    if cells == [] then []
    else
      SomeValues(cells[..|cells| - 1])
      + (if cells[|cells| - 1].Some? then [cells[|cells| - 1].value] else [])
  }

  /**
   * Slots::values (src/slot_map.rs:108-120): the sealed chunks in order,
   * then the initialised cells of the open chunk below the cursor.  Which
   * cell sits where is stated by CellAt, LookupsReadRoutedCell and IterCellsAt.
   */
  function Cells<T>(s: Storage<T>): (r: seq<Slot<T>>)
    ensures Shape(s) ==> |r| == FillPoint(s)
  {
    if Shape(s) then
      FlattenLength(s.filledChunks);
      SomeValuesAllSome(s.currentChunk[..s.currentChunkCursor]);
      Flatten(s.filledChunks) + SomeValues(Take(s.currentChunk, s.currentChunkCursor))
    else
      Flatten(s.filledChunks) + SomeValues(Take(s.currentChunk, s.currentChunkCursor))
  }

  /** The key data stored in a sequence of cells */
  function KeysOf<T>(cells: seq<Slot<T>>): (r: seq<KeyData>)
    ensures |r| == |cells|
    ensures forall p :: 0 <= p < |cells| ==> r[p] == cells[p].key
  {
    seq(|cells|, p requires 0 <= p < |cells| => cells[p].key)
  }

  lemma {:induction false} FlattenLength<T>(chunks: seq<seq<Slot<T>>>)
    requires SealedChunksFull(chunks)
    ensures |Flatten(chunks)| == |chunks| * SLOT_MAP_CHUNK_SIZE
  {
    if chunks != [] {
      FlattenLength(chunks[..|chunks| - 1]);
    }
  }

  lemma {:induction false} FlattenIndex<T>(chunks: seq<seq<Slot<T>>>, c: nat, i: nat)
    requires SealedChunksFull(chunks) && c < |chunks| && i < SLOT_MAP_CHUNK_SIZE
    ensures c * SLOT_MAP_CHUNK_SIZE + i < |Flatten(chunks)|
    ensures Flatten(chunks)[c * SLOT_MAP_CHUNK_SIZE + i] == chunks[c][i]
  {
    var init := chunks[..|chunks| - 1];
    FlattenLength(init);
    FlattenLength(chunks);
    if c < |chunks| - 1 {
      FlattenIndex(init, c, i);
    }
  }

  lemma {:induction false} FlattenUpdate<T>(chunks: seq<seq<Slot<T>>>, c: nat, i: nat, x: Slot<T>)
    requires SealedChunksFull(chunks) && c < |chunks| && i < SLOT_MAP_CHUNK_SIZE
    ensures SealedChunksFull(chunks[c := chunks[c][i := x]])
    ensures c * SLOT_MAP_CHUNK_SIZE + i < |Flatten(chunks)|
    ensures Flatten(chunks[c := chunks[c][i := x]]) == Flatten(chunks)[c * SLOT_MAP_CHUNK_SIZE + i := x]
  {
    var n := |chunks|;
    var updated := chunks[c := chunks[c][i := x]];
    var init := chunks[..n - 1];
    FlattenLength(init);
    FlattenIndex(chunks, c, i);
    if c < n - 1 {
      FlattenUpdate(init, c, i, x);
      assert updated[..n - 1] == init[c := init[c][i := x]];
    } else {
      assert updated[..n - 1] == init;
    }
  }

  lemma FlattenAppend<T>(chunks: seq<seq<Slot<T>>>, chunk: seq<Slot<T>>)
    ensures Flatten(chunks + [chunk]) == Flatten(chunks) + chunk
  {
    assert (chunks + [chunk])[..|chunks|] == chunks;
  }

  lemma {:induction false} SomeValuesAllSome<T>(cells: seq<Option<Slot<T>>>)
    requires forall i :: 0 <= i < |cells| ==> cells[i].Some?
    ensures |SomeValues(cells)| == |cells|
    ensures forall i :: 0 <= i < |cells| ==> SomeValues(cells)[i] == cells[i].value
  {
    if cells != [] {
      SomeValuesAllSome(cells[..|cells| - 1]);
    }
  }

  /** A sealed cell sits at position `c * 256 + i` of the flat view */
  lemma CellOfSealedChunk<T>(s: Storage<T>, c: nat, i: nat)
    requires Shape(s) && c < |s.filledChunks| && i < SLOT_MAP_CHUNK_SIZE
    ensures c * SLOT_MAP_CHUNK_SIZE + i < |Cells(s)|
    ensures Cells(s)[c * SLOT_MAP_CHUNK_SIZE + i] == s.filledChunks[c][i]
  {
    FlattenIndex(s.filledChunks, c, i);
  }

  /** An open-chunk cell below the cursor sits after all sealed cells */
  lemma CellOfOpenChunk<T>(s: Storage<T>, i: nat)
    requires Shape(s) && i < s.currentChunkCursor
    ensures s.currentChunkIndex * SLOT_MAP_CHUNK_SIZE + i < |Cells(s)|
    ensures Cells(s)[s.currentChunkIndex * SLOT_MAP_CHUNK_SIZE + i] == s.currentChunk[i].value
  {
    FlattenLength(s.filledChunks);
    SomeValuesAllSome(s.currentChunk[..s.currentChunkCursor]);
  }

  /** Where the cell at flat position `p` is kept: a sealed chunk, or the open one below the cursor */
  lemma CellAt<T>(s: Storage<T>, p: nat)
    requires Shape(s) && p < |Cells(s)|
    ensures p / SLOT_MAP_CHUNK_SIZE <= s.currentChunkIndex as nat
    ensures var c, i := p / SLOT_MAP_CHUNK_SIZE, p % SLOT_MAP_CHUNK_SIZE;
      c < s.currentChunkIndex as nat ==> Cells(s)[p] == s.filledChunks[c][i]
    ensures var c, i := p / SLOT_MAP_CHUNK_SIZE, p % SLOT_MAP_CHUNK_SIZE;
      c == s.currentChunkIndex as nat ==>
        i < s.currentChunkCursor as nat && s.currentChunk[i].Some? && Cells(s)[p] == s.currentChunk[i].value
  {
    var cci := s.currentChunkIndex as nat;
    var c, i := p / SLOT_MAP_CHUNK_SIZE, p % SLOT_MAP_CHUNK_SIZE;
    assert p == c * SLOT_MAP_CHUNK_SIZE + i;
    assert c <= cci by {
      assert p < (cci + 1) * SLOT_MAP_CHUNK_SIZE;
    }
    if c < cci {
      CellOfSealedChunk(s, c, i);
    } else {
      assert i < s.currentChunkCursor as nat;
      CellOfOpenChunk(s, i);
    }
  }

  // ---------------------------------------------------------------------
  // Lookups: get_slot and get_existing_slot_mut
  // ---------------------------------------------------------------------

  /**
   * The key can be routed by `get_slot` without a panic: the sealed chunk
   * it names exists, or the open chunk has the index it names.
   */
  predicate Routable<T>(s: Storage<T>, k: KeyData) {
    && (k.chunkIndex < s.currentChunkIndex ==> k.chunkIndex < |s.filledChunks|)
    && (k.chunkIndex >= s.currentChunkIndex ==> k.indexInChunk < |s.currentChunk|)
  }

  /**
   * Flat position of the cell a key is routed to.  A chunk index at or past
   * `currentChunkIndex` is sent to the open chunk whatever its value.
   */
  function RoutedPosition<T>(s: Storage<T>, k: KeyData): nat {
    if k.chunkIndex < s.currentChunkIndex then Position(k)
    else s.currentChunkIndex * SLOT_MAP_CHUNK_SIZE + k.indexInChunk
  }

  /** Slots::get_slot (src/slot_map.rs:36-48) */
  function GetSlot<T>(s: Storage<T>, k: KeyData): Option<Slot<T>>
    requires Routable(s, k)
  {
    if k.chunkIndex < s.currentChunkIndex then
      var chunk := s.filledChunks[k.chunkIndex];
      if k.indexInChunk < |chunk| then Some(chunk[k.indexInChunk]) else None
    else
      s.currentChunk[k.indexInChunk]
  }

  /** Slots::get_storage_slot_mut (src/slot_map.rs:50-61), read side */
  function GetStorageSlot<T>(s: Storage<T>, k: KeyData): Option<Slot<T>> {
    if k.chunkIndex < |s.filledChunks| && k.indexInChunk < |s.filledChunks[k.chunkIndex]| then
      Some(s.filledChunks[k.chunkIndex][k.indexInChunk])
    else
      None
  }

  /**
   * Slots::get_existing_slot_mut (src/slot_map.rs:79-91), read side.  The
   * requires is the `expect` of get_current_chunk_slot_mut (src/slot_map.rs:70-72).
   */
  function GetExistingSlot<T>(s: Storage<T>, k: KeyData): Option<Slot<T>>
    requires s.currentChunkCursor <= |s.currentChunk|
  {
    if k.chunkIndex < s.currentChunkIndex then GetStorageSlot(s, k)
    else if k.indexInChunk < s.currentChunkCursor then s.currentChunk[k.indexInChunk]
    else None
  }

  /** A write through the reference get_existing_slot_mut returns */
  function SetExistingSlot<T>(s: Storage<T>, k: KeyData, x: Slot<T>): Storage<T>
    requires s.currentChunkCursor <= |s.currentChunk|
    requires GetExistingSlot(s, k).Some?
  {
    if k.chunkIndex < s.currentChunkIndex then
      s.(filledChunks := s.filledChunks[k.chunkIndex := s.filledChunks[k.chunkIndex][k.indexInChunk := x]])
    else
      s.(currentChunk := s.currentChunk[k.indexInChunk := Some(x)])
  }

  /**
   * A write through the reference get_current_chunk_slot_mut returns
   * (src/slot_map.rs:66-73); the requires is its `expect`.
   */
  function SetCurrentChunkSlot<T>(s: Storage<T>, index: nat, x: Option<Slot<T>>): Storage<T>
    requires index < |s.currentChunk|
  {
    s.(currentChunk := s.currentChunk[index := x])
  }

  /**
   * Both lookups read the cell at the routed position of the flat view, and
   * miss exactly when that position is not initialised.
   */
  lemma LookupsReadRoutedCell<T>(s: Storage<T>, k: KeyData)
    requires Shape(s) && k.indexInChunk < SLOT_MAP_CHUNK_SIZE
    ensures Routable(s, k)
    ensures GetExistingSlot(s, k) == GetSlot(s, k)
    ensures GetSlot(s, k).Some? <==> RoutedPosition(s, k) < |Cells(s)|
    ensures GetSlot(s, k).Some? ==> GetSlot(s, k).value == Cells(s)[RoutedPosition(s, k)]
  {
    if k.chunkIndex < s.currentChunkIndex {
      CellOfSealedChunk(s, k.chunkIndex, k.indexInChunk);
    } else if k.indexInChunk < s.currentChunkCursor {
      CellOfOpenChunk(s, k.indexInChunk);
    }
  }

  /** The lookups route a key naming a chunk past the open one to the open chunk */
  lemma LookupsRouteLateChunksToOpenChunk<T>(s: Storage<T>, k: KeyData)
    requires Routable(s, k) && s.currentChunkCursor <= |s.currentChunk|
    requires k.chunkIndex > s.currentChunkIndex
    ensures Routable(s, k.(chunkIndex := s.currentChunkIndex))
    ensures GetSlot(s, k) == GetSlot(s, k.(chunkIndex := s.currentChunkIndex))
    ensures GetExistingSlot(s, k) == GetExistingSlot(s, k.(chunkIndex := s.currentChunkIndex))
  {
  }

  /** An open-chunk write below the cursor replaces one cell of the flat view */
  lemma {:induction false} SomeValuesUpdate<T>(cells: seq<Option<Slot<T>>>, i: nat, x: Slot<T>)
    requires forall j :: 0 <= j < |cells| ==> cells[j].Some?
    requires i < |cells|
    ensures |SomeValues(cells)| == |cells|
    ensures SomeValues(cells[i := Some(x)]) == SomeValues(cells)[i := x]
  {
    SomeValuesAllSome(cells);
    SomeValuesAllSome(cells[i := Some(x)]);
  }

  /** A write through get_existing_slot_mut replaces the routed cell and nothing else */
  lemma SetExistingSlotInCells<T>(s: Storage<T>, k: KeyData, x: Slot<T>)
    requires Shape(s) && k.indexInChunk < SLOT_MAP_CHUNK_SIZE
    requires GetExistingSlot(s, k).Some?
    ensures RoutedPosition(s, k) < |Cells(s)|
    ensures Shape(SetExistingSlot(s, k, x))
    ensures FillPoint(SetExistingSlot(s, k, x)) == FillPoint(s)
    ensures |SetExistingSlot(s, k, x).filledChunks| == |s.filledChunks|
    ensures Cells(SetExistingSlot(s, k, x)) == Cells(s)[RoutedPosition(s, k) := x]
  {
    LookupsReadRoutedCell(s, k);
    var r := SetExistingSlot(s, k, x);
    if k.chunkIndex < s.currentChunkIndex {
      FlattenUpdate(s.filledChunks, k.chunkIndex, k.indexInChunk, x);
      assert Take(r.currentChunk, r.currentChunkCursor) == Take(s.currentChunk, s.currentChunkCursor);
      FlattenLength(s.filledChunks);
    } else {
      var cursor := s.currentChunkCursor;
      assert Take(r.currentChunk, cursor) == s.currentChunk[..cursor][k.indexInChunk := Some(x)];
      SomeValuesUpdate(s.currentChunk[..cursor], k.indexInChunk, x);
      FlattenLength(s.filledChunks);
    }
  }

  // ---------------------------------------------------------------------
  // Sealing the open chunk
  // ---------------------------------------------------------------------

  /**
   * Slots::move_current_chunk_to_filled_chunk (src/slot_map.rs:94-106).
   * The two requires are its `expect`s (src/slot_map.rs:98-100); the new
   * chunk index is `filled_chunks.len() as u32`, truncated.
   */
  function MoveCurrentChunkToFilledChunk<T>(s: Storage<T>): (r: Storage<T>)
    requires |s.currentChunk| == SLOT_MAP_CHUNK_SIZE
    requires forall i :: 0 <= i < |s.currentChunk| ==> s.currentChunk[i].Some?
    ensures |r.filledChunks| == |s.filledChunks| + 1
    ensures r.filledChunks[..|s.filledChunks|] == s.filledChunks
    ensures |r.filledChunks[|s.filledChunks|]| == SLOT_MAP_CHUNK_SIZE
    ensures forall i :: 0 <= i < SLOT_MAP_CHUNK_SIZE ==>
      r.filledChunks[|s.filledChunks|][i] == s.currentChunk[i].value
    ensures r.currentChunkCursor == 0
    ensures r.currentChunkIndex == (|s.filledChunks| + 1) % 0x1_0000_0000
    ensures OpenChunkFilledTo(r.currentChunk, 0)
  {
    var sealed := seq(SLOT_MAP_CHUNK_SIZE, i requires 0 <= i < SLOT_MAP_CHUNK_SIZE => s.currentChunk[i].value);
    Storage(seq(SLOT_MAP_CHUNK_SIZE, _ => None), s.filledChunks + [sealed],
            (|s.filledChunks| + 1) % 0x1_0000_0000, 0)
  }

  /**
   * A fresh cell written at the cursor of an open chunk that still has room
   * (the `current_chunk_cursor += 1` branch of insert) is appended to the
   * flat view.
   */
  lemma AppendToOpenChunk<T>(s: Storage<T>, x: Slot<T>)
    requires Shape(s) && s.currentChunkCursor < SLOT_MAP_CHUNK_SIZE - 1
    ensures var r := SetCurrentChunkSlot(s, s.currentChunkCursor, Some(x)).(currentChunkCursor := s.currentChunkCursor + 1);
      && Shape(r) && Cells(r) == Cells(s) + [x]
      && r.filledChunks == s.filledChunks && r.currentChunkIndex == s.currentChunkIndex
  {
    var cursor := s.currentChunkCursor;
    var r := SetCurrentChunkSlot(s, cursor, Some(x)).(currentChunkCursor := cursor + 1);
    assert Take(r.currentChunk, cursor + 1) == s.currentChunk[..cursor] + [Some(x)];
    assert (s.currentChunk[..cursor] + [Some(x)])[..cursor] == s.currentChunk[..cursor];
  }

  /**
   * A fresh cell written at the last index of the open chunk, followed by
   * sealing (the `increment_coordinates() == true` branch of insert), is
   * appended to the flat view; all expects of the sealing hold.
   */
  lemma AppendSealsOpenChunk<T>(s: Storage<T>, x: Slot<T>)
    requires Shape(s) && s.currentChunkCursor == SLOT_MAP_CHUNK_SIZE - 1
    requires s.currentChunkIndex < U32_MAX
    ensures var w := SetCurrentChunkSlot(s, s.currentChunkCursor, Some(x));
      && |w.currentChunk| == SLOT_MAP_CHUNK_SIZE
      && (forall i :: 0 <= i < |w.currentChunk| ==> w.currentChunk[i].Some?)
      && var r := MoveCurrentChunkToFilledChunk(w);
      && Shape(r) && Cells(r) == Cells(s) + [x]
      && r.currentChunkIndex == s.currentChunkIndex + 1 && r.currentChunkCursor == 0
  {
    var w := SetCurrentChunkSlot(s, s.currentChunkCursor, Some(x));
    var r := MoveCurrentChunkToFilledChunk(w);
    var sealed := r.filledChunks[|s.filledChunks|];
    assert r.filledChunks == s.filledChunks + [sealed];
    FlattenAppend(s.filledChunks, sealed);
    SomeValuesAllSome(s.currentChunk[..s.currentChunkCursor]);
    assert sealed == SomeValues(Take(s.currentChunk, s.currentChunkCursor)) + [x];
    assert Take(r.currentChunk, 0) == [];
  }

  // ---------------------------------------------------------------------
  // Slots::iter_raw
  // ---------------------------------------------------------------------

  /**
   * One chunk of iter_raw: each cell with key data built from the chunk
   * index, its index inside the chunk (`as u32` and `as u16` casts, which
   * truncate) and the generation the cell stores.
   */
  function EnumerateChunk<T>(chunk: seq<Slot<T>>, c: nat): seq<(KeyData, Slot<T>)> {
    seq(|chunk|, i requires 0 <= i < |chunk| =>
      (KeyData(i % 0x1_0000, c % 0x1_0000_0000, chunk[i].key.generation), chunk[i]))
  }

  function EnumerateChunks<T>(chunks: seq<seq<Slot<T>>>): seq<(KeyData, Slot<T>)>
    decreases |chunks|
  {
    if chunks == [] then []
    else EnumerateChunks(chunks[..|chunks| - 1]) + EnumerateChunk(chunks[|chunks| - 1], |chunks| - 1)
  }

  /**
   * Slots::iter_raw (src/slot_map.rs:141-175).  In the open chunk the index
   * is the count `enumerate` gives after `filter_map`.
   */
  function IterCells<T>(s: Storage<T>): seq<(KeyData, Slot<T>)> {
    EnumerateChunks(s.filledChunks)
    + EnumerateChunk(SomeValues(Take(s.currentChunk, s.currentChunkCursor)), s.currentChunkIndex)
  }

  lemma {:induction false} EnumerateChunksIndex<T>(chunks: seq<seq<Slot<T>>>, c: nat, i: nat)
    requires SealedChunksFull(chunks) && c < |chunks| < 0x1_0000_0000 && i < SLOT_MAP_CHUNK_SIZE
    ensures |EnumerateChunks(chunks)| == |Flatten(chunks)|
    ensures c * SLOT_MAP_CHUNK_SIZE + i < |EnumerateChunks(chunks)|
    ensures EnumerateChunks(chunks)[c * SLOT_MAP_CHUNK_SIZE + i]
      == (KeyData(i, c, chunks[c][i].key.generation), chunks[c][i])
  {
    var init, last := chunks[..|chunks| - 1], chunks[|chunks| - 1];
    assert SealedChunksFull(init) by {
      assert forall c' :: 0 <= c' < |init| ==> init[c'] == chunks[c'];
    }
    EnumerateLength(init);
    EnumerateLength(chunks);
    FlattenLength(init);
    var front := EnumerateChunks(init);
    assert EnumerateChunks(chunks) == front + EnumerateChunk(last, |init|);
    assert |front| == |init| * SLOT_MAP_CHUNK_SIZE;
    if c < |init| {
      EnumerateChunksIndex(init, c, i);
      assert c * SLOT_MAP_CHUNK_SIZE + i < |front| && chunks[c] == init[c];
    } else {
      assert c == |init| && |last| == SLOT_MAP_CHUNK_SIZE;
      EnumerateChunkAt(last, c, i);
    }
  }

  lemma EnumerateChunkAt<T>(chunk: seq<Slot<T>>, c: nat, i: nat)
    requires i < |chunk| && i < 0x1_0000 && c < 0x1_0000_0000
    ensures EnumerateChunk(chunk, c)[i] == (KeyData(i, c, chunk[i].key.generation), chunk[i])
  {
  }

  lemma {:induction false} EnumerateLength<T>(chunks: seq<seq<Slot<T>>>)
    ensures |EnumerateChunks(chunks)| == |Flatten(chunks)|
  {
    if chunks != [] {
      EnumerateLength(chunks[..|chunks| - 1]);
    }
  }

  /**
   * iter_raw yields every initialised cell in flat order, each with key data
   * naming its own position and carrying the generation the cell stores.
   */
  lemma IterCellsAt<T>(s: Storage<T>, p: nat)
    requires Shape(s) && p < |Cells(s)|
    ensures |IterCells(s)| == |Cells(s)|
    ensures IterCells(s)[p].1 == Cells(s)[p]
    ensures IterCells(s)[p].0.indexInChunk == p % SLOT_MAP_CHUNK_SIZE
    ensures IterCells(s)[p].0.chunkIndex == p / SLOT_MAP_CHUNK_SIZE
    ensures IterCells(s)[p].0.generation == Cells(s)[p].key.generation
  {
    var cci, cursor := s.currentChunkIndex as nat, s.currentChunkCursor as nat;
    var front := EnumerateChunks(s.filledChunks);
    var open := SomeValues(Take(s.currentChunk, cursor));
    assert |front| == cci * SLOT_MAP_CHUNK_SIZE && |Cells(s)| == cci * SLOT_MAP_CHUNK_SIZE + cursor by {
      EnumerateLength(s.filledChunks);
      FlattenLength(s.filledChunks);
    }
    assert |open| == cursor && forall j :: 0 <= j < cursor ==> open[j] == s.currentChunk[j].value by {
      SomeValuesAllSome(s.currentChunk[..cursor]);
    }
    var c, i := p / SLOT_MAP_CHUNK_SIZE, p % SLOT_MAP_CHUNK_SIZE;
    assert p == c * SLOT_MAP_CHUNK_SIZE + i;
    if c < cci {
      MulMonotone(SLOT_MAP_CHUNK_SIZE, c + 1, cci);
      assert IterCells(s)[p] == front[p];
      EnumerateChunksIndex(s.filledChunks, c, i);
      CellOfSealedChunk(s, c, i);
    } else {
      if c > cci {
        MulMonotone(SLOT_MAP_CHUNK_SIZE, cci + 1, c);
      }
      assert c == cci && i < cursor;
      assert IterCells(s)[p] == EnumerateChunk(open, cci)[i];
      EnumerateChunkAt(open, cci, i);
      CellOfOpenChunk(s, i);
    }
  }

  // ---------------------------------------------------------------------
  // Slots::map
  // ---------------------------------------------------------------------

  function MapCellValues<T, R>(cells: seq<Slot<T>>, f: T -> R): (r: seq<Slot<R>>)
    ensures |r| == |cells|
  {
    seq(|cells|, i requires 0 <= i < |cells| => Slot(cells[i].key, f(cells[i].value)))
  }

  function MapOptionCell<T, R>(cell: Option<Slot<T>>, f: T -> R): Option<Slot<R>> {
    match cell
    case None => None
    case Some(c) => Some(Slot(c.key, f(c.value)))
  }

  /**
   * Slots::map (src/slot_map.rs:223-242): every initialised cell keeps its
   * key data and has its value replaced by `f(value)`, vacant cells included.
   */
  function MapStorage<T, R>(s: Storage<T>, f: T -> R): Storage<R> {
    Storage(
      seq(|s.currentChunk|, i requires 0 <= i < |s.currentChunk| => MapOptionCell(s.currentChunk[i], f)),
      seq(|s.filledChunks|, c requires 0 <= c < |s.filledChunks| => MapCellValues(s.filledChunks[c], f)),
      s.currentChunkIndex,
      s.currentChunkCursor)
  }

  lemma MapStorageCells<T, R>(s: Storage<T>, f: T -> R)
    requires Shape(s)
    ensures Shape(MapStorage(s, f))
    ensures FillPoint(MapStorage(s, f)) == FillPoint(s)
    ensures Cells(MapStorage(s, f)) == MapCellValues(Cells(s), f)
  {
    var r := MapStorage(s, f);
    assert Shape(r);
    forall p | 0 <= p < |Cells(s)|
      ensures Cells(r)[p] == MapCellValues(Cells(s), f)[p]
    {
      CellAt(s, p);
      CellAt(r, p);
    }
  }

  /** `T::clone` on values: a clone is equal to the original */
  function Identity<T>(x: T): T { x }

  /** Mapping with the identity gives back the same storage */
  lemma MapStorageIdentity<T>(s: Storage<T>)
    ensures MapStorage(s, Identity) == s
  {
    var r := MapStorage(s, Identity);
    forall c | 0 <= c < |s.filledChunks|
      ensures r.filledChunks[c] == s.filledChunks[c]
    {
      var chunk := s.filledChunks[c];
      assert r.filledChunks[c] == MapCellValues(chunk, Identity);
      forall i | 0 <= i < |chunk|
        ensures MapCellValues(chunk, Identity)[i] == chunk[i]
      {
        assert Identity(chunk[i].value) == chunk[i].value;
      }
      assert MapCellValues(s.filledChunks[c], Identity) == s.filledChunks[c];
    }
    forall i | 0 <= i < |s.currentChunk|
      ensures r.currentChunk[i] == s.currentChunk[i]
    {
    }
  }
}
