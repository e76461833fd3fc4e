/**
 * insert and remove_raw keep the invariant of the slot map and work the
 * intrusive free list as a stack: insert pops the head, remove pushes the
 * freed cell.
 */
module InsertRemove {
  import opened SlotMapKeyData
  import opened SlotStorage
  import opened FreeList
  import opened SlotMapSpec
  import opened MapLookups

  // ---------------------------------------------------------------------
  // insert
  // ---------------------------------------------------------------------

  /** The invariant after the key data of one cell is replaced and the head moves */
  lemma ValidAfterWrite<T>(m: MapState<T>, m': MapState<T>, p: nat, stored: KeyData, free': seq<nat>)
    requires WellFormed(m) && Shape(m'.slots) && FillPoint(m'.slots) == FillPoint(m.slots)
    requires p < |Keys(m)| && Keys(m') == Keys(m)[p := stored]
    requires InRange(stored) && Position(stored) <= FillPoint(m.slots)
    requires InRange(m'.nextOpenSlot) && Position(m'.nextOpenSlot) <= FillPoint(m.slots)
    requires m'.nextOpenSlot.generation == 0
    requires OwnCoordinates(Keys(m')) && FreeChain(Keys(m'), m'.nextOpenSlot, free')
    requires m'.len == CountFilled(Keys(m'))
    ensures Valid(m', free')
  {
    assert forall q :: 0 <= q < |Keys(m')| && q != p ==> Keys(m')[q] == Keys(m)[q];
  }

  /** The reusing branch of insert, stated on the cell the head names */
  lemma InsertReuseStep<T>(m: MapState<T>, value: T)
    requires WellFormed(m) && m.slots.currentChunkIndex < U32_MAX
    requires Position(m.nextOpenSlot) < FillPoint(m.slots)
    ensures RoutedPosition(m.slots, m.nextOpenSlot) == Position(m.nextOpenSlot)
    ensures GetExistingSlot(m.slots, m.nextOpenSlot) == Some(Cells(m.slots)[Position(m.nextOpenSlot)])
    ensures var cell := Cells(m.slots)[Position(m.nextOpenSlot)];
      var (stored, newHead) := SwapCoordinates(IncrementGeneration(cell.key), m.nextOpenSlot);
      Insert(m, value) == (MapState(SetExistingSlot(m.slots, m.nextOpenSlot, Slot(stored, value)), newHead, m.len + 1), stored)
  {
    var s, head := m.slots, m.nextOpenSlot;
    ReuseBranchBelowFillPoint(s, head);
    ReusedCellInitialised(s, head);
    LookupsReadRoutedCell(s, head);
  }

  /** What the reusing branch of insert does to the cells, the head and the count */
  lemma InsertReuseCells<T>(m: MapState<T>, value: T)
    requires WellFormed(m) && m.slots.currentChunkIndex < U32_MAX
    requires Position(m.nextOpenSlot) < FillPoint(m.slots)
    ensures var (m', k) := Insert(m, value); var p := Position(m.nextOpenSlot);
      && p < |Keys(m)|
      && SameCoordinates(k, m.nextOpenSlot) && InRange(k)
      && k.generation == NextGeneration(Keys(m)[p].generation)
      && IsFilled(k) != IsFilled(Keys(m)[p])
      && SameCoordinates(m'.nextOpenSlot, Keys(m)[p]) && InRange(m'.nextOpenSlot)
      && m'.nextOpenSlot.generation == m.nextOpenSlot.generation
      && Shape(m'.slots) && FillPoint(m'.slots) == FillPoint(m.slots)
      && Cells(m'.slots) == Cells(m.slots)[p := Slot(k, value)]
      && Keys(m') == Keys(m)[p := k]
      && m'.slots.currentChunkIndex == m.slots.currentChunkIndex
      && m'.slots.currentChunkCursor == m.slots.currentChunkCursor
      && |m'.slots.filledChunks| == |m.slots.filledChunks|
      && m'.len == m.len + 1
  {
    var s, head, p := m.slots, m.nextOpenSlot, Position(m.nextOpenSlot);
    InsertReuseStep(m, value);
    var cell := Cells(s)[p];
    assert cell.key == Keys(m)[p];
    var (stored, newHead) := SwapCoordinates(IncrementGeneration(cell.key), head);
    SetExistingSlotInCells(s, head, Slot(stored, value));
    KeysAfterWrite(Cells(s), p, Slot(stored, value));
  }

  /**
   * With a vacant cell on the free list, insert fills the cell the head
   * names: it gets the head's coordinates and the next generation, and the
   * head takes the link the cell held.
   */
  lemma InsertReusesHead<T>(m: MapState<T>, free: seq<nat>, value: T)
    requires Valid(m, free) && m.slots.currentChunkIndex < U32_MAX && free != []
    ensures var (m', k) := Insert(m, value);
      && Valid(m', free[1..])
      && Position(k) == free[0] && IsFilled(k) && InRange(k)
      && SameCoordinates(m'.nextOpenSlot, Keys(m)[free[0]])
      && k.generation == NextGeneration(Keys(m)[free[0]].generation)
      && Cells(m'.slots) == Cells(m.slots)[free[0] := Slot(k, value)]
      && m'.slots.currentChunkIndex == m.slots.currentChunkIndex
      && m'.slots.currentChunkCursor == m.slots.currentChunkCursor
      && |m'.slots.filledChunks| == |m.slots.filledChunks|
  {
    var keys, p := Keys(m), free[0];
    assert Position(m.nextOpenSlot) == p < |keys|;
    InsertReuseCells(m, value);
    var (m', k) := Insert(m, value);
    PopFree(keys, m.nextOpenSlot, free, k, m'.nextOpenSlot);
    CountFilledUpdate(keys, p, k);
    ValidAfterWrite(m, m', p, k, free[1..]);
  }

  /** What the bump-allocating branch of insert does to the cells, the head and the count */
  lemma InsertFreshCells<T>(m: MapState<T>, value: T)
    requires WellFormed(m) && m.slots.currentChunkIndex < U32_MAX
    requires Position(m.nextOpenSlot) == FillPoint(m.slots) && m.nextOpenSlot.generation == 0
    ensures var (m', k) := Insert(m, value);
      && k == m.nextOpenSlot == FillPointKey(m.slots)
      && Shape(m'.slots) && FillPoint(m'.slots) == FillPoint(m.slots) + 1
      && Cells(m'.slots) == Cells(m.slots) + [Slot(k, value)]
      && Keys(m') == Keys(m) + [k]
      && m'.nextOpenSlot == FillPointKey(m'.slots)
      && m'.len == m.len + 1
      && (m.slots.currentChunkCursor == SLOT_MAP_CHUNK_SIZE - 1 ==>
            m'.slots.currentChunkIndex == m.slots.currentChunkIndex + 1 && m'.slots.currentChunkCursor == 0)
      && (m.slots.currentChunkCursor < SLOT_MAP_CHUNK_SIZE - 1 ==>
            m'.slots.currentChunkIndex == m.slots.currentChunkIndex
            && m'.slots.currentChunkCursor == m.slots.currentChunkCursor + 1)
  {
    var s, head := m.slots, m.nextOpenSlot;
    ReuseBranchBelowFillPoint(s, head);
    FreshCellAtFillPoint(s, head);
    var x := Slot(head, value);
    if head.indexInChunk == SLOT_MAP_CHUNK_SIZE - 1 {
      AppendSealsOpenChunk(s, x);
    } else {
      AppendToOpenChunk(s, x);
    }
    KeysAfterAppend(Cells(s), x);
  }

  /** The invariant after one cell is appended at the fill point and the head moves */
  lemma ValidAfterAppend<T>(m: MapState<T>, m': MapState<T>, k: KeyData)
    requires WellFormed(m) && Shape(m'.slots) && FillPoint(m'.slots) == FillPoint(m.slots) + 1
    requires Keys(m') == Keys(m) + [k]
    requires InRange(k) && Position(k) <= FillPoint(m.slots)
    requires InRange(m'.nextOpenSlot) && Position(m'.nextOpenSlot) <= FillPoint(m'.slots)
    requires m'.nextOpenSlot.generation == 0
    requires OwnCoordinates(Keys(m')) && FreeChain(Keys(m'), m'.nextOpenSlot, [])
    requires m'.len == CountFilled(Keys(m'))
    ensures Valid(m', [])
  {
    assert forall q :: 0 <= q < |Keys(m)| ==> Keys(m')[q] == Keys(m)[q];
  }

  /**
   * With an empty free list, insert bump-allocates: the new cell is the fill
   * point, its key data has generation 0, the head moves to the next fill
   * point and a full open chunk is sealed.
   */
  lemma InsertAppendsFresh<T>(m: MapState<T>, value: T)
    requires Valid(m, []) && m.slots.currentChunkIndex < U32_MAX
    ensures var (m', k) := Insert(m, value);
      && Valid(m', [])
      && k == FillPointKey(m.slots)
      && Cells(m'.slots) == Cells(m.slots) + [Slot(k, value)]
      && m'.nextOpenSlot == FillPointKey(m'.slots)
      && FillPoint(m'.slots) == FillPoint(m.slots) + 1
      && (m.slots.currentChunkCursor == SLOT_MAP_CHUNK_SIZE - 1 ==>
            m'.slots.currentChunkIndex == m.slots.currentChunkIndex + 1 && m'.slots.currentChunkCursor == 0)
      && (m.slots.currentChunkCursor < SLOT_MAP_CHUNK_SIZE - 1 ==>
            m'.slots.currentChunkIndex == m.slots.currentChunkIndex
            && m'.slots.currentChunkCursor == m.slots.currentChunkCursor + 1)
  {
    var keys := Keys(m);
    InsertFreshCells(m, value);
    var (m', k) := Insert(m, value);
    assert InRange(m'.nextOpenSlot) && Position(m'.nextOpenSlot) == FillPoint(m'.slots);
    AppendFresh(keys, k, m'.nextOpenSlot);
    CountFilledAppend(keys, k);
    ValidAfterAppend(m, m', k);
  }

  /**
   * insert keeps the invariant: it pops the free list, or appends when the
   * list is empty, and returns in-range key data with an even generation.
   */
  lemma InsertValid<T>(m: MapState<T>, free: seq<nat>, value: T)
    requires Valid(m, free) && m.slots.currentChunkIndex < U32_MAX
    ensures var (m', k) := Insert(m, value);
      && Valid(m', Popped(free))
      && InRange(k) && IsFilled(k)
      && Position(k) < |Cells(m'.slots)| && Cells(m'.slots)[Position(k)] == Slot(k, value)
      && FillPoint(m'.slots) == FillPoint(m.slots) + (if free == [] then 1 else 0)
  {
    if free == [] {
      assert Popped(free) == [];
      InsertAppendsFresh(m, value);
    } else {
      assert Popped(free) == free[1..];
      InsertReusesHead(m, free, value);
    }
  }

  /** get, get_mut and contains_key find an inserted value under the key insert returned */
  lemma InsertThenGet<T>(m: MapState<T>, free: seq<nat>, value: T)
    requires Valid(m, free) && m.slots.currentChunkIndex < U32_MAX
    ensures var (m', k) := Insert(m, value);
      && Routable(m'.slots, k)
      && GetRaw(m', k) == Some(value)
      && GetMutRaw(m', k) == Some(value)
      && ContainsKeyRaw(m', k)
  {
    InsertValid(m, free, value);
    var (m', k) := Insert(m, value);
    LiveCellResolves(m', k);
  }

  /** Lookups that route to the same cell of two maps, holding the same slot in both, agree */
  lemma SameCellSameLookups<T>(m: MapState<T>, m': MapState<T>, k2: KeyData)
    requires Shape(m.slots) && Shape(m'.slots) && k2.indexInChunk < SLOT_MAP_CHUNK_SIZE
    requires RoutedPosition(m.slots, k2) == RoutedPosition(m'.slots, k2)
    requires var q := RoutedPosition(m.slots, k2);
      && (q < |Cells(m.slots)| <==> q < |Cells(m'.slots)|)
      && (q < |Cells(m.slots)| ==> Cells(m.slots)[q] == Cells(m'.slots)[q])
    ensures Routable(m.slots, k2) && Routable(m'.slots, k2)
    ensures GetRaw(m', k2) == GetRaw(m, k2) && GetMutRaw(m', k2) == GetMutRaw(m, k2)
  {
    LookupsReadRoutedCell(m.slots, k2);
    LookupsReadRoutedCell(m'.slots, k2);
    GetMutRawAgreesWithGetRaw(m, k2);
    GetMutRawAgreesWithGetRaw(m', k2);
  }

  /** The reusing branch of insert changes no lookup but the returned key's */
  lemma InsertReuseKeepsOthers<T>(m: MapState<T>, value: T, k2: KeyData)
    requires WellFormed(m) && m.slots.currentChunkIndex < U32_MAX
    requires Position(m.nextOpenSlot) < FillPoint(m.slots)
    requires var p := Position(m.nextOpenSlot); p < |Keys(m)| && !IsFilled(Keys(m)[p])
    requires k2.indexInChunk < SLOT_MAP_CHUNK_SIZE && k2.chunkIndex <= m.slots.currentChunkIndex
    requires k2 != Insert(m, value).1
    ensures Routable(m.slots, k2) && Routable(Insert(m, value).0.slots, k2)
    ensures GetRaw(Insert(m, value).0, k2) == GetRaw(m, k2)
    ensures GetMutRaw(Insert(m, value).0, k2) == GetMutRaw(m, k2)
  {
    InsertReuseCells(m, value);
    var (m', k) := Insert(m, value);
    var p, q := Position(m.nextOpenSlot), Position(k2);
    assert RoutedPosition(m.slots, k2) == q == RoutedPosition(m'.slots, k2);
    if q == p {
      assert Position(k) == p;
      PositionDeterminesCoordinates(k, k2);
      assert Cells(m'.slots)[p].key == k && k.generation != k2.generation;
      DeadCellMisses(m, k2);
      DeadCellMisses(m', k2);
    } else {
      SameCellSameLookups(m, m', k2);
    }
  }

  /** The bump-allocating branch of insert changes no lookup but the returned key's */
  lemma InsertFreshKeepsOthers<T>(m: MapState<T>, value: T, k2: KeyData)
    requires WellFormed(m) && m.slots.currentChunkIndex < U32_MAX
    requires Position(m.nextOpenSlot) == FillPoint(m.slots) && m.nextOpenSlot.generation == 0
    requires k2.indexInChunk < SLOT_MAP_CHUNK_SIZE && k2.chunkIndex <= m.slots.currentChunkIndex
    requires k2 != Insert(m, value).1
    ensures Routable(m.slots, k2) && Routable(Insert(m, value).0.slots, k2)
    ensures GetRaw(Insert(m, value).0, k2) == GetRaw(m, k2)
    ensures GetMutRaw(Insert(m, value).0, k2) == GetMutRaw(m, k2)
  {
    InsertFreshCells(m, value);
    var (m', k) := Insert(m, value);
    var q := Position(k2);
    assert RoutedPosition(m.slots, k2) == q == RoutedPosition(m'.slots, k2);
    if q == FillPoint(m.slots) {
      PositionDeterminesCoordinates(k, k2);
      assert Cells(m'.slots)[q].key == k && k.generation != k2.generation;
      LookupsReadRoutedCell(m.slots, k2);
      GetMutRawAgreesWithGetRaw(m, k2);
      DeadCellMisses(m', k2);
    } else {
      if q < |Cells(m.slots)| {
        assert Cells(m'.slots)[q] == (Cells(m.slots) + [Slot(k, value)])[q];
      }
      SameCellSameLookups(m, m', k2);
    }
  }

  /**
   * insert changes the lookup of no other key data naming an existing chunk:
   * it only writes a vacant cell or the cell at the fill point.
   */
  lemma InsertKeepsOtherEntries<T>(m: MapState<T>, free: seq<nat>, value: T, k2: KeyData)
    requires Valid(m, free) && m.slots.currentChunkIndex < U32_MAX
    requires k2.indexInChunk < SLOT_MAP_CHUNK_SIZE && k2.chunkIndex <= m.slots.currentChunkIndex
    requires k2 != Insert(m, value).1
    ensures Routable(m.slots, k2) && Routable(Insert(m, value).0.slots, k2)
    ensures GetRaw(Insert(m, value).0, k2) == GetRaw(m, k2)
    ensures GetMutRaw(Insert(m, value).0, k2) == GetMutRaw(m, k2)
  {
    if free == [] {
      InsertFreshKeepsOthers(m, value, k2);
    } else {
      assert Position(m.nextOpenSlot) == free[0] < |Keys(m)| && !IsFilled(Keys(m)[free[0]]);
      InsertReuseKeepsOthers(m, value, k2);
    }
  }

  // ---------------------------------------------------------------------
  // remove_raw
  // ---------------------------------------------------------------------

  /** What remove_raw does to the cells, the head and the count when it finds a live entry */
  lemma RemoveCells<T>(m: MapState<T>, k: KeyData)
    requires WellFormed(m) && GetMutRaw(m, k).Some?
    ensures k.indexInChunk < SLOT_MAP_CHUNK_SIZE
    ensures var (m', v) := RemoveRaw(m, k); var p := RoutedPosition(m.slots, k);
      && p < |Keys(m)|
      && IsFilled(Keys(m)[p]) && Keys(m)[p].generation == k.generation
      && v == Some(Cells(m.slots)[p].value)
      && Shape(m'.slots) && FillPoint(m'.slots) == FillPoint(m.slots)
      && m'.slots.currentChunkIndex == m.slots.currentChunkIndex
      && m'.slots.currentChunkCursor == m.slots.currentChunkCursor
      && Keys(m') == Keys(m)[p := Keys(m')[p]]
      && Cells(m'.slots) == Cells(m.slots)[p := Slot(Keys(m')[p], Cells(m.slots)[p].value)]
      && SameCoordinates(Keys(m')[p], m.nextOpenSlot) && InRange(Keys(m')[p])
      && Keys(m')[p].generation == NextGeneration(k.generation)
      && !IsFilled(Keys(m')[p])
      && SameCoordinates(m'.nextOpenSlot, Keys(m)[p]) && InRange(m'.nextOpenSlot)
      && m'.nextOpenSlot.generation == m.nextOpenSlot.generation
      && m'.len == m.len - 1
  {
    var s, head, keys := m.slots, m.nextOpenSlot, Keys(m);
    ExistingSlotInChunk(s, k);
    LookupsReadRoutedCell(s, k);
    var p := RoutedPosition(s, k);
    var cell := GetExistingSlot(s, k).value;
    assert cell == Cells(s)[p] && cell.key == keys[p];
    var (stored, newHead) := SwapCoordinates(IncrementGeneration(cell.key), head);
    SetExistingSlotInCells(s, k, Slot(stored, cell.value));
    KeysAfterWrite(Cells(s), p, Slot(stored, cell.value));
  }

  /**
   * remove_raw on a live key returns the resident value and pushes its cell
   * onto the free list: the cell keeps its value, takes the next (odd)
   * generation and the old head's coordinates, and the head names the cell.
   */
  lemma RemoveLiveKey<T>(m: MapState<T>, free: seq<nat>, k: KeyData)
    requires Valid(m, free) && GetMutRaw(m, k).Some?
    ensures k.indexInChunk < SLOT_MAP_CHUNK_SIZE
    ensures var (m', v) := RemoveRaw(m, k); var p := RoutedPosition(m.slots, k);
      && p < |Cells(m.slots)|
      && v == Some(Cells(m.slots)[p].value)
      && m'.len == m.len - 1
      && Valid(m', [p] + free)
      && Position(m'.nextOpenSlot) == p
      && (k.chunkIndex <= m.slots.currentChunkIndex ==> SameCoordinates(m'.nextOpenSlot, k))
      && SameCoordinates(Keys(m')[p], m.nextOpenSlot)
      && Keys(m')[p].generation == NextGeneration(k.generation)
      && !IsFilled(Keys(m')[p])
      && Cells(m'.slots) == Cells(m.slots)[p := Slot(Keys(m')[p], Cells(m.slots)[p].value)]
  {
    var keys := Keys(m);
    RemoveCells(m, k);
    var (m', v) := RemoveRaw(m, k);
    var p := RoutedPosition(m.slots, k);
    var stored := Keys(m')[p];
    assert Position(keys[p]) == p;
    PushFree(keys, m.nextOpenSlot, free, p, stored, m'.nextOpenSlot);
    CountFilledUpdate(keys, p, stored);
    ValidAfterWrite(m, m', p, stored, [p] + free);
    if k.chunkIndex <= m.slots.currentChunkIndex {
      PositionDeterminesCoordinates(keys[p], k);
    }
  }

  /** After remove_raw of a live key, get, get_mut and a second remove all miss */
  lemma RemoveThenMiss<T>(m: MapState<T>, k: KeyData)
    requires WellFormed(m) && GetMutRaw(m, k).Some?
    ensures var m' := RemoveRaw(m, k).0;
      && Routable(m'.slots, k)
      && GetRaw(m', k) == None && GetMutRaw(m', k) == None && RemoveRaw(m', k).1 == None
  {
    RemoveCells(m, k);
    var m' := RemoveRaw(m, k).0;
    DeadCellMisses(m', k);
  }

  /**
   * remove_raw changes the lookup of no other key data naming an existing
   * chunk.
   */
  lemma RemoveKeepsOtherEntries<T>(m: MapState<T>, k: KeyData, k2: KeyData)
    requires WellFormed(m) && GetMutRaw(m, k).Some?
    requires k.chunkIndex <= m.slots.currentChunkIndex
    requires k2.indexInChunk < SLOT_MAP_CHUNK_SIZE && k2.chunkIndex <= m.slots.currentChunkIndex
    requires k2 != k
    ensures Routable(m.slots, k2) && Routable(RemoveRaw(m, k).0.slots, k2)
    ensures GetRaw(RemoveRaw(m, k).0, k2) == GetRaw(m, k2)
    ensures GetMutRaw(RemoveRaw(m, k).0, k2) == GetMutRaw(m, k2)
  {
    RemoveCells(m, k);
    var m' := RemoveRaw(m, k).0;
    var p := RoutedPosition(m.slots, k);
    LookupsReadRoutedCell(m.slots, k2);
    LookupsReadRoutedCell(m'.slots, k2);
    GetMutRawAgreesWithGetRaw(m, k2);
    GetMutRawAgreesWithGetRaw(m', k2);
    if Position(k2) == p {
      PositionDeterminesCoordinates(k, k2);
      assert k2.generation != k.generation;
    }
  }

  /** An insert right after remove_raw refills the freed cell, stated on the cells */
  lemma RemoveThenInsertCells<T>(m: MapState<T>, free: seq<nat>, k: KeyData, value: T)
    requires Valid(m, free) && GetMutRaw(m, k).Some? && m.slots.currentChunkIndex < U32_MAX
    ensures k.indexInChunk < SLOT_MAP_CHUNK_SIZE && k.generation <= MAX_GENERATION
    ensures var (m2, k') := Insert(RemoveRaw(m, k).0, value); var p := RoutedPosition(m.slots, k);
      && Shape(m2.slots) && m2.slots.currentChunkIndex == m.slots.currentChunkIndex
      && Position(k') == p && p < |Cells(m2.slots)| && Cells(m2.slots)[p].key == k'
      && (k.chunkIndex <= m.slots.currentChunkIndex ==> SameCoordinates(k', k))
      && k'.generation == NextGeneration(NextGeneration(k.generation))
      && Routable(m2.slots, k') && GetRaw(m2, k') == Some(value)
  {
    var p := RoutedPosition(m.slots, k);
    var m1 := RemoveRaw(m, k).0;
    RemoveLiveKey(m, free, k);
    RemoveCells(m, k);
    assert ([p] + free)[0] == p;
    InsertReusesHead(m1, [p] + free, value);
    InsertThenGet(m1, [p] + free, value);
  }

  /**
   * Last in, first out: an insert right after remove_raw reuses the freed
   * cell under the same coordinates and a generation two steps on, and the
   * removed key stays dead.
   */
  lemma LifoReuse<T>(m: MapState<T>, free: seq<nat>, k: KeyData, value: T)
    requires Valid(m, free) && GetMutRaw(m, k).Some?
    requires k.chunkIndex <= m.slots.currentChunkIndex && m.slots.currentChunkIndex < U32_MAX
    ensures var (m2, k') := Insert(RemoveRaw(m, k).0, value);
      && SameCoordinates(k', k)
      && k'.generation == NextGeneration(NextGeneration(k.generation))
      && k' != k
      && Routable(m2.slots, k)
      && GetRaw(m2, k) == None
      && GetRaw(m2, k') == Some(value)
  {
    RemoveThenInsertCells(m, free, k, value);
    var (m2, k') := Insert(RemoveRaw(m, k).0, value);
    assert k'.generation != k.generation by {
      NextGenerationTwice(k.generation);
    }
    assert RoutedPosition(m2.slots, k) == RoutedPosition(m.slots, k);
    DeadCellMisses(m2, k);
  }

  /** remove_raw followed by insert leaves the head and the free list as they were */
  lemma RemoveThenInsertRestoresFreeList<T>(m: MapState<T>, free: seq<nat>, k: KeyData, value: T)
    requires Valid(m, free) && GetMutRaw(m, k).Some? && m.slots.currentChunkIndex < U32_MAX
    ensures var m2 := Insert(RemoveRaw(m, k).0, value).0;
      && m2.nextOpenSlot == m.nextOpenSlot
      && Valid(m2, free)
  {
    var p := RoutedPosition(m.slots, k);
    var m1 := RemoveRaw(m, k).0;
    assert Valid(m1, [p] + free) && SameCoordinates(Keys(m1)[p], m.nextOpenSlot) by {
      RemoveLiveKey(m, free, k);
    }
    var m2 := Insert(m1, value).0;
    assert Valid(m2, free) && SameCoordinates(m2.nextOpenSlot, Keys(m1)[p]) by {
      assert ([p] + free)[0] == p && ([p] + free)[1..] == free;
      InsertReusesHead(m1, [p] + free, value);
    }
  }
}
