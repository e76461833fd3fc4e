/**
 * What the lookups of a slot map (get_raw, get_mut_raw, contains_key_raw)
 * return, stated over the flat view of the storage.
 */
module MapLookups {
  import opened SlotMapKeyData
  import opened SlotStorage
  import opened FreeList
  import opened SlotMapSpec

  /** Coordinates inside a chunk are determined by the flat position */
  lemma PositionDeterminesCoordinates(a: KeyData, b: KeyData)
    requires a.indexInChunk < SLOT_MAP_CHUNK_SIZE && b.indexInChunk < SLOT_MAP_CHUNK_SIZE
    requires Position(a) == Position(b)
    ensures SameCoordinates(a, b)
  {
    DivModUnique(Position(a), SLOT_MAP_CHUNK_SIZE, a.chunkIndex, a.indexInChunk);
    DivModUnique(Position(b), SLOT_MAP_CHUNK_SIZE, b.chunkIndex, b.indexInChunk);
  }

  /** The coordinates of flat position `p` */
  lemma CoordinatesOfPosition(k: KeyData, p: nat)
    requires k.indexInChunk < SLOT_MAP_CHUNK_SIZE && Position(k) == p
    ensures k.indexInChunk == p % SLOT_MAP_CHUNK_SIZE && k.chunkIndex == p / SLOT_MAP_CHUNK_SIZE
  {
    DivModUnique(p, SLOT_MAP_CHUNK_SIZE, k.chunkIndex, k.indexInChunk);
  }

  /** A key naming a position below the fill point names an existing chunk */
  lemma GenuinePositionRoutes<T>(s: Storage<T>, k: KeyData)
    requires Shape(s) && k.indexInChunk < SLOT_MAP_CHUNK_SIZE && Position(k) < FillPoint(s)
    ensures k.chunkIndex <= s.currentChunkIndex
    ensures RoutedPosition(s, k) == Position(k)
  {
    if k.chunkIndex > s.currentChunkIndex {
      MulMonotone(SLOT_MAP_CHUNK_SIZE, s.currentChunkIndex + 1, k.chunkIndex);
    }
  }

  /** The routing branch insert takes: reuse exactly when the head names an initialised cell */
  lemma ReuseBranchBelowFillPoint<T>(s: Storage<T>, k: KeyData)
    requires Shape(s) && InRange(k) && Position(k) <= FillPoint(s)
    ensures (k.chunkIndex < s.currentChunkIndex || k.indexInChunk < s.currentChunkCursor)
        <==> Position(k) < FillPoint(s)
  {
    if k.chunkIndex < s.currentChunkIndex || k.indexInChunk < s.currentChunkCursor {
      ReusedCellInitialised(s, k);
    } else {
      FreshCellAtFillPoint(s, k);
    }
  }

  /** A lookup that finds a cell only finds one below the chunk size */
  lemma ExistingSlotInChunk<T>(s: Storage<T>, k: KeyData)
    requires Shape(s) && GetExistingSlot(s, k).Some?
    ensures k.indexInChunk < SLOT_MAP_CHUNK_SIZE
  {
  }

  /**
   * get_raw and get_mut_raw agree on every key get_raw accepts: the two
   * storage lookups only differ on cells the map never reads.
   */
  lemma GetMutRawAgreesWithGetRaw<T>(m: MapState<T>, k: KeyData)
    requires Shape(m.slots) && Routable(m.slots, k)
    ensures GetMutRaw(m, k) == GetRaw(m, k)
  {
    if k.indexInChunk < SLOT_MAP_CHUNK_SIZE {
      LookupsReadRoutedCell(m.slots, k);
    }
  }

  /** The key data stored in a flat view after one cell is replaced */
  lemma KeysAfterWrite<T>(cells: seq<Slot<T>>, p: nat, x: Slot<T>)
    requires p < |cells|
    ensures KeysOf(cells[p := x]) == KeysOf(cells)[p := x.key]
  {
  }

  /** The key data stored in a flat view after one cell is appended */
  lemma KeysAfterAppend<T>(cells: seq<Slot<T>>, x: Slot<T>)
    ensures KeysOf(cells + [x]) == KeysOf(cells) + [x.key]
  {
  }

  /**
   * A cell storing its own coordinates and an even generation is found by
   * every lookup with exactly that key data.
   */
  lemma LiveCellResolves<T>(m: MapState<T>, k: KeyData)
    requires Shape(m.slots) && k.indexInChunk < SLOT_MAP_CHUNK_SIZE
    requires Position(k) < |Cells(m.slots)| && Cells(m.slots)[Position(k)].key == k
    requires IsFilled(k)
    ensures Routable(m.slots, k)
    ensures GetRaw(m, k) == Some(Cells(m.slots)[Position(k)].value)
    ensures GetMutRaw(m, k) == GetRaw(m, k)
    ensures ContainsKeyRaw(m, k)
  {
    GenuinePositionRoutes(m.slots, k);
    LookupsReadRoutedCell(m.slots, k);
  }

  /**
   * A key whose routed cell is vacant, or stores another generation, is
   * missed by get_raw and get_mut_raw.
   */
  lemma DeadCellMisses<T>(m: MapState<T>, k: KeyData)
    requires Shape(m.slots) && k.indexInChunk < SLOT_MAP_CHUNK_SIZE
    requires RoutedPosition(m.slots, k) < |Cells(m.slots)|
    requires var key := Cells(m.slots)[RoutedPosition(m.slots, k)].key;
      !IsFilled(key) || key.generation != k.generation
    ensures Routable(m.slots, k)
    ensures GetRaw(m, k) == None && GetMutRaw(m, k) == None
  {
    LookupsReadRoutedCell(m.slots, k);
  }

  /** In a map whose cells are all vacant every lookup misses */
  lemma AllVacantMisses<T>(m: MapState<T>, k: KeyData)
    requires Shape(m.slots)
    requires forall p :: 0 <= p < |Keys(m)| ==> !IsFilled(Keys(m)[p])
    ensures GetMutRaw(m, k) == None
    ensures Routable(m.slots, k) ==> GetRaw(m, k) == None
  {
    if k.indexInChunk < SLOT_MAP_CHUNK_SIZE {
      LookupsReadRoutedCell(m.slots, k);
      if GetSlot(m.slots, k).Some? {
        assert GetSlot(m.slots, k).value.key == Keys(m)[RoutedPosition(m.slots, k)];
      }
    }
  }

  /**
   * contains_key_raw agrees with get_raw on key data with an even
   * generation, and get_raw misses every key with an odd one.  On an odd
   * generation contains_key_raw still reports a vacant cell that stores it.
   */
  lemma ContainsKeyRawParity<T>(m: MapState<T>, k: KeyData)
    requires Routable(m.slots, k)
    ensures IsFilled(k) ==> (ContainsKeyRaw(m, k) <==> GetRaw(m, k).Some?)
    ensures !IsFilled(k) ==> GetRaw(m, k) == None
    ensures !IsFilled(k) ==>
      (ContainsKeyRaw(m, k) <==> GetSlot(m.slots, k).Some? && GetSlot(m.slots, k).value.key.generation == k.generation)
  {
  }

  /** Lookups send a key naming a chunk past the open one to the open chunk */
  lemma LateChunkKeysReadOpenChunk<T>(m: MapState<T>, k: KeyData)
    requires Shape(m.slots) && Routable(m.slots, k) && k.chunkIndex > m.slots.currentChunkIndex
    ensures var k' := k.(chunkIndex := m.slots.currentChunkIndex);
      && Routable(m.slots, k')
      && GetRaw(m, k) == GetRaw(m, k')
      && GetMutRaw(m, k) == GetMutRaw(m, k')
      && ContainsKeyRaw(m, k) == ContainsKeyRaw(m, k')
  {
    LookupsRouteLateChunksToOpenChunk(m.slots, k);
  }
}
