/**
 * map and clone, which copy the layout and transform the values, and the
 * write through the reference get_mut_raw hands out.
 */
module MapWrite {
  import opened SlotMapKeyData
  import opened SlotStorage
  import opened FreeList
  import opened SlotMapSpec
  import opened MapLookups
  import opened InsertRemove

  function MapOption<T, R>(o: Option<T>, f: T -> R): Option<R> {
    match o
    case None => None
    case Some(v) => Some(f(v))
  }

  function MapValues<T, R>(vs: seq<T>, f: T -> R): (r: seq<R>)
    ensures |r| == |vs|
  {
    seq(|vs|, i requires 0 <= i < |vs| => f(vs[i]))
  }

  // ---------------------------------------------------------------------
  // map and clone
  // ---------------------------------------------------------------------

  /** Mapping the values leaves the key data of every cell alone */
  lemma KeysOfMapped<T, R>(cells: seq<Slot<T>>, f: T -> R)
    ensures KeysOf(MapCellValues(cells, f)) == KeysOf(cells)
  {
  }

  /** The filled values of the mapped cells are the mapped filled values */
  lemma {:induction false} FilledValuesMapped<T, R>(cells: seq<Slot<T>>, f: T -> R)
    ensures FilledValues(MapCellValues(cells, f)) == MapValues(FilledValues(cells), f)
  {
    if cells != [] {
      var n := |cells|;
      var init := cells[..n - 1];
      assert MapCellValues(cells, f)[..n - 1] == MapCellValues(init, f);
      FilledValuesMapped(init, f);
      var last := if IsFilled(cells[n - 1].key) then [cells[n - 1].value] else [];
      assert FilledValues(cells) == FilledValues(init) + last;
      assert MapValues(FilledValues(init) + last, f) == MapValues(FilledValues(init), f) + MapValues(last, f);
    }
  }

  /** Both storage lookups of a mapped storage read the mapped cell */
  lemma MapStorageLookups<T, R>(s: Storage<T>, f: T -> R, k: KeyData)
    requires s.currentChunkCursor <= |s.currentChunk|
    ensures MapStorage(s, f).currentChunkCursor <= |MapStorage(s, f).currentChunk|
    ensures GetExistingSlot(MapStorage(s, f), k) == MapOptionCell(GetExistingSlot(s, k), f)
    ensures Routable(s, k) <==> Routable(MapStorage(s, f), k)
    ensures Routable(s, k) ==> GetSlot(MapStorage(s, f), k) == MapOptionCell(GetSlot(s, k), f)
  {
  }

  /**
   * map (src/slot_map.rs:812-825) keeps the layout: the same key data in
   * every cell, the same head and `len`, so the invariant holds with the
   * same free list and values lists the mapped values in the same order.
   */
  lemma MapKeepsLayout<T, R>(m: MapState<T>, free: seq<nat>, f: T -> R)
    requires Valid(m, free)
    ensures var r := Map(m, f);
      && Valid(r, free)
      && Keys(r) == Keys(m)
      && FillPoint(r.slots) == FillPoint(m.slots)
      && Len(r) == Len(m) && r.nextOpenSlot == m.nextOpenSlot
      && Values(r) == MapValues(Values(m), f)
  {
    MapStorageCells(m.slots, f);
    KeysOfMapped(Cells(m.slots), f);
    FilledValuesMapped(Cells(m.slots), f);
  }

  /** Every lookup in a mapped map finds the mapped value, or misses as before */
  lemma MapLookupsMapped<T, R>(m: MapState<T>, f: T -> R, k: KeyData)
    requires m.slots.currentChunkCursor <= |m.slots.currentChunk|
    ensures Map(m, f).slots.currentChunkCursor <= |Map(m, f).slots.currentChunk|
    ensures GetMutRaw(Map(m, f), k) == MapOption(GetMutRaw(m, k), f)
    ensures Routable(m.slots, k) ==>
              && Routable(Map(m, f).slots, k)
              && GetRaw(Map(m, f), k) == MapOption(GetRaw(m, k), f)
              && ContainsKeyRaw(Map(m, f), k) == ContainsKeyRaw(m, k)
  {
    MapStorageLookups(m.slots, f, k);
  }

  /** clone (src/slot_map.rs:828-836) maps with `T::clone` and so copies the map exactly */
  lemma CloneEqual<T>(m: MapState<T>)
    ensures Clone(m) == m
  {
    MapStorageIdentity(m.slots);
  }

  // ---------------------------------------------------------------------
  // Writing through get_mut_raw
  // ---------------------------------------------------------------------

  /**
   * A write through the reference get_mut_raw returns replaces the value of
   * that one cell and nothing else: the key data, the head, `len` and with
   * them the invariant stay as they were.  Without a reference nothing
   * changes.
   */
  lemma WriteMutRawUpdates<T>(m: MapState<T>, free: seq<nat>, k: KeyData, v: T)
    requires Valid(m, free)
    ensures var r := WriteMutRaw(m, k, v);
      && Valid(r, free)
      && Keys(r) == Keys(m)
      && r.nextOpenSlot == m.nextOpenSlot && r.len == m.len
      && (GetMutRaw(m, k).None? ==> r == m)
      && (GetMutRaw(m, k).Some? ==>
            k.indexInChunk < SLOT_MAP_CHUNK_SIZE
            && Cells(r.slots) == Cells(m.slots)[RoutedPosition(m.slots, k) := Slot(Keys(m)[RoutedPosition(m.slots, k)], v)]
            && GetMutRaw(r, k) == Some(v))
  {
    var s := m.slots;
    if GetMutRaw(m, k).Some? {
      ExistingSlotInChunk(s, k);
      LookupsReadRoutedCell(s, k);
      var p := RoutedPosition(s, k);
      var x := Slot(Keys(m)[p], v);
      assert GetExistingSlot(s, k).value.key == Keys(m)[p];
      SetExistingSlotInCells(s, k, x);
      KeysAfterWrite(Cells(s), p, x);
      var r := WriteMutRaw(m, k, v);
      assert Keys(r) == Keys(m);
      LookupsReadRoutedCell(r.slots, k);
    }
  }

  /** A write through get_mut_raw changes no lookup that routes to another cell */
  lemma WriteMutRawKeepsOthers<T>(m: MapState<T>, free: seq<nat>, k: KeyData, v: T, k2: KeyData)
    requires Valid(m, free) && k2.indexInChunk < SLOT_MAP_CHUNK_SIZE
    requires GetMutRaw(m, k).Some? ==> RoutedPosition(m.slots, k2) != RoutedPosition(m.slots, k)
    ensures var r := WriteMutRaw(m, k, v);
      && Routable(m.slots, k2) && Routable(r.slots, k2)
      && GetRaw(r, k2) == GetRaw(m, k2)
      && GetMutRaw(r, k2) == GetMutRaw(m, k2)
  {
    WriteMutRawUpdates(m, free, k, v);
    var r := WriteMutRaw(m, k, v);
    assert RoutedPosition(m.slots, k2) == RoutedPosition(r.slots, k2);
    SameCellSameLookups(m, r, k2);
  }
}
