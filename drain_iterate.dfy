/**
 * drain and clear, the iterators and the mappers of a slot map, stated
 * against the invariant: drain pushes every filled cell onto the free list
 * in flat order, iter_raw and values list exactly the live entries, and map
 * and clone keep the layout.
 */
module DrainIterate {
  import opened SlotMapKeyData
  import opened SlotStorage
  import opened FreeList
  import opened SlotMapSpec
  import opened MapLookups
  import opened InsertRemove

  // ---------------------------------------------------------------------
  // drain and clear
  // ---------------------------------------------------------------------

  /** A filled cell stores key data naming its own position, inside its chunk */
  lemma FilledCellKey<T>(m: MapState<T>, free: seq<nat>, p: nat)
    requires Valid(m, free) && p < |Keys(m)| && IsFilled(Keys(m)[p])
    ensures var k := Keys(m)[p];
      && k.indexInChunk < SLOT_MAP_CHUNK_SIZE && Position(k) == p
      && k.indexInChunk == p % SLOT_MAP_CHUNK_SIZE && k.chunkIndex == p / SLOT_MAP_CHUNK_SIZE
      && k.chunkIndex <= m.slots.currentChunkIndex
      && RoutedPosition(m.slots, k) == p
      && Cells(m.slots)[p].key == k
  {
    var k := Keys(m)[p];
    assert InRange(k) && Position(k) == p;
    CoordinatesOfPosition(k, p);
    GenuinePositionRoutes(m.slots, k);
  }

  /**
   * One step of drain's closure on a filled cell is remove_raw with the key
   * data the cell stores: both increment the generation and swap the
   * coordinates with the head.
   */
  lemma DrainCellIsRemove<T>(m: MapState<T>, free: seq<nat>, p: nat)
    requires Valid(m, free) && p < FillPoint(m.slots) && IsFilled(Keys(m)[p])
    ensures GetMutRaw(m, Keys(m)[p]) == Some(Cells(m.slots)[p].value)
    ensures DrainCell(m, p) == RemoveRaw(m, Keys(m)[p]).0
  {
    var s, k := m.slots, Keys(m)[p];
    FilledCellKey(m, free, p);
    LiveCellResolves(m, k);
    LookupsReadRoutedCell(s, k);
    CellKeyRoutes(s, p);
  }

  /** Each step of drain keeps the invariant, pushing the cell when it was filled */
  lemma DrainCellValid<T>(m: MapState<T>, free: seq<nat>, p: nat)
    requires Valid(m, free) && p < FillPoint(m.slots)
    ensures var r := DrainCell(m, p);
      && Valid(r, if IsFilled(Keys(m)[p]) then [p] + free else free)
      && r.len == m.len - (if IsFilled(Keys(m)[p]) then 1 else 0)
  {
    if IsFilled(Keys(m)[p]) {
      var k := Keys(m)[p];
      DrainCellIsRemove(m, free, p);
      FilledCellKey(m, free, p);
      RemoveLiveKey(m, free, k);
    }
  }

  /** Number of filled cells among the first `n` */
  function CountFilledBelow(keys: seq<KeyData>, n: nat): nat
    requires n <= |keys|
  {
    if n == 0 then 0 else CountFilledBelow(keys, n - 1) + (if IsFilled(keys[n - 1]) then 1 else 0)
  }

  lemma {:induction false} CountFilledBelowAll(keys: seq<KeyData>, n: nat)
    requires n <= |keys|
    ensures CountFilledBelow(keys, n) == CountFilled(keys[..n])
  {
    if n > 0 {
      CountFilledBelowAll(keys, n - 1);
      assert keys[..n][..n - 1] == keys[..n - 1];
    }
  }

  /**
   * The free list after drain's closure has run on the first `n` cells: the
   * cells that were filled among them, the last one on top, above the old
   * free list.
   */
  function DrainedFree(keys: seq<KeyData>, n: nat, free: seq<nat>): (r: seq<nat>)
    requires n <= |keys|
    ensures |r| == |free| + CountFilledBelow(keys, n)
  {
    if n == 0 then free
    else
      var rest := DrainedFree(keys, n - 1, free);
      if IsFilled(keys[n - 1]) then [n - 1] + rest else rest
  }

  /** drain keeps the invariant after every prefix of cells */
  lemma {:induction false} DrainPrefixValid<T>(m: MapState<T>, free: seq<nat>, n: nat)
    requires Valid(m, free) && n <= FillPoint(m.slots)
    ensures Valid(DrainPrefix(m, n), DrainedFree(Keys(m), n, free))
  {
    if n > 0 {
      var keys, k := Keys(m), n - 1;
      var before := DrainPrefix(m, k);
      var free1 := DrainedFree(keys, k, free);
      assert Valid(before, free1) by {
        DrainPrefixValid(m, free, k);
      }
      assert k < FillPoint(before.slots) && Keys(before)[k] == keys[k]
          && DrainPrefix(m, n) == DrainCell(before, k)
          && DrainedFree(keys, n, free) == (if IsFilled(keys[k]) then [k] + free1 else free1) by {
        DrainPrefixStep(m, k, free);
        DrainPrefixKeepsRest(m, k);
      }
      DrainStepValid(before, free1, k, DrainPrefix(m, n), DrainedFree(keys, n, free));
    }
  }

  /** drain counts the filled cells among those it has visited off `len` */
  lemma {:induction false} DrainPrefixLen<T>(m: MapState<T>, n: nat)
    requires WellFormed(m) && n <= FillPoint(m.slots)
    ensures DrainPrefix(m, n).len == m.len - CountFilledBelow(Keys(m), n)
  {
    if n > 0 {
      var keys, k := Keys(m), n - 1;
      var before := DrainPrefix(m, k);
      assert before.len == m.len - CountFilledBelow(keys, k) by {
        DrainPrefixLen(m, k);
      }
      assert k < FillPoint(before.slots) && Keys(before)[k] == keys[k]
          && DrainPrefix(m, n) == DrainCell(before, k) by {
        DrainPrefixStep(m, k, []);
        DrainPrefixKeepsRest(m, k);
      }
      assert DrainCell(before, k).len == before.len - (if IsFilled(keys[k]) then 1 else 0);
    }
  }

  /** One step of the induction above, on states named by the caller */
  lemma DrainStepValid<T>(before: MapState<T>, free1: seq<nat>, k: nat, r: MapState<T>, free2: seq<nat>)
    requires Valid(before, free1) && k < FillPoint(before.slots)
    requires r == DrainCell(before, k)
    requires free2 == if IsFilled(Keys(before)[k]) then [k] + free1 else free1
    ensures Valid(r, free2)
  {
    DrainCellValid(before, free1, k);
  }

  /** The cells drain has not reached yet are untouched */
  lemma DrainPrefixKeepsRest<T>(m: MapState<T>, n: nat)
    requires WellFormed(m) && n < FillPoint(m.slots)
    ensures FillPoint(DrainPrefix(m, n).slots) == FillPoint(m.slots)
    ensures Keys(DrainPrefix(m, n))[n] == Keys(m)[n]
  {
    var r := DrainPrefix(m, n);
    assert Cells(r.slots)[n..][0] == Cells(m.slots)[n..][0];
  }

  /** The values of the first n + 1 cells: those of the first n and the next one if filled */
  lemma FilledValuesPrefixStep<T>(cells: seq<Slot<T>>, n: nat)
    requires n < |cells|
    ensures FilledValues(cells[..n + 1])
         == FilledValues(cells[..n]) + (if IsFilled(cells[n].key) then [cells[n].value] else [])
  {
    assert cells[..n + 1][..n] == cells[..n];
  }

  /** One more step of drain: the closure runs on the next cell, which is still as it was */
  lemma DrainPrefixStep<T>(m: MapState<T>, n: nat, free: seq<nat>)
    requires WellFormed(m) && n < FillPoint(m.slots) && n <= |Keys(m)|
    ensures DrainPrefix(m, n + 1) == DrainCell(DrainPrefix(m, n), n)
    ensures Cells(DrainPrefix(m, n).slots)[n] == Cells(m.slots)[n]
    ensures DrainedFree(Keys(m), n + 1, free)
         == if IsFilled(Keys(m)[n]) then [n] + DrainedFree(Keys(m), n, free) else DrainedFree(Keys(m), n, free)
  {
    var r := DrainPrefix(m, n);
    assert Cells(r.slots)[n..][0] == Cells(m.slots)[n..][0];
  }

  /** After n steps drain has yielded the live values of the first n cells, in flat order */
  lemma {:induction false} DrainYieldValues<T>(m: MapState<T>, n: nat)
    requires WellFormed(m) && n <= FillPoint(m.slots)
    ensures DrainYield(m, n) == FilledValues(Cells(m.slots)[..n])
    decreases n
  {
    if n > 0 {
      DrainYieldValues(m, n - 1);
      DrainPrefixStep(m, n - 1, []);
      FilledValuesPrefixStep(Cells(m.slots), n - 1);
    }
  }

  /**
   * drain run to completion (src/slot_map.rs:712-732 with the Drop at
   * 859-868): the map keeps its cells but every one is vacant and on the
   * free list, `len` is 0, every lookup misses, and the values yielded are
   * the live values in flat order, as many as `len` counted.
   */
  lemma DrainEmpties<T>(m: MapState<T>, free: seq<nat>)
    requires Valid(m, free)
    ensures var (r, vs) := Drain(m);
      && Valid(r, DrainedFree(Keys(m), FillPoint(m.slots), free))
      && r.len == 0 && IsEmpty(r)
      && FillPoint(r.slots) == FillPoint(m.slots)
      && vs == Values(m) && |vs| == m.len
      && (forall k :: GetMutRaw(r, k) == None)
      && (forall k :: Routable(r.slots, k) ==> GetRaw(r, k) == None)
  {
    var keys := Keys(m);
    var r := Drain(m).0;
    DrainPrefixValid(m, free, FillPoint(m.slots));
    DrainPrefixLen(m, FillPoint(m.slots));
    CountFilledBelowAll(keys, FillPoint(m.slots));
    assert keys[..FillPoint(m.slots)] == keys;
    DrainYieldValues(m, FillPoint(m.slots));
    assert Cells(m.slots)[..FillPoint(m.slots)] == Cells(m.slots);
    forall k
      ensures GetMutRaw(r, k) == None
      ensures Routable(r.slots, k) ==> GetRaw(r, k) == None
    {
      AllVacantMisses(r, k);
    }
    FilledValuesCount(Cells(m.slots));
  }

  /** clear (src/slot_map.rs:737-739) leaves an empty map with every cell on the free list */
  lemma ClearEmpties<T>(m: MapState<T>, free: seq<nat>)
    requires Valid(m, free)
    ensures var r := Clear(m);
      && Valid(r, DrainedFree(Keys(m), FillPoint(m.slots), free))
      && IsEmpty(r) && |Values(r)| == 0
      && (forall k :: GetMutRaw(r, k) == None)
  {
    DrainEmpties(m, free);
    var r := Clear(m);
    FilledValuesCount(Cells(r.slots));
  }

  // ---------------------------------------------------------------------
  // values and iter_raw
  // ---------------------------------------------------------------------

  /** values lists exactly one value per filled cell */
  lemma {:induction false} FilledValuesCount<T>(cells: seq<Slot<T>>)
    ensures |FilledValues(cells)| == CountFilled(KeysOf(cells))
  {
    if cells != [] {
      var init := cells[..|cells| - 1];
      FilledValuesCount(init);
      assert KeysOf(cells)[..|cells| - 1] == KeysOf(init);
    }
  }

  /** The values of a sequence of entries, in order */
  function EntryValues<T>(entries: seq<(KeyData, T)>): (r: seq<T>)
    ensures |r| == |entries|
    ensures forall i :: 0 <= i < |entries| ==> r[i] == entries[i].1
  {
    seq(|entries|, i requires 0 <= i < |entries| => entries[i].1)
  }

  /** Enumerated entries standing for the cells in flat order, with the generations they store */
  ghost predicate EntriesFollowCells<T>(entries: seq<(KeyData, Slot<T>)>, cells: seq<Slot<T>>) {
    && |entries| == |cells|
    && forall p :: 0 <= p < |entries| ==>
         entries[p].1 == cells[p] && entries[p].0.generation == cells[p].key.generation
  }

  lemma {:induction false} FilledEntriesValues<T>(entries: seq<(KeyData, Slot<T>)>, cells: seq<Slot<T>>)
    requires EntriesFollowCells(entries, cells)
    ensures EntryValues(FilledEntries(entries)) == FilledValues(cells)
  {
    if entries != [] {
      var n := |entries|;
      FilledEntriesValues(entries[..n - 1], cells[..n - 1]);
      var last := if IsFilled(entries[n - 1].0) then [(entries[n - 1].0, entries[n - 1].1.value)] else [];
      assert FilledEntries(entries) == FilledEntries(entries[..n - 1]) + last;
      assert EntryValues(FilledEntries(entries)) == EntryValues(FilledEntries(entries[..n - 1])) + EntryValues(last);
    }
  }

  lemma IterCellsFollowCells<T>(s: Storage<T>)
    requires Shape(s)
    ensures EntriesFollowCells(IterCells(s), Cells(s))
  {
    if |Cells(s)| > 0 {
      IterCellsAt(s, 0);
    } else {
      IterCellsLength(s);
    }
    forall p | 0 <= p < |Cells(s)|
      ensures p < |IterCells(s)| && IterCells(s)[p].1 == Cells(s)[p]
      ensures IterCells(s)[p].0.generation == Cells(s)[p].key.generation
    {
      IterCellsAt(s, p);
    }
  }

  lemma IterCellsLength<T>(s: Storage<T>)
    requires Shape(s)
    ensures |IterCells(s)| == |Cells(s)|
  {
    EnumerateLength(s.filledChunks);
    FlattenLength(s.filledChunks);
    SomeValuesAllSome(s.currentChunk[..s.currentChunkCursor]);
  }

  /**
   * len, values and iter_raw agree: values lists one value per filled cell,
   * iter_raw lists the same values in the same order, each with key data,
   * and there are `len` of them.
   */
  lemma LenCountsValues<T>(m: MapState<T>, free: seq<nat>)
    requires Valid(m, free)
    ensures Len(m) == |Values(m)| == |IterRaw(m)|
    ensures EntryValues(IterRaw(m)) == Values(m)
  {
    FilledValuesCount(Cells(m.slots));
    IterCellsFollowCells(m.slots);
    FilledEntriesValues(IterCells(m.slots), Cells(m.slots));
  }

  /** Every entry kept by the filter comes from a filled entry of the input */
  lemma {:induction false} FilledEntryOrigin<T>(entries: seq<(KeyData, Slot<T>)>, i: nat) returns (p: nat)
    requires i < |FilledEntries(entries)|
    ensures p < |entries| && IsFilled(entries[p].0)
    ensures FilledEntries(entries)[i] == (entries[p].0, entries[p].1.value)
  {
    var n := |entries|;
    var front := FilledEntries(entries[..n - 1]);
    if i < |front| {
      p := FilledEntryOrigin(entries[..n - 1], i);
    } else {
      p := n - 1;
    }
  }

  /** Every filled entry of the input is kept by the filter */
  lemma {:induction false} FilledEntryKept<T>(entries: seq<(KeyData, Slot<T>)>, p: nat)
    requires p < |entries| && IsFilled(entries[p].0)
    ensures (entries[p].0, entries[p].1.value) in FilledEntries(entries)
  {
    var n := |entries|;
    if p < n - 1 {
      FilledEntryKept(entries[..n - 1], p);
    }
  }

  /**
   * iter_raw only reports live entries: every key data it yields has an
   * even generation and get_raw finds the value it was yielded with.
   */
  lemma IterRawResolves<T>(m: MapState<T>, free: seq<nat>, i: nat)
    requires Valid(m, free) && i < |IterRaw(m)|
    ensures var (kd, v) := IterRaw(m)[i];
      && IsFilled(kd) && kd.chunkIndex <= m.slots.currentChunkIndex
      && Routable(m.slots, kd) && GetRaw(m, kd) == Some(v) && ContainsKeyRaw(m, kd)
  {
    var entries := IterCells(m.slots);
    var p := FilledEntryOrigin(entries, i);
    IterCellsLength(m.slots);
    IterCellsAt(m.slots, p);
    var kd := entries[p].0;
    assert IsFilled(Keys(m)[p]);
    FilledCellKey(m, free, p);
    assert kd == Keys(m)[p];
    LiveCellResolves(m, kd);
  }

  /**
   * iter_raw reports every live entry: key data naming an existing chunk
   * that get_mut_raw resolves is yielded together with its value.
   */
  lemma LiveKeysIterated<T>(m: MapState<T>, free: seq<nat>, k: KeyData)
    requires Valid(m, free) && GetMutRaw(m, k).Some? && k.chunkIndex <= m.slots.currentChunkIndex
    ensures (k, GetMutRaw(m, k).value) in IterRaw(m)
  {
    var s := m.slots;
    ExistingSlotInChunk(s, k);
    LookupsReadRoutedCell(s, k);
    var p := RoutedPosition(s, k);
    assert p == Position(k);
    var kd := Keys(m)[p];
    assert IsFilled(kd) && kd.generation == k.generation;
    FilledCellKey(m, free, p);
    PositionDeterminesCoordinates(kd, k);
    IterCellsLength(s);
    IterCellsAt(s, p);
    assert IterCells(s)[p].0 == kd == k;
    FilledEntryKept(IterCells(s), p);
  }

  /**
   * iter hands out one handle per live entry: its key data resolves to the
   * value it comes with, and its payload is what `pointer_finder` gives for
   * that value.
   */
  lemma IterHandlesResolve<T, P>(m: MapState<T>, free: seq<nat>, pointerFinder: T -> P, i: nat)
    requires Valid(m, free) && i < |Iter(m, pointerFinder)|
    ensures |Iter(m, pointerFinder)| == Len(m)
    ensures var ((payload, kd), v) := Iter(m, pointerFinder)[i];
      && payload == pointerFinder(v)
      && IsFilled(kd) && Routable(m.slots, kd) && GetRaw(m, kd) == Some(v)
  {
    LenCountsValues(m, free);
    IterRawResolves(m, free, i);
  }
}
