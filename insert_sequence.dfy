/**
 * A run of inserts into a new slot map: with no removal the free list stays
 * empty, every insert bump-allocates, and the layout after `n` inserts is
 * fixed by `n` alone.
 */
module InsertSequence {
  import opened SlotMapKeyData
  import opened SlotStorage
  import opened FreeList
  import opened SlotMapSpec
  import opened MapLookups
  import opened InsertRemove

  /** Largest number of inserts before the u32 chunk index would overflow */
  const MAX_FRESH_INSERTS: nat := U32_MAX * SLOT_MAP_CHUNK_SIZE

  /**
   * `vs` inserted in order into SlotMap::new, with the key data each insert
   * returned.  The free list stays empty and the fill point counts the inserts.
   */
  function InsertAll<T>(vs: seq<T>): (r: (MapState<T>, seq<KeyData>))
    requires |vs| <= MAX_FRESH_INSERTS
    ensures Valid(r.0, []) && FillPoint(r.0.slots) == |vs| && |r.1| == |vs|
    decreases |vs|
  {
    if vs == [] then (New(), [])
    else
      var n := |vs| - 1;
      var (m, ks) := InsertAll(vs[..n]);
      InsertAppendsFresh(m, vs[n]);
      var (m', k) := Insert(m, vs[n]);
      (m', ks + [k])
  }

  /** The key data the i-th fresh cell gets: its coordinates and generation 0 */
  predicate FreshKeyAt(k: KeyData, i: nat) {
    && k.indexInChunk < SLOT_MAP_CHUNK_SIZE
    && Position(k) == i
    && k.generation == 0
  }

  /** One more insert appends one fresh cell at the fill point */
  lemma InsertAllStep<T>(vs: seq<T>)
    requires 0 < |vs| <= MAX_FRESH_INSERTS
    ensures var n := |vs| - 1;
      var (m0, ks0) := InsertAll(vs[..n]);
      var (m, ks) := InsertAll(vs);
      && ks == ks0 + [FillPointKey(m0.slots)]
      && Cells(m.slots) == Cells(m0.slots) + [Slot(FillPointKey(m0.slots), vs[n])]
  {
    var n := |vs| - 1;
    InsertAppendsFresh(InsertAll(vs[..n]).0, vs[n]);
  }

  /** The head after a run of inserts is the fill point with generation 0 */
  lemma InsertAllHead<T>(vs: seq<T>)
    requires |vs| <= MAX_FRESH_INSERTS
    ensures var m := InsertAll(vs).0;
      && |m.slots.filledChunks| == m.slots.currentChunkIndex == |vs| / SLOT_MAP_CHUNK_SIZE
      && m.slots.currentChunkCursor == |vs| % SLOT_MAP_CHUNK_SIZE
      && m.nextOpenSlot == KeyData(|vs| % SLOT_MAP_CHUNK_SIZE, |vs| / SLOT_MAP_CHUNK_SIZE, 0)
  {
    EmptyListHeadAtFillPoint(InsertAll(vs).0);
  }

  /** With an empty free list the head names the fill point: chunk and cursor */
  lemma EmptyListHeadAtFillPoint<T>(m: MapState<T>)
    requires Valid(m, [])
    ensures var s := m.slots; var n := FillPoint(s);
      && |s.filledChunks| == s.currentChunkIndex == n / SLOT_MAP_CHUNK_SIZE
      && s.currentChunkCursor == n % SLOT_MAP_CHUNK_SIZE
      && m.nextOpenSlot == KeyData(n % SLOT_MAP_CHUNK_SIZE, n / SLOT_MAP_CHUNK_SIZE, 0)
  {
    var s, k := m.slots, m.nextOpenSlot;
    var n := FillPoint(s);
    assert Position(k) == n;
    DivModUnique(n, SLOT_MAP_CHUNK_SIZE, s.currentChunkIndex, s.currentChunkCursor);
    DivModUnique(n, SLOT_MAP_CHUNK_SIZE, k.chunkIndex, k.indexInChunk);
  }

  /**
   * The i-th insert of a run returned the key data of position i with
   * generation 0, and the i-th cell holds it with the i-th value.
   */
  lemma {:induction false} InsertAllCells<T>(vs: seq<T>)
    requires |vs| <= MAX_FRESH_INSERTS
    ensures var (m, ks) := InsertAll(vs);
      && |Cells(m.slots)| == |vs|
      && (forall i :: 0 <= i < |vs| ==> FreshKeyAt(ks[i], i) && Cells(m.slots)[i] == Slot(ks[i], vs[i]))
  {
    if vs != [] {
      var n := |vs| - 1;
      var (m0, ks0) := InsertAll(vs[..n]);
      var (m, ks) := InsertAll(vs);
      InsertAllCells(vs[..n]);
      InsertAllStep(vs);
      assert FreshKeyAt(ks[n], n);
      forall i | 0 <= i < |vs|
        ensures FreshKeyAt(ks[i], i) && Cells(m.slots)[i] == Slot(ks[i], vs[i])
      {
        if i < n {
          assert vs[..n][i] == vs[i];
        }
      }
    }
  }

  /**
   * Every key a run of inserts returned finds its own value, values lists
   * the inserted values in order and len counts them.
   */
  lemma InsertAllLookups<T>(vs: seq<T>, i: nat)
    requires |vs| <= MAX_FRESH_INSERTS && i < |vs|
    ensures var (m, ks) := InsertAll(vs);
      && Routable(m.slots, ks[i])
      && GetRaw(m, ks[i]) == Some(vs[i])
      && GetMutRaw(m, ks[i]) == Some(vs[i])
      && ContainsKeyRaw(m, ks[i])
  {
    var (m, ks) := InsertAll(vs);
    InsertAllCells(vs);
    assert FreshKeyAt(ks[i], i);
    LiveCellResolves(m, ks[i]);
  }

  lemma FilledValuesAppend<T>(cells: seq<Slot<T>>, x: Slot<T>)
    ensures FilledValues(cells + [x]) == FilledValues(cells) + (if IsFilled(x.key) then [x.value] else [])
  {
    assert (cells + [x])[..|cells|] == cells;
  }

  lemma FreshKeyFilled<T>(s: Storage<T>)
    ensures IsFilled(FillPointKey(s))
  {
  }

  lemma SplitLast<T>(vs: seq<T>)
    requires vs != []
    ensures vs[..|vs| - 1] + [vs[|vs| - 1]] == vs
  {
  }

  /** Values after a run of inserts are the inserted values, in insertion order */
  lemma {:induction false} InsertAllValues<T>(vs: seq<T>)
    requires |vs| <= MAX_FRESH_INSERTS
    ensures Values(InsertAll(vs).0) == vs && Len(InsertAll(vs).0) == |vs|
  {
    if vs != [] {
      var n := |vs| - 1;
      var (m0, ks0) := InsertAll(vs[..n]);
      var (m, ks) := InsertAll(vs);
      InsertAllValues(vs[..n]);
      InsertAllStep(vs);
      var x := Slot(FillPointKey(m0.slots), vs[n]);
      FreshKeyFilled(m0.slots);
      assert Cells(m.slots) == Cells(m0.slots) + [x];
      FilledValuesAppend(Cells(m0.slots), x);
      assert FilledValues(Cells(m0.slots) + [x]) == Values(m0) + [vs[n]];
      assert Values(m) == Values(m0) + [vs[n]];
      SplitLast(vs);
    }
  }

  /**
   * The first insert into a new map returns the key data packed as 0 and is
   * found under it, while the key data packed as 1 names the next cell,
   * which is not initialised, and misses.
   */
  lemma FirstInsertKey<T>(value: T)
    ensures var (m, k) := Insert(New(), value);
      && k == Decode(0) == DEFAULT_KEY
      && Routable(m.slots, Decode(0)) && GetRaw(m, Decode(0)) == Some(value)
      && Routable(m.slots, Decode(1)) && GetRaw(m, Decode(1)) == None
      && !ContainsKeyRaw(m, Decode(1))
  {
    DecodeZero();
    DecodeCount(1);
    var (m, k) := Insert(New(), value);
    InsertAllCells([value]);
    assert [value][..0] == [];
    InsertAllLookups([value], 0);
    LookupsReadRoutedCell(m.slots, Decode(1));
  }

  /**
   * After a run of inserts into a new map the head is the key data the
   * insert count decodes into (src/slot_map.rs:1138-1141).
   */
  lemma InsertAllHeadDecodes<T>(vs: seq<T>)
    requires |vs| <= MAX_FRESH_INSERTS
    ensures InsertAll(vs).0.nextOpenSlot == Decode(|vs|)
  {
    InsertAllHead(vs);
    DecodeCount(|vs|);
  }

  /**
   * The same head check with the decode as written fails for every insert
   * count that is not a multiple of 2^24, the 2688 of the test included: the
   * decoded generation is -n modulo 2^24, never the head's 0.
   */
  lemma InsertAllHeadAsWritten<T>(vs: seq<T>)
    requires |vs| <= MAX_FRESH_INSERTS && |vs| % 0x100_0000 != 0
    ensures DecodeAsWritten(|vs|).generation != 0
    ensures DecodeAsWritten(|vs|) != InsertAll(vs).0.nextOpenSlot
  {
    var n := |vs|;
    var g := (0x100_0000 - n % 0x100_0000) % 0x100_0000;
    assert DecodeAsWritten(n).generation == g by {
      DecodeAsWrittenCount(n);
    }
    assert g != 0 by {
      SmallMod(0x100_0000 - n % 0x100_0000, 0x100_0000);
    }
    assert InsertAll(vs).0.nextOpenSlot.generation == 0 by {
      InsertAllHead(vs);
    }
  }
}
