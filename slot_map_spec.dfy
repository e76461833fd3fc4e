/**
 * The slot map itself, `Inner<T>` / `SlotMap<K, P, T>` in src/slot_map.rs, as
 * a value: the storage, the head of the free list (`next_open_slot`) and the
 * number of filled cells.  Every operation is a function from the old state
 * to the new one; the methods of `SlotMaps.SlotMap` are proved to follow them.
 *
 * A handle `K` is the pair of the caller's payload and the key data, so the
 * handle-bound entry points (`get`, `remove`, `contains_key`, ...) are the
 * same as the `_raw` ones on the key data.
 */
module SlotMapSpec {
  import opened SlotMapKeyData
  import opened SlotStorage
  import opened FreeList

  /** Inner<T> (src/slot_map.rs:248-252) */
  datatype MapState<T> = MapState(slots: Storage<T>, nextOpenSlot: KeyData, len: int)

  /** The key data stored in the cells, in flat order */
  function Keys<T>(m: MapState<T>): seq<KeyData> {
    KeysOf(Cells(m.slots))
  }

  /** Stored key data are in range and name a position up to `fill` */
  predicate KeysBounded(keys: seq<KeyData>, fill: nat) {
    forall p :: 0 <= p < |keys| ==> InRange(keys[p]) && Position(keys[p]) <= fill
  }

  /**
   * The structural facts that keep every operation free of panics: the
   * storage layout, and key data that are in range and never name a position
   * past the fill point.
   */
  predicate WellFormed<T>(m: MapState<T>) {
    && Shape(m.slots)
    && InRange(m.nextOpenSlot)
    && Position(m.nextOpenSlot) <= FillPoint(m.slots)
    && KeysBounded(Keys(m), FillPoint(m.slots))
  }

  /**
   * The invariant of a slot map with free list `free`: filled cells store
   * their own coordinates, `free` chains the vacant cells from the head to
   * the fill point, the head's generation is 0 and `len` counts the filled
   * cells.
   */
  predicate Valid<T>(m: MapState<T>, free: seq<nat>) {
    && WellFormed(m)
    && m.nextOpenSlot.generation == 0
    && OwnCoordinates(Keys(m))
    && FreeChain(Keys(m), m.nextOpenSlot, free)
    && m.len == CountFilled(Keys(m))
  }

  /** SlotMap::new (src/slot_map.rs:292-303) */
  function New<T>(): (m: MapState<T>)
    ensures Valid(m, [])
    ensures Cells(m.slots) == [] && m.nextOpenSlot == DEFAULT_KEY
  {
    MapState(NewStorage(), DEFAULT_KEY, 0)
  }

  /** SlotMap::len (src/slot_map.rs:317-319) */
  function Len<T>(m: MapState<T>): int {
    m.len
  }

  /** SlotMap::is_empty (src/slot_map.rs:335-337) */
  function IsEmpty<T>(m: MapState<T>): bool {
    m.len == 0
  }

  // ---------------------------------------------------------------------
  // insert
  // ---------------------------------------------------------------------

  /** The head names an initialised cell exactly when insert takes the reusing branch */
  lemma ReusedCellInitialised<T>(s: Storage<T>, k: KeyData)
    requires Shape(s) && InRange(k) && Position(k) <= FillPoint(s)
    requires k.chunkIndex < s.currentChunkIndex || k.indexInChunk < s.currentChunkCursor
    ensures RoutedPosition(s, k) == Position(k) < FillPoint(s)
  {
    if k.chunkIndex < s.currentChunkIndex {
      MulMonotone(SLOT_MAP_CHUNK_SIZE, k.chunkIndex + 1, s.currentChunkIndex);
    } else if k.chunkIndex > s.currentChunkIndex {
      MulMonotone(SLOT_MAP_CHUNK_SIZE, s.currentChunkIndex + 1, k.chunkIndex);
    }
  }

  /** Otherwise the head names the fill point itself */
  lemma FreshCellAtFillPoint<T>(s: Storage<T>, k: KeyData)
    requires Shape(s) && InRange(k) && Position(k) <= FillPoint(s)
    requires !(k.chunkIndex < s.currentChunkIndex || k.indexInChunk < s.currentChunkCursor)
    ensures k.chunkIndex == s.currentChunkIndex && k.indexInChunk == s.currentChunkCursor
  {
    if k.chunkIndex > s.currentChunkIndex {
      MulMonotone(SLOT_MAP_CHUNK_SIZE, s.currentChunkIndex + 1, k.chunkIndex);
    }
  }

  /**
   * SlotMap::insert (src/slot_map.rs:351-383).  When the head names an
   * initialised cell, that vacant cell is reused: its generation is
   * incremented, its coordinates are swapped with the head's and the value
   * is stored.  Otherwise the head names the fill point: a fresh cell is
   * written there with the head as its key data, and the fill point moves on,
   * sealing the open chunk when it is full.
   *
   * The `expect` at src/slot_map.rs:362 and those of the sealing step cannot
   * fail on a well-formed map: their conditions are proved where they are
   * used below.  `currentChunkIndex < U32_MAX` rules out the u32 overflow of
   * the chunk index.
   */
  function Insert<T>(m: MapState<T>, value: T): (r: (MapState<T>, KeyData))
    requires WellFormed(m)
    requires m.slots.currentChunkIndex < U32_MAX
    ensures r.0.len == m.len + 1
    ensures SameCoordinates(r.1, m.nextOpenSlot)
    ensures r.0.slots.currentChunkIndex <= m.slots.currentChunkIndex + 1
  {
    var s := m.slots;
    var next := m.nextOpenSlot;
    if next.chunkIndex < s.currentChunkIndex || next.indexInChunk < s.currentChunkCursor then
      ReusedCellInitialised(s, next);
      LookupsReadRoutedCell(s, next);
      var cell := GetExistingSlot(s, next).value;
      assert cell.key == Keys(m)[RoutedPosition(s, next)];
      var stored := IncrementGeneration(cell.key);
      var (stored', head) := SwapCoordinates(stored, next);
      (MapState(SetExistingSlot(s, next, Slot(stored', value)), head, m.len + 1), stored')
    else
      FreshCellAtFillPoint(s, next);
      var s1 := SetCurrentChunkSlot(s, next.indexInChunk, Some(Slot(next, value)));
      var (head, crossed) := IncrementCoordinates(next);
      if crossed then
        AppendSealsOpenChunk(s, Slot(next, value));
        (MapState(MoveCurrentChunkToFilledChunk(s1), head, m.len + 1), next)
      else
        (MapState(s1.(currentChunkCursor := s.currentChunkCursor + 1), head, m.len + 1), next)
  }

  // ---------------------------------------------------------------------
  // Lookups
  // ---------------------------------------------------------------------

  /** The cell a lookup found holds a live entry for `k` */
  predicate LiveFor<T>(cell: Option<Slot<T>>, k: KeyData) {
    cell.Some? && IsFilled(cell.value.key) && cell.value.key.generation == k.generation
  }

  /** SlotMap::get_raw (src/slot_map.rs:451-458) */
  function GetRaw<T>(m: MapState<T>, k: KeyData): Option<T>
    requires Routable(m.slots, k)
  {
    var cell := GetSlot(m.slots, k);
    if LiveFor(cell, k) then Some(cell.value.value) else None
  }

  /** SlotMap::get_mut_raw (src/slot_map.rs:548-555), the value it refers to */
  function GetMutRaw<T>(m: MapState<T>, k: KeyData): Option<T>
    requires m.slots.currentChunkCursor <= |m.slots.currentChunk|
  {
    var cell := GetExistingSlot(m.slots, k);
    if LiveFor(cell, k) then Some(cell.value.value) else None
  }

  /** A write of `v` through the reference get_mut_raw returns */
  function WriteMutRaw<T>(m: MapState<T>, k: KeyData, v: T): MapState<T>
    requires m.slots.currentChunkCursor <= |m.slots.currentChunk|
  {
    var cell := GetExistingSlot(m.slots, k);
    if LiveFor(cell, k) then m.(slots := SetExistingSlot(m.slots, k, Slot(cell.value.key, v)))
    else m
  }

  /**
   * SlotMap::contains_key_raw (src/slot_map.rs:701-709): compares the
   * generation only, so it does not check that the cell is filled.
   */
  function ContainsKeyRaw<T>(m: MapState<T>, k: KeyData): bool
    requires Routable(m.slots, k)
  {
    var cell := GetSlot(m.slots, k);
    cell.Some? && cell.value.key.generation == k.generation
  }

  // ---------------------------------------------------------------------
  // remove_raw
  // ---------------------------------------------------------------------

  /**
   * SlotMap::remove_raw (src/slot_map.rs:617-632): on a live entry the
   * generation of the cell is incremented, its coordinates are swapped with
   * the head's (pushing the cell onto the free list) and the resident value
   * is returned.  Otherwise nothing changes.
   */
  function RemoveRaw<T>(m: MapState<T>, k: KeyData): (r: (MapState<T>, Option<T>))
    requires WellFormed(m)
    ensures WellFormed(r.0)
    ensures r.0.slots.currentChunkIndex == m.slots.currentChunkIndex
    ensures FillPoint(r.0.slots) == FillPoint(m.slots)
    ensures r.1 == GetMutRaw(m, k)
    ensures r.1.None? ==> r.0 == m
    ensures r.1.Some? ==> r.0.len == m.len - 1
  {
    var s := m.slots;
    var cell := GetExistingSlot(s, k);
    if LiveFor(cell, k) then
      LookupsReadRoutedCell(s, k);
      var p := RoutedPosition(s, k);
      assert cell.value.key == Keys(m)[p];
      var (stored, head) := SwapCoordinates(IncrementGeneration(cell.value.key), m.nextOpenSlot);
      var r := MapState(SetExistingSlot(s, k, Slot(stored, cell.value.value)), head, m.len - 1);
      SetExistingSlotInCells(s, k, Slot(stored, cell.value.value));
      assert Keys(r) == Keys(m)[p := stored];
      (r, Some(cell.value.value))
    else
      (m, None)
  }

  // ---------------------------------------------------------------------
  // drain and clear
  // ---------------------------------------------------------------------

  /** Key data naming flat position `p` (generation 0) */
  function CellKey(p: nat): KeyData
    requires p / SLOT_MAP_CHUNK_SIZE < 0x1_0000_0000
  {
    KeyData(p % SLOT_MAP_CHUNK_SIZE, p / SLOT_MAP_CHUNK_SIZE, 0)
  }

  lemma CellKeyRoutes<T>(s: Storage<T>, p: nat)
    requires Shape(s) && p < FillPoint(s)
    ensures p / SLOT_MAP_CHUNK_SIZE <= s.currentChunkIndex
    ensures RoutedPosition(s, CellKey(p)) == p
    ensures GetExistingSlot(s, CellKey(p)).Some?
  {
    LookupsReadRoutedCell(s, CellKey(p));
  }

  /**
   * The closure drain runs on one cell (src/slot_map.rs:722-728), here on
   * flat position `p`: a filled cell has its generation incremented and its
   * coordinates swapped with the head's, and `len` drops by one.
   */
  function DrainCell<T>(m: MapState<T>, p: nat): (r: MapState<T>)
    requires WellFormed(m) && p < FillPoint(m.slots)
    ensures WellFormed(r)
    ensures r.slots.currentChunkIndex == m.slots.currentChunkIndex
    ensures r.slots.currentChunkCursor == m.slots.currentChunkCursor
    ensures Keys(r)[..p] == Keys(m)[..p] && Keys(r)[p + 1..] == Keys(m)[p + 1..]
    ensures Cells(r.slots)[p + 1..] == Cells(m.slots)[p + 1..]
    ensures !IsFilled(Keys(r)[p])
    ensures r.len == m.len - (if IsFilled(Keys(m)[p]) then 1 else 0)
  {
    var cell := Cells(m.slots)[p];
    assert cell.key == Keys(m)[p];
    if IsFilled(cell.key) then
      var (head, stored) := SwapCoordinates(m.nextOpenSlot, IncrementGeneration(cell.key));
      CellKeyRoutes(m.slots, p);
      SetExistingSlotInCells(m.slots, CellKey(p), Slot(stored, cell.value));
      var r := MapState(SetExistingSlot(m.slots, CellKey(p), Slot(stored, cell.value)), head, m.len - 1);
      assert Keys(r) == Keys(m)[p := stored];
      r
    else
      m
  }

  /** The state after drain's closure has run on the first `n` cells */
  function DrainPrefix<T>(m: MapState<T>, n: nat): (r: MapState<T>)
    requires WellFormed(m) && n <= FillPoint(m.slots)
    ensures WellFormed(r)
    ensures r.slots.currentChunkIndex == m.slots.currentChunkIndex
    ensures r.slots.currentChunkCursor == m.slots.currentChunkCursor
    ensures Cells(r.slots)[n..] == Cells(m.slots)[n..]
    ensures forall p :: 0 <= p < n ==> !IsFilled(Keys(r)[p])
    decreases n
  {
    if n == 0 then m
    else
      var before := DrainPrefix(m, n - 1);
      var r := DrainCell(before, n - 1);
      assert Cells(before.slots)[n - 1..][1..] == Cells(before.slots)[n..];
      VacantPrefixExtends(Keys(before), Keys(r), n);
      r
  }

  /**
   * The values drain's closure has yielded after its first `n` steps: step
   * n - 1 yields the value of the cell it reaches when that cell is filled.
   * That these are the live values of the first `n` cells, in flat order, is
   * DrainIterate.DrainYieldValues.
   */
  function DrainYield<T>(m: MapState<T>, n: nat): seq<T>
    requires WellFormed(m) && n <= FillPoint(m.slots)
    decreases n
  {
    if n == 0 then []
    else
      var cell := Cells(DrainPrefix(m, n - 1).slots)[n - 1];
      DrainYield(m, n - 1) + (if IsFilled(cell.key) then [cell.value] else [])
  }

  /** Vacating cell n - 1 after the cells below it extends the vacant prefix to n */
  lemma VacantPrefixExtends(keys: seq<KeyData>, keys': seq<KeyData>, n: nat)
    requires 0 < n <= |keys'| && n - 1 <= |keys| && keys'[..n - 1] == keys[..n - 1]
    requires forall p :: 0 <= p < n - 1 ==> !IsFilled(keys[p])
    requires !IsFilled(keys'[n - 1])
    ensures forall p :: 0 <= p < n ==> !IsFilled(keys'[p])
  {
    forall p | 0 <= p < n - 1
      ensures !IsFilled(keys'[p])
    {
      assert keys'[p] == keys'[..n - 1][p] == keys[..n - 1][p] == keys[p];
    }
  }

  /**
   * SlotMap::drain (src/slot_map.rs:712-732), run to completion as the Drop
   * of its iterator forces (src/slot_map.rs:859-868): the new state and the
   * values its steps yield.  That the values are the live values in flat
   * order, `len` becomes 0 and the invariant holds is DrainIterate.DrainEmpties.
   */
  function Drain<T>(m: MapState<T>): (r: (MapState<T>, seq<T>))
    requires WellFormed(m)
    ensures WellFormed(r.0)
    ensures forall p :: 0 <= p < |Keys(r.0)| ==> !IsFilled(Keys(r.0)[p])
  {
    (DrainPrefix(m, FillPoint(m.slots)), DrainYield(m, FillPoint(m.slots)))
  }

  /** SlotMap::clear (src/slot_map.rs:737-739) */
  function Clear<T>(m: MapState<T>): (r: MapState<T>)
    requires WellFormed(m)
  {
    Drain(m).0
  }

  // ---------------------------------------------------------------------
  // Iteration
  // ---------------------------------------------------------------------

  /** The values of the filled cells, in order */
  function FilledValues<T>(cells: seq<Slot<T>>): seq<T>
    decreases |cells|
  {
    if cells == [] then []
    else
      FilledValues(cells[..|cells| - 1])
      + (if IsFilled(cells[|cells| - 1].key) then [cells[|cells| - 1].value] else [])
  }

  /** SlotMap::values (src/slot_map.rs:792-798) */
  function Values<T>(m: MapState<T>): seq<T> {
    FilledValues(Cells(m.slots))
  }

  /** The entries whose enumerated key data is filled, as (key data, value) */
  function FilledEntries<T>(entries: seq<(KeyData, Slot<T>)>): seq<(KeyData, T)>
    decreases |entries|
  {
    if entries == [] then []
    else
      var last := entries[|entries| - 1];
      FilledEntries(entries[..|entries| - 1]) + (if IsFilled(last.0) then [(last.0, last.1.value)] else [])
  }

  /** SlotMap::iter_raw (src/slot_map.rs:771-777) */
  function IterRaw<T>(m: MapState<T>): seq<(KeyData, T)> {
    FilledEntries(IterCells(m.slots))
  }

  /**
   * SlotMap::iter (src/slot_map.rs:743-753): iter_raw with each key data
   * paired with the payload `pointer_finder` computes from the value, the
   * pair standing for the handle `K`.  What each handle carries and that
   * its key data resolve is DrainIterate.IterHandlesResolve.
   */
  function Iter<T, P>(m: MapState<T>, pointerFinder: T -> P): (r: seq<((P, KeyData), T)>)
    ensures |r| == |IterRaw(m)|
  {
    var entries := IterRaw(m);
    seq(|entries|, i requires 0 <= i < |entries| => ((pointerFinder(entries[i].1), entries[i].0), entries[i].1))
  }

  // ---------------------------------------------------------------------
  // map and clone
  // ---------------------------------------------------------------------

  /** SlotMap::map (src/slot_map.rs:812-825) */
  function Map<T, R>(m: MapState<T>, f: T -> R): MapState<R> {
    MapState(MapStorage(m.slots, f), m.nextOpenSlot, m.len)
  }

  /** Clone for SlotMap (src/slot_map.rs:828-836): `map(T::clone)` */
  function Clone<T>(m: MapState<T>): MapState<T> {
    Map(m, Identity)
  }
}
