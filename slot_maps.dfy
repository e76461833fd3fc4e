/**
 * The slot map as the program keeps it: `Slots<T>` with its open chunk in a
 * fixed array of 256 optional cells that is updated in place, and
 * `SlotMap` (`Inner<T>`) holding the storage, the head of the free list and
 * the count.  Every method is proved to move the object from the state
 * `State()` to the state the matching function of `SlotMapSpec` computes,
 * and to keep the invariant `Valid()` with a ghost free list.
 */
module SlotMaps {
  import opened SlotMapKeyData
  import opened SlotStorage
  import opened FreeList
  import opened SlotMapSpec
  import opened MapLookups
  import opened InsertRemove
  import opened DrainIterate
  import opened MapWrite

  /** Slots<T> (src/slot_map.rs:16-24) */
  class Slots<T> {
    const currentChunk: array<Option<Slot<T>>>
    var filledChunks: seq<seq<Slot<T>>>
    var currentChunkIndex: u32
    var currentChunkCursor: u16

    /** The storage as a value */
    ghost function Value(): Storage<T>
      reads this, currentChunk
    {
      Storage(currentChunk[..], filledChunks, currentChunkIndex, currentChunkCursor)
    }

    /** Slots::new (src/slot_map.rs:26-34) */
    constructor()
      ensures Value() == NewStorage() && fresh(currentChunk)
    {
      currentChunk := new Option<Slot<T>>[SLOT_MAP_CHUNK_SIZE](_ => None);
      filledChunks := [];
      currentChunkIndex := 0;
      currentChunkCursor := 0;
      new;
      assert currentChunk[..] == seq(SLOT_MAP_CHUNK_SIZE, _ => None);
    }

    /** A storage built from given parts, as the struct literal of Slots::map */
    constructor FromParts(chunk: array<Option<Slot<T>>>, filled: seq<seq<Slot<T>>>, index: u32, cursor: u16)
      ensures currentChunk == chunk && filledChunks == filled
      ensures currentChunkIndex == index && currentChunkCursor == cursor
    {
      currentChunk := chunk;
      filledChunks := filled;
      currentChunkIndex := index;
      currentChunkCursor := cursor;
    }

    /** Slots::get_slot (src/slot_map.rs:36-48) */
    method GetSlot(k: KeyData) returns (r: Option<Slot<T>>)
      requires Routable(Value(), k)
      ensures r == SlotStorage.GetSlot(Value(), k)
    {
      if k.chunkIndex < currentChunkIndex {
        var chunk := filledChunks[k.chunkIndex];
        if k.indexInChunk < |chunk| {
          r := Some(chunk[k.indexInChunk]);
        } else {
          r := None;
        }
      } else {
        r := currentChunk[k.indexInChunk];
      }
    }

    /** Slots::get_existing_slot_mut (src/slot_map.rs:79-91), read side */
    method GetExistingSlot(k: KeyData) returns (r: Option<Slot<T>>)
      requires currentChunkCursor as int <= currentChunk.Length
      ensures r == SlotStorage.GetExistingSlot(Value(), k)
    {
      if k.chunkIndex < currentChunkIndex {
        if k.chunkIndex < |filledChunks| && k.indexInChunk < |filledChunks[k.chunkIndex]| {
          r := Some(filledChunks[k.chunkIndex][k.indexInChunk]);
        } else {
          r := None;
        }
      } else if k.indexInChunk < currentChunkCursor {
        r := currentChunk[k.indexInChunk];
      } else {
        r := None;
      }
    }

    /** A write through the reference get_existing_slot_mut returns */
    method SetExistingSlot(k: KeyData, x: Slot<T>)
      requires currentChunkCursor as int <= currentChunk.Length
      requires SlotStorage.GetExistingSlot(Value(), k).Some?
      modifies this, currentChunk
      ensures Value() == SlotStorage.SetExistingSlot(old(Value()), k, x)
    {
      if k.chunkIndex < currentChunkIndex {
        filledChunks := filledChunks[k.chunkIndex := filledChunks[k.chunkIndex][k.indexInChunk := x]];
      } else {
        currentChunk[k.indexInChunk] := Some(x);
      }
    }

    /** A write through the reference get_current_chunk_slot_mut returns (src/slot_map.rs:66-73) */
    method SetCurrentChunkSlot(index: nat, x: Option<Slot<T>>)
      requires index < currentChunk.Length
      modifies currentChunk
      ensures Value() == SlotStorage.SetCurrentChunkSlot(old(Value()), index, x)
    {
      currentChunk[index] := x;
    }

    /**
     * Slots::move_current_chunk_to_filled_chunk (src/slot_map.rs:94-106):
     * takes every cell out of the open chunk, leaving it empty in place, and
     * pushes them as a sealed chunk.
     */
    method MoveCurrentChunkToFilledChunk()
      requires currentChunk.Length == SLOT_MAP_CHUNK_SIZE
      requires forall i :: 0 <= i < currentChunk.Length ==> currentChunk[i].Some?
      modifies this, currentChunk
      ensures Value() == SlotStorage.MoveCurrentChunkToFilledChunk(old(Value()))
    {
      ghost var taken := currentChunk[..];
      ghost var expected := SlotStorage.MoveCurrentChunkToFilledChunk(Value());
      var sealed: seq<Slot<T>> := [];
      var i := 0;
      while i < SLOT_MAP_CHUNK_SIZE
        modifies currentChunk
        invariant 0 <= i <= SLOT_MAP_CHUNK_SIZE
        invariant |sealed| == i
        invariant forall j :: 0 <= j < i ==> sealed[j] == taken[j].value && currentChunk[j] == None
        invariant forall j :: i <= j < SLOT_MAP_CHUNK_SIZE ==> currentChunk[j] == taken[j]
      {
        sealed := sealed + [currentChunk[i].value];
        currentChunk[i] := None;
        i := i + 1;
      }
      assert currentChunk[..] == expected.currentChunk;
      assert sealed == expected.filledChunks[|filledChunks|];
      filledChunks := filledChunks + [sealed];
      currentChunkIndex := |filledChunks| % 0x1_0000_0000;
      currentChunkCursor := 0;
      assert filledChunks == expected.filledChunks;
    }

    /** Slots::map (src/slot_map.rs:223-242): a new storage of mapped cells */
    method Map<R>(f: T -> R) returns (r: Slots<R>)
      ensures fresh(r) && fresh(r.currentChunk)
      ensures r.Value() == MapStorage(Value(), f)
    {
      var chunk := new Option<Slot<R>>[currentChunk.Length];
      var i := 0;
      while i < currentChunk.Length
        invariant 0 <= i <= currentChunk.Length
        invariant forall j :: 0 <= j < i ==> chunk[j] == MapOptionCell(currentChunk[j], f)
      {
        chunk[i] := MapOptionCell(currentChunk[i], f);
        i := i + 1;
      }
      var chunks := filledChunks;
      var filled := seq(|chunks|, c requires 0 <= c < |chunks| => MapCellValues(chunks[c], f));
      r := new Slots.FromParts(chunk, filled, currentChunkIndex, currentChunkCursor);
      ghost var cur := currentChunk[..];
      assert r.currentChunk[..] == seq(|cur|, j requires 0 <= j < |cur| => MapOptionCell(cur[j], f));
    }
  }

  /** The values drain has yielded and the free list it has built after one more cell */
  lemma DrainLoopStep<T>(cells: seq<Slot<T>>, keys: seq<KeyData>, list: seq<nat>, p: nat, p': nat, v: Option<T>,
                         drained: seq<T>, free: seq<nat>, drained': seq<T>, free': seq<nat>)
    requires p < |cells| && keys == KeysOf(cells) && p' == p + 1
    requires v == if IsFilled(cells[p].key) then Some(cells[p].value) else None
    requires drained == FilledValues(cells[..p]) && free == DrainedFree(keys, p, list)
    requires drained' == (if v.Some? then drained + [v.value] else drained)
    requires free' == (if IsFilled(keys[p]) then [p] + free else free)
    ensures drained' == FilledValues(cells[..p']) && free' == DrainedFree(keys, p', list)
  {
    FilledValuesPrefixStep(cells, p);
  }

  /** Inner<T> / SlotMap<K, P, T> (src/slot_map.rs:248-266) */
  class SlotMap<T> {
    const slots: Slots<T>
    var nextOpenSlot: KeyData
    var len: int
    /** The vacant cells in free-list order, from the head */
    ghost var free: seq<nat>

    /** The map as a value */
    ghost function State(): MapState<T>
      reads this, slots, slots.currentChunk
    {
      MapState(slots.Value(), nextOpenSlot, len)
    }

    ghost predicate Valid()
      reads this, slots, slots.currentChunk
    {
      SlotMapSpec.Valid(State(), free)
    }

    /** SlotMap::new (src/slot_map.rs:292-303) */
    constructor()
      ensures Valid() && State() == New() && free == []
      ensures fresh(slots) && fresh(slots.currentChunk)
    {
      slots := new Slots();
      nextOpenSlot := DEFAULT_KEY;
      len := 0;
      free := [];
    }

    /** A map built from given parts, as the struct literal of SlotMap::map */
    constructor FromParts(s: Slots<T>, next: KeyData, n: int, ghost list: seq<nat>)
      ensures slots == s && nextOpenSlot == next && len == n && free == list
    {
      slots := s;
      nextOpenSlot := next;
      len := n;
      free := list;
    }

    /** SlotMap::len (src/slot_map.rs:317-319) */
    method Len() returns (n: int)
      requires Valid()
      ensures n == SlotMapSpec.Len(State()) == |Values(State())|
    {
      LenCountsValues(State(), free);
      n := len;
    }

    /** SlotMap::is_empty (src/slot_map.rs:335-337) */
    method IsEmpty() returns (b: bool)
      requires Valid()
      ensures b == SlotMapSpec.IsEmpty(State())
      ensures b <==> Values(State()) == []
    {
      LenCountsValues(State(), free);
      b := len == 0;
    }

    /**
     * SlotMap::insert (src/slot_map.rs:351-383): reuses the cell at the head
     * of the free list, or writes a fresh cell at the fill point and seals
     * the open chunk when it is full.
     */
    method Insert(value: T) returns (k: KeyData)
      requires Valid() && slots.currentChunkIndex < U32_MAX
      modifies this, slots, slots.currentChunk
      ensures (State(), k) == SlotMapSpec.Insert(old(State()), value)
      ensures Valid() && free == Popped(old(free))
    {
      ghost var m, list := State(), free;
      ghost var r := SlotMapSpec.Insert(m, value);
      InsertValid(m, list, value);
      var next := nextOpenSlot;
      if next.chunkIndex < slots.currentChunkIndex || next.indexInChunk < slots.currentChunkCursor {
        k := InsertIntoVacantCell(value);
      } else {
        k := InsertAtFillPoint(value);
      }
      len := len + 1;
      free := Popped(free);
      assert State() == r.0 && free == Popped(list);
    }

    /** The reusing branch of insert, before `len` is incremented */
    method InsertIntoVacantCell(value: T) returns (k: KeyData)
      requires WellFormed(State()) && slots.currentChunkIndex < U32_MAX
      requires nextOpenSlot.chunkIndex < slots.currentChunkIndex || nextOpenSlot.indexInChunk < slots.currentChunkCursor
      modifies this`nextOpenSlot, slots, slots.currentChunk
      ensures var (r, key) := SlotMapSpec.Insert(old(State()), value);
        slots.Value() == r.slots && nextOpenSlot == r.nextOpenSlot && k == key
    {
      ghost var m := State();
      var next := nextOpenSlot;
      ReusedCellInitialised(m.slots, next);
      LookupsReadRoutedCell(m.slots, next);
      var cell := slots.GetExistingSlot(next);
      assert cell.value.key == Keys(m)[RoutedPosition(m.slots, next)];
      var stored := IncrementGeneration(cell.value.key);
      var (stored', head) := SwapCoordinates(stored, next);
      slots.SetExistingSlot(next, Slot(stored', value));
      nextOpenSlot := head;
      k := stored';
    }

    /** The bump-allocating branch of insert, before `len` is incremented */
    method InsertAtFillPoint(value: T) returns (k: KeyData)
      requires WellFormed(State()) && slots.currentChunkIndex < U32_MAX
      requires !(nextOpenSlot.chunkIndex < slots.currentChunkIndex || nextOpenSlot.indexInChunk < slots.currentChunkCursor)
      modifies this`nextOpenSlot, slots, slots.currentChunk
      ensures var (r, key) := SlotMapSpec.Insert(old(State()), value);
        slots.Value() == r.slots && nextOpenSlot == r.nextOpenSlot && k == key
    {
      ghost var m := State();
      var next := nextOpenSlot;
      FreshCellAtFillPoint(m.slots, next);
      slots.SetCurrentChunkSlot(next.indexInChunk, Some(Slot(next, value)));
      var (head, crossed) := IncrementCoordinates(next);
      if crossed {
        AppendSealsOpenChunk(m.slots, Slot(next, value));
        slots.MoveCurrentChunkToFilledChunk();
      } else {
        slots.currentChunkCursor := slots.currentChunkCursor + 1;
      }
      nextOpenSlot := head;
      k := next;
    }

    /** SlotMap::get_raw (src/slot_map.rs:451-458) */
    method GetRaw(k: KeyData) returns (r: Option<T>)
      requires Valid() && Routable(State().slots, k)
      ensures r == SlotMapSpec.GetRaw(State(), k)
    {
      var cell := slots.GetSlot(k);
      if cell.Some? && IsFilled(cell.value.key) && cell.value.key.generation == k.generation {
        r := Some(cell.value.value);
      } else {
        r := None;
      }
    }

    /** SlotMap::contains_key_raw (src/slot_map.rs:701-709) */
    method ContainsKeyRaw(k: KeyData) returns (b: bool)
      requires Valid() && Routable(State().slots, k)
      ensures b == SlotMapSpec.ContainsKeyRaw(State(), k)
    {
      var cell := slots.GetSlot(k);
      b := cell.Some? && cell.value.key.generation == k.generation;
    }

    /**
     * SlotMap::get_mut_raw (src/slot_map.rs:548-555) followed by a write of
     * `v` through the reference it returns, when it returns one.
     */
    method WriteMutRaw(k: KeyData, v: T) returns (found: bool)
      requires Valid()
      modifies slots, slots.currentChunk
      ensures found == SlotMapSpec.GetMutRaw(old(State()), k).Some?
      ensures State() == SlotMapSpec.WriteMutRaw(old(State()), k, v)
      ensures Valid()
    {
      WriteMutRawUpdates(State(), free, k, v);
      var cell := slots.GetExistingSlot(k);
      found := cell.Some? && IsFilled(cell.value.key) && cell.value.key.generation == k.generation;
      if found {
        slots.SetExistingSlot(k, Slot(cell.value.key, v));
      }
    }

    /**
     * SlotMap::remove_raw (src/slot_map.rs:617-632): on a live entry the
     * cell takes the next generation and is pushed onto the free list.
     */
    method RemoveRaw(k: KeyData) returns (r: Option<T>)
      requires Valid()
      modifies this, slots, slots.currentChunk
      ensures (State(), r) == SlotMapSpec.RemoveRaw(old(State()), k)
      ensures Valid()
      ensures free == if r.Some? then [RoutedPosition(old(State()).slots, k)] + old(free) else old(free)
    {
      ghost var m, list := State(), free;
      var cell := slots.GetExistingSlot(k);
      if cell.Some? && IsFilled(cell.value.key) && cell.value.key.generation == k.generation {
        VacateLiveCell(k, cell.value);
        free := [RoutedPosition(m.slots, k)] + free;
        r := Some(cell.value.value);
        RemoveLiveKey(m, list, k);
      } else {
        r := None;
      }
    }

    /** The live branch of remove_raw: the count drops and the cell joins the free list */
    method VacateLiveCell(k: KeyData, cell: Slot<T>)
      requires WellFormed(State())
      requires SlotStorage.GetExistingSlot(State().slots, k) == Some(cell)
      requires IsFilled(cell.key) && cell.key.generation == k.generation
      modifies this`len, this`nextOpenSlot, slots, slots.currentChunk
      ensures State() == SlotMapSpec.RemoveRaw(old(State()), k).0
    {
      ghost var m := State();
      ExistingSlotInChunk(m.slots, k);
      LookupsReadRoutedCell(m.slots, k);
      assert cell.key == Keys(m)[RoutedPosition(m.slots, k)];
      len := len - 1;
      var (stored, head) := SwapCoordinates(IncrementGeneration(cell.key), nextOpenSlot);
      slots.SetExistingSlot(k, Slot(stored, cell.value));
      nextOpenSlot := head;
    }

    /**
     * SlotMap::drain (src/slot_map.rs:712-732), run to completion as the
     * Drop of its iterator forces (src/slot_map.rs:859-868): every filled
     * cell, in flat order, takes the next generation and is pushed onto the
     * free list, and its value is yielded.
     */
    method Drain() returns (drained: seq<T>)
      requires Valid()
      modifies this, slots, slots.currentChunk
      ensures (State(), drained) == SlotMapSpec.Drain(old(State()))
      ensures Valid() && free == DrainedFree(Keys(old(State())), FillPoint(old(State()).slots), old(free))
    {
      ghost var m, list := State(), free;
      var fill := slots.currentChunkIndex as nat * SLOT_MAP_CHUNK_SIZE + slots.currentChunkCursor as nat;
      drained := [];
      var p: nat := 0;
      while p < fill
        invariant p <= fill == FillPoint(m.slots) == |Cells(m.slots)|
        invariant DrainedTo(m, list, p, drained)
      {
        drained := DrainNext(m, list, p, drained);
        p := p + 1;
      }
      DrainDone(m, list, p, drained);
      DrainPrefixValid(m, list, p);
    }

    /** After the closure has run on the first `p` cells of `m` */
    ghost predicate DrainedTo(m: MapState<T>, list: seq<nat>, p: nat, drained: seq<T>)
      reads this, slots, slots.currentChunk
    {
      && WellFormed(m) && p <= FillPoint(m.slots)
      && State() == DrainPrefix(m, p)
      && drained == FilledValues(Cells(m.slots)[..p])
      && free == DrainedFree(Keys(m), p, list)
    }

    /** One iteration of drain: the closure on cell `p` */
    method DrainNext(ghost m: MapState<T>, ghost list: seq<nat>, p: nat, drained: seq<T>) returns (drained': seq<T>)
      requires DrainedTo(m, list, p, drained) && p < FillPoint(m.slots)
      modifies this, slots, slots.currentChunk
      ensures DrainedTo(m, list, p + 1, drained')
    {
      ghost var cells, keys := Cells(m.slots), Keys(m);
      var p' := p + 1;
      ghost var before, after := DrainPrefix(m, p), DrainPrefix(m, p');
      DrainPrefixStep(m, p, list);
      var v := DrainAt(p, before, after);
      drained' := if v.Some? then drained + [v.value] else drained;
      ghost var free' := if IsFilled(keys[p]) then [p] + free else free;
      DrainLoopStep(cells, keys, list, p, p', v, drained, free, drained', free');
      free := free';
    }

    /** When drain has reached the fill point */
    lemma DrainDone(m: MapState<T>, list: seq<nat>, p: nat, drained: seq<T>)
      requires DrainedTo(m, list, p, drained) && p == FillPoint(m.slots) == |Cells(m.slots)|
      ensures (State(), drained) == SlotMapSpec.Drain(m)
      ensures free == DrainedFree(Keys(m), FillPoint(m.slots), list)
    {
      assert Cells(m.slots)[..p] == Cells(m.slots);
      DrainYieldValues(m, p);
    }

    /** drain's closure on flat position `p` (src/slot_map.rs:722-728) */
    method DrainAt(p: nat, ghost m: MapState<T>, ghost r: MapState<T>) returns (v: Option<T>)
      requires State() == m && WellFormed(m) && p < FillPoint(m.slots) && r == DrainCell(m, p)
      modifies this`len, this`nextOpenSlot, slots, slots.currentChunk
      ensures State() == r
      ensures var cell := Cells(m.slots)[p];
        v == if IsFilled(cell.key) then Some(cell.value) else None
    {
      CellKeyRoutes(m.slots, p);
      LookupsReadRoutedCell(m.slots, CellKey(p));
      var found := slots.GetExistingSlot(CellKey(p));
      var cell := found.value;
      assert cell.key == Keys(m)[p];
      if IsFilled(cell.key) {
        len := len - 1;
        var (head, stored) := SwapCoordinates(nextOpenSlot, IncrementGeneration(cell.key));
        slots.SetExistingSlot(CellKey(p), Slot(stored, cell.value));
        nextOpenSlot := head;
        v := Some(cell.value);
      } else {
        v := None;
      }
    }

    /** SlotMap::clear (src/slot_map.rs:737-739) */
    method Clear()
      requires Valid()
      modifies this, slots, slots.currentChunk
      ensures State() == SlotMapSpec.Clear(old(State()))
      ensures Valid() && free == DrainedFree(Keys(old(State())), FillPoint(old(State()).slots), old(free))
    {
      var _ := Drain();
    }

    /** SlotMap::map (src/slot_map.rs:812-825): a new map with the same layout */
    method Map<R>(f: T -> R) returns (r: SlotMap<R>)
      requires Valid()
      ensures fresh(r) && fresh(r.slots) && fresh(r.slots.currentChunk)
      ensures r.State() == SlotMapSpec.Map(State(), f)
      ensures r.Valid() && r.free == free
    {
      var s := slots.Map(f);
      r := new SlotMap.FromParts(s, nextOpenSlot, len, free);
      MapKeepsLayout(State(), free, f);
    }

    /** Clone for SlotMap (src/slot_map.rs:828-836): `map(T::clone)`, an equal copy */
    method Clone() returns (r: SlotMap<T>)
      requires Valid()
      ensures fresh(r) && fresh(r.slots) && fresh(r.slots.currentChunk)
      ensures r.State() == State() && r.Valid() && r.free == free
    {
      r := Map(Identity);
      CloneEqual(State());
    }
  }
}
