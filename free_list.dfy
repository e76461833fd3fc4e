/**
 * The intrusive free list of a slot map, stated over the sequence of key
 * data stored in the cells (flat positions, as in `SlotStorage.Cells`).
 *
 * A filled cell (even generation) stores its own coordinates.  A vacant cell
 * (odd generation) stores the coordinates of the next vacant cell, and the
 * last one stores the fill point, the position the next fresh cell gets.
 * The head of the list is the map's `next_open_slot`.  Following the links
 * from the head visits every vacant cell exactly once: the ghost sequence
 * `free` lists them in that order.
 */
module FreeList {
  import opened SlotMapKeyData

  /** Position the j-th free-list entry links to */
  function LinkAfter(free: seq<nat>, j: nat, fill: nat): nat
    requires j < |free|
  {
    if j + 1 < |free| then free[j + 1] else fill
  }

  /** Position the head names: the first vacant cell, or the fill point */
  function ListHead(free: seq<nat>, fill: nat): nat {
    if free == [] then fill else free[0]
  }

  /** Every filled cell stores the coordinates of its own position */
  predicate OwnCoordinates(keys: seq<KeyData>) {
    forall p :: 0 <= p < |keys| && IsFilled(keys[p]) ==> Position(keys[p]) == p
  }

  /** Every entry of `free` is a vacant cell */
  predicate EntriesVacant(keys: seq<KeyData>, free: seq<nat>) {
    && (forall j :: 0 <= j < |free| ==> free[j] < |keys|)
    && (forall j {:trigger keys[free[j]]} :: 0 <= j < |free| ==> !IsFilled(keys[free[j]]))
  }

  /** No cell is listed twice */
  predicate Distinct(free: seq<nat>) {
    forall j, j' :: 0 <= j < j' < |free| ==> free[j] != free[j']
  }

  /** Every vacant cell is listed */
  predicate CoversVacant(keys: seq<KeyData>, free: seq<nat>) {
    forall p {:trigger p in free} :: 0 <= p < |keys| && !IsFilled(keys[p]) ==> p in free
  }

  /** Each listed cell stores the position of the next entry, the last one the fill point */
  predicate LinksFollow(keys: seq<KeyData>, free: seq<nat>)
    requires EntriesVacant(keys, free)
  {
    forall j {:trigger keys[free[j]]} :: 0 <= j < |free| ==> Position(keys[free[j]]) == LinkAfter(free, j, |keys|)
  }

  /** `free` is the chain from `head` through the vacant cells to the fill point `|keys|` */
  predicate FreeChain(keys: seq<KeyData>, head: KeyData, free: seq<nat>) {
    && EntriesVacant(keys, free)
    && Distinct(free)
    && CoversVacant(keys, free)
    && LinksFollow(keys, free)
    && Position(head) == ListHead(free, |keys|)
  }

  /** Number of filled cells */
  function CountFilled(keys: seq<KeyData>): nat
    decreases |keys|
  {
    if keys == [] then 0
    else CountFilled(keys[..|keys| - 1]) + (if IsFilled(keys[|keys| - 1]) then 1 else 0)
  }

  /** The free list after a pop: everything but its head */
  function Popped(free: seq<nat>): seq<nat> {
    if free == [] then [] else free[1..]
  }

  lemma {:induction false} CountFilledUpdate(keys: seq<KeyData>, p: nat, x: KeyData)
    requires p < |keys|
    ensures CountFilled(keys[p := x]) + (if IsFilled(keys[p]) then 1 else 0)
         == CountFilled(keys) + (if IsFilled(x) then 1 else 0)
  {
    var n := |keys|;
    if p < n - 1 {
      assert keys[p := x][..n - 1] == keys[..n - 1][p := x];
      CountFilledUpdate(keys[..n - 1], p, x);
    } else {
      assert keys[p := x][..n - 1] == keys[..n - 1];
    }
  }

  lemma CountFilledAppend(keys: seq<KeyData>, x: KeyData)
    ensures CountFilled(keys + [x]) == CountFilled(keys) + (if IsFilled(x) then 1 else 0)
  {
    assert (keys + [x])[..|keys|] == keys;
  }

  lemma {:induction false} CountFilledBound(keys: seq<KeyData>)
    ensures CountFilled(keys) <= |keys|
    ensures CountFilled(keys) == |keys| <==> forall p :: 0 <= p < |keys| ==> IsFilled(keys[p])
    ensures CountFilled(keys) == 0 <==> forall p :: 0 <= p < |keys| ==> !IsFilled(keys[p])
  {
    if keys != [] {
      var init := keys[..|keys| - 1];
      CountFilledBound(init);
      assert forall p :: 0 <= p < |init| ==> init[p] == keys[p];
    }
  }

  lemma PopEntries(keys: seq<KeyData>, free: seq<nat>, stored: KeyData)
    requires EntriesVacant(keys, free) && Distinct(free) && LinksFollow(keys, free) && free != []
    ensures EntriesVacant(keys[free[0] := stored], free[1..])
    ensures LinksFollow(keys[free[0] := stored], free[1..])
  {
    var keys' := keys[free[0] := stored];
    var rest := free[1..];
    forall j | 0 <= j < |rest|
      ensures rest[j] < |keys'| && keys'[rest[j]] == keys[rest[j]]
      ensures LinkAfter(rest, j, |keys'|) == LinkAfter(free, j + 1, |keys|)
    {
      assert rest[j] == free[j + 1] != free[0];
    }
  }

  lemma PopCovers(keys: seq<KeyData>, free: seq<nat>, stored: KeyData)
    requires CoversVacant(keys, free) && free != [] && free[0] < |keys| && IsFilled(stored)
    ensures CoversVacant(keys[free[0] := stored], free[1..])
  {
    var keys' := keys[free[0] := stored];
    forall p | 0 <= p < |keys'| && !IsFilled(keys'[p])
      ensures p in free[1..]
    {
      assert p in free;
      var j :| 0 <= j < |free| && free[j] == p;
      assert free[1..][j - 1] == p;
    }
  }

  /**
   * Pop (the reusing branch of insert): the cell at the head becomes filled
   * and takes the head's coordinates; the head takes the link the cell held.
   */
  lemma PopFree(keys: seq<KeyData>, head: KeyData, free: seq<nat>, stored: KeyData, newHead: KeyData)
    requires OwnCoordinates(keys) && FreeChain(keys, head, free) && free != []
    requires SameCoordinates(stored, head) && IsFilled(stored)
    requires SameCoordinates(newHead, keys[free[0]])
    ensures OwnCoordinates(keys[free[0] := stored])
    ensures FreeChain(keys[free[0] := stored], newHead, free[1..])
  {
    PopEntries(keys, free, stored);
    PopCovers(keys, free, stored);
    assert Position(newHead) == Position(keys[free[0]]) == LinkAfter(free, 0, |keys|);
  }

  lemma PushEntries(keys: seq<KeyData>, head: KeyData, free: seq<nat>, p: nat, stored: KeyData)
    requires EntriesVacant(keys, free) && LinksFollow(keys, free)
    requires p < |keys| && IsFilled(keys[p]) && !IsFilled(stored)
    requires Position(stored) == ListHead(free, |keys|)
    ensures EntriesVacant(keys[p := stored], [p] + free)
    ensures LinksFollow(keys[p := stored], [p] + free)
  {
    var keys' := keys[p := stored];
    var free' := [p] + free;
    forall j | 0 <= j < |free'|
      ensures free'[j] < |keys'| && !IsFilled(keys'[free'[j]])
      ensures Position(keys'[free'[j]]) == LinkAfter(free', j, |keys'|)
    {
      if j > 0 {
        assert free'[j] == free[j - 1] != p;
        assert LinkAfter(free', j, |keys|) == LinkAfter(free, j - 1, |keys|);
      }
    }
  }

  lemma PushDistinct(keys: seq<KeyData>, free: seq<nat>, p: nat)
    requires EntriesVacant(keys, free) && Distinct(free)
    requires p < |keys| && IsFilled(keys[p])
    ensures Distinct([p] + free)
  {
    var free' := [p] + free;
    forall j, j' | 0 <= j < j' < |free'|
      ensures free'[j] != free'[j']
    {
      assert free'[j'] == free[j' - 1];
      if j > 0 {
        assert free'[j] == free[j - 1];
      }
    }
  }

  /**
   * Push (remove_raw and each step of drain): a filled cell becomes vacant
   * and takes the old head's coordinates; the head takes the cell's own.
   */
  lemma PushFree(keys: seq<KeyData>, head: KeyData, free: seq<nat>, p: nat, stored: KeyData, newHead: KeyData)
    requires OwnCoordinates(keys) && FreeChain(keys, head, free)
    requires p < |keys| && IsFilled(keys[p])
    requires SameCoordinates(stored, head) && !IsFilled(stored)
    requires SameCoordinates(newHead, keys[p])
    ensures OwnCoordinates(keys[p := stored])
    ensures FreeChain(keys[p := stored], newHead, [p] + free)
  {
    PushEntries(keys, head, free, p, stored);
    PushDistinct(keys, free, p);
    var keys' := keys[p := stored];
    forall q | 0 <= q < |keys'| && !IsFilled(keys'[q])
      ensures q in [p] + free
    {
      if q != p {
        assert q in free;
      }
    }
  }

  /**
   * Append (the bump-allocating branch of insert): with no vacant cell the
   * head names the fill point; the new cell stores the head and the head
   * moves one position on.
   */
  lemma AppendFresh(keys: seq<KeyData>, head: KeyData, newHead: KeyData)
    requires OwnCoordinates(keys) && FreeChain(keys, head, [])
    requires IsFilled(head) && Position(newHead) == |keys| + 1
    ensures OwnCoordinates(keys + [head])
    ensures FreeChain(keys + [head], newHead, [])
  {
    var keys' := keys + [head];
    assert forall q :: 0 <= q < |keys| ==> keys'[q] == keys[q];
  }

  /** With no vacant cell the free list is empty and the head names the fill point */
  lemma AllFilledEmptiesChain(keys: seq<KeyData>, head: KeyData, free: seq<nat>)
    requires FreeChain(keys, head, free)
    requires forall p :: 0 <= p < |keys| ==> IsFilled(keys[p])
    ensures free == [] && Position(head) == |keys|
  {
    if free != [] {
      FirstEntryVacant(keys, free);
      assert false;
    }
  }

  lemma FirstEntryVacant(keys: seq<KeyData>, free: seq<nat>)
    requires EntriesVacant(keys, free) && free != []
    ensures free[0] < |keys| && !IsFilled(keys[free[0]])
  {
  }
}
