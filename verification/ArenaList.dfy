/**
  The chunk list of the arena, as a sequence of cells and as the slab that stores it.  What
  the list means (which bytes are free) is stated on the sequence; the slab only has to link
  the same cells in the same order.
 */
module ArenaList {
  const NO_CHUNK: nat := 0xFFFF_FFFF

  datatype Chunk = Chunk(next: nat, prev: nat, size: nat, free: bool, data: nat)

  /** A chunk and the slot of the slab it lives in. */
  datatype Cell = Cell(slot: nat, data: nat, size: nat, free: bool) {
    predicate Has(a: int) { data <= a < data + size }
  }

  // -------------------------------------------------------------------------
  // The slab links the cells
  // -------------------------------------------------------------------------

  ghost function NextOf(cells: seq<Cell>, i: nat): nat {
    if i + 1 < |cells| then cells[i + 1].slot else NO_CHUNK
  }

  ghost function PrevOf(cells: seq<Cell>, i: nat): nat {
    if 0 < i <= |cells| then cells[i - 1].slot else NO_CHUNK
  }

  ghost function NodeOf(cells: seq<Cell>, i: nat): Chunk
    requires i < |cells|
  {
    Chunk(NextOf(cells, i), PrevOf(cells, i), cells[i].size, cells[i].free, cells[i].data)
  }

  ghost predicate LinkedAt(slab: seq<Chunk>, cells: seq<Cell>, i: nat)
    requires i < |cells|
  {
    cells[i].slot < |slab| && slab[cells[i].slot] == NodeOf(cells, i)
  }

  ghost predicate Different(cells: seq<Cell>, i: nat, j: nat)
    requires i < |cells| && j < |cells|
  {
    cells[i].slot != cells[j].slot
  }

  /** A doubly linked list that begins at slot 0 and uses no slot twice. */
  ghost predicate Linked(slab: seq<Chunk>, cells: seq<Cell>) {
    && |cells| > 0 && cells[0].slot == 0 && |slab| <= NO_CHUNK
    && (forall i {:trigger LinkedAt(slab, cells, i)} :: 0 <= i < |cells| ==> LinkedAt(slab, cells, i))
    && (forall i, j {:trigger Different(cells, i, j)} :: 0 <= i < |cells| && 0 <= j < |cells| && i != j ==>
         Different(cells, i, j))
  }

  // -------------------------------------------------------------------------
  // Slots
  // -------------------------------------------------------------------------

  ghost function Slots(cells: seq<Cell>): set<nat> {
    set i | 0 <= i < |cells| :: cells[i].slot
  }

  ghost function First(recycled: seq<nat>, i: nat): nat {
    if i < |recycled| then recycled[i] else NO_CHUNK
  }

  ghost predicate RecycledAt(slab: seq<Chunk>, recycled: seq<nat>, i: nat)
    requires i < |recycled|
  {
    recycled[i] < |slab| && slab[recycled[i]].next == First(recycled, i + 1)
  }

  /** A singly linked list of the slots that can be used again. */
  ghost predicate Recycles(slab: seq<Chunk>, recycled: seq<nat>, head: nat) {
    && head == First(recycled, 0)
    && (forall i {:trigger RecycledAt(slab, recycled, i)} :: 0 <= i < |recycled| ==> RecycledAt(slab, recycled, i))
  }

  ghost predicate Unequal(recycled: seq<nat>, i: nat, j: nat)
    requires i < |recycled| && j < |recycled|
  {
    recycled[i] != recycled[j]
  }

  ghost predicate SlotOk(slots: set<nat>, recycled: seq<nat>, top: nat, s: int) {
    && (0 <= s < top <==> s in slots || s in recycled)
    && !(s in slots && s in recycled)
  }

  /** The first top slots are either in use or recycled, and none is both or recycled twice. */
  ghost predicate Partitioned(slots: set<nat>, recycled: seq<nat>, top: nat) {
    && (forall s {:trigger SlotOk(slots, recycled, top, s)} :: SlotOk(slots, recycled, top, s))
    && (forall i, j {:trigger Unequal(recycled, i, j)} :: 0 <= i < j < |recycled| ==> Unequal(recycled, i, j))
  }

  lemma RecyclesUnchanged(slab: seq<Chunk>, slab': seq<Chunk>, recycled: seq<nat>, head: nat)
    requires Recycles(slab, recycled, head) && |slab'| == |slab|
    requires forall s {:trigger slab'[s]} :: 0 <= s < |slab| && s in recycled ==> slab'[s].next == slab[s].next
    ensures Recycles(slab', recycled, head)
  {
    forall i | 0 <= i < |recycled|
      ensures RecycledAt(slab', recycled, i)
    {
      assert RecycledAt(slab, recycled, i);
      assert recycled[i] in recycled;
    }
  }

  /** Slots in use are not in the recycle list, so changing them does not disturb it. */
  lemma RecyclesApart(slab: seq<Chunk>, slab': seq<Chunk>, slots: set<nat>, recycled: seq<nat>, head: nat, top: nat)
    requires Recycles(slab, recycled, head) && Partitioned(slots, recycled, top) && |slab'| == |slab|
    requires forall s {:trigger slab'[s]} :: 0 <= s < |slab| && s !in slots ==> slab'[s] == slab[s]
    ensures Recycles(slab', recycled, head)
  {
    forall s | 0 <= s < |slab| && s in recycled
      ensures slab'[s].next == slab[s].next
    {
      assert SlotOk(slots, recycled, top, s);
    }
    RecyclesUnchanged(slab, slab', recycled, head);
  }

  /** Taking the first recycled slot. */
  lemma PopRecycled(slab: seq<Chunk>, slots: set<nat>, recycled: seq<nat>, head: nat, top: nat)
    requires Recycles(slab, recycled, head) && Partitioned(slots, recycled, top) && |recycled| > 0
    ensures head < |slab| && head == recycled[0] && head !in slots
    ensures Recycles(slab, recycled[1..], slab[head].next) && Partitioned(slots + {head}, recycled[1..], top)
  {
    var rest := recycled[1..];
    assert RecycledAt(slab, recycled, 0);
    assert recycled == [recycled[0]] + rest;
    forall i | 0 <= i < |rest|
      ensures RecycledAt(slab, rest, i)
    {
      assert RecycledAt(slab, recycled, i + 1);
    }
    forall i, j | 0 <= i < j < |rest|
      ensures Unequal(rest, i, j)
    {
      assert Unequal(recycled, i + 1, j + 1);
    }
    forall k | 0 <= k < |rest|
      ensures rest[k] != head
    {
      assert Unequal(recycled, 0, k + 1);
    }
    assert SlotOk(slots, recycled, top, head);
    forall s
      ensures SlotOk(slots + {head}, rest, top, s)
    {
      assert SlotOk(slots, recycled, top, s);
    }
  }

  /** Giving a slot back. */
  lemma PushRecycled(slab: seq<Chunk>, slots: set<nat>, recycled: seq<nat>, head: nat, top: nat, slot: nat)
    requires Recycles(slab, recycled, head) && Partitioned(slots + {slot}, recycled, top) && slot !in slots
             && slot < |slab|
    ensures Recycles(slab[slot := slab[slot].(next := head)], [slot] + recycled, slot)
    ensures Partitioned(slots, [slot] + recycled, top)
  {
    var more := [slot] + recycled;
    var slab' := slab[slot := slab[slot].(next := head)];
    assert SlotOk(slots + {slot}, recycled, top, slot);
    forall i | 0 <= i < |more|
      ensures RecycledAt(slab', more, i)
    {
      if i > 0 {
        assert RecycledAt(slab, recycled, i - 1);
        assert recycled[i - 1] in recycled;
      }
    }
    forall i, j | 0 <= i < j < |more|
      ensures Unequal(more, i, j)
    {
      if i > 0 {
        assert Unequal(recycled, i - 1, j - 1);
      } else {
        assert recycled[j - 1] in recycled;
      }
    }
    forall s
      ensures SlotOk(slots, more, top, s)
    {
      assert SlotOk(slots + {slot}, recycled, top, s);
    }
  }

  // -------------------------------------------------------------------------
  // Operations on the list
  // -------------------------------------------------------------------------

  /** The cell at i keeps its first bytes; the rest becomes a free cell of its own. */
  ghost function Split(cells: seq<Cell>, i: nat, size: nat, slot: nat): seq<Cell>
    requires i < |cells| && size <= cells[i].size
  {
    var rest := Cell(slot, cells[i].data + size, cells[i].size - size, true);
    cells[..i] + [cells[i].(size := size), rest] + cells[i + 1..]
  }

  /** The cell at i takes over the bytes of the next one. */
  ghost function Merge(cells: seq<Cell>, i: nat): seq<Cell>
    requires i + 1 < |cells|
  {
    cells[..i] + [cells[i].(size := cells[i].size + cells[i + 1].size)] + cells[i + 2..]
  }

  /** The cell at i takes the first bytes of the next one. */
  ghost function Shift(cells: seq<Cell>, i: nat, size: nat): seq<Cell>
    requires i + 1 < |cells| && cells[i].size <= size <= cells[i].size + cells[i + 1].size
  {
    var moved := size - cells[i].size;
    var next := cells[i + 1];
    cells[i := cells[i].(size := size)][i + 1 := next.(size := next.size - moved, data := next.data + moved)]
  }

  ghost function Mark(cells: seq<Cell>, i: nat, free: bool): seq<Cell>
    requires i < |cells|
  {
    cells[i := cells[i].(free := free)]
  }

  /** split_next, on the slab; slot is the new chunk's. */
  function SplitSlab(slab: seq<Chunk>, idx: nat, size: nat, slot: nat): seq<Chunk>
    requires idx < |slab| && slot < |slab| && size <= slab[idx].size
    requires slab[idx].next == NO_CHUNK || slab[idx].next < |slab|
  {
    var ch := slab[idx];
    var s1 := slab[slot := Chunk(ch.next, idx, ch.size - size, true, ch.data + size)];
    var s2 := if ch.next != NO_CHUNK then s1[ch.next := s1[ch.next].(prev := slot)] else s1;
    s2[idx := s2[idx].(next := slot, size := size)]
  }

  lemma SplitLinks(slab: seq<Chunk>, cells: seq<Cell>, i: nat, size: nat, slot: nat)
    requires Linked(slab, cells) && i < |cells| && size <= cells[i].size && slot < |slab| && slot !in Slots(cells)
    ensures cells[i].slot < |slab| && slab[cells[i].slot] == NodeOf(cells, i)
    ensures NextOf(cells, i) == NO_CHUNK || NextOf(cells, i) < |slab|
    ensures Linked(SplitSlab(slab, cells[i].slot, size, slot), Split(cells, i, size, slot))
  {
    var after := Split(cells, i, size, slot);
    assert LinkedAt(slab, cells, i);
    if i + 1 < |cells| {
      assert LinkedAt(slab, cells, i + 1) && Different(cells, i, i + 1);
    }
    var slab' := SplitSlab(slab, cells[i].slot, size, slot);
    forall j | 0 <= j < |after|
      ensures LinkedAt(slab', after, j)
    {
      SplitLinkedAt(slab, cells, i, size, slot, j);
    }
    forall m, n | 0 <= m < |after| && 0 <= n < |after| && m != n
      ensures Different(after, m, n)
    {
      var m0, n0 := if m <= i then m else m - 1, if n <= i then n else n - 1;
      assert cells[m0].slot in Slots(cells) && cells[n0].slot in Slots(cells);
      if m != i + 1 && n != i + 1 {
        assert Different(cells, m0, n0);
      }
    }
  }

  lemma SplitLinkedAt(slab: seq<Chunk>, cells: seq<Cell>, i: nat, size: nat, slot: nat, j: nat)
    requires Linked(slab, cells) && i < |cells| && size <= cells[i].size && slot < |slab| && slot !in Slots(cells)
    requires cells[i].slot < |slab| && slab[cells[i].slot] == NodeOf(cells, i)
    requires NextOf(cells, i) == NO_CHUNK || NextOf(cells, i) < |slab|
    requires j <= |cells|
    ensures LinkedAt(SplitSlab(slab, cells[i].slot, size, slot), Split(cells, i, size, slot), j)
  {
    SplitDiffers(slab, cells, i, size, slot);
    if j == i + 1 {
      SplitLinkedNew(slab, cells, i, size, slot);
    } else if j == i {
      SplitLinkedHere(slab, cells, i, size, slot);
    } else if j == i + 2 {
      SplitLinkedNext(slab, cells, i, size, slot);
    } else {
      SplitLinkedElsewhere(slab, cells, i, size, slot, j);
    }
  }

  /** The slots that splitting cell i writes are three different ones. */
  ghost predicate SplitsApart(slab: seq<Chunk>, cells: seq<Cell>, i: nat, size: nat, slot: nat) {
    && i < |cells| && size <= cells[i].size && slot < |slab| <= NO_CHUNK && slot != cells[i].slot < |slab|
    && slab[cells[i].slot] == NodeOf(cells, i)
    && (i + 1 < |cells| ==>
          && NextOf(cells, i) == cells[i + 1].slot < |slab| && cells[i + 1].slot !in {slot, cells[i].slot}
          && slab[cells[i + 1].slot] == NodeOf(cells, i + 1))
    && (i + 1 == |cells| ==> NextOf(cells, i) == NO_CHUNK)
  }

  lemma SplitDiffers(slab: seq<Chunk>, cells: seq<Cell>, i: nat, size: nat, slot: nat)
    requires Linked(slab, cells) && i < |cells| && size <= cells[i].size && slot < |slab| && slot !in Slots(cells)
    ensures SplitsApart(slab, cells, i, size, slot)
  {
    assert LinkedAt(slab, cells, i) && cells[i].slot in Slots(cells);
    if i + 1 < |cells| {
      assert LinkedAt(slab, cells, i + 1) && Different(cells, i, i + 1) && cells[i + 1].slot in Slots(cells);
    }
  }

  lemma SplitLinkedNew(slab: seq<Chunk>, cells: seq<Cell>, i: nat, size: nat, slot: nat)
    requires SplitsApart(slab, cells, i, size, slot)
    ensures LinkedAt(SplitSlab(slab, cells[i].slot, size, slot), Split(cells, i, size, slot), i + 1)
  {
  }

  lemma SplitLinkedHere(slab: seq<Chunk>, cells: seq<Cell>, i: nat, size: nat, slot: nat)
    requires SplitsApart(slab, cells, i, size, slot)
    ensures LinkedAt(SplitSlab(slab, cells[i].slot, size, slot), Split(cells, i, size, slot), i)
  {
  }

  lemma SplitLinkedNext(slab: seq<Chunk>, cells: seq<Cell>, i: nat, size: nat, slot: nat)
    requires SplitsApart(slab, cells, i, size, slot) && i + 1 < |cells|
    ensures LinkedAt(SplitSlab(slab, cells[i].slot, size, slot), Split(cells, i, size, slot), i + 2)
  {
    var after := Split(cells, i, size, slot);
    assert after[i + 1].slot == slot && after[i + 2] == cells[i + 1] && NextOf(after, i + 2) == NextOf(cells, i + 1);
  }

  /** Other cells keep their place in the list. */
  lemma SplitLinkedElsewhere(slab: seq<Chunk>, cells: seq<Cell>, i: nat, size: nat, slot: nat, j: nat)
    requires SplitsApart(slab, cells, i, size, slot) && Linked(slab, cells) && slot !in Slots(cells)
    requires j <= |cells| && j !in {i, i + 1, i + 2}
    ensures LinkedAt(SplitSlab(slab, cells[i].slot, size, slot), Split(cells, i, size, slot), j)
  {
    var k := if j < i then j else j - 1;
    var after := Split(cells, i, size, slot);
    assert after[j] == cells[k] && NodeOf(after, j) == NodeOf(cells, k);
    assert LinkedAt(slab, cells, k) && cells[k].slot in Slots(cells) && Different(cells, i, k);
    assert i + 1 < |cells| ==> Different(cells, i + 1, k);
  }

  /** merge_next without the recycling. */
  function MergeSlab(slab: seq<Chunk>, idx: nat): seq<Chunk>
    requires idx < |slab| && slab[idx].next < |slab|
    requires slab[slab[idx].next].next == NO_CHUNK || slab[slab[idx].next].next < |slab|
  {
    var ch := slab[idx];
    var nch := slab[ch.next];
    var s1 := slab[idx := ch.(size := ch.size + nch.size, next := nch.next)];
    if nch.next != NO_CHUNK then s1[nch.next := s1[nch.next].(prev := idx)] else s1
  }

  lemma MergeLinks(slab: seq<Chunk>, cells: seq<Cell>, i: nat)
    requires Linked(slab, cells) && i + 1 < |cells|
    ensures cells[i].slot < |slab| && slab[cells[i].slot] == NodeOf(cells, i)
    ensures cells[i + 1].slot < |slab| && slab[cells[i + 1].slot] == NodeOf(cells, i + 1)
    ensures NextOf(cells, i + 1) == NO_CHUNK || NextOf(cells, i + 1) < |slab|
    ensures Linked(MergeSlab(slab, cells[i].slot), Merge(cells, i))
    ensures Slots(cells) == Slots(Merge(cells, i)) + {cells[i + 1].slot} && cells[i + 1].slot !in Slots(Merge(cells, i))
  {
    var after := Merge(cells, i);
    assert LinkedAt(slab, cells, i) && LinkedAt(slab, cells, i + 1);
    if i + 2 < |cells| {
      assert LinkedAt(slab, cells, i + 2);
    }
    var slab' := MergeSlab(slab, cells[i].slot);
    forall j | 0 <= j < |after|
      ensures LinkedAt(slab', after, j)
    {
      MergeLinkedAt(slab, cells, i, j);
    }
    forall m, n | 0 <= m < |after| && 0 <= n < |after| && m != n
      ensures Different(after, m, n)
    {
      assert Different(cells, if m <= i then m else m + 1, if n <= i then n else n + 1);
    }
    MergeSlots(cells, i);
  }

  lemma MergeLinkedAt(slab: seq<Chunk>, cells: seq<Cell>, i: nat, j: nat)
    requires Linked(slab, cells) && i + 1 < |cells| && j < |cells| - 1
    requires cells[i].slot < |slab| && slab[cells[i].slot] == NodeOf(cells, i)
    requires cells[i + 1].slot < |slab| && slab[cells[i + 1].slot] == NodeOf(cells, i + 1)
    requires NextOf(cells, i + 1) == NO_CHUNK || NextOf(cells, i + 1) < |slab|
    ensures LinkedAt(MergeSlab(slab, cells[i].slot), Merge(cells, i), j)
  {
    var k := if j <= i then j else j + 1;
    var after := Merge(cells, i);
    assert LinkedAt(slab, cells, k);
    assert NextOf(after, j) == if j == i then NextOf(cells, i + 1) else NextOf(cells, k);
    assert PrevOf(after, j) == if j == i + 1 then cells[i].slot else PrevOf(cells, k);
    if k != i {
      assert Different(cells, i, k);
    }
    if i + 2 < |cells| {
      assert Different(cells, i, i + 2);
      if k != i + 2 {
        assert Different(cells, i + 2, k);
      }
    }
  }

  lemma MergeSlots(cells: seq<Cell>, i: nat)
    requires i + 1 < |cells|
    requires forall i, j {:trigger Different(cells, i, j)} :: 0 <= i < |cells| && 0 <= j < |cells| && i != j ==>
               Different(cells, i, j)
    ensures Slots(cells) == Slots(Merge(cells, i)) + {cells[i + 1].slot} && cells[i + 1].slot !in Slots(Merge(cells, i))
  {
    var after := Merge(cells, i);
    forall k | 0 <= k < |cells|
      ensures k != i + 1 ==> cells[k].slot in Slots(after)
    {
      if k != i + 1 {
        assert after[if k <= i then k else k - 1].slot == cells[k].slot;
      }
    }
    forall k | 0 <= k < |after|
      ensures after[k].slot in Slots(cells) && after[k].slot != cells[i + 1].slot
    {
      var m := if k <= i then k else k + 1;
      assert after[k].slot == cells[m].slot;
      assert Different(cells, m, i + 1);
    }
  }

  lemma SplitSlots(cells: seq<Cell>, i: nat, size: nat, slot: nat)
    requires i < |cells| && size <= cells[i].size
    ensures Slots(Split(cells, i, size, slot)) == Slots(cells) + {slot}
  {
    var after := Split(cells, i, size, slot);
    forall k | 0 <= k < |cells|
      ensures cells[k].slot in Slots(after)
    {
      assert after[if k <= i then k else k + 1].slot == cells[k].slot;
    }
    assert after[i + 1].slot == slot;
    forall k | 0 <= k < |after|
      ensures after[k].slot in Slots(cells) + {slot}
    {
      assert k == i + 1 || after[k].slot == cells[if k <= i then k else k - 1].slot;
    }
  }

  /** Slots outside the list do not matter to it. */
  lemma UnlistedSlot(slab: seq<Chunk>, cells: seq<Cell>, slot: nat, chunk: Chunk)
    requires Linked(slab, cells) && slot < |slab| && slot !in Slots(cells)
    ensures Linked(slab[slot := chunk], cells)
  {
    var slab' := slab[slot := chunk];
    forall j | 0 <= j < |cells|
      ensures LinkedAt(slab', cells, j)
    {
      assert LinkedAt(slab, cells, j);
      assert cells[j].slot in Slots(cells);
    }
  }

  /** Changing sizes, addresses and marks in place keeps the links. */
  lemma UpdateLinks(slab: seq<Chunk>, cells: seq<Cell>, i: nat, cell: Cell)
    requires Linked(slab, cells) && i < |cells| && cell.slot == cells[i].slot
    ensures cell.slot < |slab| && slab[cell.slot] == NodeOf(cells, i)
    ensures Linked(slab[cell.slot := slab[cell.slot].(size := cell.size, free := cell.free, data := cell.data)],
                   cells[i := cell])
    ensures Slots(cells[i := cell]) == Slots(cells)
  {
    assert LinkedAt(slab, cells, i);
    var slab' := slab[cell.slot := slab[cell.slot].(size := cell.size, free := cell.free, data := cell.data)];
    var after := cells[i := cell];
    forall j | 0 <= j < |after|
      ensures LinkedAt(slab', after, j)
    {
      assert LinkedAt(slab, cells, j);
      assert j != i ==> Different(cells, i, j);
    }
    forall m, n | 0 <= m < |after| && 0 <= n < |after| && m != n
      ensures Different(after, m, n)
    {
      assert Different(cells, m, n);
    }
    forall k | 0 <= k < |cells|
      ensures cells[k].slot in Slots(after) && after[k].slot in Slots(cells)
    {
      assert after[k].slot == cells[k].slot;
    }
  }

  // -------------------------------------------------------------------------
  // The list tiles the arena
  // -------------------------------------------------------------------------

  ghost predicate Adjacent(cells: seq<Cell>, i: nat)
    requires i + 1 < |cells|
  {
    cells[i + 1].data == cells[i].data + cells[i].size
  }

  /** From base to end without gap or overlap; only an arena without bytes has an empty cell. */
  ghost predicate Tiles(cells: seq<Cell>, base: nat, end: nat) {
    && |cells| > 0 && base <= end
    && cells[0].data == base
    && cells[|cells| - 1].data + cells[|cells| - 1].size == end
    && (forall i {:trigger Adjacent(cells, i)} :: 0 <= i && i + 1 < |cells| ==> Adjacent(cells, i))
    && (forall i {:trigger cells[i].size} :: 0 <= i < |cells| && base < end ==> cells[i].size > 0)
    && (base == end ==> |cells| == 1)
  }

  ghost predicate Alternate(cells: seq<Cell>, i: nat)
    requires i + 1 < |cells|
  {
    !(cells[i].free && cells[i + 1].free)
  }

  /** No two neighbours are both free. */
  ghost predicate Coalesced(cells: seq<Cell>) {
    forall i {:trigger Alternate(cells, i)} :: 0 <= i && i + 1 < |cells| ==> Alternate(cells, i)
  }

  lemma {:induction false} TilesOrder(cells: seq<Cell>, base: nat, end: nat, i: nat, j: nat)
    requires Tiles(cells, base, end) && i < j < |cells|
    ensures cells[i].data + cells[i].size <= cells[j].data
    decreases j
  {
    assert Adjacent(cells, j - 1);
    if i < j - 1 {
      TilesOrder(cells, base, end, i, j - 1);
    }
  }

  lemma TilesBounds(cells: seq<Cell>, base: nat, end: nat, i: nat)
    requires Tiles(cells, base, end) && i < |cells|
    ensures base <= cells[i].data && cells[i].data + cells[i].size <= end
  {
    if i > 0 {
      TilesOrder(cells, base, end, 0, i);
    }
    if i < |cells| - 1 {
      TilesOrder(cells, base, end, i, |cells| - 1);
    }
  }

  /** Every byte is in exactly one cell. */
  lemma {:induction false} FindByte(cells: seq<Cell>, base: nat, end: nat, a: nat, n: nat) returns (i: nat)
    requires Tiles(cells, base, end) && n < |cells| && cells[n].data <= a < end
    ensures i < |cells| && cells[i].Has(a)
    decreases |cells| - n
  {
    if a < cells[n].data + cells[n].size {
      i := n;
    } else {
      assert n + 1 < |cells| ==> Adjacent(cells, n);
      i := FindByte(cells, base, end, a, n + 1);
    }
  }

  lemma SameCell(cells: seq<Cell>, base: nat, end: nat, a: int, i: nat, j: nat)
    requires Tiles(cells, base, end) && i < |cells| && j < |cells| && i != j && cells[i].Has(a)
    ensures !cells[j].Has(a)
  {
    if i < j {
      TilesOrder(cells, base, end, i, j);
    } else {
      TilesOrder(cells, base, end, j, i);
    }
  }

  ghost predicate FreeByte(cells: seq<Cell>, a: int) {
    exists i :: 0 <= i < |cells| && cells[i].free && cells[i].Has(a)
  }

  /** The cell that begins where another one ends is the next one. */
  lemma NotNextCell(cells: seq<Cell>, base: nat, end: nat, i: nat, j: nat)
    requires Tiles(cells, base, end) && i < |cells| && j < |cells| && j != i + 1
    ensures !cells[j].Has(cells[i].data + cells[i].size)
  {
    TilesBounds(cells, base, end, j);
    if j < i {
      TilesOrder(cells, base, end, j, i);
    } else if j > i {
      assert Adjacent(cells, i);
      TilesOrder(cells, base, end, i + 1, j);
      assert base < end ==> cells[i + 1].size > 0;
    }
  }

  /** Free bytes end where a free cell ends. */
  lemma FreeEnds(cells: seq<Cell>, base: nat, end: nat, i: nat)
    requires Tiles(cells, base, end) && Coalesced(cells) && i < |cells| && cells[i].free
    ensures !FreeByte(cells, cells[i].data + cells[i].size)
  {
    assert i + 1 < |cells| ==> Alternate(cells, i);
    forall j | 0 <= j < |cells| && j != i + 1
      ensures !cells[j].Has(cells[i].data + cells[i].size)
    {
      NotNextCell(cells, base, end, i, j);
    }
  }

  /** Free bytes begin where a free cell begins. */
  lemma FreeBegins(cells: seq<Cell>, base: nat, end: nat, i: nat)
    requires Tiles(cells, base, end) && Coalesced(cells) && i < |cells| && cells[i].free
    ensures !FreeByte(cells, cells[i].data - 1)
  {
    forall j | 0 <= j < |cells| && cells[j].free
      ensures !cells[j].Has(cells[i].data - 1)
    {
      if j < i {
        assert Alternate(cells, i - 1);
        TilesOrder(cells, base, end, j, i - 1);
        assert Adjacent(cells, i - 1);
        assert base < end ==> cells[i - 1].size > 0;
      } else if j > i {
        TilesOrder(cells, base, end, i, j);
      }
    }
  }

  /** A run of free bytes lies in one cell, because free neighbours are coalesced. */
  lemma RunInOneCell(cells: seq<Cell>, base: nat, end: nat, x: nat, len: nat) returns (i: nat)
    requires Tiles(cells, base, end) && Coalesced(cells) && len > 0
    requires forall a :: x <= a < x + len ==> FreeByte(cells, a)
    ensures i < |cells| && cells[i].free && cells[i].data <= x && x + len <= cells[i].data + cells[i].size
  {
    assert FreeByte(cells, x);
    i :| 0 <= i < |cells| && cells[i].free && cells[i].Has(x);
    FreeEnds(cells, base, end, i);
  }

  lemma SplitTiles(cells: seq<Cell>, base: nat, end: nat, i: nat, size: nat, slot: nat)
    requires Tiles(cells, base, end) && i < |cells| && 0 < size < cells[i].size
    ensures Tiles(Split(cells, i, size, slot), base, end)
  {
    var after := Split(cells, i, size, slot);
    TilesBounds(cells, base, end, i);
    forall j | 0 <= j && j + 1 < |after|
      ensures Adjacent(after, j)
    {
      if j != i {
        assert Adjacent(cells, if j < i then j else j - 1);
      }
    }
  }

  lemma MergeTiles(cells: seq<Cell>, base: nat, end: nat, i: nat)
    requires Tiles(cells, base, end) && i + 1 < |cells|
    ensures Tiles(Merge(cells, i), base, end)
  {
    var after := Merge(cells, i);
    assert Adjacent(cells, i);
    forall j | 0 <= j && j + 1 < |after|
      ensures Adjacent(after, j)
    {
      assert Adjacent(cells, if j < i then j else j + 1);
    }
    forall j | 0 <= j < |after| && base < end
      ensures after[j].size > 0
    {
      assert cells[if j <= i then j else j + 1].size > 0;
    }
  }

  lemma ShiftTiles(cells: seq<Cell>, base: nat, end: nat, i: nat, size: nat)
    requires Tiles(cells, base, end) && i + 1 < |cells| && cells[i].size < size < cells[i].size + cells[i + 1].size
    ensures Tiles(Shift(cells, i, size), base, end)
  {
    var after := Shift(cells, i, size);
    assert Adjacent(cells, i);
    forall j | 0 <= j && j + 1 < |after|
      ensures Adjacent(after, j)
    {
      assert Adjacent(cells, j);
    }
  }

  lemma MarkTiles(cells: seq<Cell>, base: nat, end: nat, i: nat, free: bool)
    requires Tiles(cells, base, end) && i < |cells|
    ensures Tiles(Mark(cells, i, free), base, end)
  {
    var after := Mark(cells, i, free);
    forall j | 0 <= j && j + 1 < |after|
      ensures Adjacent(after, j)
    {
      assert Adjacent(cells, j);
    }
  }

  // -------------------------------------------------------------------------
  // Cells in use
  // -------------------------------------------------------------------------

  ghost function UsedCells(cells: seq<Cell>): set<Cell> {
    set i | 0 <= i < |cells| && !cells[i].free :: cells[i]
  }

  /** The pointer map holds exactly the cells in use. */
  ghost predicate Maps(cells: set<Cell>, used: map<nat, nat>) {
    && (forall c {:trigger c in cells} :: c in cells ==> c.data in used && used[c.data] == c.slot)
    && (forall p {:trigger p in used} :: p in used ==> Backed(cells, p, used[p]))
  }

  ghost predicate Backed(cells: set<Cell>, p: nat, slot: nat) {
    exists c :: c in cells && c.data == p && c.slot == slot
  }

  lemma SplitKeepsUsed(cells: seq<Cell>, i: nat, size: nat, slot: nat)
    requires i < |cells| && size <= cells[i].size && cells[i].free
    ensures UsedCells(Split(cells, i, size, slot)) == UsedCells(cells)
  {
    var after := Split(cells, i, size, slot);
    forall k | 0 <= k < |cells| && !cells[k].free
      ensures cells[k] in UsedCells(after)
    {
      assert after[if k < i then k else k + 1] == cells[k];
    }
    forall k | 0 <= k < |after| && !after[k].free
      ensures after[k] in UsedCells(cells)
    {
      assert after[k] == cells[if k < i then k else k - 1];
    }
  }

  lemma MergeKeepsUsed(cells: seq<Cell>, i: nat)
    requires i + 1 < |cells| && cells[i].free && cells[i + 1].free
    ensures UsedCells(Merge(cells, i)) == UsedCells(cells)
  {
    var after := Merge(cells, i);
    forall k | 0 <= k < |cells| && !cells[k].free
      ensures cells[k] in UsedCells(after)
    {
      assert after[if k < i then k else k - 1] == cells[k];
    }
    forall k | 0 <= k < |after| && !after[k].free
      ensures after[k] in UsedCells(cells)
    {
      assert after[k] == cells[if k < i then k else k + 1];
    }
  }

  /** Replacing the cell at i by another one in the same slot. */
  lemma UpdateUsed(cells: seq<Cell>, i: nat, cell: Cell)
    requires i < |cells| && cell.slot == cells[i].slot
    requires forall i, j {:trigger Different(cells, i, j)} :: 0 <= i < |cells| && 0 <= j < |cells| && i != j ==>
               Different(cells, i, j)
    ensures UsedCells(cells[i := cell]) == UsedCells(cells) - {cells[i]} + if cell.free then {} else {cell}
  {
    var after := cells[i := cell];
    forall k | 0 <= k < |cells| && !cells[k].free && k != i
      ensures cells[k] in UsedCells(after) && cells[k] != cells[i]
    {
      assert after[k] == cells[k];
      assert Different(cells, i, k);
    }
    forall k | 0 <= k < |after| && !after[k].free
      ensures after[k] in UsedCells(cells) - {cells[i]} + if cell.free then {} else {cell}
    {
      if k != i {
        assert after[k] == cells[k];
        assert Different(cells, i, k);
      }
    }
    assert !cell.free ==> after[i] in UsedCells(after);
  }

  /** Used cells begin at different addresses. */
  lemma UsedApart(cells: seq<Cell>, base: nat, end: nat, c: Cell, d: Cell)
    requires Tiles(cells, base, end) && base < end && c in UsedCells(cells) && d in UsedCells(cells) && c != d
    ensures c.data + c.size <= d.data || d.data + d.size <= c.data
    ensures c.data != d.data
  {
    var i :| 0 <= i < |cells| && cells[i] == c;
    var j :| 0 <= j < |cells| && cells[j] == d;
    assert c.size > 0 && d.size > 0;
    if i < j {
      TilesOrder(cells, base, end, i, j);
    } else {
      TilesOrder(cells, base, end, j, i);
    }
  }

  ghost predicate Unique(used: set<Cell>) {
    forall c, d {:trigger c in used, d in used} :: c in used && d in used && c.data == d.data ==> c == d
  }

  lemma UsedUnique(cells: seq<Cell>, base: nat, end: nat)
    requires Tiles(cells, base, end)
    ensures Unique(UsedCells(cells))
  {
    forall c, d | c in UsedCells(cells) && d in UsedCells(cells) && c != d
      ensures c.data != d.data
    {
      if base < end {
        UsedApart(cells, base, end, c, d);
      }
    }
  }

  ghost function Starts(used: set<Cell>): set<nat> {
    set c | c in used :: c.data
  }

  ghost function SizeAt(used: set<Cell>, p: nat): nat
    requires p in Starts(used)
  {
    var c :| c in used && c.data == p; c.size
  }

  /** Live regions: address and length of every cell in use. */
  ghost function Live(used: set<Cell>): (live: map<nat, nat>) {
    map p | p in Starts(used) :: SizeAt(used, p)
  }

  lemma LiveAt(used: set<Cell>, c: Cell)
    requires Unique(used) && c in used
    ensures c.data in Live(used) && Live(used)[c.data] == c.size
  {
  }

  lemma LiveAdd(used: set<Cell>, c: Cell)
    requires Unique(used + {c}) && forall d {:trigger d in used} :: d in used ==> d.data != c.data
    ensures c.data !in Live(used) && Live(used + {c}) == Live(used)[c.data := c.size]
  {
    var more := Live(used + {c});
    assert Starts(used + {c}) == Starts(used) + {c.data};
    LiveAt(used + {c}, c);
    forall p | p in more && p != c.data
      ensures more[p] == Live(used)[p]
    {
      var d :| d in used && d.data == p;
      LiveAt(used, d);
      LiveAt(used + {c}, d);
    }
  }

  lemma LiveRemove(used: set<Cell>, c: Cell)
    requires Unique(used) && c in used
    ensures Live(used - {c}) == Live(used) - {c.data}
  {
    var less := used - {c};
    assert Starts(less) == Starts(used) - {c.data};
    forall p | p in Live(less)
      ensures Live(less)[p] == Live(used)[p]
    {
      var d :| d in less && d.data == p;
      LiveAt(used, d);
      LiveAt(less, d);
    }
  }

  lemma MapsAdd(cells: set<Cell>, used: map<nat, nat>, c: Cell)
    requires Maps(cells, used) && forall d {:trigger d in cells} :: d in cells ==> d.data != c.data
    ensures Maps(cells + {c}, used[c.data := c.slot])
  {
    var more := used[c.data := c.slot];
    forall p | p in more
      ensures Backed(cells + {c}, p, more[p])
    {
      if p != c.data {
        assert Backed(cells, p, used[p]);
      }
    }
  }

  lemma MapsRemove(cells: set<Cell>, used: map<nat, nat>, c: Cell)
    requires Maps(cells, used) && Unique(cells) && c in cells
    ensures Maps(cells - {c}, used - {c.data})
  {
    var less := used - {c.data};
    forall p | p in less
      ensures Backed(cells - {c}, p, less[p])
    {
      assert Backed(cells, p, used[p]);
    }
  }

  /** A used cell changes its size. */
  lemma LiveResize(used: set<Cell>, c: Cell, size: nat)
    requires Unique(used) && c in used
    ensures Live(used - {c} + {c.(size := size)}) == Live(used)[c.data := size]
  {
    var d := c.(size := size);
    var others := used - {c};
    assert Unique(others + {d});
    LiveRemove(used, c);
    LiveAdd(others, d);
    LiveAt(used, c);
  }

  lemma MapsResize(cells: set<Cell>, used: map<nat, nat>, c: Cell, size: nat)
    requires Maps(cells, used) && Unique(cells) && c in cells
    ensures Maps(cells - {c} + {c.(size := size)}, used)
  {
    var d := c.(size := size);
    MapsRemove(cells, used, c);
    MapsAdd(cells - {c}, used - {c.data}, d);
    assert (used - {c.data})[d.data := d.slot] == used;
  }

  /** A byte is free exactly if it is in the arena and in no live region. */
  lemma FreeMeansNotLive(cells: seq<Cell>, base: nat, end: nat, a: nat)
    requires Tiles(cells, base, end)
    ensures FreeByte(cells, a) <==> base <= a < end && !InLive(Live(UsedCells(cells)), a)
  {
    UsedUnique(cells, base, end);
    if base <= a < end {
      var i := FindByte(cells, base, end, a, 0);
      if cells[i].free {
        forall p | p in Live(UsedCells(cells))
          ensures !(p <= a < p + Live(UsedCells(cells))[p])
        {
          var c :| c in UsedCells(cells) && c.data == p;
          LiveAt(UsedCells(cells), c);
          var j :| 0 <= j < |cells| && cells[j] == c;
          SameCell(cells, base, end, a, i, j);
        }
      } else {
        assert cells[i] in UsedCells(cells);
        LiveAt(UsedCells(cells), cells[i]);
        assert InLive(Live(UsedCells(cells)), a);
        forall j | 0 <= j < |cells| && cells[j].free
          ensures !cells[j].Has(a)
        {
          SameCell(cells, base, end, a, i, j);
        }
      }
    } else {
      forall j | 0 <= j < |cells|
        ensures !cells[j].Has(a)
      {
        TilesBounds(cells, base, end, j);
      }
    }
  }

  ghost predicate InLive(live: map<nat, nat>, a: int) {
    exists p :: p in live && p <= a < p + live[p]
  }

  /** len bytes from x on are free. */
  ghost predicate FreeRun(cells: seq<Cell>, x: nat, len: nat) {
    forall a {:trigger FreeByte(cells, a)} :: x <= a < x + len ==> FreeByte(cells, a)
  }

  lemma CellIsRun(cells: seq<Cell>, i: nat, x: nat, len: nat)
    requires i < |cells| && cells[i].free && cells[i].data <= x && x + len <= cells[i].data + cells[i].size
    ensures FreeRun(cells, x, len)
  {
    forall a | x <= a < x + len
      ensures FreeByte(cells, a)
    {
      assert cells[i].Has(a);
    }
  }

  // -------------------------------------------------------------------------
  // Sums
  // -------------------------------------------------------------------------

  /** Bytes in the free (or used) ones of the first n cells. */
  ghost function Bytes(cells: seq<Cell>, n: nat, free: bool): nat
    requires n <= |cells|
  {
    if n == 0 then 0 else Bytes(cells, n - 1, free) + if cells[n - 1].free == free then cells[n - 1].size else 0
  }

  lemma {:induction false} BytesAdd(cells: seq<Cell>, base: nat, end: nat, n: nat)
    requires Tiles(cells, base, end) && 0 < n <= |cells|
    ensures Bytes(cells, n, true) + Bytes(cells, n, false) == cells[n - 1].data + cells[n - 1].size - base
  {
    if n > 1 {
      BytesAdd(cells, base, end, n - 1);
      assert Adjacent(cells, n - 2);
    }
  }

  // -------------------------------------------------------------------------
  // Allocating, freeing and growing, on the list
  // -------------------------------------------------------------------------

  /** The first len bytes of the free cell at i are taken; slot is for what is left of it. */
  ghost function Take(cells: seq<Cell>, i: nat, len: nat, slot: nat): seq<Cell>
    requires i < |cells| && len <= cells[i].size
  {
    Mark(if len < cells[i].size then Split(cells, i, len, slot) else cells, i, false)
  }

  ghost function TakenCell(cells: seq<Cell>, i: nat, len: nat): Cell
    requires i < |cells|
  {
    Cell(cells[i].slot, cells[i].data, len, false)
  }

  /** No two neighbours are both free, except perhaps the k-th and the next. */
  ghost predicate CoalescedBut(cells: seq<Cell>, k: int) {
    forall i {:trigger Alternate(cells, i)} :: 0 <= i && i + 1 < |cells| && i != k ==> Alternate(cells, i)
  }

  lemma TakeCoalesces(cells: seq<Cell>, i: nat, len: nat, slot: nat)
    requires i < |cells| && len <= cells[i].size && cells[i].free && CoalescedBut(cells, i - 1)
    ensures Coalesced(Take(cells, i, len, slot))
  {
    var after := Take(cells, i, len, slot);
    forall j | 0 <= j && j + 1 < |after|
      ensures Alternate(after, j)
    {
      var k := if len < cells[i].size && j > i then j - 1 else j;
      if k + 1 < |cells| && k != i - 1 {
        assert Alternate(cells, k);
      }
    }
  }

  lemma SplitCoalesces(cells: seq<Cell>, i: nat, size: nat, slot: nat)
    requires i < |cells| && size <= cells[i].size && cells[i].free && Coalesced(cells)
    ensures CoalescedBut(Split(cells, i, size, slot), i)
  {
    var after := Split(cells, i, size, slot);
    forall j | 0 <= j && j + 1 < |after| && j != i
      ensures Alternate(after, j)
    {
      assert Alternate(cells, if j < i then j else j - 1);
    }
  }

  lemma MarkCoalesces(cells: seq<Cell>, i: nat, after: seq<Cell>)
    requires Coalesced(cells) && i < |cells| && after == Mark(cells, i, true)
    ensures forall j {:trigger Alternate(after, j)} :: 0 <= j && j + 1 < |after| && j != i && j != i - 1 ==>
              Alternate(after, j)
  {
    forall j | 0 <= j && j + 1 < |after| && j != i && j != i - 1
      ensures Alternate(after, j)
    {
      assert Alternate(cells, j);
    }
  }

  lemma MergeCoalesces(cells: seq<Cell>, i: nat, k: int)
    requires i + 1 < |cells| && (cells[i].free ==> cells[i + 1].free)
    requires forall j {:trigger Alternate(cells, j)} :: 0 <= j && j + 1 < |cells| && j != i && j != k ==>
               Alternate(cells, j)
    requires k < i
    ensures CoalescedBut(Merge(cells, i), k)
  {
    var after := Merge(cells, i);
    forall j | 0 <= j && j + 1 < |after| && j != k
      ensures Alternate(after, j)
    {
      assert Alternate(cells, if j < i then j else j + 1);
    }
  }

  lemma ShiftCoalesces(cells: seq<Cell>, i: nat, size: nat)
    requires Coalesced(cells) && i + 1 < |cells| && cells[i].size <= size <= cells[i].size + cells[i + 1].size
    ensures Coalesced(Shift(cells, i, size))
  {
    forall j | 0 <= j && j + 1 < |cells|
      ensures Alternate(Shift(cells, i, size), j)
    {
      assert Alternate(cells, j);
    }
  }

  lemma TakeUsed(cells: seq<Cell>, i: nat, len: nat, slot: nat)
    requires i < |cells| && len <= cells[i].size && cells[i].free && slot !in Slots(cells)
    requires forall i, j {:trigger Different(cells, i, j)} :: 0 <= i < |cells| && 0 <= j < |cells| && i != j ==>
               Different(cells, i, j)
    ensures UsedCells(Take(cells, i, len, slot)) == UsedCells(cells) + {TakenCell(cells, i, len)}
  {
    var split := if len < cells[i].size then Split(cells, i, len, slot) else cells;
    if len < cells[i].size {
      SplitKeepsUsed(cells, i, len, slot);
    }
    var after := Take(cells, i, len, slot);
    forall k | 0 <= k < |after| && !after[k].free && k != i
      ensures after[k] in UsedCells(cells)
    {
      assert after[k] == split[k];
      assert split[k] in UsedCells(split);
    }
    forall c | c in UsedCells(split)
      ensures c in UsedCells(after)
    {
      var k :| 0 <= k < |split| && !split[k].free && split[k] == c;
      assert after[k] == split[k];
    }
    assert after[i] == TakenCell(cells, i, len);
  }

  /** The cell at i grows into the next one, which is free. */
  lemma MergeGrowsUsed(cells: seq<Cell>, i: nat)
    requires i + 1 < |cells| && !cells[i].free && cells[i + 1].free
    requires forall i, j {:trigger Different(cells, i, j)} :: 0 <= i < |cells| && 0 <= j < |cells| && i != j ==>
               Different(cells, i, j)
    ensures UsedCells(Merge(cells, i)) ==
              UsedCells(cells) - {cells[i]} + {cells[i].(size := cells[i].size + cells[i + 1].size)}
  {
    var after := Merge(cells, i);
    var grown := cells[i].(size := cells[i].size + cells[i + 1].size);
    forall k | 0 <= k < |cells| && !cells[k].free && k != i
      ensures cells[k] in UsedCells(after) && cells[k] != cells[i]
    {
      assert after[if k < i then k else k - 1] == cells[k];
      assert Different(cells, k, i);
    }
    assert after[i] == grown && grown in UsedCells(after);
    forall k | 0 <= k < |after| && !after[k].free && k != i
      ensures after[k] in UsedCells(cells) && after[k] != cells[i]
    {
      var m := if k < i then k else k + 1;
      assert after[k] == cells[m];
      assert Different(cells, m, i);
    }
  }

  lemma ShiftUsed(cells: seq<Cell>, i: nat, size: nat)
    requires i + 1 < |cells| && !cells[i].free && cells[i + 1].free
             && cells[i].size <= size <= cells[i].size + cells[i + 1].size
    requires forall i, j {:trigger Different(cells, i, j)} :: 0 <= i < |cells| && 0 <= j < |cells| && i != j ==>
               Different(cells, i, j)
    ensures UsedCells(Shift(cells, i, size)) == UsedCells(cells) - {cells[i]} + {cells[i].(size := size)}
  {
    var after := Shift(cells, i, size);
    forall k | 0 <= k < |cells| && !cells[k].free && k != i
      ensures cells[k] in UsedCells(after) && cells[k] != cells[i] && after[k] == cells[k]
    {
      assert after[k] == cells[k];
      assert Different(cells, k, i);
    }
    assert after[i] in UsedCells(after);
  }
}
