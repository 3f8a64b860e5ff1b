/**
  The guest heap allocator: chunks in a slab, linked in address order, with a list of slots
  to use again and a map from guest pointers to chunks.  Addresses are 32 bits wide, sizes
  64; an exception is an operation that returns ok == false.
 */
module ArenaHeap {
  import opened ArenaList

  const ALIGNMENT: nat := 16
  const SIZE_MAX: nat := 0xFFFF_FFFF_FFFF_FFFF
  const PAGE_SIZE: nat := 4096
  const COUNTER_RANGE: nat := 0x1_0000_0000

  function WordAlign(size: nat): (r: nat)
    requires size <= SIZE_MAX
    ensures size <= r <= SIZE_MAX
    ensures size <= SIZE_MAX - (ALIGNMENT - 1) ==> r % ALIGNMENT == 0 && r < size + ALIGNMENT
  {
    if size > SIZE_MAX - (ALIGNMENT - 1) then size else (size + ALIGNMENT - 1) / ALIGNMENT * ALIGNMENT
  }

  function FixupSize(size: nat): (r: nat)
    requires size <= SIZE_MAX
    ensures ALIGNMENT <= r <= SIZE_MAX && size <= r
    ensures if size <= SIZE_MAX - (ALIGNMENT - 1) then r % ALIGNMENT == 0 && r <= size + ALIGNMENT else r == size
  {
    if WordAlign(size) > ALIGNMENT then WordAlign(size) else ALIGNMENT
  }

  /** The slab links the cells, and its slots are the cells' and the recycled ones. */
  ghost predicate Sound(slab: seq<Chunk>, cells: seq<Cell>, recycled: seq<nat>, head: nat, top: nat) {
    && Linked(slab, cells) && Partitioned(Slots(cells), recycled, top) && Recycles(slab, recycled, head)
       && top <= |slab|
    && |slab| <= NO_CHUNK
  }

  ghost predicate HasRun(cells: seq<Cell>, len: nat) {
    exists x: nat :: FreeRun(cells, x, len)
  }

  /** A free run exists exactly if a free cell is large enough. */
  lemma NoCellNoRun(cells: seq<Cell>, base: nat, end: nat, len: nat)
    requires Tiles(cells, base, end) && Coalesced(cells) && len > 0
    requires forall k :: 0 <= k < |cells| ==> !(cells[k].free && cells[k].size >= len)
    ensures !HasRun(cells, len)
  {
    forall x: nat
      ensures !FreeRun(cells, x, len)
    {
      if FreeRun(cells, x, len) {
        var i := RunInOneCell(cells, base, end, x, len);
      }
    }
  }

  /** The first cell that is large enough has the lowest run. */
  lemma LowestRun(cells: seq<Cell>, base: nat, end: nat, i: nat, len: nat)
    requires Tiles(cells, base, end) && Coalesced(cells) && len > 0 && i < |cells|
    requires forall k :: 0 <= k < i ==> !(cells[k].free && cells[k].size >= len)
    ensures forall x: nat :: FreeRun(cells, x, len) ==> cells[i].data <= x
  {
    forall x: nat | FreeRun(cells, x, len)
      ensures cells[i].data <= x
    {
      var k := RunInOneCell(cells, base, end, x, len);
      if i < k {
        TilesOrder(cells, base, end, i, k);
      }
    }
  }

  predicate Straddles(data: nat, size: nat)
    requires size > 0
  {
    data / PAGE_SIZE != (data + size - 1) / PAGE_SIZE
  }

  ghost predicate SeqRun(cells: seq<Cell>, x: nat, len: nat)
    requires len > 0
  {
    FreeRun(cells, x, len) && !Straddles(x, len)
  }

  /** Some free run lies inside one page. */
  ghost predicate HasSeqRun(cells: seq<Cell>, len: nat)
    requires len > 0
  {
    exists x: nat :: SeqRun(cells, x, len)
  }

  /** How many slots it takes to cut len bytes at x out of the free bytes around them. */
  ghost function Splits(cells: seq<Cell>, x: nat, len: nat): nat {
    (if FreeByte(cells, x - 1) then 1 else 0) + if FreeByte(cells, x + len) then 1 else 0
  }

  /** The lowest place for len bytes inside one page. */
  ghost predicate LowestSeq(cells: seq<Cell>, x: nat, len: nat)
    requires len > 0
  {
    SeqRun(cells, x, len) && forall y: nat :: SeqRun(cells, y, len) ==> x <= y
  }

  lemma SplitsOf(cells: seq<Cell>, base: nat, end: nat, i: nat, remaining: nat, len: nat)
    requires Tiles(cells, base, end) && Coalesced(cells) && i < |cells| && cells[i].free
    requires remaining + len <= cells[i].size && len > 0
    ensures Splits(cells, cells[i].data + remaining, len) ==
              (if remaining > 0 then 1 else 0) + if remaining + len < cells[i].size then 1 else 0
  {
    if remaining == 0 {
      FreeBegins(cells, base, end, i);
    } else {
      assert cells[i].Has(cells[i].data + remaining - 1);
    }
    if remaining + len == cells[i].size {
      FreeEnds(cells, base, end, i);
    } else {
      assert cells[i].Has(cells[i].data + remaining + len);
    }
  }

  ghost predicate Admitted(c: Cell, len: nat, x: nat)
    requires len > 0
  {
    c.data <= x && x + len <= c.data + c.size && !Straddles(x, len)
  }

  /** The region fits into the cell without straddling a page boundary. */
  ghost predicate Admits(c: Cell, len: nat)
    requires len > 0
  {
    exists x: nat :: Admitted(c, len, x)
  }

  /** The boundary that a small region crosses. */
  lemma Boundary(data: nat, size: nat)
    requires 0 < size <= PAGE_SIZE && Straddles(data, size)
    ensures var b := (data + size - 1) / PAGE_SIZE * PAGE_SIZE;
            data < b < data + size && !Straddles(b, size)
  {
  }

  lemma AlwaysStraddles(data: nat, size: nat, x: nat)
    requires 0 < size <= PAGE_SIZE && Straddles(data, size) && data <= x < (data + size - 1) / PAGE_SIZE * PAGE_SIZE
    ensures Straddles(x, size)
  {
  }

  /** If the boundary leaves no room, no other place does. */
  lemma CandidateDecides(c: Cell, len: nat, boundary: nat)
    requires 0 < len <= PAGE_SIZE && len <= c.size && Straddles(c.data, len)
    requires boundary == (c.data + len - 1) / PAGE_SIZE * PAGE_SIZE
    ensures Admits(c, len) <==> boundary + len <= c.data + c.size
    ensures forall x: nat :: Admitted(c, len, x) ==> boundary <= x
  {
    Boundary(c.data, len);
    forall x: nat
      ensures Admitted(c, len, x) ==> boundary <= x
    {
      if c.data <= x < boundary {
        AlwaysStraddles(c.data, len, x);
      }
    }
    if boundary + len <= c.data + c.size {
      assert Admitted(c, len, boundary);
    }
  }

  class Arena {
    const base: nat
    const end: nat
    var slab: seq<Chunk>
    var slabTop: nat
    var slabFree: nat
    var used: map<nat, nat>
    var maxChunks: nat
    var allocations: nat
    var deallocations: nat
    ghost var cells: seq<Cell>
    ghost var recycled: seq<nat>

    /** What even an operation that throws keeps. */
    ghost predicate Structure()
      reads this
    {
      && Sound(slab, cells, recycled, slabFree, slabTop) && maxChunks <= |slab|
      && Tiles(cells, base, end) && end <= 0xFFFF_FFFF
      && Maps(UsedCells(cells), used)
    }

    ghost predicate Valid()
      reads this
    {
      Structure() && Coalesced(cells)
    }

    /** Address and length of every live region. */
    ghost function Regions(): map<nat, nat>
      reads this
    {
      Live(UsedCells(cells))
    }

    /** A slot can be had for another chunk. */
    ghost predicate SlotAvailable()
      reads this
    {
      slabFree != NO_CHUNK || slabTop < maxChunks
    }

    /** Slots for further chunks: recycled ones, and those never used. */
    ghost function SlotsLeft(): nat
      reads this
    {
      |recycled| + if slabTop < maxChunks then maxChunks - slabTop else 0
    }

    lemma Available()
      requires Recycles(slab, recycled, slabFree) && |slab| <= NO_CHUNK
      ensures SlotAvailable() <==> SlotsLeft() > 0
    {
      assert |recycled| > 0 ==> RecycledAt(slab, recycled, 0);
    }

    constructor (base: nat, end: nat)
      requires base <= end <= 0xFFFF_FFFF
      ensures Valid() && this.base == base && this.end == end && Regions() == map[] && maxChunks == 4000
      ensures allocations == 0 && deallocations == 0
    {
      this.base, this.end := base, end;
      maxChunks := 4000;
      var whole := Chunk(NO_CHUNK, NO_CHUNK, end - base, true, base);
      slab := seq(4000, _ => Chunk(NO_CHUNK, NO_CHUNK, 0, false, 0))[0 := whole];
      slabTop, slabFree, used, allocations, deallocations := 1, NO_CHUNK, map[], 0, 0;
      cells, recycled := [Cell(0, base, end - base, true)], [];
      new;
      assert LinkedAt(slab, cells, 0);
      assert Slots(cells) == {0};
    }

    // -----------------------------------------------------------------------
    // Slots
    // -----------------------------------------------------------------------

    method NewChunk(next: nat, prev: nat, size: nat, free: bool, data: nat) returns (ok: bool, idx: nat)
      requires Sound(slab, cells, recycled, slabFree, slabTop) && maxChunks <= |slab|
      modifies `slab, `slabTop, `slabFree, `recycled
      ensures ok <==> old(SlotAvailable())
      ensures !ok ==> unchanged(this)
      ensures ok ==> SlotsLeft() == old(SlotsLeft()) - 1
      ensures ok ==>
                && idx < |old(slab)| && idx !in Slots(cells)
                   && slab == old(slab)[idx := Chunk(next, prev, size, free, data)]
                && Partitioned(Slots(cells) + {idx}, recycled, slabTop) && Recycles(slab, recycled, slabFree)
                && slabTop <= |slab|
    {
      Available();
      if slabFree != NO_CHUNK {
        idx := slabFree;
        PopRecycled(slab, Slots(cells), recycled, slabFree, slabTop);
        slabFree := slab[idx].next;
        recycled := recycled[1..];
      } else {
        if slabTop >= maxChunks {
          return false, 0;
        }
        idx := slabTop;
        slabTop := slabTop + 1;
        NewTop();
      }
      assert SlotOk(Slots(cells) + {idx}, recycled, slabTop, idx);
      RecyclesUnchanged(slab, slab[idx := Chunk(next, prev, size, free, data)], recycled, slabFree);
      slab := slab[idx := Chunk(next, prev, size, free, data)];
      ok := true;
    }

    lemma NewTop()
      requires slabTop > 0 && Partitioned(Slots(cells), recycled, slabTop - 1)
      ensures Partitioned(Slots(cells) + {slabTop - 1}, recycled, slabTop) && slabTop - 1 !in Slots(cells)
    {
      assert SlotOk(Slots(cells), recycled, slabTop - 1, slabTop - 1);
      var more := Slots(cells) + {slabTop - 1};
      forall s
        ensures SlotOk(more, recycled, slabTop, s)
      {
        assert SlotOk(Slots(cells), recycled, slabTop - 1, s);
      }
    }

    // -----------------------------------------------------------------------
    // Chunk operations
    // -----------------------------------------------------------------------

    method SplitNext(idx: nat, size: nat, ghost i: nat) returns (ok: bool, ghost slot: nat)
      requires Sound(slab, cells, recycled, slabFree, slabTop) && maxChunks <= |slab|
      requires i < |cells| && cells[i].slot == idx && size <= cells[i].size
      modifies `slab, `slabTop, `slabFree, `recycled, `cells
      ensures ok <==> size == old(cells)[i].size || old(SlotAvailable())
      ensures !ok ==> unchanged(this)
      ensures slot !in Slots(old(cells))
      ensures ok ==> SlotsLeft() == old(SlotsLeft()) - if size < old(cells)[i].size then 1 else 0
      ensures ok ==> Sound(slab, cells, recycled, slabFree, slabTop) && maxChunks <= |slab|
      ensures ok ==> cells == if size < old(cells)[i].size then Split(old(cells), i, size, slot) else old(cells)
    {
      assert LinkedAt(slab, cells, i);
      slot := slabTop;
      assert SlotOk(Slots(cells), recycled, slabTop, slot);
      var ch := slab[idx];
      if ch.size > size {
        var newIdx: nat;
        ok, newIdx := NewChunk(ch.next, idx, ch.size - size, true, ch.data + size);
        if !ok {
          return;
        }
        slot := newIdx;
        ghost var before, middle := old(slab), slab;
        SplitLinks(before, cells, i, size, newIdx);
        if ch.next != NO_CHUNK {
          slab := slab[ch.next := slab[ch.next].(prev := newIdx)];
        }
        slab := slab[idx := slab[idx].(next := newIdx)];
        slab := slab[idx := slab[idx].(size := size)];
        assert slab == SplitSlab(before, idx, size, newIdx);
        SplitSlots(cells, i, size, newIdx);
        assert ch.next != NO_CHUNK ==> cells[i + 1].slot in Slots(cells);
        assert cells[i].slot in Slots(cells);
        RecyclesApart(middle, slab, Slots(cells) + {newIdx}, recycled, slabFree, slabTop);
        cells := Split(cells, i, size, newIdx);
      } else {
        slab := slab[idx := slab[idx].(size := size)];
        assert slab == old(slab);
      }
      ok := true;
    }
  
    method FreeChunk(idx: nat)
      requires idx < |slab| && idx !in Slots(cells)
      requires Linked(slab, cells) && Recycles(slab, recycled, slabFree)
               && Partitioned(Slots(cells) + {idx}, recycled, slabTop)
      requires slabTop <= |slab|
      modifies `slab, `slabFree, `recycled
      ensures Sound(slab, cells, recycled, slabFree, slabTop) && |slab| == |old(slab)|
    {
      PushRecycled(slab, Slots(cells), recycled, slabFree, slabTop, idx);
      UnlistedSlot(slab, cells, idx, slab[idx].(next := slabFree));
      slab := slab[idx := slab[idx].(next := slabFree)];
      slabFree := idx;
      recycled := [idx] + recycled;
    }

    method MergeNext(idx: nat, ghost i: nat)
      requires Sound(slab, cells, recycled, slabFree, slabTop)
      requires i + 1 < |cells| && cells[i].slot == idx
      modifies `slab, `slabFree, `recycled, `cells
      ensures Sound(slab, cells, recycled, slabFree, slabTop) && |slab| == |old(slab)|
      ensures cells == Merge(old(cells), i)
    {
      MergeLinks(slab, cells, i);
      ghost var before := slab;
      var nidx := slab[idx].next;
      slab := slab[idx := slab[idx].(size := slab[idx].size + slab[nidx].size)];
      slab := slab[idx := slab[idx].(next := slab[nidx].next)];
      if slab[idx].next != NO_CHUNK {
        slab := slab[slab[idx].next := slab[slab[idx].next].(prev := idx)];
      }
      assert slab == MergeSlab(before, idx);
      MergedRecycles(before, slab, i);
      cells := Merge(cells, i);
      FreeChunk(nidx);
    }

    lemma MergedRecycles(before: seq<Chunk>, after: seq<Chunk>, i: nat)
      requires Sound(before, cells, recycled, slabFree, slabTop) && i + 1 < |cells|
      requires cells[i].slot < |before| && before[cells[i].slot] == NodeOf(cells, i)
      requires cells[i + 1].slot < |before| && before[cells[i + 1].slot] == NodeOf(cells, i + 1)
      requires NextOf(cells, i + 1) == NO_CHUNK || NextOf(cells, i + 1) < |before|
      requires after == MergeSlab(before, cells[i].slot)
      ensures Recycles(after, recycled, slabFree)
    {
      assert cells[i].slot in Slots(cells);
      assert i + 2 < |cells| ==> cells[i + 2].slot in Slots(cells);
      RecyclesApart(before, after, Slots(cells), recycled, slabFree, slabTop);
    }
  
    /** First fit, from slot 0. */
    method FindFree(size: nat) returns (idx: nat, ghost i: nat)
      requires Linked(slab, cells)
      ensures i <= |cells| && idx == if i < |cells| then cells[i].slot else NO_CHUNK
      ensures i < |cells| ==> idx < |slab| && cells[i].free && cells[i].size >= size
      ensures forall k :: 0 <= k < i ==> !(cells[k].free && cells[k].size >= size)
    {
      idx, i := FindFreeFrom(0, size, 0);
    }

    method FindFreeFrom(start: nat, size: nat, ghost from: nat) returns (idx: nat, ghost i: nat)
      requires Linked(slab, cells) && from < |cells| && start == cells[from].slot
      ensures from <= i <= |cells| && idx == if i < |cells| then cells[i].slot else NO_CHUNK
      ensures i < |cells| ==> idx < |slab| && cells[i].free && cells[i].size >= size
      ensures forall k :: from <= k < i ==> !(cells[k].free && cells[k].size >= size)
    {
      idx, i := start, from;
      assert LinkedAt(slab, cells, from);
      while idx != NO_CHUNK
        invariant from <= i <= |cells| && if i < |cells| then idx == cells[i].slot < |slab| else idx == NO_CHUNK
        invariant forall k :: from <= k < i ==> !(cells[k].free && cells[k].size >= size)
        decreases |cells| - i
      {
        assert LinkedAt(slab, cells, i);
        assert i + 1 < |cells| ==> LinkedAt(slab, cells, i + 1);
        if slab[idx].free && slab[idx].size >= size {
          return;
        }
        idx := slab[idx].next;
        i := i + 1;
      }
    }

    lemma Marking(idx: nat, i: nat, free: bool, slab': seq<Chunk>, cells': seq<Cell>)
      requires Sound(slab, cells, recycled, slabFree, slabTop) && Tiles(cells, base, end)
      requires i < |cells| && cells[i].slot == idx < |slab|
      requires slab' == slab[idx := slab[idx].(free := free)] && cells' == Mark(cells, i, free)
      ensures slab[idx] == NodeOf(cells, i)
      ensures Sound(slab', cells', recycled, slabFree, slabTop) && slab'[idx] == NodeOf(cells', i)
      ensures Tiles(cells', base, end)
    {
      UpdateLinks(slab, cells, i, cells[i].(free := free));
      assert cells[i].slot in Slots(cells);
      MarkTiles(cells, base, end, i, free);
      RecyclesApart(slab, slab', Slots(cells), recycled, slabFree, slabTop);
      assert LinkedAt(slab', cells', i);
    }

    /** The tail of malloc and seq_alloc_aligned: the first bytes of a free chunk are taken. */
    method TakeFront(idx: nat, length: nat, ghost i: nat) returns (ok: bool, p: nat, ghost slot: nat)
      requires Structure() && i < |cells| && cells[i].slot == idx && cells[i].free && 0 < length <= cells[i].size
      modifies `slab, `slabTop, `slabFree, `recycled, `cells, `used
      ensures ok <==> length == old(cells)[i].size || old(SlotAvailable())
      ensures !ok ==> unchanged(this)
      ensures slot !in Slots(old(cells))
      ensures ok ==> Structure() && cells == Take(old(cells), i, length, slot) && p == old(cells)[i].data
      ensures ok ==> p !in old(Regions()) && Regions() == old(Regions())[p := length]
      ensures ok ==> UsedCells(cells) == UsedCells(old(cells)) + {TakenCell(old(cells), i, length)}
    {
      ok, slot := SplitNext(idx, length, i);
      if !ok {
        p := 0;
        return;
      }
      ghost var before := old(cells);
      if length < before[i].size {
        SplitTiles(before, base, end, i, length, slot);
      }
      assert LinkedAt(slab, cells, i);
      Marking(idx, i, false, slab[idx := slab[idx].(free := false)], Mark(cells, i, false));
      slab := slab[idx := slab[idx].(free := false)];
      cells := Mark(cells, i, false);
      used := used[slab[idx].data := idx];
      p := slab[idx].data;
      Taken(before, i, length, slot);
      MapsAdd(UsedCells(before), old(used), TakenCell(before, i, length));
    }

    /** What taking bytes does to the map and to the live regions. */
    lemma Taken(before: seq<Cell>, i: nat, length: nat, slot: nat)
      requires i < |before| && before[i].free && length <= before[i].size && slot !in Slots(before)
      requires Linked(slab, cells) && Tiles(cells, base, end) && cells == Take(before, i, length, slot)
      requires forall i, j {:trigger Different(before, i, j)} :: 0 <= i < |before| && 0 <= j < |before| && i != j ==>
                 Different(before, i, j)
      ensures UsedCells(cells) == UsedCells(before) + {TakenCell(before, i, length)}
      ensures forall d {:trigger d in UsedCells(before)} :: d in UsedCells(before) ==> d.data != before[i].data
      ensures before[i].data !in Live(UsedCells(before))
      ensures Live(UsedCells(cells)) == Live(UsedCells(before))[before[i].data := length]
    {
      TakeUsed(before, i, length, slot);
      UsedUnique(cells, base, end);
      var c := TakenCell(before, i, length);
      forall d | d in UsedCells(before)
        ensures d.data != c.data
      {
        var k :| 0 <= k < |before| && !before[k].free && before[k] == d;
        assert Different(before, i, k);
        assert c in UsedCells(cells) && d in UsedCells(cells);
      }
      LiveAdd(UsedCells(before), c);
    }
  
    // -----------------------------------------------------------------------
    // Allocation
    // -----------------------------------------------------------------------

    /** Fails only when no slot is left, and returns 0 without allocating only when no run of
        free bytes is long enough. */
    method Malloc(size: nat) returns (ok: bool, p: nat)
      requires Valid() && size <= SIZE_MAX
      modifies this
      ensures Valid() && allocations == (old(allocations) + 1) % COUNTER_RANGE
      ensures maxChunks == old(maxChunks) && deallocations == old(deallocations)
      ensures !ok ==> !old(SlotAvailable()) && HasRun(old(cells), FixupSize(size))
      ensures !ok ==> cells == old(cells) && used == old(used)
      ensures ok && HasRun(old(cells), FixupSize(size)) ==>
                && base <= p && FreeRun(old(cells), p, FixupSize(size))
                && p !in old(Regions()) && Regions() == old(Regions())[p := FixupSize(size)]
                && forall x: nat :: FreeRun(old(cells), x, FixupSize(size)) ==> p <= x
      ensures ok && !HasRun(old(cells), FixupSize(size)) ==> p == 0 && cells == old(cells)
      ensures ok ==> (p == 0 <==> !HasRun(old(cells), FixupSize(size)) || FreeRun(old(cells), 0, FixupSize(size)))
      ensures UsedCells(old(cells)) <= UsedCells(cells)
    {
      var length := FixupSize(size);
      ghost var before := cells;
      var idx, i := FindFree(length);
      allocations := (allocations + 1) % COUNTER_RANGE;
      if idx != NO_CHUNK {
        ghost var slot: nat;
        CellIsRun(before, i, before[i].data, length);
        TilesBounds(before, base, end, i);
        LowestRun(before, base, end, i, length);
        ok, p, slot := TakeFront(idx, length, i);
        if ok {
          TakeCoalesces(before, i, length, slot);
        }
      } else {
        NoCellNoRun(cells, base, end, length);
        ok, p := true, 0;
      }
    }

    /** The candidate a free chunk offers: its beginning, or the page boundary inside it. */
    method PlaceInPage(idx: nat, size: nat, ghost i: nat) returns (fits: bool, remaining: nat)
      requires Structure() && i < |cells| && cells[i].slot == idx && 0 < size <= PAGE_SIZE && size <= cells[i].size
      ensures fits <==> Admits(cells[i], size)
      ensures fits ==> remaining + size <= cells[i].size && !Straddles(cells[i].data + remaining, size)
      ensures fits ==> forall x: nat :: Admitted(cells[i], size, x) ==> cells[i].data + remaining <= x
    {
      assert LinkedAt(slab, cells, i);
      var ch := slab[idx];
      if Straddles(ch.data, size) {
        Boundary(ch.data, size);
        var boundary := (ch.data + size - 1) / PAGE_SIZE * PAGE_SIZE;
        TilesBounds(cells, base, end, i);
        assert boundary % 0x1_0000_0000 >= ch.data;   // no page boundary overflow
        remaining := boundary - ch.data;
        fits := ch.size - remaining >= size;
        CandidateDecides(cells[i], size, boundary);
      } else {
        fits, remaining := true, 0;
        assert Admitted(cells[i], size, cells[i].data);
      }
    }

    /** A region inside one page. */
    method SeqAllocAligned(size: nat) returns (ok: bool, p: nat)
      requires Valid() && size <= SIZE_MAX
      modifies this
      ensures allocations == (old(allocations) + 1) % COUNTER_RANGE
      ensures ok ==> Valid()
      ensures !ok ==> Structure() && Regions() == old(Regions())
      ensures !ok ==>
                || FixupSize(size) > PAGE_SIZE
                || exists x: nat :: LowestSeq(old(cells), x, FixupSize(size))
                                    && old(SlotsLeft()) < Splits(old(cells), x, FixupSize(size))
      ensures ok ==> FixupSize(size) <= PAGE_SIZE
      ensures ok && HasSeqRun(old(cells), FixupSize(size)) ==>
                && base <= p && LowestSeq(old(cells), p, FixupSize(size))
                && Splits(old(cells), p, FixupSize(size)) <= old(SlotsLeft())
                && p !in old(Regions()) && Regions() == old(Regions())[p := FixupSize(size)]
      ensures ok && !HasSeqRun(old(cells), FixupSize(size)) ==> p == 0 && cells == old(cells)
      ensures ok ==> (p == 0 <==> !HasSeqRun(old(cells), FixupSize(size)) || SeqRun(old(cells), 0, FixupSize(size)))
    {
      var length := FixupSize(size);
      allocations := (allocations + 1) % COUNTER_RANGE;
      if length > PAGE_SIZE {
        return false, 0;
      }
      var found, idx, remaining, i := FindInPage(length);
      if !found {
        return true, 0;
      }
      SeqRunAt(i, remaining, length);
      SplitsOf(cells, base, end, i, remaining, length);
      assert LowestSeq(cells, cells[i].data + remaining, length);
      ok, p := TakeInPage(idx, remaining, length, i);
    }

    /** The first chunk that admits the region. */
    method FindInPage(length: nat) returns (found: bool, idx: nat, remaining: nat, ghost i: nat)
      requires Valid() && 0 < length <= PAGE_SIZE
      ensures found ==>
                && i < |cells| && cells[i].slot == idx && cells[i].free
                && remaining + length <= cells[i].size && !Straddles(cells[i].data + remaining, length)
                && forall x: nat :: SeqRun(cells, x, length) ==> cells[i].data + remaining <= x
      ensures !found ==> !HasSeqRun(cells, length)
    {
      idx, i := 0, 0;
      while true
        invariant i < |cells| && cells[i].slot == idx
        invariant forall k {:trigger Admits(cells[k], length)} :: 0 <= k < i ==>
                    !(cells[k].free && Admits(cells[k], length))
        decreases |cells| - i
      {
        ghost var from := i;
        idx, i := FindFreeFrom(idx, length, i);
        TooSmall(from, i, length);
        if idx == NO_CHUNK {
          found, remaining := false, 0;
          break;
        }
        found, remaining := PlaceInPage(idx, length, i);
        if found {
          LowestSeqRun(i, remaining, length);
          return;
        }
        assert LinkedAt(slab, cells, i);
        assert i + 1 < |cells| ==> LinkedAt(slab, cells, i + 1);
        idx := slab[idx].next;
        i := i + 1;
        if idx == NO_CHUNK {
          break;
        }
      }
      NoneAdmits(length);
    }

    lemma TooSmall(from: nat, i: nat, length: nat)
      requires from <= i <= |cells| && length > 0
      requires forall k :: from <= k < i ==> !(cells[k].free && cells[k].size >= length)
      ensures forall k {:trigger Admits(cells[k], length)} :: from <= k < i ==>
                !(cells[k].free && Admits(cells[k], length))
    {
    }

    lemma LowestSeqRun(i: nat, remaining: nat, length: nat)
      requires Valid() && i < |cells| && length > 0
      requires forall k {:trigger Admits(cells[k], length)} :: 0 <= k < i ==>
                 !(cells[k].free && Admits(cells[k], length))
      requires forall x: nat :: Admitted(cells[i], length, x) ==> cells[i].data + remaining <= x
      requires remaining <= cells[i].size
      ensures forall x: nat :: SeqRun(cells, x, length) ==> cells[i].data + remaining <= x
    {
      forall x: nat | SeqRun(cells, x, length)
        ensures cells[i].data + remaining <= x
      {
        var k := RunInOneCell(cells, base, end, x, length);
        assert Admitted(cells[k], length, x) && Admits(cells[k], length);
        if i < k {
          TilesOrder(cells, base, end, i, k);
        }
      }
    }

    lemma NoneAdmits(length: nat)
      requires Valid() && length > 0
      requires forall k {:trigger Admits(cells[k], length)} :: 0 <= k < |cells| ==>
                 !(cells[k].free && Admits(cells[k], length))
      ensures !HasSeqRun(cells, length)
    {
      forall x: nat
        ensures !SeqRun(cells, x, length)
      {
        if SeqRun(cells, x, length) {
          var k := RunInOneCell(cells, base, end, x, length);
          assert Admitted(cells[k], length, x);
          assert Admits(cells[k], length);
        }
      }
    }

    lemma SeqRunAt(i: nat, remaining: nat, length: nat)
      requires Structure() && i < |cells| && cells[i].free && length > 0
      requires remaining + length <= cells[i].size && !Straddles(cells[i].data + remaining, length)
      ensures SeqRun(cells, cells[i].data + remaining, length) && HasSeqRun(cells, length) && base <= cells[i].data
    {
      CellIsRun(cells, i, cells[i].data + remaining, length);
      assert SeqRun(cells, cells[i].data + remaining, length);
      TilesBounds(cells, base, end, i);
    }

    /** Split at the page boundary if need be, and take what follows. */
    method TakeInPage(idx0: nat, remaining: nat, length: nat, ghost i0: nat) returns (ok: bool, p: nat)
      requires Valid() && i0 < |cells| && cells[i0].slot == idx0 && cells[i0].free
      requires length > 0 && remaining + length <= cells[i0].size
      modifies `slab, `slabTop, `slabFree, `recycled, `cells, `used
      ensures ok <==> (if remaining > 0 then 1 else 0) + (if remaining + length < old(cells)[i0].size then 1 else 0)
                      <= old(SlotsLeft())
      ensures ok ==> Valid() && p == old(cells)[i0].data + remaining
      ensures ok ==> p !in old(Regions()) && Regions() == old(Regions())[p := length]
      ensures !ok ==> Structure() && Regions() == old(Regions())
    {
      ghost var slot: nat;
      var idx := idx0;
      ghost var i := i0;
      Available();
      if remaining > 0 {
        ok, slot := SplitNext(idx, remaining, i);
        if !ok {
          p := 0;
          return;
        }
        SplitTiles(old(cells), base, end, i, remaining, slot);
        SplitKeepsUsed(old(cells), i, remaining, slot);
        SplitCoalesces(old(cells), i, remaining, slot);
        assert LinkedAt(slab, cells, i);
        idx := slab[idx].next;
        i := i + 1;
      }
      ghost var before := cells;
      Available();
      ok, p, slot := TakeFront(idx, length, i);
      if ok {
        TakeCoalesces(before, i, length, slot);
      }
    }

    // -----------------------------------------------------------------------
    // Freeing
    // -----------------------------------------------------------------------

    method MergeFree(idx: nat, ghost i: nat)
      requires Structure() && i + 1 < |cells| && cells[i].slot == idx && cells[i].free && cells[i + 1].free
      modifies `slab, `slabFree, `recycled, `cells
      ensures Structure() && cells == Merge(old(cells), i) && UsedCells(cells) == UsedCells(old(cells))
    {
      MergeTiles(cells, base, end, i);
      MergeKeepsUsed(cells, i);
      MergeNext(idx, i);
    }

    lemma Unmapping(i: nat)
      requires Structure() && i < |cells| && !cells[i].free
      ensures Maps(UsedCells(Mark(cells, i, true)), used - {cells[i].data})
      ensures Live(UsedCells(Mark(cells, i, true))) == Regions() - {cells[i].data}
    {
      var c := cells[i];
      UpdateUsed(cells, i, c.(free := true));
      assert c in UsedCells(cells);
      assert UsedCells(Mark(cells, i, true)) == UsedCells(cells) - {c};
      UsedUnique(cells, base, end);
      LiveRemove(UsedCells(cells), c);
      MapsRemove(UsedCells(cells), used, c);
    }

    /** The chunk leaves the map and becomes free; its neighbours are not looked at yet. */
    method MarkFree(idx: nat, ghost i: nat)
      requires Structure() && i < |cells| && cells[i].slot == idx && !cells[i].free
      modifies `slab, `cells, `used, `deallocations
      ensures Structure() && cells == Mark(old(cells), i, true) && idx < |slab| && slab[idx] == NodeOf(cells, i)
      ensures Regions() == old(Regions()) - {old(cells)[i].data}
      ensures deallocations == (old(deallocations) + 1) % COUNTER_RANGE
    {
      deallocations := (deallocations + 1) % COUNTER_RANGE;
      assert LinkedAt(slab, cells, i);
      Marking(idx, i, true, slab[idx := slab[idx].(free := true)], Mark(cells, i, true));
      Unmapping(i);
      used := used - {slab[idx].data};
      slab := slab[idx := slab[idx].(free := true)];
      cells := Mark(cells, i, true);
    }

    method InternalFree(idx: nat, ghost i: nat)
      requires Valid() && i < |cells| && cells[i].slot == idx && !cells[i].free
      modifies this
      ensures Valid() && Regions() == old(Regions()) - {old(cells)[i].data}
      ensures deallocations == (old(deallocations) + 1) % COUNTER_RANGE
      ensures maxChunks == old(maxChunks) && allocations == old(allocations)
    {
      ghost var before := cells;
      MarkFree(idx, i);
      MarkCoalesces(before, i, cells);
      MergeFollowing(idx, i);
      MergePrevious(idx, i);
    }

    method MergeFollowing(idx: nat, ghost i: nat)
      requires Structure() && i < |cells| && cells[i].slot == idx < |slab| && slab[idx] == NodeOf(cells, i)
               && cells[i].free
      requires forall j {:trigger Alternate(cells, j)} :: 0 <= j && j + 1 < |cells| && j != i && j != i - 1 ==>
                 Alternate(cells, j)
      modifies `slab, `slabFree, `recycled, `cells
      ensures Structure() && UsedCells(cells) == UsedCells(old(cells)) && CoalescedBut(cells, i - 1)
      ensures i < |cells| && cells[i].slot == idx < |slab| && slab[idx] == NodeOf(cells, i) && cells[i].free
    {
      var next := slab[idx].next;
      assert i + 1 < |cells| ==> LinkedAt(slab, cells, i + 1);
      if next != NO_CHUNK && slab[next].free {
        MergeCoalesces(cells, i, i - 1);
        MergeFree(idx, i);
        assert LinkedAt(slab, cells, i);
      }
    }

    method MergePrevious(idx: nat, ghost i: nat)
      requires Structure() && i < |cells| && cells[i].slot == idx < |slab| && slab[idx] == NodeOf(cells, i)
               && cells[i].free
      requires CoalescedBut(cells, i - 1)
      modifies `slab, `slabFree, `recycled, `cells
      ensures Valid() && UsedCells(cells) == UsedCells(old(cells))
    {
      var pidx := slab[idx].prev;
      assert i > 0 ==> LinkedAt(slab, cells, i - 1);
      if pidx != NO_CHUNK && slab[pidx].free {
        MergeCoalesces(cells, i - 1, -1);
        MergeFree(pidx, i - 1);
      }
    }

    lemma UsedPointer(p: nat) returns (i: nat)
      requires Structure() && p in used
      ensures i < |cells| && !cells[i].free && cells[i].data == p && cells[i].slot == used[p] < |slab|
      ensures slab[used[p]] == NodeOf(cells, i) && p in Regions() && Regions()[p] == cells[i].size
    {
      assert Backed(UsedCells(cells), p, used[p]);
      var c :| c in UsedCells(cells) && c.data == p && c.slot == used[p];
      i :| 0 <= i < |cells| && !cells[i].free && cells[i] == c;
      assert LinkedAt(slab, cells, i);
      UsedUnique(cells, base, end);
      LiveAt(UsedCells(cells), c);
    }

    lemma MapIsRegions()
      requires Structure()
      ensures forall p :: p in used <==> p in Regions()
    {
      forall p | p in Regions()
        ensures p in used
      {
        var c :| c in UsedCells(cells) && c.data == p;
      }
      forall p | p in used
        ensures p in Regions()
      {
        var i := UsedPointer(p);
      }
    }

    method Free(p: nat) returns (r: int)
      requires Valid()
      modifies this
      ensures Valid() && (r == 0 <==> p in old(Regions())) && (r == 0 || r == -1)
      ensures Regions() == old(Regions()) - {p}
      ensures r == -1 ==> unchanged(this)
    {
      MapIsRegions();
      if p !in used {
        return -1;
      }
      var idx := used[p];
      ghost var i := UsedPointer(p);
      assert !slab[idx].free;
      InternalFree(idx, i);
      return 0;
    }

    /** The allocated size of a pointer, or 0. */
    method Size(p: nat) returns (n: nat)
      requires Structure()
      ensures n == if p in Regions() then Regions()[p] else 0
    {
      MapIsRegions();
      if p !in used {
        return 0;
      }
      ghost var i := UsedPointer(p);
      return slab[used[p]].size;
    }

    method BytesFree() returns (total: nat)
      requires Structure()
      ensures total == Bytes(cells, |cells|, true)
    {
      total := BytesMarked(true);
    }

    method BytesUsed() returns (total: nat)
      requires Structure()
      ensures total == Bytes(cells, |cells|, false)
    {
      total := BytesMarked(false);
    }

    method BytesMarked(free: bool) returns (total: nat)
      requires Structure()
      ensures total == Bytes(cells, |cells|, free)
    {
      total := 0;
      var idx := 0;
      ghost var i := 0;
      assert LinkedAt(slab, cells, 0);
      while idx != NO_CHUNK
        invariant 0 <= i <= |cells| && if i < |cells| then idx == cells[i].slot < |slab| else idx == NO_CHUNK
        invariant total == Bytes(cells, i, free)
        decreases |cells| - i
      {
        assert LinkedAt(slab, cells, i);
        assert i + 1 < |cells| ==> LinkedAt(slab, cells, i + 1);
        if slab[idx].free == free {
          total := total + slab[idx].size;
        }
        idx := slab[idx].next;
        i := i + 1;
      }
    }

    /** Bytes are neither lost nor made. */
    lemma BytesAreConserved()
      requires Structure()
      ensures Bytes(cells, |cells|, true) + Bytes(cells, |cells|, false) == end - base
    {
      BytesAdd(cells, base, end, |cells|);
    }
  
    // -----------------------------------------------------------------------
    // Growing
    // -----------------------------------------------------------------------

    /** The live region at p has another length now. */
    lemma Resized(before: seq<Cell>, i: nat, newlen: nat)
      requires Tiles(before, base, end) && i < |before| && !before[i].free
      requires UsedCells(cells) == UsedCells(before) - {before[i]} + {before[i].(size := newlen)}
      requires Maps(UsedCells(before), used)
      ensures Maps(UsedCells(cells), used)
      ensures Regions() == Live(UsedCells(before))[before[i].data := newlen]
    {
      assert before[i] in UsedCells(before);
      UsedUnique(before, base, end);
      LiveResize(UsedCells(before), before[i], newlen);
      MapsResize(UsedCells(before), used, before[i], newlen);
    }

    /** Part of the next chunk is taken over. */
    method TakePart(idx: nat, newlen: nat, ghost i: nat)
      requires Valid() && i + 1 < |cells| && cells[i].slot == idx && !cells[i].free && cells[i + 1].free
      requires cells[i].size < newlen < cells[i].size + cells[i + 1].size
      modifies `slab, `cells
      ensures Valid() && Regions() == old(Regions())[old(cells)[i].data := newlen]
      ensures i < |cells| && cells[i] == old(cells)[i].(size := newlen)
    {
      ghost var before := cells;
      assert LinkedAt(slab, cells, i) && LinkedAt(slab, cells, i + 1);
      var nidx := slab[idx].next;
      var subsume := newlen - slab[idx].size;
      ghost var next := cells[i + 1].(size := cells[i + 1].size - subsume, data := cells[i + 1].data + subsume);
      UpdateLinks(slab, cells, i + 1, next);
      assert cells[i].slot in Slots(cells) && cells[i + 1].slot in Slots(cells);
      slab := slab[nidx := slab[nidx].(size := slab[nidx].size - subsume, data := slab[nidx].data + subsume)];
      cells := cells[i + 1 := next];
      UpdateLinks(slab, cells, i, cells[i].(size := newlen));
      slab := slab[idx := slab[idx].(size := newlen)];
      cells := cells[i := cells[i].(size := newlen)];
      assert cells == Shift(before, i, newlen);
      RecyclesApart(old(slab), slab, Slots(before), recycled, slabFree, slabTop);
      ShiftTiles(before, base, end, i, newlen);
      ShiftCoalesces(before, i, newlen);
      ShiftUsed(before, i, newlen);
      Resized(before, i, newlen);
    }

    /** All of the next chunk is taken over, and its slot recycled. */
    method TakeAll(idx: nat, newlen: nat, ghost i: nat)
      requires Valid() && i + 1 < |cells| && cells[i].slot == idx && !cells[i].free && cells[i + 1].free
      requires newlen == cells[i].size + cells[i + 1].size
      modifies `slab, `cells, `slabFree, `recycled
      ensures Valid() && Regions() == old(Regions())[old(cells)[i].data := newlen]
      ensures i < |cells| && cells[i] == old(cells)[i].(size := newlen)
    {
      ghost var before := cells;
      MergeLinks(slab, cells, i);
      var nidx := slab[idx].next;
      var subsume := newlen - slab[idx].size;
      slab := slab[nidx := slab[nidx].(size := slab[nidx].size - subsume, data := slab[nidx].data + subsume)];
      slab := slab[idx := slab[idx].(size := newlen)];
      slab := slab[idx := slab[idx].(next := slab[nidx].next)];
      if slab[idx].next != NO_CHUNK {
        slab := slab[slab[idx].next := slab[slab[idx].next].(prev := idx)];
      }
      Absorbed(old(slab), slab, nidx, i);
      cells := Merge(cells, i);
      MergeTiles(before, base, end, i);
      MergeGrowsUsed(before, i);
      MergeCoalesces(before, i, -1);
      FreeChunk(nidx);
      Resized(before, i, newlen);
    }

    lemma Absorbed(before: seq<Chunk>, after: seq<Chunk>, nidx: nat, i: nat)
      requires Sound(before, cells, recycled, slabFree, slabTop) && i + 1 < |cells| && nidx == cells[i + 1].slot
      requires cells[i].slot < |before| && before[cells[i].slot] == NodeOf(cells, i)
      requires cells[i + 1].slot < |before| && before[cells[i + 1].slot] == NodeOf(cells, i + 1)
      requires NextOf(cells, i + 1) == NO_CHUNK || NextOf(cells, i + 1) < |before|
      requires |after| == |before| && after == MergeSlab(before, cells[i].slot)[nidx := after[nidx]]
      ensures Linked(after, Merge(cells, i)) && Recycles(after, recycled, slabFree)
    {
      MergeLinks(before, cells, i);
      var merged := MergeSlab(before, cells[i].slot);
      MergedRecycles(before, merged, i);
      UnlistedSlot(merged, Merge(cells, i), nidx, after[nidx]);
      assert nidx in Slots(cells);
      RecyclesApart(merged, after, Slots(cells), recycled, slabFree, slabTop);
    }

    /** Grow the used chunk at idx into its free neighbour, if that is large enough. */
    method SubsumeNext(idx: nat, newlen: nat, ghost i: nat)
      requires Valid() && i + 1 < |cells| && cells[i].slot == idx && !cells[i].free && cells[i + 1].free
      requires cells[i].size < newlen
      modifies `slab, `cells, `slabFree, `recycled
      ensures Valid()
      ensures if old(cells)[i].size + old(cells)[i + 1].size < newlen then unchanged(this)
              else Regions() == old(Regions())[old(cells)[i].data := newlen]
                   && i < |cells| && cells[i] == old(cells)[i].(size := newlen)
    {
      assert LinkedAt(slab, cells, i) && LinkedAt(slab, cells, i + 1);
      var nidx := slab[idx].next;
      if slab[idx].size + slab[nidx].size < newlen {
        return;
      }
      if slab[idx].size + slab[nidx].size == newlen {
        TakeAll(idx, newlen, i);
      } else {
        TakePart(idx, newlen, i);
      }
    }

    /** The bytes after a used cell are free exactly if the next cell is, and large enough. */
    lemma RoomAfter(i: nat, more: nat)
      requires Valid() && i < |cells| && more > 0
      ensures FreeRun(cells, cells[i].data + cells[i].size, more) <==>
                i + 1 < |cells| && cells[i + 1].free && cells[i + 1].size >= more
    {
      var b := cells[i].data + cells[i].size;
      if i + 1 < |cells| {
        assert Adjacent(cells, i);
        if cells[i + 1].free && cells[i + 1].size >= more {
          CellIsRun(cells, i + 1, b, more);
        }
      }
      if FreeRun(cells, b, more) {
        var j := RunInOneCell(cells, base, end, b, more);
        if j != i + 1 {
          NotNextCell(cells, base, end, i, j);
        }
      }
    }
  
    /** What realloc does to a live region, seen from the regions and free bytes before it. */
    ghost predicate Reallocated(before: seq<Cell>, regions: map<nat, nat>, ptr: nat, newsize: nat, p: nat, copy: nat)
      requires ptr in regions && newsize > 0
      reads this
    {
      var len := regions[ptr];
      if newsize <= len then
        // large enough as it is
        p == ptr && copy == 0 && Regions() == regions
      else if FreeRun(before, ptr + len, newsize - len) then
        // grown in place
        p == ptr && copy == 0 && Regions() == regions[ptr := newsize]
      else if !HasRun(before, newsize) then
        // failed
        p == 0 && copy == 0 && Regions() == regions
      else if p != 0 then
        // moved to bytes that were free
        FreeRun(before, p, newsize) && copy == len && p != ptr && Regions() == (regions - {ptr})[p := newsize]
      else
        // moved to address 0, which the caller takes for a failure
        base == 0 && FreeRun(before, 0, newsize) && copy == 0 && 0 !in regions && Regions() == regions[0 := newsize]
    }

    method Realloc(ptr: nat, size: nat) returns (ok: bool, p: nat, copy: nat)
      requires Valid() && size <= SIZE_MAX
      modifies this
      ensures Valid()
      ensures !ok ==> cells == old(cells) && used == old(used) && !old(SlotAvailable())
      ensures ok && ptr == 0 && HasRun(old(cells), FixupSize(size)) ==>
                && copy == 0 && FreeRun(old(cells), p, FixupSize(size))
                && p !in old(Regions()) && Regions() == old(Regions())[p := FixupSize(size)]
      ensures ok && ptr == 0 && !HasRun(old(cells), FixupSize(size)) ==>
                p == 0 && copy == 0 && Regions() == old(Regions())
      ensures ok && ptr != 0 && ptr !in old(Regions()) ==> p == 0 && copy == 0 && unchanged(this)
      ensures ok && ptr != 0 && ptr in old(Regions()) ==>
                Reallocated(old(cells), old(Regions()), ptr, FixupSize(size), p, copy)
    {
      if ptr == 0 {
        ok, p := Malloc(size);
        copy := 0;
        return;
      }
      MapIsRegions();
      if ptr !in used {
        return true, 0, 0;
      }
      var idx := used[ptr];
      ghost var i := UsedPointer(ptr);
      var newsize := FixupSize(size);
      if slab[idx].size >= newsize {
        return true, slab[idx].data, 0;
      }
      ok, p, copy := Grow(idx, newsize, i);
    }

    /** realloc of a chunk that is too small. */
    method Grow(idx: nat, newsize: nat, ghost i: nat) returns (ok: bool, p: nat, copy: nat)
      requires Valid() && i < |cells| && cells[i].slot == idx && !cells[i].free && idx < |slab|
               && slab[idx] == NodeOf(cells, i)
      requires cells[i].size < newsize <= SIZE_MAX && FixupSize(newsize) == newsize && cells[i].data > 0
      requires cells[i].data in Regions() && Regions()[cells[i].data] == cells[i].size
      modifies this
      ensures Valid()
      ensures !ok ==> cells == old(cells) && used == old(used) && !old(SlotAvailable())
      ensures ok ==> Reallocated(old(cells), old(Regions()), old(cells)[i].data, newsize, p, copy)
    {
      RoomAfter(i, newsize - cells[i].size);
      assert i + 1 < |cells| ==> LinkedAt(slab, cells, i + 1);
      var next := slab[idx].next;
      if next != NO_CHUNK && slab[next].free {
        SubsumeNext(idx, newsize, i);
        assert LinkedAt(slab, cells, i);
        if slab[idx].size >= newsize {
          return true, slab[idx].data, 0;
        }
      }
      ok, p, copy := Move(idx, newsize, i);
    }

    /** Allocate elsewhere, then free the old chunk. */
    method Move(idx: nat, newsize: nat, ghost i: nat) returns (ok: bool, p: nat, copy: nat)
      requires Valid() && i < |cells| && cells[i].slot == idx && !cells[i].free && idx < |slab|
               && slab[idx] == NodeOf(cells, i)
      requires newsize <= SIZE_MAX && FixupSize(newsize) == newsize
      requires cells[i].data in Regions()
      modifies this
      ensures Valid()
      ensures !ok ==> cells == old(cells) && used == old(used) && !old(SlotAvailable())
      ensures ok && !HasRun(old(cells), newsize) ==> p == 0 && copy == 0 && Regions() == old(Regions())
      ensures ok && HasRun(old(cells), newsize) ==> base <= p && FreeRun(old(cells), p, newsize) && p !in old(Regions())
      ensures ok && HasRun(old(cells), newsize) && p == 0 ==> copy == 0 && Regions() == old(Regions())[0 := newsize]
      ensures ok && HasRun(old(cells), newsize) && p != 0 ==>
                && copy == old(cells)[i].size && p != old(cells)[i].data
                && Regions() == (old(Regions()) - {old(cells)[i].data})[p := newsize]
    {
      var oldLen := slab[idx].size;
      ghost var c, regions := cells[i], Regions();
      assert c in UsedCells(cells);
      ok, p := Malloc(newsize);
      copy := 0;
      if ok && p != 0 {
        copy := oldLen;
        assert c in UsedCells(cells);
        Retire(idx, c, regions, p, newsize);
      }
    }

    method Retire(idx: nat, ghost c: Cell, ghost regions: map<nat, nat>, p: nat, newsize: nat)
      requires Valid() && c in UsedCells(cells) && c.slot == idx
      requires c.data in regions && p !in regions && Regions() == regions[p := newsize]
      modifies this
      ensures Valid() && p != c.data && Regions() == (regions - {c.data})[p := newsize]
    {
      ghost var k :| 0 <= k < |cells| && !cells[k].free && cells[k] == c;
      InternalFree(idx, k);
      assert regions[p := newsize] - {c.data} == (regions - {c.data})[p := newsize];
    }
  }
}
