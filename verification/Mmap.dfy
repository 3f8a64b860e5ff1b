/**
  The mmap area: a bump pointer, and a free list of ranges that were unmapped below it.
  Every byte between the start of the area and the pointer is either mapped or in exactly
  one range of the free list.
 */
module Mmap {
  const PAGE_SIZE: nat := 4096

  datatype Range = Range(addr: nat, size: nat) {
    predicate Has(a: int) { addr <= a < addr + size }

    /** One of the two ranges is in the other. */
    predicate Within(mem: nat, memsize: nat) {
      (addr >= mem && addr + size <= mem + memsize) || (mem >= addr && mem + memsize <= addr + size)
    }

    predicate Equals(mem: nat, memsize: nat) {
      addr == mem && addr + size == mem + memsize
    }
  }

  function Bytes(r: Range): set<nat> {
    set a: nat | r.addr <= a < r.addr + r.size && r.Has(a)
  }

  function RoundUp(n: nat): (r: nat)
    ensures n <= r < n + PAGE_SIZE && r % PAGE_SIZE == 0
    ensures n % PAGE_SIZE == 0 ==> r == n
  {
    (n + PAGE_SIZE - 1) / PAGE_SIZE * PAGE_SIZE
  }

  // -------------------------------------------------------------------------
  // Lists of ranges
  // -------------------------------------------------------------------------

  ghost predicate Covers(lines: seq<Range>, a: int) {
    exists i :: 0 <= i < |lines| && lines[i].Has(a)
  }

  ghost predicate Apart(r: Range, s: Range) {
    r.addr + r.size <= s.addr || s.addr + s.size <= r.addr
  }

  /** No line is empty, and no two overlap. */
  ghost predicate Tidy(lines: seq<Range>) {
    && (forall i :: 0 <= i < |lines| ==> lines[i].size > 0)
    && (forall i, j {:trigger Apart(lines[i], lines[j])} :: 0 <= i < j < |lines| ==> Apart(lines[i], lines[j]))
  }

  /** Bytes of r have left lines, and nothing else has changed. */
  ghost predicate Taken(before: seq<Range>, after: seq<Range>, r: Range) {
    forall a {:trigger Covers(after, a)} {:trigger Covers(before, a)} ::
      Covers(after, a) <==> Covers(before, a) && !r.Has(a)
  }

  /** Bytes of r have joined lines, and nothing else has changed. */
  ghost predicate Added(before: seq<Range>, after: seq<Range>, r: Range) {
    forall a {:trigger Covers(after, a)} {:trigger Covers(before, a)} ::
      Covers(after, a) <==> Covers(before, a) || r.Has(a)
  }

  function Erased(lines: seq<Range>, i: nat): seq<Range>
    requires i < |lines|
  {
    lines[..i] + lines[i + 1..]
  }

  lemma EraseTidy(lines: seq<Range>, i: nat)
    requires Tidy(lines) && i < |lines|
    ensures Tidy(Erased(lines, i))
  {
    var e := Erased(lines, i);
    forall m, n | 0 <= m < n < |e|
      ensures Apart(e[m], e[n])
    {
      assert Apart(lines[if m < i then m else m + 1], lines[if n < i then n else n + 1]);
    }
  }

  lemma OtherLine(lines: seq<Range>, i: nat, k: nat, a: int)
    requires Tidy(lines) && i < |lines| && k < |lines| && i != k && lines[k].Has(a)
    ensures !lines[i].Has(a)
  {
    if i < k {
      assert Apart(lines[i], lines[k]);
    } else {
      assert Apart(lines[k], lines[i]);
    }
  }

  lemma EraseCovers(lines: seq<Range>, i: nat, a: int)
    requires Tidy(lines) && i < |lines|
    ensures Covers(Erased(lines, i), a) <==> Covers(lines, a) && !lines[i].Has(a)
  {
    var e := Erased(lines, i);
    if Covers(e, a) {
      var k :| 0 <= k < |e| && e[k].Has(a);
      var m := if k < i then k else k + 1;
      assert e[k] == lines[m];
      OtherLine(lines, i, m, a);
    }
    if Covers(lines, a) && !lines[i].Has(a) {
      var k :| 0 <= k < |lines| && lines[k].Has(a);
      var m := if k < i then k else k - 1;
      assert e[m] == lines[k];
    }
  }

  lemma EraseTakes(lines: seq<Range>, i: nat)
    requires Tidy(lines) && i < |lines|
    ensures Tidy(Erased(lines, i)) && Taken(lines, Erased(lines, i), lines[i])
  {
    EraseTidy(lines, i);
    forall a
      ensures Covers(Erased(lines, i), a) <==> Covers(lines, a) && !lines[i].Has(a)
    {
      EraseCovers(lines, i, a);
    }
  }

  /** A line replaced by what is left of it after the bytes of r. */
  lemma ShrinkTakes(lines: seq<Range>, i: nat, left: Range, r: Range)
    requires Tidy(lines) && i < |lines| && left.size > 0
    requires forall a :: lines[i].Has(a) <==> left.Has(a) || r.Has(a)
    requires Apart(left, r)
    ensures Tidy(lines[i := left]) && Taken(lines, lines[i := left], r)
  {
    var e := lines[i := left];
    LeftInside(lines[i], left, r);
    forall a
      ensures Covers(e, a) <==> Covers(lines, a) && !r.Has(a)
    {
      if Covers(e, a) {
        var k :| 0 <= k < |e| && e[k].Has(a);
        assert lines[k].Has(a);
        if k != i {
          assert Apart(lines[if k < i then k else i], lines[if k < i then i else k]);
        }
      }
      if Covers(lines, a) && !r.Has(a) {
        var k :| 0 <= k < |lines| && lines[k].Has(a);
        assert e[k].Has(a);
      }
    }
    forall m, n | 0 <= m < n < |e|
      ensures Apart(e[m], e[n])
    {
      assert Apart(lines[m], lines[n]);
    }
  }

  lemma LeftInside(whole: Range, left: Range, r: Range)
    requires left.size > 0 && forall a :: whole.Has(a) <==> left.Has(a) || r.Has(a)
    ensures whole.addr <= left.addr && left.addr + left.size <= whole.addr + whole.size
    ensures r.size > 0 ==> whole.addr <= r.addr && r.addr + r.size <= whole.addr + whole.size
  {
    assert left.Has(left.addr) && left.Has(left.addr + left.size - 1);
    assert whole.Has(left.addr) && whole.Has(left.addr + left.size - 1);
    if r.size > 0 {
      assert r.Has(r.addr) && r.Has(r.addr + r.size - 1);
      assert whole.Has(r.addr) && whole.Has(r.addr + r.size - 1);
    }
  }

  function Inserted(lines: seq<Range>, i: nat, r: Range): seq<Range>
    requires i <= |lines|
  {
    lines[..i] + [r] + lines[i..]
  }

  /** The range is not empty, and no line overlaps it. */
  ghost predicate Clear(lines: seq<Range>, r: Range) {
    r.size > 0 && forall k :: 0 <= k < |lines| ==> Apart(lines[k], r)
  }

  /** A range free of lines, added anywhere. */
  lemma InsertTidy(lines: seq<Range>, i: nat, r: Range)
    requires Tidy(lines) && i <= |lines| && Clear(lines, r)
    ensures Tidy(Inserted(lines, i, r))
  {
    var e := Inserted(lines, i, r);
    forall m, n | 0 <= m < n < |e|
      ensures Apart(e[m], e[n])
    {
      if m != i && n != i {
        assert Apart(lines[if m < i then m else m - 1], lines[if n < i then n else n - 1]);
      }
    }
  }

  lemma InsertAdds(lines: seq<Range>, i: nat, r: Range)
    requires i <= |lines|
    ensures Added(lines, Inserted(lines, i, r), r)
  {
    var e := Inserted(lines, i, r);
    forall a
      ensures Covers(e, a) <==> Covers(lines, a) || r.Has(a)
    {
      if Covers(e, a) {
        var k :| 0 <= k < |e| && e[k].Has(a);
        assert k == i || lines[if k < i then k else k - 1].Has(a);
      }
      if Covers(lines, a) {
        var k :| 0 <= k < |lines| && lines[k].Has(a);
        assert e[if k < i then k else k + 1].Has(a);
      }
      assert e[i] == r;
    }
  }

  /** The lines that are neither in (addr, size) nor around it, in order. */
  ghost function Outside(lines: seq<Range>, addr: nat, size: nat): seq<Range> {
    if lines == [] then []
    else
      var rest, r := Outside(lines[..|lines| - 1], addr, size), lines[|lines| - 1];
      if r.Within(addr, size) then rest else rest + [r]
  }

  /** Exactly those lines. */
  lemma {:induction false} OutsideHas(lines: seq<Range>, addr: nat, size: nat, r: Range)
    ensures r in Outside(lines, addr, size) <==> r in lines && !r.Within(addr, size)
  {
    if lines != [] {
      OutsideHas(lines[..|lines| - 1], addr, size, r);
      assert lines == lines[..|lines| - 1] + [lines[|lines| - 1]];
    }
  }

  /** e is after the first line that equals (addr, size), or after all of them if none does. */
  ghost predicate StopsAt(lines: seq<Range>, addr: nat, size: nat, e: nat) {
    && e <= |lines|
    && (forall k :: 0 <= k < e - 1 ==> !lines[k].Equals(addr, size))
    && (e < |lines| ==> e > 0 && lines[e - 1].Equals(addr, size))
  }

  lemma OutsideMore(lines: seq<Range>, addr: nat, size: nat, i: nat)
    requires i < |lines|
    ensures Outside(lines[..i + 1], addr, size) ==
              Outside(lines[..i], addr, size) + if lines[i].Within(addr, size) then [] else [lines[i]]
  {
    assert lines[..i + 1][..i] == lines[..i];
  }

  lemma {:induction false} OutsideAll(lines: seq<Range>, addr: nat, size: nat, e: nat)
    requires e <= |lines| && forall k :: e <= k < |lines| ==> !lines[k].Within(addr, size)
    ensures Outside(lines, addr, size) == Outside(lines[..e], addr, size) + lines[e..]
    decreases |lines| - e
  {
    if e == |lines| {
      assert lines[..e] == lines;
    } else {
      OutsideMore(lines, addr, size, e);
      OutsideAll(lines, addr, size, e + 1);
      assert lines[e..] == [lines[e]] + lines[e + 1..];
    }
  }

  /** A list with no such line stays as it is. */
  lemma InvalidateNothing(lines: seq<Range>, addr: nat, size: nat)
    requires forall k :: 0 <= k < |lines| ==> !lines[k].Within(addr, size)
    ensures Outside(lines, addr, size) == lines
  {
    OutsideAll(lines, addr, size, 0);
    assert lines[..0] == [] && lines[0..] == lines;
  }

  /** What invalidate leaves of lines. */
  ghost predicate Invalidated(lines: seq<Range>, addr: nat, size: nat, after: seq<Range>) {
    && (exists e: nat :: StopsAt(lines, addr, size, e) && after == Outside(lines[..e], addr, size) + lines[e..])
    && (Tidy(lines) ==> after == Outside(lines, addr, size))
  }

  lemma Stopped(lines: seq<Range>, addr: nat, size: nat, e: nat, kept: seq<Range>, after: seq<Range>)
    requires StopsAt(lines, addr, size, e) && Sifted(lines, addr, size, e, kept) && after == kept + lines[e..]
    ensures Invalidated(lines, addr, size, after)
  {
    if Tidy(lines) {
      NothingAfter(lines, addr, size, e);
    }
  }

  ghost predicate Sifted(lines: seq<Range>, addr: nat, size: nat, e: nat, kept: seq<Range>)
    requires e <= |lines|
  {
    kept == Outside(lines[..e], addr, size)
  }

  lemma SiftMore(lines: seq<Range>, addr: nat, size: nat, e: nat, kept: seq<Range>)
    requires e < |lines| && Sifted(lines, addr, size, e, kept)
    ensures var r := lines[e];
            if r.Within(addr, size)
            then Sifted(lines, addr, size, e + 1, kept) && Erased(kept + lines[e..], |kept|) == kept + lines[e + 1..]
            else Sifted(lines, addr, size, e + 1, kept + [r]) && kept + lines[e..] == kept + [r] + lines[e + 1..]
  {
    OutsideMore(lines, addr, size, e);
    assert lines[e..] == [lines[e]] + lines[e + 1..];
  }

  /** In a tidy list nothing else is in or around a line that equals the range, so stopping there
      leaves out nothing. */
  lemma NothingAfter(lines: seq<Range>, addr: nat, size: nat, e: nat)
    requires Tidy(lines) && StopsAt(lines, addr, size, e)
    ensures Outside(lines[..e], addr, size) + lines[e..] == Outside(lines, addr, size)
  {
    forall k | e <= k < |lines|
      ensures !lines[k].Within(addr, size)
    {
      assert Apart(lines[e - 1], lines[k]);
    }
    OutsideAll(lines, addr, size, e);
  }

  // -------------------------------------------------------------------------
  // MMapCache
  // -------------------------------------------------------------------------

  class MMapCache {
    var lines: seq<Range>

    constructor ()
      ensures lines == []
    {
      lines := [];
    }

    /** First fit. */
    method Find(size: nat) returns (r: Range)
      requires Tidy(lines)
      modifies this
      ensures Tidy(lines) && Taken(old(lines), lines, r)
      ensures (exists i :: 0 <= i < |old(lines)| && old(lines)[i].size >= size) ==>
                && r.size == size
                && exists i :: 0 <= i < |old(lines)| && old(lines)[i].addr == r.addr && old(lines)[i].size >= size
                     && forall k :: 0 <= k < i ==> old(lines)[k].size < size
      ensures (forall i :: 0 <= i < |old(lines)| ==> old(lines)[i].size < size) ==>
                r == Range(0, 0) && lines == old(lines)
    {
      var i := 0;
      while i < |lines|
        invariant 0 <= i <= |lines| && lines == old(lines)
        invariant forall k :: 0 <= k < i ==> lines[k].size < size
      {
        var line := lines[i];
        if line.size != 0 && line.size >= size {
          r := Range(line.addr, size);
          if line.size > size {
            ShrinkTakes(lines, i, Range(line.addr + size, line.size - size), r);
            lines := lines[i := Range(line.addr + size, line.size - size)];
          } else {
            EraseTakes(lines, i);
            lines := Erased(lines, i);
          }
          return;
        }
        i := i + 1;
      }
      return Range(0, 0);
    }

    /** Reserve exactly (addr, size); limit is one past the largest address. */
    method Carve(addr: nat, size: nat, limit: nat) returns (ok: bool)
      requires Tidy(lines) && addr < limit && size < limit
      requires forall i :: 0 <= i < |lines| ==> lines[i].addr + lines[i].size <= limit
      modifies this
      ensures Tidy(lines)
      ensures ok <==> addr + size < limit && exists i :: Inside(old(lines), i, addr, size)
      ensures ok ==> Taken(old(lines), lines, Range(addr, size))
      ensures !ok ==> lines == old(lines)
    {
      if (addr + size) % limit < addr {
        return false;
      }
      var i := 0;
      while i < |lines|
        invariant 0 <= i <= |lines| && lines == old(lines)
        invariant forall k :: 0 <= k < i ==> !Inside(lines, k, addr, size)
      {
        var r := lines[i];
        if !(r.size == 0 || addr < r.addr || addr + size > r.addr + r.size) {
          assert Inside(lines, i, addr, size);
          CarveLine(i, addr, size);
          return true;
        }
        i := i + 1;
      }
      return false;
    }

    /** Carve from the line that contains the range. */
    method CarveLine(i: nat, addr: nat, size: nat)
      requires Tidy(lines) && Inside(lines, i, addr, size)
      modifies this
      ensures Tidy(lines) && Taken(old(lines), lines, Range(addr, size))
    {
      var r := lines[i];
      var tailAddr := addr + size;
      var tail := Range(tailAddr, r.addr + r.size - tailAddr);
      if addr == r.addr {
        if tail.size == 0 {
          EraseTakes(lines, i);
          lines := Erased(lines, i);
        } else {
          ShrinkTakes(lines, i, tail, Range(addr, size));
          lines := lines[i := tail];
        }
      } else {
        var front := Range(r.addr, addr - r.addr);
        ShrinkTakes(lines, i, front, Range(addr, size + tail.size));
        lines := lines[i := front];
        if tail.size != 0 {
          TailIsFree(old(lines), lines, i, Range(addr, size + tail.size), tail);
          InsertTidy(lines, i + 1, tail);
          InsertAdds(lines, i + 1, tail);
          ghost var before := lines;
          lines := Inserted(lines, i + 1, tail);
          TakenBack(old(lines), before, lines, Range(addr, size + tail.size), Range(addr, size), tail);
        }
      }
    }

    /** Erases the lines in or around the range, up to one that equals it; in a tidy list that is all
        of them. */
    method Invalidate(addr: nat, size: nat)
      modifies this
      ensures Invalidated(old(lines), addr, size, lines)
    {
      var i := 0;
      ghost var before, kept, e := lines, [], 0;
      while i < |lines|
        invariant e <= |before| && Sifted(before, addr, size, e, kept) && lines == kept + before[e..] && i == |kept|
        invariant forall k :: 0 <= k < e ==> !before[k].Equals(addr, size)
        decreases |lines| - i
      {
        var r := lines[i];
        SiftMore(before, addr, size, e, kept);
        e := e + 1;
        if r.Within(addr, size) {
          lines := Erased(lines, i);
          if r.Equals(addr, size) {
            break;
          }
        } else {
          kept := kept + [r];
          i := i + 1;
        }
      }
      Stopped(before, addr, size, e, kept, lines);
    }

    /** Adds a range, which keeps a list tidy if it was in no line. */
    method Insert(addr: nat, size: nat)
      modifies this
      ensures Tidy(old(lines)) && Clear(old(lines), Range(addr, size)) ==> Tidy(lines)
      ensures Added(old(lines), lines, Range(addr, size))
    {
      ghost var tidy := Tidy(lines) && Clear(lines, Range(addr, size));
      if lines != [] {
        var last := |lines| - 1;
        var back := lines[last];
        if back.addr + back.size == addr {
          GrowAdds(lines, last, size);
          if tidy {
            GrowTidy(lines, last, size);
          }
          lines := Grown(lines, last, size);
          return;
        }
      }
      InsertAdds(lines, |lines|, Range(addr, size));
      if tidy {
        InsertTidy(lines, |lines|, Range(addr, size));
      }
      ghost var after := Inserted(lines, |lines|, Range(addr, size));
      lines := lines + [Range(addr, size)];
      assert lines == after;
    }
  }

  ghost predicate Inside(lines: seq<Range>, i: int, addr: nat, size: nat) {
    0 <= i < |lines| && lines[i].size > 0 && lines[i].addr <= addr && addr + size <= lines[i].addr + lines[i].size
  }

  /** The list with line i longer by size. */
  function Grown(lines: seq<Range>, i: nat, size: nat): seq<Range>
    requires i < |lines|
  {
    lines[i := Range(lines[i].addr, lines[i].size + size)]
  }

  lemma GrowTidy(lines: seq<Range>, i: nat, size: nat)
    requires Tidy(lines) && i < |lines| && Clear(lines, Range(lines[i].addr + lines[i].size, size))
    ensures Tidy(Grown(lines, i, size))
  {
    var e := Grown(lines, i, size);
    forall m, n | 0 <= m < n < |e|
      ensures Apart(e[m], e[n])
    {
      assert Apart(lines[m], lines[n]);
    }
  }

  lemma GrowAdds(lines: seq<Range>, i: nat, size: nat)
    requires i < |lines|
    ensures Added(lines, Grown(lines, i, size), Range(lines[i].addr + lines[i].size, size))
  {
    var e := Grown(lines, i, size);
    forall a
      ensures Covers(e, a) <==> Covers(lines, a) || Range(lines[i].addr + lines[i].size, size).Has(a)
    {
      if Covers(e, a) {
        var k :| 0 <= k < |e| && e[k].Has(a);
        assert lines[k].Has(a) || Range(lines[i].addr + lines[i].size, size).Has(a);
      }
      if Covers(lines, a) {
        var k :| 0 <= k < |lines| && lines[k].Has(a);
        assert e[k].Has(a);
      }
      if Range(lines[i].addr + lines[i].size, size).Has(a) {
        assert e[i].Has(a);
      }
    }
  }

  lemma TailIsFree(before: seq<Range>, lines: seq<Range>, i: nat, r: Range, tail: Range)
    requires Tidy(before) && Tidy(lines) && i < |lines| == |before| && lines == before[i := lines[i]]
    requires tail.size > 0 && r.addr <= tail.addr
             && tail.addr + tail.size == r.addr + r.size == before[i].addr + before[i].size
    requires before[i].addr <= r.addr && Apart(lines[i], r)
    ensures forall k :: 0 <= k < |lines| ==> Apart(lines[k], tail)
  {
    forall k | 0 <= k < |lines|
      ensures Apart(lines[k], tail)
    {
      if k != i {
        assert Apart(before[if k < i then k else i], before[if k < i then i else k]);
      }
    }
  }

  lemma TakenBack(before: seq<Range>, middle: seq<Range>, after: seq<Range>, whole: Range, r: Range, tail: Range)
    requires Taken(before, middle, whole)
    requires Added(middle, after, tail)
    requires forall a :: whole.Has(a) <==> r.Has(a) || tail.Has(a)
    requires Apart(r, tail) && forall a :: tail.Has(a) ==> Covers(before, a)
    ensures Taken(before, after, r)
  {
    forall a
      ensures Covers(after, a) <==> Covers(before, a) && !r.Has(a)
    {
      assert Covers(middle, a) <==> Covers(before, a) && !whole.Has(a);
      assert tail.Has(a) ==> !r.Has(a);
    }
  }

  // -------------------------------------------------------------------------
  // The mmap area
  // -------------------------------------------------------------------------

  /** Live bytes and free lines partition [start, end). */
  ghost predicate Partition(start: nat, lines: seq<Range>, live: set<nat>, end: nat) {
    && (forall a {:trigger Covers(lines, a)} :: Covers(lines, a) ==> start <= a < end && a !in live)
    && (forall a {:trigger a in live} :: a in live ==> start <= a < end)
    && (forall a {:trigger Covers(lines, a)} :: start <= a < end ==> a in live || Covers(lines, a))
  }

  /** No free line touches a live range. */
  lemma LinesApart(start: nat, lines: seq<Range>, live: set<nat>, end: nat, r: Range)
    requires Tidy(lines) && Partition(start, lines, live, end) && r.size > 0 && Bytes(r) <= live
    ensures Clear(lines, r) && forall i :: 0 <= i < |lines| ==> !lines[i].Within(r.addr, r.size)
  {
    forall i | 0 <= i < |lines|
      ensures Apart(lines[i], r) && !lines[i].Within(r.addr, r.size)
    {
      LineApart(start, lines, live, end, r, i);
    }
  }

  lemma LineApart(start: nat, lines: seq<Range>, live: set<nat>, end: nat, r: Range, i: nat)
    requires Tidy(lines) && Partition(start, lines, live, end) && r.size > 0 && Bytes(r) <= live && i < |lines|
    ensures Apart(lines[i], r) && !lines[i].Within(r.addr, r.size)
  {
    var line := lines[i];
    assert line.Has(line.addr) && Covers(lines, line.addr);
    assert r.addr in Bytes(r);
    if r.addr >= line.addr {
      assert line.Has(r.addr) ==> Covers(lines, r.addr);
    } else {
      assert line.addr < r.addr + r.size ==> line.addr !in live;
    }
  }

  lemma LinesBelow(start: nat, lines: seq<Range>, live: set<nat>, end: nat, i: nat)
    requires Tidy(lines) && Partition(start, lines, live, end) && i < |lines|
    ensures start <= lines[i].addr && lines[i].addr + lines[i].size <= end
  {
    var r := lines[i];
    assert r.Has(r.addr) && Covers(lines, r.addr);
    assert r.Has(r.addr + r.size - 1) && Covers(lines, r.addr + r.size - 1);
  }

  lemma LiveRange(live: set<nat>, r: Range, start: nat, lines: seq<Range>, end: nat)
    requires Partition(start, lines, live, end) && r.size > 0 && Bytes(r) <= live
    ensures start <= r.addr && r.addr + r.size <= end
  {
    assert r.addr in Bytes(r) && r.addr + r.size - 1 in Bytes(r);
  }

  /** The last live bytes, given back to the pointer. */
  lemma Retracted(start: nat, lines: seq<Range>, live: set<nat>, r: Range)
    requires Partition(start, lines, live, r.addr + r.size) && Bytes(r) <= live
    ensures Partition(start, lines, live - Bytes(r), r.addr)
  {
    forall a: int | Covers(lines, a)
      ensures start <= a < r.addr
    {
      assert a in Bytes(r) ==> a in live;
    }
    forall a | a in live - Bytes(r)
      ensures start <= a < r.addr
    {
      assert a !in Bytes(r);
    }
  }

  /** Live bytes that become free. */
  lemma Freed(start: nat, before: seq<Range>, lines: seq<Range>, live: set<nat>, end: nat, r: Range)
    requires Partition(start, before, live, end) && Bytes(r) <= live
    requires Added(before, lines, r)
    ensures Partition(start, lines, live - Bytes(r), end)
  {
    forall a
      ensures Covers(lines, a) ==> start <= a < end && a !in live - Bytes(r)
      ensures start <= a < end ==> a in live - Bytes(r) || Covers(lines, a)
    {
      assert Covers(lines, a) <==> Covers(before, a) || r.Has(a);
      assert r.Has(a) ==> a in Bytes(r);
    }
  }

  /** Bytes beyond the pointer that become free when it moves past them. */
  lemma Donated(start: nat, before: seq<Range>, lines: seq<Range>, live: set<nat>, end: nat, gap: nat)
    requires Partition(start, before, live, end) && start <= end && Added(before, lines, Range(end, gap))
    ensures Partition(start, lines, live, end + gap)
  {
    forall a
      ensures Covers(lines, a) ==> start <= a < end + gap && a !in live
      ensures start <= a < end + gap ==> a in live || Covers(lines, a)
    {
      assert Covers(lines, a) <==> Covers(before, a) || Range(end, gap).Has(a);
    }
  }

  /** Bytes at the pointer that become live. */
  lemma Extended(start: nat, lines: seq<Range>, live: set<nat>, end: nat, size: nat)
    requires Partition(start, lines, live, end) && start <= end
    ensures Partition(start, lines, live + Bytes(Range(end, size)), end + size) && Bytes(Range(end, size)) !! live
  {
    forall a
      ensures start <= a < end + size ==> a in live + Bytes(Range(end, size)) || Covers(lines, a)
    {
      assert Range(end, size).Has(a) ==> a in Bytes(Range(end, size));
    }
  }

  /** Free bytes that become live. */
  lemma Repartitioned(start: nat, before: seq<Range>, lines: seq<Range>, live: set<nat>, end: nat, r: Range)
    requires Partition(start, before, live, end) && Taken(before, lines, r)
    requires forall a: nat :: r.Has(a) ==> Covers(before, a)
    ensures Partition(start, lines, live + Bytes(r), end) && Bytes(r) !! live
  {
    forall a
      ensures Covers(lines, a) ==> start <= a < end && a !in live + Bytes(r)
      ensures start <= a < end ==> a in live + Bytes(r) || Covers(lines, a)
    {
      assert Covers(lines, a) <==> Covers(before, a) && !r.Has(a);
      assert r.Has(a) ==> a in Bytes(r);
    }
  }

  class MmapArea {
    const start: nat
    const limit: nat
    const cache: MMapCache
    var address: nat
    ghost var live: set<nat>   // bytes that are mapped

    ghost predicate Valid()
      reads this, cache
    {
      && start <= address <= limit
      && Tidy(cache.lines)
      && Partition(start, cache.lines, live, address)
    }

    /** A live range that a guest may unmap. */
    ghost predicate Mapped(addr: nat, size: nat)
      reads this
    {
      size > 0 && addr % PAGE_SIZE == 0 && Bytes(Range(addr, size)) <= live
    }

    constructor (start: nat, limit: nat)
      requires start <= limit
      ensures Valid() && this.start == start && this.limit == limit && address == start && live == {}
      ensures fresh(cache) && cache.lines == []
    {
      this.start, this.limit, address, live := start, limit, start, {};
      cache := new MMapCache();
    }

    method Allocate(bytes: nat) returns (result: nat)
      requires Valid() && address + RoundUp(bytes) <= limit
      modifies this
      ensures Valid() && result == old(address) && address == result + RoundUp(bytes)
      ensures live == old(live) + Bytes(Range(result, RoundUp(bytes)))
      ensures Bytes(Range(result, RoundUp(bytes))) !! old(live)
    {
      result := address;
      Extended(start, cache.lines, live, address, RoundUp(bytes));
      address := address + RoundUp(bytes);
      live := live + Bytes(Range(result, RoundUp(bytes)));
    }

    /** Taking a free range, as the mmap system call does before it moves the pointer. */
    method Reserve(size: nat) returns (r: Range)
      requires Valid()
      modifies this, cache
      ensures Valid() && address == old(address) && (r.size == size || r == Range(0, 0))
      ensures live == old(live) + Bytes(r)
      ensures Bytes(r) !! old(live)
      ensures r.size > 0 ==> start <= r.addr && r.addr + r.size <= address
    {
      ghost var before := cache.lines;
      r := cache.Find(size);
      FoundWasFree(before, r, size);
      Repartitioned(start, before, cache.lines, live, address, r);
      live := live + Bytes(r);
      if r.size > 0 {
        assert r.addr in Bytes(r) && r.addr + r.size - 1 in Bytes(r);
      }
    }

    /** Taking exactly the range that was asked for. */
    method ReserveAt(addr: nat, size: nat) returns (ok: bool)
      requires Valid() && addr < limit && size < limit
      modifies this, cache
      ensures Valid() && address == old(address)
      ensures live == old(live) + if ok then Bytes(Range(addr, size)) else {}
      ensures ok ==> Bytes(Range(addr, size)) !! old(live)
    {
      ghost var before := cache.lines;
      forall i | 0 <= i < |before|
        ensures before[i].addr + before[i].size <= limit
      {
        LinesBelow(start, before, live, address, i);
      }
      ok := cache.Carve(addr, size, limit);
      if ok {
        InsideWasFree(before, addr, size);
        Repartitioned(start, before, cache.lines, live, address, Range(addr, size));
        live := live + Bytes(Range(addr, size));
      }
    }

    /** Taking a range beyond the pointer, which moves behind it; what it skips becomes free. */
    method Claim(addr: nat, size: nat)
      requires Valid() && address <= addr && addr + size <= limit
      modifies this, cache
      ensures Valid() && address == addr + size
      ensures live == old(live) + Bytes(Range(addr, size)) && Bytes(Range(addr, size)) !! old(live)
    {
      ghost var before := cache.lines;
      var gap := addr - address;
      if gap > 0 {
        BeyondIsClear(start, before, live, address, gap);
        cache.Insert(address, gap);
        Donated(start, before, cache.lines, live, address, gap);
      }
      Extended(start, cache.lines, live, addr, size);
      address := addr + size;
      live := live + Bytes(Range(addr, size));
    }

    method Relax(addr: nat, size: nat, newSize: nat) returns (ok: bool)
      modifies this`address
      ensures ok <==> old(address) == addr + size && newSize <= size
      ensures address == if ok then RoundUp(addr + newSize) else old(address)
    {
      if address == addr + size && newSize <= size {
        address := RoundUp(addr + newSize);
        return true;
      }
      return false;
    }

    method Unmap(addr: nat, size: nat) returns (relaxed: bool)
      requires Valid() && Mapped(addr, RoundUp(size))
      modifies this, cache
      ensures Valid()
      ensures relaxed <==> old(address) == addr + RoundUp(size)
      ensures address == if relaxed then addr else old(address)
      ensures live == old(live) - Bytes(Range(addr, RoundUp(size)))
      ensures relaxed ==> cache.lines == old(cache.lines)
    {
      relaxed := UnmapPages(addr, RoundUp(size));
    }

    method UnmapPages(addr: nat, size: nat) returns (relaxed: bool)
      requires Valid() && size > 0 && RoundUp(addr) == addr && Bytes(Range(addr, size)) <= live
      modifies this, cache
      ensures Valid()
      ensures relaxed <==> old(address) == addr + size
      ensures address == if relaxed then addr else old(address)
      ensures live == old(live) - Bytes(Range(addr, size))
      ensures relaxed ==> cache.lines == old(cache.lines)
    {
      ghost var r, before := Range(addr, size), cache.lines;
      LinesApart(start, before, live, address, r);
      LiveRange(live, r, start, before, address);
      relaxed := Relax(addr, size, 0);
      if relaxed {
        GiveBack(addr, size);
      } else if addr >= start {
        PutAside(addr, size);
      }
    }

    /** Live bytes that the pointer has moved back over. */
    method GiveBack(addr: nat, size: nat)
      requires start <= address == addr <= limit && Tidy(cache.lines) && Bytes(Range(addr, size)) <= live
      requires Partition(start, cache.lines, live, addr + size)
      requires forall i :: 0 <= i < |cache.lines| ==> !cache.lines[i].Within(addr, size)
      modifies this, cache
      ensures Valid() && address == old(address) && cache.lines == old(cache.lines)
      ensures live == old(live) - Bytes(Range(addr, size))
    {
      InvalidateNothing(cache.lines, addr, size);
      Retracted(start, cache.lines, live, Range(addr, size));
      cache.Invalidate(addr, size);
      live := live - Bytes(Range(addr, size));
    }

    /** Live bytes go into the free list. */
    method PutAside(addr: nat, size: nat)
      requires Valid() && Bytes(Range(addr, size)) <= live && Clear(cache.lines, Range(addr, size))
      modifies this, cache
      ensures Valid() && address == old(address) && live == old(live) - Bytes(Range(addr, size))
    {
      ghost var before := cache.lines;
      cache.Insert(addr, size);
      Freed(start, before, cache.lines, live, address, Range(addr, size));
      live := live - Bytes(Range(addr, size));
    }
  }

  lemma FoundWasFree(before: seq<Range>, r: Range, size: nat)
    requires r == Range(0, 0) || exists i :: 0 <= i < |before| && before[i].addr == r.addr && before[i].size >= r.size
    ensures forall a: nat :: r.Has(a) ==> Covers(before, a)
  {
    forall a: nat | r.Has(a)
      ensures Covers(before, a)
    {
      var i :| 0 <= i < |before| && before[i].addr == r.addr && before[i].size >= r.size;
      assert before[i].Has(a);
    }
  }

  lemma InsideWasFree(before: seq<Range>, addr: nat, size: nat)
    requires exists i :: Inside(before, i, addr, size)
    ensures forall a: nat :: Range(addr, size).Has(a) ==> Covers(before, a)
  {
    var i :| Inside(before, i, addr, size);
    forall a: nat | Range(addr, size).Has(a)
      ensures Covers(before, a)
    {
      assert before[i].Has(a);
    }
  }

  lemma BeyondIsClear(start: nat, lines: seq<Range>, live: set<nat>, end: nat, gap: nat)
    requires Tidy(lines) && Partition(start, lines, live, end) && gap > 0
    ensures Clear(lines, Range(end, gap))
  {
    forall i | 0 <= i < |lines|
      ensures Apart(lines[i], Range(end, gap))
    {
      LinesBelow(start, lines, live, end, i);
    }
  }
}
