/**
  memmove on paged guest memory.  Forwards, the source pages are looked up first and then
  copied from by pointer, while the destination pages are created, copied from a loan, or
  overwritten in place, and may be the same pages.  Backwards, words or bytes are read and
  written one at a time.
 */
module Memmove {
  import opened Paging

  const MEMCPY_MAX: nat := 1024 * 1024 * 512
  const MEMCPY_BUFFERS: nat := 256

  // -------------------------------------------------------------------------
  // Copying forwards inside one buffer
  // -------------------------------------------------------------------------

  /** n bytes from s to d, one after the other. */
  method CopyBytes(page: seq<Byte>, d: nat, source: seq<Byte>, s: nat, n: nat, same: bool) returns (r: seq<Byte>)
    requires d + n <= |page| && s + n <= |source|
    requires same ==> source == page && d <= s
    ensures r == Patch(page, d, source[s..s + n])
  {
    r := page;
    var k := 0;
    while k < n
      invariant 0 <= k <= n && |r| == |page|
      invariant forall i :: 0 <= i < |r| ==> r[i] == if d <= i < d + k then source[i - d + s] else page[i]
    {
      // a copy within one buffer reads what has been written so far
      var b := if same then r[s + k] else source[s + k];
      r := r[d + k := b];
      k := k + 1;
    }
  }

  // -------------------------------------------------------------------------
  // The source
  // -------------------------------------------------------------------------

  /** The source bytes that are still to be copied are where the captured pages have them. */
  ghost predicate Holds(datas: seq<PageData>, first: nat, src: nat, orig: seq<Byte>, from: nat)
    reads datas
  {
    forall a {:trigger SourceAt(datas, first, a)} :: src + from <= a < src + |orig| ==>
      SourceAt(datas, first, a) && datas[a / PAGE_SIZE - first].bytes[a % PAGE_SIZE] == orig[a - src]
  }

  ghost predicate SourceAt(datas: seq<PageData>, first: nat, a: nat)
    reads datas
  {
    first <= a / PAGE_SIZE < first + |datas| && |datas[a / PAGE_SIZE - first].bytes| == PAGE_SIZE
  }

  ghost predicate CapturedAt(m: Memory, datas: seq<PageData>, first: nat, k: nat)
    requires k < |datas|
    reads m
  {
    datas[k] in m.buffers && (datas[k] == PageOf(m.pages, m.zero, first + k).data || datas[k] !in m.owned)
  }

  /** A captured buffer is its page's, or nobody's to write to. */
  ghost predicate Captured(m: Memory, datas: seq<PageData>, first: nat)
    reads m
  {
    forall k {:trigger CapturedAt(m, datas, first, k)} :: 0 <= k < |datas| ==> CapturedAt(m, datas, first, k)
  }

  /** Whether the bytes of the second buffer follow those of the first in the memory of the host. */
  type Adjacent = (PageData, PageData) -> bool

  /** Bytes of the source that are contiguous in the memory of the host. */
  datatype Buffer = Buffer(start: nat, end: nat)

  /** The buffer of page n. */
  ghost function DataOf(table: Table, zero: PageData, n: nat): PageData {
    PageOf(table, zero, n).data
  }

  /** Stretches of adjacent buffers among the count pages from first on. */
  ghost function Runs(adjacent: Adjacent, table: Table, zero: PageData, first: nat, count: nat): nat {
    if count <= 1 then count
    else Runs(adjacent, table, zero, first, count - 1)
         + if Joined(adjacent, table, zero, first + count - 1) then 0 else 1
  }

  /** The buffer of page n follows that of the page before. */
  ghost predicate Joined(adjacent: Adjacent, table: Table, zero: PageData, n: nat)
    requires n > 0
  {
    adjacent(DataOf(table, zero, n - 1), DataOf(table, zero, n))
  }

  /** The buffers follow one another from the first byte up to the byte done. */
  ghost predicate Tiled(buffers: seq<Buffer>, done: nat) {
    && done == (if |buffers| == 0 then 0 else buffers[|buffers| - 1].end)
    && (forall i {:trigger Follows(buffers, i)} :: 0 <= i < |buffers| ==> Follows(buffers, i))
  }

  ghost predicate Follows(buffers: seq<Buffer>, i: nat)
    requires i < |buffers|
  {
    buffers[i].start < buffers[i].end && buffers[i].start == if i == 0 then 0 else buffers[i - 1].end
  }

  /** Pages from that of src up to that of the last byte below end. */
  function PagesOf(src: nat, end: nat): nat
    requires src <= end
  {
    PagePast(src, end) - src / PAGE_SIZE
  }

  /** The pages of the range are more than cnt stretches. */
  ghost predicate Fragmented(m: Memory, adjacent: Adjacent, src: nat, len: nat, cnt: nat)
    reads m`pages
  {
    Runs(adjacent, m.pages, m.zero, src / PAGE_SIZE, PagesOf(src, src + len)) > cnt
  }

  lemma {:induction false} RunsGrow(adjacent: Adjacent, table: Table, zero: PageData, first: nat, a: nat, b: nat)
    requires a <= b
    ensures Runs(adjacent, table, zero, first, a) <= Runs(adjacent, table, zero, first, b)
  {
    if a < b {
      RunsGrow(adjacent, table, zero, first, a, b - 1);
    }
  }

  lemma TiledMore(buffers: seq<Buffer>, done: nat, size: nat, merge: bool)
    requires Tiled(buffers, done) && size > 0 && (merge ==> buffers != [])
    ensures Tiled(WithChunk(buffers, done, size, merge), done + size)
  {
    var after := WithChunk(buffers, done, size, merge);
    forall i | 0 <= i < |after|
      ensures Follows(after, i)
    {
      assert i < |buffers| ==> Follows(buffers, i);
      assert merge ==> Follows(buffers, |buffers| - 1);
    }
  }

  /** One more chunk, as a part of the last buffer or as another one. */
  function WithChunk(buffers: seq<Buffer>, done: nat, size: nat, merge: bool): seq<Buffer>
    requires merge ==> buffers != []
  {
    if merge then buffers[..|buffers| - 1] + [Buffer(buffers[|buffers| - 1].start, done + size)]
    else buffers + [Buffer(done, done + size)]
  }

  /** The buffers of the pages from first on, in order. */
  ghost predicate AreDatas(datas: seq<PageData>, table: Table, zero: PageData, first: nat) {
    forall k {:trigger datas[k]} :: 0 <= k < |datas| ==> datas[k] == DataOf(table, zero, first + k)
  }

  /** What has been gathered of the source up to the address at, in pages pages. */
  ghost predicate Gathered(table: Table, zero: PageData, adjacent: Adjacent, src: nat, first: nat, pages: nat,
                           at: nat, datas: seq<PageData>, buffers: seq<Buffer>)
  {
    && src <= at && |datas| == pages && AreDatas(datas, table, zero, first)
    && |buffers| == Runs(adjacent, table, zero, first, pages) && Tiled(buffers, at - src)
  }

  lemma GatherMore(table: Table, zero: PageData, adjacent: Adjacent, src: nat, first: nat, pages: nat, at: nat,
                   datas: seq<PageData>, buffers: seq<Buffer>, size: nat, data: PageData, merge: bool)
    requires Gathered(table, zero, adjacent, src, first, pages, at, datas, buffers) && size > 0
    requires data == DataOf(table, zero, first + pages)
    requires merge <==> datas != [] && adjacent(datas[|datas| - 1], data)
    ensures (merge ==> buffers != [])
            && Runs(adjacent, table, zero, first, pages + 1) == |buffers| + if merge then 0 else 1
    ensures Gathered(table, zero, adjacent, src, first, pages + 1, at + size, datas + [data],
                     WithChunk(buffers, at - src, size, merge))
  {
    RunsNext(adjacent, table, zero, first, pages, merge);
    TiledMore(buffers, at - src, size, merge);
  }

  lemma RunsNext(adjacent: Adjacent, table: Table, zero: PageData, first: nat, pages: nat, merge: bool)
    requires merge <==> pages > 0 && Joined(adjacent, table, zero, first + pages)
    ensures Runs(adjacent, table, zero, first, pages + 1) ==
              Runs(adjacent, table, zero, first, pages) + if merge then 0 else 1
    ensures pages > 0 ==> Runs(adjacent, table, zero, first, pages) > 0
  {
    if pages > 0 {
      RunsGrow(adjacent, table, zero, first, 1, pages);
    }
  }

  /** gather_buffers_from_range: the buffers of the pages, and at most cnt stretches of them. */
  method GatherBuffers(m: Memory, cnt: nat, src: nat, len: nat, adjacent: Adjacent)
    returns (ok: bool, datas: seq<PageData>, buffers: seq<Buffer>)
    requires m.Valid() && len > 0
    ensures ok ==> |datas| == PagesOf(src, src + len) && AreDatas(datas, m.pages, m.zero, src / PAGE_SIZE)
    ensures ok ==> |buffers| <= cnt && Tiled(buffers, len)
    ensures ok <==> (forall n :: src / PAGE_SIZE <= n < PagePast(src, src + len) ==> m.Readable(n))
                    && !Fragmented(m, adjacent, src, len, cnt)
  {
    datas, buffers := [], [];
    var at, first, n := src, src / PAGE_SIZE, src / PAGE_SIZE;
    while at < src + len
      invariant src <= at <= src + len && AtBoundary(src, at, len) && n == PagePast(src, at) == first + |datas|
      invariant Gathered(m.pages, m.zero, adjacent, src, first, |datas|, at, datas, buffers) && |buffers| <= cnt
      invariant forall k :: first <= k < n ==> m.Readable(k)
    {
      var size := ChunkSize(at, src + len - at);
      NextPast(src, at, size, len);
      PageInRange(src, at, src + len);
      var page := PageOf(m.pages, m.zero, n);
      var merge := datas != [] && adjacent(datas[|datas| - 1], page.data);
      GatherMore(m.pages, m.zero, adjacent, src, first, |datas|, at, datas, buffers, size, page.data, merge);
      if !page.attr.read {
        assert !m.Readable(n);
        return false, datas, buffers;
      }
      if !merge && |buffers| == cnt {
        RunsGrow(adjacent, m.pages, m.zero, first, |datas| + 1, PagesOf(src, src + len));
        return false, datas, buffers;
      }
      buffers := WithChunk(buffers, at - src, size, merge);
      datas, at, n := datas + [page.data], at + size, n + 1;
    }
    ok := true;
  }

  // -------------------------------------------------------------------------
  // Forwards
  // -------------------------------------------------------------------------

  /** Page n can be written to as it is, and that changes data. */
  ghost predicate WritesTo(m: Memory, n: nat, data: PageData)
    reads m
  {
    n in m.pages && m.pages[n].attr.write && m.pages[n].data == data
  }

  /** The next bytes of the source, as the captured buffer has them. */
  lemma ChunkIsSource(datas: seq<PageData>, first: nat, src: nat, orig: seq<Byte>, done: nat, size: nat)
    requires Holds(datas, first, src, orig, done) && 0 < size && done + size <= |orig|
    requires (src + done) % PAGE_SIZE + size <= PAGE_SIZE
    ensures SourceAt(datas, first, src + done)
    ensures var from := (src + done) % PAGE_SIZE;
            datas[(src + done) / PAGE_SIZE - first].bytes[from..from + size] == orig[done..done + size]
  {
    var from := (src + done) % PAGE_SIZE;
    assert SourceAt(datas, first, src + done);
    var chunk := datas[(src + done) / PAGE_SIZE - first].bytes[from..from + size];
    forall i | 0 <= i < size
      ensures chunk[i] == orig[done..done + size][i]
    {
      SamePage(src + done, i);
      assert SourceAt(datas, first, src + done + i);
    }
  }

  /** Only the page that a captured buffer was found at writes to it. */
  lemma WritesToOwnPage(m: Memory, datas: seq<PageData>, first: nat, k: nat, n: nat)
    requires m.Valid() && Captured(m, datas, first) && k < |datas| && n != first + k
    ensures !WritesTo(m, n, datas[k])
  {
    assert CapturedAt(m, datas, first, k);
    if n in m.pages && m.pages[n].attr.write {
      assert PageOk(m.pages, m.zero, n);
      assert first + k in m.pages ==> Apart(m.pages, n, first + k);
    }
  }

  lemma SmallerOffset(a: nat, b: nat)
    requires a < b && a / PAGE_SIZE == b / PAGE_SIZE
    ensures a % PAGE_SIZE < b % PAGE_SIZE
  {
  }

  /** The page of the destination is made writable; the captured buffers stay what they are. */
  method Prepare(m: Memory, n: nat, init: bool, datas: seq<PageData>, first: nat) returns (ok: bool)
    requires m.Valid() && Captured(m, datas, first)
    modifies m
    ensures m.Valid() && fresh(m.owned - old(m.owned))
    ensures !ok ==> !m.CanWrite(n)
    ensures ok ==> Captured(m, datas, first) && n in m.pages && m.pages[n].attr.write && m.pages[n].data in m.owned
    ensures ok ==> m.View() == old(m.View())[n := m.pages[n].data.bytes] && (init ==> m.View() == old(m.View()))
  {
    ghost var pages0 := m.pages;
    assert n in pages0 ==> PageOk(pages0, m.zero, n);
    ghost var used := m.buffers;
    ok := m.CreateWritablePageno(n, init);
    if ok {
      assert WrittenPage(pages0, m.pages, used, n);
      if n !in pages0 || !Own(pages0[n].attr) {
        LoanNotOwned(pages0, m.zero, n);
      }
      forall j | 0 <= j < |datas|
        ensures CapturedAt(m, datas, first, j)
      {
        assert old(CapturedAt(m, datas, first, j));
      }
    }
  }

  lemma OnlyOwnPage(m: Memory, datas: seq<PageData>, first: nat, n: nat)
    requires m.Valid() && Captured(m, datas, first) && n in m.pages && m.pages[n].attr.write
    ensures forall j :: 0 <= j < |datas| && n != first + j ==> datas[j] != m.pages[n].data
  {
    forall j | 0 <= j < |datas| && n != first + j
      ensures datas[j] != m.pages[n].data
    {
      WritesToOwnPage(m, datas, first, j, n);
    }
  }

  /** addr is at offset in page n. */
  predicate Placed(addr: nat, n: nat, offset: nat) {
    offset < PAGE_SIZE && addr == n * PAGE_SIZE + offset
  }

  lemma PlacedAt(addr: nat)
    ensures Placed(addr, addr / PAGE_SIZE, addr % PAGE_SIZE)
  {
  }

  lemma PlaceIs(addr: nat, n: nat, offset: nat)
    requires Placed(addr, n, offset)
    ensures n == addr / PAGE_SIZE && offset == addr % PAGE_SIZE
  {
  }

  /** std::copy into a page that may be the source itself. */
  method CopyForward(m: Memory, datas: seq<PageData>, first: nat, src: nat, dst: nat, ghost orig: seq<Byte>, done: nat,
                     size: nat, n: nat, offset: nat)
    returns (chunk: seq<Byte>)
    requires m.Valid() && dst < src && 0 < size && done + size <= |orig|
    requires Placed(dst + done, n, offset) && offset + size <= PAGE_SIZE && (src + done) % PAGE_SIZE + size <= PAGE_SIZE
    requires Captured(m, datas, first) && Holds(datas, first, src, orig, done)
    requires n in m.pages && m.pages[n].attr.write
    ensures chunk == orig[done..done + size]
  {
    ChunkIsSource(datas, first, src, orig, done, size);
    var k, from := (src + done) / PAGE_SIZE - first, (src + done) % PAGE_SIZE;
    var page := m.pages[n].data;
    OnlyOwnPage(m, datas, first, n);
    if n == first + k {
      PlaceIs(dst + done, n, offset);
      SmallerOffset(dst + done, src + done);
    }
    assert page in m.buffers;
    var copied := CopyBytes(page.bytes, offset, datas[k].bytes, from, size, page == datas[k]);
    chunk := copied[offset..offset + size];
  }

  /** One chunk into a writable page: what is still to be copied stays where it is. */
  method Fill(m: Memory, datas: seq<PageData>, first: nat, src: nat, dst: nat, ghost orig: seq<Byte>, done: nat,
              size: nat, n: nat, offset: nat)
    requires m.Valid() && dst < src && 0 < size && done + size <= |orig|
    requires Placed(dst + done, n, offset) && offset + size <= PAGE_SIZE && (src + done) % PAGE_SIZE + size <= PAGE_SIZE
    requires Captured(m, datas, first) && Holds(datas, first, src, orig, done)
    requires n in m.pages && m.pages[n].attr.write
    modifies m.pages[n].data
    ensures m.Valid() && Holds(datas, first, src, orig, done + size)
    ensures m.View() == old(m.View())[n := Patch(old(m.View())[n], offset, orig[done..done + size])]
  {
    OnlyOwnPage(m, datas, first, n);
    var chunk := CopyForward(m, datas, first, src, dst, orig, done, size, n, offset);
    m.Poke(n, offset, chunk);
    forall a | src + done + size <= a < src + |orig|
      ensures SourceAt(datas, first, a) && datas[a / PAGE_SIZE - first].bytes[a % PAGE_SIZE] == orig[a - src]
    {
      assert old(SourceAt(datas, first, a));
      if a / PAGE_SIZE == n {
        OffsetBeyond(a, dst + done, size, n, offset);
      }
    }
  }

  lemma OffsetBeyond(a: nat, b: nat, size: nat, n: nat, offset: nat)
    requires Placed(b, n, offset) && a / PAGE_SIZE == n && a >= b + size
    ensures a % PAGE_SIZE >= offset + size
  {
  }

  lemma PatchTwice(page: seq<Byte>, offset: nat, a: seq<Byte>, b: seq<Byte>)
    requires offset + |a| + |b| <= |page|
    ensures Patch(Patch(page, offset, a), offset + |a|, b) == Patch(page, offset, a + b)
  {
  }

  /** Two chunks, one behind the other, in one page. */
  lemma TwoChunks(before: Pages, middle: Pages, after: Pages, n: nat, offset: nat, a: seq<Byte>, b: seq<Byte>)
    requires Full(before) && offset + |a| + |b| <= PAGE_SIZE
    requires middle == before[n := Patch(before[n], offset, a)]
    requires after == middle[n := Patch(middle[n], offset + |a|, b)]
    ensures after == before[n := Patch(before[n], offset, a + b)]
  {
    PatchTwice(before[n], offset, a, b);
  }

  /** What is left of a page of the source. */
  lemma RestInNext(addr: nat, first: nat, size: nat)
    requires first == PAGE_SIZE - addr % PAGE_SIZE && size <= PAGE_SIZE && first < size
    ensures (addr + first) % PAGE_SIZE == 0
  {
  }

  /** One chunk of a page of the destination, from one page of the source or, where those are
      adjacent, from two. */
  method FillAcross(m: Memory, datas: seq<PageData>, first: nat, src: nat, dst: nat, ghost orig: seq<Byte>, done: nat,
                    size: nat, n: nat, offset: nat)
    requires m.Valid() && dst < src && 0 < size && done + size <= |orig|
    requires Placed(dst + done, n, offset) && offset + size <= PAGE_SIZE
    requires Captured(m, datas, first) && Holds(datas, first, src, orig, done)
    requires n in m.pages && m.pages[n].attr.write
    modifies m.pages[n].data
    ensures m.Valid() && Captured(m, datas, first) && Holds(datas, first, src, orig, done + size)
    ensures m.View() == old(m.View())[n := Patch(old(m.View())[n], offset, orig[done..done + size])]
  {
    var here := PAGE_SIZE - (src + done) % PAGE_SIZE;
    if size <= here {
      Fill(m, datas, first, src, dst, orig, done, size, n, offset);
    } else {
      FillTwice(m, datas, first, src, dst, orig, done, size, n, offset, here);
    }
  }

  /** The first bytes from one page of the source, the others from the next. */
  method FillTwice(m: Memory, datas: seq<PageData>, first: nat, src: nat, dst: nat, ghost orig: seq<Byte>, done: nat,
                   size: nat, n: nat, offset: nat, here: nat)
    requires m.Valid() && dst < src && 0 < here < size && done + size <= |orig|
    requires here == PAGE_SIZE - (src + done) % PAGE_SIZE
    requires Placed(dst + done, n, offset) && offset + size <= PAGE_SIZE
    requires Captured(m, datas, first) && Holds(datas, first, src, orig, done)
    requires n in m.pages && m.pages[n].attr.write
    modifies m.pages[n].data
    ensures m.Valid() && Captured(m, datas, first) && Holds(datas, first, src, orig, done + size)
    ensures m.View() == old(m.View())[n := Patch(old(m.View())[n], offset, orig[done..done + size])]
  {
    ghost var before := m.View();
    RestInNext(src + done, here, size);
    Fill(m, datas, first, src, dst, orig, done, here, n, offset);
    ghost var middle := m.View();
    Fill(m, datas, first, src, dst, orig, done + here, size - here, n, offset + here);
    TwoChunks(before, middle, m.View(), n, offset, orig[done..done + here], orig[done + here..done + size]);
    assert orig[done..done + here] + orig[done + here..done + size] == orig[done..done + size];
  }

  /** The bytes of orig up to done have been stored. */
  ghost predicate StoredTo(before: Pages, after: Pages, addr: nat, orig: seq<Byte>, done: nat) {
    && Full(before) && Full(after) && done <= |orig|
    && forall a: nat {:trigger ByteOf(after, a)} :: ByteOf(after, a) ==
         if addr <= a < addr + done then orig[a - addr] else ByteOf(before, a)
  }

  lemma ChunkMoved(before: Pages, middle: Pages, after: Pages, addr: nat, orig: seq<Byte>, done: nat, size: nat)
    requires done + size <= |orig| && StoredTo(before, middle, addr, orig, done)
    requires Stored(middle, after, addr + done, orig[done..done + size])
    ensures StoredTo(before, after, addr, orig, done + size)
  {
    forall a: nat
      ensures ByteOf(after, a) == if addr <= a < addr + (done + size) then orig[a - addr] else ByteOf(before, a)
    {
      assert ByteOf(middle, a) == if addr <= a < addr + done then orig[a - addr] else ByteOf(before, a);
    }
  }

  ghost predicate Unwritable(m: Memory, dst: nat, len: nat)
    reads m
  {
    exists n :: dst / PAGE_SIZE <= n < PagePast(dst, dst + len) && !m.CanWrite(n)
  }

  /** A chunk at offset in page n is stored at addr. */
  lemma PlacedStores(before: Pages, middle: Pages, after: Pages, addr: nat, n: nat, offset: nat, bytes: seq<Byte>)
    requires Full(before) && Full(middle) && Placed(addr, n, offset) && offset + |bytes| <= PAGE_SIZE
    requires middle == before[n := middle[n]] && (|bytes| == PAGE_SIZE || middle == before)
    requires after == middle[n := Patch(middle[n], offset, bytes)]
    ensures Stored(before, after, addr, bytes)
  {
    PlaceIs(addr, n, offset);
    ChunkStores(before, middle, after, addr, bytes);
  }

  /** One turn of memcpy's loop, once page n is writable. */
  method CopyPrepared(m: Memory, datas: seq<PageData>, first: nat, src: nat, dst: nat, ghost orig: seq<Byte>, done: nat,
                      size: nat, n: nat, offset: nat, ghost before: Pages, ghost start: Pages)
    requires m.Valid() && dst < src && 0 < size && done + size <= |orig|
    requires Placed(dst + done, n, offset) && offset + size <= PAGE_SIZE
    requires Captured(m, datas, first) && Holds(datas, first, src, orig, done)
    requires n in m.pages && m.pages[n].attr.write
    requires StoredTo(before, start, dst, orig, done)
    requires m.View() == start[n := m.View()[n]] && (size == PAGE_SIZE || m.View() == start)
    modifies m.pages[n].data
    ensures m.Valid() && StoredTo(before, m.View(), dst, orig, done + size)
    ensures Captured(m, datas, first) && Holds(datas, first, src, orig, done + size)
  {
    ghost var middle := m.View();
    FillAcross(m, datas, first, src, dst, orig, done, size, n, offset);
    ghost var after := m.View();
    PlacedStores(start, middle, after, dst + done, n, offset, orig[done..done + size]);
    ChunkMoved(before, start, after, dst, orig, done, size);
  }

  /** One turn of memcpy's loop, from a captured buffer. */
  method CopyStep(m: Memory, datas: seq<PageData>, first: nat, src: nat, dst: nat, ghost orig: seq<Byte>, done: nat,
                  size: nat, n: nat, offset: nat, ghost before: Pages)
    returns (ok: bool)
    requires m.Valid() && dst < src && 0 < size && done + size <= |orig|
    requires Placed(dst + done, n, offset) && offset + size <= PAGE_SIZE
    requires Captured(m, datas, first) && Holds(datas, first, src, orig, done)
    requires StoredTo(before, m.View(), dst, orig, done)
    modifies m, m.owned
    ensures m.Valid() && fresh(m.owned - old(m.owned))
    ensures !ok ==> !m.CanWrite(n)
    ensures ok ==> StoredTo(before, m.View(), dst, orig, done + size)
    ensures ok ==> Captured(m, datas, first) && Holds(datas, first, src, orig, done + size)
  {
    ghost var start := m.View();
    ok := Prepare(m, n, size != PAGE_SIZE, datas, first);
    if ok {
      CopyPrepared(m, datas, first, src, dst, orig, done, size, n, offset, before, start);
    }
  }

  /** memcpy(dst, ptr, len) of one buffer, from byte start of the source up to byte end. */
  method CopyBuffer(m: Memory, datas: seq<PageData>, first: nat, src: nat, dst: nat, ghost orig: seq<Byte>, start: nat,
                    end: nat, ghost before: Pages)
    returns (ok: bool)
    requires m.Valid() && dst < src && start <= end <= |orig|
    requires Captured(m, datas, first) && Holds(datas, first, src, orig, start)
    requires StoredTo(before, m.View(), dst, orig, start)
    modifies m, m.owned
    ensures m.Valid() && fresh(m.owned - old(m.owned))
    ensures !ok ==> Unwritable(m, dst, |orig|)
    ensures ok ==> StoredTo(before, m.View(), dst, orig, end)
    ensures ok ==> Captured(m, datas, first) && Holds(datas, first, src, orig, end)
  {
    var done := start;
    ok := true;
    while done < end && ok
      invariant start <= done <= end && m.Valid() && fresh(m.owned - old(m.owned))
      invariant ok ==> Captured(m, datas, first) && Holds(datas, first, src, orig, done)
      invariant ok ==> StoredTo(before, m.View(), dst, orig, done)
      invariant !ok ==> Unwritable(m, dst, |orig|)
      decreases end - done, ok
    {
      ok, done := CopyTurn(m, datas, first, src, dst, orig, done, end, before);
    }
  }

  /** One turn of the loop: the bytes that fall into one page of the destination. */
  method CopyTurn(m: Memory, datas: seq<PageData>, first: nat, src: nat, dst: nat, ghost orig: seq<Byte>, done: nat,
                  end: nat, ghost before: Pages)
    returns (ok: bool, next: nat)
    requires m.Valid() && dst < src && done < end <= |orig|
    requires Captured(m, datas, first) && Holds(datas, first, src, orig, done)
    requires StoredTo(before, m.View(), dst, orig, done)
    modifies m, m.owned
    ensures m.Valid() && fresh(m.owned - old(m.owned))
    ensures if ok then done < next <= end else next == done && Unwritable(m, dst, |orig|)
    ensures ok ==> StoredTo(before, m.View(), dst, orig, next)
    ensures ok ==> Captured(m, datas, first) && Holds(datas, first, src, orig, next)
  {
    var size := ChunkSize(dst + done, end - done);
    var n, offset := (dst + done) / PAGE_SIZE, (dst + done) % PAGE_SIZE;
    PlacedAt(dst + done);
    PageInRange(dst, dst + done, dst + |orig|);
    ok := CopyStep(m, datas, first, src, dst, orig, done, size, n, offset, before);
    next := if ok then done + size else done;
  }

  /** The bytes at src. */
  ghost function BytesAt(v: Pages, src: nat, len: nat): (s: seq<Byte>)
    requires Full(v)
    ensures |s| == len && forall i :: 0 <= i < len ==> s[i] == ByteOf(v, src + i)
  {
    seq<Byte>(len, i requires 0 <= i < len => ByteOf(v, src + i))
  }

  lemma SourceIsCaptured(m: Memory, datas: seq<PageData>, src: nat, len: nat)
    requires m.Valid() && len > 0
    requires |datas| == PagesOf(src, src + len) && AreDatas(datas, m.pages, m.zero, src / PAGE_SIZE)
    ensures Captured(m, datas, src / PAGE_SIZE)
    ensures Holds(datas, src / PAGE_SIZE, src, BytesAt(m.View(), src, len), 0)
  {
    forall a | src <= a < src + len
      ensures SourceAt(datas, src / PAGE_SIZE, a)
      ensures datas[a / PAGE_SIZE - src / PAGE_SIZE].bytes[a % PAGE_SIZE] == ByteOf(m.View(), a)
    {
      assert datas[a / PAGE_SIZE - src / PAGE_SIZE] == DataOf(m.pages, m.zero, a / PAGE_SIZE);
    }
  }

  /** The branch for dst below src. */
  method MoveForwards(m: Memory, dst: nat, src: nat, len: nat, adjacent: Adjacent) returns (ok: bool)
    requires m.Valid() && dst < src && len > 0
    modifies m, m.owned
    ensures m.Valid() && fresh(m.owned - old(m.owned))
    ensures !ok ==> Blocked(m, dst, src, len) || Fragmented(m, adjacent, src, len, MEMCPY_BUFFERS)
    ensures ok ==> Stored(old(m.View()), m.View(), dst, BytesAt(old(m.View()), src, len))
  {
    ghost var before := m.View();
    ghost var orig := BytesAt(before, src, len);
    var datas: seq<PageData>;
    var buffers: seq<Buffer>;
    ok, datas, buffers := GatherBuffers(m, MEMCPY_BUFFERS, src, len, adjacent);
    if !ok {
      return;
    }
    SourceIsCaptured(m, datas, src, len);
    ok := CopyBuffers(m, datas, buffers, src / PAGE_SIZE, dst, src, len, orig, before);
  }

  /** A page of the source cannot be read, or one of the destination cannot be written to. */
  ghost predicate Blocked(m: Memory, dst: nat, src: nat, len: nat)
    reads m
  {
    || (exists n :: src / PAGE_SIZE <= n < PagePast(src, src + len) && !m.Readable(n))
    || Unwritable(m, dst, len)
  }

  lemma StoredToEnd(before: Pages, after: Pages, addr: nat, orig: seq<Byte>)
    requires StoredTo(before, after, addr, orig, |orig|)
    ensures Stored(before, after, addr, orig)
  {
  }

  /** The captured buffers, one after the other. */
  method CopyBuffers(m: Memory, datas: seq<PageData>, buffers: seq<Buffer>, first: nat, dst: nat, src: nat, len: nat,
                     ghost orig: seq<Byte>, ghost before: Pages)
    returns (ok: bool)
    requires m.Valid() && dst < src && len == |orig| && Tiled(buffers, len) && before == m.View()
    requires Captured(m, datas, first) && Holds(datas, first, src, orig, 0)
    modifies m, m.owned
    ensures m.Valid() && fresh(m.owned - old(m.owned))
    ensures !ok ==> Unwritable(m, dst, len)
    ensures ok ==> Stored(before, m.View(), dst, orig)
  {
    var i, done := 0, 0;
    ok := true;
    while i < |buffers| && ok
      invariant 0 <= i <= |buffers| && done == (if i == 0 then 0 else buffers[i - 1].end) <= len
      invariant m.Valid() && fresh(m.owned - old(m.owned))
      invariant ok ==> Captured(m, datas, first) && Holds(datas, first, src, orig, done)
      invariant ok ==> StoredTo(before, m.View(), dst, orig, done)
      invariant !ok ==> Unwritable(m, dst, len)
      decreases |buffers| - i, ok
    {
      TiledWithin(buffers, len, i);
      ok := CopyBuffer(m, datas, first, src, dst, orig, buffers[i].start, buffers[i].end, before);
      if ok {
        done, i := buffers[i].end, i + 1;
      }
    }
    if ok {
      StoredToEnd(before, m.View(), dst, orig);
    }
  }

  lemma {:induction false} TiledWithin(buffers: seq<Buffer>, len: nat, i: nat)
    requires Tiled(buffers, len) && i < |buffers|
    ensures buffers[i].start == (if i == 0 then 0 else buffers[i - 1].end) && buffers[i].start < buffers[i].end <= len
    decreases |buffers| - i
  {
    assert Follows(buffers, i);
    if i + 1 < |buffers| {
      assert Follows(buffers, i + 1);
      TiledWithin(buffers, len, i + 1);
    }
  }

  // -------------------------------------------------------------------------
  // Backwards
  // -------------------------------------------------------------------------

  /** The bytes of orig from i on have been stored. */
  ghost predicate StoredFrom(before: Pages, after: Pages, addr: nat, orig: seq<Byte>, i: nat) {
    && Full(before) && Full(after)
    && forall a: nat {:trigger ByteOf(after, a)} :: ByteOf(after, a) ==
         if addr + i <= a < addr + |orig| then orig[a - addr] else ByteOf(before, a)
  }

  /** a is a multiple of a word size. */
  predicate Multiple(a: nat, size: nat) {
    match size
    case 4 => a % 4 == 0
    case 8 => a % 8 == 0
    case 16 => a % 16 == 0
    case _ => true
  }

  /** Words or bytes, from the last to the first. */
  method MoveBackwards(m: Memory, dst: nat, src: nat, len: nat, size: nat, ghost before: Pages, ghost orig: seq<Byte>)
    returns (ok: bool)
    requires m.Valid() && src <= dst && WordsFit(src, dst, len, size)
    requires before == m.View() && |orig| == len && orig == BytesAt(before, src, |orig|)
    modifies m, m.owned
    ensures m.Valid() && fresh(m.owned - old(m.owned))
    ensures !ok ==> Blocked(m, dst, src, len)
    ensures ok ==> Stored(before, m.View(), dst, orig)
  {
    var i: nat := len;
    ok := true;
    while i != 0 && ok
      invariant 0 <= i <= len && WordsFit(src, dst, i, size) && m.Valid() && fresh(m.owned - old(m.owned))
      invariant ok ==> StoredFrom(before, m.View(), dst, orig, i)
      invariant !ok ==> Blocked(m, dst, src, len)
      decreases i, ok
    {
      ok := MoveNext(m, dst, src, i, size, before, orig);
      if ok {
        i := i - size;
      }
    }
    if ok {
      StoredFromStart(before, m.View(), dst, orig);
    }
  }

  lemma StoredFromStart(before: Pages, after: Pages, addr: nat, orig: seq<Byte>)
    requires StoredFrom(before, after, addr, orig, 0)
    ensures Stored(before, after, addr, orig)
  {
  }

  lemma WordMoved(before: Pages, middle: Pages, after: Pages, src: nat, dst: nat, orig: seq<Byte>, i: nat, size: nat)
    requires Full(before) && orig == BytesAt(before, src, |orig|) && src <= dst && 0 < size <= i <= |orig|
    requires StoredFrom(before, middle, dst, orig, i)
    requires Stored(middle, after, dst + i - size, BytesAt(middle, src + i - size, size))
    ensures StoredFrom(before, after, dst, orig, i - size)
  {
    forall a: nat
      ensures ByteOf(after, a) == if dst + (i - size) <= a < dst + |orig| then orig[a - dst] else ByteOf(before, a)
    {
      assert ByteOf(middle, a) == if dst + i <= a < dst + |orig| then orig[a - dst] else ByteOf(before, a);
      if dst + (i - size) <= a < dst + i {
        // the source byte lies below everything that has been written
        var s := a - dst + src;
        assert ByteOf(middle, s) == ByteOf(before, s);
        assert BytesAt(middle, src + i - size, size)[a - (dst + i - size)] == ByteOf(middle, s);
      }
    }
  }

  method MoveNext(m: Memory, dst: nat, src: nat, i: nat, size: nat, ghost before: Pages, ghost orig: seq<Byte>)
    returns (ok: bool)
    requires m.Valid() && src <= dst && 0 < size <= i <= |orig| && Full(before) && orig == BytesAt(before, src, |orig|)
    requires (dst + i - size) % PAGE_SIZE + size <= PAGE_SIZE && (src + i - size) % PAGE_SIZE + size <= PAGE_SIZE
    requires StoredFrom(before, m.View(), dst, orig, i)
    modifies m, m.owned
    ensures m.Valid() && fresh(m.owned - old(m.owned))
    ensures !ok ==> Blocked(m, dst, src, |orig|)
    ensures ok ==> StoredFrom(before, m.View(), dst, orig, i - size)
  {
    ghost var middle := m.View();
    PageInRange(dst, dst + i - size, dst + |orig|);
    PageInRange(src, src + i - size, src + |orig|);
    ok := MoveWord(m, dst + i - size, src + i - size, size);
    if ok {
      WordMoved(before, middle, m.View(), src, dst, orig, i, size);
    }
  }

  method MoveWord(m: Memory, dst: nat, src: nat, size: nat) returns (ok: bool)
    requires m.Valid() && dst % PAGE_SIZE + size <= PAGE_SIZE && src % PAGE_SIZE + size <= PAGE_SIZE
    modifies m, m.owned
    ensures m.Valid() && fresh(m.owned - old(m.owned))
    ensures !ok ==> !m.Readable(src / PAGE_SIZE) || m.BlockedAt(dst)
    ensures ok ==> Stored(old(m.View()), m.View(), dst, BytesAt(old(m.View()), src, size))
  {
    var value: seq<Byte>;
    ok, value := m.Read(src, size);
    if ok {
      assert value == BytesAt(old(m.View()), src, size);
      ok := m.Write(dst, value);
    }
  }

  /** None of the words below i crosses a page boundary. */
  ghost predicate WordsFit(src: nat, dst: nat, i: nat, size: nat) {
    i == 0 ||
    (0 < size <= i && (src + i - size) % PAGE_SIZE + size <= PAGE_SIZE
      && (dst + i - size) % PAGE_SIZE + size <= PAGE_SIZE
     && WordsFit(src, dst, i - size, size))
  }

  lemma {:induction false} AllWordsFit(src: nat, dst: nat, i: nat, size: nat)
    requires size in {1, 4, 8, 16} && Multiple(src, size) && Multiple(dst, size) && Multiple(i, size)
    ensures WordsFit(src, dst, i, size)
  {
    if i > 0 {
      WordInPage(src, i, size);
      WordInPage(dst, i, size);
      AllWordsFit(src, dst, i - size, size);
    }
  }

  ghost predicate LastWordFits(base: nat, i: nat, size: nat) {
    i >= size && Multiple(i - size, size) && (base + i - size) % PAGE_SIZE + size <= PAGE_SIZE
  }

  /** An aligned word does not cross a page boundary. */
  lemma WordInPage(base: nat, i: nat, size: nat)
    requires size in {1, 4, 8, 16} && Multiple(base, size) && Multiple(i, size) && i > 0
    ensures LastWordFits(base, i, size)
  {
    match size
    case 4 => Word4InPage(base, i);
    case 8 => Word8InPage(base, i);
    case 16 => Word16InPage(base, i);
    case _ =>
  }

  lemma Word4InPage(base: nat, i: nat)
    requires base % 4 == 0 && i % 4 == 0 && i > 0
    ensures LastWordFits(base, i, 4)
  {
    var n := base / 4 + i / 4 - 1;
    assert base + i - 4 == 4 * n && 4 * n % PAGE_SIZE == 4 * (n % 1024);
  }

  lemma Word8InPage(base: nat, i: nat)
    requires base % 8 == 0 && i % 8 == 0 && i > 0
    ensures LastWordFits(base, i, 8)
  {
    var n := base / 8 + i / 8 - 1;
    assert base + i - 8 == 8 * n && 8 * n % PAGE_SIZE == 8 * (n % 512);
  }

  lemma Word16InPage(base: nat, i: nat)
    requires base % 16 == 0 && i % 16 == 0 && i > 0
    ensures LastWordFits(base, i, 16)
  {
    var n := base / 16 + i / 16 - 1;
    assert base + i - 16 == 16 * n && 16 * n % PAGE_SIZE == 16 * (n % 256);
  }

  // -------------------------------------------------------------------------
  // native_memmove
  // -------------------------------------------------------------------------

  /** wordsize is the size of a register, adjacent which page buffers follow one another in the
      memory of the host. */
  method NativeMemmove(m: Memory, dst: nat, src: nat, len: nat, wordsize: nat, adjacent: Adjacent) returns (ok: bool)
    requires m.Valid() && wordsize in {4, 8, 16}
    modifies m, m.owned
    ensures m.Valid() && fresh(m.owned - old(m.owned))
    ensures len > MEMCPY_MAX ==> !ok && m.View() == old(m.View())
    ensures !ok && len <= MEMCPY_MAX ==>
              Blocked(m, dst, src, len) || (dst < src && Fragmented(m, adjacent, src, len, MEMCPY_BUFFERS))
    ensures ok ==> Stored(old(m.View()), m.View(), dst, BytesAt(old(m.View()), src, len))
  {
    if len == 0 {
      return true;
    }
    if len > MEMCPY_MAX {
      return false;
    }
    if dst < src {
      ok := MoveForwards(m, dst, src, len, adjacent);
    } else if Multiple(dst, wordsize) && Multiple(src, wordsize) && Multiple(len, wordsize) {
      AllWordsFit(src, dst, len, wordsize);
      ok := MoveBackwards(m, dst, src, len, wordsize, m.View(), BytesAt(m.View(), src, len));
    } else {
      AllWordsFit(src, dst, len, 1);
      ok := MoveBackwards(m, dst, src, len, 1, m.View(), BytesAt(m.View(), src, len));
    }
  }
}
