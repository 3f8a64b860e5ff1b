/**
  Paged guest memory: a page table, a one-entry read cache and a one-entry write cache, pages
  created on demand, and pages loaned from elsewhere that are copied when written to.  Read
  through all of that, memory is a plain array of bytes.
 */
module Paging {
  type Byte = n: nat | n < 256

  const PAGE_SIZE: nat := 4096
  const NO_PAGE: int := -1
  const SCAN_LIMIT: nat := 1024

  /** The bytes of one page. */
  type PageBytes = s: seq<Byte> | |s| == PAGE_SIZE witness Zeros()

  /** A page buffer. */
  class PageData {
    var bytes: PageBytes

    constructor (bytes: PageBytes)
      ensures this.bytes == bytes
    {
      this.bytes := bytes;
    }
  }

  datatype Attributes = Attributes(read: bool, write: bool, exec: bool, isCow: bool, nonOwning: bool, dontFork: bool)

  const DEFAULT_ATTR := Attributes(true, true, false, false, false, false)
  const COW_ATTR := Attributes(true, false, false, true, true, false)

  datatype Page = Page(attr: Attributes, data: PageData)

  datatype CachedPage = CachedPage(pageno: int, data: PageData)

  // -------------------------------------------------------------------------
  // Memory as bytes
  // -------------------------------------------------------------------------

  /** The bytes of every page. */
  type Pages = imap<nat, seq<Byte>>

  ghost predicate Full(pages: Pages) {
    && (forall n: nat :: n in pages)
    && (forall n :: n in pages ==> |pages[n]| == PAGE_SIZE)
  }

  ghost function ByteOf(pages: Pages, a: nat): Byte
    requires Full(pages)
  {
    pages[a / PAGE_SIZE][a % PAGE_SIZE]
  }

  /** A page with some bytes replaced. */
  function Patch(page: seq<Byte>, offset: nat, bytes: seq<Byte>): (r: seq<Byte>)
    requires offset + |bytes| <= |page|
    ensures |r| == |page|
  {
    page[..offset] + bytes + page[offset + |bytes|..]
  }

  /** after is before with bytes at addr. */
  ghost predicate Stored(before: Pages, after: Pages, addr: nat, bytes: seq<Byte>) {
    && Full(before) && Full(after)
    && forall a: nat {:trigger ByteOf(after, a)} :: ByteOf(after, a) ==
         if addr <= a < addr + |bytes| then bytes[a - addr] else ByteOf(before, a)
  }

  lemma PatchStores(before: Pages, n: nat, offset: nat, bytes: seq<Byte>)
    requires Full(before) && offset + |bytes| <= PAGE_SIZE
    ensures Stored(before, before[n := Patch(before[n], offset, bytes)], n * PAGE_SIZE + offset, bytes)
  {
    var after := before[n := Patch(before[n], offset, bytes)];
    forall a: nat
      ensures ByteOf(after, a) == if n * PAGE_SIZE + offset <= a < n * PAGE_SIZE + offset + |bytes|
                                  then bytes[a - (n * PAGE_SIZE + offset)] else ByteOf(before, a)
    {
      if a / PAGE_SIZE == n {
        assert a == n * PAGE_SIZE + a % PAGE_SIZE;
      }
    }
  }

  /** A page that was created first, with anything in it if all of it is overwritten. */
  lemma ChunkStores(before: Pages, middle: Pages, after: Pages, addr: nat, bytes: seq<Byte>)
    requires Full(before) && Full(middle) && addr % PAGE_SIZE + |bytes| <= PAGE_SIZE
    requires var n := addr / PAGE_SIZE;
             && middle == before[n := middle[n]] && (|bytes| == PAGE_SIZE || middle == before)
             && after == middle[n := Patch(middle[n], addr % PAGE_SIZE, bytes)]
    ensures Stored(before, after, addr, bytes)
  {
    var n, offset := addr / PAGE_SIZE, addr % PAGE_SIZE;
    PatchStores(before, n, offset, bytes);
    if |bytes| == PAGE_SIZE {
      assert Patch(middle[n], offset, bytes) == bytes == Patch(before[n], offset, bytes);
    }
    assert after == before[n := Patch(before[n], offset, bytes)];
  }

  lemma StoredMore(before: Pages, middle: Pages, after: Pages, addr: nat, src: seq<Byte>, done: nat, size: nat)
    requires done + size <= |src|
    requires Stored(before, middle, addr, src[..done]) && Stored(middle, after, addr + done, src[done..done + size])
    ensures Stored(before, after, addr, src[..done + size])
  {
    StoredTwice(before, middle, after, addr, src[..done], src[done..done + size]);
    assert src[..done] + src[done..done + size] == src[..done + size];
  }

  lemma StoredTwice(before: Pages, middle: Pages, after: Pages, addr: nat, bytes: seq<Byte>, more: seq<Byte>)
    requires Stored(before, middle, addr, bytes) && Stored(middle, after, addr + |bytes|, more)
    ensures Stored(before, after, addr, bytes + more)
  {
    forall a: nat
      ensures ByteOf(after, a) ==
                if addr <= a < addr + |bytes + more| then (bytes + more)[a - addr] else ByteOf(before, a)
    {
      assert ByteOf(middle, a) == if addr <= a < addr + |bytes| then bytes[a - addr] else ByteOf(before, a);
    }
  }

  function Repeat(value: Byte, n: nat): (s: seq<Byte>)
    ensures |s| == n && forall i :: 0 <= i < n ==> s[i] == value
  {
    seq(n, _ => value)
  }

  function Zeros(): (z: seq<Byte>)
    ensures |z| == PAGE_SIZE && forall i :: 0 <= i < PAGE_SIZE ==> z[i] == 0
  {
    Repeat(0, PAGE_SIZE)
  }

  // -------------------------------------------------------------------------
  // Page tables
  // -------------------------------------------------------------------------

  type Table = map<nat, Page>

  /** The page that a lookup of n finds; zero is the data of the copy-on-write page. */
  function PageOf(table: Table, zero: PageData, n: nat): Page {
    if n in table then table[n] else Page(COW_ATTR, zero)
  }

  ghost predicate Apart(table: Table, n: nat, m: nat)
    requires n in table && m in table
  {
    table[n].data != table[m].data
  }

  /** The buffer of a page with these attributes is owned, or shared to be written to. */
  ghost predicate Own(attr: Attributes) {
    !attr.nonOwning || attr.write
  }

  ghost predicate PageOk(table: Table, zero: PageData, n: nat)
    requires n in table
  {
    var attr := table[n].attr;
    && (attr.isCow ==> attr.nonOwning && !attr.write)
    && (Own(attr) ==> table[n].data != zero)
  }

  /** A buffer that is owned or written to belongs to one page. */
  ghost predicate TableOk(table: Table, zero: PageData) {
    && (forall n {:trigger PageOk(table, zero, n)} :: n in table ==> PageOk(table, zero, n))
    && (forall n, m {:trigger Apart(table, n, m)} ::
          n in table && m in table && n != m && Own(table[n].attr) ==> Apart(table, n, m))
  }

  ghost function BuffersOf(table: Table, zero: PageData): set<PageData> {
    (set n | n in table :: table[n].data) + {zero}
  }

  ghost function OwnedOf(table: Table): set<PageData> {
    set n | n in table && Own(table[n].attr) :: table[n].data
  }

  ghost function OwnedPagesOf(table: Table): set<nat> {
    set n | n in table && !table[n].attr.nonOwning
  }

  lemma BuffersAfter(table: Table, zero: PageData, n: nat, page: Page)
    ensures BuffersOf(table[n := page], zero) <= BuffersOf(table, zero) + {page.data}
  {
  }

  /** The table with a page n in a buffer that nobody else has. */
  lemma OwnPage(table: Table, zero: PageData, n: nat, page: Page)
    requires TableOk(table, zero) && page.data !in BuffersOf(table, zero)
    requires page.attr.write && !page.attr.nonOwning && !page.attr.isCow
    requires n in table ==> !Own(table[n].attr)
    ensures TableOk(table[n := page], zero)
    ensures OwnedOf(table[n := page]) == OwnedOf(table) + {page.data}
    ensures |OwnedPagesOf(table[n := page])| == |OwnedPagesOf(table)| + 1
  {
    var after := table[n := page];
    forall m | m in after
      ensures PageOk(after, zero, m)
    {
      assert m != n ==> PageOk(table, zero, m);
    }
    forall m, k | m in after && k in after && m != k && Own(after[m].attr)
      ensures Apart(after, m, k)
    {
      if m != n && k != n {
        assert Apart(table, m, k);
      } else if m != n {
        assert table[m].data in BuffersOf(table, zero);
      } else {
        assert table[k].data in BuffersOf(table, zero);
      }
    }
    OwnPageSets(table, n, page);
  }

  lemma OwnPageSets(table: Table, n: nat, page: Page)
    requires !page.attr.nonOwning && (n in table ==> !Own(table[n].attr))
    ensures OwnedOf(table[n := page]) == OwnedOf(table) + {page.data}
    ensures |OwnedPagesOf(table[n := page])| == |OwnedPagesOf(table)| + 1
  {
    var after := table[n := page];
    forall d | d in OwnedOf(table)
      ensures d in OwnedOf(after)
    {
      var m :| m in table && Own(table[m].attr) && table[m].data == d;
      assert after[m] == table[m];
    }
    assert after[n].data in OwnedOf(after);
    assert OwnedPagesOf(after) == OwnedPagesOf(table) + {n};
  }

  /** A page on loan can take its place at n: no page that is written to has its buffer, and if it
      is written to itself, no other page has. */
  ghost predicate Lone(table: Table, zero: PageData, n: nat, page: Page) {
    && page.attr.nonOwning && (page.attr.isCow ==> !page.attr.write) && (page.attr.write ==> page.data != zero)
    && forall m :: m in table && m != n && (Own(table[m].attr) || page.attr.write) ==> table[m].data != page.data
  }

  /** The table with a loaned page n, in place of none or of another loaned one. */
  lemma LoanPage(table: Table, zero: PageData, n: nat, page: Page)
    requires TableOk(table, zero) && Lone(table, zero, n, page)
    requires n in table ==> table[n].attr.nonOwning
    ensures TableOk(table[n := page], zero)
    ensures OwnedPagesOf(table[n := page]) == OwnedPagesOf(table)
    ensures OwnedOf(table[n := page]) <= OwnedOf(table) + if page.attr.write then {page.data} else {}
  {
    var after := table[n := page];
    forall m | m in after
      ensures PageOk(after, zero, m)
    {
      assert m != n ==> PageOk(table, zero, m);
    }
    forall m, k | m in after && k in after && m != k && Own(after[m].attr)
      ensures Apart(after, m, k)
    {
      assert m != n && k != n ==> Apart(table, m, k);
    }
  }

  /** A buffer on loan is not owned under another page number. */
  lemma LoanNotOwned(table: Table, zero: PageData, n: nat)
    requires TableOk(table, zero) && (n !in table || !Own(table[n].attr))
    ensures PageOf(table, zero, n).data !in OwnedOf(table)
  {
    forall m | m in table && Own(table[m].attr)
      ensures table[m].data != PageOf(table, zero, n).data
    {
      assert PageOk(table, zero, m);
      assert n in table ==> Apart(table, m, n);
    }
  }

  // -------------------------------------------------------------------------
  // Pages that were written to
  // -------------------------------------------------------------------------

  /** A page that is there and can be written to, now or once it is copied. */
  ghost predicate Writes(table: Table, n: nat) {
    n in table ==> table[n].attr.write || table[n].attr.isCow
  }

  /** Page n after a write to it: there, writable, as readable as before, and in a buffer of its own
      that was not used before unless it was writable already. */
  ghost predicate WrittenPage(before: Table, after: Table, used: set<PageData>, n: nat) {
    && Writes(before, n) && n in after && after[n].attr.write
    && (after[n].attr.read <==> n !in before || before[n].attr.read)
    && if n in before && before[n].attr.write then after[n] == before[n]
       else after[n].data !in used && !after[n].attr.nonOwning
  }

  /** after is before with the pages from lo up to hi written to. */
  ghost predicate Touched(before: Table, after: Table, used: set<PageData>, lo: nat, hi: nat) {
    && (forall n {:trigger n in after} :: n in after <==> n in before || lo <= n < hi)
    && (forall n {:trigger after[n]} :: n in before && !(lo <= n < hi) ==> after[n] == before[n])
    && (forall n {:trigger WrittenPage(before, after, used, n)} :: lo <= n < hi ==> WrittenPage(before, after, used, n))
  }

  lemma TouchedOne(before: Table, page: Page, used: set<PageData>, n: nat)
    requires WrittenPage(before, before[n := page], used, n)
    ensures Touched(before, before[n := page], used, n, n + 1)
  {
  }

  lemma TouchedMore(before: Table, middle: Table, after: Table, used: set<PageData>, more: set<PageData>, lo: nat,
                    n: nat)
    requires lo <= n && used <= more
    requires Touched(before, middle, used, lo, n) && Touched(middle, after, more, n, n + 1)
    ensures Touched(before, after, used, lo, n + 1)
  {
    assert WrittenPage(middle, after, more, n);
    forall m | lo <= m < n + 1
      ensures WrittenPage(before, after, used, m)
    {
      if m < n {
        assert WrittenPage(before, middle, used, m);
        assert after[m] == middle[m];
      }
    }
  }

  /** The page after the last byte below end, of bytes that begin at addr. */
  function PagePast(addr: nat, end: nat): (n: nat)
    requires addr <= end
    ensures n >= addr / PAGE_SIZE
  {
    if addr == end then addr / PAGE_SIZE else (end - 1) / PAGE_SIZE + 1
  }

  /** Pages leave the table. */
  lemma DropPages(table: Table, zero: PageData, after: Table)
    requires TableOk(table, zero) && forall n {:trigger n in after} :: n in after ==> n in table && after[n] == table[n]
    ensures TableOk(after, zero) && BuffersOf(after, zero) <= BuffersOf(table, zero)
    ensures OwnedOf(after) <= OwnedOf(table) && |OwnedPagesOf(after)| <= |OwnedPagesOf(table)|
  {
    forall n | n in after
      ensures PageOk(after, zero, n)
    {
      assert PageOk(table, zero, n);
    }
    forall n, m | n in after && m in after && n != m && Own(after[n].attr)
      ensures Apart(after, n, m)
    {
      assert Apart(table, n, m);
    }
    SubsetSize(OwnedPagesOf(after), OwnedPagesOf(table));
  }

  lemma SubsetSize<T>(a: set<T>, b: set<T>)
    requires a <= b
    ensures |a| <= |b|
  {
    assert b == a + (b - a);
  }

  lemma CountStep<T>(all: set<T>, rest: set<T>, n: T)
    requires n in rest
    ensures |all - (rest - {n})| == |all - rest| + if n in all then 1 else 0
  {
    assert all - (rest - {n}) == (all - rest) + if n in all then {n} else {};
  }

  // -------------------------------------------------------------------------
  // Memory
  // -------------------------------------------------------------------------

  class Memory {
    const zero: PageData       // the data of the copy-on-write page
    const maxPages: nat        // the limit that the page fault handler has
    var pages: Table
    var rdCache: CachedPage
    var wrCache: CachedPage
    var ownedLimit: nat
    var scans: nat
    ghost var conversions: nat // loaned pages that became owned
    ghost var owned: set<PageData>
    ghost var buffers: set<PageData>

    /** Owned pages stay within the limit, the scans that may still be skipped, and the loaned
        pages that were copied. */
    ghost predicate Limited()
      reads this
    {
      scans <= SCAN_LIMIT && |OwnedPagesOf(pages)| + scans <= maxPages + SCAN_LIMIT + conversions
    }

    /** A cache hit names the data that the table lookup would give. */
    ghost predicate CachesOk()
      reads this
    {
      && (rdCache.pageno == NO_PAGE ||
          (rdCache.pageno >= 0 && Readable(rdCache.pageno)
           && rdCache.data == PageOf(pages, zero, rdCache.pageno).data))
      && (wrCache.pageno == NO_PAGE ||
          (wrCache.pageno >= 0 && wrCache.pageno in pages && pages[wrCache.pageno].attr.write
           && wrCache.data == pages[wrCache.pageno].data))
    }

    /** All buffers in use are among those ever used. */
    ghost predicate Known()
      reads this`pages, this`buffers
    {
      BuffersOf(pages, zero) <= buffers
    }

    ghost predicate Valid()
      reads this, zero
    {
      && Known() && zero.bytes == Zeros()
      && TableOk(pages, zero) && CachesOk() && Limited()
      && owned == OwnedOf(pages)
    }

    /** What the guest sees, permissions aside. */
    ghost function View(): (v: Pages)
      requires Known()
      reads this`pages, this`buffers, buffers
      ensures Full(v)
    {
      imap n: nat | true :: PageOf(pages, zero, n).data.bytes
    }

    ghost predicate Readable(n: nat)
      reads this`pages
    {
      PageOf(pages, zero, n).attr.read
    }

    /** The page can be written to once it is there and not shared. */
    ghost predicate Writable(n: nat)
      reads this`pages
    {
      Writes(pages, n)
    }

    /** The page fault handler has room for another page, going by what it looks at. */
    ghost predicate Room()
      reads this
    {
      || |pages| < maxPages
      || (ownedLimit == maxPages && scans > 0)
      || |OwnedPagesOf(pages)| < maxPages
    }

    /** A write to the page does not raise an exception. */
    ghost predicate CanWrite(n: nat)
      reads this
    {
      Writable(n) && (n in pages || Room())
    }

    ghost predicate BlockedAt(a: nat)
      reads this
    {
      !CanWrite(a / PAGE_SIZE)
    }

    constructor (zero: PageData, maxPages: nat)
      requires zero.bytes == Zeros()
      ensures Valid() && this.zero == zero && this.maxPages == maxPages && pages == map[] && conversions == 0
      ensures ownedLimit == 0 && scans == 0
    {
      this.zero, this.maxPages := zero, maxPages;
      pages := map[];
      rdCache, wrCache := CachedPage(NO_PAGE, zero), CachedPage(NO_PAGE, zero);
      ownedLimit, scans, conversions := 0, 0, 0;
      owned, buffers := {}, {zero};
    }

    // -----------------------------------------------------------------------
    // Lookups
    // -----------------------------------------------------------------------

    /** get_pageno, with the default handler for pages that are not there. */
    method GetPageno(n: nat) returns (page: Page)
      ensures page == PageOf(pages, zero, n)
    {
      if n in pages {
        return pages[n];
      }
      return Page(COW_ATTR, zero);
    }

    method GetReadablePageno(n: nat) returns (ok: bool, page: Page)
      ensures page == PageOf(pages, zero, n) && (ok <==> Readable(n))
    {
      page := GetPageno(n);
      ok := page.attr.read;
    }

    method CachedReadablePage(addr: nat) returns (ok: bool, data: PageData)
      requires Valid()
      modifies `rdCache
      ensures Valid() && (ok <==> Readable(addr / PAGE_SIZE)) && (ok ==>
                data == PageOf(pages, zero, addr / PAGE_SIZE).data)
      ensures View() == old(View())
    {
      var n := addr / PAGE_SIZE;
      if rdCache.pageno == n {
        return true, rdCache.data;
      }
      var page: Page;
      ok, page := GetReadablePageno(n);
      data := page.data;
      if ok {
        rdCache := CachedPage(n, data);
      }
    }

    method InvalidateCache(n: nat)
      modifies `rdCache
      ensures rdCache == if old(rdCache).pageno == n then CachedPage(NO_PAGE, old(rdCache).data) else old(rdCache)
    {
      if rdCache.pageno == n {
        rdCache := CachedPage(NO_PAGE, rdCache.data);
      }
    }

    method InvalidateResetCache()
      modifies `rdCache, `wrCache
      ensures rdCache.pageno == NO_PAGE && wrCache.pageno == NO_PAGE
    {
      rdCache := CachedPage(NO_PAGE, rdCache.data);
      wrCache := CachedPage(NO_PAGE, wrCache.data);
    }
  
    // -----------------------------------------------------------------------
    // The page limit
    // -----------------------------------------------------------------------

    method OwnedPagesActive() returns (count: nat)
      ensures count == |OwnedPagesOf(pages)|
    {
      count := 0;
      var rest := pages.Keys;
      ghost var owned := OwnedPagesOf(pages);
      while rest != {}
        invariant rest <= pages.Keys && count == |owned - rest|
        decreases |rest|
      {
        var n :| n in rest;
        CountStep(owned, rest, n);
        if !pages[n].attr.nonOwning {
          count := count + 1;
        }
        rest := rest - {n};
      }
      assert owned - rest == owned;
    }

    /** Most calls are answered without counting. */
    method OwnedPagesBelow(limit: nat) returns (below: bool)
      requires scans <= SCAN_LIMIT
      modifies `ownedLimit, `scans
      ensures scans <= SCAN_LIMIT
      ensures below && old(scans) > 0 && old(ownedLimit) == limit ==> scans == old(scans) - 1
      ensures below && !(old(scans) > 0 && old(ownedLimit) == limit) ==> |OwnedPagesOf(pages)| + scans <= limit
      ensures below <==> (old(ownedLimit) == limit && old(scans) > 0) || |OwnedPagesOf(pages)| < limit
      ensures !below ==> scans == 0
    {
      if limit == ownedLimit && scans > 0 {
        scans := scans - 1;
        return true;
      }
      var owned := OwnedPagesActive();
      ownedLimit := limit;
      scans := if owned < limit then (if limit - owned < SCAN_LIMIT then limit - owned else SCAN_LIMIT) else 0;
      return owned < limit;
    }

    // -----------------------------------------------------------------------
    // Pages that can be written to
    // -----------------------------------------------------------------------

    method SetPage(n: nat, page: Page)
      requires Known()
      modifies `pages, `buffers
      ensures pages == old(pages)[n := page] && buffers == old(buffers) + {page.data}
      ensures Known() && View() == old(View())[n := page.data.bytes]
    {
      BuffersAfter(pages, zero, n, page);
      buffers := buffers + {page.data};
      pages := pages[n := page];
    }

    /** Another page at n, in a table that is still in order. */
    method Replace(n: nat, page: Page)
      requires Known() && TableOk(pages[n := page], zero) && scans <= SCAN_LIMIT
      requires |OwnedPagesOf(pages[n := page])| + scans <= maxPages + SCAN_LIMIT + conversions
      modifies `pages, `buffers, `owned
      ensures pages == old(pages)[n := page] && buffers == old(buffers) + {page.data} && owned == OwnedOf(pages)
      ensures Known() && TableOk(pages, zero) && Limited()
      ensures View() == old(View())[n := page.data.bytes]
    {
      SetPage(n, page);
      owned := OwnedOf(pages);
    }

    /** allocate_page, or the new data of a copied page. */
    method InstallOwn(n: nat, own: Page)
      requires Valid() && own.data !in buffers
      requires own.attr.write && !own.attr.nonOwning && !own.attr.isCow && (n in pages ==> !Own(pages[n].attr))
      requires |OwnedPagesOf(pages)| + 1 + scans <= maxPages + SCAN_LIMIT + conversions
      modifies `pages, `rdCache, `owned, `buffers
      ensures Valid() && pages == old(pages)[n := own] && owned == old(owned) + {own.data}
      ensures buffers == old(buffers) + {own.data}
      ensures View() == old(View())[n := own.data.bytes]
      ensures own.data.bytes == old(View())[n] ==> View() == old(View())
    {
      OwnPage(pages, zero, n, own);
      assert n in pages ==> PageOk(pages, zero, n);
      Replace(n, own);
      InvalidateCache(n);
    }

    /** Whether the limit has room for another page. */
    method HasRoom() returns (ok: bool)
      requires Valid()
      modifies `ownedLimit, `scans
      ensures Valid()
      ensures ok ==> |OwnedPagesOf(pages)| + 1 + scans <= maxPages + SCAN_LIMIT + conversions
      ensures ok <==> old(Room())
      ensures !ok ==> !Room()
    {
      SubsetSize(OwnedPagesOf(pages), pages.Keys);
      ok := |pages| < maxPages;
      if !ok {
        ok := OwnedPagesBelow(maxPages);
      }
    }

    /** The default page fault handler: a page of zeroes, or of whatever was in its buffer. */
    method PageFault(n: nat, init: bool) returns (ok: bool)
      requires Valid() && n !in pages
      modifies this
      ensures Valid() && conversions == old(conversions)
      ensures ok <==> old(Room())
      ensures !ok ==> pages == old(pages) && !Room()
      ensures ok ==> n in pages && pages == old(pages)[n := pages[n]]
      ensures ok ==> pages[n].attr == DEFAULT_ATTR && fresh(pages[n].data)
      ensures !ok || init ==> View() == old(View())
      ensures ok ==> View() == old(View())[n := pages[n].data.bytes]
      ensures old(buffers) <= buffers && old(owned) <= owned
      ensures fresh(owned - old(owned)) && fresh(buffers - old(buffers))
    {
      ghost var before := View();
      ok := HasRoom();
      if ok {
        var data := NewData(init);
        assert View() == before;
        InstallOwn(n, Page(DEFAULT_ATTR, data));
      }
    }

    /** The default page write handler: a loaned page is copied. */
    method MakeWritable(n: nat)
      requires Valid() && n in pages && pages[n].attr.isCow
      modifies this
      ensures Valid() && conversions == old(conversions) + 1
      ensures n in pages && pages == old(pages)[n := pages[n]]
      ensures pages[n].attr == old(pages)[n].attr.(write := true, isCow := false, nonOwning := false)
      ensures fresh(pages[n].data) && View() == old(View()) && View()[n] == pages[n].data.bytes
      ensures old(buffers) <= buffers && old(owned) <= owned
      ensures fresh(owned - old(owned)) && fresh(buffers - old(buffers))
    {
      var page := pages[n];
      var data := new PageData(page.data.bytes);
      assert PageOk(pages, zero, n) && page.data in buffers;
      conversions := conversions + 1;
      InstallOwn(n, Page(page.attr.(write := true, isCow := false, nonOwning := false), data));
    }

    method CreateWritablePageno(n: nat, init: bool) returns (ok: bool)
      requires Valid()
      modifies this
      ensures Valid()
      ensures ok <==> old(CanWrite(n))
      ensures !ok ==> pages == old(pages) && conversions == old(conversions) && !CanWrite(n)
      ensures ok ==> n in pages && pages[n].attr.write && pages == old(pages)[n := pages[n]]
      ensures ok ==> Touched(old(pages), pages, old(buffers), n, n + 1)
      ensures !ok || n in old(pages) || init ==> View() == old(View())
      ensures ok ==> View() == old(View())[n := pages[n].data.bytes]
      ensures fresh(owned - old(owned)) && fresh(buffers - old(buffers)) && (ok ==> pages[n].data in owned)
      ensures old(buffers) <= buffers && old(owned) <= owned
    {
      ghost var table, used := pages, buffers;
      if n in pages {
        ok := OpenPage(n);
      } else {
        ok := PageFault(n, init);
        assert ok ==> n in pages && PageOk(pages, zero, n);
      }
      if ok {
        TouchedOne(table, pages[n], used, n);
      }
    }

    /** A page that is there: writable as it is, or a loan that is copied. */
    method OpenPage(n: nat) returns (ok: bool)
      requires Valid() && n in pages
      modifies this
      ensures Valid() && View() == old(View())
      ensures ok <==> old(CanWrite(n))
      ensures !ok ==> pages == old(pages) && conversions == old(conversions) && !CanWrite(n)
      ensures n in pages && pages == old(pages)[n := pages[n]] && View()[n] == pages[n].data.bytes
      ensures ok ==> pages[n].attr.write && pages[n].data in owned && WrittenPage(old(pages), pages, old(buffers), n)
      ensures fresh(owned - old(owned)) && fresh(buffers - old(buffers))
      ensures old(buffers) <= buffers && old(owned) <= owned
    {
      assert pages[n].data in buffers && PageOk(pages, zero, n);
      ok := pages[n].attr.write;
      if !ok && pages[n].attr.isCow {
        MakeWritable(n);
        ok := true;
        assert PageOk(pages, zero, n);
      }
    }

    // -----------------------------------------------------------------------
    // Reading and writing
    // -----------------------------------------------------------------------

    /** read: size bytes at an address aligned to them. */
    method Read(addr: nat, size: nat) returns (ok: bool, value: seq<Byte>)
      requires Valid() && addr % PAGE_SIZE + size <= PAGE_SIZE
      modifies `rdCache
      ensures Valid() && View() == old(View())
      ensures ok <==> Readable(addr / PAGE_SIZE)
      ensures ok ==> |value| == size && BytesMatch(View(), addr, value)
    {
      var data: PageData;
      ok, data := CachedReadablePage(addr);
      value := [];
      if ok {
        var offset := addr % PAGE_SIZE;
        assert data in buffers;
        value := data.bytes[offset..offset + size];
        forall i | 0 <= i < size
          ensures value[i] == ByteOf(View(), addr + i)
        {
          SamePage(addr, i);
        }
      }
    }

    /** aligned_write, or a copy into the page: some bytes of a page that can be written to. */
    method Poke(n: nat, offset: nat, bytes: seq<Byte>)
      requires Valid() && n in pages && pages[n].attr.write && offset + |bytes| <= PAGE_SIZE
      modifies pages[n].data
      ensures Valid() && View() == old(View())[n := Patch(old(View())[n], offset, bytes)]
      ensures pages[n].data.bytes == Patch(old(pages[n].data.bytes), offset, bytes)
    {
      var data := pages[n].data;
      assert PageOk(pages, zero, n) && data in buffers;
      forall m | m in pages && m != n
        ensures pages[m].data != data
      {
        assert Apart(pages, n, m);
      }
      data.bytes := Patch(data.bytes, offset, bytes);
    }

    /** cached_writable_page. */
    method CachedWritablePage(n: nat) returns (ok: bool)
      requires Valid()
      modifies this
      ensures Valid() && View() == old(View()) && fresh(owned - old(owned)) && fresh(buffers - old(buffers))
      ensures old(buffers) <= buffers
      ensures ok <==> old(CanWrite(n))
      ensures !ok ==> pages == old(pages) && !CanWrite(n)
      ensures ok ==> Touched(old(pages), pages, old(buffers), n, n + 1)
      ensures ok ==> n in pages && pages[n].attr.write && pages[n].data in owned
      ensures ok ==> wrCache == CachedPage(n, pages[n].data)
    {
      if wrCache.pageno == n {
        assert PageOk(pages, zero, n);
        return true;
      }
      ok := CreateWritablePageno(n, true);
      if ok {
        wrCache := CachedPage(n, pages[n].data);
      }
    }

    /** write: bytes at an address aligned to them. */
    method Write(addr: nat, bytes: seq<Byte>) returns (ok: bool)
      requires Valid() && addr % PAGE_SIZE + |bytes| <= PAGE_SIZE
      modifies this, owned
      ensures Valid() && fresh(owned - old(owned)) && fresh(buffers - old(buffers))
      ensures old(buffers) <= buffers
      ensures ok <==> old(CanWrite(addr / PAGE_SIZE))
      ensures !ok ==> View() == old(View()) && pages == old(pages) && !CanWrite(addr / PAGE_SIZE)
      ensures ok ==> Stored(old(View()), View(), addr, bytes)
      ensures ok ==> Touched(old(pages), pages, old(buffers), addr / PAGE_SIZE, addr / PAGE_SIZE + 1)
    {
      var n := addr / PAGE_SIZE;
      ok := CachedWritablePage(n);
      if ok {
        ghost var before := View();
        Poke(n, addr % PAGE_SIZE, bytes);
        ChunkStores(before, before, View(), addr, bytes);
      }
    }
  
    // -----------------------------------------------------------------------
    // Page by page
    // -----------------------------------------------------------------------

    /** The part of a bulk write that falls into one page.  A page that is about to be overwritten
        as a whole may be created uninitialised. */
    method StoreChunk(dst: nat, bytes: seq<Byte>) returns (ok: bool)
      requires Valid() && dst % PAGE_SIZE + |bytes| <= PAGE_SIZE
      modifies this, owned
      ensures Valid() && fresh(owned - old(owned)) && fresh(buffers - old(buffers))
      ensures old(buffers) <= buffers
      ensures ok <==> old(CanWrite(dst / PAGE_SIZE))
      ensures !ok ==> View() == old(View()) && pages == old(pages) && !CanWrite(dst / PAGE_SIZE)
      ensures ok ==> Stored(old(View()), View(), dst, bytes)
      ensures ok ==> Touched(old(pages), pages, old(buffers), dst / PAGE_SIZE, dst / PAGE_SIZE + 1)
    {
      var n, offset := dst / PAGE_SIZE, dst % PAGE_SIZE;
      ghost var before := View();
      ok := CreateWritablePageno(n, |bytes| != PAGE_SIZE);
      if ok {
        ghost var middle := View();
        Poke(n, offset, bytes);
        ChunkStores(before, middle, View(), dst, bytes);
      }
    }

    /** How far a bulk write of src at dst has come since the table was table and the bytes were
        start: exactly the bytes below the address end are stored, and exactly their pages have
        been written to. */
    ghost predicate Progress(start: Pages, table: Table, used: set<PageData>, dst: nat, src: seq<Byte>, end: nat)
      requires Known()
      reads this, buffers
    {
      BulkStored(start, View(), table, pages, used, buffers, dst, src, end)
    }

    /** Stores src at dst, all of it or up to a page that cannot be written to, which begins at end. */
    method Memcpy(dst: nat, src: seq<Byte>) returns (ok: bool, end: nat)
      requires Valid()
      modifies this, owned
      ensures Valid() && fresh(owned - old(owned)) && fresh(buffers - old(buffers))
      ensures Progress(old(View()), old(pages), old(buffers), dst, src, end)
      ensures if ok then end == dst + |src| else end < dst + |src| && BlockedAt(end)
    {
      ghost var now, after, more;
      ok, end, now, after, more := CopyChunks(dst, src, View(), pages, buffers);
    }

    /** The loop of memcpy. */
    method CopyChunks(dst: nat, src: seq<Byte>, ghost start: Pages, ghost table: Table, ghost used: set<PageData>)
      returns (ok: bool, at: nat, ghost now: Pages, ghost after: Table, ghost more: set<PageData>)
      requires Valid() && start == View() && table == pages && used == buffers
      modifies this, owned
      ensures Valid() && fresh(owned - old(owned)) && fresh(buffers - old(buffers))
      ensures now == View() && after == pages && more == buffers
      ensures BulkStored(start, now, table, after, used, more, dst, src, at)
      ensures if ok then at == dst + |src| else at < dst + |src| && BlockedAt(at)
    {
      at, ok := dst, true;
      now, after, more := start, table, used;
      while at < dst + |src| && ok
        invariant Valid() && fresh(owned - old(owned)) && fresh(buffers - old(buffers))
        invariant now == View() && after == pages && more == buffers
        invariant BulkStored(start, now, table, after, used, more, dst, src, at)
        invariant !ok ==> at < dst + |src| && BlockedAt(at)
        decreases dst + |src| - at, ok
      {
        ok, at, now, after, more := CopyChunk(dst, src, at, start, now, table, after, used, more);
      }
    }

    /** One turn of the loop: the bytes from at on that fall into its page. */
    method CopyChunk(dst: nat, src: seq<Byte>, at: nat, ghost start: Pages, ghost before: Pages, ghost table: Table,
                     ghost middle: Table, ghost used: set<PageData>, ghost some: set<PageData>)
      returns (ok: bool, next: nat, ghost now: Pages, ghost after: Table, ghost more: set<PageData>)
      requires Valid() && before == View() && middle == pages && some == buffers
      requires BulkStored(start, before, table, middle, used, some, dst, src, at) && at < dst + |src|
      modifies this, owned
      ensures Valid() && fresh(owned - old(owned)) && fresh(buffers - old(buffers))
      ensures now == View() && after == pages && more == buffers
      ensures BulkStored(start, now, table, after, used, more, dst, src, next)
      ensures if ok then at < next else next == at && BlockedAt(at)
    {
      var size := ChunkSize(at, dst + |src| - at);
      ok := StoreChunk(at, src[at - dst..at - dst + size]);
      next := if ok then at + size else at;
      now, after, more := View(), pages, buffers;
      BulkStep(start, before, now, table, middle, after, used, some, more, dst, src, at, size, ok, next);
    }

    /** The same walk as memcpy, with one value for all bytes. */
    method Memset(dst: nat, value: Byte, len: nat) returns (ok: bool, end: nat)
      requires Valid()
      modifies this, owned
      ensures Valid() && fresh(owned - old(owned)) && fresh(buffers - old(buffers))
      ensures Progress(old(View()), old(pages), old(buffers), dst, Repeat(value, len), end)
      ensures if ok then end == dst + len else end < dst + len && BlockedAt(end)
    {
      ok, end := Memcpy(dst, Repeat(value, len));
    }

    method MemcpyOut(src: nat, len: nat) returns (ok: bool, out: seq<Byte>)
      requires Valid()
      ensures ok ==> |out| == len && BytesMatch(View(), src, out)
      ensures ok <==> forall n :: src / PAGE_SIZE <= n < PagePast(src, src + len) ==> Readable(n)
    {
      out, ok := [], true;
      while |out| < len && ok
        invariant |out| <= len && BytesMatch(View(), src, out) && AtBoundary(src, src + |out|, len)
        invariant forall n :: src / PAGE_SIZE <= n < PagePast(src, src + |out|) ==> Readable(n)
        invariant !ok ==> Unreadable(src, len)
        decreases len - |out|, ok
      {
        ok, out := CopyOut(src, len, out);
      }
    }

    /** Some byte of the range cannot be read. */
    ghost predicate Unreadable(src: nat, len: nat)
      reads this
    {
      exists n :: src / PAGE_SIZE <= n < PagePast(src, src + len) && !Readable(n)
    }

    /** One turn of the loop: the bytes of one page. */
    method CopyOut(src: nat, len: nat, out: seq<Byte>) returns (ok: bool, more: seq<Byte>)
      requires Valid() && |out| < len && BytesMatch(View(), src, out) && AtBoundary(src, src + |out|, len)
      requires forall n :: src / PAGE_SIZE <= n < PagePast(src, src + |out|) ==> Readable(n)
      ensures if ok then |out| < |more| <= len else more == out && Unreadable(src, len)
      ensures BytesMatch(View(), src, more) && AtBoundary(src, src + |more|, len)
      ensures forall n :: src / PAGE_SIZE <= n < PagePast(src, src + |more|) ==> Readable(n)
    {
      var at := src + |out|;
      var size := ChunkSize(at, src + len - at);
      var page := PageOf(pages, zero, at / PAGE_SIZE);
      ok, more := page.attr.read, out;
      PageInRange(src, at, src + len);
      if ok {
        NextPast(src, at, size, len);
        var chunk := PageBytesAt(page.data, at, size);
        MatchMore(View(), src, out, chunk);
        more := out + chunk;
      } else {
        assert !Readable(at / PAGE_SIZE);
      }
    }

    /** Bytes of the page that holds addr. */
    method PageBytesAt(data: PageData, addr: nat, size: nat) returns (chunk: seq<Byte>)
      requires Valid() && addr % PAGE_SIZE + size <= PAGE_SIZE && data == PageOf(pages, zero, addr / PAGE_SIZE).data
      ensures |chunk| == size && BytesMatch(View(), addr, chunk)
    {
      chunk := data.bytes[addr % PAGE_SIZE..addr % PAGE_SIZE + size];
      forall i | 0 <= i < size
        ensures chunk[i] == ByteOf(View(), addr + i)
      {
        SamePage(addr, i);
      }
    }

    // -----------------------------------------------------------------------
    // Pages that come and go
    // -----------------------------------------------------------------------

    /** Frees whole pages, walking the range or the table, whichever is shorter. */
    method FreePages(dst: nat, len: nat)
      requires Valid()
      modifies this
      ensures Valid() && owned <= old(owned) && buffers == old(buffers) && conversions == old(conversions)
      ensures pages == Without(old(pages), dst / PAGE_SIZE, PagesEnd(dst, len))
      ensures forall n: nat :: View()[n] ==
                if dst / PAGE_SIZE <= n < PagesEnd(dst, len) then Zeros() else old(View())[n]
    {
      var first := dst / PAGE_SIZE;
      var end := PagesEnd(dst, len);
      var table := pages;
      if end - first > |pages| {
        table := EraseByTable(pages, first, end);
      } else {
        table := EraseByRange(pages, first, end);
      }
      Keep(table);
    }

    /** A part of the table stays. */
    method Keep(table: Table)
      requires Valid() && forall n {:trigger n in table} :: n in table ==> n in pages && table[n] == pages[n]
      modifies this
      ensures Valid() && owned <= old(owned) && buffers == old(buffers) && conversions == old(conversions)
              && pages == table
      ensures forall n: nat :: View()[n] == if n in old(pages) && n !in table then Zeros() else old(View())[n]
    {
      DropPages(pages, zero, table);
      pages := table;
      owned := OwnedOf(table);
      InvalidateResetCache();
    }

    /** A page of somebody else's, in place of none or of another loaned one. */
    method InstallSharedPage(n: nat, shared: Page) returns (ok: bool)
      requires Valid()
      requires Lone(pages, zero, n, Page(shared.attr.(nonOwning := true), shared.data))
      modifies this
      ensures Valid() && conversions == old(conversions)
      ensures owned <= old(owned) + if shared.attr.write then {shared.data} else {}
      ensures ok <==> n !in OwnedPagesOf(old(pages))
      ensures !ok ==> pages == old(pages) && View() == old(View())
      ensures ok ==> pages == old(pages)[n := Page(shared.attr.(nonOwning := true), shared.data)]
      ensures ok ==> View() == old(View())[n := old(shared.data.bytes)]
    {
      var there := PageOf(pages, zero, n);
      if there.data != zero && !there.attr.nonOwning {
        return false;
      }
      assert n in pages ==> PageOk(pages, zero, n);
      var page := Page(shared.attr.(nonOwning := true), shared.data);
      LoanPage(pages, zero, n, page);
      InstallLoan(n, page);
      ok := true;
    }

    method InstallLoan(n: nat, page: Page)
      requires Valid()
      requires TableOk(pages[n := page], zero) && OwnedPagesOf(pages[n := page]) == OwnedPagesOf(pages)
      modifies `pages, `rdCache, `wrCache, `buffers, `owned
      ensures Valid() && pages == old(pages)[n := page] && View() == old(View())[n := old(page.data.bytes)]
    {
      Replace(n, page);
      InvalidateResetCache();
    }
  }

  function PagesEnd(dst: nat, len: nat): (end: nat)
    ensures end >= dst / PAGE_SIZE
  {
    dst / PAGE_SIZE + (len + PAGE_SIZE - 1) / PAGE_SIZE
  }

  /** The table without the pages from first up to end. */
  ghost function Without(table: Table, first: nat, end: nat): Table {
    map n | n in table && !(first <= n < end) :: table[n]
  }

  method EraseByTable(table: Table, first: nat, end: nat) returns (r: Table)
    ensures r == Without(table, first, end)
  {
    r := table;
    var rest := table.Keys;
    while rest != {}
      invariant rest <= table.Keys
      invariant r == map n | n in table && !(first <= n < end && n !in rest) :: table[n]
      decreases |rest|
    {
      var n :| n in rest;
      if first <= n < end {
        r := r - {n};
      }
      rest := rest - {n};
    }
  }

  method EraseByRange(table: Table, first: nat, end: nat) returns (r: Table)
    requires first <= end
    ensures r == Without(table, first, end)
  {
    r := table;
    var pageno := first;
    while pageno < end
      invariant first <= pageno <= end && r == Without(table, first, pageno)
    {
      r := r - {pageno};
      pageno := pageno + 1;
    }
  }

  /** Bytes from addr to the end of its page, or as many as there are. */
  function ChunkSize(addr: nat, len: nat): (size: nat)
    ensures size <= len && addr % PAGE_SIZE + size <= PAGE_SIZE && (len > 0 ==> size > 0)
    ensures size == len || (addr + size) % PAGE_SIZE == 0
  {
    if PAGE_SIZE - addr % PAGE_SIZE < len then PAGE_SIZE - addr % PAGE_SIZE else len
  }

  /** Of the bytes src at dst, those below end are stored, and their pages have been written to. */
  ghost predicate BulkStored(start: Pages, now: Pages, before: Table, after: Table, used: set<PageData>,
                             buffers: set<PageData>, dst: nat, src: seq<Byte>, end: nat)
  {
    && dst <= end <= dst + |src| && AtBoundary(dst, end, |src|) && used <= buffers
    && Stored(start, now, dst, src[..end - dst])
    && Touched(before, after, used, dst / PAGE_SIZE, PagePast(dst, end))
  }

  lemma BulkMore(start: Pages, before: Pages, now: Pages, table: Table, middle: Table, after: Table,
                 used: set<PageData>, more: set<PageData>, buffers: set<PageData>, dst: nat, src: seq<Byte>, at: nat,
                 size: nat)
    requires BulkStored(start, before, table, middle, used, more, dst, src, at) && more <= buffers
    requires at < dst + |src| && size == ChunkSize(at, dst + |src| - at)
    requires Stored(before, now, at, src[at - dst..at - dst + size])
    requires Touched(middle, after, more, at / PAGE_SIZE, at / PAGE_SIZE + 1)
    ensures BulkStored(start, now, table, after, used, buffers, dst, src, at + size)
  {
    NextPast(dst, at, size, |src|);
    StoredMore(start, before, now, dst, src, at - dst, size);
    TouchedMore(table, middle, after, used, more, dst / PAGE_SIZE, at / PAGE_SIZE);
  }

  lemma BulkStep(start: Pages, before: Pages, now: Pages, table: Table, middle: Table, after: Table,
                 used: set<PageData>, more: set<PageData>, buffers: set<PageData>, dst: nat, src: seq<Byte>, at: nat,
                 size: nat, ok: bool, next: nat)
    requires BulkStored(start, before, table, middle, used, more, dst, src, at) && more <= buffers
    requires at < dst + |src| && size == ChunkSize(at, dst + |src| - at)
    requires if ok then Stored(before, now, at, src[at - dst..at - dst + size])
                        && Touched(middle, after, more, at / PAGE_SIZE, at / PAGE_SIZE + 1)
             else now == before && after == middle
    requires next == if ok then at + size else at
    ensures BulkStored(start, now, table, after, used, buffers, dst, src, next)
  {
    if ok {
      BulkMore(start, before, now, table, middle, after, used, more, buffers, dst, src, at, size);
    }
  }

  /** A walk over len bytes at addr stops at the first of them, at a page boundary, or after the last. */
  predicate AtBoundary(addr: nat, at: nat, len: nat) {
    at == addr || at == addr + len || at % PAGE_SIZE == 0
  }

  /** Where the next chunk of a walk over pages begins. */
  lemma NextPast(addr: nat, at: nat, size: nat, len: nat)
    requires addr <= at < addr + len && size == ChunkSize(at, addr + len - at) && AtBoundary(addr, at, len)
    ensures PagePast(addr, at) == at / PAGE_SIZE
    ensures PagePast(addr, at + size) == at / PAGE_SIZE + 1
    ensures AtBoundary(addr, at + size, len)
  {
  }

  lemma PageInRange(addr: nat, at: nat, end: nat)
    requires addr <= at < end
    ensures addr / PAGE_SIZE <= at / PAGE_SIZE < PagePast(addr, end)
  {
  }

  /** The bytes of memory from src on. */
  ghost predicate BytesMatch(v: Pages, src: nat, bytes: seq<Byte>)
    requires Full(v)
  {
    forall i :: 0 <= i < |bytes| ==> bytes[i] == ByteOf(v, src + i)
  }

  lemma MatchMore(v: Pages, src: nat, bytes: seq<Byte>, more: seq<Byte>)
    requires Full(v) && BytesMatch(v, src, bytes) && BytesMatch(v, src + |bytes|, more)
    ensures BytesMatch(v, src, bytes + more)
  {
    forall i | 0 <= i < |bytes + more|
      ensures (bytes + more)[i] == ByteOf(v, src + i)
    {
      if i >= |bytes| {
        assert more[i - |bytes|] == ByteOf(v, src + |bytes| + (i - |bytes|));
      }
    }
  }

  lemma SamePage(addr: nat, i: nat)
    requires addr % PAGE_SIZE + i < PAGE_SIZE
    ensures (addr + i) / PAGE_SIZE == addr / PAGE_SIZE && (addr + i) % PAGE_SIZE == addr % PAGE_SIZE + i
  {
  }

  /** A new buffer; uninitialised ones hold anything. */
  method NewData(init: bool) returns (data: PageData)
    ensures fresh(data) && (init ==> data.bytes == Zeros())
  {
    if init {
      data := new PageData(Zeros());
    } else {
      assert |Zeros()| == PAGE_SIZE;
      var junk: PageBytes :| true;
      data := new PageData(junk);
    }
  }
}
