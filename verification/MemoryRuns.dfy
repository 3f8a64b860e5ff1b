/**
  Whole runs of one memory: any sequence of operations, each of them compared with what it
  does to a plain array of bytes with a permission for each page, and any sequence of page
  faults and frees, compared with the page limit.
 */
module MemoryRuns {
  import opened Paging

  datatype Op =
    | Load(addr: nat, size: nat)
    | Put(addr: nat, bytes: seq<Byte>)
    | Copy(dst: nat, bytes: seq<Byte>)
    | Set(dst: nat, value: Byte, len: nat)
    | CopyOut(src: nat, len: nat)
    | Free(dst: nat, len: nat)
    | Share(n: nat, page: Page)

  /** Whether it raised no exception, what it read, and where it stopped storing. */
  datatype Outcome = Outcome(ok: bool, value: seq<Byte>, end: nat)

  /** Bytes, what may be read and written, and which pages are there and which of them are owned. */
  datatype Flat = Flat(bytes: Pages, readable: iset<nat>, writable: iset<nat>, present: set<nat>, owned: set<nat>)

  ghost predicate Reads(table: Table, n: nat) {
    n in table ==> table[n].attr.read
  }

  ghost function Readables(table: Table): iset<nat> {
    iset n: nat | Reads(table, n)
  }

  ghost function Writables(table: Table): iset<nat> {
    iset n: nat | Writes(table, n)
  }

  ghost function Flatten(bytes: Pages, table: Table): Flat {
    Flat(bytes, Readables(table), Writables(table), table.Keys, OwnedPagesOf(table))
  }

  ghost function FlatOf(m: Memory): Flat
    requires m.Known()
    reads m`pages, m`buffers, m.buffers
  {
    Flatten(m.View(), m.pages)
  }

  predicate Between(lo: nat, n: nat, hi: nat) {
    lo <= n < hi
  }

  ghost function Span(lo: nat, hi: nat): set<nat> {
    set n | lo <= n < hi && Between(lo, n, hi)
  }

  ghost function SpanAll(lo: nat, hi: nat): iset<nat> {
    iset n: nat | Between(lo, n, hi)
  }

  // -------------------------------------------------------------------------
  // What operations do to the array
  // -------------------------------------------------------------------------

  predicate IsStore(op: Op) {
    op.Put? || op.Copy? || op.Set?
  }

  /** The bytes that an operation has to store. */
  ghost function Payload(op: Op): seq<Byte>
    requires IsStore(op)
  {
    if op.Set? then Repeat(op.value, op.len) else op.bytes
  }

  ghost function Target(op: Op): nat
    requires IsStore(op)
  {
    if op.Put? then op.addr else op.dst
  }

  /** Of the bytes src at dst those below end are stored, and it ends early only at a page that may
      not be written to, or that is not there when limit pages or more are owned. */
  ghost predicate DoesStore(before: Flat, after: Flat, dst: nat, src: seq<Byte>, ok: bool, end: nat, limit: nat) {
    && dst <= end <= dst + |src| && (ok <==> end == dst + |src|)
    && Stored(before.bytes, after.bytes, dst, src[..end - dst])
    && after.readable == before.readable && after.writable == before.writable
    && var written := Span(dst / PAGE_SIZE, PagePast(dst, end));
    && (forall n :: n in written ==> n in before.writable)
    && after.present == before.present + written
    && before.owned <= after.owned <= before.owned + written
    && (!ok ==> end / PAGE_SIZE !in before.writable || (end / PAGE_SIZE !in after.present && |after.owned| >= limit))
  }

  ghost predicate DoesFree(before: Flat, after: Flat, lo: nat, hi: nat) {
    && (forall n: nat :: n in after.bytes && n in before.bytes)
    && (forall n: nat :: after.bytes[n] == if lo <= n < hi then Zeros() else before.bytes[n])
    && after.readable == before.readable + SpanAll(lo, hi) && after.writable == before.writable + SpanAll(lo, hi)
    && after.present == before.present - Span(lo, hi) && after.owned == before.owned - Span(lo, hi)
  }

  ghost function With(s: iset<nat>, n: nat, member: bool): iset<nat> {
    if member then s + iset{n} else s - iset{n}
  }

  /** A page is shared exactly where none is owned. */
  ghost predicate DoesShare(before: Flat, after: Flat, n: nat, attr: Attributes, shared: seq<Byte>, ok: bool) {
    && (ok <==> n !in before.owned)
    && if !ok then after == before
       else
         && after.bytes == before.bytes[n := shared] && after.present == before.present + {n}
            && after.owned == before.owned
         && after.readable == With(before.readable, n, attr.read)
         && after.writable == With(before.writable, n, attr.write || attr.isCow)
  }

  ghost predicate Does(before: Flat, op: Op, out: Outcome, after: Flat, shared: seq<Byte>, limit: nat) {
    && Full(before.bytes) && Full(after.bytes)
    && match op
       case Load(addr, size) =>
         && after == before && (out.ok <==> addr / PAGE_SIZE in before.readable)
         && (out.ok ==> |out.value| == size && BytesMatch(before.bytes, addr, out.value))
       case CopyOut(src, len) =>
         && after == before
         && (out.ok <==> forall n :: src / PAGE_SIZE <= n < PagePast(src, src + len) ==> n in before.readable)
         && (out.ok ==> |out.value| == len && BytesMatch(before.bytes, src, out.value))
       case Free(dst, len) => DoesFree(before, after, dst / PAGE_SIZE, PagesEnd(dst, len))
       case Share(n, page) => DoesShare(before, after, n, page.attr, shared, out.ok)
       case _ => DoesStore(before, after, Target(op), Payload(op), out.ok, out.end, limit)
  }

  /** Pages that were written to, on the flat side. */
  lemma TouchedFlat(before: Table, after: Table, used: set<PageData>, lo: nat, hi: nat)
    requires Touched(before, after, used, lo, hi)
    ensures Readables(before) == Readables(after)
    ensures Writables(before) == Writables(after)
    ensures forall n :: lo <= n < hi ==> Writes(before, n)
    ensures after.Keys == before.Keys + Span(lo, hi)
    ensures OwnedPagesOf(before) <= OwnedPagesOf(after) <= OwnedPagesOf(before) + Span(lo, hi)
  {
    forall n: nat
      ensures Reads(before, n) == Reads(after, n) && Writes(before, n) == Writes(after, n)
      ensures lo <= n < hi ==> Writes(before, n)
      ensures n in OwnedPagesOf(before) ==> n in OwnedPagesOf(after)
    {
      if lo <= n < hi {
        assert WrittenPage(before, after, used, n);
      } else if n in after {
        assert after[n] == before[n];
      }
    }
  }

  lemma BulkIsStore(start: Pages, now: Pages, before: Table, after: Table, used: set<PageData>, more: set<PageData>,
                    dst: nat, src: seq<Byte>, ok: bool, end: nat, limit: nat)
    requires BulkStored(start, now, before, after, used, more, dst, src, end)
    requires if ok then end == dst + |src|
             else end < dst + |src|
                  && (!Writes(after, end / PAGE_SIZE) || (end / PAGE_SIZE !in after && |OwnedPagesOf(after)| >= limit))
    ensures DoesStore(Flatten(start, before), Flatten(now, after), dst, src, ok, end, limit)
  {
    TouchedFlat(before, after, used, dst / PAGE_SIZE, PagePast(dst, end));
    assert Writes(after, end / PAGE_SIZE) <==> end / PAGE_SIZE in Flatten(now, after).writable;
  }

  // -------------------------------------------------------------------------
  // Pages of others
  // -------------------------------------------------------------------------

  /** What an operation asks of its caller.  Buffers in home may be shared to be written to, each at
      one page number; other foreign buffers may be shared anywhere, to be read. */
  ghost predicate Allowed(op: Op, foreign: set<PageData>, home: map<PageData, nat>) {
    match op
    case Load(addr, size) => addr % PAGE_SIZE + size <= PAGE_SIZE
    case Put(addr, bytes) => addr % PAGE_SIZE + |bytes| <= PAGE_SIZE && |bytes| > 0
    case Share(n, page) =>
      && page.data in foreign && (page.attr.isCow ==> !page.attr.write)
      && if page.data in home then n == home[page.data] else !page.attr.write
    case _ => true
  }

  ghost predicate LentAt(table: Table, foreign: set<PageData>, home: map<PageData, nat>, n: nat) {
    n in table && table[n].data in foreign ==>
      && table[n].attr.nonOwning
      && if table[n].data in home then n == home[table[n].data] else !table[n].attr.write
  }

  /** Foreign buffers in the table are where they belong. */
  ghost predicate Lent(table: Table, foreign: set<PageData>, home: map<PageData, nat>) {
    forall n: nat {:trigger LentAt(table, foreign, home, n)} :: LentAt(table, foreign, home, n)
  }

  ghost predicate Foreign(m: Memory, foreign: set<PageData>, home: map<PageData, nat>)
    reads m`pages
  {
    home.Keys <= foreign && m.zero !in foreign && Lent(m.pages, foreign, home)
  }

  lemma LentIsLone(table: Table, zero: PageData, foreign: set<PageData>, home: map<PageData, nat>, n: nat, page: Page)
    requires Lent(table, foreign, home) && Allowed(Share(n, page), foreign, home) && zero !in foreign
    ensures Lone(table, zero, n, Page(page.attr.(nonOwning := true), page.data))
  {
    forall m | m in table && m != n && (Own(table[m].attr) || page.attr.write)
      ensures table[m].data != page.data
    {
      assert LentAt(table, foreign, home, m);
    }
  }

  lemma LentAfterStore(before: Table, after: Table, used: set<PageData>, lo: nat, hi: nat, foreign: set<PageData>,
                       home: map<PageData, nat>)
    requires Lent(before, foreign, home) && Touched(before, after, used, lo, hi)
    requires forall n :: n in after && after[n].data !in used ==> after[n].data !in foreign
    ensures Lent(after, foreign, home)
  {
    forall n: nat
      ensures LentAt(after, foreign, home, n)
    {
      assert LentAt(before, foreign, home, n);
      if lo <= n < hi {
        assert WrittenPage(before, after, used, n);
      } else if n in after {
        assert after[n] == before[n];
      }
    }
  }

  // -------------------------------------------------------------------------
  // One operation
  // -------------------------------------------------------------------------

  method LoadOne(m: Memory, op: Op, ghost limit: nat) returns (out: Outcome)
    requires m.Valid() && op.Load? && Allowed(op, {}, map[])
    modifies m`rdCache
    ensures m.Valid() && Does(old(FlatOf(m)), op, out, FlatOf(m), [], limit)
  {
    var ok, value := m.Read(op.addr, op.size);
    assert m.Readable(op.addr / PAGE_SIZE) <==> Reads(m.pages, op.addr / PAGE_SIZE);
    out := Outcome(ok, value, 0);
  }

  method CopyOutOne(m: Memory, op: Op, ghost limit: nat) returns (out: Outcome)
    requires m.Valid() && op.CopyOut?
    ensures Does(FlatOf(m), op, out, FlatOf(m), [], limit)
  {
    var ok, value := m.MemcpyOut(op.src, op.len);
    assert forall n: nat :: m.Readable(n) <==> n in Readables(m.pages);
    out := Outcome(ok, value, 0);
  }

  /** A store of any kind, as a bulk write. */
  method StoreBytes(m: Memory, op: Op) returns (ok: bool, end: nat)
    requires m.Valid() && IsStore(op) && Allowed(op, {}, map[])
    modifies m, m.owned
    ensures m.Valid() && fresh(m.owned - old(m.owned)) && fresh(m.buffers - old(m.buffers))
    ensures m.Progress(old(m.View()), old(m.pages), old(m.buffers), Target(op), Payload(op), end)
    ensures if ok then end == Target(op) + |Payload(op)| else end < Target(op) + |Payload(op)| && m.BlockedAt(end)
  {
    match op {
      case Put(addr, bytes) =>
        ok := m.Write(addr, bytes);
        end := if ok then addr + |bytes| else addr;
        PutIsBulk(addr, bytes, ok);
      case Copy(dst, bytes) => ok, end := m.Memcpy(dst, bytes);
      case Set(dst, value, len) => ok, end := m.Memset(dst, value, len);
    }
  }

  lemma PutIsBulk(addr: nat, bytes: seq<Byte>, ok: bool)
    requires addr % PAGE_SIZE + |bytes| <= PAGE_SIZE && |bytes| > 0
    ensures PagePast(addr, addr + |bytes|) == addr / PAGE_SIZE + 1 && bytes[..|bytes|] == bytes && bytes[..0] == []
  {
  }

  method StoreOne(m: Memory, op: Op, ghost foreign: set<PageData>, ghost home: map<PageData, nat>)
    returns (out: Outcome)
    requires m.Valid() && IsStore(op) && Allowed(op, {}, map[]) && Foreign(m, foreign, home)
    modifies m, m.owned
    ensures m.Valid() && fresh(m.owned - old(m.owned)) && fresh(m.buffers - old(m.buffers)) && Foreign(m, foreign, home)
    ensures Does(old(FlatOf(m)), op, out, FlatOf(m), [], m.maxPages)
  {
    ghost var start, table, used := m.View(), m.pages, m.buffers;
    var ok, end := StoreBytes(m, op);
    out := Outcome(ok, [], end);
    BulkIsStore(start, m.View(), table, m.pages, used, m.buffers, Target(op), Payload(op), ok, end, m.maxPages);
    LentAfterStore(table, m.pages, used, Target(op) / PAGE_SIZE, PagePast(Target(op), end), foreign, home);
  }

  lemma FreedFlat(before: Table, after: Table, lo: nat, hi: nat)
    requires after == Without(before, lo, hi)
    ensures Readables(after) == Readables(before) + SpanAll(lo, hi)
    ensures Writables(after) == Writables(before) + SpanAll(lo, hi)
    ensures after.Keys == before.Keys - Span(lo, hi) && OwnedPagesOf(after) == OwnedPagesOf(before) - Span(lo, hi)
  {
  }

  method FreeOne(m: Memory, op: Op, ghost foreign: set<PageData>, ghost home: map<PageData, nat>) returns (out: Outcome)
    requires m.Valid() && op.Free? && Foreign(m, foreign, home)
    modifies m
    ensures m.Valid() && m.owned <= old(m.owned) && m.buffers == old(m.buffers) && Foreign(m, foreign, home)
    ensures Does(old(FlatOf(m)), op, out, FlatOf(m), [], m.maxPages)
  {
    ghost var table := m.pages;
    m.FreePages(op.dst, op.len);
    FreedFlat(table, m.pages, op.dst / PAGE_SIZE, PagesEnd(op.dst, op.len));
    assert Lent(m.pages, foreign, home) by {
      forall n: nat
        ensures LentAt(m.pages, foreign, home, n)
      {
        assert LentAt(table, foreign, home, n);
      }
    }
    out := Outcome(true, [], 0);
  }

  lemma SharedFlat(before: Table, n: nat, page: Page)
    requires page.attr.nonOwning && n !in OwnedPagesOf(before)
    ensures var after := before[n := page];
            && Readables(after) == With(Readables(before), n, page.attr.read)
            && Writables(after) == With(Writables(before), n, page.attr.write || page.attr.isCow)
            && after.Keys == before.Keys + {n} && OwnedPagesOf(after) == OwnedPagesOf(before)
  {
  }

  lemma ShareDoes(start: Pages, now: Pages, before: Table, after: Table, n: nat, page: Page, bytes: seq<Byte>, ok: bool)
    requires ok <==> n !in OwnedPagesOf(before)
    requires if ok then after == before[n := Page(page.attr.(nonOwning := true), page.data)] && now == start[n := bytes]
             else after == before && now == start
    ensures DoesShare(Flatten(start, before), Flatten(now, after), n, page.attr, bytes, ok)
  {
    if ok {
      SharedFlat(before, n, Page(page.attr.(nonOwning := true), page.data));
    }
  }

  lemma LentAfterShare(table: Table, foreign: set<PageData>, home: map<PageData, nat>, n: nat, page: Page)
    requires Lent(table, foreign, home) && Allowed(Share(n, page), foreign, home)
    ensures Lent(table[n := Page(page.attr.(nonOwning := true), page.data)], foreign, home)
  {
    var after := table[n := Page(page.attr.(nonOwning := true), page.data)];
    forall k: nat
      ensures LentAt(after, foreign, home, k)
    {
      assert LentAt(table, foreign, home, k);
    }
  }

  method ShareOne(m: Memory, op: Op, ghost foreign: set<PageData>, ghost home: map<PageData, nat>)
    returns (out: Outcome)
    requires m.Valid() && op.Share? && Foreign(m, foreign, home) && Allowed(op, foreign, home)
    modifies m
    ensures m.Valid() && m.owned <= old(m.owned) + home.Keys && Foreign(m, foreign, home)
    ensures Does(old(FlatOf(m)), op, out, FlatOf(m), old(op.page.data.bytes), m.maxPages)
  {
    ghost var before, table, bytes := m.View(), m.pages, op.page.data.bytes;
    LentIsLone(m.pages, m.zero, foreign, home, op.n, op.page);
    LentAfterShare(m.pages, foreign, home, op.n, op.page);
    var ok := m.InstallSharedPage(op.n, op.page);
    ShareDoes(before, m.View(), table, m.pages, op.n, op.page, bytes, ok);
    out := Outcome(ok, [], 0);
  }

  /** The bytes of a shared page. */
  ghost function SharedBytes(op: Op): seq<Byte>
    reads if op.Share? then {op.page.data} else {}
  {
    if op.Share? then op.page.data.bytes else []
  }

  method Perform(m: Memory, op: Op, ghost foreign: set<PageData>, ghost home: map<PageData, nat>) returns (out: Outcome)
    requires m.Valid() && Allowed(op, foreign, home) && Foreign(m, foreign, home)
    modifies m, m.owned
    ensures m.Valid() && Foreign(m, foreign, home) && fresh(m.owned - old(m.owned) - home.Keys)
    ensures !op.Share? ==> fresh(m.buffers - old(m.buffers))
    ensures Does(old(FlatOf(m)), op, out, FlatOf(m), old(SharedBytes(op)), m.maxPages)
  {
    if op.Load? {
      out := LoadOne(m, op, m.maxPages);
    } else if op.CopyOut? {
      out := CopyOutOne(m, op, m.maxPages);
    } else if op.Free? {
      out := FreeOne(m, op, foreign, home);
    } else if op.Share? {
      out := ShareOne(m, op, foreign, home);
    } else {
      out := StoreOne(m, op, foreign, home);
    }
  }

  // -------------------------------------------------------------------------
  // Any sequence of operations
  // -------------------------------------------------------------------------

  /** A run of the flat array that goes with operations and their outcomes. */
  ghost predicate Trace(trace: seq<Flat>, ops: seq<Op>, outs: seq<Outcome>, shared: seq<seq<Byte>>, limit: nat) {
    && |outs| <= |ops| && |shared| == |outs| && |trace| == |outs| + 1
    && forall k {:trigger outs[k]} :: 0 <= k < |outs| ==>
         Does(trace[k], ops[k], outs[k], trace[k + 1], shared[k], limit)
  }

  lemma TraceExtends(trace: seq<Flat>, ops: seq<Op>, outs: seq<Outcome>, shared: seq<seq<Byte>>, limit: nat,
                     out: Outcome, after: Flat, bytes: seq<Byte>)
    requires Trace(trace, ops, outs, shared, limit) && |outs| < |ops|
    requires Does(trace[|outs|], ops[|outs|], out, after, bytes, limit)
    ensures Trace(trace + [after], ops, outs + [out], shared + [bytes], limit)
  {
  }

  /** Any sequence of operations is one on a flat array of bytes with permissions, and the table with
      its caches and lazily created pages ends up as that array does. */
  method RunOps(m: Memory, ops: seq<Op>, ghost foreign: set<PageData>, ghost home: map<PageData, nat>)
    returns (outs: seq<Outcome>, ghost trace: seq<Flat>, ghost shared: seq<seq<Byte>>)
    requires m.Valid() && Foreign(m, foreign, home) && forall k :: 0 <= k < |ops| ==> Allowed(ops[k], foreign, home)
    modifies m, m.owned, home.Keys
    ensures m.Valid() && |outs| == |ops| && Trace(trace, ops, outs, shared, m.maxPages)
    ensures trace[0] == old(FlatOf(m)) && trace[|ops|] == FlatOf(m)
  {
    outs, trace, shared := [], [FlatOf(m)], [];
    while |outs| < |ops|
      invariant |outs| <= |ops| && m.Valid() && Foreign(m, foreign, home) && fresh(m.owned - old(m.owned) - home.Keys)
      invariant Trace(trace, ops, outs, shared, m.maxPages)
      invariant trace[0] == old(FlatOf(m)) && trace[|outs|] == FlatOf(m)
    {
      ghost var bytes := SharedBytes(ops[|outs|]);
      var out := Perform(m, ops[|outs|], foreign, home);
      TraceExtends(trace, ops, outs, shared, m.maxPages, out, FlatOf(m), bytes);
      outs, trace, shared := outs + [out], trace + [FlatOf(m)], shared + [bytes];
    }
  }

  // -------------------------------------------------------------------------
  // The page limit
  // -------------------------------------------------------------------------

  datatype PageOp = Fault(n: nat, init: bool) | Release(dst: nat, len: nat)

  /** Any sequence of faults and frees: owned pages exceed the limit by no more than the scans
      that may be skipped, and a fault is refused only at the limit. */
  method RunPageOps(m: Memory, ops: seq<PageOp>)
    requires m.Valid() && m.conversions == 0
    modifies m
    ensures m.Valid() && m.conversions == 0
    ensures |OwnedPagesOf(m.pages)| <= m.maxPages + SCAN_LIMIT
  {
    var k := 0;
    while k < |ops|
      invariant 0 <= k <= |ops| && m.Valid() && m.conversions == 0
      invariant |OwnedPagesOf(m.pages)| <= m.maxPages + SCAN_LIMIT
    {
      match ops[k] {
        case Fault(n, init) =>
          if n !in m.pages {
            var ok := m.PageFault(n, init);
            assert !ok ==> |OwnedPagesOf(m.pages)| >= m.maxPages;
          }
        case Release(dst, len) => m.FreePages(dst, len);
      }
      k := k + 1;
    }
  }
}
