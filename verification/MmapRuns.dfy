/**
  Any sequence of mmap and munmap calls on one area, by a guest that unmaps only what it has mapped:
  no byte is handed out while it is mapped, and no byte of the area is ever lost.
 */
module MmapRuns {
  import opened Mmap
  import opened Wrappers

  /** mmap without an address, mmap with MAP_FIXED_NOREPLACE, and munmap. */
  datatype Call = Map(length: nat) | MapAt(addr: nat, length: nat) | Unmap(addr: nat, length: nat) {

    /** The call asks for an address of its own. */
    predicate Fixed() { MapAt? && addr != 0 }

    function Size(): nat { RoundUp(length) }
  }

  /** The area as a guest knows it: the bytes it has mapped, and the end of the area. */
  datatype View = View(live: set<nat>, end: nat)

  /** The range r was free, and is handed out. */
  ghost predicate HandsOut(start: nat, v: View, r: Range, v': View) {
    && r.size > 0 && Bytes(r) !! v.live && v'.live == v.live + Bytes(r)
    && start <= r.addr && r.addr + r.size <= v'.end && v.end <= v'.end
  }

  /** munmap takes a range of whole pages, all of them mapped. */
  predicate Releases(call: Call, live: set<nat>) {
    call.Unmap? && call.addr % PAGE_SIZE == 0 && call.Size() > 0 && Bytes(Range(call.addr, call.Size())) <= live
  }

  /** What a call answers, and what becomes of the area. */
  ghost predicate Answers(start: nat, limit: nat, call: Call, v: View, r: Option<nat>, v': View) {
    if call.Unmap? then
      && r == None
      && v' == if !Releases(call, v.live) then v
               else View(v.live - Bytes(Range(call.addr, call.Size())),
                         if call.addr + call.Size() == v.end then call.addr else v.end)
    else
      match r
      case None => v' == v && (if call.Fixed() then !Beyond(limit, call, v.end) else Exhausts(limit, call, v.end))
      case Some(a) =>
        && HandsOut(start, v, Range(a, call.Size()), v')
        && (if call.Fixed() then a == call.addr && a % PAGE_SIZE == 0 else v'.end == v.end || a == v.end)
        && (v'.end == v.end || v'.end == a + call.Size())
  }

  /** No room is left at the end for a call that may go anywhere, or nothing is asked for. */
  predicate Exhausts(limit: nat, call: Call, end: nat) {
    call.Size() == 0 || end + call.Size() > limit
  }

  /** A call for whole pages beyond the end and below the limit. */
  predicate Beyond(limit: nat, call: Call, end: nat) {
    call.MapAt? && call.addr % PAGE_SIZE == 0 && call.Size() > 0 && end <= call.addr && call.addr + call.Size() <= limit
  }

  ghost function ViewOf(area: MmapArea): View
    reads area
  {
    View(area.live, area.address)
  }

  /** From the free list, or else from the end of the area. */
  method MapAnywhere(area: MmapArea, call: Call) returns (r: Option<nat>)
    requires area.Valid() && !call.Unmap? && !call.Fixed()
    modifies area, area.cache
    ensures area.Valid() && Answers(area.start, area.limit, call, old(ViewOf(area)), r, ViewOf(area))
  {
    var size := call.Size();
    if size == 0 {
      return None;
    }
    var range := area.Reserve(size);
    if range.size != 0 {
      return Some(range.addr);
    }
    assert Bytes(range) == {};
    if area.address + size > area.limit {
      return None;
    }
    var a := area.Allocate(size);
    return Some(a);
  }

  /** At the address asked for, or not at all. */
  method MapExactly(area: MmapArea, call: Call) returns (r: Option<nat>)
    requires area.Valid() && call.Fixed()
    modifies area, area.cache
    ensures area.Valid() && Answers(area.start, area.limit, call, old(ViewOf(area)), r, ViewOf(area))
  {
    var addr, size := call.addr, call.Size();
    if addr % PAGE_SIZE != 0 || size == 0 || addr < area.start || addr + size > area.limit {
      return None;
    }
    if addr >= area.address {
      area.Claim(addr, size);
      return Some(addr);
    }
    var ok := area.ReserveAt(addr, size);
    if ok {
      LiveRange(area.live, Range(addr, size), area.start, area.cache.lines, area.address);
      return Some(addr);
    }
    return None;
  }

  method Perform(area: MmapArea, call: Call, mapped: set<nat>) returns (r: Option<nat>, now: set<nat>)
    requires area.Valid() && mapped == area.live
    modifies area, area.cache
    ensures area.Valid() && now == area.live
    ensures Answers(area.start, area.limit, call, old(ViewOf(area)), r, ViewOf(area))
  {
    if call.Unmap? {
      r, now := None, mapped;
      if Releases(call, mapped) {
        var _ := area.Unmap(call.addr, call.length);
        now := mapped - Bytes(Range(call.addr, call.Size()));
      }
    } else {
      if call.Fixed() {
        r := MapExactly(area, call);
      } else {
        r := MapAnywhere(area, call);
      }
      now := if r.Some? then mapped + Bytes(Range(r.value, call.Size())) else mapped;
    }
  }

  /** Every call of a run is answered as it should be. */
  ghost predicate Run(start: nat, limit: nat, calls: seq<Call>, results: seq<Option<nat>>, views: seq<View>) {
    && |results| == |calls| && |views| == |calls| + 1
    && forall i :: 0 <= i < |calls| ==> Answers(start, limit, calls[i], views[i], results[i], views[i + 1])
  }

  method RunCalls(area: MmapArea, calls: seq<Call>, mapped: set<nat>)
    returns (results: seq<Option<nat>>, ghost views: seq<View>)
    requires area.Valid() && mapped == area.live
    modifies area, area.cache
    ensures area.Valid() && Run(area.start, area.limit, calls, results, views)
    ensures views[0] == old(ViewOf(area)) && views[|calls|] == ViewOf(area)
  {
    results, views := [], [ViewOf(area)];
    var now := mapped;
    for i := 0 to |calls|
      invariant area.Valid() && now == area.live && |results| == i
      invariant Run(area.start, area.limit, calls[..i], results, views)
      invariant views[0] == old(ViewOf(area)) && views[i] == ViewOf(area)
    {
      var r;
      r, now := Perform(area, calls[i], now);
      OneMore(area.start, area.limit, calls, results, views, i, r, ViewOf(area));
      results, views := results + [r], views + [ViewOf(area)];
    }
    assert calls[..|calls|] == calls;
  }

  lemma OneMore(start: nat, limit: nat, calls: seq<Call>, results: seq<Option<nat>>, views: seq<View>, i: nat,
                r: Option<nat>, v: View)
    requires i < |calls| && Run(start, limit, calls[..i], results, views)
    requires Answers(start, limit, calls[i], views[i], r, v)
    ensures Run(start, limit, calls[..i + 1], results + [r], views + [v])
  {
    var calls', results', views' := calls[..i + 1], results + [r], views + [v];
    forall k | 0 <= k < i + 1
      ensures Answers(start, limit, calls'[k], views'[k], results'[k], views'[k + 1])
    {
      if k < i {
        assert calls'[k] == calls[..i][k];
      }
    }
  }

  // -------------------------------------------------------------------------
  // What holds of every run
  // -------------------------------------------------------------------------

  /** The bytes that call i of a run was given. */
  ghost function Given(calls: seq<Call>, results: seq<Option<nat>>, i: nat): set<nat>
    requires i < |calls| == |results|
  {
    if results[i].None? then {} else Bytes(Range(results[i].value, calls[i].Size()))
  }

  /** The call unmaps a. */
  predicate Drops(call: Call, a: nat) {
    call.Unmap? && Range(call.addr, call.Size()).Has(a)
  }

  /** A mapped byte stays mapped until a call unmaps it. */
  lemma {:induction false} StaysMapped(start: nat, limit: nat, calls: seq<Call>, results: seq<Option<nat>>,
                                       views: seq<View>, a: nat, i: nat, j: nat)
    requires Run(start, limit, calls, results, views) && i <= j <= |calls| && a in views[i].live
    requires forall k :: i <= k < j ==> !Drops(calls[k], a)
    ensures a in views[j].live
  {
    if i < j {
      StaysMapped(start, limit, calls, results, views, a, i, j - 1);
      assert !Drops(calls[j - 1], a);
      assert Answers(start, limit, calls[j - 1], views[j - 1], results[j - 1], views[j]);
    }
  }

  /** No byte is handed out a second time unless it was unmapped in between. */
  lemma NeverTwice(start: nat, limit: nat, calls: seq<Call>, results: seq<Option<nat>>, views: seq<View>, a: nat,
                   i: nat, j: nat)
    requires Run(start, limit, calls, results, views) && i < j < |calls|
    requires a in Given(calls, results, i) && a in Given(calls, results, j)
    ensures exists k :: i < k < j && Drops(calls[k], a)
  {
    assert Answers(start, limit, calls[i], views[i], results[i], views[i + 1]);
    assert Answers(start, limit, calls[j], views[j], results[j], views[j + 1]);
    if forall k :: i < k < j ==> !Drops(calls[k], a) {
      StaysMapped(start, limit, calls, results, views, a, i + 1, j);
      assert false;
    }
  }

  // -------------------------------------------------------------------------
  // Conservation
  // -------------------------------------------------------------------------

  /** The sizes of all lines together. */
  ghost function Total(lines: seq<Range>): nat {
    if lines == [] then 0 else Total(lines[..|lines| - 1]) + lines[|lines| - 1].size
  }

  ghost function Union(lines: seq<Range>): set<nat> {
    if lines == [] then {} else Union(lines[..|lines| - 1]) + Bytes(lines[|lines| - 1])
  }

  lemma {:induction false} UnionIsCovered(lines: seq<Range>, a: nat)
    ensures a in Union(lines) <==> Covers(lines, a)
  {
    if lines != [] {
      var init, last := lines[..|lines| - 1], lines[|lines| - 1];
      UnionIsCovered(init, a);
      assert Covers(init, a) ==> Covers(lines, a) by {
        if Covers(init, a) {
          var i :| 0 <= i < |init| && init[i].Has(a);
          assert lines[i].Has(a);
        }
      }
      assert last.Has(a) <==> a in Bytes(last);
      if Covers(lines, a) && !last.Has(a) {
        var i :| 0 <= i < |lines| && lines[i].Has(a);
        assert init[i].Has(a);
      }
    }
  }

  lemma {:induction false} ByteCount(r: Range)
    ensures |Bytes(r)| == r.size
    decreases r.size
  {
    if r.size == 0 {
      assert Bytes(r) == {};
    } else {
      var shorter := Range(r.addr, r.size - 1);
      ByteCount(shorter);
      assert Bytes(r) == Bytes(shorter) + {r.addr + r.size - 1};
    }
  }

  lemma {:induction false} UnionCount(lines: seq<Range>)
    requires Tidy(lines)
    ensures |Union(lines)| == Total(lines)
  {
    if lines != [] {
      var init, last := lines[..|lines| - 1], lines[|lines| - 1];
      TidyInit(lines);
      UnionCount(init);
      ByteCount(last);
      assert Union(init) !! Bytes(last) by {
        forall a | a in Union(init)
          ensures a !in Bytes(last)
        {
          UnionIsCovered(init, a);
          var i :| 0 <= i < |init| && init[i].Has(a);
          OtherLine(lines, |lines| - 1, i, a);
        }
      }
    }
  }

  lemma TidyInit(lines: seq<Range>)
    requires Tidy(lines) && lines != []
    ensures Tidy(lines[..|lines| - 1])
  {
    var init := lines[..|lines| - 1];
    forall i, j | 0 <= i < j < |init|
      ensures Apart(init[i], init[j])
    {
      assert Apart(lines[i], lines[j]);
    }
  }

  /** Mapped bytes and free lines add up to the area: no byte is lost. */
  lemma Conserved(start: nat, lines: seq<Range>, live: set<nat>, end: nat)
    requires start <= end && Tidy(lines) && Partition(start, lines, live, end)
    ensures |live| + Total(lines) == end - start
  {
    UnionCount(lines);
    ByteCount(Range(start, end - start));
    forall a: nat
      ensures a in Union(lines) <==> Covers(lines, a)
    {
      UnionIsCovered(lines, a);
    }
    assert live !! Union(lines);
    assert live + Union(lines) == Bytes(Range(start, end - start));
  }
}
