/**
  Claiming addresses for native code in a copy of the decoder cache.  A claimed instruction
  becomes the last of its block, so every entry before it in that block must be told the
  new, shorter way to the end; nothing else may change.
 */
module LivePatch {
  import opened Isa
  import opened Program
  import opened DecoderCache

  // -------------------------------------------------------------------------
  // Distances to a set of stops
  // -------------------------------------------------------------------------

  /** Walking on from an instruction that is no stop stays inside the segment. */
  ghost predicate Closed(p: Code, stops: set<nat>) {
    forall j {:trigger j in stops} :: 0 <= j < p.Count() && p.IsStart(j) && j !in stops ==>
        j + p.slots[j].len < p.Count()
  }

  /** Slots from the instruction at j to the nearest stop at or after it. */
  ghost function To(p: Code, stops: set<nat>, j: nat): (d: nat)
    requires p.Measured() && Closed(p, stops) && j < p.Count() && p.IsStart(j)
    ensures d == 0 <==> j in stops
    ensures j + d < p.Count()
    decreases p.Count() - j
  {
    if j in stops then 0
    else
      NextIsStart(p, j);
      p.slots[j].len + To(p, stops, j + p.slots[j].len)
  }

  /** The entry at j knows its nearest stop. */
  ghost predicate Aims(p: Code, stops: set<nat>, e: seq<DecoderData>, j: nat)
    requires p.Measured() && Closed(p, stops) && j < p.Count() < |e| && p.IsStart(j)
  {
    e[j].idxend == To(p, stops, j)
  }

  ghost predicate Middle(e: seq<DecoderData>, j: nat)
    requires j < |e|
  {
    e[j].idxend == 0 && e[j].icount == 0 && e[j].bytecode == INVALID
  }

  /** Every entry's block distance ends exactly at its nearest following stop. */
  ghost predicate Aimed(p: Code, stops: set<nat>, e: seq<DecoderData>) {
    && p.Measured() && Closed(p, stops) && p.Count() < |e|
    && (forall j {:trigger Aims(p, stops, e, j)} :: 0 <= j < p.Count() && p.IsStart(j) ==> Aims(p, stops, e, j))
    && (forall j {:trigger Middle(e, j)} :: 0 <= j < p.Count() && !p.IsStart(j) ==> Middle(e, j))
  }

  /** The block ends of a cache. */
  ghost function Ends(p: Code, e: seq<DecoderData>): set<nat>
    requires p.Count() < |e|
  {
    set j | 0 <= j < p.Count() && p.IsStart(j) && e[j].idxend == 0
  }

  /** A freshly generated cache aims at its own block ends. */
  lemma ChainedIsAimed(p: Code, e: seq<DecoderData>)
    requires p.Measured() && Chained(p, e)
    ensures Aimed(p, Ends(p, e), e)
  {
    var stops := Ends(p, e);
    forall j | 0 <= j < p.Count() && p.IsStart(j) && j !in stops
      ensures j + p.slots[j].len < p.Count()
    {
      assert Linked(p, e, j);
    }
    forall j | 0 <= j < p.Count() && p.IsStart(j)
      ensures Aims(p, stops, e, j)
    {
      ChainedAims(p, e, j);
    }
    forall j | 0 <= j < p.Count() && !p.IsStart(j)
      ensures Middle(e, j)
    {
      assert Blank(e, j);
    }
  }

  lemma {:induction false} ChainedAims(p: Code, e: seq<DecoderData>, j: nat)
    requires p.Measured() && Chained(p, e) && j < p.Count() && p.IsStart(j) && Closed(p, Ends(p, e))
    ensures Aims(p, Ends(p, e), e, j)
    decreases p.Count() - j
  {
    assert Linked(p, e, j);
    if j !in Ends(p, e) {
      NextIsStart(p, j);
      ChainedAims(p, e, j + p.slots[j].len);
    }
  }

  // -------------------------------------------------------------------------
  // The block before a claimed instruction
  // -------------------------------------------------------------------------

  /** From j the walk comes to a before it meets a stop. */
  ghost predicate Before(p: Code, stops: set<nat>, j: nat, a: nat)
    requires p.Measured() && Closed(p, stops) && a < p.Count() && j < p.Count() && p.IsStart(j)
    decreases p.Count() - j
  {
    j < a && j !in stops &&
    (NextIsStart(p, j); var next := j + p.slots[j].len; next == a || Before(p, stops, next, a))
  }

  lemma ClosedMore(p: Code, stops: set<nat>, a: nat)
    requires Closed(p, stops)
    ensures Closed(p, stops + {a})
  {
    forall j | 0 <= j < p.Count() && p.IsStart(j) && j !in stops + {a}
      ensures j + p.slots[j].len < p.Count()
    {
      assert j !in stops;
    }
  }

  /** A new stop at a shortens exactly the distances of the entries before it in its block. */
  lemma {:induction false} NewStop(p: Code, stops: set<nat>, a: nat, j: nat)
    requires p.Measured() && Closed(p, stops) && Closed(p, stops + {a})
    requires a < p.Count() && p.IsStart(a) && j < p.Count() && p.IsStart(j)
    ensures To(p, stops + {a}, j) ==
              if j == a then 0 else if Before(p, stops, j, a) then a - j else To(p, stops, j)
    decreases p.Count() - j
  {
    if j !in stops + {a} {
      NextIsStart(p, j);
      NewStop(p, stops, a, j + p.slots[j].len);
      if a < j {
        NotBefore(p, stops, j, a);
      }
    }
  }

  lemma NotBefore(p: Code, stops: set<nat>, j: nat, a: nat)
    requires p.Measured() && Closed(p, stops) && a < p.Count() && j < p.Count() && p.IsStart(j) && a <= j
    ensures !Before(p, stops, j, a)
  {
  }

  /** What separates j from a: going back from a, the walk stays in the block as long as it
      meets no stop. */
  lemma {:induction false} BeforeChain(p: Code, stops: set<nat>, i: nat, j: nat, a: nat)
    requires p.Measured() && Closed(p, stops) && a < p.Count() && p.IsStart(a)
    requires j < p.Count() && p.IsStart(j) && (j == a || Before(p, stops, j, a))
    requires i < j && p.IsStart(i) && i + p.slots[i].len == j
    ensures Before(p, stops, i, a) <==> i !in stops
  {
  }

  /** Nothing before a block that begins after a stop is in the block. */
  lemma {:induction false} BlockedByStop(p: Code, stops: set<nat>, i: nat, c: nat, a: nat)
    requires p.Measured() && Closed(p, stops) && a < p.Count() && c <= a
    requires i < c && p.IsStart(i) && p.IsStart(c) && c < p.Count()
    requires Prev(p, c) in stops
    ensures !Before(p, stops, i, a)
    decreases c - i
  {
    if i !in stops {
      NextIsStart(p, i);
      var next := i + p.slots[i].len;
      if next < c {
        BlockedByStop(p, stops, next, c, a);
      } else if next == c {
        PrevUnique(p, i, c);
      }
    }
  }

  lemma PrevUnique(p: Code, i: nat, c: nat)
    requires p.Measured() && i < c < p.Count() && p.IsStart(i) && p.IsStart(c) && i + p.slots[i].len == c
    ensures Prev(p, c) == i
  {
    NextIsStart(p, i);
  }

  // -------------------------------------------------------------------------
  // livepatch_make_block_ending
  // -------------------------------------------------------------------------

  /** The walk back from a has come to c, all in one block. */
  ghost predicate WalkedBack(p: Code, stops: set<nat>, e: seq<DecoderData>, a: nat, c: nat)
    requires p.Count() < |e|
  {
    && p.Measured() && Closed(p, stops)
    && c <= a < p.Count() && p.IsStart(a) && p.IsStart(c) && c !in stops
    && (c == a || Before(p, stops, c, a))
    && e[c].idxend == e[a].idxend + (a - c)
    && (forall j {:trigger Before(p, stops, j, a)} :: c <= j < a && p.IsStart(j) ==> Before(p, stops, j, a))
  }

  /** The three ways one turn of the backward walk can go, by what lies before c. */
  lemma LookBack(p: Code, stops: set<nat>, e: seq<DecoderData>, a: nat, c: nat)
    requires Aimed(p, stops, e) && WalkedBack(p, stops, e, a, c) && c > 0
    ensures e[c - 1].idxend == 0 && c >= 2 ==>
              (e[c - 2].idxend == e[c].idxend + 4 / p.build.SlotBytes() <==>
               p.IsStart(c - 2) && p.slots[c - 2].len == 2 && c - 2 !in stops)
    ensures e[c - 1].idxend == 0 && !(c >= 2 && p.IsStart(c - 2) && p.slots[c - 2].len == 2 && c - 2 !in stops) ==>
              Prev(p, c) in stops
    ensures e[c - 1].idxend != 0 ==>
              p.IsStart(c - 1) && p.slots[c - 1].len == 1 && c - 1 !in stops && e[c - 1].idxend == e[c].idxend + 1
  {
    assert Aims(p, stops, e, c);
    if p.IsStart(c - 1) {
      assert Aims(p, stops, e, c - 1);
    } else {
      assert Middle(e, c - 1);
      assert Aims(p, stops, e, c - 2);
    }
    if c >= 2 {
      assert p.IsStart(c - 2) || Middle(e, c - 2);
      if p.IsStart(c - 2) {
        assert Aims(p, stops, e, c - 2);
      }
    }
  }

  /** One instruction further back. */
  lemma StepBack(p: Code, stops: set<nat>, e: seq<DecoderData>, a: nat, c: nat, i: nat)
    requires Aimed(p, stops, e) && WalkedBack(p, stops, e, a, c)
    requires i < c && p.IsStart(i) && i + p.slots[i].len == c && i !in stops
    ensures WalkedBack(p, stops, e, a, i)
  {
    BeforeChain(p, stops, i, c, a);
    assert Aims(p, stops, e, i) && Aims(p, stops, e, c);
    forall j | i <= j < a && p.IsStart(j)
      ensures Before(p, stops, j, a)
    {
      if i < j < c {
        NextIsStart(p, i);
      }
    }
  }

  /** The first instruction of the block that a is in. */
  ghost predicate BlockBegin(p: Code, stops: set<nat>, e: seq<DecoderData>, a: nat, c: nat)
    requires p.Count() < |e|
  {
    && WalkedBack(p, stops, e, a, c)
    && (c == 0 || Prev(p, c) in stops)
  }

  /** The backward walk: to the beginning of the block, across the invalid entries in the
      middle of instructions. */
  method FindBlockBegin(p: Code, cache: array<DecoderData>, a: nat, ghost stops: set<nat>) returns (current: nat)
    requires Aimed(p, stops, cache[..]) && a < p.Count() && p.IsStart(a) && cache[a].idxend != 0
    ensures BlockBegin(p, stops, cache[..], a, current)
  {
    ghost var e := cache[..];
    assert Aims(p, stops, e, a);
    current := a;
    var last := cache[a].idxend;
    while current > 0
      invariant WalkedBack(p, stops, e, a, current) && last == cache[current].idxend
      decreases current
    {
      LookBack(p, stops, e, a, current);
      if cache[current - 1].idxend == 0 {
        if current - 1 == 0 {
          break;
        }
        if cache[current - 2].idxend == last + 4 / p.build.SlotBytes() {
          StepBack(p, stops, e, a, current, current - 2);
          current := current - 2;
          last := cache[current].idxend;
          continue;
        } else {
          break;
        }
      }
      if cache[current - 1].idxend < last {
        break;
      }
      StepBack(p, stops, e, a, current, current - 1);
      current := current - 1;
      last := cache[current].idxend;
    }
  }

  /** An entry before a in its block, once it aims at a. */
  ghost function Retargeted(build: Build, d: DecoderData, distance: nat): DecoderData {
    if !build.compressed then d.(idxend := distance)
    else if d.bytecode == INVALID then d.(idxend := 0, icount := 0)
    else d.(idxend := distance, icount := distance + 1)
  }

  /** Entries in the block before a are retargeted, all others are as they were. */
  ghost predicate Redirected(p: Code, stops: set<nat>, a: nat, e0: seq<DecoderData>, e: seq<DecoderData>) {
    && p.Measured() && Closed(p, stops) && a < p.Count() && p.IsStart(a)
    && p.Count() < |e0| == |e|
    && (forall j {:trigger e[j]} :: 0 <= j < |e| ==>
          e[j] == if a !in stops && InBlockOf(p, stops, a, j) then Retargeted(p.build, e0[j], a - j) else e0[j])
  }

  ghost predicate InBlockOf(p: Code, stops: set<nat>, a: nat, j: nat)
    requires p.Measured() && Closed(p, stops) && a < p.Count()
  {
    j < p.Count() && p.IsStart(j) && Before(p, stops, j, a)
  }

  /** Distances fit the field that holds them. */
  ghost predicate Narrow(p: Code, e: seq<DecoderData>)
    requires p.Count() < |e|
  {
    forall j :: 0 <= j < p.Count() ==> e[j].idxend < (if p.build.compressed then 255 else 0x1_0000)
  }

  /** Generated caches are. */
  lemma GeneratedIsNarrow(p: Code, e: seq<DecoderData>)
    requires p.Measured() && p.Count() < |e|
    requires p.build.compressed ==> Done(p, e, 0, p.Count())
    requires !p.build.compressed ==> forall j :: 0 <= j < p.Count() ==> e[j] == WideRealized(p, j)
    ensures Narrow(p, e)
  {
    forall j | 0 <= j < p.Count()
      ensures e[j].idxend < if p.build.compressed then 255 else 0x1_0000
    {
      if p.build.compressed && p.IsStart(j) {
        FieldsFit(p, j);
      }
    }
  }

  /** Whatever lies before the first instruction of the block is in another block. */
  lemma OutsideBlock(p: Code, stops: set<nat>, e: seq<DecoderData>, a: nat, c: nat, j: nat)
    requires p.Count() < |e| && BlockBegin(p, stops, e, a, c) && j < p.Count()
    ensures InBlockOf(p, stops, a, j) <==> c <= j < a && p.IsStart(j)
  {
    if p.IsStart(j) {
      if j < c {
        BlockedByStop(p, stops, j, c, a);
      } else if j >= a {
        NotBefore(p, stops, j, a);
      } else {
        assert Before(p, stops, j, a);
      }
    }
  }

  /** An entry before the claimed one, through fields of eight or sixteen bits. */
  method RewriteEntry(build: Build, d: DecoderData, slots: nat) returns (r: DecoderData)
    requires slots < if build.compressed then 255 else 0x1_0000
    ensures r == Retargeted(build, d, slots)
  {
    r := d;
    if build.compressed {
      if d.bytecode != INVALID {
        r := r.(icount := (slots + 1) % 256, idxend := slots % 256);
      } else {
        r := r.(icount := 0, idxend := 0);
      }
    } else {
      r := r.(idxend := slots % 0x1_0000);
    }
  }

  /** livepatch_make_block_ending.  The three places where the source throws are asserted
      away: the block begins inside the segment, at the slot the walk ended on, and the
      distances run out exactly at a. */
  method MakeBlockEnding(p: Code, cache: array<DecoderData>, a: nat, ghost stops: set<nat>)
    requires Aimed(p, stops, cache[..]) && Narrow(p, cache[..]) && a < p.Count() && p.IsStart(a)
    modifies cache
    ensures Redirected(p, stops, a, old(cache[..]), cache[..])
  {
    assert Aims(p, stops, cache[..], a);
    if cache[a].idxend == 0 {
      return;
    }
    var current := FindBlockBegin(p, cache, a, stops);
    var blockSlots := cache[current].idxend - cache[a].idxend;
    assert 0 <= a - blockSlots < p.Count();
    assert current + blockSlots == a;
    var dd := current;
    while dd < a
      invariant current <= dd <= a && blockSlots == a - dd
      invariant forall j :: 0 <= j < cache.Length && !(current <= j < dd) ==> cache[j] == old(cache[j])
      invariant forall j :: current <= j < dd ==> cache[j] == Retargeted(p.build, old(cache[j]), a - j)
    {
      WithinOldDistance(p, stops, old(cache[..]), a, current, dd);
      cache[dd] := RewriteEntry(p.build, cache[dd], blockSlots);
      dd := dd + 1;
      blockSlots := blockSlots - 1;
    }
    assert blockSlots == 0;
    RewrittenIsRedirected(p, stops, old(cache[..]), cache[..], a, current);
  }

  lemma WithinOldDistance(p: Code, stops: set<nat>, e: seq<DecoderData>, a: nat, c: nat, j: nat)
    requires Aimed(p, stops, e) && Narrow(p, e) && BlockBegin(p, stops, e, a, c) && c <= j < a
    ensures 0 < a - j <= 254 || !p.build.compressed
    ensures a - j < 0x1_0000
  {
    assert a - c <= e[c].idxend;
  }

  lemma RewrittenIsRedirected(p: Code, stops: set<nat>, e0: seq<DecoderData>, e: seq<DecoderData>, a: nat, c: nat)
    requires Aimed(p, stops, e0) && |e| == |e0| && BlockBegin(p, stops, e0, a, c)
    requires a !in stops
    requires forall j :: 0 <= j < |e| && !(c <= j < a) ==> e[j] == e0[j]
    requires forall j :: c <= j < a ==> e[j] == Retargeted(p.build, e0[j], a - j)
    ensures Redirected(p, stops, a, e0, e)
  {
    forall j | 0 <= j < |e|
      ensures e[j] == if InBlockOf(p, stops, a, j) then Retargeted(p.build, e0[j], a - j) else e0[j]
    {
      if j < p.Count() {
        OutsideBlock(p, stops, e0, a, c, j);
        if !p.IsStart(j) {
          assert Middle(e0, j);
          if !p.build.compressed {
            UncompressedStarts(p, j);
          }
        }
      }
    }
  }

  // -------------------------------------------------------------------------
  // When a claim keeps every distance right
  // -------------------------------------------------------------------------

  /** What the caller of claim writes into the claimed entry. */
  function Native(d: DecoderData, mapping: Word): DecoderData {
    d.(bytecode := NATIVE, handler := 0, instr := mapping, idxend := 0, icount := 0)
  }

  /** Every instruction of the block before a has a handler. */
  ghost predicate BlockDecodes(p: Code, stops: set<nat>, e: seq<DecoderData>, a: nat)
    requires p.Measured() && Closed(p, stops) && a < p.Count() < |e|
  {
    p.build.compressed && a !in stops ==>
      forall j {:trigger InBlockOf(p, stops, a, j)} :: 0 <= j < p.Count() && InBlockOf(p, stops, a, j) ==>
          e[j].bytecode != INVALID
  }

  lemma {:induction false} BeforeAStop(p: Code, stops: set<nat>, a: nat, j: nat)
    requires p.Measured() && Closed(p, stops) && a < p.Count() && j < p.Count() && p.IsStart(j)
    requires a in stops && Before(p, stops, j, a)
    ensures To(p, stops, j) == a - j
    decreases p.Count() - j
  {
    var next := j + p.slots[j].len;
    NextIsStart(p, j);
    if next != a {
      BeforeAStop(p, stops, a, next);
    }
  }

  /** One entry after a claim: right, unless the claim met it without a handler. */
  lemma EntryAfterClaim(p: Code, stops: set<nat>, a: nat, e0: seq<DecoderData>, e1: seq<DecoderData>, mapping: Word,
                        j: nat)
    requires Aimed(p, stops, e0) && Redirected(p, stops, a, e0, e1) && Closed(p, stops + {a})
    requires j < p.Count() && p.IsStart(j)
    ensures Aims(p, stops + {a}, e1[a := Native(e1[a], mapping)], j) <==>
              !(p.build.compressed && a !in stops && InBlockOf(p, stops, a, j) && e0[j].bytecode == INVALID)
  {
    NewStop(p, stops, a, j);
    assert Aims(p, stops, e0, j);
    if a in stops && Before(p, stops, j, a) {
      BeforeAStop(p, stops, a, j);
    }
    NotBefore(p, stops, a, a);
    assert e1[j] == e1[j];
  }

  /** After a claim every entry aims at its nearest block end or claimed address, if and only
      if every instruction of the block before the claimed one has a handler. */
  lemma ClaimKeepsDistances(p: Code, stops: set<nat>, a: nat, e0: seq<DecoderData>, e1: seq<DecoderData>, mapping: Word)
    requires Aimed(p, stops, e0) && Redirected(p, stops, a, e0, e1)
    ensures Aimed(p, stops + {a}, e1[a := Native(e1[a], mapping)]) <==> BlockDecodes(p, stops, e0, a)
  {
    ClosedMore(p, stops, a);
    var e := e1[a := Native(e1[a], mapping)];
    forall j | 0 <= j < p.Count() && p.IsStart(j)
      ensures Aims(p, stops + {a}, e, j) <==>
                !(p.build.compressed && a !in stops && InBlockOf(p, stops, a, j) && e0[j].bytecode == INVALID)
    {
      EntryAfterClaim(p, stops, a, e0, e1, mapping, j);
    }
    forall j | 0 <= j < p.Count() && !p.IsStart(j)
      ensures Middle(e, j)
    {
      assert Middle(e0, j);
      assert e1[j] == e0[j];
    }
    if !BlockDecodes(p, stops, e0, a) {
      var j :| 0 <= j < p.Count() && InBlockOf(p, stops, a, j) && e0[j].bytecode == INVALID;
      assert !Aims(p, stops + {a}, e, j);
    }
  }

  /** A C.ADDIW to register 0, which has no handler, then C.NOP and C.JR ra. */
  const UNDECODED := Segment(Build(true, 8), 0, [0x2001, 0x0001, 0x8082])

  ghost predicate UndecodedFirst(p: Code) {
    && p.build.compressed && p.Count() == 3
    && (forall j :: 0 <= j < 3 ==> p.slots[j].len == 1 && (p.slots[j].cuts <==> j == 2))
    && p.slots[0].decoded == INVALID
  }

  lemma UndecodedWord(w: Word, pc: nat, hi: nat)
    requires w == 0x1_2001
    ensures var slot := DecodeSlot(Build(true, 8), pc, w, 0, hi); slot.len == 1 && !slot.cuts && slot.decoded == INVALID
  {
    assert Quadrant(Low(w)) == 1 && CFunct3(Low(w)) == 1 && CRd(Low(w)) == 0;
  }

  lemma NopWord(w: Word, pc: nat, hi: nat)
    requires w == 0x8082_0001
    ensures var slot := DecodeSlot(Build(true, 8), pc, w, 0, hi); slot.len == 1 && !slot.cuts
  {
    assert Quadrant(Low(w)) == 1 && CFunct3(Low(w)) == 0;
  }

  lemma ReturnWord(w: Word, pc: nat, hi: nat)
    requires w == 0x8082
    ensures var slot := DecodeSlot(Build(true, 8), pc, w, 0, hi); slot.len == 1 && slot.cuts
  {
    assert Quadrant(Low(w)) == 2 && CFunct3(Low(w)) == 4 && CRd(Low(w)) == 1 && CRs2(Low(w)) == 0;
  }

  lemma FirstUndecoded(seg: Segment)
    requires seg == UNDECODED
    ensures var slot := seg.SlotAt(0); slot.len == 1 && !slot.cuts && slot.decoded == INVALID
  {
    UndecodedWord(0x1_2001, 0, 6);
  }

  lemma SecondUndecoded(seg: Segment)
    requires seg == UNDECODED
    ensures var slot := seg.SlotAt(1); slot.len == 1 && !slot.cuts
  {
    NopWord(0x8082_0001, 2, 6);
  }

  lemma ThirdUndecoded(seg: Segment)
    requires seg == UNDECODED
    ensures var slot := seg.SlotAt(2); slot.len == 1 && slot.cuts
  {
    ReturnWord(0x8082, 4, 6);
  }

  lemma UndecodedCode(seg: Segment)
    requires seg == UNDECODED
    ensures UndecodedFirst(seg.Parse())
  {
    FirstUndecoded(seg);
    SecondUndecoded(seg);
    ThirdUndecoded(seg);
    var p := seg.Parse();
    assert p.slots[0] == seg.SlotAt(0) && p.slots[1] == seg.SlotAt(1) && p.slots[2] == seg.SlotAt(2);
  }

  /** Undecoded instructions do break it: claiming the second instruction of this code leaves the
      first one without a way to the claimed address. */
  lemma ClaimCanBreakDistances(p: Code, e0: seq<DecoderData>, e1: seq<DecoderData>, mapping: Word)
    requires UndecodedFirst(p) && p.Measured() && Chained(p, e0) && Done(p, e0, 0, 3)
    requires Redirected(p, Ends(p, e0), 1, e0, e1)
    ensures !Aimed(p, Ends(p, e0) + {1}, e1[1 := Native(e1[1], mapping)])
  {
    ChainedIsAimed(p, e0);
    assert p.IsStart(0) && p.IsStart(1) && p.IsStart(2);
    assert e0[0] == Realized(p, 0) && e0[1] == Realized(p, 1);
    assert BlockOffset(p, 1) == 1;
    assert Distance(p, 1) == 1 && Distance(p, 0) == 2;
    assert Before(p, Ends(p, e0), 0, 1);
    assert InBlockOf(p, Ends(p, e0), 1, 0);
    ClaimKeepsDistances(p, Ends(p, e0), 1, e0, e1, mapping);
  }

  /** The same, from the bytes of the code to the patched copy. */
  method ClaimInUndecoded(mapping: Word) returns (p: Code, cache: array<DecoderData>, ghost e0: seq<DecoderData>)
    ensures p == UNDECODED.Parse() && Chained(p, e0) && Ends(p, e0) == {2}
    ensures p.Count() < cache.Length && !Aimed(p, {1, 2}, cache[..])
  {
    p := UNDECODED.Parse();
    UndecodedCode(UNDECODED);
    cache := GenerateDecoderCache(p);
    e0 := cache[..];
    EndsOfUndecoded(p, e0);
    GeneratedIsNarrow(p, e0);
    ChainedIsAimed(p, e0);
    MakeBlockEnding(p, cache, 1, {2});
    ClaimCanBreakDistances(p, e0, cache[..], mapping);
    ghost var e1 := cache[..];
    cache[1] := Native(cache[1], mapping);
    assert cache[..] == e1[1 := Native(e1[1], mapping)];
    assert {2} + {1} == {1, 2};
  }

  lemma EndsOfUndecoded(p: Code, e0: seq<DecoderData>)
    requires UndecodedFirst(p) && p.Measured() && p.Count() < |e0| && Done(p, e0, 0, 3)
    ensures Ends(p, e0) == {2} && p.IsStart(1)
  {
    assert p.IsStart(0) && p.IsStart(1) && p.IsStart(2);
    assert BlockOffset(p, 1) == 1;
    assert Distance(p, 2) == 0 && Distance(p, 1) == 1 && Distance(p, 0) == 2;
  }

  // -------------------------------------------------------------------------
  // LivePatchedDecoderCache: any sequence of claims
  // -------------------------------------------------------------------------

  /** Every instruction that is not a stop has a handler. */
  ghost predicate Decodes(p: Code, stops: set<nat>, e: seq<DecoderData>)
    requires p.Count() < |e|
  {
    forall j {:trigger e[j]} :: 0 <= j < p.Count() && p.IsStart(j) && j !in stops ==> e[j].bytecode != INVALID
  }

  lemma DecodesMeansBlockDecodes(p: Code, stops: set<nat>, e: seq<DecoderData>, a: nat)
    requires p.Measured() && Closed(p, stops) && a < p.Count() < |e| && Decodes(p, stops, e)
    ensures BlockDecodes(p, stops, e, a)
  {
  }

  /** A claim leaves alone everything but distances and counts, and shortens distances only. */
  lemma ClaimKeepsTheRest(p: Code, stops: set<nat>, a: nat, e0: seq<DecoderData>, e1: seq<DecoderData>, mapping: Word)
    requires Aimed(p, stops, e0) && Redirected(p, stops, a, e0, e1) && Narrow(p, e0) && Decodes(p, stops, e0)
    ensures var e := e1[a := Native(e1[a], mapping)];
            && Narrow(p, e) && Decodes(p, stops + {a}, e)
            && (forall j :: 0 <= j < |e| && j != a ==> e[j] == e0[j].(idxend := e[j].idxend, icount := e[j].icount))
  {
    var e := e1[a := Native(e1[a], mapping)];
    forall j | 0 <= j < |e| && j != a
      ensures e[j] == e0[j].(idxend := e[j].idxend, icount := e[j].icount)
      ensures e[j].idxend <= e0[j].idxend || j >= p.Count()
    {
      assert e[j] == e1[j];
      if a !in stops && InBlockOf(p, stops, a, j) {
        BeforeIsCloser(p, stops, a, j);
        assert Aims(p, stops, e0, j);
      }
    }
  }

  lemma {:induction false} BeforeIsCloser(p: Code, stops: set<nat>, a: nat, j: nat)
    requires p.Measured() && Closed(p, stops) && a < p.Count() && j < p.Count() && p.IsStart(j)
    requires Before(p, stops, j, a)
    ensures a - j <= To(p, stops, j)
    decreases p.Count() - j
  {
    var next := j + p.slots[j].len;
    NextIsStart(p, j);
    if next != a {
      BeforeIsCloser(p, stops, a, next);
    }
  }

  /** A patched copy of a decoder cache. */
  class PatchedDecoderCache {
    const p: Code
    const cache: array<DecoderData>
    var patched: seq<nat>
    ghost var stops: set<nat>

    ghost predicate Valid()
      reads this, cache
    {
      && Aimed(p, stops, cache[..]) && Narrow(p, cache[..]) && Decodes(p, stops, cache[..])
      && forall i :: 0 <= i < |patched| ==> patched[i] in stops && patched[i] < p.Count()
    }

    constructor (p: Code, original: array<DecoderData>)
      requires p.Measured() && Chained(p, original[..]) && Narrow(p, original[..])
      requires Decodes(p, Ends(p, original[..]), original[..])
      ensures Valid() && fresh(cache) && this.p == p && patched == []
      ensures cache[..] == original[..] && stops == Ends(p, original[..])
    {
      this.p := p;
      cache := new DecoderData[original.Length](i requires 0 <= i < original.Length reads original => original[i]);
      patched := [];
      stops := Ends(p, original[..]);
      new;
      assert cache[..] == original[..];
      ChainedIsAimed(p, original[..]);
    }

    /** claim, and what its caller does to the entry it returns. */
    method Claim(a: nat, mapping: Word)
      requires Valid() && a < p.Count() && p.IsStart(a)
      modifies this`patched, this`stops, cache
      ensures Valid() && stops == old(stops) + {a} && patched == old(patched) + [a]
      ensures forall j :: 0 <= j < cache.Length && j != a ==>
                cache[j] == old(cache[j]).(idxend := cache[j].idxend, icount := cache[j].icount)
      ensures forall j :: 0 <= j < cache.Length && j != a && !(a !in old(stops) && InBlockOf(p, old(stops), a, j)) ==>
                cache[j] == old(cache[j])
      ensures cache[a] == Native(old(cache[a]), mapping)
    {
      ghost var e0 := cache[..];
      MakeBlockEnding(p, cache, a, stops);
      ghost var e1 := cache[..];
      ClaimKeepsDistances(p, stops, a, e0, e1, mapping);
      DecodesMeansBlockDecodes(p, stops, e0, a);
      ClaimKeepsTheRest(p, stops, a, e0, e1, mapping);
      NotBefore(p, stops, a, a);
      patched := patched + [a];
      cache[a] := Native(cache[a], mapping);
      stops := stops + {a};
      assert cache[..] == e1[a := Native(e1[a], mapping)];
    }

    /** Any claims, in any order: every distance ends at the nearest following block end or
        claimed address, and no other entry changes its bytecode. */
    method ClaimAll(claims: seq<nat>, mappings: seq<Word>)
      requires Valid() && |claims| == |mappings|
      requires forall i :: 0 <= i < |claims| ==> claims[i] < p.Count() && p.IsStart(claims[i])
      modifies this`patched, this`stops, cache
      ensures Valid() && patched == old(patched) + claims
      ensures stops == old(stops) + (set a | a in claims)
      ensures forall j :: 0 <= j < p.Count() && p.IsStart(j) ==> Aims(p, stops, cache[..], j)
      ensures forall j :: 0 <= j < cache.Length ==>
                if j in claims then cache[j].bytecode == NATIVE
                else cache[j] == old(cache[j]).(idxend := cache[j].idxend, icount := cache[j].icount)
    {
      var i := 0;
      while i < |claims|
        invariant 0 <= i <= |claims| && Valid()
        invariant patched == old(patched) + claims[..i]
        invariant stops == old(stops) + (set a | a in claims[..i])
        invariant forall j :: 0 <= j < cache.Length ==>
                    if j in claims[..i] then cache[j].bytecode == NATIVE
                    else cache[j] == old(cache[j]).(idxend := cache[j].idxend, icount := cache[j].icount)
      {
        assert claims[..i + 1] == claims[..i] + [claims[i]];
        Claim(claims[i], mappings[i]);
        i := i + 1;
      }
      assert claims[..i] == claims;
    }
  }
}
