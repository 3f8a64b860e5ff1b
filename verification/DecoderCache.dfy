/**
  The decoder cache of an execute segment: one entry per 2-byte (or, without the
  C-extension, 4-byte) slot.  A first walk gives every instruction its bytecode, a second
  walk gives it the distance to the end of its block and the number of instructions on
  the way there.  Both walks are specified by definitions that follow the code only.
 */
module DecoderCache {
  import opened Isa
  import opened Program

  datatype DecoderData = DecoderData(bytecode: Bytecode, handler: nat, idxend: nat, icount: nat, instr: Word)

  const ZERO_ENTRY := DecoderData(INVALID, 0, 0, 0, 0)

  function BlockBytes(build: Build, e: DecoderData): (n: nat) {
    build.Bytes(e.idxend)
  }

  function InstructionCount(build: Build, e: DecoderData): (n: nat) {
    if build.compressed then e.icount else e.idxend + 1
  }

  // -------------------------------------------------------------------------
  // The linear sweep
  // -------------------------------------------------------------------------

  /** The walk of realize_fastsim: from slot j, instruction by instruction. */
  ghost function Sweep(p: Code, j: nat): (s: seq<nat>)
    requires p.Measured()
    decreases p.Count() - j
  {
    if j >= p.Count() then [] else [j] + Sweep(p, j + p.slots[j].len)
  }

  /** Both walks visit the same instructions. */
  lemma SweepVisitsStarts(p: Code, j: nat)
    requires p.Measured() && j < p.Count()
    ensures p.IsStart(j) <==> j in Sweep(p, 0)
  {
    if p.Count() > 0 {
      SweepFrom(p, 0, j);
    }
  }

  lemma {:induction false} SweepFrom(p: Code, i: nat, j: nat)
    requires p.Measured() && i < p.Count() && p.IsStart(i) && j < p.Count()
    ensures j in Sweep(p, i) <==> i <= j && p.IsStart(j)
    decreases p.Count() - i
  {
    var next := i + p.slots[i].len;
    NextIsStart(p, i);
    if next < p.Count() {
      SweepFrom(p, next, j);
    }
  }

  lemma NextIsStart(p: Code, j: nat)
    requires p.Measured() && j < p.Count() && p.IsStart(j)
    ensures j + p.slots[j].len <= p.Count() ==> p.IsStart(j + p.slots[j].len)
    ensures p.slots[j].len == 2 && j + 1 <= p.Count() ==> !p.IsStart(j + 1)
  {
    if p.slots[j].len == 2 {
      assert !p.IsStart(j + 1);
    }
  }

  lemma UncompressedStarts(p: Code, j: nat)
    requires p.Measured() && !p.build.compressed && j <= p.Count()
    ensures p.IsStart(j)
  {
  }

  /** The instruction before the one at j. */
  ghost function Prev(p: Code, j: nat): (i: nat)
    requires p.Measured() && 0 < j <= p.Count() && p.IsStart(j)
    ensures i < j && p.IsStart(i) && i + p.slots[i].len == j
  {
    if p.IsStart(j - 1) then j - 1 else j - 2
  }

  // -------------------------------------------------------------------------
  // Blocks, with the C-extension
  // -------------------------------------------------------------------------

  const MAX_BLOCK := 255

  /** Slots between the start of the block and the instruction at j. */
  ghost function BlockOffset(p: Code, j: nat): (o: nat)
    requires p.Measured() && j < p.Count() && p.IsStart(j)
    decreases j, 0
  {
    if j == 0 || EndsBlock(p, Prev(p, j)) then 0
    else var i := Prev(p, j); BlockOffset(p, i) + p.slots[i].len
  }

  /** The instruction at j is the last of its block: it moves pc, or the segment ends
      with it, or the block would otherwise grow to MAX_BLOCK slots. */
  ghost predicate EndsBlock(p: Code, j: nat)
    requires p.Measured() && j < p.Count() && p.IsStart(j)
    decreases j, 1
  {
    p.slots[j].cuts || j + p.slots[j].len >= p.Count() || BlockOffset(p, j) + p.slots[j].len >= MAX_BLOCK
  }

  /** Slots from j to the last instruction of its block. */
  ghost function Distance(p: Code, j: nat): (d: nat)
    requires p.Measured() && j < p.Count() && p.IsStart(j)
    decreases p.Count() - j
  {
    if EndsBlock(p, j) then 0
    else
      NextIsStart(p, j);
      p.slots[j].len + Distance(p, j + p.slots[j].len)
  }

  /** Instructions from j to the end of its block, both included. */
  ghost function Remaining(p: Code, j: nat): (c: nat)
    requires p.Measured() && j < p.Count() && p.IsStart(j)
    ensures c >= 1
    decreases p.Count() - j
  {
    if EndsBlock(p, j) then 1
    else
      NextIsStart(p, j);
      1 + Remaining(p, j + p.slots[j].len)
  }

  /** The bytecode an instruction ends up with. */
  ghost function FinalBytecode(p: Code, j: nat): (bc: Bytecode)
    requires p.Measured() && j < p.Count() && p.IsStart(j)
  {
    var next := j + p.slots[j].len;
    if next > p.Count() then INVALID
    else if p.slots[j].cuts then p.slots[j].decoded
    else if next == p.Count() then INVALID
    else if BlockOffset(p, j) + p.slots[j].len >= MAX_BLOCK then FUNCBLOCK
    else p.slots[j].decoded
  }

  lemma PrevOfNext(p: Code, j: nat)
    requires p.Measured() && j < p.Count() && p.IsStart(j) && j + p.slots[j].len < p.Count()
    ensures var next := j + p.slots[j].len; p.IsStart(next) && Prev(p, next) == j
  {
    NextIsStart(p, j);
  }

  /** The offset within a block stays below the limit, so neither the distance nor the
      instruction count can outgrow an 8-bit field. */
  lemma {:induction false} FieldsFit(p: Code, j: nat)
    requires p.Measured() && j < p.Count() && p.IsStart(j)
    ensures BlockOffset(p, j) + Distance(p, j) <= 254
    ensures BlockOffset(p, j) + Remaining(p, j) <= 255
    decreases p.Count() - j
  {
    assert BlockOffset(p, j) <= 254;
    if !EndsBlock(p, j) {
      PrevOfNext(p, j);
      FieldsFit(p, j + p.slots[j].len);
    }
  }

  // -------------------------------------------------------------------------
  // Blocks, without the C-extension
  // -------------------------------------------------------------------------

  const MAX_IDXEND := 65535

  ghost function WideDistance(p: Code, j: nat): (d: nat)
    requires j < p.Count()
    ensures d < MAX_IDXEND
    decreases p.Count() - j
  {
    if j + 1 == p.Count() || p.slots[j].cuts || WideDistance(p, j + 1) + 1 == MAX_IDXEND then 0
    else WideDistance(p, j + 1) + 1
  }

  ghost function WideBytecode(p: Code, j: nat): (bc: Bytecode)
    requires j < p.Count()
  {
    if j + 1 < p.Count() && !p.slots[j].cuts && WideDistance(p, j + 1) + 1 == MAX_IDXEND then FUNCBLOCK
    else p.slots[j].decoded
  }

  // -------------------------------------------------------------------------
  // What the dispatcher and the live patcher rely on
  // -------------------------------------------------------------------------

  /** The entry of a swept instruction: either the block ends here, or the next
      instruction is one instruction and its own length closer to the end. */
  ghost predicate Linked(p: Code, e: seq<DecoderData>, j: nat)
    requires p.Count() < |e| && j < p.Count()
  {
    var next := j + p.slots[j].len;
    && e[j].instr == p.slots[j].word
    && (e[j].bytecode == p.slots[j].decoded
        || (e[j].bytecode == INVALID && (next > p.Count() || (next == p.Count() && !p.slots[j].cuts)))
        || (e[j].bytecode == FUNCBLOCK && e[j].idxend == 0 && next < p.Count() && !p.slots[j].cuts))
    && (p.slots[j].cuts ==> e[j].idxend == 0)
    && (next > p.Count() ==> e[j].bytecode == INVALID)
    && (if e[j].idxend == 0 then
          && InstructionCount(p.build, e[j]) == 1
          && (p.slots[j].cuts || next >= p.Count() || e[j].bytecode == FUNCBLOCK)
        else
          && next < p.Count()
          && e[j].idxend == p.slots[j].len + e[next].idxend
          && InstructionCount(p.build, e[j]) == 1 + InstructionCount(p.build, e[next]))
  }

  /** An entry in the middle of an instruction: invalid, and with nothing to count. */
  ghost predicate Blank(e: seq<DecoderData>, j: nat)
    requires j < |e|
  {
    e[j] == ZERO_ENTRY
  }

  ghost predicate Chained(p: Code, e: seq<DecoderData>) {
    && p.Count() < |e|
    && e[p.Count()] == ZERO_ENTRY
    && (forall j {:trigger Linked(p, e, j)} :: 0 <= j < p.Count() && p.IsStart(j) ==> Linked(p, e, j))
    && (forall j {:trigger Blank(e, j)} :: 0 <= j < p.Count() && !p.IsStart(j) ==> Blank(e, j))
  }

  // -------------------------------------------------------------------------
  // The first walk
  // -------------------------------------------------------------------------

  ghost function FirstPass(p: Code, j: nat): DecoderData
    requires j < p.Count()
  {
    if p.IsStart(j) then DecoderData(p.slots[j].decoded, 0, 0, 0, p.slots[j].word) else ZERO_ENTRY
  }

  /** decode_execute_range, on a cache that starts out zeroed. */
  method DecodeExecuteRange(p: Code, cache: array<DecoderData>)
    requires p.Measured() && p.Count() < cache.Length
    requires forall j :: 0 <= j < cache.Length ==> cache[j] == ZERO_ENTRY
    modifies cache
    ensures forall j :: 0 <= j < p.Count() ==> cache[j] == FirstPass(p, j)
    ensures forall j :: p.Count() <= j < cache.Length ==> cache[j] == ZERO_ENTRY
  {
    var wasFullInstruction := true;
    var dst := 0;
    while dst < p.Count()
      invariant 0 <= dst <= p.Count()
      invariant wasFullInstruction == p.IsStart(dst)
      invariant forall j :: 0 <= j < dst ==> cache[j] == FirstPass(p, j)
      invariant forall j :: dst <= j < cache.Length ==> cache[j] == ZERO_ENTRY
    {
      cache[dst] := cache[dst].(handler := 0, idxend := 0);
      var instruction := p.slots[dst];
      if !p.build.compressed || wasFullInstruction {
        cache[dst] := cache[dst].(bytecode := instruction.decoded, instr := instruction.word);
      } else {
        cache[dst] := cache[dst].(handler := 0, bytecode := INVALID);
      }
      if p.build.compressed {
        if wasFullInstruction {
          wasFullInstruction := instruction.len == 1;
        } else {
          wasFullInstruction := true;
        }
      }
      dst := dst + 1;
    }
  }

  // -------------------------------------------------------------------------
  // The second walk
  // -------------------------------------------------------------------------

  datatype EntryAndCount = EntryAndCount(entry: nat, count: nat)

  /** The recorded instructions follow one another from slot start. */
  ghost predicate Recorded(p: Code, block: seq<EntryAndCount>, start: nat) {
    && (forall i :: 0 <= i < |block| ==> block[i].entry < p.Count() && block[i].count == p.slots[block[i].entry].len)
    && (|block| > 0 ==> block[0].entry == start)
    && (forall i, k :: 0 <= i < |block| && k == i + 1 < |block| ==> block[k].entry == block[i].entry + block[i].count)
  }

  lemma {:induction false} RecordedIncreases(p: Code, block: seq<EntryAndCount>, start: nat, i: nat, k: nat)
    requires p.Measured() && Recorded(p, block, start) && i <= k < |block|
    ensures block[i].entry + (k - i) <= block[k].entry
    decreases k
  {
    if i < k {
      RecordedIncreases(p, block, start, i, k - 1);
    }
  }

  lemma RecordedOnce(p: Code, block: seq<EntryAndCount>, start: nat, i: nat)
    requires p.Measured() && Recorded(p, block, start) && i < |block|
    ensures forall k :: 0 <= k < |block| && k != i ==> block[k].entry != block[i].entry
  {
    forall k | 0 <= k < |block| && k != i
      ensures block[k].entry != block[i].entry
    {
      RecordedIncreases(p, block, start, if k < i then k else i, if k < i then i else k);
    }
  }

  /** Entry j of the cache after a block of n recorded instructions has been filled in. */
  ghost function Filled(block: seq<EntryAndCount>, i: nat, was: DecoderData): DecoderData
    requires i < |block|
  {
    was.(idxend := (block[|block| - 1].entry - block[i].entry) % 256, icount := (|block| - i) % 256)
  }

  ghost predicate InBlock(block: seq<EntryAndCount>, j: nat) {
    exists i :: 0 <= i < |block| && block[i].entry == j
  }

  /** The first n recorded entries have been filled in. */
  ghost predicate FilledTo(block: seq<EntryAndCount>, e0: seq<DecoderData>, e: seq<DecoderData>, n: nat) {
    && |e| == |e0|
    && (forall i {:trigger block[i]} :: 0 <= i < |block| ==>
          && block[i].entry < |e|
          && e[block[i].entry] == if i < n then Filled(block, i, e0[block[i].entry]) else e0[block[i].entry])
    && (forall j {:trigger InBlock(block, j)} {:trigger e[j]} :: 0 <= j < |e| && !InBlock(block, j) ==> e[j] == e0[j])
  }

  ghost predicate FilledIn(block: seq<EntryAndCount>, e0: seq<DecoderData>, e: seq<DecoderData>) {
    FilledTo(block, e0, e, |block|)
  }

  lemma FillOne(p: Code, block: seq<EntryAndCount>, start: nat, e0: seq<DecoderData>, e: seq<DecoderData>, i: nat)
    requires p.Measured() && Recorded(p, block, start) && i < |block| && FilledTo(block, e0, e, i)
    ensures FilledTo(block, e0, e[block[i].entry := Filled(block, i, e0[block[i].entry])], i + 1)
  {
    RecordedOnce(p, block, start, i);
    assert InBlock(block, block[i].entry);
  }

  /** fill_entries: every recorded entry learns how far the last one is, through fields
      that hold eight bits.  The result is false where the source throws. */
  method FillEntries(p: Code, cache: array<DecoderData>, block: seq<EntryAndCount>, blockPc: nat, currentPc: nat)
    returns (ok: bool)
    requires p.Measured() && |block| > 0 && Recorded(p, block, blockPc) && p.Count() < cache.Length
    requires currentPc == block[|block| - 1].entry + block[|block| - 1].count
    modifies cache
    ensures ok <==> block[|block| - 1].entry - blockPc <= 255
    ensures !ok ==> cache[..] == old(cache[..])
    ensures ok ==> FilledIn(block, old(cache[..]), cache[..])
  {
    var lastCount := block[|block| - 1].count;
    RecordedIncreases(p, block, blockPc, 0, |block| - 1);
    var count: int := currentPc - blockPc;
    count := count - lastCount;
    if count > 255 {
      return false;
    }
    var i := 0;
    ghost var e0 := cache[..];
    while i < |block|
      invariant 0 <= i <= |block|
      invariant i < |block| ==> count == block[|block| - 1].entry - block[i].entry
      invariant FilledTo(block, e0, cache[..], i)
    {
      var tuple := block[i];
      FillOne(p, block, blockPc, e0, cache[..], i);
      ghost var e := cache[..];
      cache[tuple.entry] := cache[tuple.entry].(idxend := count % 256, icount := (|block| - i) % 256);
      assert cache[..] == e[tuple.entry := Filled(block, i, e0[tuple.entry])];
      count := count - tuple.count;
      i := i + 1;
    }
    return true;
  }

  /** Entry j once both walks are done. */
  ghost function Realized(p: Code, j: nat): DecoderData
    requires p.Measured() && j < p.Count()
  {
    if p.IsStart(j) then DecoderData(FinalBytecode(p, j), 0, Distance(p, j), Remaining(p, j), p.slots[j].word)
    else ZERO_ENTRY
  }

  /** The recorded instructions are starts, and only the last may end the block. */
  ghost predicate OneBlock(p: Code, block: seq<EntryAndCount>, start: nat)
    requires p.Measured()
  {
    && Recorded(p, block, start)
    && (forall i :: 0 <= i < |block| ==> p.IsStart(block[i].entry))
    && (forall i :: 0 <= i < |block| - 1 ==> !EndsBlock(p, block[i].entry))
  }

  lemma {:induction false} BlockValues(p: Code, block: seq<EntryAndCount>, start: nat, i: nat)
    requires p.Measured() && OneBlock(p, block, start) && i < |block|
    requires EndsBlock(p, block[|block| - 1].entry)
    ensures Distance(p, block[i].entry) == block[|block| - 1].entry - block[i].entry
    ensures Remaining(p, block[i].entry) == |block| - i
    decreases |block| - i
  {
    if i < |block| - 1 {
      BlockValues(p, block, start, i + 1);
    }
  }

  /** No instruction of the range is left out of the record. */
  lemma {:induction false} BlockCovers(p: Code, block: seq<EntryAndCount>, start: nat, n: nat, j: nat)
    requires p.Measured() && OneBlock(p, block, start) && 0 < n <= |block|
    requires start <= j < block[n - 1].entry + block[n - 1].count && j < p.Count() && p.IsStart(j)
    ensures exists i :: 0 <= i < |block| && block[i].entry == j
    decreases n
  {
    if j < block[n - 1].entry {
      RecordedIncreases(p, block, start, 0, n - 1);
      BlockCovers(p, block, start, n - 1, j);
    } else if j > block[n - 1].entry {
      NextIsStart(p, block[n - 1].entry);
    }
  }

  /** What one step of the inner walk keeps: everything recorded runs on, and entry is next. */
  ghost predicate Walking(p: Code, block: seq<EntryAndCount>, start: nat, entry: nat)
    requires p.Measured()
  {
    && OneBlock(p, block, start)
    && entry < p.Count() && p.IsStart(entry)
    && BlockOffset(p, entry) == entry - start < MAX_BLOCK
    && |block| <= entry - start
    && (if |block| == 0 then entry == start
        else entry == block[|block| - 1].entry + block[|block| - 1].count && !EndsBlock(p, block[|block| - 1].entry))
  }

  lemma Record(p: Code, block: seq<EntryAndCount>, start: nat, entry: nat)
    requires p.Measured() && Walking(p, block, start, entry)
    ensures OneBlock(p, block + [EntryAndCount(entry, p.slots[entry].len)], start)
  {
  }

  lemma OffsetOfNext(p: Code, j: nat)
    requires p.Measured() && j < p.Count() && p.IsStart(j) && !EndsBlock(p, j)
    ensures var next := j + p.slots[j].len;
            next < p.Count() && p.IsStart(next)
              && BlockOffset(p, next) == BlockOffset(p, j) + p.slots[j].len < MAX_BLOCK
  {
    PrevOfNext(p, j);
  }

  lemma WalkOn(p: Code, block: seq<EntryAndCount>, start: nat, entry: nat)
    requires p.Measured() && Walking(p, block, start, entry) && !EndsBlock(p, entry)
    ensures Walking(p, block + [EntryAndCount(entry, p.slots[entry].len)], start, entry + p.slots[entry].len)
  {
    Record(p, block, start, entry);
    OffsetOfNext(p, entry);
  }

  /** With the walk at entry, the end-of-block test and the final bytecode need only
      the distance from the start of the block. */
  lemma EndTest(p: Code, block: seq<EntryAndCount>, start: nat, entry: nat)
    requires p.Measured() && Walking(p, block, start, entry)
    ensures var next := entry + p.slots[entry].len;
            && (EndsBlock(p, entry) <==> p.slots[entry].cuts || next >= p.Count() || next - start >= MAX_BLOCK)
            && FinalBytecode(p, entry) ==
                 if next > p.Count() then INVALID
                 else if p.slots[entry].cuts then p.slots[entry].decoded
                 else if next == p.Count() then INVALID
                 else if next - start >= MAX_BLOCK then FUNCBLOCK
                 else p.slots[entry].decoded
  {
  }

  /** The record covers one whole block, up to pc. */
  ghost predicate WholeBlock(p: Code, block: seq<EntryAndCount>, start: nat, pc: nat)
    requires p.Measured()
  {
    && |block| > 0 && OneBlock(p, block, start)
    && EndsBlock(p, block[|block| - 1].entry)
    && pc == block[|block| - 1].entry + block[|block| - 1].count
    && 0 <= block[|block| - 1].entry - start <= 254
  }

  lemma EndWalk(p: Code, block: seq<EntryAndCount>, start: nat, entry: nat)
    requires p.Measured() && Walking(p, block, start, entry) && EndsBlock(p, entry)
    ensures WholeBlock(p, block + [EntryAndCount(entry, p.slots[entry].len)], start, entry + p.slots[entry].len)
  {
    Record(p, block, start, entry);
  }

  /** Whether the block ends with the instruction at entry, and the bytecode that it then gets. */
  method TestEnd(p: Code, entry: nat, blockPc: nat, ghost block: seq<EntryAndCount>)
    returns (ends: bool, bytecode: Bytecode)
    requires p.Measured() && Walking(p, block, blockPc, entry)
    ensures ends <==> EndsBlock(p, entry)
    ensures ends ==> bytecode == FinalBytecode(p, entry)
  {
    EndTest(p, block, blockPc, entry);
    var instruction := p.slots[entry];
    var pc := entry + instruction.len;
    if pc > p.Count() {
      return true, INVALID;
    }
    if instruction.cuts {
      return true, instruction.decoded;
    }
    if pc >= p.Count() {
      return true, INVALID;
    }
    if pc - blockPc >= 255 {
      return true, FUNCBLOCK;
    }
    return false, INVALID;
  }

  /** The inner loop of realize_fastsim: record instructions up to the end of the block,
      in an array of 256, and find the bytecode that the last of them gets. */
  method WalkBlock(p: Code, blockArray: array<EntryAndCount>, blockPc: nat)
    returns (blockArrayCount: nat, pc: nat, last: nat, bytecode: Bytecode)
    requires p.Measured() && blockArray.Length == 256
    requires blockPc < p.Count() && p.IsStart(blockPc) && BlockOffset(p, blockPc) == 0
    modifies blockArray
    ensures blockArrayCount <= 256 && WholeBlock(p, blockArray[..blockArrayCount], blockPc, pc)
    ensures last == blockArray[blockArrayCount - 1].entry && bytecode == FinalBytecode(p, last)
  {
    pc := blockPc;
    blockArrayCount := 0;
    assert Walking(p, blockArray[..0], blockPc, pc);
    while true
      invariant blockArrayCount <= 255 && Walking(p, blockArray[..blockArrayCount], blockPc, pc)
      decreases p.Count() - pc
    {
      ghost var block := blockArray[..blockArrayCount];
      last := pc;
      var ends: bool;
      ends, bytecode := TestEnd(p, last, blockPc, block);
      blockArray[blockArrayCount] := EntryAndCount(last, p.slots[last].len);
      blockArrayCount := blockArrayCount + 1;
      assert blockArray[..blockArrayCount] == block + [EntryAndCount(last, p.slots[last].len)];
      pc := pc + p.slots[last].len;
      if ends {
        EndWalk(p, block, blockPc, last);
        break;
      }
      WalkOn(p, block, blockPc, last);
    }
  }

  ghost predicate Raw(p: Code, e: seq<DecoderData>, lo: nat)
    requires p.Count() < |e|
  {
    forall j :: lo <= j < p.Count() ==> e[j] == FirstPass(p, j)
  }

  ghost predicate Done(p: Code, e: seq<DecoderData>, lo: nat, hi: nat)
    requires p.Measured() && p.Count() < |e|
  {
    forall j :: lo <= j < hi && j < p.Count() ==> e[j] == Realized(p, j)
  }

  /** A place where realize_fastsim begins a block, or the end of the segment. */
  ghost predicate BlockBegins(p: Code, pc: nat)
    requires p.Measured()
  {
    pc < p.Count() ==> p.IsStart(pc) && BlockOffset(p, pc) == 0
  }

  /** realize_fastsim with the C-extension.  No block throws. */
  method RealizeFastsim(p: Code, cache: array<DecoderData>)
    requires p.Measured() && p.build.compressed && 0 < p.Count() < cache.Length
    requires Raw(p, cache[..], 0)
    modifies cache
    ensures Done(p, cache[..], 0, p.Count())
    ensures forall j :: p.Count() <= j < cache.Length ==> cache[j] == old(cache[j])
  {
    var blockArray := new EntryAndCount[256](_ => EntryAndCount(0, 0));
    var pc := 0;
    while pc < p.Count()
      invariant BlockBegins(p, pc)
      invariant Done(p, cache[..], 0, pc) && Raw(p, cache[..], pc)
      invariant forall j :: p.Count() <= j < cache.Length ==> cache[j] == old(cache[j])
      decreases p.Count() - pc
    {
      ghost var before, lo := cache[..], pc;
      pc := RealizeBlock(p, cache, blockArray, pc);
      assert Done(p, cache[..], 0, lo) by {
        assert forall j :: 0 <= j < lo ==> cache[..][j] == before[j];
      }
    }
  }

  /** One turn of the outer loop of realize_fastsim. */
  method RealizeBlock(p: Code, cache: array<DecoderData>, blockArray: array<EntryAndCount>, blockPc: nat)
    returns (pc: nat)
    requires p.Measured() && p.build.compressed && blockPc < p.Count() < cache.Length && blockArray.Length == 256
    requires BlockBegins(p, blockPc) && Raw(p, cache[..], blockPc)
    modifies cache, blockArray
    ensures pc > blockPc && BlockBegins(p, pc)
    ensures Done(p, cache[..], blockPc, pc) && Raw(p, cache[..], pc)
    ensures forall j :: 0 <= j < blockPc || p.Count() <= j < cache.Length ==> cache[j] == old(cache[j])
  {
    var blockArrayCount, last, bytecode;
    blockArrayCount, pc, last, bytecode := WalkBlock(p, blockArray, blockPc);
    var block := blockArray[..blockArrayCount];
    cache[last] := cache[last].(bytecode := bytecode, handler := 0);
    assert cache[..] == old(cache[..])[last := old(cache[last]).(bytecode := bytecode, handler := 0)];
    ghost var ended := cache[..];
    var ok := FillEntries(p, cache, block, blockPc, pc);
    assert ok;
    BlockIsRealized(p, block, blockPc, pc, old(cache[..]), ended, cache[..]);
  }

  lemma RecordedRange(p: Code, block: seq<EntryAndCount>, start: nat)
    requires p.Measured() && Recorded(p, block, start)
    ensures forall i :: 0 <= i < |block| ==> start <= block[i].entry <= block[|block| - 1].entry
  {
    forall i | 0 <= i < |block|
      ensures start <= block[i].entry <= block[|block| - 1].entry
    {
      RecordedIncreases(p, block, start, 0, i);
      RecordedIncreases(p, block, start, i, |block| - 1);
    }
  }

  lemma EntryIsRealized(p: Code, block: seq<EntryAndCount>, start: nat, pc: nat, i: nat, d: DecoderData)
    requires p.Measured() && WholeBlock(p, block, start, pc) && i < |block|
    requires d == Filled(block, i, FirstPass(p, block[i].entry).(bytecode := FinalBytecode(p, block[i].entry)))
    ensures d == Realized(p, block[i].entry)
  {
    BlockValues(p, block, start, i);
    FieldsFit(p, block[i].entry);
  }

  lemma RunsOn(p: Code, block: seq<EntryAndCount>, start: nat, i: nat)
    requires p.Measured() && OneBlock(p, block, start) && i < |block| - 1
    ensures FinalBytecode(p, block[i].entry) == p.slots[block[i].entry].decoded
  {
  }

  /** What cutting, patching and filling one block leaves behind. */
  ghost predicate BlockWritten(p: Code, block: seq<EntryAndCount>, start: nat, pc: nat, e0: seq<DecoderData>,
                               e1: seq<DecoderData>, e: seq<DecoderData>)
    requires p.Measured() && p.Count() < |e0|
  {
    && WholeBlock(p, block, start, pc)
    && Raw(p, e0, start)
    && (var last := block[|block| - 1].entry;
        e1 == e0[last := e0[last].(bytecode := FinalBytecode(p, last), handler := 0)])
    && FilledIn(block, e1, e)
  }

  lemma StartIsRealized(p: Code, block: seq<EntryAndCount>, start: nat, pc: nat, e0: seq<DecoderData>,
                        e1: seq<DecoderData>, e: seq<DecoderData>, i: nat)
    requires p.Measured() && p.Count() < |e0| && BlockWritten(p, block, start, pc, e0, e1, e)
    requires i < |block|
    ensures e[block[i].entry] == Realized(p, block[i].entry)
  {
    var j := block[i].entry;
    RecordedIncreases(p, block, start, 0, i);
    assert e0[j] == FirstPass(p, j);
    if i < |block| - 1 {
      RecordedIncreases(p, block, start, i, |block| - 1);
      RunsOn(p, block, start, i);
    }
    EntryIsRealized(p, block, start, pc, i, e[j]);
  }

  lemma BlockIsRealized(p: Code, block: seq<EntryAndCount>, start: nat, pc: nat, e0: seq<DecoderData>,
                        e1: seq<DecoderData>, e: seq<DecoderData>)
    requires p.Measured() && p.Count() < |e0| && BlockWritten(p, block, start, pc, e0, e1, e)
    ensures |e| == |e0| && pc > start && BlockBegins(p, pc)
    ensures Done(p, e, start, pc) && Raw(p, e, pc)
    ensures forall j :: 0 <= j < start || p.Count() <= j < |e| ==> e[j] == e0[j]
  {
    RecordedRange(p, block, start);
    forall j | start <= j < pc && j < p.Count()
      ensures e[j] == Realized(p, j)
    {
      if p.IsStart(j) {
        BlockCovers(p, block, start, |block|, j);
        var i :| 0 <= i < |block| && block[i].entry == j;
        StartIsRealized(p, block, start, pc, e0, e1, e, i);
      } else {
        assert !InBlock(block, j);
      }
    }
    EndBeginsNext(p, block, start, pc);
  }

  lemma EndBeginsNext(p: Code, block: seq<EntryAndCount>, start: nat, pc: nat)
    requires p.Measured() && WholeBlock(p, block, start, pc)
    ensures BlockBegins(p, pc)
  {
    if pc < p.Count() {
      PrevOfNext(p, block[|block| - 1].entry);
    }
  }

  // -------------------------------------------------------------------------
  // The second walk without the C-extension
  // -------------------------------------------------------------------------

  ghost function WideRealized(p: Code, j: nat): DecoderData
    requires j < p.Count()
  {
    DecoderData(WideBytecode(p, j), 0, WideDistance(p, j), 0, p.slots[j].word)
  }

  /** realize_fastsim without the C-extension: one walk backwards. */
  method RealizeFastsimWide(p: Code, cache: array<DecoderData>)
    requires p.Measured() && !p.build.compressed && 0 < p.Count() < cache.Length
    requires Raw(p, cache[..], 0)
    modifies cache
    ensures forall j :: 0 <= j < p.Count() ==> cache[j] == WideRealized(p, j)
    ensures forall j :: p.Count() <= j < cache.Length ==> cache[j] == old(cache[j])
  {
    var idxend := 0;
    var pc := p.Count() - 1;
    while pc >= 0
      invariant -1 <= pc < p.Count()
      invariant idxend == if pc == p.Count() - 1 then 0 else WideDistance(p, pc + 1) + 1
      invariant forall j :: 0 <= j <= pc ==> cache[j] == FirstPass(p, j)
      invariant forall j :: pc < j < p.Count() ==> cache[j] == WideRealized(p, j)
      invariant forall j :: p.Count() <= j < cache.Length ==> cache[j] == old(cache[j])
    {
      UncompressedStarts(p, pc);
      if p.slots[pc].cuts {
        idxend := 0;
      }
      if idxend == 65535 {
        cache[pc] := cache[pc].(bytecode := FUNCBLOCK, handler := 0, instr := p.slots[pc].word);
        idxend := 0;
      }
      cache[pc] := cache[pc].(idxend := idxend % 0x1_0000);
      idxend := idxend + 1;
      pc := pc - 1;
    }
  }

  // -------------------------------------------------------------------------
  // The whole cache
  // -------------------------------------------------------------------------

  lemma EndIsLinked(p: Code, e: seq<DecoderData>, j: nat)
    requires p.Measured() && p.build.compressed && j < p.Count() < |e| && p.IsStart(j)
    requires e[j] == Realized(p, j) && EndsBlock(p, j)
    ensures Linked(p, e, j)
  {
  }

  lemma InnerIsLinked(p: Code, e: seq<DecoderData>, j: nat)
    requires p.Measured() && p.build.compressed && j < p.Count() < |e| && p.IsStart(j) && !EndsBlock(p, j)
    requires var next := j + p.slots[j].len;
             p.IsStart(next) && e[j] == Realized(p, j) && e[next] == Realized(p, next)
    ensures Linked(p, e, j)
  {
  }

  lemma RealizedIsLinked(p: Code, e: seq<DecoderData>, j: nat)
    requires p.Measured() && p.build.compressed && j < p.Count() < |e| && p.IsStart(j)
    requires Done(p, e, 0, p.Count())
    ensures Linked(p, e, j)
  {
    if EndsBlock(p, j) {
      EndIsLinked(p, e, j);
    } else {
      NextIsStart(p, j);
      InnerIsLinked(p, e, j);
    }
  }

  lemma WideRealizedIsLinked(p: Code, e: seq<DecoderData>, j: nat)
    requires p.Measured() && !p.build.compressed && j < p.Count() < |e|
    requires forall k :: 0 <= k < p.Count() ==> e[k] == WideRealized(p, k)
    ensures Linked(p, e, j)
  {
    assert p.slots[j].len == 1;
    if j + 1 < p.Count() {
      assert e[j + 1] == WideRealized(p, j + 1);
    }
  }

  /** generate_decoder_cache: room for one extra invalid entry, both walks, and a cache in
      which every entry knows the way to the end of its block. */
  method GenerateDecoderCache(p: Code) returns (cache: array<DecoderData>)
    requires p.Measured() && p.Count() > 0
    ensures fresh(cache) && Chained(p, cache[..])
    ensures p.build.compressed ==> Done(p, cache[..], 0, p.Count())
    ensures !p.build.compressed ==> forall j :: 0 <= j < p.Count() ==> cache[j] == WideRealized(p, j)
  {
    var nEntries := p.Count() + 8 / p.build.SlotBytes();
    cache := new DecoderData[nEntries](_ => ZERO_ENTRY);
    DecodeExecuteRange(p, cache);
    cache[p.Count()] := cache[p.Count()].(bytecode := INVALID, handler := 0, idxend := 0);
    assert Raw(p, cache[..], 0);
    if p.build.compressed {
      RealizeFastsim(p, cache);
      forall j | 0 <= j < p.Count() && p.IsStart(j)
        ensures Linked(p, cache[..], j)
      {
        RealizedIsLinked(p, cache[..], j);
      }
    } else {
      RealizeFastsimWide(p, cache);
      forall j | 0 <= j < p.Count()
        ensures Linked(p, cache[..], j) && p.IsStart(j)
      {
        WideRealizedIsLinked(p, cache[..], j);
        UncompressedStarts(p, j);
      }
    }
  }
}
