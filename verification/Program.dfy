/**
  A code segment tabulated slot by slot: what an instruction that begins at a given slot
  would be.  The decoder walks, the dispatcher and the live patcher all work on this table,
  and on the one fact about it that the encodings guarantee (Slot.Sound).
 */
module Program {
  import opened Isa

  /** Raw code: the halfwords between begin and begin + 2 * |code|. */
  datatype Segment = Segment(build: Build, begin: nat, code: seq<Half>) {

    ghost predicate Valid() {
      && build.Valid()
      && |code| > 0
      && build.Aligned(begin)
      && (!build.compressed ==> |code| % 2 == 0)
    }

    /** Number of decoder entries that stand for code. */
    function Count(): (n: nat) {
      if build.compressed then |code| else |code| / 2
    }

    /** read_instruction: 32 bits, or the last 16 with zeroes above them. */
    function ReadInstruction(k: nat): (w: Word) {
      if k + 2 <= |code| then (code[k] as nat) + 0x1_0000 * (code[k + 1] as nat)
      else if k + 1 <= |code| then code[k] as nat
      else 0
    }

    function SlotAt(j: nat): (s: Slot)
      requires build.Valid()
      ensures SoundAt(s, j)
    {
      DecodeSlot(build, begin + build.Bytes(j), ReadInstruction(if build.compressed then j else 2 * j),
                 begin, begin + build.Bytes(Count()))
    }

    ghost predicate SoundAt(slot: Slot, j: nat) {
      slot.Sound(build, begin + build.Bytes(j), begin, begin + build.Bytes(Count()))
    }

    /** The table of a segment, which all later stages accept. */
    function Parse(): (p: Code)
      requires Valid()
      ensures p.Valid() && p.Count() == Count() && p.build == build && p.begin == begin
      ensures forall j :: 0 <= j < Count() ==> p.slots[j] == SlotAt(j)
    {
      var p := Code(build, begin, seq(Count(), (j: nat) => SlotAt(j)));
      TableIsSound(p);
      p
    }

    lemma TableIsSound(p: Code)
      requires Valid() && p.build == build && p.begin == begin && p.Count() == Count()
      requires forall j :: 0 <= j < Count() ==> p.slots[j] == SlotAt(j)
      ensures p.Valid()
    {
      forall j | 0 <= j < Count() {
        SlotIsSound(p, SlotAt(j), j);
      }
    }

    lemma SlotIsSound(p: Code, slot: Slot, j: nat)
      requires p.build == build && p.begin == begin && j < p.Count() == Count() && p.slots[j] == slot
      requires SoundAt(slot, j)
      ensures p.SoundAt(j)
    {
    }
  }

  /** The instruction that begins at a slot: its bits, the slots it covers, what it does to
      pc, its displacement, whether the block cutter stops at it, its bytecode, and whether
      the operands rewritten for that bytecode are all zero. */
  datatype Slot = Slot(word: Word, len: nat, cls: Class, offset: int, cuts: bool, decoded: Bytecode, cleared: bool) {

    /** What holds of every encoding at every position of a segment [lo, hi). */
    ghost predicate Sound(build: Build, pc: nat, lo: nat, hi: nat) {
      var f := FlowOf(build, decoded);
      && (len == 1 || len == 2)
      && (!build.compressed ==> len == 1)
      && (cuts <==> MovesPc(cls) && !Unheeded(cls))
      && (word == 0 ==> cls == Plain)
      && (cleared ==> cls in {Plain, Branch, Jump, JumpReg})
      && (cleared && f == Illegal ==> word == 0)
      && (f != Illegal ==> Implements(f, cls, build.Bytes(len)))
      && (f != Illegal && cls in {Branch, Jump} ==> Lands(build, pc, lo, hi, 2))
      && (f == ForwardBranch ==> offset > 0 && Lands(build, pc, lo, hi, 4))
      && f != FunctionBlock && f != Patched
    }

    ghost predicate Lands(build: Build, pc: nat, lo: nat, hi: nat, room: nat) {
      Within(lo, hi, pc + offset, room) && build.Aligned(pc + offset)
    }
  }

  /** What the decoder makes of the word w at pc in a segment [lo, hi). */
  function DecodeSlot(build: Build, pc: nat, w: Word, lo: nat, hi: nat): (s: Slot)
    requires build.Valid()
    ensures s.Sound(build, pc, lo, hi)
  {
    CutterFollowsClass(build, w);
    ZeroIsPlain(build);
    FlowIllegal(build, DecodedBytecode(build, pc, w, lo, hi));
    DecodedHandlers(build, pc, w, lo, hi);
    ClearedClass(build, pc, w, lo, hi);
    Slot(w, Slots(build, w), ClassOf(build, w), Offset(build, w), CutsBlock(build, w),
         DecodedBytecode(build, pc, w, lo, hi), Cleared(build, w, DecodedBytecode(build, pc, w, lo, hi)))
  }

  datatype Code = Code(build: Build, begin: nat, slots: seq<Slot>) {

    function Count(): nat { |slots| }

    function AddressOf(j: nat): nat { begin + build.Bytes(j) }

    function End(): nat { AddressOf(Count()) }

    ghost predicate SoundAt(j: nat)
      requires j < |slots|
    {
      slots[j].Sound(build, AddressOf(j), begin, End())
    }

    ghost predicate Valid() {
      && |slots| > 0
      && build.Aligned(begin)
      && forall j {:trigger SoundAt(j)} :: 0 <= j < |slots| ==> SoundAt(j)
    }

    /** The part of Valid that the walks over the code need. */
    ghost predicate Measured() {
      forall j {:trigger slots[j].len} :: 0 <= j < |slots| ==>
        (slots[j].len == 1 || slots[j].len == 2) && (!build.compressed ==> slots[j].len == 1)
    }

    /** Slot j is where an instruction of the linear sweep from slot 0 begins. */
    predicate IsStart(j: nat)
      requires j <= |slots|
    {
      j == 0 || !(IsStart(j - 1) && slots[j - 1].len == 2)
    }
  }

  lemma DecodedHandlers(build: Build, pc: nat, w: Word, lo: nat, hi: nat)
    requires build.Valid()
    ensures var bc := DecodedBytecode(build, pc, w, lo, hi);
            var f := FlowOf(build, bc);
            bc != INVALID ==>
              && Implements(f, ClassOf(build, w), Length(build, w))
              && (ClassOf(build, w) in {Branch, Jump} ==> TargetInside(build, pc, w, lo, hi, 2))
              && (f == ForwardBranch ==> Offset(build, w) > 0 && TargetInside(build, pc, w, lo, hi, 4))
  {
    if DecodedBytecode(build, pc, w, lo, hi) != INVALID {
      BytecodeImplementsClass(build, pc, w, lo, hi);
    }
  }

  lemma ZeroIsPlain(build: Build)
    ensures ClassOf(build, 0) == Plain
  {
  }

  lemma FlowIllegal(build: Build, bc: Bytecode)
    ensures FlowOf(build, bc) == Illegal <==> bc == INVALID
  {
  }
}
