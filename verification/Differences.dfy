/**
  Segments on which block dispatch and simulate_precise part, with a run of both: an instruction
  that reads the counter, at the limit; a C.EBREAK and an encoding unknown to decode whose handlers
  stop the machine; a C.JALR through the link register; a branch out of the segment that is not
  taken; and a store of which rewriting leaves no bit.
 */
module Differences {
  import opened Isa
  import opened Program
  import opened DecoderCache
  import opened Machine
  import opened Handlers
  import opened Dispatch
  import opened Wrappers

  datatype Register = Register(value: nat)

  /** A machine of which only one register matters.  Handlers of the host read the counter into it
      or stop the machine, jumps go through it and link it, and no branch is taken. */
  function OneRegister(stops: bool): Sem<Register> {
    Sem((w: Word, s: Register) => if w == 0 then None else Some(s),
        (w: Word, pc: nat, s: Register) => s,
        (w: Word, s: Register) => false,
        (w: Word, pc: nat, s: Register) => Register(pc + 2),
        (w: Word, s: Register) => s.value,
        (w: Word, pc: nat, c: nat, s: Register) => Some(SystemResult(if stops then s else Register(c), pc, 0, stops)))
  }

  /** The stored pc and counter, of which these machines make no use. */
  const ANY_SIGHT: Sight<Register> := _ => Seen(0, 0)

  const RV64C := Build(true, 8)

  /** csrrs a0, instret, x0 */
  const READ_COUNTER := Segment(RV64C, 0, [0x2573, 0xC020])

  /** c.ebreak; c.jr ra */
  const BREAK := Segment(RV64C, 0, [0x9002, 0x8082])

  /** An encoding with opcode 0x5B; c.jr ra */
  const CALL_HOST := Segment(RV64C, 0, [0x005B, 0x0000, 0x8082])

  /** c.jalr ra */
  const CALL_LINK := Segment(RV64C, 0, [0x9082])

  /** beq x0, x1, 64; c.nop */
  const BRANCH_OUT := Segment(RV64C, 0, [0x0063, 0x0410, 0x0001])

  // -------------------------------------------------------------------------
  // How they are decoded
  // -------------------------------------------------------------------------

  /** At slot j of the code p the instruction w, which covers len slots. */
  ghost predicate Holds(p: Code, j: nat, w: Word, len: nat, cls: Class, bc: Bytecode) {
    && p.build == RV64C && p.begin == 0 && j < p.Count()
    && var slot := p.slots[j];
    slot.word == w && slot.len == len && slot.cls == cls && slot.decoded == bc && (slot.cuts <==> !Unheeded(cls))
  }

  lemma Parsed(seg: Segment, j: nat, w: Word, slot: Slot)
    requires seg.Valid() && seg.build == RV64C && seg.begin == 0 && j < seg.Count() && seg.ReadInstruction(j) == w
    requires slot == DecodeSlot(RV64C, 2 * j, w, 0, 2 * seg.Count()) && (slot.cuts <==> !Unheeded(slot.cls))
    ensures Holds(seg.Parse(), j, w, slot.len, slot.cls, slot.decoded) && seg.Parse().Count() == seg.Count()
    ensures seg.Parse().slots[j] == slot
  {
    ParsedSlot(seg, j, w, slot);
    IsHeld(seg.Parse(), j, w, slot);
  }

  lemma ParsedSlot(seg: Segment, j: nat, w: Word, slot: Slot)
    requires seg.Valid() && seg.build == RV64C && seg.begin == 0 && j < seg.Count() && seg.ReadInstruction(j) == w
    requires slot == DecodeSlot(RV64C, 2 * j, w, 0, 2 * seg.Count())
    ensures seg.SlotAt(j) == slot && slot.word == w
  {
  }

  lemma IsHeld(p: Code, j: nat, w: Word, slot: Slot)
    requires p.build == RV64C && p.begin == 0 && j < p.Count() && p.slots[j] == slot && slot.word == w
    requires slot.cuts <==> !Unheeded(slot.cls)
    ensures Holds(p, j, w, slot.len, slot.cls, slot.decoded)
  {
  }

  lemma ReadCounterSlot(hi: nat)
    ensures var slot := DecodeSlot(RV64C, 0, 0xC020_2573, 0, hi);
            slot.len == 2 && slot.cls == SystemOther && slot.decoded == SYSTEM_BC && slot.cuts
  {
    assert Opcode(0xC020_2573) == SYSTEM && Funct3(0xC020_2573) == 2;
  }

  lemma BreakSlot(hi: nat)
    ensures var slot := DecodeSlot(RV64C, 0, 0x8082_9002, 0, hi);
            slot.len == 1 && slot.cls == CBreak && slot.decoded == C_DATA(C_FUNCTION) && !slot.cuts
  {
    assert Low(0x8082_9002) == C_EBREAK;
    OnlyBreak(C_EBREAK);
  }

  lemma CallHostSlot(hi: nat)
    ensures var slot := DecodeSlot(RV64C, 0, 0x5B, 0, hi);
            slot.len == 2 && slot.cls == Custom && slot.decoded == DATA(FUNCTION) && !slot.cuts
  {
    CallsHost(RV64C);
    CutterFollowsClass(RV64C, 0x5B);
    CustomIsNotCut(RV64C, 0, 0x5B, 0, hi);
  }

  lemma CallLinkSlot(hi: nat)
    ensures var slot := DecodeSlot(RV64C, 0, 0x9082, 0, hi);
            slot.len == 1 && slot.cls == JumpReg && slot.decoded == C_JALR && slot.cuts
  {
    RegisterJump(0x9082);
  }

  lemma ReturnSlot(pc: nat, hi: nat)
    ensures var slot := DecodeSlot(RV64C, pc, 0x8082, 0, hi);
            slot.len == 1 && slot.cls == JumpReg && slot.decoded == C_JR && slot.cuts
  {
    RegisterJump(0x8082);
  }

  lemma RegisterJump(w: Word)
    requires w == 0x9082 || w == 0x8082
    ensures Length(RV64C, w) == 2 && ClassOf(RV64C, w) == JumpReg && CutsBlock(RV64C, w)
    ensures ComputedIndexFor(RV64C, w) == if w == 0x9082 then C_JALR else C_JR
  {
    assert Quadrant(Low(w)) == 2 && CFunct3(Low(w)) == 4 && CRd(Low(w)) == 1 && CRs2(Low(w)) == 0;
  }

  /** The branch leaves the segment of six bytes, so it has no handler. */
  lemma BranchOutSlot()
    ensures var slot := DecodeSlot(RV64C, 0, 0x0410_0063, 0, 6);
            slot.len == 2 && slot.cls == Branch && slot.decoded == INVALID && !slot.cleared && slot.cuts
  {
    assert Opcode(0x0410_0063) == BRANCH;
    BranchOffset(0x0410_0063);
    UndecodedExactlyWhen(RV64C, 0, 0x0410_0063, 0, 6);
  }

  lemma BranchOffset(w: Word)
    requires w == 0x0410_0063
    ensures BranchDisplacement(w) == 32
  {
  }

  lemma ReadCounterCode(seg: Segment)
    requires seg == READ_COUNTER
    ensures Holds(seg.Parse(), 0, 0xC020_2573, 2, SystemOther, SYSTEM_BC) && seg.Parse().Count() == 2
  {
    ReadCounterSlot(4);
    Parsed(seg, 0, 0xC020_2573, DecodeSlot(RV64C, 0, 0xC020_2573, 0, 4));
  }

  lemma BreakCode(seg: Segment)
    requires seg == BREAK
    ensures Holds(seg.Parse(), 0, 0x8082_9002, 1, CBreak, C_DATA(C_FUNCTION))
    ensures Holds(seg.Parse(), 1, 0x8082, 1, JumpReg, C_JR) && seg.Parse().Count() == 2
  {
    BreakSlot(4);
    Parsed(seg, 0, 0x8082_9002, DecodeSlot(RV64C, 0, 0x8082_9002, 0, 4));
    ReturnSlot(2, 4);
    Parsed(seg, 1, 0x8082, DecodeSlot(RV64C, 2, 0x8082, 0, 4));
  }

  lemma CallHostCode(seg: Segment)
    requires seg == CALL_HOST
    ensures Holds(seg.Parse(), 0, 0x5B, 2, Custom, DATA(FUNCTION))
    ensures Holds(seg.Parse(), 2, 0x8082, 1, JumpReg, C_JR) && seg.Parse().Count() == 3
  {
    CallHostSlot(6);
    Parsed(seg, 0, 0x5B, DecodeSlot(RV64C, 0, 0x5B, 0, 6));
    ReturnSlot(4, 6);
    Parsed(seg, 2, 0x8082, DecodeSlot(RV64C, 4, 0x8082, 0, 6));
  }

  lemma CallLinkCode(seg: Segment)
    requires seg == CALL_LINK
    ensures Holds(seg.Parse(), 0, 0x9082, 1, JumpReg, C_JALR) && seg.Parse().Count() == 1
  {
    CallLinkSlot(2);
    Parsed(seg, 0, 0x9082, DecodeSlot(RV64C, 0, 0x9082, 0, 2));
  }

  lemma BranchOutCode(seg: Segment)
    requires seg == BRANCH_OUT
    ensures Holds(seg.Parse(), 0, 0x0410_0063, 2, Branch, INVALID) && seg.Parse().Count() == 3
    ensures !seg.Parse().slots[0].cleared
  {
    BranchOutSlot();
    Parsed(seg, 0, 0x0410_0063, DecodeSlot(RV64C, 0, 0x0410_0063, 0, 6));
  }

  lemma HeldHasHandler(p: Code, e: seq<DecoderData>, j: nat, w: Word, len: nat, cls: Class, bc: Bytecode)
    requires Holds(p, j, w, len, cls, bc) && bc != INVALID && Chained(p, e) && p.IsStart(j)
    requires if Unheeded(cls) then j + len < p.Count() else j + len <= p.Count()
    ensures HasHandler(p, e, j)
  {
    assert Linked(p, e, j);
  }

  // -------------------------------------------------------------------------
  // Not precise, whatever cache is generated
  // -------------------------------------------------------------------------

  /** One machine at which the first instruction is not faithful is enough. */
  lemma Differ(p: Code, e: seq<DecoderData>, sem: Sem<Register>, m: Cpu<Register>)
    requires p.Count() > 0 && m.pc == p.AddressOf(0) && !FaithfulSlotAt(p, e, sem, 0, Seen(0, 0), m)
    ensures !AlwaysPrecise(p, e, sem)
  {
    PreciseExactlyWhen(p, e, sem);
  }

  /** Reading the counter gives another value. */
  lemma CounterReadDiffers(e: seq<DecoderData>)
    requires Chained(READ_COUNTER.Parse(), e)
    ensures !AlwaysPrecise(READ_COUNTER.Parse(), e, OneRegister(false))
  {
    ReadCounterCode(READ_COUNTER);
    CounterRead(READ_COUNTER.Parse(), e);
  }

  lemma CounterRead(p: Code, e: seq<DecoderData>)
    requires Holds(p, 0, 0xC020_2573, 2, SystemOther, SYSTEM_BC) && p.Count() == 2 && Chained(p, e)
    ensures !AlwaysPrecise(p, e, OneRegister(false))
  {
    HeldHasHandler(p, e, 0, 0xC020_2573, 2, SystemOther, SYSTEM_BC);
    Differ(p, e, OneRegister(false), Cpu(Register(7), 0, 0, 9, 0));
  }

  /** A handler that stops the machine at C.EBREAK does not stop the dispatcher. */
  lemma BreakDiffers(e: seq<DecoderData>)
    requires Chained(BREAK.Parse(), e)
    ensures !AlwaysPrecise(BREAK.Parse(), e, OneRegister(true))
  {
    BreakCode(BREAK);
    HeldHasHandler(BREAK.Parse(), e, 0, 0x8082_9002, 1, CBreak, C_DATA(C_FUNCTION));
    Unheard(BREAK.Parse(), e);
  }

  /** Nor does one that the host supplies for an encoding unknown to decode. */
  lemma CallHostDiffers(e: seq<DecoderData>)
    requires Chained(CALL_HOST.Parse(), e)
    ensures !AlwaysPrecise(CALL_HOST.Parse(), e, OneRegister(true))
  {
    CallHostCode(CALL_HOST);
    HeldHasHandler(CALL_HOST.Parse(), e, 0, 0x5B, 2, Custom, DATA(FUNCTION));
    Unheard(CALL_HOST.Parse(), e);
  }

  lemma Unheard(p: Code, e: seq<DecoderData>)
    requires HasHandler(p, e, 0) && Unheeded(p.slots[0].cls) && p.AddressOf(0) == 0
    ensures !AlwaysPrecise(p, e, OneRegister(true))
  {
    Differ(p, e, OneRegister(true), Cpu(Register(7), 0, 0, 9, 0));
  }

  /** simulate_precise has overwritten the register before it jumps through it. */
  lemma CallLinkDiffers(e: seq<DecoderData>)
    requires Chained(CALL_LINK.Parse(), e)
    ensures !AlwaysPrecise(CALL_LINK.Parse(), e, OneRegister(false))
  {
    CallLinkCode(CALL_LINK);
    CallLink(CALL_LINK.Parse(), e);
  }

  lemma CallLink(p: Code, e: seq<DecoderData>)
    requires Holds(p, 0, 0x9082, 1, JumpReg, C_JALR) && p.Count() == 1 && Chained(p, e)
    ensures !AlwaysPrecise(p, e, OneRegister(false))
  {
    HeldHasHandler(p, e, 0, 0x9082, 1, JumpReg, C_JALR);
    Differ(p, e, OneRegister(false), Cpu(Register(100), 0, 0, 9, 0));
  }

  /** A branch that is not taken raises an exception all the same. */
  lemma BranchOutDiffers(e: seq<DecoderData>)
    requires Chained(BRANCH_OUT.Parse(), e)
    ensures !AlwaysPrecise(BRANCH_OUT.Parse(), e, OneRegister(false))
  {
    BranchOutCode(BRANCH_OUT);
    BranchOut(BRANCH_OUT.Parse(), e);
  }

  lemma BranchOut(p: Code, e: seq<DecoderData>)
    requires Holds(p, 0, 0x0410_0063, 2, Branch, INVALID) && p.Count() == 3 && Chained(p, e)
    ensures !AlwaysPrecise(p, e, OneRegister(false)) && !HasHandler(p, e, 0)
  {
    assert Linked(p, e, 0);
    Differ(p, e, OneRegister(false), Cpu(Register(7), 0, 0, 9, 0));
  }

  // -------------------------------------------------------------------------
  // Runs of both
  // -------------------------------------------------------------------------

  lemma {:induction false} StepsEnd<S>(f: Stepper<S>, m: Cpu<S>, a: nat, b: nat)
    requires Steps(f, m, a) == None && a <= b
    ensures Steps(f, m, b) == None
  {
    if a < b {
      StepsEnd(f, m, a, b - 1);
    }
  }

  /** A run that is one instruction long, up to its limit. */
  lemma OneInstruction<S(!new)>(p: Code, e: seq<DecoderData>, sem: Sem<S>, f: Stepper<S>, m0: Cpu<S>, k: nat,
                                r: Exit<S>, y: Cpu<S>)
    requires Agrees(p, e, sem, f, m0, k, r)
    requires f(m0) == Some(y) && f(y) == None && !OnSlot(p, y.pc) && y.pc != p.End() && 0 < y.max <= y.counter
    ensures r == Exhausted(y)
  {
    assert Steps(f, m0, 0) == Some(m0);
    assert Steps(f, m0, 1) == Some(y);
    assert Steps(f, m0, 2) == None;
    if k > 1 {
      StepsEnd(f, m0, 2, k);
    }
  }

  /** A run of two instructions, the second of which leaves the segment. */
  lemma TwoInstructions<S(!new)>(p: Code, e: seq<DecoderData>, sem: Sem<S>, f: Stepper<S>, m0: Cpu<S>, k: nat,
                                 r: Exit<S>, x: Cpu<S>, y: Cpu<S>)
    requires Agrees(p, e, sem, f, m0, k, r)
    requires f(m0) == Some(x) && f(x) == Some(y) && f(y) == None && !OnSlot(p, y.pc) && y.pc != p.End()
    requires OnSlot(p, x.pc) && x.counter < x.max && y.counter < y.max
    ensures r == Left(y)
  {
    assert Steps(f, m0, 0) == Some(m0);
    assert Steps(f, m0, 1) == Some(x);
    assert Steps(f, m0, 2) == Some(y);
    assert Steps(f, m0, 3) == None;
    if k > 2 {
      StepsEnd(f, m0, 3, k);
    }
  }

  /** A run that ends before its first instruction. */
  lemma NoInstruction<S(!new)>(p: Code, e: seq<DecoderData>, sem: Sem<S>, f: Stepper<S>, m0: Cpu<S>, k: nat, r: Exit<S>)
    requires Agrees(p, e, sem, f, m0, k, r) && f(m0) == None && NoHandler(p, e, m0.pc)
    ensures r.Faulted? && r.m.pc == m0.pc && r.m.s == Thrown(p, e, sem, m0)
  {
    assert Steps(f, m0, 0) == Some(m0);
    assert Steps(f, m0, 1) == None;
    if k > 0 {
      StepsEnd(f, m0, 1, k);
    }
  }

  /** An instruction that leads from pc to pc when the limit is near. */
  ghost predicate Round<S(!new)>(f: Stepper<S>, pc: nat) {
    forall x: Cpu<S> {:trigger f(x)} :: x.pc == pc && 0 < x.max <= x.counter + 1 ==>
      f(x).Some? && f(x).value.pc == pc && f(x).value.max == x.max
  }

  /** A run that has its limit in front of it gets no further than that. */
  lemma AtTheLimit<S(!new)>(p: Code, e: seq<DecoderData>, sem: Sem<S>, f: Stepper<S>, m0: Cpu<S>, k: nat, r: Exit<S>)
    requires Agrees(p, e, sem, f, m0, k, r) && Counts(f) && StartsFrom(p, 0) == 1 && Round(f, m0.pc)
    requires m0.max == m0.counter + 1 && OnSlot(p, m0.pc)
    ensures f(m0).Some? && r == Exhausted(f(m0).value)
  {
    assert Steps(f, m0, 0) == Some(m0);
    assert Steps(f, m0, 1) == f(m0);
    GoesRound(f, m0, k);
    StepsCount(f, m0, k);
  }

  lemma {:induction false} GoesRound<S(!new)>(f: Stepper<S>, m0: Cpu<S>, k: nat)
    requires Round(f, m0.pc) && Counts(f) && 0 < m0.max <= m0.counter + 1
    ensures Steps(f, m0, k).Some?
    ensures var x := Steps(f, m0, k).value;
            x.pc == m0.pc && x.max == m0.max && x.counter >= m0.counter && f(x).Some?
  {
    if k > 0 {
      GoesRound(f, m0, k - 1);
    }
  }

  /** The instruction at slot j, which has a handler, in the dispatcher and in simulate_precise. */
  lemma BothAt(p: Code, e: seq<DecoderData>, sem: Sem<Register>, j: nat, m: Cpu<Register>)
    requires HasHandler(p, e, j) && m.pc == p.AddressOf(j)
    ensures Handled(p, e, sem, ANY_SIGHT, m) == AfterHandler(p.build, sem, Seen(0, 0), p.slots[j], m)
    ensures Step(p, sem, m) == Execute(p.build, sem, p.slots[j], m)
  {
    AddressInverts(p, j);
  }

  /** The dispatcher and simulate_precise on the same code, from the same machine. */
  method RunBoth(seg: Segment, stops: bool, m0: Cpu<Register>)
    returns (r: Exit<Register>, precise: Run<Register>, ghost e: seq<DecoderData>, ghost k: nat)
    requires seg.Valid() && seg.begin == 0 && m0.pc == 0 && !m0.lost
    ensures Ran(seg.Parse(), stops, m0, r, e, k) && precise == PreciseRun(seg.Parse(), OneRegister(stops), m0)
  {
    var p, sem := seg.Parse(), OneRegister(stops);
    assert OnSlot(p, 0);
    r, e, k := RunSegment(seg, sem, ANY_SIGHT, m0);
    precise := SimulatePrecise(p, sem, m0);
  }

  /** What is known of a run of the dispatcher. */
  ghost predicate Ran(p: Code, stops: bool, m0: Cpu<Register>, r: Exit<Register>, e: seq<DecoderData>, k: nat) {
    && Chained(p, e)
    && Agrees(p, e, OneRegister(stops), Dispatcher(p, e, OneRegister(stops), ANY_SIGHT), m0, k, r)
  }

  /** The instruction counter read by a guest that has executed nothing before and may execute one
      instruction: the dispatcher reads 1 and leaves pc on the instruction, simulate_precise reads 0
      and leaves pc behind it. */
  method RunReadCounter() returns (r: Exit<Register>, precise: Run<Register>)
    ensures r == Exhausted(Cpu(Register(1), 0, 1, 1, 0))
    ensures precise == Limit(Cpu(Register(0), 4, 1, 1, 0))
  {
    var m0 := Cpu(Register(7), 0, 0, 1, 0);
    ghost var e, k;
    r, precise, e, k := RunBoth(READ_COUNTER, false, m0);
    ReadCounterCode(READ_COUNTER);
    CounterValues(READ_COUNTER.Parse(), e, m0, k, r);
  }

  lemma CounterValues(p: Code, e: seq<DecoderData>, m0: Cpu<Register>, k: nat, r: Exit<Register>)
    requires Holds(p, 0, 0xC020_2573, 2, SystemOther, SYSTEM_BC) && p.Count() == 2
    requires m0 == Cpu(Register(7), 0, 0, 1, 0) && Ran(p, false, m0, r, e, k)
    ensures r == Exhausted(Cpu(Register(1), 0, 1, 1, 0))
    ensures PreciseRun(p, OneRegister(false), m0) == Limit(Cpu(Register(0), 4, 1, 1, 0))
  {
    HeldHasHandler(p, e, 0, 0xC020_2573, 2, SystemOther, SYSTEM_BC);
    CounterSteps(p, e, m0);
    CounterExit(p, e, Dispatcher(p, e, OneRegister(false), ANY_SIGHT), m0, k, r);
  }

  lemma CounterSteps(p: Code, e: seq<DecoderData>, m0: Cpu<Register>)
    requires HasHandler(p, e, 0) && Holds(p, 0, 0xC020_2573, 2, SystemOther, SYSTEM_BC)
    requires m0 == Cpu(Register(7), 0, 0, 1, 0)
    ensures Handled(p, e, OneRegister(false), ANY_SIGHT, m0) == Some(Cpu(Register(1), 0, 1, 1, 0))
    ensures PreciseRun(p, OneRegister(false), m0) == Limit(Cpu(Register(0), 4, 1, 1, 0))
  {
    BothAt(p, e, OneRegister(false), 0, m0);
    assert Step(p, OneRegister(false), m0) == Some(Cpu(Register(0), 4, 1, 1, 0));
  }

  lemma CounterExit(p: Code, e: seq<DecoderData>, f: Stepper<Register>, m0: Cpu<Register>, k: nat, r: Exit<Register>)
    requires HasHandler(p, e, 0) && Holds(p, 0, 0xC020_2573, 2, SystemOther, SYSTEM_BC) && p.Count() == 2
    requires IsDispatcher(p, e, OneRegister(false), ANY_SIGHT, f) && m0.pc == 0 && m0.max == m0.counter + 1
    requires Agrees(p, e, OneRegister(false), f, m0, k, r)
    ensures f(m0).Some? && r == Exhausted(f(m0).value)
  {
    DispatcherCounts(p, e, OneRegister(false), ANY_SIGHT, f);
    CounterRound(p, e, f);
    AddressInverts(p, 0);
    AtTheLimit(p, e, OneRegister(false), f, m0, k, r);
  }

  lemma CounterRound(p: Code, e: seq<DecoderData>, f: Stepper<Register>)
    requires HasHandler(p, e, 0) && Holds(p, 0, 0xC020_2573, 2, SystemOther, SYSTEM_BC) && p.Count() == 2
    requires IsDispatcher(p, e, OneRegister(false), ANY_SIGHT, f)
    ensures Round(f, 0) && StartsFrom(p, 0) == 1
  {
    forall x: Cpu<Register> | x.pc == 0 && 0 < x.max <= x.counter + 1
      ensures f(x).Some? && f(x).value.pc == 0 && f(x).value.max == x.max
    {
      assert f(x) == Handled(p, e, OneRegister(false), ANY_SIGHT, x);
      BothAt(p, e, OneRegister(false), 0, x);
    }
    assert p.IsStart(0) && !p.IsStart(1);
    assert StartsFrom(p, 1) == StartsFrom(p, 2) == 0;
  }

  /** A handler of the host that stops the machine at C.EBREAK: simulate_precise stops behind the
      instruction, the dispatcher executes the next one and leaves the segment. */
  method RunBreak() returns (r: Exit<Register>, precise: Run<Register>)
    ensures r == Left(Cpu(Register(4), 100, 2, 9, 0))
    ensures precise == Limit(Cpu(Register(100), 2, 1, 0, 0))
  {
    var m0 := Cpu(Register(100), 0, 0, 9, 0);
    ghost var e, k;
    r, precise, e, k := RunBoth(BREAK, true, m0);
    BreakCode(BREAK);
    HostValues(BREAK.Parse(), e, 0x8082_9002, 1, CBreak, C_DATA(C_FUNCTION), m0, k, r);
  }

  /** The same at an encoding that decode leaves to the host. */
  method RunCallHost() returns (r: Exit<Register>, precise: Run<Register>)
    ensures r == Left(Cpu(Register(6), 100, 2, 9, 0))
    ensures precise == Limit(Cpu(Register(100), 4, 1, 0, 0))
  {
    var m0 := Cpu(Register(100), 0, 0, 9, 0);
    ghost var e, k;
    r, precise, e, k := RunBoth(CALL_HOST, true, m0);
    CallHostCode(CALL_HOST);
    HostValues(CALL_HOST.Parse(), e, 0x5B, 2, Custom, DATA(FUNCTION), m0, k, r);
  }

  /** The first instruction of p calls a handler of the host that stops the machine, the second
      jumps out of the segment. */
  ghost predicate HostThenJump(p: Code, e: seq<DecoderData>, n: nat) {
    && p.Count() == n + 1 && p.build == RV64C && p.begin == 0
    && HasHandler(p, e, 0) && Unheeded(p.slots[0].cls) && p.slots[0].len == n
    && HasHandler(p, e, n) && p.slots[n].cls == JumpReg && p.slots[n].len == 1
  }

  lemma HostCode(p: Code, e: seq<DecoderData>, w: Word, n: nat, cls: Class, bc: Bytecode)
    requires Holds(p, 0, w, n, cls, bc) && Unheeded(cls) && bc != INVALID && 0 < n <= 2
    requires Holds(p, n, 0x8082, 1, JumpReg, C_JR) && p.Count() == n + 1 && Chained(p, e)
    ensures HostThenJump(p, e, n)
  {
    HeldHasHandler(p, e, 0, w, n, cls, bc);
    assert n == 2 ==> !p.IsStart(1);
    HeldHasHandler(p, e, n, 0x8082, 1, JumpReg, C_JR);
  }

  lemma StopsUnheard(p: Code, e: seq<DecoderData>, m0: Cpu<Register>, k: nat, r: Exit<Register>, n: nat)
    requires HostThenJump(p, e, n) && 0 < n <= 2 && m0 == Cpu(Register(100), 0, 0, 9, 0)
    requires Ran(p, true, m0, r, e, k)
    ensures r == Left(Cpu(Register(2 * n + 2), 100, 2, 9, 0))
    ensures PreciseRun(p, OneRegister(true), m0) == Limit(Cpu(Register(100), 2 * n, 1, 0, 0))
  {
    var sem := OneRegister(true);
    var x, y := Cpu(Register(100), 2 * n, 1, 9, 0), Cpu(Register(2 * n + 2), 100, 2, 9, 0);
    CallReturns(p, e, m0, n, x);
    JumpLeaves(p, e, n, x, y);
    AddressInverts(p, n);
    TwoInstructions(p, e, sem, Dispatcher(p, e, sem, ANY_SIGHT), m0, k, r, x, y);
  }

  lemma CallReturns(p: Code, e: seq<DecoderData>, m0: Cpu<Register>, n: nat, x: Cpu<Register>)
    requires HostThenJump(p, e, n) && m0 == Cpu(Register(100), 0, 0, 9, 0) && x == Cpu(Register(100), 2 * n, 1, 9, 0)
    ensures Handled(p, e, OneRegister(true), ANY_SIGHT, m0) == Some(x)
    ensures PreciseRun(p, OneRegister(true), m0) == Limit(x.(max := 0))
  {
    BothAt(p, e, OneRegister(true), 0, m0);
    assert Step(p, OneRegister(true), m0) == Some(x.(max := 0));
  }

  lemma JumpLeaves(p: Code, e: seq<DecoderData>, n: nat, x: Cpu<Register>, y: Cpu<Register>)
    requires HostThenJump(p, e, n) && 0 < n <= 2
    requires x == Cpu(Register(100), 2 * n, 1, 9, 0) && y == Cpu(Register(2 * n + 2), 100, 2, 9, 0)
    ensures Handled(p, e, OneRegister(true), ANY_SIGHT, x) == Some(y)
    ensures Handled(p, e, OneRegister(true), ANY_SIGHT, y) == None && !OnSlot(p, y.pc) && y.pc != p.End()
  {
    BothAt(p, e, OneRegister(true), n, x);
  }

  lemma HostValues(p: Code, e: seq<DecoderData>, w: Word, n: nat, cls: Class, bc: Bytecode, m0: Cpu<Register>, k: nat,
                   r: Exit<Register>)
    requires Holds(p, 0, w, n, cls, bc) && Unheeded(cls) && bc != INVALID && 0 < n <= 2
    requires Holds(p, n, 0x8082, 1, JumpReg, C_JR) && p.Count() == n + 1
    requires m0 == Cpu(Register(100), 0, 0, 9, 0) && Ran(p, true, m0, r, e, k)
    ensures r == Left(Cpu(Register(2 * n + 2), 100, 2, 9, 0))
    ensures PreciseRun(p, OneRegister(true), m0) == Limit(Cpu(Register(100), 2 * n, 1, 0, 0))
  {
    HostCode(p, e, w, n, cls, bc);
    StopsUnheard(p, e, m0, k, r, n);
  }

  /** c.jalr ra: the dispatcher jumps where ra pointed, simulate_precise to the next instruction. */
  method RunCallLink() returns (r: Exit<Register>, precise: Run<Register>)
    ensures r == Exhausted(Cpu(Register(2), 100, 1, 1, 0))
    ensures precise == Limit(Cpu(Register(2), 2, 1, 1, 0))
  {
    var m0 := Cpu(Register(100), 0, 0, 1, 0);
    ghost var e, k;
    r, precise, e, k := RunBoth(CALL_LINK, false, m0);
    CallLinkCode(CALL_LINK);
    LinkValues(CALL_LINK.Parse(), e, m0, k, r);
  }

  lemma LinkValues(p: Code, e: seq<DecoderData>, m0: Cpu<Register>, k: nat, r: Exit<Register>)
    requires Holds(p, 0, 0x9082, 1, JumpReg, C_JALR) && p.Count() == 1
    requires m0 == Cpu(Register(100), 0, 0, 1, 0) && Ran(p, false, m0, r, e, k)
    ensures r == Exhausted(Cpu(Register(2), 100, 1, 1, 0))
    ensures PreciseRun(p, OneRegister(false), m0) == Limit(Cpu(Register(2), 2, 1, 1, 0))
  {
    var sem, y := OneRegister(false), Cpu(Register(2), 100, 1, 1, 0);
    HeldHasHandler(p, e, 0, 0x9082, 1, JumpReg, C_JALR);
    LinkSteps(p, e, m0, y);
    OneInstruction(p, e, sem, Dispatcher(p, e, sem, ANY_SIGHT), m0, k, r, y);
  }

  lemma LinkSteps(p: Code, e: seq<DecoderData>, m0: Cpu<Register>, y: Cpu<Register>)
    requires HasHandler(p, e, 0) && Holds(p, 0, 0x9082, 1, JumpReg, C_JALR) && p.Count() == 1
    requires m0 == Cpu(Register(100), 0, 0, 1, 0) && y == Cpu(Register(2), 100, 1, 1, 0)
    ensures Handled(p, e, OneRegister(false), ANY_SIGHT, m0) == Some(y)
    ensures Handled(p, e, OneRegister(false), ANY_SIGHT, y) == None && !OnSlot(p, y.pc) && y.pc != p.End()
    ensures PreciseRun(p, OneRegister(false), m0) == Limit(y.(pc := 2))
  {
    BothAt(p, e, OneRegister(false), 0, m0);
    assert Step(p, OneRegister(false), m0) == Some(y.(pc := 2));
  }

  /** A branch that is not taken but would leave the segment: the dispatcher raises an exception,
      simulate_precise goes on behind it. */
  method RunBranchOut() returns (r: Exit<Register>, precise: Run<Register>)
    ensures r.Faulted? && r.m.s == Register(7) && r.m.pc == 0
    ensures precise == Limit(Cpu(Register(7), 4, 1, 1, 0))
  {
    var m0 := Cpu(Register(7), 0, 0, 1, 0);
    ghost var e, k;
    r, precise, e, k := RunBoth(BRANCH_OUT, false, m0);
    BranchOutCode(BRANCH_OUT);
    BranchValues(BRANCH_OUT.Parse(), e, m0, k, r);
  }

  lemma BranchValues(p: Code, e: seq<DecoderData>, m0: Cpu<Register>, k: nat, r: Exit<Register>)
    requires Holds(p, 0, 0x0410_0063, 2, Branch, INVALID) && p.Count() == 3 && !p.slots[0].cleared
    requires m0 == Cpu(Register(7), 0, 0, 1, 0) && Ran(p, false, m0, r, e, k)
    ensures r.Faulted? && r.m.s == Register(7) && r.m.pc == 0
    ensures PreciseRun(p, OneRegister(false), m0) == Limit(Cpu(Register(7), 4, 1, 1, 0))
  {
    var sem := OneRegister(false);
    BranchOut(p, e);
    AddressInverts(p, 0);
    assert Step(p, sem, m0) == Some(Cpu(Register(7), 4, 1, 1, 0));
    NoInstruction(p, e, sem, Dispatcher(p, e, sem, ANY_SIGHT), m0, k, r);
  }

  /** sw x0, 0(x0), of which rewriting leaves no bit. */
  lemma StoreIsCleared(w: Word, pc: nat, lo: nat, hi: nat)
    requires w == 0x2023
    ensures var slot := DecodeSlot(RV64C, pc, w, lo, hi);
            slot.cleared && slot.decoded == DATA(STW) && slot.cls == Plain && slot.len == 2 && !slot.cuts
  {
    assert Opcode(w) == 0x23 && Funct3(w) == 2 && Rd(w) == 0 && Rs1(w) == 0 && Rs2(w) == 0;
  }

  /** As the last instruction of a segment it is an entry without a handler, and is counted twice. */
  lemma StoreAtTheEnd(p: Code, e: seq<DecoderData>, m: Cpu<Register>)
    requires p.build == RV64C && p.begin == 0 && p.Count() == 2 && p.slots[0] == DecodeSlot(RV64C, 0, 0x2023, 0, 4)
    requires p.Measured() && p.Count() < |e| && Done(p, e, 0, 2) && m.pc == 0 && !m.lost
    ensures e[0].bytecode == INVALID && ZeroBits(p, 0) && p.IsStart(0)
    ensures Handled(p, e, OneRegister(false), ANY_SIGHT, m) ==
              Some(m.(pc := 4, counter := m.counter + 2, extra := m.extra + 1))
    ensures Step(p, OneRegister(false), m) == Some(m.(pc := 4, counter := m.counter + 1))
  {
    StoreIsCleared(0x2023, 0, 0, 4);
    assert e[0] == Realized(p, 0);
    AddressInverts(p, 0);
  }
}
