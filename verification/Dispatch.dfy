/**
  Block dispatch (CPU::simulate): pc and the instruction counter are moved once per basic
  block, to the end of the block, and instructions in between touch neither.  Every way out
  of the dispatcher is compared with the reference, which moves both once per instruction.
 */
module Dispatch {
  import opened Isa
  import opened Program
  import opened DecoderCache
  import opened Machine
  import opened Handlers
  import opened Wrappers

  /** The ways out of a run inside one segment. */
  datatype Exit<+S> =
    | Finished(m: Cpu<S>)                // a STOP was executed
    | Exhausted(m: Cpu<S>)               // the counter reached its limit
    | Left(m: Cpu<S>)                    // pc is no slot of this segment
    | Raised(s: S, stored: Option<nat>)  // an exception in a handler, and the pc it had stored
    | Faulted(m: Cpu<S>)                 // an exception at an entry without a handler, with its pc

  // -------------------------------------------------------------------------
  // Facts about entries
  // -------------------------------------------------------------------------

  predicate Sequential(f: Flow) {
    f.NextInstr? || f.Auipc?
  }

  /** The slot a direct transfer at d goes to: decoder += offset >> SHIFT. */
  function Displaced(p: Code, d: nat): int
    requires d < p.Count()
  {
    d + p.slots[d].offset / p.build.SlotBytes()
  }

  /** Moving pc and the decoder by the displacement of the transfer at d keeps them together. */
  ghost predicate Reaches(p: Code, d: nat, t: int)
    requires d < p.Count()
  {
    && 0 <= t < p.Count() && p.AddressOf(d) + p.slots[d].offset == p.AddressOf(t)
    && p.build.Aligned(p.AddressOf(t))
  }

  /** What the handler selected at slot d may rely on. */
  ghost predicate HandlerFits(p: Code, e: seq<DecoderData>, d: nat)
    requires d < p.Count() < |e|
  {
    var slot := p.slots[d];
    var f := FlowOf(p.build, e[d].bytecode);
    var next := d + slot.len;
    && e[d].instr == slot.word
    && (slot.len == 1 || slot.len == 2)
    && (slot.word == 0 ==> slot.cls == Plain)
    && f != Patched
    && (slot.cleared ==> slot.cls in {Plain, Branch, Jump, JumpReg})
    && (slot.cleared && slot.word != 0 && f == Illegal ==> InstructionCount(p.build, e[d]) == 1)
    && (f == FunctionBlock ==> slot.cls in {Plain, PcRel, CBreak, Custom} && e[d].idxend == 0 && next < p.Count())
    && (f != Illegal && f != FunctionBlock ==> Implements(f, slot.cls, p.build.Bytes(slot.len)))
    && (f != Illegal ==> next <= p.Count())
    && (f != Illegal && slot.cls in {Branch, Jump} ==> Reaches(p, d, Displaced(p, d)))
    && (f == ForwardBranch ==>
          d < Displaced(p, d) && (p.build.compressed ==> Displaced(p, d) + 2 <= p.Count()))
    && (f != Illegal && !Sequential(f) ==> e[d].idxend == 0 && InstructionCount(p.build, e[d]) == 1)
    && (Sequential(f) && e[d].idxend == 0 ==> next == p.Count() && InstructionCount(p.build, e[d]) == 1)
    && (e[d].idxend > 0 ==>
          && next < p.Count()
          && e[d].idxend == slot.len + e[next].idxend
          && InstructionCount(p.build, e[d]) == 1 + InstructionCount(p.build, e[next]))
  }

  /** Every swept entry has a handler that fits, every other entry is empty. */
  ghost predicate Ready(p: Code, e: seq<DecoderData>) {
    && p.Count() < |e| && e[p.Count()] == ZERO_ENTRY
    && (forall d {:trigger HandlerFits(p, e, d)} :: 0 <= d < p.Count() && p.IsStart(d) ==> HandlerFits(p, e, d))
    && (forall d {:trigger Blank(e, d)} :: 0 <= d < p.Count() && !p.IsStart(d) ==> Blank(e, d))
  }

  lemma EvenTarget(begin: int, d: int, offset: int)
    requires begin % 2 == 0 && (begin + 2 * d + offset) % 2 == 0
    ensures offset == 2 * (offset / 2)
  {
  }

  lemma WordTarget(begin: int, d: int, offset: int)
    requires begin % 4 == 0 && (begin + 4 * d + offset) % 4 == 0
    ensures offset == 4 * (offset / 4)
  {
    var q := (begin + 4 * d + offset) / 4 - begin / 4 - d;
    assert offset == 4 * q;
  }

  /** An aligned target inside the segment is a slot. */
  lemma TargetIsSlot(p: Code, d: nat, room: nat)
    requires p.build.Aligned(p.begin) && d < p.Count() && room >= 2
    requires p.slots[d].Lands(p.build, p.AddressOf(d), p.begin, p.End(), room)
    ensures Reaches(p, d, Displaced(p, d))
    ensures p.slots[d].offset > 0 && room == 4 ==>
              d < Displaced(p, d) && (p.build.compressed ==> Displaced(p, d) + 2 <= p.Count())
  {
    if p.build.compressed {
      EvenTarget(p.begin, d, p.slots[d].offset);
    } else {
      WordTarget(p.begin, d, p.slots[d].offset);
    }
  }

  lemma FlowKinds(build: Build, bc: Bytecode)
    ensures FlowOf(build, bc) == Illegal <==> bc == INVALID
    ensures FlowOf(build, bc) == FunctionBlock <==> bc == FUNCBLOCK
  {
  }

  /** The handler of the decoded bytecode. */
  lemma DecodedFits(p: Code, e: seq<DecoderData>, d: nat)
    requires p.Count() < |e| && d < p.Count() && Linked(p, e, d)
    requires p.build.Aligned(p.begin) && p.slots[d].Sound(p.build, p.AddressOf(d), p.begin, p.End())
    requires e[d].bytecode == p.slots[d].decoded != INVALID
    ensures HandlerFits(p, e, d)
  {
    var slot := p.slots[d];
    FlowKinds(p.build, slot.decoded);
    if slot.cls in {Branch, Jump} {
      TargetIsSlot(p, d, 2);
    }
    if FlowOf(p.build, slot.decoded) == ForwardBranch {
      TargetIsSlot(p, d, 4);
    }
  }

  lemma StartFits(p: Code, e: seq<DecoderData>, d: nat)
    requires p.Valid() && Chained(p, e) && d < p.Count() && p.IsStart(d)
    ensures HandlerFits(p, e, d)
  {
    assert Linked(p, e, d);
    var slot := p.slots[d];
    assert p.SoundAt(d);
    if e[d].bytecode == slot.decoded && slot.decoded != INVALID {
      DecodedFits(p, e, d);
    } else {
      FlowKinds(p.build, e[d].bytecode);
    }
  }

  lemma ChainedIsReady(p: Code, e: seq<DecoderData>)
    requires p.Valid() && Chained(p, e)
    ensures Ready(p, e) && p.Measured()
  {
    forall d | 0 <= d < p.Count() && p.IsStart(d)
      ensures HandlerFits(p, e, d)
    {
      StartFits(p, e, d);
    }
    ValidIsMeasured(p);
  }

  // -------------------------------------------------------------------------
  // Counting the instructions that lie ahead
  // -------------------------------------------------------------------------

  /** Instructions of the sweep at or after slot d. */
  ghost function StartsFrom(p: Code, d: nat): (c: nat)
    decreases p.Count() - d
  {
    if d >= p.Count() then 0 else (if p.IsStart(d) then 1 else 0) + StartsFrom(p, d + 1)
  }

  lemma {:induction false} StartsDecrease(p: Code, d: nat, d': nat)
    requires d <= d'
    ensures StartsFrom(p, d') <= StartsFrom(p, d)
    decreases d' - d
  {
    if d < d' {
      StartsDecrease(p, d + 1, d');
    }
  }

  lemma StartsAfter(p: Code, d: nat)
    requires p.Measured() && d < p.Count() && p.IsStart(d)
    ensures StartsFrom(p, d) == 1 + StartsFrom(p, d + 1)
    ensures StartsFrom(p, d) == 1 + StartsFrom(p, d + p.slots[d].len)
  {
    if p.slots[d].len == 2 && d + 1 < p.Count() {
      assert !p.IsStart(d + 1);
    }
  }

  lemma StartsBehindMiddle(p: Code, d: nat)
    requires d + 1 < p.Count() && !p.IsStart(d)
    ensures StartsFrom(p, d) >= 1
  {
    assert p.IsStart(d + 1);
  }

  // -------------------------------------------------------------------------
  // Inside a block
  // -------------------------------------------------------------------------

  /** Instructions the counter is still ahead at slot d. */
  ghost function Ahead(p: Code, e: seq<DecoderData>, d: nat): nat
    requires p.Count() < |e|
  {
    if d < p.Count() then InstructionCount(p.build, e[d]) else 0
  }

  /** What moving on by one sequential instruction at d keeps. */
  ghost predicate MovesOn(p: Code, e: seq<DecoderData>, d: nat, pc: nat)
    requires d < p.Count() < |e|
  {
    var next := d + p.slots[d].len;
    && next <= p.Count()
    && (next < p.Count() ==> p.IsStart(next) && pc == p.AddressOf(next) + BlockBytes(p.build, e[next]))
    && Ahead(p, e, d) == 1 + Ahead(p, e, next)
    && StartsFrom(p, d) == 1 + StartsFrom(p, next)
  }

  lemma StraightMove(p: Code, e: seq<DecoderData>, d: nat, pc: nat)
    requires p.Measured() && Ready(p, e) && d < p.Count() && p.IsStart(d)
    requires pc == p.AddressOf(d) + BlockBytes(p.build, e[d])
    requires Sequential(FlowOf(p.build, e[d].bytecode))
    ensures MovesOn(p, e, d, pc)
  {
    assert HandlerFits(p, e, d);
    NextIsStart(p, d);
    StartsAfter(p, d);
  }

  /** The instruction at slot d, where single steps stand at x, has a handler. */
  ghost predicate Serves<S(!new)>(p: Code, e: seq<DecoderData>, sem: Sem<S>, seen: Sight<S>, f: Stepper<S>, x: Cpu<S>,
                                  d: nat) {
    && IsDispatcher(p, e, sem, seen, f)
    && d < p.Count() < |e| && x.pc == p.AddressOf(d) && e[d].bytecode != INVALID
  }

  lemma ServedBy<S(!new)>(p: Code, e: seq<DecoderData>, sem: Sem<S>, seen: Sight<S>, f: Stepper<S>, x: Cpu<S>, d: nat)
    requires Serves(p, e, sem, seen, f, x, d)
    ensures f(x) == AfterHandler(p.build, sem, seen(x), p.slots[d], x)
  {
    AddressInverts(p, d);
    assert f(x) == Handled(p, e, sem, seen, x);
  }

  lemma ServesPcRel<S(!new)>(p: Code, e: seq<DecoderData>, sem: Sem<S>, seen: Sight<S>, f: Stepper<S>, x: Cpu<S>,
                             d: nat)
    requires Serves(p, e, sem, seen, f, x, d) && p.slots[d].cls == PcRel
    ensures f(x) == Some(x.(s := sem.pcrel(p.slots[d].word, x.pc, x.s), pc := p.AddressOf(d + p.slots[d].len),
                            counter := x.counter + 1))
  {
    ServedBy(p, e, sem, seen, f, x, d);
  }

  lemma ServesPlain<S(!new)>(p: Code, e: seq<DecoderData>, sem: Sem<S>, seen: Sight<S>, f: Stepper<S>, x: Cpu<S>,
                             d: nat)
    requires Serves(p, e, sem, seen, f, x, d) && p.slots[d].cls in {Plain, CBreak, Custom}
    ensures f(x) ==
              match HandlePlain(sem, seen(x), p.slots[d], x)
              case None => None
              case Some(s) => Some(x.(s := s, pc := p.AddressOf(d + p.slots[d].len), counter := x.counter + 1))
  {
    ServedBy(p, e, sem, seen, f, x, d);
  }

  lemma ServesBranch<S(!new)>(p: Code, e: seq<DecoderData>, sem: Sem<S>, seen: Sight<S>, f: Stepper<S>, x: Cpu<S>,
                              d: nat, target: nat)
    requires Serves(p, e, sem, seen, f, x, d) && p.slots[d].cls == Branch
    requires p.AddressOf(d) + p.slots[d].offset == p.AddressOf(target) && p.build.Aligned(p.AddressOf(target))
    ensures f(x) == Some(x.(pc := p.AddressOf(if sem.taken(p.slots[d].word, x.s) then target else d + p.slots[d].len),
                            counter := x.counter + 1))
  {
    ServedBy(p, e, sem, seen, f, x, d);
  }

  lemma ServesJump<S(!new)>(p: Code, e: seq<DecoderData>, sem: Sem<S>, seen: Sight<S>, f: Stepper<S>, x: Cpu<S>,
                            d: nat, target: nat)
    requires Serves(p, e, sem, seen, f, x, d) && p.slots[d].cls == Jump
    requires p.AddressOf(d) + p.slots[d].offset == p.AddressOf(target) && p.build.Aligned(p.AddressOf(target))
    ensures f(x) == Some(x.(s := sem.link(p.slots[d].word, x.pc, x.s), pc := p.AddressOf(target),
                            counter := x.counter + 1))
  {
    ServedBy(p, e, sem, seen, f, x, d);
  }

  lemma ServesIndirect<S(!new)>(p: Code, e: seq<DecoderData>, sem: Sem<S>, seen: Sight<S>, f: Stepper<S>, x: Cpu<S>,
                                d: nat)
    requires Serves(p, e, sem, seen, f, x, d) && p.slots[d].cls == JumpReg
    ensures var t := sem.target(p.slots[d].word, x.s);
            f(x) ==
              if p.build.Aligned(t - t % 2)
              then Some(x.(s := sem.link(p.slots[d].word, x.pc, x.s), pc := t - t % 2, counter := x.counter + 1))
              else None
  {
    ServedBy(p, e, sem, seen, f, x, d);
  }

  /** Where the answer r of the host to a system instruction leads from x. */
  function Answered<S>(x: Cpu<S>, call: bool, r: SystemResult<S>): Cpu<S> {
    x.(s := r.s, pc := if Detours(x, r) && !call then r.pc else r.pc + 4, counter := x.counter + r.penalty + 1,
       max := if r.stop then 0 else x.max, extra := x.extra + r.penalty)
  }

  lemma ServesCall<S(!new)>(p: Code, e: seq<DecoderData>, sem: Sem<S>, seen: Sight<S>, f: Stepper<S>, x: Cpu<S>, d: nat)
    requires Serves(p, e, sem, seen, f, x, d) && p.slots[d].cls in {Ecall, SystemOther}
    requires p.build.Bytes(p.slots[d].len) == 4
    ensures f(x) ==
              match sem.system(p.slots[d].word, x.pc, x.counter + 1, x.s)
              case None => None
              case Some(r) => Some(Answered(x, p.slots[d].cls == Ecall, r))
  {
    ServedBy(p, e, sem, seen, f, x, d);
  }

  lemma ServesHalt<S(!new)>(p: Code, e: seq<DecoderData>, sem: Sem<S>, seen: Sight<S>, f: Stepper<S>, x: Cpu<S>, d: nat)
    requires Serves(p, e, sem, seen, f, x, d) && p.slots[d].cls == Halt && p.build.Bytes(p.slots[d].len) == 4
    ensures f(x) == Some(x.(pc := x.pc + 4, counter := x.counter + 1, max := 0))
  {
    ServedBy(p, e, sem, seen, f, x, d);
  }

  lemma AuipcStep<S(!new)>(p: Code, e: seq<DecoderData>, sem: Sem<S>, seen: Sight<S>, f: Stepper<S>, x: Cpu<S>, d: nat)
    requires IsDispatcher(p, e, sem, seen, f)
    requires Ready(p, e) && d < p.Count() && p.IsStart(d) && x.pc == p.AddressOf(d)
    requires FlowOf(p.build, e[d].bytecode) == Auipc
    ensures p.slots[d].len == (if p.build.compressed then 2 else 1)
    ensures f(x) == Some(x.(s := sem.pcrel(e[d].instr, x.pc, x.s),
                                       pc := p.AddressOf(d + p.slots[d].len), counter := x.counter + 1))
  {
    assert HandlerFits(p, e, d);
    ServesPcRel(p, e, sem, seen, f, x, d);
  }

  lemma PlainStep<S(!new)>(p: Code, e: seq<DecoderData>, sem: Sem<S>, seen: Sight<S>, f: Stepper<S>, x: Cpu<S>, d: nat)
    requires IsDispatcher(p, e, sem, seen, f)
    requires Ready(p, e) && d < p.Count() && p.IsStart(d) && x.pc == p.AddressOf(d)
    requires FlowOf(p.build, e[d].bytecode).NextInstr?
    ensures FlowOf(p.build, e[d].bytecode).step / p.build.SlotBytes() == p.slots[d].len
    ensures f(x) ==
              match HandlePlain(sem, seen(x), p.slots[d], x)
              case None => None
              case Some(s) => Some(x.(s := s, pc := p.AddressOf(d + p.slots[d].len), counter := x.counter + 1))
  {
    assert HandlerFits(p, e, d);
    ServesPlain(p, e, sem, seen, f, x, d);
  }

  /** What k straight instructions from slot d0 keep. */
  ghost predicate Straight<S>(p: Code, e: seq<DecoderData>, f: Stepper<S>, x0: Cpu<S>, d0: nat, k: nat, s: S, d: nat,
                              pc: nat)
    requires p.Count() < |e|
  {
    && Steps(f, x0, k) == Some(x0.(s := s, pc := p.AddressOf(d), counter := x0.counter + k))
    && d0 <= d <= p.Count()
    && (d < p.Count() ==> p.IsStart(d) && pc == p.AddressOf(d) + BlockBytes(p.build, e[d]))
    && Ahead(p, e, d0) == k + Ahead(p, e, d)
    && StartsFrom(p, d0) == k + StartsFrom(p, d)
  }

  lemma StraightExtends<S>(p: Code, e: seq<DecoderData>, f: Stepper<S>, x0: Cpu<S>, d0: nat, k: nat, s: S, d: nat,
                           pc: nat, s': S, next: nat)
    requires p.Measured() && Ready(p, e) && Straight(p, e, f, x0, d0, k, s, d, pc)
    requires d < p.Count() && Sequential(FlowOf(p.build, e[d].bytecode)) && next == d + p.slots[d].len
    requires var x := Steps(f, x0, k).value;
             f(x) == Some(x.(s := s', pc := p.AddressOf(next), counter := x.counter + 1))
    ensures Straight(p, e, f, x0, d0, k + 1, s', next, pc)
  {
    StraightMove(p, e, d, pc);
  }

  /** One entry whose handler ends in NEXT_INSTR or NEXT_C_INSTR. */
  method ExecuteStraight<S(!new)>(p: Code, e: seq<DecoderData>, sem: Sem<S>, seen: Sight<S>, s: S, d: nat, pc: nat,
                                  x: Cpu<S>, ghost f: Stepper<S>)
    returns (r: Option<S>, next: nat)
    requires IsDispatcher(p, e, sem, seen, f)
    requires Ready(p, e) && d < p.Count() && p.IsStart(d) && Sequential(FlowOf(p.build, e[d].bytecode))
    requires x.s == s && x.pc == p.AddressOf(d) && pc == p.AddressOf(d) + BlockBytes(p.build, e[d])
    ensures r.None? ==> f(x) == None
    ensures r.Some? ==>
              && next == d + p.slots[d].len
              && f(x) == Some(x.(s := r.value, pc := p.AddressOf(next), counter := x.counter + 1))
  {
    match FlowOf(p.build, e[d].bytecode) {
      case Auipc =>
        AuipcStep(p, e, sem, seen, f, x, d);
        r := Some(sem.pcrel(e[d].instr, pc - BlockBytes(p.build, e[d]), s));
        next := d + (if p.build.compressed then 2 else 1);
      case NextInstr(step) =>
        PlainStep(p, e, sem, seen, f, x, d);
        r := HandlePlain(sem, seen(x), p.slots[d], x);
        next := d + step / p.build.SlotBytes();
    }
  }

  /** From entry to entry, until one that needs pc or has no handler. */
  method RunStraight<S(!new)>(p: Code, e: seq<DecoderData>, sem: Sem<S>, seen: Sight<S>, s0: S, d0: nat, pc: nat,
                              x0: Cpu<S>, ghost f: Stepper<S>)
    returns (s: S, d: nat, faulted: bool, ghost k: nat, x: Cpu<S>)
    requires IsDispatcher(p, e, sem, seen, f)
    requires p.Measured() && Ready(p, e) && d0 < p.Count() && p.IsStart(d0)
    requires x0.s == s0 && x0.pc == p.AddressOf(d0) && pc == p.AddressOf(d0) + BlockBytes(p.build, e[d0])
    ensures Straight(p, e, f, x0, d0, k, s, d, pc) && Steps(f, x0, k) == Some(x)
    ensures faulted ==> f(x) == None && d < p.Count()
    ensures d < p.Count() ==> faulted == Sequential(FlowOf(p.build, e[d].bytecode))
  {
    s, d, faulted, k, x := s0, d0, false, 0, x0;
    while d < p.Count() && Sequential(FlowOf(p.build, e[d].bytecode))
      invariant Straight(p, e, f, x0, d0, k, s, d, pc) && Steps(f, x0, k) == Some(x)
      decreases p.Count() - d
    {
      var r, next := ExecuteStraight(p, e, sem, seen, s, d, pc, x, f);
      if r.None? {
        faulted := true;
        return;
      }
      StraightExtends(p, e, f, x0, d0, k, s, d, pc, r.value, next);
      s, d, k := r.value, next, k + 1;
      x := x.(s := s, pc := p.AddressOf(d), counter := x.counter + 1);
    }
  }

  // -------------------------------------------------------------------------
  // The end of a block
  // -------------------------------------------------------------------------

  /** Where the last handler of a block goes. */
  datatype Transfer<+S> =
    | NextBlock(m: Cpu<S>, decoder: nat)   // straight on to a block, no further test
    | CheckJump(m: Cpu<S>)                 // goto check_jump
    | Out(exit: Exit<S>)

  /** The reference stands at the end of a block, at slot d. */
  ghost predicate AtEnd<S>(p: Code, e: seq<DecoderData>, x: Cpu<S>, d: nat) {
    && Ready(p, e) && d < p.Count() && p.IsStart(d) && x.pc == p.AddressOf(d)
    && FlowOf(p.build, e[d].bytecode) != Illegal && !Sequential(FlowOf(p.build, e[d].bytecode))
  }

  lemma BranchStep<S(!new)>(p: Code, e: seq<DecoderData>, sem: Sem<S>, seen: Sight<S>, f: Stepper<S>, x: Cpu<S>, d: nat)
    requires IsDispatcher(p, e, sem, seen, f)
    requires AtEnd(p, e, x, d)
    requires FlowOf(p.build, e[d].bytecode).CondBranch? || FlowOf(p.build, e[d].bytecode).ForwardBranch?
    ensures Reaches(p, d, Displaced(p, d)) && d + p.slots[d].len <= p.Count()
    ensures var f := FlowOf(p.build, e[d].bytecode);
            (if f.CondBranch? then f.len else 4) == p.build.Bytes(p.slots[d].len)
    ensures f(x) ==
              Some(x.(pc := p.AddressOf(if sem.taken(e[d].instr, x.s) then Displaced(p, d) else d + p.slots[d].len),
                      counter := x.counter + 1))
  {
    assert HandlerFits(p, e, d);
    ServesBranch(p, e, sem, seen, f, x, d, Displaced(p, d));
  }

  lemma JumpStep<S(!new)>(p: Code, e: seq<DecoderData>, sem: Sem<S>, seen: Sight<S>, f: Stepper<S>, x: Cpu<S>, d: nat)
    requires IsDispatcher(p, e, sem, seen, f)
    requires AtEnd(p, e, x, d)
    requires FlowOf(p.build, e[d].bytecode).BranchAlways? || FlowOf(p.build, e[d].bytecode).CheckedJump?
    ensures Reaches(p, d, Displaced(p, d))
    ensures f(x) ==
              Some(x.(s := sem.link(e[d].instr, x.pc, x.s), pc := p.AddressOf(Displaced(p, d)),
                      counter := x.counter + 1))
  {
    assert HandlerFits(p, e, d);
    ServesJump(p, e, sem, seen, f, x, d, Displaced(p, d));
  }

  /** The address without its lowest bit. */
  function Even(address: nat): (target: nat)
    ensures target % 2 == 0
  {
    address - address % 2
  }

  /** A register jump that has stored its return address. */
  function Landed<S>(build: Build, m: Cpu<S>, linked: S, target: nat): Option<Cpu<S>> {
    if build.Aligned(target) then Some(m.(s := linked, pc := target)) else None
  }

  lemma IndirectStep<S(!new)>(p: Code, e: seq<DecoderData>, sem: Sem<S>, seen: Sight<S>, f: Stepper<S>, x: Cpu<S>,
                              d: nat)
    requires IsDispatcher(p, e, sem, seen, f)
    requires AtEnd(p, e, x, d) && FlowOf(p.build, e[d].bytecode).Indirect?
    ensures e[d].instr == p.slots[d].word && p.slots[d].cls == JumpReg && !StoresPc(e[d].bytecode)
    ensures f(x) ==
              Landed(p.build, x.(counter := x.counter + 1), sem.link(e[d].instr, x.pc, x.s),
                     Even(sem.target(e[d].instr, x.s)))
  {
    assert HandlerFits(p, e, d);
    ServesIndirect(p, e, sem, seen, f, x, d);
  }

  lemma SystemStep<S(!new)>(p: Code, e: seq<DecoderData>, sem: Sem<S>, seen: Sight<S>, f: Stepper<S>, x: Cpu<S>, d: nat)
    requires IsDispatcher(p, e, sem, seen, f)
    requires AtEnd(p, e, x, d)
    requires FlowOf(p.build, e[d].bytecode).SystemCall? || FlowOf(p.build, e[d].bytecode).SystemOp?
    ensures p.build.Bytes(p.slots[d].len) == 4 && d + p.slots[d].len <= p.Count()
    ensures f(x) ==
              match sem.system(e[d].instr, x.pc, x.counter + 1, x.s)
              case None => None
              case Some(r) => Some(Answered(x, FlowOf(p.build, e[d].bytecode).SystemCall?, r))
    ensures p.slots[d].cls !in {Jump, JumpReg}
  {
    assert HandlerFits(p, e, d);
    ServesCall(p, e, sem, seen, f, x, d);
  }

  lemma StopStep<S(!new)>(p: Code, e: seq<DecoderData>, sem: Sem<S>, seen: Sight<S>, f: Stepper<S>, x: Cpu<S>, d: nat)
    requires IsDispatcher(p, e, sem, seen, f)
    requires AtEnd(p, e, x, d) && FlowOf(p.build, e[d].bytecode).StopRun?
    ensures f(x) == Some(x.(pc := x.pc + 4, counter := x.counter + 1, max := 0))
  {
    assert HandlerFits(p, e, d);
    ServesHalt(p, e, sem, seen, f, x, d);
  }

  /** CPU().execute on the instruction of a block-ending fallback entry. */
  function ExecuteHandler<S>(slot: Slot, sem: Sem<S>, seen: Sight<S>, x: Cpu<S>): Option<S> {
    if slot.cls == PcRel then Some(sem.pcrel(slot.word, x.pc, x.s)) else HandlePlain(sem, seen(x), slot, x)
  }

  lemma FunctionBlockStep<S(!new)>(p: Code, e: seq<DecoderData>, sem: Sem<S>, seen: Sight<S>, f: Stepper<S>,
                                   x: Cpu<S>, d: nat)
    requires IsDispatcher(p, e, sem, seen, f)
    requires AtEnd(p, e, x, d) && FlowOf(p.build, e[d].bytecode).FunctionBlock?
    ensures d + p.slots[d].len < p.Count() && p.slots[d].cls !in {Jump, JumpReg}
    ensures f(x) ==
              match ExecuteHandler(p.slots[d], sem, seen, x)
              case None => None
              case Some(s) => Some(x.(s := s, pc := p.AddressOf(d + p.slots[d].len), counter := x.counter + 1))
  {
    assert HandlerFits(p, e, d);
    if p.slots[d].cls == PcRel {
      ServesPcRel(p, e, sem, seen, f, x, d);
    } else {
      ServesPlain(p, e, sem, seen, f, x, d);
    }
  }

  /** Handlers that store pc before anything that can raise an exception. */
  predicate StoresPc(bc: Bytecode) {
    bc in {SYSCALL, SYSTEM_BC, FUNCBLOCK}
  }

  /** An exception of the handler at slot d. */
  ghost predicate RaisedAt<S>(p: Code, e: seq<DecoderData>, sem: Sem<S>, x: Cpu<S>, d: nat, s: S, stored: Option<nat>)
    requires d < p.Count()
  {
    && d < |e| && x.pc == p.AddressOf(d) && s == AtException(sem, p.slots[d], x)
    && stored == if StoresPc(e[d].bytecode) then Some(x.pc) else None
  }

  /** What the last handler of a block promises, where its instruction leads from x to y. */
  ghost predicate Transferred<S>(p: Code, e: seq<DecoderData>, sem: Sem<S>, x: Cpu<S>, y: Option<Cpu<S>>, d: nat,
                                 t: Transfer<S>)
    requires d < p.Count()
  {
    match t
    case NextBlock(m, next) =>
      && y == Some(m) && next <= p.Count() && m.pc == p.AddressOf(next) && m.max == x.max && m.lost == x.lost
      && (m.counter >= m.max ==> d < next && (next < p.Count() && !p.IsStart(next) ==> next + 1 < p.Count()))
    case CheckJump(m) => y == Some(m) && m.lost == x.lost
    case Out(Finished(m)) => y == Some(m) && m.max == 0
    case Out(Raised(s, stored)) => y == None && RaisedAt(p, e, sem, x, d, s, stored)
    case Out(_) => false
  }

  /** NEXT_BLOCK(len) after a branch that was not taken. */
  method FallThrough<S(!new)>(p: Code, e: seq<DecoderData>, sem: Sem<S>, seen: Sight<S>, m: Cpu<S>, d: nat, len: nat,
                              ghost x: Cpu<S>, ghost f: Stepper<S>)
    returns (t: Transfer<S>)
    requires IsDispatcher(p, e, sem, seen, f)
    requires p.Measured() && AtEnd(p, e, x, d) && m == x.(counter := x.counter + 1)
    requires len == p.build.Bytes(p.slots[d].len) && d + p.slots[d].len <= p.Count()
    requires f(x) == Some(m.(pc := p.AddressOf(d + p.slots[d].len)))
    ensures Transferred(p, e, sem, x, f(x), d, t)
  {
    NextIsStart(p, d);
    t := NextBlock(m.(pc := m.pc + len), d + len / p.build.SlotBytes());
  }

  /** Branches whose handler is PERFORM_BRANCH when taken. */
  method FinishBranch<S(!new)>(p: Code, e: seq<DecoderData>, sem: Sem<S>, seen: Sight<S>, m: Cpu<S>, d: nat,
                               ghost x: Cpu<S>, ghost f: Stepper<S>)
    returns (t: Transfer<S>)
    requires IsDispatcher(p, e, sem, seen, f)
    requires p.Measured() && AtEnd(p, e, x, d) && m == x.(counter := x.counter + 1)
    requires FlowOf(p.build, e[d].bytecode).CondBranch?
    ensures Transferred(p, e, sem, x, f(x), d, t)
  {
    BranchStep(p, e, sem, seen, f, x, d);
    if sem.taken(e[d].instr, m.s) {
      var moved := m.(pc := m.pc + p.slots[d].offset);
      if m.counter < m.max {
        t := NextBlock(moved, Displaced(p, d));
      } else {
        t := CheckJump(moved);
      }
    } else {
      t := FallThrough(p, e, sem, seen, m, d, FlowOf(p.build, e[d].bytecode).len, x, f);
    }
  }

  /** Branches whose handler is PERFORM_FORWARD_BRANCH when taken: no test of the counter. */
  method FinishForwardBranch<S(!new)>(p: Code, e: seq<DecoderData>, sem: Sem<S>, seen: Sight<S>, m: Cpu<S>, d: nat,
                                      ghost x: Cpu<S>, ghost f: Stepper<S>)
    returns (t: Transfer<S>)
    requires IsDispatcher(p, e, sem, seen, f)
    requires p.Measured() && AtEnd(p, e, x, d) && m == x.(counter := x.counter + 1)
    requires FlowOf(p.build, e[d].bytecode).ForwardBranch?
    ensures Transferred(p, e, sem, x, f(x), d, t)
  {
    BranchStep(p, e, sem, seen, f, x, d);
    assert HandlerFits(p, e, d);
    if sem.taken(e[d].instr, m.s) {
      if !p.build.compressed {
        UncompressedStarts(p, Displaced(p, d));
      }
      t := NextBlock(m.(pc := m.pc + p.slots[d].offset), Displaced(p, d));
    } else {
      t := FallThrough(p, e, sem, seen, m, d, 4, x, f);
    }
  }

  /** Jump handlers.  The link register is written before pc moves. */
  method FinishJump<S(!new)>(p: Code, e: seq<DecoderData>, sem: Sem<S>, seen: Sight<S>, m: Cpu<S>, d: nat,
                             ghost x: Cpu<S>, ghost f: Stepper<S>)
    returns (t: Transfer<S>)
    requires IsDispatcher(p, e, sem, seen, f)
    requires AtEnd(p, e, x, d) && m == x.(counter := x.counter + 1)
    requires FlowOf(p.build, e[d].bytecode).BranchAlways? || FlowOf(p.build, e[d].bytecode).CheckedJump?
    ensures Transferred(p, e, sem, x, f(x), d, t)
  {
    JumpStep(p, e, sem, seen, f, x, d);
    var moved := m.(s := sem.link(e[d].instr, m.pc, m.s), pc := m.pc + p.slots[d].offset);
    if m.counter >= m.max {
      t := CheckJump(moved);
    } else {
      t := NextBlock(moved, Displaced(p, d));
    }
  }

  /** JALR, C.JR and C.JALR: the lowest bit of the address is dropped. */
  method FinishIndirect<S(!new)>(p: Code, e: seq<DecoderData>, sem: Sem<S>, seen: Sight<S>, m: Cpu<S>, d: nat,
                                 ghost x: Cpu<S>, ghost f: Stepper<S>)
    returns (t: Transfer<S>)
    requires IsDispatcher(p, e, sem, seen, f)
    requires AtEnd(p, e, x, d) && m == x.(counter := x.counter + 1)
    requires FlowOf(p.build, e[d].bytecode).Indirect?
    ensures Transferred(p, e, sem, x, f(x), d, t)
  {
    IndirectStep(p, e, sem, seen, f, x, d);
    var linked, target := sem.link(e[d].instr, m.pc, m.s), Even(sem.target(e[d].instr, m.s));
    t := Indirectly(p.build, m, linked, target);
    IndirectTransfers(p, e, sem, x, m, d, linked, target);
  }

  /** The return address is stored before the target is tested. */
  function Indirectly<S>(build: Build, m: Cpu<S>, linked: S, target: nat): Transfer<S> {
    if !build.compressed && target % 4 != 0 then Out(Raised(linked, None)) else CheckJump(m.(s := linked, pc := target))
  }

  lemma IndirectTransfers<S>(p: Code, e: seq<DecoderData>, sem: Sem<S>, x: Cpu<S>, m: Cpu<S>, d: nat, linked: S,
                             target: nat)
    requires d < p.Count() && d < |e| && x.pc == p.AddressOf(d) && m == x.(counter := x.counter + 1)
    requires p.slots[d].cls == JumpReg && !StoresPc(e[d].bytecode) && target % 2 == 0
    requires linked == sem.link(p.slots[d].word, x.pc, x.s)
    ensures Transferred(p, e, sem, x, Landed(p.build, m, linked, target), d, Indirectly(p.build, m, linked, target))
  {
  }

  /** SYSCALL and SYSTEM.  The handler finds pc and the counter, which has this instruction in it,
      and may change both. */
  method FinishCall<S(!new)>(p: Code, e: seq<DecoderData>, sem: Sem<S>, seen: Sight<S>, m: Cpu<S>, d: nat,
                             ghost x: Cpu<S>, ghost f: Stepper<S>)
    returns (t: Transfer<S>)
    requires IsDispatcher(p, e, sem, seen, f)
    requires p.Measured() && AtEnd(p, e, x, d) && m == x.(counter := x.counter + 1)
    requires FlowOf(p.build, e[d].bytecode) in {SystemCall, SystemOp}
    ensures Transferred(p, e, sem, x, f(x), d, t)
  {
    SystemStep(p, e, sem, seen, f, x, d);
    var called := sem.system(e[d].instr, m.pc, m.counter, m.s);
    if called.None? {
      t := Out(Raised(m.s, Some(m.pc)));
    } else {
      NextIsStart(p, d);
      var call, next := FlowOf(p.build, e[d].bytecode) == SystemCall, d + 4 / p.build.SlotBytes();
      t := Called(m, next, call, called.value);
      CallTransfers(p, e, sem, x, m, d, next, call, called.value);
    }
  }

  lemma CallTransfers<S>(p: Code, e: seq<DecoderData>, sem: Sem<S>, x: Cpu<S>, m: Cpu<S>, d: nat, next: nat, call: bool,
                         r: SystemResult<S>)
    requires d < next <= p.Count() && x.pc + 4 == p.AddressOf(next) && m == x.(counter := x.counter + 1)
    requires next < p.Count() ==> p.IsStart(next)
    ensures Transferred(p, e, sem, x, Some(Answered(x, call, r)), d, Called(m, next, call, r))
  {
  }

  /** Where a system handler that returned r leaves the dispatcher. */
  function Called<S>(m: Cpu<S>, next: nat, call: bool, r: SystemResult<S>): Transfer<S> {
    var after := m.(s := r.s, pc := r.pc, counter := m.counter + r.penalty, max := if r.stop then 0 else m.max,
                    extra := m.extra + r.penalty);
    if after.counter >= after.max || r.pc != m.pc then CheckJump(if call then after.(pc := r.pc + 4) else after)
    else NextBlock(after.(pc := m.pc + 4), next)
  }

  /** SYSCALL, SYSTEM and STOP. */
  method FinishSystem<S(!new)>(p: Code, e: seq<DecoderData>, sem: Sem<S>, seen: Sight<S>, m: Cpu<S>, d: nat,
                               ghost x: Cpu<S>, ghost f: Stepper<S>)
    returns (t: Transfer<S>)
    requires IsDispatcher(p, e, sem, seen, f)
    requires p.Measured() && AtEnd(p, e, x, d) && m == x.(counter := x.counter + 1)
    requires FlowOf(p.build, e[d].bytecode) in {SystemCall, SystemOp, StopRun}
    ensures Transferred(p, e, sem, x, f(x), d, t)
  {
    if FlowOf(p.build, e[d].bytecode) == StopRun {
      StopStep(p, e, sem, seen, f, x, d);
      t := Out(Finished(m.(pc := m.pc + 4, max := 0)));
    } else {
      t := FinishCall(p, e, sem, seen, m, d, x, f);
    }
  }

  /** The block-ending fallback, which reconstructs pc from the decoder position. */
  method FinishFunctionBlock<S(!new)>(p: Code, e: seq<DecoderData>, sem: Sem<S>, seen: Sight<S>, m: Cpu<S>, d: nat,
                                      x: Cpu<S>, ghost f: Stepper<S>)
    returns (t: Transfer<S>)
    requires IsDispatcher(p, e, sem, seen, f)
    requires AtEnd(p, e, x, d) && m == x.(counter := x.counter + 1)
    requires FlowOf(p.build, e[d].bytecode).FunctionBlock?
    ensures Transferred(p, e, sem, x, f(x), d, t)
  {
    FunctionBlockStep(p, e, sem, seen, f, x, d);
    var r := ExecuteHandler(p.slots[d], sem, seen, x);
    if r.None? {
      t := Out(Raised(m.s, Some(p.AddressOf(d))));
    } else {
      var moved := m.(s := r.value, pc := m.pc + p.build.Bytes(p.slots[d].len));
      t := if moved.counter >= moved.max then CheckJump(moved) else NextBlock(moved, d + p.slots[d].len);
    }
  }

  method FinishBlock<S(!new)>(p: Code, e: seq<DecoderData>, sem: Sem<S>, seen: Sight<S>, m: Cpu<S>, d: nat, x: Cpu<S>,
                              ghost f: Stepper<S>)
    returns (t: Transfer<S>)
    requires IsDispatcher(p, e, sem, seen, f)
    requires p.Measured() && AtEnd(p, e, x, d) && m == x.(counter := x.counter + 1)
    ensures Transferred(p, e, sem, x, f(x), d, t)
  {
    assert HandlerFits(p, e, d);
    match FlowOf(p.build, e[d].bytecode) {
      case CondBranch(_) => t := FinishBranch(p, e, sem, seen, m, d, x, f);
      case ForwardBranch => t := FinishForwardBranch(p, e, sem, seen, m, d, x, f);
      case BranchAlways(_) => t := FinishJump(p, e, sem, seen, m, d, x, f);
      case CheckedJump => t := FinishJump(p, e, sem, seen, m, d, x, f);
      case Indirect(_) => t := FinishIndirect(p, e, sem, seen, m, d, x, f);
      case SystemCall => t := FinishSystem(p, e, sem, seen, m, d, x, f);
      case SystemOp => t := FinishSystem(p, e, sem, seen, m, d, x, f);
      case StopRun => t := FinishSystem(p, e, sem, seen, m, d, x, f);
      case FunctionBlock => t := FinishFunctionBlock(p, e, sem, seen, m, d, x, f);
    }
  }

  // -------------------------------------------------------------------------
  // Entries without a handler
  // -------------------------------------------------------------------------

  ghost function Max(a: int, b: int): int { if a > b then a else b }

  /** simulate_undecoded executes the instruction at m: the sweep skipped it, or the decoder is lost. */
  ghost predicate Astray<S>(p: Code, e: seq<DecoderData>, m: Cpu<S>) {
    NoHandler(p, e, m.pc) && (IndexInverts(p, m.pc); m.lost || !p.IsStart(Index(p, m.pc)))
  }

  /** What the counter, without what was added to it, may have reached when simulate_undecoded returns. */
  ghost predicate Barely<S>(m0: Cpu<S>, m: Cpu<S>) {
    m.counter - (m.extra - m0.extra) <= Max(m0.counter, m0.max - 1) + 1
  }

  /** simulate_undecoded: instruction by instruction, from a place the sweep skipped until
      one it knows.  Ends early where an instruction faults. */
  method SimulateUndecoded<S(!new)>(p: Code, e: seq<DecoderData>, sem: Sem<S>, ghost seen: Sight<S>, m0: Cpu<S>,
                                    ghost f: Stepper<S>)
    returns (m: Cpu<S>, faulted: bool, ghost k: nat)
    requires IsDispatcher(p, e, sem, seen, f) && Astray(p, e, m0)
    ensures Steps(f, m0, k) == Some(m)
    ensures faulted ==> f(m) == None && Astray(p, e, m)
    ensures !faulted ==> k > 0 && Steps(f, m0, k - 1).value.max == m0.max
    ensures !faulted ==> Barely(m0, m) && (m.counter < m.max ==> !m.lost)
  {
    m, faulted, k := m0, false, 0;
    while true
      invariant Steps(f, m0, k) == Some(m)
      invariant Astray(p, e, m) && m.max == m0.max && m.extra >= m0.extra
      invariant if k == 0 then m == m0 else m.counter < m.max
      decreases if m.counter < m.max then m.max - m.counter else 0, if k == 0 then 1 else 0
    {
      UnhandledIsStep(p, e, sem, seen, m);
      var next := Step(p, sem, m);
      if next.None? {
        faulted := true;
        return;
      }
      StepCounts(p, sem, m);
      m, k := Undecoded(p, e, next.value, 0), k + 1;
      if !m.lost || m.counter >= m.max {
        return;
      }
    }
  }

  /** What an instruction that no handler of the host executes does, apart from the counter. */
  lemma StepIgnoresCounter<S>(p: Code, sem: Sem<S>, x: Cpu<S>, d: nat, c: nat)
    requires d < p.Count() && x.pc == p.AddressOf(d) && p.slots[d].cls in {Plain, Branch, Jump, JumpReg}
    ensures var y, y' := Step(p, sem, x), Step(p, sem, x.(counter := c));
            if y.None? then y'.None?
            else y' == Some(y.value.(counter := c + 1)) && y.value == x.(s := y.value.s, pc := y.value.pc,
                                                                         counter := x.counter + 1)
  {
    AddressInverts(p, d);
  }

  /** What execute_invalid leaves. */
  datatype Fallback<+S> = Raises(m: Cpu<S>) | Resumes(m: Cpu<S>)

  ghost predicate FellBack<S>(p: Code, e: seq<DecoderData>, sem: Sem<S>, f: Stepper<S>, x: Cpu<S>, k: nat,
                              b: Fallback<S>)
  {
    && Steps(f, x, k).Some?
    && var y := Steps(f, x, k).value;
    match b
    case Raises(m) => FaultedAt(p, e, sem, f, y, m)
    case Resumes(m) =>
      && y == m && k > 0 && Steps(f, x, k - 1).value.max == x.max
      && Barely(x, m) && (m.counter < m.max ==> !m.lost)
  }

  /** An exception at y, with pc stored: past the end, or at an instruction without a handler. */
  ghost predicate FaultedAt<S>(p: Code, e: seq<DecoderData>, sem: Sem<S>, f: Stepper<S>, y: Cpu<S>, m: Cpu<S>) {
    && f(y) == None && (y.pc == p.End() || NoHandler(p, e, y.pc))
    && m.pc == y.pc && m.s == Thrown(p, e, sem, y)
  }

  /** execute_invalid with simulate_undecoded at work, k steps after x. */
  method ResumeAstray<S(!new)>(p: Code, e: seq<DecoderData>, sem: Sem<S>, ghost seen: Sight<S>, y: Cpu<S>,
                               ghost f: Stepper<S>)
    returns (b: Fallback<S>, ghost k: nat)
    requires IsDispatcher(p, e, sem, seen, f) && Astray(p, e, y)
    ensures FellBack(p, e, sem, f, y, k, b)
  {
    var z, faulted;
    z, faulted, k := SimulateUndecoded(p, e, sem, seen, y, f);
    b := if faulted then Raises(z.(s := Thrown(p, e, sem, z))) else Resumes(z);
  }

  /** An instruction more in front of a fallback. */
  lemma FellBackLater<S(!new)>(p: Code, e: seq<DecoderData>, sem: Sem<S>, f: Stepper<S>, x: Cpu<S>, y: Cpu<S>, k: nat,
                               b: Fallback<S>)
    requires f(x) == Some(y) && FellBack(p, e, sem, f, y, k, b) && y.max == x.max
    requires y.counter - (y.extra - x.extra) == x.counter + 1 && y.counter < y.max && y.extra >= x.extra
    ensures FellBack(p, e, sem, f, x, k + 1, b)
  {
    assert Steps(f, x, 0) == Some(x);
    assert Steps(f, x, 1) == Some(y);
    StepsAdd(f, x, 1, k);
    if k > 0 {
      StepsAdd(f, x, 1, k - 1);
    }
  }

  /** execute_invalid at the instruction of slot d, of which rewriting left nothing: it is counted a
      second time. */
  method ExecuteCleared<S(!new)>(p: Code, e: seq<DecoderData>, sem: Sem<S>, ghost seen: Sight<S>, m: Cpu<S>, d: nat,
                                 ghost f: Stepper<S>, ghost x: Cpu<S>)
    returns (b: Fallback<S>, ghost k: nat)
    requires IsDispatcher(p, e, sem, seen, f) && ZeroIsIllegal(sem)
    requires d < p.Count() && x.pc == p.AddressOf(d) && !HasHandler(p, e, d) && !x.lost
    requires p.IsStart(d) && p.slots[d].cleared && p.slots[d].cls in {Plain, Branch, Jump, JumpReg}
    requires p.slots[d].word == 0 ==> p.slots[d].cls == Plain
    requires m == x.(counter := m.counter) && (p.slots[d].word != 0 ==> m.counter == x.counter + 1)
    ensures FellBack(p, e, sem, f, x, k, b)
  {
    AddressInverts(p, d);
    assert f(x) == Handled(p, e, sem, seen, x);
    StepIgnoresCounter(p, sem, x, d, m.counter);
    k := 0;
    assert Steps(f, x, 0) == Some(x);
    var next := Step(p, sem, m);
    if next.None? {
      b := Raises(m.(s := AtException(sem, p.slots[d], m)));
    } else {
      var y := next.value.(extra := next.value.extra + 1, lost := NoHandler(p, e, next.value.pc));
      assert f(x) == Some(y);
      if y.lost && y.counter < y.max {
        b, k := ResumeAstray(p, e, sem, seen, y, f);
        FellBackLater(p, e, sem, f, x, y, k, b);
        k := k + 1;
      } else {
        b, k := Resumes(y), 1;
        assert Steps(f, x, 1) == Some(y);
      }
    }
  }

  /** execute_invalid at slot d: the counter of m is ahead of the single instructions, at x, by what
      the entry counts. */
  method ExecuteInvalid<S(!new)>(p: Code, e: seq<DecoderData>, sem: Sem<S>, ghost seen: Sight<S>, m: Cpu<S>, d: nat,
                                 ghost f: Stepper<S>, ghost x: Cpu<S>)
    returns (b: Fallback<S>, ghost k: nat)
    requires IsDispatcher(p, e, sem, seen, f) && p.Measured() && Ready(p, e) && ZeroIsIllegal(sem)
    requires d <= p.Count() && x.pc == p.AddressOf(d) && m == x.(counter := x.counter + Ahead(p, e, d)) && !x.lost
    requires d < p.Count() ==> e[d].bytecode == INVALID
    ensures FellBack(p, e, sem, f, x, k, b)
    ensures d == p.Count() || !ZeroBits(p, d) ==> k == 0 && b.Raises? && b.m == m
  {
    if d < p.Count() && !p.IsStart(d) {
      BlankIsCompressed(p, e, d);
      AddressInverts(p, d);
      b, k := ResumeAstray(p, e, sem, seen, m, f);
    } else if d < p.Count() && p.slots[d].cleared {
      assert HandlerFits(p, e, d);
      b, k := ExecuteCleared(p, e, sem, seen, m, d, f, x);
    } else {
      b, k := Raises(m), 0;
      assert Steps(f, x, 0) == Some(x);
      NothingThere(p, e, sem, seen, f, x, d);
    }
  }

  lemma NothingThere<S(!new)>(p: Code, e: seq<DecoderData>, sem: Sem<S>, seen: Sight<S>, f: Stepper<S>, x: Cpu<S>,
                              d: nat)
    requires IsDispatcher(p, e, sem, seen, f) && d <= p.Count() && x.pc == p.AddressOf(d) && !x.lost
    requires d < p.Count() ==> !HasHandler(p, e, d) && !ZeroBits(p, d)
    ensures FaultedAt(p, e, sem, f, x, x)
  {
    if d < p.Count() {
      AddressInverts(p, d);
    }
    assert f(x) == Handled(p, e, sem, seen, x);
  }

  // -------------------------------------------------------------------------
  // The dispatch loop
  // -------------------------------------------------------------------------

  /** What the counter cannot exceed: the limit (or the start, if that is past it) plus the
      instructions of the segment. */
  ghost function Budget<S>(p: Code, m0: Cpu<S>): int {
    Max(m0.max, m0.counter + 1) + StartsFrom(p, 0)
  }

  /** The counter of m without what handlers added since m0. */
  ghost function Own<S>(m0: Cpu<S>, m: Cpu<S>): int {
    m.counter - (m.extra - m0.extra)
  }

  /** At the entry of a block: in step with the single instructions, and enough budget left for
      those ahead. */
  ghost predicate Cruising<S>(p: Code, f: Stepper<S>, m0: Cpu<S>, k: nat, m: Cpu<S>, d: nat) {
    && Steps(f, m0, k) == Some(m)
    && d <= p.Count() && m.pc == p.AddressOf(d) && m.max == m0.max && m.extra >= m0.extra && !m.lost
    && Own(m0, m) + StartsFrom(p, d) < Budget(p, m0)
    && (d < p.Count() && !p.IsStart(d) ==> Own(m0, m) + 1 < Budget(p, m0))
  }

  /** k steps lead to m, the limit still in force before the last of them. */
  ghost predicate Reached<S>(p: Code, f: Stepper<S>, m0: Cpu<S>, k: nat, m: Cpu<S>) {
    && k > 0 && Steps(f, m0, k) == Some(m)
    && Steps(f, m0, k - 1).value.max == m0.max
    && Own(m0, m) < Budget(p, m0)
  }

  /** Every way out, compared with k steps of single instructions. */
  ghost predicate Agrees<S>(p: Code, e: seq<DecoderData>, sem: Sem<S>, f: Stepper<S>, m0: Cpu<S>, k: nat, r: Exit<S>) {
    match r
    case Finished(m) => Reached(p, f, m0, k, m) && m.max == 0
    case Exhausted(m) => Reached(p, f, m0, k, m) && m.counter >= m.max
    case Left(m) => Reached(p, f, m0, k, m) && m.counter < m.max && !OnSlot(p, m.pc)
    case Raised(s, stored) =>
      && Steps(f, m0, k).Some?
      && var x := Steps(f, m0, k).value;
      && f(x) == None && OnSlot(p, x.pc) && HasHandler(p, e, Index(p, x.pc))
      && RaisedAt(p, e, sem, x, Index(p, x.pc), s, stored)
    case Faulted(m) => Steps(f, m0, k).Some? && FaultedAt(p, e, sem, f, Steps(f, m0, k).value, m)
  }

  /** What one block does, from its entry at slot d. */
  datatype BlockResult<+S> = Next(m: Cpu<S>, decoder: nat) | Check(m: Cpu<S>) | Leave(exit: Exit<S>)

  ghost predicate BlockAgrees<S>(p: Code, e: seq<DecoderData>, sem: Sem<S>, f: Stepper<S>, m0: Cpu<S>, m: Cpu<S>,
                                 d: nat, k': nat, r: BlockResult<S>)
  {
    match r
    case Next(m', d') =>
      && Reached(p, f, m0, k', m') && m'.counter > m.counter && d' <= p.Count() && m'.pc == p.AddressOf(d')
      && !m'.lost
      && (m'.counter >= m'.max ==> Cruising(p, f, m0, k', m', d') && d < d')
    case Check(m') => Reached(p, f, m0, k', m') && m'.counter > m.counter && (m'.counter < m'.max ==> !m'.lost)
    case Leave(exit) => Agrees(p, e, sem, f, m0, k', exit)
  }

  /** Straight instructions inside a block, seen from the start of the run. */
  lemma InsideBlock<S>(p: Code, e: seq<DecoderData>, f: Stepper<S>, m0: Cpu<S>, k: nat, m: Cpu<S>, d: nat, k1: nat,
                       x: Cpu<S>, s: S, d1: nat, pc: nat)
    requires p.Count() < |e| && Cruising(p, f, m0, k, m, d)
    requires Straight(p, e, f, m, d, k1, s, d1, pc) && Steps(f, m, k1) == Some(x)
    ensures Steps(f, m0, k + k1) == Some(x)
    ensures x == m.(s := s, pc := p.AddressOf(d1), counter := m.counter + k1) && x.max == m0.max
    ensures Own(m0, x) + StartsFrom(p, d1) < Budget(p, m0)
  {
    StepsAdd(f, m0, k, k1);
  }

  /** The last instruction of a block, seen from the start of the run. */
  lemma EndOfBlock<S(!new)>(p: Code, f: Stepper<S>, m0: Cpu<S>, k: nat, x: Cpu<S>, d: nat, m: Cpu<S>)
    requires p.Measured() && d < p.Count() && p.IsStart(d)
    requires Steps(f, m0, k) == Some(x) && x.max == m0.max && x.extra >= m0.extra
    requires Own(m0, x) + StartsFrom(p, d) < Budget(p, m0)
    requires Counts(f) && f(x) == Some(m)
    ensures Reached(p, f, m0, k + 1, m) && m.counter > x.counter && m.extra >= m0.extra
    ensures Own(m0, m) + StartsFrom(p, d + 1) < Budget(p, m0)
  {
    StartsAfter(p, d);
  }

  /** Going on without a test, strictly forward. */
  lemma CruiseForward<S>(p: Code, f: Stepper<S>, m0: Cpu<S>, k: nat, m: Cpu<S>, d: nat, d': nat)
    requires Reached(p, f, m0, k, m) && m.max == m0.max && m.extra >= m0.extra && !m.lost
    requires Own(m0, m) + StartsFrom(p, d + 1) < Budget(p, m0)
    requires d < d' <= p.Count() && m.pc == p.AddressOf(d')
    requires d' < p.Count() && !p.IsStart(d') ==> d' + 1 < p.Count()
    ensures Cruising(p, f, m0, k, m, d')
  {
    StartsDecrease(p, d + 1, d');
    if d' < p.Count() && !p.IsStart(d') {
      StartsBehindMiddle(p, d');
    }
  }

  /** Going on after a test that the counter is below its limit, anywhere. */
  lemma CruiseChecked<S(!new)>(p: Code, f: Stepper<S>, m0: Cpu<S>, k: nat, m: Cpu<S>, d: nat)
    requires Counts(f) && p.Count() > 0 && Reached(p, f, m0, k, m) && m.counter < m.max && !m.lost
    requires d <= p.Count() && m.pc == p.AddressOf(d)
    ensures Cruising(p, f, m0, k, m, d)
  {
    StepsCount(f, m0, k);
    StartsDecrease(p, 0, d);
    assert p.IsStart(0);
  }

  /** The last instruction of a block has been reached, after k steps. */
  ghost predicate Ending<S>(p: Code, f: Stepper<S>, m0: Cpu<S>, k: nat, x: Cpu<S>, d: nat) {
    && d < p.Count() && p.IsStart(d) && x.pc == p.AddressOf(d)
    && Steps(f, m0, k) == Some(x) && x.max == m0.max && x.extra >= m0.extra && !x.lost
    && Own(m0, x) + StartsFrom(p, d) < Budget(p, m0)
  }

  lemma LeaveToNext<S(!new)>(p: Code, e: seq<DecoderData>, sem: Sem<S>, f: Stepper<S>, m0: Cpu<S>, m: Cpu<S>, d: nat,
                             k: nat, x: Cpu<S>, d1: nat, m': Cpu<S>, d': nat)
    requires p.Measured() && Ending(p, f, m0, k, x, d1) && d <= d1 && x.counter >= m.counter
    requires Counts(f) && Transferred(p, e, sem, x, f(x), d1, NextBlock(m', d'))
    ensures BlockAgrees(p, e, sem, f, m0, m, d, k + 1, Next(m', d'))
  {
    EndOfBlock(p, f, m0, k, x, d1, m');
    if m'.counter >= m'.max {
      CruiseForward(p, f, m0, k + 1, m', d1, d');
    }
  }

  lemma LeaveWithExit<S(!new)>(p: Code, e: seq<DecoderData>, sem: Sem<S>, f: Stepper<S>, m0: Cpu<S>, k: nat,
                               x: Cpu<S>, d1: nat, exit: Exit<S>)
    requires p.Measured() && Ending(p, f, m0, k, x, d1) && HasHandler(p, e, d1)
    requires Counts(f) && Transferred(p, e, sem, x, f(x), d1, Out(exit))
    ensures Agrees(p, e, sem, f, m0, if exit.Finished? then k + 1 else k, exit)
  {
    match exit
    case Finished(m') => EndOfBlock(p, f, m0, k, x, d1, m');
    case Raised(_, _) => AddressInverts(p, d1);
  }

  function AfterBlock<S>(t: Transfer<S>): BlockResult<S> {
    match t
    case NextBlock(m, d) => Next(m, d)
    case CheckJump(m) => Check(m)
    case Out(exit) => Leave(exit)
  }

  lemma TransferAgrees<S(!new)>(p: Code, e: seq<DecoderData>, sem: Sem<S>, f: Stepper<S>, m0: Cpu<S>, m: Cpu<S>,
                                d: nat, k: nat, x: Cpu<S>, d1: nat, t: Transfer<S>, k': nat)
    requires p.Measured() && Ending(p, f, m0, k, x, d1) && HasHandler(p, e, d1) && d <= d1 && x.counter >= m.counter
    requires Counts(f) && Transferred(p, e, sem, x, f(x), d1, t)
    requires k' == if t.Out? && t.exit.Raised? then k else k + 1
    ensures BlockAgrees(p, e, sem, f, m0, m, d, k', AfterBlock(t))
  {
    match t
    case NextBlock(m', d') => LeaveToNext(p, e, sem, f, m0, m, d, k, x, d1, m', d');
    case CheckJump(m') => EndOfBlock(p, f, m0, k, x, d1, m');
    case Out(exit) => LeaveWithExit(p, e, sem, f, m0, k, x, d1, exit);
  }

  /** An exception of a handler inside a block. */
  lemma RaisedInside<S>(p: Code, e: seq<DecoderData>, sem: Sem<S>, f: Stepper<S>, m0: Cpu<S>, k: nat, x: Cpu<S>,
                        d1: nat, m: Cpu<S>, d: nat, r: BlockResult<S>)
    requires Steps(f, m0, k) == Some(x) && f(x) == None && d1 < p.Count() && x.pc == p.AddressOf(d1)
    requires Ready(p, e) && p.IsStart(d1) && Sequential(FlowOf(p.build, e[d1].bytecode))
    requires r == Leave(Raised(x.s, None))
    ensures BlockAgrees(p, e, sem, f, m0, m, d, k, r)
  {
    AddressInverts(p, d1);
    assert HandlerFits(p, e, d1);
  }

  /** The fallback raised an exception. */
  lemma FallbackLeaves<S(!new)>(p: Code, e: seq<DecoderData>, sem: Sem<S>, f: Stepper<S>, m0: Cpu<S>, k: nat,
                                x: Cpu<S>, k1: nat, b: Fallback<S>, m: Cpu<S>, d: nat)
    requires Steps(f, m0, k) == Some(x) && FellBack(p, e, sem, f, x, k1, b) && b.Raises?
    ensures BlockAgrees(p, e, sem, f, m0, m, d, k + k1, Leave(Faulted(b.m)))
  {
    StepsAdd(f, m0, k, k1);
  }

  /** The fallback reached a place from which the dispatcher goes on. */
  lemma FallbackEnds<S(!new)>(p: Code, e: seq<DecoderData>, sem: Sem<S>, f: Stepper<S>, m0: Cpu<S>, k: nat, x: Cpu<S>,
                              k1: nat, b: Fallback<S>, m: Cpu<S>, d: nat)
    requires Counts(f) && p.Count() > 0 && Steps(f, m0, k) == Some(x) && x.max == m0.max && x.extra >= m0.extra
    requires Own(m0, x) + 1 < Budget(p, m0) && x.counter >= m.counter
    requires FellBack(p, e, sem, f, x, k1, b) && b.Resumes?
    ensures BlockAgrees(p, e, sem, f, m0, m, d, k + k1, Check(b.m))
  {
    StepsAdd(f, m0, k, k1);
    StepsAdd(f, m0, k, k1 - 1);
    StepsCount(f, x, k1);
    assert p.IsStart(0);
  }

  /** The fallback from x, seen from the start of the run. */
  lemma FallbackAgrees<S(!new)>(p: Code, e: seq<DecoderData>, sem: Sem<S>, f: Stepper<S>, m0: Cpu<S>, k: nat,
                                x: Cpu<S>, d1: nat, k1: nat, b: Fallback<S>, m: Cpu<S>, d: nat)
    requires Counts(f) && p.Count() > 0 && Steps(f, m0, k) == Some(x) && x.max == m0.max && x.extra >= m0.extra
    requires x.counter >= m.counter && FellBack(p, e, sem, f, x, k1, b) && d1 <= p.Count()
    requires Own(m0, x) + StartsFrom(p, d1) < Budget(p, m0)
    requires d1 < p.Count() && !p.IsStart(d1) ==> Own(m0, x) + 1 < Budget(p, m0)
    requires d1 == p.Count() ==> b.Raises?
    ensures BlockAgrees(p, e, sem, f, m0, m, d, k + k1, AfterFallback(b))
  {
    if b.Raises? {
      FallbackLeaves(p, e, sem, f, m0, k, x, k1, b, m, d);
    } else {
      FallbackEnds(p, e, sem, f, m0, k, x, k1, b, m, d);
    }
  }

  function AfterFallback<S>(b: Fallback<S>): BlockResult<S> {
    match b
    case Raises(m) => Leave(Faulted(m))
    case Resumes(m) => Check(m)
  }

  lemma BlankIsCompressed(p: Code, e: seq<DecoderData>, d: nat)
    requires p.Measured() && Ready(p, e) && d < p.Count() && !p.IsStart(d)
    ensures e[d] == ZERO_ENTRY && InstructionCount(p.build, e[d]) == 0
  {
    assert Blank(e, d);
    if !p.build.compressed {
      UncompressedStarts(p, d);
    }
  }

  /** The entry of slot d has no handler: execute_invalid. */
  method RunInvalid<S(!new)>(p: Code, e: seq<DecoderData>, sem: Sem<S>, ghost seen: Sight<S>, m: Cpu<S>, d: nat,
                             ghost f: Stepper<S>, ghost m0: Cpu<S>, ghost k: nat)
    returns (r: BlockResult<S>, ghost k': nat)
    requires IsDispatcher(p, e, sem, seen, f) && Counts(f)
    requires p.Measured() && Ready(p, e) && p.Count() > 0 && ZeroIsIllegal(sem) && Cruising(p, f, m0, k, m, d)
    requires d < p.Count() ==> e[d].bytecode == INVALID
    ensures BlockAgrees(p, e, sem, f, m0, m, d, k', r)
  {
    var entered := m.(counter := m.counter + if d < p.Count() then InstructionCount(p.build, e[d]) else 0);
    var b;
    ghost var k1;
    b, k1 := ExecuteInvalid(p, e, sem, seen, entered, d, f, m);
    r, k' := AfterFallback(b), k + k1;
    FallbackAgrees(p, e, sem, f, m0, k, m, d, k1, b, m, d);
  }

  /** A slot with a handler is an instruction of the sweep. */
  lemma HandlerMeansStart(p: Code, e: seq<DecoderData>, d: nat)
    requires Ready(p, e) && d <= p.Count() && e[d].bytecode != INVALID
    ensures d < p.Count() && p.IsStart(d)
  {
    assert d == p.Count() || p.IsStart(d) || Blank(e, d);
  }

  /** One block: from its entry at slot d to where its last instruction leads. */
  method RunBlock<S(!new)>(p: Code, e: seq<DecoderData>, sem: Sem<S>, seen: Sight<S>, m: Cpu<S>, d: nat,
                           ghost f: Stepper<S>, ghost m0: Cpu<S>, ghost k: nat)
    returns (r: BlockResult<S>, ghost k': nat)
    requires IsDispatcher(p, e, sem, seen, f) && Counts(f)
    requires p.Measured() && Ready(p, e) && p.Count() > 0 && ZeroIsIllegal(sem) && Cruising(p, f, m0, k, m, d)
    ensures BlockAgrees(p, e, sem, f, m0, m, d, k', r)
  {
    if e[d].bytecode == INVALID {
      r, k' := RunInvalid(p, e, sem, seen, m, d, f, m0, k);
    } else {
      HandlerMeansStart(p, e, d);
      r, k' := RunEntered(p, e, sem, seen, m, d, f, m0, k);
    }
  }

  /** A block whose first entry has a handler: move pc and the counter to its end, then run. */
  method RunEntered<S(!new)>(p: Code, e: seq<DecoderData>, sem: Sem<S>, seen: Sight<S>, m: Cpu<S>, d: nat,
                             ghost f: Stepper<S>, ghost m0: Cpu<S>, ghost k: nat)
    returns (r: BlockResult<S>, ghost k': nat)
    requires IsDispatcher(p, e, sem, seen, f) && Counts(f)
    requires p.Measured() && Ready(p, e) && ZeroIsIllegal(sem)
    requires Cruising(p, f, m0, k, m, d) && d < p.Count() && p.IsStart(d)
    ensures BlockAgrees(p, e, sem, f, m0, m, d, k', r)
  {
    var pc := m.pc + BlockBytes(p.build, e[d]);
    var counter := m.counter + InstructionCount(p.build, e[d]);
    var s, d1, faulted, x;
    ghost var k1;
    s, d1, faulted, k1, x := RunStraight(p, e, sem, seen, m.s, d, pc, m, f);
    InsideBlock(p, e, f, m0, k, m, d, k1, x, s, d1, pc);
    var now := m.(s := s, pc := pc, counter := counter);
    r, k' := AfterStraight(p, e, sem, seen, now, d1, faulted, x, f, m0, k + k1, m, d);
  }

  /** After the straight part, in which an instruction may have raised an exception. */
  method AfterStraight<S(!new)>(p: Code, e: seq<DecoderData>, sem: Sem<S>, seen: Sight<S>, now: Cpu<S>, d1: nat,
                                faulted: bool, x: Cpu<S>, ghost f: Stepper<S>, ghost m0: Cpu<S>, ghost k: nat,
                                ghost m: Cpu<S>, ghost d: nat)
    returns (r: BlockResult<S>, ghost k': nat)
    requires IsDispatcher(p, e, sem, seen, f) && Counts(f)
    requires p.Measured() && Ready(p, e) && p.Count() > 0 && ZeroIsIllegal(sem)
    requires d <= d1 <= p.Count() && x.counter >= m.counter && x.pc == p.AddressOf(d1)
    requires Steps(f, m0, k) == Some(x) && x.max == m0.max && x.extra >= m0.extra && !x.lost
    requires Own(m0, x) + StartsFrom(p, d1) < Budget(p, m0)
    requires now == x.(pc := now.pc, counter := x.counter + Ahead(p, e, d1))
    requires d1 < p.Count() ==> p.IsStart(d1) && now.pc == p.AddressOf(d1) + BlockBytes(p.build, e[d1])
    requires faulted ==> f(x) == None && d1 < p.Count()
    requires d1 < p.Count() ==> faulted == Sequential(FlowOf(p.build, e[d1].bytecode))
    ensures BlockAgrees(p, e, sem, f, m0, m, d, k', r)
  {
    if faulted {
      r, k' := Leave(Raised(x.s, None)), k;
      RaisedInside(p, e, sem, f, m0, k, x, d1, m, d, r);
    } else {
      r, k' := RunEnd(p, e, sem, seen, now, d1, x, f, m0, k, m, d);
    }
  }

  /** After the straight part: the block ends at slot d1, or runs into an entry without a handler. */
  method RunEnd<S(!new)>(p: Code, e: seq<DecoderData>, sem: Sem<S>, seen: Sight<S>, now: Cpu<S>, d1: nat, x: Cpu<S>,
                         ghost f: Stepper<S>, ghost m0: Cpu<S>, ghost k: nat, ghost m: Cpu<S>, ghost d: nat)
    returns (r: BlockResult<S>, ghost k': nat)
    requires IsDispatcher(p, e, sem, seen, f) && Counts(f)
    requires p.Measured() && Ready(p, e) && p.Count() > 0 && ZeroIsIllegal(sem)
    requires d <= d1 <= p.Count() && x.counter >= m.counter && x.pc == p.AddressOf(d1)
    requires Steps(f, m0, k) == Some(x) && x.max == m0.max && x.extra >= m0.extra && !x.lost
    requires Own(m0, x) + StartsFrom(p, d1) < Budget(p, m0)
    requires now == x.(pc := now.pc, counter := x.counter + Ahead(p, e, d1))
    requires d1 < p.Count() ==> p.IsStart(d1) && !Sequential(FlowOf(p.build, e[d1].bytecode))
    requires d1 < p.Count() ==> now.pc == p.AddressOf(d1) + BlockBytes(p.build, e[d1])
    ensures BlockAgrees(p, e, sem, f, m0, m, d, k', r)
  {
    if d1 == p.Count() || e[d1].bytecode == INVALID {
      var b;
      ghost var k1;
      b, k1 := ExecuteInvalid(p, e, sem, seen, now.(pc := p.AddressOf(d1)), d1, f, x);
      r, k' := AfterFallback(b), k + k1;
      FallbackAgrees(p, e, sem, f, m0, k, x, d1, k1, b, m, d);
    } else {
      FlowKinds(p.build, e[d1].bytecode);
      assert HandlerFits(p, e, d1);
      var t := FinishBlock(p, e, sem, seen, now, d1, x, f);
      r, k' := AfterBlock(t), if t.Out? && t.exit.Raised? then k else k + 1;
      TransferAgrees(p, e, sem, f, m0, m, d, k, x, d1, t, k');
    }
  }

  /** The dispatch loop, against a stepper f that is the dispatcher's. */
  method Dispatch<S(!new)>(p: Code, e: seq<DecoderData>, sem: Sem<S>, seen: Sight<S>, m0: Cpu<S>, ghost f: Stepper<S>)
    returns (r: Exit<S>, ghost k: nat)
    requires IsDispatcher(p, e, sem, seen, f) && Counts(f)
    requires p.Measured() && Ready(p, e) && p.Count() > 0 && ZeroIsIllegal(sem) && OnSlot(p, m0.pc) && !m0.lost
    ensures Agrees(p, e, sem, f, m0, k, r)
  {
    IndexInverts(p, m0.pc);
    var m, d := m0, Index(p, m0.pc);
    k := 0;
    StartsDecrease(p, 0, d);
    assert p.IsStart(0);
    while true
      invariant Cruising(p, f, m0, k, m, d)
      decreases if m.counter < m.max then m.max - m.counter else 0, p.Count() - d
    {
      var b;
      b, k := RunBlock(p, e, sem, seen, m, d, f, m0, k);
      match b {
        case Leave(exit) =>
          return exit, k;
        case Check(m') =>
          // check_jump
          if m'.counter >= m'.max {
            return Exhausted(m'), k;
          }
          if !OnSlot(p, m'.pc) {
            return Left(m'), k;
          }
          IndexInverts(p, m'.pc);
          CruiseChecked(p, f, m0, k, m', Index(p, m'.pc));
          m, d := m', Index(p, m'.pc);
        case Next(m', d') =>
          if m'.counter < m'.max {
            CruiseChecked(p, f, m0, k, m', d');
          }
          m, d := m', d';
      }
    }
  }

  // -------------------------------------------------------------------------
  // Against simulate_precise
  // -------------------------------------------------------------------------

  /** Along k instructions of the dispatcher, and at the next one, it agrees with simulate_precise. */
  ghost predicate FaithfulRun<S>(p: Code, e: seq<DecoderData>, sem: Sem<S>, seen: Sight<S>, f: Stepper<S>, m0: Cpu<S>,
                                 k: nat)
  {
    forall i: nat {:trigger Steps(f, m0, i)} :: i <= k && Steps(f, m0, i).Some? ==>
      FaithfulHere(p, e, sem, seen, Steps(f, m0, i).value)
  }

  /** simulate_precise does not know whether the decoder is lost. */
  lemma StepIgnoresLost<S>(p: Code, sem: Sem<S>, m: Cpu<S>, lost: bool)
    ensures Step(p, sem, m.(lost := lost)) ==
              match Step(p, sem, m)
              case None => None
              case Some(y) => Some(y.(lost := lost))
    ensures Step(p, sem, m).Some? ==> Step(p, sem, m).value.lost == m.lost
  {
    if OnSlot(p, m.pc) {
      IndexInverts(p, m.pc);
      ExecuteRegardless(p.build, sem, p.slots[Index(p, m.pc)], m, m.max, lost);
    }
  }

  /** After k instructions both have got to the same place, or both have raised an exception. */
  ghost predicate Together<S>(f: Stepper<S>, g: Stepper<S>, m0: Cpu<S>, k: nat) {
    && Alike(Steps(f, m0, k), Steps(g, m0, k))
    && (Steps(g, m0, k).Some? ==> !Steps(g, m0, k).value.lost)
  }

  lemma {:induction false} FaithfulSteps<S(!new)>(p: Code, e: seq<DecoderData>, sem: Sem<S>, seen: Sight<S>,
                                                  f: Stepper<S>, g: Stepper<S>, m0: Cpu<S>, k: nat, i: nat)
    requires IsDispatcher(p, e, sem, seen, f) && IsReference(p, sem, g)
    requires FaithfulRun(p, e, sem, seen, f, m0, k) && !m0.lost && i <= k + 1
    ensures Together(f, g, m0, i)
  {
    if i > 0 {
      FaithfulSteps(p, e, sem, seen, f, g, m0, k, i - 1);
      if Steps(f, m0, i - 1).Some? {
        FaithfulNext(p, e, sem, seen, f, g, Steps(f, m0, i - 1).value);
      }
    }
  }

  lemma FaithfulNext<S(!new)>(p: Code, e: seq<DecoderData>, sem: Sem<S>, seen: Sight<S>, f: Stepper<S>, g: Stepper<S>,
                              x: Cpu<S>)
    requires IsDispatcher(p, e, sem, seen, f) && IsReference(p, sem, g) && FaithfulHere(p, e, sem, seen, x)
    ensures Alike(f(x), g(x.(lost := false))) && (g(x.(lost := false)).Some? ==> !g(x.(lost := false)).value.lost)
    ensures f(x) == None ==> Thrown(p, e, sem, x) == ThrownPrecisely(p, sem, x)
  {
    FaithfulExactlyWhen(p, e, sem, seen, x);
    StepIgnoresLost(p, sem, x, false);
    assert f(x) == Handled(p, e, sem, seen, x) && g(x.(lost := false)) == Step(p, sem, x.(lost := false));
  }

  /** What simulate_precise does in k steps, for every way out. */
  ghost predicate Precise<S>(p: Code, sem: Sem<S>, g: Stepper<S>, m0: Cpu<S>, k: nat, r: Exit<S>) {
    match r
    case Finished(m) => Reached(p, g, m0, k, m.(lost := false)) && m.max == 0
    case Exhausted(m) => Reached(p, g, m0, k, m.(lost := false)) && m.counter >= m.max
    case Left(m) => Reached(p, g, m0, k, m.(lost := false)) && m.counter < m.max && !OnSlot(p, m.pc)
    case Raised(s, stored) =>
      && Steps(g, m0, k).Some?
      && var x := Steps(g, m0, k).value;
      && g(x) == None && OnSlot(p, x.pc) && s == ThrownPrecisely(p, sem, x)
      && (stored.Some? ==> stored.value == x.pc)
    case Faulted(m) =>
      && Steps(g, m0, k).Some?
      && var x := Steps(g, m0, k).value;
      && g(x) == None && m.pc == x.pc && m.s == ThrownPrecisely(p, sem, x)
  }

  lemma FaithfulReached<S(!new)>(p: Code, e: seq<DecoderData>, sem: Sem<S>, seen: Sight<S>, f: Stepper<S>,
                                 g: Stepper<S>, m0: Cpu<S>, k: nat, m: Cpu<S>)
    requires IsDispatcher(p, e, sem, seen, f) && IsReference(p, sem, g)
    requires FaithfulRun(p, e, sem, seen, f, m0, k) && !m0.lost && Reached(p, f, m0, k, m)
    ensures Reached(p, g, m0, k, m.(lost := false))
  {
    FaithfulSteps(p, e, sem, seen, f, g, m0, k, k);
    FaithfulSteps(p, e, sem, seen, f, g, m0, k, k - 1);
  }

  /** A run along which the dispatcher is faithful ends as simulate_precise does. */
  lemma FaithfulExit<S(!new)>(p: Code, e: seq<DecoderData>, sem: Sem<S>, seen: Sight<S>, f: Stepper<S>, g: Stepper<S>,
                              m0: Cpu<S>, k: nat, r: Exit<S>)
    requires IsDispatcher(p, e, sem, seen, f) && IsReference(p, sem, g)
    requires FaithfulRun(p, e, sem, seen, f, m0, k) && !m0.lost && Agrees(p, e, sem, f, m0, k, r)
    ensures Precise(p, sem, g, m0, k, r)
  {
    if r.Raised? || r.Faulted? {
      FaithfulSteps(p, e, sem, seen, f, g, m0, k, k);
      var x := Steps(f, m0, k).value;
      FaithfulNext(p, e, sem, seen, f, g, x);
    } else {
      FaithfulReached(p, e, sem, seen, f, g, m0, k, r.m);
    }
  }

  /** After any number of instructions, and whatever handlers find stored, the dispatcher is where
      simulate_precise is, and an exception leaves the same state. */
  ghost predicate AlwaysPrecise<S(!new)>(p: Code, e: seq<DecoderData>, sem: Sem<S>) {
    forall seen: Sight<S>, m0: Cpu<S>, k: nat {:trigger Steps(Dispatcher(p, e, sem, seen), m0, k)} ::
      !m0.lost ==> InStep(p, e, sem, Dispatcher(p, e, sem, seen), Reference(p, sem), m0, k)
  }

  ghost predicate InStep<S>(p: Code, e: seq<DecoderData>, sem: Sem<S>, f: Stepper<S>, g: Stepper<S>, m0: Cpu<S>,
                            k: nat)
  {
    && Together(f, g, m0, k)
    && (Steps(f, m0, k).Some? && f(Steps(f, m0, k).value) == None ==>
          Thrown(p, e, sem, Steps(f, m0, k).value) == ThrownPrecisely(p, sem, Steps(f, m0, k).value))
  }

  lemma FaithfulInStep<S(!new)>(p: Code, e: seq<DecoderData>, sem: Sem<S>, seen: Sight<S>, f: Stepper<S>,
                                g: Stepper<S>, m0: Cpu<S>, k: nat)
    requires IsDispatcher(p, e, sem, seen, f) && IsReference(p, sem, g)
    requires FaithfulRun(p, e, sem, seen, f, m0, k) && !m0.lost
    ensures InStep(p, e, sem, f, g, m0, k)
  {
    FaithfulSteps(p, e, sem, seen, f, g, m0, k, k);
    if Steps(f, m0, k).Some? {
      FaithfulNext(p, e, sem, seen, f, g, Steps(f, m0, k).value);
    }
  }

  lemma FaithfulRuns<S(!new)>(p: Code, e: seq<DecoderData>, sem: Sem<S>, seen: Sight<S>, f: Stepper<S>, m0: Cpu<S>,
                              k: nat)
    requires Faithful(p, e, sem)
    ensures FaithfulRun(p, e, sem, seen, f, m0, k)
  {
    forall i: nat | i <= k && Steps(f, m0, i).Some?
      ensures FaithfulHere(p, e, sem, seen, Steps(f, m0, i).value)
    {
      FaithfulEverywhere(p, e, sem, seen, Steps(f, m0, i).value);
    }
  }

  /** Where the two part from m, they part in the first instruction. */
  lemma FirstDifference<S(!new)>(p: Code, e: seq<DecoderData>, sem: Sem<S>, seen: Sight<S>, f: Stepper<S>,
                                 g: Stepper<S>, m: Cpu<S>)
    requires IsDispatcher(p, e, sem, seen, f) && IsReference(p, sem, g)
    requires !SameFrom(p, e, sem, seen, m)
    ensures !InStep(p, e, sem, f, g, m, 0) || !InStep(p, e, sem, f, g, m, 1)
  {
    assert f(m) == Handled(p, e, sem, seen, m) && g(m) == Step(p, sem, m);
    assert Steps(f, m, 0) == Some(m) && Steps(g, m, 0) == Some(m);
    assert Steps(f, m, 1) == f(m) && Steps(g, m, 1) == g(m);
  }

  lemma PreciseExactlyWhen<S(!new)>(p: Code, e: seq<DecoderData>, sem: Sem<S>)
    ensures AlwaysPrecise(p, e, sem) <==> Faithful(p, e, sem)
  {
    var g := Reference(p, sem);
    if Faithful(p, e, sem) {
      forall seen: Sight<S>, m0: Cpu<S>, k: nat | !m0.lost
        ensures InStep(p, e, sem, Dispatcher(p, e, sem, seen), g, m0, k)
      {
        FaithfulRuns(p, e, sem, seen, Dispatcher(p, e, sem, seen), m0, k);
        FaithfulInStep(p, e, sem, seen, Dispatcher(p, e, sem, seen), g, m0, k);
      }
    } else {
      var seen, m := UnfaithfulMachine(p, e, sem);
      FirstDifference(p, e, sem, seen, Dispatcher(p, e, sem, seen), g, m);
      assert Steps(Dispatcher(p, e, sem, seen), m, 0).Some?;
      assert Alike(Steps(Dispatcher(p, e, sem, seen), m, 1), Steps(Dispatcher(p, e, sem, seen), m, 1));
    }
  }

  /** CPU::simulate inside one segment.  It always ends, and however it ends, it did what k
      single instructions of the dispatcher do; where those are faithful, what k steps of
      simulate_precise do. */
  method Simulate<S(!new)>(p: Code, cache: array<DecoderData>, sem: Sem<S>, seen: Sight<S>, m0: Cpu<S>)
    returns (r: Exit<S>, ghost k: nat)
    requires p.Valid() && Chained(p, cache[..]) && ZeroIsIllegal(sem) && OnSlot(p, m0.pc) && !m0.lost
    ensures Agrees(p, cache[..], sem, Dispatcher(p, cache[..], sem, seen), m0, k, r)
    ensures FaithfulRun(p, cache[..], sem, seen, Dispatcher(p, cache[..], sem, seen), m0, k) ==>
              Precise(p, sem, Reference(p, sem), m0, k, r)
  {
    ChainedIsReady(p, cache[..]);
    ghost var f := Dispatcher(p, cache[..], sem, seen);
    DispatcherCounts(p, cache[..], sem, seen, f);
    r, k := Dispatch(p, cache[..], sem, seen, m0, f);
    if FaithfulRun(p, cache[..], sem, seen, f, m0, k) {
      FaithfulExit(p, cache[..], sem, seen, f, Reference(p, sem), m0, k, r);
    }
  }

  /** A run that ended by STOP or by its limit is the run of simulate_precise that is given
      the counter reached as its limit: same state, same pc, same counter. */
  lemma SameAsPrecise<S(!new)>(p: Code, sem: Sem<S>, m0: Cpu<S>, k: nat, r: Exit<S>)
    requires Precise(p, sem, Reference(p, sem), m0, k, r) && (r.Finished? || r.Exhausted?)
    requires m0.max > 0
    ensures PreciseRun(p, sem, m0.(max := r.m.counter)) ==
              Limit(r.m.(max := if r.m.max == 0 then 0 else r.m.counter, lost := false))
    ensures k == Executed(m0, r.m)
    ensures r.m.counter < Max(m0.max, m0.counter + 1) + StartsFrom(p, 0) + (r.m.extra - m0.extra)
  {
    var f := Reference(p, sem);
    ReferenceCounts(p, sem, f);
    StepsCount(f, m0, k);
    StepsArePreciseRun(p, sem, f, m0, k, r.m.(lost := false));
  }

  /** From code bytes to the end of a run: decode the segment, build its cache, dispatch. */
  method RunSegment<S(!new)>(seg: Segment, sem: Sem<S>, seen: Sight<S>, m0: Cpu<S>)
    returns (r: Exit<S>, ghost e: seq<DecoderData>, ghost k: nat)
    requires seg.Valid() && ZeroIsIllegal(sem) && OnSlot(seg.Parse(), m0.pc) && !m0.lost
    ensures Chained(seg.Parse(), e) && Agrees(seg.Parse(), e, sem, Dispatcher(seg.Parse(), e, sem, seen), m0, k, r)
    ensures FaithfulRun(seg.Parse(), e, sem, seen, Dispatcher(seg.Parse(), e, sem, seen), m0, k) ==>
              Precise(seg.Parse(), sem, Reference(seg.Parse(), sem), m0, k, r)
  {
    var p := seg.Parse();
    ValidIsMeasured(p);
    var cache := GenerateDecoderCache(p);
    e := cache[..];
    r, k := Simulate(p, cache, sem, seen, m0);
  }

  lemma ValidIsMeasured(p: Code)
    requires p.Valid()
    ensures p.Measured()
  {
    forall d | 0 <= d < p.Count()
      ensures (p.slots[d].len == 1 || p.slots[d].len == 2) && (!p.build.compressed ==> p.slots[d].len == 1)
    {
      assert p.SoundAt(d);
    }
  }
}
