/**
  One instruction as block dispatch executes it, which is not in all cases how simulate_precise
  executes it.  Handlers of the host that are called at C.EBREAK and at encodings unknown to decode
  cannot move pc; those of system instructions find the counter one higher; register jumps drop the
  lowest bit of their target; a SYSTEM instruction that reaches the limit or moves pc leaves pc one
  instruction short; an instruction without a handler raises an exception, or is counted twice.
  Faithful says exactly when none of this makes a difference.
 */
module Handlers {
  import opened Isa
  import opened Program
  import opened DecoderCache
  import opened Machine
  import opened Wrappers

  /** pc and the counter as last stored in the machine, which inside a block may be long ago. */
  datatype Seen = Seen(pc: nat, counter: nat)

  /** What a handler finds stored, at any point of a run; no two points have the same counter. */
  type Sight<!S> = Cpu<S> -> Seen

  /** Handlers that end in NEXT_INSTR or NEXT_C_INSTR.  Whatever the host does to pc, to the
      counter and to the limit is lost. */
  function HandlePlain<S>(sem: Sem<S>, see: Seen, slot: Slot, m: Cpu<S>): Option<S> {
    if Unheeded(slot.cls) then
      match sem.system(slot.word, see.pc, see.counter, m.s)
      case None => None
      case Some(r) => Some(r.s)
    else sem.plain(slot.word, m.s)
  }

  function ExecuteHandled<S>(build: Build, sem: Sem<S>, see: Seen, slot: Slot, m: Cpu<S>): Option<Cpu<S>> {
    match slot.cls
    case Plain | CBreak | Custom =>
      (match HandlePlain(sem, see, slot, m)
       case None => None
       case Some(s) => Advance(m, s, m.pc + build.Bytes(slot.len), 0, false))
    case JumpReg =>
      var t := sem.target(slot.word, m.s);
      Jumped(build, m, sem.link(slot.word, m.pc, m.s), t - t % 2)
    case Ecall | SystemOther =>
      (match sem.system(slot.word, m.pc, m.counter + 1, m.s)
       case None => None
       case Some(r) => Advance(m, r.s, r.pc + build.Bytes(slot.len), r.penalty, r.stop))
    case _ => Execute(build, sem, slot, m)
  }

  predicate HasHandler(p: Code, e: seq<DecoderData>, j: nat) {
    j < p.Count() && j < |e| && e[j].bytecode != INVALID
  }

  /** pc is on a slot whose entry has no handler. */
  predicate NoHandler(p: Code, e: seq<DecoderData>, pc: nat) {
    OnSlot(p, pc) && !HasHandler(p, e, Index(p, pc))
  }

  /** The bits of the entry at slot d are all zero: in the middle of an instruction, or where
      rewriting left nothing of it. */
  predicate ZeroBits(p: Code, d: nat)
    requires d < p.Count()
  {
    !p.IsStart(d) || p.slots[d].cleared
  }

  /** One instruction, by its handler or as simulate_precise executes it where there is none. */
  function ByHandler<S>(p: Code, e: seq<DecoderData>, sem: Sem<S>, see: Seen, m: Cpu<S>): Option<Cpu<S>> {
    if !OnSlot(p, m.pc) then None
    else
      IndexInverts(p, m.pc);
      var j := Index(p, m.pc);
      if HasHandler(p, e, j) then ExecuteHandled(p.build, sem, see, p.slots[j], m)
      else Execute(p.build, sem, p.slots[j], m)
  }

  /** After a SYSTEM instruction of len bytes that led from m to y: where it reached the limit or moved
      pc, the length of the instruction is not added. */
  function Detoured<S>(m: Cpu<S>, y: Cpu<S>, len: nat): Cpu<S> {
    if y.pc >= len && (y.counter >= y.max || y.pc - len != m.pc) then y.(pc := y.pc - len) else y
  }

  /** After an instruction of simulate_undecoded, which stops at entries with a handler; again is how
      often the entry had counted the instruction before. */
  function Undecoded<S>(p: Code, e: seq<DecoderData>, y: Cpu<S>, again: nat): Cpu<S> {
    y.(counter := y.counter + again, extra := y.extra + again, lost := NoHandler(p, e, y.pc))
  }

  /** What the dispatcher makes of the instruction at slot j, which leads from m to y. */
  function Dispatched<S>(p: Code, e: seq<DecoderData>, m: Cpu<S>, j: nat, y: Cpu<S>): Option<Cpu<S>>
    requires j < p.Count()
  {
    var slot := p.slots[j];
    if HasHandler(p, e, j) then Some(if slot.cls == SystemOther then Detoured(m, y, p.build.Bytes(slot.len)) else y)
    else if m.lost || !p.IsStart(j) then Some(Undecoded(p, e, y, 0))
    else if slot.cleared then Some(Undecoded(p, e, y, 1))
    else None   // ILLEGAL_OPCODE
  }

  /** One instruction in the dispatcher. */
  function Handled<S>(p: Code, e: seq<DecoderData>, sem: Sem<S>, seen: Sight<S>, m: Cpu<S>): Option<Cpu<S>> {
    match ByHandler(p, e, sem, seen(m), m)
    case None => None
    case Some(y) => IndexInverts(p, m.pc); Dispatched(p, e, m, Index(p, m.pc), y)
  }

  /** The stepper of the dispatcher. */
  function Dispatcher<S>(p: Code, e: seq<DecoderData>, sem: Sem<S>, seen: Sight<S>): Stepper<S> {
    (m: Cpu<S>) => Handled(p, e, sem, seen, m)
  }

  ghost predicate IsDispatcher<S(!new)>(p: Code, e: seq<DecoderData>, sem: Sem<S>, seen: Sight<S>, f: Stepper<S>) {
    forall m {:trigger Handled(p, e, sem, seen, m)} :: f(m) == Handled(p, e, sem, seen, m)
  }

  lemma ByHandlerCounts<S>(p: Code, e: seq<DecoderData>, sem: Sem<S>, see: Seen, m: Cpu<S>)
    requires ByHandler(p, e, sem, see, m).Some?
    ensures Counted(m, ByHandler(p, e, sem, see, m).value)
  {
    IndexInverts(p, m.pc);
  }

  lemma HandledCounts<S>(p: Code, e: seq<DecoderData>, sem: Sem<S>, seen: Sight<S>, m: Cpu<S>)
    requires Handled(p, e, sem, seen, m).Some?
    ensures Counted(m, Handled(p, e, sem, seen, m).value)
  {
    ByHandlerCounts(p, e, sem, seen(m), m);
  }

  lemma DispatcherCounts<S(!new)>(p: Code, e: seq<DecoderData>, sem: Sem<S>, seen: Sight<S>, f: Stepper<S>)
    requires IsDispatcher(p, e, sem, seen, f)
    ensures Counts(f)
  {
    forall m: Cpu<S> | f(m).Some?
      ensures Counted(m, f(m).value)
    {
      assert f(m) == Handled(p, e, sem, seen, m);
      HandledCounts(p, e, sem, seen, m);
    }
  }

  /** Without a handler an instruction is executed as simulate_precise does, once simulate_undecoded
      is at work. */
  lemma UnhandledIsStep<S>(p: Code, e: seq<DecoderData>, sem: Sem<S>, seen: Sight<S>, m: Cpu<S>)
    requires NoHandler(p, e, m.pc) && (IndexInverts(p, m.pc); m.lost || !p.IsStart(Index(p, m.pc)))
    ensures Handled(p, e, sem, seen, m) ==
              match Step(p, sem, m)
              case None => None
              case Some(y) => Some(Undecoded(p, e, y, 0))
  {
  }

  // -------------------------------------------------------------------------
  // When the dispatcher does what simulate_precise does
  // -------------------------------------------------------------------------

  /** The handler of the host, called at m, does not tell a counter from the next one. */
  ghost predicate CountBlind<S>(sem: Sem<S>, w: Word, m: Cpu<S>) {
    sem.system(w, m.pc, m.counter, m.s) == sem.system(w, m.pc, m.counter + 1, m.s)
  }

  /** The host, called at m, leaves pc, the counter and the limit alone, and what it does to the
      rest does not depend on them. */
  ghost predicate Harmless<S>(sem: Sem<S>, w: Word, m: Cpu<S>, see: Seen) {
    var r, r' := sem.system(w, m.pc, m.counter, m.s), sem.system(w, see.pc, see.counter, m.s);
    if r.None? then r'.None?
    else r.value.pc == m.pc && r.value.penalty == 0 && !r.value.stop && r'.Some? && r'.value.s == r.value.s
  }

  /** A SYSTEM instruction at m that is answered by r reaches the limit, stops or moves pc. */
  predicate Detours<S>(m: Cpu<S>, r: SystemResult<S>) {
    r.stop || m.counter + r.penalty + 1 >= m.max || r.pc != m.pc
  }

  /** The answers of the host to the counter and to the next one are the same, except that the second
      makes up for the missing length where that is not added. */
  ghost predicate Rejoins<S>(sem: Sem<S>, w: Word, m: Cpu<S>, len: nat) {
    var r, r' := sem.system(w, m.pc, m.counter, m.s), sem.system(w, m.pc, m.counter + 1, m.s);
    if r.None? || r'.None? then r == r'
    else r'.value == r.value.(pc := r.value.pc + if Detours(m, r'.value) then len else 0)
  }

  /** A register jump at m has an even target, and a 2-byte one does not link the register it
      jumps to. */
  ghost predicate PlainTarget<S>(build: Build, sem: Sem<S>, slot: Slot, m: Cpu<S>) {
    var t := sem.target(slot.word, if build.Bytes(slot.len) == 2 then sem.link(slot.word, m.pc, m.s) else m.s);
    var u := sem.target(slot.word, m.s);
    (build.Aligned(t) <==> build.Aligned(u - u % 2)) && (build.Aligned(t) ==> t == u - u % 2)
  }

  /** The handler of the instruction does at m what simulate_precise does. */
  ghost predicate FaithfulAt<S>(build: Build, sem: Sem<S>, slot: Slot, see: Seen, m: Cpu<S>) {
    match slot.cls
    case Ecall => CountBlind(sem, slot.word, m)
    case SystemOther => Rejoins(sem, slot.word, m, build.Bytes(slot.len))
    case CBreak | Custom => Harmless(sem, slot.word, m, see)
    case JumpReg => PlainTarget(build, sem, slot, m)
    case _ => true
  }

  /** An instruction without a handler raises an exception in simulate_precise too, and leaves the
      same state. */
  ghost predicate Refuses<S>(build: Build, sem: Sem<S>, slot: Slot, m: Cpu<S>) {
    Execute(build, sem, slot, m) == None && (slot.cleared || AtException(sem, slot, m) == m.s)
  }

  /** The instruction at slot j is one on which the dispatcher agrees with simulate_precise at m. */
  ghost predicate FaithfulSlotAt<S>(p: Code, e: seq<DecoderData>, sem: Sem<S>, j: nat, see: Seen, m: Cpu<S>)
    requires j < p.Count()
  {
    if HasHandler(p, e, j) then FaithfulAt(p.build, sem, p.slots[j], see, m)
    else !m.lost && p.IsStart(j) ==> Refuses(p.build, sem, p.slots[j], m)
  }

  ghost predicate FaithfulHere<S>(p: Code, e: seq<DecoderData>, sem: Sem<S>, seen: Sight<S>, m: Cpu<S>) {
    OnSlot(p, m.pc) ==> (IndexInverts(p, m.pc); FaithfulSlotAt(p, e, sem, Index(p, m.pc), seen(m), m))
  }

  /** Every instruction of the code is one on which the dispatcher agrees with simulate_precise. */
  ghost predicate Faithful<S(!new)>(p: Code, e: seq<DecoderData>, sem: Sem<S>) {
    forall j: nat, see: Seen, m: Cpu<S> {:trigger FaithfulSlotAt(p, e, sem, j, see, m)} ::
      j < p.Count() && m.pc == p.AddressOf(j) ==> FaithfulSlotAt(p, e, sem, j, see, m)
  }

  /** The same outcome, whether or not simulate_undecoded brought it about. */
  ghost predicate Alike<S>(a: Option<Cpu<S>>, b: Option<Cpu<S>>) {
    if a.None? || b.None? then a == b else b.value == a.value.(lost := b.value.lost)
  }

  /** The state that an exception of the dispatcher at m leaves: it refuses an instruction without a
      handler before it executes it. */
  function Thrown<S>(p: Code, e: seq<DecoderData>, sem: Sem<S>, m: Cpu<S>): S {
    if !OnSlot(p, m.pc) then m.s
    else
      IndexInverts(p, m.pc);
      var j := Index(p, m.pc);
      if HasHandler(p, e, j) || m.lost || ZeroBits(p, j) then AtException(sem, p.slots[j], m) else m.s
  }

  /** The state that an exception of simulate_precise at m leaves. */
  function ThrownPrecisely<S>(p: Code, sem: Sem<S>, m: Cpu<S>): S {
    if !OnSlot(p, m.pc) then m.s else IndexInverts(p, m.pc); AtException(sem, p.slots[Index(p, m.pc)], m)
  }

  /** From m the dispatcher and simulate_precise get to the same place, or raise exceptions that leave
      the same state. */
  ghost predicate SameFrom<S>(p: Code, e: seq<DecoderData>, sem: Sem<S>, seen: Sight<S>, m: Cpu<S>) {
    var y, y' := Handled(p, e, sem, seen, m), Step(p, sem, m);
    Alike(y, y') && (y.None? ==> Thrown(p, e, sem, m) == ThrownPrecisely(p, sem, m))
  }

  /** Where the handler of the instruction leads. */
  function AfterHandler<S>(build: Build, sem: Sem<S>, see: Seen, slot: Slot, m: Cpu<S>): Option<Cpu<S>> {
    match ExecuteHandled(build, sem, see, slot, m)
    case None => None
    case Some(y) => Some(if slot.cls == SystemOther then Detoured(m, y, build.Bytes(slot.len)) else y)
  }

  lemma EcallExactlyWhen<S>(build: Build, sem: Sem<S>, see: Seen, slot: Slot, m: Cpu<S>)
    requires slot.cls == Ecall
    ensures CountBlind(sem, slot.word, m) ==> AfterHandler(build, sem, see, slot, m) == Execute(build, sem, slot, m)
    ensures m.max > 0 && AfterHandler(build, sem, see, slot, m) == Execute(build, sem, slot, m) ==>
              CountBlind(sem, slot.word, m)
  {
  }

  lemma SystemExactlyWhen<S>(build: Build, sem: Sem<S>, see: Seen, slot: Slot, m: Cpu<S>)
    requires slot.cls == SystemOther
    ensures Rejoins(sem, slot.word, m, build.Bytes(slot.len)) ==>
              AfterHandler(build, sem, see, slot, m) == Execute(build, sem, slot, m)
    ensures m.max > 0 && AfterHandler(build, sem, see, slot, m) == Execute(build, sem, slot, m) ==>
              Rejoins(sem, slot.word, m, build.Bytes(slot.len))
  {
  }

  lemma HostExactlyWhen<S>(build: Build, sem: Sem<S>, see: Seen, slot: Slot, m: Cpu<S>)
    requires Unheeded(slot.cls)
    ensures Harmless(sem, slot.word, m, see) ==> AfterHandler(build, sem, see, slot, m) == Execute(build, sem, slot, m)
    ensures m.max > 0 && AfterHandler(build, sem, see, slot, m) == Execute(build, sem, slot, m) ==>
              Harmless(sem, slot.word, m, see)
  {
  }

  lemma JumpExactlyWhen<S>(build: Build, sem: Sem<S>, see: Seen, slot: Slot, m: Cpu<S>)
    requires slot.cls == JumpReg
    ensures PlainTarget(build, sem, slot, m) <==>
              AfterHandler(build, sem, see, slot, m) == Execute(build, sem, slot, m)
  {
  }

  /** A handler that is faithful at m, and only such a one, leads where simulate_precise leads.  A
      machine with limit 0 has been stopped before. */
  lemma HandlerExactlyWhen<S>(build: Build, sem: Sem<S>, see: Seen, slot: Slot, m: Cpu<S>)
    ensures FaithfulAt(build, sem, slot, see, m) ==>
              AfterHandler(build, sem, see, slot, m) == Execute(build, sem, slot, m)
    ensures m.max > 0 && AfterHandler(build, sem, see, slot, m) == Execute(build, sem, slot, m) ==>
              FaithfulAt(build, sem, slot, see, m)
  {
    match slot.cls
    case Ecall => EcallExactlyWhen(build, sem, see, slot, m);
    case SystemOther => SystemExactlyWhen(build, sem, see, slot, m);
    case CBreak | Custom => HostExactlyWhen(build, sem, see, slot, m);
    case JumpReg => JumpExactlyWhen(build, sem, see, slot, m);
    case _ =>
  }

  lemma FaithfulEverywhere<S(!new)>(p: Code, e: seq<DecoderData>, sem: Sem<S>, seen: Sight<S>, m: Cpu<S>)
    requires Faithful(p, e, sem)
    ensures FaithfulHere(p, e, sem, seen, m)
  {
    if OnSlot(p, m.pc) {
      IndexInverts(p, m.pc);
    }
  }

  /** The condition at one machine, with both directions. */
  lemma FaithfulExactlyWhen<S>(p: Code, e: seq<DecoderData>, sem: Sem<S>, seen: Sight<S>, m: Cpu<S>)
    ensures FaithfulHere(p, e, sem, seen, m) ==> SameFrom(p, e, sem, seen, m)
    ensures m.max > 0 && SameFrom(p, e, sem, seen, m) ==> FaithfulHere(p, e, sem, seen, m)
  {
    if OnSlot(p, m.pc) {
      IndexInverts(p, m.pc);
      if HasHandler(p, e, Index(p, m.pc)) {
        HandlerExactlyWhen(p.build, sem, seen(m), p.slots[Index(p, m.pc)], m);
      }
    }
  }

  /** Where handlers are not faithful they are not on a machine that has just entered and is running. */
  lemma UnfaithfulAfresh<S>(p: Code, e: seq<DecoderData>, sem: Sem<S>, j: nat, see: Seen, x: Cpu<S>)
    requires j < p.Count() && !FaithfulSlotAt(p, e, sem, j, see, x)
    ensures !FaithfulSlotAt(p, e, sem, j, see, x.(lost := false, max := if x.max == 0 then 1 else x.max))
  {
  }

  /** A machine on which the dispatcher and simulate_precise part, unless the code is faithful. */
  lemma UnfaithfulMachine<S(!new)>(p: Code, e: seq<DecoderData>, sem: Sem<S>) returns (seen: Sight<S>, m: Cpu<S>)
    requires !Faithful(p, e, sem)
    ensures !m.lost && !SameFrom(p, e, sem, seen, m)
  {
    var j: nat, see: Seen, x: Cpu<S> :|
      j < p.Count() && x.pc == p.AddressOf(j) && !FaithfulSlotAt(p, e, sem, j, see, x);
    AddressInverts(p, j);
    UnfaithfulAfresh(p, e, sem, j, see, x);
    m := x.(lost := false, max := if x.max == 0 then 1 else x.max);
    seen := _ => see;
    FaithfulExactlyWhen(p, e, sem, seen, m);
  }

  /** An answer that returns to the next instruction cannot be right both at the limit and away
      from it. */
  lemma AnswerAtLimit<S>(sem: Sem<S>, w: Word, m: Cpu<S>, tight: Cpu<S>, wide: Cpu<S>, len: nat)
    requires len > 0
    requires var r := sem.system(w, m.pc, m.counter + 1, m.s);
             && r.Some? && r.value.pc == m.pc && !r.value.stop
             && tight == m.(max := m.counter + 1) && wide == m.(max := m.counter + r.value.penalty + 2)
    ensures !Rejoins(sem, w, tight, len) || !Rejoins(sem, w, wide, len)
  {
  }

  /** A SYSTEM instruction whose handler returns to the next instruction, for some counter and
      state, is never faithful: it makes a difference at the limit. */
  lemma SystemIsUnfaithful<S(!new)>(p: Code, e: seq<DecoderData>, sem: Sem<S>, j: nat, m: Cpu<S>)
    requires HasHandler(p, e, j) && p.slots[j].cls == SystemOther && p.slots[j].len > 0 && m.pc == p.AddressOf(j)
    requires var r := sem.system(p.slots[j].word, m.pc, m.counter + 1, m.s);
             r.Some? && r.value.pc == m.pc && !r.value.stop
    ensures !Faithful(p, e, sem)
  {
    var r := sem.system(p.slots[j].word, m.pc, m.counter + 1, m.s).value;
    var tight, wide := m.(max := m.counter + 1), m.(max := m.counter + r.penalty + 2);
    AnswerAtLimit(sem, p.slots[j].word, m, tight, wide, p.build.Bytes(p.slots[j].len));
    assert !FaithfulSlotAt(p, e, sem, j, Seen(0, 0), tight) || !FaithfulSlotAt(p, e, sem, j, Seen(0, 0), wide);
  }
}
