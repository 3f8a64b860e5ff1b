/**
  The reference: one instruction at a time, as simulate_precise runs them.  What an
  instruction computes is left to the parameter Sem, which the dispatcher shares; the
  reference fixes how pc and the instruction counter move.
 */
module Machine {
  import opened Isa
  import opened Program
  import opened Wrappers

  /** State, pc as left in the registers, what the call adds to the counter, and whether
      it stops the machine. */
  datatype SystemResult<+S> = SystemResult(s: S, pc: nat, penalty: nat, stop: bool)

  datatype Sem<!S> = Sem(
    plain: (Word, S) -> Option<S>,        // None is an exception
    pcrel: (Word, nat, S) -> S,           // adds its own pc
    taken: (Word, S) -> bool,             // the condition of a branch
    link: (Word, nat, S) -> S,            // stores the return address of a jump at pc
    target: (Word, S) -> nat,             // the address a register jump asks for
    system: (Word, nat, nat, S) -> Option<SystemResult<S>>)   // pc and the counter as the handler finds them

  /** The all-zero word is an illegal instruction. */
  ghost predicate ZeroIsIllegal<S(!new)>(sem: Sem<S>) {
    forall s :: sem.plain(0, s) == None
  }

  /** A machine between instructions.  extra is the part of counter that is more than one for every
      instruction.  lost is whether simulate_undecoded is executing, which goes on from entry to
      entry until it finds one with a handler. */
  datatype Cpu<+S> = Cpu(s: S, pc: nat, counter: nat, max: nat, extra: nat, lost: bool := false)

  function Index(p: Code, pc: nat): (j: nat)
    requires pc >= p.begin
  {
    if p.build.compressed then (pc - p.begin) / 2 else (pc - p.begin) / 4
  }

  /** pc is the address of a slot of the segment. */
  predicate OnSlot(p: Code, pc: int) {
    p.begin <= pc < p.End() && p.build.Aligned(pc - p.begin)
  }

  lemma IndexInverts(p: Code, pc: nat)
    requires OnSlot(p, pc)
    ensures Index(p, pc) < p.Count() && p.AddressOf(Index(p, pc)) == pc
  {
  }

  lemma AddressInverts(p: Code, j: nat)
    requires j < p.Count()
    ensures OnSlot(p, p.AddressOf(j)) && Index(p, p.AddressOf(j)) == j
  {
  }

  /** Continue at pc, one instruction and penalty counts later. */
  function Advance<S>(m: Cpu<S>, s: S, pc: int, penalty: nat, stop: bool): Option<Cpu<S>> {
    if pc < 0 then None
    else Some(m.(s := s, pc := pc, counter := m.counter + penalty + 1, max := if stop then 0 else m.max,
                 extra := m.extra + penalty))
  }

  /** CPU::jump: a misaligned target raises an exception. */
  function Jumped<S>(build: Build, m: Cpu<S>, s: S, pc: int): Option<Cpu<S>> {
    if build.Aligned(pc) then Advance(m, s, pc, 0, false) else None
  }

  /** Execute the instruction of a slot, standing at m.pc.  A handler of the host finds the counter
      without this instruction, and a 2-byte register jump has stored its return address before
      it reads its target. */
  function Execute<S>(build: Build, sem: Sem<S>, slot: Slot, m: Cpu<S>): Option<Cpu<S>> {
    var next := m.pc + build.Bytes(slot.len);
    match slot.cls
    case Plain =>
      (match sem.plain(slot.word, m.s)
       case None => None
       case Some(s) => Advance(m, s, next, 0, false))
    case PcRel => Advance(m, sem.pcrel(slot.word, m.pc, m.s), next, 0, false)
    case Branch =>
      if sem.taken(slot.word, m.s) then Jumped(build, m, m.s, m.pc + slot.offset) else Advance(m, m.s, next, 0, false)
    case Jump => Jumped(build, m, sem.link(slot.word, m.pc, m.s), m.pc + slot.offset)
    case JumpReg =>
      var linked := sem.link(slot.word, m.pc, m.s);
      Jumped(build, m, linked, sem.target(slot.word, if build.Bytes(slot.len) == 2 then linked else m.s))
    case Ecall | SystemOther | CBreak | Custom =>
      (match sem.system(slot.word, m.pc, m.counter, m.s)
       case None => None
       case Some(r) => Advance(m, r.s, r.pc + build.Bytes(slot.len), r.penalty, r.stop))
    case Halt => Advance(m, m.s, next, 0, true)
  }

  /** The state that an exception of the instruction leaves: a jump has stored its return address. */
  function AtException<S>(sem: Sem<S>, slot: Slot, m: Cpu<S>): S {
    if slot.cls in {Jump, JumpReg} then sem.link(slot.word, m.pc, m.s) else m.s
  }

  /** One turn of simulate_precise inside the segment; None is an exception or pc outside it. */
  function Step<S>(p: Code, sem: Sem<S>, m: Cpu<S>): (r: Option<Cpu<S>>)
  {
    if !OnSlot(p, m.pc) then None
    else IndexInverts(p, m.pc); Execute(p.build, sem, p.slots[Index(p, m.pc)], m)
  }

  /** How a machine moves by one instruction. */
  type Stepper<!S> = Cpu<S> -> Option<Cpu<S>>

  /** k instructions from m, each of them moving as f says. */
  ghost function Steps<S>(f: Stepper<S>, m: Cpu<S>, k: nat): (r: Option<Cpu<S>>)
  {
    if k == 0 then Some(m)
    else
      match Steps(f, m, k - 1)
      case None => None
      case Some(x) => f(x)
  }

  /** The stepper of the reference.  Theorems about whole runs are stated for it; their
      proofs take it as a variable f that IsReference, so as not to look inside. */
  function Reference<S>(p: Code, sem: Sem<S>): Stepper<S> {
    (m: Cpu<S>) => Step(p, sem, m)
  }

  ghost predicate IsReference<S(!new)>(p: Code, sem: Sem<S>, f: Stepper<S>) {
    forall m {:trigger Step(p, sem, m)} :: f(m) == Step(p, sem, m)
  }

  /** Every instruction counts once, handlers only add, and the limit changes only to zero. */
  ghost predicate Counts<S(!new)>(f: Stepper<S>) {
    forall m {:trigger f(m)} :: f(m).Some? ==> Counted(m, f(m).value)
  }

  ghost predicate Counted<S>(m: Cpu<S>, r: Cpu<S>) {
    && r.counter - r.extra == m.counter - m.extra + 1
    && r.counter > m.counter && r.extra >= m.extra
    && (r.max == m.max || r.max == 0)
  }

  lemma StepCounts<S>(p: Code, sem: Sem<S>, m: Cpu<S>)
    requires Step(p, sem, m).Some?
    ensures Counted(m, Step(p, sem, m).value)
  {
    IndexInverts(p, m.pc);
  }

  lemma ReferenceCounts<S(!new)>(p: Code, sem: Sem<S>, f: Stepper<S>)
    requires IsReference(p, sem, f)
    ensures Counts(f)
  {
    forall m: Cpu<S> | f(m).Some?
      ensures Counted(m, f(m).value)
    {
      assert f(m) == Step(p, sem, m);
      StepCounts(p, sem, m);
    }
  }

  /** Instructions executed on the way from m0 to m, going by the counters. */
  ghost function Executed<S>(m0: Cpu<S>, m: Cpu<S>): int {
    (m.counter - m.extra) - (m0.counter - m0.extra)
  }

  /** The counters tell how many instructions were executed. */
  lemma {:induction false} StepsCount<S(!new)>(f: Stepper<S>, m: Cpu<S>, k: nat)
    requires Counts(f) && Steps(f, m, k).Some?
    ensures var r := Steps(f, m, k).value;
            && Executed(m, r) == k
            && r.counter >= m.counter + k && r.extra >= m.extra
            && (r.max == m.max || r.max == 0)
  {
    if k > 0 {
      StepsCount(f, m, k - 1);
    }
  }

  lemma {:induction false} StepsAdd<S>(f: Stepper<S>, m: Cpu<S>, a: nat, b: nat)
    requires Steps(f, m, a).Some?
    ensures Steps(f, m, a + b) == Steps(f, Steps(f, m, a).value, b)
  {
    if b > 0 {
      StepsAdd(f, m, a, b - 1);
    }
  }

  lemma {:induction false} StepsFromStuck<S>(f: Stepper<S>, m: Cpu<S>, k: nat)
    requires f(m) == None && Steps(f, m, k).Some?
    ensures k == 0
  {
    if k > 0 {
      StepsFromStuck(f, m, k - 1);
    }
  }

  datatype Run<+S> = Limit(m: Cpu<S>) | Stuck(m: Cpu<S>)

  /** simulate_precise: until the counter reaches its limit, or no further. */
  function PreciseRun<S>(p: Code, sem: Sem<S>, m: Cpu<S>): (r: Run<S>)
    decreases if m.counter < m.max then m.max - m.counter else 0
  {
    if m.counter >= m.max then Limit(m)
    else
      match Step(p, sem, m)
      case None => Stuck(m)
      case Some(x) => StepCounts(p, sem, m); PreciseRun(p, sem, x)
  }

  method SimulatePrecise<S>(p: Code, sem: Sem<S>, m0: Cpu<S>) returns (r: Run<S>)
    ensures r == PreciseRun(p, sem, m0)
  {
    var m := m0;
    while m.counter < m.max
      invariant PreciseRun(p, sem, m) == PreciseRun(p, sem, m0)
      decreases if m.counter < m.max then m.max - m.counter else 0
    {
      var next := Step(p, sem, m);
      if next.None? {
        return Stuck(m);
      }
      StepCounts(p, sem, m);
      m := next.value;
    }
    return Limit(m);
  }

  /** The outcome y, had the machine had another limit and not been lost. */
  ghost function Under<S>(y: Option<Cpu<S>>, stop: bool, limit: nat, lost: bool): Option<Cpu<S>> {
    match y
    case None => None
    case Some(r) => Some(r.(max := if stop then 0 else limit, lost := lost))
  }

  /** Neither the limit nor lost decides what an instruction does. */
  ghost predicate Regardless<S>(build: Build, sem: Sem<S>, slot: Slot, m: Cpu<S>, limit: nat, lost: bool) {
    var y, stop := Execute(build, sem, slot, m), StopsAt(sem, slot, m);
    && Execute(build, sem, slot, m.(max := limit, lost := lost)) == Under(y, stop, limit, lost)
    && y == Under(y, stop, m.max, m.lost)
  }

  lemma CallsRegardless<S>(build: Build, sem: Sem<S>, slot: Slot, m: Cpu<S>, limit: nat, lost: bool)
    requires slot.cls in {Ecall, SystemOther, CBreak, Custom}
    ensures Regardless(build, sem, slot, m, limit, lost)
  {
  }

  lemma JumpsRegardless<S>(build: Build, sem: Sem<S>, slot: Slot, m: Cpu<S>, limit: nat, lost: bool)
    requires slot.cls in {Branch, Jump, JumpReg}
    ensures Regardless(build, sem, slot, m, limit, lost)
  {
  }

  lemma ExecuteRegardless<S>(build: Build, sem: Sem<S>, slot: Slot, m: Cpu<S>, limit: nat, lost: bool)
    ensures Regardless(build, sem, slot, m, limit, lost)
  {
    match slot.cls
    case Ecall | SystemOther | CBreak | Custom => CallsRegardless(build, sem, slot, m, limit, lost);
    case Branch | Jump | JumpReg => JumpsRegardless(build, sem, slot, m, limit, lost);
    case Plain | PcRel | Halt =>
  }

  /** The limit only decides when a run ends, not what it does. */
  lemma StepIgnoresLimit<S>(p: Code, sem: Sem<S>, m: Cpu<S>, limit: nat)
    ensures Step(p, sem, m.(max := limit)).Some? <==> Step(p, sem, m).Some?
    ensures Step(p, sem, m).Some? ==>
              var r := Step(p, sem, m).value;
              && Step(p, sem, m.(max := limit)).value == r.(max := if Stops(p, sem, m) then 0 else limit)
              && r.max == if Stops(p, sem, m) then 0 else m.max
  {
    if OnSlot(p, m.pc) {
      IndexInverts(p, m.pc);
      ExecuteRegardless(p.build, sem, p.slots[Index(p, m.pc)], m, limit, m.lost);
    }
  }

  /** The instruction at m stops the machine. */
  ghost predicate Stops<S>(p: Code, sem: Sem<S>, m: Cpu<S>) {
    OnSlot(p, m.pc) && (IndexInverts(p, m.pc); StopsAt(sem, p.slots[Index(p, m.pc)], m))
  }

  ghost predicate StopsAt<S>(sem: Sem<S>, slot: Slot, m: Cpu<S>) {
    match slot.cls
    case Ecall | SystemOther | CBreak | Custom =>
      var r := sem.system(slot.word, m.pc, m.counter, m.s);
      r.Some? && r.value.stop
    case Halt => true
    case _ => false
  }

  /** A machine that k reference steps reach, the last of them at most stopping it, is where
      simulate_precise ends when its limit is the counter reached. */
  lemma {:induction false} StepsArePreciseRun<S(!new)>(p: Code, sem: Sem<S>, f: Stepper<S>, m0: Cpu<S>, k: nat,
                                                       m: Cpu<S>)
    requires IsReference(p, sem, f)
    requires k > 0 && Steps(f, m0, k) == Some(m)
    requires m0.max > 0 && Steps(f, m0, k - 1).value.max == m0.max
    ensures PreciseRun(p, sem, m0.(max := m.counter)) == Limit(m.(max := if m.max == 0 then 0 else m.counter))
  {
    var x := Steps(f, m0, k - 1).value;
    assert f(x) == Step(p, sem, x);
    StepCounts(p, sem, x);
    RunReaches(p, sem, f, m0, k - 1, m.counter);
    StepIgnoresLimit(p, sem, x, m.counter);
  }

  lemma {:induction false} RunReaches<S(!new)>(p: Code, sem: Sem<S>, f: Stepper<S>, m0: Cpu<S>, k: nat, limit: nat)
    requires IsReference(p, sem, f)
    requires Steps(f, m0, k).Some? && Steps(f, m0, k).value.counter < limit
    requires m0.max > 0 && Steps(f, m0, k).value.max == m0.max
    ensures PreciseRun(p, sem, m0.(max := limit)) == PreciseRun(p, sem, Steps(f, m0, k).value.(max := limit))
  {
    if k > 0 {
      var x := Steps(f, m0, k - 1).value;
      assert f(x) == Step(p, sem, x);
      StepCounts(p, sem, x);
      ReferenceCounts(p, sem, f);
      StepsCount(f, m0, k - 1);
      StepIgnoresLimit(p, sem, x, limit);
      RunReaches(p, sem, f, m0, k - 1, limit);
    }
  }
}
