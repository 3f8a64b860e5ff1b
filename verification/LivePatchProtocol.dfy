/**
  Live patching as it happens: a patcher publishes a patched copy of a decoder cache and
  then overwrites single entries of the original, while any number of threads dispatch
  from either cache.  Steps interleave freely, and a dispatching thread reads the bytecode
  of an entry in one step and the rest of it in another.  A handler that is looked up by index
  finds the index on its first execution and stores it in the entry.
 */
module LivePatchProtocol {
  import opened Isa
  import opened Program
  import opened DecoderCache
  import opened Machine
  import opened Handlers
  import opened Wrappers
  import opened Dispatch
  import opened LivePatch

  // -------------------------------------------------------------------------
  // What does not change
  // -------------------------------------------------------------------------

  datatype Which = Original | Copy

  /** The code, the caches as they were before activation, the addresses to be overwritten, in
      order, and handler_index_for the handler of an instruction. */
  datatype Setup<!S> = Setup(p: Code, sem: Sem<S>, seen: Sight<S>, original: seq<DecoderData>, copy: seq<DecoderData>,
                             claims: seq<nat>, index: Word -> nat)

  // -------------------------------------------------------------------------
  // The guest, without counters
  // -------------------------------------------------------------------------

  datatype Guest<+S> = Guest(s: S, pc: nat)

  /** A guest as a machine whose counters nobody looks at. */
  function Uncounted<S>(g: Guest<S>): Cpu<S> { Cpu(g.s, g.pc, 0, 0, 0) }

  function SeenBy<S>(c: Setup<S>, g: Guest<S>): Seen { c.seen(Uncounted(g)) }

  /** One instruction of the guest, as it is executed without any patch. */
  function GuestStep<S>(c: Setup<S>, g: Guest<S>): Option<Guest<S>> {
    match ByHandler(c.p, c.original, c.sem, SeenBy(c, g), Uncounted(g))
    case None => None
    case Some(m) => Some(Guest(m.s, m.pc))
  }

  /** GuestStep as a value, so that proofs about many steps need not look inside. */
  function Steady<S>(c: Setup<S>): Guest<S> -> Option<Guest<S>> {
    (g: Guest<S>) => GuestStep(c, g)
  }

  /** k times f. */
  ghost function Iterate<S>(f: Guest<S> -> Option<Guest<S>>, g: Guest<S>, k: nat): Option<Guest<S>> {
    if k == 0 then Some(g)
    else
      match Iterate(f, g, k - 1)
      case None => None
      case Some(x) => f(x)
  }

  lemma {:induction false} IterateAdd<S>(f: Guest<S> -> Option<Guest<S>>, g: Guest<S>, a: nat, b: nat)
    requires Iterate(f, g, a).Some?
    ensures Iterate(f, g, a + b) == Iterate(f, Iterate(f, g, a).value, b)
  {
    if b > 0 {
      IterateAdd(f, g, a, b - 1);
    }
  }

  /** Some instructions of the guest. */
  ghost predicate Leads<S>(c: Setup<S>, g: Guest<S>, g': Guest<S>) {
    exists k: nat :: Iterate(Steady(c), g, k) == Some(g')
  }

  lemma LeadsOn<S>(c: Setup<S>, g: Guest<S>, g1: Guest<S>, g2: Guest<S>)
    requires Leads(c, g, g1) && Leads(c, g1, g2)
    ensures Leads(c, g, g2)
  {
    var a: nat :| Iterate(Steady(c), g, a) == Some(g1);
    var b: nat :| Iterate(Steady(c), g1, b) == Some(g2);
    IterateAdd(Steady(c), g, a, b);
  }

  lemma LeadsOnce<S>(c: Setup<S>, g: Guest<S>, g': Guest<S>)
    requires GuestStep(c, g) == Some(g')
    ensures Leads(c, g, g')
  {
    assert Iterate(Steady(c), g, 0) == Some(g);
    assert Iterate(Steady(c), g, 1) == Some(g');
  }

  lemma LeadsNowhere<S>(c: Setup<S>, g: Guest<S>)
    ensures Leads(c, g, g)
  {
    assert Iterate(Steady(c), g, 0) == Some(g);
  }

  // -------------------------------------------------------------------------
  // State
  // -------------------------------------------------------------------------

  /** A thread. */
  datatype Runner<+S> =
    | Away(g: Guest<S>)       // between two calls of simulate, or between two segments
    | At(which: Which, decoder: nat, pc: nat, s: S, fetched: Option<Bytecode>)
    | Threw(g: Guest<S>)     // an exception at the instruction at g.pc
    | Strayed                 // followed a patch that was not there, or not meant for it
    | Gone                    // left by a road on which pc is not kept exact

  /** cache is the memory of the original decoder cache.  Of the copy, nothing but handler
      indices is ever written, and nobody but their own handlers reads those.
      published is whether patched_decoder_cache() is set, current what decoder_cache() is. */
  datatype State<+S> = State(cache: seq<DecoderData>, published: bool, current: Which, writes: nat,
                             runners: seq<Runner<S>>)

  ghost function Initially<S>(c: Setup<S>, which: Which): seq<DecoderData> {
    if which == Original then c.original else c.copy
  }

  /** Memory as a thread on that cache sees it. */
  ghost function Memory<S>(c: Setup<S>, st: State<S>, which: Which): seq<DecoderData> {
    if which == Original then st.cache else c.copy
  }

  function LivePatchWord(d: DecoderData): DecoderData {
    d.(bytecode := LIVEPATCH, handler := 0)
  }

  // -------------------------------------------------------------------------
  // Steps of the patcher (activate)
  // -------------------------------------------------------------------------

  ghost predicate Publish<S>(c: Setup<S>, st: State<S>, st': State<S>) {
    !st.published && st' == st.(published := true)
  }

  ghost predicate SetDecoder<S>(c: Setup<S>, st: State<S>, st': State<S>) {
    st.published && st.current == Original && st' == st.(current := Copy)
  }

  /** set_atomic_bytecode_and_handler on the next claimed entry. */
  ghost predicate Overwrite<S>(c: Setup<S>, st: State<S>, st': State<S>) {
    && st.current == Copy && st.writes < |c.claims|
    && var a := c.claims[st.writes];
    && a < |st.cache|
    && st' == st.(cache := st.cache[a := LivePatchWord(st.cache[a])], writes := st.writes + 1)
  }

  // -------------------------------------------------------------------------
  // Steps of a thread
  // -------------------------------------------------------------------------

  /** Handlers that look their function up by m_handler. */
  predicate ReadsHandler(bc: Bytecode) {
    bc == DATA(FUNCTION) || bc == C_DATA(C_FUNCTION) || bc == FUNCBLOCK
  }

  /** continue_segment and NEXT_BLOCK: stand at the entry of pc and add its block_bytes. */
  ghost predicate Lands<S>(c: Setup<S>, e: seq<DecoderData>, which: Which, g: Guest<S>, r': Runner<S>) {
    && OnSlot(c.p, g.pc)
    && var d := Index(c.p, g.pc);
    && d < |e|
    && r' == At(which, d, g.pc + BlockBytes(c.p.build, e[d]), g.s, None)
  }

  /** After the last instruction of a block: on to another block of the same cache, or out
      of the dispatch loop because of a limit or a different segment. */
  ghost predicate Continues<S>(c: Setup<S>, e: seq<DecoderData>, which: Which, next: Option<Guest<S>>, g: Guest<S>,
                               r': Runner<S>) {
    match next
    case None => r' == Threw(g)
    case Some(g') => r' == Away(g') || Lands(c, e, which, g', r')
  }

  ghost predicate Fetch<S>(c: Setup<S>, st: State<S>, r: Runner<S>, r': Runner<S>) {
    && r.At? && r.fetched == None
    && var e := Memory(c, st, r.which);
    && r.decoder < |e|
    && r' == r.(fetched := Some(e[r.decoder].bytecode))
  }

  /** The instruction of the entry d, which is what a handler executes. */
  ghost function SlotOf<S>(c: Setup<S>, d: nat, e: DecoderData): Slot
    requires d < c.p.Count()
  {
    c.p.slots[d].(word := e.instr)
  }

  /** CPU().execute on the instruction of the slot. */
  function Performed<S>(c: Setup<S>, slot: Slot, g: Guest<S>): Option<S> {
    HandlePlain(c.sem, SeenBy(c, g), slot, Uncounted(g))
  }

  /** The guest after the instruction of the slot, if that leads to slot d. */
  function Sequel<S>(c: Setup<S>, slot: Slot, g: Guest<S>, d: nat): Option<Guest<S>> {
    match Performed(c, slot, g)
    case None => None
    case Some(s) => Some(Guest(s, c.p.AddressOf(d)))
  }

  ghost predicate ExecuteSequential<S>(c: Setup<S>, d: nat, e: DecoderData, f: Flow, r: Runner<S>, r': Runner<S>)
    requires r.At? && d < c.p.Count()
  {
    var here := r.pc - BlockBytes(c.p.build, e);
    here >= 0 &&
    match f
    case NextInstr(step) =>
      (match Performed(c, SlotOf(c, d, e), Guest(r.s, here))
       case None => r' == Threw(Guest(r.s, here))
       case Some(s) => r' == At(r.which, d + step / c.p.build.SlotBytes(), r.pc, s, None))
    case _ =>
      r' == At(r.which, d + 4 / c.p.build.SlotBytes(), r.pc, c.sem.pcrel(e.instr, here, r.s), None)
  }

  /** Handlers at the end of a block take pc as it is. */
  ghost predicate ExecuteLast<S>(c: Setup<S>, mem: seq<DecoderData>, d: nat, bc: Bytecode, r: Runner<S>, r': Runner<S>)
    requires r.At? && d < c.p.Count() <= |mem|
  {
    var f := FlowOf(c.p.build, bc);
    var g := Guest(r.s, r.pc);
    || (match ExecuteHandled(c.p.build, c.sem, SeenBy(c, g), SlotOf(c, d, mem[d]), Uncounted(g))
        case None => r' == Threw(g)
        case Some(m) => Continues(c, mem, r.which, Some(Guest(m.s, m.pc)), g, r'))
    // the SYSTEM detour
    || (f.SystemOp? && r' == Gone)
  }

  /** Native code, taken as faithful: some instructions of the guest. */
  ghost predicate ExecuteNative<S>(c: Setup<S>, r: Runner<S>, r': Runner<S>)
    requires r.At?
  {
    var g := Guest(r.s, r.pc);
    || (r'.Away? && Leads(c, g, r'.g))
    || (r'.Threw? && Leads(c, g, r'.g) && GuestStep(c, r'.g) == None)
  }

  /** Only handler 0 is a patch for native code; others are taken for patched returns, or for
      invalid instructions. */
  ghost predicate ExecuteLivePatch<S>(c: Setup<S>, st: State<S>, e: DecoderData, r: Runner<S>, r': Runner<S>)
    requires r.At?
  {
    var here := r.pc - BlockBytes(c.p.build, e);
    if e.handler != 0 || !st.published then r' == Strayed
    else here >= c.p.begin && r' == At(Copy, Index(c.p, here), here, r.s, None)
  }

  /** execute_invalid: an exception, or where the bits of the entry are zero some instructions of
      the guest, from the pc of the decoder position. */
  ghost predicate ExecuteUndecoded<S>(c: Setup<S>, mem: seq<DecoderData>, r: Runner<S>, r': Runner<S>)
    requires r.At? && r.decoder < c.p.Count()
  {
    var g := Guest(r.s, c.p.AddressOf(r.decoder));
    if !ZeroBits(c.p, r.decoder) then r' == Threw(g)
    else
      || (r'.Threw? && Leads(c, g, r'.g) && GuestStep(c, r'.g) == None)
      || (r'.Away? && Leads(c, g, r'.g))
      || (r'.At? && var g' := Guest(r'.s, c.p.AddressOf(r'.decoder)); Leads(c, g, g') && Lands(c, mem, r.which, g', r'))
  }

  ghost predicate ExecuteFetched<S>(c: Setup<S>, st: State<S>, r: Runner<S>, r': Runner<S>) {
    && r.At? && r.fetched.Some? && r.decoder <= c.p.Count()
    && var mem := Memory(c, st, r.which);
    && c.p.Count() < |mem|
    && var bc, d := r.fetched.value, r.decoder;
    if d == c.p.Count() then r' == Gone   // ran off the end of the segment
    else if bc == NATIVE then ExecuteNative(c, r, r')
    else if bc == LIVEPATCH then ExecuteLivePatch(c, st, mem[d], r, r')
    else if bc == INVALID then ExecuteUndecoded(c, mem, r, r')
    else if Sequential(FlowOf(c.p.build, bc)) then ExecuteSequential(c, d, mem[d], FlowOf(c.p.build, bc), r, r')
    else ExecuteLast(c, mem, d, bc, r, r')
  }

  ghost predicate Enter<S>(c: Setup<S>, st: State<S>, r: Runner<S>, r': Runner<S>) {
    r.Away? && Lands(c, Memory(c, st, st.current), st.current, r.g, r')
  }

  /** The handler that r is about to execute still has to be looked up. */
  ghost predicate Resolves<S>(c: Setup<S>, cache: seq<DecoderData>, r: Runner<S>) {
    && r.At? && r.which == Original && r.decoder < |cache| && r.fetched.Some? && ReadsHandler(r.fetched.value)
    && cache[r.decoder].handler == 0 && cache[r.decoder].instr != 0
  }

  /** The memory of the original cache after r has executed what it fetched. */
  ghost function CacheAfter<S>(c: Setup<S>, cache: seq<DecoderData>, r: Runner<S>): seq<DecoderData> {
    if Resolves(c, cache, r)
    then cache[r.decoder := cache[r.decoder].(handler := c.index(cache[r.decoder].instr))]
    else cache
  }

  ghost predicate Runs<S>(c: Setup<S>, st: State<S>, st': State<S>, i: nat) {
    && i < |st.runners| == |st'.runners|
    && var r, r' := st.runners[i], st'.runners[i];
    && var moved := st.runners[i := r'];
    || (st' == st.(runners := moved) && (Enter(c, st, r, r') || Fetch(c, st, r, r')))
    || (st' == st.(runners := moved, cache := CacheAfter(c, st.cache, r)) && ExecuteFetched(c, st, r, r'))
  }

  ghost predicate Next<S>(c: Setup<S>, st: State<S>, st': State<S>) {
    || Publish(c, st, st') || SetDecoder(c, st, st') || Overwrite(c, st, st')
    || exists i :: 0 <= i < |st.runners| && Runs(c, st, st', i)
  }

  /** Before activation: threads anywhere, none of them in the dispatch loop. */
  ghost predicate Init<S>(c: Setup<S>, st: State<S>) {
    && st.cache == c.original && !st.published && st.current == Original && st.writes == 0
    && forall i :: 0 <= i < |st.runners| ==> st.runners[i].Away?
  }

  // -------------------------------------------------------------------------
  // Caches that fit the code
  // -------------------------------------------------------------------------

  /** What dispatching from the entry d relies on. */
  ghost predicate EntryFits(p: Code, e: seq<DecoderData>, d: nat)
    requires d < p.Count() < |e|
  {
    var slot := p.slots[d];
    var next := d + slot.len;
    var f := FlowOf(p.build, e[d].bytecode);
    && (slot.len == 1 || slot.len == 2)
    && e[d].bytecode != LIVEPATCH
    && (e[d].bytecode != NATIVE ==> e[d].instr == slot.word)
    && (e[d].bytecode == NATIVE ==> e[d].idxend == 0)
    && (e[d].bytecode !in {NATIVE, INVALID} ==>
          && next <= p.Count()
          && (if e[d].bytecode == FUNCBLOCK then slot.cls in {Plain, PcRel, CBreak, Custom}
              else Implements(f, slot.cls, p.build.Bytes(slot.len)))
          && (!Sequential(f) ==> e[d].idxend == 0)
          && (Sequential(f) && next < p.Count() ==> p.IsStart(next) && e[d].idxend == slot.len + e[next].idxend))
  }

  ghost predicate CacheFits(p: Code, e: seq<DecoderData>) {
    && p.Count() < |e|
    && (forall d {:trigger EntryFits(p, e, d)} :: 0 <= d < p.Count() && p.IsStart(d) ==> EntryFits(p, e, d))
    && (forall d {:trigger Middle(e, d)} :: 0 <= d < p.Count() && !p.IsStart(d) ==> Middle(e, d))
  }

  /** The copy is what any sequence of claims makes of the original. */
  ghost predicate Claimed(p: Code, original: seq<DecoderData>, copy: seq<DecoderData>, claims: seq<nat>) {
    && p.Count() < |original| && |copy| == |original|
    && (forall i :: 0 <= i < |claims| ==> claims[i] < p.Count() && p.IsStart(claims[i]))
    && Aimed(p, Ends(p, original) + (set a | a in claims), copy)
    && (forall j :: 0 <= j < |copy| ==>
          if j in claims then copy[j].bytecode == NATIVE
          else copy[j] == original[j].(idxend := copy[j].idxend, icount := copy[j].icount))
  }

  /** What the patcher does before it activates: copy the cache and claim addresses in the copy. */
  method BuildCopy(p: Code, original: array<DecoderData>, claims: seq<nat>, mappings: seq<Word>)
    returns (copy: PatchedDecoderCache)
    requires p.Measured() && Chained(p, original[..]) && Narrow(p, original[..])
    requires Decodes(p, Ends(p, original[..]), original[..]) && |claims| == |mappings|
    requires forall i :: 0 <= i < |claims| ==> claims[i] < p.Count() && p.IsStart(claims[i])
    ensures fresh(copy) && original[..] == old(original[..]) && Claimed(p, original[..], copy.cache[..], claims)
  {
    copy := new PatchedDecoderCache(p, original);
    copy.ClaimAll(claims, mappings);
  }

  lemma OriginalEntryFits(p: Code, e: seq<DecoderData>, d: nat)
    requires d < p.Count() < |e| && Linked(p, e, d) && p.slots[d].Sound(p.build, p.AddressOf(d), p.begin, p.End())
    requires d + p.slots[d].len < p.Count() ==> p.IsStart(d + p.slots[d].len)
    ensures EntryFits(p, e, d)
  {
    FlowKinds(p.build, e[d].bytecode);
  }

  lemma OriginalFits(p: Code, e: seq<DecoderData>)
    requires p.Valid() && Chained(p, e)
    ensures CacheFits(p, e) && p.Measured()
  {
    ValidIsMeasured(p);
    forall d | 0 <= d < p.Count() && p.IsStart(d)
      ensures EntryFits(p, e, d)
    {
      assert Linked(p, e, d) && p.SoundAt(d);
      NextIsStart(p, d);
      OriginalEntryFits(p, e, d);
    }
    forall d | 0 <= d < p.Count() && !p.IsStart(d)
      ensures Middle(e, d)
    {
      assert Blank(e, d);
    }
  }

  /** An entry of the copy that is not claimed: same handler, block end perhaps nearer. */
  lemma UnclaimedEntryFits(p: Code, original: seq<DecoderData>, copy: seq<DecoderData>, stops: set<nat>, d: nat)
    requires Aimed(p, stops, copy) && d < p.Count() < |original| && |copy| == |original| && p.IsStart(d)
    requires EntryFits(p, original, d) && Linked(p, original, d) && (original[d].idxend == 0 ==> d in stops)
    requires copy[d] == original[d].(idxend := copy[d].idxend, icount := copy[d].icount)
    requires d in stops ==> original[d].idxend == 0
    ensures EntryFits(p, copy, d)
  {
    assert Aims(p, stops, copy, d);
    NextIsStart(p, d);
    if d !in stops {
      assert Aims(p, stops, copy, d + p.slots[d].len);
    }
  }

  lemma CopyEntryFits(p: Code, original: seq<DecoderData>, copy: seq<DecoderData>, claims: seq<nat>, stops: set<nat>,
                      d: nat)
    requires Claimed(p, original, copy, claims) && d < p.Count() && p.IsStart(d)
    requires stops == Ends(p, original) + (set a | a in claims)
    requires EntryFits(p, original, d) && Linked(p, original, d)
    ensures EntryFits(p, copy, d)
  {
    if d in claims {
      assert Aims(p, stops, copy, d);
    } else {
      UnclaimedEntryFits(p, original, copy, stops, d);
    }
  }

  lemma CopyFits(p: Code, original: seq<DecoderData>, copy: seq<DecoderData>, claims: seq<nat>)
    requires p.Valid() && Chained(p, original) && Claimed(p, original, copy, claims)
    ensures CacheFits(p, copy)
  {
    OriginalFits(p, original);
    forall d | 0 <= d < p.Count() && p.IsStart(d)
      ensures EntryFits(p, copy, d)
    {
      assert EntryFits(p, original, d) && Linked(p, original, d);
      CopyEntryFits(p, original, copy, claims, Ends(p, original) + (set a | a in claims), d);
    }
  }

  // -------------------------------------------------------------------------
  // The invariant
  // -------------------------------------------------------------------------

  ghost predicate Fits<S>(c: Setup<S>) {
    && c.p.Measured()
    && CacheFits(c.p, c.original) && CacheFits(c.p, c.copy) && |c.copy| == |c.original|
    && (forall i :: 0 <= i < |c.claims| ==>
         c.claims[i] < c.p.Count() && c.p.IsStart(c.claims[i]) && c.copy[c.claims[i]].bytecode == NATIVE)
    && forall j {:trigger c.copy[j]} :: 0 <= j < |c.copy| && c.copy[j].bytecode != NATIVE ==>
         (c.copy[j].bytecode == INVALID <==> c.original[j].bytecode == INVALID)
  }

  /** The i-th claimed entry has a handler that is looked up and stored. */
  ghost predicate Stores<S>(c: Setup<S>, i: int)
    requires 0 <= i < |c.claims|
  {
    && c.claims[i] < |c.original|
    && var d := c.original[c.claims[i]];
    ReadsHandler(d.bytecode) && d.instr != 0 && c.index(d.instr) != 0
  }

  /** No claimed entry has. */
  ghost predicate Untorn<S>(c: Setup<S>) {
    forall i {:trigger Stores(c, i)} :: 0 <= i < |c.claims| ==> !Stores(c, i)
  }

  /** The memory of an entry: as it was, handler index aside, or overwritten once the copy was
      published. */
  ghost predicate Stored<S>(c: Setup<S>, st: State<S>, j: nat)
    requires j < |st.cache| == |c.original|
  {
    if st.cache[j].bytecode == LIVEPATCH && c.original[j].bytecode != LIVEPATCH
    then st.cache[j] == LivePatchWord(c.original[j]) && j in c.claims && st.published
    else st.cache[j] == c.original[j].(handler := st.cache[j].handler)
  }

  ghost predicate SharedOk<S>(c: Setup<S>, st: State<S>) {
    && |st.cache| == |c.original|
    && (forall j {:trigger Stored(c, st, j)} :: 0 <= j < |st.cache| ==> Stored(c, st, j))
    && (st.current == Copy ==> st.published)
  }

  /** pc is the address of the entry plus its block_bytes, in the thread's own cache; what was
      fetched is what the entry held, or a LIVEPATCH that can be followed. */
  ghost predicate RunnerOk<S>(c: Setup<S>, st: State<S>, r: Runner<S>) {
    match r
    case Strayed => false
    case Threw(g) => Stops(c, g)
    case At(which, d, pc, s, fetched) =>
      && d <= c.p.Count() < |Initially(c, which)|
      && (d < c.p.Count() ==> pc == c.p.AddressOf(d) + BlockBytes(c.p.build, Initially(c, which)[d]))
      && (which == Copy ==> st.published)
      && (fetched.Some? && d < c.p.Count() ==> FetchedOk(c, st, which, d, fetched.value))
    case _ => true
  }

  /** The guest has an exception at g, or an instruction that the decoder does not know. */
  ghost predicate Stops<S>(c: Setup<S>, g: Guest<S>) {
    || GuestStep(c, g) == None
    || (OnSlot(c.p, g.pc) && !HasHandler(c.p, c.original, Index(c.p, g.pc))
        && (IndexInverts(c.p, g.pc); !ZeroBits(c.p, Index(c.p, g.pc))))
  }

  ghost predicate FetchedOk<S>(c: Setup<S>, st: State<S>, which: Which, d: nat, bc: Bytecode)
    requires d < |Initially(c, which)|
  {
    || bc == Initially(c, which)[d].bytecode
    || (bc == LIVEPATCH && which == Original && d < |st.cache| && st.cache[d].bytecode == LIVEPATCH)
  }

  ghost predicate Inv<S>(c: Setup<S>, st: State<S>) {
    && SharedOk(c, st)
    && forall i :: 0 <= i < |st.runners| ==> RunnerOk(c, st, st.runners[i])
  }

  /** The guest that a thread is running. */
  ghost function View<S>(c: Setup<S>, r: Runner<S>): Option<Guest<S>> {
    match r
    case Away(g) => Some(g)
    case Threw(g) => Some(g)
    case At(_, d, _, s, _) => Some(Guest(s, c.p.AddressOf(d)))
    case _ => None
  }

  /** From one moment to a later one, a thread has executed some instructions of the guest. */
  ghost predicate Follows<S>(c: Setup<S>, r: Runner<S>, r': Runner<S>) {
    && (r == Gone ==> r' == Gone)
    && (r' != Gone && View(c, r).Some? ==>
          View(c, r').Some? && Leads(c, View(c, r).value, View(c, r').value))
  }

  lemma FollowsOn<S>(c: Setup<S>, r: Runner<S>, r1: Runner<S>, r2: Runner<S>)
    requires Follows(c, r, r1) && Follows(c, r1, r2)
    ensures Follows(c, r, r2)
  {
    if r2 != Gone && View(c, r).Some? {
      LeadsOn(c, View(c, r).value, View(c, r1).value, View(c, r2).value);
    }
  }

  lemma FollowsItself<S>(c: Setup<S>, r: Runner<S>)
    ensures Follows(c, r, r)
  {
    if View(c, r).Some? {
      LeadsNowhere(c, View(c, r).value);
    }
  }

  // -------------------------------------------------------------------------
  // Each step of a thread
  // -------------------------------------------------------------------------

  /** What an entry's memory still says about it: all but the bytecode and the handler. */
  lemma MemoryKeeps<S>(c: Setup<S>, st: State<S>, which: Which, d: nat)
    requires Fits(c) && SharedOk(c, st) && d < |Initially(c, which)|
    ensures |Memory(c, st, which)| == |Initially(c, which)|
    ensures var m, b := Memory(c, st, which)[d], Initially(c, which)[d];
            m.idxend == b.idxend && m.instr == b.instr
    ensures var m, b := Memory(c, st, which)[d], Initially(c, which)[d];
            m.bytecode == b.bytecode || (m == LivePatchWord(b) && which == Original && d in c.claims && st.published)
  {
    if which == Original {
      assert Stored(c, st, d);
    }
  }

  lemma LandsOk<S>(c: Setup<S>, st: State<S>, which: Which, g: Guest<S>, r': Runner<S>)
    requires Fits(c) && SharedOk(c, st) && (which == Copy ==> st.published)
    requires Lands(c, Memory(c, st, which), which, g, r')
    ensures RunnerOk(c, st, r') && View(c, r') == Some(g)
  {
    IndexInverts(c.p, g.pc);
    MemoryKeeps(c, st, which, Index(c.p, g.pc));
  }

  lemma ContinuesOk<S>(c: Setup<S>, st: State<S>, which: Which, next: Option<Guest<S>>, g: Guest<S>, r': Runner<S>)
    requires Fits(c) && SharedOk(c, st) && (which == Copy ==> st.published)
    requires GuestStep(c, g) == next
    requires Continues(c, Memory(c, st, which), which, next, g, r')
    ensures RunnerOk(c, st, r') && View(c, r').Some? && Leads(c, g, View(c, r').value)
  {
    if next.None? {
      LeadsNowhere(c, g);
    } else {
      LeadsOnce(c, g, next.value);
      if r' != Away(next.value) {
        LandsOk(c, st, which, next.value, r');
      }
    }
  }

  /** A thread at a swept instruction, about to execute what it fetched. */
  ghost predicate Poised<S>(c: Setup<S>, st: State<S>, r: Runner<S>, bc: Bytecode) {
    && Fits(c) && SharedOk(c, st) && RunnerOk(c, st, r)
    && r.At? && r.fetched == Some(bc) && r.decoder < c.p.Count()
    && bc == Initially(c, r.which)[r.decoder].bytecode
  }

  lemma PoisedAtStart<S>(c: Setup<S>, st: State<S>, r: Runner<S>, bc: Bytecode)
    requires Poised(c, st, r, bc) && bc != INVALID
    ensures c.p.IsStart(r.decoder) && EntryFits(c.p, Initially(c, r.which), r.decoder)
    ensures bc != NATIVE ==> HasHandler(c.p, c.original, r.decoder)
  {
    assert c.p.IsStart(r.decoder) || Middle(Initially(c, r.which), r.decoder);
  }

  lemma PlainKinds(f: Flow, k: Class, len: nat)
    requires Implements(f, k, len) && f.NextInstr?
    ensures k in {Plain, CBreak, Custom} && f == NextInstr(len)
  {
  }

  /** NEXT_INSTR and NEXT_C_INSTR, on the code. */
  lemma PlainStep<S>(c: Setup<S>, slot: Slot, f: Flow, d: nat, s: S)
    requires HasHandler(c.p, c.original, d) && slot == c.p.slots[d]
    requires slot.cls in {Plain, CBreak, Custom} && f == NextInstr(c.p.build.Bytes(slot.len))
    ensures f.step / c.p.build.SlotBytes() == slot.len
    ensures var g := Guest(s, c.p.AddressOf(d)); GuestStep(c, g) == Sequel(c, slot, g, d + slot.len)
  {
    AddressInverts(c.p, d);
  }

  lemma AuipcStep<S>(c: Setup<S>, slot: Slot, d: nat, s: S)
    requires HasHandler(c.p, c.original, d) && slot == c.p.slots[d] && (slot.len == 1 || slot.len == 2)
    requires Implements(Auipc, slot.cls, c.p.build.Bytes(slot.len))
    ensures 4 / c.p.build.SlotBytes() == slot.len
    ensures GuestStep(c, Guest(s, c.p.AddressOf(d))) ==
              Some(Guest(c.sem.pcrel(slot.word, c.p.AddressOf(d), s), c.p.AddressOf(d + slot.len)))
  {
    AddressInverts(c.p, d);
  }

  /** Moving on to the next entry of a block leaves pc at the end of the block. */
  lemma MovesOk<S>(c: Setup<S>, st: State<S>, r: Runner<S>, bc: Bytecode, s: S)
    requires Poised(c, st, r, bc) && bc !in {INVALID, NATIVE, LIVEPATCH} && Sequential(FlowOf(c.p.build, bc))
    ensures RunnerOk(c, st, At(r.which, r.decoder + c.p.slots[r.decoder].len, r.pc, s, None))
  {
    PoisedAtStart(c, st, r, bc);
  }

  /** Where a sequential handler leaves a thread, if the guest at g goes on to next. */
  ghost predicate Advances<S>(c: Setup<S>, r: Runner<S>, g: Guest<S>, next: Option<Guest<S>>, r': Runner<S>)
    requires r.At? && r.decoder < c.p.Count()
  {
    match next
    case None => r' == Threw(g)
    case Some(g') =>
      var d := r.decoder + c.p.slots[r.decoder].len;
      g'.pc == c.p.AddressOf(d) && r' == At(r.which, d, r.pc, g'.s, None)
  }

  lemma PlainAdvances<S>(c: Setup<S>, m: DecoderData, f: Flow, r: Runner<S>, r': Runner<S>, slot: Slot,
                         g: Guest<S>, next: Option<Guest<S>>)
    requires r.At? && r.decoder < c.p.Count() && slot == c.p.slots[r.decoder] && m.instr == slot.word
    requires ExecuteSequential(c, r.decoder, m, f, r, r') && f.NextInstr? && f.step / c.p.build.SlotBytes() == slot.len
    requires g == Guest(r.s, c.p.AddressOf(r.decoder)) && r.pc == g.pc + BlockBytes(c.p.build, m)
    requires next == Sequel(c, slot, g, r.decoder + slot.len)
    ensures Advances(c, r, g, next, r')
  {
    assert SlotOf(c, r.decoder, m) == slot;
  }

  lemma AuipcAdvances<S>(c: Setup<S>, m: DecoderData, f: Flow, r: Runner<S>, r': Runner<S>, slot: Slot,
                         g: Guest<S>, next: Option<Guest<S>>)
    requires r.At? && r.decoder < c.p.Count() && slot == c.p.slots[r.decoder] && m.instr == slot.word
    requires ExecuteSequential(c, r.decoder, m, f, r, r') && f.Auipc? && 4 / c.p.build.SlotBytes() == slot.len
    requires g == Guest(r.s, c.p.AddressOf(r.decoder)) && r.pc == g.pc + BlockBytes(c.p.build, m)
    requires next == Some(Guest(c.sem.pcrel(slot.word, g.pc, r.s), c.p.AddressOf(r.decoder + slot.len)))
    ensures Advances(c, r, g, next, r')
  {
  }

  /** The guest at g stops, or some instructions lead to next. */
  ghost predicate GoesOn<S>(c: Setup<S>, g: Guest<S>, next: Option<Guest<S>>) {
    if next.None? then Stops(c, g) else Leads(c, g, next.value)
  }

  /** What the guest does next, where the handler f is one of a sequential instruction. */
  lemma SequentialStep<S>(c: Setup<S>, f: Flow, d: nat, slot: Slot, s: S, g: Guest<S>) returns (next: Option<Guest<S>>)
    requires HasHandler(c.p, c.original, d) && slot == c.p.slots[d] && (slot.len == 1 || slot.len == 2)
    requires Sequential(f) && Implements(f, slot.cls, c.p.build.Bytes(slot.len)) && g == Guest(s, c.p.AddressOf(d))
    ensures GoesOn(c, g, next)
    ensures f.NextInstr? ==> next == Sequel(c, slot, g, d + slot.len) && f.step / c.p.build.SlotBytes() == slot.len
    ensures f.Auipc? ==> next == Some(Guest(c.sem.pcrel(slot.word, g.pc, s), c.p.AddressOf(d + slot.len)))
    ensures f.Auipc? ==> 4 / c.p.build.SlotBytes() == slot.len
  {
    next := GuestStep(c, g);
    if f.NextInstr? {
      PlainKinds(f, slot.cls, c.p.build.Bytes(slot.len));
      PlainStep(c, slot, f, d, s);
    } else {
      AuipcStep(c, slot, d, s);
    }
    if next.Some? {
      LeadsOnce(c, g, next.value);
    }
  }

  lemma SequentialAdvances<S>(c: Setup<S>, m: DecoderData, f: Flow, r: Runner<S>, r': Runner<S>, slot: Slot,
                              g: Guest<S>)
    returns (next: Option<Guest<S>>)
    requires r.At? && HasHandler(c.p, c.original, r.decoder)
    requires slot == c.p.slots[r.decoder] && (slot.len == 1 || slot.len == 2)
    requires ExecuteSequential(c, r.decoder, m, f, r, r') && m.instr == slot.word
    requires g == Guest(r.s, c.p.AddressOf(r.decoder)) && r.pc == g.pc + BlockBytes(c.p.build, m)
    requires Sequential(f) && Implements(f, slot.cls, c.p.build.Bytes(slot.len))
    ensures Advances(c, r, g, next, r') && GoesOn(c, g, next)
  {
    next := SequentialStep(c, f, r.decoder, slot, r.s, g);
    if f.NextInstr? {
      PlainAdvances(c, m, f, r, r', slot, g, next);
    } else {
      AuipcAdvances(c, m, f, r, r', slot, g, next);
    }
  }

  lemma SequentialOk<S>(c: Setup<S>, st: State<S>, r: Runner<S>, bc: Bytecode, r': Runner<S>)
    requires Poised(c, st, r, bc) && bc !in {INVALID, NATIVE, LIVEPATCH} && Sequential(FlowOf(c.p.build, bc))
    requires |Memory(c, st, r.which)| == |Initially(c, r.which)|
    requires ExecuteSequential(c, r.decoder, Memory(c, st, r.which)[r.decoder], FlowOf(c.p.build, bc), r, r')
    ensures RunnerOk(c, st, r') && Follows(c, r, r')
  {
    MemoryKeeps(c, st, r.which, r.decoder);
    PoisedAtStart(c, st, r, bc);
    var g := Guest(r.s, c.p.AddressOf(r.decoder));
    var f, mem := FlowOf(c.p.build, bc), Memory(c, st, r.which);
    var next := SequentialAdvances(c, mem[r.decoder], f, r, r', c.p.slots[r.decoder], g);
    Moved(c, st, r, bc, r', g, next);
  }

  lemma FollowsOnce<S>(c: Setup<S>, r: Runner<S>, r': Runner<S>, g: Guest<S>, g': Guest<S>)
    requires View(c, r) == Some(g) && View(c, r') == Some(g') && Leads(c, g, g')
    ensures Follows(c, r, r')
  {
  }

  lemma Moved<S>(c: Setup<S>, st: State<S>, r: Runner<S>, bc: Bytecode, r': Runner<S>, g: Guest<S>,
                 next: Option<Guest<S>>)
    requires Poised(c, st, r, bc) && bc !in {INVALID, NATIVE, LIVEPATCH} && Sequential(FlowOf(c.p.build, bc))
    requires g == Guest(r.s, c.p.AddressOf(r.decoder)) && Advances(c, r, g, next, r')
    requires GoesOn(c, g, next)
    ensures RunnerOk(c, st, r') && Follows(c, r, r')
  {
    match next {
      case None => LeadsNowhere(c, g);
      case Some(g') =>
        MovesOk(c, st, r, bc, g'.s);
        FollowsOnce(c, r, r', g, g');
    }
  }

  /** A handler at the end of a block, on the code. */
  lemma LastStep<S>(c: Setup<S>, e: seq<DecoderData>, d: nat, m: DecoderData, s: S)
    requires d < c.p.Count() < |e| && m.instr == e[d].instr && EntryFits(c.p, e, d) && e[d].bytecode != NATIVE
    requires HasHandler(c.p, c.original, d)
    ensures var g := Guest(s, c.p.AddressOf(d));
            GuestStep(c, g) ==
              match ExecuteHandled(c.p.build, c.sem, SeenBy(c, g), SlotOf(c, d, m), Uncounted(g))
              case None => None
              case Some(x) => Some(Guest(x.s, x.pc))
  {
    AddressInverts(c.p, d);
    assert SlotOf(c, d, m) == c.p.slots[d];
  }

  lemma LastOk<S>(c: Setup<S>, st: State<S>, r: Runner<S>, bc: Bytecode, r': Runner<S>)
    requires Poised(c, st, r, bc) && bc !in {INVALID, NATIVE, LIVEPATCH} && !Sequential(FlowOf(c.p.build, bc))
    requires |Memory(c, st, r.which)| == |Initially(c, r.which)|
    requires ExecuteLast(c, Memory(c, st, r.which), r.decoder, bc, r, r')
    ensures RunnerOk(c, st, r') && Follows(c, r, r')
  {
    var d, e, mem := r.decoder, Initially(c, r.which), Memory(c, st, r.which);
    MemoryKeeps(c, st, r.which, d);
    PoisedAtStart(c, st, r, bc);
    LastStep(c, e, d, mem[d], r.s);
    var g := Guest(r.s, c.p.AddressOf(d));
    assert r.pc == g.pc;
    if r' != Gone {
      ContinuesOk(c, st, r.which, GuestStep(c, g), g, r');
    }
  }

  lemma NativeOk<S>(c: Setup<S>, st: State<S>, r: Runner<S>, r': Runner<S>)
    requires Poised(c, st, r, NATIVE) && ExecuteNative(c, r, r')
    ensures RunnerOk(c, st, r') && Follows(c, r, r')
  {
    PoisedAtStart(c, st, r, NATIVE);
    assert Guest(r.s, r.pc) == View(c, r).value;
  }

  lemma UndecodedOk<S>(c: Setup<S>, st: State<S>, r: Runner<S>, r': Runner<S>)
    requires Poised(c, st, r, INVALID)
    requires |Memory(c, st, r.which)| == |Initially(c, r.which)|
    requires ExecuteUndecoded(c, Memory(c, st, r.which), r, r')
    ensures RunnerOk(c, st, r') && Follows(c, r, r')
  {
    var mem, g := Memory(c, st, r.which), View(c, r).value;
    MemoryKeeps(c, st, r.which, r.decoder);
    AddressInverts(c.p, r.decoder);
    LeadsNowhere(c, g);
    if r'.At? {
      var g' := Guest(r'.s, c.p.AddressOf(r'.decoder));
      LandsOk(c, st, r.which, g', r');
    }
  }

  lemma NotPatchedYet(p: Code, e: seq<DecoderData>, d: nat)
    requires CacheFits(p, e) && d < p.Count()
    ensures e[d].bytecode != LIVEPATCH
  {
    assert if p.IsStart(d) then EntryFits(p, e, d) else Middle(e, d);
  }

  /** A LIVEPATCH is found in the original only, after the copy was published, with handler 0, and
      at an entry that ends a block in the copy. */
  lemma PatchIsReady<S>(c: Setup<S>, st: State<S>, which: Which, d: nat)
    requires Fits(c) && SharedOk(c, st) && d < c.p.Count() < |Initially(c, which)|
             && FetchedOk(c, st, which, d, LIVEPATCH)
    ensures which == Original && st.published && c.copy[d].idxend == 0
    ensures st.cache[d].handler == 0 && st.cache[d].idxend == c.original[d].idxend
  {
    NotPatchedYet(c.p, Initially(c, which), d);
    NotPatchedYet(c.p, c.original, d);
    assert Stored(c, st, d);
    assert EntryFits(c.p, c.copy, d);
  }

  /** Following a LIVEPATCH: the copy is there, and its entry ends a block, so that the pc wound
      back to the instruction is the pc that the copy expects. */
  lemma SwitchOk<S>(c: Setup<S>, st: State<S>, r: Runner<S>, r': Runner<S>)
    requires Fits(c) && SharedOk(c, st) && RunnerOk(c, st, r)
    requires r.At? && r.fetched == Some(LIVEPATCH) && r.decoder < c.p.Count()
    requires |Memory(c, st, r.which)| == |Initially(c, r.which)|
    requires ExecuteLivePatch(c, st, Memory(c, st, r.which)[r.decoder], r, r')
    ensures st.published && RunnerOk(c, st, r') && r'.At? && r'.which == Copy
    ensures View(c, r') == View(c, r)
  {
    PatchIsReady(c, st, r.which, r.decoder);
    AddressInverts(c.p, r.decoder);
  }

  lemma ExecuteOk<S(!new)>(c: Setup<S>, st: State<S>, r: Runner<S>, r': Runner<S>)
    requires Fits(c) && SharedOk(c, st) && RunnerOk(c, st, r) && ExecuteFetched(c, st, r, r')
    ensures RunnerOk(c, st, r') && Follows(c, r, r')
  {
    if r.decoder < c.p.Count() {
      MemoryKeeps(c, st, r.which, r.decoder);
      var bc := r.fetched.value;
      if bc == LIVEPATCH {
        SwitchOk(c, st, r, r');
        LeadsNowhere(c, View(c, r).value);
      } else if bc == NATIVE {
        NativeOk(c, st, r, r');
      } else if bc == INVALID {
        UndecodedOk(c, st, r, r');
      } else if Sequential(FlowOf(c.p.build, bc)) {
        SequentialOk(c, st, r, bc, r');
      } else {
        LastOk(c, st, r, bc, r');
      }
    }
  }

  lemma FetchOk<S>(c: Setup<S>, st: State<S>, r: Runner<S>, r': Runner<S>)
    requires Fits(c) && SharedOk(c, st) && RunnerOk(c, st, r) && Fetch(c, st, r, r')
    ensures RunnerOk(c, st, r') && Follows(c, r, r')
  {
    MemoryKeeps(c, st, r.which, r.decoder);
    LeadsNowhere(c, View(c, r).value);
  }

  lemma EnterOk<S>(c: Setup<S>, st: State<S>, r: Runner<S>, r': Runner<S>)
    requires Fits(c) && SharedOk(c, st) && RunnerOk(c, st, r) && Enter(c, st, r, r')
    ensures RunnerOk(c, st, r') && Follows(c, r, r')
  {
    LandsOk(c, st, st.current, r.g, r');
    LeadsNowhere(c, r.g);
  }

  // -------------------------------------------------------------------------
  // Every interleaving
  // -------------------------------------------------------------------------

  /** The patcher takes nothing away that a thread relies on. */
  ghost predicate Grows<S>(c: Setup<S>, st: State<S>, st': State<S>) {
    && (st.published ==> st'.published) && |st'.cache| == |st.cache|
    && forall j {:trigger st'.cache[j]} :: 0 <= j < |st.cache| && st.cache[j].bytecode == LIVEPATCH ==>
         st'.cache[j].bytecode == LIVEPATCH
  }

  lemma RunnerStays<S>(c: Setup<S>, st: State<S>, st': State<S>, r: Runner<S>)
    requires RunnerOk(c, st, r) && Grows(c, st, st')
    ensures RunnerOk(c, st', r)
  {
  }

  lemma PatcherOk<S>(c: Setup<S>, st: State<S>, st': State<S>)
    requires Fits(c) && SharedOk(c, st)
    requires Publish(c, st, st') || SetDecoder(c, st, st') || Overwrite(c, st, st')
    ensures SharedOk(c, st') && Grows(c, st, st') && st'.runners == st.runners
  {
    forall j | 0 <= j < |st'.cache|
      ensures Stored(c, st', j)
    {
      assert Stored(c, st, j);
    }
  }

  /** Looking a handler up changes no entry but those that nobody patches. */
  lemma ResolvingOk<S>(c: Setup<S>, st: State<S>, st': State<S>, r: Runner<S>)
    requires Fits(c) && Untorn(c) && SharedOk(c, st) && RunnerOk(c, st, r)
    requires st' == st.(runners := st'.runners, cache := CacheAfter(c, st.cache, r))
    ensures SharedOk(c, st') && Grows(c, st, st')
  {
    forall j | 0 <= j < |st'.cache|
      ensures Stored(c, st', j)
    {
      assert Stored(c, st, j);
      if Resolves(c, st.cache, r) && j == r.decoder && j in c.claims {
        var i :| 0 <= i < |c.claims| && c.claims[i] == j;
        assert !Stores(c, i);
        assert FetchedOk(c, st, Original, j, r.fetched.value);
      }
    }
  }

  lemma RunsOk<S(!new)>(c: Setup<S>, st: State<S>, st': State<S>, i: nat)
    requires Fits(c) && Untorn(c) && Inv(c, st) && Runs(c, st, st', i)
    ensures SharedOk(c, st') && Grows(c, st, st')
    ensures RunnerOk(c, st', st'.runners[i]) && Follows(c, st.runners[i], st'.runners[i])
  {
    var r, r' := st.runners[i], st'.runners[i];
    if Enter(c, st, r, r') {
      EnterOk(c, st, r, r');
    } else if Fetch(c, st, r, r') {
      FetchOk(c, st, r, r');
    } else {
      ExecuteOk(c, st, r, r');
    }
    MemoryMoves(c, st, st', i);
    RunnerStays(c, st, st', r');
  }

  lemma MemoryMoves<S>(c: Setup<S>, st: State<S>, st': State<S>, i: nat)
    requires Fits(c) && Untorn(c) && Inv(c, st) && Runs(c, st, st', i)
    ensures SharedOk(c, st') && Grows(c, st, st')
  {
    if st'.cache == st.cache {
      forall j | 0 <= j < |st'.cache|
        ensures Stored(c, st', j)
      {
        assert Stored(c, st, j);
      }
    } else {
      ResolvingOk(c, st, st', st.runners[i]);
    }
  }

  /** One step of anybody. */
  lemma StepOk<S(!new)>(c: Setup<S>, st: State<S>, st': State<S>)
    requires Fits(c) && Untorn(c) && Inv(c, st) && Next(c, st, st')
    ensures Inv(c, st') && |st'.runners| == |st.runners|
    ensures forall i :: 0 <= i < |st.runners| ==> Follows(c, st.runners[i], st'.runners[i])
  {
    var moved := |st.runners|;
    if Publish(c, st, st') || SetDecoder(c, st, st') || Overwrite(c, st, st') {
      PatcherOk(c, st, st');
    } else {
      moved :| 0 <= moved < |st.runners| && Runs(c, st, st', moved);
      RunsOk(c, st, st', moved);
    }
    forall i | 0 <= i < |st.runners|
      ensures RunnerOk(c, st', st'.runners[i]) && Follows(c, st.runners[i], st'.runners[i])
    {
      if i != moved {
        RunnerStays(c, st, st', st.runners[i]);
        FollowsItself(c, st.runners[i]);
      }
    }
  }

  ghost predicate IsRun<S>(c: Setup<S>, run: seq<State<S>>) {
    |run| > 0 && forall n, k :: 0 <= n && k == n + 1 < |run| ==> Next(c, run[n], run[k])
  }

  /** What holds from the state st0 to a later one. */
  ghost predicate Kept<S>(c: Setup<S>, st0: State<S>, st: State<S>) {
    && Inv(c, st) && |st.runners| == |st0.runners|
    && forall i :: 0 <= i < |st.runners| ==> Follows(c, st0.runners[i], st.runners[i])
  }

  lemma KeptOn<S(!new)>(c: Setup<S>, st0: State<S>, st: State<S>, st': State<S>)
    requires Fits(c) && Untorn(c) && Kept(c, st0, st) && Next(c, st, st')
    ensures Kept(c, st0, st')
  {
    StepOk(c, st, st');
    forall i | 0 <= i < |st0.runners|
      ensures Follows(c, st0.runners[i], st'.runners[i])
    {
      FollowsOn(c, st0.runners[i], st.runners[i], st'.runners[i]);
    }
  }

  lemma {:induction false} RunOk<S(!new)>(c: Setup<S>, run: seq<State<S>>, n: nat)
    requires Fits(c) && Untorn(c) && IsRun(c, run) && Inv(c, run[0]) && n < |run|
    ensures Kept(c, run[0], run[n])
  {
    if n == 0 {
      forall i | 0 <= i < |run[0].runners| { FollowsItself(c, run[0].runners[i]); }
    } else {
      RunOk(c, run, n - 1);
      KeptOn(c, run[0], run[n - 1], run[n]);
    }
  }

  /** What the guest can tell, at the end of a run: its thread has executed instructions of the
      code in order and nothing else, an exception is one that it has at that place without a
      patch too, and a thread in either cache stands at the instruction its pc says. */
  ghost predicate Invisible<S>(c: Setup<S>, start: Runner<S>, r: Runner<S>) {
    && r != Strayed
    && (r.Threw? ==> Stops(c, r.g))
    && (r.At? && r.decoder < c.p.Count() ==>
          && c.p.Count() < |Initially(c, r.which)|
          && r.pc == c.p.AddressOf(r.decoder) + BlockBytes(c.p.build, Initially(c, r.which)[r.decoder]))
    && (start.Away? && r != Gone ==> View(c, r).Some? && Leads(c, start.g, View(c, r).value))
  }

  /** Live patching is invisible on every interleaving, unless a claimed entry has a handler that
      is looked up and stored. */
  lemma PatchingIsInvisible<S(!new)>(c: Setup<S>, run: seq<State<S>>, i: nat)
    requires c.p.Valid() && Chained(c.p, c.original) && Claimed(c.p, c.original, c.copy, c.claims)
    requires Untorn(c)
    requires IsRun(c, run) && Init(c, run[0]) && i < |run[0].runners|
    ensures |run[|run| - 1].runners| == |run[0].runners|
    ensures Invisible(c, run[0].runners[i], run[|run| - 1].runners[i])
  {
    SetupFits(c);
    assert Inv(c, run[0]) by {
      forall j | 0 <= j < |run[0].cache| ensures Stored(c, run[0], j) { }
    }
    RunOk(c, run, |run| - 1);
    var last := run[|run| - 1];
    assert RunnerOk(c, last, last.runners[i]);
    assert Follows(c, run[0].runners[i], last.runners[i]);
  }

  lemma SetupFits<S>(c: Setup<S>)
    requires c.p.Valid() && Chained(c.p, c.original) && Claimed(c.p, c.original, c.copy, c.claims)
    ensures Fits(c)
  {
    OriginalFits(c.p, c.original);
    CopyFits(c.p, c.original, c.copy, c.claims);
    forall i | 0 <= i < |c.claims|
      ensures c.copy[c.claims[i]].bytecode == NATIVE
    {
      assert c.claims[i] in c.claims;
    }
  }

  // -------------------------------------------------------------------------
  // Storing a handler after the entry was overwritten
  // -------------------------------------------------------------------------

  /** A thread in the original cache at the entry a. */
  ghost function Standing<S>(c: Setup<S>, a: nat, s: S, fetched: Option<Bytecode>): Runner<S>
    requires a < |c.original|
  {
    At(Original, a, c.p.AddressOf(a) + BlockBytes(c.p.build, c.original[a]), s, fetched)
  }

  /** Two threads at a, one of which has read its bytecode, and n entries overwritten since. */
  ghost predicate Overwritten<S>(c: Setup<S>, st: State<S>, n: nat, a: nat, s: S)
    requires a < |c.original|
  {
    && SharedOk(c, st) && st.published && st.current == Copy && st.writes == n
    && st.runners == [Standing(c, a, s, Some(c.original[a].bytecode)), Standing(c, a, s, None)]
    && forall i :: 0 <= i < n <= |c.claims| ==> c.claims[i] < |st.cache| && st.cache[c.claims[i]].bytecode == LIVEPATCH
  }

  ghost predicate Starts<S>(c: Setup<S>, run: seq<State<S>>, a: nat, s: S) {
    && IsRun(c, run) && Init(c, run[0])
    && run[0].runners == [Away(Guest(s, c.p.AddressOf(a))), Away(Guest(s, c.p.AddressOf(a)))]
  }

  /** Both threads enter the dispatch loop at a and one reads its bytecode; then the copy is
      published. */
  lemma ReadThenPublish<S>(c: Setup<S>, a: nat, s: S) returns (run: seq<State<S>>)
    requires Fits(c) && a < c.p.Count()
    ensures Starts(c, run, a, s) && Overwritten(c, run[|run| - 1], 0, a, s)
  {
    var away := Away(Guest(s, c.p.AddressOf(a)));
    var waiting, read := Standing(c, a, s, None), Standing(c, a, s, Some(c.original[a].bytecode));
    var st := State(c.original, false, Original, 0, [away, away]);
    var st1, st2 := st.(runners := [waiting, away]), st.(runners := [waiting, waiting]);
    var st3 := st.(runners := [read, waiting]);
    var st4 := st3.(published := true);
    var st5 := st4.(current := Copy);
    AddressInverts(c.p, a);
    ThreadMoves(c, st, 0, waiting, st1);
    ThreadMoves(c, st1, 1, waiting, st2);
    ThreadMoves(c, st2, 0, read, st3);
    assert Publish(c, st3, st4) && SetDecoder(c, st4, st5);
    run := [st, st1, st2, st3, st4, st5];
    forall j | 0 <= j < |st5.cache| ensures Stored(c, st5, j) { }
  }

  lemma ThreadMoves<S>(c: Setup<S>, st: State<S>, i: nat, r': Runner<S>, st': State<S>)
    requires i < |st.runners| && st' == st.(runners := st.runners[i := r'])
    requires Enter(c, st, st.runners[i], r') || Fetch(c, st, st.runners[i], r')
    ensures Next(c, st, st')
  {
    assert Runs(c, st, st', i);
  }

  /** The patcher overwrites n entries while the threads stand still. */
  lemma {:induction false} OverwriteMany<S>(c: Setup<S>, a: nat, s: S, n: nat) returns (run: seq<State<S>>)
    requires Fits(c) && a < c.p.Count() && n <= |c.claims|
    ensures Starts(c, run, a, s) && Overwritten(c, run[|run| - 1], n, a, s)
  {
    if n == 0 {
      run := ReadThenPublish(c, a, s);
    } else {
      var shorter := OverwriteMany(c, a, s, n - 1);
      var st' := OverwriteNext(c, shorter[|shorter| - 1], a, s, n);
      run := Extend(c, shorter, st');
    }
  }

  lemma OverwriteNext<S>(c: Setup<S>, st: State<S>, a: nat, s: S, n: nat) returns (st': State<S>)
    requires Fits(c) && a < c.p.Count() && 0 < n <= |c.claims| && Overwritten(c, st, n - 1, a, s)
    ensures Next(c, st, st') && Overwritten(c, st', n, a, s)
  {
    var b := c.claims[n - 1];
    st' := st.(cache := st.cache[b := LivePatchWord(st.cache[b])], writes := n);
    assert Overwrite(c, st, st');
    PatcherOk(c, st, st');
  }

  lemma Extend<S>(c: Setup<S>, run: seq<State<S>>, st: State<S>) returns (longer: seq<State<S>>)
    requires IsRun(c, run) && Next(c, run[|run| - 1], st)
    ensures IsRun(c, longer) && longer == run + [st]
  {
    longer := run + [st];
    forall n, k | 0 <= n && k == n + 1 < |longer|
      ensures Next(c, longer[n], longer[k])
    {
      if k < |run| {
        assert Next(c, run[n], run[k]);
      }
    }
  }

  /** What a thread that looks up its handler does, whatever it is. */
  lemma HandlerRuns<S>(c: Setup<S>, st: State<S>, r: Runner<S>, bc: Bytecode) returns (r': Runner<S>)
    requires Poised(c, st, r, bc) && ReadsHandler(bc)
    ensures ExecuteFetched(c, st, r, r')
  {
    MemoryKeeps(c, st, r.which, r.decoder);
    PoisedAtStart(c, st, r, bc);
    var d, mem := r.decoder, Memory(c, st, r.which);
    if bc == FUNCBLOCK {
      r' := LastRuns(c, mem, d, bc, r);
    } else {
      r' := SequentialRuns(c, mem[d], d, bc, r);
    }
  }

  lemma LastRuns<S>(c: Setup<S>, mem: seq<DecoderData>, d: nat, bc: Bytecode, r: Runner<S>) returns (r': Runner<S>)
    requires r.At? && d < c.p.Count() <= |mem|
    ensures ExecuteLast(c, mem, d, bc, r, r')
  {
    var g := Guest(r.s, r.pc);
    r' := match ExecuteHandled(c.p.build, c.sem, SeenBy(c, g), SlotOf(c, d, mem[d]), Uncounted(g))
          case None => Threw(g)
          case Some(x) => Away(Guest(x.s, x.pc));
  }

  lemma SequentialRuns<S>(c: Setup<S>, m: DecoderData, d: nat, bc: Bytecode, r: Runner<S>) returns (r': Runner<S>)
    requires r.At? && d < c.p.Count() && (bc == DATA(FUNCTION) || bc == C_DATA(C_FUNCTION))
    requires r.pc >= BlockBytes(c.p.build, m)
    ensures ExecuteSequential(c, d, m, FlowOf(c.p.build, bc), r, r')
  {
    var here := r.pc - BlockBytes(c.p.build, m);
    r' := match Performed(c, SlotOf(c, d, m), Guest(r.s, here))
          case None => Threw(Guest(r.s, here))
          case Some(s) =>
            At(r.which, d + (if bc == DATA(FUNCTION) then 4 else 2) / c.p.build.SlotBytes(), r.pc, s, None);
  }

  /** A thread that read the bytecode of a claimed entry before it was overwritten stores a handler
      index after that, and the next thread to come by strays. */
  lemma TornEntry<S>(c: Setup<S>, n: nat, s: S) returns (run: seq<State<S>>)
    requires Fits(c) && n < |c.claims| && Stores(c, n)
    ensures Starts(c, run, c.claims[n], s) && |run[|run| - 1].runners| == 2 && run[|run| - 1].runners[1] == Strayed
  {
    var a := c.claims[n];
    var shorter := OverwriteMany(c, a, s, n + 1);
    var st := shorter[|shorter| - 1];
    assert Stored(c, st, a);
    var st1 := StoreIndex(c, st, n, a, s);
    var longer := Extend(c, shorter, st1);
    var st2 := st1.(runners := [st1.runners[0], Standing(c, a, s, Some(LIVEPATCH))]);
    ThreadMoves(c, st1, 1, st2.runners[1], st2);
    longer := Extend(c, longer, st2);
    var st3 := st2.(runners := [st1.runners[0], Strayed]);
    assert ExecuteFetched(c, st2, st2.runners[1], Strayed) && st3.runners == st2.runners[1 := Strayed];
    assert CacheAfter(c, st2.cache, st2.runners[1]) == st2.cache;
    assert Runs(c, st2, st3, 1);
    run := Extend(c, longer, st3);
  }

  lemma StoreIndex<S>(c: Setup<S>, st: State<S>, n: nat, a: nat, s: S) returns (st1: State<S>)
    requires Fits(c) && n < |c.claims| && Stores(c, n) && a == c.claims[n] && Overwritten(c, st, n + 1, a, s)
    requires st.cache[a] == LivePatchWord(c.original[a])
    ensures Next(c, st, st1) && |st1.runners| == 2 && st1.runners[1] == Standing(c, a, s, None)
    ensures st1.published && |st1.cache| == |c.original|
    ensures st1.cache[a].bytecode == LIVEPATCH && st1.cache[a].handler != 0
            && st1.cache[a].idxend == c.original[a].idxend
  {
    var r := st.runners[0];
    var r' := HandlerRuns(c, st, r, c.original[a].bytecode);
    st1 := st.(runners := [r', st.runners[1]], cache := CacheAfter(c, st.cache, r));
    assert st1.runners == st.runners[0 := r'];
    assert Runs(c, st, st1, 0);
  }

  ghost predicate AlwaysInvisible<S(!new)>(c: Setup<S>) {
    forall run: seq<State<S>>, i: nat {:trigger IsRun(c, run), EndsInvisible(c, run, i)} ::
      IsRun(c, run) && Init(c, run[0]) && i < |run[0].runners| ==> EndsInvisible(c, run, i)
  }

  ghost predicate EndsInvisible<S>(c: Setup<S>, run: seq<State<S>>, i: nat)
    requires |run| > 0 && i < |run[0].runners|
  {
    var last := run[|run| - 1];
    |last.runners| == |run[0].runners| && Invisible(c, run[0].runners[i], last.runners[i])
  }

  /** Exactly when live patching is invisible; s is any state of a guest. */
  lemma InvisibleExactlyWhen<S(!new)>(c: Setup<S>, s: S)
    requires c.p.Valid() && Chained(c.p, c.original) && Claimed(c.p, c.original, c.copy, c.claims)
    ensures AlwaysInvisible(c) <==> Untorn(c)
  {
    SetupFits(c);
    if Untorn(c) {
      forall run: seq<State<S>>, i: nat | IsRun(c, run) && Init(c, run[0]) && i < |run[0].runners|
        ensures EndsInvisible(c, run, i)
      {
        PatchingIsInvisible(c, run, i);
      }
    }
    if !Untorn(c) {
      var n :| 0 <= n < |c.claims| && Stores(c, n);
      TornIsSeen(c, n, s);
    }
  }

  lemma TornIsSeen<S(!new)>(c: Setup<S>, n: nat, s: S)
    requires Fits(c) && n < |c.claims| && Stores(c, n)
    ensures !AlwaysInvisible(c)
  {
    var run := TornEntry(c, n, s);
    assert !EndsInvisible(c, run, 1);
  }

  // -------------------------------------------------------------------------
  // A segment on which it happens
  // -------------------------------------------------------------------------

  /** C.NOP, whose handler is looked up, and C.JR ra. */
  const NOP := Segment(Build(true, 8), 0, [0x0001, 0x8082])

  ghost predicate NopFirst(p: Code) {
    && p.build.compressed && p.Count() == 2
    && (forall j :: 0 <= j < 2 ==> p.slots[j].len == 1 && (p.slots[j].cuts <==> j == 1))
    && p.slots[0].decoded == C_DATA(C_FUNCTION) && p.slots[0].word != 0
  }

  lemma NopDecodes(w: Word, pc: nat, hi: nat)
    requires w == 0x8082_0001
    ensures DecodeSlot(Build(true, 8), pc, w, 0, hi).decoded == C_DATA(C_FUNCTION)
  {
    assert Quadrant(Low(w)) == 1 && CFunct3(Low(w)) == 0 && CRd(Low(w)) == 0;
  }

  lemma FirstNop(seg: Segment)
    requires seg == NOP
    ensures var slot := seg.SlotAt(0);
            slot.len == 1 && !slot.cuts && slot.decoded == C_DATA(C_FUNCTION) && slot.word != 0
  {
    NopWord(0x8082_0001, 0, 4);
    NopDecodes(0x8082_0001, 0, 4);
  }

  lemma SecondNop(seg: Segment)
    requires seg == NOP
    ensures var slot := seg.SlotAt(1); slot.len == 1 && slot.cuts
  {
    ReturnWord(0x8082, 2, 4);
  }

  lemma NopCode(seg: Segment)
    requires seg == NOP
    ensures NopFirst(seg.Parse())
  {
    FirstNop(seg);
    SecondNop(seg);
    var p := seg.Parse();
    assert p.slots[0] == seg.SlotAt(0) && p.slots[1] == seg.SlotAt(1);
  }

  lemma NopEntries(p: Code, e: seq<DecoderData>)
    requires NopFirst(p) && p.Measured() && p.Count() < |e| && Done(p, e, 0, 2)
    ensures e[0].bytecode == C_DATA(C_FUNCTION) && e[0].instr != 0 && p.IsStart(0)
    ensures Decodes(p, Ends(p, e), e)
  {
    assert p.IsStart(0) && p.IsStart(1);
    assert e[0] == Realized(p, 0) && e[1] == Realized(p, 1);
    assert BlockOffset(p, 0) == 0;
    assert Distance(p, 1) == 0;
    assert 1 in Ends(p, e);
  }

  /** From the bytes of that code to a cache and a patched copy on which patching shows. */
  method PatchNop(mapping: Word, ghost sem: Sem<bool>, ghost seen: Sight<bool>, ghost index: Word -> nat)
    returns (original: array<DecoderData>, copy: PatchedDecoderCache, ghost c: Setup<bool>)
    requires forall w :: index(w) != 0
    ensures c == Setup(NOP.Parse(), sem, seen, original[..], copy.cache[..], [0], index)
    ensures Chained(c.p, c.original) && Claimed(c.p, c.original, c.copy, c.claims) && !AlwaysInvisible(c)
  {
    var p := NOP.Parse();
    NopCode(NOP);
    ValidIsMeasured(p);
    original := GenerateDecoderCache(p);
    GeneratedIsNarrow(p, original[..]);
    NopEntries(p, original[..]);
    copy := BuildCopy(p, original, [0], [mapping]);
    c := Setup(p, sem, seen, original[..], copy.cache[..], [0], index);
    assert Stores(c, 0);
    InvisibleExactlyWhen(c, true);
  }
}
