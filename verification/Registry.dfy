/**
  The registry of shared execute segments: machines on different threads create and evict
  segments under one mutex for the registry and one for each of its entries.  A thread
  takes one step at a time, between which any other thread may take its own.
 */
module Registry {
  import opened Wrappers

  /** Base address and checksum of the code. */
  datatype Key = Key(pc: nat, crc: nat)

  /** A decoded execute segment, as an object with an identity. */
  datatype Object = Object(id: nat, key: Key)

  /** Where the thread of a machine is; slot is the free slot that create_execute_segment fills. */
  datatype Thread =
    | Idle
    | WantsRegistry(key: Key, slot: nat)   // get_segment, before its lock
    | FindsEntry(key: Key, slot: nat)      // get_segment, holding the registry
    | WantsEntry(key: Key, slot: nat)      // create_execute_segment, before the entry's lock
    | LooksInside(key: Key, slot: nat)     // holding the entry
    | Generates(key: Key, slot: nat)       // holding the entry, the new segment in its slot
    | Publishes(key: Key, slot: nat)       // holding the entry, the new segment complete
    | Returns(key: Key, slot: nat)         // holding the entry
    | WantsToRemove(key: Key)              // remove_if_unique, before its lock
    | Searches(key: Key)                   // holding the registry
    | Counts(key: Key)                     // holding the registry and the entry
    | Unlocks(key: Key)                    // holding the registry and the entry, segment moved out or not
    | Leaves(key: Key)                     // holding the registry

  datatype Machine = Machine(slots: seq<Option<Object>>, thread: Thread)

  datatype Entry = Entry(segment: Option<Object>, lock: Option<nat>)

  datatype State = State(machines: seq<Machine>, lock: Option<nat>, entries: map<Key, Entry>, complete: set<Object>,
                         nextId: nat)

  predicate HoldsRegistry(t: Thread) {
    t.FindsEntry? || t.Searches? || t.Counts? || t.Unlocks? || t.Leaves?
  }

  predicate HoldsEntry(t: Thread, k: Key) {
    && (t.LooksInside? || t.Generates? || t.Publishes? || t.Returns? || t.Counts? || t.Unlocks?)
    && t.key == k
  }

  predicate Creates(t: Thread) {
    t.WantsRegistry? || t.FindsEntry? || t.WantsEntry? || t.LooksInside? || t.Generates? || t.Publishes? || t.Returns?
  }

  // -------------------------------------------------------------------------
  // Steps
  // -------------------------------------------------------------------------

  /** The references a shared_ptr counts: slots of machines, and the registry. */
  ghost function Slots(st: State, o: Object): set<(nat, nat)> {
    set i: nat, j: nat | i < |st.machines| && j < |st.machines[i].slots| && st.machines[i].slots[j] == Some(o) :: (i, j)
  }

  ghost function Entries(st: State, o: Object): set<Key> {
    set k | k in st.entries && st.entries[k].segment == Some(o)
  }

  ghost function UseCount(st: State, o: Object): nat {
    |Slots(st, o)| + |Entries(st, o)|
  }

  /** Machine i after its thread moved on to t. */
  ghost function Goto(st: State, i: nat, t: Thread): State
    requires i < |st.machines|
  {
    st.(machines := st.machines[i := st.machines[i].(thread := t)])
  }

  /** Machine i after its thread moved on to t and its slot j changed. */
  ghost function Fill(st: State, i: nat, j: nat, o: Option<Object>, t: Thread): State
    requires i < |st.machines| && j < |st.machines[i].slots|
  {
    st.(machines := st.machines[i := Machine(st.machines[i].slots[j := o], t)])
  }

  /** create_execute_segment begins: next_execute_segment finds a free slot, old or new. */
  ghost predicate BeginCreate(st: State, st': State, i: nat)
    requires i < |st.machines|
  {
    && st.machines[i].thread == Idle
    && exists k: Key, j: nat ::
         var slots := st.machines[i].slots;
         || (j < |slots| && slots[j] == None && st' == Goto(st, i, WantsRegistry(k, j)))
         || (j == |slots| && st' == st.(machines := st.machines[i := Machine(slots + [None], WantsRegistry(k, j))]))
  }

  /** evict_execute_segment begins: the machine drops its own reference. */
  ghost predicate BeginEvict(st: State, st': State, i: nat)
    requires i < |st.machines|
  {
    && st.machines[i].thread == Idle
    && exists j: nat ::
         && j < |st.machines[i].slots| && st.machines[i].slots[j].Some?
         && st' == Fill(st, i, j, None, WantsToRemove(st.machines[i].slots[j].value.key))
  }

  /** A fork copies the references of a machine that is not creating or evicting. */
  ghost predicate Fork(st: State, st': State, i: nat)
    requires i < |st.machines|
  {
    st.machines[i].thread == Idle && st' == st.(machines := st.machines + [st.machines[i]])
  }

  ghost predicate LockRegistry(st: State, st': State, i: nat, t: Thread)
    requires i < |st.machines|
  {
    st.lock == None && st' == Goto(st, i, t).(lock := Some(i))
  }

  ghost predicate LockEntry(st: State, st': State, i: nat, t: Thread)
    requires i < |st.machines| && t != Idle
  {
    && t.key in st.entries && st.entries[t.key].lock == None
    && st' == Goto(st, i, t).(entries := st.entries[t.key := st.entries[t.key].(lock := Some(i))])
  }

  /** m_segments[key], then unlock. */
  ghost predicate InsertEntry(st: State, st': State, i: nat, k: Key, j: nat)
    requires i < |st.machines|
  {
    st' == Goto(st, i, WantsEntry(k, j)).(lock := None,
      entries := if k in st.entries then st.entries else st.entries[k := Entry(None, None)])
  }

  ghost predicate LookInside(st: State, st': State, i: nat, k: Key, j: nat)
    requires i < |st.machines|
  {
    && k in st.entries && j < |st.machines[i].slots|
    && (match st.entries[k].segment
        case Some(o) => st' == Fill(st, i, j, Some(o), Returns(k, j))
        case None => st' == Fill(st, i, j, Some(Object(st.nextId, k)), Generates(k, j)).(nextId := st.nextId + 1))
  }

  /** generate_decoder_cache. */
  ghost predicate Generate(st: State, st': State, i: nat, k: Key, j: nat)
    requires i < |st.machines|
  {
    && j < |st.machines[i].slots| && st.machines[i].slots[j].Some?
    && st' == Goto(st, i, Publishes(k, j)).(complete := st.complete + {st.machines[i].slots[j].value})
  }

  /** unlocked_set. */
  ghost predicate SetSegment(st: State, st': State, i: nat, k: Key, j: nat)
    requires i < |st.machines|
  {
    && j < |st.machines[i].slots| && k in st.entries
    && st' == Goto(st, i, Returns(k, j)).(
                entries := st.entries[k := st.entries[k].(segment := st.machines[i].slots[j])])
  }

  ghost predicate UnlockEntry(st: State, st': State, i: nat, k: Key, t: Thread)
    requires i < |st.machines|
  {
    k in st.entries && st' == Goto(st, i, t).(entries := st.entries[k := st.entries[k].(lock := None)])
  }

  /** use_count() == 1: the segment is moved out of the registry. */
  ghost predicate CountReferences(st: State, st': State, i: nat, k: Key)
    requires i < |st.machines|
  {
    && k in st.entries
    && var s := st.entries[k].segment;
    && var next := Goto(st, i, Unlocks(k));
    if s.Some? && UseCount(st, s.value) == 1
    then st' == next.(entries := st.entries[k := st.entries[k].(segment := None)])
    else st' == next
  }

  ghost predicate Step(st: State, st': State, i: nat)
    requires i < |st.machines|
  {
    match st.machines[i].thread
    case Idle => BeginCreate(st, st', i) || BeginEvict(st, st', i) || Fork(st, st', i)
    case WantsRegistry(k, j) => LockRegistry(st, st', i, FindsEntry(k, j))
    case FindsEntry(k, j) => InsertEntry(st, st', i, k, j)
    case WantsEntry(k, j) => LockEntry(st, st', i, LooksInside(k, j))
    case LooksInside(k, j) => LookInside(st, st', i, k, j)
    case Generates(k, j) => Generate(st, st', i, k, j)
    case Publishes(k, j) => SetSegment(st, st', i, k, j)
    case Returns(k, j) => UnlockEntry(st, st', i, k, Idle)
    case WantsToRemove(k) => LockRegistry(st, st', i, Searches(k))
    case Searches(k) => if k in st.entries then LockEntry(st, st', i, Counts(k)) else st' == Goto(st, i, Leaves(k))
    case Counts(k) => CountReferences(st, st', i, k)
    case Unlocks(k) => UnlockEntry(st, st', i, k, Leaves(k))
    case Leaves(k) => st' == Goto(st, i, Idle).(lock := None)
  }

  ghost predicate Next(st: State, st': State) {
    exists i :: 0 <= i < |st.machines| && Step(st, st', i)
  }

  ghost predicate Init(st: State) {
    && st.lock == None && st.entries == map[] && st.complete == {}
    && forall i :: 0 <= i < |st.machines| ==> st.machines[i] == Machine([], Idle)
  }

  // -------------------------------------------------------------------------
  // The invariant
  // -------------------------------------------------------------------------

  /** The locks name the threads that hold them. */
  ghost predicate EntryLockOk(st: State, i: nat, k: Key)
    requires i < |st.machines|
  {
    k in st.entries && st.entries[k].lock == Some(i) <==> HoldsEntry(st.machines[i].thread, k)
  }

  /** Thread i has what its state says it has. */
  ghost predicate ThreadOk(st: State, i: nat)
    requires i < |st.machines|
  {
    var t := st.machines[i].thread;
    && (st.lock == Some(i) <==> HoldsRegistry(t))
    && (t.WantsEntry? ==> t.key in st.entries)
    && (Creates(t) ==> t.slot < |st.machines[i].slots|)
    && (t.Generates? || t.Publishes? ==>
          var o := st.machines[i].slots[t.slot];
          o.Some? && o.value.key == t.key && (t.Publishes? ==> o.value in st.complete))
    && (t.Generates? || t.Publishes? ==> t.key in st.entries && st.entries[t.key].segment == None)
  }

  /** The slot that thread i is generating into. */
  ghost predicate Building(st: State, i: nat, j: nat)
    requires i < |st.machines|
  {
    var t := st.machines[i].thread;
    (t.Generates? || t.Publishes?) && t.slot == j
  }

  /** A machine that has a segment has the one in the registry. */
  ghost predicate SlotOk(st: State, i: nat, j: nat)
    requires i < |st.machines| && j < |st.machines[i].slots|
  {
    st.machines[i].slots[j].Some? && !Building(st, i, j) ==>
      var o := st.machines[i].slots[j].value;
      o.key in st.entries && st.entries[o.key].segment == Some(o)
  }

  ghost predicate EntryOk(st: State, k: Key)
    requires k in st.entries
  {
    && (st.entries[k].lock.Some? ==> st.entries[k].lock.value < |st.machines|)
    && (st.entries[k].segment.Some? ==>
          st.entries[k].segment.value.key == k && st.entries[k].segment.value in st.complete)
  }

  ghost predicate Inv(st: State) {
    && (st.lock.Some? ==> st.lock.value < |st.machines|)
    && (forall i, k {:trigger EntryLockOk(st, i, k)} :: 0 <= i < |st.machines| ==> EntryLockOk(st, i, k))
    && (forall i {:trigger ThreadOk(st, i)} :: 0 <= i < |st.machines| ==> ThreadOk(st, i))
    && (forall i, j {:trigger SlotOk(st, i, j)} :: 0 <= i < |st.machines| && 0 <= j < |st.machines[i].slots| ==>
         SlotOk(st, i, j))
    && (forall k {:trigger EntryOk(st, k)} :: k in st.entries ==> EntryOk(st, k))
  }

  // -------------------------------------------------------------------------
  // Every step keeps it
  // -------------------------------------------------------------------------

  /** A step of thread i that touches no entry but that of k, and no segment. */
  ghost predicate Local(st: State, st': State, i: nat, k: Key) {
    && i < |st.machines| == |st'.machines| && st.complete <= st'.complete
    && (forall m :: 0 <= m < |st.machines| && m != i ==> st'.machines[m] == st.machines[m])
    && st'.entries.Keys == st.entries.Keys + (if k in st'.entries then {k} else {})
    && (forall k' {:trigger st'.entries[k']} :: k' != k && k' in st.entries ==> st'.entries[k'] == st.entries[k'])
    && (k in st'.entries && k !in st.entries ==> st'.entries[k] == Entry(None, None))
    && (k in st.entries ==>
          && st'.entries[k].segment == st.entries[k].segment
          && (st'.entries[k].lock == st.entries[k].lock
             || {st.entries[k].lock, st'.entries[k].lock} <= {None, Some(i)}))
    && (st'.lock == st.lock || {st.lock, st'.lock} <= {None, Some(i)})
  }

  /** Such a step keeps the invariant if it keeps it for thread i. */
  lemma Others(st: State, st': State, i: nat, k: Key)
    requires Inv(st) && Local(st, st', i, k)
    requires ThreadOk(st, i) ==> ThreadOk(st', i)
    requires forall j {:trigger SlotOk(st', i, j)} :: 0 <= j < |st'.machines[i].slots| ==>
               (j < |st.machines[i].slots| ==> SlotOk(st, i, j)) ==> SlotOk(st', i, j)
    requires forall k' {:trigger EntryLockOk(st', i, k')} :: EntryLockOk(st, i, k') ==> EntryLockOk(st', i, k')
    ensures Inv(st')
  {
    forall m | 0 <= m < |st'.machines| ensures ThreadOk(st', m) { assert ThreadOk(st, m); }
    forall m, j | 0 <= m < |st'.machines| && 0 <= j < |st'.machines[m].slots| ensures SlotOk(st', m, j) {
      if j < |st.machines[m].slots| { assert SlotOk(st, m, j); }
    }
    forall k' | k' in st'.entries ensures EntryOk(st', k') { assert k' in st.entries ==> EntryOk(st, k'); }
    forall m, k' | 0 <= m < |st'.machines| ensures EntryLockOk(st', m, k') { assert EntryLockOk(st, m, k'); }
  }

  lemma BeginCreateOk(st: State, st': State, i: nat)
    requires Inv(st) && i < |st.machines| && BeginCreate(st, st', i)
    ensures Inv(st')
  {
    Others(st, st', i, Key(0, 0));
  }

  lemma BeginEvictOk(st: State, st': State, i: nat)
    requires Inv(st) && i < |st.machines| && BeginEvict(st, st', i)
    ensures Inv(st')
  {
    Others(st, st', i, Key(0, 0));
  }

  lemma ForkOk(st: State, st': State, i: nat)
    requires Inv(st) && i < |st.machines| && Fork(st, st', i)
    ensures Inv(st')
  {
    forall m | 0 <= m < |st'.machines| ensures ThreadOk(st', m) { assert m < |st.machines| ==> ThreadOk(st, m); }
    forall m, j | 0 <= m < |st'.machines| && 0 <= j < |st'.machines[m].slots| ensures SlotOk(st', m, j) {
      if m < |st.machines| { assert SlotOk(st, m, j); } else { assert SlotOk(st, i, j); }
    }
    forall k | k in st'.entries ensures EntryOk(st', k) { assert EntryOk(st, k); }
    forall m, k | 0 <= m < |st'.machines| ensures EntryLockOk(st', m, k) {
      if m < |st.machines| { assert EntryLockOk(st, m, k); } else { assert k in st.entries ==> EntryOk(st, k); }
    }
  }

  lemma LockRegistryOk(st: State, st': State, i: nat, t: Thread)
    requires Inv(st) && i < |st.machines| && LockRegistry(st, st', i, t)
    requires var s := st.machines[i].thread;
             || (s.WantsRegistry? && t == FindsEntry(s.key, s.slot))
             || (s.WantsToRemove? && t == Searches(s.key))
    ensures Inv(st')
  {
    Others(st, st', i, Key(0, 0));
  }

  lemma LockEntryOk(st: State, st': State, i: nat, t: Thread)
    requires Inv(st) && i < |st.machines| && t != Idle && LockEntry(st, st', i, t)
    requires var s := st.machines[i].thread;
             || (s.WantsEntry? && t == LooksInside(s.key, s.slot))
             || (s.Searches? && t == Counts(s.key))
    ensures Inv(st')
  {
    Others(st, st', i, t.key);
  }

  lemma UnlockEntryOk(st: State, st': State, i: nat, k: Key, t: Thread)
    requires Inv(st) && i < |st.machines| && UnlockEntry(st, st', i, k, t)
    requires var s := st.machines[i].thread;
             (s.Returns? && s.key == k && t == Idle) || (s.Unlocks? && s.key == k && t == Leaves(k))
    ensures Inv(st')
  {
    assert EntryLockOk(st, i, k);
    Others(st, st', i, k);
  }

  lemma LeavesOk(st: State, st': State, i: nat)
    requires Inv(st) && i < |st.machines|
    requires var s := st.machines[i].thread;
             || (s.Leaves? && st' == Goto(st, i, Idle).(lock := None))
             || (s.Searches? && st' == Goto(st, i, Leaves(s.key)))
    ensures Inv(st')
  {
    assert ThreadOk(st, i);
    Others(st, st', i, Key(0, 0));
  }

  lemma InsertEntryOk(st: State, st': State, i: nat, k: Key, j: nat)
    requires Inv(st) && i < |st.machines| && st.machines[i].thread == FindsEntry(k, j) && InsertEntry(st, st', i, k, j)
    ensures Inv(st')
  {
    assert ThreadOk(st, i);
    Others(st, st', i, k);
  }

  lemma LookInsideOk(st: State, st': State, i: nat, k: Key, j: nat)
    requires Inv(st) && i < |st.machines| && st.machines[i].thread == LooksInside(k, j) && LookInside(st, st', i, k, j)
    ensures Inv(st')
  {
    assert EntryLockOk(st, i, k) && EntryOk(st, k);
    Others(st, st', i, k);
  }

  lemma GenerateOk(st: State, st': State, i: nat, k: Key, j: nat)
    requires Inv(st) && i < |st.machines| && st.machines[i].thread == Generates(k, j) && Generate(st, st', i, k, j)
    ensures Inv(st')
  {
    assert EntryLockOk(st, i, k);
    Others(st, st', i, k);
  }

  /** Only one thread at a time is inside an entry. */
  lemma Exclusive(st: State, i: nat, m: nat, k: Key)
    requires Inv(st) && i < |st.machines| && m < |st.machines|
    requires HoldsEntry(st.machines[i].thread, k) && HoldsEntry(st.machines[m].thread, k)
    ensures i == m
  {
    assert EntryLockOk(st, i, k) && EntryLockOk(st, m, k);
  }

  lemma SetSegmentOk(st: State, st': State, i: nat, k: Key, j: nat)
    requires Inv(st) && i < |st.machines| && st.machines[i].thread == Publishes(k, j) && SetSegment(st, st', i, k, j)
    ensures Inv(st')
  {
    assert EntryLockOk(st, i, k);
    assert ThreadOk(st, i);
    forall m | 0 <= m < |st'.machines| ensures ThreadOk(st', m) {
      assert ThreadOk(st, m);
      if HoldsEntry(st.machines[m].thread, k) { Exclusive(st, i, m, k); }
    }
    forall m, j | 0 <= m < |st'.machines|
      && 0 <= j < |st'.machines[m].slots| ensures SlotOk(st', m, j) { assert SlotOk(st, m, j); }
    forall k | k in st'.entries ensures EntryOk(st', k) { assert EntryOk(st, k); }
    forall m, k | 0 <= m < |st'.machines| ensures EntryLockOk(st', m, k) { assert EntryLockOk(st, m, k); }
  }

  /** A count of one, seen from the registry, leaves none for the machines. */
  lemma UniqueMeansUnheld(st: State, k: Key, o: Object, i: nat, j: nat)
    requires k in st.entries && st.entries[k].segment == Some(o) && UseCount(st, o) == 1
    requires i < |st.machines| && j < |st.machines[i].slots|
    ensures st.machines[i].slots[j] != Some(o)
  {
    assert k in Entries(st, o);
    assert |Slots(st, o)| == 0;
    assert (i, j) !in Slots(st, o);
  }

  lemma CountReferencesOk(st: State, st': State, i: nat, k: Key)
    requires Inv(st) && i < |st.machines| && st.machines[i].thread == Counts(k) && CountReferences(st, st', i, k)
    ensures Inv(st')
  {
    assert EntryLockOk(st, i, k);
    forall m | 0 <= m < |st'.machines| ensures ThreadOk(st', m) { assert ThreadOk(st, m); }
    forall m, j | 0 <= m < |st'.machines| && 0 <= j < |st'.machines[m].slots| ensures SlotOk(st', m, j) {
      assert SlotOk(st, m, j);
      if st.entries[k].segment.Some? && UseCount(st, st.entries[k].segment.value) == 1 {
        UniqueMeansUnheld(st, k, st.entries[k].segment.value, m, j);
      }
    }
    forall k | k in st'.entries ensures EntryOk(st', k) { assert EntryOk(st, k); }
    forall m, k | 0 <= m < |st'.machines| ensures EntryLockOk(st', m, k) { assert EntryLockOk(st, m, k); }
  }

  lemma StepOk(st: State, st': State, i: nat)
    requires Inv(st) && i < |st.machines| && Step(st, st', i)
    ensures Inv(st')
  {
    match st.machines[i].thread
    case Idle =>
      if BeginCreate(st, st', i) {
        BeginCreateOk(st, st', i);
      } else if BeginEvict(st, st', i) {
        BeginEvictOk(st, st', i);
      } else {
        ForkOk(st, st', i);
      }
    case WantsRegistry(k, j) => LockRegistryOk(st, st', i, FindsEntry(k, j));
    case FindsEntry(k, j) => InsertEntryOk(st, st', i, k, j);
    case WantsEntry(k, j) => LockEntryOk(st, st', i, LooksInside(k, j));
    case LooksInside(k, j) => LookInsideOk(st, st', i, k, j);
    case Generates(k, j) => GenerateOk(st, st', i, k, j);
    case Publishes(k, j) => SetSegmentOk(st, st', i, k, j);
    case Returns(k, j) => UnlockEntryOk(st, st', i, k, Idle);
    case WantsToRemove(k) => LockRegistryOk(st, st', i, Searches(k));
    case Searches(k) => if k in st.entries { LockEntryOk(st, st', i, Counts(k)); } else { LeavesOk(st, st', i); }
    case Counts(k) => CountReferencesOk(st, st', i, k);
    case Unlocks(k) => UnlockEntryOk(st, st', i, k, Leaves(k));
    case Leaves(k) => LeavesOk(st, st', i);
  }

  // -------------------------------------------------------------------------
  // Every run
  // -------------------------------------------------------------------------

  ghost predicate IsRun(run: seq<State>) {
    |run| > 0 && Init(run[0]) && forall n, k :: 0 <= n && k == n + 1 < |run| ==> Next(run[n], run[k])
  }

  lemma {:induction false} RunOk(run: seq<State>, n: nat)
    requires IsRun(run) && n < |run|
    ensures Inv(run[n])
  {
    if n > 0 {
      RunOk(run, n - 1);
      assert Next(run[n - 1], run[n]);
      var i :| 0 <= i < |run[n - 1].machines| && Step(run[n - 1], run[n], i);
      StepOk(run[n - 1], run[n], i);
    }
  }

  /** Machine i has the segment o, and is not in the middle of generating it. */
  ghost predicate Has(st: State, i: nat, o: Object) {
    && i < |st.machines|
    && exists j: nat :: j < |st.machines[i].slots| && st.machines[i].slots[j] == Some(o) && !Building(st, i, j)
  }

  /** Whoever has a segment of one key has the same one, complete, and nobody is generating
      another. */
  lemma SharedSegment(run: seq<State>, n: nat, i: nat, a: Object, m: nat, b: Object)
    requires IsRun(run) && n < |run|
    requires Has(run[n], i, a) && Has(run[n], m, b) && a.key == b.key
    ensures a == b && a in run[n].complete
    ensures a.key in run[n].entries && run[n].entries[a.key].segment == Some(a)
    ensures forall w :: 0 <= w < |run[n].machines| ==>
              var t := run[n].machines[w].thread; !((t.Generates? || t.Publishes?) && t.key == a.key)
  {
    var st := run[n];
    RunOk(run, n);
    var j: nat :| j < |st.machines[i].slots| && st.machines[i].slots[j] == Some(a) && !Building(st, i, j);
    var l: nat :| l < |st.machines[m].slots| && st.machines[m].slots[l] == Some(b) && !Building(st, m, l);
    assert SlotOk(st, i, j) && SlotOk(st, m, l) && EntryOk(st, a.key);
    assert forall w {:trigger st.machines[w]} :: 0 <= w < |st.machines| ==> ThreadOk(st, w);
  }

  /** A segment leaves the registry only when no machine has it, generating or not. */
  lemma LeavesUnheld(run: seq<State>, n: nat, k: Key, o: Object, i: nat, j: nat)
    requires IsRun(run) && n + 1 < |run|
    requires k in run[n].entries && run[n].entries[k].segment == Some(o)
    requires !(k in run[n + 1].entries && run[n + 1].entries[k].segment == Some(o))
    requires i < |run[n].machines| && j < |run[n].machines[i].slots|
    ensures run[n].machines[i].slots[j] != Some(o)
    ensures k in run[n + 1].entries && run[n + 1].entries[k].segment == None
  {
    RunOk(run, n);
    var st, st' := run[n], run[n + 1];
    assert Next(st, st');
    var m :| 0 <= m < |st.machines| && Step(st, st', m);
    assert ThreadOk(st, m);
    assert st.machines[m].thread.Counts?;
    UniqueMeansUnheld(st, k, o, i, j);
  }

  // -------------------------------------------------------------------------
  // Locks
  // -------------------------------------------------------------------------

  /** Thread i cannot go on before thread m gives up a lock. */
  ghost predicate WaitsFor(st: State, i: nat, m: nat)
    requires i < |st.machines|
  {
    match st.machines[i].thread
    case WantsRegistry(_, _) => st.lock == Some(m)
    case WantsToRemove(_) => st.lock == Some(m)
    case WantsEntry(k, _) => k in st.entries && st.entries[k].lock == Some(m)
    case Searches(k) => k in st.entries && st.entries[k].lock == Some(m)
    case _ => false
  }

  /** The registry comes before its entries. */
  ghost function Rank(t: Thread): nat {
    if t.WantsRegistry? || t.WantsToRemove? then 2 else if t.WantsEntry? || t.Searches? then 1 else 0
  }

  lemma WaitingDescends(st: State, i: nat, m: nat)
    requires Inv(st) && i < |st.machines| && WaitsFor(st, i, m)
    ensures m < |st.machines| && Rank(st.machines[m].thread) < Rank(st.machines[i].thread)
  {
    assert ThreadOk(st, i);
    var t := st.machines[i].thread;
    if t.WantsEntry? || t.Searches? {
      assert EntryOk(st, t.key);
      assert EntryLockOk(st, m, t.key);
    } else {
      assert ThreadOk(st, m);
    }
  }

  ghost predicate Chain(st: State, threads: seq<nat>) {
    && |threads| > 0
    && (forall n :: 0 <= n < |threads| ==> threads[n] < |st.machines|)
    && forall n, k :: 0 <= n && k == n + 1 < |threads| ==> WaitsFor(st, threads[n], threads[k])
  }

  lemma {:induction false} ChainDescends(st: State, threads: seq<nat>, n: nat)
    requires Inv(st) && Chain(st, threads) && n < |threads|
    ensures Rank(st.machines[threads[n]].thread) + n <= Rank(st.machines[threads[0]].thread)
  {
    if n > 0 {
      ChainDescends(st, threads, n - 1);
      WaitingDescends(st, threads[n - 1], threads[n]);
    }
  }

  /** No run reaches a cycle of threads that wait for each other's locks. */
  lemma NoLockCycle(run: seq<State>, n: nat, threads: seq<nat>)
    requires IsRun(run) && n < |run| && Chain(run[n], threads)
    ensures !WaitsFor(run[n], threads[|threads| - 1], threads[0])
  {
    RunOk(run, n);
    if WaitsFor(run[n], threads[|threads| - 1], threads[0]) {
      ChainDescends(run[n], threads, |threads| - 1);
      WaitingDescends(run[n], threads[|threads| - 1], threads[0]);
    }
  }

  /** A thread that is not idle and waits for nobody can take a step. */
  lemma UnblockedCanStep(st: State, i: nat) returns (st': State)
    requires Inv(st) && i < |st.machines| && st.machines[i].thread != Idle
    requires forall m: nat :: !WaitsFor(st, i, m)
    ensures Step(st, st', i)
  {
    assert ThreadOk(st, i);
    var t := st.machines[i].thread;
    if t.WantsRegistry? || t.WantsToRemove? {
      assert st.lock == None by { if st.lock.Some? { assert WaitsFor(st, i, st.lock.value); } }
      st' := Goto(st, i, if t.WantsRegistry? then FindsEntry(t.key, t.slot) else Searches(t.key)).(lock := Some(i));
    } else if t.Leaves? {
      st' := Goto(st, i, Idle).(lock := None);
    } else if t.FindsEntry? {
      st' := Goto(st, i, WantsEntry(t.key, t.slot)).(lock := None,
        entries := if t.key in st.entries then st.entries else st.entries[t.key := Entry(None, None)]);
    } else if t.Searches? && t.key !in st.entries {
      st' := Goto(st, i, Leaves(t.key));
    } else {
      assert EntryLockOk(st, i, t.key);
      var e := st.entries[t.key];
      if t.WantsEntry? || t.Searches? {
        assert e.lock == None by { if e.lock.Some? { assert WaitsFor(st, i, e.lock.value); } }
        st' := Goto(st, i, if t.WantsEntry? then LooksInside(t.key, t.slot) else Counts(t.key))
          .(entries := st.entries[t.key := e.(lock := Some(i))]);
      } else {
        st' := InsideCanStep(st, i);
      }
    }
  }

  lemma InsideCanStep(st: State, i: nat) returns (st': State)
    requires Inv(st) && i < |st.machines|
    requires st.machines[i].thread != Idle && HoldsEntry(st.machines[i].thread, st.machines[i].thread.key)
    ensures Step(st, st', i)
  {
    var t := st.machines[i].thread;
    assert ThreadOk(st, i) && EntryLockOk(st, i, t.key);
    var e := st.entries[t.key];
    match t {
      case LooksInside(k, j) =>
        st' := if e.segment.Some? then Fill(st, i, j, e.segment, Returns(k, j))
               else Fill(st, i, j, Some(Object(st.nextId, k)), Generates(k, j)).(nextId := st.nextId + 1);
      case Generates(k, j) =>
        st' := Goto(st, i, Publishes(k, j)).(complete := st.complete + {st.machines[i].slots[j].value});
      case Publishes(k, j) =>
        st' := Goto(st, i, Returns(k, j)).(entries := st.entries[k := e.(segment := st.machines[i].slots[j])]);
      case Returns(k, j) => st' := Goto(st, i, Idle).(entries := st.entries[k := e.(lock := None)]);
      case Unlocks(k) => st' := Goto(st, i, Leaves(k)).(entries := st.entries[k := e.(lock := None)]);
      case Counts(k) =>
        st' := if e.segment.Some? && UseCount(st, e.segment.value) == 1
               then Goto(st, i, Unlocks(k)).(entries := st.entries[k := e.(segment := None)])
               else Goto(st, i, Unlocks(k));
    }
  }

  /** No run gets stuck: while a thread is inside an operation, some such thread can go on. */
  lemma NoDeadlock(run: seq<State>, n: nat, i: nat) returns (m: nat, st': State)
    requires IsRun(run) && n < |run|
    requires i < |run[n].machines| && run[n].machines[i].thread != Idle
    ensures m < |run[n].machines| && run[n].machines[m].thread != Idle && Step(run[n], st', m)
  {
    RunOk(run, n);
    m := Unblocked(run[n], i);
    st' := UnblockedCanStep(run[n], m);
  }

  lemma Unblocked(st: State, i: nat) returns (m: nat)
    requires Inv(st) && i < |st.machines| && st.machines[i].thread != Idle
    ensures m < |st.machines| && st.machines[m].thread != Idle && forall w: nat :: !WaitsFor(st, m, w)
    decreases Rank(st.machines[i].thread)
  {
    if w: nat :| WaitsFor(st, i, w) {
      WaitingDescends(st, i, w);
      HolderIsBusy(st, i, w);
      m := Unblocked(st, w);
    } else {
      m := i;
    }
  }

  lemma HolderIsBusy(st: State, i: nat, m: nat)
    requires Inv(st) && i < |st.machines| && WaitsFor(st, i, m) && m < |st.machines|
    ensures st.machines[m].thread != Idle
  {
    assert ThreadOk(st, m);
    var t := st.machines[i].thread;
    assert EntryLockOk(st, m, t.key);
  }
}
