/**
  Forked machines: a fork loans every page of its master and copies what it writes to.  Over
  any schedule of operations by any number of forks, the master keeps its bytes, and each fork
  behaves as if it were alone: it has its master's bytes overlaid with its own.
 */
module Forks {
  import opened Paging
  import opened MemoryRuns

  /** Every page becomes a loan; writable ones become copy-on-write. */
  function LoanAttr(attr: Attributes): Attributes {
    if attr.write then attr.(write := false, isCow := true, nonOwning := true) else attr.(nonOwning := true)
  }

  ghost function Loaned(table: Table): Table {
    map n | n in table && !table[n].attr.dontFork :: Page(LoanAttr(table[n].attr), table[n].data)
  }

  method LoanAll(table: Table) returns (r: Table)
    ensures r == Loaned(table)
  {
    r := map[];
    var rest := table.Keys;
    while rest != {}
      invariant rest <= table.Keys
      invariant r == map n | n in table && n !in rest && !table[n].attr.dontFork ::
                  Page(LoanAttr(table[n].attr), table[n].data)
      decreases |rest|
    {
      var n :| n in rest;
      if !table[n].attr.dontFork {
        r := r[n := Page(LoanAttr(table[n].attr), table[n].data)];
      }
      rest := rest - {n};
    }
  }

  lemma LoanedIsOk(table: Table, zero: PageData)
    requires TableOk(table, zero)
    ensures TableOk(Loaned(table), zero) && OwnedOf(Loaned(table)) == {} && OwnedPagesOf(Loaned(table)) == {}
    ensures BuffersOf(Loaned(table), zero) <= BuffersOf(table, zero)
  {
    forall n | n in Loaned(table)
      ensures PageOk(Loaned(table), zero, n)
    {
      assert PageOk(table, zero, n);
    }
  }

  /** What a fork of a machine with that table and those bytes begins with. */
  ghost function Inherited(table: Table, bytes: Pages): (v: Pages)
    requires Full(bytes)
    ensures Full(v)
  {
    imap n: nat | true :: if n in table && table[n].attr.dontFork then Zeros() else bytes[n]
  }

  /** machine_loader. */
  method Fork(master: Memory) returns (fork: Memory)
    requires master.Valid()
    ensures fresh(fork) && fork.Valid() && fork.zero == master.zero && fork.maxPages == master.maxPages
    ensures fork.pages == Loaned(master.pages)
    ensures fork.owned == {} && fork.buffers <= master.buffers && fork.conversions == 0
    ensures fork.View() == Inherited(master.pages, master.View())
  {
    var table := LoanAll(master.pages);
    fork := new Memory(master.zero, master.maxPages);
    LoanedIsOk(master.pages, master.zero);
    fork.pages := table;
    fork.buffers := master.buffers;
    fork.InvalidateResetCache();
  }

  // -------------------------------------------------------------------------
  // Any number of forks, any schedule
  // -------------------------------------------------------------------------

  /** An operation of one of the forks. */
  datatype Act = Act(who: nat, op: Op)

  ghost predicate Fair(act: Act, n: nat) {
    act.who < n && !act.op.Share? && Allowed(act.op, {}, map[])
  }

  /** Who owns a buffer that is not the master's. */
  type Owners = map<PageData, nat>

  /** Fork i uses the master's buffers and buffers of its own, and owns only the latter. */
  ghost predicate AtHome(master: Memory, fork: Memory, owners: Owners, i: nat)
    reads master`buffers, fork, master.zero
  {
    fork != master && fork.zero == master.zero && fork.Valid()
      && Housed(master.buffers, fork.owned, fork.buffers, owners, i)
  }

  ghost predicate Housed(masters: set<PageData>, owned: set<PageData>, buffers: set<PageData>, owners: Owners, i: nat) {
    && (forall d {:trigger d in owned} :: d in owned ==> d in owners && owners[d] == i)
    && (forall d {:trigger d in buffers} :: d in buffers ==> d in masters || (d in owners && owners[d] == i))
    && (forall d {:trigger d in owners} :: d in owners ==> d !in masters)
  }

  /** Fork who has come to use new buffers. */
  lemma HousedMore(masters: set<PageData>, owned0: set<PageData>, buffers0: set<PageData>, owned: set<PageData>,
                   buffers: set<PageData>, owners: Owners, who: nat)
    requires Housed(masters, owned0, buffers0, owners, who)
    requires buffers - buffers0 !! masters + owners.Keys && owned <= owned0 + (buffers - buffers0)
    ensures Housed(masters, owned, buffers, Extended(owners, buffers - buffers0, who), who)
  {
  }

  lemma HousedStill(masters: set<PageData>, owned: set<PageData>, buffers: set<PageData>, owners: Owners, i: nat,
                    used: set<PageData>, who: nat)
    requires Housed(masters, owned, buffers, owners, i) && used !! masters + owners.Keys
    ensures Housed(masters, owned, buffers, Extended(owners, used, who), i)
  {
  }

  /** All forks are at home, and no two of them are one. */
  ghost predicate Family(master: Memory, forks: seq<Memory>, owners: Owners)
    reads master`buffers, forks, master.zero
  {
    && (forall i {:trigger AtHome(master, forks[i], owners, i)} :: 0 <= i < |forks| ==>
         AtHome(master, forks[i], owners, i))
    && (forall i, j :: 0 <= i < j < |forks| ==> forks[i] != forks[j])
  }

  /** Each buffer has at most one owner, and nobody else uses it. */
  lemma OneOwner(master: Memory, forks: seq<Memory>, owners: Owners, i: nat, j: nat)
    requires Family(master, forks, owners) && i < |forks| && j < |forks| && i != j
    ensures forks[i].owned !! forks[j].buffers && forks[i].owned !! master.buffers
  {
    assert AtHome(master, forks[i], owners, i) && AtHome(master, forks[j], owners, j);
  }

  lemma HomeStill(master: Memory, fork: Memory, owners: Owners, j: nat, used: set<PageData>, who: nat)
    requires AtHome(master, fork, owners, j) && used !! master.buffers + owners.Keys
    ensures AtHome(master, fork, Extended(owners, used, who), j)
  {
    HousedStill(master.buffers, fork.owned, fork.buffers, owners, j, used, who);
  }

  /** A machine that is neither written to nor shares what is written keeps its bytes. */
  twostate lemma Untouched(m: Memory)
    requires old(m.Valid()) && unchanged(m) && forall d {:trigger d.bytes} :: d in m.buffers ==> unchanged(d)
    ensures m.Valid() && m.View() == old(m.View())
  {
  }

  /** Buffers that fork who has come to use are its own. */
  ghost function Extended(owners: Owners, used: set<PageData>, who: nat): Owners {
    map d | d in owners.Keys + used :: if d in owners then owners[d] else who
  }

  /** One fork does something, beside another machine that uses none of what the fork owns. */
  method Beside(fork: Memory, ghost other: Memory, act: Act) returns (out: Outcome, ghost was: Flat, ghost became: Flat)
    requires fork.Valid() && other.Valid() && fork != other && fork.owned !! other.buffers && Fair(act, act.who + 1)
    modifies fork, fork.owned
    ensures fork.Valid() && fresh(fork.buffers - old(fork.buffers)) && fresh(fork.owned - old(fork.owned))
    ensures was == old(FlatOf(fork)) && became == FlatOf(fork) && Does(was, act.op, out, became, [], fork.maxPages)
    ensures other.Valid() && FlatOf(other) == old(FlatOf(other))
  {
    was := FlatOf(fork);
    out := Perform(fork, act.op, {}, map[]);
    became := FlatOf(fork);
    Untouched(other);
  }

  /** The same, at home. */
  method Alone(master: Memory, fork: Memory, ghost other: Memory, act: Act, ghost owners: Owners)
    returns (out: Outcome, ghost used: set<PageData>, ghost now: Owners, ghost was: Flat, ghost became: Flat)
    requires fork.Valid() && other.Valid() && fork != other && fork.owned !! other.buffers && Fair(act, act.who + 1)
    requires AtHome(master, fork, owners, act.who)
    modifies fork, fork.owned
    ensures fork.Valid() && AtHome(master, fork, now, act.who) && fresh(used) && now == Extended(owners, used, act.who)
    ensures was == old(FlatOf(fork)) && became == FlatOf(fork) && Does(was, act.op, out, became, [], fork.maxPages)
    ensures other.Valid() && FlatOf(other) == old(FlatOf(other))
  {
    out, was, became := Beside(fork, other, act);
    used := fork.buffers - old(fork.buffers);
    now := Extended(owners, used, act.who);
    HousedMore(master.buffers, old(fork.owned), old(fork.buffers), fork.owned, fork.buffers, owners, act.who);
  }

  /** The same, among others. */
  method Among(master: Memory, forks: seq<Memory>, ghost other: Memory, act: Act, ghost owners: Owners)
    returns (out: Outcome, ghost now: Owners, ghost was: Flat, ghost became: Flat)
    requires Family(master, forks, owners) && master.Valid() && Fair(act, |forks|) && forks[act.who].Valid()
    requires other.Valid() && forks[act.who] != other && forks[act.who].owned !! other.buffers
    modifies forks[act.who], forks[act.who].owned
    ensures Family(master, forks, now) && fresh(now.Keys - owners.Keys) && forks[act.who].Valid()
    ensures master.Valid() && master.View() == old(master.View()) && master.pages == old(master.pages)
    ensures was == old(FlatOf(forks[act.who])) && became == FlatOf(forks[act.who])
    ensures Does(was, act.op, out, became, [], forks[act.who].maxPages)
    ensures other.Valid() && FlatOf(other) == old(FlatOf(other))
  {
    var fork := forks[act.who];
    assert AtHome(master, fork, owners, act.who);
    ghost var used;
    out, used, now, was, became := Alone(master, fork, other, act, owners);
    Untouched(master);
    forall j | 0 <= j < |forks|
      ensures AtHome(master, forks[j], now, j)
    {
      if j != act.who {
        assert old(AtHome(master, forks[j], owners, j));
        HomeStill(master, forks[j], owners, j, used, act.who);
      }
    }
  }

  /** The same, seen by any machine w. */
  method Step(master: Memory, forks: seq<Memory>, act: Act, ghost owners: Owners, ghost w: nat, ghost before: Flat)
    returns (out: Outcome, ghost now: Owners, ghost after: Flat)
    requires Family(master, forks, owners) && master.Valid()
    requires Fair(act, |forks|) && w < |forks| && forks[w].Valid() && before == FlatOf(forks[w])
    modifies forks, owners.Keys
    ensures Family(master, forks, now) && master.Valid()
    ensures forks[w].Valid() && fresh(now.Keys - owners.Keys)
    ensures master.View() == old(master.View()) && master.pages == old(master.pages)
    ensures after == FlatOf(forks[w]) && Goes(before, act, out, after, w, forks[w].maxPages)
  {
    assert AtHome(master, forks[act.who], owners, act.who);
    ghost var other := master;
    if w != act.who {
      OneOwner(master, forks, owners, act.who, w);
      other := forks[w];
    }
    ghost var was, became;
    out, now, was, became := Among(master, forks, other, act, owners);
    after := if w == act.who then became else before;
    GoesBy(was, became, before, act, out, after, w, forks[w].maxPages);
  }

  lemma GoesBy(was: Flat, became: Flat, before: Flat, act: Act, out: Outcome, after: Flat, w: nat, limit: nat)
    requires if act.who == w then before == was && after == became && Does(was, act.op, out, became, [], limit)
             else after == before
    ensures Goes(before, act, out, after, w, limit)
  {
  }

  /** What an operation of somebody does to machine w: what it does to a flat array if it is w's own,
      and nothing otherwise. */
  ghost predicate Goes(before: Flat, act: Act, out: Outcome, after: Flat, w: nat, limit: nat) {
    if act.who == w then Does(before, act.op, out, after, [], limit) else after == before
  }

  /** A run of machine w. */
  ghost predicate Lives(trace: seq<Flat>, acts: seq<Act>, outs: seq<Outcome>, w: nat, limit: nat) {
    && |outs| <= |acts| && |trace| == |outs| + 1
    && forall k {:trigger outs[k]} :: 0 <= k < |outs| ==> Goes(trace[k], acts[k], outs[k], trace[k + 1], w, limit)
  }

  lemma LivesOn(trace: seq<Flat>, acts: seq<Act>, outs: seq<Outcome>, w: nat, limit: nat, out: Outcome, after: Flat)
    requires Lives(trace, acts, outs, w, limit) && |outs| < |acts|
    requires Goes(trace[|outs|], acts[|outs|], out, after, w, limit)
    ensures Lives(trace + [after], acts, outs + [out], w, limit)
  {
  }

  /** Any schedule of operations by the forks; w is any one of them. */
  method RunAll(master: Memory, forks: seq<Memory>, acts: seq<Act>, ghost owners: Owners, ghost w: nat)
    returns (outs: seq<Outcome>, ghost now: Owners, ghost trace: seq<Flat>)
    requires Family(master, forks, owners) && master.Valid()
    requires w < |forks| && forks[w].Valid() && forall k :: 0 <= k < |acts| ==> Fair(acts[k], |forks|)
    modifies forks, owners.Keys
    ensures Family(master, forks, now) && master.Valid()
    ensures master.View() == old(master.View()) && master.pages == old(master.pages)
    ensures forks[w].Valid() && |outs| == |acts| && Lives(trace, acts, outs, w, forks[w].maxPages)
    ensures trace[0] == old(FlatOf(forks[w])) && trace[|acts|] == FlatOf(forks[w])
  {
    outs, now, trace := [], owners, [FlatOf(forks[w])];
    ghost var masterStart := master.View();
    while |outs| < |acts|
      invariant |outs| <= |acts| && forks[w].Valid() && fresh(now.Keys - owners.Keys)
      invariant Family(master, forks, now) && master.Valid()
      invariant master.View() == masterStart && master.pages == old(master.pages)
      invariant Lives(trace, acts, outs, w, forks[w].maxPages)
      invariant trace[0] == old(FlatOf(forks[w])) && trace[|outs|] == FlatOf(forks[w])
    {
      var out;
      ghost var after;
      out, now, after := Step(master, forks, acts[|outs|], now, w, trace[|outs|]);
      LivesOn(trace, acts, outs, w, forks[w].maxPages, out, after);
      outs, trace := outs + [out], trace + [after];
    }
  }

  // -------------------------------------------------------------------------
  // Overlaid bytes
  // -------------------------------------------------------------------------

  /** The byte at a that an operation leaves, over what was there before. */
  ghost function Overwrites(op: Op, end: nat, a: nat, before: Byte): Byte {
    if op.Free? then (if op.dst / PAGE_SIZE <= a / PAGE_SIZE < PagesEnd(op.dst, op.len) then 0 else before)
    else if IsStore(op) && Target(op) <= a < end && a < Target(op) + |Payload(op)| then Payload(op)[a - Target(op)]
    else before
  }

  /** The byte at a that the first n operations leave of machine who, over what was there before. */
  ghost function Overlay(acts: seq<Act>, outs: seq<Outcome>, n: nat, who: nat, a: nat, before: Byte): Byte
    requires n <= |acts| && n <= |outs|
  {
    if n == 0 then before
    else
      var rest := Overlay(acts, outs, n - 1, who, a, before);
      if acts[n - 1].who == who then Overwrites(acts[n - 1].op, outs[n - 1].end, a, rest) else rest
  }

  lemma DoesOverwrite(before: Flat, op: Op, out: Outcome, after: Flat, limit: nat, a: nat)
    requires Does(before, op, out, after, [], limit) && !op.Share?
    ensures ByteOf(after.bytes, a) == Overwrites(op, out.end, a, ByteOf(before.bytes, a))
  {
  }

  /** Nothing but the machine's own operations shows in its bytes. */
  lemma {:induction false} LivesOverlaid(trace: seq<Flat>, acts: seq<Act>, outs: seq<Outcome>, w: nat, limit: nat,
                                         n: nat, a: nat)
    requires Lives(trace, acts, outs, w, limit) && n <= |outs| && Full(trace[0].bytes)
    requires forall k :: 0 <= k < |acts| ==> !acts[k].op.Share?
    ensures Full(trace[n].bytes)
    ensures ByteOf(trace[n].bytes, a) == Overlay(acts, outs, n, w, a, ByteOf(trace[0].bytes, a))
  {
    if n > 0 {
      LivesOverlaid(trace, acts, outs, w, limit, n - 1, a);
      assert Goes(trace[n - 1], acts[n - 1], outs[n - 1], trace[n], w, limit);
      if acts[n - 1].who == w {
        DoesOverwrite(trace[n - 1], acts[n - 1].op, outs[n - 1], trace[n], limit, a);
      }
    }
  }

  /** after is before overlaid with what machine who did. */
  ghost predicate Overlaid(before: Pages, after: Pages, acts: seq<Act>, outs: seq<Outcome>, who: nat) {
    && Full(before) && Full(after) && |outs| == |acts|
    && forall a: nat {:trigger ByteOf(after, a)} ::
         ByteOf(after, a) == Overlay(acts, outs, |acts|, who, a, ByteOf(before, a))
  }

  /** Any number of forks of one master. */
  method ForkAll(master: Memory, n: nat) returns (forks: seq<Memory>)
    requires master.Valid()
    ensures |forks| == n && Family(master, forks, map[])
    ensures forall i :: 0 <= i < n ==>
              fresh(forks[i]) && forks[i].Valid() && forks[i].maxPages == master.maxPages
              && forks[i].pages == Loaned(master.pages) && forks[i].View() == Inherited(master.pages, master.View())
  {
    forks := [];
    if n > 0 {
      forks := ForkAll(master, n - 1);
      var fork := Fork(master);
      FamilyGrows(master, forks, fork);
      forks := forks + [fork];
    }
  }

  lemma FamilyGrows(master: Memory, forks: seq<Memory>, fork: Memory)
    requires Family(master, forks, map[]) && fork != master && fork !in forks
    requires fork.Valid() && fork.zero == master.zero && fork.owned == {} && fork.buffers <= master.buffers
    ensures Family(master, forks + [fork], map[])
  {
    forall i | 0 <= i < |forks| + 1
      ensures AtHome(master, (forks + [fork])[i], map[], i)
    {
      assert i < |forks| ==> AtHome(master, forks[i], map[], i);
    }
  }

  /** From the fork on: fork w lives as if alone, from its master's bytes at that time; its bytes are
      those overlaid with its own, and the master keeps all of its bytes. */
  method ForkAndRun(master: Memory, n: nat, acts: seq<Act>, ghost w: nat)
    returns (forks: seq<Memory>, outs: seq<Outcome>, ghost owners: Owners, ghost trace: seq<Flat>)
    requires master.Valid() && w < n && forall k :: 0 <= k < |acts| ==> Fair(acts[k], n)
    ensures |forks| == n && Family(master, forks, owners) && |outs| == |acts|
    ensures master.Valid() && master.View() == old(master.View()) && master.pages == old(master.pages)
            && forks[w].Valid()
    ensures Lives(trace, acts, outs, w, master.maxPages) && trace[|acts|] == FlatOf(forks[w])
    ensures trace[0] == Flatten(Inherited(master.pages, master.View()), Loaned(master.pages))
    ensures Overlaid(Inherited(master.pages, master.View()), forks[w].View(), acts, outs, w)
  {
    forks := ForkAll(master, n);
    outs, owners, trace := RunAll(master, forks, acts, map[], w);
    forall a: nat
      ensures ByteOf(forks[w].View(), a) == Overlay(acts, outs, |acts|, w, a, ByteOf(trace[0].bytes, a))
    {
      LivesOverlaid(trace, acts, outs, w, master.maxPages, |acts|, a);
    }
  }
}
