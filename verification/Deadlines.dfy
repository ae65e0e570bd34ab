/**
 Expiry, in terms of stored deadlines and the clock alone: when get answers, how
 long a key is served, and what a set may not evict.
 */
module Deadlines {
  import opened Seqs
  import opened Engine
  import opened Accounting
  import opened Invariants
  import opened OrderedMap
  import opened Recycling
  import opened Refinement
  import opened Stability

  /** Get, by the deadline of the entry that has the key. */
  lemma GetRule(c: Config, e: State, i: nat, now: int)
    requires WF(c, e) && i < |e.fifo|
    ensures var b := e.fifo[i].binding; var r := Get(e, b.key, now);
      && r.found == [b]
      && (r.status == Ok <==> b.expires == 0 || now <= b.expires)
      && (r.status == TimedOut <==> b.expires != 0 && b.expires < now)
  {
    hide Core, LegalItems, KeyBytes, ValueBytes, Position;
    var k := Position(e.fifo, e.fifo[i].binding.key);
    assert k == i;
  }

  lemma GetAbsent(e: State, key: Bytes, now: int)
    requires forall i :: 0 <= i < |e.fifo| ==> e.fifo[i].binding.key != key
    ensures Get(e, key, now) == Reply(NoEntry, [])
  {
    hide Position;
  }

  /** The binding is in force: it has no deadline, or the clock has not passed it. */
  predicate InForce(b: Binding, now: int) { b.expires == 0 || now <= b.expires }

  lemma InForceAlive(m: seq<Binding>, b: Binding, now: int)
    requires b in m && InForce(b, now)
    ensures b in Alive(m, now)
  {
    AliveIsAlive(m, now);
  }

  lemma DropKeyMembers(m: seq<Binding>, key: Bytes)
    ensures forall b :: b in DropKey(m, key) ==> b in m
    ensures forall b :: b in m && b.key != key ==> b in DropKey(m, key)
  {
    hide Find;
    var k := Find(m, key);
    if k < |m| {
      forall b | b in m && b.key != key
        ensures b in RemoveAt(m, k)
      {
        var i :| 0 <= i < |m| && m[i] == b;
        assert RemoveAt(m, k)[if i < k then i else i - 1] == b;
      }
    }
  }

  lemma {:induction false} EvictsMembers(c: Config, m: seq<Binding>, kept: seq<Binding>, now: int)
    requires Evicts(c, m, kept, now)
    ensures forall b :: b in kept ==> b in m
    decreases |m|
  {
    if m != [] {
      var drop := (b: Binding) => Evictable(c, b, now);
      if kept != [] && kept[0] == m[0] && Thins(m[1..], kept[1..], drop) {
        EvictsMembers(c, m[1..], kept[1..], now);
        assert kept == [kept[0]] + kept[1..];
      } else {
        EvictsMembers(c, m[1..], kept, now);
      }
      assert m == [m[0]] + m[1..];
    }
  }

  /** With valid entries protected, a set that succeeds, or does not rearrange, keeps every other binding in force. */
  lemma SetSpares(c: Config, e: State, b: Binding, now: int, x: Binding)
    requires WF(c, e) && Ranged(e) && !c.recycleValid && x in Bindings(e.fifo) && x.key != b.key
    requires x.expires == 0 || x.expires >= now
    requires Set(c, e, b, now).status == Ok || !Rearranges(c, e, b, now)
    ensures x in Bindings(Set(c, e, b, now).state.fifo)
  {
    hide WF, Ranged, Set, Rearranges, Alive, DropKey;
    var m, m' := Bindings(e.fifo), Bindings(Set(c, e, b, now).state.fifo);
    if Set(c, e, b, now).status == Ok {
      ProtectedSet(c, e, b, now);
      InForceAlive(m, x, now);
      DropKeyMembers(Alive(m, now), b.key);
      AliveIsAlive(m', now);
    } else {
      SetInPlace(c, e, b, now);
      var i :| 0 <= i < |m| && m[i] == x;
      var f := Set(c, e, b, now).state.fifo;
      assert e.fifo[i] in f;
      var j :| 0 <= j < |f| && f[j] == e.fifo[i];
      assert m'[j] == x;
    }
  }

  // ----- runs

  /** The operation touches the key: it binds or drops it, or changes its deadline. */
  predicate Touches(op: Op, key: Bytes) {
    Replaces(op, key) || (op.OpSetExpires? && op.key == key)
  }

  /** An operation that does not touch a key adds no binding of it. */
  lemma StepMembers(c: Config, e: State, op: Op, now: int, x: Binding)
    requires WF(c, e) && Ranged(e) && !Touches(op, x.key) && x in Bindings(Step(c, e, op, now).0.fifo)
    ensures x in Bindings(e.fifo)
  {
    hide WF, Ranged, Set, Evict, MapSet, Position, RoomOf, DropKey;
    var m, m' := Bindings(e.fifo), Bindings(Step(c, e, op, now).0.fifo);
    match op
    case OpSet(b) =>
      SetMeaning(c, e, b, now);
      MapSetMembers(c, m, Bins(e.fifo), RoomOf(c, e, b, now), b, now, Set(c, e, b, now).status, m');
    case OpGet(_) =>
    case OpDelete(key) =>
      if Position(e.fifo, key) < |e.fifo| {
        EvictMeaning(e, key);
        DropKeyMembers(m, key);
      }
    case OpSetExpires(key, t) =>
      PositionIsFind(e.fifo, key);
      var i :| 0 <= i < |m'| && m'[i] == x;
      assert m[i] == x;
    case OpClear =>
  }

  lemma MapSetMembers(c: Config, m: seq<Binding>, bins: seq<nat>, room: Room, b: Binding, now: int, status: Status, m': seq<Binding>)
    requires MapSet(c, m, bins, room, b, now, status, m')
    ensures forall x :: x in m' && x.key != b.key ==> x in m
  {
    hide DropKey, Surviving, Clears, Evicts, Protected, EntrySize;
    if m' != m {
      if status == Ok {
        var z := SetKeeps(c, m, bins, room, b, now, m');
        EvictsMembers(c, m, Surviving(c, m, z, now), now);
        DropKeyMembers(Surviving(c, m, z, now), b.key);
      } else {
        SetFails(c, m, bins, room, b, now, status, m');
        if m' != [] {
          EvictsMembers(c, m, m', now);
        }
      }
    }
  }

  /** A set that fails drops evictable bindings only, or, after a rearrangement, all. */
  lemma SetFails(c: Config, m: seq<Binding>, bins: seq<nat>, room: Room, b: Binding, now: int, status: Status, m': seq<Binding>)
    requires MapSet(c, m, bins, room, b, now, status, m') && status != Ok
    ensures m' == m || m' == [] || Evicts(c, m, m', now)
  {
    hide DropKey, Surviving, Clears, Evicts, Protected, EntrySize;
    if m' != m && m' != [] {
      var ok: bool, y: nat :| KeyLimit(c, m, bins, now, ok, y) && y <= |m|
        && (ok ==> MapAlloc(c, m, bins, room, y, b, now, status, m'))
        && (!ok ==> status == NoMemory && m' == Surviving(c, m, y, now));
      var z := y;
      if ok && room == Scarce {
        var done: bool, x: nat :| MapRecycle(c, m, bins, y, -1, now, done, x) && Squeezed(c, m, done, x, b, now, status, m');
        z := x;
      }
      SurvivingEvicts(c, m, z, now);
    }
  }

  /** No step of the run touches the key, and after every step the key is bound. */
  ghost predicate Kept(c: Config, e: State, ops: seq<Timed>, key: Bytes)
    requires Ranged(e)
    decreases |ops|
  {
    ops != [] ==>
      var t := ops[0]; var e' := Step(c, e, t.op, t.now).0;
      !Touches(t.op, key) && !Lacks(Bindings(e'.fifo), key) && Kept(c, e', ops[1..], key)
  }

  lemma {:induction false} KeptBinding(c: Config, e: State, ops: seq<Timed>, x: Binding)
    requires WF(c, e) && Ranged(e) && x in Bindings(e.fifo) && Kept(c, e, ops, x.key)
    ensures WF(c, Run(c, e, ops)[|ops|]) && x in Bindings(Run(c, e, ops)[|ops|].fifo)
    decreases |ops|
  {
    hide Core, LegalItems, DistinctKeys, KeyBytes, ValueBytes, Ranged, Step, Touches;
    if ops != [] {
      var t := ops[0];
      var e' := Step(c, e, t.op, t.now).0;
      StepWF(c, e, t.op, t.now);
      var m := Bindings(e'.fifo);
      var i :| 0 <= i < |m| && m[i].key == x.key;
      StepMembers(c, e, t.op, t.now, m[i]);
      OneBinding(e, m[i], x);
      KeptBinding(c, e', ops[1..], x);
      assert Run(c, e', ops[1..])[|ops| - 1] == Run(c, e, ops)[|ops|];
    }
  }

  lemma OneBinding(e: State, x: Binding, y: Binding)
    requires DistinctKeys(e.fifo) && x in Bindings(e.fifo) && y in Bindings(e.fifo) && x.key == y.key
    ensures x == y
  {
    var i :| 0 <= i < |e.fifo| && Bindings(e.fifo)[i] == x;
    var j :| 0 <= j < |e.fifo| && Bindings(e.fifo)[j] == y;
    assert i == j;
  }

  /** A successful set leaves the key bound to what was set. */
  lemma SetBinds(c: Config, e: State, b: Binding, now: int)
    requires WF(c, e) && Ranged(e) && Set(c, e, b, now).status == Ok
    ensures WF(c, Set(c, e, b, now).state) && b in Bindings(Set(c, e, b, now).state.fifo)
  {
    hide WF, Ranged, Set, MapSet, DropKey;
    SetWF(c, e, b, now);
    SetMeaning(c, e, b, now);
    var m, m' := Bindings(e.fifo), Bindings(Set(c, e, b, now).state.fifo);
    var z := SetKeeps(c, m, Bins(e.fifo), RoomOf(c, e, b, now), b, now, m');
    assert m'[|m'| - 1] == b;
  }

  /**
   A key that was set, and is kept, is served up to its deadline, the deadline
   included, and times out ever after; without a deadline it is always served.
   */
  lemma ServedUntil(c: Config, e: State, b: Binding, now: int, ops: seq<Timed>, later: int)
    requires WF(c, e) && Ranged(e) && Set(c, e, b, now).status == Ok
    requires Kept(c, Set(c, e, b, now).state, ops, b.key)
    ensures var r := Run(c, Set(c, e, b, now).state, ops)[|ops|];
      Get(r, b.key, later) == Reply(if b.expires == 0 || later <= b.expires then Ok else TimedOut, [b])
  {
    hide WF, Ranged, Set, Kept, Run, Position;
    SetBinds(c, e, b, now);
    var e1 := Set(c, e, b, now).state;
    KeptBinding(c, e1, ops, b);
    var r := Run(c, e1, ops)[|ops|];
    var i :| 0 <= i < |r.fifo| && Bindings(r.fifo)[i] == b;
    GetRule(c, r, i, later);
    GetStatus(r, b.key, later);
  }

  lemma GetStatus(e: State, key: Bytes, now: int)
    ensures Get(e, key, now).status in {Ok, TimedOut, NoEntry}
    ensures Get(e, key, now).status == NoEntry ==> Get(e, key, now).found == []
  {
  }

  /**
   Operations that do not touch the key, at times up to its deadline, and whose
   sets succeed or do not rearrange.
   */
  ghost predicate Gentle(c: Config, e: State, ops: seq<Timed>, key: Bytes, deadline: int)
    requires Ranged(e)
    decreases |ops|
  {
    ops != [] ==>
      var t := ops[0]; var e' := Step(c, e, t.op, t.now).0;
      && !Touches(t.op, key) && (deadline == 0 || t.now <= deadline)
      && (t.op.OpSet? ==> Set(c, e, t.op.binding, t.now).status == Ok || !Rearranges(c, e, t.op.binding, t.now))
      && Gentle(c, e', ops[1..], key, deadline)
  }

  lemma StepSpares(c: Config, e: State, t: Timed, x: Binding)
    requires WF(c, e) && Ranged(e) && !c.recycleValid && x in Bindings(e.fifo) && !Touches(t.op, x.key)
    requires x.expires == 0 || t.now <= x.expires
    requires t.op.OpSet? ==> Set(c, e, t.op.binding, t.now).status == Ok || !Rearranges(c, e, t.op.binding, t.now)
    ensures x in Bindings(Step(c, e, t.op, t.now).0.fifo)
  {
    hide WF, Ranged, Set, Evict, Position, Rearranges, DropKey;
    var m := Bindings(e.fifo);
    match t.op
    case OpSet(b) => SetSpares(c, e, b, t.now, x);
    case OpGet(_) =>
    case OpDelete(key) =>
      if Position(e.fifo, key) < |e.fifo| {
        EvictMeaning(e, key);
        DropKeyMembers(m, key);
      }
    case OpSetExpires(key, expires) =>
      var i :| 0 <= i < |m| && m[i] == x;
      assert Bindings(Step(c, e, t.op, t.now).0.fifo)[i] == x;
    case OpClear =>
  }

  /** With valid entries protected, a key is kept by all operations up to its deadline. */
  lemma {:induction false} GentleKeeps(c: Config, e: State, ops: seq<Timed>, x: Binding)
    requires WF(c, e) && Ranged(e) && !c.recycleValid && x in Bindings(e.fifo) && Gentle(c, e, ops, x.key, x.expires)
    ensures Kept(c, e, ops, x.key)
    decreases |ops|
  {
    hide WF, Ranged, Step, Touches, Rearranges, Set;
    if ops != [] {
      var t := ops[0];
      var e' := Step(c, e, t.op, t.now).0;
      StepWF(c, e, t.op, t.now);
      StepSpares(c, e, t, x);
      var m := Bindings(e'.fifo);
      var i :| 0 <= i < |m| && m[i] == x;
      GentleKeeps(c, e', ops[1..], x);
    }
  }

  /** With valid entries protected, what is set is served until its deadline, whatever else is done meanwhile. */
  lemma ProtectedServed(c: Config, e: State, b: Binding, now: int, ops: seq<Timed>, later: int)
    requires WF(c, e) && Ranged(e) && !c.recycleValid && Set(c, e, b, now).status == Ok
    requires Gentle(c, Set(c, e, b, now).state, ops, b.key, b.expires)
    ensures var r := Run(c, Set(c, e, b, now).state, ops)[|ops|];
      Get(r, b.key, later) == Reply(if b.expires == 0 || later <= b.expires then Ok else TimedOut, [b])
  {
    hide WF, Ranged, Set, Gentle, Kept, Run, Get;
    SetBinds(c, e, b, now);
    GentleKeeps(c, Set(c, e, b, now).state, ops, b);
    ServedUntil(c, e, b, now, ops, later);
  }
}
