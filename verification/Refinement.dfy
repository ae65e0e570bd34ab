/**
 The engine refines the insertion-ordered map: every operation, through eviction,
 segment creation and rearrangement, does to the bindings what the map allows.
 */
module Refinement {
  import opened Seqs
  import opened Stripes
  import opened Scanning
  import opened Engine
  import opened Accounting
  import opened Invariants
  import opened Recycling
  import opened OrderedMap

  lemma {:induction false} PositionIsFind(s: seq<Item>, key: Bytes)
    ensures Position(s, key) == Find(Bindings(s), key)
  {
    if s != [] {
      PositionIsFind(s[1..], key);
      assert Bindings(s)[1..] == Bindings(s[1..]);
    }
  }

  lemma {:induction false} DistinctUnique(s: seq<Item>)
    requires DistinctKeys(s)
    ensures UniqueKeys(Bindings(s))
  {
    if s != [] {
      DistinctUnique(s[1..]);
      assert Bindings(s)[1..] == Bindings(s[1..]);
    }
  }

  lemma EvictMeaning(e: State, key: Bytes)
    requires Ranged(e) && Position(e.fifo, key) < |e.fifo|
    ensures Bindings(Evict(e, Position(e.fifo, key)).0.fifo) == DropKey(Bindings(e.fifo), key)
  {
    hide Ranged, Position, Find;
    PositionIsFind(e.fifo, key);
    var k := Position(e.fifo, key);
    assert Bindings(RemoveAt(e.fifo, k)) == RemoveAt(Bindings(e.fifo), k);
  }

  /** Binding drops the old binding of the key and appends the new one. */
  lemma BindMeaning(e: State, b: Binding, stripe: nat, offset: nat, size: nat)
    requires Ranged(e) && stripe < |e.pool.stripes|
    ensures Bindings(Bind(e, b, stripe, offset, size).fifo) == DropKey(Bindings(e.fifo), b.key) + [b]
  {
    hide Ranged, Position, Find, Evict;
    PositionIsFind(e.fifo, b.key);
    var k := Position(e.fifo, b.key);
    if k < |e.fifo| {
      EvictMeaning(e, b.key);
    }
  }

  // ----- unique keys across a concatenation

  lemma {:induction false} UniqueMiddle(s: seq<Binding>, x: Binding, t: seq<Binding>)
    requires UniqueKeys(s + [x] + t)
    ensures Lacks(s, x.key)
  {
    if s != [] {
      var all := s + [x] + t;
      assert all[1..] == s[1..] + [x] + t;
      UniqueMiddle(s[1..], x, t);
      assert all[1..][|s| - 1] == x;
    }
  }

  lemma LacksDrop(m: seq<Binding>, key: Bytes)
    requires Lacks(m, key)
    ensures DropKey(m, key) == m
  {
  }

  lemma {:induction false} AliveUnique(m: seq<Binding>, now: int)
    requires UniqueKeys(m)
    ensures UniqueKeys(Alive(m, now))
  {
    if m != [] {
      AliveUnique(m[1..], now);
      AliveLacks(m[1..], m[0].key, now);
    }
  }

  // ----- the recursion behind set

  ghost predicate AllAlive(m: seq<Binding>, now: int) {
    forall i :: 0 <= i < |m| ==> Unexpired(m[i], now)
  }

  // ----- cuts

  lemma {:induction false} SparedProtected(c: Config, items: seq<Item>, now: int)
    ensures Bindings(Spared(c, items, now)) == Protected(c, Bindings(items), now)
  {
    if items != [] {
      var n := |items| - 1;
      SparedProtected(c, items[..n], now);
      assert Bindings(items)[..n] == Bindings(items[..n]);
    }
  }

  lemma AfterSurviving(c: Config, items: seq<Item>, z: nat, now: int)
    requires z <= |items|
    ensures Bindings(After(c, items, z, now)) == Surviving(c, Bindings(items), z, now)
    ensures |Spared(c, items[..z], now)| == |Protected(c, Bindings(items)[..z], now)|
  {
    SparedProtected(c, items[..z], now);
    assert Bindings(items)[..z] == Bindings(items[..z]);
    assert Bindings(items)[z..] == Bindings(items[z..]);
  }

  /** Recycling at the key limit is the map's recycling. */
  lemma KeyRecycleMeaning(c: Config, e: State, now: int) returns (z: nat)
    requires WF(c, e) && Ranged(e)
    ensures z <= |e.fifo|
    ensures var r := Recycle(c, e, c.recycleKeyOnce, now);
      && r.state.fifo == After(c, e.fifo, z, now)
      && MapRecycle(c, Bindings(e.fifo), Bins(e.fifo), 0, c.recycleKeyOnce, now, r.status == Ok, z)
  {
    hide WF, Ranged, Recycle, After, Evictable, Spared, Protected;
    if c.recycleKeyOnce > 0 {
      z := RecycleKeysExact(c, e, c.recycleKeyOnce, now);
      AfterSurviving(c, e.fifo, z, now);
      AfterSurviving(c, e.fifo, |e.fifo|, now);
      assert e.fifo[..|e.fifo|] == e.fifo && Bindings(e.fifo)[..|e.fifo|] == Bindings(e.fifo);
    } else {
      AfterStart(c, e.fifo, 0, now);
      z := RecycleStripeOn(c, e.fifo, e, 0, c.recycleKeyOnce, now);
    }
  }

  // ----- room

  /** The allocation would recycle rather than create a segment, judged before its scan. */
  predicate RecycleDue(c: Config, e: State, now: int)
    requires Ranged(e)
  {
    || e.segs >= c.segMax
    || (var done := e.pool.done + Shelved(e.pool, e.pool.doing, true, c.policy);
        && done != [] && done[0] < |e.pool.stripes| && c.avgTtl > 0
        && now - e.pool.stripes[done[0]].lastAlloc >= c.avgTtl)
  }

  function RoomFor(c: Config, e: State, size: nat, now: int): Room
    requires Ranged(e)
  {
    if !NoRoom(e.pool, size) then Ample else if RecycleDue(c, e, now) then Scarce else Growable
  }

  /** The first attempt and the decision after it follow the room there is. */
  lemma RoomDecides(c: Config, e: State, size: nat, now: int)
    requires WF(c, e) && Ranged(e)
    ensures var first := Reserve(c, e, size, now); var room := RoomFor(c, e, size, now);
      && (first.Reserved? <==> room == Ample)
      && (room != Ample ==> (ShouldRecycle(c, first.state, now) <==> room == Scarce))
  {
    hide Scan, Geometry, Backed, Table, Fits, DoneBusy, TotalSize, TotalUsed, Shelved, Slips;
    RefusedIff(e.pool, size, now, c.policy);
    if NoRoom(e.pool, size) {
      RefusedExact(e.pool, size, now, c.policy);
      ScanQueued(e.pool, 0, size, now, c.policy);
    }
  }

  // ----- the recursion behind set

  /** Stripe-mode recycling from cut `q` of `items` to cut `z`. */
  ghost predicate StripeCut(c: Config, items: seq<Item>, q: nat, now: int, ok: bool, z: nat) {
    MapRecycle(c, Bindings(items), Bins(items), q, -1, now, ok, z)
  }

  /** The bindings after making room: cut at `z`, or gone after a failed rearrangement. */
  ghost predicate Roomed(c: Config, items: seq<Item>, now: int, ok: bool, z: nat, m': seq<Binding>, served: bool)
    requires z <= |items|
  {
    if served then (ok || !c.recycleValid) && m' == Surviving(c, Bindings(items), z, now)
    else m' == Surviving(c, Bindings(items), z, now) || (!ok && !c.recycleValid && m' == [])
  }

  lemma {:induction false} MakeRoomMeaning(c: Config, items: seq<Item>, e: State, q: nat, now: int) returns (ok: bool, z: nat)
    requires WF(c, e) && Ranged(e) && q <= |items| && e.fifo == After(c, items, q, now) && ShouldRecycle(c, e, now)
    ensures z <= |items| && StripeCut(c, items, q, now, ok, z)
    ensures var r := MakeRoom(c, e, now); Roomed(c, items, now, ok, z, Bindings(r.state.fifo), r.status == Ok)
    decreases |e.fifo|, 2
  {
    hide WF, Ranged, Recycle, Rearrange, AddSegment, After, Surviving, ShouldRecycle, Clears, Protected, Spared;
    var r := Recycle(c, e, -1, now);
    z := RecycleStripeOn(c, items, e, q, -1, now);
    ok := r.status == Ok;
    AfterSurviving(c, items, z, now);
    if !ok && !c.recycleValid && r.state.segs >= c.segMax {
      RecycleKeepsWF(c, e, -1, now);
      RearrangeMeaning(c, r.state, now);
      AfterAlive(c, items, now);
    }
  }

  /** Once recycling has gone through the whole list, no expired entry is left. */
  lemma AfterAlive(c: Config, items: seq<Item>, now: int)
    requires !c.recycleValid
    ensures var m := Bindings(After(c, items, |items|, now)); Alive(m, now) == m
  {
    hide Spared;
    SparedMembers(c, items[..|items|], now);
    var a := After(c, items, |items|, now);
    assert a == Spared(c, items[..|items|], now);
    forall i | 0 <= i < |a|
      ensures Unexpired(Bindings(a)[i], now)
    {
      assert a[i] in a;
    }
    AllAliveIsAlive(Bindings(a), now);
  }

  lemma {:induction false} AllAliveIsAlive(m: seq<Binding>, now: int)
    requires AllAlive(m, now)
    ensures Alive(m, now) == m
  {
    if m != [] {
      AllAliveIsAlive(m[1..], now);
    }
  }

  lemma {:induction false} RecycleStatus(c: Config, e: State, pos: nat, cleared: nat, keys: int, now: int)
    requires Ranged(e) && pos <= |e.fifo|
    ensures RecycleFrom(c, e, pos, cleared, keys, now).status in {Ok, NoMemory}
    decreases |e.fifo| - pos
  {
    hide Ranged, Evictable, Evict;
    if pos < |e.fifo| {
      if !Evictable(c, e.fifo[pos].binding, now) {
        RecycleStatus(c, e, pos + 1, cleared, keys, now);
      } else {
        EvictRanged(e, pos);
        RecycleStatus(c, Evict(e, pos).0, pos, cleared + 1, keys, now);
      }
    }
  }

  lemma RecycleKeepsWF(c: Config, e: State, keys: int, now: int)
    requires WF(c, e) && Ranged(e)
    ensures WF(c, Recycle(c, e, keys, now).state)
    ensures Recycle(c, e, keys, now).status == Ok ==> |Recycle(c, e, keys, now).state.fifo| < |e.fifo|
    ensures Recycle(c, e, keys, now).status in {Ok, NoMemory}
  {
    hide WF, Ranged, RecycleFrom;
    RecycleFromWF(c, e, 0, 0, keys, now);
    RecycleStatus(c, e, 0, 0, keys, now);
  }

  lemma ReserveKeeps(c: Config, e: State, b: Binding, size: nat, now: int)
    requires WF(c, e) && Ranged(e) && Legal(c, b) && size == EntrySize(c, |b.key|, |b.value|)
    ensures Reserve(c, e, size, now).Unreserved? ==> WF(c, Reserve(c, e, size, now).state)
  {
    hide WF, Ranged, Reserve, Legal, EntrySize;
    ReserveWF(c, e, b, size, now);
  }

  /** The allocation that has to recycle. */
  lemma {:induction false} ScarceMeaning(c: Config, items: seq<Item>, e: State, q: nat, b: Binding, size: nat, now: int)
    returns (ok: bool, z: nat)
    requires WF(c, e) && Ranged(e) && Legal(c, b) && size == EntrySize(c, |b.key|, |b.value|)
    requires q <= |items| && e.fifo == After(c, items, q, now) && RoomFor(c, e, size, now) == Scarce
    ensures z <= |items| && StripeCut(c, items, q, now, ok, z)
    ensures var r := Alloc(c, e, size, now); Roomed(c, items, now, ok, z, Bindings(r.state.fifo), r.Reserved?)
    decreases |e.fifo|, 3
  {
    hide WF, Ranged, Reserve, MakeRoom, Legal, EntrySize, StripeCut, After, Surviving, RoomFor, ShouldRecycle;
    RoomDecides(c, e, size, now);
    ReserveKeeps(c, e, b, size, now);
    ok, z := MakeRoomMeaning(c, items, Reserve(c, e, size, now).state, q, now);
  }

  /** The allocation that finds room, or grows: no entry is touched. */
  lemma EasyMeaning(c: Config, e: State, size: nat, now: int)
    requires WF(c, e) && Ranged(e) && RoomFor(c, e, size, now) != Scarce
    ensures var r := Alloc(c, e, size, now);
      && r.state.fifo == e.fifo
      && (r.Reserved? <==> RoomFor(c, e, size, now) == Ample || size <= c.stripeSize)
  {
    hide WF, Ranged, Scan, Recycle, AddSegment, RoomFor, ShouldRecycle;
    RoomDecides(c, e, size, now);
    var first := Reserve(c, e, size, now);
    if first.Unreserved? {
      SegmentServesIff(c, e, size, now);
    }
  }

  /** A new segment serves the allocation iff a stripe is large enough for it. */
  lemma SegmentServesIff(c: Config, e: State, size: nat, now: int)
    requires WF(c, e) && Ranged(e) && Reserve(c, e, size, now).Unreserved?
    ensures var e' := AddSegment(c, Reserve(c, e, size, now).state);
      Reserve(c, e', size, now).Reserved? <==> size <= c.stripeSize
  {
    hide Scan, Geometry, Backed, Table, Fits, DoneBusy, TotalSize, TotalUsed, Times, Grow, Queued;
    var p := Reserve(c, e, size, now).state.pool;
    ScanSpace(e.pool, 0, size, now, c.policy);
    ScanQueued(e.pool, 0, size, now, c.policy);
    QueuedParts(p);
    GrowQueued(p, e.segs, c.perSegment, c.stripeSize);
    QueuedParts(Grow(p, e.segs, c.perSegment, c.stripeSize));
    GrowRoom(p, e.segs, c.perSegment, c.stripeSize, size);
    RefusedIff(Grow(p, e.segs, c.perSegment, c.stripeSize), size, now, c.policy);
  }

  lemma QueuedParts(p: Pool)
    requires Queued(p)
    ensures InRange(p) && NoDup(p.doing)
  {
  }

  /** A rearrangement that succeeds keeps exactly the unexpired bindings, in order; one that fails late empties the cache. */
  lemma {:induction false} RearrangeMeaning(c: Config, e: State, now: int)
    requires WF(c, e) && Ranged(e) && !c.recycleValid
    ensures var r := Rearrange(c, e, now);
      && (r.status == Ok ==> Bindings(r.state.fifo) == Alive(Bindings(e.fifo), now))
      && (r.status != Ok ==> r.state == e || r.state.fifo == [])
    decreases |e.fifo|, 1
  {
    hide Core, LegalItems, DistinctKeys, Ranged, Clear, KeyBytes, ValueBytes;
    var m := Bindings(e.fifo);
    if FreeBytes(c, e) >= RearrangeFloor(c, e) {
      WFGeometry(c, e);
      ClearWF(c, e);
      DistinctUnique(e.fifo);
      AliveUnique(m, now);
      AliveIsAlive(m, now);
      assert Bindings([]) + Alive(m, now) == Alive(m, now);
      ReinsertMeaning(c, Clear(e), Alive(m, now), now, |e.fifo|);
    }
  }

  lemma {:induction false} ReinsertMeaning(c: Config, e: State, bs: seq<Binding>, now: int, limit: nat)
    requires WF(c, e) && Ranged(e) && |e.fifo| + |bs| <= limit && !c.recycleValid
    requires AllAlive(Bindings(e.fifo), now) && AllAlive(bs, now) && UniqueKeys(Bindings(e.fifo) + bs)
    ensures var r := Reinsert(c, e, bs, now, limit);
      if r.status == Ok then Bindings(r.state.fifo) == Bindings(e.fifo) + bs else r.state.fifo == []
    decreases limit, 0, |bs|
  {
    hide WF, Ranged, Set, Clear, Lacks, UniqueKeys;
    if bs != [] {
      var r := Set(c, e, bs[0], now);
      SetMeaning(c, e, bs[0], now);
      if r.status == Ok {
        SetWF(c, e, bs[0], now);
        var m, m' := Bindings(e.fifo), Bindings(r.state.fifo);
        assert m + bs == m + [bs[0]] + bs[1..];
        UniqueMiddle(m, bs[0], bs[1..]);
        LacksDrop(m, bs[0].key);
        SetAppends(c, e, bs[0], now);
        assert m' + bs[1..] == m + bs;
        ReinsertMeaning(c, r.state, bs[1..], now, limit);
      }
    }
  }

  /** On a map without anything to evict, setting a new key appends it. */
  lemma SetAppends(c: Config, e: State, b: Binding, now: int)
    requires Ranged(e) && Sets(c, e, b, now) && Set(c, e, b, now).status == Ok
    requires !c.recycleValid && AllAlive(Bindings(e.fifo), now) && Lacks(Bindings(e.fifo), b.key)
    ensures Bindings(Set(c, e, b, now).state.fifo) == Bindings(e.fifo) + [b]
  {
    hide Ranged, Set, MapSet, Evicts, Surviving, DropKey, Lacks;
    var m := Bindings(e.fifo);
    var z := SetKeeps(c, m, Bins(e.fifo), RoomOf(c, e, b, now), b, now, Bindings(Set(c, e, b, now).state.fifo));
    EvictsNothing(c, m, Surviving(c, m, z, now), now);
    LacksDrop(m, b.key);
  }

  /** The state in which set allocates: the key limit has been dealt with. */
  function Vacated(c: Config, e: State, now: int): (r: State)
    requires Ranged(e)
    ensures Ranged(r)
  {
    if e.count >= c.maxKeys then Recycle(c, e, c.recycleKeyOnce, now).state else e
  }

  /** The room that a set finds. */
  function RoomOf(c: Config, e: State, b: Binding, now: int): Room
    requires Ranged(e)
  {
    RoomFor(c, Vacated(c, e, now), EntrySize(c, |b.key|, |b.value|), now)
  }

  /** Set does to the bindings exactly what the map prescribes for the room there is. */
  ghost predicate Sets(c: Config, e: State, b: Binding, now: int)
    requires Ranged(e)
  {
    var r := Set(c, e, b, now);
    MapSet(c, Bindings(e.fifo), Bins(e.fifo), RoomOf(c, e, b, now), b, now, r.status, Bindings(r.state.fifo))
  }

  lemma {:induction false} SetMeaning(c: Config, e: State, b: Binding, now: int)
    requires WF(c, e) && Ranged(e)
    ensures Sets(c, e, b, now)
    decreases |e.fifo|, 5
  {
    hide Core, LegalItems, DistinctKeys, Ranged, Recycle, Alloc, Bind, EntrySize, DropKey, After, Surviving, RoomFor,
         MapRecycle, KeyBytes, ValueBytes, MapAlloc;
    if Legal(c, b) {
      var m := Bindings(e.fifo);
      var z := 0;
      if e.count >= c.maxKeys {
        z := KeyRecycleMeaning(c, e, now);
        RecycleKeepsWF(c, e, c.recycleKeyOnce, now);
      } else {
        AfterStart(c, e.fifo, 0, now);
      }
      AfterSurviving(c, e.fifo, z, now);
      var ok := e.count < c.maxKeys || Recycle(c, e, c.recycleKeyOnce, now).status == Ok;
      assert KeyLimit(c, m, Bins(e.fifo), now, ok, z);
      if ok {
        AllocMeaning(c, e.fifo, z, Vacated(c, e, now), b, now);
      }
    }
  }

  /** The second half of set, from the state that the key limit leaves. */
  lemma {:induction false} AllocMeaning(c: Config, items: seq<Item>, z: nat, e: State, b: Binding, now: int)
    requires WF(c, e) && Ranged(e) && Legal(c, b) && z <= |items| && e.fifo == After(c, items, z, now)
    ensures var size := EntrySize(c, |b.key|, |b.value|);
      var r := Alloc(c, e, size, now);
      var o := if r.Reserved? then Outcome(Bind(r.state, b, r.stripe, r.offset, size), Ok) else Outcome(r.state, NoMemory);
      MapAlloc(c, Bindings(items), Bins(items), RoomFor(c, e, size, now), z, b, now, o.status, Bindings(o.state.fifo))
    decreases |e.fifo|, 4
  {
    hide WF, Ranged, Alloc, Bind, EntrySize, DropKey, After, Surviving, RoomFor, MapRecycle, Legal;
    var size := EntrySize(c, |b.key|, |b.value|);
    var r := Alloc(c, e, size, now);
    AfterSurviving(c, items, z, now);
    if r.Reserved? {
      BindMeaning(r.state, b, r.stripe, r.offset, size);
    }
    if RoomFor(c, e, size, now) == Scarce {
      var ok, y := ScarceMeaning(c, items, e, z, b, size, now);
      assert MapRecycle(c, Bindings(items), Bins(items), z, -1, now, ok, y);
    } else {
      EasyMeaning(c, e, size, now);
    }
  }

  // ----- the operations, and runs

  /** The operation is one of the map, with the room that a set finds. */
  ghost predicate Steps(c: Config, e: State, op: Op, now: int, reply: Reply, e': State)
    requires Ranged(e)
  {
    MapStep(c, Bindings(e.fifo), Bins(e.fifo), if op.OpSet? then RoomOf(c, e, op.binding, now) else Ample,
            op, now, reply, Bindings(e'.fifo))
  }

  /** One operation of the engine is one operation of the map. */
  lemma StepMeaning(c: Config, e: State, op: Op, now: int)
    requires WF(c, e) && Ranged(e)
    ensures Steps(c, e, op, now, Step(c, e, op, now).1, Step(c, e, op, now).0)
  {
    hide WF, Ranged, Set, Evict, MapSet, Position, Find, RoomOf;
    match op
    case OpSet(b) => SetMeaning(c, e, b, now);
    case OpGet(key) => PositionIsFind(e.fifo, key);
    case OpDelete(key) =>
      PositionIsFind(e.fifo, key);
      if Position(e.fifo, key) < |e.fifo| {
        EvictMeaning(e, key);
      }
    case OpSetExpires(key, t) =>
      PositionIsFind(e.fifo, key);
      var k := Position(e.fifo, key);
      if k < |e.fifo| {
        var x := e.fifo[k];
        assert Bindings(e.fifo[k := x.(binding := x.binding.(expires := t))])
            == Bindings(e.fifo)[k := x.binding.(expires := t)];
      }
    case OpClear =>
  }

  datatype Timed = Timed(op: Op, now: int)

  /** The states of a run: the start, then the state after each operation. */
  function Run(c: Config, e: State, ops: seq<Timed>): (r: seq<State>)
    requires Ranged(e)
    ensures |r| == |ops| + 1 && r[0] == e
    ensures forall i :: 0 <= i < |r| ==> Ranged(r[i])
    decreases |ops|
  {
    if ops == [] then [e]
    else [e] + Run(c, Step(c, e, ops[0].op, ops[0].now).0, ops[1..])
  }

  /**
   Over every run, the cache is an insertion-ordered map and its invariant holds in
   every state.
   */
  lemma {:induction false} RunRefines(c: Config, e: State, ops: seq<Timed>, i: nat)
    requires WF(c, e) && Ranged(e) && i < |ops|
    ensures var r := Run(c, e, ops); var t := ops[i];
      && WF(c, r[i]) && WF(c, r[i + 1])
      && r[i + 1] == Step(c, r[i], t.op, t.now).0
      && Steps(c, r[i], t.op, t.now, Step(c, r[i], t.op, t.now).1, r[i + 1])
    decreases i
  {
    hide WF, Ranged, Step, Steps;
    var e' := Step(c, e, ops[0].op, ops[0].now).0;
    StepWF(c, e, ops[0].op, ops[0].now);
    if i == 0 {
      StepMeaning(c, e, ops[0].op, ops[0].now);
    } else {
      RunRefines(c, e', ops[1..], i - 1);
    }
  }

  /** In no state of a run does `doing` hold a stripe that has missed more than `maxFail` times since its reset. */
  lemma RunPatient(c: Config, e: State, ops: seq<Timed>, i: nat, s: nat)
    requires WF(c, e) && Ranged(e) && i <= |ops|
    requires var p := Run(c, e, ops)[i].pool;
      s < |p.stripes| && p.stripes[s].failTimes > c.policy.maxFail && p.stripes[s].failTimes > 0
    ensures s !in Run(c, e, ops)[i].pool.doing
  {
    hide Geometry, Queued, Backed, Table, Fits, DoneBusy, TotalSize, TotalUsed, Ranged, Step, Steps, Run;
    if i > 0 {
      RunRefines(c, e, ops, i - 1);
    } else {
      RunStart(c, e, ops);
    }
  }

  lemma RunStart(c: Config, e: State, ops: seq<Timed>)
    requires Ranged(e)
    ensures Run(c, e, ops)[0] == e
  {
  }

  /**
   With valid entries protected, a successful set keeps all other unexpired keys:
   the unexpired bindings afterwards are those before without the key, then the
   new one.
   */
  lemma ProtectedSet(c: Config, e: State, b: Binding, now: int)
    requires WF(c, e) && Ranged(e) && !c.recycleValid && Set(c, e, b, now).status == Ok
    ensures Alive(Bindings(Set(c, e, b, now).state.fifo), now)
         == DropKey(Alive(Bindings(e.fifo), now), b.key) + Alive([b], now)
  {
    hide Core, LegalItems, Ranged, Set, Find, Alive, Evicts, DropKey, Surviving, MapSet;
    var m, m' := Bindings(e.fifo), Bindings(Set(c, e, b, now).state.fifo);
    SetMeaning(c, e, b, now);
    var z := SetKeeps(c, m, Bins(e.fifo), RoomOf(c, e, b, now), b, now, m');
    var kept := Surviving(c, m, z, now);
    EvictsKeepsAlive(c, m, kept, now);
    DistinctUnique(e.fifo);
    EvictsUnique(c, m, kept, now);
    AliveDropKey(kept, b.key, now);
    AliveConcat(DropKey(kept, b.key), [b], now);
  }

  lemma {:induction false} EvictsUnique(c: Config, m: seq<Binding>, kept: seq<Binding>, now: int)
    requires Evicts(c, m, kept, now) && UniqueKeys(m)
    ensures UniqueKeys(kept)
    ensures forall key :: Lacks(m, key) ==> Lacks(kept, key)
    decreases |m|
  {
    if m != [] {
      var drop := (b: Binding) => Evictable(c, b, now);
      if kept != [] && kept[0] == m[0] && Thins(m[1..], kept[1..], drop) {
        EvictsUnique(c, m[1..], kept[1..], now);
        assert kept == [kept[0]] + kept[1..];
      } else {
        EvictsUnique(c, m[1..], kept, now);
      }
      forall key | Lacks(m, key)
        ensures Lacks(kept, key)
      {
        assert Lacks(m[1..], key);
        assert m[0].key != key;
      }
    }
  }
}
