/**
 Which sets succeed, for either recycling policy and any entry size: the allocation
 is served by a stripe with room, a new segment, the first stripe that eviction
 empties, or a rearrangement after which the entry still packs.
 */
module Service {
  import opened Stripes
  import opened Scanning
  import opened Engine
  import opened Accounting
  import opened Invariants
  import opened Recycling
  import opened OrderedMap
  import opened Refinement
  import opened Totality
  import opened Stability
  import opened Packing

  /** The allocation is served; read off the state in which it starts. */
  ghost predicate Serves(c: Config, e: State, size: nat, now: int)
    requires Ranged(e)
  {
    match RoomFor(c, e, size, now)
    case Ample => true
    case Growable => size <= c.stripeSize
    case Scarce =>
      if exists s: nat :: Freeable(c, e.fifo, s, now) then
        size <= c.stripeSize && !VictimAdrift(c, e.pool, e.fifo, now)
      else if c.recycleValid then false
      else if e.segs < c.segMax then size <= c.stripeSize
      else
        && AllocRearranges(c, e, size, now)
        && Packs(ResetAll(e.pool), SizesOf(c, Alive(Bindings(e.fifo), now)) + [size], now, c.policy)
  }

  /** No stripe has room for an entry larger than a stripe. */
  lemma TooLarge(c: Config, e: State, size: nat, now: int)
    requires WF(c, e) && Ranged(e) && c.stripeSize < size
    ensures Reserve(c, e, size, now).Unreserved?
  {
    hide Table, Queued, Fits, DoneBusy, Scan, TotalSize, TotalUsed, Before, Placed, Apart, Times;
    forall j | 0 <= j < |e.pool.doing|
      ensures e.pool.stripes[e.pool.doing[j]].FreeSize() < size
    {
      assert Sound(e.pool.stripes[e.pool.doing[j]]);
      StripeTotal(c, e, e.pool.doing[j]);
    }
    QueuedParts(e.pool);
    RefusedIff(e.pool, size, now, c.policy);
  }

  /** After a successful recycling the retry succeeds iff the emptied stripe is queued and large enough. */
  lemma RecycledRetry(c: Config, e: State, b: Binding, size: nat, now: int)
    requires WF(c, e) && Ranged(e) && Legal(c, b) && size == EntrySize(c, |b.key|, |b.value|)
    requires Reserve(c, e, size, now).Unreserved? && Recycle(c, Reserve(c, e, size, now).state, -1, now).status == Ok
    ensures Reserve(c, Recycle(c, Reserve(c, e, size, now).state, -1, now).state, size, now).Reserved?
      <==> size <= c.stripeSize && !VictimAdrift(c, e.pool, e.fifo, now)
  {
    hide WF, Ranged, Scan, RecycleFrom, Freed, Queued, Geometry, Backed, DoneBusy, Empties, Unfreed, VictimAdrift, Spared, After,
         EntrySize, Legal, FirstEmptied;
    var e2 := Reserve(c, e, size, now).state;
    var r := Recycle(c, e2, -1, now);
    ReserveKeeps(c, e, b, size, now);
    RecycleKeepsWF(c, e2, -1, now);
    AfterStart(c, e2.fifo, 0, now);
    var p := RecyclePool(c, e2.fifo, e2, 0, -1, now);
    WFQueued(c, e);
    WFQueued(c, e2);
    WFQueued(c, r.state);
    StripeOf(e2, p);
    StripeTotal(c, e2, e2.fifo[p].stripe);
    RefusedNoRoom(c, e, size, now);
    if size <= c.stripeSize {
      RetryIff(c, e2.pool, r.state.pool, e2.fifo[p].stripe, size, now);
      VictimUnique(c, e.pool, e.fifo, p, now);
      LostIff(c, e, size, now, e2.fifo[p].stripe);
    } else {
      TooLarge(c, r.state, size, now);
    }
  }

  // ----- rearranging

  /** Releases and scans move no stripe. */
  lemma EvictReset(e: State, pos: nat)
    requires Ranged(e) && Queued(e.pool) && pos < |e.fifo|
    ensures ResetAll(Evict(e, pos).0.pool) == ResetAll(e.pool) && Evict(e, pos).0.alloced == e.alloced
  {
    hide Queued, Release;
    ReleaseQueued(e.pool, e.fifo[pos].stripe, e.fifo[pos].size);
    var q := Evict(e, pos).0.pool;
    assert ResetAll(q).stripes == ResetAll(e.pool).stripes;
  }

  lemma {:induction false} RecycleReset(c: Config, e: State, pos: nat, cleared: nat, keys: int, now: int)
    requires WF(c, e) && Ranged(e) && pos <= |e.fifo|
    ensures ResetAll(RecycleFrom(c, e, pos, cleared, keys, now).state.pool) == ResetAll(e.pool)
    decreases |e.fifo| - pos
  {
    hide WF, Ranged, Evict, Evictable, ResetAll;
    if pos < |e.fifo| {
      if !Evictable(c, e.fifo[pos].binding, now) {
        RecycleReset(c, e, pos + 1, cleared, keys, now);
      } else {
        EvictRanged(e, pos);
        EvictWF(c, e, pos);
        WFQueued(c, e);
        EvictReset(e, pos);
        RecycleReset(c, Evict(e, pos).0, pos, cleared + 1, keys, now);
      }
    }
  }

  /** A failed recycling leaves the unexpired bindings. */
  lemma FailedAlive(c: Config, e: State, now: int)
    requires WF(c, e) && Ranged(e) && !c.recycleValid && Recycle(c, e, -1, now).status != Ok
    ensures Alive(Bindings(Recycle(c, e, -1, now).state.fifo), now) == Alive(Bindings(e.fifo), now)
  {
    hide WF, Ranged, RecycleFrom, Alive, Evicts, Freeable, Surviving;
    var m := Bindings(e.fifo);
    var z := RecycleStripeExact(c, e, -1, now);
    AfterSurviving(c, e.fifo, z, now);
    SurvivingEvicts(c, m, z, now);
    EvictsKeepsAlive(c, m, Surviving(c, m, z, now), now);
  }

  /** A rearrangement is worth its while iff the unexpired entries and the new one pack. */
  lemma RearrangedRetry(c: Config, e: State, size: nat, now: int)
    requires WF(c, e) && Ranged(e) && !c.recycleValid && e.segs >= c.segMax && FreeBytes(c, e) >= RearrangeFloor(c, e)
    ensures var r := Rearrange(c, e, now);
      r.status == Ok && Reserve(c, r.state, size, now).Reserved?
      <==> Packs(ResetAll(e.pool), SizesOf(c, Alive(Bindings(e.fifo), now)) + [size], now, c.policy)
  {
    hide WF, Ranged, Rearrange, RearrangeFloor, Alive, Packs, Load, Loading, Clear, Scan;
    RearrangeExact(c, e, now);
    StartLoading(c, e, now);
    ClearPool(e);
    var bs := Alive(Bindings(e.fifo), now);
    LoadThenScan(c, Clear(e), bs, size, now);
    LoadIsPacking(c, Clear(e), bs, now);
  }

  /** The first scan and the failed recycling before a rearrangement. */
  lemma BeforeRearrange(c: Config, e: State, b: Binding, size: nat, now: int)
    requires WF(c, e) && Ranged(e) && Legal(c, b) && size == EntrySize(c, |b.key|, |b.value|)
    requires Reserve(c, e, size, now).Unreserved? && !c.recycleValid
    requires Recycle(c, Reserve(c, e, size, now).state, -1, now).status != Ok
    ensures var r := Recycle(c, Reserve(c, e, size, now).state, -1, now).state;
      && ResetAll(r.pool) == ResetAll(e.pool) && r.segs == e.segs
      && Alive(Bindings(r.fifo), now) == Alive(Bindings(e.fifo), now)
  {
    hide WF, Ranged, RecycleFrom, Alive, ResetAll, Reserve, EntrySize, Legal;
    ReserveKeeps(c, e, b, size, now);
    ScanReset(c, e, size, now);
    ReserveSegs(c, e, size, now);
    var e2 := Reserve(c, e, size, now).state;
    FailedAlive(c, e2, now);
    RecycleReset(c, e2, 0, 0, -1, now);
  }

  // ----- the whole allocation

  lemma ScarceServed(c: Config, e: State, b: Binding, size: nat, now: int)
    requires WF(c, e) && Ranged(e) && Legal(c, b) && size == EntrySize(c, |b.key|, |b.value|)
    requires RoomFor(c, e, size, now) == Scarce
    ensures Alloc(c, e, size, now).Reserved? <==> Serves(c, e, size, now)
  {
    hide WF, Ranged, Reserve, Recycle, Rearrange, AddSegment, RoomFor, ShouldRecycle, VictimAdrift, AllocRearranges, Packs,
         Freeable, Legal, EntrySize, Alive, ResetAll, RearrangeFloor;
    RoomDecides(c, e, size, now);
    ReserveKeeps(c, e, b, size, now);
    ReserveSegs(c, e, size, now);
    var e2 := Reserve(c, e, size, now).state;
    var r := Recycle(c, e2, -1, now);
    RecycleKeepsWF(c, e2, -1, now);
    var z := RecycleStripeExact(c, e2, -1, now);
    if r.status == Ok {
      RecycledRetry(c, e, b, size, now);
    } else if !c.recycleValid {
      BeforeRearrange(c, e, b, size, now);
      if e.segs < c.segMax {
        GrownRetry(c, r.state, size, now);
      } else {
        GuardIff(c, e, size, now);
        if FreeBytes(c, r.state) >= RearrangeFloor(c, r.state) {
          RearrangedRetry(c, r.state, size, now);
        } else {
          RearrangeRefused(c, r.state, now);
        }
      }
    }
  }

  lemma RearrangeRefused(c: Config, e: State, now: int)
    requires Ranged(e) && FreeBytes(c, e) < RearrangeFloor(c, e)
    ensures Rearrange(c, e, now) == Outcome(e, NoSpace)
  {
  }

  lemma GrownRetry(c: Config, e: State, size: nat, now: int)
    requires WF(c, e) && Ranged(e) && e.segs < c.segMax
    ensures Reserve(c, AddSegment(c, e), size, now).Reserved? || c.stripeSize < size
    ensures c.stripeSize < size ==> Reserve(c, AddSegment(c, e), size, now).Unreserved?
  {
    hide WF, Ranged, Reserve, AddSegment;
    AddSegmentWF(c, e);
    if c.stripeSize < size {
      TooLarge(c, AddSegment(c, e), size, now);
    } else {
      SegmentServes(c, e, size, now);
    }
  }

  /** The allocation succeeds iff it is served. */
  lemma AllocServed(c: Config, e: State, b: Binding, size: nat, now: int)
    requires WF(c, e) && Ranged(e) && Legal(c, b) && size == EntrySize(c, |b.key|, |b.value|)
    ensures Alloc(c, e, size, now).Reserved? <==> Serves(c, e, size, now)
  {
    hide WF, Ranged, Alloc, RoomFor, VictimAdrift, AllocRearranges, Packs, Freeable, Legal, EntrySize, Alive, ResetAll;
    if RoomFor(c, e, size, now) == Scarce {
      ScarceServed(c, e, b, size, now);
    } else {
      EasyMeaning(c, e, size, now);
    }
  }

  /** The key limit is not reached, or recycling gets below it. */
  ghost predicate KeysYield(c: Config, e: State, now: int) {
    || e.count < c.maxKeys
    || (if c.recycleKeyOnce > 0 then Evictables(c, e.fifo, now) >= c.recycleKeyOnce
        else exists s: nat :: Freeable(c, e.fifo, s, now))
  }

  lemma KeysYieldIff(c: Config, e: State, now: int)
    requires WF(c, e) && Ranged(e) && e.count >= c.maxKeys
    ensures Recycle(c, e, c.recycleKeyOnce, now).status == Ok <==> KeysYield(c, e, now)
  {
    hide WF, Ranged, Recycle, Freeable, Spared;
    if c.recycleKeyOnce > 0 {
      var z := RecycleKeysExact(c, e, c.recycleKeyOnce, now);
    } else {
      var z := RecycleStripeExact(c, e, c.recycleKeyOnce, now);
    }
  }

  /** Set succeeds iff key and value are legal, the key limit yields, and the allocation is served. */
  lemma SetServed(c: Config, e: State, b: Binding, now: int)
    requires WF(c, e) && Ranged(e)
    ensures Set(c, e, b, now).status == Ok <==>
      && Legal(c, b) && KeysYield(c, e, now)
      && Serves(c, Vacated(c, e, now), EntrySize(c, |b.key|, |b.value|), now)
  {
    hide WF, Ranged, Recycle, Alloc, Serves, EntrySize, Bind, Freeable, Spared;
    if Legal(c, b) {
      if e.count >= c.maxKeys {
        KeysYieldIff(c, e, now);
        RecycleKeepsWF(c, e, c.recycleKeyOnce, now);
      }
      AllocServed(c, Vacated(c, e, now), b, EntrySize(c, |b.key|, |b.value|), now);
    }
  }

  // ----- a set that rearranges

  /** A set that rearranges keeps the unexpired bindings if they pack again, and loses all of them otherwise. */
  lemma RearrangingSet(c: Config, e: State, b: Binding, now: int)
    requires WF(c, e) && Ranged(e) && Rearranges(c, e, b, now)
    ensures var r := Set(c, e, b, now); var v := Vacated(c, e, now); var kept := Alive(Bindings(v.fifo), now);
      && (r.status == Ok <==> Packs(ResetAll(v.pool), SizesOf(c, kept) + [SizeOf(c, b)], now, c.policy))
      && (r.status == Ok ==> Bindings(r.state.fifo) == DropKey(kept, b.key) + [b])
      && (r.status == Ok ==> Repacks(c, v, now))
      && (r.status != Ok ==> r.status == NoMemory && Bindings(r.state.fifo) == if Repacks(c, v, now) then kept else [])
  {
    hide WF, Ranged, Recycle, Alloc, AllocRearranges, Bind, Packs, DropKey, Alive, EntrySize, ResetAll;
    var v, size := Vacated(c, e, now), EntrySize(c, |b.key|, |b.value|);
    if e.count >= c.maxKeys {
      RecycleKeepsWF(c, e, c.recycleKeyOnce, now);
    }
    RearrangingAlloc(c, v, b, size, now);
    var r := Alloc(c, v, size, now);
    if r.Reserved? {
      BindMeaning(r.state, b, r.stripe, r.offset, size);
    }
  }

  lemma RearrangingAlloc(c: Config, e: State, b: Binding, size: nat, now: int)
    requires WF(c, e) && Ranged(e) && Legal(c, b) && size == EntrySize(c, |b.key|, |b.value|)
    requires AllocRearranges(c, e, size, now)
    ensures var r := Alloc(c, e, size, now); var kept := Alive(Bindings(e.fifo), now);
      && (r.Reserved? <==> Packs(ResetAll(e.pool), SizesOf(c, kept) + [size], now, c.policy))
      && (r.Reserved? ==> Repacks(c, e, now))
      && Bindings(r.state.fifo) == (if Repacks(c, e, now) then kept else [])
  {
    hide WF, Ranged, Recycle, Reserve, Rearrange, RoomFor, ShouldRecycle, Packs, Freeable, Alive, EntrySize, ResetAll,
         RearrangeFloor, Legal, Spared;
    RoomDecides(c, e, size, now);
    ReserveKeeps(c, e, b, size, now);
    ReserveSegs(c, e, size, now);
    DueAtLimit(c, e, size, now);
    var e2 := Reserve(c, e, size, now).state;
    var r := Recycle(c, e2, -1, now);
    RecycleKeepsWF(c, e2, -1, now);
    GuardIff(c, e, size, now);
    BeforeRearrange(c, e, b, size, now);
    RearrangedRetry(c, r.state, size, now);
    RearrangeExact(c, r.state, now);
    RearrangeMeaning(c, r.state, now);
    assert MakeRoom(c, e2, now) == Rearrange(c, r.state, now);
  }

  lemma DueAtLimit(c: Config, e: State, size: nat, now: int)
    requires Ranged(e) && e.segs >= c.segMax && RoomFor(c, e, size, now) != Ample
    ensures RoomFor(c, e, size, now) == Scarce
  {
  }
}
