/**
 The well-formedness invariant of the engine and its preservation by every
 operation, failed ones included: disjoint placement, queue partition, unique
 keys, and the conservation laws that tie the incremental counters to sums.
 */
module Invariants {
  import opened Seqs
  import opened Stripes
  import opened Engine
  import opened Accounting

  /** A stripe lies in an existing segment, inside its bounds. */
  ghost predicate InSegment(c: Config, segs: nat, st: Stripe) {
    st.segment < segs && st.total == c.stripeSize && st.base + st.total <= c.segSize
  }

  /** Two stripes do not share a byte; `a` was created before `b`. */
  ghost predicate Before(a: Stripe, b: Stripe) {
    a.segment == b.segment ==> a.base + a.total <= b.base
  }

  /** Stripes are cut inside their segments, without overlap. */
  ghost predicate Cut(c: Config, segs: nat, stripes: seq<Stripe>) {
    && (forall s :: 0 <= s < |stripes| ==> InSegment(c, segs, stripes[s]))
    && (forall s, t :: 0 <= s < t < |stripes| ==> Before(stripes[s], stripes[t]))
  }

  /** The part of the state that only segment creation changes. */
  ghost predicate Geometry(c: Config, e: State) {
    && e.segs <= c.segMax
    && |e.pool.stripes| == Times(e.segs, c.perSegment)
    && e.alloced == c.common + Times(e.segs, c.segSize)
    && Cut(c, e.segs, e.pool.stripes)
  }

  /** Every legal entry fits an empty stripe. */
  ghost predicate Fits(c: Config) {
    forall k: nat, v: nat :: k <= MAX_KEY_SIZE && v <= c.maxValue ==> EntrySize(c, k, v) <= c.stripeSize
  }

  /** Given-up stripes hold live bytes. */
  ghost predicate DoneBusy(p: Pool) {
    forall i :: 0 <= i < |p.done| ==> p.done[i] < |p.stripes| && p.stripes[p.done[i]].used > 0
  }

  /** The allocator's invariant, for the entries `items` it has handed out. */
  ghost predicate Core(c: Config, e: State, items: seq<Item>) {
    && Geometry(c, e)
    && Queued(e.pool)
    && Backed(e.pool, items)
    && e.usedEntry == TotalSize(items) == TotalUsed(e.pool.stripes)
    && (Fits(c) ==> DoneBusy(e.pool))
    && (c.policy.documented ==> e.pool.lost == {})
    && Patient(e.pool, c.policy.maxFail)
  }

  ghost predicate Legal(c: Config, b: Binding) {
    |b.key| <= MAX_KEY_SIZE && |b.value| <= c.maxValue
  }

  ghost predicate LegalItem(c: Config, x: Item) {
    Legal(c, x.binding) && x.size == EntrySize(c, |x.binding.key|, |x.binding.value|)
  }

  ghost predicate LegalItems(c: Config, items: seq<Item>) {
    forall i :: 0 <= i < |items| ==> LegalItem(c, items[i])
  }

  ghost predicate DistinctKeys(items: seq<Item>) {
    forall i, j :: 0 <= i < j < |items| ==> items[i].binding.key != items[j].binding.key
  }

  /** The hash table's invariant. */
  ghost predicate Table(c: Config, e: State) {
    && LegalItems(c, e.fifo)
    && DistinctKeys(e.fifo)
    && e.count == |e.fifo| <= c.maxKeys
    && e.usedKey == KeyBytes(e.fifo)
    && e.usedValue == ValueBytes(e.fifo)
  }

  ghost predicate WF(c: Config, e: State) {
    Core(c, e, e.fifo) && Table(c, e)
  }

  lemma WFRanged(c: Config, e: State)
    requires WF(c, e)
    ensures Ranged(e)
  {
    hide Table, Geometry, Fits, DoneBusy, Sound, Apart;
    forall i | 0 <= i < |e.fifo|
      ensures e.fifo[i].stripe < |e.pool.stripes|
    {
      assert Placed(e.pool, e.fifo[i]);
    }
  }

  lemma WFQueued(c: Config, e: State)
    requires WF(c, e)
    ensures Queued(e.pool) && Geometry(c, e) && Backed(e.pool, e.fifo) && (Fits(c) ==> DoneBusy(e.pool))
    ensures c.policy.documented ==> e.pool.lost == {}
  {
  }

  lemma WFGeometry(c: Config, e: State)
    requires WF(c, e)
    ensures Geometry(c, e)
  {
  }

  lemma StripeTotal(c: Config, e: State, s: nat)
    requires Geometry(c, e) && s < |e.pool.stripes|
    ensures e.pool.stripes[s].total == c.stripeSize
  {
    assert InSegment(c, e.segs, e.pool.stripes[s]);
  }

  /** Stripes that keep their place keep the geometry. */
  lemma CutSame(c: Config, segs: nat, a: seq<Stripe>, b: seq<Stripe>)
    requires Cut(c, segs, a) && |a| == |b|
    requires forall s :: 0 <= s < |a| ==>
      a[s].segment == b[s].segment && a[s].base == b[s].base && a[s].total == b[s].total
    ensures Cut(c, segs, b)
  {
    forall s | 0 <= s < |b|
      ensures InSegment(c, segs, b[s])
    {
      assert InSegment(c, segs, a[s]);
    }
    forall s, t | 0 <= s < t < |b|
      ensures Before(b[s], b[t])
    {
      assert Before(a[s], a[t]);
    }
  }

  // ----- clear

  lemma ResetAllBacked(p: Pool)
    ensures Backed(ResetAll(p), [])
  {
  }

  lemma ResetAllUsed(p: Pool)
    ensures TotalUsed(ResetAll(p).stripes) == 0
  {
    TotalUsedZero([], ResetAll(p).stripes);
    assert [] + ResetAll(p).stripes == ResetAll(p).stripes;
  }

  /** Clearing rebuilds a well-formed, empty cache from any state whose geometry is intact. */
  lemma ClearWF(c: Config, e: State)
    requires Geometry(c, e)
    ensures WF(c, Clear(e)) && Geometry(c, Clear(e))
  {
    hide Cut, Queued, Fits, Backed, TotalUsed, Times;
    ResetAllQueued(e.pool);
    ResetAllBacked(e.pool);
    ResetAllUsed(e.pool);
    CutSame(c, e.segs, e.pool.stripes, ResetAll(e.pool).stripes);
  }

  // ----- eviction

  lemma EvictGeometry(c: Config, e: State, pos: nat)
    requires Geometry(c, e) && Queued(e.pool) && Ranged(e) && pos < |e.fifo|
    ensures Geometry(c, Evict(e, pos).0) && Queued(Evict(e, pos).0.pool)
    ensures Evict(e, pos).0.pool.lost == e.pool.lost
  {
    hide Cut, Queued, Release;
    var x := e.fifo[pos];
    ReleaseQueued(e.pool, x.stripe, x.size);
    CutSame(c, e.segs, e.pool.stripes, Release(e.pool, x.stripe, x.size).0.stripes);
  }

  lemma EvictUsed(e: State, pos: nat, items: seq<Item>)
    requires Ranged(e) && Queued(e.pool) && pos < |e.fifo| && pos < |items| && items[pos] == e.fifo[pos]
    requires Backed(e.pool, items) && e.usedEntry == TotalSize(items) == TotalUsed(e.pool.stripes)
    ensures var r := Evict(e, pos).0;
      r.usedEntry == TotalSize(RemoveAt(items, pos)) == TotalUsed(r.pool.stripes)
  {
    hide Queued, Release, Placed, Apart;
    var x := e.fifo[pos];
    var (q, emptied) := Release(e.pool, x.stripe, x.size);
    ReleaseQueued(e.pool, x.stripe, x.size);
    BackedRemove(e.pool, items, pos);
    SumsRemove(items, pos);
    assert q.stripes[x.stripe].used == e.pool.stripes[x.stripe].used - x.size;
    TotalUsedChange(e.pool.stripes, q.stripes, x.stripe);
  }

  lemma EvictDoneBusy(e: State, pos: nat)
    requires Ranged(e) && Queued(e.pool) && pos < |e.fifo| && DoneBusy(e.pool)
    ensures DoneBusy(Evict(e, pos).0.pool)
  {
    var x := e.fifo[pos];
    var (q, emptied) := Release(e.pool, x.stripe, x.size);
    ReleaseQueued(e.pool, x.stripe, x.size);
    forall i | 0 <= i < |q.done|
      ensures q.stripes[q.done[i]].used > 0
    {
      assert q.done[i] in q.done;
      assert q.done[i] in e.pool.done;
    }
  }

  lemma EvictPatient(c: Config, e: State, pos: nat)
    requires Ranged(e) && Queued(e.pool) && pos < |e.fifo| && Patient(e.pool, c.policy.maxFail)
    ensures Patient(Evict(e, pos).0.pool, c.policy.maxFail)
  {
    hide Queued, Release, Patient;
    ReleasePatient(e.pool, e.fifo[pos].stripe, e.fifo[pos].size, c.policy.maxFail);
  }

  /** Evicting one of the entries handed out keeps the allocator's invariant for the others. */
  lemma EvictCore(c: Config, e: State, pos: nat, items: seq<Item>)
    requires Core(c, e, items) && Ranged(e) && pos < |e.fifo| && pos < |items| && items[pos] == e.fifo[pos]
    ensures Core(c, Evict(e, pos).0, RemoveAt(items, pos))
    ensures Evict(e, pos).1 <==> forall i :: 0 <= i < |items| - 1 ==> RemoveAt(items, pos)[i].stripe != e.fifo[pos].stripe
  {
    hide Geometry, Queued, Backed, TotalSize, TotalUsed, Fits, DoneBusy, Release, Patient;
    EvictPatient(c, e, pos);
    EvictGeometry(c, e, pos);
    EvictUsed(e, pos, items);
    BackedRelease(e.pool, items, pos);
    if Fits(c) {
      EvictDoneBusy(e, pos);
    }
  }

  lemma TableRemove(c: Config, items: seq<Item>, k: nat)
    requires LegalItems(c, items) && DistinctKeys(items) && k < |items|
    ensures LegalItems(c, RemoveAt(items, k)) && DistinctKeys(RemoveAt(items, k))
  {
    hide LegalItem;
  }

  lemma EvictTable(c: Config, e: State, pos: nat)
    requires Table(c, e) && Ranged(e) && pos < |e.fifo|
    ensures Table(c, Evict(e, pos).0)
  {
    hide LegalItems, DistinctKeys, Release, Held;
    SumsRemove(e.fifo, pos);
    TableRemove(c, e.fifo, pos);
  }

  lemma EvictWF(c: Config, e: State, pos: nat)
    requires WF(c, e) && Ranged(e) && pos < |e.fifo|
    ensures WF(c, Evict(e, pos).0) && Evict(e, pos).0.pool.lost == e.pool.lost
  {
    hide Geometry, Queued, Backed, Fits, DoneBusy, Table, Release;
    EvictGeometry(c, e, pos);
    EvictCore(c, e, pos, e.fifo);
    EvictTable(c, e, pos);
  }

  lemma {:induction false} RecycleFromWF(c: Config, e: State, pos: nat, cleared: nat, keys: int, now: int)
    requires WF(c, e) && Ranged(e) && pos <= |e.fifo|
    ensures var r := RecycleFrom(c, e, pos, cleared, keys, now);
      && WF(c, r.state)
      && (r.status == Ok ==> |r.state.fifo| < |e.fifo|)
      && r.state.pool.lost == e.pool.lost
    decreases |e.fifo| - pos
  {
    hide WF, Ranged, Evict, Evictable;
    if pos == |e.fifo| {
    } else if !Evictable(c, e.fifo[pos].binding, now) {
      RecycleFromWF(c, e, pos + 1, cleared, keys, now);
    } else {
      EvictRanged(e, pos);
      EvictWF(c, e, pos);
      RecycleFromWF(c, Evict(e, pos).0, pos, cleared + 1, keys, now);
    }
  }

  // ----- reservation

  lemma ReserveGeometry(c: Config, e: State, size: nat, now: int)
    requires Geometry(c, e) && Queued(e.pool) && Ranged(e)
    ensures Geometry(c, Reserve(c, e, size, now).state)
  {
    hide Cut, Queued, Scan;
    ScanSpace(e.pool, 0, size, now, c.policy);
    CutSame(c, e.segs, e.pool.stripes, Scan(e.pool, 0, size, now, c.policy).pool.stripes);
  }

  lemma ScanDoneBusy(p: Pool, size: nat, now: int, pol: Policy)
    requires Queued(p) && DoneBusy(p)
    requires forall s :: 0 <= s < |p.stripes| ==> Sound(p.stripes[s]) && size <= p.stripes[s].total
    ensures DoneBusy(Scan(p, 0, size, now, pol).pool)
  {
    hide Scan;
    ScanSpace(p, 0, size, now, pol);
    ScanQueued(p, 0, size, now, pol);
    var q := Scan(p, 0, size, now, pol).pool;
    forall i | 0 <= i < |q.done|
      ensures q.stripes[q.done[i]].used > 0
    {
      var s := q.done[i];
      assert s in q.done;
      if s !in p.done && s !in p.lost {
        ScanRetires(p, 0, size, now, pol, s);
      }
    }
  }

  lemma ReserveDoneBusy(c: Config, e: State, size: nat, now: int)
    requires Geometry(c, e) && Queued(e.pool) && Ranged(e) && DoneBusy(e.pool) && size <= c.stripeSize
    requires forall s :: 0 <= s < |e.pool.stripes| ==> Sound(e.pool.stripes[s])
    ensures DoneBusy(Reserve(c, e, size, now).state.pool)
  {
    hide Scan, Queued, DoneBusy, Before, Sound;
    forall s | 0 <= s < |e.pool.stripes|
      ensures size <= e.pool.stripes[s].total
    {
      assert InSegment(c, e.segs, e.pool.stripes[s]);
    }
    ScanDoneBusy(e.pool, size, now, c.policy);
  }

  lemma BackedSound(p: Pool, items: seq<Item>)
    requires Backed(p, items)
    ensures forall s :: 0 <= s < |p.stripes| ==> Sound(p.stripes[s])
  {
  }

  lemma SpaceSegment(a: Stripe, b: Stripe)
    requires SameSpace(a, b)
    ensures a.segment == b.segment
  {
  }

  lemma UsedAfterScan(p: Pool, size: nat, now: int, pol: Policy)
    requires Queued(p)
    ensures var g := Scan(p, 0, size, now, pol);
      TotalUsed(g.pool.stripes) == TotalUsed(p.stripes) + (if g.Granted? then size else 0)
  {
    hide Scan, TotalUsed;
    ScanSpace(p, 0, size, now, pol);
    var g := Scan(p, 0, size, now, pol);
    if g.Refused? {
      TotalUsedSame(p.stripes, g.pool.stripes);
    } else {
      TotalUsedChange(p.stripes, g.pool.stripes, g.stripe);
    }
  }

  lemma ReservePatient(c: Config, e: State, size: nat, now: int)
    requires Ranged(e) && Queued(e.pool) && Patient(e.pool, c.policy.maxFail)
    ensures Patient(Reserve(c, e, size, now).state.pool, c.policy.maxFail)
  {
    hide Scan, Patient;
    ScanPatient(e.pool, 0, size, now, c.policy);
  }

  /** A refused reservation keeps the invariant; a granted one accounts for the new entry. */
  lemma ReserveCore(c: Config, e: State, b: Binding, size: nat, now: int)
    requires Core(c, e, e.fifo) && Ranged(e) && size > 0 && (Fits(c) ==> size <= c.stripeSize)
    ensures var r := Reserve(c, e, size, now);
      && (r.Unreserved? ==> Core(c, r.state, e.fifo))
      && (r.Reserved? ==> Core(c, r.state, e.fifo + [NewItem(r.state.pool, b, r.stripe, r.offset, size)]))
  {
    hide Scan, Geometry, Queued, Backed, Fits, DoneBusy, TotalSize, TotalUsed, SameSpace, Patient;
    ReservePatient(c, e, size, now);
    var g := Scan(e.pool, 0, size, now, c.policy);
    ReserveGeometry(c, e, size, now);
    if Fits(c) {
      BackedSound(e.pool, e.fifo);
      ReserveDoneBusy(c, e, size, now);
    }
    UsedAfterScan(e.pool, size, now, c.policy);
    ScanQueued(e.pool, 0, size, now, c.policy);
    ScanSpace(e.pool, 0, size, now, c.policy);
    if g.Refused? {
      BackedSame(e.pool, g.pool, e.fifo);
    } else {
      var x := NewItem(g.pool, b, g.stripe, g.offset, size);
      assert SameSpace(e.pool.stripes[g.stripe].Bump(size, now), g.pool.stripes[g.stripe]);
      SpaceSegment(e.pool.stripes[g.stripe].Bump(size, now), g.pool.stripes[g.stripe]);
      BackedBump(e.pool, g.pool, e.fifo, x, now);
      SumsAppend(e.fifo, x);
    }
  }

  // ----- new segments

  lemma {:induction false} TimesStep(i: nat, j: nat, size: nat)
    requires i < j
    ensures Times(i, size) + size <= Times(j, size)
    decreases j
  {
    if i + 1 < j {
      TimesStep(i, j - 1, size);
    }
  }

  lemma GrowCut(c: Config, p: Pool, segs: nat)
    requires Cut(c, segs, p.stripes)
    ensures Cut(c, segs + 1, Grow(p, segs, c.perSegment, c.stripeSize).stripes)
  {
    var r := Grow(p, segs, c.perSegment, c.stripeSize).stripes;
    var n := |p.stripes|;
    forall s | 0 <= s < |r|
      ensures InSegment(c, segs + 1, r[s])
    {
      if s < n {
        assert InSegment(c, segs, p.stripes[s]);
      } else {
        TimesStep(s - n, c.perSegment, c.stripeSize);
      }
    }
    forall s, t | 0 <= s < t < |r|
      ensures Before(r[s], r[t])
    {
      if t < n {
        assert Before(p.stripes[s], p.stripes[t]);
      } else if s < n {
        assert InSegment(c, segs, p.stripes[s]);
      } else {
        TimesStep(s - n, t - n, c.stripeSize);
      }
    }
  }

  lemma AddSegmentGeometry(c: Config, e: State)
    requires Geometry(c, e) && Ranged(e) && e.segs < c.segMax
    ensures Geometry(c, AddSegment(c, e))
  {
    hide Cut;
    GrowCut(c, e.pool, e.segs);
  }

  lemma AddSegmentBacked(c: Config, e: State, items: seq<Item>)
    requires Backed(e.pool, items) && Ranged(e)
    ensures Backed(AddSegment(c, e).pool, items)
  {
    var r := AddSegment(c, e);
    forall i | 0 <= i < |items|
      ensures Placed(r.pool, items[i])
    {
      assert Placed(e.pool, items[i]);
    }
    forall s | |e.pool.stripes| <= s < |r.pool.stripes|
      ensures Held(items, s) == 0
    {
      HeldZero(items, s);
    }
  }

  lemma AddSegmentWF(c: Config, e: State)
    requires WF(c, e) && Ranged(e) && e.segs < c.segMax
    ensures WF(c, AddSegment(c, e))
    ensures AddSegment(c, e).pool.lost == e.pool.lost
  {
    hide Geometry, Queued, Backed, Fits, LegalItems, DistinctKeys, TotalUsed, Times;
    var r := AddSegment(c, e);
    AddSegmentGeometry(c, e);
    GrowPatient(e.pool, e.segs, c.perSegment, c.stripeSize, c.policy.maxFail);
    AddSegmentBacked(c, e, e.fifo);
    GrowQueued(e.pool, e.segs, c.perSegment, c.stripeSize);
    TotalUsedZero(e.pool.stripes, r.pool.stripes[|e.pool.stripes|..]);
    assert r.pool.stripes == e.pool.stripes + r.pool.stripes[|e.pool.stripes|..];
  }

  /** The table before its first segment. */
  lemma NothingWF(c: Config)
    ensures WF(c, State([], Pool([], [], [], {}), 0, 0, 0, 0, 0, c.common))
  {
  }

  /** Initialisation establishes the invariant. */
  lemma FreshWF(c: Config)
    requires 1 <= c.segMax
    ensures WF(c, Fresh(c))
  {
    NothingWF(c);
    AddSegmentWF(c, State([], Pool([], [], [], {}), 0, 0, 0, 0, 0, c.common));
  }

  // ----- set and the recursion behind it

  /** The state between a reservation and the binding that uses it. */
  ghost predicate Pending(c: Config, r: Reservation, b: Binding, size: nat)
    requires r.Reserved? && r.stripe < |r.state.pool.stripes|
  {
    Core(c, r.state, r.state.fifo + [NewItem(r.state.pool, b, r.stripe, r.offset, size)]) && Table(c, r.state)
  }

  lemma ReserveWF(c: Config, e: State, b: Binding, size: nat, now: int)
    requires WF(c, e) && Ranged(e) && Legal(c, b) && size == EntrySize(c, |b.key|, |b.value|)
    ensures var r := Reserve(c, e, size, now);
      if r.Reserved? then Pending(c, r, b, size) else WF(c, r.state)
  {
    ReserveCore(c, e, b, size, now);
  }

  lemma TableAppend(c: Config, items: seq<Item>, x: Item)
    requires LegalItems(c, items) && DistinctKeys(items) && LegalItem(c, x)
    requires forall i :: 0 <= i < |items| ==> items[i].binding.key != x.binding.key
    ensures LegalItems(c, items + [x]) && DistinctKeys(items + [x])
  {
    hide LegalItem;
  }

  /** Removing the entry of a key leaves none with that key. */
  lemma DistinctRemove(items: seq<Item>, key: Bytes)
    requires DistinctKeys(items) && Position(items, key) < |items|
    ensures var r := RemoveAt(items, Position(items, key));
      forall i :: 0 <= i < |r| ==> r[i].binding.key != key
  {
    hide Position;
    var k := Position(items, key);
    var r := RemoveAt(items, k);
    forall i | 0 <= i < |r|
      ensures r[i].binding.key != key
    {
      assert items[if i < k then i else i + 1].binding.key != items[k].binding.key;
    }
  }

  lemma BindWF(c: Config, e: State, b: Binding, stripe: nat, offset: nat, size: nat)
    requires Ranged(e) && stripe < |e.pool.stripes| && |e.fifo| < c.maxKeys
    requires Legal(c, b) && size == EntrySize(c, |b.key|, |b.value|)
    requires Core(c, e, e.fifo + [NewItem(e.pool, b, stripe, offset, size)]) && Table(c, e)
    ensures WF(c, Bind(e, b, stripe, offset, size))
  {
    hide Cut, Queued, Backed, Fits, DoneBusy, LegalItems, DistinctKeys, Evict, Held, TotalSize, TotalUsed, KeyBytes, ValueBytes, EntrySize, Times;
    var x := NewItem(e.pool, b, stripe, offset, size);
    var k := Position(e.fifo, b.key);
    if k < |e.fifo| {
      EvictRanged(e, k);
      EvictCore(c, e, k, e.fifo + [x]);
      EvictTable(c, e, k);
      assert RemoveAt(e.fifo + [x], k) == RemoveAt(e.fifo, k) + [x];
      SumsAppend(RemoveAt(e.fifo, k), x);
      DistinctRemove(e.fifo, b.key);
      TableAppend(c, RemoveAt(e.fifo, k), x);
    } else {
      SumsAppend(e.fifo, x);
      TableAppend(c, e.fifo, x);
    }
  }

  lemma {:induction false} MakeRoomWF(c: Config, e: State, now: int)
    requires WF(c, e) && Ranged(e)
    ensures WF(c, MakeRoom(c, e, now).state)
    decreases |e.fifo|, 2
  {
    hide WF, Ranged, AddSegment;
    if ShouldRecycle(c, e, now) {
      var r := Recycle(c, e, -1, now);
      RecycleFromWF(c, e, 0, 0, -1, now);
      if r.status != Ok && !c.recycleValid {
        if r.state.segs < c.segMax {
          AddSegmentWF(c, r.state);
        } else {
          RearrangeWF(c, r.state, now);
        }
      }
    } else {
      AddSegmentWF(c, e);
    }
  }

  lemma {:induction false} AllocWF(c: Config, e: State, b: Binding, size: nat, now: int)
    requires WF(c, e) && Ranged(e) && Legal(c, b) && size == EntrySize(c, |b.key|, |b.value|)
    ensures var r := Alloc(c, e, size, now);
      if r.Reserved? then Pending(c, r, b, size) else WF(c, r.state)
    decreases |e.fifo|, 3
  {
    hide WF, Ranged, Reserve, Pending, Legal, EntrySize;
    ReserveWF(c, e, b, size, now);
    var first := Reserve(c, e, size, now);
    if first.Unreserved? {
      MakeRoomWF(c, first.state, now);
      var room := MakeRoom(c, first.state, now);
      if room.status == Ok {
        ReserveWF(c, room.state, b, size, now);
      }
    }
  }

  lemma {:induction false} RearrangeWF(c: Config, e: State, now: int)
    requires WF(c, e) && Ranged(e)
    ensures WF(c, Rearrange(c, e, now).state)
    decreases |e.fifo|, 1
  {
    hide Ranged, Geometry, Queued, Backed, Fits, DoneBusy, Table, RearrangeFloor;
    ClearWF(c, e);
    if FreeBytes(c, e) >= RearrangeFloor(c, e) {
      ReinsertWF(c, Clear(e), Alive(Bindings(e.fifo), now), now, |e.fifo|);
    }
  }

  lemma {:induction false} ReinsertWF(c: Config, e: State, bs: seq<Binding>, now: int, limit: nat)
    requires WF(c, e) && Ranged(e) && |e.fifo| + |bs| <= limit
    ensures WF(c, Reinsert(c, e, bs, now, limit).state)
    decreases limit, 0, |bs|
  {
    hide Ranged, Geometry, Queued, Backed, Fits, DoneBusy, Table;
    if bs != [] {
      SetWF(c, e, bs[0], now);
      var r := Set(c, e, bs[0], now);
      if r.status != Ok {
        ClearWF(c, r.state);
      } else {
        ReinsertWF(c, r.state, bs[1..], now, limit);
      }
    }
  }

  /** Set keeps the invariant, whatever it evicts and whether or not it succeeds. */
  lemma {:induction false} SetWF(c: Config, e: State, b: Binding, now: int)
    requires WF(c, e) && Ranged(e)
    ensures WF(c, Set(c, e, b, now).state)
    decreases |e.fifo|, 4
  {
    hide Core, LegalItems, DistinctKeys, Ranged, EntrySize, KeyBytes, ValueBytes, Bind;
    if Legal(c, b) {
      RecycleFromWF(c, e, 0, 0, c.recycleKeyOnce, now);
      var first := if e.count >= c.maxKeys then Recycle(c, e, c.recycleKeyOnce, now) else Outcome(e, Ok);
      if first.status == Ok {
        var size := EntrySize(c, |b.key|, |b.value|);
        AllocWF(c, first.state, b, size, now);
        var r := Alloc(c, first.state, size, now);
        if r.Reserved? {
          BindWF(c, r.state, b, r.stripe, r.offset, size);
        }
      }
    }
  }

  // ----- the other operations

  lemma {:induction false} SumsRebind(items: seq<Item>, k: nat, y: Item)
    requires k < |items| && y.stripe == items[k].stripe && y.size == items[k].size
    requires |y.binding.key| == |items[k].binding.key| && |y.binding.value| == |items[k].binding.value|
    ensures var r := items[k := y];
      && (forall s: nat :: Held(r, s) == Held(items, s)) && TotalSize(r) == TotalSize(items)
      && KeyBytes(r) == KeyBytes(items) && ValueBytes(r) == ValueBytes(items)
  {
    SumsRemove(items, k);
    SumsRemove(items[k := y], k);
    assert RemoveAt(items[k := y], k) == RemoveAt(items, k);
  }

  lemma BackedRebind(p: Pool, items: seq<Item>, k: nat, y: Item)
    requires Backed(p, items) && k < |items|
    requires y.segment == items[k].segment && y.stripe == items[k].stripe
    requires y.offset == items[k].offset && y.size == items[k].size
    requires |y.binding.key| == |items[k].binding.key| && |y.binding.value| == |items[k].binding.value|
    ensures Backed(p, items[k := y])
  {
    hide Sound, Held;
    SumsRebind(items, k, y);
    var f := items[k := y];
    forall i | 0 <= i < |f|
      ensures Placed(p, f[i])
    {
      assert Placed(p, items[i]);
    }
    forall i, j | 0 <= i < j < |f|
      ensures Apart(f[i], f[j])
    {
      assert Apart(items[i], items[j]);
    }
  }

  lemma TableRebind(c: Config, items: seq<Item>, k: nat, y: Item)
    requires LegalItems(c, items) && DistinctKeys(items) && k < |items|
    requires y.size == items[k].size && y.binding.key == items[k].binding.key
    requires |y.binding.value| == |items[k].binding.value|
    ensures LegalItems(c, items[k := y]) && DistinctKeys(items[k := y])
  {
    hide EntrySize;
    var f := items[k := y];
    forall i | 0 <= i < |f|
      ensures LegalItem(c, f[i])
    {
      assert LegalItem(c, items[i]);
    }
  }

  lemma SetExpiresWF(c: Config, e: State, key: Bytes, expires: int, now: int)
    requires WF(c, e) && Ranged(e)
    ensures WF(c, SetExpires(e, key, expires, now).state)
  {
    hide Cut, Queued, Backed, Fits, DoneBusy, LegalItems, DistinctKeys, TotalSize, TotalUsed, KeyBytes, ValueBytes, Position, Times;
    var k := Position(e.fifo, key);
    if k < |e.fifo| {
      var x := e.fifo[k];
      var y := x.(binding := x.binding.(expires := expires));
      SumsRebind(e.fifo, k, y);
      BackedRebind(e.pool, e.fifo, k, y);
      TableRebind(c, e.fifo, k, y);
    }
  }

  /** Every operation of the engine keeps the invariant. */
  lemma StepWF(c: Config, e: State, op: Op, now: int)
    requires WF(c, e) && Ranged(e)
    ensures WF(c, Step(c, e, op, now).0)
  {
    hide Geometry, Queued, Backed, Fits, DoneBusy, Table, Ranged, Set, Evict, SetExpires;
    match op
    case OpSet(b) => SetWF(c, e, b, now);
    case OpGet(_) =>
    case OpDelete(key) =>
      var k := Position(e.fifo, key);
      if k < |e.fifo| {
        EvictWF(c, e, k);
      }
    case OpSetExpires(key, t) => SetExpiresWF(c, e, key, t, now);
    case OpClear => ClearWF(c, e);
  }

  lemma {:induction false} TimesSplit(n: nat, m: nat, size: nat)
    ensures Times(n + m, size) == Times(n, size) + Times(m, size)
    decreases m
  {
    if m > 0 {
      TimesSplit(n, m - 1, size);
    }
  }

  lemma {:induction false} TimesRegroup(n: nat, per: nat, size: nat, total: nat)
    requires Times(per, size) <= total
    ensures Times(Times(n, per), size) <= Times(n, total)
  {
    if n > 0 {
      TimesRegroup(n - 1, per, size, total);
      TimesSplit(Times(n - 1, per), per, size);
    }
  }

  /** The bytes of live entries never exceed the memory the cache has obtained. */
  lemma MemoryBound(c: Config, e: State)
    requires WF(c, e)
    ensures c.common + e.usedEntry <= e.alloced
  {
    forall s | 0 <= s < |e.pool.stripes|
      ensures e.pool.stripes[s].used <= c.stripeSize
    {
      assert Sound(e.pool.stripes[s]) && InSegment(c, e.segs, e.pool.stripes[s]);
    }
    TotalUsedBound(e.pool.stripes, c.stripeSize);
    TimesRegroup(e.segs, c.perSegment, c.stripeSize, c.segSize);
  }
}
