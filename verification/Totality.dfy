/**
 When set succeeds.  With valid entries recyclable and entries that fit a stripe,
 the only ways to fail are an illegal key or value, a recycle count above the
 number of entries, and, for the removal as written, a recycled stripe that is in
 neither queue.
 */
module Totality {
  import opened Seqs
  import opened Stripes
  import opened Scanning
  import opened Engine
  import opened Accounting
  import opened Invariants
  import opened Recycling
  import opened Refinement
  import opened Vacancy

  ghost predicate FirstEmptied(c: Config, items: seq<Item>, p: nat, now: int)
    requires p < |items|
  {
    Empties(c, items, p, now) && forall q :: 0 <= q < p ==> !Empties(c, items, q, now)
  }

  /** The stripe is in neither queue, or a refused scan leaves it in neither. */
  ghost predicate Adrift(c: Config, p: Pool, s: nat) {
    s in p.lost || Slips(p, s, c.policy)
  }

  /** The first stripe that FIFO eviction of `items` empties cannot serve. */
  ghost predicate VictimAdrift(c: Config, p: Pool, items: seq<Item>, now: int) {
    exists k :: 0 <= k < |items| && FirstEmptied(c, items, k, now) && Adrift(c, p, items[k].stripe)
  }

  /**
   No queued stripe has room, recycling is due, and the first stripe it empties
   cannot serve: read off the state in which the allocation starts.
   */
  ghost predicate Blocked(c: Config, e: State, size: nat, now: int)
    requires Ranged(e)
  {
    NoRoom(e.pool, size) && RecycleDue(c, e, now) && VictimAdrift(c, e.pool, e.fifo, now)
  }

  /** Key recycling finds as many entries as it is asked to evict. */
  predicate KeysSuffice(c: Config, e: State) {
    e.count < c.maxKeys || c.recycleKeyOnce <= 0 || c.recycleKeyOnce <= |e.fifo|
  }

  // ----- what recycling does to the pool

  /** Space of the stripes and members of `doing`, before and after one stripe was emptied. */
  ghost predicate Freed(p: Pool, q: Pool, s: nat) {
    && |q.stripes| == |p.stripes| && s < |p.stripes|
    && q.stripes[s].free == q.stripes[s].base && q.stripes[s].total == p.stripes[s].total
    && (s !in p.lost ==> s in q.doing)
    && (s in p.lost ==> s !in q.doing)
    && (forall t :: 0 <= t < |p.stripes| && t != s ==> q.stripes[t].FreeSize() == p.stripes[t].FreeSize())
    && (forall t :: t in q.doing ==> t in p.doing || t == s)
  }

  /** Nothing but used counts changed. */
  ghost predicate Unfreed(p: Pool, q: Pool) {
    && |q.stripes| == |p.stripes| && q.doing == p.doing && q.lost == p.lost
    && (forall t :: 0 <= t < |p.stripes| ==>
          q.stripes[t].FreeSize() == p.stripes[t].FreeSize() && q.stripes[t].total == p.stripes[t].total)
  }

  lemma EvictPool(e: State, pos: nat)
    requires Ranged(e) && Queued(e.pool) && pos < |e.fifo|
    ensures var (e', emptied) := Evict(e, pos);
      if emptied then Freed(e.pool, e'.pool, e.fifo[pos].stripe) else Unfreed(e.pool, e'.pool)
  {
    var x := e.fifo[pos];
    ReleaseQueued(e.pool, x.stripe, x.size);
  }

  lemma {:induction false} RecyclePool(c: Config, items: seq<Item>, e: State, q: nat, keys: int, now: int)
    returns (z: nat)
    requires WF(c, e) && Ranged(e) && q <= |items| && keys <= 0 && e.fifo == After(c, items, q, now)
    requires forall p :: 0 <= p < q ==> !Empties(c, items, p, now)
    ensures var r := RecycleFrom(c, e, |Spared(c, items[..q], now)|, Evictables(c, items[..q], now), keys, now);
      r.status == Ok ==>
        z < |items| && FirstEmptied(c, items, z, now) && Freed(e.pool, r.state.pool, items[z].stripe)
    decreases |items| - q
  {
    hide WF, Ranged, Evict, Evictable, Spared, After, Empties, Freed, Unfreed;
    z := q;
    if q == |items| {
      WalkEnd(c, items, now);
    } else {
      WalkStep(c, items, e, q, now);
      var pos := |Spared(c, items[..q], now)|;
      if !Evictable(c, items[q].binding, now) {
        z := RecyclePool(c, items, e, q + 1, keys, now);
      } else {
        WFQueued(c, e);
        EvictPool(e, pos);
        var (e', emptied) := Evict(e, pos);
        if !emptied {
          z := RecyclePool(c, items, e', q + 1, keys, now);
          if RecycleFrom(c, e', |Spared(c, items[..q + 1], now)|, Evictables(c, items[..q + 1], now), keys, now).status == Ok {
            FreedAfter(e.pool, e'.pool,
              RecycleFrom(c, e', |Spared(c, items[..q + 1], now)|, Evictables(c, items[..q + 1], now), keys, now).state.pool,
              items[z].stripe);
          }
        }
      }
    }
  }

  lemma FreedAfter(p: Pool, q: Pool, r: Pool, s: nat)
    requires Unfreed(p, q) && Freed(q, r, s)
    ensures Freed(p, r, s)
  {
  }

  /** Stripe-mode recycling with valid entries recyclable: it frees the first stripe it can empty. */
  lemma RecycleFrees(c: Config, e: State, now: int) returns (p: nat)
    requires WF(c, e) && Ranged(e) && c.recycleValid && e.fifo != []
    ensures var r := Recycle(c, e, -1, now);
      && r.status == Ok && p < |e.fifo| && FirstEmptied(c, e.fifo, p, now)
      && Freed(e.pool, r.state.pool, e.fifo[p].stripe)
  {
    hide WF, Ranged, RecycleFrom, Freed, FirstEmptied;
    RecycleForced(c, e, -1, now);
    assert e.fifo[..0] == [];
    assert After(c, e.fifo, 0, now) == e.fifo;
    p := RecyclePool(c, e.fifo, e, 0, -1, now);
  }

  /** With the removal as documented, an empty stripe is reset and queued for allocation. */
  lemma EmptyStripeReady(c: Config, e: State, s: nat)
    requires WF(c, e) && Fits(c) && c.policy.documented && s < |e.pool.stripes| && e.pool.stripes[s].used == 0
    ensures s in e.pool.doing && e.pool.stripes[s].free == e.pool.stripes[s].base
  {
    hide Table, Fits, Geometry, TotalSize, TotalUsed, Placed, Apart;
    assert Sound(e.pool.stripes[s]);
  }

  // ----- the two attempts

  /** After a refused scan some entry is live: the stripes that could not serve it hold bytes. */
  lemma RefusedBusy(c: Config, e: State, size: nat, now: int)
    requires WF(c, e) && Ranged(e) && 0 < size <= c.stripeSize && Fits(c) && 1 <= |e.pool.stripes|
    requires Reserve(c, e, size, now).Unreserved?
    ensures e.fifo != []
  {
    hide Table, Fits, Scan, TotalSize, TotalUsed, Times, Before, Placed, Apart;
    ScanSpace(e.pool, 0, size, now, c.policy);
    ScanQueued(e.pool, 0, size, now, c.policy);
    ScanDoneBusyAt(c, e, size, now);
    var q := Scan(e.pool, 0, size, now, c.policy).pool;
    var s := if q.doing != [] then q.doing[0] else q.done[0];
    assert InSegment(c, e.segs, e.pool.stripes[s]);
    assert Sound(e.pool.stripes[s]);
    assert SameSpace(e.pool.stripes[s], q.stripes[s]);
    assert e.pool.stripes[s].used > 0;
    assert Held(e.fifo, s) > 0;
  }

  lemma ScanDoneBusyAt(c: Config, e: State, size: nat, now: int)
    requires WF(c, e) && Ranged(e) && size <= c.stripeSize && Fits(c)
    ensures DoneBusy(Scan(e.pool, 0, size, now, c.policy).pool)
  {
    hide Table, Fits, Scan, TotalSize, TotalUsed, Times, Before, Placed, Apart, DoneBusy, Queued;
    forall s | 0 <= s < |e.pool.stripes|
      ensures Sound(e.pool.stripes[s]) && size <= e.pool.stripes[s].total
    {
      assert InSegment(c, e.segs, e.pool.stripes[s]);
    }
    WFQueued(c, e);
    ScanDoneBusy(e.pool, size, now, c.policy);
  }

  /** A second attempt succeeds iff the freed stripe is queued. */
  lemma RetryIff(c: Config, p: Pool, q: Pool, s: nat, size: nat, now: int)
    requires Queued(p) && Queued(q) && Freed(p, q, s) && size <= p.stripes[s].total
    requires forall j :: 0 <= j < |p.doing| ==> p.stripes[p.doing[j]].FreeSize() < size
    ensures Scan(q, 0, size, now, c.policy).Granted? <==> s !in p.lost
  {
    hide Scan, NoDup;
    if s !in p.lost {
      var k :| 0 <= k < |q.doing| && q.doing[k] == s;
      ScanFinds(q, 0, size, now, c.policy, k);
    } else {
      forall j | 0 <= j < |q.doing|
        ensures q.stripes[q.doing[j]].FreeSize() < size
      {
        assert q.doing[j] in q.doing;
        assert q.doing[j] != s;
        var k :| 0 <= k < |p.doing| && p.doing[k] == q.doing[j];
      }
      NoRoomRefused(q, 0, size, now, c.policy);
    }
  }

  lemma {:induction false} NoRoomRefused(p: Pool, pos: nat, size: nat, now: int, pol: Policy)
    requires InRange(p) && pos <= |p.doing|
    requires forall j :: 0 <= j < |p.doing| ==> p.stripes[p.doing[j]].FreeSize() < size
    ensures Scan(p, pos, size, now, pol).Refused?
    decreases |p.doing| - pos
  {
    hide Passed, NoDup;
    if pos < |p.doing| {
      var (q, k) := Passed(p, pos, pol);
      PassedSpace(p, pos, pol);
      forall j | 0 <= j < |q.doing|
        ensures q.stripes[q.doing[j]].FreeSize() < size
      {
        if j < k {
          assert q.doing[j] == q.doing[..k][j] == p.doing[..k][j];
        } else {
          assert q.doing[j] == q.doing[k..][j - k] == p.doing[pos + 1..][j - k];
        }
      }
      NoRoomRefused(q, k, size, now, pol);
    }
  }

  /** A new segment always serves the allocation. */
  lemma SegmentServes(c: Config, e: State, size: nat, now: int)
    requires Ranged(e) && size <= c.stripeSize
    ensures Reserve(c, AddSegment(c, e), size, now).Reserved?
  {
    hide Scan, Times;
    var r := AddSegment(c, e);
    var k := |e.pool.doing|;
    assert r.pool.doing[k] == |e.pool.stripes|;
    ScanFinds(r.pool, 0, size, now, c.policy, k);
  }

  /** The allocation fails iff it needs a recycled stripe and gets one that is in neither queue. */
  lemma AllocExact(c: Config, e: State, b: Binding, size: nat, now: int)
    requires WF(c, e) && Ranged(e) && c.recycleValid && Fits(c) && 1 <= |e.pool.stripes|
    requires Legal(c, b) && size == EntrySize(c, |b.key|, |b.value|)
    ensures Alloc(c, e, size, now).Reserved? <==> !Blocked(c, e, size, now)
  {
    hide WF, Ranged, Scan, Recycle, Freed, Queued, Geometry, Backed, DoneBusy, Empties, AddSegment, Unfreed,
         VictimAdrift, ShouldRecycle, RecycleDue, NoRoom;
    RoomDecides(c, e, size, now);
    var first := Reserve(c, e, size, now);
    if first.Unreserved? {
      var e2 := first.state;
      ReserveKeeps(c, e, b, size, now);
      if ShouldRecycle(c, e2, now) {
        RefusedBusy(c, e, size, now);
        var p := RecycleFrees(c, e2, now);
        var r := Recycle(c, e2, -1, now);
        RecycleKeepsWF(c, e2, -1, now);
        WFQueued(c, e2);
        WFQueued(c, r.state);
        WFQueued(c, e);
        StripeOf(e2, p);
        StripeTotal(c, e2, e2.fifo[p].stripe);
        RefusedNoRoom(c, e, size, now);
        RetryIff(c, e2.pool, r.state.pool, e2.fifo[p].stripe, size, now);
        VictimUnique(c, e.pool, e.fifo, p, now);
        LostIff(c, e, size, now, e2.fifo[p].stripe);
      } else {
        SegmentServes(c, e2, size, now);
      }
    }
  }

  /** A refused scan leaves in neither queue exactly the stripes that were adrift. */
  lemma LostIff(c: Config, e: State, size: nat, now: int, s: nat)
    requires Queued(e.pool) && Ranged(e) && Reserve(c, e, size, now).Unreserved?
    ensures s in Reserve(c, e, size, now).state.pool.lost <==> Adrift(c, e.pool, s)
  {
    hide Scan, Slips;
    RefusedIff(e.pool, size, now, c.policy);
    RefusedExact(e.pool, size, now, c.policy);
  }

  lemma RefusedNoRoom(c: Config, e: State, size: nat, now: int)
    requires Ranged(e) && Reserve(c, e, size, now).Unreserved?
    ensures var q := Reserve(c, e, size, now).state.pool;
      InRange(q) && forall j :: 0 <= j < |q.doing| ==> q.stripes[q.doing[j]].FreeSize() < size
  {
    hide Scan;
    ScanSpace(e.pool, 0, size, now, c.policy);
  }

  lemma VictimUnique(c: Config, p: Pool, items: seq<Item>, k: nat, now: int)
    requires k < |items| && FirstEmptied(c, items, k, now)
    ensures VictimAdrift(c, p, items, now) <==> Adrift(c, p, items[k].stripe)
  {
    hide Empties, Adrift;
    if q :| 0 <= q < |items| && FirstEmptied(c, items, q, now) && Adrift(c, p, items[q].stripe) {
      assert q == k;
    }
  }

  /** Key recycling succeeds iff it is not asked for more entries than there are. */
  lemma KeyRecycleIff(c: Config, e: State, now: int)
    requires WF(c, e) && Ranged(e) && c.recycleValid && e.count >= c.maxKeys
    ensures Recycle(c, e, c.recycleKeyOnce, now).status == Ok <==> KeysSuffice(c, e)
  {
    hide Core, LegalItems, DistinctKeys, Ranged, Recycle, KeyBytes, ValueBytes;
    if c.recycleKeyOnce <= 0 {
      RecycleForced(c, e, c.recycleKeyOnce, now);
    } else {
      var z := RecycleKeysExact(c, e, c.recycleKeyOnce, now);
      AllEvictable(c, e.fifo, now);
    }
  }

  lemma {:induction false} AllEvictable(c: Config, items: seq<Item>, now: int)
    requires c.recycleValid
    ensures Evictables(c, items, now) == |items|
  {
    if items != [] {
      AllEvictable(c, items[..|items| - 1], now);
    }
  }

  // ----- set, from the state before the call

  /** How many entries the key limit costs. */
  ghost predicate KeyCost(c: Config, e: State, z: nat, now: int) {
    && z <= |e.fifo|
    && if e.count < c.maxKeys then z == 0
       else if c.recycleKeyOnce > 0 then z == c.recycleKeyOnce
       else 0 < z && FirstEmptied(c, e.fifo, z - 1, now)
  }

  /**
   The set fails for want of memory: the stripes that the key limit drains are lost,
   no queued stripe has room, recycling is due, and the first stripe that the rest
   of the list would free is adrift.
   */
  ghost predicate Starved(c: Config, e: State, z: nat, size: nat, now: int)
    requires Ranged(e) && z <= |e.fifo|
  {
    && (forall s :: Drained(e.fifo, z, s) ==> s in e.pool.lost)
    && NoRoom(e.pool, size) && RecycleDue(c, e, now)
    && VictimAdrift(c, e.pool, e.fifo[z..], now)
  }

  /** The entries that the key limit costs, and what that leaves in the pool. */
  lemma KeyLimitVacates(c: Config, e: State, now: int) returns (z: nat)
    requires WF(c, e) && Ranged(e) && c.recycleValid && KeysSuffice(c, e)
    ensures z <= |e.fifo| && KeyCost(c, e, z, now)
    ensures var v := Vacated(c, e, now);
      WF(c, v) && v.fifo == e.fifo[z..] && Vacates(e.pool, e.fifo, z, v.pool) && v.segs == e.segs
  {
    hide Core, LegalItems, DistinctKeys, Ranged, RecycleFrom, KeyBytes, ValueBytes, Vacates, Empties, Evictable;
    if e.count < c.maxKeys {
      z := 0;
      VacatesNone(e.pool, e.fifo);
    } else {
      KeyRecycleIff(c, e, now);
      z := RecycleVacates(c, e, 0, c.recycleKeyOnce, now);
      RecycleKeepsWF(c, e, c.recycleKeyOnce, now);
      if c.recycleKeyOnce > 0 {
        var y := RecycleKeysExact(c, e, c.recycleKeyOnce, now);
        ForcedCut(c, e.fifo, y, now);
      } else {
        var y := RecycleStripeExact(c, e, c.recycleKeyOnce, now);
        ForcedCut(c, e.fifo, y, now);
      }
    }
  }

  lemma ForcedCut(c: Config, items: seq<Item>, y: nat, now: int)
    requires c.recycleValid && y <= |items|
    ensures |After(c, items, y, now)| == |items| - y && Evictables(c, items[..y], now) == y
  {
    AllEvictable(c, items[..y], now);
  }

  /** The allocation of a set is blocked iff the set is starved. */
  lemma StarvedIff(c: Config, e: State, v: State, z: nat, size: nat, now: int)
    requires WF(c, e) && Ranged(e) && WF(c, v) && Ranged(v) && size <= c.stripeSize && z <= |e.fifo|
    requires v.fifo == e.fifo[z..] && v.segs == e.segs && Vacates(e.pool, e.fifo, z, v.pool)
    ensures Blocked(c, v, size, now) <==> Starved(c, e, z, size, now)
  {
    hide WF, Ranged, Queued, Geometry, Backed, DoneBusy, Calm, RecycleDue, FirstEmptied, Slips, Drained;
    WFQueued(c, e);
    WFQueued(c, v);
    if Calm(e.pool, v.pool) && forall s :: Drained(e.fifo, z, s) ==> s in e.pool.lost {
      CalmSame(e.pool, v.pool, size, c.policy);
      CalmDue(c, e, v, now);
      CalmQueues(e.pool, v.pool);
    } else {
      var s :| Drained(e.fifo, z, s) && s !in e.pool.lost && Ready(v.pool, s);
      StripeTotal(c, v, s);
      var j :| 0 <= j < |v.pool.doing| && v.pool.doing[j] == s;
    }
  }

  /** Set succeeds exactly when nothing of the listed kind stands in its way. */
  lemma SetExact(c: Config, e: State, b: Binding, now: int)
    requires WF(c, e) && Ranged(e) && c.recycleValid && Fits(c) && 1 <= e.segs
    ensures Set(c, e, b, now).status == Ok <==>
      && Legal(c, b) && KeysSuffice(c, e)
      && forall z: nat :: KeyCost(c, e, z, now) ==> !Starved(c, e, z, EntrySize(c, |b.key|, |b.value|), now)
  {
    hide WF, Ranged, Recycle, Alloc, Blocked, EntrySize, Bind, Starved, KeyCost;
    if Legal(c, b) {
      var size := EntrySize(c, |b.key|, |b.value|);
      if e.count >= c.maxKeys {
        KeyRecycleIff(c, e, now);
      }
      if KeysSuffice(c, e) {
        var z := KeyLimitVacates(c, e, now);
        var v := Vacated(c, e, now);
        HasStripe(c, v);
        AllocExact(c, v, b, size, now);
        StarvedIff(c, e, v, z, size, now);
        forall y: nat | KeyCost(c, e, y, now)
          ensures y == z
        {
          KeyCostUnique(c, e, y, z, now);
        }
      }
    }
  }

  lemma KeyCostUnique(c: Config, e: State, y: nat, z: nat, now: int)
    requires KeyCost(c, e, y, now) && KeyCost(c, e, z, now)
    ensures y == z
  {
    hide Empties;
  }

  lemma HasStripe(c: Config, e: State)
    requires WF(c, e) && 1 <= e.segs
    ensures 1 <= |e.pool.stripes|
  {
    hide Table, Queued, Backed, Fits, DoneBusy, Cut;
    TimesGrows(e.segs, c.perSegment);
  }

  lemma {:induction false} TimesGrows(n: nat, size: nat)
    requires 1 <= n && 1 <= size
    ensures n <= Times(n, size)
  {
    if n > 1 {
      TimesGrows(n - 1, size);
    }
  }

  /** With the removal as documented, a legal set never fails for want of memory. */
  lemma SetTotal(c: Config, e: State, b: Binding, now: int)
    requires WF(c, e) && Ranged(e) && c.recycleValid && Fits(c) && 1 <= e.segs && c.policy.documented
    ensures Set(c, e, b, now).status == Ok <==> Legal(c, b) && KeysSuffice(c, e)
  {
    hide WF, Ranged, Set, Fits, Legal, EntrySize, KeyCost, FirstEmptied, RecycleDue;
    SetExact(c, e, b, now);
    WFQueued(c, e);
  }
}
