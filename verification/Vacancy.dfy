/**
 What recycling at the key limit leaves to the allocation after it, when valid
 entries are recyclable: either a stripe that is ready for any entry, or a pool
 whose queues and free space are those before the call.
 */
module Vacancy {
  import opened Seqs
  import opened Stripes
  import opened Scanning
  import opened Engine
  import opened Accounting
  import opened Invariants
  import opened Refinement

  /** The first `k` entries hold everything in the stripe. */
  ghost predicate Drained(items: seq<Item>, k: nat, s: nat) {
    && (exists i :: 0 <= i < k && i < |items| && items[i].stripe == s)
    && (forall i :: k <= i < |items| ==> items[i].stripe != s)
  }

  /** Queues are the same, and queued stripes differ in their used bytes alone. */
  ghost predicate Calm(p: Pool, q: Pool) {
    && |q.stripes| == |p.stripes| && q.doing == p.doing && q.done == p.done && q.lost == p.lost
    && forall s: nat :: s < |p.stripes| && s !in p.lost ==> q.stripes[s] == p.stripes[s].(used := q.stripes[s].used)
  }

  /** The stripe is queued for allocation, and nothing is allocated in it. */
  ghost predicate Ready(p: Pool, s: nat) {
    s in p.doing && s < |p.stripes| && p.stripes[s].free == p.stripes[s].base
  }

  lemma EvictCalm(e: State, pos: nat)
    requires Ranged(e) && Queued(e.pool) && pos < |e.fifo|
    ensures var (e', emptied) := Evict(e, pos); var s := e.fifo[pos].stripe;
      if emptied && s !in e.pool.lost then Ready(e'.pool, s) else Calm(e.pool, e'.pool)
    ensures forall s :: Ready(e.pool, s) ==> Ready(Evict(e, pos).0.pool, s)
  {
    var x := e.fifo[pos];
    ReleaseQueued(e.pool, x.stripe, x.size);
  }

  /** What `k` evictions from the front of `items` leave in the pool. */
  ghost predicate Vacates(p: Pool, items: seq<Item>, k: nat, q: Pool) {
    || (Calm(p, q) && forall s :: Drained(items, k, s) ==> s in p.lost)
    || (exists s :: Drained(items, k, s) && s !in p.lost && Ready(q, s))
  }

  lemma {:induction false} ReadyStays(c: Config, e: State, pos: nat, cleared: nat, keys: int, now: int, s: nat)
    requires WF(c, e) && Ranged(e) && pos <= |e.fifo| && Ready(e.pool, s)
    ensures Ready(RecycleFrom(c, e, pos, cleared, keys, now).state.pool, s)
    decreases |e.fifo| - pos
  {
    hide WF, Ranged, Evict, Evictable, Ready;
    if pos < |e.fifo| {
      if !Evictable(c, e.fifo[pos].binding, now) {
        ReadyStays(c, e, pos + 1, cleared, keys, now, s);
      } else {
        EvictRanged(e, pos);
        EvictWF(c, e, pos);
        WFQueued(c, e);
        EvictCalm(e, pos);
        ReadyStays(c, Evict(e, pos).0, pos, cleared + 1, keys, now, s);
      }
    }
  }

  /** Evicting the head of the list and then `k` more. */
  lemma VacatesStep(p: Pool, items: seq<Item>, k: nat, p': Pool, q: Pool)
    requires items != [] && p'.lost == p.lost && Vacates(p', items[1..], k, q)
    requires Calm(p, p') && (items[0].stripe in p.lost || exists i :: 0 < i < |items| && items[i].stripe == items[0].stripe)
    ensures Vacates(p, items, k + 1, q)
  {
    forall s | Drained(items[1..], k, s)
      ensures Drained(items, k + 1, s)
    {
      var i :| 0 <= i < k && i < |items[1..]| && items[1..][i].stripe == s;
      assert items[i + 1].stripe == s;
      forall j | k + 1 <= j < |items|
        ensures items[j].stripe != s
      {
        assert items[1..][j - 1] == items[j];
      }
    }
    if Calm(p', q) && forall s :: Drained(items[1..], k, s) ==> s in p'.lost {
      forall s | Drained(items, k + 1, s)
        ensures s in p.lost
      {
        if s !in p.lost {
          var i :| 0 <= i < k + 1 && i < |items| && items[i].stripe == s;
          if i == 0 {
            var j :| 0 < j < |items| && items[j].stripe == s;
            assert j < k + 1;
            assert items[1..][j - 1].stripe == s;
          } else {
            assert items[1..][i - 1].stripe == s;
          }
          assert Drained(items[1..], k, s);
        }
      }
    }
  }

  /** The stop condition of recycling. */
  predicate Stops(cleared: nat, keys: int, emptied: bool) {
    if keys > 0 then cleared + 1 >= keys else emptied
  }

  lemma RecycleHead(c: Config, e: State, cleared: nat, keys: int, now: int)
    requires Ranged(e) && c.recycleValid && e.fifo != []
    ensures var (e', emptied) := Evict(e, 0);
      && Ranged(e')
      && RecycleFrom(c, e, 0, cleared, keys, now) ==
           if Stops(cleared, keys, emptied) then Outcome(e', Ok) else RecycleFrom(c, e', 0, cleared + 1, keys, now)
  {
    hide Ranged, Evict;
    EvictRanged(e, 0);
  }

  lemma RecycleEnds(c: Config, e: State, cleared: nat, keys: int, now: int)
    requires Ranged(e) && e.fifo == []
    ensures RecycleFrom(c, e, 0, cleared, keys, now) == Outcome(e, NoMemory)
  {
  }

  /** The first eviction: it empties its stripe iff no other entry is in it. */
  lemma HeadEvicted(c: Config, e: State)
    requires WF(c, e) && Ranged(e) && e.fifo != []
    ensures var (e', emptied) := Evict(e, 0); var s := e.fifo[0].stripe;
      && WF(c, e') && e'.fifo == e.fifo[1..] && e'.pool.lost == e.pool.lost && e'.segs == e.segs
      && (emptied <==> forall i :: 0 < i < |e.fifo| ==> e.fifo[i].stripe != s)
      && if emptied && s !in e.pool.lost then Ready(e'.pool, s) else Calm(e.pool, e'.pool)
  {
    hide WF, Ranged, Evict, Calm, Ready;
    EvictWF(c, e, 0);
    WFQueued(c, e);
    EvictCalm(e, 0);
    EmptiedLast(c, e);
  }

  /** Recycling from the head, with everything evictable, evicts a prefix and vacates the pool. */
  lemma {:induction false} RecycleVacates(c: Config, e: State, cleared: nat, keys: int, now: int) returns (k: nat)
    requires WF(c, e) && Ranged(e) && c.recycleValid
    ensures var r := RecycleFrom(c, e, 0, cleared, keys, now);
      && k <= |e.fifo| && r.state.fifo == e.fifo[k..] && Vacates(e.pool, e.fifo, k, r.state.pool)
      && r.state.segs == e.segs
    decreases |e.fifo|
  {
    hide *;
    if e.fifo == [] {
      k := 0;
      RecycleEnds(c, e, cleared, keys, now);
      VacatesNone(e.pool, e.fifo);
    } else {
      RecycleHead(c, e, cleared, keys, now);
      HeadEvicted(c, e);
      var (e', emptied) := Evict(e, 0);
      if Stops(cleared, keys, emptied) {
        k := 1;
        VacatesOne(e.pool, e.fifo, e'.pool, emptied);
      } else {
        var j := RecycleVacates(c, e', cleared + 1, keys, now);
        k := j + 1;
        assert e.fifo[1..][j..] == e.fifo[k..];
        var q := RecycleFrom(c, e', 0, cleared + 1, keys, now).state.pool;
        if emptied && e.fifo[0].stripe !in e.pool.lost {
          ReadyStays(c, e', 0, cleared + 1, keys, now, e.fifo[0].stripe);
          VacatesReady(e.pool, e.fifo, k, q);
        } else {
          VacatesStep(e.pool, e.fifo, j, e'.pool, q);
        }
      }
    }
  }

  lemma VacatesNone(p: Pool, items: seq<Item>)
    ensures Vacates(p, items, 0, p)
  {
  }

  lemma VacatesOne(p: Pool, items: seq<Item>, q: Pool, emptied: bool)
    requires items != [] && (emptied <==> forall i :: 0 < i < |items| ==> items[i].stripe != items[0].stripe)
    requires if emptied && items[0].stripe !in p.lost then Ready(q, items[0].stripe) else Calm(p, q)
    ensures Vacates(p, items, 1, q)
  {
    if emptied {
      assert Drained(items, 1, items[0].stripe);
    }
  }

  lemma VacatesReady(p: Pool, items: seq<Item>, k: nat, q: Pool)
    requires items != [] && 1 <= k && items[0].stripe !in p.lost && Ready(q, items[0].stripe)
    requires forall i :: 0 < i < |items| ==> items[i].stripe != items[0].stripe
    ensures Vacates(p, items, k, q)
  {
    assert Drained(items, k, items[0].stripe);
  }

  /** The eviction of the head empties its stripe iff no other entry is in it. */
  lemma EmptiedLast(c: Config, e: State)
    requires WF(c, e) && Ranged(e) && e.fifo != []
    ensures Evict(e, 0).1 <==> forall i :: 0 < i < |e.fifo| ==> e.fifo[i].stripe != e.fifo[0].stripe
    ensures Evict(e, 0).0.pool.lost == e.pool.lost
  {
    hide Geometry, Queued, Backed, Fits, DoneBusy, Table, Evict, TotalSize, TotalUsed;
    EvictCore(c, e, 0, e.fifo);
    EvictWF(c, e, 0);
    var r := RemoveAt(e.fifo, 0);
    assert forall i :: 0 <= i < |e.fifo| - 1 ==> r[i] == e.fifo[i + 1];
    assert forall i :: 0 < i < |e.fifo| ==> e.fifo[i] == r[i - 1];
  }

  // ----- a calm pool answers as before

  lemma CalmSame(p: Pool, q: Pool, size: nat, pol: Policy)
    requires Queued(p) && Queued(q) && Calm(p, q)
    ensures NoRoom(p, size) <==> NoRoom(q, size)
    ensures Shelved(q, q.doing, true, pol) == Shelved(p, p.doing, true, pol)
    ensures forall s: nat :: Slips(q, s, pol) <==> Slips(p, s, pol)
    ensures forall s: nat :: s in p.doing || s in p.done ==>
      s < |p.stripes| && q.stripes[s].lastAlloc == p.stripes[s].lastAlloc
  {
    hide NoDup;
    CalmShelved(p, q, p.doing, true, pol);
    forall s | s in p.doing
      ensures Spent(p, s, pol) == Spent(q, s, pol)
    {
    }
  }

  lemma {:induction false} CalmShelved(p: Pool, q: Pool, passed: seq<nat>, head: bool, pol: Policy)
    requires Calm(p, q) && forall s :: s in passed ==> s !in p.lost
    ensures Shelved(q, passed, head, pol) == Shelved(p, passed, head, pol)
  {
    if passed != [] {
      assert passed[0] in passed;
      CalmShelved(p, q, passed[1..], head, pol);
      CalmShelved(p, q, passed[1..], false, pol);
    }
  }

  /** Whether recycling is due does not change either. */
  lemma CalmDue(c: Config, e: State, v: State, now: int)
    requires Ranged(e) && Ranged(v) && Queued(e.pool) && Queued(v.pool) && Calm(e.pool, v.pool) && v.segs == e.segs
    ensures RecycleDue(c, v, now) <==> RecycleDue(c, e, now)
  {
    hide Queued, Calm, Slips, Shelved;
    CalmSame(e.pool, v.pool, 0, c.policy);
    ShelvedPassed(e.pool, e.pool.doing, true, c.policy);
    CalmQueues(e.pool, v.pool);
    var done := e.pool.done + Shelved(e.pool, e.pool.doing, true, c.policy);
    if done != [] {
      assert done[0] in e.pool.done || done[0] in e.pool.doing;
    }
  }

  lemma CalmQueues(p: Pool, q: Pool)
    requires Calm(p, q)
    ensures q.doing == p.doing && q.done == p.done && q.lost == p.lost && |q.stripes| == |p.stripes|
  {
  }
}
