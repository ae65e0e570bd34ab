/**
 The striping allocator and its two queues, on values.

 A stripe is bump-allocated: a reservation advances `free`, a release only
 lowers `used`, and the stripe is reset as a whole when `used` reaches zero.
 Stripes are named by their index; `doing` holds the stripes that are still
 tried, `done` those given up until they empty.  `lost` is a history variable:
 the stripes that left `doing` without entering `done` since the last clear.
 */
module Stripes {
  import opened Seqs

  /** sizeof(struct shm_striping_allocator) */
  const ALLOCATOR_SIZE := 56

  datatype Stripe = Stripe(
    segment: nat, base: nat, total: nat, free: nat, used: int,
    failTimes: nat, lastAlloc: int, inDone: bool)
  {
    function FreeSize(): int { base + total - free }

    function Reset(): Stripe {
      this.(lastAlloc := 0, failTimes := 0, used := 0, free := base)
    }

    function Bump(size: nat, now: int): Stripe {
      this.(lastAlloc := now, used := used + size, free := free + size)
    }

    function Miss(): Stripe { this.(failTimes := failTimes + 1) }
  }

  /**
   `documented` selects what the cursor removal reports: the removed element, as
   its header comment promises, or the element found in its slot after the
   shift, as the code is written.
   */
  datatype Policy = Policy(discard: nat, maxFail: int, documented: bool)

  datatype Pool = Pool(stripes: seq<Stripe>, doing: seq<nat>, done: seq<nat>, lost: set<nat>)

  /** Every queued index names a stripe. */
  predicate InRange(p: Pool) {
    (forall i :: 0 <= i < |p.doing| ==> p.doing[i] < |p.stripes|) &&
    (forall i :: 0 <= i < |p.done| ==> p.done[i] < |p.stripes|)
  }

  // ----- operations

  predicate Discards(s: Stripe, pol: Policy) {
    s.FreeSize() <= pol.discard || s.failTimes > pol.maxFail
  }

  /** Takes the stripe under the cursor out of `doing`. */
  function Retire(p: Pool, pos: nat, pol: Policy): (r: Pool)
    requires InRange(p) && pos < |p.doing|
    ensures InRange(r) && |r.stripes| == |p.stripes| && |r.doing| == |p.doing| - 1
  {
    var s := p.doing[pos];
    var q := p.(doing := RemoveAt(p.doing, pos));
    if pol.documented || pos == 0 then
      q.(stripes := p.stripes[s := p.stripes[s].(inDone := true)], done := p.done + [s])
    else
      q.(lost := p.lost + {s})
  }

  /** The state in which the scan goes on after a stripe without room. */
  function Passed(p: Pool, pos: nat, pol: Policy): (r: (Pool, nat))
    requires InRange(p) && pos < |p.doing|
    ensures InRange(r.0) && |r.0.stripes| == |p.stripes| && r.1 <= |r.0.doing|
    ensures |r.0.doing| - r.1 == |p.doing| - pos - 1
  {
    var s := p.doing[pos];
    var m := p.(stripes := p.stripes[s := p.stripes[s].Miss()]);
    if Discards(m.stripes[s], pol) then (Retire(m, pos, pol), pos) else (m, pos + 1)
  }

  datatype Grant = Refused(pool: Pool) | Granted(pool: Pool, stripe: nat, offset: nat)

  /** The allocation scan over `doing`, from cursor position `pos` on. */
  function Scan(p: Pool, pos: nat, size: nat, now: int, pol: Policy): (g: Grant)
    requires InRange(p) && pos <= |p.doing|
    ensures InRange(g.pool) && |g.pool.stripes| == |p.stripes|
    ensures g.Granted? ==> g.stripe < |p.stripes|
    decreases |p.doing| - pos
  {
    if pos == |p.doing| then
      Refused(p)
    else
      var s := p.doing[pos];
      if p.stripes[s].FreeSize() >= size then
        Granted(p.(stripes := p.stripes[s := p.stripes[s].Bump(size, now)]), s, p.stripes[s].free)
      else
        var (q, next) := Passed(p, pos, pol);
        Scan(q, next, size, now, pol)
  }

  /** An emptied stripe that was given up goes back to the tail of `doing`. */
  function Requeue(p: Pool, s: nat): (r: Pool)
    requires s < |p.stripes|
    ensures |r.stripes| == |p.stripes|
  {
    if p.stripes[s].inDone && s in p.done then
      Pool(p.stripes[s := p.stripes[s].(inDone := false)], p.doing + [s], Without(p.done, s), p.lost)
    else
      p
  }

  /** Gives `size` bytes back; the flag tells whether the stripe became empty. */
  function Release(p: Pool, s: nat, size: nat): (r: (Pool, bool))
    requires s < |p.stripes|
    ensures |r.0.stripes| == |p.stripes|
  {
    var st := p.stripes[s].(used := p.stripes[s].used - size);
    if st.used <= 0 then
      (Requeue(p.(stripes := p.stripes[s := st.Reset()]), s), true)
    else
      (p.(stripes := p.stripes[s := st]), false)
  }

  /** All stripes reset and queued in index order. */
  function ResetAll(p: Pool): (r: Pool)
    ensures InRange(r) && |r.stripes| == |p.stripes|
  {
    Pool(
      seq(|p.stripes|, i requires 0 <= i < |p.stripes| => p.stripes[i].Reset().(inDone := false)),
      Range(0, |p.stripes|), [], {})
  }

  /** The product, by repeated addition as the carving loop computes it. */
  function Times(n: nat, size: nat): nat {
    if n == 0 then 0 else Times(n - 1, size) + size
  }

  lemma {:induction false} TimesIsProduct(n: nat, size: nat)
    ensures Times(n, size) == n * size
  {
    if n > 0 {
      TimesIsProduct(n - 1, size);
      assert n * size == (n - 1) * size + size;
    }
  }

  /** `r` is the least multiple of `unit` that is not below `x`. */
  ghost predicate LeastMultiple(r: nat, x: nat, unit: nat) {
    x <= r < x + unit && exists k: nat :: r == Times(k, unit)
  }

  /** `n` new stripes of `size` bytes, carved from the start of a segment. */
  function Grow(p: Pool, segment: nat, n: nat, size: nat): (r: Pool)
    ensures |r.stripes| == |p.stripes| + n
    ensures InRange(p) ==> InRange(r)
  {
    Pool(
      p.stripes + seq(n, i requires 0 <= i => Stripe(segment, Times(i, size), size, Times(i, size), 0, 0, 0, false)),
      p.doing + Range(|p.stripes|, |p.stripes| + n), p.done, p.lost)
  }

  // ----- queue invariant

  /**
   Each stripe is in exactly one of `doing`, `done`, `lost`, and `inDone` agrees.
   Not all stripes are lost: a removal that misreports leaves the head of `doing`.
   */
  ghost predicate Queued(p: Pool) {
    && NoDup(p.doing) && NoDup(p.done)
    && InRange(p)
    && (forall s :: s in p.lost ==> s < |p.stripes|)
    && (forall s: nat :: s < |p.stripes| ==> s in p.doing || s in p.done || s in p.lost)
    && (forall s :: s in p.doing ==> s !in p.done && s !in p.lost)
    && (forall s :: s in p.done ==> s !in p.lost)
    && (forall s: nat :: s < |p.stripes| ==> (p.stripes[s].inDone <==> s in p.done))
    && (p.stripes == [] || p.doing != [] || p.done != [])
  }

  /** A stripe that failed since its reset, and is still tried, did so at most `maxFail` times. */
  ghost predicate Patient(p: Pool, maxFail: int) {
    forall i :: 0 <= i < |p.doing| && p.doing[i] < |p.stripes| ==>
      p.stripes[p.doing[i]].failTimes == 0 || p.stripes[p.doing[i]].failTimes <= maxFail
  }

  /** The bytes handed out are the same; only failure counts and queues may differ. */
  ghost predicate SameSpace(a: Stripe, b: Stripe) {
    && a.segment == b.segment && a.base == b.base && a.total == b.total
    && a.free == b.free && a.used == b.used
  }

  lemma RetireQueued(p: Pool, pos: nat, pol: Policy)
    requires Queued(p) && pos < |p.doing|
    ensures Queued(Retire(p, pos, pol))
    ensures forall s: nat :: s < |p.stripes| ==> SameSpace(p.stripes[s], Retire(p, pos, pol).stripes[s])
  {
    RemoveAtMembers(p.doing, pos);
    assert p.doing[pos] in p.doing;
  }

  lemma PassedQueued(p: Pool, pos: nat, pol: Policy)
    requires Queued(p) && pos < |p.doing|
    ensures Queued(Passed(p, pos, pol).0)
  {
    var s := p.doing[pos];
    RestripeQueued(p, s, p.stripes[s].Miss());
    RetireQueued(p.(stripes := p.stripes[s := p.stripes[s].Miss()]), pos, pol);
  }

  lemma PassedSpace(p: Pool, pos: nat, pol: Policy)
    requires InRange(p) && pos < |p.doing|
    ensures var (q, k) := Passed(p, pos, pol);
      && (forall s: nat :: s < |p.stripes| ==> SameSpace(p.stripes[s], q.stripes[s]))
      && q.doing[..k] == p.doing[..k]
      && q.doing[k..] == p.doing[pos + 1..]
      && (k == pos || k == pos + 1)
  {
  }

  /** A scan keeps the queue invariant, and loses stripes only when removal misreports. */
  lemma {:induction false} ScanQueued(p: Pool, pos: nat, size: nat, now: int, pol: Policy)
    requires Queued(p) && pos <= |p.doing|
    ensures var q := Scan(p, pos, size, now, pol).pool;
      && Queued(q) && p.lost <= q.lost && (pol.documented ==> q.lost == p.lost)
    decreases |p.doing| - pos
  {
    if pos < |p.doing| && p.stripes[p.doing[pos]].FreeSize() < size {
      var (q, k) := Passed(p, pos, pol);
      PassedQueued(p, pos, pol);
      ScanQueued(q, k, size, now, pol);
    }
  }

  /**
   A refused scan changes no stripe's space and leaves no stripe with room in
   `doing`; a granted one bumps exactly one stripe of `doing`, which had room.
   */
  lemma {:induction false} ScanSpace(p: Pool, pos: nat, size: nat, now: int, pol: Policy)
    requires InRange(p) && pos <= |p.doing|
    requires forall j :: 0 <= j < pos ==> p.stripes[p.doing[j]].FreeSize() < size
    ensures var g := Scan(p, pos, size, now, pol); var q := g.pool;
      && (g.Refused? ==>
            && (forall s: nat :: s < |p.stripes| ==> SameSpace(p.stripes[s], q.stripes[s]))
            && (forall j :: 0 <= j < |q.doing| ==> q.stripes[q.doing[j]].FreeSize() < size))
      && (g.Granted? ==>
            && p.stripes[g.stripe].FreeSize() >= size && g.offset == p.stripes[g.stripe].free
            && (forall s: nat :: s < |p.stripes| ==>
                  SameSpace(if s == g.stripe then p.stripes[s].Bump(size, now) else p.stripes[s], q.stripes[s])))
    decreases |p.doing| - pos
  {
    hide Passed, NoDup;
    if pos < |p.doing| {
      var s := p.doing[pos];
      if p.stripes[s].FreeSize() < size {
        var (q, k) := Passed(p, pos, pol);
        PassedSpace(p, pos, pol);
        forall j | 0 <= j < k
          ensures q.stripes[q.doing[j]].FreeSize() < size
        {
          assert q.doing[j] == q.doing[..k][j] == p.doing[..k][j] == p.doing[j];
        }
        ScanSpace(q, k, size, now, pol);
      }
    }
  }

  /** Whatever a scan moves to `done`, or loses, lacked room. */
  lemma {:induction false} ScanRetires(p: Pool, pos: nat, size: nat, now: int, pol: Policy, s: nat)
    requires InRange(p) && pos <= |p.doing| && s < |p.stripes| && s !in p.done && s !in p.lost
    requires var q := Scan(p, pos, size, now, pol).pool; s in q.done || s in q.lost
    ensures p.stripes[s].FreeSize() < size
    decreases |p.doing| - pos
  {
    hide NoDup;
    if pos < |p.doing| && p.stripes[p.doing[pos]].FreeSize() < size && s != p.doing[pos] {
      var (q, k) := Passed(p, pos, pol);
      PassedSpace(p, pos, pol);
      ScanRetires(q, k, size, now, pol, s);
    }
  }

  /** The stripes that stay in `doing` behind a scan do not meet the discard rule. */
  lemma {:induction false} ScanDiscards(p: Pool, pos: nat, size: nat, now: int, pol: Policy)
    requires InRange(p) && NoDup(p.doing) && pos <= |p.doing|
    requires forall j :: 0 <= j < pos ==> !Discards(p.stripes[p.doing[j]], pol)
    requires Scan(p, pos, size, now, pol).Refused?
    ensures var q := Scan(p, pos, size, now, pol).pool;
      forall j :: 0 <= j < |q.doing| ==> !Discards(q.stripes[q.doing[j]], pol)
    decreases |p.doing| - pos
  {
    if pos < |p.doing| {
      RemoveAtMembers(p.doing, pos);
      var (q, k) := Passed(p, pos, pol);
      ScanDiscards(q, k, size, now, pol);
    }
  }

  lemma PassedPatient(p: Pool, pos: nat, pol: Policy)
    requires InRange(p) && NoDup(p.doing) && pos < |p.doing| && Patient(p, pol.maxFail)
    ensures var q := Passed(p, pos, pol).0; NoDup(q.doing) && Patient(q, pol.maxFail)
  {
    RemoveAtMembers(p.doing, pos);
  }

  /** A scan gives up every stripe that has failed more than `maxFail` times. */
  lemma {:induction false} ScanPatient(p: Pool, pos: nat, size: nat, now: int, pol: Policy)
    requires InRange(p) && NoDup(p.doing) && pos <= |p.doing| && Patient(p, pol.maxFail)
    ensures Patient(Scan(p, pos, size, now, pol).pool, pol.maxFail)
    decreases |p.doing| - pos
  {
    hide Passed, NoDup;
    if pos < |p.doing| && p.stripes[p.doing[pos]].FreeSize() < size {
      var (q, k) := Passed(p, pos, pol);
      PassedPatient(p, pos, pol);
      ScanPatient(q, k, size, now, pol);
    }
  }

  lemma ReleasePatient(p: Pool, s: nat, size: nat, maxFail: int)
    requires Queued(p) && s < |p.stripes| && Patient(p, maxFail)
    ensures Patient(Release(p, s, size).0, maxFail)
  {
  }

  lemma GrowPatient(p: Pool, segment: nat, n: nat, size: nat, maxFail: int)
    requires InRange(p) && Patient(p, maxFail)
    ensures Patient(Grow(p, segment, n, size), maxFail)
  {
  }

  /** A stripe with room anywhere at or behind the cursor makes the scan succeed. */
  lemma {:induction false} ScanFinds(p: Pool, pos: nat, size: nat, now: int, pol: Policy, k: nat)
    requires InRange(p) && pos <= k < |p.doing|
    requires p.stripes[p.doing[k]].FreeSize() >= size
    ensures Scan(p, pos, size, now, pol).Granted?
    decreases |p.doing| - pos
  {
    hide Passed, NoDup;
    if p.stripes[p.doing[pos]].FreeSize() < size {
      var (q, i) := Passed(p, pos, pol);
      PassedSpace(p, pos, pol);
      assert q.doing[i..][k - pos - 1] == p.doing[pos + 1..][k - pos - 1];
      ScanFinds(q, i, size, now, pol, k - pos - 1 + i);
    }
  }

  /** Requeueing an emptied stripe keeps the queue invariant. */
  lemma RequeueQueued(p: Pool, s: nat)
    requires Queued(p) && s < |p.stripes|
    ensures var q := Requeue(p, s);
      && Queued(q) && q.lost == p.lost
      && (forall t: nat :: t < |p.stripes| && t != s ==> q.stripes[t] == p.stripes[t])
      && SameSpace(q.stripes[s], p.stripes[s])
      && (s !in p.lost ==> s in q.doing)
      && (forall t :: t in q.done <==> t in p.done && t != s)
      && (forall t :: t in p.doing ==> t in q.doing)
  {
    if s in p.done {
      WithoutMembers(p.done, s);
      NoDupAppend(p.doing, s);
      var q := Requeue(p, s);
      forall i | 0 <= i < |q.done|
        ensures q.done[i] < |q.stripes|
      {
        assert q.done[i] in q.done;
      }
    }
  }

  /** The queue invariant looks at a stripe's flag only. */
  lemma RestripeQueued(p: Pool, s: nat, st: Stripe)
    requires Queued(p) && s < |p.stripes| && st.inDone == p.stripes[s].inDone
    ensures Queued(p.(stripes := p.stripes[s := st]))
  {
  }

  /** Releasing bytes keeps the queue invariant; an emptied stripe ends in `doing` unless lost. */
  lemma ReleaseQueued(p: Pool, s: nat, size: nat)
    requires Queued(p) && s < |p.stripes|
    ensures var (q, emptied) := Release(p, s, size);
      && Queued(q) && q.lost == p.lost
      && emptied == (p.stripes[s].used - size <= 0)
      && (forall t: nat :: t < |p.stripes| && t != s ==> q.stripes[t] == p.stripes[t])
      && (if emptied then SameSpace(q.stripes[s], p.stripes[s].Reset())
          else q.stripes[s] == p.stripes[s].(used := p.stripes[s].used - size))
      && (emptied && s !in p.lost ==> s in q.doing)
      && (forall t :: t in q.done <==> t in p.done && !(emptied && t == s))
      && (forall t :: t in p.doing ==> t in q.doing)
  {
    hide Queued, Requeue;
    var st := p.stripes[s].(used := p.stripes[s].used - size);
    RestripeQueued(p, s, st);
    if st.used <= 0 {
      RestripeQueued(p, s, st.Reset());
      RequeueQueued(p.(stripes := p.stripes[s := st.Reset()]), s);
    }
  }

  /** A release with its numbers: a stripe is reset and queued at the tail when its last bytes go. */
  lemma ReleaseRule(p: Pool, s: nat, size: nat)
    requires Queued(p) && s < |p.stripes|
    ensures var (q, emptied) := Release(p, s, size); var st := p.stripes[s];
      && (emptied <==> st.used <= size)
      && q.stripes == p.stripes[s :=
           if st.used <= size then Stripe(st.segment, st.base, st.total, st.base, 0, 0, 0, false)
           else Stripe(st.segment, st.base, st.total, st.free, st.used - size, st.failTimes, st.lastAlloc, st.inDone)]
      && q.doing == (if st.used <= size && s in p.done then p.doing + [s] else p.doing)
      && (if st.used <= size then s !in q.done else q.done == p.done) && q.lost == p.lost
  {
    if s in p.done {
      WithoutMembers(p.done, s);
    }
  }

  /** A clear with its numbers: every stripe is as new, and queued in index order. */
  lemma ResetAllRule(p: Pool)
    ensures var q := ResetAll(p);
      && |q.stripes| == |q.doing| == |p.stripes| && q.done == [] && q.lost == {}
      && (forall s: nat :: s < |p.stripes| ==> var st := p.stripes[s];
            q.stripes[s] == Stripe(st.segment, st.base, st.total, st.base, 0, 0, 0, false) && q.doing[s] == s)
  {
  }

  /** New stripes with their numbers: cut one after the other, unused, and queued behind the others. */
  lemma GrowRule(p: Pool, segment: nat, n: nat, size: nat)
    ensures var q := Grow(p, segment, n, size);
      && |q.stripes| == |p.stripes| + n && |q.doing| == |p.doing| + n && q.done == p.done && q.lost == p.lost
      && q.stripes[..|p.stripes|] == p.stripes && q.doing[..|p.doing|] == p.doing
      && (forall i: nat :: i < n ==>
            && q.stripes[|p.stripes| + i] == Stripe(segment, i * size, size, i * size, 0, 0, 0, false)
            && q.doing[|p.doing| + i] == |p.stripes| + i)
  {
    var q := Grow(p, segment, n, size);
    forall i: nat | i < n
      ensures q.stripes[|p.stripes| + i] == Stripe(segment, i * size, size, i * size, 0, 0, 0, false)
    {
      TimesIsProduct(i, size);
    }
  }

  lemma ResetAllQueued(p: Pool)
    ensures Queued(ResetAll(p))
  {
    RangeMembers(0, |p.stripes|);
  }

  lemma GrowQueued(p: Pool, segment: nat, n: nat, size: nat)
    requires Queued(p)
    ensures Queued(Grow(p, segment, n, size))
  {
    var q := Grow(p, segment, n, size);
    RangeMembers(|p.stripes|, |p.stripes| + n);
    forall s | s in q.doing
      ensures s !in q.done && s !in q.lost
    {
    }
  }

  /** No queue can hold more than the number of stripes, so a ring of one slot more never fills. */
  lemma QueuesFit(p: Pool)
    requires Queued(p)
    ensures |p.doing| <= |p.stripes| && |p.done| <= |p.stripes|
    ensures forall s :: s in p.done ==> |p.doing| < |p.stripes|
    ensures forall s :: s in p.doing ==> |p.done| < |p.stripes|
  {
    Pigeonhole(p.doing, |p.stripes|);
    Pigeonhole(p.done, |p.stripes|);
    if s :| s in p.done {
      NoDupAppend(p.doing, s);
      Pigeonhole(p.doing + [s], |p.stripes|);
    }
    if s :| s in p.doing {
      NoDupAppend(p.done, s);
      Pigeonhole(p.done + [s], |p.stripes|);
    }
  }
}
