/**
 When a rearrangement works.  Its space check cannot see how entries pack into
 stripes: it succeeds iff the check passes and first-fit allocation, in list order,
 places every unexpired entry in the emptied stripes.  Otherwise the cache ends
 empty.
 */
module Packing {
  import opened Seqs
  import opened Stripes
  import opened Scanning
  import opened Engine
  import opened Accounting
  import opened Invariants
  import opened Recycling
  import opened OrderedMap
  import opened Refinement

  /** First-fit allocation of all sizes in turn, with nothing released. */
  predicate Packs(p: Pool, sizes: seq<nat>, now: int, pol: Policy)
    requires InRange(p)
    decreases |sizes|
  {
    sizes == [] || (var g := Scan(p, 0, sizes[0], now, pol); g.Granted? && Packs(g.pool, sizes[1..], now, pol))
  }

  function SizeOf(c: Config, b: Binding): nat { EntrySize(c, |b.key|, |b.value|) }

  function SizesOf(c: Config, bs: seq<Binding>): (r: seq<nat>)
    ensures |r| == |bs|
    ensures forall i :: 0 <= i < |bs| ==> r[i] == SizeOf(c, bs[i])
  {
    seq(|bs|, i requires 0 <= i < |bs| => SizeOf(c, bs[i]))
  }

  ghost function Need(c: Config, bs: seq<Binding>): nat {
    if bs == [] then 0 else SizeOf(c, bs[0]) + Need(c, bs[1..])
  }

  // ----- loading an empty cache

  /** Sets without the recursion: each entry is placed by one scan, or the load ends. */
  function Load(c: Config, e: State, bs: seq<Binding>, now: int): (r: Outcome)
    requires Ranged(e)
    ensures Ranged(r.state)
    decreases |bs|
  {
    if bs == [] then Outcome(e, Ok)
    else
      match Reserve(c, e, SizeOf(c, bs[0]), now)
      case Unreserved(_) => Outcome(e, NoMemory)
      case Reserved(e', s, offset) => Load(c, Bind(e', bs[0], s, offset, SizeOf(c, bs[0])), bs[1..], now)
  }

  /** A rearrangement under way: `bs` are still to be inserted, and its space check holds. */
  ghost predicate Loading(c: Config, e: State, bs: seq<Binding>, now: int) {
    && WF(c, e) && !c.recycleValid && e.segs >= c.segMax
    && AllAlive(Bindings(e.fifo), now) && AllAlive(bs, now) && UniqueKeys(Bindings(e.fifo) + bs)
    && |e.fifo| + |bs| <= c.maxKeys && (forall i :: 0 <= i < |bs| ==> Legal(c, bs[i]))
    && FreeBytes(c, e) - Need(c, bs) >= RearrangeFloor(c, e)
  }

  lemma LoadingParts(c: Config, e: State, bs: seq<Binding>, now: int)
    requires Loading(c, e, bs, now)
    ensures WF(c, e) && Ranged(e) && !c.recycleValid && e.segs >= c.segMax && e.count == |e.fifo|
    ensures AllAlive(Bindings(e.fifo), now) && FreeBytes(c, e) >= RearrangeFloor(c, e)
    ensures bs != [] ==> Legal(c, bs[0]) && |e.fifo| < c.maxKeys && Lacks(Bindings(e.fifo), bs[0].key) && Unexpired(bs[0], now)
  {
    hide Core, LegalItems, KeyBytes, ValueBytes, Lacks, UniqueKeys, RearrangeFloor, Need;
    WFRanged(c, e);
    if bs != [] {
      assert Bindings(e.fifo) + bs == Bindings(e.fifo) + [bs[0]] + bs[1..];
      UniqueMiddle(Bindings(e.fifo), bs[0], bs[1..]);
    }
  }

  /** The state after binding a reserved entry under a new key. */
  lemma BindNew(e: State, b: Binding, s: nat, offset: nat, size: nat)
    requires Ranged(e) && s < |e.pool.stripes| && Lacks(Bindings(e.fifo), b.key)
    ensures Bind(e, b, s, offset, size) == Append(e, NewItem(e.pool, b, s, offset, size))
    ensures Bindings(Bind(e, b, s, offset, size).fifo) == Bindings(e.fifo) + [b]
  {
    hide Ranged, Position, Evict, Lacks, DropKey;
    PositionIsFind(e.fifo, b.key);
    BindMeaning(e, b, s, offset, size);
    LacksDrop(Bindings(e.fifo), b.key);
    LacksFind(Bindings(e.fifo), b.key);
  }

  lemma LacksFind(m: seq<Binding>, key: Bytes)
    requires Lacks(m, key)
    ensures Find(m, key) == |m|
  {
  }

  /** A set of a new key that finds room. */
  lemma SetNewKey(c: Config, e: State, b: Binding, now: int, pool: Pool, s: nat, offset: nat)
    requires Ranged(e) && e.count < c.maxKeys && Legal(c, b) && Lacks(Bindings(e.fifo), b.key)
    requires Scan(e.pool, 0, SizeOf(c, b), now, c.policy) == Granted(pool, s, offset)
    ensures s < |pool.stripes|
    ensures Set(c, e, b, now) == Outcome(
      Append(e.(pool := pool, usedEntry := e.usedEntry + SizeOf(c, b)), NewItem(pool, b, s, offset, SizeOf(c, b))), Ok)
  {
    hide Scan, MakeRoom, Recycle, EntrySize, Bind, Lacks;
    var e' := e.(pool := pool, usedEntry := e.usedEntry + SizeOf(c, b));
    assert Reserve(c, e, SizeOf(c, b), now) == Reserved(e', s, offset);
    assert Alloc(c, e, SizeOf(c, b), now) == Reserved(e', s, offset);
    BindNew(e', b, s, offset, SizeOf(c, b));
  }

  /** A set that finds room is one step of the load. */
  lemma LoadStep(c: Config, e: State, bs: seq<Binding>, now: int)
    requires Loading(c, e, bs, now) && Ranged(e) && bs != [] && Reserve(c, e, SizeOf(c, bs[0]), now).Reserved?
    ensures var r := Reserve(c, e, SizeOf(c, bs[0]), now);
      var e' := Bind(r.state, bs[0], r.stripe, r.offset, SizeOf(c, bs[0]));
      && Set(c, e, bs[0], now) == Outcome(e', Ok)
      && Loading(c, e', bs[1..], now) && Bindings(e'.fifo) == Bindings(e.fifo) + [bs[0]]
      && Clear(e') == Clear(e) && e'.pool == r.state.pool
  {
    hide Core, LegalItems, DistinctKeys, KeyBytes, ValueBytes, Ranged, Bind, Lacks, UniqueKeys, EntrySize, Recycle, MakeRoom,
         ResetAll, Scan;
    LoadingParts(c, e, bs, now);
    var size := SizeOf(c, bs[0]);
    var r := Reserve(c, e, size, now);
    BindNew(r.state, bs[0], r.stripe, r.offset, size);
    var e' := Bind(r.state, bs[0], r.stripe, r.offset, size);
    SetWF(c, e, bs[0], now);
    assert Alloc(c, e, size, now) == r;
    assert Set(c, e, bs[0], now) == Outcome(e', Ok);
    assert Bindings(e'.fifo) + bs[1..] == Bindings(e.fifo) + bs;
    ScanReset(c, e, size, now);
  }

  /** Scans move no stripe, so clearing afterwards gives the same cache. */
  lemma ScanReset(c: Config, e: State, size: nat, now: int)
    requires WF(c, e) && Ranged(e)
    ensures ResetAll(Reserve(c, e, size, now).state.pool) == ResetAll(e.pool)
    ensures |Reserve(c, e, size, now).state.pool.stripes| == |e.pool.stripes|
  {
    hide Geometry, Backed, Table, Fits, DoneBusy, Scan, Queued, TotalSize, TotalUsed;
    ScanSpace(e.pool, 0, size, now, c.policy);
    var p, q := e.pool, Scan(e.pool, 0, size, now, c.policy).pool;
    assert ResetAll(q).stripes == ResetAll(p).stripes;
  }

  /** With nothing evictable, recycling does nothing. */
  lemma RecycleNothing(c: Config, e: State, keys: int, now: int)
    requires Ranged(e) && !c.recycleValid && AllAlive(Bindings(e.fifo), now)
    ensures Recycle(c, e, keys, now) == Outcome(e, NoMemory)
  {
    hide Ranged, Unexpired;
    assert forall i :: 0 <= i < |e.fifo| ==> Unexpired(Bindings(e.fifo)[i], now);
    SkipSpared(c, e, 0, |e.fifo|, 0, keys, now);
  }

  /**
   A set without room rearranges again, which loads the same entries into the same
   places, and then finds no room again.
   */
  lemma StuckStep(c: Config, e: State, bs: seq<Binding>, now: int)
    requires Loading(c, e, bs, now) && Ranged(e) && bs != [] && Reserve(c, e, SizeOf(c, bs[0]), now).Unreserved?
    requires Reinsert(c, Clear(e), Bindings(e.fifo), now, |e.fifo|) == Outcome(e, Ok)
    ensures Set(c, e, bs[0], now).status == NoMemory
  {
    hide Core, LegalItems, DistinctKeys, KeyBytes, ValueBytes, Ranged, Bind, Lacks, UniqueKeys, EntrySize, Recycle,
         ResetAll, Scan, Reinsert, Alive;
    LoadingParts(c, e, bs, now);
    var size := SizeOf(c, bs[0]);
    var e1 := Reserve(c, e, size, now).state;
    ReserveKeeps(c, e, bs[0], size, now);
    ScanReset(c, e, size, now);
    RecycleNothing(c, e1, -1, now);
    AllAliveIsAlive(Bindings(e.fifo), now);
    assert Clear(e1) == Clear(e);
    assert Rearrange(c, e1, now) == Outcome(e, Ok);
    assert MakeRoom(c, e1, now) == Outcome(e, Ok);
    assert Alloc(c, e, size, now).Unreserved?;
  }

  lemma {:induction false} LoadAppend(c: Config, e: State, bs: seq<Binding>, b: Binding, now: int)
    requires Ranged(e) && Load(c, e, bs, now).status == Ok
    ensures Load(c, e, bs + [b], now) == Load(c, Load(c, e, bs, now).state, [b], now)
    decreases |bs|
  {
    hide Ranged, Reserve, Bind, EntrySize;
    if bs == [] {
      assert bs + [b] == [b];
    } else {
      assert (bs + [b])[1..] == bs[1..] + [b] && (bs + [b])[0] == bs[0];
      var r := Reserve(c, e, SizeOf(c, bs[0]), now);
      LoadAppend(c, Bind(r.state, bs[0], r.stripe, r.offset, SizeOf(c, bs[0])), bs[1..], b, now);
    }
  }

  /** What is loaded can be loaded again after a clear. */
  lemma ClearLoading(c: Config, e: State, bs: seq<Binding>, now: int)
    requires Loading(c, e, bs, now)
    ensures Loading(c, Clear(e), Bindings(e.fifo), now) && Clear(Clear(e)) == Clear(e)
  {
    hide Cut, Queued, Backed, Fits, DoneBusy, DistinctKeys, KeyBytes, ValueBytes, ResetAll, EntrySize, TotalUsed;
    ClearWF(c, e);
    DistinctUnique(e.fifo);
    assert Bindings([]) + Bindings(e.fifo) == Bindings(e.fifo);
    NeedIsTotal(c, e.fifo);
    ResetTwice(e.pool);
    forall i | 0 <= i < |e.fifo|
      ensures Legal(c, Bindings(e.fifo)[i])
    {
      assert LegalItem(c, e.fifo[i]);
    }
  }

  lemma ResetTwice(p: Pool)
    ensures ResetAll(ResetAll(p)) == ResetAll(p)
  {
    assert ResetAll(ResetAll(p)).stripes == ResetAll(p).stripes;
  }

  lemma {:induction false} NeedConcat(c: Config, s: seq<Binding>, t: seq<Binding>)
    ensures Need(c, s + t) == Need(c, s) + Need(c, t)
  {
    hide EntrySize;
    if s == [] {
      assert s + t == t;
    } else {
      assert (s + t)[1..] == s[1..] + t;
      NeedConcat(c, s[1..], t);
    }
  }

  lemma {:induction false} NeedIsTotal(c: Config, items: seq<Item>)
    requires LegalItems(c, items)
    ensures Need(c, Bindings(items)) == TotalSize(items)
  {
    hide EntrySize;
    if items != [] {
      var n := |items| - 1;
      NeedIsTotal(c, items[..n]);
      assert Bindings(items) == Bindings(items[..n]) + [items[n].binding];
      NeedConcat(c, Bindings(items[..n]), [items[n].binding]);
      assert LegalItem(c, items[n]);
      assert Need(c, [items[n].binding]) == items[n].size;
    }
  }

  /** The insertion loop of a rearrangement is a load. */
  lemma {:induction false} ReinsertIsLoad(c: Config, e: State, bs: seq<Binding>, now: int, limit: nat)
    requires Loading(c, e, bs, now) && Ranged(e) && |e.fifo| + |bs| <= limit
    requires Load(c, Clear(e), Bindings(e.fifo), now) == Outcome(e, Ok)
    ensures var r := Reinsert(c, e, bs, now, limit); var l := Load(c, e, bs, now);
      (r.status == Ok <==> l.status == Ok) && (r.status == Ok ==> r == l)
    decreases limit, |bs|
  {
    hide Loading, Ranged, Set, Reserve, Bind, Clear, EntrySize;
    if bs != [] {
      var r := Reserve(c, e, SizeOf(c, bs[0]), now);
      if r.Reserved? {
        LoadStep(c, e, bs, now);
        var e' := Bind(r.state, bs[0], r.stripe, r.offset, SizeOf(c, bs[0]));
        LoadAppend(c, Clear(e), Bindings(e.fifo), bs[0], now);
        LoadOne(c, e, bs[0], now);
        ReinsertIsLoad(c, e', bs[1..], now, limit);
      } else {
        ClearLoading(c, e, bs, now);
        ReinsertIsLoad(c, Clear(e), Bindings(e.fifo), now, |e.fifo|);
        StuckStep(c, e, bs, now);
      }
    }
  }

  lemma LoadOne(c: Config, e: State, b: Binding, now: int)
    requires Ranged(e) && Reserve(c, e, SizeOf(c, b), now).Reserved?
    ensures var r := Reserve(c, e, SizeOf(c, b), now);
      Load(c, e, [b], now) == Outcome(Bind(r.state, b, r.stripe, r.offset, SizeOf(c, b)), Ok)
  {
    hide Ranged, Reserve, Bind, EntrySize;
    var r := Reserve(c, e, SizeOf(c, b), now);
    assert [b][1..] == [];
  }

  /** A load is a packing of the sizes. */
  lemma {:induction false} LoadIsPacking(c: Config, e: State, bs: seq<Binding>, now: int)
    requires Loading(c, e, bs, now) && Ranged(e)
    ensures Load(c, e, bs, now).status == Ok <==> Packs(e.pool, SizesOf(c, bs), now, c.policy)
    decreases |bs|
  {
    hide Loading, Set, Bind, Scan, EntrySize, Clear;
    if bs != [] {
      assert SizesOf(c, bs)[1..] == SizesOf(c, bs[1..]);
      var r := Reserve(c, e, SizeOf(c, bs[0]), now);
      if r.Reserved? {
        LoadStep(c, e, bs, now);
        LoadIsPacking(c, Bind(r.state, bs[0], r.stripe, r.offset, SizeOf(c, bs[0])), bs[1..], now);
      }
    }
  }

  /** One more size packs iff the loaded pool has room for it. */
  lemma {:induction false} LoadThenScan(c: Config, e: State, bs: seq<Binding>, size: nat, now: int)
    requires Loading(c, e, bs, now) && Ranged(e)
    ensures var l := Load(c, e, bs, now);
      Packs(e.pool, SizesOf(c, bs) + [size], now, c.policy)
      <==> l.status == Ok && Scan(l.state.pool, 0, size, now, c.policy).Granted?
    decreases |bs|
  {
    hide Loading, Set, Bind, Scan, EntrySize, Clear;
    var sizes := SizesOf(c, bs) + [size];
    if bs == [] {
      assert sizes == [size] && sizes[1..] == [];
    } else {
      assert sizes[1..] == SizesOf(c, bs[1..]) + [size];
      var r := Reserve(c, e, SizeOf(c, bs[0]), now);
      if r.Reserved? {
        LoadStep(c, e, bs, now);
        LoadThenScan(c, Bind(r.state, bs[0], r.stripe, r.offset, SizeOf(c, bs[0])), bs[1..], size, now);
      }
    }
  }

  // ----- rearrangement

  /** The unexpired entries fit the emptied stripes by first fit, in list order. */
  predicate Repacks(c: Config, e: State, now: int) {
    Packs(ResetAll(e.pool), SizesOf(c, Alive(Bindings(e.fifo), now)), now, c.policy)
  }

  lemma {:induction false} NeedAlive(c: Config, bs: seq<Binding>, now: int)
    ensures Need(c, Alive(bs, now)) <= Need(c, bs)
  {
    hide EntrySize;
    if bs != [] {
      NeedAlive(c, bs[1..], now);
      if Unexpired(bs[0], now) {
        assert ([bs[0]] + Alive(bs[1..], now))[1..] == Alive(bs[1..], now);
      }
    }
  }

  lemma StartLoading(c: Config, e: State, now: int)
    requires WF(c, e) && !c.recycleValid && e.segs >= c.segMax && FreeBytes(c, e) >= RearrangeFloor(c, e)
    ensures Loading(c, Clear(e), Alive(Bindings(e.fifo), now), now) && Clear(Clear(e)) == Clear(e)
  {
    hide Cut, Queued, Backed, Fits, DoneBusy, DistinctKeys, KeyBytes, ValueBytes, ResetAll, EntrySize, TotalUsed, Need, Alive,
         Unexpired;
    var m := Bindings(e.fifo);
    ClearWF(c, e);
    DistinctUnique(e.fifo);
    AliveUnique(m, now);
    AliveIsAlive(m, now);
    NeedIsTotal(c, e.fifo);
    NeedAlive(c, m, now);
    ResetTwice(e.pool);
    var a := Alive(m, now);
    assert Bindings([]) + a == a;
    forall i | 0 <= i < |a|
      ensures Legal(c, a[i])
    {
      assert a[i] in m;
      var k :| 0 <= k < |m| && m[k] == a[i];
      assert LegalItem(c, e.fifo[k]);
    }
  }

  /** A rearrangement succeeds iff its space check passes and the unexpired entries pack again; failing late, it empties the cache. */
  lemma RearrangeExact(c: Config, e: State, now: int)
    requires WF(c, e) && Ranged(e) && !c.recycleValid && e.segs >= c.segMax
    ensures var r := Rearrange(c, e, now); var checked := FreeBytes(c, e) >= RearrangeFloor(c, e);
      && (r.status == Ok <==> checked && Repacks(c, e, now))
      && (r.status == Ok ==> r == Load(c, Clear(e), Alive(Bindings(e.fifo), now), now))
      && (checked && !Repacks(c, e, now) ==> r.state.fifo == [])
      && (!checked ==> r.state == e)
      && (checked <==>
            (e.alloced - c.common - e.usedEntry >= 64 + c.maxValue + |e.pool.stripes| * c.policy.discard + c.stripeSize))
  {
    hide WF, Ranged, Clear, Load, Loading, Packs, Reinsert, Alive;
    TimesIsProduct(|e.pool.stripes|, c.policy.discard);
    if FreeBytes(c, e) >= RearrangeFloor(c, e) {
      var bs := Alive(Bindings(e.fifo), now);
      StartLoading(c, e, now);
      LoadNone(c, Clear(e), now);
      ReinsertIsLoad(c, Clear(e), bs, now, |e.fifo|);
      LoadIsPacking(c, Clear(e), bs, now);
      ClearPool(e);
      ReinsertFails(c, Clear(e), bs, now, |e.fifo|);
    }
  }

  lemma ClearPool(e: State)
    ensures Clear(e).pool == ResetAll(e.pool)
  {
  }

  lemma LoadNone(c: Config, e: State, now: int)
    requires Ranged(e) && e.fifo == []
    ensures Bindings(e.fifo) == [] && Load(c, e, Bindings(e.fifo), now) == Outcome(e, Ok)
  {
  }

  lemma {:induction false} ReinsertFails(c: Config, e: State, bs: seq<Binding>, now: int, limit: nat)
    requires Ranged(e) && |e.fifo| + |bs| <= limit
    ensures var r := Reinsert(c, e, bs, now, limit); r.status != Ok ==> r.state.fifo == []
    decreases |bs|
  {
    hide Ranged, Set;
    if bs != [] {
      var r := Set(c, e, bs[0], now);
      if r.status == Ok {
        ReinsertFails(c, r.state, bs[1..], now, limit);
      }
    }
  }

  // ----- when the space check suffices

  /** A pool being loaded: nothing released, and stripes outside `doing` have less than `limit` bytes left. */
  ghost predicate Filling(p: Pool, total: nat, limit: nat) {
    && Queued(p)
    && (forall s: nat :: s < |p.stripes| ==>
          var st := p.stripes[s];
          && st.total == total && st.base <= st.free <= st.base + total && st.used == st.free - st.base
          && (s !in p.doing ==> st.FreeSize() < limit))
  }

  lemma {:induction false} UsedAtLeast(a: seq<Stripe>, n: nat)
    requires forall i :: 0 <= i < |a| ==> a[i].used >= n
    ensures TotalUsed(a) >= Times(|a|, n)
  {
    if a != [] {
      UsedAtLeast(a[..|a| - 1], n);
    }
  }

  ghost function Sum(sizes: seq<nat>): nat {
    if sizes == [] then 0 else sizes[0] + Sum(sizes[1..])
  }

  lemma FillStep(p: Pool, total: nat, limit: nat, size: nat, now: int, pol: Policy)
    requires Filling(p, total, limit) && 0 < size <= limit
    ensures var g := Scan(p, 0, size, now, pol);
      && TotalUsed(g.pool.stripes) == TotalUsed(p.stripes) + (if g.Granted? then size else 0)
      && (g.Granted? ==> Filling(g.pool, total, limit))
      && (g.Refused? ==> forall i :: 0 <= i < |p.stripes| ==> p.stripes[i].used > total - limit)
  {
    hide Scan, NoDup, TotalUsed;
    UsedAfterScan(p, size, now, pol);
    ScanSpace(p, 0, size, now, pol);
    ScanQueued(p, 0, size, now, pol);
    var g := Scan(p, 0, size, now, pol);
    if g.Granted? {
      forall s: nat | s < |p.stripes| && s !in g.pool.doing
        ensures g.pool.stripes[s].FreeSize() < limit
      {
        if s in p.doing {
          ScanRetires(p, 0, size, now, pol, s);
        }
      }
    } else {
      RefusedIff(p, size, now, pol);
      forall i | 0 <= i < |p.stripes|
        ensures p.stripes[i].FreeSize() < limit
      {
        if i in p.doing {
          var k :| 0 <= k < |p.doing| && p.doing[k] == i;
        }
      }
    }
  }

  /** Sizes up to `limit` pack if they come to at most `total - limit + 1` bytes per stripe. */
  lemma {:induction false} SmallPacks(p: Pool, total: nat, limit: nat, sizes: seq<nat>, now: int, pol: Policy)
    requires Filling(p, total, limit) && limit <= total && forall i :: 0 <= i < |sizes| ==> 0 < sizes[i] <= limit
    requires TotalUsed(p.stripes) + Sum(sizes) <= Times(|p.stripes|, total - limit + 1)
    ensures InRange(p) && Packs(p, sizes, now, pol)
    decreases |sizes|
  {
    hide Scan, Queued;
    QueuedParts(p);
    if sizes != [] {
      var g := Scan(p, 0, sizes[0], now, pol);
      FillStep(p, total, limit, sizes[0], now, pol);
      if g.Refused? {
        UsedAtLeast(p.stripes, total - limit + 1);
      } else {
        SmallPacks(g.pool, total, limit, sizes[1..], now, pol);
      }
    }
  }

  lemma {:induction false} TimesAdd(n: nat, a: nat, b: nat)
    ensures Times(n, a + b) == Times(n, a) + Times(n, b)
  {
    if n > 0 {
      TimesAdd(n - 1, a, b);
    }
  }

  lemma {:induction false} TimesNested(n: nat, per: nat, size: nat)
    ensures Times(Times(n, per), size) == Times(n, Times(per, size))
  {
    if n > 0 {
      TimesNested(n - 1, per, size);
      TimesSplit(Times(n - 1, per), per, size);
    }
  }

  lemma {:induction false} SumIsNeed(c: Config, bs: seq<Binding>)
    ensures Sum(SizesOf(c, bs)) == Need(c, bs)
  {
    hide EntrySize;
    if bs != [] {
      SumIsNeed(c, bs[1..]);
      assert SizesOf(c, bs)[1..] == SizesOf(c, bs[1..]);
    }
  }

  lemma ResetFilling(c: Config, e: State, limit: nat)
    requires Geometry(c, e)
    ensures Filling(ResetAll(e.pool), c.stripeSize, limit) && TotalUsed(ResetAll(e.pool).stripes) == 0
  {
    hide Times, Before, TotalUsed;
    ResetAllQueued(e.pool);
    ResetAllUsed(e.pool);
    RangeMembers(0, |e.pool.stripes|);
    forall s: nat | s < |e.pool.stripes|
      ensures e.pool.stripes[s].total == c.stripeSize
    {
      StripeTotal(c, e, s);
    }
  }

  /** The space check in terms of stripes, when they fill their segments. */
  lemma CheckedSpace(c: Config, e: State, now: int)
    requires WF(c, e) && FreeBytes(c, e) >= RearrangeFloor(c, e) && c.segSize == Times(c.perSegment, c.stripeSize)
    ensures c.policy.discard < c.stripeSize
    ensures Need(c, Alive(Bindings(e.fifo), now)) <= Times(|e.pool.stripes|, c.stripeSize - c.policy.discard)
  {
    hide Cut, Queued, Backed, Fits, DoneBusy, DistinctKeys, KeyBytes, ValueBytes, TotalUsed, TotalSize, Times, Need, Alive, LegalItems;
    var n, d := |e.pool.stripes|, c.policy.discard;
    NeedIsTotal(c, e.fifo);
    NeedAlive(c, Bindings(e.fifo), now);
    TimesNested(e.segs, c.perSegment, c.stripeSize);
    if d < c.stripeSize {
      TimesAdd(n, c.stripeSize - d, d);
    } else {
      TimesAdd(n, d - c.stripeSize, c.stripeSize);
    }
  }

  /** The space check suffices for entries that are at most one byte larger than what a stripe may waste. */
  lemma CheckSuffices(c: Config, e: State, now: int)
    requires WF(c, e) && Ranged(e) && !c.recycleValid && e.segs >= c.segMax
    requires FreeBytes(c, e) >= RearrangeFloor(c, e) && c.segSize == Times(c.perSegment, c.stripeSize)
    requires forall b :: b in Alive(Bindings(e.fifo), now) ==> SizeOf(c, b) <= c.policy.discard + 1
    ensures Rearrange(c, e, now).status == Ok
  {
    hide WF, Ranged, Rearrange, RearrangeFloor, Alive, Times, Packs, Filling, Sum, Need, TotalUsed;
    var bs := Alive(Bindings(e.fifo), now);
    WFGeometry(c, e);
    CheckedSpace(c, e, now);
    SumIsNeed(c, bs);
    ResetFilling(c, e, c.policy.discard + 1);
    assert forall i :: 0 <= i < |bs| ==> bs[i] in bs;
    SmallPacks(ResetAll(e.pool), c.stripeSize, c.policy.discard + 1, SizesOf(c, bs), now, c.policy);
    RearrangeExact(c, e, now);
  }
}
