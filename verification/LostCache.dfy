/**
 A run on which a rearrangement passes its space check and still loses the whole
 cache: the unexpired entries, placed again in list order, do not pack into the
 stripes that held them.  The removal is the documented one.
 */
module LostCache {
  import opened Stripes
  import opened Scanning
  import opened Engine
  import opened Accounting
  import opened Invariants
  import opened Recycling
  import opened OrderedMap
  import opened Refinement
  import opened Stability
  import opened Packing
  import opened Service
  import opened Sizing

  /** A segment just below two megabytes is one stripe of a megabyte and a remainder that nothing uses. */
  const LIMITS: Limits := Limits(5000000, 2093056, 524288, 4096)

  const CFG: Config :=
    assert Times(1, 1048576) == 1048576;
    Settings(250, 524288, -1, false, 5400, Policy(128, 5, true), 2, 2093056, 1048576, 1, 5264, 8)

  lemma Divided()
    ensures Sane(LIMITS) && SegmentSize(LIMITS) == 2093056 && StripeSize(LIMITS) == 1048576
    ensures SegmentCount(LIMITS, 5000000) == 2 && SegmentCount(LIMITS, 5000000 - 5264) == 2
  {
  }

  lemma Configured()
    ensures Sane(LIMITS) && Configure(LIMITS, 448, 331, CFG) == Ready(CFG, HtSegment(448, 331, 250, 2))
  {
    hide SegmentSize, StripeSize, SegmentCount;
    Divided();
    TimesIsProduct(2, 1);
  }

  function B(key: Byte, n: nat): Binding { Binding([key], seq(n, _ => 0), 0, 0) }

  const FILLER: Binding := B(9, 524288)
  const A: Binding := B(1, 524160)
  const SMALL: Binding := B(2, 48)
  const C: Binding := B(3, 524288)
  const D: Binding := B(4, 524160)
  const NEW: Binding := B(5, 524288)

  lemma SizeIs(key: Byte, n: nat)
    ensures SizeOf(CFG, B(key, 8 * n)) == 72 + 8 * n
  {
    RoundUpTimes(n, 8);
    TimesIsProduct(n, 8);
  }

  lemma Sizes()
    ensures SizeOf(CFG, FILLER) == SizeOf(CFG, C) == SizeOf(CFG, NEW) == 524360
    ensures SizeOf(CFG, A) == SizeOf(CFG, D) == 524232 && SizeOf(CFG, SMALL) == 120
  {
    hide EntrySize;
    SizeIs(9, 65536);
    SizeIs(3, 65536);
    SizeIs(5, 65536);
    SizeIs(1, 65520);
    SizeIs(4, 65520);
    SizeIs(2, 6);
  }

  function S(s: nat, free: nat, used: int, fails: nat, at: int): Stripe {
    Stripe(s, 0, 1048576, free, used, fails, at, false)
  }

  function Two(a: Stripe, b: Stripe): Pool { Pool([a, b], [0, 1], [], {}) }

  // ----- scans of one or two stripes

  lemma ScanFirst(p: Pool, size: nat)
    requires InRange(p) && p.doing != [] && p.doing[0] == 0 && p.stripes[0].FreeSize() >= size
    ensures Scan(p, 0, size, 5, CFG.policy)
         == Granted(p.(stripes := p.stripes[0 := p.stripes[0].Bump(size, 5)]), 0, p.stripes[0].free)
  {
  }

  lemma PassFirst(p: Pool, size: nat)
    requires InRange(p) && p.doing != [] && p.doing[0] == 0 && p.stripes[0].FreeSize() < size
    requires !Discards(p.stripes[0].Miss(), CFG.policy)
    ensures Scan(p, 0, size, 5, CFG.policy) == Scan(p.(stripes := p.stripes[0 := p.stripes[0].Miss()]), 1, size, 5, CFG.policy)
  {
  }

  lemma ScanSecond(a: Stripe, b: Stripe, size: nat)
    requires a.FreeSize() < size <= b.FreeSize() && !Discards(a.Miss(), CFG.policy)
    ensures Scan(Two(a, b), 0, size, 5, CFG.policy) == Granted(Two(a.Miss(), b.Bump(size, 5)), 1, b.free)
  {
    hide Scan, Discards;
    PassFirst(Two(a, b), size);
    var q := Two(a.Miss(), b);
    assert Two(a, b).stripes[0 := a.Miss()] == q.stripes;
    ServeAt(q, size);
    assert q.stripes[1 := b.Bump(size, 5)] == [a.Miss(), b.Bump(size, 5)];
  }

  lemma ServeAt(p: Pool, size: nat)
    requires InRange(p) && |p.doing| == 2 && p.doing[1] == 1 && p.stripes[1].FreeSize() >= size
    ensures Scan(p, 1, size, 5, CFG.policy)
         == Granted(p.(stripes := p.stripes[1 := p.stripes[1].Bump(size, 5)]), 1, p.stripes[1].free)
  {
  }

  // ----- the run

  const E1: State := State([Item(FILLER, 0, 0, 0, 524360)],
    Pool([S(0, 524360, 524360, 0, 5)], [0], [], {}), 1, 1, 524360, 1, 524288, 2098320)
  const E2: State := State([Item(FILLER, 0, 0, 0, 524360), Item(A, 1, 1, 0, 524232)],
    Two(S(0, 524360, 524360, 2, 5), S(1, 524232, 524232, 0, 5)), 2, 2, 1048592, 2, 1048448, 4191376)
  const E3: State := State([Item(A, 1, 1, 0, 524232)],
    Two(S(0, 0, 0, 0, 0), S(1, 524232, 524232, 0, 5)), 2, 1, 524232, 1, 524160, 4191376)
  const E4: State := State([Item(A, 1, 1, 0, 524232), Item(SMALL, 0, 0, 0, 120)],
    Two(S(0, 120, 120, 0, 5), S(1, 524232, 524232, 0, 5)), 2, 2, 524352, 2, 524208, 4191376)
  const E5: State := State([Item(A, 1, 1, 0, 524232), Item(SMALL, 0, 0, 0, 120), Item(C, 0, 0, 120, 524360)],
    Two(S(0, 524480, 524480, 0, 5), S(1, 524232, 524232, 0, 5)), 2, 3, 1048712, 3, 1048496, 4191376)
  const E6: State := State(
    [Item(A, 1, 1, 0, 524232), Item(SMALL, 0, 0, 0, 120), Item(C, 0, 0, 120, 524360), Item(D, 1, 1, 524232, 524232)],
    Two(S(0, 524480, 524480, 1, 5), S(1, 1048464, 1048464, 0, 5)), 2, 4, 1572944, 4, 1572656, 4191376)

  lemma FreshPool()
    ensures Fresh(CFG) == State([], Pool([S(0, 0, 0, 0, 0)], [0], [], {}), 1, 0, 0, 0, 0, 2098320)
  {
    assert Fresh(CFG).pool.stripes == [S(0, 0, 0, 0, 0)];
    assert Fresh(CFG).pool.doing == [0];
  }

  lemma Step1()
    ensures Set(CFG, Fresh(CFG), FILLER, 5) == Outcome(E1, Ok)
  {
    hide Set, Fresh, Scan, EntrySize;
    Sizes();
    FreshPool();
    var p := Pool([S(0, 0, 0, 0, 0)], [0], [], {});
    ScanFirst(p, 524360);
    assert p.stripes[0 := p.stripes[0].Bump(524360, 5)] == E1.pool.stripes;
    SetNewKey(CFG, Fresh(CFG), FILLER, 5, E1.pool, 0, 0);
  }

  /** The second set has to create a segment. */
  lemma Step2()
    ensures Set(CFG, E1, A, 5) == Outcome(E2, Ok)
  {
    hide Scan, Grow, Recycle, Rearrange, EntrySize, Bind, SizeOf;
    Sizes();
    var p, q := E1.pool, Pool([S(0, 524360, 524360, 1, 5)], [0], [], {});
    var g := Two(S(0, 524360, 524360, 1, 5), S(1, 0, 0, 0, 0));
    PassFirst(p, 524232);
    assert p.stripes[0 := p.stripes[0].Miss()] == q.stripes;
    ScanEnd(q, 524232);
    GrowOne(q);
    ScanSecond(S(0, 524360, 524360, 1, 5), S(1, 0, 0, 0, 0), 524232);
    var e := E1.(pool := q);
    var e' := e.(pool := g, segs := 2, alloced := 4191376);
    var r := e'.(pool := E2.pool, usedEntry := 1048592);
    assert Reserve(CFG, E1, 524232, 5) == Unreserved(e);
    assert MakeRoom(CFG, e, 5) == Outcome(e', Ok);
    assert Reserve(CFG, e', 524232, 5) == Reserved(r, 1, 0);
    assert Alloc(CFG, E1, 524232, 5) == Reserved(r, 1, 0);
    BindNew(r, A, 1, 0, 524232);
    assert Append(r, NewItem(r.pool, A, 1, 0, 524232)) == E2;
    assert EntrySize(CFG, |A.key|, |A.value|) == 524232 by {
      assert SizeOf(CFG, A) == EntrySize(CFG, |A.key|, |A.value|) by { SizeUnfolds(A); }
    }
  }

  lemma SizeUnfolds(b: Binding)
    ensures SizeOf(CFG, b) == EntrySize(CFG, |b.key|, |b.value|)
  {
  }

  lemma ScanEnd(p: Pool, size: nat)
    requires InRange(p) && |p.doing| == 1
    ensures Scan(p, 1, size, 5, CFG.policy) == Refused(p)
  {
  }

  lemma GrowOne(q: Pool)
    requires q == Pool([S(0, 524360, 524360, 1, 5)], [0], [], {})
    ensures Grow(q, 1, 1, 1048576) == Two(S(0, 524360, 524360, 1, 5), S(1, 0, 0, 0, 0))
  {
    assert Grow(q, 1, 1, 1048576).stripes == [S(0, 524360, 524360, 1, 5), S(1, 0, 0, 0, 0)];
    assert Grow(q, 1, 1, 1048576).doing == [0, 1];
  }

  /** The filler goes, and its stripe is empty. */
  lemma Step3()
    ensures Delete(E2, FILLER.key) == Outcome(E3, Ok)
  {
    assert Position(E2.fifo, FILLER.key) == 0;
    assert E2.pool.stripes[0 := S(0, 0, 0, 0, 0)] == E3.pool.stripes;
    assert Release(E2.pool, 0, 524360) == (E3.pool, true);
    assert Evict(E2, 0).0.fifo == E3.fifo;
  }

  lemma Step4()
    ensures Set(CFG, E3, SMALL, 5) == Outcome(E4, Ok)
  {
    hide Set, Scan, EntrySize;
    Sizes();
    ScanFirst(E3.pool, 120);
    assert E3.pool.stripes[0 := E3.pool.stripes[0].Bump(120, 5)] == E4.pool.stripes;
    SetNewKey(CFG, E3, SMALL, 5, E4.pool, 0, 0);
  }

  lemma Step5()
    ensures Set(CFG, E4, C, 5) == Outcome(E5, Ok)
  {
    hide Set, Scan, EntrySize;
    Sizes();
    ScanFirst(E4.pool, 524360);
    assert E4.pool.stripes[0 := E4.pool.stripes[0].Bump(524360, 5)] == E5.pool.stripes;
    SetNewKey(CFG, E4, C, 5, E5.pool, 0, 120);
  }

  lemma Step6()
    ensures Set(CFG, E5, D, 5) == Outcome(E6, Ok)
  {
    hide Set, Scan, EntrySize;
    Sizes();
    ScanSecond(E5.pool.stripes[0], E5.pool.stripes[1], 524232);
    SetNewKey(CFG, E5, D, 5, E6.pool, 1, 524232);
  }

  // ----- the last set

  const P0: Pool := Two(S(0, 0, 0, 0, 0), S(1, 0, 0, 0, 0))
  const P1: Pool := Two(S(0, 524232, 524232, 0, 5), S(1, 0, 0, 0, 0))
  const P2: Pool := Two(S(0, 524352, 524352, 0, 5), S(1, 0, 0, 0, 0))
  const P3: Pool := Two(S(0, 524352, 524352, 1, 5), S(1, 524360, 524360, 0, 5))

  lemma FirstAgain(rest: seq<nat>)
    ensures Packs(P0, [524232] + rest, 5, CFG.policy) == Packs(P1, rest, 5, CFG.policy)
  {
    hide Scan, Packs;
    ScanFirst(P0, 524232);
    assert P0.stripes[0 := P0.stripes[0].Bump(524232, 5)] == P1.stripes;
    PacksCons(P0, 524232, rest, P1);
  }

  lemma SecondAgain(rest: seq<nat>)
    ensures Packs(P1, [120] + rest, 5, CFG.policy) == Packs(P2, rest, 5, CFG.policy)
  {
    hide Scan, Packs;
    ScanFirst(P1, 120);
    assert P1.stripes[0 := P1.stripes[0].Bump(120, 5)] == P2.stripes;
    PacksCons(P1, 120, rest, P2);
  }

  lemma ThirdAgain(rest: seq<nat>)
    ensures Packs(P2, [524360] + rest, 5, CFG.policy) == Packs(P3, rest, 5, CFG.policy)
  {
    hide Scan, Packs;
    ScanSecond(P2.stripes[0], P2.stripes[1], 524360);
    PacksCons(P2, 524360, rest, P3);
  }

  lemma FourthStuck()
    ensures !Packs(P3, [524232], 5, CFG.policy)
  {
    hide Scan, Packs;
    RefusedIff(P3, 524232, 5, CFG.policy);
    PacksStuck(P3, 524232);
  }

  /** Placed in list order, the last of the four entries finds no room. */
  lemma NotAgain()
    ensures !Packs(P0, [524232] + ([120] + ([524360] + [524232])), 5, CFG.policy)
  {
    hide Packs, Two, S;
    FirstAgain([120] + ([524360] + [524232]));
    SecondAgain([524360] + [524232]);
    ThirdAgain([524232]);
    FourthStuck();
  }

  lemma PacksCons(p: Pool, size: nat, rest: seq<nat>, q: Pool)
    requires InRange(p) && InRange(q)
    requires Scan(p, 0, size, 5, CFG.policy).Granted? && Scan(p, 0, size, 5, CFG.policy).pool == q
    ensures Packs(p, [size] + rest, 5, CFG.policy) == Packs(q, rest, 5, CFG.policy)
  {
    assert ([size] + rest)[1..] == rest;
  }

  lemma PacksStuck(p: Pool, size: nat)
    requires InRange(p) && Scan(p, 0, size, 5, CFG.policy).Refused?
    ensures !Packs(p, [size], 5, CFG.policy)
  {
  }

  lemma AllStay()
    ensures Spared(CFG, E6.fifo, 5) == E6.fifo && Alive(Bindings(E6.fifo), 5) == Bindings(E6.fifo)
    ensures forall s: nat :: !Freeable(CFG, E6.fifo, s, 5)
  {
    AllAliveIsAlive(Bindings(E6.fifo), 5);
    NoneEvictable(CFG, E6.fifo, 5);
  }

  lemma {:induction false} NoneEvictable(c: Config, items: seq<Item>, now: int)
    requires !c.recycleValid && forall i :: 0 <= i < |items| ==> Unexpired(items[i].binding, now)
    ensures Spared(c, items, now) == items
  {
    if items != [] {
      NoneEvictable(c, items[..|items| - 1], now);
    }
  }

  lemma LastRearranges()
    requires WF(CFG, E6) && Ranged(E6)
    ensures Rearranges(CFG, E6, NEW, 5) && Vacated(CFG, E6, 5) == E6
  {
    hide Core, LegalItems, DistinctKeys, KeyBytes, ValueBytes, Ranged, Recycle, Spared, Freeable, EntrySize, RecycleDue;
    Sizes();
    SizeUnfolds(NEW);
    AllStay();
    UsedTotal(CFG, E6);
    assert Times(2, 128) == 256;
    assert NoRoom(E6.pool, 524360);
  }

  lemma UsedTotal(c: Config, e: State)
    requires WF(c, e)
    ensures TotalSize(e.fifo) == e.usedEntry
  {
  }

  lemma LastRepacks()
    ensures !Repacks(CFG, E6, 5)
  {
    hide Packs, EntrySize, SizeOf;
    Sizes();
    AllStay();
    NotAgain();
    assert ResetAll(E6.pool).stripes == P0.stripes && ResetAll(E6.pool).doing == P0.doing;
    assert SizesOf(CFG, Bindings(E6.fifo)) == [524232] + ([120] + ([524360] + [524232]));
  }

  lemma RunWF()
    ensures WF(CFG, E6) && Ranged(E6)
  {
    hide WF, Set, Delete, Fresh;
    FreshWF(CFG);
    WFRanged(CFG, Fresh(CFG));
    Step1();
    SetWF(CFG, Fresh(CFG), FILLER, 5);
    WFRanged(CFG, E1);
    Step2();
    SetWF(CFG, E1, A, 5);
    WFRanged(CFG, E2);
    Step3();
    StepWF(CFG, E2, OpDelete(FILLER.key), 5);
    WFRanged(CFG, E3);
    Step4();
    SetWF(CFG, E3, SMALL, 5);
    WFRanged(CFG, E4);
    Step5();
    SetWF(CFG, E4, C, 5);
    WFRanged(CFG, E5);
    Step6();
    SetWF(CFG, E5, D, 5);
    WFRanged(CFG, E6);
  }

  /**
   The space check does not protect the cache.  With settings that initialisation
   computes and from the state it leaves, after six operations four unexpired
   entries are stored; the next legal set rearranges, reports no memory, and leaves
   an empty cache.
   */
  lemma CheckedRearrangementLosesAll()
    ensures Sane(LIMITS) && Configure(LIMITS, 448, 331, CFG) == Ready(CFG, HtSegment(448, 331, 250, 2))
    ensures Set(CFG, Fresh(CFG), FILLER, 5) == Outcome(E1, Ok)
    ensures Set(CFG, E1, A, 5) == Outcome(E2, Ok)
    ensures Delete(E2, FILLER.key) == Outcome(E3, Ok)
    ensures Set(CFG, E3, SMALL, 5) == Outcome(E4, Ok)
    ensures Set(CFG, E4, C, 5) == Outcome(E5, Ok)
    ensures Set(CFG, E5, D, 5) == Outcome(E6, Ok)
    ensures Ranged(E6) && Rearranges(CFG, E6, NEW, 5) && |E6.fifo| == 4
    ensures Set(CFG, E6, NEW, 5).status == NoMemory && Set(CFG, E6, NEW, 5).state.fifo == []
  {
    hide Set, Delete, WF, Ranged, Fresh, Configure, Divide, Times, SegmentSize, StripeSize, HtSegment, SegmentSetting, Rearranges,
         Repacks, Vacated;
    Configured();
    Step1();
    Step2();
    Step3();
    Step4();
    Step5();
    Step6();
    RunWF();
    LastRearranges();
    LastRepacks();
    RearrangingSet(CFG, E6, NEW, 5);
  }
}
