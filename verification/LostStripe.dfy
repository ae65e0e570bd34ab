/**
 A run on which the removal as written makes a legal set fail: the stripe that the
 recycler empties left `doing` at a cursor that was not at the head, so it is in
 neither queue.
 */
module LostStripe {
  import opened Stripes
  import opened Scanning
  import opened Engine
  import opened Invariants
  import opened Totality
  import opened Packing
  import opened Sizing

  /** Pages and segments of 4096 bytes, so that a segment is one stripe. */
  const LIMITS: Limits := Limits(16384, 4096, 3960, 4096)

  /** What initialisation makes of these limits, with 250 keys and the default policy. */
  const CFG: Config :=
    assert Times(1, 4096) == 4096;
    Settings(250, 3960, -1, true, 5400, Policy(128, 5, false), 2, 4096, 4096, 1, 5408, 8)

  lemma SegmentIs()
    ensures Sane(LIMITS) && SegmentSize(LIMITS) == 4096
  {
    assert 16384 / 4096 == 4;
    assert (4096 + 4095) / 4096 == 1;
  }

  lemma StripeIs()
    ensures Sane(LIMITS) && StripeSize(LIMITS) == 4096
  {
    hide SegmentSize, AlignUp;
    SegmentIs();
    AlignUpBounds(MB, 4096);
  }

  lemma Divided()
    ensures Sane(LIMITS) && SegmentSize(LIMITS) == 4096 && StripeSize(LIMITS) == 4096
    ensures SegmentCount(LIMITS, 16384) == 4 && SegmentCount(LIMITS, 16384 - 5408) == 2
  {
    hide SegmentSize, StripeSize;
    SegmentIs();
    StripeIs();
  }

  lemma Configured()
    ensures Sane(LIMITS) && Configure(LIMITS, 448, 331, CFG) == Ready(CFG, HtSegment(448, 331, 250, 4))
  {
    hide SegmentSize, StripeSize, SegmentCount;
    Divided();
    TimesIsProduct(2, 1);
  }

  function B(key: Byte, n: nat): Binding { Binding([key], seq(n, _ => 0), 0, 0) }

  const SMALL: Binding := B(1, 1000)
  const LARGE: Binding := B(2, 3960)
  const OTHER: Binding := B(3, 2000)

  function S(s: nat, free: nat, used: int, fails: nat, at: int): Stripe {
    Stripe(s, 0, 4096, free, used, fails, at, false)
  }

  /** The small entry in stripe 0. */
  const AFTER1: State := State([Item(SMALL, 0, 0, 0, 1072)],
    Pool([S(0, 1072, 1072, 0, 5)], [0], [], {}), 1, 1, 1072, 1, 1000, 9504)
  /** The large entry fills stripe 1, of a second segment. */
  const AFTER2: State := State([Item(SMALL, 0, 0, 0, 1072), Item(LARGE, 1, 1, 0, 4032)],
    Pool([S(0, 1072, 1072, 2, 5), S(1, 4032, 4032, 0, 5)], [0, 1], [], {}), 2, 2, 5104, 2, 4960, 13600)
  /** The small entry again: it moves to the tail, so the large one is the oldest. */
  const AFTER3: State := State([Item(LARGE, 1, 1, 0, 4032), Item(SMALL, 0, 0, 1072, 1072)],
    Pool([S(0, 2144, 1072, 2, 5), S(1, 4032, 4032, 0, 5)], [0, 1], [], {}), 2, 2, 5104, 2, 4960, 13600)

  lemma SizeIs(key: Byte, n: nat)
    ensures var b := B(key, 8 * n); SizeOf(CFG, b) == EntrySize(CFG, |b.key|, |b.value|) == 72 + 8 * n
  {
    RoundUpTimes(n, 8);
    TimesIsProduct(n, 8);
  }

  lemma Sizes()
    ensures SizeOf(CFG, SMALL) == EntrySize(CFG, |SMALL.key|, |SMALL.value|) == 1072
    ensures SizeOf(CFG, LARGE) == EntrySize(CFG, |LARGE.key|, |LARGE.value|) == 4032
    ensures SizeOf(CFG, OTHER) == EntrySize(CFG, |OTHER.key|, |OTHER.value|) == 2072
  {
    hide EntrySize, SizeOf;
    SizeIs(1, 125);
    SizeIs(2, 495);
    SizeIs(3, 250);
  }

  /** The largest entry: a key of eight units and a value of `v`. */
  lemma LargestIs(k: nat, v: nat)
    ensures EntrySize(CFG, 8 * k, 8 * v) == 64 + 8 * k + 8 * v
  {
    RoundUpTimes(k, 8);
    TimesIsProduct(k, 8);
    RoundUpTimes(v, 8);
    TimesIsProduct(v, 8);
  }

  lemma AllFit()
    ensures Fits(CFG)
  {
    hide EntrySize, Fits, StripeSize, SegmentSize, Configure;
    Configured();
    LargestIs(8, 495);
    FitsIff(CFG, LIMITS);
  }

  lemma FreshPool()
    ensures Fresh(CFG) == State([], Pool([S(0, 0, 0, 0, 0)], [0], [], {}), 1, 0, 0, 0, 0, 9504)
  {
    assert Fresh(CFG).pool.stripes == [S(0, 0, 0, 0, 0)];
    assert Fresh(CFG).pool.doing == [0];
  }

  lemma FirstSet()
    ensures Set(CFG, Fresh(CFG), SMALL, 5) == Outcome(AFTER1, Ok)
  {
    hide Set, Fresh, Scan, EntrySize, SizeOf;
    Sizes();
    FreshPool();
    FirstScan();
    SetNewKey(CFG, Fresh(CFG), SMALL, 5, AFTER1.pool, 0, 0);
  }

  lemma FirstScan()
    ensures Scan(Pool([S(0, 0, 0, 0, 0)], [0], [], {}), 0, 1072, 5, CFG.policy) == Granted(AFTER1.pool, 0, 0)
  {
    var p := Pool([S(0, 0, 0, 0, 0)], [0], [], {});
    assert p.stripes[0 := p.stripes[0].Bump(1072, 5)] == AFTER1.pool.stripes;
  }

  /** The state in which the second set finds a new segment. */
  const GROWN: Pool := Pool([S(0, 1072, 1072, 1, 5), S(1, 0, 0, 0, 0)], [0, 1], [], {})

  lemma SecondGrow()
    ensures Scan(AFTER1.pool, 0, 4032, 5, CFG.policy) == Refused(AFTER1.pool.(stripes := [S(0, 1072, 1072, 1, 5)]))
    ensures Grow(AFTER1.pool.(stripes := [S(0, 1072, 1072, 1, 5)]), 1, 1, 4096) == GROWN
    ensures Scan(GROWN, 0, 4032, 5, CFG.policy) == Granted(AFTER2.pool, 1, 0)
  {
    var p, q := AFTER1.pool, AFTER1.pool.(stripes := [S(0, 1072, 1072, 1, 5)]);
    assert p.stripes[0 := p.stripes[0].Miss()] == q.stripes;
    assert Passed(p, 0, CFG.policy) == (q, 1);
    assert Scan(p, 0, 4032, 5, CFG.policy) == Scan(q, 1, 4032, 5, CFG.policy);
    assert Grow(q, 1, 1, 4096).stripes == GROWN.stripes && Grow(q, 1, 1, 4096).doing == GROWN.doing;
    var g := GROWN.(stripes := [S(0, 1072, 1072, 2, 5), S(1, 0, 0, 0, 0)]);
    assert GROWN.stripes[0 := GROWN.stripes[0].Miss()] == g.stripes;
    assert Passed(GROWN, 0, CFG.policy) == (g, 1);
    assert Scan(GROWN, 0, 4032, 5, CFG.policy) == Scan(g, 1, 4032, 5, CFG.policy);
    assert g.stripes[1 := g.stripes[1].Bump(4032, 5)] == AFTER2.pool.stripes;
  }

  lemma SecondSet()
    ensures Set(CFG, AFTER1, LARGE, 5) == Outcome(AFTER2, Ok)
  {
    hide EntrySize, SizeOf, Recycle, Rearrange, Scan, Grow;
    Sizes();
    SecondGrow();
    var e := AFTER1.(pool := AFTER1.pool.(stripes := [S(0, 1072, 1072, 1, 5)]));
    var g := e.(pool := GROWN, segs := 2, alloced := 13600);
    assert Reserve(CFG, AFTER1, 4032, 5) == Unreserved(e);
    assert MakeRoom(CFG, e, 5) == Outcome(g, Ok);
    var r := g.(pool := AFTER2.pool, usedEntry := 5104);
    assert Reserve(CFG, g, 4032, 5) == Reserved(r, 1, 0);
    assert Alloc(CFG, AFTER1, 4032, 5) == Reserved(r, 1, 0);
    assert Position(r.fifo, LARGE.key) == 1;
    assert Bind(r, LARGE, 1, 0, 4032) == AFTER2;
  }

  lemma ThirdSet()
    ensures Set(CFG, AFTER2, SMALL, 5) == Outcome(AFTER3, Ok)
  {
    hide EntrySize, SizeOf, MakeRoom, Recycle;
    Sizes();
    var p := AFTER2.pool;
    var q := p.(stripes := [S(0, 2144, 2144, 2, 5), p.stripes[1]]);
    assert p.stripes[0 := p.stripes[0].Bump(1072, 5)] == q.stripes;
    assert Scan(p, 0, 1072, 5, CFG.policy) == Granted(q, 0, 1072);
    var e := AFTER2.(pool := q, usedEntry := 6176);
    assert Reserve(CFG, AFTER2, 1072, 5) == Reserved(e, 0, 1072);
    assert Position(e.fifo, SMALL.key) == 0;
    assert q.stripes[0 := q.stripes[0].(used := 1072)] == AFTER3.pool.stripes;
    assert Evict(e, 0).0.fifo == [Item(LARGE, 1, 1, 0, 4032)];
    assert Bind(e, SMALL, 0, 1072, 1072) == AFTER3;
  }

  const SCANNED: Pool := Pool([S(0, 2144, 1072, 3, 5), S(1, 4032, 4032, 1, 5)], [0], [], {1})
  const RECYCLED: Pool := Pool([S(0, 2144, 1072, 3, 5), S(1, 0, 0, 0, 0)], [0], [], {1})

  /** The scan retires stripe 1 behind stripe 0, and loses it. */
  lemma FourthScan()
    ensures Scan(AFTER3.pool, 0, 2072, 5, CFG.policy) == Refused(SCANNED)
  {
    var p := AFTER3.pool;
    var q := p.(stripes := [S(0, 2144, 1072, 3, 5), p.stripes[1]]);
    assert p.stripes[0 := p.stripes[0].Miss()] == q.stripes;
    assert Passed(p, 0, CFG.policy) == (q, 1);
    var (r, j) := Passed(q, 1, CFG.policy);
    assert r.stripes == SCANNED.stripes && r.doing == [0] && r.lost == {1} && j == 1;
    assert Scan(q, 1, 2072, 5, CFG.policy) == Scan(r, 1, 2072, 5, CFG.policy);
  }

  /** The recycler empties stripe 1 and reports success. */
  lemma FourthRecycle()
    ensures Recycle(CFG, AFTER3.(pool := SCANNED), -1, 5).status == Ok
    ensures Recycle(CFG, AFTER3.(pool := SCANNED), -1, 5).state.pool == RECYCLED
  {
    var e := AFTER3.(pool := SCANNED);
    assert Release(SCANNED, 1, 4032) == (RECYCLED, true) by {
      assert SCANNED.stripes[1 := RECYCLED.stripes[1]] == RECYCLED.stripes;
    }
    assert Evictable(CFG, e.fifo[0].binding, 5);
  }

  lemma RetryFails()
    ensures Scan(RECYCLED, 0, 2072, 5, CFG.policy).Refused?
  {
    RefusedIff(RECYCLED, 2072, 5, CFG.policy);
  }

  /** The fourth set is legal, finds room by recycling, and fails. */
  lemma FourthSetFails()
    ensures Set(CFG, AFTER3, OTHER, 5).status == NoMemory
  {
    hide Scan, EntrySize, SizeOf, Recycle, Rearrange;
    Sizes();
    FourthScan();
    FourthRecycle();
    RetryFails();
    var e := AFTER3.(pool := SCANNED);
    assert Reserve(CFG, AFTER3, 2072, 5) == Unreserved(e);
    assert MakeRoom(CFG, e, 5) == Recycle(CFG, e, -1, 5);
    assert Alloc(CFG, AFTER3, 2072, 5).Unreserved?;
  }

  lemma Premises()
    ensures Legal(CFG, OTHER) && KeysSuffice(CFG, AFTER3)
  {
  }

  /**
   The documented totality fails as written.  The settings are those that
   initialisation computes from a limit of 16384 bytes with segments of 4096; from
   the state it leaves, four legal sets follow, of which the last reports no memory
   although valid entries are recyclable, every entry fits a stripe and the key
   limit is far away.
   */
  lemma TotalityFailsAsWritten()
    ensures Sane(LIMITS) && Configure(LIMITS, 448, 331, CFG) == Ready(CFG, HtSegment(448, 331, 250, 4))
    ensures WF(CFG, Fresh(CFG)) && Fits(CFG) && CFG.recycleValid
    ensures Legal(CFG, OTHER) && KeysSuffice(CFG, AFTER3)
    ensures Set(CFG, Fresh(CFG), SMALL, 5) == Outcome(AFTER1, Ok)
    ensures Set(CFG, AFTER1, LARGE, 5) == Outcome(AFTER2, Ok)
    ensures Set(CFG, AFTER2, SMALL, 5) == Outcome(AFTER3, Ok)
    ensures Set(CFG, AFTER3, OTHER, 5).status == NoMemory
  {
    hide Set, WF, Fresh, Fits, Configure, Divide, Times, SegmentSize, StripeSize, HtSegment, SegmentSetting, EntrySize, Legal,
         KeysSuffice;
    Configured();
    Premises();
    AllFit();
    FreshWF(CFG);
    FirstSet();
    SecondSet();
    ThirdSet();
    FourthSetFails();
  }
}
