/**
 Entries stay where they are: an operation that does not rearrange leaves every
 entry that it does not replace, delete or evict in its place.
 */
module Stability {
  import opened Seqs
  import opened Stripes
  import opened Engine
  import opened Accounting
  import opened Invariants
  import opened Recycling
  import opened OrderedMap
  import opened Refinement

  /**
   The allocation rearranges: nothing queued has room, no segment may be added, no
   stripe can be freed by expiry, and the space free of unexpired entries passes the
   floor.
   */
  ghost predicate AllocRearranges(c: Config, e: State, size: nat, now: int)
    requires Ranged(e)
  {
    && !c.recycleValid && e.segs >= c.segMax && RoomFor(c, e, size, now) != Ample
    && (forall s: nat :: !Freeable(c, e.fifo, s, now))
    && e.alloced - (c.common + TotalSize(Spared(c, e.fifo, now))) >= RearrangeFloor(c, e)
  }

  /** A set rearranges iff the key limit lets it pass and its allocation does. */
  ghost predicate Rearranges(c: Config, e: State, b: Binding, now: int)
    requires Ranged(e)
  {
    && Legal(c, b) && (e.count >= c.maxKeys ==> Recycle(c, e, c.recycleKeyOnce, now).status == Ok)
    && AllocRearranges(c, Vacated(c, e, now), EntrySize(c, |b.key|, |b.value|), now)
  }

  /** `b` holds entries of `a` in their places, and all but evictable ones. */
  ghost predicate InPlace(c: Config, a: seq<Item>, b: seq<Item>, now: int) {
    && (forall x :: x in b ==> x in a)
    && (forall x :: x in a ==> x in b || Evictable(c, x.binding, now))
  }

  lemma {:induction false} RecycleInPlace(c: Config, e: State, pos: nat, cleared: nat, keys: int, now: int)
    requires Ranged(e) && pos <= |e.fifo|
    ensures InPlace(c, e.fifo, RecycleFrom(c, e, pos, cleared, keys, now).state.fifo, now)
    decreases |e.fifo| - pos
  {
    hide Ranged, Evictable;
    if pos < |e.fifo| {
      if !Evictable(c, e.fifo[pos].binding, now) {
        RecycleInPlace(c, e, pos + 1, cleared, keys, now);
      } else {
        EvictRanged(e, pos);
        RecycleInPlace(c, Evict(e, pos).0, pos, cleared + 1, keys, now);
        RemoveAtAmong(e.fifo, pos);
      }
    }
  }

  lemma RemoveAtAmong(s: seq<Item>, k: nat)
    requires k < |s|
    ensures forall x :: x in RemoveAt(s, k) ==> x in s
    ensures forall x :: x in s && x != s[k] ==> x in RemoveAt(s, k)
  {
    forall x | x in s && x != s[k]
      ensures x in RemoveAt(s, k)
    {
      var i :| 0 <= i < |s| && s[i] == x;
      assert RemoveAt(s, k)[if i < k then i else i - 1] == x;
    }
  }

  /** The code's guard is the one read off the state before the scan. */
  lemma GuardIff(c: Config, e: State, size: nat, now: int)
    requires WF(c, e) && Ranged(e)
    requires var first := Reserve(c, e, size, now).state; WF(c, first)
    requires RoomFor(c, e, size, now) != Ample && !c.recycleValid && e.segs >= c.segMax
    ensures var first := Reserve(c, e, size, now).state; var r := Recycle(c, first, -1, now);
      r.status != Ok && FreeBytes(c, r.state) >= RearrangeFloor(c, r.state) <==> AllocRearranges(c, e, size, now)
  {
    hide Queued, Backed, Fits, DoneBusy, Cut, Table, Scan, Ranged, RecycleFrom, Freeable, Spared, TotalSize, TotalUsed, RoomFor, Times;
    var first := Reserve(c, e, size, now).state;
    var z := RecycleStripeExact(c, first, -1, now);
    var r := Recycle(c, first, -1, now);
    RecycleKeepsWF(c, first, -1, now);
    if r.status != Ok {
      assert e.fifo[..|e.fifo|] == e.fifo;
      assert r.state.fifo == Spared(c, e.fifo, now);
    }
  }

  /** Without a rearrangement, the allocation moves nothing. */
  lemma AllocInPlace(c: Config, e: State, b: Binding, size: nat, now: int)
    requires WF(c, e) && Ranged(e) && Legal(c, b) && size == EntrySize(c, |b.key|, |b.value|)
    requires !AllocRearranges(c, e, size, now)
    ensures InPlace(c, e.fifo, Alloc(c, e, size, now).state.fifo, now)
  {
    hide WF, Ranged, RecycleFrom, Reserve, ShouldRecycle, RoomFor, AllocRearranges, Legal, EntrySize, RearrangeFloor, Evictable;
    RoomDecides(c, e, size, now);
    var first := Reserve(c, e, size, now);
    if first.Unreserved? {
      ReserveKeeps(c, e, b, size, now);
      ReserveSegs(c, e, size, now);
      if !c.recycleValid && e.segs >= c.segMax {
        GuardIff(c, e, size, now);
      }
      MakeRoomInPlace(c, first.state, now);
    }
  }

  lemma MakeRoomInPlace(c: Config, e: State, now: int)
    requires Ranged(e)
    requires var r := Recycle(c, e, -1, now);
      c.recycleValid || e.segs < c.segMax || r.status == Ok || FreeBytes(c, r.state) < RearrangeFloor(c, r.state)
    ensures InPlace(c, e.fifo, MakeRoom(c, e, now).state.fifo, now)
  {
    hide Ranged, RecycleFrom, ShouldRecycle, RearrangeFloor, Evictable;
    RecycleInPlace(c, e, 0, 0, -1, now);
    var r := Recycle(c, e, -1, now);
    if FreeBytes(c, r.state) < RearrangeFloor(c, r.state) {
      assert Rearrange(c, r.state, now).state == r.state;
    }
  }

  lemma ReserveSegs(c: Config, e: State, size: nat, now: int)
    requires Ranged(e)
    ensures Reserve(c, e, size, now).state.segs == e.segs
  {
  }

  /** A set that does not rearrange: every other key's entry stays in its place, or goes if it may be evicted. */
  lemma SetInPlace(c: Config, e: State, b: Binding, now: int)
    requires WF(c, e) && Ranged(e) && !Rearranges(c, e, b, now)
    ensures var f := Set(c, e, b, now).state.fifo;
      && (forall x :: x in f && x.binding.key != b.key ==> x in e.fifo)
      && (forall x :: x in e.fifo && x.binding.key != b.key ==> x in f || Evictable(c, x.binding, now))
  {
    hide WF, Ranged, RecycleFrom, Alloc, EntrySize, Position, AllocRearranges, Evictable;
    if Legal(c, b) {
      RecycleInPlace(c, e, 0, 0, c.recycleKeyOnce, now);
      RecycleKeepsWF(c, e, c.recycleKeyOnce, now);
      if e.count < c.maxKeys || Recycle(c, e, c.recycleKeyOnce, now).status == Ok {
        var size, v := EntrySize(c, |b.key|, |b.value|), Vacated(c, e, now);
        AllocInPlace(c, v, b, size, now);
        var r := Alloc(c, v, size, now);
        if r.Reserved? && Position(r.state.fifo, b.key) < |r.state.fifo| {
          RemoveAtAmong(r.state.fifo, Position(r.state.fifo, b.key));
        }
      }
    }
  }

  // ----- any operation

  /** The operation gives the key a new entry, or none. */
  predicate Replaces(op: Op, key: Bytes) {
    match op
    case OpSet(b) => b.key == key
    case OpGet(_) => false
    case OpDelete(k) => k == key
    case OpSetExpires(_, _) => false
    case OpClear => true
  }

  ghost predicate Moves(c: Config, e: State, op: Op, now: int)
    requires Ranged(e)
  {
    op.OpSet? && Rearranges(c, e, op.binding, now)
  }

  /** The same entry up to its expiry: same key, value, place and size. */
  ghost predicate SameEntry(x: Item, y: Item) {
    y == x.(binding := x.binding.(expires := y.binding.expires))
  }

  ghost predicate Stays(x: Item, f: seq<Item>) {
    exists y :: y in f && SameEntry(x, y)
  }

  /** The key was evicted: its entry could be taken, and no entry has the key any more. */
  ghost predicate Evicted(c: Config, x: Item, op: Op, now: int, f: seq<Item>) {
    op.OpSet? && Evictable(c, x.binding, now) && Lacks(Bindings(f), x.binding.key)
  }

  /** An entry stays in its place until its key is replaced, deleted or evicted, or the cache is rearranged. */
  lemma StepInPlace(c: Config, e: State, op: Op, now: int, x: Item)
    requires WF(c, e) && Ranged(e) && x in e.fifo && !Replaces(op, x.binding.key) && !Moves(c, e, op, now)
    ensures var f := Step(c, e, op, now).0.fifo; Stays(x, f) || Evicted(c, x, op, now, f)
  {
    hide Core, LegalItems, Ranged, Set, Position, Rearranges, Evict, KeyBytes, ValueBytes, Evictable;
    var f := Step(c, e, op, now).0.fifo;
    match op
    case OpSet(b) =>
      SetInPlace(c, e, b, now);
      if x in f {
        assert SameEntry(x, x);
      } else {
        forall i | 0 <= i < |f|
          ensures f[i].binding.key != x.binding.key
        {
          if f[i].binding.key == x.binding.key {
            assert f[i] in f;
            DistinctSame(e.fifo, f[i], x);
          }
        }
      }
    case OpGet(_) => assert SameEntry(x, x);
    case OpDelete(key) =>
      if Position(e.fifo, key) < |e.fifo| {
        RemoveAtAmong(e.fifo, Position(e.fifo, key));
      }
      assert SameEntry(x, x);
    case OpSetExpires(key, t) =>
      var k :| 0 <= k < |e.fifo| && e.fifo[k] == x;
      assert |f| == |e.fifo| && SameEntry(x, f[k]);
    case OpClear =>
  }

  lemma DistinctSame(items: seq<Item>, x: Item, y: Item)
    requires DistinctKeys(items) && x in items && y in items && x.binding.key == y.binding.key
    ensures x == y
  {
    var i :| 0 <= i < |items| && items[i] == x;
    var j :| 0 <= j < |items| && items[j] == y;
    assert i == j;
  }

  /** No step of the run replaces, evicts or moves the entry of the key. */
  ghost predicate Undisturbed(c: Config, e: State, ops: seq<Timed>, key: Bytes)
    requires Ranged(e)
    decreases |ops|
  {
    ops != [] ==>
      var t := ops[0]; var e' := Step(c, e, t.op, t.now).0;
      && !Replaces(t.op, key) && !Moves(c, e, t.op, t.now) && !Lacks(Bindings(e'.fifo), key)
      && Undisturbed(c, e', ops[1..], key)
  }

  /** Over every run, an entry that nothing disturbs keeps its place. */
  lemma {:induction false} RunInPlace(c: Config, e: State, ops: seq<Timed>, x: Item)
    requires WF(c, e) && Ranged(e) && x in e.fifo && Undisturbed(c, e, ops, x.binding.key)
    ensures Stays(x, Run(c, e, ops)[|ops|].fifo)
    decreases |ops|
  {
    hide WF, Ranged, Step, Replaces, Moves, Lacks, Evictable;
    if ops == [] {
      assert SameEntry(x, x);
    } else {
      var t := ops[0];
      var e' := Step(c, e, t.op, t.now).0;
      StepInPlace(c, e, t.op, t.now, x);
      StepWF(c, e, t.op, t.now);
      var y :| y in e'.fifo && SameEntry(x, y);
      RunInPlace(c, e', ops[1..], y);
      var f := Run(c, e', ops[1..])[|ops| - 1].fifo;
      assert f == Run(c, e, ops)[|ops|].fifo;
      var z :| z in f && SameEntry(y, z);
      assert SameEntry(x, z);
    }
  }
}
