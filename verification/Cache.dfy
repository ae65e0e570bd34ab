/**
 The cache engine in place: hash chains, FIFO list, entry memory and stripe pool,
 updated step by step as the C code does.  Every method is proved against the
 function of the same purpose on the abstract state.
 */
module Cache {
  import opened Seqs
  import opened Stripes
  import opened Engine
  import opened Accounting
  import opened Invariants
  import opened Placement
  import opened Offsets
  import opened Listing
  import EntryStore
  import FifoList
  import HashIndex
  import StripePool

  type Store = EntryStore.EntryStore
  type List = FifoList.FifoList
  type Index = HashIndex.HashIndex
  type Allocators = StripePool.StripePool

  // ----- the abstraction on values

  /** The offsets in the list are those of the live entries. */
  ghost predicate Listed(elems: seq<int>, at: map<int, Item>) {
    (forall i :: 0 <= i < |elems| ==> elems[i] in at) && (forall o :: o in at ==> o in elems)
  }

  /** The entries in list order. */
  ghost function ItemsOf(elems: seq<int>, at: map<int, Item>): (r: seq<Item>)
    requires Listed(elems, at)
    ensures |r| == |elems|
    ensures forall i :: 0 <= i < |r| ==> r[i] == at[elems[i]]
  {
    seq(|elems|, i requires 0 <= i < |elems| => at[elems[i]])
  }

  /** Memory holds every live entry at its offset. */
  ghost predicate AllStored(c: Config, hdr: map<int, EntryStore.Header>, segs: seq<Bytes>, at: map<int, Item>) {
    forall o :: o in at ==> EntryStore.Word(at[o]) == o && EntryStore.Stored(c, hdr, segs, o, at[o])
  }

  lemma ListedWithout(elems: seq<int>, at: map<int, Item>, k: nat)
    requires Listed(elems, at) && NoDup(elems) && k < |elems|
    ensures elems[k] in at && Listed(RemoveAt(elems, k), at - {elems[k]})
  {
    RemoveAtMembers(elems, k);
    var r, at' := RemoveAt(elems, k), at - {elems[k]};
    forall i | 0 <= i < |r|
      ensures r[i] in at'
    {
      assert r[i] in r;
    }
  }

  lemma ListedRemove(elems: seq<int>, at: map<int, Item>, k: nat)
    requires Listed(elems, at) && NoDup(elems) && k < |elems|
    ensures elems[k] in at && Without(elems, elems[k]) == RemoveAt(elems, k)
    ensures Listed(RemoveAt(elems, k), at - {elems[k]})
    ensures ItemsOf(RemoveAt(elems, k), at - {elems[k]}) == RemoveAt(ItemsOf(elems, at), k)
  {
    ListedWithout(elems, at, k);
    assert elems[k] !in elems[..k];
    WithoutIsRemoveAt(elems, elems[k], k);
    hide Listed, NoDup, Without, RemoveAt, ItemsOf;
    var s, t := ItemsOf(RemoveAt(elems, k), at - {elems[k]}), RemoveAt(ItemsOf(elems, at), k);
    forall i | 0 <= i < |s|
      ensures s[i] == t[i]
    {
      assert RemoveAt(elems, k)[i] == elems[if i < k then i else i + 1];
    }
  }

  lemma ListedKeys(elems: seq<int>, at: map<int, Item>)
    requires Listed(elems, at)
    ensures forall o :: o in elems <==> o in at
  {
  }

  lemma ListedNone(c: Config, hdr: map<int, EntryStore.Header>, segs: seq<Bytes>)
    ensures Listed([], map[]) && ItemsOf([], map[]) == [] && AllStored(c, hdr, segs, map[])
  {
  }

  lemma ListedAppend(elems: seq<int>, at: map<int, Item>, o: int, x: Item)
    requires Listed(elems, at) && o !in at
    ensures Listed(elems + [o], at[o := x])
    ensures ItemsOf(elems + [o], at[o := x]) == ItemsOf(elems, at) + [x]
  {
    forall y | y in at[o := x]
      ensures y in elems + [o]
    {
      assert (elems + [o])[|elems|] == o;
    }
  }

  lemma ListedRebind(elems: seq<int>, at: map<int, Item>, k: nat, x: Item)
    requires Listed(elems, at) && NoDup(elems) && k < |elems|
    ensures Listed(elems, at[elems[k] := x])
    ensures ItemsOf(elems, at[elems[k] := x]) == ItemsOf(elems, at)[k := x]
  {
  }

  /** The list position of the entry found for a key is the position of the key. */
  lemma FoundAt(elems: seq<int>, at: map<int, Item>, o: int, key: Bytes)
    requires Listed(elems, at) && DistinctKeys(ItemsOf(elems, at)) && o in at && at[o].binding.key == key
    ensures var k := Position(ItemsOf(elems, at), key); k < |elems| && elems[k] == o
  {
    hide Position;
    var k :| 0 <= k < |elems| && elems[k] == o;
    var items := ItemsOf(elems, at);
    var p := Position(items, key);
    assert items[k].binding.key == key;
    assert forall i :: 0 <= i < k ==> items[i].binding.key != items[k].binding.key;
  }

  lemma NotFoundAt(elems: seq<int>, at: map<int, Item>, key: Bytes)
    requires Listed(elems, at)
    requires forall o :: o in at ==> at[o].binding.key != key
    ensures Position(ItemsOf(elems, at), key) == |elems|
  {
    hide Position;
    var items := ItemsOf(elems, at);
    forall i | 0 <= i < |items|
      ensures items[i].binding.key != key
    {
      var o := elems[i];
      assert o in at;
      assert at[o].binding.key != key;
    }
  }

  class Cache {
    const c: Config
    const hash: Bytes -> nat
    const capacity: nat
    const headOffset: nat
    const store: Store
    const list: List
    const index: Index
    const pool: Allocators
    var segs: nat
    var count: int
    var usedEntry: int
    var usedKey: int
    var usedValue: int
    var alloced: int
    /** The live entries by encoded offset. */
    ghost var at: map<int, Item>

    ghost function Repr(): set<object> {
      {this, store, list, index, pool, pool.doing, pool.doing.offsets, pool.done, pool.done.offsets}
    }

    /** HT_GET_BUCKET_INDEX */
    function Bucket(key: Bytes): (b: nat)
      requires 0 < capacity
      ensures b < capacity
    {
      hash(key) % capacity
    }

    /** Every live entry is indexed in the bucket of its key, and nothing else is. */
    ghost predicate Homed()
      requires 0 < capacity
      reads this`at, index
    {
      && index.home.Keys == at.Keys
      && forall o :: o in at ==> index.home[o] == Bucket(at[o].binding.key)
    }

    /** The chain of a live entry is that of its key's hash, modulo the number of buckets, and it is in no other. */
    lemma InItsBucket(o: int)
      requires Valid() && o in at
      ensures |index.chains| == capacity
      ensures forall b :: 0 <= b < capacity ==> (o in index.chains[b] <==> b == hash(at[o].binding.key) % capacity)
    {
      hide Queued, EntryStore.Stored, FifoList.Circular, Listed, StripePool.StripePool.Valid, Fixed, EntryStore.Word;
      assert o in index.home;
    }

    /** Sizes and offsets that operations never change, and segments as they were created. */
    ghost predicate Fixed()
      reads this`segs, store`segs
    {
      && 0 < capacity
      && c.segMax <= 255 && c.segSize <= OFFSET_LIMIT && headOffset < OFFSET_LIMIT
      && list.head == HeadWord(headOffset)
      && store.c == c && |store.segs| == segs && (forall i :: 0 <= i < segs ==> |store.segs[i]| == c.segSize)
      && Times(c.segMax, c.perSegment) < pool.doing.offsets.Length
      && Times(c.segMax, c.perSegment) < pool.done.offsets.Length
    }

    lemma FixedFacts()
      requires Fixed()
      ensures 0 < capacity && store.c == c && |store.segs| == segs
    {
    }

    /** Chains, list, memory and pool agree on the live entries. */
    ghost predicate Valid()
      reads this, store, list, index, pool, pool.doing, pool.doing.offsets, pool.done, pool.done.offsets
      ensures Valid() ==> Listed(list.Elems, at)
    {
      && 0 < capacity == |index.buckets| && Fixed()
      && pool.Valid() && list.Valid() && index.Valid()
      && Listed(list.Elems, at) && Homed()
      && AllStored(c, store.hdr, store.segs, at) && list.head !in store.hdr
    }

    ghost function Abs(): State
      requires Listed(list.Elems, at)
      reads this, list, pool
    {
      State(ItemsOf(list.Elems, at), pool.State(), segs, count, usedEntry, usedKey, usedValue, alloced)
    }

    /** The state that shmcache_do_lock_init builds before its first segment. */
    constructor (config: Config, hashFunction: Bytes -> nat, buckets: nat, headAt: nat, allocatorBase: int)
      requires 0 < buckets && config.segMax <= 255 && config.segSize <= OFFSET_LIMIT && headAt < OFFSET_LIMIT
      requires 0 < allocatorBase
      ensures Valid() && c == config && capacity == buckets && fresh(Repr())
      ensures Abs() == State([], Pool([], [], [], {}), 0, 0, 0, 0, 0, config.common)
    {
      hide Queued, FifoList.Circular, HashIndex.AllThreaded, HashIndex.Filed, Times, HeadWord, StripePool.StripePool.Mirrored;
      c, hash, capacity, headOffset := config, hashFunction, buckets, headAt;
      store := new EntryStore.EntryStore(config);
      list := new FifoList.FifoList(HeadWord(headAt));
      index := new HashIndex.HashIndex(buckets);
      pool := new StripePool.StripePool(allocatorBase, Times(config.segMax, config.perSegment));
      segs, count, usedEntry, usedKey, usedValue, alloced := 0, 0, 0, 0, 0, config.common;
      at := map[];
    }

    // ----- searching a chain

    /** The bucket loop that get, set, delete and set_expires share. */
    method Find(key: Bytes) returns (found: bool, o: int, previous: int, ghost j: nat)
      requires Valid()
      ensures found ==> o in at && at[o].binding.key == key && index.At(Bucket(key), j, o, previous)
      ensures !found ==> (forall x :: x in at ==> at[x].binding.key != key)
      ensures !found ==> |index.chains| == capacity
      ensures !found ==>
        var chain := index.chains[Bucket(key)]; previous == if chain == [] then 0 else chain[|chain| - 1]
    {
      hide Queued, EntryStore.Stored, FifoList.Circular, Listed, StripePool.StripePool.Valid;
      ghost var chain := index.chains[Bucket(key)];
      assert HashIndex.Threaded(index.buckets[Bucket(key)], chain, index.next);
      o, previous, j := index.buckets[Bucket(key)], 0, 0;
      assert chain != [] ==> chain[0] in index.home;
      while o > 0
        invariant 0 <= j <= |chain| && o == (if j == |chain| then 0 else chain[j])
        invariant previous == if j == 0 then 0 else chain[j - 1]
        invariant j < |chain| ==> o > 0
        invariant forall i :: 0 <= i < j ==> chain[i] in at && at[chain[i]].binding.key != key
        decreases |chain| - j
      {
        assert chain[j] in index.home;
        var same := store.KeyEquals(o, key, at[o]);
        if same {
          found := true;
          return;
        }
        assert HashIndex.Link(chain, index.next, j);
        previous := o;
        o := index.next[o];
        j := j + 1;
        assert j < |chain| ==> chain[j] in index.home;
      }
      found := false;
      forall x | x in at
        ensures at[x].binding.key != key
      {
        assert x in index.home && x in index.chains[index.home[x]];
      }
    }

    /** shm_ht_get */
    method Get(key: Bytes, now: int) returns (r: Reply)
      requires Valid() && DistinctKeys(Abs().fifo)
      ensures r == Engine.Get(Abs(), key, now)
    {
      hide Queued, EntryStore.Stored, FifoList.Circular, HashIndex.HashIndex.Valid, StripePool.StripePool.Valid, Position, Listed, DistinctKeys;
      ghost var j;
      var found, o, previous;
      found, o, previous, j := Find(key);
      if !found {
        NotFoundAt(list.Elems, at, key);
        return Reply(NoEntry, []);
      }
      FoundAt(list.Elems, at, o, key);
      var b := store.Read(o, at[o]);
      r := Reply(if Unexpired(b, now) then Ok else TimedOut, [b]);
    }

    // ----- releasing an entry

    /**
     shm_ht_free_entry: list, counters and stripe forget the entry.  Its chain is
     the caller's business, so the index is only touched in the entry's own word.
     */
    method FreeEntry(o: int, ghost k: nat) returns (emptied: bool)
      requires Fixed() && pool.Valid() && list.Valid() && Listed(list.Elems, at) && Ranged(Abs())
      requires k < |list.Elems| && list.Elems[k] == o && EntryStore.Stored(c, store.hdr, store.segs, o, at[o])
      modifies this, list, index`next, pool, pool.doing, pool.doing.offsets, pool.done, pool.done.offsets
      ensures Fixed() && pool.Valid() && list.Valid() && Listed(list.Elems, at)
      ensures at == old(at) - {o} && index.next == old(index.next)[o := 0]
      ensures list.Elems == RemoveAt(old(list.Elems), k)
      ensures (Abs(), emptied) == Evict(old(Abs()), k)
    {
      hide Queued, FifoList.FifoList.Valid, Listed, Release, StripePool.StripePool.Valid, Fixed, EntrySize, Legal,
           ItemsOf, Ranged, RemoveAt, Without, NoDup;
      list.Distinct();
      StripeOf(Abs(), k);
      ListedRemove(list.Elems, at, k);
      var h := store.hdr[o];
      count := count - 1;
      usedValue := usedValue - h.valueLen;
      usedKey := usedKey - h.keyLen;
      list.Delete(o);
      emptied := pool.Free(h.stripe, h.size);
      usedEntry := usedEntry - h.size;
      index.Zero(o);
      at := at - {o};
    }

    /** Removing an entry from list and index keeps the rest of the agreement. */
    lemma AgreementWithout(o: int, hdr: map<int, EntryStore.Header>, before: map<int, Item>)
      requires AllStored(c, hdr, store.segs, before)
      ensures AllStored(c, hdr, store.segs, before - {o})
    {
      hide EntryStore.Stored;
    }

    /** shm_ht_delete_ex */
    method DeleteEx(key: Bytes) returns (status: Status, emptied: bool)
      requires Valid() && WF(c, Abs())
      modifies this, list, index, pool, pool.doing, pool.doing.offsets, pool.done, pool.done.offsets
      ensures Valid()
      ensures Ranged(old(Abs()))
      ensures var k := Position(old(Abs()).fifo, key);
        if k < |old(Abs()).fifo| then
          status == Ok && (Abs(), emptied) == Evict(old(Abs()), k) && list.Elems == RemoveAt(old(list.Elems), k)
        else status == NoEntry && Abs() == old(Abs())
    {
      hide Queued, FifoList.FifoList.Valid, Listed, Release, StripePool.StripePool.Valid, HashIndex.AllThreaded, HashIndex.Filed,
           EntryStore.Stored, Fixed, Core, LegalItems, Evict, Position, KeyBytes, ValueBytes, DistinctKeys, ItemsOf;
      WFRanged(c, Abs());
      var found, o, previous;
      ghost var j;
      found, o, previous, j := Find(key);
      if !found {
        NotFoundAt(list.Elems, at, key);
        return NoEntry, false;
      }
      FoundAt(list.Elems, at, o, key);
      AgreementWithout(o, store.hdr, at);
      ghost var k := Position(Abs().fifo, key);
      index.Remove(Bucket(key), o, previous, j);
      index.ZeroKeeps(o);
      emptied := FreeEntry(o, k);
      status := Ok;
    }

    /**
     shm_ht_clear.  It relies on nothing but intact sizes: links, chains, queues,
     counters and entries may be in any state, as after the death of a writer.
     */
    method Clear() returns (cleared: int)
      requires Fixed() && |index.buckets| == capacity && pool.Shape() && list.head !in store.hdr
      modifies this, list, index, pool, pool.doing, pool.doing.offsets, pool.done, pool.done.offsets
      ensures Valid() && cleared == old(count)
      ensures Abs() == State([], ResetAll(old(pool.State())), old(segs), 0, 0, 0, 0, old(alloced))
    {
      hide Queued, FifoList.FifoList.Valid, StripePool.StripePool.Valid, HashIndex.HashIndex.Valid, AllStored, Listed, ItemsOf, Fixed, ResetAll,
           StripePool.StripePool.Shape, Homed;
      FixedFacts();
      ListedNone(c, store.hdr, store.segs);
      cleared := count;
      index.Clear();
      count := 0;
      list.Init();
      pool.Clear();
      usedKey, usedValue, usedEntry := 0, 0, 0;
      at := map[];
      HomedNone();
    }

    lemma HomedNone()
      requires 0 < capacity && at == map[] && index.home == map[]
      ensures Homed()
    {
    }

    /** shm_value_allocator_do_alloc, with its usage counter. */
    method DoAlloc(size: nat, now: int) returns (s: int, offset: nat)
      requires Valid() && WF(c, Abs())
      modifies this`usedEntry, pool, pool.doing, pool.doing.offsets, pool.done, pool.done.offsets
      ensures Valid() && Ranged(old(Abs()))
      ensures var r := Reserve(c, old(Abs()), size, now);
        && Abs() == r.state
        && s == (if r.Reserved? then r.stripe else -1)
        && (r.Reserved? ==> offset == r.offset)
    {
      hide Queued, FifoList.FifoList.Valid, Listed, StripePool.StripePool.Valid, HashIndex.HashIndex.Valid,
           EntryStore.Stored, Fixed, Core, Table, ItemsOf, Scan, Ranged;
      WFRanged(c, Abs());
      s, offset := pool.DoAlloc(size, now, c.policy);
      if s >= 0 {
        usedEntry := usedEntry + size;
      }
    }

    /** shmopt_create_value_segment */
    method CreateSegment() returns (status: Status)
      requires Valid() && WF(c, Abs())
      modifies this`segs, this`alloced, store`segs, pool, pool.doing, pool.doing.offsets
      ensures Valid() && Ranged(old(Abs()))
      ensures if old(segs) < c.segMax then status == Ok && Abs() == AddSegment(c, old(Abs()))
              else status == NoSpace && Abs() == old(Abs())
    {
      hide Queued, FifoList.FifoList.Valid, Listed, StripePool.StripePool.Valid, HashIndex.HashIndex.Valid,
           EntryStore.Stored, ItemsOf, Table, Cut, Backed, Fits, DoneBusy, Ranged, Times, HeadWord, TotalUsed, TotalSize;
      WFRanged(c, Abs());
      if segs >= c.segMax {
        return NoSpace;
      }
      StoredGrow(c, store.hdr, store.segs, at);
      SegmentFits(segs, c.segMax, c.perSegment);
      segs := segs + 1;
      store.AddSegment();
      pool.CarveSegment(segs - 1, c.perSegment, c.stripeSize);
      alloced := alloced + c.segSize;
      status := Ok;
    }

    static lemma SegmentFits(n: nat, max: nat, per: nat)
      requires n < max
      ensures Times(n, per) + per <= Times(max, per)
    {
      TimesStep(n, max, per);
    }

    // ----- recycling

    /**
     The deletion inside the recycling loop, by the key read from the entry.  It
     always finds that entry, so the fallback for a failed deletion is dead code.
     */
    method EvictAt(o: int, key: Bytes, ghost pos: nat) returns (emptied: bool)
      requires Valid() && WF(c, Abs()) && pos < |list.Elems| && o == list.Elems[pos] && key == at[o].binding.key
      modifies this, list, index, pool, pool.doing, pool.doing.offsets, pool.done, pool.done.offsets
      ensures Valid() && WF(c, Abs()) && Ranged(old(Abs())) && (Abs(), emptied) == Evict(old(Abs()), pos)
      ensures list.Elems == RemoveAt(old(list.Elems), pos)
    {
      hide Valid, Core, LegalItems, KeyBytes, ValueBytes, Evict, Position, FifoList.Circular, DistinctKeys;
      ghost var e := Abs();
      PositionOf(o, key, pos);
      var status;
      status, emptied := DeleteEx(key);
      if status != Ok {
        assert false;
      }
      EvictWF(c, e, pos);
    }

    lemma PositionOf(o: int, key: Bytes, pos: nat)
      requires Valid() && WF(c, Abs()) && pos < |list.Elems| && o == list.Elems[pos] && key == at[o].binding.key
      ensures Position(Abs().fifo, key) == pos && Ranged(Abs())
    {
      hide Queued, StripePool.StripePool.Valid, HashIndex.HashIndex.Valid, EntryStore.Stored, Fixed, Core, LegalItems, Position, KeyBytes, ValueBytes;
      WFRanged(c, Abs());
      FoundAt(list.Elems, at, o, key);
      list.Distinct();
    }

    /** shm_value_allocator_recycle */
    method Recycle(keys: int, now: int) returns (status: Status)
      requires Valid() && WF(c, Abs())
      modifies this, list, index, pool, pool.doing, pool.doing.offsets, pool.done, pool.done.offsets
      ensures Valid() && WF(c, Abs()) && Ranged(old(Abs()))
      ensures Outcome(Abs(), status) == Engine.Recycle(c, old(Abs()), keys, now)
    {
      hide Valid, WF, Evict, ItemsOf, Ranged;
      WFRanged(c, Abs());
      Parts();
      ghost var goal := RecycleFrom(c, Abs(), 0, 0, keys, now);
      ghost var pos := 0;
      var cleared: nat := 0;
      var o := list.First();
      while o > 0
        invariant Valid() && WF(c, Abs()) && Ranged(Abs()) && 0 <= pos <= |list.Elems|
        invariant o == if pos < |list.Elems| then list.Elems[pos] else -1
        invariant RecycleFrom(c, Abs(), pos, cleared, keys, now) == goal
        decreases |list.Elems| - pos
      {
        var b := ReadAt(o, pos);
        var next := NextOf(o, pos);
        if !Evictable(c, b, now) {
          o, pos := next, pos + 1;
        } else {
          var emptied := EvictAt(o, b.key, pos);
          WFRanged(c, Abs());
          o, cleared := next, cleared + 1;
          if if keys > 0 then cleared >= keys else emptied {
            return Ok;
          }
        }
      }
      Parts();
      assert pos == |list.Elems|;
      status := NoMemory;
    }

    /** The parts of the agreement that a walk over the list needs. */
    lemma Parts()
      requires Valid()
      ensures list.Valid() && Listed(list.Elems, at) && store.c == c
      ensures forall i :: 0 <= i < |list.Elems| ==> list.Elems[i] > 0 && list.Elems[i] in at
    {
      list.Distinct();
    }

    /** Memory carries the key and value of every live entry. */
    lemma LiveBytes()
      requires Valid()
      ensures forall x :: x in Abs().fifo ==> EntryStore.Carries(c, store.segs, x)
    {
      hide Queued, StripePool.StripePool.Valid, HashIndex.HashIndex.Valid, FifoList.FifoList.Valid, Fixed, Listed, ItemsOf;
      var f := Abs().fifo;
      forall x | x in f
        ensures EntryStore.Carries(c, store.segs, x)
      {
        var i :| 0 <= i < |f| && f[i] == x;
        ListedAt(i);
        assert EntryStore.Stored(c, store.hdr, store.segs, list.Elems[i], at[list.Elems[i]]);
      }
    }

    lemma ListedAt(i: nat)
      requires Listed(list.Elems, at) && i < |list.Elems|
      ensures list.Elems[i] in at && Abs().fifo[i] == at[list.Elems[i]]
    {
    }

    /** Copies the entry at a list position out of shared memory. */
    method ReadAt(o: int, ghost pos: nat) returns (b: Binding)
      requires Valid() && pos < |list.Elems| && o == list.Elems[pos]
      ensures o in at && b == at[o].binding == Abs().fifo[pos].binding
    {
      hide Queued, StripePool.StripePool.Valid, HashIndex.HashIndex.Valid, EntryStore.Stored;
      b := store.Read(o, at[o]);
    }

    method NextOf(o: int, ghost pos: nat) returns (r: int)
      requires Valid() && pos < |list.Elems| && o == list.Elems[pos]
      ensures r == if pos + 1 < |list.Elems| then list.Elems[pos + 1] else -1
    {
      hide Queued, StripePool.StripePool.Valid, HashIndex.HashIndex.Valid, EntryStore.Stored;
      r := list.Next(o, pos);
    }

    // ----- listing

    /**
     shm_ht_to_array_ex: the page of unexpired, matching entries.  The rows go to
     an array of the size the code allocates; no write misses it.
     */
    method ToArray(p: Pattern, offset: int, limit: int, now: int) returns (status: Status, rows: seq<Binding>)
      requires Valid() && WF(c, Abs())
      ensures offset < 0 ==> status == Invalid && rows == []
      ensures offset >= 0 ==> status == Ok && rows == Page(Selected(Bindings(Abs().fifo), p, now), offset, limit)
    {
      hide Valid, Core, LegalItems, DistinctKeys, KeyBytes, ValueBytes, ItemsOf, Matches, Selected, Page;
      if offset < 0 {
        return Invalid, [];
      }
      ghost var bs := Bindings(Abs().fifo);
      var slots := count - offset;
      if limit > 0 && limit < slots {
        slots := limit;
      }
      if slots <= 0 {
        PageBeyond(bs, p, now, offset, limit);
        return Ok, [];
      }
      var entries := new Binding[slots](_ => Binding([], [], 0, 0));
      ghost var pos := 0;
      var o, n;
      o, pos := SkipRows(p, offset, now);
      n, pos := CopyRows(p, offset, now, o, pos, entries);
      rows := entries[..n];
      status := Ok;
      if |Selected(bs[..pos], p, now)| < offset {
        PageShort(bs, p, now, offset, limit);
      } else {
        PageReached(bs, p, now, pos, offset, limit, slots);
      }
    }

    /** One step of a listing loop: the entry, whether it is selected, and the next offset. */
    method RowAt(p: Pattern, o: int, now: int, ghost pos: nat) returns (b: Binding, chosen: bool, next: int)
      requires Valid() && pos < |list.Elems| && o == list.Elems[pos]
      ensures b == Abs().fifo[pos].binding && (chosen <==> Chosen(b, p, now))
      ensures next == if pos + 1 < |list.Elems| then list.Elems[pos + 1] else -1
    {
      hide Valid, ItemsOf, Matches;
      b := ReadAt(o, pos);
      var m := MatchKey(p, b.key);
      chosen := Unexpired(b, now) && m;
      next := NextOf(o, pos);
    }

    /** The loop that skips the first `offset` selected entries. */
    method SkipRows(p: Pattern, offset: nat, now: int) returns (o: int, ghost pos: nat)
      requires Valid()
      ensures pos <= |list.Elems| == |Bindings(Abs().fifo)|
      ensures o == if pos < |list.Elems| then list.Elems[pos] else -1
      ensures var i := |Selected(Bindings(Abs().fifo)[..pos], p, now)|; i == offset || (i < offset && pos == |list.Elems|)
    {
      hide Valid, ItemsOf, Chosen, Selected;
      Parts();
      ghost var bs := Bindings(Abs().fifo);
      o := list.First();
      pos := 0;
      var i := 0;
      SelectedNone(bs, p, now);
      while o > 0 && i < offset
        invariant pos <= |list.Elems| && o == (if pos < |list.Elems| then list.Elems[pos] else -1)
        invariant i == |Selected(bs[..pos], p, now)| <= offset
        decreases |list.Elems| - pos
      {
        var b, chosen, next := RowAt(p, o, now, pos);
        SelectedStep(bs, p, now, pos);
        if chosen {
          i := i + 1;
        }
        o, pos := next, pos + 1;
      }
    }

    /** The state of the copying loop: `n` rows of the page are in the array. */
    ghost predicate Copied(bs: seq<Binding>, p: Pattern, now: int, pos: nat, offset: nat, n: nat, entries: array<Binding>)
      reads entries
    {
      && pos <= |bs| && n <= entries.Length
      && var s := Selected(bs[..pos], p, now);
         if |s| < offset then n == 0 && pos == |bs| else entries[..n] == s[offset..]
    }

    /** The loop that copies selected entries until the array is full or the list ends. */
    method CopyRows(p: Pattern, offset: nat, now: int, start: int, ghost from: nat, entries: array<Binding>)
      returns (n: nat, ghost pos: nat)
      requires Valid() && from <= |list.Elems| && start == (if from < |list.Elems| then list.Elems[from] else -1)
      requires Copied(Bindings(Abs().fifo), p, now, from, offset, 0, entries) && entries.Length > 0
      modifies entries
      ensures |list.Elems| == |Bindings(Abs().fifo)|
      ensures Copied(Bindings(Abs().fifo), p, now, pos, offset, n, entries)
      ensures pos == |list.Elems| || n == entries.Length
    {
      hide Valid, ItemsOf, Chosen, Selected, Copied, Repr;
      Parts();
      ghost var bs := Bindings(Abs().fifo);
      var o := start;
      pos, n := from, 0;
      while o > 0
        invariant Valid() && bs == Bindings(Abs().fifo)
        invariant pos <= |list.Elems| && o == (if pos < |list.Elems| then list.Elems[pos] else -1)
        invariant Copied(bs, p, now, pos, offset, n, entries) && n < entries.Length
        decreases |list.Elems| - pos
      {
        var b, chosen, next := RowAt(p, o, now, pos);
        CopyStep(bs, p, now, pos, offset, n, entries);
        o, pos := next, pos + 1;
        if chosen {
          ghost var before := entries[..n];
          entries[n] := b;
          n := n + 1;
          assert entries[..n] == before + [b];
          CopyDone(bs, p, now, pos, offset, n, entries);
          if n == entries.Length {
            return;
          }
        }
      }
    }

    /** Passing an entry that is not selected keeps the rows; a selected one comes after them. */
    lemma CopyStep(bs: seq<Binding>, p: Pattern, now: int, pos: nat, offset: nat, n: nat, entries: array<Binding>)
      requires Copied(bs, p, now, pos, offset, n, entries) && pos < |bs|
      ensures !Chosen(bs[pos], p, now) ==> Copied(bs, p, now, pos + 1, offset, n, entries)
      ensures var s := Selected(bs[..pos + 1], p, now);
        Chosen(bs[pos], p, now) ==> |s| >= offset && s[offset..] == entries[..n] + [bs[pos]]
    {
      hide Chosen;
      SelectedStep(bs, p, now, pos);
    }

    lemma CopyDone(bs: seq<Binding>, p: Pattern, now: int, pos: nat, offset: nat, n: nat, entries: array<Binding>)
      requires pos <= |bs| && n <= entries.Length && |Selected(bs[..pos], p, now)| >= offset
      requires Selected(bs[..pos], p, now)[offset..] == entries[..n]
      ensures Copied(bs, p, now, pos, offset, n, entries)
    {
    }

    /** shm_ht_set_expires */
    method SetExpires(key: Bytes, expires: int, now: int) returns (status: Status)
      requires Valid() && WF(c, Abs())
      modifies this`at, store
      ensures Valid() && Ranged(old(Abs()))
      ensures Outcome(Abs(), status) == Engine.SetExpires(old(Abs()), key, expires, now)
    {
      hide Queued, FifoList.FifoList.Valid, Listed, StripePool.StripePool.Valid, HashIndex.HashIndex.Valid,
           EntryStore.Stored, Fixed, Core, LegalItems, Position, KeyBytes, ValueBytes, DistinctKeys, ItemsOf;
      WFRanged(c, Abs());
      var found, o, previous;
      ghost var j;
      found, o, previous, j := Find(key);
      if !found {
        NotFoundAt(list.Elems, at, key);
        return NoEntry;
      }
      FoundAt(list.Elems, at, o, key);
      ghost var k := Position(Abs().fifo, key);
      ghost var x := at[o];
      FixedFacts();
      var b := store.Read(o, x);
      if !Unexpired(b, now) {
        return TimedOut;
      }
      list.Distinct();
      ghost var y := x.(binding := x.binding.(expires := expires));
      ListedRebind(list.Elems, at, k, y);
      RestampStored(c, store.hdr, store.segs, at, o, expires);
      Restamp(o, expires);
      status := Ok;
    }

    // ----- writing and linking a new entry

    /** A reserved entry, not yet written: legal, and backed beside the live ones. */
    ghost predicate Awaited(x: Item)
      requires Listed(list.Elems, at)
      reads this, list, pool
    {
      Core(c, Abs(), Abs().fifo + [x]) && Table(c, Abs()) && LegalItem(c, x)
    }

    lemma AwaitedPlace(x: Item)
      requires Valid() && Awaited(x)
      ensures EntryStore.Framed(c, store.segs, x) && x.size > 0 && x.segment <= 255 && x.offset < OFFSET_LIMIT
      ensures forall o :: o in at ==>
        Disjoint(x, at[o]) && at[o].size > 0 && at[o].segment <= 255 && at[o].offset < OFFSET_LIMIT
      ensures EntryStore.Word(x) > 0 && EntryStore.Word(x) != list.head
    {
      hide Core, Table, LegalItem, Listed, StripePool.StripePool.Valid, FifoList.FifoList.Valid, HashIndex.HashIndex.Valid,
           EntryStore.Stored, Disjoint, Times, Encode, HeadWord, ItemsOf, Homed, Queued;
      Inside(c, Abs(), Abs().fifo + [x], |Abs().fifo|);
      AwaitedSegments(x);
      EncodePositive(x.segment, x.offset);
      HeadApart(x.segment, x.offset, headOffset);
      forall o | o in at
        ensures Disjoint(x, at[o]) && at[o].size > 0 && at[o].segment <= 255 && at[o].offset < OFFSET_LIMIT
      {
        NewPlace(c, Abs(), x, list.Elems, at, o);
        LivePlace(x, o);
      }
    }

    lemma AwaitedSegments(x: Item)
      requires Valid() && Awaited(x)
      ensures segs <= c.segMax
    {
      hide Table, LegalItem, StripePool.StripePool.Valid, FifoList.FifoList.Valid, HashIndex.HashIndex.Valid,
           EntryStore.Stored, Times, HeadWord, Backed, Queued, Fits, DoneBusy, Cut;
    }

    lemma LivePlace(x: Item, o: int)
      requires Valid() && Awaited(x) && o in at
      ensures at[o].segment <= 255 && at[o].offset < OFFSET_LIMIT
    {
      hide Core, Table, LegalItem, StripePool.StripePool.Valid, FifoList.FifoList.Valid, HashIndex.HashIndex.Valid,
           EntryStore.Stored, Times, HeadWord, Queued;
      var k :| 0 <= k < |list.Elems| && list.Elems[k] == o;
      var items := Abs().fifo + [x];
      assert items[k] == at[o];
      Inside(c, Abs(), items, k);
      AwaitedSegments(x);
    }

    /** Writes header, key and value of a reserved entry; every live entry stays readable. */
    method WriteEntry(x: Item)
      requires Valid() && Awaited(x)
      modifies store, list`next, list`prev, index`next
      ensures Valid() && EntryStore.Word(x) !in at && EntryStore.Word(x) > 0 && EntryStore.Word(x) != list.head
      ensures EntryStore.Stored(c, store.hdr, store.segs, EntryStore.Word(x), x)
    {
      hide Core, Table, LegalItem, Listed, StripePool.StripePool.Valid, FifoList.Circular, HashIndex.AllThreaded, HashIndex.Filed,
           EntryStore.Stored, EntryStore.Word, Disjoint, Times, HeadWord, ItemsOf, Queued, EntryStore.Written;
      AwaitedPlace(x);
      WriteAll(c, store.hdr, store.segs, at, x);
      EntryStore.WriteStores(c, store.hdr, store.segs, x);
      ListedKeys(list.Elems, at);
      var dead := store.Write(x);
      list.Overwrite(dead);
      index.Overwrite(dead);
    }

    /** The counters and the list receive an entry that its chain already holds. */
    method Enlist(x: Item)
      requires 0 < capacity && Fixed() && |index.buckets| == capacity && index.Valid()
      requires pool.Valid() && list.Valid() && Listed(list.Elems, at)
      requires AllStored(c, store.hdr, store.segs, at) && list.head !in store.hdr
      requires var o := EntryStore.Word(x);
        && o !in at && o > 0 && o != list.head && EntryStore.Stored(c, store.hdr, store.segs, o, x)
        && index.home.Keys == at.Keys + {o} && index.home[o] == Bucket(x.binding.key)
      requires forall o :: o in at ==> o in index.home && index.home[o] == Bucket(at[o].binding.key)
      modifies this, list
      ensures Valid() && Abs() == Append(old(Abs()), x)
    {
      hide Queued, StripePool.StripePool.Valid, HashIndex.HashIndex.Valid, FifoList.FifoList.Valid, Listed, ItemsOf,
           EntryStore.Stored, EntryStore.Word, Fixed;
      var o := EntryStore.Word(x);
      ListedKeys(list.Elems, at);
      ListedAppend(list.Elems, at, o, x);
      count := count + 1;
      usedValue := usedValue + |x.binding.value|;
      usedKey := usedKey + |x.binding.key|;
      list.AddTail(o);
      at := at[o := x];
    }

    /** The tail of shm_ht_set for a key that is not in the table. */
    method LinkNew(x: Item, previous: int)
      requires Valid() && EntryStore.Word(x) !in at && EntryStore.Word(x) > 0 && EntryStore.Word(x) != list.head
      requires EntryStore.Stored(c, store.hdr, store.segs, EntryStore.Word(x), x)
      requires |index.chains| == capacity
      requires var chain := index.chains[Bucket(x.binding.key)]; previous == if chain == [] then 0 else chain[|chain| - 1]
      modifies this, list, index
      ensures Valid() && Abs() == Append(old(Abs()), x)
    {
      hide Queued, StripePool.StripePool.Valid, HashIndex.HashIndex.Valid, FifoList.FifoList.Valid, Listed, ItemsOf,
           EntryStore.Stored, EntryStore.Word, Fixed;
      index.Append(Bucket(x.binding.key), EntryStore.Word(x), previous);
      Enlist(x);
    }

    /**
     The tail of shm_ht_set for a key that is in the table: the new entry takes the
     old one's place in the chain, and the tail of the list.
     */
    method LinkOver(x: Item, gone: int, previous: int, ghost j: nat, ghost k: nat)
      requires Valid() && EntryStore.Word(x) !in at && EntryStore.Word(x) > 0 && EntryStore.Word(x) != list.head
      requires EntryStore.Stored(c, store.hdr, store.segs, EntryStore.Word(x), x)
      requires gone in at && at[gone].binding.key == x.binding.key && index.At(Bucket(x.binding.key), j, gone, previous)
      requires k < |list.Elems| && list.Elems[k] == gone && Ranged(Abs())
      modifies this, list, index, pool, pool.doing, pool.doing.offsets, pool.done, pool.done.offsets
      ensures Valid() && Abs() == Append(Evict(old(Abs()), k).0, x)
    {
      hide Queued, StripePool.StripePool.Valid, HashIndex.AllThreaded, HashIndex.Filed, FifoList.FifoList.Valid, Listed, ItemsOf,
           EntryStore.Stored, EntryStore.Word, Fixed, Ranged, Evict;
      var o := EntryStore.Word(x);
      index.AtHome(Bucket(x.binding.key), j, gone, previous);
      AgreementWithout(gone, store.hdr, at);
      ghost var before := index.next;
      index.Inherit(o, gone);
      var emptied := FreeEntry(gone, k);
      index.Replace(Bucket(x.binding.key), gone, o, previous, j, before);
      Enlist(x);
    }

    // ----- set, and the allocation that may call back into it

    /** The decision before making room: recycle, or create a segment. */
    method WantsRecycle(now: int) returns (r: bool)
      requires Valid() && WF(c, Abs())
      modifies pool.done`index
      ensures Valid() && Abs() == old(Abs()) && Ranged(Abs()) && r == ShouldRecycle(c, Abs(), now)
    {
      hide Queued, FifoList.FifoList.Valid, Listed, StripePool.StripePool.Valid, HashIndex.HashIndex.Valid,
           EntryStore.Stored, Fixed, Core, Table, ItemsOf;
      WFRanged(c, Abs());
      if segs >= c.segMax {
        return true;
      }
      var s := pool.FirstDone();
      r := s >= 0 && c.avgTtl > 0 && now - pool.stripes[s].lastAlloc >= c.avgTtl;
    }

    /** What shm_value_allocator_alloc does between its two attempts. */
    method MakeRoom(now: int) returns (status: Status)
      requires Valid() && WF(c, Abs())
      modifies this, store, list, index, pool, pool.doing, pool.doing.offsets, pool.done, pool.done.offsets
      ensures Valid() && WF(c, Abs()) && Ranged(old(Abs()))
      ensures Outcome(Abs(), status) == Engine.MakeRoom(c, old(Abs()), now)
      decreases |list.Elems|, 2
    {
      hide Valid, WF, ItemsOf, Ranged, Engine.Recycle, Engine.Rearrange, AddSegment, ShouldRecycle;
      var recycle := WantsRecycle(now);
      if recycle {
        status := Recycle(-1, now);
        if status != Ok && !c.recycleValid {
          if segs < c.segMax {
            GrowsWell(c, Abs());
            status := CreateSegment();
          } else {
            status := Rearrange(now);
          }
        }
      } else {
        NoRecycleRoom(c, Abs(), now);
        GrowsWell(c, Abs());
        status := CreateSegment();
      }
    }

    static lemma NoRecycleRoom(c: Config, e: State, now: int)
      requires Ranged(e) && !ShouldRecycle(c, e, now)
      ensures e.segs < c.segMax
    {
    }

    static lemma GrowsWell(c: Config, e: State)
      requires WF(c, e) && e.segs < c.segMax
      ensures Ranged(e) && WF(c, AddSegment(c, e))
    {
      hide WF;
      WFRanged(c, e);
      AddSegmentWF(c, e);
    }

    /** shm_value_allocator_alloc */
    method Alloc(b: Binding, size: nat, now: int) returns (s: int, offset: nat)
      requires Valid() && WF(c, Abs()) && Legal(c, b) && size == EntrySize(c, |b.key|, |b.value|)
      modifies this, store, list, index, pool, pool.doing, pool.doing.offsets, pool.done, pool.done.offsets
      ensures Valid() && Ranged(old(Abs()))
      ensures var r := Engine.Alloc(c, old(Abs()), size, now);
        && Abs() == r.state
        && s == (if r.Reserved? then r.stripe else -1)
        && (r.Reserved? ==> offset == r.offset && Pending(c, r, b, size))
        && (r.Unreserved? ==> WF(c, r.state))
      decreases |list.Elems|, 3
    {
      hide Valid, WF, ItemsOf, Ranged, Reserve, Engine.MakeRoom, Pending, EntrySize, Legal;
      WFRanged(c, Abs());
      AllocWF(c, Abs(), b, size, now);
      ReserveWF(c, Abs(), b, size, now);
      s, offset := DoAlloc(size, now);
      if s < 0 {
        var status := MakeRoom(now);
        if status == Ok {
          s, offset := DoAlloc(size, now);
        } else {
          s := -1;
        }
      }
    }

    /** shm_value_allocator_try_rearrange */
    method Rearrange(now: int) returns (status: Status)
      requires Valid() && WF(c, Abs())
      modifies this, store, list, index, pool, pool.doing, pool.doing.offsets, pool.done, pool.done.offsets
      ensures Valid() && WF(c, Abs()) && Ranged(old(Abs()))
      ensures Outcome(Abs(), status) == Engine.Rearrange(c, old(Abs()), now)
      decreases |list.Elems|, 1
    {
      hide Valid, WF, ItemsOf, Ranged, Engine.Set, Alive, Times;
      WFRanged(c, Abs());
      ghost var e, n := Abs(), |list.Elems|;
      RearrangeWF(c, e, now);
      if FreeSpace() < MAX_KEY_SIZE + c.maxValue + Times(|pool.stripes|, c.policy.discard) + c.stripeSize {
        return NoSpace;
      }
      var rows := CopyOut(now);
      ClearKeeps(c, e);
      Ready();
      var cleared := Clear();
      assert Abs() == Engine.Clear(e);
      status := Reinsert(rows, now, n);
    }

    function FreeSpace(): int
      reads this
    {
      alloced - (c.common + usedEntry)
    }

    static lemma ClearKeeps(c: Config, e: State)
      requires WF(c, e)
      ensures WF(c, Engine.Clear(e))
    {
      hide Queued, Backed, Table, Fits, DoneBusy;
      ClearWF(c, e);
    }

    lemma Ready()
      requires Valid()
      ensures Fixed() && |index.buckets| == capacity && pool.Shape() && list.head !in store.hdr
    {
    }

    /** The copy that the rearrangement takes: all unexpired bindings, in order. */
    method CopyOut(now: int) returns (rows: seq<Binding>)
      requires Valid() && WF(c, Abs())
      ensures rows == Alive(Bindings(Abs().fifo), now)
    {
      hide Valid, WF, ItemsOf, Alive, Selected;
      var status;
      status, rows := ToArray(All, 0, 0, now);
      SelectedAll(Bindings(Abs().fifo), now);
    }

    /** The insertion loop of the rearrangement; on a failure the cache is cleared. */
    method Reinsert(rows: seq<Binding>, now: int, ghost limit: nat) returns (status: Status)
      requires Valid() && WF(c, Abs()) && |list.Elems| + |rows| <= limit
      modifies this, store, list, index, pool, pool.doing, pool.doing.offsets, pool.done, pool.done.offsets
      ensures Valid() && WF(c, Abs()) && Ranged(old(Abs()))
      ensures Outcome(Abs(), status) == Engine.Reinsert(c, old(Abs()), rows, now, limit)
      decreases limit, 0
    {
      hide Valid, WF, ItemsOf, Ranged, Engine.Set;
      WFRanged(c, Abs());
      ghost var goal := Engine.Reinsert(c, Abs(), rows, now, limit);
      status := Ok;
      var i := 0;
      assert rows[0..] == rows;
      while i < |rows|
        invariant 0 <= i <= |rows| && Valid() && WF(c, Abs()) && Ranged(Abs())
        invariant |list.Elems| + |rows| - i <= limit
        invariant status == Ok && Engine.Reinsert(c, Abs(), rows[i..], now, limit) == goal
        decreases |rows| - i
      {
        assert rows[i..][0] == rows[i] && rows[i..][1..] == rows[i + 1..];
        status := Set(rows[i], now);
        if status != Ok {
          break;
        }
        WFRanged(c, Abs());
        i := i + 1;
      }
      if status != Ok {
        ClearKeeps(c, Abs());
        Ready();
        var cleared := Clear();
      }
    }

    /** shm_ht_set */
    method Set(b: Binding, now: int) returns (status: Status)
      requires Valid() && WF(c, Abs())
      modifies this, store, list, index, pool, pool.doing, pool.doing.offsets, pool.done, pool.done.offsets
      ensures Valid() && WF(c, Abs()) && Ranged(old(Abs()))
      ensures Outcome(Abs(), status) == Engine.Set(c, old(Abs()), b, now)
      decreases |list.Elems|, 4
    {
      hide Valid, WF, Core, Table, ItemsOf, Ranged, Engine.Recycle, Engine.Alloc, EntrySize, Engine.Bind;
      WFRanged(c, Abs());
      SetWF(c, Abs(), b, now);
      if |b.key| > MAX_KEY_SIZE {
        return NameTooLong;
      }
      if |b.value| > c.maxValue {
        return Invalid;
      }
      if count >= c.maxKeys {
        status := Recycle(c.recycleKeyOnce, now);
        if status != Ok {
          return;
        }
      }
      var size := EntrySize(c, |b.key|, |b.value|);
      var s, offset := Alloc(b, size, now);
      if s < 0 {
        return NoMemory;
      }
      BindEntry(b, s, offset, size);
      status := Ok;
    }

    /** The second half of shm_ht_set: write the reserved entry, then link it. */
    method BindEntry(b: Binding, s: nat, offset: nat, size: nat)
      requires Valid() && s < |pool.stripes| && Ranged(Abs()) && Legal(c, b) && size == EntrySize(c, |b.key|, |b.value|)
      requires Core(c, Abs(), Abs().fifo + [NewItem(pool.State(), b, s, offset, size)]) && Table(c, Abs())
      modifies this, store, list, index, pool, pool.doing, pool.doing.offsets, pool.done, pool.done.offsets
      ensures Valid() && Abs() == Engine.Bind(old(Abs()), b, s, offset, size)
    {
      hide Valid, Core, LegalItems, ItemsOf, Ranged, EntrySize, Evict, EntryStore.Stored, EntryStore.Word, Append, Position,
           KeyBytes, ValueBytes, DistinctKeys;
      var x := Item(b, pool.stripes[s].segment, s, offset, size);
      WriteEntry(x);
      var found, o, previous;
      ghost var j;
      found, o, previous, j := Find(b.key);
      if found {
        FoundAt(list.Elems, at, o, b.key);
        LinkOver(x, o, previous, j, Position(Abs().fifo, b.key));
      } else {
        NotFoundAt(list.Elems, at, b.key);
        LinkNew(x, previous);
      }
    }

    /** The store to the expiry of an entry. */
    method Restamp(o: int, t: int)
      requires Valid() && o in at && o in store.hdr
      requires var y := at[o].(binding := at[o].binding.(expires := t));
        && AllStored(c, store.hdr[o := store.hdr[o].(expires := t)], store.segs, at[o := y])
        && Listed(list.Elems, at[o := y])
      modifies this`at, store`hdr
      ensures Valid() && at == old(at)[o := old(at)[o].(binding := old(at)[o].binding.(expires := t))]
    {
      hide Queued, FifoList.FifoList.Valid, Listed, StripePool.StripePool.Valid, HashIndex.HashIndex.Valid,
           EntryStore.Stored, EntryStore.Word, Fixed, ItemsOf;
      store.SetExpires(o, t);
      at := at[o := at[o].(binding := at[o].binding.(expires := t))];
    }
  }

  /** The place of a new entry, as the allocator's invariant describes it. */
  lemma NewPlace(c: Config, e: State, x: Item, elems: seq<int>, at: map<int, Item>, o: int)
    requires Listed(elems, at) && ItemsOf(elems, at) == e.fifo && Core(c, e, e.fifo + [x]) && o in at
    ensures Disjoint(x, at[o]) && x.size > 0 && at[o].size > 0
  {
    hide Core, Disjoint;
    var k :| 0 <= k < |elems| && elems[k] == o;
    var items := e.fifo + [x];
    assert items[k] == at[o] && items[|e.fifo|] == x;
    PairDisjoint(c, e, items, |e.fifo|, k);
    Inside(c, e, items, k);
    Inside(c, e, items, |e.fifo|);
  }

  /** An entry in no live entry's range has an offset of its own, and memory keeps all live entries. */
  lemma WriteAll(c: Config, hdr: map<int, EntryStore.Header>, segs: seq<Bytes>, at: map<int, Item>, x: Item)
    requires AllStored(c, hdr, segs, at) && EntryStore.Framed(c, segs, x) && x.size > 0
    requires x.segment <= 255 && x.offset < OFFSET_LIMIT
    requires forall o :: o in at ==> Disjoint(x, at[o]) && at[o].size > 0 && at[o].segment <= 255 && at[o].offset < OFFSET_LIMIT
    ensures EntryStore.Word(x) !in at
    ensures var hdr' := EntryStore.Survivors(hdr, x.segment, x.offset, x.size);
      && (forall o :: o in at ==> o in hdr')
      && AllStored(c, hdr'[EntryStore.Word(x) := EntryStore.HeaderOf(x)],
                   segs[x.segment := EntryStore.Written(c, segs[x.segment], x)], at)
  {
    hide EntryStore.Stored, EntryStore.Written, Encode, LegalItem;
    forall o | o in at
      ensures EntryStore.Word(x) != o
    {
      if EntryStore.Word(at[o]) == EntryStore.Word(x) {
        EncodeInjective(at[o].segment, at[o].offset, x.segment, x.offset);
      }
    }
    forall o | o in at
      ensures o in EntryStore.Survivors(hdr, x.segment, x.offset, x.size)
      ensures EntryStore.Stored(c, EntryStore.Survivors(hdr, x.segment, x.offset, x.size)[EntryStore.Word(x) := EntryStore.HeaderOf(x)],
                segs[x.segment := EntryStore.Written(c, segs[x.segment], x)], o, at[o])
    {
      EntryStore.WriteKeeps(c, hdr, segs, o, at[o], x);
      EntryStore.StoredHeader(c, EntryStore.Survivors(hdr, x.segment, x.offset, x.size)[EntryStore.Word(x) := EntryStore.HeaderOf(x)],
        segs[x.segment := EntryStore.Written(c, segs[x.segment], x)], o, at[o]);
    }
  }

  /** A further segment leaves the stored entries where they are. */
  lemma StoredGrow(c: Config, hdr: map<int, EntryStore.Header>, segs: seq<Bytes>, at: map<int, Item>)
    requires AllStored(c, hdr, segs, at)
    ensures AllStored(c, hdr, segs + [seq(c.segSize, _ => 0)], at)
  {
    var segs' := segs + [seq(c.segSize, _ => 0)];
    forall o | o in at
      ensures EntryStore.Stored(c, hdr, segs', o, at[o])
    {
      assert EntryStore.Stored(c, hdr, segs, o, at[o]);
    }
  }

  /** Changing the expiry of one header changes one stored entry. */
  lemma RestampStored(c: Config, hdr: map<int, EntryStore.Header>, segs: seq<Bytes>, at: map<int, Item>, o: int, t: int)
    requires AllStored(c, hdr, segs, at) && o in at
    ensures o in hdr
    ensures var x := at[o];
      AllStored(c, hdr[o := hdr[o].(expires := t)], segs, at[o := x.(binding := x.binding.(expires := t))])
  {
    hide EntryStore.Word, EntryStore.Stored;
    var x := at[o];
    EntryStore.StoredHeader(c, hdr, segs, o, x);
    EntryStore.RestampOne(c, hdr, segs, o, x, t);
    var hdr', at' := hdr[o := hdr[o].(expires := t)], at[o := x.(binding := x.binding.(expires := t))];
    EntryStore.WordRestamp(x, t);
    forall p | p in at'
      ensures EntryStore.Word(at'[p]) == p && EntryStore.Stored(c, hdr', segs, p, at'[p])
    {
      if p != o {
        EntryStore.RestampOther(c, hdr, segs, p, at[p], o, hdr[o].(expires := t));
      }
    }
  }
}
