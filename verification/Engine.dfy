/**
 The cache engine as it runs under the write lock, on values.

 The state is the FIFO list of live entries, the stripe pool behind them and the
 counters that the code keeps by increments.  Every function follows the branches
 of the C function of the same purpose; `now` is the clock of the operation.
 */
module Engine {
  import opened Seqs
  import opened Stripes

  type Byte = x: int | 0 <= x < 256
  type Bytes = seq<Byte>

  /** SHMCACHE_MAX_KEY_SIZE */
  const MAX_KEY_SIZE := 64
  /** sizeof(struct shm_hash_entry) */
  const HEADER_SIZE := 64

  datatype Status = Ok | NameTooLong | Invalid | NoMemory | NoSpace | NoEntry | TimedOut

  datatype Settings = Settings(
    maxKeys: nat, maxValue: nat, recycleKeyOnce: int, recycleValid: bool, avgTtl: int,
    policy: Policy, segMax: nat, segSize: nat, stripeSize: nat, perSegment: nat, common: nat,
    alignUnit: nat)

  type Config = c: Settings |
    && 1 <= c.maxKeys && 1 <= c.alignUnit
    && 1 <= c.perSegment && Times(c.perSegment, c.stripeSize) <= c.segSize
    witness Settings(1, 0, 0, false, 0, Policy(0, 0, true), 1, 1, 1, 1, 0, 8)

  /** MEM_ALIGN: the least multiple of the unit that is not below `x`. */
  function RoundUp(x: nat, unit: nat): (r: nat)
    requires 1 <= unit
    ensures x <= r < x + unit
  {
    if x == 0 then 0 else if x <= unit then unit else unit + RoundUp(x - unit, unit)
  }

  lemma {:induction false} RoundUpLeast(x: nat, unit: nat)
    requires 1 <= unit
    ensures LeastMultiple(RoundUp(x, unit), x, unit)
  {
    if x == 0 {
      assert 0 == Times(0, unit);
    } else if x <= unit {
      assert Times(1, unit) == unit;
    } else {
      RoundUpLeast(x - unit, unit);
      var k: nat :| RoundUp(x - unit, unit) == Times(k, unit);
      assert RoundUp(x, unit) == Times(k + 1, unit);
    }
  }

  function EntrySize(c: Config, keyLen: nat, valueLen: nat): nat {
    HEADER_SIZE + RoundUp(keyLen, c.alignUnit) + RoundUp(valueLen, c.alignUnit)
  }

  datatype Binding = Binding(key: Bytes, value: Bytes, options: int, expires: int)

  /** A live entry: what it binds and where it lies. */
  datatype Item = Item(binding: Binding, segment: nat, stripe: nat, offset: nat, size: nat)

  datatype State = State(
    fifo: seq<Item>, pool: Pool, segs: nat, count: int,
    usedEntry: int, usedKey: int, usedValue: int, alloced: int)

  datatype Outcome = Outcome(state: State, status: Status)
  datatype Reservation = Unreserved(state: State) | Reserved(state: State, stripe: nat, offset: nat)

  /** Stripe indices stay inside the allocator array. */
  predicate Ranged(e: State) {
    InRange(e.pool) && forall i :: 0 <= i < |e.fifo| ==> e.fifo[i].stripe < |e.pool.stripes|
  }

  lemma StripeOf(e: State, k: nat)
    requires Ranged(e) && k < |e.fifo|
    ensures e.fifo[k].stripe < |e.pool.stripes|
  {
  }

  /** HT_ENTRY_IS_VALID */
  predicate Unexpired(b: Binding, now: int) { b.expires == 0 || b.expires >= now }

  predicate Evictable(c: Config, b: Binding, now: int) { c.recycleValid || !Unexpired(b, now) }

  function Bindings(s: seq<Item>): (r: seq<Binding>)
    ensures |r| == |s|
    ensures forall i :: 0 <= i < |s| ==> r[i] == s[i].binding
  {
    seq(|s|, i requires 0 <= i < |s| => s[i].binding)
  }

  /** The bindings that have not expired, in order. */
  function Alive(bs: seq<Binding>, now: int): (r: seq<Binding>)
    ensures |r| <= |bs|
  {
    if bs == [] then []
    else if Unexpired(bs[0], now) then [bs[0]] + Alive(bs[1..], now)
    else Alive(bs[1..], now)
  }

  /** The position of a key in the list, or the length of the list. */
  function Position(s: seq<Item>, key: Bytes): (k: nat)
    ensures k <= |s|
    ensures k < |s| ==> s[k].binding.key == key
    ensures forall i :: 0 <= i < k ==> s[i].binding.key != key
  {
    if s == [] then 0 else if s[0].binding.key == key then 0 else 1 + Position(s[1..], key)
  }

  // ----- releasing entries

  /** shm_ht_free_entry: unlinks the entry at `pos` and returns its bytes. */
  function Evict(e: State, pos: nat): (r: (State, bool))
    requires Ranged(e) && pos < |e.fifo|
    ensures r.0.fifo == RemoveAt(e.fifo, pos)
    ensures |r.0.pool.stripes| == |e.pool.stripes| && r.0.segs == e.segs
  {
    var x := e.fifo[pos];
    var (pool, emptied) := Release(e.pool, x.stripe, x.size);
    (e.(fifo := RemoveAt(e.fifo, pos), pool := pool, count := e.count - 1,
        usedEntry := e.usedEntry - x.size,
        usedKey := e.usedKey - |x.binding.key|, usedValue := e.usedValue - |x.binding.value|),
     emptied)
  }

  /** shm_ht_clear */
  function Clear(e: State): (r: State)
    ensures Ranged(r) && r.fifo == [] && r.segs == e.segs && |r.pool.stripes| == |e.pool.stripes|
  {
    e.(fifo := [], pool := ResetAll(e.pool), count := 0, usedEntry := 0, usedKey := 0, usedValue := 0)
  }

  lemma EvictRanged(e: State, pos: nat)
    requires Ranged(e) && pos < |e.fifo|
    ensures Ranged(Evict(e, pos).0)
  {
  }

  /** shm_value_allocator_recycle, from list position `pos` with `cleared` entries gone. */
  function RecycleFrom(c: Config, e: State, pos: nat, cleared: nat, keys: int, now: int): (r: Outcome)
    requires Ranged(e) && pos <= |e.fifo|
    ensures Ranged(r.state) && |r.state.fifo| <= |e.fifo|
    ensures |r.state.pool.stripes| == |e.pool.stripes| && r.state.segs == e.segs
    decreases |e.fifo| - pos
  {
    if pos == |e.fifo| then
      Outcome(e, NoMemory)
    else if !Evictable(c, e.fifo[pos].binding, now) then
      RecycleFrom(c, e, pos + 1, cleared, keys, now)
    else
      EvictRanged(e, pos);
      var (e', emptied) := Evict(e, pos);
      if keys > 0 then
        if cleared + 1 >= keys then Outcome(e', Ok)
        else RecycleFrom(c, e', pos, cleared + 1, keys, now)
      else if emptied then Outcome(e', Ok)
      else RecycleFrom(c, e', pos, cleared + 1, keys, now)
  }

  function Recycle(c: Config, e: State, keys: int, now: int): (r: Outcome)
    requires Ranged(e)
    ensures Ranged(r.state) && |r.state.fifo| <= |e.fifo|
    ensures |r.state.pool.stripes| == |e.pool.stripes| && r.state.segs == e.segs
  {
    RecycleFrom(c, e, 0, 0, keys, now)
  }

  // ----- reserving space

  /** shm_value_allocator_do_alloc */
  function Reserve(c: Config, e: State, size: nat, now: int): (r: Reservation)
    requires Ranged(e)
    ensures Ranged(r.state) && r.state.fifo == e.fifo
    ensures r.Reserved? ==> r.stripe < |r.state.pool.stripes|
  {
    match Scan(e.pool, 0, size, now, c.policy)
    case Refused(pool) => Unreserved(e.(pool := pool))
    case Granted(pool, s, offset) => Reserved(e.(pool := pool, usedEntry := e.usedEntry + size), s, offset)
  }

  /** shmopt_create_value_segment, with room for one more segment. */
  function AddSegment(c: Config, e: State): (r: State)
    requires Ranged(e)
    ensures Ranged(r) && r.fifo == e.fifo
  {
    e.(pool := Grow(e.pool, e.segs, c.perSegment, c.stripeSize), segs := e.segs + 1,
       alloced := e.alloced + c.segSize)
  }

  /** The state that initialisation leaves behind: an empty table and one segment. */
  function Fresh(c: Config): (r: State)
    ensures Ranged(r)
  {
    AddSegment(c, State([], Pool([], [], [], {}), 0, 0, 0, 0, 0, c.common))
  }

  predicate ShouldRecycle(c: Config, e: State, now: int)
    requires Ranged(e)
  {
    || e.segs >= c.segMax
    || (e.pool.done != [] && c.avgTtl > 0 && now - e.pool.stripes[e.pool.done[0]].lastAlloc >= c.avgTtl)
  }

  /** What the allocator does between its two attempts. */
  function MakeRoom(c: Config, e: State, now: int): (r: Outcome)
    requires Ranged(e)
    ensures Ranged(r.state) && |r.state.fifo| <= |e.fifo|
    decreases |e.fifo|, 2
  {
    if ShouldRecycle(c, e, now) then
      var r := Recycle(c, e, -1, now);
      if r.status != Ok && !c.recycleValid then
        if r.state.segs < c.segMax then Outcome(AddSegment(c, r.state), Ok)
        else Rearrange(c, r.state, now)
      else r
    else Outcome(AddSegment(c, e), Ok)
  }

  /** shm_value_allocator_alloc */
  function Alloc(c: Config, e: State, size: nat, now: int): (r: Reservation)
    requires Ranged(e)
    ensures Ranged(r.state) && |r.state.fifo| <= |e.fifo|
    ensures r.Reserved? ==> r.stripe < |r.state.pool.stripes|
    decreases |e.fifo|, 3
  {
    var first := Reserve(c, e, size, now);
    if first.Reserved? then first
    else
      var room := MakeRoom(c, first.state, now);
      if room.status == Ok then Reserve(c, room.state, size, now) else Unreserved(room.state)
  }

  function FreeBytes(c: Config, e: State): int { e.alloced - (c.common + e.usedEntry) }

  function RearrangeFloor(c: Config, e: State): int {
    MAX_KEY_SIZE + c.maxValue + Times(|e.pool.stripes|, c.policy.discard) + c.stripeSize
  }

  /** shm_value_allocator_try_rearrange: copy out, clear, insert again. */
  function Rearrange(c: Config, e: State, now: int): (r: Outcome)
    requires Ranged(e)
    ensures Ranged(r.state) && |r.state.fifo| <= |e.fifo|
    decreases |e.fifo|, 1
  {
    if FreeBytes(c, e) < RearrangeFloor(c, e) then
      Outcome(e, NoSpace)
    else
      Reinsert(c, Clear(e), Alive(Bindings(e.fifo), now), now, |e.fifo|)
  }

  /** The insertion loop of the rearrangement; `limit` bounds the entries it may hold. */
  function Reinsert(c: Config, e: State, bs: seq<Binding>, now: int, limit: nat): (r: Outcome)
    requires Ranged(e) && |e.fifo| + |bs| <= limit
    ensures Ranged(r.state) && |r.state.fifo| <= limit
    decreases limit, 0, |bs|
  {
    if bs == [] then
      Outcome(e, Ok)
    else
      var r := Set(c, e, bs[0], now);
      if r.status != Ok then Outcome(Clear(r.state), r.status)
      else Reinsert(c, r.state, bs[1..], now, limit)
  }

  // ----- operations

  /** The entry that a reservation makes room for. */
  function NewItem(p: Pool, b: Binding, stripe: nat, offset: nat, size: nat): Item
    requires stripe < |p.stripes|
  {
    Item(b, p.stripes[stripe].segment, stripe, offset, size)
  }

  /** The new entry enters the list and the counters. */
  function Append(e: State, x: Item): (r: State) {
    e.(fifo := e.fifo + [x], count := e.count + 1,
       usedKey := e.usedKey + |x.binding.key|, usedValue := e.usedValue + |x.binding.value|)
  }

  /** The tail of shm_ht_set: drop the old entry of the key, append the new one. */
  function Bind(e: State, b: Binding, stripe: nat, offset: nat, size: nat): (r: State)
    requires Ranged(e) && stripe < |e.pool.stripes|
    ensures Ranged(r) && |r.fifo| <= |e.fifo| + 1
  {
    var k := Position(e.fifo, b.key);
    var e' := if k < |e.fifo| then EvictRanged(e, k); Evict(e, k).0 else e;
    Append(e', NewItem(e.pool, b, stripe, offset, size))
  }

  /** shm_ht_set */
  function Set(c: Config, e: State, b: Binding, now: int): (r: Outcome)
    requires Ranged(e)
    ensures Ranged(r.state) && |r.state.fifo| <= |e.fifo| + 1
    decreases |e.fifo|, 4
  {
    if |b.key| > MAX_KEY_SIZE then Outcome(e, NameTooLong)
    else if |b.value| > c.maxValue then Outcome(e, Invalid)
    else
      var first := if e.count >= c.maxKeys then Recycle(c, e, c.recycleKeyOnce, now) else Outcome(e, Ok);
      if first.status != Ok then first
      else
        var size := EntrySize(c, |b.key|, |b.value|);
        match Alloc(c, first.state, size, now)
        case Unreserved(e') => Outcome(e', NoMemory)
        case Reserved(e', s, offset) => Outcome(Bind(e', b, s, offset, size), Ok)
  }

  datatype Reply = Reply(status: Status, found: seq<Binding>)

  /** shm_ht_get: the binding is reported for an expired key too. */
  function Get(e: State, key: Bytes, now: int): Reply {
    var k := Position(e.fifo, key);
    if k == |e.fifo| then Reply(NoEntry, [])
    else if Unexpired(e.fifo[k].binding, now) then Reply(Ok, [e.fifo[k].binding])
    else Reply(TimedOut, [e.fifo[k].binding])
  }

  /** shm_ht_delete_ex */
  function Delete(e: State, key: Bytes): (r: Outcome)
    requires Ranged(e)
    ensures Ranged(r.state)
  {
    var k := Position(e.fifo, key);
    if k == |e.fifo| then Outcome(e, NoEntry) else EvictRanged(e, k); Outcome(Evict(e, k).0, Ok)
  }

  /** shm_ht_set_expires */
  function SetExpires(e: State, key: Bytes, expires: int, now: int): (r: Outcome)
    requires Ranged(e)
    ensures Ranged(r.state)
  {
    var k := Position(e.fifo, key);
    if k == |e.fifo| then Outcome(e, NoEntry)
    else if !Unexpired(e.fifo[k].binding, now) then Outcome(e, TimedOut)
    else
      var x := e.fifo[k];
      Outcome(e.(fifo := e.fifo[k := x.(binding := x.binding.(expires := expires))]), Ok)
  }

  datatype Op =
    | OpSet(binding: Binding)
    | OpGet(key: Bytes)
    | OpDelete(key: Bytes)
    | OpSetExpires(key: Bytes, expires: int)
    | OpClear

  /** One operation under the lock, with its reply. */
  function Step(c: Config, e: State, op: Op, now: int): (r: (State, Reply))
    requires Ranged(e)
    ensures Ranged(r.0)
  {
    match op
    case OpSet(b) => var o := Set(c, e, b, now); (o.state, Reply(o.status, []))
    case OpGet(key) => (e, Get(e, key, now))
    case OpDelete(key) => var o := Delete(e, key); (o.state, Reply(o.status, []))
    case OpSetExpires(key, t) => var o := SetExpires(e, key, t, now); (o.state, Reply(o.status, []))
    case OpClear => (Clear(e), Reply(Ok, []))
  }
}
