/**
 The cache as its users see it: an insertion-ordered map from keys to bindings
 that may forget entries it is allowed to evict.
 */
module OrderedMap {
  import opened Seqs
  import opened Engine

  /** The position of a key, or the length of the map. */
  function Find(m: seq<Binding>, key: Bytes): (k: nat)
    ensures k <= |m|
    ensures k < |m| ==> m[k].key == key
    ensures forall i :: 0 <= i < k ==> m[i].key != key
  {
    if m == [] then 0 else if m[0].key == key then 0 else 1 + Find(m[1..], key)
  }

  function DropKey(m: seq<Binding>, key: Bytes): seq<Binding> {
    var k := Find(m, key);
    if k < |m| then RemoveAt(m, k) else m
  }

  /** `kept` is `m` without some of the entries that eviction may take. */
  ghost predicate Evicts(c: Config, m: seq<Binding>, kept: seq<Binding>, now: int) {
    Thins(m, kept, (b: Binding) => Evictable(c, b, now))
  }

  // ----- eviction, oldest first

  /** The bindings that eviction may not take. */
  function Protected(c: Config, m: seq<Binding>, now: int): (r: seq<Binding>)
    ensures |r| <= |m|
  {
    if m == [] then []
    else
      var n := |m| - 1;
      Protected(c, m[..n], now) + (if Evictable(c, m[n], now) then [] else [m[n]])
  }

  /** The map once everything evictable before position `z` is gone. */
  function Surviving(c: Config, m: seq<Binding>, z: nat, now: int): seq<Binding>
    requires z <= |m|
  {
    Protected(c, m[..z], now) + m[z..]
  }

  /**
   Memory is handed out in bins, and comes back when a bin is empty; `bins` names
   the bin of every binding.  Evicting position `p` in its turn empties its bin:
   no later binding is in it, and the earlier ones in it may be evicted too.
   */
  ghost predicate Clears(c: Config, m: seq<Binding>, bins: seq<nat>, p: nat, now: int)
    requires p < |m| == |bins|
  {
    && Evictable(c, m[p], now)
    && (forall i :: p < i < |m| ==> bins[i] != bins[p])
    && (forall i :: 0 <= i < p && bins[i] == bins[p] ==> Evictable(c, m[i], now))
  }

  /**
   Recycling goes on from position `start` to `z`.  With a positive count it ends
   behind that many evictable bindings, otherwise behind the first that clears its
   bin; it fails at the end of the map.
   */
  ghost predicate MapRecycle(c: Config, m: seq<Binding>, bins: seq<nat>, start: nat, keys: int, now: int, ok: bool, z: nat) {
    && start <= z <= |m| == |bins|
    && if keys > 0 then
         if ok then
           start < z && Evictable(c, m[z - 1], now) && z - |Protected(c, m[..z], now)| == keys
         else
           z == |m| && |m| - |Protected(c, m, now)| < keys
       else if ok then
         start < z && Clears(c, m, bins, z - 1, now) && forall p :: start <= p < z - 1 ==> !Clears(c, m, bins, p, now)
       else
         z == |m| && forall p :: start <= p < |m| ==> !Clears(c, m, bins, p, now)
  }

  /** Evictions at the key limit; below it there are none. */
  ghost predicate KeyLimit(c: Config, m: seq<Binding>, bins: seq<nat>, now: int, ok: bool, z: nat) {
    if |m| < c.maxKeys then ok && z == 0 else MapRecycle(c, m, bins, 0, c.recycleKeyOnce, now, ok, z)
  }

  /**
   What memory offers to a set once the key limit is dealt with: room as it is,
   room by growing, or nothing without recycling a bin.
   */
  datatype Room = Ample | Growable | Scarce

  /** The end of a set for which a bin had to be recycled, up to position `z`. */
  ghost predicate Squeezed(c: Config, m: seq<Binding>, ok: bool, z: nat, b: Binding, now: int, status: Status, m': seq<Binding>)
    requires z <= |m|
  {
    if status == Ok then
      (ok || !c.recycleValid) && m' == DropKey(Surviving(c, m, z, now), b.key) + [b]
    else
      status == NoMemory && (m' == Surviving(c, m, z, now) || (!ok && !c.recycleValid && m' == []))
  }

  /** The rest of a set after the key limit took everything evictable before `z`. */
  ghost predicate MapAlloc(c: Config, m: seq<Binding>, bins: seq<nat>, room: Room, z: nat, b: Binding, now: int,
                           status: Status, m': seq<Binding>)
    requires z <= |m|
  {
    match room
    case Ample => status == Ok && m' == DropKey(Surviving(c, m, z, now), b.key) + [b]
    case Growable =>
      if EntrySize(c, |b.key|, |b.value|) <= c.stripeSize then
        status == Ok && m' == DropKey(Surviving(c, m, z, now), b.key) + [b]
      else
        status == NoMemory && m' == Surviving(c, m, z, now)
    case Scarce =>
      exists ok: bool, y: nat :: MapRecycle(c, m, bins, z, -1, now, ok, y) && Squeezed(c, m, ok, y, b, now, status, m')
  }

  /**
   Set: evictions for the key limit, then evictions for memory if it is scarce, then
   the old binding of the key goes and the new one comes last.
   */
  ghost predicate MapSet(c: Config, m: seq<Binding>, bins: seq<nat>, room: Room, b: Binding, now: int,
                         status: Status, m': seq<Binding>)
  {
    if |b.key| > MAX_KEY_SIZE then status == NameTooLong && m' == m
    else if |b.value| > c.maxValue then status == Invalid && m' == m
    else
      exists ok: bool, z: nat ::
        && KeyLimit(c, m, bins, now, ok, z) && z <= |m|
        && if ok then MapAlloc(c, m, bins, room, z, b, now, status, m')
           else status == NoMemory && m' == Surviving(c, m, z, now)
  }

  function MapGet(m: seq<Binding>, key: Bytes, now: int): Reply {
    var k := Find(m, key);
    if k == |m| then Reply(NoEntry, [])
    else Reply(if Unexpired(m[k], now) then Ok else TimedOut, [m[k]])
  }

  ghost predicate MapDelete(m: seq<Binding>, key: Bytes, status: Status, m': seq<Binding>) {
    m' == DropKey(m, key) && status == (if Find(m, key) < |m| then Ok else NoEntry)
  }

  /** The position of the key does not change. */
  ghost predicate MapSetExpires(m: seq<Binding>, key: Bytes, t: int, now: int, status: Status, m': seq<Binding>) {
    var k := Find(m, key);
    && status == MapGet(m, key, now).status
    && m' == (if status == Ok then m[k := m[k].(expires := t)] else m)
  }

  /** One operation on the map. */
  ghost predicate MapStep(c: Config, m: seq<Binding>, bins: seq<nat>, room: Room, op: Op, now: int,
                          reply: Reply, m': seq<Binding>)
  {
    match op
    case OpSet(b) => MapSet(c, m, bins, room, b, now, reply.status, m')
    case OpGet(key) => reply == MapGet(m, key, now) && m' == m
    case OpDelete(key) => MapDelete(m, key, reply.status, m')
    case OpSetExpires(key, t) => MapSetExpires(m, key, t, now, reply.status, m')
    case OpClear => reply.status == Ok && m' == []
  }

  // ----- facts about the map

  /** A successful set keeps what survives up to some position, and binds the key last. */
  lemma SetKeeps(c: Config, m: seq<Binding>, bins: seq<nat>, room: Room, b: Binding, now: int, m': seq<Binding>)
    returns (z: nat)
    requires MapSet(c, m, bins, room, b, now, Ok, m')
    ensures z <= |m| && m' == DropKey(Surviving(c, m, z, now), b.key) + [b]
    ensures Evicts(c, m, Surviving(c, m, z, now), now)
  {
    hide DropKey, Surviving, Clears, Evicts, Protected, EntrySize;
    var ok: bool, y: nat :| ok && KeyLimit(c, m, bins, now, ok, y) && y <= |m| && MapAlloc(c, m, bins, room, y, b, now, Ok, m');
    z := y;
    if room == Scarce {
      var done: bool, x: nat :| MapRecycle(c, m, bins, y, -1, now, done, x) && Squeezed(c, m, done, x, b, now, Ok, m');
      z := x;
    }
    SurvivingEvicts(c, m, z, now);
  }

  /**
   With valid entries recyclable, a set takes the oldest bindings and no others, and
   takes none unless the key limit is reached or memory is scarce.
   */
  lemma FifoSet(c: Config, m: seq<Binding>, bins: seq<nat>, room: Room, b: Binding, now: int, status: Status, m': seq<Binding>)
    returns (z: nat)
    requires c.recycleValid && |b.key| <= MAX_KEY_SIZE && |b.value| <= c.maxValue
    requires MapSet(c, m, bins, room, b, now, status, m')
    ensures z <= |m| && (z > 0 ==> |m| >= c.maxKeys || room == Scarce)
    ensures if status == Ok then m' == DropKey(m[z..], b.key) + [b] else status == NoMemory && m' == m[z..]
  {
    hide DropKey, Surviving, Clears, Protected, EntrySize;
    var ok: bool, y: nat :| KeyLimit(c, m, bins, now, ok, y) && y <= |m|
      && (ok ==> MapAlloc(c, m, bins, room, y, b, now, status, m'))
      && (!ok ==> status == NoMemory && m' == Surviving(c, m, y, now));
    z := y;
    if ok && room == Scarce {
      var done: bool, x: nat :| MapRecycle(c, m, bins, y, -1, now, done, x) && Squeezed(c, m, done, x, b, now, status, m');
      z := x;
    }
    ForcedSurviving(c, m, z, now);
  }

  lemma ForcedSurviving(c: Config, m: seq<Binding>, z: nat, now: int)
    requires c.recycleValid && z <= |m|
    ensures Surviving(c, m, z, now) == m[z..]
  {
    ForcedProtected(c, m[..z], now);
  }

  lemma {:induction false} ForcedProtected(c: Config, m: seq<Binding>, now: int)
    requires c.recycleValid
    ensures Protected(c, m, now) == []
  {
    if m != [] {
      ForcedProtected(c, m[..|m| - 1], now);
    }
  }

  lemma SurvivingEvicts(c: Config, m: seq<Binding>, z: nat, now: int)
    requires z <= |m|
    ensures Evicts(c, m, Surviving(c, m, z, now), now)
  {
    var drop := (b: Binding) => Evictable(c, b, now);
    ProtectedEvicts(c, m[..z], now);
    ThinsRefl(m[z..], drop);
    ThinsConcat(m[..z], Protected(c, m[..z], now), m[z..], m[z..], drop);
    assert m == m[..z] + m[z..];
  }

  lemma {:induction false} ProtectedEvicts(c: Config, m: seq<Binding>, now: int)
    ensures Evicts(c, m, Protected(c, m, now), now)
  {
    if m != [] {
      var n := |m| - 1;
      var drop := (b: Binding) => Evictable(c, b, now);
      ProtectedEvicts(c, m[..n], now);
      var last := if drop(m[n]) then [] else [m[n]];
      assert Thins([m[n]], last, drop) by {
        assert [m[n]][1..] == [];
      }
      ThinsConcat(m[..n], Protected(c, m[..n], now), [m[n]], last, drop);
      assert m == m[..n] + [m[n]];
    }
  }

  /** Where nothing may be evicted, nothing is. */
  lemma {:induction false} EvictsNothing(c: Config, m: seq<Binding>, kept: seq<Binding>, now: int)
    requires Evicts(c, m, kept, now) && !c.recycleValid
    requires forall i :: 0 <= i < |m| ==> Unexpired(m[i], now)
    ensures kept == m
    decreases |m|
  {
    if m != [] {
      EvictsNothing(c, m[1..], kept[1..], now);
    }
  }

  lemma {:induction false} AliveIsAlive(bs: seq<Binding>, now: int)
    ensures forall i :: 0 <= i < |Alive(bs, now)| ==> Unexpired(Alive(bs, now)[i], now)
    ensures forall b :: b in Alive(bs, now) <==> b in bs && Unexpired(b, now)
  {
    if bs != [] {
      AliveIsAlive(bs[1..], now);
      assert bs == [bs[0]] + bs[1..];
    }
  }

  /** With valid entries protected, an eviction keeps exactly the unexpired bindings, in order. */
  lemma {:induction false} EvictsKeepsAlive(c: Config, m: seq<Binding>, kept: seq<Binding>, now: int)
    requires Evicts(c, m, kept, now) && !c.recycleValid
    ensures Alive(kept, now) == Alive(m, now)
    decreases |m|
  {
    if m != [] {
      var drop := (b: Binding) => Evictable(c, b, now);
      if kept != [] && kept[0] == m[0] && Thins(m[1..], kept[1..], drop) {
        EvictsKeepsAlive(c, m[1..], kept[1..], now);
      } else {
        EvictsKeepsAlive(c, m[1..], kept, now);
      }
    }
  }

  lemma {:induction false} AliveConcat(s: seq<Binding>, t: seq<Binding>, now: int)
    ensures Alive(s + t, now) == Alive(s, now) + Alive(t, now)
  {
    if s == [] {
      assert s + t == t;
    } else {
      assert (s + t)[1..] == s[1..] + t;
      AliveConcat(s[1..], t, now);
    }
  }

  ghost predicate Lacks(m: seq<Binding>, key: Bytes) {
    forall i :: 0 <= i < |m| ==> m[i].key != key
  }

  ghost predicate UniqueKeys(m: seq<Binding>) {
    m == [] || (Lacks(m[1..], m[0].key) && UniqueKeys(m[1..]))
  }

  lemma DropKeyCons(x: Binding, t: seq<Binding>, key: Bytes)
    ensures DropKey([x] + t, key) == if x.key == key then t else [x] + DropKey(t, key)
  {
    assert ([x] + t)[1..] == t;
  }

  lemma {:induction false} AliveLacks(m: seq<Binding>, key: Bytes, now: int)
    requires Lacks(m, key)
    ensures Lacks(Alive(m, now), key) && DropKey(Alive(m, now), key) == Alive(m, now)
  {
    if m != [] {
      AliveLacks(m[1..], key, now);
      DropKeyCons(m[0], Alive(m[1..], now), key);
    }
  }

  lemma AliveCons(x: Binding, t: seq<Binding>, now: int)
    ensures Alive([x] + t, now) == if Unexpired(x, now) then [x] + Alive(t, now) else Alive(t, now)
  {
    assert ([x] + t)[1..] == t;
  }

  /** Dropping a key commutes with forgetting expired bindings. */
  lemma {:induction false} AliveDropKey(m: seq<Binding>, key: Bytes, now: int)
    requires UniqueKeys(m)
    ensures Alive(DropKey(m, key), now) == DropKey(Alive(m, now), key)
  {
    if m == [] {
      assert DropKey([], key) == [];
    } else {
      var x, t := m[0], m[1..];
      assert m == [x] + t && Lacks(t, x.key) && UniqueKeys(t);
      AliveDropCons(x, t, key, now);
      AliveDropKey(t, key, now);
    }
  }

  lemma AliveDropCons(x: Binding, t: seq<Binding>, key: Bytes, now: int)
    requires Lacks(t, x.key)
    ensures Alive(DropKey(t, key), now) == DropKey(Alive(t, now), key) ==>
      Alive(DropKey([x] + t, key), now) == DropKey(Alive([x] + t, now), key)
  {
    hide DropKey, Unexpired, Alive, Lacks;
    DropKeyCons(x, t, key);
    DropKeyCons(x, Alive(t, now), key);
    AliveCons(x, t, now);
    AliveCons(x, DropKey(t, key), now);
    if x.key == key {
      AliveLacks(t, key, now);
    }
  }
}
