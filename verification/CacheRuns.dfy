/**
 Whole runs of the cache in place: increments, and arbitrary sequences of
 operations seen as operations of the ordered map.
 */
module CacheRuns {
  import opened Stripes
  import opened Engine
  import opened Invariants
  import opened Refinement
  import opened Stability
  import opened EntryStore
  import opened Decimal
  import opened Offsets
  import Counter
  import Sizing
  import C = Cache

  /**
   First-time initialisation: the sizes of both passes, an empty table and the first
   segment.  The list head and the allocators lie in the hashtable segment.
   */
  method Boot(l: Sizing.Limits, headerSize: nat, headAt: nat, capacity: nat, engine: Settings, hash: Bytes -> nat)
    returns (status: Status, m: C.Cache?)
    requires Sizing.Sane(l) && 1 <= engine.maxKeys && 1 <= engine.alignUnit && 0 < capacity
    requires headAt < headerSize <= OFFSET_LIMIT && Sizing.SegmentSize(l) <= OFFSET_LIMIT
    ensures var r := Sizing.Configure(l, headerSize, capacity, engine);
      if r.NoSegment? then status == NoSpace && m == null
      else
        && status == Ok && m != null && fresh(m.Repr()) && m.Valid() && m.c == r.c && m.capacity == capacity
        && m.Abs() == Fresh(r.c) && WF(r.c, m.Abs())
  {
    hide C.Cache.Valid, WF, Times;
    var setup := Sizing.Configure(l, headerSize, capacity, engine);
    if setup.NoSegment? {
      return NoSpace, null;
    }
    var cache := new C.Cache(setup.c, hash, capacity, headAt, setup.ht.objects);
    NothingWF(setup.c);
    FreshWF(setup.c);
    status := cache.CreateSegment();
    m := cache;
  }

  /** shmcache_incr, under the lock */
  method Incr(m: C.Cache, key: Bytes, increment: int, ttl: int, now: int) returns (status: Status, value: int)
    requires m.Valid() && WF(m.c, m.Abs())
    modifies m.Repr()
    ensures m.Valid() && WF(m.c, m.Abs()) && Ranged(old(m.Abs()))
    ensures var r := Counter.Incr(m.c, old(m.Abs()), key, increment, ttl, now);
      m.Abs() == r.state && status == r.status && (status != Invalid ==> value == r.value)
  {
    hide C.Cache.Valid, Core, LegalItems, Ranged, Set, Print, StrToLL, CString;
    WFRanged(m.c, m.Abs());
    var r := m.Get(key, now);
    value := increment;
    if r.status == Ok {
      var text := r.found[0].value;
      if |text| >= Counter.BUFFER_SIZE {
        return Invalid, 0;
      }
      var p := StrToLL(CString(text));
      if p.end != |CString(text)| {
        return Invalid, 0;
      }
      value := p.value + increment;
    }
    status := m.Set(Binding(key, Print(value), Counter.INTEGER_OPTIONS, Counter.ExpiresAt(now, ttl)), now);
  }

  /**
   The bytes of every entry stay, unless the operation replaces or deletes its key,
   rearranges, or evicts it.
   */
  ghost predicate BytesStay(c: Config, e: State, t: Timed, segs: seq<Bytes>, segs': seq<Bytes>)
    requires Ranged(e)
  {
    var f := Step(c, e, t.op, t.now).0.fifo;
    forall x :: x in e.fifo && !Replaces(t.op, x.binding.key) && !Moves(c, e, t.op, t.now) ==>
      (Stays(x, f) && SameBytes(c, segs, segs', x)) || Evicted(c, x, t.op, t.now, f)
  }

  ghost predicate AllCarried(c: Config, segs: seq<Bytes>, f: seq<Item>) {
    forall x :: x in f ==> Carries(c, segs, x)
  }

  lemma StaysBytes(c: Config, segs: seq<Bytes>, segs': seq<Bytes>, x: Item, f: seq<Item>)
    requires Carries(c, segs, x) && AllCarried(c, segs', f) && Stays(x, f)
    ensures SameBytes(c, segs, segs', x)
  {
    var y :| y in f && SameEntry(x, y);
    assert Carries(c, segs', y);
  }

  lemma StepBytes(c: Config, e: State, t: Timed, segs: seq<Bytes>, segs': seq<Bytes>)
    requires WF(c, e) && Ranged(e) && AllCarried(c, segs, e.fifo) && AllCarried(c, segs', Step(c, e, t.op, t.now).0.fifo)
    ensures BytesStay(c, e, t, segs, segs')
  {
    hide WF, Ranged, Step, Replaces, Moves, Stays, Evicted, SameBytes, Carries;
    var f := Step(c, e, t.op, t.now).0.fifo;
    forall x | x in e.fifo && !Replaces(t.op, x.binding.key) && !Moves(c, e, t.op, t.now)
      ensures (Stays(x, f) && SameBytes(c, segs, segs', x)) || Evicted(c, x, t.op, t.now, f)
    {
      StepInPlace(c, e, t.op, t.now, x);
      if Stays(x, f) {
        StaysBytes(c, segs, segs', x, f);
      }
    }
  }

  lemma RunBytes(c: Config, e: State, ops: seq<Timed>, segs: seq<Bytes>, segs': seq<Bytes>)
    requires WF(c, e) && Ranged(e) && AllCarried(c, segs, e.fifo) && AllCarried(c, segs', Run(c, e, ops)[|ops|].fifo)
    ensures forall x :: x in e.fifo && Undisturbed(c, e, ops, x.binding.key) ==>
      Stays(x, Run(c, e, ops)[|ops|].fifo) && SameBytes(c, segs, segs', x)
  {
    hide WF, Ranged, Run, Undisturbed, Stays, SameBytes, Carries;
    forall x | x in e.fifo && Undisturbed(c, e, ops, x.binding.key)
      ensures Stays(x, Run(c, e, ops)[|ops|].fifo) && SameBytes(c, segs, segs', x)
    {
      RunInPlace(c, e, ops, x);
      StaysBytes(c, segs, segs', x, Run(c, e, ops)[|ops|].fifo);
    }
  }

  /** One operation on the cache in place. */
  method Perform(m: C.Cache, t: Timed) returns (reply: Reply)
    requires m.Valid() && WF(m.c, m.Abs())
    modifies m.Repr()
    ensures m.Valid() && WF(m.c, m.Abs()) && Ranged(old(m.Abs()))
    ensures (m.Abs(), reply) == Step(m.c, old(m.Abs()), t.op, t.now)
    ensures BytesStay(m.c, old(m.Abs()), t, old(m.store.segs), m.store.segs)
  {
    hide C.Cache.Valid, Core, LegalItems, Ranged, Set, Evict, Engine.Get, Engine.SetExpires, Position, ResetAll, BytesStay, Carries;
    ghost var e, segs := m.Abs(), m.store.segs;
    m.LiveBytes();
    WFRanged(m.c, e);
    StepWF(m.c, e, t.op, t.now);
    match t.op {
      case OpSet(b) =>
        var status := m.Set(b, t.now);
        reply := Reply(status, []);
      case OpGet(key) =>
        reply := m.Get(key, t.now);
      case OpDelete(key) =>
        var status, emptied := m.DeleteEx(key);
        reply := Reply(status, []);
      case OpSetExpires(key, expires) =>
        var status := m.SetExpires(key, expires, t.now);
        reply := Reply(status, []);
      case OpClear =>
        m.Ready();
        var cleared := m.Clear();
        reply := Reply(Ok, []);
    }
    m.LiveBytes();
    StepBytes(m.c, e, t, segs, m.store.segs);
  }

  /**
   Any sequence of operations on the cache in place is a run of the
   insertion-ordered map, reply by reply, and the bytes of an entry stay until its
   key is replaced, deleted, evicted or moved by a rearrangement.
   */
  method Serve(m: C.Cache, ops: seq<Timed>) returns (replies: seq<Reply>)
    requires m.Valid() && WF(m.c, m.Abs())
    modifies m.Repr()
    ensures m.Valid() && WF(m.c, m.Abs()) && Ranged(old(m.Abs())) && |replies| == |ops|
    ensures var r := Run(m.c, old(m.Abs()), ops);
      && m.Abs() == r[|ops|]
      && forall i :: 0 <= i < |ops| ==>
           Steps(m.c, r[i], ops[i].op, ops[i].now, replies[i], r[i + 1])
    ensures forall x :: x in old(m.Abs()).fifo && Undisturbed(m.c, old(m.Abs()), ops, x.binding.key) ==>
      Stays(x, m.Abs().fifo) && SameBytes(m.c, old(m.store.segs), m.store.segs, x)
  {
    hide C.Cache.Valid, WF, Ranged, Step, Steps, BytesStay, Undisturbed, Stays, SameBytes, Carries;
    ghost var e, segs := m.Abs(), m.store.segs;
    m.LiveBytes();
    WFRanged(m.c, e);
    ghost var r := Run(m.c, e, ops);
    replies := [];
    var n := 0;
    while n < |ops|
      invariant 0 <= n <= |ops| && |replies| == n
      invariant m.Valid() && WF(m.c, m.Abs()) && m.Abs() == r[n]
      invariant forall i :: 0 <= i < n ==>
        Steps(m.c, r[i], ops[i].op, ops[i].now, replies[i], r[i + 1])
    {
      RunRefines(m.c, e, ops, n);
      var reply := Perform(m, ops[n]);
      replies := replies + [reply];
      n := n + 1;
    }
    m.LiveBytes();
    RunBytes(m.c, e, ops, segs, m.store.segs);
  }
}
