/**
 The stripe allocators and their two ring queues, updated in place.  Queues hold
 the byte offsets of allocator objects; the ghost fields name the stripes.
 */
module StripePool {
  import opened Seqs
  import opened Stripes
  import opened RingQueue

  class StripePool {
    /** The offset of the allocator array in the hashtable segment. */
    const base: int
    const doing: Ring
    const done: Ring
    var stripes: seq<Stripe>
    ghost var Doing: seq<nat>
    ghost var Done: seq<nat>
    ghost var Lost: set<nat>

    function OffsetOf(s: nat): int { base + s * ALLOCATOR_SIZE }

    /** The stripe whose allocator lies at an offset. */
    function StripeAt(o: int): int { (o - base) / ALLOCATOR_SIZE }

    /** The queue holds the allocators of these stripes, in this order. */
    ghost predicate Holds(q: seq<int>, s: seq<nat>) {
      |q| == |s| && forall i :: 0 <= i < |s| ==> q[i] == OffsetOf(s[i])
    }

    /** The objects are apart and the rings have a slot for every stripe and one more. */
    ghost predicate Shape()
      reads this, doing, done
    {
      && base > 0 && doing != done && doing.offsets != done.offsets
      && doing.Valid() && done.Valid()
      && |stripes| < doing.offsets.Length && |stripes| < done.offsets.Length
    }

    /** The ghost queues are what the rings hold. */
    ghost predicate Mirrored()
      requires doing.Valid() && done.Valid()
      reads this`Doing, this`Done, doing, done, doing.offsets, done.offsets
    {
      Holds(doing.Contents(), Doing) && Holds(done.Contents(), Done)
    }

    ghost predicate Valid()
      reads this, doing, done, doing.offsets, done.offsets
    {
      Shape() && Mirrored() && Queued(State())
    }

    ghost function State(): Pool
      reads this
    {
      Pool(stripes, Doing, Done, Lost)
    }

    constructor (allocatorBase: int, maxStripes: nat)
      requires allocatorBase > 0
      ensures Valid() && State() == Pool([], [], [], {}) && fresh(doing) && fresh(done)
      ensures fresh(doing.offsets) && fresh(done.offsets)
      ensures doing.offsets.Length == done.offsets.Length == maxStripes + 1
    {
      base := allocatorBase;
      doing := new Ring(maxStripes + 1);
      done := new Ring(maxStripes + 1);
      stripes, Doing, Done, Lost := [], [], [], {};
    }

    /** Takes the stripe under the cursor out of `doing`. */
    method RetireHere(o: int, i: nat, pol: Policy, ghost pos: nat)
      requires Valid() && pos < |Doing| && i == Doing[pos] && i < |stripes| && o == OffsetOf(i)
      requires doing.index >= 0 && doing.Cursor() == pos
      modifies this, doing`head, doing.offsets, done`tail, done.offsets
      ensures Valid() && State() == Retire(old(State()), pos, pol)
      ensures doing.index >= 0 && doing.Cursor() == pos - 1
    {
      hide Ring.Contents, Ring.Cursor, Queued, Ring.Distance, Holds, OffsetOf, InRange;
      ghost var p, q, r := State(), doing.Contents(), done.Contents();
      RetireQueued(p, pos, pol);
      RetireFits(p, pos);
      HoldsSizes(q, Doing);
      HoldsSizes(r, Done);
      HoldsRemove(q, Doing, pos);
      HoldsAppend(r, Done, i);
      HoldsReport(p, q, pos, pol.documented);
      var removed := doing.RemoveHere(pol.documented);
      if removed == o {
        stripes := stripes[i := stripes[i].(inDone := true)];
        var full := done.Push(o);
        assert full == 0;
        Done := Done + [i];
      } else {
        Lost := Lost + {i};
      }
      Doing := RemoveAt(Doing, pos);
    }

    static lemma RetireFits(p: Pool, pos: nat)
      requires Queued(p) && pos < |p.doing|
      ensures |p.done| < |p.stripes| && p.doing[pos] < |p.stripes|
    {
      QueuesFit(p);
      assert p.doing[pos] in p.doing;
    }

    lemma HoldsSizes(q: seq<int>, s: seq<nat>)
      requires Holds(q, s)
      ensures |q| == |s|
    {
    }

    lemma HoldsRemove(q: seq<int>, s: seq<nat>, k: nat)
      requires Holds(q, s) && k < |s|
      ensures Holds(RemoveAt(q, k), RemoveAt(s, k)) && q[k] == OffsetOf(s[k])
    {
    }

    lemma HoldsAppend(q: seq<int>, s: seq<nat>, x: nat)
      requires Holds(q, s)
      ensures Holds(q + [OffsetOf(x)], s + [x])
    {
    }

    /** In a queue of distinct stripes the reported offset is the removed one iff it was saved or at the head. */
    lemma HoldsReport(p: Pool, q: seq<int>, pos: nat, documented: bool)
      requires Queued(p) && Holds(q, p.doing) && pos < |p.doing|
      ensures |q| == |p.doing|
      ensures q[if documented || pos == 0 then pos else pos - 1] == OffsetOf(p.doing[pos]) <==> documented || pos == 0
    {
    }

    /** Queued offsets are positive and lead back to their stripe. */
    lemma HoldsPositive(q: seq<int>, s: seq<nat>)
      requires Holds(q, s) && base > 0
      ensures |q| == |s| && forall x :: x in q ==> x > 0
      ensures forall i :: 0 <= i < |s| ==> q[i] == OffsetOf(s[i]) && q[i] > 0 && StripeAt(q[i]) == s[i]
    {
    }

    lemma {:induction false} HoldsWithout(q: seq<int>, s: seq<nat>, x: nat)
      requires Holds(q, s)
      ensures OffsetOf(x) in q <==> x in s
      ensures Holds(Without(q, OffsetOf(x)), Without<nat>(s, x))
    {
      if s != [] {
        HoldsWithout(q[1..], s[1..], x);
      }
    }

    /** What the scan does with a stripe that has no room. */
    method PassHere(o: int, i: nat, pol: Policy, ghost pos: nat) returns (ghost next: nat)
      requires Valid() && pos < |Doing| && i == Doing[pos] && i < |stripes| && o == OffsetOf(i)
      requires doing.index >= 0 && doing.Cursor() == pos
      modifies this, doing`head, doing.offsets, done`tail, done.offsets
      ensures Valid() && InRange(old(State())) && (State(), next) == Passed(old(State()), pos, pol)
      ensures doing.index >= 0 && doing.Cursor() == next - 1
    {
      hide Ring.Contents, Ring.Cursor, Queued, Ring.Distance, Ring.Size, Holds, Retire;
      ghost var p := State();
      InRangeAt(p);
      RestripeQueued(p, i, p.stripes[i].Miss());
      InRangeAt(p.(stripes := p.stripes[i := p.stripes[i].Miss()]));
      stripes := stripes[i := stripes[i].Miss()];
      next := pos + 1;
      if Discards(stripes[i], pol) {
        RetireHere(o, i, pol, pos);
        next := pos;
      }
    }

    /** shm_value_allocator_do_alloc */
    method DoAlloc(size: nat, now: int, pol: Policy) returns (s: int, offset: nat)
      requires Valid()
      modifies this, doing, doing.offsets, done`tail, done.offsets
      ensures Valid() && InRange(old(State()))
      ensures var g := Scan(old(State()), 0, size, now, pol);
        && State() == g.pool
        && s == (if g.Granted? then g.stripe else -1)
        && (g.Granted? ==> offset == g.offset)
    {
      hide Ring.Contents, Ring.Cursor, Queued, Ring.Distance, Ring.Size, Holds, Passed, InRange, OffsetOf, StripeAt;
      InRangeAt(State());
      ghost var g := Scan(State(), 0, size, now, pol);
      ghost var pos := 0;
      HoldsPositive(doing.Contents(), Doing);
      var o := doing.First();
      while o > 0
        invariant Valid() && InRange(State()) && 0 <= pos <= |Doing| && (o > 0 <==> pos < |Doing|)
        invariant pos < |Doing| ==>
          doing.index >= 0 && doing.Cursor() == pos && o == OffsetOf(Doing[pos]) && StripeAt(o) == Doing[pos]
        invariant Scan(State(), pos, size, now, pol) == g
        decreases |Doing| - pos
      {
        var i := StripeAt(o);
        InRangeOf(State(), pos);
        if stripes[i].FreeSize() >= size {
          offset := stripes[i].free;
          RestripeQueued(State(), i, stripes[i].Bump(size, now));
          stripes := stripes[i := stripes[i].Bump(size, now)];
          return i, offset;
        }
        pos := PassHere(o, i, pol, pos);
        HoldsPositive(doing.Contents(), Doing);
        o := doing.Next();
      }
      s, offset := -1, 0;
    }

    /** Moves a stripe from `done` to the tail of `doing`. */
    method MoveToDoing(s: nat) returns (removed: int)
      requires Shape() && Mirrored() && s in Done && |Doing| + 1 < doing.offsets.Length
      modifies this`Doing, this`Done, doing`tail, doing.offsets, done`head, done`index, done.offsets
      ensures Shape() && Mirrored() && removed >= 0
      ensures Doing == old(Doing) + [s] && Done == Without(old(Done), s)
    {
      hide Ring.Contents, Ring.Cursor, Ring.Distance, Holds, OffsetOf, StripeAt, Without;
      HoldsPositive(done.Contents(), Done);
      HoldsSizes(doing.Contents(), Doing);
      HoldsWithout(done.Contents(), Done, s);
      HoldsAppend(doing.Contents(), Doing, s);
      var o := OffsetOf(s);
      removed := done.RemoveBy(o);
      if removed >= 0 {
        var full := doing.Push(o);
        assert full == 0;
        Done, Doing := Without(Done, s), Doing + [s];
      }
    }

    /** shm_value_allocator_do_recycle: an emptied stripe that was given up is queued again. */
    method RequeueStripe(s: nat)
      requires Valid() && s < |stripes|
      modifies this, doing`tail, doing.offsets, done`head, done`index, done.offsets
      ensures Shape() && Mirrored() && State() == Requeue(old(State()), s)
    {
      hide Queued, Mirrored, Without;
      if stripes[s].inDone {
        DoneMember(State(), s);
        RequeueFits(State(), s);
        var removed := MoveToDoing(s);
        stripes := stripes[s := stripes[s].(inDone := false)];
      }
    }

    static lemma DoneMember(p: Pool, s: nat)
      requires Queued(p) && s < |p.stripes| && p.stripes[s].inDone
      ensures s in p.done
    {
    }

    static lemma RequeueFits(p: Pool, s: nat)
      requires Queued(p) && s in p.done
      ensures |p.doing| < |p.stripes|
    {
      QueuesFit(p);
    }

    /** shm_value_allocator_free */
    method Free(s: nat, size: nat) returns (emptied: bool)
      requires Valid() && s < |stripes|
      modifies this, doing`tail, doing.offsets, done`head, done`index, done.offsets
      ensures Valid() && (State(), emptied) == Release(old(State()), s, size)
    {
      hide Ring.Contents, Queued, Holds, Requeue;
      ghost var p := State();
      ReleaseQueued(p, s, size);
      var used := stripes[s].used - size;
      stripes := stripes[s := stripes[s].(used := used)];
      emptied := used <= 0;
      if emptied {
        stripes := stripes[s := stripes[s].Reset()];
        RestripeQueued(p, s, p.stripes[s].(used := used).Reset());
        assert stripes == p.stripes[s := p.stripes[s].(used := used).Reset()];
        RequeueStripe(s);
      }
    }

    /** Queues a stripe that is ready for allocations. */
    method Enqueue(s: nat)
      requires Shape() && Mirrored() && |Doing| + 1 < doing.offsets.Length
      modifies this`Doing, doing`tail, doing.offsets
      ensures Shape() && Mirrored() && Doing == old(Doing) + [s]
    {
      hide Ring.Contents, Holds, OffsetOf;
      HoldsSizes(doing.Contents(), Doing);
      HoldsAppend(doing.Contents(), Doing, s);
      var full := doing.Push(OffsetOf(s));
      assert full == 0;
      Doing := Doing + [s];
    }

    /**
     The allocator part of shm_ht_clear.  It needs only that the rings are intact
     objects: contents, cursors and stripe counters may be anything.
     */
    method Clear()
      requires Shape()
      modifies this, doing, doing.offsets, done`head, done`tail
      ensures Valid() && State() == ResetAll(old(State()))
    {
      hide Mirrored, Queued, ResetAll, ResetUpTo, Range;
      ghost var p := State();
      ResetAllQueued(p);
      ResetNone(p);
      EmptyQueues();
      var i := 0;
      while i < |stripes|
        invariant Shape() && Mirrored() && i <= |stripes| == |p.stripes| && ResetUpTo(State(), p, i)
      {
        ResetStep(State(), p, i);
        stripes := stripes[i := stripes[i].Reset().(inDone := false)];
        Enqueue(i);
        i := i + 1;
      }
      ResetEvery(State(), p);
    }

    /** A clear under way: the first `i` stripes are reset and queued. */
    static ghost predicate ResetUpTo(q: Pool, p: Pool, i: nat) {
      && i <= |q.stripes| == |p.stripes| && q.doing == Range(0, i) && q.done == [] && q.lost == {}
      && forall k :: 0 <= k < |p.stripes| ==>
           q.stripes[k] == if k < i then p.stripes[k].Reset().(inDone := false) else p.stripes[k]
    }
    /** Both rings emptied, whatever they held. */
    method EmptyQueues()
      requires Shape()
      modifies this`Doing, this`Done, this`Lost, doing`head, doing`tail, done`head, done`tail
      ensures Shape() && Mirrored() && Doing == [] && Done == [] && Lost == {}
    {
      hide Ring.Contents, Holds, OffsetOf;
      doing.InitEmpty();
      done.InitEmpty();
      Doing, Done, Lost := [], [], {};
      HoldsNone();
    }

    static lemma ResetNone(p: Pool)
      ensures ResetUpTo(Pool(p.stripes, [], [], {}), p, 0)
    {
    }

    static lemma ResetStep(q: Pool, p: Pool, i: nat)
      requires ResetUpTo(q, p, i) && i < |q.stripes|
      ensures |q.doing| == i
      ensures ResetUpTo(Pool(q.stripes[i := q.stripes[i].Reset().(inDone := false)], q.doing + [i], q.done, q.lost), p, i + 1)
    {
    }

    static lemma ResetEvery(q: Pool, p: Pool)
      requires ResetUpTo(q, p, |p.stripes|)
      ensures q == ResetAll(p)
    {
      assert q.stripes == ResetAll(p).stripes;
    }

    lemma HoldsNone()
      ensures Holds([], [])
    {
    }

    /** The loop of shmopt_create_value_segment: carves `n` stripes and queues them. */
    method CarveSegment(segment: nat, n: nat, size: nat)
      requires Valid() && |stripes| + n < doing.offsets.Length && |stripes| + n < done.offsets.Length
      modifies this, doing`tail, doing.offsets
      ensures Valid() && State() == Grow(old(State()), segment, n, size)
    {
      hide Ring.Contents, Queued, Holds, OffsetOf, Mirrored;
      ghost var p := State();
      ghost var g := Grow(p, segment, n, size);
      GrowQueued(p, segment, n, size);
      CarveFits(p);
      var i, offset := 0, 0;
      while i < n
        invariant Shape() && 0 <= i <= n && offset == Times(i, size)
        invariant |stripes| == |p.stripes| + i && stripes == g.stripes[..|stripes|]
        invariant |Doing| == |p.doing| + i && Doing == g.doing[..|Doing|] && Done == p.done && Lost == p.lost
        invariant Mirrored()
      {
        var s := |stripes|;
        stripes := stripes + [Stripe(segment, offset, size, offset, 0, 0, 0, false)];
        Enqueue(s);
        offset := offset + size;
        i := i + 1;
      }
      assert stripes == g.stripes && Doing == g.doing;
    }

    static lemma CarveFits(p: Pool)
      requires Queued(p)
      ensures |p.doing| <= |p.stripes|
    {
      QueuesFit(p);
    }

    /** The stripe at the head of `done`, or -1. */
    method FirstDone() returns (s: int)
      requires Valid()
      modifies done`index
      ensures Valid() && State() == old(State())
      ensures s == if Done == [] then -1 else Done[0]
    {
      hide Ring.Contents, Ring.Cursor, Queued, Ring.Distance, Holds, OffsetOf, StripeAt;
      HoldsPositive(done.Contents(), Done);
      var o := done.First();
      s := if o > 0 then StripeAt(o) else -1;
    }

    static lemma InRangeOf(p: Pool, pos: nat)
      requires InRange(p) && pos < |p.doing|
      ensures p.doing[pos] < |p.stripes|
    {
    }

    static lemma InRangeAt(p: Pool)
      requires Queued(p)
      ensures InRange(p)
    {
    }
  }
}
