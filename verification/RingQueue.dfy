/**
 The ring queue of object offsets, with its scan cursor.  One slot stays free, so
 equal head and tail mean an empty queue.
 */
module RingQueue {
  import opened Seqs

  const ENOSPC := 28

  // ----- the ring on values

  ghost function View(a: seq<int>, head: nat, tail: nat): (s: seq<int>)
    requires head < |a| && tail < |a|
    ensures |s| == Gap(|a|, head, tail) < |a|
  {
    if head <= tail then a[head..tail] else a[head..] + a[..tail]
  }

  /** How far slot `p` is behind slot `head` in a ring of `n` slots. */
  function Gap(n: nat, head: nat, p: nat): (d: nat)
    requires head < n && p < n
    ensures d < n
  {
    if head <= p then p - head else n - head + p
  }

  function Up(n: nat, p: nat): (r: nat)
    requires p < n
    ensures r < n
  {
    if p + 1 == n then 0 else p + 1
  }

  function Down(n: nat, p: nat): (r: nat)
    requires p < n
    ensures r < n
  {
    if p == 0 then n - 1 else p - 1
  }

  /** The slot of list position `i`. */
  function Slot(n: nat, head: nat, i: nat): (p: nat)
    requires head < n && i < n
    ensures p < n && Gap(n, head, p) == i
  {
    if head + i < n then head + i else head + i - n
  }

  lemma ViewAt(a: seq<int>, head: nat, tail: nat, i: nat)
    requires head < |a| && tail < |a| && i < |View(a, head, tail)|
    ensures View(a, head, tail)[i] == a[Slot(|a|, head, i)]
  {
  }

  /** The contents after a removal at distance `d` from the head: the last element goes if `d` is past the end. */
  ghost function Removed(s: seq<int>, d: nat): (r: seq<int>)
    requires s != []
    ensures |r| == |s| - 1
    ensures forall i :: 0 <= i < |r| ==> r[i] == if i < d then s[i] else s[i + 1]
  {
    if d < |s| then RemoveAt(s, d) else s[..|s| - 1]
  }

  /** `b` is `a` with the elements up to distance `d` from the head moved one slot up. */
  ghost predicate Shifted(a: seq<int>, b: seq<int>, head: nat, d: nat)
    requires head < |a|
  {
    && |b| == |a|
    && forall p :: 0 <= p < |a| ==> b[p] == if 0 < Gap(|a|, head, p) <= d then a[Down(|a|, p)] else a[p]
  }

  /** Shifting up to the cursor and advancing the head removes exactly the cursor element. */
  lemma ShiftRemoves(a: seq<int>, b: seq<int>, head: nat, tail: nat, d: nat)
    requires head < |a| && tail < |a| && head != tail && d < |a| && Shifted(a, b, head, d)
    ensures View(b, Up(|a|, head), tail) == Removed(View(a, head, tail), d)
  {
    var s, t := View(a, head, tail), View(b, Up(|a|, head), tail);
    forall i | 0 <= i < |t|
      ensures t[i] == Removed(s, d)[i]
    {
      ViewAt(b, Up(|a|, head), tail, i);
      var p := Slot(|a|, Up(|a|, head), i);
      assert p == Slot(|a|, head, i + 1);
      ViewAt(a, head, tail, i + 1);
      ViewAt(a, head, tail, i);
      assert Down(|a|, p) == Slot(|a|, head, i);
    }
  }

  /** What the cursor slot holds after the shift: the predecessor, unless the cursor was at the head. */
  lemma ShiftReads(a: seq<int>, b: seq<int>, head: nat, tail: nat, index: nat)
    requires head < |a| && tail < |a| && head != tail && index < |a|
    requires Shifted(a, b, head, Gap(|a|, head, index))
    ensures var s, d := View(a, head, tail), Gap(|a|, head, index);
      && (d == 0 ==> b[index] == s[0])
      && (0 < d <= |s| ==> b[index] == s[d - 1])
  {
    var d := Gap(|a|, head, index);
    ViewAt(a, head, tail, 0);
    if 0 < d <= |View(a, head, tail)| {
      ViewAt(a, head, tail, d - 1);
    }
  }

  /** The state of a removing scan: `k` elements kept of the first `i`. */
  ghost predicate Swept(s: seq<int>, i: nat, c: seq<int>, k: nat, drop: set<int>) {
    && i <= |s| && k <= |c|
    && c[..k] == Filter(s[..i], (x: int) => x !in drop)
    && c[k..] == s[i..]
  }

  lemma SweepStep(s: seq<int>, i: nat, c: seq<int>, k: nat, drop: set<int>)
    requires Swept(s, i, c, k, drop) && i < |s|
    ensures k < |c| && c[k] == s[i] && s[..i + 1] == s[..i] + [s[i]]
    ensures if s[i] in drop then Swept(s, i + 1, RemoveAt(c, k), k, drop) else Swept(s, i + 1, c, k + 1, drop)
  {
    var keep := (x: int) => x !in drop;
    assert c[k] == c[k..][0] == s[i..][0];
    assert s[..i + 1] == s[..i] + [s[i]];
    FilterConcat(s[..i], [s[i]], keep);
    assert Filter([s[i]], keep) == if keep(s[i]) then [s[i]] else [];
    if s[i] in drop {
      var r := RemoveAt(c, k);
      assert r[..k] == c[..k] && r[k..] == c[k..][1..] == s[i + 1..];
    } else {
      assert c[..k + 1] == c[..k] + [s[i]] && c[k + 1..] == c[k..][1..] == s[i + 1..];
    }
  }

  lemma SweepStart(s: seq<int>, drop: set<int>)
    ensures Swept(s, 0, s, 0, drop) && s[..0] == []
    ensures s != [] ==> s[0] in s
  {
  }

  lemma SweepNext(s: seq<int>, i: nat, c: seq<int>, k: nat, drop: set<int>)
    requires Swept(s, i, c, k, drop)
    ensures |c| - k == |s| - i
    ensures i < |s| ==> k < |c| && c[k] == s[i] && s[i] in s
    ensures i == |s| ==> s[..i] == s && c == Filter(s, (x: int) => x !in drop)
  {
    assert i < |s| ==> c[k] == c[k..][0] == s[i..][0];
    assert i == |s| ==> s[..i] == s && c[..k] == c;
  }

  class Ring {
    const offsets: array<int>
    var head: nat
    var tail: nat
    /** The slot of the scan cursor, or -1. */
    var index: int

    ghost predicate Valid()
      reads this
    {
      && head < offsets.Length && tail < offsets.Length
      && -1 <= index < offsets.Length
    }

    /** The queued offsets, from head to tail. */
    ghost function Contents(): (s: seq<int>)
      requires Valid()
      reads this, offsets
      ensures |s| == Size() < offsets.Length
    {
      View(offsets[..], head, tail)
    }

    ghost function Size(): nat
      requires Valid()
      reads this
    {
      Gap(offsets.Length, head, tail)
    }

    /** How far the cursor is behind the head. */
    ghost function Distance(): (d: nat)
      requires Valid() && 0 <= index
      reads this
      ensures d < offsets.Length
    {
      Gap(offsets.Length, head, index)
    }

    /** The list position of the cursor; -1 just before the head, the size at the end. */
    ghost function Cursor(): int
      requires Valid() && 0 <= index
      reads this
    {
      var d := Distance();
      if d == offsets.Length - 1 && Size() < d then -1 else d
    }

    constructor (capacity: nat)
      requires 1 <= capacity
      ensures Valid() && fresh(offsets) && offsets.Length == capacity && Contents() == []
    {
      offsets := new int[capacity];
      head, tail, index := 0, 0, -1;
    }

    /** shm_object_pool_init_empty */
    method InitEmpty()
      requires Valid()
      modifies this`head, this`tail
      ensures Valid() && Contents() == []
    {
      head, tail := 0, 0;
    }

    /** shm_object_pool_get_count */
    method GetCount() returns (n: nat)
      requires Valid()
      ensures n == |Contents()|
    {
      if head == tail {
        n := 0;
      } else if head < tail {
        n := tail - head;
      } else {
        n := offsets.Length - head + tail;
      }
    }

    /** shm_object_pool_alloc */
    method Pop() returns (r: int)
      requires Valid()
      modifies this`head
      ensures Valid()
      ensures old(Contents()) == [] ==> r == -1 && Contents() == []
      ensures old(Contents()) != [] ==> r == old(Contents())[0] && Contents() == old(Contents())[1..]
    {
      if head == tail {
        return -1;
      }
      r := offsets[head];
      head := NextSlot(head);
    }

    /** shm_object_pool_free: fails only on a full ring. */
    method Push(offset: int) returns (result: int)
      requires Valid()
      modifies this`tail, offsets
      ensures Valid()
      ensures result == (if old(Size()) + 1 == offsets.Length then 28 else 0)
      ensures Contents() == (if result == 0 then old(Contents()) + [offset] else old(Contents()))
    {
      var next := NextSlot(tail);
      if next == head {
        return ENOSPC;
      }
      offsets[tail] := offset;
      tail := next;
      result := 0;
    }

    /** The slot after `p`, as the code computes it. */
    function NextSlot(p: nat): (r: nat)
      requires p < offsets.Length
      ensures r == Up(offsets.Length, p)
    {
      ModStep(p, offsets.Length);
      (p + 1) % offsets.Length
    }

    static lemma ModStep(p: nat, n: nat)
      requires p < n
      ensures (p + 1) % n == Up(n, p)
    {
      if p + 1 < n {
        SmallMod(p + 1, n);
      }
    }

    static lemma SmallMod(p: nat, n: nat)
      requires p < n
      ensures p % n == p
    {
    }

    // ----- the cursor

    /** shm_object_pool_first */
    method First() returns (r: int)
      requires Valid()
      modifies this`index
      ensures Valid() && Contents() == old(Contents())
      ensures Contents() == [] ==> r == -1
      ensures Contents() != [] ==> r == Contents()[0] && index >= 0 && Cursor() == 0
    {
      if head == tail {
        index := -1;
        return -1;
      }
      index := head;
      r := offsets[index];
    }

    /** shm_object_pool_next, for a cursor on the list, at its end or just before its head. */
    method Next() returns (r: int)
      requires Valid() && (index >= 0 ==> Cursor() <= Size())
      modifies this`index
      ensures Valid() && Contents() == old(Contents())
      ensures old(index) == -1 ==> r == -1 && index == -1
      ensures old(index) >= 0 && old(Cursor()) + 1 < |Contents()| ==>
        r == Contents()[old(Cursor()) + 1] && index >= 0 && Cursor() == old(Cursor()) + 1
      ensures old(index) >= 0 && old(Cursor()) + 1 >= |Contents()| ==> r == -1
    {
      if index == -1 {
        return -1;
      }
      if index == tail {
        index := -1;
        return -1;
      }
      index := NextSlot(index);
      if index != tail {
        r := offsets[index];
      } else {
        r := -1;
      }
    }

    // ----- removal at the cursor

    /** The loop of the removal: moves the elements between head and cursor one slot up. */
    method Shift()
      requires Valid() && 0 <= index && head != tail
      modifies offsets
      ensures Shifted(old(offsets[..]), offsets[..], head, Distance())
    {
      var current: nat := index;
      ghost var n := offsets.Length;
      while current != head
        invariant current < n && Gap(n, head, current) <= Distance()
        invariant forall p :: 0 <= p < n ==>
          offsets[p] == if Gap(n, head, current) < Gap(n, head, p) <= Distance()
                        then old(offsets[Down(n, p)]) else old(offsets[p])
        decreases Gap(n, head, current)
      {
        var previous := Down(offsets.Length, current);
        offsets[current] := offsets[previous];
        current := previous;
      }
    }

    /**
     shm_object_pool_remove as written: the result is read from the cursor slot
     after the shift.
     */
    method Remove() returns (r: int)
      requires Valid()
      modifies this`head, offsets
      ensures Valid()
      ensures old(Contents()) == [] || index < 0 ==> r == -1 && Contents() == old(Contents())
      ensures old(Contents()) != [] && index >= 0 ==>
        var s, d := old(Contents()), old(Distance());
        && Contents() == Removed(s, d)
        && (d == 0 ==> r == s[0])
        && (0 < d <= |s| ==> r == s[d - 1])
      ensures old(Contents()) != [] && index >= 0 ==> head == Up(offsets.Length, old(head))
    {
      if head == tail || index < 0 {
        return -1;
      }
      ghost var before := offsets[..];
      Shift();
      ShiftRemoves(before, offsets[..], head, tail, Distance());
      ShiftReads(before, offsets[..], head, tail, index);
      head := NextSlot(head);
      r := offsets[index];
    }

    /** The removal as its header documents it: the element is saved before the shift. */
    method RemoveSaved() returns (r: int)
      requires Valid()
      modifies this`head, offsets
      ensures Valid()
      ensures old(Contents()) == [] || index < 0 ==> r == -1 && Contents() == old(Contents())
      ensures old(Contents()) != [] && index >= 0 ==>
        var s, d := old(Contents()), old(Distance());
        Contents() == Removed(s, d) && (d < |s| ==> r == s[d])
      ensures old(Contents()) != [] && index >= 0 ==> head == Up(offsets.Length, old(head))
    {
      if head == tail || index < 0 {
        return -1;
      }
      var saved := offsets[index];
      r := Remove();
      r := saved;
    }

    /** The removal in the middle of a scan, with the value that `documented` selects. */
    method RemoveHere(documented: bool) returns (r: int)
      requires Valid() && index >= 0 && 0 <= Cursor() < Size()
      modifies this`head, offsets
      ensures Valid() && Cursor() == old(Cursor()) - 1
      ensures Contents() == RemoveAt(old(Contents()), old(Cursor()))
      ensures r == old(Contents())[if documented || old(Cursor()) == 0 then old(Cursor()) else old(Cursor()) - 1]
    {
      hide Contents;
      if documented {
        r := RemoveSaved();
      } else {
        r := Remove();
      }
    }

    /** shm_object_pool_remove_by: a queue of positive offsets is searched from its head. */
    method RemoveBy(offset: int) returns (r: int)
      requires Valid() && forall x :: x in Contents() ==> x > 0
      modifies this`head, this`index, offsets
      ensures Valid()
      ensures Contents() == (if offset in old(Contents()) then Without(old(Contents()), offset) else old(Contents()))
      ensures r >= 0 <==> offset in old(Contents())
    {
      hide Contents, Cursor, Distance;
      ghost var s := Contents();
      var current := First();
      ghost var i := 0;
      assert s != [] ==> s[0] in s;
      while current > 0
        invariant Valid() && Contents() == s && tail == old(tail) && head == old(head)
        invariant 0 <= i <= |s| && offset !in s[..i]
        invariant i < |s| ==> index >= 0 && Cursor() == i && current == s[i]
        invariant current <= 0 <==> i == |s|
        decreases |s| - i
      {
        assert s[i] in s;
        if current == offset {
          r := RemoveHere(false);
          WithoutIsRemoveAt(s, offset, i);
          assert i > 0 ==> s[i - 1] in s;
          return;
        }
        current := Next();
        assert s[..i + 1] == s[..i] + [s[i]];
        i := i + 1;
        assert i < |s| ==> s[i] in s;
      }
      assert s[..i] == s;
      r := -1;
    }

    /**
     A scan that removes elements as it goes, the pattern of the allocation scan:
     it visits every element exactly once, in order, and removes exactly those it
     was told to.
     */
    method Sweep(drop: set<int>) returns (visited: seq<int>)
      requires Valid() && forall x :: x in Contents() ==> x > 0
      modifies this`head, this`index, offsets
      ensures Valid()
      ensures visited == old(Contents())
      ensures Contents() == Filter(old(Contents()), (x: int) => x !in drop)
    {
      hide Contents, Cursor, Distance, Swept, Size;
      ghost var s := Contents();
      SweepStart(s, drop);
      visited := [];
      var current := First();
      ghost var i := 0;
      ghost var k := 0;
      while current > 0
        invariant Valid() && 0 <= i <= |s| && 0 <= k <= |Contents()| && visited == s[..i]
        invariant Swept(s, i, Contents(), k, drop)
        invariant i < |s| ==> index >= 0 && Cursor() == k && current == s[i]
        invariant current <= 0 <==> i == |s|
        decreases |s| - i
      {
        SweepStep(s, i, Contents(), k, drop);
        visited := visited + [current];
        if current in drop {
          var removed := RemoveHere(false);
        } else {
          k := k + 1;
        }
        i := i + 1;
        SweepNext(s, i, Contents(), k, drop);
        current := Next();
      }
      SweepNext(s, i, Contents(), k, drop);
    }
  }

  /**
   In a queue without duplicates, the value that the removal as written reports
   (the element before the cursor, or the head itself) is the removed element
   iff the cursor was at the head.
   */
  lemma ReportIff(s: seq<int>, d: nat)
    requires NoDup(s) && d < |s|
    ensures s[if d == 0 then 0 else d - 1] == s[d] <==> d == 0
  {
  }
}
