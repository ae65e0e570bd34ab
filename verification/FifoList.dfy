/**
 The circular doubly linked list threaded through the live entries by their encoded
 offsets.  The list words of all entries are kept as one map per field; the head
 has an offset of its own that no entry shares.
 */
module FifoList {
  import opened Seqs

  // ----- the links on values

  /** The node at ring position `i`: the head, then the elements. */
  ghost function NodeAt(head: int, elems: seq<int>, i: nat): int
    requires i <= |elems|
  {
    if i == 0 then head else elems[i - 1]
  }

  /** The links between ring position `i` and the one after it. */
  ghost predicate LinkedAt(head: int, elems: seq<int>, next: map<int, int>, prev: map<int, int>, i: nat)
    requires i <= |elems|
  {
    var a, b := NodeAt(head, elems, i), NodeAt(head, elems, if i == |elems| then 0 else i + 1);
    a in next && next[a] == b && b in prev && prev[b] == a
  }

  ghost predicate Circular(head: int, elems: seq<int>, next: map<int, int>, prev: map<int, int>) {
    && NoDup(elems) && head !in elems
    && forall i :: 0 <= i <= |elems| ==> LinkedAt(head, elems, next, prev, i)
  }

  lemma NodesDiffer(head: int, elems: seq<int>, i: nat, j: nat)
    requires NoDup(elems) && head !in elems && i <= |elems| && j <= |elems| && i != j
    ensures NodeAt(head, elems, i) != NodeAt(head, elems, j)
  {
  }

  /** Bypassing the node at ring position `k` leaves a ring of the others. */
  lemma Bypass(head: int, elems: seq<int>, next: map<int, int>, prev: map<int, int>, k: nat)
    requires Circular(head, elems, next, prev) && 1 <= k <= |elems|
    ensures var o := elems[k - 1];
      && o in prev && o in next
      && Circular(head, RemoveAt(elems, k - 1), next[prev[o] := next[o]], prev[next[o] := prev[o]])
  {
    var o, r := elems[k - 1], RemoveAt(elems, k - 1);
    assert LinkedAt(head, elems, next, prev, k) && LinkedAt(head, elems, next, prev, k - 1);
    RemoveAtMembers(elems, k - 1);
    var p, q := prev[o], next[o];
    var next', prev' := next[p := q], prev[q := p];
    forall i | 0 <= i <= |r|
      ensures LinkedAt(head, r, next', prev', i)
    {
      var i' := if i < k then i else i + 1;
      assert NodeAt(head, r, i) == NodeAt(head, elems, i');
      assert LinkedAt(head, elems, next, prev, i');
      if i != k - 1 {
        NodesDiffer(head, elems, i', k - 1);
        var j' := if i' == |elems| then 0 else i' + 1;
        var after := if k == |elems| then 0 else k + 1;
        NodesDiffer(head, elems, j', after);
      }
    }
  }

  /** Linking a new node before the head puts it at the tail. */
  lemma Append(head: int, elems: seq<int>, next: map<int, int>, prev: map<int, int>, o: int)
    requires Circular(head, elems, next, prev) && o != head && o !in elems
    ensures head in prev
    ensures Circular(head, elems + [o], next[o := head][prev[head] := o], prev[o := prev[head]][head := o])
  {
    var n, all := |elems|, elems + [o];
    assert LinkedAt(head, elems, next, prev, n);
    var last := prev[head];
    var next', prev' := next[o := head][last := o], prev[o := last][head := o];
    forall i | 0 <= i <= |all|
      ensures LinkedAt(head, all, next', prev', i)
    {
      if i < n {
        assert LinkedAt(head, elems, next, prev, i);
        NodesDiffer(head, elems, i, n);
        NodesDiffer(head, elems, i + 1, 0);
      }
    }
  }

  /** Stores to a node outside the ring do not matter. */
  lemma Detached(head: int, elems: seq<int>, next: map<int, int>, prev: map<int, int>, o: int)
    requires Circular(head, elems, next, prev) && o != head && o !in elems
    ensures Circular(head, elems, next[o := o], prev[o := o])
  {
    var next', prev' := next[o := o], prev[o := o];
    forall i | 0 <= i <= |elems|
      ensures LinkedAt(head, elems, next', prev', i)
    {
      assert LinkedAt(head, elems, next, prev, i);
    }
  }

  class FifoList {
    /** The encoded offset of the list head. */
    const head: int
    var next: map<int, int>
    var prev: map<int, int>
    /** The offsets in the list, oldest first. */
    ghost var Elems: seq<int>

    ghost predicate Valid()
      reads this
    {
      && Circular(head, Elems, next, prev)
      && (forall i :: 0 <= i < |Elems| ==> Elems[i] > 0)
    }

    lemma Distinct()
      requires Valid()
      ensures NoDup(Elems) && head !in Elems && forall i :: 0 <= i < |Elems| ==> Elems[i] > 0
    {
    }

    /** What the links at ring position `i` say. */
    lemma At(i: nat)
      requires Valid() && i <= |Elems|
      ensures LinkedAt(head, Elems, next, prev, i)
    {
    }

    /** shm_list_set and shm_list_init on fresh memory */
    constructor (headOffset: int)
      ensures Valid() && Elems == [] && head == headOffset
    {
      head := headOffset;
      next, prev := map[headOffset := headOffset], map[headOffset := headOffset];
      Elems := [];
    }

    /** shm_list_init: empties the list whatever state its words are in. */
    method Init()
      modifies this
      ensures Valid() && Elems == []
    {
      prev := prev[head := head];
      next := next[head := head];
      Elems := [];
    }

    /** shm_list_add_tail */
    method AddTail(o: int)
      requires Valid() && o > 0 && o != head && o !in Elems
      modifies this
      ensures Valid() && Elems == old(Elems) + [o]
    {
      Append(head, Elems, next, prev, o);
      var last := prev[head];
      next := next[o := head];
      prev := prev[o := last];
      next := next[last := o];
      prev := prev[head := o];
      Elems := Elems + [o];
    }

    /** The position of an element; its links do not lead back to itself. */
    lemma Around(o: int) returns (k: nat)
      requires Valid() && o in Elems
      ensures 1 <= k <= |Elems| && Elems[k - 1] == o && o !in Elems[..k - 1]
      ensures o in next && o in prev && next[o] != o
    {
      var i :| 0 <= i < |Elems| && Elems[i] == o;
      k := i + 1;
      At(k);
      At(k - 1);
    }

    /** The two stores that take a node out of the ring. */
    method Unlink(o: int)
      requires Valid() && o in Elems
      modifies this
      ensures Valid() && Elems == Without(old(Elems), o)
      ensures forall x :: x in old(next) ==> x in next
    {
      ghost var k := Around(o);
      Bypass(head, Elems, next, prev, k);
      WithoutIsRemoveAt(Elems, o, k - 1);
      var p, q := prev[o], next[o];
      next := next[p := q];
      prev := prev[q := p];
      Elems := Without(Elems, o);
    }

    /**
     shm_list_delete: unlinks the node and leaves it linked to itself; a node that
     is linked to itself is left alone.
     */
    method Delete(o: int)
      requires Valid() && (o in Elems || (o in next && next[o] == o && o != head))
      modifies this
      ensures Valid() && o !in Elems && o in next && next[o] == o
      ensures Elems == if o in old(Elems) then Without(old(Elems), o) else old(Elems)
    {
      if o in Elems {
        ghost var k := Around(o);
        WithoutMembers(Elems, o);
      }
      if next[o] == o {
        return;
      }
      Unlink(o);
      Detached(head, Elems, next, prev, o);
      prev := prev[o := o];
      next := next[o := o];
    }

    /** shm_list_move_tail */
    method MoveTail(o: int)
      requires Valid() && o in Elems
      modifies this
      ensures Valid() && Elems == Without(old(Elems), o) + [o]
    {
      assert o > 0;
      WithoutMembers(Elems, o);
      Unlink(o);
      AddTail(o);
    }

    /** shm_list_first */
    method First() returns (o: int)
      requires Valid()
      ensures o == if Elems == [] then -1 else Elems[0]
    {
      At(0);
      if next[head] == head {
        return -1;
      }
      o := next[head];
    }

    /** shm_list_next */
    method Next(o: int, ghost k: nat) returns (r: int)
      requires Valid() && k < |Elems| && o == Elems[k]
      ensures r == if k + 1 == |Elems| then -1 else Elems[k + 1]
    {
      At(k + 1);
      if next[o] == head {
        return -1;
      }
      r := next[o];
    }

    /** shm_list_count */
    method Count() returns (n: nat)
      requires Valid()
      ensures n == |Elems|
    {
      n := 0;
      At(0);
      var o := next[head];
      while o != head
        invariant n <= |Elems| && o == NodeAt(head, Elems, if n == |Elems| then 0 else n + 1)
        decreases |Elems| - n
      {
        At(n + 1);
        n := n + 1;
        o := next[o];
      }
    }

    /** Other data is written over the words of entries that are not in the list. */
    method Overwrite(dead: set<int>)
      requires Valid() && head !in dead && (forall o :: o in dead ==> o !in Elems)
      modifies this`next, this`prev
      ensures Valid()
    {
      next, prev := next - dead, prev - dead;
      forall i | 0 <= i <= |Elems|
        ensures LinkedAt(head, Elems, next, prev, i)
      {
        assert LinkedAt(head, Elems, old(next), old(prev), i);
      }
    }
  }
}
