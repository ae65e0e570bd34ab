/**
 Sequence facts shared by the whole project: removal at a position, removal by
 value, duplicate-freedom, and thinning (a sequence obtained from another by
 dropping elements that a predicate allows to drop).
 */
module Seqs {

  predicate NoDup<T(==)>(s: seq<T>) {
    forall i, j :: 0 <= i < j < |s| ==> s[i] != s[j]
  }

  function RemoveAt<T>(s: seq<T>, k: nat): (r: seq<T>)
    requires k < |s|
    ensures |r| == |s| - 1
    ensures forall i :: 0 <= i < k ==> r[i] == s[i]
    ensures forall i :: k <= i < |r| ==> r[i] == s[i + 1]
  {
    s[..k] + s[k + 1..]
  }

  /** Membership after a removal, for a duplicate-free sequence. */
  lemma RemoveAtMembers<T>(s: seq<T>, k: nat)
    requires k < |s| && NoDup(s)
    ensures NoDup(RemoveAt(s, k))
    ensures forall x :: x in RemoveAt(s, k) <==> x in s && x != s[k]
  {
    var r := RemoveAt(s, k);
    forall x | x in s && x != s[k]
      ensures x in r
    {
      var i :| 0 <= i < |s| && s[i] == x;
      assert r[if i < k then i else i - 1] == x;
    }
  }

  /** Removal of the first occurrence of a value. */
  function Without<T(==)>(s: seq<T>, x: T): (r: seq<T>)
    ensures forall i :: 0 <= i < |r| ==> r[i] in s
  {
    if s == [] then [] else if s[0] == x then s[1..] else [s[0]] + Without(s[1..], x)
  }

  lemma {:induction false} WithoutIsRemoveAt<T>(s: seq<T>, x: T, k: nat)
    requires k < |s| && s[k] == x && x !in s[..k]
    ensures Without(s, x) == RemoveAt(s, k)
  {
    if k == 0 {
      assert RemoveAt(s, 0) == s[1..];
    } else {
      assert s[0] == s[..k][0];
      assert s[1..][..k - 1] == s[..k][1..];
      WithoutIsRemoveAt(s[1..], x, k - 1);
      assert RemoveAt(s, k) == [s[0]] + RemoveAt(s[1..], k - 1);
    }
  }

  /** Membership after removal by value, for a duplicate-free sequence. */
  lemma WithoutMembers<T>(s: seq<T>, x: T)
    requires NoDup(s) && x in s
    ensures NoDup(Without(s, x)) && |Without(s, x)| == |s| - 1
    ensures forall y :: y in Without(s, x) <==> y in s && y != x
  {
    var k :| 0 <= k < |s| && s[k] == x;
    WithoutIsRemoveAt(s, x, k);
    RemoveAtMembers(s, k);
  }

  lemma NoDupAppend<T>(s: seq<T>, x: T)
    requires NoDup(s) && x !in s
    ensures NoDup(s + [x])
  {
  }

  /** A duplicate-free sequence of numbers below `n` has at most `n` elements. */
  lemma {:induction false} Pigeonhole(s: seq<nat>, n: nat)
    requires NoDup(s) && forall x :: x in s ==> x < n
    ensures |s| <= n
    decreases n
  {
    assert s != [] ==> s[0] in s;
    if n == 0 {
    } else if n - 1 in s {
      WithoutMembers<nat>(s, n - 1);
      Pigeonhole(Without<nat>(s, n - 1), n - 1);
    } else {
      Pigeonhole(s, n - 1);
    }
  }

  function Range(lo: nat, hi: nat): (r: seq<nat>)
    requires lo <= hi
    ensures |r| == hi - lo
    ensures forall i :: 0 <= i < |r| ==> r[i] == lo + i
  {
    seq(hi - lo, i requires 0 <= i => lo + i)
  }

  lemma RangeMembers(lo: nat, hi: nat)
    requires lo <= hi
    ensures NoDup(Range(lo, hi))
    ensures forall x: nat :: x in Range(lo, hi) <==> lo <= x < hi
  {
    forall x: nat | lo <= x < hi
      ensures x in Range(lo, hi)
    {
      assert Range(lo, hi)[x - lo] == x;
    }
  }

  function Filter<T>(s: seq<T>, keep: T -> bool): (r: seq<T>)
    ensures |r| <= |s|
  {
    if s == [] then []
    else if keep(s[0]) then [s[0]] + Filter(s[1..], keep)
    else Filter(s[1..], keep)
  }

  lemma {:induction false} FilterConcat<T>(s: seq<T>, t: seq<T>, keep: T -> bool)
    ensures Filter(s + t, keep) == Filter(s, keep) + Filter(t, keep)
  {
    if s == [] {
      assert s + t == t;
    } else {
      assert (s + t)[1..] == s[1..] + t;
      FilterConcat(s[1..], t, keep);
    }
  }

  /** `t` is `s` with some droppable elements left out; the order is kept. */
  predicate Thins<T(==)>(s: seq<T>, t: seq<T>, drop: T -> bool) {
    if s == [] then
      t == []
    else
      || (t != [] && t[0] == s[0] && Thins(s[1..], t[1..], drop))
      || (drop(s[0]) && Thins(s[1..], t, drop))
  }

  lemma {:induction false} ThinsRefl<T>(s: seq<T>, drop: T -> bool)
    ensures Thins(s, s, drop)
  {
    if s != [] {
      ThinsRefl(s[1..], drop);
    }
  }

  lemma {:induction false} ThinsTrans<T>(s: seq<T>, t: seq<T>, u: seq<T>, drop: T -> bool)
    requires Thins(s, t, drop) && Thins(t, u, drop)
    ensures Thins(s, u, drop)
    decreases |s|
  {
    if s != [] {
      if t != [] && t[0] == s[0] && Thins(s[1..], t[1..], drop) {
        if u != [] && u[0] == t[0] && Thins(t[1..], u[1..], drop) {
          ThinsTrans(s[1..], t[1..], u[1..], drop);
        } else {
          ThinsTrans(s[1..], t[1..], u, drop);
        }
      } else {
        ThinsTrans(s[1..], t, u, drop);
      }
    }
  }

  lemma {:induction false} ThinsRemoveAt<T>(s: seq<T>, k: nat, drop: T -> bool)
    requires k < |s| && drop(s[k])
    ensures Thins(s, RemoveAt(s, k), drop)
  {
    var r := RemoveAt(s, k);
    if k == 0 {
      assert r == s[1..];
      ThinsRefl(s[1..], drop);
    } else {
      ThinsRemoveAt(s[1..], k - 1, drop);
      assert r[1..] == RemoveAt(s[1..], k - 1);
    }
  }

  lemma {:induction false} ThinsConcat<T>(s: seq<T>, s': seq<T>, t: seq<T>, t': seq<T>, drop: T -> bool)
    requires Thins(s, s', drop) && Thins(t, t', drop)
    ensures Thins(s + t, s' + t', drop)
    decreases |s|
  {
    if s == [] {
      assert s + t == t && s' + t' == t';
    } else {
      assert (s + t)[1..] == s[1..] + t;
      if s' != [] && s'[0] == s[0] && Thins(s[1..], s'[1..], drop) {
        ThinsConcat(s[1..], s'[1..], t, t', drop);
        assert (s' + t')[1..] == s'[1..] + t';
      } else {
        ThinsConcat(s[1..], s', t, t', drop);
      }
    }
  }
}
