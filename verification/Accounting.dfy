/**
 The agreement between live entries and the stripes behind them: every entry lies
 below its stripe's bump pointer, entries are pairwise disjoint, and each stripe's
 `used` is the sum of the sizes of the entries it holds.
 */
module Accounting {
  import opened Seqs
  import opened Stripes
  import opened Engine

  // ----- sums

  /** The bytes held in stripe `s`. */
  ghost function Held(items: seq<Item>, s: nat): nat {
    if items == [] then 0
    else Held(items[..|items| - 1], s) + (if items[|items| - 1].stripe == s then items[|items| - 1].size else 0)
  }

  ghost function TotalSize(items: seq<Item>): nat {
    if items == [] then 0 else TotalSize(items[..|items| - 1]) + items[|items| - 1].size
  }

  ghost function KeyBytes(items: seq<Item>): nat {
    if items == [] then 0 else KeyBytes(items[..|items| - 1]) + |items[|items| - 1].binding.key|
  }

  ghost function ValueBytes(items: seq<Item>): nat {
    if items == [] then 0 else ValueBytes(items[..|items| - 1]) + |items[|items| - 1].binding.value|
  }

  ghost function TotalUsed(stripes: seq<Stripe>): int {
    if stripes == [] then 0 else TotalUsed(stripes[..|stripes| - 1]) + stripes[|stripes| - 1].used
  }

  lemma SumsAppend(items: seq<Item>, x: Item)
    ensures forall s: nat :: Held(items + [x], s) == Held(items, s) + (if x.stripe == s then x.size else 0)
    ensures TotalSize(items + [x]) == TotalSize(items) + x.size
    ensures KeyBytes(items + [x]) == KeyBytes(items) + |x.binding.key|
    ensures ValueBytes(items + [x]) == ValueBytes(items) + |x.binding.value|
  {
    assert (items + [x])[..|items|] == items;
  }

  lemma {:induction false} SumsRemove(items: seq<Item>, k: nat)
    requires k < |items|
    ensures var r := RemoveAt(items, k); var x := items[k];
      && (forall s: nat :: Held(items, s) == Held(r, s) + (if x.stripe == s then x.size else 0))
      && TotalSize(items) == TotalSize(r) + x.size
      && KeyBytes(items) == KeyBytes(r) + |x.binding.key|
      && ValueBytes(items) == ValueBytes(r) + |x.binding.value|
    decreases |items|
  {
    var n := |items| - 1;
    if k == n {
      assert RemoveAt(items, k) == items[..n];
    } else {
      SumsRemove(items[..n], k);
      SumsAppend(RemoveAt(items[..n], k), items[n]);
      assert RemoveAt(items, k) == RemoveAt(items[..n], k) + [items[n]];
    }
  }

  /** A stripe that holds no bytes holds no entry, and conversely. */
  lemma {:induction false} HeldZero(items: seq<Item>, s: nat)
    requires forall i :: 0 <= i < |items| ==> items[i].size > 0
    ensures Held(items, s) == 0 <==> forall i :: 0 <= i < |items| ==> items[i].stripe != s
  {
    if items != [] {
      HeldZero(items[..|items| - 1], s);
    }
  }

  lemma {:induction false} TotalUsedSame(a: seq<Stripe>, b: seq<Stripe>)
    requires |a| == |b| && forall i :: 0 <= i < |a| ==> a[i].used == b[i].used
    ensures TotalUsed(a) == TotalUsed(b)
  {
    if a != [] {
      TotalUsedSame(a[..|a| - 1], b[..|b| - 1]);
    }
  }

  lemma {:induction false} TotalUsedChange(a: seq<Stripe>, b: seq<Stripe>, s: nat)
    requires |a| == |b| && s < |a|
    requires forall i :: 0 <= i < |a| && i != s ==> a[i].used == b[i].used
    ensures TotalUsed(b) == TotalUsed(a) - a[s].used + b[s].used
  {
    var n := |a| - 1;
    if s == n {
      TotalUsedSame(a[..n], b[..n]);
    } else {
      TotalUsedChange(a[..n], b[..n], s);
    }
  }

  lemma {:induction false} TotalUsedZero(a: seq<Stripe>, b: seq<Stripe>)
    requires forall i :: 0 <= i < |b| ==> b[i].used == 0
    ensures TotalUsed(a + b) == TotalUsed(a)
    decreases |b|
  {
    if b == [] {
      assert a + b == a;
    } else {
      var n := |b| - 1;
      assert (a + b)[..|a + b| - 1] == a + b[..n];
      TotalUsedZero(a, b[..n]);
    }
  }

  /** Stripes of at most `size` used bytes each add up to at most that many times `size`. */
  lemma {:induction false} TotalUsedBound(a: seq<Stripe>, size: nat)
    requires forall i :: 0 <= i < |a| ==> a[i].used <= size
    ensures TotalUsed(a) <= Times(|a|, size)
  {
    if a != [] {
      TotalUsedBound(a[..|a| - 1], size);
    }
  }

  // ----- backing

  /** Bump-pointer state: an empty stripe is a reset one. */
  ghost predicate Sound(st: Stripe) {
    && st.base <= st.free <= st.base + st.total
    && 0 <= st.used <= st.free - st.base
    && (st.used == 0 ==> st.free == st.base)
  }

  ghost predicate Placed(p: Pool, x: Item) {
    && x.stripe < |p.stripes| && x.size > 0
    && x.segment == p.stripes[x.stripe].segment
    && p.stripes[x.stripe].base <= x.offset
    && x.offset + x.size <= p.stripes[x.stripe].free
  }

  ghost predicate Apart(x: Item, y: Item) {
    x.stripe == y.stripe ==> x.offset + x.size <= y.offset || y.offset + y.size <= x.offset
  }

  ghost predicate Backed(p: Pool, items: seq<Item>) {
    && (forall s :: 0 <= s < |p.stripes| ==> Sound(p.stripes[s]) && p.stripes[s].used == Held(items, s))
    && (forall i :: 0 <= i < |items| ==> Placed(p, items[i]))
    && (forall i, j :: 0 <= i < j < |items| ==> Apart(items[i], items[j]))
  }

  lemma BackedSame(p: Pool, q: Pool, items: seq<Item>)
    requires Backed(p, items) && |p.stripes| == |q.stripes|
    requires forall s: nat :: s < |p.stripes| ==> SameSpace(p.stripes[s], q.stripes[s])
    ensures Backed(q, items)
  {
  }

  lemma BackedBump(p: Pool, q: Pool, items: seq<Item>, x: Item, now: int)
    requires Backed(p, items) && |p.stripes| == |q.stripes| && x.stripe < |p.stripes| && x.size > 0
    requires p.stripes[x.stripe].FreeSize() >= x.size && x.offset == p.stripes[x.stripe].free
    requires x.segment == p.stripes[x.stripe].segment
    requires forall s: nat :: s < |p.stripes| ==>
      SameSpace(if s == x.stripe then p.stripes[s].Bump(x.size, now) else p.stripes[s], q.stripes[s])
    ensures Backed(q, items + [x])
  {
    SumsAppend(items, x);
    var all := items + [x];
    forall i, j | 0 <= i < j < |all|
      ensures Apart(all[i], all[j])
    {
      assert Placed(p, items[i]);
    }
  }

  lemma BackedRemove(p: Pool, items: seq<Item>, k: nat)
    requires Backed(p, items) && k < |items|
    ensures var r := RemoveAt(items, k); var x := items[k];
      && (forall s: nat :: Held(items, s) == Held(r, s) + (if x.stripe == s then x.size else 0))
      && (forall i :: 0 <= i < |r| ==> Placed(p, r[i]))
      && (forall i, j :: 0 <= i < j < |r| ==> Apart(r[i], r[j]))
      && (Held(r, x.stripe) == 0 <==> forall i :: 0 <= i < |r| ==> r[i].stripe != x.stripe)
  {
    SumsRemove(items, k);
    HeldZero(RemoveAt(items, k), items[k].stripe);
  }

  /** A release keeps the backing of the entries that stay, and empties the stripe iff none of them is in it. */
  lemma BackedRelease(p: Pool, items: seq<Item>, k: nat)
    requires Backed(p, items) && Queued(p) && k < |items| && items[k].stripe < |p.stripes|
    ensures var (q, emptied) := Release(p, items[k].stripe, items[k].size); var r := RemoveAt(items, k);
      && Backed(q, r)
      && (emptied <==> forall i :: 0 <= i < |r| ==> r[i].stripe != items[k].stripe)
  {
    var x := items[k];
    var (q, emptied) := Release(p, x.stripe, x.size);
    var r := RemoveAt(items, k);
    BackedRemove(p, items, k);
    ReleaseQueued(p, x.stripe, x.size);
    assert emptied <==> Held(r, x.stripe) == 0;
    forall i | 0 <= i < |r|
      ensures Placed(q, r[i])
    {
      assert Placed(p, r[i]);
    }
  }
}
