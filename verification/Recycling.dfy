/**
 What recycling removes, exactly.  Both modes walk the list from its head and
 evict every entry they may evict until a stop condition holds, so the outcome is
 one cut position: evictable entries before it are gone, everything else stays.
 */
module Recycling {
  import opened Seqs
  import opened Stripes
  import opened Engine
  import opened Accounting
  import opened Invariants
  import opened OrderedMap

  /** The entries that recycling may not touch. */
  function Spared(c: Config, items: seq<Item>, now: int): (r: seq<Item>)
    ensures |r| <= |items|
  {
    if items == [] then []
    else
      var n := |items| - 1;
      Spared(c, items[..n], now) + (if Evictable(c, items[n].binding, now) then [] else [items[n]])
  }

  /** How many entries recycling may evict. */
  function Evictables(c: Config, items: seq<Item>, now: int): nat {
    |items| - |Spared(c, items, now)|
  }

  /** The list once every evictable entry before position `q` is gone. */
  function After(c: Config, items: seq<Item>, q: nat, now: int): seq<Item>
    requires q <= |items|
  {
    Spared(c, items[..q], now) + items[q..]
  }

  lemma AfterStep(c: Config, items: seq<Item>, q: nat, now: int)
    requires q < |items|
    ensures var pos := |Spared(c, items[..q], now)|; var a := After(c, items, q, now);
      && pos < |a| && a[pos] == items[q]
      && (if Evictable(c, items[q].binding, now) then
            && After(c, items, q + 1, now) == RemoveAt(a, pos)
            && |Spared(c, items[..q + 1], now)| == pos
          else
            && After(c, items, q + 1, now) == a
            && |Spared(c, items[..q + 1], now)| == pos + 1)
  {
    hide Evictable;
    assert items[..q + 1][..q] == items[..q];
    var s := Spared(c, items[..q], now);
    assert items[q..] == [items[q]] + items[q + 1..];
    assert After(c, items, q, now) == s + [items[q]] + items[q + 1..];
  }

  /** The stripe of every entry. */
  function Bins(items: seq<Item>): (r: seq<nat>)
    ensures |r| == |items|
    ensures forall i :: 0 <= i < |items| ==> r[i] == items[i].stripe
  {
    seq(|items|, i requires 0 <= i < |items| => items[i].stripe)
  }

  /** Evicting position `p` in turn empties its stripe. */
  ghost predicate Empties(c: Config, items: seq<Item>, p: nat, now: int)
    requires p < |items|
  {
    Clears(c, Bindings(items), Bins(items), p, now)
  }

  lemma EmptiesIff(c: Config, items: seq<Item>, p: nat, now: int)
    requires p < |items|
    ensures Empties(c, items, p, now) <==>
      && Evictable(c, items[p].binding, now)
      && forall x :: x in After(c, items, p + 1, now) ==> x.stripe != items[p].stripe
  {
    hide Evictable, Spared;
    var a := After(c, items, p + 1, now);
    SparedMembers(c, items[..p + 1], now);
    if Empties(c, items, p, now) {
      forall x | x in a
        ensures x.stripe != items[p].stripe
      {
        if x in Spared(c, items[..p + 1], now) {
          var i :| 0 <= i < p + 1 && items[i] == x;
        } else {
          var i :| 0 <= i < |items[p + 1..]| && items[p + 1..][i] == x;
          assert items[p + 1 + i] == x;
        }
      }
    }
    if Evictable(c, items[p].binding, now) && forall x :: x in a ==> x.stripe != items[p].stripe {
      forall i | p < i < |items|
        ensures items[i].stripe != items[p].stripe
      {
        assert items[p + 1..][i - p - 1] == items[i];
        assert items[i] in a;
      }
      forall i | 0 <= i < p && items[i].stripe == items[p].stripe
        ensures Evictable(c, items[i].binding, now)
      {
        assert items[..p + 1][i] == items[i];
        assert items[i] !in a;
      }
    }
  }

  /** One step of the recycler at cut `q`: it passes an entry it may not evict, or evicts it. */
  lemma WalkStep(c: Config, items: seq<Item>, e: State, q: nat, now: int)
    requires WF(c, e) && Ranged(e) && q < |items| && e.fifo == After(c, items, q, now)
    ensures var pos := |Spared(c, items[..q], now)|;
      && pos < |e.fifo| && e.fifo[pos] == items[q]
      && (if Evictable(c, items[q].binding, now) then
            && Ranged(Evict(e, pos).0) && WF(c, Evict(e, pos).0)
            && Evict(e, pos).0.fifo == After(c, items, q + 1, now)
            && |Spared(c, items[..q + 1], now)| == pos
            && (Evict(e, pos).1 <==> Empties(c, items, q, now))
          else
            && e.fifo == After(c, items, q + 1, now)
            && |Spared(c, items[..q + 1], now)| == pos + 1
            && !Empties(c, items, q, now))
  {
    hide WF, Ranged, Evict, Evictable, Spared, After;
    AfterStep(c, items, q, now);
    if Evictable(c, items[q].binding, now) {
      var pos := |Spared(c, items[..q], now)|;
      EvictRanged(e, pos);
      EvictWF(c, e, pos);
      EmptiedIff(c, items, e, q, now);
    }
  }

  lemma WalkEnd(c: Config, items: seq<Item>, now: int)
    ensures |After(c, items, |items|, now)| == |Spared(c, items[..|items|], now)|
    ensures items[..|items|] == items
  {
  }

  /** The walk in key mode from cut `q` on, ending at cut `z`. */
  lemma {:induction false} WalkKeys(c: Config, items: seq<Item>, e: State, q: nat, keys: int, now: int)
    returns (z: nat)
    requires WF(c, e) && Ranged(e) && q <= |items| && e.fifo == After(c, items, q, now)
    requires keys > 0 && Evictables(c, items[..q], now) < keys
    ensures q <= z <= |items|
    ensures var r := RecycleFrom(c, e, |Spared(c, items[..q], now)|, Evictables(c, items[..q], now), keys, now);
      && r.state.fifo == After(c, items, z, now)
      && (r.status == Ok ==> q < z && Evictable(c, items[z - 1].binding, now) && Evictables(c, items[..z], now) == keys)
      && (r.status != Ok ==> z == |items| && Evictables(c, items, now) < keys)
    decreases |items| - q
  {
    hide WF, Ranged, Evict, Evictable, Spared, After, Empties;
    if q == |items| {
      z := q;
      WalkEnd(c, items, now);
    } else {
      WalkStep(c, items, e, q, now);
      if !Evictable(c, items[q].binding, now) {
        z := WalkKeys(c, items, e, q + 1, keys, now);
      } else if Evictables(c, items[..q], now) + 1 >= keys {
        z := q + 1;
      } else {
        z := WalkKeys(c, items, Evict(e, |Spared(c, items[..q], now)|).0, q + 1, keys, now);
      }
    }
  }

  /** The walk in stripe mode from cut `q` on, ending at cut `z`. */
  lemma {:induction false} WalkStripe(c: Config, items: seq<Item>, e: State, q: nat, keys: int, now: int)
    returns (z: nat)
    requires WF(c, e) && Ranged(e) && q <= |items| && e.fifo == After(c, items, q, now)
    requires keys <= 0
    ensures q <= z <= |items|
    ensures var r := RecycleFrom(c, e, |Spared(c, items[..q], now)|, Evictables(c, items[..q], now), keys, now);
      && r.state.fifo == After(c, items, z, now)
      && (r.status == Ok ==>
            && q < z && Empties(c, items, z - 1, now)
            && forall p :: q <= p < z - 1 ==> !Empties(c, items, p, now))
      && (r.status != Ok ==> z == |items| && forall p :: q <= p < |items| ==> !Empties(c, items, p, now))
    decreases |items| - q
  {
    hide WF, Ranged, Evict, Evictable, Spared, After, Empties;
    if q == |items| {
      z := q;
      WalkEnd(c, items, now);
    } else {
      WalkStep(c, items, e, q, now);
      var pos := |Spared(c, items[..q], now)|;
      if !Evictable(c, items[q].binding, now) {
        z := WalkStripe(c, items, e, q + 1, keys, now);
      } else if Evict(e, pos).1 {
        z := q + 1;
      } else {
        z := WalkStripe(c, items, Evict(e, pos).0, q + 1, keys, now);
      }
    }
  }

  lemma EmptiedIff(c: Config, items: seq<Item>, e: State, q: nat, now: int)
    requires WF(c, e) && Ranged(e) && q < |items| && e.fifo == After(c, items, q, now)
    requires Evictable(c, items[q].binding, now)
    ensures |Spared(c, items[..q], now)| < |e.fifo|
    ensures Evict(e, |Spared(c, items[..q], now)|).1 <==> Empties(c, items, q, now)
  {
    hide Table, Geometry, Queued, Backed, Fits, DoneBusy, Evict, Spared, After, Evictable;
    AfterStep(c, items, q, now);
    var pos := |Spared(c, items[..q], now)|;
    EvictCore(c, e, pos, e.fifo);
    var r := RemoveAt(e.fifo, pos);
    assert r == After(c, items, q + 1, now);
    EmptiesIff(c, items, q, now);
    assert (forall x :: x in r ==> x.stripe != items[q].stripe)
      <==> forall i :: 0 <= i < |r| ==> r[i].stripe != items[q].stripe;
  }

  /** Key mode evicts the first `keys` evictable entries, and succeeds iff there are that many. */
  lemma RecycleKeysExact(c: Config, e: State, keys: int, now: int) returns (z: nat)
    requires WF(c, e) && Ranged(e) && keys > 0
    ensures z <= |e.fifo|
    ensures var r := Recycle(c, e, keys, now);
      && r.state.fifo == After(c, e.fifo, z, now)
      && (r.status == Ok <==> Evictables(c, e.fifo, now) >= keys)
      && (r.status == Ok ==> 0 < z && Evictable(c, e.fifo[z - 1].binding, now) && Evictables(c, e.fifo[..z], now) == keys)
      && (r.status != Ok ==> z == |e.fifo|)
  {
    hide WF, Ranged, RecycleFrom, Spared, After, Evictable;
    AfterStart(c, e.fifo, 0, now);
    z := WalkKeys(c, e.fifo, e, 0, keys, now);
    EvictablesMonotone(c, e.fifo, z, now);
  }

  lemma {:induction false} EvictablesMonotone(c: Config, items: seq<Item>, z: nat, now: int)
    requires z <= |items|
    ensures Evictables(c, items[..z], now) <= Evictables(c, items, now)
    decreases |items|
  {
    if z == |items| {
      assert items[..z] == items;
    } else {
      var n := |items| - 1;
      EvictablesMonotone(c, items[..n], z, now);
      assert items[..n][..z] == items[..z];
    }
  }

  /** In stripe mode the number of evicted entries does not matter. */
  lemma {:induction false} ClearedUnused(c: Config, e: State, pos: nat, a: nat, b: nat, keys: int, now: int)
    requires Ranged(e) && pos <= |e.fifo| && keys <= 0
    ensures RecycleFrom(c, e, pos, a, keys, now) == RecycleFrom(c, e, pos, b, keys, now)
    decreases |e.fifo| - pos
  {
    hide Ranged, Evict, Evictable;
    if pos < |e.fifo| {
      if !Evictable(c, e.fifo[pos].binding, now) {
        ClearedUnused(c, e, pos + 1, a, b, keys, now);
      } else {
        EvictRanged(e, pos);
        ClearedUnused(c, Evict(e, pos).0, pos, a + 1, b + 1, keys, now);
      }
    }
  }

  /** Protected entries are passed. */
  lemma {:induction false} SkipSpared(c: Config, e: State, pos: nat, n: nat, cleared: nat, keys: int, now: int)
    requires Ranged(e) && pos <= n <= |e.fifo|
    requires forall i :: pos <= i < n ==> !Evictable(c, e.fifo[i].binding, now)
    ensures RecycleFrom(c, e, pos, cleared, keys, now) == RecycleFrom(c, e, n, cleared, keys, now)
    decreases n - pos
  {
    hide Ranged, Evict, Evictable;
    if pos < n {
      SkipSpared(c, e, pos + 1, n, cleared, keys, now);
    }
  }

  lemma AfterStart(c: Config, items: seq<Item>, q: nat, now: int)
    requires q <= |items|
    ensures var a := After(c, items, q, now); var n := |Spared(c, items[..q], now)|;
      n <= |a| && forall i :: 0 <= i < n ==> !Evictable(c, a[i].binding, now)
    ensures q == 0 ==> After(c, items, q, now) == items && Spared(c, items[..q], now) == [] && Evictables(c, items[..q], now) == 0
  {
    hide Evictable;
    SparedMembers(c, items[..q], now);
    var s := Spared(c, items[..q], now);
    assert forall i :: 0 <= i < |s| ==> s[i] in s;
  }

  /** Stripe mode from a state in which everything evictable before cut `q` is gone. */
  lemma RecycleStripeOn(c: Config, items: seq<Item>, e: State, q: nat, keys: int, now: int) returns (z: nat)
    requires WF(c, e) && Ranged(e) && keys <= 0 && q <= |items| && e.fifo == After(c, items, q, now)
    ensures q <= z <= |items|
    ensures var r := Recycle(c, e, keys, now);
      && r.state.fifo == After(c, items, z, now)
      && MapRecycle(c, Bindings(items), Bins(items), q, keys, now, r.status == Ok, z)
  {
    hide WF, Ranged, RecycleFrom, Evictable, Spared, After, Clears;
    AfterStart(c, items, q, now);
    var n := |Spared(c, items[..q], now)|;
    SkipSpared(c, e, 0, n, 0, keys, now);
    ClearedUnused(c, e, n, 0, Evictables(c, items[..q], now), keys, now);
    z := WalkStripe(c, items, e, q, keys, now);
    forall p | q <= p < |items|
      ensures Clears(c, Bindings(items), Bins(items), p, now) == Empties(c, items, p, now)
    {
    }
  }

  /**
   Stripe mode evicts the shortest run of evictable entries that empties a stripe;
   it succeeds iff some stripe's entries are all evictable.
   */
  lemma RecycleStripeExact(c: Config, e: State, keys: int, now: int) returns (z: nat)
    requires WF(c, e) && Ranged(e) && keys <= 0
    ensures z <= |e.fifo|
    ensures var r := Recycle(c, e, keys, now);
      && r.state.fifo == After(c, e.fifo, z, now)
      && (r.status == Ok ==>
            && 0 < z && Empties(c, e.fifo, z - 1, now)
            && forall p :: 0 <= p < z - 1 ==> !Empties(c, e.fifo, p, now))
      && (r.status != Ok ==> z == |e.fifo|)
      && (r.status == Ok <==> exists s: nat :: Freeable(c, e.fifo, s, now))
  {
    hide WF, Ranged, Recycle, After, Clears, Freeable;
    AfterStart(c, e.fifo, 0, now);
    z := RecycleStripeOn(c, e.fifo, e, 0, keys, now);
    if Recycle(c, e, keys, now).status == Ok {
      EmptiesFreeable(c, e.fifo, z - 1, now);
    } else {
      forall s: nat
        ensures !Freeable(c, e.fifo, s, now)
      {
        if Freeable(c, e.fifo, s, now) {
          var p := FreeableEmpties(c, e.fifo, s, now);
          assert false;
        }
      }
    }
  }

  /** Some entry lies in the stripe, and all that do may be evicted. */
  ghost predicate Freeable(c: Config, items: seq<Item>, s: nat, now: int) {
    && (exists i :: 0 <= i < |items| && items[i].stripe == s)
    && (forall i :: 0 <= i < |items| && items[i].stripe == s ==> Evictable(c, items[i].binding, now))
  }

  lemma {:induction false} SparedMembers(c: Config, items: seq<Item>, now: int)
    ensures forall x :: x in Spared(c, items, now) <==> x in items && !Evictable(c, x.binding, now)
  {
    if items != [] {
      var n := |items| - 1;
      SparedMembers(c, items[..n], now);
      assert items == items[..n] + [items[n]];
    }
  }

  lemma EmptiesFreeable(c: Config, items: seq<Item>, p: nat, now: int)
    requires p < |items| && Empties(c, items, p, now)
    ensures Freeable(c, items, items[p].stripe, now)
  {
  }

  /** The last entry of a freeable stripe empties it when its turn comes. */
  lemma FreeableEmpties(c: Config, items: seq<Item>, s: nat, now: int) returns (p: nat)
    requires Freeable(c, items, s, now)
    ensures p < |items| && items[p].stripe == s && Empties(c, items, p, now)
  {
    hide Evictable;
    p := LastIn(items, s);
  }

  lemma {:induction false} LastIn(items: seq<Item>, s: nat) returns (p: nat)
    requires exists i :: 0 <= i < |items| && items[i].stripe == s
    ensures p < |items| && items[p].stripe == s
    ensures forall i :: p < i < |items| ==> items[i].stripe != s
  {
    var n := |items| - 1;
    if items[n].stripe == s {
      p := n;
    } else {
      var i :| 0 <= i < |items| && items[i].stripe == s;
      assert items[..n][i].stripe == s;
      p := LastIn(items[..n], s);
    }
  }

  /** With valid entries recyclable, stripe mode succeeds iff the list is not empty. */
  lemma RecycleForced(c: Config, e: State, keys: int, now: int)
    requires WF(c, e) && Ranged(e) && keys <= 0 && c.recycleValid
    ensures Recycle(c, e, keys, now).status == Ok <==> e.fifo != []
  {
    hide WF, Ranged, RecycleFrom, After;
    var z := RecycleStripeExact(c, e, keys, now);
    if e.fifo != [] {
      assert Freeable(c, e.fifo, e.fifo[0].stripe, now);
    }
  }

  /** Recycling drops only entries it may drop, and keeps the order of the rest. */
  lemma {:induction false} RecycleThins(c: Config, e: State, pos: nat, cleared: nat, keys: int, now: int)
    requires Ranged(e) && pos <= |e.fifo|
    ensures Thins(Bindings(e.fifo), Bindings(RecycleFrom(c, e, pos, cleared, keys, now).state.fifo),
                  (b: Binding) => Evictable(c, b, now))
    decreases |e.fifo| - pos
  {
    hide Ranged, Evictable, Thins;
    var drop := (b: Binding) => Evictable(c, b, now);
    ThinsRefl(Bindings(e.fifo), drop);
    if pos < |e.fifo| {
      if !Evictable(c, e.fifo[pos].binding, now) {
        RecycleThins(c, e, pos + 1, cleared, keys, now);
      } else {
        EvictRanged(e, pos);
        var e' := Evict(e, pos).0;
        ThinsRemoveAt(Bindings(e.fifo), pos, drop);
        assert Bindings(e'.fifo) == RemoveAt(Bindings(e.fifo), pos);
        RecycleThins(c, e', pos, cleared + 1, keys, now);
        ThinsTrans(Bindings(e.fifo), Bindings(e'.fifo),
                   Bindings(RecycleFrom(c, e', pos, cleared + 1, keys, now).state.fifo), drop);
      }
    }
  }
}
