/**
 The bucket chains of the hash table: bucket heads and one `ht_next` word per entry,
 with 0 as the end of a chain.
 */
module HashIndex {
  import opened Seqs

  /** The next word of position `i` leads to the following entry, or ends the chain. */
  ghost predicate Link(chain: seq<int>, next: map<int, int>, i: nat)
    requires i < |chain|
  {
    chain[i] in next && next[chain[i]] == if i + 1 == |chain| then 0 else chain[i + 1]
  }

  /** The chain hangs off `first` through the next words. */
  ghost predicate Threaded(first: int, chain: seq<int>, next: map<int, int>) {
    && first == (if chain == [] then 0 else chain[0])
    && forall i :: 0 <= i < |chain| ==> Link(chain, next, i)
  }

  /** The word of `o` survives. */
  ghost predicate Kept(next: map<int, int>, next': map<int, int>, o: int) {
    o in next ==> o in next' && next'[o] == next[o]
  }

  ghost predicate AllThreaded(buckets: seq<int>, chains: seq<seq<int>>, next: map<int, int>) {
    && |buckets| == |chains|
    && forall b :: 0 <= b < |chains| ==> Threaded(buckets[b], chains[b], next)
  }

  /** The chains hold exactly the entries of `home`, each once, in its own bucket. */
  ghost predicate Filed(chains: seq<seq<int>>, home: map<int, nat>) {
    && (forall b :: 0 <= b < |chains| ==> NoDup(chains[b]))
    && (forall b, i :: 0 <= b < |chains| && 0 <= i < |chains[b]| ==>
          chains[b][i] in home && home[chains[b][i]] == b)
    && (forall o :: o in home ==> home[o] < |chains| && o in chains[home[o]])
    && (forall o :: o in home ==> o > 0)
  }

  // ----- one chain

  lemma ThreadedFrame(first: int, chain: seq<int>, next: map<int, int>, next': map<int, int>)
    requires Threaded(first, chain, next)
    requires forall i :: 0 <= i < |chain| ==> Kept(next, next', chain[i])
    ensures Threaded(first, chain, next')
  {
    forall i | 0 <= i < |chain|
      ensures Link(chain, next', i)
    {
      assert Link(chain, next, i) && Kept(next, next', chain[i]);
    }
  }

  lemma ThreadedCut(first: int, chain: seq<int>, next: map<int, int>, j: nat)
    requires Threaded(first, chain, next) && NoDup(chain) && j < |chain|
    ensures chain[j] in next
    ensures j == 0 ==> Threaded(next[chain[0]], RemoveAt(chain, 0), next)
    ensures j > 0 ==> Threaded(first, RemoveAt(chain, j), next[chain[j - 1] := next[chain[j]]])
  {
    var r := RemoveAt(chain, j);
    assert Link(chain, next, j);
    var next' := if j == 0 then next else next[chain[j - 1] := next[chain[j]]];
    forall i | 0 <= i < |r|
      ensures Link(r, next', i)
    {
      assert Link(chain, next, if i < j then i else i + 1);
    }
  }

  lemma ThreadedSwap(first: int, chain: seq<int>, next: map<int, int>, j: nat, o: int)
    requires Threaded(first, chain, next) && NoDup(chain) && j < |chain| && o !in chain
    ensures chain[j] in next
    ensures var next' := next[o := next[chain[j]]][chain[j] := 0];
      && (j == 0 ==> Threaded(o, chain[0 := o], next'))
      && (j > 0 ==> Threaded(first, chain[j := o], next'[chain[j - 1] := o]))
  {
    var r := chain[j := o];
    assert Link(chain, next, j);
    var next1 := next[o := next[chain[j]]][chain[j] := 0];
    var next' := if j == 0 then next1 else next1[chain[j - 1] := o];
    forall i | 0 <= i < |r|
      ensures Link(r, next', i)
    {
      assert Link(chain, next, i);
    }
  }

  lemma ThreadedAppend(first: int, chain: seq<int>, next: map<int, int>, o: int)
    requires Threaded(first, chain, next) && NoDup(chain) && o !in chain
    ensures chain == [] ==> Threaded(o, [o], next[o := 0])
    ensures chain != [] ==> Threaded(first, chain + [o], next[o := 0][chain[|chain| - 1] := o])
  {
    var r := chain + [o];
    var next' := if chain == [] then next[o := 0] else next[o := 0][chain[|chain| - 1] := o];
    forall i | 0 <= i < |r|
      ensures Link(r, next', i)
    {
      if i < |chain| {
        assert Link(chain, next, i);
      }
    }
    assert chain == [] ==> r == [o];
  }

  // ----- the whole table

  lemma FiledRemove(chains: seq<seq<int>>, home: map<int, nat>, b: nat, j: nat)
    requires Filed(chains, home) && b < |chains| && j < |chains[b]|
    ensures Filed(chains[b := RemoveAt(chains[b], j)], home - {chains[b][j]})
  {
    var o, chain := chains[b][j], chains[b];
    RemoveAtMembers(chain, j);
    var chains', home' := chains[b := RemoveAt(chain, j)], home - {o};
    forall a, i | 0 <= a < |chains'| && 0 <= i < |chains'[a]|
      ensures chains'[a][i] in home' && home'[chains'[a][i]] == a
    {
      if a == b {
        assert chains'[a][i] in chains'[a];
        assert chains'[a][i] == chain[if i < j then i else i + 1];
      } else {
        assert chains'[a][i] == chains[a][i];
        assert home[chains[a][i]] == a && home[o] == b;
      }
    }
  }

  lemma FiledInsert(chains: seq<seq<int>>, home: map<int, nat>, b: nat, o: int)
    requires Filed(chains, home) && b < |chains| && o !in home && o > 0
    ensures Filed(chains[b := chains[b] + [o]], home[o := b])
  {
    var chains', home' := chains[b := chains[b] + [o]], home[o := b];
    assert o !in chains[b];
    forall a, i | 0 <= a < |chains'| && 0 <= i < |chains'[a]|
      ensures chains'[a][i] in home' && home'[chains'[a][i]] == a
    {
      if a != b || i < |chains[b]| {
        assert chains'[a][i] == chains[a][i];
      }
    }
    assert chains'[b][|chains[b]|] == o;
    forall x | x in home'
      ensures home'[x] < |chains'| && x in chains'[home'[x]]
    {
      if x != o {
        assert x in chains[home[x]];
      }
    }
  }

  lemma FiledReplace(chains: seq<seq<int>>, home: map<int, nat>, b: nat, j: nat, o: int)
    requires Filed(chains, home) && b < |chains| && j < |chains[b]| && o !in home && o > 0
    ensures Filed(chains[b := chains[b][j := o]], (home - {chains[b][j]})[o := b])
  {
    var gone, chain := chains[b][j], chains[b];
    var chains', home' := chains[b := chain[j := o]], (home - {gone})[o := b];
    assert o !in chain;
    forall a, i | 0 <= a < |chains'| && 0 <= i < |chains'[a]|
      ensures chains'[a][i] in home' && home'[chains'[a][i]] == a
    {
      if a != b || i != j {
        assert chains'[a][i] == chains[a][i];
        assert home[chains[a][i]] == a && home[gone] == b;
      }
    }
    assert chains'[b][j] == o;
    forall x | x in home'
      ensures home'[x] < |chains'| && x in chains'[home'[x]]
    {
      if x != o {
        assert x in chains[home[x]];
        if home[x] == b {
          var i :| 0 <= i < |chain| && chain[i] == x;
          assert chains'[b][i] == x;
        }
      }
    }
  }

  /** Relinking inside one bucket leaves the other chains alone. */
  lemma BucketUpdate(buckets: seq<int>, chains: seq<seq<int>>, next: map<int, int>, home: map<int, nat>,
                     b: nat, first: int, chain: seq<int>, next': map<int, int>)
    requires AllThreaded(buckets, chains, next) && Filed(chains, home) && b < |chains|
    requires Threaded(first, chain, next')
    requires forall o :: o in home && home[o] != b ==> Kept(next, next', o)
    ensures AllThreaded(buckets[b := first], chains[b := chain], next')
  {
    forall a | 0 <= a < |chains| && a != b
      ensures Threaded(buckets[a], chains[a], next')
    {
      assert Threaded(buckets[a], chains[a], next);
      forall i | 0 <= i < |chains[a]|
        ensures Kept(next, next', chains[a][i])
      {
        assert home[chains[a][i]] == a;
      }
      ThreadedFrame(buckets[a], chains[a], next, next');
    }
  }

  class HashIndex {
    var buckets: seq<int>
    var next: map<int, int>
    ghost var chains: seq<seq<int>>
    /** The bucket of every indexed entry. */
    ghost var home: map<int, nat>

    ghost predicate Valid()
      reads this
    {
      AllThreaded(buckets, chains, next) && Filed(chains, home)
    }

    constructor (capacity: nat)
      ensures Valid() && |buckets| == capacity && home == map[]
    {
      buckets := seq(capacity, _ => 0);
      next := map[];
      chains := seq(capacity, _ => []);
      home := map[];
    }

    /** memset of the bucket array */
    method Clear()
      modifies this
      ensures Valid() && |buckets| == old(|buckets|) && home == map[]
    {
      buckets := seq(|buckets|, _ => 0);
      chains := seq(|buckets|, _ => []);
      home := map[];
    }

    /** Where an entry sits: its bucket, its position and its predecessor. */
    ghost predicate At(b: nat, j: nat, o: int, previous: int)
      reads this
    {
      && b < |chains| == |buckets| && j < |chains[b]| && o == chains[b][j]
      && previous == if j == 0 then 0 else chains[b][j - 1]
    }

    lemma AtHome(b: nat, j: nat, o: int, previous: int)
      requires Valid() && At(b, j, o, previous)
      ensures o in home && home[o] == b && o in next && o != 0
      ensures j > 0 ==> previous in home && home[previous] == b && previous > 0 && previous in next && previous != o
    {
      if j > 0 {
        assert chains[b][j - 1] in home;
      }
      assert Threaded(buckets[b], chains[b], next);
      assert Link(chains[b], next, j);
      assert j > 0 ==> Link(chains[b], next, j - 1);
    }

    /** Takes an entry out of its chain; `previous` is 0 at the bucket head. */
    method Remove(b: nat, o: int, previous: int, ghost j: nat)
      requires Valid() && At(b, j, o, previous)
      modifies this
      ensures Valid() && |buckets| == old(|buckets|) && home == old(home) - {o}
      ensures chains == old(chains)[b := RemoveAt(old(chains)[b], j)]
    {
      hide Filed, Threaded;
      AtHome(b, j, o, previous);
      assert NoDup(chains[b]) by { FiledNoDup(chains, home, b); }
      FiledRemove(chains, home, b, j);
      ThreadedCut(buckets[b], chains[b], next, j);
      ghost var chain := RemoveAt(chains[b], j);
      if previous != 0 {
        BucketUpdate(buckets, chains, next, home, b, buckets[b], chain, next[previous := next[o]]);
        assert buckets[b := buckets[b]] == buckets;
        next := next[previous := next[o]];
      } else {
        BucketUpdate(buckets, chains, next, home, b, next[o], chain, next);
        buckets := buckets[b := next[o]];
      }
      chains := chains[b := chain];
      home := home - {o};
    }

    static lemma FiledNoDup(chains: seq<seq<int>>, home: map<int, nat>, b: nat)
      requires Filed(chains, home) && b < |chains|
      ensures NoDup(chains[b])
      ensures forall o :: o in chains[b] ==> o in home
    {
    }

    /** Hangs a new entry at the end of its chain; `previous` is the last entry, or 0. */
    method Append(b: nat, o: int, previous: int)
      requires Valid() && b < |buckets| && o !in home && o > 0
      requires previous == if chains[b] == [] then 0 else chains[b][|chains[b]| - 1]
      modifies this
      ensures Valid() && |buckets| == old(|buckets|) && home == old(home)[o := b]
      ensures chains == old(chains)[b := old(chains)[b] + [o]]
    {
      hide Filed, Threaded;
      if chains[b] != [] {
        ghost var k := |chains[b]| - 1;
        AtHome(b, k, chains[b][k], if k == 0 then 0 else chains[b][k - 1]);
      }
      FiledNoDup(chains, home, b);
      FiledInsert(chains, home, b, o);
      ThreadedAppend(buckets[b], chains[b], next, o);
      ghost var chain := chains[b] + [o];
      if previous != 0 {
        BucketUpdate(buckets, chains, next, home, b, buckets[b], chain, next[o := 0][previous := o]);
        assert buckets[b := buckets[b]] == buckets;
        next := next[o := 0];
        next := next[previous := o];
      } else {
        assert chain == [o];
        BucketUpdate(buckets, chains, next, home, b, o, chain, next[o := 0]);
        next := next[o := 0];
        buckets := buckets[b := o];
      }
      chains := chains[b := chain];
      home := home[o := b];
    }

    /** new_entry->ht_next = old_entry->ht_next, before the old entry is freed. */
    method Inherit(o: int, gone: int)
      requires Valid() && o !in home && gone in next
      modifies this`next
      ensures Valid() && next == old(next)[o := old(next)[gone]]
    {
      NextFrame(buckets, chains, next, home, next[o := next[gone]]);
      next := next[o := next[gone]];
    }

    /** entry->ht_next = 0, at the end of shm_ht_free_entry */
    method Zero(o: int)
      modifies this`next
      ensures next == old(next)[o := 0]
    {
      next := next[o := 0];
    }

    /** Zeroing the word of an entry outside all chains keeps them. */
    lemma ZeroKeeps(o: int)
      requires Valid() && o !in home
      ensures AllThreaded(buckets, chains, next[o := 0])
    {
      NextFrame(buckets, chains, next, home, next[o := 0]);
    }

    static lemma NextFrame(buckets: seq<int>, chains: seq<seq<int>>, next: map<int, int>, home: map<int, nat>,
                           next': map<int, int>)
      requires AllThreaded(buckets, chains, next) && Filed(chains, home)
      requires forall o :: o in home ==> Kept(next, next', o)
      ensures AllThreaded(buckets, chains, next')
    {
      forall a | 0 <= a < |chains|
        ensures Threaded(buckets[a], chains[a], next')
      {
        assert Threaded(buckets[a], chains[a], next);
        forall i | 0 <= i < |chains[a]|
          ensures Kept(next, next', chains[a][i])
        {
          assert home[chains[a][i]] == a;
        }
        ThreadedFrame(buckets[a], chains[a], next, next');
      }
    }

    /**
     Puts the new entry in the place of the old one.  It inherited the old one's
     next word, which freeing has zeroed since; `before` is the state of the next
     words at that point.
     */
    method Replace(b: nat, gone: int, o: int, previous: int, ghost j: nat, ghost before: map<int, int>)
      requires AllThreaded(buckets, chains, before) && Filed(chains, home)
      requires At(b, j, gone, previous) && o !in home && o > 0 && gone in before
      requires next == before[o := before[gone]][gone := 0]
      modifies this
      ensures Valid() && |buckets| == old(|buckets|) && home == (old(home) - {gone})[o := b]
      ensures chains == old(chains)[b := old(chains)[b][j := o]]
    {
      hide Filed, Threaded;
      FiledNoDup(chains, home, b);
      FiledReplace(chains, home, b, j, o);
      ThreadedSwap(buckets[b], chains[b], before, j, o);
      PreviousHome(buckets, chains, home, b, j);
      ghost var chain := chains[b][j := o];
      if previous != 0 {
        BucketUpdate(buckets, chains, before, home, b, buckets[b], chain, next[previous := o]);
        assert buckets[b := buckets[b]] == buckets;
        next := next[previous := o];
      } else {
        BucketUpdate(buckets, chains, before, home, b, o, chain, next);
        buckets := buckets[b := o];
      }
      chains := chains[b := chain];
      home := (home - {gone})[o := b];
    }

    static lemma PreviousHome(buckets: seq<int>, chains: seq<seq<int>>, home: map<int, nat>, b: nat, j: nat)
      requires Filed(chains, home) && b < |chains| && j < |chains[b]|
      ensures chains[b][j] in home && home[chains[b][j]] == b
      ensures j > 0 ==> chains[b][j - 1] in home && home[chains[b][j - 1]] == b && chains[b][j - 1] > 0
    {
    }

    /** Other data is written over the words of entries that are not indexed. */
    method Overwrite(dead: set<int>)
      requires Valid() && forall o :: o in dead ==> o !in home
      modifies this`next
      ensures Valid()
    {
      NextFrame(buckets, chains, next, home, next - dead);
      next := next - dead;
    }
  }
}
