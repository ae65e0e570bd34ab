/**
 Where live entries lie: in segment coordinates they never share a byte, each stays
 inside its stripe and its segment, and within an entry the header, key and value
 areas are apart.
 */
module Placement {
  import opened Stripes
  import opened Engine
  import opened Accounting
  import opened Invariants

  /** The byte ranges of two entries do not meet. */
  ghost predicate Disjoint(x: Item, y: Item) {
    x.segment == y.segment ==> x.offset + x.size <= y.offset || y.offset + y.size <= x.offset
  }

  /** The key's and the value's place inside an entry. */
  function KeyStart(x: Item): nat { x.offset + HEADER_SIZE }

  function ValueStart(c: Config, x: Item): nat {
    x.offset + HEADER_SIZE + RoundUp(|x.binding.key|, c.alignUnit)
  }

  /** An entry is inside its stripe, below the bump pointer, and inside its segment. */
  lemma Inside(c: Config, e: State, items: seq<Item>, i: nat)
    requires Core(c, e, items) && i < |items|
    ensures var x := items[i];
      && x.stripe < |e.pool.stripes| && x.segment == e.pool.stripes[x.stripe].segment < e.segs
      && e.pool.stripes[x.stripe].base <= x.offset
      && x.offset + x.size <= e.pool.stripes[x.stripe].free
      && x.offset + x.size <= e.pool.stripes[x.stripe].base + c.stripeSize
      && x.offset + x.size <= c.segSize && x.size > 0
  {
    hide Queued, Fits, DoneBusy, Held, TotalSize, TotalUsed, Times, Before, Apart;
    var x := items[i];
    assert Placed(e.pool, x);
    assert InSegment(c, e.segs, e.pool.stripes[x.stripe]);
    assert Sound(e.pool.stripes[x.stripe]);
  }

  /** Two entries handed out by the allocator share no byte, whether or not they share a stripe. */
  lemma PairDisjoint(c: Config, e: State, items: seq<Item>, i: nat, j: nat)
    requires Core(c, e, items) && i < |items| && j < |items| && i != j
    ensures Disjoint(items[i], items[j])
  {
    hide Queued, Fits, DoneBusy, Held, TotalSize, TotalUsed, Times, InSegment, Placed, Sound;
    var x, y := items[i], items[j];
    Inside(c, e, items, i);
    Inside(c, e, items, j);
    if x.stripe == y.stripe {
      assert Apart(if i < j then x else y, if i < j then y else x);
    } else {
      var s, t := x.stripe, y.stripe;
      assert Before(e.pool.stripes[if s < t then s else t], e.pool.stripes[if s < t then t else s]);
      StripeTotal(c, e, s);
      StripeTotal(c, e, t);
    }
  }

  /** In a well-formed cache all live entries are pairwise disjoint. */
  lemma LiveDisjoint(c: Config, e: State)
    requires WF(c, e)
    ensures forall i, j :: 0 <= i < |e.fifo| && 0 <= j < |e.fifo| && i != j ==> Disjoint(e.fifo[i], e.fifo[j])
  {
    hide Core, Table, Disjoint;
    forall i, j | 0 <= i < |e.fifo| && 0 <= j < |e.fifo| && i != j
      ensures Disjoint(e.fifo[i], e.fifo[j])
    {
      PairDisjoint(c, e, e.fifo, i, j);
    }
  }

  /** An entry is a header of 64 bytes, then the key and the value, each padded to the alignment. */
  lemma EntryLayout(c: Config, x: Item)
    requires LegalItem(c, x)
    ensures KeyStart(x) == x.offset + 64
    ensures ValueStart(c, x) >= KeyStart(x) && LeastMultiple(ValueStart(c, x) - KeyStart(x), |x.binding.key|, c.alignUnit)
    ensures x.offset + x.size >= ValueStart(c, x)
    ensures LeastMultiple(x.offset + x.size - ValueStart(c, x), |x.binding.value|, c.alignUnit)
  {
    RoundUpLeast(|x.binding.key|, c.alignUnit);
    RoundUpLeast(|x.binding.value|, c.alignUnit);
  }

  /** Header, key and value follow each other without overlap and end inside the entry. */
  lemma AreasApart(c: Config, x: Item)
    requires LegalItem(c, x)
    ensures x.offset + HEADER_SIZE <= KeyStart(x)
    ensures KeyStart(x) + |x.binding.key| <= ValueStart(c, x)
    ensures ValueStart(c, x) + |x.binding.value| <= x.offset + x.size
  {
  }
}
