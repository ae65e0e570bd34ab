/**
 How memory is divided: the configured limits give segments, segments give stripes,
 and the hashtable segment reserves room for buckets, queues and allocators.
 */
module Sizing {
  import opened Stripes
  import opened Engine
  import opened Invariants

  const MB := 1048576
  /** The size of a bucket or queue slot. */
  const SLOT_SIZE := 8

  /** The memory-related settings as configured; `page` is a power of two. */
  datatype Limits = Limits(maxMemory: nat, segmentSize: nat, maxValue: nat, page: nat)

  predicate Sane(l: Limits) { 0 < l.segmentSize && 256 <= l.page }

  /** Division as C truncates it. */
  function Quot(a: int, b: nat): int
    requires 0 < b
  {
    if a >= 0 then a / b else -((-a) / b)
  }

  /** SHMCACE_MEM_ALIGN: for a power of two, masking is rounding up to a multiple. */
  function AlignUp(x: nat, unit: nat): nat
    requires 0 < unit
  {
    (x + unit - 1) / unit * unit
  }

  /** The clamp in shmcache_load_config: a segment is at least a 255th of the memory. */
  function SegmentSetting(l: Limits): (r: nat)
    requires Sane(l)
    ensures 0 < r
  {
    if l.maxMemory / l.segmentSize > 255 then
      ClampPositive(l.maxMemory, l.segmentSize);
      l.maxMemory / 255
    else l.segmentSize
  }

  datatype Sizes = Sizes(segSize: nat, segMax: int, stripeSize: nat, stripeMax: int)

  function SegmentSize(l: Limits): (r: nat)
    requires Sane(l)
    ensures SegmentSetting(l) <= r
  {
    AlignUpBounds(SegmentSetting(l), l.page);
    AlignUp(SegmentSetting(l), l.page)
  }

  function SegmentCount(l: Limits, memory: int): int
    requires Sane(l)
  {
    var n := Quot(memory, SegmentSize(l));
    if n == 0 then 1 else n
  }

  /** The stripe size in megabytes before the value limit is considered. */
  function StripeMegabytes(segSize: nat): nat {
    var n := segSize / (128 * MB);
    if n == 0 then 1
    else if n > 8 then 8
    else if 2 < n < 4 then 2
    else if 4 < n < 8 then 4
    else n
  }

  function StripeSize(l: Limits): (r: nat)
    requires Sane(l)
    ensures 0 < r <= SegmentSize(l)
    ensures r == SegmentSize(l) || (MB <= r && 2 * l.maxValue <= r)
  {
    var segSize := SegmentSize(l);
    var n := StripeMegabytes(segSize) * MB;
    var least := if n < l.maxValue * 2 then l.maxValue * 2 else n;
    AlignUpBounds(least, l.page);
    var wanted := AlignUp(least, l.page);
    if wanted > segSize then segSize else wanted
  }

  /** get_value_striping_count_size for an amount of value memory */
  function Divide(l: Limits, memory: int): Sizes
    requires Sane(l)
  {
    var n := SegmentCount(l, memory);
    Sizes(SegmentSize(l), n, StripeSize(l), n * (SegmentSize(l) / StripeSize(l)))
  }

  // ----- arithmetic

  lemma DivBounds(a: nat, b: nat)
    requires 0 < b
    ensures a / b * b <= a < a / b * b + b
  {
    assert a == b * (a / b) + a % b;
    assert b * (a / b) == a / b * b;
  }

  lemma MulMono(a: int, b: int, n: nat)
    requires a <= b
    ensures a * n <= b * n
  {
    assert (b - a) * n >= 0;
    assert b * n == a * n + (b - a) * n;
  }

  lemma DivAtMost(a: nat, b: nat, n: nat)
    requires 0 < b && a < (n + 1) * b
    ensures a / b <= n
  {
    DivBounds(a, b);
    if a / b > n {
      MulMono(n + 1, a / b, b);
    }
  }

  lemma DivAtLeast(a: nat, b: nat, n: nat)
    requires 0 < b && n * b <= a
    ensures n <= a / b
  {
    DivBounds(a, b);
    assert (a / b + 1) * b == a / b * b + b;
    if a / b < n {
      MulMono(a / b + 1, n, b);
    }
  }

  lemma AlignUpBounds(x: nat, unit: nat)
    requires 0 < unit
    ensures x <= AlignUp(x, unit) < x + unit
  {
    DivBounds(x + unit - 1, unit);
  }

  lemma ClampPositive(a: nat, b: nat)
    requires 0 < b && a / b > 255
    ensures 0 < a / 255
  {
    DivBounds(a, b);
    MulMono(256, a / b, b);
    DivAtLeast(a, 255, 1);
  }

  // ----- segments

  lemma DivMono(a: nat, a': nat, b: nat)
    requires 0 < b && a' <= a
    ensures a' / b <= a / b
  {
    DivBounds(a', b);
    DivAtLeast(a, b, a' / b);
  }

  lemma QuotMono(a: int, a': int, b: nat)
    requires 0 < b && a' <= a
    ensures Quot(a', b) <= Quot(a, b)
  {
    if 0 <= a' {
      DivMono(a, a', b);
    } else if a < 0 {
      DivMono(-a', -a, b);
    } else {
      DivNonNegative(-a', b);
      DivNonNegative(a, b);
    }
  }

  lemma DivNonNegative(a: nat, b: nat)
    requires 0 < b
    ensures a / b >= 0
  {
    DivAtLeast(a, b, 0);
  }

  /** The clamp and the page alignment leave at most 255 segments. */
  lemma AtMost255(l: Limits, memory: int)
    requires Sane(l) && memory <= l.maxMemory
    ensures SegmentCount(l, memory) <= 255
  {
    var s, m, configured := SegmentSize(l), l.maxMemory, l.segmentSize;
    QuotMono(m, memory, s);
    assert m < 256 * s by {
      if m / configured > 255 {
        DivBounds(m, 255);
        if s == SegmentSetting(l) {
          AlignedIsLarge(SegmentSetting(l), l.page);
        }
      } else {
        DivBounds(m, configured);
        MulMono(m / configured + 1, 256, configured);
        assert (m / configured + 1) * configured == m / configured * configured + configured;
        MulMono(configured, s, 256);
      }
    }
    DivAtMost(m, s, 255);
  }

  /** A positive size that alignment leaves alone is at least a page. */
  lemma AlignedIsLarge(x: nat, unit: nat)
    requires 0 < unit && 0 < x && AlignUp(x, unit) == x
    ensures unit <= x
  {
    var q := (x + unit - 1) / unit;
    if q <= 0 {
      MulMono(q, 0, unit);
    } else {
      MulMono(1, q, unit);
    }
  }

  // ----- stripes

  /** A segment holds the stripes cut from it, and at least one. */
  lemma StripesFit(l: Limits)
    requires Sane(l)
    ensures var per := SegmentSize(l) / StripeSize(l);
      1 <= per && Times(per, StripeSize(l)) <= SegmentSize(l)
  {
    var per := SegmentSize(l) / StripeSize(l);
    DivBounds(SegmentSize(l), StripeSize(l));
    DivAtLeast(SegmentSize(l), StripeSize(l), 1);
    TimesIsProduct(per, StripeSize(l));
  }

  /** The stripes of all segments that may be created never exceed the stripe maximum. */
  lemma CreatedStripesFit(l: Limits, memory: int, segs: nat)
    requires Sane(l)
    requires segs <= Divide(l, memory).segMax
    ensures Times(segs, SegmentSize(l) / StripeSize(l)) <= Divide(l, memory).stripeMax
  {
    StripesFit(l);
    var per := SegmentSize(l) / StripeSize(l);
    TimesIsProduct(segs, per);
    MulMono(segs, Divide(l, memory).segMax, per);
  }

  /** The second pass, with less value memory, keeps the sizes and needs no more stripes. */
  lemma SecondPassSmaller(l: Limits, reserved: nat)
    requires Sane(l)
    ensures var first, second := Divide(l, l.maxMemory), Divide(l, l.maxMemory - reserved);
      && second.segSize == first.segSize && second.stripeSize == first.stripeSize
      && second.segMax <= first.segMax && second.stripeMax <= first.stripeMax
      && 1 <= first.segMax
  {
    StripesFit(l);
    QuotMono(l.maxMemory, l.maxMemory - reserved, SegmentSize(l));
    DivNonNegative(l.maxMemory, SegmentSize(l));
    MulMono(SegmentCount(l, l.maxMemory - reserved), SegmentCount(l, l.maxMemory), SegmentSize(l) / StripeSize(l));
  }

  // ----- the hashtable segment

  /** Where the parts of the hashtable segment start, and where it ends. */
  datatype HtLayout = HtLayout(buckets: nat, keyQueue: nat, doing: nat, done: nat, objects: nat, total: nat)

  /** shmcache_get_ht_segment_size, for the stripe maximum of the first pass */
  function HtSegment(headerSize: nat, capacity: nat, maxKeys: nat, stripeMax: nat): HtLayout {
    var buckets := headerSize;
    var keyQueue := buckets + SLOT_SIZE * capacity;
    var doing := keyQueue + SLOT_SIZE * (maxKeys + 1);
    var done := doing + SLOT_SIZE * (stripeMax + 1);
    var objects := done + SLOT_SIZE * (stripeMax + 1);
    HtLayout(buckets, keyQueue, doing, done, objects, objects + ALLOCATOR_SIZE * stripeMax)
  }

  /**
   The queues and allocators sized by the second pass stay inside what the first
   pass reserved for them: one ring slot per stripe and one more, in each queue,
   and one object per stripe.
   */
  lemma ReservationSuffices(l: Limits, headerSize: nat, capacity: nat, maxKeys: nat)
    requires Sane(l) && 0 <= Divide(l, l.maxMemory).stripeMax
    ensures var first := Divide(l, l.maxMemory);
      var ht := HtSegment(headerSize, capacity, maxKeys, first.stripeMax);
      var second := Divide(l, l.maxMemory - ht.total);
      && ht.doing + SLOT_SIZE * (second.stripeMax + 1) <= ht.done
      && ht.done + SLOT_SIZE * (second.stripeMax + 1) <= ht.objects
      && ht.objects + ALLOCATOR_SIZE * second.stripeMax <= ht.total
  {
    SecondPassSmaller(l, HtSegment(headerSize, capacity, maxKeys, Divide(l, l.maxMemory).stripeMax).total);
  }

  // ----- the engine's settings

  datatype Setup = NoSegment | Ready(c: Config, ht: HtLayout)

  /**
   The settings that initialisation gives to the engine: the first pass sizes the
   hashtable segment, the second divides what is left.  With a memory limit so low
   that the maximum of segments is negative, the first segment cannot be created.
   The rings, of one slot more than the stripe maximum, have a slot for every
   stripe that can be created.
   */
  function Configure(l: Limits, headerSize: nat, capacity: nat, engine: Settings): (r: Setup)
    requires Sane(l) && 1 <= engine.maxKeys && 1 <= engine.alignUnit
    ensures r.Ready? ==>
      && 1 <= r.c.segMax <= 255 && r.c.maxValue == l.maxValue && r.c.maxKeys == engine.maxKeys
      && r.c.segSize == SegmentSize(l) && r.c.stripeSize == StripeSize(l)
      && r.c.common == r.ht.total && r.c.perSegment == r.c.segSize / r.c.stripeSize
      && r.c.segMax == SegmentCount(l, l.maxMemory - r.c.common)
      && r.c == engine.(maxValue := l.maxValue, segMax := r.c.segMax, segSize := r.c.segSize, stripeSize := r.c.stripeSize,
                        perSegment := r.c.perSegment, common := r.c.common)
      && Times(r.c.segMax, r.c.perSegment) == Divide(l, l.maxMemory - r.ht.total).stripeMax
      && headerSize <= r.ht.buckets
      && r.ht.buckets + 8 * capacity <= r.ht.keyQueue
      && r.ht.keyQueue + 8 * (engine.maxKeys + 1) <= r.ht.doing
      && r.ht.doing + 8 * (Times(r.c.segMax, r.c.perSegment) + 1) <= r.ht.done
      && r.ht.done + 8 * (Times(r.c.segMax, r.c.perSegment) + 1) <= r.ht.objects
      && r.ht.objects + 56 * Times(r.c.segMax, r.c.perSegment) <= r.ht.total
  {
    FirstPass(l);
    var ht := HtSegment(headerSize, capacity, engine.maxKeys, Divide(l, l.maxMemory).stripeMax);
    var n := SegmentCount(l, l.maxMemory - ht.total);
    if n < 1 then NoSegment
    else
      StripesFit(l);
      TimesIsProduct(n, SegmentSize(l) / StripeSize(l));
      AtMost255(l, l.maxMemory - ht.total);
      ReservationSuffices(l, headerSize, capacity, engine.maxKeys);
      Ready(engine.(maxValue := l.maxValue, segMax := n, segSize := SegmentSize(l), stripeSize := StripeSize(l),
                    perSegment := SegmentSize(l) / StripeSize(l), common := ht.total), ht)
  }

  /** Initialisation finds no segment exactly when the hashtable segment exceeds the memory by a segment or more. */
  lemma ConfigureIff(l: Limits, headerSize: nat, capacity: nat, engine: Settings)
    requires Sane(l) && 1 <= engine.maxKeys && 1 <= engine.alignUnit
    ensures 1 <= Divide(l, l.maxMemory).stripeMax
    ensures Configure(l, headerSize, capacity, engine).Ready? <==>
      HtSegment(headerSize, capacity, engine.maxKeys, Divide(l, l.maxMemory).stripeMax).total < l.maxMemory + SegmentSize(l)
  {
    FirstPass(l);
    var m := l.maxMemory - HtSegment(headerSize, capacity, engine.maxKeys, Divide(l, l.maxMemory).stripeMax).total;
    var s := SegmentSize(l);
    if m >= 0 {
      DivNonNegative(m, s);
    } else if -m >= s {
      DivAtLeast(-m, s, 1);
    } else {
      DivAtMost(-m, s, 0);
      DivNonNegative(-m, s);
    }
  }

  /** The stripes of one pass over all memory, for which the hashtable segment reserves room. */
  function ReservedStripes(maxMemory: nat, segSize: nat, stripeSize: nat): nat
    requires 0 < segSize && 0 < stripeSize
  {
    DivNonNegative(maxMemory, segSize);
    DivNonNegative(segSize, stripeSize);
    TimesIsProduct(maxMemory / segSize, segSize / stripeSize);
    if maxMemory < segSize then segSize / stripeSize else (maxMemory / segSize) * (segSize / stripeSize)
  }

  /** What a stripe should hold at least: a share that grows with the segment, and two values. */
  function StripeFloor(segSize: nat, maxValue: nat): nat {
    var share :=
      if segSize < 268435456 then 1048576
      else if segSize < 536870912 then 2097152
      else if segSize < 1073741824 then 4194304
      else 8388608;
    if share < 2 * maxValue then 2 * maxValue else share
  }

  lemma AlignUpPaged(x: nat, page: nat)
    requires 0 < page
    ensures LeastMultiple(AlignUp(x, page), x, page)
  {
    AlignUpBounds(x, page);
    DivNonNegative(x + page - 1, page);
    TimesIsProduct((x + page - 1) / page, page);
    assert AlignUp(x, page) == Times((x + page - 1) / page, page);
  }

  /** A stripe is a whole segment, or the page multiple of what it should hold if that fits. */
  lemma StripeRule(l: Limits)
    requires Sane(l)
    ensures var least := StripeFloor(SegmentSize(l), l.maxValue); var r := StripeSize(l);
      && r <= SegmentSize(l)
      && (r == SegmentSize(l) || LeastMultiple(r, least, l.page))
      && (least + l.page <= SegmentSize(l) ==> LeastMultiple(r, least, l.page))
  {
    var segSize := SegmentSize(l);
    MegabyteRanges(segSize);
    var least := StripeFloor(segSize, l.maxValue);
    AlignUpPaged(least, l.page);
  }

  lemma MegabyteRanges(segSize: nat)
    ensures StripeMegabytes(segSize) * 1048576 == StripeFloor(segSize, 0)
  {
    var n := segSize / 134217728;
    DivBounds(segSize, 134217728);
  }

  /** A segment is the page multiple of its setting, which is raised to a 255th of the memory when it is below a 256th. */
  lemma SegmentRule(l: Limits)
    requires Sane(l)
    ensures var least := if l.maxMemory < 256 * l.segmentSize then l.segmentSize else l.maxMemory / 255;
      0 <= least && LeastMultiple(SegmentSize(l), least, l.page)
  {
    DivNonNegative(l.maxMemory, 255);
    DivBounds(l.maxMemory, l.segmentSize);
    if l.maxMemory < 256 * l.segmentSize {
      DivAtMost(l.maxMemory, l.segmentSize, 255);
    } else {
      DivAtLeast(l.maxMemory, l.segmentSize, 256);
    }
    AlignUpPaged(SegmentSetting(l), l.page);
  }

  /** How many segments an amount of memory gives: as many as fit, but one if less than a segment is left. */
  lemma CountRule(l: Limits, memory: int)
    requires Sane(l)
    ensures var s := SegmentSize(l); var n := SegmentCount(l, memory);
      && (s <= memory ==> n * s <= memory < n * s + s)
      && (0 - s < memory < s ==> n == 1)
      && (memory <= 0 - s ==> n < 0)
  {
    var s := SegmentSize(l);
    if s <= memory {
      DivBounds(memory, s);
      DivAtLeast(memory, s, 1);
    } else if 0 <= memory {
      DivAtMost(memory, s, 0);
      DivNonNegative(memory, s);
    } else if -memory < s {
      DivAtMost(-memory, s, 0);
      DivNonNegative(-memory, s);
    } else {
      DivAtLeast(-memory, s, 1);
    }
  }

  /** Where the areas of the hashtable segment start, and where it ends. */
  lemma LayoutRule(l: Limits, headerSize: nat, capacity: nat, engine: Settings)
    requires Sane(l) && 1 <= engine.maxKeys && 1 <= engine.alignUnit
    requires Configure(l, headerSize, capacity, engine).Ready?
    ensures var r := Configure(l, headerSize, capacity, engine);
      var n := ReservedStripes(l.maxMemory, r.c.segSize, r.c.stripeSize);
      && r.ht.buckets == headerSize
      && r.ht.keyQueue == headerSize + 8 * capacity
      && r.ht.doing == headerSize + 8 * capacity + 8 * (engine.maxKeys + 1)
      && r.ht.done == r.ht.doing + 8 * (n + 1)
      && r.ht.objects == r.ht.doing + 16 * (n + 1)
      && r.c.common == r.ht.total == r.ht.objects + 56 * n
  {
    hide Divide, Times, ReservedStripes, SegmentCount, SegmentSize, StripeSize;
    FirstPass(l);
    FirstStripes(l);
  }

  lemma FirstStripes(l: Limits)
    requires Sane(l)
    ensures Divide(l, l.maxMemory).stripeMax == ReservedStripes(l.maxMemory, SegmentSize(l), StripeSize(l))
  {
    hide SegmentSize, StripeSize;
    var s := SegmentSize(l);
    DivBounds(l.maxMemory, s);
    if s <= l.maxMemory {
      DivAtLeast(l.maxMemory, s, 1);
    } else {
      DivAtMost(l.maxMemory, s, 0);
    }
    DivNonNegative(l.maxMemory, s);
  }

  lemma FirstPass(l: Limits)
    requires Sane(l)
    ensures 1 <= Divide(l, l.maxMemory).stripeMax
  {
    SecondPassSmaller(l, 0);
    StripesFit(l);
    MulMono(1, Divide(l, l.maxMemory).segMax, SegmentSize(l) / StripeSize(l));
  }

  // ----- entries and stripes

  lemma {:induction false} RoundUpTimes(n: nat, unit: nat)
    requires 1 <= unit
    ensures RoundUp(Times(n, unit), unit) == Times(n, unit)
  {
    if n > 0 {
      RoundUpTimes(n - 1, unit);
    }
  }

  lemma {:induction false} RoundUpMono(x: nat, y: nat, unit: nat)
    requires 1 <= unit && x <= y
    ensures RoundUp(x, unit) <= RoundUp(y, unit)
  {
    if x > unit {
      RoundUpMono(x - unit, y - unit, unit);
    }
  }

  /** With the stripe size of this division, every legal entry fits a stripe iff the largest one fits a segment. */
  lemma FitsIff(c: Config, l: Limits)
    requires Sane(l) && c.maxValue == l.maxValue && c.alignUnit <= 1024
    requires c.stripeSize == StripeSize(l) && c.segSize == SegmentSize(l)
    ensures Fits(c) <==> EntrySize(c, MAX_KEY_SIZE, c.maxValue) <= c.segSize
  {
    var largest := EntrySize(c, MAX_KEY_SIZE, c.maxValue);
    var n := StripeMegabytes(SegmentSize(l)) * MB;
    AlignUpBounds(if n < l.maxValue * 2 then l.maxValue * 2 else n, l.page);
    forall k: nat, v: nat | k <= MAX_KEY_SIZE && v <= c.maxValue
      ensures EntrySize(c, k, v) <= largest
    {
      RoundUpMono(k, MAX_KEY_SIZE, c.alignUnit);
      RoundUpMono(v, c.maxValue, c.alignUnit);
    }
    if largest <= c.segSize {
      assert largest <= c.stripeSize;
    }
  }
}
