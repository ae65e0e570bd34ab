/**
 The value segments as memory: entry headers by encoded offset, and the bytes of
 keys and values.  Writing an entry destroys whatever header lay in its range, so a
 live entry survives only because the allocator keeps entries apart.
 */
module EntryStore {
  import opened Engine
  import opened Invariants
  import opened Placement
  import opened Offsets

  datatype Header = Header(
    keyLen: nat, valueLen: nat, options: int, expires: int,
    size: nat, segment: nat, stripe: nat, offset: nat)

  function HeaderOf(x: Item): Header {
    Header(|x.binding.key|, |x.binding.value|, x.binding.options, x.binding.expires,
           x.size, x.segment, x.stripe, x.offset)
  }

  /** The encoded offset of an entry. */
  function Word(x: Item): int { Encode(x.segment, x.offset) }

  ghost function Slice(s: Bytes, at: nat, n: nat): Bytes
    requires at + n <= |s|
  {
    s[at..at + n]
  }

  /** memcpy of `data` to position `at` */
  function Splice(s: Bytes, at: nat, data: Bytes): (r: Bytes)
    requires at + |data| <= |s|
    ensures |r| == |s|
  {
    s[..at] + data + s[at + |data|..]
  }

  lemma SpliceSlice(s: Bytes, at: nat, data: Bytes, from: nat, n: nat)
    requires at + |data| <= |s| && from + n <= |s|
    ensures from == at && n == |data| ==> Slice(Splice(s, at, data), from, n) == data
    ensures from + n <= at || at + |data| <= from ==> Slice(Splice(s, at, data), from, n) == Slice(s, from, n)
  {
  }

  /** The areas of the entry are inside the segment image. */
  ghost predicate Framed(c: Config, segs: seq<Bytes>, x: Item) {
    && LegalItem(c, x)
    && x.segment < |segs| && x.offset + x.size <= |segs[x.segment]|
  }

  /** Memory holds the entry: its header, its key bytes and its value bytes. */
  ghost predicate Stored(c: Config, hdr: map<int, Header>, segs: seq<Bytes>, o: int, x: Item) {
    && o in hdr && hdr[o] == HeaderOf(x)
    && Framed(c, segs, x)
    && Carries(c, segs, x)
  }

  lemma StoredHeader(c: Config, hdr: map<int, Header>, segs: seq<Bytes>, o: int, x: Item)
    requires Stored(c, hdr, segs, o, x)
    ensures o in hdr && hdr[o] == HeaderOf(x)
  {
  }

  lemma WordRestamp(x: Item, t: int)
    ensures Word(x.(binding := x.binding.(expires := t))) == Word(x)
  {
  }

  lemma RestampOne(c: Config, hdr: map<int, Header>, segs: seq<Bytes>, o: int, x: Item, t: int)
    requires Stored(c, hdr, segs, o, x)
    ensures Stored(c, hdr[o := hdr[o].(expires := t)], segs, o, x.(binding := x.binding.(expires := t)))
  {
    hide EntrySize;
  }

  lemma RestampOther(c: Config, hdr: map<int, Header>, segs: seq<Bytes>, o: int, x: Item, p: int, h: Header)
    requires Stored(c, hdr, segs, o, x) && o != p
    ensures Stored(c, hdr[p := h], segs, o, x)
  {
  }

  /** The key and value areas of an entry lie inside the segment images. */
  ghost predicate Bounded(c: Config, segs: seq<Bytes>, x: Item) {
    && x.segment < |segs|
    && KeyStart(x) + |x.binding.key| <= |segs[x.segment]|
    && ValueStart(c, x) + |x.binding.value| <= |segs[x.segment]|
  }

  /** The bytes of an entry's key and value are the same in both memories. */
  ghost predicate SameBytes(c: Config, segs: seq<Bytes>, segs': seq<Bytes>, x: Item) {
    && Bounded(c, segs, x) && Bounded(c, segs', x)
    && Slice(segs'[x.segment], KeyStart(x), |x.binding.key|) == Slice(segs[x.segment], KeyStart(x), |x.binding.key|)
    && Slice(segs'[x.segment], ValueStart(c, x), |x.binding.value|)
         == Slice(segs[x.segment], ValueStart(c, x), |x.binding.value|)
  }

  /** Memory holds the key and value of an entry in its place. */
  ghost predicate Carries(c: Config, segs: seq<Bytes>, x: Item) {
    && Bounded(c, segs, x)
    && Slice(segs[x.segment], KeyStart(x), |x.binding.key|) == x.binding.key
    && Slice(segs[x.segment], ValueStart(c, x), |x.binding.value|) == x.binding.value
  }

  /** The header's range meets a range. */
  predicate Meets(h: Header, segment: nat, offset: nat, size: nat) {
    h.segment == segment && h.offset < offset + size && offset < h.offset + h.size
  }

  /** What writing an entry leaves in the other places. */
  function Survivors(hdr: map<int, Header>, segment: nat, offset: nat, size: nat): map<int, Header> {
    map o | o in hdr && !Meets(hdr[o], segment, offset, size) :: hdr[o]
  }

  /** The segment image once the key and value of `x` are copied into it. */
  function Written(c: Config, s: Bytes, x: Item): (r: Bytes)
    requires LegalItem(c, x) && x.offset + x.size <= |s|
    ensures |r| == |s|
  {
    AreasApart(c, x);
    Splice(Splice(s, KeyStart(x), x.binding.key), ValueStart(c, x), x.binding.value)
  }

  /** Writing an entry keeps every other entry that is disjoint from it, bytes and header. */
  lemma WriteKeeps(c: Config, hdr: map<int, Header>, segs: seq<Bytes>, o: int, y: Item, x: Item)
    requires Stored(c, hdr, segs, o, y) && Framed(c, segs, x) && Disjoint(x, y) && o != Word(x)
    ensures Stored(c, Survivors(hdr, x.segment, x.offset, x.size)[Word(x) := HeaderOf(x)],
                   segs[x.segment := Written(c, segs[x.segment], x)], o, y)
  {
    hide EntrySize, Legal, Word;
    AreasApart(c, x);
    AreasApart(c, y);
    if x.segment == y.segment {
      var s := segs[x.segment];
      var t := Splice(s, KeyStart(x), x.binding.key);
      SpliceSlice(s, KeyStart(x), x.binding.key, KeyStart(y), |y.binding.key|);
      SpliceSlice(s, KeyStart(x), x.binding.key, ValueStart(c, y), |y.binding.value|);
      SpliceSlice(t, ValueStart(c, x), x.binding.value, KeyStart(y), |y.binding.key|);
      SpliceSlice(t, ValueStart(c, x), x.binding.value, ValueStart(c, y), |y.binding.value|);
    }
  }

  /** The entry just written is stored. */
  lemma WriteStores(c: Config, hdr: map<int, Header>, segs: seq<Bytes>, x: Item)
    requires Framed(c, segs, x)
    ensures Stored(c, Survivors(hdr, x.segment, x.offset, x.size)[Word(x) := HeaderOf(x)],
                   segs[x.segment := Written(c, segs[x.segment], x)], Word(x), x)
  {
    hide EntrySize, Legal, Word;
    AreasApart(c, x);
    var s := segs[x.segment];
    var t := Splice(s, KeyStart(x), x.binding.key);
    SpliceSlice(s, KeyStart(x), x.binding.key, KeyStart(x), |x.binding.key|);
    SpliceSlice(t, ValueStart(c, x), x.binding.value, KeyStart(x), |x.binding.key|);
    SpliceSlice(t, ValueStart(c, x), x.binding.value, ValueStart(c, x), |x.binding.value|);
  }

  class EntryStore {
    const c: Config
    var hdr: map<int, Header>
    var segs: seq<Bytes>

    constructor (config: Config)
      ensures c == config && hdr == map[] && segs == []
    {
      c, hdr, segs := config, map[], [];
    }

    /** HT_KEY_EQUALS */
    method KeyEquals(o: int, key: Bytes, ghost x: Item) returns (same: bool)
      requires Stored(c, hdr, segs, o, x)
      ensures same <==> x.binding.key == key
    {
      hide EntrySize, Legal;
      var h := hdr[o];
      same := h.keyLen == |key| && segs[h.segment][h.offset + HEADER_SIZE..h.offset + HEADER_SIZE + h.keyLen] == key;
    }

    /** What a reader of the entry gets: key, value, options and expiry. */
    method Read(o: int, ghost x: Item) returns (b: Binding)
      requires Stored(c, hdr, segs, o, x)
      ensures b == x.binding
    {
      hide EntrySize, Legal;
      var h := hdr[o];
      var k := h.offset + HEADER_SIZE;
      var v := h.offset + HEADER_SIZE + RoundUp(h.keyLen, c.alignUnit);
      b := Binding(segs[h.segment][k..k + h.keyLen], segs[h.segment][v..v + h.valueLen], h.options, h.expires);
    }

    /**
     The stores of an allocation and of shm_ht_set to the new entry.  Headers in
     its range are gone afterwards; their offsets are reported.
     */
    method Write(x: Item) returns (dead: set<int>)
      requires Framed(c, segs, x)
      modifies this
      ensures hdr == Survivors(old(hdr), x.segment, x.offset, x.size)[Word(x) := HeaderOf(x)]
      ensures segs == old(segs)[x.segment := Written(c, old(segs)[x.segment], x)]
      ensures forall o :: o in hdr && o != Word(x) ==>
        && o in old(hdr)
        && (hdr[o].segment == x.segment ==>
              hdr[o].offset >= x.offset + x.size || x.offset >= hdr[o].offset + hdr[o].size)
      ensures dead == old(hdr).Keys - Survivors(old(hdr), x.segment, x.offset, x.size).Keys
    {
      var left := Survivors(hdr, x.segment, x.offset, x.size);
      dead := hdr.Keys - left.Keys;
      hdr := left[Word(x) := HeaderOf(x)];
      segs := segs[x.segment := Written(c, segs[x.segment], x)];
    }

    /** entry->expires = expires */
    method SetExpires(o: int, expires: int)
      requires o in hdr
      modifies this`hdr
      ensures hdr == old(hdr)[o := old(hdr)[o].(expires := expires)]
    {
      hdr := hdr[o := hdr[o].(expires := expires)];
    }

    /** A new segment is zero-filled. */
    method AddSegment()
      modifies this`segs
      ensures segs == old(segs) + [seq(c.segSize, _ => 0)]
    {
      segs := segs + [seq(c.segSize, _ => 0)];
    }
  }
}
