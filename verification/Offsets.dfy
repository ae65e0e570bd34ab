/**
 Encoded entry offsets: a 16-bit segment index and a 48-bit byte offset packed into
 one signed 64-bit word (union shm_hentry_offset).
 */
module Offsets {
  const INDEX_SPAN := 0x1_0000
  const OFFSET_SPAN := 0x1_0000_0000_0000
  const WORD_SPAN := 0x1_0000_0000_0000_0000
  /** The bit that marks an entry's segment index. */
  const SEGMENT_FLAG := 0x4000
  /** Byte offsets that the signed 48-bit field represents. */
  const OFFSET_LIMIT := 0x8000_0000_0000

  /** Stores both bit fields, truncating each to its width, and reads the word back as signed. */
  function Pack(index: int, offset: int): (w: int) {
    var raw := index % INDEX_SPAN + (offset % OFFSET_SPAN) * INDEX_SPAN;
    if raw >= WORD_SPAN / 2 then raw - WORD_SPAN else raw
  }

  /** `segment | 0x4000` */
  function Flagged(segment: nat): nat {
    if (segment / SEGMENT_FLAG) % 2 == 1 then segment else segment + SEGMENT_FLAG
  }

  /** shm_get_hentry_offset */
  function Encode(segment: nat, offset: nat): (w: int) { Pack(Flagged(segment), offset) }

  /** The `index & 0xFF` of shm_get_hentry_ptr */
  function SegmentOf(w: int): nat { (w % INDEX_SPAN) % 256 }

  /** The sign-extended offset field */
  function OffsetOf(w: int): int { w / INDEX_SPAN }

  /** The offset of the list head, with segment index -1. */
  function HeadWord(offset: nat): int { Pack(-1, offset) }

  /** For the segment indices that fit the 14 bits below the flag, decoding inverts encoding iff there are at most 256 segments. */
  lemma DecodeIff(segment: nat, offset: nat)
    requires segment < SEGMENT_FLAG && offset < OFFSET_LIMIT
    ensures OffsetOf(Encode(segment, offset)) == offset
    ensures SegmentOf(Encode(segment, offset)) == segment <==> segment <= 255
  {
    EncodeForm(segment, offset);
  }

  /** The word of an entry: the flagged index in the low 16 bits, the byte offset above. */
  lemma EncodeForm(segment: nat, offset: nat)
    requires segment < 0x4000 && offset < 0x8000_0000_0000
    ensures Encode(segment, offset) == segment + 0x4000 + offset * 0x1_0000
    ensures HeadWord(offset) == 0xFFFF + offset * 0x1_0000
  {
  }

  /** Entry offsets are positive, so 0 and -1 can mark the end of a chain and of the list. */
  lemma EncodePositive(segment: nat, offset: nat)
    requires segment < SEGMENT_FLAG && offset < OFFSET_LIMIT
    ensures Encode(segment, offset) > 0
  {
    EncodeForm(segment, offset);
  }

  lemma EncodeInjective(s: nat, o: nat, s': nat, o': nat)
    requires s < SEGMENT_FLAG && o < OFFSET_LIMIT && s' < SEGMENT_FLAG && o' < OFFSET_LIMIT
    requires Encode(s, o) == Encode(s', o')
    ensures s == s' && o == o'
  {
    EncodeForm(s, o);
    EncodeForm(s', o');
  }

  /** No entry has the offset of the list head. */
  lemma HeadApart(segment: nat, offset: nat, head: nat)
    requires segment < SEGMENT_FLAG && offset < OFFSET_LIMIT && head < OFFSET_LIMIT
    ensures Encode(segment, offset) != HeadWord(head)
  {
    EncodeForm(segment, offset);
    assert HeadWord(head) == INDEX_SPAN - 1 + head * INDEX_SPAN;
  }
}
