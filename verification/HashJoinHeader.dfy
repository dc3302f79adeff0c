/** Bucket headers of the hash-join table (hashjoin_hashtable.rs): a 48-bit pointer to the first
    entry of the bucket's chain under a 16-bit tag filter, packed in one 64-bit word. */
module HashJoinHeader {
  import opened Bits

  type Word = nat

  const NULL: Word := 0
  const POINTER_BITS_SIZE := 48
  const TAG_BITS_SIZE := 16

  /** `!POINTER_MASK` in 64 bits. */
  function TagMask(): Word { HighMask(POINTER_BITS_SIZE, TAG_BITS_SIZE) }

  /** Which of the 16 tag bits a hash uses. */
  function TagIndex(hash: Word): nat { BitAnd(hash, TAG_BITS_SIZE - 1) }

  function Tag(hash: Word): Word { Pow2(POINTER_BITS_SIZE + TagIndex(hash)) }

  function NewHeader(ptr: Word, hash: Word): Word { BitOr(ptr, Tag(hash)) }

  function CombineHeader(newHeader: Word, oldHeader: Word): Word { BitOr(newHeader, BitAnd(oldHeader, TagMask())) }

  function RemoveHeaderTag(header: Word): Word { BitAnd(header, Pow2(POINTER_BITS_SIZE) - 1) }

  predicate EarlyFiltering(header: Word, hash: Word) {
    BitAnd(ShiftRight(header, POINTER_BITS_SIZE), Pow2(TagIndex(hash))) != 0
  }

  predicate SameTag(hash: Word, h: Word) { TagIndex(hash) == TagIndex(h) }

  /** A non-null address that leaves the tag bits clear. */
  predicate IsPointer(ptr: Word) { 0 < ptr < Pow2(POINTER_BITS_SIZE) }

  lemma TagIndexRange(hash: Word)
    ensures TagIndex(hash) < TAG_BITS_SIZE
  {
    assert IsPow2(16) by { assert IsPow2(8) by { assert IsPow2(4); } }
    MaskIsMod(hash, TAG_BITS_SIZE);
  }

  /** The filter of a header written by a push passes exactly the pushed hash and what the
      previous filter passed. */
  lemma PushedFilter(ptr: Word, hash: Word, oldHeader: Word, h: Word)
    requires IsPointer(ptr)
    ensures EarlyFiltering(CombineHeader(NewHeader(ptr, hash), oldHeader), h) <==>
            SameTag(hash, h) || EarlyFiltering(oldHeader, h)
  {
    TagIndexRange(hash);
    TagIndexRange(h);
    HighBit(CombineHeader(NewHeader(ptr, hash), oldHeader), POINTER_BITS_SIZE, TagIndex(h));
    HighBit(oldHeader, POINTER_BITS_SIZE, TagIndex(h));
    HighField(ptr, oldHeader, POINTER_BITS_SIZE, TAG_BITS_SIZE, TagIndex(hash), TagIndex(h));
  }

  /** The pointer of a header written by a push is the pushed entry. */
  lemma PushedPointer(ptr: Word, hash: Word, oldHeader: Word)
    requires IsPointer(ptr)
    ensures RemoveHeaderTag(CombineHeader(NewHeader(ptr, hash), oldHeader)) == ptr
  {
    LowField(ptr, oldHeader, POINTER_BITS_SIZE, TAG_BITS_SIZE, TagIndex(hash));
  }

  lemma NullHeader(h: Word)
    ensures !EarlyFiltering(NULL, h)
  {
    HighBit(NULL, POINTER_BITS_SIZE, TagIndex(h));
    TestZero(POINTER_BITS_SIZE + TagIndex(h));
  }
}
