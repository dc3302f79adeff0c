/** The hash-join table for string keys: its hash, and probing with the early prefix check
    (hashjoin_string_hashtable.rs, traits.rs). */
module HashJoinString {
  import opened Bits
  import opened HashJoinBuild
  import opened HashJoinHeader
  import opened HashJoinProbe
  import opened PackedKeys

  // ---------------------------------------------------------------- the hash

  /** `hash_join_fast_string_hash`: the checksum fold, and 32 ones for the empty key. */
  function StringHash(crc: Crc, key: Bytes): Word {
    if key == [] then 0xFFFF_FFFF else HashOf(crc, key)
  }

  function StringHasher(crc: Crc): Bytes -> Word {
    key => StringHash(crc, key)
  }

  method HashString(crc: Crc, s: Slice) returns (hash: Word)
    ensures hash == StringHash(crc, Text(s))
  {
    if s.len == 0 {
      assert Text(s) == [];
      return 0xFFFF_FFFF;
    }
    hash := HashBytes(crc, s);
  }

  const HASH_BITS := 32
  const HASH_RANGE := 0x1_0000_0000

  ghost predicate Is32Bit(crc: Crc) {
    forall value: nat, x: nat :: crc(value, x) < HASH_RANGE
  }

  lemma {:induction false} FoldRange(crc: Crc, value: nat, words: seq<nat>)
    requires Is32Bit(crc) && words != []
    ensures Fold(crc, value, words) < HASH_RANGE
    decreases |words|
  {
    if |words| > 1 {
      FoldRange(crc, crc(value, words[0]), words[1..]);
    } else {
      assert Fold(crc, crc(value, words[0]), words[1..]) == crc(value, words[0]);
    }
  }

  lemma Bits32()
    ensures Pow2(HASH_BITS) == HASH_RANGE
  {
    assert Pow2(4) == 16 && Pow2(8) == 16 * Pow2(4) && Pow2(12) == 16 * Pow2(8) && Pow2(16) == 16 * Pow2(12);
    assert Pow2(20) == 16 * Pow2(16) && Pow2(24) == 16 * Pow2(20);
    assert Pow2(28) == 16 * Pow2(24) && Pow2(32) == 16 * Pow2(28);
  }

  /** Every string, the empty one included, hashes to a bucket of a table of `2 ^ lg` headers. */
  lemma StringBucketInRange(crc: Crc, key: Bytes, lg: nat)
    requires Is32Bit(crc) && lg <= HASH_BITS
    ensures Bucket(StringHash(crc, key), HASH_BITS - lg) < Pow2(lg)
  {
    Bits32();
    if key != [] { FoldRange(crc, U64_MAX, Words(key)); }
    BucketInRange(StringHash(crc, key), HASH_BITS, lg);
  }

  /** The plain byte hash of the empty string would be out of range, whatever the checksum. */
  lemma EmptyKeyNeedsItsOwnHash(crc: Crc)
    ensures HashOf(crc, []) >= HASH_RANGE > StringHash(crc, [])
  {
  }

  // ---------------------------------------------------------------- the key test

  const STRING_EARLY_SIZE := 4

  datatype StringRawEntry = StringRawEntry(row: RowPtr, length: nat, early: Bytes, key: Bytes)

  function Min(a: nat, b: nat): nat { if a < b then a else b }

  /** What the build writes: the length, and the first bytes of the key in `early`, whose
      remaining bytes are arbitrary. */
  predicate WellBuilt(e: StringRawEntry) {
    && e.length == |e.key|
    && |e.early| == STRING_EARLY_SIZE
    && e.early[..Min(4, |e.key|)] == e.key[..Min(4, |e.key|)]
  }

  /** The test of `next_probe`. */
  predicate StringHit(e: StringRawEntry, key: Bytes)
    requires WellBuilt(e)
  {
    var minLen := Min(STRING_EARLY_SIZE, |key|);
    e.length == |key| && key[..minLen] == e.early[..minLen] && key == e.key[..e.length]
  }

  /** The test of `next_contains` and `next_matched_ptr`. */
  predicate StringHitShort(e: StringRawEntry, key: Bytes)
    requires WellBuilt(e)
  {
    var minLen := Min(STRING_EARLY_SIZE, Min(|key|, e.length));
    e.length == |key| && key[..minLen] == e.early[..minLen] && key == e.key[..e.length]
  }

  type Entries = map<Addr, StringRawEntry>

  ghost predicate AllWellBuilt(entries: Entries) {
    forall a :: a in entries ==> WellBuilt(entries[a])
  }

  /** Full comparison of the key. */
  function Equal(entries: Entries, key: Bytes): Addr -> bool {
    a => a in entries && entries[a].key == key
  }

  function RowAt(entries: Entries): Addr -> RowPtr {
    a => if a in entries then entries[a].row else RowPtr(0, 0)
  }

  lemma StringHitIsEquality(e: StringRawEntry, key: Bytes)
    requires WellBuilt(e)
    ensures StringHit(e, key) <==> e.key == key
    ensures StringHitShort(e, key) <==> e.key == key
  {
    assert e.key[..e.length] == e.key;
  }

  function Early(entries: Entries, key: Bytes): Addr -> bool {
    a => a in entries && WellBuilt(entries[a]) && StringHit(entries[a], key)
  }

  function EarlyShort(entries: Entries, key: Bytes): Addr -> bool {
    a => a in entries && WellBuilt(entries[a]) && StringHitShort(entries[a], key)
  }

  lemma SameTests(entries: Entries, key: Bytes, a: Addr)
    requires AllWellBuilt(entries)
    ensures Early(entries, key)(a) == Equal(entries, key)(a) && EarlyShort(entries, key)(a) == Equal(entries, key)(a)
  {
    if a in entries { StringHitIsEquality(entries[a], key); }
  }

  lemma {:induction false} SameMatches(c: seq<Addr>, f: Addr -> bool, g: Addr -> bool, row: Addr -> RowPtr)
    requires forall a :: a in c ==> f(a) == g(a)
    ensures MatchedRows(c, f, row) == MatchedRows(c, g, row) && Hits(c, f) == Hits(c, g)
    decreases |c|
  {
    if c != [] {
      assert c[0] in c;
      SameMatches(c[1..], f, g, row);
    }
  }

  lemma EarlyMatches(entries: Entries, key: Bytes, c: seq<Addr>)
    requires AllWellBuilt(entries)
    ensures MatchedRows(c, Early(entries, key), RowAt(entries)) == MatchedRows(c, Equal(entries, key), RowAt(entries))
    ensures Hits(c, EarlyShort(entries, key)) == Hits(c, Equal(entries, key))
  {
    forall a | a in c ensures Early(entries, key)(a) == Equal(entries, key)(a) && EarlyShort(entries, key)(a) == Equal(entries, key)(a) {
      SameTests(entries, key, a);
    }
    SameMatches(c, Early(entries, key), Equal(entries, key), RowAt(entries));
    SameMatches(c, EarlyShort(entries, key), Equal(entries, key), RowAt(entries));
  }

  // ---------------------------------------------------------------- probing

  /** One page of the string `next_probe`: what full comparison of the keys would copy. */
  method StringNextProbe(next: map<Addr, Addr>, entries: Entries, key: Bytes, start: Addr,
                         out: array<RowPtr>, occupied: nat, capacity: nat, ghost chain: seq<Addr>)
    returns (n: nat, ptr: Addr, ghost rest: seq<Addr>)
    requires IsChain(next, start, chain) && occupied < capacity <= out.Length && AllWellBuilt(entries)
    modifies out
    ensures IsChain(next, ptr, rest) && |rest| <= |chain| && occupied + n <= capacity
    ensures out[occupied..occupied + n] + MatchedRows(rest, Equal(entries, key), RowAt(entries)) ==
      MatchedRows(chain, Equal(entries, key), RowAt(entries))
    ensures ptr != NULL ==> occupied + n == capacity && |rest| < |chain|
    ensures forall i :: 0 <= i < out.Length && !(occupied <= i < occupied + n) ==> out[i] == old(out[i])
  {
    n, ptr, rest := NextProbe(next, Early(entries, key), RowAt(entries), start, out, occupied, capacity, chain);
    EarlyMatches(entries, key, chain);
    EarlyMatches(entries, key, rest);
  }

  /** Page after page: the same as probing with full comparison of the keys. */
  method StringPages(next: map<Addr, Addr>, entries: Entries, key: Bytes, start: Addr, pageSize: nat, ghost chain: seq<Addr>)
    returns (all: seq<RowPtr>)
    requires IsChain(next, start, chain) && pageSize > 0 && AllWellBuilt(entries)
    ensures all == MatchedRows(chain, Equal(entries, key), RowAt(entries))
  {
    all := ProbeAllPages(next, Early(entries, key), RowAt(entries), start, pageSize, chain);
    EarlyMatches(entries, key, chain);
  }

  /** The string `next_matched_ptr`; `next_contains` asks whether it is null. */
  method StringMatchedPtr(next: map<Addr, Addr>, entries: Entries, key: Bytes, start: Addr, ghost chain: seq<Addr>)
    returns (ptr: Addr)
    requires IsChain(next, start, chain) && AllWellBuilt(entries)
    ensures ptr == Front(Hits(chain, Equal(entries, key)))
  {
    ptr := NextMatchedPtr(next, EarlyShort(entries, key), start, chain);
    EarlyMatches(entries, key, chain);
  }

  // ---------------------------------------------------------------- build and probe together

  ghost function Plain(entries: Entries): map<Addr, RawEntry<Bytes>> {
    map a | a in entries :: RawEntry(entries[a].row, entries[a].key)
  }

  lemma PlainRows(entries: Entries, hits: seq<Addr>)
    ensures Rows(hits, RowAt(entries)) == Rows(hits, RowOf(Plain(entries)))
  {
  }

  lemma StringJobsValid(entries: Entries, crc: Crc, lg: nat)
    requires Is32Bit(crc) && lg <= HASH_BITS && forall a :: a in entries ==> IsPointer(a)
    ensures ValidJobs(JobsOf(Plain(entries), StringHasher(crc), HASH_BITS - lg), Pow2(lg))
  {
    forall a | a in entries ensures Bucket(StringHash(crc, entries[a].key), HASH_BITS - lg) < Pow2(lg) {
      StringBucketInRange(crc, entries[a].key, lg);
    }
  }

  /** What a finished build says about one key: the chain of its bucket has the entries with the key,
      each once, and if there are any the header lets the key through. */
  ghost predicate Exact(entries: Entries, st: State, header: Word, hash: Word, key: Bytes, chain: seq<Addr>) {
    var hits := Hits(chain, KeyHit(Plain(entries), key));
    && IsChain(st.next, RemoveHeaderTag(header), chain)
    && NoRepeats(hits) && (forall a :: a in hits <==> a in Plain(entries) && Plain(entries)[a].key == key)
    && (hits != [] ==> header != NULL && EarlyFiltering(header, hash))
  }

  lemma PlainJoinIsExact(entries: Entries, hash: Bytes -> Word, shift: nat, capacity: nat, run: seq<State>, key: Bytes)
    returns (chain: seq<Addr>)
    requires ValidJobs(JobsOf(Plain(entries), hash, shift), capacity) && Bucket(hash(key), shift) < capacity
    requires IsRun(JobsOf(Plain(entries), hash, shift), capacity, run)
    requires forall a :: a in entries ==> a in run[|run| - 1].phase && run[|run| - 1].phase[a] == Done
    ensures var st, b := run[|run| - 1], Bucket(hash(key), shift);
      b < |st.headers| && Exact(entries, st, st.headers[b], hash(key), key, chain)
  {
    chain := JoinIsExact(Plain(entries), hash, shift, capacity, run, key);
  }

  method ProbeString(entries: Entries, st: State, header: Word, hash: Word, key: Bytes, pageSize: nat, ghost chain: seq<Addr>)
    returns (rows: seq<RowPtr>)
    requires AllWellBuilt(entries) && pageSize > 0 && Exact(entries, st, header, hash, key, chain)
    ensures RowsOfKey(Plain(entries), key, rows)
  {
    if header == NULL || !EarlyFiltering(header, hash) {
      rows := [];
    } else {
      rows := StringPages(st.next, entries, key, RemoveHeaderTag(header), pageSize, chain);
    }
    ExactRows(entries, key, chain, rows);
  }

  method ProbeTable(entries: Entries, crc: Crc, shift: nat, st: State, s: Slice, pageSize: nat, ghost capacity: nat, ghost run: seq<State>)
    returns (rows: seq<RowPtr>)
    requires AllWellBuilt(entries) && pageSize > 0
    requires ValidJobs(JobsOf(Plain(entries), StringHasher(crc), shift), capacity)
    requires Bucket(StringHasher(crc)(Text(s)), shift) < capacity
    requires IsRun(JobsOf(Plain(entries), StringHasher(crc), shift), capacity, run)
    requires st == run[|run| - 1] && forall a :: a in entries ==> a in st.phase && st.phase[a] == Done
    ensures RowsOfKey(Plain(entries), Text(s), rows)
  {
    var hash := HashString(crc, s);
    ghost var chain := PlainJoinIsExact(entries, StringHasher(crc), shift, capacity, run, Text(s));
    rows := ProbeString(entries, st, st.headers[Bucket(hash, shift)], hash, Text(s), pageSize, chain);
  }

  /** Joining one probe string against a finished concurrent build: early filter, then pages with the
      prefix check, return exactly the rows of the entries with that string. */
  method StringJoinRow(entries: Entries, crc: Crc, lg: nat, st: State, s: Slice, pageSize: nat, ghost run: seq<State>)
    returns (rows: seq<RowPtr>)
    requires Is32Bit(crc) && lg <= HASH_BITS && AllWellBuilt(entries) && pageSize > 0 && forall a :: a in entries ==> IsPointer(a)
    requires IsRun(JobsOf(Plain(entries), StringHasher(crc), HASH_BITS - lg), Pow2(lg), run)
    requires st == run[|run| - 1] && forall a :: a in entries ==> a in st.phase && st.phase[a] == Done
    ensures RowsOfKey(Plain(entries), Text(s), rows)
  {
    StringJobsValid(entries, crc, lg);
    StringBucketInRange(crc, Text(s), lg);
    rows := ProbeTable(entries, crc, HASH_BITS - lg, st, s, pageSize, Pow2(lg), run);
  }

  lemma ExactRows(entries: Entries, key: Bytes, chain: seq<Addr>, rows: seq<RowPtr>)
    requires var hits := Hits(chain, KeyHit(Plain(entries), key));
      && NoRepeats(hits) && (forall a :: a in hits <==> a in Plain(entries) && Plain(entries)[a].key == key)
      && (rows == MatchedRows(chain, Equal(entries, key), RowAt(entries)) || (hits == [] && rows == []))
    ensures RowsOfKey(Plain(entries), key, rows)
  {
    var hits := Hits(chain, KeyHit(Plain(entries), key));
    SameMatches(chain, Equal(entries, key), KeyHit(Plain(entries), key), RowAt(entries));
    MatchedRowsAreHits(chain, Equal(entries, key), RowAt(entries));
    PlainRows(entries, hits);
  }
}
