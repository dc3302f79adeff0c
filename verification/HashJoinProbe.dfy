/** Probing a finished hash-join table: early filtering, chain walks and paged probes
    (hashjoin_hashtable.rs, hashjoin_string_hashtable.rs). */
module HashJoinProbe {
  import opened Bits
  import opened HashJoinHeader
  import opened HashJoinBuild

  datatype RowPtr = RowPtr(chunkIndex: nat, rowIndex: nat)

  // ---------------------------------------------------------------- buckets

  /** `hash >> hash_shift`. */
  function Bucket(hash: Word, shift: nat): nat {
    ShiftRight(hash, shift)
  }

  /** With `hash_shift = hash_bits - log2(capacity)` every hash has a bucket. */
  lemma BucketInRange(hash: Word, hashBits: nat, lg: nat)
    requires lg <= hashBits && hash < Pow2(hashBits)
    ensures Bucket(hash, hashBits - lg) < Pow2(lg)
  {
    ShiftBound(hash, hashBits, hashBits - lg);
  }

  // ---------------------------------------------------------------- chain walks

  /** The addresses of the chain whose entry satisfies the key test, in chain order. */
  function Hits(c: seq<Addr>, hit: Addr -> bool): seq<Addr> {
    if c == [] then [] else (if hit(c[0]) then [c[0]] else []) + Hits(c[1..], hit)
  }

  function Rows(c: seq<Addr>, row: Addr -> RowPtr): seq<RowPtr> {
    seq(|c|, i requires 0 <= i < |c| => row(c[i]))
  }

  /** The row pointers of the matching entries, in chain order. */
  function MatchedRows(c: seq<Addr>, hit: Addr -> bool, row: Addr -> RowPtr): seq<RowPtr> {
    if c == [] then [] else (if hit(c[0]) then [row(c[0])] else []) + MatchedRows(c[1..], hit, row)
  }

  lemma {:induction false} MatchedRowsAreHits(c: seq<Addr>, hit: Addr -> bool, row: Addr -> RowPtr)
    ensures MatchedRows(c, hit, row) == Rows(Hits(c, hit), row)
  {
    if c != [] {
      MatchedRowsAreHits(c[1..], hit, row);
    }
  }

  lemma {:induction false} HitsExact(c: seq<Addr>, hit: Addr -> bool)
    ensures forall a :: a in Hits(c, hit) <==> a in c && hit(a)
    ensures NoRepeats(c) ==> NoRepeats(Hits(c, hit))
  {
    if c != [] {
      HitsExact(c[1..], hit);
      assert c == [c[0]] + c[1..];
      assert NoRepeats(c) ==> NoRepeats(c[1..]) && c[0] !in c[1..];
    }
  }

  /** The rows found, once the head of `rest` has been looked at. */
  ghost function Taken(got: seq<RowPtr>, hit: Addr -> bool, row: Addr -> RowPtr, rest: seq<Addr>): (r: seq<RowPtr>)
    requires rest != []
    ensures r + MatchedRows(rest[1..], hit, row) == got + MatchedRows(rest, hit, row)
    ensures hit(rest[0]) ==> r == got + [row(rest[0])]
    ensures !hit(rest[0]) ==> r == got
  {
    if hit(rest[0]) then
      assert got + ([row(rest[0])] + MatchedRows(rest[1..], hit, row)) == got + [row(rest[0])] + MatchedRows(rest[1..], hit, row);
      got + [row(rest[0])]
    else
      assert [] + MatchedRows(rest[1..], hit, row) == MatchedRows(rest[1..], hit, row);
      got
  }

  /** The loop of `next_probe`. */
  method ProbeLoop(next: map<Addr, Addr>, hit: Addr -> bool, row: Addr -> RowPtr, start: Addr,
                   out: array<RowPtr>, occupied: nat, capacity: nat, ghost chain: seq<Addr>)
    returns (occ: nat, ptr: Addr, ghost rest: seq<Addr>, ghost got: seq<RowPtr>)
    requires IsChain(next, start, chain) && occupied <= out.Length && capacity <= out.Length
    modifies out
    ensures occupied <= occ <= out.Length && (occ > occupied ==> occ <= capacity && |rest| < |chain|)
    ensures ptr == NULL || occ >= capacity
    ensures IsChain(next, ptr, rest) && |rest| <= |chain|
    ensures got + MatchedRows(rest, hit, row) == MatchedRows(chain, hit, row)
    ensures |got| == occ - occupied && forall i :: 0 <= i < |got| ==> out[occupied + i] == got[i]
    ensures forall i :: 0 <= i < out.Length && !(occupied <= i < occ) ==> out[i] == old(out[i])
  {
    occ, ptr, rest, got := occupied, start, chain, [];
    while ptr != NULL && occ < capacity
      invariant occupied <= occ <= out.Length && (occ > occupied ==> occ <= capacity && |rest| < |chain|)
      invariant IsChain(next, ptr, rest) && |rest| <= |chain|
      invariant got + MatchedRows(rest, hit, row) == MatchedRows(chain, hit, row)
      invariant |got| == occ - occupied && forall i :: 0 <= i < |got| ==> out[occupied + i] == got[i]
      invariant forall i :: 0 <= i < out.Length && !(occupied <= i < occ) ==> out[i] == old(out[i])
      decreases |rest|
    {
      if hit(ptr) {
        out[occ] := row(ptr);
        occ := occ + 1;
      }
      got := Taken(got, hit, row, rest);
      ptr := next[ptr];
      rest := rest[1..];
    }
  }

  /** `next_probe`: copy the row pointers of matching entries into `out[occupied..capacity]`, and
      say where to resume.  `chain` is what `start` leads to, `rest` what the result leads to. */
  method NextProbe(next: map<Addr, Addr>, hit: Addr -> bool, row: Addr -> RowPtr, start: Addr,
                   out: array<RowPtr>, occupied: nat, capacity: nat, ghost chain: seq<Addr>)
    returns (n: nat, ptr: Addr, ghost rest: seq<Addr>)
    requires IsChain(next, start, chain) && occupied <= out.Length && capacity <= out.Length
    modifies out
    ensures occupied >= capacity ==> n == 0 && ptr == NULL
    ensures occupied < capacity ==>
      && IsChain(next, ptr, rest) && |rest| <= |chain|
      && occupied + n <= capacity
      && out[occupied..occupied + n] + MatchedRows(rest, hit, row) == MatchedRows(chain, hit, row)
      && (ptr != NULL ==> occupied + n == capacity && |rest| < |chain|)
    ensures forall i :: 0 <= i < out.Length && !(occupied <= i < occupied + n) ==> out[i] == old(out[i])
  {
    var occ;
    ghost var got;
    occ, ptr, rest, got := ProbeLoop(next, hit, row, start, out, occupied, capacity, chain);
    assert out[occupied..occ] == got;
    if occ > occupied {
      n := occ - occupied;
    } else {
      n, ptr := 0, NULL;
    }
  }

  /** Resuming page after page until the returned pointer is null yields every match once, in chain
      order, whatever the page size. */
  method ProbeAllPages(next: map<Addr, Addr>, hit: Addr -> bool, row: Addr -> RowPtr, start: Addr,
                       pageSize: nat, ghost chain: seq<Addr>)
    returns (all: seq<RowPtr>)
    requires IsChain(next, start, chain) && pageSize > 0
    ensures all == MatchedRows(chain, hit, row)
  {
    var page := new RowPtr[pageSize](_ => RowPtr(0, 0));
    var ptr := start;
    ghost var rest := chain;
    all := [];
    while ptr != NULL
      invariant IsChain(next, ptr, rest)
      invariant all + MatchedRows(rest, hit, row) == MatchedRows(chain, hit, row)
      decreases |rest|
    {
      var n;
      n, ptr, rest := NextProbe(next, hit, row, ptr, page, 0, pageSize, rest);
      all := all + page[..n];
    }
  }

  /** `next_contains`. */
  method NextContains(next: map<Addr, Addr>, hit: Addr -> bool, start: Addr, ghost chain: seq<Addr>) returns (found: bool)
    requires IsChain(next, start, chain)
    ensures found <==> exists a :: a in chain && hit(a)
  {
    var ptr := start;
    ghost var rest := chain;
    while ptr != NULL
      invariant IsChain(next, ptr, rest)
      invariant (exists a :: a in rest && hit(a)) <==> (exists a :: a in chain && hit(a))
      decreases |rest|
    {
      assert rest == [ptr] + rest[1..];
      if hit(ptr) {
        return true;
      }
      ptr, rest := next[ptr], rest[1..];
    }
    return false;
  }

  /** `next_matched_ptr`: the first match, or null. */
  method NextMatchedPtr(next: map<Addr, Addr>, hit: Addr -> bool, start: Addr, ghost chain: seq<Addr>) returns (ptr: Addr)
    requires IsChain(next, start, chain)
    ensures ptr == Front(Hits(chain, hit))
  {
    ptr := start;
    ghost var rest := chain;
    while ptr != NULL
      invariant IsChain(next, ptr, rest)
      invariant Hits(rest, hit) == Hits(chain, hit)
      decreases |rest|
    {
      if hit(ptr) {
        return;
      }
      ptr, rest := next[ptr], rest[1..];
    }
  }

  // ---------------------------------------------------------------- batch probes

  /** One slot of the array that `probe` converts in place from hashes to pointers. */
  datatype Cell = Hash(hash: Word) | Ptr(ptr: Addr)

  datatype Bitmap = AllValid | Bits(valid: seq<bool>)

  predicate Valid(bitmap: Bitmap, i: nat) {
    bitmap.AllValid? || (i < |bitmap.valid| && bitmap.valid[i])
  }

  /** The cells hold hashes that fall into the table. */
  ghost predicate Hashes(cells: seq<Cell>, headers: seq<Word>, shift: nat) {
    forall i :: 0 <= i < |cells| ==> cells[i].Hash? && Bucket(cells[i].hash, shift) < |headers|
  }

  /** The bucket header of a cell. */
  function HeaderOf(cell: Cell, headers: seq<Word>, shift: nat): Word {
    if cell.Hash? && Bucket(cell.hash, shift) < |headers| then headers[Bucket(cell.hash, shift)] else NULL
  }

  predicate RowPasses(cell: Cell, header: Word, valid: bool) {
    valid && header != NULL && cell.Hash? && EarlyFiltering(header, cell.hash)
  }

  /** For each row: does it pass the early filter? */
  ghost function Flags(cells: seq<Cell>, headers: seq<Word>, shift: nat, bitmap: Bitmap): seq<bool> {
    seq(|cells|, i requires 0 <= i < |cells| => RowPasses(cells[i], HeaderOf(cells[i], headers, shift), Valid(bitmap, i)))
  }

  /** The indexes below `n` whose flag is `want`, in increasing order. */
  function Pick(flags: seq<bool>, n: nat, want: bool): seq<nat>
    requires n <= |flags|
  {
    if n == 0 then [] else Pick(flags, n - 1, want) + (if flags[n - 1] == want then [n - 1] else [])
  }

  lemma {:induction false} PickExact(flags: seq<bool>, n: nat, want: bool)
    requires n <= |flags|
    ensures var s := Pick(flags, n, want);
      && (forall i, j :: 0 <= i < j < |s| ==> s[i] < s[j])
      && (forall i {:trigger s[i]} :: 0 <= i < |s| ==> s[i] < n && flags[s[i]] == want)
      && (forall k :: 0 <= k < n && flags[k] == want ==> k in s)
  {
    if n > 0 {
      PickExact(flags, n - 1, want);
      var s, t := Pick(flags, n - 1, want), Pick(flags, n, want);
      assert t == s + (if flags[n - 1] == want then [n - 1] else []);
      forall i | 0 <= i < |t| ensures t[i] < n && flags[t[i]] == want {
        if i < |s| {
          assert t[i] == s[i];
          assert s[i] < n - 1;
        }
      }
    }
  }

  lemma {:induction false} PickSizes(flags: seq<bool>, n: nat)
    requires n <= |flags|
    ensures |Pick(flags, n, true)| + |Pick(flags, n, false)| == n
  {
    if n > 0 { PickSizes(flags, n - 1); }
  }

  lemma {:induction false} PickNone(flags: seq<bool>, n: nat)
    requires n <= |flags| && forall i :: 0 <= i < n ==> !flags[i]
    ensures Pick(flags, n, true) == [] && Pick(flags, n, false) == seq(n, i => i)
  {
    if n > 0 { PickNone(flags, n - 1); }
  }

  /** What becomes of a cell: the chain pointer when the row passes, else unchanged. */
  function Convert(cell: Cell, header: Word, passes: bool): Cell {
    if passes then Ptr(RemoveHeaderTag(header)) else cell
  }

  predicate AllNull(bitmap: Bitmap) {
    bitmap.Bits? && forall i :: 0 <= i < |bitmap.valid| ==> !bitmap.valid[i]
  }

  /** `early_filtering_probe`: splits the row indexes into matched and unmatched ones. */
  method EarlyFilteringProbe(headers: seq<Word>, shift: nat, cells: array<Cell>, bitmap: Bitmap,
                             matched: array<nat>, unmatched: array<nat>)
    returns (m: nat, u: nat)
    requires Hashes(cells[..], headers, shift)
    requires bitmap.Bits? ==> |bitmap.valid| == cells.Length
    requires matched != unmatched && cells.Length <= matched.Length && cells.Length <= unmatched.Length
    modifies cells, matched, unmatched
    ensures m + u == cells.Length
    ensures var flags := Flags(old(cells[..]), headers, shift, bitmap);
      && matched[..m] == Pick(flags, cells.Length, true)
      && unmatched[..u] == Pick(flags, cells.Length, false)
      && forall i :: 0 <= i < cells.Length ==> cells[i] == Convert(old(cells[i]), HeaderOf(old(cells[i]), headers, shift), flags[i])
  {
    if AllNull(bitmap) {
      ghost var flags := Flags(cells[..], headers, shift, bitmap);
      forall i | 0 <= i < unmatched.Length {
        unmatched[i] := i;
      }
      PickNone(flags, cells.Length);
      m, u := 0, cells.Length;
      assert unmatched[..u] == seq(u, i => i);
      return;
    }
    m, u := FilterRows(headers, shift, cells, bitmap, matched, unmatched);
  }

  /** One row of the probe. */
  method FilterRow(cells: array<Cell>, i: nat, header: Word, valid: bool,
                   matched: array<nat>, m: nat, unmatched: array<nat>, u: nat)
    returns (m': nat, u': nat)
    requires i < cells.Length && cells[i].Hash?
    requires matched != unmatched && m < matched.Length && u < unmatched.Length
    modifies cells, matched, unmatched
    ensures var p := RowPasses(old(cells[i]), header, valid);
      && (m', u') == (if p then (m + 1, u) else (m, u + 1))
      && cells[i] == Convert(old(cells[i]), header, p)
      && matched[..m'] == old(matched[..m]) + (if p then [i] else [])
      && unmatched[..u'] == old(unmatched[..u]) + (if p then [] else [i])
    ensures forall k :: 0 <= k < cells.Length && k != i ==> cells[k] == old(cells[k])
  {
    if valid && header != NULL && EarlyFiltering(header, cells[i].hash) {
      cells[i] := Ptr(RemoveHeaderTag(header));
      matched[m] := i;
      return m + 1, u;
    }
    unmatched[u] := i;
    return m, u + 1;
  }

  method FilterRows(headers: seq<Word>, shift: nat, cells: array<Cell>, bitmap: Bitmap,
                    matched: array<nat>, unmatched: array<nat>)
    returns (m: nat, u: nat)
    requires Hashes(cells[..], headers, shift)
    requires matched != unmatched && cells.Length <= matched.Length && cells.Length <= unmatched.Length
    modifies cells, matched, unmatched
    ensures m + u == cells.Length
    ensures var flags := Flags(old(cells[..]), headers, shift, bitmap);
      && matched[..m] == Pick(flags, cells.Length, true)
      && unmatched[..u] == Pick(flags, cells.Length, false)
      && forall i :: 0 <= i < cells.Length ==> cells[i] == Convert(old(cells[i]), HeaderOf(old(cells[i]), headers, shift), flags[i])
  {
    ghost var before, flags := cells[..], Flags(cells[..], headers, shift, bitmap);
    m, u := 0, 0;
    for i := 0 to cells.Length
      invariant forall k :: i <= k < cells.Length ==> cells[k] == before[k]
      invariant forall k :: 0 <= k < i ==> cells[k] == Convert(before[k], HeaderOf(before[k], headers, shift), flags[k])
      invariant m + u == i
      invariant matched[..m] == Pick(flags, i, true) && unmatched[..u] == Pick(flags, i, false)
    {
      var header := headers[Bucket(cells[i].hash, shift)];
      m, u := FilterRow(cells, i, header, Valid(bitmap, i), matched, m, unmatched, u);
    }
  }

  // ---------------------------------------------------------------- build and probe together

  datatype RawEntry<K> = RawEntry(row: RowPtr, key: K)

  /** The insert calls that build a table over `entries`. */
  ghost function JobsOf<K>(entries: map<Addr, RawEntry<K>>, hash: K -> Word, shift: nat): Jobs {
    map a | a in entries :: Job(Bucket(hash(entries[a].key), shift), hash(entries[a].key))
  }

  function KeyHit<K(==)>(entries: map<Addr, RawEntry<K>>, key: K): Addr -> bool {
    a => a in entries && entries[a].key == key
  }

  /** For every finished concurrent build and every probe key: the early filter lets the key through
      whenever it was built, and the chain it leads to holds exactly the entries with that key,
      each once, after the key test. */
  lemma JoinIsExact<K(!new)>(entries: map<Addr, RawEntry<K>>, hash: K -> Word, shift: nat, capacity: nat,
                             run: seq<State>, key: K)
    returns (chain: seq<Addr>)
    requires ValidJobs(JobsOf(entries, hash, shift), capacity) && IsRun(JobsOf(entries, hash, shift), capacity, run)
    requires forall a :: a in entries ==> a in run[|run| - 1].phase && run[|run| - 1].phase[a] == Done
    requires Bucket(hash(key), shift) < capacity
    ensures var st := run[|run| - 1];
      && |st.headers| == capacity
      && var header := st.headers[Bucket(hash(key), shift)];
      && var hits := Hits(chain, KeyHit(entries, key));
      && IsChain(st.next, RemoveHeaderTag(header), chain)
      && NoRepeats(hits)
      && (forall a :: a in hits <==> a in entries && entries[a].key == key)
      && (hits != [] ==> header != NULL && EarlyFiltering(header, hash(key)))
  {
    var chains := BuildIsComplete(JobsOf(entries, hash, shift), capacity, run);
    var b := Bucket(hash(key), shift);
    chain := chains[b];
    ProbeBucket(entries, hash, shift, run[|run| - 1], b, chain, key);
  }

  lemma ProbeBucket<K(!new)>(entries: map<Addr, RawEntry<K>>, hash: K -> Word, shift: nat, st: State, b: nat, chain: seq<Addr>, key: K)
    requires b == Bucket(hash(key), shift) < |st.headers| && Built(JobsOf(entries, hash, shift), st, b, chain)
    ensures var hits := Hits(chain, KeyHit(entries, key));
      && NoRepeats(hits)
      && (forall a :: a in hits <==> a in entries && entries[a].key == key)
      && (hits != [] ==> st.headers[b] != NULL && EarlyFiltering(st.headers[b], hash(key)))
  {
    var hit := KeyHit(entries, key);
    HitsExact(chain, hit);
    var hits, jobs := Hits(chain, hit), JobsOf(entries, hash, shift);
    if hits != [] {
      assert hits[0] in hits;
      assert SameTag(jobs[hits[0]].hash, hash(key));
    }
  }

  /** Early filtering has no false negatives: a valid probe row whose key was built is matched. */
  lemma BuiltRowIsMatched<K(!new)>(entries: map<Addr, RawEntry<K>>, hash: K -> Word, shift: nat, capacity: nat, run: seq<State>,
                                   cells: seq<Cell>, bitmap: Bitmap, i: nat, a: Addr)
    requires ValidJobs(JobsOf(entries, hash, shift), capacity) && IsRun(JobsOf(entries, hash, shift), capacity, run)
    requires forall b :: b in entries ==> b in run[|run| - 1].phase && run[|run| - 1].phase[b] == Done
    requires a in entries && i < |cells| && cells[i] == Hash(hash(entries[a].key)) && Valid(bitmap, i)
    ensures i in Pick(Flags(cells, run[|run| - 1].headers, shift, bitmap), |cells|, true)
  {
    var key, st := entries[a].key, run[|run| - 1];
    assert JobsOf(entries, hash, shift)[a].bucket == Bucket(hash(key), shift);
    var chain := JoinIsExact(entries, hash, shift, capacity, run, key);
    assert a in Hits(chain, KeyHit(entries, key));
    var flags := Flags(cells, st.headers, shift, bitmap);
    assert flags[i];
    PickExact(flags, |cells|, true);
  }

  function RowOf<K>(entries: map<Addr, RawEntry<K>>): Addr -> RowPtr {
    a => if a in entries then entries[a].row else RowPtr(0, 0)
  }

  /** The row pointers of the entries with the key, each entry once. */
  ghost predicate RowsOfKey<K>(entries: map<Addr, RawEntry<K>>, key: K, rows: seq<RowPtr>) {
    exists hits :: NoRepeats(hits) && rows == Rows(hits, RowOf(entries)) && forall a :: a in hits <==> a in entries && entries[a].key == key
  }

  /** Joining one probe row against a finished build: early filtering, then page after page. */
  method JoinRow<K(==,!new)>(entries: map<Addr, RawEntry<K>>, hash: K -> Word, shift: nat, st: State, key: K, pageSize: nat,
                             ghost capacity: nat, ghost run: seq<State>)
    returns (rows: seq<RowPtr>)
    requires ValidJobs(JobsOf(entries, hash, shift), capacity) && IsRun(JobsOf(entries, hash, shift), capacity, run)
    requires st == run[|run| - 1] && (forall a :: a in entries ==> a in st.phase && st.phase[a] == Done)
    requires Bucket(hash(key), shift) < capacity && pageSize > 0
    ensures RowsOfKey(entries, key, rows)
  {
    ghost var chain := JoinIsExact(entries, hash, shift, capacity, run, key);
    var hit, row := KeyHit(entries, key), RowOf(entries);
    ghost var hits := Hits(chain, hit);
    MatchedRowsAreHits(chain, hit, row);
    var header := st.headers[Bucket(hash(key), shift)];
    if header == NULL || !EarlyFiltering(header, hash(key)) {
      rows := [];
      assert hits == [] && rows == Rows(hits, RowOf(entries));
      return;
    }
    rows := ProbeAllPages(st.next, hit, row, RemoveHeaderTag(header), pageSize, chain);
  }
}
