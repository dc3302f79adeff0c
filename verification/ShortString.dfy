/** The short-string hash table (short_string_hashtable.rs): one slot for the empty string,
    three tables of packed words for 1 to 24 bytes, and a fallback table for the rest. */
module ShortString {
  import opened MapRuns
  import opened Options
  import opened PackedKeys
  import opened Routing
  import opened Sequences
  import opened Table0

  /** Which of the five tables holds a key; a trailing zero byte always goes to the fallback. */
  function RouteOf(key: Bytes): (r: nat)
    ensures r < 5 && (1 <= r <= 3 <==> Inline(key)) && (r == 0 <==> key == [])
  {
    if key != [] && key[|key| - 1] == 0 then 4
    else if |key| == 0 then 0
    else if |key| <= 8 then 1
    else if |key| <= 16 then 2
    else if |key| <= 24 then 3
    else 4
  }

  /** The keys of the inner tables: `InlineKey`, or `FallbackKey` with its bytes and their hash. */
  datatype TableKey = Packed(words: seq<nat>) | Fallback(key: Option<Bytes>, hash: nat)

  function KeyableOf(crc: Crc): Keyable<TableKey> {
    Keyable(
      (k: TableKey) => if k.Packed? then Fold(crc, U64_MAX, k.words) else k.hash,
      (k: TableKey) => if k.Packed? then k.words == [] || k.words[|k.words| - 1] == 0 else k.key.None?,
      Fallback(None, 0))
  }

  function Encode(crc: Crc, key: Bytes): TableKey {
    if Inline(key) then Packed(Words(key)) else Fallback(Some(key), HashOf(crc, key))
  }

  function Decode(k: TableKey): Bytes {
    if k.Packed? then Unpack(k.words) else if k.key.Some? then k.key.value else []
  }

  ghost function CodeOf(crc: Crc): Code<TableKey> {
    Code(key => Encode(crc, key), Decode)
  }

  /** Encoding is injective: it can be undone. */
  lemma DecodeEncode(crc: Crc, key: Bytes)
    ensures Decode(Encode(crc, key)) == key
  {
    if Inline(key) { UnpackWords(key); }
  }

  lemma CodeIsFaithful(crc: Crc)
    ensures Faithful(CodeOf(crc))
  {
    forall k ensures CodeOf(crc).dec(CodeOf(crc).enc(k)) == k {
      DecodeEncode(crc, k);
    }
  }

  /** Whatever table a key goes to, its stored form hashes like its bytes and is not the empty marker. */
  lemma EncodedHash(crc: Crc, key: Bytes)
    ensures KeyableOf(crc).hash(Encode(crc, key)) == HashOf(crc, key)
    ensures !KeyableOf(crc).isZero(Encode(crc, key))
  {
    if Inline(key) { LastWordNonZero(key); }
  }

  // ---------------------------------------------------------------- one inner table

  /** An encoding of strings as table keys, with its decoding. */
  datatype Code<!W> = Code(enc: Bytes -> W, dec: W -> Bytes)

  ghost predicate Faithful<W>(c: Code<W>) {
    forall k {:trigger c.enc(k)} :: c.dec(c.enc(k)) == k
  }

  /** Table contents `t` are the entries of `m`, encoded. */
  ghost predicate Mirrors<W(!new), V>(m: map<Bytes, V>, t: map<W, V>, c: Code<W>) {
    && (forall k {:trigger c.enc(k)} :: k in m ==> c.enc(k) in t && t[c.enc(k)] == m[k])
    && (forall w {:trigger c.dec(w)} :: w in t ==> c.dec(w) in m && c.enc(c.dec(w)) == w)
  }

  lemma MirrorLookup<W(!new), V>(m: map<Bytes, V>, t: map<W, V>, c: Code<W>, key: Bytes)
    requires Faithful(c) && Mirrors(m, t, c)
    ensures key in m <==> c.enc(key) in t
    ensures key in m ==> m[key] == t[c.enc(key)]
  {
  }

  lemma MirrorInsert<W(!new), V>(m: map<Bytes, V>, t: map<W, V>, c: Code<W>, key: Bytes, v: V)
    requires Faithful(c) && Mirrors(m, t, c) && key !in m
    ensures Mirrors(m[key := v], t[c.enc(key) := v], c)
  {
  }

  lemma MirrorRemove<W(!new), V>(m: map<Bytes, V>, t: map<W, V>, c: Code<W>, key: Bytes)
    requires Faithful(c) && Mirrors(m, t, c) && key in m
    ensures Mirrors(m - {key}, t - {c.enc(key)}, c)
  {
  }

  lemma {:induction false} MirrorSize<W(!new), V>(m: map<Bytes, V>, t: map<W, V>, c: Code<W>)
    requires Faithful(c) && Mirrors(m, t, c)
    ensures |t.Keys| == |m.Keys|
    decreases |m.Keys|
  {
    if m.Keys == {} {
      assert forall w :: w in t ==> c.dec(w) in m;
      assert t.Keys == {};
    } else {
      var key :| key in m.Keys;
      assert c.enc(key) in t;
      MirrorRemove(m, t, c, key);
      assert (m - {key}).Keys == m.Keys - {key};
      assert (t - {c.enc(key)}).Keys == t.Keys - {c.enc(key)};
      MirrorSize(m - {key}, t - {c.enc(key)}, c);
    }
  }

  /** An inner table that holds, encoded, the entries of `m`. */
  ghost predicate Holds<W(!new), V>(t: Table0<W, V>, m: map<Bytes, V>, c: Code<W>)
    reads t, t.entries
  {
    && t.Valid() && 2 * t.len <= t.entries.Length
    && Faithful(c) && Mirrors(m, t.Map(), c)
  }

  lemma HeldSize<W(!new), V>(t: Table0<W, V>, m: map<Bytes, V>, c: Code<W>)
    requires Holds(t, m, c)
    ensures t.len == |m|
  {
    TableSize(t);
    MirrorSize(m, t.Map(), c);
  }

  method Fetch<W(==, !new), V>(t: Table0<W, V>, ghost m: map<Bytes, V>, ghost c: Code<W>, ghost key: Bytes, w: W, hash: nat)
    returns (r: Option<V>)
    requires Holds(t, m, c) && w == c.enc(key) && !t.kb.isZero(w) && hash == t.kb.hash(w)
    ensures r == Lookup(m, key)
  {
    MirrorLookup(m, t.Map(), c, key);
    var slot := t.Get(w, hash);
    r := if slot >= 0 then Some(t.entries[slot].val) else None;
  }

  method Store<W(==, !new), V>(t: Table0<W, V>, ghost m: map<Bytes, V>, ghost c: Code<W>, ghost key: Bytes, w: W,
                               hash: nat, v: V)
    returns (present: bool)
    requires Holds(t, m, c) && w == c.enc(key) && !t.kb.isZero(w) && hash == t.kb.hash(w)
    modifies t, t.entries
    ensures t.entries == old(t.entries) || fresh(t.entries)
    ensures present <==> key in m
    ensures Holds(t, Stored(m, key, v), c)
  {
    ghost var was := t.Map();
    MirrorLookup(m, was, c, key);
    present := t.Upsert(w, hash, v);
    if !present {
      MirrorInsert(m, was, c, key, v);
    }
  }

  // ---------------------------------------------------------------- the table

  ghost predicate Apart<W, V>(ts: seq<Table0<W, V>>)
    reads ts
  {
    forall i, j :: 0 <= i < j < |ts| ==> ts[i] != ts[j] && ts[i].entries != ts[j].entries
  }

  ghost predicate AllHold<W(!new), V>(ts: seq<Table0<W, V>>, p: Parts<Bytes, V>, c: Code<W>)
    reads ts, set t | t in ts :: t.entries
  {
    |ts| == |p| && Apart(ts) && forall i :: 0 <= i < |ts| ==> Holds(ts[i], p[i], c)
  }

  method NewTables<W(==, !new), V>(n: nat, kb: Keyable<W>, ghost c: Code<W>, blank: V, capacity: nat)
    returns (ts: seq<Table0<W, V>>, ghost repr: set<object>)
    requires kb.isZero(kb.zero) && Faithful(c)
    ensures |ts| == n && fresh(repr)
    ensures forall i :: 0 <= i < n ==> ts[i] in repr && ts[i].entries in repr && ts[i].kb == kb
    ensures AllHold(ts, Repeat(map[], n), c)
  {
    ts, repr := [], {};
    while |ts| < n
      invariant |ts| <= n && Apart(ts) && fresh(repr)
      invariant forall i :: 0 <= i < |ts| ==> ts[i] in repr && ts[i].entries in repr && ts[i].kb == kb
      invariant forall i :: 0 <= i < |ts| ==> Holds(ts[i], map[], c)
    {
      var t := new Table0(kb, blank, capacity);
      ts, repr := ts + [t], repr + {t, t.entries};
    }
  }

  /** Insertion into one inner table; the others are untouched. */
  method StoreAt<W(==, !new), V>(ts: seq<Table0<W, V>>, ghost p: Parts<Bytes, V>, ghost c: Code<W>, i: nat,
                                 ghost key: Bytes, w: W, hash: nat, v: V)
    returns (present: bool)
    requires AllHold(ts, p, c) && i < |ts|
    requires w == c.enc(key) && !ts[i].kb.isZero(w) && hash == ts[i].kb.hash(w)
    modifies ts[i], ts[i].entries
    ensures ts[i].entries == old(ts[i].entries) || fresh(ts[i].entries)
    ensures present <==> key in p[i]
    ensures AllHold(ts, StoredIn(p, i, key, v), c)
  {
    present := Store(ts[i], p[i], c, key, w, hash, v);
    assert forall j :: 0 <= j < |ts| && j != i ==> Holds(ts[j], p[j], c);
  }

  ghost function Nothing<V>(): (p: Parts<Bytes, V>)
    ensures |p| == 5 && Agrees(map[], p, RouteOf) && p[0] == map[] && p[1..] == Repeat(map[], 4)
  {
    var p: Parts<Bytes, V> := [map[]] + Repeat(map[], 4);
    assert p[1..] == Repeat(map[], 4);
    p
  }

  lemma EmptyPart<V>(p: Parts<Bytes, V>)
    requires Routed(p, RouteOf) && |p| == 5
    ensures |p[0]| == if Lookup(p[0], []).Some? then 1 else 0
  {
    assert forall k :: k in p[0] ==> RouteOf(k) == 0;
    assert p[0].Keys == if [] in p[0] then {[]} else {};
  }

  lemma PartsStored<V>(m: map<Bytes, V>, p: Parts<Bytes, V>, i: nat, key: Bytes, v: V)
    requires |p| == 5 && Agrees(m, p, RouteOf) && i == RouteOf(key) && i > 0
    ensures key in m <==> key in p[i]
    ensures var q := StoredIn(p, i, key, v);
      Agrees(Stored(m, key, v), q, RouteOf) && q[0] == p[0] && q[1..] == StoredIn(p[1..], i - 1, key, v)
  {
    AgreesStored(m, p, RouteOf, key, v);
  }

  lemma CountFive<V>(p: Parts<Bytes, V>)
    requires |p| == 5
    ensures Count(p) == |p[0]| + |p[1]| + |p[2]| + |p[3]| + |p[4]|
  {
    CountStep(p, 4);
    CountStep(p, 3);
    CountStep(p, 2);
    CountStep(p, 1);
    assert p[5..] == [];
  }

  class ShortStringHashtable<V> {
    const crc: Crc
    var empty: Option<V>
    /** The packed tables for one, two and three words, and the fallback table. */
    const tables: seq<Table0<TableKey, V>>
    /** The map from byte strings to values this table stands for, and its five parts. */
    ghost var contents: map<Bytes, V>
    ghost var parts: Parts<Bytes, V>

    ghost const code: Code<TableKey>

    /** The objects this table is made of. */
    ghost var repr: set<object>

    ghost predicate Valid()
      reads this, repr
    {
      && this in repr && (forall i :: 0 <= i < |tables| ==> tables[i] in repr && tables[i].entries in repr)
      && |parts| == 5 && |tables| == 4 && AllHold(tables, parts[1..], code) && code == CodeOf(crc)
      && (forall i :: 0 <= i < 4 ==> tables[i].kb == KeyableOf(crc))
      && empty == Lookup(parts[0], [])
      && Agrees(contents, parts, RouteOf)
    }

    constructor (crc: Crc, blank: V, capacity: nat)
      ensures Valid() && contents == map[] && this.crc == crc && fresh(repr)
    {
      CodeIsFaithful(crc);
      var fresh4, objects := NewTables(4, KeyableOf(crc), CodeOf(crc), blank, capacity);
      this.crc, code, empty, tables := crc, CodeOf(crc), None, fresh4;
      repr := objects + {this};
      new;
      Record(map[], Nothing(), Repeat(map[], 4), {});
    }

    method Len() returns (n: nat)
      requires Valid()
      ensures n == |contents|
    {
      n := (if empty.Some? then 1 else 0) + tables[0].len + tables[1].len + tables[2].len + tables[3].len;
      forall i | 0 <= i < 4 ensures tables[i].len == |parts[i + 1]| {
        HeldSize(tables[i], parts[i + 1], code);
      }
      EmptyPart(parts);
      AgreesSize(contents, parts, RouteOf);
      CountFive(parts);
    }

    /** `entry` / `get`. */
    method Get(s: Slice) returns (r: Option<V>)
      requires Valid()
      ensures r == Lookup(contents, Text(s))
    {
      ghost var key := Text(s);
      assert Lookup(contents, key) == Lookup(parts[RouteOf(key)], key);
      EncodedHash(crc, key);
      var i := RouteOf(Text(s));
      if i == 0 {
        return empty;
      }
      var hash := HashSlice(crc, s);
      var w := if i <= 3 then Packed(Pack(s)) else Fallback(Some(Text(s)), hash);
      StoredForm(crc, s);
      r := Fetch(tables[i - 1], parts[i], code, key, w, hash);
    }

    method InsertEmpty(v: V) returns (present: bool)
      requires Valid()
      modifies this
      ensures Valid() && repr == old(repr)
      ensures present <==> [] in old(contents)
      ensures contents == Stored(old(contents), [], v)
    {
      AgreesStored(contents, parts, RouteOf, [], v);
      present := empty.Some?;
      empty := if present then empty else Some(v);
      contents, parts := Stored(contents, [], v), StoredIn(parts, 0, [], v);
    }

    /** Bring the ghost state up to date after the tables have changed. */
    ghost method Record(m: map<Bytes, V>, p: Parts<Bytes, V>, held: Parts<Bytes, V>, more: set<object>)
      requires |p| == 5 && |tables| == 4 && code == CodeOf(crc) && held == p[1..] && AllHold(tables, held, code)
      requires forall k :: 0 <= k < 4 ==> tables[k].kb == KeyableOf(crc)
      requires empty == Lookup(p[0], []) && Agrees(m, p, RouteOf)
      requires this in repr && forall k :: 0 <= k < 4 ==> tables[k] in repr && tables[k].entries in repr + more
      modifies this`contents, this`parts, this`repr
      ensures Valid() && repr == old(repr) + more && contents == m
    {
      contents, parts, repr := m, p, repr + more;
    }

    method InsertEncoded(i: nat, ghost key: Bytes, w: TableKey, hash: nat, v: V) returns (present: bool)
      requires Valid() && i == RouteOf(key) && 1 <= i
      requires w == code.enc(key) && !tables[i - 1].kb.isZero(w) && hash == tables[i - 1].kb.hash(w)
      modifies this`contents, this`parts, this`repr, tables[i - 1], tables[i - 1].entries
      ensures Valid() && repr == old(repr) + {tables[i - 1].entries}
      ensures tables[i - 1].entries == old(tables[i - 1].entries) || fresh(tables[i - 1].entries)
      ensures present <==> key in old(contents)
      ensures contents == Stored(old(contents), key, v)
    {
      ghost var held := parts[1..];
      present := StoreAt(tables, held, code, i - 1, key, w, hash, v);
      PartsStored(contents, parts, i, key, v);
      Record(Stored(contents, key, v), StoredIn(parts, i, key, v), StoredIn(held, i - 1, key, v), {tables[i - 1].entries});
    }

    /** `insert_and_entry_with_hash`, with the value the caller writes into a new entry. */
    method InsertWithHash(s: Slice, hash: nat, v: V) returns (present: bool)
      requires Valid() && hash == HashOf(crc, Text(s))
      modifies repr
      ensures Valid() && fresh(repr - old(repr))
      ensures present <==> Text(s) in old(contents)
      ensures contents == Stored(old(contents), Text(s), v)
    {
      var i := RouteOf(Text(s));
      if i == 0 {
        present := InsertEmpty(v);
      } else {
        var w := if i <= 3 then Packed(Pack(s)) else Fallback(Some(Text(s)), hash);
        StoredForm(crc, s);
        EncodedHash(crc, Text(s));
        present := InsertEncoded(i, Text(s), w, hash, v);
      }
    }

    /** `insert_and_entry`. */
    method Insert(s: Slice, v: V) returns (present: bool)
      requires Valid()
      modifies repr
      ensures Valid() && fresh(repr - old(repr))
      ensures present <==> Text(s) in old(contents)
      ensures contents == Stored(old(contents), Text(s), v)
    {
      var hash := HashSlice(crc, s);
      present := InsertWithHash(s, hash, v);
    }
  }

  lemma StoredForm(crc: Crc, s: Slice)
    ensures Encode(crc, Text(s)) ==
      if Inline(Text(s)) then Packed(Pack(s)) else Fallback(Some(Text(s)), HashOf(crc, Text(s)))
  {
    if Inline(Text(s)) { PackIsWords(s); }
  }

  /** The hash each table computes for itself: packed keys word by word, the others byte by byte. */
  method HashSlice(crc: Crc, s: Slice) returns (hash: nat)
    ensures hash == HashOf(crc, Text(s))
  {
    if Inline(Text(s)) {
      PackIsWords(s);
      hash := HashPacked(crc, Pack(s));
    } else {
      hash := HashBytes(crc, s);
    }
  }

  /** `key()` on an entry: the string whose stored form it is. */
  method EntryKey(crc: Crc, k: TableKey, ghost original: Bytes) returns (key: Bytes)
    requires k == Encode(crc, original) && original != []
    ensures key == original
  {
    DecodeEncode(crc, original);
    if k.Packed? {
      LastWordNonZero(original);
      LastWordFits(original);
      key := RecoverKey(k.words);
    } else {
      key := k.key.value;
    }
  }

  /** Every stored entry stands for one entry of the map: its key, decoded, is there with its value. */
  lemma EntryStands<V>(h: ShortStringHashtable<V>, i: nat, w: TableKey)
    requires h.Valid() && i < 4 && w in h.tables[i].Map()
    ensures RouteOf(Decode(w)) == i + 1 && Encode(h.crc, Decode(w)) == w
    ensures Decode(w) in h.contents && h.contents[Decode(w)] == h.tables[i].Map()[w]
  {
    var key := h.code.dec(w);
    assert Holds(h.tables[i], h.parts[1..][i], h.code);
    assert key == Decode(w) && key in h.parts[i + 1] && h.code.enc(key) == w;
    assert RouteOf(key) == i + 1;
    assert Lookup(h.contents, key) == Lookup(h.parts[RouteOf(key)], key);
  }

  // ---------------------------------------------------------------- whole runs

  /** An operation whose key is read from memory, by the string it reads. */
  ghost function OnText<V>(op: Op<Slice, V>): Op<Bytes, V>
    requires !op.Merge?
  {
    match op
    case Insert(s, v) => Insert(Text(s), v)
    case Get(s) => Get(Text(s))
    case Len => Len
  }

  ghost function OnTexts<V>(ops: seq<Op<Slice, V>>): (r: seq<Op<Bytes, V>>)
    requires NoMerge(ops)
    ensures |r| == |ops|
  {
    seq(|ops|, i requires 0 <= i < |ops| => OnText(ops[i]))
  }

  method Step<V>(t: ShortStringHashtable<V>, op: Op<Slice, V>) returns (a: Answer<V>)
    requires t.Valid() && !op.Merge?
    modifies t.repr
    ensures t.Valid() && fresh(t.repr - old(t.repr))
    ensures a == SpecAnswer(old(t.contents), OnText(op)) && t.contents == SpecStep(old(t.contents), OnText(op))
  {
    match op
    case Insert(s, v) =>
      var b := t.Insert(s, v);
      a := WasPresent(b);
    case Get(s) =>
      var r := t.Get(s);
      a := Found(r);
    case Len =>
      var n := t.Len();
      a := Size(n);
  }

  /** Every run answers as a map keyed by byte strings, wherever in memory each key is read from. */
  method Run<V>(crc: Crc, blank: V, capacity: nat, ops: seq<Op<Slice, V>>) returns (out: seq<Answer<V>>)
    requires NoMerge(ops)
    ensures out == SpecRun(map[], OnTexts(ops))
  {
    var t := new ShortStringHashtable<V>(crc, blank, capacity);
    ghost var spec := OnTexts(ops);
    out := [];
    Start(spec);
    for i := 0 to |ops|
      invariant t.Valid() && fresh(t.repr)
      invariant Underway(spec, i, out, t.contents)
    {
      Next(spec, i, out, t.contents);
      var a := Step(t, ops[i]);
      out := out + [a];
    }
    Finished(spec, out, t.contents);
  }
}
