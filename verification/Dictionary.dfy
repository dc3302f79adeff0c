/** The dictionary table (dictionary_string_hashtable.rs): keys are tuples of byte strings, every
    string is interned once, and stored tuples are compared reference by reference. */
module Dictionary {
  import opened Hashtable
  import opened MapRuns
  import opened Options
  import opened PackedKeys
  import opened Routing
  import opened Table0

  /** A pointer to an interned string: equal when address and length are. */
  datatype Ref = Ref(addr: nat, len: nat)

  /** The strings allocated so far, by address; address 0 is the static empty string. */
  type Arena = map<nat, Bytes>

  /** A stored key: the references with the hash kept beside them, or the null key of a free slot. */
  datatype TupleKey = Null | Tuple(refs: seq<Ref>, hash: nat)

  type Names = map<Bytes, Ref>

  function TupleKeyable(): Keyable<TupleKey> {
    Keyable((k: TupleKey) => if k.Tuple? then k.hash else 0, (k: TupleKey) => k.Null?, Null)
  }

  /** The interner keeps the empty string aside and hashes the others by their bytes. */
  function NameKeyable(crc: Crc): Keyable<Bytes> {
    Keyable((s: Bytes) => HashOf(crc, s), (s: Bytes) => s == [], [])
  }

  // ---------------------------------------------------------------- interned strings

  /** Every name has one reference, and that reference leads back to the name. */
  ghost predicate Interned(names: Names, arena: Arena) {
    forall b :: b in names ==> names[b].addr in arena && arena[names[b].addr] == b && names[b].len == |b|
  }

  ghost predicate Known(names: Names, t: seq<Bytes>) {
    forall i :: 0 <= i < |t| ==> t[i] in names
  }

  ghost function Refs(names: Names, t: seq<Bytes>): (r: seq<Ref>)
    requires Known(names, t)
    ensures |r| == |t| && forall i :: 0 <= i < |t| ==> r[i] == names[t[i]]
  {
    seq(|t|, i requires 0 <= i < |t| => names[t[i]])
  }

  ghost predicate Live(arena: Arena, refs: seq<Ref>) {
    forall i :: 0 <= i < |refs| ==> refs[i].addr in arena
  }

  ghost function Deref(arena: Arena, refs: seq<Ref>): (t: seq<Bytes>)
    requires Live(arena, refs)
    ensures |t| == |refs| && forall i :: 0 <= i < |refs| ==> t[i] == arena[refs[i].addr]
  {
    seq(|refs|, i requires 0 <= i < |refs| => arena[refs[i].addr])
  }

  /** The interner only grows: names keep their references, references keep their strings. */
  ghost predicate Grown(names: Names, arena: Arena, names': Names, arena': Arena) {
    && (forall b :: b in names ==> b in names' && names'[b] == names[b])
    && (forall a :: a in arena ==> a in arena' && arena'[a] == arena[a])
  }

  lemma GrownTwice(n0: Names, a0: Arena, n1: Names, a1: Arena, n2: Names, a2: Arena)
    requires Grown(n0, a0, n1, a1) && Grown(n1, a1, n2, a2)
    ensures Grown(n0, a0, n2, a2)
  {
  }

  lemma DerefRefs(names: Names, arena: Arena, t: seq<Bytes>)
    requires Interned(names, arena) && Known(names, t)
    ensures Live(arena, Refs(names, t)) && Deref(arena, Refs(names, t)) == t
  {
  }

  /** Comparing interned tuples by reference is comparing them by contents. */
  lemma ReferencesDecide(names: Names, arena: Arena, s: seq<Bytes>, t: seq<Bytes>)
    requires Interned(names, arena) && Known(names, s) && Known(names, t)
    ensures Refs(names, s) == Refs(names, t) <==> s == t
  {
    DerefRefs(names, arena, s);
    DerefRefs(names, arena, t);
  }

  // ---------------------------------------------------------------- tuples

  type TupleHash = seq<Bytes> -> nat

  ghost function Encode(names: Names, h: TupleHash, t: seq<Bytes>): TupleKey
    requires Known(names, t)
  {
    Tuple(Refs(names, t), h(t))
  }

  ghost predicate Kept<V>(names: Names, h: TupleHash, table: map<TupleKey, V>, m: map<seq<Bytes>, V>, t: seq<Bytes>)
    requires t in m
  {
    Known(names, t) && Encode(names, h, t) in table && table[Encode(names, h, t)] == m[t]
  }

  ghost predicate Stands<V>(names: Names, arena: Arena, h: TupleHash, m: map<seq<Bytes>, V>, k: TupleKey) {
    && k.Tuple? && Live(arena, k.refs) && Deref(arena, k.refs) in m
    && Known(names, Deref(arena, k.refs)) && Encode(names, h, Deref(arena, k.refs)) == k
  }

  /** The table of reference tuples holds exactly the entries of `m`. */
  ghost predicate Represents<V>(names: Names, arena: Arena, h: TupleHash, table: map<TupleKey, V>, m: map<seq<Bytes>, V>) {
    && Interned(names, arena)
    && (forall t :: t in m ==> Kept(names, h, table, m, t))
    && (forall k :: k in table ==> Stands(names, arena, h, m, k))
  }

  lemma NothingRepresented<V>(names: Names, arena: Arena, h: TupleHash)
    requires Interned(names, arena)
    ensures Represents<V>(names, arena, h, map[], map[])
  {
  }

  lemma TupleLookup<V>(names: Names, arena: Arena, h: TupleHash, table: map<TupleKey, V>, m: map<seq<Bytes>, V>, t: seq<Bytes>)
    requires Represents(names, arena, h, table, m) && Known(names, t)
    ensures t in m <==> Encode(names, h, t) in table
    ensures t in m ==> m[t] == table[Encode(names, h, t)]
  {
    DerefRefs(names, arena, t);
    assert t in m ==> Kept(names, h, table, m, t);
    assert Encode(names, h, t) in table ==> Stands(names, arena, h, m, Encode(names, h, t));
  }

  lemma UnknownAbsent<V>(names: Names, arena: Arena, h: TupleHash, table: map<TupleKey, V>, m: map<seq<Bytes>, V>, t: seq<Bytes>)
    requires Represents(names, arena, h, table, m) && !Known(names, t)
    ensures t !in m
  {
    assert t in m ==> Kept(names, h, table, m, t);
  }

  lemma RefsGrown(names: Names, arena: Arena, names': Names, arena': Arena, t: seq<Bytes>)
    requires Grown(names, arena, names', arena') && Known(names, t)
    ensures Known(names', t) && Refs(names', t) == Refs(names, t)
  {
  }

  lemma StandsGrown<V>(names: Names, arena: Arena, names': Names, arena': Arena, h: TupleHash, m: map<seq<Bytes>, V>, k: TupleKey)
    requires Stands(names, arena, h, m, k) && Grown(names, arena, names', arena')
    ensures Stands(names', arena', h, m, k)
  {
    RefsGrown(names, arena, names', arena', Deref(arena, k.refs));
    assert Deref(arena', k.refs) == Deref(arena, k.refs);
  }

  /** References stay good while more strings are interned. */
  lemma RepresentsGrown<V>(names: Names, arena: Arena, names': Names, arena': Arena, h: TupleHash, table: map<TupleKey, V>, m: map<seq<Bytes>, V>)
    requires Represents(names, arena, h, table, m) && Grown(names, arena, names', arena') && Interned(names', arena')
    ensures Represents(names', arena', h, table, m)
  {
    forall t | t in m ensures Kept(names', h, table, m, t) {
      assert Kept(names, h, table, m, t);
      RefsGrown(names, arena, names', arena', t);
    }
    forall k | k in table ensures Stands(names', arena', h, m, k) {
      StandsGrown(names, arena, names', arena', h, m, k);
    }
  }

  lemma RepresentsStored<V>(names: Names, arena: Arena, h: TupleHash, table: map<TupleKey, V>, m: map<seq<Bytes>, V>, t: seq<Bytes>, v: V)
    requires Represents(names, arena, h, table, m) && Known(names, t) && t !in m
    ensures Represents(names, arena, h, table[Encode(names, h, t) := v], m[t := v])
  {
    var table', m' := table[Encode(names, h, t) := v], m[t := v];
    DerefRefs(names, arena, t);
    forall s | s in m' ensures Kept(names, h, table', m', s) {
      if s != t {
        assert Kept(names, h, table, m, s);
        ReferencesDecide(names, arena, s, t);
      }
    }
    forall k | k in table' ensures Stands(names, arena, h, m', k) {
      if k != Encode(names, h, t) {
        assert Stands(names, arena, h, m, k);
      }
    }
  }

  lemma RepresentsRemoved<V>(names: Names, arena: Arena, h: TupleHash, table: map<TupleKey, V>, m: map<seq<Bytes>, V>, t: seq<Bytes>)
    requires Represents(names, arena, h, table, m) && t in m
    ensures Known(names, t) && Encode(names, h, t) in table
    ensures Represents(names, arena, h, table - {Encode(names, h, t)}, m - {t})
  {
    assert Kept(names, h, table, m, t);
    var table', m' := table - {Encode(names, h, t)}, m - {t};
    DerefRefs(names, arena, t);
    forall s | s in m' ensures Kept(names, h, table', m', s) {
      assert Kept(names, h, table, m, s);
      ReferencesDecide(names, arena, s, t);
    }
    forall k | k in table' ensures Stands(names, arena, h, m', k) {
      assert Stands(names, arena, h, m, k);
    }
  }

  lemma RepresentsNothing<V>(names: Names, arena: Arena, h: TupleHash, table: map<TupleKey, V>)
    requires Represents(names, arena, h, table, map[])
    ensures table == map[]
  {
    assert forall k :: k in table ==> Stands<V>(names, arena, h, map[], k);
  }

  lemma {:induction false} RepresentsSize<V>(names: Names, arena: Arena, h: TupleHash, table: map<TupleKey, V>, m: map<seq<Bytes>, V>)
    requires Represents(names, arena, h, table, m)
    ensures |table| == |m|
    decreases |m|
  {
    if m == map[] {
      RepresentsNothing(names, arena, h, table);
    } else {
      var t :| t in m;
      RepresentsRemoved(names, arena, h, table, m, t);
      var k := Encode(names, h, t);
      RepresentsSize(names, arena, h, table - {k}, m - {t});
      SizeRemoved(m, t);
      SizeRemoved(table, k);
    }
  }

  // ---------------------------------------------------------------- the interner

  function NewRef(s: Bytes, next: nat): Ref {
    if s == [] then Ref(0, 0) else Ref(next, |s|)
  }

  lemma Entered(names: Names, arena: Arena, next: nat, s: Bytes, names': Names, arena': Arena)
    requires Interned(names, arena) && 0 in arena && arena[0] == [] && next !in arena
    requires names' == Stored(names, s, NewRef(s, next))
    requires arena' == if s in names || s == [] then arena else arena[next := s]
    ensures Interned(names', arena') && Grown(names, arena, names', arena')
  {
  }

  lemma RefsAppend(names: Names, arena: Arena, names': Names, arena': Arena, t: seq<Bytes>, i: nat)
    requires i < |t| && Grown(names, arena, names', arena') && Known(names, t[..i]) && t[i] in names'
    ensures Known(names', t[..i + 1]) && Refs(names', t[..i + 1]) == Refs(names, t[..i]) + [names'[t[i]]]
  {
    RefsGrown(names, arena, names', arena', t[..i]);
    assert t[..i + 1] == t[..i] + [t[i]];
  }

  /** The interner with the arena that owns its strings. */
  class Interner {
    const table: Hashtable<Bytes, Ref>
    var arena: Arena
    var next: nat
    /** The reference of every string interned so far. */
    ghost var known: Names
    ghost var repr: set<object>

    ghost predicate Valid()
      reads this, repr
    {
      && this in repr && table in repr && table.repr <= repr - {this}
      && table.Valid() && known == table.contents && Interned(known, arena)
      && 0 in arena && arena[0] == [] && forall a :: a in arena ==> a < next
    }

    constructor (crc: Crc, blank: Ref, capacity: nat)
      ensures Valid() && known == map[] && fresh(repr)
    {
      table := new Hashtable(NameKeyable(crc), blank, capacity);
      arena, next, known := map[0 := []], 1, map[];
      new;
      repr := table.repr + {this};
    }

    /** `insert_and_entry` of the string set: a new string is copied into the arena. */
    method Intern(s: Bytes) returns (r: Ref)
      requires Valid()
      modifies repr
      ensures Valid() && fresh(repr - old(repr))
      ensures Grown(old(known), old(arena), known, arena)
      ensures s in known && r == known[s]
    {
      var present := table.Insert(s, NewRef(s, next));
      var addr := next;
      if !present && s != [] {
        arena, next := arena[next := s], next + 1;
      }
      Entered(known, old(arena), addr, s, table.contents, arena);
      known, repr := table.contents, repr + table.repr;
      var found := table.Get(s);
      r := found.value;
    }

    /** `entry` of the string set. */
    method Find(s: Bytes) returns (r: Option<Ref>)
      requires Valid()
      ensures r == Lookup(known, s)
    {
      r := table.Get(s);
    }
  }

  /** Interning the strings of a tuple, left to right. */
  method InternAll(names: Interner, t: seq<Bytes>) returns (refs: seq<Ref>)
    requires names.Valid()
    modifies names.repr
    ensures names.Valid() && fresh(names.repr - old(names.repr))
    ensures Grown(old(names.known), old(names.arena), names.known, names.arena)
    ensures Known(names.known, t) && refs == Refs(names.known, t)
  {
    refs := [];
    for i := 0 to |t|
      invariant names.Valid() && fresh(names.repr - old(names.repr))
      invariant Grown(old(names.known), old(names.arena), names.known, names.arena)
      invariant Known(names.known, t[..i]) && refs == Refs(names.known, t[..i])
    {
      ghost var known, arena := names.known, names.arena;
      var r := names.Intern(t[i]);
      GrownTwice(old(names.known), old(names.arena), known, arena, names.known, names.arena);
      RefsAppend(known, arena, names.known, names.arena, t, i);
      refs := refs + [r];
    }
    assert t[..|t|] == t;
  }

  /** Looking up the strings of a tuple: none as soon as one was never interned. */
  method FindAll(names: Interner, t: seq<Bytes>) returns (r: Option<seq<Ref>>)
    requires names.Valid()
    ensures r.None? <==> !Known(names.known, t)
    ensures r.Some? ==> r.value == Refs(names.known, t)
  {
    var refs := [];
    for i := 0 to |t|
      invariant |refs| == i && forall j :: 0 <= j < i ==> t[j] in names.known && refs[j] == names.known[t[j]]
    {
      var found := names.Find(t[i]);
      if found.None? {
        return None;
      }
      refs := refs + [found.value];
    }
    r := Some(refs);
  }

  // ---------------------------------------------------------------- the table

  ghost predicate Sound<V>(table: Table0<TupleKey, V>)
    reads table, table.entries
  {
    table.Valid() && 2 * table.len <= table.entries.Length && table.kb == TupleKeyable()
  }

  method StoreTuple<V>(table: Table0<TupleKey, V>, ghost names: Names, ghost arena: Arena, ghost h: TupleHash,
                       ghost m: map<seq<Bytes>, V>, ghost t: seq<Bytes>, refs: seq<Ref>, hash: nat, v: V)
    returns (present: bool)
    requires Sound(table) && Represents(names, arena, h, table.Map(), m)
    requires hash == h(t) && Known(names, t) && refs == Refs(names, t)
    modifies table, table.entries
    ensures Sound(table) && (table.entries == old(table.entries) || fresh(table.entries))
    ensures present <==> t in m
    ensures Represents(names, arena, h, table.Map(), Stored(m, t, v))
  {
    ghost var was := table.Map();
    TupleLookup(names, arena, h, was, m, t);
    present := table.Upsert(Tuple(refs, hash), hash, v);
    if !present {
      RepresentsStored(names, arena, h, was, m, t, v);
    }
  }

  class DictionaryStringHashTable<V> {
    const tupleHash: TupleHash
    const names: Interner
    const table: Table0<TupleKey, V>
    /** The map from tuples of strings to values this table stands for. */
    ghost var contents: map<seq<Bytes>, V>
    ghost var repr: set<object>

    ghost predicate Valid()
      reads this, repr
    {
      && this in repr && names in repr && table in repr && table.entries in repr
      && names.repr <= repr - {this, table, table.entries}
      && names.Valid() && Sound(table)
      && Represents(names.known, names.arena, tupleHash, table.Map(), contents)
    }

    constructor (tupleHash: TupleHash, crc: Crc, blank: V, capacity: nat)
      ensures Valid() && contents == map[] && this.tupleHash == tupleHash && fresh(repr)
    {
      this.tupleHash := tupleHash;
      names := new Interner(crc, Ref(0, 0), capacity);
      table := new Table0(TupleKeyable(), blank, capacity);
      contents := map[];
      new;
      NothingRepresented<V>(names.known, names.arena, tupleHash);
      repr := {this, table, table.entries} + names.repr;
    }

    /** `entry` / `get`. */
    method Get(t: seq<Bytes>) returns (r: Option<V>)
      requires Valid()
      ensures r == Lookup(contents, t)
    {
      var refs := FindAll(names, t);
      if refs.None? {
        UnknownAbsent(names.known, names.arena, tupleHash, table.Map(), contents, t);
        return None;
      }
      TupleLookup(names.known, names.arena, tupleHash, table.Map(), contents, t);
      var slot := table.Get(Tuple(refs.value, tupleHash(t)), tupleHash(t));
      r := if slot >= 0 then Some(table.entries[slot].val) else None;
    }

    /** `len`. */
    method Len() returns (n: nat)
      requires Valid()
      ensures n == |contents|
    {
      n := table.len;
      TableSize(table);
      RepresentsSize(names.known, names.arena, tupleHash, table.Map(), contents);
    }

    /** Bring the ghost state up to date after the names or the table have changed. */
    ghost method Record(known: Names, arena: Arena, held: map<TupleKey, V>, m: map<seq<Bytes>, V>, more: set<object>)
      requires this in repr && names in repr && table in repr && table.entries in repr + more
      requires names.repr <= repr + more - {this, table, table.entries}
      requires names.Valid() && known == names.known && arena == names.arena
      requires Sound(table) && held == table.Map()
      requires Represents(known, arena, tupleHash, held, m)
      modifies this`contents, this`repr
      ensures Valid() && repr == old(repr) + more && contents == m
    {
      contents, repr := m, repr + more;
    }

    /** Interning a tuple leaves the map as it is. */
    method InternTuple(t: seq<Bytes>) returns (refs: seq<Ref>)
      requires Valid()
      modifies this`contents, this`repr, names.repr
      ensures Valid() && fresh(repr - old(repr)) && table.entries == old(table.entries) && contents == old(contents)
      ensures Known(names.known, t) && refs == Refs(names.known, t)
    {
      refs := InternAll(names, t);
      RepresentsGrown(old(names.known), old(names.arena), names.known, names.arena, tupleHash, table.Map(), contents);
      Record(names.known, names.arena, table.Map(), contents, names.repr);
    }

    method StoreInterned(ghost t: seq<Bytes>, refs: seq<Ref>, hash: nat, v: V) returns (present: bool)
      requires Valid() && hash == tupleHash(t) && Known(names.known, t) && refs == Refs(names.known, t)
      modifies this`contents, this`repr, table, table.entries
      ensures Valid() && repr == old(repr) + {table.entries}
      ensures table.entries == old(table.entries) || fresh(table.entries)
      ensures present <==> t in old(contents)
      ensures contents == Stored(old(contents), t, v)
    {
      ghost var known, arena := names.known, names.arena;
      present := StoreTuple(table, known, arena, tupleHash, contents, t, refs, hash, v);
      Record(known, arena, table.Map(), Stored(contents, t, v), {table.entries});
    }

    /** `insert_and_entry_with_hash`, with the value the caller writes into a new entry. */
    method Insert(t: seq<Bytes>, hash: nat, v: V) returns (present: bool)
      requires Valid() && hash == tupleHash(t)
      modifies repr
      ensures Valid() && fresh(repr - old(repr))
      ensures present <==> t in old(contents)
      ensures contents == Stored(old(contents), t, v)
    {
      var refs := InternTuple(t);
      present := StoreInterned(t, refs, hash, v);
    }
  }

  // ---------------------------------------------------------------- whole runs

  method Step<V>(d: DictionaryStringHashTable<V>, op: Op<seq<Bytes>, V>) returns (a: Answer<V>)
    requires d.Valid() && !op.Merge?
    modifies d.repr
    ensures d.Valid() && fresh(d.repr - old(d.repr))
    ensures a == SpecAnswer(old(d.contents), op) && d.contents == SpecStep(old(d.contents), op)
  {
    if op.Insert? {
      var b := d.Insert(op.key, d.tupleHash(op.key), op.val);
      a := WasPresent(b);
    } else {
      a := Query(d, op);
    }
  }

  method Query<V>(d: DictionaryStringHashTable<V>, op: Op<seq<Bytes>, V>) returns (a: Answer<V>)
    requires d.Valid() && (op.Get? || op.Len?)
    ensures a == SpecAnswer(d.contents, op)
  {
    match op
    case Get(t) =>
      var r := d.Get(t);
      a := Found(r);
    case Len =>
      var n := d.Len();
      a := Size(n);
  }

  /** Every run of inserts, lookups and size queries answers as a map keyed by tuples of byte strings. */
  method Run<V>(tupleHash: TupleHash, crc: Crc, blank: V, capacity: nat, ops: seq<Op<seq<Bytes>, V>>)
    returns (out: seq<Answer<V>>)
    requires NoMerge(ops)
    ensures out == SpecRun(map[], ops)
  {
    var d := new DictionaryStringHashTable(tupleHash, crc, blank, capacity);
    out := [];
    Start(ops);
    for i := 0 to |ops|
      invariant d.Valid() && fresh(d.repr) && Underway(ops, i, out, d.contents)
    {
      Next(ops, i, out, d.contents);
      var a := Step(d, ops[i]);
      out := out + [a];
    }
    Finished(ops, out, d.contents);
  }
}
