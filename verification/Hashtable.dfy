/** The general hash table (hashtable.rs): a `Table0` for ordinary keys plus one entry kept
    aside for the zero key, which `Table0` cannot store. */
module Hashtable {
  import opened MapRuns
  import opened Options
  import opened Routing
  import opened Table0

  ghost function WithZero<K, V>(m: map<K, V>, zero: K, z: Option<V>): map<K, V> {
    match z
    case None => m
    case Some(v) => m[zero := v]
  }

  lemma ZeroSize<K, V>(m: map<K, V>, zero: K, z: Option<V>)
    requires zero !in m
    ensures |WithZero(m, zero, z)| == |m| + if z.Some? then 1 else 0
  {
    assert z.Some? ==> WithZero(m, zero, z).Keys == m.Keys + {zero};
  }

  lemma StoredBeside<K, V>(m: map<K, V>, zero: K, z: Option<V>, key: K, v: V)
    requires key != zero
    ensures key in WithZero(m, zero, z) <==> key in m
    ensures WithZero(Stored(m, key, v), zero, z) == Stored(WithZero(m, zero, z), key, v)
  {
  }

  class Hashtable<K(==,!new), V> {
    var zero: Option<V>
    const table: Table0<K, V>
    /** The map this table stands for, and the objects it is made of. */
    ghost var contents: map<K, V>
    ghost var repr: set<object>

    ghost predicate Valid()
      reads this, repr
    {
      && this in repr && table in repr && table.entries in repr
      && table.Valid()
      && (forall k :: table.kb.isZero(k) <==> k == table.kb.zero)
      && 2 * table.len <= table.entries.Length
      && contents == WithZero(table.Map(), table.kb.zero, zero)
    }

    constructor (kb: Keyable<K>, blank: V, capacity: nat)
      requires forall k :: kb.isZero(k) <==> k == kb.zero
      ensures Valid() && fresh(repr) && table.kb == kb && contents == map[]
    {
      zero, contents := None, map[];
      table := new Table0<K, V>(kb, blank, capacity);
      new;
      repr := {this, table, table.entries};
    }

    method Len() returns (n: nat)
      requires Valid()
      ensures n == |contents|
    {
      n := (if zero.Some? then 1 else 0) + table.len;
      TableSize(table);
      ZeroSize(table.Map(), table.kb.zero, zero);
    }

    /** `entry` / `get`. */
    method Get(key: K) returns (r: Option<V>)
      requires Valid()
      ensures r == Lookup(contents, key)
    {
      if table.kb.isZero(key) {
        assert table.kb.zero !in table.Map();
        return zero;
      }
      var slot := table.Get(key, table.kb.hash(key));
      r := if slot >= 0 then Some(table.entries[slot].val) else None;
    }

    /** Bring the ghost state up to date after the table or the zero entry has changed. */
    ghost method Record()
      requires this in repr && table in repr && table.Valid() && 2 * table.len <= table.entries.Length
      requires forall k :: table.kb.isZero(k) <==> k == table.kb.zero
      modifies this`contents, this`repr
      ensures Valid() && repr == old(repr) + {table.entries}
      ensures contents == WithZero(table.Map(), table.kb.zero, zero)
    {
      contents, repr := WithZero(table.Map(), table.kb.zero, zero), repr + {table.entries};
    }

    /** `insert_and_entry_with_hash`, with the value the caller must write into a new entry.
        The overflow panic of the inner table cannot be reached. */
    method InsertWithHash(key: K, hash: nat, v: V) returns (present: bool)
      requires Valid() && hash == table.kb.hash(key)
      modifies repr
      ensures Valid() && fresh(repr - old(repr))
      ensures present <==> key in old(contents)
      ensures contents == Stored(old(contents), key, v)
    {
      if table.kb.isZero(key) {
        present := zero.Some?;
        if !present {
          zero := Some(v);
        }
        Record();
      } else {
        StoredBeside(table.Map(), table.kb.zero, zero, key, v);
        present := table.Upsert(key, hash, v);
        Record();
      }
    }

    /** `insert_and_entry`. */
    method Insert(key: K, v: V) returns (present: bool)
      requires Valid()
      modifies repr
      ensures Valid() && fresh(repr - old(repr))
      ensures present <==> key in old(contents)
      ensures contents == Stored(old(contents), key, v)
    {
      present := InsertWithHash(key, table.kb.hash(key), v);
    }

    /** The keys `iter` visits: the zero key if there is one, then those of the table. */
    method Keys() returns (keys: seq<K>)
      requires Valid()
      ensures |keys| == |contents| && forall k :: k in keys <==> k in contents
    {
      var rest := table.IterKeys();
      keys := (if zero.Some? then [table.kb.zero] else []) + rest;
      TableSize(table);
      ZeroSize(table.Map(), table.kb.zero, zero);
      forall k ensures k in keys <==> k in contents {
        assert k in rest <==> k in (set key | key in rest);
      }
    }
  }

  lemma UnionWithZero<K>(a: map<K, ()>, b: map<K, ()>, r: map<K, ()>, zero: K, y: Option<()>, z: Option<()>)
    requires r.Keys == a.Keys + b.Keys
    ensures WithZero(r, zero, if z.Some? then Some(()) else y).Keys == WithZero(a, zero, y).Keys + WithZero(b, zero, z).Keys
  {
  }

  /** `set_merge` on hash sets. */
  method MergeSets<K(==,!new)>(self: Hashtable<K, ()>, other: Hashtable<K, ()>)
    requires self.Valid() && other.Valid() && self.table.kb == other.table.kb
    requires self.repr !! other.repr
    modifies self.repr
    ensures self.Valid() && fresh(self.repr - old(self.repr))
    ensures self.contents.Keys == old(self.contents).Keys + other.contents.Keys
  {
    ghost var was, had := self.table.Map(), self.zero;
    if other.zero.Some? {
      self.zero := Some(());
    }
    MergeTables(self.table, other.table);
    UnionWithZero(was, other.table.Map(), self.table.Map(), self.table.kb.zero, had, other.zero);
    self.Record();
  }

  // ---------------------------------------------------------------- whole runs

  method Step<K(==,!new), V>(t: Hashtable<K, V>, op: Op<K, V>) returns (a: Answer<V>)
    requires t.Valid() && !op.Merge?
    modifies t.repr
    ensures t.Valid() && fresh(t.repr - old(t.repr))
    ensures a == SpecAnswer(old(t.contents), op) && t.contents == SpecStep(old(t.contents), op)
  {
    match op
    case Insert(k, v) =>
      var b := t.Insert(k, v);
      a := WasPresent(b);
    case Get(k) =>
      var r := t.Get(k);
      a := Found(r);
    case Len =>
      var n := t.Len();
      a := Size(n);
  }

  /** Every run of a table, from any starting capacity, answers as a finite map does. */
  method Run<K(==,!new), V>(kb: Keyable<K>, blank: V, capacity: nat, ops: seq<Op<K, V>>) returns (out: seq<Answer<V>>)
    requires (forall k :: kb.isZero(k) <==> k == kb.zero) && NoMerge(ops)
    ensures out == SpecRun(map[], ops)
  {
    var t := new Hashtable<K, V>(kb, blank, capacity);
    out := [];
    Start(ops);
    for i := 0 to |ops|
      invariant t.Valid() && fresh(t.repr)
      invariant Underway(ops, i, out, t.contents)
    {
      Next(ops, i, out, t.contents);
      var a := Step(t, ops[i]);
      out := out + [a];
    }
    Finished(ops, out, t.contents);
  }

  lemma SameSet<K>(a: map<K, ()>, b: map<K, ()>)
    requires a.Keys == b.Keys
    ensures a == b
  {
    forall k | k in a ensures a[k] == b[k] { assert a[k] == () && b[k] == (); }
  }

  method MergeInto<K(==,!new)>(t: Hashtable<K, ()>, other: Hashtable<K, ()>)
    requires t.Valid() && other.Valid() && t.table.kb == other.table.kb
    requires t.repr !! other.repr
    modifies t.repr
    ensures t.Valid() && fresh(t.repr - old(t.repr))
    ensures t.contents == old(t.contents) + other.contents
  {
    MergeSets(t, other);
    SameSet(t.contents, old(t.contents) + other.contents);
  }

  method SetStep<K(==,!new)>(t: Hashtable<K, ()>, capacity: nat, op: Op<K, ()>) returns (a: Answer<()>)
    requires t.Valid()
    modifies t.repr
    ensures t.Valid() && fresh(t.repr - old(t.repr))
    ensures a == SpecAnswer(old(t.contents), op) && t.contents == SpecStep(old(t.contents), op)
    decreases op, 1
  {
    if op.Merge? {
      var other, _ := RunSet(t.table.kb, capacity, op.program);
      MergeInto(t, other);
      a := Merged;
    } else {
      a := Step(t, op);
    }
  }

  /** Every run of insertions, lookups, size queries and merges over sets, programs merged to any depth,
      answers as a finite set does and ends with that set. */
  method RunSet<K(==,!new)>(kb: Keyable<K>, capacity: nat, program: seq<Op<K, ()>>)
    returns (t: Hashtable<K, ()>, out: seq<Answer<()>>)
    requires forall k :: kb.isZero(k) <==> k == kb.zero
    ensures t.Valid() && t.table.kb == kb && fresh(t.repr)
    ensures out == SpecRun(map[], program) && t.contents == SpecEnd(map[], program)
    decreases program, 0
  {
    t := new Hashtable<K, ()>(kb, (), capacity);
    out := [];
    Start(program);
    for i := 0 to |program|
      invariant t.Valid() && t.table.kb == kb && fresh(t.repr)
      invariant Underway(program, i, out, t.contents)
    {
      Next(program, i, out, t.contents);
      var a := SetStep(t, capacity, program[i]);
      out := out + [a];
    }
    Finished(program, out, t.contents);
  }
}
