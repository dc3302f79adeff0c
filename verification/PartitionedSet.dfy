/** The partitioned hash set (partitioned_hashtable.rs, `PartitionedHashSet`): buckets that are hash
    sets of the general table, merged bucket by bucket. */
module PartitionedSet {
  import opened Bits
  import opened Hashtable
  import opened MapRuns
  import opened Options
  import opened Partitioned
  import opened Routing
  import opened Sequences
  import opened Table0

  // ---------------------------------------------------------------- the parts of a union

  /** The union of two partitioned sets, bucket by bucket. */
  ghost function Unions<K>(p: Parts<K, ()>, q: Parts<K, ()>): (r: Parts<K, ()>)
    requires |p| == |q|
    ensures |r| == |p| && forall i :: 0 <= i < |p| ==> r[i] == p[i] + q[i]
  {
    seq(|p|, i requires 0 <= i < |p| => p[i] + q[i])
  }

  /** Merging bucket by bucket is the union of the two sets. */
  lemma MergeBuckets<K(!new)>(m: map<K, ()>, p: Parts<K, ()>, n: map<K, ()>, q: Parts<K, ()>, route: K -> nat)
    requires |p| == |q| && Agrees(m, p, route) && Agrees(n, q, route)
    ensures Agrees(m + n, Unions(p, q), route)
  {
    var r := Unions(p, q);
    forall i, k | 0 <= i < |r| && k in r[i] ensures route(k) == i {
      assert k in p[i] || k in q[i];
    }
    forall k ensures Lookup(m + n, k) == Lookup(r[route(k)], k) {
      assert Lookup(m, k) == Lookup(p[route(k)], k) && Lookup(n, k) == Lookup(q[route(k)], k);
      assert r[route(k)] == p[route(k)] + q[route(k)];
    }
  }

  // ---------------------------------------------------------------- the keys of all buckets

  /** Some bucket holds the key. */
  ghost predicate Held<K>(p: Parts<K, ()>, k: K) {
    exists i :: 0 <= i < |p| && k in p[i]
  }

  ghost predicate Listed<K(!new)>(keys: seq<K>, m: map<K, ()>) {
    |keys| == |m| && forall k :: k in keys <==> k in m
  }

  lemma {:induction false} ListedBuckets<K(!new)>(lists: seq<seq<K>>, p: Parts<K, ()>)
    requires |lists| == |p| && forall i :: 0 <= i < |p| ==> Listed(lists[i], p[i])
    ensures |Flatten(lists)| == Count(p) && forall k :: k in Flatten(lists) <==> Held(p, k)
  {
    if p != [] {
      ListedBuckets(lists[1..], p[1..]);
      forall k ensures k in Flatten(lists) <==> Held(p, k) {
        assert k in Flatten(lists) <==> k in lists[0] || k in Flatten(lists[1..]);
        HeldInRest(p, k);
      }
    }
  }

  lemma HeldInRest<K>(p: Parts<K, ()>, k: K)
    requires p != []
    ensures Held(p, k) <==> k in p[0] || Held(p[1..], k)
  {
    if Held(p[1..], k) {
      var i :| 0 <= i < |p[1..]| && k in p[1..][i];
      assert k in p[i + 1];
    }
    if Held(p, k) {
      var i :| 0 <= i < |p| && k in p[i];
      assert i > 0 ==> k in p[1..][i - 1];
    }
  }

  lemma HeldIsContained<K(!new)>(m: map<K, ()>, p: Parts<K, ()>, route: K -> nat, k: K)
    requires Agrees(m, p, route)
    ensures Held(p, k) <==> k in m
  {
    assert Lookup(m, k) == Lookup(p[route(k)], k);
  }

  // ---------------------------------------------------------------- one bucket

  type Sets<K(!new)> = seq<Hashtable<K, ()>>

  /** Insertion into one bucket; the others are untouched, and no object comes to belong to two. */
  method InsertInto<K(==,!new)>(bs: Sets<K>, ghost repr: set<object>, ghost p: Parts<K, ()>, kb: Keyable<K>, i: nat, key: K, hash: nat)
    returns (present: bool)
    requires i < |bs| == |p| && hash == kb.hash(key)
    requires forall k :: 0 <= k < |bs| ==> bs[k].repr <= repr
    requires forall k, j :: 0 <= k < j < |bs| ==> bs[k].repr !! bs[j].repr
    requires forall k :: 0 <= k < |bs| ==> bs[k].Valid() && bs[k].table.kb == kb && bs[k].contents == p[k]
    modifies bs[i].repr
    ensures fresh(bs[i].repr - old(bs[i].repr))
    ensures forall k :: 0 <= k < |bs| ==> bs[k].repr <= repr + bs[i].repr
    ensures forall k, j :: 0 <= k < j < |bs| ==> bs[k].repr !! bs[j].repr
    ensures forall k :: 0 <= k < |bs| ==>
      bs[k].Valid() && bs[k].table.kb == kb && bs[k].contents == StoredIn(p, i, key, ())[k]
    ensures present <==> key in p[i]
  {
    present := bs[i].InsertWithHash(key, hash, ());
  }

  /** `set_merge` of one bucket into another's. */
  method MergeAt<K(==,!new)>(bs: Sets<K>, ghost repr: set<object>, ghost p: Parts<K, ()>, kb: Keyable<K>, i: nat, other: Hashtable<K, ()>)
    requires i < |bs| == |p| && other.Valid() && other.table.kb == kb && other.repr !! repr
    requires forall k :: 0 <= k < |bs| ==> bs[k].repr <= repr
    requires forall k, j :: 0 <= k < j < |bs| ==> bs[k].repr !! bs[j].repr
    requires forall k :: 0 <= k < |bs| ==> bs[k].Valid() && bs[k].table.kb == kb && bs[k].contents == p[k]
    modifies bs[i].repr
    ensures fresh(bs[i].repr - old(bs[i].repr))
    ensures forall k :: 0 <= k < |bs| ==> bs[k].repr <= repr + bs[i].repr
    ensures forall k, j :: 0 <= k < j < |bs| ==> bs[k].repr !! bs[j].repr
    ensures forall k :: 0 <= k < |bs| ==>
      bs[k].Valid() && bs[k].table.kb == kb && bs[k].contents == p[i := p[i] + other.contents][k]
  {
    MergeInto(bs[i], other);
  }

  method NewSets<K(==,!new)>(n: nat, kb: Keyable<K>, capacity: nat) returns (bs: Sets<K>, ghost repr: set<object>)
    requires forall k :: kb.isZero(k) <==> k == kb.zero
    ensures |bs| == n && fresh(repr)
    ensures forall k :: 0 <= k < n ==> bs[k] in repr && bs[k].repr <= repr
    ensures forall k, j :: 0 <= k < j < n ==> bs[k].repr !! bs[j].repr
    ensures forall k :: 0 <= k < n ==> bs[k].Valid() && bs[k].table.kb == kb && bs[k].contents == map[]
  {
    bs, repr := [], {};
    while |bs| < n
      invariant |bs| <= n && fresh(repr)
      invariant forall k :: 0 <= k < |bs| ==> bs[k] in repr && bs[k].repr <= repr
      invariant forall k, j :: 0 <= k < j < |bs| ==> bs[k].repr !! bs[j].repr
      invariant forall k :: 0 <= k < |bs| ==> bs[k].Valid() && bs[k].table.kb == kb && bs[k].contents == map[]
    {
      var b := new Hashtable<K, ()>(kb, (), capacity);
      bs, repr := bs + [b], repr + b.repr;
    }
  }

  // ---------------------------------------------------------------- the set

  class PartitionedHashSet<K(==,!new)> {
    const kb: Keyable<K>
    const lg2: nat
    const highBit: bool
    const tables: Sets<K>
    /** The set this one stands for, the part of it in each bucket, and the objects it is made of. */
    ghost var contents: map<K, ()>
    ghost var parts: Parts<K, ()>
    ghost var repr: set<object>

    ghost predicate Valid()
      reads this, repr
    {
      && this in repr
      && (forall k :: 0 <= k < |tables| ==> tables[k] in repr && tables[k].repr <= repr - {this})
      && (forall k, j :: 0 <= k < j < |tables| ==> tables[k].repr !! tables[j].repr)
      && lg2 <= 32 && |tables| == |parts| == Pow2(lg2)
      && (forall k :: 0 <= k < |tables| ==> tables[k].Valid() && tables[k].table.kb == kb && tables[k].contents == parts[k])
      && Agrees(contents, parts, Route(kb.hash, lg2, highBit))
    }

    constructor (kb: Keyable<K>, lg2: nat, highBit: bool, capacity: nat)
      requires lg2 <= 32 && forall k :: kb.isZero(k) <==> k == kb.zero
      ensures Valid() && fresh(repr) && contents == map[]
      ensures this.kb == kb && this.lg2 == lg2 && this.highBit == highBit
    {
      NothingRouted<K, ()>(kb.hash, lg2, highBit);
      var buckets, objects := NewSets(Pow2(lg2), kb, capacity);
      this.kb, this.lg2, this.highBit, tables := kb, lg2, highBit, buckets;
      contents, parts, repr := map[], Repeat(map[], Pow2(lg2)), objects + {this};
    }

    method Get(key: K) returns (r: Option<()>)
      requires Valid()
      ensures r == Lookup(contents, key)
    {
      var i := BucketOf(lg2, highBit, kb.hash(key));
      assert Lookup(contents, key) == Lookup(parts[Route(kb.hash, lg2, highBit)(key)], key);
      r := tables[i].Get(key);
    }

    /** `len`: the sizes of the buckets, summed. */
    method Len() returns (n: nat)
      requires Valid()
      ensures n == |contents|
    {
      n := 0;
      for i := 0 to |tables|
        invariant n + Count(parts[i..]) == Count(parts)
      {
        CountStep(parts, i);
        var size := tables[i].Len();
        n := n + size;
      }
      AgreesSize(contents, parts, Route(kb.hash, lg2, highBit));
    }

    /** Bring the ghost state up to date after buckets have changed. */
    ghost method Record(more: set<object>, m: map<K, ()>, p: Parts<K, ()>)
      requires this in repr && this !in more && lg2 <= 32 && |tables| == |p| == Pow2(lg2)
      requires Agrees(m, p, Route(kb.hash, lg2, highBit))
      requires forall k :: 0 <= k < |tables| ==> tables[k] in repr && tables[k].repr <= repr - {this} + more
      requires forall k, j :: 0 <= k < j < |tables| ==> tables[k].repr !! tables[j].repr
      requires forall k :: 0 <= k < |tables| ==> tables[k].Valid() && tables[k].table.kb == kb && tables[k].contents == p[k]
      modifies this`contents, this`parts, this`repr
      ensures Valid() && repr == old(repr) + more && contents == m
    {
      contents, parts, repr := m, p, repr + more;
    }

    /** `set_insert`, which also tells whether the key was there. */
    method SetInsert(key: K) returns (present: bool)
      requires Valid()
      modifies repr
      ensures Valid() && fresh(repr - old(repr))
      ensures present <==> key in old(contents)
      ensures contents == Stored(old(contents), key, ())
    {
      var hash := kb.hash(key);
      var i := BucketOf(lg2, highBit, hash);
      assert i == Route(kb.hash, lg2, highBit)(key);
      present := InsertInto(tables, repr - {this}, parts, kb, i, key, hash);
      AgreesStored(contents, parts, Route(kb.hash, lg2, highBit), key, ());
      Record(tables[i].repr, Stored(contents, key, ()), StoredIn(parts, i, key, ()));
    }

    /** `set_merge`: each bucket of the other set is merged into the bucket at the same place. */
    method SetMerge(other: PartitionedHashSet<K>)
      requires Valid() && other.Valid() && repr !! other.repr
      requires kb == other.kb && lg2 == other.lg2 && highBit == other.highBit
      modifies repr
      ensures Valid() && fresh(repr - old(repr))
      ensures contents == old(contents) + other.contents
    {
      ghost var p, objects := parts, repr - {this};
      for i := 0 to |tables|
        invariant |p| == |parts| && this !in objects && repr - {this} <= objects && fresh(objects - old(repr))
        invariant parts == old(parts) && repr == old(repr) && contents == old(contents) && other.Valid()
        invariant forall k :: 0 <= k < |p| ==> p[k] == if k < i then parts[k] + other.parts[k] else parts[k]
        invariant forall k :: 0 <= k < |tables| ==> tables[k].repr <= objects
        invariant forall k, j :: 0 <= k < j < |tables| ==> tables[k].repr !! tables[j].repr
        invariant forall k :: 0 <= k < |tables| ==> tables[k].Valid() && tables[k].table.kb == kb && tables[k].contents == p[k]
      {
        MergeAt(tables, objects, p, kb, i, other.tables[i]);
        p, objects := p[i := p[i] + other.parts[i]], objects + tables[i].repr;
      }
      assert p == Unions(parts, other.parts);
      MergeBuckets(contents, parts, other.contents, other.parts, Route(kb.hash, lg2, highBit));
      Record(objects, contents + other.contents, p);
    }

    /** `iter`, drained: every element of the set, once. */
    method Keys() returns (keys: seq<K>)
      requires Valid()
      ensures |keys| == |contents| && forall k :: k in keys <==> k in contents
    {
      var lists := [];
      for i := 0 to |tables|
        invariant |lists| == i && forall j :: 0 <= j < i ==> Listed(lists[j], parts[j])
      {
        var list := tables[i].Keys();
        lists := lists + [list];
      }
      var it := new BucketIter(lists);
      keys := Drain(it);
      ListedBuckets(lists, parts);
      AgreesSize(contents, parts, Route(kb.hash, lg2, highBit));
      forall k ensures k in keys <==> k in contents {
        HeldIsContained(contents, parts, Route(kb.hash, lg2, highBit), k);
      }
    }
  }

  // ---------------------------------------------------------------- whole runs

  method PlainStep<K(==,!new)>(t: PartitionedHashSet<K>, op: Op<K, ()>) returns (a: Answer<()>)
    requires t.Valid() && !op.Merge?
    modifies t.repr
    ensures t.Valid() && fresh(t.repr - old(t.repr))
    ensures a == SpecAnswer(old(t.contents), op) && t.contents == SpecStep(old(t.contents), op)
  {
    match op
    case Insert(k, v) =>
      assert v == ();
      var b := t.SetInsert(k);
      a := WasPresent(b);
    case Get(k) =>
      var r := t.Get(k);
      a := Found(r);
    case Len =>
      var n := t.Len();
      a := Size(n);
  }

  method Step<K(==,!new)>(t: PartitionedHashSet<K>, capacity: nat, op: Op<K, ()>) returns (a: Answer<()>)
    requires t.Valid() && forall k :: t.kb.isZero(k) <==> k == t.kb.zero
    modifies t.repr
    ensures t.Valid() && fresh(t.repr - old(t.repr))
    ensures a == SpecAnswer(old(t.contents), op) && t.contents == SpecStep(old(t.contents), op)
    decreases op, 1
  {
    if op.Merge? {
      var other, _ := Run(t.kb, t.lg2, t.highBit, capacity, op.program);
      t.SetMerge(other);
      a := Merged;
    } else {
      a := PlainStep(t, op);
    }
  }

  /** Every run of insertions, lookups, size queries and merges, programs merged to any depth, answers
      as one finite set does, however many buckets it is spread over. */
  method Run<K(==,!new)>(kb: Keyable<K>, lg2: nat, highBit: bool, capacity: nat, program: seq<Op<K, ()>>)
    returns (t: PartitionedHashSet<K>, out: seq<Answer<()>>)
    requires lg2 <= 32 && forall k :: kb.isZero(k) <==> k == kb.zero
    ensures t.Valid() && fresh(t.repr) && t.kb == kb && t.lg2 == lg2 && t.highBit == highBit
    ensures out == SpecRun(map[], program) && t.contents == SpecEnd(map[], program)
    decreases program, 0
  {
    t := new PartitionedHashSet<K>(kb, lg2, highBit, capacity);
    out := [];
    Start(program);
    for i := 0 to |program|
      invariant t.Valid() && fresh(t.repr)
      invariant Underway(program, i, out, t.contents)
    {
      Next(program, i, out, t.contents);
      var a := Step(t, capacity, program[i]);
      out := out + [a];
    }
    Finished(program, out, t.contents);
  }
}
