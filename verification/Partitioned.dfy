/** The partitioned table (partitioned_hashtable.rs): the hash of a key names a bucket, and each
    bucket is a table of its own that is handed the hash already computed. */
module Partitioned {
  import opened Bits
  import opened MapRuns
  import opened Options
  import opened PackedKeys
  import opened Routing
  import opened Sequences
  import opened ShortString

  // ---------------------------------------------------------------- buckets

  /** `hash2bucket`. */
  function BucketOf(lg2: nat, highBit: bool, hash: nat): (b: nat)
    requires lg2 <= 32
    ensures b < Pow2(lg2)
  {
    Pow2IsPow2(lg2);
    MaskIsMod(hash, Pow2(lg2));
    MaskIsMod(ShiftRight(hash, 32 - lg2), Pow2(lg2));
    if highBit then BitAnd(ShiftRight(hash, 32 - lg2), Pow2(lg2) - 1) else BitAnd(hash, Pow2(lg2) - 1)
  }

  /** For the 32-bit checksums the buckets by high bits are consecutive ranges of hash values. */
  lemma HighBuckets(lg2: nat, hash: nat)
    requires lg2 <= 32 && hash < Pow2(32)
    ensures var width := Pow2(32 - lg2); BucketOf(lg2, true, hash) == hash / width
  {
    var shifted := ShiftRight(hash, 32 - lg2);
    ShiftBound(hash, 32, 32 - lg2);
    ShiftIsDiv(hash, 32 - lg2);
    Pow2IsPow2(lg2);
    MaskIsMod(shifted, Pow2(lg2));
    ModUnique(shifted, Pow2(lg2), 0, shifted);
  }

  /** The bucket of a key, by its hash. */
  function Route<K>(hash: K -> nat, lg2: nat, highBit: bool): K -> nat
    requires lg2 <= 32
  {
    key => BucketOf(lg2, highBit, hash(key))
  }

  lemma NothingRouted<K(!new), V>(hash: K -> nat, lg2: nat, highBit: bool)
    requires lg2 <= 32
    ensures Agrees<K, V>(map[], Repeat(map[], Pow2(lg2)), Route(hash, lg2, highBit))
  {
  }

  // ---------------------------------------------------------------- the table

  function Hasher(crc: Crc): Bytes -> nat {
    key => HashOf(crc, key)
  }

  type Buckets<V> = seq<ShortStringHashtable<V>>

  /** Insertion into one bucket; the others are untouched, and no object comes to belong to two. */
  method InsertAt<V>(bs: Buckets<V>, ghost repr: set<object>, ghost p: Parts<Bytes, V>, crc: Crc, i: nat, s: Slice, hash: nat, v: V)
    returns (present: bool)
    requires i < |bs| == |p| && hash == HashOf(crc, Text(s))
    requires forall k :: 0 <= k < |bs| ==> bs[k].repr <= repr
    requires forall k :: 0 <= k < |bs| ==> bs[k].Valid() && bs[k].crc == crc && bs[k].contents == p[k]
    requires forall k, j :: 0 <= k < j < |bs| ==> bs[k].repr !! bs[j].repr
    modifies bs[i].repr
    ensures fresh(bs[i].repr - old(bs[i].repr))
    ensures forall k :: 0 <= k < |bs| ==> bs[k].repr <= repr + bs[i].repr
    ensures forall k, j :: 0 <= k < j < |bs| ==> bs[k].repr !! bs[j].repr
    ensures forall k :: 0 <= k < |bs| ==> bs[k].Valid() && bs[k].crc == crc && bs[k].contents == StoredIn(p, i, Text(s), v)[k]
    ensures present <==> Text(s) in p[i]
  {
    present := bs[i].InsertWithHash(s, hash, v);
  }

  /** The empty buckets the callers of `create` hand it. */
  method NewBuckets<V>(n: nat, crc: Crc, blank: V, capacity: nat) returns (bs: Buckets<V>, ghost repr: set<object>)
    ensures |bs| == n && fresh(repr)
    ensures forall k :: 0 <= k < n ==> bs[k] in repr && bs[k].repr <= repr
    ensures forall k, j :: 0 <= k < j < n ==> bs[k].repr !! bs[j].repr
    ensures forall k :: 0 <= k < n ==> bs[k].Valid() && bs[k].crc == crc && bs[k].contents == map[]
  {
    bs, repr := [], {};
    while |bs| < n
      invariant |bs| <= n && fresh(repr)
      invariant forall k :: 0 <= k < |bs| ==> bs[k] in repr && bs[k].repr <= repr
      invariant forall k, j :: 0 <= k < j < |bs| ==> bs[k].repr !! bs[j].repr
      invariant forall k :: 0 <= k < |bs| ==> bs[k].Valid() && bs[k].crc == crc && bs[k].contents == map[]
    {
      var b := new ShortStringHashtable<V>(crc, blank, capacity);
      bs, repr := bs + [b], repr + b.repr;
    }
  }

  class PartitionedHashtable<V> {
    const crc: Crc
    const lg2: nat
    const highBit: bool
    const tables: Buckets<V>
    /** The map this table stands for, the part of it in each bucket, and the objects it is made of. */
    ghost var contents: map<Bytes, V>
    ghost var parts: Parts<Bytes, V>
    ghost var repr: set<object>

    ghost predicate Valid()
      reads this, repr
    {
      && this in repr
      && (forall k :: 0 <= k < |tables| ==> tables[k] in repr && tables[k].repr <= repr - {this})
      && (forall k, j :: 0 <= k < j < |tables| ==> tables[k].repr !! tables[j].repr)
      && lg2 <= 32 && |tables| == |parts| == Pow2(lg2)
      && (forall k :: 0 <= k < |tables| ==> tables[k].Valid() && tables[k].crc == crc && tables[k].contents == parts[k])
      && Agrees(contents, parts, Route(Hasher(crc), lg2, highBit))
    }

    /** `create`, on new buckets. */
    constructor (crc: Crc, lg2: nat, highBit: bool, blank: V, capacity: nat)
      requires lg2 <= 32
      ensures Valid() && fresh(repr) && contents == map[]
      ensures this.crc == crc && this.lg2 == lg2 && this.highBit == highBit
    {
      NothingRouted<Bytes, V>(Hasher(crc), lg2, highBit);
      var buckets, objects := NewBuckets(Pow2(lg2), crc, blank, capacity);
      this.crc, this.lg2, this.highBit, tables := crc, lg2, highBit, buckets;
      contents, parts, repr := map[], Repeat(map[], Pow2(lg2)), objects + {this};
    }

    /** `get`: the hash names the bucket, which computes its own hash of the same string. */
    method Get(s: Slice) returns (r: Option<V>)
      requires Valid()
      ensures r == Lookup(contents, Text(s))
    {
      var hash := HashBytes(crc, s);
      var i := BucketOf(lg2, highBit, hash);
      assert Lookup(contents, Text(s)) == Lookup(parts[Route(Hasher(crc), lg2, highBit)(Text(s))], Text(s));
      r := tables[i].Get(s);
    }

    /** `len`: the sizes of the buckets, summed. */
    method Len() returns (n: nat)
      requires Valid()
      ensures n == |contents|
    {
      n := 0;
      for i := 0 to |tables|
        invariant n + Count(parts[i..]) == Count(parts)
      {
        CountStep(parts, i);
        var size := tables[i].Len();
        n := n + size;
      }
      AgreesSize(contents, parts, Route(Hasher(crc), lg2, highBit));
    }

    /** Bring the ghost state up to date after a bucket has changed. */
    ghost method Record(more: set<object>, m: map<Bytes, V>, p: Parts<Bytes, V>)
      requires this in repr && this !in more && lg2 <= 32 && |tables| == |p| == Pow2(lg2) && Agrees(m, p, Route(Hasher(crc), lg2, highBit))
      requires forall k :: 0 <= k < |tables| ==> tables[k] in repr && tables[k].repr <= repr - {this} + more
      requires forall k, j :: 0 <= k < j < |tables| ==> tables[k].repr !! tables[j].repr
      requires forall k :: 0 <= k < |tables| ==> tables[k].Valid() && tables[k].crc == crc && tables[k].contents == p[k]
      modifies this`contents, this`parts, this`repr
      ensures Valid() && repr == old(repr) + more && contents == m
    {
      contents, parts, repr := m, p, repr + more;
    }

    /** `insert_and_entry`: only the bucket of the key is touched, and it is handed the hash that
        chose it. */
    method Insert(s: Slice, v: V) returns (present: bool)
      requires Valid()
      modifies repr
      ensures Valid() && fresh(repr - old(repr))
      ensures present <==> Text(s) in old(contents)
      ensures contents == Stored(old(contents), Text(s), v)
    {
      var hash := HashBytes(crc, s);
      var i := BucketOf(lg2, highBit, hash);
      assert i == Route(Hasher(crc), lg2, highBit)(Text(s));
      present := InsertAt(tables, repr - {this}, parts, crc, i, s, hash, v);
      AgreesStored(contents, parts, Route(Hasher(crc), lg2, highBit), Text(s), v);
      Record(tables[i].repr, Stored(contents, Text(s), v), StoredIn(parts, i, Text(s), v));
    }
  }

  // ---------------------------------------------------------------- whole runs

  method Step<V>(t: PartitionedHashtable<V>, op: Op<Slice, V>) returns (a: Answer<V>)
    requires t.Valid() && !op.Merge?
    modifies t.repr
    ensures t.Valid() && fresh(t.repr - old(t.repr))
    ensures a == SpecAnswer(old(t.contents), OnText(op)) && t.contents == SpecStep(old(t.contents), OnText(op))
  {
    match op
    case Insert(s, v) =>
      var b := t.Insert(s, v);
      a := WasPresent(b);
    case Get(s) =>
      var r := t.Get(s);
      a := Found(r);
    case Len =>
      var n := t.Len();
      a := Size(n);
  }

  /** Every run answers as one map keyed by byte strings, however many buckets the keys are spread over. */
  method Run<V>(crc: Crc, lg2: nat, highBit: bool, blank: V, capacity: nat, ops: seq<Op<Slice, V>>)
    returns (out: seq<Answer<V>>)
    requires lg2 <= 32 && NoMerge(ops)
    ensures out == SpecRun(map[], OnTexts(ops))
  {
    var t := new PartitionedHashtable<V>(crc, lg2, highBit, blank, capacity);
    ghost var spec := OnTexts(ops);
    out := [];
    Start(spec);
    for i := 0 to |ops|
      invariant t.Valid() && fresh(t.repr)
      invariant Underway(spec, i, out, t.contents)
    {
      Next(spec, i, out, t.contents);
      var a := Step(t, ops[i]);
      out := out + [a];
    }
    Finished(spec, out, t.contents);
  }

  // ---------------------------------------------------------------- iterating

  /** `PartitionedHashtableIter`: the iterators of the buckets, front first. */
  class BucketIter<T> {
    var inner: seq<seq<T>>

    constructor (inner: seq<seq<T>>)
      ensures this.inner == inner
    {
      this.inner := inner;
    }

    /** `next`: the entries of all buckets in order, skipping exhausted ones. */
    method Next() returns (r: Option<T>)
      modifies this
      ensures match r
        case None => Flatten(old(inner)) == [] && inner == []
        case Some(x) => Flatten(old(inner)) == [x] + Flatten(inner)
    {
      while inner != []
        invariant Flatten(inner) == Flatten(old(inner))
        decreases |inner|
      {
        if inner[0] != [] {
          r := Some(inner[0][0]);
          assert inner[0] + Flatten(inner[1..]) == [inner[0][0]] + (inner[0][1..] + Flatten(inner[1..]));
          inner := [inner[0][1..]] + inner[1..];
          return;
        }
        inner := inner[1..];
      }
      r := None;
    }
  }

  /** Draining the iterator yields every bucket's entries, bucket by bucket. */
  method Drain<T>(it: BucketIter<T>) returns (all: seq<T>)
    modifies it
    ensures all == Flatten(old(it.inner)) && it.inner == []
  {
    all := [];
    while true
      invariant all + Flatten(it.inner) == Flatten(old(it.inner))
      decreases |Flatten(it.inner)|
    {
      var r := it.Next();
      if r.None? {
        return;
      }
      all := all + [r.value];
    }
  }
}
