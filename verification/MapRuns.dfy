/** Programs over a table and how a finite map runs them: the specification every table's runs are
    proved against. */
module MapRuns {
  import opened Options
  import opened Routing

  /** `Merge`, on sets only, merges the set another program builds. */
  datatype Op<K, V> = Insert(key: K, val: V) | Get(key: K) | Len | Merge(program: seq<Op<K, V>>)
  datatype Answer<V> = WasPresent(b: bool) | Found(r: Option<V>) | Size(n: nat) | Merged

  ghost function SpecStep<K, V>(m: map<K, V>, op: Op<K, V>): map<K, V>
    decreases op
  {
    match op
    case Insert(k, v) => Stored(m, k, v)
    case Merge(p) => m + SpecEnd(map[], p)
    case _ => m
  }

  ghost function SpecAnswer<K, V>(m: map<K, V>, op: Op<K, V>): Answer<V> {
    match op
    case Insert(k, _) => WasPresent(k in m)
    case Get(k) => Found(Lookup(m, k))
    case Len => Size(|m|)
    case Merge(_) => Merged
  }

  /** The map a program leaves, and the answers it gives on the way. */
  ghost function SpecEnd<K, V>(m: map<K, V>, ops: seq<Op<K, V>>): map<K, V>
    decreases ops
  {
    if ops == [] then m else SpecEnd(SpecStep(m, ops[0]), ops[1..])
  }

  ghost function SpecRun<K, V>(m: map<K, V>, ops: seq<Op<K, V>>): seq<Answer<V>>
    decreases |ops|
  {
    if ops == [] then [] else [SpecAnswer(m, ops[0])] + SpecRun(SpecStep(m, ops[0]), ops[1..])
  }

  /** Run so far: the answers given, and the map reached, complete to what the whole program yields. */
  ghost predicate Underway<K, V>(ops: seq<Op<K, V>>, i: nat, out: seq<Answer<V>>, m: map<K, V>) {
    && i <= |ops|
    && out + SpecRun(m, ops[i..]) == SpecRun(map[], ops)
    && SpecEnd(m, ops[i..]) == SpecEnd(map[], ops)
  }

  lemma Start<K, V>(ops: seq<Op<K, V>>)
    ensures Underway(ops, 0, [], map[])
  {
    assert ops[0..] == ops;
  }

  lemma Next<K, V>(ops: seq<Op<K, V>>, i: nat, out: seq<Answer<V>>, m: map<K, V>)
    requires Underway(ops, i, out, m) && i < |ops|
    ensures Underway(ops, i + 1, out + [SpecAnswer(m, ops[i])], SpecStep(m, ops[i]))
  {
    var a, rest := SpecAnswer(m, ops[i]), SpecRun(SpecStep(m, ops[i]), ops[i + 1..]);
    assert ops[i..][1..] == ops[i + 1..];
    assert out + ([a] + rest) == out + [a] + rest;
  }

  lemma Finished<K, V>(ops: seq<Op<K, V>>, out: seq<Answer<V>>, m: map<K, V>)
    requires Underway(ops, |ops|, out, m)
    ensures out == SpecRun(map[], ops) && m == SpecEnd(map[], ops)
  {
    assert ops[|ops|..] == [];
  }

  ghost predicate NoMerge<K, V>(ops: seq<Op<K, V>>) {
    forall i :: 0 <= i < |ops| ==> !ops[i].Merge?
  }
}
