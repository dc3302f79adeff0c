/** A map kept as several parts, each key in the part a routing function names: the shape of the
    short-string table (five tables) and of the partitioned table (one table per bucket). */
module Routing {
  import opened Options

  function Stored<K, V>(m: map<K, V>, key: K, v: V): map<K, V> {
    if key in m then m else m[key := v]
  }

  type Parts<K, V> = seq<map<K, V>>

  ghost predicate Routed<K(!new), V>(p: Parts<K, V>, route: K -> nat) {
    && (forall k :: route(k) < |p|)
    && (forall i, k :: 0 <= i < |p| && k in p[i] ==> route(k) == i)
  }

  /** `m` is the single map the parts stand for: every key is looked up in its own part. */
  ghost predicate Agrees<K(!new), V>(m: map<K, V>, p: Parts<K, V>, route: K -> nat) {
    Routed(p, route) && forall k :: Lookup(m, k) == Lookup(p[route(k)], k)
  }

  ghost function StoredIn<K, V>(p: Parts<K, V>, i: nat, key: K, v: V): Parts<K, V>
    requires i < |p|
  {
    p[i := Stored(p[i], key, v)]
  }

  lemma AgreesStored<K(!new), V>(m: map<K, V>, p: Parts<K, V>, route: K -> nat, key: K, v: V)
    requires Agrees(m, p, route)
    ensures key in m <==> key in p[route(key)]
    ensures Agrees(Stored(m, key, v), StoredIn(p, route(key), key, v), route)
  {
    assert Lookup(m, key) == Lookup(p[route(key)], key);
    var q := StoredIn(p, route(key), key, v);
    forall k ensures Lookup(Stored(m, key, v), k) == Lookup(q[route(k)], k) {
      assert Lookup(m, k) == Lookup(p[route(k)], k);
    }
  }

  lemma AgreesRemoved<K(!new), V>(m: map<K, V>, p: Parts<K, V>, route: K -> nat, key: K)
    requires Agrees(m, p, route)
    ensures Agrees(m - {key}, p[route(key) := p[route(key)] - {key}], route)
  {
    var q := p[route(key) := p[route(key)] - {key}];
    forall k ensures Lookup(m - {key}, k) == Lookup(q[route(k)], k) {
      assert Lookup(m, k) == Lookup(p[route(k)], k);
    }
  }

  ghost function Count<K, V>(p: Parts<K, V>): nat {
    if p == [] then 0 else |p[0]| + Count(p[1..])
  }

  lemma {:induction false} CountUpdate<K, V>(p: Parts<K, V>, i: nat, m: map<K, V>)
    requires i < |p|
    ensures Count(p[i := m]) + |p[i]| == Count(p) + |m|
  {
    if i > 0 {
      assert p[i := m][1..] == p[1..][i - 1 := m];
      CountUpdate(p[1..], i - 1, m);
    } else {
      assert p[0 := m][1..] == p[1..];
    }
  }

  lemma CountStep<K, V>(p: Parts<K, V>, i: nat)
    requires i < |p|
    ensures Count(p[i..]) == |p[i]| + Count(p[i + 1..])
  {
    assert p[i..][1..] == p[i + 1..];
  }

  lemma {:induction false} CountNone<K, V>(p: Parts<K, V>)
    requires forall i :: 0 <= i < |p| ==> p[i] == map[]
    ensures Count(p) == 0
  {
    if p != [] { CountNone(p[1..]); }
  }

  lemma NothingHeld<K(!new), V>(p: Parts<K, V>, route: K -> nat)
    requires Agrees(map[], p, route)
    ensures Count(p) == 0
  {
    forall i | 0 <= i < |p| ensures p[i] == map[] {
      assert forall k :: Lookup(p[route(k)], k) == Lookup(map[], k);
      assert forall k :: k in p[i] ==> route(k) == i && Lookup(p[route(k)], k).Some?;
    }
    CountNone(p);
  }

  lemma SizeRemoved<K, V>(m: map<K, V>, key: K)
    requires key in m
    ensures |m| == |m - {key}| + 1
  {
    assert (m - {key}).Keys == m.Keys - {key};
  }

  /** The parts count every key once. */
  lemma {:induction false} AgreesSize<K(!new), V>(m: map<K, V>, p: Parts<K, V>, route: K -> nat)
    requires Agrees(m, p, route)
    ensures |m| == Count(p)
    decreases |m|
  {
    if m == map[] {
      NothingHeld(p, route);
    } else {
      var key :| key in m;
      var i := route(key);
      assert Lookup(m, key) == Lookup(p[i], key);
      AgreesRemoved(m, p, route, key);
      SizeRemoved(m, key);
      SizeRemoved(p[i], key);
      CountUpdate(p, i, p[i] - {key});
      AgreesSize(m - {key}, p[i := p[i] - {key}], route);
    }
  }
}
