/** The open-addressing table shared by every hash table of the crate (table0.rs).

    Slots live in one array whose length is a power of two; a key is searched by
    linear probing from its home slot, with wrap-around.  A slot is free when its key
    is the zero key.  `Grow` enlarges the array and moves the entries in place. */
module Table0 {
  import opened Bits

  /** The `Keyable` trait: a hash, and the test for the key that marks a free slot. */
  datatype Keyable<!K> = Keyable(hash: K -> nat, isZero: K -> bool, zero: K)

  datatype Entry<K, V> = Entry(key: K, val: V)

  datatype InsertResult = Inserted(slot: nat) | Present(slot: nat) | Overflow

  type Slots<K, V> = seq<Entry<K, V>>

  // ---------------------------------------------------------------- slots and probe paths

  predicate Free<K, V>(kb: Keyable<K>, e: Entry<K, V>) {
    kb.isZero(e.key)
  }

  function Home<K>(kb: Keyable<K>, key: K, n: nat): (h: nat)
    requires n > 0
    ensures h < n
  {
    kb.hash(key) % n
  }

  /** `q` is on the probe path that starts at `a` and ends at `b`, wrapping at the end. */
  predicate OnPath(a: nat, q: nat, b: nat) {
    if a <= b then a <= q <= b else a <= q || q <= b
  }

  /** No free slot lies between the home of the entry in slot `p` and `p`. */
  ghost predicate Reachable<K, V>(kb: Keyable<K>, s: Slots<K, V>, p: nat)
    requires p < |s|
  {
    forall q :: 0 <= q < |s| && OnPath(Home(kb, s[p].key, |s|), q, p) ==> !Free(kb, s[q])
  }

  ghost predicate Distinct<K, V>(kb: Keyable<K>, s: Slots<K, V>) {
    forall p, q :: 0 <= p < |s| && 0 <= q < |s| && !Free(kb, s[p]) && !Free(kb, s[q]) && s[p].key == s[q].key ==> p == q
  }

  ghost predicate AllReachable<K, V>(kb: Keyable<K>, s: Slots<K, V>) {
    forall p :: 0 <= p < |s| && !Free(kb, s[p]) ==> Reachable(kb, s, p)
  }

  ghost predicate WellFormed<K, V>(kb: Keyable<K>, s: Slots<K, V>) {
    && kb.isZero(kb.zero)
    && |s| > 0
    && Distinct(kb, s)
    && AllReachable(kb, s)
  }

  ghost function Used<K, V>(kb: Keyable<K>, s: Slots<K, V>): set<int> {
    set p | 0 <= p < |s| && !Free(kb, s[p])
  }

  ghost function Keys<K, V>(kb: Keyable<K>, s: Slots<K, V>): set<K> {
    set p | 0 <= p < |s| && !Free(kb, s[p]) :: s[p].key
  }

  ghost function SlotOf<K, V>(kb: Keyable<K>, s: Slots<K, V>, key: K): (p: nat)
    requires key in Keys(kb, s)
    ensures p < |s| && !Free(kb, s[p]) && s[p].key == key
  {
    var p :| 0 <= p < |s| && !Free(kb, s[p]) && s[p].key == key; p
  }

  /** The finite map the slots stand for. */
  ghost function Contents<K, V>(kb: Keyable<K>, s: Slots<K, V>): map<K, V> {
    map key | key in Keys(kb, s) :: s[SlotOf(kb, s, key)].val
  }

  // ---------------------------------------------------------------- moving one entry

  /** The slot where the entry in slot `i` belongs: the first one, in probe order from its
      home, that is free or is `i` itself. */
  ghost predicate IsTarget<K, V>(kb: Keyable<K>, s: Slots<K, V>, i: nat, j: nat)
    requires i < |s| && j < |s|
  {
    && (j == i || Free(kb, s[j]))
    && forall q :: 0 <= q < |s| && q != j && OnPath(Home(kb, s[i].key, |s|), q, j) ==> q != i && !Free(kb, s[q])
  }

  function Moved<K, V>(kb: Keyable<K>, s: Slots<K, V>, i: nat, j: nat): Slots<K, V>
    requires i < |s| && j < |s|
  {
    if i == j then s else s[j := s[i]][i := Entry(kb.zero, s[i].val)]
  }

  /** `t` holds the entries of `s`, each key once, in as many slots. */
  ghost predicate SameEntries<K, V>(kb: Keyable<K>, s: Slots<K, V>, t: Slots<K, V>) {
    Distinct(kb, t) && Contents(kb, t) == Contents(kb, s) && |Used(kb, t)| == |Used(kb, s)|
  }

  lemma MoveKeepsContents<K, V>(kb: Keyable<K>, s: Slots<K, V>, i: nat, j: nat)
    requires kb.isZero(kb.zero)
    requires i < |s| && j < |s| && !Free(kb, s[i]) && (j == i || Free(kb, s[j]))
    requires Distinct(kb, s)
    ensures SameEntries(kb, s, Moved(kb, s, i, j))
  {
    var t := Moved(kb, s, i, j);
    if i != j {
      assert Used(kb, t) == Used(kb, s) - {i} + {j};
      forall key | key in Keys(kb, s) ensures key in Keys(kb, t) && Contents(kb, t)[key] == Contents(kb, s)[key] {
        var p := SlotOf(kb, s, key);
        var q := if p == i then j else p;
        assert t[q] == s[p];
      }
      forall key | key in Keys(kb, t) ensures key in Keys(kb, s) {
        var q := SlotOf(kb, t, key);
        assert t[q] == s[if q == j then i else q];
      }
    }
  }

  // ---------------------------------------------------------------- counting

  ghost function Interval(a: int, b: int): (r: set<int>)
    requires a <= b
    ensures forall p :: p in r <==> a <= p < b
    ensures |r| == b - a
    decreases b - a
  {
    if a == b then {} else Interval(a + 1, b) + {a}
  }

  lemma SubsetSize<T>(a: set<T>, b: set<T>)
    requires a <= b
    ensures |a| <= |b|
  {
    assert b == a + (b - a);
  }

  /** A range longer than the number of entries has a free slot. */
  lemma FreeSlotIn<K, V>(kb: Keyable<K>, s: Slots<K, V>, a: nat, b: nat) returns (f: nat)
    requires a <= b <= |s| && |Used(kb, s)| < b - a
    ensures a <= f < b && Free(kb, s[f])
  {
    if forall p :: a <= p < b ==> !Free(kb, s[p]) {
      SubsetSize(Interval(a, b), Used(kb, s));
      assert false;
    }
    f :| a <= f < b && Free(kb, s[f]);
  }

  // ---------------------------------------------------------------- first pass of grow

  /** The state of `Grow` before slot `i` of the old part `0..m` is examined.
      `s0` is the enlarged array the pass started from. */
  ghost predicate FirstPass<K, V>(kb: Keyable<K>, s0: Slots<K, V>, s: Slots<K, V>, m: nat, i: nat)
    requires 0 < m <= |s| == |s0| && i <= m
  {
    && (forall q :: i <= q < m ==> s[q] == s0[q])
    && forall p :: 0 <= p < |s| && !(i <= p < m) && !Free(kb, s[p]) ==>
         || (Reachable(kb, s, p) && Avoids(kb, s, p, i, m))
         || Spilled(kb, s, p, m)
  }

  /** The probe path of the entry in slot `p` has no slot in `lo..hi`. */
  ghost predicate Avoids<K, V>(kb: Keyable<K>, s: Slots<K, V>, p: nat, lo: nat, hi: nat)
    requires p < |s|
  {
    forall q :: lo <= q < hi ==> !OnPath(Home(kb, s[p].key, |s|), q, p)
  }

  /** An entry whose home is in the old part but which sits in the run that starts at `m`;
      holes may appear between its home and `m`. */
  ghost predicate Spilled<K, V>(kb: Keyable<K>, s: Slots<K, V>, p: nat, m: nat)
    requires p < |s|
  {
    && Home(kb, s[p].key, |s|) < m <= p
    && forall q :: m <= q <= p ==> !Free(kb, s[q])
  }

  lemma ModOfMultiple(h: nat, m: nat, n: nat)
    requires m > 0 && n > 0 && n % m == 0
    ensures (h % n) % m == h % m
  {
    var c, q, r := n / m, h / n, h % n;
    var q', r' := r / m, r % m;
    assert n * q == m * (c * q);
    assert m * (c * q) + m * q' == m * (c * q + q');
    ModUnique(h, m, c * q + q', r');
  }

  /** An entry that was wrapped in the old array keeps its home there; from that home to the
      end of the old part no slot is free. */
  lemma WrappedEntry<K, V>(kb: Keyable<K>, s0: Slots<K, V>, m: nat, i: nat)
    requires i < m <= |s0| && |s0| % m == 0
    requires AllReachable(kb, s0[..m]) && !Free(kb, s0[i])
    requires i < Home(kb, s0[i].key, |s0|) < m
    ensures forall q :: Home(kb, s0[i].key, |s0|) <= q < m ==> !Free(kb, s0[q])
  {
    var g := Home(kb, s0[i].key, |s0|);
    ModOfMultiple(kb.hash(s0[i].key), m, |s0|);
    ModUnique(g, m, 0, g);
    var before := s0[..m];
    assert Reachable(kb, before, i);
    forall q | g <= q < m ensures !Free(kb, s0[q]) {
      assert OnPath(g, q, i) && before[q] == s0[q];
    }
  }

  /** Where the first pass may put the entry of slot `i`. */
  lemma FirstPassTarget<K, V>(kb: Keyable<K>, s0: Slots<K, V>, s: Slots<K, V>, m: nat, i: nat, j: nat)
    requires i < m && 2 * m <= |s| == |s0| && |s0| % m == 0 && j < |s|
    requires FirstPass(kb, s0, s, m, i) && |Used(kb, s)| < m
    requires AllReachable(kb, s0[..m])
    requires !Free(kb, s[i]) && IsTarget(kb, s, i, j)
    ensures !(i < j < m)
    ensures Home(kb, s[i].key, |s|) >= m && j < Home(kb, s[i].key, |s|) ==> j <= i
    ensures Home(kb, s[i].key, |s|) <= i ==> Home(kb, s[i].key, |s|) <= j <= i
    ensures i < Home(kb, s[i].key, |s|) < m ==> j >= m
  {
    var g := Home(kb, s[i].key, |s|);
    assert OnPath(g, i, j) || (g <= i && g <= j <= i) || (g > i && (j >= g || j <= i));
    if i < g < m {
      WrappedEntry(kb, s0, m, i);
      var f := FreeSlotIn(kb, s, m, |s|);
      assert OnPath(g, f, j) || j >= m || g <= j < m;
    }
  }

  lemma FirstPassStep<K, V>(kb: Keyable<K>, s0: Slots<K, V>, s: Slots<K, V>, m: nat, i: nat, j: nat)
    requires kb.isZero(kb.zero)
    requires i < m && 2 * m <= |s| == |s0| && |s0| % m == 0 && j < |s|
    requires FirstPass(kb, s0, s, m, i) && |Used(kb, s)| < m
    requires AllReachable(kb, s0[..m])
    requires !Free(kb, s[i]) && IsTarget(kb, s, i, j) && Distinct(kb, s)
    ensures FirstPass(kb, s0, Moved(kb, s, i, j), m, i + 1)
    ensures SameEntries(kb, s, Moved(kb, s, i, j))
  {
    MoveKeepsContents(kb, s, i, j);
    FirstPassTarget(kb, s0, s, m, i, j);
    var g := Home(kb, s[i].key, |s|);
    var t := Moved(kb, s, i, j);
    forall p | 0 <= p < |t| && !(i + 1 <= p < m) && !Free(kb, t[p])
      ensures (Reachable(kb, t, p) && Avoids(kb, t, p, i + 1, m)) || Spilled(kb, t, p, m)
    {
      if p == j {
        assert t[j] == s[i];
        if i < g < m {
          forall q | m <= q <= p ensures !Free(kb, t[q]) {
            assert q != j ==> OnPath(g, q, j);
          }
          assert Spilled(kb, t, p, m);
        } else {
          assert Reachable(kb, t, p);
          assert Avoids(kb, t, p, i + 1, m);
        }
      } else {
        assert t[p] == s[p];
        if Spilled(kb, s, p, m) {
          assert Spilled(kb, t, p, m);
        } else {
          assert !OnPath(Home(kb, s[p].key, |s|), i, p);
          assert Reachable(kb, t, p);
        }
      }
    }
  }

  // ---------------------------------------------------------------- second pass of grow

  /** The state of `Grow` before slot `i` of the run `m..r` is examined; `r` is the free slot
      that ends the run. */
  ghost predicate SecondPass<K, V>(kb: Keyable<K>, s: Slots<K, V>, i: nat, r: nat)
    requires i <= r < |s|
  {
    && Free(kb, s[r])
    && (forall p :: i <= p < r ==> !Free(kb, s[p]) && Home(kb, s[p].key, |s|) <= p)
    && forall p :: 0 <= p < |s| && !(i <= p < r) && !Free(kb, s[p]) ==>
         Reachable(kb, s, p) && Avoids(kb, s, p, i, r)
  }

  lemma SecondPassStart<K, V>(kb: Keyable<K>, s0: Slots<K, V>, s: Slots<K, V>, m: nat) returns (r: nat)
    requires 0 < m && 2 * m <= |s| == |s0|
    requires FirstPass(kb, s0, s, m, m) && |Used(kb, s)| < m
    ensures m <= r < |s| && SecondPass(kb, s, m, r)
  {
    var f := FreeSlotIn(kb, s, m, |s|);
    var f0 := FreeSlotIn(kb, s, 0, m);
    r := m;
    while !Free(kb, s[r])
      invariant m <= r <= f
      decreases f - r
      invariant forall p :: m <= p < r ==> !Free(kb, s[p])
    {
      r := r + 1;
    }
    forall p | m <= p < r ensures Home(kb, s[p].key, |s|) <= p {
      assert Home(kb, s[p].key, |s|) > p ==> OnPath(Home(kb, s[p].key, |s|), f0, p);
    }
    forall p | 0 <= p < |s| && !(m <= p < r) && !Free(kb, s[p])
      ensures Reachable(kb, s, p) && Avoids(kb, s, p, m, r)
    {
      assert !Spilled(kb, s, p, m);
      assert !OnPath(Home(kb, s[p].key, |s|), r, p);
      assert !OnPath(Home(kb, s[p].key, |s|), f0, p);
    }
  }

  lemma SecondPassStep<K, V>(kb: Keyable<K>, s: Slots<K, V>, i: nat, r: nat, j: nat)
    requires kb.isZero(kb.zero)
    requires i < r < |s| && j < |s| && SecondPass(kb, s, i, r) && IsTarget(kb, s, i, j)
    requires !Free(kb, s[i]) && Distinct(kb, s)
    ensures SecondPass(kb, Moved(kb, s, i, j), i + 1, r)
    ensures SameEntries(kb, s, Moved(kb, s, i, j))
  {
    MoveKeepsContents(kb, s, i, j);
    var g := Home(kb, s[i].key, |s|);
    assert g <= j <= i by {
      assert OnPath(g, i, j) || g <= j <= i;
    }
    var t := Moved(kb, s, i, j);
    forall p | 0 <= p < |t| && !(i + 1 <= p < r) && !Free(kb, t[p])
      ensures Reachable(kb, t, p) && Avoids(kb, t, p, i + 1, r)
    {
      if p == j {
        assert t[j] == s[i];
      } else {
        assert t[p] == s[p];
        assert !OnPath(Home(kb, s[p].key, |s|), i, p);
      }
    }
  }

  // ---------------------------------------------------------------- lookup and insertion

  /** Position of slot `q` in the probe order that starts at `a`. */
  function Distance(a: nat, q: nat, n: nat): int {
    if a <= q then q - a else q - a + n
  }

  /** The first `c` slots probed for `key` are occupied by other keys. */
  ghost predicate Missed<K, V>(kb: Keyable<K>, s: Slots<K, V>, key: K, c: nat)
    requires |s| > 0
  {
    forall q :: 0 <= q < |s| && Distance(Home(kb, key, |s|), q, |s|) < c ==> !Free(kb, s[q]) && s[q].key != key
  }

  /** The slot probed after `c` steps. */
  function Probed(home: nat, c: nat, n: nat): (i: nat)
    requires home < n && c < n
    ensures i < n && Distance(home, i, n) == c
    ensures forall q :: 0 <= q < n && Distance(home, q, n) == c ==> q == i
  {
    if home + c < n then home + c else home + c - n
  }

  lemma MissedStep<K, V>(kb: Keyable<K>, s: Slots<K, V>, key: K, c: nat)
    requires c < |s| && Missed(kb, s, key, c)
    requires var i := Probed(Home(kb, key, |s|), c, |s|); !Free(kb, s[i]) && s[i].key != key
    ensures Missed(kb, s, key, c + 1)
  {
  }

  lemma MissedAll<K, V>(kb: Keyable<K>, s: Slots<K, V>, key: K)
    requires |s| > 0 && Missed(kb, s, key, |s|)
    ensures forall q :: 0 <= q < |s| ==> !Free(kb, s[q]) && s[q].key != key
    ensures key !in Keys(kb, s)
  {
    assert forall q :: 0 <= q < |s| ==> Distance(Home(kb, key, |s|), q, |s|) < |s|;
  }

  lemma AbsentAfterFree<K, V>(kb: Keyable<K>, s: Slots<K, V>, key: K, c: nat, i: nat)
    requires WellFormed(kb, s) && Missed(kb, s, key, c)
    requires i < |s| && Free(kb, s[i]) && Distance(Home(kb, key, |s|), i, |s|) == c
    ensures key !in Keys(kb, s)
  {
    forall p | 0 <= p < |s| && !Free(kb, s[p]) ensures s[p].key != key {
      assert Reachable(kb, s, p);
    }
  }

  /** Filling the free slot that ends the probe of an absent key adds exactly that key. */
  lemma InsertKeeps<K, V>(kb: Keyable<K>, s: Slots<K, V>, key: K, c: nat, i: nat)
    requires WellFormed(kb, s) && Missed(kb, s, key, c) && !kb.isZero(key)
    requires i < |s| && Free(kb, s[i]) && Distance(Home(kb, key, |s|), i, |s|) == c
    ensures var t := s[i := Entry(key, s[i].val)];
      && WellFormed(kb, t)
      && Contents(kb, t) == Contents(kb, s)[key := s[i].val]
      && |Used(kb, t)| == |Used(kb, s)| + 1
  {
    AbsentAfterFree(kb, s, key, c, i);
    var t := s[i := Entry(key, s[i].val)];
    assert Used(kb, t) == Used(kb, s) + {i};
    assert forall p :: 0 <= p < |s| && !Free(kb, s[p]) ==> s[p].key in Keys(kb, s);
    InsertKeepsPaths(kb, s, key, c, i);
    InsertAddsKey(kb, s, key, i);
  }

  lemma InsertKeepsPaths<K, V>(kb: Keyable<K>, s: Slots<K, V>, key: K, c: nat, i: nat)
    requires AllReachable(kb, s) && |s| > 0 && Missed(kb, s, key, c) && !kb.isZero(key)
    requires i < |s| && Free(kb, s[i]) && Distance(Home(kb, key, |s|), i, |s|) == c
    ensures AllReachable(kb, s[i := Entry(key, s[i].val)])
  {
    var t := s[i := Entry(key, s[i].val)];
    forall p | 0 <= p < |t| && !Free(kb, t[p]) ensures Reachable(kb, t, p) {
      assert p != i ==> Reachable(kb, s, p);
    }
  }

  lemma InsertAddsKey<K, V>(kb: Keyable<K>, s: Slots<K, V>, key: K, i: nat)
    requires i < |s| && Free(kb, s[i]) && !kb.isZero(key)
    requires Distinct(kb, s) && key !in Keys(kb, s)
    ensures var t := s[i := Entry(key, s[i].val)];
      Distinct(kb, t) && Contents(kb, t) == Contents(kb, s)[key := s[i].val]
  {
    var t := s[i := Entry(key, s[i].val)];
    assert forall p :: 0 <= p < |s| && !Free(kb, s[p]) ==> s[p].key in Keys(kb, s);
    assert t[i].key == key;
    forall k | k in Keys(kb, s) ensures k in Keys(kb, t) && Contents(kb, t)[k] == Contents(kb, s)[k] {
      var p := SlotOf(kb, s, k);
      assert t[p] == s[p];
    }
    forall k | k in Keys(kb, t) ensures k == key || k in Keys(kb, s) {
      var p := SlotOf(kb, t, k);
      assert p != i ==> t[p] == s[p];
    }
  }

  lemma WriteKeeps<K, V>(kb: Keyable<K>, s: Slots<K, V>, i: nat, v: V)
    requires WellFormed(kb, s) && i < |s| && !Free(kb, s[i])
    ensures var t := s[i := Entry(s[i].key, v)];
      && WellFormed(kb, t)
      && Contents(kb, t) == Contents(kb, s)[s[i].key := v]
      && Used(kb, t) == Used(kb, s)
  {
    var t := s[i := Entry(s[i].key, v)];
    forall p | 0 <= p < |t| && !Free(kb, t[p]) ensures Reachable(kb, t, p) {
      assert Reachable(kb, s, p);
    }
    forall k | k in Keys(kb, s) ensures k in Keys(kb, t) {
      assert t[SlotOf(kb, s, k)].key == k;
    }
    forall k | k in Keys(kb, t) ensures k in Keys(kb, s) {
      assert s[SlotOf(kb, t, k)].key == k;
    }
  }

  /** The entry count is the size of the map. */
  lemma {:induction false} KeysSize<K, V>(kb: Keyable<K>, s: Slots<K, V>)
    requires Distinct(kb, s)
    ensures |Keys(kb, s)| == |Used(kb, s)|
    decreases |s|
  {
    if s != [] {
      var n := |s| - 1;
      var t := s[..n];
      assert Distinct(kb, t) by {
        forall p, q | 0 <= p < |t| && 0 <= q < |t| && !Free(kb, t[p]) && !Free(kb, t[q]) && t[p].key == t[q].key
          ensures p == q
        {
          assert t[p] == s[p] && t[q] == s[q];
        }
      }
      KeysSize(kb, t);
      assert forall p :: 0 <= p < n ==> t[p] == s[p];
      if Free(kb, s[n]) {
        assert Used(kb, s) == Used(kb, t);
        assert Keys(kb, s) == Keys(kb, t);
      } else {
        assert Used(kb, s) == Used(kb, t) + {n};
        assert Keys(kb, s) == Keys(kb, t) + {s[n].key};
        assert s[n].key !in Keys(kb, t);
      }
    } else {
      assert Keys(kb, s) == {} && Used(kb, s) == {};
    }
  }

  /** Appending free slots to the array changes neither contents nor count. */
  lemma PaddingKeeps<K, V>(kb: Keyable<K>, s: Slots<K, V>, s0: Slots<K, V>)
    requires Distinct(kb, s) && |s| <= |s0| && s0[..|s|] == s
    requires forall p :: |s| <= p < |s0| ==> Free(kb, s0[p])
    ensures Distinct(kb, s0) && Contents(kb, s0) == Contents(kb, s) && Used(kb, s0) == Used(kb, s)
  {
    assert forall p :: 0 <= p < |s| ==> s0[p] == s[p];
    forall k | k in Keys(kb, s) ensures k in Keys(kb, s0) {
      assert s0[SlotOf(kb, s, k)].key == k;
    }
    forall k | k in Keys(kb, s0) ensures k in Keys(kb, s) {
      assert s[SlotOf(kb, s0, k)].key == k;
    }
  }

  // ---------------------------------------------------------------- iteration

  /** The entries in slot order, as `Table0Iter` yields them. */
  function Occupied<K, V>(kb: Keyable<K>, s: Slots<K, V>): Slots<K, V> {
    if s == [] then [] else
      var t := Occupied(kb, s[..|s| - 1]);
      if Free(kb, s[|s| - 1]) then t else t + [s[|s| - 1]]
  }

  lemma {:induction false} OccupiedIsContents<K, V>(kb: Keyable<K>, s: Slots<K, V>)
    ensures forall e :: e in Occupied(kb, s) <==> exists p :: 0 <= p < |s| && s[p] == e && !Free(kb, s[p])
    ensures |Occupied(kb, s)| == |Used(kb, s)|
    decreases |s|
  {
    if s == [] {
      assert Used(kb, s) == {};
    } else {
      var n := |s| - 1;
      var t := s[..n];
      OccupiedIsContents(kb, t);
      assert forall p :: 0 <= p < n ==> s[p] == t[p];
      assert Used(kb, s) == Used(kb, t) + (if Free(kb, s[n]) then {} else {n});
    }
  }

  // ---------------------------------------------------------------- capacities

  function ShiftLeft(n: nat, shift: nat): (r: nat)
    ensures shift > 0 && n > 0 ==> r >= 2 * n
    ensures n > 0 ==> r % n == 0
    ensures IsPow2(n) ==> IsPow2(r)
    ensures r >= n
    decreases shift
  {
    if shift == 0 then n else
      var r := 2 * ShiftLeft(n, shift - 1);
      DoubleMod(ShiftLeft(n, shift - 1), n);
      r
  }

  lemma DoubleMod(x: nat, n: nat)
    ensures n > 0 && x % n == 0 ==> (2 * x) % n == 0
  {
    if n > 0 && x % n == 0 {
      assert 2 * x == n * (2 * (x / n));
      ModUnique(2 * x, n, 2 * (x / n), 0);
    }
  }

  function NextPow2(n: nat): (r: nat)
    ensures r >= n && r >= 1 && IsPow2(r)
    ensures n > 1 ==> r < 2 * n
  {
    if n <= 1 then 1 else
      var half := NextPow2((n + 1) / 2);
      assert (2 * half) / 2 == half && (2 * half) % 2 == 0;
      2 * half
  }

  // ---------------------------------------------------------------- the table

  datatype ProbeEnd = Hit(slot: nat) | Vacant(slot: nat) | Exhausted

  lemma Overwritten<K, V>(m: map<K, V>, key: K, a: V, b: V)
    ensures m[key := a][key := b] == m[key := b]
  {
  }

  class Table0<K(==), V> {
    const kb: Keyable<K>
    /** What the value part of a zeroed slot holds; never observable through the map. */
    const blank: V
    var entries: array<Entry<K, V>>
    var len: nat

    ghost predicate Valid()
      reads this, entries
    {
      && WellFormed(kb, entries[..])
      && len == |Used(kb, entries[..])|
      && entries.Length >= 8 && IsPow2(entries.Length)
    }

    ghost function Map(): map<K, V>
      reads this, entries
    {
      Contents(kb, entries[..])
    }

    constructor (kb: Keyable<K>, blank: V, capacity: nat)
      requires kb.isZero(kb.zero)
      ensures Valid() && fresh(entries)
      ensures this.kb == kb && len == 0 && Map() == map[]
      ensures entries.Length >= capacity
    {
      this.kb, this.blank := kb, blank;
      var n := if NextPow2(capacity) < 8 then 8 else NextPow2(capacity);
      entries := new Entry<K, V>[n](_ => Entry(kb.zero, blank));
      len := 0;
      new;
      assert Used(kb, entries[..]) == {} && Keys(kb, entries[..]) == {};
    }

    /** The probe loop shared by `get_with_hash` and `insert_with_hash`. */
    method Probe(key: K, hash: nat) returns (r: ProbeEnd)
      requires Valid() && !kb.isZero(key) && hash == kb.hash(key)
      ensures r.Hit? ==> r.slot < entries.Length && !Free(kb, entries[r.slot]) && entries[r.slot].key == key
      ensures r.Vacant? ==>
        && r.slot < entries.Length && Free(kb, entries[r.slot])
        && Missed(kb, entries[..], key, Distance(Home(kb, key, entries.Length), r.slot, entries.Length))
      ensures r.Exhausted? ==> key !in Map() && forall p :: 0 <= p < entries.Length ==> !Free(kb, entries[p])
    {
      var n := entries.Length;
      var index := BitAnd(hash, n - 1);
      MaskIsMod(hash, n);
      var c := 0;
      while c < n
        invariant 0 <= c <= n
        invariant Missed(kb, entries[..], key, c)
      {
        var i := Probed(index, c, n);
        if kb.isZero(entries[i].key) {
          return Vacant(i);
        }
        if entries[i].key == key {
          return Hit(i);
        }
        MissedStep(kb, entries[..], key, c);
        c := c + 1;
      }
      MissedAll(kb, entries[..], key);
      return Exhausted;
    }

    /** `get`: the slot of the key, or none when the key is absent. */
    method Get(key: K, hash: nat) returns (slot: int)
      requires Valid() && !kb.isZero(key) && hash == kb.hash(key)
      ensures slot >= 0 <==> key in Map()
      ensures slot >= 0 ==> slot < entries.Length && entries[slot] == Entry(key, Map()[key]) && !Free(kb, entries[slot])
    {
      var r := Probe(key, hash);
      match r
      case Hit(i) =>
        slot := i;
      case Vacant(i) =>
        AbsentAfterFree(kb, entries[..], key, Distance(Home(kb, key, entries.Length), i, entries.Length), i);
        slot := -1;
      case Exhausted =>
        slot := -1;
    }

    /** `insert_with_hash`: `Overflow` stands for the panic, which happens exactly when the key
        is absent and the table is full. */
    method Insert(key: K, hash: nat) returns (r: InsertResult)
      requires Valid() && !kb.isZero(key) && hash == kb.hash(key)
      modifies this`len, entries
      ensures Valid()
      ensures r.Present? <==> key in old(Map())
      ensures r.Overflow? <==> key !in old(Map()) && old(len) == entries.Length
      ensures !r.Inserted? ==> Map() == old(Map()) && len == old(len)
      ensures r.Inserted? ==> len == old(len) + 1 && key in Map() && Map() == old(Map())[key := Map()[key]]
      ensures !r.Overflow? ==> r.slot < entries.Length && entries[r.slot].key == key
    {
      var s := entries[..];
      var e := Probe(key, hash);
      match e
      case Hit(i) =>
        assert s[i].key in Keys(kb, s);
        r := Present(i);
      case Vacant(i) =>
        ghost var c := Distance(Home(kb, key, entries.Length), i, entries.Length);
        AbsentAfterFree(kb, s, key, c, i);
        InsertKeeps(kb, s, key, c, i);
        len := len + 1;
        entries[i] := entries[i].(key := key);
        assert entries[..] == s[i := Entry(key, s[i].val)];
        SubsetSize(Used(kb, s), Interval(0, |s|) - {i});
        r := Inserted(i);
      case Exhausted =>
        assert Used(kb, s) == Interval(0, |s|);
        r := Overflow;
    }

    /** Writing the value of an occupied slot, as callers do right after an insert. */
    method Write(slot: nat, v: V)
      requires Valid() && slot < entries.Length && !kb.isZero(entries[slot].key)
      modifies entries
      ensures Valid()
      ensures Map() == old(Map())[old(entries[slot].key) := v]
    {
      var s := entries[..];
      WriteKeeps(kb, s, slot, v);
      entries[slot] := entries[slot].(val := v);
      assert entries[..] == s[slot := Entry(s[slot].key, v)];
    }

    /** One iteration of either loop of `grow`: move the entry of slot `i` to the first free slot
        on its probe path, unless slot `i` itself comes first. */
    method Reseat(i: nat) returns (ghost j: nat)
      requires i < entries.Length && IsPow2(entries.Length) && !kb.isZero(entries[i].key)
      modifies entries
      ensures j < entries.Length && IsTarget(kb, old(entries[..]), i, j)
      ensures entries[..] == Moved(kb, old(entries[..]), i, j)
    {
      var n := entries.Length;
      var index := BitAnd(kb.hash(entries[i].key), n - 1);
      MaskIsMod(kb.hash(entries[i].key), n);
      assert Distance(index, i, n) < n;
      var c := 0;
      while c < n
        invariant 0 <= c <= n
        invariant forall q :: 0 <= q < n && Distance(index, q, n) < c ==> q != i && !Free(kb, entries[q])
        invariant entries[..] == old(entries[..])
      {
        var k := if index + c < n then index + c else index + c - n;
        if k == i {
          j := i;
          return;
        }
        if kb.isZero(entries[k].key) {
          entries[k] := entries[i];
          entries[i] := entries[i].(key := kb.zero);
          j := k;
          return;
        }
        c := c + 1;
      }
      assert false;
    }

    /** The loop of `grow` over the old slots `0..m`. */
    method MainPass(m: nat, ghost s0: Slots<K, V>)
      requires 0 < m && 2 * m <= |s0| && |s0| % m == 0 && IsPow2(|s0|) && |Used(kb, s0)| < m
      requires s0 == entries[..] && kb.isZero(kb.zero) && Distinct(kb, s0) && AllReachable(kb, s0[..m])
      requires forall p :: m <= p < |s0| ==> Free(kb, s0[p])
      modifies entries
      ensures FirstPass(kb, s0, entries[..], m, m)
      ensures SameEntries(kb, s0, entries[..])
    {
      for i := 0 to m
        invariant FirstPass(kb, s0, entries[..], m, i)
        invariant SameEntries(kb, s0, entries[..])
      {
        if kb.isZero(entries[i].key) {
          continue;
        }
        ghost var before := entries[..];
        ghost var j := Reseat(i);
        FirstPassStep(kb, s0, before, m, i, j);
      }
    }

    /** The loop of `grow` over the run of entries that starts at the old end `m`. */
    method TailPass(m: nat, ghost r: nat)
      requires kb.isZero(kb.zero) && Distinct(kb, entries[..]) && IsPow2(entries.Length)
      requires m <= r < entries.Length && SecondPass(kb, entries[..], m, r)
      modifies entries
      ensures WellFormed(kb, entries[..]) && Contents(kb, entries[..]) == Contents(kb, old(entries[..]))
      ensures |Used(kb, entries[..])| == |Used(kb, old(entries[..]))|
    {
      for i := m to entries.Length
        invariant i <= r && SecondPass(kb, entries[..], i, r)
        invariant SameEntries(kb, old(entries[..]), entries[..])
      {
        if kb.isZero(entries[i].key) {
          break;
        }
        ghost var before := entries[..];
        ghost var j := Reseat(i);
        SecondPassStep(kb, before, i, r, j);
      }
    }

    /** `grow`: enlarge the array by `2^shift`, then move every entry to its place, in place. */
    method Grow(shift: nat)
      requires Valid() && shift > 0 && len < entries.Length
      modifies this`entries
      ensures Valid() && fresh(entries)
      ensures entries.Length == ShiftLeft(old(entries.Length), shift)
      ensures Map() == old(Map())
    {
      var m := entries.Length;
      var n := ShiftLeft(m, shift);
      ghost var s := entries[..];
      var bigger := new Entry<K, V>[n](_ => Entry(kb.zero, blank));
      forall p | 0 <= p < m {
        bigger[p] := entries[p];
      }
      entries := bigger;
      ghost var s0 := entries[..];
      assert s0[..m] == s;
      PaddingKeeps(kb, s, s0);
      MainPass(m, s0);
      ghost var r := SecondPassStart(kb, s0, entries[..], m);
      TailPass(m, r);
    }

    /** `check_grow`: afterwards one more entry still leaves the table at most half full. */
    method CheckGrow()
      requires Valid() && len < entries.Length
      modifies this`entries
      ensures Valid() && Map() == old(Map())
      ensures entries == old(entries) || fresh(entries)
      ensures 2 * (len + 1) <= entries.Length
    {
      if (len + 1) * 2 > entries.Length {
        if entries.Length < 0x40_0000 {
          Grow(2);
        } else {
          Grow(1);
        }
      }
    }

    /** `iter`: every entry of the map, once. */
    method Iter() returns (out: Slots<K, V>)
      requires Valid()
      ensures out == Occupied(kb, entries[..])
      ensures |out| == len
      ensures forall e :: e in out ==> !kb.isZero(e.key) && e.key in Map() && Map()[e.key] == e.val
      ensures forall key :: key in Map() ==> Entry(key, Map()[key]) in out
    {
      out := [];
      for i := 0 to entries.Length
        invariant out == Occupied(kb, entries[..i])
      {
        assert entries[..i + 1][..i] == entries[..i];
        if !kb.isZero(entries[i].key) {
          out := out + [entries[i]];
        }
      }
      assert entries[..entries.Length] == entries[..];
      OccupiedIsContents(kb, entries[..]);
    }

    method IterKeys() returns (keys: seq<K>)
      requires Valid()
      ensures |keys| == len
      ensures forall key :: key in keys ==> !kb.isZero(key)
      ensures (set key | key in keys) == Map().Keys
    {
      var es := Iter();
      keys := EntryKeys(es, Map());
      assert forall j :: 0 <= j < |es| ==> es[j] in es;
    }

    /** The sequence every table of the crate runs to insert: `check_grow`, `insert_with_hash`, and
        the write of the value when the entry is new.  The overflow panic cannot be reached. */
    method Upsert(key: K, hash: nat, v: V) returns (present: bool)
      requires Valid() && !kb.isZero(key) && hash == kb.hash(key)
      requires len < entries.Length
      modifies this, entries
      ensures Valid() && 2 * len <= entries.Length
      ensures entries == old(entries) || fresh(entries)
      ensures present <==> key in old(Map())
      ensures Map() == if present then old(Map()) else old(Map())[key := v]
    {
      CheckGrow();
      var r := Insert(key, hash);
      match r
      case Inserted(slot) =>
        Overwritten(old(Map()), key, Map()[key], v);
        Write(slot, v);
        present := false;
      case Present(_) =>
        present := true;
      case Overflow =>
        assert false;
    }
  }

  method EntryKeys<K, V>(es: Slots<K, V>, ghost m: map<K, V>) returns (keys: seq<K>)
    requires forall e :: e in es ==> e.key in m
    requires forall key :: key in m ==> Entry(key, m[key]) in es
    ensures |keys| == |es| && forall j :: 0 <= j < |es| ==> keys[j] == es[j].key
    ensures forall key :: key in keys <==> key in m
  {
    keys := [];
    for i := 0 to |es|
      invariant |keys| == i
      invariant forall j :: 0 <= j < i ==> keys[j] == es[j].key
    {
      keys := keys + [es[i].key];
    }
    forall key | key in m ensures key in keys {
      var j :| 0 <= j < |es| && es[j] == Entry(key, m[key]);
      assert keys[j] == key;
    }
    assert forall j :: 0 <= j < |es| ==> es[j] in es;
  }

  lemma TableSize<K, V>(t: Table0<K, V>)
    requires t.Valid()
    ensures t.len == |t.Map()|
    ensures forall k :: k in t.Map() ==> !t.kb.isZero(k)
  {
    KeysSize(t.kb, t.entries[..]);
    assert t.Map().Keys == Keys(t.kb, t.entries[..]);
  }

  /** The growing loop of `set_merge`: make room for `extra` more entries. */
  method Reserve<K(==), V>(t: Table0<K, V>, extra: nat)
    requires t.Valid() && t.len < t.entries.Length
    modifies t`entries
    ensures t.Valid() && t.Map() == old(t.Map())
    ensures t.entries == old(t.entries) || fresh(t.entries)
    ensures (t.len + extra) * 2 <= t.entries.Length
  {
    while (t.len + extra) * 2 > t.entries.Length
      invariant t.Valid() && t.Map() == old(t.Map())
      invariant t.entries == old(t.entries) || fresh(t.entries)
      invariant t.len < t.entries.Length
      decreases (t.len + extra) * 2 - t.entries.Length
    {
      if t.entries.Length < 0x40_0000 {
        t.Grow(2);
      } else {
        t.Grow(1);
      }
    }
  }

  /** `set_merge` on tables without values: the union of the two key sets. */
  method MergeTables<K(==)>(self: Table0<K, ()>, other: Table0<K, ()>)
    requires self.Valid() && other.Valid() && self.kb == other.kb
    requires self != other && self.entries != other.entries
    requires self.len < self.entries.Length
    modifies self, self.entries
    ensures self.Valid() && 2 * self.len <= self.entries.Length
    ensures self.entries == old(self.entries) || fresh(self.entries)
    ensures self.Map().Keys == old(self.Map()).Keys + other.Map().Keys
  {
    var theirs := other.IterKeys();
    Reserve(self, other.len);
    InsertKeys(self, theirs);
  }

  /** The inserting loop of `set_merge`. */
  method InsertKeys<K(==)>(t: Table0<K, ()>, keys: seq<K>)
    requires t.Valid() && (t.len + |keys|) * 2 <= t.entries.Length
    requires forall k :: k in keys ==> !t.kb.isZero(k)
    modifies t`len, t.entries
    ensures t.Valid() && 2 * t.len <= t.entries.Length
    ensures t.Map().Keys == old(t.Map().Keys) + (set k | k in keys)
  {
    for i := 0 to |keys|
      invariant t.Valid() && t.len <= old(t.len) + i
      invariant t.Map().Keys == old(t.Map().Keys) + (set k | k in keys[..i])
    {
      var r := t.Insert(keys[i], t.kb.hash(keys[i]));
      assert !r.Overflow?;
      assert keys[..i + 1] == keys[..i] + [keys[i]];
    }
    assert keys[..|keys|] == keys;
  }
}
