/** Constant and non-decreasing sequences, and concatenation of a sequence of sequences. */
module Sequences {
  function Repeat<T>(x: T, n: nat): (s: seq<T>)
    ensures |s| == n && forall i :: 0 <= i < n ==> s[i] == x
  {
    if n == 0 then [] else [x] + Repeat(x, n - 1)
  }

  ghost predicate Monotone(s: seq<int>) {
    forall i, j :: 0 <= i <= j < |s| ==> s[i] <= s[j]
  }

  function Flatten<T>(ss: seq<seq<T>>): seq<T> {
    if ss == [] then [] else ss[0] + Flatten(ss[1..])
  }

  lemma {:induction false} FlattenAppend<T>(a: seq<seq<T>>, b: seq<seq<T>>)
    ensures Flatten(a + b) == Flatten(a) + Flatten(b)
  {
    if a == [] {
      assert a + b == b;
    } else {
      assert (a + b)[1..] == a[1..] + b;
      FlattenAppend(a[1..], b);
    }
  }

  lemma FlattenSplit<T>(ss: seq<seq<T>>, lo: nat, mid: nat, hi: nat)
    requires lo <= mid <= hi <= |ss|
    ensures Flatten(ss[lo..hi]) == Flatten(ss[lo..mid]) + Flatten(ss[mid..hi])
  {
    assert ss[lo..hi] == ss[lo..mid] + ss[mid..hi];
    FlattenAppend(ss[lo..mid], ss[mid..hi]);
  }

  lemma FlattenOne<T>(ss: seq<seq<T>>, i: nat)
    requires i < |ss|
    ensures Flatten(ss[i..i + 1]) == ss[i]
  {
    assert ss[i..i + 1] == [ss[i]];
    assert Flatten([ss[i]]) == ss[i] + Flatten([ss[i]][1..]);
  }

  lemma {:induction false} FlattenSingles<T>(ss: seq<seq<T>>, xs: seq<T>)
    requires |ss| == |xs| && forall i :: 0 <= i < |xs| ==> ss[i] == [xs[i]]
    ensures Flatten(ss) == xs
  {
    if ss != [] {
      FlattenSingles(ss[1..], xs[1..]);
      assert xs == [xs[0]] + xs[1..];
    }
  }

  lemma {:induction false} FlattenNothing<T>(ss: seq<seq<T>>)
    requires forall i :: 0 <= i < |ss| ==> ss[i] == []
    ensures Flatten(ss) == []
  {
    if ss != [] {
      FlattenNothing(ss[1..]);
    }
  }
}
