/** Arrow offsets (offset.rs; the Variable-size List Layout section of the Arrow Columnar Format):
    a non-empty, non-negative, non-decreasing vector of `i32` or `i64`. */
module Offsets {
  import opened Bits
  import opened Sequences

  const I32_MAX: nat := 0x7FFF_FFFF
  const USIZE_MAX: nat := 0xFFFF_FFFF_FFFF_FFFF

  // ---------------------------------------------------------------- offsets and lengths

  ghost predicate IsOffsets(s: seq<int>, max: nat) {
    s != [] && Monotone(s) && 0 <= s[0] && s[|s| - 1] <= max
  }

  function Sum(lengths: seq<nat>): nat {
    if lengths == [] then 0 else lengths[0] + Sum(lengths[1..])
  }

  /** The lengths between consecutive offsets. */
  ghost function Lengths(s: seq<int>): (r: seq<int>)
    ensures |r| == if s == [] then 0 else |s| - 1
  {
    seq(if s == [] then 0 else |s| - 1, i requires 0 <= i < |s| - 1 => s[i + 1] - s[i])
  }

  /** The offsets that continue `last` by these lengths. */
  function Partial(last: int, lengths: seq<nat>): (r: seq<int>)
    ensures |r| == |lengths|
    decreases |lengths|
  {
    if lengths == [] then [] else [last + lengths[0]] + Partial(last + lengths[0], lengths[1..])
  }

  function Popped<T>(lengths: seq<T>): seq<T> {
    if lengths == [] then [] else lengths[..|lengths| - 1]
  }

  lemma PushOffsets(s: seq<int>, v: int, max: nat)
    requires IsOffsets(s, max) && s[|s| - 1] <= v <= max
    ensures IsOffsets(s + [v], max)
  {
  }

  lemma PushLength(s: seq<int>, v: int)
    requires s != []
    ensures Lengths(s + [v]) == Lengths(s) + [v - s[|s| - 1]]
  {
    assert Lengths(s + [v]) == Lengths(s) + [v - s[|s| - 1]];
  }

  lemma Assoc<T>(a: seq<T>, b: seq<T>, c: seq<T>)
    ensures a + b + c == a + (b + c)
  {
  }

  /** Appending the partial sums of some lengths appends exactly those lengths. */
  lemma {:induction false} PartialLengths(s: seq<int>, lengths: seq<nat>)
    requires s != []
    ensures Lengths(s + Partial(s[|s| - 1], lengths)) == Lengths(s) + lengths
    decreases |lengths|
  {
    if lengths == [] {
      assert s + [] == s;
    } else {
      var v := s[|s| - 1] + lengths[0];
      PushLength(s, v);
      PartialLengths(s + [v], lengths[1..]);
      Assoc(s, [v], Partial(v, lengths[1..]));
      Assoc(Lengths(s), [lengths[0]], lengths[1..]);
      assert lengths == [lengths[0]] + lengths[1..];
    }
  }

  /** ... and keeps the invariants, as long as the last of them is within the bound. */
  lemma {:induction false} PartialOffsets(s: seq<int>, lengths: seq<nat>, max: nat)
    requires IsOffsets(s, max) && s[|s| - 1] + Sum(lengths) <= max
    ensures IsOffsets(s + Partial(s[|s| - 1], lengths), max)
    decreases |lengths|
  {
    if lengths == [] {
      assert s + [] == s;
    } else {
      var v := s[|s| - 1] + lengths[0];
      PartialOffsets(s + [v], lengths[1..], max);
      Assoc(s, [v], Partial(v, lengths[1..]));
    }
  }

  // ---------------------------------------------------------------- machine integers

  /** A two's-complement integer whose largest value is `max`. */
  function Wrap(v: int, max: nat): int {
    (v + max + 1) % (2 * (max + 1)) - (max + 1)
  }

  lemma WrapInRange(v: int, max: nat)
    requires 0 <= v <= max
    ensures Wrap(v, max) == v
  {
    ModUnique(v + max + 1, 2 * (max + 1), 0, v + max + 1);
  }

  lemma WrapOutOfRange(v: int, max: nat)
    ensures -(max as int) - 1 <= v < 0 ==> Wrap(v, max) == v
    ensures max < v <= 2 * max + 1 ==> Wrap(v, max) == v - 2 * (max + 1)
    ensures -(max as int) - 1 <= Wrap(v, max) <= max
  {
    var m := 2 * (max + 1);
    if -(max as int) - 1 <= v < 0 { ModUnique(v + max + 1, m, 0, v + max + 1); }
    if max < v <= 2 * max + 1 { ModUnique(v + max + 1, m, 1, v - max - 1); }
  }

  /** A step of the extend loop: a wrapping cast and a wrapping addition. */
  function WrappingAdd(max: nat): (int, nat) -> int {
    (offset, length) => Wrap(offset + Wrap(length, max), max)
  }

  /** The offsets the extend loop computes with a given addition. */
  function Folded(last: int, lengths: seq<nat>, add: (int, nat) -> int): (r: seq<int>)
    ensures |r| == |lengths|
    decreases |lengths|
  {
    if lengths == [] then [] else [add(last, lengths[0])] + Folded(add(last, lengths[0]), lengths[1..], add)
  }

  function Wrapped(last: int, lengths: seq<nat>, max: nat): seq<int> {
    Folded(last, lengths, WrappingAdd(max))
  }

  lemma {:induction false} FoldedIsPartial(last: int, lengths: seq<nat>, max: nat, add: (int, nat) -> int)
    requires forall o: int, n: nat :: 0 <= o && o + n <= max ==> add(o, n) == o + n
    requires 0 <= last && last + Sum(lengths) <= max
    ensures Folded(last, lengths, add) == Partial(last, lengths)
    decreases |lengths|
  {
    if lengths != [] {
      FoldedIsPartial(last + lengths[0], lengths[1..], max, add);
    }
  }

  /** One check of the total after the loop suffices: no partial sum has wrapped. */
  lemma WrappedIsPartial(last: int, lengths: seq<nat>, max: nat)
    requires 0 <= last && last + Sum(lengths) <= max
    ensures Wrapped(last, lengths, max) == Partial(last, lengths)
  {
    forall o: int, n: nat | 0 <= o && o + n <= max ensures WrappingAdd(max)(o, n) == o + n {
      WrapInRange(n, max);
      WrapInRange(o + n, max);
    }
    FoldedIsPartial(last, lengths, max, WrappingAdd(max));
  }

  /** A length as the offset type holds it. */
  function Cast(max: nat): nat -> int {
    length => Wrap(length, max)
  }

  function CastSum(lengths: seq<nat>, cast: nat -> int): int {
    if lengths == [] then 0 else cast(lengths[0]) + CastSum(lengths[1..], cast)
  }

  /** No length turns negative in the cast, and the cast lengths fit. */
  ghost predicate CastsFit(last: int, lengths: seq<nat>, max: nat, cast: nat -> int) {
    (forall i :: 0 <= i < |lengths| ==> cast(lengths[i]) >= 0) && last + CastSum(lengths, cast) <= max
  }

  lemma {:induction false} CastSumNat(lengths: seq<nat>, cast: nat -> int)
    requires forall i :: 0 <= i < |lengths| ==> cast(lengths[i]) >= 0
    ensures CastSum(lengths, cast) >= 0
  {
    if lengths != [] { CastSumNat(lengths[1..], cast); }
  }

  lemma {:induction false} CastSumExact(lengths: seq<nat>, cast: nat -> int)
    requires forall i :: 0 <= i < |lengths| ==> cast(lengths[i]) == lengths[i]
    ensures CastSum(lengths, cast) == Sum(lengths)
  {
    if lengths != [] { CastSumExact(lengths[1..], cast); }
  }

  lemma CastsFitStep(last: int, lengths: seq<nat>, max: nat, cast: nat -> int)
    requires lengths != []
    ensures var w := cast(lengths[0]);
      CastsFit(last, lengths, max, cast) <==> 0 <= w && last + w <= max && CastsFit(last + w, lengths[1..], max, cast)
  {
    var rest := lengths[1..];
    assert lengths == [lengths[0]] + rest;
    assert forall i :: 0 <= i < |rest| ==> rest[i] == lengths[i + 1];
    if forall i :: 0 <= i < |rest| ==> cast(rest[i]) >= 0 {
      CastSumNat(rest, cast);
    }
    if CastsFit(last + cast(lengths[0]), rest, max, cast) && cast(lengths[0]) >= 0 {
      forall i | 0 <= i < |lengths| ensures cast(lengths[i]) >= 0 { assert i > 0 ==> lengths[i] == rest[i - 1]; }
    }
  }

  /** An offset below its predecessor spoils every extension. */
  lemma BrokenStaysBroken(s: seq<int>, v: int, more: seq<int>, max: nat)
    requires s != [] && v < s[|s| - 1]
    ensures !IsOffsets(s + ([v] + more), max)
  {
    var t := s + ([v] + more);
    assert t[|s| - 1] == s[|s| - 1] && t[|s|] == v;
  }

  /** A wrapping addition is exact when the cast length is not negative and fits, and otherwise falls
      below the offset it started from. */
  ghost predicate FallsWhenUnfit(max: nat, cast: nat -> int, add: (int, nat) -> int) {
    forall o: int, n: nat :: 0 <= o <= max ==>
      if 0 <= cast(n) && o + cast(n) <= max then add(o, n) == o + cast(n) else add(o, n) < o
  }

  lemma WrappingFalls(max: nat)
    ensures FallsWhenUnfit(max, Cast(max), WrappingAdd(max))
  {
    forall o: int, n: nat | 0 <= o <= max
      ensures if 0 <= Cast(max)(n) && o + Cast(max)(n) <= max then WrappingAdd(max)(o, n) == o + Cast(max)(n) else WrappingAdd(max)(o, n) < o
    {
      var w := Wrap(n, max);
      WrapOutOfRange(n, max);
      WrapOutOfRange(o + w, max);
      if 0 <= o + w <= max { WrapInRange(o + w, max); }
    }
  }

  lemma {:induction false} FoldedIsValidIff(s: seq<int>, lengths: seq<nat>, max: nat, cast: nat -> int, add: (int, nat) -> int)
    requires IsOffsets(s, max) && FallsWhenUnfit(max, cast, add)
    ensures IsOffsets(s + Folded(s[|s| - 1], lengths, add), max) <==> CastsFit(s[|s| - 1], lengths, max, cast)
    decreases |lengths|
  {
    var last := s[|s| - 1];
    if lengths == [] {
      assert s + [] == s;
    } else {
      var w, rest, v := cast(lengths[0]), lengths[1..], add(last, lengths[0]);
      CastsFitStep(last, lengths, max, cast);
      if 0 <= w && last + w <= max {
        FoldedIsValidIff(s + [v], rest, max, cast, add);
        Assoc(s, [v], Folded(v, rest, add));
      } else {
        BrokenStaysBroken(s, v, Folded(v, rest, add), max);
      }
    }
  }

  /** What the loop writes is a valid vector exactly when no length turns negative in the cast and the
      cast lengths fit: the vector left behind by a failure, too. */
  lemma WrittenIsValidIff(s: seq<int>, lengths: seq<nat>, max: nat)
    requires IsOffsets(s, max)
    ensures IsOffsets(s + Wrapped(s[|s| - 1], lengths, max), max) <==> CastsFit(s[|s| - 1], lengths, max, Cast(max))
  {
    WrappingFalls(max);
    FoldedIsValidIff(s, lengths, max, Cast(max), WrappingAdd(max));
  }

  /** Lengths within the offset type: every failure breaks the vector. */
  lemma FailureBreaks(s: seq<int>, lengths: seq<nat>, max: nat)
    requires IsOffsets(s, max) && forall i :: 0 <= i < |lengths| ==> lengths[i] <= max
    ensures IsOffsets(s + Wrapped(s[|s| - 1], lengths, max), max) <==> s[|s| - 1] + Sum(lengths) <= max
  {
    CastIsExact(lengths, max);
    FitsWhenExact(s[|s| - 1], lengths, max, Cast(max));
    WrittenIsValidIff(s, lengths, max);
  }

  lemma CastIsExact(lengths: seq<nat>, max: nat)
    requires forall i :: 0 <= i < |lengths| ==> lengths[i] <= max
    ensures forall i :: 0 <= i < |lengths| ==> Cast(max)(lengths[i]) == lengths[i]
  {
    forall i | 0 <= i < |lengths| ensures Cast(max)(lengths[i]) == lengths[i] { WrapInRange(lengths[i], max); }
  }

  lemma FitsWhenExact(last: int, lengths: seq<nat>, max: nat, cast: nat -> int)
    requires forall i :: 0 <= i < |lengths| ==> cast(lengths[i]) == lengths[i]
    ensures CastsFit(last, lengths, max, cast) <==> last + Sum(lengths) <= max
  {
    CastSumExact(lengths, cast);
  }

  /** The loop of `try_extend_from_lengths`. */
  method ExtendLoop(offsets: seq<int>, last: int, lengths: seq<nat>, add: (int, nat) -> int)
    returns (all: seq<int>, total: nat)
    ensures all == offsets + Folded(last, lengths, add) && total == Sum(lengths)
  {
    var offset := last;
    all, total := offsets, 0;
    for i := 0 to |lengths|
      invariant total + Sum(lengths[i..]) == Sum(lengths)
      invariant all + Folded(offset, lengths[i..], add) == offsets + Folded(last, lengths, add)
    {
      var rest := lengths[i + 1..];
      assert lengths[i..] == [lengths[i]] + rest && lengths[i..][1..] == rest;
      total := total + lengths[i];
      offset := add(offset, lengths[i]);
      Assoc(all, [offset], Folded(offset, rest, add));
      all := all + [offset];
    }
  }

  // ---------------------------------------------------------------- the vector

  class Offsets {
    const max: nat
    var offsets: seq<int>

    ghost predicate Valid()
      reads this
    {
      max <= USIZE_MAX && IsOffsets(offsets, max)
    }

    constructor (max: nat)
      requires max <= USIZE_MAX
      ensures Valid() && this.max == max && offsets == [0] && Lengths(offsets) == []
    {
      this.max, offsets := max, [0];
    }

    method Last() returns (v: int)
      requires offsets != []
      ensures v == offsets[|offsets| - 1]
    {
      v := offsets[|offsets| - 1];
    }

    /** `try_push_usize` (and `try_push`, whose argument is already of the offset type). */
    method TryPush(length: nat) returns (ok: bool)
      requires Valid()
      modifies this
      ensures Valid()
      ensures ok <==> old(offsets[|offsets| - 1]) + length <= max
      ensures ok ==> offsets == old(offsets) + [old(offsets[|offsets| - 1]) + length]
      ensures ok ==> Lengths(offsets) == old(Lengths(offsets)) + [length]
      ensures !ok ==> offsets == old(offsets)
    {
      var last := Last();
      ok := length <= max && last + length <= max;
      if ok {
        PushLength(offsets, last + length);
        PushOffsets(offsets, last + length, max);
        offsets := offsets + [last + length];
      }
    }

    /** `pop`: undoes a push; the first offset stays. */
    method Pop() returns (popped: bool)
      requires Valid()
      modifies this
      ensures Valid() && (popped <==> |old(offsets)| > 1)
      ensures Lengths(offsets) == Popped(old(Lengths(offsets)))
      ensures !popped ==> offsets == old(offsets)
    {
      popped := |offsets| > 1;
      if popped {
        offsets := offsets[..|offsets| - 1];
      }
    }

    /** `extend_constant`: empty values. */
    method ExtendConstant(additional: nat)
      requires Valid()
      modifies this
      ensures Valid() && Lengths(offsets) == old(Lengths(offsets)) + Repeat<nat>(0, additional)
    {
      var last := Last();
      PartialZeros(last, additional);
      PartialLengths(offsets, Repeat<nat>(0, additional));
      PartialOffsets(offsets, Repeat<nat>(0, additional), max);
      offsets := offsets + Repeat(last, additional);
    }

    /** `try_extend_from_lengths`: the loop first, one check of the total behind it.  After a failure
        the vector keeps what the loop wrote. */
    method TryExtendFromLengths(lengths: seq<nat>) returns (ok: bool)
      requires Valid() && Sum(lengths) <= USIZE_MAX
      modifies this
      ensures ok <==> old(offsets[|offsets| - 1]) + Sum(lengths) <= max
      ensures ok ==> Valid() && Lengths(offsets) == old(Lengths(offsets)) + lengths
      ensures offsets == old(offsets) + Wrapped(old(offsets[|offsets| - 1]), lengths, max)
      ensures IsOffsets(offsets, max) <==> CastsFit(old(offsets[|offsets| - 1]), lengths, max, Cast(max))
      ensures (forall i :: 0 <= i < |lengths| ==> lengths[i] <= max) ==> (IsOffsets(offsets, max) <==> ok)
    {
      var original := Last();
      ghost var before := offsets;
      var all, total := ExtendLoop(offsets, original, lengths, WrappingAdd(max));
      offsets := all;
      WrittenIsValidIff(before, lengths, max);
      if forall i :: 0 <= i < |lengths| ==> lengths[i] <= max { FailureBreaks(before, lengths, max); }
      ok := original + total <= USIZE_MAX && original + total <= max;
      if ok {
        WrappedIsPartial(original, lengths, max);
        PartialLengths(before, lengths);
        PartialOffsets(before, lengths, max);
      }
    }

    /** `try_extend_from_self`, and `try_extend_from_slice` on a non-empty slice of offsets. */
    method TryExtendFromSelf(other: seq<int>) returns (ok: bool)
      requires Valid() && IsOffsets(other, max)
      modifies this
      ensures Valid()
      ensures ok <==> old(offsets[|offsets| - 1]) + other[|other| - 1] <= max
      ensures ExactUnlessHigh(ok, max - old(offsets[|offsets| - 1]), other[|other| - 1] - other[0], other[0])
      ensures Lengths(offsets) == if ok then old(Lengths(offsets)) + Lengths(other) else old(Lengths(offsets))
      ensures !ok ==> offsets == old(offsets)
    {
      var length := Last();
      if length + other[|other| - 1] > max {
        return false;
      }
      ghost var before := offsets;
      ExtendByWindows(before, other, max);
      for i := 1 to |other|
        invariant length == before[|before| - 1] + other[i - 1] - other[0]
        invariant offsets == before + Shifted(other[..i], before[|before| - 1] - other[0])
      {
        length := length + (other[i] - other[i - 1]);
        offsets := offsets + [length];
        assert Shifted(other[..i + 1], before[|before| - 1] - other[0]) == Shifted(other[..i], before[|before| - 1] - other[0]) + [length];
      }
      assert other[..|other|] == other;
      ok := true;
    }

    /** `try_extend_from_slice`. */
    method TryExtendFromSlice(other: seq<int>, start: nat, length: nat) returns (ok: bool)
      requires Valid() && IsOffsets(other, max) && start + length < |other|
      modifies this
      ensures Valid()
      ensures ok <==> length == 0 || old(offsets[|offsets| - 1]) + other[start + length] <= max
      ensures length > 0 ==> ExactUnlessHigh(ok, max - old(offsets[|offsets| - 1]), other[start + length] - other[start], other[start])
      ensures Lengths(offsets) ==
        if ok then old(Lengths(offsets)) + Lengths(other[start..start + length + 1]) else old(Lengths(offsets))
    {
      if length == 0 {
        assert Lengths(other[start..start + 1]) == [];
        return true;
      }
      ok := TryExtendFromSelf(other[start..start + length + 1]);
    }
  }

  /** The offsets behind the first, moved by `shift`. */
  ghost function Shifted(other: seq<int>, shift: int): (r: seq<int>)
    requires other != []
    ensures |r| == |other| - 1
  {
    seq(|other| - 1, i requires 0 <= i < |other| - 1 => other[i + 1] + shift)
  }

  lemma ShiftedLengths(s: seq<int>, other: seq<int>)
    requires s != [] && other != []
    ensures Lengths(s + Shifted(other, s[|s| - 1] - other[0])) == Lengths(s) + Lengths(other)
  {
    var t, r := s + Shifted(other, s[|s| - 1] - other[0]), Lengths(s) + Lengths(other);
    assert |Lengths(t)| == |r|;
    forall i | 0 <= i < |r| ensures Lengths(t)[i] == r[i] {
      if i >= |s| {
        assert t[i] == other[i - |s| + 1] + (s[|s| - 1] - other[0]);
      }
    }
  }

  lemma ExtendByWindows(s: seq<int>, other: seq<int>, max: nat)
    requires IsOffsets(s, max) && IsOffsets(other, max) && s[|s| - 1] + other[|other| - 1] <= max
    ensures var t := s + Shifted(other, s[|s| - 1] - other[0]); IsOffsets(t, max) && Lengths(t) == Lengths(s) + Lengths(other)
  {
    ShiftedLengths(s, other);
  }

  lemma {:induction false} PartialZeros(last: int, n: nat)
    ensures Partial(last, Repeat<nat>(0, n)) == Repeat(last, n) && Sum(Repeat<nat>(0, n)) == 0
  {
    if n > 0 { PartialZeros(last, n - 1); }
  }

  /** The documented contract is that an extension fails exactly when the covered length exceeds the
      room.  The code compares the room with the other's last offset, so it keeps that contract unless
      the room left after the covered length is below the other's first offset. */
  ghost predicate ExactUnlessHigh(ok: bool, room: int, covered: int, first: int) {
    && ((ok <==> covered <= room) <==> !(0 <= room - covered < first))
    && (first == 0 ==> (ok <==> covered <= room))
  }

  /** Offsets that cover one element but start high are refused although they would fit. */
  method RefusedThoughFitting() returns (ok: bool, o: Offsets)
    ensures !ok && Lengths(o.offsets) == [1] && o.max == I32_MAX
    ensures var other := [I32_MAX - 1, I32_MAX];
      IsOffsets(other, I32_MAX) && o.offsets[|o.offsets| - 1] + (other[1] - other[0]) <= I32_MAX
  {
    o := new Offsets(I32_MAX);
    var _ := o.TryPush(1);
    ghost var before := o.offsets;
    ok := o.TryExtendFromSelf([I32_MAX - 1, I32_MAX]);
    assert o.offsets == before;
  }

  /** A failed extension that leaves a negative offset, and one that leaves the vector valid because
      the length vanishes in the cast. */
  method FailedExtensions() returns (broken: Offsets, harmless: Offsets, first: bool, second: bool)
    ensures !first && !IsOffsets(broken.offsets, I32_MAX)
    ensures !second && IsOffsets(harmless.offsets, I32_MAX)
  {
    broken := new Offsets(I32_MAX);
    var _ := broken.TryPush(I32_MAX);
    first := broken.TryExtendFromLengths([1]);
    harmless := new Offsets(I32_MAX);
    VanishingLength();
    second := harmless.TryExtendFromLengths([2 * (I32_MAX + 1)]);
  }

  lemma VanishingLength()
    ensures CastsFit(0, [2 * (I32_MAX + 1)], I32_MAX, Cast(I32_MAX))
  {
    var lengths: seq<nat> := [2 * (I32_MAX + 1)];
    ModUnique(3 * (I32_MAX + 1), 2 * (I32_MAX + 1), 1, I32_MAX + 1);
    assert Cast(I32_MAX)(lengths[0]) == 0;
    assert CastSum(lengths[1..], Cast(I32_MAX)) == 0;
  }

  // ---------------------------------------------------------------- checks and conversions

  /** `try_check_offsets`: neighbours in order means all in order. */
  method TryCheckOffsets(offsets: seq<int>) returns (ok: bool)
    ensures ok <==> offsets != [] && offsets[0] >= 0 && Monotone(offsets)
  {
    if offsets == [] || offsets[0] < 0 {
      return false;
    }
    var previous, anyInvalid := offsets[0], false;
    for i := 0 to |offsets|
      invariant previous == if i == 0 then offsets[0] else offsets[i - 1]
      invariant !anyInvalid <==> Monotone(offsets[..i])
    {
      MonotoneStep(offsets, i);
      if previous > offsets[i] {
        anyInvalid := true;
      }
      previous := offsets[i];
    }
    assert offsets[..|offsets|] == offsets;
    ok := !anyInvalid;
  }

  lemma MonotoneStep(s: seq<int>, i: nat)
    requires i < |s|
    ensures Monotone(s[..i + 1]) <==> Monotone(s[..i]) && (i == 0 || s[i - 1] <= s[i])
  {
    var t := s[..i + 1];
    assert forall k :: 0 <= k < i ==> s[..i][k] == t[k];
    if Monotone(s[..i]) && i > 0 && s[i - 1] <= s[i] {
      assert forall k :: 0 <= k < i ==> t[k] <= t[i - 1];
    }
    if Monotone(t) && i > 0 {
      assert t[i - 1] <= t[i];
    }
  }

  /** `Offsets<i64>` to `Offsets<i32>`: checking the last offset suffices for every cast. */
  method ToI32(offsets: seq<int>, max: nat) returns (ok: bool, narrow: seq<int>)
    requires IsOffsets(offsets, max)
    ensures ok <==> forall i :: 0 <= i < |offsets| ==> offsets[i] <= I32_MAX
    ensures ok ==> narrow == offsets && IsOffsets(narrow, I32_MAX)
  {
    narrow := [];
    if offsets[|offsets| - 1] > I32_MAX {
      return false, [];
    }
    for i := 0 to |offsets|
      invariant narrow == offsets[..i]
    {
      assert offsets[0] <= offsets[i] <= offsets[|offsets| - 1];
      WrapInRange(offsets[i], I32_MAX);
      narrow := narrow + [Wrap(offsets[i], I32_MAX)];
    }
    ok := true;
  }

  // ---------------------------------------------------------------- whole runs

  datatype Op =
    | Push(length: nat) | Pop | Constant(n: nat) | Extend(lengths: seq<nat>)
    | Append(other: seq<int>) | Slice(other: seq<int>, start: nat, length: nat)

  /** The lengths after an operation that succeeded. */
  ghost function Applied(lengths: seq<int>, op: Op): seq<int> {
    match op
    case Push(n) => lengths + [n]
    case Pop => Popped(lengths)
    case Constant(n) => lengths + Repeat<nat>(0, n)
    case Extend(ns) => lengths + ns
    case Append(other) => lengths + Lengths(other)
    case Slice(other, start, n) => if start + n < |other| then lengths + Lengths(other[start..start + n + 1]) else lengths
  }

  ghost predicate Allowed(op: Op, max: nat) {
    match op
    case Extend(ns) => Sum(ns) <= USIZE_MAX
    case Append(other) => IsOffsets(other, max)
    case Slice(other, start, n) => IsOffsets(other, max) && start + n < |other|
    case _ => true
  }

  ghost function Effects(ops: seq<Op>): seq<int> {
    if ops == [] then [] else Applied(Effects(ops[..|ops| - 1]), ops[|ops| - 1])
  }

  method Step(o: Offsets, op: Op) returns (ok: bool)
    requires o.Valid() && Allowed(op, o.max)
    modifies o
    ensures ok ==> o.Valid() && Lengths(o.offsets) == Applied(old(Lengths(o.offsets)), op)
  {
    match op
    case Extend(ns) => ok := ExtendStep(o, ns);
    case Append(other) => ok := AppendStep(o, other);
    case Slice(other, start, n) => ok := SliceStep(o, other, start, n);
    case _ => ok := SmallStep(o, op);
  }

  method AppendStep(o: Offsets, other: seq<int>) returns (ok: bool)
    requires o.Valid() && IsOffsets(other, o.max)
    modifies o
    ensures ok ==> o.Valid() && Lengths(o.offsets) == old(Lengths(o.offsets)) + Lengths(other)
  {
    ok := o.TryExtendFromSelf(other);
  }

  method SliceStep(o: Offsets, other: seq<int>, start: nat, length: nat) returns (ok: bool)
    requires o.Valid() && IsOffsets(other, o.max) && start + length < |other|
    modifies o
    ensures ok ==> o.Valid() && Lengths(o.offsets) == old(Lengths(o.offsets)) + Lengths(other[start..start + length + 1])
  {
    ok := o.TryExtendFromSlice(other, start, length);
  }

  method ExtendStep(o: Offsets, lengths: seq<nat>) returns (ok: bool)
    requires o.Valid() && Sum(lengths) <= USIZE_MAX
    modifies o
    ensures ok ==> o.Valid() && Lengths(o.offsets) == old(Lengths(o.offsets)) + lengths
  {
    ok := o.TryExtendFromLengths(lengths);
  }

  method SmallStep(o: Offsets, op: Op) returns (ok: bool)
    requires o.Valid() && (op.Push? || op.Pop? || op.Constant?)
    modifies o
    ensures ok ==> o.Valid() && Lengths(o.offsets) == Applied(old(Lengths(o.offsets)), op)
  {
    match op
    case Push(n) => ok := o.TryPush(n);
    case Pop =>
      var _ := o.Pop();
      ok := true;
    case Constant(n) =>
      o.ExtendConstant(n);
      ok := true;
  }

  /** Every run of successful operations keeps the offsets valid, and their lengths are the
      concatenation of what was pushed. */
  method Run(max: nat, ops: seq<Op>) returns (ok: bool, o: Offsets)
    requires max <= USIZE_MAX && forall i :: 0 <= i < |ops| ==> Allowed(ops[i], max)
    ensures ok ==> o.Valid() && Lengths(o.offsets) == Effects(ops)
  {
    o := new Offsets(max);
    for i := 0 to |ops|
      invariant fresh(o) && o.max == max && o.Valid() && Lengths(o.offsets) == Effects(ops[..i])
    {
      assert ops[..i + 1][..i] == ops[..i];
      ok := Step(o, ops[i]);
      if !ok {
        return;
      }
    }
    assert ops[..|ops|] == ops;
    ok := true;
  }
}
