/** Equality of byte slices by overlapping word and vector reads (`memcmp_sse` of utils.rs). */
module Memcmp {
  import opened PackedKeys

  /** A read of `n` bytes at offset `off`; it must lie inside the slice. */
  function ReadAt(s: Slice, off: nat, n: nat): Bytes
    requires off + n <= s.len
  {
    Span(s.mem, s.addr + off, n)
  }

  /** The bytes of both slices agree in `lo..hi`. */
  ghost predicate AgreeOn(a: Slice, b: Slice, lo: int, hi: int) {
    forall i :: lo <= i < hi && 0 <= i < a.len && i < b.len ==> Text(a)[i] == Text(b)[i]
  }

  /** Two `n`-byte words read at the same offset are equal exactly when their bytes are. */
  lemma WordsAgree(a: Slice, b: Slice, off: nat, n: nat)
    requires off + n <= a.len && off + n <= b.len
    ensures Value(ReadAt(a, off, n)) == Value(ReadAt(b, off, n)) <==> AgreeOn(a, b, off, off + n)
    ensures ReadAt(a, off, n) == ReadAt(b, off, n) <==> AgreeOn(a, b, off, off + n)
  {
    var x, y := ReadAt(a, off, n), ReadAt(b, off, n);
    if Value(x) == Value(y) {
      ValueInjective(x, y);
    }
    assert forall i :: 0 <= i < n ==> x[i] == Text(a)[off + i] && y[i] == Text(b)[off + i];
    if AgreeOn(a, b, off, off + n) {
      assert forall i :: 0 <= i < n ==> x[i] == y[i];
      assert x == y;
    }
    if x == y {
      assert forall i :: off <= i < off + n ==> Text(a)[i] == x[i - off];
    }
  }

  lemma AgreeEverywhere(a: Slice, b: Slice)
    requires a.len == b.len
    ensures AgreeOn(a, b, 0, a.len) <==> Text(a) == Text(b)
  {
  }

  /** Comparing the first and the last `n` bytes decides slices of `n` to `2 n` bytes. */
  method CompareEnds(a: Slice, b: Slice, n: nat) returns (eq: bool)
    requires a.len == b.len && n <= a.len <= 2 * n
    ensures eq <==> Text(a) == Text(b)
  {
    WordsAgree(a, b, 0, n);
    WordsAgree(a, b, a.len - n, n);
    AgreeEverywhere(a, b);
    eq := Value(ReadAt(a, 0, n)) == Value(ReadAt(b, 0, n))
       && Value(ReadAt(a, a.len - n, n)) == Value(ReadAt(b, a.len - n, n));
    assert AgreeOn(a, b, 0, n) && AgreeOn(a, b, a.len - n, a.len) ==> AgreeOn(a, b, 0, a.len);
  }

  method CompareShort(a: Slice, b: Slice) returns (eq: bool)
    requires a.len == b.len <= 16
    ensures eq <==> Text(a) == Text(b)
  {
    if a.len >= 8 {
      eq := CompareEnds(a, b, 8);
    } else if a.len >= 4 {
      eq := CompareEnds(a, b, 4);
    } else if a.len >= 2 {
      eq := CompareEnds(a, b, 2);
    } else if a.len >= 1 {
      eq := CompareEnds(a, b, 1);
    } else {
      AgreeEverywhere(a, b);
      eq := true;
    }
  }

  /** `compare_sse2`: sixteen bytes at once. */
  method Compare16(a: Slice, b: Slice, off: nat) returns (eq: bool)
    requires off + 16 <= a.len && off + 16 <= b.len
    ensures eq <==> AgreeOn(a, b, off, off + 16)
  {
    WordsAgree(a, b, off, 16);
    eq := ReadAt(a, off, 16) == ReadAt(b, off, 16);
  }

  /** `compare_sse2_x4`: four vectors, combined before the test. */
  method Compare64(a: Slice, b: Slice, off: nat) returns (eq: bool)
    requires off + 64 <= a.len && off + 64 <= b.len
    ensures eq <==> AgreeOn(a, b, off, off + 64)
  {
    var p := Compare16(a, b, off);
    var q := Compare16(a, b, off + 16);
    var r := Compare16(a, b, off + 32);
    var s := Compare16(a, b, off + 48);
    eq := (p && q) && (r && s);
  }

  /** The whole 16-byte vectors of the last, incomplete 64-byte block. */
  method CompareBlocks(a: Slice, b: Slice, off: nat, count: nat) returns (eq: bool)
    requires count <= 3 && off + 16 * count <= a.len && off + 16 * count <= b.len
    ensures eq <==> AgreeOn(a, b, off, off + 16 * count)
  {
    eq := true;
    if count >= 3 && eq {
      eq := Compare16(a, b, off + 32);
    }
    if count >= 2 && eq {
      eq := Compare16(a, b, off + 16);
    }
    if count >= 1 && eq {
      eq := Compare16(a, b, off);
    }
  }

  /** `memcmp_sse` decides equality for slices of any lengths. */
  method MemcmpSse(a: Slice, b: Slice) returns (eq: bool)
    ensures eq <==> Text(a) == Text(b)
  {
    if a.len != b.len {
      assert |Text(a)| != |Text(b)|;
      return false;
    }
    if a.len <= 16 {
      eq := CompareShort(a, b);
      return;
    }
    AgreeEverywhere(a, b);
    var off := 0;
    while a.len - off >= 64
      invariant off <= a.len && AgreeOn(a, b, 0, off)
    {
      eq := Compare64(a, b, off);
      if !eq {
        return;
      }
      off := off + 64;
    }
    var size := a.len - off;
    eq := CompareBlocks(a, b, off, size / 16);
    if eq {
      eq := Compare16(a, b, a.len - 16);
    }
  }
}
