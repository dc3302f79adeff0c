/** Unsigned varints (`put_uvarint`, `read_uvarint`; unsigned LEB128, section 7.6 of DWARF version 5)
    and the length-prefixed strings built on them (binary_write.rs, binary_read.rs). */
module Varint {
  import opened Bits
  import opened PackedKeys

  const MAX_VARINT_LEN64 := 10

  // ---------------------------------------------------------------- encoding

  function Encode(x: nat): (s: Bytes)
    ensures |s| > 0
  {
    if x < 128 then [x] else [x % 128 + 128] + Encode(x / 128)
  }

  lemma SevenMore(n: nat)
    ensures Pow2(n + 7) == 128 * Pow2(n)
  {
    assert Pow2(n + 2) == 4 * Pow2(n) && Pow2(n + 4) == 4 * Pow2(n + 2);
    assert Pow2(n + 6) == 4 * Pow2(n + 4) && Pow2(n + 7) == 2 * Pow2(n + 6);
  }

  lemma {:induction false} EncodeLength(x: nat, k: nat)
    requires k > 0 && x < Pow2(7 * k)
    ensures |Encode(x)| <= k
    decreases k
  {
    assert Pow2(0) == 1;
    if x >= 128 {
      var n := 7 * (k - 1);
      SevenMore(n);
      EncodeLength(x / 128, k - 1);
    }
  }

  lemma {:induction false} OrTopBit(a: nat, k: nat)
    requires a < 2 * Pow2(k)
    ensures BitOr(a, Pow2(k)) == a % Pow2(k) + Pow2(k)
    decreases k
  {
    if k > 0 {
      OrTopBit(a / 2, k - 1);
      OrHalves(a, Pow2(k));
      ModStep(a / 2, Pow2(k - 1), a % 2);
    } else {
      assert a % 1 == 0;
    }
  }

  /** `mx as u8 | 0x80`. */
  function Continued(mx: nat): (b: Byte)
    ensures b == mx % 128 + 128
  {
    assert Pow2(3) == 8 && Pow2(7) == 128;
    OrTopBit(mx % 256, 7);
    ModUnique(mx, 128, 2 * (mx / 256) + (mx % 256) / 128, mx % 256 % 128);
    BitOr(mx % 256, 0x80)
  }

  lemma CodeStep(code: Bytes, i: nat, x: nat)
    requires i <= |code| && code[i..] == Encode(x) && x >= 128
    ensures i < |code| && code[i] == x % 128 + 128 && code[i + 1..] == Encode(x / 128)
  {
    assert code[i..][1..] == code[i + 1..];
  }

  /** `put_uvarint`: the encoding is written to the front of the buffer. */
  method PutUvarint(buf: array<Byte>, x: nat) returns (n: nat)
    requires |Encode(x)| <= buf.Length
    modifies buf
    ensures 1 <= n <= buf.Length && buf[..n] == Encode(x) && buf[n..] == old(buf[n..])
  {
    var i := 0;
    var mx := x;
    ghost var code := Encode(x);
    while mx >= 0x80
      invariant 0 <= i <= |code| && code[i..] == Encode(mx)
      invariant forall k :: 0 <= k < i ==> buf[k] == code[k]
      invariant forall k :: i <= k < buf.Length ==> buf[k] == old(buf[k])
      decreases mx
    {
      CodeStep(code, i, mx);
      buf[i] := Continued(mx);
      ShiftIsDiv(mx, 7);
      mx := ShiftRight(mx, 7);
      i := i + 1;
    }
    assert code == code[..i] + [mx];
    buf[i] := mx;
    n := i + 1;
  }

  /** `write_uvarint` with its ten-byte scratch buffer, which always suffices. */
  method WriteUvarint(out: Bytes, v: nat) returns (r: Bytes)
    requires v <= U64_MAX
    ensures r == out + Encode(v) && |Encode(v)| <= MAX_VARINT_LEN64
  {
    FitsScratch(v);
    var scratch := new Byte[MAX_VARINT_LEN64];
    var ln := PutUvarint(scratch, v);
    r := out + scratch[..ln];
  }

  lemma FitsScratch(v: nat)
    requires v <= U64_MAX
    ensures 1 <= |Encode(v)| <= MAX_VARINT_LEN64
  {
    assert Pow2(14) == 128 * Pow2(7) && Pow2(7) == 8 * Pow2(4) && Pow2(4) == 16;
    assert Pow2(28) == 16384 * Pow2(14) by { PowSum(14, 14); }
    assert Pow2(56) == Pow2(28) * Pow2(28) by { PowSum(28, 28); }
    assert Pow2(70) == Pow2(56) * Pow2(14) by { PowSum(56, 14); }
    EncodeLength(v, 10);
  }

  lemma {:induction false} PowSum(a: nat, b: nat)
    ensures Pow2(a + b) == Pow2(a) * Pow2(b)
  {
    if a > 0 { PowSum(a - 1, b); }
  }

  // ---------------------------------------------------------------- decoding

  datatype Read<T> = Value(v: T, consumed: nat) | Overflow | EndOfInput

  /** What a varint denotes: seven bits per byte, low end first; the tenth byte holds one bit. */
  function Decode(s: Bytes, i: nat): Read<nat>
    decreases |s|
  {
    if s == [] then EndOfInput
    else if s[0] < 128 then
      if i == 9 && s[0] > 1 then Overflow else Value(s[0], 1)
    else
      match Decode(s[1..], i + 1)
      case Value(v, n) => Value(s[0] - 128 + 128 * v, n + 1)
      case Overflow => Overflow
      case EndOfInput => EndOfInput
  }

  /** Within ten bytes the varint ends, or the input does. */
  predicate Terminated(s: Bytes, i: nat)
    decreases |s|
  {
    s == [] || s[0] < 128 || (i < 9 && Terminated(s[1..], i + 1))
  }

  lemma OrEven(x: nat, y: nat)
    ensures BitOr(x, 2 * y) == x % 2 + 2 * BitOr(x / 2, y)
  {
    OrHalves(x, 2 * y);
  }

  lemma Halved(b: nat, s: nat)
    requires s > 0
    ensures b * Pow2(s) == 2 * (b * Pow2(s - 1))
  {
  }

  lemma {:induction false} OrShifted(x: nat, b: nat, s: nat)
    requires x < Pow2(s)
    ensures BitOr(x, b * Pow2(s)) == x + b * Pow2(s)
  {
    if s > 0 {
      Halved(b, s);
      OrShifted(x / 2, b, s - 1);
      OrEven(x, b * Pow2(s - 1));
    }
  }

  class Reader {
    const data: Bytes
    var pos: nat

    ghost predicate Valid()
      reads this
    {
      pos <= |data|
    }

    constructor (data: Bytes)
      ensures Valid() && this.data == data && pos == 0
    {
      this.data, pos := data, 0;
    }

    /** `read_uvarint`. */
    method ReadUvarint() returns (r: Read<nat>)
      requires Valid() && Terminated(data[pos..], 0)
      modifies this
      ensures Valid() && r == Decode(old(data[pos..]), 0)
      ensures r.Value? ==> pos == old(pos) + r.consumed
    {
      var x: nat, s: nat, i: nat := 0, 0, 0;
      ghost var start, whole := pos, Decode(data[pos..], 0);
      while true
        invariant pos <= |data| && pos == start + i
        invariant Reading(whole, data[pos..], x, s, i)
        decreases |data| - pos
      {
        if pos == |data| {
          return EndOfInput;
        }
        var b := data[pos];
        ghost var bytes := data[pos..];
        assert bytes[1..] == data[pos + 1..];
        pos := pos + 1;
        if b < 0x80 {
          FinalByte(whole, bytes, x, s, i);
          return if i == 9 && b > 1 then Overflow else Value(OrShift(x, b, s), i + 1);
        }
        NextByte(whole, bytes, x, s, i);
        x, s, i := OrShift(x, b - 128, s), s + 7, i + 1;
      }
    }
  }

  /** `x | (b << s)`. */
  function OrShift(x: nat, b: nat, s: nat): nat {
    BitOr(x, b * Pow2(s))
  }

  /** The state of the loop with `bytes` still to come, `i` bytes having given `x`. */
  ghost predicate Reading(whole: Read<nat>, bytes: Bytes, x: nat, s: nat, i: nat) {
    && i <= 9 && s == 7 * i && x < Pow2(s) && Terminated(bytes, i)
    && Continues(whole, Decode(bytes, i), x, Pow2(s), i)
  }

  /** `whole` is what follows from `rest` when `x` has been read from `n` bytes. */
  ghost predicate Continues(whole: Read<nat>, rest: Read<nat>, x: nat, scale: nat, n: nat) {
    match rest
    case Value(v, m) => whole == Value(x + scale * v, m + n)
    case Overflow => whole.Overflow?
    case EndOfInput => whole.EndOfInput?
  }

  lemma FinalByte(whole: Read<nat>, bytes: Bytes, x: nat, s: nat, i: nat)
    requires Reading(whole, bytes, x, s, i) && bytes != [] && bytes[0] < 128
    ensures whole == if i == 9 && bytes[0] > 1 then Overflow else Value(OrShift(x, bytes[0], s), i + 1)
  {
    OrShifted(x, bytes[0], s);
    Ended(whole, x, bytes[0], Pow2(s), i);
  }

  lemma Ended(whole: Read<nat>, x: nat, b: nat, scale: nat, n: nat)
    ensures Continues(whole, Value(b, 1), x, scale, n) <==> whole == Value(x + b * scale, n + 1)
  {
  }

  lemma Regroup(x: nat, p: nat, low: nat, v: nat)
    ensures x + p * (low + 128 * v) == (x + low * p) + (128 * p) * v
  {
    assert p * (low + 128 * v) == p * low + p * (128 * v);
    assert p * (128 * v) == (128 * p) * v;
  }

  lemma SevenBits(x: nat, p: nat, low: nat)
    requires x < p && low < 128
    ensures x + low * p < 128 * p
  {
    assert low * p <= 127 * p;
  }

  /** A byte with its high bit set: seven more bits, and the rest of the input continues. */
  lemma NextByte(whole: Read<nat>, bytes: Bytes, x: nat, s: nat, i: nat)
    requires Reading(whole, bytes, x, s, i) && bytes != [] && bytes[0] >= 128
    ensures Reading(whole, bytes[1..], OrShift(x, bytes[0] - 128, s), s + 7, i + 1)
  {
    var low, p, rest := bytes[0] - 128, Pow2(s), Decode(bytes[1..], i + 1);
    OrShifted(x, low, s);
    SevenMore(s);
    SevenBits(x, p, low);
    if rest.Value? {
      Regroup(x, p, low, rest.v);
    }
  }

  // ---------------------------------------------------------------- round trips

  lemma {:induction false} DecodeEncode(x: nat, i: nat, rest: Bytes)
    requires i <= 9 && x < Pow2(64 - 7 * i)
    ensures Decode(Encode(x) + rest, i) == Value(x, |Encode(x)|)
    ensures Terminated(Encode(x) + rest, i)
    decreases x
  {
    assert Pow2(1) == 2;
    if x >= 128 && i < 9 {
      assert (Encode(x) + rest)[1..] == Encode(x / 128) + rest;
      SevenMore(64 - 7 * i - 7);
      DecodeEncode(x / 128, i + 1, rest);
    }
  }

  lemma U64Bound(v: nat)
    requires v <= U64_MAX
    ensures v < Pow2(64)
  {
    assert Pow2(4) == 16 && Pow2(8) == 16 * Pow2(4);
    PowSum(8, 8);
    PowSum(16, 16);
    PowSum(32, 32);
  }

  /** Reading what `write_uvarint` wrote, with anything after it, gives the value back and consumes
      exactly the one to ten bytes written. */
  method UvarintRoundTrip(before: Bytes, v: nat, after: Bytes)
    returns (w: Bytes, r: Read<nat>, pos: nat)
    requires v <= U64_MAX
    ensures |before| + 1 <= |w| <= |before| + MAX_VARINT_LEN64 && pos == |w|
    ensures r == Value(v, |w| - |before|)
  {
    w := WriteUvarint(before, v);
    var reader := new Reader(w + after);
    reader.pos := |before|;
    U64Bound(v);
    assert reader.data[reader.pos..] == Encode(v) + after;
    DecodeEncode(v, 0, after);
    r := reader.ReadUvarint();
    pos := reader.pos;
  }

  /** `write_string` and `write_binary`: the length, then the bytes. */
  method WriteString(out: Bytes, s: Bytes) returns (r: Bytes)
    requires |s| <= U64_MAX
    ensures r == out + Encode(|s|) + s
  {
    r := WriteUvarint(out, |s|);
    r := r + s;
  }

  /** `read_string`, before the bytes are checked as UTF-8. */
  method ReadString(reader: Reader) returns (r: Read<Bytes>)
    requires reader.Valid() && Terminated(reader.data[reader.pos..], 0)
    modifies reader
    ensures reader.Valid()
    ensures match Decode(old(reader.data[reader.pos..]), 0)
      case Value(n, m) =>
        if old(reader.pos) + m + n <= |reader.data|
        then r == Value(reader.data[old(reader.pos) + m..old(reader.pos) + m + n], m + n) && reader.pos == old(reader.pos) + m + n
        else r.EndOfInput?
      case Overflow => r.Overflow?
      case EndOfInput => r.EndOfInput?
  {
    var n := reader.ReadUvarint();
    match n
    case Overflow => r := Overflow;
    case EndOfInput => r := EndOfInput;
    case Value(len, m) =>
      if reader.pos + len > |reader.data| {
        return EndOfInput;
      }
      r := Value(reader.data[reader.pos..reader.pos + len], m + len);
      reader.pos := reader.pos + len;
  }

  method StringRoundTrip(s: Bytes, after: Bytes) returns (r: Read<Bytes>, pos: nat)
    requires |s| <= U64_MAX
    ensures r == Value(s, pos) && pos == |Encode(|s|)| + |s|
  {
    var w := WriteString([], s);
    var reader := new Reader(w + after);
    U64Bound(|s|);
    assert reader.data[reader.pos..] == Encode(|s|) + (s + after);
    DecodeEncode(|s|, 0, s + after);
    r := ReadString(reader);
    pos := reader.pos;
  }
}
