/** How short byte strings are packed into 64-bit words, hashed and recovered
    (`read_le` of utils.rs, `fast_hash` of traits.rs, `InlineKey` of short_string_hashtable.rs). */
module PackedKeys {
  import opened Bits
  import opened Sequences

  type Byte = x: int | 0 <= x < 256
  type Bytes = seq<Byte>
  type Crc = (nat, nat) -> nat

  const U64_MAX: nat := 0xFFFF_FFFF_FFFF_FFFF

  // ---------------------------------------------------------------- little-endian values

  function Pow256(n: nat): (r: nat)
    ensures r > 0
  {
    if n == 0 then 1 else 256 * Pow256(n - 1)
  }

  function Value(s: Bytes): (v: nat)
    ensures v < Pow256(|s|)
  {
    if s == [] then 0 else s[0] + 256 * Value(s[1..])
  }

  lemma {:induction false} ValueInjective(s: Bytes, t: Bytes)
    requires |s| == |t| && Value(s) == Value(t)
    ensures s == t
  {
    if s != [] {
      assert s[0] == Value(s) % 256 && t[0] == Value(t) % 256;
      ValueInjective(s[1..], t[1..]);
      assert s == [s[0]] + s[1..] && t == [t[0]] + t[1..];
    }
  }

  lemma Distribute(lo: nat, p: nat, hi: nat)
    ensures 256 * (lo + p * hi) == 256 * lo + (256 * p) * hi
  {
  }

  lemma {:induction false} ValueSplit(s: Bytes, n: nat)
    requires n <= |s|
    ensures Value(s) == Value(s[..n]) + Pow256(n) * Value(s[n..])
  {
    if n == 0 {
      assert s[0..] == s;
    } else {
      ValueSplit(s[1..], n - 1);
      assert s[1..][..n - 1] == s[..n][1..] && s[1..][n - 1..] == s[n..];
      Distribute(Value(s[..n][1..]), Pow256(n - 1), Value(s[n..]));
    }
  }

  lemma {:induction false} ValuePositive(s: Bytes)
    requires s != [] && s[|s| - 1] != 0
    ensures Value(s) != 0
  {
    if |s| > 1 { ValuePositive(s[1..]); }
  }

  lemma {:induction false} Pow256IsPow2(n: nat)
    ensures Pow256(n) == Pow2(8 * n)
  {
    if n > 0 {
      Pow256IsPow2(n - 1);
      var k := 8 * (n - 1);
      assert Pow2(k + 2) == 4 * Pow2(k) && Pow2(k + 4) == 4 * Pow2(k + 2);
      assert Pow2(k + 6) == 4 * Pow2(k + 4) && Pow2(k + 8) == 4 * Pow2(k + 6);
    }
  }

  lemma DivDiv(a: nat, m: nat)
    requires m > 0
    ensures (a / 2) / m == a / (2 * m)
  {
    var q, r := (a / 2) / m, (a / 2) % m;
    var rest := 2 * r + a % 2;
    assert (2 * m) * q == 2 * (m * q);
    assert a == (2 * m) * q + rest;
    DivUnique(a, 2 * m, q, rest);
  }

  lemma DivUnique(h: int, m: int, q: int, r: int)
    requires m > 0 && 0 <= r < m && h == m * q + r
    ensures h / m == q
  {
    ModUnique(h, m, q, r);
    var d := h / m - q;
    assert m * d == 0;
    MulBounds(m, d);
  }

  lemma {:induction false} ShiftIsDiv(a: nat, s: nat)
    ensures ShiftRight(a, s) == a / Pow2(s)
    decreases s
  {
    if s > 0 {
      ShiftIsDiv(a / 2, s - 1);
      DivDiv(a, Pow2(s - 1));
    }
  }

  lemma {:induction false} TestIsDiv(a: nat, k: nat)
    ensures TestBit(a, k) <==> (a / Pow2(k)) % 2 == 1
    decreases k
  {
    if k > 0 {
      TestIsDiv(a / 2, k - 1);
      DivDiv(a, Pow2(k - 1));
    }
  }

  // ---------------------------------------------------------------- unaligned reads

  type Memory = nat -> Byte

  function Span(mem: Memory, addr: nat, n: nat): (s: Bytes)
    ensures |s| == n
  {
    seq(n, i requires 0 <= i < n => mem(addr + i))
  }

  lemma SpanSplit(mem: Memory, addr: nat, n: nat, k: nat)
    requires k <= n
    ensures Span(mem, addr, n)[..k] == Span(mem, addr, k)
    ensures Span(mem, addr, n)[k..] == Span(mem, addr + k, n - k)
  {
  }

  /** The 64-bit word read, unaligned, at `addr`. */
  function Word(mem: Memory, addr: nat): nat {
    Value(Span(mem, addr, 8))
  }

  lemma HighHalf(addr: nat)
    ensures BitAnd(addr, 2048) == 0 <==> (addr / 2048) % 2 == 0
  {
    assert Pow2(5) == 32 && Pow2(10) == 32 * Pow2(5) && Pow2(11) == 2048;
    AndPow2(addr, 11);
    TestIsDiv(addr, 11);
  }

  /** Where `read_le` starts its 8-byte read: at the data in the lower half of a page,
      and so that it ends with the data in the upper half. */
  function ReadStart(addr: nat, len: nat): (start: nat)
    requires 1 <= len <= 8
    ensures BitAnd(addr, 2048) != 0 ==> start == addr + len - 8
    ensures BitAnd(addr, 2048) == 0 ==> start == addr
  {
    HighHalf(addr);
    if BitAnd(addr, 2048) == 0 then addr else addr + len - 8
  }

  lemma HalfOfPage(addr: nat)
    ensures BitAnd(addr, 2048) == 0 <==> addr % 4096 < 2048
  {
    HighHalf(addr);
    var page, rest := addr / 4096, addr % 4096;
    if rest < 2048 {
      DivUnique(addr, 2048, 2 * page, rest);
    } else {
      DivUnique(addr, 2048, 2 * page + 1, rest - 2048);
    }
  }

  /** The read never leaves the page of the data except inside the data itself. */
  lemma ReadStaysInPage(addr: nat, len: nat, b: nat)
    requires 1 <= len <= 8 && ReadStart(addr, len) <= b < ReadStart(addr, len) + 8
    ensures b / 4096 == addr / 4096 || addr <= b < addr + len
  {
    HalfOfPage(addr);
    var page, rest := addr / 4096, addr % 4096;
    if b < addr || addr + len <= b {
      DivUnique(b, 4096, page, rest + (b - addr));
    }
  }

  function ReadLe(mem: Memory, addr: nat, len: nat): nat
    requires 1 <= len <= 8
  {
    var s := 64 - 8 * len;
    if BitAnd(addr, 2048) == 0 then BitAnd(Word(mem, ReadStart(addr, len)), ShiftRight(U64_MAX, s))
    else ShiftRight(Word(mem, ReadStart(addr, len)), s)
  }

  lemma OnesShifted(len: nat)
    requires 1 <= len <= 8
    ensures ShiftRight(U64_MAX, 64 - 8 * len) == Pow256(len) - 1
  {
    var s := 8 - len;
    Pow256IsPow2(s);
    ShiftIsDiv(U64_MAX, 8 * s);
    assert Pow256(4) == 0x1_0000_0000 && Pow256(8) == 0x1_0000_0000 * Pow256(4);
    PowSplit(s, len);
    var p := Pow256(s);
    assert U64_MAX == p * (Pow256(len) - 1) + (p - 1);
    DivUnique(U64_MAX, p, Pow256(len) - 1, p - 1);
  }

  lemma {:induction false} PowSplit(a: nat, b: nat)
    ensures Pow256(a + b) == Pow256(a) * Pow256(b)
  {
    if a > 0 { PowSplit(a - 1, b); }
  }

  lemma MaskLow(w: Bytes, len: nat)
    requires |w| == 8 && 1 <= len <= 8
    ensures BitAnd(Value(w), ShiftRight(U64_MAX, 64 - 8 * len)) == Value(w[..len])
  {
    OnesShifted(len);
    Pow256IsPow2(len);
    Pow2IsPow2(8 * len);
    MaskIsMod(Value(w), Pow256(len));
    ValueSplit(w, len);
    ModUnique(Value(w), Pow256(len), Value(w[len..]), Value(w[..len]));
  }

  lemma ShiftHigh(w: Bytes, s: nat)
    requires |w| == 8 && s <= 8
    ensures ShiftRight(Value(w), 8 * s) == Value(w[s..])
  {
    Pow256IsPow2(s);
    ShiftIsDiv(Value(w), 8 * s);
    ValueSplit(w, s);
    DivUnique(Value(w), Pow256(s), Value(w[s..]), Value(w[..s]));
  }

  /** Both branches of `read_le` give the little-endian value of exactly the data bytes. */
  lemma ReadLeIsValue(mem: Memory, addr: nat, len: nat)
    requires 1 <= len <= 8
    ensures ReadLe(mem, addr, len) == Value(Span(mem, addr, len))
  {
    var start := ReadStart(addr, len);
    var w := Span(mem, start, 8);
    if BitAnd(addr, 2048) == 0 {
      MaskLow(w, len);
      SpanSplit(mem, addr, 8, len);
    } else {
      ShiftHigh(w, 8 - len);
      SpanSplit(mem, start, 8, 8 - len);
    }
  }

  // ---------------------------------------------------------------- packing

  /** A borrowed byte slice. */
  datatype Slice = Slice(mem: Memory, addr: nat, len: nat)

  function Text(s: Slice): Bytes {
    Span(s.mem, s.addr, s.len)
  }

  /** The string cut into 8-byte little-endian words, the last one possibly shorter. */
  function Words(key: Bytes): (w: seq<nat>)
    ensures |w| == (|key| + 7) / 8
  {
    if key == [] then []
    else if |key| <= 8 then [Value(key)]
    else [Value(key[..8])] + Words(key[8..])
  }

  /** Keys the packed tables hold: up to 24 bytes, not ending in a zero byte. */
  predicate Inline(key: Bytes) {
    1 <= |key| <= 24 && key[|key| - 1] != 0
  }

  /** The words the tables build from a slice of 1 to 24 bytes. */
  function Pack(s: Slice): seq<nat>
    requires 1 <= s.len <= 24
  {
    if s.len <= 8 then [ReadLe(s.mem, s.addr, s.len)]
    else if s.len <= 16 then [Word(s.mem, s.addr), ReadLe(s.mem, s.addr + 8, s.len - 8)]
    else [Word(s.mem, s.addr), Word(s.mem, s.addr + 8), ReadLe(s.mem, s.addr + 16, s.len - 16)]
  }

  lemma WordsStep(mem: Memory, addr: nat, len: nat)
    requires len > 8
    ensures Words(Span(mem, addr, len)) == [Word(mem, addr)] + Words(Span(mem, addr + 8, len - 8))
  {
    SpanSplit(mem, addr, len, 8);
  }

  lemma WordsLast(mem: Memory, addr: nat, len: nat)
    requires 1 <= len <= 8
    ensures Words(Span(mem, addr, len)) == [ReadLe(mem, addr, len)]
  {
    ReadLeIsValue(mem, addr, len);
  }

  lemma PackIsWords(s: Slice)
    requires 1 <= s.len <= 24
    ensures Pack(s) == Words(Text(s))
  {
    if s.len <= 8 {
      WordsLast(s.mem, s.addr, s.len);
    } else if s.len <= 16 {
      WordsStep(s.mem, s.addr, s.len);
      WordsLast(s.mem, s.addr + 8, s.len - 8);
    } else {
      WordsStep(s.mem, s.addr, s.len);
      WordsStep(s.mem, s.addr + 8, s.len - 8);
      WordsLast(s.mem, s.addr + 16, s.len - 16);
    }
  }

  /** A packed key is never the empty marker: its last word is not zero. */
  lemma {:induction false} LastWordNonZero(key: Bytes)
    requires key != [] && key[|key| - 1] != 0
    ensures var w := Words(key); w[|w| - 1] != 0
    decreases |key|
  {
    if |key| <= 8 { ValuePositive(key); } else { LastWordNonZero(key[8..]); }
  }

  lemma {:induction false} LastWordFits(key: Bytes)
    requires key != []
    ensures var w := Words(key); w[|w| - 1] <= U64_MAX
    decreases |key|
  {
    if |key| <= 8 { WordFits(key); } else { LastWordFits(key[8..]); }
  }

  lemma WordFits(s: Bytes)
    requires |s| <= 8
    ensures Value(s) <= U64_MAX
  {
    assert Pow256(4) == 0x1_0000_0000 && Pow256(8) == 0x1_0000_0000 * Pow256(4);
    PowSplit(|s|, 8 - |s|);
    assert Pow256(|s|) * Pow256(8 - |s|) >= Pow256(|s|);
  }

  // ---------------------------------------------------------------- hashing

  function Fold(crc: Crc, value: nat, words: seq<nat>): nat
    decreases |words|
  {
    if words == [] then value else Fold(crc, crc(value, words[0]), words[1..])
  }

  /** The hash of a byte string: the checksum folded over its words. */
  function HashOf(crc: Crc, key: Bytes): nat {
    Fold(crc, U64_MAX, Words(key))
  }

  lemma FoldStep(crc: Crc, value: nat, x: nat, words: seq<nat>)
    ensures Fold(crc, value, [x] + words) == Fold(crc, crc(value, x), words)
  {
    assert ([x] + words)[1..] == words;
  }

  /** The words of a slice from byte `i` on. */
  ghost function Rest(s: Slice, i: nat): seq<nat> {
    if i < s.len then Words(Span(s.mem, s.addr + i, s.len - i)) else []
  }

  method ReadAt(s: Slice, i: nat) returns (x: nat)
    requires i < s.len
    ensures Rest(s, i) == [x] + Rest(s, i + 8)
  {
    if i + 8 < s.len {
      x := Word(s.mem, s.addr + i);
      WordsStep(s.mem, s.addr + i, s.len - i);
    } else {
      x := ReadLe(s.mem, s.addr + i, s.len - i);
      WordsLast(s.mem, s.addr + i, s.len - i);
    }
  }

  /** `fast_hash` of `[u8]`. */
  method HashBytes(crc: Crc, s: Slice) returns (value: nat)
    ensures value == HashOf(crc, Text(s))
  {
    value := U64_MAX;
    var i := 0;
    while i < s.len
      invariant Fold(crc, value, Rest(s, i)) == HashOf(crc, Text(s))
    {
      var x := ReadAt(s, i);
      FoldStep(crc, value, x, Rest(s, i + 8));
      value := crc(value, x);
      i := i + 8;
    }
  }

  /** `fast_hash` of a packed key. */
  method HashPacked(crc: Crc, words: seq<nat>) returns (value: nat)
    ensures value == Fold(crc, U64_MAX, words)
  {
    value := U64_MAX;
    for i := 0 to |words|
      invariant Fold(crc, value, words[i..]) == Fold(crc, U64_MAX, words)
    {
      assert words[i..][1..] == words[i + 1..];
      value := crc(value, words[i]);
    }
  }

  // ---------------------------------------------------------------- recovery

  function LeBytes(x: nat, n: nat): (s: Bytes)
    ensures |s| == n
  {
    if n == 0 then [] else [x % 256] + LeBytes(x / 256, n - 1)
  }

  /** The bytes of a packed key as they lie in memory. */
  function Layout(words: seq<nat>): (s: Bytes)
    ensures |s| == 8 * |words|
  {
    if words == [] then [] else LeBytes(words[0], 8) + Layout(words[1..])
  }

  lemma {:induction false} BytesOfValue(s: Bytes, n: nat)
    requires |s| <= n
    ensures LeBytes(Value(s), n) == s + Repeat<Byte>(0, n - |s|)
  {
    if n > 0 {
      if s == [] {
        BytesOfValue([], n - 1);
      } else {
        BytesOfValue(s[1..], n - 1);
        DivUnique(Value(s), 256, Value(s[1..]), s[0]);
        assert s == [s[0]] + s[1..];
      }
    }
  }

  function Padding(n: nat): (z: nat)
    ensures z < 8
  {
    8 * ((n + 7) / 8) - n
  }

  lemma {:induction false} LayoutOfWords(key: Bytes)
    ensures Layout(Words(key)) == key + Repeat<Byte>(0, Padding(|key|))
    decreases |key|
  {
    if key == [] {
    } else if |key| <= 8 {
      BytesOfValue(key, 8);
      assert Layout([Value(key)]) == LeBytes(Value(key), 8) + [];
    } else {
      LayoutOfWords(key[8..]);
      BytesOfValue(key[..8], 8);
      LayoutStep(Value(key[..8]), Words(key[8..]));
      assert key[..8] + Repeat<Byte>(0, 0) + (key[8..] + Repeat<Byte>(0, Padding(|key|))) == key + Repeat<Byte>(0, Padding(|key|));
    }
  }

  lemma LayoutStep(x: nat, words: seq<nat>)
    ensures Layout([x] + words) == LeBytes(x, 8) + Layout(words)
  {
    assert ([x] + words)[1..] == words;
  }

  /** The bytes up to the last one that is not zero. */
  function CutZeros(s: Bytes): Bytes {
    if s != [] && s[|s| - 1] == 0 then CutZeros(s[..|s| - 1]) else s
  }

  function Unpack(words: seq<nat>): Bytes {
    CutZeros(Layout(words))
  }

  lemma {:induction false} CutAt(s: Bytes, n: nat)
    requires n <= |s| && (n > 0 ==> s[n - 1] != 0) && forall i :: n <= i < |s| ==> s[i] == 0
    ensures CutZeros(s) == s[..n]
    decreases |s|
  {
    if n < |s| {
      CutAt(s[..|s| - 1], n);
      assert s[..|s| - 1][..n] == s[..n];
    } else {
      assert s[..n] == s;
    }
  }

  /** The packed form of a key that does not end in a zero byte gives the key back. */
  lemma UnpackWords(key: Bytes)
    requires key != [] && key[|key| - 1] != 0
    ensures Unpack(Words(key)) == key
  {
    LayoutOfWords(key);
    CutPadded(key, Repeat<Byte>(0, Padding(|key|)));
  }

  lemma CutPadded(key: Bytes, zeros: Bytes)
    requires key != [] && key[|key| - 1] != 0 && forall i :: 0 <= i < |zeros| ==> zeros[i] == 0
    ensures CutZeros(key + zeros) == key
  {
    var s := key + zeros;
    assert forall i :: |key| <= i < |s| ==> s[i] == zeros[i - |key|];
    CutAt(s, |key|);
    assert s[..|key|] == key;
  }

  lemma {:induction false} SomeByte(x: nat, n: nat)
    requires 0 < x < Pow256(n)
    ensures exists i :: 0 <= i < n && LeBytes(x, n)[i] != 0
    decreases n
  {
    if x % 256 != 0 {
      assert LeBytes(x, n)[0] != 0;
    } else {
      SomeByte(x / 256, n - 1);
      var i :| 0 <= i < n - 1 && LeBytes(x / 256, n - 1)[i] != 0;
      assert LeBytes(x, n)[i + 1] != 0;
    }
  }

  lemma {:induction false} LayoutLast(words: seq<nat>)
    requires words != []
    ensures Layout(words)[8 * (|words| - 1)..] == LeBytes(words[|words| - 1], 8)
  {
    if |words| == 1 {
      assert Layout(words) == LeBytes(words[0], 8) + [];
    } else {
      LayoutLast(words[1..]);
      assert Layout(words)[8..] == Layout(words[1..]);
      assert Layout(words)[8 * (|words| - 1)..] == Layout(words)[8..][8 * (|words| - 2)..];
    }
  }

  /** The scan of the last word's bytes from the top; it always stops. */
  method ScanLast(bytes: Bytes) returns (i: nat)
    requires |bytes| >= 8 && (var last := bytes[|bytes| - 8..]; exists j :: 0 <= j < 8 && last[j] != 0)
    ensures i < 8 && bytes[|bytes| - 8 + i] != 0
    ensures forall x :: |bytes| - 8 + i < x < |bytes| ==> bytes[x] == 0
  {
    ghost var last := bytes[|bytes| - 8..];
    ghost var j :| 0 <= j < 8 && last[j] != 0;
    i := 7;
    while bytes[|bytes| - 8 + i] == 0
      invariant j <= i <= 7 && forall x :: |bytes| - 8 + i < x < |bytes| ==> bytes[x] == 0
      decreases i
    {
      i := i - 1;
    }
  }

  /** `key()` on a packed entry. */
  method RecoverKey(words: seq<nat>) returns (key: Bytes)
    requires words != [] && 0 < words[|words| - 1] <= U64_MAX
    ensures key == Unpack(words)
  {
    var bytes := Layout(words);
    LayoutLast(words);
    assert Pow256(4) == 0x1_0000_0000 && Pow256(8) == 0x1_0000_0000 * Pow256(4);
    SomeByte(words[|words| - 1], 8);
    var i := ScanLast(bytes);
    key := bytes[..|bytes| - 8 + i + 1];
    CutAt(bytes, |bytes| - 8 + i + 1);
  }
}
