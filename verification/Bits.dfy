/** Machine words as natural numbers, with the bitwise operators defined bit by bit from the
    low end, and the facts about masks and shifts the tables rely on. */
module Bits {

  function Pow2(k: nat): (r: nat)
    ensures r > 0
  {
    if k == 0 then 1 else 2 * Pow2(k - 1)
  }

  predicate IsPow2(n: nat) {
    n == 1 || (n > 1 && n % 2 == 0 && IsPow2(n / 2))
  }

  function Bit(b: bool): nat { if b then 1 else 0 }

  function BitAnd(a: nat, b: nat): nat {
    if a == 0 || b == 0 then 0 else 2 * BitAnd(a / 2, b / 2) + Bit(a % 2 == 1 && b % 2 == 1)
  }

  function BitOr(a: nat, b: nat): nat {
    if a == 0 then b else if b == 0 then a else 2 * BitOr(a / 2, b / 2) + Bit(a % 2 == 1 || b % 2 == 1)
  }

  function ShiftRight(a: nat, s: nat): nat {
    if s == 0 then a else ShiftRight(a / 2, s - 1)
  }

  predicate TestBit(a: nat, k: nat) {
    if k == 0 then a % 2 == 1 else TestBit(a / 2, k - 1)
  }

  // ---------------------------------------------------------------- masks

  lemma ModUnique(h: int, m: int, q: int, r: int)
    requires m > 0 && 0 <= r < m && h == m * q + r
    ensures h % m == r
  {
    var d, r0 := q - h / m, h % m;
    assert m * d == r0 - r;
    MulBounds(m, d);
  }

  lemma MulBounds(m: int, d: int)
    requires m > 0
    ensures d > 0 ==> m * d >= m
    ensures d < 0 ==> m * d <= -m
  {
  }

  lemma MaskStep(a: nat, k: nat, b: nat)
    requires k > 0 && b < 2
    ensures BitAnd(2 * a + b, 2 * k - 1) == 2 * BitAnd(a, k - 1) + b
  {
    assert (2 * k - 1) / 2 == k - 1 && (2 * k - 1) % 2 == 1;
    assert (2 * a + b) / 2 == a && (2 * a + b) % 2 == b;
  }

  lemma ModStep(a: nat, k: nat, b: nat)
    requires k > 0 && b < 2
    ensures (2 * a + b) % (2 * k) == 2 * (a % k) + b
  {
    var q, r := a / k, a % k;
    assert (2 * k) * q == 2 * (k * q);
    ModUnique(2 * a + b, 2 * k, q, 2 * r + b);
  }

  /** `x & (n - 1)` is `x % n` when `n` is a power of two. */
  lemma {:induction false} MaskIsMod(x: nat, n: nat)
    requires IsPow2(n)
    ensures BitAnd(x, n - 1) == x % n
  {
    if n == 1 {
      ModUnique(x, 1, x, 0);
    } else {
      var a, b, k := x / 2, x % 2, n / 2;
      MaskIsMod(a, k);
      MaskStep(a, k, b);
      ModStep(a, k, b);
    }
  }

  lemma {:induction false} Pow2IsPow2(k: nat)
    ensures IsPow2(Pow2(k))
  {
    if k > 0 { Pow2IsPow2(k - 1); }
  }

  // ---------------------------------------------------------------- single bits

  lemma OrHalves(a: nat, b: nat)
    ensures BitOr(a, b) / 2 == BitOr(a / 2, b / 2)
    ensures BitOr(a, b) % 2 == Bit(a % 2 == 1 || b % 2 == 1)
  {
  }

  lemma AndHalves(a: nat, b: nat)
    ensures BitAnd(a, b) / 2 == BitAnd(a / 2, b / 2)
    ensures BitAnd(a, b) % 2 == Bit(a % 2 == 1 && b % 2 == 1)
  {
  }

  lemma {:induction false} TestOr(a: nat, b: nat, k: nat)
    ensures TestBit(BitOr(a, b), k) <==> TestBit(a, k) || TestBit(b, k)
    decreases k
  {
    OrHalves(a, b);
    if k > 0 { TestOr(a / 2, b / 2, k - 1); }
  }

  lemma {:induction false} TestAnd(a: nat, b: nat, k: nat)
    ensures TestBit(BitAnd(a, b), k) <==> TestBit(a, k) && TestBit(b, k)
    decreases k
  {
    AndHalves(a, b);
    if k > 0 { TestAnd(a / 2, b / 2, k - 1); }
  }

  lemma {:induction false} TestZero(k: nat)
    ensures !TestBit(0, k)
  {
    if k > 0 { TestZero(k - 1); }
  }

  lemma {:induction false} TestPow2(j: nat, k: nat)
    ensures TestBit(Pow2(j), k) <==> j == k
  {
    if j == 0 && k > 0 {
      TestZero(k - 1);
    } else if k > 0 {
      TestPow2(j - 1, k - 1);
    }
  }

  lemma {:induction false} TestShift(a: nat, s: nat, k: nat)
    ensures TestBit(ShiftRight(a, s), k) <==> TestBit(a, s + k)
    decreases s
  {
    if s > 0 { TestShift(a / 2, s - 1, k); }
  }

  /** Masking with a single bit tests that bit. */
  lemma {:induction false} AndPow2(a: nat, k: nat)
    ensures BitAnd(a, Pow2(k)) != 0 <==> TestBit(a, k)
    decreases k
  {
    if k == 0 {
      assert BitAnd(a / 2, 0) == 0;
    } else {
      AndPow2(a / 2, k - 1);
      TestZero(k);
    }
  }

  // ---------------------------------------------------------------- low parts

  /** The low `k` bits. */
  function Low(a: nat, k: nat): nat {
    if k == 0 then 0 else 2 * Low(a / 2, k - 1) + a % 2
  }

  lemma {:induction false} LowIsMask(a: nat, k: nat)
    ensures Low(a, k) == BitAnd(a, Pow2(k) - 1)
    decreases k
  {
    if k > 0 {
      LowIsMask(a / 2, k - 1);
      MaskStep(a / 2, Pow2(k - 1), a % 2);
    }
  }

  lemma {:induction false} LowOr(a: nat, b: nat, k: nat)
    ensures Low(BitOr(a, b), k) == BitOr(Low(a, k), Low(b, k))
    decreases k
  {
    if k > 0 {
      OrHalves(a, b);
      OrHalves(Low(a, k), Low(b, k));
      LowOr(a / 2, b / 2, k - 1);
    }
  }

  lemma {:induction false} LowAnd(a: nat, b: nat, k: nat)
    ensures Low(b, k) == 0 ==> Low(BitAnd(a, b), k) == 0
    decreases k
  {
    AndHalves(a, b);
    if k > 0 { LowAnd(a / 2, b / 2, k - 1); }
  }

  lemma {:induction false} LowSmall(a: nat, k: nat)
    requires a < Pow2(k)
    ensures Low(a, k) == a
    decreases k
  {
    if k > 0 { LowSmall(a / 2, k - 1); }
  }

  lemma {:induction false} TestSmall(a: nat, k: nat, j: nat)
    requires a < Pow2(k) && k <= j
    ensures !TestBit(a, j)
    decreases k
  {
    if k == 0 { TestZero(j); } else { TestSmall(a / 2, k - 1, j - 1); }
  }

  /** Shifting an `n`-bit value right leaves `n - s` bits. */
  lemma {:induction false} ShiftBound(a: nat, n: nat, s: nat)
    requires s <= n && a < Pow2(n)
    ensures ShiftRight(a, s) < Pow2(n - s)
    decreases s
  {
    if s > 0 { ShiftBound(a / 2, n - 1, s - 1); }
  }

  // ---------------------------------------------------------------- two fields in one word

  /** `n` ones above `k` zeros. */
  function HighMask(k: nat, n: nat): nat {
    if k == 0 then Pow2(n) - 1 else 2 * HighMask(k - 1, n)
  }

  lemma {:induction false} TestHighMask(k: nat, n: nat, j: nat)
    requires j < n
    ensures TestBit(HighMask(k, n), k + j)
    decreases k
  {
    if k == 0 { TestOnes(n, j); } else { TestHighMask(k - 1, n, j); }
  }

  lemma {:induction false} LowHighMask(k: nat, n: nat)
    ensures Low(HighMask(k, n), k) == 0
  {
    if k > 0 { LowHighMask(k - 1, n); }
  }

  lemma {:induction false} LowPow2(k: nat, i: nat)
    ensures Low(Pow2(k + i), k) == 0
    decreases k
  {
    if k > 0 {
      assert Pow2(k + i) == 2 * Pow2(k - 1 + i);
      LowPow2(k - 1, i);
    }
  }

  lemma {:induction false} TestOnes(n: nat, j: nat)
    requires j < n
    ensures TestBit(Pow2(n) - 1, j)
    decreases n
  {
    if 0 < j {
      assert (Pow2(n) - 1) / 2 == Pow2(n - 1) - 1;
      TestOnes(n - 1, j - 1);
    }
  }

  /** A word built from a low field `p`, one bit `i` of the high field, and the high field of
      `prev`: its high field has exactly bit `i` and the bits of `prev`. */
  lemma HighField(p: nat, prev: nat, k: nat, n: nat, i: nat, j: nat)
    requires p < Pow2(k) && i < n && j < n
    ensures TestBit(BitOr(BitOr(p, Pow2(k + i)), BitAnd(prev, HighMask(k, n))), k + j) <==> i == j || TestBit(prev, k + j)
  {
    TestOr(BitOr(p, Pow2(k + i)), BitAnd(prev, HighMask(k, n)), k + j);
    TestOr(p, Pow2(k + i), k + j);
    TestPow2(k + i, k + j);
    TestSmall(p, k, k + j);
    TestAnd(prev, HighMask(k, n), k + j);
    TestHighMask(k, n, j);
  }

  /** Its low field is `p`. */
  lemma LowField(p: nat, prev: nat, k: nat, n: nat, i: nat)
    requires p < Pow2(k)
    ensures BitAnd(BitOr(BitOr(p, Pow2(k + i)), BitAnd(prev, HighMask(k, n))), Pow2(k) - 1) == p
  {
    var q, r := BitOr(p, Pow2(k + i)), BitAnd(prev, HighMask(k, n));
    LowIsMask(BitOr(q, r), k);
    LowOr(q, r, k);
    LowOr(p, Pow2(k + i), k);
    LowHighMask(k, n);
    LowAnd(prev, HighMask(k, n), k);
    LowSmall(p, k);
    LowPow2(k, i);
  }

  /** Testing one bit of the high field. */
  lemma HighBit(a: nat, k: nat, j: nat)
    ensures BitAnd(ShiftRight(a, k), Pow2(j)) != 0 <==> TestBit(a, k + j)
  {
    AndPow2(ShiftRight(a, k), j);
    TestShift(a, k, j);
  }
}
