/**
 Machine words over mathematical integers: bounded types, shifts and masks written as the
 program writes them, and little-endian byte strings.
 */
module Words {
  type byte = x: nat | x < 256
  type u16 = x: nat | x < 0x1_0000
  type u32 = x: nat | x < 0x1_0000_0000
  type u64 = x: nat | x < 0x1_0000_0000_0000_0000

  const U32_LIMIT: nat := 0x1_0000_0000
  const U64_LIMIT: nat := 0x1_0000_0000_0000_0000

  //////////////////////////////////////////////////////////////////////////////
  // Powers of two, remainders
  //////////////////////////////////////////////////////////////////////////////

  function Pow2(k: nat): (p: nat)
    ensures p > 0
  {
    if k == 0 then 1 else 2 * Pow2(k - 1)
  }

  lemma MulGap(e: int, d: int)
    requires d > 0
    ensures e >= 1 ==> e * d >= d
    ensures e <= -1 ==> e * d <= -d
  {
  }

  /** A quotient and remainder in range are the quotient and remainder. */
  lemma DivModUnique(x: int, d: int, q: int, r: int)
    requires d > 0 && 0 <= r < d
    requires x == q * d + r
    ensures x / d == q && x % d == r
  {
    var e := x / d - q;
    assert e * d == (x / d) * d - q * d;
    assert x == (x / d) * d + x % d;
    MulGap(e, d);
  }

  lemma ModStep(x: nat, k: nat)
    ensures x % Pow2(k + 1) == 2 * ((x / 2) % Pow2(k)) + x % 2
    ensures x / Pow2(k + 1) == (x / 2) / Pow2(k)
  {
    var p := Pow2(k);
    var q, r := (x / 2) / p, (x / 2) % p;
    assert x / 2 == q * p + r;
    assert x == 2 * (q * p + r) + x % 2;
    assert 2 * (q * p) == q * (2 * p);
    DivModUnique(x, 2 * p, q, 2 * r + x % 2);
  }

  lemma {:induction false} Pow2Add(j: nat, k: nat)
    ensures Pow2(j + k) == Pow2(j) * Pow2(k)
  {
    if j > 0 {
      Pow2Add(j - 1, k);
    }
  }

  lemma {:induction false} Pow2Monotone(j: nat, k: nat)
    requires j <= k
    ensures Pow2(j) <= Pow2(k)
  {
    if j < k {
      Pow2Monotone(j, k - 1);
    }
  }

  /** `x >> k`. */
  function Shr(x: nat, k: nat): nat {
    if k == 0 then x else Shr(x / 2, k - 1)
  }

  lemma {:induction false} ShrIsDiv(x: nat, k: nat)
    ensures Shr(x, k) == x / Pow2(k)
  {
    if k > 0 {
      ShrIsDiv(x / 2, k - 1);
      ModStep(x, k - 1);
    }
  }

  /** Dividing twice, and taking a digit out of a remainder. */
  lemma DivDiv(x: nat, a: nat, b: nat)
    requires a > 0 && b > 0
    ensures a * b > 0
    ensures x / a / b == x / (a * b)
    ensures (x % (a * b)) / a == x / a % b
  {
    var q, r := x / a / b, x / a % b;
    var low := r * a + x % a;
    assert x == (x / a) * a + x % a;
    assert x / a == q * b + r;
    assert (q * b + r) * a == q * (a * b) + r * a;
    assert (r + 1) * a <= b * a by {
      MulMonotone(r + 1, b, a);
    }
    assert low < a * b;
    DivModUnique(x, a * b, q, low);
    DivModUnique(low, a, r, x % a);
  }

  lemma MulMonotone(a: int, b: int, c: nat)
    requires a <= b
    ensures a * c <= b * c
  {
  }

  //////////////////////////////////////////////////////////////////////////////
  // Bitwise operators
  //////////////////////////////////////////////////////////////////////////////

  /** `a & b`, bit by bit. */
  function BitAnd(a: nat, b: nat): (r: nat)
    ensures r <= a && r <= b
  {
    if a == 0 || b == 0 then 0
    else (if a % 2 == 1 && b % 2 == 1 then 1 else 0) + 2 * BitAnd(a / 2, b / 2)
  }

  /** `a | b`, bit by bit. */
  function BitOr(a: nat, b: nat): (r: nat)
    decreases a + b
    ensures r >= a && r >= b
  {
    if a == 0 then b
    else if b == 0 then a
    else (if a % 2 == 1 || b % 2 == 1 then 1 else 0) + 2 * BitOr(a / 2, b / 2)
  }

  /** `!a` on 64-bit words. */
  function Not64(a: u64): u64 {
    U64_LIMIT - 1 - a
  }

  lemma Pow2Word()
    ensures Pow2(8) == 256
    ensures Pow2(16) == 0x1_0000
    ensures Pow2(32) == U32_LIMIT
    ensures Pow2(64) == U64_LIMIT
  {
    assert Pow2(8) == 256;
    hide Pow2;
    Pow2Add(8, 8);
    Pow2Add(16, 16);
    Pow2Add(32, 32);
  }

  lemma {:induction false} AndStep(a: nat, b: nat)
    ensures BitAnd(a, 0) == 0
    ensures BitAnd(a, 2 * b) == 2 * BitAnd(a / 2, b)
    ensures BitAnd(a, 2 * b + 1) == a % 2 + 2 * BitAnd(a / 2, b)
  {
  }

  lemma {:induction false} OrStep(a: nat, b: nat)
    ensures BitOr(a, b) / 2 == BitOr(a / 2, b / 2)
    ensures BitOr(a, b) % 2 == 0 <==> a % 2 == 0 && b % 2 == 0
  {
  }

  /** The k low bits of x. */
  function Low(x: nat, k: nat): nat {
    if k == 0 then 0 else x % 2 + 2 * Low(x / 2, k - 1)
  }

  lemma {:induction false} LowIsMod(x: nat, k: nat)
    ensures Low(x, k) == x % Pow2(k)
  {
    if k > 0 {
      LowIsMod(x / 2, k - 1);
      ModStep(x, k - 1);
    }
  }

  /** A word with ones from bit k up to bit n. */
  function Mask(n: nat, k: nat): nat
    requires k <= n
  {
    if n == 0 then 0 else if k == 0 then 2 * Mask(n - 1, 0) + 1 else 2 * Mask(n - 1, k - 1)
  }

  lemma {:induction false} MaskValue(n: nat, k: nat)
    requires k <= n
    ensures Mask(n, k) == Pow2(n) - Pow2(k)
  {
    if n > 0 {
      MaskValue(n - 1, if k == 0 then 0 else k - 1);
    }
  }

  lemma {:induction false} AndMaskLow(x: nat, n: nat, k: nat)
    requires k <= n
    ensures BitAnd(x, Mask(n, k)) == Low(x, n) - Low(x, k)
  {
    hide BitAnd;
    assert n == 0 ==> BitAnd(x, 0) == 0 by {
      AndStep(x, 0);
    }
    if k > 0 {
      AndMaskLow(x / 2, n - 1, k - 1);
      AndStep(x, Mask(n - 1, k - 1));
    } else if n > 0 {
      AndMaskLow(x / 2, n - 1, 0);
      AndStep(x, Mask(n - 1, 0));
    }
  }

  /** A mask of ones from bit k up to bit n keeps exactly those bits. */
  lemma AndMask(x: nat, n: nat, k: nat)
    requires k <= n
    ensures Pow2(k) <= Pow2(n)
    ensures BitAnd(x, Pow2(n) - Pow2(k)) == x % Pow2(n) - x % Pow2(k)
  {
    AndMaskLow(x, n, k);
    MaskValue(n, k);
    LowIsMod(x, n);
    LowIsMod(x, k);
  }

  /** `x & (2^k - 1)` is the remainder. */
  lemma AndLow(x: nat, k: nat)
    ensures BitAnd(x, Pow2(k) - 1) == x % Pow2(k)
  {
    AndMask(x, k, 0);
  }

  /** `x & !(2^k - 1)` on 64-bit words rounds down to a multiple of 2^k. */
  lemma AndNotLow(x: u64, k: nat)
    requires k <= 64
    ensures Pow2(k) - 1 < U64_LIMIT
    ensures BitAnd(x, Not64(Pow2(k) - 1)) == x - x % Pow2(k)
  {
    hide BitAnd, Pow2;
    Pow2Word();
    AndMask(x, 64, k);
    assert x % U64_LIMIT == x;
  }

  /** `x & !(a - 1)`: the multiple of a power of two at or below x. */
  function RoundDown(x: u64, a: u64): nat
    requires a > 0
  {
    BitAnd(x, Not64(a - 1))
  }

  lemma RoundedMultiple(x: nat, a: nat)
    requires a > 0
    ensures (x - x % a) % a == 0
  {
    DivModUnique(x - x % a, a, x / a, 0);
  }

  /** Or-ing bits below bit k into a multiple of 2^k adds them. */
  lemma {:induction false} OrAligned(x: nat, m: nat, k: nat)
    requires x % Pow2(k) == 0 && m < Pow2(k)
    ensures BitOr(x, m) == x + m
  {
    if k > 0 && x != 0 && m != 0 {
      ModStep(x, k - 1);
      OrAligned(x / 2, m / 2, k - 1);
    }
  }

  /** An or of words is a multiple of 2^k exactly when both words are. */
  lemma {:induction false} OrMultiple(a: nat, b: nat, k: nat)
    ensures BitOr(a, b) % Pow2(k) == 0 <==> a % Pow2(k) == 0 && b % Pow2(k) == 0
  {
    if k > 0 {
      OrStep(a, b);
      ModStep(a, k - 1);
      ModStep(b, k - 1);
      ModStep(BitOr(a, b), k - 1);
      OrMultiple(a / 2, b / 2, k - 1);
    }
  }

  //////////////////////////////////////////////////////////////////////////////
  // Little-endian byte strings
  //////////////////////////////////////////////////////////////////////////////

  /** The number a byte string denotes, least significant byte first. */
  function Le(b: seq<byte>): nat {
    if b == [] then 0 else b[0] + 256 * Le(b[1..])
  }

  /** The n low bytes of v, least significant first. */
  function ToLe(v: nat, n: nat): (b: seq<byte>)
    ensures |b| == n
  {
    if n == 0 then [] else [v % 256] + ToLe(v / 256, n - 1)
  }

  lemma {:induction false} LeBound(b: seq<byte>)
    ensures Le(b) < Pow2(8 * |b|)
  {
    if b != [] {
      LeBound(b[1..]);
      var p := Pow2(8 * (|b| - 1));
      Pow2Add(8, 8 * (|b| - 1));
      assert Pow2(8) == 256;
      assert Pow2(8 * |b|) == 256 * p;
    }
  }

  lemma {:induction false} LeToLe(v: nat, n: nat)
    requires v < Pow2(8 * n)
    ensures Le(ToLe(v, n)) == v
  {
    if n > 0 {
      Pow2Add(8, 8 * (n - 1));
      assert Pow2(8) == 256;
      assert v / 256 < Pow2(8 * (n - 1));
      LeToLe(v / 256, n - 1);
      assert ToLe(v, n)[1..] == ToLe(v / 256, n - 1);
    }
  }

  lemma {:induction false} ToLeLe(b: seq<byte>)
    ensures ToLe(Le(b), |b|) == b
  {
    if b != [] {
      ToLeLe(b[1..]);
      assert Le(b) % 256 == b[0] && Le(b) / 256 == Le(b[1..]);
    }
  }

  function Zeros(n: nat): (b: seq<byte>)
    ensures |b| == n && forall i :: 0 <= i < n ==> b[i] == 0
  {
    seq(n, i => 0)
  }

  lemma {:induction false} LeZeros(b: seq<byte>)
    ensures Le(b) == 0 <==> forall i :: 0 <= i < |b| ==> b[i] == 0
  {
    if b != [] {
      LeZeros(b[1..]);
      assert b == [b[0]] + b[1..];
    }
  }

  /** `checked_add` on 64-bit words. */
  predicate Fits64(x: int) {
    0 <= x < U64_LIMIT
  }

  /** The contents of s with the bytes b stored at offset `at`. */
  function Store<T>(s: seq<T>, at: nat, b: seq<T>): (r: seq<T>)
    requires at + |b| <= |s|
    ensures |r| == |s|
    ensures forall i {:trigger r[i]} :: 0 <= i < |s| ==> r[i] == if at <= i < at + |b| then b[i - at] else s[i]
  {
    s[..at] + b + s[at + |b|..]
  }
}
