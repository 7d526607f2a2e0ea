// Vocabulary shared by every module: optional values, powers of two, and the
// bitwise AND of the modelled languages written over unbounded integers.
module Prelude {

  datatype Option<+T> = None | Some(value: T)

  function Max(a: int, b: int): int { if a < b then b else a }

  /** 2^k */
  function Pow2(k: nat): (p: nat)
    ensures p > 0
  {
    if k == 0 then 1 else 2 * Pow2(k - 1)
  }

  lemma {:induction false} Pow2Add(a: nat, b: nat)
    ensures Pow2(a + b) == Pow2(a) * Pow2(b)
  {
    if a != 0 {
      Pow2Add(a - 1, b);
    }
  }

  const TWO32: nat := 0x1_0000_0000

  lemma BytePower()
    ensures Pow2(8) == 256
  {
  }

  lemma WordPowers()
    ensures Pow2(16) == 0x1_0000 && Pow2(31) == 0x8000_0000 && Pow2(32) == TWO32
    ensures Pow2(63) == 0x8000_0000_0000_0000 && Pow2(64) == 0x1_0000_0000_0000_0000
  {
    BytePower();
    assert Pow2(16) == 2 * Pow2(15) && Pow2(32) == 2 * Pow2(31) && Pow2(64) == 2 * Pow2(63);
    hide Pow2;
    Pow2Add(8, 8);
    Pow2Add(16, 16);
    Pow2Add(32, 32);
  }

  /** `a & m` for a non-negative mask: bit by bit, two's complement for negative `a`
      (Dafny's `/` and `%` by 2 are the floor and the parity, as `>> 1` and `& 1` are). */
  function BitAnd(a: int, m: nat): nat
    decreases m
  {
    if m == 0 then 0
    else (if a % 2 == 1 && m % 2 == 1 then 1 else 0) + 2 * BitAnd(a / 2, m / 2)
  }

  /** Masking with 2^k - 1 is the remainder modulo 2^k, also for negative integers. */
  lemma {:induction false} BitAndMask(a: int, k: nat)
    ensures BitAnd(a, Pow2(k) - 1) == a % Pow2(k)
    decreases k
  {
    if k == 0 {
      assert BitAnd(a, 0) == 0;
    } else {
      BitAndMask(a / 2, k - 1);
      var p := Pow2(k - 1);
      MaskStep(a, p);
    }
  }

  lemma MaskStep(a: int, p: nat)
    requires p > 0 && BitAnd(a / 2, p - 1) == (a / 2) % p
    ensures BitAnd(a, 2 * p - 1) == a % (2 * p)
  {
    BitAndStep(a, p);
    RemainderDouble(a, p);
    hide BitAnd;
  }

  lemma BitAndStep(a: int, p: nat)
    requires p > 0
    ensures BitAnd(a, 2 * p - 1) == a % 2 + 2 * BitAnd(a / 2, p - 1)
  {
    assert (2 * p - 1) / 2 == p - 1 && (2 * p - 1) % 2 == 1;
  }

  lemma RemainderDouble(a: int, p: nat)
    requires p > 0
    ensures a % (2 * p) == a % 2 + 2 * ((a / 2) % p)
  {
    var q, r := (a / 2) / p, (a / 2) % p;
    MulDouble(q, p);
    RemainderUnique(a, 2 * p, q, 2 * r + a % 2);
  }

  lemma MulDouble(q: int, p: int)
    ensures q * (2 * p) == 2 * (q * p)
  {
  }

  /** Quotient and remainder are determined by the division equation. */
  lemma RemainderUnique(a: int, d: nat, q: int, r: int)
    requires d > 0 && 0 <= r < d && a == q * d + r
    ensures a % d == r && a / d == q
  {
    var q', r' := a / d, a % d;
    QuotientUnique(d, q, r, q', r');
  }

  lemma QuotientUnique(d: nat, q: int, r: int, q': int, r': int)
    requires 0 <= r < d && 0 <= r' < d && q * d + r == q' * d + r'
    ensures q == q' && r == r'
  {
    if q < q' {
      MulAtLeast(q' - q, d);
    } else if q' < q {
      MulAtLeast(q - q', d);
    }
  }

  lemma MulAtLeast(n: nat, d: nat)
    requires n > 0
    ensures n * d >= d
  {
  }

  lemma MultipleSum(x: int, y: int, f: nat)
    requires f > 0 && x % f == 0 && y % f == 0
    ensures (x + y) % f == 0 && (x - y) % f == 0
  {
    Distribute(x / f, y / f, f);
    RemainderUnique(x + y, f, x / f + y / f, 0);
    RemainderUnique(x - y, f, x / f - y / f, 0);
  }

  lemma Distribute(a: int, b: int, f: int)
    ensures (a + b) * f == a * f + b * f && (a - b) * f == a * f - b * f
  {
  }

  lemma Associate(a: int, b: int, c: int)
    ensures a * (c * b) == (a * b) * c && (a * b) * c == a * (b * c)
  {
  }

  lemma NonNegative(a: nat, b: nat)
    ensures a * b >= 0
  {
  }

  lemma SelfMultiple(f: nat)
    requires f > 0
    ensures f % f == 0 && 0 % f == 0
  {
    RemainderUnique(f, f, 1, 0);
    RemainderUnique(0, f, 0, 0);
  }

  /** A number minus its remainder is a multiple. */
  lemma MinusRemainder(x: int, f: nat)
    requires f > 0
    ensures 0 <= x % f < f && (x - x % f) % f == 0
  {
    RemainderUnique(x - x % f, f, x / f, 0);
  }

  /** Two multiples closer than f are equal. */
  lemma MultipleGap(x: int, f: nat)
    requires f > 0 && x % f == 0 && x < f && -x < f
    ensures x == 0
  {
    assert x == (x / f) * f;
    if x / f > 0 {
      MulAtLeast(x / f, f);
    } else if x / f < 0 {
      MulAtLeast(-(x / f), f);
    }
  }
}
