// Little-endian byte strings and the numbers they stand for.
module Bytes {
  import opened Prelude

  type Byte = b: nat | b < 256

  /** 256^n */
  function Pow256(n: nat): (p: nat)
    ensures p > 0
  {
    if n == 0 then 1 else 256 * Pow256(n - 1)
  }

  function Value(bs: seq<Byte>): nat {
    if bs == [] then 0 else bs[0] + 256 * Value(bs[1..])
  }

  /** The low `n` bytes of a number. */
  function ToBytes(v: nat, n: nat): (bs: seq<Byte>)
    ensures |bs| == n
  {
    if n == 0 then [] else [v % 256] + ToBytes(v / 256, n - 1)
  }

  lemma {:induction false} ValueBound(bs: seq<Byte>)
    ensures Value(bs) < Pow256(|bs|)
  {
    if bs != [] {
      ValueBound(bs[1..]);
    }
  }

  lemma {:induction false} BytesOfValue(bs: seq<Byte>)
    ensures ToBytes(Value(bs), |bs|) == bs
  {
    if bs != [] {
      BytesOfValue(bs[1..]);
      var rest := Value(bs[1..]);
      LowByte(bs[0], rest);
      assert ToBytes(bs[0] + 256 * rest, |bs|) == [bs[0]] + ToBytes(rest, |bs| - 1);
      hide ToBytes;
    }
  }

  lemma LowByte(b: Byte, rest: nat)
    ensures (b + 256 * rest) % 256 == b && (b + 256 * rest) / 256 == rest
  {
    RemainderUnique(b + 256 * rest, 256, rest, b);
  }

  lemma {:induction false} ValueOfBytes(v: nat, n: nat)
    ensures Value(ToBytes(v, n)) == v % Pow256(n)
    decreases n
  {
    if n != 0 {
      ValueOfBytes(v / 256, n - 1);
      var p := Pow256(n - 1);
      var bs := ToBytes(v, n);
      assert bs[1..] == ToBytes(v / 256, n - 1);
      RemainderBytes(v, p);
    }
  }

  lemma RemainderBytes(v: nat, p: nat)
    requires p > 0
    ensures v % (256 * p) == v % 256 + 256 * ((v / 256) % p)
  {
    var q, r := (v / 256) / p, (v / 256) % p;
    assert v / 256 == q * p + r;
    MulBytes(q, p);
    RemainderUnique(v, 256 * p, q, 256 * r + v % 256);
  }

  lemma MulBytes(q: int, p: int)
    ensures q * (256 * p) == 256 * (q * p)
  {
  }

  lemma {:induction false} ByteOf(v: nat, n: nat, k: nat)
    requires k < n
    ensures ToBytes(v, n)[k] == (v / Pow256(k)) % 256
    decreases n
  {
    if k > 0 {
      ByteOf(v / 256, n - 1, k - 1);
      DivideBytes(v, Pow256(k - 1));
    }
  }

  lemma DivideBytes(v: nat, p: nat)
    requires p > 0
    ensures (v / 256) / p == v / (256 * p)
  {
    var q, r := (v / 256) / p, (v / 256) % p;
    MulBytes(q, p);
    RemainderUnique(v, 256 * p, q, 256 * r + v % 256);
  }

  /** Taking the low bytes of a number only looks at the number modulo 256^n. */
  lemma ToBytesRemainder(v: nat, n: nat)
    ensures ToBytes(v % Pow256(n), n) == ToBytes(v, n)
  {
    ValueOfBytes(v, n);
    BytesOfValue(ToBytes(v, n));
  }

  lemma {:induction false} ValueConcat(a: seq<Byte>, b: seq<Byte>)
    ensures Value(a + b) == Value(a) + Pow256(|a|) * Value(b)
  {
    if a == [] {
      assert a + b == b;
    } else {
      ValueConcat(a[1..], b);
      assert (a + b)[1..] == a[1..] + b;
      var p := Pow256(|a| - 1);
      assert Value(a + b) == a[0] + 256 * Value(a[1..] + b) && Value(a) == a[0] + 256 * Value(a[1..]);
      assert Pow256(|a|) == 256 * p;
      hide *;
      ScaledSum(Value(a[1..]), p, Value(b));
    }
  }

  lemma ScaledSum(x: nat, p: nat, y: nat)
    ensures 256 * (x + p * y) == 256 * x + (256 * p) * y
  {
  }

  /** Shifting right by whole bytes drops the low ones. */
  lemma ValueShift(bs: seq<Byte>, k: nat)
    requires k <= |bs|
    ensures Value(bs) / Pow256(k) == Value(bs[k..]) && Value(bs) % Pow256(k) == Value(bs[..k])
  {
    assert bs[..k] + bs[k..] == bs;
    ValueConcat(bs[..k], bs[k..]);
    ValueBound(bs[..k]);
    hide Value, Pow256;
    SplitNumber(Value(bs), Pow256(k), Value(bs[k..]), Value(bs[..k]));
  }

  lemma SplitNumber(v: nat, p: nat, high: nat, low: nat)
    requires low < p && v == low + p * high
    ensures v / p == high && v % p == low
  {
    RemainderUnique(v, p, high, low);
  }

  /** Shifting left by whole bytes puts zero bytes below. */
  lemma {:induction false} ToBytesShift(v: nat, k: nat, n: nat)
    requires k <= n
    ensures v * Pow256(k) >= 0
    ensures ToBytes(v * Pow256(k), n)[k..] == ToBytes(v, n - k)
    decreases k
  {
    if k > 0 {
      ToBytesShift(v, k - 1, n - 1);
      var p := Pow256(k - 1);
      MulBytes(v, p);
      assert (256 * (v * p)) / 256 == v * p;
      var all, rest := ToBytes(v * Pow256(k), n), ToBytes(v * p, n - 1);
      assert all[1..] == rest;
      assert all[k..] == rest[k - 1..];
    }
  }
}
