// Bit fields of unbounded integers, and words laid out as consecutive fields.
module BitFields {
  import opened Prelude

  /** `(x >> lo) & ((1 << n) - 1)` */
  function Field(x: nat, lo: nat, n: nat): nat { (x / Pow2(lo)) % Pow2(n) }

  /** `((x >> lo) & mask) << to`: one term of a scattered immediate. */
  function Place(x: nat, lo: nat, n: nat, to: nat): nat { Field(x, lo, n) * Pow2(to) }

  /** A field of a word: `width` bits from bit `lo` holding `value`. */
  datatype Slot = Slot(lo: nat, width: nat, value: nat)

  /** Slot `k` follows the one before it, or starts at `lo`, and its value fits. */
  predicate PlacedAt(slots: seq<Slot>, k: int, lo: nat)
    requires 0 <= k < |slots|
  {
    && slots[k].value < Pow2(slots[k].width)
    && slots[k].lo == if k == 0 then lo else slots[k - 1].lo + slots[k - 1].width
  }

  /** Fields in order from bit `lo`, without gaps, each value fitting its width. */
  predicate LayoutFrom(slots: seq<Slot>, lo: nat) {
    forall k :: 0 <= k < |slots| ==> PlacedAt(slots, k, lo)
  }

  predicate Layout(slots: seq<Slot>) { LayoutFrom(slots, 0) }

  function EndFrom(slots: seq<Slot>, lo: nat): nat {
    if slots == [] then lo else slots[|slots| - 1].lo + slots[|slots| - 1].width
  }

  function End(slots: seq<Slot>): nat { EndFrom(slots, 0) }

  /** A layout without its last slot, which starts where the rest ends. */
  lemma LayoutFront(slots: seq<Slot>)
    requires Layout(slots) && slots != []
    ensures var front, s := slots[..|slots| - 1], slots[|slots| - 1];
            Layout(front) && s.lo == End(front) && s.value < Pow2(s.width)
  {
    var front := slots[..|slots| - 1];
    forall k | 0 <= k < |front|
      ensures PlacedAt(front, k, 0)
    {
      assert PlacedAt(slots, k, 0);
    }
    assert PlacedAt(slots, |slots| - 1, 0);
  }

  function Pack(slots: seq<Slot>): nat {
    if slots == [] then 0
    else Pack(slots[..|slots| - 1]) + slots[|slots| - 1].value * Pow2(slots[|slots| - 1].lo)
  }

  lemma {:induction false} PackBound(slots: seq<Slot>)
    requires Layout(slots)
    ensures Pack(slots) < Pow2(End(slots))
  {
    if slots != [] {
      var front, s := slots[..|slots| - 1], slots[|slots| - 1];
      LayoutFront(slots);
      PackBound(front);
      hide LayoutFrom;
      Pow2Add(s.lo, s.width);
      BelowProduct(Pack(front), Pow2(s.lo), s.value, Pow2(s.width));
    }
  }

  lemma BelowProduct(low: nat, p: nat, v: nat, w: nat)
    requires low < p && v < w
    ensures low + v * p < p * w
  {
    assert v * p <= (w - 1) * p == w * p - p;
  }

  lemma DivideAdd(low: nat, p: nat, v: nat)
    requires low < p
    ensures (low + v * p) / p == v
  {
    RemainderUnique(low + v * p, p, v, low);
  }

  lemma SmallRemainder(v: nat, w: nat)
    requires v < w
    ensures v % w == v
  {
    RemainderUnique(v, w, 0, v);
  }

  /** Bits above a field do not disturb it. */
  lemma FieldIgnoresAbove(x: nat, k: nat, lo: nat, n: nat)
    ensures Field(x + k * Pow2(lo + n), lo, n) == Field(x, lo, n)
  {
    Pow2Add(lo, n);
    hide Pow2;
    AddAbove(x, k, Pow2(lo), Pow2(n));
  }

  lemma AddAbove(x: nat, k: nat, p: nat, w: nat)
    requires p > 0 && w > 0
    ensures x + k * (p * w) >= 0 && ((x + k * (p * w)) / p) % w == (x / p) % w
  {
    var m := k * w;
    assert k * (p * w) == m * p by { Associate(k, w, p); }
    AddMultiple(x, m, p);
    var q := x / p;
    AddMultiple(q, k, w);
  }

  lemma AddMultiple(x: nat, m: nat, p: nat)
    requires p > 0
    ensures (x + m * p) / p == x / p + m && (x + m * p) % p == x % p
  {
    var q, r := x / p, x % p;
    Distribute(q, m, p);
    RemainderUnique(x + m * p, p, q + m, r);
  }

  /** Unpacking reads back every field. */
  lemma {:induction false} FieldOfPack(slots: seq<Slot>, i: nat)
    requires Layout(slots) && i < |slots|
    ensures Field(Pack(slots), slots[i].lo, slots[i].width) == slots[i].value
    decreases |slots|
  {
    var front, s := slots[..|slots| - 1], slots[|slots| - 1];
    LayoutFront(slots);
    PackBound(front);
    assert Pack(slots) == Pack(front) + s.value * Pow2(s.lo);
    hide LayoutFrom, Pow2, Field;
    if i == |slots| - 1 {
      TopSlot(Pack(front), s.value, s.lo, s.width);
    } else {
      FieldOfPack(front, i);
      LoMonotone(slots, i, |slots| - 1);
      LowerSlot(Pack(front), s.value, s.lo, slots[i].lo, slots[i].width);
    }
  }

  lemma TopSlot(low: nat, v: nat, lo: nat, width: nat)
    requires low < Pow2(lo) && v < Pow2(width)
    ensures low + v * Pow2(lo) >= 0 && Field(low + v * Pow2(lo), lo, width) == v
  {
    hide Pow2;
    DivideAdd(low, Pow2(lo), v);
    SmallRemainder(v, Pow2(width));
  }

  lemma LowerSlot(low: nat, v: nat, lo: nat, at: nat, n: nat)
    requires at + n <= lo
    ensures low + v * Pow2(lo) >= 0 && Field(low + v * Pow2(lo), at, n) == Field(low, at, n)
  {
    Pow2Add(at + n, lo - (at + n));
    hide Pow2, Field;
    var k := v * Pow2(lo - (at + n));
    Associate(v, Pow2(lo - (at + n)), Pow2(at + n));
    FieldIgnoresAbove(low, k, at, n);
  }

  lemma {:induction false} LoMonotone(slots: seq<Slot>, i: nat, j: nat)
    requires Layout(slots) && i < j < |slots|
    ensures slots[i].lo + slots[i].width <= slots[j].lo
    decreases j
  {
    assert PlacedAt(slots, j, 0);
    if i + 1 < j {
      LoMonotone(slots, i, j - 1);
    }
  }

  /** x without its low `k` bits. */
  function High(x: nat, k: nat): int { (x / Pow2(k)) * Pow2(k) }

  /** A field put back in place is a difference of two truncations. */
  lemma PlaceBack(x: nat, lo: nat, n: nat)
    ensures Place(x, lo, n, lo) == High(x, lo) - High(x, lo + n)
  {
    Pow2Add(lo, n);
    hide Pow2;
    DivideTwice(x, Pow2(lo), Pow2(n));
  }

  lemma DivideTwice(x: nat, p: nat, w: nat)
    requires p > 0 && w > 0
    ensures p * w > 0 && ((x / p) % w) * p == (x / p) * p - (x / (p * w)) * (p * w)
  {
    var q := x / p;
    var h, r := q / w, q % w;
    Distribute(h * w, r, p);
    Associate(h, w, p);
    BelowProduct(x % p, p, r, w);
    assert x == h * (p * w) + (r * p + x % p);
    RemainderUnique(x, p * w, h, r * p + x % p);
  }

  lemma HighEnds(x: nat, k: nat)
    ensures High(x, 0) == x
    ensures x < Pow2(k) ==> High(x, k) == 0
  {
    if x < Pow2(k) {
      RemainderUnique(x, Pow2(k), 0, x);
    }
  }

  lemma FieldBound(x: nat, lo: nat, n: nat)
    ensures Field(x, lo, n) < Pow2(n)
  {
  }

  // ------------------------------------------------------------ sign extension

  /** isa.py's sign_ext: bit `index` copied into the bits from `index + 1` to `xlen - 1`. */
  function SignExt(imm: nat, index: nat, xlen: nat): nat
    requires imm < Pow2(index + 1) && index < xlen
  {
    (imm / Pow2(index)) * (Pow2(xlen - index - 1) - 1) * Pow2(index + 1) + imm
  }

  /** model.py's to_signed on an `xlen`-bit value. */
  function ToSignedBits(value: nat, xlen: nat): int
    requires xlen > 0
  {
    if value / Pow2(xlen - 1) != 0 then value - Pow2(xlen) else value
  }

  /** The two's complement reading of a field whose sign bit is `index`. */
  function TwosComplement(imm: nat, index: nat): int {
    if imm >= Pow2(index) then imm - Pow2(index + 1) else imm
  }

  lemma SignExtMeaning(imm: nat, index: nat, xlen: nat)
    requires imm < Pow2(index + 1) && index < xlen
    ensures SignExt(imm, index, xlen) < Pow2(xlen)
    ensures ToSignedBits(SignExt(imm, index, xlen), xlen) == TwosComplement(imm, index)
  {
    SignExtValue(imm, index, xlen);
    Pow2Monotone(index, xlen - 1);
    if imm >= Pow2(index) {
      HalfUp(Pow2(xlen) - Pow2(index + 1) + imm, xlen, index);
    } else {
      RemainderUnique(imm, Pow2(xlen - 1), 0, imm);
    }
  }

  lemma SignExtValue(imm: nat, index: nat, xlen: nat)
    requires imm < Pow2(index + 1) && index < xlen
    ensures SignExt(imm, index, xlen) == if imm >= Pow2(index) then Pow2(xlen) - Pow2(index + 1) + imm else imm
  {
    var p, s := Pow2(index + 1), Pow2(xlen - index - 1);
    Pow2Add(index + 1, xlen - index - 1);
    if imm >= Pow2(index) {
      RemainderUnique(imm, Pow2(index), 1, imm - Pow2(index));
      Distribute(s, 1, p);
      assert (s - 1) * p == Pow2(xlen) - p;
    } else {
      RemainderUnique(imm, Pow2(index), 0, imm);
    }
  }

  lemma {:induction false} Pow2Monotone(a: nat, b: nat)
    requires a <= b
    ensures Pow2(a) <= Pow2(b)
    decreases b
  {
    if a < b {
      Pow2Monotone(a, b - 1);
    }
  }

  lemma HalfUp(v: nat, xlen: nat, index: nat)
    requires index < xlen && Pow2(xlen) - Pow2(index) <= v < Pow2(xlen)
    ensures v / Pow2(xlen - 1) != 0
  {
    Pow2Monotone(index, xlen - 1);
    RemainderUnique(v, Pow2(xlen - 1), 1, v - Pow2(xlen - 1));
  }

  /** An integer in range, encoded modulo 2^(index + 1), reads back. */
  lemma TwosComplementRoundTrip(imm: int, index: nat)
    requires -imm <= Pow2(index) && imm < Pow2(index)
    ensures 0 <= imm % Pow2(index + 1) < Pow2(index + 1)
    ensures TwosComplement(imm % Pow2(index + 1), index) == imm
  {
    var p := Pow2(index + 1);
    RemainderUnique(imm, p, if imm < 0 then -1 else 0, if imm < 0 then imm + p else imm);
  }
}
