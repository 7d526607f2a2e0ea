// Placement of a fault mask in a RAM word (hpdcache_fault_injection.h): loops that
// cut the mask into 32-bit words, from a bit offset that depends on the way.
module FaultMask {
  import opened Prelude
  import opened BitFields

  /** SV_PACKED_DATA_NELEMS */
  function Elements(bits: nat): nat { (bits + 31) / 32 }

  /** The integer whose 32-bit digits are `lv`, least significant first. */
  function Digits(lv: seq<nat>): nat {
    if lv == [] then 0 else Digits(lv[..|lv| - 1]) + lv[|lv| - 1] * Pow2(32 * (|lv| - 1))
  }

  lemma {:induction false} ZeroDigits(lv: seq<nat>)
    requires forall k :: 0 <= k < |lv| ==> lv[k] == 0
    ensures Digits(lv) == 0
  {
    if lv != [] {
      ZeroDigits(lv[..|lv| - 1]);
    }
  }

  /** Setting a digit that was zero adds its weight. */
  lemma {:induction false} SetDigit(lv: seq<nat>, b: nat, v: nat)
    requires b < |lv| && lv[b] == 0
    ensures Digits(lv[b := v]) == Digits(lv) + v * Pow2(32 * b)
  {
    var n := |lv| - 1;
    if b == n {
      assert lv[b := v][..n] == lv[..n];
    } else {
      SetDigit(lv[..n], b, v);
      assert lv[b := v][..n] == lv[..n][b := v];
    }
  }

  lemma LowField(x: nat, k: nat)
    ensures Field(x, 0, k) == x - High(x, k)
  {
    var p := Pow2(k);
    assert x == (x / p) * p + x % p;
    assert x / Pow2(0) == x;
  }

  /** The low bits of the mask, extended by the next field. */
  lemma FieldExtends(x: nat, a: nat, n: nat)
    ensures Field(x, 0, a + n) == Field(x, 0, a) + Field(x, a, n) * Pow2(a)
  {
    LowField(x, a);
    LowField(x, a + n);
    PlaceBack(x, a, n);
  }

  /** Where a field of the mask lands when the mask is shifted to its offset. */
  lemma PlacedField(mask: nat, hi: nat, n: nat, offset: nat, b: nat)
    requires 32 * b == offset + hi
    ensures Field(mask, 0, hi + n) * Pow2(offset)
            == Field(mask, 0, hi) * Pow2(offset) + Field(mask, hi, n) * Pow2(32 * b)
  {
    FieldExtends(mask, hi, n);
    Pow2Add(offset, hi);
    hide Field, Pow2;
    ProductSplits(Field(mask, 0, hi), Field(mask, hi, n), Pow2(hi), Pow2(offset));
  }

  lemma ProductSplits(a: int, f: int, h: int, o: int)
    ensures (a + f * h) * o == a * o + f * (o * h)
  {
  }

  lemma ShiftedHead(v: nat, n: nat)
    requires n <= 32 && v < Pow2(32 - n)
    ensures v * Pow2(n) < TWO32
  {
    Pow2Add(32 - n, n);
    WordPowers();
    hide Pow2;
    StrictProduct(v, Pow2(32 - n), Pow2(n));
  }

  lemma StrictProduct(v: nat, a: nat, b: nat)
    requires v < a && b > 0
    ensures v * b < a * b
  {
  }

  /** A RAM word of `ways` cache words: the last one ends at its end. */
  lemma WayFits(way: nat, ways: nat, wordBits: nat)
    requires ways > 0
    ensures (way % ways) * wordBits + wordBits <= wordBits * ways
  {
    var r := way % ways;
    assert r + 1 <= ways;
    assert (r + 1) * wordBits <= ways * wordBits;
  }

  /** Indices in the middle of a RAM word stay below its number of elements. */
  lemma IndexFits(b: nat, covered: nat, ramBits: nat)
    requires 32 * b < covered <= ramBits
    ensures b < Elements(ramBits)
  {
  }

  /** Words that the mask of `wordBits` bits at `offset` does not touch. */
  predicate Outside(j: nat, offset: nat, wordBits: nat) { 32 * j + 32 <= offset || 32 * j >= offset + wordBits }

  // Word widths with check bits: 32 + 7 and 64 + 8.
  /** injectDatFault: the words handed to the RAM, read as one integer, are the mask cut to the word
      width and shifted to the way's offset; every word outside that range is zero, every index is in
      bounds, and every word fits 32 bits. */
  method InjectDatFault(way: nat, ways: nat, wordBits: nat, mask: nat) returns (lv: array<nat>)
    requires ways > 0 && (wordBits == 39 || wordBits == 72)
    ensures fresh(lv) && 32 * (lv.Length - 1) < wordBits * ways <= 32 * lv.Length
    ensures Digits(lv[..]) == (mask % Pow2(wordBits)) * Pow2((way % ways) * wordBits)
    ensures forall j :: 0 <= j < lv.Length ==> lv[j] < 0x1_0000_0000
    ensures forall j :: 0 <= j < lv.Length && Outside(j, (way % ways) * wordBits, wordBits) ==> lv[j] == 0
  {
    var ramBits := wordBits * ways;
    var ramOffset := (way % ways) * wordBits;
    WayFits(way, ways, wordBits);
    ElementsCover(ramBits);
    lv := new nat[Elements(ramBits)](_ => 0);
    ZeroDigits(lv[..]);
    hide Digits, Pow2, Field, Elements;
    SplitMask(lv, ramBits, ramOffset, wordBits, mask);
    WholeField(mask, wordBits);
  }

  lemma WholeField(mask: nat, wordBits: nat)
    ensures Field(mask, 0, wordBits) == mask % Pow2(wordBits)
  {
    assert mask / Pow2(0) == mask;
  }

  /** The head, middle and tail of injectDatFault. */
  method SplitMask(lv: array<nat>, ramBits: nat, ramOffset: nat, wordBits: nat, mask: nat)
    requires lv.Length == Elements(ramBits) && ramOffset + wordBits <= ramBits && wordBits >= 32
    requires Digits(lv[..]) == 0 && forall j :: 0 <= j < lv.Length ==> lv[j] == 0
    modifies lv
    ensures Digits(lv[..]) == Field(mask, 0, wordBits) * Pow2(ramOffset)
    ensures forall j :: 0 <= j < lv.Length ==> lv[j] < TWO32
    ensures forall j :: 0 <= j < lv.Length && Outside(j, ramOffset, wordBits) ==> lv[j] == 0
  {
    hide Digits, Pow2, Field, Elements;
    var wordOffset := ramOffset % 32;
    var bits := wordBits;
    var b := ramOffset / 32;
    var hiIdx := 32 - wordOffset;
    IndexFits(b, ramOffset + hiIdx, ramBits);
    HeadPlaced(mask, ramOffset, lv[..]);
    ghost var before := lv[..];
    lv[b] := Field(mask, 0, hiIdx) * Pow2(wordOffset);
    assert lv[..] == before[b := lv[b]];
    b := b + 1;
    bits := bits - hiIdx;
    while bits >= 32
      invariant 0 <= bits && hiIdx + bits == wordBits && 32 * b == ramOffset + hiIdx
      invariant Digits(lv[..]) == Field(mask, 0, hiIdx) * Pow2(ramOffset)
      invariant forall j :: 0 <= j < lv.Length ==> lv[j] < TWO32
      invariant forall j :: 0 <= j < lv.Length && (32 * j + 32 <= ramOffset || j >= b) ==> lv[j] == 0
    {
      PlaceWord(lv, b, mask, hiIdx, 32, ramOffset, ramBits);
      hiIdx := hiIdx + 32;
      b := b + 1;
      bits := bits - 32;
    }
    if bits > 0 {
      PlaceWord(lv, b, mask, hiIdx, bits, ramOffset, ramBits);
    }
  }

  /** `lv[b].aval = mask.range(lo + n - 1, lo)` */
  method PlaceWord(lv: array<nat>, b: nat, mask: nat, lo: nat, n: nat, ramOffset: nat, ramBits: nat)
    requires lv.Length == Elements(ramBits) && 32 * b == ramOffset + lo && 0 < n <= 32 && ramOffset + lo + n <= ramBits
    requires Digits(lv[..]) == Field(mask, 0, lo) * Pow2(ramOffset)
    requires forall j :: b <= j < lv.Length ==> lv[j] == 0
    modifies lv
    ensures b < lv.Length && lv[..] == old(lv[..])[b := lv[b]] && lv[b] < TWO32
    ensures Digits(lv[..]) == Field(mask, 0, lo + n) * Pow2(ramOffset)
  {
    IndexFits(b, ramOffset + lo + n, ramBits);
    hide Digits, Pow2, Field, Elements;
    PlaceNext(mask, lo, n, ramOffset, b, lv[..]);
    ghost var before := lv[..];
    lv[b] := Field(mask, lo, n);
    assert lv[..] == before[b := lv[b]];
  }

  /** The first word takes the bits up to the next multiple of 32. */
  lemma HeadPlaced(mask: nat, ramOffset: nat, lv: seq<nat>)
    requires ramOffset / 32 < |lv| && lv[ramOffset / 32] == 0 && Digits(lv) == 0
    ensures var o := ramOffset % 32;
            var v := Field(mask, 0, 32 - o) * Pow2(o);
            && v < TWO32
            && Digits(lv[ramOffset / 32 := v]) == Field(mask, 0, 32 - o) * Pow2(ramOffset)
  {
    var o, b := ramOffset % 32, ramOffset / 32;
    var f := Field(mask, 0, 32 - o);
    FieldBound(mask, 0, 32 - o);
    ShiftedHead(f, o);
    SetDigit(lv, b, f * Pow2(o));
    Pow2Add(o, 32 * b);
    assert o + 32 * b == ramOffset;
    hide Field, Pow2, Digits;
    Associate(f, Pow2(o), Pow2(32 * b));
  }

  /** A later word takes the next bits of the mask. */
  lemma PlaceNext(mask: nat, lo: nat, n: nat, offset: nat, b: nat, lv: seq<nat>)
    requires b < |lv| && lv[b] == 0 && 32 * b == offset + lo && n <= 32
    requires Digits(lv) == Field(mask, 0, lo) * Pow2(offset)
    ensures Field(mask, lo, n) < TWO32
    ensures Digits(lv[b := Field(mask, lo, n)]) == Field(mask, 0, lo + n) * Pow2(offset)
  {
    SetDigit(lv, b, Field(mask, lo, n));
    PlacedField(mask, lo, n, offset, b);
    FieldBound(mask, lo, n);
    Pow2Monotone(n, 32);
    WordPowers();
    hide Pow2;
  }

  /** injectDirFault: the directory word starts at offset 0. */
  method InjectDirFault(wordBits: nat, mask: nat) returns (lv: array<nat>)
    requires 0 < wordBits <= 64
    ensures fresh(lv) && 32 * (lv.Length - 1) < wordBits <= 32 * lv.Length
    ensures Digits(lv[..]) == mask % Pow2(wordBits)
    ensures forall j :: 0 <= j < lv.Length ==> lv[j] < 0x1_0000_0000
  {
    ElementsCover(wordBits);
    lv := new nat[Elements(wordBits)](_ => 0);
    ZeroDigits(lv[..]);
    EmptyField(mask);
    hide Digits, Field, Pow2, Elements;
    ghost var done: nat := 0;
    for b := 0 to lv.Length
      invariant done == (if 32 * b <= wordBits then 32 * b else wordBits)
      invariant Digits(lv[..]) == Field(mask, 0, done) * Pow2(0)
      invariant forall j :: 0 <= j < lv.Length ==> lv[j] < TWO32
      invariant forall j :: b <= j < lv.Length ==> lv[j] == 0
    {
      var loIdx := 32 * b;
      var hiIdx := 32 * (b + 1);
      if hiIdx > wordBits {
        hiIdx := wordBits;
      }
      if loIdx < wordBits {
        PlaceNext(mask, loIdx, hiIdx - loIdx, 0, b, lv[..]);
        lv[b] := Field(mask, loIdx, hiIdx - loIdx);
        done := hiIdx;
      }
    }
    WholeField(mask, wordBits);
  }

  lemma EmptyField(mask: nat)
    ensures Pow2(0) == 1 && Field(mask, 0, 0) == 0
  {
  }

  lemma ElementsCover(bits: nat)
    ensures 32 * (Elements(bits) - 1) < bits <= 32 * Elements(bits)
  {
  }
}
