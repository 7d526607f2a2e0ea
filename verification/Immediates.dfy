// Scattered immediates: an instruction layout is a list of pieces, each saying
// which bits of the word hold which bits of the immediate.
module Immediates {
  import opened Prelude
  import opened BitFields

  /** Bits `at .. at + n - 1` of the word are bits `to .. to + n - 1` of the immediate. */
  datatype Piece = Piece(at: nat, n: nat, to: nat)

  /** Pieces in order of immediate bits, from `lo`, without gaps. */
  predicate Contiguous(ps: seq<Piece>, lo: nat) {
    forall k :: 0 <= k < |ps| ==> ps[k].to == if k == 0 then lo else ps[k - 1].to + ps[k - 1].n
  }

  function Top(ps: seq<Piece>, lo: nat): nat {
    if ps == [] then lo else ps[|ps| - 1].to + ps[|ps| - 1].n
  }

  /** What the decoder computes: the pieces or-ed together, each shifted to its place. */
  function Gather(ps: seq<Piece>, word: nat): nat {
    if ps == [] then 0
    else Gather(ps[..|ps| - 1], word) + Place(word, ps[|ps| - 1].at, ps[|ps| - 1].n, ps[|ps| - 1].to)
  }

  /** What the encoder promises: every piece of the word holds its bits of the immediate. */
  predicate Encodes(ps: seq<Piece>, word: nat, imm: nat) {
    forall k :: 0 <= k < |ps| ==> Field(word, ps[k].at, ps[k].n) == Field(imm, ps[k].to, ps[k].n)
  }

  function Slots(ps: seq<Piece>, lo: nat, word: nat): (s: seq<Slot>)
    ensures |s| == |ps| + 1
  {
    [Slot(0, lo, 0)] + seq(|ps|, k requires 0 <= k < |ps| => Slot(ps[k].to, ps[k].n, Field(word, ps[k].at, ps[k].n)))
  }

  lemma SlotsLayout(ps: seq<Piece>, lo: nat, word: nat)
    requires Contiguous(ps, lo)
    ensures Layout(Slots(ps, lo, word)) && End(Slots(ps, lo, word)) == Top(ps, lo)
  {
    var s := Slots(ps, lo, word);
    forall k | 0 <= k < |s|
      ensures PlacedAt(s, k, 0)
    {
      if k > 0 {
        var j := k - 1;
        FieldBound(word, ps[j].at, ps[j].n);
        assert ps[j].to == if j == 0 then lo else ps[j - 1].to + ps[j - 1].n;
        assert s[k].lo == ps[j].to;
      }
    }
  }

  lemma {:induction false} GatherIsPack(ps: seq<Piece>, lo: nat, word: nat)
    ensures Gather(ps, word) == Pack(Slots(ps, lo, word))
  {
    var s := Slots(ps, lo, word);
    if ps == [] {
      assert s[..0] == [];
      assert Pack(s) == 0;
    } else {
      GatherIsPack(ps[..|ps| - 1], lo, word);
      assert s[..|s| - 1] == Slots(ps[..|ps| - 1], lo, word);
    }
  }

  /** The bits of a decoded immediate are the bits of the word. */
  lemma GatherEncodes(ps: seq<Piece>, lo: nat, word: nat)
    requires Contiguous(ps, lo)
    ensures Gather(ps, word) < Pow2(Top(ps, lo)) && Encodes(ps, word, Gather(ps, word))
    ensures Gather(ps, word) % Pow2(lo) == 0
  {
    var s := Slots(ps, lo, word);
    SlotsLayout(ps, lo, word);
    GatherIsPack(ps, lo, word);
    PackBound(s);
    forall k | 0 <= k < |ps|
      ensures Field(word, ps[k].at, ps[k].n) == Field(Gather(ps, word), ps[k].to, ps[k].n)
    {
      FieldOfPack(s, k + 1);
    }
    FieldOfPack(s, 0);
  }

  /** Pieces copied from an immediate add up to it. */
  lemma {:induction false} GatherTelescopes(ps: seq<Piece>, lo: nat, word: nat, imm: nat)
    requires Contiguous(ps, lo) && Encodes(ps, word, imm)
    ensures Gather(ps, word) == High(imm, lo) - High(imm, Top(ps, lo))
  {
    if ps != [] {
      var front, p := ps[..|ps| - 1], ps[|ps| - 1];
      GatherTelescopes(front, lo, word, imm);
      assert p.to == Top(front, lo);
      PlaceBack(imm, p.to, p.n);
    }
  }

  lemma HighAligned(x: nat, k: nat)
    requires x % Pow2(k) == 0
    ensures High(x, k) == x
  {
    hide Pow2;
  }

  /** A word encodes an immediate exactly when the decoder reads that immediate. */
  lemma DecodeIffEncoded(ps: seq<Piece>, lo: nat, word: nat, imm: nat)
    requires Contiguous(ps, lo) && imm < Pow2(Top(ps, lo)) && imm % Pow2(lo) == 0
    ensures Gather(ps, word) == imm <==> Encodes(ps, word, imm)
  {
    hide Encodes, Contiguous, Gather, High, Pow2;
    if Encodes(ps, word, imm) {
      GatherTelescopes(ps, lo, word, imm);
      HighEnds(imm, Top(ps, lo));
      HighAligned(imm, lo);
    }
    GatherEncodes(ps, lo, word);
  }

  lemma {:induction false} GatherCons(p: Piece, ps: seq<Piece>, word: nat)
    ensures Gather([p] + ps, word) == Place(word, p.at, p.n, p.to) + Gather(ps, word)
  {
    var all := [p] + ps;
    if ps == [] {
      assert all[..0] == [] && all == [p];
      assert Gather([p], word) == Gather([p][..0], word) + Place(word, p.at, p.n, p.to);
    } else {
      GatherCons(p, ps[..|ps| - 1], word);
      assert all[..|all| - 1] == [p] + ps[..|ps| - 1];
    }
  }

  // ----------------------- the layouts of the standard (sections 2.3 and 16.2 to 16.5), immediate bits ascending

  datatype Layouts = IType | SType | BType | JType
    | CIType | CISp | CIWord | CIDouble | CIQuad | CSSWord | CSSDouble | CSSQuad | CIWType
    | CLSWord | CLSDouble | CLSQuad | CBType

  /** Pieces of a layout, its first immediate bit, and the end of its immediate. */
  datatype Format = Format(pieces: seq<Piece>, lo: nat, bits: nat)

  function FormatOf(l: Layouts): (f: Format)
    ensures 0 < f.bits <= 32
  {
    match l
    case IType => Format([Piece(20, 12, 0)], 0, 12)
    case SType => Format([Piece(7, 5, 0), Piece(25, 7, 5)], 0, 12)
    case BType => Format([Piece(8, 4, 1), Piece(25, 6, 5), Piece(7, 1, 11), Piece(31, 1, 12)], 1, 13)
    case JType => Format([Piece(21, 10, 1), Piece(20, 1, 11), Piece(12, 8, 12), Piece(31, 1, 20)], 1, 21)
    case CIType => Format([Piece(2, 5, 0), Piece(12, 1, 5)], 0, 6)
    case CISp => Format([Piece(6, 1, 4), Piece(2, 1, 5), Piece(5, 1, 6), Piece(3, 2, 7), Piece(12, 1, 9)], 4, 10)
    case CIWord => Format([Piece(4, 3, 2), Piece(12, 1, 5), Piece(2, 2, 6)], 2, 8)
    case CIDouble => Format([Piece(5, 2, 3), Piece(12, 1, 5), Piece(2, 3, 6)], 3, 9)
    case CIQuad => Format([Piece(6, 1, 4), Piece(12, 1, 5), Piece(2, 4, 6)], 4, 10)
    case CSSWord => Format([Piece(9, 4, 2), Piece(7, 2, 6)], 2, 8)
    case CSSDouble => Format([Piece(10, 3, 3), Piece(7, 3, 6)], 3, 9)
    case CSSQuad => Format([Piece(11, 2, 4), Piece(7, 4, 6)], 4, 10)
    case CIWType => Format([Piece(6, 1, 2), Piece(5, 1, 3), Piece(11, 2, 4), Piece(7, 4, 6)], 2, 10)
    case CLSWord => Format([Piece(6, 1, 2), Piece(10, 3, 3), Piece(5, 1, 6)], 2, 7)
    case CLSDouble => Format([Piece(10, 3, 3), Piece(5, 2, 6)], 3, 8)
    case CLSQuad => Format([Piece(11, 2, 4), Piece(5, 2, 6), Piece(10, 1, 8)], 4, 9)
    case CBType => Format([Piece(3, 2, 1), Piece(10, 2, 3), Piece(2, 1, 5), Piece(5, 2, 6), Piece(12, 1, 8)], 1, 9)
  }

  predicate Sound(f: Format) {
    Contiguous(f.pieces, f.lo) && Top(f.pieces, f.lo) == f.bits && f.lo < f.bits <= 32
  }

  lemma FewPieces(ps: seq<Piece>, lo: nat)
    requires 1 <= |ps| <= 5 && ps[0].to == lo
    requires |ps| > 1 ==> ps[1].to == ps[0].to + ps[0].n
    requires |ps| > 2 ==> ps[2].to == ps[1].to + ps[1].n
    requires |ps| > 3 ==> ps[3].to == ps[2].to + ps[2].n
    requires |ps| > 4 ==> ps[4].to == ps[3].to + ps[3].n
    ensures Contiguous(ps, lo)
  {
  }

  lemma FormatsAreSound(l: Layouts)
    ensures Sound(FormatOf(l))
  {
    hide Contiguous;
    FewPieces(FormatOf(l).pieces, FormatOf(l).lo);
  }

  // ------------------------------------------------------------- the decoder of isa.py

  /** The binary code of an instruction. */
  type Code = w: nat | w < 0x1_0000_0000

  /** `((i >> at) & mask) << to` */
  function Term(i: nat, at: nat, mask: nat, to: nat): nat { BitAnd(i / Pow2(at), mask) * Pow2(to) }

  /** `(i >> at) << to` */
  function Rest(i: nat, at: nat, to: nat): nat {
    DivideNat(i, Pow2(at));
    Scaled(i / Pow2(at), to)
  }

  lemma DivideNat(i: nat, p: nat)
    requires p > 0
    ensures i / p >= 0
  {
  }

  /** `x << k` */
  function Scaled(x: nat, k: nat): nat { x * Pow2(k) }

  /** The expressions of the format classes, term by term; `|` of disjoint terms is their sum. */
  function Decoded(l: Layouts, i: Code): nat {
    match l
    case IType => Rest(i, 20, 0)
    case SType => Rest(i, 25, 5) + Term(i, 7, 31, 0)
    case BType => Rest(i, 31, 12) + Term(i, 7, 1, 11) + Term(i, 25, 0x3f, 5) + Term(i, 8, 15, 1)
    case JType => Rest(i, 31, 20) + Term(i, 12, 0xff, 12) + Term(i, 20, 1, 11) + Term(i, 21, 0x3ff, 1)
    case CIType => Term(i, 12, 1, 5) + Term(i, 2, 31, 0)
    case CISp => Term(i, 12, 1, 9) + Term(i, 6, 1, 4) + Term(i, 5, 1, 6) + Term(i, 3, 3, 7) + Term(i, 2, 1, 5)
    case CIWord => Term(i, 12, 1, 5) + Term(i, 4, 7, 2) + Term(i, 2, 3, 6)
    case CIDouble => Term(i, 12, 1, 5) + Term(i, 5, 3, 3) + Term(i, 2, 7, 6)
    case CIQuad => Term(i, 12, 1, 5) + Term(i, 6, 1, 4) + Term(i, 2, 15, 6)
    case CSSWord => Term(i, 9, 15, 2) + Term(i, 7, 3, 6)
    case CSSDouble => Term(i, 10, 7, 3) + Term(i, 7, 7, 6)
    case CSSQuad => Term(i, 11, 3, 4) + Term(i, 7, 15, 6)
    case CIWType => Term(i, 11, 3, 4) + Term(i, 7, 15, 6) + Term(i, 6, 1, 2) + Term(i, 5, 1, 3)
    case CLSWord => Term(i, 10, 7, 3) + Term(i, 6, 1, 2) + Term(i, 5, 1, 6)
    case CLSDouble => Term(i, 10, 7, 3) + Term(i, 5, 3, 6)
    case CLSQuad => Term(i, 11, 3, 4) + Term(i, 10, 1, 8) + Term(i, 5, 3, 6)
    case CBType => Term(i, 12, 1, 8) + Term(i, 10, 3, 3) + Term(i, 5, 3, 6) + Term(i, 3, 3, 1) + Term(i, 2, 1, 5)
  }

  lemma MaskPowers()
    ensures Pow2(0) == 1 && Pow2(1) == 2 && Pow2(2) == 4 && Pow2(3) == 8 && Pow2(4) == 16 && Pow2(5) == 32
    ensures Pow2(6) == 64 && Pow2(8) == 256 && Pow2(10) == 1024
  {
  }

  /** A masked term is a piece. */
  lemma TermIs(i: nat, at: nat, n: nat, to: nat)
    ensures Pow2(n) - 1 >= 0 && Term(i, at, Pow2(n) - 1, to) == Place(i, at, n, to)
  {
    BitAndMask(i / Pow2(at), n);
    hide Pow2, BitAnd;
  }

  /** So is an unmasked one at the top of a 32-bit word. */
  lemma RestIs(i: Code, at: nat, n: nat, to: nat)
    requires at + n == 32
    ensures Rest(i, at, to) == Place(i, at, n, to)
  {
    Pow2Add(at, n);
    WordPowers();
    hide Pow2;
    TopField(i, Pow2(at), Pow2(n));
  }

  lemma TopField(i: nat, p: nat, w: nat)
    requires p > 0 && i < p * w
    ensures (i / p) % w == i / p
  {
    if i / p >= w {
      Distribute(i / p - w, w, p);
      NonNegative(i / p - w, p);
    }
    SmallRemainder(i / p, w);
  }

  lemma Gather2(i: nat, p: Piece, q: Piece)
    ensures Gather([p, q], i) == Place(i, p.at, p.n, p.to) + Place(i, q.at, q.n, q.to)
  {
    assert [p, q] == [p] + [q] && [q] == [q] + [];
    GatherCons(p, [q], i);
    GatherCons(q, [], i);
  }

  lemma Gather3(i: nat, p: Piece, q: Piece, r: Piece)
    ensures Gather([p, q, r], i) == Place(i, p.at, p.n, p.to) + Place(i, q.at, q.n, q.to) + Place(i, r.at, r.n, r.to)
  {
    assert [p, q, r] == [p] + [q, r];
    GatherCons(p, [q, r], i);
    Gather2(i, q, r);
  }

  lemma Gather4(i: nat, p: Piece, q: Piece, r: Piece, s: Piece)
    ensures Gather([p, q, r, s], i)
            == Place(i, p.at, p.n, p.to) + Place(i, q.at, q.n, q.to) + Place(i, r.at, r.n, r.to)
               + Place(i, s.at, s.n, s.to)
  {
    assert [p, q, r, s] == [p] + [q, r, s];
    GatherCons(p, [q, r, s], i);
    Gather3(i, q, r, s);
  }

  lemma Gather5(i: nat, p: Piece, q: Piece, r: Piece, s: Piece, t: Piece)
    ensures Gather([p, q, r, s, t], i)
            == Place(i, p.at, p.n, p.to) + Place(i, q.at, q.n, q.to) + Place(i, r.at, r.n, r.to)
               + Place(i, s.at, s.n, s.to) + Place(i, t.at, t.n, t.to)
  {
    assert [p, q, r, s, t] == [p] + [q, r, s, t];
    GatherCons(p, [q, r, s, t], i);
    Gather4(i, q, r, s, t);
  }

  /** The decoder's expressions gather the pieces of the standard's layouts. */
  lemma DecodesStandard(l: Layouts, i: Code)
    ensures Decoded(l, i) == Gather(FormatOf(l).pieces, i)
  {
    MaskPowers();
    hide Pow2, Term, Rest, Place, Gather;
    match l
    case IType => DecodesI(i);
    case SType =>
      RestIs(i, 25, 7, 5);
      TermIs(i, 7, 5, 0);
      Gather2(i, Piece(7, 5, 0), Piece(25, 7, 5));
    case BType =>
      RestIs(i, 31, 1, 12);
      TermIs(i, 7, 1, 11);
      TermIs(i, 25, 6, 5);
      TermIs(i, 8, 4, 1);
      Gather4(i, Piece(8, 4, 1), Piece(25, 6, 5), Piece(7, 1, 11), Piece(31, 1, 12));
    case JType =>
      RestIs(i, 31, 1, 20);
      TermIs(i, 12, 8, 12);
      TermIs(i, 20, 1, 11);
      TermIs(i, 21, 10, 1);
      Gather4(i, Piece(21, 10, 1), Piece(20, 1, 11), Piece(12, 8, 12), Piece(31, 1, 20));
    case CBType =>
      TermIs(i, 12, 1, 8);
      TermIs(i, 10, 2, 3);
      TermIs(i, 5, 2, 6);
      TermIs(i, 3, 2, 1);
      TermIs(i, 2, 1, 5);
      Gather5(i, Piece(3, 2, 1), Piece(10, 2, 3), Piece(2, 1, 5), Piece(5, 2, 6), Piece(12, 1, 8));
    case CISp =>
      TermIs(i, 12, 1, 9);
      TermIs(i, 6, 1, 4);
      TermIs(i, 5, 1, 6);
      TermIs(i, 3, 2, 7);
      TermIs(i, 2, 1, 5);
      Gather5(i, Piece(6, 1, 4), Piece(2, 1, 5), Piece(5, 1, 6), Piece(3, 2, 7), Piece(12, 1, 9));
    case CIWType =>
      TermIs(i, 11, 2, 4);
      TermIs(i, 7, 4, 6);
      TermIs(i, 6, 1, 2);
      TermIs(i, 5, 1, 3);
      Gather4(i, Piece(6, 1, 2), Piece(5, 1, 3), Piece(11, 2, 4), Piece(7, 4, 6));
    case _ => DecodesShort(l, i);
  }

  lemma DecodesI(i: Code)
    ensures Rest(i, 20, 0) == Gather([Piece(20, 12, 0)], i)
  {
    RestIs(i, 20, 12, 0);
    GatherCons(Piece(20, 12, 0), [], i);
    assert [Piece(20, 12, 0)] == [Piece(20, 12, 0)] + [];
  }

  /** The layouts of two and three pieces. */
  lemma DecodesShort(l: Layouts, i: Code)
    requires l.CIType? || l.CIWord? || l.CIDouble? || l.CIQuad? || l.CSSWord? || l.CSSDouble? || l.CSSQuad?
             || l.CLSWord? || l.CLSDouble? || l.CLSQuad?
    ensures Decoded(l, i) == Gather(FormatOf(l).pieces, i)
  {
    MaskPowers();
    hide Pow2, Term, Rest, Place, Gather;
    match l
    case CIType =>
      TermIs(i, 12, 1, 5);
      TermIs(i, 2, 5, 0);
      Gather2(i, Piece(2, 5, 0), Piece(12, 1, 5));
    case CIWord =>
      TermIs(i, 12, 1, 5);
      TermIs(i, 4, 3, 2);
      TermIs(i, 2, 2, 6);
      Gather3(i, Piece(4, 3, 2), Piece(12, 1, 5), Piece(2, 2, 6));
    case CIDouble =>
      TermIs(i, 12, 1, 5);
      TermIs(i, 5, 2, 3);
      TermIs(i, 2, 3, 6);
      Gather3(i, Piece(5, 2, 3), Piece(12, 1, 5), Piece(2, 3, 6));
    case CIQuad =>
      TermIs(i, 12, 1, 5);
      TermIs(i, 6, 1, 4);
      TermIs(i, 2, 4, 6);
      Gather3(i, Piece(6, 1, 4), Piece(12, 1, 5), Piece(2, 4, 6));
    case CSSWord =>
      TermIs(i, 9, 4, 2);
      TermIs(i, 7, 2, 6);
      Gather2(i, Piece(9, 4, 2), Piece(7, 2, 6));
    case CSSDouble =>
      TermIs(i, 10, 3, 3);
      TermIs(i, 7, 3, 6);
      Gather2(i, Piece(10, 3, 3), Piece(7, 3, 6));
    case CSSQuad =>
      TermIs(i, 11, 2, 4);
      TermIs(i, 7, 4, 6);
      Gather2(i, Piece(11, 2, 4), Piece(7, 4, 6));
    case CLSWord =>
      TermIs(i, 10, 3, 3);
      TermIs(i, 6, 1, 2);
      TermIs(i, 5, 1, 6);
      Gather3(i, Piece(6, 1, 2), Piece(10, 3, 3), Piece(5, 1, 6));
    case CLSDouble =>
      TermIs(i, 10, 3, 3);
      TermIs(i, 5, 2, 6);
      Gather2(i, Piece(10, 3, 3), Piece(5, 2, 6));
    case CLSQuad =>
      TermIs(i, 11, 2, 4);
      TermIs(i, 10, 1, 8);
      TermIs(i, 5, 2, 6);
      Gather3(i, Piece(11, 2, 4), Piece(5, 2, 6), Piece(10, 1, 8));
  }

  /** Every layout: the decoder reads an unsigned immediate exactly when the word encodes it as the
      standard says. */
  lemma UnsignedRoundTrip(l: Layouts, i: Code, imm: nat)
    requires imm < Pow2(FormatOf(l).bits) && imm % Pow2(FormatOf(l).lo) == 0
    ensures Decoded(l, i) == imm <==> Encodes(FormatOf(l).pieces, i, imm)
  {
    FormatsAreSound(l);
    DecodesStandard(l, i);
    hide FormatOf, Decoded;
    DecodeIffEncoded(FormatOf(l).pieces, FormatOf(l).lo, i, imm);
  }

  lemma DecodedFits(l: Layouts, i: Code)
    ensures Decoded(l, i) < Pow2(FormatOf(l).bits)
  {
    FormatsAreSound(l);
    DecodesStandard(l, i);
    hide FormatOf, Decoded;
    GatherEncodes(FormatOf(l).pieces, FormatOf(l).lo, i);
  }

  predicate IsSigned(l: Layouts) { l.IType? || l.SType? || l.BType? || l.JType? || l.CIType? || l.CISp? || l.CBType? }

  /** The sign bit that the format classes pass to sign_ext. */
  function SignBit(l: Layouts): nat
    requires IsSigned(l)
  {
    match l
    case IType => 11
    case SType => 11
    case BType => 12
    case JType => 20
    case CIType => 5
    case CISp => 9
    case CBType => 8
  }

  lemma SignedImmFits(l: Layouts, i: Code)
    requires IsSigned(l)
    ensures SignedImm(l, i) < Pow2(32)
  {
    DecodedFits(l, i);
    SignBitIsLast(l);
    hide Decoded, FormatOf, SignBit, SignExt, Pow2;
    SignExtMeaning(Decoded(l, i), SignBit(l), 32);
  }

  lemma SignBitIsLast(l: Layouts)
    requires IsSigned(l)
    ensures SignBit(l) + 1 == FormatOf(l).bits && SignBit(l) < 32
  {
  }

  /** The sign-extended immediate of the decoder. */
  function SignedImm(l: Layouts, i: Code): nat
    requires IsSigned(l)
  {
    DecodedFits(l, i);
    SignBitIsLast(l);
    SignExt(Decoded(l, i), SignBit(l), 32)
  }

  /** The two's complement of a number in this many bits. */
  function LowBits(imm: int, bits: nat): nat { imm % Pow2(bits) }

  /** Every signed layout: sign extension followed by to_signed reads an immediate exactly when the word
      encodes its low bits as the standard says. */
  lemma SignedRoundTrip(l: Layouts, i: Code, imm: int)
    requires IsSigned(l)
    requires var half := Pow2(FormatOf(l).bits - 1); -imm <= half && imm < half && imm % Pow2(FormatOf(l).lo) == 0
    ensures ToSignedBits(SignedImm(l, i), 32) == imm
            <==> Encodes(FormatOf(l).pieces, i, LowBits(imm, FormatOf(l).bits))
  {
    FormatsAreSound(l);
    SignBitIsLast(l);
    DecodedFits(l, i);
    DecodesStandard(l, i);
    hide FormatOf, Decoded, SignBit, Encodes, SignExt, Pow2;
    var f := FormatOf(l);
    SignedCore(Decoded(l, i), SignBit(l), imm);
    AlignedRemainder(imm, f.lo, f.bits);
    DecodeIffEncoded(f.pieces, f.lo, i, LowBits(imm, f.bits));
  }

  /** A field reads as the number whose low bits it holds. */
  lemma SignedCore(g: nat, index: nat, imm: int)
    requires g < Pow2(index + 1) && index < 32 && -imm <= Pow2(index) && imm < Pow2(index)
    ensures ToSignedBits(SignExt(g, index, 32), 32) == imm <==> g == LowBits(imm, index + 1)
    ensures LowBits(imm, index + 1) < Pow2(index + 1)
  {
    TwosComplementRoundTrip(imm, index);
    SignExtMeaning(g, index, 32);
    TwosComplementInjective(g, LowBits(imm, index + 1), index);
    hide *;
  }

  lemma TwosComplementInjective(a: nat, b: nat, index: nat)
    requires a < Pow2(index + 1) && b < Pow2(index + 1)
    ensures TwosComplement(a, index) == TwosComplement(b, index) <==> a == b
  {
  }

  lemma AlignedRemainder(imm: int, lo: nat, bits: nat)
    requires lo <= bits && imm % Pow2(lo) == 0
    ensures (imm % Pow2(bits)) % Pow2(lo) == 0
  {
    Pow2Add(lo, bits - lo);
    hide Pow2;
    MultipleOfPart(imm, Pow2(lo), Pow2(bits - lo));
  }

  lemma MultipleOfPart(x: int, p: nat, s: nat)
    requires p > 0 && s > 0 && x % p == 0
    ensures p * s > 0 && (x % (p * s)) % p == 0
  {
    assert p * s > 0;
    var q := x / (p * s);
    var whole := q * (p * s);
    assert x == whole + x % (p * s);
    Associate(q, s, p);
    RemainderUnique(whole, p, q * s, 0);
    MultipleSum(x, whole, p);
  }

  // ------------------------------------------------------------------- C.J, C.JAL

  // The offset layout of section 16.4: offset[11|4|9:8|10|6|7|3:1|5].
  const CJ_SHARED := [
    Piece(2, 1, 5), Piece(7, 1, 6), Piece(6, 1, 7), Piece(9, 2, 8), Piece(8, 1, 10), Piece(12, 1, 11)]
  const CJ_STANDARD := [Piece(3, 3, 1)] + ([Piece(11, 1, 4)] + CJ_SHARED)

  /** CJtype.offset: it masks offset[3:1] with 1 and shifts the wrong way for offset[4]. */
  function CjDecoded(i: Code): nat {
    Term(i, 12, 1, 11) + BitAnd(i * Pow2(11), 1) * Pow2(4) + Term(i, 9, 3, 8) + Term(i, 8, 1, 10) + Term(i, 7, 1, 6)
    + Term(i, 6, 1, 7) + Term(i, 3, 1, 1) + Term(i, 2, 1, 5)
  }

  lemma CjDecodes(i: Code)
    ensures CjDecoded(i) == Place(i, 3, 1, 1) + Gather(CJ_SHARED, i)
  {
    MaskPowers();
    LostBit(i);
    hide Pow2, Term, Place, Gather, BitAnd;
    TermIs(i, 12, 1, 11);
    TermIs(i, 9, 2, 8);
    TermIs(i, 8, 1, 10);
    TermIs(i, 7, 1, 6);
    TermIs(i, 6, 1, 7);
    TermIs(i, 3, 1, 1);
    TermIs(i, 2, 1, 5);
    var rest := [Piece(7, 1, 6), Piece(6, 1, 7), Piece(9, 2, 8), Piece(8, 1, 10), Piece(12, 1, 11)];
    assert CJ_SHARED == [Piece(2, 1, 5)] + rest;
    GatherCons(Piece(2, 1, 5), rest, i);
    Gather5(i, Piece(7, 1, 6), Piece(6, 1, 7), Piece(9, 2, 8), Piece(8, 1, 10), Piece(12, 1, 11));
  }

  /** The lowest bit of a number shifted left is zero. */
  lemma LostBit(i: nat)
    ensures i * Pow2(11) >= 0 && BitAnd(i * Pow2(11), 1) == 0
  {
    assert Pow2(11) == 2 * Pow2(10);
    hide Pow2;
    MulDouble(i, Pow2(10));
    BitAndMask(i * Pow2(11), 1);
    assert Pow2(1) == 2 by {
      MaskPowers();
    }
  }

  lemma CjLayout()
    ensures Contiguous(CJ_STANDARD, 1) && Top(CJ_STANDARD, 1) == 12
    ensures CJ_STANDARD[0] == Piece(3, 3, 1) && CJ_STANDARD[1] == Piece(11, 1, 4) && |CJ_STANDARD| == 8
  {
    assert CJ_STANDARD == [
      Piece(3, 3, 1), Piece(11, 1, 4), Piece(2, 1, 5), Piece(7, 1, 6), Piece(6, 1, 7), Piece(9, 2, 8),
      Piece(8, 1, 10), Piece(12, 1, 11)];
  }

  /** A C.J or C.JAL offset survives the decoder exactly when its bits 4 to 2 are zero. */
  lemma CompressedJumpOffset(word: Code, imm: nat)
    requires imm < 4096 && imm % 2 == 0 && Encodes(CJ_STANDARD, word, imm)
    ensures CjDecoded(word) == imm <==> (imm / 4) % 8 == 0
  {
    CjLayout();
    DecodeIffEncoded(CJ_STANDARD, 1, word, imm);
    GatherCons(Piece(3, 3, 1), [Piece(11, 1, 4)] + CJ_SHARED, word);
    GatherCons(Piece(11, 1, 4), CJ_SHARED, word);
    CjDecodes(word);
    assert Field(word, CJ_STANDARD[0].at, CJ_STANDARD[0].n) == Field(imm, CJ_STANDARD[0].to, CJ_STANDARD[0].n);
    assert Field(word, CJ_STANDARD[1].at, CJ_STANDARD[1].n) == Field(imm, CJ_STANDARD[1].to, CJ_STANDARD[1].n);
    hide Gather, Encodes, Contiguous, CJ_SHARED, CjDecoded;
    LostBits(word, imm);
  }

  lemma LostBits(word: nat, imm: nat)
    requires Field(word, 3, 3) == Field(imm, 1, 3) && Field(word, 11, 1) == Field(imm, 4, 1)
    ensures Place(word, 3, 3, 1) + Place(word, 11, 1, 4) == Place(word, 3, 1, 1) <==> (imm / 4) % 8 == 0
  {
    Eighths(word / 8);
    Eighths(imm / 2);
    FieldLiterals(word, imm);
    hide Field;
    QuarterBits(imm);
  }

  lemma FieldLiterals(word: nat, imm: nat)
    ensures Field(word, 3, 3) == (word / 8) % 8 && Field(word, 3, 1) == (word / 8) % 2
    ensures Field(imm, 1, 3) == (imm / 2) % 8 && Field(imm, 4, 1) == (imm / 16) % 2
  {
  }

  lemma Eighths(q: nat)
    ensures q % 2 == (q % 8) % 2
  {
  }

  lemma QuarterBits(imm: nat)
    ensures (imm / 4) % 8 == 0 <==> (imm / 2) % 8 < 2 && (imm / 16) % 2 == 0
  {
    var t := imm / 4;
    assert imm / 16 == t / 4;
    TwoThenThree(imm / 2);
    assert (imm / 2) / 2 == t;
    FourTimesTwo(t);
  }

  lemma TwoThenThree(h: nat)
    ensures h % 8 == 2 * ((h / 2) % 4) + h % 2
  {
  }

  lemma FourTimesTwo(t: nat)
    ensures t % 8 == 4 * ((t / 4) % 2) + t % 4
  {
  }

  /** For instance an offset of 4 is decoded as 0. */
  lemma CompressedJumpLosesFour(word: Code)
    requires Encodes(CJ_STANDARD, word, 4)
    ensures CjDecoded(word) != 4
  {
    CompressedJumpOffset(word, 4);
  }
}
