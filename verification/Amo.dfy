// The two AMO units of the test bench: hpdcache_test_amo on the core side and
// compute_amo of the memory response model, on 64-bit unsigned values.
module Amo {
  import opened Prelude
  import opened BitFields
  import opened Bytes

  datatype CoreAmo = SWAP | ADD | AND | OR | XOR | MAX | MAXU | MIN | MINU

  datatype MemAmo = MEM_ADD | MEM_CLR | MEM_SET | MEM_EOR | MEM_SMAX | MEM_SMIN | MEM_UMAX | MEM_UMIN | MEM_SWAP

  /** The operation that stands for a core AMO on the memory interface. */
  function ToMemory(op: CoreAmo): MemAmo {
    match op
    case SWAP => MEM_SWAP
    case ADD => MEM_ADD
    case AND => MEM_CLR
    case OR => MEM_SET
    case XOR => MEM_EOR
    case MAX => MEM_SMAX
    case MAXU => MEM_UMAX
    case MIN => MEM_SMIN
    case MINU => MEM_UMIN
  }

  const TWO64: nat := 0x1_0000_0000_0000_0000

  function BitOr(a: nat, b: nat): nat
    decreases a + b
  {
    if a == 0 && b == 0 then 0
    else (if a % 2 == 1 || b % 2 == 1 then 1 else 0) + 2 * BitOr(a / 2, b / 2)
  }

  function BitXor(a: nat, b: nat): nat
    decreases a + b
  {
    if a == 0 && b == 0 then 0
    else (if a % 2 != b % 2 then 1 else 0) + 2 * BitXor(a / 2, b / 2)
  }

  /** `(int64_t)(int32_t)v` and `(int64_t)v`, by the size of the access. */
  function Signed(v: nat, bytes: nat): int {
    if bytes == 4 then (if v % TWO32 >= TWO32 / 2 then v % TWO32 - TWO32 else v % TWO32)
    else if v >= TWO64 / 2 then v - TWO64
    else v
  }

  /** hpdcache_test_amo::compute_amo */
  function ComputeCore(op: CoreAmo, ld: nat, st: nat, bytes: nat): nat
    requires ld < TWO64 && st < TWO64
  {
    match op
    case SWAP => st
    case ADD => (ld + st) % TWO64
    case AND => BitAnd(ld, st)
    case OR => BitOr(ld, st)
    case XOR => BitXor(ld, st)
    case MAX => if Signed(ld, bytes) > Signed(st, bytes) then ld else st
    case MAXU => if ld > st then ld else st
    case MIN => if Signed(ld, bytes) > Signed(st, bytes) then st else ld
    case MINU => if ld > st then st else ld
  }

  /** compute_amo of hpdcache_test_mem_resp_model_base */
  function ComputeMem(op: MemAmo, ld: nat, st: nat, bytes: nat): nat
    requires ld < TWO64 && st < TWO64
  {
    match op
    case MEM_ADD => (ld + st) % TWO64
    case MEM_CLR => BitAnd(ld, TWO64 - 1 - st)
    case MEM_SET => BitOr(ld, st)
    case MEM_EOR => BitXor(ld, st)
    case MEM_SMAX => if Signed(ld, bytes) > Signed(st, bytes) then ld else st
    case MEM_UMAX => if ld > st then ld else st
    case MEM_SMIN => if Signed(ld, bytes) > Signed(st, bytes) then st else ld
    case MEM_UMIN => if ld > st then st else ld
    case MEM_SWAP => st
  }

  // ------------------------------------------------------ reference definition

  /** The two's complement reading of a value of `size` bytes. */
  function Reading(v: nat, size: nat): int
    requires size > 0
  {
    TwosComplement(v, 8 * size - 1)
  }

  /** Section 8.4 of the RISC-V Unprivileged ISA on values of `size` bytes. */
  function Architectural(op: CoreAmo, a: nat, b: nat, size: nat): nat
    requires size > 0
  {
    match op
    case SWAP => b
    case ADD => (a + b) % Pow256(size)
    case AND => BitAnd(a, b)
    case OR => BitOr(a, b)
    case XOR => BitXor(a, b)
    case MAX => if Reading(a, size) < Reading(b, size) then b else a
    case MAXU => if a < b then b else a
    case MIN => if Reading(b, size) < Reading(a, size) then b else a
    case MINU => if b < a then b else a
  }

  lemma Powers()
    ensures Pow256(4) == TWO32 && Pow256(8) == TWO64
  {
    assert Pow256(8) == 256 * 256 * 256 * 256 * Pow256(4);
  }

  lemma SignedMeaning(v: nat, size: nat)
    requires (size == 4 || size == 8) && v < Pow256(size)
    ensures Signed(v, size) == Reading(v, size)
  {
    Powers();
    WordPowers();
    hide Pow2, Pow256;
  }

  /** For values that fit the access, the core unit computes the architectural result
      up to the bytes that the access does not write. */
  lemma CoreUnitCorrect(op: CoreAmo, a: nat, b: nat, size: nat)
    requires (size == 4 || size == 8) && a < Pow256(size) && b < Pow256(size)
    ensures a < TWO64 && b < TWO64
    ensures ComputeCore(op, a, b, size) % Pow256(size) == Architectural(op, a, b, size) % Pow256(size)
  {
    Powers();
    SignedMeaning(a, size);
    SignedMeaning(b, size);
    ReadingInjective(a, b, size);
    if op.ADD? {
      SumRemainder(a + b, size);
      hide Pow256;
    } else {
      hide Reading, Signed, BitAnd, BitOr, BitXor, Pow256;
      assert ComputeCore(op, a, b, size) == Architectural(op, a, b, size);
    }
  }

  lemma SumRemainder(x: nat, size: nat)
    requires size == 4 || size == 8
    ensures (x % TWO64) % Pow256(size) == (x % Pow256(size)) % Pow256(size)
  {
    Powers();
    NestedRemainder(x);
    hide Pow256;
  }

  lemma ReadingInjective(a: nat, b: nat, size: nat)
    requires (size == 4 || size == 8) && a < Pow256(size) && b < Pow256(size)
    ensures Reading(a, size) == Reading(b, size) ==> a == b
  {
    Powers();
    WordPowers();
    hide Pow2, Pow256;
  }

  lemma NestedRemainder(x: nat)
    ensures (x % TWO64) % TWO32 == x % TWO32
  {
    assert TWO64 == TWO32 * TWO32;
  }

  /** Masking with a number only looks at the bits that the other one can have. */
  lemma {:induction false} BitAndLow(a: nat, m: nat, k: nat)
    requires a < Pow2(k)
    ensures BitAnd(a, m) == BitAnd(a, m % Pow2(k))
    decreases k
  {
    if k == 0 {
      BitAndZero(m);
    } else {
      var p := Pow2(k - 1);
      BitAndLow(a / 2, m / 2, k - 1);
      RemainderDouble(m, p);
      BitAndUnfold(a, m);
      BitAndUnfold(a, m % Pow2(k));
    }
  }

  lemma {:induction false} BitAndZero(m: nat)
    ensures BitAnd(0, m) == 0
    decreases m
  {
    if m != 0 {
      BitAndZero(m / 2);
    }
  }

  lemma BitAndUnfold(a: nat, m: nat)
    ensures BitAnd(a, m) == (if a % 2 == 1 && m % 2 == 1 then 1 else 0) + 2 * BitAnd(a / 2, m / 2)
  {
    if m == 0 {
      assert BitAnd(a / 2, 0) == 0;
    }
  }

  /** The memory unit, given the operand that the cache sends (complemented for AND), agrees
      with the core unit on every value that fits the access. */
  lemma UnitsAgree(op: CoreAmo, a: nat, b: nat, size: nat)
    requires (size == 4 || size == 8) && a < Pow256(size) && b < Pow256(size)
    ensures a < TWO64 && b < TWO64 && Pow256(size) - 1 - b < TWO64
    ensures ComputeMem(ToMemory(op), a, if op.AND? then Pow256(size) - 1 - b else b, size)
            == ComputeCore(op, a, b, size)
  {
    Powers();
    hide BitAnd, Signed, Pow256;
    if op.AND? {
      ComplementMask(a, b, size);
    } else {
      hide ComputeMem, ComputeCore, ToMemory;
      SameUnits(op, a, b, size);
    }
  }

  lemma SameUnits(op: CoreAmo, a: nat, b: nat, size: nat)
    requires !op.AND? && a < TWO64 && b < TWO64
    ensures ComputeMem(ToMemory(op), a, b, size) == ComputeCore(op, a, b, size)
  {
    hide BitAnd, BitOr, BitXor, Signed;
  }

  /** Clearing the bits of the complement keeps the bits of the operand. */
  lemma ComplementMask(a: nat, b: nat, size: nat)
    requires (size == 4 || size == 8) && a < Pow256(size) && b < Pow256(size)
    ensures var m := TWO64 - 1 - (Pow256(size) - 1 - b);
            m >= 0 && BitAnd(a, m) == BitAnd(a, b)
  {
    Powers();
    WordPowers();
    hide Pow2, BitAnd, Pow256;
    if size == 4 {
      var m := TWO64 - 1 - (TWO32 - 1 - b);
      BitAndLow(a, m, 32);
      RemainderUnique(m, TWO32, TWO32 - 1, b);
    }
  }

  // ------------------------------------------------------------- bits and extremes

  /** Bit `k` of `x`. */
  predicate Bit(x: nat, k: nat) { (x / Pow2(k)) % 2 == 1 }

  lemma DivideTwice(x: nat, p: nat)
    requires p > 0
    ensures (x / 2) / p == x / (2 * p)
  {
    var q, r := (x / 2) / p, (x / 2) % p;
    MulDouble(q, p);
    RemainderUnique(x, 2 * p, q, 2 * r + x % 2);
  }

  lemma BitAbove(x: nat, k: nat)
    requires k > 0
    ensures Bit(x, k) == Bit(x / 2, k - 1)
  {
    DivideTwice(x, Pow2(k - 1));
  }

  lemma BitBelow(x: nat)
    ensures Bit(x, 0) <==> x % 2 == 1
  {
    assert Pow2(0) == 1;
  }

  lemma {:induction false} AndBit(a: nat, b: nat, k: nat)
    ensures Bit(BitAnd(a, b), k) <==> Bit(a, k) && Bit(b, k)
    decreases k
  {
    var r := BitAnd(a, b);
    BitAndUnfold(a, b);
    hide BitAnd, Bit;
    if k == 0 {
      BitBelow(a);
      BitBelow(b);
      BitBelow(r);
    } else {
      BitAbove(a, k);
      BitAbove(b, k);
      BitAbove(r, k);
      AndBit(a / 2, b / 2, k - 1);
    }
  }

  lemma OrUnfold(a: nat, b: nat)
    ensures BitOr(a, b) == (if a % 2 == 1 || b % 2 == 1 then 1 else 0) + 2 * BitOr(a / 2, b / 2)
  {
    if a == 0 && b == 0 {
      assert BitOr(0, 0) == 0;
    }
  }

  lemma {:induction false} OrBit(a: nat, b: nat, k: nat)
    ensures Bit(BitOr(a, b), k) <==> Bit(a, k) || Bit(b, k)
    decreases k
  {
    var r := BitOr(a, b);
    OrUnfold(a, b);
    hide BitOr, Bit;
    if k == 0 {
      BitBelow(a);
      BitBelow(b);
      BitBelow(r);
    } else {
      BitAbove(a, k);
      BitAbove(b, k);
      BitAbove(r, k);
      OrBit(a / 2, b / 2, k - 1);
    }
  }

  lemma XorUnfold(a: nat, b: nat)
    ensures BitXor(a, b) == (if a % 2 != b % 2 then 1 else 0) + 2 * BitXor(a / 2, b / 2)
  {
    if a == 0 && b == 0 {
      assert BitXor(0, 0) == 0;
    }
  }

  lemma {:induction false} XorBit(a: nat, b: nat, k: nat)
    ensures Bit(BitXor(a, b), k) <==> Bit(a, k) != Bit(b, k)
    decreases k
  {
    var r := BitXor(a, b);
    XorUnfold(a, b);
    hide BitXor, Bit;
    if k == 0 {
      BitBelow(a);
      BitBelow(b);
      BitBelow(r);
    } else {
      BitAbove(a, k);
      BitAbove(b, k);
      BitAbove(r, k);
      XorBit(a / 2, b / 2, k - 1);
    }
  }

  /** What the architecture asks of the logical operations, bit by bit, and of the others as numbers. */
  lemma ArchitecturalMeaning(op: CoreAmo, a: nat, b: nat, size: nat, k: nat)
    requires size > 0
    ensures var r := Architectural(op, a, b, size);
            match op
            case SWAP => r == b
            case ADD => r == (a + b) % Pow256(size)
            case AND => Bit(r, k) <==> Bit(a, k) && Bit(b, k)
            case OR => Bit(r, k) <==> Bit(a, k) || Bit(b, k)
            case XOR => Bit(r, k) <==> Bit(a, k) != Bit(b, k)
            case MAX => (r == a || r == b) && Reading(r, size) >= Reading(a, size) && Reading(r, size) >= Reading(b, size)
            case MIN => (r == a || r == b) && Reading(r, size) <= Reading(a, size) && Reading(r, size) <= Reading(b, size)
            case MAXU => (r == a || r == b) && r >= a && r >= b
            case MINU => (r == a || r == b) && r <= a && r <= b
  {
    AndBit(a, b, k);
    OrBit(a, b, k);
    XorBit(a, b, k);
    hide Bit, BitAnd, BitOr, BitXor, Reading;
  }
}
