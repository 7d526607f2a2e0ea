// Classes and operands by the opcodes of the RISC-V instruction set, against the
// tables and format classes of isa.py.
module Opcodes {
  import opened Prelude
  import opened BitFields
  import opened Immediates
  import opened Instructions
  import opened Isa

  /** What the scheduler learns from a decoded instruction besides its address and displacement. */
  datatype Shape = Shape(cls: Class, rd: Option<nat>, rs1: Option<nat>, rs2: Option<nat>, isCall: bool, isRet: bool)

  function ShapeOf(decoded: Option<Op>): Option<Shape> {
    match decoded
    case None => None
    case Some(op) => Some(Shape(op.cls, op.rd, op.rs1, op.rs2, op.isCall, op.isRet))
  }

  /** x1 and x5, the registers for return addresses. */
  predicate Link(r: nat) { r == 1 || r == 5 }

  /** Chapter "RV32/64G Instruction Set Listings": the 32-bit instructions by their low seven bits. */
  function Standard32(bin: Code): Option<Shape> {
    var rd, rs1, rs2 := (bin / 0x80) % 32, (bin / 0x8000) % 32, (bin / 0x10_0000) % 32;
    var funct7, funct3 := (bin / 0x200_0000) % 128, (bin / 0x1000) % 8;
    var op := bin % 128;
    if op == 0x03 then Plain(Load, Some(rd), Some(rs1), None)
    else if op == 0x23 then Plain(Store, None, Some(rs1), Some(rs2))
    else if op == 0x63 then Plain(Branch, None, Some(rs1), Some(rs2))
    else if op == 0x67 then Some(Shape(RegJump, Some(rd), Some(rs1), None, Link(rd), Link(rs1) && rs1 != rd))
    else if op == 0x6f then Some(Shape(Jump, Some(rd), None, None, Link(rd), false))
    else if op == 0x13 || op == 0x73 then Plain(Other, Some(rd), Some(rs1), None)
    else if op == 0x17 || op == 0x37 then Plain(Other, Some(rd), None, None)
    else if op == 0x33 || op == 0x3b then
      // The multiplications and divisions are those with funct7 1; funct7 5 holds carry-less
      // products (1 and 3) beside minima and maxima.
      var muldiv := funct7 == 1 || (funct7 == 5 && (funct3 == 1 || funct3 == 3));
      Plain(if muldiv then MulDiv else Other, Some(rd), Some(rs1), Some(rs2))
    else None
  }

  function Plain(cls: Class, rd: Option<nat>, rs1: Option<nat>, rs2: Option<nat>): Option<Shape> {
    Some(Shape(cls, rd, rs1, rs2, false, false))
  }

  /** Chapter "RVC": the compressed instructions of RV32 by quadrant and funct3. */
  function Standard16(bin: Code): Option<Shape> {
    var r, r2, low, high := (bin / 0x80) % 32, (bin / 4) % 32, 8 + (bin / 4) % 8, 8 + (bin / 0x80) % 8;
    var funct3 := (bin / 0x2000) % 8;
    if bin % 4 == 0 then
      if funct3 == 0 then Plain(Other, Some(low), Some(2), None)
      else if funct3 < 4 then Plain(Load, Some(low), Some(high), None)
      else if funct3 == 4 then None
      else Plain(Store, None, Some(high), Some(low))
    else if bin % 4 == 1 then
      if funct3 == 0 then Plain(Other, Some(r), Some(r), None)
      else if funct3 == 1 then Some(Shape(Jump, None, None, None, true, false))
      else if funct3 == 2 then Plain(Other, Some(r), None, None)
      else if funct3 == 3 then Plain(Other, Some(r), if r == 2 then Some(2) else None, None)
      else if funct3 == 4 then
        Plain(Other, Some(high), Some(high), if (bin / 0x400) % 4 == 3 then Some(low) else None)
      else if funct3 == 5 then Plain(Jump, None, None, None)
      else Plain(Branch, None, Some(high), None)
    else
      if funct3 == 0 then Plain(Other, Some(r), Some(r), None)
      else if funct3 < 4 then Plain(Load, Some(r), Some(2), None)
      else if funct3 > 4 then Plain(Store, None, Some(2), Some(r2))
      else if r2 != 0 then Plain(Other, Some(r), Some(r), Some(r2))
      else if (bin / 0x1000) % 2 == 0 then Some(Shape(RegJump, None, Some(r), Some(0), false, Link(r)))
      else if r == 0 then Plain(Other, None, Some(0), Some(0))
      else Some(Shape(RegJump, None, Some(r), Some(0), true, Link(r)))
  }

  lemma FieldValues(bin: Code)
    ensures Field(bin, 0, 2) == bin % 4 && Field(bin, 2, 3) == (bin / 4) % 8 && Field(bin, 5, 2) == (bin / 0x20) % 4
    ensures Field(bin, 7, 5) == (bin / 0x80) % 32 && Field(bin, 15, 5) == (bin / 0x8000) % 32
    ensures Field(bin, 20, 5) == (bin / 0x10_0000) % 32 && Field(bin, 2, 5) == (bin / 4) % 32
    ensures Field(bin, 7, 3) == (bin / 0x80) % 8 && Field(bin, 10, 2) == (bin / 0x400) % 4
    ensures Field(bin, 12, 1) == (bin / 0x1000) % 2 && Field(bin, 12, 3) == (bin / 0x1000) % 8
    ensures Field(bin, 13, 3) == (bin / 0x2000) % 8 && Field(bin, 25, 7) == (bin / 0x200_0000) % 128
  {
    assert Pow2(0) == 1 && Pow2(1) == 2 && Pow2(2) == 4 && Pow2(3) == 8 && Pow2(5) == 0x20;
    assert Pow2(7) == 0x80 && Pow2(10) == 0x400 && Pow2(12) == 0x1000 && Pow2(13) == 0x2000;
    assert Pow2(15) == 0x8000 && Pow2(20) == 0x10_0000 && Pow2(25) == 0x200_0000;
    hide Pow2;
  }

  /** The two table indices of a 32-bit instruction are its low seven bits. */
  lemma OpcodeIndices(bin: Code)
    requires bin % 4 == 3
    ensures bin % 128 == 32 * ((bin / 0x20) % 4) + 4 * ((bin / 4) % 8) + 3
  {
    var rest, col := bin % 128, (bin % 128) / 4;
    RemainderUnique(bin, 4, 32 * (bin / 128) + col, rest % 4);
    RemainderUnique(bin / 4, 8, 4 * (bin / 128) + col / 8, col % 8);
    RemainderUnique(bin, 32, 4 * (bin / 128) + col / 8, rest % 32);
    RemainderUnique(bin / 32, 4, bin / 128, col / 8);
  }

  /** A word decodes exactly when the standard's listing has its opcode among the modelled ones,
      and then to the class, operands and link behaviour of the listing. */
  lemma DecodesListed(bin: Code, address: nat)
    ensures ShapeOf(Decode(bin, address)) == if bin % 4 == 3 then Standard32(bin) else Standard16(bin)
  {
    if bin % 4 == 3 {
      Decodes32(bin, address);
    } else {
      Decodes16(bin, address);
    }
  }

  lemma Decodes32(bin: Code, address: nat)
    requires bin % 4 == 3
    ensures ShapeOf(Decode(bin, address)) == Standard32(bin)
  {
    hide Field, OffsetOf, Pow2;
    FieldValues(bin);
    OpcodeIndices(bin);
  }

  lemma Decodes16(bin: Code, address: nat)
    requires bin % 4 != 3
    ensures ShapeOf(Decode(bin, address)) == Standard16(bin)
  {
    hide Field, OffsetOf, Pow2;
    FieldValues(bin);
  }
}
