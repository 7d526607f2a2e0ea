// Decoding of isa.py: from the binary code of an instruction to the record that
// the scheduler works on. A base that Instr.type_of_base lacks decodes to None,
// where the source's fields() raises KeyError.
module Isa {
  import opened Prelude
  import opened BitFields
  import opened Immediates
  import opened Instructions
  import Pipeline

  datatype Base =
    | OpImm | Lui | Auipc | OpReg | Op32 | Jal | Jalr | BranchBase | LoadBase | StoreBase | System
    | CAddi4spn | CFld | CLw | CFlw | CFsd | CSw | CFsw
    | CAddi | CJal | CLi | CLuiAddi16sp | MiscAlu | CJ | CBeqz | CBnez
    | CSlli | CFldsp | CLwsp | CFlwsp | CJrMvAdd | CFsdsp | CSwsp | CFswsp
    | Unsupported

  predicate Compressed(bin: Code) { Field(bin, 0, 2) < 3 }

  /** Instr.table_24_1 at `line`, `col`; the rows not in type_of_base are Unsupported. */
  function Base32(line: nat, col: nat): Base {
    match (line, col)
    case (0, 0) => LoadBase
    case (0, 4) => OpImm
    case (0, 5) => Auipc
    case (1, 0) => StoreBase
    case (1, 4) => OpReg
    case (1, 5) => Lui
    case (1, 6) => Op32
    case (3, 0) => BranchBase
    case (3, 1) => Jalr
    case (3, 3) => Jal
    case (3, 4) => System
    case _ => Unsupported
  }

  /** Instr.table_16_4_RV32. */
  function Base16(line: nat, col: nat): Base {
    match (line, col)
    case (0, 0) => CAddi4spn
    case (0, 1) => CFld
    case (0, 2) => CLw
    case (0, 3) => CFlw
    case (0, 5) => CFsd
    case (0, 6) => CSw
    case (0, 7) => CFsw
    case (1, 0) => CAddi
    case (1, 1) => CJal
    case (1, 2) => CLi
    case (1, 3) => CLuiAddi16sp
    case (1, 4) => MiscAlu
    case (1, 5) => CJ
    case (1, 6) => CBeqz
    case (1, 7) => CBnez
    case (2, 0) => CSlli
    case (2, 1) => CFldsp
    case (2, 2) => CLwsp
    case (2, 3) => CFlwsp
    case (2, 4) => CJrMvAdd
    case (2, 5) => CFsdsp
    case (2, 6) => CSwsp
    case (2, 7) => CFswsp
    case _ => Unsupported
  }

  function BaseOf(bin: Code): Base {
    if Compressed(bin) then Base16(Field(bin, 0, 2), Field(bin, 13, 3))
    else Base32(Field(bin, 5, 2), Field(bin, 2, 3))
  }

  const SP: nat := 2

  // Register fields of the 32-bit and of the compressed formats.
  function Rd(bin: Code): nat { Field(bin, 7, 5) }
  function Rs1(bin: Code): nat { Field(bin, 15, 5) }
  function Rs2(bin: Code): nat { Field(bin, 20, 5) }
  function CRs2(bin: Code): nat { Field(bin, 2, 5) }
  function CHigh(bin: Code): nat { Field(bin, 7, 3) + 8 }
  function CLow(bin: Code): nat { Field(bin, 2, 3) + 8 }

  /** The names CRtype tells apart inside one base. */
  datatype CrName = CEbreak | CJalr | CAdd | CJr | CMv

  function CrNameOf(bin: Code): CrName {
    if Field(bin, 12, 1) == 1 then
      if CRs2(bin) == 0 then (if Rd(bin) == 0 then CEbreak else CJalr) else CAdd
    else if CRs2(bin) == 0 then CJr
    else CMv
  }

  datatype Regs = Regs(rd: Option<nat>, rs1: Option<nat>, rs2: Option<nat>)

  /** The register attributes that the format classes set (hasattr in the source). */
  function RegsOf(base: Base, bin: Code): Regs {
    match base
    case OpImm => Regs(Some(Rd(bin)), Some(Rs1(bin)), None)
    case Jalr => Regs(Some(Rd(bin)), Some(Rs1(bin)), None)
    case LoadBase => Regs(Some(Rd(bin)), Some(Rs1(bin)), None)
    case System => Regs(Some(Rd(bin)), Some(Rs1(bin)), None)
    case Lui => Regs(Some(Rd(bin)), None, None)
    case Auipc => Regs(Some(Rd(bin)), None, None)
    case Jal => Regs(Some(Rd(bin)), None, None)
    case OpReg => Regs(Some(Rd(bin)), Some(Rs1(bin)), Some(Rs2(bin)))
    case Op32 => Regs(Some(Rd(bin)), Some(Rs1(bin)), Some(Rs2(bin)))
    case BranchBase => Regs(None, Some(Rs1(bin)), Some(Rs2(bin)))
    case StoreBase => Regs(None, Some(Rs1(bin)), Some(Rs2(bin)))
    case CAddi4spn => Regs(Some(CLow(bin)), Some(SP), None)
    case CFld => Regs(Some(CLow(bin)), Some(CHigh(bin)), None)
    case CLw => Regs(Some(CLow(bin)), Some(CHigh(bin)), None)
    case CFlw => Regs(Some(CLow(bin)), Some(CHigh(bin)), None)
    case CFsd => Regs(None, Some(CHigh(bin)), Some(CLow(bin)))
    case CSw => Regs(None, Some(CHigh(bin)), Some(CLow(bin)))
    case CFsw => Regs(None, Some(CHigh(bin)), Some(CLow(bin)))
    case CAddi => Regs(Some(Rd(bin)), Some(Rd(bin)), None)
    case CSlli => Regs(Some(Rd(bin)), Some(Rd(bin)), None)
    case CLi => Regs(Some(Rd(bin)), None, None)
    case CLuiAddi16sp => Regs(Some(Rd(bin)), if Rd(bin) == SP then Some(Rd(bin)) else None, None)
    case MiscAlu =>
      Regs(Some(CHigh(bin)), Some(CHigh(bin)), if Field(bin, 10, 2) == 3 then Some(CLow(bin)) else None)
    case CBeqz => Regs(None, Some(CHigh(bin)), None)
    case CBnez => Regs(None, Some(CHigh(bin)), None)
    case CFldsp => Regs(Some(Rd(bin)), Some(SP), None)
    case CLwsp => Regs(Some(Rd(bin)), Some(SP), None)
    case CFlwsp => Regs(Some(Rd(bin)), Some(SP), None)
    case CFsdsp => Regs(None, Some(SP), Some(CRs2(bin)))
    case CSwsp => Regs(None, Some(SP), Some(CRs2(bin)))
    case CFswsp => Regs(None, Some(SP), Some(CRs2(bin)))
    case CJrMvAdd =>
      Regs(if CrNameOf(bin).CMv? || CrNameOf(bin).CAdd? then Some(Rd(bin)) else None, Some(Rd(bin)), Some(CRs2(bin)))
    case CJ => Regs(None, None, None)
    case CJal => Regs(None, None, None)
    case Unsupported => Regs(None, None, None)
  }

  function ClassOf(base: Base, bin: Code): Class {
    match base
    case BranchBase => Branch
    case CBeqz => Branch
    case CBnez => Branch
    case Jal => Jump
    case CJal => Jump
    case CJ => Jump
    case Jalr => RegJump
    case CJrMvAdd => if CrNameOf(bin).CJalr? || CrNameOf(bin).CJr? then RegJump else Other
    case OpReg => if IsMulDiv(bin) then MulDiv else Other
    case Op32 => if IsMulDiv(bin) then MulDiv else Other
    case LoadBase => Load
    case CLw => Load
    case CLwsp => Load
    case CFld => Load
    case CFlw => Load
    case CFldsp => Load
    case CFlwsp => Load
    case StoreBase => Store
    case CSw => Store
    case CSwsp => Store
    case CFsd => Store
    case CFsw => Store
    case CFsdsp => Store
    case CFswsp => Store
    case _ => Other
  }

  predicate IsMulDiv(bin: Code) {
    var funct7, funct3 := Field(bin, 25, 7), Field(bin, 12, 3);
    funct7 == 1 || (funct7 == 5 && (funct3 == 1 || funct3 == 3))
  }

  /** ra and t0, the registers CVA6 takes for return addresses. */
  predicate LinkRegister(r: Option<nat>) { r == Some(1) || r == Some(5) }

  /** The branch displacement as the format classes leave it, sign-extended to 32 bits. */
  function OffsetOf(base: Base, cls: Class, bin: Code): nat {
    if base.BranchBase? then SignedImm(BType, bin)
    else if cls.Branch? then SignedImm(CBType, bin)
    else 0
  }

  function Decode(bin: Code, address: nat): Option<Op> {
    var base := BaseOf(bin);
    if base.Unsupported? then None
    else
      var regs, cls := RegsOf(base, bin), ClassOf(base, bin);
      Some(Op(address, if Compressed(bin) then 2 else 4, cls, regs.rd, regs.rs1, regs.rs2, OffsetOf(base, cls, bin),
              base.CJal? || (base.CJrMvAdd? && CrNameOf(bin).CJalr?)
              || ((base.Jal? || base.Jalr?) && LinkRegister(regs.rd)),
              cls.RegJump? && LinkRegister(regs.rs1) && (Compressed(bin) || regs.rs1 != regs.rd)))
  }

  lemma SignedImmBound(l: Layouts, word: Code)
    requires IsSigned(l)
    ensures SignedImm(l, word) < 0x1_0000_0000
    ensures ToSigned(SignedImm(l, word)) == ToSignedBits(SignedImm(l, word), 32)
  {
    SignedImmFits(l, word);
    var v := SignedImm(l, word);
    hide *;
    ToSigned32(v);
  }

  lemma ToSigned32(v: nat)
    requires v < Pow2(32)
    ensures v < 0x1_0000_0000 && ToSigned(v) == ToSignedBits(v, 32)
  {
    WordPowers();
    hide Pow2;
  }

  /** Every decoded instruction meets the scheduler's expectations. */
  lemma DecodeValid(bin: Code, address: nat)
    requires Decode(bin, address).Some?
    ensures var op := Decode(bin, address).value;
            && op.Valid() && op.address == address
            && (op.isRet ==> op.cls.RegJump?)
            && (op.isCall ==> op.cls.Jump? || op.cls.RegJump?)
            && (op.rd.Some? ==> op.rd.value < 32) && (op.rs1.Some? ==> op.rs1.value < 32)
            && (op.rs2.Some? ==> op.rs2.value < 32)
  {
    OffsetFits(BaseOf(bin), ClassOf(BaseOf(bin), bin), bin);
    RegistersFit(BaseOf(bin), bin);
    hide OffsetOf, BaseOf, RegsOf, CrNameOf;
  }

  lemma OffsetFits(base: Base, cls: Class, bin: Code)
    ensures OffsetOf(base, cls, bin) < 0x1_0000_0000
  {
    SignedImmBound(BType, bin);
    SignedImmBound(CBType, bin);
    hide SignedImm;
  }

  lemma RegistersFit(base: Base, bin: Code)
    ensures var r := RegsOf(base, bin);
            && (r.rd.Some? ==> r.rd.value < 32) && (r.rs1.Some? ==> r.rs1.value < 32)
            && (r.rs2.Some? ==> r.rs2.value < 32)
  {
    FieldsFit(bin);
    hide Field;
  }

  lemma FieldsFit(bin: Code)
    ensures Field(bin, 7, 5) < 32 && Field(bin, 15, 5) < 32 && Field(bin, 20, 5) < 32 && Field(bin, 2, 5) < 32
    ensures Field(bin, 7, 3) < 8 && Field(bin, 2, 3) < 8
  {
    assert Pow2(5) == 32 && Pow2(3) == 8;
    hide Pow2;
  }

  /** The branch layout of a word with this base. */
  function BranchLayout(bin: Code): Layouts { if Compressed(bin) then CBType else BType }

  /** A displacement that the layout of this branch word can hold. */
  predicate BranchRange(bin: Code, imm: int) {
    var half := Pow2(FormatOf(BranchLayout(bin)).bits - 1);
    -imm <= half && imm < half && imm % 2 == 0
  }

  /** The word scatters the displacement as the layout says. */
  predicate BranchEncodes(bin: Code, imm: int) {
    var f := FormatOf(BranchLayout(bin));
    Encodes(f.pieces, bin, LowBits(imm, f.bits))
  }

  /** A branch word that encodes a displacement decodes to that displacement, and conversely. */
  lemma BranchOffset(bin: Code, address: nat, imm: int)
    requires Decode(bin, address).Some? && Decode(bin, address).value.cls.Branch?
    requires BranchRange(bin, imm)
    ensures ToSigned(Decode(bin, address).value.offset) == imm <==> BranchEncodes(bin, imm)
  {
    var l := BranchLayout(bin);
    DecodedOffset(bin, address);
    SignedImmBound(l, bin);
    BranchAlignment(l);
    hide Decode, FormatOf, SignedImm, Pow2;
    SignedRoundTrip(l, bin, imm);
  }

  lemma BranchAlignment(l: Layouts)
    requires l == BType || l == CBType
    ensures Pow2(FormatOf(l).lo) == 2
  {
  }

  lemma DecodedOffset(bin: Code, address: nat)
    requires Decode(bin, address).Some? && Decode(bin, address).value.cls.Branch?
    ensures var l := BranchLayout(bin);
            IsSigned(l) && Decode(bin, address).value.offset == SignedImm(l, bin)
  {
    BranchBases(bin);
    hide SignedImm, RegsOf, LinkRegister, BaseOf, ClassOf;
  }

  lemma BranchBases(bin: Code)
    requires ClassOf(BaseOf(bin), bin).Branch?
    ensures BaseOf(bin).BranchBase? <==> !Compressed(bin)
  {
    hide Field;
  }

  /** A branch is predicted at its architectural target when the counter of its entry is at least
      two or, without history, when it goes backwards; and behind it otherwise. */
  lemma TakenBranchTarget(m: Pipeline.Machine, bin: Code, address: nat, imm: int)
    requires m.Valid() && Decode(bin, address).Some? && Decode(bin, address).value.cls.Branch?
    requires BranchRange(bin, imm) && BranchEncodes(bin, imm)
    ensures var e := m.bht[(address / 2) % |m.bht|];
            var taken := if e.valid then e.satCounter >= 2 else imm < 0;
            Pipeline.PredictPc(m, Decode(bin, address).value)
            == Some(address + if taken then imm else if bin % 4 == 3 then 4 else 2)
  {
    hide Decode, BranchRange, BranchEncodes;
    BranchOffset(bin, address, imm);
    DecodeValid(bin, address);
    var op := Decode(bin, address).value;
    hide *;
    BranchPc(m, op);
    DecodedSize(bin, address);
  }

  lemma BranchPc(m: Pipeline.Machine, op: Op)
    requires m.Valid() && op.cls.Branch? && op.Valid()
    ensures var e := m.bht[(op.address / 2) % |m.bht|];
            var taken := if e.valid then e.satCounter >= 2 else ToSigned(op.offset) < 0;
            Pipeline.PredictPc(m, op) == Some(op.address + if taken then ToSigned(op.offset) else op.size)
  {
  }

  lemma DecodedSize(bin: Code, address: nat)
    requires Decode(bin, address).Some?
    ensures Decode(bin, address).value.size == if bin % 4 == 3 then 4 else 2
  {
    hide OffsetOf, BaseOf, RegsOf, ClassOf;
    assert Pow2(0) == 1 && Pow2(2) == 4;
  }

  /** An untrained branch is predicted taken exactly when it goes backwards. */
  lemma StaticPrediction(m: Pipeline.Machine, bin: Code, address: nat)
    requires m.Valid() && Decode(bin, address).Some? && Decode(bin, address).value.cls.Branch?
    requires !m.bht[(address / 2) % |m.bht|].valid
    ensures var op := Decode(bin, address).value;
            Pipeline.PredictBranch(m, op) <==> ToSigned(op.offset) < 0
  {
    DecodeValid(bin, address);
    hide Decode;
  }
}
