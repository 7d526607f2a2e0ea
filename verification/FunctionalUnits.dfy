// Busy flags of the functional units (class FusBusy).
module FunctionalUnits {
  import opened Instructions

  datatype Fu = ALU | MUL | BRANCH | LDU | STU

  function ToFu(op: Op): Fu {
    match op.cls
    case Branch => BRANCH
    case Jump => BRANCH
    case RegJump => BRANCH
    case MulDiv => MUL
    case Load => LDU
    case Store => STU
    case Other => ALU
  }

  datatype Fus = Fus(
    hasAlu2: bool, alu: bool, mul: bool, branch: bool, ldu: bool, stu: bool, alu2: bool,
    issuedMul: bool)
  {
    predicate Alu2Ready() { hasAlu2 && !alu2 }

    predicate IsReady(fu: Fu) {
      match fu
      case ALU => Alu2Ready() || !alu
      case MUL => !mul
      case BRANCH => !branch
      case LDU => !ldu
      case STU => !stu
    }

    predicate IsReadyFor(op: Op) { IsReady(ToFu(op)) }

    /** The unit that FusBusy.issue hands the instruction to. */
    function Serves(op: Op): ServedBy {
      match ToFu(op)
      case ALU => if Alu2Ready() then SecondAlu else FirstAlu
      case MUL => Multiplier
      case BRANCH => BranchUnit
      case LDU => MemoryUnit
      case STU => MemoryUnit
    }

    // The precondition is the `assert not self.alu` of FusBusy.issue_alu.
    function Issue(op: Op): Fus
      requires ToFu(op).ALU? && !Alu2Ready() ==> !alu
    {
      match ToFu(op)
      case ALU => if Alu2Ready() then this.(alu2 := true) else this.(alu := true, branch := true)
      case MUL => this.(mul := true, issuedMul := true)
      case BRANCH => this.(alu := true, branch := true, stu := true)
      case LDU => this.(ldu := true, stu := true)
      case STU => this.(stu := true, ldu := true)
    }

    function Cycle(): Fus {
      this.(alu := issuedMul, mul := false, branch := issuedMul, ldu := false, stu := false,
            alu2 := false, issuedMul := false)
    }
  }

  function NewFus(hasAlu2: bool): Fus {
    Fus(hasAlu2, false, false, false, false, false, false, false)
  }
}
