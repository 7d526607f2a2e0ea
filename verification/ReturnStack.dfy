// The return-address stack (class Ras). Addresses are pushed on calls and
// dropped on returns; the predictor reads the address dropped last.
module ReturnStack {
  import opened Prelude
  import opened Instructions

  /** `depth` is the constructor argument minus one, as in Ras.__init__. */
  datatype RasState = RasState(depth: int, stack: seq<nat>, lastDropped: Option<nat>)
  {
    function Push(addr: nat): RasState {
      var s := stack + [addr];
      this.(stack := if |s| > depth then s[1..] else s)
    }

    function Drop(): RasState {
      if |stack| > 0
      then this.(lastDropped := Some(stack[|stack| - 1]), stack := stack[..|stack| - 1])
      else this.(lastDropped := None)
    }

    function Read(): Option<nat> { lastDropped }

    function Resolve(op: Op): RasState {
      var r := if op.isRet then Drop() else this;
      if op.isCall then r.Push(op.NextAddr()) else r
    }
  }

  function NewRas(depth: nat): RasState { RasState(depth - 1, [], None) }

  /** The stack after issuing `ops` in order. */
  function ResolveAll(r: RasState, ops: seq<Op>): RasState {
    if ops == [] then r else ResolveAll(r, ops[..|ops| - 1]).Resolve(ops[|ops| - 1])
  }
}
