// The bounded return-address stack against an unbounded one, and the exact
// condition under which a return is predicted to its matching call.
module Returns {
  import opened Prelude
  import opened Instructions
  import opened ReturnStack

  // ------------------------------------------------------------- ideal stack

  function IdealStep(stack: seq<nat>, op: Op): seq<nat> {
    var s := if op.isRet && |stack| > 0 then stack[..|stack| - 1] else stack;
    if op.isCall then s + [op.NextAddr()] else s
  }

  function Ideal(ops: seq<Op>): seq<nat> {
    if ops == [] then [] else IdealStep(Ideal(ops[..|ops| - 1]), ops[|ops| - 1])
  }

  predicate IsTopOf(top: seq<nat>, whole: seq<nat>) {
    |top| <= |whole| && top == whole[|whole| - |top|..]
  }

  lemma DropTop(top: seq<nat>, whole: seq<nat>)
    requires IsTopOf(top, whole) && |top| > 0
    ensures |whole| > 0 && IsTopOf(top[..|top| - 1], whole[..|whole| - 1])
  {
    var n := |whole| - |top|;
    assert top[..|top| - 1] == whole[n..][..|top| - 1] == whole[..|whole| - 1][n..];
  }

  lemma EmptyTop(whole: seq<nat>)
    ensures IsTopOf([], whole)
  {
  }

  lemma AddTop(top: seq<nat>, whole: seq<nat>, x: nat)
    requires IsTopOf(top, whole)
    ensures IsTopOf(top + [x], whole + [x])
  {
    var n := |whole| - |top|;
    assert (whole + [x])[n..] == whole[n..] + [x];
  }

  lemma ForgetTop(top: seq<nat>, whole: seq<nat>)
    requires IsTopOf(top, whole) && |top| > 0
    ensures IsTopOf(top[1..], whole)
  {
    var n := |whole| - |top|;
    assert top[1..] == whole[n..][1..] == whole[n + 1..];
  }

  lemma DropKeepsTop(r: RasState, whole: seq<nat>)
    requires IsTopOf(r.stack, whole)
    ensures IsTopOf(r.Drop().stack, if |whole| > 0 then whole[..|whole| - 1] else whole)
  {
    if |r.stack| > 0 {
      DropTop(r.stack, whole);
    } else {
      EmptyTop(if |whole| > 0 then whole[..|whole| - 1] else whole);
    }
    hide IsTopOf;
  }

  lemma PushKeepsTop(r: RasState, whole: seq<nat>, addr: nat)
    requires IsTopOf(r.stack, whole) && |r.stack| <= Max(0, r.depth)
    ensures IsTopOf(r.Push(addr).stack, whole + [addr]) && |r.Push(addr).stack| <= Max(0, r.depth)
  {
    AddTop(r.stack, whole, addr);
    ForgetTop(r.stack + [addr], whole + [addr]);
    hide IsTopOf;
  }

  lemma ResolveKeepsTop(r: RasState, whole: seq<nat>, op: Op)
    requires IsTopOf(r.stack, whole) && |r.stack| <= Max(0, r.depth)
    ensures var r' := r.Resolve(op);
            IsTopOf(r'.stack, IdealStep(whole, op)) && |r'.stack| <= Max(0, r'.depth) && r'.depth == r.depth
  {
    hide IsTopOf;
    var r1, s1 := r, whole;
    if op.isRet {
      DropKeepsTop(r, whole);
      r1, s1 := r.Drop(), if |whole| > 0 then whole[..|whole| - 1] else whole;
    }
    if op.isCall {
      PushKeepsTop(r1, s1, op.NextAddr());
    }
  }

  /** Forgetting the oldest entries is the only thing the bound does. */
  lemma {:induction false} BoundedIsTopOfIdeal(depth: nat, ops: seq<Op>)
    ensures var r := ResolveAll(NewRas(depth), ops);
            IsTopOf(r.stack, Ideal(ops)) && |r.stack| <= Max(0, depth - 1) && r.depth == depth - 1
  {
    hide *;
    StackAtStart(depth);
    if ops != [] {
      var front, op := ops[..|ops| - 1], ops[|ops| - 1];
      BoundedIsTopOfIdeal(depth, front);
      StackStep(depth, ops);
      ResolveKeepsTop(ResolveAll(NewRas(depth), front), Ideal(front), op);
    }
  }

  lemma StackAtStart(depth: nat)
    ensures var r := ResolveAll(NewRas(depth), []);
            IsTopOf(r.stack, Ideal([])) && |r.stack| <= Max(0, depth - 1) && r.depth == depth - 1
  {
  }

  /** Both stacks after one more instruction. */
  lemma StackStep(depth: nat, ops: seq<Op>)
    requires ops != []
    ensures var front, op := ops[..|ops| - 1], ops[|ops| - 1];
            && ResolveAll(NewRas(depth), ops) == ResolveAll(NewRas(depth), front).Resolve(op)
            && Ideal(ops) == IdealStep(Ideal(front), op)
  {
    hide RasState.Resolve, IdealStep, NewRas;
  }

  // ---------------------------------------------------------------- matching

  /** Calls minus returns among the first `k` instructions. */
  function Depth(ops: seq<Op>, k: nat): int
    requires k <= |ops|
  {
    if k == 0 then 0
    else Depth(ops, k - 1) + (if ops[k - 1].isCall then 1 else 0) - (if ops[k - 1].isRet then 1 else 0)
  }

  /** Depth above the frame opened by call `i`, just before instruction `k`; 1 in its body. */
  function Nesting(ops: seq<Op>, i: nat, k: nat): int
    requires i < |ops| && k <= |ops|
  {
    Depth(ops, k) - Depth(ops, i + 1) + 1
  }

  /** Return `j` closes the frame that call `i` opened. */
  predicate Matches(ops: seq<Op>, i: nat, j: nat) {
    && i < j < |ops| && ops[i].isCall && ops[j].isRet && Nesting(ops, i, j) == 1
    && (forall k :: i < k < j ==> Nesting(ops, i, k) >= if ops[k].isRet then 2 else 1)
  }

  /** The calls nested in the frame of `i` up to instruction `k` fit in the stack. */
  predicate Fits(ops: seq<Op>, i: nat, k: nat, capacity: int)
    requires k <= |ops|
  {
    forall l :: i < l <= k ==> Nesting(ops, i, l) <= capacity
  }

  /** Inside the frame, its return address is `Nesting` entries deep, or lost for good. */
  predicate Holds(r: RasState, addr: nat, nesting: int, fits: bool) {
    if fits then |r.stack| >= nesting >= 1 && r.stack[|r.stack| - nesting] == addr
    else |r.stack| < nesting
  }

  lemma ResolveHolds(r: RasState, op: Op, addr: nat, nesting: int, fits: bool)
    requires Holds(r, addr, nesting, fits) && nesting >= (if op.isRet then 2 else 1)
    requires fits ==> nesting <= r.depth
    requires |r.stack| <= Max(0, r.depth)
    ensures var nesting' := nesting + (if op.isCall then 1 else 0) - (if op.isRet then 1 else 0);
            Holds(r.Resolve(op), addr, nesting', fits && nesting' <= r.depth)
  {
  }

  lemma CallHolds(r: RasState, op: Op)
    requires op.isCall && |r.stack| <= Max(0, r.depth)
    ensures Holds(r.Resolve(op), op.NextAddr(), 1, 1 <= r.depth)
  {
  }

  lemma FitsStep(ops: seq<Op>, i: nat, k: nat, capacity: int)
    requires i < k <= |ops|
    ensures Fits(ops, i, k, capacity) <==> Fits(ops, i, k - 1, capacity) && Nesting(ops, i, k) <= capacity
  {
  }

  lemma {:induction false} FrameHolds(depth: nat, ops: seq<Op>, i: nat, j: nat, k: nat)
    requires Matches(ops, i, j) && i < k <= j
    ensures Holds(ResolveAll(NewRas(depth), ops[..k]), ops[i].NextAddr(), Nesting(ops, i, k),
                  Fits(ops, i, k, depth - 1))
    decreases k
  {
    assert ops[..k][..k - 1] == ops[..k - 1] && ops[..k][k - 1] == ops[k - 1];
    var r := ResolveAll(NewRas(depth), ops[..k - 1]);
    assert ResolveAll(NewRas(depth), ops[..k]) == r.Resolve(ops[k - 1]);
    BoundedIsTopOfIdeal(depth, ops[..k - 1]);
    FitsStep(ops, i, k, depth - 1);
    NestingStep(ops, i, k);
    hide ResolveAll, RasState.Resolve, Holds, IsTopOf, Ideal, Nesting;
    if k == i + 1 {
      FitsNone(ops, i, depth - 1);
      hide Fits;
      CallHolds(r, ops[i]);
    } else {
      FrameHolds(depth, ops, i, j, k - 1);
      FitsStep(ops, i, k - 1, depth - 1);
      hide Fits;
      ResolveHolds(r, ops[k - 1], ops[i].NextAddr(), Nesting(ops, i, k - 1), Fits(ops, i, k - 1, depth - 1));
    }
  }

  lemma FitsNone(ops: seq<Op>, i: nat, capacity: int)
    requires i <= |ops|
    ensures Fits(ops, i, i, capacity)
  {
  }

  /** The nesting before and after one instruction. */
  lemma NestingStep(ops: seq<Op>, i: nat, k: nat)
    requires i < k <= |ops|
    ensures Nesting(ops, i, i + 1) == 1
    ensures Nesting(ops, i, k) == Nesting(ops, i, k - 1) + (if ops[k - 1].isCall then 1 else 0)
                                  - (if ops[k - 1].isRet then 1 else 0)
  {
  }

  /** After return `j`, the predictor reads its call's next address exactly when the
      nesting between them stayed within the capacity, and nothing otherwise. */
  lemma ReturnPrediction(depth: nat, ops: seq<Op>, i: nat, j: nat)
    requires Matches(ops, i, j)
    ensures ResolveAll(NewRas(depth), ops[..j + 1]).Read()
            == if Fits(ops, i, j, depth - 1) then Some(ops[i].NextAddr()) else None
  {
    assert ops[..j + 1][..j] == ops[..j];
    FrameHolds(depth, ops, i, j, j);
  }

  /** The call that opened the innermost frame at a given level before instruction `k`. */
  lemma {:induction false} FrameOpener(ops: seq<Op>, k: nat, level: int) returns (i: nat)
    requires k <= |ops| && 1 <= level <= Depth(ops, k)
    ensures i < k && ops[i].isCall && Depth(ops, i + 1) == level
    ensures forall l :: i < l < k ==> Depth(ops, l) - (if ops[l].isRet then 1 else 0) >= level
    decreases k
  {
    var c := k - 1;
    if ops[c].isCall && Depth(ops, k) == level {
      i := c;
    } else {
      i := FrameOpener(ops, c, level);
    }
  }

  /** Properly nested: every return has a call to return to, and the calls fit. */
  predicate Nested(ops: seq<Op>, capacity: int) {
    && (forall k :: 0 <= k < |ops| && ops[k].isRet ==> Depth(ops, k) > 0)
    && (forall k :: 0 <= k <= |ops| ==> Depth(ops, k) <= capacity)
  }

  /** On a properly nested trace, every return is predicted to its matching call. */
  lemma NestedReturnsPredicted(depth: nat, ops: seq<Op>, j: nat) returns (i: nat)
    requires Nested(ops, depth - 1) && j < |ops| && ops[j].isRet
    ensures Matches(ops, i, j)
    ensures ResolveAll(NewRas(depth), ops[..j + 1]).Read() == Some(ops[i].NextAddr())
  {
    i := FrameOpener(ops, j, Depth(ops, j));
    ReturnPrediction(depth, ops, i, j);
  }
}
