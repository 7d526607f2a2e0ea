// Write-back port exclusivity: the busy flags of FusBusy never let two
// instructions finish on the same port in the same cycle.
module Ports {
  import opened Instructions
  import opened FunctionalUnits
  import opened Pipeline
  import opened Timing
  import Hazards

  // FLU gathers the first ALU, branches and the multiplier's slot; loads and
  // stores share the LSU port; the second ALU has its own.
  datatype Port = FLU | LSU | ALU2

  function PortOf(unit: ServedBy): Port {
    match unit
    case MemoryUnit => LSU
    case SecondAlu => ALU2
    case _ => FLU
  }

  /** The cycle an issued instruction is done in. */
  function FinishOf(i: Instruction): int { IssueOf(i) + i.op.Duration() }

  predicate UnitFits(i: Instruction) {
    match ToFu(i.op)
    case ALU => i.unit == FirstAlu || i.unit == SecondAlu
    case MUL => i.unit == Multiplier
    case BRANCH => i.unit == BranchUnit
    case LDU => i.unit == MemoryUnit
    case STU => i.unit == MemoryUnit
  }

  predicate Apart(i: Instruction, j: Instruction) {
    PortOf(i.unit) == PortOf(j.unit) ==> FinishOf(i) != FinishOf(j)
  }

  /** The flags of cycle `c` remember what was issued in `c`, and multiplications of `c - 1`. */
  predicate Flagged(fus: Fus, i: Instruction, c: int) {
    && UnitFits(i)
    && IssueOf(i) <= c
    && (IssueOf(i) == c ==>
          match i.unit
          case Multiplier => fus.mul && fus.issuedMul
          case FirstAlu => fus.alu && fus.branch
          case BranchUnit => fus.alu && fus.branch
          case SecondAlu => fus.alu2
          case MemoryUnit => fus.ldu && fus.stu
          case NotServed => false)
    && (IssueOf(i) == c - 1 && i.unit == Multiplier ==> fus.alu && fus.branch)
  }

  predicate PortsOk(m: Machine, c: int) {
    && (forall i :: 0 <= i < |Issued(m)| ==> Flagged(m.fus, Issued(m)[i], c))
    && (forall i, j :: 0 <= i < j < |Issued(m)| ==> Apart(Issued(m)[i], Issued(m)[j]))
  }

  /** What the invariant looks at: unit, operation and issue cycle. */
  predicate SameIssue(i: Instruction, i': Instruction) {
    i'.op == i.op && i'.unit == i.unit && IssueOf(i') == IssueOf(i)
  }

  lemma PortsFrame(m: Machine, m': Machine, c: int)
    requires PortsOk(m, c) && m'.fus == m.fus && |Issued(m')| == |Issued(m)|
    requires forall k :: 0 <= k < |Issued(m)| ==> SameIssue(Issued(m)[k], Issued(m')[k])
    ensures PortsOk(m', c)
  {
    forall i | 0 <= i < |Issued(m')|
      ensures Flagged(m'.fus, Issued(m')[i], c)
    {
      assert SameIssue(Issued(m)[i], Issued(m')[i]) && Flagged(m.fus, Issued(m)[i], c);
    }
    forall i, j | 0 <= i < j < |Issued(m')|
      ensures Apart(Issued(m')[i], Issued(m')[j])
    {
      assert SameIssue(Issued(m)[i], Issued(m')[i]) && SameIssue(Issued(m)[j], Issued(m')[j]);
      assert Apart(Issued(m)[i], Issued(m)[j]);
    }
  }

  lemma StartKeepsPorts(m: Machine, c: int)
    requires m.Valid() && PortsOk(m, c)
    ensures PortsOk(StartCycle(m), c + 1)
  {
    var m' := StartCycle(m);
    assert Issued(m') == Issued(m);
    assert forall i :: 0 <= i < |Issued(m')| ==> Flagged(m.fus, Issued(m)[i], c);
  }

  lemma CommitKeepsPorts(m: Machine, now: int, port: nat)
    requires m.Valid() && PortsOk(m, now)
    ensures PortsOk(TryCommit(m, now, port), now)
  {
    var m' := TryCommit(m, now, port);
    if CanCommit(m, port) {
      CommitShape(m, now, port);
      hide Issued, IssueOf, PortsOk;
      PortsFrame(m, m', now);
    }
  }

  lemma ExecuteKeepsPorts(m: Machine, now: int)
    requires m.Valid() && PortsOk(m, now)
    ensures PortsOk(Execute(m, now), now)
  {
    var m' := Execute(m, now);
    forall k | 0 <= k < |Issued(m)|
      ensures SameIssue(Issued(m)[k], Issued(m')[k])
    {
      if k >= |m.retired| {
        AppendOne(m.sb[k - |m.retired|].instr.events, Event(Done, now), Issue);
      }
    }
    PortsFrame(m, m', now);
  }

  /** The instruction that issues sets the flags of its unit. */
  lemma NewFlagged(fus: Fus, new_: Instruction, now: int)
    requires fus.IsReadyFor(new_.op) && new_.unit == fus.Serves(new_.op) && IssueOf(new_) == now
    ensures Flagged(fus.Issue(new_.op), new_, now)
  {
    hide IssueOf;
  }

  /** The flags were free for it, so that no earlier instruction finishes on its port with it. */
  lemma StaysFlagged(fus: Fus, i: Instruction, new_: Instruction, now: int)
    requires Flagged(fus, i, now)
    requires fus.IsReadyFor(new_.op) && new_.unit == fus.Serves(new_.op) && IssueOf(new_) == now
    ensures Flagged(fus.Issue(new_.op), i, now) && Apart(i, new_)
  {
    hide IssueOf;
  }

  lemma IssueKeepsPorts(cfg: Config, m: Machine, now: int)
    requires m.Valid() && Timed(m, now, now) && now >= 0 && PortsOk(m, now)
    ensures PortsOk(TryIssue(cfg, m, now), now)
  {
    var m' := TryIssue(cfg, m, now);
    if Blocked(cfg, m) || !Examine(cfg, m, now).2 {
      Hazards.NotIssuedShape(cfg, m, now);
    } else {
      Hazards.IssuedShape(cfg, m, now);
      var new_ := m'.sb[|m.sb|].instr;
      assert m.fus.IsReadyFor(new_.op) && m'.fus == m.fus.Issue(new_.op) && Issued(m') == Issued(m) + [new_];
      hide TryIssue, Examine, Issued, Timed, Apart, Flagged, Fus.IsReadyFor, Fus.Issue, Fus.Serves;
      NewFlagged(m.fus, new_, now);
      forall i | 0 <= i < |Issued(m)|
        ensures Flagged(m'.fus, Issued(m)[i], now) && Apart(Issued(m)[i], new_)
      {
        StaysFlagged(m.fus, Issued(m)[i], new_, now);
      }
      forall i, j | 0 <= i < j < |Issued(m')|
        ensures Apart(Issued(m')[i], Issued(m')[j])
      {
        if j < |Issued(m)| {
          assert Apart(Issued(m)[i], Issued(m)[j]);
        }
      }
    }
  }
}
