// Whole runs: the invariants of the other modules hold in every state that
// Model.run reaches, and the theorems about runs follow from them.
module Runs {
  import opened Prelude
  import opened Instructions
  import opened FetchQueue
  import opened ReturnStack
  import BranchHistory
  import opened Pipeline
  import opened Timing
  import opened Hazards
  import opened Ports
  import opened Progress

  predicate ValidTrace(trace: seq<Op>) { forall k :: 0 <= k < |trace| ==> trace[k].Valid() }

  // --------------------------------------------------------------- predictors

  /** The branch history after committing `ops` in order. */
  function Trained(ops: seq<Op>): (b: seq<BranchHistory.BhtEntry>)
    ensures |b| == BranchHistory.BHT_ENTRIES
  {
    if |ops| == 0 then BranchHistory.NewBht(BranchHistory.BHT_ENTRIES)
    else ResolveBranch(Trained(ops[..|ops| - 1]), if |ops| == 1 then None else Some(ops[|ops| - 2]), ops[|ops| - 1])
  }

  /** The predictors depend on the trace alone: the return stack on what was issued,
      the branch history on what was committed. */
  predicate Predictors(m: Machine) {
    && m.ras == ResolveAll(NewRas(2), Ops(Issued(m)))
    && m.bht == Trained(Ops(m.retired))
    && m.lastCommitted == (if |m.retired| == 0 then None else Some(m.retired[|m.retired| - 1].op))
  }

  lemma CommitKeepsPredictors(m: Machine, now: int, port: nat)
    requires m.Valid() && Predictors(m)
    ensures Predictors(TryCommit(m, now, port))
  {
    var m' := TryCommit(m, now, port);
    if CanCommit(m, port) {
      assert Ops(Issued(m')) == Ops(Issued(m));
      var ops := Ops(m'.retired);
      assert ops[..|ops| - 1] == Ops(m.retired);
    }
  }

  lemma ExecuteKeepsPredictors(m: Machine, now: int)
    requires m.Valid() && Predictors(m)
    ensures Predictors(Execute(m, now))
  {
    assert Ops(Issued(Execute(m, now))) == Ops(Issued(m));
  }

  lemma IssueFrame(cfg: Config, m: Machine, now: int)
    requires m.Valid()
    ensures var m' := TryIssue(cfg, m, now);
            && m'.retired == m.retired && m'.bht == m.bht && m'.lastCommitted == m.lastCommitted
            && m'.ras == if Blocked(cfg, m) || !Examine(cfg, m, now).2 then m.ras
                         else m.ras.Resolve(m.queue[0].op)
  {
    if !Blocked(cfg, m) {
      ExaminedHead(cfg, m, now);
    }
  }

  lemma IssueKeepsPredictors(cfg: Config, m: Machine, now: int)
    requires m.Valid() && Timed(m, now, now) && now >= 0 && Predictors(m)
    ensures Predictors(TryIssue(cfg, m, now))
  {
    IssueFrame(cfg, m, now);
    if Blocked(cfg, m) || !Examine(cfg, m, now).2 {
      NotIssuedShape(cfg, m, now);
    } else {
      hide TryIssue, Examine, Timed, Issued;
      IssuedShape(cfg, m, now);
      ResolveOneMore(NewRas(2), Issued(m), TryIssue(cfg, m, now).sb[|m.sb|].instr);
    }
  }

  lemma ResolveOneMore(r: RasState, issued: seq<Instruction>, i: Instruction)
    ensures ResolveAll(r, Ops(issued + [i])) == ResolveAll(r, Ops(issued)).Resolve(i.op)
  {
    var ops := Ops(issued + [i]);
    assert ops[..|ops| - 1] == Ops(issued);
  }

  // ---------------------------------------------------------- the invariant

  /** What every step of a cycle keeps. `e` cycles have executed, the clock shows `now`. */
  predicate Steady(cfg: Config, trace: seq<Op>, m: Machine, e: int, now: int)
    requires m.Valid()
  {
    && m.iq.fetchSize == cfg.fetchSize
    && Conserved(m, trace) && Timed(m, e, now) && LastOk(m)
    && NoRawViolation(cfg, m) && NoWawViolation(cfg, m)
    && PortsOk(m, now)
    && Paced(cfg, Issued(m)) && InBudget(cfg, m)
    && Predictors(m)
  }

  predicate StartInv(cfg: Config, trace: seq<Op>, m: Machine, c: int)
    requires m.Valid()
  {
    Steady(cfg, trace, m, c - 1, c - 1) && LiveStart(cfg, m, c)
  }

  predicate SlotInv(cfg: Config, trace: seq<Op>, m: Machine, c: int, tried: bool)
    requires m.Valid()
  {
    Steady(cfg, trace, m, c, c) && LiveMid(cfg, m, c, tried)
  }

  lemma QueueValid(trace: seq<Op>, m: Machine)
    requires ValidTrace(trace) && Conserved(m, trace)
    ensures forall k :: 0 <= k < |m.queue| ==> m.queue[k].op.Valid()
  {
    forall k | 0 <= k < |m.queue|
      ensures m.queue[k].op.Valid()
    {
      assert trace[|m.retired| + |m.sb| + k] == m.queue[k].op;
    }
  }

  lemma InitialInv(cfg: Config, trace: seq<Op>)
    requires cfg.Valid()
    ensures StartInv(cfg, trace, Initial(cfg, trace), 0)
  {
    var m := Initial(cfg, trace);
    assert Ops(m.queue) == trace;
    assert Steady(cfg, trace, m, -1, -1) by {
      assert Issued(m) == [];
      assert Ops(m.retired) == [] && Ops(Instrs(m.sb)) == [];
    }
    assert LiveStart(cfg, m, 0) by {
      hide Steady;
    }
  }

  lemma StartKeepsTimed(m: Machine, c: int)
    requires m.Valid() && Timed(m, c - 1, c - 1)
    ensures Timed(StartCycle(m), c - 1, c)
  {
    var s := StartCycle(m);
    forall k | 0 <= k < |s.retired|
      ensures RetiredOk(s.retired[k], c)
    {
      assert RetiredOk(m.retired[k], c - 1);
    }
  }

  /** Steps that touch neither the instructions nor the predictors. */
  lemma SameInstructions(cfg: Config, trace: seq<Op>, m: Machine, m': Machine)
    requires m' == m.(fus := m'.fus, iq := m'.iq)
    ensures Issued(m') == Issued(m)
    ensures Conserved(m, trace) ==> Conserved(m', trace)
    ensures LastOk(m) ==> LastOk(m')
    ensures NoRawViolation(cfg, m) ==> NoRawViolation(cfg, m')
    ensures NoWawViolation(cfg, m) ==> NoWawViolation(cfg, m')
    ensures InBudget(cfg, m) ==> InBudget(cfg, m')
    ensures Predictors(m) ==> Predictors(m')
  {
    assert Issued(m') == Issued(m);
    hide Issued, IssueOf, ReadsInTime, Times, ResolveAll, Trained, Ops, Instrs;
  }

  lemma StartSteady(cfg: Config, trace: seq<Op>, m: Machine, c: int)
    requires m.Valid() && Steady(cfg, trace, m, c - 1, c - 1)
    ensures Steady(cfg, trace, StartCycle(m), c - 1, c)
  {
    hide Conserved, Timed, LastOk, NoRawViolation, NoWawViolation, PortsOk, Paced, InBudget, Predictors;
    SameInstructions(cfg, trace, m, StartCycle(m));
    StartKeepsTimed(m, c);
    StartKeepsPorts(m, c - 1);
  }

  lemma CommitSteady(cfg: Config, trace: seq<Op>, m: Machine, c: int, port: nat)
    requires m.Valid() && Steady(cfg, trace, m, c - 1, c)
    ensures Steady(cfg, trace, TryCommit(m, c, port), c - 1, c)
  {
    hide Conserved, Timed, LastOk, NoRawViolation, NoWawViolation, PortsOk, Paced, InBudget, Predictors;
    CommitKeepsConserved(m, c, port, trace);
    CommitKeepsTimed(m, c - 1, c, port);
    CommitKeepsLast(m, c, port);
    CommitKeepsHazards(cfg, m, c - 1, c, port);
    CommitKeepsPorts(m, c, port);
    CommitKeepsPace(cfg, m, c, port);
    CommitKeepsPredictors(m, c, port);
  }

  lemma {:induction false} CommitPortsSteady(cfg: Config, trace: seq<Op>, m: Machine, c: int, ports: nat)
    requires m.Valid() && Steady(cfg, trace, m, c - 1, c)
    ensures Steady(cfg, trace, CommitPorts(m, c, ports), c - 1, c)
    decreases ports
  {
    hide Steady, TryCommit;
    if ports > 0 {
      CommitPortsSteady(cfg, trace, m, c, ports - 1);
      CommitSteady(cfg, trace, CommitPorts(m, c, ports - 1), c, ports - 1);
    }
  }

  lemma ExecuteSteady(cfg: Config, trace: seq<Op>, m: Machine, c: int)
    requires m.Valid() && Steady(cfg, trace, m, c - 1, c)
    ensures Steady(cfg, trace, Execute(m, c), c, c)
  {
    hide Conserved, Timed, LastOk, NoRawViolation, NoWawViolation, PortsOk, Paced, InBudget, Predictors;
    ExecuteKeepsConserved(m, c, trace);
    ExecuteKeepsTimed(m, c - 1);
    ExecuteKeepsLast(m, c);
    ExecuteKeepsHazards(cfg, m, c - 1);
    ExecuteKeepsPorts(m, c);
    ExecuteKeepsPace(cfg, m, c);
    ExecuteKeepsPredictors(m, c);
  }

  lemma BackEndInv(cfg: Config, trace: seq<Op>, m: Machine, c: int)
    requires cfg.Valid() && m.Valid() && StartInv(cfg, trace, m, c)
    ensures SlotInv(cfg, trace, BackEnd(cfg, m, c), c, false)
  {
    assert Steady(cfg, trace, BackEnd(cfg, m, c), c, c) by {
      hide Steady, LiveStart, StartCycle, CommitPorts, Execute;
      StartSteady(cfg, trace, m, c);
      CommitPortsSteady(cfg, trace, StartCycle(m), c, cfg.commitWidth);
      ExecuteSteady(cfg, trace, CommitPorts(StartCycle(m), c, cfg.commitWidth), c);
    }
    hide Conserved, Timed, LastOk, NoRawViolation, NoWawViolation, PortsOk, Paced, InBudget, Predictors,
      BackEnd, LiveStart, LiveMid;
    BackEndLive(cfg, m, c);
  }

  lemma FetchSizeKept(cfg: Config, m: Machine, c: int)
    requires m.Valid()
    ensures TryIssue(cfg, m, c).iq.fetchSize == m.iq.fetchSize
  {
    if !Blocked(cfg, m) && Examine(cfg, m, c).2 {
      MinusRemainder(m.queue[0].op.NextAddr(), m.iq.fetchSize);
    }
  }

  lemma LiveMidPace(cfg: Config, m: Machine, c: int, tried: bool)
    requires m.Valid() && LiveMid(cfg, m, c, tried)
    ensures LastCycle(m) <= c && (|m.queue| > 0 ==> c <= LastCycle(m) + Patience(cfg))
  {
  }

  lemma TimedQueue(m: Machine, e: int, now: int)
    requires Timed(m, e, now)
    ensures QueueOk(m.queue)
  {
  }

  lemma IssueSteady(cfg: Config, trace: seq<Op>, m: Machine, c: int)
    requires cfg.Valid() && c >= 0 && m.Valid() && Steady(cfg, trace, m, c, c)
    requires LastCycle(m) <= c && (|m.queue| > 0 ==> c <= LastCycle(m) + Patience(cfg))
    ensures Steady(cfg, trace, TryIssue(cfg, m, c), c, c)
  {
    hide Conserved, Timed, LastOk, NoRawViolation, NoWawViolation, PortsOk, Paced, InBudget, Predictors, TryIssue;
    FetchSizeKept(cfg, m, c);
    IssueKeepsConserved(cfg, m, c, trace);
    IssueKeepsTimed(cfg, m, c);
    IssueKeepsLast(cfg, m, c);
    IssueKeepsHazards(cfg, m, c);
    IssueKeepsPorts(cfg, m, c);
    IssueKeepsPace(cfg, m, c);
    IssueKeepsPredictors(cfg, m, c);
  }

  lemma IssueInv(cfg: Config, trace: seq<Op>, m: Machine, c: int, tried: bool)
    requires cfg.Valid() && ValidTrace(trace) && c >= 0 && m.Valid() && SlotInv(cfg, trace, m, c, tried)
    ensures SlotInv(cfg, trace, TryIssue(cfg, m, c), c, true)
  {
    hide Conserved, Timed, LastOk, NoRawViolation, NoWawViolation, PortsOk, Paced, InBudget, Predictors,
      TryIssue, LiveMid;
    QueueValid(trace, m);
    TimedQueue(m, c, c);
    LiveMidPace(cfg, m, c, tried);
    IssueSteady(cfg, trace, m, c);
    IssueLive(cfg, m, c, tried);
  }

  lemma {:induction false} IssueSlotsInv(cfg: Config, trace: seq<Op>, m: Machine, c: int, slots: nat)
    requires cfg.Valid() && ValidTrace(trace) && c >= 0 && m.Valid() && SlotInv(cfg, trace, m, c, false)
    ensures SlotInv(cfg, trace, IssueSlots(cfg, m, c, slots), c, slots > 0)
    decreases slots
  {
    hide SlotInv, TryIssue;
    if slots > 0 {
      IssueSlotsInv(cfg, trace, m, c, slots - 1);
      IssueInv(cfg, trace, IssueSlots(cfg, m, c, slots - 1), c, slots - 1 > 0);
    }
  }

  lemma FetchInv(cfg: Config, trace: seq<Op>, m: Machine, c: int)
    requires cfg.Valid() && m.Valid() && SlotInv(cfg, trace, m, c, true)
    ensures StartInv(cfg, trace, FetchBytes(m), c + 1)
  {
    hide Conserved, Timed, LastOk, NoRawViolation, NoWawViolation, PortsOk, Paced, InBudget, Predictors,
      LiveMid, LiveStart;
    SameInstructions(cfg, trace, m, FetchBytes(m));
    FetchKeepsTimedAndPorts(m, c);
    FetchLive(cfg, m, c);
  }

  lemma FetchKeepsTimedAndPorts(m: Machine, c: int)
    requires m.Valid() && Timed(m, c, c) && PortsOk(m, c)
    ensures Timed(FetchBytes(m), c, c) && PortsOk(FetchBytes(m), c)
  {
    assert Issued(FetchBytes(m)) == Issued(m);
  }

  /** The invariant holds at the start of every cycle. */
  lemma {:induction false} AfterInv(cfg: Config, trace: seq<Op>, n: nat)
    requires cfg.Valid() && ValidTrace(trace)
    ensures StartInv(cfg, trace, After(cfg, trace, n), n)
  {
    hide StartInv, SlotInv, BackEnd, IssueSlots;
    if n == 0 {
      InitialInv(cfg, trace);
    } else {
      AfterInv(cfg, trace, n - 1);
      AtSlotInv(cfg, trace, n - 1, cfg.issueWidth);
      FetchInv(cfg, trace, AtSlot(cfg, trace, n - 1, cfg.issueWidth), n - 1);
    }
  }

  /** ... and before every issue slot. */
  lemma AtSlotInv(cfg: Config, trace: seq<Op>, n: nat, slot: nat)
    requires cfg.Valid() && ValidTrace(trace) && StartInv(cfg, trace, After(cfg, trace, n), n)
    ensures SlotInv(cfg, trace, AtSlot(cfg, trace, n, slot), n, slot > 0)
  {
    BackEndInv(cfg, trace, After(cfg, trace, n), n);
    IssueSlotsInv(cfg, trace, BackEnd(cfg, After(cfg, trace, n), n), n, slot);
  }
}
