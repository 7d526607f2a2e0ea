// The theorems about complete runs of the performance model.
module RunTheorems {
  import opened Prelude
  import opened Instructions
  import opened FetchQueue
  import opened ReturnStack
  import opened Pipeline
  import opened Timing
  import opened Hazards
  import opened Ports
  import opened Progress
  import opened FetchArithmetic
  import opened Runs
  import Returns

  // ------------------------------------------- conservation and event discipline

  lemma SteadyFacts(cfg: Config, trace: seq<Op>, m: Machine, e: int, now: int)
    requires m.Valid() && Steady(cfg, trace, m, e, now)
    ensures Conserved(m, trace) && Timed(m, e, now) && LastOk(m) && Predictors(m)
    ensures NoRawViolation(cfg, m) && NoWawViolation(cfg, m) && PortsOk(m, now)
    ensures Paced(cfg, Issued(m)) && InBudget(cfg, m) && m.iq.fetchSize == cfg.fetchSize
  {
    hide Conserved, Timed, LastOk, NoRawViolation, NoWawViolation, PortsOk, Paced, InBudget, Predictors;
  }

  lemma LiveStartDrained(cfg: Config, m: Machine, c: int)
    requires m.Valid() && LiveStart(cfg, m, c)
    ensures |m.sb| <= cfg.sbLen && LastCycle(m) < c
    ensures c >= LastCycle(m) + 3 + cfg.sbLen ==> |m.sb| == 0
    ensures |m.queue| > 0 ==> c <= LastCycle(m) + Patience(cfg)
  {
  }

  /** The invariants, one by one, at the start of cycle `n`. */
  lemma AfterFacts(cfg: Config, trace: seq<Op>, n: nat)
    requires cfg.Valid() && ValidTrace(trace)
    ensures var m := After(cfg, trace, n);
            && Conserved(m, trace) && Timed(m, n - 1, n - 1) && LastOk(m) && Predictors(m)
            && NoRawViolation(cfg, m) && NoWawViolation(cfg, m) && PortsOk(m, n - 1)
            && Paced(cfg, Issued(m)) && InBudget(cfg, m)
            && |m.sb| <= cfg.sbLen
            && (n >= LastCycle(m) + 3 + cfg.sbLen ==> |m.sb| == 0)
            && (|m.queue| > 0 ==> n <= LastCycle(m) + Patience(cfg))
  {
    hide Conserved, Timed, LastOk, NoRawViolation, NoWawViolation, PortsOk, Paced, InBudget, Predictors, Steady,
      LiveStart, After;
    AfterInv(cfg, trace, n);
    SteadyFacts(cfg, trace, After(cfg, trace, n), n - 1, n - 1);
    LiveStartDrained(cfg, After(cfg, trace, n), n);
  }

  /** In every cycle, retired, scoreboard and queue concatenate to the trace. */
  lemma ConservationAlways(cfg: Config, trace: seq<Op>, n: nat)
    requires cfg.Valid() && ValidTrace(trace)
    ensures var m := After(cfg, trace, n);
            Ops(m.retired) + Ops(Instrs(m.sb)) + Ops(m.queue) == trace && |m.sb| <= cfg.sbLen
  {
    hide Timed, LastOk, NoRawViolation, NoWawViolation, PortsOk, Paced, InBudget, Predictors, After;
    AfterFacts(cfg, trace, n);
  }

  /** A retired instruction has exactly one issue, one done and one commit event, the
      done one latency after the issue, the commit later and last of all its events. */
  lemma EventDiscipline(cfg: Config, trace: seq<Op>, n: nat, k: nat)
    requires cfg.Valid() && ValidTrace(trace) && k < |After(cfg, trace, n).retired|
    ensures var i := After(cfg, trace, n).retired[k];
            && Count(i.events, Issue) == 1 && Count(i.events, Done) == 1 && Count(i.events, Commit) == 1
            && DoneOf(i) == IssueOf(i) + (if i.op.cls.Load? || i.op.cls.Store? || i.op.cls.MulDiv? then 2 else 1)
            && DoneOf(i) < CommitOf(i) < n
            && i.events[|i.events| - 1] == Event(Commit, CommitOf(i))
  {
    hide Conserved, LastOk, NoRawViolation, NoWawViolation, PortsOk, Paced, InBudget, Predictors, After;
    AfterFacts(cfg, trace, n);
    var i := After(cfg, trace, n).retired[k];
    assert RetiredOk(i, n - 1);
    CommittedReads(i.events, IssueOf(i), DoneOf(i), CommitOf(i));
  }

  /** Instructions retired by one cycle: at most one per port, and only the first can be a store. */
  lemma {:induction false} CommitRate(m: Machine, cycle: int, ports: nat)
    requires m.Valid()
    ensures var m' := CommitPorts(m, cycle, ports);
            && |m.retired| <= |m'.retired| <= |m.retired| + ports
            && m'.retired[..|m.retired|] == m.retired
            && (forall k :: |m.retired| < k < |m'.retired| ==> !m'.retired[k].op.cls.Store?)
    decreases ports
  {
    if ports > 0 {
      CommitRate(m, cycle, ports - 1);
      var p := CommitPorts(m, cycle, ports - 1);
      if ports - 1 > 0 && CanCommit(p, ports - 1) {
        assert !p.sb[0].instr.op.cls.Store?;
      }
    }
  }

  // ---------------------------------------------------------------- data hazards

  /** Instruction `k` of the trace, once issued, with its events. */
  lemma IssuedIsTrace(m: Machine, trace: seq<Op>, k: nat)
    requires Conserved(m, trace) && k < |Issued(m)|
    ensures k < |trace| && Issued(m)[k].op == trace[k]
  {
    assert trace[k] == (Ops(m.retired) + Ops(Instrs(m.sb)) + Ops(m.queue))[k];
  }

  /** Over the whole run: an instruction that reads register `r`, as either of its operands,
      never issues before the value of an earlier writer of `r` is done (with forwarding) or
      committed (without). */
  lemma NoReadBeforeWrite(cfg: Config, trace: seq<Op>, n: nat, i: nat, j: nat, r: nat)
    requires cfg.Valid() && ValidTrace(trace) && i < j < |Issued(After(cfg, trace, n))| && j < |trace|
    requires trace[i].rd == Some(r) && r != 0 && (trace[j].rs1 == Some(r) || trace[j].rs2 == Some(r))
    ensures var s := Issued(After(cfg, trace, n));
            if cfg.hasForwarding then 0 <= DoneOf(s[i]) <= IssueOf(s[j])
            else 0 <= CommitOf(s[i]) <= IssueOf(s[j])
  {
    hide Conserved, Timed, LastOk, NoWawViolation, PortsOk, Paced, InBudget, Predictors, After;
    AfterFacts(cfg, trace, n);
    var m := After(cfg, trace, n);
    IssuedIsTrace(m, trace, i);
    IssuedIsTrace(m, trace, j);
    assert ReadsInTime(cfg, Issued(m)[i], Issued(m)[j]);
  }

  /** Without renaming, two instructions that write the same register are never in flight together. */
  lemma NoTwoWriters(cfg: Config, trace: seq<Op>, n: nat, i: nat, j: nat)
    requires cfg.Valid() && ValidTrace(trace) && !cfg.hasRenaming
    requires i < j < |After(cfg, trace, n).sb|
    ensures var sb := After(cfg, trace, n).sb;
            var a, b := sb[i].instr.op, sb[j].instr.op;
            a.rd.Some? && b.rd.Some? && a.rd == b.rd ==> a.rd.value == 0
  {
    hide Conserved, Timed, LastOk, NoRawViolation, PortsOk, Paced, InBudget, Predictors, After;
    AfterFacts(cfg, trace, n);
    var m := After(cfg, trace, n);
    assert !m.sb[j].instr.op.HasWawFrom(m.sb[i].instr.op);
  }

  // ------------------------------------------------------------ write-back ports

  /** Two instructions served by the same port are never done in the same cycle. */
  lemma PortsExclusive(cfg: Config, trace: seq<Op>, n: nat, i: nat, j: nat)
    requires cfg.Valid() && ValidTrace(trace) && i < j < |Issued(After(cfg, trace, n))|
    ensures var s := Issued(After(cfg, trace, n));
            PortOf(s[i].unit) == PortOf(s[j].unit) && DoneOf(s[i]) >= 0 && DoneOf(s[j]) >= 0
            ==> DoneOf(s[i]) != DoneOf(s[j])
  {
    hide Conserved, Timed, LastOk, NoRawViolation, NoWawViolation, Paced, InBudget, Predictors, After;
    AfterFacts(cfg, trace, n);
    var m := After(cfg, trace, n);
    DoneIsFinish(m, n, i);
    DoneIsFinish(m, n, j);
    assert Apart(Issued(m)[i], Issued(m)[j]);
  }

  lemma DoneIsFinish(m: Machine, n: int, k: nat)
    requires Timed(m, n - 1, n - 1) && k < |Issued(m)|
    ensures DoneOf(Issued(m)[k]) >= 0 ==> DoneOf(Issued(m)[k]) == FinishOf(Issued(m)[k])
  {
    var i := Issued(m)[k];
    if k < |m.retired| {
      assert RetiredOk(m.retired[k], n - 1);
    } else {
      assert EntryOk(m.sb[k - |m.retired|], n - 1);
      if m.sb[k - |m.retired|].done {
        DoneReads(i.events, IssueOf(i), IssueOf(i) + i.op.Duration());
      } else {
        IssuedReads(i.events, IssueOf(i));
      }
    }
  }

  /** The unit recorded for an instruction is one that serves its class. */
  lemma UnitServesClass(cfg: Config, trace: seq<Op>, n: nat, k: nat)
    requires cfg.Valid() && ValidTrace(trace) && k < |Issued(After(cfg, trace, n))|
    ensures var i := Issued(After(cfg, trace, n))[k];
            match i.op.cls
            case Branch => i.unit == BranchUnit
            case Jump => i.unit == BranchUnit
            case RegJump => i.unit == BranchUnit
            case MulDiv => i.unit == Multiplier
            case Load => i.unit == MemoryUnit
            case Store => i.unit == MemoryUnit
            case Other => i.unit == FirstAlu || i.unit == SecondAlu
  {
    hide Conserved, Timed, LastOk, NoRawViolation, NoWawViolation, Paced, InBudget, Predictors, After;
    AfterFacts(cfg, trace, n);
    var m := After(cfg, trace, n);
    assert Flagged(m.fus, Issued(m)[k], n - 1);
  }

  // -------------------------------------------------------------------- liveness

  /** Every instruction issues within max(6, sb_len + 3) + 4 cycles of the one before it. */
  lemma PromptIssue(cfg: Config, trace: seq<Op>, n: nat, k: nat)
    requires cfg.Valid() && ValidTrace(trace) && k < |Issued(After(cfg, trace, n))|
    ensures var s := Issued(After(cfg, trace, n));
            var before := if k == 0 then -1 else IssueOf(s[k - 1]);
            before <= IssueOf(s[k]) <= before + Max(6, cfg.sbLen + 3) + 4
  {
    hide Conserved, Timed, LastOk, NoRawViolation, NoWawViolation, PortsOk, InBudget, Predictors, After;
    AfterFacts(cfg, trace, n);
    assert Prompt(cfg, Issued(After(cfg, trace, n)), k);
  }

  lemma {:induction false} TimesMonotone(a: nat, b: nat, k: nat)
    requires a <= b
    ensures Times(a, k) <= Times(b, k)
    decreases b
  {
    if a < b {
      TimesMonotone(a, b - 1, k);
    }
  }

  lemma {:induction false} TimesIsProduct(n: nat, k: nat)
    ensures Times(n, k) == n * k
    decreases n
  {
    if n > 0 {
      TimesIsProduct(n - 1, k);
      Distribute(n, 1, k);
    }
  }

  /** Length of the longest run on a trace. */
  function RunBound(cfg: Config, trace: seq<Op>): nat {
    |trace| * (Max(6, cfg.sbLen + 3) + 4) + cfg.sbLen + 3
  }

  /** Model.run terminates: the run is over after a number of cycles linear in the trace. */
  lemma RunTerminates(cfg: Config, trace: seq<Op>, n: nat)
    requires cfg.Valid() && ValidTrace(trace) && n >= RunBound(cfg, trace)
    ensures After(cfg, trace, n).Finished()
    ensures Ops(After(cfg, trace, n).retired) == trace
  {
    hide Conserved, Timed, LastOk, NoRawViolation, NoWawViolation, PortsOk, Paced, InBudget, Predictors, After, RunBound;
    AfterFacts(cfg, trace, n);
    FinishedInTime(cfg, trace, After(cfg, trace, n), n);
    FinishedRetired(After(cfg, trace, n), trace);
  }

  lemma FinishedRetired(m: Machine, trace: seq<Op>)
    requires Conserved(m, trace) && m.Finished()
    ensures Ops(m.retired) == trace
  {
    assert Ops(Instrs(m.sb)) == [] && Ops(m.queue) == [];
  }

  /** A run that is over has retired the whole trace in order. */
  lemma AllRetired(cfg: Config, trace: seq<Op>, n: nat)
    requires cfg.Valid() && ValidTrace(trace) && After(cfg, trace, n).Finished()
    ensures Ops(After(cfg, trace, n).retired) == trace
  {
    hide After;
    ConservationAlways(cfg, trace, n);
    FinishedRetired(After(cfg, trace, n), trace);
  }

  lemma FinishedInTime(cfg: Config, trace: seq<Op>, m: Machine, n: nat)
    requires cfg.Valid() && n >= RunBound(cfg, trace) && Conserved(m, trace) && InBudget(cfg, m)
    requires n >= LastCycle(m) + 3 + cfg.sbLen ==> |m.sb| == 0
    requires |m.queue| > 0 ==> n <= LastCycle(m) + Patience(cfg)
    ensures m.Finished()
  {
    assert |trace| == |m.retired| + |m.sb| + |m.queue|;
    TimesIsProduct(|trace|, Patience(cfg));
    TimesMonotone(|m.retired| + |m.sb|, |trace|, Patience(cfg));
    if |m.queue| > 0 {
      TimesMonotone(|m.retired| + |m.sb| + 1, |trace|, Patience(cfg));
    }
  }

  // ------------------------------------------------------------ fetch arithmetic

  predicate FetchStart(cfg: Config, trace: seq<Op>, m: Machine, c: int)
    requires m.Valid()
  {
    StartInv(cfg, trace, m, c) && Counted(m) && Linked(m) && SoonExamined(m, c, 3)
  }

  lemma InitialCounted(cfg: Config, trace: seq<Op>)
    requires cfg.Valid() && Sequential(trace)
    ensures var m := Initial(cfg, trace); Counted(m) && Linked(m) && SoonExamined(m, 0, 3)
  {
    assert Ops(FreshQueue(trace)) == trace;
    SelfMultiple(cfg.fetchSize);
  }

  lemma BackEndKeepsCounted(cfg: Config, m: Machine, c: int)
    requires m.Valid() && Counted(m) && Linked(m) && SoonExamined(m, c, 3)
    ensures var b := BackEnd(cfg, m, c); Counted(b) && Linked(b) && SoonExamined(b, c, 3)
  {
    CommitPortsFrame(StartCycle(m), c, cfg.commitWidth);
    hide CommitPorts, FetchArithmetic.At, OnBoundary;
  }

  lemma {:induction false} SlotsKeepCounted(cfg: Config, trace: seq<Op>, m: Machine, c: int, slots: nat)
    requires cfg.Valid() && ValidTrace(trace) && c >= 0 && m.Valid() && SlotInv(cfg, trace, m, c, false)
    requires Counted(m) && Linked(m) && SoonExamined(m, c, 3)
    ensures var s := IssueSlots(cfg, m, c, slots);
            Counted(s) && Linked(s) && SoonExamined(s, c, if slots > 0 then 2 else 3)
    decreases slots
  {
    if slots > 0 {
      var s := IssueSlots(cfg, m, c, slots - 1);
      IssueSlotsInv(cfg, trace, m, c, slots - 1);
      SlotsKeepCounted(cfg, trace, m, c, slots - 1);
      hide Counted, Linked, Conserved, Timed, LastOk, NoRawViolation, NoWawViolation, PortsOk, Paced, InBudget,
        Predictors, LiveMid, TryIssue, IssueSlots;
      QueueValid(trace, s);
      TimedQueue(s, c, c);
      IssueKeepsCounted(cfg, s, c);
      IssueKeepsLinked(cfg, s, c);
      IssueKeepsSoon(cfg, s, c, slots - 1 > 0);
    }
  }

  lemma {:induction false} FetchInvariant(cfg: Config, trace: seq<Op>, n: nat)
    requires cfg.Valid() && ValidTrace(trace) && Sequential(trace)
    ensures FetchStart(cfg, trace, After(cfg, trace, n), n)
  {
    hide StartInv, Counted, AtSlot, Linked, After, SoonExamined, SlotInv;
    AfterInv(cfg, trace, n);
    if n == 0 {
      InitialCounted(cfg, trace);
      AfterZero(cfg, trace);
    } else {
      FetchInvariant(cfg, trace, n - 1);
      AtSlotCounted(cfg, trace, n - 1, cfg.issueWidth);
      var s := AtSlot(cfg, trace, n - 1, cfg.issueWidth);
      FetchKeepsCounted(s);
      FetchKeepsLinked(s, n - 1);
      AfterIsFetch(cfg, trace, n);
    }
  }

  lemma AfterZero(cfg: Config, trace: seq<Op>)
    requires cfg.Valid()
    ensures After(cfg, trace, 0) == Initial(cfg, trace)
  {
  }

  lemma AfterIsFetch(cfg: Config, trace: seq<Op>, n: nat)
    requires cfg.Valid() && n > 0
    ensures After(cfg, trace, n) == FetchBytes(AtSlot(cfg, trace, n - 1, cfg.issueWidth))
  {
  }

  lemma FetchKeepsLinked(m: Machine, c: int)
    requires m.Valid() && Linked(m) && SoonExamined(m, c, 2)
    ensures Linked(FetchBytes(m)) && SoonExamined(FetchBytes(m), c + 1, 3)
  {
  }

  lemma AtSlotCounted(cfg: Config, trace: seq<Op>, n: nat, slot: nat)
    requires cfg.Valid() && ValidTrace(trace) && FetchStart(cfg, trace, After(cfg, trace, n), n)
    ensures var m := AtSlot(cfg, trace, n, slot);
            && SlotInv(cfg, trace, m, n, slot > 0) && Counted(m) && Linked(m)
            && SoonExamined(m, n, if slot > 0 then 2 else 3)
  {
    AtSlotInv(cfg, trace, n, slot);
    BackEndInv(cfg, trace, After(cfg, trace, n), n);
    BackEndKeepsCounted(cfg, After(cfg, trace, n), n);
    hide After, BackEnd, SlotInv, StartInv, Counted, Linked, SoonExamined;
    SlotsKeepCounted(cfg, trace, BackEnd(cfg, After(cfg, trace, n), n), n, slot);
  }

  lemma SlotFacts(cfg: Config, trace: seq<Op>, m: Machine, c: int, tried: bool)
    requires m.Valid() && SlotInv(cfg, trace, m, c, tried)
    ensures m.iq.fetchSize == cfg.fetchSize && Conserved(m, trace) && LastOk(m) && Predictors(m)
  {
    hide Conserved, Timed, LastOk, NoRawViolation, NoWawViolation, PortsOk, Paced, InBudget, Predictors, LiveMid;
  }

  lemma RemovalInState(cfg: Config, m: Machine, c: int)
    requires m.Valid() && Counted(m) && Linked(m) && SoonExamined(m, c, 3)
    requires forall k :: 0 <= k < |m.queue| ==> m.queue[k].op.Valid()
    ensures m.iq.len + m.iq.fetchSize >= 0
    ensures !Blocked(cfg, m) && Examine(cfg, m, c).2 ==>
              var (instr, iq, can) := Examine(cfg, m, c);
              && iq.fetchSize == m.iq.fetchSize && Ready(iq, instr.op)
              && iq.Consume(instr.op).len >= 0 && FetchArithmetic.At(iq.Consume(instr.op), instr.op.NextAddr())
  {
    if !Blocked(cfg, m) && Examine(cfg, m, c).2 {
      ExaminedHead(cfg, m, c);
      ExamineCounts(cfg, m, c);
      assert Ops(m.queue)[0] == m.queue[0].op;
      RemovalCounts(Examine(cfg, m, c).1, m.queue[0].op);
    }
  }

  /** Whenever an issue slot removes an instruction on a sequential trace, the byte count stands
      on a fetch boundary or at the instruction; taking the instruction leaves a non-negative
      count that stands at the next address; and no count is ever below one fetch owed. */
  lemma RemovalsOnBoundaries(cfg: Config, trace: seq<Op>, n: nat, slot: nat)
    requires cfg.Valid() && ValidTrace(trace) && Sequential(trace)
    ensures AtSlot(cfg, trace, n, slot).iq.len + cfg.fetchSize >= 0
    ensures var m := AtSlot(cfg, trace, n, slot);
            !Blocked(cfg, m) && Examine(cfg, m, n).2 ==>
              var (instr, iq, can) := Examine(cfg, m, n);
              && (iq.len % cfg.fetchSize == 0 || (iq.len + instr.op.address) % cfg.fetchSize == 0)
              && iq.Consume(instr.op).len >= 0
              && (iq.Consume(instr.op).len + instr.op.NextAddr()) % cfg.fetchSize == 0
  {
    hide After, AtSlot, SlotInv, StartInv, Conserved;
    FetchInvariant(cfg, trace, n);
    AtSlotCounted(cfg, trace, n, slot);
    var m := AtSlot(cfg, trace, n, slot);
    SlotFacts(cfg, trace, m, n, slot > 0);
    QueueValid(trace, m);
    RemovalInState(cfg, m, n);
  }

  // ------------------------------------------------------------ return prediction

  /** In the pipeline, whose return stack holds one address, the successor of a return is
      predicted at the matching call's next address exactly when no call was nested in
      between, and at address 0 otherwise. */
  lemma PredictedReturn(cfg: Config, trace: seq<Op>, n: nat, slot: nat, i: nat)
    requires cfg.Valid() && ValidTrace(trace)
    requires var m := AtSlot(cfg, trace, n, slot); var j := |Issued(m)| - 1;
             j >= 0 && j < |trace| && trace[j].cls.RegJump? && Returns.Matches(trace[..j + 1], i, j)
    ensures var m := AtSlot(cfg, trace, n, slot); var j := |Issued(m)| - 1;
            Prediction(m) == Some(if Returns.Fits(trace[..j + 1], i, j, 1) then trace[i].address + trace[i].size else 0)
  {
    hide AtSlot, After, SlotInv, StartInv, Conserved, LastOk, Predictors, Prediction;
    AfterInv(cfg, trace, n);
    AtSlotInv(cfg, trace, n, slot);
    var m := AtSlot(cfg, trace, n, slot);
    SlotFacts(cfg, trace, m, n, slot > 0);
    ReturnInState(m, trace, i);
  }

  lemma IssuedPrefix(m: Machine, trace: seq<Op>)
    requires Conserved(m, trace)
    ensures |Issued(m)| <= |trace| && Ops(Issued(m)) == trace[..|Issued(m)|]
  {
    forall k | 0 <= k < |Issued(m)|
      ensures Ops(Issued(m))[k] == trace[k]
    {
      IssuedIsTrace(m, trace, k);
    }
    assert |trace| == |m.retired| + |m.sb| + |m.queue|;
  }

  lemma LastIsTrace(m: Machine, trace: seq<Op>)
    requires Conserved(m, trace) && LastOk(m) && Predictors(m) && |Issued(m)| > 0
    ensures var j := |Issued(m)| - 1;
            && j < |trace| && m.ras == ResolveAll(NewRas(2), trace[..j + 1])
            && m.lastIssued.Some? && m.lastIssued.value.op == trace[j]
  {
    IssuedPrefix(m, trace);
    IssuedIsTrace(m, trace, |Issued(m)| - 1);
  }

  lemma MatchedReturn(ops: seq<Op>, i: nat, j: nat)
    requires Returns.Matches(ops, i, j)
    ensures i < j < |ops| && ops[j].isRet
  {
  }

  lemma ReturnInState(m: Machine, trace: seq<Op>, i: nat)
    requires m.Valid() && Conserved(m, trace) && LastOk(m) && Predictors(m)
    requires var j := |Issued(m)| - 1;
             j >= 0 && j < |trace| && trace[j].cls.RegJump? && Returns.Matches(trace[..j + 1], i, j)
    ensures var j := |Issued(m)| - 1;
            Prediction(m) == Some(if Returns.Fits(trace[..j + 1], i, j, 1) then trace[i].NextAddr() else 0)
  {
    hide Conserved, LastOk, Predictors, Issued, Returns.Matches, Returns.Fits, ResolveAll;
    var j := |Issued(m)| - 1;
    LastIsTrace(m, trace);
    var ops := trace[..j + 1];
    assert ops[..j + 1] == ops;
    Returns.ReturnPrediction(2, ops, i, j);
    MatchedReturn(ops, i, j);
    assert ops[i] == trace[i] && ops[j] == trace[j];
  }
}
