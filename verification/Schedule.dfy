// When an instruction issues, when it retires and which units are free, stated on
// the operands, classes and event cycles of the instructions of a run.
module Schedule {
  import opened Prelude
  import opened Instructions
  import opened FetchQueue
  import opened FunctionalUnits
  import opened Pipeline
  import opened Timing
  import opened Ports
  import opened Runs
  import opened RunTheorems
  import Hazards
  import Progress
  import FetchArithmetic

  // ---------------------------------------------------------------- data hazards

  /** The entry writes `r`, which is a register other than the zero register. */
  predicate Writes(op: Op, r: nat) { r != 0 && op.rd == Some(r) }

  predicate Reads(op: Op, r: nat) { op.rs1 == Some(r) || op.rs2 == Some(r) }

  /** What an entry allows: its register is overwritten only with renaming, and read only
      once its value can be forwarded. */
  ghost predicate Harmless(cfg: Config, op: Op, entry: Entry) {
    forall r: nat :: Writes(entry.instr.op, r) ==>
      (op.rd == Some(r) ==> cfg.hasRenaming) && (Reads(op, r) ==> cfg.hasForwarding && entry.done)
  }

  lemma HarmlessEntry(cfg: Config, op: Op, entry: Entry, cycle: int)
    ensures EntryHazards(cfg, op, entry, cycle) == [] <==> Harmless(cfg, op, entry)
  {
    var w := entry.instr.op;
    if w.rd.Some? && w.rd.value != 0 {
      assert Writes(w, w.rd.value);
    }
  }

  /** No data hazard is found exactly when every entry of the scoreboard is harmless. */
  lemma HazardFreeIff(cfg: Config, op: Op, sb: seq<Entry>, cycle: int)
    ensures DataHazards(cfg, op, sb, cycle) == [] <==>
            forall k :: 0 <= k < |sb| ==> Harmless(cfg, op, sb[k])
  {
    hide DataHazards, EntryHazards, Harmless;
    Hazards.NoHazardMeans(cfg, op, sb, cycle);
    forall k | 0 <= k < |sb|
      ensures EntryHazards(cfg, op, sb[k], cycle) == [] <==> Harmless(cfg, op, sb[k])
    {
      HarmlessEntry(cfg, op, sb[k], cycle);
    }
  }

  /** The entry's register is overwritten without renaming, or read before it can be forwarded. */
  ghost predicate Conflict(cfg: Config, op: Op, entry: Entry, kind: EventKind) {
    exists r: nat :: Writes(entry.instr.op, r)
                     && ((kind == WAW && op.rd == Some(r) && !cfg.hasRenaming)
                         || (kind == RAW && Reads(op, r) && !(cfg.hasForwarding && entry.done)))
  }

  /** A logged hazard names its reason: some entry whose register is overwritten, or read too early. */
  lemma {:induction false} HazardLog(cfg: Config, op: Op, sb: seq<Entry>, cycle: int, kind: EventKind)
    ensures Event(kind, cycle) in DataHazards(cfg, op, sb, cycle) <==>
            exists k :: 0 <= k < |sb| && Conflict(cfg, op, sb[k], kind)
  {
    if sb != [] {
      var front, last := sb[..|sb| - 1], sb[|sb| - 1];
      HazardLog(cfg, op, front, cycle, kind);
      EntryLog(cfg, op, last, cycle, kind);
      assert DataHazards(cfg, op, sb, cycle) == DataHazards(cfg, op, front, cycle) + EntryHazards(cfg, op, last, cycle);
      hide *;
      assert forall k :: 0 <= k < |sb| ==> sb[k] == if k < |front| then front[k] else last;
      if exists k :: 0 <= k < |front| && Conflict(cfg, op, front[k], kind) {
        var k :| 0 <= k < |front| && Conflict(cfg, op, front[k], kind);
        assert Conflict(cfg, op, sb[k], kind);
      }
    }
  }

  lemma EntryLog(cfg: Config, op: Op, entry: Entry, cycle: int, kind: EventKind)
    ensures Event(kind, cycle) in EntryHazards(cfg, op, entry, cycle) <==> Conflict(cfg, op, entry, kind)
  {
    var w := entry.instr.op;
    if w.rd.Some? && w.rd.value != 0 {
      assert Writes(w, w.rd.value);
    }
  }

  // ------------------------------------------------------------ functional units

  /** An instruction was handed to `unit` in cycle `c`. */
  predicate Used(issued: seq<Instruction>, unit: ServedBy, c: int) {
    exists k :: 0 <= k < |issued| && issued[k].unit == unit && IssueOf(issued[k]) == c
  }

  /** The flags remember exactly what was issued in this cycle, and the multiplications of the last. */
  predicate Exact(cfg: Config, fus: Fus, issued: seq<Instruction>, c: int) {
    var flu := Used(issued, FirstAlu, c) || Used(issued, BranchUnit, c) || Used(issued, Multiplier, c - 1);
    && fus.hasAlu2 == (cfg.issueWidth > 1)
    && fus.alu == flu && fus.branch == flu
    && fus.mul == Used(issued, Multiplier, c) && fus.issuedMul == Used(issued, Multiplier, c)
    && fus.ldu == Used(issued, MemoryUnit, c)
    && fus.stu == (Used(issued, MemoryUnit, c) || Used(issued, BranchUnit, c))
    && fus.alu2 == Used(issued, SecondAlu, c)
  }

  /** A successor of a branch or register jump issues with its prediction found right, or not
      before the sixth cycle after it. */
  predicate Waited(before: Instruction, i: Instruction) {
    (before.op.cls.Branch? || before.op.cls.RegJump?) && IssueOf(i) < IssueOf(before) + 6 ==> i.Has(BHIT)
  }

  predicate AllWaited(issued: seq<Instruction>) {
    forall k :: 0 < k < |issued| ==> Waited(issued[k - 1], issued[k])
  }

  predicate SameRecord(i: Instruction, i': Instruction) {
    SameIssue(i, i') && (i.Has(BHIT) ==> i'.Has(BHIT))
  }

  lemma WaitedFrame(a: seq<Instruction>, b: seq<Instruction>)
    requires AllWaited(a) && |a| == |b| && forall k :: 0 <= k < |a| ==> SameRecord(a[k], b[k])
    ensures AllWaited(b)
  {
    hide IssueOf, Instruction.Has;
    forall k | 0 < k < |b|
      ensures Waited(b[k - 1], b[k])
    {
      assert SameRecord(a[k - 1], b[k - 1]) && SameRecord(a[k], b[k]) && Waited(a[k - 1], a[k]);
    }
  }

  lemma UsedFrame(a: seq<Instruction>, b: seq<Instruction>, unit: ServedBy, c: int)
    requires |a| == |b| && forall k :: 0 <= k < |a| ==> SameIssue(a[k], b[k])
    ensures Used(b, unit, c) == Used(a, unit, c)
  {
    forall k | 0 <= k < |a|
      ensures (a[k].unit == unit && IssueOf(a[k]) == c) == (b[k].unit == unit && IssueOf(b[k]) == c)
    {
      assert SameIssue(a[k], b[k]);
    }
  }

  lemma ExactFrame(cfg: Config, fus: Fus, a: seq<Instruction>, b: seq<Instruction>, c: int)
    requires Exact(cfg, fus, a, c)
    requires |a| == |b| && forall k :: 0 <= k < |a| ==> SameIssue(a[k], b[k])
    ensures Exact(cfg, fus, b, c)
  {
    forall unit, d
      ensures Used(b, unit, d) == Used(a, unit, d)
    {
      UsedFrame(a, b, unit, d);
    }
    hide Used;
  }

  lemma UsedExtends(a: seq<Instruction>, i: Instruction, unit: ServedBy, c: int)
    ensures Used(a + [i], unit, c) == (Used(a, unit, c) || (i.unit == unit && IssueOf(i) == c))
  {
    var b := a + [i];
    if Used(a, unit, c) {
      var k :| 0 <= k < |a| && a[k].unit == unit && IssueOf(a[k]) == c;
      assert b[k] == a[k];
    }
    if i.unit == unit && IssueOf(i) == c {
      assert b[|a|] == i;
    }
  }

  /** A new cycle has used nothing yet. */
  lemma ExactStart(cfg: Config, fus: Fus, issued: seq<Instruction>, c: int)
    requires Exact(cfg, fus, issued, c) && forall k :: 0 <= k < |issued| ==> IssueOf(issued[k]) <= c
    ensures Exact(cfg, fus.Cycle(), issued, c + 1)
  {
    forall unit, d | d > c
      ensures !Used(issued, unit, d)
    {
    }
    hide Used, IssueOf;
  }

  lemma ExactIssue(cfg: Config, fus: Fus, issued: seq<Instruction>, new_: Instruction, c: int)
    requires Exact(cfg, fus, issued, c) && fus.IsReadyFor(new_.op)
    requires new_.unit == fus.Serves(new_.op) && IssueOf(new_) == c
    ensures Exact(cfg, fus.Issue(new_.op), issued + [new_], c)
  {
    forall unit, d
      ensures Used(issued + [new_], unit, d) == (Used(issued, unit, d) || (new_.unit == unit && d == c))
    {
      UsedExtends(issued, new_, unit, d);
    }
    hide Used, IssueOf;
  }

  predicate ExactOf(cfg: Config, m: Machine, c: int) {
    Exact(cfg, m.fus, Issued(m), c) && AllWaited(Issued(m))
  }

  lemma RecordsFrame(cfg: Config, m: Machine, m': Machine, c: int)
    requires ExactOf(cfg, m, c) && m'.fus == m.fus && |Issued(m')| == |Issued(m)|
    requires forall k :: 0 <= k < |Issued(m)| ==> SameRecord(Issued(m)[k], Issued(m')[k])
    ensures ExactOf(cfg, m', c)
  {
    hide Exact, Issued, IssueOf, SameIssue, AllWaited, Instruction.Has;
    ExactFrame(cfg, m.fus, Issued(m), Issued(m'), c);
    WaitedFrame(Issued(m), Issued(m'));
  }

  lemma LogSameRecord(i: Instruction, e: Event)
    requires !e.kind.Issue?
    ensures SameRecord(i, i.Log([e]))
  {
    hide CycleOf, Count, Instruction.Has;
    AppendOne(i.events, e, Issue);
    KeepsHit(i, e);
  }

  lemma KeepsHit(i: Instruction, e: Event)
    ensures i.Has(BHIT) ==> i.Log([e]).Has(BHIT)
  {
    Progress.LogKeepsHas(i, [e], BHIT);
  }

  lemma CommitKeepsExact(cfg: Config, m: Machine, c: int, port: nat)
    requires m.Valid() && ExactOf(cfg, m, c)
    ensures ExactOf(cfg, TryCommit(m, c, port), c)
  {
    if CanCommit(m, port) {
      CommitShape(m, c, port);
      var m' := TryCommit(m, c, port);
      assert m'.fus == m.fus;
      hide ExactOf, Issued, IssueOf, TryCommit, SameRecord, Instruction.Has;
      forall k | 0 <= k < |Issued(m)|
        ensures SameRecord(Issued(m)[k], Issued(m')[k])
      {
        LogSameRecord(Issued(m)[k], Event(Commit, c));
        SameRecordItself(Issued(m)[k]);
      }
      RecordsFrame(cfg, m, m', c);
    }
  }

  lemma SameRecordItself(i: Instruction)
    ensures SameRecord(i, i)
  {
  }

  lemma {:induction false} PortsKeepExact(cfg: Config, m: Machine, c: int, ports: nat)
    requires m.Valid() && ExactOf(cfg, m, c)
    ensures ExactOf(cfg, CommitPorts(m, c, ports), c)
    decreases ports
  {
    hide ExactOf, TryCommit;
    if ports > 0 {
      PortsKeepExact(cfg, m, c, ports - 1);
      CommitKeepsExact(cfg, CommitPorts(m, c, ports - 1), c, ports - 1);
    }
  }

  lemma ExecuteKeepsExact(cfg: Config, m: Machine, c: int)
    requires m.Valid() && ExactOf(cfg, m, c)
    ensures ExactOf(cfg, Execute(m, c), c)
  {
    hide *;
    ExecuteRecords(m, c);
    RecordsFrame(cfg, m, Execute(m, c), c);
  }

  lemma ExecuteRecords(m: Machine, c: int)
    requires m.Valid()
    ensures var m' := Execute(m, c);
            && m'.fus == m.fus && |Issued(m')| == |Issued(m)|
            && forall k :: 0 <= k < |Issued(m)| ==> SameRecord(Issued(m)[k], Issued(m')[k])
  {
    hide SameRecord, ExecuteEntry;
    var m' := Execute(m, c);
    forall k | 0 <= k < |Issued(m)|
      ensures SameRecord(Issued(m)[k], Issued(m')[k])
    {
      if k < |m.retired| {
        SameRecordItself(Issued(m)[k]);
      } else {
        ExecuteSameRecord(m.sb[k - |m.retired|], c);
      }
    }
  }

  lemma ExecuteSameRecord(entry: Entry, c: int)
    ensures SameRecord(entry.instr, ExecuteEntry(entry, c).instr)
  {
    hide SameRecord, Instruction.Log;
    LogSameRecord(entry.instr, Event(Done, c));
    SameRecordItself(entry.instr);
  }

  lemma StartKeepsExact(cfg: Config, m: Machine, c: int)
    requires m.Valid() && ExactOf(cfg, m, c) && PortsOk(m, c)
    ensures ExactOf(cfg, StartCycle(m), c + 1)
  {
    assert forall k :: 0 <= k < |Issued(m)| ==> Flagged(m.fus, Issued(m)[k], c);
    assert Issued(StartCycle(m)) == Issued(m);
    hide Exact, Issued, IssueOf;
    ExactStart(cfg, m.fus, Issued(m), c);
  }

  /** An issue in the six cycles after a branch had a right prediction: a wrong one empties the queue. */
  lemma EarlyIssueIsHit(cfg: Config, m: Machine, c: int)
    requires m.Valid() && !Blocked(cfg, m) && Examine(cfg, m, c).2 && m.queue[0].op.Valid()
    requires m.lastIssued.Some? && (m.lastIssued.value.op.cls.Branch? || m.lastIssued.value.op.cls.RegJump?)
    requires c < m.lastIssued.value.issueCycle + 6
    ensures TryIssue(cfg, m, c).sb[|m.sb|].instr.Has(BHIT)
  {
    Progress.ExaminedHead(cfg, m, c);
    var (instr, iq, can) := Examine(cfg, m, c);
    assert Prediction(m).value == m.queue[0].op.address;
    Progress.LogKeepsHas(instr, [Event(Issue, c)], BHIT);
    hide Prediction, DataHazards;
  }

  lemma WaitedExtends(issued: seq<Instruction>, i: Instruction)
    requires AllWaited(issued) && (|issued| > 0 ==> Waited(issued[|issued| - 1], i))
    ensures AllWaited(issued + [i])
  {
    hide Waited;
    var all := issued + [i];
    forall k | 0 < k < |all|
      ensures Waited(all[k - 1], all[k])
    {
      assert k < |issued| ==> Waited(issued[k - 1], issued[k]);
    }
  }

  lemma NewWaited(cfg: Config, m: Machine, c: int)
    requires m.Valid() && !Blocked(cfg, m) && Examine(cfg, m, c).2 && m.queue[0].op.Valid()
    requires Timed(m, c, c) && c >= 0 && Progress.LastOk(m)
    ensures var new_ := TryIssue(cfg, m, c).sb[|m.sb|].instr;
            |Issued(m)| > 0 ==> Waited(Issued(m)[|Issued(m)| - 1], new_)
  {
    Hazards.IssuedShape(cfg, m, c);
    hide Examine, TryIssue, Timed, Issued, IssueOf, Instruction.Has;
    if m.lastIssued.Some? {
      var last := m.lastIssued.value;
      if (last.op.cls.Branch? || last.op.cls.RegJump?) && c < last.issueCycle + 6 {
        EarlyIssueIsHit(cfg, m, c);
      }
    }
  }

  lemma IssueKeepsExact(cfg: Config, m: Machine, c: int)
    requires m.Valid() && Timed(m, c, c) && c >= 0 && Progress.LastOk(m) && ExactOf(cfg, m, c)
    requires |m.queue| > 0 ==> m.queue[0].op.Valid()
    ensures ExactOf(cfg, TryIssue(cfg, m, c), c)
  {
    var m' := TryIssue(cfg, m, c);
    if Blocked(cfg, m) || !Examine(cfg, m, c).2 {
      Hazards.NotIssuedShape(cfg, m, c);
    } else {
      Hazards.IssuedShape(cfg, m, c);
      var new_ := m'.sb[|m.sb|].instr;
      assert m.fus.IsReadyFor(new_.op) && m'.fus == m.fus.Issue(new_.op) && Issued(m') == Issued(m) + [new_];
      hide *;
      ExactParts(cfg, m, c);
      ExactIssue(cfg, m.fus, Issued(m), new_, c);
      NewWaited(cfg, m, c);
      WaitedExtends(Issued(m), new_);
      ExactWhole(cfg, m', c);
    }
  }

  lemma ExactParts(cfg: Config, m: Machine, c: int)
    requires ExactOf(cfg, m, c)
    ensures Exact(cfg, m.fus, Issued(m), c) && AllWaited(Issued(m))
  {
    hide Exact, AllWaited, Issued;
  }

  lemma ExactWhole(cfg: Config, m: Machine, c: int)
    requires Exact(cfg, m.fus, Issued(m), c) && AllWaited(Issued(m))
    ensures ExactOf(cfg, m, c)
  {
    hide Exact, AllWaited, Issued;
  }

  lemma BackEndKeepsExact(cfg: Config, m: Machine, c: int)
    requires m.Valid() && ExactOf(cfg, m, c - 1) && PortsOk(m, c - 1)
    ensures ExactOf(cfg, BackEnd(cfg, m, c), c)
  {
    hide ExactOf, PortsOk, StartCycle, CommitPorts, Execute;
    StartKeepsExact(cfg, m, c - 1);
    PortsKeepExact(cfg, StartCycle(m), c, cfg.commitWidth);
    ExecuteKeepsExact(cfg, CommitPorts(StartCycle(m), c, cfg.commitWidth), c);
  }

  lemma {:induction false} SlotsKeepExact(cfg: Config, trace: seq<Op>, m: Machine, c: int, slots: nat)
    requires cfg.Valid() && ValidTrace(trace) && c >= 0 && m.Valid() && SlotInv(cfg, trace, m, c, false)
    requires ExactOf(cfg, m, c)
    ensures ExactOf(cfg, IssueSlots(cfg, m, c, slots), c)
    decreases slots
  {
    hide SlotInv, ExactOf, TryIssue, Timed, Conserved, Progress.LastOk;
    if slots > 0 {
      SlotsKeepExact(cfg, trace, m, c, slots - 1);
      IssueSlotsInv(cfg, trace, m, c, slots - 1);
      var s := IssueSlots(cfg, m, c, slots - 1);
      SlotTimed(cfg, trace, s, c, slots - 1 > 0);
      QueueValid(trace, s);
      IssueKeepsExact(cfg, s, c);
    }
  }

  lemma SlotTimed(cfg: Config, trace: seq<Op>, m: Machine, c: int, tried: bool)
    requires m.Valid() && SlotInv(cfg, trace, m, c, tried)
    ensures Timed(m, c, c) && Conserved(m, trace) && Progress.LastOk(m) && m.iq.fetchSize == cfg.fetchSize
  {
    hide Conserved, Timed, Progress.LastOk, Hazards.NoRawViolation, Hazards.NoWawViolation, PortsOk, Progress.Paced,
      Progress.InBudget, Predictors, Progress.LiveMid;
  }

  lemma {:induction false} ExactAfter(cfg: Config, trace: seq<Op>, n: nat)
    requires cfg.Valid() && ValidTrace(trace)
    ensures ExactOf(cfg, After(cfg, trace, n), n - 1)
    decreases n, 0
  {
    hide After, AtSlot, ExactOf;
    if n == 0 {
      AfterZero(cfg, trace);
      ExactInitial(cfg, trace);
    } else {
      ExactAtSlot(cfg, trace, n - 1, cfg.issueWidth);
      AfterIsFetch(cfg, trace, n);
      FetchKeepsExact(cfg, AtSlot(cfg, trace, n - 1, cfg.issueWidth), n - 1);
    }
  }

  lemma ExactInitial(cfg: Config, trace: seq<Op>)
    requires cfg.Valid()
    ensures ExactOf(cfg, Initial(cfg, trace), -1)
  {
    assert Issued(Initial(cfg, trace)) == [];
  }

  lemma FetchKeepsExact(cfg: Config, m: Machine, c: int)
    requires m.Valid() && ExactOf(cfg, m, c)
    ensures ExactOf(cfg, FetchBytes(m), c)
  {
    assert Issued(FetchBytes(m)) == Issued(m);
    hide Exact, Issued;
  }

  lemma {:induction false} ExactAtSlot(cfg: Config, trace: seq<Op>, n: nat, slot: nat)
    requires cfg.Valid() && ValidTrace(trace)
    ensures ExactOf(cfg, AtSlot(cfg, trace, n, slot), n)
    decreases n, 1
  {
    hide ExactOf, After, SlotInv, StartInv, BackEnd, IssueSlots;
    ExactAfter(cfg, trace, n);
    AfterInv(cfg, trace, n);
    PortsAfter(cfg, trace, n);
    BackEndKeepsExact(cfg, After(cfg, trace, n), n);
    BackEndInv(cfg, trace, After(cfg, trace, n), n);
    SlotsKeepExact(cfg, trace, BackEnd(cfg, After(cfg, trace, n), n), n, slot);
  }

  lemma PortsAfter(cfg: Config, trace: seq<Op>, n: nat)
    requires cfg.Valid() && ValidTrace(trace)
    ensures PortsOk(After(cfg, trace, n), n - 1)
  {
    hide PortsOk, After;
    AfterFacts(cfg, trace, n);
  }

  /** The first ALU, branches and the slot of a multiplication share a write-back port. */
  predicate FluBusy(issued: seq<Instruction>, c: int) {
    Used(issued, FirstAlu, c) || Used(issued, BranchUnit, c) || Used(issued, Multiplier, c - 1)
  }

  predicate SecondAluFree(cfg: Config, issued: seq<Instruction>, c: int) {
    cfg.issueWidth > 1 && !Used(issued, SecondAlu, c)
  }

  /** What may not have been issued before in this cycle, or the cycle before, class by class. */
  predicate UnitFree(cfg: Config, issued: seq<Instruction>, op: Op, c: int) {
    match op.cls
    case Other => SecondAluFree(cfg, issued, c) || !FluBusy(issued, c)
    case Branch => !FluBusy(issued, c)
    case Jump => !FluBusy(issued, c)
    case RegJump => !FluBusy(issued, c)
    case MulDiv => !Used(issued, Multiplier, c)
    case Load => !Used(issued, MemoryUnit, c)
    case Store => !Used(issued, MemoryUnit, c) && !Used(issued, BranchUnit, c)
  }

  lemma ReadyIff(cfg: Config, fus: Fus, issued: seq<Instruction>, op: Op, c: int)
    requires Exact(cfg, fus, issued, c)
    ensures fus.IsReadyFor(op) == UnitFree(cfg, issued, op, c)
    ensures op.cls.Other? ==> (fus.Serves(op) == SecondAlu <==> SecondAluFree(cfg, issued, c))
  {
    hide Used;
  }

  /** Over the whole run: the successor of a branch or register jump whose prediction was never
      found right issues six cycles after it at the earliest. */
  lemma MissDelay(cfg: Config, trace: seq<Op>, n: nat, k: nat)
    requires cfg.Valid() && ValidTrace(trace) && 0 < k < |Issued(After(cfg, trace, n))|
    ensures var s := Issued(After(cfg, trace, n));
            (s[k - 1].op.cls.Branch? || s[k - 1].op.cls.RegJump?) && !s[k].Has(BHIT)
            ==> IssueOf(s[k]) >= IssueOf(s[k - 1]) + 6
  {
    hide After, Issued, Exact, IssueOf, Instruction.Has;
    ExactAfter(cfg, trace, n);
    assert Waited(Issued(After(cfg, trace, n))[k - 1], Issued(After(cfg, trace, n))[k]);
  }

  // ----------------------------------------------------------------- branch check

  /** `r` holds the largest number of whole fetches that `q` holds, one fetch lost if it just came. */
  predicate Jumped(q: Iq, r: Iq)
    requires q.Valid()
  {
    var left := q.len - (if q.newFetch then q.fetchSize else 0);
    r.fetchSize == q.fetchSize && !r.newFetch && r.len % q.fetchSize == 0 && left - q.fetchSize < r.len <= left
  }

  lemma JumpExact(q: Iq)
    requires q.Valid()
    ensures Jumped(q, q.Jump())
  {
    TruncateMeaning(if q.newFetch then q.(len := q.len - q.fetchSize, newFetch := false) else q, 0);
  }

  /** The queue after the branch check of the head: emptied in the six cycles after the branch
      while its prediction is not the head, jumped once when a taken branch is found predicted. */
  predicate BranchRule(m: Machine, c: int, q: Iq)
    requires m.Valid() && |m.queue| > 0
  {
    if m.lastIssued.None? || Prediction(m).None? then q == m.iq
    else
      var last, head := m.lastIssued.value, m.queue[0];
      if Prediction(m).value != head.op.address then
        if c < last.issueCycle + 6 then q == m.iq.(len := 0, newFetch := false) else q == m.iq
      else if head.Has(BHIT) || head.op.address == last.op.address + last.op.size then q == m.iq
      else Jumped(m.iq, q)
  }

  /** ... and what it logs: the hazards, a busy unit, and the verdict, once for each of the two kinds. */
  lemma BranchCheck(cfg: Config, m: Machine, c: int)
    requires m.Valid() && |m.queue| > 0
    ensures BranchRule(m, c, Examine(cfg, m, c).1)
    ensures var head, events := m.queue[0], Examine(cfg, m, c).0.events;
            var found := head.events + DataHazards(cfg, head.op, m.sb, c)
                         + (if m.fus.IsReadyFor(head.op) then [] else [Event(STRUCT, c)]);
            if Prediction(m).None? then events == found
            else
              var kind := if Prediction(m).value == head.op.address then BHIT else BMISS;
              events == found + (if head.Has(kind) then [] else [Event(kind, c)])
  {
    var head := m.queue[0];
    var data, structural := DataHazards(cfg, head.op, m.sb, c), StructuralHazards(m.fus, head.op, c);
    assert head.events + (data + structural) == head.events + data + structural;
    FetchArithmetic.FoundHasNoBranch(cfg, m, c);
    Progress.LogKeepsHas(head, data + structural, BHIT);
    Progress.LogKeepsHas(head, data + structural, BMISS);
    JumpExact(m.iq);
  }

  // ----------------------------------------------------------------- the issue rule

  /** A four-byte instruction that starts in the last two bytes of a fetch needs that fetch whole. */
  predicate BytesThere(q: Iq, op: Op)
    requires q.Valid()
  {
    q.len >= op.size + (if op.size == 4 && op.address % q.fetchSize == q.fetchSize - 2 then q.fetchSize - 2 else 0)
  }

  ghost predicate MayIssue(cfg: Config, m: Machine, c: int)
    requires m.Valid()
  {
    && |m.queue| > 0 && |m.sb| < cfg.sbLen
    && (forall k :: 0 <= k < |m.sb| ==> Harmless(cfg, m.queue[0].op, m.sb[k]))
    && UnitFree(cfg, Issued(m), m.queue[0].op, c)
    && BytesThere(Examine(cfg, m, c).1, m.queue[0].op)
  }

  lemma IssuesInState(cfg: Config, m: Machine, c: int)
    requires m.Valid() && ExactOf(cfg, m, c) && (|m.queue| > 0 ==> m.queue[0].op.Valid())
    ensures MayIssue(cfg, m, c) <==> !Blocked(cfg, m) && Examine(cfg, m, c).2
  {
    if !Blocked(cfg, m) {
      var op := m.queue[0].op;
      HazardFreeIff(cfg, op, m.sb, c);
      ReadyIff(cfg, m.fus, Issued(m), op, c);
      assert Examine(cfg, m, c).2 ==
             (DataHazards(cfg, op, m.sb, c) == [] && m.fus.IsReadyFor(op) && Examine(cfg, m, c).1.Has(op));
      hide Harmless, UnitFree, Exact, Issued, DataHazards, Examine, Fus.IsReadyFor, Fus.Serves;
    }
  }

  /** In every slot of every cycle of a run, the next instruction of the trace issues exactly
      when there is room, no operand is missing, its unit is free and its bytes are there. */
  lemma IssueRule(cfg: Config, trace: seq<Op>, n: nat, slot: nat)
    requires cfg.Valid() && ValidTrace(trace)
    ensures var m, m' := AtSlot(cfg, trace, n, slot), AtSlot(cfg, trace, n, slot + 1);
            var k := |Issued(m)|;
            if !MayIssue(cfg, m, n) then Issued(m') == Issued(m)
            else
              && k < |trace| && |Issued(m')| == k + 1 && Issued(m')[..k] == Issued(m)
              && Issued(m')[k].op == trace[k] && IssueOf(Issued(m')[k]) == n
              && (trace[k].cls.Other? ==>
                    (Issued(m')[k].unit == SecondAlu <==> SecondAluFree(cfg, Issued(m), n)))
  {
    hide After, SlotInv, StartInv, Issued, ExactOf, MayIssue, Conserved, Timed, UnitFree;
    AfterInv(cfg, trace, n);
    AtSlotInv(cfg, trace, n, slot);
    ExactAtSlot(cfg, trace, n, slot);
    var m := AtSlot(cfg, trace, n, slot);
    SlotTimed(cfg, trace, m, n, slot > 0);
    QueueValid(trace, m);
    IssuesInState(cfg, m, n);
    SlotStep(cfg, trace, n, slot);
    hide AtSlot, TryIssue, Examine;
    if MayIssue(cfg, m, n) {
      IssuedOne(cfg, trace, m, n);
    } else {
      Hazards.NotIssuedShape(cfg, m, n);
    }
  }

  lemma SlotStep(cfg: Config, trace: seq<Op>, n: nat, slot: nat)
    requires cfg.Valid()
    ensures AtSlot(cfg, trace, n, slot + 1) == TryIssue(cfg, AtSlot(cfg, trace, n, slot), n)
  {
  }

  lemma IssuedOne(cfg: Config, trace: seq<Op>, m: Machine, c: int)
    requires m.Valid() && Timed(m, c, c) && c >= 0 && Conserved(m, trace) && ExactOf(cfg, m, c)
    requires !Blocked(cfg, m) && Examine(cfg, m, c).2
    ensures var m', k := TryIssue(cfg, m, c), |Issued(m)|;
            && k < |trace| && |Issued(m')| == k + 1 && Issued(m')[..k] == Issued(m)
            && Issued(m')[k].op == trace[k] && IssueOf(Issued(m')[k]) == c
            && (trace[k].cls.Other? ==>
                  (Issued(m')[k].unit == SecondAlu <==> SecondAluFree(cfg, Issued(m), c)))
  {
    assert trace[|Issued(m)|] == m.queue[0].op by {
      assert |Ops(m.retired) + Ops(Instrs(m.sb))| == |Issued(m)|;
      assert trace[|Issued(m)|] == (Ops(m.retired) + Ops(Instrs(m.sb)) + Ops(m.queue))[|Issued(m)|];
    }
    Hazards.IssuedShape(cfg, m, c);
    ReadyIff(cfg, m.fus, Issued(m), m.queue[0].op, c);
    hide Examine, TryIssue, Timed, Issued, Exact, Conserved, Fus.Serves, Fus.IsReadyFor, IssueOf, SecondAluFree;
  }

  // ------------------------------------------------------------------- commit rule

  /** The entry may retire as number `k` of its cycle. */
  predicate Retires(entry: Entry, k: nat) { entry.done && (k > 0 ==> !entry.instr.op.cls.Store?) }

  /** `r` entries retire: as many as there are ports, up to the first one that may not. */
  predicate RetireCount(sb: seq<Entry>, ports: nat, r: nat) {
    && r <= ports && r <= |sb|
    && (forall k :: 0 <= k < r ==> Retires(sb[k], k))
    && (r < ports && r < |sb| ==> !Retires(sb[r], r))
  }

  function Committed(entries: seq<Entry>, cycle: int): (s: seq<Instruction>)
    ensures |s| == |entries|
  {
    seq(|entries|, k requires 0 <= k < |entries| => entries[k].instr.Log([Event(Commit, cycle)]))
  }

  /** `m'` has retired the first `r` entries of `m` through the first `ports` ports. */
  predicate RetiredBy(m: Machine, m': Machine, cycle: int, ports: nat) {
    var r := |m.sb| - |m'.sb|;
    && r >= 0 && RetireCount(m.sb, ports, r)
    && m'.sb == m.sb[r..] && m'.retired == m.retired + Committed(m.sb[..r], cycle)
  }

  /** The ports of one cycle retire exactly the entries that may. */
  lemma {:induction false} CommitRule(m: Machine, cycle: int, ports: nat)
    requires m.Valid()
    ensures RetiredBy(m, CommitPorts(m, cycle, ports), cycle, ports)
    decreases ports
  {
    hide RetiredBy, TryCommit;
    if ports == 0 {
      RetiresNone(m, cycle);
    } else {
      CommitRule(m, cycle, ports - 1);
      RetiresMore(m, CommitPorts(m, cycle, ports - 1), cycle, ports - 1);
    }
  }

  lemma RetiresNone(m: Machine, cycle: int)
    ensures RetiredBy(m, m, cycle, 0)
  {
    assert Committed(m.sb[..0], cycle) == [];
  }

  lemma RetiresMore(m: Machine, p: Machine, cycle: int, port: nat)
    requires p.Valid() && RetiredBy(m, p, cycle, port)
    ensures RetiredBy(m, TryCommit(p, cycle, port), cycle, port + 1)
  {
    CommitOne(p, cycle, port);
    RetireOneMore(m.sb, cycle, |m.sb| - |p.sb|, port);
    hide TryCommit, Committed, RetireCount;
    var r := |m.sb| - |p.sb|;
    assert p.sb == m.sb[r..];
    if |p.sb| > 0 {
      assert m.retired + Committed(m.sb[..r], cycle) + Committed(p.sb[..1], cycle)
             == m.retired + (Committed(m.sb[..r], cycle) + Committed(p.sb[..1], cycle));
    }
  }

  lemma CommitOne(m: Machine, cycle: int, port: nat)
    requires m.Valid()
    ensures var m' := TryCommit(m, cycle, port);
            if |m.sb| > 0 && m.sb[0].done && !(port > 0 && m.sb[0].instr.op.cls.Store?)
            then m'.sb == m.sb[1..] && m'.retired == m.retired + Committed(m.sb[..1], cycle)
            else m'.sb == m.sb && m'.retired == m.retired
  {
  }

  lemma RetireOneMore(sb: seq<Entry>, cycle: int, r: nat, port: nat)
    requires RetireCount(sb, port, r)
    ensures if r < |sb| && sb[r].done && !(port > 0 && sb[r].instr.op.cls.Store?)
            then && RetireCount(sb, port + 1, r + 1) && sb[r..][1..] == sb[r + 1..]
                 && Committed(sb[..r + 1], cycle) == Committed(sb[..r], cycle) + Committed(sb[r..][..1], cycle)
            else RetireCount(sb, port + 1, r)
  {
    if r < |sb| {
      assert sb[..r + 1] == sb[..r] + sb[r..][..1];
    }
  }

  lemma {:induction false} SlotsRetireNone(cfg: Config, m: Machine, c: int, slots: nat)
    requires m.Valid()
    ensures IssueSlots(cfg, m, c, slots).retired == m.retired
    decreases slots
  {
    hide TryIssue;
    if slots > 0 {
      SlotsRetireNone(cfg, m, c, slots - 1);
      IssueFrame(cfg, IssueSlots(cfg, m, c, slots - 1), c);
    }
  }

  /** The cycles from issue to done, by class. */
  function Latency(op: Op): nat { if op.cls.Load? || op.cls.Store? || op.cls.MulDiv? then 2 else 1 }

  /** In cycle `n`, the retired instructions grow by the entries at the front of the scoreboard
      that were done before this cycle: up to one per port, and a store only through the first. */
  lemma CycleRetires(cfg: Config, trace: seq<Op>, n: nat)
    requires cfg.Valid() && ValidTrace(trace)
    ensures var m, m' := After(cfg, trace, n), After(cfg, trace, n + 1);
            var r := |m'.retired| - |m.retired|;
            && r >= 0 && RetireCount(m.sb, cfg.commitWidth, r)
            && m'.retired == m.retired + Committed(m.sb[..r], n)
            && (forall k :: 0 <= k < |m.sb| ==>
                  (m.sb[k].done <==> IssueOf(m.sb[k].instr) + Latency(m.sb[k].instr.op) < n))
  {
    hide *;
    var m := After(cfg, trace, n);
    CycleParts(cfg, trace, n);
    DoneAfter(cfg, trace, n);
    CommitRule(StartCycle(m), n, cfg.commitWidth);
    RetiredByMeans(StartCycle(m), CommitPorts(StartCycle(m), n, cfg.commitWidth), n, cfg.commitWidth);
    SlotsRetireNone(cfg, BackEnd(cfg, m, n), n, cfg.issueWidth);
  }

  lemma RetiredByMeans(m: Machine, m': Machine, cycle: int, ports: nat)
    requires RetiredBy(m, m', cycle, ports)
    ensures var r := |m'.retired| - |m.retired|;
            r >= 0 && RetireCount(m.sb, ports, r) && m'.retired == m.retired + Committed(m.sb[..r], cycle)
  {
    hide RetireCount;
  }

  lemma CycleParts(cfg: Config, trace: seq<Op>, n: nat)
    requires cfg.Valid()
    ensures var m := After(cfg, trace, n);
            && After(cfg, trace, n + 1).retired == IssueSlots(cfg, BackEnd(cfg, m, n), n, cfg.issueWidth).retired
            && StartCycle(m).sb == m.sb && StartCycle(m).retired == m.retired
            && BackEnd(cfg, m, n).retired == CommitPorts(StartCycle(m), n, cfg.commitWidth).retired
  {
  }

  lemma DoneAfter(cfg: Config, trace: seq<Op>, n: nat)
    requires cfg.Valid() && ValidTrace(trace)
    ensures var m := After(cfg, trace, n);
            forall k :: 0 <= k < |m.sb| ==>
              (m.sb[k].done <==> IssueOf(m.sb[k].instr) + Latency(m.sb[k].instr.op) < n)
  {
    hide After, Conserved, Progress.LastOk, Predictors, Hazards.NoRawViolation, Hazards.NoWawViolation, PortsOk,
      Progress.Paced, Progress.InBudget;
    AfterFacts(cfg, trace, n);
    var m := After(cfg, trace, n);
    assert forall k :: 0 <= k < |m.sb| ==> EntryOk(m.sb[k], n - 1);
  }

  /** Within the cycle, a value computed in it can already be forwarded. */
  lemma DoneInSlot(cfg: Config, trace: seq<Op>, n: nat, slot: nat)
    requires cfg.Valid() && ValidTrace(trace)
    ensures var m := AtSlot(cfg, trace, n, slot);
            forall k :: 0 <= k < |m.sb| ==>
              (m.sb[k].done <==> IssueOf(m.sb[k].instr) + Latency(m.sb[k].instr.op) <= n)
  {
    hide After, AtSlot, SlotInv, StartInv;
    AfterInv(cfg, trace, n);
    AtSlotInv(cfg, trace, n, slot);
    var m := AtSlot(cfg, trace, n, slot);
    SlotTimed(cfg, trace, m, n, slot > 0);
    assert forall k :: 0 <= k < |m.sb| ==> EntryOk(m.sb[k], n);
  }

  /** The issue stage of a cycle starts from the bytes the last one left, has as many slots as
      the issue width, and is followed by the fetch. */
  lemma CycleBytes(cfg: Config, trace: seq<Op>, n: nat)
    requires cfg.Valid() && ValidTrace(trace)
    ensures After(cfg, trace, 0).iq == Iq(cfg.fetchSize, cfg.fetchSize, true)
    ensures AtSlot(cfg, trace, n, 0).iq == After(cfg, trace, n).iq
    ensures AtSlot(cfg, trace, n, 0).queue == After(cfg, trace, n).queue
    ensures var s := AtSlot(cfg, trace, n, cfg.issueWidth);
            After(cfg, trace, n + 1) == s.(iq := Iq(cfg.fetchSize, s.iq.len + cfg.fetchSize, true))
  {
    Progress.BackEndFrame(cfg, After(cfg, trace, n), n);
    SizeAtSlot(cfg, trace, n, cfg.issueWidth);
    AfterIsFetch(cfg, trace, n + 1);
    AfterZero(cfg, trace);
    assert AtSlot(cfg, trace, n, 0) == BackEnd(cfg, After(cfg, trace, n), n);
    hide After, AtSlot, BackEnd;
  }

  lemma SizeAtSlot(cfg: Config, trace: seq<Op>, n: nat, slot: nat)
    requires cfg.Valid() && ValidTrace(trace)
    ensures AtSlot(cfg, trace, n, slot).iq.fetchSize == cfg.fetchSize
  {
    hide After, AtSlot, SlotInv, StartInv;
    AfterInv(cfg, trace, n);
    AtSlotInv(cfg, trace, n, slot);
    SlotTimed(cfg, trace, AtSlot(cfg, trace, n, slot), n, slot > 0);
  }
}
