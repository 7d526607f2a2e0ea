// Liveness: the head of the queue issues within a number of cycles that depends
// on the scoreboard length alone, whatever the trace and the predictors do.
module Progress {
  import opened Prelude
  import opened Instructions
  import opened FetchQueue
  import opened FunctionalUnits
  import opened Pipeline
  import opened Timing
  import Hazards

  /** Cycle of the last issue, -1 before the first. */
  function LastCycle(m: Machine): int {
    if m.lastIssued.Some? then m.lastIssued.value.issueCycle else -1
  }

  /** The last issued instruction is the youngest one, and issue cycles are ordered. */
  predicate LastOk(m: Machine) { Youngest(m.lastIssued, Issued(m)) }

  predicate Youngest(last: Option<LastIssue>, issued: seq<Instruction>) {
    && (if last.None? then |issued| == 0
        else |issued| > 0
             && issued[|issued| - 1].op == last.value.op
             && IssueOf(issued[|issued| - 1]) == last.value.issueCycle)
    && (forall i :: 0 <= i < |issued| ==>
          0 <= IssueOf(issued[i]) <= if last.Some? then last.value.issueCycle else -1)
  }

  lemma YoungestFrame(last: Option<LastIssue>, a: seq<Instruction>, b: seq<Instruction>)
    requires Youngest(last, a) && |a| == |b|
    requires forall k :: 0 <= k < |a| ==> IssueOf(b[k]) == IssueOf(a[k]) && b[k].op == a[k].op
    ensures Youngest(last, b)
  {
  }

  lemma YoungestExtends(last: Option<LastIssue>, a: seq<Instruction>, i: Instruction)
    requires Youngest(last, a) && IssueOf(i) >= 0
    requires last.Some? ==> last.value.issueCycle <= IssueOf(i)
    ensures Youngest(Some(LastIssue(i.op, IssueOf(i))), a + [i])
  {
  }

  // Cycles after an issue until the scoreboard has drained and no flush or late
  // jump can disturb the queue any more.
  function Quiet(cfg: Config): nat { Max(6, cfg.sbLen + 3) }

  /** The bound of the liveness theorem. */
  function Patience(cfg: Config): nat { Quiet(cfg) + 4 }

  predicate AllFree(fus: Fus) {
    !fus.alu && !fus.mul && !fus.branch && !fus.ldu && !fus.stu && !fus.alu2
  }

  /** The examined head carries the verdict that the prediction would give again. */
  predicate Settled(m: Machine)
    requires m.Valid() && |m.queue| > 0
  {
    Prediction(m).Some? ==>
      m.queue[0].Has(if Prediction(m).value != m.queue[0].op.address then BMISS else BHIT)
  }

  /** Bytes counted, at least, `k` cycles after the quiet point. */
  function Level(k: int, f: nat): int {
    if k <= 0 then -(2 * f) else if k == 1 then 0 - f else if k == 2 then 0 else if k == 3 then f else 2 * f
  }

  /** The queue never owes more than two fetches; one before its only late jump. */
  predicate LenBound(m: Machine) {
    && m.iq.len >= -(2 * m.iq.fetchSize)
    && (|m.queue| > 0 && m.lastIssued.Some? && m.lastIssued.value.op.Predicts() && !m.queue[0].Has(BHIT)
        ==> m.iq.len + m.iq.fetchSize > 0)
  }

  /** After `age` cycles without an issue, the scoreboard has drained this far. */
  predicate Drained(cfg: Config, m: Machine, age: int) {
    && |m.sb| <= cfg.sbLen
    && (age >= 3 ==> |m.sb| <= Max(0, cfg.sbLen - (age - 3)))
  }

  /** At the start of cycle `c`. */
  predicate LiveStart(cfg: Config, m: Machine, c: int)
    requires m.Valid()
  {
    var age := c - LastCycle(m);
    && age >= 1
    && Drained(cfg, m, age)
    && LenBound(m)
    && (age > Quiet(cfg) && |m.queue| > 0 ==>
          Settled(m) && m.iq.len >= Level(age - Quiet(cfg), m.iq.fetchSize))
    && (m.fus.issuedMul ==> age == 1)
    && (|m.queue| > 0 ==> age <= Patience(cfg))
  }

  /** In cycle `c`, during the issue stage; `tried` once a slot has been used. */
  predicate LiveMid(cfg: Config, m: Machine, c: int, tried: bool)
    requires m.Valid()
  {
    var age := c - LastCycle(m);
    && age >= 0
    && |m.sb| <= cfg.sbLen
    && LenBound(m)
    && (m.fus.issuedMul ==> age == 0)
    && (age > 0 ==>
          && Drained(cfg, m, age + 1)
          && (|m.queue| > 0 ==>
                && age <= Patience(cfg)
                && (tried ==> age < Patience(cfg))
                && (age > Quiet(cfg) || (tried && age == Quiet(cfg)) ==> Settled(m))
                && (age > Quiet(cfg) ==> m.iq.len >= Level(age - Quiet(cfg), m.iq.fetchSize)))
          && (age > 1 ==> AllFree(m.fus)))
  }

  // ------------------------------------------------------------------ back end

  /** An entry issued three cycles ago can commit. */
  lemma OldEntryIsDone(m: Machine, c: int)
    requires Timed(m, c - 1, c) && LastOk(m) && c - LastCycle(m) >= 3 && |m.sb| > 0
    ensures CanCommit(m, 0)
  {
    assert EntryOk(m.sb[0], c - 1);
    assert Issued(m)[|m.retired|] == m.sb[0].instr;
  }

  lemma CommitKeepsLast(m: Machine, now: int, port: nat)
    requires m.Valid() && LastOk(m)
    ensures LastOk(TryCommit(m, now, port))
  {
    var m' := TryCommit(m, now, port);
    if CanCommit(m, port) {
      CommitShape(m, now, port);
      hide Issued, Youngest, IssueOf;
      YoungestFrame(m.lastIssued, Issued(m), Issued(m'));
    }
  }

  lemma ExecuteKeepsLast(m: Machine, now: int)
    requires m.Valid() && LastOk(m)
    ensures LastOk(Execute(m, now))
  {
    var m' := Execute(m, now);
    forall k | 0 <= k < |Issued(m)|
      ensures IssueOf(Issued(m')[k]) == IssueOf(Issued(m)[k]) && Issued(m')[k].op == Issued(m)[k].op
    {
      if k >= |m.retired| {
        AppendOne(m.sb[k - |m.retired|].instr.events, Event(Done, now), Issue);
      }
    }
    YoungestFrame(m.lastIssued, Issued(m), Issued(m'));
  }

  /** What the commit stage leaves alone. */
  lemma {:induction false} CommitPortsFrame(m: Machine, c: int, ports: nat)
    requires m.Valid()
    ensures var m' := CommitPorts(m, c, ports);
            && m'.iq == m.iq && m'.ras == m.ras && m'.fus == m.fus && m'.queue == m.queue
            && m'.lastIssued == m.lastIssued && |m'.sb| <= |m.sb|
            && (|m.sb| == 0 ==> m' == m)
            && (ports > 0 && CanCommit(m, 0) ==> |m'.sb| < |m.sb|)
    decreases ports
  {
    if ports > 0 {
      CommitPortsFrame(m, c, ports - 1);
    }
  }

  /** A scoreboard left alone for three cycles loses an entry per cycle. */
  lemma CommitDrains(cfg: Config, m: Machine, c: int)
    requires cfg.Valid() && m.Valid() && Timed(m, c - 1, c - 1) && LastOk(m)
    requires Drained(cfg, m, c - LastCycle(m))
    ensures Drained(cfg, CommitPorts(StartCycle(m), c, cfg.commitWidth), c - LastCycle(m) + 1)
  {
    var s := StartCycle(m);
    CommitPortsFrame(s, c, cfg.commitWidth);
    if c - LastCycle(m) >= 3 && |m.sb| > 0 {
      assert Issued(s) == Issued(m);
      forall k | 0 <= k < |s.retired|
        ensures RetiredOk(s.retired[k], c)
      {
        assert RetiredOk(m.retired[k], c - 1);
      }
      OldEntryIsDone(s, c);
    }
  }

  lemma BackEndFrame(cfg: Config, m: Machine, c: int)
    requires m.Valid()
    ensures var b := BackEnd(cfg, m, c);
            && b.iq == m.iq && b.ras == m.ras && b.fus == m.fus.Cycle() && b.queue == m.queue
            && b.lastIssued == m.lastIssued && |b.sb| <= |m.sb|
            && |b.sb| == |CommitPorts(StartCycle(m), c, cfg.commitWidth).sb|
    ensures CommitPorts(StartCycle(m), c, cfg.commitWidth).lastIssued == m.lastIssued
  {
    CommitPortsFrame(StartCycle(m), c, cfg.commitWidth);
  }

  lemma BackEndLive(cfg: Config, m: Machine, c: int)
    requires cfg.Valid() && m.Valid() && LiveStart(cfg, m, c) && Timed(m, c - 1, c - 1) && LastOk(m)
    ensures LiveMid(cfg, BackEnd(cfg, m, c), c, false)
  {
    CommitDrains(cfg, m, c);
    BackEndFrame(cfg, m, c);
    LenBoundFrame(m, BackEnd(cfg, m, c));
    CycleFrees(m.fus);
    hide BackEnd, StartCycle, CommitPorts, Timed, LastOk, Prediction, Settled, LenBound, Level, Fus.Cycle, AllFree;
    if c - LastCycle(m) > Quiet(cfg) && |m.queue| > 0 {
      QuietBackEnd(cfg, m, c);
    }
  }

  lemma LenBoundFrame(m: Machine, b: Machine)
    requires b.iq == m.iq && b.queue == m.queue && b.lastIssued == m.lastIssued
    ensures LenBound(b) == LenBound(m)
  {
  }

  /** A new cycle frees every unit, unless a multiplication was issued in the last one. */
  lemma CycleFrees(fus: Fus)
    ensures !fus.Cycle().issuedMul && (!fus.issuedMul ==> AllFree(fus.Cycle()))
  {
  }

  lemma QuietBackEnd(cfg: Config, m: Machine, c: int)
    requires cfg.Valid() && m.Valid() && |m.queue| > 0 && |m.sb| == 0 && Settled(m)
    ensures var b := BackEnd(cfg, m, c);
            b.queue == m.queue && b.iq == m.iq && Settled(b)
  {
    CommitPortsFrame(StartCycle(m), c, cfg.commitWidth);
    assert Prediction(BackEnd(cfg, m, c)) == Prediction(m);
  }

  // --------------------------------------------------------------- issue stage

  /** A jump loses at most the fetch of this cycle and what is left of the last one. */
  lemma JumpBound(q: Iq)
    requires q.Valid() && q.len + q.fetchSize > 0
    ensures q.Jump().len >= -(2 * q.fetchSize)
  {
    var f: int := q.fetchSize;
    SelfMultiple(f);
    MultipleSum(0, f, f);
    MultipleSum(-f, f, f);
    TruncateLargest(if q.newFetch then q.(len := q.len - f, newFetch := false) else q, 0, -(2 * f));
  }

  lemma RemoveBound(q: Iq, op: Op)
    requires q.Valid() && op.Valid() && q.Has(op)
    ensures q.Remove(op).len >= -(2 * q.fetchSize)
    ensures !op.cls.Jump? ==> q.Remove(op).len + q.fetchSize > 0
  {
    MinusRemainder(op.NextAddr(), q.fetchSize);
    MinusRemainder(op.address, q.fetchSize);
    TruncateMeaning(q.(len := q.len - op.size), q.AddrIndex(op.NextAddr()));
    if op.cls.Jump? {
      JumpBound(q.Consume(op));
    }
  }

  lemma LogKeepsHas(i: Instruction, evs: seq<Event>, kind: EventKind)
    ensures i.Log(evs).Has(kind) <==> i.Has(kind) || exists k :: 0 <= k < |evs| && evs[k].kind == kind
  {
    var all := i.Log(evs).events;
    if i.Has(kind) {
      var k :| 0 <= k < |i.events| && i.events[k].kind == kind;
      assert all[k].kind == kind;
    }
    if exists k :: 0 <= k < |evs| && evs[k].kind == kind {
      var k :| 0 <= k < |evs| && evs[k].kind == kind;
      assert all[|i.events| + k].kind == kind;
    }
  }

  /** The queue after the branch check of one examination, and the events of the head. */
  lemma ExaminedHead(cfg: Config, m: Machine, c: int)
    requires m.Valid() && |m.queue| > 0
    ensures var head, pred := m.queue[0], Prediction(m);
            var (instr, iq, can) := Examine(cfg, m, c);
            && instr.op == head.op
            && (head.Has(BMISS) ==> instr.Has(BMISS)) && (head.Has(BHIT) ==> instr.Has(BHIT))
            && (pred.Some? ==> instr.Has(if pred.value != head.op.address then BMISS else BHIT))
            && (pred.None? ==> iq == m.iq)
            && ((pred.Some? && head.Has(if pred.value != head.op.address then BMISS else BHIT)
                 && c >= LastCycle(m) + RESOLVE_DELAY) ==> iq == m.iq)
  {
    var head := m.queue[0];
    var found := DataHazards(cfg, head.op, m.sb, c) + StructuralHazards(m.fus, head.op, c);
    var (iq, branch) := ManageLastBranch(m, head.Log(found), c);
    forall kind
      ensures head.Has(kind) ==> head.Log(found).Has(kind)
      ensures head.Log(found).Has(kind) ==> head.Log(found).Log(branch).Has(kind)
    {
      LogKeepsHas(head, found, kind);
      LogKeepsHas(head.Log(found), branch, kind);
    }
    if Prediction(m).Some? {
      var kind := if Prediction(m).value != head.op.address then BMISS else BHIT;
      if !head.Log(found).Has(kind) {
        assert branch == [Event(kind, c)];
        assert branch[0].kind == kind;
        LogKeepsHas(head.Log(found), branch, kind);
      }
    }
  }

  /** The examination keeps the bound on what the queue owes. */
  lemma ExaminedBound(cfg: Config, m: Machine, c: int)
    requires m.Valid() && |m.queue| > 0 && LenBound(m)
    ensures var (instr, iq, can) := Examine(cfg, m, c);
            && iq.len >= -(2 * m.iq.fetchSize)
            && (m.lastIssued.Some? && m.lastIssued.value.op.Predicts() && !instr.Has(BHIT)
                ==> iq.len + m.iq.fetchSize > 0)
  {
    ExaminedHead(cfg, m, c);
    var head := m.queue[0];
    var found := DataHazards(cfg, head.op, m.sb, c) + StructuralHazards(m.fus, head.op, c);
    if Prediction(m).Some? && Prediction(m).value == head.op.address && !head.Log(found).Has(BHIT) {
      LogKeepsHas(head, found, BHIT);
      JumpBound(m.iq);
    }
  }

  /** With nothing in the way, the head issues. */
  lemma NothingInTheWay(cfg: Config, m: Machine, c: int)
    requires cfg.Valid() && m.Valid() && |m.queue| > 0 && m.queue[0].op.Valid()
    requires |m.sb| == 0 && AllFree(m.fus) && Settled(m) && c >= LastCycle(m) + RESOLVE_DELAY
    requires m.iq.len >= 2 * m.iq.fetchSize
    ensures !Blocked(cfg, m) && Examine(cfg, m, c).2
  {
    ExaminedHead(cfg, m, c);
  }

  lemma IssueLive(cfg: Config, m: Machine, c: int, tried: bool)
    requires cfg.Valid() && m.Valid() && LiveMid(cfg, m, c, tried) && QueueOk(m.queue)
    requires forall k :: 0 <= k < |m.queue| ==> m.queue[k].op.Valid()
    ensures LiveMid(cfg, TryIssue(cfg, m, c), c, true)
  {
    if !Blocked(cfg, m) {
      ExaminedHead(cfg, m, c);
      ExaminedBound(cfg, m, c);
      if Examine(cfg, m, c).2 {
        RemoveBound(Examine(cfg, m, c).1, m.queue[0].op);
      } else {
        FailedAttemptLive(cfg, m, c, tried);
      }
    }
  }

  lemma FailedAttemptLive(cfg: Config, m: Machine, c: int, tried: bool)
    requires cfg.Valid() && m.Valid() && LiveMid(cfg, m, c, tried)
    requires !Blocked(cfg, m) && !Examine(cfg, m, c).2 && m.queue[0].op.Valid()
    ensures LiveMid(cfg, TryIssue(cfg, m, c), c, true)
  {
    var m' := TryIssue(cfg, m, c);
    ExaminedHead(cfg, m, c);
    ExaminedBound(cfg, m, c);
    assert Prediction(m') == Prediction(m);
    assert m'.queue[0] == Examine(cfg, m, c).0;
    if c - LastCycle(m) >= Patience(cfg) {
      NothingInTheWay(cfg, m, c);
    }
  }

  lemma FetchLive(cfg: Config, m: Machine, c: int)
    requires cfg.Valid() && m.Valid() && LiveMid(cfg, m, c, true)
    ensures LiveStart(cfg, FetchBytes(m), c + 1)
  {
    assert Prediction(FetchBytes(m)) == Prediction(m);
  }

  // ---------------------------------------------------------------------- pace

  /** Instruction `k` issued within `Patience` cycles of its predecessor. */
  predicate Prompt(cfg: Config, issued: seq<Instruction>, k: nat)
    requires k < |issued|
  {
    var before := if k == 0 then -1 else IssueOf(issued[k - 1]);
    before <= IssueOf(issued[k]) <= before + Patience(cfg)
  }

  predicate Paced(cfg: Config, issued: seq<Instruction>) {
    forall k :: 0 <= k < |issued| ==> Prompt(cfg, issued, k)
  }

  lemma PaceFrame(cfg: Config, a: seq<Instruction>, b: seq<Instruction>)
    requires Paced(cfg, a) && |a| == |b|
    requires forall k :: 0 <= k < |a| ==> IssueOf(b[k]) == IssueOf(a[k])
    ensures Paced(cfg, b)
  {
    forall k | 0 <= k < |b|
      ensures Prompt(cfg, b, k)
    {
      assert Prompt(cfg, a, k);
    }
  }

  lemma PaceExtends(cfg: Config, a: seq<Instruction>, i: Instruction)
    requires Paced(cfg, a)
    requires var last := if a == [] then -1 else IssueOf(a[|a| - 1]);
             last <= IssueOf(i) <= last + Patience(cfg)
    ensures Paced(cfg, a + [i])
  {
    forall k | 0 <= k < |a|
      ensures Prompt(cfg, a + [i], k)
    {
      assert Prompt(cfg, a, k);
    }
  }

  /** So the last issue cycle is linear in the number of issued instructions. */
  predicate InBudget(cfg: Config, m: Machine) {
    LastCycle(m) < Times(|m.retired| + |m.sb|, Patience(cfg))
  }

  /** n * k, unfolded once at a time. */
  function Times(n: nat, k: nat): nat {
    if n == 0 then 0 else Times(n - 1, k) + k
  }

  lemma CommitKeepsPace(cfg: Config, m: Machine, now: int, port: nat)
    requires m.Valid() && Paced(cfg, Issued(m)) && InBudget(cfg, m)
    ensures Paced(cfg, Issued(TryCommit(m, now, port))) && InBudget(cfg, TryCommit(m, now, port))
  {
    var m' := TryCommit(m, now, port);
    if CanCommit(m, port) {
      CommitShape(m, now, port);
      hide Issued, Paced, IssueOf;
      PaceFrame(cfg, Issued(m), Issued(m'));
    }
  }

  lemma ExecuteKeepsPace(cfg: Config, m: Machine, now: int)
    requires m.Valid() && Paced(cfg, Issued(m)) && InBudget(cfg, m)
    ensures Paced(cfg, Issued(Execute(m, now))) && InBudget(cfg, Execute(m, now))
  {
    var m' := Execute(m, now);
    forall k | 0 <= k < |Issued(m)|
      ensures IssueOf(Issued(m')[k]) == IssueOf(Issued(m)[k])
    {
      if k >= |m.retired| {
        AppendOne(m.sb[k - |m.retired|].instr.events, Event(Done, now), Issue);
      }
    }
    PaceFrame(cfg, Issued(m), Issued(m'));
  }

  lemma IssueKeepsLast(cfg: Config, m: Machine, now: int)
    requires m.Valid() && Timed(m, now, now) && now >= 0 && now >= LastCycle(m) && LastOk(m)
    ensures LastOk(TryIssue(cfg, m, now))
  {
    var m' := TryIssue(cfg, m, now);
    if Blocked(cfg, m) || !Examine(cfg, m, now).2 {
      Hazards.NotIssuedShape(cfg, m, now);
    } else {
      Hazards.IssuedShape(cfg, m, now);
      YoungestExtends(m.lastIssued, Issued(m), m'.sb[|m.sb|].instr);
      hide Youngest, Issued, Timed;
    }
  }

  lemma IssueKeepsPace(cfg: Config, m: Machine, now: int)
    requires m.Valid() && Timed(m, now, now) && now >= 0 && LastOk(m)
    requires |m.queue| > 0 ==> LastCycle(m) <= now <= LastCycle(m) + Patience(cfg)
    requires Paced(cfg, Issued(m)) && InBudget(cfg, m)
    ensures Paced(cfg, Issued(TryIssue(cfg, m, now))) && InBudget(cfg, TryIssue(cfg, m, now))
  {
    var m' := TryIssue(cfg, m, now);
    if Blocked(cfg, m) || !Examine(cfg, m, now).2 {
      Hazards.NotIssuedShape(cfg, m, now);
    } else {
      Hazards.IssuedShape(cfg, m, now);
      PaceExtends(cfg, Issued(m), m'.sb[|m.sb|].instr);
      hide Paced, Youngest, Timed, Issued, Prompt;
    }
  }
}
