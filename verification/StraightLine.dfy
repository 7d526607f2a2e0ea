// Conservation of bytes: on a trace without branches and jumps, the instruction
// queue holds what was fetched less what was issued, in every slot of every cycle.
module StraightLine {
  import opened Prelude
  import opened Instructions
  import opened FetchQueue
  import opened Pipeline
  import opened Timing
  import opened Runs
  import opened RunTheorems
  import opened Schedule
  import opened FetchArithmetic
  import Hazards
  import Progress

  predicate Straight(trace: seq<Op>) {
    && Sequential(trace)
    && forall k :: 0 <= k < |trace| ==> !trace[k].cls.Branch? && !trace[k].cls.Jump? && !trace[k].cls.RegJump?
  }

  /** Bytes between the start of the fetch that holds the first instruction and the end of
      instruction number `k - 1`. */
  function Span(f: nat, trace: seq<Op>, k: nat): int
    requires f > 0 && k <= |trace|
  {
    if k == 0 then 0
    else trace[k - 1].address + trace[k - 1].size - trace[0].address + trace[0].address % f
  }

  /** After `fetches` fetches and `k` issued instructions. */
  predicate Held(cfg: Config, trace: seq<Op>, m: Machine, fetches: nat)
    requires cfg.Valid()
  {
    |Issued(m)| <= |trace| && m.iq.len == fetches * cfg.fetchSize - Span(cfg.fetchSize, trace, |Issued(m)|)
  }

  /** Without branches there is nothing to predict, so the check leaves the bytes alone. */
  lemma NothingPredicted(cfg: Config, trace: seq<Op>, m: Machine, c: int)
    requires m.Valid() && Straight(trace) && Conserved(m, trace) && Progress.LastOk(m) && |m.queue| > 0
    ensures Prediction(m).None? && Examine(cfg, m, c).1 == m.iq
    ensures |Issued(m)| < |trace| && m.queue[0].op == trace[|Issued(m)|]
  {
    var k := |Issued(m)|;
    assert |Ops(m.retired) + Ops(Instrs(m.sb))| == k;
    assert trace[k] == (Ops(m.retired) + Ops(Instrs(m.sb)) + Ops(m.queue))[k];
    if m.lastIssued.Some? {
      IssuedIsTrace(m, trace, k - 1);
    }
  }

  lemma Fetches(f: nat, fetches: nat)
    requires f > 0
    ensures (fetches * f) % f == 0
  {
    RemainderUnique(fetches * f, f, fetches, 0);
  }

  /** Where the count stands before the instruction after `k` issued ones. */
  lemma SpanStands(f: nat, fetches: nat, trace: seq<Op>, k: nat, len: int)
    requires f > 0 && Straight(trace) && k < |trace| && len == fetches * f - Span(f, trace, k)
    ensures if k == 0 then len % f == 0 else (len + trace[k].address) % f == 0
  {
    Fetches(f, fetches);
    if k > 0 {
      assert Follows(trace[k - 1], trace[k]);
      MinusRemainder(trace[0].address, f);
      MultipleSum(fetches * f, trace[0].address - trace[0].address % f, f);
      assert len + trace[k].address == fetches * f + (trace[0].address - trace[0].address % f);
    }
  }

  lemma IssueHolds(cfg: Config, trace: seq<Op>, m: Machine, c: int, fetches: nat)
    requires cfg.Valid() && ValidTrace(trace) && Straight(trace) && c >= 0
    requires m.Valid() && m.iq.fetchSize == cfg.fetchSize
    requires Timed(m, c, c) && Conserved(m, trace) && Progress.LastOk(m) && Held(cfg, trace, m, fetches)
    ensures Held(cfg, trace, TryIssue(cfg, m, c), fetches)
  {
    if Blocked(cfg, m) {
    } else {
      hide Conserved, Progress.LastOk, Straight, Timed;
      NothingPredicted(cfg, trace, m, c);
      if Examine(cfg, m, c).2 {
        IssuedHolds(cfg, trace, m, c, fetches);
      } else {
        Hazards.NotIssuedShape(cfg, m, c);
        assert TryIssue(cfg, m, c).iq == m.iq;
      }
    }
  }

  lemma IssuedHolds(cfg: Config, trace: seq<Op>, m: Machine, c: int, fetches: nat)
    requires cfg.Valid() && ValidTrace(trace) && Straight(trace) && c >= 0
    requires m.Valid() && m.iq.fetchSize == cfg.fetchSize && Timed(m, c, c) && Held(cfg, trace, m, fetches)
    requires !Blocked(cfg, m) && Examine(cfg, m, c).2 && Examine(cfg, m, c).1 == m.iq
    requires |Issued(m)| < |trace| && m.queue[0].op == trace[|Issued(m)|]
    ensures Held(cfg, trace, TryIssue(cfg, m, c), fetches)
  {
    var f, k, op := cfg.fetchSize, |Issued(m)|, m.queue[0].op;
    Hazards.IssuedShape(cfg, m, c);
    Progress.ExaminedHead(cfg, m, c);
    assert m.iq.Has(op) && TryIssue(cfg, m, c).iq == m.iq.Consume(op);
    hide TryIssue, Examine, Issued, Timed, Iq.Consume;
    SpanStands(f, fetches, trace, k, m.iq.len);
    if k == 0 {
      ConsumeAtBoundary(m.iq, op);
    } else {
      assert Follows(trace[k - 1], trace[k]);
      ConsumeAligned(m.iq, op);
    }
  }

  lemma {:induction false} SlotsHold(cfg: Config, trace: seq<Op>, m: Machine, c: int, slots: nat, fetches: nat)
    requires cfg.Valid() && ValidTrace(trace) && Straight(trace) && c >= 0
    requires m.Valid() && SlotInv(cfg, trace, m, c, false) && Held(cfg, trace, m, fetches)
    ensures Held(cfg, trace, IssueSlots(cfg, m, c, slots), fetches)
    decreases slots
  {
    hide SlotInv, TryIssue, Timed, Conserved, Progress.LastOk, Straight, Held;
    if slots > 0 {
      SlotsHold(cfg, trace, m, c, slots - 1, fetches);
      IssueSlotsInv(cfg, trace, m, c, slots - 1);
      var s := IssueSlots(cfg, m, c, slots - 1);
      SlotTimed(cfg, trace, s, c, slots - 1 > 0);
      IssueHolds(cfg, trace, s, c, fetches);
    }
  }

  lemma {:induction false} HeldAfter(cfg: Config, trace: seq<Op>, n: nat)
    requires cfg.Valid() && ValidTrace(trace) && Straight(trace)
    ensures Held(cfg, trace, After(cfg, trace, n), n + 1)
    decreases n, 0
  {
    hide After, AtSlot, Straight;
    if n == 0 {
      AfterZero(cfg, trace);
      assert Issued(Initial(cfg, trace)) == [];
    } else {
      BytesHeld(cfg, trace, n - 1, cfg.issueWidth);
      CycleBytes(cfg, trace, n - 1);
      FetchHolds(cfg, trace, AtSlot(cfg, trace, n - 1, cfg.issueWidth), After(cfg, trace, n), n);
    }
  }

  lemma FetchHolds(cfg: Config, trace: seq<Op>, s: Machine, m: Machine, fetches: nat)
    requires cfg.Valid() && Held(cfg, trace, s, fetches)
    requires m.sb == s.sb && m.retired == s.retired && m.iq.len == s.iq.len + cfg.fetchSize
    ensures Held(cfg, trace, m, fetches + 1)
  {
    assert Issued(m) == Issued(s);
    Distribute(fetches, 1, cfg.fetchSize);
    hide Span, Issued;
  }

  lemma SameIssuedLength(cfg: Config, m: Machine, c: int)
    requires m.Valid()
    ensures |Issued(BackEnd(cfg, m, c))| == |Issued(m)| && BackEnd(cfg, m, c).iq == m.iq
  {
    Progress.BackEndFrame(cfg, m, c);
    CommitRule(StartCycle(m), c, cfg.commitWidth);
    hide CommitPorts, RetireCount;
  }

  /** In slot `slot` of cycle `n`, the queue holds the `n + 1` fetches made so far less the bytes up
      to the next instruction. */
  lemma {:induction false} BytesHeld(cfg: Config, trace: seq<Op>, n: nat, slot: nat)
    requires cfg.Valid() && ValidTrace(trace) && Straight(trace)
    ensures var m := AtSlot(cfg, trace, n, slot);
            var k := |Issued(m)|;
            && k <= |trace|
            && m.iq.len == (n + 1) * cfg.fetchSize -
               (if k == 0 then 0
                else trace[k - 1].address + trace[k - 1].size - trace[0].address + trace[0].address % cfg.fetchSize)
    decreases n, 1
  {
    hide After, SlotInv, StartInv, BackEnd, IssueSlots, Straight, Issued;
    HeldAfter(cfg, trace, n);
    AfterInv(cfg, trace, n);
    SameIssuedLength(cfg, After(cfg, trace, n), n);
    BackEndInv(cfg, trace, After(cfg, trace, n), n);
    SlotsHold(cfg, trace, BackEnd(cfg, After(cfg, trace, n), n), n, slot, n + 1);
  }
}
