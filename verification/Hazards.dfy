// Data-hazard safety: no instruction issues before the value it reads is there.
module Hazards {
  import opened Instructions
  import opened Pipeline
  import opened Timing

  /** The operand of `j` written by the earlier `i` is available when `j` issues:
      forwarded from a finished `i`, or read from a committed one. */
  predicate ReadsInTime(cfg: Config, i: Instruction, j: Instruction) {
    j.op.HasRawFrom(i.op) ==>
      if cfg.hasForwarding then 0 <= DoneOf(i) <= IssueOf(j)
      else 0 <= CommitOf(i) <= IssueOf(j)
  }

  predicate NoRawViolation(cfg: Config, m: Machine) {
    forall i, j :: 0 <= i < j < |Issued(m)| ==> ReadsInTime(cfg, Issued(m)[i], Issued(m)[j])
  }

  /** With renaming off, no two instructions of the scoreboard write the same register. */
  predicate NoWawViolation(cfg: Config, m: Machine) {
    !cfg.hasRenaming ==>
      forall i, j :: 0 <= i < j < |m.sb| ==> !m.sb[j].instr.op.HasWawFrom(m.sb[i].instr.op)
  }

  lemma {:induction false} NoHazardMeans(cfg: Config, op: Op, sb: seq<Entry>, cycle: int)
    ensures DataHazards(cfg, op, sb, cycle) == [] <==>
            forall k :: 0 <= k < |sb| ==> EntryHazards(cfg, op, sb[k], cycle) == []
  {
    if sb != [] {
      var front := sb[..|sb| - 1];
      NoHazardMeans(cfg, op, front, cycle);
      assert forall k :: 0 <= k < |sb| ==> sb[k] == if k < |front| then front[k] else sb[|sb| - 1];
    }
  }

  lemma CommitKeepsHazards(cfg: Config, m: Machine, e: int, now: int, port: nat)
    requires m.Valid() && Timed(m, e, now) && e < now
    requires NoRawViolation(cfg, m) && NoWawViolation(cfg, m)
    ensures NoRawViolation(cfg, TryCommit(m, now, port)) && NoWawViolation(cfg, TryCommit(m, now, port))
  {
    var m' := TryCommit(m, now, port);
    if CanCommit(m, port) {
      var k := |m.retired|;
      assert EntryOk(m.sb[0], e);
      var a, a' := Issued(m)[k], Issued(m')[k];
      assert a == m.sb[0].instr && a' == a.Log([Event(Commit, now)]);
      AppendOne(a.events, Event(Commit, now), Issue);
      AppendOne(a.events, Event(Commit, now), Done);
      DoneReads(a.events, IssueOf(a), IssueOf(a) + a.op.Duration());
      assert forall i :: 0 <= i < |Issued(m')| && i != k ==> Issued(m')[i] == Issued(m)[i];
      forall i, j | 0 <= i < j < |Issued(m')|
        ensures ReadsInTime(cfg, Issued(m')[i], Issued(m')[j])
      {
        assert ReadsInTime(cfg, Issued(m)[i], Issued(m)[j]);
      }
    }
  }

  lemma ExecuteKeepsHazards(cfg: Config, m: Machine, e: int)
    requires m.Valid() && Timed(m, e, e + 1)
    requires NoRawViolation(cfg, m) && NoWawViolation(cfg, m)
    ensures NoRawViolation(cfg, Execute(m, e + 1)) && NoWawViolation(cfg, Execute(m, e + 1))
  {
    var m' := Execute(m, e + 1);
    forall k | 0 <= k < |Issued(m')|
      ensures var i, i' := Issued(m)[k], Issued(m')[k];
              i'.op == i.op && IssueOf(i') == IssueOf(i) && CommitOf(i') == CommitOf(i)
              && (DoneOf(i) >= 0 ==> DoneOf(i') == DoneOf(i))
    {
      if k >= |m.retired| {
        ExecuteKeepsReads(m.sb[k - |m.retired|], e);
      }
    }
    forall i, j | 0 <= i < j < |Issued(m')|
      ensures ReadsInTime(cfg, Issued(m')[i], Issued(m')[j])
    {
      assert ReadsInTime(cfg, Issued(m)[i], Issued(m)[j]);
    }
    assert forall k :: 0 <= k < |m.sb| ==> m'.sb[k].instr.op == m.sb[k].instr.op;
  }

  lemma ExecuteKeepsReads(entry: Entry, e: int)
    requires EntryOk(entry, e)
    ensures var i, i' := entry.instr, ExecuteEntry(entry, e + 1).instr;
            i'.op == i.op && IssueOf(i') == IssueOf(i) && CommitOf(i') == CommitOf(i)
            && (DoneOf(i) >= 0 ==> DoneOf(i') == DoneOf(i))
  {
    AppendOne(entry.instr.events, Event(Done, e + 1), Issue);
    AppendOne(entry.instr.events, Event(Done, e + 1), Done);
    AppendOne(entry.instr.events, Event(Done, e + 1), Commit);
    if !entry.done {
      IssuedReads(entry.instr.events, IssueOf(entry.instr));
    }
  }

  /** The instruction that TryIssue appends, when it does. */
  lemma IssuedShape(cfg: Config, m: Machine, now: int)
    requires m.Valid() && Timed(m, now, now) && now >= 0
    requires !Blocked(cfg, m) && Examine(cfg, m, now).2
    ensures var m' := TryIssue(cfg, m, now);
            var new_ := m'.sb[|m.sb|].instr;
            && new_.op == m.queue[0].op && IssueOf(new_) == now && new_.unit == m.fus.Serves(new_.op)
            && m'.sb == m.sb + [Entry(new_, 0, false)] && Issued(m') == Issued(m) + [new_]
  {
    var m' := TryIssue(cfg, m, now);
    var new_ := m'.sb[|m.sb|].instr;
    ExamineWaits(cfg, m, now);
    assert Front(new_.events) == Examine(cfg, m, now).0.events;
    IssuedReads(new_.events, now);
  }

  /** A failed or blocked attempt leaves the issued instructions alone. */
  lemma NotIssuedShape(cfg: Config, m: Machine, now: int)
    requires m.Valid()
    requires Blocked(cfg, m) || !Examine(cfg, m, now).2
    ensures var m' := TryIssue(cfg, m, now); m'.sb == m.sb && Issued(m') == Issued(m)
  {
  }

  /** An entry without hazard has what the instruction reads. */
  lemma NoHazardReads(cfg: Config, entry: Entry, new_: Instruction, now: int)
    requires EntryOk(entry, now) && EntryHazards(cfg, new_.op, entry, now) == [] && IssueOf(new_) == now
    ensures ReadsInTime(cfg, entry.instr, new_)
  {
    if entry.done {
      DoneReads(entry.instr.events, IssueOf(entry.instr), IssueOf(entry.instr) + entry.instr.op.Duration());
    }
    hide IssuedEvents, DoneEvents;
  }

  lemma IssueKeepsHazards(cfg: Config, m: Machine, now: int)
    requires m.Valid() && Timed(m, now, now) && now >= 0
    requires NoRawViolation(cfg, m) && NoWawViolation(cfg, m)
    ensures NoRawViolation(cfg, TryIssue(cfg, m, now)) && NoWawViolation(cfg, TryIssue(cfg, m, now))
  {
    var m' := TryIssue(cfg, m, now);
    if Blocked(cfg, m) || !Examine(cfg, m, now).2 {
      NotIssuedShape(cfg, m, now);
    } else {
      IssuedShape(cfg, m, now);
      var new_ := m'.sb[|m.sb|].instr;
      assert DataHazards(cfg, new_.op, m.sb, now) == [];
      hide TryIssue, Examine, DataHazards, IssuedEvents, DoneEvents;
      NoHazardMeans(cfg, new_.op, m.sb, now);
      forall i | 0 <= i < |Issued(m)|
        ensures ReadsInTime(cfg, Issued(m)[i], new_)
      {
        if i < |m.retired| {
          assert RetiredOk(m.retired[i], now);
        } else {
          var entry := m.sb[i - |m.retired|];
          assert EntryHazards(cfg, new_.op, entry, now) == [];
          assert EntryOk(entry, now);
          NoHazardReads(cfg, entry, new_, now);
        }
      }
      forall i | 0 <= i < |m.sb| && !cfg.hasRenaming
        ensures !new_.op.HasWawFrom(m.sb[i].instr.op)
      {
        assert EntryHazards(cfg, new_.op, m.sb[i], now) == [];
      }
    }
  }
}
