// Event discipline and in-order conservation: what every step of the scheduler
// keeps about the instructions and the events they carry.
module Timing {
  import opened Instructions
  import opened Pipeline

  // ------------------------------------------------------------ event histories

  predicate Waiting(events: seq<Event>) {
    forall k :: 0 <= k < |events| ==> events[k].kind != Issue && events[k].kind != Done && events[k].kind != Commit
  }

  predicate EndsWith(events: seq<Event>, kind: EventKind, cycle: int) {
    |events| > 0 && events[|events| - 1] == Event(kind, cycle)
  }

  function Front(events: seq<Event>): seq<Event>
    requires |events| > 0
  {
    events[..|events| - 1]
  }

  predicate IssuedEvents(events: seq<Event>, t: int) {
    EndsWith(events, Issue, t) && Waiting(Front(events))
  }

  predicate DoneEvents(events: seq<Event>, t: int, d: int) {
    EndsWith(events, Done, d) && IssuedEvents(Front(events), t)
  }

  predicate CommittedEvents(events: seq<Event>, t: int, d: int, x: int) {
    EndsWith(events, Commit, x) && DoneEvents(Front(events), t, d)
  }

  function IssueOf(i: Instruction): int { CycleOf(i.events, Issue) }

  function DoneOf(i: Instruction): int { CycleOf(i.events, Done) }

  function CommitOf(i: Instruction): int { CycleOf(i.events, Commit) }

  lemma {:induction false} WaitingHasNone(events: seq<Event>, kind: EventKind)
    requires Waiting(events) && (kind == Issue || kind == Done || kind == Commit)
    ensures Count(events, kind) == 0 && CycleOf(events, kind) == -1
  {
    if events != [] {
      WaitingHasNone(Front(events), kind);
    }
  }

  lemma IssuedReads(events: seq<Event>, t: int)
    requires IssuedEvents(events, t)
    ensures CycleOf(events, Issue) == t && CycleOf(events, Done) == -1 && CycleOf(events, Commit) == -1
    ensures Count(events, Issue) == 1 && Count(events, Done) == 0 && Count(events, Commit) == 0
  {
    WaitingHasNone(Front(events), Issue);
    WaitingHasNone(Front(events), Done);
    WaitingHasNone(Front(events), Commit);
  }

  lemma DoneReads(events: seq<Event>, t: int, d: int)
    requires DoneEvents(events, t, d)
    ensures CycleOf(events, Issue) == t && CycleOf(events, Done) == d && CycleOf(events, Commit) == -1
    ensures Count(events, Issue) == 1 && Count(events, Done) == 1 && Count(events, Commit) == 0
  {
    IssuedReads(Front(events), t);
  }

  lemma CommittedReads(events: seq<Event>, t: int, d: int, x: int)
    requires CommittedEvents(events, t, d, x)
    ensures CycleOf(events, Issue) == t && CycleOf(events, Done) == d && CycleOf(events, Commit) == x
    ensures Count(events, Issue) == 1 && Count(events, Done) == 1 && Count(events, Commit) == 1
  {
    DoneReads(Front(events), t, d);
  }

  // ----------------------------------------------------------- state invariants

  /** A scoreboard entry after `e` cycles have executed. */
  predicate EntryOk(entry: Entry, e: int) {
    var t, d := IssueOf(entry.instr), entry.instr.op.Duration();
    && 0 <= t <= e
    && entry.cyclesSinceIssue == e - t
    && entry.done == (e - t >= d)
    && (if entry.done then DoneEvents(entry.instr.events, t, t + d)
        else IssuedEvents(entry.instr.events, t))
  }

  /** A retired instruction: issue, done one latency later, then commit as its last event. */
  predicate RetiredOk(i: Instruction, now: int) {
    var t, d, x := IssueOf(i), DoneOf(i), CommitOf(i);
    0 <= t && d == t + i.op.Duration() && d < x <= now && CommittedEvents(i.events, t, d, x)
  }

  predicate QueueOk(queue: seq<Instruction>) {
    forall k :: 0 <= k < |queue| ==> if k == 0 then Waiting(queue[k].events) else queue[k].events == []
  }

  function Instrs(sb: seq<Entry>): (s: seq<Instruction>)
    ensures |s| == |sb|
    ensures forall k :: 0 <= k < |s| ==> s[k] == sb[k].instr
  {
    seq(|sb|, i requires 0 <= i < |sb| => sb[i].instr)
  }

  /** The instructions issued so far, in issue order. */
  function Issued(m: Machine): (s: seq<Instruction>)
    ensures |s| == |m.retired| + |m.sb|
  {
    m.retired + Instrs(m.sb)
  }

  /** Nothing is lost, duplicated or reordered. */
  predicate Conserved(m: Machine, trace: seq<Op>) {
    Ops(m.retired) + Ops(Instrs(m.sb)) + Ops(m.queue) == trace
  }

  /** `e` is the last cycle whose execute stage has run, `now` the current cycle. */
  predicate Timed(m: Machine, e: int, now: int) {
    && (forall k :: 0 <= k < |m.sb| ==> EntryOk(m.sb[k], e))
    && (forall k :: 0 <= k < |m.retired| ==> RetiredOk(m.retired[k], now))
    && QueueOk(m.queue)
  }

  // --------------------------------------------------------------- commit stage

  lemma CommitKeepsConserved(m: Machine, cycle: int, port: nat, trace: seq<Op>)
    requires m.Valid() && Conserved(m, trace)
    ensures Conserved(TryCommit(m, cycle, port), trace)
  {
    if CanCommit(m, port) {
      var m' := TryCommit(m, cycle, port);
      var before, after := m.sb[0].instr, m'.retired[|m.retired|];
      assert Instrs(m.sb) == [before] + Instrs(m'.sb) && m'.retired == m.retired + [after] && after.op == before.op;
      hide TryCommit, Instrs, Ops;
      OpsJoin([before], Instrs(m'.sb));
      OpsJoin(m.retired, [after]);
      OpsOne(before);
      OpsOne(after);
      MoveOne(Ops(m.retired), before.op, Ops(Instrs(m'.sb)), Ops(m.queue));
    }
  }

  /** An element that moves from one part to the part before it. */
  lemma MoveOne(a: seq<Op>, x: Op, b: seq<Op>, c: seq<Op>)
    ensures a + ([x] + b) + c == (a + [x]) + b + c && a + b + ([x] + c) == a + (b + [x]) + c
  {
  }

  lemma CommitKeepsTimed(m: Machine, e: int, now: int, port: nat)
    requires m.Valid() && Timed(m, e, now) && e < now
    ensures Timed(TryCommit(m, now, port), e, now)
  {
    if CanCommit(m, port) {
      var old_, m' := m.sb[0].instr, TryCommit(m, now, port);
      var new_ := m'.retired[|m.retired|];
      assert EntryOk(m.sb[0], e);
      assert Front(new_.events) == old_.events;
      DoneReads(old_.events, IssueOf(old_), IssueOf(old_) + old_.op.Duration());
      CommittedReads(new_.events, IssueOf(old_), IssueOf(old_) + old_.op.Duration(), now);
    }
  }

  /** Seen along the issue order, a commit only adds an event to one instruction. */
  lemma CommitShape(m: Machine, now: int, port: nat)
    requires m.Valid() && CanCommit(m, port)
    ensures var m' := TryCommit(m, now, port);
            && |Issued(m')| == |Issued(m)|
            && (forall i :: 0 <= i < |Issued(m)| ==>
                  Issued(m')[i] == if i == |m.retired| then Issued(m)[i].Log([Event(Commit, now)]) else Issued(m)[i])
            && (forall i :: 0 <= i < |Issued(m)| ==>
                  && IssueOf(Issued(m')[i]) == IssueOf(Issued(m)[i]) && Issued(m')[i].op == Issued(m)[i].op
                  && Issued(m')[i].unit == Issued(m)[i].unit)
  {
    AppendOne(m.sb[0].instr.events, Event(Commit, now), Issue);
  }

  // -------------------------------------------------------------- execute stage

  lemma ExecuteEntryTimed(entry: Entry, e: int)
    requires EntryOk(entry, e)
    ensures EntryOk(ExecuteEntry(entry, e + 1), e + 1)
    ensures IssueOf(ExecuteEntry(entry, e + 1).instr) == IssueOf(entry.instr)
    ensures ExecuteEntry(entry, e + 1).instr.op == entry.instr.op
    ensures ExecuteEntry(entry, e + 1).instr.unit == entry.instr.unit
  {
    var entry' := ExecuteEntry(entry, e + 1);
    var t := IssueOf(entry.instr);
    if entry.cyclesSinceIssue + 1 == entry.instr.op.Duration() {
      assert Front(entry'.instr.events) == entry.instr.events;
      DoneReads(entry'.instr.events, t, e + 1);
    }
  }

  lemma ExecuteKeepsTimed(m: Machine, e: int)
    requires m.Valid() && Timed(m, e, e + 1)
    ensures Timed(Execute(m, e + 1), e + 1, e + 1)
  {
    var m' := Execute(m, e + 1);
    forall k | 0 <= k < |m'.sb|
      ensures EntryOk(m'.sb[k], e + 1)
    {
      ExecuteEntryTimed(m.sb[k], e);
    }
  }

  lemma ExecuteKeepsConserved(m: Machine, cycle: int, trace: seq<Op>)
    requires m.Valid() && Conserved(m, trace)
    ensures Conserved(Execute(m, cycle), trace)
  {
    assert Ops(Instrs(Execute(m, cycle).sb)) == Ops(Instrs(m.sb));
  }

  // ---------------------------------------------------------------- issue stage

  lemma {:induction false} HazardsAreWaiting(cfg: Config, op: Op, sb: seq<Entry>, cycle: int)
    ensures Waiting(DataHazards(cfg, op, sb, cycle))
  {
    if sb != [] {
      HazardsAreWaiting(cfg, op, sb[..|sb| - 1], cycle);
    }
  }

  lemma ExamineWaits(cfg: Config, m: Machine, cycle: int)
    requires m.Valid() && |m.queue| > 0 && Waiting(m.queue[0].events)
    ensures var i := Examine(cfg, m, cycle).0;
            Waiting(i.events) && i.op == m.queue[0].op && i.unit == m.queue[0].unit
  {
    HazardsAreWaiting(cfg, m.queue[0].op, m.sb, cycle);
  }

  lemma IssueKeepsTimed(cfg: Config, m: Machine, now: int)
    requires m.Valid() && Timed(m, now, now) && now >= 0
    ensures Timed(TryIssue(cfg, m, now), now, now)
  {
    var m' := TryIssue(cfg, m, now);
    if !Blocked(cfg, m) {
      ExamineWaits(cfg, m, now);
      assert m'.retired == m.retired;
      if Examine(cfg, m, now).2 {
        var new_ := m'.sb[|m.sb|].instr;
        assert m'.sb == m.sb + [Entry(new_, 0, false)] && m'.queue == m.queue[1..];
        assert Front(new_.events) == Examine(cfg, m, now).0.events;
        hide TryIssue, Examine, Waiting, RetiredOk;
        IssuedReads(new_.events, now);
      } else {
        assert m'.sb == m.sb && m'.queue == [Examine(cfg, m, now).0] + m.queue[1..];
        hide TryIssue, Examine, EntryOk, RetiredOk;
      }
    }
  }

  lemma IssueKeepsConserved(cfg: Config, m: Machine, cycle: int, trace: seq<Op>)
    requires m.Valid() && Conserved(m, trace)
    ensures Conserved(TryIssue(cfg, m, cycle), trace)
  {
    if !Blocked(cfg, m) {
      var m' := TryIssue(cfg, m, cycle);
      var head, rest, examined := m.queue[0], m.queue[1..], Examine(cfg, m, cycle).0;
      assert examined.op == head.op && m.queue == [head] + rest && m'.retired == m.retired;
      OpsOne(head);
      OpsOne(examined);
      if Examine(cfg, m, cycle).2 {
        var issued := m'.sb[|m.sb|].instr;
        assert Instrs(m'.sb) == Instrs(m.sb) + [issued] && issued.op == head.op && m'.queue == rest;
        hide TryIssue, Examine, Instrs, Ops;
        OpsJoin([head], rest);
        OpsJoin(Instrs(m.sb), [issued]);
        OpsOne(issued);
        MoveOne(Ops(m.retired), head.op, Ops(Instrs(m.sb)), Ops(rest));
      } else {
        assert m'.sb == m.sb && m'.queue == [examined] + rest;
        hide TryIssue, Examine, Instrs, Ops;
        OpsJoin([head], rest);
        OpsJoin([examined], rest);
      }
    }
  }
}
