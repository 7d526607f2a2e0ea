// One cycle of the CVA6 performance model (class Model) as a function on its
// state. Scheduler.dfy holds the updating class, proved equal to these functions.
module Pipeline {
  import opened Prelude
  import opened Instructions
  import opened FetchQueue
  import opened ReturnStack
  import BranchHistory
  import opened FunctionalUnits

  datatype Config = Config(
    issueWidth: nat, commitWidth: nat, sbLen: nat, fetchSize: nat,
    hasForwarding: bool, hasRenaming: bool)
  {
    predicate Valid() {
      issueWidth >= 1 && commitWidth >= 1 && sbLen >= 1 && fetchSize >= 4 && fetchSize % 4 == 0
    }
  }

  datatype Entry = Entry(instr: Instruction, cyclesSinceIssue: nat, done: bool)

  datatype LastIssue = LastIssue(op: Op, issueCycle: int)

  datatype Machine = Machine(
    iq: Iq, ras: RasState, bht: seq<BranchHistory.BhtEntry>, fus: Fus,
    queue: seq<Instruction>, sb: seq<Entry>, retired: seq<Instruction>,
    lastIssued: Option<LastIssue>, lastCommitted: Option<Op>)
  {
    predicate Valid() { iq.Valid() && |bht| > 0 }

    predicate Finished() { |queue| == 0 && |sb| == 0 }
  }

  function Initial(cfg: Config, trace: seq<Op>): Machine {
    Machine(NewIq(cfg.fetchSize), NewRas(2), BranchHistory.NewBht(BranchHistory.BHT_ENTRIES),
            NewFus(cfg.issueWidth > 1), FreshQueue(trace), [], [], None, None)
  }

  // ---------------------------------------------------------- branch handling

  function PredictBranch(m: Machine, op: Op): bool
    requires m.Valid()
  {
    match BranchHistory.Predict(m.bht, op.address)
    case Some(taken) => taken
    case None => op.offset >= 0x8000_0000
  }

  function PredictRegJump(m: Machine, op: Op): int {
    if op.isRet && m.ras.Read().Some? then m.ras.Read().value else 0
  }

  function PredictPc(m: Machine, last: Op): Option<int>
    requires m.Valid()
  {
    if last.cls.Branch? then
      Some(last.address + (if PredictBranch(m, last) then ToSigned(last.offset) else last.size))
    else if last.cls.RegJump? then Some(PredictRegJump(m, last))
    else None
  }

  /** The prediction that bears on the next instruction, if there is one. */
  function Prediction(m: Machine): Option<int>
    requires m.Valid()
  {
    if m.lastIssued.Some? then PredictPc(m, m.lastIssued.value.op) else None
  }

  const RESOLVE_DELAY: nat := 6

  /** Model.issue_manage_last_branch: the queue afterwards and the event it logs, if any. */
  function ManageLastBranch(m: Machine, instr: Instruction, cycle: int): (r: (Iq, seq<Event>))
    requires m.Valid()
    ensures r.0.Valid() && r.0.fetchSize == m.iq.fetchSize
  {
    if Prediction(m).None? then (m.iq, [])
    else
      var last := m.lastIssued.value;
      var bmiss := Prediction(m).value != instr.op.address;
      var resolved := cycle >= last.issueCycle + RESOLVE_DELAY;
      var iq := if bmiss && !resolved then m.iq.Flush() else m.iq;
      var branch := if bmiss then BMISS else BHIT;
      if instr.Has(branch) then (iq, [])
      else
        var taken := instr.op.address != last.op.NextAddr();
        (if taken && !bmiss then iq.Jump() else iq, [Event(branch, cycle)])
  }

  // ------------------------------------------------------------------ hazards

  function EntryHazards(cfg: Config, op: Op, entry: Entry, cycle: int): seq<Event> {
    (if op.HasWawFrom(entry.instr.op) && !cfg.hasRenaming then [Event(WAW, cycle)] else [])
    + (if op.HasRawFrom(entry.instr.op) && !(cfg.hasForwarding && entry.done)
       then [Event(RAW, cycle)] else [])
  }

  /** The events logged by Model.find_data_hazards; a hazard is found when there is one. */
  function DataHazards(cfg: Config, op: Op, sb: seq<Entry>, cycle: int): seq<Event> {
    if sb == [] then []
    else DataHazards(cfg, op, sb[..|sb| - 1], cycle) + EntryHazards(cfg, op, sb[|sb| - 1], cycle)
  }

  function StructuralHazards(fus: Fus, op: Op, cycle: int): seq<Event> {
    if fus.IsReadyFor(op) then [] else [Event(STRUCT, cycle)]
  }

  // -------------------------------------------------------------------- issue

  /** What one call of Model.try_issue finds out about the head of the queue:
      the examined instruction, the queue of bytes, and whether it can issue. */
  function Examine(cfg: Config, m: Machine, cycle: int): (r: (Instruction, Iq, bool))
    requires m.Valid() && |m.queue| > 0
    ensures r.1.Valid() && r.1.fetchSize == m.iq.fetchSize
  {
    var head := m.queue[0];
    var data := DataHazards(cfg, head.op, m.sb, cycle);
    var structural := StructuralHazards(m.fus, head.op, cycle);
    var (iq, branch) := ManageLastBranch(m, head.Log(data + structural), cycle);
    (head.Log(data + structural).Log(branch), iq,
     data == [] && structural == [] && iq.Has(head.op))
  }

  predicate Blocked(cfg: Config, m: Machine) { |m.queue| == 0 || |m.sb| >= cfg.sbLen }

  function TryIssue(cfg: Config, m: Machine, cycle: int): (m': Machine)
    requires m.Valid()
    ensures m'.Valid()
  {
    if Blocked(cfg, m) then m
    else
      var (instr, iq, canIssue) := Examine(cfg, m, cycle);
      if canIssue then
        var issued := instr.Log([Event(Issue, cycle)]).(unit := m.fus.Serves(instr.op));
        m.(iq := iq.Remove(instr.op), queue := m.queue[1..], sb := m.sb + [Entry(issued, 0, false)],
           fus := m.fus.Issue(instr.op), lastIssued := Some(LastIssue(instr.op, cycle)),
           ras := m.ras.Resolve(instr.op))
      else m.(iq := iq, queue := [instr] + m.queue[1..])
  }

  // ------------------------------------------------------- execute and commit

  function ExecuteEntry(entry: Entry, cycle: int): Entry {
    var n := entry.cyclesSinceIssue + 1;
    if n == entry.instr.op.Duration()
    then Entry(entry.instr.Log([Event(Done, cycle)]), n, true)
    else entry.(cyclesSinceIssue := n)
  }

  function Execute(m: Machine, cycle: int): (m': Machine)
    requires m.Valid()
    ensures m'.Valid()
  {
    m.(sb := seq(|m.sb|, i requires 0 <= i < |m.sb| => ExecuteEntry(m.sb[i], cycle)))
  }

  /** Model.commit_manage_last_branch: the outcome of a branch is known once its successor commits. */
  function ResolveBranch(bht: seq<BranchHistory.BhtEntry>, last: Option<Op>, op: Op): (b: seq<BranchHistory.BhtEntry>)
    requires |bht| > 0
    ensures |b| == |bht|
  {
    if last.Some? && last.value.cls.Branch?
    then BranchHistory.Resolve(bht, last.value.address, op.address != last.value.NextAddr())
    else bht
  }

  predicate CanCommit(m: Machine, port: nat) {
    |m.sb| > 0 && !(port > 0 && m.sb[0].instr.op.cls.Store?) && m.sb[0].done
  }

  function TryCommit(m: Machine, cycle: int, port: nat): (m': Machine)
    requires m.Valid()
    ensures m'.Valid()
  {
    if !CanCommit(m, port) then m
    else
      var instr := m.sb[0].instr.Log([Event(Commit, cycle)]);
      m.(sb := m.sb[1..], retired := m.retired + [instr],
         bht := ResolveBranch(m.bht, m.lastCommitted, instr.op), lastCommitted := Some(instr.op))
  }

  // ---------------------------------------------------------------- one cycle

  /** The first `ports` calls of try_commit. */
  function CommitPorts(m: Machine, cycle: int, ports: nat): (m': Machine)
    requires m.Valid()
    ensures m'.Valid()
  {
    if ports == 0 then m else TryCommit(CommitPorts(m, cycle, ports - 1), cycle, ports - 1)
  }

  /** The first `slots` calls of try_issue. */
  function IssueSlots(cfg: Config, m: Machine, cycle: int, slots: nat): (m': Machine)
    requires m.Valid()
    ensures m'.Valid()
  {
    if slots == 0 then m else TryIssue(cfg, IssueSlots(cfg, m, cycle, slots - 1), cycle)
  }

  function StartCycle(m: Machine): (m': Machine)
    requires m.Valid()
    ensures m'.Valid()
  {
    m.(fus := m.fus.Cycle())
  }

  /** Everything before the issue stage. */
  function BackEnd(cfg: Config, m: Machine, cycle: int): (m': Machine)
    requires m.Valid()
    ensures m'.Valid()
  {
    Execute(CommitPorts(StartCycle(m), cycle, cfg.commitWidth), cycle)
  }

  function FetchBytes(m: Machine): (m': Machine)
    requires m.Valid()
    ensures m'.Valid()
  {
    m.(iq := m.iq.Fetch())
  }

  function RunCycle(cfg: Config, m: Machine, cycle: int): (m': Machine)
    requires m.Valid()
    ensures m'.Valid()
  {
    FetchBytes(IssueSlots(cfg, BackEnd(cfg, m, cycle), cycle, cfg.issueWidth))
  }

  /** The state after `n` cycles of Model.run on a trace. */
  function After(cfg: Config, trace: seq<Op>, n: nat): (m: Machine)
    requires cfg.Valid()
    ensures m.Valid()
  {
    if n == 0 then Initial(cfg, trace) else RunCycle(cfg, After(cfg, trace, n - 1), n - 1)
  }

  /** The state in cycle `n` before the issue slot number `slot`. */
  function AtSlot(cfg: Config, trace: seq<Op>, n: nat, slot: nat): (m: Machine)
    requires cfg.Valid()
    ensures m.Valid()
  {
    IssueSlots(cfg, BackEnd(cfg, After(cfg, trace, n), n), n, slot)
  }
}
