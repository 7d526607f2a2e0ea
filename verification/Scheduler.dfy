// The performance model as the source writes it: objects updated in place, one
// class for each class of model.py. Every method is tied to the function of
// Pipeline.dfy (or of the module of its component) that specifies it.
module Scheduler {
  import opened Prelude
  import opened Instructions
  import opened FetchQueue
  import opened ReturnStack
  import BranchHistory
  import opened FunctionalUnits
  import opened Pipeline
  import Runs
  import RunTheorems

  class IqLen {
    var fetchSize: nat
    var len: int
    var newFetch: bool

    ghost predicate Valid()
      reads this
    {
      FetchWidth(fetchSize)
    }

    function View(): Iq
      reads this
    {
      Iq(fetchSize, len, newFetch)
    }

    /** The fetch size is the least power of two that is at least four and at least `width`. */
    constructor (width: nat)
      ensures Valid() && View() == NewIq(fetchSize)
      ensures fetchSize >= width && (fetchSize == 4 || fetchSize < 2 * width)
    {
      fetchSize := 4;
      new;
      assert Pow2(2) == 4;
      while fetchSize < width
        invariant Valid()
        invariant fetchSize == 4 || fetchSize < 2 * width
        decreases width - fetchSize
      {
        ghost var k: nat :| fetchSize == Pow2(k);
        assert Pow2(k + 1) == 2 * fetchSize;
        fetchSize := fetchSize * 2;
      }
      len := fetchSize;
      newFetch := true;
    }

    method AddrIndex(addr: int) returns (index: nat)
      requires Valid()
      ensures index == addr % fetchSize
    {
      index := BitAnd(addr, fetchSize - 1);
      ghost var k: nat :| fetchSize == Pow2(k);
      BitAndMask(addr, k);
    }

    method Fetch()
      modifies this
      ensures View() == old(View()).Fetch()
    {
      len := len + fetchSize;
      newFetch := true;
    }

    method Flush()
      modifies this
      ensures View() == old(View()).Flush()
    {
      len := 0;
      newFetch := false;
    }

    method Truncate(index: nat)
      requires Valid() && index < fetchSize
      modifies this`len
      ensures View().Valid() && View() == old(View()).Truncate(index)
    {
      FetchWidthFits(fetchSize);
      var inLast := AddrIndex(len);
      var occupancy := fetchSize - inLast;
      var toRemove := index - occupancy;
      if toRemove < 0 {
        toRemove := toRemove + fetchSize;
      }
      len := len - toRemove;
    }

    method Jump()
      requires Valid()
      modifies this`len, this`newFetch
      ensures View().Valid() && View() == old(View()).Jump()
    {
      FetchWidthFits(fetchSize);
      if newFetch {
        len := len - fetchSize;
        newFetch := false;
      }
      Truncate(0);
    }

    method Has(op: Op) returns (has: bool)
      requires Valid()
      ensures View().Valid() && has == View().Has(op)
    {
      FetchWidthFits(fetchSize);
      var length := len;
      var start := AddrIndex(op.address);
      if start == fetchSize - 2 && !op.IsCompressed() {
        length := length - (fetchSize - 2);
      }
      has := length >= op.size;
    }

    method Remove(op: Op)
      requires Valid()
      modifies this`len, this`newFetch
      ensures View().Valid() && View() == old(View()).Remove(op)
    {
      FetchWidthFits(fetchSize);
      len := len - op.size;
      var index := AddrIndex(op.NextAddr());
      Truncate(index);
      if op.cls.Jump? {
        Jump();
      }
    }
  }

  lemma FetchWidthFits(f: nat)
    requires FetchWidth(f)
    ensures f >= 4 && f % 4 == 0
  {
    var k: nat :| f == Pow2(k);
    if k >= 2 {
      assert Pow2(k) == 2 * Pow2(k - 1) == 4 * Pow2(k - 2);
    }
  }

  class Ras {
    var depth: int
    var stack: seq<nat>
    var lastDropped: Option<nat>

    function View(): RasState
      reads this
    {
      RasState(depth, stack, lastDropped)
    }

    constructor (depth: nat)
      ensures View() == NewRas(depth)
    {
      this.depth := depth - 1;
      stack := [];
      lastDropped := None;
    }

    method Push(addr: nat)
      modifies this`stack
      ensures View() == old(View()).Push(addr)
    {
      stack := stack + [addr];
      if |stack| > depth {
        stack := stack[1..];
      }
    }

    method Drop()
      modifies this`stack, this`lastDropped
      ensures View() == old(View()).Drop()
    {
      if |stack| > 0 {
        lastDropped := Some(stack[|stack| - 1]);
        stack := stack[..|stack| - 1];
      } else {
        lastDropped := None;
      }
    }

    method Read() returns (addr: Option<nat>)
      ensures addr == View().Read()
    {
      addr := lastDropped;
    }

    method Resolve(op: Op)
      modifies this`stack, this`lastDropped
      ensures View() == old(View()).Resolve(op)
    {
      if op.isRet {
        Drop();
      }
      if op.isCall {
        Push(op.NextAddr());
      }
    }
  }

  class Bht {
    const contents: array<BranchHistory.BhtEntry>

    constructor (entries: nat)
      ensures fresh(contents) && contents[..] == BranchHistory.NewBht(entries)
    {
      contents := new BranchHistory.BhtEntry[entries](_ => BranchHistory.BhtEntry(false, 0));
    }

    method Predict(addr: nat) returns (taken: Option<bool>)
      requires contents.Length > 0
      ensures taken == BranchHistory.Predict(contents[..], addr)
    {
      var entry := contents[(addr / 2) % contents.Length];
      taken := if entry.valid then Some(entry.satCounter >= 2) else None;
    }

    method Resolve(addr: nat, taken: bool)
      requires contents.Length > 0
      modifies contents
      ensures contents[..] == BranchHistory.Resolve(old(contents[..]), addr, taken)
    {
      var index := (addr / 2) % contents.Length;
      contents[index] := contents[index].(valid := true);
      if taken {
        if contents[index].satCounter < 3 {
          contents[index] := contents[index].(satCounter := contents[index].satCounter + 1);
        }
      } else {
        if contents[index].satCounter > 0 {
          contents[index] := contents[index].(satCounter := contents[index].satCounter - 1);
        }
      }
      assert contents[index] == old(contents[..])[index].Resolve(taken);
    }
  }

  class FusBusy {
    const hasAlu2: bool
    var alu: bool
    var mul: bool
    var branch: bool
    var ldu: bool
    var stu: bool
    var alu2: bool
    var issuedMul: bool

    function View(): Fus
      reads this
    {
      Fus(hasAlu2, alu, mul, branch, ldu, stu, alu2, issuedMul)
    }

    constructor (hasAlu2: bool)
      ensures View() == NewFus(hasAlu2)
    {
      this.hasAlu2 := hasAlu2;
      alu, mul, branch, ldu, stu, alu2, issuedMul := false, false, false, false, false, false, false;
    }

    method IsReadyFor(op: Op) returns (ready: bool)
      ensures ready == View().IsReadyFor(op)
    {
      match ToFu(op)
      case ALU => ready := (hasAlu2 && !alu2) || !alu;
      case MUL => ready := !mul;
      case BRANCH => ready := !branch;
      case LDU => ready := !ldu;
      case STU => ready := !stu;
    }

    method Issue(op: Op)
      requires View().IsReadyFor(op)
      modifies this
      ensures View() == old(View()).Issue(op)
    {
      match ToFu(op)
      case ALU =>
        if !(hasAlu2 && !alu2) {
          assert !alu;
          alu := true;
          branch := true;
        } else {
          alu2 := true;
        }
      case MUL =>
        mul := true;
        issuedMul := true;
      case BRANCH =>
        alu := true;
        branch := true;
        stu := true;
      case LDU =>
        ldu := true;
        stu := true;
      case STU =>
        stu := true;
        ldu := true;
    }

    method Cycle()
      modifies this
      ensures View() == old(View()).Cycle()
    {
      alu := issuedMul;
      mul := false;
      branch := issuedMul;
      ldu := false;
      stu := false;
      alu2 := false;
      issuedMul := false;
    }
  }

  class Model {
    const cfg: Config
    const ras: Ras
    const bht: Bht
    const fus: FusBusy
    const iqlen: IqLen
    var instrQueue: seq<Instruction>
    var scoreboard: seq<Entry>
    var retired: seq<Instruction>
    var lastIssued: Option<LastIssue>
    var lastCommitted: Option<Op>

    ghost predicate Valid()
      reads this, iqlen
    {
      iqlen.Valid() && iqlen.fetchSize == cfg.fetchSize && bht.contents.Length == BranchHistory.BHT_ENTRIES
    }

    function View(): Machine
      reads this, ras, bht.contents, fus, iqlen
    {
      Machine(iqlen.View(), ras.View(), bht.contents[..], fus.View(), instrQueue, scoreboard, retired,
              lastIssued, lastCommitted)
    }

    lemma ViewValid()
      requires Valid()
      ensures View().Valid()
    {
      FetchWidthFits(iqlen.fetchSize);
    }

    /** A model that has loaded a trace. */
    constructor (
      trace: seq<Op>, issue: nat, commit: nat, sbLen: nat, fetchSize: Option<nat>,
      hasForwarding: bool, hasRenaming: bool)
      requires issue >= 1 && commit >= 1 && sbLen >= 1
      ensures Valid() && cfg.Valid() && View() == Initial(cfg, trace)
      ensures cfg.issueWidth == issue && cfg.commitWidth == commit && cfg.sbLen == sbLen
      ensures cfg.hasForwarding == hasForwarding && cfg.hasRenaming == hasRenaming
      ensures fresh(ras) && fresh(bht) && fresh(bht.contents) && fresh(fus) && fresh(iqlen)
    {
      var width := if fetchSize.Some? && fetchSize.value != 0 then fetchSize.value else 4 * issue;
      var q := new IqLen(width);
      FetchWidthFits(q.fetchSize);
      iqlen := q;
      ras := new Ras(2);
      bht := new Bht(BranchHistory.BHT_ENTRIES);
      fus := new FusBusy(issue > 1);
      cfg := Config(issue, commit, sbLen, q.fetchSize, hasForwarding, hasRenaming);
      instrQueue := FreshQueue(trace);
      scoreboard, retired := [], [];
      lastIssued, lastCommitted := None, None;
    }

    // ----------------------------------------------------------- predictions

    method PredictBranch(op: Op) returns (taken: bool)
      requires Valid()
      ensures View().Valid() && taken == Pipeline.PredictBranch(View(), op)
    {
      ViewValid();
      var pred := bht.Predict(op.address);
      if pred.Some? {
        return pred.value;
      }
      return op.offset >= 0x8000_0000;
    }

    method PredictPc(last: Op) returns (pc: Option<int>)
      requires Valid()
      ensures View().Valid() && pc == Pipeline.PredictPc(View(), last)
    {
      ViewValid();
      if last.cls.Branch? {
        var taken := PredictBranch(last);
        var offset := if taken then ToSigned(last.offset) else last.size;
        return Some(last.address + offset);
      }
      if last.cls.RegJump? {
        if last.isRet {
          var addr := ras.Read();
          return Some(if addr.Some? then addr.value else 0);
        }
        return Some(0);
      }
      return None;
    }

    method IssueManageLastBranch(instr: Instruction, cycle: int) returns (examined: Instruction)
      requires Valid()
      modifies iqlen
      ensures Valid() && old(View()).Valid() && View().Valid()
      ensures var (iq, branch) := ManageLastBranch(old(View()), instr, cycle);
              examined == instr.Log(branch) && View() == old(View()).(iq := iq)
    {
      ViewValid();
      examined := instr.Log([]);
      if lastIssued.Some? {
        var last := lastIssued.value.op;
        var pred := PredictPc(last);
        if pred.Some? {
          var bmiss := pred.value != instr.op.address;
          var resolved := cycle >= lastIssued.value.issueCycle + RESOLVE_DELAY;
          if bmiss && !resolved {
            iqlen.Flush();
          }
          var branch := if bmiss then BMISS else BHIT;
          var logged := LoggedAlready(instr.events, branch);
          if !logged {
            examined := instr.Log([Event(branch, cycle)]);
            var taken := instr.op.address != last.NextAddr();
            if taken && !bmiss {
              iqlen.Jump();
            }
          }
        }
      }
    }

    static method LoggedAlready(events: seq<Event>, kind: EventKind) returns (found: bool)
      ensures found <==> exists k :: 0 <= k < |events| && events[k].kind == kind
    {
      found := false;
      for k := 0 to |events|
        invariant found <==> exists j :: 0 <= j < k && events[j].kind == kind
      {
        if events[k].kind == kind {
          found := true;
        }
      }
    }

    // --------------------------------------------------------------- hazards

    method FindDataHazards(instr: Instruction, cycle: int) returns (logged: Instruction, found: bool)
      ensures logged == instr.Log(DataHazards(cfg, instr.op, scoreboard, cycle))
      ensures found <==> DataHazards(cfg, instr.op, scoreboard, cycle) != []
    {
      logged, found := instr, false;
      for k := 0 to |scoreboard|
        invariant logged == instr.Log(DataHazards(cfg, instr.op, scoreboard[..k], cycle))
        invariant found <==> DataHazards(cfg, instr.op, scoreboard[..k], cycle) != []
      {
        assert scoreboard[..k + 1][..k] == scoreboard[..k];
        var entry := scoreboard[k];
        if instr.op.HasWawFrom(entry.instr.op) && !cfg.hasRenaming {
          logged := logged.Log([Event(WAW, cycle)]);
          found := true;
        }
        var canForward := cfg.hasForwarding && entry.done;
        if instr.op.HasRawFrom(entry.instr.op) && !canForward {
          logged := logged.Log([Event(RAW, cycle)]);
          found := true;
        }
      }
      assert scoreboard[..|scoreboard|] == scoreboard;
    }

    method FindStructuralHazard(instr: Instruction, cycle: int) returns (logged: Instruction, found: bool)
      ensures logged == instr.Log(StructuralHazards(fus.View(), instr.op, cycle))
      ensures found <==> StructuralHazards(fus.View(), instr.op, cycle) != []
    {
      var ready := fus.IsReadyFor(instr.op);
      if !ready {
        return instr.Log([Event(STRUCT, cycle)]), true;
      }
      return instr.Log([]), false;
    }

    // ---------------------------------------------------------------- stages

    method TryIssue(cycle: int)
      requires Valid()
      modifies this, iqlen, fus, ras
      ensures Valid() && old(View()).Valid()
      ensures View() == Pipeline.TryIssue(cfg, old(View()), cycle)
    {
      hide DataHazards, Iq.Remove, Fus.Issue, Fus.Serves, RasState.Resolve, Iq.Has, ManageLastBranch;
      ViewValid();
      if |instrQueue| == 0 || |scoreboard| >= cfg.sbLen {
        return;
      }
      var canIssue := true;
      var instr := instrQueue[0];
      ghost var head := instr;
      var data := false;
      instr, data := FindDataHazards(instr, cycle);
      if data {
        canIssue := false;
      }
      var structural := false;
      instr, structural := FindStructuralHazard(instr, cycle);
      if structural {
        canIssue := false;
      }
      LogTwice(head, DataHazards(cfg, head.op, scoreboard, cycle), StructuralHazards(fus.View(), head.op, cycle));
      instr := IssueManageLastBranch(instr, cycle);
      instrQueue := [instr] + instrQueue[1..];
      var has := iqlen.Has(instr.op);
      if !has {
        canIssue := false;
      }
      if canIssue {
        iqlen.Remove(instr.op);
        instrQueue := instrQueue[1..];
        instr := instr.Log([Event(Issue, cycle)]).(unit := fus.View().Serves(instr.op));
        scoreboard := scoreboard + [Entry(instr, 0, false)];
        fus.Issue(instr.op);
        lastIssued := Some(LastIssue(instr.op, cycle));
        ras.Resolve(instr.op);
      }
    }

    static lemma LogTwice(i: Instruction, a: seq<Event>, b: seq<Event>)
      ensures i.Log(a).Log(b) == i.Log(a + b)
    {
      assert i.events + a + b == i.events + (a + b);
    }

    method TryExecute(cycle: int)
      requires Valid()
      modifies this`scoreboard
      ensures Valid() && old(View()).Valid()
      ensures View() == Execute(old(View()), cycle)
    {
      ViewValid();
      ghost var before := scoreboard;
      for k := 0 to |scoreboard|
        invariant |scoreboard| == |before|
        invariant forall j :: 0 <= j < k ==> scoreboard[j] == ExecuteEntry(before[j], cycle)
        invariant forall j :: k <= j < |before| ==> scoreboard[j] == before[j]
      {
        var entry := scoreboard[k];
        entry := entry.(cyclesSinceIssue := entry.cyclesSinceIssue + 1);
        var duration := 1;
        if entry.instr.op.cls.Load? || entry.instr.op.cls.Store? {
          duration := 2;
        }
        if entry.instr.op.cls.MulDiv? {
          duration := 2;
        }
        if entry.cyclesSinceIssue == duration {
          entry := Entry(entry.instr.Log([Event(Done, cycle)]), entry.cyclesSinceIssue, true);
        }
        scoreboard := scoreboard[k := entry];
      }
      assert scoreboard == Execute(old(View()), cycle).sb;
    }

    method CommitManageLastBranch(op: Op)
      requires Valid()
      modifies this`lastCommitted, bht.contents
      ensures Valid() && lastCommitted == Some(op)
      ensures bht.contents[..] == ResolveBranch(old(bht.contents[..]), old(lastCommitted), op)
    {
      if lastCommitted.Some? {
        var last := lastCommitted.value;
        if last.cls.Branch? {
          var taken := op.address != last.NextAddr();
          bht.Resolve(last.address, taken);
        }
      }
      lastCommitted := Some(op);
    }

    method TryCommit(cycle: int, port: nat)
      requires Valid()
      modifies this, bht.contents
      ensures Valid() && old(View()).Valid()
      ensures View() == Pipeline.TryCommit(old(View()), cycle, port)
    {
      ViewValid();
      if |scoreboard| == 0 {
        return;
      }
      var entry := scoreboard[0];
      var canCommit := true;
      if port > 0 {
        if entry.instr.op.cls.Store? {
          canCommit := false;
        }
      }
      if !entry.done {
        canCommit := false;
      }
      if canCommit {
        var instr := entry.instr.Log([Event(Commit, cycle)]);
        scoreboard := scoreboard[1..];
        retired := retired + [instr];
        CommitManageLastBranch(instr.op);
      }
    }

    method RunCycle(cycle: int)
      requires Valid()
      modifies this, iqlen, fus, ras, bht.contents
      ensures Valid() && old(View()).Valid()
      ensures View() == Pipeline.RunCycle(cfg, old(View()), cycle)
    {
      ViewValid();
      ghost var m := View();
      fus.Cycle();
      for port := 0 to cfg.commitWidth
        invariant Valid() && View() == CommitPorts(StartCycle(m), cycle, port)
      {
        TryCommit(cycle, port);
      }
      TryExecute(cycle);
      ghost var b := View();
      assert b == BackEnd(cfg, m, cycle);
      for slot := 0 to cfg.issueWidth
        invariant Valid() && View() == IssueSlots(cfg, b, cycle, slot)
      {
        TryIssue(cycle);
      }
      iqlen.Fetch();
    }

    /** Model.run on a loaded trace: it stops at the first cycle count with nothing left in
        flight, within a bound linear in the trace, with every instruction retired in order;
        or at the optional cycle limit. */
    method Run(ghost trace: seq<Op>, cycles: Option<nat>) returns (cycle: nat)
      requires Valid() && cfg.Valid() && Runs.ValidTrace(trace) && View() == Initial(cfg, trace)
      modifies this, iqlen, fus, ras, bht.contents
      ensures View() == After(cfg, trace, cycle)
      ensures forall k :: 0 <= k < cycle ==> !After(cfg, trace, k).Finished()
      ensures cycles == None ==> View().Finished() && Ops(View().retired) == trace
      ensures cycle <= RunTheorems.RunBound(cfg, trace)
      ensures cycles.Some? ==> View().Finished() || cycle == cycles.value + 1
    {
      hide Pipeline.RunCycle, RunTheorems.RunBound, Runs.ValidTrace, Initial, Ops;
      cycle := 0;
      while |instrQueue| > 0 || |scoreboard| > 0
        invariant Valid() && View() == After(cfg, trace, cycle)
        invariant forall k :: 0 <= k < cycle ==> !After(cfg, trace, k).Finished()
        invariant cycle <= RunTheorems.RunBound(cfg, trace)
        invariant cycles.Some? ==> cycle <= cycles.value
        decreases RunTheorems.RunBound(cfg, trace) - cycle
      {
        if cycle == RunTheorems.RunBound(cfg, trace) {
          RunTheorems.RunTerminates(cfg, trace, cycle);
          assert false;
        }
        RunCycle(cycle);
        cycle := cycle + 1;
        if cycles.Some? && cycle > cycles.value {
          return;
        }
      }
      RunTheorems.AllRetired(cfg, trace, cycle);
    }
  }
}
