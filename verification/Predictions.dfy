// The predictions of a run: what the pipeline guesses after a branch, from
// the outcomes of the branches it has committed.
module Predictions {
  import opened Prelude
  import opened Instructions
  import opened BranchHistory
  import opened Mispredictions
  import opened Pipeline
  import opened Timing
  import opened Runs
  import opened ReturnStack
  import opened RunTheorems
  import Progress
  import Returns

  /** The branches among committed instructions and where they went; the last instruction has
      no successor yet. */
  function Outcomes(ops: seq<Op>): seq<Outcome> {
    if |ops| < 2 then []
    else
      var b, next := ops[|ops| - 2], ops[|ops| - 1];
      Outcomes(ops[..|ops| - 1])
      + (if b.cls.Branch?
         then [Outcome(b.address, ToSigned(b.offset) < 0, next.address != b.address + b.size)]
         else [])
  }

  /** The table that a run holds is the one whose mispredictions are bounded. */
  lemma {:induction false} TrainedOnOutcomes(ops: seq<Op>)
    ensures Trained(ops) == Train(NewBht(128), Outcomes(ops))
  {
    if |ops| > 0 {
      var front := ops[..|ops| - 1];
      TrainedOnOutcomes(front);
      assert |ops| > 1 && !ops[|ops| - 2].cls.Branch? ==> Outcomes(ops) == Outcomes(front);
      assert |ops| == 1 ==> Outcomes(ops) == [] && Outcomes(front) == [];
      if |ops| > 1 && ops[|ops| - 2].cls.Branch? {
        var b, next := ops[|ops| - 2], ops[|ops| - 1];
        TrainOneMore(NewBht(128), Outcomes(front),
                     Outcome(b.address, ToSigned(b.offset) < 0, next.address != b.address + b.size));
      }
    }
  }

  lemma TrainOneMore(contents: seq<BhtEntry>, outs: seq<Outcome>, o: Outcome)
    requires |contents| > 0
    ensures Train(contents, outs + [o]) == Resolve(Train(contents, outs), o.addr, o.taken)
  {
    assert (outs + [o])[..|outs|] == outs;
  }

  /** The pipeline's guess is the guess of that table, the sign of the displacement deciding for
      an entry without history. */
  lemma GuessOfTable(m: Machine, op: Op, taken: bool)
    requires m.Valid() && op.Valid()
    ensures PredictBranch(m, op) == Guess(m.bht, Outcome(op.address, ToSigned(op.offset) < 0, taken))
  {
  }

  // --------------------------------------------------------------- what is learned

  /** The outcomes seen by the entry of the addresses with `address / 2 % 128 == x`. */
  function Seen(outs: seq<Outcome>, x: nat): seq<bool> {
    if outs == [] then []
    else
      var o := outs[|outs| - 1];
      Seen(outs[..|outs| - 1], x) + (if (o.addr / 2) % 128 == x then [o.taken] else [])
  }

  lemma {:induction false} SeenIsHistory(outs: seq<Outcome>, x: nat)
    requires x < 128
    ensures History(NewBht(128), outs, x) == Seen(outs, x)
  {
    if outs != [] {
      SeenIsHistory(outs[..|outs| - 1], x);
    }
  }

  /** A two-bit counter walks up on taken branches and down on others, and stays within 0 and 3. */
  function Walk(h: seq<bool>): (c: nat)
    ensures c <= 3
    ensures |h| >= 2 && h[|h| - 1] == h[|h| - 2] ==> (c >= 2 <==> h[|h| - 1])
    ensures |h| >= 3 && h[|h| - 1] == h[|h| - 2] == h[|h| - 3] ==> c == if h[|h| - 1] then 3 else 0
  {
    if h == [] then 0
    else
      var c := Walk(h[..|h| - 1]);
      assert |h| >= 2 ==> h[..|h| - 1][|h| - 2] == h[|h| - 2];
      if h[|h| - 1] then (if c == 3 then 3 else c + 1) else (if c == 0 then 0 else c - 1)
  }

  lemma {:induction false} EntryWalks(outs: seq<Outcome>, x: nat)
    requires x < 128
    ensures Train(NewBht(128), outs)[x] == BhtEntry(Seen(outs, x) != [], Walk(Seen(outs, x)))
  {
    hide Walk, Seen, Train, Resolve;
    if outs == [] {
      NothingSeen(x);
    } else {
      var o, front := outs[|outs| - 1], outs[..|outs| - 1];
      EntryWalks(front, x);
      SeenOneMore(outs, x);
      ResolvedEntry(Train(NewBht(128), front), o, x);
      assert Train(NewBht(128), outs) == Resolve(Train(NewBht(128), front), o.addr, o.taken) by {
        TrainOneMore(NewBht(128), front, o);
        assert front + [o] == outs;
      }
      WalkOneMore(Seen(front, x), o.taken);
    }
  }

  lemma NothingSeen(x: nat)
    requires x < 128
    ensures Seen([], x) == [] && Walk([]) == 0 && Train(NewBht(128), [])[x] == BhtEntry(false, 0)
  {
  }

  lemma SeenOneMore(outs: seq<Outcome>, x: nat)
    requires outs != []
    ensures var o, h := outs[|outs| - 1], Seen(outs[..|outs| - 1], x);
            Seen(outs, x) == if (o.addr / 2) % 128 == x then h + [o.taken] else h
  {
    assert Seen(outs[..|outs| - 1], x) + [] == Seen(outs[..|outs| - 1], x);
  }

  lemma ResolvedEntry(contents: seq<BhtEntry>, o: Outcome, x: nat)
    requires |contents| == 128 && x < 128
    ensures var e := Resolve(contents, o.addr, o.taken)[x];
            if (o.addr / 2) % 128 != x then e == contents[x]
            else e.valid && e.satCounter == if o.taken then (if contents[x].satCounter >= 3 then contents[x].satCounter
                                                             else contents[x].satCounter + 1)
                                            else Max(0, contents[x].satCounter - 1)
  {
  }

  lemma WalkOneMore(h: seq<bool>, taken: bool)
    ensures var c := Walk(h);
            Walk(h + [taken]) == if taken then (if c == 3 then 3 else c + 1) else (if c == 0 then 0 else c - 1)
  {
    assert (h + [taken])[..|h|] == h;
  }

  // ------------------------------------------------------------- over whole runs

  /** What the walk of its entry says about a branch, and the displacement's sign without one. */
  predicate Expected(outs: seq<Outcome>, op: Op) {
    var h := Seen(outs, (op.address / 2) % 128);
    if h == [] then ToSigned(op.offset) < 0 else Walk(h) >= 2
  }

  /** In every slot of a run, the next instruction after a branch is predicted at its target when
      the committed outcomes expect it taken, and behind it otherwise. */
  lemma PredictedBranch(cfg: Config, trace: seq<Op>, n: nat, slot: nat)
    requires cfg.Valid() && ValidTrace(trace)
    requires var j := |Issued(AtSlot(cfg, trace, n, slot))| - 1; 0 <= j < |trace| && trace[j].cls.Branch?
    ensures var m := AtSlot(cfg, trace, n, slot);
            var b, r := trace[|Issued(m)| - 1], |m.retired|;
            r <= |trace| &&
            Prediction(m) ==
              Some(b.address + (if Expected(Outcomes(trace[..r]), b) then ToSigned(b.offset) else b.size))
  {
    hide AtSlot, After, SlotInv, StartInv, Conserved, Progress.LastOk, Predictors, Prediction;
    AfterInv(cfg, trace, n);
    AtSlotInv(cfg, trace, n, slot);
    var m := AtSlot(cfg, trace, n, slot);
    SlotFacts(cfg, trace, m, n, slot > 0);
    BranchInState(m, trace);
  }

  lemma RetiredPrefix(m: Machine, trace: seq<Op>)
    requires Conserved(m, trace)
    ensures |m.retired| <= |trace| && Ops(m.retired) == trace[..|m.retired|]
  {
    assert trace == Ops(m.retired) + (Ops(Instrs(m.sb)) + Ops(m.queue));
  }

  /** The table of a run, at any time. */
  lemma TableOfRun(m: Machine, trace: seq<Op>, x: nat)
    requires Conserved(m, trace) && Predictors(m) && x < 128
    ensures |m.retired| <= |trace| && |m.bht| == 128
    ensures var h := Seen(Outcomes(trace[..|m.retired|]), x);
            m.bht[x] == BhtEntry(h != [], Walk(h))
  {
    RetiredPrefix(m, trace);
    TrainedOnOutcomes(Ops(m.retired));
    EntryWalks(Outcomes(Ops(m.retired)), x);
    hide Conserved, Outcomes, Seen, Walk, Train;
  }

  lemma BranchInState(m: Machine, trace: seq<Op>)
    requires m.Valid() && Conserved(m, trace) && Progress.LastOk(m) && Predictors(m) && ValidTrace(trace)
    requires var j := |Issued(m)| - 1; 0 <= j < |trace| && trace[j].cls.Branch?
    ensures var b, r := trace[|Issued(m)| - 1], |m.retired|;
            r <= |trace| &&
            Prediction(m) ==
              Some(b.address + (if Expected(Outcomes(trace[..r]), b) then ToSigned(b.offset) else b.size))
  {
    hide *;
    LastIsTrace(m, trace);
    var b := trace[|Issued(m)| - 1];
    TableOfRun(m, trace, (b.address / 2) % 128);
    TracedValid(trace, |Issued(m)| - 1);
    BranchPc(m, b);
    ExpectedMeans(Outcomes(trace[..|m.retired|]), b);
  }

  lemma TracedValid(trace: seq<Op>, k: nat)
    requires ValidTrace(trace) && k < |trace|
    ensures trace[k].Valid()
  {
  }

  lemma ExpectedMeans(outs: seq<Outcome>, op: Op)
    ensures var h := Seen(outs, (op.address / 2) % 128);
            Expected(outs, op) == if h == [] then ToSigned(op.offset) < 0 else Walk(h) >= 2
  {
    hide Seen, Walk;
  }

  /** The prediction after a branch, from the counter of its entry in a table of 128. */
  lemma BranchPc(m: Machine, b: Op)
    requires m.Valid() && |m.bht| == 128 && m.lastIssued.Some? && m.lastIssued.value.op == b
    requires b.cls.Branch? && b.Valid()
    ensures var e := m.bht[(b.address / 2) % 128];
            Prediction(m) == Some(b.address + (if (if e.valid then e.satCounter >= 2 else ToSigned(b.offset) < 0)
                                               then ToSigned(b.offset) else b.size))
  {
  }

  /** Trained on the outcomes of a run, an entry is wrong twice at most for each block of equal ones. */
  lemma RunMisses(cfg: Config, trace: seq<Op>, n: nat, x: nat)
    requires cfg.Valid() && ValidTrace(trace) && x < 128
    ensures var ops := Ops(After(cfg, trace, n).retired);
            && After(cfg, trace, n).bht == Train(NewBht(128), Outcomes(ops))
            && Misses(NewBht(128), Outcomes(ops), x) <= 2 * Mispredictions.Runs(Seen(Outcomes(ops), x))
  {
    hide After, Conserved, Timed, Progress.LastOk;
    AfterFacts(cfg, trace, n);
    var ops := Ops(After(cfg, trace, n).retired);
    TrainedOnOutcomes(ops);
    MispredictionBound(128, Outcomes(ops), x);
    SeenIsHistory(Outcomes(ops), x);
  }

  /** A register jump that is no return, and a return from no call, are predicted at address 0;
      after anything else but branches there is no prediction. */
  lemma PredictedElsewhere(cfg: Config, trace: seq<Op>, n: nat, slot: nat)
    requires cfg.Valid() && ValidTrace(trace)
    requires var j := |Issued(AtSlot(cfg, trace, n, slot))| - 1; 0 <= j < |trace| && !trace[j].cls.Branch?
    ensures var m := AtSlot(cfg, trace, n, slot);
            var j := |Issued(m)| - 1;
            if !trace[j].cls.RegJump? then Prediction(m) == None
            else !trace[j].isRet || Returns.Ideal(trace[..j]) == [] ==> Prediction(m) == Some(0)
  {
    hide AtSlot, After, SlotInv, StartInv, Conserved, Progress.LastOk, Predictors, Prediction;
    AfterInv(cfg, trace, n);
    AtSlotInv(cfg, trace, n, slot);
    var m := AtSlot(cfg, trace, n, slot);
    SlotFacts(cfg, trace, m, n, slot > 0);
    ElsewhereInState(m, trace);
  }

  lemma ElsewhereInState(m: Machine, trace: seq<Op>)
    requires m.Valid() && Conserved(m, trace) && Progress.LastOk(m) && Predictors(m)
    requires var j := |Issued(m)| - 1; 0 <= j < |trace| && !trace[j].cls.Branch?
    ensures var j := |Issued(m)| - 1;
            if !trace[j].cls.RegJump? then Prediction(m) == None
            else !trace[j].isRet || Returns.Ideal(trace[..j]) == [] ==> Prediction(m) == Some(0)
  {
    hide *;
    LastIsTrace(m, trace);
    var j := |Issued(m)| - 1;
    if trace[j].isRet && Returns.Ideal(trace[..j]) == [] {
      UnmatchedReturn(trace, j);
    }
    ElsewherePc(m);
  }

  lemma ElsewherePc(m: Machine)
    requires m.Valid() && m.lastIssued.Some? && !m.lastIssued.value.op.cls.Branch?
    ensures var op := m.lastIssued.value.op;
            if !op.cls.RegJump? then Prediction(m) == None
            else !op.isRet || m.ras.lastDropped.None? ==> Prediction(m) == Some(0)
  {
  }

  lemma UnmatchedReturn(trace: seq<Op>, j: nat)
    requires j < |trace| && trace[j].isRet && Returns.Ideal(trace[..j]) == []
    ensures ResolveAll(NewRas(2), trace[..j + 1]).lastDropped.None?
  {
    Returns.BoundedIsTopOfIdeal(2, trace[..j]);
    var front := ResolveAll(NewRas(2), trace[..j]);
    assert trace[..j + 1][..j] == trace[..j];
    assert ResolveAll(NewRas(2), trace[..j + 1]) == front.Resolve(trace[j]);
    hide ResolveAll, Returns.Ideal;
  }
}
