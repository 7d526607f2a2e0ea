// How often the two-bit counters of the branch history table can be wrong.
module Mispredictions {
  import opened Prelude
  import opened BranchHistory

  /** A resolved branch: its address, the static guess of Model.predict_branch, the outcome. */
  datatype Outcome = Outcome(addr: nat, backward: bool, taken: bool)

  function Guess(contents: seq<BhtEntry>, o: Outcome): bool
    requires |contents| > 0
  {
    match Predict(contents, o.addr)
    case Some(taken) => taken
    case None => o.backward
  }

  /** The table after predicting and resolving every branch in turn. */
  function Train(contents: seq<BhtEntry>, outs: seq<Outcome>): (c: seq<BhtEntry>)
    requires |contents| > 0
    ensures |c| == |contents|
  {
    if outs == [] then contents
    else
      var o := outs[|outs| - 1];
      Resolve(Train(contents, outs[..|outs| - 1]), o.addr, o.taken)
  }

  /** Wrong guesses on the branches that share table entry `x`. */
  function Misses(contents: seq<BhtEntry>, outs: seq<Outcome>, x: nat): nat
    requires |contents| > 0
  {
    if outs == [] then 0
    else
      var o, front := outs[|outs| - 1], outs[..|outs| - 1];
      Misses(contents, front, x)
      + (if Index(contents, o.addr) == x && Guess(Train(contents, front), o) != o.taken then 1 else 0)
  }

  /** The outcomes seen by entry `x`. */
  function History(contents: seq<BhtEntry>, outs: seq<Outcome>, x: nat): seq<bool>
    requires |contents| > 0
  {
    if outs == [] then []
    else
      var o := outs[|outs| - 1];
      History(contents, outs[..|outs| - 1], x) + (if Index(contents, o.addr) == x then [o.taken] else [])
  }

  /** Number of maximal blocks of equal outcomes. */
  function Runs(h: seq<bool>): nat {
    if |h| <= 1 then |h|
    else Runs(h[..|h| - 1]) + (if h[|h| - 1] != h[|h| - 2] then 1 else 0)
  }

  /** Further misses an entry can cause while its branches keep going the same way. */
  function StillWrong(e: BhtEntry, taken: bool): nat {
    if taken then Max(0, 2 - e.satCounter) else Max(0, e.satCounter - 1)
  }

  lemma {:induction false} MissesPerRun(contents: seq<BhtEntry>, outs: seq<Outcome>, x: nat)
    requires x < |contents| && contents[x] == BhtEntry(false, 0)
    ensures var e, h := Train(contents, outs)[x], History(contents, outs, x);
            && e.satCounter <= 3
            && (h == [] ==> e == BhtEntry(false, 0) && Misses(contents, outs, x) == 0)
            && (h != [] ==> e.valid && Misses(contents, outs, x) + StillWrong(e, h[|h| - 1]) <= 2 * Runs(h))
  {
    if outs != [] {
      var o, front := outs[|outs| - 1], outs[..|outs| - 1];
      MissesPerRun(contents, front, x);
      var h, h' := History(contents, front, x), History(contents, outs, x);
      if Index(contents, o.addr) == x {
        assert h'[..|h|] == h;
        assert Runs(h') == if h == [] then 1 else Runs(h) + (if o.taken != h[|h| - 1] then 1 else 0);
      } else {
        assert h' == h;
      }
    }
  }

  /** Two wrong guesses at most for each maximal block of same-direction outcomes. */
  lemma MispredictionBound(entries: nat, outs: seq<Outcome>, x: nat)
    requires x < entries
    ensures Misses(NewBht(entries), outs, x) <= 2 * Runs(History(NewBht(entries), outs, x))
    ensures Train(NewBht(entries), outs)[x].satCounter <= 3
  {
    MissesPerRun(NewBht(entries), outs, x);
  }
}
