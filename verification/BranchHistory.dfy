// The branch history table (class Bht): two-bit saturating counters.
module BranchHistory {
  import opened Prelude

  datatype BhtEntry = BhtEntry(valid: bool, satCounter: nat)
  {
    /** None when the entry has never been resolved. */
    function Predict(): Option<bool> {
      if valid then Some(satCounter >= 2) else None
    }

    function Resolve(taken: bool): BhtEntry {
      BhtEntry(true,
               if taken then (if satCounter < 3 then satCounter + 1 else satCounter)
               else (if satCounter > 0 then satCounter - 1 else satCounter))
    }
  }

  const BHT_ENTRIES: nat := 128

  function Index(contents: seq<BhtEntry>, addr: nat): nat
    requires |contents| > 0
  {
    (addr / 2) % |contents|
  }

  function NewBht(entries: nat): seq<BhtEntry> { seq(entries, _ => BhtEntry(false, 0)) }

  function Predict(contents: seq<BhtEntry>, addr: nat): Option<bool>
    requires |contents| > 0
  {
    contents[Index(contents, addr)].Predict()
  }

  function Resolve(contents: seq<BhtEntry>, addr: nat, taken: bool): (c: seq<BhtEntry>)
    requires |contents| > 0
    ensures |c| == |contents|
  {
    var i := Index(contents, addr);
    contents[i := contents[i].Resolve(taken)]
  }
}
