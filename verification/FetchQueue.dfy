// The byte-counting instruction queue of the performance model (class IqLen).
module FetchQueue {
  import opened Prelude
  import opened Instructions

  /** A fetch width: a power of two, at least four bytes. */
  ghost predicate FetchWidth(f: nat) {
    f >= 4 && exists k: nat :: f == Pow2(k)
  }

  datatype Iq = Iq(fetchSize: nat, len: int, newFetch: bool)
  {
    predicate Valid() { fetchSize >= 4 && fetchSize % 4 == 0 }

    function AddrIndex(addr: int): int
      requires Valid()
    {
      addr % fetchSize
    }

    function Fetch(): Iq { this.(len := len + fetchSize, newFetch := true) }

    function Flush(): Iq { this.(len := 0, newFetch := false) }

    function Truncate(index: nat): Iq
      requires Valid() && index < fetchSize
    {
      var occupancy := fetchSize - AddrIndex(len);
      var toRemove := index - occupancy;
      this.(len := len - (if toRemove < 0 then toRemove + fetchSize else toRemove))
    }

    function Jump(): Iq
      requires Valid()
    {
      (if newFetch then this.(len := len - fetchSize, newFetch := false) else this).Truncate(0)
    }

    predicate IsCrossword(op: Op)
      requires Valid()
    {
      AddrIndex(op.address) == fetchSize - 2 && !op.IsCompressed()
    }

    predicate Has(op: Op)
      requires Valid()
    {
      len - (if IsCrossword(op) then fetchSize - 2 else 0) >= op.size
    }

    /** The first two statements of IqLen.remove: take the bytes, then drop to `next_addr`. */
    function Consume(op: Op): Iq
      requires Valid()
    {
      this.(len := len - op.size).Truncate(AddrIndex(op.NextAddr()))
    }

    function Remove(op: Op): Iq
      requires Valid()
    {
      if op.cls.Jump? then Consume(op).Jump() else Consume(op)
    }
  }

  function NewIq(fetchSize: nat): Iq { Iq(fetchSize, fetchSize, true) }

  /** Truncation moves down by less than a fetch, to a length congruent to minus the index. */
  lemma TruncateMeaning(q: Iq, index: nat)
    requires q.Valid() && index < q.fetchSize
    ensures var t := q.Truncate(index);
            q.len - q.fetchSize < t.len <= q.len && (t.len + index) % q.fetchSize == 0
            && t == q.(len := t.len)
  {
    var f := q.fetchSize;
    MinusRemainder(q.len, f);
    SelfMultiple(f);
    MultipleSum(q.len - q.len % f, f, f);
  }

  /** ... and that length is the largest one not above the old length. */
  lemma TruncateLargest(q: Iq, index: nat, l: int)
    requires q.Valid() && index < q.fetchSize
    requires l <= q.len && (l + index) % q.fetchSize == 0
    ensures l <= q.Truncate(index).len
  {
    TruncateMeaning(q, index);
    var t := q.Truncate(index).len;
    if l > t {
      MultipleSum(l + index, t + index, q.fetchSize);
      MultipleGap(l - t, q.fetchSize);
    }
  }
}
