// The byte count of the instruction queue over whole runs: on a trace whose
// addresses follow each other except after branches and jumps, the count always
// stands at a boundary of the head instruction when that instruction is removed.
module FetchArithmetic {
  import opened Prelude
  import opened Instructions
  import opened FetchQueue
  import opened Pipeline
  import opened Timing
  import opened Progress

  /** `b` may follow `a` in a trace without interrupts. */
  predicate Follows(a: Op, b: Op) {
    !a.cls.Branch? && !a.cls.Jump? && !a.cls.RegJump? ==> b.address == a.address + a.size
  }

  predicate Sequential(trace: seq<Op>) {
    && (forall k :: 0 <= k < |trace| ==> trace[k].address % 2 == 0)
    && (forall k :: 0 <= k < |trace| - 1 ==> Follows(trace[k], trace[k + 1]))
  }

  /** The same, seen from the state: the queue and the last issued instruction. */
  predicate Linked(m: Machine) {
    && Sequential(Ops(m.queue))
    && (m.lastIssued.Some? && |m.queue| > 0 ==> Follows(m.lastIssued.value.op, m.queue[0].op))
  }

  predicate Examined(i: Instruction) { i.Has(BMISS) || i.Has(BHIT) }

  /** `len` bytes end on a fetch boundary, or start at `address`. */
  predicate At(q: Iq, address: nat)
    requires q.Valid()
  {
    (q.len + address) % q.fetchSize == 0
  }

  predicate OnBoundary(q: Iq)
    requires q.Valid()
  {
    q.len % q.fetchSize == 0
  }

  predicate Counted(m: Machine)
    requires m.Valid()
  {
    && m.iq.len + m.iq.fetchSize >= 0
    && (|m.queue| > 0 ==>
          match m.lastIssued
          case None => OnBoundary(m.iq)
          case Some(last) =>
            if last.op.cls.Jump? then OnBoundary(m.iq)
            else if !last.op.Predicts() then At(m.iq, last.op.NextAddr())
            else
              && (if Examined(m.queue[0]) then OnBoundary(m.iq) || At(m.iq, m.queue[0].op.address)
                  else At(m.iq, last.op.NextAddr()))
              && (!m.queue[0].Has(BHIT) ==> m.iq.len >= 0))
  }

  /** A successor whose prediction was not yet looked at is at most `limit` cycles late. */
  predicate SoonExamined(m: Machine, c: int, limit: int) {
    |m.queue| > 0 && m.lastIssued.Some? && m.lastIssued.value.op.Predicts() && !Examined(m.queue[0])
    ==> c <= m.lastIssued.value.issueCycle + limit
  }

  // ------------------------------------------------------------- one operation

  lemma JumpCounts(q: Iq)
    requires q.Valid() && q.len >= 0
    ensures OnBoundary(q.Jump()) && q.Jump().len + q.fetchSize >= 0
  {
    var f: int := q.fetchSize;
    var q' := if q.newFetch then q.(len := q.len - f, newFetch := false) else q;
    SelfMultiple(f);
    MultipleSum(0, f, f);
    TruncateMeaning(q', 0);
    hide Iq.Truncate;
    TruncateLargest(q', 0, if q.newFetch then -f else 0);
  }

  lemma EvenRemainder(a: nat, f: nat)
    requires f > 0 && a % 2 == 0 && f % 2 == 0
    ensures (a % f) % 2 == 0
  {
    MinusRemainder(a, f);
    var k := (a - a % f) / f;
    assert a - a % f == k * f == k * (2 * (f / 2));
    MulDouble(k, f / 2);
  }

  /** Moving an index by whole fetches keeps congruences. */
  lemma IndexCongruent(x: int, address: nat, f: nat)
    requires f > 0
    ensures (x + address) % f == 0 <==> (x + address % f) % f == 0
  {
    MinusRemainder(address, f);
    if (x + address) % f == 0 {
      MultipleSum(x + address, address - address % f, f);
    }
    if (x + address % f) % f == 0 {
      MultipleSum(x + address % f, address - address % f, f);
    }
  }

  /** Removal from a count that starts at the instruction takes exactly its bytes. */
  lemma ConsumeAligned(q: Iq, op: Op)
    requires q.Valid() && op.Valid() && q.Has(op) && At(q, op.address)
    ensures q.Consume(op).len == q.len - op.size >= 0 && At(q.Consume(op), op.NextAddr())
  {
    var taken := q.(len := q.len - op.size);
    var index := q.AddrIndex(op.NextAddr());
    MinusRemainder(op.NextAddr(), q.fetchSize);
    MinusRemainder(op.address, q.fetchSize);
    IndexCongruent(taken.len, op.NextAddr(), q.fetchSize);
    TruncateMeaning(taken, index);
    TruncateLargest(taken, index, taken.len);
  }

  /** Removal after a redirection also drops the bytes in front of the target. */
  lemma ConsumeAtBoundary(q: Iq, op: Op)
    requires q.Valid() && op.Valid() && op.address % 2 == 0 && q.Has(op) && OnBoundary(q)
    ensures q.Consume(op).len == q.len - op.address % q.fetchSize - op.size >= 0
    ensures At(q.Consume(op), op.NextAddr())
  {
    var f, r := q.fetchSize, op.address % q.fetchSize;
    var taken := q.(len := q.len - op.size);
    var index := q.AddrIndex(op.NextAddr());
    BytesInFront(q, op);
    MinusRemainder(op.NextAddr(), f);
    MinusRemainder(op.address, f);
    var l := q.len - r - op.size;
    hide Iq.Has, Iq.Truncate;
    MultipleSum(q.len, op.address - r, f);
    assert l + op.NextAddr() == q.len + (op.address - r);
    IndexCongruent(l, op.NextAddr(), f);
    TruncateExact(taken, index, l);
    IndexCongruent(l, op.NextAddr(), f);
  }

  lemma BytesInFront(q: Iq, op: Op)
    requires q.Valid() && op.Valid() && op.address % 2 == 0 && q.Has(op) && OnBoundary(q)
    ensures 0 <= op.address % q.fetchSize < q.fetchSize
    ensures q.len - op.address % q.fetchSize - op.size >= 0
  {
    MinusRemainder(op.address, q.fetchSize);
    EvenRemainder(op.address, q.fetchSize);
    EnoughFetches(q, op);
  }

  /** A congruent length less than a fetch below is where truncation ends. */
  lemma TruncateExact(q: Iq, index: nat, l: int)
    requires q.Valid() && index < q.fetchSize
    requires q.len - q.fetchSize < l <= q.len && (l + index) % q.fetchSize == 0
    ensures q.Truncate(index).len == l
  {
    TruncateMeaning(q, index);
    TruncateLargest(q, index, l);
    var t := q.Truncate(index).len;
    hide Iq.Truncate;
    MultipleSum(t + index, l + index, q.fetchSize);
    MultipleGap(t - l, q.fetchSize);
  }

  lemma EnoughFetches(q: Iq, op: Op)
    requires q.Valid() && op.Valid() && q.Has(op) && OnBoundary(q)
    ensures q.len >= if q.IsCrossword(op) then 2 * q.fetchSize else q.fetchSize
  {
    var f := q.fetchSize;
    if q.len < f {
      MultipleGap(q.len, f);
    } else if q.IsCrossword(op) && q.len < 2 * f {
      SelfMultiple(f);
      MultipleSum(q.len, f, f);
      MultipleGap(q.len - f, f);
    }
  }

  // -------------------------------------------------------------- one attempt

  /** What an examination of the head guarantees to the removal that may follow. */
  predicate Ready(q: Iq, op: Op)
    requires q.Valid()
  {
    OnBoundary(q) || At(q, op.address)
  }

  /** The branch check turns a redirected successor's count into a boundary:
      by a flush when it was mispredicted, by a jump when it was predicted taken. */
  lemma ExamineCounts(cfg: Config, m: Machine, c: int)
    requires m.Valid() && |m.queue| > 0 && Counted(m) && Linked(m) && SoonExamined(m, c, 3)
    ensures var (instr, iq, can) := Examine(cfg, m, c);
            && iq.len + iq.fetchSize >= 0
            && Ready(iq, m.queue[0].op)
            && (m.lastIssued.Some? && m.lastIssued.value.op.Predicts() ==>
                  Examined(instr) && (!instr.Has(BHIT) ==> iq.len >= 0))
            && (m.lastIssued.None? || !m.lastIssued.value.op.Predicts() ==> iq == m.iq)
  {
    ExaminedHead(cfg, m, c);
    var head := m.queue[0];
    SelfMultiple(m.iq.fetchSize);
    if m.lastIssued.Some? && m.lastIssued.value.op.Predicts() {
      var found := DataHazards(cfg, head.op, m.sb, c) + StructuralHazards(m.fus, head.op, c);
      LogKeepsHas(head, found, BHIT);
      LogKeepsHas(head, found, BMISS);
      FoundHasNoBranch(cfg, m, c);
      if Prediction(m).value == head.op.address && !head.Has(BHIT) {
        JumpCounts(m.iq);
      }
    }
  }

  lemma {:induction false} DataHazardsHaveNoBranch(cfg: Config, op: Op, sb: seq<Entry>, c: int)
    ensures forall e :: e in DataHazards(cfg, op, sb, c) ==> e.kind != BMISS && e.kind != BHIT
  {
    if sb != [] {
      DataHazardsHaveNoBranch(cfg, op, sb[..|sb| - 1], c);
    }
  }

  lemma FoundHasNoBranch(cfg: Config, m: Machine, c: int)
    requires m.Valid() && |m.queue| > 0
    ensures forall e :: e in DataHazards(cfg, m.queue[0].op, m.sb, c) + StructuralHazards(m.fus, m.queue[0].op, c)
              ==> e.kind != BMISS && e.kind != BHIT
  {
    DataHazardsHaveNoBranch(cfg, m.queue[0].op, m.sb, c);
  }

  /** The claim about removals: where the count stands before, and after the bytes are taken. */
  lemma RemovalCounts(q: Iq, op: Op)
    requires q.Valid() && op.Valid() && op.address % 2 == 0 && q.Has(op) && Ready(q, op)
    ensures q.Consume(op).len >= 0 && At(q.Consume(op), op.NextAddr())
    ensures q.Remove(op).len + q.fetchSize >= 0
    ensures if op.cls.Jump? then OnBoundary(q.Remove(op)) else q.Remove(op) == q.Consume(op)
  {
    MinusRemainder(op.NextAddr(), q.fetchSize);
    if At(q, op.address) {
      ConsumeAligned(q, op);
    } else {
      ConsumeAtBoundary(q, op);
    }
    if op.cls.Jump? {
      JumpCounts(q.Consume(op));
    }
  }

  lemma IssueKeepsCounted(cfg: Config, m: Machine, c: int)
    requires m.Valid() && Counted(m) && Linked(m) && SoonExamined(m, c, 3) && QueueOk(m.queue)
    requires forall k :: 0 <= k < |m.queue| ==> m.queue[k].op.Valid()
    ensures Counted(TryIssue(cfg, m, c))
  {
    if !Blocked(cfg, m) {
      var m' := TryIssue(cfg, m, c);
      var (instr, iq, can) := Examine(cfg, m, c);
      ExaminedHead(cfg, m, c);
      ExamineCounts(cfg, m, c);
      if can {
        assert Ops(m.queue)[0] == m.queue[0].op;
        RemovalCounts(iq, instr.op);
        if |m'.queue| > 0 {
          assert m'.queue[0] == m.queue[1];
        }
      } else {
        assert m'.queue[0] == instr;
      }
    }
  }

  lemma IssueKeepsLinked(cfg: Config, m: Machine, c: int)
    requires m.Valid() && Linked(m)
    ensures Linked(TryIssue(cfg, m, c))
  {
    if !Blocked(cfg, m) {
      var m' := TryIssue(cfg, m, c);
      ExaminedHead(cfg, m, c);
      if Examine(cfg, m, c).2 {
        assert Ops(m'.queue) == Ops(m.queue)[1..];
        assert |m'.queue| > 0 ==> Follows(Ops(m.queue)[0], Ops(m.queue)[1]);
      } else {
        assert Ops(m'.queue) == Ops(m.queue);
      }
    }
  }

  /** Only a full scoreboard delays the first examination, and it is full for two cycles at most. */
  lemma IssueKeepsSoon(cfg: Config, m: Machine, c: int, tried: bool)
    requires cfg.Valid() && m.Valid() && LiveMid(cfg, m, c, tried) && QueueOk(m.queue)
    requires SoonExamined(m, c, 3)
    ensures SoonExamined(TryIssue(cfg, m, c), c, 2)
  {
    if !Blocked(cfg, m) {
      ExaminedHead(cfg, m, c);
    }
  }

  lemma FetchKeepsCounted(m: Machine)
    requires m.Valid() && Counted(m)
    ensures Counted(FetchBytes(m))
  {
    var f := m.iq.fetchSize;
    SelfMultiple(f);
    if m.iq.len % f == 0 {
      MultipleSum(m.iq.len, f, f);
    }
    forall a: nat | At(m.iq, a)
      ensures At(m.iq.Fetch(), a)
    {
      MultipleSum(m.iq.len + a, f, f);
    }
  }
}
