// LR/SC and LDEX/STEX over whole histories: which earlier operation a successful
// conditional store owes its success to.
module Reservations {
  import opened MemoryModel
  import opened Board

  // ------------------------------------------------- the scoreboard's reservation

  /** A core request and whether it falls in an error segment. */
  datatype Seen = Seen(req: CoreReq, inError: bool)

  function After(h: seq<Seen>): Lrsc {
    if h == [] then RESET.lrsc else NextLrsc(After(h[..|h| - 1]), h[|h| - 1].req, h[|h| - 1].inError)
  }

  /** The access covers the 64-bit word reserved at `base`. */
  predicate Covers(req: CoreReq, base: nat) { AddrMatch(Lrsc(true, base), req.addr, req.bytes) }

  /** Ends the reservation made at `base`: any SC, or a store or AMO on the reserved word. */
  predicate Breaks(req: CoreReq, base: nat) {
    req.op.Sc? || ((req.op.Store? || req.op.AtomicMemory?) && Covers(req, base))
  }

  /** Request `i` is the most recent LR, outside error segments, and nothing after it broke it. */
  predicate Holds(h: seq<Seen>, i: nat) {
    && i < |h| && h[i].req.op.Lr? && !h[i].inError
    && (forall k :: i < k < |h| ==> !h[k].req.op.Lr? && !Breaks(h[k].req, h[i].req.addr))
  }

  lemma HoldsExtends(h: seq<Seen>, x: Seen, i: nat)
    requires i < |h|
    ensures Holds(h + [x], i) <==> Holds(h, i) && !x.req.op.Lr? && !Breaks(x.req, h[i].req.addr)
  {
    var g := h + [x];
    assert g[|h|] == x;
    assert forall k :: 0 <= k < |h| ==> g[k] == h[k];
    if Holds(g, i) {
      assert !g[|h|].req.op.Lr? && !Breaks(g[|h|].req, g[i].req.addr);
      forall k | i < k < |h|
        ensures !h[k].req.op.Lr? && !Breaks(h[k].req, h[i].req.addr)
      {
        assert !g[k].req.op.Lr? && !Breaks(g[k].req, g[i].req.addr);
      }
    }
  }

  /** The buffer is valid exactly when some LR still holds, and then it remembers that LR. */
  lemma {:induction false} BufferHistory(h: seq<Seen>)
    ensures After(h).valid <==> exists i :: 0 <= i < |h| && Holds(h, i)
    ensures forall i :: 0 <= i < |h| && Holds(h, i) ==> After(h).base == h[i].req.addr
  {
    if h != [] {
      var front, x := h[..|h| - 1], h[|h| - 1];
      BufferHistory(front);
      assert h == front + [x];
      forall i | 0 <= i < |front|
        ensures Holds(h, i) <==> Holds(front, i) && !x.req.op.Lr? && !Breaks(x.req, front[i].req.addr)
      {
        HoldsExtends(front, x, i);
      }
      assert Holds(h, |h| - 1) <==> x.req.op.Lr? && !x.inError;
      LrscStep(After(front), x);
      assert After(h) == NextLrsc(After(front), x.req, x.inError);
      if x.req.op.Lr? {
        hide *;
      } else {
        hide *;
        if After(front).valid {
          var i :| 0 <= i < |front| && Holds(front, i);
          assert Holds(h, i) <==> !Breaks(x.req, After(front).base);
        }
      }
    }
  }

  /** One request and a reservation buffer. */
  lemma LrscStep(r: Lrsc, x: Seen)
    ensures var r' := NextLrsc(r, x.req, x.inError);
            if x.req.op.Lr? then r'.valid == !x.inError && (r'.valid ==> r'.base == x.req.addr)
            else r'.base == r.base && (r'.valid <==> r.valid && !Breaks(x.req, r.base))
  {
  }

  /** The scoreboard after any events. */
  function BoardAfter(segs: seq<Segment>, events: seq<BoardEvent>): BoardState {
    if events == [] then RESET
    else OnEvent(BoardAfter(segs, events[..|events| - 1]), segs, events[|events| - 1])
  }

  /** The core requests among them, without those whose identifier was in flight. */
  function Requests(segs: seq<Segment>, events: seq<BoardEvent>): seq<Seen> {
    if events == [] then []
    else
      var front, x := events[..|events| - 1], events[|events| - 1];
      Requests(segs, front)
      + if x.CoreReqSeen? && x.coreReq.tid !in BoardAfter(segs, front).inflight
        then [Seen(x.coreReq, WithinErrorRegion(segs, x.coreReq.addr, x.coreReq.addr + x.coreReq.bytes))] else []
  }

  /** The reservation is a matter of the requests alone. */
  lemma {:induction false} ReservationOfRun(segs: seq<Segment>, events: seq<BoardEvent>)
    ensures BoardAfter(segs, events).lrsc == After(Requests(segs, events))
  {
    hide OnEvent, NextLrsc, WithinErrorRegion;
    if events != [] {
      var front, x := events[..|events| - 1], events[|events| - 1];
      ReservationOfRun(segs, front);
      ReservationStep(BoardAfter(segs, front), segs, x);
      if x.CoreReqSeen? && x.coreReq.tid !in BoardAfter(segs, front).inflight {
        OneMoreSeen(Requests(segs, front), Seen(x.coreReq, WithinErrorRegion(
          segs, x.coreReq.addr, x.coreReq.addr + x.coreReq.bytes)));
      } else {
        assert Requests(segs, events) == Requests(segs, front);
      }
    }
  }

  lemma OneMoreSeen(h: seq<Seen>, x: Seen)
    ensures After(h + [x]) == NextLrsc(After(h), x.req, x.inError)
  {
    assert (h + [x])[..|h|] == h;
    hide NextLrsc;
  }

  /** After any events, the scoreboard marks an SC atomic exactly when the most recent LR was outside
      error segments, its word is covered by the SC, and no SC and no covering store or AMO came in
      between. */
  lemma AtomicScHistory(segs: seq<Segment>, events: seq<BoardEvent>, sc: CoreReq)
    requires sc.op.Sc?
    ensures var h := Requests(segs, events);
            MakeEntry(BoardAfter(segs, events), segs, sc).isAtomic <==>
            exists i :: 0 <= i < |h| && Holds(h, i) && Covers(sc, h[i].req.addr)
  {
    var h := Requests(segs, events);
    ReservationOfRun(segs, events);
    BufferHistory(h);
    hide Holds, BoardAfter, Requests, After, ShadowData, ShadowValid, WithinErrorRegion;
  }

  /** For accesses inside a line of 64 bytes, covering is an interval of 64-bit words. */
  lemma CoversMeaning(req: CoreReq, base: nat)
    requires req.addr % 64 + req.bytes <= 64 && (req.bytes < 8 || req.bytes % 8 == 0)
    requires req.bytes >= 8 ==> req.addr % 8 == 0
    ensures Covers(req, base) <==>
            req.addr / 8 <= base / 8 < req.addr / 8 + (if req.bytes < 8 then 1 else req.bytes / 8)
  {
    assert req.addr / 8 == 8 * LineOf(req.addr) + WordInLine(req.addr);
    assert base / 8 == 8 * LineOf(base) + WordInLine(base);
    assert 0 <= WordInLine(base) < 8 && 0 <= WordInLine(req.addr) < 8;
  }

  // ------------------------------------------------ the memory's exclusive buffers

  datatype MemOp = Rd(read: ReadReq) | Wr(write: WriteReq)
  {
    predicate Valid() { Wr? ==> FitsFlit(write.addr, write.bytes) }
  }

  predicate ValidOps(h: seq<MemOp>) { forall k :: 0 <= k < |h| ==> h[k].Valid() }

  function Step(s: MemState, op: MemOp): (s': MemState)
    requires op.Valid()
    ensures s'.segs == s.segs
  {
    match op
    case Rd(r) => ReadOperation(s, r).state
    case Wr(w) => WriteOperation(s, w).state
  }

  function MemAfter(s: MemState, h: seq<MemOp>): (s': MemState)
    requires ValidOps(h)
    ensures s'.segs == s.segs
  {
    if h == [] then s else Step(MemAfter(s, h[..|h| - 1]), h[|h| - 1])
  }

  predicate NoError(segs: seq<Segment>, addr: nat, bytes: nat) { !WithinErrorRegion(segs, addr, addr + bytes) }

  /** A load-exclusive that made a reservation. */
  predicate Opens(segs: seq<Segment>, op: MemOp, id: nat) {
    op.Rd? && op.read.loadExclusive && op.read.id == id && NoError(segs, op.read.addr, op.read.bytes)
  }

  /** A store-exclusive that used one up. */
  predicate Closes(segs: seq<Segment>, op: MemOp, id: nat) {
    op.Wr? && op.write.kind.StoreExclusive? && op.write.id == id && NoError(segs, op.write.addr, op.write.bytes)
  }

  /** Operation `j` is a store-exclusive that the memory acknowledged as atomic. */
  predicate Succeeds(s: MemState, h: seq<MemOp>, j: nat)
    requires ValidOps(h)
  {
    j < |h| && h[j].Wr? && WriteOperation(MemAfter(s, h[..j]), h[j].write).write.isAtomic
  }

  /** Load-exclusive `k` is the last operation on its identifier before position `n`. */
  predicate Pending(segs: seq<Segment>, h: seq<MemOp>, k: nat, n: nat, id: nat)
    requires n <= |h|
  {
    && k < n && Opens(segs, h[k], id)
    && (forall l :: k < l < n ==> !Opens(segs, h[l], id) && !Closes(segs, h[l], id))
  }

  /** The address range that load-exclusive `k` reserves. */
  function Reserved(h: seq<MemOp>, k: nat): Reservation
    requires k < |h|
  {
    if h[k].Wr? then Reservation(false, 0, 0)
    else Reservation(true, h[k].read.addr, h[k].read.addr + h[k].read.bytes)
  }

  /** The buffer of an identifier is valid exactly when a load-exclusive is pending, and then it is its range. */
  lemma {:induction false} ExclHistory(s: MemState, h: seq<MemOp>, n: nat, id: nat)
    requires ValidOps(h) && n <= |h| && id !in s.excl
    ensures var e := MemAfter(s, h[..n]).Excl(id);
            && (e.valid <==> exists k :: 0 <= k < n && Pending(s.segs, h, k, n, id))
            && (forall k :: 0 <= k < n && Pending(s.segs, h, k, n, id) ==> e == Reserved(h, k))
    decreases n
  {
    if n > 0 {
      ExclHistory(s, h, n - 1, id);
      assert h[..n][..n - 1] == h[..n - 1];
      var before, op := MemAfter(s, h[..n - 1]), h[n - 1];
      assert MemAfter(s, h[..n]) == Step(before, op);
      ExclStep(before, op, id);
      forall k | 0 <= k < n
        ensures Pending(s.segs, h, k, n, id) <==> if k == n - 1 then Opens(s.segs, op, id)
                else Pending(s.segs, h, k, n - 1, id) && !Opens(s.segs, op, id) && !Closes(s.segs, op, id)
      {
        PendingStep(s.segs, h, k, n, id);
      }
      if Opens(s.segs, op, id) {
        hide *;
        assert Pending(s.segs, h, n - 1, n, id);
      } else if Closes(s.segs, op, id) {
        hide *;
      } else {
        hide *;
        if before.Excl(id).valid {
          var k :| 0 <= k < n - 1 && Pending(s.segs, h, k, n - 1, id);
          assert Pending(s.segs, h, k, n, id);
        }
      }
    }
  }

  lemma PendingStep(segs: seq<Segment>, h: seq<MemOp>, k: nat, n: nat, id: nat)
    requires k < n <= |h|
    ensures Pending(segs, h, k, n, id) <==> if k == n - 1 then Opens(segs, h[n - 1], id)
            else Pending(segs, h, k, n - 1, id) && !Opens(segs, h[n - 1], id) && !Closes(segs, h[n - 1], id)
  {
    hide Opens, Closes;
  }

  /** One operation and the reservation of one identifier. */
  lemma ExclStep(s: MemState, op: MemOp, id: nat)
    requires op.Valid()
    ensures var e, e' := s.Excl(id), Step(s, op).Excl(id);
            if Opens(s.segs, op, id) then
              e' == Reservation(true, op.read.addr, op.read.addr + op.read.bytes)
            else if Closes(s.segs, op, id) then !e'.valid
            else e' == e
  {
  }

  /** Load-exclusive `k` is pending for store-exclusive `j` and overlaps it. */
  predicate Grants(segs: seq<Segment>, h: seq<MemOp>, k: nat, j: nat)
    requires k < j < |h|
  {
    && h[j].Wr? && Pending(segs, h, k, j, h[j].write.id) && h[k].Rd?
    && Overlaps(h[j].write.addr, h[j].write.addr + h[j].write.bytes, Reserved(h, k).base, Reserved(h, k).end)
  }

  /** A store-exclusive succeeds exactly when it is outside error segments and an overlapping
      load-exclusive of its identifier came before it with no exclusive operation of that identifier in
      between. */
  lemma SucceedsIff(s: MemState, h: seq<MemOp>, j: nat)
    requires ValidOps(h) && s.excl == map[] && j < |h|
    ensures Succeeds(s, h, j) <==>
            && h[j].Wr? && h[j].write.kind.StoreExclusive? && NoError(s.segs, h[j].write.addr, h[j].write.bytes)
            && exists k :: 0 <= k < j && Grants(s.segs, h, k, j)
  {
    if h[j].Wr? {
      var id := h[j].write.id;
      ExclHistory(s, h, j, id);
      var before := MemAfter(s, h[..j]);
      AtomicAnswer(before, h[j].write);
      hide MemAfter, Pending, WriteOperation;
      if before.Excl(id).valid {
        var k :| 0 <= k < j && Pending(s.segs, h, k, j, id);
        PendingReads(s.segs, h, k, j, id);
        assert Grants(s.segs, h, k, j) <==>
               Overlaps(h[j].write.addr, h[j].write.addr + h[j].write.bytes, before.Excl(id).base, before.Excl(id).end);
      }
    }
  }

  lemma PendingReads(segs: seq<Segment>, h: seq<MemOp>, k: nat, n: nat, id: nat)
    requires n <= |h| && Pending(segs, h, k, n, id)
    ensures k < n && h[k].Rd? && Opens(segs, h[k], id)
  {
  }

  /** When the memory acknowledges a write as atomic. */
  lemma AtomicAnswer(s: MemState, req: WriteReq)
    requires FitsFlit(req.addr, req.bytes)
    ensures WriteOperation(s, req).write.isAtomic <==> ExclOk(s, req) && NoError(s.segs, req.addr, req.bytes)
  {
    hide WriteWords, AmoResult, AmoOld, WithinErrorRegion;
  }

  /** Each load-exclusive enables at most one successful store-exclusive: between two successes of
      an identifier there is a load-exclusive of that identifier. */
  lemma OneSuccessPerReservation(s: MemState, h: seq<MemOp>, i: nat, j: nat) returns (k: nat)
    requires ValidOps(h) && s.excl == map[] && i < j && Succeeds(s, h, i) && Succeeds(s, h, j)
    requires h[i].write.id == h[j].write.id
    ensures i < k < j && Opens(s.segs, h[k], h[j].write.id)
  {
    SucceedsIff(s, h, i);
    SucceedsIff(s, h, j);
    k :| 0 <= k < j && Grants(s.segs, h, k, j);
    PendingReads(s.segs, h, k, j, h[j].write.id);
    assert Closes(s.segs, h[i], h[i].write.id);
  }
}
