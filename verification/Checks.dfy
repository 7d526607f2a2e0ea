// What the scoreboard reports, from the requests and responses themselves and the
// bytes its shadow held when a request was seen.
module Checks {
  import opened Prelude
  import opened Bytes
  import opened MemoryModel
  import opened AmoLanes
  import opened Board

  // ------------------------------------------------------------ from events alone

  /** Any number of events after another. */
  function OnEvents(b: BoardState, segs: seq<Segment>, events: seq<BoardEvent>): BoardState {
    if events == [] then b
    else OnEvent(OnEvents(b, segs, events[..|events| - 1]), segs, events[|events| - 1])
  }

  /** No response to `tid` among the events. */
  predicate Unanswered(events: seq<BoardEvent>, tid: nat) {
    forall i :: 0 <= i < |events| ==> !(events[i].CoreRespSeen? && events[i].coreResp.tid == tid)
  }

  /** A request in flight stays as it is until a response to it. */
  lemma {:induction false} StaysInFlight(b: BoardState, segs: seq<Segment>, events: seq<BoardEvent>, tid: nat)
    requires tid in b.inflight && Unanswered(events, tid)
    ensures var c := OnEvents(b, segs, events);
            tid in c.inflight && c.inflight[tid] == b.inflight[tid]
  {
    if events != [] {
      var front, event := events[..|events| - 1], events[|events| - 1];
      assert Unanswered(front, tid);
      StaysInFlight(b, segs, front, tid);
      EventKeeps(OnEvents(b, segs, front), segs, event, tid);
      hide OnEvent;
    }
  }

  lemma EventKeeps(b: BoardState, segs: seq<Segment>, event: BoardEvent, tid: nat)
    requires tid in b.inflight && !(event.CoreRespSeen? && event.coreResp.tid == tid)
    ensures var c := OnEvent(b, segs, event); tid in c.inflight && c.inflight[tid] == b.inflight[tid]
  {
    hide OnCoreReq, OnCoreResp, OnMemReadReq, OnMemReadResp, OnMemWriteReq, OnMemWriteResp, WrongFlag, MakeEntry,
      FifoFull;
    match event
    case CoreReqSeen(req) => InflightAfterRequest(b, segs, req);
    case CoreRespSeen(resp) => ResponseFrame(b, resp);
    case _ =>
      MemoryFrame(b, segs, event);
      hide OnEvent;
  }

  /** The access touches an error segment. */
  predicate InRegion(segs: seq<Segment>, req: CoreReq) { WithinErrorRegion(segs, req.addr, req.addr + req.bytes) }

  /** The place of byte `k` of the accessed word in the shadow's 16 MiB. */
  function Place(addr: nat, k: nat): nat { (addr - addr % 8) % 0x100_0000 + k }

  /** Byte `k` of the word was known when the request was seen, and differs from the answer. */
  predicate Contradicted(b: BoardState, req: CoreReq, rdata: Word, k: nat)
    requires k < 8
  {
    && req.addr % 8 <= k < req.addr % 8 + req.bytes
    && Place(req.addr, k) in b.shadow && rdata[k] != b.shadow[Place(req.addr, k)]
  }

  /** Requests that the memory sees as atomic operations. */
  predicate NeedsFifo(b: BoardState, req: CoreReq) {
    req.op.Lr? || req.op.AtomicMemory? || (req.op.Sc? && AddrMatch(b.lrsc, req.addr, req.bytes))
  }

  /** The request is taken into the scoreboard, to be checked against its response. */
  predicate Taken(b: BoardState, req: CoreReq) {
    req.tid !in b.inflight && req.needRsp && (NeedsFifo(b, req) ==> |b.amoFifo| < 16)
  }

  /** A status word of four or eight bytes. */
  function Status(req: CoreReq, rdata: Word): nat {
    if req.bytes == 4 then Value(rdata) % 0x1_0000_0000 else Value(rdata)
  }

  /** What a response must look like to be reported, given the state in which its request was seen
      and whether the last memory write succeeded as an atomic one. */
  predicate Reported(b: BoardState, segs: seq<Segment>, req: CoreReq, scIsAtomic: bool, resp: CoreResp) {
    var matched := AddrMatch(b.lrsc, req.addr, req.bytes);
    match req.op
    case Store => false
    case Cmo(prefetch) => resp.error != (InRegion(segs, req) && prefetch)
    case Sc =>
      if InRegion(segs, req) && matched then !resp.error
      else resp.error || Status(req, resp.rdata) != if matched && scIsAtomic then 0 else 1
    case _ =>
      if InRegion(segs, req) then !resp.error
      else resp.error || exists k :: 0 <= k < 8 && Contradicted(b, req, resp.rdata, k)
  }

  /** A request that is taken, any events but its answer, then its answer: the scoreboard reports the
      answer exactly when it has the wrong error flag, or contradicts a byte that was known when the
      request was seen (loads, LR and AMO alike), or gives an SC the wrong status. */
  lemma AnswerReported(b: BoardState, segs: seq<Segment>, req: CoreReq, events: seq<BoardEvent>, resp: CoreResp)
    requires Taken(b, req) && Unanswered(events, req.tid) && resp.tid == req.tid
    ensures var c := OnEvents(OnCoreReq(b, segs, req), segs, events);
            OnCoreResp(c, resp).errors > c.errors <==> Reported(b, segs, req, c.scIsAtomic, resp)
  {
    hide OnCoreReq, OnCoreResp, OnEvents, Taken, AddrMatch, WithinErrorRegion, ShadowData, ShadowValid;
    TakenEntry(b, segs, req);
    StaysInFlight(OnCoreReq(b, segs, req), segs, events, req.tid);
    var c := OnEvents(OnCoreReq(b, segs, req), segs, events);
    EntryReported(b, segs, req, c, resp);
  }

  lemma TakenEntry(b: BoardState, segs: seq<Segment>, req: CoreReq)
    requires Taken(b, req)
    ensures var c := OnCoreReq(b, segs, req);
            req.tid in c.inflight && c.inflight[req.tid] == MakeEntry(b, segs, req)
  {
    hide OnCoreReq, AddrMatch, WithinErrorRegion, ShadowData, ShadowValid;
    InflightAfterRequest(b, segs, req);
  }

  lemma EntryReported(b: BoardState, segs: seq<Segment>, req: CoreReq, c: BoardState, resp: CoreResp)
    requires resp.tid == req.tid && req.tid in c.inflight && c.inflight[req.tid] == MakeEntry(b, segs, req)
    ensures OnCoreResp(c, resp).errors > c.errors <==> Reported(b, segs, req, c.scIsAtomic, resp)
  {
    hide OnCoreResp, AddrMatch, WithinErrorRegion, ShadowData, ShadowValid, WrongByte, Contradicted, Value;
    ResponseReported(c, resp);
    if ReadsData(req.op) && !InRegion(segs, req) {
      forall k | 0 <= k < 8
        ensures WrongByte(MakeEntry(b, segs, req), resp.rdata, k) == Contradicted(b, req, resp.rdata, k)
      {
        KnownByte(b, segs, req, resp.rdata, k);
      }
    }
  }

  lemma KnownByte(b: BoardState, segs: seq<Segment>, req: CoreReq, rdata: Word, k: nat)
    requires k < 8 && ReadsData(req.op) && !InRegion(segs, req)
    ensures WrongByte(MakeEntry(b, segs, req), rdata, k) == Contradicted(b, req, rdata, k)
  {
    hide AddrMatch, WithinErrorRegion;
    PlaceIsKey(req.addr, k);
    var e := MakeEntry(b, segs, req);
    assert e.rv[k] == (Key(Aligned(req.addr)) + k in b.shadow);
    hide Key, Aligned, Place;
  }

  lemma PlaceIsKey(addr: nat, k: nat)
    ensures Place(addr, k) == Key(Aligned(addr)) + k
  {
  }

  /** In particular: a wrong known byte of a load, an LR or an AMO is reported. */
  lemma WrongKnownByteReported(
    b: BoardState, segs: seq<Segment>, req: CoreReq, events: seq<BoardEvent>, resp: CoreResp, k: nat)
    requires Taken(b, req) && Unanswered(events, req.tid) && resp.tid == req.tid && !resp.error
    requires (req.op.Load? || req.op.Lr? || req.op.AtomicMemory?) && !InRegion(segs, req)
    requires k < 8 && req.addr % 8 <= k < req.addr % 8 + req.bytes
    requires Place(req.addr, k) in b.shadow && resp.rdata[k] != b.shadow[Place(req.addr, k)]
    ensures var c := OnEvents(OnCoreReq(b, segs, req), segs, events);
            OnCoreResp(c, resp).errors > c.errors
  {
    hide OnCoreReq, OnCoreResp, OnEvents, Taken, AddrMatch, WithinErrorRegion, Unanswered;
    AnswerReported(b, segs, req, events, resp);
    assert Contradicted(b, req, resp.rdata, k);
  }

  // --------------------------------------------------- what a request leaves behind

  /** Requests that no response was asked for are not followed at all when they are cache
      management operations. */
  predicate Followed(b: BoardState, req: CoreReq) {
    req.tid !in b.inflight && (req.op.Cmo? ==> req.needRsp) && (NeedsFifo(b, req) ==> |b.amoFifo| < 16)
  }

  /** A core request is reported exactly when its identifier is in use or the fifo of atomic operations
      has no room. */
  lemma RequestReported(b: BoardState, segs: seq<Segment>, req: CoreReq)
    ensures OnCoreReq(b, segs, req).errors
            == b.errors + (if req.tid in b.inflight || (NeedsFifo(b, req) && |b.amoFifo| >= 16) then 1 else 0)
  {
    FullIff(b, segs, req);
    hide ShadowWrite, AddrMatch, NextLrsc, WithinErrorRegion, FifoFull, NeedsFifo, MakeEntry, Forwarded;
    CmoNeedsNone(b, req);
  }

  lemma FullIff(b: BoardState, segs: seq<Segment>, req: CoreReq)
    ensures FifoFull(b, segs, req) <==> NeedsFifo(b, req) && |b.amoFifo| >= 16
    ensures Forwarded(MakeEntry(b, segs, req)) <==> NeedsFifo(b, req)
    ensures var e := MakeEntry(b, segs, req); e.req == req && (NeedsFifo(b, req) ==> e.isAtomic == req.op.Sc?)
  {
    hide AddrMatch, WithinErrorRegion, ShadowData, ShadowValid;
  }

  lemma CmoNeedsNone(b: BoardState, req: CoreReq)
    ensures req.op.Cmo? ==> !NeedsFifo(b, req)
  {
  }

  /** The operations that the memory sees as atomic are announced to it, in order. */
  lemma RequestAnnounced(b: BoardState, segs: seq<Segment>, req: CoreReq)
    ensures var c := OnCoreReq(b, segs, req);
            if Followed(b, req) && NeedsFifo(b, req)
            then |c.amoFifo| == |b.amoFifo| + 1 && c.amoFifo[..|b.amoFifo|] == b.amoFifo
                 && c.amoFifo[|b.amoFifo|].req == req && c.amoFifo[|b.amoFifo|].isAtomic == req.op.Sc?
            else c.amoFifo == b.amoFifo
  {
    FullIff(b, segs, req);
    hide ShadowWrite, AddrMatch, NextLrsc, WithinErrorRegion, FifoFull, NeedsFifo, MakeEntry, Forwarded;
  }

  /** The request is a store whose bytes the scoreboard takes over at once. */
  predicate Stored(b: BoardState, segs: seq<Segment>, req: CoreReq) {
    req.tid !in b.inflight && req.op.Store? && !InRegion(segs, req)
  }

  lemma RequestShadow(b: BoardState, segs: seq<Segment>, req: CoreReq)
    ensures OnCoreReq(b, segs, req).shadow
            == if Stored(b, segs, req) then ShadowWrite(b.shadow, req.addr, req.wdata, req.be, 8) else b.shadow
  {
    hide ShadowWrite, AddrMatch, NextLrsc, WithinErrorRegion, ShadowData, ShadowValid;
  }

  /** A store outside error segments makes its enabled bytes known; nothing else a core asks for
      changes the shadow before its response. */
  lemma StoreEffect(b: BoardState, segs: seq<Segment>, req: CoreReq, key: nat)
    ensures var c, k := OnCoreReq(b, segs, req), key - Place(req.addr, 0);
            if Stored(b, segs, req) && 0 <= k < 8 && req.be[k] then key in c.shadow && c.shadow[key] == req.wdata[k]
            else (key in c.shadow <==> key in b.shadow) && (key in b.shadow ==> c.shadow[key] == b.shadow[key])
  {
    RequestShadow(b, segs, req);
    ShadowWriteMeaning(b.shadow, req.addr, req.wdata, req.be, 8, key);
    hide ShadowWrite, OnCoreReq, WithinErrorRegion;
  }

  /** The status of an SC whose request found the reservation, after a successful memory write. */
  predicate ScSucceeds(b: BoardState, e: Entry) { e.req.op.Sc? && !e.isError && e.isAtomic && b.scIsAtomic }

  /** A response makes known the bytes of an SC that succeeded and the result of an AMO; no other
      response changes the shadow. */
  lemma ResponseEffect(b: BoardState, resp: CoreResp, key: nat)
    requires resp.tid in b.inflight && resp.error == b.inflight[resp.tid].isError
    ensures var c, e := OnCoreResp(b, resp), b.inflight[resp.tid];
            var k := key - Place(e.req.addr, 0);
            var data := if e.req.op.AtomicMemory?
                        then BoardResult(e.req.op.amo, resp.rdata, e.req.wdata, e.req.addr, e.req.bytes)
                        else e.req.wdata;
            if (ScSucceeds(b, e) || (e.req.op.AtomicMemory? && !e.isError)) && 0 <= k < 8 && e.req.be[k]
            then key in c.shadow && c.shadow[key] == data[k]
            else (key in c.shadow <==> key in b.shadow) && (key in b.shadow ==> c.shadow[key] == b.shadow[key])
  {
    var e := b.inflight[resp.tid];
    var data := if e.req.op.AtomicMemory?
                then BoardResult(e.req.op.amo, resp.rdata, e.req.wdata, e.req.addr, e.req.bytes)
                else e.req.wdata;
    ShadowWriteMeaning(b.shadow, e.req.addr, data, e.req.be, 8, key);
    hide ShadowWrite, BoardResult, WrongBytes, ScStatus;
  }

  // ------------------------------------------------------------ the memory's side

  /** The byte of the shadow is one of the request's. */
  predicate Requested(span: Span, k: int) { span.addr % 8 <= k < span.addr % 8 + span.bytes && k < 8 }

  /** A memory read response is reported exactly when its identifier is not pending; without error
      it makes the bytes of its request known that were not, as they are in its lane, and no other. */
  lemma ReadResponseEffect(b: BoardState, resp: ReadResp, key: nat)
    ensures var c := OnMemReadResp(b, resp);
            && c.errors == b.errors + (if resp.id in b.memReads then 0 else 1)
            && c.memReads == b.memReads - {resp.id}
    ensures var c := OnMemReadResp(b, resp);
            if resp.id !in b.memReads || resp.error then c.shadow == b.shadow
            else
              var span := b.memReads[resp.id];
              var k := key - Place(span.addr, 0);
              if key !in b.shadow && 0 <= k && Requested(span, k)
              then key in c.shadow && c.shadow[key] == resp.data[(span.addr / 8) % 8][k]
              else (key in c.shadow <==> key in b.shadow) && (key in b.shadow ==> c.shadow[key] == b.shadow[key])
  {
    if resp.id in b.memReads && !resp.error {
      var span := b.memReads[resp.id];
      ShadowWriteMeaning(b.shadow, span.addr, resp.data[Lane(span.addr / 8)], Unset(b.shadow, span.addr, span.bytes), 8,
                         key);
    }
    hide ShadowWrite;
  }

  /** A memory read request is reported when its identifier is pending, and a load-exclusive unless
      exactly one atomic operation waits; it uses that one up. */
  lemma ReadRequestEffect(b: BoardState, req: ReadReq)
    ensures var c := OnMemReadReq(b, req);
            && (c.errors > b.errors <==> req.id in b.memReads || (req.loadExclusive && |b.amoFifo| != 1))
            && c.memReads.Keys == b.memReads.Keys + {req.id}
            && (req.id !in b.memReads ==> c.memReads[req.id] == Span(req.addr, req.bytes))
            && (forall id :: id in b.memReads ==> c.memReads[id] == b.memReads[id])
            && c.amoFifo == (if req.id !in b.memReads && req.loadExclusive && |b.amoFifo| > 0
                             then b.amoFifo[1..] else b.amoFifo)
  {
  }

  /** Some core request in flight lies in the 64-byte line of `addr`. */
  predicate LineAsked(b: BoardState, addr: nat) {
    exists tid :: tid in b.inflight && b.inflight[tid].req.addr / 64 == addr / 64
  }

  /** A memory write request is reported when its identifier is pending, and an atomic one unless exactly
      one atomic operation waits, with a reservation behind it for a store-exclusive, and a core
      request is in flight on its line. */
  lemma WriteRequestReported(b: BoardState, req: WriteReq)
    ensures OnMemWriteReq(b, req).errors > b.errors <==>
              || req.id in b.memWrites
              || (!req.kind.PlainWrite?
                  && (|b.amoFifo| != 1 || !LineAsked(b, req.addr)
                      || (req.kind.StoreExclusive? && !b.amoFifo[0].isAtomic)))
  {
    LineIff(b, b.(memWrites := b.memWrites + {req.id}), req.addr);
    hide HasCoreReq, LineAsked, Insert;
  }

  lemma LineIff(b: BoardState, c: BoardState, addr: nat)
    ensures forall d: BoardState | d.inflight == b.inflight :: HasCoreReq(d, addr) == LineAsked(b, addr)
  {
  }

  /** ... and uses up the atomic operation that waited first; an AMO also awaits read data. */
  lemma WriteRequestEffect(b: BoardState, req: WriteReq)
    ensures var c := OnMemWriteReq(b, req);
            var first := req.id !in b.memWrites && !req.kind.PlainWrite? && |b.amoFifo| > 0;
            && c.memWrites == b.memWrites + {req.id}
            && c.amoFifo == (if first then b.amoFifo[1..] else b.amoFifo)
            && c.memReads == (if first && req.kind.AtomicOp? && req.id !in b.memReads
                              then b.memReads[req.id := Span(req.addr, req.bytes)] else b.memReads)
  {
    if req.id !in b.memWrites && !req.kind.PlainWrite? && |b.amoFifo| > 0 {
      var b1 := b.(memWrites := b.memWrites + {req.id});
      var b2 := if |b.amoFifo| > 1 then b1.Report(1) else b1;
      AtomicWriteEffect(b2.(amoFifo := b.amoFifo[1..]), req, b.amoFifo[0]);
    }
    hide AtomicWriteReq;
  }

  lemma AtomicWriteEffect(b: BoardState, req: WriteReq, head: Entry)
    ensures var c := AtomicWriteReq(b, req, head);
            && c.memWrites == b.memWrites && c.amoFifo == b.amoFifo
            && c.memReads == (if req.kind.AtomicOp? && req.id !in b.memReads
                              then b.memReads[req.id := Span(req.addr, req.bytes)] else b.memReads)
  {
    hide HasCoreReq;
  }

  /** A memory write response is reported exactly when its identifier is not pending; it tells whether
      the store-exclusive succeeded. */
  lemma WriteResponseEffect(b: BoardState, resp: WriteResp)
    ensures var c := OnMemWriteResp(b, resp);
            && c.errors == b.errors + (if resp.id in b.memWrites then 0 else 1)
            && c.memWrites == b.memWrites - {resp.id}
            && c.scIsAtomic == if resp.id in b.memWrites then resp.isAtomic else b.scIsAtomic
  {
  }
}
