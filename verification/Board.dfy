// The scoreboard of the HPDcache test bench as functions on its state, one for
// each of its processes. TestBench.dfy holds the updating class. A core request
// carries one 64-bit word, the default width of hpdcache_test_defs.h.
module Board {
  import opened Prelude
  import opened Bytes
  import opened Amo
  import opened MemoryModel
  import opened AmoLanes

  /** SCOREBOARD_RAM_SIZE */
  const SHADOW_BYTES: nat := 0x100_0000

  /** Bytes of a cache line: 8 words of 64 bits. */
  const LINE_BYTES: nat := 64

  /** Capacity of an sc_fifo built without a size. */
  const FIFO_SIZE: nat := 16

  datatype CoreOp = Load | Store | Lr | Sc | AtomicMemory(amo: CoreAmo) | Cmo(prefetch: bool)

  datatype CoreReq = CoreReq(op: CoreOp, tid: nat, addr: nat, bytes: nat, wdata: Word, be: Enables, needRsp: bool)

  datatype CoreResp = CoreResp(tid: nat, error: bool, rdata: Word)

  // inflight_entry_t; `rdata` and `rv` are the expected bytes and which of them are known.
  datatype Entry = Entry(req: CoreReq, isError: bool, isAtomic: bool, rdata: Word, rv: Enables)

  datatype Lrsc = Lrsc(valid: bool, base: nat)

  // The address and size that inflight_mem_entry_t keeps of a memory request.
  datatype Span = Span(addr: nat, bytes: nat)

  datatype BoardState = BoardState(
    shadow: map<nat, Byte>, lrsc: Lrsc, inflight: map<nat, Entry>, amoFifo: seq<Entry>,
    memReads: map<nat, Span>, memWrites: set<nat>, scIsAtomic: bool, errors: nat)
  {
    function Report(n: nat): BoardState { this.(errors := errors + n) }
  }

  const RESET: BoardState := BoardState(map[], Lrsc(false, 0), map[], [], map[], {}, false, 0)

  // ------------------------------------------------------------------- shadow

  function Aligned(addr: nat): nat { addr - addr % 8 }

  /** ram_model addresses its arrays modulo their size. */
  function Key(addr: nat): nat { addr % SHADOW_BYTES }

  /** ram_model::write on one word, the first `n` bytes. */
  function ShadowWrite(shadow: map<nat, Byte>, addr: nat, data: Word, be: Enables, n: nat): map<nat, Byte>
    requires n <= 8
  {
    if n == 0 then shadow
    else
      var s := ShadowWrite(shadow, addr, data, be, n - 1);
      if be[n - 1] then s[Key(Aligned(addr)) + n - 1 := data[n - 1]] else s
  }

  /** ram_model::read on one word: its bytes (zero when never written) and which are set. */
  function ShadowData(shadow: map<nat, Byte>, addr: nat): Word {
    seq(8, k requires 0 <= k < 8 =>
      if Key(Aligned(addr)) + k in shadow then shadow[Key(Aligned(addr)) + k] else 0)
  }

  function ShadowValid(shadow: map<nat, Byte>, addr: nat): Enables {
    seq(8, k requires 0 <= k < 8 => Key(Aligned(addr)) + k in shadow)
  }

  // ---------------------------------------------------- reservation of LR and SC

  function LineOf(addr: nat): nat { addr / LINE_BYTES }

  function WordInLine(addr: nat): nat { (addr % LINE_BYTES) / 8 }

  /** addr_match of core_req_process. */
  predicate AddrMatch(r: Lrsc, addr: nat, bytes: nat) {
    var words := if bytes < 8 then 1 else bytes / 8;
    && r.valid && LineOf(r.base) == LineOf(addr)
    && WordInLine(addr) <= WordInLine(r.base) < WordInLine(addr) + words
  }

  /** The reservation buffer after a core request. */
  function NextLrsc(r: Lrsc, req: CoreReq, inErrorRegion: bool): Lrsc {
    match req.op
    case Load => r
    case Cmo(_) => r
    case Lr => if inErrorRegion then r.(valid := false) else Lrsc(true, req.addr)
    case Sc => r.(valid := false)
    case Store => if AddrMatch(r, req.addr, req.bytes) then r.(valid := false) else r
    case AtomicMemory(_) => if AddrMatch(r, req.addr, req.bytes) then r.(valid := false) else r
  }

  // ------------------------------------------------------------ core processes

  predicate ReadsData(op: CoreOp) { op.Load? || op.Lr? || op.AtomicMemory? }

  function MakeEntry(b: BoardState, segs: seq<Segment>, req: CoreReq): Entry {
    var inRegion := WithinErrorRegion(segs, req.addr, req.addr + req.bytes);
    var matched := AddrMatch(b.lrsc, req.addr, req.bytes);
    var known := ReadsData(req.op) && !inRegion;
    Entry(req, inRegion && (req.op.Sc? ==> matched) && (req.op.Cmo? ==> req.op.prefetch), req.op.Sc? && matched,
          if known then ShadowData(b.shadow, req.addr) else ZERO_WORD,
          if known then ShadowValid(b.shadow, req.addr) else NO_BYTES)
  }

  predicate Forwarded(e: Entry) { e.req.op.AtomicMemory? || e.req.op.Lr? || (e.req.op.Sc? && e.isAtomic) }

  /** An atomic operation for the memory finds no room in the fifo that announces it. */
  predicate FifoFull(b: BoardState, segs: seq<Segment>, req: CoreReq) {
    Forwarded(MakeEntry(b, segs, req)) && |b.amoFifo| >= FIFO_SIZE
  }

  /** A cache management operation without response, which the scoreboard does not follow. */
  predicate Untracked(req: CoreReq) { req.op.Cmo? && !req.needRsp }

  /** core_req_process */
  function OnCoreReq(b: BoardState, segs: seq<Segment>, req: CoreReq): BoardState {
    if req.tid in b.inflight then b.Report(1)
    else if Untracked(req) then b
    else
      var e := MakeEntry(b, segs, req);
      var b1 := b.(lrsc := NextLrsc(b.lrsc, req, WithinErrorRegion(segs, req.addr, req.addr + req.bytes)));
      if FifoFull(b, segs, req) then b1.Report(1)
      else Accept(if Forwarded(e) then b1.(amoFifo := b1.amoFifo + [e]) else b1, e)
  }

  function Accept(b: BoardState, e: Entry): BoardState {
    var b1 := if e.req.op.Store? && !e.isError
              then b.(shadow := ShadowWrite(b.shadow, e.req.addr, e.req.wdata, e.req.be, 8)) else b;
    if e.req.needRsp then b1.(inflight := b1.inflight[e.req.tid := e]) else b1
  }

  predicate WrongByte(e: Entry, rdata: Word, k: nat)
    requires k < 8
  {
    Covered(k, e.req.addr, e.req.bytes) && e.rv[k] && rdata[k] != e.rdata[k]
  }

  /** Reports of the data check, over the first `n` bytes of the word. */
  function WrongBytes(e: Entry, rdata: Word, n: nat): nat
    requires n <= 8
  {
    if n == 0 then 0 else WrongBytes(e, rdata, n - 1) + (if WrongByte(e, rdata, n - 1) then 1 else 0)
  }

  /** The status word of an SC response, cut to the access size. */
  function ScStatus(e: Entry, rdata: Word): nat {
    if e.req.bytes == 4 then Value(rdata) % TWO32 else Value(rdata)
  }

  predicate ScOk(b: BoardState, e: Entry) { e.isAtomic && b.scIsAtomic }

  /** The checks of core_resp_process on a response without error, and its shadow update. */
  function CheckData(b: BoardState, e: Entry, rdata: Word): BoardState {
    match e.req.op
    case Sc =>
      if ScOk(b, e) then
        b.(shadow := ShadowWrite(b.shadow, e.req.addr, e.req.wdata, e.req.be, 8))
         .Report(if ScStatus(e, rdata) != 0 then 1 else 0)
      else b.Report(if ScStatus(e, rdata) != 1 then 1 else 0)
    case Load => b.Report(WrongBytes(e, rdata, 8))
    case Lr => b.Report(WrongBytes(e, rdata, 8))
    case AtomicMemory(amo) =>
      b.(shadow := ShadowWrite(b.shadow, e.req.addr,
                               BoardResult(amo, rdata, e.req.wdata, e.req.addr, e.req.bytes), e.req.be, 8))
       .Report(WrongBytes(e, rdata, 8))
    case Store => b
    case Cmo(_) => b
  }

  /** A response whose error flag is not the expected one; stores are not checked. */
  predicate WrongFlag(e: Entry, resp: CoreResp) { !e.req.op.Store? && resp.error != e.isError }

  /** core_resp_process */
  function OnCoreResp(b: BoardState, resp: CoreResp): BoardState {
    if resp.tid !in b.inflight then b.Report(1)
    else
      var e := b.inflight[resp.tid];
      if WrongFlag(e, resp) then b.Report(1)
      else
        var b1 := if e.isError then b else CheckData(b, e, resp.rdata);
        b1.(inflight := b1.inflight - {resp.tid})
  }

  // ---------------------------------------------------------- memory processes

  /** A core request in flight on the line of a memory request. */
  predicate HasCoreReq(b: BoardState, addr: nat) {
    exists tid :: tid in b.inflight && LineOf(b.inflight[tid].req.addr) == LineOf(addr)
  }

  /** mem_read_req_process */
  function OnMemReadReq(b: BoardState, req: ReadReq): BoardState {
    if req.id in b.memReads then b.Report(1)
    else
      var b1 := b.(memReads := b.memReads[req.id := Span(req.addr, req.bytes)]);
      if !req.loadExclusive then b1
      else
        var b2 := if |b1.amoFifo| > 1 then b1.Report(1) else b1;
        if |b2.amoFifo| == 0 then b2.Report(1) else b2.(amoFifo := b2.amoFifo[1..])
  }

  /** The unset bytes of the shadow that a memory read covers. */
  function Unset(shadow: map<nat, Byte>, addr: nat, bytes: nat): Enables {
    seq(8, k requires 0 <= k < 8 => Covered(k, addr, bytes) && Key(Aligned(addr)) + k !in shadow)
  }

  /** The shadow after a response without error to a request of at most a word, by intent: the bytes
      of the request that are not set yet take the data of their lane. */
  function Refill(shadow: map<nat, Byte>, span: Span, data: Flit): map<nat, Byte> {
    ShadowWrite(shadow, span.addr, data[Lane(span.addr / 8)], Unset(shadow, span.addr, span.bytes), 8)
  }

  /** mem_read_resp_process, for reads and for the read response of an AMO. */
  function OnMemReadResp(b: BoardState, resp: ReadResp): BoardState {
    if resp.id !in b.memReads then b.Report(1)
    else
      var b1 := if resp.error then b else b.(shadow := Refill(b.shadow, b.memReads[resp.id], resp.data));
      b1.(memReads := b1.memReads - {resp.id})
  }

  /** mem_write_req_process */
  function OnMemWriteReq(b: BoardState, req: WriteReq): BoardState {
    if req.id in b.memWrites then b.Report(1)
    else
      var b1 := b.(memWrites := b.memWrites + {req.id});
      if req.kind.PlainWrite? then b1
      else
        var b2 := if |b1.amoFifo| > 1 then b1.Report(1) else b1;
        if |b2.amoFifo| == 0 then b2.Report(1)
        else AtomicWriteReq(b2.(amoFifo := b2.amoFifo[1..]), req, b2.amoFifo[0])
  }

  /** std::map::insert keeps an element that is there. */
  function Insert(m: map<nat, Span>, id: nat, span: Span): map<nat, Span> {
    if id in m then m else m[id := span]
  }

  function AtomicWriteReq(b: BoardState, req: WriteReq, head: Entry): BoardState {
    var orphan := if HasCoreReq(b, req.addr) then 0 else 1;
    if req.kind.AtomicOp? then b.(memReads := Insert(b.memReads, req.id, Span(req.addr, req.bytes))).Report(orphan)
    else if !head.isAtomic then b.Report(1)
    else b.Report(orphan)
  }

  /** mem_write_resp_process */
  function OnMemWriteResp(b: BoardState, resp: WriteResp): BoardState {
    if resp.id !in b.memWrites then b.Report(1)
    else b.(scIsAtomic := resp.isAtomic, memWrites := b.memWrites - {resp.id})
  }

  // ------------------------------------------------------------------- events

  /** What the processes of the scoreboard react to. */
  datatype BoardEvent =
    | CoreReqSeen(coreReq: CoreReq)
    | CoreRespSeen(coreResp: CoreResp)
    | MemReadReqSeen(readReq: ReadReq)
    | MemReadRespSeen(readResp: ReadResp)
    | MemWriteReqSeen(writeReq: WriteReq)
    | MemWriteRespSeen(writeResp: WriteResp)
  {
    predicate FromMemory() { !CoreReqSeen? && !CoreRespSeen? }
  }

  function OnEvent(b: BoardState, segs: seq<Segment>, event: BoardEvent): BoardState {
    match event
    case CoreReqSeen(req) => OnCoreReq(b, segs, req)
    case CoreRespSeen(resp) => OnCoreResp(b, resp)
    case MemReadReqSeen(req) => OnMemReadReq(b, req)
    case MemReadRespSeen(resp) => OnMemReadResp(b, resp)
    case MemWriteReqSeen(req) => OnMemWriteReq(b, req)
    case MemWriteRespSeen(resp) => OnMemWriteResp(b, resp)
  }

  /** Only core requests touch the reservation, and duplicates do not. */
  lemma ReservationStep(b: BoardState, segs: seq<Segment>, event: BoardEvent)
    ensures OnEvent(b, segs, event).lrsc
            == if event.CoreReqSeen? && event.coreReq.tid !in b.inflight
               then NextLrsc(b.lrsc, event.coreReq,
                             WithinErrorRegion(segs, event.coreReq.addr, event.coreReq.addr + event.coreReq.bytes))
               else b.lrsc
  {
    match event
    case CoreReqSeen(req) => ReservationAfterRequest(b, segs, req);
    case CoreRespSeen(resp) => ResponseFrame(b, resp);
    case _ => MemoryFrame(b, segs, event);
  }

  lemma ReservationAfterRequest(b: BoardState, segs: seq<Segment>, req: CoreReq)
    ensures OnCoreReq(b, segs, req).lrsc
            == if req.tid !in b.inflight
               then NextLrsc(b.lrsc, req, WithinErrorRegion(segs, req.addr, req.addr + req.bytes)) else b.lrsc
  {
    hide ShadowWrite, MakeEntry, WithinErrorRegion, Forwarded, FifoFull, AddrMatch, NextLrsc;
    CmoKeepsReservation(b.lrsc, req, WithinErrorRegion(segs, req.addr, req.addr + req.bytes));
  }

  lemma CmoKeepsReservation(r: Lrsc, req: CoreReq, inErrorRegion: bool)
    ensures req.op.Cmo? ==> NextLrsc(r, req, inErrorRegion) == r
  {
  }

  /** What a core request does to the table of requests in flight. */
  lemma InflightAfterRequest(b: BoardState, segs: seq<Segment>, req: CoreReq)
    ensures OnCoreReq(b, segs, req).inflight
            == if req.tid !in b.inflight && !FifoFull(b, segs, req) && req.needRsp
               then b.inflight[req.tid := MakeEntry(b, segs, req)] else b.inflight
  {
    hide ShadowWrite, ShadowData, ShadowValid, AddrMatch, NextLrsc, WithinErrorRegion, Forwarded;
  }

  lemma ResponseFrame(b: BoardState, resp: CoreResp)
    ensures OnCoreResp(b, resp).lrsc == b.lrsc
    ensures OnCoreResp(b, resp).inflight
            == if resp.tid in b.inflight && !WrongFlag(b.inflight[resp.tid], resp)
               then b.inflight - {resp.tid} else b.inflight
  {
    hide ShadowWrite, BoardResult, WrongBytes, ScStatus, WrongFlag;
  }

  lemma MemoryFrame(b: BoardState, segs: seq<Segment>, event: BoardEvent)
    requires event.FromMemory()
    ensures OnEvent(b, segs, event).inflight == b.inflight && OnEvent(b, segs, event).lrsc == b.lrsc
  {
    match event
    case MemWriteReqSeen(req) => WriteReqFrame(b, req);
    case MemReadReqSeen(req) => ReadReqFrame(b, req);
    case _ =>
      hide Refill, OnMemWriteReq, OnMemReadReq, OnCoreReq, OnCoreResp;
  }

  lemma WriteReqFrame(b: BoardState, req: WriteReq)
    ensures OnMemWriteReq(b, req).inflight == b.inflight && OnMemWriteReq(b, req).lrsc == b.lrsc
  {
    hide HasCoreReq, Insert;
  }

  lemma ReadReqFrame(b: BoardState, req: ReadReq)
    ensures OnMemReadReq(b, req).inflight == b.inflight && OnMemReadReq(b, req).lrsc == b.lrsc
  {
  }

  // ------------------------------------------------------------- what they mean

  /** A shadow write touches exactly the enabled bytes of its word. */
  lemma {:induction false} ShadowWriteMeaning(
    shadow: map<nat, Byte>, addr: nat, data: Word, be: Enables, n: nat, key: nat)
    requires n <= 8
    ensures var k := key - Key(Aligned(addr));
            var s := ShadowWrite(shadow, addr, data, be, n);
            if 0 <= k < n && be[k] then key in s && s[key] == data[k]
            else (key in s <==> key in shadow) && (key in shadow ==> s[key] == shadow[key])
    decreases n
  {
    if n > 0 {
      ShadowWriteMeaning(shadow, addr, data, be, n - 1, key);
    }
  }

  /** The data check reports nothing exactly when every known covered byte is right. */
  lemma {:induction false} WrongBytesMeaning(e: Entry, rdata: Word, n: nat)
    requires n <= 8
    ensures WrongBytes(e, rdata, n) == 0 <==> forall k :: 0 <= k < n ==> !WrongByte(e, rdata, k)
    decreases n
  {
    if n > 0 {
      WrongBytesMeaning(e, rdata, n - 1);
    }
  }

  /** Every wrong response is reported and no right one is: the reports of core_resp_process on a
      known identifier increase exactly on a wrong error flag, or without error on a wrong known
      byte of a load, LR or AMO, or on an SC status that contradicts the outcome. */
  lemma ResponseReported(b: BoardState, resp: CoreResp)
    requires resp.tid in b.inflight
    ensures var e := b.inflight[resp.tid];
            OnCoreResp(b, resp).errors > b.errors <==>
              || (!e.req.op.Store? && resp.error != e.isError)
              || (!e.isError && ReadsData(e.req.op) && exists k :: 0 <= k < 8 && WrongByte(e, resp.rdata, k))
              || (!e.isError && e.req.op.Sc? && ScStatus(e, resp.rdata) != if ScOk(b, e) then 0 else 1)
  {
    WrongBytesMeaning(b.inflight[resp.tid], resp.rdata, 8);
  }
}
