// The memory response model and the scoreboard as objects updated in place, each
// process body one method, proved equal to the functions of MemoryModel and Board.
module TestBench {
  import opened Prelude
  import opened Bytes
  import opened MemoryModel
  import opened AmoLanes
  import opened Board

  class MemRespModel {
    var words: map<nat, Word>
    const init: nat -> Word
    var excl: map<nat, Reservation>
    var errorsegs: seq<Segment>

    function View(): MemState
      reads this
    {
      MemState(Memory(words, init), excl, errorsegs)
    }

    constructor (init: nat -> Word)
      ensures View() == MemState(Memory(map[], init), map[], [])
    {
      this.init := init;
      words := map[];
      excl := map[];
      errorsegs := [];
    }

    method AddErrorSegment(s: Segment)
      modifies this`errorsegs
      ensures errorsegs == old(errorsegs) + [s]
    {
      errorsegs := errorsegs + [s];
    }

    method InErrorRegion(base: nat, end: nat) returns (error: bool)
      ensures error == WithinErrorRegion(errorsegs, base, end)
    {
      for k := 0 to |errorsegs|
        invariant WithinErrorRegion(errorsegs, base, end) == WithinErrorRegion(errorsegs[k..], base, end)
      {
        if Overlaps(errorsegs[k].base, errorsegs[k].end, base, end) {
          return errorsegs[k].error;
        }
        assert errorsegs[k..][1..] == errorsegs[k + 1..];
      }
      return false;
    }

    method ReadMemory(wordAddr: nat) returns (data: Word)
      ensures data == View().memory.Read(wordAddr)
    {
      data := if wordAddr in words then words[wordAddr] else init(wordAddr);
    }

    method WriteMemory(wordAddr: nat, data: Word, be: Enables)
      modifies this`words
      ensures View().memory == old(View().memory).Write(wordAddr, data, be)
    {
      var before := ReadMemory(wordAddr);
      words := words[wordAddr := Merge(before, data, be)];
    }

    /** readOperation */
    method Read(req: ReadReq) returns (resp: ReadResp)
      modifies this`excl
      ensures View() == ReadOperation(old(View()), req).state && resp == ReadOperation(old(View()), req).resp
    {
      var error := InErrorRegion(req.addr, req.addr + req.bytes);
      if error {
        return ReadResp(req.id, true, NO_DATA);
      }
      if req.loadExclusive {
        excl := excl[req.id := Reservation(true, req.addr, req.addr + req.bytes)];
      }
      var data := NO_DATA;
      hide Words, WithinErrorRegion, Memory.Read;
      for w := 0 to Words(req.bytes)
        invariant View() == Reserve(old(View()), req)
        invariant data == GatherWords(View().memory, req.addr / 8, w, NO_DATA)
      {
        var wordAddr := req.addr / 8 + w;
        var word := ReadMemory(wordAddr);
        data := data[wordAddr % NOC_WORDS := word];
      }
      return ReadResp(req.id, false, data);
    }

    /** writeOperation */
    method Write(req: WriteReq) returns (write: WriteResp, read: Option<ReadResp>)
      requires FitsFlit(req.addr, req.bytes)
      modifies this`excl, this`words
      ensures WriteOutcome(View(), write, read) == WriteOperation(old(View()), req)
    {
      FlitIff(req.addr, req.bytes);
      hide FitsFlit, Words;
      var end := req.addr + req.bytes;
      var wordAddr := req.addr / 8;
      var exclOk := false;
      read := None;
      var error := InErrorRegion(req.addr, end);
      if error {
        if req.kind.AtomicOp? {
          read := Some(ReadResp(req.id, false, NO_DATA));
        }
        return WriteResp(req.id, true, false), read;
      }
      if req.kind.StoreExclusive? && req.id in excl && excl[req.id].valid {
        exclOk := Overlaps(req.addr, end, excl[req.id].base, excl[req.id].end);
        excl := excl[req.id := Reservation(false, excl[req.id].base, excl[req.id].end)];
      }
      var amoResult: Option<Word> := None;
      var lane := wordAddr % NOC_WORDS;
      var before := ReadMemory(wordAddr);
      if req.kind.AtomicOp? {
        amoResult := Some(AmoResult(req.kind.amo, before, req.data[lane], req.addr, req.bytes));
      }
      if !req.kind.StoreExclusive? || exclOk {
        WriteLoop(req, wordAddr, amoResult);
        if req.kind.AtomicOp? {
          read := Some(ReadResp(req.id, false, NO_DATA[lane := AmoOld(before, req.addr, req.bytes)]));
        }
      }
      write := WriteResp(req.id, false, req.kind.StoreExclusive? && exclOk);
    }

    method WriteLoop(req: WriteReq, wordAddr: nat, amoResult: Option<Word>)
      requires Lane(wordAddr) + Words(req.bytes) <= NOC_WORDS
      modifies this`words
      ensures View().memory == WriteWords(old(View().memory), wordAddr, Words(req.bytes), req, amoResult)
    {
      ghost var before := View().memory;
      hide WriteOne, Words;
      for w := 0 to Words(req.bytes)
        invariant View().memory == WriteWords(before, wordAddr, w, req, amoResult)
      {
        WriteLane(req, wordAddr + w, wordAddr % NOC_WORDS + w, amoResult);
      }
    }

    /** One turn of the write loop. */
    method WriteLane(req: WriteReq, wordAddr: nat, i: nat, amoResult: Option<Word>)
      requires i < NOC_WORDS
      modifies this`words
      ensures View().memory == WriteOne(old(View().memory), wordAddr, req, amoResult, i)
    {
      hide Merge;
      var be := req.be[i];
      if be != NO_BYTES {
        WriteMemory(wordAddr, if amoResult.Some? then amoResult.value else req.data[i], be);
      }
    }
  }

  class Scoreboard {
    var shadow: map<nat, Byte>
    var lrsc: Lrsc
    var inflight: map<nat, Entry>
    var amoFifo: seq<Entry>
    var memReads: map<nat, Span>
    var memWrites: set<nat>
    var scIsAtomic: bool
    var errors: nat

    function View(): BoardState
      reads this
    {
      BoardState(shadow, lrsc, inflight, amoFifo, memReads, memWrites, scIsAtomic, errors)
    }

    /** In-flight accesses lie inside their word. */
    ghost predicate Valid()
      reads this
    {
      forall tid :: tid in inflight ==> inflight[tid].req.addr % 8 + inflight[tid].req.bytes <= 8
    }

    constructor ()
      ensures View() == RESET && Valid()
    {
      shadow, lrsc, inflight, amoFifo := map[], Lrsc(false, 0), map[], [];
      memReads, memWrites, scIsAtomic, errors := map[], {}, false, 0;
    }

    method PrintError()
      modifies this`errors
      ensures errors == old(errors) + 1
    {
      errors := errors + 1;
    }

    /** ram_model::write on one word */
    method WriteShadow(addr: nat, data: Word, be: Enables)
      modifies this`shadow
      ensures shadow == ShadowWrite(old(shadow), addr, data, be, 8)
    {
      var off := (addr - addr % 8) % SHADOW_BYTES;
      ghost var before := shadow;
      for i := 0 to 8
        invariant shadow == ShadowWrite(before, addr, data, be, i)
      {
        if be[i] {
          shadow := shadow[off + i := data[i]];
        }
      }
    }

    /** core_req_process */
    method CoreRequest(segs: seq<Segment>, req: CoreReq)
      requires Valid() && req.addr % 8 + req.bytes <= 8
      modifies this
      ensures Valid() && View() == OnCoreReq(old(View()), segs, req)
    {
      if req.tid in inflight {
        PrintError();
        return;
      }
      if req.op.Cmo? && !req.needRsp {
        return;
      }
      var inRegion := WithinErrorRegion(segs, req.addr, req.addr + req.bytes);
      var e := Entry(req, (!req.op.Cmo? || req.op.prefetch) && inRegion, false, ZERO_WORD, NO_BYTES);
      if !e.isError && ReadsData(req.op) {
        e := e.(rdata := ShadowData(shadow, req.addr), rv := ShadowValid(shadow, req.addr));
      }
      hide ShadowData, ShadowValid, WithinErrorRegion, ShadowWrite;
      e := UpdateReservation(e, inRegion);
      hide AddrMatch, NextLrsc;
      assert e == MakeEntry(old(View()), segs, req);
      if Forwarded(e) {
        if |amoFifo| >= FIFO_SIZE {
          PrintError();
          return;
        }
        amoFifo := amoFifo + [e];
      }
      if req.op.Store? && !e.isError {
        WriteShadow(req.addr, req.wdata, req.be);
      }
      if req.needRsp {
        inflight := inflight[req.tid := e];
      }
    }

    /** The part of core_req_process that looks after the reservation of LR and SC. */
    method UpdateReservation(entry: Entry, inRegion: bool) returns (e: Entry)
      requires entry.isError ==> inRegion
      requires entry.req.op.Lr? || entry.req.op.Sc? ==> (entry.isError <==> inRegion)
      requires !entry.isAtomic
      modifies this`lrsc
      ensures lrsc == NextLrsc(old(lrsc), entry.req, inRegion)
      ensures var matched := AddrMatch(old(lrsc), entry.req.addr, entry.req.bytes);
              e == if entry.req.op.Sc? then entry.(isError := entry.isError && matched, isAtomic := matched) else entry
    {
      var req := entry.req;
      e := entry;
      if req.op.Lr? {
        if !e.isError {
          lrsc := Lrsc(true, req.addr);
        } else {
          lrsc := lrsc.(valid := false);
        }
      }
      if req.op.AtomicMemory? || req.op.Sc? || req.op.Store? {
        var addrMatch := AddrMatch(lrsc, req.addr, req.bytes);
        if req.op.Sc? {
          e := e.(isError := e.isError && addrMatch, isAtomic := addrMatch);
        }
        if addrMatch || req.op.Sc? {
          lrsc := lrsc.(valid := false);
        }
      }
    }

    /** The data check: one report for each known byte of the access that is wrong. */
    method CheckBytes(e: Entry, rdata: Word)
      requires e.req.addr % 8 + e.req.bytes <= 8
      modifies this`errors
      ensures errors == old(errors) + WrongBytes(e, rdata, 8)
    {
      var byte := e.req.addr % 8;
      NoneOutside(e, rdata, byte);
      for i := byte to byte + e.req.bytes
        invariant errors == old(errors) + WrongBytes(e, rdata, i)
      {
        if e.rv[i] {
          if rdata[i] != e.rdata[i] {
            PrintError();
          }
        }
      }
      NoneAbove(e, rdata, byte + e.req.bytes, 8);
    }

    /** core_resp_process */
    method CoreResponse(resp: CoreResp)
      requires Valid()
      modifies this
      ensures Valid() && View() == OnCoreResp(old(View()), resp)
    {
      if resp.tid !in inflight {
        PrintError();
        return;
      }
      var e := inflight[resp.tid];
      if !e.req.op.Store? && resp.error != e.isError {
        PrintError();
        return;
      }
      if !e.isError {
        if e.req.op.Sc? {
          var scResp := ScStatus(e, resp.rdata);
          var scOk := e.isAtomic && scIsAtomic;
          if scOk {
            WriteShadow(e.req.addr, e.req.wdata, e.req.be);
            if scResp != 0 {
              PrintError();
            }
          } else if scResp != 1 {
            PrintError();
          }
        }
        if ReadsData(e.req.op) {
          CheckBytes(e, resp.rdata);
          if e.req.op.AtomicMemory? {
            var result := BoardResult(e.req.op.amo, resp.rdata, e.req.wdata, e.req.addr, e.req.bytes);
            WriteShadow(e.req.addr, result, e.req.be);
          }
        }
      }
      inflight := inflight - {resp.tid};
    }

    method CheckFifo()
      modifies this`errors
      ensures errors == old(errors) + (if |amoFifo| > 1 then 1 else 0)
    {
      if |amoFifo| > 1 {
        PrintError();
      }
    }

    /** mem_read_req_process */
    method MemReadRequest(req: ReadReq)
      modifies this`errors, this`memReads, this`amoFifo
      ensures View() == OnMemReadReq(old(View()), req)
    {
      if req.id in memReads {
        PrintError();
        return;
      }
      memReads := memReads[req.id := Span(req.addr, req.bytes)];
      if req.loadExclusive {
        CheckFifo();
        if |amoFifo| == 0 {
          PrintError();
          return;
        }
        amoFifo := amoFifo[1..];
      }
    }

    /** mem_read_resp_process, by intent */
    method MemReadResponse(resp: ReadResp)
      modifies this`errors, this`memReads, this`shadow
      ensures View() == OnMemReadResp(old(View()), resp)
    {
      if resp.id !in memReads {
        PrintError();
        return;
      }
      if !resp.error {
        var span := memReads[resp.id];
        WriteShadow(span.addr, resp.data[Lane(span.addr / 8)], Unset(shadow, span.addr, span.bytes));
      }
      memReads := memReads - {resp.id};
    }

    /** mem_write_req_process */
    method MemWriteRequest(req: WriteReq)
      modifies this`errors, this`memReads, this`memWrites, this`amoFifo
      ensures View() == OnMemWriteReq(old(View()), req)
    {
      if req.id in memWrites {
        PrintError();
        return;
      }
      memWrites := memWrites + {req.id};
      if !req.kind.PlainWrite? {
        CheckFifo();
        if |amoFifo| == 0 {
          PrintError();
          return;
        }
        var head := amoFifo[0];
        amoFifo := amoFifo[1..];
        ghost var popped := View();
        if req.kind.StoreExclusive? && !head.isAtomic {
          PrintError();
          return;
        }
        var found := FindCoreRequest(req.addr);
        if !found {
          PrintError();
        }
        if req.kind.AtomicOp? && req.id !in memReads {
          memReads := memReads[req.id := Span(req.addr, req.bytes)];
        }
        assert View() == AtomicWriteReq(popped, req, head);
      }
    }

    /** The search for a core request on the line of a memory request. */
    method FindCoreRequest(addr: nat) returns (found: bool)
      ensures found <==> HasCoreReq(View(), addr)
    {
      var keys := inflight.Keys;
      while keys != {}
        invariant keys <= inflight.Keys
        invariant HasCoreReq(View(), addr) <==>
                  exists tid :: tid in keys && LineOf(inflight[tid].req.addr) == LineOf(addr)
        decreases keys
      {
        var tid :| tid in keys;
        if LineOf(inflight[tid].req.addr) == LineOf(addr) {
          return true;
        }
        keys := keys - {tid};
      }
      return false;
    }

    /** mem_write_resp_process */
    method MemWriteResponse(resp: WriteResp)
      modifies this`errors, this`memWrites, this`scIsAtomic
      ensures View() == OnMemWriteResp(old(View()), resp)
    {
      if resp.id !in memWrites {
        PrintError();
        return;
      }
      scIsAtomic := resp.isAtomic;
      memWrites := memWrites - {resp.id};
    }
  }

  lemma {:induction false} NoneOutside(e: Entry, rdata: Word, n: nat)
    requires n <= 8 && n <= e.req.addr % 8
    ensures WrongBytes(e, rdata, n) == 0
    decreases n
  {
    if n > 0 {
      NoneOutside(e, rdata, n - 1);
    }
  }

  lemma {:induction false} NoneAbove(e: Entry, rdata: Word, from: nat, n: nat)
    requires e.req.addr % 8 + e.req.bytes <= from <= n <= 8
    ensures WrongBytes(e, rdata, n) == WrongBytes(e, rdata, from)
    decreases n
  {
    if from < n {
      NoneAbove(e, rdata, from, n - 1);
    }
  }
}
