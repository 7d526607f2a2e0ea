// The golden-model agreement: core operations executed one at a time by a
// transparent cache against the memory model, watched by the scoreboard.
module Golden {
  import opened Prelude
  import opened Bytes
  import opened Amo
  import opened MemoryModel
  import opened AmoLanes
  import opened Board

  datatype Sys = Sys(mem: MemState, board: BoardState)

  predicate IsSize(n: nat) { n == 1 || n == 2 || n == 4 || n == 8 }

  /** The naturally aligned address of an access of `n` bytes that covers byte `a`. */
  function Base(a: nat, n: nat): nat {
    if n == 2 then a - a % 2 else if n == 4 then a - a % 4 else if n == 8 then a - a % 8 else a
  }

  /** What the test sequences send: naturally aligned accesses inside a 64-bit word, byte enables
      inside the access (exactly it for AMOs), atomics of 4 or 8 bytes with a response. */
  predicate WellFormed(req: CoreReq) {
    && IsSize(req.bytes) && req.addr == Base(req.addr, req.bytes)
    && (forall k :: 0 <= k < 8 && req.be[k] ==> Covered(k, req.addr, req.bytes))
    && (req.op.AtomicMemory? ==> EnablesMatch(req.be, req.addr, req.bytes))
    && (Atomic(req.op) ==> req.bytes >= 4 && req.needRsp)
  }

  predicate Atomic(op: CoreOp) { op.Lr? || op.Sc? || op.AtomicMemory? }

  // ------------------------------------------------------- the transparent cache

  const ID: nat := 0

  function ReadFor(req: CoreReq): ReadReq { ReadReq(req.addr, req.bytes, ID, req.op.Lr?) }

  /** The core word in its lane of the flit, other lanes disabled. */
  function WriteFor(req: CoreReq): WriteReq {
    var lane := Lane(req.addr / 8);
    WriteReq(req.addr, req.bytes, ID,
             match req.op
             case AtomicMemory(amo) => AtomicOp(ToMemory(amo))
             case Sc => StoreExclusive
             case _ => PlainWrite,
             NO_DATA[lane := match req.op
                             case AtomicMemory(amo) => SentData(amo, req.wdata)
                             case _ => req.wdata],
             DISABLED[lane := req.be])
  }

  const DISABLED: FlitEnables :=
    [NO_BYTES, NO_BYTES, NO_BYTES, NO_BYTES, NO_BYTES, NO_BYTES, NO_BYTES, NO_BYTES]

  lemma WordFitsFlit(addr: nat, bytes: nat)
    requires bytes <= 8
    ensures FitsFlit(addr, bytes)
  {
  }

  /** A load, LR or prefetch that goes to memory. */
  function ReadThrough(s: Sys, req: CoreReq): Sys {
    var r := ReadFor(req);
    var out := ReadOperation(s.mem, r);
    var b := OnMemReadResp(OnMemReadReq(s.board, r), out.resp);
    Sys(out.state, Respond(b, req, CoreResp(req.tid, out.resp.error, out.resp.data[Lane(req.addr / 8)])))
  }

  /** A load that hits: the cache returns what memory holds. */
  function ReadHit(s: Sys, req: CoreReq): Sys {
    Sys(s.mem, Respond(s.board, req, CoreResp(req.tid, false, s.mem.memory.Read(req.addr / 8))))
  }

  function Respond(b: BoardState, req: CoreReq, resp: CoreResp): BoardState {
    if req.needRsp then OnCoreResp(b, resp) else b
  }

  /** The data of the core response to a write. */
  function WriteData(req: CoreReq, out: WriteOutcome): Word {
    if req.op.Sc? then Status(if out.write.isAtomic then 0 else 1)
    else if out.read.Some? then out.read.value.data[Lane(req.addr / 8)]
    else ZERO_WORD
  }

  function Status(code: Byte): Word { [code, 0, 0, 0, 0, 0, 0, 0] }

  /** A store, a forwarded SC or an AMO. */
  function WriteThrough(s: Sys, req: CoreReq): Sys
    requires FitsFlit(req.addr, req.bytes)
  {
    var w := WriteFor(req);
    var out := WriteOperation(s.mem, w);
    var b := OnMemWriteReq(s.board, w);
    var b1 := OnMemWriteResp(if out.read.Some? then OnMemReadResp(b, out.read.value) else b, out.write);
    Sys(out.state, Respond(b1, req, CoreResp(req.tid, out.write.error, WriteData(req, out))))
  }

  /** An SC without reservation is answered by the cache alone. */
  function ScFails(s: Sys, req: CoreReq): Sys {
    Sys(s.mem, Respond(s.board, req, CoreResp(req.tid, false, Status(1))))
  }

  /** A cache management operation that concerns the cache alone. */
  function CacheOnly(s: Sys, req: CoreReq): Sys { Sys(s.mem, Respond(s.board, req, CoreResp(req.tid, false, ZERO_WORD))) }

  /** One core operation from request to response; `hit` lets the cache serve a load. */
  function Transact(s: Sys, req: CoreReq, hit: bool): Sys
    requires req.bytes <= 8
  {
    WordFitsFlit(req.addr, req.bytes);
    var s1 := Sys(s.mem, OnCoreReq(s.board, s.mem.segs, req));
    match req.op
    case Load =>
      if hit && !WithinErrorRegion(s.mem.segs, req.addr, req.addr + req.bytes) then ReadHit(s1, req)
      else ReadThrough(s1, req)
    case Lr => ReadThrough(s1, req)
    case Sc => if AddrMatch(s.board.lrsc, req.addr, req.bytes) then WriteThrough(s1, req) else ScFails(s1, req)
    case Store => WriteThrough(s1, req)
    case AtomicMemory(_) => WriteThrough(s1, req)
    case Cmo(prefetch) => if prefetch then ReadThrough(s1, req) else CacheOnly(s1, req)
  }

  // ------------------------------------------------------- which bytes can be compared

  /** The naturally aligned access of `n` bytes that covers byte `a` falls in an error segment. */
  predicate Errs(segs: seq<Segment>, a: nat, n: nat) { WithinErrorRegion(segs, Base(a, n), Base(a, n) + n) }

  /** Some access to byte `a` is answered without error. */
  predicate Readable(segs: seq<Segment>, a: nat) {
    !Errs(segs, a, 1) || !Errs(segs, a, 2) || !Errs(segs, a, 4) || !Errs(segs, a, 8)
  }

  /** Some AMO on byte `a` is answered with an error: its read response claims that the byte is zero. */
  predicate Tainted(segs: seq<Segment>, a: nat) { Errs(segs, a, 4) || Errs(segs, a, 8) }

  predicate Within(a: nat, u: set<nat>) { a / 8 in u }

  /** No two comparable bytes of the words `u` share a place in the scoreboard's RAM. */
  ghost predicate NoClash(segs: seq<Segment>, u: set<nat>) {
    forall a: nat, b: nat ::
      Within(a, u) && Within(b, u) && Readable(segs, a) && Readable(segs, b) && Key(a) == Key(b) ==> a == b
  }

  /** Where an erroring AMO can leave a zero, the comparable byte is zero in memory. */
  ghost predicate TaintHarmless(m: Memory, segs: seq<Segment>, u: set<nat>) {
    forall a: nat, b: nat ::
      Within(a, u) && Within(b, u) && Tainted(segs, a) && Readable(segs, b) && Key(a) == Key(b) ==> m.ByteAt(b) == 0
  }

  /** What a run is about: the memory it started from, the error segments, the words it uses. */
  datatype Scope = Scope(start: Memory, segs: seq<Segment>, u: set<nat>)
  {
    ghost predicate Sound() { NoClash(segs, u) && TaintHarmless(start, segs, u) }

    predicate Comparable(a: nat) { Within(a, u) && Readable(segs, a) }

    /** Every byte that an access with these enables touches is comparable. */
    predicate Touches(addr: nat, be: Enables) {
      addr / 8 in u && forall k :: 0 <= k < 8 && be[k] ==> Readable(segs, Aligned(addr) + k)
    }
  }

  // --------------------------------------------------------------- the invariant

  predicate Idle(b: BoardState) {
    b.inflight == map[] && b.amoFifo == [] && b.memReads == map[] && b.memWrites == {}
  }

  /** A comparable byte is the memory's byte once the shadow knows it, and was never written before. */
  predicate ByteAgrees(shadow: map<nat, Byte>, m: Memory, start: Memory, a: nat) {
    if Key(a) in shadow then shadow[Key(a)] == m.ByteAt(a) else m.ByteAt(a) == start.ByteAt(a)
  }

  ghost predicate Agree(shadow: map<nat, Byte>, m: Memory, c: Scope) {
    forall a: nat :: c.Comparable(a) ==> ByteAgrees(shadow, m, c.start, a)
  }

  ghost predicate Quiet(s: Sys, c: Scope) {
    Idle(s.board) && s.mem.segs == c.segs && Agree(s.board.shadow, s.mem.memory, c)
  }

  /** Addresses of a word and their keys. */
  lemma KeyInWord(a: nat)
    ensures Key(Aligned(a)) + a % 8 == Key(a) && Aligned(a) == 8 * (a / 8)
  {
  }

  lemma ByteOfWord(addr: nat, k: nat)
    requires k < 8
    ensures var a := Aligned(addr) + k;
            a / 8 == addr / 8 && a % 8 == k && Aligned(a) == Aligned(addr) && Key(a) == Key(Aligned(addr)) + k
  {
    KeyInWord(Aligned(addr) + k);
  }

  /** A key in the word of `addr` belongs to one of its bytes. */
  lemma KeyHits(a: nat, addr: nat)
    requires 0 <= Key(a) - Key(Aligned(addr)) < 8
    ensures Key(a) == Key(Aligned(addr) + (Key(a) - Key(Aligned(addr))))
  {
    ByteOfWord(addr, Key(a) - Key(Aligned(addr)));
  }

  /** A covered byte of a naturally aligned access is covered by the aligned access of that size. */
  lemma CoveredAccess(addr: nat, bytes: nat, k: nat)
    requires IsSize(bytes) && addr == Base(addr, bytes) && Covered(k, addr, bytes)
    ensures Base(Aligned(addr) + k, bytes) == addr
  {
    var q, r := addr / 8, addr % 8;
    assert addr == 8 * q + r && Aligned(addr) == 8 * q;
    BaseInWord(q, r, bytes);
    BaseInWord(q, k, bytes);
    SameBase(r, k, bytes);
  }

  /** The aligned address inside a word. */
  lemma BaseInWord(q: nat, r: nat, n: nat)
    requires r < 8 && IsSize(n)
    ensures Base(8 * q + r, n) == 8 * q + Base(r, n)
    ensures Base(r, n) <= r < Base(r, n) + n <= 8 && Base(Base(r, n), n) == Base(r, n)
  {
    if n == 2 {
      RemainderUnique(8 * q + r, 2, 4 * q + r / 2, r % 2);
    } else if n == 4 {
      RemainderUnique(8 * q + r, 4, 2 * q + r / 4, r % 4);
    } else if n == 8 {
      RemainderUnique(8 * q + r, 8, q, r);
    }
  }

  lemma SameBase(r: nat, k: nat, n: nat)
    requires r < 8 && IsSize(n) && Base(r, n) == r && r <= k < r + n
    ensures k < 8 && Base(k, n) == r
  {
  }

  /** An access without error touches comparable bytes; an AMO with error, tainted ones. */
  lemma CoveredBytes(segs: seq<Segment>, req: CoreReq, k: nat)
    requires WellFormed(req) && Covered(k, req.addr, req.bytes)
    ensures var a := Aligned(req.addr) + k; var error := WithinErrorRegion(segs, req.addr, req.addr + req.bytes);
            (!error ==> Readable(segs, a)) && (error && req.bytes >= 4 ==> Tainted(segs, a))
  {
    CoveredAccess(req.addr, req.bytes, k);
  }

  lemma TouchesCovered(c: Scope, req: CoreReq, be: Enables)
    requires WellFormed(req) && req.addr / 8 in c.u && !WithinErrorRegion(c.segs, req.addr, req.addr + req.bytes)
    requires forall k :: 0 <= k < 8 && be[k] ==> Covered(k, req.addr, req.bytes)
    ensures c.Touches(req.addr, be)
  {
    forall k | 0 <= k < 8 && be[k]
      ensures Readable(c.segs, Aligned(req.addr) + k)
    {
      CoveredBytes(c.segs, req, k);
    }
  }

  /** The expected bytes of a load are those of memory. */
  lemma ExpectedIsMemory(shadow: map<nat, Byte>, m: Memory, c: Scope, addr: nat, k: nat)
    requires Agree(shadow, m, c) && addr / 8 in c.u && k < 8 && ShadowValid(shadow, addr)[k]
    requires Readable(c.segs, Aligned(addr) + k)
    ensures ShadowData(shadow, addr)[k] == m.Read(addr / 8)[k]
  {
    ByteOfWord(addr, k);
    assert c.Comparable(Aligned(addr) + k);
  }

  /** The words around a write that stays inside one word. */
  ghost predicate WordUpdate(m: Memory, m': Memory, addr: nat, data: Word, be: Enables) {
    && (forall a: nat :: a / 8 != addr / 8 ==> m'.ByteAt(a) == m.ByteAt(a))
    && (forall k :: 0 <= k < 8 ==> m'.Read(addr / 8)[k] == if be[k] then data[k] else m.Read(addr / 8)[k])
  }

  lemma UpdatedByte(m: Memory, m': Memory, addr: nat, data: Word, be: Enables, a: nat)
    requires WordUpdate(m, m', addr, data, be)
    ensures m'.ByteAt(a) == if a / 8 == addr / 8 && be[a % 8] then data[a % 8] else m.ByteAt(a)
  {
  }

  /** Writing the same bytes on both sides keeps the agreement. */
  lemma SameWriteAgrees(
    shadow: map<nat, Byte>, m: Memory, m': Memory, c: Scope, addr: nat, data: Word, be: Enables)
    requires NoClash(c.segs, c.u) && c.Touches(addr, be) && Agree(shadow, m, c)
    requires WordUpdate(m, m', addr, data, be)
    ensures Agree(ShadowWrite(shadow, addr, data, be, 8), m', c)
  {
    forall a: nat | c.Comparable(a)
      ensures ByteAgrees(ShadowWrite(shadow, addr, data, be, 8), m', c.start, a)
    {
      SameByteAgrees(shadow, m, m', c, addr, data, be, a);
    }
  }

  lemma SameByteAgrees(
    shadow: map<nat, Byte>, m: Memory, m': Memory, c: Scope, addr: nat, data: Word, be: Enables, a: nat)
    requires NoClash(c.segs, c.u) && c.Touches(addr, be) && Agree(shadow, m, c)
    requires WordUpdate(m, m', addr, data, be) && c.Comparable(a)
    ensures ByteAgrees(ShadowWrite(shadow, addr, data, be, 8), m', c.start, a)
  {
    assert ByteAgrees(shadow, m, c.start, a);
    ShadowWriteMeaning(shadow, addr, data, be, 8, Key(a));
    UpdatedByte(m, m', addr, data, be, a);
    hide ShadowWrite, WordUpdate, Memory.ByteAt, Readable;
    var k := Key(a) - Key(Aligned(addr));
    if 0 <= k < 8 && be[k] {
      KeyHits(a, addr);
      ByteOfWord(addr, k);
      assert Within(Aligned(addr) + k, c.u);
      assert a == Aligned(addr) + k;
    } else if a / 8 == addr / 8 {
      ByteOfWord(addr, a % 8);
      KeyInWord(a);
      KeyInWord(addr);
    }
  }

  /** Filling unset bytes with the memory's keeps the agreement. */
  lemma RefillAgrees(shadow: map<nat, Byte>, m: Memory, c: Scope, req: CoreReq, data: Flit)
    requires NoClash(c.segs, c.u) && req.addr / 8 in c.u && WellFormed(req) && Agree(shadow, m, c)
    requires !WithinErrorRegion(c.segs, req.addr, req.addr + req.bytes)
    requires forall k :: 0 <= k < 8 && Covered(k, req.addr, req.bytes) ==>
               data[Lane(req.addr / 8)][k] == m.Read(req.addr / 8)[k]
    ensures Agree(Refill(shadow, Span(req.addr, req.bytes), data), m, c)
  {
    var be := Unset(shadow, req.addr, req.bytes);
    TouchesCovered(c, req, be);
    SameWriteAgrees(shadow, m, m, c, req.addr, data[Lane(req.addr / 8)], be);
  }

  predicate Zero(w: Word) { forall k :: 0 <= k < 8 ==> w[k] == 0 }

  /** The zero of an erroring AMO only reaches bytes that are zero or cannot be compared. */
  lemma TaintAgrees(shadow: map<nat, Byte>, m: Memory, c: Scope, req: CoreReq, data: Flit)
    requires c.Sound() && req.addr / 8 in c.u && WellFormed(req) && req.bytes >= 4 && Agree(shadow, m, c)
    requires Zero(data[Lane(req.addr / 8)])
    requires WithinErrorRegion(c.segs, req.addr, req.addr + req.bytes)
    ensures Agree(Refill(shadow, Span(req.addr, req.bytes), data), m, c)
  {
    forall a: nat | c.Comparable(a)
      ensures ByteAgrees(Refill(shadow, Span(req.addr, req.bytes), data), m, c.start, a)
    {
      TaintedByteAgrees(shadow, m, c, req, data, a);
    }
  }

  lemma TaintedByteAgrees(shadow: map<nat, Byte>, m: Memory, c: Scope, req: CoreReq, data: Flit, a: nat)
    requires c.Sound() && req.addr / 8 in c.u && WellFormed(req) && req.bytes >= 4 && Agree(shadow, m, c)
    requires Zero(data[Lane(req.addr / 8)])
    requires WithinErrorRegion(c.segs, req.addr, req.addr + req.bytes) && c.Comparable(a)
    ensures ByteAgrees(Refill(shadow, Span(req.addr, req.bytes), data), m, c.start, a)
  {
    assert ByteAgrees(shadow, m, c.start, a);
    ShadowWriteMeaning(shadow, req.addr, data[Lane(req.addr / 8)], Unset(shadow, req.addr, req.bytes), 8, Key(a));
    hide ShadowWrite, Memory.ByteAt, Readable, Tainted, WellFormed, WithinErrorRegion, Agree, NoClash;
    var k := Key(a) - Key(Aligned(req.addr));
    if 0 <= k < 8 && Unset(shadow, req.addr, req.bytes)[k] {
      TaintedKey(c, req, a);
    }
  }

  /** A comparable byte whose place an erroring AMO can reach was zero at the start. */
  lemma TaintedKey(c: Scope, req: CoreReq, a: nat)
    requires c.Sound() && req.addr / 8 in c.u && WellFormed(req) && req.bytes >= 4 && c.Comparable(a)
    requires WithinErrorRegion(c.segs, req.addr, req.addr + req.bytes)
    requires var k := Key(a) - Key(Aligned(req.addr)); 0 <= k < 8 && Covered(k, req.addr, req.bytes)
    ensures c.start.ByteAt(a) == 0
  {
    var k := Key(a) - Key(Aligned(req.addr));
    KeyHits(a, req.addr);
    ByteOfWord(req.addr, k);
    CoveredBytes(c.segs, req, k);
    hide Memory.ByteAt, Readable, Tainted, WellFormed, WithinErrorRegion, NoClash;
    assert Within(Aligned(req.addr) + k, c.u);
  }

  // ------------------------------------------------------------ stage by stage

  /** The board of an idle test bench after it has seen a request. */
  function Pending(b: BoardState, e: Entry, segs: seq<Segment>): BoardState {
    if Untracked(e.req) then b
    else BoardState(
      if e.req.op.Store? && !e.isError then ShadowWrite(b.shadow, e.req.addr, e.req.wdata, e.req.be, 8) else b.shadow,
      NextLrsc(b.lrsc, e.req, WithinErrorRegion(segs, e.req.addr, e.req.addr + e.req.bytes)),
      if e.req.needRsp then map[e.req.tid := e] else map[],
      if Forwarded(e) then [e] else [], map[], {}, b.scIsAtomic, b.errors)
  }

  /** What does not depend on the shadow in the entry of a load, store, LR or AMO, or a prefetch. */
  lemma EntryFacts(b: BoardState, segs: seq<Segment>, req: CoreReq)
    requires !req.op.Sc? && (req.op.Cmo? ==> req.op.prefetch)
    ensures var e := MakeEntry(b, segs, req);
            e.req == req && e.isError == WithinErrorRegion(segs, req.addr, req.addr + req.bytes)
  {
    hide WithinErrorRegion, ShadowData, ShadowValid, AddrMatch;
  }

  lemma RequestSeen(b: BoardState, segs: seq<Segment>, req: CoreReq)
    requires Idle(b)
    ensures OnCoreReq(b, segs, req) == Pending(b, MakeEntry(b, segs, req), segs)
  {
    hide ShadowWrite, ShadowData, ShadowValid, NextLrsc, WithinErrorRegion;
  }

  /** A response that the checks accept ends the transaction. */
  lemma Answered(b: BoardState, e: Entry, resp: CoreResp)
    requires resp.tid == e.req.tid && b.inflight == (if e.req.needRsp then map[e.req.tid := e] else map[])
    requires e.req.op.Store? || resp.error == e.isError
    ensures var b' := Respond(b, e.req, resp);
            if e.req.needRsp then
              b' == (if e.isError then b else CheckData(b, e, resp.rdata)).(inflight := map[])
            else b' == b
  {
    if e.req.needRsp {
      assert map[e.req.tid := e] - {e.req.tid} == map[];
    }
  }

  lemma ReadStage(b: BoardState, e: Entry, req: ReadReq, resp: ReadResp)
    requires b.memReads == map[] && req.id == ID && resp.id == ID
    requires b.amoFifo == (if req.loadExclusive then [e] else [])
    ensures OnMemReadResp(OnMemReadReq(b, req), resp)
            == b.(amoFifo := [],
                  shadow := if resp.error then b.shadow else Refill(b.shadow, Span(req.addr, req.bytes), resp.data))
  {
    hide Refill;
    assert [e][1..] == [];
    assert map[ID := Span(req.addr, req.bytes)] - {ID} == map[];
  }

  /** The data check has nothing to report on the bytes of memory. */
  lemma RightData(b: BoardState, m: Memory, c: Scope, e: Entry, rdata: Word)
    requires Agree(b.shadow, m, c) && WellFormed(e.req) && e.req.addr / 8 in c.u
    requires !WithinErrorRegion(c.segs, e.req.addr, e.req.addr + e.req.bytes)
    requires e.rdata == ShadowData(b.shadow, e.req.addr) && e.rv == ShadowValid(b.shadow, e.req.addr)
    requires forall k :: 0 <= k < 8 && Covered(k, e.req.addr, e.req.bytes) ==> rdata[k] == m.Read(e.req.addr / 8)[k]
    ensures WrongBytes(e, rdata, 8) == 0
  {
    hide Readable;
    forall k | 0 <= k < 8
      ensures !WrongByte(e, rdata, k)
    {
      if Covered(k, e.req.addr, e.req.bytes) && e.rv[k] {
        CoveredBytes(c.segs, e.req, k);
        ExpectedIsMemory(b.shadow, m, c, e.req.addr, k);
      }
    }
    WrongBytesMeaning(e, rdata, 8);
  }

  /** A read of at most a word returns that word. */
  lemma WordRead(s: MemState, req: ReadReq)
    requires req.bytes <= 8
    ensures var out := ReadOperation(s, req);
            && out.state.memory == s.memory && out.state.segs == s.segs && out.resp.id == req.id
            && out.resp.error == WithinErrorRegion(s.segs, req.addr, req.addr + req.bytes)
            && (!out.resp.error ==> out.resp.data[Lane(req.addr / 8)] == s.memory.Read(req.addr / 8))
  {
    assert Words(req.bytes) == 1;
    GatherMeaning(s.memory, req.addr / 8, 1, NO_DATA, 0);
  }

  // ------------------------------------------------------------------ the steps

  /** What one transaction keeps: quiet before, quiet after, and no new report. */
  ghost predicate Silent(s: Sys, s': Sys, c: Scope) {
    Quiet(s', c) && s'.board.errors == s.board.errors
  }

  lemma ReadSilent(s: Sys, req: CoreReq, c: Scope)
    requires Quiet(s, c) && c.Sound() && req.addr / 8 in c.u && WellFormed(req)
    requires req.op.Load? || req.op.Lr? || (req.op.Cmo? && req.op.prefetch)
    ensures Silent(s, ReadThrough(Sys(s.mem, OnCoreReq(s.board, s.mem.segs, req)), req), c)
  {
    var e := MakeEntry(s.board, s.mem.segs, req);
    RequestSeen(s.board, s.mem.segs, req);
    var b := Pending(s.board, e, s.mem.segs);
    var r := ReadFor(req);
    WordRead(s.mem, r);
    var out := ReadOperation(s.mem, r);
    ReadStage(b, e, r, out.resp);
    var b1 := OnMemReadResp(OnMemReadReq(b, r), out.resp);
    var resp := CoreResp(req.tid, out.resp.error, out.resp.data[Lane(req.addr / 8)]);
    Answered(b1, e, resp);
    if !out.resp.error {
      RefillAgrees(s.board.shadow, s.mem.memory, c, req, out.resp.data);
      if !req.op.Cmo? {
        RightData(s.board, s.mem.memory, c, e, resp.rdata);
      }
    }
  }

  lemma CmoSilent(s: Sys, req: CoreReq, c: Scope)
    requires Quiet(s, c) && req.op.Cmo? && !req.op.prefetch
    ensures Silent(s, CacheOnly(Sys(s.mem, OnCoreReq(s.board, s.mem.segs, req)), req), c)
  {
    var e := MakeEntry(s.board, s.mem.segs, req);
    RequestSeen(s.board, s.mem.segs, req);
    Answered(Pending(s.board, e, s.mem.segs), e, CoreResp(req.tid, false, ZERO_WORD));
  }

  lemma HitSilent(s: Sys, req: CoreReq, c: Scope)
    requires Quiet(s, c) && req.addr / 8 in c.u && WellFormed(req) && req.op.Load?
    requires !WithinErrorRegion(s.mem.segs, req.addr, req.addr + req.bytes)
    ensures Silent(s, ReadHit(Sys(s.mem, OnCoreReq(s.board, s.mem.segs, req)), req), c)
  {
    var e := MakeEntry(s.board, s.mem.segs, req);
    RequestSeen(s.board, s.mem.segs, req);
    var resp := CoreResp(req.tid, false, s.mem.memory.Read(req.addr / 8));
    Answered(Pending(s.board, e, s.mem.segs), e, resp);
    RightData(s.board, s.mem.memory, c, e, resp.rdata);
  }

  /** The shadow once the read response of a write, if there is one, has been seen. */
  function AmoRefill(shadow: map<nat, Byte>, w: WriteReq, read: Option<ReadResp>): map<nat, Byte> {
    if read.Some? && !read.value.error then Refill(shadow, Span(w.addr, w.bytes), read.value.data) else shadow
  }

  /** The board's part of a write that the cache forwards. */
  lemma WriteStage(b: BoardState, e: Entry, w: WriteReq, out: WriteOutcome)
    requires b.memReads == map[] && b.memWrites == {} && w.id == ID && out.write.id == ID
    requires b.amoFifo == (if w.kind.PlainWrite? then [] else [e])
    requires !w.kind.PlainWrite? ==> e.req.tid in b.inflight && b.inflight[e.req.tid] == e && w.addr == e.req.addr
    requires w.kind.StoreExclusive? ==> e.isAtomic
    requires out.read.Some? <==> w.kind.AtomicOp?
    requires out.read.Some? ==> out.read.value.id == ID
    ensures var b1 := OnMemWriteReq(b, w);
            OnMemWriteResp(if out.read.Some? then OnMemReadResp(b1, out.read.value) else b1, out.write)
            == b.(amoFifo := [], scIsAtomic := out.write.isAtomic, shadow := AmoRefill(b.shadow, w, out.read))
  {
    hide Refill;
    assert [e][1..] == [];
    assert {ID} - {ID} == {};
    assert map[ID := Span(w.addr, w.bytes)] - {ID} == map[];
    var b0 := b.(memWrites := b.memWrites + {ID}, amoFifo := []);
    if !w.kind.PlainWrite? {
      assert e.req.tid in b0.inflight && LineOf(b0.inflight[e.req.tid].req.addr) == LineOf(w.addr);
      assert HasCoreReq(b0, w.addr);
    }
  }

  /** The board once a write that the cache forwards has been answered. */
  function WrittenBoard(s: Sys, e: Entry, out: WriteOutcome): BoardState {
    var b := Pending(s.board, e, s.mem.segs);
    var b1 := b.(amoFifo := [], scIsAtomic := out.write.isAtomic,
                 shadow := AmoRefill(b.shadow, WriteFor(e.req), out.read));
    if !e.req.needRsp then b1
    else (if e.isError then b1 else CheckData(b1, e, WriteData(e.req, out))).(inflight := map[])
  }

  lemma WriteThroughBoard(s: Sys, req: CoreReq)
    requires Idle(s.board) && FitsFlit(req.addr, req.bytes) && (Atomic(req.op) ==> req.needRsp)
    requires req.op.Store? || req.op.AtomicMemory?
             || (req.op.Sc? && AddrMatch(s.board.lrsc, req.addr, req.bytes))
    requires var out := WriteOperation(s.mem, WriteFor(req));
             && out.write.id == ID && (out.read.Some? <==> req.op.AtomicMemory?)
             && (out.read.Some? ==> out.read.value.id == ID)
             && out.write.error == WithinErrorRegion(s.mem.segs, req.addr, req.addr + req.bytes)
    ensures var out := WriteOperation(s.mem, WriteFor(req));
            WriteThrough(Sys(s.mem, OnCoreReq(s.board, s.mem.segs, req)), req)
            == Sys(out.state, WrittenBoard(s, MakeEntry(s.board, s.mem.segs, req), out))
  {
    var e := MakeEntry(s.board, s.mem.segs, req);
    RequestSeen(s.board, s.mem.segs, req);
    var w := WriteFor(req);
    var out := WriteOperation(s.mem, w);
    var b := Pending(s.board, e, s.mem.segs);
    hide WriteOperation, WithinErrorRegion, ShadowWrite, ShadowData, ShadowValid, AddrMatch, NextLrsc, Refill, SentData,
      OnCoreReq;
    WriteStage(b, e, w, out);
    hide CheckData, OnMemWriteReq, OnMemReadResp, OnMemWriteResp;
    Answered(b.(amoFifo := [], scIsAtomic := out.write.isAtomic, shadow := AmoRefill(b.shadow, w, out.read)), e,
             CoreResp(req.tid, out.write.error, WriteData(req, out)));
  }

  /** The memory's part: the enabled bytes of one word. */
  lemma WordWritten(m: Memory, req: CoreReq, w: WriteReq, amo: Option<Word>)
    requires req.bytes <= 8 && w == WriteFor(req) && FitsFlit(req.addr, req.bytes)
    ensures WordUpdate(m, WriteWords(m, req.addr / 8, Words(req.bytes), w, amo), req.addr,
                       if amo.Some? then amo.value else w.data[Lane(req.addr / 8)], req.be)
  {
    assert Words(req.bytes) == 1;
    var m' := WriteWords(m, req.addr / 8, 1, w, amo);
    assert w.be[Lane(req.addr / 8)] == req.be;
    forall a: nat | a / 8 != req.addr / 8
      ensures m'.ByteAt(a) == m.ByteAt(a)
    {
      WriteMeaning(m, req.addr / 8, 1, w, amo, a);
    }
    forall k | 0 <= k < 8
      ensures m'.Read(req.addr / 8)[k]
              == if req.be[k] then (if amo.Some? then amo.value else w.data[Lane(req.addr / 8)])[k]
                 else m.Read(req.addr / 8)[k]
    {
      var a := 8 * (req.addr / 8) + k;
      assert a / 8 == req.addr / 8 && a % 8 == k;
      WriteMeaning(m, req.addr / 8, 1, w, amo, a);
    }
  }

  /** The memory's answer to a store. */
  lemma StoreOutcome(mem: MemState, req: CoreReq)
    requires req.op.Store? && req.bytes <= 8 && FitsFlit(req.addr, req.bytes)
    ensures var out := WriteOperation(mem, WriteFor(req));
            && out.read == None && out.write.id == ID && out.state.segs == mem.segs
            && out.write.error == WithinErrorRegion(mem.segs, req.addr, req.addr + req.bytes)
            && (if out.write.error then out.state.memory == mem.memory
                else WordUpdate(mem.memory, out.state.memory, req.addr, req.wdata, req.be))
  {
    WordWritten(mem.memory, req, WriteFor(req), None);
    hide WriteWords, Memory.ByteAt, WordUpdate;
  }

  lemma StoreSilent(s: Sys, req: CoreReq, c: Scope)
    requires Quiet(s, c) && c.Sound() && req.addr / 8 in c.u && WellFormed(req) && req.op.Store?
    ensures FitsFlit(req.addr, req.bytes)
    ensures Silent(s, WriteThrough(Sys(s.mem, OnCoreReq(s.board, s.mem.segs, req)), req), c)
  {
    WordFitsFlit(req.addr, req.bytes);
    StoreOutcome(s.mem, req);
    WriteThroughBoard(s, req);
    var e, out := MakeEntry(s.board, s.mem.segs, req), WriteOperation(s.mem, WriteFor(req));
    hide WriteThrough, OnCoreReq, WriteOperation, Agree, WordUpdate, NoClash, TaintHarmless, NextLrsc;
    if !e.isError {
      TouchesCovered(c, req, req.be);
      SameWriteAgrees(s.board.shadow, s.mem.memory, out.state.memory, c, req.addr, req.wdata, req.be);
    }
  }

  lemma StatusValue(code: Byte)
    ensures Value(Status(code)) == code
  {
    var w := Status(code);
    assert w[1..] == [0, 0, 0, 0, 0, 0, 0];
    ZeroValue(w[1..]);
  }

  lemma {:induction false} ZeroValue(bs: seq<Byte>)
    requires forall k :: 0 <= k < |bs| ==> bs[k] == 0
    ensures Value(bs) == 0
  {
    if bs != [] {
      ZeroValue(bs[1..]);
    }
  }

  /** The memory's answer to a forwarded SC. */
  lemma ScOutcome(mem: MemState, req: CoreReq)
    requires req.op.Sc? && req.bytes <= 8 && FitsFlit(req.addr, req.bytes)
    ensures var out := WriteOperation(mem, WriteFor(req));
            && out.read == None && out.write.id == ID && out.state.segs == mem.segs
            && out.write.error == WithinErrorRegion(mem.segs, req.addr, req.addr + req.bytes)
            && (out.write.error ==> !out.write.isAtomic)
            && (if out.write.isAtomic then WordUpdate(mem.memory, out.state.memory, req.addr, req.wdata, req.be)
                else out.state.memory == mem.memory)
  {
    WordWritten(mem.memory, req, WriteFor(req), None);
    hide WriteWords, Memory.ByteAt, WordUpdate;
  }

  lemma ScChecked(b: BoardState, e: Entry)
    requires e.req.op.Sc? && e.isAtomic
    ensures CheckData(b, e, Status(if b.scIsAtomic then 0 else 1))
            == if b.scIsAtomic then b.(shadow := ShadowWrite(b.shadow, e.req.addr, e.req.wdata, e.req.be, 8)) else b
  {
    StatusValue(if b.scIsAtomic then 0 else 1);
    hide ShadowWrite, Value, Status;
  }

  lemma ScBoard(s: Sys, e: Entry, out: WriteOutcome)
    requires e.req.op.Sc? && e.isAtomic && e.req.needRsp && out.read == None
    requires Idle(s.board) && (out.write.isAtomic ==> !e.isError)
    ensures var b := WrittenBoard(s, e, out);
            && Idle(b) && b.errors == s.board.errors
            && b.shadow == if out.write.isAtomic then ShadowWrite(s.board.shadow, e.req.addr, e.req.wdata, e.req.be, 8)
                           else s.board.shadow
  {
    hide WithinErrorRegion, NextLrsc, ShadowWrite;
    var b := Pending(s.board, e, s.mem.segs);
    var b1 := b.(amoFifo := [], scIsAtomic := out.write.isAtomic);
    assert AmoRefill(b.shadow, WriteFor(e.req), out.read) == b.shadow;
    ScChecked(b1, e);
    hide CheckData, Status, WriteFor;
  }

  lemma ScForwardedSilent(s: Sys, req: CoreReq, c: Scope)
    requires Quiet(s, c) && c.Sound() && req.addr / 8 in c.u && WellFormed(req) && req.op.Sc?
    requires AddrMatch(s.board.lrsc, req.addr, req.bytes)
    ensures FitsFlit(req.addr, req.bytes)
    ensures Silent(s, WriteThrough(Sys(s.mem, OnCoreReq(s.board, s.mem.segs, req)), req), c)
  {
    WordFitsFlit(req.addr, req.bytes);
    ScOutcome(s.mem, req);
    WriteThroughBoard(s, req);
    var e, out := MakeEntry(s.board, s.mem.segs, req), WriteOperation(s.mem, WriteFor(req));
    ScBoard(s, e, out);
    hide WriteThrough, OnCoreReq, WriteOperation, Agree, NoClash, TaintHarmless, WithinErrorRegion, ShadowWrite,
      WordUpdate, WrittenBoard, AddrMatch;
    if out.write.isAtomic {
      TouchesCovered(c, req, req.be);
      SameWriteAgrees(s.board.shadow, s.mem.memory, out.state.memory, c, req.addr, req.wdata, req.be);
    }
  }

  lemma ScFailsSilent(s: Sys, req: CoreReq, c: Scope)
    requires Quiet(s, c) && req.op.Sc? && !AddrMatch(s.board.lrsc, req.addr, req.bytes)
    ensures Silent(s, ScFails(Sys(s.mem, OnCoreReq(s.board, s.mem.segs, req)), req), c)
  {
    var e := MakeEntry(s.board, s.mem.segs, req);
    RequestSeen(s.board, s.mem.segs, req);
    StatusValue(1);
    Answered(Pending(s.board, e, s.mem.segs), e, CoreResp(req.tid, false, Status(1)));
  }

  /** Both units store the same bytes where the AMO is enabled. */
  lemma AmoSameBytes(amo: CoreAmo, old_: Word, req: CoreReq, k: nat)
    requires AmoAccess(req.addr, req.bytes) && Covered(k, req.addr, req.bytes) && k < 8
    ensures AmoResult(ToMemory(amo), old_, SentData(amo, req.wdata), req.addr, req.bytes)[k]
            == BoardResult(amo, AmoOld(old_, req.addr, req.bytes), req.wdata, req.addr, req.bytes)[k]
    ensures AmoOld(old_, req.addr, req.bytes)[k] == old_[k]
  {
    AccessOffset(req.addr, req.bytes);
    MemoryLane(amo, old_, req.wdata, req.addr, req.bytes);
    var rdata := AmoOld(old_, req.addr, req.bytes);
    BoardLane(amo, old_, rdata, req.wdata, req.addr, req.bytes);
    var x := AmoResult(ToMemory(amo), old_, SentData(amo, req.wdata), req.addr, req.bytes);
    var y := BoardResult(amo, rdata, req.wdata, req.addr, req.bytes);
    hide AmoResult, BoardResult, AmoOld, Expected;
    var i := k - req.addr % 8;
    assert x[k] == Part(x, req.addr, req.bytes)[i] && y[k] == Part(y, req.addr, req.bytes)[i];
    assert rdata[k] == Part(rdata, req.addr, req.bytes)[i] && old_[k] == Part(old_, req.addr, req.bytes)[i];
  }

  /** The memory's answer to an AMO, in both cases. */
  lemma AmoAnswer(mem: MemState, req: CoreReq)
    requires req.op.AtomicMemory? && req.bytes <= 8 && FitsFlit(req.addr, req.bytes)
    ensures var out, old_ := WriteOperation(mem, WriteFor(req)), mem.memory.Read(req.addr / 8);
            var error := WithinErrorRegion(mem.segs, req.addr, req.addr + req.bytes);
            && out.write.id == ID && out.write.error == error && out.state.segs == mem.segs
            && out.read.Some? && out.read.value.id == ID && !out.read.value.error
            && var rdata := out.read.value.data[Lane(req.addr / 8)];
               (if error then out.state.memory == mem.memory && Zero(rdata)
                else rdata == AmoOld(old_, req.addr, req.bytes)
                     && WordUpdate(mem.memory, out.state.memory, req.addr,
                                   AmoResult(ToMemory(req.op.amo), old_, SentData(req.op.amo, req.wdata), req.addr,
                                             req.bytes), req.be))
  {
    var old_ := mem.memory.Read(req.addr / 8);
    WordWritten(mem.memory, req, WriteFor(req),
                Some(AmoResult(ToMemory(req.op.amo), old_, SentData(req.op.amo, req.wdata), req.addr, req.bytes)));
    hide WriteWords, WordUpdate, AmoResult, AmoOld, SentData;
  }

  /** An AMO without error: refill with the old bytes, right data, and the same result on both sides. */
  lemma AmoAgrees(shadow: map<nat, Byte>, m: Memory, m': Memory, c: Scope, req: CoreReq, data: Flit)
    requires Agree(shadow, m, c) && c.Sound() && req.addr / 8 in c.u && WellFormed(req) && req.op.AtomicMemory?
    requires !WithinErrorRegion(c.segs, req.addr, req.addr + req.bytes)
    requires data[Lane(req.addr / 8)] == AmoOld(m.Read(req.addr / 8), req.addr, req.bytes)
    requires WordUpdate(m, m', req.addr,
                        AmoResult(ToMemory(req.op.amo), m.Read(req.addr / 8), SentData(req.op.amo, req.wdata),
                                  req.addr, req.bytes), req.be)
    ensures Agree(ShadowWrite(Refill(shadow, Span(req.addr, req.bytes), data), req.addr,
                              BoardResult(req.op.amo, data[Lane(req.addr / 8)], req.wdata, req.addr, req.bytes),
                              req.be, 8), m', c)
    ensures forall k :: 0 <= k < 8 && Covered(k, req.addr, req.bytes) ==>
              data[Lane(req.addr / 8)][k] == m.Read(req.addr / 8)[k]
  {
    var old_, rdata := m.Read(req.addr / 8), data[Lane(req.addr / 8)];
    hide AmoResult, BoardResult, AmoOld, SentData, Agree, Refill, ShadowWrite;
    forall k | 0 <= k < 8 && Covered(k, req.addr, req.bytes)
      ensures rdata[k] == old_[k]
      ensures AmoResult(ToMemory(req.op.amo), old_, SentData(req.op.amo, req.wdata), req.addr, req.bytes)[k]
              == BoardResult(req.op.amo, rdata, req.wdata, req.addr, req.bytes)[k]
    {
      AmoSameBytes(req.op.amo, old_, req, k);
    }
    RefillAgrees(shadow, m, c, req, data);
    TouchesCovered(c, req, req.be);
    SameWriteAgrees(Refill(shadow, Span(req.addr, req.bytes), data), m, m', c, req.addr,
                    BoardResult(req.op.amo, rdata, req.wdata, req.addr, req.bytes), req.be);
  }

  lemma AmoBoard(s: Sys, e: Entry, out: WriteOutcome)
    requires e.req.op.AtomicMemory? && e.req.needRsp && Idle(s.board)
    requires out.read.Some? && !out.read.value.error
    ensures var b := WrittenBoard(s, e, out);
            var shadow := Refill(s.board.shadow, Span(e.req.addr, e.req.bytes), out.read.value.data);
            var rdata := out.read.value.data[Lane(e.req.addr / 8)];
            && Idle(b)
            && (if e.isError then b.errors == s.board.errors && b.shadow == shadow
                else && b.errors == s.board.errors + WrongBytes(e, rdata, 8)
                     && b.shadow == ShadowWrite(shadow, e.req.addr,
                                                BoardResult(e.req.op.amo, rdata, e.req.wdata, e.req.addr, e.req.bytes),
                                                e.req.be, 8))
  {
    hide WithinErrorRegion, NextLrsc, ShadowWrite, Refill, BoardResult, WrongBytes, SentData;
  }

  lemma Concluded(s: Sys, s': Sys, c: Scope)
    requires Idle(s'.board) && s'.mem.segs == c.segs && Agree(s'.board.shadow, s'.mem.memory, c)
    requires s'.board.errors == s.board.errors
    ensures Silent(s, s', c)
  {
    hide Agree;
  }

  lemma AmoErrorSilent(s: Sys, req: CoreReq, c: Scope, out: WriteOutcome)
    requires Quiet(s, c) && c.Sound() && req.addr / 8 in c.u && WellFormed(req) && req.op.AtomicMemory?
    requires WithinErrorRegion(s.mem.segs, req.addr, req.addr + req.bytes)
    requires out.read.Some? && !out.read.value.error && Zero(out.read.value.data[Lane(req.addr / 8)])
    requires out.state.memory == s.mem.memory
    requires out.state.segs == s.mem.segs
    ensures Silent(s, Sys(out.state, WrittenBoard(s, MakeEntry(s.board, s.mem.segs, req), out)), c)
  {
    EntryFacts(s.board, s.mem.segs, req);
    hide MakeEntry;
    var e := MakeEntry(s.board, s.mem.segs, req);
    AmoBoard(s, e, out);
    hide WrittenBoard, Agree, NoClash, TaintHarmless, Refill, ShadowWrite, BoardResult, WrongBytes;
    TaintAgrees(s.board.shadow, s.mem.memory, c, req, out.read.value.data);
    Concluded(s, Sys(out.state, WrittenBoard(s, e, out)), c);
    hide *;
  }

  lemma AmoOkSilent(s: Sys, req: CoreReq, c: Scope, out: WriteOutcome)
    requires Quiet(s, c) && c.Sound() && req.addr / 8 in c.u && WellFormed(req) && req.op.AtomicMemory?
    requires !WithinErrorRegion(s.mem.segs, req.addr, req.addr + req.bytes)
    requires out.read.Some? && !out.read.value.error && out.state.segs == s.mem.segs
    requires out.read.value.data[Lane(req.addr / 8)] == AmoOld(s.mem.memory.Read(req.addr / 8), req.addr, req.bytes)
    requires WordUpdate(s.mem.memory, out.state.memory, req.addr,
                        AmoResult(ToMemory(req.op.amo), s.mem.memory.Read(req.addr / 8),
                                  SentData(req.op.amo, req.wdata), req.addr, req.bytes), req.be)
    ensures Silent(s, Sys(out.state, WrittenBoard(s, MakeEntry(s.board, s.mem.segs, req), out)), c)
  {
    var e, data := MakeEntry(s.board, s.mem.segs, req), out.read.value.data;
    AmoBoard(s, e, out);
    hide WrittenBoard, Agree, NoClash, TaintHarmless, Refill, ShadowWrite, BoardResult, WrongBytes, AmoOld, AmoResult,
      SentData, WordUpdate, Memory.Read;
    AmoAgrees(s.board.shadow, s.mem.memory, out.state.memory, c, req, data);
    RightData(s.board, s.mem.memory, c, e, data[Lane(req.addr / 8)]);
    Concluded(s, Sys(out.state, WrittenBoard(s, e, out)), c);
    hide *;
  }

  lemma AmoSilent(s: Sys, req: CoreReq, c: Scope)
    requires Quiet(s, c) && c.Sound() && req.addr / 8 in c.u && WellFormed(req) && req.op.AtomicMemory?
    ensures FitsFlit(req.addr, req.bytes)
    ensures Silent(s, WriteThrough(Sys(s.mem, OnCoreReq(s.board, s.mem.segs, req)), req), c)
  {
    WordFitsFlit(req.addr, req.bytes);
    AmoAnswer(s.mem, req);
    WriteThroughBoard(s, req);
    var out := WriteOperation(s.mem, WriteFor(req));
    if WithinErrorRegion(s.mem.segs, req.addr, req.addr + req.bytes) {
      hide *;
      AmoErrorSilent(s, req, c, out);
    } else {
      hide *;
      AmoOkSilent(s, req, c, out);
    }
  }

  /** One core operation, whatever it is, keeps the agreement and causes no report. */
  lemma TransactSilent(s: Sys, req: CoreReq, hit: bool, c: Scope)
    requires Quiet(s, c) && c.Sound() && req.addr / 8 in c.u && WellFormed(req)
    ensures Silent(s, Transact(s, req, hit), c)
  {
    hide Quiet, Silent, WithinErrorRegion, Scope.Sound, OnCoreReq, ReadThrough, ReadHit, WriteThrough, ScFails,
      CacheOnly, AddrMatch;
    match req.op
    case Load =>
      if hit && !WithinErrorRegion(s.mem.segs, req.addr, req.addr + req.bytes) {
        HitSilent(s, req, c);
      } else {
        ReadSilent(s, req, c);
      }
    case Lr => ReadSilent(s, req, c);
    case Sc =>
      if AddrMatch(s.board.lrsc, req.addr, req.bytes) {
        ScForwardedSilent(s, req, c);
      } else {
        ScFailsSilent(s, req, c);
      }
    case Store => StoreSilent(s, req, c);
    case AtomicMemory(_) => AmoSilent(s, req, c);
    case Cmo(prefetch) =>
      if prefetch {
        ReadSilent(s, req, c);
      } else {
        CmoSilent(s, req, c);
      }
  }

  // ------------------------------------------------------------------- whole runs

  datatype Job = Job(req: CoreReq, hit: bool)

  predicate ValidJobs(jobs: seq<Job>, u: set<nat>) {
    forall k :: 0 <= k < |jobs| ==> WellFormed(jobs[k].req) && jobs[k].req.addr / 8 in u
  }

  function Run(s: Sys, jobs: seq<Job>): Sys
    requires forall k :: 0 <= k < |jobs| ==> jobs[k].req.bytes <= 8
  {
    if jobs == [] then s
    else Transact(Run(s, jobs[..|jobs| - 1]), jobs[|jobs| - 1].req, jobs[|jobs| - 1].hit)
  }

  lemma {:induction false} RunQuiet(mem: MemState, jobs: seq<Job>, c: Scope)
    requires c == Scope(mem.memory, mem.segs, c.u) && c.Sound() && ValidJobs(jobs, c.u)
    ensures var s := Run(Sys(mem, RESET), jobs);
            Quiet(s, c) && s.board.errors == 0
  {
    if jobs != [] {
      RunQuiet(mem, jobs[..|jobs| - 1], c);
      hide Quiet, Transact, Scope.Sound;
      TransactSilent(Run(Sys(mem, RESET), jobs[..|jobs| - 1]), jobs[|jobs| - 1].req, jobs[|jobs| - 1].hit, c);
    }
  }

  /** Golden-model agreement: over any run, every byte that the scoreboard knows and that some access
      reads without error is the byte in memory, nothing is reported, and nothing stays in flight. */
  lemma GoldenAgreement(mem: MemState, jobs: seq<Job>, u: set<nat>)
    requires NoClash(mem.segs, u) && TaintHarmless(mem.memory, mem.segs, u) && ValidJobs(jobs, u)
    ensures var s := Run(Sys(mem, RESET), jobs);
            && s.board.errors == 0 && Idle(s.board)
            && (forall a: nat :: Within(a, u) && Readable(mem.segs, a) && Key(a) in s.board.shadow ==>
                  s.board.shadow[Key(a)] == s.mem.memory.ByteAt(a))
  {
    var c := Scope(mem.memory, mem.segs, u);
    RunQuiet(mem, jobs, c);
    var s := Run(Sys(mem, RESET), jobs);
    hide Run, Readable;
    forall a: nat | Within(a, u) && Readable(mem.segs, a) && Key(a) in s.board.shadow
      ensures s.board.shadow[Key(a)] == s.mem.memory.ByteAt(a)
    {
      assert c.Comparable(a);
      assert ByteAgrees(s.board.shadow, s.mem.memory, c.start, a);
    }
  }
}
