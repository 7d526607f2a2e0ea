// The memory response model of the HPDcache test bench as functions on its
// state: word memory with byte enables, error segments, exclusive reservations
// and AMOs. TestBench.dfy holds the updating class.
module MemoryModel {
  import opened Prelude
  import opened Bytes
  import opened Amo

  type Word = w: seq<Byte> | |w| == 8 witness [0, 0, 0, 0, 0, 0, 0, 0]
  type Enables = b: seq<bool> | |b| == 8 witness [false, false, false, false, false, false, false, false]

  const ZERO_WORD: Word := [0, 0, 0, 0, 0, 0, 0, 0]
  const NO_BYTES: Enables := [false, false, false, false, false, false, false, false]

  /** HPDCACHE_MEM_DATA_WIDTH / 64 with the default width of 512. */
  const NOC_WORDS: nat := 8

  /** The words of one flit of the memory interface, and their byte enables. */
  type Flit = d: seq<Word> | |d| == NOC_WORDS witness seq<Word>(NOC_WORDS, _ => ZERO_WORD)
  type FlitEnables = b: seq<Enables> | |b| == NOC_WORDS witness seq<Enables>(NOC_WORDS, _ => NO_BYTES)

  /** The bytes of `data` where enabled, the bytes of `old` elsewhere: what mem_model's
      `(old & ~mask) | (data & mask)` keeps of each byte for mask = beToMask(be). */
  function Merge(old_: Word, data: Word, be: Enables): Word {
    seq(8, k requires 0 <= k < 8 => if be[k] then data[k] else old_[k])
  }

  /** mem_model: `init` stands for the random value drawn when a word is first touched. */
  datatype Memory = Memory(words: map<nat, Word>, init: nat -> Word)
  {
    function Read(wordAddr: nat): Word { if wordAddr in words then words[wordAddr] else init(wordAddr) }

    function Write(wordAddr: nat, data: Word, be: Enables): Memory {
      Memory(words[wordAddr := Merge(Read(wordAddr), data, be)], init)
    }

    function ByteAt(addr: nat): Byte { Read(addr / 8)[addr % 8] }
  }

  datatype Segment = Segment(base: nat, end: nat, error: bool)

  predicate Overlaps(base0: nat, end0: nat, base1: nat, end1: nat) { !(end0 <= base1) && !(base0 >= end1) }

  /** within_error_region: the first overlapping segment decides. */
  function WithinErrorRegion(segs: seq<Segment>, base: nat, end: nat): bool {
    if segs == [] then false
    else if Overlaps(segs[0].base, segs[0].end, base, end) then segs[0].error
    else WithinErrorRegion(segs[1..], base, end)
  }

  datatype Reservation = Reservation(valid: bool, base: nat, end: nat)

  datatype MemState = MemState(memory: Memory, excl: map<nat, Reservation>, segs: seq<Segment>)
  {
    function Excl(id: nat): Reservation { if id in excl then excl[id] else Reservation(false, 0, 0) }
  }

  datatype WriteKind = PlainWrite | AtomicOp(amo: MemAmo) | StoreExclusive

  datatype WriteReq = WriteReq(addr: nat, bytes: nat, id: nat, kind: WriteKind, data: Flit, be: FlitEnables)

  datatype ReadReq = ReadReq(addr: nat, bytes: nat, id: nat, loadExclusive: bool)

  datatype ReadResp = ReadResp(id: nat, error: bool, data: Flit)
  datatype WriteResp = WriteResp(id: nat, error: bool, isAtomic: bool)

  const NO_DATA: Flit :=
    [ZERO_WORD, ZERO_WORD, ZERO_WORD, ZERO_WORD, ZERO_WORD, ZERO_WORD, ZERO_WORD, ZERO_WORD]

  function Words(bytes: nat): nat { if bytes / 8 == 0 then 1 else bytes / 8 }

  function Lane(wordAddr: nat): nat { wordAddr % NOC_WORDS }

  /** The bytes that an access touches: whole words of eight, at least one of them. */
  predicate Touches(addr: nat, bytes: nat, a: nat) {
    addr - addr % 8 <= a < addr - addr % 8 + if bytes < 8 then 8 else bytes - bytes % 8
  }

  /** A request stays inside the flit of 64 bytes that its address selects. */
  predicate FitsFlit(addr: nat, bytes: nat) {
    addr % 64 - addr % 8 + (if bytes < 8 then 8 else bytes - bytes % 8) <= 64
  }

  lemma FlitIff(addr: nat, bytes: nat)
    ensures FitsFlit(addr, bytes) <==> Lane(addr / 8) + Words(bytes) <= NOC_WORDS
  {
    assert addr % 64 - addr % 8 == 8 * ((addr / 8) % 8);
  }

  // ------------------------------------------------------------------- reads

  /** The flit after the first `n` words from `wordAddr` have been put in their lanes. */
  function GatherWords(m: Memory, wordAddr: nat, n: nat, data: Flit): Flit {
    if n == 0 then data
    else GatherWords(m, wordAddr, n - 1, data)[Lane(wordAddr + n - 1) := m.Read(wordAddr + n - 1)]
  }

  datatype ReadOutcome = ReadOutcome(state: MemState, resp: ReadResp)

  function Reserve(s: MemState, req: ReadReq): MemState {
    if req.loadExclusive
    then MemState(s.memory, s.excl[req.id := Reservation(true, req.addr, req.addr + req.bytes)], s.segs)
    else s
  }

  /** readOperation on a single-flit request (len = 0). */
  function ReadOperation(s: MemState, req: ReadReq): ReadOutcome {
    if WithinErrorRegion(s.segs, req.addr, req.addr + req.bytes)
    then ReadOutcome(s, ReadResp(req.id, true, NO_DATA))
    else ReadOutcome(Reserve(s, req),
                     ReadResp(req.id, false, GatherWords(s.memory, req.addr / 8, Words(req.bytes), NO_DATA)))
  }

  // ------------------------------------------------------------------ writes

  /** `static_cast<uint32_t>(v >> offset)` for 4-byte operations, `v` otherwise. */
  function Operand(v: nat, addr: nat, bytes: nat): nat {
    if bytes == 4 then (v / Pow256(addr % 8)) % TWO32 else v
  }

  lemma OperandBound(v: nat, addr: nat, bytes: nat)
    requires v < TWO64
    ensures Operand(v, addr, bytes) < TWO64
  {
  }

  lemma WordBound(w: Word)
    ensures Value(w) < TWO64
  {
    ValueBound(w);
    Powers();
  }

  /** What the AMO unit of writeOperation works on. */
  function WordOperand(w: Word, addr: nat, bytes: nat): (v: nat)
    ensures v < TWO64
  {
    WordBound(w);
    OperandBound(Value(w), addr, bytes);
    Operand(Value(w), addr, bytes)
  }

  /** `v << offset` in 64 bits, as a word. */
  function ShiftedWord(v: nat, addr: nat): Word { ToBytes(v * Pow256(addr % 8) % TWO64, 8) }

  /** The word that an AMO stores. */
  function AmoResult(op: MemAmo, old_: Word, data: Word, addr: nat, bytes: nat): Word {
    ShiftedWord(ComputeMem(op, WordOperand(old_, addr, bytes), WordOperand(data, addr, bytes), bytes), addr)
  }

  /** The word that an AMO returns on the read channel. */
  function AmoOld(old_: Word, addr: nat, bytes: nat): Word { ShiftedWord(WordOperand(old_, addr, bytes), addr) }

  /** The word that the write loop stores from one lane. */
  function StoredWord(req: WriteReq, amoResult: Option<Word>, lane: nat): Word
    requires lane < NOC_WORDS
  {
    if amoResult.Some? then amoResult.value else req.data[lane]
  }

  /** One iteration of the write loop; an all-zero enable skips the word. */
  function WriteOne(m: Memory, wordAddr: nat, req: WriteReq, amoResult: Option<Word>, lane: nat): Memory
    requires lane < NOC_WORDS
  {
    if req.be[lane] == NO_BYTES then m
    else m.Write(wordAddr, StoredWord(req, amoResult, lane), req.be[lane])
  }

  /** The memory after the first `n` iterations. */
  function WriteWords(m: Memory, wordAddr: nat, n: nat, req: WriteReq, amoResult: Option<Word>): Memory
    requires Lane(wordAddr) + n <= NOC_WORDS
  {
    if n == 0 then m
    else WriteOne(WriteWords(m, wordAddr, n - 1, req, amoResult), wordAddr + n - 1, req, amoResult,
                  Lane(wordAddr) + n - 1)
  }

  predicate ExclOk(s: MemState, req: WriteReq) {
    && req.kind.StoreExclusive? && s.Excl(req.id).valid
    && Overlaps(req.addr, req.addr + req.bytes, s.Excl(req.id).base, s.Excl(req.id).end)
  }

  /** A store-exclusive uses up the reservation of its identifier. */
  function ConsumeReservation(s: MemState, req: WriteReq): MemState {
    if req.kind.StoreExclusive? && s.Excl(req.id).valid
    then MemState(s.memory, s.excl[req.id := Reservation(false, s.Excl(req.id).base, s.Excl(req.id).end)], s.segs)
    else s
  }

  function Written(s: MemState, req: WriteReq, amoResult: Option<Word>): MemState
    requires FitsFlit(req.addr, req.bytes)
  {
    FlitIff(req.addr, req.bytes);
    MemState(WriteWords(s.memory, req.addr / 8, Words(req.bytes), req, amoResult), s.excl, s.segs)
  }

  datatype WriteOutcome = WriteOutcome(state: MemState, write: WriteResp, read: Option<ReadResp>)

  /** writeOperation: new state, write response, and for AMOs the old data on the read channel. */
  function WriteOperation(s: MemState, req: WriteReq): WriteOutcome
    requires FitsFlit(req.addr, req.bytes)
  {
    if WithinErrorRegion(s.segs, req.addr, req.addr + req.bytes) then
      WriteOutcome(s, WriteResp(req.id, true, false),
                   if req.kind.AtomicOp? then Some(ReadResp(req.id, false, NO_DATA)) else None)
    else if req.kind.AtomicOp? then
      WriteOutcome(Written(s, req, Some(AmoResult(req.kind.amo, s.memory.Read(req.addr / 8),
                                                  req.data[Lane(req.addr / 8)], req.addr, req.bytes))),
                   WriteResp(req.id, false, false),
                   Some(ReadResp(req.id, false, NO_DATA[Lane(req.addr / 8) := AmoOld(s.memory.Read(req.addr / 8),
                                                                                    req.addr, req.bytes)])))
    else if req.kind.PlainWrite? || ExclOk(s, req) then
      WriteOutcome(Written(ConsumeReservation(s, req), req, None),
                   WriteResp(req.id, false, ExclOk(s, req)), None)
    else WriteOutcome(ConsumeReservation(s, req), WriteResp(req.id, false, false), None)
  }

  // ------------------------------------------------------------- what they mean

  /** Lanes of consecutive words inside a flit are consecutive. */
  lemma LaneStep(wordAddr: nat, k: nat)
    requires Lane(wordAddr) + k < NOC_WORDS
    ensures Lane(wordAddr + k) == Lane(wordAddr) + k
  {
  }

  /** A read returns, in its lane, every word it asked for. */
  lemma {:induction false} GatherMeaning(m: Memory, wordAddr: nat, n: nat, data: Flit, k: nat)
    requires k < n && Lane(wordAddr) + n <= NOC_WORDS
    ensures GatherWords(m, wordAddr, n, data)[Lane(wordAddr) + k] == m.Read(wordAddr + k)
    decreases n
  {
    LaneStep(wordAddr, n - 1);
    if k < n - 1 {
      GatherMeaning(m, wordAddr, n - 1, data, k);
    }
  }

  /** A write changes exactly the enabled bytes of the words it covers. */
  lemma {:induction false} WriteMeaning(m: Memory, wordAddr: nat, n: nat, req: WriteReq, amo: Option<Word>, a: nat)
    requires Lane(wordAddr) + n <= NOC_WORDS
    ensures WriteWords(m, wordAddr, n, req, amo).init == m.init
    ensures var k := a / 8 - wordAddr;
            WriteWords(m, wordAddr, n, req, amo).ByteAt(a)
            == if 0 <= k < n && req.be[Lane(wordAddr) + k][a % 8]
               then (if amo.Some? then amo.value else req.data[Lane(wordAddr) + k])[a % 8]
               else m.ByteAt(a)
    decreases n
  {
    if n > 0 {
      WriteMeaning(m, wordAddr, n - 1, req, amo, a);
    }
  }

  /** The write goes through: outside error segments, and for a store-exclusive acknowledged as atomic. */
  predicate Performed(req: WriteReq, resp: WriteResp) { !resp.error && (req.kind.PlainWrite? || resp.isAtomic) }

  // ------------------------------------------------------- in byte addresses

  lemma TouchesIff(addr: nat, bytes: nat, a: nat)
    ensures Touches(addr, bytes, a) <==> 0 <= a / 8 - addr / 8 < Words(bytes)
  {
  }

  lemma AlignedTouches(addr: nat, bytes: nat, a: nat)
    requires addr % 8 == 0 && bytes % 8 == 0 && bytes > 0
    ensures Touches(addr, bytes, a) <==> addr <= a < addr + bytes
    ensures FitsFlit(addr, bytes) <==> addr % 64 + bytes <= 64
  {
  }

  lemma LaneOf(addr: nat, bytes: nat, a: nat)
    requires Lane(addr / 8) + Words(bytes) <= NOC_WORDS && 0 <= a / 8 - addr / 8 < Words(bytes)
    ensures Lane(addr / 8) + (a / 8 - addr / 8) == (a / 8) % 8 == Lane(a / 8)
  {
    LaneStep(addr / 8, a / 8 - addr / 8);
  }

  predicate Includes(base: nat, end: nat, a: int) { base <= a < end }

  /** Two regions with a common address. */
  ghost predicate Meet(base0: nat, end0: nat, base1: nat, end1: nat) {
    exists a :: Includes(base0, end0, a) && Includes(base1, end1, a)
  }

  /** The test on the bounds finds exactly the common addresses. */
  lemma OverlapIff(base0: nat, end0: nat, base1: nat, end1: nat)
    requires base0 < end0 && base1 < end1
    ensures Overlaps(base0, end0, base1, end1) <==> Meet(base0, end0, base1, end1)
  {
    if Overlaps(base0, end0, base1, end1) {
      var a := if base0 < base1 then base1 else base0;
      assert Includes(base0, end0, a) && Includes(base1, end1, a);
    }
  }

  /** Segment `k` is the first one that shares an address with the access. */
  ghost predicate FirstMet(segs: seq<Segment>, base: nat, end: nat, k: nat)
    requires k < |segs|
  {
    && Meet(segs[k].base, segs[k].end, base, end)
    && forall j :: 0 <= j < k ==> !Meet(segs[j].base, segs[j].end, base, end)
  }

  /** An access is answered with an error exactly when the first segment it meets is an error segment. */
  lemma {:induction false} RegionVerdict(segs: seq<Segment>, base: nat, end: nat)
    requires base < end && forall k :: 0 <= k < |segs| ==> segs[k].base < segs[k].end
    ensures WithinErrorRegion(segs, base, end) <==>
            exists k :: 0 <= k < |segs| && FirstMet(segs, base, end, k) && segs[k].error
  {
    if segs != [] {
      var rest := segs[1..];
      OverlapIff(segs[0].base, segs[0].end, base, end);
      RegionVerdict(rest, base, end);
      hide Meet, Overlaps;
      if Meet(segs[0].base, segs[0].end, base, end) {
        assert FirstMet(segs, base, end, 0);
      } else {
        FirstMetStep(segs, base, end);
      }
    }
  }

  lemma FirstMetStep(segs: seq<Segment>, base: nat, end: nat)
    requires segs != [] && !Meet(segs[0].base, segs[0].end, base, end)
    ensures !FirstMet(segs, base, end, 0)
    ensures forall k :: 0 <= k < |segs| - 1 ==> FirstMet(segs, base, end, k + 1) == FirstMet(segs[1..], base, end, k)
    ensures (exists k :: 0 <= k < |segs| && FirstMet(segs, base, end, k) && segs[k].error)
            <==> exists k :: 0 <= k < |segs[1..]| && FirstMet(segs[1..], base, end, k) && segs[1..][k].error
  {
    hide Meet;
    var rest := segs[1..];
    forall k | 0 <= k < |rest|
      ensures FirstMet(segs, base, end, k + 1) == FirstMet(rest, base, end, k)
    {
      assert forall j :: 0 < j <= k + 1 ==> segs[j] == rest[j - 1];
      assert forall j :: 0 <= j <= k ==> rest[j] == segs[j + 1];
    }
    hide FirstMet;
    if k :| 0 <= k < |segs| && FirstMet(segs, base, end, k) && segs[k].error {
      assert FirstMet(rest, base, end, k - 1) && rest[k - 1] == segs[k];
    }
    if k :| 0 <= k < |rest| && FirstMet(rest, base, end, k) && rest[k].error {
      assert FirstMet(segs, base, end, k + 1) && segs[k + 1] == rest[k];
    }
  }

  /** Lanes of words that are not asked for stay as they were. */
  lemma {:induction false} GatherFrame(m: Memory, wordAddr: nat, n: nat, data: Flit, l: nat)
    requires l < 8 && Lane(wordAddr) + n <= NOC_WORDS && (l < Lane(wordAddr) || Lane(wordAddr) + n <= l)
    ensures GatherWords(m, wordAddr, n, data)[l] == data[l]
    decreases n
  {
    if n > 0 {
      LaneStep(wordAddr, n - 1);
      GatherFrame(m, wordAddr, n - 1, data, l);
    }
  }

  lemma SameLine(addr: nat, a: nat)
    requires a / 64 == addr / 64
    ensures a / 8 - addr / 8 == Lane(a / 8) - Lane(addr / 8)
  {
    RemainderUnique(a / 8, 8, a / 64, (a % 64) / 8);
    RemainderUnique(addr / 8, 8, addr / 64, (addr % 64) / 8);
  }

  /** Every read: an error is answered exactly in an error segment, and otherwise each byte of the
      line is returned in its place where the access touches it, and as zero elsewhere. */
  lemma ReadEffect(s: MemState, req: ReadReq, a: nat)
    requires FitsFlit(req.addr, req.bytes) && a / 64 == req.addr / 64
    ensures var out := ReadOperation(s, req);
            && (out.resp.error <==> WithinErrorRegion(s.segs, req.addr, req.addr + req.bytes))
            && out.resp.id == req.id && out.state.memory == s.memory
            && out.resp.data[(a / 8) % 8][a % 8]
               == if !out.resp.error && Touches(req.addr, req.bytes, a) then s.memory.ByteAt(a) else 0
  {
    TouchesIff(req.addr, req.bytes, a);
    FlitIff(req.addr, req.bytes);
    GatheredByte(s.memory, req.addr, req.bytes, a);
    hide Words, WithinErrorRegion, GatherWords, Touches, FitsFlit, Memory.ByteAt;
  }

  lemma GatheredByte(m: Memory, addr: nat, bytes: nat, a: nat)
    requires FitsFlit(addr, bytes) && a / 64 == addr / 64
    ensures GatherWords(m, addr / 8, Words(bytes), NO_DATA)[(a / 8) % 8][a % 8]
            == if Touches(addr, bytes, a) then m.ByteAt(a) else 0
  {
    TouchesIff(addr, bytes, a);
    FlitIff(addr, bytes);
    var n, k := Words(bytes), a / 8 - addr / 8;
    SameLine(addr, a);
    hide Words, GatherWords, Touches, FitsFlit;
    if 0 <= k < n {
      LaneOf(addr, bytes, a);
      GatherMeaning(m, addr / 8, n, NO_DATA, k);
    } else {
      GatherFrame(m, addr / 8, n, NO_DATA, (a / 8) % 8);
    }
  }

  /** Every write: an error is answered exactly in an error segment and then changes no state; a store or
      store-exclusive that does not go through leaves memory alone, and one that does changes exactly the
      bytes it touches whose enable is set. */
  lemma WriteEffect(s: MemState, req: WriteReq, a: nat)
    requires FitsFlit(req.addr, req.bytes)
    ensures var out := WriteOperation(s, req);
            && (out.write.error <==> WithinErrorRegion(s.segs, req.addr, req.addr + req.bytes))
            && (out.write.error ==> out.state == s)
    ensures var out := WriteOperation(s, req);
            !req.kind.AtomicOp? ==>
              && (!Performed(req, out.write) ==> out.state.memory == s.memory)
              && out.state.memory.ByteAt(a)
                 == if Performed(req, out.write) && Touches(req.addr, req.bytes, a) && req.be[(a / 8) % 8][a % 8]
                    then req.data[(a / 8) % 8][a % 8]
                    else s.memory.ByteAt(a)
  {
    TouchesIff(req.addr, req.bytes, a);
    FlitIff(req.addr, req.bytes);
    WriteMeaning(s.memory, req.addr / 8, Words(req.bytes), req, None, a);
    if Touches(req.addr, req.bytes, a) {
      LaneOf(req.addr, req.bytes, a);
    }
    hide WriteWords, WithinErrorRegion, Memory.ByteAt, AmoResult, AmoOld, Words, Touches, FitsFlit;
  }
}
