// AMOs inside a 64-bit lane: both units of the test bench write the architectural
// result into exactly the bytes that the operation addresses.
module AmoLanes {
  import opened Prelude
  import opened Bytes
  import opened Amo
  import opened MemoryModel

  /** The naturally aligned 4- and 8-byte accesses that AMOs use. */
  predicate AmoAccess(addr: nat, bytes: nat) { (bytes == 4 || bytes == 8) && addr % bytes == 0 }

  /** The bytes of a word that an access covers. */
  function Part(w: Word, addr: nat, bytes: nat): seq<Byte>
    requires AmoAccess(addr, bytes)
  {
    w[addr % 8..addr % 8 + bytes]
  }

  predicate Covered(k: nat, addr: nat, bytes: nat) { addr % 8 <= k < addr % 8 + bytes }

  function Complement(w: Word): Word { seq(8, k requires 0 <= k < 8 => 255 - w[k]) }

  /** What the cache puts on the memory interface for a core AMO. */
  function SentData(op: CoreAmo, wdata: Word): Word { if op.AND? then Complement(wdata) else wdata }

  lemma AccessOffset(addr: nat, bytes: nat)
    requires AmoAccess(addr, bytes)
    ensures addr % 8 + bytes <= 8 && (bytes == 8 ==> addr % 8 == 0)
  {
  }

  lemma OperandIsPart(w: Word, addr: nat, bytes: nat)
    requires AmoAccess(addr, bytes)
    ensures WordOperand(w, addr, bytes) == Value(Part(w, addr, bytes))
    ensures Value(Part(w, addr, bytes)) < Pow256(bytes)
  {
    AccessOffset(addr, bytes);
    var o := addr % 8;
    ValueBound(Part(w, addr, bytes));
    if bytes == 4 {
      Powers();
      ValueShift(w, o);
      ValueShift(w[o..], 4);
      assert w[o..][..4] == Part(w, addr, bytes);
    } else {
      assert w[0..8] == w;
    }
  }

  lemma {:induction false} ComplementValue(a: seq<Byte>, b: seq<Byte>)
    requires |a| == |b| && forall k :: 0 <= k < |a| ==> b[k] == 255 - a[k]
    ensures Value(b) == Pow256(|a|) - 1 - Value(a)
  {
    if a != [] {
      ComplementValue(a[1..], b[1..]);
    }
  }

  lemma SentValue(op: CoreAmo, wdata: Word, addr: nat, bytes: nat)
    requires AmoAccess(addr, bytes)
    ensures var b := Value(Part(wdata, addr, bytes));
            Value(Part(SentData(op, wdata), addr, bytes)) == if op.AND? then Pow256(bytes) - 1 - b else b
  {
    AccessOffset(addr, bytes);
    if op.AND? {
      ComplementValue(Part(wdata, addr, bytes), Part(Complement(wdata), addr, bytes));
    }
  }

  lemma {:induction false} ToBytesPrefix(v: nat, n: nat, k: nat)
    requires k <= n
    ensures ToBytes(v, n)[..k] == ToBytes(v, k)
    decreases k
  {
    if k > 0 {
      ToBytesPrefix(v / 256, n - 1, k - 1);
      assert ToBytes(v, n)[1..][..k - 1] == ToBytes(v, n)[..k][1..];
    }
  }

  /** A shifted value occupies the addressed bytes of its word. */
  lemma ShiftedPart(v: nat, addr: nat, bytes: nat)
    requires AmoAccess(addr, bytes)
    ensures Part(ShiftedWord(v, addr), addr, bytes) == ToBytes(v, bytes)
  {
    AccessOffset(addr, bytes);
    var o := addr % 8;
    Powers();
    ToBytesRemainder(v * Pow256(o), 8);
    ToBytesShift(v, o, 8);
    ToBytesPrefix(v, 8 - o, bytes);
    var w := ShiftedWord(v, addr);
    assert Part(w, addr, bytes) == w[o..][..bytes];
  }

  /** The word that the scoreboard computes for an AMO from the response and its own operand. */
  function BoardResult(op: CoreAmo, rdata: Word, wdata: Word, addr: nat, bytes: nat): Word {
    ShiftedWord(ComputeCore(op, WordOperand(rdata, addr, bytes), WordOperand(wdata, addr, bytes), bytes), addr)
  }

  /** The bytes an AMO leaves behind, by the architecture. */
  function Expected(op: CoreAmo, old_: Word, wdata: Word, addr: nat, bytes: nat): seq<Byte>
    requires AmoAccess(addr, bytes)
  {
    ToBytes(Architectural(op, Value(Part(old_, addr, bytes)), Value(Part(wdata, addr, bytes)), bytes), bytes)
  }

  lemma ExpectedIsCore(op: CoreAmo, old_: Word, wdata: Word, addr: nat, bytes: nat)
    requires AmoAccess(addr, bytes)
    ensures Expected(op, old_, wdata, addr, bytes)
            == ToBytes(ComputeCore(op, WordOperand(old_, addr, bytes), WordOperand(wdata, addr, bytes), bytes), bytes)
  {
    OperandIsPart(old_, addr, bytes);
    OperandIsPart(wdata, addr, bytes);
    var a, b := Value(Part(old_, addr, bytes)), Value(Part(wdata, addr, bytes));
    CoreUnitCorrect(op, a, b, bytes);
    hide ComputeCore, Architectural, WordOperand, Part;
    ToBytesRemainder(ComputeCore(op, a, b, bytes), bytes);
    ToBytesRemainder(Architectural(op, a, b, bytes), bytes);
  }

  /** The scoreboard's word holds the architectural result when it saw the old bytes. */
  lemma BoardLane(op: CoreAmo, old_: Word, rdata: Word, wdata: Word, addr: nat, bytes: nat)
    requires AmoAccess(addr, bytes) && Part(rdata, addr, bytes) == Part(old_, addr, bytes)
    ensures Part(BoardResult(op, rdata, wdata, addr, bytes), addr, bytes) == Expected(op, old_, wdata, addr, bytes)
  {
    OperandIsPart(old_, addr, bytes);
    OperandIsPart(rdata, addr, bytes);
    ExpectedIsCore(op, old_, wdata, addr, bytes);
    hide ComputeCore, WordOperand, Part, ShiftedWord;
    ShiftedPart(ComputeCore(op, WordOperand(rdata, addr, bytes), WordOperand(wdata, addr, bytes), bytes), addr, bytes);
  }

  /** The memory's word holds the architectural result, and its read response the old bytes. */
  lemma MemoryLane(op: CoreAmo, old_: Word, wdata: Word, addr: nat, bytes: nat)
    requires AmoAccess(addr, bytes)
    ensures Part(AmoResult(ToMemory(op), old_, SentData(op, wdata), addr, bytes), addr, bytes)
            == Expected(op, old_, wdata, addr, bytes)
    ensures Part(AmoOld(old_, addr, bytes), addr, bytes) == Part(old_, addr, bytes)
  {
    OperandIsPart(old_, addr, bytes);
    OperandIsPart(wdata, addr, bytes);
    OperandIsPart(SentData(op, wdata), addr, bytes);
    SentValue(op, wdata, addr, bytes);
    var a, b := Value(Part(old_, addr, bytes)), Value(Part(wdata, addr, bytes));
    UnitsAgree(op, a, b, bytes);
    ExpectedIsCore(op, old_, wdata, addr, bytes);
    hide ComputeCore, ComputeMem, WordOperand, Part, ShiftedWord, SentData;
    ShiftedPart(ComputeCore(op, a, b, bytes), addr, bytes);
    ShiftedPart(a, addr, bytes);
    PartLength(old_, addr, bytes);
    BytesOfValue(Part(old_, addr, bytes));
  }

  lemma PartLength(w: Word, addr: nat, bytes: nat)
    requires AmoAccess(addr, bytes)
    ensures |Part(w, addr, bytes)| == bytes
  {
    AccessOffset(addr, bytes);
  }

  /** Byte enables that cover exactly the access. */
  predicate EnablesMatch(be: Enables, addr: nat, bytes: nat) {
    forall k :: 0 <= k < 8 ==> (be[k] <==> Covered(k, addr, bytes))
  }

  /** The bytes of an access inside a word. */
  lemma InAccess(a: nat, addr: nat, bytes: nat)
    requires addr % 8 + bytes <= 8
    ensures addr <= a < addr + bytes <==> a / 8 == addr / 8 && Covered(a % 8, addr, bytes)
    ensures addr <= a < addr + bytes ==> a % 8 == addr % 8 + (a - addr)
  {
  }

  lemma AmoOutcome(s: MemState, req: WriteReq)
    requires FitsFlit(req.addr, req.bytes) && Lane(req.addr / 8) + Words(req.bytes) <= NOC_WORDS
    requires req.kind.AtomicOp? && !WithinErrorRegion(s.segs, req.addr, req.addr + req.bytes)
    ensures var out, lane, old_ := WriteOperation(s, req), Lane(req.addr / 8), s.memory.Read(req.addr / 8);
            && out.state.memory
               == WriteWords(s.memory, req.addr / 8, Words(req.bytes), req,
                             Some(AmoResult(req.kind.amo, old_, req.data[lane], req.addr, req.bytes)))
            && out.read == Some(ReadResp(req.id, false, NO_DATA[lane := AmoOld(old_, req.addr, req.bytes)]))
  {
    hide AmoResult, AmoOld, WriteWords, FitsFlit, Words, Lane;
  }

  /** writeOperation on a core AMO: the memory changes only in the addressed bytes, which become
      the architectural result, and the read response carries the old bytes in their lane. */
  lemma AmoWrite(s: MemState, op: CoreAmo, wdata: Word, be: Enables, req: WriteReq, a: nat)
    requires AmoAccess(req.addr, req.bytes) && FitsFlit(req.addr, req.bytes)
    requires req.kind == AtomicOp(ToMemory(op)) && req.data[Lane(req.addr / 8)] == SentData(op, wdata)
    requires req.be[Lane(req.addr / 8)] == be && EnablesMatch(be, req.addr, req.bytes)
    requires !WithinErrorRegion(s.segs, req.addr, req.addr + req.bytes)
    ensures var out, old_ := WriteOperation(s, req), s.memory.Read(req.addr / 8);
            && out.state.memory.ByteAt(a)
               == (if req.addr <= a < req.addr + req.bytes
                   then (AccessOffset(req.addr, req.bytes);
                         Expected(op, old_, wdata, req.addr, req.bytes)[a - req.addr])
                   else s.memory.ByteAt(a))
            && out.read.Some? && !out.read.value.error
            && Part(out.read.value.data[Lane(req.addr / 8)], req.addr, req.bytes) == Part(old_, req.addr, req.bytes)
  {
    hide AmoResult, SentData, Expected, AmoOld, WriteOperation, WriteWords, Memory.Read, WithinErrorRegion,
      Memory.ByteAt, FitsFlit;
    var old_ := s.memory.Read(req.addr / 8);
    var result := AmoResult(ToMemory(op), old_, SentData(op, wdata), req.addr, req.bytes);
    AccessOffset(req.addr, req.bytes);
    MemoryLane(op, old_, wdata, req.addr, req.bytes);
    assert Words(req.bytes) == 1;
    FlitIff(req.addr, req.bytes);
    AmoOutcome(s, req);
    WriteMeaning(s.memory, req.addr / 8, 1, req, Some(result), a);
    InAccess(a, req.addr, req.bytes);
    if req.addr <= a < req.addr + req.bytes {
      PartAt(result, req.addr, req.bytes, a - req.addr);
    }
  }

  lemma PartAt(w: Word, addr: nat, bytes: nat, i: nat)
    requires AmoAccess(addr, bytes) && i < bytes
    ensures addr % 8 + i < 8 && Part(w, addr, bytes)[i] == w[addr % 8 + i]
  {
    AccessOffset(addr, bytes);
  }
}
