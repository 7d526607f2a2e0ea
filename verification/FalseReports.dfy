// When the scoreboard reports errors in a correct run: the exact condition, and runs that
// exhibit each way of failing. No run here relies on a cache hit.
module FalseReports {
  import opened Amo
  import opened AmoLanes
  import opened Board
  import opened Bytes
  import opened Golden
  import opened MemoryModel
  import opened Prelude

  // ------------------------------------------------------------ requests on one byte

  /** The smallest access to byte `a` that is answered without error. */
  function SafeSize(segs: seq<Segment>, a: nat): (n: nat)
    requires Readable(segs, a)
    ensures IsSize(n) && !Errs(segs, a, n)
  {
    if !Errs(segs, a, 1) then 1 else if !Errs(segs, a, 2) then 2 else if !Errs(segs, a, 4) then 4 else 8
  }

  /** The smallest AMO on byte `a` that is answered with an error. */
  function ErrorSize(segs: seq<Segment>, a: nat): (n: nat)
    requires Tainted(segs, a)
    ensures (n == 4 || n == 8) && Errs(segs, a, n)
  {
    if Errs(segs, a, 4) then 4 else 8
  }

  function Only(k: nat): Enables { seq(8, i requires 0 <= i < 8 => i == k) }

  function Repeat(v: Byte): Word { seq(8, _ => v) }

  function Exactly(addr: nat, bytes: nat): Enables { seq(8, i requires 0 <= i < 8 => Covered(i, addr, bytes)) }

  /** Stores `v` into byte `a` alone. */
  function StoreByte(a: nat, n: nat, v: Byte): CoreReq {
    CoreReq(Store, 0, Base(a, n), n, Repeat(v), Only(a % 8), true)
  }

  function LoadByte(a: nat, n: nat): CoreReq { CoreReq(Load, 0, Base(a, n), n, ZERO_WORD, NO_BYTES, true) }

  function SwapAround(a: nat, n: nat): CoreReq {
    CoreReq(AtomicMemory(SWAP), 0, Base(a, n), n, ZERO_WORD, Exactly(Base(a, n), n), true)
  }

  lemma AccessAt(a: nat, n: nat)
    requires IsSize(n)
    ensures var addr := Base(a, n);
            && Base(addr, n) == addr && addr / 8 == a / 8 && Aligned(addr) == Aligned(a) && Covered(a % 8, addr, n)
            && addr % 8 + n <= 8
  {
    BaseInWord(a / 8, a % 8, n);
    BaseInWord(a / 8, Base(a % 8, n), n);
  }

  lemma RequestsWellFormed(a: nat, n: nat, v: Byte)
    requires IsSize(n)
    ensures WellFormed(StoreByte(a, n, v)) && WellFormed(LoadByte(a, n)) && (n >= 4 ==> WellFormed(SwapAround(a, n)))
    ensures StoreByte(a, n, v).addr / 8 == LoadByte(a, n).addr / 8 == SwapAround(a, n).addr / 8 == a / 8
  {
    AccessAt(a, n);
  }

  // ------------------------------------------------------------ what they do to an idle bench

  lemma TransactWrite(s: Sys, req: CoreReq)
    requires (req.op.Store? || req.op.AtomicMemory?) && req.bytes <= 8 && FitsFlit(req.addr, req.bytes)
    ensures Transact(s, req, false) == WriteThrough(Sys(s.mem, OnCoreReq(s.board, s.mem.segs, req)), req)
  {
    hide WriteThrough, OnCoreReq;
  }

  lemma StoreBoard(s: Sys, e: Entry, out: WriteOutcome)
    requires e.req.op.Store? && e.req.needRsp && Idle(s.board) && !e.isError && out.read == None
    ensures var b := WrittenBoard(s, e, out);
            Idle(b) && b.shadow == ShadowWrite(s.board.shadow, e.req.addr, e.req.wdata, e.req.be, 8)
  {
    hide ShadowWrite, NextLrsc, WriteFor, WithinErrorRegion;
  }

  /** A store from request to response. */
  lemma Stored(s: Sys, req: CoreReq)
    requires Idle(s.board) && req.op.Store? && req.needRsp && req.bytes <= 8
    requires !WithinErrorRegion(s.mem.segs, req.addr, req.addr + req.bytes)
    ensures var s' := Transact(s, req, false);
            && Idle(s'.board) && s'.mem.segs == s.mem.segs
            && s'.board.shadow == ShadowWrite(s.board.shadow, req.addr, req.wdata, req.be, 8)
            && WordUpdate(s.mem.memory, s'.mem.memory, req.addr, req.wdata, req.be)
  {
    WordFitsFlit(req.addr, req.bytes);
    StoreOutcome(s.mem, req);
    hide WriteOperation, WriteThrough, OnCoreReq, ShadowWrite, WordUpdate, WithinErrorRegion, Transact;
    WriteThroughBoard(s, req);
    TransactWrite(s, req);
    StoreBoard(s, MakeEntry(s.board, s.mem.segs, req), WriteOperation(s.mem, WriteFor(req)));
    hide WrittenBoard, WriteFor, AddrMatch, NextLrsc;
  }

  /** A store makes the byte known, and changes no other byte of memory. */
  lemma StoreSeen(s: Sys, a: nat, n: nat, v: Byte, b: nat)
    requires Idle(s.board) && IsSize(n) && !Errs(s.mem.segs, a, n) && b != a
    ensures StoreByte(a, n, v).bytes <= 8
    ensures var s' := Transact(s, StoreByte(a, n, v), false);
            && Idle(s'.board) && s'.mem.segs == s.mem.segs
            && Key(a) in s'.board.shadow && s'.board.shadow[Key(a)] == v
            && s'.mem.memory.ByteAt(b) == s.mem.memory.ByteAt(b)
  {
    var req := StoreByte(a, n, v);
    AccessAt(a, n);
    hide Transact, ShadowWrite, WordUpdate, Memory.ByteAt, WithinErrorRegion, Idle, Key, Base, Only;
    Stored(s, req);
    var s' := Transact(s, req, false);
    ByteStored(s.board.shadow, req.addr, req.wdata, a);
    OthersKept(s.mem.memory, s'.mem.memory, req.addr, req.wdata, a, b);
    assert req.wdata[a % 8] == v;
    hide *;
  }

  lemma ByteStored(shadow: map<nat, Byte>, addr: nat, w: Word, a: nat)
    requires Aligned(addr) == Aligned(a)
    ensures var s := ShadowWrite(shadow, addr, w, Only(a % 8), 8); Key(a) in s && s[Key(a)] == w[a % 8]
  {
    ShadowWriteMeaning(shadow, addr, w, Only(a % 8), 8, Key(a));
    KeyInWord(a);
    hide ShadowWrite;
  }

  lemma OthersKept(m: Memory, m': Memory, addr: nat, w: Word, a: nat, b: nat)
    requires WordUpdate(m, m', addr, w, Only(a % 8)) && addr / 8 == a / 8 && a != b
    ensures m'.ByteAt(b) == m.ByteAt(b)
  {
    UpdatedByte(m, m', addr, w, Only(a % 8), b);
    assert b / 8 == a / 8 ==> b % 8 != a % 8;
    hide WordUpdate, Memory.ByteAt;
  }

  lemma RefillIs(shadow: map<nat, Byte>, span: Span, data: Flit)
    ensures Refill(shadow, span, data)
            == ShadowWrite(shadow, span.addr, data[Lane(span.addr / 8)], Unset(shadow, span.addr, span.bytes), 8)
  {
    hide ShadowWrite;
  }

  /** An AMO in an error segment from request to response. */
  lemma Swapped(s: Sys, req: CoreReq) returns (data: Flit)
    requires Idle(s.board) && req.op.AtomicMemory? && req.needRsp && req.bytes <= 8
    requires WithinErrorRegion(s.mem.segs, req.addr, req.addr + req.bytes)
    ensures Zero(data[Lane(req.addr / 8)])
    ensures var s' := Transact(s, req, false);
            && Idle(s'.board) && s'.mem.segs == s.mem.segs && s'.mem.memory == s.mem.memory
            && s'.board.shadow == ShadowWrite(s.board.shadow, req.addr, data[Lane(req.addr / 8)],
                                              Unset(s.board.shadow, req.addr, req.bytes), 8)
  {
    WordFitsFlit(req.addr, req.bytes);
    AmoAnswer(s.mem, req);
    hide WriteOperation, WriteThrough, OnCoreReq, ShadowWrite, WordUpdate, WithinErrorRegion, Transact, AmoResult, AmoOld,
      SentData, BoardResult, WrongBytes, Refill, Zero;
    EntryFacts(s.board, s.mem.segs, req);
    hide MakeEntry;
    WriteThroughBoard(s, req);
    TransactWrite(s, req);
    var out := WriteOperation(s.mem, WriteFor(req));
    AmoBoard(s, MakeEntry(s.board, s.mem.segs, req), out);
    data := out.read.value.data;
    RefillIs(s.board.shadow, Span(req.addr, req.bytes), data);
    hide WrittenBoard, WriteFor, AddrMatch, NextLrsc;
  }

  /** An AMO answered with an error makes the byte known as zero, and leaves memory alone. */
  lemma SwapSeen(s: Sys, a: nat, n: nat)
    requires Idle(s.board) && (n == 4 || n == 8) && Errs(s.mem.segs, a, n) && Key(a) !in s.board.shadow
    ensures SwapAround(a, n).bytes <= 8
    ensures var s' := Transact(s, SwapAround(a, n), false);
            && Idle(s'.board) && s'.mem.segs == s.mem.segs && s'.mem.memory == s.mem.memory
            && Key(a) in s'.board.shadow && s'.board.shadow[Key(a)] == 0
  {
    var req := SwapAround(a, n);
    AccessAt(a, n);
    hide Transact, ShadowWrite, WithinErrorRegion, Unset, Base, Zero, Key, Lane, Idle;
    var data := Swapped(s, req);
    ZeroFill(s.board.shadow, req.addr, n, data[Lane(req.addr / 8)], a);
  }

  lemma ZeroFill(shadow: map<nat, Byte>, addr: nat, bytes: nat, w: Word, a: nat)
    requires Zero(w) && Covered(a % 8, addr, bytes) && Aligned(addr) == Aligned(a) && Key(a) !in shadow
    ensures var filled := ShadowWrite(shadow, addr, w, Unset(shadow, addr, bytes), 8);
            Key(a) in filled && filled[Key(a)] == 0
  {
    ShadowWriteMeaning(shadow, addr, w, Unset(shadow, addr, bytes), 8, Key(a));
    KeyInWord(a);
    hide ShadowWrite;
  }

  /** A load of a byte that the shadow believes to be another one is reported. */
  lemma WrongLoadReported(s: Sys, a: nat, n: nat)
    requires Idle(s.board) && IsSize(n) && !Errs(s.mem.segs, a, n)
    requires Key(a) in s.board.shadow && s.board.shadow[Key(a)] != s.mem.memory.ByteAt(a)
    ensures LoadByte(a, n).bytes <= 8
    ensures Transact(s, LoadByte(a, n), false).board.errors > s.board.errors
  {
    var req := LoadByte(a, n);
    AccessAt(a, n);
    KnownByte(s.board, s.mem.segs, req, a);
    var e := MakeEntry(s.board, s.mem.segs, req);
    hide ReadOperation, Refill, OnMemReadReq, OnMemReadResp, OnCoreReq, Memory.ByteAt, ShadowWrite, NextLrsc,
      WithinErrorRegion, MakeEntry, Base, Key;
    RequestSeen(s.board, s.mem.segs, req);
    var b, r := Pending(s.board, e, s.mem.segs), ReadFor(req);
    WordRead(s.mem, r);
    var out := ReadOperation(s.mem, r);
    ReadStage(b, e, r, out.resp);
    var resp := CoreResp(req.tid, out.resp.error, out.resp.data[Lane(req.addr / 8)]);
    Answered(OnMemReadResp(OnMemReadReq(b, r), out.resp), e, resp);
    ByteRead(s.mem.memory, a);
    WrongByteCounts(e, resp.rdata, a % 8);
  }

  lemma ByteRead(m: Memory, a: nat)
    ensures m.ByteAt(a) == m.Read(a / 8)[a % 8]
  {
  }

  /** The entry of a load expects the byte that the shadow knows. */
  lemma KnownByte(b: BoardState, segs: seq<Segment>, req: CoreReq, a: nat)
    requires req.op.Load? && !WithinErrorRegion(segs, req.addr, req.addr + req.bytes)
    requires Aligned(req.addr) == Aligned(a) && Key(a) in b.shadow
    ensures var e := MakeEntry(b, segs, req);
            e.req == req && !e.isError && e.rv[a % 8] && e.rdata[a % 8] == b.shadow[Key(a)]
  {
    KeyInWord(a);
    hide WithinErrorRegion;
  }

  lemma WrongByteCounts(e: Entry, rdata: Word, k: nat)
    requires k < 8 && WrongByte(e, rdata, k)
    ensures WrongBytes(e, rdata, 8) > 0
  {
    WrongBytesMeaning(e, rdata, 8);
  }

  lemma RunTwo(s: Sys, a: CoreReq, b: CoreReq)
    requires a.bytes <= 8 && b.bytes <= 8
    ensures Run(s, [Job(a, false), Job(b, false)]) == Transact(Transact(s, a, false), b, false)
  {
    var jobs := [Job(a, false), Job(b, false)];
    hide Transact;
    assert jobs[..1] == [Job(a, false)] && jobs[..1][..0] == [];
    assert Run(s, jobs[..1]) == Transact(Run(s, []), a, false);
  }

  lemma TwoJobsValid(p: CoreReq, q: CoreReq, a: nat, b: nat, u: set<nat>)
    requires WellFormed(p) && WellFormed(q) && p.addr / 8 == a / 8 && q.addr / 8 == b / 8 && Within(a, u) && Within(b, u)
    ensures ValidJobs([Job(p, false), Job(q, false)], u)
  {
    hide WellFormed;
  }

  // ------------------------------------------------------------ runs that are reported

  /** Two comparable bytes with one place in the RAM: a store to one, a load of the other. */
  lemma ClashReported(mem: MemState, a: nat, b: nat, u: set<nat>) returns (jobs: seq<Job>)
    requires a != b && Key(a) == Key(b) && Within(a, u) && Within(b, u)
    requires Readable(mem.segs, a) && Readable(mem.segs, b)
    ensures ValidJobs(jobs, u) && Run(Sys(mem, RESET), jobs).board.errors > 0
    ensures |jobs| == 2 && !jobs[0].hit && !jobs[1].hit
  {
    hide WellFormed, Readable, Errs, Memory.ByteAt, StoreByte, LoadByte, Transact, Key, Run, ValidJobs, Within;
    var v: Byte := if mem.memory.ByteAt(b) == 0 then 1 else 0;
    var n, k := SafeSize(mem.segs, a), SafeSize(mem.segs, b);
    RequestsWellFormed(a, n, v);
    RequestsWellFormed(b, k, v);
    var store, load := StoreByte(a, n, v), LoadByte(b, k);
    jobs := [Job(store, false), Job(load, false)];
    var s := Sys(mem, RESET);
    StoreSeen(s, a, n, v, b);
    TwoJobsValid(store, load, a, b, u);
    WrongLoadReported(Transact(s, store, false), b, k);
    RunTwo(s, store, load);
  }

  /** A byte that reads as zero after an erroring AMO, and is not zero. */
  lemma TaintReported(mem: MemState, a: nat, b: nat, u: set<nat>) returns (jobs: seq<Job>)
    requires Key(a) == Key(b) && Within(a, u) && Within(b, u)
    requires Tainted(mem.segs, a) && Readable(mem.segs, b) && mem.memory.ByteAt(b) != 0
    ensures ValidJobs(jobs, u) && Run(Sys(mem, RESET), jobs).board.errors > 0
    ensures |jobs| == 2 && !jobs[0].hit && !jobs[1].hit
  {
    hide WellFormed, Readable, Tainted, Errs, Memory.ByteAt, SwapAround, LoadByte, Transact, Key, Run, ValidJobs, Within;
    var n, k := ErrorSize(mem.segs, a), SafeSize(mem.segs, b);
    RequestsWellFormed(a, n, 0);
    RequestsWellFormed(b, k, 0);
    var swap, load := SwapAround(a, n), LoadByte(b, k);
    jobs := [Job(swap, false), Job(load, false)];
    var s := Sys(mem, RESET);
    SwapSeen(s, a, n);
    TwoJobsValid(swap, load, a, b, u);
    WrongLoadReported(Transact(s, swap, false), b, k);
    RunTwo(s, swap, load);
  }

  // ------------------------------------------------------------ the exact condition

  ghost predicate AlwaysSilent(mem: MemState, u: set<nat>) {
    forall jobs: seq<Job> :: ValidJobs(jobs, u) ==> Run(Sys(mem, RESET), jobs).board.errors == 0
  }

  /** The checker is free of false reports on a set of words, from a given memory, exactly when no two
      comparable bytes share a place in its RAM and every comparable byte whose place an erroring AMO
      can reach is zero. */
  lemma SilentIff(mem: MemState, u: set<nat>)
    ensures AlwaysSilent(mem, u) <==> NoClash(mem.segs, u) && TaintHarmless(mem.memory, mem.segs, u)
  {
    hide Run, Readable, Tainted, Memory.ByteAt;
    if NoClash(mem.segs, u) && TaintHarmless(mem.memory, mem.segs, u) {
      forall jobs: seq<Job> | ValidJobs(jobs, u)
        ensures Run(Sys(mem, RESET), jobs).board.errors == 0
      {
        GoldenAgreement(mem, jobs, u);
      }
    } else if !NoClash(mem.segs, u) {
      var a: nat, b: nat :| Within(a, u) && Within(b, u) && Readable(mem.segs, a) && Readable(mem.segs, b)
                            && Key(a) == Key(b) && a != b;
      var jobs := ClashReported(mem, a, b, u);
    } else {
      var a: nat, b: nat :| Within(a, u) && Within(b, u) && Tainted(mem.segs, a) && Readable(mem.segs, b)
                            && Key(a) == Key(b) && mem.memory.ByteAt(b) != 0;
      var jobs := TaintReported(mem, a, b, u);
    }
  }

  /** No place in the RAM is both reached by an erroring AMO and compared. */
  ghost predicate NoSplit(segs: seq<Segment>, u: set<nat>) {
    forall a: nat, b: nat ::
      Within(a, u) && Within(b, u) && Tainted(segs, a) && Readable(segs, b) ==> Key(a) != Key(b)
  }

  const ONES: Word := [1, 1, 1, 1, 1, 1, 1, 1]

  /** The memory whose bytes are all one. */
  function AllOnes(segs: seq<Segment>): MemState { MemState(Memory(map[], _ => ONES), map[], segs) }

  /** ... and, whatever the memory holds at the start, exactly when no place is split between erroring
      AMOs and other accesses either. */
  lemma SilentForEveryMemory(segs: seq<Segment>, u: set<nat>)
    ensures (forall mem: MemState :: mem.segs == segs ==> AlwaysSilent(mem, u)) <==> NoClash(segs, u) && NoSplit(segs, u)
  {
    var ones := AllOnes(segs);
    hide AlwaysSilent, Readable, Tainted;
    SilentIff(ones, u);
    if NoClash(segs, u) && NoSplit(segs, u) {
      forall mem: MemState | mem.segs == segs
        ensures AlwaysSilent(mem, u)
      {
        SilentIff(mem, u);
      }
    } else if NoClash(segs, u) {
      var a: nat, b: nat :| Within(a, u) && Within(b, u) && Tainted(segs, a) && Readable(segs, b) && Key(a) == Key(b);
      assert ones.memory.ByteAt(b) == 1;
    }
  }

  /** No two words of `u` share a place in a RAM of 16 MiB. */
  predicate NoAlias(u: set<nat>) {
    forall v, w :: v in u && w in u && (8 * v) % 0x100_0000 == (8 * w) % 0x100_0000 ==> v == w
  }

  /** Without error segments: exactly when no two words in use are a multiple of 16 MiB apart. */
  lemma SilentIffNoAlias(mem: MemState, u: set<nat>)
    requires mem.segs == []
    ensures AlwaysSilent(mem, u) <==> NoAlias(u)
  {
    SilentIff(mem, u);
    hide AlwaysSilent;
    if NoAlias(u) {
      forall a: nat, b: nat | Within(a, u) && Within(b, u) && Key(a) == Key(b)
        ensures a == b
      {
        KeyInWord(a);
        KeyInWord(b);
        SameWordKey(a, b);
      }
    } else {
      var v, w :| v in u && w in u && (8 * v) % 0x100_0000 == (8 * w) % 0x100_0000 && v != w;
      assert Key(8 * v) == Key(8 * w);
      assert Within(8 * v, u) && Within(8 * w, u) && Readable([], 8 * v) && Readable([], 8 * w);
    }
  }

  lemma KeyRemainder(a: nat)
    ensures Key(a) % 8 == a % 8
  {
    var q, k := a / SHADOW_BYTES, Key(a);
    RemainderUnique(a, 8, SHADOW_BYTES / 8 * q + k / 8, k % 8);
  }

  lemma SameWordKey(a: nat, b: nat)
    requires Key(a) == Key(b)
    ensures a % 8 == b % 8 && Key(8 * (a / 8)) == Key(8 * (b / 8))
  {
    KeyRemainder(a);
    KeyRemainder(b);
    KeyInWord(a);
    KeyInWord(b);
  }

  // ------------------------------------------------------------ two inputs

  /** The error segments of the random test sequence. */
  const RANDOM_TEST_SEGMENTS: seq<Segment> :=
    [Segment(0, 0x200, true), Segment(0x4000_4000, 0x4000_4200, true), Segment(0xC000_C000, 0xC000_C200, true)]

  /** One 8-byte AMO at address 0 of the random test's memory: the scoreboard then takes byte 0 for
      zero while memory holds another value. */
  lemma RandomTestTaint()
    ensures var mem, swap := AllOnes(RANDOM_TEST_SEGMENTS), SwapAround(0, 8);
            && WellFormed(swap) && swap.addr == 0 && swap.bytes == 8
            && var s := Transact(Sys(mem, RESET), swap, false);
               Key(0) in s.board.shadow && s.board.shadow[Key(0)] == 0 && s.mem.memory.ByteAt(0) == 1
  {
    RequestsWellFormed(0, 8, 0);
    var mem := AllOnes(RANDOM_TEST_SEGMENTS);
    assert Errs(mem.segs, 0, 8);
    SwapSeen(Sys(mem, RESET), 0, 8);
    hide Transact;
  }

  /** The upper half of a word whose lower half lies in an error segment. */
  const HALF_SEGMENT: seq<Segment> := [Segment(0, 4, true)]

  /** With an error segment that ends inside a word, an 8-byte AMO on the word and a correct load of
      its upper half are reported. */
  lemma SplitWordReported()
    ensures var mem, swap, load := AllOnes(HALF_SEGMENT), SwapAround(0, 8), LoadByte(4, 4);
            && swap.addr == 0 && load.addr == 4 && swap.bytes == 8 && load.bytes == 4
            && ValidJobs([Job(swap, false), Job(load, false)], {0})
            && Run(Sys(mem, RESET), [Job(swap, false), Job(load, false)]).board.errors > 0
  {
    RequestsWellFormed(0, 8, 0);
    RequestsWellFormed(4, 4, 0);
    assert SwapAround(0, 8) == SwapAround(4, 8);
    var s := Sys(AllOnes(HALF_SEGMENT), RESET);
    HalfSegment();
    assert ValidJobs([Job(SwapAround(4, 8), false), Job(LoadByte(4, 4), false)], {0});
    assert s.mem.memory.ByteAt(4) == 1 && Idle(s.board) && s.mem.segs == HALF_SEGMENT;
    assert SwapAround(4, 8).addr == 0 && LoadByte(4, 4).addr == 4;
    hide *;
    SwapSeen(s, 4, 8);
    WrongLoadReported(Transact(s, SwapAround(4, 8), false), 4, 4);
    RunTwo(s, SwapAround(4, 8), LoadByte(4, 4));
  }

  lemma HalfSegment()
    ensures Errs(HALF_SEGMENT, 4, 8) && !Errs(HALF_SEGMENT, 4, 4) && IsSize(4)
  {
  }
}
