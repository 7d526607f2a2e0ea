// The binary memory trace: what qemu_plugin.c writes and what the trace_reader of the test bench
// reads. The compressor between them hands every chunk on unchanged.
module QemuTrace {
  import opened Prelude
  import opened Bytes

  const SIZE_BUFFER: nat := 5000
  const ADDRESS_RANGE: nat := 0x2_0000_0000_0000

  // ------------------------------------------------------------------ accesses

  /** The qemu_plugin_mem_value types up to 64 bits. */
  datatype ValueType = U8 | U16 | U32 | U64

  datatype Access = Access(isStore: bool, address: nat, size: nat, delay: nat, kind: ValueType, value: nat,
                           uncacheable: bool)
  {
    /** What QEMU supplies: a 64-bit address, a size shift, and a value of its own type. */
    predicate Valid() {
      address < Pow256(8) && size < 8 && value < Pow256(Width(kind))
    }
  }

  function Width(k: ValueType): nat {
    match k
    case U8 => 1
    case U16 => 2
    case U32 => 4
    case U64 => 8
  }

  /** get_size_value */
  function SizeValue(k: ValueType): nat {
    match k
    case U8 => 0
    case U16 => 1
    case U32 => 2
    case U64 => 3
  }

  function SizeByte(a: Access): Byte
    requires a.Valid()
  {
    a.size + 16 * SizeValue(a.kind)
  }

  function BooleanByte(a: Access): Byte {
    (if a.isStore then 4 else 2) + (if a.uncacheable then 1 else 0)
  }

  function Header(a: Access): (bs: seq<Byte>)
    requires a.Valid()
    ensures |bs| == 11
  {
    [a.delay % 256] + ToBytes(a.address, 8) + [SizeByte(a)] + [BooleanByte(a)]
  }

  /** The bytes of one access. */
  function Encode(a: Access): (bs: seq<Byte>)
    requires a.Valid()
    ensures |bs| >= 11
  {
    Header(a) + if a.isStore then ToBytes(a.value, Width(a.kind)) else []
  }

  /** The layout of a record: delay, address and value little-endian, size codes, flags. */
  lemma RecordLayout(a: Access, k: nat)
    requires a.Valid() && k < |Encode(a)|
    ensures |Encode(a)| == 11 + if !a.isStore then 0
                                else match a.kind case U8 => 1 case U16 => 2 case U32 => 4 case U64 => 8
    ensures Encode(a)[k] ==
            if k == 0 then a.delay % 256
            else if k < 9 then (a.address / Pow256(k - 1)) % 256
            else if k == 9 then a.size + 16 * (match a.kind case U8 => 0 case U16 => 1 case U32 => 2 case U64 => 3)
            else if k == 10 then (if a.isStore then 4 else 2) + (if a.uncacheable then 1 else 0)
            else (a.value / Pow256(k - 11)) % 256
  {
    if 1 <= k < 9 {
      ByteOf(a.address, 8, k - 1);
    } else if k >= 11 {
      ByteOf(a.value, Width(a.kind), k - 11);
    }
    hide ToBytes, Pow256;
  }

  predicate AllValid(accesses: seq<Access>) {
    forall k :: 0 <= k < |accesses| ==> accesses[k].Valid()
  }

  function EncodeAll(accesses: seq<Access>): seq<Byte>
    requires AllValid(accesses)
  {
    if accesses == [] then [] else Encode(accesses[0]) + EncodeAll(accesses[1..])
  }

  lemma EncodeStep(accesses: seq<Access>)
    requires AllValid(accesses)
    ensures accesses == [] ==> EncodeAll(accesses) == []
    ensures accesses != [] ==>
              && accesses[0].Valid() && AllValid(accesses[1..])
              && EncodeAll(accesses) == Encode(accesses[0]) + EncodeAll(accesses[1..])
  {
    hide Encode, Access.Valid;
  }

  lemma {:induction false} EncodeLast(accesses: seq<Access>, a: Access)
    requires AllValid(accesses) && a.Valid()
    ensures AllValid(accesses + [a]) && EncodeAll(accesses + [a]) == EncodeAll(accesses) + Encode(a)
  {
    hide Encode, EncodeAll, Access.Valid;
    EncodeStep(accesses);
    EncodeStep(accesses + [a]);
    if accesses == [] {
      assert (accesses + [a])[1..] == [] && (accesses + [a])[0] == a;
      EncodeStep([]);
    } else {
      EncodeLast(accesses[1..], a);
      assert (accesses + [a])[1..] == accesses[1..] + [a] && (accesses + [a])[0] == accesses[0];
      hide AllValid;
      JoinThree(Encode(accesses[0]), EncodeAll(accesses[1..]), Encode(a));
    }
  }

  lemma JoinThree(a: seq<Byte>, b: seq<Byte>, c: seq<Byte>)
    ensures a + (b + c) == (a + b) + c
  {
  }

  // ------------------------------------------------------------------ the writer

  /** What is in the file once QEMU exits, or None when the exit handler never returns: the last
      partial chunk `offset < buffer_begin - 1` is lost when it holds one byte, and the unsigned
      comparison runs for ever when it holds none. */
  function FileOf(bytes: seq<Byte>): Option<seq<Byte>> {
    var tail := |bytes| % SIZE_BUFFER;
    if tail == 0 then None
    else if tail == 1 then Some(bytes[..|bytes| - 1])
    else Some(bytes)
  }

  class Writer {
    var buffer: array<Byte>
    var begin: nat
    var file: seq<Byte>

    ghost predicate Valid()
      reads this
    {
      buffer.Length == SIZE_BUFFER && begin < SIZE_BUFFER && |file| % SIZE_BUFFER == 0
    }

    /** All bytes written so far, flushed or not. */
    ghost function Written(): seq<Byte>
      reads this, buffer
      requires begin <= buffer.Length
    {
      file + buffer[..begin]
    }

    constructor ()
      ensures Valid() && fresh(buffer) && Written() == []
    {
      buffer := new Byte[SIZE_BUFFER](_ => 0);
      begin := 0;
      file := [];
    }

    /** compress_data_to_file; `done` is false where the source loops for ever. */
    method CompressDataToFile() returns (done: bool)
      requires buffer.Length == SIZE_BUFFER && begin <= SIZE_BUFFER
      modifies this`file
      ensures done <==> begin > 0
      ensures file == if begin >= 2 then old(Written()) else old(file)
    {
      if begin == 0 {
        return false;
      }
      var offset := 0;
      while offset < begin - 1
        invariant offset == 0 || (offset == begin && begin > 1)
        invariant file == old(file) + buffer[..offset]
        decreases begin - offset
      {
        var chunk := if begin - offset >= begin then begin else begin - offset;
        file := file + buffer[offset..offset + chunk];
        offset := offset + chunk;
      }
      assert buffer[..0] == [];
      done := true;
    }

    method WriteBuffer(data: seq<Byte>)
      requires Valid()
      modifies this`begin, this`file, buffer
      ensures Valid() && Written() == old(Written()) + data
    {
      var i := 0;
      while i < |data|
        invariant 0 <= i <= |data| && Valid()
        invariant buffer == old(buffer) && Written() == old(Written()) + data[..i]
      {
        assert data[..i + 1] == data[..i] + [data[i]];
        WriteByte(data[i]);
        i := i + 1;
      }
      assert data[..i] == data;
    }

    /** One turn of the loop of write_buffer. */
    method WriteByte(b: Byte)
      requires Valid()
      modifies this`begin, this`file, buffer
      ensures Valid() && buffer == old(buffer) && Written() == old(Written()) + [b]
    {
      buffer[begin] := b;
      begin := begin + 1;
      assert buffer[..begin] == old(buffer[..begin]) + [b];
      if begin == SIZE_BUFFER {
        var _ := CompressDataToFile();
        begin := 0;
      }
    }

    /** write_in_file */
    method WriteInFile(a: Access)
      requires Valid() && a.Valid()
      modifies this`begin, this`file, buffer
      ensures Valid() && Written() == old(Written()) + Encode(a)
    {
      hide ToBytes, Pow256;
      ghost var before := Written();
      WriteBuffer([a.delay % 256]);
      WriteBuffer(ToBytes(a.address, 8));
      WriteBuffer([SizeByte(a)]);
      var boolean := 2;
      if a.isStore {
        boolean := boolean + 4;
        boolean := boolean - 2;
      }
      boolean := boolean + if a.uncacheable then 1 else 0;
      WriteBuffer([boolean]);
      assert boolean == BooleanByte(a);
      FourPieces(before, [a.delay % 256], ToBytes(a.address, 8), [SizeByte(a)], [BooleanByte(a)]);
      assert Written() == before + Header(a);
      hide Header, Written;
      if a.isStore {
        WriteBuffer(ToBytes(a.value, Width(a.kind)));
      }
      RecordPieces(before, a);
    }

    /** plugin_exit */
    method Exit() returns (result: Option<seq<Byte>>)
      requires Valid()
      modifies this`file
      ensures result == FileOf(old(Written()))
    {
      assert |Written()| % SIZE_BUFFER == begin by {
        RemainderUnique(|Written()|, SIZE_BUFFER, |file| / SIZE_BUFFER, begin);
      }
      ghost var all := Written();
      assert begin == 1 ==> all[..|all| - 1] == file;
      var done := CompressDataToFile();
      result := if done then Some(file) else None;
    }
  }

  lemma FourPieces(s: seq<Byte>, a: seq<Byte>, b: seq<Byte>, c: seq<Byte>, d: seq<Byte>)
    ensures s + a + b + c + d == s + (a + b + c + d)
  {
  }

  lemma RecordPieces(s: seq<Byte>, a: Access)
    requires a.Valid()
    ensures s + Encode(a) == s + Header(a) + if a.isStore then ToBytes(a.value, Width(a.kind)) else []
  {
    hide Header, ToBytes;
  }

  /** Records a whole execution. */
  method Record(accesses: seq<Access>) returns (file: Option<seq<Byte>>)
    requires AllValid(accesses)
    ensures file == FileOf(EncodeAll(accesses))
  {
    var w := new Writer();
    for i := 0 to |accesses|
      invariant w.Valid() && fresh(w) && fresh(w.buffer)
      invariant AllValid(accesses[..i]) && w.Written() == EncodeAll(accesses[..i])
    {
      w.WriteInFile(accesses[i]);
      EncodeLast(accesses[..i], accesses[i]);
      assert accesses[..i] + [accesses[i]] == accesses[..i + 1];
    }
    assert accesses[..|accesses|] == accesses;
    file := w.Exit();
  }

  // ------------------------------------------------------------------ the format, read back

  /** The request a record stands for; wdata is None where the request keeps its old data. */
  datatype Request = Request(addr: nat, size: nat, op: nat, needRsp: bool, uncacheable: bool, wdata: Option<nat>,
                             delay: nat)

  /** get_bit on a byte held in a signed char: position 1 is the lowest bit. */
  function GetBit(b: Byte, position: nat): bool
    requires 1 <= position <= 8
  {
    var shifted := (b * Pow2(8 - position)) % 256;
    var signed := if shifted >= 128 then shifted - 256 else shifted;
    (signed / 128) % 2 != 0
  }

  /** read_size: the high half of a signed char, kept in 8 bits. */
  function SizeValueRead(b: Byte): Byte { if b < 128 then b / 16 else b / 16 + 240 }

  /** read_size: the low half, sign-extended, kept in the 3 bits of req_size. */
  function SizeRead(b: Byte): nat {
    var low := b % 16;
    (if low >= 8 then low + 240 else low) % 8
  }

  /** How many bytes read_value takes for this size code. */
  function ValueBytes(code: nat): nat {
    match code
    case 0 => 1
    case 1 => 2
    case 2 => 4
    case 3 => 8
    case 4 => 8
    case _ => 0
  }

  function OpRead(b: Byte): nat { (b / 4) % 32 }

  /** The length of the first record of a trace. */
  function RecordLength(bs: seq<Byte>): nat
    requires |bs| >= 11
  {
    11 + if OpRead(bs[10]) == 1 then ValueBytes(SizeValueRead(bs[9])) else 0
  }

  predicate RecordReady(bs: seq<Byte>) { |bs| >= 11 && |bs| >= RecordLength(bs) }

  /** The first record of a trace. */
  function Parse(bs: seq<Byte>): Request
    requires RecordReady(bs)
  {
    Request(Value(bs[1..9]) % ADDRESS_RANGE, SizeRead(bs[9]), OpRead(bs[10]), GetBit(bs[10], 2), GetBit(bs[10], 1),
            if RecordLength(bs) > 11 then Some(Value(bs[11..RecordLength(bs)])) else None, bs[0])
  }

  /** Every record of the trace is complete. */
  predicate Complete(bs: seq<Byte>)
    decreases |bs|
  {
    bs == [] || (RecordReady(bs) && Complete(bs[RecordLength(bs)..]))
  }

  function ParseAll(bs: seq<Byte>): seq<Request>
    requires Complete(bs)
    decreases |bs|
  {
    if bs == [] then [] else [Parse(bs)] + ParseAll(bs[RecordLength(bs)..])
  }

  // ------------------------------------------------------------------ the reader

  function Join(chunks: seq<seq<Byte>>): seq<Byte> {
    if chunks == [] then [] else chunks[0] + Join(chunks[1..])
  }

  class Reader {
    /** What the decompressor will still deliver, refill by refill. */
    var refills: seq<seq<Byte>>
    var buf: seq<Byte>
    var cursor: nat
    var last: bool

    ghost predicate Valid()
      reads this
    {
      && cursor <= |buf|
      && (forall k :: 0 <= k < |refills| ==> refills[k] != [])
      && (last ==> refills == [])
      && (buf != [] && refills == [] ==> last)
    }

    /** The bytes not read yet. */
    ghost function Rest(): seq<Byte>
      reads this
      requires cursor <= |buf|
    {
      buf[cursor..] + Join(refills)
    }

    constructor (chunks: seq<seq<Byte>>)
      requires forall k :: 0 <= k < |chunks| ==> chunks[k] != []
      ensures Valid() && Rest() == Join(chunks) && buf == []
    {
      refills := chunks;
      buf := [];
      cursor := 0;
      last := false;
    }

    /** decompress_data_from_trace */
    method Refill()
      requires Valid() && cursor == |buf| && refills != []
      modifies this
      ensures Valid() && Rest() == old(Rest()) && cursor < |buf|
    {
      buf := refills[0];
      cursor := 0;
      refills := refills[1..];
      last := refills == [];
    }

    /** get_content_of_trace */
    method GetContent(size: nat) returns (bytes: seq<Byte>)
      requires Valid() && size <= |Rest()|
      modifies this
      ensures Valid() && bytes == old(Rest())[..size] && Rest() == old(Rest())[size..]
      ensures size > 0 || old(buf) != [] ==> buf != []
      decreases size
    {
      ghost var before := Rest();
      if size == 0 {
        TakeOne(before, 0);
        return [];
      }
      if cursor == |buf| {
        EmptyRest(buf, refills);
        Refill();
      }
      var b := buf[cursor];
      AdvanceRest(buf, cursor, Join(refills));
      cursor := cursor + 1;
      hide Join;
      assert Rest() == before[1..];
      var more := GetContent(size - 1);
      bytes := [b] + more;
      TakeOne(before, size);
    }

    method IsFinish() returns (done: bool)
      requires Valid()
      ensures buf != [] ==> (done <==> Rest() == [])
    {
      done := |buf| <= cursor && last;
      NonEmptyJoin(refills);
    }

    /** read_transaction, with its field readers. */
    method ReadTransaction() returns (r: Request)
      requires Valid() && RecordReady(Rest())
      modifies this
      ensures Valid() && buf != []
      ensures r == Parse(old(Rest())) && Rest() == old(Rest())[RecordLength(old(Rest()))..]
    {
      hide Rest, Value, GetBit;
      ghost var all := Rest();
      var delay := GetContent(1);
      var address := GetContent(8);
      Slice(all, 1, 8);
      var size := GetContent(1);
      Slice(all, 9, 1);
      var boolean := GetContent(1);
      Slice(all, 10, 1);
      var op := OpRead(boolean[0]);
      var wdata := None;
      if op == 1 {
        var n := ValueBytes(SizeValueRead(size[0]));
        var data := GetContent(n);
        Slice(all, 11, n);
        if n > 0 {
          wdata := Some(Value(data));
        }
      }
      r := Request(Value(address) % ADDRESS_RANGE, SizeRead(size[0]), op, GetBit(boolean[0], 2), GetBit(boolean[0], 1),
                   wdata, delay[0]);
    }
  }

  lemma EmptyRest(buf: seq<Byte>, chunks: seq<seq<Byte>>)
    requires buf[|buf|..] + Join(chunks) != []
    ensures chunks != [] && buf[|buf|..] + Join(chunks) == chunks[0][0..] + Join(chunks[1..])
  {
  }

  lemma AdvanceRest(buf: seq<Byte>, cursor: nat, rest: seq<Byte>)
    requires cursor < |buf|
    ensures buf[cursor..] + rest == [buf[cursor]] + (buf[cursor + 1..] + rest)
  {
  }

  lemma TakeOne(s: seq<Byte>, size: nat)
    requires size <= |s|
    ensures size == 0 ==> s[..0] == [] && s[0..] == s
    ensures size > 0 ==> s[..size] == [s[0]] + s[1..][..size - 1] && s[size..] == s[1..][size - 1..]
  {
  }

  lemma Slice(s: seq<Byte>, at: nat, size: nat)
    requires at + size <= |s|
    ensures s[at..][..size] == s[at..at + size] && s[at..][size..] == s[at + size..]
    ensures size == 1 ==> s[at..at + size] == [s[at]]
  {
  }

  lemma NonEmptyJoin(chunks: seq<seq<Byte>>)
    requires forall k :: 0 <= k < |chunks| ==> chunks[k] != []
    ensures Join(chunks) == [] <==> chunks == []
  {
    if chunks != [] {
      assert chunks[0] != [];
    }
  }

  /** Replays a trace, however the refills cut it up: at most `max` requests, in order. */
  method Replay(chunks: seq<seq<Byte>>, max: nat) returns (requests: seq<Request>)
    requires forall k :: 0 <= k < |chunks| ==> chunks[k] != []
    requires chunks != [] && Complete(Join(chunks))
    ensures requests == ParseAll(Join(chunks))[..if max < |ParseAll(Join(chunks))| then max else |ParseAll(Join(chunks))|]
  {
    hide ParseAll, Complete, Parse, RecordReady, RecordLength, Join;
    ghost var all := ParseAll(Join(chunks));
    var reader := new Reader(chunks);
    NonEmptyJoin(chunks);
    requests := [];
    var done := false;
    assert requests + ParseAll(reader.Rest()) == all;
    while !done && |requests| < max
      invariant reader.Valid() && fresh(reader) && Complete(reader.Rest())
      invariant all == requests + ParseAll(reader.Rest())
      invariant |requests| <= max && (done <==> reader.Rest() == [])
      decreases |reader.Rest()|
    {
      ghost var left := reader.Rest();
      ParseAllStep(left);
      var r := reader.ReadTransaction();
      assert requests + ([r] + ParseAll(reader.Rest())) == (requests + [r]) + ParseAll(reader.Rest());
      requests := requests + [r];
      done := reader.IsFinish();
    }
    ParseAllEnd();
  }

  lemma ParseAllStep(bs: seq<Byte>)
    requires Complete(bs) && bs != []
    ensures RecordReady(bs) && Complete(bs[RecordLength(bs)..])
    ensures ParseAll(bs) == [Parse(bs)] + ParseAll(bs[RecordLength(bs)..]) && 11 <= RecordLength(bs) <= |bs|
  {
    hide Parse;
  }

  lemma ParseAllEnd()
    ensures Complete([]) && ParseAll([]) == []
  {
  }

  // ------------------------------------------------------------------ round trip

  /** What the test bench is meant to see of an access: the delay modulo 256, a physical address of
      49 bits, a response for loads only and data for stores only. */
  function Seen(a: Access): Request {
    Request(a.address % 0x2_0000_0000_0000, a.size, if a.isStore then 1 else 0, !a.isStore, a.uncacheable,
            if a.isStore then Some(a.value) else None, a.delay % 256)
  }

  function SeenAll(accesses: seq<Access>): seq<Request> {
    if accesses == [] then [] else [Seen(accesses[0])] + SeenAll(accesses[1..])
  }

  /** Shifting a bit of a byte to the top of a char tells whether it is set. */
  lemma TopBit(b: Byte, p: nat, s: nat)
    requires p > 0 && s > 0 && p * s == 128
    ensures (b * s) % 256 >= 128 <==> (b / p) % 2 == 1
  {
    Upper(b, p, s);
    Lower(p, b % p, s);
    HalfByte(b * s, b / p, (b % p) * s);
  }

  lemma Upper(b: nat, p: nat, s: nat)
    requires p > 0 && p * s == 128
    ensures b * s == 128 * (b / p) + (b % p) * s
  {
    var q, r := b / p, b % p;
    Distribute(q * p, r, s);
    Associate(q, p, s);
  }

  lemma Lower(p: nat, r: nat, s: nat)
    requires p * s == 128 && r < p && s > 0
    ensures 0 <= r * s < 128
  {
    Distribute(p, r, s);
    MulAtLeast(p - r, s);
  }

  lemma HalfByte(x: nat, q: nat, low: nat)
    requires x == 128 * q + low && low < 128
    ensures x % 256 >= 128 <==> q % 2 == 1
  {
  }

  /** get_bit returns the bit that its comment promises. */
  lemma GetBitMeaning(b: Byte, position: nat)
    requires 1 <= position <= 8
    ensures GetBit(b, position) <==> (b / Pow2(position - 1)) % 2 == 1
  {
    Pow2Add(position - 1, 8 - position);
    assert Pow2(7) == 128;
    hide Pow2;
    TopBit(b, Pow2(position - 1), Pow2(8 - position));
  }

  lemma FieldsOfHeader(a: Access, tail: seq<Byte>)
    requires a.Valid()
    ensures var bs := Header(a) + tail;
            && |bs| >= 11 && bs[0] == a.delay % 256 && bs[1..9] == ToBytes(a.address, 8)
            && bs[9] == SizeByte(a) && bs[10] == BooleanByte(a) && bs[11..] == tail
  {
    hide ToBytes, SizeByte, BooleanByte, Pow256;
    var head := Header(a);
    assert head[1..9] == ToBytes(a.address, 8) && head[9] == SizeByte(a) && head[10] == BooleanByte(a);
    hide Header;
    assert (head + tail)[1..9] == head[1..9];
  }

  /** One record, whatever follows it. */
  lemma ParseEncode(a: Access, tail: seq<Byte>)
    requires a.Valid()
    ensures var bs := Encode(a) + tail;
            RecordReady(bs) && RecordLength(bs) == |Encode(a)| && Parse(bs) == Seen(a)
  {
    var data := if a.isStore then ToBytes(a.value, Width(a.kind)) else [];
    var bs := Encode(a) + tail;
    hide Header, ToBytes, Value, Pow256, GetBit, SizeRead, SizeByte, BooleanByte, OpRead, SizeValueRead, RecordLength;
    assert bs == Header(a) + (data + tail);
    FieldsOfHeader(a, data + tail);
    hide Encode, Parse, RecordReady;
    BytesOfHeader(a);
    ParseParts(bs, data, tail);
    NumbersOf(a);
  }

  lemma NumbersOf(a: Access)
    requires a.Valid()
    ensures Value(ToBytes(a.address, 8)) == a.address && Value(ToBytes(a.value, Width(a.kind))) == a.value
    ensures GetBit(BooleanByte(a), 1) == a.uncacheable && GetBit(BooleanByte(a), 2) == !a.isStore
  {
    hide Value, ToBytes, Pow256, GetBit, BooleanByte;
    ExactBytes(a.address, 8);
    ExactBytes(a.value, Width(a.kind));
    BytesOfHeader(a);
    GetBitMeaning(BooleanByte(a), 1);
    GetBitMeaning(BooleanByte(a), 2);
    assert Pow2(0) == 1 && Pow2(1) == 2;
  }

  lemma ExactBytes(v: nat, n: nat)
    requires v < Pow256(n)
    ensures Value(ToBytes(v, n)) == v
  {
    hide Value, ToBytes, Pow256;
    ValueOfBytes(v, n);
    RemainderUnique(v, Pow256(n), 0, v);
  }

  lemma ParseParts(bs: seq<Byte>, data: seq<Byte>, tail: seq<Byte>)
    requires |bs| >= 11 && bs[11..] == data + tail
    requires |data| == if OpRead(bs[10]) == 1 then ValueBytes(SizeValueRead(bs[9])) else 0
    ensures RecordReady(bs) && RecordLength(bs) == 11 + |data|
    ensures Parse(bs) == Request(Value(bs[1..9]) % ADDRESS_RANGE, SizeRead(bs[9]), OpRead(bs[10]), GetBit(bs[10], 2),
                                 GetBit(bs[10], 1), if data != [] then Some(Value(data)) else None, bs[0])
  {
    hide Value, GetBit, OpRead, SizeRead, SizeValueRead;
    RecordParts(bs, data, tail);
  }

  lemma BytesOfHeader(a: Access)
    requires a.Valid()
    ensures SizeRead(SizeByte(a)) == a.size && ValueBytes(SizeValueRead(SizeByte(a))) == Width(a.kind)
    ensures OpRead(BooleanByte(a)) == if a.isStore then 1 else 0
    ensures BooleanByte(a) < 8 && (BooleanByte(a) % 2 == 1 <==> a.uncacheable)
    ensures (BooleanByte(a) / 2) % 2 == 1 <==> !a.isStore
  {
    hide Pow256;
  }

  lemma RecordParts(bs: seq<Byte>, data: seq<Byte>, tail: seq<Byte>)
    requires |bs| >= 11 && bs[11..] == data + tail
    ensures bs[11..11 + |data|] == data
  {
    Slice(bs, 11, |data|);
  }

  lemma {:induction false} ParseEncodeAll(accesses: seq<Access>)
    requires AllValid(accesses)
    ensures Complete(EncodeAll(accesses)) && ParseAll(EncodeAll(accesses)) == SeenAll(accesses)
  {
    if accesses != [] {
      var rest := EncodeAll(accesses[1..]);
      ParseEncodeAll(accesses[1..]);
      ParseEncode(accesses[0], rest);
      hide Encode, Parse, RecordLength, RecordReady;
      assert (Encode(accesses[0]) + rest)[|Encode(accesses[0])|..] == rest;
    }
  }

  /** A trace that lost its last byte cannot be read to the end. */
  lemma {:induction false} TruncatedTrace(accesses: seq<Access>)
    requires AllValid(accesses) && accesses != []
    ensures var bs := EncodeAll(accesses);
            |bs| > 0 && !Complete(bs[..|bs| - 1])
  {
    var a, rest := accesses[0], EncodeAll(accesses[1..]);
    var bs := Encode(a) + rest;
    var cut := bs[..|bs| - 1];
    if |accesses| == 1 {
      assert bs == Encode(a);
      TruncatedRecord(a);
    } else {
      TruncatedTrace(accesses[1..]);
      var short := rest[..|rest| - 1];
      assert cut == Encode(a) + short;
      IncompleteTail(a, short);
    }
  }

  lemma IncompleteTail(a: Access, tail: seq<Byte>)
    requires a.Valid() && !Complete(tail)
    ensures !Complete(Encode(a) + tail)
  {
    ParseEncode(a, tail);
    hide Encode, Parse, RecordLength, RecordReady;
    assert (Encode(a) + tail)[|Encode(a)|..] == tail;
  }

  lemma TruncatedRecord(a: Access)
    requires a.Valid()
    ensures var bs := Encode(a);
            !RecordReady(bs[..|bs| - 1])
  {
    var bs := Encode(a);
    var cut := bs[..|bs| - 1];
    ParseEncode(a, []);
    assert bs + [] == bs;
    hide Encode, Parse;
    if |cut| >= 11 {
      assert cut[9] == bs[9] && cut[10] == bs[10];
    }
  }

  /** The whole trace survives recording and replay exactly when the bytes left for the exit
      handler are at least two. */
  lemma TraceRoundTrip(accesses: seq<Access>)
    requires AllValid(accesses)
    ensures var file := FileOf(EncodeAll(accesses));
            (file.Some? && Complete(file.value) && ParseAll(file.value) == SeenAll(accesses))
            <==> |EncodeAll(accesses)| % 5000 >= 2
  {
    hide *;
    ParseEncodeAll(accesses);
    EncodeStep(accesses);
    FileCases(EncodeAll(accesses));
    if accesses != [] {
      TruncatedTrace(accesses);
    }
  }

  lemma FileCases(bytes: seq<Byte>)
    ensures |bytes| % 5000 == 0 ==> FileOf(bytes) == None
    ensures |bytes| % 5000 == 1 ==> |bytes| > 0 && FileOf(bytes) == Some(bytes[..|bytes| - 1])
    ensures |bytes| % 5000 >= 2 ==> FileOf(bytes) == Some(bytes)
  {
  }

  /** `n` loads of one address. */
  function Loads(n: nat): (accesses: seq<Access>)
    ensures |accesses| == n && AllValid(accesses)
  {
    if n == 0 then [] else [Access(false, 0x8000_0000, 3, 0, U64, 0, false)] + Loads(n - 1)
  }

  lemma {:induction false} LoadsLength(n: nat)
    ensures |EncodeAll(Loads(n))| == 11 * n
  {
    if n > 0 {
      assert Loads(n)[1..] == Loads(n - 1);
      LoadsLength(n - 1);
      hide Pow256, ToBytes;
    }
  }

  /** 5000 loads fill the last buffer exactly: the exit handler never returns. */
  lemma FullBufferHangs()
    ensures FileOf(EncodeAll(Loads(5000))) == None
  {
    LoadsLength(5000);
    hide Loads, EncodeAll;
  }

  /** 4091 loads leave one byte: it is lost, and the file cannot be read to the end. */
  lemma LastByteLost()
    ensures var bytes, file := EncodeAll(Loads(4091)), FileOf(EncodeAll(Loads(4091)));
            |bytes| == 45001 && file.Some? && |file.value| == 45000 && !Complete(file.value)
  {
    LoadsLength(4091);
    TruncatedTrace(Loads(4091));
    hide Loads, EncodeAll, Complete;
  }
}
