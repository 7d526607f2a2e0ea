// Decapsulation of instruction-trace packets (Decapsuler.cpp): 40 bytes, an
// encapsulation header read from the front and a payload read from the back.
module TracePacket {
  import opened Prelude
  import opened BitFields
  import opened Bytes

  const PACKET_SIZE: nat := 40
  const PACKET_BITS: nat := 320

  /** The packet as one big-endian integer. */
  function BigEndian(bs: seq<Byte>): nat {
    if bs == [] then 0 else 256 * BigEndian(bs[..|bs| - 1]) + bs[|bs| - 1]
  }

  /** `(packet[g / 8] >> (7 - g % 8)) & 1` */
  function BitAt(bs: seq<Byte>, g: nat): nat
    requires g < 8 * |bs|
  {
    Field(bs[g / 8], 7 - g % 8, 1)
  }

  /** extract_bits when the length is too large. */
  const DESYNCHRO: nat := 0xdead

  /** The bits from `lo` (counted from the end of the packet), as extract_bits returns them. */
  function Take(x: nat, lo: nat, n: nat): nat { if n <= 64 then Field(x, lo, n) else DESYNCHRO }

  /** A byte's bits are the bits of the integer. */
  lemma {:induction false} BitOfInteger(bs: seq<Byte>, g: nat)
    requires g < 8 * |bs|
    ensures BitAt(bs, g) == Field(BigEndian(bs), 8 * |bs| - 1 - g, 1)
  {
    var front, last := bs[..|bs| - 1], bs[|bs| - 1];
    var x := BigEndian(front);
    if g < 8 * |front| {
      BitOfInteger(front, g);
      assert bs[g / 8] == front[g / 8];
      FieldAboveByte(x, last, 8 * |front| - 1 - g, 1);
    } else {
      assert g / 8 == |bs| - 1;
      FieldInByte(x, last, 7 - g % 8);
    }
  }

  lemma FieldAboveByte(x: nat, b: Byte, lo: nat, n: nat)
    ensures Field(256 * x + b, lo + 8, n) == Field(x, lo, n)
  {
    Pow2Add(8, lo);
    BytePower();
    DropByte(x, b, Pow2(lo));
  }

  lemma DropByte(x: nat, b: Byte, p: nat)
    requires p > 0
    ensures (256 * x + b) / (256 * p) == x / p
  {
    var q, r := x / p, x % p;
    MulBytes(q, p);
    RemainderUnique(256 * x + b, 256 * p, q, 256 * r + b);
  }

  lemma FieldInByte(x: nat, b: Byte, lo: nat)
    requires lo < 8
    ensures Field(256 * x + b, lo, 1) == Field(b, lo, 1)
  {
    Pow2Add(lo, 8 - lo);
    Pow2Add(lo + 1, 7 - lo);
    BytePower();
    var k := x * Pow2(7 - lo);
    Associate(x, Pow2(7 - lo), Pow2(lo + 1));
    FieldIgnoresAbove(b, k, lo, 1);
  }

  /** One more bit below a field. */
  lemma FieldGrows(x: nat, lo: nat, n: nat)
    ensures Field(x, lo, n + 1) == 2 * Field(x, lo + 1, n) + Field(x, lo, 1)
  {
    var q := x / Pow2(lo);
    HalfQuotient(x, Pow2(lo));
    RemainderDouble(q, Pow2(n));
  }

  lemma HalfQuotient(x: nat, p: nat)
    requires p > 0
    ensures (x / p) / 2 == x / (2 * p)
  {
    var q, r := x / p, x % p;
    MulDouble(q / 2, p);
    assert x == (q / 2) * (2 * p) + ((q % 2) * p + r) by {
      Distribute(2 * (q / 2), q % 2, p);
    }
    if q % 2 == 1 {
      RemainderUnique(x, 2 * p, q / 2, p + r);
    } else {
      RemainderUnique(x, 2 * p, q / 2, r);
    }
  }

  /** extract_bits: the slice of the big-endian integer. */
  method ExtractBits(packet: seq<Byte>, offset: nat, length: nat) returns (result: nat)
    requires length <= 64 ==> offset + length <= 8 * |packet|
    ensures length <= 64 ==> result == Field(BigEndian(packet), 8 * |packet| - offset - length, length)
    ensures length > 64 ==> result == DESYNCHRO
  {
    result := DESYNCHRO;
    if length <= 64 {
      result := 0;
      ghost var x, bits := BigEndian(packet), 8 * |packet|;
      for i := 0 to length
        invariant result == Field(x, bits - offset - i, i)
      {
        var globalBit := offset + i;
        var bit := Field(packet[globalBit / 8], 7 - globalBit % 8, 1);
        BitOfInteger(packet, globalBit);
        FieldGrows(x, bits - offset - i - 1, i);
        result := result * 2 + bit;
      }
    }
  }

  // ------------------------------------------------------------------ the decoder

  // The fields that the constructor of Trace can set; the others stay empty.
  datatype Trace = Trace(
    pTime: nat, pId: nat, pSize: nat, pTimestamp: nat, format: nat,
    subformat: Option<nat>, address: Option<nat>, branch: Option<nat>, branches: Option<nat>,
    branchMap: Option<nat>, ecause: Option<nat>, ienable: Option<nat>, encoderMode: Option<nat>,
    interrupt: Option<nat>, irreport: Option<nat>, irdepth: Option<nat>, notify: Option<nat>,
    ioptions: Option<nat>, privilege: Option<nat>, qualStatus: Option<nat>, time: Option<nat>,
    thaddr: Option<nat>, tval: Option<nat>, updiscon: Option<nat>)

  /** Width of the branch map, by the number of branches. */
  function BranchMapSize(branches: nat): nat {
    if branches == 0 then 31
    else if branches == 1 then 1
    else if branches <= 3 then 3
    else if branches <= 7 then 7
    else if branches <= 15 then 15
    else 31
  }

  function Header(x: nat): Trace {
    Trace(Field(x, 319, 1), Field(x, 317, 2), Field(x, 312, 5), Field(x, 248, 64), Field(x, 0, 2),
          None, None, None, None, None, None, None, None, None, None, None, None, None, None, None, None,
          None, None, None)
  }

  /** `payload_extractor.to(P_Start)` with the payload read up to `lo`, cut to 32 bits. */
  function AddressFrom(x: nat, lo: nat, pSize: nat): nat {
    (if lo <= 8 * pSize then Take(x, lo, 8 * pSize - lo) else DESYNCHRO) % TWO32
  }

  function Sync0(x: nat, t: Trace, timeFlag: bool): Trace {
    var lo := if timeFlag then 71 else 7;
    t.(branch := Some(Field(x, 4, 1)), privilege := Some(Field(x, 5, 2)),
       time := if timeFlag then Some(Field(x, 7, 64)) else None,
       address := Some(AddressFrom(x, lo, t.pSize)))
  }

  function Sync1(x: nat, t: Trace, timeFlag: bool): Trace {
    var lo := if timeFlag then 71 else 7;
    t.(branch := Some(Field(x, 4, 1)), privilege := Some(Field(x, 5, 2)),
       time := if timeFlag then Some(Field(x, 7, 64)) else None,
       ecause := Some(Field(x, lo, 32)), interrupt := Some(Field(x, lo + 32, 1)),
       thaddr := Some(Field(x, lo + 33, 1)), tval := Some(Field(x, lo + 34, 32)),
       address := Some(AddressFrom(x, lo + 66, t.pSize)))
  }

  function Sync2(x: nat, t: Trace, timeFlag: bool): Trace {
    t.(privilege := Some(Field(x, 4, 2)), time := if timeFlag then Some(Field(x, 6, 64)) else None)
  }

  function Sync3(x: nat, t: Trace): Trace {
    t.(ienable := Some(Field(x, 4, 1)), encoderMode := Some(Field(x, 5, 1)),
       qualStatus := Some(Field(x, 6, 2)), ioptions := Some(Field(x, 8, 7)))
  }

  /** notify, updiscon, irreport, irdepth and the address, from `lo` on. */
  function Report(x: nat, t: Trace, lo: nat, callFlag: bool): Trace {
    t.(notify := Some(Field(x, lo, 1)), updiscon := Some(Field(x, lo + 1, 1)),
       irreport := Some(Field(x, lo + 2, 1)),
       irdepth := if callFlag then Some(Field(x, lo + 3, 1)) else None,
       address := Some(AddressFrom(x, if callFlag then lo + 4 else lo + 3, t.pSize)))
  }

  function WithBranches(x: nat, t: Trace, callFlag: bool): Trace {
    var n := Field(x, 2, 5);
    var size := BranchMapSize(n);
    var u := t.(branches := Some(n), branchMap := Some(Field(x, 7, size)));
    if n != 0 then Report(x, u, 7 + size, callFlag) else u
  }

  /** The constructor of Trace on the packet read as an integer. */
  function Decode(x: nat, timeFlag: bool, callFlag: bool): Trace {
    var t := Header(x);
    if t.format == 3 then
      var sub := Field(x, 2, 2);
      var u := t.(subformat := Some(sub));
      if sub == 0 then Sync0(x, u, timeFlag)
      else if sub == 1 then Sync1(x, u, timeFlag)
      else if sub == 2 then Sync2(x, u, timeFlag)
      else Sync3(x, u)
    else if t.format == 2 then Report(x, t, 2, callFlag)
    else if t.format == 1 then WithBranches(x, t, callFlag)
    else t
  }

  /** struct BitExtractor: a cursor that reads forward, or backward from the end. */
  class BitExtractor {
    const packet: seq<Byte>
    const isBackward: bool
    var i: nat

    constructor (packet: seq<Byte>, backward: bool)
      ensures this.packet == packet && isBackward == backward && i == if backward then PACKET_BITS else 0
    {
      this.packet := packet;
      isBackward := backward;
      i := if backward then PACKET_BITS else 0;
    }

    method Extract(bits: nat) returns (result: nat)
      requires |packet| == PACKET_SIZE && bits <= 64
      requires if isBackward then bits <= i <= PACKET_BITS else i + bits <= PACKET_BITS
      modifies this`i
      ensures isBackward ==> i == old(i) - bits && result == Field(BigEndian(packet), PACKET_BITS - old(i), bits)
      ensures !isBackward ==> i == old(i) + bits && result == Field(BigEndian(packet), PACKET_BITS - i, bits)
    {
      if isBackward {
        i := i - bits;
      }
      result := ExtractBits(packet, i, bits);
      if !isBackward {
        i := i + bits;
      }
    }

    /** extract_to: the unsigned difference is huge when the cursor has passed `bit` already. */
    method To(bit: nat) returns (result: nat)
      requires |packet| == PACKET_SIZE && isBackward && i <= PACKET_BITS && bit <= PACKET_BITS
      modifies this`i
      ensures i == bit
      ensures result == if bit <= old(i) then Take(BigEndian(packet), PACKET_BITS - old(i), old(i) - bit) else DESYNCHRO
    {
      if bit <= i {
        var bits := i - bit;
        i := bit;
        result := ExtractBits(packet, i, bits);
      } else {
        i := bit;
        result := DESYNCHRO;
      }
    }
  }

  method ReadReport(payload: BitExtractor, t: Trace, pStart: nat, callFlag: bool) returns (u: Trace)
    requires |payload.packet| == PACKET_SIZE && payload.isBackward && 4 <= payload.i <= PACKET_BITS
    requires pStart == PACKET_BITS - 8 * t.pSize && t.pSize <= 40
    modifies payload`i
    ensures u == Report(BigEndian(payload.packet), t, PACKET_BITS - old(payload.i), callFlag)
  {
    var notify := payload.Extract(1);
    var updiscon := payload.Extract(1);
    var irreport := payload.Extract(1);
    u := t.(notify := Some(notify), updiscon := Some(updiscon), irreport := Some(irreport), irdepth := None);
    if callFlag {
      var irdepth := payload.Extract(1);
      u := u.(irdepth := Some(irdepth));
    }
    var address := payload.To(pStart);
    u := u.(address := Some(address % TWO32));
  }

  method ReadSync(payload: BitExtractor, t: Trace, pStart: nat, timeFlag: bool) returns (u: Trace)
    requires |payload.packet| == PACKET_SIZE && payload.isBackward && payload.i == PACKET_BITS - 2
    requires pStart == PACKET_BITS - 8 * t.pSize && t.pSize <= 40
    modifies payload`i
    ensures var x := BigEndian(payload.packet);
            var sub := Field(x, 2, 2);
            var v := t.(subformat := Some(sub));
            u == if sub == 0 then Sync0(x, v, timeFlag) else if sub == 1 then Sync1(x, v, timeFlag)
                 else if sub == 2 then Sync2(x, v, timeFlag) else Sync3(x, v)
  {
    hide Field, BigEndian, Pow2;
    var sub := payload.Extract(2);
    u := t.(subformat := Some(sub));
    if sub == 0 || sub == 1 {
      var branch := payload.Extract(1);
      var privilege := payload.Extract(2);
      u := u.(branch := Some(branch), privilege := Some(privilege), time := None);
      if timeFlag {
        var time := payload.Extract(64);
        u := u.(time := Some(time));
      }
      if sub == 1 {
        var ecause := payload.Extract(32);
        var interrupt := payload.Extract(1);
        var thaddr := payload.Extract(1);
        var tval := payload.Extract(32);
        u := u.(ecause := Some(ecause), interrupt := Some(interrupt), thaddr := Some(thaddr), tval := Some(tval));
      }
      var address := payload.To(pStart);
      u := u.(address := Some(address % TWO32));
    } else if sub == 2 {
      var privilege := payload.Extract(2);
      u := u.(privilege := Some(privilege), time := None);
      if timeFlag {
        var time := payload.Extract(64);
        u := u.(time := Some(time));
      }
    } else {
      var ienable := payload.Extract(1);
      var encoderMode := payload.Extract(1);
      var qualStatus := payload.Extract(2);
      var ioptions := payload.Extract(7);
      u := u.(ienable := Some(ienable), encoderMode := Some(encoderMode), qualStatus := Some(qualStatus),
              ioptions := Some(ioptions));
    }
  }

  /** P_Size has five bits, so that the payload ends below the header. */
  lemma SizeBound(x: nat)
    ensures Field(x, 312, 5) <= 31 && 8 * Field(x, 312, 5) <= 248
  {
    FieldBound(x, 312, 5);
    assert Pow2(5) == 32;
  }

  /** The constructor of Trace. */
  method ReadTrace(packet: seq<Byte>, timeFlag: bool, callFlag: bool) returns (t: Trace)
    requires |packet| == PACKET_SIZE
    ensures t == Decode(BigEndian(packet), timeFlag, callFlag)
  {
    SizeBound(BigEndian(packet));
    hide Field, BigEndian, Pow2, Take, AddressFrom, Sync0, Sync1, Sync2, Sync3, Report;
    var header := new BitExtractor(packet, false);
    var payload := new BitExtractor(packet, true);
    var pTime := header.Extract(1);
    var pId := header.Extract(2);
    var pSize := header.Extract(5);
    var pStart := (PACKET_SIZE - pSize) * 8;
    var pTimestamp := header.Extract(64);
    var format := payload.Extract(2);
    t := Trace(pTime, pId, pSize, pTimestamp, format, None, None, None, None, None, None, None, None, None, None,
               None, None, None, None, None, None, None, None, None);
    if format == 3 {
      t := ReadSync(payload, t, pStart, timeFlag);
    } else if format == 2 {
      t := ReadReport(payload, t, pStart, callFlag);
    } else if format == 1 {
      var branches := payload.Extract(5);
      var size := BranchMapSize(branches);
      var branchMap := payload.Extract(size);
      t := t.(branches := Some(branches), branchMap := Some(branchMap));
      if branches != 0 {
        t := ReadReport(payload, t, pStart, callFlag);
      }
    }
  }
}
