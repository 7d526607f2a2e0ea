// Encoding a trace packet field by field and decoding it again.
module PacketRoundTrip {
  import opened Prelude
  import opened BitFields
  import opened Bytes
  import opened TracePacket

  // ------------------------------------------------------------- layouts in parts

  lemma LayoutJoin(a: seq<Slot>, b: seq<Slot>, lo: nat)
    requires LayoutFrom(a, lo) && LayoutFrom(b, EndFrom(a, lo))
    ensures LayoutFrom(a + b, lo) && EndFrom(a + b, lo) == EndFrom(b, EndFrom(a, lo))
  {
    var s := a + b;
    forall k | 0 <= k < |s|
      ensures PlacedAt(s, k, lo)
    {
      if k < |a| {
        assert PlacedAt(a, k, lo);
        assert s[k] == a[k];
        assert k > 0 ==> s[k - 1] == a[k - 1];
      } else {
        var j := k - |a|;
        assert PlacedAt(b, j, EndFrom(a, lo));
        assert s[k] == b[j];
        assert k > 0 ==> s[k - 1] == if j == 0 then a[k - 1] else b[j - 1];
      }
    }
  }

  /** Every slot reads back its value. */
  predicate Holds(x: nat, slots: seq<Slot>) {
    forall k :: 0 <= k < |slots| ==> Field(x, slots[k].lo, slots[k].width) == slots[k].value
  }

  lemma PackHolds(a: seq<Slot>, b: seq<Slot>)
    requires LayoutFrom(a, 0) && LayoutFrom(b, EndFrom(a, 0))
    ensures Holds(Pack(a + b), a) && Holds(Pack(a + b), b) && Pack(a + b) < Pow2(EndFrom(b, EndFrom(a, 0)))
  {
    LayoutJoin(a, b, 0);
    var s := a + b;
    assert Layout(s);
    PackBound(s);
    forall k | 0 <= k < |a|
      ensures Field(Pack(s), a[k].lo, a[k].width) == a[k].value
    {
      FieldOfPack(s, k);
      assert s[k] == a[k];
    }
    forall k | 0 <= k < |b|
      ensures Field(Pack(s), b[k].lo, b[k].width) == b[k].value
    {
      FieldOfPack(s, |a| + k);
      assert s[|a| + k] == b[k];
    }
  }

  lemma PackHolds3(a: seq<Slot>, b: seq<Slot>, c: seq<Slot>, mid: nat, last: nat)
    requires LayoutFrom(a, 0) && EndFrom(a, 0) == mid && LayoutFrom(b, mid) && EndFrom(b, mid) == last
    requires LayoutFrom(c, last) && EndFrom(c, last) == PACKET_BITS
    ensures var x := Pack((a + b) + c);
            Holds(x, a) && Holds(x, b) && Holds(x, c) && x < Pow2(PACKET_BITS)
  {
    LayoutJoin(a, b, 0);
    PackHolds(a + b, c);
    hide LayoutFrom, EndFrom, Pack, Pow2;
    HoldsParts(Pack((a + b) + c), a, b);
  }

  // ---------------------------------------------------------------- what is encoded

  predicate Bits(v: Option<nat>, n: nat) { v.Some? && v.value < Pow2(n) }

  predicate BitsIf(v: Option<nat>, n: nat, present: bool) { if present then Bits(v, n) else v.None? }

  function Blank(t: Trace): Trace {
    Trace(t.pTime, t.pId, t.pSize, t.pTimestamp, t.format,
          None, None, None, None, None, None, None, None, None, None, None, None, None, None, None, None,
          None, None, None)
  }

  predicate HeaderOk(t: Trace) {
    t.pTime < Pow2(1) && t.pId < Pow2(2) && t.pSize < Pow2(5) && t.pTimestamp < Pow2(64) && t.format < Pow2(2)
  }

  /** The last fields of a packet: what is left of the payload from `lo` on, then the header. */
  function Tail(t: Trace, lo: nat, rest: nat): seq<Slot>
    requires lo <= 8 * t.pSize <= 248
  {
    [Slot(lo, 8 * t.pSize - lo, rest), Slot(8 * t.pSize, 248 - 8 * t.pSize, 0), Slot(248, 64, t.pTimestamp),
     Slot(312, 5, t.pSize), Slot(317, 2, t.pId), Slot(319, 1, t.pTime)]
  }

  lemma TailLayout(t: Trace, lo: nat, rest: nat)
    requires HeaderOk(t) && lo <= 8 * t.pSize && rest < Pow2(8 * t.pSize - lo)
    ensures 8 * t.pSize <= 248 && LayoutFrom(Tail(t, lo, rest), lo) && EndFrom(Tail(t, lo, rest), lo) == 320
  {
    assert Pow2(5) == 32;
    hide Pow2;
  }

  /** The address field fills the payload; it must fit there and in 32 bits. */
  predicate AddressOk(t: Trace, lo: nat) {
    && lo <= 8 * t.pSize && t.address.Some? && t.address.value < TWO32
    && t.address.value < Pow2(8 * t.pSize - lo)
  }

  /** What the decoder makes of the address: fields of more than 64 bits are not extracted. */
  function Received(t: Trace, lo: nat): Trace {
    if lo + 64 < 8 * t.pSize then t.(address := Some(0xdead)) else t
  }

  lemma DecodeTail(x: nat, t: Trace, lo: nat, rest: nat)
    requires lo <= 8 * t.pSize <= 248 && Holds(x, Tail(t, lo, rest))
    ensures Field(x, 248, 64) == t.pTimestamp && Field(x, 312, 5) == t.pSize && Field(x, 317, 2) == t.pId
    ensures Field(x, 319, 1) == t.pTime && Field(x, lo, 8 * t.pSize - lo) == rest
  {
    var s := Tail(t, lo, rest);
    hide Field;
    assert Field(x, s[0].lo, s[0].width) == s[0].value && Field(x, s[2].lo, s[2].width) == s[2].value;
    assert Field(x, s[3].lo, s[3].width) == s[3].value && Field(x, s[4].lo, s[4].width) == s[4].value;
    assert Field(x, s[5].lo, s[5].width) == s[5].value;
  }

  lemma DecodeAddress(x: nat, t: Trace, lo: nat)
    requires AddressOk(t, lo) && Field(x, lo, 8 * t.pSize - lo) == t.address.value
    ensures Some(AddressFrom(x, lo, t.pSize)) == Received(t, lo).address
  {
    hide Field;
  }

  // ----------------------------------------------------------------- format 2 and 1

  predicate ReportOk(t: Trace, callFlag: bool) {
    Bits(t.notify, 1) && Bits(t.updiscon, 1) && Bits(t.irreport, 1) && BitsIf(t.irdepth, 1, callFlag)
  }

  function ReportSlots(t: Trace, lo: nat, callFlag: bool): seq<Slot>
    requires ReportOk(t, callFlag)
  {
    [Slot(lo, 1, t.notify.value), Slot(lo + 1, 1, t.updiscon.value), Slot(lo + 2, 1, t.irreport.value)]
    + if callFlag then [Slot(lo + 3, 1, t.irdepth.value)] else []
  }

  function ReportEnd(lo: nat, callFlag: bool): nat { if callFlag then lo + 4 else lo + 3 }

  lemma ReportLayout(t: Trace, lo: nat, callFlag: bool)
    requires ReportOk(t, callFlag)
    ensures LayoutFrom(ReportSlots(t, lo, callFlag), lo)
    ensures EndFrom(ReportSlots(t, lo, callFlag), lo) == ReportEnd(lo, callFlag)
  {
    hide Pow2;
  }

  /** Reading back a report block on top of any trace that carries the other fields. */
  lemma DecodeReport(x: nat, base: Trace, t: Trace, lo: nat, callFlag: bool)
    requires ReportOk(t, callFlag) && Holds(x, ReportSlots(t, lo, callFlag))
    requires AddressOk(t, ReportEnd(lo, callFlag)) && base.pSize == t.pSize
    requires Field(x, ReportEnd(lo, callFlag), 8 * t.pSize - ReportEnd(lo, callFlag)) == t.address.value
    ensures Report(x, base, lo, callFlag)
            == base.(notify := t.notify, updiscon := t.updiscon, irreport := t.irreport, irdepth := t.irdepth,
                     address := Received(t, ReportEnd(lo, callFlag)).address)
  {
    var s := ReportSlots(t, lo, callFlag);
    hide Field, Pow2;
    DecodeAddress(x, t, ReportEnd(lo, callFlag));
    assert Field(x, s[0].lo, s[0].width) == s[0].value && Field(x, s[1].lo, s[1].width) == s[1].value;
    assert Field(x, s[2].lo, s[2].width) == s[2].value;
    if callFlag {
      assert Field(x, s[3].lo, s[3].width) == s[3].value;
    }
    hide AddressFrom, Received;
  }

  /** Format 0 is not decoded: the header is all there is. */
  predicate Format0(t: Trace) { t.format == 0 && HeaderOk(t) && t.pSize > 0 && t == Blank(t) }

  function Encode0(t: Trace): seq<Slot>
    requires Format0(t)
  {
    SizeFits(t);
    [Slot(0, 2, 0)] + Tail(t, 2, 0)
  }

  lemma RoundTrip0(t: Trace, timeFlag: bool, callFlag: bool)
    requires Format0(t)
    ensures var x := Pack(Encode0(t));
            x < Pow2(PACKET_BITS) && Decode(x, timeFlag, callFlag) == t
  {
    hide Pow2, Field, Pack, Holds, LayoutFrom, EndFrom, Tail;
    SizeFits(t);
    TailRestZero(t, 2);
    FormatLayout(0);
    PackHolds([Slot(0, 2, 0)], Tail(t, 2, 0));
    var x := Pack([Slot(0, 2, 0)] + Tail(t, 2, 0));
    DecodeTail(x, t, 2, 0);
    DecodeFormat(x, 0);
  }

  lemma TailRestZero(t: Trace, lo: nat)
    requires HeaderOk(t) && lo <= 8 * t.pSize
    ensures 8 * t.pSize <= 248 && LayoutFrom(Tail(t, lo, 0), lo) && EndFrom(Tail(t, lo, 0), lo) == 320
  {
    TailLayout(t, lo, 0);
  }

  predicate Format2(t: Trace, callFlag: bool) {
    && t.format == 2 && HeaderOk(t) && ReportOk(t, callFlag) && AddressOk(t, ReportEnd(2, callFlag))
    && t == Blank(t).(notify := t.notify, updiscon := t.updiscon, irreport := t.irreport, irdepth := t.irdepth,
                      address := t.address)
  }

  function Encode2(t: Trace, callFlag: bool): seq<Slot>
    requires Format2(t, callFlag)
  {
    SizeFits(t);
    ([Slot(0, 2, 2)] + ReportSlots(t, 2, callFlag)) + Tail(t, ReportEnd(2, callFlag), t.address.value)
  }

  lemma SizeFits(t: Trace)
    requires HeaderOk(t)
    ensures 8 * t.pSize <= 248
  {
    assert Pow2(5) == 32;
  }

  lemma HoldsParts(x: nat, a: seq<Slot>, b: seq<Slot>)
    requires Holds(x, a + b)
    ensures Holds(x, a) && Holds(x, b)
  {
    forall k | 0 <= k < |b|
      ensures Field(x, b[k].lo, b[k].width) == b[k].value
    {
      assert (a + b)[|a| + k] == b[k];
    }
    forall k | 0 <= k < |a|
      ensures Field(x, a[k].lo, a[k].width) == a[k].value
    {
      assert (a + b)[k] == a[k];
    }
  }

  lemma SmallPowers()
    ensures Pow2(1) == 2 && Pow2(2) == 4 && Pow2(5) == 32
  {
  }

  /** Format 2: decoding the encoding returns the fields. */
  lemma RoundTrip2(t: Trace, timeFlag: bool, callFlag: bool)
    requires Format2(t, callFlag)
    ensures var x := Pack(Encode2(t, callFlag));
            x < Pow2(PACKET_BITS) && Decode(x, timeFlag, callFlag) == Received(t, ReportEnd(2, callFlag))
  {
    hide Pow2, Field, Pack, Holds, LayoutFrom, EndFrom, Tail, ReportSlots, AddressOk;
    SizeFits(t);
    var lo := ReportEnd(2, callFlag);
    AddressInPayload(t, lo);
    var rest := t.address.value;
    ReportLayout(t, 2, callFlag);
    TailLayout(t, lo, rest);
    var format, report := [Slot(0, 2, 2)], ReportSlots(t, 2, callFlag);
    FormatLayout(2);
    PackHolds3(format, report, Tail(t, lo, rest), 2, lo);
    var x := Pack((format + report) + Tail(t, lo, rest));
    DecodeTail(x, t, lo, rest);
    DecodeFormat(x, 2);
    assert Header(x) == Blank(t);
    DecodeReport(x, Blank(t), t, 2, callFlag);
    hide Report;
  }

  lemma FormatLayout(format: nat)
    requires format < 4
    ensures LayoutFrom([Slot(0, 2, format)], 0) && EndFrom([Slot(0, 2, format)], 0) == 2
  {
    SmallPowers();
    hide Pow2;
  }

  lemma DecodeFormat(x: nat, format: nat)
    requires Holds(x, [Slot(0, 2, format)])
    ensures Field(x, 0, 2) == format
  {
    var s := [Slot(0, 2, format)];
    assert Field(x, s[0].lo, s[0].width) == s[0].value;
    hide Field;
  }

  const WIDTHS: set<nat> := {1, 3, 7, 15, 31}

  /** Table "Format 1 payload" of Efficient Trace for RISC-V: the map of `n` branches takes the
      least of the widths that holds them, and all 31 bits when it is full (coded as 0). */
  predicate MapWidth(n: nat, w: nat) {
    w in WIDTHS && if n == 0 then w == 31 else n <= w && forall v :: v in WIDTHS && n <= v ==> w <= v
  }

  /** The decoder's width is the one of the table. */
  lemma MapWidthIff(n: nat, w: nat)
    requires n < 32
    ensures MapWidth(n, w) <==> w == BranchMapSize(n)
  {
    var s := BranchMapSize(n);
    assert s in WIDTHS;
  }

  ghost function EncodedWidth(n: nat): (w: nat)
    requires n < 32
    ensures MapWidth(n, w) && w <= 31
  {
    MapWidthIff(n, BranchMapSize(n));
    var w :| MapWidth(n, w);
    w
  }

  lemma WidthsAgree(n: nat)
    requires n < 32
    ensures EncodedWidth(n) == BranchMapSize(n)
  {
    MapWidthIff(n, EncodedWidth(n));
  }

  /** The width of the map of an encodable packet. */
  ghost function WidthOf(t: Trace): (w: nat)
    requires Bits(t.branches, 5)
    ensures MapWidth(t.branches.value, w)
  {
    SmallPowers();
    EncodedWidth(t.branches.value)
  }

  lemma WidthOfDecoder(t: Trace)
    requires Bits(t.branches, 5)
    ensures WidthOf(t) == BranchMapSize(t.branches.value)
  {
    SmallPowers();
    WidthsAgree(t.branches.value);
  }

  ghost predicate Format1(t: Trace, callFlag: bool) {
    && t.format == 1 && HeaderOk(t) && Bits(t.branches, 5)
    && Bits(t.branchMap, WidthOf(t))
    && (if t.branches.value != 0 then
          && ReportOk(t, callFlag) && AddressOk(t, ReportEnd(7 + WidthOf(t), callFlag))
          && t == Blank(t).(branches := t.branches, branchMap := t.branchMap, notify := t.notify,
                            updiscon := t.updiscon, irreport := t.irreport, irdepth := t.irdepth,
                            address := t.address)
        else
          38 <= 8 * t.pSize && t == Blank(t).(branches := t.branches, branchMap := t.branchMap))
  }

  ghost function MapSlots(t: Trace, callFlag: bool): seq<Slot>
    requires Format1(t, callFlag)
  {
    [Slot(0, 2, 1), Slot(2, 5, t.branches.value), Slot(7, WidthOf(t), t.branchMap.value)]
  }

  ghost function Encode1(t: Trace, callFlag: bool): seq<Slot>
    requires Format1(t, callFlag)
  {
    SizeFits(t);
    var lo := 7 + WidthOf(t);
    if t.branches.value != 0 then
      (MapSlots(t, callFlag) + ReportSlots(t, lo, callFlag)) + Tail(t, ReportEnd(lo, callFlag), t.address.value)
    else MapSlots(t, callFlag) + Tail(t, lo, 0)
  }

  lemma MapLayout(t: Trace, callFlag: bool)
    requires Format1(t, callFlag)
    ensures LayoutFrom(MapSlots(t, callFlag), 0)
    ensures EndFrom(MapSlots(t, callFlag), 0) == 7 + WidthOf(t)
  {
    SmallPowers();
    hide Pow2;
  }

  lemma DecodeMap(x: nat, t: Trace, callFlag: bool)
    requires Format1(t, callFlag) && Holds(x, MapSlots(t, callFlag))
    ensures Field(x, 0, 2) == 1 && Field(x, 2, 5) == t.branches.value
    ensures Field(x, 7, WidthOf(t)) == t.branchMap.value
  {
    var s := MapSlots(t, callFlag);
    hide Field, Pow2;
    assert Field(x, s[0].lo, s[0].width) == s[0].value && Field(x, s[1].lo, s[1].width) == s[1].value;
    assert Field(x, s[2].lo, s[2].width) == s[2].value;
  }

  /** Format 1: the branch map takes 1, 3, 7, 15 or 31 bits, and without branches nothing follows it. */
  lemma RoundTrip1(t: Trace, timeFlag: bool, callFlag: bool)
    requires Format1(t, callFlag)
    ensures var x := Pack(Encode1(t, callFlag));
            && x < Pow2(PACKET_BITS)
            && Decode(x, timeFlag, callFlag)
               == if t.branches.value == 0 then t
                  else Received(t, ReportEnd(7 + WidthOf(t), callFlag))
  {
    if t.branches.value != 0 {
      WithBranches1(t, timeFlag, callFlag);
    } else {
      WithoutBranches1(t, timeFlag, callFlag);
    }
  }

  lemma WithoutBranches1(t: Trace, timeFlag: bool, callFlag: bool)
    requires Format1(t, callFlag) && t.branches.value == 0
    ensures var x := Pack(Encode1(t, callFlag));
            x < Pow2(PACKET_BITS) && Decode(x, timeFlag, callFlag) == t
  {
    WidthOfDecoder(t);
    SizeFits(t);
    MapLayout(t, callFlag);
    hide Pow2, Field, Pack;
    TailLayout(t, 38, 0);
    PackHolds(MapSlots(t, callFlag), Tail(t, 38, 0));
    var x := Pack(MapSlots(t, callFlag) + Tail(t, 38, 0));
    DecodeMap(x, t, callFlag);
    DecodeTail(x, t, 38, 0);
    hide Holds, LayoutFrom, Tail, MapSlots;
  }

  lemma WithBranches1(t: Trace, timeFlag: bool, callFlag: bool)
    requires Format1(t, callFlag) && t.branches.value != 0
    ensures var x := Pack(Encode1(t, callFlag));
            && x < Pow2(PACKET_BITS)
            && Decode(x, timeFlag, callFlag)
               == Received(t, ReportEnd(7 + WidthOf(t), callFlag))
  {
    hide Pow2, Field, Pack, BranchMapSize, WidthOf, Holds, LayoutFrom, EndFrom, Tail, MapSlots, ReportSlots, AddressOk,
      WithBranches;
    SizeFits(t);
    WidthOfDecoder(t);
    var lo := 7 + WidthOf(t);
    var end := ReportEnd(lo, callFlag);
    MapLayout(t, callFlag);
    ReportLayout(t, lo, callFlag);
    AddressInPayload(t, end);
    TailLayout(t, end, t.address.value);
    PackHolds3(MapSlots(t, callFlag), ReportSlots(t, lo, callFlag), Tail(t, end, t.address.value), lo, end);
    var x := Pack((MapSlots(t, callFlag) + ReportSlots(t, lo, callFlag)) + Tail(t, end, t.address.value));
    DecodeMap(x, t, callFlag);
    DecodeTail(x, t, end, t.address.value);
    DecodedWithBranches(x, t, lo, callFlag);
  }

  lemma AddressInPayload(t: Trace, lo: nat)
    requires AddressOk(t, lo)
    ensures lo <= 8 * t.pSize && t.address.Some? && t.address.value < Pow2(8 * t.pSize - lo)
  {
  }

  /** The decoder on a format 1 word, from the fields it reads. */
  lemma DecodedWithBranches(x: nat, t: Trace, lo: nat, callFlag: bool)
    requires Format1(t, callFlag) && t.branches.value != 0 && lo == 7 + WidthOf(t)
    requires Header(x) == Blank(t) && Field(x, 2, 5) == t.branches.value
    requires Field(x, 7, WidthOf(t)) == t.branchMap.value
    requires Holds(x, ReportSlots(t, lo, callFlag))
    requires Field(x, ReportEnd(lo, callFlag), 8 * t.pSize - ReportEnd(lo, callFlag)) == t.address.value
    ensures WithBranches(x, Header(x), callFlag) == Received(t, ReportEnd(lo, callFlag))
  {
    WidthOfDecoder(t);
    DecodeReport(x, Blank(t).(branches := t.branches, branchMap := t.branchMap), t, lo, callFlag);
    hide Field, Report, ReportSlots, Holds, AddressOk, ReportOk, HeaderOk, BranchMapSize;
  }

  // ----------------------------------------------------------------------- format 3

  function TimeSlots(t: Trace, lo: nat, timeFlag: bool): seq<Slot>
    requires BitsIf(t.time, 64, timeFlag)
  {
    if timeFlag then [Slot(lo, 64, t.time.value)] else []
  }

  function TimeEnd(lo: nat, timeFlag: bool): nat { if timeFlag then lo + 64 else lo }

  lemma TimeLayout(t: Trace, lo: nat, timeFlag: bool)
    requires BitsIf(t.time, 64, timeFlag)
    ensures LayoutFrom(TimeSlots(t, lo, timeFlag), lo) && EndFrom(TimeSlots(t, lo, timeFlag), lo) == TimeEnd(lo, timeFlag)
  {
    hide Pow2;
  }

  lemma DecodeTime(x: nat, t: Trace, lo: nat, timeFlag: bool)
    requires BitsIf(t.time, 64, timeFlag) && Holds(x, TimeSlots(t, lo, timeFlag))
    ensures (if timeFlag then Some(Field(x, lo, 64)) else None) == t.time
  {
    hide Field, Pow2;
    if timeFlag {
      var s := TimeSlots(t, lo, timeFlag);
      assert Field(x, s[0].lo, s[0].width) == s[0].value;
    }
  }

  /** Format and subformat, then `a` bits and `b` bits. */
  function SyncSlots(sub: nat, first: Slot, second: Slot): seq<Slot> {
    [Slot(0, 2, 3), Slot(2, 2, sub), first, second]
  }

  lemma SyncLayout(sub: nat, first: Slot, second: Slot)
    requires sub < 4 && first.lo == 4 && second.lo == 4 + first.width
    requires first.value < Pow2(first.width) && second.value < Pow2(second.width)
    ensures LayoutFrom(SyncSlots(sub, first, second), 0)
    ensures EndFrom(SyncSlots(sub, first, second), 0) == 4 + first.width + second.width
  {
    SmallPowers();
    hide Pow2;
  }

  lemma DecodeSync(x: nat, sub: nat, first: Slot, second: Slot)
    requires Holds(x, SyncSlots(sub, first, second))
    ensures Field(x, 0, 2) == 3 && Field(x, 2, 2) == sub
    ensures Field(x, first.lo, first.width) == first.value && Field(x, second.lo, second.width) == second.value
  {
    var s := SyncSlots(sub, first, second);
    hide Field;
    assert Field(x, s[0].lo, s[0].width) == s[0].value && Field(x, s[1].lo, s[1].width) == s[1].value;
    assert Field(x, s[2].lo, s[2].width) == s[2].value && Field(x, s[3].lo, s[3].width) == s[3].value;
  }

  /** Subformats 0 and 1: branch and privilege, and for 1 the exception fields. */
  predicate Format30(t: Trace, timeFlag: bool) {
    && t.format == 3 && t.subformat == Some(0) && HeaderOk(t) && Bits(t.branch, 1) && Bits(t.privilege, 2)
    && BitsIf(t.time, 64, timeFlag) && AddressOk(t, TimeEnd(7, timeFlag))
    && t == Blank(t).(subformat := t.subformat, branch := t.branch, privilege := t.privilege, time := t.time,
                      address := t.address)
  }

  function Encode30(t: Trace, timeFlag: bool): seq<Slot>
    requires Format30(t, timeFlag)
  {
    SizeFits(t);
    (SyncSlots(0, Slot(4, 1, t.branch.value), Slot(5, 2, t.privilege.value)) + TimeSlots(t, 7, timeFlag))
    + Tail(t, TimeEnd(7, timeFlag), t.address.value)
  }

  lemma RoundTrip30(t: Trace, timeFlag: bool, callFlag: bool)
    requires Format30(t, timeFlag)
    ensures var x := Pack(Encode30(t, timeFlag));
            x < Pow2(PACKET_BITS) && Decode(x, timeFlag, callFlag) == Received(t, TimeEnd(7, timeFlag))
  {
    hide Pow2, Field, Pack, Holds, LayoutFrom, EndFrom, Tail, TimeSlots, SyncSlots, AddressOk;
    SizeFits(t);
    var first, second, lo := Slot(4, 1, t.branch.value), Slot(5, 2, t.privilege.value), TimeEnd(7, timeFlag);
    SyncLayout(0, first, second);
    TimeLayout(t, 7, timeFlag);
    AddressInPayload(t, lo);
    TailLayout(t, lo, t.address.value);
    PackHolds3(SyncSlots(0, first, second), TimeSlots(t, 7, timeFlag), Tail(t, lo, t.address.value), 7, lo);
    var x := Pack(Encode30(t, timeFlag));
    DecodeSync(x, 0, first, second);
    DecodeTime(x, t, 7, timeFlag);
    DecodeTail(x, t, lo, t.address.value);
    DecodeAddress(x, t, lo);
    hide AddressFrom;
  }

  predicate Format31(t: Trace, timeFlag: bool) {
    && t.format == 3 && t.subformat == Some(1) && HeaderOk(t) && Bits(t.branch, 1) && Bits(t.privilege, 2)
    && BitsIf(t.time, 64, timeFlag) && Bits(t.ecause, 32) && Bits(t.interrupt, 1) && Bits(t.thaddr, 1)
    && Bits(t.tval, 32) && AddressOk(t, TimeEnd(7, timeFlag) + 66)
    && t == Blank(t).(subformat := t.subformat, branch := t.branch, privilege := t.privilege, time := t.time,
                      ecause := t.ecause, interrupt := t.interrupt, thaddr := t.thaddr, tval := t.tval,
                      address := t.address)
  }

  function TrapSlots(t: Trace, lo: nat, timeFlag: bool): seq<Slot>
    requires Format31(t, timeFlag)
  {
    [Slot(lo, 32, t.ecause.value), Slot(lo + 32, 1, t.interrupt.value), Slot(lo + 33, 1, t.thaddr.value),
     Slot(lo + 34, 32, t.tval.value)]
  }

  lemma TrapLayout(t: Trace, lo: nat, timeFlag: bool)
    requires Format31(t, timeFlag)
    ensures LayoutFrom(TrapSlots(t, lo, timeFlag), lo) && EndFrom(TrapSlots(t, lo, timeFlag), lo) == lo + 66
  {
    hide Pow2;
  }

  lemma DecodeTrap(x: nat, t: Trace, lo: nat, timeFlag: bool)
    requires Format31(t, timeFlag) && Holds(x, TrapSlots(t, lo, timeFlag))
    ensures Some(Field(x, lo, 32)) == t.ecause && Some(Field(x, lo + 32, 1)) == t.interrupt
    ensures Some(Field(x, lo + 33, 1)) == t.thaddr && Some(Field(x, lo + 34, 32)) == t.tval
  {
    var s := TrapSlots(t, lo, timeFlag);
    hide Field, Pow2;
    assert Field(x, s[0].lo, s[0].width) == s[0].value && Field(x, s[1].lo, s[1].width) == s[1].value;
    assert Field(x, s[2].lo, s[2].width) == s[2].value && Field(x, s[3].lo, s[3].width) == s[3].value;
  }

  function Encode31(t: Trace, timeFlag: bool): seq<Slot>
    requires Format31(t, timeFlag)
  {
    SizeFits(t);
    var lo := TimeEnd(7, timeFlag);
    (SyncSlots(1, Slot(4, 1, t.branch.value), Slot(5, 2, t.privilege.value)) + TimeSlots(t, 7, timeFlag)
     + TrapSlots(t, lo, timeFlag)) + Tail(t, lo + 66, t.address.value)
  }

  lemma RoundTrip31(t: Trace, timeFlag: bool, callFlag: bool)
    requires Format31(t, timeFlag)
    ensures var x := Pack(Encode31(t, timeFlag));
            x < Pow2(PACKET_BITS) && Decode(x, timeFlag, callFlag) == Received(t, TimeEnd(7, timeFlag) + 66)
  {
    hide Pow2, Field, Pack, Holds, LayoutFrom, EndFrom, Tail, TimeSlots, SyncSlots, TrapSlots, AddressOk;
    SizeFits(t);
    var first, second, lo := Slot(4, 1, t.branch.value), Slot(5, 2, t.privilege.value), TimeEnd(7, timeFlag);
    var sync, time, trap := SyncSlots(1, first, second), TimeSlots(t, 7, timeFlag), TrapSlots(t, lo, timeFlag);
    SyncLayout(1, first, second);
    TimeLayout(t, 7, timeFlag);
    LayoutJoin(sync, time, 0);
    TrapLayout(t, lo, timeFlag);
    AddressInPayload(t, lo + 66);
    TailLayout(t, lo + 66, t.address.value);
    PackHolds3(sync + time, trap, Tail(t, lo + 66, t.address.value), lo, lo + 66);
    var x := Pack(Encode31(t, timeFlag));
    HoldsParts(x, sync, time);
    DecodeSync(x, 1, first, second);
    DecodeTime(x, t, 7, timeFlag);
    DecodeTrap(x, t, lo, timeFlag);
    DecodeTail(x, t, lo + 66, t.address.value);
    DecodeAddress(x, t, lo + 66);
    hide AddressFrom;
  }

  predicate Format32(t: Trace, timeFlag: bool) {
    && t.format == 3 && t.subformat == Some(2) && HeaderOk(t) && Bits(t.privilege, 2) && BitsIf(t.time, 64, timeFlag)
    && TimeEnd(6, timeFlag) <= 8 * t.pSize
    && t == Blank(t).(subformat := t.subformat, privilege := t.privilege, time := t.time)
  }

  function ContextSlots(t: Trace, timeFlag: bool): seq<Slot>
    requires Format32(t, timeFlag)
  {
    [Slot(0, 2, 3), Slot(2, 2, 2), Slot(4, 2, t.privilege.value)]
  }

  function Encode32(t: Trace, timeFlag: bool): seq<Slot>
    requires Format32(t, timeFlag)
  {
    SizeFits(t);
    (ContextSlots(t, timeFlag) + TimeSlots(t, 6, timeFlag)) + Tail(t, TimeEnd(6, timeFlag), 0)
  }

  lemma RoundTrip32(t: Trace, timeFlag: bool, callFlag: bool)
    requires Format32(t, timeFlag)
    ensures var x := Pack(Encode32(t, timeFlag));
            x < Pow2(PACKET_BITS) && Decode(x, timeFlag, callFlag) == t
  {
    SmallPowers();
    hide Pow2, Field, Pack, Tail, TimeSlots;
    SizeFits(t);
    var s, lo := ContextSlots(t, timeFlag), TimeEnd(6, timeFlag);
    TimeLayout(t, 6, timeFlag);
    TailLayout(t, lo, 0);
    PackHolds3(s, TimeSlots(t, 6, timeFlag), Tail(t, lo, 0), 6, lo);
    var x := Pack(Encode32(t, timeFlag));
    assert Field(x, s[0].lo, s[0].width) == 3 && Field(x, s[1].lo, s[1].width) == 2;
    assert Field(x, s[2].lo, s[2].width) == t.privilege.value;
    hide Holds, LayoutFrom;
    DecodeTime(x, t, 6, timeFlag);
    DecodeTail(x, t, lo, 0);
  }

  predicate Format33(t: Trace) {
    && t.format == 3 && t.subformat == Some(3) && HeaderOk(t) && Bits(t.ienable, 1) && Bits(t.encoderMode, 1)
    && Bits(t.qualStatus, 2) && Bits(t.ioptions, 7) && 15 <= 8 * t.pSize
    && t == Blank(t).(subformat := t.subformat, ienable := t.ienable, encoderMode := t.encoderMode,
                      qualStatus := t.qualStatus, ioptions := t.ioptions)
  }

  function SupportSlots(t: Trace): seq<Slot>
    requires Format33(t)
  {
    [Slot(6, 2, t.qualStatus.value), Slot(8, 7, t.ioptions.value)]
  }

  function Encode33(t: Trace): seq<Slot>
    requires Format33(t)
  {
    SizeFits(t);
    (SyncSlots(3, Slot(4, 1, t.ienable.value), Slot(5, 1, t.encoderMode.value)) + SupportSlots(t)) + Tail(t, 15, 0)
  }

  lemma RoundTrip33(t: Trace, timeFlag: bool, callFlag: bool)
    requires Format33(t)
    ensures var x := Pack(Encode33(t));
            x < Pow2(PACKET_BITS) && Decode(x, timeFlag, callFlag) == t
  {
    hide Pow2, Field, Pack, Tail, SyncSlots;
    SizeFits(t);
    var first, second, s := Slot(4, 1, t.ienable.value), Slot(5, 1, t.encoderMode.value), SupportSlots(t);
    SyncLayout(3, first, second);
    TailLayout(t, 15, 0);
    PackHolds3(SyncSlots(3, first, second), s, Tail(t, 15, 0), 6, 15);
    var x := Pack(Encode33(t));
    DecodeSync(x, 3, first, second);
    assert Field(x, s[0].lo, s[0].width) == s[0].value && Field(x, s[1].lo, s[1].width) == s[1].value;
    hide Holds, LayoutFrom;
    DecodeTail(x, t, 15, 0);
  }

  // --------------------------------------------------------------------- as bytes

  /** The packet whose big-endian integer is `x`. */
  function ToPacket(x: nat, n: nat): (bs: seq<Byte>)
    ensures |bs| == n
  {
    if n == 0 then [] else ToPacket(x / 256, n - 1) + [x % 256]
  }

  lemma {:induction false} PacketInteger(x: nat, n: nat)
    requires x < Pow2(8 * n)
    ensures BigEndian(ToPacket(x, n)) == x
    decreases n
  {
    if n > 0 {
      BytePower();
      Pow2Add(8, 8 * (n - 1));
      PacketInteger(x / 256, n - 1);
      var bs := ToPacket(x, n);
      assert bs[..n - 1] == ToPacket(x / 256, n - 1);
    }
  }

  /** Any packet of a supported format, with the width condition on its address. */
  ghost predicate Encodable(t: Trace, timeFlag: bool, callFlag: bool) {
    Format0(t) || Format1(t, callFlag) || Format2(t, callFlag) || Format30(t, timeFlag) || Format31(t, timeFlag)
    || Format32(t, timeFlag) || Format33(t)
  }

  ghost function Encode(t: Trace, timeFlag: bool, callFlag: bool): seq<Slot>
    requires Encodable(t, timeFlag, callFlag)
  {
    if t.format == 0 then Encode0(t)
    else if t.format == 1 then Encode1(t, callFlag)
    else if t.format == 2 then Encode2(t, callFlag)
    else if t.subformat == Some(0) then Encode30(t, timeFlag)
    else if t.subformat == Some(1) then Encode31(t, timeFlag)
    else if t.subformat == Some(2) then Encode32(t, timeFlag)
    else Encode33(t)
  }

  /** First payload bit of the address field, for the packets that have one. */
  ghost function AddressStart(t: Trace, timeFlag: bool, callFlag: bool): nat
    requires Encodable(t, timeFlag, callFlag)
  {
    if t.format == 1 then ReportEnd(7 + WidthOf(t), callFlag)
    else if t.format == 2 then ReportEnd(2, callFlag)
    else if t.subformat == Some(0) then TimeEnd(7, timeFlag)
    else TimeEnd(7, timeFlag) + 66
  }

  /** The address field is short enough for extract_bits. */
  ghost predicate AddressExtracted(t: Trace, timeFlag: bool, callFlag: bool)
    requires Encodable(t, timeFlag, callFlag)
  {
    t.address.Some? ==> 8 * t.pSize <= AddressStart(t, timeFlag, callFlag) + 64 || t.address.value == 0xdead
  }

  /** For every packet of formats 0 to 3, decoding the field-by-field encoding as bytes returns
      the fields exactly when the address field is not wider than extract_bits handles. */
  lemma PacketRoundTrip(t: Trace, timeFlag: bool, callFlag: bool)
    requires Encodable(t, timeFlag, callFlag)
    ensures var packet := ToPacket(Pack(Encode(t, timeFlag, callFlag)), PACKET_SIZE);
            Decode(BigEndian(packet), timeFlag, callFlag) == t <==> AddressExtracted(t, timeFlag, callFlag)
  {
    hide Pack, TracePacket.Decode, Encode0, Encode1, Encode2, Encode30, Encode31, Encode32, Encode33, HeaderOk, Pow2,
      ReportOk, Bits, BitsIf, BigEndian, ToPacket;
    var x := Pack(Encode(t, timeFlag, callFlag));
    if t.format == 0 {
      RoundTrip0(t, timeFlag, callFlag);
    } else if t.format == 1 {
      RoundTrip1(t, timeFlag, callFlag);
    } else if t.format == 2 {
      RoundTrip2(t, timeFlag, callFlag);
    } else if t.subformat == Some(0) {
      RoundTrip30(t, timeFlag, callFlag);
    } else if t.subformat == Some(1) {
      RoundTrip31(t, timeFlag, callFlag);
    } else if t.subformat == Some(2) {
      RoundTrip32(t, timeFlag, callFlag);
    } else {
      RoundTrip33(t, timeFlag, callFlag);
    }
    PacketInteger(x, PACKET_SIZE);
  }

  /** A format 2 packet with the largest payload and an address of 32 bits. */
  function WideAddress(address: nat): Trace {
    Trace(0, 0, 31, 0, 2, None, Some(address), None, None, None, None, None, None, None, Some(0), None, Some(0), None,
          None, None, None, None, None, Some(0))
  }

  lemma WideAddressEncodes(address: nat)
    requires address < TWO32
    ensures Format2(WideAddress(address), false)
  {
    SmallBounds();
    hide Pow2;
  }

  lemma SmallBounds()
    ensures Pow2(1) == 2 && Pow2(2) == 4 && Pow2(5) == 32 && Pow2(64) > 0 && TWO32 <= Pow2(243)
  {
    assert Pow2(5) == 32;
    WordPowers();
    Pow2Monotone(32, 243);
    hide Pow2;
    FirstPowers();
  }

  lemma FirstPowers()
    ensures Pow2(1) == 2 && Pow2(2) == 4
  {
  }

  /** An encodable packet that loses its address: 0x80000000 is decoded as 0xdead. */
  lemma WideAddressLost()
    ensures var t := WideAddress(0x8000_0000);
            && Encodable(t, false, false)
            && var packet := ToPacket(Pack(Encode(t, false, false)), PACKET_SIZE);
               Decode(BigEndian(packet), false, false).address == Some(0xdead)
  {
    var t := WideAddress(0x8000_0000);
    WideAddressEncodes(0x8000_0000);
    RoundTrip2(t, false, false);
    hide Pack, TracePacket.Decode, Encode2, HeaderOk, Pow2, BigEndian, ToPacket, Format0, Format1, Format2, Format30,
      Format31, Format32, Format33;
    PacketInteger(Pack(Encode2(t, false)), PACKET_SIZE);
  }

  // ------------------------------------------------------------ any packet at all

  /** First payload bit of the address field of a packet that has one, by format. */
  ghost predicate AddressAt(x: nat, timeFlag: bool, callFlag: bool, lo: nat) {
    var report, time := if callFlag then 4 else 3, if timeFlag then 64 else 0;
    match x % 4
    case 0 => false
    case 1 => var n := (x / 4) % 32; n != 0 && exists w: nat :: MapWidth(n, w) && lo == 7 + w + report
    case 2 => lo == 2 + report
    case 3 => var sub := (x / 4) % 4; (sub == 0 && lo == 7 + time) || (sub == 1 && lo == 7 + time + 66)
  }

  /** Whatever a packet holds, its address is the low 32 bits of the field from `lo` to the end of
      the payload, or 0xdead when that field has more than 64 bits or would end before it starts. */
  lemma AddressDecoded(x: nat, timeFlag: bool, callFlag: bool, lo: nat)
    requires AddressAt(x, timeFlag, callFlag, lo)
    ensures var end := 8 * Field(x, 312, 5);
            Decode(x, timeFlag, callFlag).address
            == Some(if lo <= end <= lo + 64 then Field(x, lo, end - lo) % 0x1_0000_0000 else 0xdead)
  {
    hide *;
    AddressStartOf(x, timeFlag, callFlag, lo);
    AddressFromMeans(x, lo, Field(x, 312, 5));
  }

  lemma AddressFromMeans(x: nat, lo: nat, size: nat)
    ensures AddressFrom(x, lo, size)
            == if lo <= 8 * size <= lo + 64 then Field(x, lo, 8 * size - lo) % 0x1_0000_0000 else 0xdead
  {
    hide Field;
  }

  lemma AddressStartOf(x: nat, timeFlag: bool, callFlag: bool, lo: nat)
    requires AddressAt(x, timeFlag, callFlag, lo)
    ensures Decode(x, timeFlag, callFlag).address == Some(AddressFrom(x, lo, Field(x, 312, 5)))
  {
    LowFields(x);
    hide Field, AddressFrom, Pow2, MapWidth, BranchMapSize;
    if x % 4 == 1 {
      var n := (x / 4) % 32;
      var w: nat :| MapWidth(n, w) && lo == 7 + w + if callFlag then 4 else 3;
      MapWidthIff(n, w);
      BranchAddress(x, callFlag);
    }
  }

  lemma BranchAddress(x: nat, callFlag: bool)
    requires Field(x, 2, 5) != 0
    ensures var lo := 7 + BranchMapSize(Field(x, 2, 5)) + if callFlag then 4 else 3;
            WithBranches(x, Header(x), callFlag).address == Some(AddressFrom(x, lo, Field(x, 312, 5)))
  {
    hide Field, AddressFrom, BranchMapSize;
  }

  lemma LowFields(x: nat)
    ensures Field(x, 0, 2) == x % 4 && Field(x, 2, 2) == (x / 4) % 4 && Field(x, 2, 5) == (x / 4) % 32
  {
    SmallPowers();
    assert Pow2(0) == 1;
    hide Pow2;
  }
}
