/** What the sender emits is what the receiver reads back. */
module ZRoundTrip {
  import opened Basics
  import opened Crc
  import opened ZEscape
  import opened ZReader

  /** A receiver that drops bare control bytes needs a sender that never sends one. */
  predicate Compatible(rctl: bool, k: Escaping) {
    rctl ==> k.ctl && !k.turbo
  }

  lemma EncByteDecodes(rctl: bool, k: Escaping, last: byte, b: byte, rest: seq<byte>)
    requires Compatible(rctl, k)
    ensures ReadSym(rctl, EncByte(k, last, b) + rest) == Read(Data(b), rest)
  {
    var s := EncByte(k, last, b) + rest;
    if Escapes(k, last, b) {
      assert s[1..] == [b ^ 0x40] + rest;
      EscapedDecodes(rctl, b, rest);
    } else {
      assert s[1..] == rest;
    }
  }

  lemma EscapedDecodes(rctl: bool, b: byte, rest: seq<byte>)
    requires IsControl(b)
    ensures ReadEscaped(rctl, [b ^ 0x40] + rest) == Read(Data(b), rest)
  {
    var c := b ^ 0x40;
    assert c & 0x60 == 0x40 && c ^ 0x40 == b;
    assert ([c] + rest)[1..] == rest;
  }

  lemma FrameendDecodes(rctl: bool, fe: byte, rest: seq<byte>)
    requires IsFrameend(fe)
    ensures ReadSym(rctl, [ZDLE, fe] + rest) == Read(Frameend(fe), rest)
  {
    var s := [ZDLE, fe] + rest;
    assert s[1..] == [fe] + rest && ([fe] + rest)[1..] == rest;
  }

  /** The encoder's output splits after its first byte. */
  lemma EncUncons(k: Escaping, last: byte, msg: seq<byte>, rest: seq<byte>)
    requires msg != []
    ensures Enc(k, last, msg) + rest
         == EncByte(k, last, msg[0]) + (Enc(k, LastByte(k, last, msg[0]), msg[1..]) + rest)
  {
    hide EncByte, LastByte;
    Assoc(EncByte(k, last, msg[0]), Enc(k, LastByte(k, last, msg[0]), msg[1..]), rest);
  }

  lemma {:induction false} EncDecodes(rctl: bool, k: Escaping, last: byte, msg: seq<byte>, rest: seq<byte>)
    requires Compatible(rctl, k)
    ensures ReadN(rctl, |msg|, Enc(k, last, msg) + rest) == Bytes(msg, rest)
    decreases msg
  {
    hide EncByte, LastByte, ReadSym;
    if msg == [] {
      assert Enc(k, last, msg) + rest == rest;
    } else {
      var next := LastByte(k, last, msg[0]);
      EncUncons(k, last, msg, rest);
      EncByteDecodes(rctl, k, last, msg[0], Enc(k, next, msg[1..]) + rest);
      EncDecodes(rctl, k, next, msg[1..], rest);
      assert [msg[0]] + msg[1..] == msg;
    }
  }

  // ----- The checks agree -----

  lemma {:induction false} FeedAllIs(k: Check, msg: seq<byte>)
    ensures FeedAll(k, msg) == match k
                               case Check16(r) => Check16(Crc16Over(msg, r))
                               case Check32(w) => Check32(Crc32Over(msg, w))
    decreases msg
  {
    hide UpdCrc, UpdCrc32;
    if msg != [] {
      FeedAllIs(Feed(k, msg[0]), msg[1..]);
      match k
      case Check16(r) => Crc16Cons(msg, r);
      case Check32(w) => Crc32Cons(msg, w);
    }
  }

  lemma FcsPasses(wide: bool, msg: seq<byte>)
    ensures Passes(FeedAll(Fresh(wide), msg + Fcs(wide, msg)))
    ensures |Fcs(wide, msg)| == FcsLen(Fresh(wide))
  {
    hide Crc16Over, Crc32Over, UpdCrc;
    FeedAllIs(Fresh(wide), msg + Fcs(wide, msg));
    Residue16(msg);
    Residue32(msg);
  }

  lemma {:induction false} FeedAllConcat(k: Check, p: seq<byte>, s: seq<byte>)
    ensures FeedAll(k, p + s) == FeedAll(FeedAll(k, p), s)
    decreases p
  {
    hide Feed;
    if p == [] {
      assert p + s == s;
    } else {
      FeedAllConcat(Feed(k, p[0]), p[1..], s);
      assert (p + s)[1..] == p[1..] + s;
    }
  }

  lemma {:induction false} FeedKeepsWidth(k: Check, msg: seq<byte>)
    ensures FcsLen(FeedAll(k, msg)) == FcsLen(k)
    decreases msg
  {
    hide UpdCrc, UpdCrc32;
    if msg != [] {
      FeedKeepsWidth(Feed(k, msg[0]), msg[1..]);
    }
  }

  // ----- Data subpackets -----

  /** Reading an encoded payload stores it and advances the check over it. */
  lemma {:induction false} PayloadRead(rctl: bool, k: Escaping, last: byte, length: nat, acc: seq<byte>, ck: Check,
                                       msg: seq<byte>, rest: seq<byte>)
    requires Compatible(rctl, k) && |acc| + |msg| <= length
    ensures ReadData(rctl, length, acc, ck, Enc(k, last, msg) + rest)
         == ReadData(rctl, length, acc + msg, FeedAll(ck, msg), rest)
    decreases msg
  {
    hide EncByte, LastByte, ReadSym, Feed, ReadFcs;
    if msg == [] {
      assert Enc(k, last, msg) + rest == rest && acc + msg == acc;
    } else {
      var next := LastByte(k, last, msg[0]);
      EncUncons(k, last, msg, rest);
      EncByteDecodes(rctl, k, last, msg[0], Enc(k, next, msg[1..]) + rest);
      PayloadRead(rctl, k, next, length, acc + [msg[0]], Feed(ck, msg[0]), msg[1..], rest);
      assert acc + [msg[0]] + msg[1..] == acc + msg;
    }
  }

  lemma {:induction false} FcsRead(rctl: bool, k: Escaping, last: byte, acc: seq<byte>, fe: byte, ck: Check,
                                   fcs: seq<byte>, rest: seq<byte>)
    requires Compatible(rctl, k)
    ensures ReadFcsBytes(rctl, acc, fe, ck, |fcs|, Enc(k, last, fcs) + rest)
         == DataResult(if Passes(FeedAll(ck, fcs)) then Got(fe, acc) else DataError, rest)
    decreases fcs
  {
    hide EncByte, LastByte, ReadSym, Feed, ReadFcs, Passes;
    if fcs == [] {
      assert Enc(k, last, fcs) + rest == rest;
    } else {
      var next := LastByte(k, last, fcs[0]);
      EncUncons(k, last, fcs, rest);
      EncByteDecodes(rctl, k, last, fcs[0], Enc(k, next, fcs[1..]) + rest);
      FcsRead(rctl, k, next, acc, fe, Feed(ck, fcs[0]), fcs[1..], rest);
    }
  }

  /** `zrdata` over what `zsdata` or `zsda32` emitted gives back the payload and its frame end. */
  lemma PacketRoundTrip(rctl: bool, k: Escaping, wide: bool, last: byte, buf: seq<byte>, fe: byte, length: nat, rest: seq<byte>)
    requires Compatible(rctl, k) && IsFrameend(fe) && |buf| <= length
    ensures ReadData(rctl, length, [], Fresh(wide), Packet(k, wide, last, buf, fe) + rest)
         == DataResult(Got(fe, buf), DataTail(fe) + rest)
  {
    hide Enc, Last, ReadSym, Feed, Passes, ReadFcsBytes, FeedAll, Fcs, FcsLen, Fresh;
    var last1, fcs, tail := Last(k, last, buf), Fcs(wide, buf + [fe]), DataTail(fe) + rest;
    var s2 := Enc(k, last1, fcs) + tail;
    var s1 := [ZDLE, fe] + s2;
    assert Packet(k, wide, last, buf, fe) + rest == Enc(k, last, buf) + s1;
    PayloadRead(rctl, k, last, length, [], Fresh(wide), buf, s1);
    assert [] + buf == buf;
    FrameendDecodes(rctl, fe, s2);
    var ck := FeedAll(Fresh(wide), buf);
    FcsPasses(wide, buf + [fe]);
    FeedKeepsWidth(Fresh(wide), buf);
    FeedAllConcat(Fresh(wide), buf + [fe], fcs);
    FeedAllConcat(Fresh(wide), buf, [fe]);
    FeedOne(ck, fe);
    FcsRead(rctl, k, last1, buf, fe, Feed(ck, fe), fcs, tail);
  }

  lemma FeedOne(ck: Check, b: byte)
    ensures FeedAll(ck, [b]) == Feed(ck, b)
  {
    hide Feed;
  }

  /** A payload one byte too long for the buffer is never delivered. */
  lemma PacketTooLong(rctl: bool, k: Escaping, wide: bool, last: byte, buf: seq<byte>, fe: byte, length: nat, rest: seq<byte>)
    requires Compatible(rctl, k) && |buf| > length
    ensures ReadData(rctl, length, [], Fresh(wide), Packet(k, wide, last, buf, fe) + rest).code == DataError
  {
    hide Enc, Last, ReadSym, Feed, FeedAll, Fcs, ReadFcs, DataTail;
    var p, q := buf[..length], buf[length..];
    assert buf == p + q;
    EncConcat(k, last, p, q);
    var last1 := Last(k, last, p);
    var s := [ZDLE, fe] + Enc(k, Last(k, last, buf), Fcs(wide, buf + [fe])) + DataTail(fe) + rest;
    assert Packet(k, wide, last, buf, fe) + rest == Enc(k, last, p) + (Enc(k, last1, q) + s);
    PayloadRead(rctl, k, last, length, [], Fresh(wide), p, Enc(k, last1, q) + s);
    assert [] + p == p;
    EncUncons(k, last1, q, s);
    EncByteDecodes(rctl, k, last1, q[0], Enc(k, LastByte(k, last1, q[0]), q[1..]) + s);
  }

  // ----- The escaping table decides the round trip, exactly -----

  ghost predicate PacketOk(rctl: bool, k: Escaping, wide: bool, last: byte, buf: seq<byte>, fe: byte, length: nat, rest: seq<byte>) {
    ReadData(rctl, length, [], Fresh(wide), Packet(k, wide, last, buf, fe) + rest)
    == DataResult(Got(fe, buf), DataTail(fe) + rest)
  }

  ghost predicate EveryPacketOk(rctl: bool, k: Escaping) {
    forall wide, last, buf, fe, length, rest | IsFrameend(fe) && 1 <= |buf| <= length ::
      PacketOk(rctl, k, wide, last, buf, fe, length, rest)
  }

  /** A control byte the sender leaves bare although the receiver drops bare control bytes. */
  function Witness(k: Escaping): byte {
    if k.ctl then 0x10 else 0x01
  }

  /** Whatever follows the frame end, `zrdata` delivers no more than it had stored by then. */
  lemma {:induction false} FcsDeliversStored(ctl: bool, acc: seq<byte>, k: Check, r: Read)
    requires !r.sym.Data?
    ensures ReadFcs(ctl, acc, k, r).code.Got? ==> ReadFcs(ctl, acc, k, r).code.buf == acc
    decreases |r.rest|, 1
  {
    hide ReadSym, Feed, Passes;
    if r.sym.Frameend? {
      FcsBytesDeliverStored(ctl, acc, r.sym.fe, Feed(k, r.sym.fe), FcsLen(k), r.rest);
    }
  }

  lemma {:induction false} FcsBytesDeliverStored(ctl: bool, acc: seq<byte>, fe: byte, k: Check, n: nat, s: seq<byte>)
    ensures ReadFcsBytes(ctl, acc, fe, k, n, s).code.Got? ==> ReadFcsBytes(ctl, acc, fe, k, n, s).code.buf == acc
    decreases |s|, 0, n
  {
    hide Feed, Passes;
    if n > 0 {
      var r := ReadSym(ctl, s);
      if r.sym.Data? {
        FcsBytesDeliverStored(ctl, acc, fe, Feed(k, r.sym.b), n - 1, r.rest);
      } else if |r.rest| < |s| {
        FcsDeliversStored(ctl, acc, k, r);
      }
    }
  }

  lemma WitnessIsDropped(k: Escaping, s: seq<byte>)
    requires !Compatible(true, k)
    ensures EncByte(k, 0, Witness(k)) == [Witness(k)]
    ensures ReadSym(true, [Witness(k)] + s) == ReadSym(true, s)
  {
    assert ([Witness(k)] + s)[1..] == s;
  }

  /** The one-byte packet that shows it: its payload never arrives. */
  lemma BareControlByteLost(k: Escaping, wide: bool)
    requires !Compatible(true, k)
    ensures !PacketOk(true, k, wide, 0, [Witness(k)], ZCRCE, 1, [])
  {
    hide ReadFcs, Feed, Fcs, Witness, ReadFcsBytes, ReadSym;
    var buf := [Witness(k)];
    var s2 := Enc(k, Last(k, 0, buf), Fcs(wide, buf + [ZCRCE])) + DataTail(ZCRCE) + [];
    var s1 := [ZDLE, ZCRCE] + s2;
    WitnessIsDropped(k, s1);
    EncOne(k, 0, Witness(k));
    assert Packet(k, wide, 0, buf, ZCRCE) + [] == [Witness(k)] + s1;
    FrameendDecodes(true, ZCRCE, s2);
    FcsDeliversStored(true, [], Fresh(wide), Read(Frameend(ZCRCE), s2));
  }

  /**
    Every payload survives the line if and only if the receiver keeps bare control bytes
    or the sender escapes all of them, which `turbo_escape` does not.
   */
  lemma RoundTripExactlyWhenCompatible(rctl: bool, k: Escaping)
    ensures EveryPacketOk(rctl, k) <==> Compatible(rctl, k)
  {
    hide PacketOk;
    if Compatible(rctl, k) {
      forall wide, last, buf, fe, length, rest | IsFrameend(fe) && 1 <= |buf| <= length
        ensures PacketOk(rctl, k, wide, last, buf, fe, length, rest)
      {
        PacketIsOk(rctl, k, wide, last, buf, fe, length, rest);
      }
    } else {
      BareControlByteLost(k, true);
    }
  }

  lemma PacketIsOk(rctl: bool, k: Escaping, wide: bool, last: byte, buf: seq<byte>, fe: byte, length: nat, rest: seq<byte>)
    requires Compatible(rctl, k) && IsFrameend(fe) && |buf| <= length
    ensures PacketOk(rctl, k, wide, last, buf, fe, length, rest)
  {
    hide ReadData, Packet;
    PacketRoundTrip(rctl, k, wide, last, buf, fe, length, rest);
  }

  // ----- Headers -----

  lemma BinHdrRoundTrip(rctl: bool, k: Escaping, wide: bool, last: byte, t: byte, hdr: seq<byte>, budget: nat, rest: seq<byte>)
    requires Compatible(rctl, k) && |hdr| == 4
    ensures GetHdr(rctl, budget, BinHdr(k, wide, last, t, hdr) + rest)
         == Header(Type(t), if wide then ZBIN32 else ZBIN, hdr, rest)
  {
    hide Enc, Fcs, FeedAll, Passes, ReadN, Fresh, Garbage, GotCanByte;
    var body := [t] + hdr;
    var msg := body + Fcs(wide, body);
    var kind := if wide then ZBIN32 else ZBIN;
    var s := [ZPAD, ZDLE, kind] + (Enc(k, last, msg) + rest);
    assert BinHdr(k, wide, last, t, hdr) + rest == s;
    var s1, s2, s3 := s[1..], s[2..], s[3..];
    assert s1[1..] == s2 && s2[1..] == s3 && s3 == Enc(k, last, msg) + rest;
    assert Hunt(rctl, budget, 5, s) == Splat(rctl, budget, s1) == FrameKind(rctl, budget, s2) == ReadBinHdr(rctl, wide, s3);
    FcsPasses(wide, body);
    FcsLenIs(wide);
    EncDecodes(rctl, k, last, msg, rest);
    assert msg[1..5] == hdr;
  }

  lemma FcsLenIs(wide: bool)
    ensures FcsLen(Fresh(wide)) == if wide then 4 else 2
  {
  }

  lemma HexDigitsDecode(ctl: bool, b: byte, rest: seq<byte>)
    ensures ReadHex(ctl, [HexDigit(b >> 4), HexDigit(b & 0x0f)] + rest) == HexByte(b, rest)
  {
    var hi, lo := b >> 4, b & 0x0f;
    HexDigitReads(ctl, hi, [HexDigit(lo)] + rest);
    HexDigitReads(ctl, lo, rest);
    assert [HexDigit(hi), HexDigit(lo)] + rest == [HexDigit(hi)] + ([HexDigit(lo)] + rest);
    assert (hi << 4) + lo == b;
  }

  lemma HexDigitReads(ctl: bool, n: byte, rest: seq<byte>)
    requires n < 16
    ensures ReadNox(ctl, [HexDigit(n)] + rest) == Nox(HexDigit(n), rest)
    ensures HexValue(HexDigit(n)) == n
  {
    assert ([HexDigit(n)] + rest)[1..] == rest;
  }

  function Digits(b: byte): seq<byte> {
    [HexDigit(b >> 4), HexDigit(b & 0x0f)]
  }

  lemma HexStep(msg: seq<byte>)
    requires msg != []
    ensures Hex(msg) == Digits(msg[0]) + Hex(msg[1..])
  {
  }

  lemma DigitsDecode(ctl: bool, b: byte, rest: seq<byte>)
    ensures ReadHex(ctl, Digits(b) + rest) == HexByte(b, rest)
  {
    hide ReadHex;
    HexDigitsDecode(ctl, b, rest);
  }

  lemma {:induction false} HexDecodes(ctl: bool, msg: seq<byte>, rest: seq<byte>)
    ensures ReadHexN(ctl, |msg|, Hex(msg) + rest) == HexBytes(msg, rest)
  {
    hide Digits, ReadHex;
    if msg == [] {
      assert Hex(msg) + rest == rest;
    } else {
      HexStep(msg);
      Assoc(Digits(msg[0]), Hex(msg[1..]), rest);
      DigitsDecode(ctl, msg[0], Hex(msg[1..]) + rest);
      HexDecodes(ctl, msg[1..], rest);
      assert [msg[0]] + msg[1..] == msg;
    }
  }

  /** The two pads, ZDLE and ZHEX in front of a hex header. */
  lemma HuntHex(rctl: bool, budget: nat, s0: seq<byte>)
    ensures GetHdr(rctl, budget, [ZPAD] + ([ZPAD] + ([ZDLE] + ([ZHEX] + s0)))) == ReadHexHdr(rctl, s0)
  {
    hide ReadHexHdr, Garbage, GotCanByte;
    var s1 := [ZHEX] + s0;
    var s2 := [ZDLE] + s1;
    var s3 := [ZPAD] + s2;
    var s := [ZPAD] + s3;
    assert s[1..] == s3 && s3[1..] == s2 && s2[1..] == s1 && s1[1..] == s0;
    assert Hunt(rctl, budget, 5, s) == Splat(rctl, budget, s3) == Splat(rctl, budget, s2) == FrameKind(rctl, budget, s1)
        == ReadHexHdr(rctl, s0);
  }

  lemma HexHdrRoundTrip(rctl: bool, t: byte, hdr: seq<byte>, budget: nat, rest: seq<byte>)
    requires |hdr| == 4
    ensures GetHdr(rctl, budget, HexHdr(t, hdr) + rest) == Header(Type(t & 0x7f), ZHEX, hdr, HexTail(t) + rest)
  {
    hide Hex, Fcs16, FeedAll, Passes, ReadHexN, Hunt, HexTail;
    var body := [t & 0x7f] + hdr;
    var msg, tail := body + Fcs16(body), [0x0d, 0x8a] + (HexTail(t) + rest);
    var s0 := Hex(msg) + tail;
    assert HexHdr(t, hdr) + rest == [ZPAD] + ([ZPAD] + ([ZDLE] + ([ZHEX] + s0)));
    HuntHex(rctl, budget, s0);
    FcsPasses(false, body);
    HexDecodes(rctl, msg, tail);
    assert msg[1..5] == hdr;
    assert tail[2..] == HexTail(t) + rest;
  }

  // ----- Resynchronising -----

  predicate IsGarbage(b: byte) {
    b != ZPAD && b != ZPAD | 0x80 && b != ZDLE
  }

  /** The header hunt passes over anything that cannot start a frame, within its budget. */
  lemma {:induction false} GarbageSkipped(ctl: bool, budget: nat, g: seq<byte>, s: seq<byte>)
    requires |g| < budget && forall i :: 0 <= i < |g| ==> IsGarbage(g[i])
    ensures GetHdr(ctl, budget, g + s) == GetHdr(ctl, budget - |g|, s)
    decreases g
  {
    hide GotCanByte, Splat;
    if g == [] {
      assert g + s == s;
    } else {
      assert (g + s)[1..] == g[1..] + s;
      assert Hunt(ctl, budget, 5, g + s) == Garbage(ctl, budget, g[1..] + s) == Hunt(ctl, budget - 1, 5, g[1..] + s);
      GarbageSkipped(ctl, budget - 1, g[1..], s);
    }
  }

  /** And it gives up exactly when the budget is used up. */
  lemma {:induction false} GarbageExhausts(ctl: bool, budget: nat, g: seq<byte>, s: seq<byte>)
    requires |g| == budget > 0 && forall i :: 0 <= i < |g| ==> IsGarbage(g[i])
    ensures GetHdr(ctl, budget, g + s) == Header(MyError, 0, [], s)
    decreases g
  {
    hide GotCanByte, Splat;
    assert (g + s)[1..] == g[1..] + s;
    assert Hunt(ctl, budget, 5, g + s) == Garbage(ctl, budget, g[1..] + s);
    if |g| == 1 {
      assert g[1..] + s == s;
    } else {
      assert Garbage(ctl, budget, g[1..] + s) == Hunt(ctl, budget - 1, 5, g[1..] + s);
      GarbageExhausts(ctl, budget - 1, g[1..], s);
    }
  }

  // ----- Whole frames -----

  datatype Style = HexStyle | BinStyle(wide: bool)

  datatype Subpacket = Subpacket(buf: seq<byte>, fe: byte)

  /** `Crc32t` after the header, which `ZSDATA` consults. */
  function WideAfter(style: Style): bool {
    style.BinStyle? && style.wide
  }

  function EmitHeader(k: Escaping, style: Style, last: byte, znulls: nat, t: byte, hdr: seq<byte>): seq<byte> {
    match style
    case HexStyle => HexHdr(t, hdr)
    case BinStyle(wide) => Nulls(t, znulls) + BinHdr(k, wide, last, t, hdr)
  }

  function LastOfHeader(k: Escaping, style: Style, last: byte, t: byte, hdr: seq<byte>): byte {
    match style
    case HexStyle => last
    case BinStyle(wide) => Last(k, last, [t] + hdr + Fcs(wide, [t] + hdr))
  }

  function EmitPackets(k: Escaping, wide: bool, last: byte, ps: seq<Subpacket>): seq<byte>
    decreases ps
  {
    if ps == [] then []
    else
      Packet(k, wide, last, ps[0].buf, ps[0].fe)
      + EmitPackets(k, wide, LastOfPacket(k, wide, last, ps[0].buf, ps[0].fe), ps[1..])
  }

  /** Bytes a reader finds after the last of the packets: an XON if that one ended with ZCRCW. */
  function Leftover(pre: seq<byte>, ps: seq<Subpacket>): seq<byte> {
    if ps == [] then pre else DataTail(ps[|ps| - 1].fe)
  }

  /** `zrdata` called once per expected subpacket. */
  function ReadPackets(ctl: bool, length: nat, wide: bool, n: nat, s: seq<byte>): (r: (seq<DataCode>, seq<byte>))
    decreases n
  {
    if n == 0 then ([], s)
    else
      var d := ReadData(ctl, length, [], Fresh(wide), s);
      var r := ReadPackets(ctl, length, wide, n - 1, d.rest);
      ([d.code] + r.0, r.1)
  }

  function Delivered(ps: seq<Subpacket>): seq<DataCode> {
    if ps == [] then [] else [Got(ps[0].fe, ps[0].buf)] + Delivered(ps[1..])
  }

  predicate IsXonTail(x: seq<byte>) { x == [] || x == [XON] }

  lemma XonSkipped(ctl: bool, length: nat, ck: Check, x: seq<byte>, s: seq<byte>)
    requires IsXonTail(x)
    ensures ReadData(ctl, length, [], ck, x + s) == ReadData(ctl, length, [], ck, s)
  {
    hide Feed, ReadFcs;
    if x == [XON] {
      assert (x + s)[1..] == s;
      assert ReadSym(ctl, x + s) == ReadSym(ctl, s);
    } else {
      assert x + s == s;
    }
  }

  lemma {:induction false} PacketsRoundTrip(rctl: bool, k: Escaping, wide: bool, last: byte, length: nat,
                                            ps: seq<Subpacket>, pre: seq<byte>, rest: seq<byte>)
    requires Compatible(rctl, k) && IsXonTail(pre)
    requires forall p :: p in ps ==> IsFrameend(p.fe) && |p.buf| <= length
    ensures ReadPackets(rctl, length, wide, |ps|, pre + (EmitPackets(k, wide, last, ps) + rest))
         == (Delivered(ps), Leftover(pre, ps) + rest)
    decreases ps
  {
    hide Packet, ReadData, LastOfPacket, Fresh;
    if ps == [] {
      assert EmitPackets(k, wide, last, ps) + rest == rest;
    } else {
      var p := ps[0];
      var next := LastOfPacket(k, wide, last, p.buf, p.fe);
      var more := EmitPackets(k, wide, next, ps[1..]);
      Assoc(Packet(k, wide, last, p.buf, p.fe), more, rest);
      XonSkipped(rctl, length, Fresh(wide), pre, Packet(k, wide, last, p.buf, p.fe) + (more + rest));
      PacketRoundTrip(rctl, k, wide, last, p.buf, p.fe, length, more + rest);
      PacketsRoundTrip(rctl, k, wide, next, length, ps[1..], DataTail(p.fe), rest);
    }
  }

  /**
    The whole frame: after up to a budget of garbage, the header hunt finds the type and
    header that were sent, both sides settle on the same check width, and every
    subpacket that follows is delivered with its frame end.
   */
  lemma FrameRoundTrip(rctl: bool, k: Escaping, style: Style, last: byte, znulls: nat, t: byte, hdr: seq<byte>,
                       ps: seq<Subpacket>, length: nat, budget: nat, g: seq<byte>, rest: seq<byte>)
    requires Compatible(rctl, k) && |hdr| == 4
    requires forall p :: p in ps ==> IsFrameend(p.fe) && |p.buf| <= length
    requires forall i :: 0 <= i < |g| ==> IsGarbage(g[i])
    requires |g| + znulls < budget
    ensures var wide := WideAfter(style);
            var last1 := LastOfHeader(k, style, last, t, hdr);
            var h := GetHdr(rctl, budget, g + EmitHeader(k, style, last, znulls, t, hdr) + (EmitPackets(k, wide, last1, ps) + rest));
            && h.code == Type(if style.HexStyle? then t & 0x7f else t)
            && h.hdr == hdr
            && (h.frame == ZBIN32 <==> wide)
            && ReadPackets(rctl, length, h.frame == ZBIN32, |ps|, h.rest)
            == (Delivered(ps), Leftover(if style.HexStyle? then HexTail(t) else [], ps) + rest)
  {
    hide GetHdr, ReadPackets, EmitPackets, BinHdr, HexHdr, LastOfHeader, Delivered, Leftover;
    var wide := WideAfter(style);
    var body := EmitPackets(k, wide, LastOfHeader(k, style, last, t, hdr), ps) + rest;
    match style {
      case HexStyle =>
        assert g + EmitHeader(k, style, last, znulls, t, hdr) + body == g + (HexHdr(t, hdr) + body);
        GarbageSkipped(rctl, budget, g, HexHdr(t, hdr) + body);
        HexHdrRoundTrip(rctl, t, hdr, budget - |g|, body);
        PacketsRoundTrip(rctl, k, wide, LastOfHeader(k, style, last, t, hdr), length, ps, HexTail(t), rest);
      case BinStyle(w) =>
        var g' := g + Nulls(t, znulls);
        assert g + EmitHeader(k, style, last, znulls, t, hdr) + body == g' + (BinHdr(k, w, last, t, hdr) + body);
        GarbageSkipped(rctl, budget, g', BinHdr(k, w, last, t, hdr) + body);
        BinHdrRoundTrip(rctl, k, w, last, t, hdr, budget - |g'|, body);
        PacketsRoundTrip(rctl, k, wide, LastOfHeader(k, style, last, t, hdr), length, ps, [], rest);
        assert [] + body == body;
    }
  }

  /** The sender's calls that emit such a frame. */
  method SendFrame(tx: Transmitter, hex: bool, t: byte, hdr: seq<byte>, ps: seq<Subpacket>)
    requires tx.Valid() && |hdr| == 4
    requires hex || !tx.txfcs32 ==> forall p :: p in ps ==> p.buf != []
    modifies tx
    ensures tx.Valid() && tx.Config() == old(tx.Config())
    ensures var style := if hex then HexStyle else BinStyle(tx.txfcs32);
            tx.out == old(tx.out) + EmitHeader(tx.Config(), style, old(tx.lastsent), tx.znulls, t, hdr)
                      + EmitPackets(tx.Config(), WideAfter(style), LastOfHeader(tx.Config(), style, old(tx.lastsent), t, hdr), ps)
  {
    hide Packet, EmitPackets, BinHdr, HexHdr, Last, Fcs;
    ghost var k, last0 := tx.Config(), tx.lastsent;
    if hex {
      tx.Zshhdr(t, hdr);
    } else {
      tx.Zsbhdr(t, hdr);
      Assoc(old(tx.out), Nulls(t, tx.znulls), BinHdr(k, tx.txfcs32, last0, t, hdr));
    }
    SendPackets(tx, ps);
  }

  method SendPackets(tx: Transmitter, ps: seq<Subpacket>)
    requires tx.Valid()
    requires !tx.crc32t ==> forall p :: p in ps ==> p.buf != []
    modifies tx
    ensures tx.Valid() && tx.Config() == old(tx.Config()) && tx.znulls == old(tx.znulls) && tx.txfcs32 == old(tx.txfcs32)
    ensures tx.out == old(tx.out) + EmitPackets(tx.Config(), old(tx.crc32t), old(tx.lastsent), ps)
  {
    hide Packet, LastOfPacket, Last, Fcs;
    ghost var k, wide := tx.Config(), tx.crc32t;
    ghost var goal := tx.out + EmitPackets(k, wide, tx.lastsent, ps);
    var i := 0;
    assert ps[0..] == ps;
    while i < |ps|
      invariant 0 <= i <= |ps|
      invariant tx.Valid() && tx.crc32t == wide && tx.Config() == k
      invariant tx.txfcs32 == old(tx.txfcs32) && tx.znulls == old(tx.znulls)
      invariant tx.out + EmitPackets(k, wide, tx.lastsent, ps[i..]) == goal
    {
      ghost var p, more := ps[i], EmitPackets(k, wide, LastOfPacket(k, wide, tx.lastsent, ps[i].buf, ps[i].fe), ps[i + 1..]);
      assert ps[i..][0] == p && ps[i..][1..] == ps[i + 1..];
      Assoc(tx.out, Packet(k, wide, tx.lastsent, p.buf, p.fe), more);
      tx.ZSDATA(ps[i].buf, ps[i].fe);
      i := i + 1;
    }
    assert EmitPackets(k, wide, tx.lastsent, ps[i..]) == [];
    assert tx.out == goal;
  }
}
