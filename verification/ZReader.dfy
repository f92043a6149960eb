/** The receiving half of the ZMODEM link layer: unescaping, subpackets and the header hunt. */
module ZReader {
  import opened Basics
  import opened Crc
  import opened ZEscape

  // The line is the sequence of bytes still to be read; reading past its end times out.

  /** What `zdlread` returns: a data byte, a GOTCRC code, GOTCAN, an error or TIMEOUT. */
  datatype Symbol = Data(b: byte) | Frameend(fe: byte) | GotCan | BadEscape | SymTimeout

  datatype Read = Read(sym: Symbol, rest: seq<byte>)

  /** `zdlread` and `zdlread2` up to the label `again2`. */
  function ReadSym(ctl: bool, s: seq<byte>): (r: Read)
    ensures |r.rest| <= |s|
    ensures r.sym.Data? ==> |r.rest| < |s|
    decreases |s|, 1
  {
    if s == [] then Read(SymTimeout, [])
    else
      var c := s[0];
      if !IsControl(c) then Read(Data(c), s[1..])
      else if c == ZDLE then ReadEscaped(ctl, s[1..])
      else if IsFlow(c) || ctl then ReadSym(ctl, s[1..])
      else Read(Data(c), s[1..])
  }

  /** After a ZDLE, from the label `again2`: up to three more CANs are swallowed first. */
  function ReadEscaped(ctl: bool, s: seq<byte>): (r: Read)
    ensures |r.rest| <= |s|
    ensures !r.sym.SymTimeout? ==> |r.rest| < |s|
    decreases |s|, 0
  {
    var n := Cans(s, 3);
    if n == |s| then Read(SymTimeout, [])
    else
      var c, rest := s[n], s[n + 1..];
      if c == ZDLE then Read(GotCan, rest)
      else if IsFrameend(c) then Read(Frameend(c), rest)
      else if c == ZRUB0 then Read(Data(0x7f), rest)
      else if c == ZRUB1 then Read(Data(0xff), rest)
      else if IsFlow(c) || (ctl && IsControl(c)) then ReadEscaped(ctl, rest)
      else if c & 0x60 == 0x40 then Read(Data(c ^ 0x40), rest)
      else Read(BadEscape, rest)
  }

  /** How many of at most `k` leading bytes are CAN, the same byte as ZDLE. */
  function Cans(s: seq<byte>, k: nat): (n: nat)
    ensures n <= k && n <= |s|
  {
    if k == 0 || s == [] || s[0] != ZDLE then 0 else 1 + Cans(s[1..], k - 1)
  }

  datatype Nox = Nox(c: byte, rest: seq<byte>) | NoxTimeout

  /** `noxrd7`: parity and flow control eaten. */
  function ReadNox(ctl: bool, s: seq<byte>): (r: Nox)
    ensures r.Nox? ==> |r.rest| < |s|
  {
    if s == [] then NoxTimeout
    else
      var c := s[0] & 0x7f;
      if c == XON || c == XOFF then ReadNox(ctl, s[1..])
      else if ctl && IsControl(c) && c != 0x0d && c != 0x0a && c != ZDLE then ReadNox(ctl, s[1..])
      else Nox(c, s[1..])
  }

  // ----- Data subpackets -----

  /** The running check of `zrdata` or `zrdat32`. */
  datatype Check = Check16(r: bv16) | Check32(w: bv32)

  function Fresh(wide: bool): Check {
    if wide then Check32(0xffffffff) else Check16(0)
  }

  function Feed(k: Check, b: byte): Check {
    match k
    case Check16(r) => Check16(UpdCrc(b, r))
    case Check32(w) => Check32(UpdCrc32(b, w))
  }

  predicate Passes(k: Check) {
    match k
    case Check16(r) => r == 0
    case Check32(w) => w == RESIDUE32
  }

  function FeedAll(k: Check, msg: seq<byte>): Check
    decreases msg
  {
    if msg == [] then k else FeedAll(Feed(k, msg[0]), msg[1..])
  }

  function FcsLen(k: Check): nat {
    if k.Check32? then 4 else 2
  }

  datatype DataCode = Got(fe: byte, buf: seq<byte>) | DataError | DataTimeout | DataCancelled

  datatype DataResult = DataResult(code: DataCode, rest: seq<byte>)

  /** `zrdata`, with `acc` already stored of a buffer of `length`. */
  function ReadData(ctl: bool, length: nat, acc: seq<byte>, k: Check, s: seq<byte>): DataResult
    decreases |s|
  {
    if |acc| > length then DataResult(DataError, s)
    else
      var r := ReadSym(ctl, s);
      if r.sym.Data? then ReadData(ctl, length, acc + [r.sym.b], Feed(k, r.sym.b), r.rest)
      else ReadFcs(ctl, acc, k, r)
  }

  /** The code at `crcfoo`; a symbol that is no data among the CRC bytes comes back here. */
  function ReadFcs(ctl: bool, acc: seq<byte>, k: Check, r: Read): DataResult
    requires !r.sym.Data?
    decreases |r.rest|, 1
  {
    match r.sym
    case Frameend(fe) => ReadFcsBytes(ctl, acc, fe, Feed(k, fe), FcsLen(k), r.rest)
    case GotCan => DataResult(DataCancelled, r.rest)
    case SymTimeout => DataResult(DataTimeout, r.rest)
    case BadEscape => DataResult(DataError, r.rest)
  }

  function ReadFcsBytes(ctl: bool, acc: seq<byte>, fe: byte, k: Check, n: nat, s: seq<byte>): DataResult
    decreases |s|, 0, n
  {
    if n == 0 then DataResult(if Passes(k) then Got(fe, acc) else DataError, s)
    else
      var r := ReadSym(ctl, s);
      if r.sym.Data? then ReadFcsBytes(ctl, acc, fe, Feed(k, r.sym.b), n - 1, r.rest)
      else if |r.rest| < |s| then ReadFcs(ctl, acc, k, r)
      else DataResult(DataTimeout, r.rest)
  }

  // ----- Headers -----

  /** What `zgethdr` returns: a frame type, a stray GOTCRC code, MYERROR or TIMEOUT. */
  datatype Code = Type(t: byte) | StrayEnd(fe: byte) | MyError | TimedOut

  datatype Header = Header(code: Code, frame: byte, hdr: seq<byte>, rest: seq<byte>)

  datatype Bytes = Bytes(msg: seq<byte>, rest: seq<byte>) | NotData(r: Read)

  /** `n` data bytes in a row, or the first symbol that is none. */
  function ReadN(ctl: bool, n: nat, s: seq<byte>): (b: Bytes)
    ensures b.Bytes? ==> |b.msg| == n && |b.rest| <= |s|
    ensures b.NotData? ==> !b.r.sym.Data?
    decreases n
  {
    if n == 0 then Bytes([], s)
    else
      var r := ReadSym(ctl, s);
      if !r.sym.Data? then NotData(r)
      else match ReadN(ctl, n - 1, r.rest)
        case Bytes(msg, rest) => Bytes([r.sym.b] + msg, rest)
        case NotData(r') => NotData(r')
  }

  /** GOTCAN is turned into ZCAN at the end of `zgethdr`. */
  function CodeOf(sym: Symbol): Code
    requires !sym.Data?
  {
    match sym
    case Frameend(fe) => StrayEnd(fe)
    case GotCan => Type(ZCAN)
    case BadEscape => MyError
    case SymTimeout => TimedOut
  }

  /** `zrbhdr` and `zrbhdr32`. */
  function ReadBinHdr(ctl: bool, wide: bool, s: seq<byte>): Header {
    var frame := if wide then ZBIN32 else ZBIN;
    match ReadN(ctl, if wide then 9 else 7, s)
    case NotData(r) => Header(CodeOf(r.sym), frame, [], r.rest)
    case Bytes(msg, rest) =>
      if Passes(FeedAll(Fresh(wide), msg)) then Header(Type(msg[0]), frame, msg[1..5], rest)
      else Header(MyError, frame, [], rest)
  }

  datatype HexRead = HexByte(b: byte, rest: seq<byte>) | HexBad(rest: seq<byte>) | HexTimeout

  /** One digit as `zgeth1` computes it, or 0xff when it is none. */
  function HexValue(c: byte): byte {
    if c < 0x30 then 0xff
    else
      var n := c - 0x30;
      var m := if n > 9 then n - 39 else n;
      if m & 0xf0 != 0 then 0xff else m
  }

  /** `zgethex`. */
  function ReadHex(ctl: bool, s: seq<byte>): (r: HexRead)
    ensures r.HexByte? ==> |r.rest| < |s|
  {
    match ReadNox(ctl, s)
    case NoxTimeout => HexTimeout
    case Nox(c, s1) =>
      if HexValue(c) == 0xff then HexBad(s1)
      else match ReadNox(ctl, s1)
        case NoxTimeout => HexTimeout
        case Nox(d, s2) =>
          if HexValue(d) == 0xff then HexBad(s2)
          else HexByte((HexValue(c) << 4) + HexValue(d), s2)
  }

  datatype HexBytes = HexBytes(msg: seq<byte>, rest: seq<byte>) | NotHex(code: Code, rest: seq<byte>)

  function ReadHexN(ctl: bool, n: nat, s: seq<byte>): (b: HexBytes)
    ensures b.HexBytes? ==> |b.msg| == n
    decreases n
  {
    if n == 0 then HexBytes([], s)
    else match ReadHex(ctl, s)
      case HexTimeout => NotHex(TimedOut, [])
      case HexBad(rest) => NotHex(MyError, rest)
      case HexByte(b, s1) =>
        match ReadHexN(ctl, n - 1, s1)
        case HexBytes(msg, rest) => HexBytes([b] + msg, rest)
        case NotHex(code, rest) => NotHex(code, rest)
  }

  /** One byte is read after a hex header and, when it is a carriage return, one more. */
  function SkipLineEnd(s: seq<byte>): seq<byte> {
    if s == [] then []
    else if s[0] == 0x8d || s[0] == 0x0d then (if |s| == 1 then [] else s[2..])
    else s[1..]
  }

  /** `zrhhdr`. */
  function ReadHexHdr(ctl: bool, s: seq<byte>): Header {
    match ReadHexN(ctl, 7, s)
    case NotHex(code, rest) => Header(code, ZHEX, [], rest)
    case HexBytes(msg, rest) =>
      if Passes(FeedAll(Fresh(false), msg)) then Header(Type(msg[0]), ZHEX, msg[1..5], SkipLineEnd(rest))
      else Header(MyError, ZHEX, [], rest)
  }

  // The header hunt of `zgethdr`. `budget` is `max_garbage`, an unsigned int that the
  // code decrements before it compares it with zero; `cans` is `cancount`.

  function Decrement(budget: nat): (r: nat)
    ensures budget > 0 ==> r == budget - 1
  {
    if budget == 0 then 0xffff_ffff else budget - 1
  }

  /** From the label `again`. */
  function Hunt(ctl: bool, budget: nat, cans: int, s: seq<byte>): Header
    decreases |s|, 2
  {
    if s == [] then Header(TimedOut, 0, [], [])
    else if s[0] == ZDLE then GotCanByte(ctl, budget, cans, s[1..])
    else if s[0] == ZPAD || s[0] == ZPAD | 0x80 then Splat(ctl, budget, s[1..])
    else Garbage(ctl, budget, s[1..])
  }

  /** From the label `gotcan`. */
  function GotCanByte(ctl: bool, budget: nat, cans: int, s: seq<byte>): Header
    decreases |s|, 3
  {
    if cans - 1 <= 0 then Header(Type(ZCAN), 0, [], s)
    else if s == [] then Hunt(ctl, budget, cans - 1, s)
    else if s[0] == ZCRCW then Header(MyError, 0, [], s[1..])
    else if s[0] == ZDLE then
      (if cans - 2 <= 0 then Header(Type(ZCAN), 0, [], s[1..]) else Hunt(ctl, budget, cans - 2, s[1..]))
    else Garbage(ctl, budget, s[1..])
  }

  /** From the label `agn2`: one more byte of garbage. */
  function Garbage(ctl: bool, budget: nat, s: seq<byte>): Header
    decreases |s|, 3
  {
    if Decrement(budget) == 0 then Header(MyError, 0, [], s)
    else Hunt(ctl, Decrement(budget), 5, s)
  }

  /** From the label `splat`, after one ZPAD. */
  function Splat(ctl: bool, budget: nat, s: seq<byte>): Header
    decreases |s|, 4
  {
    match ReadNox(ctl, s)
    case NoxTimeout => Header(TimedOut, 0, [], [])
    case Nox(c, rest) =>
      if c == ZPAD then Splat(ctl, budget, rest)
      else if c == ZDLE then FrameKind(ctl, budget, rest)
      else Garbage(ctl, budget, rest)
  }

  function FrameKind(ctl: bool, budget: nat, s: seq<byte>): Header
    decreases |s|, 4
  {
    match ReadNox(ctl, s)
    case NoxTimeout => Header(TimedOut, 0, [], [])
    case Nox(c, rest) =>
      if c == ZBIN then ReadBinHdr(ctl, false, rest)
      else if c == ZBIN32 then ReadBinHdr(ctl, true, rest)
      else if c == ZHEX then ReadHexHdr(ctl, rest)
      else if c == ZDLE then GotCanByte(ctl, budget, 5, rest)
      else Garbage(ctl, budget, rest)
  }

  /** `zgethdr`. */
  function GetHdr(ctl: bool, budget: nat, s: seq<byte>): Header {
    Hunt(ctl, budget, 5, s)
  }
}
