/** What the receiving half makes of any line, not only of what this sender puts on it. */
module ZDecode {
  import opened Basics
  import opened Crc
  import opened ZEscape
  import opened ZReader
  import opened ZRoundTrip
  import ZReceiver

  // ----- Symbols -----

  /** Bytes that carry nothing: flow control and, when control bytes are escaped, bare ones. */
  predicate Noise(ctl: bool, b: byte) {
    b in {0x11, 0x13, 0x91, 0x93} || (ctl && b & 0x60 == 0 && b != 0x18)
  }

  ghost predicate AllNoise(ctl: bool, z: seq<byte>) {
    forall i :: 0 <= i < |z| ==> Noise(ctl, z[i])
  }

  /** The further CANs after a first one. */
  function CanRun(n: nat): seq<byte> {
    seq(n, _ => 0x18)
  }

  lemma OneByteRead(ctl: bool, b: byte, s: seq<byte>)
    ensures Noise(ctl, b) ==> ReadSym(ctl, [b] + s) == ReadSym(ctl, s)
    ensures !Noise(ctl, b) && b != 0x18 ==> ReadSym(ctl, [b] + s) == Read(Data(b), s)
    ensures b == 0x18 ==> ReadSym(ctl, [b] + s) == ReadEscaped(ctl, s)
  {
    assert ([b] + s)[1..] == s;
  }

  lemma {:induction false} NoiseSkipped(ctl: bool, z: seq<byte>, s: seq<byte>)
    requires AllNoise(ctl, z)
    ensures ReadSym(ctl, z + s) == ReadSym(ctl, s)
    decreases z
  {
    hide ReadSym, Noise;
    if z == [] {
      assert z + s == s;
    } else {
      assert z + s == [z[0]] + (z[1..] + s);
      OneByteRead(ctl, z[0], z[1..] + s);
      NoiseSkipped(ctl, z[1..], s);
    }
  }

  lemma {:induction false} CansCounted(n: nat, k: nat, s: seq<byte>)
    requires s == [] || s[0] != 0x18
    ensures Cans(CanRun(n) + s, k) == if n <= k then n else k
    decreases n
  {
    var p := CanRun(n) + s;
    if n == 0 {
      assert p == s;
    } else if k > 0 {
      assert p[0] == 0x18 && p[1..] == CanRun(n - 1) + s;
      CansCounted(n - 1, k - 1, s);
    }
  }

  /** What a byte after ZDLE stands for: an end of frame, the two DEL codes, a control byte moved up by 0x40, or nothing. */
  ghost predicate Escape(c: byte, sym: Symbol) {
    match sym
    case Frameend(fe) => c == fe && 0x68 <= c <= 0x6b
    case Data(b) => (c == 0x6c && b == 0x7f) || (c == 0x6d && b == 0xff) || (c & 0x60 == 0x40 && c == b ^ 0x40)
    case BadEscape => !(0x68 <= c <= 0x6d) && c & 0x60 != 0x40
    case GotCan => false
    case SymTimeout => false
  }

  /** The last byte of an escape sequence decides, after up to three more CANs, which are ignored. */
  lemma EscapeRead(ctl: bool, n: nat, c: byte, s: seq<byte>)
    requires n <= 3 && c != 0x18
    ensures var r := ReadEscaped(ctl, CanRun(n) + [c] + s);
      if Noise(ctl, c) then r == ReadEscaped(ctl, s) else Escape(c, r.sym) && r.rest == s
  {
    var p := CanRun(n) + ([c] + s);
    assert CanRun(n) + [c] + s == p;
    CansCounted(n, 3, [c] + s);
    assert p[n] == c && p[n + 1..] == s;
    hide Cans, ReadEscaped, Noise, Escape, IsFrameend;
    EscapedStep(ctl, p, n);
    LastByteDecides(ctl, c);
    ByteMeaning(c);
  }

  predicate MovedUp(c: byte) {
    c & 0x60 == 0x40
  }

  function Down40(c: byte): byte {
    c ^ 0x40
  }

  /** What `zdlread` does with the byte after the CANs. */
  lemma EscapedStep(ctl: bool, s: seq<byte>, n: nat)
    requires n == Cans(s, 3) < |s| && s[n] != 0x18
    ensures var c, rest := s[n], s[n + 1..];
      ReadEscaped(ctl, s) ==
        if IsFrameend(c) then Read(Frameend(c), rest)
        else if c == ZRUB0 then Read(Data(0x7f), rest)
        else if c == ZRUB1 then Read(Data(0xff), rest)
        else if IsFlow(c) || (ctl && IsControl(c)) then ReadEscaped(ctl, rest)
        else if MovedUp(c) then Read(Data(Down40(c)), rest)
        else Read(BadEscape, rest)
  {
    hide Cans, IsFrameend, IsFlow, IsControl;
  }

  lemma LastByteDecides(ctl: bool, c: byte)
    requires c != 0x18
    ensures Noise(ctl, c) ==> !IsFrameend(c) && c != ZRUB0 && c != ZRUB1
    ensures Noise(ctl, c) <==> IsFlow(c) || (ctl && IsControl(c))
  {
  }

  lemma ByteMeaning(c: byte)
    ensures IsFrameend(c) ==> Escape(c, Frameend(c))
    ensures Escape(ZRUB0, Data(0x7f)) && Escape(ZRUB1, Data(0xff))
    ensures MovedUp(c) ==> Escape(c, Data(Down40(c)))
    ensures !IsFrameend(c) && c != ZRUB0 && c != ZRUB1 && !MovedUp(c) ==> Escape(c, BadEscape)
  {
  }

  /** One byte has one meaning. */
  lemma EscapeUnique(c: byte, x: Symbol, y: Symbol)
    requires Escape(c, x) && Escape(c, y)
    ensures x == y
  {
  }

  /** Five CANs in a row mean that the other side gives up, whatever follows. */
  lemma FiveCans(ctl: bool, s: seq<byte>)
    ensures ReadSym(ctl, CanRun(5) + s) == Read(GotCan, s)
  {
    hide ReadEscaped;
    assert CanRun(5) + s == [0x18] + (CanRun(4) + s);
    OneByteRead(ctl, 0x18, CanRun(4) + s);
    FourMore(ctl, s);
  }

  lemma FourMore(ctl: bool, s: seq<byte>)
    ensures ReadEscaped(ctl, CanRun(4) + s) == Read(GotCan, s)
  {
    var p := CanRun(4) + s;
    assert p == [0x18] + ([0x18] + ([0x18] + ([0x18] + s)));
    assert p[1..] == [0x18] + ([0x18] + ([0x18] + s)) && p[1..][1..] == [0x18] + ([0x18] + s) && p[1..][1..][1..] == [0x18] + s;
    assert Cans(p[1..][1..][1..], 0) == 0;
    assert Cans(p[1..][1..], 1) == 1;
    assert Cans(p[1..], 2) == 2;
    assert Cans(p, 3) == 3;
    assert p[3] == 0x18 && p[4..] == s;
  }

  /** Every symbol of the protocol is read from noise, ZDLE, up to three CANs and its code, and what follows is left. */
  lemma SymbolRead(ctl: bool, z: seq<byte>, n: nat, c: byte, sym: Symbol, s: seq<byte>)
    requires AllNoise(ctl, z) && n <= 3 && c != 0x18 && !Noise(ctl, c) && Escape(c, sym)
    ensures ReadSym(ctl, z + [0x18] + CanRun(n) + [c] + s) == Read(sym, s)
  {
    hide ReadSym, ReadEscaped, Noise, AllNoise, Escape;
    var p := CanRun(n) + [c] + s;
    assert z + [0x18] + CanRun(n) + [c] + s == z + ([0x18] + p);
    NoiseSkipped(ctl, z, [0x18] + p);
    OneByteRead(ctl, 0x18, p);
    EscapeRead(ctl, n, c, s);
    EscapeUnique(c, sym, ReadEscaped(ctl, p).sym);
  }

  // ----- Subpackets -----

  /** Of all check bytes only those that are emitted pass. */
  lemma OnlyFcsPasses(wide: bool, msg: seq<byte>, chk: seq<byte>)
    requires |chk| == if wide then 4 else 2
    ensures Passes(FeedAll(Fresh(wide), msg + chk)) <==> chk == Fcs(wide, msg)
  {
    hide Crc16Over, Crc32Over, FeedAll, Fcs16, Fcs32;
    FeedAllIs(Fresh(wide), msg + chk);
    if wide {
      Residue32Only(msg, chk);
    } else {
      Residue16Only(msg, chk);
    }
  }

  lemma NStep(ctl: bool, s: seq<byte>, d: seq<byte>, s1: seq<byte>)
    requires ReadN(ctl, |d|, s) == Bytes(d, s1)
    ensures d == [] ==> s1 == s
    ensures d != [] ==> var r := ReadSym(ctl, s); r.sym == Data(d[0]) && ReadN(ctl, |d| - 1, r.rest) == Bytes(d[1..], s1)
  {
    hide ReadSym;
    if d != [] {
      var b := ReadN(ctl, |d| - 1, ReadSym(ctl, s).rest);
      assert d[1..] == b.msg;
    }
  }

  lemma FeedStep(k: Check, d: seq<byte>)
    ensures FeedAll(k, d) == if d == [] then k else FeedAll(Feed(k, d[0]), d[1..])
  {
    hide Feed;
  }

  lemma DataStep(ctl: bool, length: nat, acc: seq<byte>, k: Check, s: seq<byte>)
    requires |acc| <= length
    ensures var r := ReadSym(ctl, s);
      && (r.sym.Data? ==> ReadData(ctl, length, acc, k, s) == ReadData(ctl, length, acc + [r.sym.b], Feed(k, r.sym.b), r.rest))
      && (!r.sym.Data? ==> ReadData(ctl, length, acc, k, s) == ReadFcs(ctl, acc, k, r))
  {
    hide ReadSym, ReadFcs, Feed;
  }

  lemma TooLong(ctl: bool, length: nat, acc: seq<byte>, k: Check, s: seq<byte>)
    requires |acc| > length
    ensures ReadData(ctl, length, acc, k, s) == DataResult(DataError, s)
  {
  }

  lemma {:induction false} DataFed(ctl: bool, length: nat, acc: seq<byte>, k: Check, s: seq<byte>, d: seq<byte>, s1: seq<byte>)
    requires ReadN(ctl, |d|, s) == Bytes(d, s1) && |acc| + |d| <= length
    ensures ReadData(ctl, length, acc, k, s) == ReadData(ctl, length, acc + d, FeedAll(k, d), s1)
    decreases |d|
  {
    hide ReadSym, ReadN, ReadData, Feed, FeedAll;
    NStep(ctl, s, d, s1);
    FeedStep(k, d);
    if d == [] {
      assert acc + d == acc;
    } else {
      var r := ReadSym(ctl, s);
      DataStep(ctl, length, acc, k, s);
      DataFed(ctl, length, acc + [d[0]], Feed(k, d[0]), r.rest, d[1..], s1);
      assert acc + [d[0]] + d[1..] == acc + d;
    }
  }

  lemma {:induction false} CheckFed(ctl: bool, acc: seq<byte>, fe: byte, k: Check, n: nat, s: seq<byte>, d: seq<byte>, s1: seq<byte>)
    requires ReadN(ctl, |d|, s) == Bytes(d, s1) && |d| <= n
    ensures ReadFcsBytes(ctl, acc, fe, k, n, s) == ReadFcsBytes(ctl, acc, fe, FeedAll(k, d), n - |d|, s1)
    decreases |d|
  {
    hide ReadSym, ReadN, ReadFcs, Feed, FeedAll, Passes;
    NStep(ctl, s, d, s1);
    FeedStep(k, d);
    if d != [] {
      var r := ReadSym(ctl, s);
      CheckFed(ctl, acc, fe, Feed(k, d[0]), n - 1, r.rest, d[1..], s1);
    }
  }

  /** A symbol that is neither data nor an end of frame ends a subpacket without delivering it. */
  function Broken(sym: Symbol): DataCode {
    if sym == GotCan then DataCancelled else if sym == SymTimeout then DataTimeout else DataError
  }

  /** How a subpacket ends that is broken off, or too long for the buffer. */
  lemma PayloadBroken(ctl: bool, length: nat, wide: bool, s: seq<byte>, d: seq<byte>, s1: seq<byte>)
    requires ReadN(ctl, |d|, s) == Bytes(d, s1)
    ensures var r, got := ReadSym(ctl, s1), ReadData(ctl, length, [], Fresh(wide), s);
      && (|d| <= length && (r.sym == GotCan || r.sym == SymTimeout || r.sym == BadEscape) ==>
            got == DataResult(Broken(r.sym), r.rest))
      && (|d| == length + 1 ==> got == DataResult(DataError, s1))
  {
    hide ReadSym, Feed, FeedAll, Fresh, ReadN, ReadData;
    if |d| <= length {
      DataFed(ctl, length, [], Fresh(wide), s, d, s1);
      assert [] + d == d;
      DataStep(ctl, length, d, FeedAll(Fresh(wide), d), s1);
    } else if |d| == length + 1 {
      var p := d[..length];
      TakeFront(ctl, s, d, s1, length);
      var s2 := ReadN(ctl, length, s).rest;
      DataFed(ctl, length, [], Fresh(wide), s, p, s2);
      assert [] + p == p;
      DataStep(ctl, length, p, FeedAll(Fresh(wide), p), s2);
      TooLong(ctl, length, p + [d[length]], Feed(FeedAll(Fresh(wide), p), d[length]), s1);
    }
  }

  /** The front of what was read is read first, and one byte then leads to the rest. */
  lemma {:induction false} TakeFront(ctl: bool, s: seq<byte>, d: seq<byte>, s1: seq<byte>, n: nat)
    requires ReadN(ctl, |d|, s) == Bytes(d, s1) && n + 1 == |d|
    ensures ReadN(ctl, n, s).Bytes? && ReadN(ctl, n, s).msg == d[..n]
    ensures ReadSym(ctl, ReadN(ctl, n, s).rest) == Read(Data(d[n]), s1)
    decreases n
  {
    hide ReadSym;
    var r := ReadSym(ctl, s);
    var b := ReadN(ctl, |d| - 1, r.rest);
    assert d == [r.sym.b] + b.msg;
    if n > 0 {
      TakeFront(ctl, r.rest, b.msg, s1, n - 1);
      assert d[..n] == [r.sym.b] + b.msg[..n - 1];
    }
  }

  /** A subpacket with all its check bytes is delivered if and only if they are those of its data and frame end. */
  lemma DeliveredExactly(ctl: bool, length: nat, wide: bool, s: seq<byte>, d: seq<byte>, s1: seq<byte>, fe: byte, s2: seq<byte>,
                         chk: seq<byte>, rest: seq<byte>)
    requires ReadN(ctl, |d|, s) == Bytes(d, s1) && |d| <= length && ReadSym(ctl, s1) == Read(Frameend(fe), s2)
    requires |chk| == (if wide then 4 else 2) && ReadN(ctl, |chk|, s2) == Bytes(chk, rest)
    ensures ReadData(ctl, length, [], Fresh(wide), s)
         == DataResult(if chk == Fcs(wide, d + [fe]) then Got(fe, d) else DataError, rest)
  {
    hide ReadSym, Feed, FeedAll, Fresh, Passes, ReadN, Fcs;
    AtFrameend(ctl, length, wide, s, d, s1, fe, s2);
    CheckFed(ctl, d, fe, FeedAll(Fresh(wide), d + [fe]), |chk|, s2, chk, rest);
    FeedAllConcat(Fresh(wide), d + [fe], chk);
    OnlyFcsPasses(wide, d + [fe], chk);
  }

  /** At the end of a frame everything but the check bytes has been fed to the check. */
  lemma AtFrameend(ctl: bool, length: nat, wide: bool, s: seq<byte>, d: seq<byte>, s1: seq<byte>, fe: byte, s2: seq<byte>)
    requires ReadN(ctl, |d|, s) == Bytes(d, s1) && |d| <= length && ReadSym(ctl, s1) == Read(Frameend(fe), s2)
    ensures ReadData(ctl, length, [], Fresh(wide), s)
         == ReadFcsBytes(ctl, d, fe, FeedAll(Fresh(wide), d + [fe]), if wide then 4 else 2, s2)
  {
    hide ReadSym, Feed, FeedAll, Fresh, ReadN, ReadFcsBytes, ReadData;
    DataFed(ctl, length, [], Fresh(wide), s, d, s1);
    assert [] + d == d;
    DataStep(ctl, length, d, FeedAll(Fresh(wide), d), s1);
    FeedKeepsWidth(Fresh(wide), d);
    FcsLenIs(wide);
    FeedAllConcat(Fresh(wide), d, [fe]);
    FeedOne(FeedAll(Fresh(wide), d), fe);
  }

  /** Among the check bytes a cancel, a timeout or a bad escape breaks the subpacket off, and another frame end starts its check over. */
  lemma CheckBroken(ctl: bool, length: nat, wide: bool, s: seq<byte>, d: seq<byte>, s1: seq<byte>, fe: byte, s2: seq<byte>,
                    chk: seq<byte>, s3: seq<byte>)
    requires ReadN(ctl, |d|, s) == Bytes(d, s1) && |d| <= length && ReadSym(ctl, s1) == Read(Frameend(fe), s2)
    requires |chk| < (if wide then 4 else 2) && ReadN(ctl, |chk|, s2) == Bytes(chk, s3)
    ensures var r, got := ReadSym(ctl, s3), ReadData(ctl, length, [], Fresh(wide), s);
      && (r.sym == GotCan || r.sym == BadEscape ==> got == DataResult(Broken(r.sym), r.rest))
      && (r.sym == SymTimeout ==> got.code == DataTimeout)
      && (r.sym.Frameend? && |r.rest| < |s3| ==>
            got == ReadFcsBytes(ctl, d, r.sym.fe, FeedAll(Fresh(wide), d + [fe] + chk + [r.sym.fe]), if wide then 4 else 2, r.rest))
  {
    hide ReadSym, Feed, FeedAll, Fresh, Passes, ReadN;
    AtFrameend(ctl, length, wide, s, d, s1, fe, s2);
    var k := FeedAll(Fresh(wide), d + [fe]);
    CheckFed(ctl, d, fe, k, if wide then 4 else 2, s2, chk, s3);
    FeedAllConcat(Fresh(wide), d + [fe], chk);
    var r := ReadSym(ctl, s3);
    ZReceiver.SymbolConsumes(ctl, s3);
    if r.sym.Frameend? {
      FeedKeepsWidth(Fresh(wide), d + [fe] + chk);
      FcsLenIs(wide);
      FeedAllConcat(Fresh(wide), d + [fe] + chk, [r.sym.fe]);
      FeedOne(FeedAll(Fresh(wide), d + [fe] + chk), r.sym.fe);
    }
  }

  // ----- Headers -----

  /** A binary header is accepted if and only if its check bytes are those of its type and position. */
  lemma BinHdrAcceptedExactly(ctl: bool, wide: bool, s: seq<byte>, t: byte, hdr: seq<byte>, chk: seq<byte>, rest: seq<byte>)
    requires |hdr| == 4 && |chk| == if wide then 4 else 2
    requires ReadN(ctl, 5 + |chk|, s) == Bytes([t] + hdr + chk, rest)
    ensures var frame := if wide then ZBIN32 else ZBIN;
      ReadBinHdr(ctl, wide, s) == if chk == Fcs(wide, [t] + hdr) then Header(Type(t), frame, hdr, rest)
                                  else Header(MyError, frame, [], rest)
  {
    hide ReadN, FeedAll, Fresh, Passes, Fcs;
    OnlyFcsPasses(wide, [t] + hdr, chk);
    assert ([t] + hdr + chk)[1..5] == hdr;
  }

  /** A symbol that is no data breaks a binary header off: five CANs cancel, and a frame end is a stray one. */
  lemma {:induction false} HeaderBroken(ctl: bool, n: nat, s: seq<byte>, d: seq<byte>, s1: seq<byte>)
    requires ReadN(ctl, |d|, s) == Bytes(d, s1) && |d| < n && !ReadSym(ctl, s1).sym.Data?
    ensures ReadN(ctl, n, s) == NotData(ReadSym(ctl, s1))
    decreases n
  {
    hide ReadSym;
    if d != [] {
      var r := ReadSym(ctl, s);
      var b := ReadN(ctl, |d| - 1, r.rest);
      assert d[1..] == b.msg;
      HeaderBroken(ctl, n - 1, r.rest, d[1..], s1);
    }
  }

  lemma BinHdrBroken(ctl: bool, wide: bool, s: seq<byte>, d: seq<byte>, s1: seq<byte>)
    requires ReadN(ctl, |d|, s) == Bytes(d, s1) && |d| < (if wide then 9 else 7) && !ReadSym(ctl, s1).sym.Data?
    ensures var h, r := ReadBinHdr(ctl, wide, s), ReadSym(ctl, s1);
      && h.hdr == [] && h.rest == r.rest
      && (r.sym.Frameend? ==> h.code == StrayEnd(r.sym.fe)) && (r.sym == GotCan ==> h.code == Type(16))
      && (r.sym == BadEscape ==> h.code == MyError) && (r.sym == SymTimeout ==> h.code == TimedOut)
  {
    hide ReadN, ReadSym, Passes, FeedAll;
    HeaderBroken(ctl, if wide then 9 else 7, s, d, s1);
  }

  /** What `noxrd7` makes of one byte: parity goes, flow control and, if need be, other control bytes are dropped. */
  lemma OneByteNox(ctl: bool, b: byte, s: seq<byte>)
    ensures var c := b & 0x7f;
      ReadNox(ctl, [b] + s) ==
        if c in {0x11, 0x13} || (ctl && c < 0x20 && c !in {0x0a, 0x0d, 0x18}) then ReadNox(ctl, s) else Nox(c, s)
  {
    assert ([b] + s)[1..] == s;
    SevenBits(b);
  }

  lemma SevenBits(b: byte)
    ensures var c := b & 0x7f; c < 0x20 <==> c & 0x60 == 0
  {
  }

  /** The digits: '0' to '9' and 'a' to 'f', but the ten characters before 'a' pass for '0' to '9' as well. */
  lemma HexValueIs(c: byte)
    ensures HexValue(c) == if 0x30 <= c <= 0x39 then c - 0x30 else if 0x57 <= c <= 0x66 then c - 0x57 else 0xff
  {
  }

  /** Two digits make a byte, and anything else is refused where it stands. */
  lemma HexByteRead(ctl: bool, s: seq<byte>, c: byte, s1: seq<byte>)
    requires ReadNox(ctl, s) == Nox(c, s1)
    ensures HexValue(c) > 15 ==> ReadHex(ctl, s) == HexBad(s1)
    ensures HexValue(c) <= 15 && ReadNox(ctl, s1).Nox? ==>
      var d, s2 := ReadNox(ctl, s1).c, ReadNox(ctl, s1).rest;
      ReadHex(ctl, s) == if HexValue(d) > 15 then HexBad(s2) else HexByte(16 * HexValue(c) + HexValue(d), s2)
    ensures HexValue(c) <= 15 && ReadNox(ctl, s1) == NoxTimeout ==> ReadHex(ctl, s) == HexTimeout
  {
    hide ReadNox;
    HexValueIs(c);
    if ReadNox(ctl, s1).Nox? {
      HexValueIs(ReadNox(ctl, s1).c);
    }
    hide HexValue;
  }

  /** A hex header is accepted if and only if its check bytes are those of its type and position. */
  lemma HexHdrAcceptedExactly(ctl: bool, s: seq<byte>, t: byte, hdr: seq<byte>, chk: seq<byte>, rest: seq<byte>)
    requires |hdr| == 4 && |chk| == 2 && ReadHexN(ctl, 7, s) == HexBytes([t] + hdr + chk, rest)
    ensures ReadHexHdr(ctl, s) == if chk == Fcs16([t] + hdr) then Header(Type(t), ZHEX, hdr, SkipLineEnd(rest))
                                  else Header(MyError, ZHEX, [], rest)
  {
    hide ReadHexN, FeedAll, Fresh, Passes, Fcs16, SkipLineEnd;
    OnlyFcsPasses(false, [t] + hdr, chk);
    assert ([t] + hdr + chk)[1..5] == hdr;
  }

  /** Behind a hex header one byte goes, and one more if it was a carriage return. */
  lemma LineEndSkipped(c: byte, d: byte, s: seq<byte>)
    ensures c & 0x7f == 0x0d ==> SkipLineEnd([c, d] + s) == s && SkipLineEnd([c]) == []
    ensures c & 0x7f != 0x0d ==> SkipLineEnd([c, d] + s) == [d] + s
  {
    assert ([c, d] + s)[2..] == s && ([c, d] + s)[1..] == [d] + s;
  }

  // ----- The hunt for a header -----

  /** One byte of garbage is dropped if the budget allows. */
  lemma AfterGarbage(ctl: bool, budget: nat, s: seq<byte>)
    ensures budget == 1 ==> Garbage(ctl, budget, s) == Header(MyError, 0, [], s)
    ensures budget > 1 ==> Garbage(ctl, budget, s) == GetHdr(ctl, budget - 1, s)
    ensures budget == 0 ==> Garbage(ctl, budget, s) == GetHdr(ctl, 0x1_0000_0000 - 1, s)
  {
    hide Hunt;
  }

  /** Five CANs during the hunt are a cancel. */
  lemma HuntCancelled(ctl: bool, budget: nat, s: seq<byte>)
    ensures GetHdr(ctl, budget, CanRun(5) + s) == Header(Type(16), 0, [], s)
  {
    var p := CanRun(5) + s;
    TwoCans(ctl, budget, 5, CanRun(3) + s);
    assert p == [0x18, 0x18] + (CanRun(3) + s);
    TwoCans(ctl, budget, 3, [0x18] + s);
    assert CanRun(3) + s == [0x18, 0x18] + ([0x18] + s);
    assert ([0x18] + s)[1..] == s;
  }

  lemma TwoCans(ctl: bool, budget: nat, cans: int, s: seq<byte>)
    requires cans > 2
    ensures Hunt(ctl, budget, cans, [0x18, 0x18] + s) == Hunt(ctl, budget, cans - 2, s)
  {
    assert ([0x18, 0x18] + s)[1..] == [0x18] + s && ([0x18] + s)[1..] == s;
  }

  lemma OneCan(ctl: bool, budget: nat, cans: int, c: byte, s: seq<byte>)
    requires cans > 1 && c != 0x18
    ensures Hunt(ctl, budget, cans, [0x18, c] + s) == if c == 0x6b then Header(MyError, 0, [], s) else Garbage(ctl, budget, s)
    ensures Hunt(ctl, budget, cans, [0x18]) == Header(TimedOut, 0, [], [])
  {
    assert ([0x18, c] + s)[1..] == [c] + s && ([c] + s)[1..] == s;
    assert [0x18][1..] == [];
  }

  lemma NoCan(ctl: bool, budget: nat, cans: int, c: byte, s: seq<byte>)
    requires c != 0x18
    ensures Hunt(ctl, budget, cans, [c] + s) == GetHdr(ctl, budget, [c] + s)
  {
  }

  /**
    Fewer CANs than five do no harm: after an even number the hunt goes on with the next byte, after
    an odd one that byte goes too, and is an error at once if it is the end of a ZCRCW subpacket.
   */
  lemma FewCans(ctl: bool, budget: nat, n: nat, c: byte, s: seq<byte>)
    requires n <= 4 && c != 0x18
    ensures GetHdr(ctl, budget, CanRun(n) + [c] + s) ==
      if n % 2 == 0 then GetHdr(ctl, budget, [c] + s)
      else if c == 0x6b then Header(MyError, 0, [], s) else Garbage(ctl, budget, s)
  {
    hide Hunt, Garbage;
    var p := CanRun(n) + [c] + s;
    if n == 0 {
      assert p == [c] + s;
    } else if n == 1 {
      assert p == [0x18, c] + s;
      OneCan(ctl, budget, 5, c, s);
    } else if n == 2 {
      assert p == [0x18, 0x18] + ([c] + s);
      TwoCans(ctl, budget, 5, [c] + s);
      NoCan(ctl, budget, 3, c, s);
    } else if n == 3 {
      assert p == [0x18, 0x18] + ([0x18, c] + s);
      TwoCans(ctl, budget, 5, [0x18, c] + s);
      OneCan(ctl, budget, 3, c, s);
    } else {
      assert p == [0x18, 0x18] + ([0x18, 0x18] + ([c] + s));
      TwoCans(ctl, budget, 5, [0x18, 0x18] + ([c] + s));
      TwoCans(ctl, budget, 3, [c] + s);
      NoCan(ctl, budget, 1, c, s);
    }
  }

  /** After a ZPAD only ZPADs and a ZDLE with one of the three kinds of header go on; the rest is garbage. */
  lemma PadDecides(ctl: bool, budget: nat, pad: byte, s: seq<byte>, c: byte, s1: seq<byte>)
    requires pad & 0x7f == 0x2a && ReadNox(ctl, s) == Nox(c, s1)
    ensures c == 0x2a ==> GetHdr(ctl, budget, [pad] + s) == GetHdr(ctl, budget, [pad] + s1)
    ensures c != 0x2a && c != 0x18 ==> GetHdr(ctl, budget, [pad] + s) == Garbage(ctl, budget, s1)
    ensures c == 0x18 && ReadNox(ctl, s1).Nox? ==>
      var d, s2 := ReadNox(ctl, s1).c, ReadNox(ctl, s1).rest;
      GetHdr(ctl, budget, [pad] + s) ==
        if d == 0x41 then ReadBinHdr(ctl, false, s2) else if d == 0x43 then ReadBinHdr(ctl, true, s2)
        else if d == 0x42 then ReadHexHdr(ctl, s2)
        else if d == 0x18 then GetHdr(ctl, budget, [0x18] + s2)
        else Garbage(ctl, budget, s2)
    ensures c == 0x18 && ReadNox(ctl, s1) == NoxTimeout ==> GetHdr(ctl, budget, [pad] + s) == Header(TimedOut, 0, [], [])
  {
    hide Hunt, Splat, FrameKind, ReadNox, ReadBinHdr, ReadHexHdr, Garbage;
    PadFound(ctl, budget, pad, s);
    PadFound(ctl, budget, pad, s1);
    SplatIs(ctl, budget, s);
    FrameKindIs(ctl, budget, s1);
  }

  /** Nothing after a ZPAD is a timeout. */
  lemma PadThenNothing(ctl: bool, budget: nat, pad: byte, s: seq<byte>)
    requires pad & 0x7f == 0x2a && ReadNox(ctl, s) == NoxTimeout
    ensures GetHdr(ctl, budget, [pad] + s) == Header(TimedOut, 0, [], [])
  {
    hide ReadNox, Hunt;
    PadFound(ctl, budget, pad, s);
  }

  lemma PadFound(ctl: bool, budget: nat, pad: byte, s: seq<byte>)
    requires pad & 0x7f == 0x2a
    ensures GetHdr(ctl, budget, [pad] + s) == Splat(ctl, budget, s)
  {
    hide Splat;
    PadIs(pad);
    assert ([pad] + s)[1..] == s;
  }

  lemma SplatIs(ctl: bool, budget: nat, s: seq<byte>)
    requires ReadNox(ctl, s).Nox?
    ensures var c, rest := ReadNox(ctl, s).c, ReadNox(ctl, s).rest;
      Splat(ctl, budget, s) == if c == 0x2a then Splat(ctl, budget, rest)
                               else if c == 0x18 then FrameKind(ctl, budget, rest) else Garbage(ctl, budget, rest)
  {
    hide ReadNox, FrameKind, Garbage;
  }

  lemma FrameKindIs(ctl: bool, budget: nat, s: seq<byte>)
    ensures ReadNox(ctl, s) == NoxTimeout ==> FrameKind(ctl, budget, s) == Header(TimedOut, 0, [], [])
    ensures ReadNox(ctl, s).Nox? ==>
      var d, s2 := ReadNox(ctl, s).c, ReadNox(ctl, s).rest;
      FrameKind(ctl, budget, s) ==
        if d == 0x41 then ReadBinHdr(ctl, false, s2) else if d == 0x43 then ReadBinHdr(ctl, true, s2)
        else if d == 0x42 then ReadHexHdr(ctl, s2)
        else if d == 0x18 then GetHdr(ctl, budget, [0x18] + s2)
        else Garbage(ctl, budget, s2)
  {
    hide ReadNox, ReadBinHdr, ReadHexHdr, Garbage, GotCanByte;
    if ReadNox(ctl, s).Nox? {
      var s2 := ReadNox(ctl, s).rest;
      assert ([0x18] + s2)[1..] == s2;
    }
  }

  lemma PadIs(pad: byte)
    requires pad & 0x7f == 0x2a
    ensures (pad == ZPAD || pad == ZPAD | 0x80) && pad != ZDLE
  {
  }
}
