/** The sending half of the ZMODEM link layer: ZDLE escaping, headers and data subpackets. */
module ZEscape {
  import opened Basics
  import opened Crc

  const ZPAD: byte := 0x2a
  const ZDLE: byte := 0x18
  const ZBIN: byte := 0x41
  const ZHEX: byte := 0x42
  const ZBIN32: byte := 0x43
  const XON: byte := 0x11
  const XOFF: byte := 0x13
  const ZCRCE: byte := 0x68
  const ZCRCG: byte := 0x69
  const ZCRCQ: byte := 0x6a
  const ZCRCW: byte := 0x6b
  const ZRUB0: byte := 0x6c
  const ZRUB1: byte := 0x6d

  const ZACK: byte := 3
  const ZFIN: byte := 8
  const ZDATA: byte := 10
  const ZCAN: byte := 16

  /** What decides how a byte is escaped: `Zctlesc` and `turbo_escape`. */
  datatype Escaping = Escaping(ctl: bool, turbo: bool)

  datatype Class = Plain | Escaped | AfterAt

  predicate IsControl(b: byte) { b & 0x60 == 0 }

  predicate IsFlow(b: byte) { b == XON || b == XOFF || b == XON | 0x80 || b == XOFF | 0x80 }

  predicate IsFrameend(b: byte) { b == ZCRCE || b == ZCRCG || b == ZCRCQ || b == ZCRCW }

  /** The entry `zsendline_init` stores for a byte. */
  function ClassOf(k: Escaping, b: byte): Class {
    if !IsControl(b) then Plain
    else if b == ZDLE || IsFlow(b) then Escaped
    else if b == 0x10 || b == 0x90 then (if k.turbo then Plain else Escaped)
    else if b == 0x0d || b == 0x8d then
      (if k.ctl then Escaped else if !k.turbo then AfterAt else Plain)
    else if k.ctl then Escaped else Plain
  }

  predicate Escapes(k: Escaping, last: byte, b: byte) {
    match ClassOf(k, b)
    case Plain => false
    case Escaped => true
    case AfterAt => last & 0x7f == 0x40
  }

  // ----- What is emitted, as functions of the configuration and the last byte sent -----

  function EncByte(k: Escaping, last: byte, b: byte): seq<byte> {
    if Escapes(k, last, b) then [ZDLE, b ^ 0x40] else [b]
  }

  function LastByte(k: Escaping, last: byte, b: byte): byte {
    if Escapes(k, last, b) then b ^ 0x40 else b
  }

  function Enc(k: Escaping, last: byte, msg: seq<byte>): seq<byte>
    decreases msg
  {
    if msg == [] then []
    else EncByte(k, last, msg[0]) + Enc(k, LastByte(k, last, msg[0]), msg[1..])
  }

  function Last(k: Escaping, last: byte, msg: seq<byte>): byte
    decreases msg
  {
    if msg == [] then last else Last(k, LastByte(k, last, msg[0]), msg[1..])
  }

  function Fcs(wide: bool, msg: seq<byte>): seq<byte> {
    if wide then Fcs32(msg) else Fcs16(msg)
  }

  function Zeros(n: nat): seq<byte> {
    seq(n, _ => 0)
  }

  /** Only a ZDATA header is preceded by `Znulls` zero bytes. */
  function Nulls(t: byte, n: nat): seq<byte> {
    if t == ZDATA then Zeros(n) else []
  }

  function BinHdr(k: Escaping, wide: bool, last: byte, t: byte, hdr: seq<byte>): seq<byte> {
    var body := [t] + hdr;
    [ZPAD, ZDLE, if wide then ZBIN32 else ZBIN] + Enc(k, last, body + Fcs(wide, body))
  }

  function HexDigit(n: byte): byte {
    if n < 10 then 0x30 + n else 0x61 + (n - 10)
  }

  function Hex(msg: seq<byte>): seq<byte> {
    if msg == [] then [] else [HexDigit(msg[0] >> 4), HexDigit(msg[0] & 0x0f)] + Hex(msg[1..])
  }

  /** The XON that uncorks the remote side is left out after ZFIN and ZACK. */
  function HexTail(t: byte): seq<byte> {
    if t != ZFIN && t != ZACK then [XON] else []
  }

  function HexHdr(t: byte, hdr: seq<byte>): seq<byte> {
    var body := [t & 0x7f] + hdr;
    [ZPAD, ZPAD, ZDLE, ZHEX] + Hex(body + Fcs16(body)) + [0x0d, 0x8a] + HexTail(t)
  }

  function DataTail(fe: byte): seq<byte> {
    if fe == ZCRCW then [XON] else []
  }

  function Packet(k: Escaping, wide: bool, last: byte, buf: seq<byte>, fe: byte): seq<byte> {
    Enc(k, last, buf) + [ZDLE, fe] + Enc(k, Last(k, last, buf), Fcs(wide, buf + [fe])) + DataTail(fe)
  }

  function LastOfPacket(k: Escaping, wide: bool, last: byte, buf: seq<byte>, fe: byte): byte {
    Last(k, Last(k, last, buf), Fcs(wide, buf + [fe]))
  }

  lemma Joined(start: seq<byte>, kind: byte, rest: seq<byte>)
    ensures start + [ZPAD] + [ZDLE] + [kind] + rest == start + ([ZPAD, ZDLE, kind] + rest)
  {
  }

  lemma PacketJoins(base: seq<byte>, a: seq<byte>, b: seq<byte>, c: seq<byte>, d: seq<byte>)
    ensures base + a + b + c + d == base + (a + b + c + d)
  {
  }

  lemma {:induction false} HexConcat(p: seq<byte>, s: seq<byte>)
    ensures Hex(p + s) == Hex(p) + Hex(s)
  {
    hide HexDigit;
    if p == [] {
      assert p + s == s;
    } else {
      HexConcat(p[1..], s);
      assert (p + s)[1..] == p[1..] + s && (p + s)[0] == p[0];
      Assoc([HexDigit(p[0] >> 4), HexDigit(p[0] & 0x0f)], Hex(p[1..]), Hex(s));
    }
  }

  function Down(c: bv32, i: nat): bv32 {
    if i == 0 then c else Shr8(Down(c, i - 1))
  }

  lemma LowFirstAt(c: bv32, i: nat)
    requires i < 4
    ensures LowFirst(c)[..i] + [Low8(Down(c, i))] == LowFirst(c)[..i + 1]
  {
    hide Low8, Shr8;
    assert Down(c, 0) == c && Down(c, 1) == Shr8(c);
    assert Down(c, 2) == Shr8(Shr8(c));
    assert Down(c, 3) == Shr8(Shr8(Shr8(c)));
  }

  lemma {:induction false} EncConcat(k: Escaping, last: byte, p: seq<byte>, s: seq<byte>)
    ensures Enc(k, last, p + s) == Enc(k, last, p) + Enc(k, Last(k, last, p), s)
    ensures Last(k, last, p + s) == Last(k, Last(k, last, p), s)
    decreases p
  {
    hide EncByte, LastByte;
    if p == [] {
      assert p + s == s;
    } else {
      var next := LastByte(k, last, p[0]);
      EncConcat(k, next, p[1..], s);
      assert (p + s)[1..] == p[1..] + s && (p + s)[0] == p[0];
      Assoc(EncByte(k, last, p[0]), Enc(k, next, p[1..]), Enc(k, Last(k, last, p), s));
    }
  }

  lemma EncStep(k: Escaping, last: byte, s: seq<byte>, p: nat, t: nat)
    requires p <= t <= |s|
    ensures Enc(k, last, s[..t]) == Enc(k, last, s[..p]) + Enc(k, Last(k, last, s[..p]), s[p..t])
    ensures Last(k, last, s[..t]) == Last(k, Last(k, last, s[..p]), s[p..t])
  {
    hide Enc, Last;
    EncConcat(k, last, s[..p], s[p..t]);
    assert s[..p] + s[p..t] == s[..t];
  }

  lemma EncSnoc(k: Escaping, last: byte, msg: seq<byte>, b: byte)
    ensures Enc(k, last, msg + [b]) == Enc(k, last, msg) + EncByte(k, Last(k, last, msg), b)
    ensures Last(k, last, msg + [b]) == LastByte(k, Last(k, last, msg), b)
  {
    hide Enc, Last, EncByte, LastByte;
    EncConcat(k, last, msg, [b]);
    EncOne(k, Last(k, last, msg), b);
  }

  lemma EncEmpty(k: Escaping, last: byte)
    ensures Enc(k, last, []) == [] && Last(k, last, []) == last
  {
  }

  lemma EncOne(k: Escaping, last: byte, b: byte)
    ensures Enc(k, last, [b]) == EncByte(k, last, b)
    ensures Last(k, last, [b]) == LastByte(k, last, b)
  {
    hide EncByte, LastByte;
    assert EncByte(k, last, b) + [] == EncByte(k, last, b);
  }

  /** A run of bytes that need no escaping goes out as it is. */
  lemma {:induction false} EncPlainRun(k: Escaping, last: byte, p: seq<byte>)
    requires forall i :: 0 <= i < |p| ==> ClassOf(k, p[i]) == Plain
    ensures Enc(k, last, p) == p
    ensures Last(k, last, p) == if p == [] then last else p[|p| - 1]
    decreases p
  {
    hide ClassOf;
    if p != [] {
      EncPlainRun(k, p[0], p[1..]);
      assert p == [p[0]] + p[1..];
    }
  }

  // ----- What the line carries -----

  predicate IsDle(b: byte) { b == 0x10 || b == 0x90 }

  predicate IsCr(b: byte) { b == 0x0d || b == 0x8d }

  /**
    What must not go over the line right after `prev`: flow control; a data link escape, unless
    turbo; a carriage return after an '@', unless turbo; and, when control bytes are to be kept
    off the line, any of them but ZDLE and what turbo leaves alone.
   */
  predicate Barred(k: Escaping, prev: byte, b: byte) {
    || IsFlow(b)
    || (IsDle(b) && !k.turbo)
    || (IsCr(b) && !k.turbo && prev & 0x7f == 0x40)
    || (k.ctl && IsControl(b) && b != ZDLE && !(IsDle(b) && k.turbo))
  }

  /** The byte that goes out before `s[i]` when `s` goes out after `prev`. */
  function Before(prev: byte, s: seq<byte>, i: nat): byte
    requires i < |s|
  {
    if i == 0 then prev else s[i - 1]
  }

  /** Nothing barred is in `s` when it goes out after `prev`. */
  ghost predicate Clean(k: Escaping, prev: byte, s: seq<byte>) {
    forall i :: 0 <= i < |s| ==> !Barred(k, Before(prev, s, i), s[i])
  }

  /** A byte is escaped exactly when it is ZDLE or barred, and what then goes out is not barred. */
  lemma EscapedExactly(k: Escaping, last: byte, b: byte)
    ensures EncByte(k, last, b) == [b] <==> b != ZDLE && !Barred(k, last, b)
    ensures Clean(k, last, EncByte(k, last, b))
    ensures EncByte(k, last, b) != [b] ==> |EncByte(k, last, b)| == 2
    ensures EncByte(k, last, b) != [] && EncByte(k, last, b)[|EncByte(k, last, b)| - 1] == LastByte(k, last, b)
  {
    Flipped(k, b);
    Unescaped(k, last, b);
  }

  lemma Flipped(k: Escaping, b: byte)
    ensures IsControl(b) ==> !IsControl(b ^ 0x40) && b ^ 0x40 != ZDLE
    ensures !IsControl(ZDLE ^ 0x40) && !Barred(k, b, ZDLE)
    ensures forall prev :: !IsControl(b) ==> !Barred(k, prev, b)
  {
  }

  lemma Unescaped(k: Escaping, last: byte, b: byte)
    ensures Escapes(k, last, b) <==> b == ZDLE || Barred(k, last, b)
    ensures Escapes(k, last, b) ==> IsControl(b)
  {
  }

  lemma CleanConcat(k: Escaping, prev: byte, s: seq<byte>, t: seq<byte>)
    requires s != [] && Clean(k, prev, s) && Clean(k, s[|s| - 1], t)
    ensures Clean(k, prev, s + t)
  {
    hide Barred;
    forall i | 0 <= i < |s + t| ensures !Barred(k, Before(prev, s + t, i), (s + t)[i]) {
      if i < |s| {
        assert Before(prev, s + t, i) == Before(prev, s, i);
      } else {
        assert Before(prev, s + t, i) == Before(s[|s| - 1], t, i - |s|);
      }
    }
  }

  /** No message, whatever it holds, puts a barred byte on the line; and the last byte sent is what `lastsent` says. */
  lemma {:induction false} LineClean(k: Escaping, last: byte, msg: seq<byte>)
    ensures Clean(k, last, Enc(k, last, msg))
    ensures Last(k, last, msg) == if msg == [] then last else Enc(k, last, msg)[|Enc(k, last, msg)| - 1]
    ensures |Enc(k, last, msg)| >= |msg|
    decreases msg
  {
    hide Barred, EncByte, LastByte, Clean;
    if msg != [] {
      EscapedExactly(k, last, msg[0]);
      LineClean(k, LastByte(k, last, msg[0]), msg[1..]);
      CleanConcat(k, last, EncByte(k, last, msg[0]), Enc(k, LastByte(k, last, msg[0]), msg[1..]));
    } else {
      NothingClean(k, last);
    }
  }

  lemma NothingClean(k: Escaping, prev: byte)
    ensures Clean(k, prev, [])
  {
  }

  /** A message goes out as it is exactly when it is clean as it is and free of ZDLE: nothing is escaped without need. */
  lemma {:induction false} SentAsIsExactly(k: Escaping, last: byte, msg: seq<byte>)
    ensures Enc(k, last, msg) == msg <==> ZDLE !in msg && Clean(k, last, msg)
    decreases msg
  {
    hide Barred, EncByte, LastByte;
    if msg != [] {
      var b := msg[0];
      EscapedExactly(k, last, b);
      LineClean(k, LastByte(k, last, b), msg[1..]);
      assert msg == [b] + msg[1..];
      if EncByte(k, last, b) == [b] {
        SentAsIsExactly(k, b, msg[1..]);
        CleanRest(k, last, msg);
        assert Enc(k, last, msg)[1..] == Enc(k, b, msg[1..]);
      } else if Clean(k, last, msg) {
        assert !Barred(k, Before(last, msg, 0), msg[0]);
      }
    }
  }

  lemma CleanRest(k: Escaping, prev: byte, s: seq<byte>)
    requires s != [] && !Barred(k, prev, s[0])
    ensures Clean(k, prev, s) <==> Clean(k, s[0], s[1..])
  {
    hide Barred;
    assert s == s[..1] + s[1..];
    if Clean(k, s[0], s[1..]) {
      CleanConcat(k, prev, s[..1], s[1..]);
    } else {
      var i :| 0 <= i < |s| - 1 && Barred(k, Before(s[0], s[1..], i), s[1..][i]);
      assert Before(s[0], s[1..], i) == Before(prev, s, i + 1) && s[1..][i] == s[i + 1];
    }
  }

  /** What comes before a byte matters only if it is an '@'. */
  lemma CleanAfter(k: Escaping, prev: byte, other: byte, s: seq<byte>)
    requires Clean(k, prev, s) && other & 0x7f != 0x40
    ensures Clean(k, other, s)
  {
    if s != [] {
      assert !Barred(k, Before(prev, s, 0), s[0]);
      forall i | 0 <= i < |s| ensures !Barred(k, Before(other, s, i), s[i]) {
        assert i > 0 ==> Before(other, s, i) == Before(prev, s, i);
      }
    }
  }

  lemma ZdleClean(k: Escaping, prev: byte, c: byte)
    requires IsFrameend(c) || c == ZBIN || c == ZBIN32
    ensures Clean(k, prev, [ZDLE, c]) && Clean(k, prev, [ZPAD, ZDLE, c]) && c & 0x7f != 0x40
  {
  }

  /** Whole subpackets and binary headers keep the line clean, apart from the XON after ZCRCW. */
  lemma FramesClean(k: Escaping, wide: bool, last: byte, prev: byte, t: byte, hdr: seq<byte>, buf: seq<byte>, fe: byte)
    requires IsFrameend(fe)
    ensures Clean(k, prev, BinHdr(k, wide, last, t, hdr))
    ensures var p := Packet(k, wide, last, buf, fe); Clean(k, last, p[..|p| - |DataTail(fe)|])
  {
    hide Barred, Clean, Enc, Last, Fcs, DataTail;
    var kind := if wide then ZBIN32 else ZBIN;
    var body := [t] + hdr;
    LineClean(k, last, body + Fcs(wide, body));
    ZdleClean(k, prev, kind);
    CleanAfter(k, last, kind, Enc(k, last, body + Fcs(wide, body)));
    CleanConcat(k, prev, [ZPAD, ZDLE, kind], Enc(k, last, body + Fcs(wide, body)));

    var data := Enc(k, last, buf);
    var l := Last(k, last, buf);
    var check := Enc(k, l, Fcs(wide, buf + [fe]));
    LineClean(k, last, buf);
    LineClean(k, l, Fcs(wide, buf + [fe]));
    ZdleClean(k, l, fe);
    CleanAfter(k, l, fe, check);
    CleanConcat(k, l, [ZDLE, fe], check);
    var front := [ZDLE, fe] + check;
    assert data + [ZDLE, fe] + check == data + front;
    if buf == [] {
      EncEmpty(k, last);
      assert data + front == front;
    } else {
      CleanConcat(k, last, data, front);
    }
    var p := Packet(k, wide, last, buf, fe);
    assert p[..|p| - |DataTail(fe)|] == data + front;
  }

  /**
    Around the frames: only a ZDATA header is preceded by zero bytes, the XON that uncorks the other
    side follows every hex header but ZACK and ZFIN and every subpacket that asks for an answer.
   */
  lemma AroundFrames(t: byte, n: nat, fe: byte)
    ensures |Nulls(t, n)| == (if t == 10 then n else 0) && forall b :: b in Nulls(t, n) ==> b == 0
    ensures HexTail(t) == (if t in {3, 8} then [] else [0x11])
    ensures DataTail(fe) == (if fe == 0x6b then [0x11] else [])
  {
  }

  /** A hex header holds nothing but lower-case hex digits between its start and its line end. */
  lemma {:induction false} HexIsPrintable(msg: seq<byte>)
    ensures |Hex(msg)| == 2 * |msg|
    ensures forall b :: b in Hex(msg) ==> 0x30 <= b <= 0x39 || 0x61 <= b <= 0x66
  {
    hide HexDigit;
    if msg != [] {
      HexIsPrintable(msg[1..]);
      DigitIsPrintable(msg[0] >> 4);
      DigitIsPrintable(msg[0] & 0x0f);
      assert msg[0] >> 4 < 16 && msg[0] & 0x0f < 16;
    }
  }

  lemma DigitIsPrintable(n: byte)
    ensures n < 16 ==> var d := HexDigit(n); 0x30 <= d <= 0x39 || 0x61 <= d <= 0x66
  {
  }

  // ----- The sender's globals and functions -----

  class Transmitter {
    var ctl: bool            // Zctlesc
    var turbo: bool          // turbo_escape
    var txfcs32: bool        // Txfcs32
    var crc32t: bool         // Crc32t
    var znulls: nat          // Znulls
    var lastsent: byte
    var tab: array<Class>    // zsendline_tab
    var out: seq<byte>       // everything written to stdout

    ghost function Config(): Escaping
      reads this`ctl, this`turbo
    {
      Escaping(ctl, turbo)
    }

    /** The table was initialised since the flags last changed. */
    ghost predicate Valid()
      reads this`ctl, this`turbo, this`tab, tab
    {
      tab.Length == 256 && forall b: byte :: tab[b as int] == ClassOf(Config(), b)
    }

    /** One iteration of `zsendline_init`: the class of byte `b` under the current flags. */
    method InitClass(b: byte) returns (cls: Class)
      ensures cls == ClassOf(Config(), b)
    {
      if b & 0x60 != 0 {
        cls := Plain;
      } else if b == ZDLE || b == XOFF || b == XON || b == XOFF | 0x80 || b == XON | 0x80 {
        cls := Escaped;
      } else if b == 0x10 || b == 0x90 {
        cls := if turbo then Plain else Escaped;
      } else if b == 0x0d || b == 0x8d {
        cls := if ctl then Escaped else if !turbo then AfterAt else Plain;
      } else {
        cls := if ctl then Escaped else Plain;
      }
    }

    method ZsendlineInit()
      requires tab.Length == 256
      modifies tab
      ensures Valid()
    {
      hide ClassOf;
      var i := 0;
      while i < 256
        invariant 0 <= i <= 256
        invariant forall b: byte :: b as int < i ==> tab[b as int] == ClassOf(Config(), b)
      {
        var cls := InitClass(i as bv8);
        tab[i] := cls;
        i := i + 1;
      }
    }

    /** The three-way switch at the heart of `zsendline` and `zsendline_s`. */
    method SendByClass(cls: Class, c: byte)
      requires cls == ClassOf(Config(), c)
      modifies this`lastsent, this`out
      ensures out == old(out) + EncByte(Config(), old(lastsent), c)
      ensures lastsent == LastByte(Config(), old(lastsent), c)
    {
      match cls
      case Plain =>
        lastsent := c;
        out := out + [c];
      case Escaped =>
        lastsent := c ^ 0x40;
        out := out + [ZDLE, c ^ 0x40];
      case AfterAt =>
        if lastsent & 0x7f != 0x40 {
          lastsent := c;
          out := out + [c];
        } else {
          lastsent := c ^ 0x40;
          out := out + [ZDLE, c ^ 0x40];
        }
    }

    method Zsendline(c: byte)
      requires Valid()
      modifies this`lastsent, this`out
      ensures Valid()
      ensures out == old(out) + EncByte(Config(), old(lastsent), c)
      ensures lastsent == LastByte(Config(), old(lastsent), c)
    {
      SendByClass(tab[c as int], c);
    }

    /** Byte by byte, the reference for the fast encoder. */
    method ZsendlineEach(s: seq<byte>)
      requires Valid()
      modifies this`lastsent, this`out
      ensures Valid()
      ensures out == old(out) + Enc(Config(), old(lastsent), s)
      ensures lastsent == Last(Config(), old(lastsent), s)
    {
      hide ClassOf, EncByte, LastByte, Enc, Last;
      var i := 0;
      EncEmpty(Config(), lastsent);
      assert s[..0] == [];
      while i < |s|
        invariant 0 <= i <= |s|
        invariant out == old(out) + Enc(Config(), old(lastsent), s[..i])
        invariant lastsent == Last(Config(), old(lastsent), s[..i])
      {
        EncSnoc(Config(), old(lastsent), s[..i], s[i]);
        assert s[..i] + [s[i]] == s[..i + 1];
        Assoc(old(out), Enc(Config(), old(lastsent), s[..i]), EncByte(Config(), lastsent, s[i]));
        Zsendline(s[i]);
        i := i + 1;
      }
      assert s[..i] == s;
    }

    /** The inner loop of `zsendline_s`: the end of the plain run that starts at `p`. */
    method PlainRun(s: seq<byte>, p: nat) returns (t: nat, cls: Class)
      requires Valid() && p <= |s|
      ensures p <= t <= |s|
      ensures forall j :: p <= j < t ==> ClassOf(Config(), s[j]) == Plain
      ensures if t < |s| then cls == ClassOf(Config(), s[t]) && cls != Plain else cls == Plain
    {
      cls := Plain;
      t := p;
      while t != |s|
        invariant p <= t <= |s|
        invariant cls == Plain
        invariant forall j :: p <= j < t ==> ClassOf(Config(), s[j]) == Plain
        decreases |s| - t
      {
        cls := tab[s[t] as int];
        if cls != Plain {
          break;
        }
        t := t + 1;
      }
    }

    /** `zsendline_s`: runs of plain bytes are written in one piece. */
    method ZsendlineS(s: seq<byte>)
      requires Valid()
      modifies this`lastsent, this`out
      ensures Valid()
      ensures out == old(out) + Enc(Config(), old(lastsent), s)
      ensures lastsent == Last(Config(), old(lastsent), s)
    {
      hide ClassOf, EncByte, LastByte, Enc, Last;
      ghost var k, last0 := Config(), lastsent;
      var p := 0;
      EncEmpty(k, last0);
      assert s[..0] == [];
      while p != |s|
        invariant 0 <= p <= |s|
        invariant out == old(out) + Enc(k, last0, s[..p])
        invariant lastsent == Last(k, last0, s[..p])
        decreases |s| - p
      {
        var t, lastEsc := PlainRun(s, p);
        if t != p {
          EncStep(k, last0, s, p, t);
          EncPlainRun(k, lastsent, s[p..t]);
          Assoc(old(out), Enc(k, last0, s[..p]), s[p..t]);
          out := out + s[p..t];
          lastsent := s[t - 1];
          p := t;
        }
        if lastEsc != Plain {
          EncStep(k, last0, s, p, p + 1);
          EncOne(k, lastsent, s[p]);
          assert s[p..p + 1] == [s[p]];
          Assoc(old(out), Enc(k, last0, s[..p]), EncByte(k, lastsent, s[p]));
          SendByClass(lastEsc, s[p]);
          p := p + 1;
        }
      }
      assert s[..p] == s;
    }
  
    /** Everything of `msg` has gone out, escaped, since the line held `base` and the last byte was `last`. */
    ghost predicate Sent(base: seq<byte>, last: byte, msg: seq<byte>)
      reads this`ctl, this`turbo, this`out, this`lastsent
    {
      out == base + Enc(Config(), last, msg) && lastsent == Last(Config(), last, msg)
    }

    lemma SentNothing()
      ensures Sent(out, lastsent, [])
    {
      assert out + [] == out;
    }

    method ZsendlineNext(c: byte, ghost base: seq<byte>, ghost last: byte, ghost msg: seq<byte>)
      requires Valid() && Sent(base, last, msg)
      modifies this`lastsent, this`out
      ensures Valid() && Sent(base, last, msg + [c])
    {
      hide Enc, Last, EncByte, LastByte, ClassOf;
      EncSnoc(Config(), last, msg, c);
      Assoc(base, Enc(Config(), last, msg), EncByte(Config(), lastsent, c));
      Zsendline(c);
    }

    method SendNulls(n: nat)
      modifies this`out
      ensures out == old(out) + Zeros(n)
    {
      var i := 0;
      while i < n
        invariant 0 <= i <= n
        invariant out == old(out) + Zeros(i)
      {
        out := out + [0];
        i := i + 1;
      }
    }

    /** `zsbhdr`, with `zsbh32` for the 32-bit frame check. */
    method Zsbhdr(t: byte, hdr: seq<byte>)
      requires Valid() && |hdr| == 4
      modifies this`lastsent, this`out, this`crc32t
      ensures Valid() && crc32t == txfcs32
      ensures out == old(out) + Nulls(t, znulls) + BinHdr(Config(), txfcs32, old(lastsent), t, hdr)
      ensures lastsent == Last(Config(), old(lastsent), [t] + hdr + Fcs(txfcs32, [t] + hdr))
    {
      hide Enc, Last, Valid, Zeros, Fcs16, Fcs32;
      if t == ZDATA {
        SendNulls(znulls);
      }
      ghost var start := out;
      out := out + [ZPAD];
      out := out + [ZDLE];
      crc32t := txfcs32;
      ghost var body := [t] + hdr;
      ghost var enc := Enc(Config(), lastsent, body + Fcs(txfcs32, body));
      if crc32t {
        Zsbh32(t, hdr);
        Joined(start, ZBIN32, enc);
      } else {
        Zsbh16(t, hdr);
        Joined(start, ZBIN, enc);
      }
    }

    /** The loops of `zsbhdr` and `zsdata`: each byte goes out and into the CRC. */
    method SendAndCrc16(msg: seq<byte>) returns (crc: bv16)
      requires Valid()
      modifies this`lastsent, this`out
      ensures Valid() && Sent(old(out), old(lastsent), msg) && crc == Crc16Over(msg, 0)
    {
      hide Enc, Last, Valid, UpdCrc, Sent;
      SentNothing();
      crc := 0;
      var i := 0;
      assert msg[..0] == [];
      while i < |msg|
        invariant 0 <= i <= |msg|
        invariant Valid() && Sent(old(out), old(lastsent), msg[..i]) && crc == Crc16Over(msg[..i], 0)
      {
        ZsendlineNext(msg[i], old(out), old(lastsent), msg[..i]);
        crc := UpdCrc(msg[i], crc);
        assert msg[..i] + [msg[i]] == msg[..i + 1] && msg[..i + 1][..i] == msg[..i];
        i := i + 1;
      }
      assert msg[..i] == msg;
    }

    /** Two zero bytes complete the division; the high byte goes out first. */
    method SendFcs16(c: bv16, ghost base: seq<byte>, ghost last: byte, ghost sent: seq<byte>, ghost msg: seq<byte>)
      requires Valid() && Sent(base, last, sent) && c == Crc16Over(msg, 0)
      modifies this`lastsent, this`out
      ensures Valid() && Sent(base, last, sent + Fcs16(msg))
    {
      hide Enc, Last, Valid, UpdCrc, Sent;
      var crc := UpdCrc(0, UpdCrc(0, c));
      ZsendlineNext((crc >> 8) as bv8, base, last, sent);
      ZsendlineNext((crc & 0xff) as bv8, base, last, sent + [(crc >> 8) as bv8]);
      assert sent + [(crc >> 8) as bv8] + [(crc & 0xff) as bv8] == sent + Fcs16(msg);
    }

    /** The 16-bit branch of `zsbhdr`. */
    method Zsbh16(t: byte, hdr: seq<byte>)
      requires Valid() && |hdr| == 4
      modifies this`lastsent, this`out
      ensures Valid() && Sent(old(out) + [ZBIN], old(lastsent), [t] + hdr + Fcs16([t] + hdr))
    {
      hide Valid, Sent, Fcs16, Crc16Over;
      out := out + [ZBIN];
      ghost var base, last0 := out, lastsent;
      var crc := SendAndCrc16([t] + hdr);
      SendFcs16(crc, base, last0, [t] + hdr, [t] + hdr);
    }

    method Zsbh32(t: byte, hdr: seq<byte>)
      requires Valid() && |hdr| == 4
      modifies this`lastsent, this`out
      ensures Valid() && Sent(old(out) + [ZBIN32], old(lastsent), [t] + hdr + Fcs32([t] + hdr))
    {
      hide Valid, Sent, Crc32Over, LowFirst;
      out := out + [ZBIN32];
      ghost var base, last0 := out, lastsent;
      ZsendlineEach([t] + hdr);
      assert Sent(base, last0, [t] + hdr) by { SentIs(base, last0, [t] + hdr); }
      var crc := Crc32Loop([t] + hdr);
      SendCrc32(!crc, false, base, last0, [t] + hdr);
    }

    lemma SentIs(base: seq<byte>, last: byte, msg: seq<byte>)
      requires out == base + Enc(Config(), last, msg) && lastsent == Last(Config(), last, msg)
      ensures Sent(base, last, msg)
    {
    }

    /** `zsda32` sends a CRC byte it can see to be plain without asking the table. */
    method ZsendlineShortcut(c: byte)
      requires Valid()
      modifies this`lastsent, this`out
      ensures Valid()
      ensures out == old(out) + EncByte(Config(), old(lastsent), c)
      ensures lastsent == LastByte(Config(), old(lastsent), c)
    {
      if c & 0x60 != 0 {
        lastsent := c;
        out := out + [c];
      } else {
        Zsendline(c);
      }
    }

    /** The four CRC bytes, low byte first: the closing loops of `zsbh32` and, with the shortcut, `zsda32`. */
    method SendCrc32(c: bv32, shortcut: bool, ghost base: seq<byte>, ghost last: byte, ghost msg: seq<byte>)
      requires Valid() && Sent(base, last, msg)
      modifies this`lastsent, this`out
      ensures Valid() && Sent(base, last, msg + LowFirst(c))
    {
      hide Enc, Last, Valid, Shr8, Low8, EncByte, LastByte;
      var crc := c;
      var i := 0;
      ghost var m := msg;
      while i < 4
        invariant 0 <= i <= 4
        invariant Valid() && Sent(base, last, m) && crc == Down(c, i)
        invariant m == msg + LowFirst(c)[..i]
      {
        LowFirstAt(c, i);
        EncSnoc(Config(), last, m, Low8(crc));
        Assoc(base, Enc(Config(), last, m), EncByte(Config(), lastsent, Low8(crc)));
        if shortcut {
          ZsendlineShortcut(Low8(crc));
        } else {
          Zsendline(Low8(crc));
        }
        m := m + [Low8(crc)];
        crc := Shr8(crc);
        i := i + 1;
      }
      assert LowFirst(c)[..4] == LowFirst(c);
    }

    /** `zsdata`; its do-while loop presumes at least one byte. */
    method Zsdata(buf: seq<byte>, fe: byte)
      requires Valid() && |buf| >= 1
      modifies this`lastsent, this`out
      ensures Valid() && out == old(out) + Packet(Config(), false, old(lastsent), buf, fe)
      ensures lastsent == LastOfPacket(Config(), false, old(lastsent), buf, fe)
    {
      hide Enc, Last, Valid, UpdCrc, Fcs16, DataTail;
      ghost var base, last0 := out, lastsent;
      var crc := SendAndCrc16(buf);
      var last1 := lastsent;
      ghost var mid := CloseFrame(fe);
      assert (buf + [fe])[..|buf|] == buf;
      SentNothing();
      SendFcs16(UpdCrc(fe, crc), mid, last1, [], buf + [fe]);
      assert [] + Fcs16(buf + [fe]) == Fcs16(buf + [fe]);
      SendXon(fe);
      PacketJoins(base, Enc(Config(), last0, buf), [ZDLE, fe], Enc(Config(), last1, Fcs16(buf + [fe])), DataTail(fe));
    }

    method CloseFrame(fe: byte) returns (ghost mid: seq<byte>)
      modifies this`out
      ensures mid == out == old(out) + [ZDLE, fe]
    {
      out := out + [ZDLE];
      out := out + [fe];
      mid := out;
    }

    method SendXon(fe: byte)
      modifies this`out
      ensures out == old(out) + DataTail(fe)
    {
      if fe == ZCRCW {
        out := out + [XON];
      }
    }

    method Crc32Loop(buf: seq<byte>) returns (crc: bv32)
      ensures crc == Crc32Over(buf, 0xffffffff)
    {
      hide UpdCrc32;
      crc := 0xffffffff;
      var i := 0;
      assert buf[..0] == [];
      while i < |buf|
        invariant 0 <= i <= |buf|
        invariant crc == Crc32Over(buf[..i], 0xffffffff)
      {
        crc := UpdCrc32(buf[i], crc);
        assert buf[..i + 1][..i] == buf[..i];
        i := i + 1;
      }
      assert buf[..i] == buf;
    }

    /** `zsda32`. */
    method Zsda32(buf: seq<byte>, fe: byte)
      requires Valid()
      modifies this`lastsent, this`out
      ensures Valid() && out == old(out) + Packet(Config(), true, old(lastsent), buf, fe)
      ensures lastsent == LastOfPacket(Config(), true, old(lastsent), buf, fe)
    {
      hide Enc, Last, Valid, UpdCrc32, LowFirst, DataTail;
      ghost var base, last0 := out, lastsent;
      ZsendlineS(buf);
      var crc := Crc32Loop(buf);
      var last1 := lastsent;
      ghost var mid := CloseFrame(fe);
      crc := UpdCrc32(fe, crc);
      assert (buf + [fe])[..|buf|] == buf;
      SentNothing();
      SendCrc32(!crc, true, mid, last1, []);
      assert [] + LowFirst(!crc) == Fcs32(buf + [fe]);
      SendXon(fe);
      PacketJoins(base, Enc(Config(), last0, buf), [ZDLE, fe], Enc(Config(), last1, Fcs32(buf + [fe])), DataTail(fe));
    }

    /** The macro `ZSDATA`: the width follows the last header sent. */
    method ZSDATA(buf: seq<byte>, fe: byte)
      requires Valid() && (crc32t || |buf| >= 1)
      modifies this`lastsent, this`out
      ensures Valid() && out == old(out) + Packet(Config(), crc32t, old(lastsent), buf, fe)
      ensures lastsent == LastOfPacket(Config(), crc32t, old(lastsent), buf, fe)
    {
      hide Packet, LastOfPacket, Valid;
      if crc32t {
        Zsda32(buf, fe);
      } else {
        Zsdata(buf, fe);
      }
    }

    /** `zputhex`. */
    method Zputhex(c: byte) returns (digits: seq<byte>)
      ensures digits == Hex([c])
    {
      digits := [HexDigit((c & 0xf0) >> 4), HexDigit(c & 0x0f)];
      assert (c & 0xf0) >> 4 == c >> 4;
    }

    method PutHexAndCrc16(msg: seq<byte>) returns (s: seq<byte>, crc: bv16)
      ensures s == Hex(msg) && crc == Crc16Over(msg, 0)
    {
      hide UpdCrc, HexDigit;
      s, crc := [], 0;
      var i := 0;
      assert msg[..0] == [];
      while i < |msg|
        invariant 0 <= i <= |msg|
        invariant s == Hex(msg[..i]) && crc == Crc16Over(msg[..i], 0)
      {
        var d := Zputhex(msg[i]);
        s := s + d;
        crc := UpdCrc(msg[i], crc);
        HexConcat(msg[..i], [msg[i]]);
        assert msg[..i] + [msg[i]] == msg[..i + 1] && msg[..i + 1][..i] == msg[..i];
        i := i + 1;
      }
      assert msg[..i] == msg;
    }

    /** `zshhdr`; the hex header bypasses the escaping and leaves `lastsent` alone. */
    method Zshhdr(t: byte, hdr: seq<byte>)
      requires |hdr| == 4
      modifies this`out, this`crc32t
      ensures !crc32t && out == old(out) + HexHdr(t, hdr)
    {
      hide UpdCrc, Hex, Crc16Over;
      var s := [ZPAD, ZPAD, ZDLE, ZHEX];
      var body := [t & 0x7f] + hdr;
      var d, crc := PutHexAndCrc16(body);
      crc32t := false;
      crc := UpdCrc(0, UpdCrc(0, crc));
      var e := Zputhex((crc >> 8) as bv8);
      var f := Zputhex((crc & 0xff) as bv8);
      HexConcat([(crc >> 8) as bv8], [(crc & 0xff) as bv8]);
      assert [(crc >> 8) as bv8] + [(crc & 0xff) as bv8] == Fcs16(body);
      HexConcat(body, Fcs16(body));
      s := s + (d + (e + f));
      s := s + [0x0d, 0x8a];
      if t != ZFIN && t != ZACK {
        s := s + [XON];
      }
      out := out + s;
    }
  }
}
