/** The reading functions of `zm.c` in their own form: loops over a line that is consumed byte by byte. */
module ZReceiver {
  import opened Basics
  import opened Crc
  import opened ZEscape
  import opened ZReader
  import opened ZRoundTrip

  function Prepend(p: seq<byte>, b: Bytes): Bytes {
    match b
    case Bytes(msg, rest) => Bytes(p + msg, rest)
    case NotData(r) => b
  }

  function PrependHex(p: seq<byte>, b: HexBytes): HexBytes {
    match b
    case HexBytes(msg, rest) => HexBytes(p + msg, rest)
    case NotHex(code, rest) => b
  }

  /** The labels of `zgethdr`. */
  datatype Label = Again | Gotcan | Agn2 | Splats | Kind

  function Rank(pc: Label): nat {
    match pc
    case Again => 2
    case Gotcan => 3
    case Agn2 => 3
    case Splats => 4
    case Kind => 4
  }

  /** What remains to be done from a label. */
  function From(pc: Label, ctl: bool, budget: nat, cans: int, s: seq<byte>): Header {
    match pc
    case Again => Hunt(ctl, budget, cans, s)
    case Gotcan => GotCanByte(ctl, budget, cans, s)
    case Agn2 => Garbage(ctl, budget, s)
    case Splats => Splat(ctl, budget, s)
    case Kind => FrameKind(ctl, budget, s)
  }

  class Receiver {
    var ctl: bool            // Zctlesc
    var maxGarbage: nat      // Zrwindow + Baudrate
    var rxframeind: byte     // Rxframeind
    var line: seq<byte>      // what the line still holds

    /** The byte after up to three more CANs. */
    method SkipCans() returns (ok: bool, b: byte)
      modifies this`line
      ensures var n := Cans(old(line), 3);
        if n == |old(line)| then !ok && line == [] else ok && b == old(line)[n] && line == old(line)[n + 1..]
    {
      hide Cans;
      ghost var here := line;
      b := 0;
      var tries := 0;
      while tries < 4 && (tries == 0 || b == ZDLE)
        invariant 0 <= tries <= 4 && tries <= |here| && line == here[tries..]
        invariant tries == 0 ==> Cans(here, 3) >= 0
        invariant tries > 0 ==> b == here[tries - 1] && Cans(here, 3) >= tries - 1
        invariant 0 < tries < 4 && b == ZDLE ==> Cans(here, 3) >= tries
        invariant 0 < tries && b != ZDLE ==> Cans(here, 3) == tries - 1
        invariant tries == 4 ==> Cans(here, 3) == 3
        decreases 4 - tries
      {
        CansStep(here, 3, tries);
        if line == [] {
          return false, 0;
        }
        b, line := line[0], line[1..];
        tries := tries + 1;
      }
      ok := true;
    }

    /** `zdlread2` from `again2`. */
    method ZdlreadEscaped() returns (c: Symbol)
      modifies this`line
      ensures Read(c, line) == ReadEscaped(ctl, old(line))
    {
      hide Cans;
      while true
        invariant ReadEscaped(ctl, line) == ReadEscaped(ctl, old(line))
        decreases |line|
      {
        var ok, b := SkipCans();
        if !ok {
          return SymTimeout;
        }
        if b == ZDLE {
          return GotCan;
        } else if IsFrameend(b) {
          return Frameend(b);
        } else if b == ZRUB0 {
          return Data(0x7f);
        } else if b == ZRUB1 {
          return Data(0xff);
        } else if IsFlow(b) || (ctl && b & 0x60 == 0) {
          continue;
        } else if b & 0x60 == 0x40 {
          return Data(b ^ 0x40);
        } else {
          return BadEscape;
        }
      }
    }

    /** `zdlread`. */
    method Zdlread() returns (c: Symbol)
      modifies this`line
      ensures Read(c, line) == ReadSym(ctl, old(line))
    {
      hide ReadEscaped;
      while true
        invariant ReadSym(ctl, line) == ReadSym(ctl, old(line))
        decreases |line|
      {
        if line == [] {
          return SymTimeout;
        }
        var b := line[0];
        line := line[1..];
        if b & 0x60 != 0 {
          return Data(b);
        } else if b == ZDLE {
          c := ZdlreadEscaped();
          return;
        } else if IsFlow(b) || ctl {
          continue;
        } else {
          return Data(b);
        }
      }
    }

    /** `noxrd7`. */
    method Noxrd7() returns (ok: bool, c: byte)
      modifies this`line
      ensures if ok then ReadNox(ctl, old(line)) == Nox(c, line) else ReadNox(ctl, old(line)).NoxTimeout? && line == []
    {
      while true
        invariant ReadNox(ctl, line) == ReadNox(ctl, old(line))
        decreases |line|
      {
        if line == [] {
          return false, 0;
        }
        c := line[0] & 0x7f;
        line := line[1..];
        if c == XON || c == XOFF {
          continue;
        }
        if c != 0x0d && c != 0x0a && c != ZDLE && ctl && c & 0x60 == 0 {
          continue;
        }
        return true, c;
      }
    }

    /** `zrdata`, and `zrdat32` when the header was a ZBIN32 one. */
    method Zrdata(length: nat) returns (code: DataCode)
      modifies this`line
      ensures DataResult(code, line) == ReadData(ctl, length, [], Fresh(rxframeind == ZBIN32), old(line))
    {
      hide ReadSym, Feed, ReadFcs, Fresh;
      var buf: seq<byte> := [];
      var crc := Fresh(rxframeind == ZBIN32);
      while |buf| <= length
        invariant ReadData(ctl, length, buf, crc, line) == ReadData(ctl, length, [], Fresh(rxframeind == ZBIN32), old(line))
        decreases |line|
      {
        var c := Zdlread();
        if !c.Data? {
          code := Crcfoo(buf, crc, c);
          return;
        }
        buf := buf + [c.b];
        crc := Feed(crc, c.b);
      }
      code := DataError;
    }

    /** The code at the label `crcfoo`. */
    method Crcfoo(buf: seq<byte>, crc0: Check, c0: Symbol) returns (code: DataCode)
      requires !c0.Data?
      modifies this`line
      ensures DataResult(code, line) == ReadFcs(ctl, buf, crc0, Read(c0, old(line)))
    {
      hide ReadSym, Feed, Passes, FcsLen;
      var c, crc := c0, crc0;
      while c.Frameend?
        invariant !c.Data?
        invariant ReadFcs(ctl, buf, crc, Read(c, line)) == ReadFcs(ctl, buf, crc0, Read(c0, old(line)))
        decreases |line|, if c.Frameend? then 1 else 0
      {
        ghost var line0 := line;
        var d := c.fe;
        var n := FcsLen(crc);
        crc := Feed(crc, d);
        while n > 0
          invariant |line| <= |line0|
          invariant ReadFcsBytes(ctl, buf, d, crc, n, line) == ReadFcs(ctl, buf, crc0, Read(c0, old(line)))
          decreases n
        {
          SymbolConsumes(ctl, line);
          c := Zdlread();
          if !c.Data? {
            break;
          }
          crc := Feed(crc, c.b);
          n := n - 1;
        }
        if n == 0 {
          return if Passes(crc) then Got(d, buf) else DataError;
        }
      }
      match c
      case GotCan => return DataCancelled;
      case SymTimeout => return DataTimeout;
      case BadEscape => return DataError;
    }

    /** The reading loops of `zrbhdr` and `zrbhdr32`. */
    method ZdlreadN(n: nat, wide: bool) returns (b: Bytes, crc: Check)
      modifies this`line
      ensures b == ReadN(ctl, n, old(line))
      ensures line == if b.Bytes? then b.rest else b.r.rest
      ensures b.Bytes? ==> crc == FeedAll(Fresh(wide), b.msg)
    {
      hide ReadSym, Feed, Fresh;
      var msg: seq<byte> := [];
      crc := Fresh(wide);
      PrependNothing(ReadN(ctl, n, line));
      while |msg| < n
        invariant |msg| <= n && crc == FeedAll(Fresh(wide), msg)
        invariant Prepend(msg, ReadN(ctl, n - |msg|, line)) == ReadN(ctl, n, old(line))
      {
        var c := Zdlread();
        if !c.Data? {
          return NotData(Read(c, line)), crc;
        }
        FeedAllConcat(Fresh(wide), msg, [c.b]);
        FeedOne(crc, c.b);
        PrependMore(msg, c.b, ReadN(ctl, n - |msg| - 1, line));
        crc := Feed(crc, c.b);
        msg := msg + [c.b];
      }
      b := Bytes(msg, line);
      assert msg + [] == msg;
    }

    /** `zrbhdr` and `zrbhdr32`. */
    method Zrbhdr(wide: bool) returns (code: Code, hdr: seq<byte>)
      modifies this`line, this`rxframeind
      ensures Header(code, rxframeind, hdr, line) == ReadBinHdr(ctl, wide, old(line))
    {
      hide ReadN, FeedAll, Passes, Fresh;
      rxframeind := if wide then ZBIN32 else ZBIN;
      var b, crc := ZdlreadN(if wide then 9 else 7, wide);
      match b
      case NotData(r) =>
        return CodeOf(r.sym), [];
      case Bytes(msg, _) =>
        if Passes(crc) {
          return Type(msg[0]), msg[1..5];
        } else {
          return MyError, [];
        }
    }

    /** `zgethex`; when no byte was read, `code` says why. */
    method Zgethex() returns (ok: bool, b: byte, code: Code)
      modifies this`line
      ensures match ReadHex(ctl, old(line))
              case HexByte(b', rest) => ok && b == b' && line == rest
              case HexBad(rest) => !ok && code == MyError && line == rest
              case HexTimeout => !ok && code == TimedOut && line == []
    {
      hide ReadNox;
      var got, c := Noxrd7();
      if !got {
        return false, 0, TimedOut;
      }
      var n := HexValue(c);
      if n == 0xff {
        return false, 0, MyError;
      }
      got, c := Noxrd7();
      if !got {
        return false, 0, TimedOut;
      }
      if HexValue(c) == 0xff {
        return false, 0, MyError;
      }
      return true, (n << 4) + HexValue(c), MyError;
    }

    /** The reading loops of `zrhhdr`. */
    method ZgethexN(n: nat) returns (b: HexBytes, crc: Check)
      modifies this`line
      ensures b == ReadHexN(ctl, n, old(line)) && line == b.rest
      ensures b.HexBytes? ==> crc == FeedAll(Fresh(false), b.msg)
    {
      hide ReadHex, Feed, Fresh;
      var msg: seq<byte> := [];
      crc := Fresh(false);
      assert crc == FeedAll(crc, msg);
      hide FeedAll;
      PrependNoHex(ReadHexN(ctl, n, line));
      while |msg| < n
        invariant |msg| <= n && crc == FeedAll(Fresh(false), msg)
        invariant PrependHex(msg, ReadHexN(ctl, n - |msg|, line)) == ReadHexN(ctl, n, old(line))
      {
        var ok, c, why := Zgethex();
        if !ok {
          return NotHex(why, line), crc;
        }
        FeedAllConcat(Fresh(false), msg, [c]);
        FeedOne(crc, c);
        PrependMoreHex(msg, c, ReadHexN(ctl, n - |msg| - 1, line));
        crc := Feed(crc, c);
        msg := msg + [c];
      }
      b := HexBytes(msg, line);
      assert msg + [] == msg;
    }

    /** `zrhhdr`. */
    method Zrhhdr() returns (code: Code, hdr: seq<byte>)
      modifies this`line, this`rxframeind
      ensures Header(code, rxframeind, hdr, line) == ReadHexHdr(ctl, old(line))
    {
      hide ReadHexN, FeedAll, Passes, Fresh;
      rxframeind := ZHEX;
      var b, crc := ZgethexN(7);
      match b
      case NotHex(why, _) =>
        return why, [];
      case HexBytes(msg, _) =>
        if !Passes(crc) {
          return MyError, [];
        }
        if line != [] {
          var c := line[0];
          line := line[1..];
          if c == 0x8d || c == 0x0d {
            if line != [] {
              line := line[1..];
            }
          }
        }
        return Type(msg[0]), msg[1..5];
    }

    /** `zgethdr`, its gotos as a loop over labels. */
    method Zgethdr() returns (code: Code, hdr: seq<byte>)
      modifies this`line, this`rxframeind
      ensures Header(code, rxframeind, hdr, line) == GetHdr(ctl, maxGarbage, old(line))
    {
      hide ReadNox, ReadBinHdr, ReadHexHdr;
      rxframeind := 0;
      var pc, budget, cans := Again, maxGarbage, 5;
      while true
        invariant rxframeind == 0
        invariant From(pc, ctl, budget, cans, line) == GetHdr(ctl, maxGarbage, old(line))
        decreases |line|, Rank(pc)
      {
        match pc
        case Again =>
          if line == [] {
            return TimedOut, [];
          }
          var c := line[0];
          line := line[1..];
          pc := if c == ZDLE then Gotcan else if c == ZPAD || c == ZPAD | 0x80 then Splats else Agn2;
        case Gotcan =>
          cans := cans - 1;
          if cans <= 0 {
            return Type(ZCAN), [];
          }
          if line == [] {
            pc := Again;
          } else {
            var c := line[0];
            line := line[1..];
            if c == ZCRCW {
              return MyError, [];
            } else if c == ZDLE {
              cans := cans - 1;
              if cans <= 0 {
                return Type(ZCAN), [];
              }
              pc := Again;
            } else {
              pc := Agn2;
            }
          }
        case Agn2 =>
          budget := Decrement(budget);
          if budget == 0 {
            return MyError, [];
          }
          pc, cans := Again, 5;
        case Splats =>
          var ok, c := Noxrd7();
          if !ok {
            return TimedOut, [];
          }
          pc := if c == ZPAD then Splats else if c == ZDLE then Kind else Agn2;
        case Kind =>
          var ok, c := Noxrd7();
          if !ok {
            return TimedOut, [];
          }
          if c == ZBIN {
            code, hdr := Zrbhdr(false);
            return;
          } else if c == ZBIN32 {
            code, hdr := Zrbhdr(true);
            return;
          } else if c == ZHEX {
            code, hdr := Zrhhdr();
            return;
          }
          if c == ZDLE {
            pc, cans := Gotcan, 5;
          } else {
            pc := Agn2;
          }
      }
    }
  }

  lemma PrependNothing(b: Bytes)
    ensures Prepend([], b) == b
  {
    if b.Bytes? {
      assert [] + b.msg == b.msg;
    }
  }

  lemma PrependNoHex(b: HexBytes)
    ensures PrependHex([], b) == b
  {
    if b.HexBytes? {
      assert [] + b.msg == b.msg;
    }
  }

  lemma PrependMore(p: seq<byte>, c: byte, b: Bytes)
    ensures b.Bytes? ==> p + [c] + b.msg == p + ([c] + b.msg)
  {
  }

  lemma PrependMoreHex(p: seq<byte>, c: byte, b: HexBytes)
    ensures b.HexBytes? ==> p + [c] + b.msg == p + ([c] + b.msg)
  {
  }

  /** Every symbol but a timeout takes something off the line. */
  lemma SymbolConsumes(ctl: bool, s: seq<byte>)
    ensures !ReadSym(ctl, s).sym.SymTimeout? ==> |ReadSym(ctl, s).rest| < |s|
    ensures ReadSym(ctl, s).sym.SymTimeout? ==> ReadSym(ctl, s).rest == []
    decreases |s|
  {
    if s != [] && IsControl(s[0]) && s[0] != ZDLE && (IsFlow(s[0]) || ctl) {
      SymbolConsumes(ctl, s[1..]);
    } else if s != [] && s[0] == ZDLE {
      EscapedTimeoutAtEnd(ctl, s[1..]);
    }
  }

  lemma EscapedTimeoutAtEnd(ctl: bool, s: seq<byte>)
    ensures ReadEscaped(ctl, s).sym.SymTimeout? ==> ReadEscaped(ctl, s).rest == []
    decreases |s|
  {
    var n := Cans(s, 3);
    if n < |s| && (IsFlow(s[n]) || (ctl && IsControl(s[n]))) {
      EscapedTimeoutAtEnd(ctl, s[n + 1..]);
    }
  }

  lemma CansStep(s: seq<byte>, k: nat, n: nat)
    requires n <= |s| && n <= Cans(s, k)
    ensures n < |s| && n < k && s[n] == ZDLE ==> Cans(s, k) > n
    ensures n < |s| && s[n] != ZDLE ==> Cans(s, k) == n
    ensures n == |s| || n == k ==> Cans(s, k) == n
  {
    if n > 0 {
      CansStep(s[1..], k - 1, n - 1);
    }
  }
}
