/** The sending end of a ZMODEM file transfer: `zsendfile`, `zsendfdata`, `getinsync` and `zfilbuf`. */
module ZSendFile {
  import opened Basics
  import opened ZEscape
  import opened ZReader
  import opened ZReceiveFile
  import opened ZPosition

  const ZRQINIT: byte := 0
  const ZABORT: byte := 7
  const ZCRC: byte := 13

  /** What the sender has put on the line: headers, with what their four bytes hold, and the data subpackets between. */
  datatype Item = Hdr(t: byte, pos: nat) | Sub(fe: byte, buf: seq<byte>)

  /** Where the sender stands. The three waits inside `getinsync` differ in who called it. */
  datatype TxPhase =
    | AwaitPos      // zsendfile, at `again`
    | SendHeader    // zsendfdata, about to send the ZDATA header
    | Stream        // the body of the do-while loop
    | WindowCheck   // the loop over `Txwindow`
    | WindowWait    // getinsync(zi, 1)
    | WaitAck       // getinsync(zi, 0) at `waitack`
    | SendEof       // about to send ZEOF
    | WaitEof       // getinsync(zi, 0) after ZEOF
    | TxDone

  /**
    `fpos` is the read position of `input_f`; `frameend` the last frame end sent, which
    the window loop consults; `lastsync` is -1 just after a start at position 0.
   */
  datatype Tx = Tx(bytesSent: nat, fpos: nat, eofSeen: bool, lrxpos: nat, lastsync: int,
                   txwcnt: nat, frameend: byte, phase: TxPhase)

  datatype Window = Window(txwindow: nat, txwspac: nat)

  type Positive = n: int | n > 0 witness 1

  /**
    What a step depends on besides the state: a header read, whether a ZPAD follows it within
    the wait for more, a block length, whether `fseek` works.
   */
  datatype Input = Input(code: Code, pos: nat, padded: bool, blklen: Positive, seekOk: bool, crc: nat)

  datatype Sent = Sent(tx: Tx, items: seq<Item>)

  // ----- zfilbuf -----

  /** The block read, and whether the end of the file has been seen. */
  datatype Fill = Fill(buf: seq<byte>, eof: bool)

  /** `zfilbuf`: up to `blklen` bytes, then one byte of look-ahead. */
  function Zfilbuf(src: seq<byte>, fpos: nat, eofSeen: bool, blklen: nat): Fill
    requires fpos <= |src|
  {
    var n := if blklen < |src| - fpos then blklen else |src| - fpos;
    Fill(src[fpos..fpos + n], eofSeen || n < blklen || fpos + n == |src|)
  }

  // ----- getinsync -----

  /** What `getinsync` returns, or that it reads on. */
  datatype Sync = Returns(c: SyncCode, tx: Tx) | ReadsOn(tx: Tx, items: seq<Item>)

  datatype SyncCode = CError | CRpos | CAck | COver

  /** One header inside `getinsync`. A ZRPOS moves the read position only while the end has not been seen. */
  function Getinsync(tx: Tx, flag: bool, e: Input): Sync {
    match e.code
    case TimedOut => Returns(CError, tx)
    case MyError => ReadsOn(tx, [Hdr(ZNAK, 0)])
    case StrayEnd(_) => ReadsOn(tx, [Hdr(ZNAK, 0)])
    case Type(t) =>
      if t == ZCAN || t == ZABORT || t == ZFIN then Returns(CError, tx)
      else if t == ZRPOS then
        (if tx.eofSeen then Returns(CRpos, tx)
         else if !e.seekOk then Returns(CError, tx)
         else Returns(CRpos, tx.(fpos := e.pos, bytesSent := e.pos, lrxpos := e.pos, lastsync := e.pos)))
      else if t == ZACK then
        (var tx' := tx.(lrxpos := e.pos);
         if flag || tx.bytesSent == e.pos then Returns(CAck, tx') else ReadsOn(tx', []))
      else if t == ZRINIT || t == ZSKIP then Returns(COver, tx)
      else ReadsOn(tx, [Hdr(ZNAK, 0)])
  }

  // ----- The steps of the sender -----

  /** The switch at `gotack`. */
  function Gotack(c: SyncCode, tx: Tx): Tx {
    if c == CAck || c == CRpos then tx.(phase := SendHeader) else tx.(phase := TxDone)
  }

  /** The end of the do-while loop. */
  function LoopEnd(tx: Tx): Tx {
    tx.(phase := if tx.eofSeen then SendEof else Stream)
  }

  /** `bytes_sent - Lrxpos >= Txwindow` on unsigned operands. */
  predicate WindowFull(w: Window, tx: Tx) {
    tx.lrxpos > tx.bytesSent || tx.bytesSent - tx.lrxpos >= w.txwindow
  }

  function StreamStep(src: seq<byte>, w: Window, tx: Tx, blklen: nat): Sent
    requires tx.fpos <= |src|
  {
    var f := Zfilbuf(src, tx.fpos, tx.eofSeen, blklen);
    var n := |f.buf|;
    var counted := tx.txwcnt + n;
    var e :=
      if f.eof then ZCRCE
      else if tx.bytesSent == tx.lastsync then ZCRCW
      else if w.txwindow > 0 && counted >= w.txwspac then ZCRCQ
      else ZCRCG;
    var txwcnt := if f.eof || tx.bytesSent == tx.lastsync || w.txwindow == 0 then tx.txwcnt
                  else if e == ZCRCQ then 0 else counted;
    var tx' := tx.(fpos := tx.fpos + n, eofSeen := f.eof, bytesSent := tx.bytesSent + n, txwcnt := txwcnt, frameend := e);
    Sent(if e == ZCRCW then tx'.(phase := WaitAck)
         else if w.txwindow > 0 then tx'.(phase := WindowCheck)
         else LoopEnd(tx'),
         [Sub(e, f.buf)])
  }

  function AwaitPosStep(tx: Tx, e: Input): Sent {
    match e.code
    case TimedOut => Sent(tx.(phase := TxDone), [])
    case MyError => Sent(tx, [Hdr(ZFILE, 0), Sub(ZCRCW, [])])
    case StrayEnd(_) => Sent(tx, [Hdr(ZFILE, 0), Sub(ZCRCW, [])])
    case Type(t) =>
      if t == ZRQINIT || t == ZCAN || t == ZABORT || t == ZFIN || t == ZSKIP then Sent(tx.(phase := TxDone), [])
      else if t == ZCRC then Sent(tx.(fpos := 0), [Hdr(ZCRC, e.crc)])
      else if t == ZRPOS then
        (if e.pos != 0 && !e.seekOk then Sent(tx.(phase := TxDone), [])
         else Sent(tx.(fpos := if e.pos != 0 then e.pos else tx.fpos, bytesSent := e.pos, lastsync := e.pos - 1,
                       lrxpos := 0, phase := SendHeader), []))
      else if t == ZRINIT && e.padded then Sent(tx, [])
      else Sent(tx, [Hdr(ZFILE, 0), Sub(ZCRCW, [])])
  }

  /** One step of the sender: what it does until it next reads the line or sends something. */
  function TxStep(src: seq<byte>, w: Window, tx: Tx, e: Input): Sent
    requires tx.fpos <= |src|
  {
    match tx.phase
    case AwaitPos => AwaitPosStep(tx, e)
    case SendHeader => Sent(tx.(txwcnt := 0, phase := Stream), [Hdr(ZDATA, WirePos(tx.bytesSent))])
    case Stream => StreamStep(src, w, tx, e.blklen)
    case WindowCheck =>
      if !WindowFull(w, tx) then Sent(LoopEnd(tx), [])
      else if tx.frameend != ZCRCQ then Sent(tx.(frameend := ZCRCQ, phase := WindowWait), [Sub(ZCRCQ, [])])
      else Sent(tx.(phase := WindowWait), [])
    case WindowWait =>
      (match Getinsync(tx, true, e)
       case ReadsOn(tx', items) => Sent(tx', items)
       case Returns(c, tx') =>
         if c == CAck then Sent(tx'.(phase := WindowCheck), [])
         else Sent(Gotack(c, tx'), [Sub(ZCRCE, [])]))
    case WaitAck =>
      (match Getinsync(tx, false, e)
       case ReadsOn(tx', items) => Sent(tx', items)
       case Returns(c, tx') => Sent(Gotack(c, tx'), []))
    case SendEof => Sent(tx.(phase := WaitEof), [Hdr(ZEOF, WirePos(tx.bytesSent))])
    case WaitEof =>
      (match Getinsync(tx, false, e)
       case ReadsOn(tx', items) => Sent(tx', items)
       case Returns(c, tx') =>
         if c == CAck then Sent(tx'.(phase := SendEof), [])
         else if c == CRpos then Sent(tx'.(phase := SendHeader), [])
         else Sent(tx'.(phase := TxDone), []))
    case TxDone => Sent(tx, [])
  }

  const TxInit: Tx := Tx(0, 0, false, 0, -1, 0, 0, AwaitPos)

  // ----- What every step keeps -----

  /** The position at which the next subpacket on the line would start, where a ZDATA frame defines one. */
  datatype Where = At(pos: nat) | Nowhere

  function After(item: Item, before: Where): Where {
    match item
    case Hdr(t, pos) => if t == ZDATA then At(pos) else Nowhere
    case Sub(_, buf) => if before.At? then At(before.pos + |buf|) else Nowhere
  }

  function WireAt(wire: seq<Item>, i: nat): Where
    requires i <= |wire|
  {
    if i == 0 then Nowhere else After(wire[i - 1], WireAt(wire, i - 1))
  }

  /** Nothing on the line misrepresents the file. */
  ghost predicate TrueItem(src: seq<byte>, item: Item, before: Where) {
    match item
    case Hdr(t, pos) => (t == ZDATA ==> pos <= |src|) && (t == ZEOF ==> pos == WirePos(|src|))
    case Sub(fe, buf) =>
      && IsFrameend(fe)
      && (before.At? ==> before.pos + |buf| <= |src| && buf == src[before.pos..before.pos + |buf|])
  }

  ghost predicate TrueWire(src: seq<byte>, wire: seq<Item>) {
    forall i :: 0 <= i < |wire| ==> TrueItem(src, wire[i], WireAt(wire, i))
  }

  predicate InFrame(p: TxPhase) {
    p == Stream || p == WindowCheck || p == WindowWait
  }

  /** The sender's part of the invariant: above all, the read position is `bytes_sent`. */
  ghost predicate TxGood(src: seq<byte>, tx: Tx, end: Where) {
    && tx.fpos <= |src|
    && (tx.phase != TxDone ==> tx.fpos == tx.bytesSent)
    && (tx.phase == AwaitPos ==> tx.fpos == 0 && !tx.eofSeen)
    && (tx.eofSeen ==> tx.bytesSent == |src|)
    && (tx.phase == SendEof || tx.phase == WaitEof ==> tx.eofSeen)
    && (tx.phase == SendHeader && !tx.eofSeen ==> tx.bytesSent < POSITIONS)
    && (InFrame(tx.phase) && end.At? ==> end.pos == tx.bytesSent || (tx.eofSeen && end.pos == WirePos(|src|)))
  }

  /** A position read from the line came in four bytes, and that of a ZRPOS from a receiver of this file. */
  ghost predicate GenuineInput(src: seq<byte>, e: Input) {
    e.pos < POSITIONS && (e.code == Type(ZRPOS) ==> e.pos <= |src|)
  }

  function WhereAfter(items: seq<Item>, before: Where): Where
    decreases items
  {
    if items == [] then before else WhereAfter(items[1..], After(items[0], before))
  }

  ghost predicate TrueItems(src: seq<byte>, items: seq<Item>, before: Where)
    decreases items
  {
    items == [] || (TrueItem(src, items[0], before) && TrueItems(src, items[1..], After(items[0], before)))
  }

  lemma StreamStepKeeps(src: seq<byte>, w: Window, tx: Tx, blklen: nat, end: Where)
    requires TxGood(src, tx, end) && tx.phase == Stream
    ensures var s := StreamStep(src, w, tx, blklen);
            && s.items == [s.items[0]]
            && TrueItem(src, s.items[0], end) && TxGood(src, s.tx, After(s.items[0], end))
  {
  }

  lemma GetinsyncKeeps(src: seq<byte>, tx: Tx, flag: bool, e: Input, end: Where)
    requires TxGood(src, tx, end) && GenuineInput(src, e)
    requires tx.phase == WindowWait || tx.phase == WaitAck || tx.phase == WaitEof
    ensures var g := Getinsync(tx, flag, e);
            && (g.ReadsOn? ==> TxGood(src, g.tx, WhereAfter(g.items, end)) && TrueItems(src, g.items, end))
            && (g.Returns? ==>
                && g.tx.phase == tx.phase && g.tx.fpos == g.tx.bytesSent <= |src| && g.tx.eofSeen == tx.eofSeen
                && (tx.eofSeen ==> g.tx.bytesSent == |src|)
                && (g.c == CAck ==> g.tx.bytesSent == tx.bytesSent && (flag || g.tx.bytesSent < POSITIONS))
                && (g.c == CRpos && !tx.eofSeen ==> g.tx.bytesSent < POSITIONS))
  {
    assert [Hdr(ZNAK, 0)][1..] == [];
  }

  /** Every step of the sender keeps the read position at `bytes_sent` and puts only the truth on the line. */
  lemma TxStepKeeps(src: seq<byte>, w: Window, tx: Tx, e: Input, end: Where)
    requires TxGood(src, tx, end) && GenuineInput(src, e)
    ensures var s := TxStep(src, w, tx, e);
            TxGood(src, s.tx, WhereAfter(s.items, end)) && TrueItems(src, s.items, end)
  {
    match tx.phase
    case AwaitPos => WaitPhase(src, w, tx, e, end);
    case SendHeader => QuietPhase(src, w, tx, e, end);
    case Stream => StreamPhase(src, w, tx, e, end);
    case WindowCheck => QuietPhase(src, w, tx, e, end);
    case WindowWait => WaitPhase(src, w, tx, e, end);
    case WaitAck => WaitPhase(src, w, tx, e, end);
    case SendEof => QuietPhase(src, w, tx, e, end);
    case WaitEof => WaitPhase(src, w, tx, e, end);
    case TxDone => QuietPhase(src, w, tx, e, end);
  }

  /** The phases that read nothing. */
  lemma QuietPhase(src: seq<byte>, w: Window, tx: Tx, e: Input, end: Where)
    requires TxGood(src, tx, end) && GenuineInput(src, e)
    requires tx.phase == SendHeader || tx.phase == WindowCheck || tx.phase == SendEof || tx.phase == TxDone
    ensures var s := TxStep(src, w, tx, e);
            TxGood(src, s.tx, WhereAfter(s.items, end)) && TrueItems(src, s.items, end)
  {
    hide StreamStep, Getinsync, WirePos;
    OneItem(TxStep(src, w, tx, e).items, end);
  }

  lemma StreamPhase(src: seq<byte>, w: Window, tx: Tx, e: Input, end: Where)
    requires TxGood(src, tx, end) && GenuineInput(src, e) && tx.phase == Stream
    ensures var s := TxStep(src, w, tx, e);
            TxGood(src, s.tx, WhereAfter(s.items, end)) && TrueItems(src, s.items, end)
  {
    hide StreamStep, Getinsync, WirePos;
    StreamStepKeeps(src, w, tx, e.blklen, end);
    SingleItem(src, StreamStep(src, w, tx, e.blklen).items[0], end);
  }

  /** The phases that wait for a header. */
  lemma WaitPhase(src: seq<byte>, w: Window, tx: Tx, e: Input, end: Where)
    requires TxGood(src, tx, end) && GenuineInput(src, e)
    requires tx.phase == AwaitPos || tx.phase == WindowWait || tx.phase == WaitAck || tx.phase == WaitEof
    ensures var s := TxStep(src, w, tx, e);
            TxGood(src, s.tx, WhereAfter(s.items, end)) && TrueItems(src, s.items, end)
  {
    hide StreamStep, Getinsync, WirePos;
    OneItem(TxStep(src, w, tx, e).items, end);
    if tx.phase == AwaitPos {
      AwaitPosKeeps(src, tx, e, end);
    } else {
      GetinsyncKeeps(src, tx, tx.phase == WindowWait, e, end);
    }
  }

  lemma OneItem(items: seq<Item>, end: Where)
    ensures |items| == 1 ==> items[1..] == [] && WhereAfter(items, end) == After(items[0], end)
  {
    if |items| == 1 {
      assert WhereAfter(items[1..], After(items[0], end)) == After(items[0], end);
    }
  }

  lemma SingleItem(src: seq<byte>, item: Item, end: Where)
    ensures TrueItems(src, [item], end) == TrueItem(src, item, end)
    ensures WhereAfter([item], end) == After(item, end)
  {
    assert [item][1..] == [];
  }

  lemma AwaitPosKeeps(src: seq<byte>, tx: Tx, e: Input, end: Where)
    requires TxGood(src, tx, end) && GenuineInput(src, e) && tx.phase == AwaitPos
    ensures var s := AwaitPosStep(tx, e);
            TxGood(src, s.tx, WhereAfter(s.items, end)) && TrueItems(src, s.items, end)
  {
    var two := [Hdr(ZFILE, 0), Sub(ZCRCW, [])];
    assert two[1..] == [Sub(ZCRCW, [])] && two[1..][1..] == [];
    assert After(two[0], end) == Nowhere;
    assert TrueItems(src, two[1..], Nowhere);
    assert [Hdr(ZCRC, e.crc)][1..] == [];
  }

  // ----- The sender's functions in their own form -----

  /** What `getinsync` has done when the headers it was given run out or it returns. */
  datatype SyncRun = SyncRun(c: SyncCode, returned: bool, tx: Tx, items: seq<Item>, rest: seq<Input>)

  function SyncAll(tx: Tx, flag: bool, es: seq<Input>): SyncRun
    decreases es
  {
    if es == [] then SyncRun(CError, false, tx, [], [])
    else match Getinsync(tx, flag, es[0])
      case Returns(c, tx') => SyncRun(c, true, tx', [], es[1..])
      case ReadsOn(tx', items) =>
        var r := SyncAll(tx', flag, es[1..]);
        r.(items := items + r.items)
  }

  class FileSender {
    const src: seq<byte>     // the file behind `input_f`
    var tx: Tx               // the sender's globals and `zi`
    var wire: seq<Item>

    /** `zfilbuf`: `fread`, then `getc` and, unless that was the end, `ungetc`. */
    method DoZfilbuf(blklen: nat) returns (buf: seq<byte>)
      requires tx.fpos <= |src|
      modifies this`tx
      ensures var f := Zfilbuf(src, old(tx.fpos), old(tx.eofSeen), blklen);
              buf == f.buf && tx == old(tx).(fpos := old(tx.fpos) + |f.buf|, eofSeen := f.eof)
    {
      var n := if blklen < |src| - tx.fpos then blklen else |src| - tx.fpos;
      buf := src[tx.fpos..tx.fpos + n];
      tx := tx.(fpos := tx.fpos + n);
      if n < blklen {
        tx := tx.(eofSeen := true);
      } else if tx.fpos < |src| {
        tx := tx.(fpos := tx.fpos + 1);
        tx := tx.(fpos := tx.fpos - 1);
      } else {
        tx := tx.(eofSeen := true);
      }
    }

    /** `getinsync`: reads headers until one of them decides. */
    method DoGetinsync(flag: bool, es: seq<Input>) returns (returned: bool, c: SyncCode, rest: seq<Input>)
      modifies this
      ensures var r := SyncAll(old(tx), flag, es);
              returned == r.returned && c == r.c && tx == r.tx && wire == old(wire) + r.items && rest == r.rest
    {
      hide Getinsync;
      rest := es;
      ghost var done: seq<Item> := [];
      while rest != []
        invariant wire == old(wire) + done
        invariant var r := SyncAll(tx, flag, rest);
                  SyncAll(old(tx), flag, es) == r.(items := done + r.items)
        decreases rest
      {
        var e := rest[0];
        rest := rest[1..];
        match Getinsync(tx, flag, e) {
          case Returns(c', tx') =>
            tx := tx';
            assert done + [] == done;
            return true, c', rest;
          case ReadsOn(tx', items) =>
            tx := tx';
            wire := wire + items;
            assert done + (items + SyncAll(tx, flag, rest).items) == done + items + SyncAll(tx, flag, rest).items;
            done := done + items;
        }
      }
      assert done + [] == done;
      return false, CError, [];
    }

    /** The body of the do-while loop of `zsendfdata`, up to the wait or the window loop. */
    method DoBlock(w: Window, blklen: nat)
      requires tx.fpos <= |src|
      modifies this
      ensures var s := StreamStep(src, w, old(tx), blklen);
              tx == s.tx && wire == old(wire) + s.items
    {
      var buf := DoZfilbuf(blklen);
      var n, e := |buf|, ZCRCG;
      if tx.eofSeen {
        e := ZCRCE;
      } else if tx.bytesSent == tx.lastsync {
        e := ZCRCW;
      } else if w.txwindow > 0 {
        tx := tx.(txwcnt := tx.txwcnt + n);
        if tx.txwcnt >= w.txwspac {
          tx := tx.(txwcnt := 0);
          e := ZCRCQ;
        }
      }
      wire := wire + [Sub(e, buf)];
      tx := tx.(bytesSent := tx.bytesSent + n, frameend := e);
      if e == ZCRCW {
        tx := tx.(phase := WaitAck);
      } else if w.txwindow > 0 {
        tx := tx.(phase := WindowCheck);
      } else {
        tx := LoopEnd(tx);
      }
    }
  }
}
