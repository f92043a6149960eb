/** Which losses a transfer survives, and that without losses every file arrives. */
module ZStream {
  import opened Basics
  import opened ZEscape
  import opened ZReader
  import opened ZSavedBlocks
  import opened ZReceiveFile
  import opened ZSendFile
  import opened ZTransfer
  import opened ZPosition
  import opened ZOrder
  import opened ZRecover

  // ----- Which losses are made good -----

  /** The sender will not read the line again before it has seen the end of the file; after that it no longer seeks. */
  predicate Deaf(src: seq<byte>, w: Window, tx: Tx) {
    || tx.phase == TxDone
    || (tx.eofSeen && tx.phase != AwaitPos)
    || ((tx.phase == Stream || tx.phase == WindowCheck) && tx.lastsync <= tx.bytesSent && !WillListen(src, w, tx))
  }

  lemma StaysDeaf(src: seq<byte>, w: Window, tx: Tx, e: Input)
    requires Deaf(src, w, tx) && tx.fpos <= |src| && (tx.phase != TxDone ==> tx.fpos == tx.bytesSent)
    ensures Deaf(src, w, TxStep(src, w, tx, e).tx)
  {
    hide WirePos;
    match tx.phase
    case AwaitPos =>
    case SendHeader =>
    case Stream =>
    case WindowCheck =>
    case WindowWait =>
    case WaitAck =>
    case SendEof =>
    case WaitEof =>
    case TxDone =>
  }

  /** From the last item read on, no frame on the line continues what the receiver has. */
  ghost predicate Lost(src: seq<byte>, s: Sys) {
    && s.rx.received < |src|
    && (s.rx.phase == WantHdr || s.rx.phase == SkipData || s.rx.phase.SaveData?
        || s.rx.phase == Done(FileError) || s.rx.phase == Done(FileSkipped))
    && forall j :: 0 <= j < |s.wire| && s.at - 1 <= j && IsData(s.wire[j]) ==> s.wire[j].pos != s.rx.received
  }

  lemma TxStaysLost(src: seq<byte>, w: Window, s: Sys, s': Sys, e: Input)
    requires Inv(src, s) && Deaf(src, w, s.tx) && Lost(src, s) && TxMoves(src, w, s, s', e)
    requires |src| < POSITIONS
    ensures Lost(src, s') && Deaf(src, w, s'.tx) && s'.rx == s.rx
  {
    hide RxGood, TrueWire, Aligned, WillListen;
    StaysDeaf(src, w, s.tx, e);
    DataIsForEnd(src, w, s.tx, e);
    var items := TxStep(src, w, s.tx, e).items;
    hide TxStep;
    forall j | 0 <= j < |s'.wire| && s.at - 1 <= j && IsData(s'.wire[j]) ensures s'.wire[j].pos != s.rx.received {
      if j >= |s.wire| {
        assert s'.wire[j] == items[j - |s.wire|];
      } else {
        assert s'.wire[j] == s.wire[j];
      }
    }
  }

  lemma DataIsForEnd(src: seq<byte>, w: Window, tx: Tx, e: Input)
    requires Deaf(src, w, tx) && tx.fpos <= |src| < POSITIONS && (tx.eofSeen ==> tx.bytesSent == |src|)
    ensures forall item :: item in TxStep(src, w, tx, e).items && IsData(item) ==> item.pos == |src|
  {
    hide WillListen;
  }

  /** Blocks put aside for the end of the file are of no use before it. */
  lemma NothingAside(src: seq<byte>, s: Sys)
    requires OrderInv(src, s) && s.rx.received < |src| < POSITIONS
    ensures Stop(s.rx.saved, s.rx.received) == s.rx.received && !MeetsEmpty(s.rx.saved, s.rx.received)
  {
  }

  lemma RxStaysLost(src: seq<byte>, disk: Disk, s: Sys, s': Sys, e: Reply, at: int)
    requires Inv(src, s) && OrderInv(src, s) && Lost(src, s) && RxMoves(disk, s, s', e, at) && at >= s.at
    requires |src| < POSITIONS
    ensures Lost(src, s') && s'.rx.received == s.rx.received && s'.tx == s.tx
  {
    NothingAside(src, s);
    if s.rx.phase == WantHdr && Located(e.code) {
      WireItem(src, s.wire, at - 1);
    }
    hide Inv, OrderInv, Stop, Used, Ahead, PutBlocks, MeetsEmpty, Putsec;
    match s.rx.phase
    case WantHdr =>
    case MoreData =>
    case SaveData(_) =>
    case SkipData =>
    case Hung =>
    case Done(_) =>
  }

  lemma StaysLost(src: seq<byte>, w: Window, disk: Disk, s: Sys, s': Sys)
    requires Inv(src, s) && OrderInv(src, s) && Deaf(src, w, s.tx) && Lost(src, s) && OrderedNext(src, w, disk, s, s')
    requires |src| < POSITIONS
    ensures Lost(src, s') && Deaf(src, w, s'.tx) && s'.rx.received == s.rx.received
  {
    hide Inv, OrderInv, Deaf, Lost, TxStep, RxStep, Delivers, Answers;
    if e :| TxMoves(src, w, s, s', e) && (e.code == Type(ZACK) ==> Msg(ZACK, e.pos) in s.rx.sent) {
      TxStaysLost(src, w, s, s', e);
    } else {
      var e, at :| RxMoves(disk, s, s', e, at) && at >= s.at;
      RxStaysLost(src, disk, s, s', e, at);
    }
  }

  /**
    Over a line that keeps order: once no frame is to come that continues what the receiver has and
    the sender will not listen before the end of the file, the receiver never gets any further and
    the transfer never succeeds.
   */
  lemma {:induction false} LossIsFinal(src: seq<byte>, w: Window, disk: Disk, run: seq<Sys>, i: nat, j: nat)
    requires IsOrderedRun(src, w, disk, run) && i <= j < |run| && |src| < POSITIONS
    requires Lost(src, run[i]) && Deaf(src, w, run[i].tx)
    ensures Lost(src, run[j]) && Deaf(src, w, run[j].tx)
    ensures run[j].rx.received == run[i].rx.received && run[j].rx.phase != Done(FileDone)
    decreases j
  {
    hide Inv, OrderInv, Deaf, OrderedNext, Init;
    if j > i {
      LossIsFinal(src, w, disk, run, i, j - 1);
      OrderedRunInv(src, w, disk, run, j - 1);
      StaysLost(src, w, disk, run[j - 1], run[j]);
    }
  }

  /** In mid-frame or waiting, with the end of the file still ahead. */
  predicate MidFile(tx: Tx) {
    !tx.eofSeen && (tx.phase == Stream || tx.phase == WindowCheck || tx.phase == WindowWait || tx.phase == WaitAck)
  }

  lemma {:induction false} InSync(src: seq<byte>, w: Window, disk: Disk, run: seq<Sys>, i: nat)
    requires IsOrderedRun(src, w, disk, run) && i < |run|
    ensures Synced(run[i].tx)
  {
    hide Synced, TxStep, RxStep, Delivers, Answers;
    if i == 0 {
      SyncedAtFirst();
    } else {
      InSync(src, w, disk, run, i - 1);
      var s, s' := run[i - 1], run[i];
      assert OrderedNext(src, w, disk, s, s');
      if e :| TxMoves(src, w, s, s', e) && (e.code == Type(ZACK) ==> Msg(ZACK, e.pos) in s.rx.sent) {
        StaysSynced(src, w, s.tx, e);
      }
    }
  }

  /** `Lastsync` is never ahead of what has been sent. */
  predicate Synced(tx: Tx) {
    && (MidFile(tx) || (tx.phase == SendHeader && !tx.eofSeen) ==> tx.lastsync <= tx.bytesSent)
    && (tx.phase == SendEof || tx.phase == WaitEof ==> tx.eofSeen)
  }

  lemma SyncedAtFirst()
    ensures Synced(TxInit)
  {
  }

  lemma StaysSynced(src: seq<byte>, w: Window, tx: Tx, e: Input)
    requires Synced(tx) && tx.fpos <= |src|
    ensures Synced(TxStep(src, w, tx, e).tx)
  {
    hide WirePos;
  }

  ghost predicate Completes(src: seq<byte>, w: Window, disk: Disk, run: seq<Sys>, longer: seq<Sys>) {
    && run <= longer && longer != [] && IsOrderedRun(src, w, disk, longer)
    && End(longer).rx.phase == Done(FileDone) && End(longer).rx.received == |src|
  }

  /**
    A loss before the end of the file is made good if and only if the sender listens, or will have to
    listen before it sees the end: only then can the run go on until the whole file is delivered.
   */
  lemma MadeGoodExactly(src: seq<byte>, w: Window, disk: Disk, run: seq<Sys>)
    requires run != [] && IsOrderedRun(src, w, disk, run) && |src| < POSITIONS && w.txwindow != 1
    requires Lost(src, End(run)) && CanAsk(End(run).rx) && MidFile(End(run).tx)
    ensures (exists longer :: Completes(src, w, disk, run, longer)) <==>
            Listens(End(run).tx) || WillListen(src, w, End(run).tx)
  {
    hide IsOrderedRun, Lost, CanAsk, WillListen;
    if Listens(End(run).tx) || WillListen(src, w, End(run).tx) {
      var longer := LossIsMadeGood(src, w, disk, run);
      assert Completes(src, w, disk, run, longer);
    } else {
      InSync(src, w, disk, run, |run| - 1);
      if longer :| Completes(src, w, disk, run, longer) {
        assert longer[|run| - 1] == End(run);
        LossIsFinal(src, w, disk, longer, |run| - 1, |longer| - 1);
      }
    }
  }

  // ----- Without a window -----

  /** Without a window the sender never waits in mid-file. */
  predicate Headlong(tx: Tx) {
    && tx.phase != WindowCheck && tx.phase != WindowWait && tx.phase != WaitAck
    && (tx.phase == AwaitPos ==> !tx.eofSeen)
    && (!tx.eofSeen ==> tx.phase != SendEof && tx.phase != WaitEof)
    && (!tx.eofSeen && (tx.phase == SendHeader || tx.phase == Stream) ==> tx.lastsync < tx.bytesSent)
  }

  lemma StaysHeadlong(src: seq<byte>, w: Window, tx: Tx, e: Input)
    requires w.txwindow == 0 && Headlong(tx) && tx.fpos <= |src|
    ensures Headlong(TxStep(src, w, tx, e).tx)
  {
    hide WirePos;
  }

  lemma HeadlongAtFirst()
    ensures Headlong(TxInit)
  {
  }

  /** So without a window, which is how this sender is set up, no loss in mid-file is ever made good. */
  lemma {:induction false} NoWindowNeverListens(src: seq<byte>, w: Window, disk: Disk, run: seq<Sys>, i: nat)
    requires IsOrderedRun(src, w, disk, run) && i < |run| && w.txwindow == 0
    ensures Headlong(run[i].tx)
    ensures MidFile(run[i].tx) ==> !Listens(run[i].tx) && !WillListen(src, w, run[i].tx)
  {
    hide TxStep, RxStep, Delivers, Answers;
    if i == 0 {
      HeadlongAtFirst();
    } else {
      NoWindowNeverListens(src, w, disk, run, i - 1);
      var s, s' := run[i - 1], run[i];
      assert OrderedNext(src, w, disk, s, s');
      if e :| TxMoves(src, w, s, s', e) && (e.code == Type(ZACK) ==> Msg(ZACK, e.pos) in s.rx.sent) {
        StaysHeadlong(src, w, s.tx, e);
      }
    }
  }

  // ----- Without losses, every file arrives -----

  /** In mid-frame, sender and receiver are at the same place. */
  ghost predicate Abreast(s: Sys, p: nat) {
    && !s.tx.eofSeen && s.tx.bytesSent == s.tx.fpos == p && s.tx.lastsync < p
    && s.rx.phase == MoreData && s.rx.received == p && s.rx.saved == [] && s.at == |s.wire|
  }

  /** The acknowledgement of the last ZCRCQ has been sent or used, and was less than `txwspac` ago. */
  ghost predicate Spaced(w: Window, s: Sys, p: nat) {
    w.txwindow > 0 ==>
      && s.tx.lrxpos <= p && s.tx.txwcnt < w.txwspac && s.tx.txwcnt <= p
      && (p - s.tx.txwcnt <= s.tx.lrxpos || Msg(ZACK, p - s.tx.txwcnt) in s.rx.sent)
  }

  ghost predicate InStep(w: Window, s: Sys, p: nat) {
    s.tx.phase == Stream && Abreast(s, p) && Spaced(w, s, p) && (w.txwindow > 0 ==> !WindowFull(w, s.tx))
  }

  /** What the sender puts at the end of a block that is neither the last nor the first after a ZRPOS. */
  function Ending(w: Window, tx: Tx, blk: Positive): byte {
    if w.txwindow > 0 && tx.txwcnt + blk >= w.txwspac then ZCRCQ else ZCRCG
  }

  lemma MidBlock(src: seq<byte>, w: Window, tx: Tx, blk: Positive)
    requires tx.phase == Stream && !tx.eofSeen && tx.lastsync < tx.bytesSent == tx.fpos
    requires tx.fpos + blk < |src|
    ensures var r, p, e := TxStep(src, w, tx, Sending(blk)), tx.fpos, Ending(w, tx, blk);
      && r.items == [Sub(e, src[p..p + blk])]
      && r.tx == tx.(bytesSent := p + blk, fpos := p + blk, frameend := e,
                     txwcnt := if w.txwindow == 0 then tx.txwcnt else if e == ZCRCQ then 0 else tx.txwcnt + blk,
                     phase := if w.txwindow == 0 then Stream else WindowCheck)
  {
  }

  lemma MidTaken(disk: Disk, r: Rx, fe: byte, buf: seq<byte>)
    requires r.phase == MoreData && (fe == ZCRCG || fe == ZCRCQ)
    ensures var r' := RxStep(disk, r, Reply(MyError, 0, Got(fe, buf), true, true));
      && r'.phase == MoreData && r'.received == r.received + |buf| && r'.saved == r.saved
      && r'.sent == r.sent + if fe == ZCRCQ then [Msg(ZACK, WirePos(r.received + |buf|))] else []
  {
    hide Putsec, WirePos;
  }

  /** A subpacket goes over: the sender has put it on the line and the receiver reads it. */
  lemma Arrives(src: seq<byte>, w: Window, disk: Disk, s: Sys, path: seq<Sys>, fe: byte, buf: seq<byte>) returns (longer: seq<Sys>)
    requires From(src, w, disk, s, path) && (fe == ZCRCG || fe == ZCRCQ)
    requires var q := End(path); q.rx.phase == MoreData && 0 <= q.at && q.at + 1 == |q.wire| && q.wire[q.at] == Sub(fe, buf)
    ensures From(src, w, disk, s, longer)
    ensures var q, q' := End(path), End(longer);
      && q'.tx == q.tx && q'.wire == q.wire && q'.at == |q.wire|
      && q'.rx.phase == MoreData && q'.rx.received == q.rx.received + |buf| && q'.rx.saved == q.rx.saved
      && q'.rx.sent == q.rx.sent + if fe == ZCRCQ then [Msg(ZACK, WirePos(q'.rx.received))] else []
  {
    hide IsPath, Inv, RxStep, WirePos;
    MidTaken(disk, End(path).rx, fe, buf);
    longer := RxOn(src, w, disk, s, path, Reply(MyError, 0, Got(fe, buf), true, true), End(path).at + 1);
  }

  lemma CheckedRoom(src: seq<byte>, w: Window, tx: Tx)
    requires tx.phase == WindowCheck && tx.fpos <= |src|
    ensures TxStep(src, w, tx, Quiet) ==
      if !WindowFull(w, tx) then Sent(tx.(phase := if tx.eofSeen then SendEof else Stream), [])
      else if tx.frameend != ZCRCQ then Sent(tx.(frameend := ZCRCQ, phase := WindowWait), [Sub(ZCRCQ, [])])
      else Sent(tx.(phase := WindowWait), [])
  {
  }

  lemma AckTaken(src: seq<byte>, w: Window, tx: Tx, p: nat)
    requires tx.phase == WindowWait && tx.fpos <= |src|
    ensures TxStep(src, w, tx, Quiet.(code := Type(ZACK), pos := p)) == Sent(tx.(lrxpos := p, phase := WindowCheck), [])
  {
  }

  /** At a full window the sender has its place acknowledged and goes on. */
  lemma PassesWindow(src: seq<byte>, w: Window, disk: Disk, s: Sys, path: seq<Sys>, p: nat) returns (longer: seq<Sys>)
    requires From(src, w, disk, s, path) && w.txwindow > 0 && p < POSITIONS && p <= |src|
    requires var q := End(path);
      && q.tx.phase == WindowCheck && Abreast(q, p) && Spaced(w, q, p)
      && (q.tx.frameend == ZCRCQ ==> Msg(ZACK, p) in q.rx.sent)
    ensures From(src, w, disk, s, longer) && InStep(w, End(longer), p)
  {
    hide IsPath, Inv, TxStep;
    CheckedRoom(src, w, End(path).tx);
    longer := TxOn(src, w, disk, s, path, Quiet);
    if WindowFull(w, End(path).tx) {
      if End(path).tx.frameend != ZCRCQ {
        longer := Arrives(src, w, disk, s, longer, ZCRCQ, []);
      }
      AckTaken(src, w, End(longer).tx, p);
      longer := TxOn(src, w, disk, s, longer, Quiet.(code := Type(ZACK), pos := p));
      CheckedRoom(src, w, End(longer).tx);
      longer := TxOn(src, w, disk, s, longer, Quiet);
    }
  }

  lemma EndingIs(w: Window, tx: Tx, blk: Positive)
    ensures Ending(w, tx, blk) == ZCRCQ || Ending(w, tx, blk) == ZCRCG
  {
  }

  lemma SpacedOn(w: Window, q: Sys, q': Sys, p: nat, blk: Positive)
    requires Spaced(w, q, p) && p + blk < POSITIONS && q'.tx.lrxpos == q.tx.lrxpos
    requires var fe := Ending(w, q.tx, blk);
      && (w.txwindow > 0 ==> q'.tx.txwcnt == if fe == ZCRCQ then 0 else q.tx.txwcnt + blk)
      && q'.rx.sent == q.rx.sent + if fe == ZCRCQ then [Msg(ZACK, WirePos(p + blk))] else []
    ensures Spaced(w, q', p + blk)
    ensures w.txwindow > 0 && Ending(w, q.tx, blk) == ZCRCQ ==> Msg(ZACK, p + blk) in q'.rx.sent
  {
  }

  /** One block goes over. */
  lemma BlockGoesOver(src: seq<byte>, w: Window, disk: Disk, s: Sys, path: seq<Sys>, p: nat, blk: Positive) returns (longer: seq<Sys>)
    requires From(src, w, disk, s, path) && InStep(w, End(path), p) && p + blk < |src| < POSITIONS
    ensures From(src, w, disk, s, longer) && InStep(w, End(longer), p + blk)
  {
    hide IsPath, Inv, TxStep, Spaced, Ending, WirePos;
    var fe := Ending(w, End(path).tx, blk);
    EndingIs(w, End(path).tx, blk);
    MidBlock(src, w, End(path).tx, blk);
    longer := TxOn(src, w, disk, s, path, Sending(blk));
    longer := Arrives(src, w, disk, s, longer, fe, src[p..p + blk]);
    SpacedOn(w, End(path), End(longer), p, blk);
    if w.txwindow > 0 {
      longer := PassesWindow(src, w, disk, s, longer, p + blk);
    }
  }

  lemma EndBlock(src: seq<byte>, w: Window, tx: Tx, blk: Positive)
    requires tx.phase == Stream && !tx.eofSeen && tx.fpos == tx.bytesSent <= |src| <= tx.fpos + blk
    ensures var r := TxStep(src, w, tx, Sending(blk));
      && r.items == [Sub(ZCRCE, src[tx.fpos..])]
      && r.tx == tx.(bytesSent := |src|, fpos := |src|, eofSeen := true, frameend := ZCRCE,
                     phase := if w.txwindow == 0 then SendEof else WindowCheck)
  {
    assert src[tx.fpos..|src|] == src[tx.fpos..];
  }

  lemma EndTaken(disk: Disk, r: Rx, buf: seq<byte>)
    requires r.phase == MoreData && r.saved == []
    ensures var r' := RxStep(disk, r, Reply(MyError, 0, Got(ZCRCE, buf), true, true));
      r'.phase == WantHdr && r'.received == r.received + |buf| && r'.sent == r.sent
  {
    hide Putsec, WirePos;
  }

  /** The last block goes over, and the acknowledgement of an earlier one makes room for ZEOF. */
  lemma EndGoesOver(src: seq<byte>, w: Window, disk: Disk, s: Sys, path: seq<Sys>, p: nat, blk: Positive) returns (longer: seq<Sys>)
    requires From(src, w, disk, s, path) && InStep(w, End(path), p) && p <= |src| <= p + blk && |src| < POSITIONS
    requires w.txwindow == 0 || w.txwspac + blk <= w.txwindow
    ensures From(src, w, disk, s, longer)
    ensures End(longer).rx.phase == Done(FileDone) && End(longer).rx.received == |src|
  {
    hide IsPath, Inv, TxStep, RxStep;
    var q := End(path);
    EndBlock(src, w, q.tx, blk);
    longer := TxOn(src, w, disk, s, path, Sending(blk));
    EndTaken(disk, q.rx, src[p..]);
    longer := RxOn(src, w, disk, s, longer, Reply(MyError, 0, Got(ZCRCE, src[p..]), true, true), End(longer).at + 1);
    if w.txwindow > 0 {
      longer := RoomForEof(src, w, disk, s, longer, p - q.tx.txwcnt);
    }
    longer := Finish(src, w, disk, s, longer);
  }

  lemma RoomForEof(src: seq<byte>, w: Window, disk: Disk, s: Sys, path: seq<Sys>, acked: nat) returns (longer: seq<Sys>)
    requires From(src, w, disk, s, path) && w.txwindow > 0 && acked <= |src| < POSITIONS && |src| - acked < w.txwindow
    requires var q := End(path);
      && q.tx.phase == WindowCheck && q.tx.eofSeen && q.tx.bytesSent == q.tx.fpos == |src| && q.tx.lrxpos <= |src|
      && (acked <= q.tx.lrxpos || Msg(ZACK, acked) in q.rx.sent)
    ensures From(src, w, disk, s, longer) && End(longer).tx.phase == SendEof && End(longer).rx == End(path).rx
  {
    hide IsPath, Inv, TxStep;
    CheckedRoom(src, w, End(path).tx);
    longer := TxOn(src, w, disk, s, path, Quiet);
    if WindowFull(w, End(path).tx) {
      AckTaken(src, w, End(longer).tx, acked);
      longer := TxOn(src, w, disk, s, longer, Quiet.(code := Type(ZACK), pos := acked));
      CheckedRoom(src, w, End(longer).tx);
      longer := TxOn(src, w, disk, s, longer, Quiet);
    }
  }

  lemma {:induction false} StreamsToEnd(src: seq<byte>, w: Window, disk: Disk, s: Sys, path: seq<Sys>, p: nat, blk: Positive)
    returns (longer: seq<Sys>)
    requires From(src, w, disk, s, path) && InStep(w, End(path), p) && p <= |src| < POSITIONS
    requires w.txwindow == 0 || w.txwspac + blk <= w.txwindow
    ensures From(src, w, disk, s, longer)
    ensures End(longer).rx.phase == Done(FileDone) && End(longer).rx.received == |src|
    decreases |src| - p
  {
    hide IsPath, Inv, InStep;
    if p + blk < |src| {
      longer := BlockGoesOver(src, w, disk, s, path, p, blk);
      longer := StreamsToEnd(src, w, disk, s, longer, p + blk, blk);
    } else {
      longer := EndGoesOver(src, w, disk, s, path, p, blk);
    }
  }

  lemma StartStep(src: seq<byte>, w: Window)
    ensures TxStep(src, w, TxInit, Input(Type(ZRPOS), 0, false, 1, true, 0)) == Sent(TxInit.(phase := SendHeader), [])
  {
  }

  /**
    Every file that four bytes can address is delivered by a run without losses: for every block
    length, without a window, or with one that has room for a block besides the spacing of the
    acknowledgements.
   */
  lemma EveryFileArrives(src: seq<byte>, w: Window, disk: Disk, blk: Positive) returns (run: seq<Sys>)
    requires |src| < POSITIONS && (w.txwindow == 0 || (0 < w.txwspac && w.txwspac + blk <= w.txwindow))
    ensures run != [] && IsOrderedRun(src, w, disk, run)
    ensures End(run).rx.phase == Done(FileDone) && End(run).rx.received == |src|
  {
    var sink := Sink(true, [], false, 0, false);
    assert src[..0] == [] && Holds(sink, src[..0]);
    var s := Sys(TxInit, [], RxInit(sink, 0), -1);
    assert Init(src, s);
    InitInv(src, s);
    hide Inv, IsPath, OrderedNext, Init, TxStep, RxStep;
    Stay(src, w, disk, s);
    var e := Input(Type(ZRPOS), 0, false, 1, true, 0);
    StartStep(src, w);
    run := TxOn(src, w, disk, s, [s], e);
    HeaderSent(src, w, End(run).tx);
    run := TxOn(src, w, disk, s, run, Quiet);
    assert End(run).wire == [Hdr(ZDATA, 0)];
    HeaderFound(disk, End(run).rx);
    run := RxOn(src, w, disk, s, run, Reply(Type(ZDATA), 0, DataError, true, true), 1);
    run := StreamsToEnd(src, w, disk, s, run, 0, blk);
    run := Continued(src, w, disk, [s], run);
  }
}
