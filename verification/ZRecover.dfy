/** What a ZRPOS does to the sender, and how a transfer gets back on its way after a loss. */
module ZRecover {
  import opened Basics
  import opened ZEscape
  import opened ZReader
  import opened ZSavedBlocks
  import opened ZReceiveFile
  import opened ZSendFile
  import opened ZTransfer
  import opened ZPosition
  import opened ZOrder

  // ----- A ZRPOS is obeyed -----

  /** The sender reads a ZRPOS while the end of the file has not been seen, and the seek works. */
  predicate Obeys(tx: Tx, e: Input) {
    && (tx.phase == AwaitPos || tx.phase == WaitAck || tx.phase == WindowWait)
    && !tx.eofSeen && e.code == Type(ZRPOS) && e.seekOk
  }

  function Bufs(items: seq<Item>): seq<byte> {
    if items == [] then []
    else Bufs(items[..|items| - 1]) + if items[|items| - 1].Sub? then items[|items| - 1].buf else []
  }

  ghost predicate OnlySubs(items: seq<Item>) {
    forall i :: 0 <= i < |items| ==> items[i].Sub?
  }

  /** The subpackets of a frame carry the file from the frame's position on. */
  lemma {:induction false} SubsInOrder(src: seq<byte>, wire: seq<Item>, k: nat, m: nat, p: nat)
    requires TrueWire(src, wire) && k <= m <= |wire| && WireAt(wire, k) == At(p) && p <= |src| && OnlySubs(wire[k..m])
    ensures var bytes := Bufs(wire[k..m]);
      p + |bytes| <= |src| && bytes == src[p..p + |bytes|] && WireAt(wire, m) == At(p + |bytes|)
    decreases m - k
  {
    hide TrueWire, Bufs, TrueItem, OnlySubs;
    if k == m {
      assert wire[k..m] == [];
      BufsNone();
    } else {
      var item := wire[m - 1];
      assert wire[k..m] == wire[k..m - 1] + [item];
      SubsFront(wire[k..m - 1], item);
      BufsSnoc(wire[k..m - 1], item);
      SubsInOrder(src, wire, k, m - 1, p);
      var n := |Bufs(wire[k..m - 1])|;
      WireItem(src, wire, m - 1);
      SubIs(src, item, p + n);
      SliceOn(src, p, n, |item.buf|);
    }
  }

  lemma BufsNone()
    ensures Bufs([]) == []
  {
  }

  lemma BufsSnoc(items: seq<Item>, item: Item)
    requires item.Sub?
    ensures Bufs(items + [item]) == Bufs(items) + item.buf
  {
    assert (items + [item])[..|items|] == items;
  }

  lemma SubsFront(items: seq<Item>, item: Item)
    requires OnlySubs(items + [item])
    ensures OnlySubs(items) && item.Sub?
  {
    assert (items + [item])[|items|] == item;
    assert forall i :: 0 <= i < |items| ==> (items + [item])[i] == items[i];
  }

  lemma SubIs(src: seq<byte>, item: Item, p: nat)
    requires item.Sub? && TrueItem(src, item, At(p))
    ensures p + |item.buf| <= |src| && item.buf == src[p..p + |item.buf|]
    ensures After(item, At(p)) == At(p + |item.buf|)
  {
  }

  lemma SliceOn(src: seq<byte>, p: nat, n: nat, k: nat)
    requires p + n + k <= |src|
    ensures src[p..p + n] + src[p + n..p + n + k] == src[p..p + (n + k)]
  {
  }

  lemma ObeyStep(src: seq<byte>, w: Window, tx: Tx, e: Input, end: Where)
    requires TxGood(src, tx, end) && GenuineInput(src, e) && Obeys(tx, e)
    ensures var t := TxStep(src, w, tx, e).tx; t.phase == SendHeader && t.bytesSent == t.fpos == e.pos && !t.eofSeen
  {
    hide WirePos;
  }

  /** Nothing has been sent since, or the frame for `p` came first. */
  ghost predicate FrameFirst(s: Sys, base: seq<Item>, p: nat) {
    && base <= s.wire
    && if s.wire == base then s.tx.phase == SendHeader && s.tx.bytesSent == p else s.wire[|base|] == Hdr(ZDATA, WirePos(p))
  }

  lemma FrameFirstKept(src: seq<byte>, w: Window, disk: Disk, s: Sys, s': Sys, base: seq<Item>, p: nat)
    requires FrameFirst(s, base, p) && Next(src, w, disk, s, s')
    ensures FrameFirst(s', base, p)
  {
    hide WirePos, RxStep, Delivers;
    if e :| TxMoves(src, w, s, s', e) {
      if s.wire != base {
        hide TxStep;
        assert s'.wire[|base|] == s.wire[|base|];
      }
    }
  }

  lemma {:induction false} FrameFirstLater(src: seq<byte>, w: Window, disk: Disk, run: seq<Sys>, i: nat, j: nat, p: nat)
    requires IsRun(src, w, disk, run) && i <= j < |run| && FrameFirst(run[i], run[i].wire, p)
    ensures FrameFirst(run[j], run[i].wire, p)
    decreases j
  {
    hide FrameFirst, Next, Init;
    if j > i {
      FrameFirstLater(src, w, disk, run, i, j - 1, p);
      FrameFirstKept(src, w, disk, run[j - 1], run[j], run[i].wire, p);
    }
  }

  /**
    Once the sender has read a ZRPOS for `p` before it saw the end of the file, the next thing it
    puts on the line is the ZDATA header for `p`, and the subpackets that follow are the file from
    `p` on, in order.
   */
  lemma RposObeyed(src: seq<byte>, w: Window, disk: Disk, run: seq<Sys>, i: nat, e: Input, j: nat, m: nat)
    requires IsRun(src, w, disk, run) && i < j < |run|
    requires TxMoves(src, w, run[i], run[i + 1], e) && Obeys(run[i].tx, e)
    requires |run[i + 1].wire| < m <= |run[j].wire|
    requires OnlySubs(run[j].wire[|run[i + 1].wire| + 1..m])
    ensures var base, wire := |run[i + 1].wire|, run[j].wire;
      && run[i + 1].wire <= wire
      && wire[base] == Hdr(ZDATA, WirePos(e.pos)) == Hdr(ZDATA, e.pos)
      && var bytes := Bufs(wire[base + 1..m]); e.pos + |bytes| <= |src| && bytes == src[e.pos..e.pos + |bytes|]
  {
    hide IsRun, TxStep, WirePos, Bufs, TrueWire, RxGood, OnlySubs;
    RunInv(src, w, disk, run, i);
    RunInv(src, w, disk, run, j);
    RposGenuine(src, run[i], e);
    ObeyStep(src, w, run[i].tx, e, WireAt(run[i].wire, |run[i].wire|));
    FrameFirstLater(src, w, disk, run, i + 1, j, e.pos);
    var base := |run[i + 1].wire|;
    SubsInOrder(src, run[j].wire, base + 1, m, e.pos);
  }

  lemma RposGenuine(src: seq<byte>, s: Sys, e: Input)
    requires Inv(src, s) && Answers(s, e)
    ensures GenuineInput(src, e)
  {
  }

  // ----- Going on from a state -----

  /** Steps over a line that keeps order. */
  ghost predicate IsPath(src: seq<byte>, w: Window, disk: Disk, path: seq<Sys>) {
    path != [] && forall i :: 0 <= i < |path| - 1 ==> OrderedNext(src, w, disk, path[i], path[i + 1])
  }

  function End(path: seq<Sys>): Sys
    requires path != []
  {
    path[|path| - 1]
  }

  /** A path from `s`, every state of which keeps the invariant. */
  ghost predicate From(src: seq<byte>, w: Window, disk: Disk, s: Sys, path: seq<Sys>) {
    path != [] && IsPath(src, w, disk, path) && path[0] == s && Inv(src, End(path))
  }

  lemma OrderedKeeps(src: seq<byte>, w: Window, disk: Disk, s: Sys, s': Sys)
    requires Inv(src, s) && OrderedNext(src, w, disk, s, s')
    ensures Inv(src, s')
  {
    hide Inv, TxMoves, RxMoves;
    assert Next(src, w, disk, s, s');
    NextKeeps(src, w, disk, s, s');
  }

  lemma Stay(src: seq<byte>, w: Window, disk: Disk, s: Sys)
    requires Inv(src, s)
    ensures From(src, w, disk, s, [s])
  {
  }

  lemma Extended(src: seq<byte>, w: Window, disk: Disk, s: Sys, path: seq<Sys>, s': Sys)
    requires From(src, w, disk, s, path) && OrderedNext(src, w, disk, End(path), s')
    ensures From(src, w, disk, s, path + [s'])
  {
    hide OrderedNext, Inv;
    OrderedKeeps(src, w, disk, End(path), s');
  }

  /** One step of the sender. */
  lemma TxOn(src: seq<byte>, w: Window, disk: Disk, s: Sys, path: seq<Sys>, e: Input) returns (longer: seq<Sys>)
    requires From(src, w, disk, s, path) && Answers(End(path), e)
    requires e.code == Type(ZACK) ==> Msg(ZACK, e.pos) in End(path).rx.sent
    ensures From(src, w, disk, s, longer) && End(path).tx.fpos <= |src|
    ensures var r := TxStep(src, w, End(path).tx, e);
            End(longer) == End(path).(tx := r.tx, wire := End(path).wire + r.items)
  {
    hide TxStep, IsPath;
    var s0 := End(path);
    var r := TxStep(src, w, s0.tx, e);
    var s' := s0.(tx := r.tx, wire := s0.wire + r.items);
    assert TxMoves(src, w, s0, s', e);
    Extended(src, w, disk, s, path, s');
    longer := path + [s'];
  }

  /** One read of the receiver. */
  lemma RxOn(src: seq<byte>, w: Window, disk: Disk, s: Sys, path: seq<Sys>, e: Reply, at: int) returns (longer: seq<Sys>)
    requires From(src, w, disk, s, path) && Delivers(End(path), e, at) && End(path).at <= at <= |End(path).wire|
    ensures From(src, w, disk, s, longer)
    ensures End(longer) == End(path).(rx := RxStep(disk, End(path).rx, e), at := at)
  {
    hide RxStep, IsPath, Inv;
    var s0 := End(path);
    var s' := s0.(rx := RxStep(disk, s0.rx, e), at := at);
    assert RxMoves(disk, s0, s', e, at);
    Extended(src, w, disk, s, path, s');
    longer := path + [s'];
  }

  // ----- Recovery -----

  /** The receiver can still bring itself to ask for its position. */
  predicate CanAsk(r: Rx) {
    match r.phase
    case WantHdr => r.n >= 1 || Msg(ZRPOS, WirePos(r.received)) in r.sent
    case MoreData => r.n >= 1
    case SaveData(_) => true
    case SkipData => true
    case Hung => false
    case Done(_) => false
  }

  predicate NoneEmpty(bs: seq<Block>) {
    forall b :: b in bs ==> b.data != []
  }

  /** The sender waits for a header and has not seen the end of the file. */
  predicate Listens(tx: Tx) {
    (tx.phase == WaitAck || tx.phase == WindowWait) && !tx.eofSeen
  }

  /** Both sides are ready to start over. */
  ghost predicate Ready(s: Sys) {
    Listens(s.tx) && CanAsk(s.rx) && NoneEmpty(s.rx.saved)
  }

  const Silence: Reply := Reply(TimedOut, 0, DataTimeout, true, true)

  const Quiet: Input := Input(TimedOut, 0, false, 1, true, 0)

  /** The receiver asks. */
  lemma Asked(src: seq<byte>, w: Window, disk: Disk, s: Sys) returns (path: seq<Sys>)
    requires Inv(src, s) && CanAsk(s.rx)
    ensures From(src, w, disk, s, path)
    ensures var s' := End(path);
      && s'.tx == s.tx && s'.wire == s.wire && s'.at == s.at
      && s'.rx.phase == WantHdr && s'.rx.received == s.rx.received && s'.rx.saved == s.rx.saved
      && Msg(ZRPOS, WirePos(s.rx.received)) in s'.rx.sent
  {
    assert s.at <= |s.wire|;
    hide From, Inv, WirePos;
    Stay(src, w, disk, s);
    path := [s];
    if s.rx.phase == WantHdr && Msg(ZRPOS, WirePos(s.rx.received)) in s.rx.sent {
      return;
    }
    path := RxOn(src, w, disk, s, path, Silence, s.at);
    if s.rx.phase == WantHdr {
      path := RxOn(src, w, disk, s, path, Silence, s.at);
    }
  }

  /** The two sides at the start of a frame: the header for the receiver's position has just been read. */
  ghost predicate InFrameAt(s: Sys, p: nat) {
    && s.tx.phase == Stream && !s.tx.eofSeen && s.tx.bytesSent == s.tx.fpos == p
    && s.rx.phase == MoreData && s.rx.received == p && s.at == |s.wire|
  }

  lemma RposStep(src: seq<byte>, w: Window, tx: Tx, p: nat)
    requires Listens(tx) && tx.fpos <= |src|
    ensures TxStep(src, w, tx, Input(Type(ZRPOS), p, false, 1, true, 0)).tx ==
      tx.(fpos := p, bytesSent := p, lrxpos := p, lastsync := p, phase := SendHeader)
  {
  }

  lemma HeaderSent(src: seq<byte>, w: Window, tx: Tx)
    requires tx.phase == SendHeader && tx.bytesSent < POSITIONS && tx.fpos <= |src|
    ensures TxStep(src, w, tx, Quiet) == Sent(tx.(txwcnt := 0, phase := Stream), [Hdr(ZDATA, tx.bytesSent)])
  {
  }

  lemma HeaderFound(disk: Disk, r: Rx)
    requires r.phase == WantHdr
    ensures RxStep(disk, r, Reply(Type(ZDATA), r.received, DataError, true, true)) == r.(phase := MoreData)
  {
  }

  /** The sender obeys and the receiver finds the header. */
  lemma Answered(src: seq<byte>, w: Window, disk: Disk, s: Sys, path: seq<Sys>) returns (longer: seq<Sys>)
    requires From(src, w, disk, s, path) && |src| < POSITIONS && Listens(End(path).tx)
    requires var r := End(path).rx; r.phase == WantHdr && Msg(ZRPOS, WirePos(r.received)) in r.sent
    ensures From(src, w, disk, s, longer)
    ensures var s', p := End(longer), End(path).rx.received;
      && InFrameAt(s', p) && s'.tx.lastsync == s'.tx.lrxpos == p
      && s'.rx.saved == End(path).rx.saved && s'.rx.n == End(path).rx.n
  {
    var p := End(path).rx.received;
    assert p <= |src| && End(path).at <= |End(path).wire|;
    hide From, Inv, TxStep, RxStep;
    longer := TxOn(src, w, disk, s, path, Input(Type(ZRPOS), p, false, 1, true, 0));
    RposStep(src, w, End(path).tx, p);
    HeaderSent(src, w, End(longer).tx);
    longer := TxOn(src, w, disk, s, longer, Quiet);
    var at := |End(longer).wire|;
    assert End(longer).wire[at - 1] == Hdr(ZDATA, p);
    HeaderFound(disk, End(longer).rx);
    longer := RxOn(src, w, disk, s, longer, Reply(Type(ZDATA), p, DataError, true, true), at);
  }

  /** A block length the window has room for. */
  function Blk(w: Window): Positive
    requires w.txwindow != 1
  {
    if w.txwindow == 0 || w.txwindow > 1024 then 1024 else w.txwindow - 1
  }

  function Sending(blklen: Positive): Input {
    Quiet.(blklen := blklen)
  }

  /** The first block after a ZRPOS asks for an answer, unless it is the last. */
  lemma BlockStep(src: seq<byte>, w: Window, tx: Tx, blklen: Positive)
    requires tx.phase == Stream && !tx.eofSeen && tx.bytesSent == tx.fpos == tx.lastsync <= |src|
    ensures var r, p := TxStep(src, w, tx, Sending(blklen)), tx.fpos;
      if p + blklen < |src| then
        && r.items == [Sub(ZCRCW, src[p..p + blklen])] && r.tx.phase == WaitAck && !r.tx.eofSeen
      else
        && r.items == [Sub(ZCRCE, src[p..])] && r.tx.eofSeen && r.tx.bytesSent == |src| && r.tx.lrxpos == tx.lrxpos
        && r.tx.phase == (if w.txwindow > 0 then WindowCheck else SendEof)
  {
    assert src[tx.fpos..|src|] == src[tx.fpos..];
  }

  /** The receiver takes a block that ends a frame. */
  lemma BlockTaken(src: seq<byte>, disk: Disk, r: Rx, fe: byte, buf: seq<byte>)
    requires r.phase == MoreData && NoneEmpty(r.saved) && (fe == ZCRCW || fe == ZCRCE)
    ensures var r' := RxStep(disk, r, Reply(MyError, 0, Got(fe, buf), true, true));
      r'.phase == WantHdr && r'.n == 20 && r'.received >= r.received + |buf| && NoneEmpty(r'.saved)
  {
    hide Stop, Ahead, Used, PutBlocks, Putsec, MeetsEmpty, WirePos;
    NonEmptyBlocksEnd(r.saved, r.received + |buf|);
    AheadIsSubset(r.saved, Stop(r.saved, r.received + |buf|));
  }

  /** One block goes over after a ZRPOS, and both sides are ready again. */
  lemma OneBlockMore(src: seq<byte>, w: Window, disk: Disk, s: Sys, path: seq<Sys>) returns (longer: seq<Sys>)
    requires From(src, w, disk, s, path) && w.txwindow != 1
    requires InFrameAt(End(path), End(path).rx.received) && End(path).tx.lastsync == End(path).rx.received
    requires NoneEmpty(End(path).rx.saved) && End(path).rx.received + Blk(w) < |src|
    ensures From(src, w, disk, s, longer)
    ensures Ready(End(longer)) && End(longer).rx.received > End(path).rx.received
  {
    var p := End(path).rx.received;
    var block := src[p..p + Blk(w)];
    hide From, Inv, TxStep, RxStep;
    BlockStep(src, w, End(path).tx, Blk(w));
    longer := TxOn(src, w, disk, s, path, Sending(Blk(w)));
    BlockTaken(src, disk, End(path).rx, ZCRCW, block);
    var at := End(longer).at;
    assert End(longer).wire[at] == Sub(ZCRCW, block);
    longer := RxOn(src, w, disk, s, longer, Reply(MyError, 0, Got(ZCRCW, block), true, true), at + 1);
  }

  /** The rest of the file fits into one block, and the transfer ends. */
  lemma LastBlock(src: seq<byte>, w: Window, disk: Disk, s: Sys, path: seq<Sys>) returns (longer: seq<Sys>)
    requires From(src, w, disk, s, path) && w.txwindow != 1 && |src| < POSITIONS
    requires var q := End(path);
      InFrameAt(q, q.rx.received) && q.tx.lastsync == q.tx.lrxpos == q.rx.received && NoneEmpty(q.rx.saved)
    requires End(path).rx.received + Blk(w) >= |src|
    ensures From(src, w, disk, s, longer)
    ensures End(longer).rx.phase == Done(FileDone) && End(longer).rx.received == |src|
  {
    var p := End(path).rx.received;
    assert p <= |src|;
    hide From, Inv, TxStep, RxStep;
    BlockStep(src, w, End(path).tx, Blk(w));
    longer := TxOn(src, w, disk, s, path, Sending(Blk(w)));
    BlockTaken(src, disk, End(path).rx, ZCRCE, src[p..]);
    var at := End(longer).at;
    assert End(longer).wire[at] == Sub(ZCRCE, src[p..]);
    longer := RxOn(src, w, disk, s, longer, Reply(MyError, 0, Got(ZCRCE, src[p..]), true, true), at + 1);
    if w.txwindow > 0 {
      RoomAtEnd(src, w, End(longer).tx);
      longer := TxOn(src, w, disk, s, longer, Quiet);
    }
    longer := Finish(src, w, disk, s, longer);
  }

  lemma RoomAtEnd(src: seq<byte>, w: Window, tx: Tx)
    requires tx.phase == WindowCheck && tx.eofSeen && !WindowFull(w, tx) && tx.fpos <= |src|
    ensures TxStep(src, w, tx, Quiet) == Sent(tx.(phase := SendEof), [])
  {
  }

  /** ZEOF is sent and found at the receiver's position. */
  lemma Finish(src: seq<byte>, w: Window, disk: Disk, s: Sys, path: seq<Sys>) returns (longer: seq<Sys>)
    requires From(src, w, disk, s, path) && |src| < POSITIONS
    requires End(path).tx.phase == SendEof && End(path).rx.phase == WantHdr && End(path).rx.received >= |src|
    ensures From(src, w, disk, s, longer)
    ensures End(longer).rx.phase == Done(FileDone) && End(longer).rx.received == |src|
  {
    var q := End(path);
    assert q.at <= |q.wire| && q.rx.received == |src| && q.tx.bytesSent == |src|;
    hide From, Inv;
    longer := TxOn(src, w, disk, s, path, Quiet);
    var at := |End(longer).wire|;
    assert End(longer).wire[at - 1] == Hdr(ZEOF, |src|);
    longer := RxOn(src, w, disk, s, longer, Reply(Type(ZEOF), |src|, DataError, true, true), at);
  }

  lemma Joined(src: seq<byte>, w: Window, disk: Disk, s: Sys, path: seq<Sys>, more: seq<Sys>)
    requires From(src, w, disk, s, path) && From(src, w, disk, End(path), more)
    ensures From(src, w, disk, s, path + more[1..]) && End(path + more[1..]) == End(more)
  {
    hide OrderedNext, Inv;
    var all := path + more[1..];
    forall i | 0 <= i < |all| - 1 ensures OrderedNext(src, w, disk, all[i], all[i + 1]) {
      if i < |path| - 1 {
        assert OrderedNext(src, w, disk, path[i], path[i + 1]);
      } else {
        var k := i - |path| + 1;
        assert all[i] == more[k] && all[i + 1] == more[k + 1];
      }
    }
  }

  /**
    From every state in which the sender waits for a header with the end of the file not yet seen,
    and the receiver can still ask, the transfer can be brought to its end with the whole file
    delivered, whatever was lost before.
   */
  lemma {:induction false} Recovers(src: seq<byte>, w: Window, disk: Disk, s: Sys) returns (path: seq<Sys>)
    requires Inv(src, s) && Ready(s) && |src| < POSITIONS && w.txwindow != 1
    ensures From(src, w, disk, s, path)
    ensures End(path).rx.phase == Done(FileDone) && End(path).rx.received == |src|
    decreases |src| - s.rx.received
  {
    path := Asked(src, w, disk, s);
    path := Answered(src, w, disk, s, path);
    if s.rx.received + Blk(w) < |src| {
      path := OneBlockMore(src, w, disk, s, path);
      var more := Recovers(src, w, disk, End(path));
      Joined(src, w, disk, s, path, more);
      path := path + more[1..];
    } else {
      path := LastBlock(src, w, disk, s, path);
    }
  }

  // ----- Losses while the sender still listens -----

  /**
    In mid-stream, the sender has to wait before it sees the end of the file: the next block asks for
    an answer, or the window is full or can be filled.
   */
  predicate WillListen(src: seq<byte>, w: Window, tx: Tx) {
    && !tx.eofSeen && (tx.phase == SendHeader || tx.phase == Stream || tx.phase == WindowCheck)
    && (|| (tx.phase == WindowCheck && WindowFull(w, tx))
        || (tx.bytesSent + 1 < |src| &&
            (tx.bytesSent == tx.lastsync ||
             (w.txwindow > 0 && (tx.lrxpos > tx.bytesSent + 1 || tx.lrxpos + w.txwindow < |src|)))))
  }

  /** A block that fills the window, if it is not too long, or one byte where it is full already. */
  function Filling(w: Window, tx: Tx): Positive {
    if tx.bytesSent == tx.lastsync || tx.lrxpos > tx.bytesSent + 1 || tx.bytesSent >= tx.lrxpos + w.txwindow then 1
    else Min(1024, tx.lrxpos + w.txwindow - tx.bytesSent)
  }

  lemma FillStep(src: seq<byte>, w: Window, tx: Tx)
    requires WillListen(src, w, tx) && tx.phase == Stream && tx.fpos == tx.bytesSent
    ensures var t := TxStep(src, w, tx, Sending(Filling(w, tx))).tx;
      && !t.eofSeen && t.bytesSent == t.fpos == tx.bytesSent + Filling(w, tx) && t.lrxpos == tx.lrxpos
      && t.lastsync == tx.lastsync && t.phase == (if tx.bytesSent == tx.lastsync then WaitAck else WindowCheck)
  {
  }

  lemma CheckStep(src: seq<byte>, w: Window, tx: Tx)
    requires tx.phase == WindowCheck && !tx.eofSeen && tx.fpos <= |src|
    ensures var t := TxStep(src, w, tx, Quiet).tx;
      && !t.eofSeen && t.bytesSent == tx.bytesSent && t.lrxpos == tx.lrxpos && t.lastsync == tx.lastsync
      && t.phase == (if WindowFull(w, tx) then WindowWait else Stream)
  {
  }

  /** The sender goes on until it has to wait; the receiver gets nothing. */
  lemma {:induction false} FillsWindow(src: seq<byte>, w: Window, disk: Disk, s: Sys, path: seq<Sys>) returns (longer: seq<Sys>)
    requires From(src, w, disk, s, path) && WillListen(src, w, End(path).tx)
    ensures From(src, w, disk, s, longer)
    ensures Listens(End(longer).tx) && End(longer).rx == End(path).rx && End(longer).at == End(path).at
    ensures End(path).tx.lastsync < End(path).tx.bytesSent ==>
      End(longer).tx.lrxpos == End(path).tx.lrxpos && WindowFull(w, End(longer).tx)
    decreases |src| - End(path).tx.bytesSent,
              if End(path).tx.phase == SendHeader then 2 else if End(path).tx.phase == WindowCheck then 1 else 0
  {
    var tx := End(path).tx;
    assert tx.fpos == tx.bytesSent <= |src|;
    hide From, Inv, WirePos;
    if tx.phase == SendHeader {
      longer := TxOn(src, w, disk, s, path, Quiet);
      longer := FillsWindow(src, w, disk, s, longer);
      return;
    }
    hide TxStep;
    if tx.phase == WindowCheck {
      CheckStep(src, w, tx);
      longer := TxOn(src, w, disk, s, path, Quiet);
      if End(longer).tx.phase == Stream {
        longer := FillsWindow(src, w, disk, s, longer);
      }
      return;
    }
    FillStep(src, w, tx);
    longer := TxOn(src, w, disk, s, path, Sending(Filling(w, tx)));
    if End(longer).tx.phase == WindowCheck {
      longer := FillsWindow(src, w, disk, s, longer);
    }
  }

  /**
    A run over a line that keeps order, in whose last state the sender listens or will listen before
    the end, and the receiver can still ask, can be continued until the whole file is delivered.
   */
  lemma LossIsMadeGood(src: seq<byte>, w: Window, disk: Disk, run: seq<Sys>) returns (longer: seq<Sys>)
    requires run != [] && IsOrderedRun(src, w, disk, run) && |src| < POSITIONS && w.txwindow != 1
    requires (Listens(End(run).tx) || WillListen(src, w, End(run).tx)) && CanAsk(End(run).rx)
    ensures longer != [] && IsOrderedRun(src, w, disk, longer) && run <= longer
    ensures End(longer).rx.phase == Done(FileDone) && End(longer).rx.received == |src|
  {
    var s := End(run);
    OrderedRunInv(src, w, disk, run, |run| - 1);
    assert s.rx.saved == [];
    hide From, Inv, OrderInv, OrderedNext, IsPath, CanAsk, Init;
    Stay(src, w, disk, s);
    var path := [s];
    if !Listens(s.tx) {
      path := FillsWindow(src, w, disk, s, path);
    }
    FromInv(src, w, disk, s, path);
    var more := Recovers(src, w, disk, End(path));
    Joined(src, w, disk, s, path, more);
    longer := Continued(src, w, disk, run, path + more[1..]);
  }

  lemma FromInv(src: seq<byte>, w: Window, disk: Disk, s: Sys, path: seq<Sys>)
    requires From(src, w, disk, s, path)
    ensures path != [] && Inv(src, End(path))
  {
  }

  lemma Continued(src: seq<byte>, w: Window, disk: Disk, run: seq<Sys>, path: seq<Sys>) returns (longer: seq<Sys>)
    requires run != [] && IsOrderedRun(src, w, disk, run) && From(src, w, disk, End(run), path)
    ensures longer != [] && IsOrderedRun(src, w, disk, longer) && run <= longer && End(longer) == End(path)
  {
    hide OrderedNext, Inv, Init;
    longer := run + path[1..];
    forall i | 0 <= i < |longer| - 1 ensures OrderedNext(src, w, disk, longer[i], longer[i + 1]) {
      if i < |run| - 1 {
        assert OrderedNext(src, w, disk, run[i], run[i + 1]);
      } else {
        var k := i - |run| + 1;
        assert longer[i] == path[k] && longer[i + 1] == path[k + 1];
      }
    }
  }

  /** The sender has been told where to start, and nothing has reached the receiver. */
  lemma Started(src: seq<byte>, w: Window, disk: Disk, k: nat) returns (run: seq<Sys>)
    requires k + 1 < |src| < POSITIONS && 0 < w.txwindow < |src|
    ensures run != [] && IsOrderedRun(src, w, disk, run) && WillListen(src, w, End(run).tx) && CanAsk(End(run).rx)
    ensures End(run).rx.received == k && End(run).at == -1
    ensures End(run).tx.lastsync < End(run).tx.bytesSent && End(run).tx.lrxpos == 0
  {
    var sink := Sink(true, src[..k], false, 0, false);
    assert Holds(sink, src[..k]);
    var s := Sys(TxInit, [], RxInit(sink, k), -1);
    assert Init(src, s);
    InitInv(src, s);
    hide From, Inv, IsPath, OrderedNext, Init;
    run := [s];
    Stay(src, w, disk, s);
    var path := TxOn(src, w, disk, s, run, Input(Type(ZRPOS), k, false, 1, true, 0));
    run := Continued(src, w, disk, run, path);
  }

  /**
    So for every file larger than the window there is a run in which a whole window is sent, none
    of it reaches the receiver, and the file is delivered all the same.
   */
  lemma WindowLostAndDelivered(src: seq<byte>, w: Window, disk: Disk, k: nat) returns (run: seq<Sys>, i: nat)
    requires k + 1 < |src| < POSITIONS && 1 < w.txwindow < |src|
    ensures run != [] && IsOrderedRun(src, w, disk, run) && i < |run|
    ensures run[i].tx.bytesSent >= w.txwindow && run[i].rx.received == k && run[i].at == -1
    ensures End(run).rx.phase == Done(FileDone) && End(run).rx.received == |src|
  {
    run := Started(src, w, disk, k);
    OrderedRunInv(src, w, disk, run, |run| - 1);
    hide IsOrderedRun, From, IsPath, Inv, OrderInv, Listens;
    Stay(src, w, disk, End(run));
    var path := FillsWindow(src, w, disk, End(run), [End(run)]);
    run := Continued(src, w, disk, run, path);
    i := |run| - 1;
    run := LossIsMadeGood(src, w, disk, run);
  }
}
