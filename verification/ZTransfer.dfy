/** Sender, line and receiver together: safety of a whole file transfer. */
module ZTransfer {
  import opened Basics
  import opened ZEscape
  import opened ZReader
  import opened ZSavedBlocks
  import opened ZReceiveFile
  import opened ZSendFile
  import opened ZPosition

  /**
    `wire` is everything the sender has emitted. The line may lose, repeat, delay or
    damage frames: the receiver's header hunt may come up with any ZDATA or ZEOF header
    of `wire`, or with nothing, or with some other header. Inside a frame nothing
    vanishes silently: `at` is the item right after the last one read, and data that
    passes its check is that very item. Nothing is read that has not been sent.
   */
  datatype Sys = Sys(tx: Tx, wire: seq<Item>, rx: Rx, at: int)

  ghost predicate Init(src: seq<byte>, s: Sys) {
    && s.tx == TxInit && s.wire == [] && s.at == -1
    && exists sink, k: nat :: k <= |src| && Holds(sink, src[..k]) && s.rx == RxInit(sink, k)
  }

  /** A header of the sender's whose position matters to the receiver. */
  predicate Located(code: Code) {
    code == Type(ZDATA) || code == Type(ZEOF)
  }

  ghost predicate Delivers(s: Sys, e: Reply, at: int) {
    match s.rx.phase
    case WantHdr =>
      Located(e.code) ==> 0 < at <= |s.wire| && s.wire[at - 1] == Hdr(e.code.t, e.pos)
    case MoreData =>
      e.data.Got? ==> 0 <= s.at < |s.wire| && s.wire[s.at] == Sub(e.data.fe, e.data.buf) && at == s.at + 1
    case SaveData(_) =>
      e.data.Got? ==> 0 <= s.at < |s.wire| && s.wire[s.at] == Sub(e.data.fe, e.data.buf)
    case SkipData => true
    case Hung => true
    case Done(_) => true
  }

  /** A ZRPOS the sender reads is one the receiver sent; other headers may be anything that four bytes can say. */
  ghost predicate Answers(s: Sys, e: Input) {
    e.pos < POSITIONS && (e.code == Type(ZRPOS) ==> Msg(ZRPOS, e.pos) in s.rx.sent)
  }

  ghost predicate TxMoves(src: seq<byte>, w: Window, s: Sys, s': Sys, e: Input) {
    && s.tx.fpos <= |src| && Answers(s, e)
    && var r := TxStep(src, w, s.tx, e);
       s' == s.(tx := r.tx, wire := s.wire + r.items)
  }

  ghost predicate RxMoves(disk: Disk, s: Sys, s': Sys, e: Reply, at: int) {
    && at <= |s.wire| && Delivers(s, e, at)
    && s' == s.(rx := RxStep(disk, s.rx, e), at := at)
  }

  ghost predicate Next(src: seq<byte>, w: Window, disk: Disk, s: Sys, s': Sys) {
    || (exists e :: TxMoves(src, w, s, s', e))
    || (exists e, at :: RxMoves(disk, s, s', e, at))
  }

  // ----- The invariant -----

  /** The receiver reads at the position it believes in. */
  ghost predicate Aligned(s: Sys) {
    match s.rx.phase
    case MoreData => 0 <= s.at <= |s.wire| && WireAt(s.wire, s.at) == At(s.rx.received)
    case SaveData(pos) => 0 <= s.at <= |s.wire| && WireAt(s.wire, s.at) == At(pos)
    case WantHdr => true
    case SkipData => true
    case Hung => true
    case Done(_) => true
  }

  ghost predicate Inv(src: seq<byte>, s: Sys) {
    && TxGood(src, s.tx, WireAt(s.wire, |s.wire|))
    && TrueWire(src, s.wire)
    && RxGood(src, s.rx)
    && Aligned(s)
    && s.at <= |s.wire|
  }

  lemma InitInv(src: seq<byte>, s: Sys)
    requires Init(src, s)
    ensures Inv(src, s)
  {
    hide Holds;
    var sink, k: nat :| k <= |src| && Holds(sink, src[..k]) && s.rx == RxInit(sink, k);
  }

  lemma {:induction false} WireAtPrefix(wire: seq<Item>, more: seq<Item>, i: nat)
    requires i <= |wire|
    ensures WireAt(wire + more, i) == WireAt(wire, i)
  {
    if i > 0 {
      WireAtPrefix(wire, more, i - 1);
    }
  }

  lemma {:induction false} WireGrows(src: seq<byte>, wire: seq<Item>, items: seq<Item>)
    requires TrueWire(src, wire) && TrueItems(src, items, WireAt(wire, |wire|))
    ensures TrueWire(src, wire + items)
    ensures WireAt(wire + items, |wire + items|) == WhereAfter(items, WireAt(wire, |wire|))
    decreases items
  {
    hide TrueItem, After;
    if items == [] {
      assert wire + items == wire;
    } else {
      var one := wire + [items[0]];
      forall i | 0 <= i <= |wire| ensures WireAt(one, i) == WireAt(wire, i) {
        WireAtPrefix(wire, [items[0]], i);
      }
      assert WireAt(one, |one|) == After(items[0], WireAt(wire, |wire|));
      WireGrows(src, one, items[1..]);
      assert one + items[1..] == wire + items;
    }
  }

  lemma TxMovesKeep(src: seq<byte>, w: Window, s: Sys, s': Sys, e: Input)
    requires Inv(src, s) && TxMoves(src, w, s, s', e)
    ensures Inv(src, s')
  {
    hide TxStep, TxGood, TrueWire, TrueItems, WhereAfter, Holds;
    var end := WireAt(s.wire, |s.wire|);
    assert GenuineInput(src, e);
    TxFpos(src, s.tx, end);
    TxStepKeeps(src, w, s.tx, e, end);
    WireGrows(src, s.wire, TxStep(src, w, s.tx, e).items);
    if 0 <= s.at <= |s.wire| {
      WireAtPrefix(s.wire, TxStep(src, w, s.tx, e).items, s.at);
    }
  }

  lemma TxFpos(src: seq<byte>, tx: Tx, end: Where)
    requires TxGood(src, tx, end)
    ensures tx.fpos <= |src|
  {
  }

  lemma WireItem(src: seq<byte>, wire: seq<Item>, i: nat)
    requires TrueWire(src, wire) && i < |wire|
    ensures TrueItem(src, wire[i], WireAt(wire, i))
  {
  }

  lemma RxMovesKeep(src: seq<byte>, disk: Disk, s: Sys, s': Sys, e: Reply, at: int)
    requires Inv(src, s) && RxMoves(disk, s, s', e, at)
    ensures Inv(src, s')
  {
    hide RxGood, TxGood, TrueWire;
    DeliversGenuine(src, s, e, at);
    RxStepKeeps(src, disk, s.rx, e);
    StaysAligned(disk, s, e, at);
  }

  lemma DeliversGenuine(src: seq<byte>, s: Sys, e: Reply, at: int)
    requires TrueWire(src, s.wire) && Aligned(s) && Delivers(s, e, at)
    ensures Genuine(src, s.rx, e)
  {
    hide TrueWire, WireAt;
    match s.rx.phase
    case WantHdr =>
      if Located(e.code) {
        WireItem(src, s.wire, at - 1);
      }
    case MoreData =>
      if e.data.Got? {
        WireItem(src, s.wire, s.at);
      }
    case SaveData(_) =>
      if e.data.Got? {
        WireItem(src, s.wire, s.at);
      }
    case SkipData =>
    case Hung =>
    case Done(_) =>
  }

  lemma StaysAligned(disk: Disk, s: Sys, e: Reply, at: int)
    requires Aligned(s) && Delivers(s, e, at)
    ensures Aligned(s.(rx := RxStep(disk, s.rx, e), at := at))
  {
    hide PutBlocks, Putsec, Stop, Used, MeetsEmpty, Ahead;
  }

  lemma NextKeeps(src: seq<byte>, w: Window, disk: Disk, s: Sys, s': Sys)
    requires Inv(src, s) && Next(src, w, disk, s, s')
    ensures Inv(src, s')
  {
    hide Inv, TxMoves, RxMoves;
    if e :| TxMoves(src, w, s, s', e) {
      TxMovesKeep(src, w, s, s', e);
    } else {
      var e, at :| RxMoves(disk, s, s', e, at);
      RxMovesKeep(src, disk, s, s', e, at);
    }
  }

  // ----- Whole runs -----

  ghost predicate IsRun(src: seq<byte>, w: Window, disk: Disk, run: seq<Sys>) {
    && run != [] && Init(src, run[0])
    && forall i :: 0 <= i < |run| - 1 ==> Next(src, w, disk, run[i], run[i + 1])
  }

  lemma {:induction false} RunInv(src: seq<byte>, w: Window, disk: Disk, run: seq<Sys>, i: nat)
    requires IsRun(src, w, disk, run) && i < |run|
    ensures Inv(src, run[i])
  {
    hide Inv, Next, Init;
    if i == 0 {
      InitInv(src, run[0]);
    } else {
      RunInv(src, w, disk, run, i - 1);
      NextKeeps(src, w, disk, run[i - 1], run[i]);
    }
  }

  /**
    In every state of every run, for files of any size: the output is the image of the first
    `bytes_received` bytes of the source exactly as long as no write has fallen short; the
    sender reads its file at `bytes_sent`; and no ZRPOS asks for more than has been received.
   */
  lemma TransferSafety(src: seq<byte>, w: Window, disk: Disk, run: seq<Sys>, i: nat)
    requires IsRun(src, w, disk, run) && i < |run|
    ensures var s := run[i];
            && s.rx.received <= |src|
            && (s.rx.sink.out == Image(s.rx.sink.binary, src[..s.rx.received]) <==> !s.rx.sink.lost)
            && (s.tx.phase != TxDone ==> s.tx.fpos == s.tx.bytesSent <= |src|)
            && (forall m :: m in s.rx.sent ==> m.pos <= s.rx.received)
  {
    hide IsRun;
    RunInv(src, w, disk, run, i);
  }

  /** Success means that the number of bytes received is the file size as four bytes show it. */
  lemma DeliveredSize(src: seq<byte>, w: Window, disk: Disk, run: seq<Sys>, i: nat)
    requires IsRun(src, w, disk, run) && i < |run| && run[i].rx.phase == Done(FileDone)
    ensures run[i].rx.received == |src| % POSITIONS
  {
    hide IsRun, WirePos;
    RunInv(src, w, disk, run, i);
  }

  /**
    For files below 2^32 bytes, `rzfile` reports success only with the whole file received, and
    written unless a write fell short.
   */
  lemma DeliveredFileIsWhole(src: seq<byte>, w: Window, disk: Disk, run: seq<Sys>, i: nat)
    requires |src| < POSITIONS
    requires IsRun(src, w, disk, run) && i < |run| && run[i].rx.phase == Done(FileDone)
    ensures run[i].rx.received == |src|
    ensures run[i].rx.sink.out == Image(run[i].rx.sink.binary, src) <==> !run[i].rx.sink.lost
  {
    hide IsRun;
    DeliveredSize(src, w, disk, run, i);
    RunInv(src, w, disk, run, i);
    assert src[..|src|] == src;
  }
}
