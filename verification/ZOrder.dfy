/** On a line that keeps the order of frames, the receiver's restart loop always ends. */
module ZOrder {
  import opened Basics
  import opened ZEscape
  import opened ZReader
  import opened ZSavedBlocks
  import opened ZReceiveFile
  import opened ZSendFile
  import opened ZTransfer
  import opened ZPosition

  // ----- Runs over a line that keeps order -----

  /** The receiver never reads behind what it has read, and a ZACK that reaches the sender is one the receiver sent. */
  ghost predicate OrderedNext(src: seq<byte>, w: Window, disk: Disk, s: Sys, s': Sys) {
    || (exists e :: TxMoves(src, w, s, s', e) && (e.code == Type(ZACK) ==> Msg(ZACK, e.pos) in s.rx.sent))
    || (exists e, at :: RxMoves(disk, s, s', e, at) && at >= s.at)
  }

  ghost predicate IsOrderedRun(src: seq<byte>, w: Window, disk: Disk, run: seq<Sys>) {
    && run != [] && Init(src, run[0])
    && forall i :: 0 <= i < |run| - 1 ==> OrderedNext(src, w, disk, run[i], run[i + 1])
  }

  // ----- The invariant -----

  predicate IsData(item: Item) {
    item.Hdr? && item.t == ZDATA
  }

  /** From item `j` on, every ZDATA frame is one for the end of the file, with an empty block. */
  ghost predicate OnlyEnds(src: seq<byte>, wire: seq<Item>, j: int) {
    forall i :: 0 <= i < |wire| && j <= i && IsData(wire[i]) ==>
      && wire[i].pos == WirePos(|src|)
      && (i + 1 < |wire| ==> wire[i + 1].Sub? && wire[i + 1].buf == [])
  }

  /** A frame the receiver is not ready for was sent after the end of the file had been seen. */
  ghost predicate AheadAreEnds(src: seq<byte>, s: Sys) {
    forall j :: 0 <= j < |s.wire| && IsData(s.wire[j]) && s.wire[j].pos > s.rx.received ==>
      s.tx.eofSeen && OnlyEnds(src, s.wire, j)
  }

  /** Saved blocks are those of such frames, the receiver is short of the end, and nothing else is still to come. */
  ghost predicate SavedAreEnds(src: seq<byte>, s: Sys) {
    s.rx.saved != [] ==>
      && s.tx.eofSeen && s.rx.received < WirePos(|src|)
      && (forall b :: b in s.rx.saved ==> b.pos == WirePos(|src|))
      && OnlyEnds(src, s.wire, s.at - 1)
  }

  ghost predicate OrderInv(src: seq<byte>, s: Sys) {
    && (s.tx.phase == SendHeader && !s.tx.eofSeen ==> s.tx.bytesSent <= s.rx.received)
    && (s.wire != [] && IsData(s.wire[|s.wire| - 1]) ==> s.tx.phase == Stream)
    && AheadAreEnds(src, s)
    && (s.rx.phase.SaveData? ==> 0 < s.at <= |s.wire| && s.wire[s.at - 1] == Hdr(ZDATA, s.rx.phase.pos))
    && SavedAreEnds(src, s)
    && (s.rx.phase == MoreData ==> s.rx.saved == [])
    && s.rx.phase != Hung
  }

  // ----- The sender -----

  /** What a step of the sender puts on the line, as far as order matters. */
  lemma TxSends(src: seq<byte>, w: Window, tx: Tx, e: Input, end: Where, received: nat)
    requires TxGood(src, tx, end) && GenuineInput(src, e)
    requires e.code == Type(ZRPOS) || e.code == Type(ZACK) ==> e.pos <= received
    requires tx.phase == SendHeader && !tx.eofSeen ==> tx.bytesSent <= received
    ensures var s := TxStep(src, w, tx, e);
      && (tx.eofSeen ==> s.tx.eofSeen)
      && (s.tx.phase == SendHeader && !s.tx.eofSeen ==> s.tx.bytesSent <= received)
      && (tx.phase == Stream ==> |s.items| == 1 && s.items[0].Sub? && (tx.eofSeen ==> s.items[0].buf == []))
      && (tx.phase == SendHeader ==>
            && s.tx.phase == Stream && |s.items| == 1 && IsData(s.items[0])
            && (if tx.eofSeen then s.items[0].pos == WirePos(|src|) else s.items[0].pos <= received))
      && (tx.phase != SendHeader ==> forall i :: 0 <= i < |s.items| ==> !IsData(s.items[i]))
  {
    hide WirePos;
  }

  lemma OnlyEndsGrows(src: seq<byte>, wire: seq<Item>, items: seq<Item>, j: int)
    requires OnlyEnds(src, wire, j)
    requires forall i :: 0 <= i < |items| && IsData(items[i]) ==>
      items[i].pos == WirePos(|src|) && (i + 1 < |items| ==> items[i + 1].Sub? && items[i + 1].buf == [])
    requires wire != [] && IsData(wire[|wire| - 1]) && items != [] ==> items[0].Sub? && items[0].buf == []
    ensures OnlyEnds(src, wire + items, j)
  {
    hide WirePos;
    var all := wire + items;
    forall i | 0 <= i < |all| && j <= i && IsData(all[i])
      ensures all[i].pos == WirePos(|src|) && (i + 1 < |all| ==> all[i + 1].Sub? && all[i + 1].buf == [])
    {
      if i >= |wire| {
        assert all[i] == items[i - |wire|];
      } else {
        assert all[i] == wire[i];
      }
    }
  }

  lemma TxKeepsOrder(src: seq<byte>, w: Window, s: Sys, s': Sys, e: Input)
    requires Inv(src, s) && OrderInv(src, s) && TxMoves(src, w, s, s', e)
    requires e.code == Type(ZACK) ==> Msg(ZACK, e.pos) in s.rx.sent
    ensures OrderInv(src, s')
  {
    hide TxStep, TrueWire, Holds, WirePos, OnlyEnds;
    var end := WireAt(s.wire, |s.wire|);
    TxFpos(src, s.tx, end);
    TxSends(src, w, s.tx, e, end, s.rx.received);
    var items := TxStep(src, w, s.tx, e).items;
    if s.tx.eofSeen {
      forall j | OnlyEnds(src, s.wire, j) ensures OnlyEnds(src, s'.wire, j) {
        OnlyEndsGrows(src, s.wire, items, j);
      }
    }
    forall j | 0 <= j < |s'.wire| && IsData(s'.wire[j]) && s'.wire[j].pos > s.rx.received
      ensures s'.tx.eofSeen && OnlyEnds(src, s'.wire, j)
    {
      if j >= |s.wire| {
        assert s'.wire[j] == items[j - |s.wire|];
        LastIsEnd(src, s'.wire, j);
      } else {
        assert s'.wire[j] == s.wire[j];
      }
    }
  }

  lemma LastIsEnd(src: seq<byte>, wire: seq<Item>, j: nat)
    requires j == |wire| - 1 && (IsData(wire[j]) ==> wire[j].pos == WirePos(|src|))
    ensures OnlyEnds(src, wire, j)
  {
    hide WirePos;
  }

  // ----- The receiver -----

  /** With no block saved for the position it is at, the loop does nothing but drop blocks it is past. */
  lemma NothingToUse(disk: Disk, r: Rx)
    requires forall b :: b in r.saved ==> b.pos != r.received
    ensures NextHdr(disk, r) == r.(saved := Ahead(r.saved, r.received), phase := WantHdr)
    ensures forall b :: b in Ahead(r.saved, r.received) ==> b in r.saved
  {
    hide Ahead;
    assert FirstAt(r.saved, r.received) == |r.saved| by {
      NotFound(r.saved, r.received);
    }
    AheadIsSubset(r.saved, r.received);
  }

  lemma {:induction false} NotFound(bs: seq<Block>, r: nat)
    requires forall b :: b in bs ==> b.pos != r
    ensures FirstAt(bs, r) == |bs|
  {
    if bs != [] {
      assert bs[0] in bs;
      NotFound(bs[1..], r);
    }
  }

  lemma OnlyEndsLater(src: seq<byte>, wire: seq<Item>, j: int, k: int)
    requires OnlyEnds(src, wire, j) && j <= k
    ensures OnlyEnds(src, wire, k)
  {
    hide WirePos;
  }

  lemma EndHeader(src: seq<byte>, wire: seq<Item>, j: int, i: nat)
    requires OnlyEnds(src, wire, j) && j <= i < |wire| && IsData(wire[i])
    ensures wire[i].pos == WirePos(|src|)
  {
  }

  /** What is ahead of a receiver that has moved on was ahead of it before. */
  lemma StillAhead(src: seq<byte>, s: Sys, s': Sys)
    requires AheadAreEnds(src, s) && s'.tx == s.tx && s'.wire == s.wire && s'.rx.received >= s.rx.received
    ensures AheadAreEnds(src, s')
  {
    hide OnlyEnds;
  }

  lemma HeaderKeepsOrder(src: seq<byte>, disk: Disk, s: Sys, e: Reply, at: int)
    requires OrderInv(src, s) && Delivers(s, e, at) && at >= s.at && s.rx.phase == WantHdr
    ensures OrderInv(src, s.(rx := OnHeader(disk, s.rx, e), at := at))
  {
    hide WirePos, NextHdr, Ahead, OnlyEnds;
    var s' := s.(rx := OnHeader(disk, s.rx, e), at := at);
    NothingToUse(disk, s.rx);
    NoneAhead(s.rx.received);
    StillAhead(src, s, s');
    if s.rx.saved != [] {
      OnlyEndsLater(src, s.wire, s.at - 1, at - 1);
      if e.code == Type(ZDATA) {
        EndHeader(src, s.wire, s.at - 1, at - 1);
      }
    }
  }

  lemma DataKeepsOrder(src: seq<byte>, disk: Disk, s: Sys, e: Reply, at: int)
    requires OrderInv(src, s) && at >= s.at && s.rx.phase == MoreData
    ensures OrderInv(src, s.(rx := OnMoreData(disk, s.rx, e.data), at := at))
  {
    hide WirePos, NextHdr, Putsec, Ahead, OnlyEnds;
    var s' := s.(rx := OnMoreData(disk, s.rx, e.data), at := at);
    if e.data.Got? {
      var r := Accept(disk, s.rx, e.data.buf);
      NothingToUse(disk, r);
      NothingToUse(disk, Acked(r, ZACK));
    }
    StillAhead(src, s, s');
    assert s'.rx.saved == [] by { NoneAhead(s.rx.received); if e.data.Got? { NoneAhead(s.rx.received + |e.data.buf|); } }
  }

  lemma NoneAhead(r: nat)
    ensures Ahead([], r) == []
  {
  }

  lemma SaveKeepsOrder(src: seq<byte>, s: Sys, e: Reply, at: int)
    requires OrderInv(src, s) && Delivers(s, e, at) && at >= s.at && s.rx.phase.SaveData?
    ensures OrderInv(src, s.(rx := OnSaveData(s.rx, s.rx.phase.pos, e), at := at))
  {
    hide WirePos;
    var s' := s.(rx := OnSaveData(s.rx, s.rx.phase.pos, e), at := at);
    StillAhead(src, s, s');
    assert IsData(s.wire[s.at - 1]);
    if s.rx.phase.pos > s.rx.received {
      OnlyEndsLater(src, s.wire, s.at - 1, at - 1);
    }
    if s.rx.saved != [] {
      OnlyEndsLater(src, s.wire, s.at - 1, at - 1);
    }
  }

  lemma RxKeepsOrder(src: seq<byte>, disk: Disk, s: Sys, s': Sys, e: Reply, at: int)
    requires OrderInv(src, s) && RxMoves(disk, s, s', e, at) && at >= s.at
    ensures OrderInv(src, s')
  {
    hide WirePos, OnHeader, OnMoreData, OnSaveData, OnlyEnds;
    match s.rx.phase
    case WantHdr => HeaderKeepsOrder(src, disk, s, e, at);
    case MoreData => DataKeepsOrder(src, disk, s, e, at);
    case SaveData(_) => SaveKeepsOrder(src, s, e, at);
    case SkipData => MovesOn(src, s, s');
    case Done(_) => MovesOn(src, s, s');
  }

  /** Reading further on the same line, with nothing new accepted or saved. */
  lemma MovesOn(src: seq<byte>, s: Sys, s': Sys)
    requires OrderInv(src, s) && s'.tx == s.tx && s'.wire == s.wire && s'.at >= s.at
    requires s'.rx.received == s.rx.received && s'.rx.saved == s.rx.saved
    requires s'.rx.phase == WantHdr || s'.rx.phase.Done?
    ensures OrderInv(src, s')
  {
    hide WirePos, OnlyEnds;
    StillAhead(src, s, s');
    if s.rx.saved != [] {
      OnlyEndsLater(src, s.wire, s.at - 1, s'.at - 1);
    }
  }

  // ----- Whole runs -----

  lemma InitOrder(src: seq<byte>, s: Sys)
    requires Init(src, s)
    ensures OrderInv(src, s)
  {
    hide Holds;
  }

  lemma {:induction false} OrderedRunInv(src: seq<byte>, w: Window, disk: Disk, run: seq<Sys>, i: nat)
    requires IsOrderedRun(src, w, disk, run) && i < |run|
    ensures Inv(src, run[i]) && OrderInv(src, run[i])
  {
    hide Inv, OrderInv, Init, TxMoves, RxMoves;
    if i == 0 {
      InitInv(src, run[0]);
      InitOrder(src, run[0]);
    } else {
      var s, s' := run[i - 1], run[i];
      OrderedRunInv(src, w, disk, run, i - 1);
      assert OrderedNext(src, w, disk, s, s');
      if e :| TxMoves(src, w, s, s', e) && (e.code == Type(ZACK) ==> Msg(ZACK, e.pos) in s.rx.sent) {
        TxMovesKeep(src, w, s, s', e);
        TxKeepsOrder(src, w, s, s', e);
      } else {
        var e, at :| RxMoves(disk, s, s', e, at) && at >= s.at;
        RxMovesKeep(src, disk, s, s', e, at);
        RxKeepsOrder(src, disk, s, s', e, at);
      }
    }
  }

  /** On a line that keeps order, no run hangs, for files of any size. */
  lemma OrderedNeverHangs(src: seq<byte>, w: Window, disk: Disk, run: seq<Sys>, i: nat)
    requires IsOrderedRun(src, w, disk, run) && i < |run|
    ensures run[i].rx.phase != Hung
  {
    hide IsOrderedRun;
    OrderedRunInv(src, w, disk, run, i);
  }

  /** Such runs are among the runs the safety of a transfer is about. */
  lemma OrderedIsRun(src: seq<byte>, w: Window, disk: Disk, run: seq<Sys>)
    requires IsOrderedRun(src, w, disk, run)
    ensures IsRun(src, w, disk, run)
  {
    hide Init, TxMoves, RxMoves;
    forall i | 0 <= i < |run| - 1 ensures Next(src, w, disk, run[i], run[i + 1]) {
      assert OrderedNext(src, w, disk, run[i], run[i + 1]);
    }
  }
}
