/** Runs of sender, line and receiver that show where the guarantees of a transfer end. */
module ZWitness {
  import opened Basics
  import opened ZEscape
  import opened ZReader
  import opened ZSavedBlocks
  import opened ZReceiveFile
  import opened ZSendFile
  import opened ZTransfer
  import opened ZPosition

  ghost predicate Run(src: seq<byte>, w: Window, disk: Disk, run: seq<Sys>) {
    run != [] && IsRun(src, w, disk, run)
  }

  lemma Extend(src: seq<byte>, w: Window, disk: Disk, run: seq<Sys>, s: Sys)
    requires Run(src, w, disk, run) && Next(src, w, disk, run[|run| - 1], s)
    ensures Run(src, w, disk, run + [s])
  {
    hide Init, Next;
  }

  function LastOf(run: seq<Sys>): Sys
    requires run != []
  {
    run[|run| - 1]
  }

  /** One step of the sender, appended to a run. */
  lemma TxGoes(src: seq<byte>, w: Window, disk: Disk, run: seq<Sys>, e: Input) returns (longer: seq<Sys>)
    requires Run(src, w, disk, run) && LastOf(run).tx.fpos <= |src| && Answers(LastOf(run), e)
    ensures Run(src, w, disk, longer)
    ensures var r := TxStep(src, w, LastOf(run).tx, e);
            LastOf(longer) == LastOf(run).(tx := r.tx, wire := LastOf(run).wire + r.items)
    ensures |longer| == |run| + 1
  {
    hide TxStep, Init;
    var s := LastOf(run);
    var r := TxStep(src, w, s.tx, e);
    var s' := s.(tx := r.tx, wire := s.wire + r.items);
    assert TxMoves(src, w, s, s', e);
    Extend(src, w, disk, run, s');
    longer := run + [s'];
  }

  /** One read of the receiver, appended to a run. */
  lemma RxGoes(src: seq<byte>, w: Window, disk: Disk, run: seq<Sys>, e: Reply, at: int) returns (longer: seq<Sys>)
    requires Run(src, w, disk, run) && at <= |LastOf(run).wire| && Delivers(LastOf(run), e, at)
    ensures Run(src, w, disk, longer)
    ensures LastOf(longer) == LastOf(run).(rx := RxStep(disk, LastOf(run).rx, e), at := at)
    ensures |longer| == |run| + 1
  {
    hide RxStep, Init, Delivers;
    var s := LastOf(run);
    var s' := s.(rx := RxStep(disk, s.rx, e), at := at);
    assert RxMoves(disk, s, s', e, at);
    Extend(src, w, disk, run, s');
    longer := run + [s'];
  }

  const NoWindow: Window := Window(0, 0)

  /** A read that is not looked at. */
  const Unread: Input := Input(TimedOut, 0, false, 1024, true, 0)

  /** A receiver that already holds the first `k` bytes, and a sender about to start. */
  lemma Start(src: seq<byte>, disk: Disk, k: nat) returns (run: seq<Sys>)
    requires k <= |src|
    ensures Run(src, NoWindow, disk, run)
    ensures LastOf(run) == Sys(TxInit, [], RxInit(Sink(true, src[..k], false, 0, false), k), -1)
  {
    var sink := Sink(true, src[..k], false, 0, false);
    assert Holds(sink, src[..k]);
    run := [Sys(TxInit, [], RxInit(sink, k), -1)];
    assert Init(src, run[0]);
  }

  /** The sender answers the ZRPOS for `k` with a ZDATA header for it. */
  lemma StartAt(src: seq<byte>, disk: Disk, k: nat) returns (run: seq<Sys>)
    requires k <= |src| && k < POSITIONS
    ensures Run(src, NoWindow, disk, run)
    ensures var s := LastOf(run);
      && s.tx == Tx(k, k, false, 0, k - 1, 0, 0, Stream) && s.wire == [Hdr(ZDATA, k)] && s.at == -1
      && s.rx == RxInit(Sink(true, src[..k], false, 0, false), k)
  {
    hide IsRun, WirePos;
    run := Start(src, disk, k);
    run := TxGoes(src, NoWindow, disk, run, Input(Type(ZRPOS), k, false, 1024, true, 0));
    assert LastOf(run).wire == [];
    run := TxGoes(src, NoWindow, disk, run, Unread);
  }

  // ----- A file too large for four bytes -----

  /** The subpackets that carry a file from position `p` on in one frame, in blocks of 1024 bytes. */
  function Cut(src: seq<byte>, p: nat): seq<Item>
    requires p <= |src|
    decreases |src| - p
  {
    if |src| - p <= 1024 then [Sub(ZCRCE, src[p..])] else [Sub(ZCRCG, src[p..p + 1024])] + Cut(src, p + 1024)
  }

  /** From inside a frame the sender streams to the end of the file, whatever its size. */
  lemma {:induction false} StreamOut(src: seq<byte>, disk: Disk, run: seq<Sys>) returns (longer: seq<Sys>)
    requires Run(src, NoWindow, disk, run)
    requires var tx := LastOf(run).tx;
      tx.phase == Stream && !tx.eofSeen && tx.lastsync < tx.fpos == tx.bytesSent <= |src|
    ensures Run(src, NoWindow, disk, longer)
    ensures LastOf(longer).rx == LastOf(run).rx && LastOf(longer).at == LastOf(run).at
    ensures LastOf(longer).wire == LastOf(run).wire + Cut(src, LastOf(run).tx.fpos)
    ensures var tx := LastOf(longer).tx; tx.phase == SendEof && tx.eofSeen && tx.fpos == tx.bytesSent == |src|
    decreases |src| - LastOf(run).tx.fpos
  {
    hide IsRun, TxStep, Cut;
    var s := LastOf(run);
    var p := s.tx.fpos;
    OneBlock(src, s.tx);
    CutStep(src, p);
    longer := TxGoes(src, NoWindow, disk, run, Unread);
    if |src| - p > 1024 {
      longer := StreamOut(src, disk, longer);
      ItemsAssoc(s.wire, [Sub(ZCRCG, src[p..p + 1024])], Cut(src, p + 1024));
    }
  }

  lemma CutStep(src: seq<byte>, p: nat)
    requires p <= |src|
    ensures Cut(src, p) == if |src| - p <= 1024 then [Sub(ZCRCE, src[p..])]
                           else [Sub(ZCRCG, src[p..p + 1024])] + Cut(src, p + 1024)
  {
  }

  lemma ItemsAssoc(a: seq<Item>, b: seq<Item>, c: seq<Item>)
    ensures (a + b) + c == a + (b + c)
  {
  }

  /** One turn of the send loop without a window. */
  lemma OneBlock(src: seq<byte>, tx: Tx)
    requires tx.phase == Stream && !tx.eofSeen && tx.lastsync < tx.fpos == tx.bytesSent <= |src|
    ensures var s := TxStep(src, NoWindow, tx, Unread); var p := tx.fpos;
      if |src| - p <= 1024 then
        s.items == [Sub(ZCRCE, src[p..])] && s.tx.phase == SendEof && s.tx.eofSeen && s.tx.fpos == s.tx.bytesSent == |src|
      else
        s.items == [Sub(ZCRCG, src[p..p + 1024])] && s.tx.phase == Stream && !s.tx.eofSeen
          && s.tx.fpos == s.tx.bytesSent == p + 1024 && s.tx.lastsync == tx.lastsync
  {
    assert src[tx.fpos..|src|] == src[tx.fpos..];
  }

  /**
    For every file of at least 2^32 bytes there is a run in which `rzfile` reports success with
    only the size modulo 2^32 received: the ZEOF header cannot show the rest of the size.
   */
  lemma OversizeRun(src: seq<byte>, disk: Disk) returns (run: seq<Sys>)
    requires |src| >= POSITIONS
    ensures Run(src, NoWindow, disk, run)
    ensures LastOf(run).rx.phase == Done(FileDone) && LastOf(run).rx.received < |src|
  {
    hide IsRun, WirePos;
    var k := WirePos(|src|);
    run := StartAt(src, disk, k);
    run := StreamOut(src, disk, run);
    run := TxGoes(src, NoWindow, disk, run, Unread);
    var s := LastOf(run);
    run := RxGoes(src, NoWindow, disk, run, Reply(Type(ZEOF), k, DataError, true, true), |s.wire|);
  }

  /** Success means the whole file, in every run for files of this size. */
  ghost predicate SuccessIsWhole(size: nat) {
    forall src: seq<byte>, w: Window, disk: Disk, run: seq<Sys>, i: nat ::
      |src| == size && IsRun(src, w, disk, run) && i < |run| && run[i].rx.phase == Done(FileDone) ==>
        run[i].rx.received == |src|
  }

  /** And that is so exactly for the sizes four bytes can show. */
  lemma SuccessIsWholeExactly(size: nat)
    ensures SuccessIsWhole(size) <==> size < POSITIONS
  {
    hide IsRun;
    if size < POSITIONS {
      forall src: seq<byte>, w: Window, disk: Disk, run: seq<Sys>, i: nat
        | |src| == size && IsRun(src, w, disk, run) && i < |run| && run[i].rx.phase == Done(FileDone)
        ensures run[i].rx.received == |src|
      {
        DeliveredFileIsWhole(src, w, disk, run, i);
      }
    } else {
      var src: seq<byte> := seq(size, _ => 0);
      var run := OversizeRun(src, (k: nat) => k);
      var i := |run| - 1;
      assert |src| == size && run[i].rx.phase == Done(FileDone) && run[i].rx.received != |src|;
    }
  }

  // ----- A write that falls short, and a line that changes the order of frames -----

  /** A whole file and its ZEOF are on the line. */
  lemma FileSent(src: seq<byte>, disk: Disk) returns (run: seq<Sys>)
    requires 0 < |src| < POSITIONS
    ensures Run(src, NoWindow, disk, run)
    ensures var s := LastOf(run);
      && s.wire == [Hdr(ZDATA, 0)] + Cut(src, 0) + [Hdr(ZEOF, |src|)]
      && s.tx.phase == WaitEof && s.tx.eofSeen && s.tx.fpos == s.tx.bytesSent == |src|
      && s.rx == RxInit(Sink(true, [], false, 0, false), 0) && s.at == -1
  {
    hide IsRun, WirePos, Cut;
    run := StartAt(src, disk, 0);
    run := StreamOut(src, disk, run);
    run := TxGoes(src, NoWindow, disk, run, Unread);
  }

  lemma Putsec0(disk: Disk, k: Sink, buf: seq<byte>)
    requires k.binary
    ensures Putsec(disk, k, buf).binary
    ensures (forall i :: disk(i) == 0) ==> Putsec(disk, k, buf).out == k.out
  {
  }

  /** Inside a frame the receiver takes in the rest of the file; `r` is its state before it scans its saved blocks. */
  lemma {:induction false} ReceiveAll(src: seq<byte>, disk: Disk, run: seq<Sys>) returns (longer: seq<Sys>, r: Rx)
    requires Run(src, NoWindow, disk, run)
    requires var s := LastOf(run);
      && s.rx.phase == MoreData && s.rx.received <= |src| && s.rx.sink.binary
      && 0 <= s.at <= |s.wire| && Cut(src, s.rx.received) <= s.wire[s.at..]
    ensures Run(src, NoWindow, disk, longer)
    ensures LastOf(longer).wire == LastOf(run).wire && LastOf(longer).rx == NextHdr(disk, r)
    ensures r.received == |src| && r.saved == LastOf(run).rx.saved && r.phase == MoreData
    ensures (forall i :: disk(i) == 0) ==> r.sink.out == LastOf(run).rx.sink.out
    decreases |src| - LastOf(run).rx.received
  {
    hide IsRun, Putsec, NextHdr;
    var s := LastOf(run);
    var p := s.rx.received;
    var item := Cut(src, p)[0];
    assert s.wire[s.at] == s.wire[s.at..][0] == item;
    longer := RxGoes(src, NoWindow, disk, run, Reply(MyError, 0, Got(item.fe, item.buf), true, true), s.at + 1);
    Putsec0(disk, s.rx.sink, item.buf);
    if |src| - p <= 1024 {
      r := Accept(disk, s.rx, item.buf);
    } else {
      assert s.wire[s.at + 1..] == s.wire[s.at..][1..];
      assert Cut(src, p)[1..] == Cut(src, p + 1024);
      longer, r := ReceiveAll(src, disk, longer);
    }
  }

  /** A write that falls short is not noticed: the transfer ends with success and the file is not there. */
  lemma ShortWriteGoesUnnoticed(src: seq<byte>) returns (run: seq<Sys>)
    requires 0 < |src| < POSITIONS
    ensures Run(src, NoWindow, (k: nat) => 0, run)
    ensures LastOf(run).rx.phase == Done(FileDone) && LastOf(run).rx.sink.out == [] != src
  {
    hide IsRun, WirePos, Cut;
    var disk := (k: nat) => 0;
    run := FileSent(src, disk);
    var wire := LastOf(run).wire;
    run := RxGoes(src, NoWindow, disk, run, Reply(Type(ZDATA), 0, DataError, true, true), 1);
    assert wire[1..] == Cut(src, 0) + [Hdr(ZEOF, |src|)];
    var r;
    run, r := ReceiveAll(src, disk, run);
    assert NextHdr(disk, r) == r.(saved := [], phase := WantHdr);
    run := RxGoes(src, NoWindow, disk, run, Reply(Type(ZEOF), |src|, DataError, true, true), |wire|);
  }

  /** After its ZEOF the sender answers a late ZRPOS with the frame for the end of the file, whose block is empty. */
  lemma EndSentAgain(src: seq<byte>, disk: Disk) returns (run: seq<Sys>)
    requires 0 < |src| < POSITIONS
    ensures Run(src, NoWindow, disk, run)
    ensures var s := LastOf(run);
      && s.wire == [Hdr(ZDATA, 0)] + Cut(src, 0) + [Hdr(ZEOF, |src|), Hdr(ZDATA, |src|), Sub(ZCRCE, [])]
      && s.rx == RxInit(Sink(true, [], false, 0, false), 0) && s.at == -1
  {
    hide IsRun, WirePos, Cut;
    run := FileSent(src, disk);
    run := TxGoes(src, NoWindow, disk, run, Input(Type(ZRPOS), 0, false, 1024, true, 0));
    run := TxGoes(src, NoWindow, disk, run, Unread);
    assert src[|src|..|src|] == [];
    run := TxGoes(src, NoWindow, disk, run, Unread);
  }

  lemma EmptyMet(r: Rx, disk: Disk)
    requires r.saved == [Block(r.received, [])]
    ensures NextHdr(disk, r).phase == Hung
  {
    assert FirstAt(r.saved, r.received) == 0;
  }

  /**
    A run in which the loop at `nxthdr` never ends: the line delivers the sender's last, empty
    frame before the one with the data, and its block is saved and then found again and again.
   */
  lemma ReorderedRunHangs(src: seq<byte>, disk: Disk) returns (run: seq<Sys>)
    requires 0 < |src| < POSITIONS
    ensures Run(src, NoWindow, disk, run) && LastOf(run).rx.phase == Hung
  {
    hide IsRun, WirePos, Cut, Putsec, NextHdr;
    run := EndSentAgain(src, disk);
    var n := 2 + |Cut(src, 0)|;
    var wire := LastOf(run).wire;
    assert wire[n] == Hdr(ZDATA, |src|) && wire[n + 1] == Sub(ZCRCE, []);
    run := RxGoes(src, NoWindow, disk, run, Reply(Type(ZDATA), |src|, DataError, true, true), n + 1);
    run := RxGoes(src, NoWindow, disk, run, Reply(MyError, 0, Got(ZCRCE, []), true, true), n + 2);
    assert LastOf(run).rx.saved == [Block(|src|, [])];
    run := RxGoes(src, NoWindow, disk, run, Reply(Type(ZDATA), 0, DataError, true, true), 1);
    assert wire[1..] == Cut(src, 0) + [Hdr(ZEOF, |src|), Hdr(ZDATA, |src|), Sub(ZCRCE, [])];
    var r;
    run, r := ReceiveAll(src, disk, run);
    EmptyMet(r, disk);
  }
}
