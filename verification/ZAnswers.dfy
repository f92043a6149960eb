/** What the sender does with every header it can read: when it stops, what it answers, and where it goes on. */
module ZAnswers {
  import opened Basics
  import opened ZEscape
  import opened ZReader
  import opened ZReceiveFile
  import opened ZSendFile
  import opened ZPosition

  /** The sender reads a header. */
  predicate Waits(tx: Tx) {
    tx.phase == AwaitPos || tx.phase == WindowWait || tx.phase == WaitAck || tx.phase == WaitEof
  }

  predicate Reads(e: Input, types: set<byte>) {
    e.code.Type? && e.code.t in types
  }

  /** The position asked for cannot be reached. */
  predicate SeekFails(tx: Tx, e: Input) {
    Reads(e, {9}) && !e.seekOk && (if tx.phase == AwaitPos then e.pos != 0 else !tx.eofSeen)
  }

  /**
    The sender stops at a timeout, at ZCAN, ZABORT, ZFIN and ZSKIP, where it cannot seek, before the
    data at a ZRQINIT, and after it at a ZRINIT, which is how the receiver takes its leave.
   */
  predicate Stops(tx: Tx, e: Input) {
    Waits(tx) &&
      (e.code == TimedOut || Reads(e, {5, 7, 8, 16}) || SeekFails(tx, e) || Reads(e, {if tx.phase == AwaitPos then 0 else 1}))
  }

  /** A position is asked for and can be reached, or is no longer looked at. */
  predicate Obeyed(tx: Tx, e: Input) {
    Waits(tx) && Reads(e, {9}) && !SeekFails(tx, e)
  }

  /** An acknowledgement that is good enough for this wait. */
  predicate Acknowledged(tx: Tx, e: Input) {
    && (tx.phase == WindowWait || tx.phase == WaitAck || tx.phase == WaitEof) && Reads(e, {3})
    && (tx.phase == WindowWait || e.pos == tx.bytesSent)
  }

  lemma StopsExactly(src: seq<byte>, w: Window, tx: Tx, e: Input)
    requires tx.fpos <= |src|
    ensures TxStep(src, w, tx, e).tx.phase == TxDone <==> tx.phase == TxDone || Stops(tx, e)
  {
    hide WirePos, Zfilbuf;
  }

  function Start(pos: nat, tx: Tx): Tx {
    tx.(fpos := if pos == 0 then tx.fpos else pos, bytesSent := pos, lastsync := pos - 1, lrxpos := 0, phase := SendHeader)
  }

  function Resume(pos: nat, tx: Tx): Tx {
    if tx.eofSeen then tx.(phase := SendHeader)
    else tx.(fpos := pos, bytesSent := pos, lrxpos := pos, lastsync := pos, phase := SendHeader)
  }

  /**
    Before the data: a position starts it, a ZCRC is answered, a ZRINIT with more to come is passed
    over, and everything else brings the file's name again.
   */
  lemma FirstAnswer(src: seq<byte>, w: Window, tx: Tx, e: Input)
    requires tx.fpos <= |src| && tx.phase == AwaitPos && !Stops(tx, e)
    ensures TxStep(src, w, tx, e) ==
      if Obeyed(tx, e) then Sent(Start(e.pos, tx), [])
      else if Reads(e, {13}) then Sent(tx.(fpos := 0), [Hdr(13, e.crc)])
      else if Reads(e, {1}) && e.padded then Sent(tx, [])
      else Sent(tx, [Hdr(4, 0), Sub(0x6b, [])])
  {
  }

  /**
    In mid-file and after it: a position moves the sender there unless it has seen the end of the
    file, an acknowledgement lets it go on, one for another position is only noted, and everything
    else is answered with a ZNAK and the wait goes on.
   */
  lemma LaterAnswer(src: seq<byte>, w: Window, tx: Tx, e: Input)
    requires tx.fpos <= |src| && Waits(tx) && tx.phase != AwaitPos && !Stops(tx, e)
    ensures TxStep(src, w, tx, e) ==
      if Obeyed(tx, e) then Sent(Resume(e.pos, tx), if tx.phase == WindowWait then [Sub(0x68, [])] else [])
      else if Acknowledged(tx, e) then
        Sent(tx.(lrxpos := e.pos, phase := if tx.phase == WindowWait then WindowCheck
                                           else if tx.phase == WaitAck then SendHeader else SendEof), [])
      else if Reads(e, {3}) then Sent(tx.(lrxpos := e.pos), [])
      else Sent(tx, [Hdr(6, 0)])
  {
  }

  /** When it stops, the sender has put nothing more on the line than the end of the frame it was in. */
  lemma StopAnswer(src: seq<byte>, w: Window, tx: Tx, e: Input)
    requires tx.fpos <= |src| && Stops(tx, e)
    ensures TxStep(src, w, tx, e) == Sent(tx.(phase := TxDone), if tx.phase == WindowWait then [Sub(0x68, [])] else [])
  {
  }

  /** A frame is announced by the position of its first byte, and the end of the file by its size, in 32 bits. */
  lemma Announced(src: seq<byte>, w: Window, tx: Tx, e: Input)
    requires tx.fpos <= |src|
    ensures tx.phase == SendHeader ==> TxStep(src, w, tx, e).items == [Hdr(10, tx.bytesSent % 0x1_0000_0000)]
    ensures tx.phase == SendEof ==> TxStep(src, w, tx, e).items == [Hdr(11, tx.bytesSent % 0x1_0000_0000)]
  {
  }

  // ----- Runs of the sender -----

  function TxRun(src: seq<byte>, w: Window, tx: Tx, es: seq<Input>): Tx
    decreases es
  {
    if es == [] || tx.fpos > |src| then tx else TxRun(src, w, TxStep(src, w, tx, es[0]).tx, es[1..])
  }

  /** All positions that are read are positions of the file. */
  ghost predicate InFile(src: seq<byte>, es: seq<Input>) {
    forall e :: e in es ==> GenuineInput(src, e)
  }

  lemma {:induction false} RunSplits(src: seq<byte>, w: Window, tx: Tx, es: seq<Input>, k: nat)
    requires k <= |es|
    ensures TxRun(src, w, tx, es) == TxRun(src, w, TxRun(src, w, tx, es[..k]), es[k..])
    decreases es
  {
    hide TxStep;
    if k == 0 {
      assert es[..k] == [] && es[k..] == es;
    } else if tx.fpos <= |src| {
      RunSplits(src, w, TxStep(src, w, tx, es[0]).tx, es[1..], k - 1);
      assert es[..k][1..] == es[1..][..k - 1] && es[1..][k - 1..] == es[k..];
    }
  }

  lemma {:induction false} RunInFile(src: seq<byte>, w: Window, tx: Tx, es: seq<Input>, end: Where)
    requires TxGood(src, tx, end) && InFile(src, es)
    ensures TxRun(src, w, tx, es).fpos <= |src|
    decreases es
  {
    hide TxStep, TrueItems, GenuineInput, WhereAfter;
    InGoodState(src, tx, end);
    if es != [] {
      assert es[0] in es;
      TxStepKeeps(src, w, tx, es[0], end);
      RunInFile(src, w, TxStep(src, w, tx, es[0]).tx, es[1..], WhereAfter(TxStep(src, w, tx, es[0]).items, end));
    }
  }

  lemma InGoodState(src: seq<byte>, tx: Tx, end: Where)
    requires TxGood(src, tx, end)
    ensures tx.fpos <= |src|
  {
  }

  /** The sender has stopped exactly if it read something it stops at, somewhere along the way. */
  lemma {:induction false} SenderStopsExactly(src: seq<byte>, w: Window, es: seq<Input>)
    requires InFile(src, es)
    ensures TxRun(src, w, TxInit, es).phase == TxDone <==>
            exists i :: 0 <= i < |es| && Stops(TxRun(src, w, TxInit, es[..i]), es[i])
  {
    hide TxStep, Stops, GenuineInput, TxRun;
    if es == [] {
      NothingRead(src, w);
    } else {
      var last := |es| - 1;
      var front, e := es[..last], es[last];
      SenderStopsExactly(src, w, front);
      RunInFile(src, w, TxInit, front, Nowhere);
      RunSplits(src, w, TxInit, es, last);
      assert es[last..] == [e];
      OneMore(src, w, TxRun(src, w, TxInit, front), e);
      StopsExactly(src, w, TxRun(src, w, TxInit, front), e);
      if i :| 0 <= i < |front| && Stops(TxRun(src, w, TxInit, front[..i]), front[i]) {
        assert front[..i] == es[..i];
      }
      if i :| 0 <= i < |es| && Stops(TxRun(src, w, TxInit, es[..i]), es[i]) {
        if i < last {
          assert front[..i] == es[..i];
        }
      }
    }
  }

  lemma NothingRead(src: seq<byte>, w: Window)
    ensures TxRun(src, w, TxInit, []).phase == AwaitPos
  {
  }

  lemma OneMore(src: seq<byte>, w: Window, tx: Tx, e: Input)
    requires tx.fpos <= |src|
    ensures TxRun(src, w, tx, [e]) == TxStep(src, w, tx, e).tx
  {
    hide TxStep;
  }

  /**
    `getinsync` goes through the states of the sender one header at a time: it passes over those that
    decide nothing and returns at the first that does.
   */
  lemma {:induction false} SyncIsSteps(src: seq<byte>, w: Window, tx: Tx, es: seq<Input>)
    requires tx.fpos <= |src| && tx.phase == WaitAck
    ensures var r := SyncAll(tx, false, es);
      && |r.rest| <= |es| && r.rest == es[|es| - |r.rest|..]
      && TxRun(src, w, tx, es[..|es| - |r.rest|]) == (if r.returned then Gotack(r.c, r.tx) else r.tx)
      && (if r.returned then |r.rest| < |es| else r.rest == [])
    decreases es
  {
    hide Getinsync, TxStep, Gotack, Decides, SyncAll, TxRun;
    SyncStep(tx, es);
    if es == [] {
      NoneYet(src, w, tx, es);
    } else {
      OneSync(src, w, tx, es[0]);
      var g := Getinsync(tx, false, es[0]);
      if g.Returns? {
        assert es[..1] == [es[0]];
        OneMore(src, w, tx, es[0]);
      } else {
        SyncIsSteps(src, w, g.tx, es[1..]);
        RunStep(src, w, tx, es, |es| - |SyncAll(g.tx, false, es[1..]).rest|);
      }
    }
  }

  lemma {:induction false} SyncDecides(src: seq<byte>, w: Window, tx: Tx, es: seq<Input>, i: nat)
    requires tx.fpos <= |src| && tx.phase == WaitAck && i < |es| - |SyncAll(tx, false, es).rest|
    ensures Decides(TxRun(src, w, tx, es[..i]), es[i]) <==>
            SyncAll(tx, false, es).returned && i + 1 == |es| - |SyncAll(tx, false, es).rest|
    decreases es
  {
    hide Getinsync, TxStep, Gotack, Decides, SyncAll, TxRun;
    SyncStep(tx, es);
    SyncIsSteps(src, w, tx, es);
    OneSync(src, w, tx, es[0]);
    NoneYet(src, w, tx, es);
    var g := Getinsync(tx, false, es[0]);
    if g.ReadsOn? {
      SyncIsSteps(src, w, g.tx, es[1..]);
      if i > 0 {
        RunStep(src, w, tx, es, i);
        SyncDecides(src, w, g.tx, es[1..], i - 1);
      }
    }
  }

  lemma SyncStep(tx: Tx, es: seq<Input>)
    ensures es == [] ==> SyncAll(tx, false, es) == SyncRun(CError, false, tx, [], [])
    ensures es != [] ==>
      var g, r := Getinsync(tx, false, es[0]), SyncAll(tx, false, es);
      if g.Returns? then r == SyncRun(g.c, true, g.tx, [], es[1..])
      else var r' := SyncAll(g.tx, false, es[1..]); r == r'.(items := g.items + r'.items)
  {
    hide Getinsync;
  }

  lemma RunStep(src: seq<byte>, w: Window, tx: Tx, es: seq<Input>, i: nat)
    requires 1 <= i <= |es| && tx.fpos <= |src|
    ensures TxRun(src, w, tx, es[..i]) == TxRun(src, w, TxStep(src, w, tx, es[0]).tx, es[1..][..i - 1])
  {
    hide TxStep;
    assert es[..i][1..] == es[1..][..i - 1] && es[..i][0] == es[0];
  }

  /** A header that ends the wait: one to stop at, a position, or the acknowledgement waited for. */
  predicate Decides(tx: Tx, e: Input) {
    Stops(tx, e) || Obeyed(tx, e) || Acknowledged(tx, e)
  }

  lemma OneSync(src: seq<byte>, w: Window, tx: Tx, e: Input)
    requires tx.fpos <= |src| && tx.phase == WaitAck
    ensures var g := Getinsync(tx, false, e);
      && (g.Returns? <==> Decides(tx, e))
      && TxStep(src, w, tx, e).tx == (if g.Returns? then Gotack(g.c, g.tx) else g.tx)
      && (g.ReadsOn? ==> g.tx.phase == WaitAck && g.tx.fpos == tx.fpos)
  {
  }

  lemma NoneYet(src: seq<byte>, w: Window, tx: Tx, es: seq<Input>)
    ensures TxRun(src, w, tx, es[..0]) == tx
  {
    assert es[..0] == [];
  }
}
