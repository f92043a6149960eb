/** What a sequence of replies does to `rzfile`, read off the replies alone: when it gives up, and what it answers. */
module ZRetries {
  import opened Basics
  import opened ZEscape
  import opened ZReader
  import opened ZSavedBlocks
  import opened ZReceiveFile
  import opened ZPosition
  import opened ZRzfile

  // ----- The replies -----

  /** What the next reply will be taken for. */
  datatype Reading = ForHeader | ForData | ForSaving(at: nat) | ForNothing

  /** What the replies so far amount to: the next reading, the position reached, and the blocks put aside. */
  datatype View = View(reading: Reading, pos: nat, aside: seq<Block>)

  predicate IsHeader(v: View, e: Reply, t: byte) {
    v.reading == ForHeader && e.code == Type(t)
  }

  /** A reply that yields nothing to go on with: no header, a ZNAK, a frame for another position, or no data in a frame. */
  predicate Failed(v: View, e: Reply) {
    || (v.reading == ForHeader && (e.code == TimedOut || e.code == MyError))
    || IsHeader(v, e, ZNAK)
    || (IsHeader(v, e, ZDATA) && e.pos != v.pos)
    || (v.reading == ForData && (e.data == DataError || e.data == DataTimeout))
  }

  /** A reply that nothing helps against: a cancel, a stray or unexpected header, or a file that cannot be closed. */
  predicate Fatal(v: View, e: Reply) {
    || (v.reading == ForHeader && e.code.StrayEnd?)
    || (v.reading == ForHeader && e.code.Type? && e.code.t !in {ZNAK, ZFILE, ZEOF, ZSKIP, ZDATA})
    || (IsHeader(v, e, ZEOF) && e.pos == v.pos && !e.closed)
    || (v.reading == ForData && e.data == DataCancelled)
  }

  /** A block that continues the file. */
  predicate Continues(v: View, e: Reply) {
    v.reading == ForData && e.data.Got?
  }

  /** Where a block leads to. */
  function Grown(v: View, e: Reply): nat {
    if Continues(v, e) then v.pos + |e.data.buf| else v.pos
  }

  /** The blocks put aside are looked through: at the end of a frame, and at a ZEOF for another position. */
  predicate LooksAside(v: View, e: Reply) {
    || (Continues(v, e) && e.data.fe != ZCRCG && e.data.fe != ZCRCQ)
    || (IsHeader(v, e, ZEOF) && e.pos != v.pos)
  }

  /** The view after a reply that does not end the transfer. */
  function See(v: View, e: Reply): View {
    var reading :=
      if IsHeader(v, e, ZDATA) then (if e.pos == v.pos then ForData else ForSaving(e.pos))
      else if IsHeader(v, e, ZNAK) || IsHeader(v, e, ZFILE) || (v.reading == ForHeader && e.code == TimedOut) then ForNothing
      else if Continues(v, e) && !LooksAside(v, e) then ForData
      else ForHeader;
    var pos := if LooksAside(v, e) then Stop(v.aside, Grown(v, e)) else Grown(v, e);
    var aside :=
      if LooksAside(v, e) then Ahead(v.aside, pos)
      else if v.reading.ForSaving? && v.reading.at > v.pos && e.data.Got? && e.gotMemory
      then [Block(v.reading.at, e.data.buf)] + v.aside
      else v.aside;
    View(reading, pos, aside)
  }

  function Seen(start: nat, es: seq<Reply>): View {
    if es == [] then View(ForHeader, start, []) else See(Seen(start, es[..|es| - 1]), es[|es| - 1])
  }

  /** The failures since the last block that continued the file. */
  function Failures(start: nat, es: seq<Reply>): nat {
    if es == [] then 0
    else
      var front, e := es[..|es| - 1], es[|es| - 1];
      var v := Seen(start, front);
      if Continues(v, e) then 0 else Failures(start, front) + if Failed(v, e) then 1 else 0
  }

  // ----- How a reply ends the transfer -----

  /** Twenty failures in a row are borne. */
  predicate GivesUp(start: nat, front: seq<Reply>, e: Reply) {
    var v := Seen(start, front);
    Fatal(v, e) || (Failed(v, e) && Failures(start, front) >= 20)
  }

  predicate Skips(start: nat, front: seq<Reply>, e: Reply) {
    IsHeader(Seen(start, front), e, ZSKIP)
  }

  predicate Completes(start: nat, front: seq<Reply>, e: Reply) {
    var v := Seen(start, front);
    IsHeader(v, e, ZEOF) && e.pos == v.pos && e.closed
  }

  predicate Hangs(start: nat, front: seq<Reply>, e: Reply) {
    var v := Seen(start, front);
    LooksAside(v, e) && MeetsEmpty(v.aside, Grown(v, e))
  }

  /** The phase in which a reply ends the transfer, or `WantHdr` if it goes on. */
  function EndOf(start: nat, front: seq<Reply>, e: Reply): Phase {
    if GivesUp(start, front, e) then Done(FileError)
    else if Skips(start, front, e) then Done(FileSkipped)
    else if Completes(start, front, e) then Done(FileDone)
    else if Hangs(start, front, e) then Hung
    else WantHdr
  }

  /** None of the replies ends the transfer. */
  predicate GoesOn(start: nat, es: seq<Reply>) {
    forall i :: 0 <= i < |es| ==> EndOf(start, es[..i], es[i]) == WantHdr
  }

  /** A header is sent after a failure or a reply that was dropped or put aside, and for a block that asks for one. */
  function Answer(v: View, e: Reply): seq<Msg> {
    if v.reading == ForNothing || v.reading.ForSaving? then [Msg(ZRPOS, WirePos(v.pos))]
    else if v.reading == ForData && Failed(v, e) then [Msg(ZRPOS, WirePos(v.pos))]
    else if v.reading == ForHeader && e.code == MyError then [Msg(ZRPOS, WirePos(v.pos))]
    else if Continues(v, e) && (e.data.fe == ZCRCW || e.data.fe == ZCRCQ) then [Msg(ZACK, WirePos(Grown(v, e)))]
    else []
  }

  function AllAnswers(start: nat, es: seq<Reply>): seq<Msg> {
    if es == [] then [Msg(ZRPOS, WirePos(start))]
    else AllAnswers(start, es[..|es| - 1]) + Answer(Seen(start, es[..|es| - 1]), es[|es| - 1])
  }

  // ----- The receiver follows the view -----

  function PhaseFor(reading: Reading): Phase {
    match reading
    case ForHeader => WantHdr
    case ForData => MoreData
    case ForSaving(at) => SaveData(at)
    case ForNothing => SkipData
  }

  ghost predicate Follows(r: Rx, v: View, failures: nat) {
    && r.phase == PhaseFor(v.reading) && r.received == v.pos && r.saved == v.aside
    && r.n == 20 - failures && failures <= 20
  }

  lemma HeaderStep(disk: Disk, r: Rx, start: nat, front: seq<Reply>, e: Reply)
    requires Follows(r, Seen(start, front), Failures(start, front)) && Seen(start, front).reading == ForHeader
    ensures Stepped(disk, r, start, front, e)
  {
    hide Seen, Failures, Stop, Used, Ahead, PutBlocks, MeetsEmpty, WirePos;
  }

  lemma DataStep(disk: Disk, r: Rx, start: nat, front: seq<Reply>, e: Reply)
    requires Follows(r, Seen(start, front), Failures(start, front)) && Seen(start, front).reading == ForData
    ensures Stepped(disk, r, start, front, e)
  {
    hide Seen, Failures, Stop, Used, Ahead, PutBlocks, Putsec, MeetsEmpty, WirePos;
  }

  lemma AsideStep(disk: Disk, r: Rx, start: nat, front: seq<Reply>, e: Reply)
    requires Follows(r, Seen(start, front), Failures(start, front))
    requires Seen(start, front).reading == ForNothing || Seen(start, front).reading.ForSaving?
    ensures Stepped(disk, r, start, front, e)
  {
    hide Seen, Failures, Stop, Used, Ahead, PutBlocks, MeetsEmpty, WirePos;
  }

  /** What one more reply does. */
  ghost predicate Stepped(disk: Disk, r: Rx, start: nat, front: seq<Reply>, e: Reply) {
    var r', v := RxStep(disk, r, e), Seen(start, front);
    var end := EndOf(start, front, e);
    if end != WantHdr then r'.phase == end
    else
      && Follows(r', See(v, e), if Continues(v, e) then 0 else Failures(start, front) + if Failed(v, e) then 1 else 0)
      && r'.sent == r.sent + Answer(v, e)
  }

  lemma OneStep(disk: Disk, r: Rx, start: nat, front: seq<Reply>, e: Reply)
    requires Follows(r, Seen(start, front), Failures(start, front))
    ensures Stepped(disk, r, start, front, e)
  {
    hide Stepped, Follows;
    match Seen(start, front).reading
    case ForHeader => HeaderStep(disk, r, start, front, e);
    case ForData => DataStep(disk, r, start, front, e);
    case ForSaving(_) => AsideStep(disk, r, start, front, e);
    case ForNothing => AsideStep(disk, r, start, front, e);
  }

  lemma LastStep(disk: Disk, r: Rx, es: seq<Reply>)
    requires es != []
    ensures RxRun(disk, r, es) == RxStep(disk, RxRun(disk, r, es[..|es| - 1]), es[|es| - 1])
  {
    hide RxStep, RxRun;
    RunSnoc(disk, r, es[..|es| - 1], es[|es| - 1]);
    assert es[..|es| - 1] + [es[|es| - 1]] == es;
  }

  lemma GoesOnPrefix(start: nat, es: seq<Reply>, k: nat)
    requires GoesOn(start, es) && k <= |es|
    ensures GoesOn(start, es[..k])
  {
    hide EndOf;
    forall i | 0 <= i < k ensures EndOf(start, es[..k][..i], es[..k][i]) == WantHdr {
      assert es[..k][..i] == es[..i];
    }
  }

  /** As long as no reply ends the transfer, the receiver is where the replies say and has sent what they call for. */
  lemma {:induction false} RepliesDecide(disk: Disk, sink: Sink, start: nat, es: seq<Reply>)
    requires GoesOn(start, es)
    ensures var r := RxRun(disk, RxInit(sink, start), es);
      Follows(r, Seen(start, es), Failures(start, es)) && r.sent == AllAnswers(start, es)
  {
    hide RxStep, See, EndOf, Answer, WirePos;
    var r0 := RxInit(sink, start);
    if es == [] {
      assert RxRun(disk, r0, es) == r0;
    } else {
      var last := |es| - 1;
      var front, e := es[..last], es[last];
      GoesOnPrefix(start, es, last);
      RepliesDecide(disk, sink, start, front);
      LastStep(disk, r0, es);
      OneStep(disk, RxRun(disk, r0, front), start, front, e);
    }
  }

  lemma {:induction false} OverStays(disk: Disk, r: Rx, es: seq<Reply>, k: nat)
    requires k <= |es| && (RxRun(disk, r, es[..k]).phase.Done? || RxRun(disk, r, es[..k]).phase == Hung)
    ensures RxRun(disk, r, es).phase == RxRun(disk, r, es[..k]).phase
    decreases |es| - k
  {
    hide RxRun;
    if k < |es| {
      LastStep(disk, r, es[..k + 1]);
      assert es[..k + 1][..k] == es[..k];
      OverStays(disk, r, es, k + 1);
    } else {
      assert es[..k] == es;
    }
  }

  /** The first reply that ends the transfer decides how: `end` is the phase it leads to. */
  ghost predicate FirstEnds(start: nat, es: seq<Reply>, end: Phase) {
    exists i :: 0 <= i < |es| && GoesOn(start, es[..i]) && EndOf(start, es[..i], es[i]) == end
  }

  lemma EndsAt(disk: Disk, sink: Sink, start: nat, es: seq<Reply>, i: nat)
    requires i < |es| && GoesOn(start, es[..i]) && EndOf(start, es[..i], es[i]) != WantHdr
    ensures RxRun(disk, RxInit(sink, start), es).phase == EndOf(start, es[..i], es[i])
  {
    hide RxStep, RxRun, See, EndOf, GoesOn;
    var r0 := RxInit(sink, start);
    RepliesDecide(disk, sink, start, es[..i]);
    OneStep(disk, RxRun(disk, r0, es[..i]), start, es[..i], es[i]);
    LastStep(disk, r0, es[..i + 1]);
    assert es[..i + 1][..i] == es[..i];
    EndIsOver(start, es[..i], es[i]);
    OverStays(disk, r0, es, i + 1);
  }

  lemma EndIsOver(start: nat, front: seq<Reply>, e: Reply)
    ensures var p := EndOf(start, front, e); p == WantHdr || p == Hung || p.Done?
  {
    hide GivesUp, Skips, Completes, Hangs;
  }

  lemma {:induction false} GoesOnOrEnds(start: nat, es: seq<Reply>)
    ensures GoesOn(start, es) || exists i :: 0 <= i < |es| && GoesOn(start, es[..i]) && EndOf(start, es[..i], es[i]) != WantHdr
  {
    hide EndOf;
    if es != [] {
      var last := |es| - 1;
      GoesOnOrEnds(start, es[..last]);
      if GoesOn(start, es[..last]) {
        if EndOf(start, es[..last], es[last]) == WantHdr {
          forall i | 0 <= i < |es| ensures EndOf(start, es[..i], es[i]) == WantHdr {
            if i < last {
              assert es[..last][..i] == es[..i];
              assert EndOf(start, es[..last][..i], es[..last][i]) == WantHdr;
            }
          }
        }
      } else {
        var i :| 0 <= i < last && GoesOn(start, es[..last][..i]) && EndOf(start, es[..last][..i], es[..last][i]) != WantHdr;
        assert es[..last][..i] == es[..i];
      }
    }
  }

  /**
    How `rzfile` ends, from the replies alone. It gives up if and only if, before anything else
    ended the transfer, a reply was fatal or failed after twenty failures since the last block;
    and likewise for success, for a skipped file and for the endless loop.
   */
  lemma EndsExactly(disk: Disk, sink: Sink, start: nat, es: seq<Reply>, end: Phase)
    requires end.Done? || end == Hung
    ensures RxRun(disk, RxInit(sink, start), es).phase == end <==> FirstEnds(start, es, end)
  {
    hide RxStep, RxRun, See, EndOf, GoesOn;
    GoesOnOrEnds(start, es);
    if GoesOn(start, es) {
      RepliesDecide(disk, sink, start, es);
      if i :| 0 <= i < |es| && GoesOn(start, es[..i]) && EndOf(start, es[..i], es[i]) == end {
        EndsAt(disk, sink, start, es, i);
      }
    } else {
      var i :| 0 <= i < |es| && GoesOn(start, es[..i]) && EndOf(start, es[..i], es[i]) != WantHdr;
      EndsAt(disk, sink, start, es, i);
      if k :| 0 <= k < |es| && GoesOn(start, es[..k]) && EndOf(start, es[..k], es[k]) == end {
        EndsAt(disk, sink, start, es, k);
      }
    }
  }

  /** A failure that does not end the transfer is answered, at once or after one reply more, by a ZRPOS for the position. */
  lemma FailureIsAnswered(disk: Disk, sink: Sink, start: nat, es: seq<Reply>, e: Reply, next: Reply)
    requires GoesOn(start, es + [e, next]) && Failed(Seen(start, es), e)
    ensures var r0 := RxInit(sink, start);
      var r, r1, r2 := RxRun(disk, r0, es), RxRun(disk, r0, es + [e]), RxRun(disk, r0, es + [e, next]);
      && r1.received == r.received
      && (if r1.phase == WantHdr then r1.sent == r.sent + [Msg(ZRPOS, WirePos(r.received))]
          else && r2.phase == WantHdr && r2.received == r.received
               && r2.sent == r.sent + [Msg(ZRPOS, WirePos(r.received))])
  {
    hide RxStep, RxRun, EndOf, GoesOn, WirePos, Stop, Ahead;
    var one, two := es + [e], es + [e, next];
    assert two[..|es| + 1] == one && two[..|es|] == es && one[..|es|] == es;
    GoesOnPrefix(start, two, |es| + 1);
    GoesOnPrefix(start, two, |es|);
    RepliesDecide(disk, sink, start, es);
    RepliesDecide(disk, sink, start, one);
    RepliesDecide(disk, sink, start, two);
    assert Seen(start, one) == See(Seen(start, es), e);
    assert Seen(start, two) == See(Seen(start, one), next);
    assert AllAnswers(start, one) == AllAnswers(start, es) + Answer(Seen(start, es), e);
    assert AllAnswers(start, two) == AllAnswers(start, one) + Answer(Seen(start, one), next);
  }
}
