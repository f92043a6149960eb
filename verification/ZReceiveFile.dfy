/** The receiving end of a ZMODEM file transfer: `putsec` and `rzfile`. */
module ZReceiveFile {
  import opened Basics
  import opened ZEscape
  import opened ZReader
  import opened ZSavedBlocks
  import opened ZPosition

  const ZRINIT: byte := 1
  const ZFILE: byte := 4
  const ZSKIP: byte := 5
  const ZNAK: byte := 6
  const ZRPOS: byte := 9
  const ZEOF: byte := 11

  const CPMEOF: byte := 0x1a
  const CR: byte := 0x0d

  // ----- Writing the file -----

  /** Text mode: carriage returns are dropped, and everything from the first CPMEOF on. */
  function TextOf(p: seq<byte>): seq<byte> {
    if p == [] || p[0] == CPMEOF then []
    else if p[0] == CR then TextOf(p[1..])
    else [p[0]] + TextOf(p[1..])
  }

  /** The file that a received prefix should produce. */
  function Image(binary: bool, p: seq<byte>): seq<byte> {
    if binary then p else TextOf(p)
  }

  /**
    The output file. `writes` counts the write calls so far and `lost` records that one
    of them took less than it was given; `rzfile` never looks at the result of `putsec`.
   */
  datatype Sink = Sink(binary: bool, out: seq<byte>, eofSeen: bool, writes: nat, lost: bool)

  /** How many bytes each write call takes when offered more: the file system's side. */
  type Disk = nat -> nat

  function Write(disk: Disk, k: Sink, bytes: seq<byte>): Sink {
    if bytes == [] then k
    else
      var taken := if disk(k.writes) < |bytes| then disk(k.writes) else |bytes|;
      k.(out := k.out + bytes[..taken], writes := k.writes + 1, lost := k.lost || taken < |bytes|)
  }

  /** One `putc` per byte. */
  function WriteEach(disk: Disk, k: Sink, bytes: seq<byte>): Sink
    decreases bytes
  {
    if bytes == [] then k else WriteEach(disk, Write(disk, k, bytes[..1]), bytes[1..])
  }

  function Putsec(disk: Disk, k: Sink, buf: seq<byte>): Sink {
    if buf == [] then k
    else if k.binary then Write(disk, k, buf)
    else if k.eofSeen then k
    else WriteEach(disk, k, TextOf(buf)).(eofSeen := CPMEOF in buf)
  }

  function PutBlocks(disk: Disk, k: Sink, bs: seq<Block>): Sink
    decreases bs
  {
    if bs == [] then k else PutBlocks(disk, Putsec(disk, k, bs[0].data), bs[1..])
  }

  /** The sink holds the image of the prefix `p`, unless a write fell short; then it is too short for good. */
  ghost predicate Holds(k: Sink, p: seq<byte>) {
    && (!k.binary ==> k.eofSeen == (CPMEOF in p))
    && (if k.lost then |k.out| < |Image(k.binary, p)| else k.out == Image(k.binary, p))
  }

  lemma {:induction false} TextOfConcat(p: seq<byte>, q: seq<byte>)
    ensures TextOf(p + q) == TextOf(p) + if CPMEOF in p then [] else TextOf(q)
  {
    if p == [] {
      assert p + q == q;
    } else {
      assert (p + q)[1..] == p[1..] + q;
      TextOfConcat(p[1..], q);
    }
  }

  /** Text mode, from the front: up to the first 0x1a everything but carriage returns is kept, in order. */
  lemma TextSnoc(p: seq<byte>, b: byte)
    ensures TextOf([]) == []
    ensures TextOf(p + [b]) == TextOf(p) + if 0x1a in p || b == 0x1a || b == 0x0d then [] else [b]
  {
    TextOfConcat(p, [b]);
    assert [b][1..] == [];
  }

  /** Binary mode writes a block at once, text mode byte by byte, and nothing is written for nothing. */
  lemma PutsecWrites(disk: Disk, k: Sink, buf: seq<byte>)
    ensures Putsec(disk, k, buf).writes == k.writes +
      if k.binary then (if buf == [] then 0 else 1) else if k.eofSeen then 0 else |TextOf(buf)|
  {
    hide TextOf, WriteEach;
    WriteEachCounts(disk, k, TextOf(buf));
    if buf == [] {
      TextSnoc([], 0);
    }
  }

  lemma {:induction false} WriteEachCounts(disk: Disk, k: Sink, bytes: seq<byte>)
    ensures WriteEach(disk, k, bytes).writes == k.writes + |bytes|
    decreases bytes
  {
    if bytes != [] {
      WriteEachCounts(disk, Write(disk, k, bytes[..1]), bytes[1..]);
    }
  }

  lemma {:induction false} WriteEachKeeps(disk: Disk, k: Sink, bytes: seq<byte>)
    ensures var r := WriteEach(disk, k, bytes);
      && r.binary == k.binary && r.eofSeen == k.eofSeen && (k.lost ==> r.lost)
      && |r.out| <= |k.out| + |bytes|
      && (if r.lost then k.lost || |r.out| < |k.out| + |bytes| else r.out == k.out + bytes)
    decreases bytes
  {
    if bytes != [] {
      WriteEachKeeps(disk, Write(disk, k, bytes[..1]), bytes[1..]);
      assert bytes == bytes[..1] + bytes[1..];
    }
  }

  /** Writing block by block gives the image of the whole, in binary and in text mode. */
  lemma PutsecKeeps(disk: Disk, k: Sink, p: seq<byte>, buf: seq<byte>)
    requires Holds(k, p)
    ensures Holds(Putsec(disk, k, buf), p + buf)
  {
    if buf == [] {
      assert p + buf == p;
    } else {
      hide TextOf, WriteEach;
      TextOfConcat(p, buf);
      WriteEachKeeps(disk, k, TextOf(buf));
      assert CPMEOF in p + buf <==> CPMEOF in p || CPMEOF in buf;
    }
  }

  lemma {:induction false} PutBlocksKeeps(disk: Disk, k: Sink, p: seq<byte>, bs: seq<Block>)
    requires Holds(k, p)
    ensures Holds(PutBlocks(disk, k, bs), p + DataOf(bs))
    decreases bs
  {
    hide Holds, Putsec;
    if bs == [] {
      assert p + DataOf(bs) == p;
    } else {
      PutsecKeeps(disk, k, p, bs[0].data);
      PutBlocksKeeps(disk, Putsec(disk, k, bs[0].data), p + bs[0].data, bs[1..]);
      assert p + bs[0].data + DataOf(bs[1..]) == p + DataOf(bs);
    }
  }

  // ----- `rzfile`, one read at a time -----

  datatype Result = FileDone | FileSkipped | FileError

  /** Where `rzfile` next reads the line, and what it will do with what it finds. */
  datatype Phase =
    | WantHdr              // at `skip_oosb`, about to call zgethdr
    | MoreData             // at `moredata`, about to call zrdata
    | SaveData(pos: nat)   // about to read the data of an out-of-sync ZDATA frame
    | SkipData             // about to read data that will be dropped
    | Hung                 // the loop at `nxthdr` no longer ends
    | Done(result: Result)

  /** A header of the receiver's, with the position as its four bytes hold it. */
  datatype Msg = Msg(t: byte, pos: nat)

  datatype Rx = Rx(received: nat, sink: Sink, saved: seq<Block>, n: int, phase: Phase, sent: seq<Msg>)

  /** What one read returned, `pos` being what `rclhdr` makes of a header, with the outcomes of the calls it leads to. */
  datatype Reply = Reply(code: Code, pos: nat, data: DataCode, closed: bool, gotMemory: bool)

  /** `continue`: the position is asked for again. */
  function Ask(r: Rx): Rx {
    r.(sent := r.sent + [Msg(ZRPOS, WirePos(r.received))], phase := WantHdr)
  }

  /** `--n < 0` ends the transfer, otherwise `next` follows. */
  function Spend(r: Rx, next: Rx -> Rx): Rx {
    var r' := r.(n := r.n - 1);
    if r'.n < 0 then r'.(phase := Done(FileError)) else next(r')
  }

  /** `nxthdr`. */
  function NextHdr(disk: Disk, r: Rx): Rx {
    var q := Stop(r.saved, r.received);
    var r' := r.(received := q, sink := PutBlocks(disk, r.sink, Used(r.saved, r.received)));
    if MeetsEmpty(r.saved, r.received) then r'.(phase := Hung)
    else r'.(saved := Ahead(r.saved, q), phase := WantHdr)
  }

  function Accept(disk: Disk, r: Rx, buf: seq<byte>): Rx {
    r.(n := 20, sink := Putsec(disk, r.sink, buf), received := r.received + |buf|)
  }

  function Acked(r: Rx, t: byte): Rx {
    r.(sent := r.sent + [Msg(t, WirePos(r.received))])
  }

  function OnHeader(disk: Disk, r: Rx, e: Reply): Rx {
    match e.code
    case TimedOut => Spend(r, (x: Rx) => x.(phase := SkipData))
    case MyError => Spend(r, (x: Rx) => Ask(x))
    case StrayEnd(_) => r.(phase := Done(FileError))
    case Type(t) =>
      if t == ZNAK then Spend(r, (x: Rx) => x.(phase := SkipData))
      else if t == ZFILE then r.(phase := SkipData)
      else if t == ZEOF then
        (if e.pos != r.received then NextHdr(disk, r)
         else r.(phase := Done(if e.closed then FileDone else FileError)))
      else if t == ZSKIP then r.(phase := Done(FileSkipped))
      else if t == ZDATA then
        (if e.pos != r.received then Spend(r, (x: Rx) => x.(phase := SaveData(e.pos)))
         else r.(phase := MoreData))
      else r.(phase := Done(FileError))
  }

  function OnMoreData(disk: Disk, r: Rx, d: DataCode): Rx {
    match d
    case DataCancelled => r.(phase := Done(FileError))
    case DataError => Spend(r, (x: Rx) => Ask(x))
    case DataTimeout => Spend(r, (x: Rx) => Ask(x))
    case Got(fe, buf) =>
      var r' := Accept(disk, r, buf);
      if fe == ZCRCW then NextHdr(disk, Acked(r', ZACK))
      else if fe == ZCRCQ then Acked(r', ZACK)
      else if fe == ZCRCG then r'
      else NextHdr(disk, r')
  }

  function OnSaveData(r: Rx, pos: nat, e: Reply): Rx {
    if e.data.Got? && pos > r.received && e.gotMemory
    then Ask(r.(saved := [Block(pos, e.data.buf)] + r.saved))
    else Ask(r)
  }

  function RxStep(disk: Disk, r: Rx, e: Reply): Rx {
    match r.phase
    case WantHdr => OnHeader(disk, r, e)
    case MoreData => OnMoreData(disk, r, e.data)
    case SaveData(pos) => OnSaveData(r, pos, e)
    case SkipData => Ask(r)
    case Hung => r
    case Done(_) => r
  }

  /** `rzfile` after `procheader` has opened the file at `received`. */
  function RxInit(sink: Sink, received: nat): Rx {
    Ask(Rx(received, sink, [], 20, WantHdr, []))
  }

  function RxRun(disk: Disk, r: Rx, es: seq<Reply>): Rx
    decreases es
  {
    if es == [] then r else RxRun(disk, RxStep(disk, r, es[0]), es[1..])
  }

  // ----- What every read keeps -----

  /** The receiver's part of the invariant, for a file `src`. */
  ghost predicate RxGood(src: seq<byte>, r: Rx) {
    && r.received <= |src|
    && Holds(r.sink, src[..r.received])
    && (forall b :: b in r.saved ==> IsSlice(src, b))
    && (forall m :: m in r.sent ==> m.pos <= r.received && m.pos < POSITIONS)
    && (r.phase == Done(FileDone) ==> r.received == WirePos(|src|))
  }

  /** A header is genuine when its position is one the sender could have meant. */
  ghost predicate GenuineHeader(src: seq<byte>, e: Reply) {
    e.code == Type(ZEOF) ==> e.pos == WirePos(|src|)
  }

  /** Data read at a position is genuine when it is what the file holds there. */
  ghost predicate GenuineData(src: seq<byte>, pos: nat, d: DataCode) {
    d.Got? ==> IsFrameend(d.fe) && pos + |d.buf| <= |src| && d.buf == src[pos..pos + |d.buf|]
  }

  ghost predicate Genuine(src: seq<byte>, r: Rx, e: Reply) {
    match r.phase
    case WantHdr => GenuineHeader(src, e)
    case MoreData => GenuineData(src, r.received, e.data)
    case SaveData(pos) => GenuineData(src, pos, e.data)
    case SkipData => true
    case Hung => true
    case Done(_) => true
  }

  lemma NextHdrKeeps(src: seq<byte>, disk: Disk, r: Rx)
    requires RxGood(src, r) && !r.phase.Done?
    ensures RxGood(src, NextHdr(disk, r))
  {
    hide Holds, Stop, Used, Ahead, PutBlocks, MeetsEmpty, WirePos;
    var q := Stop(r.saved, r.received);
    UsedContinuesPrefix(src, r.saved, r.received);
    PutBlocksKeeps(disk, r.sink, src[..r.received], Used(r.saved, r.received));
    assert src[..r.received] + src[r.received..q] == src[..q];
    AheadIsSubset(r.saved, q);
  }

  lemma AcceptKeeps(src: seq<byte>, disk: Disk, r: Rx, buf: seq<byte>)
    requires RxGood(src, r) && !r.phase.Done?
    requires r.received + |buf| <= |src| && buf == src[r.received..r.received + |buf|]
    ensures RxGood(src, Accept(disk, r, buf))
  {
    hide WirePos;
    hide Holds, Putsec;
    PutsecKeeps(disk, r.sink, src[..r.received], buf);
    assert src[..r.received] + buf == src[..r.received + |buf|];
  }

  lemma AckedKeeps(src: seq<byte>, r: Rx, t: byte)
    requires RxGood(src, r)
    ensures RxGood(src, Acked(r, t))
  {
    hide WirePos;
    hide Holds;
  }

  lemma AskKeeps(src: seq<byte>, r: Rx)
    requires RxGood(src, r)
    ensures RxGood(src, Ask(r))
  {
    hide WirePos;
    hide Holds;
  }

  /** Every read of genuine data keeps the receiver's part of the invariant. */
  lemma RxStepKeeps(src: seq<byte>, disk: Disk, r: Rx, e: Reply)
    requires RxGood(src, r) && Genuine(src, r, e)
    ensures RxGood(src, RxStep(disk, r, e))
  {
    hide WirePos;
    hide Holds, NextHdr, Accept, Acked, Ask;
    match r.phase
    case WantHdr =>
      AskKeeps(src, r.(n := r.n - 1));
      NextHdrKeeps(src, disk, r);
    case MoreData =>
      AskKeeps(src, r.(n := r.n - 1));
      if e.data.Got? {
        var r' := Accept(disk, r, e.data.buf);
        AcceptKeeps(src, disk, r, e.data.buf);
        AcceptPhase(disk, r, e.data.buf);
        AckedKeeps(src, r', ZACK);
        AckedPhase(r', ZACK);
        NextHdrKeeps(src, disk, r');
        NextHdrKeeps(src, disk, Acked(r', ZACK));
      }
    case SaveData(pos) =>
      AskKeeps(src, r);
      if e.data.Got? {
        AskKeeps(src, r.(saved := [Block(pos, e.data.buf)] + r.saved));
      }
    case SkipData => AskKeeps(src, r);
    case Hung =>
    case Done(_) =>
  }

  lemma AcceptPhase(disk: Disk, r: Rx, buf: seq<byte>)
    ensures Accept(disk, r, buf).phase == r.phase
  {
  }

  lemma AckedPhase(r: Rx, t: byte)
    ensures Acked(r, t).phase == r.phase
  {
  }
}
