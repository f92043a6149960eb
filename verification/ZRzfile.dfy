/** `putsec` and `rzfile` in their own form: loops, in-place updates and the linked list. */
module ZRzfile {
  import opened Basics
  import opened ZEscape
  import opened ZReader
  import opened ZSavedBlocks
  import opened ZReceiveFile
  import opened ZPosition

  lemma {:induction false} RunSnoc(disk: Disk, r: Rx, es: seq<Reply>, e: Reply)
    ensures RxRun(disk, r, es + [e]) == RxStep(disk, RxRun(disk, r, es), e)
    decreases es
  {
    hide RxStep;
    if es == [] {
      assert [e][1..] == [] && [] + [e] == [e];
    } else {
      assert (es + [e])[1..] == es[1..] + [e];
      RunSnoc(disk, RxStep(disk, r, es[0]), es[1..], e);
    }
  }

  lemma RunNone(disk: Disk, r: Rx)
    ensures RxRun(disk, r, []) == r
  {
  }

  /** Once the loop at `nxthdr` hangs, nothing further is read. */
  lemma {:induction false} HungStays(disk: Disk, r: Rx, es: seq<Reply>, i: nat)
    requires i <= |es| && RxRun(disk, r, es[..i]).phase == Hung
    ensures RxRun(disk, r, es).phase == Hung
    decreases |es| - i
  {
    hide RxStep;
    if i < |es| {
      RunSnoc(disk, r, es[..i], es[i]);
      assert es[..i] + [es[i]] == es[..i + 1];
      HungStep(disk, RxRun(disk, r, es[..i]), es[i]);
      HungStays(disk, r, es, i + 1);
    } else {
      assert es[..i] == es;
    }
  }

  lemma HungStep(disk: Disk, r: Rx, e: Reply)
    requires r.phase == Hung
    ensures RxStep(disk, r, e) == r
  {
  }

  class FileReceiver {
    const disk: Disk
    var binary: bool
    var out: seq<byte>
    var eofSeen: bool
    var writes: nat
    var lost: bool
    var received: nat
    var n: int
    var saved: Saved
    var sent: seq<Msg>

    constructor (disk: Disk, sink: Sink, received: nat)
      ensures this.disk == disk && SinkNow() == sink && this.received == received && sent == []
      ensures saved.Valid() && saved.Contents() == [] && fresh(saved) && saved.nodes == {}
    {
      this.disk := disk;
      this.binary, this.out, this.eofSeen := sink.binary, sink.out, sink.eofSeen;
      this.writes, this.lost := sink.writes, sink.lost;
      this.received, this.n, this.sent := received, 20, [];
      this.saved := new Saved();
    }

    ghost function SinkNow(): Sink
      reads this`binary, this`out, this`eofSeen, this`writes, this`lost
    {
      Sink(binary, out, eofSeen, writes, lost)
    }

    ghost function Now(p: Phase): Rx
      reads this, saved
    {
      Rx(received, SinkNow(), saved.Contents(), n, p, sent)
    }

    /** One write call of which the file system may take only a part. */
    method FWrite(bytes: seq<byte>)
      modifies this`out, this`writes, this`lost
      ensures SinkNow() == Write(disk, old(SinkNow()), bytes)
    {
      if bytes == [] {
        return;
      }
      var taken := disk(writes);
      if taken >= |bytes| {
        taken := |bytes|;
      } else {
        lost := true;
      }
      out := out + bytes[..taken];
      writes := writes + 1;
    }

    /** `putsec`. */
    method DoPutsec(buf: seq<byte>)
      modifies this`out, this`writes, this`lost, this`eofSeen
      ensures SinkNow() == Putsec(disk, old(SinkNow()), buf)
    {
      if |buf| == 0 {
        return;
      }
      if binary {
        FWrite(buf);
      } else if !eofSeen {
        ghost var was := SinkNow();
        var p := 0;
        while p < |buf|
          invariant 0 <= p <= |buf| && !binary && !eofSeen
          invariant WriteEach(disk, SinkNow(), TextOf(buf[p..])) == WriteEach(disk, was, TextOf(buf))
          invariant CPMEOF !in buf[..p]
        {
          assert buf[p..][0] == buf[p] && buf[p..][1..] == buf[p + 1..];
          if buf[p] == CPMEOF {
            break;
          }
          if buf[p] != CR {
            assert ([buf[p]] + TextOf(buf[p + 1..]))[..1] == [buf[p]];
            assert ([buf[p]] + TextOf(buf[p + 1..]))[1..] == TextOf(buf[p + 1..]);
            FWrite([buf[p]]);
          }
          p := p + 1;
        }
        assert TextOf(buf[p..]) == [];
        assert CPMEOF in buf <==> p < |buf|;
        eofSeen := p < |buf|;
      }
    }

    /** The code at `nxthdr`: scan, use a block, start over, until a scan finds nothing to use. */
    method NxtHdr(p: Phase)
      requires saved.Valid() && !MeetsEmpty(saved.Contents(), received)
      modifies this`out, this`writes, this`lost, this`eofSeen, this`received, saved, saved.nodes
      ensures saved.Valid() && saved.nodes == old(saved.nodes)
      ensures Now(WantHdr) == NextHdr(disk, old(Now(p)))
    {
      hide NextHdr, MeetsEmpty, Pending;
      ghost var goal := NextHdr(disk, Now(p));
      var more := true;
      while more
        invariant saved.Valid() && saved.nodes == old(saved.nodes)
        invariant more ==> !MeetsEmpty(saved.Contents(), received) && NextHdr(disk, Now(p)) == goal
        invariant !more ==> Now(WantHdr) == goal
        decreases more, Pending(saved.Contents(), received)
      {
        more := ScanAndUse(p);
      }
    }

    /** One scan of the list, and the block it found put to use. */
    method ScanAndUse(ghost p: Phase) returns (more: bool)
      requires saved.Valid() && !MeetsEmpty(saved.Contents(), received)
      modifies this`out, this`writes, this`lost, this`eofSeen, this`received, saved, saved.nodes
      ensures saved.Valid() && saved.nodes == old(saved.nodes)
      ensures !more ==> Now(WantHdr) == NextHdr(disk, old(Now(p)))
      ensures more ==>
        && !MeetsEmpty(saved.Contents(), received) && NextHdr(disk, Now(p)) == NextHdr(disk, old(Now(p)))
        && Pending(saved.Contents(), received) < old(Pending(saved.Contents(), received))
    {
      hide Putsec, NextHdr, OnePass, MeetsEmpty, Pending;
      PassMoves(disk, Now(p));
      var hit := saved.ScanOnce(received);
      if hit == null {
        return false;
      }
      DoPutsec(hit.data);
      received := received + |hit.data|;
      more := true;
    }

    /** What the branches of `rzfile` that say `continue` do at the top of its loop. */
    method AskPosition()
      modifies this`sent
      ensures sent == old(sent) + [Msg(ZRPOS, WirePos(received))]
    {
      sent := sent + [Msg(ZRPOS, WirePos(received))];
    }

    /** The switch on the result of `zgethdr`. */
    method DoHeader(e: Reply) returns (p: Phase)
      requires saved.Valid() && OnHeader(disk, Now(WantHdr), e).phase != Hung
      modifies this, saved, saved.nodes
      ensures saved == old(saved) && saved.Valid() && saved.nodes == old(saved.nodes)
      ensures Now(p) == OnHeader(disk, old(Now(WantHdr)), e)
    {
      hide MeetsEmpty, WirePos;
      NotHung(disk, Now(WantHdr));
      match e.code
      case StrayEnd(_) =>
        p := Done(FileError);
      case MyError =>
        n := n - 1;
        if n < 0 {
          return Done(FileError);
        }
        AskPosition();
        p := WantHdr;
      case TimedOut =>
        n := n - 1;
        p := if n < 0 then Done(FileError) else SkipData;
      case Type(t) =>
        if t == ZNAK {
          n := n - 1;
          p := if n < 0 then Done(FileError) else SkipData;
        } else if t == ZFILE {
          p := SkipData;
        } else if t == ZEOF {
          if e.pos != received {
            NxtHdr(WantHdr);
            p := WantHdr;
          } else {
            p := Done(if e.closed then FileDone else FileError);
          }
        } else if t == ZSKIP {
          p := Done(FileSkipped);
        } else if t == ZDATA {
          if e.pos != received {
            n := n - 1;
            p := if n < 0 then Done(FileError) else SaveData(e.pos);
          } else {
            p := MoreData;
          }
        } else {
          p := Done(FileError);
        }
    }

    /** The switch on the result of `zrdata` at `moredata`. */
    method DoMoreData(d: DataCode) returns (p: Phase)
      requires saved.Valid() && OnMoreData(disk, Now(MoreData), d).phase != Hung
      modifies this, saved, saved.nodes
      ensures saved == old(saved) && saved.Valid() && saved.nodes == old(saved.nodes)
      ensures Now(p) == OnMoreData(disk, old(Now(MoreData)), d)
    {
      hide MeetsEmpty, NextHdr, Putsec, WirePos;
      match d
      case DataCancelled =>
        p := Done(FileError);
      case DataError =>
        n := n - 1;
        if n < 0 {
          return Done(FileError);
        }
        AskPosition();
        p := WantHdr;
      case DataTimeout =>
        n := n - 1;
        if n < 0 {
          return Done(FileError);
        }
        AskPosition();
        p := WantHdr;
      case Got(fe, buf) =>
        n := 20;
        DoPutsec(buf);
        received := received + |buf|;
        assert Now(MoreData) == Accept(disk, old(Now(MoreData)), buf);
        if fe == ZCRCW {
          sent := sent + [Msg(ZACK, WirePos(received))];
          NotHung(disk, Now(MoreData));
          NxtHdr(MoreData);
          p := WantHdr;
        } else if fe == ZCRCQ {
          sent := sent + [Msg(ZACK, WirePos(received))];
          p := MoreData;
        } else if fe == ZCRCG {
          p := MoreData;
        } else {
          NotHung(disk, Now(MoreData));
          NxtHdr(MoreData);
          p := WantHdr;
        }
    }

    /** The out-of-sync branch of the ZDATA case. */
    method DoSaveData(pos: nat, e: Reply)
      requires saved.Valid()
      modifies this`sent, saved
      ensures saved == old(saved) && saved.Valid() && old(saved.nodes) <= saved.nodes && fresh(saved.nodes - old(saved.nodes))
      ensures Now(WantHdr) == OnSaveData(old(Now(SaveData(pos))), pos, e)
    {
      if e.data.Got? && pos > received && e.gotMemory {
        saved.Save(pos, e.data.buf);
      }
      AskPosition();
    }

    /**
      `rzfile` reading the line until the replies run out or it returns. It needs the loop
      at `nxthdr` to end each time, which the run of the model decides.
     */
    method Rzfile(es: seq<Reply>) returns (p: Phase)
      requires saved.Valid() && n == 20 && sent == [] && saved.Contents() == []
      requires RxRun(disk, RxInit(SinkNow(), received), es).phase != Hung
      modifies this, saved, saved.nodes
      ensures saved == old(saved) && saved.Valid()
      ensures Now(p) == RxRun(disk, RxInit(old(SinkNow()), old(received)), es)
    {
      hide RxStep, WirePos, RxRun;
      ghost var r0 := RxInit(SinkNow(), received);
      RunNone(disk, r0);
      AskPosition();
      p := WantHdr;
      var i := 0;
      assert es[..0] == [];
      while i < |es|
        invariant 0 <= i <= |es| && saved == old(saved) && saved.Valid()
        invariant old(saved.nodes) <= saved.nodes && fresh(saved.nodes - old(saved.nodes))
        invariant p != Hung && Now(p) == RxRun(disk, r0, es[..i])
      {
        var e := es[i];
        RunSnoc(disk, r0, es[..i], e);
        assert es[..i] + [e] == es[..i + 1];
        if RxRun(disk, r0, es[..i + 1]).phase == Hung {
          HungStays(disk, r0, es, i + 1);
        }
        p := DoStep(p, e);
        i := i + 1;
      }
      assert es[..i] == es;
    }

    /** What `rzfile` does with one read. */
    method DoStep(p: Phase, e: Reply) returns (q: Phase)
      requires saved.Valid() && p != Hung && RxStep(disk, Now(p), e).phase != Hung
      modifies this, saved, saved.nodes
      ensures saved == old(saved) && saved.Valid() && old(saved.nodes) <= saved.nodes && fresh(saved.nodes - old(saved.nodes))
      ensures q != Hung && Now(q) == RxStep(disk, old(Now(p)), e)
    {
      hide OnHeader, OnMoreData, OnSaveData, WirePos;
      match p {
        case WantHdr =>
          q := DoHeader(e);
        case MoreData =>
          q := DoMoreData(e.data);
        case SaveData(pos) =>
          DoSaveData(pos, e);
          q := WantHdr;
        case SkipData =>
          AskPosition();
          q := WantHdr;
        case Done(_) =>
          q := p;
      }
    }
  }

  lemma NotHung(disk: Disk, r: Rx)
    ensures NextHdr(disk, r).phase != Hung ==> !MeetsEmpty(r.saved, r.received)
  {
    hide MeetsEmpty;
  }

  /** One scan moves the loop along its way without changing where it ends. */
  lemma PassEffect(disk: Disk, k: Sink, bs: seq<Block>, r: nat)
    requires !MeetsEmpty(bs, r)
    ensures match OnePass(bs, r)
            case Finished(left) => Stop(bs, r) == r && Used(bs, r) == [] && left == Ahead(bs, r) && PutBlocks(disk, k, []) == k
            case Restart(left, b) =>
              && b.data != []
              && Stop(left, r + |b.data|) == Stop(bs, r)
              && PutBlocks(disk, Putsec(disk, k, b.data), Used(left, r + |b.data|)) == PutBlocks(disk, k, Used(bs, r))
              && Ahead(left, Stop(bs, r)) == Ahead(bs, Stop(bs, r))
              && !MeetsEmpty(left, r + |b.data|)
              && Pending(left, r + |b.data|) < Pending(bs, r)
  {
    hide FirstAt, Left, Ahead, Pending, Putsec;
    var i := FirstAt(bs, r);
    if i == |bs| {
      FullScanIsAhead(bs, r);
    } else {
      var r' := r + |bs[i].data|;
      PendingDrops(bs, r, i);
      ScanKeepsStop(bs, r, i, r');
      ScanKeepsPending(bs, r, i, r');
      ScanKeepsAhead(bs, r, i, Stop(bs, r));
    }
  }

  /** The same, on the receiver's state. */
  lemma PassMoves(disk: Disk, r: Rx)
    requires !MeetsEmpty(r.saved, r.received)
    ensures match OnePass(r.saved, r.received)
            case Finished(left) => NextHdr(disk, r) == r.(saved := left, phase := WantHdr)
            case Restart(left, b) =>
              var q := r.received + |b.data|;
              && NextHdr(disk, r) == NextHdr(disk, r.(saved := left, sink := Putsec(disk, r.sink, b.data), received := q))
              && !MeetsEmpty(left, q)
              && Pending(left, q) < Pending(r.saved, r.received)
  {
    hide Stop, Used, Ahead, PutBlocks, OnePass, MeetsEmpty, Pending, Putsec;
    PassEffect(disk, r.sink, r.saved, r.received);
  }
}
