/** `atomicio.c`: repeating partial reads and writes until everything has moved. */
module AtomicIo {
  import opened Basics

  /** One entry of an I/O vector: `len` bytes of memory from address `base` on. */
  datatype Iov = Iov(base: nat, len: nat)

  type Positive = n: int | n > 0 witness 1

  /** What one system call does; a count larger than what is left moves all that is left. */
  datatype Call = Again | Error | EndOfFile | Moved(count: Positive, stop: bool)

  /** How a transfer ended, and at which position. `Waiting` means that the calls ran out first. */
  datatype Outcome = Complete(pos: nat) | Failed(pos: nat) | Eof(pos: nat) | Stopped(pos: nat) | Waiting(pos: nat)

  /** Moving `left` more bytes from position `pos` through one buffer. */
  function Transfer(left: nat, pos: nat, calls: seq<Call>): Outcome
    decreases |calls|
  {
    if left == 0 then Complete(pos)
    else if calls == [] then Waiting(pos)
    else match calls[0]
      case Again => Transfer(left, pos, calls[1..])
      case Error => Failed(pos)
      case EndOfFile => Eof(pos)
      case Moved(count, stop) =>
        var n := Min(count, left);
        if stop then Stopped(pos + n) else Transfer(left - n, pos + n, calls[1..])
  }

  /** Nothing is counted twice or lost: the position never passes the total, and completion means all of it. */
  lemma {:induction false} TransferBounded(left: nat, pos: nat, calls: seq<Call>)
    ensures pos <= Transfer(left, pos, calls).pos <= pos + left
    ensures Transfer(left, pos, calls).Complete? ==> Transfer(left, pos, calls).pos == pos + left
    decreases |calls|
  {
    if left > 0 && calls != [] {
      match calls[0]
      case Again => TransferBounded(left, pos, calls[1..]);
      case Error =>
      case EndOfFile =>
      case Moved(count, stop) =>
        var n := Min(count, left);
        TransferBounded(left - n, pos + n, calls[1..]);
    }
  }

  /** `atomicio6`: one buffer of `n` bytes. */
  method AtomicIo6(n: nat, calls: seq<Call>) returns (r: nat, end: Outcome)
    ensures end == Transfer(n, 0, calls) && r == (if end.Failed? then 0 else end.pos) && r <= n
    ensures r == n <==> n == 0 || (end.pos == n && !end.Failed?)
  {
    var pos: nat := 0;
    var i := 0;
    while n > pos
      invariant pos <= n && i <= |calls|
      invariant Transfer(n - pos, pos, calls[i..]) == Transfer(n, 0, calls)
      decreases |calls| - i
    {
      if i == |calls| {
        return pos, Waiting(pos);
      }
      assert calls[i..][1..] == calls[i + 1..];
      match calls[i] {
        case Again =>
        case Error =>
          return 0, Failed(pos);
        case EndOfFile =>
          return pos, Eof(pos);
        case Moved(count, stop) =>
          var res := Min(count, n - pos);
          pos := pos + res;
          if stop {
            return pos, Stopped(pos);
          }
      }
      i := i + 1;
    }
    return pos, Complete(pos);
  }

  // ----- Vectors -----

  function Total(v: seq<Iov>): nat {
    if v == [] then 0 else v[0].len + Total(v[1..])
  }

  /** The addresses a vector covers, in the order in which they are transferred. */
  function Addresses(v: seq<Iov>): seq<nat> {
    if v == [] then [] else Range(v[0]) + Addresses(v[1..])
  }

  function Range(e: Iov): (s: seq<nat>)
    ensures |s| == e.len
  {
    seq(e.len, i requires 0 <= i < e.len => e.base + i)
  }

  lemma {:induction false} TotalIsLength(v: seq<Iov>)
    ensures |Addresses(v)| == Total(v)
  {
    if v != [] {
      TotalIsLength(v[1..]);
    }
  }

  /** The vector after `rem` bytes of it: whole entries dropped, the next one shortened, empty ones skipped. */
  function Advance(v: seq<Iov>, rem: nat): (r: seq<Iov>)
    requires rem <= Total(v)
    decreases |v|
  {
    if v == [] then []
    else if rem >= v[0].len then Advance(v[1..], rem - v[0].len)
    else [Iov(v[0].base + rem, v[0].len - rem)] + v[1..]
  }

  /** Advancing drops exactly the bytes that moved, and never stops at an empty entry. */
  lemma {:induction false} AdvanceDrops(v: seq<Iov>, rem: nat)
    requires rem <= Total(v)
    ensures |Addresses(v)| == Total(v)
    ensures Addresses(Advance(v, rem)) == Addresses(v)[rem..]
    ensures Total(Advance(v, rem)) == Total(v) - rem
    ensures var r := Advance(v, rem); r == [] || r[0].len > 0
    decreases |v|
  {
    hide Range;
    TotalIsLength(v);
    if v != [] {
      if rem >= v[0].len {
        AdvanceDrops(v[1..], rem - v[0].len);
        Dropped(Range(v[0]), Addresses(v[1..]), rem);
      } else {
        var e := Iov(v[0].base + rem, v[0].len - rem);
        RangeRest(v[0], rem);
        Dropped(Range(v[0]), Addresses(v[1..]), rem);
        assert ([e] + v[1..])[1..] == v[1..];
      }
    }
  }

  lemma RangeRest(e: Iov, k: nat)
    requires k <= e.len
    ensures Range(e)[k..] == Range(Iov(e.base + k, e.len - k))
  {
  }

  lemma Dropped(a: seq<nat>, b: seq<nat>, k: nat)
    requires k <= |a| + |b|
    ensures (a + b)[k..] == if k >= |a| then b[k - |a|..] else a[k..] + b
  {
  }

  /** A vector whose loop condition fails at once. */
  predicate StartsEmpty(v: seq<Iov>) {
    v == [] || v[0].len == 0
  }

  /** The skipping loop and the update of the entry that was left half done. */
  method Skip(iov: array<Iov>, first: nat, res: nat) returns (next: nat)
    requires first <= iov.Length && res <= Total(iov[first..])
    modifies iov
    ensures first <= next <= iov.Length && iov[next..] == Advance(old(iov[first..]), res)
  {
    var rem: nat := res;
    next := first;
    while next < iov.Length && rem >= iov[next].len
      invariant first <= next <= iov.Length && iov[..] == old(iov[..])
      invariant rem <= Total(iov[next..])
      invariant Advance(iov[next..], rem) == Advance(old(iov[first..]), res)
    {
      assert iov[next..][1..] == iov[next + 1..];
      rem := rem - iov[next].len;
      next := next + 1;
    }
    // The source returns EFAULT here when more was moved than the vector holds.
    assert !(rem > 0 && (next == iov.Length || rem > iov[next].len));
    if next < iov.Length {
      ghost var v := iov[next..];
      iov[next] := Iov(iov[next].base + rem, iov[next].len - rem);
      assert iov[next..] == [Iov(v[0].base + rem, v[0].len - rem)] + v[1..];
    }
  }

  /** `atomiciov6`, where `iovMax` is the platform's limit: `moved` collects the addresses the calls transferred. */
  method AtomicIov6(v: seq<Iov>, iovMax: nat, calls: seq<Call>) returns (r: nat, end: Outcome, ghost moved: seq<nat>)
    ensures |v| > iovMax ==> r == 0 && end == Failed(0)
    ensures |v| <= iovMax ==> end == if v == [] || v[0].len == 0 then Complete(0) else Transfer(Total(v), 0, calls)
    ensures r == if end.Failed? then 0 else end.pos
    ensures end.pos <= |Addresses(v)| && moved == Addresses(v)[..end.pos]
  {
    hide Advance, Addresses, Transfer, Total;
    ZeroLeft(0, calls);
    moved := [];
    TotalIsLength(v);
    if |v| > iovMax {
      return 0, Failed(0), [];
    }
    var iov := new Iov[|v|](i requires 0 <= i < |v| => v[i]);
    assert iov[0..] == v && calls[0..] == calls && Addresses(v)[0..] == Addresses(v);
    var first: nat, pos: nat, i: nat := 0, 0, 0;
    while first < iov.Length && iov[first].len > 0
      invariant first <= iov.Length && i <= |calls| && pos <= |Addresses(v)| == Total(v)
      invariant Total(iov[first..]) == Total(v) - pos
      invariant Addresses(iov[first..]) == Addresses(v)[pos..]
      invariant moved == Addresses(v)[..pos]
      invariant StartsEmpty(iov[first..]) ==> first == iov.Length || StartsEmpty(v)
      invariant StartsEmpty(v) ==> pos == 0 && iov[first..] == v
      invariant !StartsEmpty(v) ==> Transfer(Total(v) - pos, pos, calls[i..]) == Transfer(Total(v), 0, calls)
      decreases |calls| - i
    {
      HeadCounts(iov[first..]);
      assert iov[first..][0] == iov[first];
      assert !StartsEmpty(v);
      TransferStep(Total(v) - pos, pos, calls, i);
      if i == |calls| {
        return pos, Waiting(pos), moved;
      }
      match calls[i] {
        case Again =>
        case Error =>
          return 0, Failed(pos), moved;
        case EndOfFile =>
          return pos, Eof(pos), moved;
        case Moved(count, stop) =>
          var res := Min(count, Total(iov[first..]));
          AdvanceDrops(iov[first..], res);
          moved := moved + Addresses(iov[first..])[..res];
          Joined(Addresses(v), pos, res);
          first := Skip(iov, first, res);
          pos := pos + res;
          if stop {
            return pos, Stopped(pos), moved;
          }
      }
      i := i + 1;
    }
    if !StartsEmpty(v) {
      assert iov[first..] == [];
      NothingLeft(iov[first..]);
      ZeroLeft(pos, calls[i..]);
    }
    return pos, Complete(pos), moved;
  }

  lemma ZeroLeft(pos: nat, calls: seq<Call>)
    ensures Transfer(0, pos, calls) == Complete(pos)
  {
  }

  lemma NothingLeft(v: seq<Iov>)
    requires v == []
    ensures Total(v) == 0
  {
  }

  /** One call of a transfer that has something left. */
  lemma TransferStep(left: nat, pos: nat, calls: seq<Call>, i: nat)
    requires left > 0 && i <= |calls|
    ensures i == |calls| ==> Transfer(left, pos, calls[i..]) == Waiting(pos)
    ensures i < |calls| && calls[i].Again? ==> Transfer(left, pos, calls[i..]) == Transfer(left, pos, calls[i + 1..])
    ensures i < |calls| && calls[i].Error? ==> Transfer(left, pos, calls[i..]) == Failed(pos)
    ensures i < |calls| && calls[i].EndOfFile? ==> Transfer(left, pos, calls[i..]) == Eof(pos)
    ensures i < |calls| && calls[i].Moved? ==>
      var n := Min(calls[i].count, left);
      Transfer(left, pos, calls[i..]) ==
        if calls[i].stop then Stopped(pos + n) else Transfer(left - n, pos + n, calls[i + 1..])
  {
    if i < |calls| {
      assert calls[i..][1..] == calls[i + 1..];
    }
  }

  lemma HeadCounts(v: seq<Iov>)
    ensures v != [] ==> Total(v) >= v[0].len
  {
  }

  lemma Joined(a: seq<nat>, i: nat, n: nat)
    requires i + n <= |a|
    ensures a[..i] + a[i..][..n] == a[..i + n] && a[i..][n..] == a[i + n..]
  {
  }

  /**
   * The scattered transfer behaves like the flat one, for every sequence of calls, exactly when the vector does
   * not begin with an empty entry in front of something to move.
   */
  lemma FlatExactly(v: seq<Iov>, calls: seq<Call>)
    ensures (if StartsEmpty(v) then Complete(0) else Transfer(Total(v), 0, calls)) == Transfer(Total(v), 0, calls)
       <==> !(v != [] && v[0].len == 0 && exists e :: e in v && e.len > 0)
  {
    TransferBounded(Total(v), 0, calls);
    SomethingToMove(v);
  }

  lemma {:induction false} SomethingToMove(v: seq<Iov>)
    ensures Total(v) > 0 <==> exists e :: e in v && e.len > 0
  {
    if v != [] {
      SomethingToMove(v[1..]);
      assert forall e :: e in v <==> e == v[0] || e in v[1..];
    }
  }
}
