/** Flow control of SSH channels: two peers, the messages in flight between them, and their windows. */
module ChannelWindow {
  import opened Basics

  const U32: int := 0x1_0000_0000

  /** The fields of `Channel` that carry a plain stream in both directions. */
  datatype Chan = Chan(
    isOpen: bool,             // type == SSH_CHANNEL_OPEN
    closing: bool,            // CHAN_CLOSE_SENT or CHAN_CLOSE_RCVD is set
    outputOpen: bool,         // ostate == CHAN_OUTPUT_OPEN
    input: seq<byte>,
    output: seq<byte>,
    remoteWindow: nat,
    remoteMaxpacket: nat,
    localWindow: nat,
    localWindowMax: nat,
    localMaxpacket: nat,
    localConsumed: nat)

  datatype Message = Data(bytes: seq<byte>) | Adjust(n: nat)

  // ----- The operations, on values; windows are 32-bit unsigned -----

  /** The packet `channel_output_poll_input_open` sends, empty when it sends none. */
  function Polled(c: Chan): seq<byte> {
    if !c.isOpen || c.closing then []
    else c.input[..Min(Min(|c.input|, c.remoteWindow), c.remoteMaxpacket)]
  }

  function Poll(c: Chan): Chan {
    var d := Polled(c);
    c.(input := c.input[|d|..], remoteWindow := c.remoteWindow - |d|)
  }

  datatype Verdict = Accepted | Ignored | Faked | TooBig | TooMuch

  /** `channel_input_data`. */
  function DataVerdict(c: Chan, d: seq<byte>): Verdict {
    if !c.isOpen then Ignored
    else if !c.outputOpen then Faked
    else if |d| > c.localMaxpacket then TooBig
    else if |d| > c.localWindow then TooMuch
    else Accepted
  }

  function InputData(c: Chan, d: seq<byte>): Chan {
    match DataVerdict(c, d)
    case Accepted => c.(localWindow := c.localWindow - |d|, output := c.output + d)
    case Faked => c.(localWindow := (c.localWindow - |d|) % U32, localConsumed := (c.localConsumed + |d|) % U32)
    case Ignored => c
    case TooBig => c
    case TooMuch => c
  }

  /** `channel_handle_wfd` when `write` took `k` bytes. */
  function Written(c: Chan, k: nat): Chan
    requires k <= |c.output|
  {
    c.(output := c.output[k..], localConsumed := (c.localConsumed + k) % U32)
  }

  /** The condition of `channel_check_window`, on unsigned operands. */
  predicate AdjustDue(c: Chan) {
    && c.isOpen && !c.closing
    && ((c.localWindowMax - c.localWindow) % U32 > c.localMaxpacket * 3 % U32 || c.localWindow < c.localWindowMax / 2)
    && c.localConsumed > 0
  }

  function CheckWindow(c: Chan): Chan {
    if AdjustDue(c) then c.(localWindow := (c.localWindow + c.localConsumed) % U32, localConsumed := 0) else c
  }

  /** `channel_input_window_adjust` is fatal when the sum wraps. */
  predicate Overflows(c: Chan, n: nat) {
    (c.remoteWindow + n) % U32 < c.remoteWindow
  }

  function WindowAdjust(c: Chan, n: nat): Chan {
    if Overflows(c, n) then c else c.(remoteWindow := (c.remoteWindow + n) % U32)
  }

  function Receive(c: Chan, m: Message): Chan {
    match m
    case Data(d) => InputData(c, d)
    case Adjust(n) => WindowAdjust(c, n)
  }

  // ----- Two peers -----

  /**
    `ab` and `ba` are the messages in flight, oldest first. `aRead` is all that side `a`
    has read from its descriptor so far and `aWritten` all that it has written to it.
   */
  datatype Peers = Peers(a: Chan, b: Chan, ab: seq<Message>, ba: seq<Message>,
                         aRead: seq<byte>, aWritten: seq<byte>, bRead: seq<byte>, bWritten: seq<byte>)

  function Swap(s: Peers): Peers {
    Peers(s.b, s.a, s.ba, s.ab, s.bRead, s.bWritten, s.aRead, s.aWritten)
  }

  datatype Event = ReadSome(bytes: seq<byte>) | PollOnce | TakeMessage | WriteSome(k: nat) | Check

  /** What side `a` does. A write takes at least one byte and no more than there is. */
  predicate Enabled(s: Peers, e: Event) {
    match e
    case ReadSome(_) => true
    case PollOnce => true
    case TakeMessage => s.ba != []
    case WriteSome(k) => 0 < k <= |s.a.output|
    case Check => true
  }

  function StepA(s: Peers, e: Event): Peers
    requires Enabled(s, e)
  {
    match e
    case ReadSome(bytes) => s.(a := s.a.(input := s.a.input + bytes), aRead := s.aRead + bytes)
    case PollOnce =>
      s.(a := Poll(s.a), ab := if Polled(s.a) == [] then s.ab else s.ab + [Data(Polled(s.a))])
    case TakeMessage => s.(a := Receive(s.a, s.ba[0]), ba := s.ba[1..])
    case WriteSome(k) => s.(a := Written(s.a, k), aWritten := s.aWritten + s.a.output[..k])
    case Check => s.(a := CheckWindow(s.a), ab := if AdjustDue(s.a) then s.ab + [Adjust(s.a.localConsumed)] else s.ab)
  }

  ghost predicate Next(s: Peers, s': Peers) {
    || (exists e :: Enabled(s, e) && s' == StepA(s, e))
    || (exists e :: Enabled(Swap(s), e) && Swap(s') == StepA(Swap(s), e))
  }

  /** A channel as `channel_new` makes it, opened towards a peer with the given window and packet size. */
  function Opened(window: nat, maxpacket: nat, peerWindow: nat, peerMaxpacket: nat): Chan {
    Chan(true, false, true, [], [], peerWindow, peerMaxpacket, window, window, maxpacket, 0)
  }

  ghost predicate Init(s: Peers) {
    exists wa: nat, wb: nat, ma: nat, mb: nat :: IsInit(s, wa, ma, wb, mb)
  }

  predicate IsInit(s: Peers, wa: nat, ma: nat, wb: nat, mb: nat) {
    && wa < U32 && wb < U32 && ma < U32 && mb < U32
    && s == Peers(Opened(wa, ma, wb, mb), Opened(wb, mb, wa, ma), [], [], [], [], [], [])
  }

  // ----- Conservation -----

  function DataIn(ms: seq<Message>): nat {
    if ms == [] then 0 else (if ms[0].Data? then |ms[0].bytes| else 0) + DataIn(ms[1..])
  }

  function AdjustsIn(ms: seq<Message>): nat {
    if ms == [] then 0 else (if ms[0].Adjust? then ms[0].n else 0) + AdjustsIn(ms[1..])
  }

  function Payload(ms: seq<Message>): seq<byte> {
    if ms == [] then [] else (if ms[0].Data? then ms[0].bytes else []) + Payload(ms[1..])
  }

  /** One direction: `x` sends along `fwd`, `y` receives and sends adjusts along `back`. */
  ghost predicate Half(x: Chan, y: Chan, fwd: seq<Message>, back: seq<Message>, read: seq<byte>, written: seq<byte>) {
    && x.isOpen && !x.closing && y.isOpen && !y.closing && y.outputOpen
    && y.localWindow == x.remoteWindow + DataIn(fwd) + AdjustsIn(back)
    && y.localWindow + |y.output| + y.localConsumed == y.localWindowMax < U32
    && x.remoteMaxpacket == y.localMaxpacket < U32
    && (y.localMaxpacket == 0 ==> y.localWindow == y.localWindowMax)
    && (forall m :: m in fwd && m.Data? ==> 0 < |m.bytes| <= y.localMaxpacket)
    && read == written + y.output + Payload(fwd) + x.input
  }

  ghost predicate Inv(s: Peers) {
    && Half(s.a, s.b, s.ab, s.ba, s.aRead, s.bWritten)
    && Half(s.b, s.a, s.ba, s.ab, s.bRead, s.aWritten)
  }

  lemma {:induction false} FlightConcat(p: seq<Message>, q: seq<Message>)
    ensures DataIn(p + q) == DataIn(p) + DataIn(q)
    ensures AdjustsIn(p + q) == AdjustsIn(p) + AdjustsIn(q)
    ensures Payload(p + q) == Payload(p) + Payload(q)
  {
    if p == [] {
      assert p + q == q;
    } else {
      assert (p + q)[1..] == p[1..] + q;
      FlightConcat(p[1..], q);
    }
  }

  lemma FlightCons(ms: seq<Message>)
    requires ms != []
    ensures DataIn(ms) == (if ms[0].Data? then |ms[0].bytes| else 0) + DataIn(ms[1..])
    ensures AdjustsIn(ms) == (if ms[0].Adjust? then ms[0].n else 0) + AdjustsIn(ms[1..])
    ensures Payload(ms) == (if ms[0].Data? then ms[0].bytes else []) + Payload(ms[1..])
  {
  }

  lemma FlightSnoc(p: seq<Message>, m: Message)
    ensures DataIn(p + [m]) == DataIn(p) + if m.Data? then |m.bytes| else 0
    ensures AdjustsIn(p + [m]) == AdjustsIn(p) + if m.Adjust? then m.n else 0
    ensures Payload(p + [m]) == Payload(p) + if m.Data? then m.bytes else []
  {
    FlightConcat(p, [m]);
    assert [m][1..] == [];
  }

  lemma InitInv(s: Peers)
    requires Init(s)
    ensures Inv(s)
  {
  }

  lemma ReadKeeps(s: Peers, bytes: seq<byte>)
    requires Inv(s)
    ensures Inv(StepA(s, ReadSome(bytes)))
  {
    hide DataIn, AdjustsIn, Payload;
    assert s.bWritten + s.b.output + Payload(s.ab) + s.a.input + bytes
        == s.bWritten + s.b.output + Payload(s.ab) + (s.a.input + bytes);
  }

  lemma PollKeeps(s: Peers)
    requires Inv(s)
    ensures Inv(StepA(s, PollOnce))
  {
    hide DataIn, AdjustsIn, Payload;
    var d := Polled(s.a);
    if d != [] {
      FlightSnoc(s.ab, Data(d));
      assert s.a.input == d + s.a.input[|d|..];
      assert s.bWritten + s.b.output + Payload(s.ab) + s.a.input
          == s.bWritten + s.b.output + (Payload(s.ab) + d) + s.a.input[|d|..];
    }
  }

  lemma WriteKeeps(s: Peers, k: nat)
    requires Inv(s) && Enabled(s, WriteSome(k))
    ensures Inv(StepA(s, WriteSome(k)))
  {
    hide DataIn, AdjustsIn, Payload;
    assert s.aWritten + s.a.output == s.aWritten + s.a.output[..k] + s.a.output[k..];
  }

  lemma CheckKeeps(s: Peers)
    requires Inv(s)
    ensures Inv(StepA(s, Check))
  {
    hide DataIn, AdjustsIn, Payload;
    if AdjustDue(s.a) {
      FlightSnoc(s.ab, Adjust(s.a.localConsumed));
      assert Payload(s.ab) + [] == Payload(s.ab);
    }
  }

  /** The message that arrives next is never refused, and its adjust never overflows. */
  lemma NextMessageFits(s: Peers)
    requires Inv(s) && s.ba != []
    ensures match s.ba[0]
            case Data(d) => DataVerdict(s.a, d) == Accepted
            case Adjust(n) => !Overflows(s.a, n) && s.a.remoteWindow + n <= s.b.localWindowMax
  {
    assert s.ba[0] in s.ba;
  }

  lemma TakeKeeps(s: Peers)
    requires Inv(s) && Enabled(s, TakeMessage)
    ensures Inv(StepA(s, TakeMessage))
  {
    hide DataIn, AdjustsIn, Payload;
    NextMessageFits(s);
    FlightCons(s.ba);
    assert s.ba[0] in s.ba && forall m :: m in s.ba[1..] ==> m in s.ba;
    match s.ba[0]
    case Data(d) =>
      assert s.aWritten + s.a.output + (d + Payload(s.ba[1..])) + s.b.input
          == s.aWritten + (s.a.output + d) + Payload(s.ba[1..]) + s.b.input;
    case Adjust(n) =>
      assert [] + Payload(s.ba[1..]) == Payload(s.ba[1..]);
  }

  lemma StepKeeps(s: Peers, e: Event)
    requires Inv(s) && Enabled(s, e)
    ensures Inv(StepA(s, e))
  {
    hide Inv, StepA;
    match e
    case ReadSome(bytes) => ReadKeeps(s, bytes);
    case PollOnce => PollKeeps(s);
    case TakeMessage => TakeKeeps(s);
    case WriteSome(k) => WriteKeeps(s, k);
    case Check => CheckKeeps(s);
  }

  lemma SwapInv(s: Peers)
    ensures Inv(Swap(s)) <==> Inv(s)
    ensures Swap(Swap(s)) == s
  {
  }

  lemma NextKeeps(s: Peers, s': Peers)
    requires Inv(s) && Next(s, s')
    ensures Inv(s')
  {
    hide Inv, StepA;
    if e :| Enabled(s, e) && s' == StepA(s, e) {
      StepKeeps(s, e);
    } else {
      var e :| Enabled(Swap(s), e) && Swap(s') == StepA(Swap(s), e);
      SwapInv(s);
      StepKeeps(Swap(s), e);
      SwapInv(s');
    }
  }

  ghost predicate IsRun(run: seq<Peers>) {
    run != [] && Init(run[0]) && forall i :: 0 <= i < |run| - 1 ==> Next(run[i], run[i + 1])
  }

  lemma {:induction false} RunInv(run: seq<Peers>, i: nat)
    requires IsRun(run) && i < |run|
    ensures Inv(run[i])
  {
    hide Inv, Next, Init;
    if i == 0 {
      InitInv(run[0]);
    } else {
      RunInv(run, i - 1);
      NextKeeps(run[i - 1], run[i]);
    }
  }

  /**
    In every state of every run, in the direction from `a` to `b`: what `b` still allows
    is what `a` may still send plus all data and adjusts in flight; `b`'s window, its
    unwritten output and what it has not yet acknowledged add up to the window it
    opened with; and the bytes read by `a` are those written by `b`, those held by `b`,
    those in flight and those still held by `a`, in that order.
   */
  lemma WindowConservation(run: seq<Peers>, i: nat)
    requires IsRun(run) && i < |run|
    ensures var s := run[i];
            && s.b.localWindow == s.a.remoteWindow + DataIn(s.ab) + AdjustsIn(s.ba)
            && s.b.localWindow + |s.b.output| + s.b.localConsumed == s.b.localWindowMax
            && s.aRead == s.bWritten + s.b.output + Payload(s.ab) + s.a.input
            && (forall m :: m in s.ab && m.Data? ==> |m.bytes| <= s.b.localMaxpacket)
  {
    hide IsRun;
    RunInv(run, i);
  }

  /** No message that arrives is refused as too big or too much, and no adjust overflows. */
  lemma NothingRefused(run: seq<Peers>, i: nat)
    requires IsRun(run) && i < |run| && run[i].ba != []
    ensures match run[i].ba[0]
            case Data(d) => DataVerdict(run[i].a, d) == Accepted
            case Adjust(n) => !Overflows(run[i].a, n)
  {
    hide IsRun;
    RunInv(run, i);
    NextMessageFits(run[i]);
  }

  // ----- When adjusts are sent -----

  /** Bytes have been consumed, and more than three packets of window are outstanding or less than half is left. */
  predicate Owing(c: Chan) {
    && c.localConsumed > 0
    && (c.localWindowMax - c.localWindow > 3 * c.localMaxpacket || c.localWindow < c.localWindowMax / 2)
  }

  /**
    A check leaves nothing unacknowledged, or at most three packets of window outstanding and at
    least half of it; and, if three packets fit into 32 bits, it sends an adjust exactly when one
    is owed, for all that was consumed.
   */
  lemma CheckSettles(s: Peers)
    requires Inv(s)
    ensures var c := StepA(s, Check).a;
      || c.localConsumed == 0
      || (c.localWindowMax - c.localWindow <= 3 * c.localMaxpacket && c.localWindow >= c.localWindowMax / 2)
    ensures 3 * s.a.localMaxpacket < U32 ==>
      StepA(s, Check).ab == if Owing(s.a) then s.ab + [Adjust(s.a.localConsumed)] else s.ab
  {
    InGoodOrder(s);
    hide Inv, AdjustDue, CheckWindow;
    DueIs(s.a);
    CheckIs(s.a);
    Wrapped(s.a.localMaxpacket * 3);
  }

  lemma InGoodOrder(s: Peers)
    requires Inv(s)
    ensures s.a.isOpen && !s.a.closing && s.a.localWindow + s.a.localConsumed <= s.a.localWindowMax < U32
  {
  }

  lemma DueIs(c: Chan)
    requires c.localWindow <= c.localWindowMax < U32
    ensures AdjustDue(c) <==>
      && c.isOpen && !c.closing && c.localConsumed > 0
      && (c.localWindowMax - c.localWindow > c.localMaxpacket * 3 % U32 || c.localWindow < c.localWindowMax / 2)
  {
  }

  lemma CheckIs(c: Chan)
    requires c.localWindow + c.localConsumed < U32
    ensures CheckWindow(c) ==
      if AdjustDue(c) then c.(localWindow := c.localWindow + c.localConsumed, localConsumed := 0) else c
  {
    hide AdjustDue;
  }

  lemma Wrapped(n: nat)
    ensures n % U32 <= n && (n < U32 ==> n % U32 == n)
  {
  }

  lemma StepFlight(s: Peers, e: Event)
    requires Inv(s) && Enabled(s, e) && 3 * s.a.localMaxpacket < U32
    ensures var s' := StepA(s, e);
      && (forall m :: m in s'.ba ==> m in s.ba)
      && (forall m :: m in s'.ab && m.Adjust? ==> m in s.ab || (Owing(s.a) && m.n == s.a.localConsumed))
  {
    hide Inv;
    if e == Check {
      CheckSettles(s);
    }
  }

  /** Every adjust that `b` has in flight was sent when it was owed, for all that had been consumed then. */
  lemma {:induction false} AdjustsAreOwed(run: seq<Peers>, i: nat, n: nat)
    requires IsRun(run) && i < |run| && 3 * run[0].b.localMaxpacket < U32 && Adjust(n) in run[i].ba
    ensures exists j :: 0 <= j < i && Owing(run[j].b) && run[j].b.localConsumed == n
  {
    hide Inv, StepA, Owing, Init;
    if i == 0 {
      NothingInFlight(run[0]);
    } else {
      var s, s' := run[i - 1], run[i];
      RunInv(run, i - 1);
      RunConstants(run, i - 1);
      assert Next(s, s');
      if Adjust(n) in s.ba {
        AdjustsAreOwed(run, i - 1, n);
      } else {
        FlightOfNext(s, s', Adjust(n));
      }
    }
  }

  lemma NothingInFlight(s: Peers)
    requires Init(s)
    ensures s.ab == [] && s.ba == []
  {
  }

  lemma FlightOfNext(s: Peers, s': Peers, m: Message)
    requires Inv(s) && Next(s, s') && 3 * s.b.localMaxpacket < U32 && m.Adjust? && m in s'.ba && m !in s.ba
    ensures Owing(s.b) && m.n == s.b.localConsumed
  {
    hide Inv, StepA, Owing;
    if e :| Enabled(Swap(s), e) && Swap(s') == StepA(Swap(s), e) {
      SwapInv(s);
      StepFlight(Swap(s), e);
      assert s'.ba == Swap(s').ab;
    } else {
      var e :| Enabled(s, e) && s' == StepA(s, e);
      TakesOnly(s, e);
    }
  }

  lemma TakesOnly(s: Peers, e: Event)
    requires Enabled(s, e)
    ensures var s' := StepA(s, e); s'.b == s.b && forall m :: m in s'.ba ==> m in s.ba
  {
  }

  // ----- A receiver that keeps up -----

  /** Takes one message, writes out all there is, and checks its window. */
  function Turn(s: Peers): Peers
    requires s.ba != []
  {
    var s1 := StepA(s, TakeMessage);
    StepA(if s1.a.output == [] then s1 else StepA(s1, WriteSome(|s1.a.output|)), Check)
  }

  predicate Sends(e: Event) {
    e.ReadSome? || e.PollOnce?
  }

  /** `a` does anything; `b` sends, or does a whole turn. */
  ghost predicate AttentiveNext(s: Peers, s': Peers) {
    || (exists e :: Enabled(s, e) && s' == StepA(s, e))
    || (exists e :: Sends(e) && Swap(s') == StepA(Swap(s), e))
    || (s.ab != [] && Swap(s') == Turn(Swap(s)))
  }

  ghost predicate IsAttentiveRun(run: seq<Peers>) {
    run != [] && Init(run[0]) && forall i :: 0 <= i < |run| - 1 ==> AttentiveNext(run[i], run[i + 1])
  }

  /** Everything is written, at most three packets of window are outstanding and at least half is left. */
  predicate Rested(c: Chan) {
    c.output == [] && c.localWindow >= c.localWindowMax - 3 * c.localMaxpacket && c.localWindow >= c.localWindowMax / 2
  }

  lemma TurnRests(s: Peers)
    requires Inv(s) && s.ba != []
    ensures Inv(Turn(s)) && Rested(Turn(s).a)
    ensures Turn(s).a.localMaxpacket == s.a.localMaxpacket && Turn(s).a.localWindowMax == s.a.localWindowMax
  {
    hide Inv;
    var s1 := StepA(s, TakeMessage);
    StepKeeps(s, TakeMessage);
    StepConstants(s, TakeMessage);
    var s2 := if s1.a.output == [] then s1 else StepA(s1, WriteSome(|s1.a.output|));
    if s1.a.output != [] {
      StepKeeps(s1, WriteSome(|s1.a.output|));
      StepConstants(s1, WriteSome(|s1.a.output|));
    }
    StepKeeps(s2, Check);
    CheckSettles(s2);
    AllAccounted(Turn(s));
  }

  lemma AllAccounted(s: Peers)
    requires Inv(s)
    ensures s.a.localWindow + |s.a.output| + s.a.localConsumed == s.a.localWindowMax
  {
  }

  lemma SendingRests(s: Peers, e: Event)
    requires Sends(e) && Rested(s.a)
    ensures Rested(StepA(s, e).a) && StepA(s, e).a.localMaxpacket == s.a.localMaxpacket
    ensures StepA(s, e).a.localWindowMax == s.a.localWindowMax
  {
  }

  lemma AttentiveKeeps(s: Peers, s': Peers)
    requires Inv(s) && Rested(s.b) && AttentiveNext(s, s')
    ensures Inv(s') && Rested(s'.b)
    ensures s'.b.localMaxpacket == s.b.localMaxpacket && s'.b.localWindowMax == s.b.localWindowMax
  {
    hide Inv, StepA, Rested, Turn;
    SwapInv(s);
    SwapInv(s');
    assert Swap(s').a == s'.b;
    if e :| Enabled(s, e) && s' == StepA(s, e) {
      StepKeeps(s, e);
      TakesOnly(s, e);
    } else if e :| Sends(e) && Swap(s') == StepA(Swap(s), e) {
      StepKeeps(Swap(s), e);
      SendingRests(Swap(s), e);
    } else {
      TurnRests(Swap(s));
    }
  }

  /**
    While the receiver writes and checks after every message, the sender's window together with
    what is in flight never falls below half of the window, nor more than three packets below all
    of it.
   */
  lemma {:induction false} WindowStaysWide(run: seq<Peers>, i: nat)
    requires IsAttentiveRun(run) && i < |run|
    ensures Inv(run[i]) && Rested(run[i].b)
    ensures var s := run[i]; var w, m := run[0].b.localWindowMax, run[0].b.localMaxpacket;
      && s.b.localMaxpacket == m && s.b.localWindowMax == w
      && s.a.remoteWindow + DataIn(s.ab) + AdjustsIn(s.ba) >= w / 2
      && s.a.remoteWindow + DataIn(s.ab) + AdjustsIn(s.ba) >= w - 3 * m
  {
    hide Inv, AttentiveNext, Init;
    if i == 0 {
      InitInv(run[0]);
      InitRests(run[0]);
    } else {
      WindowStaysWide(run, i - 1);
      AttentiveKeeps(run[i - 1], run[i]);
    }
    InFlight(run[i]);
  }

  lemma InitRests(s: Peers)
    requires Init(s)
    ensures Rested(s.b)
  {
  }

  lemma InFlight(s: Peers)
    requires Inv(s)
    ensures s.b.localWindow == s.a.remoteWindow + DataIn(s.ab) + AdjustsIn(s.ba)
  {
  }

  /** A turn is made of ordinary steps, so every state of such a run is one of an ordinary run. */
  lemma {:induction false} AttentiveReached(run: seq<Peers>, i: nat) returns (steps: seq<Peers>)
    requires IsAttentiveRun(run) && i < |run|
    ensures steps != [] && IsRun(steps) && steps[|steps| - 1] == run[i]
  {
    hide AttentiveNext, Next, Init;
    if i == 0 {
      steps := [run[0]];
    } else {
      var before := AttentiveReached(run, i - 1);
      var more := StepsOf(run[i - 1], run[i]);
      steps := before + more;
      forall j | 0 <= j < |steps| - 1 ensures Next(steps[j], steps[j + 1]) {
        if j >= |before| {
          assert Next(more[j - |before|], more[j - |before| + 1]);
        }
      }
    }
  }

  lemma StepsOf(s: Peers, s': Peers) returns (more: seq<Peers>)
    requires AttentiveNext(s, s')
    ensures more != [] && more[|more| - 1] == s' && Next(s, more[0])
    ensures forall j :: 0 <= j < |more| - 1 ==> Next(more[j], more[j + 1])
  {
    hide StepA;
    if e :| Enabled(s, e) && s' == StepA(s, e) {
      more := [s'];
    } else if e :| Sends(e) && Swap(s') == StepA(Swap(s), e) {
      assert Enabled(Swap(s), e);
      more := [s'];
    } else {
      var s1 := StepA(Swap(s), TakeMessage);
      assert Swap(Swap(s1)) == s1 && Enabled(Swap(s), TakeMessage);
      if s1.a.output == [] {
        assert Enabled(s1, Check);
        more := [Swap(s1), s'];
      } else {
        var k := WriteSome(|s1.a.output|);
        var s2 := StepA(s1, k);
        assert Swap(Swap(s2)) == s2 && Enabled(s1, k) && Enabled(s2, Check);
        more := [Swap(s1), Swap(s2), s'];
      }
    }
  }

  // ----- Channels in any state -----

  /**
    Whatever state a channel is in, data neither creates nor destroys window: it is delivered exactly
    when the channel and its output half are open and it fits, it counts as consumed when only the
    output half is closed, and otherwise it changes nothing.
   */
  lemma DataConservesWindow(c: Chan, d: seq<byte>)
    requires c.localWindow < U32 && c.localConsumed < U32 && d != []
    ensures var c' := InputData(c, d);
      && (c'.localWindow + c'.localConsumed + |c'.output|) % U32 == (c.localWindow + c.localConsumed + |c.output|) % U32
      && (c'.output == c.output + d <==> c.isOpen && c.outputOpen && |d| <= c.localMaxpacket && |d| <= c.localWindow)
      && (c'.localConsumed == (c.localConsumed + |d|) % U32 || c' == c || c'.output == c.output + d)
      && (c.isOpen && !c.outputOpen ==> c'.localWindow == (c.localWindow - |d|) % U32 && c'.output == c.output)
      && (!c.isOpen ==> c' == c)
      && c' == c.(localWindow := c'.localWindow, localConsumed := c'.localConsumed, output := c'.output)
  {
  }

  /** A channel that is not open or is being closed sends neither data nor adjusts. */
  lemma ClosingIsSilent(c: Chan)
    requires !c.isOpen || c.closing
    ensures Polled(c) == [] && Poll(c) == c && !AdjustDue(c) && CheckWindow(c) == c
  {
  }

  /** An adjust adds to the window exactly if the sum fits into 32 bits, and is fatal otherwise. */
  lemma AdjustAddsOrFails(c: Chan, n: nat)
    requires c.remoteWindow < U32 && n < U32
    ensures Overflows(c, n) <==> c.remoteWindow + n >= U32
    ensures WindowAdjust(c, n) == if c.remoteWindow + n < U32 then c.(remoteWindow := c.remoteWindow + n) else c
  {
  }

  /** With its output half closed, a channel that checks its window still pays back the sender for what it drops. */
  lemma ClosedOutputPaysBack(c: Chan, d: seq<byte>)
    requires c.isOpen && !c.closing && !c.outputOpen && |d| <= c.localWindow
    requires c.localWindow + c.localConsumed == c.localWindowMax < U32
    ensures var c' := CheckWindow(InputData(c, d));
      && c'.localWindow + c'.localConsumed == c.localWindowMax && c'.output == c.output
      && c'.localWindow >= c.localWindowMax / 2 && c'.localWindow >= c.localWindowMax - 3 * c.localMaxpacket
  {
    hide InputData;
    FakedIs(c, d);
    Wrapped(3 * c.localMaxpacket);
    CheckedIs(InputData(c, d));
  }

  lemma FakedIs(c: Chan, d: seq<byte>)
    requires c.isOpen && !c.outputOpen && |d| <= c.localWindow < U32 && c.localConsumed + |d| < U32
    ensures InputData(c, d) == c.(localWindow := c.localWindow - |d|, localConsumed := c.localConsumed + |d|)
  {
  }

  /** A check where window and consumed bytes add up to the whole window. */
  lemma CheckedIs(c: Chan)
    requires c.isOpen && !c.closing && c.localWindow + c.localConsumed == c.localWindowMax < U32
    ensures CheckWindow(c) == c || CheckWindow(c) == c.(localWindow := c.localWindowMax, localConsumed := 0)
    ensures CheckWindow(c) == c && c.localConsumed > 0 ==>
      c.localConsumed <= c.localMaxpacket * 3 % U32 && c.localWindow >= c.localWindowMax / 2
  {
  }

  // ----- No deadlock, except for tiny windows -----

  /**
    `a` cannot send and nothing will change that: it may put no byte into a packet, or it has
    no window left, nothing is in flight that could give it one, and `b` neither holds output
    it could still write nor is due to send an adjust.
   */
  predicate Stuck(s: Peers) {
    || s.a.remoteMaxpacket == 0
    || (&& s.a.remoteWindow == 0 && DataIn(s.ab) == 0 && AdjustsIn(s.ba) == 0
        && s.b.output == [] && !AdjustDue(s.b))
  }

  lemma StepConstants(s: Peers, e: Event)
    requires Enabled(s, e)
    ensures var s' := StepA(s, e);
            && s'.b.localWindowMax == s.b.localWindowMax && s'.b.localMaxpacket == s.b.localMaxpacket
            && s'.a.localWindowMax == s.a.localWindowMax && s'.a.localMaxpacket == s.a.localMaxpacket
  {
  }

  lemma NextConstants(s: Peers, s': Peers)
    requires Next(s, s')
    ensures s'.b.localWindowMax == s.b.localWindowMax && s'.b.localMaxpacket == s.b.localMaxpacket
  {
    hide StepA;
    if e :| Enabled(s, e) && s' == StepA(s, e) {
      StepConstants(s, e);
    } else {
      var e :| Enabled(Swap(s), e) && Swap(s') == StepA(Swap(s), e);
      StepConstants(Swap(s), e);
      assert s'.b == Swap(s').a;
    }
  }

  lemma {:induction false} RunConstants(run: seq<Peers>, i: nat)
    requires IsRun(run) && i < |run|
    ensures run[i].b.localWindowMax == run[0].b.localWindowMax && run[i].b.localMaxpacket == run[0].b.localMaxpacket
  {
    hide Next, Init;
    if i > 0 {
      RunConstants(run, i - 1);
      NextConstants(run[i - 1], run[i]);
    }
  }

  /** Runs in which `b` opened the channel with window `w` and packet size `m`. */
  ghost predicate RunWith(run: seq<Peers>, w: nat, m: nat) {
    IsRun(run) && run[0].b.localWindowMax == w && run[0].b.localMaxpacket == m
  }

  ghost predicate NeverStuck(w: nat, m: nat) {
    forall run, i | RunWith(run, w, m) && 0 <= i < |run| :: !Stuck(run[i])
  }

  lemma WideEnoughNotStuck(s: Peers)
    requires Inv(s) && s.b.localWindowMax >= 2 && s.b.localMaxpacket >= 1
    ensures !Stuck(s)
  {
  }

  /** A window of zero is stuck from the start. */
  lemma ZeroWindowStuck(m: nat)
    requires m < U32
    ensures !NeverStuck(0, m)
  {
    var s := Peers(Opened(0, 0, 0, m), Opened(0, m, 0, 0), [], [], [], [], [], []);
    assert IsInit(s, 0, 0, 0, m);
    assert RunWith([s], 0, m) && Stuck([s][0]);
  }

  /** So is a packet size of zero. */
  lemma ZeroPacketStuck(w: nat)
    requires w < U32
    ensures !NeverStuck(w, 0)
  {
    var s := Peers(Opened(0, 0, w, 0), Opened(w, 0, 0, 0), [], [], [], [], [], []);
    assert IsInit(s, 0, 0, w, 0);
    assert RunWith([s], w, 0) && Stuck([s][0]);
  }

  lemma TripleNotZero(m: nat)
    requires 0 < m < U32
    ensures m * 3 % U32 != 0
  {
  }

  /** One byte is read, sent, received and written, over a window of one. */
  function OneByte(i: nat, m: nat): Peers {
    var a, b := Opened(0, 0, 1, m), Opened(1, m, 0, 0);
    if i == 0 then Peers(a, b, [], [], [], [], [], [])
    else if i == 1 then Peers(a.(input := [7]), b, [], [], [7], [], [], [])
    else if i == 2 then Peers(a.(remoteWindow := 0), b, [Data([7])], [], [7], [], [], [])
    else if i == 3 then Peers(a.(remoteWindow := 0), b.(localWindow := 0, output := [7]), [], [], [7], [], [], [])
    else Peers(a.(remoteWindow := 0), b.(localWindow := 0, localConsumed := 1), [], [], [7], [], [], [7])
  }

  lemma OneByteSends(m: nat)
    requires 0 < m < U32
    ensures Next(OneByte(0, m), OneByte(1, m)) && Next(OneByte(1, m), OneByte(2, m))
  {
    var s0, s1, s2 := OneByte(0, m), OneByte(1, m), OneByte(2, m);
    assert Enabled(s0, ReadSome([7])) && s1 == StepA(s0, ReadSome([7]));
    assert Polled(s1.a) == [7] && [7][1..] == [];
    assert Enabled(s1, PollOnce) && s2 == StepA(s1, PollOnce);
  }

  lemma OneByteArrives(m: nat)
    requires 0 < m < U32
    ensures Next(OneByte(2, m), OneByte(3, m)) && Next(OneByte(3, m), OneByte(4, m))
  {
    var s2, s3, s4 := OneByte(2, m), OneByte(3, m), OneByte(4, m);
    assert [Data([7])][1..] == [] && [] + [7] == [7] && [7][1..] == [] && [7][..1] == [7];
    assert Enabled(Swap(s2), TakeMessage) && Swap(s3) == StepA(Swap(s2), TakeMessage);
    assert Enabled(Swap(s3), WriteSome(1)) && Swap(s4) == StepA(Swap(s3), WriteSome(1));
  }

  /** After that both sides wait for ever. */
  lemma OneByteWindowStuck(m: nat)
    requires 0 < m < U32
    ensures !NeverStuck(1, m)
  {
    hide Next;
    var run := [OneByte(0, m), OneByte(1, m), OneByte(2, m), OneByte(3, m), OneByte(4, m)];
    OneByteSends(m);
    OneByteArrives(m);
    assert IsInit(run[0], 0, 0, 1, m);
    assert RunWith(run, 1, m);
    TripleNotZero(m);
    assert Stuck(run[4]);
  }

  /**
    The sender is never left stuck if and only if the receiver opened with a window of at
    least two bytes and a packet size of at least one.
   */
  lemma NeverStuckExactly(w: nat, m: nat)
    requires w < U32 && m < U32
    ensures NeverStuck(w, m) <==> w >= 2 && m >= 1
  {
    hide Stuck, Inv, IsRun;
    if w >= 2 && m >= 1 {
      forall run, i | RunWith(run, w, m) && 0 <= i < |run| ensures !Stuck(run[i]) {
        RunInv(run, i);
        RunConstants(run, i);
        WideEnoughNotStuck(run[i]);
      }
    } else if m == 0 {
      ZeroPacketStuck(w);
    } else if w == 0 {
      ZeroWindowStuck(m);
    } else {
      OneByteWindowStuck(m);
    }
  }

  // ----- The channel as an object -----

  class Channel {
    var isOpen: bool
    var closing: bool
    var outputOpen: bool
    var input: seq<byte>
    var output: seq<byte>
    var remoteWindow: nat
    var remoteMaxpacket: nat
    var localWindow: nat
    var localWindowMax: nat
    var localMaxpacket: nat
    var localConsumed: nat

    ghost function Now(): Chan
      reads this
    {
      Chan(isOpen, closing, outputOpen, input, output, remoteWindow, remoteMaxpacket,
           localWindow, localWindowMax, localMaxpacket, localConsumed)
    }

    /** `channel_new`, and the confirmation that opens the channel. */
    constructor (window: nat, maxpacket: nat, peerWindow: nat, peerMaxpacket: nat)
      ensures Now() == Opened(window, maxpacket, peerWindow, peerMaxpacket)
    {
      input, output := [], [];
      outputOpen := true;
      localWindow := window;
      localWindowMax := window;
      localMaxpacket := maxpacket;
      localConsumed := 0;
      remoteWindow, remoteMaxpacket := peerWindow, peerMaxpacket;
      isOpen, closing := true, false;
    }

    method ChannelOutputPoll() returns (packet: seq<byte>)
      modifies this
      ensures packet == Polled(old(Now())) && Now() == Poll(old(Now()))
    {
      if !isOpen || closing {
        return [];
      }
      var len := |input|;
      if len > remoteWindow {
        len := remoteWindow;
      }
      if len > remoteMaxpacket {
        len := remoteMaxpacket;
      }
      if len == 0 {
        return [];
      }
      packet := input[..len];
      input := input[len..];
      remoteWindow := remoteWindow - len;
    }

    method ChannelInputData(data: seq<byte>) returns (v: Verdict)
      modifies this
      ensures v == DataVerdict(old(Now()), data) && Now() == InputData(old(Now()), data)
    {
      if !isOpen {
        return Ignored;
      }
      var len := |data|;
      if !outputOpen {
        localWindow := (localWindow - len) % U32;
        localConsumed := (localConsumed + len) % U32;
        return Faked;
      }
      if len > localMaxpacket {
        return TooBig;
      }
      if len > localWindow {
        return TooMuch;
      }
      localWindow := localWindow - len;
      output := output + data;
      return Accepted;
    }

    /**
     * `channel_handle_wfd`; `len` is what `write` returned, and `again` that a negative value only asks for
     * another try. A failed write closes the output half of an open channel
     * and drops what it held.
     */
    method ChannelHandleWfd(len: int, again: bool) returns (ret: int)
      requires len <= |output|
      modifies this
      ensures var failed := |old(output)| > 0 && len <= 0 && !(len < 0 && again);
        && ret == (if failed then -1 else 1)
        && Now() == (if len > 0 then Written(old(Now()), len)
                     else if failed && old(isOpen) then old(Now()).(outputOpen := false, output := [])
                     else old(Now()))
    {
      if |output| == 0 {
        return 1;
      }
      if len < 0 && again {
        return 1;
      }
      if len <= 0 {
        if isOpen {
          outputOpen, output := false, [];
        }
        return -1;
      }
      var olen := |output|;
      output := output[len..];
      localConsumed := (localConsumed + (olen - |output|)) % U32;
      return 1;
    }

    method ChannelCheckWindow() returns (adjust: Option<nat>)
      modifies this
      ensures adjust == (if AdjustDue(old(Now())) then Some(old(localConsumed)) else None)
      ensures Now() == CheckWindow(old(Now()))
    {
      adjust := None;
      if isOpen && !closing &&
         ((localWindowMax - localWindow) % U32 > localMaxpacket * 3 % U32 || localWindow < localWindowMax / 2) &&
         localConsumed > 0
      {
        adjust := Some(localConsumed);
        localWindow := (localWindow + localConsumed) % U32;
        localConsumed := 0;
      }
    }

    method ChannelInputWindowAdjust(adjust: nat) returns (fatal: bool)
      modifies this
      ensures fatal == Overflows(old(Now()), adjust) && Now() == WindowAdjust(old(Now()), adjust)
    {
      var newRwin := (remoteWindow + adjust) % U32;
      if newRwin < remoteWindow {
        return true;
      }
      remoteWindow := newRwin;
      return false;
    }
  }
}
