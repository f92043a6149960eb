/** The incremental SOCKS4, SOCKS4A and SOCKS5 decoders behind dynamic port forwarding. */
module Socks {
  import opened Basics

  /** Where to connect; the textual form of an address is not modelled. */
  datatype Host = NoHost | Name(text: seq<byte>) | V4(addr: seq<byte>) | V6(addr: seq<byte>)

  datatype Status = Waiting | Opening | Dead

  /** The fields of a dynamic channel: `input`, `output`, SSH_SOCKS5_AUTHDONE, `path` and `host_port`. */
  datatype Dyn = Dyn(input: seq<byte>, output: seq<byte>, authDone: bool, path: Host, port: bv16, status: Status)

  const MAXHOST: nat := 1025     // NI_MAXHOST

  const REPLY4: seq<byte> := [0, 90, 0, 0, 0, 0, 0, 0]
  const REPLY5: seq<byte> := [5, 0, 0, 1, 0, 0, 0, 0, 0, 0]

  function Port(hi: byte, lo: byte): bv16 { ((hi as bv16) << 8) | (lo as bv16) }

  /** The port's two bytes are in network order. */
  lemma PortBytes(hi: byte, lo: byte)
    ensures (Port(hi, lo) >> 8) as byte == hi && (Port(hi, lo) & 0xff) as byte == lo
  {
  }

  function Count(b: byte): nat { b as int }

  /** The C string at the start of a buffer: everything before the first NUL. */
  function CStr(s: seq<byte>): (r: seq<byte>)
    ensures |r| <= |s| && r == s[..|r|] && 0 !in r
    ensures |r| < |s| ==> s[|r|] == 0
  {
    if s == [] || s[0] == 0 then [] else [s[0]] + CStr(s[1..])
  }

  // ----- SOCKS4 -----

  /** Whether the scan for terminators ends with all of them, gives up, or needs more input. */
  datatype Nuls = AllFound | TooLong | NeedMore

  function ScanNuls(p: seq<byte>, i: nat, found: nat, need: nat): Nuls
    requires i <= |p|
    decreases |p| - i
  {
    if i == |p| then NeedMore
    else
      var found' := if p[i] == 0 then found + 1 else found;
      if p[i] == 0 && found' == need then AllFound
      else if i > 1024 then TooLong
      else ScanNuls(p, i + 1, found', need)
  }

  predicate IsSocks4a(p: seq<byte>)
    requires |p| >= 8
  {
    p[4] == 0 && p[5] == 0 && p[6] == 0 && p[7] != 0
  }

  /** The strings are there: the user name is skipped and, for SOCKS4A, the host name taken. */
  function Finish4(d: Dyn): Dyn
    requires |d.input| >= 8
  {
    var p := d.input;
    var s1 := p[8..];
    var user := CStr(s1);
    if |user| == |s1| then d.(input := s1, status := Dead)
    else
      var d1 := d.(input := s1[|user| + 1..]);
      if IsSocks4a(p) then TakeHost4a(d1, Port(p[2], p[3]), p[1] == 1)
      else Granted(d1.(path := V4(p[4..8]), port := Port(p[2], p[3])), p[1] == 1, REPLY4)
  }

  function TakeHost4a(d: Dyn, port: bv16, connect: bool): Dyn {
    var host := CStr(d.input);
    if |host| == |d.input| || |host| + 1 > MAXHOST then d.(path := NoHost, status := Dead)
    else Granted(d.(input := d.input[|host| + 1..], path := Name(host), port := port), connect, REPLY4)
  }

  function Granted(d: Dyn, ok: bool, reply: seq<byte>): Dyn {
    if ok then d.(output := d.output + reply, status := Opening) else d.(status := Dead)
  }

  /** `channel_decode_socks4`, acting on the channel as its caller does. */
  function Decode4(d: Dyn): Dyn {
    var p := d.input;
    if |p| < 8 then d
    else match ScanNuls(p, 8, 0, if IsSocks4a(p) then 2 else 1)
      case NeedMore => d
      case TooLong => d.(status := Dead)
      case AllFound => Finish4(d)
  }

  // ----- SOCKS5 -----

  function Greeting5(d: Dyn): Dyn {
    var p := d.input;
    if |p| < 2 || |p| < Count(p[1]) + 2 then d
    else
      var n := Count(p[1]) + 2;
      if 0 !in p[2..n] then d.(status := Dead)
      else d.(input := p[n..], output := d.output + [5, 0], authDone := true)
  }

  /** The length of the address, by type; a domain name carries its own. */
  function AddrLen(p: seq<byte>): nat
    requires |p| >= 5
  {
    if p[3] == 1 then 4 else if p[3] == 4 then 16 else Count(p[4])
  }

  /** Where the address starts. */
  function AddrAt(p: seq<byte>): nat
    requires |p| >= 4
  {
    if p[3] == 3 then 5 else 4
  }

  function HostOf(atyp: byte, addr: seq<byte>): Host {
    if atyp == 1 then V4(addr) else if atyp == 4 then V6(addr) else Name(CStr(addr))
  }

  function Request5(d: Dyn): Dyn {
    var p := d.input;
    if |p| < 5 then d
    else if p[0] != 5 || p[1] != 1 || p[2] != 0 then d.(status := Dead)
    else if p[3] != 1 && p[3] != 3 && p[3] != 4 then d.(status := Dead)
    else
      var at := AddrAt(p);
      var n := AddrLen(p);
      if |p| < at + n + 2 then d
      else
        var d' := d.(input := p[at + n + 2..], path := HostOf(p[3], p[at..at + n]),
                     port := Port(p[at + n], p[at + n + 1]));
        Granted(d', true, REPLY5)
  }

  /** `channel_decode_socks5`. */
  function Decode5(d: Dyn): Dyn {
    if d.authDone then Request5(d) else Greeting5(d)
  }

  /** `channel_pre_dynamic`. */
  function PreDynamic(d: Dyn): Dyn {
    if d.status != Waiting || |d.input| < 3 then d
    else if d.input[0] == 4 then Decode4(d)
    else if d.input[0] == 5 then Decode5(d)
    else d.(status := Dead)
  }

  function Measure(d: Dyn): nat {
    if d.status == Waiting then 1 + |d.input| else 0
  }

  lemma Progress(d: Dyn)
    ensures PreDynamic(d) != d ==> Measure(PreDynamic(d)) < Measure(d)
  {
    hide ScanNuls, CStr;
  }

  /** The decoder is run again until it waits for input or has reached a verdict. */
  function Settle(d: Dyn): Dyn
    decreases Measure(d)
  {
    if PreDynamic(d) == d then d else (Progress(d); Settle(PreDynamic(d)))
  }

  function More(d: Dyn, chunk: seq<byte>): Dyn {
    d.(input := d.input + chunk)
  }

  /** Input arrives in chunks, each followed by a run of the decoder. */
  function FeedAll(d: Dyn, chunks: seq<seq<byte>>): Dyn
    decreases chunks
  {
    if chunks == [] then d else FeedAll(Settle(More(d, chunks[0])), chunks[1..])
  }

  function Flatten(chunks: seq<seq<byte>>): seq<byte> {
    if chunks == [] then [] else chunks[0] + Flatten(chunks[1..])
  }

  // ----- Decisions do not depend on what comes later -----

  lemma {:induction false} ScanStable(p: seq<byte>, q: seq<byte>, i: nat, found: nat, need: nat)
    requires i <= |p| && ScanNuls(p, i, found, need) != NeedMore
    ensures ScanNuls(p + q, i, found, need) == ScanNuls(p, i, found, need)
    decreases |p| - i
  {
    var found' := if p[i] == 0 then found + 1 else found;
    assert (p + q)[i] == p[i];
    if !(p[i] == 0 && found' == need) && i <= 1024 {
      ScanStable(p, q, i + 1, found', need);
    }
  }

  lemma {:induction false} CStrStable(s: seq<byte>, q: seq<byte>)
    requires |CStr(s)| < |s|
    ensures CStr(s + q) == CStr(s)
  {
    if s[0] != 0 {
      assert (s + q)[1..] == s[1..] + q;
      CStrStable(s[1..], q);
    }
  }

  /** Once the scan has found its terminators, the strings it found end before the input does. */
  lemma {:induction false} ScanFinds(p: seq<byte>, i: nat, found: nat, need: nat)
    requires i <= |p| && found < need <= 2 && ScanNuls(p, i, found, need) == AllFound
    ensures var s1 := p[i..];
            && |CStr(s1)| < |s1|
            && (need - found == 2 ==> var s2 := s1[|CStr(s1)| + 1..]; |CStr(s2)| < |s2|)
    decreases |p| - i
  {
    var found' := if p[i] == 0 then found + 1 else found;
    assert p[i..][0] == p[i] && p[i..][1..] == p[i + 1..];
    if !(p[i] == 0 && found' == need) {
      ScanFinds(p, i + 1, found', need);
      if p[i] == 0 {
        assert CStr(p[i..]) == [];
      } else {
        assert CStr(p[i..]) == [p[i]] + CStr(p[i + 1..]);
        assert p[i..][|CStr(p[i..])| + 1..] == p[i + 1..][|CStr(p[i + 1..])| + 1..];
      }
    }
  }

  lemma GrantedStable(d: Dyn, ok: bool, reply: seq<byte>, q: seq<byte>)
    ensures Granted(More(d, q), ok, reply) == More(Granted(d, ok, reply), q)
  {
  }

  lemma TakeHost4aStable(d: Dyn, port: bv16, connect: bool, q: seq<byte>)
    requires |CStr(d.input)| < |d.input|
    ensures TakeHost4a(More(d, q), port, connect) == More(TakeHost4a(d, port, connect), q)
  {
    hide CStr;
    var s := d.input;
    CStrStable(s, q);
    assert (s + q)[|CStr(s)| + 1..] == s[|CStr(s)| + 1..] + q;
  }

  lemma Finish4Stable(d: Dyn, q: seq<byte>)
    requires |d.input| >= 8 && ScanNuls(d.input, 8, 0, if IsSocks4a(d.input) then 2 else 1) == AllFound
    ensures Finish4(More(d, q)) == More(Finish4(d), q)
  {
    hide ScanNuls, CStr, Port, Granted, TakeHost4a;
    var p := d.input;
    ScanFinds(p, 8, 0, if IsSocks4a(p) then 2 else 1);
    var s1 := p[8..];
    assert (p + q)[8..] == s1 + q && (p + q)[4..8] == p[4..8];
    CStrStable(s1, q);
    var s2 := s1[|CStr(s1)| + 1..];
    assert (s1 + q)[|CStr(s1)| + 1..] == s2 + q;
    var port := Port(p[2], p[3]);
    if IsSocks4a(p) {
      TakeHost4aStable(d.(input := s2), port, p[1] == 1, q);
    } else {
      GrantedStable(d.(input := s2, path := V4(p[4..8]), port := port), p[1] == 1, REPLY4, q);
    }
  }

  lemma Decode4Stable(d: Dyn, q: seq<byte>)
    requires Decode4(d) != d
    ensures Decode4(More(d, q)) == More(Decode4(d), q)
  {
    hide ScanNuls, Finish4;
    var p := d.input;
    ScanStable(p, q, 8, 0, if IsSocks4a(p) then 2 else 1);
    if ScanNuls(p, 8, 0, if IsSocks4a(p) then 2 else 1) == AllFound {
      Finish4Stable(d, q);
    }
  }

  lemma Greeting5Stable(d: Dyn, q: seq<byte>)
    requires Greeting5(d) != d
    ensures Greeting5(More(d, q)) == More(Greeting5(d), q)
  {
    hide Count;
    var p := d.input;
    var n := Count(p[1]) + 2;
    assert (p + q)[2..n] == p[2..n] && (p + q)[n..] == p[n..] + q;
  }

  lemma Request5Stable(d: Dyn, q: seq<byte>)
    requires Request5(d) != d
    ensures Request5(More(d, q)) == More(Request5(d), q)
  {
    hide HostOf, Port, Granted, AddrLen, AddrAt;
    var p := d.input;
    assert |p| >= 5;
    AddrStable(p, q);
    var at, n := AddrAt(p), AddrLen(p);
    if p[0] == 5 && p[1] == 1 && p[2] == 0 && (p[3] == 1 || p[3] == 3 || p[3] == 4) && |p| >= at + n + 2 {
      assert (p + q)[at + n + 2..] == p[at + n + 2..] + q && (p + q)[at..at + n] == p[at..at + n];
      GrantedStable(d.(input := p[at + n + 2..], path := HostOf(p[3], p[at..at + n]),
                       port := Port(p[at + n], p[at + n + 1])), true, REPLY5, q);
    }
  }

  lemma AddrStable(p: seq<byte>, q: seq<byte>)
    requires |p| >= 5
    ensures AddrAt(p + q) == AddrAt(p) && AddrLen(p + q) == AddrLen(p)
  {
  }

  lemma PreDynamicStable(d: Dyn, q: seq<byte>)
    requires PreDynamic(d) != d
    ensures PreDynamic(More(d, q)) == More(PreDynamic(d), q)
  {
    hide Decode4, Request5, Greeting5;
    if d.input[0] == 4 {
      Decode4Stable(d, q);
    } else if d.input[0] == 5 {
      if d.authDone { Request5Stable(d, q); } else { Greeting5Stable(d, q); }
    }
  }

  lemma MoreMore(d: Dyn, p: seq<byte>, q: seq<byte>)
    ensures More(More(d, p), q) == More(d, p + q)
    ensures More(d, []) == d
  {
    assert d.input + p + q == d.input + (p + q) && d.input + [] == d.input;
  }

  lemma MoreInjective(d: Dyn, e: Dyn, q: seq<byte>)
    requires More(d, q) == More(e, q)
    ensures d == e
  {
    assert |d.input + q| == |e.input + q|;
    assert (d.input + q)[..|d.input|] == d.input && (e.input + q)[..|e.input|] == e.input;
  }

  /** Running the decoder early makes no difference to what it makes of the whole. */
  lemma {:induction false} SettleEarly(d: Dyn, q: seq<byte>)
    ensures Settle(More(Settle(d), q)) == Settle(More(d, q))
    decreases Measure(d)
  {
    hide PreDynamic;
    if PreDynamic(d) != d {
      Progress(d);
      PreDynamicStable(d, q);
      if More(PreDynamic(d), q) == More(d, q) {
        MoreInjective(PreDynamic(d), d, q);
      }
      SettleEarly(PreDynamic(d), q);
    }
  }

  lemma {:induction false} ChunksFold(d: Dyn, chunks: seq<seq<byte>>)
    requires chunks != []
    ensures FeedAll(d, chunks) == Settle(More(d, Flatten(chunks)))
    decreases chunks
  {
    hide Settle;
    var c, rest := chunks[0], chunks[1..];
    if rest == [] {
      assert Flatten(chunks) == c + [] == c;
    } else {
      ChunksFold(Settle(More(d, c)), rest);
      SettleEarly(More(d, c), Flatten(rest));
      MoreMore(d, c, Flatten(rest));
    }
  }

  /**
    For every stream and any two ways of cutting it into chunks, the decoder ends in the
    same state: verdict, host, port, reply and the input it leaves.
   */
  lemma ChunkIndependence(d: Dyn, chunks: seq<seq<byte>>, chunks': seq<seq<byte>>)
    requires chunks != [] && chunks' != [] && Flatten(chunks) == Flatten(chunks')
    ensures FeedAll(d, chunks) == FeedAll(d, chunks')
  {
    ChunksFold(d, chunks);
    ChunksFold(d, chunks');
  }

  // ----- A request is consumed exactly -----

  lemma {:induction false} ScanOver(p: seq<byte>, i: nat, j: nat, found: nat, need: nat)
    requires i <= j <= |p| && forall k :: i <= k < j ==> p[k] != 0
    ensures j <= 1025 ==> ScanNuls(p, i, found, need) == ScanNuls(p, j, found, need)
    ensures i < j && j > 1025 ==> ScanNuls(p, i, found, need) == TooLong
    decreases j - i
  {
    if i < j {
      ScanOver(p, i + 1, j, found, need);
    }
  }

  lemma {:induction false} CStrIs(text: seq<byte>, rest: seq<byte>)
    requires 0 !in text
    ensures CStr(text + [0] + rest) == text
  {
    var s := text + [0] + rest;
    if text != [] {
      assert s[1..] == text[1..] + [0] + rest;
      CStrIs(text[1..], rest);
    }
  }

  function Request4(cmd: byte, hi: byte, lo: byte, addr: seq<byte>, user: seq<byte>): seq<byte> {
    [4, cmd, hi, lo] + addr + user + [0]
  }

  /**
    A SOCKS4 request is granted if and only if it asks for a connection and its user name
    ends within the limit; then the request is consumed and what follows is left.
   */
  lemma Socks4Exact(d: Dyn, cmd: byte, hi: byte, lo: byte, addr: seq<byte>, user: seq<byte>, rest: seq<byte>)
    requires d.status == Waiting && |addr| == 4 && 0 !in user
    requires !(addr[0] == 0 && addr[1] == 0 && addr[2] == 0 && addr[3] != 0)
    requires d.input == Request4(cmd, hi, lo, addr, user) + rest
    ensures cmd == 1 && 8 + |user| <= 1025 ==>
              Settle(d) == Dyn(rest, d.output + [0, 90, 0, 0, 0, 0, 0, 0], d.authDone, V4(addr), Port(hi, lo), Opening)
    ensures !(cmd == 1 && 8 + |user| <= 1025) ==> Settle(d).status == Dead
  {
    hide ScanNuls, Finish4, Port;
    var p, j := d.input, 8 + |user|;
    assert forall k :: 8 <= k < j ==> p[k] == user[k - 8];
    ScanOver(p, 8, j, 0, 1);
    ScanAtNul(p, j, 0, 1);
    Finish4Is(d, cmd, hi, lo, addr, user, rest);
    assert p[4..8] == addr;
    SettleOnce(d);
  }

  lemma Finish4Is(d: Dyn, cmd: byte, hi: byte, lo: byte, addr: seq<byte>, user: seq<byte>, rest: seq<byte>)
    requires d.status == Waiting && |addr| == 4 && 0 !in user
    requires d.input == Request4(cmd, hi, lo, addr, user) + rest
    ensures var d1 := d.(input := rest);
            Finish4(d) == if IsSocks4a(d.input) then TakeHost4a(d1, Port(hi, lo), cmd == 1)
                          else Granted(d1.(path := V4(addr), port := Port(hi, lo)), cmd == 1, REPLY4)
  {
    hide CStr, Port, TakeHost4a, Granted;
    var p := d.input;
    var s1 := p[8..];
    assert s1 == user + [0] + rest && p[4..8] == addr;
    CStrIs(user, rest);
    assert s1[|user| + 1..] == rest;
  }

  lemma ScanAtNul(p: seq<byte>, j: nat, found: nat, need: nat)
    requires j < |p| && p[j] == 0
    ensures found + 1 == need ==> ScanNuls(p, j, found, need) == AllFound
    ensures found + 1 < need && j <= 1024 ==> ScanNuls(p, j, found, need) == ScanNuls(p, j + 1, found + 1, need)
    ensures found + 1 < need && j > 1024 ==> ScanNuls(p, j, found, need) == TooLong
  {
  }

  lemma SettleOnce(d: Dyn)
    ensures PreDynamic(d).status != Waiting ==> Settle(d) == PreDynamic(d)
    ensures PreDynamic(d) != d ==> Settle(d) == Settle(PreDynamic(d))
  {
    hide Decode4, Decode5;
  }

  /** The same for SOCKS4A, whose host name must also end within the limit. */
  lemma Socks4aExact(d: Dyn, cmd: byte, hi: byte, lo: byte, x: byte, user: seq<byte>, host: seq<byte>, rest: seq<byte>)
    requires d.status == Waiting && x != 0 && 0 !in user && 0 !in host
    requires d.input == Request4(cmd, hi, lo, [0, 0, 0, x], user) + (host + [0] + rest)
    ensures cmd == 1 && 9 + |user| + |host| <= 1025 ==>
              Settle(d) == Dyn(rest, d.output + [0, 90, 0, 0, 0, 0, 0, 0], d.authDone, Name(host), Port(hi, lo), Opening)
    ensures !(cmd == 1 && 9 + |user| + |host| <= 1025) ==> Settle(d).status == Dead
  {
    hide ScanNuls, Finish4, CStr, Port;
    var p, i, s2 := d.input, 8 + |user|, host + [0] + rest;
    var j := i + 1 + |host|;
    assert forall k :: 8 <= k < i ==> p[k] == user[k - 8];
    assert forall k :: i < k < j ==> p[k] == host[k - i - 1];
    assert p[i] == 0 && p[j] == 0;
    Scan4a(p, i, j);
    assert p[4..8] == [0, 0, 0, x];
    assert p[4] == p[4..8][0] && p[5] == p[4..8][1] && p[6] == p[4..8][2] && p[7] == p[4..8][3];
    Finish4Is(d, cmd, hi, lo, [0, 0, 0, x], user, s2);
    CStrIs(host, rest);
    assert s2[|host| + 1..] == rest;
    SettleOnce(d);
  }

  lemma Scan4a(p: seq<byte>, i: nat, j: nat)
    requires 8 <= i < j < |p| && p[i] == 0 && p[j] == 0
    requires (forall k :: 8 <= k < i ==> p[k] != 0) && forall k :: i < k < j ==> p[k] != 0
    ensures ScanNuls(p, 8, 0, 2) == if j <= 1025 then AllFound else TooLong
  {
    hide ScanNuls;
    ScanOver(p, 8, i, 0, 2);
    ScanAtNul(p, i, 0, 2);
    if i <= 1024 {
      ScanOver(p, i + 1, j, 1, 2);
      ScanAtNul(p, j, 1, 2);
    }
  }

  function Greeting(methods: seq<byte>): seq<byte>
    requires |methods| < 256
  {
    [5, |methods| as bv8] + methods
  }

  /** `atyp` 1, 3 or 4 with an address of the matching length. */
  predicate AddrFits(atyp: byte, addr: seq<byte>) {
    (atyp == 1 && |addr| == 4) || (atyp == 3 && |addr| < 256) || (atyp == 4 && |addr| == 16)
  }

  function ConnectRequest(atyp: byte, addr: seq<byte>, hi: byte, lo: byte): seq<byte>
    requires AddrFits(atyp, addr)
  {
    [5, 1, 0, atyp] + (if atyp == 3 then [|addr| as bv8] else []) + addr + [hi, lo]
  }

  lemma CountIs(n: nat)
    requires n < 256
    ensures Count(n as bv8) == n
  {
  }

  lemma Greeting5Exact(d: Dyn, methods: seq<byte>, s: seq<byte>)
    requires d.status == Waiting && !d.authDone && |methods| < 256
    requires d.input == Greeting(methods) + s && |d.input| >= 3
    ensures PreDynamic(d) == if 0 in methods then d.(input := s, output := d.output + [5, 0], authDone := true)
                             else d.(status := Dead)
  {
    hide Count;
    CountIs(|methods|);
    var p, n := d.input, |methods| + 2;
    assert p[2..n] == methods && p[n..] == s;
  }

  lemma Request5Exact(d: Dyn, atyp: byte, addr: seq<byte>, hi: byte, lo: byte, rest: seq<byte>)
    requires d.status == Waiting && d.authDone && AddrFits(atyp, addr)
    requires d.input == ConnectRequest(atyp, addr, hi, lo) + rest
    ensures PreDynamic(d) == Dyn(rest, d.output + [5, 0, 0, 1, 0, 0, 0, 0, 0, 0], true, HostOf(atyp, addr), Port(hi, lo), Opening)
  {
    hide Count, HostOf, Port;
    CountIs(|addr|);
    var p := d.input;
    var at := if atyp == 3 then 5 else 4;
    assert atyp == 3 ==> p[4] == |addr| as bv8;
    assert p[at..at + |addr|] == addr && p[at + |addr|] == hi && p[at + |addr| + 1] == lo;
    assert p[at + |addr| + 2..] == rest;
  }

  lemma {:induction false} WholeCStr(s: seq<byte>)
    ensures 0 !in s ==> CStr(s) == s
  {
    if s != [] {
      WholeCStr(s[1..]);
    }
  }

  /** A request is refused exactly when its first five bytes show another version, command or kind of address. */
  lemma Request5Refused(d: Dyn)
    requires d.status == Waiting && d.authDone && |d.input| >= 3 && d.input[0] == 5
    ensures PreDynamic(d).status == Dead <==>
      |d.input| >= 5 && !(d.input[1] == 1 && d.input[2] == 0 && d.input[3] in {1, 3, 4})
    ensures PreDynamic(d).status == Waiting ==> PreDynamic(d) == d
  {
    hide Count, HostOf, Port;
  }

  /** A SOCKS5 greeting that offers no authentication, and a connect request, are both consumed exactly. */
  lemma Socks5Exact(d: Dyn, methods: seq<byte>, atyp: byte, addr: seq<byte>, hi: byte, lo: byte, rest: seq<byte>)
    requires d.status == Waiting && !d.authDone && |methods| < 256 && AddrFits(atyp, addr)
    requires d.input == Greeting(methods) + (ConnectRequest(atyp, addr, hi, lo) + rest)
    ensures if 0 in methods
            then Settle(d) == Dyn(rest, d.output + [5, 0] + [5, 0, 0, 1, 0, 0, 0, 0, 0, 0], true, HostOf(atyp, addr), Port(hi, lo), Opening)
            else Settle(d).status == Dead
    ensures atyp == 1 ==> HostOf(atyp, addr) == V4(addr)
    ensures atyp == 4 ==> HostOf(atyp, addr) == V6(addr)
    ensures atyp == 3 && 0 !in addr ==> HostOf(atyp, addr) == Name(addr)
  {
    WholeCStr(addr);
    assert atyp == 4 ==> HostOf(atyp, addr) == V6(addr);
    hide PreDynamic, HostOf, Port;
    var s := ConnectRequest(atyp, addr, hi, lo) + rest;
    Greeting5Exact(d, methods, s);
    SettleOnce(d);
    if 0 in methods {
      var d1 := d.(input := s, output := d.output + [5, 0], authDone := true);
      assert d1.authDone != d.authDone;
      Request5Exact(d1, atyp, addr, hi, lo, rest);
      SettleOnce(d1);
    }
  }

  // ----- The decoders as the channel runs them -----

  class DynamicChannel {
    var input: seq<byte>
    var output: seq<byte>
    var authDone: bool
    var path: Host
    var port: bv16
    var status: Status

    ghost function Now(): Dyn
      reads this
    {
      Dyn(input, output, authDone, path, port, status)
    }

    method FindNuls(need: nat) returns (r: Nuls)
      requires |input| >= 8
      ensures r == ScanNuls(input, 8, 0, need)
    {
      var found, i := 0, 8;
      while i < |input|
        invariant 8 <= i <= |input|
        invariant ScanNuls(input, i, found, need) == ScanNuls(input, 8, 0, need)
      {
        if input[i] == 0 {
          found := found + 1;
          if found == need {
            return AllFound;
          }
        }
        if i > 1024 {
          return TooLong;
        }
        i := i + 1;
      }
      return NeedMore;
    }

    /** `strlen` on a buffer; its length when there is no NUL. */
    method StrLen() returns (n: nat)
      ensures n == |CStr(input)| && CStr(input) == input[..n]
    {
      n := 0;
      while n < |input| && input[n] != 0
        invariant n <= |input|
        invariant CStr(input) == input[..n] + CStr(input[n..])
      {
        assert input[n..][0] == input[n] && input[n..][1..] == input[n + 1..];
        assert input[..n] + ([input[n]] + CStr(input[n + 1..])) == input[..n + 1] + CStr(input[n + 1..]);
        n := n + 1;
      }
      assert CStr(input[n..]) == [] && input[..n] + [] == input[..n];
    }

    /** The second half of `channel_decode_socks4`, which consumes the request. */
    method ConsumeSocks4(need: nat) returns (ret: int)
      requires status == Waiting && |input| >= 8 && need == if IsSocks4a(input) then 2 else 1
      modifies this`input, this`output, this`path, this`port
      ensures ret == -1 || ret == 1
      ensures Finish4(old(Now())) == Now().(status := if ret < 0 then Dead else Opening)
    {
      hide CStr, Port, Granted, TakeHost4a;
      var p := input;
      input := input[8..];
      var len := StrLen();
      if len == |input| {
        return -1;
      }
      input := input[len + 1..];
      if need == 1 {
        path, port := V4(p[4..8]), Port(p[2], p[3]);
        ret := Grant4(p[1] == 1);
      } else {
        ret := Grant4a(Port(p[2], p[3]), p[1] == 1);
      }
    }

    /** The reply to a connect request, or the refusal of any other. */
    method Grant4(connect: bool) returns (ret: int)
      modifies this`output
      ensures ret == if connect then 1 else -1
      ensures Granted(old(Now()), connect, REPLY4) == Now().(status := if ret < 0 then Dead else Opening)
    {
      if !connect {
        return -1;
      }
      output := output + REPLY4;
      return 1;
    }

    method Grant4a(requested: bv16, connect: bool) returns (ret: int)
      modifies this`input, this`output, this`path, this`port
      ensures ret == -1 || ret == 1
      ensures TakeHost4a(old(Now()), requested, connect) == Now().(status := if ret < 0 then Dead else Opening)
    {
      hide CStr, Granted;
      var ok := TakeHostName();
      if !ok {
        return -1;
      }
      port := requested;
      ret := Grant4(connect);
    }

    method TakeHostName() returns (ok: bool)
      modifies this`input, this`path
      ensures var host := CStr(old(input));
              && ok == (|host| < |old(input)| && |host| + 1 <= MAXHOST)
              && path == (if ok then Name(host) else NoHost)
              && input == if ok then old(input)[|host| + 1..] else old(input)
    {
      hide CStr;
      path := NoHost;
      var len := StrLen();
      if len == |input| || len + 1 > MAXHOST {
        return false;
      }
      path := Name(input[..len]);
      input := input[len + 1..];
      return true;
    }

    method DecodeSocks4() returns (ret: int)
      requires status == Waiting
      modifies this`input, this`output, this`path, this`port
      ensures ret == -1 || ret == 0 || ret == 1
      ensures Decode4(old(Now())) == Now().(status := if ret < 0 then Dead else if ret == 0 then Waiting else Opening)
    {
      hide ScanNuls, Finish4;
      if |input| < 8 {
        return 0;
      }
      var need := if input[4] == 0 && input[5] == 0 && input[6] == 0 && input[7] != 0 then 2 else 1;
      var r := FindNuls(need);
      if r == TooLong {
        return -1;
      }
      if r == NeedMore {
        return 0;
      }
      ret := ConsumeSocks4(need);
    }

    method OffersNoAuth(n: nat) returns (found: bool)
      requires 2 <= n <= |input|
      ensures found <==> 0 in input[2..n]
    {
      found := false;
      var i := 2;
      while i < n
        invariant 2 <= i <= n && 0 !in input[2..i]
      {
        if input[i] == 0 {
          assert input[2..n][i - 2] == 0;
          return true;
        }
        assert input[2..i + 1] == input[2..i] + [input[i]];
        i := i + 1;
      }
    }

    method DecodeSocks5() returns (ret: int)
      requires status == Waiting && |input| >= 3 && input[0] == 5
      modifies this`input, this`output, this`path, this`port, this`authDone
      ensures ret == -1 || ret == 0 || ret == 1
      ensures Decode5(old(Now())) == Now().(status := if ret < 0 then Dead else if ret == 0 then Waiting else Opening)
    {
      hide CStr, Port, Count;
      var p := input;
      if !authDone {
        var n := Count(p[1]) + 2;
        if |p| < n {
          return 0;
        }
        var found := OffersNoAuth(n);
        if !found {
          return -1;
        }
        input := p[n..];
        output := output + [5, 0];
        authDone := true;
        return 0;
      }
      if |p| < 5 {
        return 0;
      }
      if p[0] != 5 || p[1] != 1 || p[2] != 0 {
        return -1;
      }
      if p[3] != 1 && p[3] != 3 && p[3] != 4 {
        return -1;
      }
      var addrlen := if p[3] == 1 then 4 else if p[3] == 3 then Count(p[4]) else 16;
      var at := if p[3] == 3 then 5 else 4;
      if |p| < at + addrlen + 2 {
        return 0;
      }
      path := HostOf(p[3], p[at..at + addrlen]);
      port := Port(p[at + addrlen], p[at + addrlen + 1]);
      input := p[at + addrlen + 2..];
      output := output + REPLY5;
      return 1;
    }

    method ChannelPreDynamic()
      modifies this
      ensures Now() == PreDynamic(old(Now()))
    {
      hide Decode4, Request5, Greeting5;
      if status != Waiting || |input| < 3 {
        return;
      }
      var ret := -1;
      if input[0] == 4 {
        ret := DecodeSocks4();
      } else if input[0] == 5 {
        ret := DecodeSocks5();
      }
      if ret < 0 {
        status := Dead;
      } else if ret == 1 {
        status := Opening;
      }
    }
  }
}
