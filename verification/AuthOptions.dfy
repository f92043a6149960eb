/** `auth-options.c`: the wire form of `struct sshauthopt`, over the `sshbuf` encodings of section 5 of RFC 4251. */
module AuthOptions {
  import opened Basics
  import opened Numbers

  const SSHBUF_SIZE_MAX: nat := 0x8000000

  datatype Error = MessageIncomplete | StringTooLarge | InvalidFormat | NoBufferSpace | InternalError

  /** A value read from the front of a buffer, and what is left of the buffer. */
  datatype Parsed<+T> = Parsed(value: T, rest: seq<byte>) | Failed(error: Error) {
    predicate IsFailure() { Failed? }
    function PropagateFailure<U>(): Parsed<U> requires IsFailure() { Failed(error) }
    function Extract(): (T, seq<byte>) requires !IsFailure() { (value, rest) }
  }

  // ----- Integers -----

  lemma Powers()
    ensures Pow256(1) == 0x100 && Pow256(4) == 0x1_0000_0000 && Pow256(8) == 0x1_0000_0000_0000_0000
  {
    assert Pow256(0) == 1;
    assert Pow256(2) == 0x1_0000;
    assert Pow256(3) == 0x100_0000;
    assert Pow256(4) == 0x1_0000_0000;
    assert Pow256(5) == 0x100_0000_0000;
    assert Pow256(6) == 0x1_0000_0000_0000;
    assert Pow256(7) == 0x100_0000_0000_0000;
  }

  function GetInt(s: seq<byte>, k: nat): Parsed<nat> {
    if |s| < k then Failed(MessageIncomplete) else Parsed(FromBigEndian(s[..k]), s[k..])
  }

  lemma GetIntBack(n: nat, k: nat, rest: seq<byte>)
    requires n < Pow256(k)
    ensures GetInt(BigEndian(n, k) + rest, k) == Parsed(n, rest)
  {
    BigEndianRoundTrip(n, k);
    var s := BigEndian(n, k) + rest;
    assert s[..k] == BigEndian(n, k) && s[k..] == rest;
  }

  // ----- Strings -----

  /** `sshbuf_put_string`: a four-byte length and the bytes. */
  function PutString(v: seq<byte>): seq<byte> {
    BigEndian(|v|, 4) + v
  }

  function GetString(s: seq<byte>): Parsed<seq<byte>> {
    if |s| < 4 then Failed(MessageIncomplete) else
      var len := FromBigEndian(s[..4]);
      if len > SSHBUF_SIZE_MAX - 4 then Failed(StringTooLarge)
      else if |s| - 4 < len then Failed(MessageIncomplete)
      else Parsed(s[4..4 + len], s[4 + len..])
  }

  /** A C string: no NUL before its end. */
  predicate Clean(v: seq<byte>) {
    0 !in v
  }

  /** `sshbuf_get_cstring`: one NUL is allowed at the very end, where it ends the C string early. */
  function GetCString(s: seq<byte>): Parsed<seq<byte>> {
    var (v, rest) :- GetString(s);
    if v != [] && 0 in v[..|v| - 1] then Failed(InvalidFormat)
    else if v != [] && v[|v| - 1] == 0 then Parsed(v[..|v| - 1], rest)
    else Parsed(v, rest)
  }

  lemma GetStringBack(v: seq<byte>, rest: seq<byte>)
    requires |v| <= SSHBUF_SIZE_MAX - 4
    ensures GetString(PutString(v) + rest) == Parsed(v, rest)
  {
    Powers();
    BigEndianRoundTrip(|v|, 4);
    var s := PutString(v) + rest;
    assert s[..4] == BigEndian(|v|, 4);
    assert s[4..4 + |v|] == v && s[4 + |v|..] == rest;
  }

  lemma GetCStringBack(v: seq<byte>, rest: seq<byte>)
    requires |v| <= SSHBUF_SIZE_MAX - 4 && Clean(v)
    ensures GetCString(PutString(v) + rest) == Parsed(v, rest)
  {
    hide GetString, PutString;
    GetStringBack(v, rest);
    if v != [] {
      assert forall x :: x in v[..|v| - 1] ==> x in v;
      assert v[|v| - 1] in v;
    }
  }

  // ----- Strings that may be absent -----

  function PutNullable(v: Option<seq<byte>>): seq<byte> {
    match v
    case None => [1] + PutString([])
    case Some(w) => [0] + PutString(w)
  }

  function GetNullable(s: seq<byte>): Parsed<Option<seq<byte>>> {
    var (flag, s1) :- GetInt(s, 1);
    var (v, s2) :- GetCString(s1);
    Parsed(if flag != 0 then None else Some(v), s2)
  }

  predicate CleanOption(v: Option<seq<byte>>) {
    v.Some? ==> Clean(v.value)
  }

  lemma OneByte(b: byte, rest: seq<byte>)
    ensures GetInt([b] + rest, 1) == Parsed(b as nat, rest)
  {
    var s := [b] + rest;
    assert s[..1] == [b] && s[1..] == rest;
    assert FromBigEndian([b]) == b as nat by {
      assert [b][..0] == [];
      assert FromBigEndian([]) == 0;
    }
  }

  lemma GetNullableBack(v: Option<seq<byte>>, rest: seq<byte>)
    requires CleanOption(v) && |PutNullable(v)| <= SSHBUF_SIZE_MAX
    ensures GetNullable(PutNullable(v) + rest) == Parsed(v, rest)
  {
    hide GetInt, GetCString, PutString;
    var w := if v.Some? then v.value else [];
    var b: byte := if v.Some? then 0 else 1;
    assert PutNullable(v) + rest == [b] + (PutString(w) + rest);
    OneByte(b, PutString(w) + rest);
    StringLength(w);
    GetCStringBack(w, rest);
  }

  lemma StringLength(v: seq<byte>)
    ensures |PutString(v)| == 4 + |v|
  {
  }

  // ----- Arrays of strings -----

  function PutStrings(a: seq<seq<byte>>): seq<byte> {
    if a == [] then [] else PutStrings(a[..|a| - 1]) + PutString(a[|a| - 1])
  }

  function PutArray(a: seq<seq<byte>>): seq<byte> {
    BigEndian(|a|, 4) + PutString(PutStrings(a))
  }

  /** Reads `n` strings from the front of `b`; anything behind them is ignored by the caller. */
  function GetStrings(b: seq<byte>, n: nat): Parsed<seq<seq<byte>>>
    decreases n
  {
    if n == 0 then Parsed([], b) else
      var (front, b1) :- GetStrings(b, n - 1);
      var (v, b2) :- GetCString(b1);
      Parsed(front + [v], b2)
  }

  function GetArray(s: seq<byte>): Parsed<seq<seq<byte>>> {
    var (n, s1) :- GetInt(s, 4);
    var (b, s2) :- GetString(s1);
    if n > INT_MAX then Failed(InvalidFormat) else
      var (a, _) :- GetStrings(b, n);
      Parsed(a, s2)
  }

  predicate CleanAll(a: seq<seq<byte>>) {
    forall v <- a :: Clean(v)
  }

  lemma {:induction false} StringsLength(a: seq<seq<byte>>)
    ensures 4 * |a| <= |PutStrings(a)|
    ensures forall v <- a :: |v| + 4 <= |PutStrings(a)|
  {
    if a != [] {
      StringsLength(a[..|a| - 1]);
      assert a == a[..|a| - 1] + [a[|a| - 1]];
    }
  }

  lemma {:induction false} GetStringsBack(a: seq<seq<byte>>, rest: seq<byte>)
    requires CleanAll(a) && |PutStrings(a)| <= SSHBUF_SIZE_MAX
    ensures GetStrings(PutStrings(a) + rest, |a|) == Parsed(a, rest)
  {
    hide PutString, GetCString;
    if a == [] {
      assert PutStrings(a) + rest == rest;
    } else {
      var front, v := a[..|a| - 1], a[|a| - 1];
      StringsLength(a);
      assert v in a && forall w <- front :: w in a;
      assert PutStrings(a) + rest == PutStrings(front) + (PutString(v) + rest);
      GetStringsBack(front, PutString(v) + rest);
      assert front + [v] == a;
      GetCStringBack(v, rest);
    }
  }

  lemma GetArrayBack(a: seq<seq<byte>>, rest: seq<byte>)
    requires CleanAll(a) && |PutArray(a)| <= SSHBUF_SIZE_MAX
    ensures GetArray(PutArray(a) + rest) == Parsed(a, rest)
  {
    hide PutString, GetString, GetStrings, PutStrings, GetInt, BigEndian;
    var b := PutStrings(a);
    StringsLength(a);
    StringLength(b);
    Powers();
    assert PutArray(a) + rest == BigEndian(|a|, 4) + (PutString(b) + rest);
    GetIntBack(|a|, 4, PutString(b) + rest);
    GetStringBack(b, rest);
    GetStringsBack(a, []);
    assert b + [] == b;
  }

  // ----- The options -----

  datatype Flags = Flags(portForwarding: int, agentForwarding: int, x11Forwarding: int, pty: int, userRc: int,
                         restricted: int, certAuthority: int)

  datatype Options = Options(flags: Flags, validBefore: nat, forceTunDevice: int,
                             certPrincipals: Option<seq<byte>>, forceCommand: Option<seq<byte>>,
                             fromHostCert: Option<seq<byte>>, fromHostKeys: Option<seq<byte>>,
                             env: seq<seq<byte>>, permitOpen: seq<seq<byte>>, permitListen: seq<seq<byte>>)

  /** What a C `struct sshauthopt` can hold: 64-bit expiry, 32-bit tunnel number, strings without NUL. */
  predicate InStruct(o: Options) {
    && o.validBefore < 0x1_0000_0000_0000_0000 && -0x8000_0000 <= o.forceTunDevice <= INT_MAX
    && CleanOption(o.certPrincipals) && CleanOption(o.forceCommand)
    && CleanOption(o.fromHostCert) && CleanOption(o.fromHostKeys)
    && CleanAll(o.env) && CleanAll(o.permitOpen) && CleanAll(o.permitListen)
  }

  /** Conversion of an `int` to `u_char`. */
  function Low(i: int): byte {
    ToByte(i % 256)
  }

  function PutFlags(f: Flags): seq<byte> {
    [Low(f.portForwarding), Low(f.agentForwarding), Low(f.x11Forwarding), Low(f.pty), Low(f.userRc),
     Low(f.restricted), Low(f.certAuthority)]
  }

  function PutTun(t: int): seq<byte>
    requires t <= INT_MAX
  {
    [if t == -1 then 1 else 0] + BigEndian(if t < 0 then 0 else t, 4)
  }

  const YES: seq<byte> := [0x79, 0x65, 0x73]
  const TRUE: seq<byte> := [0x74, 0x72, 0x75, 0x65]

  /** What an untrusted reader is given: no strings of the user, no arrays. */
  function Redacted(o: Options): Options {
    o.(certPrincipals := Some(YES), forceCommand := Some(TRUE), fromHostCert := None, fromHostKeys := None,
       env := [], permitOpen := [], permitListen := [])
  }

  function Shown(o: Options, untrusted: bool): Options {
    if untrusted then Redacted(o) else o
  }

  /** The fields on the wire, in order. */
  function Chunks(o: Options): (cs: seq<seq<byte>>)
    requires InStruct(o)
    ensures |cs| == 10
  {
    [PutFlags(o.flags), BigEndian(o.validBefore, 8), PutTun(o.forceTunDevice),
     PutNullable(o.certPrincipals), PutNullable(o.forceCommand),
     PutNullable(o.fromHostCert), PutNullable(o.fromHostKeys),
     PutArray(o.env), PutArray(o.permitOpen), PutArray(o.permitListen)]
  }

  function Concat(cs: seq<seq<byte>>): seq<byte> {
    if cs == [] then [] else cs[0] + Concat(cs[1..])
  }

  function Wire(o: Options): seq<byte>
    requires InStruct(o)
  {
    Concat(Chunks(o))
  }

  lemma TailStep(cs: seq<seq<byte>>, i: nat, rest: seq<byte>)
    requires i < |cs|
    ensures Concat(cs[i..]) + rest == cs[i] + (Concat(cs[i + 1..]) + rest)
    ensures |cs[i]| <= |Concat(cs[i..])| && |Concat(cs[i + 1..])| <= |Concat(cs[i..])|
  {
    assert cs[i..][1..] == cs[i + 1..];
  }

  function GetFlags(s: seq<byte>): Parsed<Flags> {
    var (f1, s1) :- GetInt(s, 1);
    var (f2, s2) :- GetInt(s1, 1);
    var (f3, s3) :- GetInt(s2, 1);
    var (f4, s4) :- GetInt(s3, 1);
    var (f5, s5) :- GetInt(s4, 1);
    var (f6, s6) :- GetInt(s5, 1);
    var (f7, s7) :- GetInt(s6, 1);
    Parsed(Flags(f1, f2, f3, f4, f5, f6, f7), s7)
  }

  /** Conversion of a `u_int` to `int`, as two's complement does it. */
  function Signed32(n: nat): int {
    if n > INT_MAX then n - 0x1_0000_0000 else n
  }

  function GetTun(s: seq<byte>): Parsed<int> {
    var (f, s1) :- GetInt(s, 1);
    var (n, s2) :- GetInt(s1, 4);
    Parsed(if f != 0 then -1 else Signed32(n), s2)
  }

  function GetOptions(s: seq<byte>): Parsed<Options> {
    var (flags, s1) :- GetFlags(s);
    var (before, s2) :- GetInt(s1, 8);
    var (tun, s3) :- GetTun(s2);
    var (p, s4) :- GetNullable(s3);
    var (c, s5) :- GetNullable(s4);
    var (hc, s6) :- GetNullable(s5);
    var (hk, s7) :- GetNullable(s6);
    var (env, s8) :- GetArray(s7);
    var (po, s9) :- GetArray(s8);
    var (pl, s10) :- GetArray(s9);
    Parsed(Options(flags, before, tun, p, c, hc, hk, env, po, pl), s10)
  }

  function Mod256(i: int): nat {
    i % 256
  }

  function CanonFlags(f: Flags): Flags {
    Flags(Mod256(f.portForwarding), Mod256(f.agentForwarding), Mod256(f.x11Forwarding), Mod256(f.pty),
          Mod256(f.userRc), Mod256(f.restricted), Mod256(f.certAuthority))
  }

  /** What survives the wire: flags modulo 256, and every tunnel number below -1 as 0. */
  function Canon(o: Options): Options {
    o.(flags := CanonFlags(o.flags), forceTunDevice := if o.forceTunDevice < -1 then 0 else o.forceTunDevice)
  }

  lemma FlagBack(i: int, rest: seq<byte>)
    ensures GetInt([Low(i)] + rest, 1) == Parsed(Mod256(i), rest)
  {
    hide ToByte, GetInt;
    OneByte(Low(i), rest);
  }

  lemma Cons(a: byte, s: seq<byte>, rest: seq<byte>)
    ensures ([a] + s) + rest == [a] + (s + rest)
  {
  }

  lemma SevenBytes(a: byte, b: byte, c: byte, d: byte, e: byte, f: byte, g: byte, rest: seq<byte>)
    ensures [a, b, c, d, e, f, g] + rest == [a] + ([b] + ([c] + ([d] + ([e] + ([f] + ([g] + rest))))))
  {
    Cons(f, [g], rest);
    assert [f] + [g] == [f, g];
    Cons(e, [f, g], rest);
    assert [e] + [f, g] == [e, f, g];
    Cons(d, [e, f, g], rest);
    assert [d] + [e, f, g] == [d, e, f, g];
    Cons(c, [d, e, f, g], rest);
    assert [c] + [d, e, f, g] == [c, d, e, f, g];
    Cons(b, [c, d, e, f, g], rest);
    assert [b] + [c, d, e, f, g] == [b, c, d, e, f, g];
    Cons(a, [b, c, d, e, f, g], rest);
    assert [a] + [b, c, d, e, f, g] == [a, b, c, d, e, f, g];
  }

  lemma GetFlagsBack(f: Flags, rest: seq<byte>)
    ensures GetFlags(PutFlags(f) + rest) == Parsed(CanonFlags(f), rest)
  {
    hide GetInt, Low, Mod256;
    var s7 := rest;
    var s6 := [Low(f.certAuthority)] + s7;
    var s5 := [Low(f.restricted)] + s6;
    var s4 := [Low(f.userRc)] + s5;
    var s3 := [Low(f.pty)] + s4;
    var s2 := [Low(f.x11Forwarding)] + s3;
    var s1 := [Low(f.agentForwarding)] + s2;
    SevenBytes(Low(f.portForwarding), Low(f.agentForwarding), Low(f.x11Forwarding), Low(f.pty), Low(f.userRc),
               Low(f.restricted), Low(f.certAuthority), rest);
    FlagBack(f.portForwarding, s1);
    FlagBack(f.agentForwarding, s2);
    FlagBack(f.x11Forwarding, s3);
    FlagBack(f.pty, s4);
    FlagBack(f.userRc, s5);
    FlagBack(f.restricted, s6);
    FlagBack(f.certAuthority, s7);
  }

  lemma GetTunBack(t: int, rest: seq<byte>)
    requires -0x8000_0000 <= t <= INT_MAX
    ensures GetTun(PutTun(t) + rest) == Parsed(if t < -1 then 0 else t, rest)
  {
    hide GetInt, BigEndian;
    var b: byte := if t == -1 then 1 else 0;
    var n := if t < 0 then 0 else t;
    assert PutTun(t) + rest == [b] + (BigEndian(n, 4) + rest);
    OneByte(b, BigEndian(n, 4) + rest);
    Powers();
    GetIntBack(n, 4, rest);
  }

  /** Reading back what was written gives the canonical options and leaves exactly what followed them. */
  lemma WireRoundTrip(o: Options, rest: seq<byte>)
    requires InStruct(o) && |Wire(o)| <= SSHBUF_SIZE_MAX
    ensures GetOptions(Wire(o) + rest) == Parsed(Canon(o), rest)
  {
    hide GetFlags, GetInt, GetTun, GetNullable, GetArray, PutFlags, BigEndian, PutTun, PutNullable, PutArray, Concat,
      CanonFlags, CleanOption, CleanAll;
    var cs := Chunks(o);
    assert cs[0..] == cs;
    TailStep(cs, 0, rest);
    TailStep(cs, 1, rest);
    TailStep(cs, 2, rest);
    TailStep(cs, 3, rest);
    TailStep(cs, 4, rest);
    TailStep(cs, 5, rest);
    TailStep(cs, 6, rest);
    TailStep(cs, 7, rest);
    TailStep(cs, 8, rest);
    TailStep(cs, 9, rest);
    ConcatNone(cs[10..], rest);
    GetFlagsBack(o.flags, Concat(cs[1..]) + rest);
    Powers();
    GetIntBack(o.validBefore, 8, Concat(cs[2..]) + rest);
    GetTunBack(o.forceTunDevice, Concat(cs[3..]) + rest);
    GetNullableBack(o.certPrincipals, Concat(cs[4..]) + rest);
    GetNullableBack(o.forceCommand, Concat(cs[5..]) + rest);
    GetNullableBack(o.fromHostCert, Concat(cs[6..]) + rest);
    GetNullableBack(o.fromHostKeys, Concat(cs[7..]) + rest);
    GetArrayBack(o.env, Concat(cs[8..]) + rest);
    GetArrayBack(o.permitOpen, Concat(cs[9..]) + rest);
    GetArrayBack(o.permitListen, rest);
  }

  lemma ConcatNone(cs: seq<seq<byte>>, rest: seq<byte>)
    requires cs == []
    ensures Concat(cs) + rest == rest
  {
  }

  predicate ByteSized(i: int) {
    0 <= i < 256
  }

  /** The options come back unchanged exactly when every flag fits a byte and the tunnel number is at least -1. */
  lemma RoundTripExactly(o: Options, rest: seq<byte>)
    requires InStruct(o) && |Wire(o)| <= SSHBUF_SIZE_MAX
    ensures GetOptions(Wire(o) + rest) == Parsed(o, rest) <==>
      && ByteSized(o.flags.portForwarding) && ByteSized(o.flags.agentForwarding)
      && ByteSized(o.flags.x11Forwarding) && ByteSized(o.flags.pty) && ByteSized(o.flags.userRc)
      && ByteSized(o.flags.restricted) && ByteSized(o.flags.certAuthority) && o.forceTunDevice >= -1
  {
    hide Wire, GetOptions, InStruct;
    WireRoundTrip(o, rest);
  }

  // ----- Buffers -----

  datatype Outcome<+T> = Done(value: T) | Refused(error: Error)

  /** The buffer method returned what reading its old contents gives, and consumed as much. */
  ghost predicate Agrees<T>(p: Parsed<T>, r: Outcome<T>, data: seq<byte>) {
    match p
    case Parsed(v, rest) => r == Done(v) && data == rest
    case Failed(e) => r == Refused(e)
  }

  // ----- What a reader accepts, and what an untrusted one sees -----

  /** A string is refused as too large by its length field alone, and otherwise if it is cut short. */
  lemma StringAcceptedExactly(s: seq<byte>)
    ensures |s| >= 4 ==>
      var len := FromBigEndian(s[..4]);
      && (GetString(s) == Failed(StringTooLarge) <==> len > 0x8000000 - 4)
      && (GetString(s) == Failed(MessageIncomplete) <==> len <= 0x8000000 - 4 && |s| < 4 + len)
      && (GetString(s).Parsed? <==> len <= 0x8000000 - 4 && |s| >= 4 + len)
  {
    hide FromBigEndian;
  }

  /** A NUL inside a string is refused, one at its end is dropped, and what is accepted has none. */
  lemma CStringAcceptedExactly(v: seq<byte>, rest: seq<byte>)
    requires |v| <= SSHBUF_SIZE_MAX - 4
    ensures var r := GetCString(PutString(v) + rest);
      && (r == Failed(InvalidFormat) <==> exists i :: 0 <= i < |v| - 1 && v[i] == 0)
      && (r.Parsed? ==> Clean(r.value) && r.rest == rest && (r.value == v || r.value + [0] == v))
      && (r.Failed? ==> r == Failed(InvalidFormat))
  {
    hide GetString, PutString;
    GetStringBack(v, rest);
    if v != [] {
      var front := v[..|v| - 1];
      assert v == front + [v[|v| - 1]];
      assert 0 in front <==> exists i :: 0 <= i < |v| - 1 && v[i] == 0;
    }
  }

  lemma CStringIsClean(s: seq<byte>)
    ensures GetCString(s).Parsed? ==> Clean(GetCString(s).value)
  {
    hide GetString;
    if GetString(s).Parsed? {
      var v := GetString(s).value;
      if v != [] {
        assert v == v[..|v| - 1] + [v[|v| - 1]];
      }
    }
  }

  lemma NullableIsClean(s: seq<byte>)
    ensures GetNullable(s).Parsed? ==> CleanOption(GetNullable(s).value)
  {
    hide GetInt, GetCString, Clean;
    if GetInt(s, 1).Parsed? {
      CStringIsClean(GetInt(s, 1).rest);
    }
  }

  lemma {:induction false} StringsAreClean(b: seq<byte>, n: nat)
    ensures GetStrings(b, n).Parsed? ==> CleanAll(GetStrings(b, n).value) && |GetStrings(b, n).value| == n
    decreases n
  {
    hide GetCString, Clean;
    if n > 0 {
      StringsAreClean(b, n - 1);
      if GetStrings(b, n - 1).Parsed? {
        CStringIsClean(GetStrings(b, n - 1).rest);
      }
    }
  }

  lemma ArrayIsClean(s: seq<byte>)
    ensures GetArray(s).Parsed? ==> CleanAll(GetArray(s).value) && |GetArray(s).value| <= 0x7fffffff
  {
    hide GetInt, GetString, GetStrings, CleanAll;
    if GetInt(s, 4).Parsed? && GetString(GetInt(s, 4).rest).Parsed? {
      StringsAreClean(GetString(GetInt(s, 4).rest).value, GetInt(s, 4).value);
    }
  }

  /** The count decides before any string is looked at. */
  lemma EmptyArrayAcceptedExactly(n: nat, rest: seq<byte>)
    requires n < 0x1_0000_0000
    ensures GetArray(BigEndian(n, 4) + (PutString([]) + rest)) ==
      if n == 0 then Parsed([], rest) else Failed(if n > 0x7fffffff then InvalidFormat else MessageIncomplete)
  {
    hide GetInt, GetString, PutString, BigEndian, GetStrings;
    Powers();
    GetIntBack(n, 4, PutString([]) + rest);
    GetStringBack([], rest);
    NoStrings(n);
  }

  lemma {:induction false} NoStrings(n: nat)
    ensures GetStrings([], n) == if n == 0 then Parsed([], []) else Failed(MessageIncomplete)
  {
    if n > 0 {
      NoStrings(n - 1);
    }
  }

  lemma {:induction false} BigEndianBound(s: seq<byte>)
    ensures FromBigEndian(s) < Pow256(|s|)
  {
    if s != [] {
      BigEndianBound(s[..|s| - 1]);
      ByteBelow(s[|s| - 1]);
      var p, q := Pow256(|s| - 1), FromBigEndian(s[..|s| - 1]);
      assert q + 1 <= p;
    }
  }

  lemma ByteBelow(b: byte)
    ensures b as nat < 256
  {
  }

  lemma IntBound(s: seq<byte>, k: nat)
    ensures GetInt(s, k).Parsed? ==> GetInt(s, k).value < Pow256(k)
  {
    hide FromBigEndian, Pow256;
    if |s| >= k {
      BigEndianBound(s[..k]);
    }
  }

  /** A tunnel number on the wire is taken as a 32-bit two's complement number. */
  lemma TunIsSigned(n: nat)
    requires n < 0x1_0000_0000
    ensures -0x8000_0000 <= Signed32(n) <= 0x7fffffff && (Signed32(n) - n) % 0x1_0000_0000 == 0
  {
  }

  lemma TunInRange(s: seq<byte>)
    ensures GetTun(s).Parsed? ==> -0x8000_0000 <= GetTun(s).value <= INT_MAX
  {
    hide GetInt;
    Powers();
    if GetInt(s, 1).Parsed? {
      IntBound(GetInt(s, 1).rest, 4);
    }
  }

  /** Whatever bytes arrive, the options a reader accepts are ones the struct can hold. */
  lemma AcceptedIsInStruct(s: seq<byte>)
    ensures GetOptions(s).Parsed? ==> InStruct(GetOptions(s).value)
  {
    hide GetFlags, GetInt, GetTun, GetNullable, GetArray, CleanOption, CleanAll;
    var o := GetOptions(s);
    if o.Parsed? {
      Powers();
      var s1 := GetFlags(s).rest;
      IntBound(s1, 8);
      var s2 := GetInt(s1, 8).rest;
      TunInRange(s2);
      var s3 := GetTun(s2).rest;
      NullableIsClean(s3);
      var s4 := GetNullable(s3).rest;
      NullableIsClean(s4);
      var s5 := GetNullable(s4).rest;
      NullableIsClean(s5);
      var s6 := GetNullable(s5).rest;
      NullableIsClean(s6);
      var s7 := GetNullable(s6).rest;
      ArrayIsClean(s7);
      var s8 := GetArray(s7).rest;
      ArrayIsClean(s8);
      ArrayIsClean(GetArray(s8).rest);
    }
  }

  /** What an untrusted reader is sent depends on nothing but the flags, the expiry time and the tunnel number. */
  lemma NothingLeaks(o: Options, o': Options)
    requires InStruct(o) && InStruct(o')
    requires o.flags == o'.flags && o.validBefore == o'.validBefore && o.forceTunDevice == o'.forceTunDevice
    ensures InStruct(Shown(o, true)) && InStruct(Shown(o', true)) && Wire(Shown(o, true)) == Wire(Shown(o', true))
    ensures Shown(o, true).certPrincipals == Some([0x79, 0x65, 0x73])
    ensures Shown(o, true).forceCommand == Some([0x74, 0x72, 0x75, 0x65])
    ensures Shown(o, false) == o
  {
    hide Wire;
    ShownInStruct(o, true);
    ShownInStruct(o', true);
  }

  class SshBuf {
    var data: seq<byte>

    constructor (data: seq<byte>)
      ensures this.data == data
    {
      this.data := data;
    }

    /** `sshbuf_put`: refuses to grow past the hard maximum. */
    method Put(c: seq<byte>) returns (ok: bool)
      modifies this
      ensures ok <==> |old(data)| + |c| <= SSHBUF_SIZE_MAX
      ensures data == if ok then old(data) + c else old(data)
    {
      if |c| > SSHBUF_SIZE_MAX || SSHBUF_SIZE_MAX - |c| < |data| {
        return false;
      }
      data := data + c;
      ok := true;
    }

    /** `sshbuf_put_cstring` and `sshbuf_put_stringb`. */
    method PutStr(v: seq<byte>) returns (ok: bool)
      modifies this
      ensures ok <==> |old(data)| + |PutString(v)| <= SSHBUF_SIZE_MAX
      ensures data == if ok then old(data) + PutString(v) else old(data)
    {
      hide BigEndian;
      StringLength(v);
      if |v| > SSHBUF_SIZE_MAX - 4 {
        return false;
      }
      ok := Put(BigEndian(|v|, 4) + v);
    }

    method PutNullableStr(v: Option<seq<byte>>) returns (ok: bool)
      modifies this
      ensures ok <==> |old(data)| + |PutNullable(v)| <= SSHBUF_SIZE_MAX
      ensures ok ==> data == old(data) + PutNullable(v)
      ensures old(data) <= data
    {
      hide PutString;
      ok := Put([if v.None? then 1 else 0]);
      if !ok {
        return;
      }
      ok := PutStr(if v.Some? then v.value else []);
      assert ok ==> data == old(data) + PutNullable(v);
    }

    /** The loop of `serialise_array`. */
    method PutStrs(a: seq<seq<byte>>) returns (ok: bool)
      modifies this
      ensures |old(data)| <= SSHBUF_SIZE_MAX ==> (ok <==> |old(data)| + |PutStrings(a)| <= SSHBUF_SIZE_MAX)
      ensures ok ==> data == old(data) + PutStrings(a)
    {
      hide PutString, PutStrings;
      ghost var was := data;
      StringsNone(a[..0], was);
      for i := 0 to |a|
        invariant data == was + PutStrings(a[..i])
        invariant |was| <= SSHBUF_SIZE_MAX ==> |data| <= SSHBUF_SIZE_MAX
      {
        StringsStep(a, i);
        Assoc(was, PutStrings(a[..i]), PutString(a[i]));
        StringsPrefix(a, i + 1);
        ok := PutStr(a[i]);
        if !ok {
          return;
        }
      }
      assert a[..|a|] == a;
      ok := true;
    }

    /** `serialise_array`: the strings go through a buffer of their own. */
    method SerialiseArray(a: seq<seq<byte>>) returns (ok: bool)
      modifies this
      ensures ok <==> |old(data)| + |PutArray(a)| <= SSHBUF_SIZE_MAX
      ensures ok ==> data == old(data) + PutArray(a)
      ensures old(data) <= data
    {
      hide PutString, BigEndian, PutStrings;
      StringsLength(a);
      StringLength(PutStrings(a));
      if |a| > INT_MAX {
        return false;
      }
      var b := new SshBuf([]);
      ok := b.PutStrs(a);
      if !ok {
        return;
      }
      assert b.data == PutStrings(a);
      ok := Put(BigEndian(|a|, 4));
      if !ok {
        return;
      }
      ok := PutStr(b.data);
      assert ok ==> data == old(data) + PutArray(a);
    }

    method PutNumbers(o: Options) returns (ok: bool)
      requires InStruct(o)
      modifies this
      ensures ok <==> |old(data)| + |Concat(Chunks(o)[..3])| <= SSHBUF_SIZE_MAX
      ensures ok ==> data == old(data) + Concat(Chunks(o)[..3])
      ensures old(data) <= data
    {
      hide PutNullable, PutArray, PutTun, BigEndian, Concat, PutFlags, CleanOption, CleanAll;
      ghost var was, cs := data, Chunks(o);
      Written(was, cs, 0);
      Written(was, cs, 1);
      Written(was, cs, 2);
      ok := PutFlagBytes(o.flags);
      if !ok {
        return;
      }
      ok := Put(BigEndian(o.validBefore, 8));
      if !ok {
        return;
      }
      ok := PutTunnel(o.forceTunDevice);
    }

    method PutFlagBytes(f: Flags) returns (ok: bool)
      modifies this
      ensures ok <==> |old(data)| + |PutFlags(f)| <= SSHBUF_SIZE_MAX
      ensures ok ==> data == old(data) + PutFlags(f)
      ensures old(data) <= data
    {
      hide Low;
      ghost var was := data;
      ok := PutFour(Low(f.portForwarding), Low(f.agentForwarding), Low(f.x11Forwarding), Low(f.pty));
      if !ok {
        return;
      }
      ghost var front := [Low(f.portForwarding), Low(f.agentForwarding), Low(f.x11Forwarding), Low(f.pty)];
      ok := PutThree(Low(f.userRc), Low(f.restricted), Low(f.certAuthority));
      Assoc(was, front, [Low(f.userRc), Low(f.restricted), Low(f.certAuthority)]);
    }

    method PutFour(a: byte, b: byte, c: byte, d: byte) returns (ok: bool)
      modifies this
      ensures ok <==> |old(data)| + 4 <= SSHBUF_SIZE_MAX
      ensures ok ==> data == old(data) + [a, b, c, d]
      ensures old(data) <= data
    {
      ok := Put([a]);
      if !ok {
        return;
      }
      ok := PutThree(b, c, d);
    }

    method PutThree(a: byte, b: byte, c: byte) returns (ok: bool)
      modifies this
      ensures ok <==> |old(data)| + 3 <= SSHBUF_SIZE_MAX
      ensures ok ==> data == old(data) + [a, b, c]
      ensures old(data) <= data
    {
      ok := Put([a]);
      if !ok {
        return;
      }
      ok := Put([b]);
      if !ok {
        return;
      }
      ok := Put([c]);
    }

    method PutTunnel(t: int) returns (ok: bool)
      requires t <= INT_MAX
      modifies this
      ensures ok <==> |old(data)| + |PutTun(t)| <= SSHBUF_SIZE_MAX
      ensures ok ==> data == old(data) + PutTun(t)
      ensures old(data) <= data
    {
      hide BigEndian;
      ok := Put([if t == -1 then 1 else 0]);
      if !ok {
        return;
      }
      ok := Put(BigEndian(if t < 0 then 0 else t, 4));
      assert ok ==> data == old(data) + PutTun(t);
    }

    method PutStringFields(o: Options) returns (ok: bool)
      requires InStruct(o)
      modifies this
      ensures ok <==> |old(data)| + |Concat(Chunks(o)[3..7])| <= SSHBUF_SIZE_MAX
      ensures ok ==> data == old(data) + Concat(Chunks(o)[3..7])
      ensures old(data) <= data
    {
      hide PutNullable, PutArray, PutTun, BigEndian, Concat, PutFlags, CleanOption, CleanAll;
      ghost var was, cs := data, Chunks(o)[3..7];
      Written(was, cs, 0);
      Written(was, cs, 1);
      Written(was, cs, 2);
      Written(was, cs, 3);
      assert cs[..4] == cs;
      ok := PutNullableStr(o.certPrincipals);
      if !ok {
        return;
      }
      ok := PutNullableStr(o.forceCommand);
      if !ok {
        return;
      }
      ok := PutNullableStr(o.fromHostCert);
      if !ok {
        return;
      }
      ok := PutNullableStr(o.fromHostKeys);
    }

    method PutArrayFields(o: Options) returns (ok: bool)
      requires InStruct(o)
      modifies this
      ensures ok <==> |old(data)| + |Concat(Chunks(o)[7..])| <= SSHBUF_SIZE_MAX
      ensures ok ==> data == old(data) + Concat(Chunks(o)[7..])
      ensures old(data) <= data
    {
      hide PutNullable, PutArray, PutTun, BigEndian, Concat, PutFlags, CleanOption, CleanAll;
      ghost var was, cs := data, Chunks(o)[7..];
      Written(was, cs, 0);
      Written(was, cs, 1);
      Written(was, cs, 2);
      assert cs[..3] == cs;
      ok := SerialiseArray(o.env);
      if !ok {
        return;
      }
      ok := SerialiseArray(o.permitOpen);
      if !ok {
        return;
      }
      ok := SerialiseArray(o.permitListen);
    }

    /** `sshauthopt_serialise`: appends the wire form, or fails because the buffer would grow too large. */
    method Serialise(o: Options, untrusted: bool) returns (ok: bool)
      requires InStruct(o)
      modifies this
      ensures InStruct(Shown(o, untrusted))
      ensures ok <==> |old(data)| + |Wire(Shown(o, untrusted))| <= SSHBUF_SIZE_MAX
      ensures ok ==> data == old(data) + Wire(Shown(o, untrusted))
      ensures old(data) <= data
    {
      hide Chunks, Concat, InStruct, Shown;
      ShownInStruct(o, untrusted);
      var s := Shown(o, untrusted);
      ThreeParts(data, Chunks(s));
      ok := PutNumbers(s);
      if !ok {
        return;
      }
      ok := PutStringFields(s);
      if !ok {
        return;
      }
      ok := PutArrayFields(s);
    }

    /** `sshbuf_get_u8`, `sshbuf_get_u32` and `sshbuf_get_u64`. */
    method TakeInt(k: nat) returns (r: Outcome<nat>)
      modifies this
      ensures Agrees(GetInt(old(data), k), r, data)
    {
      if |data| < k {
        return Refused(MessageIncomplete);
      }
      r := Done(FromBigEndian(data[..k]));
      data := data[k..];
    }

    /** `sshbuf_froms`, which hands the bytes of a string to a new buffer. */
    method TakeString() returns (r: Outcome<seq<byte>>)
      modifies this
      ensures Agrees(GetString(old(data)), r, data)
    {
      if |data| < 4 {
        return Refused(MessageIncomplete);
      }
      var len := FromBigEndian(data[..4]);
      if len > SSHBUF_SIZE_MAX - 4 {
        return Refused(StringTooLarge);
      }
      if |data| - 4 < len {
        return Refused(MessageIncomplete);
      }
      r := Done(data[4..4 + len]);
      data := data[4 + len..];
    }

    /** `sshbuf_get_cstring`. */
    method TakeCString() returns (r: Outcome<seq<byte>>)
      modifies this
      ensures Agrees(GetCString(old(data)), r, data)
    {
      hide GetString;
      r := TakeString();
      if r.Refused? {
        return;
      }
      var v := r.value;
      if v != [] && 0 in v[..|v| - 1] {
        return Refused(InvalidFormat);
      }
      if v != [] && v[|v| - 1] == 0 {
        r := Done(v[..|v| - 1]);
      }
    }

    /** `deserialise_nullable_string`. */
    method TakeNullable() returns (r: Outcome<Option<seq<byte>>>)
      modifies this
      ensures Agrees(GetNullable(old(data)), r, data)
    {
      hide GetInt, GetCString;
      var flag := TakeInt(1);
      if flag.Refused? {
        return Refused(flag.error);
      }
      var v := TakeCString();
      if v.Refused? {
        return Refused(v.error);
      }
      r := Done(if flag.value != 0 then None else Some(v.value));
    }

    /** The loop of `deserialise_array`. */
    method TakeStrings(n: nat) returns (r: Outcome<seq<seq<byte>>>)
      modifies this
      ensures Agrees(GetStrings(old(data), n), r, data)
    {
      hide GetCString;
      ghost var was := data;
      var a: seq<seq<byte>> := [];
      for i := 0 to n
        invariant GetStrings(was, i) == Parsed(a, data)
      {
        var v := TakeCString();
        if v.Refused? {
          StopsEarly(was, i + 1, n);
          return Refused(v.error);
        }
        a := a + [v.value];
      }
      r := Done(a);
    }

    /** `deserialise_array`. */
    method DeserialiseArray() returns (r: Outcome<seq<seq<byte>>>)
      modifies this
      ensures Agrees(GetArray(old(data)), r, data)
    {
      hide GetInt, GetString, GetStrings;
      var n := TakeInt(4);
      if n.Refused? {
        return Refused(n.error);
      }
      var s := TakeString();
      if s.Refused? {
        return Refused(s.error);
      }
      if n.value > INT_MAX {
        return Refused(InvalidFormat);
      }
      var b := new SshBuf(s.value);
      r := b.TakeStrings(n.value);
    }

    method TakeFlags() returns (r: Outcome<Flags>)
      modifies this
      ensures Agrees(GetFlags(old(data)), r, data)
    {
      hide GetInt;
      var f1 := TakeInt(1);
      if f1.Refused? { return Refused(f1.error); }
      var f2 := TakeInt(1);
      if f2.Refused? { return Refused(f2.error); }
      var f3 := TakeInt(1);
      if f3.Refused? { return Refused(f3.error); }
      var f4 := TakeInt(1);
      if f4.Refused? { return Refused(f4.error); }
      var f5 := TakeInt(1);
      if f5.Refused? { return Refused(f5.error); }
      var f6 := TakeInt(1);
      if f6.Refused? { return Refused(f6.error); }
      var f7 := TakeInt(1);
      if f7.Refused? { return Refused(f7.error); }
      r := Done(Flags(f1.value, f2.value, f3.value, f4.value, f5.value, f6.value, f7.value));
    }

    method TakeTun() returns (r: Outcome<int>)
      modifies this
      ensures Agrees(GetTun(old(data)), r, data)
    {
      hide GetInt;
      var f := TakeInt(1);
      if f.Refused? {
        return Refused(f.error);
      }
      var n := TakeInt(4);
      if n.Refused? {
        return Refused(n.error);
      }
      r := Done(if f.value != 0 then -1 else Signed32(n.value));
    }

    /** `sshauthopt_deserialise`. */
    method Deserialise() returns (r: Outcome<Options>)
      modifies this
      ensures Agrees(GetOptions(old(data)), r, data)
    {
      hide GetInt, GetFlags, GetTun, GetNullable, GetArray;
      var flags := TakeFlags();
      if flags.Refused? { return Refused(flags.error); }
      var before := TakeInt(8);
      if before.Refused? { return Refused(before.error); }
      var tun := TakeTun();
      if tun.Refused? { return Refused(tun.error); }
      var p := TakeNullable();
      if p.Refused? { return Refused(p.error); }
      var c := TakeNullable();
      if c.Refused? { return Refused(c.error); }
      var hc := TakeNullable();
      if hc.Refused? { return Refused(hc.error); }
      var hk := TakeNullable();
      if hk.Refused? { return Refused(hk.error); }
      var env := DeserialiseArray();
      if env.Refused? { return Refused(env.error); }
      var po := DeserialiseArray();
      if po.Refused? { return Refused(po.error); }
      var pl := DeserialiseArray();
      if pl.Refused? { return Refused(pl.error); }
      r := Done(Options(flags.value, before.value, tun.value, p.value, c.value, hc.value, hk.value,
                        env.value, po.value, pl.value));
    }
  }

  /** Sends options through a buffer, as the monitor does between its two processes. */
  method SendAcross(o: Options, untrusted: bool, m: SshBuf) returns (r: Outcome<Options>)
    requires InStruct(o) && m.data == []
    modifies m
    ensures InStruct(Shown(o, untrusted))
    ensures r.Done? <==> |Wire(Shown(o, untrusted))| <= SSHBUF_SIZE_MAX
    ensures r.Done? ==> r.value == Canon(Shown(o, untrusted)) && m.data == []
  {
    hide Wire, GetOptions, InStruct, Shown;
    var ok := m.Serialise(o, untrusted);
    if !ok {
      return Refused(NoBufferSpace);
    }
    ghost var w := Wire(Shown(o, untrusted));
    assert m.data == w == w + [];
    WireRoundTrip(Shown(o, untrusted), []);
    r := m.Deserialise();
  }

  /** A failed string stops the array. */
  lemma {:induction false} StopsEarly(b: seq<byte>, i: nat, n: nat)
    requires i <= n && GetStrings(b, i).Failed?
    ensures GetStrings(b, n) == GetStrings(b, i)
    decreases n - i
  {
    if i < n {
      StopsEarly(b, i + 1, n);
    }
  }

  lemma ThreeParts(was: seq<byte>, cs: seq<seq<byte>>)
    requires |cs| == 10
    ensures ((was + Concat(cs[..3])) + Concat(cs[3..7])) + Concat(cs[7..]) == was + Concat(cs)
    ensures |Concat(cs[..3])| + |Concat(cs[3..7])| + |Concat(cs[7..])| == |Concat(cs)|
  {
    hide Concat;
    ConcatConcat(cs[..3], cs[3..]);
    ConcatConcat(cs[3..7], cs[7..]);
    assert cs[..3] + cs[3..] == cs && cs[3..7] + cs[7..] == cs[3..];
  }

  lemma {:induction false} ConcatConcat(a: seq<seq<byte>>, b: seq<seq<byte>>)
    ensures Concat(a + b) == Concat(a) + Concat(b)
  {
    if a == [] {
      assert a + b == b;
    } else {
      ConcatConcat(a[1..], b);
      assert (a + b)[1..] == a[1..] + b;
      Assoc(a[0], Concat(a[1..]), Concat(b));
    }
  }

  /** What the options hold once the writer has hidden what an untrusted reader must not see. */
  lemma ShownInStruct(o: Options, untrusted: bool)
    requires InStruct(o)
    ensures InStruct(Shown(o, untrusted))
  {
  }

  lemma StringsNone(a: seq<seq<byte>>, was: seq<byte>)
    requires a == []
    ensures was + PutStrings(a) == was
  {
  }

  lemma StringsStep(a: seq<seq<byte>>, i: nat)
    requires i < |a|
    ensures PutStrings(a[..i + 1]) == PutStrings(a[..i]) + PutString(a[i])
  {
    assert a[..i + 1][..i] == a[..i];
  }

  lemma {:induction false} StringsPrefix(a: seq<seq<byte>>, i: nat)
    requires i <= |a|
    ensures |PutStrings(a[..i])| <= |PutStrings(a)|
    decreases |a| - i
  {
    if i == |a| {
      assert a[..i] == a;
    } else {
      StringsPrefix(a, i + 1);
      assert a[..i + 1][..i] == a[..i];
    }
  }

  /** Appending chunk `k` to what holds the chunks before it. */
  lemma Written(was: seq<byte>, cs: seq<seq<byte>>, k: nat)
    requires k < |cs|
    ensures (was + Concat(cs[..k])) + cs[k] == was + Concat(cs[..k + 1])
    ensures |Concat(cs[..k])| + |cs[k]| == |Concat(cs[..k + 1])|
    ensures k == 0 ==> was + Concat(cs[..k]) == was && Concat(cs[..k]) == []
  {
    ConcatSnoc(cs[..k], cs[k]);
    assert cs[..k] + [cs[k]] == cs[..k + 1];
  }

  lemma {:induction false} ConcatSnoc(cs: seq<seq<byte>>, c: seq<byte>)
    ensures Concat(cs + [c]) == Concat(cs) + c
  {
    if cs == [] {
      assert cs + [c] == [c];
    } else {
      ConcatSnoc(cs[1..], c);
      assert (cs + [c])[1..] == cs[1..] + [c];
    }
  }
}
