/** `cipher-aesctr.c`: counter mode over a big-endian counter that is incremented in place. */
module Ctr {
  import opened Basics
  import opened Buffers
  import opened Numbers

  // ----- The counter -----

  /** The counter with one added: the last byte goes up, and a byte that wraps carries into the one before. */
  function Inc(s: seq<byte>): (r: seq<byte>)
    ensures |r| == |s|
  {
    if s == [] then [] else
      var n := |s| - 1;
      var b := NextByte(s[n]);
      if b != 0 then s[..n] + [b] else Inc(s[..n]) + [b]
  }

  lemma {:induction false} ValueBound(s: seq<byte>)
    ensures FromBigEndian(s) < Pow256(|s|)
  {
    if s != [] {
      ValueBound(s[..|s| - 1]);
    }
  }

  function Wrap(x: nat, m: nat): nat {
    if x == m then 0 else x
  }

  lemma IncStep(front: seq<byte>, last: byte)
    ensures Inc(front + [last]) == (if NextByte(last) != 0 then front else Inc(front)) + [NextByte(last)]
  {
    assert (front + [last])[..|front|] == front;
  }

  lemma NoCarry(front: seq<byte>, last: byte)
    requires NextByte(last) != 0
    ensures var s := front + [last]; FromBigEndian(Inc(s)) == Wrap(FromBigEndian(s) + 1, Pow256(|s|))
  {
    hide FromBigEndian, NextByte, Pow256, Inc, Wrap;
    var s := front + [last];
    IncStep(front, last);
    FromSnoc(front, last);
    FromSnoc(front, NextByte(last));
    NextByteValue(last);
    ValueBound(Inc(s));
    NoWrap(FromBigEndian(s) + 1, Pow256(|s|));
  }

  lemma Carries(front: seq<byte>, last: byte)
    requires NextByte(last) == 0
    requires FromBigEndian(Inc(front)) == Wrap(FromBigEndian(front) + 1, Pow256(|front|))
    ensures var s := front + [last]; FromBigEndian(Inc(s)) == Wrap(FromBigEndian(s) + 1, Pow256(|s|))
  {
    hide FromBigEndian, NextByte, Pow256, Inc, Wrap;
    IncStep(front, last);
    FromSnoc(front, last);
    FromSnoc(Inc(front), 0);
    NextByteValue(last);
    Power(|front| + 1);
    WrapScaled(FromBigEndian(front) + 1, Pow256(|front|));
  }

  lemma {:induction false} IncWraps(s: seq<byte>)
    ensures FromBigEndian(Inc(s)) == Wrap(FromBigEndian(s) + 1, Pow256(|s|))
  {
    if s != [] {
      hide FromBigEndian, NextByte, Pow256, Inc, Wrap;
      var front, last := s[..|s| - 1], s[|s| - 1];
      assert s == front + [last];
      if NextByte(last) != 0 {
        NoCarry(front, last);
      } else {
        IncWraps(front);
        Carries(front, last);
      }
    }
  }

  lemma NoWrap(x: nat, m: nat)
    requires x < m
    ensures Wrap(x, m) == x
  {
  }

  lemma WrapScaled(x: nat, m: nat)
    ensures 256 * Wrap(x, m) == Wrap(256 * x, 256 * m)
  {
  }

  lemma Power(k: nat)
    requires k > 0
    ensures Pow256(k) == 256 * Pow256(k - 1)
  {
  }

  function Residue(x: nat, m: nat): nat
    requires m > 0
  {
    x % m
  }

  lemma WrapIsMod(x: nat, m: nat)
    requires 0 < m && x <= m
    ensures Wrap(x, m) == Residue(x, m)
  {
  }

  /** The increment is addition of one modulo `256^len`. */
  lemma IncAddsOne(s: seq<byte>)
    ensures FromBigEndian(Inc(s)) == Residue(FromBigEndian(s) + 1, Pow256(|s|))
  {
    hide FromBigEndian, Inc, Pow256, Wrap;
    IncWraps(s);
    ValueBound(s);
    WrapIsMod(FromBigEndian(s) + 1, Pow256(|s|));
  }

  /** `aesctr_inc`, leaving the loop at the first byte that does not wrap. */
  method IncEarlyExit(ctr: array<byte>)
    modifies ctr
    ensures ctr[..] == Inc(old(ctr[..]))
  {
    ghost var was := ctr[..];
    var i := ctr.Length;
    assert ctr[..i] == was && ctr[i..] == [] && Inc(was) + [] == Inc(was);
    while i > 0
      invariant 0 <= i <= ctr.Length
      invariant ctr[..i] == was[..i]
      invariant Inc(was) == Inc(ctr[..i]) + ctr[i..]
    {
      i := i - 1;
      ghost var before := ctr[..i + 1];
      ctr[i] := NextByte(ctr[i]);
      assert before[..i] == ctr[..i] == was[..i];
      assert ctr[i..] == [ctr[i]] + ctr[i + 1..];
      if ctr[i] != 0 {
        assert ctr[..] == ctr[..i] + [ctr[i]] + ctr[i + 1..];
        return;
      }
    }
    assert ctr[..] == ctr[..0] + ctr[0..];
  }

  function NonZeroBit(v: byte): byte {
    var x := (v | (v >> 4)) & 0xf;
    var x := (x | (x >> 2)) & 0x3;
    (x | (x >> 1)) & 0x1
  }

  lemma NonZeroBitExact(v: byte)
    ensures NonZeroBit(v) == if v == 0 then 0 else 1
  {
  }

  function Plus(b: byte, add: byte): byte {
    b + add
  }

  /** `add *= (x ^ 1)`. */
  function Carry(add: byte, v: byte): byte {
    add * (NonZeroBit(v) ^ 1)
  }

  lemma CarryExact(add: byte, v: byte)
    requires add == 0 || add == 1
    ensures Carry(add, v) == if add == 1 && v == 0 then 1 else 0
    ensures Plus(v, 0) == v && Plus(v, 1) == NextByte(v)
  {
    NonZeroBitExact(v);
  }

  /** What is still to be done to the front of the counter. */
  function CarryTo(s: seq<byte>, add: byte): seq<byte> {
    if add == 1 then Inc(s) else s
  }

  lemma CarryStep(was: seq<byte>, front: seq<byte>, b: byte, tail: seq<byte>, add: byte)
    requires (add == 0 || add == 1) && Inc(was) == CarryTo(front + [b], add) + tail
    ensures var v := Plus(b, add); var next := Carry(add, v);
      (next == 0 || next == 1) && Inc(was) == CarryTo(front, next) + ([v] + tail)
  {
    hide NextByte, Plus, Carry;
    CarryExact(add, b);
    CarryExact(add, Plus(b, add));
    assert (front + [b])[..|front|] == front;
  }

  lemma CarryEnds(s: seq<byte>, add: byte)
    ensures CarryTo([], add) == [] && CarryTo(s, 1) == Inc(s)
  {
  }

  /** `aesctr_inc` without a branch on the counter: it visits every byte and carries arithmetically. */
  method IncConstantTime(ctr: array<byte>)
    modifies ctr
    ensures ctr[..] == Inc(old(ctr[..]))
  {
    hide NextByte, Plus, Carry, Inc, CarryTo;
    ghost var was := ctr[..];
    var add: byte := 1;
    var i := ctr.Length;
    assert ctr[..i] == was && ctr[i..] == [] && Inc(was) + [] == Inc(was);
    CarryEnds(was, 1);
    while i > 0
      invariant 0 <= i <= ctr.Length && (add == 0 || add == 1)
      invariant ctr[..i] == was[..i]
      invariant Inc(was) == CarryTo(ctr[..i], add) + ctr[i..]
    {
      i := i - 1;
      assert ctr[..i + 1] == was[..i] + [ctr[i]];
      CarryStep(was, was[..i], ctr[i], ctr[i + 1..], add);
      ctr[i] := Plus(ctr[i], add);
      add := Carry(add, ctr[i]);
      assert ctr[i..] == [ctr[i]] + ctr[i + 1..];
      assert ctr[..i] == was[..i];
    }
    CarryEnds(was, add);
    assert ctr[..0] == [] && ctr[..] == [] + ctr[0..];
  }

  // ----- The stream -----

  function IncTimes(ctr: Block16, k: nat): Block16 {
    if k == 0 then ctr else Inc(IncTimes(ctr, k - 1))
  }

  /** Counting `k` blocks adds `k` modulo `256^16`. */
  lemma {:induction false} IncTimesAdds(ctr: Block16, k: nat)
    ensures FromBigEndian(IncTimes(ctr, k)) == Residue(FromBigEndian(ctr) + k, Pow256(|ctr|))
  {
    hide FromBigEndian, Pow256, Inc, Wrap, Residue;
    ValueBound(ctr);
    if k == 0 {
      ModIs(FromBigEndian(ctr), 0, FromBigEndian(ctr), Pow256(|ctr|));
    } else {
      IncTimesAdds(ctr, k - 1);
      IncAddsOne(IncTimes(ctr, k - 1));
      ModSucc(FromBigEndian(ctr) + k - 1, Pow256(|ctr|));
    }
  }

  lemma ModSucc(x: nat, m: nat)
    requires m > 0
    ensures Residue(Residue(x, m) + 1, m) == Residue(x + 1, m)
  {
    var q, r := x / m, x % m;
    assert x + 1 == q * m + (r + 1);
    if r + 1 < m {
      ModIs(x + 1, q, r + 1, m);
      ModIs(r + 1, 0, r + 1, m);
    } else {
      assert x + 1 == (q + 1) * m + 0;
      ModIs(x + 1, q + 1, 0, m);
      ModIs(r + 1, 1, 0, m);
    }
  }

  lemma ModIs(x: nat, q: nat, r: nat, m: nat)
    requires r < m && x == q * m + r
    ensures Residue(x, m) == r
  {
    var d := x / m - q;
    assert x == (x / m) * m + x % m;
    assert d * m == r - x % m;
    Multiple(d, m);
  }

  lemma Multiple(d: int, m: int)
    requires m >= 0
    ensures d >= 1 ==> d * m >= m
    ensures d <= -1 ==> d * m <= -m
  {
  }

  /** Message byte `i` xor byte `i % 16` of the encrypted counter `i / 16` places on. */
  function Crypt(e: Block16 -> Block16, ctr: Block16, m: seq<byte>): (c: seq<byte>)
    ensures |c| == |m|
  {
    seq(|m|, i requires 0 <= i < |m| => XorByte(m[i], e(IncTimes(ctr, i / 16))[i % 16]))
  }

  /** The counter after `n` bytes: one step for every block begun. */
  function After(ctr: Block16, n: nat): Block16 {
    IncTimes(ctr, (n + 15) / 16)
  }

  /** Encryption is its own inverse. */
  lemma CryptTwice(e: Block16 -> Block16, ctr: Block16, m: seq<byte>)
    ensures Crypt(e, ctr, Crypt(e, ctr, m)) == m
  {
    hide XorByte, IncTimes;
    forall i | 0 <= i < |m| ensures Crypt(e, ctr, Crypt(e, ctr, m))[i] == m[i] {
      XorTwice(m[i], e(IncTimes(ctr, i / 16))[i % 16]);
    }
  }

  lemma {:induction false} IncTimesSum(ctr: Block16, j: nat, k: nat)
    ensures IncTimes(IncTimes(ctr, j), k) == IncTimes(ctr, j + k)
  {
    hide Inc;
    if k > 0 {
      IncTimesSum(ctr, j, k - 1);
    }
  }

  /** A message may be split at any multiple of 16 bytes. */
  lemma CryptSplit(e: Block16 -> Block16, ctr: Block16, a: seq<byte>, b: seq<byte>)
    requires |a| % 16 == 0
    ensures Crypt(e, ctr, a + b) == Crypt(e, ctr, a) + Crypt(e, After(ctr, |a|), b)
    ensures After(ctr, |a| + |b|) == After(After(ctr, |a|), |b|)
  {
    hide XorByte, IncTimes;
    var k := |a| / 16;
    assert (|a| + 15) / 16 == k && (|a| + |b| + 15) / 16 == k + (|b| + 15) / 16;
    IncTimesSum(ctr, k, (|b| + 15) / 16);
    forall i | 0 <= i < |b| ensures Crypt(e, ctr, a + b)[|a| + i] == Crypt(e, After(ctr, |a|), b)[i] {
      IncTimesSum(ctr, k, i / 16);
      assert (|a| + i) / 16 == k + i / 16 && (|a| + i) % 16 == i % 16;
    }
  }

  class Cipher {
    const e: Block16 -> Block16
    const ctr: array<byte>
    const constantTime: bool

    constructor (e: Block16 -> Block16, ctr: array<byte>, constantTime: bool)
      ensures this.e == e && this.ctr == ctr && this.constantTime == constantTime
    {
      this.e, this.ctr, this.constantTime := e, ctr, constantTime;
    }

    method Increment()
      requires ctr.Length == 16
      modifies ctr
      ensures ctr[..] == Inc(old(ctr[..]))
    {
      if constantTime {
        IncConstantTime(ctr);
      } else {
        IncEarlyExit(ctr);
      }
    }

    /** `aesctr_encrypt_bytes`, from `m` at `mo` to `c` at `co`: the same place or different buffers. */
    method EncryptBytes(m: array<byte>, mo: nat, c: array<byte>, co: nat, bytes: nat)
      requires mo + bytes <= m.Length && co + bytes <= c.Length && (m == c ==> mo == co)
      requires ctr.Length == 16 && ctr != c && ctr != m
      modifies ctr, c
      ensures c[..] == Spliced(old(c[..]), co, Crypt(e, old(ctr[..]), old(m[mo..mo + bytes])))
      ensures ctr[..] == After(old(ctr[..]), bytes)
    {
      hide Inc, IncTimes, XorByte, Crypt, Spliced;
      ghost var start: Block16 := ctr[..];
      ghost var msg, was := m[mo..mo + bytes], c[..];
      assert IncTimes(start, 0) == start by { NoSteps(start); }
      NoBytes(e, start, was, co);
      var n := 0;
      var buf: Block16 := [0, 0, 0, 0, 0, 0, 0, 0, 0, 0, 0, 0, 0, 0, 0, 0];
      for i := 0 to bytes
        invariant n == i % 16
        invariant ctr[..] == IncTimes(start, (i + 15) / 16)
        invariant n != 0 ==> buf == e(IncTimes(start, i / 16))
        invariant c[..] == Spliced(was, co, Crypt(e, start, msg[..i]))
        invariant forall k :: i <= k < bytes ==> m[mo + k] == msg[k]
      {
        if n == 0 {
          buf := e(ctr[..]);
          Increment();
          NextBlock(start, i);
        }
        OneMore(e, start, was, co, msg, i);
        c[co + i] := XorByte(m[mo + i], buf[n]);
        n := (n + 1) % 16;
        SameBlock(i);
      }
      assert msg[..bytes] == msg;
    }
  }

  lemma NoSteps(ctr: Block16)
    ensures IncTimes(ctr, 0) == ctr
  {
  }

  lemma NoBytes(e: Block16 -> Block16, ctr: Block16, was: seq<byte>, co: nat)
    requires co <= |was|
    ensures Spliced(was, co, Crypt(e, ctr, [])) == was
  {
    SpliceNothing(was, co);
  }

  lemma NextBlock(ctr: Block16, i: nat)
    requires i % 16 == 0
    ensures (i + 15) / 16 == i / 16 && Inc(IncTimes(ctr, i / 16)) == IncTimes(ctr, (i + 16) / 16)
  {
  }

  lemma SameBlock(i: nat)
    ensures (i + 1) % 16 == (i % 16 + 1) % 16
    ensures (i + 1) % 16 != 0 ==> (i + 1) / 16 == i / 16
    ensures i % 16 != 0 ==> (i + 16) / 16 == (i + 15) / 16
  {
  }

  lemma OneMore(e: Block16 -> Block16, ctr: Block16, was: seq<byte>, co: nat, msg: seq<byte>, i: nat)
    requires i < |msg| && co + |msg| <= |was|
    ensures var b := XorByte(msg[i], e(IncTimes(ctr, i / 16))[i % 16]);
      Spliced(was, co, Crypt(e, ctr, msg[..i]))[co + i := b] == Spliced(was, co, Crypt(e, ctr, msg[..i + 1]))
  {
    hide XorByte, IncTimes;
    var b := XorByte(msg[i], e(IncTimes(ctr, i / 16))[i % 16]);
    assert Crypt(e, ctr, msg[..i + 1]) == Crypt(e, ctr, msg[..i]) + [b];
  }
}
