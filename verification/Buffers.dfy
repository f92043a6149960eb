/** Byte buffers that the cipher modes write into, and xor of byte strings. */
module Buffers {
  import opened Basics

  /** A block of the 128-bit ciphers. */
  type Block16 = s: seq<byte> | |s| == 16 witness [0, 0, 0, 0, 0, 0, 0, 0, 0, 0, 0, 0, 0, 0, 0, 0]

  /** The text with `x` written over it at `i`. */
  function Spliced(s: seq<byte>, i: nat, x: seq<byte>): (r: seq<byte>)
    requires i + |x| <= |s|
    ensures |r| == |s|
  {
    s[..i] + x + s[i + |x|..]
  }

  lemma SpliceNothing(s: seq<byte>, i: nat)
    requires i <= |s|
    ensures Spliced(s, i, []) == s
  {
  }

  lemma SpliceOn(s: seq<byte>, i: nat, x: seq<byte>, y: seq<byte>)
    requires i + |x| + |y| <= |s|
    ensures Spliced(Spliced(s, i, x), i + |x|, y) == Spliced(s, i, x + y)
  {
  }

  lemma SplicedElsewhere(s: seq<byte>, i: nat, x: seq<byte>, j: nat, k: nat)
    requires i + |x| <= |s| && j <= k <= |s| && (k <= i || i + |x| <= j)
    ensures Spliced(s, i, x)[j..k] == s[j..k]
  {
  }

  lemma SplicedHere(s: seq<byte>, i: nat, x: seq<byte>)
    requires i + |x| <= |s|
    ensures Spliced(s, i, x)[i..i + |x|] == x
  {
  }

  method Write(dest: array<byte>, at: nat, x: seq<byte>)
    requires at + |x| <= dest.Length
    modifies dest
    ensures dest[..] == Spliced(old(dest[..]), at, x)
  {
    for i := 0 to |x|
      invariant forall k :: 0 <= k < i ==> dest[at + k] == x[k]
      invariant forall k :: 0 <= k < dest.Length && !(at <= k < at + i) ==> dest[k] == old(dest[k])
    {
      dest[at + i] := x[i];
    }
    SplicedIs(old(dest[..]), at, x, dest[..]);
  }

  lemma SplicedIs(s: seq<byte>, i: nat, x: seq<byte>, r: seq<byte>)
    requires i + |x| <= |s| == |r|
    requires forall k :: 0 <= k < |x| ==> r[i + k] == x[k]
    requires forall k :: 0 <= k < |s| && !(i <= k < i + |x|) ==> r[k] == s[k]
    ensures r == Spliced(s, i, x)
  {
    forall k | 0 <= k < |s| ensures r[k] == Spliced(s, i, x)[k] {
      if i <= k < i + |x| {
        assert r[i + (k - i)] == x[k - i];
      }
    }
  }

  function XorByte(x: byte, y: byte): byte {
    x ^ y
  }

  /** `m` xor the front of `k`. */
  function Xored(m: seq<byte>, k: seq<byte>): (s: seq<byte>)
    requires |m| <= |k|
    ensures |s| == |m|
  {
    seq(|m|, i requires 0 <= i < |m| => XorByte(m[i], k[i]))
  }

  lemma XorTwice(x: byte, y: byte)
    ensures XorByte(XorByte(x, y), y) == x
  {
  }

  lemma XoredTwice(m: seq<byte>, k: seq<byte>)
    requires |m| <= |k|
    ensures Xored(Xored(m, k), k) == m
  {
    hide XorByte;
    forall i | 0 <= i < |m| ensures XorByte(XorByte(m[i], k[i]), k[i]) == m[i] {
      XorTwice(m[i], k[i]);
    }
  }
}
