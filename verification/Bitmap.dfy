/** `bitmap.c`: a growable array of words with a lazily kept top, which is a set of naturals. */
module Bitmap {
  import opened Basics

  const BITMAP_MAX: nat := 0x1000000

  // ----- Bits of a word -----

  /** A bit position as a shift amount. */
  function Ix(k: nat): (i: bv6)
    requires k < 32
    ensures i as int == k && i < 32
  {
    if k == 0 then 0 else (Increment(Ix(k - 1)); Ix(k - 1) + 1)
  }

  lemma Increment(i: bv6)
    requires i < 32
    ensures (i + 1) as int == i as int + 1
  {
  }

  predicate At(w: bv32, i: bv6)
    requires i < 32
  {
    (w >> i) & 1 == 1
  }

  function WithAt(w: bv32, i: bv6): bv32
    requires i < 32
  {
    w | ((1 as bv32) << i)
  }

  function WithoutAt(w: bv32, i: bv6): bv32
    requires i < 32
  {
    w & !((1 as bv32) << i)
  }

  /** `(w >> k) & 1`. */
  predicate Bit(w: bv32, k: nat)
    requires k < 32
  {
    At(w, Ix(k))
  }

  /** `w | (BITMAP_WTYPE)1 << k`. */
  function SetBitOf(w: bv32, k: nat): bv32
    requires k < 32
  {
    WithAt(w, Ix(k))
  }

  /** `w & ~((BITMAP_WTYPE)1 << k)`. */
  function ClearBitOf(w: bv32, k: nat): bv32
    requires k < 32
  {
    WithoutAt(w, Ix(k))
  }

  lemma IxStep(k: nat)
    requires 0 < k < 32
    ensures Ix(k) == Ix(k - 1) + 1
  {
  }

  lemma {:induction false} IxAdd(i: nat, j: nat)
    requires i + j < 32
    ensures Ix(i + j) == Ix(i) + Ix(j)
    decreases j
  {
    hide Ix;
    if j > 0 {
      IxAdd(i, j - 1);
      IxStep(i + j);
      IxStep(j);
    } else {
      assert Ix(0) == 0;
    }
  }

  lemma AtWith(w: bv32, i: bv6, j: bv6)
    requires i < 32 && j < 32
    ensures At(WithAt(w, i), j) <==> i == j || At(w, j)
  {
  }

  lemma AtWithout(w: bv32, i: bv6, j: bv6)
    requires i < 32 && j < 32
    ensures At(WithoutAt(w, i), j) <==> i != j && At(w, j)
  {
  }

  lemma BitSet(w: bv32, i: nat, j: nat)
    requires i < 32 && j < 32
    ensures Bit(SetBitOf(w, i), j) <==> i == j || Bit(w, j)
    ensures Bit(ClearBitOf(w, i), j) <==> i != j && Bit(w, j)
  {
    hide Ix, At, WithAt, WithoutAt;
    AtWith(w, Ix(i), Ix(j));
    AtWithout(w, Ix(i), Ix(j));
  }

  lemma AtShift(w: bv32, j: bv6)
    requires 0 < j < 32
    ensures At(w << 1, j) <==> At(w, j - 1)
  {
  }

  lemma BitShift(w: bv32, j: nat)
    requires 0 < j < 32
    ensures Bit(w << 1, j) <==> Bit(w, j - 1)
  {
    hide At;
    AtShift(w, Ix(j));
  }

  lemma BitTop(w: bv32)
    ensures Bit(w, 31) <==> TopSet(w)
  {
    hide Ix;
    assert Ix(31) == 31;
  }

  lemma BitZero(k: nat)
    requires k < 32
    ensures !Bit(0, k)
  {
    hide Ix;
  }

  /** A word without bits is zero. */
  lemma NoBits(w: bv32)
    requires forall k :: 0 <= k < 32 ==> !Bit(w, k)
    ensures w == 0
  {
    forall i: bv6 | i < 32 ensures !At(w, i) {
      var k := i as nat;
      assert !Bit(w, k);
    }
    NoAts(w);
  }

  lemma NoAts(w: bv32)
    requires forall i: bv6 :: i < 32 ==> !At(w, i)
    ensures w == 0
  {
    assert !At(w, 0) && !At(w, 1) && !At(w, 2) && !At(w, 3) && !At(w, 4) && !At(w, 5) && !At(w, 6) && !At(w, 7);
    assert !At(w, 8) && !At(w, 9) && !At(w, 10) && !At(w, 11) && !At(w, 12) && !At(w, 13) && !At(w, 14) && !At(w, 15);
    assert !At(w, 16) && !At(w, 17) && !At(w, 18) && !At(w, 19) && !At(w, 20) && !At(w, 21) && !At(w, 22) && !At(w, 23);
    assert !At(w, 24) && !At(w, 25) && !At(w, 26) && !At(w, 27) && !At(w, 28) && !At(w, 29) && !At(w, 30) && !At(w, 31);
  }

  // ----- Bytes of a word -----

  function ByteAt(w: bv32, s: bv6): byte
    requires s < 32
  {
    ((w >> s) & 0xff) as bv8
  }

  function ShiftedByte(b: byte, s: bv6): bv32
    requires s < 32
  {
    (b as bv32) << s
  }

  function WithByteAt(w: bv32, b: byte, s: bv6): bv32
    requires s < 32
  {
    Either(w, ShiftedByte(b, s))
  }

  function Either(v: bv32, w: bv32): bv32 {
    v | w
  }

  predicate AtInByte(b: byte, i: bv6)
    requires i < 8
  {
    At(b as bv32, i)
  }

  predicate ByteStart(s: bv6) {
    s == 0 || s == 8 || s == 16 || s == 24
  }

  /** Byte `j` of the word, counted from the low end. */
  function ByteOf(w: bv32, j: nat): byte
    requires j < 4
  {
    ByteAt(w, Ix(8 * j))
  }

  /** The word with the bits of `b` or-ed into its byte `j`. */
  function PutByte(w: bv32, b: byte, j: nat): bv32
    requires j < 4
  {
    WithByteAt(w, b, Ix(8 * j))
  }

  predicate BitOfByte(b: byte, m: nat)
    requires m < 8
  {
    IxSmall(m);
    AtInByte(b, Ix(m))
  }

  lemma IxSmall(m: nat)
    requires m < 8
    ensures Ix(m) < 8
  {
  }

  lemma IxByte(j: nat)
    requires j < 4
    ensures ByteStart(Ix(8 * j))
  {
    if j == 0 { assert Ix(0) == 0; }
    else if j == 1 { assert Ix(8) == 8; }
    else if j == 2 { assert Ix(16) == 16; }
    else { assert Ix(24) == 24; }
  }

  lemma AtByte(w: bv32, s: bv6, m: bv6)
    requires ByteStart(s) && m < 8
    ensures s + m < 32
    ensures AtInByte(ByteAt(w, s), m) <==> At(w, s + m)
  {
  }

  lemma BitOfByteOf(w: bv32, j: nat, m: nat)
    requires j < 4 && m < 8
    ensures BitOfByte(ByteOf(w, j), m) <==> Bit(w, 8 * j + m)
  {
    hide Ix, At, AtInByte, ByteAt;
    IxAdd(8 * j, m);
    IxSmall(m);
    IxByte(j);
    AtByte(w, Ix(8 * j), Ix(m));
  }

  lemma AtEither(v: bv32, w: bv32, i: bv6)
    requires i < 32
    ensures At(Either(v, w), i) <==> At(v, i) || At(w, i)
  {
  }

  lemma AtShifted(b: byte, s: bv6, m: bv6)
    requires ByteStart(s) && m < 8
    ensures s + m < 32
    ensures At(ShiftedByte(b, s), s + m) <==> AtInByte(b, m)
  {
  }

  lemma NotAtShifted(b: byte, s: bv6, r: bv6, m: bv6)
    requires ByteStart(s) && ByteStart(r) && s != r && m < 8
    ensures r + m < 32
    ensures !At(ShiftedByte(b, s), r + m)
  {
  }

  lemma AtPut(w: bv32, b: byte, s: bv6, m: bv6)
    requires ByteStart(s) && m < 8
    ensures s + m < 32
    ensures At(WithByteAt(w, b, s), s + m) <==> At(w, s + m) || AtInByte(b, m)
  {
    hide At, Either, ShiftedByte, AtInByte;
    AtShifted(b, s, m);
    AtEither(w, ShiftedByte(b, s), s + m);
  }

  lemma AtPutOther(w: bv32, b: byte, s: bv6, r: bv6, m: bv6)
    requires ByteStart(s) && ByteStart(r) && s != r && m < 8
    ensures r + m < 32
    ensures At(WithByteAt(w, b, s), r + m) <==> At(w, r + m)
  {
    hide At, Either, ShiftedByte;
    NotAtShifted(b, s, r, m);
    AtEither(w, ShiftedByte(b, s), r + m);
  }

  lemma IxInjective(i: nat, j: nat)
    requires i < 32 && j < 32 && i != j
    ensures Ix(i) != Ix(j)
  {
    assert Ix(i) as int == i && Ix(j) as int == j;
  }

  lemma BitPut(w: bv32, b: byte, j: nat, i: nat, m: nat)
    requires j < 4 && i < 4 && m < 8
    ensures Bit(PutByte(w, b, j), 8 * i + m) <==> Bit(w, 8 * i + m) || (i == j && BitOfByte(b, m))
  {
    hide Ix, At, AtInByte, WithByteAt;
    IxAdd(8 * i, m);
    IxSmall(m);
    IxByte(i);
    IxByte(j);
    if i == j {
      AtPut(w, b, Ix(8 * j), Ix(m));
    } else {
      IxInjective(8 * i, 8 * j);
      AtPutOther(w, b, Ix(8 * j), Ix(8 * i), Ix(m));
    }
  }

  lemma SameAts(a: byte, b: byte)
    requires AtInByte(a, 0) == AtInByte(b, 0) && AtInByte(a, 1) == AtInByte(b, 1)
    requires AtInByte(a, 2) == AtInByte(b, 2) && AtInByte(a, 3) == AtInByte(b, 3)
    requires AtInByte(a, 4) == AtInByte(b, 4) && AtInByte(a, 5) == AtInByte(b, 5)
    requires AtInByte(a, 6) == AtInByte(b, 6) && AtInByte(a, 7) == AtInByte(b, 7)
    ensures a == b
  {
  }

  lemma IxLow()
    ensures Ix(0) == 0 && Ix(1) == 1 && Ix(2) == 2 && Ix(3) == 3
    ensures Ix(4) == 4 && Ix(5) == 5 && Ix(6) == 6 && Ix(7) == 7
  {
  }

  /** Bytes that agree in every bit are equal. */
  lemma SameBits(a: byte, b: byte)
    requires forall m :: 0 <= m < 8 ==> (BitOfByte(a, m) <==> BitOfByte(b, m))
    ensures a == b
  {
    IxLow();
    hide Ix, AtInByte;
    assert BitOfByte(a, 0) <==> BitOfByte(b, 0);
    assert BitOfByte(a, 1) <==> BitOfByte(b, 1);
    assert BitOfByte(a, 2) <==> BitOfByte(b, 2);
    assert BitOfByte(a, 3) <==> BitOfByte(b, 3);
    assert BitOfByte(a, 4) <==> BitOfByte(b, 4);
    assert BitOfByte(a, 5) <==> BitOfByte(b, 5);
    assert BitOfByte(a, 6) <==> BitOfByte(b, 6);
    assert BitOfByte(a, 7) <==> BitOfByte(b, 7);
    SameAts(a, b);
  }

  // ----- Word arrays as sets of naturals -----

  predicate Has(d: seq<bv32>, n: nat) {
    n / 32 < |d| && Bit(d[n / 32], n % 32)
  }

  ghost function Members(d: seq<bv32>): set<nat> {
    set n: nat | n < 32 * |d| && Has(d, n)
  }

  lemma SetHas(d: seq<bv32>, o: nat, k: nat, n: nat)
    requires o < |d| && k < 32
    ensures Has(d[o := SetBitOf(d[o], k)], n) <==> n == 32 * o + k || Has(d, n)
  {
    hide Bit, SetBitOf;
    BitSet(d[o], k, n % 32);
  }

  lemma ClearHas(d: seq<bv32>, o: nat, k: nat, n: nat)
    requires o < |d| && k < 32
    ensures Has(d[o := ClearBitOf(d[o], k)], n) <==> n != 32 * o + k && Has(d, n)
  {
    hide Bit, ClearBitOf;
    BitSet(d[o], k, n % 32);
  }

  lemma PlaceOf(n: nat, o: nat, j: nat)
    requires j < 4
    ensures n % 32 / 8 < 4 && n % 32 == 8 * (n % 32 / 8) + n % 8
    ensures n / 8 == 4 * o + j <==> n / 32 == o && n % 32 / 8 == j
  {
  }

  lemma PutHas(d: seq<bv32>, o: nat, b: byte, j: nat, n: nat)
    requires o < |d| && j < 4
    ensures Has(d[o := PutByte(d[o], b, j)], n) <==> Has(d, n) || (n / 8 == 4 * o + j && BitOfByte(b, n % 8))
  {
    hide Bit, PutByte, BitOfByte;
    PlaceOf(n, o, j);
    BitPut(d[o], b, j, n % 32 / 8, n % 8);
  }

  lemma ZeroWords(d: seq<bv32>, n: nat)
    requires n / 32 < |d| ==> d[n / 32] == 0
    ensures !Has(d, n)
  {
    BitZero(n % 32);
  }

  lemma SameMembers(d: seq<bv32>, e: seq<bv32>)
    requires forall n: nat :: Has(d, n) <==> Has(e, n)
    ensures Members(d) == Members(e)
  {
    hide Bit;
  }

  /** `k` is one more than the largest member, or 0 for the empty set. */
  ghost predicate IsSize(s: set<nat>, k: nat) {
    (k > 0 ==> k - 1 in s) && forall n :: n in s ==> n < k
  }

  // ----- Big-endian strings -----

  /** Bit `n` of the number a big-endian byte string denotes. */
  predicate StrBit(s: seq<byte>, n: nat) {
    n / 8 < |s| && BitOfByte(s[|s| - 1 - n / 8], n % 8)
  }

  ghost function StrMembers(s: seq<byte>): set<nat> {
    set n: nat | n < 8 * |s| && StrBit(s, n)
  }

  function WithoutLeadingZeros(s: seq<byte>): seq<byte> {
    if s != [] && s[0] == 0 then WithoutLeadingZeros(s[1..]) else s
  }

  /** The string has the bits of the set and no leading zero byte. */
  ghost predicate Prints(s: seq<byte>, m: set<nat>) {
    (s != [] ==> s[0] != 0) && forall n: nat :: StrBit(s, n) <==> n in m
  }

  lemma StrBitZero(s: seq<byte>, n: nat)
    requires s != [] && s[0] == 0
    ensures StrBit(s, n) <==> StrBit(s[1..], n)
  {
    if n / 8 == |s| - 1 {
      BitZero(n % 8);
    }
  }

  lemma {:induction false} StripKeepsBits(s: seq<byte>, n: nat)
    ensures StrBit(s, n) <==> StrBit(WithoutLeadingZeros(s), n)
  {
    if s != [] && s[0] == 0 {
      StrBitZero(s, n);
      StripKeepsBits(s[1..], n);
    }
  }

  lemma ByteHasBit(b: byte) returns (m: nat)
    requires b != 0
    ensures m < 8 && BitOfByte(b, m)
  {
    assert exists k :: 0 <= k < 8 && BitOfByte(b, k) by {
      forall k | 0 <= k < 8 ensures !BitOfByte(0, k) { BitZero(k); }
      if forall k :: 0 <= k < 8 ==> (BitOfByte(b, k) <==> BitOfByte(0, k)) {
        SameBits(b, 0);
      }
    }
    m :| 0 <= m < 8 && BitOfByte(b, m);
  }

  /** Two strings for one set are equally long. */
  lemma NotLonger(s: seq<byte>, t: seq<byte>, m: set<nat>)
    requires Prints(s, m) && Prints(t, m)
    ensures |s| <= |t|
  {
    hide BitOfByte;
    if s != [] {
      var k := ByteHasBit(s[0]);
      assert StrBit(s, 8 * (|s| - 1) + k);
      assert StrBit(t, 8 * (|s| - 1) + k);
    }
  }

  /** A set of naturals has exactly one string without leading zero bytes. */
  lemma PrintedOnce(s: seq<byte>, t: seq<byte>, m: set<nat>)
    requires Prints(s, m) && Prints(t, m)
    ensures s == t
  {
    hide BitOfByte;
    NotLonger(s, t, m);
    NotLonger(t, s, m);
    forall i | 0 <= i < |s| ensures s[i] == t[i] {
      forall k | 0 <= k < 8 ensures BitOfByte(s[i], k) <==> BitOfByte(t[i], k) {
        var n := 8 * (|s| - 1 - i) + k;
        assert StrBit(s, n) <==> StrBit(t, n);
      }
      SameBits(s[i], t[i]);
    }
  }

  lemma StripHasNoZero(s: seq<byte>)
    ensures WithoutLeadingZeros(s) != [] ==> WithoutLeadingZeros(s)[0] != 0
  {
  }

  /** Printing what was parsed drops the leading zero bytes and nothing else. */
  lemma ParsedPrints(s: seq<byte>, t: seq<byte>)
    ensures Prints(t, StrMembers(s)) <==> t == WithoutLeadingZeros(s)
  {
    hide StrBit;
    var u := WithoutLeadingZeros(s);
    StripHasNoZero(s);
    forall n: nat ensures StrBit(u, n) <==> n in StrMembers(s) {
      StripKeepsBits(s, n);
      StrBitBound(s, n);
    }
    assert Prints(u, StrMembers(s));
    if Prints(t, StrMembers(s)) {
      PrintedOnce(t, u, StrMembers(s));
    }
  }

  lemma StrBitBound(s: seq<byte>, n: nat)
    ensures StrBit(s, n) ==> n < 8 * |s|
  {
    hide BitOfByte;
  }

  /** Parsing what was printed restores the set. */
  lemma PrintedParses(s: seq<byte>, m: set<nat>)
    requires Prints(s, m)
    ensures StrMembers(s) == m
  {
    hide StrBit;
    forall n | n in m ensures n in StrMembers(s) {
      assert StrBit(s, n);
      StrBitBound(s, n);
    }
  }

  /** Byte `i` of the `need`-byte big-endian string of a word array. */
  function Printed(d: seq<bv32>, need: nat): (s: seq<byte>)
    requires need <= 4 * |d|
    ensures |s| == need
  {
    seq(need, i requires 0 <= i < need => ByteOf(d[(need - 1 - i) / 4], (need - 1 - i) % 4))
  }

  lemma PrintedIs(d: seq<bv32>, need: nat, s: seq<byte>)
    requires need <= 4 * |d| && |s| == need
    requires forall x :: 0 <= x < need ==> s[x] == ByteOf(d[(need - 1 - x) / 4], (need - 1 - x) % 4)
    ensures s == Printed(d, need)
  {
    hide ByteOf;
  }

  lemma PrintedBit(d: seq<bv32>, need: nat, n: nat)
    requires need <= 4 * |d| && n / 8 < need
    ensures StrBit(Printed(d, need), n) <==> Has(d, n)
  {
    hide Bit, BitOfByte, ByteOf;
    var k := n / 8;
    assert Printed(d, need)[need - 1 - k] == ByteOf(d[k / 4], k % 4);
    BitOfByteOf(d[k / 4], k % 4, n % 8);
    assert n / 32 == k / 4 && n % 32 == 8 * (k % 4) + n % 8;
  }

  /** The string of the minimal length has exactly the members as bits. */
  lemma PrintedPrints(d: seq<bv32>, size: nat)
    requires IsSize(Members(d), size)
    ensures (size + 7) / 8 <= 4 * |d|
    ensures Prints(Printed(d, (size + 7) / 8), Members(d))
  {
    hide Has, StrBit, Printed;
    if size > 0 {
      assert size - 1 in Members(d);
    }
    var need := (size + 7) / 8;
    var s := Printed(d, need);
    forall n: nat ensures StrBit(s, n) <==> n in Members(d) {
      HasBound(d, n);
      StrBitBound(s, n);
      if n / 8 < need {
        PrintedBit(d, need, n);
      }
    }
    if size > 0 {
      assert StrBit(s, size - 1);
      FirstByte(s, size - 1);
    }
  }

  lemma HasBound(d: seq<bv32>, n: nat)
    ensures Has(d, n) ==> n < 32 * |d|
  {
    hide Bit;
  }

  lemma FirstByte(s: seq<byte>, n: nat)
    requires s != [] && n / 8 == |s| - 1 && StrBit(s, n)
    ensures s[0] != 0
  {
    BitZero(n % 8);
  }

  // ----- The bitmap -----

  class Bitmap {
    var d: array<bv32>
    var top: nat

    /** `top` is inside the array and every word above it is zero. */
    ghost predicate Valid()
      reads this, d
    {
      top < d.Length && forall i :: top < i < d.Length ==> d[i] == 0
    }

    ghost function Elements(): set<nat>
      reads this`d, d
    {
      Members(d[..])
    }

    constructor ()
      ensures Valid() && fresh(d) && Elements() == {}
    {
      d := new bv32[1](_ => 0);
      top := 0;
      new;
      forall n: nat ensures !Has(d[..], n) { ZeroWords(d[..], n); }
    }

    method Zero()
      requires Valid()
      modifies this`top, d
      ensures Valid() && Elements() == {} && top == 0 && forall i :: 0 <= i < d.Length ==> d[i] == 0
    {
      for i := 0 to d.Length
        invariant forall k :: 0 <= k < i ==> d[k] == 0
      {
        d[i] := 0;
      }
      top := 0;
      forall n: nat ensures !Has(d[..], n) { ZeroWords(d[..], n); }
    }

    method TestBit(n: nat) returns (r: bool)
      requires Valid()
      ensures r <==> n in Elements()
    {
      hide Bit;
      HasBound(d[..], n);
      if n / 32 > top {
        ZeroWords(d[..], n);
        return false;
      }
      r := Bit(d[n / 32], n % 32);
    }

    /** Grows the array so that it has a word for bit `n`; `mem` says whether the allocation works. */
    method Reserve(n: nat, mem: bool) returns (r: int)
      requires Valid()
      modifies this`d
      ensures Valid() && (d == old(d) || fresh(d)) && old(d.Length) <= d.Length
      ensures r == if n > BITMAP_MAX || (old(d.Length) < n / 32 + 1 && !mem) then -1 else 0
      ensures Elements() == old(Elements())
      ensures r == 0 ==> n / 32 < d.Length
      ensures r != 0 ==> d == old(d)
    {
      if n > BITMAP_MAX {
        return -1;
      }
      var nlen := n / 32 + 1;
      if d.Length < nlen {
        if !mem {
          return -1;
        }
        var was := d[..];
        var tmp := new bv32[nlen](i requires 0 <= i < nlen => if i < |was| then was[i] else 0);
        d := tmp;
        forall k: nat ensures Has(d[..], k) <==> Has(was, k) {
          if k / 32 >= |was| { ZeroWords(d[..], k); }
        }
        SameMembers(d[..], was);
      }
      r := 0;
    }

    method SetBit(n: nat, mem: bool) returns (r: int)
      requires Valid()
      modifies this, d
      ensures Valid() && (d == old(d) || fresh(d))
      ensures r == if n > BITMAP_MAX || (old(d.Length) < n / 32 + 1 && !mem) then -1 else 0
      ensures Elements() == if r == 0 then old(Elements()) + {n} else old(Elements())
    {
      r := Reserve(n, mem);
      if r != 0 {
        return;
      }
      var offset := n / 32;
      if offset > top {
        top := offset;
      }
      ghost var was := d[..];
      d[offset] := SetBitOf(d[offset], n % 32);
      AddedMember(was, n, d[..]);
    }

    /** Moves `top` down to the highest word that is not zero. */
    method Retop()
      requires Valid()
      modifies this`top
      ensures Valid() && top <= old(top) && (top > 0 ==> d[top] != 0)
    {
      while top > 0 && d[top] == 0
        invariant top < d.Length && top <= old(top)
        invariant forall i :: top < i < d.Length ==> d[i] == 0
      {
        top := top - 1;
      }
    }

    method ClearBit(n: nat)
      requires Valid()
      modifies this`top, d
      ensures Valid()
      ensures Elements() == if n > BITMAP_MAX then old(Elements()) else old(Elements()) - {n}
    {
      if n > BITMAP_MAX {
        return;
      }
      var offset := n / 32;
      if offset > top {
        ZeroWords(d[..], n);
        return;
      }
      ghost var was := d[..];
      d[offset] := ClearBitOf(d[offset], n % 32);
      RemovedMember(was, n, d[..]);
      Retop();
    }

    method Nbits() returns (bits: nat)
      requires Valid()
      modifies this`top
      ensures Valid() && IsSize(Elements(), bits) && (bits + 7) / 8 <= 4 * (top + 1)
    {
      Retop();
      if top == 0 && d[0] == 0 {
        forall n: nat ensures !Has(d[..], n) { ZeroWords(d[..], n); }
        return 0;
      }
      var w := d[top];
      var k := TopBit(w);
      bits := top * 32 + k + 1;
      SizeFromTop(d[..], top, k);
    }

    method Nbytes() returns (r: nat, ghost bits: nat)
      requires Valid()
      modifies this`top
      ensures Valid() && IsSize(Elements(), bits) && r == (bits + 7) / 8 <= 4 * (top + 1)
    {
      var n := Nbits();
      bits := n;
      r := (n + 7) / 8;
    }

    /** Writes the set as a big-endian string of minimal length at the start of `p`, which offers `l` bytes. */
    method ToString(p: array<byte>, l: nat) returns (r: int, ghost bits: nat)
      requires Valid() && l <= p.Length
      modifies this`top, p
      ensures Valid() && Elements() == old(Elements()) && IsSize(Elements(), bits)
      ensures r == if l < (bits + 7) / 8 then -1 else 0
      ensures r != 0 ==> p[..] == old(p[..])
      ensures r == 0 ==> Prints(p[..(bits + 7) / 8], Elements()) && p[(bits + 7) / 8..] == old(p[(bits + 7) / 8..])
    {
      hide IsSize, Prints, Members, ByteOf;
      var need;
      need, bits := Nbytes();
      if l < need {
        return -1, bits;
      }
      PutBytes(p, need);
      PrintedPrints(d[..], bits);
      r := 0;
    }

    /** Writes the low `need` bytes of the words to `p`, the lowest byte last. */
    method PutBytes(p: array<byte>, need: nat)
      requires Valid() && need <= p.Length && need <= 4 * (top + 1)
      modifies p
      ensures p[..need] == Printed(d[..], need) && p[need..] == old(p[need..])
      ensures Valid() && d[..] == old(d[..])
    {
      hide ByteOf, Printed;
      var k: nat := 0;
      for i := 0 to top + 1
        invariant k == Min(4 * i, need)
        invariant forall x :: 0 <= x < k ==> p[need - 1 - x] == ByteOf(d[x / 4], x % 4)
        invariant forall x :: need <= x < p.Length ==> p[x] == old(p[x])
      {
        for j := 0 to 4
          invariant k == Min(4 * i + j, need)
          invariant forall x :: 0 <= x < k ==> p[need - 1 - x] == ByteOf(d[x / 4], x % 4)
          invariant forall x :: need <= x < p.Length ==> p[x] == old(p[x])
        {
          if k >= need {
            break;
          }
          assert k / 4 == i && k % 4 == j;
          p[need - 1 - k] := ByteOf(d[i], j);
          k := k + 1;
        }
      }
      forall x | 0 <= x < need ensures p[x] == ByteOf(d[(need - 1 - x) / 4], (need - 1 - x) % 4) {
        assert p[need - 1 - (need - 1 - x)] == ByteOf(d[(need - 1 - x) / 4], (need - 1 - x) % 4);
      }
      PrintedIs(d[..], need, p[..need]);
    }

    /** Replaces the set by the one a big-endian string denotes. */
    method FromString(s: seq<byte>, mem: bool) returns (r: int)
      requires Valid()
      modifies this, d
      ensures Valid() && (d == old(d) || fresh(d))
      ensures r == if |s| > BITMAP_MAX / 8 || (old(d.Length) < |s| / 4 + 1 && !mem) then -1 else 0
      ensures Elements() == if r == 0 then StrMembers(s) else old(Elements())
    {
      hide Has, StrBit, PutByte;
      if |s| > BITMAP_MAX / 8 {
        return -1;
      }
      r := Reserve(|s| * 8, mem);
      if r != 0 {
        return;
      }
      Zero();
      NoneYet(d[..], s);
      if |s| == 0 {
        AllRead(d[..], s);
        return 0;
      }
      OrIn(s);
      AllRead(d[..], s);
      Retop();
    }

    /** Ors the bytes of a non-empty string into the zeroed words, from its high end down. */
    method OrIn(s: seq<byte>)
      requires s != [] && (|s| - 1) / 4 < d.Length
      requires ReadSoFar(d[..], s, 0) && forall x :: 0 <= x < d.Length ==> d[x] == 0
      modifies this`top, d
      ensures Valid() && ReadSoFar(d[..], s, |s|)
    {
      hide Has, StrBit, PutByte, ReadSoFar;
      var offset: int := (|s| + 3) / 4 - 1;
      var shift: int := (|s| + 3) % 4 * 8;
      top := offset;
      // In the source the last step of `offset` wraps around below zero and is not used again.
      for i := 0 to |s|
        invariant offset == (|s| - 1 - i) / 4 && shift == (|s| - 1 - i) % 4 * 8
        invariant top == (|s| - 1) / 4 && forall x :: top < x < d.Length ==> d[x] == 0
        invariant ReadSoFar(d[..], s, i)
      {
        ghost var was := d[..];
        d[offset] := PutByte(d[offset], s[i], shift / 8);
        ReadOne(was, s, i, d[..]);
        if shift == 0 {
          offset := offset - 1;
          shift := 24;
        } else {
          shift := shift - 8;
        }
      }
    }
  }

  /** The words hold the bits of the first `i` bytes of the string, which are its high end. */
  ghost predicate ReadSoFar(d: seq<bv32>, s: seq<byte>, i: nat) {
    forall n: nat :: Has(d, n) <==> StrBit(s, n) && n / 8 >= |s| - i
  }

  lemma NoneYet(d: seq<bv32>, s: seq<byte>)
    requires Members(d) == {}
    ensures ReadSoFar(d, s, 0)
  {
    hide Has, StrBit;
    forall n: nat ensures !Has(d, n) {
      HasBound(d, n);
      assert n !in Members(d);
    }
    forall n: nat ensures StrBit(s, n) ==> n / 8 < |s| {
      StrBitBound(s, n);
    }
  }

  lemma ReadOne(d: seq<bv32>, s: seq<byte>, i: nat, e: seq<bv32>)
    requires i < |s| && ReadSoFar(d, s, i) && |s| - 1 - i < 4 * |d|
    requires var k := |s| - 1 - i; e == d[k / 4 := PutByte(d[k / 4], s[i], k % 4)]
    ensures ReadSoFar(e, s, i + 1)
  {
    hide Has, BitOfByte, PutByte;
    var k := |s| - 1 - i;
    forall n: nat ensures Has(e, n) <==> StrBit(s, n) && n / 8 >= |s| - (i + 1) {
      PutHas(d, k / 4, s[i], k % 4, n);
      assert Has(d, n) <==> StrBit(s, n) && n / 8 >= |s| - i;
    }
  }

  lemma AllRead(d: seq<bv32>, s: seq<byte>)
    requires ReadSoFar(d, s, |s|)
    ensures Members(d) == StrMembers(s)
  {
    hide Has, StrBit;
    forall n: nat ensures n in Members(d) <==> n in StrMembers(s) {
      HasBound(d, n);
      StrBitBound(s, n);
    }
  }

  // ----- Round trips -----

  /** Writing a bitmap to a string and reading it back restores the set exactly when it has at most 2^24 bits. */
  method ThereAndBack(b: Bitmap, p: array<byte>) returns (c: Bitmap, r: int, ghost bits: nat)
    requires b.Valid() && 4 * b.d.Length <= p.Length
    modifies b`top, p
    ensures b.Valid() && c.Valid() && IsSize(b.Elements(), bits)
    ensures b.Elements() == old(b.Elements())
    ensures r == 0 <==> bits <= 0x1000000
    ensures c.Elements() == if r == 0 then b.Elements() else {}
  {
    hide IsSize, Prints, Members, StrMembers;
    var n := b.Nbits();
    var rc;
    rc, bits := b.ToString(p, (n + 7) / 8);
    SizeIsUnique(b.Elements(), n, bits);
    ghost var m := b.Elements();
    PrintedParses(p[..(n + 7) / 8], m);
    c := new Bitmap();
    r := c.FromString(p[..(n + 7) / 8], true);
  }

  /** Bit 2^24 can be stored, but the string it needs is refused. */
  method TopBitRefused() returns (b: Bitmap, stored: int, back: int)
    ensures b.Valid() && stored == 0 && 0x1000000 in b.Elements() && back != 0
  {
    hide Members;
    b := new Bitmap();
    stored := b.SetBit(BITMAP_MAX, true);
    var p := new byte[4 * b.d.Length];
    var c;
    ghost var bits;
    c, back, bits := ThereAndBack(b, p);
    assert BITMAP_MAX < bits;
  }

  /** `bitmap_new`: `mem` says whether both allocations work. */
  method New(mem: bool) returns (b: Bitmap?)
    ensures b == null <==> !mem
    ensures b != null ==> fresh(b) && fresh(b.d) && b.Valid() && b.Elements() == {}
  {
    if !mem {
      return null;
    }
    b := new Bitmap();
  }

  lemma SizeIsUnique(m: set<nat>, j: nat, k: nat)
    requires IsSize(m, j) && IsSize(m, k)
    ensures j == k
  {
  }

  /** Reading a string and writing it again drops its leading zero bytes and nothing else. */
  method BackAndThere(s: seq<byte>) returns (t: seq<byte>, r: int)
    ensures r == 0 <==> |s| <= 0x200000
    ensures r == 0 ==> t == WithoutLeadingZeros(s)
  {
    hide Prints, IsSize, WithoutLeadingZeros, Members, StrMembers;
    var b := new Bitmap();
    r := b.FromString(s, true);
    if r != 0 {
      return [], r;
    }
    var need, bits := b.Nbytes();
    var p := new byte[need](_ => 0);
    ghost var again;
    r, again := b.ToString(p, need);
    SizeIsUnique(b.Elements(), bits, again);
    t := p[..];
    assert p[..need] == t;
    ParsedPrints(s, t);
  }

  lemma AddedMember(d: seq<bv32>, n: nat, e: seq<bv32>)
    requires n / 32 < |d| && e == d[n / 32 := SetBitOf(d[n / 32], n % 32)]
    ensures Members(e) == Members(d) + {n}
  {
    hide Has, SetBitOf;
    forall k: nat ensures k in Members(e) <==> k in Members(d) + {n} {
      SetHas(d, n / 32, n % 32, k);
      HasBound(e, k);
    }
  }

  lemma RemovedMember(d: seq<bv32>, n: nat, e: seq<bv32>)
    requires n / 32 < |d| && e == d[n / 32 := ClearBitOf(d[n / 32], n % 32)]
    ensures Members(e) == Members(d) - {n}
  {
    hide Has, ClearBitOf;
    forall k: nat ensures k in Members(e) <==> k in Members(d) - {n} {
      ClearHas(d, n / 32, n % 32, k);
      HasBound(e, k);
    }
  }

  predicate TopSet(w: bv32) {
    w & 0x80000000 != 0
  }

  function ShiftedOnce(w: bv32): bv32 {
    w << 1
  }

  /** `w` is `word` shifted left so that bit `k` became bit 31. */
  predicate Shifted(word: bv32, w: bv32, k: nat)
    requires k < 32
  {
    forall i: nat :: i <= k ==> (Bit(word, i) <==> Bit(w, i + 31 - k))
  }

  lemma ShiftStep(word: bv32, w: bv32, k: nat)
    requires 0 < k < 32 && Shifted(word, w, k)
    ensures Shifted(word, ShiftedOnce(w), k - 1)
  {
    hide Bit;
    forall i: nat | i <= k - 1 ensures Bit(word, i) <==> Bit(ShiftedOnce(w), i + 32 - k) {
      BitShift(w, i + 32 - k);
      assert Bit(word, i) <==> Bit(w, i + 31 - k);
    }
  }

  /** Finds the most significant set bit by shifting left until it reaches the top. */
  method TopBit(word: bv32) returns (k: nat)
    requires word != 0
    ensures k < 32 && Bit(word, k) && forall i :: k < i < 32 ==> !Bit(word, i)
  {
    hide Bit, TopSet, ShiftedOnce;
    ghost var b := WordHasBit(word);
    var w := word;
    k := 31;
    BitTop(w);
    while !TopSet(w)
      invariant b <= k < 32 && Bit(word, b)
      invariant Bit(w, 31) <==> TopSet(w)
      invariant Shifted(word, w, k)
      invariant forall i :: k < i < 32 ==> !Bit(word, i)
      decreases k
    {
      assert !Bit(word, k);
      ShiftStep(word, w, k);
      w := ShiftedOnce(w);
      k := k - 1;
      BitTop(w);
    }
  }

  lemma WordHasBit(w: bv32) returns (k: nat)
    requires w != 0
    ensures k < 32 && Bit(w, k)
  {
    hide Bit;
    assert exists i :: 0 <= i < 32 && Bit(w, i) by {
      if forall i :: 0 <= i < 32 ==> !Bit(w, i) {
        NoBits(w);
      }
    }
    k :| 0 <= k < 32 && Bit(w, k);
  }

  lemma SizeFromTop(d: seq<bv32>, top: nat, k: nat)
    requires top < |d| && k < 32 && Bit(d[top], k)
    requires forall i :: k < i < 32 ==> !Bit(d[top], i)
    requires forall i :: top < i < |d| ==> d[i] == 0
    ensures IsSize(Members(d), 32 * top + k + 1)
  {
    hide Bit;
    assert Has(d, 32 * top + k);
    forall n: nat | n in Members(d) ensures n < 32 * top + k + 1 {
      if n / 32 > top {
        ZeroWords(d, n);
      }
    }
  }
}
