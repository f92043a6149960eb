/** `chacha.c`: the ChaCha stream cipher, in place or between buffers. */
module ChaCha {
  import opened Basics
  import opened Buffers
  import opened Numbers

  type Words = w: seq<bv32> | |w| == 16 witness seq(16, _ => 0)

  // ----- The block function -----

  function Rotate(v: bv32, n: bv6): bv32
    requires 0 < n < 32
  {
    (v << n) | (v >> (32 - n))
  }

  function Sum(v: bv32, w: bv32): bv32 {
    v + w
  }

  function Mix(v: bv32, w: bv32): bv32 {
    v ^ w
  }

  /** `a = PLUS(a,b); d = ROTATE(XOR(d,a),n)`, on words `a`, `b` and `d`. */
  function HalfStep(x: Words, a: nat, b: nat, d: nat, n: bv6): Words
    requires a < 16 && b < 16 && d < 16 && 0 < n < 32
  {
    var sum := Sum(x[a], x[b]);
    x[a := sum][d := Rotate(Mix(x[d], sum), n)]
  }

  function QuarterRound(x: Words, a: nat, b: nat, c: nat, d: nat): Words
    requires a < 16 && b < 16 && c < 16 && d < 16
  {
    HalfStep(HalfStep(HalfStep(HalfStep(x, a, b, d, 16), c, d, b, 12), a, b, d, 8), c, d, b, 7)
  }

  function DoubleRound(x: Words): Words {
    var x := QuarterRound(x, 0, 4, 8, 12);
    var x := QuarterRound(x, 1, 5, 9, 13);
    var x := QuarterRound(x, 2, 6, 10, 14);
    var x := QuarterRound(x, 3, 7, 11, 15);
    var x := QuarterRound(x, 0, 5, 10, 15);
    var x := QuarterRound(x, 1, 6, 11, 12);
    var x := QuarterRound(x, 2, 7, 8, 13);
    QuarterRound(x, 3, 4, 9, 14)
  }

  function Rounds(x: Words, pairs: nat): Words {
    if pairs == 0 then x else DoubleRound(Rounds(x, pairs - 1))
  }

  // The rounds lose nothing: each step can be taken back.

  function Difference(v: bv32, w: bv32): bv32 {
    v - w
  }

  function RotateBack(v: bv32, n: bv6): bv32
    requires 0 < n < 32
  {
    (v >> n) | (v << (32 - n))
  }

  function UndoHalf(x: Words, a: nat, b: nat, d: nat, n: bv6): Words
    requires a < 16 && b < 16 && d < 16 && 0 < n < 32
  {
    x[d := Mix(RotateBack(x[d], n), x[a])][a := Difference(x[a], x[b])]
  }

  lemma StepsBack(v: bv32, w: bv32)
    ensures Difference(Sum(v, w), w) == v && Mix(Mix(v, w), w) == v
  {
  }

  lemma RotateUndone(v: bv32, n: bv6)
    requires n == 16 || n == 12 || n == 8 || n == 7
    ensures RotateBack(Rotate(v, n), n) == v
  {
  }

  lemma HalfUndone(x: Words, a: nat, b: nat, d: nat, n: bv6)
    requires a < 16 && b < 16 && d < 16 && a != b && a != d && b != d
    requires n == 16 || n == 12 || n == 8 || n == 7
    ensures UndoHalf(HalfStep(x, a, b, d, n), a, b, d, n) == x
  {
    hide Sum, Mix, Difference, Rotate, RotateBack;
    var sum := Sum(x[a], x[b]);
    StepsBack(x[a], x[b]);
    StepsBack(x[d], sum);
    RotateUndone(Mix(x[d], sum), n);
  }

  function UndoQuarter(x: Words, a: nat, b: nat, c: nat, d: nat): Words
    requires a < 16 && b < 16 && c < 16 && d < 16
  {
    UndoHalf(UndoHalf(UndoHalf(UndoHalf(x, c, d, b, 7), a, b, d, 8), c, d, b, 12), a, b, d, 16)
  }

  lemma QuarterUndone(x: Words, a: nat, b: nat, c: nat, d: nat)
    requires a < 16 && b < 16 && c < 16 && d < 16
    requires a != b && a != c && a != d && b != c && b != d && c != d
    ensures UndoQuarter(QuarterRound(x, a, b, c, d), a, b, c, d) == x
  {
    hide HalfStep, UndoHalf;
    var x1 := HalfStep(x, a, b, d, 16);
    var x2 := HalfStep(x1, c, d, b, 12);
    var x3 := HalfStep(x2, a, b, d, 8);
    HalfUndone(x, a, b, d, 16);
    HalfUndone(x1, c, d, b, 12);
    HalfUndone(x2, a, b, d, 8);
    HalfUndone(x3, c, d, b, 7);
  }

  /** Different inputs stay different through a double round. */
  lemma DoubleRoundInjective(x: Words, y: Words)
    requires DoubleRound(x) == DoubleRound(y)
    ensures x == y
  {
    hide QuarterRound;
    var x1, y1 := QuarterRound(x, 0, 4, 8, 12), QuarterRound(y, 0, 4, 8, 12);
    var x2, y2 := QuarterRound(x1, 1, 5, 9, 13), QuarterRound(y1, 1, 5, 9, 13);
    var x3, y3 := QuarterRound(x2, 2, 6, 10, 14), QuarterRound(y2, 2, 6, 10, 14);
    var x4, y4 := QuarterRound(x3, 3, 7, 11, 15), QuarterRound(y3, 3, 7, 11, 15);
    var x5, y5 := QuarterRound(x4, 0, 5, 10, 15), QuarterRound(y4, 0, 5, 10, 15);
    var x6, y6 := QuarterRound(x5, 1, 6, 11, 12), QuarterRound(y5, 1, 6, 11, 12);
    var x7, y7 := QuarterRound(x6, 2, 7, 8, 13), QuarterRound(y6, 2, 7, 8, 13);
    QuarterInjective(x7, y7, 3, 4, 9, 14);
    QuarterInjective(x6, y6, 2, 7, 8, 13);
    QuarterInjective(x5, y5, 1, 6, 11, 12);
    QuarterInjective(x4, y4, 0, 5, 10, 15);
    QuarterInjective(x3, y3, 3, 7, 11, 15);
    QuarterInjective(x2, y2, 2, 6, 10, 14);
    QuarterInjective(x1, y1, 1, 5, 9, 13);
    QuarterInjective(x, y, 0, 4, 8, 12);
  }

  lemma QuarterInjective(x: Words, y: Words, a: nat, b: nat, c: nat, d: nat)
    requires a < 16 && b < 16 && c < 16 && d < 16
    requires a != b && a != c && a != d && b != c && b != d && c != d
    ensures QuarterRound(x, a, b, c, d) == QuarterRound(y, a, b, c, d) ==> x == y
  {
    hide QuarterRound, UndoQuarter;
    QuarterUndone(x, a, b, c, d);
    QuarterUndone(y, a, b, c, d);
  }

  /** The rounds are a permutation of the inputs, however many there are. */
  lemma {:induction false} RoundsInjective(x: Words, y: Words, pairs: nat)
    requires Rounds(x, pairs) == Rounds(y, pairs)
    ensures x == y
  {
    hide DoubleRound;
    if pairs > 0 {
      DoubleRoundInjective(Rounds(x, pairs - 1), Rounds(y, pairs - 1));
      RoundsInjective(x, y, pairs - 1);
    }
  }

  lemma VectorSums()
    ensures Sum(0x11111111, 0x01020304) == 0x12131415 && Sum(0x9b8d6f43, 0x51721330) == 0xecff8273
    ensures Sum(0x12131415, 0xd8177edf) == 0xea2a92f4 && Sum(0xecff8273, 0x5881c4bb) == 0x4581472e
    ensures Rotate(Mix(0x01234567, 0x12131415), 16) == 0x51721330
    ensures Rotate(Mix(0x01020304, 0xecff8273), 12) == 0xd8177edf
    ensures Rotate(Mix(0x51721330, 0xea2a92f4), 8) == 0x5881c4bb
    ensures Rotate(Mix(0xd8177edf, 0x4581472e), 7) == 0xcb1cf8ce
  {
  }

  /** The known answer of section 2.1.1 of RFC 8439. */
  lemma QuarterRoundVector(x: Words)
    requires x[0] == 0x11111111 && x[4] == 0x01020304 && x[8] == 0x9b8d6f43 && x[12] == 0x01234567
    ensures QuarterRound(x, 0, 4, 8, 12) == x[0 := 0xea2a92f4][4 := 0xcb1cf8ce][8 := 0x4581472e][12 := 0x5881c4bb]
  {
    VectorSums();
    hide Sum, Mix, Rotate;
    var x1 := HalfStep(x, 0, 4, 12, 16);
    assert x1 == x[0 := 0x12131415][12 := 0x51721330];
    var x2 := HalfStep(x1, 8, 12, 4, 12);
    assert x2 == x1[8 := 0xecff8273][4 := 0xd8177edf];
    var x3 := HalfStep(x2, 0, 4, 12, 8);
    assert x3 == x2[0 := 0xea2a92f4][12 := 0x5881c4bb];
    assert HalfStep(x3, 8, 12, 4, 7) == x3[8 := 0x4581472e][4 := 0xcb1cf8ce];
  }

  const ROUNDS: nat := 20

  /** Twenty rounds, then the input added word by word. */
  function Core(j: Words): Words {
    Added(Rounds(j, ROUNDS / 2), j)
  }

  function Added(x: Words, j: Words): Words {
    seq(16, i requires 0 <= i < 16 => Sum(x[i], j[i]))
  }

  method RunCore(j: Words) returns (x: Words)
    ensures x == Core(j)
  {
    hide DoubleRound;
    x := j;
    var i := ROUNDS;
    while i > 0
      invariant 0 <= i <= ROUNDS && i % 2 == 0 && x == Rounds(j, (ROUNDS - i) / 2)
    {
      x := DoubleRound(x);
      i := i - 2;
    }
    x := Added(x, j);
  }

  // ----- Little-endian words -----

  function Load(a: byte, b: byte, c: byte, d: byte): bv32 {
    (a as bv32) | ((b as bv32) << 8) | ((c as bv32) << 16) | ((d as bv32) << 24)
  }

  function StoredByte(v: bv32, k: nat): byte
    requires k < 4
  {
    if k == 0 then (v & 0xff) as bv8 else if k == 1 then ((v >> 8) & 0xff) as bv8
    else if k == 2 then ((v >> 16) & 0xff) as bv8 else ((v >> 24) & 0xff) as bv8
  }

  function XorWord(x: bv32, y: bv32): bv32 {
    x ^ y
  }

  /** Xor of words is xor of their bytes. */
  lemma XorStored(x: bv32, a: byte, b: byte, c: byte, d: byte)
    ensures var v := XorWord(x, Load(a, b, c, d));
      && StoredByte(v, 0) == XorByte(a, StoredByte(x, 0)) && StoredByte(v, 1) == XorByte(b, StoredByte(x, 1))
      && StoredByte(v, 2) == XorByte(c, StoredByte(x, 2)) && StoredByte(v, 3) == XorByte(d, StoredByte(x, 3))
  {
  }

  /** The 64 bytes of key stream a block of input words gives. */
  function Block(j: Words): (s: seq<byte>)
    ensures |s| == 64
  {
    Stored(Core(j))
  }

  function Stored(x: Words): (s: seq<byte>)
    ensures |s| == 64
  {
    seq(64, i requires 0 <= i < 64 => StoredByte(x[i / 4], i % 4))
  }

  /** The words of the key stream xored with the words of a message block. */
  function XorIn(x: Words, m: seq<byte>): Words
    requires |m| == 64
  {
    seq(16, i requires 0 <= i < 16 => XorWord(x[i], LoadAt(m, 4 * i)))
  }

  lemma StoredXorAt(x: Words, m: seq<byte>, k: nat, j: nat)
    requires |m| == 64 && k < 16 && j < 4
    ensures StoredByte(XorIn(x, m)[k], j) == XorByte(m[4 * k + j], StoredByte(x[k], j))
  {
    hide XorWord, XorByte, StoredByte, Load;
    XorStored(x[k], m[4 * k], m[4 * k + 1], m[4 * k + 2], m[4 * k + 3]);
  }

  /** Working on words and storing them is working on bytes. */
  lemma StoredXor(x: Words, m: seq<byte>)
    requires |m| == 64
    ensures Stored(XorIn(x, m)) == Xored(m, Stored(x))
  {
    hide XorIn, XorByte, StoredByte;
    forall i | 0 <= i < 64 ensures Stored(XorIn(x, m))[i] == Xored(m, Stored(x))[i] {
      StoredXorAt(x, m, i / 4, i % 4);
    }
  }

  // ----- The counter -----

  /** The 64-bit block counter in words 12 and 13. */
  function Counter(w: Words): bv64 {
    Joined(w[12], w[13])
  }

  function WithCounter(w: Words, c: bv64): Words {
    w[12 := LowOf(c)][13 := HighOf(c)]
  }

  function Joined(low: bv32, high: bv32): bv64 {
    ((high as bv64) << 32) | (low as bv64)
  }

  function LowOf(c: bv64): bv32 {
    (c & 0xffff_ffff) as bv32
  }

  function HighOf(c: bv64): bv32 {
    (c >> 32) as bv32
  }

  /** The increment with carry at the end of a block. */
  function Bump(w: Words): Words {
    var low := PlusOne(w[12]);
    w[12 := low][13 := if low == 0 then PlusOne(w[13]) else w[13]]
  }

  function PlusOne(v: bv32): bv32 {
    v + 1
  }

  function Next(c: bv64): bv64 {
    c + 1
  }

  function Plus(c: bv64, k: nat): bv64 {
    if k == 0 then c else Next(Plus(c, k - 1))
  }

  function Bumped(w: Words, k: nat): Words {
    if k == 0 then w else Bump(Bumped(w, k - 1))
  }

  lemma CarryNone(low: bv32, high: bv32)
    requires PlusOne(low) != 0
    ensures Next(Joined(low, high)) == Joined(PlusOne(low), high)
  {
  }

  lemma CarryOne(low: bv32, high: bv32)
    requires PlusOne(low) == 0
    ensures Next(Joined(low, high)) == Joined(0, PlusOne(high))
  {
    assert low == 0xffff_ffff;
  }

  lemma SplitCounter(low: bv32, high: bv32)
    ensures LowOf(Joined(low, high)) == low && HighOf(Joined(low, high)) == high
  {
  }

  lemma JoinCounter(c: bv64)
    ensures Joined(LowOf(c), HighOf(c)) == c
  {
  }

  /** One bump adds one to the 64-bit counter, modulo 2^64, and touches no other word. */
  lemma BumpAddsOne(w: Words)
    ensures Bump(w) == WithCounter(w, Next(Counter(w)))
  {
    hide Joined, LowOf, HighOf, PlusOne, Next;
    var low, high := w[12], w[13];
    if PlusOne(low) == 0 {
      CarryOne(low, high);
      SplitCounter(0, PlusOne(high));
    } else {
      CarryNone(low, high);
      SplitCounter(PlusOne(low), high);
    }
  }

  lemma CounterBack(w: Words, c: bv64)
    ensures Counter(WithCounter(w, c)) == c
    ensures forall d :: WithCounter(WithCounter(w, c), d) == WithCounter(w, d)
    ensures WithCounter(w, Counter(w)) == w
  {
    hide Joined, LowOf, HighOf;
    JoinCounter(c);
    SplitCounter(w[12], w[13]);
  }

  /** The inputs of successive blocks differ only in consecutive counters. */
  lemma {:induction false} BumpedCounts(w: Words, k: nat)
    ensures Bumped(w, k) == WithCounter(w, Plus(Counter(w), k))
  {
    hide Counter, WithCounter, Bump, Next;
    CounterBack(w, Plus(Counter(w), k));
    if k > 0 {
      BumpedCounts(w, k - 1);
      CounterBack(w, Plus(Counter(w), k - 1));
      BumpAddsOne(Bumped(w, k - 1));
    }
  }

  // ----- Counters as numbers -----

  function LowByte(c: bv64): byte {
    (c & 0xff) as bv8
  }

  function Shifted(c: bv64): bv64 {
    c >> 8
  }

  function ByteValue(b: byte): nat {
    b as nat
  }

  /** The number in the low `n` bytes of a counter. */
  function Value(c: bv64, n: nat): nat {
    if n == 0 then 0 else ByteValue(LowByte(c)) + 256 * Value(Shifted(c), n - 1)
  }

  lemma NextParts(c: bv64)
    requires c != 0xffff_ffff_ffff_ffff
    ensures LowByte(Next(c)) == NextByte(LowByte(c))
    ensures Shifted(Next(c)) == if LowByte(Next(c)) == 0 then Next(Shifted(c)) else Shifted(c)
    ensures Shifted(c) != 0xffff_ffff_ffff_ffff
  {
  }

  lemma NextByteIs(b: byte)
    ensures ByteValue(b) < 256 && ByteValue(NextByte(b)) == if ByteValue(b) == 255 then 0 else ByteValue(b) + 1
    ensures NextByte(b) == 0 <==> ByteValue(b) == 255
  {
    NextByteValue(b);
  }

  lemma {:induction false} NextValue(c: bv64, n: nat)
    requires c != 0xffff_ffff_ffff_ffff
    ensures Value(c, n) < Pow256(n)
    ensures Value(Next(c), n) == if Value(c, n) + 1 == Pow256(n) then 0 else Value(c, n) + 1
    decreases n
  {
    hide LowByte, Shifted, Next, NextByte, ByteValue;
    if n > 0 {
      NextParts(c);
      NextByteIs(LowByte(c));
      NextValue(Shifted(c), n - 1);
      Carry(ByteValue(LowByte(c)), Value(Shifted(c), n - 1), Pow256(n - 1));
    }
  }

  lemma Carry(low: nat, high: nat, p: nat)
    requires low < 256 && high < p
    ensures low + 256 * high < 256 * p
    ensures low + 256 * high + 1 == 256 * p <==> low == 255 && high + 1 == p
  {
    var d := p - high - 1;
    assert 256 * p == 256 * high + 256 + 256 * d;
  }

  lemma MostValue()
    ensures Value(0xffff_ffff_ffff_ffff, 8) + 1 == Pow256(8)
  {
    assert ByteValue(LowByte(0xff)) == 255;
    assert Value(0xff, 1) == 0xff && Value(0xffff, 2) == 0xffff && Value(0xff_ffff, 3) == 0xff_ffff;
    assert Value(0xffff_ffff, 4) == 0xffff_ffff && Value(0xff_ffff_ffff, 5) == 0xff_ffff_ffff;
    assert Value(0xffff_ffff_ffff, 6) == 0xffff_ffff_ffff && Value(0xff_ffff_ffff_ffff, 7) == 0xff_ffff_ffff_ffff;
    assert Pow256(2) == 0x1_0000 && Pow256(4) == 0x1_0000_0000 && Pow256(6) == 0x1_0000_0000_0000;
  }

  lemma ZeroValue(n: nat)
    ensures Value(0, n) == 0
  {
  }

  /** Counting `n` blocks up from zero gives the counter whose number is `n`. */
  lemma {:induction false} CounterValue(n: nat)
    requires n < Pow256(8)
    ensures Value(Plus(0, n), 8) == n
  {
    hide Value, Next, Pow256;
    if n == 0 {
      ZeroValue(8);
    } else {
      CounterValue(n - 1);
      MostValue();
      NextValue(Plus(0, n - 1), 8);
    }
  }

  // ----- The stream -----

  /** The output of the cipher, block by block. */
  function Crypt(w: Words, m: seq<byte>): (c: seq<byte>)
    ensures |c| == |m|
    decreases |m|
  {
    if |m| <= 64 then Xored(m, Block(w)) else Xored(m[..64], Block(w)) + Crypt(Bump(w), m[64..])
  }

  /** The input words after `n` bytes: one bump for every block begun. */
  function After(w: Words, n: nat): Words {
    Bumped(w, (n + 63) / 64)
  }

  lemma {:induction false} BumpedFirst(w: Words, k: nat)
    ensures Bumped(Bump(w), k) == Bumped(w, k + 1)
  {
    hide Bump;
    if k > 0 {
      BumpedFirst(w, k - 1);
    }
  }

  /** Every output byte is the message byte xor the key stream at its place. */
  lemma {:induction false} CryptAt(w: Words, m: seq<byte>, i: nat)
    requires i < |m|
    ensures Crypt(w, m)[i] == XorByte(m[i], Block(Bumped(w, i / 64))[i % 64])
    decreases |m|
  {
    hide Bump, Block, XorByte;
    if |m| > 64 && i >= 64 {
      CryptAt(Bump(w), m[64..], i - 64);
      BumpedFirst(w, (i - 64) / 64);
      assert i / 64 == (i - 64) / 64 + 1 && i % 64 == (i - 64) % 64;
    } else {
      assert i / 64 == 0 || |m| <= 64;
    }
  }

  /** Message byte `i` is xored with byte `i % 64` of the block at counter `Counter(w) + i / 64`. */
  lemma CryptIsStream(w: Words, m: seq<byte>, i: nat)
    requires i < |m|
    ensures Crypt(w, m)[i] == XorByte(m[i], Block(WithCounter(w, Plus(Counter(w), i / 64)))[i % 64])
  {
    hide Block, XorByte, Counter, WithCounter, Crypt;
    CryptAt(w, m, i);
    BumpedCounts(w, i / 64);
  }

  /** Decryption is encryption. */
  lemma {:induction false} CryptTwice(w: Words, m: seq<byte>)
    ensures Crypt(w, Crypt(w, m)) == m
    decreases |m|
  {
    hide Bump, Block;
    if |m| <= 64 {
      XoredTwice(m, Block(w));
    } else {
      XoredTwice(m[..64], Block(w));
      CryptTwice(Bump(w), m[64..]);
      var c := Crypt(w, m);
      assert c[..64] == Xored(m[..64], Block(w)) && c[64..] == Crypt(Bump(w), m[64..]);
      assert m == m[..64] + m[64..];
    }
  }

  lemma AfterSum(w: Words, i: nat, j: nat)
    requires i % 64 == 0
    ensures After(After(w, i), j) == After(w, i + j)
  {
    BumpedSum(w, (i + 63) / 64, (j + 63) / 64);
    assert (i + j + 63) / 64 == (i + 63) / 64 + (j + 63) / 64;
  }

  /** Splitting a message at a multiple of 64 bytes changes neither the output nor the state left behind. */
  lemma {:induction false} CryptSplit(w: Words, a: seq<byte>, b: seq<byte>)
    requires |a| % 64 == 0
    ensures Crypt(w, a + b) == Crypt(w, a) + Crypt(After(w, |a|), b)
    ensures After(w, |a| + |b|) == After(After(w, |a|), |b|)
    decreases |a|
  {
    hide Crypt, After;
    AfterSum(w, |a|, |b|);
    if a == [] {
      assert a + b == b;
      EmptyCrypt(w);
    } else {
      var head, tail := a[..64], a[64..];
      assert a == head + tail && a + b == head + (tail + b);
      FirstBlock(w, head, tail);
      FirstBlock(w, head, tail + b);
      CryptSplit(After(w, 64), tail, b);
      AfterSum(w, 64, |tail|);
    }
  }

  lemma EmptyCrypt(w: Words)
    ensures Crypt(w, []) == [] && After(w, 0) == w
  {
  }

  lemma FirstBlock(w: Words, a: seq<byte>, b: seq<byte>)
    requires |a| == 64
    ensures Crypt(w, a + b) == Crypt(w, a) + Crypt(After(w, 64), b)
  {
    hide Bump, Block, Xored;
    assert Bumped(w, 1) == Bump(w) by { assert Bumped(w, 0) == w; }
    if b == [] {
      assert a + b == a;
      EmptyCrypt(After(w, 64));
    } else {
      assert (a + b)[..64] == a && (a + b)[64..] == b;
    }
  }

  lemma {:induction false} BumpedSum(w: Words, j: nat, k: nat)
    ensures Bumped(Bumped(w, j), k) == Bumped(w, j + k)
  {
    hide Bump;
    if k > 0 {
      BumpedSum(w, j, k - 1);
    }
  }

  // ----- The context -----

  class Context {
    var input: Words

    constructor (key: Words)
      ensures input == key
    {
      input := key;
    }

    /** `chacha_ivsetup`: an absent counter is zero. */
    method IvSetup(iv: seq<byte>, counter: seq<byte>)
      requires |iv| == 8 && (counter == [] || |counter| == 8)
      modifies this
      ensures input == WithIv(old(input), iv, counter)
    {
      input := input[12 := if counter == [] then 0 else LoadAt(counter, 0)];
      input := input[13 := if counter == [] then 0 else LoadAt(counter, 4)];
      input := input[14 := LoadAt(iv, 0)];
      input := input[15 := LoadAt(iv, 4)];
    }

    /** `chacha_encrypt_bytes`, from `m` at `mo` to `c` at `co`: the same place or different buffers. */
    method EncryptBytes(m: array<byte>, mo: nat, c: array<byte>, co: nat, bytes: nat)
      requires mo + bytes <= m.Length && co + bytes <= c.Length && (m == c ==> mo == co)
      modifies this, c
      ensures c[..] == Spliced(old(c[..]), co, Crypt(old(input), old(m[mo..mo + bytes])))
      ensures input == After(old(input), bytes)
    {
      hide Crypt, After, Bump, Block, Xored, Spliced;
      ghost var w, msg, was := input, m[mo..mo + bytes], c[..];
      EmptyCrypt(w);
      SpliceNothing(was, co);
      if bytes == 0 {
        return;
      }
      var j := input;
      var o, left := 0, bytes;
      while true
        invariant o + left == bytes && left > 0 && o % 64 == 0
        invariant input == w && j == After(w, o)
        invariant m[mo + o..mo + bytes] == msg[o..]
        invariant c[..] == Spliced(was, co, Crypt(w, msg[..o]))
        decreases left
      {
        var n := if left < 64 then left else 64;
        Tail(m[..], mo, msg, o, n);
        Step(j, m, mo + o, c, co + o, n, left);
        Advance(w, msg, o, n);
        SpliceOn(was, co, Crypt(w, msg[..o]), Xored(msg[o..o + n], Block(j)));
        assert c[..] == Spliced(was, co, Crypt(w, msg[..o + n]));
        j := Bump(j);
        if left <= 64 {
          assert msg[..o + n] == msg;
          input := input[12 := j[12]][13 := j[13]];
          OnlyCounter(w, bytes);
          return;
        }
        left := left - 64;
        o := o + 64;
      }
    }
  }

  lemma Tail(m: seq<byte>, mo: nat, msg: seq<byte>, o: nat, n: nat)
    requires o + n <= |msg| && mo + |msg| <= |m| && m[mo + o..mo + |msg|] == msg[o..]
    ensures m[mo + o..mo + o + n] == msg[o..o + n] && m[mo + o + n..mo + |msg|] == msg[o + n..]
  {
    var s := m[mo + o..mo + |msg|];
    assert s[..n] == m[mo + o..mo + o + n] && s[n..] == m[mo + o + n..mo + |msg|];
  }

  /** One turn of the block loop, which goes through a scratch buffer when less than a block is left. */
  method Step(j: Words, m: array<byte>, mo: nat, c: array<byte>, co: nat, n: nat, ghost left: nat)
    requires n <= 64 && n <= left && mo + left <= m.Length && co + n <= c.Length && (m == c ==> mo == co)
    modifies c
    ensures c[..] == Spliced(old(c[..]), co, Xored(old(m[mo..mo + n]), Block(j)))
    ensures m[mo + n..mo + left] == old(m[mo + n..mo + left])
  {
    hide Block, XorByte, Xored, Spliced;
    ghost var was, msg := c[..], m[mo..mo + n];
    if m == c {
      SplicedElsewhere(was, co, Xored(msg, Block(j)), co + n, co + left);
    }
    if n < 64 {
      var tmp := new byte[64];
      for i := 0 to n
        invariant tmp[..i] == msg[..i] && m[mo..mo + n] == msg && c[..] == was
      {
        tmp[i] := m[mo + i];
      }
      ghost var padded := tmp[..];
      XorBlock(j, tmp, 0, tmp, 0);
      PaddedXor(padded, msg, Block(j));
      CopyBack(tmp, c, co, n);
    } else {
      XorBlock(j, m, mo, c, co);
    }
    assert m == c ==> m[mo + n..mo + left] == c[..][co + n..co + left] && was[co + n..co + left] == old(m[mo + n..mo + left]);
  }

  method CopyBack(tmp: array<byte>, c: array<byte>, co: nat, n: nat)
    requires n <= tmp.Length && co + n <= c.Length && tmp != c
    modifies c
    ensures c[..] == Spliced(old(c[..]), co, tmp[..n])
  {
    for i := 0 to n
      invariant forall k :: 0 <= k < i ==> c[co + k] == tmp[k]
      invariant forall k :: 0 <= k < c.Length && !(co <= k < co + i) ==> c[k] == old(c[k])
    {
      c[co + i] := tmp[i];
    }
    SplicedIs(old(c[..]), co, tmp[..n], c[..]);
  }

  lemma PaddedXor(padded: seq<byte>, m: seq<byte>, k: seq<byte>)
    requires |padded| == |k| == 64 && |m| < 64 && padded[..|m|] == m
    ensures Spliced(padded, 0, Xored(padded[0..64], k))[..|m|] == Xored(m, k)
  {
    hide XorByte;
    forall i | 0 <= i < |m| ensures padded[i] == m[i] {
      assert padded[..|m|][i] == m[i];
    }
  }

  /** The key stream of one block xored onto 64 bytes: all words are read before any is written. */
  method XorBlock(j: Words, m: array<byte>, mo: nat, c: array<byte>, co: nat)
    requires mo + 64 <= m.Length && co + 64 <= c.Length && (m == c ==> mo == co)
    modifies c
    ensures c[..] == Spliced(old(c[..]), co, Xored(old(m[mo..mo + 64]), Block(j)))
  {
    hide Core, XorIn, Stored, Xored;
    var x := RunCore(j);
    var v := XorIn(x, m[mo..mo + 64]);
    StoredXor(x, m[mo..mo + 64]);
    Store(v, c, co);
  }

  method Store(x: Words, c: array<byte>, co: nat)
    requires co + 64 <= c.Length
    modifies c
    ensures c[..] == Spliced(old(c[..]), co, Stored(x))
  {
    hide StoredByte;
    for i := 0 to 16
      invariant forall k :: 0 <= k < 4 * i ==> c[co + k] == StoredByte(x[k / 4], k % 4)
      invariant forall k :: 0 <= k < c.Length && !(co <= k < co + 4 * i) ==> c[k] == old(c[k])
    {
      c[co + 4 * i] := StoredByte(x[i], 0);
      c[co + 4 * i + 1] := StoredByte(x[i], 1);
      c[co + 4 * i + 2] := StoredByte(x[i], 2);
      c[co + 4 * i + 3] := StoredByte(x[i], 3);
    }
  }

  function LoadAt(s: seq<byte>, i: nat): bv32
    requires i + 4 <= |s|
  {
    Load(s[i], s[i + 1], s[i + 2], s[i + 3])
  }

  /** The key words with a nonce and a block counter put beside them. */
  function WithIv(w: Words, iv: seq<byte>, counter: seq<byte>): Words
    requires |iv| == 8 && (counter == [] || |counter| == 8)
  {
    w[..12] + [if counter == [] then 0 else LoadAt(counter, 0), if counter == [] then 0 else LoadAt(counter, 4),
               LoadAt(iv, 0), LoadAt(iv, 4)]
  }

  lemma LoadedBytes(a: byte, b: byte, c: byte, d: byte)
    ensures var v := Load(a, b, c, d);
      StoredByte(v, 0) == a && StoredByte(v, 1) == b && StoredByte(v, 2) == c && StoredByte(v, 3) == d
  {
  }

  lemma LoadedAt(s: seq<byte>, i: nat, k: nat)
    requires i + 4 <= |s| && k < 4
    ensures StoredByte(LoadAt(s, i), k) == s[i + k]
  {
    hide StoredByte, Load;
    LoadedBytes(s[i], s[i + 1], s[i + 2], s[i + 3]);
  }

  /** The key words stay, and nonce and counter lie behind them byte by byte; without a counter it is zero. */
  lemma IvLaidOut(w: Words, iv: seq<byte>, counter: seq<byte>, i: nat)
    requires |iv| == 8 && (counter == [] || |counter| == 8) && i < 8
    ensures var v := WithIv(w, iv, counter);
      && v[..12] == w[..12] && StoredByte(v[14 + i / 4], i % 4) == iv[i]
      && StoredByte(v[12 + i / 4], i % 4) == if counter == [] then 0 else counter[i]
  {
    hide Load, LoadAt, StoredByte;
    var n, k := i / 4, i % 4;
    LoadedAt(iv, 4 * n, k);
    if counter == [] {
      ZeroStored(k);
    } else {
      LoadedAt(counter, 4 * n, k);
    }
  }

  lemma ZeroStored(k: nat)
    requires k < 4
    ensures StoredByte(0, k) == 0
  {
  }

  lemma Advance(w: Words, msg: seq<byte>, o: nat, n: nat)
    requires o % 64 == 0 && o + n <= |msg| && 0 < n <= 64
    ensures Crypt(w, msg[..o + n]) == Crypt(w, msg[..o]) + Xored(msg[o..o + n], Block(After(w, o)))
    ensures After(w, o + n) == Bump(After(w, o))
  {
    hide Bump, Block, Xored;
    var a, b := msg[..o], msg[o..o + n];
    assert msg[..o + n] == a + b;
    CryptSplit(w, a, b);
    assert Crypt(After(w, o), b) == Xored(b, Block(After(w, o)));
    OneBlock(After(w, o), n);
  }

  lemma OneBlock(w: Words, n: nat)
    requires 0 < n <= 64
    ensures After(w, n) == Bump(w)
  {
    assert Bumped(w, 0) == w;
  }

  /** The blocks change no word but the counter. */
  lemma OnlyCounter(w: Words, n: nat)
    ensures var j := After(w, n); w[12 := j[12]][13 := j[13]] == j
  {
    BumpedCounts(w, (n + 63) / 64);
  }
}
