/** `cipher-aes.c`: cipher block chaining in place, forwards to encrypt and backwards to decrypt. */
module Cbc {
  import opened Basics
  import opened Buffers

  /** Section 6.2 of NIST SP 800-38A: each block is xored with the ciphertext before it, then encrypted. */
  function Enc(e: Block16 -> Block16, iv: Block16, p: seq<byte>): (c: seq<byte>)
    requires |p| % 16 == 0
    ensures |c| == |p|
    decreases |p|
  {
    if p == [] then [] else
      var c := e(Xored(p[..16], iv));
      c + Enc(e, c, p[16..])
  }

  function Dec(d: Block16 -> Block16, iv: Block16, c: seq<byte>): (p: seq<byte>)
    requires |c| % 16 == 0
    ensures |p| == |c|
    decreases |c|
  {
    if c == [] then [] else Xored(d(c[..16]), iv) + Dec(d, c[..16], c[16..])
  }

  /** The vector saved for the next call: the last ciphertext block. */
  function NextIv(iv: Block16, c: seq<byte>): Block16
    requires |c| % 16 == 0
  {
    if c == [] then iv else c[|c| - 16..]
  }

  ghost predicate Undoes(d: Block16 -> Block16, e: Block16 -> Block16) {
    forall b :: d(e(b)) == b
  }

  /** Decryption undoes encryption under the same vector. */
  lemma {:induction false} DecEnc(e: Block16 -> Block16, d: Block16 -> Block16, iv: Block16, p: seq<byte>)
    requires |p| % 16 == 0 && Undoes(d, e)
    ensures Dec(d, iv, Enc(e, iv, p)) == p
    decreases |p|
  {
    hide Xored;
    if p != [] {
      var c := Enc(e, iv, p);
      var b := e(Xored(p[..16], iv));
      assert c[..16] == b && c[16..] == Enc(e, b, p[16..]);
      DecEnc(e, d, b, p[16..]);
      XoredTwice(p[..16], iv);
      assert p == p[..16] + p[16..];
    }
  }

  ghost predicate ComesBack(e: Block16 -> Block16, d: Block16 -> Block16) {
    forall iv: Block16, p: seq<byte> :: |p| % 16 == 0 ==> Dec(d, iv, Enc(e, iv, p)) == p
  }

  /** It does so for every vector and text exactly when one block function undoes the other. */
  lemma UndoneExactly(e: Block16 -> Block16, d: Block16 -> Block16)
    ensures ComesBack(e, d) <==> Undoes(d, e)
  {
    hide Enc, Dec;
    if Undoes(d, e) {
      forall iv: Block16, p: seq<byte> | |p| % 16 == 0 ensures Dec(d, iv, Enc(e, iv, p)) == p {
        DecEnc(e, d, iv, p);
      }
    }
    if ComesBack(e, d) {
      forall b: Block16 ensures d(e(b)) == b {
        OneBlock(e, d, b);
        assert Dec(d, Zero(), Enc(e, Zero(), b)) == b;
      }
    }
  }

  function Zero(): Block16 {
    [0, 0, 0, 0, 0, 0, 0, 0, 0, 0, 0, 0, 0, 0, 0, 0]
  }

  lemma OneBlock(e: Block16 -> Block16, d: Block16 -> Block16, b: Block16)
    ensures Dec(d, Zero(), Enc(e, Zero(), b)) == d(e(b))
  {
    XorZero(b);
    assert b[..16] == b && b[16..] == [];
    assert Enc(e, e(b), []) == [];
    assert Enc(e, Zero(), b) == e(b) + [];
    var c := e(b);
    assert c + [] == c && c[..16] == c && c[16..] == [];
    assert Dec(d, c, []) == [];
    XorZero(d(c));
    assert Dec(d, Zero(), c) == d(c) + [];
  }

  lemma XorZero(b: Block16)
    ensures Xored(b, Zero()) == b
  {
    forall i | 0 <= i < 16 ensures XorByte(b[i], Zero()[i]) == b[i] {
      XorByteZero(b[i]);
    }
  }

  lemma XorByteZero(x: byte)
    ensures XorByte(x, 0) == x
  {
  }

  lemma EncStep(e: Block16 -> Block16, iv: Block16, x: Block16, rest: seq<byte>)
    requires |rest| % 16 == 0
    ensures var c := e(Xored(x, iv)); Enc(e, iv, x + rest) == c + Enc(e, c, rest)
  {
    hide Xored;
    var s := x + rest;
    assert s[..16] == x && s[16..] == rest;
  }

  /** Two calls chained by the saved vector are one call. */
  lemma {:induction false} EncSplit(e: Block16 -> Block16, iv: Block16, a: seq<byte>, b: seq<byte>)
    requires |a| % 16 == 0 && |b| % 16 == 0
    ensures Enc(e, iv, a + b) == Enc(e, iv, a) + Enc(e, NextIv(iv, Enc(e, iv, a)), b)
    ensures NextIv(iv, Enc(e, iv, a + b)) == NextIv(NextIv(iv, Enc(e, iv, a)), Enc(e, NextIv(iv, Enc(e, iv, a)), b))
    decreases |a|
  {
    hide Enc, Xored, NextIv;
    if a == [] {
      assert a + b == b;
      EncNone(e, iv);
      SameIv(iv);
    } else {
      var x, y := a[..16], a[16..];
      assert a == x + y && a + b == x + (y + b);
      EncStep(e, iv, x, y);
      EncStep(e, iv, x, y + b);
      var c := e(Xored(x, iv));
      EncSplit(e, c, y, b);
      NextIvAfter(iv, c, Enc(e, c, y));
      NextIvAfter(iv, c, Enc(e, c, y + b));
    }
  }

  lemma SameIv(iv: Block16)
    ensures NextIv(iv, []) == iv
  {
  }

  lemma NextIvAfter(iv: Block16, c: Block16, rest: seq<byte>)
    requires |rest| % 16 == 0
    ensures NextIv(iv, c + rest) == NextIv(c, rest)
  {
    if rest == [] {
      assert c + rest == c;
    } else {
      assert (c + rest)[16 + |rest| - 16..] == rest[|rest| - 16..];
    }
  }

  lemma DecStep(d: Block16 -> Block16, iv: Block16, x: Block16, rest: seq<byte>)
    requires |rest| % 16 == 0
    ensures Dec(d, iv, x + rest) == Xored(d(x), iv) + Dec(d, x, rest)
  {
    hide Xored;
    var s := x + rest;
    assert s[..16] == x && s[16..] == rest;
  }

  lemma {:induction false} DecSplit(d: Block16 -> Block16, iv: Block16, a: seq<byte>, b: seq<byte>)
    requires |a| % 16 == 0 && |b| % 16 == 0
    ensures Dec(d, iv, a + b) == Dec(d, iv, a) + Dec(d, NextIv(iv, a), b)
    ensures NextIv(iv, a + b) == NextIv(NextIv(iv, a), b)
    decreases |a|
  {
    hide Dec, Xored, NextIv;
    if a == [] {
      assert a + b == b;
      DecNone(d, iv);
      SameIv(iv);
    } else {
      var x, y := a[..16], a[16..];
      assert a == x + y && a + b == x + (y + b);
      DecStep(d, iv, x, y);
      DecStep(d, iv, x, y + b);
      DecSplit(d, x, y, b);
      NextIvAfter(iv, x, y);
      NextIvAfter(iv, x, y + b);
    }
  }

  datatype Result = Done | Fatal

  class Cipher {
    const e: Block16 -> Block16
    const d: Block16 -> Block16
    const encrypt: bool
    var iv: Block16

    constructor (e: Block16 -> Block16, d: Block16 -> Block16, encrypt: bool, iv: Block16)
      ensures this.e == e && this.d == d && this.encrypt == encrypt && this.iv == iv
    {
      this.e, this.d, this.encrypt, this.iv := e, d, encrypt, iv;
    }

    /** `ssh_rijndael_cbc`: `src` and `dest` are the same buffer or different ones. */
    method Cbc(dest: array<byte>, src: array<byte>, len: nat) returns (r: Result)
      requires len <= src.Length && len <= dest.Length
      modifies this, dest
      ensures r == Fatal <==> len % 16 != 0
      ensures r == Fatal ==> dest[..] == old(dest[..]) && iv == old(iv)
      ensures r == Done && encrypt ==>
        var c := Enc(e, old(iv), old(src[..len])); dest[..] == Spliced(old(dest[..]), 0, c) && iv == NextIv(old(iv), c)
      ensures r == Done && !encrypt ==>
        dest[..] == Spliced(old(dest[..]), 0, Dec(d, old(iv), old(src[..len]))) && iv == NextIv(old(iv), old(src[..len]))
    {
      hide Spliced;
      SpliceNothing(dest[..], 0);
      if len == 0 {
        return Done;
      }
      if len % 16 != 0 {
        return Fatal;
      }
      if encrypt {
        Forward(dest, src, len);
      } else {
        Backward(dest, src, len);
      }
      r := Done;
    }

    method Forward(dest: array<byte>, src: array<byte>, len: nat)
      requires 0 < len <= src.Length && len <= dest.Length && len % 16 == 0
      modifies this, dest
      ensures var c := Enc(e, old(iv), old(src[..len]));
        dest[..] == Spliced(old(dest[..]), 0, c) && iv == NextIv(old(iv), c)
    {
      hide Enc, Spliced, Xored;
      ghost var was, p, iv0 := dest[..], src[..len], iv;
      var cprev := iv;
      var o := 0;
      EncNone(e, iv);
      SpliceNothing(was, 0);
      for i := 0 to len / 16
        invariant o == 16 * i && iv == iv0
        invariant dest[..] == Spliced(was, 0, Enc(e, iv0, p[..o]))
        invariant src[o..len] == p[o..]
        invariant cprev == NextIv(iv0, Enc(e, iv0, p[..o]))
      {
        Window(src[..], p, o);
        var buf := XorBlocks(src[o..o + 16], cprev);
        ghost var before := dest[..];
        var cnow := e(buf);
        Write(dest, o, cnow);
        if src == dest {
          SplicedElsewhere(before, o, cnow, o + 16, len);
          assert src[o + 16..len] == dest[..][o + 16..len] && before[o + 16..len] == p[o + 16..];
        }
        EncOne(e, iv0, p, o, cnow);
        SpliceOn(was, 0, Enc(e, iv0, p[..o]), cnow);
        cprev := cnow;
        o := o + 16;
      }
      assert p[..len] == p;
      iv := cprev;
    }

    method Backward(dest: array<byte>, src: array<byte>, len: nat)
      requires 0 < len <= src.Length && len <= dest.Length && len % 16 == 0
      modifies this, dest
      ensures dest[..] == Spliced(old(dest[..]), 0, Dec(d, old(iv), old(src[..len])))
      ensures iv == NextIv(old(iv), old(src[..len]))
    {
      hide Dec, Xored, NextIv, Spliced;
      ghost var was, c, iv0 := dest[..], src[..len], iv;
      var saved := src[len - 16..len];
      LastIv(iv0, c);
      var o := len;
      DecNone(d, NextIv(iv0, c[..len]));
      assert c[len..] == [];
      SpliceNothing(was, len);
      while o > 0
        invariant 0 <= o <= len && o % 16 == 0 && iv == iv0
        invariant CameTo(dest, src, o, was, c)
      {
        TurnBack(dest, src, o, was, c);
        o := o - 16;
      }
      WholeText(iv0, c);
      iv := saved;
    }

    /** The backward loop has come to `o`: what lies before is still ciphertext, what follows is plain. */
    ghost predicate CameTo(dest: array<byte>, src: array<byte>, o: nat, was: seq<byte>, c: seq<byte>)
      reads this`iv, dest, src
    {
      && o <= |c| <= |was| && |c| <= src.Length && |c| % 16 == 0 && o % 16 == 0 && src[..o] == c[..o]
      && dest[..] == Spliced(was, o, Dec(d, NextIv(iv, c[..o]), c[o..]))
    }

    method TurnBack(dest: array<byte>, src: array<byte>, o: nat, ghost was: seq<byte>, ghost c: seq<byte>)
      requires o >= 16 && CameTo(dest, src, o, was, c) && (src == dest ==> c == was[..|c|])
      modifies dest
      ensures CameTo(dest, src, o - 16, was, c)
    {
      hide Dec, Xored, NextIv, Spliced;
      var cnow := src[o - 16..o];
      var ivp := if o == 16 then iv else src[o - 32..o - 16];
      Before(src[..], c, iv, o);
      ghost var before := dest[..];
      DecryptBlock(dest, o - 16, cnow, ivp);
      OneBack(d, iv, was, c, o, before);
      if src == dest {
        assert src[..o - 16] == dest[..][0..o - 16];
      }
    }

    /** One turn of the backward loop: decrypt the block in place, then xor the ciphertext before it. */
    method DecryptBlock(dest: array<byte>, at: nat, cnow: Block16, ivp: Block16)
      requires at + 16 <= dest.Length
      modifies dest
      ensures dest[..] == Spliced(old(dest[..]), at, Xored(d(cnow), ivp))
    {
      hide Xored, Spliced;
      ghost var was := dest[..];
      var plain := d(cnow);
      Write(dest, at, plain);
      SplicedHere(was, at, plain);
      assert dest[at..at + 16] == dest[..][at..at + 16];
      XorOnto(dest, at, plain, ivp);
      SpliceOver(was, at, plain, Xored(plain, ivp));
    }
  }

  /** One end encrypts a buffer in place and the other decrypts it in place, as often as they like. */
  method SendAndReceive(s: Cipher, r: Cipher, buf: array<byte>, len: nat) returns (code: Result)
    requires s != r && s.encrypt && !r.encrypt && s.iv == r.iv && Undoes(r.d, s.e) && len <= buf.Length
    modifies s, r, buf
    ensures buf[..] == old(buf[..]) && s.iv == r.iv
    ensures code == Done <==> len % 16 == 0
  {
    hide Enc, Dec, NextIv, Spliced;
    ghost var was, iv, p := buf[..], s.iv, buf[..len];
    code := s.Cbc(buf, buf, len);
    if code == Fatal {
      return;
    }
    ghost var c := Enc(s.e, iv, p);
    SplicedHere(was, 0, c);
    assert buf[..len] == buf[..][0..|c|];
    DecEnc(s.e, r.d, iv, p);
    code := r.Cbc(buf, buf, len);
    Overwritten(was, c, p);
  }

  lemma SpliceOver(s: seq<byte>, i: nat, x: seq<byte>, y: seq<byte>)
    requires |x| == |y| && i + |x| <= |s|
    ensures Spliced(Spliced(s, i, x), i, y) == Spliced(s, i, y)
  {
  }

  lemma Overwritten(s: seq<byte>, x: seq<byte>, y: seq<byte>)
    requires |x| == |y| <= |s| && y == s[..|y|]
    ensures Spliced(Spliced(s, 0, x), 0, y) == s
  {
  }

  /** The loop that fills `buf` with plaintext xor the previous ciphertext. */
  method XorBlocks(x: Block16, y: Block16) returns (buf: Block16)
    ensures buf == Xored(x, y)
  {
    hide XorByte;
    buf := x;
    for j := 0 to 16
      invariant |buf| == 16
      invariant forall k :: 0 <= k < j ==> buf[k] == XorByte(x[k], y[k])
    {
      buf := buf[j := XorByte(x[j], y[j])];
    }
  }

  /** The loop that xors the previous ciphertext onto the decrypted block in place. */
  method XorOnto(dest: array<byte>, at: nat, ghost x: Block16, y: Block16)
    requires at + 16 <= dest.Length && dest[at..at + 16] == x
    modifies dest
    ensures dest[..] == Spliced(old(dest[..]), at, Xored(x, y))
  {
    hide XorByte;
    for j := 0 to 16
      invariant forall k :: 0 <= k < j ==> dest[at + k] == XorByte(x[k], y[k])
      invariant forall k :: j <= k < 16 ==> dest[at + k] == x[k]
      invariant dest[..at] == old(dest[..at]) && dest[at + 16..] == old(dest[at + 16..])
    {
      dest[at + j] := XorByte(dest[at + j], y[j]);
    }
  }

  lemma EncNone(e: Block16 -> Block16, iv: Block16)
    ensures Enc(e, iv, []) == []
  {
  }

  lemma DecNone(d: Block16 -> Block16, iv: Block16)
    ensures Dec(d, iv, []) == []
  {
  }

  lemma Window(src: seq<byte>, p: seq<byte>, o: nat)
    requires o + 16 <= |p| <= |src| && src[o..|p|] == p[o..]
    ensures src[o..o + 16] == p[o..o + 16] && src[o + 16..|p|] == p[o + 16..]
  {
    var s := src[o..|p|];
    assert s[..16] == src[o..o + 16] && s[16..] == src[o + 16..|p|];
  }

  lemma EncOne(e: Block16 -> Block16, iv: Block16, p: seq<byte>, o: nat, b: Block16)
    requires o % 16 == 0 && o + 16 <= |p| && b == e(Xored(p[o..o + 16], NextIv(iv, Enc(e, iv, p[..o]))))
    ensures Enc(e, iv, p[..o + 16]) == Enc(e, iv, p[..o]) + b
    ensures NextIv(iv, Enc(e, iv, p[..o + 16])) == b
  {
    hide Xored;
    var x := p[o..o + 16];
    assert p[..o + 16] == p[..o] + x;
    EncSplit(e, iv, p[..o], x);
    assert x[..16] == x && x[16..] == [];
    assert Enc(e, b, []) == [];
  }

  lemma LastIv(iv: Block16, c: seq<byte>)
    requires |c| % 16 == 0 && c != []
    ensures NextIv(iv, c) == c[|c| - 16..|c|] && c[..|c|] == c
  {
  }

  /** While the blocks below `o` are still ciphertext, the block at `o - 16` and the vector before it are at hand. */
  lemma Before(src: seq<byte>, c: seq<byte>, iv: Block16, o: nat)
    requires |c| % 16 == 0 && 16 <= o <= |c| <= |src| && o % 16 == 0 && src[..o] == c[..o]
    ensures src[o - 16..o] == c[o - 16..o] && src[..o - 16] == c[..o - 16]
    ensures NextIv(iv, c[..o - 16]) == if o == 16 then iv else src[o - 32..o - 16]
  {
    assert src[..o][o - 16..] == src[o - 16..o] && c[..o][o - 16..] == c[o - 16..o];
    assert src[..o][..o - 16] == src[..o - 16] && c[..o][..o - 16] == c[..o - 16];
    if o > 16 {
      assert c[..o - 16][o - 32..] == c[..o][o - 32..o - 16] && src[..o][o - 32..o - 16] == src[o - 32..o - 16];
    }
  }

  /** Decrypting the block before `o` takes what is done back by one block and leaves the rest alone. */
  lemma OneBack(d: Block16 -> Block16, iv: Block16, was: seq<byte>, c: seq<byte>, o: nat, before: seq<byte>)
    requires |c| % 16 == 0 && 16 <= o <= |c| <= |was| && o % 16 == 0
    requires before == Spliced(was, o, Dec(d, NextIv(iv, c[..o]), c[o..]))
    ensures var after := Spliced(before, o - 16, Xored(d(c[o - 16..o]), NextIv(iv, c[..o - 16])));
      && after == Spliced(was, o - 16, Dec(d, NextIv(iv, c[..o - 16]), c[o - 16..]))
      && (c == was[..|c|] ==> after[0..o - 16] == c[..o - 16])
  {
    hide Dec, Xored, NextIv, Spliced;
    var block, done := Xored(d(c[o - 16..o]), NextIv(iv, c[..o - 16])), Dec(d, NextIv(iv, c[..o]), c[o..]);
    SpliceBefore(was, o - 16, block, done);
    DecOne(d, iv, c, o);
    SplicedElsewhere(was, o - 16, block + done, 0, o - 16);
    assert was[0..o - 16] == was[..|c|][..o - 16];
  }

  lemma DecOne(d: Block16 -> Block16, iv: Block16, c: seq<byte>, o: nat)
    requires |c| % 16 == 0 && 16 <= o <= |c| && o % 16 == 0
    ensures Dec(d, NextIv(iv, c[..o - 16]), c[o - 16..]) ==
      Xored(d(c[o - 16..o]), NextIv(iv, c[..o - 16])) + Dec(d, NextIv(iv, c[..o]), c[o..])
  {
    hide Xored;
    var s := c[o - 16..];
    assert s[..16] == c[o - 16..o] && s[16..] == c[o..];
    assert NextIv(iv, c[..o]) == c[o - 16..o];
  }

  lemma SpliceBefore(s: seq<byte>, i: nat, x: seq<byte>, y: seq<byte>)
    requires i + |x| + |y| <= |s|
    ensures Spliced(Spliced(s, i + |x|, y), i, x) == Spliced(s, i, x + y)
  {
  }

  lemma WholeText(iv: Block16, c: seq<byte>)
    ensures NextIv(iv, c[..0]) == iv && c[0..] == c
  {
  }
}
