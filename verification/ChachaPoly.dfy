/** `cipher-chachapoly.c`: authenticated encryption of packets with ChaCha and a one-time authenticator. */
module ChachaPoly {
  import opened Basics
  import opened Buffers
  import opened ChaCha
  import opened Numbers

  const POLY1305_TAGLEN: nat := 16

  type Tag = s: seq<byte> | |s| == POLY1305_TAGLEN witness [0, 0, 0, 0, 0, 0, 0, 0, 0, 0, 0, 0, 0, 0, 0, 0]

  /** The authenticator, of which only the length of its tag matters here. */
  type Mac = (seq<byte>, seq<byte>) -> Tag

  const ZERO_KEY: seq<byte> := [0, 0, 0, 0, 0, 0, 0, 0, 0, 0, 0, 0, 0, 0, 0, 0, 0, 0, 0, 0, 0, 0, 0, 0, 0, 0, 0, 0, 0, 0, 0, 0]
  const ONE: seq<byte> := [1, 0, 0, 0, 0, 0, 0, 0]

  /** The sequence number as eight big-endian bytes. */
  function SeqBuf(seqnr: bv32): (s: seq<byte>)
    ensures |s| == 8
  {
    [0, 0, 0, 0] + [StoredByte(seqnr, 3), StoredByte(seqnr, 2), StoredByte(seqnr, 1), StoredByte(seqnr, 0)]
  }

  function PolyKey(main: Words, seqnr: bv32): seq<byte> {
    Crypt(WithIv(main, SeqBuf(seqnr), []), ZERO_KEY)
  }

  function CryptHeader(header: Words, seqnr: bv32, aad: seq<byte>): seq<byte> {
    Crypt(WithIv(header, SeqBuf(seqnr), []), aad)
  }

  function CryptPayload(main: Words, seqnr: bv32, m: seq<byte>): seq<byte> {
    Crypt(WithIv(main, SeqBuf(seqnr), ONE), m)
  }

  /** Header and payload under their own keys, without the tag. */
  function Body(main: Words, header: Words, seqnr: bv32, text: seq<byte>, aadlen: nat): (s: seq<byte>)
    requires aadlen <= |text|
    ensures |s| == |text|
  {
    CryptHeader(header, seqnr, text[..aadlen]) + CryptPayload(main, seqnr, text[aadlen..])
  }

  function Seal(mac: Mac, main: Words, header: Words, seqnr: bv32, text: seq<byte>, aadlen: nat): (s: seq<byte>)
    requires aadlen <= |text|
    ensures |s| == |text| + POLY1305_TAGLEN
  {
    var body := Body(main, header, seqnr, text, aadlen);
    body + mac(body, PolyKey(main, seqnr))
  }

  function Open(mac: Mac, main: Words, header: Words, seqnr: bv32, packet: seq<byte>, aadlen: nat): Option<seq<byte>>
    requires aadlen + POLY1305_TAGLEN <= |packet|
  {
    var n := |packet| - POLY1305_TAGLEN;
    if mac(packet[..n], PolyKey(main, seqnr)) != packet[n..] then None
    else Some(Body(main, header, seqnr, packet[..n], aadlen))
  }

  // ----- Which key stream is used where -----

  /** The input of the main key's block with number `n` under a sequence number. */
  function MainBlock(main: Words, seqnr: bv32, n: nat): Words {
    WithCounter(WithIv(main, SeqBuf(seqnr), []), Plus(0, n))
  }

  lemma StartsAt(main: Words, iv: seq<byte>)
    requires |iv| == 8
    ensures WithIv(main, iv, []) == WithCounter(WithIv(main, iv, []), Plus(0, 0))
    ensures WithIv(main, iv, ONE) == WithCounter(WithIv(main, iv, []), Plus(0, 1))
    ensures Counter(WithIv(main, iv, [])) == Plus(0, 0) && Counter(WithIv(main, iv, ONE)) == Plus(0, 1)
  {
    assert LoadAt(ONE, 0) == 1 && LoadAt(ONE, 4) == 0;
    assert Plus(0, 0) == 0 && Plus(0, 1) == 1;
  }

  lemma {:induction false} PlusPlus(c: bv64, j: nat, k: nat)
    ensures Plus(Plus(c, j), k) == Plus(c, j + k)
  {
    hide Next;
    if k > 0 {
      PlusPlus(c, j, k - 1);
    }
  }

  lemma XorZero(b: byte)
    ensures XorByte(0, b) == b
  {
  }

  /**
    The authenticator key is the front of the main key's block 0, and payload byte `i` is xored with
    byte `i % 64` of block `1 + i / 64`.
   */
  lemma BlocksUsed(main: Words, seqnr: bv32, m: seq<byte>, i: nat, j: nat)
    requires i < |m| && j < 32
    ensures PolyKey(main, seqnr)[j] == Block(MainBlock(main, seqnr, 0))[j]
    ensures CryptPayload(main, seqnr, m)[i] == XorByte(m[i], Block(MainBlock(main, seqnr, 1 + i / 64))[i % 64])
  {
    hide Crypt, WithIv, SeqBuf, Block, XorByte, Counter, WithCounter, Plus;
    var w := WithIv(main, SeqBuf(seqnr), []);
    StartsAt(main, SeqBuf(seqnr));
    CryptIsStream(w, ZERO_KEY, j);
    CounterBack(w, Plus(0, 0));
    PlusPlus(0, 0, 0);
    assert ZERO_KEY[j] == 0;
    XorZero(Block(MainBlock(main, seqnr, 0))[j]);
    var v := WithIv(main, SeqBuf(seqnr), ONE);
    CryptIsStream(v, m, i);
    CounterBack(w, Plus(0, 1));
    PlusPlus(0, 1, i / 64);
  }

  lemma SeqBufApart(v: bv32, w: bv32)
    requires LoadAt(SeqBuf(v), 4) == LoadAt(SeqBuf(w), 4)
    ensures v == w
  {
  }

  lemma MainWords(main: Words, seqnr: bv32, n: nat)
    ensures MainBlock(main, seqnr, n)[15] == LoadAt(SeqBuf(seqnr), 4)
    ensures Counter(MainBlock(main, seqnr, n)) == Plus(0, n)
  {
    hide LoadAt, SeqBuf, Plus, Counter;
    CounterBack(WithIv(main, SeqBuf(seqnr), []), Plus(0, n));
  }

  /** No two of these blocks are the same, within one packet or across packets. */
  lemma BlocksApart(main: Words, seqnr: bv32, seqnr': bv32, n: nat, n': nat)
    requires n < Pow256(8) && n' < Pow256(8)
    ensures MainBlock(main, seqnr, n) == MainBlock(main, seqnr', n') ==> seqnr == seqnr' && n == n'
  {
    hide MainBlock, SeqBuf, LoadAt, Plus, Counter, Value;
    if MainBlock(main, seqnr, n) == MainBlock(main, seqnr', n') {
      MainWords(main, seqnr, n);
      MainWords(main, seqnr', n');
      SeqBufApart(seqnr, seqnr');
      CounterValue(n);
      CounterValue(n');
    }
  }

  /** The nonce is the sequence number, most significant byte first. */
  lemma SeqBufValue(seqnr: bv32)
    ensures FromBigEndian(SeqBuf(seqnr)) == Value(seqnr as bv64, 8)
  {
    hide FromBigEndian, Value;
    var c := seqnr as bv64;
    ValueSteps(c);
    var s := SeqBuf(seqnr);
    BytesOf(seqnr);
    EightBytes(s);
  }

  lemma BytesOf(seqnr: bv32)
    ensures var c := seqnr as bv64; var s := SeqBuf(seqnr);
      && s[7] == LowByte(c) && s[6] == LowByte(Shifted(c)) && s[5] == LowByte(Shifted(Shifted(c)))
      && s[4] == LowByte(Shifted(Shifted(Shifted(c)))) && Shifted(Shifted(Shifted(Shifted(c)))) == 0
      && s[0] == s[1] == s[2] == s[3] == 0
  {
  }

  lemma ValueSteps(c: bv64)
    requires Shifted(Shifted(Shifted(Shifted(c)))) == 0
    ensures Value(c, 8) == ByteValue(LowByte(c)) + 256 * (ByteValue(LowByte(Shifted(c))) + 256 *
      (ByteValue(LowByte(Shifted(Shifted(c)))) + 256 * ByteValue(LowByte(Shifted(Shifted(Shifted(c)))))))
  {
    hide LowByte, Shifted, ByteValue;
    ZeroValue(4);
    assert Value(Shifted(Shifted(Shifted(c))), 5) == ByteValue(LowByte(Shifted(Shifted(Shifted(c)))));
    assert Value(Shifted(Shifted(c)), 6) == ByteValue(LowByte(Shifted(Shifted(c)))) + 256 * Value(Shifted(Shifted(Shifted(c))), 5);
    assert Value(Shifted(c), 7) == ByteValue(LowByte(Shifted(c))) + 256 * Value(Shifted(Shifted(c)), 6);
  }

  lemma EightBytes(s: seq<byte>)
    requires |s| == 8 && s[0] == s[1] == s[2] == s[3] == 0
    ensures FromBigEndian(s) == ByteValue(s[7]) + 256 * (ByteValue(s[6]) + 256 * (ByteValue(s[5]) + 256 * ByteValue(s[4])))
  {
    assert s[..1][..0] == [] && s[..2][..1] == s[..1] && s[..3][..2] == s[..2] && s[..4][..3] == s[..3];
    assert s[..5][..4] == s[..4] && s[..6][..5] == s[..5] && s[..7][..6] == s[..6] && s[..7] == s[..|s| - 1];
    assert FromBigEndian(s[..1]) == 0;
    assert FromBigEndian(s[..2]) == 0;
    assert FromBigEndian(s[..3]) == 0;
    assert FromBigEndian(s[..4]) == 0;
    assert FromBigEndian(s[..5]) == ByteValue(s[4]);
    assert FromBigEndian(s[..6]) == 256 * ByteValue(s[4]) + ByteValue(s[5]);
    assert FromBigEndian(s[..7]) == 256 * (256 * ByteValue(s[4]) + ByteValue(s[5])) + ByteValue(s[6]);
  }

  lemma BodyTwice(main: Words, header: Words, seqnr: bv32, text: seq<byte>, aadlen: nat)
    requires aadlen <= |text|
    ensures Body(main, header, seqnr, Body(main, header, seqnr, text, aadlen), aadlen) == text
  {
    hide Crypt, WithIv, SeqBuf;
    var body := Body(main, header, seqnr, text, aadlen);
    assert body[..aadlen] == CryptHeader(header, seqnr, text[..aadlen]);
    assert body[aadlen..] == CryptPayload(main, seqnr, text[aadlen..]);
    CryptTwice(WithIv(header, SeqBuf(seqnr), []), text[..aadlen]);
    CryptTwice(WithIv(main, SeqBuf(seqnr), ONE), text[aadlen..]);
    assert text[..aadlen] + text[aadlen..] == text;
  }

  /** A packet opens to a text exactly when it is that text sealed under the same key and sequence number. */
  lemma OpensExactlySealed(mac: Mac, main: Words, header: Words, seqnr: bv32, packet: seq<byte>, text: seq<byte>,
                           aadlen: nat)
    requires aadlen <= |text| && aadlen + POLY1305_TAGLEN <= |packet|
    ensures Open(mac, main, header, seqnr, packet, aadlen) == Some(text)
       <==> packet == Seal(mac, main, header, seqnr, text, aadlen)
  {
    hide Body, PolyKey;
    var n := |packet| - POLY1305_TAGLEN;
    BodyTwice(main, header, seqnr, text, aadlen);
    BodyTwice(main, header, seqnr, packet[..n], aadlen);
    assert packet == packet[..n] + packet[n..];
    var body := Body(main, header, seqnr, text, aadlen);
    var tag := mac(body, PolyKey(main, seqnr));
    assert (body + tag)[..|body|] == body && (body + tag)[|body|..] == tag;
  }

  /** The counter and nonce an earlier packet left behind do not matter. */
  lemma KeyOnly(v: Words, w: Words, seqnr: bv32, counter: seq<byte>)
    requires v[..12] == w[..12] && (counter == [] || |counter| == 8)
    ensures WithIv(v, SeqBuf(seqnr), counter) == WithIv(w, SeqBuf(seqnr), counter)
  {
  }

  /** Sealing and opening depend on the key words alone. */
  lemma SealKeyOnly(mac: Mac, main: Words, header: Words, main': Words, header': Words, seqnr: bv32, text: seq<byte>,
                    aadlen: nat)
    requires aadlen <= |text| && main[..12] == main'[..12] && header[..12] == header'[..12]
    ensures Seal(mac, main, header, seqnr, text, aadlen) == Seal(mac, main', header', seqnr, text, aadlen)
  {
    hide WithIv, Crypt, SeqBuf;
    KeyOnly(main, main', seqnr, []);
    KeyOnly(main, main', seqnr, ONE);
    KeyOnly(header, header', seqnr, []);
  }

  /** The front of a message is encrypted as if it were alone. */
  lemma CryptPrefix(w: Words, m: seq<byte>, n: nat)
    requires n <= |m|
    ensures Crypt(w, m[..n]) == Crypt(w, m)[..n]
  {
    hide Crypt, Bumped, Block, XorByte;
    forall i | 0 <= i < n ensures Crypt(w, m[..n])[i] == Crypt(w, m)[i] {
      CryptAt(w, m, i);
      CryptAt(w, m[..n], i);
    }
  }

  /** The length field is readable from the first four bytes of a sealed packet. */
  lemma LengthReadable(mac: Mac, main: Words, header: Words, seqnr: bv32, text: seq<byte>, aadlen: nat)
    requires 4 <= aadlen <= |text|
    ensures CryptHeader(header, seqnr, Seal(mac, main, header, seqnr, text, aadlen)[..4]) == text[..4]
  {
    hide Crypt, WithIv, SeqBuf, PolyKey, CryptPayload;
    var w := WithIv(header, SeqBuf(seqnr), []);
    var c := Crypt(w, text[..aadlen]);
    assert Seal(mac, main, header, seqnr, text, aadlen)[..4] == c[..4];
    CryptPrefix(w, c, 4);
    CryptTwice(w, text[..aadlen]);
    assert text[..aadlen][..4] == text[..4];
  }

  datatype Code = Ok | MacInvalid | MessageIncomplete

  class Cipher {
    const mac: Mac
    const main: Context
    const header: Context

    constructor (mac: Mac, main: Context, header: Context)
      ensures this.mac == mac && this.main == main && this.header == header
    {
      this.mac, this.main, this.header := mac, main, header;
    }

    ghost predicate SameKeys(m: Words, h: Words)
      reads main, header
    {
      main.input[..12] == m[..12] && header.input[..12] == h[..12]
    }

    method MakePolyKey(seqnr: bv32) returns (key: seq<byte>)
      modifies main
      ensures key == PolyKey(old(main.input), seqnr)
      ensures main.input[..12] == old(main.input)[..12]
    {
      hide Crypt, After, SeqBuf, Spliced;
      var polyKey := new byte[32](_ => 0);
      ghost var was := polyKey[..];
      main.IvSetup(SeqBuf(seqnr), []);
      ghost var w := main.input;
      main.EncryptBytes(polyKey, 0, polyKey, 0, 32);
      KeyKept(w, 32);
      assert was == ZERO_KEY && was[0..32] == was;
      SplicedHere(was, 0, Crypt(w, was));
      key := polyKey[..];
      assert key[0..32] == key;
    }

    /** The header, if there is one, and the payload with block counter 1, from `src` to `dest`. */
    method CryptBoth(seqnr: bv32, dest: array<byte>, src: array<byte>, len: nat, aadlen: nat)
      requires aadlen + len <= src.Length && aadlen + len <= dest.Length && main != header
      modifies main, header, dest
      ensures dest[..] == Spliced(old(dest[..]), 0,
        Body(old(main.input), old(header.input), seqnr, old(src[..aadlen + len]), aadlen))
      ensures SameKeys(old(main.input), old(header.input))
    {
      hide Crypt, After, SeqBuf, Spliced, WithIv;
      ghost var was, text := dest[..], src[..aadlen + len];
      ghost var m, h := main.input, header.input;
      SpliceNothing(was, 0);
      if aadlen != 0 {
        header.IvSetup(SeqBuf(seqnr), []);
        ghost var w := header.input;
        IvKeepsKey(h, SeqBuf(seqnr), []);
        header.EncryptBytes(src, 0, dest, 0, aadlen);
        KeyKept(w, aadlen);
      } else {
        EmptyCrypt(WithIv(h, SeqBuf(seqnr), []));
      }
      assert text[..aadlen] == old(src[0..aadlen]) && (aadlen == 0 ==> text[..aadlen] == []);
      ghost var front := CryptHeader(h, seqnr, text[..aadlen]);
      assert dest[..] == Spliced(was, 0, front);
      SplicedElsewhere(was, 0, front, aadlen, aadlen + len);
      assert src[aadlen..aadlen + len] == text[aadlen..] by {
        if src == dest {
          assert src[aadlen..aadlen + len] == dest[..][aadlen..aadlen + len] == was[aadlen..aadlen + len];
        } else {
          assert src[aadlen..aadlen + len] == src[..][aadlen..aadlen + len];
        }
      }
      main.IvSetup(SeqBuf(seqnr), ONE);
      IvKeepsKey(m, SeqBuf(seqnr), ONE);
      ghost var w := main.input;
      main.EncryptBytes(src, aadlen, dest, aadlen, len);
      KeyKept(w, len);
      SpliceOn(was, 0, front, CryptPayload(m, seqnr, text[aadlen..]));
    }

    /** `chachapoly_crypt` in the direction that seals. */
    method Encrypt(seqnr: bv32, dest: array<byte>, src: array<byte>, len: nat, aadlen: nat) returns (r: Code)
      requires aadlen + len <= src.Length && aadlen + len + POLY1305_TAGLEN <= dest.Length && main != header
      modifies main, header, dest
      ensures r == Ok && SameKeys(old(main.input), old(header.input))
      ensures dest[..] == Spliced(old(dest[..]), 0,
        Seal(mac, old(main.input), old(header.input), seqnr, old(src[..aadlen + len]), aadlen))
    {
      hide PolyKey, Body, Spliced;
      ghost var was, text := dest[..], src[..aadlen + len];
      ghost var m, h := main.input, header.input;
      var key := MakePolyKey(seqnr);
      BodyKeyOnly(m, h, main.input, header.input, seqnr, text, aadlen);
      CryptBoth(seqnr, dest, src, len, aadlen);
      ghost var body := Body(m, h, seqnr, text, aadlen);
      SplicedHere(was, 0, body);
      assert dest[..aadlen + len] == dest[..][0..|body|];
      var tag := mac(dest[..aadlen + len], key);
      Write(dest, aadlen + len, tag);
      SpliceOn(was, 0, body, tag);
      r := Ok;
    }

    /** `chachapoly_crypt` in the direction that opens: nothing is written unless the tag is right. */
    method Decrypt(seqnr: bv32, dest: array<byte>, src: array<byte>, len: nat, aadlen: nat) returns (r: Code)
      requires aadlen + len + POLY1305_TAGLEN <= src.Length && aadlen + len <= dest.Length && main != header
      modifies main, header, dest
      ensures SameKeys(old(main.input), old(header.input))
      ensures var o := Open(mac, old(main.input), old(header.input), seqnr,
                            old(src[..aadlen + len + POLY1305_TAGLEN]), aadlen);
        if o.Some? then r == Ok && |o.value| == aadlen + len && dest[..] == Spliced(old(dest[..]), 0, o.value)
        else r == MacInvalid && dest[..] == old(dest[..])
    {
      hide PolyKey, Body, Spliced;
      ghost var packet, text := src[..aadlen + len + POLY1305_TAGLEN], src[..aadlen + len];
      ghost var m, h := main.input, header.input;
      var key := MakePolyKey(seqnr);
      assert packet[..aadlen + len] == text;
      assert packet[aadlen + len..] == src[aadlen + len..aadlen + len + POLY1305_TAGLEN];
      var expected := mac(src[..aadlen + len], key);
      if expected != src[aadlen + len..aadlen + len + POLY1305_TAGLEN] {
        return MacInvalid;
      }
      BodyKeyOnly(m, h, main.input, header.input, seqnr, text, aadlen);
      CryptBoth(seqnr, dest, src, len, aadlen);
      r := Ok;
    }

    /** `chachapoly_get_length`: the four decrypted bytes of the length field. */
    method GetLength(seqnr: bv32, cp: array<byte>, len: nat) returns (r: Code, plen: seq<byte>)
      requires len <= cp.Length
      modifies header
      ensures len < 4 ==> r == MessageIncomplete
      ensures len >= 4 ==> r == Ok && plen == CryptHeader(old(header.input), seqnr, cp[..4])
      ensures header.input[..12] == old(header.input)[..12]
    {
      hide Crypt, After, SeqBuf, Spliced;
      if len < 4 {
        return MessageIncomplete, [];
      }
      var buf := new byte[4];
      ghost var was := buf[..];
      header.IvSetup(SeqBuf(seqnr), []);
      ghost var w := header.input;
      header.EncryptBytes(cp, 0, buf, 0, 4);
      KeyKept(w, 4);
      SplicedHere(was, 0, Crypt(w, cp[0..4]));
      plen := buf[..];
      assert plen[0..4] == plen && cp[0..4] == cp[..4];
      r := Ok;
    }
  }

  lemma KeyKept(w: Words, n: nat)
    ensures After(w, n)[..12] == w[..12]
  {
    OnlyCounter(w, n);
  }

  lemma IvKeepsKey(w: Words, iv: seq<byte>, counter: seq<byte>)
    requires |iv| == 8 && (counter == [] || |counter| == 8)
    ensures WithIv(w, iv, counter)[..12] == w[..12]
  {
  }

  lemma BodyKeyOnly(m: Words, h: Words, m': Words, h': Words, seqnr: bv32, text: seq<byte>, aadlen: nat)
    requires aadlen <= |text| && m[..12] == m'[..12] && h[..12] == h'[..12]
    ensures Body(m, h, seqnr, text, aadlen) == Body(m', h', seqnr, text, aadlen)
  {
    hide WithIv, Crypt, SeqBuf;
    KeyOnly(m, m', seqnr, ONE);
    KeyOnly(h, h', seqnr, []);
  }

  /** A packet sealed in place by one end and opened in place by the other comes back as it was. */
  method SendAndReceive(s: Cipher, r: Cipher, seqnr: bv32, buf: array<byte>, len: nat, aadlen: nat) returns (code: Code)
    requires s.main != s.header && r.main != r.header && s.mac == r.mac
    requires {s.main, s.header} !! {r.main, r.header}
    requires r.SameKeys(s.main.input, s.header.input)
    requires aadlen + len + POLY1305_TAGLEN <= buf.Length
    modifies s.main, s.header, r.main, r.header, buf
    ensures code == Ok && buf[..aadlen + len] == old(buf[..aadlen + len])
    ensures r.SameKeys(s.main.input, s.header.input)
  {
    hide Seal, Open, Spliced;
    var n := aadlen + len;
    ghost var was, text := buf[..], buf[..n];
    ghost var m, h := s.main.input, s.header.input;
    code := s.Encrypt(seqnr, buf, buf, len, aadlen);
    SealKeyOnly(s.mac, m, h, r.main.input, r.header.input, seqnr, text, aadlen);
    ghost var packet := Seal(s.mac, m, h, seqnr, text, aadlen);
    SplicedHere(was, 0, packet);
    assert buf[..n + POLY1305_TAGLEN] == buf[..][0..|packet|] == packet;
    OpensExactlySealed(r.mac, r.main.input, r.header.input, seqnr, packet, text, aadlen);
    ghost var sealed := buf[..];
    code := r.Decrypt(seqnr, buf, buf, len, aadlen);
    SplicedHere(sealed, 0, text);
    assert buf[..n] == buf[..][0..|text|];
  }
}
