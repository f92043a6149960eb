/** A known answer for a whole ChaCha block. */
module ChaChaVector {
  import opened Basics
  import opened ChaCha

  /** A quarter round on four words. */
  function Quad(a: bv32, b: bv32, c: bv32, d: bv32): (bv32, bv32, bv32, bv32) {
    var a := Sum(a, b);
    var d := Rotate(Mix(d, a), 16);
    var c := Sum(c, d);
    var b := Rotate(Mix(b, c), 12);
    var a := Sum(a, b);
    var d := Rotate(Mix(d, a), 8);
    var c := Sum(c, d);
    var b := Rotate(Mix(b, c), 7);
    (a, b, c, d)
  }

  function Put(x: Words, a: nat, b: nat, c: nat, d: nat, q: (bv32, bv32, bv32, bv32)): Words
    requires a < 16 && b < 16 && c < 16 && d < 16
  {
    x[a := q.0][b := q.1][c := q.2][d := q.3]
  }

  lemma QuarterIs(x: Words, a: nat, b: nat, c: nat, d: nat)
    requires a < 16 && b < 16 && c < 16 && d < 16
    requires a != b && a != c && a != d && b != c && b != d && c != d
    ensures QuarterRound(x, a, b, c, d) == Put(x, a, b, c, d, Quad(x[a], x[b], x[c], x[d]))
  {
    hide Sum, Mix, Rotate;
    var x1 := HalfStep(x, a, b, d, 16);
    var x2 := HalfStep(x1, c, d, b, 12);
    var x3 := HalfStep(x2, a, b, d, 8);
    assert QuarterRound(x, a, b, c, d) == HalfStep(x3, c, d, b, 7);
  }

  /** Four quarter rounds down the columns. */
  function Columns(x: Words): Words {
    QuarterRound(QuarterRound(QuarterRound(QuarterRound(x, 0, 4, 8, 12), 1, 5, 9, 13), 2, 6, 10, 14), 3, 7, 11, 15)
  }

  /** Four quarter rounds along the diagonals. */
  function Diagonals(x: Words): Words {
    QuarterRound(QuarterRound(QuarterRound(QuarterRound(x, 0, 5, 10, 15), 1, 6, 11, 12), 2, 7, 8, 13), 3, 4, 9, 14)
  }

  lemma ColumnsAre(x: Words, p: (bv32, bv32, bv32, bv32), q: (bv32, bv32, bv32, bv32), r: (bv32, bv32, bv32, bv32), s: (bv32, bv32, bv32, bv32))
    requires Quad(x[0], x[4], x[8], x[12]) == p
    requires Quad(x[1], x[5], x[9], x[13]) == q
    requires Quad(x[2], x[6], x[10], x[14]) == r
    requires Quad(x[3], x[7], x[11], x[15]) == s
    ensures Columns(x) == [p.0, q.0, r.0, s.0, p.1, q.1, r.1, s.1, p.2, q.2, r.2, s.2, p.3, q.3, r.3, s.3]
  {
    hide QuarterRound, Quad;
    var x1 := QuarterRound(x, 0, 4, 8, 12);
    QuarterIs(x, 0, 4, 8, 12);
    var x2 := QuarterRound(x1, 1, 5, 9, 13);
    QuarterIs(x1, 1, 5, 9, 13);
    var x3 := QuarterRound(x2, 2, 6, 10, 14);
    QuarterIs(x2, 2, 6, 10, 14);
    var x4 := QuarterRound(x3, 3, 7, 11, 15);
    QuarterIs(x3, 3, 7, 11, 15);
  }

  lemma DiagonalsAre(x: Words, p: (bv32, bv32, bv32, bv32), q: (bv32, bv32, bv32, bv32), r: (bv32, bv32, bv32, bv32), s: (bv32, bv32, bv32, bv32))
    requires Quad(x[0], x[5], x[10], x[15]) == p
    requires Quad(x[1], x[6], x[11], x[12]) == q
    requires Quad(x[2], x[7], x[8], x[13]) == r
    requires Quad(x[3], x[4], x[9], x[14]) == s
    ensures Diagonals(x) == [p.0, q.0, r.0, s.0, s.1, p.1, q.1, r.1, r.2, s.2, p.2, q.2, q.3, r.3, s.3, p.3]
  {
    hide QuarterRound, Quad;
    var x1 := QuarterRound(x, 0, 5, 10, 15);
    QuarterIs(x, 0, 5, 10, 15);
    var x2 := QuarterRound(x1, 1, 6, 11, 12);
    QuarterIs(x1, 1, 6, 11, 12);
    var x3 := QuarterRound(x2, 2, 7, 8, 13);
    QuarterIs(x2, 2, 7, 8, 13);
    var x4 := QuarterRound(x3, 3, 4, 9, 14);
    QuarterIs(x3, 3, 4, 9, 14);
  }

  // The words along the way: before the first round, and after every round.

  function V0(): Words {
    [0x61707865, 0x3320646e, 0x79622d32, 0x6b206574, 0x03020100, 0x07060504, 0x0b0a0908, 0x0f0e0d0c,
     0x13121110, 0x17161514, 0x1b1a1918, 0x1f1e1d1c, 0x00000001, 0x09000000, 0x4a000000, 0x00000000]
  }

  function V1(): Words {
    [0xabbaa25c, 0x1efa51ea, 0x7354fbdf, 0x83d2dc69, 0x3a465196, 0x1c7e64f6, 0xb12fb628, 0xf05b6976,
     0x6b3ca454, 0x08eb14b1, 0xbf8a9ac9, 0xe444df3b, 0xdec62ed2, 0x8862cc77, 0x6e35b345, 0x52a647f1]
  }

  function V2(): Words {
    [0xcd52e917, 0x85ab03b4, 0xb3457395, 0xf96de7dd, 0xc4b7cd22, 0x5c2e187a, 0xc95eb461, 0x316c801a,
     0x7bf7d740, 0x7eddd644, 0xf1a1bdf5, 0x761246ca, 0x6b0d58a3, 0x6798471a, 0xd737f167, 0xf173888d]
  }

  function V3(): Words {
    [0xe3e1111b, 0xa6291491, 0x5a82b80c, 0x4500fd45, 0xd65b5b5b, 0xf56af099, 0x4ccc8103, 0xc94d29e2,
     0xe67aec54, 0xf7a52d82, 0xdb470914, 0xdfb40f1d, 0x7be81c0d, 0x1d92d0fd, 0x13139f8c, 0x7a26ecaa]
  }

  function V4(): Words {
    [0xcf1a7584, 0x048927ec, 0x54051fda, 0xc244ff28, 0x901d2f40, 0x7974b81c, 0x378dcfb4, 0xcd47fd0e,
     0x2dafb216, 0x27c89cd6, 0xcd3c9aa0, 0x79fc89c7, 0x10aef18d, 0x16218765, 0x68f76705, 0x04d6ee22]
  }

  function V5(): Words {
    [0xa22695f2, 0xa908cf6c, 0xe6ae05b2, 0xfe0ff04b, 0x1ece4458, 0xe82b726f, 0x5a21ab90, 0x87698c64,
     0xf2d36da6, 0xf4dab980, 0x7baf5573, 0xa78c270d, 0x6fda6bf7, 0x65a4b0ce, 0x25e6d76e, 0x1b7b11ec]
  }

  function V6(): Words {
    [0x03a14032, 0x66b15927, 0x9d6b6b42, 0xb84c4109, 0xa7143ae0, 0xa09b33dd, 0xa5daaf88, 0x2fd91a73,
     0xc90c6b18, 0x5a202413, 0xc20e01b6, 0x72cd6b74, 0xba35d777, 0xb360f1bf, 0x8178315b, 0x2cd11b1a]
  }

  function V7(): Words {
    [0xfecd0838, 0x160ab468, 0x9a0ddf4e, 0xbac7154a, 0xcedf6624, 0xb11de6c4, 0xbd7810ef, 0xd22b5643,
     0x1d8a33ea, 0x87dc1ca9, 0x89bd34a5, 0x5505ef62, 0xa818b852, 0xb100446a, 0x9c1d70b1, 0xa1d1befa]
  }

  function V8(): Words {
    [0x9a2d3589, 0x0b23fc4e, 0x40af3b6b, 0xceea8144, 0x0a1bffc6, 0x5e5993f7, 0x9904c2e7, 0x0d334718,
     0xe46c6354, 0xc9503229, 0x04fef5aa, 0xf8933f72, 0x2687d476, 0x54e65231, 0x3594ffc5, 0x2b3bb2ca]
  }

  function V9(): Words {
    [0x85e7824a, 0x4940cd9e, 0xfbe7684b, 0x7335d03d, 0x1c133ea1, 0xbba40b0f, 0x9413992a, 0xa4ab2040,
     0xa3a66a86, 0xc0b4754f, 0x771b4ecb, 0x165151a1, 0xde008464, 0x34f0058b, 0x70846cfa, 0xa3271b09]
  }

  function V10(): Words {
    [0xc53318c5, 0xca325d96, 0x7e7d11cb, 0x3404e2ca, 0x26d7cf73, 0x6088d379, 0xc0f0e9bd, 0xe310cdb9,
     0xae2ca8db, 0x42f67c72, 0x71669aca, 0x975c171d, 0x9e5ec228, 0x7d85a9f3, 0x201d0756, 0x63fa6953]
  }

  function V11(): Words {
    [0x9950b826, 0xcac7ccc6, 0x84a67673, 0xdb3109a6, 0x2121065a, 0xc12bdadb, 0xcae3acd1, 0x594616cb,
     0x19078de2, 0x178ecc02, 0xe6adbdb2, 0x52a9d50e, 0x40ca72b3, 0x3b9bf852, 0x78690378, 0xe17d4902]
  }

  function V12(): Words {
    [0x04a3131a, 0x66176309, 0x0415bab1, 0x61b880a2, 0x36cc86c7, 0xbf8a4465, 0xf77dd720, 0xfc0bdc90,
     0x07d13aca, 0xeb0be9af, 0x61599491, 0x918512dc, 0x33b6686d, 0x795cc671, 0xc0049972, 0xa0a81bde]
  }

  function V13(): Words {
    [0x57c5e6da, 0x35ce46a8, 0x0c041bb9, 0xfa91df79, 0x8e85d82f, 0xb4819d06, 0xb63be200, 0xacd221e4,
     0x434b4749, 0x1d459c00, 0x111cfe2c, 0x55942604, 0x49ee03a6, 0xd11a5554, 0xa7202e04, 0x7d2215bc]
  }

  function V14(): Words {
    [0x9b70f51f, 0x7ea8ac11, 0x21e54da9, 0xca393b2f, 0x93b08686, 0x6a4c50ae, 0x19212a5a, 0x9b032958,
     0xd839165e, 0x4c06e28a, 0xd3fde99e, 0x26acc13d, 0xa609f555, 0x2c246549, 0x95151853, 0x2c847a0d]
  }

  function V15(): Words {
    [0xc0b18aee, 0x087445ba, 0x36e52ad9, 0xa777426a, 0xdeb54e9c, 0x802c883b, 0x06e86889, 0x3c002680,
     0xa82d65d4, 0x687f11eb, 0xe9d36207, 0x4242ddae, 0x4103c64e, 0x82816a91, 0xb584ca56, 0xfd0bd2b9]
  }

  function V16(): Words {
    [0xca5c85dd, 0x93a4f90e, 0xd9f0df58, 0x26dd82dd, 0x982563f8, 0x712aa9ff, 0x279a61e8, 0x970f72bd,
     0x1c25931a, 0x5180bb10, 0x779c27e7, 0x54077e08, 0xa9b751fb, 0x382f3ce2, 0x8db1757d, 0xcc38080b]
  }

  function V17(): Words {
    [0x765c6e9c, 0x5ab09b11, 0x3ee7da04, 0x37c31203, 0x9046ecaa, 0x7b88d882, 0xb9b577dd, 0x156de7ed,
     0x46fa091e, 0x5117e9b5, 0x862ff22b, 0xa3fcc7a6, 0x72a5aace, 0x5fa7f1c5, 0xda563e0a, 0x5263d7ca]
  }

  function V18(): Words {
    [0xb6b87de6, 0x9a016148, 0x93859815, 0x4915e6cc, 0xdc33c122, 0x98e18fa3, 0x5ffbe8fc, 0xf7154b8b,
     0x28c1fcb3, 0xc4b38f9d, 0x83e2f5d7, 0x7d24b98b, 0x21078b22, 0xb193e7a3, 0xb2f49389, 0x6cde6026]
  }

  function V19(): Words {
    [0x8a07ff15, 0x0cadc51c, 0x017c8da9, 0x4afbe5df, 0x913768fe, 0x442a0c0c, 0x598fe3bb, 0x47d18828,
     0x0a39aedc, 0xc1428029, 0x7b48135f, 0x5a5f1098, 0x2d4cfe3e, 0xe5466d1b, 0xe4ccdc13, 0x8ac92a18]
  }

  function V20(): Words {
    [0x837778ab, 0xe238d763, 0xa67ae21e, 0x5950bb2f, 0xc4f2d0c7, 0xfc62bb2f, 0x8fa018fc, 0x3f5ec7b7,
     0x335271c2, 0xf29489f3, 0xeabda8fc, 0x82e46ebd, 0xd19c12b4, 0xb04e16de, 0x9e83d0cb, 0x4e3c50a2]
  }

  lemma Quads1()
    ensures Quad(0x61707865, 0x03020100, 0x13121110, 0x00000001) == (0xabbaa25c, 0x3a465196, 0x6b3ca454, 0xdec62ed2)
    ensures Quad(0x3320646e, 0x07060504, 0x17161514, 0x09000000) == (0x1efa51ea, 0x1c7e64f6, 0x08eb14b1, 0x8862cc77)
    ensures Quad(0x79622d32, 0x0b0a0908, 0x1b1a1918, 0x4a000000) == (0x7354fbdf, 0xb12fb628, 0xbf8a9ac9, 0x6e35b345)
    ensures Quad(0x6b206574, 0x0f0e0d0c, 0x1f1e1d1c, 0x00000000) == (0x83d2dc69, 0xf05b6976, 0xe444df3b, 0x52a647f1)
  {
  }

  lemma Round1()
    ensures Columns(V0()) == V1()
  {
    hide Quad, Columns;
    Quads1();
    ColumnsAre(V0(),
      (0xabbaa25c, 0x3a465196, 0x6b3ca454, 0xdec62ed2), (0x1efa51ea, 0x1c7e64f6, 0x08eb14b1, 0x8862cc77),
      (0x7354fbdf, 0xb12fb628, 0xbf8a9ac9, 0x6e35b345), (0x83d2dc69, 0xf05b6976, 0xe444df3b, 0x52a647f1));
  }

  lemma Quads2()
    ensures Quad(0xabbaa25c, 0x1c7e64f6, 0xbf8a9ac9, 0x52a647f1) == (0xcd52e917, 0x5c2e187a, 0xf1a1bdf5, 0xf173888d)
    ensures Quad(0x1efa51ea, 0xb12fb628, 0xe444df3b, 0xdec62ed2) == (0x85ab03b4, 0xc95eb461, 0x761246ca, 0x6b0d58a3)
    ensures Quad(0x7354fbdf, 0xf05b6976, 0x6b3ca454, 0x8862cc77) == (0xb3457395, 0x316c801a, 0x7bf7d740, 0x6798471a)
    ensures Quad(0x83d2dc69, 0x3a465196, 0x08eb14b1, 0x6e35b345) == (0xf96de7dd, 0xc4b7cd22, 0x7eddd644, 0xd737f167)
  {
  }

  lemma Round2()
    ensures Diagonals(V1()) == V2()
  {
    hide Quad, Diagonals;
    Quads2();
    DiagonalsAre(V1(),
      (0xcd52e917, 0x5c2e187a, 0xf1a1bdf5, 0xf173888d), (0x85ab03b4, 0xc95eb461, 0x761246ca, 0x6b0d58a3),
      (0xb3457395, 0x316c801a, 0x7bf7d740, 0x6798471a), (0xf96de7dd, 0xc4b7cd22, 0x7eddd644, 0xd737f167));
  }

  lemma Quads3()
    ensures Quad(0xcd52e917, 0xc4b7cd22, 0x7bf7d740, 0x6b0d58a3) == (0xe3e1111b, 0xd65b5b5b, 0xe67aec54, 0x7be81c0d)
    ensures Quad(0x85ab03b4, 0x5c2e187a, 0x7eddd644, 0x6798471a) == (0xa6291491, 0xf56af099, 0xf7a52d82, 0x1d92d0fd)
    ensures Quad(0xb3457395, 0xc95eb461, 0xf1a1bdf5, 0xd737f167) == (0x5a82b80c, 0x4ccc8103, 0xdb470914, 0x13139f8c)
    ensures Quad(0xf96de7dd, 0x316c801a, 0x761246ca, 0xf173888d) == (0x4500fd45, 0xc94d29e2, 0xdfb40f1d, 0x7a26ecaa)
  {
  }

  lemma Round3()
    ensures Columns(V2()) == V3()
  {
    hide Quad, Columns;
    Quads3();
    ColumnsAre(V2(),
      (0xe3e1111b, 0xd65b5b5b, 0xe67aec54, 0x7be81c0d), (0xa6291491, 0xf56af099, 0xf7a52d82, 0x1d92d0fd),
      (0x5a82b80c, 0x4ccc8103, 0xdb470914, 0x13139f8c), (0x4500fd45, 0xc94d29e2, 0xdfb40f1d, 0x7a26ecaa));
  }

  lemma Quads4()
    ensures Quad(0xe3e1111b, 0xf56af099, 0xdb470914, 0x7a26ecaa) == (0xcf1a7584, 0x7974b81c, 0xcd3c9aa0, 0x04d6ee22)
    ensures Quad(0xa6291491, 0x4ccc8103, 0xdfb40f1d, 0x7be81c0d) == (0x048927ec, 0x378dcfb4, 0x79fc89c7, 0x10aef18d)
    ensures Quad(0x5a82b80c, 0xc94d29e2, 0xe67aec54, 0x1d92d0fd) == (0x54051fda, 0xcd47fd0e, 0x2dafb216, 0x16218765)
    ensures Quad(0x4500fd45, 0xd65b5b5b, 0xf7a52d82, 0x13139f8c) == (0xc244ff28, 0x901d2f40, 0x27c89cd6, 0x68f76705)
  {
  }

  lemma Round4()
    ensures Diagonals(V3()) == V4()
  {
    hide Quad, Diagonals;
    Quads4();
    DiagonalsAre(V3(),
      (0xcf1a7584, 0x7974b81c, 0xcd3c9aa0, 0x04d6ee22), (0x048927ec, 0x378dcfb4, 0x79fc89c7, 0x10aef18d),
      (0x54051fda, 0xcd47fd0e, 0x2dafb216, 0x16218765), (0xc244ff28, 0x901d2f40, 0x27c89cd6, 0x68f76705));
  }

  lemma Quads5()
    ensures Quad(0xcf1a7584, 0x901d2f40, 0x2dafb216, 0x10aef18d) == (0xa22695f2, 0x1ece4458, 0xf2d36da6, 0x6fda6bf7)
    ensures Quad(0x048927ec, 0x7974b81c, 0x27c89cd6, 0x16218765) == (0xa908cf6c, 0xe82b726f, 0xf4dab980, 0x65a4b0ce)
    ensures Quad(0x54051fda, 0x378dcfb4, 0xcd3c9aa0, 0x68f76705) == (0xe6ae05b2, 0x5a21ab90, 0x7baf5573, 0x25e6d76e)
    ensures Quad(0xc244ff28, 0xcd47fd0e, 0x79fc89c7, 0x04d6ee22) == (0xfe0ff04b, 0x87698c64, 0xa78c270d, 0x1b7b11ec)
  {
  }

  lemma Round5()
    ensures Columns(V4()) == V5()
  {
    hide Quad, Columns;
    Quads5();
    ColumnsAre(V4(),
      (0xa22695f2, 0x1ece4458, 0xf2d36da6, 0x6fda6bf7), (0xa908cf6c, 0xe82b726f, 0xf4dab980, 0x65a4b0ce),
      (0xe6ae05b2, 0x5a21ab90, 0x7baf5573, 0x25e6d76e), (0xfe0ff04b, 0x87698c64, 0xa78c270d, 0x1b7b11ec));
  }

  lemma Quads6()
    ensures Quad(0xa22695f2, 0xe82b726f, 0x7baf5573, 0x1b7b11ec) == (0x03a14032, 0xa09b33dd, 0xc20e01b6, 0x2cd11b1a)
    ensures Quad(0xa908cf6c, 0x5a21ab90, 0xa78c270d, 0x6fda6bf7) == (0x66b15927, 0xa5daaf88, 0x72cd6b74, 0xba35d777)
    ensures Quad(0xe6ae05b2, 0x87698c64, 0xf2d36da6, 0x65a4b0ce) == (0x9d6b6b42, 0x2fd91a73, 0xc90c6b18, 0xb360f1bf)
    ensures Quad(0xfe0ff04b, 0x1ece4458, 0xf4dab980, 0x25e6d76e) == (0xb84c4109, 0xa7143ae0, 0x5a202413, 0x8178315b)
  {
  }

  lemma Round6()
    ensures Diagonals(V5()) == V6()
  {
    hide Quad, Diagonals;
    Quads6();
    DiagonalsAre(V5(),
      (0x03a14032, 0xa09b33dd, 0xc20e01b6, 0x2cd11b1a), (0x66b15927, 0xa5daaf88, 0x72cd6b74, 0xba35d777),
      (0x9d6b6b42, 0x2fd91a73, 0xc90c6b18, 0xb360f1bf), (0xb84c4109, 0xa7143ae0, 0x5a202413, 0x8178315b));
  }

  lemma Quads7()
    ensures Quad(0x03a14032, 0xa7143ae0, 0xc90c6b18, 0xba35d777) == (0xfecd0838, 0xcedf6624, 0x1d8a33ea, 0xa818b852)
    ensures Quad(0x66b15927, 0xa09b33dd, 0x5a202413, 0xb360f1bf) == (0x160ab468, 0xb11de6c4, 0x87dc1ca9, 0xb100446a)
    ensures Quad(0x9d6b6b42, 0xa5daaf88, 0xc20e01b6, 0x8178315b) == (0x9a0ddf4e, 0xbd7810ef, 0x89bd34a5, 0x9c1d70b1)
    ensures Quad(0xb84c4109, 0x2fd91a73, 0x72cd6b74, 0x2cd11b1a) == (0xbac7154a, 0xd22b5643, 0x5505ef62, 0xa1d1befa)
  {
  }

  lemma Round7()
    ensures Columns(V6()) == V7()
  {
    hide Quad, Columns;
    Quads7();
    ColumnsAre(V6(),
      (0xfecd0838, 0xcedf6624, 0x1d8a33ea, 0xa818b852), (0x160ab468, 0xb11de6c4, 0x87dc1ca9, 0xb100446a),
      (0x9a0ddf4e, 0xbd7810ef, 0x89bd34a5, 0x9c1d70b1), (0xbac7154a, 0xd22b5643, 0x5505ef62, 0xa1d1befa));
  }

  lemma Quads8()
    ensures Quad(0xfecd0838, 0xb11de6c4, 0x89bd34a5, 0xa1d1befa) == (0x9a2d3589, 0x5e5993f7, 0x04fef5aa, 0x2b3bb2ca)
    ensures Quad(0x160ab468, 0xbd7810ef, 0x5505ef62, 0xa818b852) == (0x0b23fc4e, 0x9904c2e7, 0xf8933f72, 0x2687d476)
    ensures Quad(0x9a0ddf4e, 0xd22b5643, 0x1d8a33ea, 0xb100446a) == (0x40af3b6b, 0x0d334718, 0xe46c6354, 0x54e65231)
    ensures Quad(0xbac7154a, 0xcedf6624, 0x87dc1ca9, 0x9c1d70b1) == (0xceea8144, 0x0a1bffc6, 0xc9503229, 0x3594ffc5)
  {
  }

  lemma Round8()
    ensures Diagonals(V7()) == V8()
  {
    hide Quad, Diagonals;
    Quads8();
    DiagonalsAre(V7(),
      (0x9a2d3589, 0x5e5993f7, 0x04fef5aa, 0x2b3bb2ca), (0x0b23fc4e, 0x9904c2e7, 0xf8933f72, 0x2687d476),
      (0x40af3b6b, 0x0d334718, 0xe46c6354, 0x54e65231), (0xceea8144, 0x0a1bffc6, 0xc9503229, 0x3594ffc5));
  }

  lemma Quads9()
    ensures Quad(0x9a2d3589, 0x0a1bffc6, 0xe46c6354, 0x2687d476) == (0x85e7824a, 0x1c133ea1, 0xa3a66a86, 0xde008464)
    ensures Quad(0x0b23fc4e, 0x5e5993f7, 0xc9503229, 0x54e65231) == (0x4940cd9e, 0xbba40b0f, 0xc0b4754f, 0x34f0058b)
    ensures Quad(0x40af3b6b, 0x9904c2e7, 0x04fef5aa, 0x3594ffc5) == (0xfbe7684b, 0x9413992a, 0x771b4ecb, 0x70846cfa)
    ensures Quad(0xceea8144, 0x0d334718, 0xf8933f72, 0x2b3bb2ca) == (0x7335d03d, 0xa4ab2040, 0x165151a1, 0xa3271b09)
  {
  }

  lemma Round9()
    ensures Columns(V8()) == V9()
  {
    hide Quad, Columns;
    Quads9();
    ColumnsAre(V8(),
      (0x85e7824a, 0x1c133ea1, 0xa3a66a86, 0xde008464), (0x4940cd9e, 0xbba40b0f, 0xc0b4754f, 0x34f0058b),
      (0xfbe7684b, 0x9413992a, 0x771b4ecb, 0x70846cfa), (0x7335d03d, 0xa4ab2040, 0x165151a1, 0xa3271b09));
  }

  lemma Quads10()
    ensures Quad(0x85e7824a, 0xbba40b0f, 0x771b4ecb, 0xa3271b09) == (0xc53318c5, 0x6088d379, 0x71669aca, 0x63fa6953)
    ensures Quad(0x4940cd9e, 0x9413992a, 0x165151a1, 0xde008464) == (0xca325d96, 0xc0f0e9bd, 0x975c171d, 0x9e5ec228)
    ensures Quad(0xfbe7684b, 0xa4ab2040, 0xa3a66a86, 0x34f0058b) == (0x7e7d11cb, 0xe310cdb9, 0xae2ca8db, 0x7d85a9f3)
    ensures Quad(0x7335d03d, 0x1c133ea1, 0xc0b4754f, 0x70846cfa) == (0x3404e2ca, 0x26d7cf73, 0x42f67c72, 0x201d0756)
  {
  }

  lemma Round10()
    ensures Diagonals(V9()) == V10()
  {
    hide Quad, Diagonals;
    Quads10();
    DiagonalsAre(V9(),
      (0xc53318c5, 0x6088d379, 0x71669aca, 0x63fa6953), (0xca325d96, 0xc0f0e9bd, 0x975c171d, 0x9e5ec228),
      (0x7e7d11cb, 0xe310cdb9, 0xae2ca8db, 0x7d85a9f3), (0x3404e2ca, 0x26d7cf73, 0x42f67c72, 0x201d0756));
  }

  lemma Quads11()
    ensures Quad(0xc53318c5, 0x26d7cf73, 0xae2ca8db, 0x9e5ec228) == (0x9950b826, 0x2121065a, 0x19078de2, 0x40ca72b3)
    ensures Quad(0xca325d96, 0x6088d379, 0x42f67c72, 0x7d85a9f3) == (0xcac7ccc6, 0xc12bdadb, 0x178ecc02, 0x3b9bf852)
    ensures Quad(0x7e7d11cb, 0xc0f0e9bd, 0x71669aca, 0x201d0756) == (0x84a67673, 0xcae3acd1, 0xe6adbdb2, 0x78690378)
    ensures Quad(0x3404e2ca, 0xe310cdb9, 0x975c171d, 0x63fa6953) == (0xdb3109a6, 0x594616cb, 0x52a9d50e, 0xe17d4902)
  {
  }

  lemma Round11()
    ensures Columns(V10()) == V11()
  {
    hide Quad, Columns;
    Quads11();
    ColumnsAre(V10(),
      (0x9950b826, 0x2121065a, 0x19078de2, 0x40ca72b3), (0xcac7ccc6, 0xc12bdadb, 0x178ecc02, 0x3b9bf852),
      (0x84a67673, 0xcae3acd1, 0xe6adbdb2, 0x78690378), (0xdb3109a6, 0x594616cb, 0x52a9d50e, 0xe17d4902));
  }

  lemma Quads12()
    ensures Quad(0x9950b826, 0xc12bdadb, 0xe6adbdb2, 0xe17d4902) == (0x04a3131a, 0xbf8a4465, 0x61599491, 0xa0a81bde)
    ensures Quad(0xcac7ccc6, 0xcae3acd1, 0x52a9d50e, 0x40ca72b3) == (0x66176309, 0xf77dd720, 0x918512dc, 0x33b6686d)
    ensures Quad(0x84a67673, 0x594616cb, 0x19078de2, 0x3b9bf852) == (0x0415bab1, 0xfc0bdc90, 0x07d13aca, 0x795cc671)
    ensures Quad(0xdb3109a6, 0x2121065a, 0x178ecc02, 0x78690378) == (0x61b880a2, 0x36cc86c7, 0xeb0be9af, 0xc0049972)
  {
  }

  lemma Round12()
    ensures Diagonals(V11()) == V12()
  {
    hide Quad, Diagonals;
    Quads12();
    DiagonalsAre(V11(),
      (0x04a3131a, 0xbf8a4465, 0x61599491, 0xa0a81bde), (0x66176309, 0xf77dd720, 0x918512dc, 0x33b6686d),
      (0x0415bab1, 0xfc0bdc90, 0x07d13aca, 0x795cc671), (0x61b880a2, 0x36cc86c7, 0xeb0be9af, 0xc0049972));
  }

  lemma Quads13()
    ensures Quad(0x04a3131a, 0x36cc86c7, 0x07d13aca, 0x33b6686d) == (0x57c5e6da, 0x8e85d82f, 0x434b4749, 0x49ee03a6)
    ensures Quad(0x66176309, 0xbf8a4465, 0xeb0be9af, 0x795cc671) == (0x35ce46a8, 0xb4819d06, 0x1d459c00, 0xd11a5554)
    ensures Quad(0x0415bab1, 0xf77dd720, 0x61599491, 0xc0049972) == (0x0c041bb9, 0xb63be200, 0x111cfe2c, 0xa7202e04)
    ensures Quad(0x61b880a2, 0xfc0bdc90, 0x918512dc, 0xa0a81bde) == (0xfa91df79, 0xacd221e4, 0x55942604, 0x7d2215bc)
  {
  }

  lemma Round13()
    ensures Columns(V12()) == V13()
  {
    hide Quad, Columns;
    Quads13();
    ColumnsAre(V12(),
      (0x57c5e6da, 0x8e85d82f, 0x434b4749, 0x49ee03a6), (0x35ce46a8, 0xb4819d06, 0x1d459c00, 0xd11a5554),
      (0x0c041bb9, 0xb63be200, 0x111cfe2c, 0xa7202e04), (0xfa91df79, 0xacd221e4, 0x55942604, 0x7d2215bc));
  }

  lemma Quads14()
    ensures Quad(0x57c5e6da, 0xb4819d06, 0x111cfe2c, 0x7d2215bc) == (0x9b70f51f, 0x6a4c50ae, 0xd3fde99e, 0x2c847a0d)
    ensures Quad(0x35ce46a8, 0xb63be200, 0x55942604, 0x49ee03a6) == (0x7ea8ac11, 0x19212a5a, 0x26acc13d, 0xa609f555)
    ensures Quad(0x0c041bb9, 0xacd221e4, 0x434b4749, 0xd11a5554) == (0x21e54da9, 0x9b032958, 0xd839165e, 0x2c246549)
    ensures Quad(0xfa91df79, 0x8e85d82f, 0x1d459c00, 0xa7202e04) == (0xca393b2f, 0x93b08686, 0x4c06e28a, 0x95151853)
  {
  }

  lemma Round14()
    ensures Diagonals(V13()) == V14()
  {
    hide Quad, Diagonals;
    Quads14();
    DiagonalsAre(V13(),
      (0x9b70f51f, 0x6a4c50ae, 0xd3fde99e, 0x2c847a0d), (0x7ea8ac11, 0x19212a5a, 0x26acc13d, 0xa609f555),
      (0x21e54da9, 0x9b032958, 0xd839165e, 0x2c246549), (0xca393b2f, 0x93b08686, 0x4c06e28a, 0x95151853));
  }

  lemma Quads15()
    ensures Quad(0x9b70f51f, 0x93b08686, 0xd839165e, 0xa609f555) == (0xc0b18aee, 0xdeb54e9c, 0xa82d65d4, 0x4103c64e)
    ensures Quad(0x7ea8ac11, 0x6a4c50ae, 0x4c06e28a, 0x2c246549) == (0x087445ba, 0x802c883b, 0x687f11eb, 0x82816a91)
    ensures Quad(0x21e54da9, 0x19212a5a, 0xd3fde99e, 0x95151853) == (0x36e52ad9, 0x06e86889, 0xe9d36207, 0xb584ca56)
    ensures Quad(0xca393b2f, 0x9b032958, 0x26acc13d, 0x2c847a0d) == (0xa777426a, 0x3c002680, 0x4242ddae, 0xfd0bd2b9)
  {
  }

  lemma Round15()
    ensures Columns(V14()) == V15()
  {
    hide Quad, Columns;
    Quads15();
    ColumnsAre(V14(),
      (0xc0b18aee, 0xdeb54e9c, 0xa82d65d4, 0x4103c64e), (0x087445ba, 0x802c883b, 0x687f11eb, 0x82816a91),
      (0x36e52ad9, 0x06e86889, 0xe9d36207, 0xb584ca56), (0xa777426a, 0x3c002680, 0x4242ddae, 0xfd0bd2b9));
  }

  lemma Quads16()
    ensures Quad(0xc0b18aee, 0x802c883b, 0xe9d36207, 0xfd0bd2b9) == (0xca5c85dd, 0x712aa9ff, 0x779c27e7, 0xcc38080b)
    ensures Quad(0x087445ba, 0x06e86889, 0x4242ddae, 0x4103c64e) == (0x93a4f90e, 0x279a61e8, 0x54077e08, 0xa9b751fb)
    ensures Quad(0x36e52ad9, 0x3c002680, 0xa82d65d4, 0x82816a91) == (0xd9f0df58, 0x970f72bd, 0x1c25931a, 0x382f3ce2)
    ensures Quad(0xa777426a, 0xdeb54e9c, 0x687f11eb, 0xb584ca56) == (0x26dd82dd, 0x982563f8, 0x5180bb10, 0x8db1757d)
  {
  }

  lemma Round16()
    ensures Diagonals(V15()) == V16()
  {
    hide Quad, Diagonals;
    Quads16();
    DiagonalsAre(V15(),
      (0xca5c85dd, 0x712aa9ff, 0x779c27e7, 0xcc38080b), (0x93a4f90e, 0x279a61e8, 0x54077e08, 0xa9b751fb),
      (0xd9f0df58, 0x970f72bd, 0x1c25931a, 0x382f3ce2), (0x26dd82dd, 0x982563f8, 0x5180bb10, 0x8db1757d));
  }

  lemma Quads17()
    ensures Quad(0xca5c85dd, 0x982563f8, 0x1c25931a, 0xa9b751fb) == (0x765c6e9c, 0x9046ecaa, 0x46fa091e, 0x72a5aace)
    ensures Quad(0x93a4f90e, 0x712aa9ff, 0x5180bb10, 0x382f3ce2) == (0x5ab09b11, 0x7b88d882, 0x5117e9b5, 0x5fa7f1c5)
    ensures Quad(0xd9f0df58, 0x279a61e8, 0x779c27e7, 0x8db1757d) == (0x3ee7da04, 0xb9b577dd, 0x862ff22b, 0xda563e0a)
    ensures Quad(0x26dd82dd, 0x970f72bd, 0x54077e08, 0xcc38080b) == (0x37c31203, 0x156de7ed, 0xa3fcc7a6, 0x5263d7ca)
  {
  }

  lemma Round17()
    ensures Columns(V16()) == V17()
  {
    hide Quad, Columns;
    Quads17();
    ColumnsAre(V16(),
      (0x765c6e9c, 0x9046ecaa, 0x46fa091e, 0x72a5aace), (0x5ab09b11, 0x7b88d882, 0x5117e9b5, 0x5fa7f1c5),
      (0x3ee7da04, 0xb9b577dd, 0x862ff22b, 0xda563e0a), (0x37c31203, 0x156de7ed, 0xa3fcc7a6, 0x5263d7ca));
  }

  lemma Quads18()
    ensures Quad(0x765c6e9c, 0x7b88d882, 0x862ff22b, 0x5263d7ca) == (0xb6b87de6, 0x98e18fa3, 0x83e2f5d7, 0x6cde6026)
    ensures Quad(0x5ab09b11, 0xb9b577dd, 0xa3fcc7a6, 0x72a5aace) == (0x9a016148, 0x5ffbe8fc, 0x7d24b98b, 0x21078b22)
    ensures Quad(0x3ee7da04, 0x156de7ed, 0x46fa091e, 0x5fa7f1c5) == (0x93859815, 0xf7154b8b, 0x28c1fcb3, 0xb193e7a3)
    ensures Quad(0x37c31203, 0x9046ecaa, 0x5117e9b5, 0xda563e0a) == (0x4915e6cc, 0xdc33c122, 0xc4b38f9d, 0xb2f49389)
  {
  }

  lemma Round18()
    ensures Diagonals(V17()) == V18()
  {
    hide Quad, Diagonals;
    Quads18();
    DiagonalsAre(V17(),
      (0xb6b87de6, 0x98e18fa3, 0x83e2f5d7, 0x6cde6026), (0x9a016148, 0x5ffbe8fc, 0x7d24b98b, 0x21078b22),
      (0x93859815, 0xf7154b8b, 0x28c1fcb3, 0xb193e7a3), (0x4915e6cc, 0xdc33c122, 0xc4b38f9d, 0xb2f49389));
  }

  lemma Quads19()
    ensures Quad(0xb6b87de6, 0xdc33c122, 0x28c1fcb3, 0x21078b22) == (0x8a07ff15, 0x913768fe, 0x0a39aedc, 0x2d4cfe3e)
    ensures Quad(0x9a016148, 0x98e18fa3, 0xc4b38f9d, 0xb193e7a3) == (0x0cadc51c, 0x442a0c0c, 0xc1428029, 0xe5466d1b)
    ensures Quad(0x93859815, 0x5ffbe8fc, 0x83e2f5d7, 0xb2f49389) == (0x017c8da9, 0x598fe3bb, 0x7b48135f, 0xe4ccdc13)
    ensures Quad(0x4915e6cc, 0xf7154b8b, 0x7d24b98b, 0x6cde6026) == (0x4afbe5df, 0x47d18828, 0x5a5f1098, 0x8ac92a18)
  {
  }

  lemma Round19()
    ensures Columns(V18()) == V19()
  {
    hide Quad, Columns;
    Quads19();
    ColumnsAre(V18(),
      (0x8a07ff15, 0x913768fe, 0x0a39aedc, 0x2d4cfe3e), (0x0cadc51c, 0x442a0c0c, 0xc1428029, 0xe5466d1b),
      (0x017c8da9, 0x598fe3bb, 0x7b48135f, 0xe4ccdc13), (0x4afbe5df, 0x47d18828, 0x5a5f1098, 0x8ac92a18));
  }

  lemma Quads20()
    ensures Quad(0x8a07ff15, 0x442a0c0c, 0x7b48135f, 0x8ac92a18) == (0x837778ab, 0xfc62bb2f, 0xeabda8fc, 0x4e3c50a2)
    ensures Quad(0x0cadc51c, 0x598fe3bb, 0x5a5f1098, 0x2d4cfe3e) == (0xe238d763, 0x8fa018fc, 0x82e46ebd, 0xd19c12b4)
    ensures Quad(0x017c8da9, 0x47d18828, 0x0a39aedc, 0xe5466d1b) == (0xa67ae21e, 0x3f5ec7b7, 0x335271c2, 0xb04e16de)
    ensures Quad(0x4afbe5df, 0x913768fe, 0xc1428029, 0xe4ccdc13) == (0x5950bb2f, 0xc4f2d0c7, 0xf29489f3, 0x9e83d0cb)
  {
  }

  lemma Round20()
    ensures Diagonals(V19()) == V20()
  {
    hide Quad, Diagonals;
    Quads20();
    DiagonalsAre(V19(),
      (0x837778ab, 0xfc62bb2f, 0xeabda8fc, 0x4e3c50a2), (0xe238d763, 0x8fa018fc, 0x82e46ebd, 0xd19c12b4),
      (0xa67ae21e, 0x3f5ec7b7, 0x335271c2, 0xb04e16de), (0x5950bb2f, 0xc4f2d0c7, 0xf29489f3, 0x9e83d0cb));
  }

  lemma DoubleIs(x: Words)
    ensures DoubleRound(x) == Diagonals(Columns(x))
  {
    hide QuarterRound;
  }

  lemma RoundsStep(x: Words, n: nat)
    ensures Rounds(x, n + 1) == Diagonals(Columns(Rounds(x, n)))
  {
    hide DoubleRound, Diagonals, Columns;
    DoubleIs(Rounds(x, n));
  }

  lemma Sums()
    ensures Sum(0x837778ab, 0x61707865) == 0xe4e7f110 && Sum(0xe238d763, 0x3320646e) == 0x15593bd1
    ensures Sum(0xa67ae21e, 0x79622d32) == 0x1fdd0f50 && Sum(0x5950bb2f, 0x6b206574) == 0xc47120a3
    ensures Sum(0xc4f2d0c7, 0x03020100) == 0xc7f4d1c7 && Sum(0xfc62bb2f, 0x07060504) == 0x0368c033
    ensures Sum(0x8fa018fc, 0x0b0a0908) == 0x9aaa2204 && Sum(0x3f5ec7b7, 0x0f0e0d0c) == 0x4e6cd4c3
    ensures Sum(0x335271c2, 0x13121110) == 0x466482d2 && Sum(0xf29489f3, 0x17161514) == 0x09aa9f07
    ensures Sum(0xeabda8fc, 0x1b1a1918) == 0x05d7c214 && Sum(0x82e46ebd, 0x1f1e1d1c) == 0xa2028bd9
    ensures Sum(0xd19c12b4, 0x00000001) == 0xd19c12b5 && Sum(0xb04e16de, 0x09000000) == 0xb94e16de
    ensures Sum(0x9e83d0cb, 0x4a000000) == 0xe883d0cb && Sum(0x4e3c50a2, 0x00000000) == 0x4e3c50a2
  {
  }

  lemma Ends()
    ensures Added(V20(), V0()) == [0xe4e7f110, 0x15593bd1, 0x1fdd0f50, 0xc47120a3, 0xc7f4d1c7, 0x0368c033, 0x9aaa2204, 0x4e6cd4c3,
       0x466482d2, 0x09aa9f07, 0x05d7c214, 0xa2028bd9, 0xd19c12b5, 0xb94e16de, 0xe883d0cb, 0x4e3c50a2]
  {
    hide Sum;
    Sums();
  }

  /** The known answer of section 2.3.2 of RFC 8439. */
  lemma BlockVector()
    ensures V0() == [0x61707865, 0x3320646e, 0x79622d32, 0x6b206574, 0x03020100, 0x07060504, 0x0b0a0908, 0x0f0e0d0c,
       0x13121110, 0x17161514, 0x1b1a1918, 0x1f1e1d1c, 0x00000001, 0x09000000, 0x4a000000, 0x00000000]
    ensures Core(V0()) == [0xe4e7f110, 0x15593bd1, 0x1fdd0f50, 0xc47120a3, 0xc7f4d1c7, 0x0368c033, 0x9aaa2204, 0x4e6cd4c3,
       0x466482d2, 0x09aa9f07, 0x05d7c214, 0xa2028bd9, 0xd19c12b5, 0xb94e16de, 0xe883d0cb, 0x4e3c50a2]
  {
    Ends();
    assert Rounds(V0(), 0) == V0();
    hide Columns, Diagonals, Rounds, Added, V1, V2, V3, V4, V5, V6, V7, V8, V9, V10, V11, V12, V13, V14, V15, V16, V17, V18, V19, V20;
    RoundsStep(V0(), 0);
    Round1();
    Round2();
    RoundsStep(V0(), 1);
    Round3();
    Round4();
    RoundsStep(V0(), 2);
    Round5();
    Round6();
    RoundsStep(V0(), 3);
    Round7();
    Round8();
    RoundsStep(V0(), 4);
    Round9();
    Round10();
    RoundsStep(V0(), 5);
    Round11();
    Round12();
    RoundsStep(V0(), 6);
    Round13();
    Round14();
    RoundsStep(V0(), 7);
    Round15();
    Round16();
    RoundsStep(V0(), 8);
    Round17();
    Round18();
    RoundsStep(V0(), 9);
    Round19();
    Round20();
  }
}
