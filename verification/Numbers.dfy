/** Natural numbers as big-endian byte strings. */
module Numbers {
  import opened Basics

  function Pow256(k: nat): (p: nat)
    ensures p > 0
  {
    if k == 0 then 1 else 256 * Pow256(k - 1)
  }

  function NextByte(b: byte): byte {
    b + 1
  }

  lemma NextByteValue(b: byte)
    ensures NextByte(b) as nat == if NextByte(b) == 0 then 0 else b as nat + 1
    ensures NextByte(b) == 0 ==> b as nat == 255
  {
  }

  /** The byte that stands for a number. */
  function ToByte(n: nat): (b: byte)
    requires n < 256
    ensures b as nat == n
  {
    if n == 0 then 0 else (NextByteValue(ToByte(n - 1)); NextByte(ToByte(n - 1)))
  }

  function BigEndian(n: nat, k: nat): (s: seq<byte>)
    ensures |s| == k
  {
    if k == 0 then [] else BigEndian(n / 256, k - 1) + [ToByte(n % 256)]
  }

  function FromBigEndian(s: seq<byte>): nat {
    if s == [] then 0 else 256 * FromBigEndian(s[..|s| - 1]) + s[|s| - 1] as nat
  }

  lemma {:induction false} BigEndianRoundTrip(n: nat, k: nat)
    requires n < Pow256(k)
    ensures FromBigEndian(BigEndian(n, k)) == n
  {
    hide ToByte;
    if k > 0 {
      BigEndianRoundTrip(n / 256, k - 1);
      var s := BigEndian(n, k);
      assert s[..|s| - 1] == BigEndian(n / 256, k - 1);
    }
  }

  lemma FromSnoc(front: seq<byte>, b: byte)
    ensures FromBigEndian(front + [b]) == 256 * FromBigEndian(front) + b as nat
  {
    assert (front + [b])[..|front|] == front;
  }
}
