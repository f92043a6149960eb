/** File positions in the four data bytes of a header: `stohdr` and `rclhdr`. */
module ZPosition {
  import opened Basics
  import opened Numbers

  /** How many positions four bytes can tell apart. */
  const POSITIONS: nat := 0x1_0000_0000

  /** `stohdr`, low byte first. */
  function StoHdr(pos: nat): seq<byte> {
    [ToByte(pos % 256), ToByte(pos / 256 % 256), ToByte(pos / 256 / 256 % 256), ToByte(pos / 256 / 256 / 256 % 256)]
  }

  /** `rclhdr`, and the position computed at the end of `zgethdr`. */
  function RclHdr(hdr: seq<byte>): nat
    requires |hdr| == 4
  {
    ((hdr[3] as nat * 256 + hdr[2] as nat) * 256 + hdr[1] as nat) * 256 + hdr[0] as nat
  }

  lemma Digits(pos: nat)
    ensures ((pos / 256 / 256 / 256 % 256 * 256 + pos / 256 / 256 % 256) * 256 + pos / 256 % 256) * 256 + pos % 256
         == pos % POSITIONS
  {
    var q1 := pos / 256;
    var q2 := q1 / 256;
    var q3 := q2 / 256;
    var q4 := q3 / 256;
    assert pos == POSITIONS * q4 + (((q3 % 256 * 256 + q2 % 256) * 256 + q1 % 256) * 256 + pos % 256);
  }

  lemma DigitsBack(a: nat, b: nat, c: nat, d: nat, pos: nat)
    requires a < 256 && b < 256 && c < 256 && d < 256 && pos == ((d * 256 + c) * 256 + b) * 256 + a
    ensures pos % 256 == a && pos / 256 % 256 == b && pos / 256 / 256 % 256 == c && pos / 256 / 256 / 256 % 256 == d
  {
  }

  lemma SameValue(a: byte, b: byte)
    requires a as nat == b as nat
    ensures a == b
  {
  }

  lemma ByteBound(b: byte)
    ensures b as nat < 256
  {
  }

  /** A position stored in a header comes back modulo 2^32, and every four bytes are the header of a position. */
  lemma PositionRoundTrip(pos: nat, hdr: seq<byte>)
    requires |hdr| == 4
    ensures RclHdr(StoHdr(pos)) == pos % POSITIONS
    ensures RclHdr(hdr) < POSITIONS && StoHdr(RclHdr(hdr)) == hdr
  {
    hide ToByte;
    Digits(pos);
    forall i | 0 <= i < 4 ensures hdr[i] as nat < 256 { ByteBound(hdr[i]); }
    var p := RclHdr(hdr);
    DigitsBack(hdr[0] as nat, hdr[1] as nat, hdr[2] as nat, hdr[3] as nat, p);
    forall i | 0 <= i < 4 ensures StoHdr(p)[i] == hdr[i] { SameValue(StoHdr(p)[i], hdr[i]); }
  }

  /** The position the other side reads. */
  function WirePos(pos: nat): (p: nat)
    ensures p == pos % POSITIONS && p <= pos && (pos < POSITIONS ==> p == pos)
  {
    hide StoHdr, RclHdr;
    PositionRoundTrip(pos, [0, 0, 0, 0]);
    RclHdr(StoHdr(pos))
  }
}
