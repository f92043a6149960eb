/** The out-of-sync blocks a receiver keeps, and the restart loop that uses them up. */
module ZSavedBlocks {
  import opened Basics

  datatype Block = Block(pos: nat, data: seq<byte>)

  // ----- The loop at `nxthdr`, on values -----

  /** The index of the first block saved for position `r`, or the length of the list. */
  function FirstAt(bs: seq<Block>, r: nat): (i: nat)
    ensures i <= |bs|
    ensures i < |bs| ==> bs[i].pos == r
    ensures forall j :: 0 <= j < i ==> bs[j].pos != r
  {
    if bs == [] || bs[0].pos == r then 0 else 1 + FirstAt(bs[1..], r)
  }

  /** The list once a scan has passed its first `i` blocks: those below `r` are unlinked. */
  function Left(bs: seq<Block>, r: nat, i: nat): seq<Block>
    requires i <= |bs|
  {
    if i == 0 then bs
    else if bs[0].pos < r then Left(bs[1..], r, i - 1)
    else [bs[0]] + Left(bs[1..], r, i - 1)
  }

  /** One scan of the list: either it runs to the end, or it uses a block and starts over. */
  datatype Pass = Finished(left: seq<Block>) | Restart(left: seq<Block>, used: Block)

  function OnePass(bs: seq<Block>, r: nat): Pass {
    var i := FirstAt(bs, r);
    if i == |bs| then Finished(Left(bs, r, |bs|))
    else Restart(Left(bs, r, i), bs[i])
  }

  /** The state after at most `n` scans: the list, the position, the blocks used, and whether the loop has ended. */
  datatype Scan = Scan(left: seq<Block>, r: nat, used: seq<Block>, ended: bool)

  function Passes(n: nat, bs: seq<Block>, r: nat): Scan
    decreases n
  {
    if n == 0 then Scan(bs, r, [], false)
    else match OnePass(bs, r)
      case Finished(left) => Scan(left, r, [], true)
      case Restart(left, b) =>
        var s := Passes(n - 1, left, r + |b.data|);
        s.(used := [b] + s.used)
  }

  /** How many saved blocks still lie at or beyond `r`. */
  function Pending(bs: seq<Block>, r: nat): nat {
    if bs == [] then 0 else (if bs[0].pos >= r then 1 else 0) + Pending(bs[1..], r)
  }

  lemma {:induction false} PendingDrops(bs: seq<Block>, r: nat, i: nat)
    requires i < |bs| && bs[i].pos == r && bs[i].data != []
    ensures Pending(bs, r + |bs[i].data|) < Pending(bs, r)
  {
    PendingShrinks(bs[1..], r, r + |bs[i].data|);
    if i > 0 {
      PendingDrops(bs[1..], r, i - 1);
    }
  }

  lemma {:induction false} PendingShrinks(bs: seq<Block>, r: nat, r': nat)
    requires r <= r'
    ensures Pending(bs, r') <= Pending(bs, r)
  {
    if bs != [] {
      PendingShrinks(bs[1..], r, r');
    }
  }

  // Where the loop gets by using, at each position it reaches, the first block saved
  // for it; only the list as it is before the loop is looked at. It cannot get past a
  // position whose first block is empty.

  function Stop(bs: seq<Block>, r: nat): (q: nat)
    ensures q >= r && (FirstAt(bs, q) < |bs| ==> bs[FirstAt(bs, q)].data == [])
    decreases Pending(bs, r)
  {
    var i := FirstAt(bs, r);
    if i == |bs| || bs[i].data == [] then r
    else (PendingDrops(bs, r, i); Stop(bs, r + |bs[i].data|))
  }

  /** The blocks used on the way. */
  function Used(bs: seq<Block>, r: nat): seq<Block>
    decreases Pending(bs, r)
  {
    var i := FirstAt(bs, r);
    if i == |bs| || bs[i].data == [] then []
    else (PendingDrops(bs, r, i); [bs[i]] + Used(bs, r + |bs[i].data|))
  }

  /** The loop arrives at a position whose first saved block is empty. */
  predicate MeetsEmpty(bs: seq<Block>, r: nat) {
    FirstAt(bs, Stop(bs, r)) < |bs|
  }

  /** The blocks strictly beyond `r`, in order. */
  function Ahead(bs: seq<Block>, r: nat): seq<Block> {
    if bs == [] then []
    else if bs[0].pos > r then [bs[0]] + Ahead(bs[1..], r)
    else Ahead(bs[1..], r)
  }

  // A scan never changes which block is first for a position not below `r`, nor the
  // order of the blocks beyond it.

  lemma {:induction false} ScanKeepsFirst(bs: seq<Block>, r: nat, i: nat, q: nat)
    requires i <= |bs| && r <= q
    ensures var left, j := Left(bs, r, i), FirstAt(bs, q);
            if j == |bs| then FirstAt(left, q) == |left|
            else FirstAt(left, q) < |left| && left[FirstAt(left, q)] == bs[j]
  {
    if i > 0 {
      ScanKeepsFirst(bs[1..], r, i - 1, q);
    }
  }

  lemma {:induction false} ScanKeepsPending(bs: seq<Block>, r: nat, i: nat, q: nat)
    requires i <= |bs| && r <= q
    ensures Pending(Left(bs, r, i), q) == Pending(bs, q)
  {
    if i > 0 {
      ScanKeepsPending(bs[1..], r, i - 1, q);
    }
  }

  lemma {:induction false} ScanKeepsAhead(bs: seq<Block>, r: nat, i: nat, q: nat)
    requires i <= |bs| && r <= q
    ensures Ahead(Left(bs, r, i), q) == Ahead(bs, q)
  {
    if i > 0 {
      ScanKeepsAhead(bs[1..], r, i - 1, q);
      if bs[0].pos >= r {
        assert Left(bs, r, i)[1..] == Left(bs[1..], r, i - 1);
      }
    }
  }

  lemma {:induction false} FullScanIsAhead(bs: seq<Block>, r: nat)
    requires FirstAt(bs, r) == |bs|
    ensures Left(bs, r, |bs|) == Ahead(bs, r)
  {
    if bs != [] {
      assert bs[0].pos != r;
      FullScanIsAhead(bs[1..], r);
    }
  }

  lemma {:induction false} ScanKeepsStop(bs: seq<Block>, r: nat, i: nat, q: nat)
    requires i <= |bs| && r <= q
    ensures var left := Left(bs, r, i);
            && Stop(left, q) == Stop(bs, q)
            && Used(left, q) == Used(bs, q)
            && MeetsEmpty(left, q) == MeetsEmpty(bs, q)
    decreases Pending(bs, q)
  {
    hide Left, FirstAt, Pending;
    ScanKeepsFirst(bs, r, i, q);
    var j := FirstAt(bs, q);
    if j < |bs| && bs[j].data != [] {
      PendingDrops(bs, q, j);
      ScanKeepsStop(bs, r, i, q + |bs[j].data|);
    }
  }

  /**
    What the loop leaves: the position is where the chain of first blocks ends, exactly
    the blocks not strictly beyond it have been unlinked, and the rest keep their order.
   */
  lemma {:induction false} LoopResult(bs: seq<Block>, r: nat)
    requires !MeetsEmpty(bs, r)
    ensures Passes(1 + Pending(bs, r), bs, r) == Scan(Ahead(bs, Stop(bs, r)), Stop(bs, r), Used(bs, r), true)
    decreases Pending(bs, r)
  {
    hide Left, FirstAt, Ahead, Pending;
    var i := FirstAt(bs, r);
    if i == |bs| {
      FullScanIsAhead(bs, r);
    } else {
      var left, r' := Left(bs, r, i), r + |bs[i].data|;
      PendingDrops(bs, r, i);
      ScanKeepsPending(bs, r, i, r');
      ScanKeepsStop(bs, r, i, r');
      ScanKeepsAhead(bs, r, i, Stop(bs, r'));
      LoopResult(left, r');
      PassesMore(1 + Pending(left, r'), Pending(bs, r), left, r');
    }
  }

  /** Once the loop has ended, allowing it more scans changes nothing. */
  lemma {:induction false} PassesMore(n: nat, m: nat, bs: seq<Block>, r: nat)
    requires n <= m && Passes(n, bs, r).ended
    ensures Passes(m, bs, r) == Passes(n, bs, r)
    decreases n
  {
    hide OnePass;
    match OnePass(bs, r)
    case Finished(_) =>
    case Restart(left, b) => PassesMore(n - 1, m - 1, left, r + |b.data|);
  }

  lemma {:induction false} NeverEnds(n: nat, bs: seq<Block>, r: nat)
    requires MeetsEmpty(bs, r)
    ensures !Passes(n, bs, r).ended
    decreases n
  {
    hide Left, FirstAt, Pending;
    if n > 0 {
      var i := FirstAt(bs, r);
      ScanKeepsStop(bs, r, i, r + |bs[i].data|);
      if bs[i].data != [] {
        PendingDrops(bs, r, i);
      }
      NeverEnds(n - 1, Left(bs, r, i), r + |bs[i].data|);
    }
  }

  /** The loop ends after some number of scans if and only if it meets no empty block. */
  lemma EndsExactlyWithoutEmpty(bs: seq<Block>, r: nat)
    ensures (exists n :: Passes(n, bs, r).ended) <==> !MeetsEmpty(bs, r)
  {
    if MeetsEmpty(bs, r) {
      forall n ensures !Passes(n, bs, r).ended {
        NeverEnds(n, bs, r);
      }
    } else {
      LoopResult(bs, r);
    }
  }

  /** In particular it ends whenever every saved block holds data. */
  lemma NonEmptyBlocksEnd(bs: seq<Block>, r: nat)
    requires forall b :: b in bs ==> b.data != []
    ensures !MeetsEmpty(bs, r)
  {
  }

  /** An empty block saved for the very next position is enough to keep it running. */
  lemma EmptyBlockHangs(n: nat, r: nat)
    ensures !Passes(n, [Block(r, [])], r).ended
  {
    NeverEnds(n, [Block(r, [])], r);
  }

  // ----- Blocks of one file -----

  /** The block is a stretch of the file. */
  predicate IsSlice(src: seq<byte>, b: Block) {
    b.pos + |b.data| <= |src| && b.data == src[b.pos..b.pos + |b.data|]
  }

  function DataOf(bs: seq<Block>): seq<byte> {
    if bs == [] then [] else bs[0].data + DataOf(bs[1..])
  }

  /** Blocks of one file only ever continue the prefix that is already there. */
  lemma {:induction false} UsedContinuesPrefix(src: seq<byte>, bs: seq<Block>, r: nat)
    requires r <= |src|
    requires forall b :: b in bs ==> IsSlice(src, b)
    ensures Stop(bs, r) <= |src|
    ensures DataOf(Used(bs, r)) == src[r..Stop(bs, r)]
    decreases Pending(bs, r)
  {
    hide FirstAt, Pending;
    var i := FirstAt(bs, r);
    if i < |bs| && bs[i].data != [] {
      assert bs[i] in bs;
      var r' := r + |bs[i].data|;
      PendingDrops(bs, r, i);
      UsedContinuesPrefix(src, bs, r');
      assert src[r..Stop(bs, r)] == src[r..r'] + src[r'..Stop(bs, r)];
    }
  }

  lemma {:induction false} AheadIsSubset(bs: seq<Block>, r: nat)
    ensures forall b :: b in Ahead(bs, r) <==> b in bs && b.pos > r
  {
    if bs != [] {
      AheadIsSubset(bs[1..], r);
      assert forall b :: b in bs <==> b == bs[0] || b in bs[1..];
    }
  }

  // ----- The linked list itself -----

  /** The blocks among the first `k` that are not below `r`. */
  function Kept(bs: seq<Block>, r: nat, k: nat): seq<Block>
    requires k <= |bs|
  {
    if k == 0 then [] else (if bs[0].pos < r then [] else [bs[0]]) + Kept(bs[1..], r, k - 1)
  }

  lemma {:induction false} KeptStep(bs: seq<Block>, r: nat, k: nat)
    requires k < |bs|
    ensures Kept(bs, r, k + 1) == Kept(bs, r, k) + if bs[k].pos < r then [] else [bs[k]]
  {
    if k > 0 {
      KeptStep(bs[1..], r, k - 1);
      BlocksAssoc(if bs[0].pos < r then [] else [bs[0]], Kept(bs[1..], r, k - 1), if bs[k].pos < r then [] else [bs[k]]);
    }
  }

  lemma {:induction false} LeftIsKept(bs: seq<Block>, r: nat, k: nat)
    requires k <= |bs|
    ensures Left(bs, r, k) == Kept(bs, r, k) + bs[k..]
  {
    if k > 0 {
      var kept := Kept(bs[1..], r, k - 1);
      LeftIsKept(bs[1..], r, k - 1);
      assert bs[1..][k - 1..] == bs[k..];
      if bs[0].pos < r {
        assert [] + kept == kept;
      } else {
        BlocksAssoc([bs[0]], kept, bs[k..]);
      }
    } else {
      assert [] + bs[0..] == bs;
    }
  }

  lemma BlocksAssoc(a: seq<Block>, b: seq<Block>, c: seq<Block>)
    ensures a + (b + c) == (a + b) + c
  {
  }

  lemma {:induction false} FirstAtIs(bs: seq<Block>, r: nat, k: nat)
    requires k <= |bs| && forall j :: 0 <= j < k ==> bs[j].pos != r
    requires k < |bs| ==> bs[k].pos == r
    ensures FirstAt(bs, r) == k
  {
    if k > 0 {
      FirstAtIs(bs[1..], r, k - 1);
    }
  }

  /** `oosb_t`. */
  class Oosb {
    const pos: nat
    const data: seq<byte>
    var next: Oosb?

    constructor (pos: nat, data: seq<byte>, next: Oosb?)
      ensures this.pos == pos && this.data == data && this.next == next
    {
      this.pos, this.data, this.next := pos, data, next;
    }
  }

  function BlocksOf(nodes: seq<Oosb>): seq<Block> {
    seq(|nodes|, i requires 0 <= i < |nodes| => Block(nodes[i].pos, nodes[i].data))
  }

  ghost function NodeAt(nodes: seq<Oosb>, i: nat): Oosb? {
    if i < |nodes| then nodes[i] else null
  }

  lemma RemovedAt(s: seq<Oosb>, i: nat, t: seq<Oosb>)
    requires i < |s| && t == s[..i] + s[i + 1..]
    ensures forall j :: 0 <= j <= |t| ==> NodeAt(t, j) == NodeAt(s, if j < i then j else j + 1)
    ensures (forall j, k :: 0 <= j < k < |s| ==> s[j] != s[k]) ==> forall j, k :: 0 <= j < k < |t| ==> t[j] != t[k]
  {
    assert forall j :: 0 <= j < |t| ==> t[j] == s[if j < i then j else j + 1];
  }

  class Saved {
    var anker: Oosb?
    ghost var spine: seq<Oosb>
    ghost var nodes: set<Oosb>    // every node ever linked

    /** The nodes from `anker` on are those of `spine`, each once, and the last has no successor. */
    ghost predicate Valid()
      reads this, nodes
    {
      && (forall i :: 0 <= i < |spine| ==> spine[i] in nodes)
      && anker == NodeAt(spine, 0)
      && (forall i :: 0 <= i < |spine| ==> spine[i].next == NodeAt(spine, i + 1))
      && (forall i, j :: 0 <= i < j < |spine| ==> spine[i] != spine[j])
    }

    ghost function Contents(): seq<Block>
      reads this
    {
      BlocksOf(spine)
    }

    constructor ()
      ensures Valid() && Contents() == [] && nodes == {}
    {
      anker := null;
      spine, nodes := [], {};
    }

    /** The new block becomes the head of the list. */
    method Save(pos: nat, data: seq<byte>)
      requires Valid()
      modifies this
      ensures Valid() && Contents() == [Block(pos, data)] + old(Contents())
      ensures old(nodes) <= nodes && fresh(nodes - old(nodes))
    {
      var neu := new Oosb(pos, data, anker);
      anker := neu;
      spine, nodes := [neu] + spine, nodes + {neu};
      forall i | 0 <= i < |spine| ensures spine[i].next == NodeAt(spine, i + 1) {
        if i > 0 {
          assert spine[i] == old(spine)[i - 1] && NodeAt(spine, i + 1) == NodeAt(old(spine), i);
        }
      }
      assert Contents() == [Block(pos, data)] + old(Contents());
    }

    /** Take `akt`, the successor of `last`, out of the list. */
    method Unlink(last: Oosb?, akt: Oosb, ghost i: nat)
      requires Valid() && i < |spine| && akt == spine[i]
      requires last == if i == 0 then null else spine[i - 1]
      modifies this, last
      ensures Valid() && spine == old(spine)[..i] + old(spine)[i + 1..] && nodes == old(nodes)
    {
      ghost var s := spine;
      var next := akt.next;
      if last != null {
        last.next := next;
      } else {
        anker := next;
      }
      spine := s[..i] + s[i + 1..];
      RemovedAt(s, i, spine);
      forall j | 0 <= j < |spine| ensures spine[j].next == NodeAt(spine, j + 1) {
        if j < i {
          assert spine[j] == s[j] && NodeAt(spine, j + 1) == if j + 1 == i then next else s[j + 1];
        } else {
          assert spine[j] == s[j + 1] && s[j + 1] != last;
        }
      }
    }

    lemma Follows(i: nat)
      requires Valid() && i < |spine|
      ensures spine[i].next == NodeAt(spine, i + 1)
    {
    }

    lemma Starts()
      requires Valid()
      ensures anker == NodeAt(spine, 0) && forall i :: 0 <= i < |spine| ==> spine[i] in nodes
    {
    }

    /**
      One run of the `for` loop at `nxthdr`. It unlinks what lies below `r` on its way
      and stops at the first block for `r` itself.
     */
    method ScanOnce(r: nat) returns (hit: Oosb?)
      requires Valid()
      modifies this, nodes
      ensures Valid() && nodes == old(nodes)
      ensures hit == null ==> OnePass(old(Contents()), r) == Finished(Contents())
      ensures hit != null ==> OnePass(old(Contents()), r) == Restart(Contents(), Block(hit.pos, hit.data))
    {
      hide Valid, Kept;
      ghost var orig, blocks := spine, Contents();
      ghost var i, k := 0, 0;
      Starts();
      KeptNone(blocks, r);
      var akt, last: Oosb? := anker, null;
      while akt != null
        invariant i <= k <= |orig| && i <= |spine| && Valid()
        invariant spine[i..] == orig[k..] && akt == NodeAt(spine, i)
        invariant last == (if i == 0 then null else spine[i - 1])
        invariant nodes == old(nodes)
        invariant BlocksOf(spine[..i]) == Kept(blocks, r, k)
        invariant forall j :: 0 <= j < k ==> blocks[j].pos != r
        decreases |orig| - k
      {
        assert akt == spine[i] == spine[i..][0] == orig[k] && blocks[k] == Block(akt.pos, akt.data);
        if akt.pos == r {
          ScanSummary(orig, blocks, spine, r, i, k);
          return akt;
        }
        KeptStep(blocks, r, k);
        Follows(i);
        var next := akt.next;
        ghost var before := spine;
        if akt.pos < r {
          Starts();
          Unlink(last, akt, i);
          assert spine[..i] == before[..i] && spine[i..] == before[i..][1..];
        } else {
          last := akt;
          assert spine[i + 1..] == spine[i..][1..];
          assert spine[..i + 1] == spine[..i] + [akt];
          assert BlocksOf(spine[..i + 1]) == BlocksOf(spine[..i]) + [blocks[k]];
          i := i + 1;
        }
        akt := next;
        k := k + 1;
      }
      ScanSummary(orig, blocks, spine, r, i, k);
      hit := null;
    }
  }

  lemma KeptNone(bs: seq<Block>, r: nat)
    ensures Kept(bs, r, 0) == []
  {
  }

  lemma ScanSummary(orig: seq<Oosb>, blocks: seq<Block>, spine: seq<Oosb>, r: nat, i: nat, k: nat)
    requires blocks == BlocksOf(orig) && i <= k <= |orig|
    requires i <= |spine| && spine[i..] == orig[k..]
    requires BlocksOf(spine[..i]) == Kept(blocks, r, k)
    requires forall j :: 0 <= j < k ==> blocks[j].pos != r
    requires k < |blocks| ==> blocks[k].pos == r
    ensures BlocksOf(spine) == Left(blocks, r, k) && FirstAt(blocks, r) == k
  {
    FirstAtIs(blocks, r, k);
    LeftIsKept(blocks, r, k);
    assert BlocksOf(spine) == BlocksOf(spine[..i]) + blocks[k..];
  }
}
