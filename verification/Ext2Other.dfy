/** What a relocation in one ext2 file leaves of another file, whose inode may be next to the
    first one. */
module Ext2Other {
  import opened Bits
  import opened Flat
  import opened Relocate
  import opened Ext2
  import opened Ext2Move

  /** Another inode of the same file system, whose file shares no block with the first. No
      block of either file holds the other's inode. */
  ghost predicate OtherOn(g: Geo, d: Disk, on: set<Node>, h: Geo, on2: set<Node>) {
    && h == g.(ino := h.ino) && (h.ino + 128 <= g.ino || g.ino + 128 <= h.ino)
    && FileOn(g, d, on) && FileOn(h, d, on2)
    && (forall x :: x in on ==> PlainBlock(h, Blk(g, d, x)))
    && (forall y :: y in on2 ==> PlainBlock(g, Blk(h, d, y)))
    && (forall x, y :: x in on && y in on2 ==> Blk(g, d, x) != Blk(h, d, y))
  }

  ghost predicate Both(g: Geo, d: Disk, on: set<Node>, h: Geo, on2: set<Node>, m: nat, f: nat) {
    OtherOn(g, d, on, h, on2) && Ready(g, d, on, m, f) && PlainBlock(h, f)
  }

  /** Where the inode is does not matter to bitmaps and counts. */
  lemma SameMarks(g: Geo, h: Geo, d: Disk, b: nat, v: nat, c: nat)
    requires h == g.(ino := h.ino) && g.bpg > 0
    ensures MarkEs(h, d, b, v, c) == MarkEs(g, d, b, v, c) && (Used(h, d, b) <==> Used(g, d, b))
  {
  }

  lemma OtherMarkMisses(g: Geo, d: Disk, on: set<Node>, h: Geo, on2: set<Node>, b: nat, v: nat, c: nat, y: Node)
    requires OtherOn(g, d, on, h, on2) && 1 <= b < g.total && Placed(h, on2, y)
    ensures AllMiss(MarkEs(g, d, b, v, c), Addr(h, d, y), 32)
  {
    AddrPlace(h, d, on2, y);
    SameMarks(g, h, d, b, v, c);
    GroupBound(h, b);
    if !InInode(y) { assert HasBlock(h, d, on2, Parent(h, y)); }
    MarkMisses(h, d, b, v, c, Addr(h, d, y), 32, Place(h, d, y));
  }

  /** The two pointers are in different places. */
  lemma OtherLinkMisses(g: Geo, d: Disk, on: set<Node>, h: Geo, on2: set<Node>, m: nat, f: nat, y: Node)
    requires OtherOn(g, d, on, h, on2) && Data(m) in on && Placed(h, on2, y)
    ensures AllMiss(LinkEs(g, d, m, f), Addr(h, d, y), 32)
  {
    var x := Data(m);
    assert HasBlock(g, d, on, x);
    AddrPlace(g, d, on, x);
    AddrPlace(h, d, on2, y);
    if !InInode(y) {
      var q := Blk(h, d, Parent(h, y));
      InsideMisses(g, |d|, LinkEs(g, d, m, f)[0], Place(g, d, x), Addr(h, d, y), 32, Block(q));
    } else if !InInode(x) {
      var p := Blk(g, d, Parent(g, x));
      InsideMisses(h, |d|, LinkEs(g, d, m, f)[0], Block(p), Addr(h, d, y), 32, Inode);
    }
  }

  lemma OtherCopyMisses(g: Geo, d: Disk, on: set<Node>, h: Geo, on2: set<Node>, m: nat, f: nat, y: Node)
    requires Both(g, d, on, h, on2, m, f) && Placed(h, on2, y)
    ensures Addr(h, d, y) + 32 <= 8 * BlkByte(g, f) || 8 * (BlkByte(g, f) + g.bs) <= Addr(h, d, y)
  {
    AddrPlace(h, d, on2, y);
    SameMarks(g, h, d, f, 0, 0);
    if !InInode(y) { assert HasBlock(h, d, on2, Parent(h, y)); }
    CopyMisses(h, |d|, f, Addr(h, d, y), 32, Place(h, d, y));
  }

  lemma OtherPointer(g: Geo, d: Disk, on: set<Node>, h: Geo, on2: set<Node>, m: nat, f: nat, c: nat, y: Node)
    requires Both(g, d, on, h, on2, m, f) && Placed(h, on2, y)
    ensures Slice(Finished(g, d, on, m, f, c), Addr(h, d, y), 32) == Blk(h, d, y)
  {
    Facts(g, d, on, m, f);
    AllSupportedHere(g, d, on, m, f, c);
    OtherMarkMisses(g, d, on, h, on2, f, 1, Dec(FreeCount(g, d, Group(g, f))), y);
    OtherMarkMisses(g, d, on, h, on2, Old(g, d, m), 0, c, y);
    OtherLinkMisses(g, d, on, h, on2, m, f, y);
    OtherCopyMisses(g, d, on, h, on2, m, f, y);
    KeptThrough(d, AllocEs(g, d, f), BlkByte(g, f), BlkByte(g, Old(g, d, m)), g.bs, LinkEs(g, d, m, f),
                MarkEs(g, d, Old(g, d, m), 0, c), Addr(h, d, y), 32);
  }

  /** The block map of the other file is as it was, holes included. */
  lemma {:induction false} OtherBlk(g: Geo, d: Disk, on: set<Node>, h: Geo, on2: set<Node>, m: nat, f: nat, y: Node)
    requires Both(g, d, on, h, on2, m, f) && Placed(h, on2, y)
    ensures Blk(h, MovedDisk(g, d, on, m, f), y) == Blk(h, d, y)
    decreases Depth(y)
  {
    if !InInode(y) {
      assert HasBlock(h, d, on2, Parent(h, y));
      OtherBlk(g, d, on, h, on2, m, f, Parent(h, y));
    }
    OtherPointer(g, d, on, h, on2, m, f, NewCount(g, d, on, m, f), y);
  }

  lemma OtherNode(g: Geo, d: Disk, on: set<Node>, h: Geo, on2: set<Node>, m: nat, f: nat, y: Node)
    requires Both(g, d, on, h, on2, m, f) && y in on2
    ensures HasBlock(h, MovedDisk(g, d, on, m, f), on2, y) && Blk(h, MovedDisk(g, d, on, m, f), y) == Blk(h, d, y)
  {
    assert HasBlock(h, d, on2, y);
    OtherBlk(g, d, on, h, on2, m, f, y);
    OtherKept(g, d, on, h, on2, m, f, y);
  }

  /** A block of the other file, seen from the first. */
  lemma OtherFacts(g: Geo, d: Disk, on: set<Node>, h: Geo, on2: set<Node>, m: nat, f: nat, y: Node)
    requires Both(g, d, on, h, on2, m, f) && y in on2
    ensures var b := Blk(h, d, y); DataBlock(g, d, b) && Used(g, d, b) && b != f && b != Old(g, d, m)
  {
    assert HasBlock(h, d, on2, y);
    SameMarks(g, h, d, Blk(h, d, y), 0, 0);
    forall grp | 0 <= grp < Groups(g) ensures BmpBlock(g, d, grp) != Blk(h, d, y) {
      assert BmpBlock(h, d, grp) != Blk(h, d, y);
    }
  }

  lemma OtherKept(g: Geo, d: Disk, on: set<Node>, h: Geo, on2: set<Node>, m: nat, f: nat, y: Node)
    requires Both(g, d, on, h, on2, m, f) && y in on2
    ensures var b, d' := Blk(h, d, y), MovedDisk(g, d, on, m, f); DataBlock(h, d', b) && Used(h, d', b)
  {
    var d', c, b := MovedDisk(g, d, on, m, f), NewCount(g, d, on, m, f), Blk(h, d, y);
    OtherFacts(g, d, on, h, on2, m, f, y);
    FinishedUsed(g, d, on, m, f, c, b);
    SameMarks(g, h, d', b, 0, 0);
    assert HasBlock(h, d, on2, y);
    OtherBmps(g, d, on, h, m, f, b);
  }

  lemma OtherBmps(g: Geo, d: Disk, on: set<Node>, h: Geo, m: nat, f: nat, b: nat)
    requires Ready(g, d, on, m, f) && h == g.(ino := h.ino) && DataBlock(h, d, b)
    ensures DataBlock(h, MovedDisk(g, d, on, m, f), b)
  {
    var d' := MovedDisk(g, d, on, m, f);
    forall grp | 0 <= grp < Groups(h) ensures BmpBlock(h, d', grp) != b {
      KeptBmp(g, d, on, m, f, NewCount(g, d, on, m, f), grp);
      assert BmpBlock(h, d, grp) != b;
    }
  }

  /** The other file is a file still. */
  lemma OtherFile(g: Geo, d: Disk, on: set<Node>, h: Geo, on2: set<Node>, m: nat, f: nat)
    requires Both(g, d, on, h, on2, m, f)
    ensures FileOn(h, MovedDisk(g, d, on, m, f), on2)
  {
    var d' := MovedDisk(g, d, on, m, f);
    OtherBitmaps(g, d, on, h, on2, m, f);
    forall y | y in on2 ensures HasBlock(h, d', on2, y) && Blk(h, d', y) == Blk(h, d, y) {
      OtherNode(g, d, on, h, on2, m, f, y);
    }
  }

  lemma OtherBitmaps(g: Geo, d: Disk, on: set<Node>, h: Geo, on2: set<Node>, m: nat, f: nat)
    requires Both(g, d, on, h, on2, m, f)
    ensures Bitmaps(h, MovedDisk(g, d, on, m, f))
  {
    var d' := MovedDisk(g, d, on, m, f);
    forall grp | 0 <= grp < Groups(h) ensures BmpBlock(h, d', grp) == BmpBlock(h, d, grp) {
      KeptBmp(g, d, on, m, f, NewCount(g, d, on, m, f), grp);
    }
  }

  /** And its blocks have their contents. */
  lemma OtherContent(g: Geo, d: Disk, on: set<Node>, h: Geo, on2: set<Node>, m: nat, f: nat, y: Node)
    requires Both(g, d, on, h, on2, m, f) && y in on2
    ensures SameBlock(g, MovedDisk(g, d, on, m, f), Blk(h, d, y), d, Blk(h, d, y))
  {
    var b := Blk(h, d, y);
    OtherFacts(g, d, on, h, on2, m, f, y);
    NotThePlace(g, d, on, h, on2, m, f, y);
    OtherBytes(g, d, on, m, f, NewCount(g, d, on, m, f), b, BlkByte(g, b));
  }

  lemma NotThePlace(g: Geo, d: Disk, on: set<Node>, h: Geo, on2: set<Node>, m: nat, f: nat, y: Node)
    requires Both(g, d, on, h, on2, m, f) && y in on2
    ensures Place(g, d, Data(m)) != Block(Blk(h, d, y))
  {
    assert HasBlock(g, d, on, Data(m));
  }
}
