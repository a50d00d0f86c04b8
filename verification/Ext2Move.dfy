/** Relocating a data block of an ext2 file: what the block map, the bitmaps, the free
    counts and the contents are afterwards. */
module Ext2Move {
  import opened Arith
  import opened Bits
  import opened Flat
  import opened Pread
  import opened WriteLog
  import opened Relocate
  import opened Ext2

  /** Data block m of a file can move to block f. */
  ghost predicate Ready(g: Geo, d: Disk, on: set<Node>, m: nat, f: nat) {
    FileOn(g, d, on) && Data(m) in on && Available(g, d, f)
  }

  function Old(g: Geo, d: Disk, m: nat): nat requires Bpi(g) > 0 { Blk(g, d, Data(m)) }

  /** What block_alloc and block_replace write: the block's bit and its group's count. */
  function MarkEs(g: Geo, d: Disk, b: nat, v: nat, c: nat): seq<Entry>
    requires g.bpg > 0
  {
    [BitWrite(g, d, b, v), CntWrite(g, Group(g, b), c)]
  }

  function AllocEs(g: Geo, d: Disk, f: nat): seq<Entry>
    requires g.bpg > 0
  {
    MarkEs(g, d, f, 1, Dec(FreeCount(g, d, Group(g, f))))
  }

  function LinkEs(g: Geo, d: Disk, m: nat, f: nat): seq<Entry>
    requires Bpi(g) > 0
  {
    [Entry(Addr(g, d, Data(m)), f, 32)]
  }

  // ----- where the writes go -----

  lemma BitPlace(g: Geo, d: Disk, grp: nat, idx: nat)
    requires ValidGeo(g, |d|) && Bitmaps(g, d) && grp < Groups(g) && idx < g.bpg
    ensures Inside(g, BmpBit(g, d, grp, idx), 1, Block(BmpBlock(g, d, grp)))
    ensures Good(g, Block(BmpBlock(g, d, grp))) && BmpBit(g, d, grp, idx) + 1 <= 8 * |d|
  {
    BlkInside(g, |d|, BmpBlock(g, d, grp));
  }

  lemma DescPlace(g: Geo, len: nat, grp: nat)
    requires ValidGeo(g, len) && grp < Groups(g)
    ensures Inside(g, CntField(g, grp), 16, Descs) && Inside(g, BmpField(g, grp), 32, Descs)
    ensures CntField(g, grp) % 8 == 0 && CntField(g, grp) + 16 <= 8 * len
  {
  }

  lemma MarkSupported(g: Geo, d: Disk, b: nat, v: nat, c: nat)
    requires ValidGeo(g, |d|) && Bitmaps(g, d) && 1 <= b < g.total
    ensures AllSupported(MarkEs(g, d, b, v, c), |d|)
  {
    GroupBound(g, b);
    BitPlace(g, d, Group(g, b), Idx(g, b));
    DescPlace(g, |d|, Group(g, b));
  }

  /** A field of a region is missed by the marks unless they write that very field. */
  lemma MarkMisses(g: Geo, d: Disk, b: nat, v: nat, c: nat, off: nat, w: nat, s: Region)
    requires ValidGeo(g, |d|) && Bitmaps(g, d) && 1 <= b < g.total && Good(g, s) && Inside(g, off, w, s)
    requires s == Descs ==> Misses(CntWrite(g, Group(g, b), c), off, w)
    requires s == Block(BmpBlock(g, d, Group(g, b))) ==> Misses(BitWrite(g, d, b, v), off, w)
    ensures AllMiss(MarkEs(g, d, b, v, c), off, w)
  {
    GroupBound(g, b);
    var grp := Group(g, b);
    BitPlace(g, d, grp, Idx(g, b));
    DescPlace(g, |d|, grp);
    var r := Block(BmpBlock(g, d, grp));
    if s != r { InsideMisses(g, |d|, BitWrite(g, d, b, v), r, off, w, s); }
    if s != Descs { InsideMisses(g, |d|, CntWrite(g, grp, c), Descs, off, w, s); }
  }

  lemma LinkMisses(g: Geo, d: Disk, on: set<Node>, m: nat, f: nat, off: nat, w: nat, s: Region)
    requires FileOn(g, d, on) && Data(m) in on && Good(g, s) && Inside(g, off, w, s)
    requires s == Place(g, d, Data(m)) ==> Misses(Entry(Addr(g, d, Data(m)), f, 32), off, w)
    ensures AllMiss(LinkEs(g, d, m, f), off, w)
  {
    AddrPlace(g, d, on, Data(m));
    var r := Place(g, d, Data(m));
    if s != r { InsideMisses(g, |d|, Entry(Addr(g, d, Data(m)), f, 32), r, off, w, s); }
  }

  lemma LinkSupported(g: Geo, d: Disk, on: set<Node>, m: nat, f: nat)
    requires FileOn(g, d, on) && Data(m) in on
    ensures AllSupported(LinkEs(g, d, m, f), |d|)
  {
    AddrPlace(g, d, on, Data(m));
  }

  lemma CopyMisses(g: Geo, len: nat, f: nat, off: nat, w: nat, s: Region)
    requires ValidGeo(g, len) && PlainBlock(g, f) && Good(g, s) && s != Block(f) && Inside(g, off, w, s)
    ensures off + w <= 8 * BlkByte(g, f) || 8 * (BlkByte(g, f) + g.bs) <= off
  {
    RegionsApart(g, len, s, Block(f));
  }

  /** Everything about the two blocks that the following lemmas use. */
  lemma Facts(g: Geo, d: Disk, on: set<Node>, m: nat, f: nat)
    requires Ready(g, d, on, m, f)
    ensures var b := Old(g, d, m);
            && b != f && DataBlock(g, d, b) && Used(g, d, b)
            && BlkByte(g, b) + g.bs <= |d| && BlkByte(g, f) + g.bs <= |d|
            && Group(g, f) < Groups(g) && Group(g, b) < Groups(g) && Idx(g, f) < g.bpg && Idx(g, b) < g.bpg
  {
    var b := Old(g, d, m);
    assert HasBlock(g, d, on, Data(m));
    BlkInside(g, |d|, b);
    BlkInside(g, |d|, f);
    GroupBound(g, f);
    GroupBound(g, b);
  }

  // ----- the disks of the transaction -----

  /** After block_alloc is committed and the data is copied. */
  ghost function Copied(g: Geo, d: Disk, on: set<Node>, m: nat, f: nat): (r: Disk)
    requires Ready(g, d, on, m, f)
    ensures |r| == |d|
  {
    Facts(g, d, on, m, f);
    MarkSupported(g, d, f, 1, Dec(FreeCount(g, d, Group(g, f))));
    CopyBytes(Apply(d, AllocEs(g, d, f)), BlkByte(g, f), BlkByte(g, Old(g, d, m)), g.bs)
  }

  /** After block_relink and a block_replace that writes count c. */
  ghost function Finished(g: Geo, d: Disk, on: set<Node>, m: nat, f: nat, c: nat): (r: Disk)
    requires Ready(g, d, on, m, f)
    ensures |r| == |d|
  {
    Facts(g, d, on, m, f);
    LinkSupported(g, d, on, m, f);
    MarkSupported(g, d, f, 1, Dec(FreeCount(g, d, Group(g, f))));
    MarkSupported(g, d, Old(g, d, m), 0, c);
    Through(d, AllocEs(g, d, f), BlkByte(g, f), BlkByte(g, Old(g, d, m)), g.bs,
            LinkEs(g, d, m, f), MarkEs(g, d, Old(g, d, m), 0, c))
  }

  /** The count that block_replace computes from the disk that block_alloc left. */
  ghost function NewCount(g: Geo, d: Disk, on: set<Node>, m: nat, f: nat): nat
    requires Ready(g, d, on, m, f)
  {
    FreeCount(g, Copied(g, d, on, m, f), Group(g, Old(g, d, m))) + 1
  }

  /** The disk after the relocation: block_replace reads the count that block_alloc left. */
  ghost function MovedDisk(g: Geo, d: Disk, on: set<Node>, m: nat, f: nat): (r: Disk)
    requires Ready(g, d, on, m, f)
    ensures |r| == |d|
  {
    Finished(g, d, on, m, f, NewCount(g, d, on, m, f))
  }

  /** A field that neither the marks, nor the link, nor the copy touches. */
  lemma Kept(g: Geo, d: Disk, on: set<Node>, m: nat, f: nat, c: nat, off: nat, w: nat, s: Region)
    requires Ready(g, d, on, m, f) && Good(g, s) && Inside(g, off, w, s) && s != Block(f)
    requires AllMiss(AllocEs(g, d, f), off, w) && AllMiss(LinkEs(g, d, m, f), off, w)
    requires AllMiss(MarkEs(g, d, Old(g, d, m), 0, c), off, w)
    ensures Slice(Finished(g, d, on, m, f, c), off, w) == Slice(d, off, w)
    ensures Slice(Copied(g, d, on, m, f), off, w) == Slice(d, off, w)
  {
    Facts(g, d, on, m, f);
    LinkSupported(g, d, on, m, f);
    MarkSupported(g, d, f, 1, Dec(FreeCount(g, d, Group(g, f))));
    MarkSupported(g, d, Old(g, d, m), 0, c);
    CopyMisses(g, |d|, f, off, w, s);
    var src, dst := BlkByte(g, Old(g, d, m)), BlkByte(g, f);
    KeptThrough(d, AllocEs(g, d, f), dst, src, g.bs, LinkEs(g, d, m, f), MarkEs(g, d, Old(g, d, m), 0, c), off, w);
    ApplyFrame(d, AllocEs(g, d, f), off, w);
    CopyField(Apply(d, AllocEs(g, d, f)), dst, src, g.bs, off, w);
  }

  // ----- the block map -----

  /** A pointer other than the one that is relinked. */
  lemma KeptPointer(g: Geo, d: Disk, on: set<Node>, m: nat, f: nat, c: nat, x: Node)
    requires Ready(g, d, on, m, f) && Placed(g, on, x) && x != Data(m)
    ensures Slice(Finished(g, d, on, m, f, c), Addr(g, d, x), 32) == Blk(g, d, x)
    ensures Slice(Copied(g, d, on, m, f), Addr(g, d, x), 32) == Blk(g, d, x)
  {
    Facts(g, d, on, m, f);
    AddrPlace(g, d, on, x);
    var s, off := Place(g, d, x), Addr(g, d, x);
    AddrApart(g, d, on, x, Data(m));
    LinkMisses(g, d, on, m, f, off, 32, s);
    NotABitmap(g, d, on, f, x);
    MarkMisses(g, d, f, 1, Dec(FreeCount(g, d, Group(g, f))), off, 32, s);
    MarkMisses(g, d, Old(g, d, m), 0, c, off, 32, s);
    Kept(g, d, on, m, f, c, off, 32, s);
  }

  lemma NotABitmap(g: Geo, d: Disk, on: set<Node>, f: nat, x: Node)
    requires FileOn(g, d, on) && Available(g, d, f) && Placed(g, on, x)
    ensures var s := Place(g, d, x);
            s != Descs && s != Block(f) && forall grp :: 0 <= grp < Groups(g) ==> s != Block(BmpBlock(g, d, grp))
  {
    AddrPlace(g, d, on, x);
    if !InInode(x) {
      var p := Parent(g, x);
      assert DataBlock(g, d, Blk(g, d, p)) && Used(g, d, Blk(g, d, p));
    }
  }

  /** The pointer that is relinked, before and after. */
  lemma Relinked(g: Geo, d: Disk, on: set<Node>, m: nat, f: nat, c: nat)
    requires Ready(g, d, on, m, f)
    ensures Slice(Finished(g, d, on, m, f, c), Addr(g, d, Data(m)), 32) == f
    ensures Slice(Copied(g, d, on, m, f), Addr(g, d, Data(m)), 32) == Old(g, d, m)
  {
    Facts(g, d, on, m, f);
    var x := Data(m);
    AddrPlace(g, d, on, x);
    var s, off, b := Place(g, d, x), Addr(g, d, x), Old(g, d, m);
    NotABitmap(g, d, on, f, x);
    MarkMisses(g, d, f, 1, Dec(FreeCount(g, d, Group(g, f))), off, 32, s);
    MarkMisses(g, d, b, 0, c, off, 32, s);
    LinkSupported(g, d, on, m, f);
    MarkSupported(g, d, f, 1, Dec(FreeCount(g, d, Group(g, f))));
    MarkSupported(g, d, b, 0, c);
    CopyMisses(g, |d|, f, off, 32, s);
    ApplyFrame(d, AllocEs(g, d, f), off, 32);
    CopyField(Apply(d, AllocEs(g, d, f)), BlkByte(g, f), BlkByte(g, b), g.bs, off, 32);
    var d2 := Copied(g, d, on, m, f);
    ApplyField(d2, LinkEs(g, d, m, f), 0);
    Pow2Values();
    LowFits(f, 32);
    ApplyFrame(Apply(d2, LinkEs(g, d, m, f)), MarkEs(g, d, b, 0, c), off, 32);
  }

  /** Relocation is a map update: block m becomes f and every other block of the file,
      pointer blocks included, stays. */
  lemma {:induction false} FinishedBlk(g: Geo, d: Disk, on: set<Node>, m: nat, f: nat, c: nat, x: Node)
    requires Ready(g, d, on, m, f) && Placed(g, on, x)
    ensures Blk(g, Finished(g, d, on, m, f, c), x) == if x == Data(m) then f else Blk(g, d, x)
    ensures Addr(g, Finished(g, d, on, m, f, c), x) == Addr(g, d, x)
    decreases Depth(x)
  {
    if !InInode(x) {
      FinishedBlk(g, d, on, m, f, c, Parent(g, x));
    }
    if x == Data(m) { Relinked(g, d, on, m, f, c); } else { KeptPointer(g, d, on, m, f, c, x); }
  }

  /** Allocation and copy leave the block map as it was. */
  lemma {:induction false} CopiedBlk(g: Geo, d: Disk, on: set<Node>, m: nat, f: nat, x: Node)
    requires Ready(g, d, on, m, f) && Placed(g, on, x)
    ensures Blk(g, Copied(g, d, on, m, f), x) == Blk(g, d, x)
    ensures Addr(g, Copied(g, d, on, m, f), x) == Addr(g, d, x)
    decreases Depth(x)
  {
    if !InInode(x) {
      CopiedBlk(g, d, on, m, f, Parent(g, x));
    }
    if x == Data(m) { Relinked(g, d, on, m, f, 0); } else { KeptPointer(g, d, on, m, f, 0, x); }
  }

  // ----- group descriptors -----

  lemma DescApart(g: Geo, a: nat, b: nat, c: nat)
    ensures Misses(CntWrite(g, a, c), BmpField(g, b), 32)
    ensures a != b ==> Misses(CntWrite(g, a, c), CntField(g, b), 16)
  {
    if a < b { assert 256 * a + 256 <= 256 * b; } else if b < a { assert 256 * b + 256 <= 256 * a; }
  }

  /** The bitmaps stay where they are. */
  lemma KeptBmp(g: Geo, d: Disk, on: set<Node>, m: nat, f: nat, c: nat, grp: nat)
    requires Ready(g, d, on, m, f) && grp < Groups(g)
    ensures BmpBlock(g, Finished(g, d, on, m, f, c), grp) == BmpBlock(g, d, grp)
    ensures BmpBlock(g, Copied(g, d, on, m, f), grp) == BmpBlock(g, d, grp)
  {
    Facts(g, d, on, m, f);
    var off, b := BmpField(g, grp), Old(g, d, m);
    DescPlace(g, |d|, grp);
    DescApart(g, Group(g, f), grp, Dec(FreeCount(g, d, Group(g, f))));
    DescApart(g, Group(g, b), grp, c);
    AddrPlace(g, d, on, Data(m));
    MarkMisses(g, d, f, 1, Dec(FreeCount(g, d, Group(g, f))), off, 32, Descs);
    MarkMisses(g, d, b, 0, c, off, 32, Descs);
    LinkMisses(g, d, on, m, f, off, 32, Descs);
    Kept(g, d, on, m, f, c, off, 32, Descs);
  }

  /** A count of a group that neither block belongs to. */
  lemma OtherCount(g: Geo, d: Disk, on: set<Node>, m: nat, f: nat, c: nat, grp: nat)
    requires Ready(g, d, on, m, f) && grp < Groups(g) && grp != Group(g, f) && grp != Group(g, Old(g, d, m))
    ensures FreeCount(g, Finished(g, d, on, m, f, c), grp) == FreeCount(g, d, grp)
  {
    Facts(g, d, on, m, f);
    var off, b := CntField(g, grp), Old(g, d, m);
    DescPlace(g, |d|, grp);
    AddrPlace(g, d, on, Data(m));
    MarkMisses(g, d, f, 1, Dec(FreeCount(g, d, Group(g, f))), off, 16, Descs);
    MarkMisses(g, d, b, 0, c, off, 16, Descs);
    LinkMisses(g, d, on, m, f, off, 16, Descs);
    Kept(g, d, on, m, f, c, off, 16, Descs);
  }

  /** The counts on the disk after allocation and copy. */
  lemma CopiedCount(g: Geo, d: Disk, on: set<Node>, m: nat, f: nat, grp: nat)
    requires Ready(g, d, on, m, f) && grp < Groups(g)
    ensures FreeCount(g, Copied(g, d, on, m, f), grp) ==
            if grp == Group(g, f) then Low(Dec(FreeCount(g, d, grp)), 16) else FreeCount(g, d, grp)
  {
    Facts(g, d, on, m, f);
    var off, b, es := CntField(g, grp), Old(g, d, m), AllocEs(g, d, f);
    DescPlace(g, |d|, grp);
    MarkSupported(g, d, f, 1, Dec(FreeCount(g, d, Group(g, f))));
    CopyMisses(g, |d|, f, off, 16, Descs);
    if grp == Group(g, f) {
      ApplyField(d, es, 1);
    } else {
      MarkMisses(g, d, f, 1, Dec(FreeCount(g, d, Group(g, f))), off, 16, Descs);
      ApplyFrame(d, es, off, 16);
    }
    CopyField(Apply(d, es), BlkByte(g, f), BlkByte(g, b), g.bs, off, 16);
  }

  /** The counts of the two groups at the end. */
  lemma OwnCount(g: Geo, d: Disk, on: set<Node>, m: nat, f: nat, c: nat)
    requires Ready(g, d, on, m, f)
    ensures var d', gf, go := Finished(g, d, on, m, f, c), Group(g, f), Group(g, Old(g, d, m));
            && FreeCount(g, d', go) == Low(c, 16)
            && (gf != go ==> FreeCount(g, d', gf) == Low(Dec(FreeCount(g, d, gf)), 16))
  {
    Facts(g, d, on, m, f);
    var b, d2 := Old(g, d, m), Copied(g, d, on, m, f);
    var gf, go := Group(g, f), Group(g, b);
    var link, repl := LinkEs(g, d, m, f), MarkEs(g, d, b, 0, c);
    LinkSupported(g, d, on, m, f);
    MarkSupported(g, d, f, 1, Dec(FreeCount(g, d, Group(g, f))));
    MarkSupported(g, d, b, 0, c);
    ApplyField(Apply(d2, link), repl, 1);
    if gf != go {
      var off := CntField(g, gf);
      CopiedCount(g, d, on, m, f, gf);
      DescPlace(g, |d|, gf);
      AddrPlace(g, d, on, Data(m));
      LinkMisses(g, d, on, m, f, off, 16, Descs);
      MarkMisses(g, d, b, 0, c, off, 16, Descs);
      ApplyFrame(d2, link, off, 16);
      ApplyFrame(Apply(d2, link), repl, off, 16);
    }
  }

  // ----- bitmaps -----

  lemma OneBit(d: Disk, i: nat)
    ensures Slice(d, i, 1) == Bit(d, i)
  {
    assert Slice(d, i + 1, 0) == 0;
  }

  /** The two entries of a mark do not overlap. */
  lemma MarkApart(g: Geo, d: Disk, b: nat, v: nat, c: nat)
    requires ValidGeo(g, |d|) && Bitmaps(g, d) && 1 <= b < g.total
    ensures Disjoint(MarkEs(g, d, b, v, c)[0], MarkEs(g, d, b, v, c)[1])
  {
    GroupBound(g, b);
    BitPlace(g, d, Group(g, b), Idx(g, b));
    DescPlace(g, |d|, Group(g, b));
    RegionsApart(g, |d|, Block(BmpBlock(g, d, Group(g, b))), Descs);
  }

  /** Different bits of the bitmaps have different addresses. */
  lemma BitsApart(g: Geo, d: Disk, a: nat, j: nat, b: nat, k: nat)
    requires ValidGeo(g, |d|) && Bitmaps(g, d) && a < Groups(g) && b < Groups(g) && j < g.bpg && k < g.bpg
    requires a != b || j != k
    ensures BmpBit(g, d, a, j) != BmpBit(g, d, b, k)
  {
    BitPlace(g, d, a, j);
    BitPlace(g, d, b, k);
    if a != b {
      assert BmpBlock(g, d, a) != BmpBlock(g, d, b) by {
        var x, y := if a < b then a else b, if a < b then b else a;
        assert BmpBlock(g, d, x) != BmpBlock(g, d, y);
      }
      RegionsApart(g, |d|, Block(BmpBlock(g, d, a)), Block(BmpBlock(g, d, b)));
    }
  }

  /** A bitmap is neither the target nor holds the relinked pointer. */
  lemma BmpElsewhere(g: Geo, d: Disk, on: set<Node>, m: nat, f: nat, grp: nat, off: nat, w: nat)
    requires Ready(g, d, on, m, f) && grp < Groups(g) && Inside(g, off, w, Block(BmpBlock(g, d, grp)))
    ensures Good(g, Block(BmpBlock(g, d, grp))) && BmpBlock(g, d, grp) != f
    ensures AllMiss(LinkEs(g, d, m, f), off, w)
    ensures off + w <= 8 * BlkByte(g, f) || 8 * (BlkByte(g, f) + g.bs) <= off
  {
    var s := Block(BmpBlock(g, d, grp));
    NotABitmap(g, d, on, f, Data(m));
    LinkMisses(g, d, on, m, f, off, w, s);
    CopyMisses(g, |d|, f, off, w, s);
  }

  lemma MarkMissesBit(g: Geo, d: Disk, b: nat, v: nat, c: nat, grp: nat, idx: nat)
    requires ValidGeo(g, |d|) && Bitmaps(g, d) && 1 <= b < g.total && grp < Groups(g) && idx < g.bpg
    requires grp != Group(g, b) || idx != Idx(g, b)
    ensures AllMiss(MarkEs(g, d, b, v, c), BmpBit(g, d, grp, idx), 1)
  {
    GroupBound(g, b);
    BitPlace(g, d, grp, idx);
    BitsApart(g, d, grp, idx, Group(g, b), Idx(g, b));
    MarkMisses(g, d, b, v, c, BmpBit(g, d, grp, idx), 1, Block(BmpBlock(g, d, grp)));
  }

  /** A bit of neither block. */
  lemma OtherBit(g: Geo, d: Disk, on: set<Node>, m: nat, f: nat, c: nat, grp: nat, idx: nat)
    requires Ready(g, d, on, m, f) && grp < Groups(g) && idx < g.bpg
    requires grp != Group(g, f) || idx != Idx(g, f)
    requires grp != Group(g, Old(g, d, m)) || idx != Idx(g, Old(g, d, m))
    ensures Bit(Finished(g, d, on, m, f, c), BmpBit(g, d, grp, idx)) == Bit(d, BmpBit(g, d, grp, idx))
  {
    Facts(g, d, on, m, f);
    var i := BmpBit(g, d, grp, idx);
    BitPlace(g, d, grp, idx);
    BmpElsewhere(g, d, on, m, f, grp, i, 1);
    MarkMissesBit(g, d, f, 1, Dec(FreeCount(g, d, Group(g, f))), grp, idx);
    MarkMissesBit(g, d, Old(g, d, m), 0, c, grp, idx);
    Kept(g, d, on, m, f, c, i, 1, Block(BmpBlock(g, d, grp)));
    OneBit(d, i);
    OneBit(Finished(g, d, on, m, f, c), i);
  }

  /** The bit of the old block. */
  lemma FreedBit(g: Geo, d: Disk, on: set<Node>, m: nat, f: nat, c: nat)
    requires Ready(g, d, on, m, f)
    ensures Bit(Finished(g, d, on, m, f, c), BitAddr(g, d, Old(g, d, m))) == 0
  {
    Facts(g, d, on, m, f);
    var b := Old(g, d, m);
    LinkSupported(g, d, on, m, f);
    MarkSupported(g, d, b, 0, c);
    MarkApart(g, d, b, 0, c);
    var d3 := Apply(Copied(g, d, on, m, f), LinkEs(g, d, m, f));
    ApplyField(d3, MarkEs(g, d, b, 0, c), 0);
    LowZero(1);
    OneBit(Finished(g, d, on, m, f, c), BitAddr(g, d, b));
  }

  /** The bit of the new block. */
  lemma TakenBit(g: Geo, d: Disk, on: set<Node>, m: nat, f: nat, c: nat)
    requires Ready(g, d, on, m, f)
    ensures Bit(Finished(g, d, on, m, f, c), BitAddr(g, d, f)) == 1
  {
    Facts(g, d, on, m, f);
    var b, es, i := Old(g, d, m), AllocEs(g, d, f), BitAddr(g, d, f);
    LinkSupported(g, d, on, m, f);
    MarkSupported(g, d, f, 1, Dec(FreeCount(g, d, Group(g, f))));
    MarkSupported(g, d, b, 0, c);
    MarkApart(g, d, f, 1, Dec(FreeCount(g, d, Group(g, f))));
    ApplyField(d, es, 0);
    assert Low(1, 1) == 1;
    GroupInjective(g, f, b);
    BitPlace(g, d, Group(g, f), Idx(g, f));
    BmpElsewhere(g, d, on, m, f, Group(g, f), i, 1);
    MarkMissesBit(g, d, b, 0, c, Group(g, f), Idx(g, f));
    LaterKept(Apply(d, es), BlkByte(g, f), BlkByte(g, b), g.bs, LinkEs(g, d, m, f), MarkEs(g, d, b, 0, c), i, 1);
    OneBit(Finished(g, d, on, m, f, c), i);
  }

  /** Block bitmaps after the move: f is used, the old block is free, nothing else changes. */
  lemma FinishedUsed(g: Geo, d: Disk, on: set<Node>, m: nat, f: nat, c: nat, b: nat)
    requires Ready(g, d, on, m, f) && 1 <= b < g.total
    ensures Used(g, Finished(g, d, on, m, f, c), b) <==> (b == f || (b != Old(g, d, m) && Used(g, d, b)))
  {
    Facts(g, d, on, m, f);
    GroupBound(g, b);
    SameBmpBit(g, d, on, m, f, c, Group(g, b), Idx(g, b));
    FinishedBit(g, d, on, m, f, c, Group(g, b), Idx(g, b));
    if b != f { GroupInjective(g, b, f); }
    if b != Old(g, d, m) { GroupInjective(g, b, Old(g, d, m)); }
  }

  lemma FinishedData(g: Geo, d: Disk, on: set<Node>, m: nat, f: nat, c: nat, b: nat)
    requires Ready(g, d, on, m, f) && DataBlock(g, d, b)
    ensures DataBlock(g, Finished(g, d, on, m, f, c), b)
  {
    forall grp | 0 <= grp < Groups(g) ensures BmpBlock(g, Finished(g, d, on, m, f, c), grp) != b {
      KeptBmp(g, d, on, m, f, c, grp);
      assert BmpBlock(g, d, grp) != b;
    }
  }

  lemma FinishedBitmaps(g: Geo, d: Disk, on: set<Node>, m: nat, f: nat, c: nat)
    requires Ready(g, d, on, m, f)
    ensures Bitmaps(g, Finished(g, d, on, m, f, c))
  {
    var d' := Finished(g, d, on, m, f, c);
    forall grp | 0 <= grp < Groups(g) ensures BmpBlock(g, d', grp) == BmpBlock(g, d, grp) {
      KeptBmp(g, d, on, m, f, c, grp);
    }
  }

  /** After the move the file is a file again. */
  lemma MovedFile(g: Geo, d: Disk, on: set<Node>, m: nat, f: nat)
    requires Ready(g, d, on, m, f)
    ensures FileOn(g, MovedDisk(g, d, on, m, f), on)
  {
    var c := NewCount(g, d, on, m, f);
    var d' := MovedDisk(g, d, on, m, f);
    FinishedBitmaps(g, d, on, m, f, c);
    forall x | x in on ensures HasBlock(g, d', on, x) {
      FinishedNode(g, d, on, m, f, c, x);
    }
    forall x, y | x in on && y in on && x != y ensures Blk(g, d', x) != Blk(g, d', y) {
      FinishedNode(g, d, on, m, f, c, x);
      FinishedNode(g, d, on, m, f, c, y);
      assert Blk(g, d, x) != Blk(g, d, y);
    }
  }

  /** The block map after the move: block m is f and every other block is what it was. */
  lemma MovedBlk(g: Geo, d: Disk, on: set<Node>, m: nat, f: nat, x: Node)
    requires Ready(g, d, on, m, f) && Placed(g, on, x)
    ensures Blk(g, MovedDisk(g, d, on, m, f), x) == if x == Data(m) then f else Blk(g, d, x)
  {
    FinishedBlk(g, d, on, m, f, NewCount(g, d, on, m, f), x);
  }

  lemma FinishedNode(g: Geo, d: Disk, on: set<Node>, m: nat, f: nat, c: nat, x: Node)
    requires Ready(g, d, on, m, f) && x in on
    ensures var d' := Finished(g, d, on, m, f, c);
            && Blk(g, d', x) == (if x == Data(m) then f else Blk(g, d, x))
            && HasBlock(g, d', on, x) && Blk(g, d, x) != f
  {
    var b := if x == Data(m) then f else Blk(g, d, x);
    assert HasBlock(g, d, on, Data(m)) && HasBlock(g, d, on, x);
    FinishedBlk(g, d, on, m, f, c, x);
    FinishedData(g, d, on, m, f, c, b);
    FinishedUsed(g, d, on, m, f, c, b);
  }

  // ----- free counts -----

  /** The zero bits of a group's bitmap. */
  ghost function FreeIdx(g: Geo, d: Disk, grp: nat): set<nat> {
    set i: nat | 0 <= i < g.bpg && Bit(d, BmpBit(g, d, grp, i)) == 0
  }

  /** Every count is the number of zero bits. */
  ghost predicate Counted(g: Geo, d: Disk) requires g.bpg > 0 {
    forall grp :: 0 <= grp < Groups(g) ==> FreeCount(g, d, grp) == |FreeIdx(g, d, grp)|
  }

  lemma FreeFew(g: Geo, d: Disk, grp: nat)
    ensures |FreeIdx(g, d, grp)| <= g.bpg
  {
    SetBelow(FreeIdx(g, d, grp), g.bpg);
  }

  /** The zero bits after the move. */
  lemma FinishedFree(g: Geo, d: Disk, on: set<Node>, m: nat, f: nat, c: nat, grp: nat)
    requires Ready(g, d, on, m, f) && grp < Groups(g)
    ensures var b := Old(g, d, m);
            FreeIdx(g, Finished(g, d, on, m, f, c), grp) ==
            FreeIdx(g, d, grp) - (if grp == Group(g, f) then {Idx(g, f)} else {})
                               + (if grp == Group(g, b) then {Idx(g, b)} else {})
  {
    var b := Old(g, d, m);
    var removed := if grp == Group(g, f) then {Idx(g, f)} else {};
    var added := if grp == Group(g, b) then {Idx(g, b)} else {};
    var was, now := FreeIdx(g, d, grp), FreeIdx(g, Finished(g, d, on, m, f, c), grp);
    forall i: nat ensures i in now <==> i in was - removed + added {
      FinishedFreeAt(g, d, on, m, f, c, grp, i);
    }
  }

  lemma FinishedFreeAt(g: Geo, d: Disk, on: set<Node>, m: nat, f: nat, c: nat, grp: nat, i: nat)
    requires Ready(g, d, on, m, f) && grp < Groups(g)
    ensures var b := Old(g, d, m);
            i in FreeIdx(g, Finished(g, d, on, m, f, c), grp) <==>
            (grp == Group(g, b) && i == Idx(g, b)) ||
            (i in FreeIdx(g, d, grp) && !(grp == Group(g, f) && i == Idx(g, f)))
  {
    Facts(g, d, on, m, f);
    SameBmpBit(g, d, on, m, f, c, grp, i);
    if i < g.bpg { FinishedBit(g, d, on, m, f, c, grp, i); }
  }

  lemma SameBmpBit(g: Geo, d: Disk, on: set<Node>, m: nat, f: nat, c: nat, grp: nat, i: nat)
    requires Ready(g, d, on, m, f) && grp < Groups(g)
    ensures BmpBit(g, Finished(g, d, on, m, f, c), grp, i) == BmpBit(g, d, grp, i)
  {
    KeptBmp(g, d, on, m, f, c, grp);
  }

  /** A bit of a bitmap after the move. */
  lemma FinishedBit(g: Geo, d: Disk, on: set<Node>, m: nat, f: nat, c: nat, grp: nat, i: nat)
    requires Ready(g, d, on, m, f) && grp < Groups(g) && i < g.bpg
    ensures var d', b := Finished(g, d, on, m, f, c), Old(g, d, m);
            Bit(d', BmpBit(g, d, grp, i)) ==
            if grp == Group(g, b) && i == Idx(g, b) then 0
            else if grp == Group(g, f) && i == Idx(g, f) then 1
            else Bit(d, BmpBit(g, d, grp, i))
  {
    var b := Old(g, d, m);
    if grp == Group(g, b) && i == Idx(g, b) {
      FreedBit(g, d, on, m, f, c);
    } else if grp == Group(g, f) && i == Idx(g, f) {
      TakenBit(g, d, on, m, f, c);
    } else {
      OtherBit(g, d, on, m, f, c, grp, i);
    }
  }

  /** How many zero bits each group has after the move. */
  lemma FinishedFreeSize(g: Geo, d: Disk, on: set<Node>, m: nat, f: nat, c: nat, grp: nat)
    requires Ready(g, d, on, m, f) && grp < Groups(g)
    ensures grp == Group(g, f) ==> |FreeIdx(g, d, grp)| >= 1
    ensures |FreeIdx(g, Finished(g, d, on, m, f, c), grp)| ==
            |FreeIdx(g, d, grp)| - (if grp == Group(g, f) then 1 else 0)
                                 + (if grp == Group(g, Old(g, d, m)) then 1 else 0)
  {
    FinishedFree(g, d, on, m, f, c, grp);
    Facts(g, d, on, m, f);
    var free, b := FreeIdx(g, d, grp), Old(g, d, m);
    if grp == Group(g, f) { assert Idx(g, f) in free; assert |free - {Idx(g, f)}| == |free| - 1; }
    if grp == Group(g, b) { assert Idx(g, b) !in free; }
  }

  /** The counts after the move, for a replace packet that writes count c. */
  lemma FinishedCounted(g: Geo, d: Disk, on: set<Node>, m: nat, f: nat, c: nat)
    requires Ready(g, d, on, m, f) && Counted(g, d) && c < 65536
    ensures Counted(g, Finished(g, d, on, m, f, c)) <==>
            c == FreeCount(g, d, Group(g, Old(g, d, m))) + (if Group(g, f) == Group(g, Old(g, d, m)) then 0 else 1)
  {
    var d', gf, go := Finished(g, d, on, m, f, c), Group(g, f), Group(g, Old(g, d, m));
    Facts(g, d, on, m, f);
    forall grp | 0 <= grp < Groups(g) && grp != go ensures FreeCount(g, d', grp) == |FreeIdx(g, d', grp)| {
      CountOff(g, d, on, m, f, c, grp);
    }
    FinishedFreeSize(g, d, on, m, f, c, go);
    OwnCount(g, d, on, m, f, c);
    Pow2Values();
    LowFits(c, 16);
  }

  /** A group other than that of the old block. */
  lemma CountOff(g: Geo, d: Disk, on: set<Node>, m: nat, f: nat, c: nat, grp: nat)
    requires Ready(g, d, on, m, f) && Counted(g, d) && grp < Groups(g) && grp != Group(g, Old(g, d, m))
    ensures var d' := Finished(g, d, on, m, f, c); FreeCount(g, d', grp) == |FreeIdx(g, d', grp)|
  {
    FinishedFreeSize(g, d, on, m, f, c, grp);
    if grp == Group(g, f) {
      OwnCount(g, d, on, m, f, c);
      FreeFew(g, d, grp);
      Pow2Values();
      LowFits(FreeCount(g, d, grp) - 1, 16);
    } else {
      OtherCount(g, d, on, m, f, c, grp);
    }
  }

  /** The group of the old block is not all free. */
  lemma OldUsed(g: Geo, d: Disk, on: set<Node>, m: nat, f: nat)
    requires Ready(g, d, on, m, f) && Counted(g, d)
    ensures FreeCount(g, d, Group(g, Old(g, d, m))) + 1 < 65536
  {
    Facts(g, d, on, m, f);
    var b := Old(g, d, m);
    var free := FreeIdx(g, d, Group(g, b));
    assert Idx(g, b) !in free;
    SetBelow(free + {Idx(g, b)}, g.bpg);
  }

  /** The count that the replace packet computes on the staged disk. */
  lemma ReplaceCount(g: Geo, d: Disk, on: set<Node>, m: nat, f: nat)
    requires Ready(g, d, on, m, f) && Counted(g, d)
    ensures var go := Group(g, Old(g, d, m));
            var c := NewCount(g, d, on, m, f);
            c == FreeCount(g, d, go) + (if Group(g, f) == go then 0 else 1) && c < 65536
  {
    Facts(g, d, on, m, f);
    var go := Group(g, Old(g, d, m));
    CopiedCount(g, d, on, m, f, go);
    FinishedFreeSize(g, d, on, m, f, 0, go);
    OldUsed(g, d, on, m, f);
    if Group(g, f) == go { Decremented(FreeCount(g, d, go)); }
  }

  lemma Decremented(c: nat)
    requires 1 <= c < 65536
    ensures Low(Dec(c), 16) + 1 == c
  {
    Pow2Values();
    LowFits(c - 1, 16);
  }

  /** Relocation keeps every group's count equal to its number of zero bits, also when both
      blocks are in one group. */
  lemma MovedCounted(g: Geo, d: Disk, on: set<Node>, m: nat, f: nat)
    requires Ready(g, d, on, m, f) && Counted(g, d)
    ensures Counted(g, MovedDisk(g, d, on, m, f))
  {
    ReplaceCount(g, d, on, m, f);
    FinishedCounted(g, d, on, m, f, NewCount(g, d, on, m, f));
  }

  /** Had the replace packet been computed before the allocation was committed, the counts
      would be right exactly when the two blocks are in different groups. */
  lemma AllocMustCommitFirst(g: Geo, d: Disk, on: set<Node>, m: nat, f: nat)
    requires Ready(g, d, on, m, f) && Counted(g, d)
    ensures Counted(g, Finished(g, d, on, m, f, FreeCount(g, d, Group(g, Old(g, d, m))) + 1)) <==>
            Group(g, f) != Group(g, Old(g, d, m))
  {
    OldUsed(g, d, on, m, f);
    FinishedCounted(g, d, on, m, f, FreeCount(g, d, Group(g, Old(g, d, m))) + 1);
  }

  /** The sum of the counts of the first k groups. */
  ghost function TotalFree(g: Geo, d: Disk, k: nat): nat {
    if k == 0 then 0 else TotalFree(g, d, k - 1) + FreeCount(g, d, k - 1)
  }

  function One(b: bool): nat { if b then 1 else 0 }

  /** One group counts one less and one group one more. */
  lemma {:induction false} TotalStep(g: Geo, d: Disk, d': Disk, gf: nat, go: nat, k: nat)
    requires forall grp: nat :: grp < k ==>
               FreeCount(g, d', grp) + One(grp == gf) == FreeCount(g, d, grp) + One(grp == go)
    ensures TotalFree(g, d', k) + One(gf < k) == TotalFree(g, d, k) + One(go < k)
  {
    if k > 0 { TotalStep(g, d, d', gf, go, k - 1); }
  }

  /** The count of one group. */
  lemma MovedCount(g: Geo, d: Disk, on: set<Node>, m: nat, f: nat, grp: nat)
    requires Ready(g, d, on, m, f) && Counted(g, d) && grp < Groups(g)
    ensures FreeCount(g, MovedDisk(g, d, on, m, f), grp) ==
            FreeCount(g, d, grp) - One(grp == Group(g, f)) + One(grp == Group(g, Old(g, d, m)))
  {
    MovedCounted(g, d, on, m, f);
    FinishedFreeSize(g, d, on, m, f, NewCount(g, d, on, m, f), grp);
  }

  /** The total free count is conserved. */
  lemma MovedTotal(g: Geo, d: Disk, on: set<Node>, m: nat, f: nat)
    requires Ready(g, d, on, m, f) && Counted(g, d)
    ensures TotalFree(g, MovedDisk(g, d, on, m, f), Groups(g)) == TotalFree(g, d, Groups(g))
  {
    Facts(g, d, on, m, f);
    var d', gf, go := MovedDisk(g, d, on, m, f), Group(g, f), Group(g, Old(g, d, m));
    forall grp: nat | grp < Groups(g)
      ensures FreeCount(g, d', grp) + One(grp == gf) == FreeCount(g, d, grp) + One(grp == go)
    {
      MovedCount(g, d, on, m, f, grp);
    }
    TotalStep(g, d, d', gf, go, Groups(g));
  }

  // ----- contents -----

  /** The marks and the link leave a block alone that is neither a bitmap nor holds the pointer. */
  lemma BlockMissed(g: Geo, d: Disk, on: set<Node>, m: nat, f: nat, c: nat, b: nat)
    requires Ready(g, d, on, m, f) && DataBlock(g, d, b) && Place(g, d, Data(m)) != Block(b)
    ensures var off, w := 8 * BlkByte(g, b), 8 * g.bs;
            && AllMiss(AllocEs(g, d, f), off, w) && AllMiss(LinkEs(g, d, m, f), off, w)
            && AllMiss(MarkEs(g, d, Old(g, d, m), 0, c), off, w)
  {
    var off, w := 8 * BlkByte(g, b), 8 * g.bs;
    Facts(g, d, on, m, f);
    MarkMisses(g, d, f, 1, Dec(FreeCount(g, d, Group(g, f))), off, w, Block(b));
    MarkMisses(g, d, Old(g, d, m), 0, c, off, w, Block(b));
    LinkMisses(g, d, on, m, f, off, w, Block(b));
  }

  /** A block of the file, data or pointers, whose pointer block is not a data block. */
  lemma NotAParent(g: Geo, d: Disk, on: set<Node>, m: nat, f: nat, k: nat)
    requires Ready(g, d, on, m, f) && Data(k) in on
    ensures Place(g, d, Data(m)) != Block(Blk(g, d, Data(k))) && Place(g, d, Data(m)) != Block(f)
  {
    var x := Data(m);
    NotABitmap(g, d, on, f, x);
    AddrPlace(g, d, on, x);
    if !InInode(x) {
      assert Parent(g, x) != Data(k) && HasBlock(g, d, on, Parent(g, x));
    }
  }

  /** Block b of disk d has the contents of block b' of disk d'. */
  ghost predicate SameBlock(g: Geo, d: Disk, b: nat, d': Disk, b': nat) {
    && BlkByte(g, b) + g.bs <= |d| && BlkByte(g, b') + g.bs <= |d'|
    && d[BlkByte(g, b)..BlkByte(g, b) + g.bs] == d'[BlkByte(g, b')..BlkByte(g, b') + g.bs]
  }

  /** The moved block. The byte addresses are parameters. */
  lemma FinishedBytes(g: Geo, d: Disk, on: set<Node>, m: nat, f: nat, c: nat, src: nat, dst: nat)
    requires Ready(g, d, on, m, f) && src == BlkByte(g, Old(g, d, m)) && dst == BlkByte(g, f)
    ensures SameBlock(g, Finished(g, d, on, m, f, c), f, d, Old(g, d, m))
  {
    Facts(g, d, on, m, f);
    NotAParent(g, d, on, m, f, m);
    BlockMissed(g, d, on, m, f, c, Old(g, d, m));
    BlockMissed(g, d, on, m, f, c, f);
    BytesCopied(g, d, on, m, f, c, src, dst);
    BlockBytes(g, Finished(g, d, on, m, f, c), f, d, Old(g, d, m), dst, src);
  }

  lemma BlockBytes(g: Geo, d: Disk, b: nat, d': Disk, b': nat, a: nat, a': nat)
    requires a == BlkByte(g, b) && a' == BlkByte(g, b') && a + g.bs <= |d| && a' + g.bs <= |d'|
    requires d[a..a + g.bs] == d'[a'..a' + g.bs]
    ensures SameBlock(g, d, b, d', b')
  {
  }

  lemma AllSupportedHere(g: Geo, d: Disk, on: set<Node>, m: nat, f: nat, c: nat)
    requires Ready(g, d, on, m, f)
    ensures AllSupported(AllocEs(g, d, f), |d|) && AllSupported(LinkEs(g, d, m, f), |d|)
    ensures AllSupported(MarkEs(g, d, Old(g, d, m), 0, c), |d|)
    ensures BlkByte(g, f) + g.bs <= |d| && BlkByte(g, Old(g, d, m)) + g.bs <= |d|
  {
    Facts(g, d, on, m, f);
    LinkSupported(g, d, on, m, f);
    MarkSupported(g, d, f, 1, Dec(FreeCount(g, d, Group(g, f))));
    MarkSupported(g, d, Old(g, d, m), 0, c);
  }

  lemma BytesCopied(g: Geo, d: Disk, on: set<Node>, m: nat, f: nat, c: nat, src: nat, dst: nat)
    requires Ready(g, d, on, m, f) && src == BlkByte(g, Old(g, d, m)) && dst == BlkByte(g, f)
    requires AllMiss(AllocEs(g, d, f), 8 * src, 8 * g.bs) && AllMiss(LinkEs(g, d, m, f), 8 * dst, 8 * g.bs)
    requires AllMiss(MarkEs(g, d, Old(g, d, m), 0, c), 8 * dst, 8 * g.bs)
    ensures src + g.bs <= |d| && dst + g.bs <= |d|
    ensures Finished(g, d, on, m, f, c)[dst..dst + g.bs] == d[src..src + g.bs]
  {
    AllSupportedHere(g, d, on, m, f, c);
    ThroughCopied(d, Finished(g, d, on, m, f, c), AllocEs(g, d, f), dst, src, g.bs, LinkEs(g, d, m, f),
        MarkEs(g, d, Old(g, d, m), 0, c));
  }

  lemma ThroughCopied(d: Disk, d': Disk, alloc: seq<Entry>, dst: nat, src: nat, n: nat, link: seq<Entry>,
                      repl: seq<Entry>)
    requires AllSupported(alloc, |d|) && AllSupported(link, |d|) && AllSupported(repl, |d|)
    requires dst + n <= |d| && src + n <= |d| && d' == Through(d, alloc, dst, src, n, link, repl)
    requires AllMiss(alloc, 8 * src, 8 * n) && AllMiss(link, 8 * dst, 8 * n) && AllMiss(repl, 8 * dst, 8 * n)
    ensures d'[dst..dst + n] == d[src..src + n]
  {
    CopiedThrough(d, alloc, dst, src, n, link, repl);
  }

  /** Any other block that is neither a bitmap nor the pointer block: the old copy, and the
      blocks of other files. */
  lemma OtherBytes(g: Geo, d: Disk, on: set<Node>, m: nat, f: nat, c: nat, b: nat, a: nat)
    requires Ready(g, d, on, m, f) && DataBlock(g, d, b) && b != f && Place(g, d, Data(m)) != Block(b)
    requires a == BlkByte(g, b)
    ensures SameBlock(g, Finished(g, d, on, m, f, c), b, d, b)
  {
    BlkInside(g, |d|, b);
    BlockMissed(g, d, on, m, f, c, b);
    if b < f { BlkOrder(g, b, f); } else { BlkOrder(g, f, b); }
    BytesKept(g, d, on, m, f, c, a, g.bs);
    BlockBytes(g, Finished(g, d, on, m, f, c), b, d, b, a, a);
  }

  lemma BytesKept(g: Geo, d: Disk, on: set<Node>, m: nat, f: nat, c: nat, a: nat, k: nat)
    requires Ready(g, d, on, m, f) && a + k <= |d| && (a + k <= BlkByte(g, f) || BlkByte(g, f) + g.bs <= a)
    requires AllMiss(AllocEs(g, d, f), 8 * a, 8 * k) && AllMiss(LinkEs(g, d, m, f), 8 * a, 8 * k)
    requires AllMiss(MarkEs(g, d, Old(g, d, m), 0, c), 8 * a, 8 * k)
    ensures Finished(g, d, on, m, f, c)[a..a + k] == d[a..a + k]
  {
    var x := Old(g, d, m);
    var src, dst := BlkByte(g, x), BlkByte(g, f);
    AllSupportedHere(g, d, on, m, f, c);
    BytesThrough(d, AllocEs(g, d, f), dst, src, g.bs, LinkEs(g, d, m, f), MarkEs(g, d, x, 0, c), a, k);
  }

  /** Every data block of the file has its old contents, at its new place. */
  lemma MovedContent(g: Geo, d: Disk, on: set<Node>, m: nat, f: nat, k: nat)
    requires Ready(g, d, on, m, f) && Data(k) in on
    ensures var d' := MovedDisk(g, d, on, m, f); SameBlock(g, d', Blk(g, d', Data(k)), d, Blk(g, d, Data(k)))
  {
    var c := NewCount(g, d, on, m, f);
    FinishedContent(g, d, on, m, f, c, k);
    FinishedBlk(g, d, on, m, f, c, Data(k));
  }

  lemma FinishedContent(g: Geo, d: Disk, on: set<Node>, m: nat, f: nat, c: nat, k: nat)
    requires Ready(g, d, on, m, f) && Data(k) in on
    ensures SameBlock(g, Finished(g, d, on, m, f, c), if k == m then f else Blk(g, d, Data(k)), d, Blk(g, d, Data(k)))
  {
    var b := Blk(g, d, Data(k));
    if k == m {
      FinishedBytes(g, d, on, m, f, c, BlkByte(g, b), BlkByte(g, f));
    } else {
      NotAParent(g, d, on, m, f, k);
      assert HasBlock(g, d, on, Data(k));
      OtherBytes(g, d, on, m, f, c, b, BlkByte(g, b));
    }
  }

  // ----- the protocol computes that disk -----

  lemma CopiedBitmaps(g: Geo, d: Disk, on: set<Node>, m: nat, f: nat)
    requires Ready(g, d, on, m, f)
    ensures Bitmaps(g, Copied(g, d, on, m, f))
    ensures var b := Old(g, d, m); BitAddr(g, Copied(g, d, on, m, f), b) == BitAddr(g, d, b)
  {
    var d2 := Copied(g, d, on, m, f);
    Facts(g, d, on, m, f);
    forall grp | 0 <= grp < Groups(g) ensures BmpBlock(g, d2, grp) == BmpBlock(g, d, grp) {
      KeptBmp(g, d, on, m, f, 0, grp);
    }
  }

  /** The first half of the transaction. */
  lemma StageIsCopied(g: Geo, d: Disk, on: set<Node>, m: nat, f: nat)
    requires Ready(g, d, on, m, f)
    ensures Stages(Ext2Reloc(g), Ext2Rank(), d, m + 1, f, Copied(g, d, on, m, f))
  {
    Facts(g, d, on, m, f);
    AllocWrites(g, d, f);
    MarkSupported(g, d, f, 1, Dec(FreeCount(g, d, Group(g, f))));
    WholeLines(AllocEs(g, d, f), d);
    RegionsApart(g, |d|, Block(Old(g, d, m)), Block(f));
  }

  /** The replace packet, computed on the staged disk. */
  lemma ReplaceOnStage(g: Geo, d: Disk, on: set<Node>, m: nat, f: nat)
    requires Ready(g, d, on, m, f)
    ensures Wellformed(Ext2Reloc(g), Ext2Rank())
    ensures var b, d2 := Old(g, d, m), Copied(g, d, on, m, f);
            ReplaceLog(Ext2Reloc(g), Ext2Rank(), d2, m + 1) == MarkEs(g, d, b, 0, FreeCount(g, d2, Group(g, b)) + 1)
  {
    Ext2Ranked(g);
    CopiedBlk(g, d, on, m, f, Data(m));
    CopiedBitmaps(g, d, on, m, f);
    AllocWrites(g, Copied(g, d, on, m, f), Old(g, d, m));
  }

  /** The relink packet, computed on the staged disk. */
  lemma RelinkOnStage(g: Geo, d: Disk, on: set<Node>, m: nat, f: nat)
    requires Ready(g, d, on, m, f)
    ensures Wellformed(Ext2Reloc(g), Ext2Rank())
    ensures RelinkLog(Ext2Reloc(g), Ext2Rank(), Copied(g, d, on, m, f), m + 1, f) == LinkEs(g, d, m, f)
  {
    Ext2Ranked(g);
    CopiedBlk(g, d, on, m, f, Data(m));
    RelinkWrites(g, Copied(g, d, on, m, f), m, f);
  }

  lemma LogsFit(g: Geo, d: Disk, on: set<Node>, m: nat, f: nat, c: nat)
    requires Ready(g, d, on, m, f)
    ensures var d2 := Copied(g, d, on, m, f);
            Loggable(LinkEs(g, d, m, f), d2) && Loggable(MarkEs(g, d, Old(g, d, m), 0, c), d2)
  {
    var b, d2 := Old(g, d, m), Copied(g, d, on, m, f);
    Facts(g, d, on, m, f);
    MarkSupported(g, d, b, 0, c);
    LinkSupported(g, d, on, m, f);
    WholeLines(LinkEs(g, d, m, f), d2);
    WholeLines(MarkEs(g, d, b, 0, c), d2);
  }

  lemma FinishedIs(g: Geo, d: Disk, on: set<Node>, m: nat, f: nat, c: nat)
    requires Ready(g, d, on, m, f)
    ensures var d2, link, repl := Copied(g, d, on, m, f), LinkEs(g, d, m, f), MarkEs(g, d, Old(g, d, m), 0, c);
            && AllSupported(link, |d|) && AllSupported(repl, |d|)
            && Finished(g, d, on, m, f, c) == Apply(Apply(d2, link), repl)
  {
    Facts(g, d, on, m, f);
    MarkSupported(g, d, Old(g, d, m), 0, c);
    LinkSupported(g, d, on, m, f);
  }

  /** The second half. */
  lemma LogsOnStage(g: Geo, d: Disk, on: set<Node>, m: nat, f: nat)
    requires Ready(g, d, on, m, f)
    ensures var b, d2 := Old(g, d, m), Copied(g, d, on, m, f);
            Logs(Ext2Reloc(g), Ext2Rank(), d2, m + 1, f, LinkEs(g, d, m, f),
                MarkEs(g, d, b, 0, NewCount(g, d, on, m, f)))
  {
    ReplaceOnStage(g, d, on, m, f);
    RelinkOnStage(g, d, on, m, f);
    LogsFit(g, d, on, m, f, NewCount(g, d, on, m, f));
  }

  /** The relocation protocol, run with the ext2 packets, gives that disk. */
  lemma RelocatedIsMoved(g: Geo, d: Disk, on: set<Node>, m: nat, f: nat)
    requires Ready(g, d, on, m, f)
    ensures CanRelocate(Ext2Reloc(g), Ext2Rank(), d, m + 1, f)
    ensures Relocated(Ext2Reloc(g), Ext2Rank(), d, m + 1, f) == MovedDisk(g, d, on, m, f)
  {
    var c := NewCount(g, d, on, m, f);
    StageIsCopied(g, d, on, m, f);
    LogsOnStage(g, d, on, m, f);
    FinishedIs(g, d, on, m, f, c);
    RelocatedBy(Ext2Reloc(g), Ext2Rank(), d, m + 1, f, Copied(g, d, on, m, f), LinkEs(g, d, m, f),
        MarkEs(g, d, Old(g, d, m), 0, c));
  }

  /** The rule "reloc" on a disk: data block m of the file goes to the available block f. */
  method RelocateBlock(io: Io, log: Log, g: Geo, ghost on: set<Node>, m: nat, f: nat)
    requires io.Valid() && log.Valid() && log.idx == -1 && Ready(g, io.file, on, m, f)
    modifies io, io.ents, log, log.ents
    ensures io.Valid() && log.Valid() && log.idx == -1
    ensures io.file == MovedDisk(g, old(io.file), on, m, f) && FileOn(g, io.file, on)
    ensures Counted(g, old(io.file)) ==> Counted(g, io.file)
    ensures forall k :: Data(k) in on ==>
              SameBlock(g, io.file, if k == m then f else Blk(g, old(io.file), Data(k)), old(io.file),
                  Blk(g, old(io.file), Data(k)))
  {
    ghost var d := io.file;
    assert HasBlock(g, d, on, Data(m));
    var b := GetNthBlknum(g, io.file, m);
    RelocatedIsMoved(g, d, on, m, f);
    WpktRelocate(io, log, Ext2Reloc(g), Ext2Rank(), b * g.bs, m + 1, f);
    MovedFile(g, d, on, m, f);
    if Counted(g, d) { MovedCounted(g, d, on, m, f); }
    forall k | Data(k) in on
      ensures SameBlock(g, io.file, if k == m then f else Blk(g, d, Data(k)), d, Blk(g, d, Data(k)))
    {
      FinishedContent(g, d, on, m, f, NewCount(g, d, on, m, f), k);
    }
  }
}
