/** The ext2 relocation rule for data blocks: block map, group bitmaps and free counts. */
module Ext2 {
  import opened Arith
  import opened Bits
  import opened Flat
  import opened Packets
  import opened Relocate

  const NDIR: nat := 12  // EXT2_NDIR_BLOCKS

  /** Block size, blocks per group, total blocks, and the byte addresses of the group
      descriptors and of an inode. */
  datatype Geo = Geo(bs: nat, bpg: nat, total: nat, gdt: nat, ino: nat)

  /** blocks_per_indir */
  function Bpi(g: Geo): nat { g.bs / 4 }

  /** bn2bmpidx followed by the "- 1" of blknum_to_grp and blknum_to_bmpidx. */
  function Zero(g: Geo, b: nat): nat { if g.bs > 1024 then b else if b > 0 then b - 1 else 0 }

  function Groups(g: Geo): nat
    requires g.bpg > 0
  {
    var blocks := if g.bs > 1024 then g.total else g.total - 1;
    if blocks > 0 then 1 + (blocks - 1) / g.bpg else 1
  }

  function Group(g: Geo, b: nat): nat requires g.bpg > 0 { Zero(g, b) / g.bpg }
  function Idx(g: Geo, b: nat): nat requires g.bpg > 0 { Zero(g, b) % g.bpg }

  function BlkByte(g: Geo, b: nat): nat { b * g.bs }

  predicate ValidGeo(g: Geo, len: nat) {
    && g.bs >= 1024 && g.bs % 32 == 0
    && 0 < g.bpg < 65536 && g.bpg <= 8 * g.bs
    && g.total >= 2 && BlkByte(g, g.total) <= len && len % 32 == 0 && g.total < 0x1_0000_0000
    && g.gdt + 32 * Groups(g) <= len && g.ino + 128 <= len
    && (g.ino + 128 <= g.gdt || g.gdt + 32 * Groups(g) <= g.ino)
  }

  lemma BlkOrder(g: Geo, a: nat, b: nat)
    requires a < b
    ensures BlkByte(g, a) + g.bs <= BlkByte(g, b)
  {
    TimesLe(g.bs, a + 1, b);
    assert g.bs * (a + 1) == a * g.bs + g.bs && g.bs * b == b * g.bs;
  }

  lemma BlkInside(g: Geo, len: nat, b: nat)
    requires ValidGeo(g, len) && b < g.total
    ensures BlkByte(g, b) + g.bs <= len
  {
    BlkOrder(g, b, g.total);
  }

  lemma GroupBound(g: Geo, b: nat)
    requires g.bpg > 0 && 1 <= b < g.total
    ensures Group(g, b) < Groups(g) && Idx(g, b) < g.bpg
  {
    var z := Zero(g, b);
    var blocks := if g.bs > 1024 then g.total else g.total - 1;
    assert z <= blocks - 1;
    DivLe(z, blocks - 1, g.bpg);
  }

  /** Group and index determine the block. */
  lemma GroupInjective(g: Geo, a: nat, b: nat)
    requires g.bpg > 0 && 1 <= a && 1 <= b && a != b
    ensures Group(g, a) != Group(g, b) || Idx(g, a) != Idx(g, b)
  {
    var x, y := Zero(g, a), Zero(g, b);
    assert x == g.bpg * (x / g.bpg) + x % g.bpg && y == g.bpg * (y / g.bpg) + y % g.bpg;
  }

  /** Blocks are numbered group by group, from the first data block on: block 0, or 1 when
      blocks have 1024 bytes. */
  lemma BlockNumber(g: Geo, b: nat)
    requires g.bpg > 0 && 1 <= b < g.total
    ensures b == (if g.bs > 1024 then 0 else 1) + g.bpg * Group(g, b) + Idx(g, b)
    ensures Idx(g, b) < g.bpg
  {
    var z := Zero(g, b);
    assert z == g.bpg * (z / g.bpg) + z % g.bpg;
  }

  /** The groups hold all blocks, and one group less would not. */
  lemma GroupsHold(g: Geo)
    requires g.bpg > 0 && g.total >= 2
    ensures var blocks := g.total - if g.bs > 1024 then 0 else 1;
            g.bpg * (Groups(g) - 1) < blocks <= g.bpg * Groups(g)
  {
    var blocks := g.total - if g.bs > 1024 then 0 else 1;
    var q := (blocks - 1) / g.bpg;
    assert blocks - 1 == g.bpg * q + (blocks - 1) % g.bpg;
    assert Groups(g) == 1 + q && g.bpg * (q + 1) == g.bpg * q + g.bpg;
  }

  // ----- addresses -----

  function InodePtr(g: Geo, k: nat): nat { 8 * g.ino + 320 + 32 * k }
  function BlockPtr(g: Geo, b: nat, k: nat): nat { 8 * BlkByte(g, b) + 32 * k }
  function BmpField(g: Geo, grp: nat): nat { 8 * g.gdt + 256 * grp }
  function CntField(g: Geo, grp: nat): nat { 8 * g.gdt + 256 * grp + 96 }

  function BmpBlock(g: Geo, d: Disk, grp: nat): nat { Slice(d, BmpField(g, grp), 32) }
  function FreeCount(g: Geo, d: Disk, grp: nat): nat { Slice(d, CntField(g, grp), 16) }

  /** Bit idx of the block bitmap of a group. */
  function BmpBit(g: Geo, d: Disk, grp: nat, idx: nat): nat { 8 * BlkByte(g, BmpBlock(g, d, grp)) + idx }

  function BitAddr(g: Geo, d: Disk, b: nat): nat
    requires g.bpg > 0
  {
    BmpBit(g, d, Group(g, b), Idx(g, b))
  }

  ghost predicate Used(g: Geo, d: Disk, b: nat) requires g.bpg > 0 { Bit(d, BitAddr(g, d, b)) == 1 }

  /** What the descriptor of a group says, by its bytes. */
  lemma DescriptorBytes(g: Geo, d: Disk, grp: nat)
    requires g.gdt + 32 * grp + 14 <= |d|
    ensures BmpBlock(g, d, grp) == Le32(d, g.gdt + 32 * grp)
    ensures FreeCount(g, d, grp) == Le16(d, g.gdt + 32 * grp + 12)
  {
    SliceLe32(d, g.gdt + 32 * grp);
    SliceLe16(d, g.gdt + 32 * grp + 12);
  }

  /** The bit of a block, by the byte of the bitmap that holds it. */
  lemma UsedByte(g: Geo, d: Disk, b: nat)
    requires g.bpg > 0 && BlkByte(g, BmpBlock(g, d, Group(g, b))) + Idx(g, b) / 8 < |d|
    ensures Used(g, d, b) <==>
            BitOf(d[BmpBlock(g, d, Group(g, b)) * g.bs + Idx(g, b) / 8], Idx(g, b) % 8) == 1
  {
    var p, i := BlkByte(g, BmpBlock(g, d, Group(g, b))), Idx(g, b);
    assert (8 * p + i) / 8 == p + i / 8 && (8 * p + i) % 8 == i % 8;
  }

  // ----- the block map -----

  /** A block of a file: its n-th data block, or one of the pointer blocks. */
  datatype Node = Data(n: nat) | Indir | Bi | BiInd(q: nat)

  /** The node is in the inode. */
  predicate InInode(x: Node) { x.Indir? || x.Bi? || (x.Data? && x.n < NDIR) }

  function Slot(x: Node): nat requires InInode(x) { if x.Indir? then 12 else if x.Bi? then 13 else x.n }

  function Parent(g: Geo, x: Node): Node
    requires !InInode(x) && Bpi(g) > 0
  {
    if x.BiInd? then Bi
    else if x.n < NDIR + Bpi(g) then Indir
    else BiInd((x.n - (NDIR + Bpi(g))) / Bpi(g))
  }

  function Index(g: Geo, x: Node): nat
    requires !InInode(x) && Bpi(g) > 0
  {
    if x.BiInd? then x.q
    else if x.n < NDIR + Bpi(g) then x.n - NDIR
    else (x.n - (NDIR + Bpi(g))) % Bpi(g)
  }

  function Depth(x: Node): nat { if InInode(x) then 0 else if x.BiInd? then 1 else 2 }

  /** The bit address of the pointer to a node. */
  function Addr(g: Geo, d: Disk, x: Node): nat
    requires Bpi(g) > 0
    decreases Depth(x), 0
  {
    if InInode(x) then InodePtr(g, Slot(x)) else BlockPtr(g, Blk(g, d, Parent(g, x)), Index(g, x))
  }

  function Blk(g: Geo, d: Disk, x: Node): nat
    requires Bpi(g) > 0
    decreases Depth(x), 1
  {
    Slice(d, Addr(g, d, x), 32)
  }

  const OUT_OF_RANGE: nat := 999999999999

  /** get_nth_blknum, through ext2_indir_lookup, ext2_indir_in_bi_lookup and biindir_indir_offset. */
  method GetNthBlknum(g: Geo, d: Disk, n: nat) returns (b: nat)
    requires Bpi(g) > 0
    ensures b == if n < NDIR + Bpi(g) + Bpi(g) * Bpi(g) then Blk(g, d, Data(n)) else OUT_OF_RANGE
  {
    var bpi := g.bs / 4;
    if n < NDIR {
      b := Slice(d, InodePtr(g, n), 32);
    } else if n < NDIR + bpi {
      var indir := Slice(d, InodePtr(g, 12), 32);
      assert Blk(g, d, Indir) == indir;
      b := Slice(d, BlockPtr(g, indir, n - NDIR), 32);
    } else if n < bpi * bpi + NDIR + bpi {
      var bi := Slice(d, InodePtr(g, 13), 32);
      var at := n - (NDIR + bpi);
      at := at / bpi;
      var indir := Slice(d, BlockPtr(g, bi, at), 32);
      var off := n - (NDIR + bpi);
      off := off % bpi;
      b := Slice(d, BlockPtr(g, indir, off), 32);
      assert Blk(g, d, Bi) == bi;
      assert Blk(g, d, BiInd(at)) == indir;
      assert Addr(g, d, Data(n)) == BlockPtr(g, indir, off);
    } else {
      b := OUT_OF_RANGE;
    }
  }

  /** The pointers of the inode by their bytes: twelve direct ones at byte 40, then the indirect
      and the double-indirect one. */
  lemma InodeBytes(g: Geo, d: Disk, x: Node)
    requires Bpi(g) > 0 && InInode(x) && g.ino + 96 <= |d|
    ensures Blk(g, d, x) == Le32(d, g.ino + if x.Data? then 40 + 4 * x.n else if x.Indir? then 88 else 92)
  {
    var at := g.ino + 40 + 4 * Slot(x);
    assert Addr(g, d, x) == 8 * at;
    SliceLe32(d, at);
  }

  /** All others are in pointer blocks. */
  lemma BlockBytes(g: Geo, d: Disk, x: Node)
    requires Bpi(g) > 0 && !InInode(x) && Blk(g, d, Parent(g, x)) * g.bs + 4 * Index(g, x) + 4 <= |d|
    ensures Blk(g, d, x) == Le32(d, Blk(g, d, Parent(g, x)) * g.bs + 4 * Index(g, x))
  {
    var at := BlkByte(g, Blk(g, d, Parent(g, x))) + 4 * Index(g, x);
    assert Addr(g, d, x) == 8 * at;
    SliceLe32(d, at);
  }

  /** Data blocks are numbered in order: the direct ones, those of the indirect block, and then
      those of each pointer of the double-indirect block. */
  lemma PointerOrder(g: Geo, x: Node)
    requires Bpi(g) > 0 && InTree(g, x) && !InInode(x)
    ensures Index(g, x) < Bpi(g)
    ensures x.BiInd? ==> Parent(g, x) == Bi && Index(g, x) == x.q
    ensures x.Data? && x.n < 12 + Bpi(g) ==> Parent(g, x) == Indir && x.n == 12 + Index(g, x)
    ensures x.Data? && x.n >= 12 + Bpi(g) ==>
              Parent(g, x).BiInd? && x.n == 12 + Bpi(g) + Bpi(g) * Parent(g, x).q + Index(g, x)
  {
    if x.Data? && x.n >= 12 + Bpi(g) {
      var t := x.n - (12 + Bpi(g));
      assert t == Bpi(g) * (t / Bpi(g)) + t % Bpi(g);
    }
  }

  // ----- the packets -----

  const ALLOC: nat := 0
  const REPLACE: nat := 1
  const RELINK: nat := 2

  /** 64-bit decrement. */
  function Dec(c: nat): nat { if c > 0 then c - 1 else 0xffff_ffff_ffff_ffff }

  function BitWrite(g: Geo, d: Disk, b: nat, v: nat): Entry
    requires g.bpg > 0
  {
    Entry(BitAddr(g, d, b), v, 1)
  }

  function CntWrite(g: Geo, grp: nat, v: nat): Entry { Entry(CntField(g, grp), v, 16) }

  // the clauses of block_relink
  function DirectWrite(g: Geo, n: nat, b: nat): Maybe { When(n < NDIR, Entry(InodePtr(g, n), b, 32)) }

  function IndirWrite(g: Geo, d: Disk, n: nat, b: nat): Maybe {
    When(n >= NDIR && n < Bpi(g) + NDIR, Entry(BlockPtr(g, Slice(d, InodePtr(g, 12), 32), Sub(n, NDIR)), b, 32))
  }

  function BiWrite(g: Geo, d: Disk, n: nat, b: nat): Maybe
    requires Bpi(g) > 0
  {
    var at := Sub(n, NDIR + Bpi(g));
    When(n >= Bpi(g) + NDIR && n < Bpi(g) * Bpi(g) + NDIR + Bpi(g),
         Entry(BlockPtr(g, Slice(d, BlockPtr(g, Slice(d, InodePtr(g, 13), 32), at / Bpi(g)), 32), at % Bpi(g)), b, 32))
  }

  function Ext2Table(g: Geo): Table
    requires g.bpg > 0 && Bpi(g) > 0
  {
    [Wpkt([(d: Disk, ps: Params) => Some(BitWrite(g, d, P(ps, 0), 1)),
           (d: Disk, ps: Params) => Some(CntWrite(g, Group(g, P(ps, 0)),
               Dec(FreeCount(g, d, Group(g, P(ps, 0))))))], []),
     Wpkt([(d: Disk, ps: Params) => Some(BitWrite(g, d, P(ps, 0), 0)),
           (d: Disk, ps: Params) => Some(CntWrite(g, Group(g, P(ps, 0)),
               FreeCount(g, d, Group(g, P(ps, 0))) + 1))], []),
     Wpkt([(d: Disk, ps: Params) => DirectWrite(g, P(ps, 0), P(ps, 1)),
           (d: Disk, ps: Params) => IndirWrite(g, d, P(ps, 0), P(ps, 1)),
           (d: Disk, ps: Params) => BiWrite(g, d, P(ps, 0), P(ps, 1))], [])]
  }

  function Ext2Rank(): Rank { (d: Disk, p: nat, ps: Params) => 0 }

  /** The rule "reloc" of an inode. */
  function Ext2Reloc(g: Geo): Reloc
    requires g.bpg > 0 && Bpi(g) > 0
  {
    Reloc(Ext2Table(g), g.bs,
          (d: Disk, j: nat) => BlkByte(g, Blk(g, d, Data(Sub(j, 1)))),
          (d: Disk, i: nat) => BlkByte(g, i),
          ALLOC, (d: Disk, i: nat) => [i],
          REPLACE, (d: Disk, j: nat) => [Blk(g, d, Data(Sub(j, 1)))],
          RELINK, (d: Disk, j: nat, i: nat) => [Sub(j, 1), i])
  }

  lemma Ext2Ranked(g: Geo)
    requires g.bpg > 0 && Bpi(g) > 0
    ensures Ranked(Ext2Table(g), Ext2Rank())
  {
  }

  lemma AllocWrites(g: Geo, d: Disk, b: nat)
    requires g.bpg > 0 && Bpi(g) > 0
    ensures Ranked(Ext2Table(g), Ext2Rank())
    ensures Writes(Ext2Table(g), Ext2Rank(), d, ALLOC, [b]) ==
            [BitWrite(g, d, b, 1), CntWrite(g, Group(g, b), Dec(FreeCount(g, d, Group(g, b))))]
    ensures Writes(Ext2Table(g), Ext2Rank(), d, REPLACE, [b]) ==
            [BitWrite(g, d, b, 0), CntWrite(g, Group(g, b), FreeCount(g, d, Group(g, b)) + 1)]
  {
    Ext2Ranked(g);
    var t, ps := Ext2Table(g), [b];
    OnlyFuncs(t, Ext2Rank(), d, ALLOC, ps);
    OnlyFuncs(t, Ext2Rank(), d, REPLACE, ps);
    assert FuncWrites(t[ALLOC].funcs, d, ps, 0) == [] && FuncWrites(t[REPLACE].funcs, d, ps, 0) == [];
    assert FuncWrites(t[ALLOC].funcs, d, ps, 1) == [BitWrite(g, d, b, 1)];
    assert FuncWrites(t[REPLACE].funcs, d, ps, 1) == [BitWrite(g, d, b, 0)];
  }

  /** For every data block in range exactly one clause of the relink packet fires, and it
      writes the pointer to that block. */
  lemma RelinkWrites(g: Geo, d: Disk, n: nat, b: nat)
    requires g.bpg > 0 && Bpi(g) > 0 && n < NDIR + Bpi(g) + Bpi(g) * Bpi(g)
    ensures Ranked(Ext2Table(g), Ext2Rank())
    ensures Writes(Ext2Table(g), Ext2Rank(), d, RELINK, [n, b]) == [Entry(Addr(g, d, Data(n)), b, 32)]
  {
    Ext2Ranked(g);
    var t, ps := Ext2Table(g), [n, b];
    OnlyFuncs(t, Ext2Rank(), d, RELINK, ps);
    Clauses(g, d, n, b);
    var fs := t[RELINK].funcs;
    assert FuncWrites(fs, d, ps, 0) == [];
    assert FuncWrites(fs, d, ps, 1) == OneWrite(DirectWrite(g, n, b));
    assert FuncWrites(fs, d, ps, 2) == FuncWrites(fs, d, ps, 1) + OneWrite(IndirWrite(g, d, n, b));
    assert FuncWrites(fs, d, ps, 3) == FuncWrites(fs, d, ps, 2) + OneWrite(BiWrite(g, d, n, b));
  }

  lemma Clauses(g: Geo, d: Disk, n: nat, b: nat)
    requires Bpi(g) > 0 && n < NDIR + Bpi(g) + Bpi(g) * Bpi(g)
    ensures var e := Some(Entry(Addr(g, d, Data(n)), b, 32));
            && DirectWrite(g, n, b) == (if n < NDIR then e else None)
            && IndirWrite(g, d, n, b) == (if NDIR <= n < NDIR + Bpi(g) then e else None)
            && BiWrite(g, d, n, b) == (if NDIR + Bpi(g) <= n then e else None)
  {
    assert Blk(g, d, Indir) == Slice(d, InodePtr(g, 12), 32);
    assert Blk(g, d, Bi) == Slice(d, InodePtr(g, 13), 32);
    if NDIR + Bpi(g) <= n {
      var q := (n - (NDIR + Bpi(g))) / Bpi(g);
      assert Addr(g, d, BiInd(q)) == BlockPtr(g, Blk(g, d, Bi), q);
      assert Addr(g, d, Data(n)) == BlockPtr(g, Blk(g, d, BiInd(q)), (n - (NDIR + Bpi(g))) % Bpi(g));
    }
  }

  // ----- regions of the disk -----

  /** The parts of the disk that the rule reads and writes. */
  datatype Region = Inode | Descs | Block(b: nat)

  function Lo(g: Geo, r: Region): nat {
    match r case Inode => g.ino case Descs => g.gdt case Block(b) => BlkByte(g, b)
  }

  function Hi(g: Geo, r: Region): nat
    requires g.bpg > 0
  {
    match r case Inode => g.ino + 128 case Descs => g.gdt + 32 * Groups(g) case Block(b) => BlkByte(g, b) + g.bs
  }

  /** A block that holds neither the inode nor group descriptors. */
  predicate PlainBlock(g: Geo, b: nat)
    requires g.bpg > 0
  {
    && 1 <= b < g.total
    && (g.ino + 128 <= BlkByte(g, b) || BlkByte(g, b) + g.bs <= g.ino)
    && (g.gdt + 32 * Groups(g) <= BlkByte(g, b) || BlkByte(g, b) + g.bs <= g.gdt)
  }

  predicate Good(g: Geo, r: Region) requires g.bpg > 0 { r.Block? ==> PlainBlock(g, r.b) }

  lemma RegionsApart(g: Geo, len: nat, r: Region, s: Region)
    requires ValidGeo(g, len) && Good(g, r) && Good(g, s) && r != s
    ensures Hi(g, r) <= Lo(g, s) || Hi(g, s) <= Lo(g, r)
  {
    if r.Block? && s.Block? {
      if r.b < s.b { BlkOrder(g, r.b, s.b); } else { BlkOrder(g, s.b, r.b); }
    }
  }

  predicate Inside(g: Geo, off: nat, w: nat, r: Region)
    requires g.bpg > 0
  {
    8 * Lo(g, r) <= off && off + w <= 8 * Hi(g, r)
  }

  lemma InsideMisses(g: Geo, len: nat, e: Entry, r: Region, off: nat, w: nat, s: Region)
    requires ValidGeo(g, len) && Good(g, r) && Good(g, s) && r != s
    requires Inside(g, e.addr, e.bits, r) && Inside(g, off, w, s)
    ensures Misses(e, off, w)
  {
    RegionsApart(g, len, r, s);
  }

  // ----- a consistent file system -----

  /** Bitmap blocks are plain and distinct. */
  ghost predicate Bitmaps(g: Geo, d: Disk)
    requires g.bpg > 0
  {
    && (forall grp :: 0 <= grp < Groups(g) ==> PlainBlock(g, BmpBlock(g, d, grp)))
    && (forall a, b :: 0 <= a < b < Groups(g) ==> BmpBlock(g, d, a) != BmpBlock(g, d, b))
  }

  /** A plain block that is not a bitmap. */
  ghost predicate DataBlock(g: Geo, d: Disk, b: nat)
    requires g.bpg > 0
  {
    PlainBlock(g, b) && forall grp :: 0 <= grp < Groups(g) ==> BmpBlock(g, d, grp) != b
  }

  /** The nodes that the block map can address. */
  predicate InTree(g: Geo, x: Node) {
    match x
    case Data(n) => n < NDIR + Bpi(g) + Bpi(g) * Bpi(g)
    case BiInd(q) => q < Bpi(g)
    case _ => true
  }

  /** The pointer to the node is in the inode or in a pointer block of the file. */
  predicate Placed(g: Geo, on: set<Node>, x: Node)
    requires Bpi(g) > 0
  {
    InTree(g, x) && (InInode(x) || Parent(g, x) in on)
  }

  ghost predicate HasBlock(g: Geo, d: Disk, on: set<Node>, x: Node)
    requires g.bpg > 0 && Bpi(g) > 0
  {
    Placed(g, on, x) && DataBlock(g, d, Blk(g, d, x)) && Used(g, d, Blk(g, d, x))
  }

  /** A file, by the set of its nodes that have a block, pointer blocks included; the others are
      holes. The blocks are distinct used data blocks. */
  ghost predicate FileOn(g: Geo, d: Disk, on: set<Node>) {
    && ValidGeo(g, |d|) && Bitmaps(g, d)
    && (forall x :: x in on ==> HasBlock(g, d, on, x))
    && (forall x, y :: x in on && y in on && x != y ==> Blk(g, d, x) != Blk(g, d, y))
  }

  ghost predicate Available(g: Geo, d: Disk, f: nat) requires g.bpg > 0 { DataBlock(g, d, f) && !Used(g, d, f) }

  lemma IndexBound(g: Geo, x: Node)
    requires Bpi(g) > 0 && InTree(g, x) && !InInode(x)
    ensures Index(g, x) < Bpi(g)
  {
    if x.Data? && x.n >= NDIR + Bpi(g) { RoundedDown(x.n - (NDIR + Bpi(g)), Bpi(g)); }
  }

  lemma RoundedDown(t: nat, m: nat)
    requires m > 0
    ensures t % m < m
  {
  }

  /** The region of the pointer to a node. */
  function Place(g: Geo, d: Disk, x: Node): Region
    requires Bpi(g) > 0
  {
    if InInode(x) then Inode else Block(Blk(g, d, Parent(g, x)))
  }

  lemma AddrPlace(g: Geo, d: Disk, on: set<Node>, x: Node)
    requires FileOn(g, d, on) && Placed(g, on, x)
    ensures Good(g, Place(g, d, x)) && Inside(g, Addr(g, d, x), 32, Place(g, d, x))
    ensures Addr(g, d, x) % 8 == 0 && Addr(g, d, x) + 32 <= 8 * |d|
    ensures !InInode(x) ==> Parent(g, x) in on && Place(g, d, x) == Block(Blk(g, d, Parent(g, x)))
  {
    if InInode(x) {
      ByteAligned(g.ino + 40 + 4 * Slot(x));
    } else {
      IndexBound(g, x);
      assert HasBlock(g, d, on, Parent(g, x));
      SlotInside(g, |d|, Blk(g, d, Parent(g, x)), Index(g, x));
    }
  }

  lemma SlotInside(g: Geo, len: nat, b: nat, k: nat)
    requires ValidGeo(g, len) && PlainBlock(g, b) && k < Bpi(g)
    ensures Inside(g, BlockPtr(g, b, k), 32, Block(b)) && BlockPtr(g, b, k) % 8 == 0
    ensures BlockPtr(g, b, k) + 32 <= 8 * len
  {
    BlkInside(g, len, b);
    var p := BlkByte(g, b);
    ByteAligned(p + 4 * k);
  }

  /** Different nodes have pointers that do not overlap. */
  lemma AddrApart(g: Geo, d: Disk, on: set<Node>, x: Node, y: Node)
    requires FileOn(g, d, on) && Placed(g, on, x) && Placed(g, on, y) && x != y
    ensures Addr(g, d, x) + 32 <= Addr(g, d, y) || Addr(g, d, y) + 32 <= Addr(g, d, x)
  {
    AddrPlace(g, d, on, x);
    AddrPlace(g, d, on, y);
    if Place(g, d, x) != Place(g, d, y) {
      RegionsApart(g, |d|, Place(g, d, x), Place(g, d, y));
    } else if !InInode(x) {
      SameParent(g, x, y);
    }
  }

  lemma SameParent(g: Geo, x: Node, y: Node)
    requires Bpi(g) > 0 && !InInode(x) && !InInode(y) && x != y && Parent(g, x) == Parent(g, y)
    ensures Index(g, x) != Index(g, y)
  {
    var m := Bpi(g);
    if x.Data? && y.Data? && x.n >= NDIR + m && y.n >= NDIR + m {
      var s, t := x.n - (NDIR + m), y.n - (NDIR + m);
      assert s == m * (s / m) + s % m && t == m * (t / m) + t % m;
    }
  }
}
