/** The minix v1 relocation rule: file blocks, indirect blocks and the double-indirect block are
    numbered in one order, and any of them can be moved. */
module Minix {
  import opened Arith
  import opened Bits
  import opened Flat
  import opened Pread
  import opened WriteLog
  import opened Packets
  import opened Relocate

  const PTRS: nat := 512        // BLK_SZ / 2 pointers in a block
  const BINDIR_BASE: nat := 521 // bindir_base_v1()
  const MAX_META: nat := 263177 // 521 + 512 * 513 offsets

  /** Where things are: the first data zone, the number of blocks, the byte address of an
      inode and the bit address of the zone map. */
  datatype Geo = Geo(first: nat, blocks: nat, ino: nat, zmap: nat)

  predicate ValidGeo(g: Geo, len: nat) {
    && 1 <= g.first <= g.blocks < 65536 && 1024 * g.blocks <= len && len % 32 == 0
    && g.ino + 32 <= 1024 * g.first
    && g.zmap + (g.blocks - g.first + 1) <= 8192 * g.first
    && (g.zmap + (g.blocks - g.first + 1) <= 8 * g.ino || 8 * (g.ino + 32) <= g.zmap)
  }

  /** Bit address of pointer k of the inode: 7 direct ones, indirect, double indirect. */
  function InodePtr(g: Geo, k: nat): nat { 8 * g.ino + 112 + 16 * k }

  /** Bit address of pointer k of block b. */
  function BlockPtr(b: nat, k: nat): nat { 8192 * b + 16 * k }

  /** bnum_to_zonebit, as a bit address. */
  function ZoneBit(g: Geo, b: nat): nat { if b >= g.first then g.zmap + (b - g.first + 1) else g.zmap }

  /** The first data zone has bit 1 of the map, and consecutive blocks have consecutive bits. */
  lemma ZoneOrder(g: Geo, b: nat)
    requires b >= g.first
    ensures ZoneBit(g, g.first) == g.zmap + 1 && ZoneBit(g, b + 1) == ZoneBit(g, b) + 1
  {
  }

  function Content(d: Disk, b: nat): seq<Byte>
    requires 1024 * b + 1024 <= |d|
  {
    d[1024 * b..1024 * b + 1024]
  }

  // ----- the pointer tree -----

  /** Offsets whose pointer is in the inode. */
  predicate InInode(m: nat) { m < 8 || m == 520 }

  function InodeSlot(m: nat): nat { if m < 8 then m else 8 }

  /** The offset of the pointer block that holds the pointer of offset m. */
  function Parent(m: nat): (p: nat)
    requires !InInode(m)
    ensures p < m
  {
    if m < 520 then 7
    else if (m - BINDIR_BASE) % 513 == 0 then 520
    else BINDIR_BASE + (m - BINDIR_BASE) / 513 * 513
  }

  /** The index of the pointer of offset m in that block. */
  function Index(m: nat): nat
    requires !InInode(m)
  {
    if m < 520 then m - 8
    else if (m - BINDIR_BASE) % 513 == 0 then (m - BINDIR_BASE) / 513
    else (m - BINDIR_BASE) % 513 - 1
  }

  /** The block at offset m, in the order that counts pointer blocks. */
  function NthMeta(g: Geo, d: Disk, m: nat): nat
    decreases m, 1
  {
    Slice(d, Addr(g, d, m), 16)
  }

  /** The bit address of the pointer of offset m. */
  function Addr(g: Geo, d: Disk, m: nat): nat
    decreases m, 0
  {
    if InInode(m) then InodePtr(g, InodeSlot(m)) else BlockPtr(NthMeta(g, d, Parent(m)), Index(m))
  }

  lemma Roots(g: Geo, d: Disk)
    ensures NthMeta(g, d, 7) == Slice(d, InodePtr(g, 7), 16) && NthMeta(g, d, 520) == Slice(d, InodePtr(g, 8), 16)
  {
    assert Addr(g, d, 7) == InodePtr(g, 7) && Addr(g, d, 520) == InodePtr(g, 8);
  }

  lemma Branch(g: Geo, d: Disk, m: nat, p: nat)
    requires !InInode(m) && Parent(m) == p
    ensures Addr(g, d, m) == BlockPtr(NthMeta(g, d, p), Index(m))
    ensures NthMeta(g, d, m) == Slice(d, BlockPtr(NthMeta(g, d, p), Index(m)), 16)
  {
  }

  lemma BranchOf(g: Geo, d: Disk, q: nat)
    ensures NthMeta(g, d, BINDIR_BASE + 513 * q) == Slice(d, BlockPtr(NthMeta(g, d, 520), q), 16)
  {
    var m := BINDIR_BASE + 513 * q;
    assert (m - BINDIR_BASE) % 513 == 0 && (m - BINDIR_BASE) / 513 == q;
    Branch(g, d, m, 520);
  }

  /** get_nth_meta_v1_bnum. */
  method GetNthMetaV1Bnum(g: Geo, d: Disk, off: nat) returns (bnum: nat)
    ensures bnum == if off < MAX_META || (off - BINDIR_BASE) % 513 == 0 then NthMeta(g, d, off) else 0
  {
    Roots(g, d);
    var blkoff := off;
    if blkoff < 7 {
      return Slice(d, InodePtr(g, blkoff), 16);
    }
    blkoff := blkoff - 7;
    var indir := Slice(d, InodePtr(g, 7), 16);
    if blkoff == 0 {
      return indir;
    }
    blkoff := blkoff - 1;
    if blkoff < PTRS {
      Branch(g, d, off, 7);
      return Slice(d, BlockPtr(indir, blkoff), 16);
    }
    blkoff := blkoff - PTRS;
    var bindir := Slice(d, InodePtr(g, 8), 16);
    if blkoff == 0 {
      return bindir;
    }
    blkoff := blkoff - 1;
    var idx := blkoff / (PTRS + 1);
    var indirBnum := Slice(d, BlockPtr(bindir, idx), 16);
    BranchOf(g, d, idx);
    if blkoff % (PTRS + 1) == 0 {
      return indirBnum;
    }
    LeafIndex(blkoff, idx);
    Branch(g, d, off, BINDIR_BASE + 513 * idx);
    blkoff := blkoff - (idx + 1);
    if blkoff < PTRS * PTRS {
      return Slice(d, BlockPtr(indirBnum, blkoff % PTRS), 16);
    }
    bnum := 0;
  }

  /** Skipping the pointer blocks counted so far leaves the index within the last one. */
  lemma LeafIndex(b: nat, q: nat)
    requires q == b / 513 && b % 513 != 0
    ensures (b - (q + 1)) % 512 == b % 513 - 1
    ensures b - (q + 1) < 512 * 512 <==> b + BINDIR_BASE < MAX_META
  {
    var r := b % 513;
    assert b == 513 * q + r;
    assert b - (q + 1) == 512 * q + (r - 1);
  }

  /** The pointers of the inode by their bytes: seven direct ones at byte 14, then the indirect
      and the double-indirect one. */
  lemma InodeBytes(g: Geo, d: Disk, m: nat)
    requires InInode(m) && g.ino + 32 <= |d|
    ensures NthMeta(g, d, m) == Le16(d, g.ino + if m < 8 then 14 + 2 * m else 30)
  {
    var at := g.ino + if m < 8 then 14 + 2 * m else 30;
    assert Addr(g, d, m) == 8 * at;
    SliceLe16(d, at);
  }

  /** All others are in pointer blocks. */
  lemma BlockBytes(g: Geo, d: Disk, m: nat)
    requires !InInode(m) && 1024 * NthMeta(g, d, Parent(m)) + 2 * Index(m) + 2 <= |d|
    ensures NthMeta(g, d, m) == Le16(d, 1024 * NthMeta(g, d, Parent(m)) + 2 * Index(m))
  {
    var at := 1024 * NthMeta(g, d, Parent(m)) + 2 * Index(m);
    assert Addr(g, d, m) == 8 * at;
    SliceLe16(d, at);
  }

  /** Offsets are numbered in order: the indirect block and its 512 blocks, the double-indirect
      block, and then 513 offsets for each of its pointers, the pointer block first. */
  lemma PointerOrder(m: nat)
    requires !InInode(m) && m < MAX_META
    ensures Index(m) < 512
    ensures m < 520 ==> Parent(m) == 7 && m == 8 + Index(m)
    ensures m > 520 && Parent(m) == 520 ==> m == 521 + 513 * Index(m)
    ensures m > 520 && Parent(m) != 520 ==>
              m == Parent(m) + 1 + Index(m) && !InInode(Parent(m)) && Parent(Parent(m)) == 520
  {
    if m > 520 {
      var b := m - BINDIR_BASE;
      assert b == 513 * (b / 513) + b % 513;
      Quotient(513, 513 * (b / 513), b / 513, 0);
    }
  }

  // ----- the packets -----

  const ALLOC: nat := 0
  const REPLACE: nat := 1
  const RELINK: nat := 2

  // the clauses of minix_block_relink_meta_v1
  function DirectWrite(g: Geo, boff: nat, f: nat): Maybe {
    When(boff < 7, Entry(InodePtr(g, boff), f, 16))
  }
  function IndirWrite(g: Geo, boff: nat, f: nat): Maybe {
    When(boff == 7, Entry(InodePtr(g, 7), f, 16))
  }
  function InIndirWrite(g: Geo, d: Disk, boff: nat, f: nat): Maybe {
    When(boff > 7 && Sub(boff, 8) < PTRS, Entry(BlockPtr(Slice(d, InodePtr(g, 7), 16), Sub(boff, 8)), f, 16))
  }
  function BindirWrite(g: Geo, boff: nat, f: nat): Maybe {
    When(boff == 8 + PTRS, Entry(InodePtr(g, 8), f, 16))
  }
  function InBindirWrite(g: Geo, d: Disk, boff: nat, f: nat): Maybe {
    When(boff > BINDIR_BASE && Sub(boff, BINDIR_BASE) % (1 + PTRS) == 0,
         Entry(BlockPtr(Slice(d, InodePtr(g, 8), 16), Sub(boff, BINDIR_BASE) / (1 + PTRS)), f, 16))
  }
  function LeafWrite(g: Geo, d: Disk, boff: nat, f: nat): Maybe {
    When(boff > BINDIR_BASE && Sub(boff, BINDIR_BASE) % (1 + PTRS) != 0,
         Entry(BlockPtr(Slice(d, BlockPtr(Slice(d, InodePtr(g, 8), 16), Sub(boff, BINDIR_BASE) / (1 + PTRS)), 16),
                        Sub(Sub(boff, BINDIR_BASE) % (1 + PTRS), 1)), f, 16))
  }

  /** The writes of minix_block_relink_meta_v1, one per clause. */
  function RelinkFuncs(g: Geo): seq<(Disk, Params) -> Maybe> {
    [(d: Disk, ps: Params) => DirectWrite(g, P(ps, 0), P(ps, 1)),
     (d: Disk, ps: Params) => IndirWrite(g, P(ps, 0), P(ps, 1)),
     (d: Disk, ps: Params) => InIndirWrite(g, d, P(ps, 0), P(ps, 1)),
     (d: Disk, ps: Params) => BindirWrite(g, P(ps, 0), P(ps, 1)),
     (d: Disk, ps: Params) => InBindirWrite(g, d, P(ps, 0), P(ps, 1)),
     (d: Disk, ps: Params) => LeafWrite(g, d, P(ps, 0), P(ps, 1))]
  }

  function MinixTable(g: Geo): Table {
    [Wpkt([(d: Disk, ps: Params) => Some(Entry(ZoneBit(g, P(ps, 0)), 1, 1))], []),
     Wpkt([(d: Disk, ps: Params) => Some(Entry(ZoneBit(g, P(ps, 0)), 0, 1))], []),
     Wpkt(RelinkFuncs(g), [])]
  }

  function MinixRank(): Rank { (d: Disk, p: nat, ps: Params) => 0 }

  function MinixReloc(g: Geo): Reloc {
    Reloc(MinixTable(g), 1024,
          (d: Disk, j: nat) => 1024 * NthMeta(g, d, Sub(j, 1)),
          (d: Disk, i: nat) => 1024 * i,
          ALLOC, (d: Disk, i: nat) => [i],
          REPLACE, (d: Disk, j: nat) => [NthMeta(g, d, Sub(j, 1))],
          RELINK, (d: Disk, j: nat, i: nat) => [Sub(j, 1), i])
  }

  lemma MinixRanked(g: Geo)
    ensures Ranked(MinixTable(g), MinixRank())
  {
  }

  lemma ZoneWrites(g: Geo, d: Disk, b: nat)
    ensures Ranked(MinixTable(g), MinixRank())
    ensures Writes(MinixTable(g), MinixRank(), d, ALLOC, [b]) == [Entry(ZoneBit(g, b), 1, 1)]
    ensures Writes(MinixTable(g), MinixRank(), d, REPLACE, [b]) == [Entry(ZoneBit(g, b), 0, 1)]
  {
    MinixRanked(g);
    var t := MinixTable(g);
    OnlyFuncs(t, MinixRank(), d, ALLOC, [b]);
    OnlyFuncs(t, MinixRank(), d, REPLACE, [b]);
    assert FuncWrites(t[ALLOC].funcs, d, [b], 0) == [];
    assert FuncWrites(t[REPLACE].funcs, d, [b], 0) == [];
  }

  /** The first four clauses fire for the offsets up to the double-indirect block. */
  lemma LowClauses(g: Geo, d: Disk, m: nat, f: nat)
    ensures var e := Some(Entry(Addr(g, d, m), f, 16));
            && DirectWrite(g, m, f) == (if m < 7 then e else None)
            && IndirWrite(g, m, f) == (if m == 7 then e else None)
            && InIndirWrite(g, d, m, f) == (if 7 < m < 520 then e else None)
            && BindirWrite(g, m, f) == (if m == 520 then e else None)
  {
    Roots(g, d);
    if 8 <= m < 520 { Branch(g, d, m, 7); }
  }

  /** The last two clauses fire behind bindir_base_v1(). */
  lemma HighClauses(g: Geo, d: Disk, m: nat, f: nat)
    ensures var e := Some(Entry(Addr(g, d, m), f, 16));
            && InBindirWrite(g, d, m, f) == (if m > BINDIR_BASE && (m - BINDIR_BASE) % 513 == 0 then e else None)
            && LeafWrite(g, d, m, f) == (if m > BINDIR_BASE && (m - BINDIR_BASE) % 513 != 0 then e else None)
  {
    if m > BINDIR_BASE {
      Roots(g, d);
      var b := m - BINDIR_BASE;
      if b % 513 == 0 {
        Branch(g, d, m, 520);
      } else {
        BranchOf(g, d, b / 513);
        Branch(g, d, m, BINDIR_BASE + 513 * (b / 513));
      }
    }
  }

  lemma LowWrites(g: Geo, d: Disk, m: nat, f: nat)
    ensures FuncWrites(RelinkFuncs(g), d, [m, f], 4) == if m <= 520 then [Entry(Addr(g, d, m), f, 16)] else []
  {
    var fs, ps := RelinkFuncs(g), [m, f];
    LowClauses(g, d, m, f);
    assert FuncWrites(fs, d, ps, 0) == [];
    assert FuncWrites(fs, d, ps, 1) == OneWrite(DirectWrite(g, m, f));
    assert FuncWrites(fs, d, ps, 2) == FuncWrites(fs, d, ps, 1) + OneWrite(IndirWrite(g, m, f));
    assert FuncWrites(fs, d, ps, 3) == FuncWrites(fs, d, ps, 2) + OneWrite(InIndirWrite(g, d, m, f));
    assert FuncWrites(fs, d, ps, 4) == FuncWrites(fs, d, ps, 3) + OneWrite(BindirWrite(g, m, f));
  }

  /** Exactly one clause of the relink packet fires, and it writes the pointer of the offset;
      at bindir_base_v1() no clause fires. */
  lemma RelinkWrites(g: Geo, d: Disk, m: nat, f: nat)
    ensures Ranked(MinixTable(g), MinixRank())
    ensures Writes(MinixTable(g), MinixRank(), d, RELINK, [m, f]) ==
            if m == BINDIR_BASE then [] else [Entry(Addr(g, d, m), f, 16)]
  {
    MinixRanked(g);
    var fs, ps := RelinkFuncs(g), [m, f];
    OnlyFuncs(MinixTable(g), MinixRank(), d, RELINK, ps);
    HighClauses(g, d, m, f);
    LowWrites(g, d, m, f);
    assert FuncWrites(fs, d, ps, 5) == FuncWrites(fs, d, ps, 4) + OneWrite(InBindirWrite(g, d, m, f));
    assert FuncWrites(fs, d, ps, 6) == FuncWrites(fs, d, ps, 5) + OneWrite(LeafWrite(g, d, m, f));
  }

  // ----- relocation -----

  ghost predicate ZoneUsed(g: Geo, d: Disk, b: nat) { Bit(d, ZoneBit(g, b)) == 1 }

  predicate DataBlock(g: Geo, b: nat) { g.first <= b < g.blocks }

  /** The pointer of offset m is in the inode or in a pointer block of the file. */
  predicate Placed(on: set<nat>, m: nat) { m < MAX_META && (InInode(m) || Parent(m) in on) }

  ghost predicate HasBlock(g: Geo, d: Disk, on: set<nat>, m: nat) {
    Placed(on, m) && DataBlock(g, NthMeta(g, d, m)) && ZoneUsed(g, d, NthMeta(g, d, m))
  }

  /** A file, by the set of its offsets that have a block, pointer blocks included; the others
      are holes. The blocks are distinct allocated data zones. */
  ghost predicate FileOn(g: Geo, d: Disk, on: set<nat>) {
    && ValidGeo(g, |d|)
    && (forall m :: m in on ==> HasBlock(g, d, on, m))
    && (forall a, b :: a in on && b in on && a != b ==> NthMeta(g, d, a) != NthMeta(g, d, b))
  }

  /** A block that the rule may choose. */
  ghost predicate Available(g: Geo, d: Disk, f: nat) {
    DataBlock(g, f) && !ZoneUsed(g, d, f)
  }

  /** The disk with block f marked and the contents of block b copied into it. */
  ghost function Copied(g: Geo, d: Disk, b: nat, f: nat): (r: Disk)
    requires ValidGeo(g, |d|) && DataBlock(g, b) && DataBlock(g, f)
    ensures |r| == |d|
  {
    CopyBytes(Apply(d, [Entry(ZoneBit(g, f), 1, 1)]), 1024 * f, 1024 * b, 1024)
  }

  /** The disk after both logs: the pointer write, if there is one, and the freed zone. */
  ghost function Finished(g: Geo, d: Disk, b: nat, f: nat, link: seq<Entry>): (r: Disk)
    requires ValidGeo(g, |d|) && DataBlock(g, b) && DataBlock(g, f) && AllSupported(link, |d|)
    ensures |r| == |d|
  {
    Apply(Apply(Copied(g, d, b, f), link), [Entry(ZoneBit(g, b), 0, 1)])
  }

  lemma ApplyOne(d: Disk, e: Entry, i: nat)
    requires Supported(e, |d|)
    ensures Bit(Apply(d, [e]), i) == BitAfter(d, e, i)
  {
    BitPut(d, e, i);
    assert ApplyFirst(d, [e], 0) == d;
  }

  predicate InBlock(b: nat, i: nat) { 8192 * b <= i < 8192 * b + 8192 }

  lemma CopiedBit(g: Geo, d: Disk, b: nat, f: nat, i: nat)
    requires ValidGeo(g, |d|) && DataBlock(g, b) && DataBlock(g, f)
    ensures Bit(Copied(g, d, b, f), i) ==
            if InBlock(f, i) then Bit(d, i - 8192 * f + 8192 * b)
            else if i == ZoneBit(g, f) then 1 else Bit(d, i)
  {
    var e := Entry(ZoneBit(g, f), 1, 1);
    var d1 := Apply(d, [e]);
    CopyBit(d1, 1024 * f, 1024 * b, 1024, i);
    if InBlock(f, i) {
      MarkMissesBlock(g, d, f, b, i - 8192 * f + 8192 * b);
    } else {
      ApplyOne(d, e, i);
    }
  }

  /** Marking a block in the zone map leaves the bits of data blocks alone. */
  lemma MarkMissesBlock(g: Geo, d: Disk, f: nat, b: nat, i: nat)
    requires ValidGeo(g, |d|) && DataBlock(g, b) && DataBlock(g, f) && InBlock(b, i)
    requires AllSupported([Entry(ZoneBit(g, f), 1, 1)], |d|)
    ensures Bit(Apply(d, [Entry(ZoneBit(g, f), 1, 1)]), i) == Bit(d, i)
  {
    ApplyOne(d, Entry(ZoneBit(g, f), 1, 1), i);
  }

  lemma CopyBit(d: Disk, dst: nat, src: nat, n: nat, i: nat)
    requires src + n <= |d| && dst + n <= |d|
    ensures Bit(CopyBytes(d, dst, src, n), i) ==
            if 8 * dst <= i < 8 * (dst + n) then Bit(d, i - 8 * dst + 8 * src) else Bit(d, i)
  {
    PutBytesBit(d, dst, d[src..src + n], i);
    if 8 * dst <= i < 8 * (dst + n) {
      var k := i / 8 - dst;
      assert (i - 8 * dst + 8 * src) / 8 == k + src && (i - 8 * dst + 8 * src) % 8 == i % 8;
      assert d[src..src + n][k] == d[src + k];
    }
  }

  /** Every bit of the final disk. */
  lemma FinishedBit(g: Geo, d: Disk, b: nat, f: nat, link: seq<Entry>, i: nat)
    requires ValidGeo(g, |d|) && DataBlock(g, b) && DataBlock(g, f) && AllSupported(link, |d|) && |link| <= 1
    ensures Bit(Finished(g, d, b, f, link), i) ==
            if i == ZoneBit(g, b) then 0
            else if |link| == 1 && Hits(link[0], i) then BitOf(link[0].val, i - link[0].addr)
            else Bit(Copied(g, d, b, f), i)
  {
    var d2 := Copied(g, d, b, f);
    var d3 := Apply(d2, link);
    ApplyOne(d3, Entry(ZoneBit(g, b), 0, 1), i);
    if |link| == 1 {
      assert link == [link[0]];
      ApplyOne(d2, link[0], i);
    }
    BitOfZero(0);
  }

  /** The zone map leaves the 16 bits at off alone. */
  predicate ClearOfMap(g: Geo, off: nat) { off + 16 <= g.zmap || g.zmap + (g.blocks - g.first + 1) <= off }

  /** A pointer that the transaction does not write. */
  lemma FieldKept(g: Geo, d: Disk, b: nat, f: nat, link: seq<Entry>, off: nat)
    requires ValidGeo(g, |d|) && DataBlock(g, b) && DataBlock(g, f) && AllSupported(link, |d|) && |link| <= 1
    requires |link| == 1 ==> Misses(link[0], off, 16)
    requires off + 16 <= 8192 * f || 8192 * f + 8192 <= off
    requires off >= 8192 * g.first || ClearOfMap(g, off)
    ensures Slice(Finished(g, d, b, f, link), off, 16) == Slice(d, off, 16)
  {
    var d' := Finished(g, d, b, f, link);
    forall i | off <= i < off + 16 ensures Bit(d', i) == Bit(d, i) {
      FinishedBit(g, d, b, f, link, i);
      CopiedBit(g, d, b, f, i);
    }
    SliceFrame(d', off, d, off, 16);
  }

  lemma BitCopied(g: Geo, d: Disk, b: nat, f: nat, link: seq<Entry>, i: nat, j: nat)
    requires ValidGeo(g, |d|) && DataBlock(g, b) && DataBlock(g, f) && AllSupported(link, |d|) && |link| <= 1
    requires |link| == 1 ==> Misses(link[0], 8192 * f, 8192)
    requires InBlock(f, i) && j == i - 8192 * f + 8192 * b
    ensures Bit(Finished(g, d, b, f, link), i) == Bit(d, j)
  {
    FinishedBit(g, d, b, f, link, i);
    CopiedBit(g, d, b, f, i);
  }

  /** A pointer in the new block is the copied one. */
  lemma FieldCopied(g: Geo, d: Disk, b: nat, f: nat, link: seq<Entry>, k: nat)
    requires ValidGeo(g, |d|) && DataBlock(g, b) && DataBlock(g, f) && AllSupported(link, |d|) && |link| <= 1
    requires |link| == 1 ==> Misses(link[0], 8192 * f, 8192)
    requires k < 512
    ensures Slice(Finished(g, d, b, f, link), BlockPtr(f, k), 16) == Slice(d, BlockPtr(b, k), 16)
  {
    var d', off, src := Finished(g, d, b, f, link), BlockPtr(f, k), BlockPtr(b, k);
    forall i | off <= i < off + 16 ensures Bit(d', i) == Bit(d, i - off + src) {
      BitCopiedAt(g, d, b, f, link, off, src, i);
    }
    SliceFrame(d', off, d, src, 16);
  }

  /** A bit of the copy, by its distance from corresponding places of the two blocks. */
  lemma BitCopiedAt(g: Geo, d: Disk, b: nat, f: nat, link: seq<Entry>, off: nat, src: nat, i: nat)
    requires ValidGeo(g, |d|) && DataBlock(g, b) && DataBlock(g, f) && AllSupported(link, |d|) && |link| <= 1
    requires |link| == 1 ==> Misses(link[0], 8192 * f, 8192)
    requires InBlock(f, i) && off - 8192 * f == src - 8192 * b && i - off + src >= 0
    ensures Bit(Finished(g, d, b, f, link), i) == Bit(d, i - off + src)
  {
    BitCopied(g, d, b, f, link, i, i - off + src);
  }

  /** The pointer that the transaction writes. */
  lemma FieldWritten(g: Geo, d: Disk, b: nat, f: nat, e: Entry)
    requires ValidGeo(g, |d|) && DataBlock(g, b) && DataBlock(g, f) && AllSupported([e], |d|)
    requires e.bits == 16 && e.val == f
    requires (e.addr >= 8192 * g.first || (8 * g.ino <= e.addr && e.addr + 16 <= 8 * (g.ino + 32)))
    ensures Slice(Finished(g, d, b, f, [e]), e.addr, 16) == f
  {
    var link := [e];
    var d2 := Copied(g, d, b, f);
    var d3, d' := Apply(d2, link), Finished(g, d, b, f, link);
    ApplyField(d2, link, 0);
    Pow2Values();
    LowFits(f, 16);
    forall i | e.addr <= i < e.addr + 16 ensures Bit(d', i) == Bit(d3, i) {
      ApplyOne(d3, Entry(ZoneBit(g, b), 0, 1), i);
    }
    SliceFrame(d', e.addr, d3, e.addr, 16);
  }

  // ----- the pointer tree after the move -----

  /** Pointers lie in the inode or in a data block. */
  lemma AddrPlace(g: Geo, d: Disk, on: set<nat>, m: nat)
    requires FileOn(g, d, on) && Placed(on, m)
    ensures InInode(m) ==> 8 * g.ino <= Addr(g, d, m) && Addr(g, d, m) + 16 <= 8 * (g.ino + 32)
    ensures !InInode(m) ==>
              var p := NthMeta(g, d, Parent(m));
              DataBlock(g, p) && Index(m) < 512 && Addr(g, d, m) == BlockPtr(p, Index(m))
    ensures Addr(g, d, m) % 8 == 0 && Addr(g, d, m) + 16 <= 8 * |d|
  {
    if InInode(m) {
      ByteAligned(g.ino + 14 + 2 * InodeSlot(m));
    } else {
      IndexBound(m);
      ByteAligned(1024 * NthMeta(g, d, Parent(m)) + 2 * Index(m));
    }
  }

  lemma IndexBound(m: nat)
    requires !InInode(m) && m < MAX_META
    ensures Index(m) < 512
  {
    if m > 520 {
      var b := m - BINDIR_BASE;
      assert b == 513 * (b / 513) + b % 513;
    }
  }

  /** Different offsets with the same parent have different indices. */
  lemma SameParent(a: nat, b: nat)
    requires !InInode(a) && !InInode(b) && a != b && Parent(a) == Parent(b)
    ensures Index(a) != Index(b)
  {
    if a > 520 && b > 520 {
      var x, y := a - BINDIR_BASE, b - BINDIR_BASE;
      assert x == 513 * (x / 513) + x % 513 && y == 513 * (y / 513) + y % 513;
    }
  }

  lemma PtrApart(p: nat, j: nat, q: nat, k: nat)
    requires j < 512 && k < 512 && (p != q || j != k)
    ensures BlockPtr(p, j) + 16 <= BlockPtr(q, k) || BlockPtr(q, k) + 16 <= BlockPtr(p, j)
  {
    if p < q { assert 8192 * p + 8192 <= 8192 * q; }
    if q < p { assert 8192 * q + 8192 <= 8192 * p; }
  }

  /** Two pointers of a file never overlap. */
  lemma AddrApart(g: Geo, d: Disk, on: set<nat>, a: nat, b: nat)
    requires FileOn(g, d, on) && Placed(on, a) && Placed(on, b) && a != b
    ensures Addr(g, d, a) + 16 <= Addr(g, d, b) || Addr(g, d, b) + 16 <= Addr(g, d, a)
  {
    AddrPlace(g, d, on, a);
    AddrPlace(g, d, on, b);
    if !InInode(a) && !InInode(b) {
      var p, q := Parent(a), Parent(b);
      if p == q {
        SameParent(a, b);
      } else if p < q {
        assert NthMeta(g, d, p) != NthMeta(g, d, q);
      } else {
        assert NthMeta(g, d, q) != NthMeta(g, d, p);
      }
      PtrApart(NthMeta(g, d, p), Index(a), NthMeta(g, d, q), Index(b));
    } else if InInode(a) != InInode(b) {
      InodeBelow(g, d, on, a, b);
    }
  }

  lemma InodeBelow(g: Geo, d: Disk, on: set<nat>, a: nat, b: nat)
    requires FileOn(g, d, on) && Placed(on, a) && Placed(on, b) && InInode(a) != InInode(b)
    ensures Addr(g, d, a) + 16 <= Addr(g, d, b) || Addr(g, d, b) + 16 <= Addr(g, d, a)
  {
    AddrPlace(g, d, on, a);
    AddrPlace(g, d, on, b);
  }

  /** The pointer write of the relink packet for offset m. */
  function LinkEntries(g: Geo, d: Disk, m: nat, f: nat): seq<Entry> {
    if m == BINDIR_BASE then [] else [Entry(Addr(g, d, m), f, 16)]
  }

  /** The disk after the relocation of offset m to block f. */
  ghost function MovedDisk(g: Geo, d: Disk, on: set<nat>, m: nat, f: nat): (r: Disk)
    requires FileOn(g, d, on) && m in on && DataBlock(g, f)
    ensures |r| == |d|
  {
    AddrPlace(g, d, on, m);
    Finished(g, d, NthMeta(g, d, m), f, LinkEntries(g, d, m, f))
  }

  /** The pointer of offset x keeps its address and is not written. */
  lemma KeptPointer(g: Geo, d: Disk, on: set<nat>, m: nat, f: nat, x: nat)
    requires FileOn(g, d, on) && m in on && Available(g, d, f) && Placed(on, x) && (x != m || m == BINDIR_BASE)
    ensures Slice(MovedDisk(g, d, on, m, f), Addr(g, d, x), 16) == NthMeta(g, d, x)
  {
    AddrPlace(g, d, on, m);
    AddrPlace(g, d, on, x);
    if x != m { AddrApart(g, d, on, x, m); }
    var off := Addr(g, d, x);
    if !InInode(x) {
      var p := NthMeta(g, d, Parent(x));
      assert p != f;
      BlockApart(p, Index(x), f);
    }
    FieldKept(g, d, NthMeta(g, d, m), f, LinkEntries(g, d, m, f), off);
  }

  lemma BlockApart(p: nat, k: nat, f: nat)
    requires p != f && k < 512
    ensures BlockPtr(p, k) + 16 <= 8192 * f || 8192 * f + 8192 <= BlockPtr(p, k)
  {
    if p < f { assert 8192 * p + 8192 <= 8192 * f; } else { assert 8192 * f + 8192 <= 8192 * p; }
  }

  /** Relocating offset m makes it block f and leaves every other offset as it was: pointer
      blocks are copied before they are relinked. */
  lemma {:induction false} MovedMeta(g: Geo, d: Disk, on: set<nat>, m: nat, f: nat, x: nat)
    requires FileOn(g, d, on) && m in on && m != BINDIR_BASE && Available(g, d, f) && Placed(on, x)
    ensures NthMeta(g, MovedDisk(g, d, on, m, f), x) == if x == m then f else NthMeta(g, d, x)
    decreases x
  {
    var d' := MovedDisk(g, d, on, m, f);
    AddrPlace(g, d, on, m);
    if !InInode(x) { MovedMeta(g, d, on, m, f, Parent(x)); }
    if !InInode(x) && Parent(x) == m {
      MovedChild(g, d, on, m, f, x);
    } else {
      assert Addr(g, d', x) == Addr(g, d, x);
      if x == m {
        FieldWritten(g, d, NthMeta(g, d, m), f, Entry(Addr(g, d, m), f, 16));
      } else {
        KeptPointer(g, d, on, m, f, x);
      }
    }
  }

  /** A pointer in the moved pointer block. */
  lemma MovedChild(g: Geo, d: Disk, on: set<nat>, m: nat, f: nat, x: nat)
    requires FileOn(g, d, on) && m in on && m != BINDIR_BASE && Available(g, d, f) && Placed(on, x)
    requires !InInode(x) && Parent(x) == m && NthMeta(g, MovedDisk(g, d, on, m, f), m) == f
    ensures NthMeta(g, MovedDisk(g, d, on, m, f), x) == NthMeta(g, d, x)
  {
    var d' := MovedDisk(g, d, on, m, f);
    AddrPlace(g, d, on, m);
    AddrPlace(g, d, on, x);
    assert Addr(g, d', x) == BlockPtr(f, Index(x));
    var link := LinkEntries(g, d, m, f);
    if !InInode(m) {
      assert NthMeta(g, d, Parent(m)) != f;
      BlockApart(NthMeta(g, d, Parent(m)), Index(m), f);
    }
    FieldCopied(g, d, NthMeta(g, d, m), f, link, Index(x));
  }

  /** At bindir_base_v1() the pointer is not written: the file still points to the old block. */
  lemma {:induction false} SkippedMeta(g: Geo, d: Disk, on: set<nat>, f: nat, x: nat)
    requires FileOn(g, d, on) && BINDIR_BASE in on && Available(g, d, f) && Placed(on, x)
    ensures NthMeta(g, MovedDisk(g, d, on, BINDIR_BASE, f), x) == NthMeta(g, d, x)
    decreases x
  {
    if !InInode(x) { SkippedMeta(g, d, on, f, Parent(x)); }
    KeptPointer(g, d, on, BINDIR_BASE, f, x);
    assert Addr(g, MovedDisk(g, d, on, BINDIR_BASE, f), x) == Addr(g, d, x);
  }

  /** The move is right exactly when the offset is not bindir_base_v1(). */
  lemma MovedExactly(g: Geo, d: Disk, on: set<nat>, m: nat, f: nat)
    requires FileOn(g, d, on) && m in on && Available(g, d, f)
    ensures (forall x :: Placed(on, x) ==>
               NthMeta(g, MovedDisk(g, d, on, m, f), x) == if x == m then f else NthMeta(g, d, x))
            <==> m != BINDIR_BASE
  {
    if m == BINDIR_BASE {
      SkippedMeta(g, d, on, f, m);
    } else {
      forall x | Placed(on, x)
        ensures NthMeta(g, MovedDisk(g, d, on, m, f), x) == if x == m then f else NthMeta(g, d, x)
      {
        MovedMeta(g, d, on, m, f, x);
      }
    }
  }

  /** Zone map after the move: f is used, the old block is free, nothing else changes. */
  lemma MovedZones(g: Geo, d: Disk, on: set<nat>, m: nat, f: nat, b: nat)
    requires FileOn(g, d, on) && m in on && Available(g, d, f) && DataBlock(g, b)
    ensures ZoneUsed(g, MovedDisk(g, d, on, m, f), b) <==>
            (b == f || (b != NthMeta(g, d, m) && ZoneUsed(g, d, b)))
  {
    AddrPlace(g, d, on, m);
    var was := NthMeta(g, d, m);
    LinkMissesMap(g, d, on, m, f, b);
    ZoneAfter(g, d, was, f, LinkEntries(g, d, m, f), b);
  }

  lemma ZoneAfter(g: Geo, d: Disk, was: nat, f: nat, link: seq<Entry>, b: nat)
    requires ValidGeo(g, |d|) && DataBlock(g, was) && DataBlock(g, f) && DataBlock(g, b) && was != f
    requires AllSupported(link, |d|) && |link| <= 1 && (|link| == 1 ==> !Hits(link[0], ZoneBit(g, b)))
    ensures ZoneUsed(g, Finished(g, d, was, f, link), b) <==> (b == f || (b != was && ZoneUsed(g, d, b)))
  {
    FinishedBit(g, d, was, f, link, ZoneBit(g, b));
    CopiedBit(g, d, was, f, ZoneBit(g, b));
  }

  lemma LinkMissesMap(g: Geo, d: Disk, on: set<nat>, m: nat, f: nat, b: nat)
    requires FileOn(g, d, on) && m in on && DataBlock(g, b)
    ensures m != BINDIR_BASE ==> !Hits(LinkEntries(g, d, m, f)[0], ZoneBit(g, b))
    ensures ZoneBit(g, b) < 8192 * g.first
  {
    AddrPlace(g, d, on, m);
  }

  /** The file is a file again exactly when the offset is not bindir_base_v1(); there, the block
      that the file still points to has been given back to the free pool. */
  lemma MovedFile(g: Geo, d: Disk, on: set<nat>, m: nat, f: nat)
    requires FileOn(g, d, on) && m in on && Available(g, d, f)
    ensures FileOn(g, MovedDisk(g, d, on, m, f), on) <==> m != BINDIR_BASE
  {
    var d' := MovedDisk(g, d, on, m, f);
    if m == BINDIR_BASE {
      SkippedMeta(g, d, on, f, m);
      MovedZones(g, d, on, m, f, NthMeta(g, d, m));
    } else {
      forall x | x in on
        ensures NthMeta(g, d', x) == if x == m then f else NthMeta(g, d, x)
        ensures DataBlock(g, NthMeta(g, d', x)) && ZoneUsed(g, d', NthMeta(g, d', x))
      {
        MovedMeta(g, d, on, m, f, x);
        MovedZones(g, d, on, m, f, NthMeta(g, d', x));
        if x < m { assert NthMeta(g, d, x) != NthMeta(g, d, m); }
        if m < x { assert NthMeta(g, d, m) != NthMeta(g, d, x); }
      }
    }
  }

  ghost function UsedZones(g: Geo, d: Disk): set<nat> {
    set b | g.first <= b < g.blocks && ZoneUsed(g, d, b)
  }

  /** The number of used zones is conserved. */
  lemma MovedCount(g: Geo, d: Disk, on: set<nat>, m: nat, f: nat)
    requires FileOn(g, d, on) && m in on && Available(g, d, f)
    ensures UsedZones(g, MovedDisk(g, d, on, m, f)) == UsedZones(g, d) - {NthMeta(g, d, m)} + {f}
    ensures |UsedZones(g, MovedDisk(g, d, on, m, f))| == |UsedZones(g, d)|
  {
    var was := NthMeta(g, d, m);
    var used, used' := UsedZones(g, d), UsedZones(g, MovedDisk(g, d, on, m, f));
    assert was in used && f !in used && DataBlock(g, f);
    forall b: nat ensures b in used' <==> b in used - {was} + {f} {
      UsedAfter(g, d, on, m, f, b);
    }
  }

  lemma UsedAfter(g: Geo, d: Disk, on: set<nat>, m: nat, f: nat, b: nat)
    requires FileOn(g, d, on) && m in on && Available(g, d, f)
    ensures b in UsedZones(g, MovedDisk(g, d, on, m, f)) <==>
            (b == f || (b != NthMeta(g, d, m) && b in UsedZones(g, d)))
  {
    if DataBlock(g, b) { MovedZones(g, d, on, m, f, b); }
  }

  /** Every block of the file but the pointer block that was relinked has the same contents. */
  lemma MovedContent(g: Geo, d: Disk, on: set<nat>, m: nat, f: nat, x: nat)
    requires FileOn(g, d, on) && m in on && m != BINDIR_BASE && Available(g, d, f) && x in on
    requires InInode(m) || x != Parent(m)
    ensures 1024 * NthMeta(g, d, x) + 1024 <= |d|
    ensures var b := if x == m then f else NthMeta(g, d, x);
            1024 * b + 1024 <= |d| && Content(MovedDisk(g, d, on, m, f), b) == Content(d, NthMeta(g, d, x))
  {
    if x == m {
      MovedBlock(g, d, on, m, f);
    } else {
      OtherBlock(g, d, on, m, f, x);
    }
  }

  lemma MovedBlock(g: Geo, d: Disk, on: set<nat>, m: nat, f: nat)
    requires FileOn(g, d, on) && m in on && m != BINDIR_BASE && Available(g, d, f)
    ensures 1024 * NthMeta(g, d, m) + 1024 <= |d| && 1024 * f + 1024 <= |d|
    ensures Content(MovedDisk(g, d, on, m, f), f) == Content(d, NthMeta(g, d, m))
  {
    AddrPlace(g, d, on, m);
    var d', was, link := MovedDisk(g, d, on, m, f), NthMeta(g, d, m), LinkEntries(g, d, m, f);
    if !InInode(m) {
      assert NthMeta(g, d, Parent(m)) != f;
      BlockApart(NthMeta(g, d, Parent(m)), Index(m), f);
    }
    CopiedBytes(g, d, was, f, link);
  }

  lemma CopiedBytes(g: Geo, d: Disk, was: nat, f: nat, link: seq<Entry>)
    requires ValidGeo(g, |d|) && DataBlock(g, was) && DataBlock(g, f) && AllSupported(link, |d|) && |link| <= 1
    requires |link| == 1 ==> Misses(link[0], 8192 * f, 8192)
    ensures 1024 * was + 1024 <= |d| && 1024 * f + 1024 <= |d|
    ensures Content(Finished(g, d, was, f, link), f) == Content(d, was)
  {
    var d', a, b := Finished(g, d, was, f, link), 1024 * f, 1024 * was;
    forall i | 8 * a <= i < 8 * (a + 1024) ensures Bit(d', i) == Bit(d, i - 8 * a + 8 * b) {
      BitCopiedAt(g, d, was, f, link, 8 * a, 8 * b, i);
    }
    SameBytes(d', a, d, b, 1024);
  }

  lemma OtherBlock(g: Geo, d: Disk, on: set<nat>, m: nat, f: nat, x: nat)
    requires FileOn(g, d, on) && m in on && m != BINDIR_BASE && Available(g, d, f) && x in on && x != m
    requires InInode(m) || x != Parent(m)
    ensures 1024 * NthMeta(g, d, x) + 1024 <= |d|
    ensures Content(MovedDisk(g, d, on, m, f), NthMeta(g, d, x)) == Content(d, NthMeta(g, d, x))
  {
    AddrPlace(g, d, on, m);
    var d', was, link := MovedDisk(g, d, on, m, f), NthMeta(g, d, m), LinkEntries(g, d, m, f);
    LinkElsewhere(g, d, on, m, f, x);
    OtherBytes(g, d, was, f, link, NthMeta(g, d, x));
  }

  lemma OtherBytes(g: Geo, d: Disk, was: nat, f: nat, link: seq<Entry>, b: nat)
    requires ValidGeo(g, |d|) && DataBlock(g, was) && DataBlock(g, f) && DataBlock(g, b) && b != f
    requires AllSupported(link, |d|) && |link| <= 1 && (|link| == 1 ==> Misses(link[0], 8192 * b, 8192))
    ensures 1024 * b + 1024 <= |d| && Content(Finished(g, d, was, f, link), b) == Content(d, b)
  {
    var d', a := Finished(g, d, was, f, link), 1024 * b;
    forall i | 8 * a <= i < 8 * (a + 1024) ensures Bit(d', i) == Bit(d, i) {
      OtherBit(g, d, was, f, link, b, i);
    }
    SameBytes(d', a, d, a, 1024);
  }

  lemma OtherBit(g: Geo, d: Disk, was: nat, f: nat, link: seq<Entry>, b: nat, i: nat)
    requires ValidGeo(g, |d|) && DataBlock(g, was) && DataBlock(g, f) && DataBlock(g, b) && b != f
    requires AllSupported(link, |d|) && |link| <= 1 && (|link| == 1 ==> Misses(link[0], 8192 * b, 8192))
    requires 8192 * b <= i < 8192 * b + 8192
    ensures Bit(Finished(g, d, was, f, link), i) == Bit(d, i)
  {
    FinishedBit(g, d, was, f, link, i);
    CopiedBit(g, d, was, f, i);
  }

  lemma LinkElsewhere(g: Geo, d: Disk, on: set<nat>, m: nat, f: nat, x: nat)
    requires FileOn(g, d, on) && m in on && m != BINDIR_BASE && Available(g, d, f) && x in on && x != m
    requires InInode(m) || x != Parent(m)
    ensures NthMeta(g, d, x) != f
    ensures Misses(LinkEntries(g, d, m, f)[0], 8192 * NthMeta(g, d, x), 8192)
  {
    AddrPlace(g, d, on, m);
    if !InInode(m) {
      var p := Parent(m);
      if p < x { assert NthMeta(g, d, p) != NthMeta(g, d, x); } else { assert NthMeta(g, d, x) != NthMeta(g, d, p); }
      BlockApart(NthMeta(g, d, p), Index(m), NthMeta(g, d, x));
    }
  }

  // ----- other files -----

  /** Another inode of the same file system, and its file shares no block with the first. */
  ghost predicate OtherOn(g: Geo, d: Disk, on: set<nat>, h: Geo, on2: set<nat>) {
    && h == g.(ino := h.ino) && (h.ino + 32 <= g.ino || g.ino + 32 <= h.ino)
    && FileOn(g, d, on) && FileOn(h, d, on2)
    && forall x, y :: x in on && y in on2 ==> NthMeta(g, d, x) != NthMeta(h, d, y)
  }

  /** The pointer write of the first file is not in a place of the other. */
  lemma LinkMissesOther(g: Geo, d: Disk, on: set<nat>, h: Geo, on2: set<nat>, m: nat, f: nat, y: nat)
    requires OtherOn(g, d, on, h, on2) && m in on && Placed(on2, y)
    ensures m != BINDIR_BASE ==> Misses(LinkEntries(g, d, m, f)[0], Addr(h, d, y), 16)
  {
    AddrPlace(g, d, on, m);
    AddrPlace(h, d, on2, y);
    if !InInode(m) && !InInode(y) {
      assert NthMeta(g, d, Parent(m)) != NthMeta(h, d, Parent(y));
      PtrApart(NthMeta(g, d, Parent(m)), Index(m), NthMeta(h, d, Parent(y)), Index(y));
    }
  }

  lemma OtherPointer(g: Geo, d: Disk, on: set<nat>, h: Geo, on2: set<nat>, m: nat, f: nat, y: nat)
    requires OtherOn(g, d, on, h, on2) && m in on && Available(g, d, f) && Placed(on2, y)
    ensures Slice(MovedDisk(g, d, on, m, f), Addr(h, d, y), 16) == NthMeta(h, d, y)
  {
    AddrPlace(g, d, on, m);
    LinkMissesOther(g, d, on, h, on2, m, f, y);
    OtherPlace(g, d, on, h, on2, f, y);
    FieldKept(g, d, NthMeta(g, d, m), f, LinkEntries(g, d, m, f), Addr(h, d, y));
  }

  lemma OtherPlace(g: Geo, d: Disk, on: set<nat>, h: Geo, on2: set<nat>, f: nat, y: nat)
    requires OtherOn(g, d, on, h, on2) && Available(g, d, f) && Placed(on2, y)
    ensures var off := Addr(h, d, y);
            && (off + 16 <= 8192 * f || 8192 * f + 8192 <= off)
            && (off >= 8192 * g.first || ClearOfMap(g, off))
  {
    AddrPlace(h, d, on2, y);
    if !InInode(y) {
      var p := NthMeta(h, d, Parent(y));
      assert ZoneUsed(h, d, p) && p != f;
      BlockApart(p, Index(y), f);
    }
  }

  /** Moving a block of one file leaves every lookup of another file as it was. */
  lemma {:induction false} OtherMeta(g: Geo, d: Disk, on: set<nat>, h: Geo, on2: set<nat>, m: nat, f: nat, y: nat)
    requires OtherOn(g, d, on, h, on2) && m in on && Available(g, d, f) && Placed(on2, y)
    ensures NthMeta(h, MovedDisk(g, d, on, m, f), y) == NthMeta(h, d, y)
    decreases y
  {
    if !InInode(y) { OtherMeta(g, d, on, h, on2, m, f, Parent(y)); }
    assert Addr(h, MovedDisk(g, d, on, m, f), y) == Addr(h, d, y);
    OtherPointer(g, d, on, h, on2, m, f, y);
  }

  lemma OtherContent(g: Geo, d: Disk, on: set<nat>, h: Geo, on2: set<nat>, m: nat, f: nat, y: nat)
    requires OtherOn(g, d, on, h, on2) && m in on && Available(g, d, f) && y in on2
    ensures 1024 * NthMeta(h, d, y) + 1024 <= |d|
    ensures Content(MovedDisk(g, d, on, m, f), NthMeta(h, d, y)) == Content(d, NthMeta(h, d, y))
  {
    var b, link := NthMeta(h, d, y), LinkEntries(g, d, m, f);
    AddrPlace(g, d, on, m);
    if !InInode(m) {
      assert NthMeta(g, d, Parent(m)) != b;
      BlockApart(NthMeta(g, d, Parent(m)), Index(m), b);
    }
    OtherBytes(g, d, NthMeta(g, d, m), f, link, b);
  }

  /** The other file is a file still, with the same blocks in the same places. */
  lemma OtherFile(g: Geo, d: Disk, on: set<nat>, h: Geo, on2: set<nat>, m: nat, f: nat)
    requires OtherOn(g, d, on, h, on2) && m in on && Available(g, d, f)
    ensures FileOn(h, MovedDisk(g, d, on, m, f), on2)
  {
    var d' := MovedDisk(g, d, on, m, f);
    forall y | y in on2
      ensures NthMeta(h, d', y) == NthMeta(h, d, y) && HasBlock(h, d', on2, y)
    {
      OtherNode(g, d, on, h, on2, m, f, y);
    }
  }

  lemma OtherNode(g: Geo, d: Disk, on: set<nat>, h: Geo, on2: set<nat>, m: nat, f: nat, y: nat)
    requires OtherOn(g, d, on, h, on2) && m in on && Available(g, d, f) && y in on2
    ensures var d' := MovedDisk(g, d, on, m, f);
            NthMeta(h, d', y) == NthMeta(h, d, y) && HasBlock(h, d', on2, y)
  {
    var b := NthMeta(h, d, y);
    OtherMeta(g, d, on, h, on2, m, f, y);
    assert HasBlock(h, d, on2, y) && NthMeta(g, d, m) != b;
    SameZone(g, h, d, b);
    MovedZones(g, d, on, m, f, b);
    SameZone(g, h, MovedDisk(g, d, on, m, f), b);
  }

  lemma SameZone(g: Geo, h: Geo, d: Disk, b: nat)
    requires h == g.(ino := h.ino)
    ensures ZoneUsed(h, d, b) <==> ZoneUsed(g, d, b)
  {
  }

  // ----- the protocol computes that disk -----

  /** Allocation and copy leave the pointer tree as it was. */
  lemma {:induction false} StagedMeta(g: Geo, d: Disk, on: set<nat>, b: nat, f: nat, x: nat)
    requires FileOn(g, d, on) && DataBlock(g, b) && Available(g, d, f) && Placed(on, x)
    ensures NthMeta(g, Copied(g, d, b, f), x) == NthMeta(g, d, x)
    ensures Addr(g, Copied(g, d, b, f), x) == Addr(g, d, x)
    decreases x
  {
    var d2, off := Copied(g, d, b, f), Addr(g, d, x);
    AddrPlace(g, d, on, x);
    if !InInode(x) {
      StagedMeta(g, d, on, b, f, Parent(x));
      assert NthMeta(g, d, Parent(x)) != f;
      BlockApart(NthMeta(g, d, Parent(x)), Index(x), f);
    }
    assert Addr(g, d2, x) == off;
    forall i | off <= i < off + 16 ensures Bit(d2, i) == Bit(d, i) {
      CopiedBit(g, d, b, f, i);
    }
    SliceFrame(d2, off, d, off, 16);
  }

  lemma ZoneSupported(g: Geo, len: nat, b: nat, v: nat)
    requires ValidGeo(g, len) && DataBlock(g, b)
    ensures AllSupported([Entry(ZoneBit(g, b), v, 1)], len)
  {
  }

  /** The first half of the transaction. */
  lemma StageIsCopied(g: Geo, d: Disk, on: set<nat>, m: nat, f: nat)
    requires FileOn(g, d, on) && m in on && Available(g, d, f)
    ensures Wellformed(MinixReloc(g), MinixRank())
    ensures AllocLog(MinixReloc(g), MinixRank(), d, f) == [Entry(ZoneBit(g, f), 1, 1)]
    ensures AllSupported([Entry(ZoneBit(g, f), 1, 1)], |d|)
    ensures MinixReloc(g).selByte(d, m + 1) == 1024 * NthMeta(g, d, m)
    ensures Apart(1024 * f, 1024 * NthMeta(g, d, m), 1024)
    ensures 1024 * f + 1024 <= |d| && 1024 * NthMeta(g, d, m) + 1024 <= |d|
    ensures Staged(MinixReloc(g), MinixRank(), d, m + 1, f) == Copied(g, d, NthMeta(g, d, m), f)
  {
    MinixRanked(g);
    ZoneWrites(g, d, f);
    ZoneSupported(g, |d|, f, 1);
    var b := NthMeta(g, d, m);
    assert b != f;
    if b < f { assert 1024 * b + 1024 <= 1024 * f; } else { assert 1024 * f + 1024 <= 1024 * b; }
  }

  /** The second half, computed from the staged disk. */
  lemma LogsOnStage(g: Geo, d: Disk, on: set<nat>, m: nat, f: nat)
    requires FileOn(g, d, on) && m in on && Available(g, d, f)
    ensures Wellformed(MinixReloc(g), MinixRank())
    ensures var b := NthMeta(g, d, m); var d2 := Copied(g, d, b, f);
            && ReplaceLog(MinixReloc(g), MinixRank(), d2, m + 1) == [Entry(ZoneBit(g, b), 0, 1)]
            && RelinkLog(MinixReloc(g), MinixRank(), d2, m + 1, f) == LinkEntries(g, d, m, f)
  {
    ReplaceOnStage(g, d, on, m, f);
    RelinkOnStage(g, d, on, m, f);
  }

  lemma ReplaceOnStage(g: Geo, d: Disk, on: set<nat>, m: nat, f: nat)
    requires FileOn(g, d, on) && m in on && Available(g, d, f)
    ensures Wellformed(MinixReloc(g), MinixRank())
    ensures var b := NthMeta(g, d, m);
            ReplaceLog(MinixReloc(g), MinixRank(), Copied(g, d, b, f), m + 1) == [Entry(ZoneBit(g, b), 0, 1)]
  {
    var b := NthMeta(g, d, m);
    MinixRanked(g);
    StagedMeta(g, d, on, b, f, m);
    ZoneWrites(g, Copied(g, d, b, f), b);
  }

  lemma RelinkOnStage(g: Geo, d: Disk, on: set<nat>, m: nat, f: nat)
    requires FileOn(g, d, on) && m in on && Available(g, d, f)
    ensures Wellformed(MinixReloc(g), MinixRank())
    ensures RelinkLog(MinixReloc(g), MinixRank(), Copied(g, d, NthMeta(g, d, m), f), m + 1, f) ==
            LinkEntries(g, d, m, f)
  {
    var b := NthMeta(g, d, m);
    MinixRanked(g);
    StagedMeta(g, d, on, b, f, m);
    RelinkWrites(g, Copied(g, d, b, f), m, f);
  }

  lemma LogsFit(g: Geo, d: Disk, on: set<nat>, m: nat, f: nat)
    requires FileOn(g, d, on) && m in on && Available(g, d, f)
    ensures Loggable([Entry(ZoneBit(g, f), 1, 1)], d)
    ensures var b := NthMeta(g, d, m); var d2 := Copied(g, d, b, f);
            Loggable([Entry(ZoneBit(g, b), 0, 1)], d2) && Loggable(LinkEntries(g, d, m, f), d2)
  {
    var b := NthMeta(g, d, m);
    AddrPlace(g, d, on, m);
    ZoneSupported(g, |d|, f, 1);
    ZoneSupported(g, |d|, b, 0);
    WholeLines([Entry(ZoneBit(g, f), 1, 1)], d);
    WholeLines([Entry(ZoneBit(g, b), 0, 1)], Copied(g, d, b, f));
    WholeLines(LinkEntries(g, d, m, f), Copied(g, d, b, f));
  }

  /** The relocation protocol, run with the minix packets, gives that disk. */
  lemma RelocatedIsMoved(g: Geo, d: Disk, on: set<nat>, m: nat, f: nat)
    requires FileOn(g, d, on) && m in on && Available(g, d, f)
    ensures CanRelocate(MinixReloc(g), MinixRank(), d, m + 1, f)
    ensures Relocated(MinixReloc(g), MinixRank(), d, m + 1, f) == MovedDisk(g, d, on, m, f)
  {
    StageIsCopied(g, d, on, m, f);
    LogsOnStage(g, d, on, m, f);
    LogsFit(g, d, on, m, f);
  }

  /** The v1 relocation rule on a disk, for every offset but bindir_base_v1(). */
  method RelocateBlock(io: Io, log: Log, g: Geo, ghost on: set<nat>, m: nat, f: nat)
    requires io.Valid() && log.Valid() && log.idx == -1
    requires FileOn(g, io.file, on) && m in on && m != BINDIR_BASE && Available(g, io.file, f)
    modifies io, io.ents, log, log.ents
    ensures io.Valid() && log.Valid() && log.idx == -1
    ensures io.file == MovedDisk(g, old(io.file), on, m, f) && FileOn(g, io.file, on)
    ensures forall x :: Placed(on, x) ==> NthMeta(g, io.file, x) == if x == m then f else NthMeta(g, old(io.file), x)
  {
    ghost var d := io.file;
    RelocatedIsMoved(g, d, on, m, f);
    WpktRelocate(io, log, MinixReloc(g), MinixRank(), 1024 * NthMeta(g, io.file, m), m + 1, f);
    MovedFile(g, d, on, m, f);
    MovedExactly(g, d, on, m, f);
  }
}
