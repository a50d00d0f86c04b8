/** The vfat relocation rule for FAT16 and FAT32 (Microsoft FAT32 File System Specification,
    sections "FAT Data Structure" and "FAT Type Determination"), on the bytes of the disk. */
module Vfat {
  import opened Arith
  import opened Bits
  import opened Flat
  import opened Packets
  import opened Relocate
  import opened FatChain

  /** What the boot sector determines: entry width, its field for the sectors of a FAT16 table,
      number of tables and of clusters, cluster size, and where (in bytes) the tables and the
      clusters start. */
  datatype Geo = Geo(w: nat, sectors16: nat, fatCount: nat, clusters: nat, clusBytes: nat,
                     fatBase: nat, fatBytes: nat, clusBase: nat)

  function BadFat(g: Geo): nat { if g.w == 16 then 0xfff7 else 0xffff_fff7 }
  function EofFat(g: Geo): nat { if g.w == 16 then 0xffff else 0xffff_ffff }

  /** get_fat_type, as the width of an entry. */
  function EntryBits(sectorsInFat16: nat, clusters: nat): nat {
    if sectorsInFat16 == 0 then 32 else if clusters < 4085 then 12 else if clusters < 65525 then 16 else 32
  }

  /** The entry width is that of get_fat_type, FAT12 aside. A FAT32 volume has too few clusters
      to reach the marker for bad clusters; for FAT16 this follows from the type. */
  predicate Typed(g: Geo) {
    && g.w == EntryBits(g.sectors16, g.clusters) && g.w != 12
    && (g.w == 32 ==> g.clusters + 1 < BadFat(g))
  }

  /** No cluster is numbered like the markers for bad clusters and the end of a chain. */
  lemma TypeKeepsMarkers(g: Geo, cn: nat)
    requires Typed(g) && cn < g.clusters + 2
    ensures cn < BadFat(g) < EofFat(g)
  {
  }

  function FatByte(g: Geo, n: nat): nat { g.fatBase + n * g.fatBytes }
  function FatEnd(g: Geo): nat { FatByte(g, g.fatCount) }

  /** Bit address of the entry of cluster cn in table n. */
  function FatAddr(g: Geo, n: nat, cn: nat): nat {
    8 * FatByte(g, n) + (if g.w == 16 then 16 * cn else 32 * cn)
  }

  /** Byte address of cluster cn. */
  function ClusByte(g: Geo, cn: nat): nat {
    if cn < 2 then g.clusBase else g.clusBase + (cn - 2) * g.clusBytes
  }

  /** A geometry of a disk of len bytes: at least one table and at most as many as the write
      log can take twice, tables that hold all entries, then the clusters. */
  predicate ValidGeo(g: Geo, len: nat) {
    && Typed(g)
    && 1 <= g.fatCount <= 32
    && 1 <= g.clusters
    && (if g.w == 16 then 2 * (g.clusters + 2) else 4 * (g.clusters + 2)) <= g.fatBytes
    && FatEnd(g) <= g.clusBase
    && g.clusBytes > 0
    && ClusByte(g, g.clusters + 2) <= len
  }

  lemma FatOrder(g: Geo, n: nat, m: nat)
    requires n < m
    ensures FatByte(g, n) + g.fatBytes <= FatByte(g, m)
  {
    TimesLe(g.fatBytes, n + 1, m);
    assert g.fatBytes * (n + 1) == n * g.fatBytes + g.fatBytes && g.fatBytes * m == m * g.fatBytes;
  }

  lemma ClusOrder(g: Geo, a: nat, b: nat)
    requires 2 <= a < b
    ensures ClusByte(g, a) + g.clusBytes <= ClusByte(g, b)
  {
    TimesLe(g.clusBytes, a - 2 + 1, b - 2);
    assert g.clusBytes * (a - 2 + 1) == (a - 2) * g.clusBytes + g.clusBytes;
    assert g.clusBytes * (b - 2) == (b - 2) * g.clusBytes;
  }

  lemma ClusRange(g: Geo, len: nat, cn: nat)
    requires ValidGeo(g, len) && 2 <= cn < g.clusters + 2
    ensures FatEnd(g) <= g.clusBase <= ClusByte(g, cn)
    ensures ClusByte(g, cn) + g.clusBytes <= len
  {
    ClusOrder(g, cn, g.clusters + 2);
  }

  /** An entry of w bits at index cn of a table at byte b, in a table that holds m entries. */
  lemma EntryRange(w: nat, b: nat, bytes: nat, cn: nat, m: nat)
    requires (w == 16 || w == 32) && cn < m && (if w == 16 then 2 * m else 4 * m) <= bytes
    ensures var a := 8 * b + (if w == 16 then 16 * cn else 32 * cn);
            8 * b <= a && a + w <= 8 * (b + bytes) && a % 8 == 0
  {
    ByteAligned(b + (if w == 16 then 2 * cn else 4 * cn));
  }

  /** Entries of the tables lie inside the tables and do not overlap each other. */
  lemma FatRange(g: Geo, len: nat, n: nat, cn: nat)
    requires ValidGeo(g, len) && n < g.fatCount && cn < g.clusters + 2
    ensures 8 * g.fatBase <= FatAddr(g, n, cn)
    ensures FatAddr(g, n, cn) + g.w <= 8 * FatEnd(g) <= 8 * len
    ensures FatAddr(g, n, cn) % 8 == 0
  {
    NonNeg(n, g.fatBytes);
    EntryRange(g.w, FatByte(g, n), g.fatBytes, cn, g.clusters + 2);
    FatOrder(g, n, g.fatCount);
    ClusRange(g, len, 2);
  }

  lemma FatApart(g: Geo, len: nat, n: nat, a: nat, m: nat, b: nat)
    requires ValidGeo(g, len) && n < g.fatCount && m < g.fatCount && a < g.clusters + 2 && b < g.clusters + 2
    requires n != m || a != b
    ensures FatAddr(g, n, a) + g.w <= FatAddr(g, m, b) || FatAddr(g, m, b) + g.w <= FatAddr(g, n, a)
  {
    if n < m { FatOrder(g, n, m); } else if m < n { FatOrder(g, m, n); }
  }

  // ----- what is on the disk -----

  /** fat_next: entry of cluster cn in the first table. */
  function FatNext(g: Geo, d: Disk, cn: nat): nat {
    Slice(d, FatAddr(g, 0, cn), g.w)
  }

  /** Table n as a sequence of entries. */
  function Fat(g: Geo, d: Disk, n: nat): (fat: seq<nat>)
    ensures |fat| == g.clusters + 2
  {
    seq(g.clusters + 2, x requires 0 <= x => Slice(d, FatAddr(g, n, x), g.w))
  }

  function Content(g: Geo, d: Disk, cn: nat): seq<Byte>
    requires ValidGeo(g, |d|) && 2 <= cn < g.clusters + 2
  {
    ClusRange(g, |d|, cn);
    d[ClusByte(g, cn)..ClusByte(g, cn) + g.clusBytes]
  }

  // directory entry at byte de
  function DeAttr(d: Disk, de: nat): nat { Slice(d, 8 * (de + 11), 8) }
  function HiAddr(de: nat): nat { 8 * de + 160 }
  function LoAddr(de: nat): nat { 8 * de + 208 }
  function DeHi(d: Disk, de: nat): nat { Slice(d, HiAddr(de), 16) }
  function DeLo(d: Disk, de: nat): nat { Slice(d, LoAddr(de), 16) }
  function DeSize(d: Disk, de: nat): nat { Slice(d, 8 * (de + 28), 32) }

  function Start(d: Disk, de: nat): nat { 65536 * DeHi(d, de) + DeLo(d, de) }

  /** fat_chain_nth_cnum: the i-th cluster of a chain, counted from 1. */
  function ChainNth(g: Geo, d: Disk, start: nat, i: nat): nat
    decreases i
  {
    if i > 1 && start != EofFat(g) then ChainNth(g, d, FatNext(g, d, start), i - 1) else start
  }

  /** The loop of fat_chain_nth_cnum. */
  method FatChainNthCnum(g: Geo, d: Disk, startClus: nat, n: nat) returns (cur: nat)
    ensures cur == ChainNth(g, d, startClus, n)
  {
    cur := startClus;
    var i := n;
    while i > 1 && cur != EofFat(g)
      invariant ChainNth(g, d, cur, i) == ChainNth(g, d, startClus, n)
    {
      cur := FatNext(g, d, cur);
      i := i - 1;
    }
  }

  function NthCnum(g: Geo, d: Disk, de: nat, i: nat): nat {
    ChainNth(g, d, Start(d, de), i)
  }

  /** is_de_dir; DIR_MASK is directory | volume id | last long entry. */
  predicate IsDir(d: Disk, de: nat) {
    DeSize(d, de) != 0xffff_ffff && And(0x58, DeAttr(d, de)) == 0x10
  }

  /** is_back_ref: the name is "." or "..". */
  predicate IsBackRef(d: Disk, de: nat) {
    && Slice(d, 8 * de, 8) == 0x2e
    && (|| Slice(d, 8 * (de + 1), 8) == 0x20
        || (Slice(d, 8 * (de + 1), 8) == 0x2e && Slice(d, 8 * (de + 2), 8) == 0x20))
  }

  predicate IsGoodDir(d: Disk, de: nat) {
    IsDir(d, de) && !IsBackRef(d, de)
  }

  /** is_de_file. */
  predicate IsFile(d: Disk, de: nat) {
    DeSize(d, de) != 0xffff_ffff && And(0x58, DeAttr(d, de)) == 0
  }

  /** de_cluster_count of a regular file. */
  function ClusterCount(g: Geo, d: Disk, de: nat): nat
    requires g.clusBytes > 0
  {
    CeilDiv(DeSize(d, de), g.clusBytes)
  }

  /** It is the least number of clusters that hold the file. */
  lemma CountHolds(g: Geo, d: Disk, de: nat)
    requires g.clusBytes > 0
    ensures var n, size := ClusterCount(g, d, de), DeSize(d, de);
            size <= n * g.clusBytes && (size > 0 ==> n > 0 && (n - 1) * g.clusBytes < size)
  {
    var n, t := ClusterCount(g, d, de), DeSize(d, de) + g.clusBytes - 1;
    assert n == t / g.clusBytes;
    assert t == g.clusBytes * n + t % g.clusBytes && g.clusBytes * n == n * g.clusBytes;
    if DeSize(d, de) > 0 {
      DivLe(g.clusBytes, t, g.clusBytes);
      assert (n - 1) * g.clusBytes == n * g.clusBytes - g.clusBytes;
    }
  }

  /** The fields of a directory entry by its bytes: attributes at 11, the halves of the first
      cluster at 20 and at 26, the size at 28. */
  lemma DeBytes(d: Disk, de: nat)
    requires de + 32 <= |d|
    ensures DeAttr(d, de) == d[de + 11] && DeSize(d, de) == Le32(d, de + 28)
    ensures Start(d, de) == Le16(d, de + 26) + 65536 * Le16(d, de + 20)
  {
    SliceByte(d, de + 11);
    SliceLe16(d, de + 20);
    SliceLe16(d, de + 26);
    SliceLe32(d, de + 28);
  }

  /** The entry of a cluster in a table, by its bytes. */
  lemma EntryBytes(g: Geo, d: Disk, n: nat, cn: nat)
    requires ValidGeo(g, |d|) && n < g.fatCount && cn < g.clusters + 2
    ensures var at := g.fatBase + n * g.fatBytes + if g.w == 16 then 2 * cn else 4 * cn;
            && at + g.w / 8 <= |d|
            && Fat(g, d, n)[cn] == (if g.w == 16 then Le16(d, at) else Le32(d, at))
            && (n == 0 ==> FatNext(g, d, cn) == Fat(g, d, n)[cn])
  {
    FatRange(g, |d|, n, cn);
    var at := FatByte(g, n) + if g.w == 16 then 2 * cn else 4 * cn;
    assert FatAddr(g, n, cn) == 8 * at;
    if g.w == 16 { SliceLe16(d, at); } else { SliceLe32(d, at); }
  }

  /** Cluster 2 is the first one; the clusters follow each other. */
  lemma ClustersFollow(g: Geo, cn: nat)
    requires cn >= 2
    ensures ClusByte(g, 2) == g.clusBase && ClusByte(g, cn + 1) == ClusByte(g, cn) + g.clusBytes
  {
    assert (cn - 1) * g.clusBytes == (cn - 2) * g.clusBytes + g.clusBytes;
  }

  /** A regular file is neither a volume label (bit 3) nor a directory (bit 4), and bit 6 is clear. */
  lemma FileBits(d: Disk, de: nat)
    ensures IsFile(d, de) <==>
            DeSize(d, de) != 0xffff_ffff && BitOf(DeAttr(d, de), 3) == 0 && BitOf(DeAttr(d, de), 4) == 0 &&
            BitOf(DeAttr(d, de), 6) == 0
  {
    var a := DeAttr(d, de);
    MaskBits();
    var x := And(0x58, a);
    if x == 0 {
      BitOfAnd(0x58, a, 3);
      BitOfAnd(0x58, a, 4);
      BitOfAnd(0x58, a, 6);
      BitOfZero(3);
      BitOfZero(4);
      BitOfZero(6);
    }
    if BitOf(a, 3) == 0 && BitOf(a, 4) == 0 && BitOf(a, 6) == 0 {
      forall k: nat ensures BitOf(x, k) == BitOf(0, k) {
        BitOfAnd(0x58, a, k);
        BitOfZero(k);
        if k > 6 { Pow2Values(); FitsBits(0x58, 7, k); }
      }
      SameBits(x, 0);
    }
  }

  lemma MaskBits()
    ensures Pow2(7) == 128
    ensures forall k: nat :: k <= 6 ==> (BitOf(0x58, k) == 1 <==> k == 3 || k == 4 || k == 6)
  {
    assert Pow2(4) == 16 && Pow2(7) == 128;
    assert BitOf(0x58, 0) == 0 && BitOf(0x58, 1) == 0 && BitOf(0x58, 2) == 0 && BitOf(0x58, 3) == 1;
    assert BitOf(0x58, 4) == 1 && BitOf(0x58, 5) == 0 && BitOf(0x58, 6) == 1;
  }

  // ----- the packets -----

  const WRITE_FAT: nat := 0
  const WRITE_FAT_N: nat := 1
  const BLOCK_ALLOC: nat := 2
  const BLOCK_REPLACE: nat := 3
  const WRITE_DE_CN: nat := 4
  const UPDATE_DE: nat := 5
  const FIX_DIR_REFS: nat := 6
  const BLOCK_RELINK: nat := 7

  function Always(): (Disk, Params) -> bool { (d, ps) => true }

  function WriteFatN(g: Geo): Wpkt {
    Wpkt([(d: Disk, ps: Params) => When(g.w == 16, Entry(FatAddr(g, P(ps, 2), P(ps, 0)), P(ps, 1), 16)),
          (d: Disk, ps: Params) => When(g.w == 32, Entry(FatAddr(g, P(ps, 2), P(ps, 0)), P(ps, 1), 32))],
         [Call((d: Disk, ps: Params) => P(ps, 2) + 1 < g.fatCount,
               (d: Disk, ps: Params) => [P(ps, 0), P(ps, 1), P(ps, 2) + 1], WRITE_FAT_N)])
  }

  function WriteDeCn(g: Geo): Wpkt {
    Wpkt([(d: Disk, ps: Params) => When(g.w == 16, Entry(LoAddr(P(ps, 0)), And(P(ps, 1), 0xffff), 16)),
          (d: Disk, ps: Params) => When(g.w == 32, Entry(LoAddr(P(ps, 0)), And(P(ps, 1), 0xffff), 16)),
          (d: Disk, ps: Params) => When(g.w == 16, Entry(HiAddr(P(ps, 0)), 0, 16)),
          (d: Disk, ps: Params) => When(g.w == 32, Entry(HiAddr(P(ps, 0)), Shr(P(ps, 1), 16), 16))],
         [])
  }

  function BlockRelink(g: Geo): Wpkt {
    Wpkt([],
         [Call((d: Disk, ps: Params) => P(ps, 1) == 1,
               (d: Disk, ps: Params) => [P(ps, 0), P(ps, 2)], UPDATE_DE),
          Call((d: Disk, ps: Params) => P(ps, 1) > 1,
               (d: Disk, ps: Params) =>
                 [NthCnum(g, d, P(ps, 0), if P(ps, 1) > 0 then P(ps, 1) - 1 else 0), P(ps, 2)], WRITE_FAT),
          Call(Always(), (d: Disk, ps: Params) => [P(ps, 2), NthCnum(g, d, P(ps, 0), P(ps, 1) + 1)], WRITE_FAT)])
  }

  /** The packet table; FIX_DIR_REFS, which only directories call, is left empty. */
  function VfatTable(g: Geo): Table {
    [Wpkt([], [Call(Always(), (d: Disk, ps: Params) => [P(ps, 0), P(ps, 1), 0], WRITE_FAT_N)]),
     WriteFatN(g),
     Wpkt([], [Call(Always(), (d: Disk, ps: Params) => [P(ps, 0), BadFat(g)], WRITE_FAT)]),
     Wpkt([], [Call(Always(), (d: Disk, ps: Params) => [P(ps, 0), 0], WRITE_FAT)]),
     WriteDeCn(g),
     Wpkt([], [Call(Always(), (d: Disk, ps: Params) => [P(ps, 0), P(ps, 1)], WRITE_DE_CN),
               Call((d: Disk, ps: Params) => IsGoodDir(d, P(ps, 0)),
                   (d: Disk, ps: Params) => [P(ps, 0), P(ps, 1)], FIX_DIR_REFS)]),
     Wpkt([], []),
     BlockRelink(g)]
  }

  function RankOf(g: Geo, p: nat, ps: Params): nat {
    if p == WRITE_FAT_N then (if P(ps, 2) < g.fatCount then g.fatCount - P(ps, 2) else 0)
    else if p == WRITE_FAT then g.fatCount + 1
    else if p == BLOCK_ALLOC || p == BLOCK_REPLACE then g.fatCount + 2
    else if p == UPDATE_DE then 1
    else if p == BLOCK_RELINK then g.fatCount + 3
    else 0
  }

  function VfatRank(g: Geo): Rank { (d: Disk, p: nat, ps: Params) => RankOf(g, p, ps) }

  lemma VfatRanked(g: Geo)
    ensures Ranked(VfatTable(g), VfatRank(g))
  {
    var t, rank := VfatTable(g), VfatRank(g);
    forall d: Disk, p: nat, ps: Params, k: nat | p < |t| && k < |t[p].calls| && t[p].calls[k].cond(d, ps)
      ensures CallRanked(t, rank, d, p, ps, t[p].calls[k])
    {
    }
  }

  // ----- what the packets log -----

  ghost function VfatWrites(g: Geo, d: Disk, p: nat, ps: Params): seq<Entry>
    requires p < 8
  {
    VfatRanked(g);
    Writes(VfatTable(g), VfatRank(g), d, p, ps)
  }

  /** The same value in the entry of cluster cn of every table. */
  function FatEntries(g: Geo, cn: nat, v: nat): (es: seq<Entry>)
    ensures |es| == g.fatCount
  {
    seq(g.fatCount, n requires 0 <= n => Entry(FatAddr(g, n, cn), v, g.w))
  }

  lemma WriteFatNFuncs(g: Geo, d: Disk, cn: nat, v: nat, n: nat)
    requires g.w == 16 || g.w == 32
    ensures FuncWrites(WriteFatN(g).funcs, d, [cn, v, n], 2) == [Entry(FatAddr(g, n, cn), v, g.w)]
  {
    var fs, ps := WriteFatN(g).funcs, [cn, v, n];
    assert FuncWrites(fs, d, ps, 0) == [];
    assert FuncWrites(fs, d, ps, 1) == OneWrite(fs[0](d, ps));
  }

  lemma {:induction false} WriteFatNWrites(g: Geo, d: Disk, cn: nat, v: nat, n: nat)
    requires (g.w == 16 || g.w == 32) && n < g.fatCount
    ensures VfatWrites(g, d, WRITE_FAT_N, [cn, v, n]) == FatEntries(g, cn, v)[n..]
    decreases g.fatCount - n
  {
    OneTable(g, d, cn, v, n);
    var es := FatEntries(g, cn, v);
    assert es[n..] == [es[n]] + es[n + 1..];
    if n + 1 < g.fatCount {
      WriteFatNWrites(g, d, cn, v, n + 1);
    } else {
      assert es[n + 1..] == [];
    }
  }

  /** The packet writes one table and calls itself for the next. */
  lemma OneTable(g: Geo, d: Disk, cn: nat, v: nat, n: nat)
    requires (g.w == 16 || g.w == 32) && n < g.fatCount
    ensures VfatWrites(g, d, WRITE_FAT_N, [cn, v, n]) ==
            [Entry(FatAddr(g, n, cn), v, g.w)] +
            (if n + 1 < g.fatCount then VfatWrites(g, d, WRITE_FAT_N, [cn, v, n + 1]) else [])
  {
    VfatRanked(g);
    FuncsAndCall(VfatTable(g), VfatRank(g), d, WRITE_FAT_N, [cn, v, n]);
    WriteFatNFuncs(g, d, cn, v, n);
  }

  lemma WriteFatWrites(g: Geo, d: Disk, cn: nat, v: nat)
    requires (g.w == 16 || g.w == 32) && g.fatCount > 0
    ensures VfatWrites(g, d, WRITE_FAT, [cn, v]) == FatEntries(g, cn, v)
  {
    VfatRanked(g);
    SingleCall(VfatTable(g), VfatRank(g), d, WRITE_FAT, [cn, v]);
    WriteFatNWrites(g, d, cn, v, 0);
  }

  lemma AllocWrites(g: Geo, d: Disk, cn: nat)
    requires (g.w == 16 || g.w == 32) && g.fatCount > 0
    ensures VfatWrites(g, d, BLOCK_ALLOC, [cn]) == FatEntries(g, cn, BadFat(g))
    ensures VfatWrites(g, d, BLOCK_REPLACE, [cn]) == FatEntries(g, cn, 0)
  {
    VfatRanked(g);
    SingleCall(VfatTable(g), VfatRank(g), d, BLOCK_ALLOC, [cn]);
    SingleCall(VfatTable(g), VfatRank(g), d, BLOCK_REPLACE, [cn]);
    WriteFatWrites(g, d, cn, BadFat(g));
    WriteFatWrites(g, d, cn, 0);
  }

  /** The low and high halves of the first cluster in the directory entry. */
  function DeEntries(g: Geo, de: nat, cn: nat): seq<Entry> {
    [Entry(LoAddr(de), And(cn, 0xffff), 16), Entry(HiAddr(de), if g.w == 16 then 0 else Shr(cn, 16), 16)]
  }

  lemma DeCnWrites(g: Geo, d: Disk, de: nat, cn: nat)
    requires g.w == 16 || g.w == 32
    ensures VfatWrites(g, d, WRITE_DE_CN, [de, cn]) == DeEntries(g, de, cn)
  {
    VfatRanked(g);
    OnlyFuncs(VfatTable(g), VfatRank(g), d, WRITE_DE_CN, [de, cn]);
    var fs, ps := WriteDeCn(g).funcs, [de, cn];
    assert FuncWrites(fs, d, ps, 0) == [];
    assert FuncWrites(fs, d, ps, 1) == OneWrite(fs[0](d, ps));
    assert FuncWrites(fs, d, ps, 2) == [DeEntries(g, de, cn)[0]];
    assert FuncWrites(fs, d, ps, 3) == [DeEntries(g, de, cn)[0]] + OneWrite(fs[2](d, ps));
  }

  lemma UpdateDeWrites(g: Geo, d: Disk, de: nat, cn: nat)
    requires (g.w == 16 || g.w == 32) && !IsGoodDir(d, de)
    ensures VfatWrites(g, d, UPDATE_DE, [de, cn]) == DeEntries(g, de, cn)
  {
    VfatRanked(g);
    TwoCalls(VfatTable(g), VfatRank(g), d, UPDATE_DE, [de, cn]);
    DeCnWrites(g, d, de, cn);
  }

  /** Linking cluster cn in as the j-th one: what points to it, and what it points to. */
  function RelinkEntries(g: Geo, d: Disk, de: nat, j: nat, cn: nat): seq<Entry>
    requires j >= 1
  {
    (if j == 1 then DeEntries(g, de, cn) else FatEntries(g, NthCnum(g, d, de, j - 1), cn)) +
    FatEntries(g, cn, NthCnum(g, d, de, j + 1))
  }

  ghost function RelinkCall(g: Geo, d: Disk, de: nat, j: nat, cn: nat, k: nat): seq<Entry>
    requires k < 3
  {
    VfatRanked(g);
    OneCall(VfatTable(g), VfatRank(g), d, BLOCK_RELINK, [de, j, cn], k)
  }

  lemma RelinkFirst(g: Geo, d: Disk, de: nat, j: nat, cn: nat)
    requires (g.w == 16 || g.w == 32) && j >= 1 && !IsGoodDir(d, de)
    ensures RelinkCall(g, d, de, j, cn, 0) == if j == 1 then DeEntries(g, de, cn) else []
  {
    UpdateDeWrites(g, d, de, cn);
  }

  lemma RelinkPrev(g: Geo, d: Disk, de: nat, j: nat, cn: nat)
    requires (g.w == 16 || g.w == 32) && g.fatCount > 0 && j >= 1
    ensures RelinkCall(g, d, de, j, cn, 1) == if j > 1 then FatEntries(g, NthCnum(g, d, de, j - 1), cn) else []
  {
    WriteFatWrites(g, d, NthCnum(g, d, de, j - 1), cn);
  }

  lemma RelinkNext(g: Geo, d: Disk, de: nat, j: nat, cn: nat)
    requires (g.w == 16 || g.w == 32) && g.fatCount > 0
    ensures RelinkCall(g, d, de, j, cn, 2) == FatEntries(g, cn, NthCnum(g, d, de, j + 1))
  {
    WriteFatWrites(g, d, cn, NthCnum(g, d, de, j + 1));
  }

  lemma RelinkIsCalls(g: Geo, d: Disk, de: nat, j: nat, cn: nat)
    requires g.w == 16 || g.w == 32
    ensures VfatWrites(g, d, BLOCK_RELINK, [de, j, cn]) ==
            RelinkCall(g, d, de, j, cn, 0) + RelinkCall(g, d, de, j, cn, 1) + RelinkCall(g, d, de, j, cn, 2)
  {
    VfatRanked(g);
    ThreeCalls(VfatTable(g), VfatRank(g), d, BLOCK_RELINK, [de, j, cn]);
  }

  lemma RelinkWrites(g: Geo, d: Disk, de: nat, j: nat, cn: nat)
    requires (g.w == 16 || g.w == 32) && g.fatCount > 0 && j >= 1 && !IsGoodDir(d, de)
    ensures VfatWrites(g, d, BLOCK_RELINK, [de, j, cn]) == RelinkEntries(g, d, de, j, cn)
  {
    RelinkIsCalls(g, d, de, j, cn);
    RelinkFirst(g, d, de, j, cn);
    RelinkPrev(g, d, de, j, cn);
    RelinkNext(g, d, de, j, cn);
  }

  // ----- how each step changes what is on the disk -----

  /** The disks agree outside the bytes [lo, hi). */
  ghost predicate SameOutside(d: Disk, d': Disk, lo: nat, hi: nat) {
    |d| == |d'| && forall i: nat :: i < 8 * lo || 8 * hi <= i ==> Bit(d', i) == Bit(d, i)
  }

  lemma FieldKept(d: Disk, d': Disk, lo: nat, hi: nat, off: nat, n: nat)
    requires SameOutside(d, d', lo, hi) && (off + n <= 8 * lo || 8 * hi <= off)
    ensures Slice(d', off, n) == Slice(d, off, n)
  {
    SliceFrame(d', off, d, off, n);
  }

  lemma BytesKept(d: Disk, d': Disk, lo: nat, hi: nat, a: nat, n: nat)
    requires SameOutside(d, d', lo, hi) && (a + n <= lo || hi <= a) && a + n <= |d|
    ensures d'[a..a + n] == d[a..a + n]
  {
    SameBytes(d', a, d, a, n);
  }

  lemma FatKept(g: Geo, d: Disk, d': Disk, lo: nat, hi: nat, n: nat)
    requires ValidGeo(g, |d|) && SameOutside(d, d', lo, hi) && n < g.fatCount
    requires hi <= g.fatBase || FatEnd(g) <= lo
    ensures Fat(g, d', n) == Fat(g, d, n)
  {
    forall x | 0 <= x < g.clusters + 2 ensures Fat(g, d', n)[x] == Fat(g, d, n)[x] {
      FatRange(g, |d|, n, x);
      FieldKept(d, d', lo, hi, FatAddr(g, n, x), g.w);
    }
  }

  lemma ContentKept(g: Geo, d: Disk, d': Disk, lo: nat, hi: nat, cn: nat)
    requires ValidGeo(g, |d|) && SameOutside(d, d', lo, hi) && 2 <= cn < g.clusters + 2
    requires hi <= ClusByte(g, cn) || ClusByte(g, cn) + g.clusBytes <= lo
    ensures Content(g, d', cn) == Content(g, d, cn)
  {
    ClusRange(g, |d|, cn);
    BytesKept(d, d', lo, hi, ClusByte(g, cn), g.clusBytes);
  }

  /** The disks agree on the bits [lo, hi). */
  ghost predicate Agree(d: Disk, d': Disk, lo: nat, hi: nat) {
    forall i: nat :: lo <= i < hi ==> Bit(d', i) == Bit(d, i)
  }

  lemma FieldAgrees(d: Disk, d': Disk, lo: nat, hi: nat, off: nat, n: nat)
    requires Agree(d, d', lo, hi) && lo <= off && off + n <= hi
    ensures Slice(d', off, n) == Slice(d, off, n)
  {
    SliceFrame(d', off, d, off, n);
  }

  /** A directory entry whose bits are the same is the same. */
  lemma DeAgrees(d: Disk, d': Disk, de: nat)
    requires Agree(d, d', 8 * de, 8 * de + 256)
    ensures Start(d', de) == Start(d, de) && DeSize(d', de) == DeSize(d, de) && IsFile(d', de) == IsFile(d, de)
  {
    FieldAgrees(d, d', 8 * de, 8 * de + 256, LoAddr(de), 16);
    FieldAgrees(d, d', 8 * de, 8 * de + 256, HiAddr(de), 16);
    FieldAgrees(d, d', 8 * de, 8 * de + 256, 8 * (de + 28), 32);
    FieldAgrees(d, d', 8 * de, 8 * de + 256, 8 * (de + 11), 8);
  }

  lemma FatEntriesOk(g: Geo, len: nat, cn: nat, v: nat)
    requires ValidGeo(g, len) && cn < g.clusters + 2
    ensures AllSupported(FatEntries(g, cn, v), len)
    ensures PairwiseDisjoint(FatEntries(g, cn, v))
  {
    var es := FatEntries(g, cn, v);
    forall k | 0 <= k < |es| ensures Supported(es[k], len) {
      FatRange(g, len, k, cn);
    }
    forall j, k | 0 <= j < k < |es| ensures Disjoint(es[j], es[k]) {
      FatApart(g, len, j, cn, k, cn);
    }
  }

  /** Writing an entry updates every table at that index, and nothing else on the disk. */
  lemma FatUpdate(g: Geo, d: Disk, cn: nat, v: nat)
    requires ValidGeo(g, |d|) && cn < g.clusters + 2 && v < Pow2(g.w)
    ensures AllSupported(FatEntries(g, cn, v), |d|)
    ensures forall n :: 0 <= n < g.fatCount ==> Fat(g, Apply(d, FatEntries(g, cn, v)), n) == Fat(g, d, n)[cn := v]
    ensures SameOutside(d, Apply(d, FatEntries(g, cn, v)), g.fatBase, FatEnd(g))
  {
    FatEntriesOk(g, |d|, cn, v);
    var es := FatEntries(g, cn, v);
    var d' := Apply(d, es);
    forall n | 0 <= n < g.fatCount ensures Fat(g, d', n) == Fat(g, d, n)[cn := v] {
      OneFatUpdate(g, d, cn, v, n);
    }
    forall i: nat | i < 8 * g.fatBase || 8 * FatEnd(g) <= i ensures Bit(d', i) == Bit(d, i) {
      forall k | 0 <= k < |es| ensures !Hits(es[k], i) {
        FatRange(g, |d|, k, cn);
      }
      ApplyMiss(d, es, i);
    }
  }

  lemma OneFatUpdate(g: Geo, d: Disk, cn: nat, v: nat, n: nat)
    requires ValidGeo(g, |d|) && cn < g.clusters + 2 && v < Pow2(g.w) && n < g.fatCount
    requires AllSupported(FatEntries(g, cn, v), |d|) && PairwiseDisjoint(FatEntries(g, cn, v))
    ensures Fat(g, Apply(d, FatEntries(g, cn, v)), n) == Fat(g, d, n)[cn := v]
  {
    var new_, was := Fat(g, Apply(d, FatEntries(g, cn, v)), n), Fat(g, d, n)[cn := v];
    forall x | 0 <= x < g.clusters + 2 ensures new_[x] == was[x] {
      FatEntryAfter(g, d, cn, v, n, x);
    }
  }

  lemma FatEntryAfter(g: Geo, d: Disk, cn: nat, v: nat, n: nat, x: nat)
    requires ValidGeo(g, |d|) && cn < g.clusters + 2 && v < Pow2(g.w) && n < g.fatCount && x < g.clusters + 2
    requires AllSupported(FatEntries(g, cn, v), |d|) && PairwiseDisjoint(FatEntries(g, cn, v))
    ensures Slice(Apply(d, FatEntries(g, cn, v)), FatAddr(g, n, x), g.w) ==
            if x == cn then v else Slice(d, FatAddr(g, n, x), g.w)
  {
    var es := FatEntries(g, cn, v);
    if x == cn {
      ApplyField(d, es, n);
      LowFits(v, g.w);
    } else {
      forall k | 0 <= k < |es| ensures Misses(es[k], FatAddr(g, n, x), g.w) {
        FatApart(g, |d|, k, cn, n, x);
      }
      ApplyFrame(d, es, FatAddr(g, n, x), g.w);
    }
  }

  lemma TwoFields(d: Disk, e: Entry, f: Entry, lo: nat, hi: nat)
    requires Supported(e, |d|) && Supported(f, |d|) && Disjoint(e, f)
    requires 8 * lo <= e.addr && 8 * lo <= f.addr && e.addr + e.bits <= 8 * hi && f.addr + f.bits <= 8 * hi
    ensures Slice(Apply(d, [e, f]), e.addr, e.bits) == Low(e.val, e.bits)
    ensures Slice(Apply(d, [e, f]), f.addr, f.bits) == Low(f.val, f.bits)
    ensures SameOutside(d, Apply(d, [e, f]), lo, hi)
  {
    var es := [e, f];
    ApplyField(d, es, 0);
    ApplyField(d, es, 1);
    forall i: nat | i < 8 * lo || 8 * hi <= i ensures Bit(Apply(d, es), i) == Bit(d, i) {
      ApplyMiss(d, es, i);
    }
  }

  lemma DeFields(d: Disk, de: nat, lo: nat, hi: nat)
    requires de + 32 <= |d|
    ensures var es := [Entry(LoAddr(de), lo, 16), Entry(HiAddr(de), hi, 16)];
            && AllSupported(es, |d|)
            && DeLo(Apply(d, es), de) == Low(lo, 16) && DeHi(Apply(d, es), de) == Low(hi, 16)
            && SameOutside(d, Apply(d, es), de + 20, de + 28)
  {
    TwoFields(d, Entry(LoAddr(de), lo, 16), Entry(HiAddr(de), hi, 16), de + 20, de + 28);
  }

  /** Writing the first cluster of a directory entry. */
  lemma DeUpdate(g: Geo, d: Disk, de: nat, cn: nat)
    requires de + 32 <= |d| && (g.w == 16 || g.w == 32) && cn < Pow2(g.w)
    ensures AllSupported(DeEntries(g, de, cn), |d|)
    ensures Start(Apply(d, DeEntries(g, de, cn)), de) == cn
    ensures SameOutside(d, Apply(d, DeEntries(g, de, cn)), de + 20, de + 28)
  {
    DeFields(d, de, And(cn, 0xffff), if g.w == 16 then 0 else Shr(cn, 16));
    HalfWords(g, cn);
  }

  /** A cluster number is put back together from its halves. */
  lemma HalfWords(g: Geo, cn: nat)
    requires (g.w == 16 || g.w == 32) && cn < Pow2(g.w)
    ensures Low(And(cn, 0xffff), 16) + 65536 * Low(if g.w == 16 then 0 else Shr(cn, 16), 16) == cn
  {
    Pow2Values();
    AndMask(cn, 16);
    LowLow(cn, 16, 16);
    if g.w == 16 {
      LowFits(cn, 16);
      LowZero(16);
    } else {
      LowShr(cn, 16);
      ShlPow2Mul(Shr(cn, 16), 16);
      assert Shr(cn, 16) < Pow2(16);
      LowFits(Shr(cn, 16), 16);
    }
  }

  lemma CopyUpdate(d: Disk, dst: nat, src: nat, n: nat)
    requires src + n <= |d| && dst + n <= |d|
    ensures SameOutside(d, CopyBytes(d, dst, src, n), dst, dst + n)
    ensures CopyBytes(d, dst, src, n)[dst..dst + n] == d[src..src + n]
  {
    var d' := CopyBytes(d, dst, src, n);
    forall i: nat | i < 8 * dst || 8 * (dst + n) <= i ensures Bit(d', i) == Bit(d, i) {
      PutBytesBit(d, dst, d[src..src + n], i);
    }
  }

  // ----- relocation of a link of a file -----

  /** The rule "reloc" / "defrag" of the directory entry at byte de. */
  function VfatReloc(g: Geo, de: nat): Reloc {
    Reloc(VfatTable(g), g.clusBytes,
          (d: Disk, j: nat) => ClusByte(g, NthCnum(g, d, de, j)),
          (d: Disk, i: nat) => ClusByte(g, i),
          BLOCK_ALLOC, (d: Disk, i: nat) => [i],
          BLOCK_REPLACE, (d: Disk, j: nat) => [NthCnum(g, d, de, j)],
          BLOCK_RELINK, (d: Disk, j: nat, i: nat) => [de, j, i])
  }

  /** The directory entry does not overlap cluster cn. */
  predicate DeClear(g: Geo, de: nat, cn: nat) {
    de + 32 <= ClusByte(g, cn) || ClusByte(g, cn) + g.clusBytes <= de
  }

  /** A regular file: its directory entry lies outside the tables and outside its own
      clusters, and its chain is c. */
  ghost predicate FileOn(g: Geo, d: Disk, de: nat, c: seq<nat>) {
    && ValidGeo(g, |d|)
    && de + 32 <= |d| && DeOutsideFat(g, de)
    && IsFile(d, de)
    && IsChain(Fat(g, d, 0), Start(d, de), c)
    && forall k :: 0 <= k < |c| ==> DeClear(g, de, c[k])
  }

  lemma FileIsNoDir(d: Disk, de: nat)
    requires IsFile(d, de)
    ensures !IsGoodDir(d, de)
  {
  }

  /** Walking the table finds the links of the chain, and one step past its end the end marker. */
  lemma {:induction false} WalkChain(g: Geo, d: Disk, c: seq<nat>, k: nat, i: nat)
    requires ValidGeo(g, |d|) && k < |c| && 1 <= i <= |c| - k + 1
    requires IsChain(Fat(g, d, 0), c[0], c)
    ensures ChainNth(g, d, c[k], i) == if k + i - 1 < |c| then c[k + i - 1] else Fat(g, d, 0)[c[|c| - 1]]
    decreases i
  {
    if i > 1 {
      assert FatNext(g, d, c[k]) == Fat(g, d, 0)[c[k]];
      if k + 1 < |c| {
        WalkChain(g, d, c, k + 1, i - 1);
      }
    }
  }

  /** get_nth_cnum, from 1 to one past the last link. */
  lemma NthOnChain(g: Geo, d: Disk, de: nat, c: seq<nat>, i: nat)
    requires ValidGeo(g, |d|) && IsChain(Fat(g, d, 0), Start(d, de), c) && 1 <= i <= |c| + 1
    ensures NthCnum(g, d, de, i) == if i <= |c| then c[i - 1] else Fat(g, d, 0)[c[|c| - 1]]
  {
    WalkChain(g, d, c, 0, i);
  }

  /** The next cluster of link j (from 1), or the end marker. */
  lemma NextOnChain(g: Geo, d: Disk, de: nat, c: seq<nat>, j: nat)
    requires ValidGeo(g, |d|) && IsChain(Fat(g, d, 0), Start(d, de), c) && 1 <= j <= |c|
    ensures NthCnum(g, d, de, j + 1) == Fat(g, d, 0)[c[j - 1]]
  {
    NthOnChain(g, d, de, c, j + 1);
  }

  predicate OutsideFat(g: Geo, i: nat) {
    i < 8 * g.fatBase || 8 * FatEnd(g) <= i
  }

  predicate InCluster(g: Geo, cn: nat, i: nat) {
    8 * ClusByte(g, cn) <= i < 8 * (ClusByte(g, cn) + g.clusBytes)
  }

  /** The disk once cluster f is marked and the data of cluster cn is copied into it. */
  ghost function Copied(g: Geo, d: Disk, cn: nat, f: nat): (d2: Disk)
    requires ValidGeo(g, |d|) && 2 <= cn < g.clusters + 2 && 2 <= f < g.clusters + 2
  {
    FatEntriesOk(g, |d|, f, BadFat(g));
    ClusRange(g, |d|, cn);
    ClusRange(g, |d|, f);
    CopyBytes(Apply(d, FatEntries(g, f, BadFat(g))), ClusByte(g, f), ClusByte(g, cn), g.clusBytes)
  }

  /** The first half of the transaction, for link j of chain c. */
  lemma StageIsCopied(g: Geo, d: Disk, de: nat, c: seq<nat>, j: nat, f: nat)
    requires ValidGeo(g, |d|) && IsChain(Fat(g, d, 0), Start(d, de), c) && 1 <= j <= |c| && Free(Fat(g, d, 0), f)
    ensures Wellformed(VfatReloc(g, de), VfatRank(g))
    ensures AllocLog(VfatReloc(g, de), VfatRank(g), d, f) == FatEntries(g, f, BadFat(g))
    ensures AllSupported(FatEntries(g, f, BadFat(g)), |d|)
    ensures VfatReloc(g, de).selByte(d, j) == ClusByte(g, c[j - 1])
    ensures ClusByte(g, c[j - 1]) + g.clusBytes <= |d| && ClusByte(g, f) + g.clusBytes <= |d|
    ensures Apart(ClusByte(g, f), ClusByte(g, c[j - 1]), g.clusBytes)
    ensures Staged(VfatReloc(g, de), VfatRank(g), d, j, f) == Copied(g, d, c[j - 1], f)
  {
    VfatRanked(g);
    AllocWrites(g, d, f);
    FatEntriesOk(g, |d|, f, BadFat(g));
    NthOnChain(g, d, de, c, j);
    ClusRange(g, |d|, f);
    ClusRange(g, |d|, c[j - 1]);
    if f < c[j - 1] { ClusOrder(g, f, c[j - 1]); } else { ClusOrder(g, c[j - 1], f); }
  }

  /** What allocation and copy change: the entry of f in every table, and the contents of f. */
  lemma CopiedView(g: Geo, d: Disk, cn: nat, f: nat)
    requires ValidGeo(g, |d|) && 2 <= cn < g.clusters + 2 && 2 <= f < g.clusters + 2 && cn != f
    ensures var d2 := Copied(g, d, cn, f);
            && |d2| == |d|
            && (forall n :: 0 <= n < g.fatCount ==> Fat(g, d2, n) == Fat(g, d, n)[f := BadFat(g)])
            && Content(g, d2, f) == Content(g, d, cn)
            && KeptOutside(g, d, d2, f)
  {
    var d2 := Copied(g, d, cn, f);
    CopiedContent(g, d, cn, f);
    CopiedKeeps(g, d, cn, f);
    forall n | 0 <= n < g.fatCount ensures Fat(g, d2, n) == Fat(g, d, n)[f := BadFat(g)] {
      CopiedFat(g, d, cn, f, n);
    }
  }

  lemma CopiedContent(g: Geo, d: Disk, cn: nat, f: nat)
    requires ValidGeo(g, |d|) && 2 <= cn < g.clusters + 2 && 2 <= f < g.clusters + 2 && cn != f
    ensures |Copied(g, d, cn, f)| == |d| && Content(g, Copied(g, d, cn, f), f) == Content(g, d, cn)
  {
    FatEntriesOk(g, |d|, f, BadFat(g));
    ClusRange(g, |d|, f);
    ClusRange(g, |d|, cn);
    MarkedContent(g, d, cn, f);
    var d1, dst, src := Apply(d, FatEntries(g, f, BadFat(g))), ClusByte(g, f), ClusByte(g, cn);
    CopyUpdate(d1, dst, src, g.clusBytes);
  }

  /** Marking a cluster in the tables keeps the contents of all clusters. */
  lemma MarkedContent(g: Geo, d: Disk, cn: nat, f: nat)
    requires ValidGeo(g, |d|) && 2 <= cn < g.clusters + 2 && 2 <= f < g.clusters + 2
    ensures AllSupported(FatEntries(g, f, BadFat(g)), |d|)
    ensures Content(g, Apply(d, FatEntries(g, f, BadFat(g))), cn) == Content(g, d, cn)
  {
    Pow2Values();
    FatUpdate(g, d, f, BadFat(g));
    ClusRange(g, |d|, cn);
    ContentKept(g, d, Apply(d, FatEntries(g, f, BadFat(g))), g.fatBase, FatEnd(g), cn);
  }

  lemma CopiedKeeps(g: Geo, d: Disk, cn: nat, f: nat)
    requires ValidGeo(g, |d|) && 2 <= cn < g.clusters + 2 && 2 <= f < g.clusters + 2 && cn != f
    ensures KeptOutside(g, d, Copied(g, d, cn, f), f)
  {
    Pow2Values();
    FatUpdate(g, d, f, BadFat(g));
    ClusRange(g, |d|, f);
    ClusRange(g, |d|, cn);
    var d1 := Apply(d, FatEntries(g, f, BadFat(g)));
    CopyUpdate(d1, ClusByte(g, f), ClusByte(g, cn), g.clusBytes);
    KeptTwice(g, d, d1, Copied(g, d, cn, f), f);
  }

  lemma CopiedFat(g: Geo, d: Disk, cn: nat, f: nat, n: nat)
    requires ValidGeo(g, |d|) && 2 <= cn < g.clusters + 2 && 2 <= f < g.clusters + 2 && cn != f && n < g.fatCount
    ensures |Copied(g, d, cn, f)| == |d| && Fat(g, Copied(g, d, cn, f), n) == Fat(g, d, n)[f := BadFat(g)]
  {
    Pow2Values();
    FatUpdate(g, d, f, BadFat(g));
    ClusRange(g, |d|, f);
    ClusRange(g, |d|, cn);
    var d1 := Apply(d, FatEntries(g, f, BadFat(g)));
    CopyUpdate(d1, ClusByte(g, f), ClusByte(g, cn), g.clusBytes);
    FatKept(g, d1, Copied(g, d, cn, f), ClusByte(g, f), ClusByte(g, f) + g.clusBytes, n);
  }

  /** Outside the tables and outside cluster f the disks are the same. */
  ghost predicate KeptOutside(g: Geo, d: Disk, d': Disk, f: nat) {
    forall i: nat :: OutsideFat(g, i) && !InCluster(g, f, i) ==> Bit(d', i) == Bit(d, i)
  }

  lemma KeptTwice(g: Geo, d: Disk, d1: Disk, d2: Disk, f: nat)
    requires SameOutside(d, d1, g.fatBase, FatEnd(g))
    requires SameOutside(d1, d2, ClusByte(g, f), ClusByte(g, f) + g.clusBytes)
    ensures KeptOutside(g, d, d2, f)
  {
    forall i: nat | OutsideFat(g, i) && !InCluster(g, f, i) ensures Bit(d2, i) == Bit(d, i) {
      assert Bit(d1, i) == Bit(d, i);
    }
  }

  lemma DeSurvives(g: Geo, d: Disk, d': Disk, f: nat, de: nat)
    requires KeptOutside(g, d, d', f)
    requires (de + 32 <= g.fatBase || FatEnd(g) <= de) && DeClear(g, de, f)
    ensures Start(d', de) == Start(d, de) && DeSize(d', de) == DeSize(d, de) && IsFile(d', de) == IsFile(d, de)
  {
    assert Agree(d, d', 8 * de, 8 * de + 256);
    DeAgrees(d, d', de);
  }

  /** The moved chain is still a chain while its new cluster is only marked. */
  lemma MarkedChain(fat: seq<nat>, start: nat, c: seq<nat>, f: nat, bad: nat)
    requires IsChain(fat, start, c) && Free(fat, f)
    ensures f !in c && IsChain(fat[f := bad], start, c)
  {
    assert f !in c;
  }

  predicate DeOutsideFat(g: Geo, de: nat) {
    de + 32 <= g.fatBase || FatEnd(g) <= de
  }

  /** The first-cluster halves of the directory entry. */
  predicate InDeCluster(de: nat, i: nat) {
    8 * (de + 20) <= i < 8 * (de + 28)
  }

  /** Outside the tables the disks are the same, except for the directory entry's first cluster
      when link 1 is moved. */
  ghost predicate KeptButDe(g: Geo, d: Disk, d': Disk, de: nat, j: nat) {
    forall i: nat :: OutsideFat(g, i) && !(j == 1 && InDeCluster(de, i)) ==> Bit(d', i) == Bit(d, i)
  }

  /** What points to link j: the directory entry, or the entry of the link before. */
  function PointEntries(g: Geo, de: nat, c: seq<nat>, j: nat, f: nat): seq<Entry>
    requires 1 <= j <= |c|
  {
    if j == 1 then DeEntries(g, de, f) else FatEntries(g, c[j - 2], f)
  }

  lemma PointView(g: Geo, d: Disk, de: nat, c: seq<nat>, j: nat, f: nat)
    requires ValidGeo(g, |d|) && de + 32 <= |d| && DeOutsideFat(g, de) && f < g.clusters + 2
    requires 1 <= j <= |c| && forall k :: 0 <= k < |c| ==> c[k] < g.clusters + 2
    ensures AllSupported(PointEntries(g, de, c, j, f), |d|)
    ensures var d' := Apply(d, PointEntries(g, de, c, j, f));
            && |d'| == |d|
            && (forall n :: 0 <= n < g.fatCount ==>
                  Fat(g, d', n) == if j == 1 then Fat(g, d, n) else Fat(g, d, n)[c[j - 2] := f])
            && (j == 1 ==> Start(d', de) == f)
            && KeptButDe(g, d, d', de, j)
  {
    Pow2Values();
    assert f < Pow2(g.w);
    if j == 1 {
      DeUpdate(g, d, de, f);
      var d' := Apply(d, DeEntries(g, de, f));
      forall n | 0 <= n < g.fatCount ensures Fat(g, d', n) == Fat(g, d, n) {
        FatKept(g, d, d', de + 20, de + 28, n);
      }
    } else {
      FatUpdate(g, d, c[j - 2], f);
    }
  }

  /** The disk after both logs are committed, from the staged disk. */
  ghost function Linked(g: Geo, d: Disk, de: nat, c: seq<nat>, j: nat, f: nat, next: nat): Disk
    requires ValidGeo(g, |d|) && de + 32 <= |d| && DeOutsideFat(g, de) && f < g.clusters + 2
    requires 1 <= j <= |c| && forall k :: 0 <= k < |c| ==> c[k] < g.clusters + 2
  {
    PointView(g, d, de, c, j, f);
    FatEntriesOk(g, |d|, f, next);
    FatEntriesOk(g, |d|, c[j - 1], 0);
    Apply(Apply(Apply(d, PointEntries(g, de, c, j, f)), FatEntries(g, f, next)), FatEntries(g, c[j - 1], 0))
  }

  lemma LinkedView(g: Geo, d: Disk, de: nat, c: seq<nat>, j: nat, f: nat, next: nat)
    requires ValidGeo(g, |d|) && de + 32 <= |d| && DeOutsideFat(g, de) && f < g.clusters + 2 && next < Pow2(g.w)
    requires 1 <= j <= |c| && forall k :: 0 <= k < |c| ==> c[k] < g.clusters + 2
    ensures var d' := Linked(g, d, de, c, j, f, next);
            && |d'| == |d|
            && (forall n :: 0 <= n < g.fatCount ==>
                  Fat(g, d', n) == (if j == 1 then Fat(g, d, n)
                      else Fat(g, d, n)[c[j - 2] := f])[f := next][c[j - 1] := 0])
            && (j == 1 ==> Start(d', de) == f)
            && KeptButDe(g, d, d', de, j)
  {
    PointView(g, d, de, c, j, f);
    var d1 := Apply(d, PointEntries(g, de, c, j, f));
    FatUpdate(g, d1, f, next);
    var d2 := Apply(d1, FatEntries(g, f, next));
    FatUpdate(g, d2, c[j - 1], 0);
    var d3 := Apply(d2, FatEntries(g, c[j - 1], 0));
    if j == 1 {
      TablesOnly(g, d1, d2, d3);
      assert Agree(d1, d3, 8 * de, 8 * de + 256);
      DeAgrees(d1, d3, de);
    }
    forall i: nat | OutsideFat(g, i) && !(j == 1 && InDeCluster(de, i)) ensures Bit(d3, i) == Bit(d, i) {
      assert Bit(d1, i) == Bit(d, i) && Bit(d2, i) == Bit(d1, i);
    }
  }

  lemma TablesOnly(g: Geo, d1: Disk, d2: Disk, d3: Disk)
    requires SameOutside(d1, d2, g.fatBase, FatEnd(g)) && SameOutside(d2, d3, g.fatBase, FatEnd(g))
    ensures SameOutside(d1, d3, g.fatBase, FatEnd(g))
  {
    forall i: nat | i < 8 * g.fatBase || 8 * FatEnd(g) <= i ensures Bit(d3, i) == Bit(d1, i) {
      assert Bit(d2, i) == Bit(d1, i);
    }
  }

  /** The second half of the transaction, computed from the staged disk d2. */
  lemma LogsOnStage(g: Geo, d2: Disk, de: nat, c: seq<nat>, j: nat, f: nat)
    requires FileOn(g, d2, de, c) && 1 <= j <= |c| && f < g.clusters + 2
    ensures Wellformed(VfatReloc(g, de), VfatRank(g))
    ensures var r, rank, next := VfatReloc(g, de), VfatRank(g), Fat(g, d2, 0)[c[j - 1]];
            && ReplaceLog(r, rank, d2, j) == FatEntries(g, c[j - 1], 0)
            && RelinkLog(r, rank, d2, j, f) == PointEntries(g, de, c, j, f) + FatEntries(g, f, next)
  {
    VfatRanked(g);
    NthOnChain(g, d2, de, c, j);
    NextOnChain(g, d2, de, c, j);
    if j > 1 { NthOnChain(g, d2, de, c, j - 1); }
    AllocWrites(g, d2, c[j - 1]);
    FileIsNoDir(d2, de);
    RelinkWrites(g, d2, de, j, f);
  }

  lemma LogsFit(g: Geo, d2: Disk, de: nat, c: seq<nat>, j: nat, f: nat, next: nat)
    requires ValidGeo(g, |d2|) && de + 32 <= |d2| && DeOutsideFat(g, de) && f < g.clusters + 2
    requires 1 <= j <= |c| && forall k :: 0 <= k < |c| ==> c[k] < g.clusters + 2
    ensures Loggable(FatEntries(g, c[j - 1], 0), d2)
    ensures Loggable(PointEntries(g, de, c, j, f) + FatEntries(g, f, next), d2)
    ensures Apply(Apply(d2, PointEntries(g, de, c, j, f) + FatEntries(g, f, next)), FatEntries(g, c[j - 1], 0))
            == Linked(g, d2, de, c, j, f, next)
  {
    PointView(g, d2, de, c, j, f);
    FatEntriesOk(g, |d2|, f, next);
    FatEntriesOk(g, |d2|, c[j - 1], 0);
    ApplyConcat(d2, PointEntries(g, de, c, j, f), FatEntries(g, f, next));
  }

  lemma StageKeepsFile(g: Geo, d: Disk, de: nat, c: seq<nat>, j: nat, f: nat)
    requires FileOn(g, d, de, c) && 1 <= j <= |c| && Free(Fat(g, d, 0), f) && DeClear(g, de, f)
    ensures f !in c
    ensures var d2 := Copied(g, d, c[j - 1], f);
            && FileOn(g, d2, de, c) && Start(d2, de) == Start(d, de) && DeSize(d2, de) == DeSize(d, de)
            && Fat(g, d2, 0)[c[j - 1]] == Fat(g, d, 0)[c[j - 1]]
  {
    MarkedChain(Fat(g, d, 0), Start(d, de), c, f, BadFat(g));
    assert c[j - 1] in c;
    CopiedView(g, d, c[j - 1], f);
    DeSurvives(g, d, Copied(g, d, c[j - 1], f), f, de);
  }

  /** The transaction on the bytes of the disk. */
  ghost function MovedDisk(g: Geo, d: Disk, de: nat, c: seq<nat>, j: nat, f: nat): Disk
    requires FileOn(g, d, de, c) && 1 <= j <= |c| && Free(Fat(g, d, 0), f) && DeClear(g, de, f)
  {
    StageKeepsFile(g, d, de, c, j, f);
    Linked(g, Copied(g, d, c[j - 1], f), de, c, j, f, Fat(g, d, 0)[c[j - 1]])
  }

  /** The relocation protocol computes exactly that disk. */
  lemma RelocatedIsMoved(g: Geo, d: Disk, de: nat, c: seq<nat>, j: nat, f: nat)
    requires FileOn(g, d, de, c) && 1 <= j <= |c| && Free(Fat(g, d, 0), f) && DeClear(g, de, f)
    ensures CanRelocate(VfatReloc(g, de), VfatRank(g), d, j, f)
    ensures Relocated(VfatReloc(g, de), VfatRank(g), d, j, f) == MovedDisk(g, d, de, c, j, f)
  {
    StageIsCopied(g, d, de, c, j, f);
    StageKeepsFile(g, d, de, c, j, f);
    var d2 := Copied(g, d, c[j - 1], f);
    LogsOnStage(g, d2, de, c, j, f);
    LogsFit(g, d2, de, c, j, f, Fat(g, d, 0)[c[j - 1]]);
  }

  ghost predicate TablesEqual(g: Geo, d: Disk) {
    forall n :: 0 <= n < g.fatCount ==> Fat(g, d, n) == Fat(g, d, 0)
  }

  /** Outside the tables, cluster f and (for link 1) the directory entry's first cluster,
      every bit is the same. */
  ghost predicate KeptData(g: Geo, d: Disk, d': Disk, de: nat, j: nat, f: nat) {
    forall i: nat :: OutsideFat(g, i) && !InCluster(g, f, i) && !(j == 1 && InDeCluster(de, i)) ==>
        Bit(d', i) == Bit(d, i)
  }

  /** The tables after the move: the same values in all of them. */
  lemma MovedTables(g: Geo, d: Disk, de: nat, c: seq<nat>, j: nat, f: nat)
    requires FileOn(g, d, de, c) && 1 <= j <= |c| && Free(Fat(g, d, 0), f) && DeClear(g, de, f)
    ensures var d' := MovedDisk(g, d, de, c, j, f);
            && |d'| == |d|
            && Fat(g, d', 0) == Moved(Fat(g, d, 0), c, j - 1, f)
            && (TablesEqual(g, d) ==> TablesEqual(g, d'))
  {
    var d' := MovedDisk(g, d, de, c, j, f);
    MovedFat(g, d, de, c, j, f, 0);
    MovedSteps(Fat(g, d, 0), c, j, f, BadFat(g));
    forall n | 0 <= n < g.fatCount && TablesEqual(g, d) ensures Fat(g, d', n) == Fat(g, d', 0) {
      assert Fat(g, d, n) == Fat(g, d, 0);
      MovedFat(g, d, de, c, j, f, n);
    }
  }

  /** The updates of one table. */
  function Steps(fat: seq<nat>, c: seq<nat>, j: nat, f: nat, bad: nat, next: nat): seq<nat>
    requires 1 <= j <= |c| && f < |fat| && forall k :: 0 <= k < |c| ==> c[k] < |fat|
  {
    var m := fat[f := bad];
    (if j == 1 then m else m[c[j - 2] := f])[f := next][c[j - 1] := 0]
  }

  lemma MovedFat(g: Geo, d: Disk, de: nat, c: seq<nat>, j: nat, f: nat, n: nat)
    requires FileOn(g, d, de, c) && 1 <= j <= |c| && Free(Fat(g, d, 0), f) && DeClear(g, de, f) && n < g.fatCount
    ensures |MovedDisk(g, d, de, c, j, f)| == |d| && f < |Fat(g, d, n)|
    ensures forall k :: 0 <= k < |c| ==> c[k] < |Fat(g, d, n)|
    ensures Fat(g, MovedDisk(g, d, de, c, j, f), n) ==
            Steps(Fat(g, d, n), c, j, f, BadFat(g), Fat(g, d, 0)[c[j - 1]])
  {
    StageKeepsFile(g, d, de, c, j, f);
    CopiedView(g, d, c[j - 1], f);
    SliceBound(d, FatAddr(g, 0, c[j - 1]), g.w);
    LinkedView(g, Copied(g, d, c[j - 1], f), de, c, j, f, Fat(g, d, 0)[c[j - 1]]);
  }

  /** The four updates of a table amount to the move. */
  lemma MovedSteps(fat: seq<nat>, c: seq<nat>, j: nat, f: nat, bad: nat)
    requires 1 <= j <= |c| && f < |fat| && f !in c && Distinct(c) && forall k :: 0 <= k < |c| ==> c[k] < |fat|
    ensures Steps(fat, c, j, f, bad, fat[c[j - 1]]) == Moved(fat, c, j - 1, f)
  {
    assert c[j - 1] in c && (j > 1 ==> c[j - 2] in c && c[j - 2] != c[j - 1]);
  }

  /** Relocating link j of a file to the free cluster f: the data is in f, the file starts
      where it should, and nothing else outside the tables has changed. */
  lemma MovedData(g: Geo, d: Disk, de: nat, c: seq<nat>, j: nat, f: nat)
    requires FileOn(g, d, de, c) && 1 <= j <= |c| && Free(Fat(g, d, 0), f) && DeClear(g, de, f)
    ensures var d' := MovedDisk(g, d, de, c, j, f);
            && |d'| == |d|
            && Start(d', de) == (if j == 1 then f else Start(d, de))
            && Content(g, d', f) == Content(g, d, c[j - 1])
            && KeptData(g, d, d', de, j, f)
  {
    StageKeepsFile(g, d, de, c, j, f);
    var d2, d' := Copied(g, d, c[j - 1], f), MovedDisk(g, d, de, c, j, f);
    CopiedView(g, d, c[j - 1], f);
    SliceBound(d, FatAddr(g, 0, c[j - 1]), g.w);
    LinkedView(g, d2, de, c, j, f, Fat(g, d, 0)[c[j - 1]]);
    ClusterNotDe(g, d2, d', de, j, f);
    if j > 1 { StartKept(g, d2, d', de, j); }
    KeptBoth(g, d, d2, d', de, j, f);
  }

  ghost predicate ContentAgrees(g: Geo, d: Disk, d': Disk, cn: nat)
    requires ValidGeo(g, |d|) && ValidGeo(g, |d'|) && 2 <= cn < g.clusters + 2
  {
    Content(g, d', cn) == Content(g, d, cn)
  }

  lemma ClusterNotDe(g: Geo, d: Disk, d': Disk, de: nat, j: nat, cn: nat)
    requires ValidGeo(g, |d|) && |d'| == |d| && KeptButDe(g, d, d', de, j) && 2 <= cn < g.clusters + 2
    requires DeClear(g, de, cn)
    ensures ContentAgrees(g, d, d', cn)
  {
    ClusRange(g, |d|, cn);
    SameBytes(d', ClusByte(g, cn), d, ClusByte(g, cn), g.clusBytes);
  }

  /** A cluster that is neither the target nor holds the directory entry. */
  lemma OtherCluster(g: Geo, d: Disk, d': Disk, de: nat, j: nat, f: nat, cn: nat)
    requires ValidGeo(g, |d|) && |d'| == |d| && KeptData(g, d, d', de, j, f)
    requires 2 <= cn < g.clusters + 2 && 2 <= f < g.clusters + 2 && cn != f && DeClear(g, de, cn)
    ensures Content(g, d', cn) == Content(g, d, cn)
  {
    ClusRange(g, |d|, cn);
    if cn < f { ClusOrder(g, cn, f); } else { ClusOrder(g, f, cn); }
    SameBytes(d', ClusByte(g, cn), d, ClusByte(g, cn), g.clusBytes);
  }

  lemma StartKept(g: Geo, d: Disk, d': Disk, de: nat, j: nat)
    requires KeptButDe(g, d, d', de, j) && j > 1 && DeOutsideFat(g, de)
    ensures Start(d', de) == Start(d, de)
  {
    assert Agree(d, d', 8 * de, 8 * de + 256);
    DeAgrees(d, d', de);
  }

  lemma KeptBoth(g: Geo, d: Disk, d2: Disk, d': Disk, de: nat, j: nat, f: nat)
    requires KeptOutside(g, d, d2, f) && KeptButDe(g, d2, d', de, j)
    ensures KeptData(g, d, d', de, j, f)
  {
    forall i: nat | OutsideFat(g, i) && !InCluster(g, f, i) && !(j == 1 && InDeCluster(de, i))
      ensures Bit(d', i) == Bit(d, i)
    {
      assert Bit(d2, i) == Bit(d, i);
    }
  }

  // ----- a volume of files -----

  /** The contents of a chain, cluster by cluster. */
  function FileData(g: Geo, d: Disk, c: seq<nat>): (data: seq<seq<Byte>>)
    requires ValidGeo(g, |d|) && forall k :: 0 <= k < |c| ==> 2 <= c[k] < g.clusters + 2
    ensures |data| == |c|
  {
    seq(|c|, k requires 0 <= k < |c| => Content(g, d, c[k]))
  }

  /** The directory entry lies in no free cluster. */
  ghost predicate DeNotFree(g: Geo, d: Disk, de: nat) {
    forall x :: Free(Fat(g, d, 0), x) ==> DeClear(g, de, x)
  }

  predicate DeApart(a: nat, b: nat) {
    a + 32 <= b || b + 32 <= a
  }

  /** The moved file: same length, link j replaced, same contents in order, old cluster free. */
  lemma MovedFile(g: Geo, d: Disk, de: nat, c: seq<nat>, j: nat, f: nat)
    requires FileOn(g, d, de, c) && 1 <= j <= |c| && Free(Fat(g, d, 0), f) && DeNotFree(g, d, de)
    ensures var d' := MovedDisk(g, d, de, c, j, f);
            && FileOn(g, d', de, c[j - 1 := f])
            && DeSize(d', de) == DeSize(d, de)
            && FileData(g, d', c[j - 1 := f]) == FileData(g, d, c)
            && Free(Fat(g, d', 0), c[j - 1])
            && |FreeSet(Fat(g, d', 0))| == |FreeSet(Fat(g, d, 0))|
  {
    var d' := MovedDisk(g, d, de, c, j, f);
    MovedTables(g, d, de, c, j, f);
    MovedData(g, d, de, c, j, f);
    MovedChain(Fat(g, d, 0), Start(d, de), c, j - 1, f);
    MovedFree(Fat(g, d, 0), Start(d, de), c, j - 1, f);
    OwnDe(g, d, d', de, j, f);
    MovedContents(g, d, de, c, j, f);
  }

  lemma MovedContents(g: Geo, d: Disk, de: nat, c: seq<nat>, j: nat, f: nat)
    requires FileOn(g, d, de, c) && 1 <= j <= |c| && Free(Fat(g, d, 0), f) && DeNotFree(g, d, de)
    ensures var d' := MovedDisk(g, d, de, c, j, f);
            var c' := c[j - 1 := f];
            && |d'| == |d| && (forall k :: 0 <= k < |c'| ==> 2 <= c'[k] < g.clusters + 2)
            && FileData(g, d', c') == FileData(g, d, c)
  {
    var d', c' := MovedDisk(g, d, de, c, j, f), c[j - 1 := f];
    MovedData(g, d, de, c, j, f);
    forall k | 0 <= k < |c| ensures Content(g, d', c'[k]) == Content(g, d, c[k]) {
      if k != j - 1 {
        assert c[k] != f;
        OtherCluster(g, d, d', de, j, f, c[k]);
      }
    }
  }

  /** The directory entry of the moved file changes in its first cluster only. */
  lemma OwnDe(g: Geo, d: Disk, d': Disk, de: nat, j: nat, f: nat)
    requires KeptData(g, d, d', de, j, f) && DeOutsideFat(g, de) && DeClear(g, de, f)
    ensures DeSize(d', de) == DeSize(d, de) && IsFile(d', de) == IsFile(d, de)
  {
    assert Agree(d, d', 8 * (de + 28), 8 * (de + 32));
    assert Agree(d, d', 8 * de, 8 * (de + 20));
    FieldAgrees(d, d', 8 * (de + 28), 8 * (de + 32), 8 * (de + 28), 32);
    FieldAgrees(d, d', 8 * de, 8 * (de + 20), 8 * (de + 11), 8);
  }

  /** Every other file is untouched. */
  lemma OtherFile(g: Geo, d: Disk, de: nat, c: seq<nat>, j: nat, f: nat, de2: nat, c2: seq<nat>)
    requires FileOn(g, d, de, c) && 1 <= j <= |c| && Free(Fat(g, d, 0), f) && DeNotFree(g, d, de)
    requires FileOn(g, d, de2, c2) && DeNotFree(g, d, de2) && DeApart(de, de2)
    requires forall k :: 0 <= k < |c2| ==> c2[k] !in c && DeClear(g, de, c2[k])
    ensures var d' := MovedDisk(g, d, de, c, j, f);
            && FileOn(g, d', de2, c2)
            && DeSize(d', de2) == DeSize(d, de2)
            && FileData(g, d', c2) == FileData(g, d, c2)
  {
    var d' := MovedDisk(g, d, de, c, j, f);
    MovedTables(g, d, de, c, j, f);
    MovedData(g, d, de, c, j, f);
    DisjointChain(Fat(g, d, 0), c, j - 1, f, Start(d, de2), c2);
    OtherDe(g, d, d', de, j, f, de2);
    forall k | 0 <= k < |c2| ensures Content(g, d', c2[k]) == Content(g, d, c2[k]) {
      assert c2[k] != f;
      OtherCluster(g, d, d', de, j, f, c2[k]);
    }
  }

  lemma OtherDe(g: Geo, d: Disk, d': Disk, de: nat, j: nat, f: nat, de2: nat)
    requires KeptData(g, d, d', de, j, f) && DeOutsideFat(g, de2) && DeClear(g, de2, f) && DeApart(de, de2)
    ensures Start(d', de2) == Start(d, de2) && DeSize(d', de2) == DeSize(d, de2) && IsFile(d', de2) == IsFile(d, de2)
  {
    assert Agree(d, d', 8 * de2, 8 * de2 + 256);
    DeAgrees(d, d', de2);
  }
}
