/** A volume of regular files, and what a relocation of one link does to all of them. */
module Volume {
  import opened Bits
  import opened FatChain
  import opened Vfat

  predicate NoShare(c: seq<nat>, e: seq<nat>) {
    forall k :: 0 <= k < |c| ==> c[k] !in e
  }

  ghost predicate DeClearOf(g: Geo, de: nat, c: seq<nat>) {
    forall k :: 0 <= k < |c| ==> DeClear(g, de, c[k])
  }

  /** Regular files with chains cs: no cluster is shared, and the directory entries lie outside
      the tables, outside all the chains and outside the free clusters. */
  ghost predicate Files(g: Geo, d: Disk, des: seq<nat>, cs: seq<seq<nat>>) {
    && |des| == |cs| && ValidGeo(g, |d|)
    && (forall a :: 0 <= a < |des| ==> FileOn(g, d, des[a], cs[a]) && DeNotFree(g, d, des[a]))
    && (forall a, b :: 0 <= a < |des| && 0 <= b < |des| && a != b ==> DeApart(des[a], des[b]) && NoShare(cs[a], cs[b]))
    && (forall a, b :: 0 <= a < |des| && 0 <= b < |des| ==> DeClearOf(g, des[a], cs[b]))
  }

  /** The file sizes and the contents of all files are the same. */
  ghost predicate SameData(g: Geo, d: Disk, d': Disk, des: seq<nat>, cs: seq<seq<nat>>, cs': seq<seq<nat>>)
    requires Files(g, d, des, cs) && Files(g, d', des, cs')
  {
    forall a :: 0 <= a < |des| ==>
      DeSize(d', des[a]) == DeSize(d, des[a]) && FileData(g, d', cs'[a]) == FileData(g, d, cs[a])
  }

  /** Chains with link j (counted from 1) of file a replaced. */
  function Replace(cs: seq<seq<nat>>, a: nat, j: nat, f: nat): seq<seq<nat>>
    requires a < |cs| && 1 <= j <= |cs[a]|
  {
    var c: seq<nat> := cs[a][j - 1 := f];
    cs[a := c]
  }

  /** A cluster that is free afterwards was free before, or is the one the link has left. */
  lemma StillNotFree(g: Geo, d: Disk, de: nat, c: seq<nat>, j: nat, f: nat, de2: nat)
    requires FileOn(g, d, de, c) && 1 <= j <= |c| && Free(Fat(g, d, 0), f) && DeNotFree(g, d, de)
    requires DeNotFree(g, d, de2) && DeClear(g, de2, c[j - 1])
    ensures DeNotFree(g, MovedDisk(g, d, de, c, j, f), de2)
  {
    MovedTables(g, d, de, c, j, f);
    MovedFree(Fat(g, d, 0), Start(d, de), c, j - 1, f);
    var fat, fat' := Fat(g, d, 0), Fat(g, MovedDisk(g, d, de, c, j, f), 0);
    forall x | Free(fat', x) ensures DeClear(g, de2, x) {
      assert x in FreeSet(fat');
      assert x == c[j - 1] || x in FreeSet(fat);
    }
  }

  /** One file of the volume. */
  lemma EachFile(g: Geo, d: Disk, des: seq<nat>, cs: seq<seq<nat>>, a: nat, j: nat, f: nat, b: nat)
    requires Files(g, d, des, cs) && a < |des| && 1 <= j <= |cs[a]| && Free(Fat(g, d, 0), f) && b < |des|
    ensures var d', cs' := MovedDisk(g, d, des[a], cs[a], j, f), Replace(cs, a, j, f);
            && |d'| == |d| && FileOn(g, d', des[b], cs'[b]) && DeNotFree(g, d', des[b])
            && DeSize(d', des[b]) == DeSize(d, des[b]) && FileData(g, d', cs'[b]) == FileData(g, d, cs[b])
  {
    var de, c := des[a], cs[a];
    assert DeClearOf(g, des[b], c);
    StillNotFree(g, d, de, c, j, f, des[b]);
    MovedFile(g, d, de, c, j, f);
    if b != a {
      assert NoShare(cs[b], cs[a]) && DeApart(des[a], des[b]) && DeClearOf(g, des[a], cs[b]);
      OtherFile(g, d, de, c, j, f, des[b], cs[b]);
    }
  }

  /** Relocating link j of file a to a free cluster keeps the volume and all its data. */
  lemma RelocateInVolume(g: Geo, d: Disk, des: seq<nat>, cs: seq<seq<nat>>, a: nat, j: nat, f: nat)
    requires Files(g, d, des, cs) && a < |des| && 1 <= j <= |cs[a]| && Free(Fat(g, d, 0), f)
    ensures var d', cs' := MovedDisk(g, d, des[a], cs[a], j, f), Replace(cs, a, j, f);
            && |d'| == |d|
            && Files(g, d', des, cs')
            && SameData(g, d, d', des, cs, cs')
            && Fat(g, d', 0) == Moved(Fat(g, d, 0), cs[a], j - 1, f)
            && (TablesEqual(g, d) ==> TablesEqual(g, d'))
            && |FreeSet(Fat(g, d', 0))| == |FreeSet(Fat(g, d, 0))|
  {
    var de, c := des[a], cs[a];
    var d', cs' := MovedDisk(g, d, de, c, j, f), Replace(cs, a, j, f);
    MovedTables(g, d, de, c, j, f);
    MovedFile(g, d, de, c, j, f);
    forall b | 0 <= b < |des|
      ensures FileOn(g, d', des[b], cs'[b]) && DeNotFree(g, d', des[b])
      ensures DeSize(d', des[b]) == DeSize(d, des[b]) && FileData(g, d', cs'[b]) == FileData(g, d, cs[b])
    {
      EachFile(g, d, des, cs, a, j, f, b);
    }
    forall x, b | 0 <= x < |des| && 0 <= b < |des| ensures DeClearOf(g, des[x], cs'[b]) {
      KeptClear(g, d, des, cs, a, j, f, x, b);
    }
    forall x, b | 0 <= x < |des| && 0 <= b < |des| && x != b ensures NoShare(cs'[x], cs'[b]) {
      KeptApart(g, d, des, cs, a, j, f, x, b);
    }
  }

  lemma KeptClear(g: Geo, d: Disk, des: seq<nat>, cs: seq<seq<nat>>, a: nat, j: nat, f: nat, x: nat, b: nat)
    requires Files(g, d, des, cs) && a < |des| && 1 <= j <= |cs[a]| && Free(Fat(g, d, 0), f) && x < |des| && b < |des|
    ensures DeClearOf(g, des[x], Replace(cs, a, j, f)[b])
  {
    assert DeClearOf(g, des[x], cs[b]);
    assert DeNotFree(g, d, des[x]) && DeClear(g, des[x], f);
  }

  lemma KeptApart(g: Geo, d: Disk, des: seq<nat>, cs: seq<seq<nat>>, a: nat, j: nat, f: nat, x: nat, b: nat)
    requires Files(g, d, des, cs) && a < |des| && 1 <= j <= |cs[a]| && Free(Fat(g, d, 0), f)
    requires x < |des| && b < |des| && x != b
    ensures NoShare(Replace(cs, a, j, f)[x], Replace(cs, a, j, f)[b])
  {
    assert NoShare(cs[x], cs[b]);
    assert FileOn(g, d, des[x], cs[x]) && FileOn(g, d, des[b], cs[b]);
    assert f !in cs[x] && f !in cs[b];
  }
}
