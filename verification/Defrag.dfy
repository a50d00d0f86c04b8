/** The defragmenter on vfat: a file whose clusters are not consecutive is moved, link by link,
    to a run of clusters that the choice cache knows to be free. */
module Defrag {
  import opened Bits
  import opened Pread
  import opened WriteLog
  import opened Relocate
  import opened FatChain
  import opened Vfat
  import opened Volume
  import opened Choice

  /** The first n links of a chain are consecutive clusters. */
  predicate Contiguous(c: seq<nat>, n: nat) {
    n <= |c| && forall k :: 0 <= k < n - 1 ==> c[k + 1] == c[k] + 1
  }

  /** The chain with its first i links moved to begin, begin + 1, ... */
  function Mixed(c: seq<nat>, begin: nat, i: nat): (m: seq<nat>)
    requires i <= |c|
    ensures |m| == |c|
  {
    seq(|c|, k requires 0 <= k < |c| => if k < i then begin + k else c[k])
  }

  /** Two clusters are adjacent on the disk exactly when their numbers are. */
  lemma AdjacentClusters(g: Geo, x: nat, y: nat)
    requires g.clusBytes > 0 && 2 <= x && 2 <= y
    ensures ClusByte(g, y) == ClusByte(g, x) + g.clusBytes <==> y == x + 1
  {
    if y == x + 1 {
      assert (y - 2) * g.clusBytes == (x - 2) * g.clusBytes + g.clusBytes;
    } else if y > x + 1 {
      ClusOrder(g, x, x + 1);
      ClusOrder(g, x + 1, y);
    } else if y < x {
      ClusOrder(g, y, x);
    }
  }

  /** The choices that are marked available are free on the disk. */
  ghost predicate Sound(g: Geo, d: Disk, cc: ChoiceCache)
    reads cc.bmp.data
  {
    forall i: nat :: cc.Avail(i) ==> Free(Fat(g, d, 0), i)
  }

  /** Clusters that are free and are choices: the last cluster of a volume is not. */
  ghost function Open(g: Geo, free: set<nat>): set<nat> { set x | x in free && x <= g.clusters }

  ghost function FreeChoices(g: Geo, d: Disk): set<nat> { Open(g, FreeSet(Fat(g, d, 0))) }

  /** n consecutive choices from s on. */
  ghost predicate RunIn(free: set<nat>, s: nat, n: nat) { forall i :: s <= i < s + n ==> i in free }

  /** There are n consecutive choices. */
  ghost predicate HasRoom(free: set<nat>, n: nat) { exists s: nat :: RunIn(free, s, n) }

  ghost function Run(s: nat, n: nat): (r: set<nat>)
    ensures forall x: nat :: x in r <==> s <= x < s + n
  {
    if n == 0 then {} else Run(s, n - 1) + {s + n - 1}
  }

  /** Where the search for n consecutive choices starts: at the cursor, if there are any behind
      it, or else at the first choice. */
  ghost function SearchFrom(free: set<nat>, cursor: nat, n: nat): nat {
    if exists s :: cursor <= s && RunIn(free, s, n) then cursor else 2
  }

  /** The first n consecutive choices from a place on. */
  ghost predicate FirstRun(free: set<nat>, from: nat, n: nat, s: nat) {
    from <= s && RunIn(free, s, n) && forall r :: from <= r < s ==> !RunIn(free, r, n)
  }

  class Tool {
    const io: Io
    const log: Log
    const g: Geo
    var ccache: ChoiceCache?
    var cursor: nat

    ghost predicate Ready()
      reads this, io, io.ents, log, if ccache == null then {} else {ccache.bmp.data}
    {
      && io.Valid() && log.Valid() && log.idx == -1
      && ValidGeo(g, |io.file|) && g.clusters >= 2
      && (ccache != null ==>
            && ccache.Valid() && ccache.min == 2 && ccache.max == g.clusters
            && ccache.min <= cursor <= ccache.max
            && Sound(g, io.file, ccache))
    }

    /** The choices that the tool takes to be free, once it has loaded its cache. */
    ghost function Known(): set<nat>
      reads this, io, if ccache == null then {} else {ccache.bmp.data}
    {
      if ccache == null then FreeChoices(g, io.file) else ccache.Choices()
    }

    constructor (io: Io, log: Log, g: Geo)
      requires io.Valid() && log.Valid() && log.idx == -1
      requires ValidGeo(g, |io.file|) && g.clusters >= 2
      ensures Ready() && this.io == io && this.log == log && this.g == g && ccache == null
    {
      this.io, this.log, this.g := io, log, g;
      ccache, cursor := null, 0;
    }

    /** is_fragmented, for links 1 .. selMax of a chain. */
    method IsFragmented(de: nat, selMax: nat, ghost c: seq<nat>) returns (b: bool)
      requires Ready() && FileOn(g, io.file, de, c) && selMax <= |c|
      ensures b <==> !Contiguous(c, selMax)
    {
      if selMax <= 1 {
        return false;
      }
      var r := VfatReloc(g, de);
      NthOnChain(g, io.file, de, c, 1);
      var lastOff := r.selByte(io.file, 1);
      var cur := 2;
      while cur <= selMax
        invariant 2 <= cur <= selMax + 1
        invariant lastOff == ClusByte(g, c[cur - 2])
        invariant forall k :: 0 <= k < cur - 2 ==> c[k + 1] == c[k] + 1
      {
        NthOnChain(g, io.file, de, c, cur);
        var curOff := r.selByte(io.file, cur);
        AdjacentClusters(g, c[cur - 2], c[cur - 1]);
        if curOff != lastOff + g.clusBytes {
          return true;
        }
        lastOff := curOff;
        cur := cur + 1;
      }
      b := false;
    }

    /** Load the choice cache at first use: a choice is available exactly when it is free. */
    method LoadChoices()
      requires Ready()
      modifies this
      ensures Ready() && ccache != null && Known() == old(Known())
      ensures old(ccache) != null ==> ccache == old(ccache) && cursor == old(cursor)
      ensures old(ccache) == null ==> fresh(ccache) && fresh(ccache.bmp.data) && cursor == 2
      ensures old(ccache) == null ==>
                forall i :: 2 <= i <= g.clusters ==> (ccache.Avail(i) <==> Free(Fat(g, io.file, 0), i))
    {
      if ccache == null {
        var d := io.file;
        ccache := new ChoiceCache(2, g.clusters, (i: nat) => FatNext(g, d, i) == 0);
        cursor := ccache.min;
        forall i | 2 <= i <= g.clusters ensures ccache.Avail(i) <==> Free(Fat(g, d, 0), i) {
          assert Fat(g, d, 0)[i] == FatNext(g, d, i);
        }
      }
    }

    /** Relocate link j of file a to the free cluster f. */
    method RelocateTo(de: nat, j: nat, f: nat, ghost des: seq<nat>, ghost cs: seq<seq<nat>>, ghost a: nat)
      requires io.Valid() && log.Valid() && log.idx == -1 && Free(Fat(g, io.file, 0), f)
      requires Files(g, io.file, des, cs) && a < |des| && des[a] == de && 1 <= j <= |cs[a]|
      modifies io, io.ents, log, log.ents
      ensures io.Valid() && log.Valid() && log.idx == -1
      ensures Effect(g, old(io.file), io.file, des, cs, a, j, f)
    {
      MoveEffect(g, io.file, des, cs, a, j, f);
      var r := VfatReloc(g, de);
      var selByte := r.selByte(io.file, j);
      WpktRelocate(io, log, r, VfatRank(g), selByte, j, f);
    }

    /** One step of the loop: relocate link j to the available cluster f and mark f as taken. */
    method MoveLink(de: nat, j: nat, f: nat, ghost des: seq<nat>, ghost cs: seq<seq<nat>>, ghost a: nat)
      requires Ready() && ccache != null && f in ccache.Choices()
      requires Files(g, io.file, des, cs) && a < |des| && des[a] == de && 1 <= j <= |cs[a]|
      modifies io, io.ents, log, log.ents, ccache.bmp.data
      ensures Ready()
      ensures Effect(g, old(io.file), io.file, des, cs, a, j, f)
      ensures ccache.Choices() == old(ccache.Choices()) - {f}
    {
      ghost var d := io.file;
      RelocateTo(de, j, f, des, cs, a);
      ccache.MarkAlloc(f);
      StillSound(g, d, io.file, f, ccache);
    }

    /** Move link i + 1 of file a, whose first i links have moved since disk d0, to the first of a
        run of choices. */
    method MoveNext(de: nat, i: nat, begin: nat, ghost left: nat, ghost d0: Disk, ghost des: seq<nat>,
                    ghost cs: seq<seq<nat>>, ghost a: nat)
      requires Ready() && ccache != null && left > 0 && RunIn(ccache.Choices(), begin + i, left)
      requires Progress(g, d0, io.file, des, cs, a, begin, i) && i < |cs[a]| && des[a] == de
      modifies io, io.ents, log, log.ents, ccache.bmp.data
      ensures Ready()
      ensures Progress(g, d0, io.file, des, cs, a, begin, i + 1)
      ensures ccache.Choices() == old(ccache.Choices()) - {begin + i}
    {
      ghost var d, now := io.file, AfterLinks(cs, a, begin, i);
      MoveLink(de, i + 1, begin + i, des, now, a);
      ProgressStep(g, d0, d, io.file, des, cs, a, begin, i);
    }

    /** The loop of do_defrag: link i + 1 goes to begin + i; the first i links have moved and
        the remaining targets are still available. */
    method MoveAll(de: nat, n: nat, begin: nat, ghost des: seq<nat>, ghost cs: seq<seq<nat>>, ghost a: nat)
      requires Ready() && ccache != null
      requires Files(g, io.file, des, cs) && a < |des| && des[a] == de && n <= |cs[a]|
      requires RunIn(ccache.Choices(), begin, n)
      modifies io, io.ents, log, log.ents, ccache.bmp.data
      ensures Ready()
      ensures Progress(g, old(io.file), io.file, des, cs, a, begin, n)
      ensures ccache.Choices() == old(ccache.Choices()) - Run(begin, n)
    {
      var i := 0;
      ghost var d0, free := io.file, ccache.Choices();
      ProgressStart(g, d0, des, cs, a, begin);
      while i < n
        invariant 0 <= i <= n && Ready()
        invariant Progress(g, d0, io.file, des, cs, a, begin, i)
        invariant ccache.Choices() == free - Run(begin, i)
      {
        RunLeft(free, begin, i, n);
        MoveNext(de, i, begin, n - i, d0, des, cs, a);
        i := i + 1;
      }
    }

    /** Look for n consecutive choices from a place on. */
    method Search(from: nat, n: nat) returns (r: int)
      requires ccache != null && ccache.Valid() && ccache.min <= from <= ccache.max && n >= 1
      ensures r == -1 ==> forall s: nat :: from <= s ==> !RunIn(ccache.Choices(), s, n)
      ensures r != -1 ==> 0 <= r && FirstRun(ccache.Choices(), from, n, r)
    {
      r := ccache.FindAvail(from, n);
      FitsIsRun(ccache, n);
    }

    /** Look for n consecutive choices from the cursor on, and then from the start. */
    method FindSpace(n: nat) returns (r: int)
      requires Ready() && ccache != null && n >= 1
      modifies this`cursor
      ensures Ready() && cursor == SearchFrom(ccache.Choices(), old(cursor), n)
      ensures r == -1 <==> !HasRoom(ccache.Choices(), n)
      ensures r != -1 ==> 0 <= r && FirstRun(ccache.Choices(), cursor, n, r)
    {
      r := Search(cursor, n);
      if r == -1 {
        cursor := ccache.min;
        r := Search(cursor, n);
        forall s: nat | s < 2 ensures !RunIn(ccache.Choices(), s, n) { assert s !in ccache.Choices(); }
      }
    }

    /** Move a file to a run of choices, and the cursor on. */
    method MoveFile(de: nat, n: nat, begin: nat, ghost des: seq<nat>, ghost cs: seq<seq<nat>>, ghost a: nat)
      requires Ready() && ccache != null
      requires Files(g, io.file, des, cs) && a < |des| && des[a] == de && n <= |cs[a]|
      requires RunIn(ccache.Choices(), begin, n)
      modifies this`cursor, io, io.ents, log, log.ents, ccache.bmp.data
      ensures Ready()
      ensures Progress(g, old(io.file), io.file, des, cs, a, begin, n)
      ensures forall j :: 1 <= j <= n ==> NthCnum(g, io.file, de, j) == begin + j - 1
      ensures ccache.Choices() == old(ccache.Choices()) - Run(begin, n)
      ensures cursor == if old(cursor) + n > g.clusters then 2 else old(cursor) + n
    {
      ghost var d := io.file;
      MoveAll(de, n, begin, des, cs, a);
      MovedRun(g, d, io.file, des, cs, a, begin, n);
      cursor := cursor + n;
      if cursor > ccache.max {
        cursor := ccache.min;
      }
    }

    /** do_defrag once the cache is loaded, for a file of more than one cluster. */
    method MoveIfFragmented(de: nat, n: nat, ghost des: seq<nat>, ghost cs: seq<seq<nat>>, ghost a: nat)
        returns (moved: bool, ghost begin: nat)
      requires Ready() && ccache != null && n > 1
      requires Files(g, io.file, des, cs) && a < |des| && des[a] == de && n <= |cs[a]|
      modifies this`cursor, io, io.ents, log, log.ents, ccache.bmp.data
      ensures Ready()
      ensures moved <==> !Contiguous(cs[a], n) && HasRoom(old(Known()), n)
      ensures if moved then Relocated(old(io.file), old(Known()), de, n, des, cs, a, begin)
              else io.file == old(io.file) && Known() == old(Known())
      ensures Turned(old(Known()), old(cursor), n, g.clusters, moved, begin, cursor)
    {
      moved, begin := false, 0;
      var ccBegin := FindSpace(n);
      if ccBegin == -1 {
        return;
      }
      var fragmented := IsFragmented(de, n, cs[a]);
      if !fragmented {
        return;
      }
      MoveFile(de, n, ccBegin, des, cs, a);
      moved, begin := true, ccBegin;
    }

    /** Since disk d0 the first n links of file a have moved to the choices from begin on, which
        were known to be free. */
    ghost predicate Relocated(d0: Disk, known: set<nat>, de: nat, n: nat, des: seq<nat>, cs: seq<seq<nat>>, a: nat,
                              begin: nat)
      reads this, io, if ccache == null then {} else {ccache.bmp.data}
    {
      && Progress(g, d0, io.file, des, cs, a, begin, n)
      && (forall j :: 1 <= j <= n ==> NthCnum(g, io.file, de, j) == begin + j - 1)
      && RunIn(known, begin, n) && Known() == known - Run(begin, n)
    }

    /** do_defrag on the directory entry of a regular file, whose chain has at least as many
        links as its size asks for. It is moved exactly when it is fragmented and there is
        room: to the first run of free choices from the cursor on, or from the start. */
    method DoDefrag(de: nat, ghost des: seq<nat>, ghost cs: seq<seq<nat>>, ghost a: nat)
        returns (moved: bool, ghost begin: nat)
      requires Ready()
      requires Files(g, io.file, des, cs) && a < |des| && des[a] == de
      requires |cs[a]| >= ClusterCount(g, io.file, de)
      modifies this, io, io.ents, log, log.ents, if ccache == null then {} else {ccache.bmp.data}
      ensures Ready() && ccache != null
      ensures old(ccache) != null ==> ccache == old(ccache)
      ensures old(ccache) == null ==> fresh(ccache) && fresh(ccache.bmp.data)
      ensures var n := ClusterCount(g, old(io.file), de);
              moved <==> !Contiguous(cs[a], n) && HasRoom(old(Known()), n)
      ensures var n := ClusterCount(g, old(io.file), de);
              if moved then Relocated(old(io.file), old(Known()), de, n, des, cs, a, begin)
              else io.file == old(io.file) && Known() == old(Known())
      ensures var n, from := ClusterCount(g, old(io.file), de), if old(ccache) == null then 2 else old(cursor);
              Turned(old(Known()), from, n, g.clusters, moved, begin, cursor)
    {
      LoadChoices();
      moved, begin := false, 0;
      var selMax := ClusterCount(g, io.file, de);
      if selMax > 1 {
        moved, begin := MoveIfFragmented(de, selMax, des, cs, a);
      }
    }
  }

  lemma StillSound(g: Geo, d: Disk, d': Disk, f: nat, cc: ChoiceCache)
    requires forall i: nat :: cc.Avail(i) ==> i != f && Free(Fat(g, d, 0), i)
    requires FreeSet(Fat(g, d, 0)) - {f} <= FreeSet(Fat(g, d', 0))
    ensures Sound(g, d', cc)
  {
    forall i: nat | cc.Avail(i) ensures Free(Fat(g, d', 0), i) {
      assert i in FreeSet(Fat(g, d, 0)) - {f};
    }
  }

  /** Where a file of n clusters goes, and where the cursor is afterwards. */
  ghost predicate Turned(free: set<nat>, cursor: nat, n: nat, max: nat, moved: bool, begin: nat, cursor': nat) {
    var from := if n <= 1 then cursor else SearchFrom(free, cursor, n);
    if moved then FirstRun(free, from, n, begin) && cursor' == (if from + n > max then 2 else from + n)
    else cursor' == from
  }

  /** What is left of a run when its first i choices are taken. */
  lemma RunLeft(free: set<nat>, begin: nat, i: nat, n: nat)
    requires RunIn(free, begin, n) && i < n
    ensures RunIn(free - Run(begin, i), begin + i, n - i)
    ensures free - Run(begin, i) - {begin + i} == free - Run(begin, i + 1)
  {
    assert Run(begin, i + 1) == Run(begin, i) + {begin + i};
  }

  lemma FitsIsRun(cc: ChoiceCache, n: nat)
    ensures forall s: nat :: cc.Fits(s, n) <==> RunIn(cc.Choices(), s, n)
  {
    forall s: nat ensures cc.Fits(s, n) <==> RunIn(cc.Choices(), s, n) {
      forall i | s <= i < s + n ensures cc.Avail(i) <==> i in cc.Choices() {
      }
    }
  }

  /** Disk d' is disk d with the first i links of file a moved to begin, begin + 1, ...;
      every file has the same data, the tables agree if they did, and the amount of free
      space is the same. */
  ghost predicate Progress(g: Geo, d: Disk, d': Disk, des: seq<nat>, cs: seq<seq<nat>>, a: nat, begin: nat, i: nat) {
    && a < |cs| && i <= |cs[a]|
    && Files(g, d, des, cs) && Files(g, d', des, AfterLinks(cs, a, begin, i))
    && SameData(g, d, d', des, cs, AfterLinks(cs, a, begin, i))
    && (TablesEqual(g, d) ==> TablesEqual(g, d'))
    && |FreeSet(Fat(g, d', 0))| == |FreeSet(Fat(g, d, 0))|
  }

  lemma ProgressStart(g: Geo, d: Disk, des: seq<nat>, cs: seq<seq<nat>>, a: nat, begin: nat)
    requires Files(g, d, des, cs) && a < |cs|
    ensures Progress(g, d, d, des, cs, a, begin, 0)
  {
    MixedNone(cs, a, begin);
    SameDataRefl(g, d, des, cs);
  }

  lemma ProgressStep(g: Geo, d0: Disk, d: Disk, d': Disk, des: seq<nat>, cs: seq<seq<nat>>, a: nat, begin: nat, i: nat)
    requires Progress(g, d0, d, des, cs, a, begin, i) && i < |cs[a]|
    requires Effect(g, d, d', des, AfterLinks(cs, a, begin, i), a, i + 1, begin + i)
    ensures Progress(g, d0, d', des, cs, a, begin, i + 1)
  {
    MixedNext(cs, a, begin, i);
    SameDataTrans(g, d0, d, d', des, cs, AfterLinks(cs, a, begin, i), AfterLinks(cs, a, begin, i + 1));
  }

  /** All chains, with the first i links of chain a moved to begin, begin + 1, ... */
  function AfterLinks(cs: seq<seq<nat>>, a: nat, begin: nat, i: nat): seq<seq<nat>>
    requires a < |cs| && i <= |cs[a]|
  {
    cs[a := Mixed(cs[a], begin, i)]
  }

  lemma MixedNone(cs: seq<seq<nat>>, a: nat, begin: nat)
    requires a < |cs|
    ensures AfterLinks(cs, a, begin, 0) == cs
  {
    assert Mixed(cs[a], begin, 0) == cs[a];
  }

  lemma MixedNext(cs: seq<seq<nat>>, a: nat, begin: nat, i: nat)
    requires a < |cs| && i < |cs[a]|
    ensures Replace(AfterLinks(cs, a, begin, i), a, i + 1, begin + i) == AfterLinks(cs, a, begin, i + 1)
  {
    var m: seq<nat> := Mixed(cs[a], begin, i)[i := begin + i];
    assert m == Mixed(cs[a], begin, i + 1);
  }

  lemma SameDataRefl(g: Geo, d: Disk, des: seq<nat>, cs: seq<seq<nat>>)
    requires Files(g, d, des, cs)
    ensures SameData(g, d, d, des, cs, cs)
  {
  }

  lemma SameDataTrans(g: Geo, d0: Disk, d1: Disk, d2: Disk, des: seq<nat>,
                      cs0: seq<seq<nat>>, cs1: seq<seq<nat>>, cs2: seq<seq<nat>>)
    requires Files(g, d0, des, cs0) && Files(g, d1, des, cs1) && Files(g, d2, des, cs2)
    requires SameData(g, d0, d1, des, cs0, cs1) && SameData(g, d1, d2, des, cs1, cs2)
    ensures SameData(g, d0, d2, des, cs0, cs2)
  {
  }

  /** On the disk after n moves the file's links 1 .. n are the clusters begin, begin + 1, ... */
  lemma MovedRun(g: Geo, d: Disk, d': Disk, des: seq<nat>, cs: seq<seq<nat>>, a: nat, begin: nat, n: nat)
    requires Progress(g, d, d', des, cs, a, begin, n) && a < |des|
    ensures FileOn(g, d', des[a], AfterLinks(cs, a, begin, n)[a]) && Contiguous(AfterLinks(cs, a, begin, n)[a], n)
    ensures forall j :: 1 <= j <= n ==> NthCnum(g, d', des[a], j) == begin + j - 1
  {
    var c' := AfterLinks(cs, a, begin, n)[a];
    assert FileOn(g, d', des[a], c');
    forall j | 1 <= j <= n ensures NthCnum(g, d', des[a], j) == begin + j - 1 {
      NthOnChain(g, d', des[a], c', j);
    }
  }

  /** Disk d' is disk d with link j of file a moved to f: every file keeps its data, the tables
      agree if they did, and f and the old cluster of the link change places in the free space. */
  ghost predicate Effect(g: Geo, d: Disk, d': Disk, des: seq<nat>, cs: seq<seq<nat>>, a: nat, j: nat, f: nat) {
    && a < |cs| && 1 <= j <= |cs[a]|
    && |d'| == |d|
    && Files(g, d, des, cs) && Files(g, d', des, Replace(cs, a, j, f))
    && SameData(g, d, d', des, cs, Replace(cs, a, j, f))
    && (TablesEqual(g, d) ==> TablesEqual(g, d'))
    && |FreeSet(Fat(g, d', 0))| == |FreeSet(Fat(g, d, 0))|
    && FreeSet(Fat(g, d', 0)) == FreeSet(Fat(g, d, 0)) - {f} + {cs[a][j - 1]}
  }

  /** What the transaction does to link j of file a, when its target f is free. */
  lemma MoveEffect(g: Geo, d: Disk, des: seq<nat>, cs: seq<seq<nat>>, a: nat, j: nat, f: nat)
    requires Files(g, d, des, cs) && a < |des| && 1 <= j <= |cs[a]| && Free(Fat(g, d, 0), f)
    ensures CanRelocate(VfatReloc(g, des[a]), VfatRank(g), d, j, f)
    ensures Effect(g, d, Relocated(VfatReloc(g, des[a]), VfatRank(g), d, j, f), des, cs, a, j, f)
  {
    assert FileOn(g, d, des[a], cs[a]) && DeNotFree(g, d, des[a]);
    RelocatedIsMoved(g, d, des[a], cs[a], j, f);
    MovedEffect(g, d, des, cs, a, j, f);
  }

  lemma MovedEffect(g: Geo, d: Disk, des: seq<nat>, cs: seq<seq<nat>>, a: nat, j: nat, f: nat)
    requires Files(g, d, des, cs) && a < |des| && 1 <= j <= |cs[a]| && Free(Fat(g, d, 0), f)
    ensures Effect(g, d, MovedDisk(g, d, des[a], cs[a], j, f), des, cs, a, j, f)
  {
    assert FileOn(g, d, des[a], cs[a]) && DeNotFree(g, d, des[a]);
    RelocateInVolume(g, d, des, cs, a, j, f);
    FreeAfter(g, d, des, cs, a, j, f);
  }

  lemma FreeAfter(g: Geo, d: Disk, des: seq<nat>, cs: seq<seq<nat>>, a: nat, j: nat, f: nat)
    requires Files(g, d, des, cs) && a < |des| && 1 <= j <= |cs[a]| && Free(Fat(g, d, 0), f)
    ensures FileOn(g, d, des[a], cs[a]) && DeClear(g, des[a], f)
    ensures FreeSet(Fat(g, MovedDisk(g, d, des[a], cs[a], j, f), 0)) == FreeSet(Fat(g, d, 0)) - {f} + {cs[a][j - 1]}
  {
    assert FileOn(g, d, des[a], cs[a]) && DeNotFree(g, d, des[a]);
    MovedTables(g, d, des[a], cs[a], j, f);
    MovedFree(Fat(g, d, 0), Start(d, des[a]), cs[a], j - 1, f);
  }
}
