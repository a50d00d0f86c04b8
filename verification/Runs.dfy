/** Whole runs of the tools over all files of a vfat volume. */
module Runs {
  import opened Arith
  import opened Bits
  import opened FatChain
  import opened Vfat
  import opened Volume
  import opened Choice
  import opened Defrag

  /** The chains are at least as long as the file sizes say. */
  ghost predicate Sized(g: Geo, d: Disk, des: seq<nat>, cs: seq<seq<nat>>) {
    g.clusBytes > 0 && |des| == |cs| && forall a :: 0 <= a < |des| ==> |cs[a]| >= ClusterCount(g, d, des[a])
  }

  /** Since disk d0 the files have only moved: each has the same size and the same contents in
      order, the tables agree if they did, and the amount of free space is the same. */
  ghost predicate Intact(g: Geo, d0: Disk, d: Disk, des: seq<nat>, cs0: seq<seq<nat>>, cs: seq<seq<nat>>) {
    && Files(g, d0, des, cs0) && Files(g, d, des, cs) && SameData(g, d0, d, des, cs0, cs)
    && (TablesEqual(g, d0) ==> TablesEqual(g, d))
    && |FreeSet(Fat(g, d, 0))| == |FreeSet(Fat(g, d0, 0))|
  }

  lemma StillSized(g: Geo, d0: Disk, d: Disk, des: seq<nat>, cs0: seq<seq<nat>>, cs: seq<seq<nat>>)
    requires Sized(g, d0, des, cs0) && Files(g, d0, des, cs0) && Files(g, d, des, cs)
    requires SameData(g, d0, d, des, cs0, cs)
    ensures Sized(g, d, des, cs)
    ensures forall a :: 0 <= a < |des| ==> ClusterCount(g, d, des[a]) == ClusterCount(g, d0, des[a])
  {
    forall a | 0 <= a < |des|
      ensures |cs[a]| >= ClusterCount(g, d, des[a]) && ClusterCount(g, d, des[a]) == ClusterCount(g, d0, des[a])
    {
      assert |FileData(g, d, cs[a])| == |FileData(g, d0, cs0[a])|;
    }
  }

  lemma IntactThen(g: Geo, d0: Disk, d1: Disk, d2: Disk, des: seq<nat>,
                   cs0: seq<seq<nat>>, cs1: seq<seq<nat>>, cs2: seq<seq<nat>>)
    requires Intact(g, d0, d1, des, cs0, cs1) && Intact(g, d1, d2, des, cs1, cs2)
    ensures Intact(g, d0, d2, des, cs0, cs2)
  {
    SameDataTrans(g, d0, d1, d2, des, cs0, cs1, cs2);
  }

  /** What became of a file of n clusters, when some choices were known to be free: it is moved
      to n of them in a row if it was fragmented and there was room, and is as it was if not. */
  ghost predicate FileDone(free: set<nat>, c: seq<nat>, c': seq<nat>, n: nat, moved: bool) {
    && |c'| == |c| && n <= |c| && (moved <==> !Contiguous(c, n) && HasRoom(free, n))
    && if moved then Contiguous(c', n) && (forall k :: 0 <= k < n ==> c'[k] in free) && c'[n..] == c[n..]
       else c' == c
  }

  /** The first n clusters of a chain. */
  ghost function Targets(c: seq<nat>, n: nat): set<nat> { set k: nat | k < n && k < |c| :: c[k] }

  /** The choices that were free on disk d0 and that none of the first a files has moved to. */
  ghost function Left(g: Geo, d0: Disk, des: seq<nat>, cs': seq<seq<nat>>, moved: seq<bool>, a: nat): set<nat>
    requires g.clusBytes > 0 && a <= |des| == |cs'| && a <= |moved|
  {
    if a == 0 then FreeChoices(g, d0)
    else if moved[a - 1] then
      Left(g, d0, des, cs', moved, a - 1) - Targets(cs'[a - 1], ClusterCount(g, d0, des[a - 1]))
    else Left(g, d0, des, cs', moved, a - 1)
  }

  /** What the run has done with the first a files. */
  ghost predicate Outcome(g: Geo, d0: Disk, des: seq<nat>, cs: seq<seq<nat>>, cs': seq<seq<nat>>, moved: seq<bool>,
                          a: nat) {
    && g.clusBytes > 0 && |moved| == a <= |cs| == |cs'| == |des|
    && (forall b :: 0 <= b < a ==>
          FileDone(Left(g, d0, des, cs', moved, b), cs[b], cs'[b], ClusterCount(g, d0, des[b]), moved[b]))
    && (forall b :: a <= b < |cs| ==> cs'[b] == cs[b])
  }

  /** What is left for a file depends on the files before it only. */
  lemma {:induction false} LeftSame(g: Geo, d0: Disk, des: seq<nat>, cs1: seq<seq<nat>>, cs2: seq<seq<nat>>,
                                    moved1: seq<bool>, moved2: seq<bool>, a: nat)
    requires g.clusBytes > 0 && a <= |des| == |cs1| == |cs2| && a <= |moved1| && a <= |moved2|
    requires forall b :: 0 <= b < a ==> cs1[b] == cs2[b] && moved1[b] == moved2[b]
    ensures Left(g, d0, des, cs1, moved1, a) == Left(g, d0, des, cs2, moved2, a)
  {
    if a > 0 { LeftSame(g, d0, des, cs1, cs2, moved1, moved2, a - 1); }
  }

  lemma OutcomeNext(g: Geo, d0: Disk, des: seq<nat>, cs: seq<seq<nat>>, now: seq<seq<nat>>, cs': seq<seq<nat>>,
                    moved: seq<bool>, m: bool, a: nat)
    requires Outcome(g, d0, des, cs, now, moved, a) && a < |des|
    requires |cs'| == |now| && (forall b :: 0 <= b < |now| && b != a ==> cs'[b] == now[b])
    requires FileDone(Left(g, d0, des, now, moved, a), now[a], cs'[a], ClusterCount(g, d0, des[a]), m)
    ensures Outcome(g, d0, des, cs, cs', moved + [m], a + 1)
    ensures Left(g, d0, des, cs', moved + [m], a + 1) ==
            Left(g, d0, des, now, moved, a) - if m then Targets(cs'[a], ClusterCount(g, d0, des[a])) else {}
  {
    forall b | 0 <= b <= a ensures Left(g, d0, des, cs', moved + [m], b) == Left(g, d0, des, now, moved, b) {
      LeftSame(g, d0, des, cs', now, moved + [m], moved, b);
    }
  }

  /** The targets of a moved file. */
  lemma TargetsOfRun(cs: seq<seq<nat>>, a: nat, begin: nat, n: nat)
    requires a < |cs| && n <= |cs[a]|
    ensures var c' := AfterLinks(cs, a, begin, n)[a];
            Targets(c', n) == Run(begin, n) && |c'| == |cs[a]| && c'[n..] == cs[a][n..]
  {
    var c' := AfterLinks(cs, a, begin, n)[a];
    forall x: nat ensures x in Targets(c', n) <==> x in Run(begin, n) {
      if x in Run(begin, n) { assert c'[x - begin] == x; }
    }
  }

  lemma MovedDone(g: Geo, d: Disk, d': Disk, known: set<nat>, des: seq<nat>, cs: seq<seq<nat>>, a: nat, begin: nat,
                  n: nat)
    requires Progress(g, d, d', des, cs, a, begin, n) && RunIn(known, begin, n) && !Contiguous(cs[a], n) && a < |des|
    ensures var cs' := AfterLinks(cs, a, begin, n);
            && Intact(g, d, d', des, cs, cs') && FileDone(known, cs[a], cs'[a], n, true)
            && Targets(cs'[a], n) == Run(begin, n)
  {
    var c' := AfterLinks(cs, a, begin, n)[a];
    TargetsOfRun(cs, a, begin, n);
    MovedRun(g, d, d', des, cs, a, begin, n);
    forall k | 0 <= k < n ensures c'[k] in known { assert c'[k] == begin + k; }
  }

  /** One file of the run. */
  method DefragOne(t: Tool, des: seq<nat>, a: nat, ghost d0: Disk, ghost cs: seq<seq<nat>>, ghost now: seq<seq<nat>>)
      returns (m: bool, ghost cs': seq<seq<nat>>)
    requires t.Ready() && a < |des| && Sized(t.g, d0, des, cs) && Intact(t.g, d0, t.io.file, des, cs, now)
    modifies t, t.io, t.io.ents, t.log, t.log.ents, if t.ccache == null then {} else {t.ccache.bmp.data}
    ensures t.Ready() && t.ccache != null && Intact(t.g, d0, t.io.file, des, cs, cs')
    ensures old(t.ccache) != null ==> t.ccache == old(t.ccache)
    ensures old(t.ccache) == null ==> fresh(t.ccache) && fresh(t.ccache.bmp.data)
    ensures |cs'| == |now| == |des| && (forall b :: 0 <= b < |now| && b != a ==> cs'[b] == now[b])
    ensures FileDone(old(t.Known()), now[a], cs'[a], ClusterCount(t.g, d0, des[a]), m)
    ensures t.Known() == old(t.Known()) - if m then Targets(cs'[a], ClusterCount(t.g, d0, des[a])) else {}
  {
    ghost var d := t.io.file;
    StillSized(t.g, d0, d, des, cs, now);
    ghost var n := ClusterCount(t.g, d0, des[a]);
    ghost var begin;
    m, begin := t.DoDefrag(des[a], des, now, a);
    cs' := now;
    if m {
      cs' := AfterLinks(now, a, begin, n);
      MovedDone(t.g, d, t.io.file, old(t.Known()), des, now, a, begin, n);
      IntactThen(t.g, d0, d, t.io.file, des, cs, now, cs');
    }
  }

  /** One more file. */
  method DefragNext(t: Tool, des: seq<nat>, a: nat, ghost d0: Disk, ghost cs: seq<seq<nat>>, ghost now: seq<seq<nat>>,
                    moved: seq<bool>) returns (m: bool, ghost cs': seq<seq<nat>>)
    requires t.Ready() && a < |des| && Sized(t.g, d0, des, cs) && Intact(t.g, d0, t.io.file, des, cs, now)
    requires Outcome(t.g, d0, des, cs, now, moved, a) && t.Known() == Left(t.g, d0, des, now, moved, a)
    modifies t, t.io, t.io.ents, t.log, t.log.ents, if t.ccache == null then {} else {t.ccache.bmp.data}
    ensures t.Ready() && t.ccache != null && Intact(t.g, d0, t.io.file, des, cs, cs')
    ensures old(t.ccache) != null ==> t.ccache == old(t.ccache)
    ensures old(t.ccache) == null ==> fresh(t.ccache) && fresh(t.ccache.bmp.data)
    ensures Outcome(t.g, d0, des, cs, cs', moved + [m], a + 1)
    ensures t.Known() == Left(t.g, d0, des, cs', moved + [m], a + 1)
  {
    m, cs' := DefragOne(t, des, a, d0, cs, now);
    OutcomeNext(t.g, d0, des, cs, now, cs', moved, m, a);
  }

  lemma IntactRefl(g: Geo, d: Disk, des: seq<nat>, cs: seq<seq<nat>>)
    requires Files(g, d, des, cs)
    ensures Intact(g, d, d, des, cs, cs)
  {
    SameDataRefl(g, d, des, cs);
  }

  lemma RunStart(g: Geo, d: Disk, des: seq<nat>, cs: seq<seq<nat>>)
    requires Files(g, d, des, cs) && Sized(g, d, des, cs)
    ensures Intact(g, d, d, des, cs, cs) && Outcome(g, d, des, cs, cs, [], 0)
    ensures Left(g, d, des, cs, [], 0) == FreeChoices(g, d)
  {
    IntactRefl(g, d, des, cs);
  }

  /** The defragmenter over all directory entries of regular files. In their order, each is moved
      exactly when it is fragmented and enough choices in a row were free at the start and are
      not taken by the files before it; then it goes to such choices. All data is intact. */
  method DefragAll(t: Tool, des: seq<nat>, ghost cs: seq<seq<nat>>) returns (ghost cs': seq<seq<nat>>, moved: seq<bool>)
    requires t.Ready() && t.ccache == null
    requires Files(t.g, t.io.file, des, cs) && Sized(t.g, t.io.file, des, cs)
    modifies t, t.io, t.io.ents, t.log, t.log.ents
    ensures t.Ready()
    ensures Intact(t.g, old(t.io.file), t.io.file, des, cs, cs')
    ensures Outcome(t.g, old(t.io.file), des, cs, cs', moved, |des|)
    ensures t.Known() == Left(t.g, old(t.io.file), des, cs', moved, |des|)
  {
    ghost var d0 := t.io.file;
    cs', moved := cs, [];
    RunStart(t.g, d0, des, cs);
    var a := 0;
    while a < |des|
      invariant 0 <= a <= |des| && t.Ready() && Outcome(t.g, d0, des, cs, cs', moved, a)
      invariant t.Known() == Left(t.g, d0, des, cs', moved, a)
      invariant t.ccache != null ==> fresh(t.ccache) && fresh(t.ccache.bmp.data)
      invariant Intact(t.g, d0, t.io.file, des, cs, cs')
    {
      var m;
      m, cs' := DefragNext(t, des, a, d0, cs, cs', moved);
      moved := moved + [m];
      a := a + 1;
    }
  }

  // ----- the scatter tool -----

  const MAX_REFRESH: nat := 10

  /** A base of choice_find, from a random number: any choice but the last. */
  function BaseOf(g: Geo, r: nat): nat
    requires g.clusters > 2
  {
    r % (g.clusters - 2) + 2
  }

  lemma BaseRange(g: Geo, x: nat)
    requires g.clusters > 2
    ensures 2 <= BaseOf(g, x) < g.clusters && (2 <= x < g.clusters ==> BaseOf(g, x - 2) == x)
  {
    if 2 <= x < g.clusters { Quotient(g.clusters - 2, x - 2, 0, x - 2); }
  }

  /** k is the first known choice from a base on. */
  ghost predicate FirstFrom(known: set<nat>, base: nat, k: nat) {
    base <= k && k in known && forall x :: x in known && base <= x ==> k <= x
  }

  ghost predicate NoneFrom(known: set<nat>, base: nat) { forall x :: x in known ==> x < base }

  /** The answer of choice_find: the first choice from the first of eleven random bases that has
      one behind it, or -1 when none has. */
  ghost predicate Answer(g: Geo, known: set<nat>, rand: nat -> nat, k: int)
    requires g.clusters > 2
  {
    if k < 0 then k == -1 && forall i: nat :: i <= 10 ==> NoneFrom(known, BaseOf(g, rand(i)))
    else exists i: nat :: i <= 10 && AnswerAt(g, known, rand, k, i)
  }

  ghost predicate AnswerAt(g: Geo, known: set<nat>, rand: nat -> nat, k: nat, i: nat)
    requires g.clusters > 2
  {
    FirstFrom(known, BaseOf(g, rand(i)), k) && forall h: nat :: h < i ==> NoneFrom(known, BaseOf(g, rand(h)))
  }

  lemma OneChoice(cc: ChoiceCache, base: nat, k: int)
    requires k == -1 || (0 <= k && base <= k && cc.Fits(k, 1) && forall s :: base <= s < k ==> !cc.Fits(s, 1))
    requires k == -1 ==> forall s :: base <= s ==> !cc.Fits(s, 1)
    ensures if k == -1 then NoneFrom(cc.Choices(), base) else FirstFrom(cc.Choices(), base, k)
  {
    FitsIsRun(cc, 1);
    forall x | x in cc.Choices() ensures RunIn(cc.Choices(), x, 1) {
    }
    if k != -1 { assert k in cc.Choices(); }
  }

  /** choice_find of the scatter tool, with its random numbers as a parameter. When it finds
      nothing the cache is loaded afresh, a limited number of times. */
  method ChoiceFind(t: Tool, rand: nat -> nat, refreshes: nat) returns (k: int, refreshes': nat)
    requires t.Ready() && t.ccache != null && t.g.clusters > 2
    modifies t
    ensures t.Ready() && t.ccache != null && Answer(t.g, old(t.Known()), rand, k)
    ensures if k >= 0 || refreshes == MAX_REFRESH then t.ccache == old(t.ccache) && refreshes' == refreshes
            else fresh(t.ccache) && fresh(t.ccache.bmp.data) && refreshes' == refreshes + 1 &&
                 t.Known() == FreeChoices(t.g, t.io.file)
  {
    refreshes' := refreshes;
    var i := 0;
    while i <= 10
      invariant 0 <= i <= 11 && t.Ready() && t.ccache == old(t.ccache)
      invariant forall h: nat :: h < i ==> NoneFrom(t.Known(), BaseOf(t.g, rand(h)))
    {
      var base := rand(i) % (t.ccache.max - t.ccache.min) + t.ccache.min;
      k := t.ccache.FindAvail(base, 1);
      OneChoice(t.ccache, base, k);
      if k != -1 {
        assert AnswerAt(t.g, t.Known(), rand, k, i);
        return;
      }
      i := i + 1;
    }
    k := -1;
    if refreshes == MAX_REFRESH { return; }
    t.ccache := null;
    t.LoadChoices();
    refreshes' := refreshes + 1;
  }

  /** The state of a run: the chains, the free clusters, the choices that the tool knows to be
      free, and how often it has loaded them again. */
  datatype State = State(cs: seq<seq<nat>>, free: set<nat>, known: set<nat>, refreshes: nat)

  ghost function Now(t: Tool, cs: seq<seq<nat>>, refreshes: nat): State
    reads t, t.io, if t.ccache == null then {} else {t.ccache.bmp.data}
  {
    State(cs, FreeSet(Fat(t.g, t.io.file, 0)), t.Known(), refreshes)
  }

  /** The random numbers behind the first, and those of a link and of a file. */
  function Behind(rand: nat -> nat): nat -> nat { (i: nat) => rand(i + 1) }
  function OfLink(rand: (nat, nat) -> nat, j: nat): nat -> nat { (i: nat) => rand(j, i) }
  function OfFile(rand: (nat, nat, nat) -> nat, a: nat): (nat, nat) -> nat { (j: nat, i: nat) => rand(a, j, i) }

  /** What happens to link j of file a: nothing for the part of the links that is spared; a move
      to the answer of choice_find; or at most a fresh cache when there is no answer. */
  ghost predicate LinkDone(g: Geo, s: State, s': State, a: nat, j: nat, percent: nat, rand: nat -> nat, target: int)
    requires g.clusters > 2
  {
    && a < |s.cs| && 1 <= j <= |s.cs[a]|
    && if rand(0) % 100 > percent then target == -1 && s' == s
       else
         && Answer(g, s.known, Behind(rand), target)
         && s' == if target >= 0 then
                    State(Replace(s.cs, a, j, target), s.free - {target} + {s.cs[a][j - 1]}, s.known - {target},
                          s.refreshes)
                  else if s.refreshes == MAX_REFRESH then s
                  else s.(known := Open(g, s.free), refreshes := s.refreshes + 1)
  }

  /** swap_rel_sel on link j. */
  method ScatterLink(t: Tool, de: nat, j: nat, percent: nat, rand: nat -> nat, refreshes: nat,
                     ghost des: seq<nat>, ghost cs: seq<seq<nat>>, ghost a: nat)
      returns (refreshes': nat, ghost cs': seq<seq<nat>>, ghost target: int)
    requires t.Ready() && t.ccache != null && t.g.clusters > 2
    requires Files(t.g, t.io.file, des, cs) && a < |des| && des[a] == de && 1 <= j <= |cs[a]|
    modifies t, t.io, t.io.ents, t.log, t.log.ents, t.ccache.bmp.data
    ensures t.Ready() && t.ccache != null
    ensures t.ccache == old(t.ccache) || (fresh(t.ccache) && fresh(t.ccache.bmp.data))
    ensures Intact(t.g, old(t.io.file), t.io.file, des, cs, cs')
    ensures LinkDone(t.g, old(Now(t, cs, refreshes)), Now(t, cs', refreshes'), a, j, percent, rand, target)
    ensures target == -1 ==> t.io.file == old(t.io.file)
  {
    ghost var d := t.io.file;
    refreshes', cs', target := refreshes, cs, -1;
    IntactRefl(t.g, d, des, cs);
    if rand(0) % 100 > percent { return; }
    var k;
    k, refreshes' := ChoiceFind(t, Behind(rand), refreshes);
    if k != -1 {
      t.MoveLink(de, j, k, des, cs, a);
      cs', target := Replace(cs, a, j, k), k;
    }
  }

  /** A file in a scatter run: the states before, between and behind its links, and the target of
      each link, or -1. */
  datatype FileLog = FileLog(states: seq<State>, targets: seq<int>)

  ghost predicate FileScattered(g: Geo, log: FileLog, a: nat, links: nat, percent: nat, rand: (nat, nat) -> nat)
    requires g.clusters > 2
  {
    && |log.targets| == links && |log.states| == links + 1
    && forall j :: 1 <= j <= links ==>
         LinkDone(g, log.states[j - 1], log.states[j], a, j, percent, OfLink(rand, j), log.targets[j - 1])
  }

  lemma LogNext(g: Geo, log: FileLog, a: nat, links: nat, percent: nat, rand: (nat, nat) -> nat, s: State, target: int)
    requires g.clusters > 2 && FileScattered(g, log, a, links, percent, rand)
    requires LinkDone(g, log.states[links], s, a, links + 1, percent, OfLink(rand, links + 1), target)
    ensures FileScattered(g, FileLog(log.states + [s], log.targets + [target]), a, links + 1, percent, rand)
  {
    var next := FileLog(log.states + [s], log.targets + [target]);
    forall j | 1 <= j <= links + 1
      ensures LinkDone(g, next.states[j - 1], next.states[j], a, j, percent, OfLink(rand, j), next.targets[j - 1])
    {
    }
  }

  /** The scatter tool on the links of one file, as many as its size asks for. */
  method ScatterFile(t: Tool, de: nat, percent: nat, rand: (nat, nat) -> nat, refreshes: nat,
                     ghost des: seq<nat>, ghost cs: seq<seq<nat>>, ghost a: nat)
      returns (refreshes': nat, ghost cs': seq<seq<nat>>, ghost log: FileLog)
    requires t.Ready() && t.ccache != null && t.g.clusters > 2
    requires Files(t.g, t.io.file, des, cs) && a < |des| && des[a] == de && |cs[a]| >= ClusterCount(t.g, t.io.file, de)
    modifies t, t.io, t.io.ents, t.log, t.log.ents, t.ccache.bmp.data
    ensures t.Ready() && t.ccache != null
    ensures t.ccache == old(t.ccache) || (fresh(t.ccache) && fresh(t.ccache.bmp.data))
    ensures Intact(t.g, old(t.io.file), t.io.file, des, cs, cs')
    ensures FileScattered(t.g, log, a, ClusterCount(t.g, old(t.io.file), de), percent, rand)
    ensures log.states[0] == old(Now(t, cs, refreshes)) && log.states[|log.targets|] == Now(t, cs', refreshes')
  {
    ghost var d0 := t.io.file;
    refreshes', cs' := refreshes, cs;
    IntactRefl(t.g, d0, des, cs);
    var j, links := 1, ClusterCount(t.g, t.io.file, de);
    log := FileLog([Now(t, cs, refreshes)], []);
    while j <= links
      invariant 1 <= j <= links + 1 && t.Ready() && t.ccache != null
      invariant t.ccache == old(t.ccache) || (fresh(t.ccache) && fresh(t.ccache.bmp.data))
      invariant Intact(t.g, d0, t.io.file, des, cs, cs')
      invariant FileScattered(t.g, log, a, j - 1, percent, rand)
      invariant log.states[0] == old(Now(t, cs, refreshes)) && log.states[j - 1] == Now(t, cs', refreshes')
    {
      ghost var d, now := t.io.file, cs';
      assert |FileData(t.g, d, now[a])| == |FileData(t.g, d0, cs[a])|;
      ghost var target;
      refreshes', cs', target := ScatterLink(t, de, j, percent, OfLink(rand, j), refreshes', des, now, a);
      IntactThen(t.g, d0, d, t.io.file, des, cs, now, cs');
      LogNext(t.g, log, a, j - 1, percent, rand, Now(t, cs', refreshes'), target);
      log := FileLog(log.states + [Now(t, cs', refreshes')], log.targets + [target]);
      j := j + 1;
    }
  }

  /** The state before and the state behind a file. */
  ghost function Begin(log: FileLog): State { if |log.states| > 0 then log.states[0] else State([], {}, {}, 0) }

  ghost function End(log: FileLog): State {
    if |log.targets| < |log.states| then log.states[|log.targets|] else State([], {}, {}, 0)
  }

  /** The state before file b of a run that starts in state s. */
  ghost function StateAt(s: State, logs: seq<FileLog>, b: nat): State
    requires b <= |logs|
  {
    if b == 0 then s else End(logs[b - 1])
  }

  ghost predicate FileOfRun(g: Geo, d0: Disk, des: seq<nat>, s: State, logs: seq<FileLog>, percent: nat,
                            rand: (nat, nat, nat) -> nat, b: nat)
    requires g.clusters > 2 && g.clusBytes > 0 && b < |logs| && b < |des|
  {
    && FileScattered(g, logs[b], b, ClusterCount(g, d0, des[b]), percent, OfFile(rand, b))
    && Begin(logs[b]) == StateAt(s, logs, b)
  }

  /** A scatter run over the first files, from state s to state s'. */
  ghost predicate RunScattered(g: Geo, d0: Disk, des: seq<nat>, s: State, s': State, logs: seq<FileLog>, percent: nat,
                               rand: (nat, nat, nat) -> nat)
    requires g.clusters > 2 && g.clusBytes > 0
  {
    && |logs| <= |des| && s' == StateAt(s, logs, |logs|)
    && forall b :: 0 <= b < |logs| ==> FileOfRun(g, d0, des, s, logs, percent, rand, b)
  }

  lemma RunNext(g: Geo, d0: Disk, des: seq<nat>, s: State, logs: seq<FileLog>, percent: nat,
                rand: (nat, nat, nat) -> nat, log: FileLog)
    requires g.clusters > 2 && g.clusBytes > 0 && |logs| < |des|
    requires FileScattered(g, log, |logs|, ClusterCount(g, d0, des[|logs|]), percent, OfFile(rand, |logs|))
    requires RunScattered(g, d0, des, s, Begin(log), logs, percent, rand)
    ensures RunScattered(g, d0, des, s, End(log), logs + [log], percent, rand)
  {
    var all := logs + [log];
    forall b | 0 <= b < |all| ensures FileOfRun(g, d0, des, s, all, percent, rand, b) {
      if b < |logs| { assert FileOfRun(g, d0, des, s, logs, percent, rand, b); }
      assert StateAt(s, all, b) == StateAt(s, logs, b);
    }
  }

  /** The run before its last file. */
  lemma RunBefore(g: Geo, d0: Disk, des: seq<nat>, s: State, s': State, logs: seq<FileLog>, percent: nat,
                  rand: (nat, nat, nat) -> nat)
    requires g.clusters > 2 && g.clusBytes > 0 && |logs| > 0 && RunScattered(g, d0, des, s, s', logs, percent, rand)
    ensures RunScattered(g, d0, des, s, Begin(logs[|logs| - 1]), logs[..|logs| - 1], percent, rand)
  {
    var last := |logs| - 1;
    var all := logs[..last];
    assert FileOfRun(g, d0, des, s, logs, percent, rand, last);
    forall b | 0 <= b <= last ensures StateAt(s, all, b) == StateAt(s, logs, b) {
    }
    forall b | 0 <= b < last ensures FileOfRun(g, d0, des, s, all, percent, rand, b) {
      assert FileOfRun(g, d0, des, s, logs, percent, rand, b);
    }
  }

  /** The cache is loaded at the first file. */
  method LoadOnce(t: Tool)
    requires t.Ready()
    modifies t
    ensures t.Ready() && t.ccache != null && t.Known() == old(t.Known())
    ensures t.ccache == old(t.ccache) || (fresh(t.ccache) && fresh(t.ccache.bmp.data))
  {
    if t.ccache == null { t.LoadChoices(); }
  }

  /** The scatter tool over all directory entries of regular files: every link is moved, or is
      spared, as the random numbers, the percentage and the known choices say; no target is a
      live cluster, and all files keep their data. */
  method ScatterAll(t: Tool, des: seq<nat>, percent: nat, rand: (nat, nat, nat) -> nat, ghost cs: seq<seq<nat>>)
      returns (ghost cs': seq<seq<nat>>, ghost logs: seq<FileLog>, refreshes: nat)
    requires t.Ready() && t.ccache == null && t.g.clusters > 2
    requires Files(t.g, t.io.file, des, cs) && Sized(t.g, t.io.file, des, cs)
    modifies t, t.io, t.io.ents, t.log, t.log.ents
    ensures t.Ready()
    ensures Intact(t.g, old(t.io.file), t.io.file, des, cs, cs')
    ensures |logs| == |des|
    ensures RunScattered(t.g, old(t.io.file), des, old(Now(t, cs, 0)), Now(t, cs', refreshes), logs, percent, rand)
  {
    ghost var d0, s := t.io.file, Now(t, cs, 0);
    cs', logs, refreshes := cs, [], 0;
    IntactRefl(t.g, d0, des, cs);
    var a := 0;
    while a < |des|
      invariant 0 <= a <= |des| && t.Ready()
      invariant t.ccache != null ==> fresh(t.ccache) && fresh(t.ccache.bmp.data)
      invariant Intact(t.g, d0, t.io.file, des, cs, cs')
      invariant |logs| == a && RunScattered(t.g, d0, des, s, Now(t, cs', refreshes), logs, percent, rand)
    {
      LoadOnce(t);
      ghost var d, now := t.io.file, cs';
      StillSized(t.g, d0, d, des, cs, now);
      ghost var log;
      refreshes, cs', log := ScatterFile(t, des[a], percent, OfFile(rand, a), refreshes, des, now, a);
      IntactThen(t.g, d0, d, t.io.file, des, cs, now, cs');
      RunNext(t.g, d0, des, s, logs, percent, rand, log);
      logs := logs + [log];
      a := a + 1;
    }
  }

  // ----- what a scatter run does to the chains -----

  /** Every link is at its target, if it has one, or where it was. */
  ghost predicate Scattered(c: seq<nat>, c': seq<nat>, targets: seq<int>) {
    && |c'| == |c| && |targets| <= |c|
    && forall j :: 0 <= j < |c| ==> c'[j] == if j < |targets| && targets[j] >= 0 then targets[j] else c[j]
  }

  lemma {:induction false} FileChains(g: Geo, log: FileLog, a: nat, links: nat, percent: nat, rand: (nat, nat) -> nat,
                                      m: nat)
    requires g.clusters > 2 && FileScattered(g, log, a, links, percent, rand) && m <= links
    requires a < |log.states[0].cs| && links <= |log.states[0].cs[a]|
    ensures var cs, cs' := log.states[0].cs, log.states[m].cs;
            && |cs'| == |cs| && Scattered(cs[a], cs'[a], log.targets[..m])
            && forall b :: 0 <= b < |cs| && b != a ==> cs'[b] == cs[b]
  {
    if m > 0 {
      FileChains(g, log, a, links, percent, rand, m - 1);
      assert LinkDone(g, log.states[m - 1], log.states[m], a, m, percent, OfLink(rand, m), log.targets[m - 1]);
    }
  }

  /** The chains after a run, by the targets. */
  lemma {:induction false} RunChains(g: Geo, d0: Disk, des: seq<nat>, s: State, s': State, logs: seq<FileLog>,
                                     percent: nat, rand: (nat, nat, nat) -> nat)
    requires g.clusters > 2 && g.clusBytes > 0 && RunScattered(g, d0, des, s, s', logs, percent, rand)
    requires |s.cs| == |des| && forall b :: 0 <= b < |des| ==> |s.cs[b]| >= ClusterCount(g, d0, des[b])
    ensures |s'.cs| == |des|
    ensures forall b :: 0 <= b < |des| ==> Scattered(s.cs[b], s'.cs[b], if b < |logs| then logs[b].targets else [])
    decreases |logs|
  {
    if |logs| > 0 {
      RunBefore(g, d0, des, s, s', logs, percent, rand);
      var a := |logs| - 1;
      var log, n := logs[a], ClusterCount(g, d0, des[a]);
      assert FileOfRun(g, d0, des, s, logs, percent, rand, a);
      RunChains(g, d0, des, s, Begin(log), logs[..a], percent, rand);
      FileChains(g, log, a, n, percent, OfFile(rand, a), n);
      assert log.targets[..n] == log.targets;
      forall b | 0 <= b < |des| ensures Scattered(s.cs[b], s'.cs[b], if b <= a then logs[b].targets else []) {
        assert Scattered(s.cs[b], Begin(log).cs[b], if b < a then logs[b].targets else []);
        if b == a { assert s.cs[b] == Begin(log).cs[b]; }
      }
    }
  }

  /** Which links have a target: those that are drawn, when something is known to be free from
      one of the eleven bases on. At 99 percent or more every link is drawn. */
  lemma TargetExactly(g: Geo, s: State, s': State, a: nat, j: nat, percent: nat, rand: nat -> nat, target: int)
    requires g.clusters > 2 && LinkDone(g, s, s', a, j, percent, rand, target)
    ensures target >= 0 <==> (percent >= 99 || rand(0) % 100 <= percent) &&
                             exists i: nat :: 1 <= i <= 11 && !NoneFrom(s.known, BaseOf(g, rand(i)))
    ensures target >= 0 ==> target in s.known && target !in s'.known
  {
    if target >= 0 {
      var i: nat :| i <= 10 && AnswerAt(g, s.known, Behind(rand), target, i);
      assert !NoneFrom(s.known, BaseOf(g, rand(i + 1)));
    } else if exists i: nat :: 1 <= i <= 11 && !NoneFrom(s.known, BaseOf(g, rand(i))) {
      var i: nat :| 1 <= i <= 11 && !NoneFrom(s.known, BaseOf(g, rand(i)));
      assert Behind(rand)(i - 1) == rand(i);
    }
  }
}
