/** Whole runs of the storage layer: reads and writes through the cache, and the write log
    on top of it, against a machine that has only a flat disk. */
module Session {
  import opened Bits
  import opened Flat
  import opened Pread
  import opened PhysRead
  import opened WriteLog

  datatype Op =
    | Read(off: nat, n: nat)
    | Store(e: Entry)
    | StoreBytes(at: nat, buf: seq<Byte>)
    | Start
    | Add(entry: Entry)
    | Commit
    | Stop
    | Steal
    | CommitStolen

  /** A log: stopped, or open with its pending writes. */
  datatype LogState = Stopped | Open(es: seq<Entry>)

  /** The flat machine. */
  datatype State = State(disk: Disk, log: LogState, stolen: LogState)

  /** The little-endian reads that return the bits of the field. */
  predicate ReadSupported(d: Disk, off: nat, n: nat) {
    && 0 < n <= 64 && LinesInFile(d, off / 8 * 8, off % 8 + n)
    && (if off % 8 != 0 then n < 64 else CrossesLine(off, n) ==> n % 8 == 0)
  }

  /** What the code asserts before each operation. */
  predicate Enabled(s: State, op: Op) {
    match op
    case Read(off, n) => ReadSupported(s.disk, off, n)
    case Store(e) => Supported(e, |s.disk|) && (e.bits == 1 ==> LinesInFile(s.disk, e.addr / 8 * 8, 8))
    case StoreBytes(at, buf) => at + |buf| <= |s.disk|
    case Start => s.log.Stopped?
    case Add(e) => s.log.Open? && |s.log.es| < IO_MAX_ACCESS
    case Commit => s.log.Open? && Writable(s.log.es, s.disk)
    case Stop => s.log == Open([])
    case Steal => s.log.Open?
    case CommitStolen => s.stolen.Open? && Writable(s.stolen.es, s.disk)
  }

  ghost function Step(s: State, op: Op): (t: State)
    requires Enabled(s, op)
    ensures |t.disk| == |s.disk|
  {
    match op
    case Read(_, _) => s
    case Store(e) => s.(disk := Put(s.disk, e))
    case StoreBytes(at, buf) => s.(disk := PutBytes(s.disk, at, buf))
    case Start => s.(log := Open([]))
    case Add(e) => s.(log := Open(s.log.es + [e]))
    case Commit => s.(disk := Apply(s.disk, s.log.es), log := Open([]))
    case Stop => s.(log := Stopped)
    case Steal => s.(log := Stopped, stolen := s.log)
    case CommitStolen => s.(disk := Apply(s.disk, s.stolen.es), stolen := Open([]))
  }

  /** What the caller sees: the bits of the field for a read. */
  function Seen(s: State, op: Op): seq<nat> {
    if op.Read? then [Slice(s.disk, op.off, op.n)] else []
  }

  /** The first k operations are all enabled when they are reached. */
  ghost predicate Legal(s: State, ops: seq<Op>, k: nat)
    requires k <= |ops|
    decreases k, 0
  {
    k == 0 || (Legal(s, ops, k - 1) && Enabled(After(s, ops, k - 1), ops[k - 1]))
  }

  ghost function After(s: State, ops: seq<Op>, k: nat): State
    requires k <= |ops| && Legal(s, ops, k)
    decreases k, 1
  {
    if k == 0 then s else Step(After(s, ops, k - 1), ops[k - 1])
  }

  ghost function Trace(s: State, ops: seq<Op>, k: nat): seq<nat>
    requires k <= |ops| && Legal(s, ops, k)
  {
    if k == 0 then [] else Trace(s, ops, k - 1) + Seen(After(s, ops, k - 1), ops[k - 1])
  }

  lemma {:induction false} LegalPrefix(s: State, ops: seq<Op>, k: nat, n: nat)
    requires k <= n <= |ops| && Legal(s, ops, n)
    ensures Legal(s, ops, k)
    decreases n
  {
    if k < n { LegalPrefix(s, ops, k, n - 1); }
  }

  ghost predicate LogIs(log: Log, l: LogState)
    reads log, log.ents
  {
    && log.Valid()
    && (l.Stopped? ==> log.idx == -1)
    && (l.Open? ==> log.idx >= 0 && log.Pending() == l.es)
  }

  method ReadField(io: Io, off: nat, n: nat) returns (v: nat)
    requires io.Valid() && ReadSupported(io.file, off, n)
    modifies io.ents
    ensures io.Valid() && v == Slice(io.file, off, n)
  {
    AlignedReadExact(off / 8 * 8, n);
    v := GetLocalPhys(io, false, off, n);
  }

  /** The running system: the cached file, its write log and a log stolen from it. */
  class System {
    const io: Io
    const log: Log
    var stolen: Log

    ghost predicate Is(s: State)
      reads this, io, io.ents, log, log.ents, stolen, stolen.ents
    {
      && io.Valid() && io.file == s.disk
      && LogIs(log, s.log) && LogIs(stolen, s.stolen)
      && stolen != log && stolen.ents != log.ents
    }

    constructor (file: Disk)
      requires |file| < MAX_FILE
      ensures Is(State(file, Stopped, Stopped)) && fresh(io) && fresh(io.ents)
      ensures fresh(log) && fresh(log.ents) && fresh(stolen) && fresh(stolen.ents)
    {
      io := new Io(file);
      log := new Log();
      stolen := new Log();
    }

    method Do(op: Op, ghost s: State) returns (seen: seq<nat>)
      requires Is(s) && Enabled(s, op)
      modifies this, io, io.ents, log, log.ents, stolen, stolen.ents
      ensures Is(Step(s, op)) && seen == Seen(s, op)
      ensures stolen == old(stolen) || (fresh(stolen) && fresh(stolen.ents))
    {
      seen := [];
      match op
      case Read(off, n) =>
        var v := ReadField(io, off, n);
        seen := [v];
      case Store(e) =>
        io.Write(e);
      case StoreBytes(at, buf) =>
        io.WriteBytes(at, buf, 0);
      case Start =>
        log.Start();
      case Add(e) =>
        log.Add(e);
      case Commit =>
        log.Commit(io);
      case Stop =>
        log.Stop();
      case Steal =>
        stolen := log.Steal();
      case CommitStolen =>
        stolen.Commit(io);
    }

    /** Every run shows the caller what the flat machine shows, and leaves its disk. */
    method Run(ops: seq<Op>, ghost s: State) returns (seen: seq<nat>)
      requires Is(s) && Legal(s, ops, |ops|)
      modifies this, io, io.ents, log, log.ents, stolen, stolen.ents
      ensures Is(After(s, ops, |ops|)) && seen == Trace(s, ops, |ops|)
    {
      seen := [];
      var k := 0;
      while k < |ops|
        invariant 0 <= k <= |ops| && Legal(s, ops, k)
        invariant Is(After(s, ops, k)) && seen == Trace(s, ops, k)
        invariant stolen == old(stolen) || (fresh(stolen) && fresh(stolen.ents))
      {
        LegalPrefix(s, ops, k + 1, |ops|);
        var more := Do(ops[k], After(s, ops, k));
        seen := seen + more;
        k := k + 1;
      }
    }
  }

  // ----- isolation -----

  /** Operations that leave the disk alone. */
  predicate Quiet(op: Op) {
    op.Read? || op.Start? || op.Add? || op.Stop? || op.Steal?
  }

  /** The writes that the operations i..j log. */
  function Added(ops: seq<Op>, i: nat, j: nat): seq<Entry>
    requires i <= j <= |ops|
    decreases j - i
  {
    if i == j then [] else Added(ops, i, j - 1) + (if ops[j - 1].Add? then [ops[j - 1].entry] else [])
  }

  /** Until something is committed or stored the disk does not change, so every value that a
      packet reads is a value of the disk at the start. */
  lemma {:induction false} Isolation(s: State, ops: seq<Op>, i: nat, j: nat)
    requires i <= j <= |ops| && Legal(s, ops, |ops|)
    requires forall k :: i <= k < j ==> Quiet(ops[k])
    ensures Legal(s, ops, i) && Legal(s, ops, j)
    ensures After(s, ops, j).disk == After(s, ops, i).disk
    decreases j - i
  {
    LegalPrefix(s, ops, i, |ops|);
    LegalPrefix(s, ops, j, |ops|);
    if i < j { Isolation(s, ops, i, j - 1); }
  }

  /** The log holds what was added since the start, in order. */
  lemma {:induction false} Pending(s: State, ops: seq<Op>, i: nat, j: nat)
    requires i < j <= |ops| && Legal(s, ops, |ops|)
    requires ops[i] == Start && forall k :: i < k < j ==> ops[k].Read? || ops[k].Add?
    ensures Legal(s, ops, j) && After(s, ops, j).log == Open(Added(ops, i, j))
    decreases j - i
  {
    LegalPrefix(s, ops, j, |ops|);
    if i + 1 < j { Pending(s, ops, i, j - 1); }
  }

  /** A transaction applies its writes, in order, to the disk as it was at its start. */
  lemma Transaction(s: State, ops: seq<Op>, i: nat, j: nat)
    requires i < j < |ops| && Legal(s, ops, |ops|)
    requires ops[i] == Start && ops[j] == Commit && forall k :: i < k < j ==> ops[k].Read? || ops[k].Add?
    ensures Legal(s, ops, i) && Legal(s, ops, j + 1)
    ensures AllSupported(Added(ops, i, j), |After(s, ops, i).disk|)
    ensures After(s, ops, j + 1).disk == Apply(After(s, ops, i).disk, Added(ops, i, j))
  {
    LegalPrefix(s, ops, j + 1, |ops|);
    Isolation(s, ops, i, j);
    Pending(s, ops, i, j);
  }

  /** Two logs that are computed from one disk, the first stolen and committed last. For
      disjoint writes the order of the two commits does not matter. */
  lemma StolenLast(d: Disk, replace: seq<Entry>, relink: seq<Entry>)
    requires AllSupported(replace, |d|) && AllSupported(relink, |d|) && PairwiseDisjoint(replace + relink)
    ensures Apply(Apply(d, relink), replace) == Apply(Apply(d, replace), relink)
  {
    var a, b := relink + replace, replace + relink;
    ApplyConcat(d, relink, replace);
    ApplyConcat(d, replace, relink);
    forall j, k | 0 <= j < k < |a| ensures Disjoint(a[j], a[k]) {
      var j' := if j < |relink| then j + |replace| else j - |relink|;
      var k' := if k < |relink| then k + |replace| else k - |relink|;
      assert a[j] == b[j'] && a[k] == b[k'];
    }
    assert multiset(a) == multiset(b);
    CommitOrder(d, a, b);
  }

  // ----- reads after writes -----

  /** A read of a stored field returns the stored value; a read of any other field returns
      what it returned before. */
  lemma ReadAfterStore(s: State, e: Entry, off: nat, n: nat)
    requires Enabled(s, Store(e))
    ensures Slice(Step(s, Store(e)).disk, e.addr, e.bits) == Low(e.val, e.bits)
    ensures Misses(e, off, n) ==> Slice(Step(s, Store(e)).disk, off, n) == Slice(s.disk, off, n)
  {
    var es := [e];
    assert Supported(es[0], |s.disk|);
    assert Apply(s.disk, es) == Put(ApplyFirst(s.disk, es, 0), es[0]);
    ApplyField(s.disk, es, 0);
    if Misses(e, off, n) { ApplyFrame(s.disk, es, off, n); }
  }
}
