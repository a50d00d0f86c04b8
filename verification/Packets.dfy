/** Write packets: conditional field writes and conditional calls of further packets.
    Running a packet only logs writes; every location, value and condition is computed
    from the disk as it is when the packet runs. */
module Packets {
  import opened Bits
  import opened Flat
  import opened WriteLog

  type Params = seq<nat>

  datatype Maybe = None | Some(entry: Entry)

  /** A call of another packet: its condition, its arguments, and the packet's number. */
  datatype Call = Call(cond: (Disk, Params) -> bool, args: (Disk, Params) -> Params, target: nat)

  /** A packet: its conditional writes, then its conditional calls. */
  datatype Wpkt = Wpkt(funcs: seq<(Disk, Params) -> Maybe>, calls: seq<Call>)

  type Table = seq<Wpkt>

  /** A measure under which the calls that are taken terminate. */
  type Rank = (Disk, nat, Params) -> nat

  ghost predicate Ranked(t: Table, rank: Rank) {
    forall d: Disk, p: nat, ps: Params, k: nat ::
      p < |t| && k < |t[p].calls| && t[p].calls[k].cond(d, ps) ==>
        CallRanked(t, rank, d, p, ps, t[p].calls[k])
  }

  ghost predicate CallRanked(t: Table, rank: Rank, d: Disk, p: nat, ps: Params, c: Call) {
    c.target < |t| && rank(d, c.target, c.args(d, ps)) < rank(d, p, ps)
  }

  /** Parameter k of a packet. */
  function P(ps: Params, k: nat): nat { if k < |ps| then ps[k] else 0 }

  /** A write under a condition. */
  function When(b: bool, e: Entry): Maybe { if b then Some(e) else None }

  /** Subtraction in an index expression, whose clause does not fire when it would go below 0. */
  function Sub(a: nat, b: nat): nat { if a >= b then a - b else 0 }

  function OneWrite(m: Maybe): seq<Entry> { if m.Some? then [m.entry] else [] }

  /** The writes of the first n conditional writes of a packet. */
  function FuncWrites(fs: seq<(Disk, Params) -> Maybe>, d: Disk, ps: Params, n: nat): seq<Entry>
    requires n <= |fs|
  {
    if n == 0 then [] else FuncWrites(fs, d, ps, n - 1) + OneWrite(fs[n - 1](d, ps))
  }

  /** The writes of packet p: a function of the disk and the parameters alone. */
  ghost function Writes(t: Table, rank: Rank, d: Disk, p: nat, ps: Params): seq<Entry>
    requires Ranked(t, rank) && p < |t|
    decreases rank(d, p, ps), |t[p].calls| + 1
  {
    FuncWrites(t[p].funcs, d, ps, |t[p].funcs|) + CallWrites(t, rank, d, p, ps, |t[p].calls|)
  }

  /** The writes of the first k calls of packet p. */
  ghost function CallWrites(t: Table, rank: Rank, d: Disk, p: nat, ps: Params, k: nat): seq<Entry>
    requires Ranked(t, rank) && p < |t| && k <= |t[p].calls|
    decreases rank(d, p, ps), k
  {
    if k == 0 then [] else CallWrites(t, rank, d, p, ps, k - 1) + OneCall(t, rank, d, p, ps, k - 1)
  }

  /** The writes of call k of packet p: none unless its condition holds. */
  ghost function OneCall(t: Table, rank: Rank, d: Disk, p: nat, ps: Params, k: nat): seq<Entry>
    requires Ranked(t, rank) && p < |t| && k < |t[p].calls|
    decreases rank(d, p, ps), k
  {
    var c := t[p].calls[k];
    if c.cond(d, ps) then
      assert CallRanked(t, rank, d, p, ps, c);
      Writes(t, rank, d, c.target, c.args(d, ps))
    else []
  }

  method AddSome(log: Log, e: Maybe)
    requires log.Valid() && log.idx >= 0 && log.idx + |OneWrite(e)| <= IO_MAX_ACCESS
    modifies log, log.ents
    ensures log.Valid() && log.idx >= 0 && log.Pending() == old(log.Pending()) + OneWrite(e)
  {
    if e.Some? {
      log.Add(e.entry);
    }
  }

  /** The conditional writes of a packet. */
  method DoFuncs(log: Log, d: Disk, fs: seq<(Disk, Params) -> Maybe>, ps: Params)
    requires log.Valid() && log.idx >= 0
    requires log.idx + |FuncWrites(fs, d, ps, |fs|)| <= IO_MAX_ACCESS
    modifies log, log.ents
    ensures log.Valid() && log.idx >= 0
    ensures log.Pending() == old(log.Pending()) + FuncWrites(fs, d, ps, |fs|)
  {
    ghost var before := log.Pending();
    var i := 0;
    while i < |fs|
      invariant 0 <= i <= |fs| && log.Valid() && log.idx >= 0
      invariant log.Pending() == before + FuncWrites(fs, d, ps, i)
    {
      FuncPrefix(fs, d, ps, i + 1);
      ghost var done, next := FuncWrites(fs, d, ps, i), OneWrite(fs[i](d, ps));
      assert FuncWrites(fs, d, ps, i + 1) == done + next;
      AddSome(log, fs[i](d, ps));
      assert (before + done) + next == before + (done + next);
      i := i + 1;
    }
  }

  method DoCall(log: Log, d: Disk, t: Table, ghost rank: Rank, p: nat, ps: Params, k: nat)
    requires Ranked(t, rank) && p < |t| && k < |t[p].calls|
    requires log.Valid() && log.idx >= 0
    requires log.idx + |OneCall(t, rank, d, p, ps, k)| <= IO_MAX_ACCESS
    modifies log, log.ents
    ensures log.Valid() && log.idx >= 0
    ensures log.Pending() == old(log.Pending()) + OneCall(t, rank, d, p, ps, k)
    decreases rank(d, p, ps), 0
  {
    var c := t[p].calls[k];
    if c.cond(d, ps) {
      assert CallRanked(t, rank, d, p, ps, c);
      DoWpkt(log, d, t, rank, c.target, c.args(d, ps));
    }
  }

  method DoCalls(log: Log, d: Disk, t: Table, ghost rank: Rank, p: nat, ps: Params)
    requires Ranked(t, rank) && p < |t|
    requires log.Valid() && log.idx >= 0
    requires log.idx + |CallWrites(t, rank, d, p, ps, |t[p].calls|)| <= IO_MAX_ACCESS
    modifies log, log.ents
    ensures log.Valid() && log.idx >= 0
    ensures log.Pending() == old(log.Pending()) + CallWrites(t, rank, d, p, ps, |t[p].calls|)
    decreases rank(d, p, ps), 1
  {
    ghost var before := log.Pending();
    var k := 0;
    while k < |t[p].calls|
      invariant 0 <= k <= |t[p].calls| && log.Valid() && log.idx >= 0
      invariant log.Pending() == before + CallWrites(t, rank, d, p, ps, k)
    {
      CallPrefix(t, rank, d, p, ps, k + 1);
      CallStep(t, rank, d, p, ps, k, before);
      DoCall(log, d, t, rank, p, ps, k);
      k := k + 1;
    }
  }

  /** Run a packet.  Nothing but the log changes, so nested and later packets see the same disk. */
  method DoWpkt(log: Log, d: Disk, t: Table, ghost rank: Rank, p: nat, ps: Params)
    requires Ranked(t, rank) && p < |t|
    requires log.Valid() && log.idx >= 0
    requires log.idx + |Writes(t, rank, d, p, ps)| <= IO_MAX_ACCESS
    modifies log, log.ents
    ensures log.Valid() && log.idx >= 0
    ensures log.Pending() == old(log.Pending()) + Writes(t, rank, d, p, ps)
    decreases rank(d, p, ps), 2
  {
    DoFuncs(log, d, t[p].funcs, ps);
    DoCalls(log, d, t, rank, p, ps);
  }

  // ----- packets of a fixed shape -----

  /** A packet that only calls another one logs what the other one logs. */
  lemma SingleCall(t: Table, rank: Rank, d: Disk, p: nat, ps: Params)
    requires Ranked(t, rank) && p < |t| && t[p].funcs == [] && |t[p].calls| == 1
    ensures Writes(t, rank, d, p, ps) == OneCall(t, rank, d, p, ps, 0)
  {
    assert CallWrites(t, rank, d, p, ps, 0) == [];
  }

  lemma TwoCalls(t: Table, rank: Rank, d: Disk, p: nat, ps: Params)
    requires Ranked(t, rank) && p < |t| && t[p].funcs == [] && |t[p].calls| == 2
    ensures Writes(t, rank, d, p, ps) == OneCall(t, rank, d, p, ps, 0) + OneCall(t, rank, d, p, ps, 1)
  {
    assert CallWrites(t, rank, d, p, ps, 0) == [];
    assert CallWrites(t, rank, d, p, ps, 1) == OneCall(t, rank, d, p, ps, 0);
  }

  lemma ThreeCalls(t: Table, rank: Rank, d: Disk, p: nat, ps: Params)
    requires Ranked(t, rank) && p < |t| && t[p].funcs == [] && |t[p].calls| == 3
    ensures Writes(t, rank, d, p, ps) ==
            OneCall(t, rank, d, p, ps, 0) + OneCall(t, rank, d, p, ps, 1) + OneCall(t, rank, d, p, ps, 2)
  {
    assert CallWrites(t, rank, d, p, ps, 0) == [];
    assert CallWrites(t, rank, d, p, ps, 1) == OneCall(t, rank, d, p, ps, 0);
    assert CallWrites(t, rank, d, p, ps, 2) == OneCall(t, rank, d, p, ps, 0) + OneCall(t, rank, d, p, ps, 1);
  }

  /** A packet without calls logs its own writes. */
  lemma OnlyFuncs(t: Table, rank: Rank, d: Disk, p: nat, ps: Params)
    requires Ranked(t, rank) && p < |t| && t[p].calls == []
    ensures Writes(t, rank, d, p, ps) == FuncWrites(t[p].funcs, d, ps, |t[p].funcs|)
  {
    assert CallWrites(t, rank, d, p, ps, 0) == [];
  }

  lemma CallStep(t: Table, rank: Rank, d: Disk, p: nat, ps: Params, k: nat, before: seq<Entry>)
    requires Ranked(t, rank) && p < |t| && k < |t[p].calls|
    ensures (before + CallWrites(t, rank, d, p, ps, k)) + OneCall(t, rank, d, p, ps, k) ==
            before + CallWrites(t, rank, d, p, ps, k + 1)
    ensures |CallWrites(t, rank, d, p, ps, k + 1)| ==
            |CallWrites(t, rank, d, p, ps, k)| + |OneCall(t, rank, d, p, ps, k)|
  {
  }

  /** A packet with one call logs its own writes and then those of the call. */
  lemma FuncsAndCall(t: Table, rank: Rank, d: Disk, p: nat, ps: Params)
    requires Ranked(t, rank) && p < |t| && |t[p].calls| == 1
    ensures Writes(t, rank, d, p, ps) == FuncWrites(t[p].funcs, d, ps, |t[p].funcs|) + OneCall(t, rank, d, p, ps, 0)
  {
    assert CallWrites(t, rank, d, p, ps, 0) == [];
    assert CallWrites(t, rank, d, p, ps, 1) == OneCall(t, rank, d, p, ps, 0);
  }

  lemma {:induction false} FuncPrefix(fs: seq<(Disk, Params) -> Maybe>, d: Disk, ps: Params, n: nat)
    requires n <= |fs|
    ensures |FuncWrites(fs, d, ps, n)| <= |FuncWrites(fs, d, ps, |fs|)|
    decreases |fs| - n
  {
    if n < |fs| { FuncPrefix(fs, d, ps, n + 1); }
  }

  lemma {:induction false} CallPrefix(t: Table, rank: Rank, d: Disk, p: nat, ps: Params, k: nat)
    requires Ranked(t, rank) && p < |t| && k <= |t[p].calls|
    ensures |CallWrites(t, rank, d, p, ps, k)| <= |CallWrites(t, rank, d, p, ps, |t[p].calls|)|
    decreases |t[p].calls| - k
  {
    if k < |t[p].calls| {
      CallPrefix(t, rank, d, p, ps, k + 1);
      assert |CallWrites(t, rank, d, p, ps, k)| <= |CallWrites(t, rank, d, p, ps, k + 1)|;
    }
  }
}
