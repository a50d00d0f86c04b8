/** The relocation transaction: allocate the chosen block and commit, copy the data,
    then compute "replace" and "relink" from the same disk and commit both. */
module Relocate {
  import opened Bits
  import opened Flat
  import opened Pread
  import opened WriteLog
  import opened Packets

  const COPY_BUF_SZ: nat := 4096

  /** A relocation rule of a type instance: packets and the thunks that feed them. */
  datatype Reloc = Reloc(
    table: Table,
    bytes: nat,                                   // size of the relocated type
    selByte: (Disk, nat) -> nat,                  // byte offset of selection j
    choiceByte: (Disk, nat) -> nat,               // byte offset of choice i
    alloc: nat, allocArgs: (Disk, nat) -> Params,
    replace: nat, replaceArgs: (Disk, nat) -> Params,
    relink: nat, relinkArgs: (Disk, nat, nat) -> Params)

  ghost predicate Wellformed(r: Reloc, rank: Rank) {
    && Ranked(r.table, rank)
    && r.alloc < |r.table| && r.replace < |r.table| && r.relink < |r.table|
  }

  function CopyBytes(d: Disk, dst: nat, src: nat, n: nat): (r: Disk)
    requires src + n <= |d| && dst + n <= |d|
    ensures |r| == |d|
  {
    PutBytes(d, dst, d[src..src + n])
  }

  predicate Apart(a: nat, b: nat, n: nat) {
    a + n <= b || b + n <= a
  }

  /** Copy a block through a 4096-byte buffer. */
  method PhysCopy(io: Io, dst: nat, src: nat, n: nat)
    requires io.Valid() && src + n <= |io.file| && dst + n <= |io.file| && Apart(dst, src, n)
    modifies io, io.ents
    ensures io.Valid()
    ensures io.file == CopyBytes(old(io.file), dst, src, n)
  {
    ghost var d := io.file;
    var done := 0;
    while done < n
      invariant 0 <= done <= n && io.Valid()
      invariant io.file == CopyBytes(d, dst, src, done)
    {
      var todo := n - done;
      if todo > COPY_BUF_SZ {
        todo := COPY_BUF_SZ;
      }
      var buf := io.file[done + src..done + src + todo];
      CopyStep(d, dst, src, n, done, todo);
      io.WriteBytes(done + dst, buf, 0);
      done := done + todo;
    }
  }

  lemma CopyStep(d: Disk, dst: nat, src: nat, n: nat, done: nat, todo: nat)
    requires src + n <= |d| && dst + n <= |d| && Apart(dst, src, n) && done + todo <= n
    ensures var f := CopyBytes(d, dst, src, done);
            PutBytes(f, done + dst, f[done + src..done + src + todo]) == CopyBytes(d, dst, src, done + todo)
  {
    var f := CopyBytes(d, dst, src, done);
    assert f[done + src..done + src + todo] == d[done + src..done + src + todo];
  }

  // ----- the transaction as a function of the disk -----

  ghost function AllocLog(r: Reloc, rank: Rank, d: Disk, choice: nat): seq<Entry>
    requires Wellformed(r, rank)
  {
    Writes(r.table, rank, d, r.alloc, r.allocArgs(d, choice))
  }

  ghost function ReplaceLog(r: Reloc, rank: Rank, d: Disk, sel: nat): seq<Entry>
    requires Wellformed(r, rank)
  {
    Writes(r.table, rank, d, r.replace, r.replaceArgs(d, sel))
  }

  ghost function RelinkLog(r: Reloc, rank: Rank, d: Disk, sel: nat, choice: nat): seq<Entry>
    requires Wellformed(r, rank)
  {
    Writes(r.table, rank, d, r.relink, r.relinkArgs(d, sel, choice))
  }

  /** The log takes the writes and the backend accepts them. */
  ghost predicate Loggable(es: seq<Entry>, d: Disk) {
    |es| <= IO_MAX_ACCESS && Writable(es, d)
  }

  /** What the transaction asserts on its way. */
  ghost predicate CanRelocate(r: Reloc, rank: Rank, d: Disk, sel: nat, choice: nat) {
    && Wellformed(r, rank)
    && Loggable(AllocLog(r, rank, d, choice), d)
    && r.selByte(d, sel) + r.bytes <= |d| && r.choiceByte(d, choice) + r.bytes <= |d|
    && Apart(r.choiceByte(d, choice), r.selByte(d, sel), r.bytes)
    && var d2 := Staged(r, rank, d, sel, choice);
       && Loggable(ReplaceLog(r, rank, d2, sel), d2)
       && Loggable(RelinkLog(r, rank, d2, sel, choice), d2)
  }

  /** The disk after the allocation is committed and the data is copied. */
  ghost function Staged(r: Reloc, rank: Rank, d: Disk, sel: nat, choice: nat): (d2: Disk)
    requires Wellformed(r, rank)
    requires AllSupported(AllocLog(r, rank, d, choice), |d|)
    requires r.selByte(d, sel) + r.bytes <= |d| && r.choiceByte(d, choice) + r.bytes <= |d|
    ensures |d2| == |d|
  {
    CopyBytes(Apply(d, AllocLog(r, rank, d, choice)), r.choiceByte(d, choice), r.selByte(d, sel), r.bytes)
  }

  /** The disk after the transaction: relink, then replace, both computed from the staged disk. */
  ghost function Relocated(r: Reloc, rank: Rank, d: Disk, sel: nat, choice: nat): (d': Disk)
    requires CanRelocate(r, rank, d, sel, choice)
    ensures |d'| == |d|
  {
    var d2 := Staged(r, rank, d, sel, choice);
    Apply(Apply(d2, RelinkLog(r, rank, d2, sel, choice)), ReplaceLog(r, rank, d2, sel))
  }

  /** Run a packet in a transaction of its own. */
  method WpktCommit(io: Io, log: Log, t: Table, ghost rank: Rank, p: nat, ps: Params)
    requires io.Valid() && log.Valid() && log.idx == -1
    requires Ranked(t, rank) && p < |t|
    requires Loggable(Writes(t, rank, io.file, p, ps), io.file)
    modifies io, io.ents, log, log.ents
    ensures io.Valid() && log.Valid() && log.idx == -1
    ensures AllSupported(Writes(t, rank, old(io.file), p, ps), |old(io.file)|)
    ensures io.file == Apply(old(io.file), Writes(t, rank, old(io.file), p, ps))
  {
    log.Start();
    DoWpkt(log, io.file, t, rank, p, ps);
    assert log.Pending() == Writes(t, rank, io.file, p, ps);
    log.Commit(io);
    log.Stop();
  }

  /** The replace packet, run into a log of its own. */
  method StealReplace(io: Io, log: Log, r: Reloc, ghost rank: Rank, sel: nat) returns (stolen: Log)
    requires log.Valid() && log.idx == -1 && Wellformed(r, rank) && Loggable(ReplaceLog(r, rank, io.file, sel), io.file)
    modifies log, log.ents
    ensures log.Valid() && log.idx == -1
    ensures fresh(stolen) && fresh(stolen.ents) && stolen.Valid() && stolen.idx >= 0
    ensures stolen.Pending() == ReplaceLog(r, rank, io.file, sel)
  {
    log.Start();
    DoWpkt(log, io.file, r.table, rank, r.replace, r.replaceArgs(io.file, sel));
    stolen := log.Steal();
  }

  /** wpkt_relocate. The caller has resolved the selected instance on the same disk. */
  method WpktRelocate(io: Io, log: Log, r: Reloc, ghost rank: Rank, selByte: nat, sel: nat, choice: nat)
    requires io.Valid() && log.Valid() && log.idx == -1
    requires selByte == r.selByte(io.file, sel)
    requires CanRelocate(r, rank, io.file, sel, choice)
    modifies io, io.ents, log, log.ents
    ensures io.Valid() && log.Valid() && log.idx == -1
    ensures CanRelocate(r, rank, old(io.file), sel, choice)
    ensures io.file == Relocated(r, rank, old(io.file), sel, choice)
  {
    var choiceByte := r.choiceByte(io.file, choice);
    WpktCommit(io, log, r.table, rank, r.alloc, r.allocArgs(io.file, choice));
    PhysCopy(io, choiceByte, selByte, r.bytes);
    var replaceLog := StealReplace(io, log, r, rank, sel);
    WpktCommit(io, log, r.table, rank, r.relink, r.relinkArgs(io.file, sel, choice));
    replaceLog.Commit(io);
  }

  // ----- following a field through a transaction -----

  /** A transaction by its logs: allocation, copy, relink, replace. */
  ghost function Through(d: Disk, alloc: seq<Entry>, dst: nat, src: nat, n: nat, link: seq<Entry>,
                         repl: seq<Entry>): (r: Disk)
    requires AllSupported(alloc, |d|) && AllSupported(link, |d|) && AllSupported(repl, |d|)
    requires dst + n <= |d| && src + n <= |d|
    ensures |r| == |d|
  {
    Apply(Apply(CopyBytes(Apply(d, alloc), dst, src, n), link), repl)
  }

  ghost predicate AllMiss(es: seq<Entry>, off: nat, w: nat) {
    forall k :: 0 <= k < |es| ==> Misses(es[k], off, w)
  }

  lemma CopyField(d: Disk, dst: nat, src: nat, n: nat, off: nat, w: nat)
    requires dst + n <= |d| && src + n <= |d| && (off + w <= 8 * dst || 8 * (dst + n) <= off)
    ensures Slice(CopyBytes(d, dst, src, n), off, w) == Slice(d, off, w)
  {
    var d' := CopyBytes(d, dst, src, n);
    forall i | off <= i < off + w ensures Bit(d', i) == Bit(d, i) {
      PutBytesBit(d, dst, d[src..src + n], i);
    }
    SliceFrame(d', off, d, off, w);
  }

  /** A field that nothing writes. */
  lemma KeptThrough(d: Disk, alloc: seq<Entry>, dst: nat, src: nat, n: nat, link: seq<Entry>, repl: seq<Entry>,
                    off: nat, w: nat)
    requires AllSupported(alloc, |d|) && AllSupported(link, |d|) && AllSupported(repl, |d|)
    requires dst + n <= |d| && src + n <= |d|
    requires AllMiss(alloc, off, w) && AllMiss(link, off, w) && AllMiss(repl, off, w)
    requires off + w <= 8 * dst || 8 * (dst + n) <= off
    ensures Slice(Through(d, alloc, dst, src, n, link, repl), off, w) == Slice(d, off, w)
  {
    ApplyFrame(d, alloc, off, w);
    LaterKept(Apply(d, alloc), dst, src, n, link, repl, off, w);
  }

  /** A field that is not written after the allocation. */
  lemma LaterKept(d1: Disk, dst: nat, src: nat, n: nat, link: seq<Entry>, repl: seq<Entry>, off: nat, w: nat)
    requires AllSupported(link, |d1|) && AllSupported(repl, |d1|)
    requires dst + n <= |d1| && src + n <= |d1|
    requires AllMiss(link, off, w) && AllMiss(repl, off, w)
    requires off + w <= 8 * dst || 8 * (dst + n) <= off
    ensures Slice(Apply(Apply(CopyBytes(d1, dst, src, n), link), repl), off, w) == Slice(d1, off, w)
  {
    CopyField(d1, dst, src, n, off, w);
    var d2 := CopyBytes(d1, dst, src, n);
    ApplyFrame(d2, link, off, w);
    ApplyFrame(Apply(d2, link), repl, off, w);
  }

  /** The copied bytes, when no log touches source or target. */
  lemma CopiedThrough(d: Disk, alloc: seq<Entry>, dst: nat, src: nat, n: nat, link: seq<Entry>, repl: seq<Entry>)
    requires AllSupported(alloc, |d|) && AllSupported(link, |d|) && AllSupported(repl, |d|)
    requires dst + n <= |d| && src + n <= |d|
    requires AllMiss(alloc, 8 * src, 8 * n) && AllMiss(link, 8 * dst, 8 * n) && AllMiss(repl, 8 * dst, 8 * n)
    ensures Through(d, alloc, dst, src, n, link, repl)[dst..dst + n] == d[src..src + n]
  {
    var d1 := Apply(d, alloc);
    var d2 := CopyBytes(d1, dst, src, n);
    assert d2[dst..dst + n] == d1[src..src + n];
    BytesMissed(d, alloc, src, n);
    BytesMissed(d2, link, dst, n);
    BytesMissed(Apply(d2, link), repl, dst, n);
  }

  lemma BytesMissed(d: Disk, es: seq<Entry>, a: nat, n: nat)
    requires AllSupported(es, |d|) && a + n <= |d| && AllMiss(es, 8 * a, 8 * n)
    ensures Apply(d, es)[a..a + n] == d[a..a + n]
  {
    var d' := Apply(d, es);
    forall i | 8 * a <= i < 8 * (a + n) ensures Bit(d', i) == Bit(d, i - 8 * a + 8 * a) {
      forall k | 0 <= k < |es| ensures !Hits(es[k], i) {
        assert Misses(es[k], 8 * a, 8 * n);
      }
      ApplyMiss(d, es, i);
    }
    SameBytes(d', a, d, a, n);
  }

  /** Bytes that nothing writes. */
  lemma BytesThrough(d: Disk, alloc: seq<Entry>, dst: nat, src: nat, n: nat, link: seq<Entry>,
                     repl: seq<Entry>, a: nat, m: nat)
    requires AllSupported(alloc, |d|) && AllSupported(link, |d|) && AllSupported(repl, |d|)
    requires dst + n <= |d| && src + n <= |d| && a + m <= |d|
    requires AllMiss(alloc, 8 * a, 8 * m) && AllMiss(link, 8 * a, 8 * m) && AllMiss(repl, 8 * a, 8 * m)
    requires a + m <= dst || dst + n <= a
    ensures Through(d, alloc, dst, src, n, link, repl)[a..a + m] == d[a..a + m]
  {
    var d1 := Apply(d, alloc);
    var d2 := CopyBytes(d1, dst, src, n);
    assert d2[a..a + m] == d1[a..a + m];
    BytesMissed(d, alloc, a, m);
    BytesMissed(d2, link, a, m);
    BytesMissed(Apply(d2, link), repl, a, m);
  }

  /** The first half of the protocol succeeds and leaves disk d2. */
  ghost predicate Stages(r: Reloc, rank: Rank, d: Disk, sel: nat, choice: nat, d2: Disk) {
    && Wellformed(r, rank)
    && Loggable(AllocLog(r, rank, d, choice), d)
    && r.selByte(d, sel) + r.bytes <= |d| && r.choiceByte(d, choice) + r.bytes <= |d|
    && Apart(r.choiceByte(d, choice), r.selByte(d, sel), r.bytes)
    && d2 == Staged(r, rank, d, sel, choice)
  }

  /** On disk d2 the second half computes these logs, and they fit. */
  ghost predicate Logs(r: Reloc, rank: Rank, d2: Disk, sel: nat, choice: nat, link: seq<Entry>, repl: seq<Entry>) {
    && Wellformed(r, rank)
    && ReplaceLog(r, rank, d2, sel) == repl && RelinkLog(r, rank, d2, sel, choice) == link
    && Loggable(repl, d2) && Loggable(link, d2)
  }

  /** The protocol by its halves. */
  lemma RelocatedBy(r: Reloc, rank: Rank, d: Disk, sel: nat, choice: nat, d2: Disk, link: seq<Entry>, repl: seq<Entry>)
    requires Stages(r, rank, d, sel, choice, d2) && Logs(r, rank, d2, sel, choice, link, repl)
    ensures CanRelocate(r, rank, d, sel, choice)
    ensures Relocated(r, rank, d, sel, choice) == Apply(Apply(d2, link), repl)
  {
  }
}
