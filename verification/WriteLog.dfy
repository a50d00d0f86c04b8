/** The write log: writes are collected while it is open and reach the disk at commit. */
module WriteLog {
  import opened Arith
  import opened Bits
  import opened Flat
  import opened Pread

  const IO_MAX_ACCESS: nat := 64

  /** Writes that the backend accepts one after the other: a single-bit write reads its
      byte through the cache first. */
  predicate Writable(es: seq<Entry>, file: Disk) {
    && AllSupported(es, |file|)
    && forall k :: 0 <= k < |es| && es[k].bits == 1 ==> LinesInFile(file, es[k].addr / 8 * 8, 8)
  }

  /** On a file of whole cache lines every supported write is accepted. */
  lemma WholeLines(es: seq<Entry>, file: Disk)
    requires AllSupported(es, |file|) && |file| % CACHE_BYTES == 0
    ensures Writable(es, file)
  {
    forall k | 0 <= k < |es| && es[k].bits == 1 ensures LinesInFile(file, es[k].addr / 8 * 8, 8) {
      LineOfByte(|file| / 32, es[k].addr / 8);
    }
  }

  /** The line of byte k, in a file of n lines. */
  lemma LineOfByte(n: nat, k: nat)
    requires k < 32 * n
    ensures (k * 8 + 8 - 1) / CACHE_BITS == k / 32 < n
  {
    Quotient(256, 8 * k + 7, k / 32, 8 * (k % 32) + 7);
    DivBelow(k, 32, n);
  }

  class Log {
    const ents: array<Entry>
    var idx: int  // -1 when stopped

    ghost predicate Valid()
      reads this
    {
      ents.Length == IO_MAX_ACCESS && -1 <= idx <= IO_MAX_ACCESS
    }

    /** The pending writes, oldest first. */
    ghost function Pending(): seq<Entry>
      requires Valid()
      reads this, ents
    {
      if idx < 0 then [] else ents[..idx]
    }

    constructor ()
      ensures Valid() && idx == -1 && fresh(ents)
    {
      ents := new Entry[IO_MAX_ACCESS](_ => Entry(0, 0, 0));
      idx := -1;
    }

    method Init()
      requires Valid()
      modifies this
      ensures Valid() && idx == -1
    {
      idx := -1;
    }

    method Start()
      requires Valid() && idx == -1
      modifies this
      ensures Valid() && idx == 0 && Pending() == []
    {
      idx := 0;
    }

    method Add(e: Entry)
      requires Valid() && 0 <= idx < IO_MAX_ACCESS
      modifies this, ents
      ensures Valid() && idx == old(idx) + 1
      ensures Pending() == old(Pending()) + [e]
    {
      ents[idx] := e;
      idx := idx + 1;
    }

    /** Commit applies the pending writes in order. */
    method Commit(io: Io)
      requires Valid() && idx >= 0 && io.Valid()
      requires Writable(Pending(), io.file)
      modifies this, io, io.ents
      ensures Valid() && idx == 0 && io.Valid()
      ensures AllSupported(old(Pending()), |old(io.file)|)
      ensures io.file == Apply(old(io.file), old(Pending()))
    {
      ghost var es, file := Pending(), io.file;
      var i := 0;
      while i < idx
        invariant 0 <= i <= idx == |es| && Valid() && io.Valid()
        invariant ents[..idx] == es && Writable(es, file)
        invariant |io.file| == |file|
        invariant io.file == ApplyFirst(file, es, i)
      {
        io.Write(ents[i]);
        i := i + 1;
      }
      idx := 0;
    }

    method Stop()
      requires Valid() && idx == 0
      modifies this
      ensures Valid() && idx == -1
    {
      idx := -1;
    }

    /** Move the pending writes to a log of their own and stop this one. */
    method Steal() returns (dst: Log)
      requires Valid()
      modifies this
      ensures Valid() && idx == -1
      ensures fresh(dst) && fresh(dst.ents) && dst.Valid()
      ensures dst.idx == old(idx) && dst.Pending() == old(Pending())
    {
      dst := new Log();
      forall k | 0 <= k < IO_MAX_ACCESS {
        dst.ents[k] := ents[k];
      }
      dst.idx := idx;
      assert idx >= 0 ==> dst.ents[..idx] == ents[..idx];
      idx := -1;
    }
  }
}
