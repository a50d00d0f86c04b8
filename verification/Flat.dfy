/** The flat backend: a disk is a byte sequence, and a logged write is a bit
    address, a value and a width.  This is the behaviour of the memory-mapped
    backend and the specification of the cached one. */
module Flat {
  import opened Bits

  /** One pending write of the write log. */
  datatype Entry = Entry(addr: nat, val: nat, bits: nat)

  /** The writes that the backend accepts: one bit anywhere, or whole bytes at a byte
      boundary, at most a 64-bit word, inside the file. */
  predicate Supported(e: Entry, len: nat) {
    && (e.bits == 1 || (e.addr % 8 == 0 && e.bits % 8 == 0 && e.bits <= 64))
    && e.addr + e.bits <= 8 * len
  }

  predicate AllSupported(es: seq<Entry>, len: nat) {
    forall k :: 0 <= k < |es| ==> Supported(es[k], len)
  }

  predicate Hits(e: Entry, i: int) {
    e.addr <= i < e.addr + e.bits
  }

  predicate Disjoint(e: Entry, f: Entry) {
    e.addr + e.bits <= f.addr || f.addr + f.bits <= e.addr
  }

  predicate PairwiseDisjoint(es: seq<Entry>) {
    forall j, k :: 0 <= j < k < |es| ==> Disjoint(es[j], es[k])
  }

  /** The entry leaves the n bits at off alone. */
  predicate Misses(e: Entry, off: nat, n: nat) {
    e.addr + e.bits <= off || off + n <= e.addr
  }

  function SetBit(b: Byte, k: nat, v: nat): (r: Byte)
    requires k < 8
  {
    SetBitBound(b, k, v);
    WithBit(b, k, v)
  }

  /** b with bit k replaced by v % 2. */
  function WithBit(b: nat, k: nat, v: nat): nat {
    if k == 0 then b / 2 * 2 + v % 2 else 2 * WithBit(b / 2, k - 1, v) + b % 2
  }

  lemma {:induction false} WithBitBits(b: nat, k: nat, v: nat, j: nat)
    ensures BitOf(WithBit(b, k, v), j) == if j == k then v % 2 else BitOf(b, j)
  {
    if j > 0 {
      if k == 0 {
        assert WithBit(b, k, v) / 2 == b / 2;
      } else {
        assert WithBit(b, k, v) / 2 == WithBit(b / 2, k - 1, v);
        WithBitBits(b / 2, k - 1, v, j - 1);
      }
    }
  }

  lemma {:induction false} WithBitBound(b: nat, k: nat, v: nat, n: nat)
    requires b < Pow2(n) && k < n
    ensures WithBit(b, k, v) < Pow2(n)
  {
    assert Pow2(n) == 2 * Pow2(n - 1);
    if k > 0 {
      assert b / 2 < Pow2(n - 1);
      WithBitBound(b / 2, k - 1, v, n - 1);
    } else {
      assert b / 2 <= Pow2(n - 1) - 1;
    }
  }

  lemma SetBitBound(b: Byte, k: nat, v: nat)
    requires k < 8
    ensures WithBit(b, k, v) < 256
  {
    Pow2Values();
    WithBitBound(b, k, v, 8);
  }

  /** Byte j of a value, least significant byte first. */
  function ByteOf(v: nat, j: nat): (b: Byte) {
    LowBound(Shr(v, 8 * j), 8);
    Pow2Values();
    Low(Shr(v, 8 * j), 8)
  }

  lemma ByteOfBits(v: nat, j: nat, k: nat)
    requires k < 8
    ensures BitOf(ByteOf(v, j), k) == BitOf(v, 8 * j + k)
  {
    BitOfLow(Shr(v, 8 * j), 8, k);
    BitOfShr(v, 8 * j, k);
  }

  function PutBytes(d: Disk, off: nat, buf: seq<Byte>): (r: Disk)
    requires off + |buf| <= |d|
    ensures |r| == |d|
  {
    d[..off] + buf + d[off + |buf|..]
  }

  function LittleEndian(v: nat, n: nat): (buf: seq<Byte>)
    ensures |buf| == n
  {
    seq(n, j requires 0 <= j => ByteOf(v, j))
  }

  /** The bytes that the memory-mapped backend stores for one write. */
  function Stored(d: Disk, e: Entry): (r: Disk)
    requires Supported(e, |d|)
    ensures |r| == |d|
  {
    if e.bits == 1 then d[e.addr / 8 := SetBit(d[e.addr / 8], e.addr % 8, e.val)]
    else PutBytes(d, e.addr / 8, LittleEndian(e.val, e.bits / 8))
  }

  /** Bit i after a write. */
  function BitAfter(d: Disk, e: Entry, i: nat): nat {
    if Hits(e, i) then BitOf(e.val, i - e.addr) else Bit(d, i)
  }

  /** The first n bits of r are those of d with the bits of the entry replaced by its value. */
  ghost predicate Wrote(d: Disk, e: Entry, r: Disk, n: nat) {
    n == 0 || (Bit(r, n - 1) == BitAfter(d, e, n - 1) && Wrote(d, e, r, n - 1))
  }

  /** The effect of one write on the disk, by its bits. */
  ghost function Put(d: Disk, e: Entry): (r: Disk)
    requires Supported(e, |d|)
    ensures |r| == |d|
  {
    StoredWrote(d, e, 8 * |d|);
    var r :| |r| == |d| && Wrote(d, e, r, 8 * |d|);
    r
  }

  /** The effect of a committed log: its writes in order. */
  ghost function Apply(d: Disk, es: seq<Entry>): (r: Disk)
    requires AllSupported(es, |d|)
    ensures |r| == |d|
  {
    ApplyFirst(d, es, |es|)
  }

  /** The effect of the first n writes. */
  ghost function ApplyFirst(d: Disk, es: seq<Entry>, n: nat): (r: Disk)
    requires AllSupported(es, |d|) && n <= |es|
    ensures |r| == |d|
  {
    if n == 0 then d else Put(ApplyFirst(d, es, n - 1), es[n - 1])
  }

  // ----- what a write does, bit by bit -----

  lemma PutBytesBit(d: Disk, off: nat, buf: seq<Byte>, i: nat)
    requires off + |buf| <= |d|
    ensures Bit(PutBytes(d, off, buf), i) ==
            if off <= i / 8 < off + |buf| then BitOf(buf[i / 8 - off], i % 8) else Bit(d, i)
  {
  }

  lemma StoredBit(d: Disk, e: Entry, i: nat)
    requires Supported(e, |d|)
    ensures Bit(Stored(d, e), i) == if Hits(e, i) then BitOf(e.val, i - e.addr) else Bit(d, i)
  {
    if e.bits == 1 {
      if i / 8 == e.addr / 8 {
        WithBitBits(d[i / 8], e.addr % 8, e.val, i % 8);
      }
    } else {
      var off := e.addr / 8;
      var buf := LittleEndian(e.val, e.bits / 8);
      PutBytesBit(d, off, buf, i);
      if off <= i / 8 < off + |buf| {
        assert buf[i / 8 - off] == ByteOf(e.val, i / 8 - off);
        ByteOfBits(e.val, i / 8 - off, i % 8);
        assert 8 * (i / 8 - off) + i % 8 == i - e.addr;
      }
    }
  }

  lemma {:induction false} StoredWrote(d: Disk, e: Entry, n: nat)
    requires Supported(e, |d|)
    ensures Wrote(d, e, Stored(d, e), n)
  {
    if n > 0 {
      StoredWrote(d, e, n - 1);
      StoredBit(d, e, n - 1);
    }
  }

  lemma {:induction false} WroteBit(d: Disk, e: Entry, r: Disk, n: nat, i: nat)
    requires Wrote(d, e, r, n) && i < n
    ensures Bit(r, i) == BitAfter(d, e, i)
  {
    if i < n - 1 { WroteBit(d, e, r, n - 1, i); }
  }

  /** The stored bytes are the only disk with the right bits. */
  lemma StoredIsPut(d: Disk, e: Entry)
    requires Supported(e, |d|)
    ensures Stored(d, e) == Put(d, e)
  {
    var r := Stored(d, e);
    forall i: nat ensures Bit(r, i) == Bit(Put(d, e), i) {
      StoredBit(d, e, i);
      BitPut(d, e, i);
    }
    SameDisk(r, Put(d, e));
  }

  lemma BitPut(d: Disk, e: Entry, i: nat)
    requires Supported(e, |d|)
    ensures Bit(Put(d, e), i) == BitAfter(d, e, i)
  {
    StoredWrote(d, e, 8 * |d|);
    if i < 8 * |d| { WroteBit(d, e, Put(d, e), 8 * |d|, i); }
  }

  lemma {:induction false} FirstMiss(d: Disk, es: seq<Entry>, n: nat, i: nat)
    requires AllSupported(es, |d|) && n <= |es|
    requires forall k :: 0 <= k < n ==> !Hits(es[k], i)
    ensures Bit(ApplyFirst(d, es, n), i) == Bit(d, i)
  {
    if n > 0 {
      FirstMiss(d, es, n - 1, i);
      BitPut(ApplyFirst(d, es, n - 1), es[n - 1], i);
    }
  }

  lemma ApplyMiss(d: Disk, es: seq<Entry>, i: nat)
    requires AllSupported(es, |d|)
    requires forall k :: 0 <= k < |es| ==> !Hits(es[k], i)
    ensures Bit(Apply(d, es), i) == Bit(d, i)
  {
    FirstMiss(d, es, |es|, i);
  }

  lemma {:induction false} FirstHit(d: Disk, es: seq<Entry>, n: nat, k: nat, i: nat)
    requires AllSupported(es, |d|) && k < n <= |es|
    requires Hits(es[k], i)
    requires forall m :: k < m < n ==> !Hits(es[m], i)
    ensures Bit(ApplyFirst(d, es, n), i) == BitOf(es[k].val, i - es[k].addr)
  {
    BitPut(ApplyFirst(d, es, n - 1), es[n - 1], i);
    if k < n - 1 {
      FirstHit(d, es, n - 1, k, i);
    }
  }

  /** The last write to a bit decides its value. */
  lemma ApplyHit(d: Disk, es: seq<Entry>, k: nat, i: nat)
    requires AllSupported(es, |d|)
    requires k < |es| && Hits(es[k], i)
    requires forall m :: k < m < |es| ==> !Hits(es[m], i)
    ensures Bit(Apply(d, es), i) == BitOf(es[k].val, i - es[k].addr)
  {
    FirstHit(d, es, |es|, k, i);
  }

  /** Reading a field that no entry touches gives the old value. */
  lemma ApplyFrame(d: Disk, es: seq<Entry>, off: nat, n: nat)
    requires AllSupported(es, |d|)
    requires forall k :: 0 <= k < |es| ==> Misses(es[k], off, n)
    ensures Slice(Apply(d, es), off, n) == Slice(d, off, n)
  {
    forall i | off <= i < off + n ensures Bit(Apply(d, es), i) == Bit(d, i) {
      ApplyMiss(d, es, i);
    }
    SliceFrame(Apply(d, es), off, d, off, n);
  }

  lemma ApplyFieldBit(d: Disk, es: seq<Entry>, k: nat, i: int)
    requires AllSupported(es, |d|)
    requires k < |es|
    requires forall m :: k < m < |es| ==> Disjoint(es[k], es[m])
    requires Hits(es[k], i)
    ensures Bit(Apply(d, es), i) == BitOf(es[k].val, i - es[k].addr)
  {
    forall m | k < m < |es| ensures !Hits(es[m], i) {
      assert Disjoint(es[k], es[m]);
    }
    ApplyHit(d, es, k, i);
  }

  lemma {:induction false} ApplyFieldFrom(d: Disk, es: seq<Entry>, k: nat, j: nat)
    requires AllSupported(es, |d|)
    requires k < |es| && j <= es[k].bits
    requires forall m :: k < m < |es| ==> Disjoint(es[k], es[m])
    ensures Slice(Apply(d, es), es[k].addr + j, es[k].bits - j) == Low(Shr(es[k].val, j), es[k].bits - j)
    decreases es[k].bits - j
  {
    if j < es[k].bits {
      ApplyFieldFrom(d, es, k, j + 1);
      ApplyFieldBit(d, es, k, es[k].addr + j);
      BitOfShr(es[k].val, j, 0);
      ShrStep(es[k].val, j);
    }
  }

  /** Reading back a field written by entry k, when no later entry overlaps it. */
  lemma ApplyField(d: Disk, es: seq<Entry>, k: nat)
    requires AllSupported(es, |d|)
    requires k < |es|
    requires forall m :: k < m < |es| ==> Disjoint(es[k], es[m])
    ensures Slice(Apply(d, es), es[k].addr, es[k].bits) == Low(es[k].val, es[k].bits)
  {
    ApplyFieldFrom(d, es, k, 0);
  }

  lemma {:induction false} FirstConcat(d: Disk, a: seq<Entry>, b: seq<Entry>, n: nat)
    requires AllSupported(a, |d|) && AllSupported(b, |d|) && AllSupported(a + b, |d|)
    requires n <= |a| + |b|
    ensures ApplyFirst(d, a + b, n) ==
            if n <= |a| then ApplyFirst(d, a, n) else ApplyFirst(Apply(d, a), b, n - |a|)
  {
    if n > 0 { FirstConcat(d, a, b, n - 1); }
  }

  lemma ApplyConcat(d: Disk, a: seq<Entry>, b: seq<Entry>)
    requires AllSupported(a, |d|) && AllSupported(b, |d|)
    ensures AllSupported(a + b, |d|)
    ensures Apply(d, a + b) == Apply(Apply(d, a), b)
  {
    FirstConcat(d, a, b, |a| + |b|);
  }

  /** Committing pairwise disjoint writes in any order gives the same disk. */
  lemma CommitOrder(d: Disk, es: seq<Entry>, fs: seq<Entry>)
    requires AllSupported(es, |d|) && AllSupported(fs, |d|)
    requires PairwiseDisjoint(es) && PairwiseDisjoint(fs)
    requires multiset(es) == multiset(fs)
    ensures Apply(d, es) == Apply(d, fs)
  {
    forall i: nat ensures Bit(Apply(d, es), i) == Bit(Apply(d, fs), i) {
      if k :| 0 <= k < |es| && Hits(es[k], i) {
        ApplyHit(d, es, k, i);
        assert es[k] in multiset(fs);
        var m :| 0 <= m < |fs| && fs[m] == es[k];
        ApplyHit(d, fs, m, i);
      } else {
        forall m | 0 <= m < |fs| ensures !Hits(fs[m], i) {
          assert fs[m] in multiset(es);
        }
        ApplyMiss(d, es, i);
        ApplyMiss(d, fs, i);
      }
    }
    SameDisk(Apply(d, es), Apply(d, fs));
  }

  lemma LastWins(d: Disk, e: Entry, f: Entry)
    requires Supported(e, |d|) && Supported(f, |d|) && f.bits == 1
    ensures Bit(Apply(d, [e, f]), f.addr) == f.val % 2
  {
    var es := [e, f];
    ApplyHit(d, es, 1, f.addr);
  }

  /** Overlapping writes do depend on the order, so disjointness is needed. */
  lemma CommitOrderNeedsDisjoint(d: Disk, e: Entry, f: Entry)
    requires Supported(e, |d|) && Supported(f, |d|)
    requires e.addr == f.addr && e.bits == f.bits == 1 && e.val % 2 != f.val % 2
    ensures Apply(d, [e, f]) != Apply(d, [f, e])
  {
    LastWins(d, e, f);
    LastWins(d, f, e);
  }
}
