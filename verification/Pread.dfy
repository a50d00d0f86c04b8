/** The file backend: a direct-mapped cache of 32-byte lines in front of the file,
    write-through with invalidation.  Every operation is proved to act on `file`
    as the flat backend does. */
module Pread {
  import opened Arith
  import opened Bits
  import opened Flat

  const CACHE_ENTS: nat := 512
  const CACHE_BYTES: nat := 32
  const CACHE_BITS: nat := 256
  const NO_LINE: nat := 0xffff_ffff_ffff_ffff
  const MAX_FILE: nat := 0x8000_0000_0000_0000

  /** Cache line n of the file. */
  function Line(file: Disk, n: nat): (l: seq<Byte>)
    requires 32 * n + 32 <= |file|
    ensures |l| == 32
  {
    file[32 * n..32 * n + 32]
  }

  /** Every cache line that holds one of the n bits at off lies inside the file:
      pread64 of such a line does not come up short. */
  predicate LinesInFile(file: Disk, off: nat, n: nat) {
    n > 0 && 32 * ((off + n - 1) / CACHE_BITS) + 32 <= |file|
  }

  predicate CrossesLine(off: nat, n: nat) {
    n > 0 && off / CACHE_BITS != (off + n - 1) / CACHE_BITS
  }

  /** The value that a byte-aligned cached read returns: a read that crosses a line
      boundary assembles whole bytes only, and loses a trailing partial byte. */
  function AlignedRead(file: Disk, off: nat, n: nat): nat {
    Slice(file, off, if CrossesLine(off, n) then n / 8 * 8 else n)
  }

  /** Little-endian value of a byte sequence. */
  function LoadWord(buf: seq<Byte>): nat {
    if buf == [] then 0 else buf[0] + Shl(LoadWord(buf[1..]), 8)
  }

  /** The 64-bit left shift. */
  function Shl64(x: nat, n: nat): nat {
    Low(Shl(x, n), 64)
  }

  lemma Shl64Fits(x: nat, a: nat, n: nat)
    requires x < Pow2(a) && a + n <= 64
    ensures Shl64(x, n) == Shl(x, n)
  {
    ShlBound(x, a, n);
    Pow2Monotone(a + n, 64);
    LowFits(Shl(x, n), 64);
  }

  /** Bits of a buffer that holds bytes of the file are bits of the file. */
  lemma SliceOfBytes(buf: seq<Byte>, file: Disk, c: nat, off: nat, n: nat)
    requires (off + n + 7) / 8 <= |buf|
    requires forall j :: 0 <= j < (off + n + 7) / 8 ==> c + j < |file| && buf[j] == file[c + j]
    ensures Slice(buf, off, n) == Slice(file, 8 * c + off, n)
  {
    forall i | off <= i < off + n ensures Bit(buf, i) == Bit(file, i - off + (8 * c + off)) {
      assert (8 * c + i) / 8 == c + i / 8 && (8 * c + i) % 8 == i % 8;
      assert buf[i / 8] == file[c + i / 8];
    }
    SliceFrame(buf, off, file, 8 * c + off, n);
  }

  lemma {:induction false} LoadWordIsSlice(buf: seq<Byte>)
    ensures LoadWord(buf) == Slice(buf, 0, 8 * |buf|)
  {
    if buf != [] {
      LoadWordIsSlice(buf[1..]);
      SliceSplit(buf, 0, 8, 8 * (|buf| - 1));
      SliceByte(buf, 0);
      SliceOfBytes(buf[1..], buf, 1, 0, 8 * (|buf| - 1));
    }
  }

  /** The low bits of a word loaded from the line, whatever follows the line in memory. */
  lemma LoadedBits(file: Disk, line: nat, o: nat, mem: seq<Byte>, load: nat, n: nat)
    requires 32 * line + 32 <= |file| && o < 32
    requires load <= |Line(file, line)[o..] + mem|
    requires n <= 8 * load && o + (n + 7) / 8 <= 32
    ensures Low(LoadWord((Line(file, line)[o..] + mem)[..load]), n) == Slice(file, 8 * (32 * line + o), n)
  {
    var buf := (Line(file, line)[o..] + mem)[..load];
    LoadWordIsSlice(buf);
    LowSlice(buf, 0, 8 * load, n);
    SliceOfBytes(buf, file, 32 * line + o, 0, n);
  }

  lemma CrossingLines(off: nat, n: nat)
    requires off % 8 == 0 && n <= 64 && CrossesLine(off, n)
    ensures var line, o := off / CACHE_BITS, off / 8 - off / CACHE_BITS * 32;
            && (off + n - 1) / CACHE_BITS == line + 1
            && 0 <= o < 32 && off == 8 * (32 * line + o)
            && 0 <= (n + 7) / 8 - (32 - o) <= 8
            && n / 8 <= (n + 7) / 8
  {
  }

  lemma WithinLine(off: nat, n: nat)
    requires off % 8 == 0 && n > 0 && off / CACHE_BITS == (off + n - 1) / CACHE_BITS
    ensures var line, o := off / CACHE_BITS, (off / 8) % CACHE_BYTES;
            o + (n + 7) / 8 <= 32 && off == 8 * (32 * line + o)
  {
    var b := off / 8;
    Quotient(256, off, b / 32, 8 * (b % 32));
  }

  /** The tail of a line followed by the head of the next one. */
  lemma JoinedSlice(file: Disk, line: nat, o: nat, len1: nat, bytes: nat)
    requires 32 * (line + 1) + 32 <= |file| && o < 32 && len1 <= 32 && bytes <= 32 - o + len1
    ensures Slice(Line(file, line)[o..] + Line(file, line + 1)[..len1], 0, 8 * bytes) ==
            Slice(file, 8 * (32 * line + o), 8 * bytes)
  {
    var join := Line(file, line)[o..] + Line(file, line + 1)[..len1];
    SliceOfBytes(join, file, 32 * line + o, 0, 8 * bytes);
  }

  /** What lies behind a cache line in memory is not determined by the cache. */
  method AdjacentMemory() returns (mem: seq<Byte>)
    ensures |mem| == 8
  {
    mem := [0, 0, 0, 0, 0, 0, 0, 0];
  }

  /** The mask applied to a word that was loaded wider than the value: none for 1, 2, 4
      and 8 bytes; the masks for 6 and 7 bytes are wider than the value. */
  function WideMask(bytes: nat): nat {
    match bytes
    case 3 => 0xff_ffff
    case 5 => 0xff_ffff_ffff
    case 6 => 0xf_ffff_ffff_ffff
    case 7 => 0xfff_ffff_ffff_ffff
    case _ => 0xffff_ffff_ffff_ffff
  }

  lemma WideMaskKeeps(word: nat, n: nat)
    requires 0 < n <= 64
    ensures Low(And(word, WideMask((n + 7) / 8)), n) == Low(word, n)
  {
    var bytes := (n + 7) / 8;
    WideMaskIs(bytes);
    AndMask(word, KeptBits(bytes));
    LowLow(word, KeptBits(bytes), n);
  }

  function KeptBits(bytes: nat): nat {
    if bytes == 3 then 24 else if bytes == 5 then 40 else if bytes == 6 then 52 else if bytes == 7 then 60 else 64
  }

  lemma WideMaskIs(bytes: nat)
    ensures WideMask(bytes) == Pow2(KeptBits(bytes)) - 1
  {
    Pow2Values();
  }

  /** The word of an in-line read: the load width and mask depend on the byte count, and
      the final mask keeps n bits. */
  method MaskWord(raw: seq<Byte>, n: nat) returns (r: nat)
    requires 0 < n <= 64 && |raw| >= 8
    ensures r == Low(LoadWord(raw[..8]), n)
  {
    var bytes := (n + 7) / 8;
    var load := if bytes <= 2 then bytes else if bytes <= 4 then 4 else 8;
    var word := LoadWord(raw[..load]);
    PrefixWord(raw, load, n);
    r := word;
    if bytes == 3 || 5 <= bytes <= 7 {
      WideMaskKeeps(word, n);
      r := And(word, WideMask(bytes));
    }
    if n < 64 {
      AndMask(r, n);
      r := And(r, Pow2(n) - 1);
    } else {
      LoadWordIsSlice(raw[..8]);
      LowSlice(raw[..8], 0, 64, 64);
    }
  }

  /** A narrow load has the same low bits as the widest one. */
  lemma PrefixWord(raw: seq<Byte>, load: nat, n: nat)
    requires load <= 8 <= |raw| && n <= 8 * load
    ensures Low(LoadWord(raw[..load]), n) == Low(LoadWord(raw[..8]), n)
  {
    LoadWordIsSlice(raw[..load]);
    LoadWordIsSlice(raw[..8]);
    LowSlice(raw[..load], 0, 8 * load, n);
    LowSlice(raw[..8], 0, 64, n);
    SliceOfBytes(raw[..load], raw[..8], 0, 0, n);
  }

  /** Whole bytes joined from two lines, most significant first. */
  method JoinBytes(join: seq<Byte>, bytes: nat) returns (r: nat)
    requires bytes <= 8 && bytes <= |join|
    ensures r == Slice(join, 0, 8 * bytes)
  {
    r := 0;
    var i := bytes;
    while i > 0
      invariant 0 <= i <= bytes
      invariant r == Slice(join, 8 * i, 8 * (bytes - i))
    {
      i := i - 1;
      ghost var m := 8 * (bytes - (i + 1));
      SliceBound(join, 8 * i + 8, m);
      Shl64Fits(r, m, 8);
      SliceSplit(join, 8 * i, 8, m);
      SliceByte(join, i);
      r := Shl64(r, 8) + join[i];
    }
  }

  /** The bytes of a value in the order in which they are written. */
  method ToBytes(val: nat, bits: nat) returns (buf: seq<Byte>)
    requires bits % 8 == 0
    ensures buf == LittleEndian(val, bits / 8)
  {
    buf := [];
    var i := 0;
    while i < bits
      invariant i % 8 == 0 && 0 <= i <= bits
      invariant |buf| == i / 8
      invariant forall j :: 0 <= j < |buf| ==> buf[j] == ByteOf(val, j)
    {
      AndMask(Shr(val, i), 8);
      Pow2Values();
      LowBound(Shr(val, i), 8);
      assert i == 8 * |buf|;
      buf := buf + [And(Shr(val, i), 0xff)];
      i := i + 8;
    }
  }

  /** An entry of the cache: the line it holds, and that line's bytes. */
  datatype CacheEnt = CacheEnt(addr: nat, data: seq<Byte>)

  predicate Coherent(file: Disk, k: int, c: CacheEnt) {
    c.addr == NO_LINE ||
    (c.addr % CACHE_ENTS == k && 32 * c.addr + 32 <= |file| && c.data == Line(file, c.addr))
  }

  class Io {
    var file: Disk
    const ents: array<CacheEnt>

    /** Every valid line equals the disk. */
    ghost predicate Valid()
      reads this, ents
    {
      && ents.Length == CACHE_ENTS
      && |file| < MAX_FILE
      && forall k :: 0 <= k < CACHE_ENTS ==> Coherent(file, k, ents[k])
    }

    constructor (contents: Disk)
      requires |contents| < MAX_FILE
      ensures Valid() && file == contents && fresh(ents)
    {
      file := contents;
      ents := new CacheEnt[CACHE_ENTS](_ => CacheEnt(NO_LINE, []));
    }

    /** Look a line up and read it from the file on a miss. */
    method FetchLine(line: nat) returns (k: nat)
      requires Valid() && 32 * line + 32 <= |file|
      modifies ents
      ensures Valid() && k == line % CACHE_ENTS
      ensures ents[k].data == Line(file, line)
      ensures forall m :: 0 <= m < CACHE_ENTS && m != k ==> ents[m] == old(ents[m])
    {
      k := line % CACHE_ENTS;
      if ents[k].addr != line {
        ents[k] := CacheEnt(line, file[32 * line..32 * line + 32]);
      }
    }

    /** A read that crosses into the next line.  The second fetch uses the neighbouring
        entry, so it does not evict the first line. */
    method GetUnaligned(off: nat, n: nat) returns (r: nat)
      requires Valid() && 0 < n <= 64 && off % 8 == 0
      requires CrossesLine(off, n) && LinesInFile(file, off, n)
      modifies ents
      ensures Valid()
      ensures r == Slice(file, off, n / 8 * 8)
    {
      var line := off / CACHE_BITS;
      CrossingLines(off, n);
      var k0 := FetchLine(line);
      var k1 := FetchLine(line + 1);
      var o := off / 8 - line * CACHE_BYTES;
      var len0 := CACHE_BYTES - o;
      var len1 := (n + 7) / 8 - len0;
      var join := ents[k0].data[o..] + ents[k1].data[..len1];
      JoinedSlice(file, line, o, len1, n / 8);
      assert 8 * (32 * line + o) == off && 8 * (n / 8) == n / 8 * 8;
      r := JoinBytes(join, n / 8);
    }

    /** A byte-aligned read of up to 64 bits. */
    method CacheGet(off: nat, n: nat) returns (r: nat)
      requires Valid() && 0 < n <= 64 && off % 8 == 0
      requires LinesInFile(file, off, n)
      modifies ents
      ensures Valid()
      ensures r == AlignedRead(file, off, n)
    {
      if off / CACHE_BITS != (off + n - 1) / CACHE_BITS {
        r := GetUnaligned(off, n);
      } else {
        var line := off / CACHE_BITS;
        var k := FetchLine(line);
        var o := (off / 8) % CACHE_BYTES;
        WithinLine(off, n);
        var mem := AdjacentMemory();
        r := MaskWord(ents[k].data[o..] + mem, n);
        LoadedBits(file, line, o, mem, 8, n);
      }
    }

    /** Forget every cached line that overlaps the bytes. */
    method DropBytes(off: nat, n: nat)
      requires ents.Length == CACHE_ENTS
      modifies ents
      ensures forall k :: 0 <= k < CACHE_ENTS ==> ents[k] == old(ents[k]) || ents[k].addr == NO_LINE
      ensures forall k :: 0 <= k < CACHE_ENTS && ents[k].addr != NO_LINE && ents[k].addr % CACHE_ENTS == k ==>
                !(off / 32 <= ents[k].addr <= (off + n + 31) / 32)
    {
      var first, last := off / CACHE_BYTES, (off + n + CACHE_BYTES - 1) / CACHE_BYTES;
      var cur := first;
      while cur <= last
        invariant first <= cur <= last + 1
        invariant forall k :: 0 <= k < CACHE_ENTS ==> ents[k] == old(ents[k]) || ents[k].addr == NO_LINE
        invariant forall k :: 0 <= k < CACHE_ENTS && ents[k].addr != NO_LINE && ents[k].addr % CACHE_ENTS == k ==>
                    !(first <= ents[k].addr < cur)
      {
        var idx := cur % CACHE_ENTS;
        if ents[idx].addr == cur {
          ents[idx] := ents[idx].(addr := NO_LINE);
        }
        cur := cur + 1;
      }
    }

    /** Replace bytes of the file and drop the stale lines; the word writer drops one byte more. */
    method WriteBytes(off: nat, buf: seq<Byte>, slack: nat)
      requires Valid() && off + |buf| <= |file|
      modifies this, ents
      ensures Valid()
      ensures file == PutBytes(old(file), off, buf)
    {
      file := PutBytes(file, off, buf);
      DropBytes(off, |buf| + slack);
      forall k | 0 <= k < CACHE_ENTS ensures Coherent(file, k, ents[k]) {
        assert Coherent(old(file), k, old(ents[k]));
        if ents[k].addr != NO_LINE {
          LineKept(old(file), off, buf, ents[k].addr);
        }
      }
    }

    method CacheGetByte(k: nat) returns (b: Byte)
      requires Valid() && LinesInFile(file, 8 * k, 8)
      modifies ents
      ensures Valid() && k < |file| && b == file[k]
    {
      assert k < |file|;
      AlignedByte(file, k);
      b := CacheGet(8 * k, 8);
    }

    /** Read-modify-write of a single bit. */
    method WriteBit(off: nat, val: nat)
      requires Valid() && LinesInFile(file, off / 8 * 8, 8)
      modifies this, ents
      ensures Valid() && off < 8 * |old(file)|
      ensures file == PutBytes(old(file), off / 8, [SetBit(old(file)[off / 8], off % 8, val)])
    {
      var left := off % 8;
      assert off - left == 8 * (off / 8);
      var outV := CacheGetByte((off - left) / 8);
      var merged := MergeByte(outV, left, val);
      WriteBytes(off / 8, [merged], 0);
    }

    /** Write a value of 1 bit, or of whole bytes at a byte boundary. */
    method Write(e: Entry)
      requires Valid() && Supported(e, |file|)
      requires e.bits == 1 ==> LinesInFile(file, e.addr / 8 * 8, 8)
      modifies this, ents
      ensures Valid()
      ensures file == Put(old(file), e)
    {
      StoredIsPut(file, e);
      if e.bits == 1 {
        BitAsByte(file, e.addr, e.val);
        WriteBit(e.addr, e.val);
      } else {
        var buf := ToBytes(e.val, e.bits);
        WriteBytes(e.addr / 8, buf, 1);
      }
    }
  }

  lemma LineKept(file: Disk, off: nat, buf: seq<Byte>, l: nat)
    requires off + |buf| <= |file| && 32 * l + 32 <= |file|
    requires 32 * l + 32 <= off || off + |buf| <= 32 * l
    ensures Line(PutBytes(file, off, buf), l) == Line(file, l)
  {
  }

  lemma AlignedByte(file: Disk, k: nat)
    requires k < |file|
    ensures AlignedRead(file, 8 * k, 8) == file[k]
  {
    SliceByte(file, k);
    Quotient(256, 8 * k, k / 32, 8 * (k % 32));
    Quotient(256, 8 * k + 7, k / 32, 8 * (k % 32) + 7);
  }

  lemma BitAsByte(d: Disk, off: nat, val: nat)
    requires off < 8 * |d|
    ensures Stored(d, Entry(off, val, 1)) == PutBytes(d, off / 8, [SetBit(d[off / 8], off % 8, val)])
  {
  }

  /** Mask a bit out of a byte and or a new one in; the lowest byte of the word is written. */
  method MergeByte(b: Byte, k: nat, val: nat) returns (r: Byte)
    requires k < 8
    ensures r == SetBit(b, k, val)
  {
    HoleBits(k, 64, 0);
    Pow2Values();
    MergeIsSetBit(b, k, val);
    r := ByteOf(Merged(b, k, val), 0);
  }

  function Merged(b: nat, k: nat, val: nat): nat
    requires Shl(1, k) < 0x1_0000_0000_0000_0000
  {
    Or(And(b, 0xffff_ffff_ffff_ffff - Shl(1, k)), Shl(And(val, 1), k))
  }

  lemma MergeBitAt(b: Byte, k: nat, val: nat, j: nat)
    requires k < 8 && j < 8 && Shl(1, k) < 0x1_0000_0000_0000_0000
    ensures BitOf(Merged(b, k, val), j) == if j == k then val % 2 else BitOf(b, j)
  {
    var hole: nat := 0xffff_ffff_ffff_ffff - Shl(1, k);
    var bit := And(val, 1);
    BitOfOr(And(b, hole), Shl(bit, k), j);
    BitOfAnd(b, hole, j);
    BitOfShl(bit, k, j);
    assert BitOf(hole, j) == if j == k then 0 else 1 by {
      Pow2Values();
      HoleBits(k, 64, j);
    }
    assert bit == val % 2 by {
      AndMask(val, 1);
      assert Pow2(1) == 2;
    }
    if j > k { BitOfZero(j - k); assert bit < Pow2(1); FitsBits(bit, 1, j - k); }
  }

  lemma MergeIsSetBit(b: Byte, k: nat, val: nat)
    requires k < 8 && Shl(1, k) < 0x1_0000_0000_0000_0000
    ensures ByteOf(Merged(b, k, val), 0) == SetBit(b, k, val)
  {
    var m := Merged(b, k, val);
    var x, y: nat := ByteOf(m, 0), SetBit(b, k, val);
    forall j: nat ensures BitOf(x, j) == BitOf(y, j) {
      WithBitBits(b, k, val, j);
      if j < 8 {
        ByteOfBits(m, 0, j);
        MergeBitAt(b, k, val, j);
      } else {
        Pow2Values();
        FitsBits(x, 8, j);
        FitsBits(b, 8, j);
      }
    }
    SameBits(x, y);
  }

  /** ~(1 << k) has every bit below n set, except bit k. */
  lemma {:induction false} HoleBits(k: nat, n: nat, j: nat)
    requires k < n && j < n
    ensures Pow2(n) - 1 >= Shl(1, k)
    ensures BitOf(Pow2(n) - 1 - Shl(1, k), j) == if j == k then 0 else 1
  {
    ShlPow2(k);
    Pow2Monotone(k, n - 1);
    var x: nat := Pow2(n) - 1 - Shl(1, k);
    if k == 0 {
      assert x == 2 * (Pow2(n - 1) - 1);
      if j > 0 { OnesBits(n - 1, j - 1); }
    } else {
      assert x == 2 * (Pow2(n - 1) - 1 - Shl(1, k - 1)) + 1;
      if j > 0 { HoleBits(k - 1, n - 1, j - 1); }
    }
  }

  lemma {:induction false} OnesBits(n: nat, j: nat)
    requires j < n
    ensures BitOf(Pow2(n) - 1, j) == 1
  {
    if j > 0 {
      assert (Pow2(n) - 1) / 2 == Pow2(n - 1) - 1;
      OnesBits(n - 1, j - 1);
    }
  }
}
