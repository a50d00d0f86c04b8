/** Physical reads of any bit offset and width, in both byte orders.  Misaligned reads are
    assembled from a left part, full bytes and a right part. */
module PhysRead {
  import opened Arith
  import opened Bits
  import opened Flat
  import opened Pread

  // ----- big-endian view: most significant bit of each byte first -----

  function BitM(d: Disk, i: nat): (b: nat)
    ensures b <= 1
  {
    if i / 8 < |d| then BitOf(d[i / 8], 7 - i % 8) else 0
  }

  /** The n-bit big-endian, MSB-first value stored at bit offset off. */
  function SliceM(d: Disk, off: nat, n: nat): nat
  {
    if n == 0 then 0 else 2 * SliceM(d, off, n - 1) + BitM(d, off + n - 1)
  }

  lemma {:induction false} SliceMBound(d: Disk, off: nat, n: nat)
    ensures SliceM(d, off, n) < Pow2(n)
  {
    if n > 0 { SliceMBound(d, off, n - 1); }
  }

  lemma {:induction false} ShlSum(x: nat, y: nat, n: nat)
    ensures Shl(x + y, n) == Shl(x, n) + Shl(y, n)
  {
    if n > 0 { ShlSum(x, y, n - 1); }
  }

  lemma {:induction false} SliceMSplit(d: Disk, off: nat, a: nat, b: nat)
    ensures SliceM(d, off, a + b) == Shl(SliceM(d, off, a), b) + SliceM(d, off + a, b)
  {
    if b > 0 { SliceMSplit(d, off, a, b - 1); }
  }

  /** The first n bits of a byte. */
  lemma {:induction false} SliceMHead(d: Disk, k: nat, n: nat)
    requires k < |d| && n <= 8
    ensures SliceM(d, 8 * k, n) == Shr(d[k], 8 - n)
  {
    var x: nat := d[k];
    if n == 0 {
      Pow2Values();
      ShrFits(x, 8);
    } else {
      SliceMHead(d, k, n - 1);
      ShrStep(x, 8 - n);
      BitOfShr(x, 8 - n, 0);
      assert (8 * k + n - 1) / 8 == k && (8 * k + n - 1) % 8 == n - 1;
    }
  }

  lemma {:induction false} LowStep(x: nat, n: nat)
    ensures Low(x, n + 1) == Low(x, n) + Shl(BitOf(x, n), n)
  {
    if n > 0 { LowStep(x / 2, n - 1); }
  }

  /** The last n bits of a byte. */
  lemma {:induction false} SliceMTail(d: Disk, k: nat, n: nat)
    requires k < |d| && n <= 8
    ensures SliceM(d, 8 * k + (8 - n), n) == Low(d[k], n)
  {
    if n > 0 {
      var i := 8 * k + (8 - n);
      SliceMTail(d, k, n - 1);
      SliceMSplit(d, i, 1, n - 1);
      assert i / 8 == k && 7 - i % 8 == n - 1;
      assert SliceM(d, i, 0) == 0;
      assert SliceM(d, i, 1) == BitM(d, i);
      LowStep(d[k], n - 1);
    }
  }

  // ----- byte swapping -----

  /** The n low bytes of v in reverse order. */
  function Swap(v: nat, n: nat): nat
    decreases n
  {
    if n == 0 then 0 else Shl(ByteOf(v, 0), 8 * (n - 1)) + Swap(Shr(v, 8), n - 1)
  }

  function Swap5(v: nat): nat {
    Or(Or(Or(Or(Shr(And(v, 0xff_0000_0000), 32), Shr(And(v, 0xff00_0000), 16)), And(v, 0xff_0000)),
          Shl(And(v, 0xff00), 16)), Shl(And(v, 0xff), 32))
  }

  function Swap6(v: nat): nat {
    Or(Or(Or(Or(Or(Shr(And(v, 0xff00_0000_0000), 40), Shr(And(v, 0xff_0000_0000), 24)),
                Shr(And(v, 0xff00_0000), 8)), Shl(And(v, 0xff_0000), 8)),
          Shl(And(v, 0xff00), 24)), Shl(And(v, 0xff), 40))
  }

  predicate SwapSupported(n: nat) {
    n == 1 || n == 2 || n == 4 || n == 5 || n == 6 || n == 8
  }

  /** Reverse the bytes of a value of n bytes; other byte counts are rejected. */
  method SwapBytes(v: nat, n: nat) returns (r: nat)
    requires SwapSupported(n) && v < Pow2(8 * n)
    ensures r == Swap(v, n)
  {
    if n == 1 {
      Swap1(v);
      r := v;
    } else if n == 5 {
      Swap5IsSwap(v);
      r := Swap5(v);
    } else if n == 6 {
      Swap6IsSwap(v);
      r := Swap6(v);
    } else {
      r := Swap(v, n);
    }
  }

  lemma Swap1(v: nat)
    requires v < Pow2(8)
    ensures Swap(v, 1) == v
  {
    LowFits(v, 8);
    assert Swap(Shr(v, 8), 0) == 0;
  }

  lemma {:induction false} ShrShl(x: nat, a: nat, b: nat)
    requires b <= a
    ensures Shr(Shl(x, a), b) == Shl(x, a - b)
  {
    if b > 0 {
      assert Shl(x, a) / 2 == Shl(x, a - 1);
      ShrShl(x, a - 1, b - 1);
    }
  }

  lemma AndByte(v: nat, j: nat, mask: nat)
    requires mask == Shl(0xff, 8 * j)
    ensures And(v, mask) == Shl(ByteOf(v, j), 8 * j)
  {
    AndShl(v, 0xff, 8 * j);
    Pow2Values();
    AndMask(Shr(v, 8 * j), 8);
  }

  lemma ByteMasks()
    ensures Shl(0xff, 0) == 0xff && Shl(0xff, 8) == 0xff00 && Shl(0xff, 16) == 0xff_0000
    ensures Shl(0xff, 24) == 0xff00_0000 && Shl(0xff, 32) == 0xff_0000_0000 && Shl(0xff, 40) == 0xff00_0000_0000
  {
    assert Shl(0xff, 4) == 0xff0;
    assert Shl(0xff, 8) == 0xff00;
    assert Shl(0xff, 12) == 0xf_f000;
    assert Shl(0xff, 16) == 0xff_0000;
    assert Shl(0xff, 20) == 0xff0_0000;
    assert Shl(0xff, 24) == 0xff00_0000;
    assert Shl(0xff, 28) == 0xf_f000_0000;
    assert Shl(0xff, 32) == 0xff_0000_0000;
    assert Shl(0xff, 36) == 0xff0_0000_0000;
  }

  /** One more byte above an accumulator of n bytes. */
  lemma OrByte(acc: nat, b: Byte, n: nat)
    requires acc < Pow2(8 * n)
    ensures Or(acc, Shl(b, 8 * n)) == acc + Shl(b, 8 * n) < Pow2(8 * (n + 1))
  {
    OrShl(acc, b, 8 * n);
    Pow2Values();
    ShlBound(b, 8, 8 * n);
  }

  lemma {:induction false} ShrShr(v: nat, a: nat, b: nat)
    ensures Shr(Shr(v, a), b) == Shr(v, a + b)
  {
    if a > 0 { ShrShr(v / 2, a - 1, b); }
  }

  /** The bytes of v, lowest first, each placed above the ones before it in reverse order. */
  function Rev(v: nat, n: nat, j: nat): nat
    requires j <= n
  {
    if j == 0 then 0 else Rev(v, n, j - 1) + Shl(ByteOf(v, n - j), 8 * (j - 1))
  }

  lemma {:induction false} RevSwap(v: nat, n: nat, j: nat)
    requires j <= n
    ensures Rev(v, n, j) == Swap(Shr(v, 8 * (n - j)), j)
  {
    if j > 0 {
      RevSwap(v, n, j - 1);
      var w := Shr(v, 8 * (n - j));
      ShrShr(v, 8 * (n - j), 8);
      ShrShr(v, 8 * (n - j), 0);
      assert Shr(w, 8) == Shr(v, 8 * (n - (j - 1)));
    }
  }

  lemma {:induction false} RevBound(v: nat, n: nat, j: nat)
    requires j <= n
    ensures Rev(v, n, j) < Pow2(8 * j)
  {
    if j > 0 {
      RevBound(v, n, j - 1);
      OrByte(Rev(v, n, j - 1), ByteOf(v, n - j), j - 1);
    }
  }

  lemma RevStep(v: nat, n: nat, j: nat)
    requires j < n
    ensures Or(Rev(v, n, j), Shl(ByteOf(v, n - j - 1), 8 * j)) == Rev(v, n, j + 1)
  {
    RevBound(v, n, j);
    OrByte(Rev(v, n, j), ByteOf(v, n - j - 1), j);
  }

  lemma RevOne(v: nat, n: nat)
    requires n > 0
    ensures Rev(v, n, 1) == ByteOf(v, n - 1)
  {
    assert Rev(v, n, 0) == 0;
    assert Shl(ByteOf(v, n - 1), 0) == ByteOf(v, n - 1);
  }

  lemma Swap5IsSwap(v: nat)
    ensures Swap5(v) == Swap(v, 5)
  {
    ByteMasks();
    AndByte(v, 4, 0xff_0000_0000); ShrShl(ByteOf(v, 4), 32, 32);
    AndByte(v, 3, 0xff00_0000); ShrShl(ByteOf(v, 3), 24, 16);
    AndByte(v, 2, 0xff_0000);
    AndByte(v, 1, 0xff00); ShlAdd(ByteOf(v, 1), 8, 16);
    AndByte(v, 0, 0xff); ShlAdd(ByteOf(v, 0), 0, 32);
    RevOne(v, 5); RevStep(v, 5, 1); RevStep(v, 5, 2); RevStep(v, 5, 3); RevStep(v, 5, 4);
    RevSwap(v, 5, 5);
  }

  lemma Swap6IsSwap(v: nat)
    ensures Swap6(v) == Swap(v, 6)
  {
    ByteMasks();
    AndByte(v, 5, 0xff00_0000_0000); ShrShl(ByteOf(v, 5), 40, 40);
    AndByte(v, 4, 0xff_0000_0000); ShrShl(ByteOf(v, 4), 32, 24);
    AndByte(v, 3, 0xff00_0000); ShrShl(ByteOf(v, 3), 24, 8);
    AndByte(v, 2, 0xff_0000); ShlAdd(ByteOf(v, 2), 16, 8);
    AndByte(v, 1, 0xff00); ShlAdd(ByteOf(v, 1), 8, 24);
    AndByte(v, 0, 0xff); ShlAdd(ByteOf(v, 0), 0, 40);
    RevOne(v, 6); RevStep(v, 6, 1); RevStep(v, 6, 2); RevStep(v, 6, 3); RevStep(v, 6, 4); RevStep(v, 6, 5);
    RevSwap(v, 6, 6);
  }

  /** Swapping the little-endian value of n whole bytes (m bits) gives their big-endian value. */
  lemma {:induction false} SwapSlice(d: Disk, k: nat, off: nat, n: nat, m: nat)
    requires k + n <= |d| && off == 8 * k && m == 8 * n
    ensures Swap(Slice(d, off, m), n) == SliceM(d, off, m)
    decreases n
  {
    if n > 0 {
      SliceBytes(d, k, off, m);
      HeadByte(d[k], Slice(d, off + 8, m - 8));
      SwapSlice(d, k + 1, off + 8, n - 1, m - 8);
      SliceMBytes(d, k, off, m);
    }
  }

  lemma SliceBytes(d: Disk, k: nat, off: nat, m: nat)
    requires k < |d| && off == 8 * k && m >= 8
    ensures Slice(d, off, m) == d[k] + Shl(Slice(d, off + 8, m - 8), 8)
  {
    SliceSplit(d, off, 8, m - 8);
    SliceByte(d, k);
  }

  lemma SliceMBytes(d: Disk, k: nat, off: nat, m: nat)
    requires k < |d| && off == 8 * k && m >= 8
    ensures SliceM(d, off, m) == Shl(d[k], m - 8) + SliceM(d, off + 8, m - 8)
  {
    SliceMSplit(d, off, 8, m - 8);
    SliceMHead(d, k, 8);
  }

  lemma HeadByte(b: Byte, rest: nat)
    ensures ByteOf(b + Shl(rest, 8), 0) == b && Shr(b + Shl(rest, 8), 8) == rest
  {
    Pow2Values();
    HeadBits(b, rest, 8);
  }

  lemma {:induction false} HeadBits(b: nat, rest: nat, n: nat)
    requires b < Pow2(n)
    ensures Low(b + Shl(rest, n), n) == b && Shr(b + Shl(rest, n), n) == rest
  {
    if n > 0 {
      assert (b + Shl(rest, n)) / 2 == b / 2 + Shl(rest, n - 1);
      HeadBits(b / 2, rest, n - 1);
    }
  }

  // ----- reads -----

  /** The parts of a read of n bits at off: bits of the first byte, full bytes, bits of the last. */
  function LeftBits(off: nat, n: nat): nat {
    if 8 - off % 8 > n then n else 8 - off % 8
  }

  /** What the big-endian path accepts: when aligned, whole bytes only of a count that can be
      swapped; otherwise a field of fewer than 64 bits that reaches the end of its first byte. */
  predicate BigSupported(off: nat, n: nat) {
    if off % 8 == 0 then n % 8 == 0 ==> SwapSupported(n / 8)
    else n < 64 && 8 - off % 8 <= n && ((n - LeftBits(off, n)) / 8 == 0 || SwapSupported((n - LeftBits(off, n)) / 8))
  }

  method ReadAligned(io: Io, big: bool, off: nat, n: nat) returns (r: nat)
    requires io.Valid() && 0 < n <= 64 && off % 8 == 0 && LinesInFile(io.file, off, n)
    requires big ==> BigSupported(off, n)
    modifies io.ents
    ensures io.Valid()
    ensures !big || n % 8 != 0 ==> r == AlignedRead(io.file, off, n)
    ensures big && n % 8 == 0 ==> r == SliceM(io.file, off, n)
  {
    r := io.CacheGet(off, n);
    if n % 8 == 0 && big {
      assert n / 8 * 8 == n && r == Slice(io.file, off, n);
      SliceBound(io.file, off, n);
      r := SwapBytes(r, n / 8);
      SwapSlice(io.file, off / 8, off, n / 8, n);
    }
  }

  /** Whole bytes at a byte boundary read the same whether or not they cross a line. */
  lemma WholeBytes(file: Disk, off: nat, n: nat)
    requires n % 8 == 0
    ensures AlignedRead(file, off, n) == Slice(file, off, n)
  {
  }

  /** Or-ing the bits that follow above the bits read so far. */
  lemma AddPart(file: Disk, off: nat, a: nat, b: nat)
    requires a + b <= 64
    ensures Or(Slice(file, off, a), Shl64(Slice(file, off + a, b), a)) == Slice(file, off, a + b)
  {
    SliceBound(file, off, a);
    SliceBound(file, off + a, b);
    Shl64Fits(Slice(file, off + a, b), b, a);
    OrShl(Slice(file, off, a), Slice(file, off + a, b), a);
    SliceSplit(file, off, a, b);
  }

  lemma MaskPart(file: Disk, off: nat, m: nat, n: nat)
    ensures And(Slice(file, off, m), Pow2(n) - 1) == Slice(file, off, if m <= n then m else n)
  {
    var x := Slice(file, off, m);
    AndMask(x, n);
    if m <= n {
      SliceBound(file, off, m);
      Pow2Monotone(m, n);
      LowFits(x, n);
    } else {
      LowSlice(file, off, m, n);
    }
  }

  /** Where the parts of a misaligned read lie: q is its first byte, o its bit in that byte. */
  lemma PartsArith(off: nat, n: nat, q: nat, o: nat, left: nat, full: nat, right: nat)
    requires off == 8 * q + o && 0 < o < 8 && n > 0
    requires left == (if 8 - o > n then n else 8 - o) && full == (n - left) / 8 && right == n - left - 8 * full
    ensures right < 8
    ensures (full == 0 && right == 0) || left == 8 - o
    ensures left == 8 - o ==> off + left == 8 * (q + 1) && right == (off + n) % 8
  {
    if left == 8 - o {
      assert off + n == 8 * (q + 1 + full) + right;
    }
  }

  lemma PartsInFile(file: Disk, off: nat, n: nat, left: nat, whole: nat, right: nat)
    requires n > 0 && off % 8 != 0 && LinesInFile(file, off / 8 * 8, off % 8 + n)
    requires left == LeftBits(off, n) && whole == 8 * ((n - left) / 8) && right == n - left - whole
    ensures LinesInFile(file, off / 8 * 8, 8)
    ensures whole > 0 ==> (off + left) % 8 == 0 && LinesInFile(file, off + left, whole)
    ensures right > 0 ==> (off + left + whole) % 8 == 0 && LinesInFile(file, off + left + whole, 8)
    ensures right < 8 && whole % 8 == 0 && whole / 8 == (n - left) / 8
    ensures whole == right == 0 || left == 8 - off % 8
    ensures left == 8 - off % 8 ==> right == (off + n) % 8
  {
    var q, o, full := off / 8, off % 8, (n - left) / 8;
    PartsArith(off, n, q, o, left, full, right);
    var last := off + n - 1;
    FirstByteInFile(file, q, last);
    if right > 0 {
      ByteAligned(q + 1 + full);
      FirstByteInFile(file, q + 1 + full, last);
      assert off + left + whole == 8 * (q + 1 + full);
    }
    if whole > 0 {
      ByteAligned(q + 1);
      LineBefore(file, off + left + whole - 1, last);
    }
  }

  lemma LineBefore(file: Disk, i: nat, last: nat)
    requires i <= last && 32 * (last / CACHE_BITS) + 32 <= |file|
    ensures 32 * (i / CACHE_BITS) + 32 <= |file|
  {
    DivLe(i, last, CACHE_BITS);
  }

  /** The line of a byte that starts no later than bit `last` is inside the file if the line of `last` is. */
  lemma FirstByteInFile(file: Disk, k: nat, last: nat)
    requires 8 * k <= last && 32 * (last / CACHE_BITS) + 32 <= |file|
    ensures LinesInFile(file, 8 * k, 8)
  {
    Quotient(256, 8 * k + 7, k / 32, 8 * (k % 32) + 7);
    Quotient(256, 8 * k, k / 32, 8 * (k % 32));
    DivLe(8 * k, last, 256);
  }

  method ReadByte(io: Io, base: nat) returns (r: nat)
    requires io.Valid() && base % 8 == 0 && LinesInFile(io.file, base, 8)
    modifies io.ents
    ensures io.Valid() && base / 8 < |io.file|
    ensures r == io.file[base / 8] == Slice(io.file, base, 8)
  {
    assert base / 8 < |io.file|;
    SliceByte(io.file, base / 8);
    WholeBytes(io.file, base, 8);
    r := io.CacheGet(base, 8);
  }

  /** The bits of the first byte, from off on. */
  method ReadLeft(io: Io, off: nat) returns (r: nat)
    requires io.Valid() && LinesInFile(io.file, off / 8 * 8, 8)
    modifies io.ents
    ensures io.Valid() && r == Slice(io.file, off, 8 - off % 8)
  {
    r := ReadByte(io, off / 8 * 8);
    SliceInByte(io.file, off / 8, off % 8);
    r := Shr(r, off % 8);
  }

  /** Add m bits of whole bytes at a byte boundary above the bits read so far. */
  method AddWhole(io: Io, off: nat, left: nat, m: nat, r: nat) returns (r': nat)
    requires io.Valid() && r == Slice(io.file, off, left)
    requires (off + left) % 8 == 0 && m % 8 == 0 && 0 < m && left + m <= 64
    requires LinesInFile(io.file, off + left, m)
    modifies io.ents
    ensures io.Valid() && r' == Slice(io.file, off, left + m)
  {
    WholeBytes(io.file, off + left, m);
    AddPart(io.file, off, left, m);
    var v := io.CacheGet(off + left, m);
    r' := Or(r, Shl64(v, left));
  }

  /** Add the low m bits of the next byte above the bits read so far. */
  method AddRight(io: Io, off: nat, left: nat, m: nat, r: nat) returns (r': nat)
    requires io.Valid() && r == Slice(io.file, off, left)
    requires (off + left) % 8 == 0 && m < 8 && left + m <= 64
    requires LinesInFile(io.file, off + left, 8)
    modifies io.ents
    ensures io.Valid() && r' == Slice(io.file, off, left + m)
  {
    var v := ReadByte(io, off + left);
    MaskPart(io.file, off + left, 8, m);
    AddPart(io.file, off, left, m);
    v := And(v, Pow2(m) - 1);
    r' := Or(r, Shl64(v, left));
  }

  /** How a misaligned field is cut up: the rest of its first byte, whole bytes, and the rest. */
  predicate Parts(file: Disk, off: nat, n: nat, left: nat, whole: nat, right: nat) {
    && n == left + whole + right && right < 8 && whole % 8 == 0 && LinesInFile(file, off / 8 * 8, 8)
    && (whole > 0 ==> (off + left) % 8 == 0 && LinesInFile(file, off + left, whole))
    && (right > 0 ==> (off + (left + whole)) % 8 == 0 && LinesInFile(file, off + (left + whole), 8))
    && (left == 8 - off % 8 || (whole == 0 && right == 0 && left <= 8 - off % 8))
  }

  /** A misaligned little-endian read is the LSB-first bit slice. */
  method ReadMisaligned(io: Io, off: nat, n: nat) returns (r: nat)
    requires io.Valid() && 0 < n < 64 && off % 8 != 0
    requires LinesInFile(io.file, off / 8 * 8, off % 8 + n)
    modifies io.ents
    ensures io.Valid()
    ensures r == Slice(io.file, off, n)
  {
    var left := LeftBits(off, n);
    var whole := 8 * ((n - left) / 8);
    var right := n - left - whole;
    PartsInFile(io.file, off, n, left, whole, right);
    assert off + (left + whole) == off + left + whole;
    r := ReadParts(io, off, n, left, whole, right);
  }

  method ReadParts(io: Io, off: nat, n: nat, left: nat, whole: nat, right: nat) returns (r: nat)
    requires io.Valid() && n < 64 && Parts(io.file, off, n, left, whole, right)
    modifies io.ents
    ensures io.Valid() && r == Slice(io.file, off, n)
  {
    r := ReadLeft(io, off);
    var m := 8 - off % 8;
    if whole != 0 {
      r := AddWhole(io, off, left, whole, r);
      m := left + whole;
    }
    MaskPart(io.file, off, m, n);
    r := And(r, Pow2(n) - 1);
    if right != 0 {
      r := AddRight(io, off, left + whole, right, r);
    }
  }

  // ----- the swapped path -----

  lemma {:induction false} OrCommutes(x: nat, y: nat)
    ensures Or(x, y) == Or(y, x)
    decreases x + y
  {
    if x != 0 && y != 0 { OrCommutes(x / 2, y / 2); }
  }

  /** Or-ing the bits that follow below the bits read so far. */
  lemma AddPartM(file: Disk, off: nat, a: nat, b: nat, c: nat)
    requires a + b + c <= 64
    ensures Or(Shl(SliceM(file, off, a), b + c), Shl64(SliceM(file, off + a, b), c)) == Shl(SliceM(file, off, a + b), c)
  {
    var x, y := SliceM(file, off, a), SliceM(file, off + a, b);
    SliceMBound(file, off + a, b);
    Shl64Fits(y, b, c);
    ShlBound(y, b, c);
    OrShl(Shl(y, c), x, b + c);
    OrCommutes(Shl(y, c), Shl(x, b + c));
    SliceMSplit(file, off, a, b);
    ShlSum(Shl(x, b), y, c);
    ShlAdd(x, b, c);
  }

  /** The bits of the first byte, from off on, most significant first. */
  method ReadLeftM(io: Io, off: nat) returns (r: nat)
    requires io.Valid() && LinesInFile(io.file, off / 8 * 8, 8)
    modifies io.ents
    ensures io.Valid() && r == SliceM(io.file, off, 8 - off % 8)
  {
    var left := 8 - off % 8;
    r := ReadByte(io, off / 8 * 8);
    AndMask(r, left);
    SliceMTail(io.file, off / 8, left);
    r := And(r, Pow2(left) - 1);
  }

  /** Add m bits of whole bytes below the bits read so far; c bits are still to come. */
  method AddWholeM(io: Io, off: nat, left: nat, m: nat, c: nat, r: nat) returns (r': nat)
    requires io.Valid() && r == Shl(SliceM(io.file, off, left), m + c)
    requires (off + left) % 8 == 0 && m % 8 == 0 && SwapSupported(m / 8) && left + m + c <= 64
    requires LinesInFile(io.file, off + left, m)
    modifies io.ents
    ensures io.Valid() && r' == Shl(SliceM(io.file, off, left + m), c)
  {
    AddPartM(io.file, off, left, m, c);
    var v := ReadAligned(io, true, off + left, m);
    r' := Or(r, Shl64(v, c));
  }

  /** Add the first m bits of the next byte below the bits read so far. */
  method AddRightM(io: Io, off: nat, left: nat, m: nat, r: nat) returns (r': nat)
    requires io.Valid() && r == Shl(SliceM(io.file, off, left), m)
    requires (off + left) % 8 == 0 && m < 8 && left + m <= 64
    requires LinesInFile(io.file, off + left, 8)
    modifies io.ents
    ensures io.Valid() && r' == SliceM(io.file, off, left + m)
  {
    var v := ReadByte(io, off + left);
    SliceMHead(io.file, (off + left) / 8, m);
    v := Shr(v, 8 - m);
    SliceMBound(io.file, off + left, m);
    Shl64Fits(v, m, 0);
    AddPartM(io.file, off, left, m, 0);
    r' := Or(r, v);
  }

  /** A misaligned read in the swapped path is the MSB-first bit slice. */
  method ReadMisalignedSwapped(io: Io, off: nat, n: nat) returns (r: nat)
    requires io.Valid() && 0 < n && off % 8 != 0 && BigSupported(off, n)
    requires LinesInFile(io.file, off / 8 * 8, off % 8 + n)
    modifies io.ents
    ensures io.Valid()
    ensures r == SliceM(io.file, off, n)
  {
    var left := LeftBits(off, n);
    var whole := 8 * ((n - left) / 8);
    var right := n - left - whole;
    PartsInFile(io.file, off, n, left, whole, right);
    assert off + (left + whole) == off + left + whole;
    r := ReadPartsM(io, off, left, whole, right);
    KeepM(io.file, off, n);
    r := And(r, Pow2(n) - 1);
  }

  /** The first byte and the whole bytes, shifted to make room for the rest. */
  method ReadBytesM(io: Io, off: nat, left: nat, whole: nat, right: nat) returns (r: nat)
    requires io.Valid() && Parts(io.file, off, left + whole + right, left, whole, right) && left + whole + right < 64
    requires left == 8 - off % 8 && (whole == 0 || SwapSupported(whole / 8))
    modifies io.ents
    ensures io.Valid() && r == Shl(SliceM(io.file, off, left + whole), right)
  {
    r := ReadLeftM(io, off);
    ShiftM(io.file, off, left, whole + right);
    r := Shl64(r, whole + right);
    if whole != 0 {
      r := AddWholeM(io, off, left, whole, right, r);
    }
  }

  method AddRestM(io: Io, off: nat, done: nat, right: nat, r: nat) returns (r': nat)
    requires io.Valid() && r == Shl(SliceM(io.file, off, done), right) && right < 8 && done + right <= 64
    requires right > 0 ==> (off + done) % 8 == 0 && LinesInFile(io.file, off + done, 8)
    modifies io.ents
    ensures io.Valid() && r' == SliceM(io.file, off, done + right)
  {
    r' := r;
    if right != 0 {
      r' := AddRightM(io, off, done, right, r);
    }
  }

  method ReadPartsM(io: Io, off: nat, left: nat, whole: nat, right: nat) returns (r: nat)
    requires io.Valid() && left + whole + right < 64 && Parts(io.file, off, left + whole + right, left, whole, right)
    requires left == 8 - off % 8 && (whole == 0 || SwapSupported(whole / 8))
    modifies io.ents
    ensures io.Valid() && r == SliceM(io.file, off, left + whole + right)
  {
    r := ReadBytesM(io, off, left, whole, right);
    r := AddRestM(io, off, left + whole, right, r);
  }

  lemma ShiftM(file: Disk, off: nat, a: nat, b: nat)
    requires a + b <= 64
    ensures Shl64(SliceM(file, off, a), b) == Shl(SliceM(file, off, a), b)
  {
    SliceMBound(file, off, a);
    Shl64Fits(SliceM(file, off, a), a, b);
  }

  lemma KeepM(file: Disk, off: nat, n: nat)
    ensures And(SliceM(file, off, n), Pow2(n) - 1) == SliceM(file, off, n)
  {
    SliceMBound(file, off, n);
    AndMask(SliceM(file, off, n), n);
    LowFits(SliceM(file, off, n), n);
  }

  /** A physical read of up to 64 bits, in the byte order of the file system. An aligned read of
      a width that is not whole bytes is not swapped. */
  method GetLocalPhys(io: Io, big: bool, off: nat, n: nat) returns (r: nat)
    requires io.Valid() && 0 < n <= 64
    requires LinesInFile(io.file, off / 8 * 8, off % 8 + n)
    requires off % 8 != 0 ==> n < 64
    requires big ==> BigSupported(off, n)
    modifies io.ents
    ensures io.Valid()
    ensures !big ==> r == if off % 8 == 0 then AlignedRead(io.file, off, n) else Slice(io.file, off, n)
    ensures big && (off % 8 != 0 || n % 8 == 0) ==> r == SliceM(io.file, off, n)
    ensures big && off % 8 == 0 && n % 8 != 0 ==> r == AlignedRead(io.file, off, n)
  {
    if off % 8 != 0 {
      if big {
        r := ReadMisalignedSwapped(io, off, n);
      } else {
        r := ReadMisaligned(io, off, n);
      }
    } else {
      r := ReadAligned(io, big, off, n);
    }
  }

  /** A byte-aligned read returns the bit slice, on every file that has the lines it reads,
      exactly when it stays within a line or its width is a whole number of bytes. */
  lemma AlignedReadExact(off: nat, n: nat)
    requires off % 8 == 0
    ensures (forall file: Disk :: LinesInFile(file, off, n) ==> AlignedRead(file, off, n) == Slice(file, off, n))
            <==> (CrossesLine(off, n) ==> n % 8 == 0)
  {
    if CrossesLine(off, n) && n % 8 != 0 {
      LosesBits(off, n);
    }
  }

  /** A file of whole lines, all ones, on which a read across lines loses its last bits. */
  lemma LosesBits(off: nat, n: nat)
    requires CrossesLine(off, n) && n % 8 != 0
    ensures exists file: Disk :: LinesInFile(file, off, n) && AlignedRead(file, off, n) != Slice(file, off, n)
  {
    var last := (off + n - 1) / CACHE_BITS;
    var file: Disk := seq(32 * last + 32, _ => 255);
    OnesSlice(file, off, n / 8 * 8);
    OnesSlice(file, off, n);
    Pow2Grows(n / 8 * 8, n);
    assert AlignedRead(file, off, n) != Slice(file, off, n);
  }

  lemma {:induction false} Pow2Grows(a: nat, b: nat)
    requires a < b
    ensures Pow2(a) < Pow2(b)
  {
    if a + 1 < b { Pow2Grows(a, b - 1); }
  }

  lemma {:induction false} OnesSlice(file: Disk, off: nat, n: nat)
    requires forall k :: 0 <= k < |file| ==> file[k] == 255
    requires off + n <= 8 * |file|
    ensures Slice(file, off, n) == Pow2(n) - 1
    decreases n
  {
    if n > 0 {
      OnesSlice(file, off + 1, n - 1);
      Pow2Values();
      OnesBits(8, off % 8);
    }
  }
}
