/** Natural-number models of the machine operations that the runtime applies to
    64-bit words, and the bit-addressed view of a byte sequence.

    Every operation recurses by halving, so that shifts and masks are reasoned
    about one bit at a time and no proof needs non-linear arithmetic. */
module Bits {

  type Byte = x: int | 0 <= x < 256
  type Disk = seq<Byte>

  function Pow2(n: nat): (p: nat)
    ensures p >= 1
  {
    if n == 0 then 1 else 2 * Pow2(n - 1)
  }

  /** Bit k of x, counted from the least significant one. */
  function BitOf(x: nat, k: nat): (b: nat)
    ensures b <= 1
  {
    if k == 0 then x % 2 else BitOf(x / 2, k - 1)
  }

  /** x & ((1 << n) - 1), see AndMask. */
  function Low(x: nat, n: nat): nat {
    if n == 0 then 0 else x % 2 + 2 * Low(x / 2, n - 1)
  }

  function Shr(x: nat, n: nat): nat {
    if n == 0 then x else Shr(x / 2, n - 1)
  }

  function Shl(x: nat, n: nat): nat {
    if n == 0 then x else 2 * Shl(x, n - 1)
  }

  function And(x: nat, y: nat): nat {
    if x == 0 || y == 0 then 0
    else 2 * And(x / 2, y / 2) + (if x % 2 == 1 && y % 2 == 1 then 1 else 0)
  }

  function Or(x: nat, y: nat): nat
    decreases x + y
  {
    if x == 0 then y
    else if y == 0 then x
    else 2 * Or(x / 2, y / 2) + (if x % 2 == 1 || y % 2 == 1 then 1 else 0)
  }

  // ----- facts about words -----

  lemma {:induction false} BitOfZero(k: nat)
    ensures BitOf(0, k) == 0
  {
    if k > 0 { BitOfZero(k - 1); }
  }

  lemma {:induction false} BitOfLow(x: nat, n: nat, k: nat)
    ensures BitOf(Low(x, n), k) == if k < n then BitOf(x, k) else 0
  {
    if n == 0 {
      BitOfZero(k);
    } else if k > 0 {
      BitOfLow(x / 2, n - 1, k - 1);
    }
  }

  lemma {:induction false} BitOfShr(x: nat, n: nat, k: nat)
    ensures BitOf(Shr(x, n), k) == BitOf(x, n + k)
  {
    if n > 0 { BitOfShr(x / 2, n - 1, k); }
  }

  lemma {:induction false} BitOfShl(x: nat, n: nat, k: nat)
    ensures BitOf(Shl(x, n), k) == if k < n then 0 else BitOf(x, k - n)
  {
    if n > 0 && k > 0 { BitOfShl(x, n - 1, k - 1); }
  }

  lemma {:induction false} BitOfAnd(x: nat, y: nat, k: nat)
    ensures BitOf(And(x, y), k) == if BitOf(x, k) == 1 && BitOf(y, k) == 1 then 1 else 0
  {
    if x == 0 || y == 0 {
      BitOfZero(k);
    } else if k > 0 {
      BitOfAnd(x / 2, y / 2, k - 1);
    }
  }

  lemma {:induction false} BitOfOr(x: nat, y: nat, k: nat)
    ensures BitOf(Or(x, y), k) == if BitOf(x, k) == 1 || BitOf(y, k) == 1 then 1 else 0
    decreases k
  {
    if x == 0 || y == 0 {
      BitOfZero(k);
    } else if k > 0 {
      BitOfOr(x / 2, y / 2, k - 1);
    }
  }

  /** A mask of n ones selects the low n bits. */
  lemma {:induction false} AndMask(x: nat, n: nat)
    ensures And(x, Pow2(n) - 1) == Low(x, n)
  {
    if n > 0 {
      var m := Pow2(n) - 1;
      assert m / 2 == Pow2(n - 1) - 1 && m % 2 == 1;
      AndMask(x / 2, n - 1);
      if x == 0 { LowZero(n); }
    }
  }

  lemma {:induction false} LowZero(n: nat)
    ensures Low(0, n) == 0
  {
    if n > 0 { LowZero(n - 1); }
  }

  lemma {:induction false} LowBound(x: nat, n: nat)
    ensures Low(x, n) < Pow2(n)
  {
    if n > 0 { LowBound(x / 2, n - 1); }
  }

  /** A value that already fits is not changed by the mask. */
  lemma {:induction false} LowFits(x: nat, n: nat)
    requires x < Pow2(n)
    ensures Low(x, n) == x
  {
    if n > 0 { LowFits(x / 2, n - 1); }
  }

  lemma {:induction false} LowLow(x: nat, n: nat, m: nat)
    requires m <= n
    ensures Low(Low(x, n), m) == Low(x, m)
  {
    if m > 0 { LowLow(x / 2, n - 1, m - 1); }
  }

  /** A word is its low bits and its shifted high bits. */
  lemma {:induction false} LowShr(x: nat, n: nat)
    ensures x == Low(x, n) + Shl(Shr(x, n), n)
  {
    if n > 0 { LowShr(x / 2, n - 1); }
  }

  /** Shifting left multiplies by a power of two. */
  lemma {:induction false} ShlPow2Mul(x: nat, n: nat)
    ensures Shl(x, n) == Pow2(n) * x
  {
    if n > 0 {
      ShlPow2Mul(x, n - 1);
      assert Pow2(n) * x == 2 * (Pow2(n - 1) * x);
    }
  }

  lemma {:induction false} AndBound(x: nat, y: nat)
    ensures And(x, y) <= x
  {
    if x != 0 && y != 0 { AndBound(x / 2, y / 2); }
  }

  lemma {:induction false} OrBound(x: nat, y: nat, n: nat)
    requires x < Pow2(n) && y < Pow2(n)
    ensures Or(x, y) < Pow2(n)
  {
    if x != 0 && y != 0 { OrBound(x / 2, y / 2, n - 1); }
  }

  /** Or of a short word with a word shifted past it is their sum. */
  lemma {:induction false} OrShl(x: nat, y: nat, k: nat)
    requires x < Pow2(k)
    ensures Or(x, Shl(y, k)) == x + Shl(y, k)
  {
    if k > 0 {
      OrShl(x / 2, y, k - 1);
      var s := Shl(y, k - 1);
      assert Shl(y, k) == 2 * s && (2 * s) / 2 == s;
      if x != 0 && s != 0 {
        assert Or(x, 2 * s) == 2 * Or(x / 2, s) + (if x % 2 == 1 then 1 else 0);
      }
    }
  }

  /** Selecting the bits of a shifted mask. */
  lemma {:induction false} AndShl(v: nat, m: nat, k: nat)
    ensures And(v, Shl(m, k)) == Shl(And(Shr(v, k), m), k)
  {
    if k > 0 {
      assert Shl(m, k) / 2 == Shl(m, k - 1) && Shl(m, k) % 2 == 0;
      AndShl(v / 2, m, k - 1);
      if v == 0 {
        ShrFits(0, k);
        ShlZero(k);
      }
    }
  }

  lemma {:induction false} ShlZero(k: nat)
    ensures Shl(0, k) == 0
  {
    if k > 0 { ShlZero(k - 1); }
  }

  lemma {:induction false} ShlAdd(x: nat, a: nat, b: nat)
    ensures Shl(Shl(x, a), b) == Shl(x, a + b)
  {
    if b > 0 { ShlAdd(x, a, b - 1); }
  }

  lemma {:induction false} ShlPow2(n: nat)
    ensures Shl(1, n) == Pow2(n)
  {
    if n > 0 { ShlPow2(n - 1); }
  }

  lemma {:induction false} ShlBound(x: nat, a: nat, b: nat)
    requires x < Pow2(a)
    ensures Shl(x, b) <= Pow2(a + b) - Pow2(b)
    ensures Shl(x, b) < Pow2(a + b)
  {
    if b > 0 {
      ShlBound(x, a, b - 1);
    }
  }

  lemma {:induction false} Pow2Monotone(a: nat, b: nat)
    requires a <= b
    ensures Pow2(a) <= Pow2(b)
  {
    if a < b { Pow2Monotone(a, b - 1); }
  }

  lemma Pow2Values()
    ensures Pow2(1) == 2 && Pow2(8) == 0x100 && Pow2(16) == 0x1_0000 && Pow2(24) == 0x100_0000
    ensures Pow2(32) == 0x1_0000_0000 && Pow2(40) == 0x100_0000_0000
    ensures Pow2(52) == 0x10_0000_0000_0000 && Pow2(60) == 0x1000_0000_0000_0000
    ensures Pow2(64) == 0x1_0000_0000_0000_0000
  {
    assert Pow2(4) == 16;
    assert Pow2(8) == 0x100;
    assert Pow2(12) == 0x1000;
    assert Pow2(16) == 0x1_0000;
    assert Pow2(20) == 0x10_0000;
    assert Pow2(24) == 0x100_0000;
    assert Pow2(28) == 0x1000_0000;
    assert Pow2(32) == 0x1_0000_0000;
    assert Pow2(36) == 0x10_0000_0000;
    assert Pow2(40) == 0x100_0000_0000;
    assert Pow2(44) == 0x1000_0000_0000;
    assert Pow2(48) == 0x1_0000_0000_0000;
    assert Pow2(52) == 0x10_0000_0000_0000;
    assert Pow2(56) == 0x100_0000_0000_0000;
    assert Pow2(60) == 0x1000_0000_0000_0000;
  }

  /** Two words whose bits agree are equal. */
  lemma {:induction false} SameBits(x: nat, y: nat)
    requires forall k: nat :: BitOf(x, k) == BitOf(y, k)
    ensures x == y
    decreases x + y
  {
    assert BitOf(x, 0) == BitOf(y, 0);
    if x + y > 0 {
      forall k: nat ensures BitOf(x / 2, k) == BitOf(y / 2, k) {
        assert BitOf(x, k + 1) == BitOf(y, k + 1);
      }
      SameBits(x / 2, y / 2);
    }
  }

  lemma {:induction false} FitsBits(x: nat, n: nat, k: nat)
    requires x < Pow2(n) && n <= k
    ensures BitOf(x, k) == 0
  {
    if k > 0 {
      if n == 0 { BitOfZero(k); } else { FitsBits(x / 2, n - 1, k - 1); }
    }
  }

  // ----- the bit-addressed disk -----

  /** Bit i of the byte sequence, least significant bit of each byte first; 0 past the end. */
  function Bit(d: Disk, i: nat): (b: nat)
    ensures b <= 1
  {
    if i / 8 < |d| then BitOf(d[i / 8], i % 8) else 0
  }

  /** The n-bit little-endian, LSB-first value stored at bit offset off. */
  function Slice(d: Disk, off: nat, n: nat): nat
    decreases |d| + off + 2 * n  // mentions every parameter, so that a literal width alone is not unrolled
  {
    if n == 0 then 0 else Bit(d, off) + 2 * Slice(d, off + 1, n - 1)
  }

  lemma {:induction false} SliceBound(d: Disk, off: nat, n: nat)
    ensures Slice(d, off, n) < Pow2(n)
    decreases n
  {
    if n > 0 { SliceBound(d, off + 1, n - 1); }
  }

  lemma {:induction false} BitOfSlice(d: Disk, off: nat, n: nat, k: nat)
    ensures BitOf(Slice(d, off, n), k) == if k < n then Bit(d, off + k) else 0
    decreases n
  {
    if n == 0 {
      BitOfZero(k);
    } else if k > 0 {
      BitOfSlice(d, off + 1, n - 1, k - 1);
    }
  }

  lemma {:induction false} SliceSplit(d: Disk, off: nat, a: nat, b: nat)
    ensures Slice(d, off, a + b) == Slice(d, off, a) + Shl(Slice(d, off + a, b), a)
    decreases a
  {
    if a > 0 { SliceSplit(d, off + 1, a - 1, b); }
  }

  lemma {:induction false} LowSlice(d: Disk, off: nat, n: nat, m: nat)
    requires m <= n
    ensures Low(Slice(d, off, n), m) == Slice(d, off, m)
    decreases m
  {
    if m > 0 { LowSlice(d, off + 1, n - 1, m - 1); }
  }

  /** Two slices with the same bits are equal; the disks and offsets may differ. */
  lemma {:induction false} SliceFrame(d: Disk, off: nat, e: Disk, eoff: nat, n: nat)
    requires forall i :: off <= i < off + n ==> Bit(d, i) == Bit(e, i - off + eoff)
    ensures Slice(d, off, n) == Slice(e, eoff, n)
    decreases n
  {
    if n > 0 {
      SliceFrame(d, off + 1, e, eoff + 1, n - 1);
    }
  }

  lemma {:induction false} SliceInByte(d: Disk, k: nat, j: nat)
    requires k < |d| && j <= 8
    ensures Slice(d, 8 * k + j, 8 - j) == Shr(d[k], j)
    decreases 8 - j
  {
    var x: nat := d[k];
    if j < 8 {
      SliceInByte(d, k, j + 1);
      ShrStep(x, j);
      BitOfShr(x, j, 0);
      assert (8 * k + j) / 8 == k && (8 * k + j) % 8 == j;
    } else {
      Pow2Values();
      ShrFits(x, 8);
    }
  }

  lemma {:induction false} ShrStep(x: nat, n: nat)
    ensures Shr(x, n + 1) == Shr(x, n) / 2
  {
    if n > 0 { ShrStep(x / 2, n - 1); }
  }

  lemma {:induction false} ShrFits(x: nat, n: nat)
    requires x < Pow2(n)
    ensures Shr(x, n) == 0
  {
    if n > 0 { ShrFits(x / 2, n - 1); }
  }

  /** A byte-aligned 8-bit slice is the byte. */
  lemma SliceByte(d: Disk, k: nat)
    requires k < |d|
    ensures Slice(d, 8 * k, 8) == d[k]
  {
    SliceInByte(d, k, 0);
  }

  /** Bytes k, k + 1 and so on as a little-endian number. */
  function Le16(d: Disk, k: nat): nat requires k + 2 <= |d| { (d[k] as int) + 256 * (d[k + 1] as int) }
  function Le32(d: Disk, k: nat): nat requires k + 4 <= |d| { Le16(d, k) + 65536 * Le16(d, k + 2) }

  lemma JoinSlices(d: Disk, off: nat, a: nat, b: nat)
    ensures Slice(d, off, a + b) == Slice(d, off, a) + Pow2(a) * Slice(d, off + a, b)
  {
    SliceSplit(d, off, a, b);
    ShlPow2Mul(Slice(d, off + a, b), a);
  }

  /** Byte-aligned slices are little-endian numbers. */
  lemma SliceLe16(d: Disk, k: nat)
    requires k + 2 <= |d|
    ensures Slice(d, 8 * k, 16) == Le16(d, k)
  {
    SliceByte(d, k);
    SliceByte(d, k + 1);
    assert Pow2(8) == 256 by { Pow2Values(); }
    JoinSlices(d, 8 * k, 8, 8);
  }

  lemma SliceLe32(d: Disk, k: nat)
    requires k + 4 <= |d|
    ensures Slice(d, 8 * k, 32) == Le32(d, k)
  {
    SliceLe16(d, k);
    SliceLe16(d, k + 2);
    assert Pow2(16) == 65536 by { Pow2Values(); }
    JoinSlices(d, 8 * k, 16, 16);
  }

  /** Two disks of the same length with the same bits are the same disk. */
  lemma SameDisk(d: Disk, e: Disk)
    requires |d| == |e|
    requires forall i: nat :: Bit(d, i) == Bit(e, i)
    ensures d == e
  {
    forall k | 0 <= k < |d| ensures d[k] == e[k] {
      SliceFrame(d, 8 * k, e, 8 * k, 8);
      SliceByte(d, k);
      SliceByte(e, k);
    }
  }

  lemma SameByte(d: Disk, k: nat, e: Disk, m: nat)
    requires k < |d| && m < |e|
    requires forall i :: 8 * k <= i < 8 * k + 8 ==> Bit(d, i) == Bit(e, i - 8 * k + 8 * m)
    ensures d[k] == e[m]
  {
    SliceFrame(d, 8 * k, e, 8 * m, 8);
    SliceByte(d, k);
    SliceByte(e, m);
  }

  /** Bytes whose bits agree are equal, for moved and unmoved data alike. */
  lemma SameBytes(d: Disk, a: nat, e: Disk, b: nat, n: nat)
    requires a + n <= |d| && b + n <= |e|
    requires forall i :: 8 * a <= i < 8 * (a + n) ==> Bit(d, i) == Bit(e, i - 8 * a + 8 * b)
    ensures d[a..a + n] == e[b..b + n]
  {
    forall k | a <= k < a + n ensures d[k] == e[k - a + b] {
      var m := k - a + b;
      assert 8 * m - 8 * k == 8 * b - 8 * a;
      SameByte(d, k, e, m);
    }
    var s, t := d[a..a + n], e[b..b + n];
    forall j | 0 <= j < n ensures s[j] == t[j] {
      assert d[a + j] == e[a + j - a + b];
    }
  }
}
