/** The in-memory bitmap: a byte array changed in place, byte by byte. */
module Bitmap {
  import opened Bits

  /** bits [s, s + m) of a byte set or cleared by a mask */
  function MarkByte(b: Byte, s: nat, m: nat, v: bool): nat
    requires s + m <= 8
  {
    MaskBound(s, m);
    if v then Or(b, Shl(Pow2(m) - 1, s)) else And(b, 255 - Shl(Pow2(m) - 1, s))
  }

  lemma MaskBound(s: nat, m: nat)
    requires s + m <= 8
    ensures Shl(Pow2(m) - 1, s) < 256
  {
    ShlBound(Pow2(m) - 1, m, s);
    Pow2Monotone(m + s, 8);
    Pow2Values();
  }

  lemma {:induction false} LowOnes(n: nat, k: nat)
    ensures BitOf(Pow2(n) - 1, k) == if k < n then 1 else 0
  {
    if n == 0 {
      BitOfZero(k);
    } else if k > 0 {
      assert (Pow2(n) - 1) / 2 == Pow2(n - 1) - 1;
      LowOnes(n - 1, k - 1);
    }
  }

  /** The complement within n bits. */
  lemma {:induction false} NotBits(x: nat, n: nat, k: nat)
    requires x < Pow2(n) && k < n
    ensures BitOf(Pow2(n) - 1 - x, k) == 1 - BitOf(x, k)
  {
    if k > 0 {
      assert (Pow2(n) - 1 - x) / 2 == Pow2(n - 1) - 1 - x / 2;
      NotBits(x / 2, n - 1, k - 1);
    }
  }

  /** The bits of the mask of m ones from bit s on. */
  lemma MaskBits(s: nat, m: nat, k: nat)
    requires s + m <= 8
    ensures BitOf(Shl(Pow2(m) - 1, s), k) == if s <= k < s + m then 1 else 0
  {
    BitOfShl(Pow2(m) - 1, s, k);
    if k >= s { LowOnes(m, k - s); }
  }

  lemma MarkByteBits(b: Byte, s: nat, m: nat, v: bool, k: nat)
    requires s + m <= 8 && k < 8
    ensures BitOf(MarkByte(b, s, m, v), k) == if s <= k < s + m then (if v then 1 else 0) else BitOf(b, k)
  {
    MaskBound(s, m);
    MaskBits(s, m, k);
    var mask := Shl(Pow2(m) - 1, s);
    if v { SetBits(b, mask, k); } else { ClearBits(b, mask, k); }
  }

  lemma SetBits(b: Byte, mask: nat, k: nat)
    ensures BitOf(Or(b, mask), k) == if BitOf(mask, k) == 1 then 1 else BitOf(b, k)
  {
    BitOfOr(b, mask, k);
  }

  lemma ClearBits(b: Byte, mask: nat, k: nat)
    requires mask < 256 && k < 8
    ensures BitOf(And(b, 255 - mask), k) == if BitOf(mask, k) == 1 then 0 else BitOf(b, k)
  {
    BitOfAnd(b, 255 - mask, k);
    NotByte(mask, k);
  }

  lemma NotByte(mask: nat, k: nat)
    requires mask < 256 && k < 8
    ensures BitOf(255 - mask, k) == 1 - BitOf(mask, k)
  {
    Pow2Values();
    NotBits(mask, 8, k);
  }

  lemma MarkByteRange(b: Byte, s: nat, m: nat, v: bool)
    requires s + m <= 8
    ensures MarkByte(b, s, m, v) < 256
  {
    MaskBound(s, m);
    if v {
      OrBound(b, Shl(Pow2(m) - 1, s), 8);
    } else {
      AndBound(b, 255 - Shl(Pow2(m) - 1, s));
    }
    Pow2Values();
  }

  lemma {:induction false} OrBound(x: nat, y: nat, n: nat)
    requires x < Pow2(n) && y < Pow2(n)
    ensures Or(x, y) < Pow2(n)
    decreases n
  {
    if n > 0 { OrBound(x / 2, y / 2, n - 1); }
  }

  lemma {:induction false} AndBound(x: nat, y: nat)
    ensures And(x, y) <= x
  {
    if x != 0 && y != 0 { AndBound(x / 2, y / 2); }
  }

  lemma AndOneBit(b: nat, k: nat)
    ensures And(b, Shl(1, k)) != 0 <==> BitOf(b, k) == 1
  {
    AndShl(b, 1, k);
    BitOfShr(b, k, 0);
    var s := Shr(b, k);
    Pow2Values();
    AndMask(s, 1);
    ShlZero(k);
    ShlPow2(k);
  }

  /** Bit i after bits [off, off + n) have been marked. */
  function Marked(was: seq<Byte>, off: int, n: int, v: bool, i: nat): nat {
    if off <= i < off + n then (if v then 1 else 0) else Bit(was, i)
  }

  ghost predicate IsMarked(was: seq<Byte>, now: seq<Byte>, off: int, n: int, v: bool) {
    |now| == |was| && forall i: nat :: Bit(now, i) == Marked(was, off, n, v, i)
  }

  lemma MarkOneByte(was: seq<Byte>, k: nat, s: nat, m: nat, v: bool, b: Byte)
    requires k < |was| && s + m <= 8 && b == MarkByte(was[k], s, m, v)
    ensures IsMarked(was, was[k := b], 8 * k + s, m, v)
  {
    var now, off := was[k := b], 8 * k + s;
    forall i: nat ensures Bit(now, i) == Marked(was, off, m, v, i) {
      if i / 8 == k {
        MarkByteBits(was[k], s, m, v, i % 8);
      }
    }
  }

  lemma MarkWholeByte(was: seq<Byte>, k: nat, v: bool, b: Byte)
    requires k < |was| && b == if v then 255 else 0
    ensures IsMarked(was, was[k := b], 8 * k, 8, v)
  {
    forall i: nat ensures Bit(was[k := b], i) == Marked(was, 8 * k, 8, v, i) {
      if i / 8 == k {
        Pow2Values();
        LowOnes(8, i % 8);
        BitOfZero(i % 8);
      }
    }
  }

  /** Marking a range and then the range behind it marks both. */
  lemma MarkedThen(a: seq<Byte>, b: seq<Byte>, c: seq<Byte>, off: nat, n: nat, m: nat, v: bool)
    requires IsMarked(a, b, off, n, v) && IsMarked(b, c, off + n, m, v)
    ensures IsMarked(a, c, off, n + m, v)
  {
    forall i: nat ensures Bit(c, i) == Marked(a, off, n + m, v, i) {
      assert Bit(c, i) == Marked(b, off + n, m, v, i);
      assert Bit(b, i) == Marked(a, off, n, v, i);
    }
  }

  class Bmp {
    const data: array<Byte>
    const size: nat

    ghost predicate Valid() {
      data.Length == (size + 7) / 8
    }

    constructor (elements: nat)
      ensures Valid() && size == elements && fresh(data)
      ensures forall i: nat :: Bit(data[..], i) == 0
    {
      size := elements;
      data := new Byte[(elements + 7) / 8](_ => 0);
      new;
      forall i: nat ensures Bit(data[..], i) == 0 {
        BitOfZero(i % 8);
      }
    }

    method MarkInByte(k: nat, s: nat, m: nat, v: bool)
      requires k < data.Length && s + m <= 8
      modifies data
      ensures IsMarked(old(data[..]), data[..], 8 * k + s, m, v)
    {
      MarkByteRange(data[k], s, m, v);
      MarkOneByte(data[..], k, s, m, v, MarkByte(data[k], s, m, v));
      ghost var was := data[..];
      data[k] := MarkByte(data[k], s, m, v);
      assert data[..] == was[k := data[k]];
    }

    method MarkBytes(k: nat, c: nat, v: bool)
      requires k + c <= data.Length
      modifies data
      ensures IsMarked(old(data[..]), data[..], 8 * k, 8 * c, v)
    {
      ghost var first := data[..];
      var i := 0;
      while i < c
        invariant 0 <= i <= c
        invariant IsMarked(first, data[..], 8 * k, 8 * i, v)
      {
        ghost var was := data[..];
        MarkWholeByte(was, i + k, v, if v then 255 else 0);
        data[i + k] := if v then 0xff else 0;
        assert data[..] == was[i + k := data[i + k]];
        assert 8 * (i + k) == 8 * k + 8 * i;
        MarkedThen(first, was, data[..], 8 * k, 8 * i, 8, v);
        i := i + 1;
      }
    }

    /** bmp_set and bmp_unset: bits on the left, full bytes, bits on the right.
        Exactly the bits [offset, offset + n) change. */
    method Mark(offset: nat, n: nat, v: bool)
      requires Valid() && offset + n <= size && (n > 0 || offset > 0)
      modifies data
      ensures IsMarked(old(data[..]), data[..], offset, n, v)
    {
      ghost var first := data[..];
      var count, off := n, offset;
      if off % 8 != 0 {
        var i := 8 - off % 8;
        if count < i {
          i := count;
        }
        MarkInByte(offset / 8, off % 8, i, v);
        off := off + i;
        count := count - i;
      }
      assert IsMarked(first, data[..], offset, off - offset, v);
      if count > 0 {
        assert off % 8 == 0;
        ghost var mid := data[..];
        var k, c, rest := off / 8, count / 8, count % 8;
        MarkBytes(k, c, v);
        MarkedThen(first, mid, data[..], offset, off - offset, 8 * c, v);
        if rest != 0 {
          mid := data[..];
          MarkInByte(c + k, 0, rest, v);
          MarkedThen(first, mid, data[..], offset, off - offset + 8 * c, rest, v);
        }
      }
    }

    /** bmp_is_set. */
    method IsSet(offset: nat) returns (b: bool)
      requires Valid() && offset < size
      ensures b <==> Bit(data[..], offset) == 1
    {
      AndOneBit(data[offset / 8], offset % 8);
      b := And(data[offset / 8], Shl(1, offset % 8)) != 0;
    }

    /** bmp_count_contig_set and bmp_count_contig_avail: the length of the run of equal bits
        at offset, up to the end of the last byte. */
    method CountContig(offset: nat, v: bool) returns (n: nat)
      requires Valid() && offset < size
      ensures forall i :: offset <= i < offset + n ==> Bit(data[..], i) == if v then 1 else 0
      ensures offset + n <= 8 * data.Length
      ensures offset + n == 8 * data.Length || Bit(data[..], offset + n) == if v then 0 else 1
    {
      n := 0;
      var i, first := offset / 8, offset % 8;
      while i < data.Length
        invariant offset / 8 <= i <= data.Length
        invariant 0 <= first < 8 && offset + n == 8 * i + first
        invariant i == data.Length ==> first == 0
        invariant forall t :: offset <= t < offset + n ==> Bit(data[..], t) == if v then 1 else 0
      {
        var ii := first;
        while ii < 8
          invariant first <= ii <= 8 && offset + n == 8 * i + ii
          invariant forall t :: offset <= t < offset + n ==> Bit(data[..], t) == if v then 1 else 0
        {
          AndOneBit(data[i], ii);
          assert (8 * i + ii) / 8 == i && (8 * i + ii) % 8 == ii;
          assert Bit(data[..], offset + n) == BitOf(data[i], ii);
          if (And(data[i], Shl(1, ii)) != 0) == v {
            n := n + 1;
          } else {
            return;
          }
          ii := ii + 1;
        }
        first := 0;
        i := i + 1;
      }
    }
  }
}
