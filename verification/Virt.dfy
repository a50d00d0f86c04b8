/** Virtual addresses: the cached translation of a mapping, the search for an element of a
    virtual type, and reads through a mapping. */
module Virt {
  import opened Arith
  import opened Bits
  import opened Pread
  import opened PhysRead

  const VIRT_CACHE_ENTS: nat := 8
  const OFFSET_INVALID: nat := U64 - 1
  const OFFSET_EOF: nat := U64 - 2

  predicate IsBad(off: nat) { off >= OFFSET_EOF }

  // ----- translation -----

  /** Where element idx of the source starts: the thunk it_range on an unchanging disk. */
  type Range = nat -> nat

  /** The physical address of virtual bit off. */
  function Phys(range: Range, min: nat, srcsz: nat, off: nat): nat
    requires srcsz > 0
  {
    At(range, min, off / srcsz, off % srcsz)
  }

  /** Bit o of source element q. */
  function At(range: Range, min: nat, q: nat, o: nat): nat { (range(min + q) + o) % U64 }

  /** The source with its index cut to 32 bits, as the cache does. */
  function Narrow(range: Range): Range { i => range(i % U32) }

  /** Which changes nothing for a source whose indices fit. */
  lemma NarrowSame(range: Range, min: nat, max: nat, srcsz: nat, off: nat)
    requires srcsz > 0 && min <= max < U32 && off < srcsz * (max - min + 1)
    ensures Phys(Narrow(range), min, srcsz, off) == Phys(range, min, srcsz, off)
  {
    DivBelow(off, srcsz, max - min + 1);
    var i := min + off / srcsz;
    assert i % U32 == i;
  }

  /** Bit o of element q of the source is virtual bit srcsz * q + o. */
  lemma ElementBit(range: Range, min: nat, srcsz: nat, q: nat, o: nat)
    requires o < srcsz && range(min + q) + o < U64
    ensures Phys(range, min, srcsz, srcsz * q + o) == range(min + q) + o
  {
    Quotient(srcsz, srcsz * q + o, q, o);
  }

  datatype Slot = Slot(idx: nat, off: nat)

  /** A mapping with its direct-mapped cache of element offsets. */
  class Mapping {
    const range: Range
    const min: nat
    const max: nat
    const srcsz: nat
    const cache: array<Slot>

    /** A slot whose tag belongs there holds the offset of that element. */
    ghost predicate Valid()
      reads this, cache
    {
      && cache.Length == VIRT_CACHE_ENTS && srcsz > 0 && min <= max
      && forall i :: 0 <= i < VIRT_CACHE_ENTS && cache[i].idx % VIRT_CACHE_ENTS == i ==>
          cache[i].off == range(cache[i].idx)
    }

    ghost function Map(): nat -> nat requires srcsz > 0 { Translation(Narrow(range), min, srcsz) }

    function TotalBits(): nat
      requires min <= max
    {
      srcsz * (max - min + 1)
    }

    /** The initial tag of slot i is i + 1, which belongs to another slot. The cached offsets
        start as whatever was in memory. */
    constructor (range: Range, min: nat, max: nat, srcsz: nat, junk: nat)
      requires srcsz > 0 && min <= max
      ensures Valid() && fresh(cache)
      ensures this.range == range && this.min == min && this.max == max && this.srcsz == srcsz
    {
      this.range, this.min, this.max, this.srcsz := range, min, max, srcsz;
      cache := new Slot[VIRT_CACHE_ENTS](i => Slot(if i >= 0 then i + 1 else 0, junk));
    }

    /** The cache takes its index as a C int. An index that turns negative there is outside
        the table. */
    method XlateIndex(idx: nat) returns (base: nat)
      requires Valid() && idx % U32 < 0x8000_0000
      modifies cache
      ensures Valid() && base == Narrow(range)(idx)
    {
      var i := idx % U32;
      var slot := i % VIRT_CACHE_ENTS;
      base := if cache[slot].idx != i then OFFSET_INVALID else cache[slot].off;
      if base == OFFSET_INVALID {
        base := range(i);
        cache[slot] := Slot(i, base);
      }
    }

    /** The index of the element of bit off is not negative as a C int. */
    predicate IndexFits(off: nat) requires srcsz > 0 { (min + off / srcsz) % U32 < 0x8000_0000 }

    /** Every translation, whatever was looked up before, is the uncached one. */
    method Xlate(off: nat, unsafeOp: bool) returns (r: nat, err: bool)
      requires Valid() && (if off >= TotalBits() then unsafeOp else IndexFits(off))
      modifies cache
      ensures Valid() && err == (off >= TotalBits())
      ensures err ==> r == OFFSET_INVALID
      ensures !err ==> r == Map()(off)
    {
      if off >= TotalBits() && unsafeOp {
        return OFFSET_INVALID, true;
      }
      var idx := min + off / srcsz;
      var base := XlateIndex(idx);
      r, err := (base + off % srcsz) % U64, false;
    }
  }

  /** The bits of a mapping are those of the source elements min .. max. */
  lemma InMapping(m: Mapping, off: nat)
    requires m.srcsz > 0 && m.min <= m.max
    ensures off < m.TotalBits() <==> m.min + off / m.srcsz <= m.max
  {
    var q, n := off / m.srcsz, m.max - m.min + 1;
    assert off == m.srcsz * q + off % m.srcsz;
    DivBelow(off, m.srcsz, n);
    TimesLe(m.srcsz, q + 1, n);
    assert m.srcsz * (q + 1) == m.srcsz * q + m.srcsz;
  }

  // ----- the n-th element of a virtual type -----

  /** Size of the element at a virtual offset, and whether computing it leaves the mapping. */
  datatype Sizes = Sizes(size: nat -> nat, outside: nat -> bool)

  /** The offset of element i, in 64-bit arithmetic. */
  function Start(s: Sizes, i: nat): nat {
    if i == 0 then 0 else (Start(s, i - 1) + s.size(Start(s, i - 1))) % U64
  }

  /** Elements 0 .. i are inside a range of the given size and none of them but the last may be empty. */
  predicate Fits(s: Sizes, total: nat, i: nat) {
    i == 0 || (Fits(s, total, i - 1) && Start(s, i) < total && s.size(Start(s, i - 1)) != 0)
  }

  predicate LastFits(s: Sizes, total: nat, i: nat) {
    !s.outside(Start(s, i)) && (s.size(Start(s, i)) + Start(s, i)) % U64 <= total
  }

  /** fsl_virt_get_nth: the offset of the element, or an invalid offset exactly when the
      element does not exist. */
  method GetNth(s: Sizes, total: nat, target: nat) returns (r: nat)
    requires total < OFFSET_EOF
    ensures !IsBad(r) <==> target == 0 || (Fits(s, total, target) && LastFits(s, total, target))
    ensures !IsBad(r) ==> r == Start(s, target)
    ensures r == OFFSET_INVALID || r == OFFSET_EOF || !IsBad(r)
  {
    if target == 0 { return 0; }
    var i, off := 0, 0;
    while i < target
      invariant 0 <= i <= target && off == Start(s, i) && Fits(s, total, i)
    {
      var size := s.size(off);
      off := (off + size) % U64;
      if off >= total {
        NotFurther(s, total, i + 1, target);
        return OFFSET_INVALID;
      }
      if size == 0 {
        NotFurther(s, total, i + 1, target);
        return OFFSET_EOF;
      }
      i := i + 1;
    }
    if s.outside(off) || (s.size(off) + off) % U64 > total {
      return OFFSET_EOF;
    }
    r := off;
  }

  lemma {:induction false} NotFurther(s: Sizes, total: nat, i: nat, n: nat)
    requires i <= n && !Fits(s, total, i)
    ensures !Fits(s, total, n)
  {
    if i < n { NotFurther(s, total, i, n - 1); }
  }

  lemma {:induction false} FitsBefore(s: Sizes, total: nat, i: nat, n: nat)
    requires i <= n && Fits(s, total, n)
    ensures Fits(s, total, i)
  {
    if i < n { FitsBefore(s, total, i, n - 1); }
  }

  /** The element of index i exists. */
  predicate Accepted(s: Sizes, total: nat, i: nat) { i == 0 || (Fits(s, total, i) && LastFits(s, total, i)) }

  // ----- sizes that wrap around -----

  /** Elements a and b, which fit, start at the same offset: some size between them wrapped. */
  predicate Repeats(s: Sizes, total: nat, a: nat, b: nat) {
    a < b && Fits(s, total, b) && Start(s, a) == Start(s, b)
  }

  lemma {:induction false} Period(s: Sizes, total: nat, a: nat, b: nat, n: nat)
    requires Repeats(s, total, a, b) && a <= n
    ensures Start(s, n) == Start(s, n + (b - a))
  {
    if a < n { Period(s, total, a, b, n - 1); }
  }

  /** From then on every element fits. */
  lemma {:induction false} AllFit(s: Sizes, total: nat, a: nat, b: nat, n: nat)
    requires Repeats(s, total, a, b)
    ensures Fits(s, total, n)
  {
    if n <= b {
      FitsBefore(s, total, n, b);
    } else {
      var p := b - a;
      AllFit(s, total, a, b, n - 1);
      FitsBefore(s, total, n - p, n - 1);
      Period(s, total, a, b, n - p);
      Period(s, total, a, b, n - 1 - p);
    }
  }

  /** The index t periods of p after j. */
  function Ahead(j: nat, p: nat, t: nat): nat { if t == 0 then j else Ahead(j, p, t - 1) + p }

  lemma {:induction false} SameAhead(s: Sizes, total: nat, a: nat, b: nat, j: nat, t: nat)
    requires Repeats(s, total, a, b) && a < j
    ensures Start(s, Ahead(j, b - a, t)) == Start(s, j) && Ahead(j, b - a, t) >= j
  {
    if t > 0 {
      SameAhead(s, total, a, b, j, t - 1);
      Period(s, total, a, b, Ahead(j, b - a, t - 1));
    }
  }

  /** An element after a is some periods after one of the elements a + 1 .. b, and starts there. */
  lemma {:induction false} Earlier(s: Sizes, total: nat, a: nat, b: nat, i: nat) returns (j: nat, t: nat)
    requires Repeats(s, total, a, b) && a < i
    ensures a < j <= b && Start(s, j) == Start(s, i) && i == Ahead(j, b - a, t)
    decreases i
  {
    if i <= b {
      j, t := i, 0;
    } else {
      Period(s, total, a, b, i - (b - a));
      j, t := Earlier(s, total, a, b, i - (b - a));
      t := t + 1;
    }
  }

  ghost function Starts(s: Sizes, n: nat): set<nat> {
    if n == 0 then {} else Starts(s, n - 1) + {Start(s, n - 1)}
  }

  lemma {:induction false} StartsHas(s: Sizes, n: nat, x: nat) returns (i: nat)
    requires x in Starts(s, n)
    ensures i < n && Start(s, i) == x
  {
    if x == Start(s, n - 1) { i := n - 1; } else { i := StartsHas(s, n - 1, x); }
  }

  /** The first n starts are n different offsets of the range, or two of them are the same. */
  lemma {:induction false} RepeatOrMany(s: Sizes, total: nat, n: nat) returns (found: bool, a: nat, b: nat)
    requires total > 0 && (n > 0 ==> Fits(s, total, n - 1))
    ensures found ==> b < n && Repeats(s, total, a, b)
    ensures !found ==> |Starts(s, n)| == n && forall x :: x in Starts(s, n) ==> x < total
  {
    found, a, b := false, 0, 0;
    if n > 0 {
      if n > 1 { FitsBefore(s, total, n - 2, n - 1); }
      found, a, b := RepeatOrMany(s, total, n - 1);
      if !found && Start(s, n - 1) in Starts(s, n - 1) {
        a := StartsHas(s, n - 1, Start(s, n - 1));
        found, b := true, n - 1;
      }
    }
  }

  /** There are only as many offsets as the range has bits. */
  lemma Pigeonhole(s: Sizes, total: nat, n: nat) returns (a: nat, b: nat)
    requires 0 < total <= n && Fits(s, total, n)
    ensures b <= total && Repeats(s, total, a, b)
  {
    FitsBefore(s, total, total, n);
    var found;
    found, a, b := RepeatOrMany(s, total, total + 1);
    if !found { SetBelow(Starts(s, total + 1), total); }
  }

  /** What a caller can look at: among the first elements, as many as the range has bits, two
      start at the same offset, and one after the first of them passes the bounds check and
      comes back at an index that is past the bit count and still has 32 bits. */
  ghost predicate ComesBack(s: Sizes, total: nat) {
    exists a: nat, b: nat, j: nat, t: nat :: Returns(s, total, a, b, j, t)
  }

  predicate Returns(s: Sizes, total: nat, a: nat, b: nat, j: nat, t: nat) {
    && Repeats(s, total, a, b) && LastFits(s, total, j) && a < j <= b <= total
    && total <= Ahead(j, b - a, t) < U32
  }

  /** An index at or past the bit count of the range is accepted exactly in that case. */
  lemma AcceptedPastEnd(s: Sizes, total: nat)
    ensures (exists i: nat :: 1 <= i < U32 && i >= total && Accepted(s, total, i)) <==> ComesBack(s, total)
  {
    if i: nat :| 1 <= i < U32 && i >= total && Accepted(s, total, i) {
      PastEndComesBack(s, total, i);
    }
    if ComesBack(s, total) {
      var a: nat, b: nat, j: nat, t: nat :| Returns(s, total, a, b, j, t);
      var i := BackAccepted(s, total, a, b, j, t);
    }
  }

  lemma BackAccepted(s: Sizes, total: nat, a: nat, b: nat, j: nat, t: nat) returns (i: nat)
    requires Returns(s, total, a, b, j, t)
    ensures 1 <= i < U32 && i >= total && Accepted(s, total, i)
  {
    i := Ahead(j, b - a, t);
    SameAhead(s, total, a, b, j, t);
    AllFit(s, total, a, b, i);
  }

  lemma PastEndComesBack(s: Sizes, total: nat, i: nat)
    requires 1 <= i < U32 && i >= total && Accepted(s, total, i)
    ensures ComesBack(s, total)
  {
    FitsBefore(s, total, 1, i);
    var a, b := Pigeonhole(s, total, i);
    var j, t := Earlier(s, total, a, b, i);
    assert Returns(s, total, a, b, j, t);
  }

  /** As a guarantee of fsl_virt_get_nth, whose index has 32 bits. */
  method GetNthBounded(s: Sizes, total: nat, target: nat) returns (r: nat)
    requires total < OFFSET_EOF && !ComesBack(s, total) && target < U32
    ensures target >= total && target >= 1 ==> IsBad(r)
  {
    r := GetNth(s, total, target);
    AcceptedPastEnd(s, total);
    assert Accepted(s, total, target) <==> !IsBad(r);
  }

  /** No size wraps the 64-bit sum. */
  ghost predicate NoWrap(s: Sizes, total: nat) { forall off: nat :: off < total ==> off + s.size(off) < U64 }

  /** Then offsets grow by at least one bit per element, so no index reaches the bit count. */
  lemma {:induction false} IndexBelowBits(s: Sizes, total: nat, i: nat)
    requires total > 0 && Fits(s, total, i) && NoWrap(s, total)
    ensures i <= Start(s, i) < total
  {
    if i > 0 { IndexBelowBits(s, total, i - 1); }
  }

  lemma {:induction false} Growing(s: Sizes, total: nat, a: nat, b: nat)
    requires a < b && Fits(s, total, b) && NoWrap(s, total)
    ensures Start(s, a) < Start(s, b)
  {
    FitsBefore(s, total, 1, b);
    IndexBelowBits(s, total, b - 1);
    if a < b - 1 { Growing(s, total, a, b - 1); }
  }

  lemma NoWrapNeverBack(s: Sizes, total: nat)
    requires NoWrap(s, total)
    ensures !ComesBack(s, total) && !Loops(s, total)
  {
    forall a: nat, b: nat ensures !Repeats(s, total, a, b) {
      if a < b && Fits(s, total, b) { Growing(s, total, a, b); }
    }
  }

  /** The sum of the sizes of the first i elements, without wrapping. */
  function Sum(s: Sizes, i: nat): nat { if i == 0 then 0 else Sum(s, i - 1) + s.size(Sum(s, i - 1)) }

  lemma {:induction false} StartIsSum(s: Sizes, total: nat, i: nat)
    requires NoWrap(s, total) && 0 < total < U64 && forall off: nat :: off < total ==> s.size(off) > 0
    ensures Fits(s, total, i) <==> Sum(s, i) < total
    ensures Fits(s, total, i) ==> Start(s, i) == Sum(s, i)
  {
    if i > 0 {
      StartIsSum(s, total, i - 1);
      if Fits(s, total, i - 1) { StartNext(s, total, i - 1); }
    }
  }

  lemma StartNext(s: Sizes, total: nat, i: nat)
    requires NoWrap(s, total) && Start(s, i) == Sum(s, i) < total < U64
    ensures Start(s, i + 1) == Sum(s, i + 1)
  {
    var off := Start(s, i);
    assert off + s.size(off) < U64;
  }

  /** Without empty and wrapping sizes, an element exists exactly when it starts inside the
      mapping, ends there and can be measured there. */
  lemma AcceptedExactly(s: Sizes, total: nat, i: nat)
    requires NoWrap(s, total) && 0 < total < U64 && forall off: nat :: off < total ==> s.size(off) > 0
    ensures Accepted(s, total, i) <==>
            i == 0 || (Sum(s, i) < total && Sum(s, i + 1) <= total && !s.outside(Sum(s, i)))
  {
    StartIsSum(s, total, i);
  }

  /** A wrapping size alone does no harm: here element 1 wraps, and no index from 3 on fits. */
  function WrapOnce(off: nat): nat { if off == 0 then 8 else if off == 8 then U64 - 4 else 100 }

  lemma WrapWithoutReturn(n: nat)
    requires n >= 3
    ensures var s := Sizes(off => WrapOnce(off), _ => false); Fits(s, 16, 2) && !NoWrap(s, 16) && !Fits(s, 16, n)
  {
    var s := Sizes(off => WrapOnce(off), _ => false);
    assert Start(s, 1) == 8 && Start(s, 2) == 4 && Start(s, 3) == 104;
    assert 8 + s.size(8) >= U64;
    NotFurther(s, 16, 3, n);
  }

  // ----- lists that do not end -----

  /** The list of elements ends before its 32-bit index wraps around and starts over. */
  ghost predicate Bounded(s: Sizes, total: nat) { exists i: nat :: 1 <= i < U32 && !Accepted(s, total, i) }

  /** All elements before index i exist. */
  ghost predicate Reached(s: Sizes, total: nat, i: nat) { forall j: nat :: 1 <= j < i ==> Accepted(s, total, j) }

  lemma ReachedShort(s: Sizes, total: nat, i: nat)
    requires Reached(s, total, i)
    ensures i >= U32 ==> !Bounded(s, total)
  {
  }

  /** The first elements, as many as the range has bits, return to an earlier offset, and all
      of them up to there pass the bounds check. */
  ghost predicate Loops(s: Sizes, total: nat) {
    exists a: nat, b: nat :: b <= total && Repeats(s, total, a, b) && AllLastFit(s, total, b)
  }

  ghost predicate AllLastFit(s: Sizes, total: nat, n: nat) { forall j: nat :: 1 <= j <= n ==> LastFits(s, total, j) }

  lemma Endless(s: Sizes, total: nat, a: nat, b: nat, i: nat)
    requires Repeats(s, total, a, b) && AllLastFit(s, total, b)
    ensures Accepted(s, total, i)
  {
    AllFit(s, total, a, b, i);
    if i > a {
      var j, t := Earlier(s, total, a, b, i);
      assert LastFits(s, total, j);
    }
  }

  lemma LoopsEndless(s: Sizes, total: nat)
    requires Loops(s, total)
    ensures forall i: nat :: Accepted(s, total, i)
  {
    var a: nat, b: nat :| b <= total && Repeats(s, total, a, b) && AllLastFit(s, total, b);
    forall i: nat ensures Accepted(s, total, i) { Endless(s, total, a, b, i); }
  }

  /** All indices up to n accepted, n as large as the bit count: then the list loops. */
  lemma AcceptedSoFar(s: Sizes, total: nat, n: nat)
    requires total <= n && n >= 1 && Reached(s, total, n + 1)
    ensures Loops(s, total)
  {
    assert Accepted(s, total, 1) && Accepted(s, total, n);
    var a, b := Pigeonhole(s, total, n);
    forall j: nat | 1 <= j <= b ensures LastFits(s, total, j) { assert Accepted(s, total, j); }
  }

  /** As many different elements exist as there are indices. */
  ghost predicate TooMany(s: Sizes, total: nat) { Reached(s, total, U32) && |Starts(s, U32)| == U32 }

  /** A list is endless exactly when its elements loop or there are too many of them. */
  lemma EndlessExactly(s: Sizes, total: nat)
    ensures !Bounded(s, total) <==> Loops(s, total) || TooMany(s, total)
  {
    if Loops(s, total) { LoopsEndless(s, total); }
    if !Bounded(s, total) {
      forall i: nat | 1 <= i < U32 ensures Accepted(s, total, i) {}
      LoopsOrTooMany(s, total);
    }
  }

  lemma LoopsOrTooMany(s: Sizes, total: nat)
    requires Reached(s, total, U32)
    ensures Loops(s, total) || TooMany(s, total)
  {
    if total <= U32 - 1 {
      AcceptedSoFar(s, total, U32 - 1);
    } else {
      assert Accepted(s, total, U32 - 1);
      var found, a, b := RepeatOrMany(s, total, U32);
      if found {
        forall j: nat | 1 <= j <= b ensures LastFits(s, total, j) { assert Accepted(s, total, j); }
      }
    }
  }

  /** In a range of fewer than 2^32 bits only looping makes a list endless. */
  lemma BoundedExactly(s: Sizes, total: nat)
    requires total < U32
    ensures Bounded(s, total) <==> !Loops(s, total)
  {
    EndlessExactly(s, total);
    if TooMany(s, total) { AcceptedSoFar(s, total, U32 - 1); }
  }

  /** In a larger one the sizes decide: elements of at least w bits that do not wrap. */
  lemma LargeBounded(s: Sizes, total: nat, w: nat)
    requires NoWrap(s, total) && 0 < total <= w * (U32 - 1) && forall off: nat :: off < total ==> s.size(off) >= w
    ensures Bounded(s, total)
  {
    if Fits(s, total, U32 - 1) { AtLeast(s, total, w, U32 - 1); }
    assert !Accepted(s, total, U32 - 1);
  }

  lemma {:induction false} AtLeast(s: Sizes, total: nat, w: nat, i: nat)
    requires NoWrap(s, total) && total > 0 && Fits(s, total, i) && forall off: nat :: off < total ==> s.size(off) >= w
    ensures w * i <= Start(s, i) < total
  {
    if i > 0 {
      AtLeast(s, total, w, i - 1);
      var least := w * (i - 1);
      assert w * i == least + w;
      assert Start(s, i) == Start(s, i - 1) + s.size(Start(s, i - 1));
    }
  }

  /** One-bit elements in a mapping of 2^33 bits: no offset comes back, and the list is endless
      all the same, because there are more elements than indices. */
  lemma MoreThanIndices()
    ensures var s := Sizes(_ => 1, _ => false); !Bounded(s, 2 * U32) && !Loops(s, 2 * U32)
  {
    var s := Sizes(_ => 1, _ => false);
    forall i: nat | 1 <= i < U32 ensures Accepted(s, 2 * U32, i) { OneBitAt(s, i); }
    NoWrapNeverBack(s, 2 * U32);
  }

  lemma {:induction false} OneBitAt(s: Sizes, i: nat)
    requires s == Sizes(_ => 1, _ => false) && i < U32
    ensures Start(s, i) == i && Fits(s, 2 * U32, i) && LastFits(s, 2 * U32, i)
  {
    if i > 0 {
      OneBitAt(s, i - 1);
      assert Start(s, i) == (i - 1 + 1) % U64 == i;
    }
  }

  /** In a list that ends, only element 0 starts at offset 0. */
  lemma NeverAtZero(s: Sizes, total: nat, i: nat)
    requires i > 0 && Reached(s, total, i) && Accepted(s, total, i) && Start(s, i) == 0
    ensures !Bounded(s, total)
  {
    assert Repeats(s, total, 0, i);
    forall j: nat | 1 <= j <= i ensures LastFits(s, total, j) { assert j < i ==> Accepted(s, total, j); }
    forall n: nat ensures Accepted(s, total, n) { Endless(s, total, 0, i, n); }
  }

  /** Sizes for which every index is accepted, at offsets 32, 96, 32, 96 and so on. */
  function ThereAndBack(off: nat): nat { if off == 0 then 32 else if off == 32 then 64 else U64 - 64 }

  lemma LoopingSizes()
    ensures Loops(Sizes(off => ThereAndBack(off), _ => false), 128)
  {
    var s := Sizes(off => ThereAndBack(off), _ => false);
    assert Start(s, 1) == 32 && Start(s, 2) == 96 && Start(s, 3) == 32;
    assert Fits(s, 128, 1) && Fits(s, 128, 2) && Fits(s, 128, 3);
    assert Repeats(s, 128, 1, 3);
    assert LastFits(s, 128, 1) && LastFits(s, 128, 2) && LastFits(s, 128, 3);
  }

  // ----- reads through a mapping -----

  /** The distance from the first to the last byte of a read of n bits. */
  function Reach(n: nat): nat requires n > 0 { 8 * ((n - 1) / 8) }

  /** The translation of a mapping as a function. */
  function Translation(range: Range, min: nat, srcsz: nat): nat -> nat
    requires srcsz > 0
  {
    off => Phys(range, min, srcsz, off)
  }

  /** What __getLocal checks under translation x: the last byte is where it should be. */
  predicate EndpointsMatch(x: nat -> nat, off: nat, n: nat)
    requires n > 0
  {
    Plus(x(off), Reach(n)) == x(off + Reach(n))
  }

  /** Every byte of the read is where it should be. */
  ghost predicate Contiguous(x: nat -> nat, off: nat, n: nat)
    requires n > 0
  {
    forall j :: 0 <= j <= Reach(n) && j % 8 == 0 ==> x(off + j) == Plus(x(off), j)
  }

  /** The byte j bits further on is in the same element. */
  predicate SameElement(srcsz: nat, off: nat, j: nat) requires srcsz > 0 { off % srcsz + j < srcsz }

  lemma Within(range: Range, min: nat, srcsz: nat, off: nat, j: nat)
    requires srcsz > 0 && SameElement(srcsz, off, j)
    ensures Phys(range, min, srcsz, off + j) == At(range, min, off / srcsz, off % srcsz + j)
  {
    Quotient(srcsz, off + j, off / srcsz, off % srcsz + j);
  }

  lemma Across(range: Range, min: nat, srcsz: nat, off: nat, j: nat)
    requires srcsz > 0 && j <= srcsz && !SameElement(srcsz, off, j)
    ensures off % srcsz + j - srcsz >= 0 && off / srcsz >= 0
    ensures Phys(range, min, srcsz, off + j) == At(range, min, off / srcsz + 1, off % srcsz + j - srcsz)
  {
    var q, o := off / srcsz, off % srcsz;
    assert srcsz * (q + 1) == srcsz * q + srcsz;
    Quotient(srcsz, off + j, q + 1, o + j - srcsz);
  }

  /** A read that touches at most two source elements is contiguous if its endpoints match. */
  lemma EndpointsSuffice(range: Range, min: nat, srcsz: nat, off: nat, n: nat)
    requires srcsz > 0 && srcsz % 8 == 0 && off % 8 == 0 && n > 0 && Reach(n) <= srcsz
    requires EndpointsMatch(Translation(range, min, srcsz), off, n)
    ensures Contiguous(Translation(range, min, srcsz), off, n)
  {
    var x := Translation(range, min, srcsz);
    forall j | 0 <= j <= Reach(n) && j % 8 == 0 ensures x(off + j) == Plus(x(off), j) {
      if SameElement(srcsz, off, j) {
        FirstPart(range, min, srcsz, off, j);
      } else {
        SecondPart(range, min, srcsz, off, Reach(n), j);
      }
    }
  }

  lemma FirstPart(range: Range, min: nat, srcsz: nat, off: nat, j: nat)
    requires srcsz > 0 && SameElement(srcsz, off, j)
    ensures Phys(range, min, srcsz, off + j) == Plus(Phys(range, min, srcsz, off), j)
  {
    Within(range, min, srcsz, off, j);
    PlusAt(range, min, off / srcsz, off % srcsz, j);
  }

  lemma PlusAt(range: Range, min: nat, q: nat, o: nat, j: nat)
    ensures Plus(At(range, min, q, o), j) == At(range, min, q, o + j)
  {
    ModPlus(U64, range(min + q) + o, j);
  }

  lemma SecondPart(range: Range, min: nat, srcsz: nat, off: nat, r: nat, j: nat)
    requires srcsz > 0 && j <= r <= srcsz && !SameElement(srcsz, off, j)
    requires Plus(Phys(range, min, srcsz, off), r) == Phys(range, min, srcsz, off + r)
    ensures Phys(range, min, srcsz, off + j) == Plus(Phys(range, min, srcsz, off), j)
  {
    Across(range, min, srcsz, off, j);
    Across(range, min, srcsz, off, r);
    Aligned(range, min, off / srcsz, off % srcsz, srcsz, r, j,
            Phys(range, min, srcsz, off), Phys(range, min, srcsz, off + r), Phys(range, min, srcsz, off + j));
  }

  lemma Aligned(range: Range, min: nat, q: nat, o: nat, srcsz: nat, r: nat, j: nat, p0: nat, pr: nat, pj: nat)
    requires j <= r && srcsz <= o + j && Plus(p0, r) == pr
    requires p0 == At(range, min, q, o) && pr == At(range, min, q + 1, o + r - srcsz)
    requires pj == At(range, min, q + 1, o + j - srcsz)
    ensures pj == Plus(p0, j)
  {
    WalkBack(range(min + q) + o, range(min + (q + 1)), o + r - srcsz, r, j);
  }

  /** Walking back from the last byte to byte j of the second element. */
  lemma WalkBack(a: nat, base: nat, last: nat, r: nat, j: nat)
    requires j <= r && r - j <= last && (a % U64 + r) % U64 == (base + last) % U64
    ensures (a % U64 + j) % U64 == (base + (last - (r - j))) % U64
  {
    ModPlus(U64, a % U64 + r, j - r);
    ModPlus(U64, base + last, j - r);
  }

  /** A source whose middle elements are elsewhere, while its first and its last are in line.
      No address translates to 0, which the code asserts against. */
  function Gap(last: nat, base: nat): Range {
    i => if i == 0 then 64 else if i == last then base else 1000
  }

  /** The element size is exact: for a longer reach, a read that starts in the last byte of an
      element can have its middle element anywhere. */
  lemma EndpointsNotEnough(srcsz: nat, n: nat)
    requires srcsz > 0 && srcsz % 8 == 0 && 0 < n <= 64 && srcsz < Reach(n)
    ensures exists range: Range, off: nat :: off % 8 == 0 &&
              EndpointsMatch(Translation(range, 0, srcsz), off, n) && !Contiguous(Translation(range, 0, srcsz), off, n)
  {
    var off, r := srcsz - 8, Reach(n);
    var last, o := (off + r) / srcsz, (off + r) % srcsz;
    var range := Gap(last, 64 + off + r - o);
    ByteAligned((n - 1) / 8);
    ByteAligned(srcsz / 8 - 1);
    DivLe(n - 1, 63, 8);
    GapPhys(srcsz, r, last, o, range);
    MiddleByte(Translation(range, 0, srcsz), off, n);
  }

  lemma MiddleByte(x: nat -> nat, off: nat, n: nat)
    requires n > 0 && 8 <= Reach(n) <= 56 && off < 900
    requires x(off) == 64 + off && x(off + 8) == 1000 && x(off + Reach(n)) == 64 + off + Reach(n)
    ensures EndpointsMatch(x, off, n) && !Contiguous(x, off, n)
  {
    assert 8 % 8 == 0 && Plus(64 + off, 8) == 72 + off;
  }

  lemma GapPhys(srcsz: nat, r: nat, last: nat, o: nat, range: Range)
    requires srcsz > 0 && srcsz % 8 == 0 && r % 8 == 0 && srcsz < r <= 56
    requires last == (srcsz - 8 + r) / srcsz && o == (srcsz - 8 + r) % srcsz
    requires range == Gap(last, 64 + srcsz - 8 + r - o)
    ensures Phys(range, 0, srcsz, srcsz - 8) == 64 + srcsz - 8
    ensures Phys(range, 0, srcsz, srcsz - 8 + r) == 64 + srcsz - 8 + r
    ensures Phys(range, 0, srcsz, srcsz - 8 + 8) == 1000
  {
    DivLe(2 * srcsz, srcsz - 8 + r, srcsz);
    Quotient(srcsz, 2 * srcsz, 2, 0);
    Quotient(srcsz, srcsz - 8, 0, srcsz - 8);
    Quotient(srcsz, srcsz - 8 + 8, 1, 0);
    assert At(range, 0, 0, srcsz - 8) == 64 + srcsz - 8;
    assert At(range, 0, last, o) == 64 + srcsz - 8 + r;
    assert At(range, 0, 1, 0) == 1000;
  }

  /** Where virtual bit i is, under translation x of byte addresses: its byte is translated on
      its own. */
  function BitAt(x: nat -> nat, i: nat): nat { x(i / 8 * 8) + i % 8 }

  /** A read of n bits, each byte translated on its own, LSB first. */
  function VirtualSlice(d: Disk, x: nat -> nat, off: nat, n: nat): nat
    decreases |d| + off + 2 * n
  {
    if n == 0 then 0 else Bit(d, BitAt(x, off)) + 2 * VirtualSlice(d, x, off + 1, n - 1)
  }

  /** The same, MSB first. */
  function VirtualSliceM(d: Disk, x: nat -> nat, off: nat, n: nat): nat {
    if n == 0 then 0 else 2 * VirtualSliceM(d, x, off, n - 1) + BitM(d, BitAt(x, off + n - 1))
  }

  /** A contiguous read is the byte-by-byte read. */
  lemma {:induction false} SliceIsVirtual(d: Disk, x: nat -> nat, off: nat, k: nat, n: nat)
    requires off % 8 == 0 && k <= n && n > 0 && Contiguous(x, off, n) && x(off) + n < U64
    ensures VirtualSlice(d, x, off + k, n - k) == Slice(d, x(off) + k, n - k)
    decreases n - k
  {
    if k < n {
      SliceIsVirtual(d, x, off, k + 1, n);
      BitInLine(x, off, k, n);
    }
  }

  lemma {:induction false} SliceMIsVirtual(d: Disk, x: nat -> nat, off: nat, k: nat, n: nat)
    requires off % 8 == 0 && k <= n && n > 0 && Contiguous(x, off, n) && x(off) + n < U64
    ensures VirtualSliceM(d, x, off, k) == SliceM(d, x(off), k)
  {
    if k > 0 {
      SliceMIsVirtual(d, x, off, k - 1, n);
      BitInLine(x, off, k - 1, n);
    }
  }

  lemma BitInLine(x: nat -> nat, off: nat, k: nat, n: nat)
    requires off % 8 == 0 && k < n && Contiguous(x, off, n) && x(off) + n < U64
    ensures BitAt(x, off + k) == x(off) + k
  {
    var j := 8 * (k / 8);
    ByteFloor(off, k, n);
    assert x(off + j) == Plus(x(off), j) == x(off) + j;
  }

  lemma ByteFloor(off: nat, k: nat, n: nat)
    requires off % 8 == 0 && k < n
    ensures var j := 8 * (k / 8);
            j % 8 == 0 && j <= Reach(n) && (off + k) / 8 * 8 == off + j && (off + k) % 8 == k % 8 && j + k % 8 == k
  {
    Quotient(8, off + k, off / 8 + k / 8, k % 8);
    DivLe(k, n - 1, 8);
  }

  lemma ReadIsVirtual(d: Disk, range: Range, min: nat, srcsz: nat, off: nat, n: nat, x: nat -> nat, w: nat)
    requires srcsz > 0 && srcsz % 8 == 0 && off % 8 == 0 && n > 0 && Reach(n) <= srcsz && w == Width(x(off), n)
    requires x == Translation(range, min, srcsz) && EndpointsMatch(x, off, n) && x(off) + n < U64
    ensures VirtualSlice(d, x, off, w) == Slice(d, x(off), w) && VirtualSliceM(d, x, off, n) == SliceM(d, x(off), n)
  {
    EndpointsSuffice(range, min, srcsz, off, n);
    WidthFits(x(off), n);
    Shorter(x, off, w, n);
    WholeSlice(d, x, off, w);
    SliceMIsVirtual(d, x, off, n, n);
  }

  lemma Shorter(x: nat -> nat, off: nat, w: nat, n: nat)
    requires 0 < w <= n && Contiguous(x, off, n)
    ensures Contiguous(x, off, w)
  {
    DivLe(w - 1, n - 1, 8);
  }

  lemma WholeSlice(d: Disk, x: nat -> nat, off: nat, n: nat)
    requires off % 8 == 0 && n > 0 && Contiguous(x, off, n) && x(off) + n < U64
    ensures VirtualSlice(d, x, off, n) == Slice(d, x(off), n)
  {
    SliceIsVirtual(d, x, off, 0, n);
  }

  /** The two translations of __getLocal and their comparison. */
  method CheckEndpoints(m: Mapping, off: nat, n: nat) returns (ok: bool, p: nat)
    requires m.Valid() && n > 0 && off + Reach(n) < m.TotalBits() && m.IndexFits(off) && m.IndexFits(off + Reach(n))
    modifies m.cache
    ensures m.Valid() && p == m.Map()(off) && ok == EndpointsMatch(m.Map(), off, n)
  {
    var err, last;
    p, err := m.Xlate(off, false);
    last, err := m.Xlate(off + 8 * ((n - 1) / 8), false);
    ok := Plus(p, 8 * ((n - 1) / 8)) == last;
  }

  /** The physical reads that the backend serves. */
  predicate Readable(file: Disk, big: bool, p: nat, n: nat) {
    && LinesInFile(file, p / 8 * 8, p % 8 + n) && p + n < U64
    && (big ==> BigSupported(p, n)) && (p % 8 != 0 ==> n < 64)
  }

  /** Aligned reads that are not whole bytes are not swapped. */
  predicate Swapped(big: bool, p: nat, n: nat) { big && (p % 8 != 0 || n % 8 == 0) }

  /** How many bits come back: an aligned read across a cache line loses a partial byte. */
  function Width(p: nat, n: nat): nat { if p % 8 == 0 && CrossesLine(p, n) then n / 8 * 8 else n }

  lemma WidthFits(p: nat, n: nat)
    requires n > 0
    ensures 0 < Width(p, n) <= n && (n % 8 == 0 ==> Width(p, n) == n)
  {
    if p % 8 == 0 && n < 8 {
      Quotient(256, p, p / 256, p % 256);
      Quotient(256, p + n - 1, p / 256, p % 256 + n - 1);
    }
  }

  method ReadPhys(io: Io, big: bool, p: nat, n: nat) returns (r: nat)
    requires io.Valid() && 0 < n <= 64 && Readable(io.file, big, p, n)
    modifies io.ents
    ensures io.Valid()
    ensures r == if Swapped(big, p, n) then SliceM(io.file, p, n) else Slice(io.file, p, Width(p, n))
  {
    r := GetLocalPhys(io, big, p, n);
  }

  /** The read of n bits, each byte translated on its own, in the order and of the width that
      the backend gives them at physical address p. */
  function VirtualRead(d: Disk, big: bool, x: nat -> nat, off: nat, n: nat, p: nat): nat {
    if Swapped(big, p, n) then VirtualSliceM(d, x, off, n) else VirtualSlice(d, x, off, Width(p, n))
  }

  /** __getLocal through a mapping: when its check passes and the source elements are at least
      as long as the reach of the read, the result is the byte-by-byte virtual read. */
  method GetLocal(io: Io, big: bool, m: Mapping, off: nat, n: nat) returns (ok: bool, r: nat)
    requires io.Valid() && m.Valid() && 0 < n <= 64 && off % 8 == 0
    requires off + Reach(n) < m.TotalBits() && m.IndexFits(off) && m.IndexFits(off + Reach(n))
    requires Readable(io.file, big, m.Map()(off), n)
    modifies io.ents, m.cache
    ensures io.Valid() && m.Valid() && ok == EndpointsMatch(m.Map(), off, n)
    ensures ok && m.srcsz % 8 == 0 && Reach(n) <= m.srcsz ==>
              r == VirtualRead(io.file, big, m.Map(), off, n, m.Map()(off))
  {
    var p;
    ok, p := CheckEndpoints(m, off, n);
    r := 0;
    if ok {
      r := ReadPhys(io, big, p, n);
      if m.srcsz % 8 == 0 && Reach(n) <= m.srcsz {
        ReadIsVirtual(io.file, Narrow(m.range), m.min, m.srcsz, off, n, m.Map(), Width(p, n));
      }
    }
  }
}
