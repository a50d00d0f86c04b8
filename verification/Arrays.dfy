/** Offsets of array elements, computed three ways: by the runtime's sum of element sizes, by
    the lookup of one element, and by the running offset of the scanner. */
module Arrays {
  import opened Arith

  /** An array field of one instance: its offset, the size its thunk reports, and the size of
      element i when it starts at a given offset. Uniform arrays have the flag for constant or
      fixed element sizes. */
  datatype Field = Field(base: Word, typeSize: Word, uniform: bool, size: (nat, nat) -> Word)

  lemma PlusPlus(a: nat, b: nat, c: nat)
    ensures Plus(Plus(a, b), c) == Plus(a, b + c) == Plus(a, Plus(b, c))
  {
    ModPlus(U64, a + b, c);
    ModPlus(U64, b + c, a);
  }

  /** The reference: element i + 1 starts where element i ends. */
  function ElemOff(f: Field, i: nat): Word {
    if i == 0 then f.base else Plus(ElemOff(f, i - 1), f.size(i - 1, ElemOff(f, i - 1)))
  }

  /** The sum of the sizes of the first n elements. */
  function SumSizes(f: Field, n: nat): nat {
    if n == 0 then 0 else SumSizes(f, n - 1) + f.size(n - 1, ElemOff(f, n - 1))
  }

  lemma {:induction false} OffsetIsSum(f: Field, n: nat)
    ensures ElemOff(f, n) == Plus(f.base, SumSizes(f, n))
  {
    if n > 0 {
      OffsetIsSum(f, n - 1);
      PlusPlus(f.base, SumSizes(f, n - 1), f.size(n - 1, ElemOff(f, n - 1)));
    }
  }

  /** __computeArrayBits: the prefix sum, in 64 bits. Its counter has 32 bits. */
  method ComputeArrayBits(f: Field, n: nat) returns (total: nat)
    requires n < U32
    ensures total == SumSizes(f, n) % U64
    ensures Plus(f.base, total) == ElemOff(f, n)
  {
    var i, off := 0, f.base;
    total := 0;
    while i < n
      invariant 0 <= i <= n && off == ElemOff(f, i) && total == Plus(0, SumSizes(f, i))
    {
      var size := f.size(i, off);
      PlusPlus(0, SumSizes(f, i), size);
      total := Plus(total, size);
      off := Plus(off, size);
      i := i + 1;
    }
    OffsetIsSum(f, n);
    PlusPlus(f.base, 0, SumSizes(f, n));
  }

  /** ti_field_off */
  method FieldOff(f: Field, idx: nat) returns (off: nat)
    requires idx < U32
    ensures off == FieldOffset(f, idx)
  {
    var bits := 0;
    if idx > 0 && !f.uniform {
      bits := ComputeArrayBits(f, idx);
    } else if idx > 0 {
      bits := Plus(0, f.typeSize * idx);
    }
    PlusPlus(f.base, 0, f.typeSize * idx);
    off := Plus(bits, f.base);
  }

  function FieldOffset(f: Field, idx: nat): Word {
    if f.uniform then Plus(f.base, f.typeSize * idx) else ElemOff(f, idx)
  }

  /** A uniform array whose elements do have the reported size. */
  ghost predicate Truthful(f: Field) { f.uniform ==> forall i: nat, off: nat :: f.size(i, off) == f.typeSize }

  lemma {:induction false} UniformOffset(f: Field, i: nat)
    requires Truthful(f) && f.uniform
    ensures ElemOff(f, i) == Plus(f.base, f.typeSize * i)
  {
    if i > 0 {
      UniformOffset(f, i - 1);
      assert f.typeSize * i == f.typeSize * (i - 1) + f.typeSize;
      PlusPlus(f.base, f.typeSize * (i - 1), f.typeSize);
    }
  }

  /** The lookup agrees with the reference, so each element starts where the one before it ends. */
  lemma LookupAgrees(f: Field, i: nat)
    requires Truthful(f)
    ensures FieldOffset(f, i) == ElemOff(f, i)
    ensures FieldOffset(f, i + 1) == Plus(FieldOffset(f, i), f.size(i, FieldOffset(f, i)))
  {
    if f.uniform { UniformOffset(f, i); UniformOffset(f, i + 1); }
  }

  // ----- the scanner -----

  /** The running offset of the scanner, where ok says whether element i at an offset can be
      followed: an element that cannot counts with the reported size. */
  function ScanOff(f: Field, ok: (nat, nat) -> bool, i: nat): Word {
    if i == 0 then f.base else Advance(f, ok, i - 1, ScanOff(f, ok, i - 1))
  }

  function Advance(f: Field, ok: (nat, nat) -> bool, i: nat, off: nat): Word {
    Plus(off, if ok(i, off) then f.size(i, off) else f.typeSize)
  }

  /** Element i is counted with its own size. */
  ghost predicate Counted(f: Field, ok: (nat, nat) -> bool, i: nat) {
    ok(i, ElemOff(f, i)) || f.size(i, ElemOff(f, i)) == f.typeSize
  }

  lemma {:induction false} ScanAgrees(f: Field, ok: (nat, nat) -> bool, n: nat)
    requires forall i: nat :: i < n ==> Counted(f, ok, i)
    ensures ScanOff(f, ok, n) == ElemOff(f, n)
  {
    if n > 0 {
      assert Counted(f, ok, n - 1);
      ScanAgrees(f, ok, n - 1);
    }
  }

  lemma ScanNeeds(f: Field, ok: (nat, nat) -> bool, i: nat)
    requires ScanOff(f, ok, i) == ElemOff(f, i) && ScanOff(f, ok, i + 1) == ElemOff(f, i + 1)
    ensures Counted(f, ok, i)
  {
    if !ok(i, ElemOff(f, i)) { SameStep(ElemOff(f, i), f.typeSize, f.size(i, ElemOff(f, i))); }
  }

  lemma SameStep(off: nat, a: Word, b: Word)
    requires Plus(off, a) == Plus(off, b)
    ensures a == b
  {
  }

  ghost predicate Agrees(f: Field, ok: (nat, nat) -> bool, i: nat) { ScanOff(f, ok, i) == ElemOff(f, i) }

  /** The scanner's offsets are the element offsets exactly when every element that cannot be
      followed has the reported size. */
  lemma ScanExact(f: Field, ok: (nat, nat) -> bool, n: nat)
    ensures (forall i: nat :: i <= n ==> Agrees(f, ok, i)) <==> (forall i: nat :: i < n ==> Counted(f, ok, i))
  {
    if forall i: nat :: i < n ==> Counted(f, ok, i) {
      forall i: nat | i <= n ensures Agrees(f, ok, i) { ScanAgrees(f, ok, i); }
    }
    if forall i: nat :: i <= n ==> Agrees(f, ok, i) {
      forall i: nat | i < n ensures Counted(f, ok, i) {
        assert Agrees(f, ok, i) && Agrees(f, ok, i + 1);
        ScanNeeds(f, ok, i);
      }
    }
  }

  /** For a truthful uniform array all three agree, whichever elements can be followed. */
  lemma UniformScan(f: Field, ok: (nat, nat) -> bool, n: nat)
    requires Truthful(f) && f.uniform
    ensures ScanOff(f, ok, n) == FieldOffset(f, n) == ElemOff(f, n)
  {
    ScanAgrees(f, ok, n);
    LookupAgrees(f, n);
  }
}
