/** The choice cache: one bit per relocation target, set when the target is available. */
module Choice {
  import opened Bits
  import opened Bitmap

  /** count consecutive available choices, as bits of the map. */
  predicate RunAt(bits: seq<Byte>, s: nat, count: nat) {
    forall t :: s <= t < s + count ==> Bit(bits, t) == 1
  }

  class ChoiceCache {
    const bmp: Bmp
    const min: nat
    const max: nat

    /** One bit per choice; the padding of the last byte is clear. */
    ghost predicate Valid()
      reads bmp.data
    {
      && min <= max && bmp.Valid() && bmp.size == max - min + 1
      && forall i: nat :: i >= bmp.size ==> Bit(bmp.data[..], i) == 0
    }

    ghost predicate Avail(i: nat)
      reads bmp.data
    {
      min <= i <= max && Bit(bmp.data[..], i - min) == 1
    }

    /** The available choices. */
    ghost function Choices(): set<nat>
      reads bmp.data
    {
      set x: nat | min <= x <= max && Avail(x)
    }

    /** Every choice that meets the rule's condition is available. */
    constructor (lo: nat, hi: nat, ccond: nat -> bool)
      requires lo <= hi
      ensures Valid() && min == lo && max == hi && fresh(bmp.data)
      ensures forall i :: lo <= i <= hi ==> (Avail(i) <==> ccond(i))
    {
      min, max := lo, hi;
      bmp := new Bmp(hi - lo + 1);
      new;
      var cur := lo;
      while cur <= hi
        invariant lo <= cur <= hi + 1 && Valid()
        invariant fresh(bmp.data)
        invariant forall i :: lo <= i <= hi ==> (Avail(i) <==> i < cur && ccond(i))
        modifies bmp.data
      {
        if ccond(cur) {
          MarkFree(cur);
        }
        cur := cur + 1;
      }
    }

    method MarkFree(i: nat)
      requires Valid() && min <= i <= max
      modifies bmp.data
      ensures Valid() && Avail(i)
      ensures forall x: nat :: x != i ==> Avail(x) == old(Avail(x))
    {
      ghost var was := bmp.data[..];
      bmp.Mark(i - min, 1, true);
      assert forall x: nat :: Bit(bmp.data[..], x) == Marked(was, i - min, 1, true, x);
    }

    method MarkAlloc(i: nat)
      requires Valid() && min <= i <= max
      modifies bmp.data
      ensures Valid() && !Avail(i)
      ensures forall x: nat :: x != i ==> Avail(x) == old(Avail(x))
    {
      ghost var was := bmp.data[..];
      bmp.Mark(i - min, 1, false);
      assert forall x: nat :: Bit(bmp.data[..], x) == Marked(was, i - min, 1, false, x);
    }

    /** count consecutive choices from s on are available. */
    ghost predicate Fits(s: nat, count: nat)
      reads bmp.data
    {
      forall i :: s <= i < s + count ==> Avail(i)
    }

    /** Complete first fit: the least start at or after offset with minCount consecutive
        available choices, or -1 exactly when there is none. */
    method FindAvail(offset: nat, minCount: nat) returns (r: int)
      requires Valid() && min <= offset <= max && minCount >= 1
      ensures r == -1 || offset <= r <= max
      ensures r >= 0 ==> Fits(r, minCount) && forall s :: offset <= s < r ==> !Fits(s, minCount)
      ensures r == -1 ==> forall s :: offset <= s ==> !Fits(s, minCount)
    {
      var base := offset - min;
      var cur := base;
      while true
        invariant base <= cur < bmp.size
        invariant forall s :: base <= s < cur ==> !RunAt(bmp.data[..], s, minCount)
        decreases bmp.size - cur
      {
        var isSet := bmp.IsSet(cur);
        var found := bmp.CountContig(cur, isSet);
        if isSet && found >= minCount {
          r := cur + min;
          FoundRun(cur, minCount);
          NoneBefore(offset, cur, minCount);
          return;
        }
        ShortRun(bmp.data[..], cur, found, minCount, isSet);
        cur := cur + found;
        if cur >= bmp.size {
          break;
        }
      }
      r := -1;
      NoneBefore(offset, cur, minCount);
    }

    lemma NoneBefore(offset: nat, cur: nat, count: nat)
      requires Valid() && min <= offset && count >= 1
      requires forall s :: offset - min <= s < cur ==> !RunAt(bmp.data[..], s, count)
      ensures forall s :: offset <= s < cur + min || (offset <= s && cur >= bmp.size) ==> !Fits(s, count)
    {
      forall s | offset <= s < cur + min || (offset <= s && cur >= bmp.size) ensures !Fits(s, count) {
        AsRun(s, count);
      }
    }

    lemma AsRun(s: nat, count: nat)
      requires Valid() && count >= 1
      ensures Fits(s, count) ==> min <= s <= max && RunAt(bmp.data[..], s - min, count)
    {
      if Fits(s, count) {
        assert Avail(s);
        forall t | s - min <= t < s - min + count ensures Bit(bmp.data[..], t) == 1 {
          assert Avail(t + min);
        }
      }
    }

    lemma FoundRun(cur: nat, count: nat)
      requires Valid() && count >= 1 && RunAt(bmp.data[..], cur, count)
      requires forall i :: cur <= i < cur + count ==> Bit(bmp.data[..], i) == 1
      ensures Fits(cur + min, count)
    {
      forall i | cur + min <= i < cur + min + count ensures Avail(i) {
        assert Bit(bmp.data[..], i - min) == 1;
      }
    }
  }

  /** No run of the wanted length starts inside a run that is too short, or among clear bits. */
  lemma ShortRun(bits: seq<Byte>, cur: nat, found: nat, count: nat, v: bool)
    requires count >= 1 && found >= 1 && (v ==> found < count)
    requires forall i :: cur <= i < cur + found ==> Bit(bits, i) == if v then 1 else 0
    requires cur + found == 8 * |bits| || Bit(bits, cur + found) == if v then 0 else 1
    ensures forall s :: cur <= s < cur + found ==> !RunAt(bits, s, count)
  {
    forall s | cur <= s < cur + found ensures !RunAt(bits, s, count) {
      if v {
        assert Bit(bits, cur + found) != 1;
      } else {
        assert Bit(bits, s) == 0;
      }
    }
  }
}
