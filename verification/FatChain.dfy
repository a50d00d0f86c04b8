/** Cluster chains in a file allocation table, as plain sequences: fat[c] is the entry of
    cluster c, and a file is the chain of its clusters. */
module FatChain {

  /** c lists the clusters of a file in order: distinct, allocated, each linked to the next.
      The entry of the last one may be any end marker. */
  predicate IsChain(fat: seq<nat>, start: nat, c: seq<nat>) {
    && |c| > 0 && c[0] == start
    && (forall k :: 0 <= k < |c| ==> 2 <= c[k] < |fat| && fat[c[k]] != 0)
    && (forall k :: 0 <= k < |c| - 1 ==> fat[c[k]] == c[k + 1])
    && Distinct(c)
  }

  predicate Distinct(c: seq<nat>) {
    forall j, k :: 0 <= j < k < |c| ==> c[j] != c[k]
  }

  predicate Free(fat: seq<nat>, f: nat) {
    2 <= f < |fat| && fat[f] == 0
  }

  /** The table after link j of chain c has moved to cluster f. */
  function Moved(fat: seq<nat>, c: seq<nat>, j: nat, f: nat): (r: seq<nat>)
    requires j < |c| && f < |fat| && forall k :: 0 <= k < |c| ==> c[k] < |fat|
    ensures |r| == |fat|
  {
    var linked := fat[f := fat[c[j]]];
    var fixed := if j > 0 then linked[c[j - 1] := f] else linked;
    fixed[c[j] := 0]
  }

  /** The moved file is the same chain with link j replaced, and the old cluster is free. */
  lemma MovedChain(fat: seq<nat>, start: nat, c: seq<nat>, j: nat, f: nat)
    requires IsChain(fat, start, c) && j < |c| && Free(fat, f)
    ensures IsChain(Moved(fat, c, j, f), if j == 0 then f else start, c[j := f])
    ensures Free(Moved(fat, c, j, f), c[j])
  {
    var m, c' := Moved(fat, c, j, f), c[j := f];
    assert f !in c;
    forall k | 0 <= k < |c| - 1 ensures m[c'[k]] == c'[k + 1] {
      if k + 1 == j {
        assert c'[k] == c[j - 1] && c[j - 1] != c[j];
      }
    }
  }

  /** Any other chain is a chain of the new table too. */
  lemma DisjointChain(fat: seq<nat>, c: seq<nat>, j: nat, f: nat, start: nat, e: seq<nat>)
    requires j < |c| && forall k :: 0 <= k < |c| ==> c[k] < |fat|
    requires Free(fat, f) && IsChain(fat, start, e)
    requires forall k :: 0 <= k < |e| ==> e[k] !in c
    ensures IsChain(Moved(fat, c, j, f), start, e)
  {
    assert c[j] in c;
    assert j > 0 ==> c[j - 1] in c;
    assert forall k :: 0 <= k < |e| ==> Moved(fat, c, j, f)[e[k]] == fat[e[k]];
  }

  function FreeSet(fat: seq<nat>): set<nat> {
    set x | 2 <= x < |fat| && fat[x] == 0
  }

  /** Exactly f leaves the free pool and the old cluster enters it; the amount of free
      space is conserved. */
  lemma MovedFree(fat: seq<nat>, start: nat, c: seq<nat>, j: nat, f: nat)
    requires IsChain(fat, start, c) && j < |c| && Free(fat, f)
    ensures FreeSet(Moved(fat, c, j, f)) == FreeSet(fat) - {f} + {c[j]}
    ensures |FreeSet(Moved(fat, c, j, f))| == |FreeSet(fat)|
  {
    var m := Moved(fat, c, j, f);
    assert f !in c && c[j] in c;
    forall x ensures x in FreeSet(m) <==> x in FreeSet(fat) - {f} + {c[j]} {
      if 2 <= x < |fat| && x != f && x != c[j] && (j == 0 || x != c[j - 1]) {
        assert m[x] == fat[x];
      }
    }
    assert f in FreeSet(fat) && c[j] !in FreeSet(fat) - {f};
  }
}
