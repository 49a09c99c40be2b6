/**
 * What the population operators compute on chromosomes: the multi-point crossover of `_cruzamento`
 * (the cut loci, the slices they delimit, and the rule that alternates the parent each child copies
 * from, slice by slice) and the single-bit flip of `_mutacao`.
 */
module Operators {
  import opened Codec
  import opened Sequences

  /**
   * `sorted(sample(range(1, n_bits-2), k))`: `k` distinct loci from `1 .. n_bits-3`, in ascending order.
   */
  predicate IsCutSample(loci: seq<nat>, k: nat, nBits: nat) {
    |loci| == k && Increasing(loci) && forall i :: 0 <= i < k ==> 1 <= loci[i] <= nBits - 3
  }

  /** The loci with `0` inserted at the front and `n_bits` appended. */
  function Bounds(loci: seq<nat>, nBits: nat): seq<nat> {
    [0] + loci + [nBits]
  }

  /** Boundaries that cut `[0, n)` into contiguous, non-empty slices. */
  predicate IsPartition(b: seq<nat>, n: nat) {
    |b| >= 2 && b[0] == 0 && b[|b| - 1] == n && Increasing(b)
  }

  /** Position `j` lies in slice `s`, the half-open range `[b[s], b[s+1])`. */
  predicate InSlice(b: seq<nat>, s: nat, j: nat) {
    s + 1 < |b| && b[s] <= j < b[s + 1]
  }

  /**
   * The boundaries built from a valid sample of at least one locus go from 0 to `n_bits`, strictly
   * increasing, so their slices are contiguous and cover `[0, n_bits)`.
   */
  lemma BoundsPartition(loci: seq<nat>, k: nat, nBits: nat)
    requires k >= 1 && IsCutSample(loci, k, nBits)
    ensures IsPartition(Bounds(loci, nBits), nBits)
    ensures |Bounds(loci, nBits)| == k + 2
  {
    var b := Bounds(loci, nBits);
    forall x, y | 0 <= x < y < |b|
      ensures b[x] < b[y]
    {
      if y == |b| - 1 {
        assert 1 <= loci[0] <= nBits - 3;
        if x > 0 {
          assert b[x] == loci[x - 1];
        }
      } else if x == 0 {
        assert b[y] == loci[y - 1];
      } else {
        assert b[x] == loci[x - 1] && b[y] == loci[y - 1];
      }
    }
  }

  /** The slice holding position `j`; every position of `[b[0], b[last])` lies in one. */
  function SliceOf(b: seq<nat>, j: nat): (s: nat)
    requires |b| >= 2 && Increasing(b) && b[0] <= j < b[|b| - 1]
    ensures InSlice(b, s, j)
    decreases |b|
  {
    if j < b[1] then 0 else 1 + SliceOf(b[1..], j)
  }

  /**
   * The segment rule: in an even-indexed slice child 1 copies parent 1 and child 2 copies parent 2,
   * in an odd-indexed slice the sources swap; both children are as long as the parents.
   */
  ghost predicate Spliced(f1: string, f2: string, cr1: string, cr2: string, b: seq<nat>) {
    |cr1| == |cr2| && |f1| == |cr1| && |f2| == |cr1| &&
    forall s: nat, j: nat {:trigger InSlice(b, s, j)} :: InSlice(b, s, j) && j < |cr1| ==>
      if s % 2 == 0 then f1[j] == cr1[j] && f2[j] == cr2[j]
      else f1[j] == cr2[j] && f2[j] == cr1[j]
  }

  /**
   * At every position the two children hold the parents' two characters, in one order or the
   * other: `{child1[j], child2[j]} == {cr1[j], cr2[j]}` as multisets.
   */
  lemma SplicedKeepsColumns(f1: string, f2: string, cr1: string, cr2: string, b: seq<nat>)
    requires IsPartition(b, |cr1|) && Spliced(f1, f2, cr1, cr2, b)
    ensures forall j :: 0 <= j < |cr1| ==>
      (f1[j] == cr1[j] && f2[j] == cr2[j]) || (f1[j] == cr2[j] && f2[j] == cr1[j])
    ensures forall j :: 0 <= j < |cr1| ==> multiset{f1[j], f2[j]} == multiset{cr1[j], cr2[j]}
  {
    forall j | 0 <= j < |cr1|
      ensures (f1[j] == cr1[j] && f2[j] == cr2[j]) || (f1[j] == cr2[j] && f2[j] == cr1[j])
    {
      var s := SliceOf(b, j);
      assert InSlice(b, s, j);
    }
  }

  /**
   * Crossover loses nothing: splicing the two children again at the same cut points gives back
   * exactly the two parents.
   */
  lemma SpliceTwiceRestores(f1: string, f2: string, cr1: string, cr2: string, g1: string, g2: string, b: seq<nat>)
    requires IsPartition(b, |cr1|)
    requires Spliced(f1, f2, cr1, cr2, b) && Spliced(g1, g2, f1, f2, b)
    ensures g1 == cr1 && g2 == cr2
  {
    forall j | 0 <= j < |cr1|
      ensures g1[j] == cr1[j] && g2[j] == cr2[j]
    {
      var s := SliceOf(b, j);
      assert InSlice(b, s, j);
    }
  }

  /** The segment rule fixes both children: two splices of the same parents at the same cuts agree. */
  lemma SplicedUnique(f1: string, f2: string, g1: string, g2: string, cr1: string, cr2: string, b: seq<nat>)
    requires IsPartition(b, |cr1|)
    requires Spliced(f1, f2, cr1, cr2, b) && Spliced(g1, g2, cr1, cr2, b)
    ensures f1 == g1 && f2 == g2
  {
    forall j | 0 <= j < |cr1|
      ensures f1[j] == g1[j] && f2[j] == g2[j]
    {
      var s := SliceOf(b, j);
      assert InSlice(b, s, j);
    }
  }

  /** Slices of increasing boundaries do not overlap: a position lies in one slice only. */
  lemma InSliceUnique(b: seq<nat>, s: nat, t: nat, j: nat)
    requires Increasing(b) && InSlice(b, s, j) && InSlice(b, t, j)
    ensures s == t
  {
  }

  /**
   * The child that copies `x` in the even slices and `y` in the odd ones: `_cruzamento` builds
   * `cr_f1` as `SpliceChild(cr1, cr2, b)` and `cr_f2` as `SpliceChild(cr2, cr1, b)`.
   */
  function SpliceChild(x: string, y: string, b: seq<nat>): (r: string)
    requires |x| == |y| && IsPartition(b, |x|)
    ensures |r| == |x|
  {
    seq(|x|, j requires 0 <= j < |x| => if SliceOf(b, j) % 2 == 0 then x[j] else y[j])
  }

  /** The segment rule holds of exactly one pair of children: the two spliced children. */
  lemma SplicedIsSpliceChild(f1: string, f2: string, cr1: string, cr2: string, b: seq<nat>)
    requires |cr1| == |cr2| && IsPartition(b, |cr1|)
    ensures Spliced(f1, f2, cr1, cr2, b) <==> f1 == SpliceChild(cr1, cr2, b) && f2 == SpliceChild(cr2, cr1, b)
  {
    var c1, c2 := SpliceChild(cr1, cr2, b), SpliceChild(cr2, cr1, b);
    if Spliced(f1, f2, cr1, cr2, b) {
      forall j | 0 <= j < |cr1|
        ensures f1[j] == c1[j] && f2[j] == c2[j]
      {
        var s := SliceOf(b, j);
        assert InSlice(b, s, j);
      }
    }
    if f1 == c1 && f2 == c2 {
      forall s: nat, j: nat | InSlice(b, s, j) && j < |cr1|
        ensures if s % 2 == 0 then f1[j] == cr1[j] && f2[j] == cr2[j] else f1[j] == cr2[j] && f2[j] == cr1[j]
      {
        InSliceUnique(b, s, SliceOf(b, j), j);
      }
    }
  }

  /**
   * The mutation of `_mutacao`: the character at `locus` is replaced by '0' if it was '1' and by '1'
   * otherwise; every other position and the length stay as they were.
   */
  function Flip(cr: string, locus: nat): (r: string)
    requires locus < |cr|
    ensures |r| == |cr| && r[locus] != cr[locus]
    ensures forall j :: 0 <= j < |cr| && j != locus ==> r[j] == cr[j]
    ensures IsBits(cr) ==> IsBits(r)
  {
    cr[..locus] + [if cr[locus] == '1' then '0' else '1'] + cr[locus + 1..]
  }

  /** On a well-formed chromosome, flipping the same locus twice restores it. */
  lemma FlipTwice(cr: string, locus: nat)
    requires IsBits(cr) && locus < |cr|
    ensures Flip(Flip(cr, locus), locus) == cr
  {
    var once := Flip(cr, locus);
    var twice := Flip(once, locus);
    forall j | 0 <= j < |cr|
      ensures twice[j] == cr[j]
    {
      if j == locus {
        assert cr[j] == '0' || cr[j] == '1';
      }
    }
  }
}
