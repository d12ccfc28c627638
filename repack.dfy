/** `repack32`: folding the eight 32-bit words of a SHA-256 digest into one number. */
module Repack {
  import opened Gates

  /** 2^n. */
  function Pow2(n: nat): (r: nat)
    ensures r >= 1
  {
    if n == 0 then 1 else 2 * Pow2(n - 1)
  }

  /** The value of f read least significant first: position t carries weight 2^t. */
  function WeightedSum(f: seq<int>): int
  {
    if |f| == 0 then 0 else WeightedSum(f[..|f| - 1]) + f[|f| - 1] * Pow2(|f| - 1)
  }

  predicate IsBits(f: seq<int>)
  {
    forall t :: 0 <= t < |f| ==> f[t] == 0 || f[t] == 1
  }

  /** Eight words, each given as the 32 wires `unpack_v32` yields for it: bit k of word j is hj[j][k]. */
  predicate IsDigestBits(hj: seq<seq<int>>)
  {
    |hj| == 8 && forall j :: 0 <= j < 8 ==> |hj[j]| == 32
  }

  /** The bits of words 7, 6, ..., j laid end to end: the order in which repack32 folds them. */
  function Fold(hj: seq<seq<int>>, j: nat): seq<int>
    requires IsDigestBits(hj) && j <= 8
    decreases 8 - j
  {
    if j == 8 then [] else Fold(hj, j + 1) + hj[j]
  }

  /** The number repack32 computes, as a specification. */
  function RepackValue(hj: seq<seq<int>>): int
    requires IsDigestBits(hj)
  {
    WeightedSum(Fold(hj, 0))
  }

  /** The digest with every bit zero, and the one whose only set bit is bit k of word j. */
  function Zero(): (z: seq<seq<int>>)
    ensures IsDigestBits(z)
  {
    seq(8, _ => seq(32, _ => 0))
  }

  function Unit(j: nat, k: nat): (u: seq<seq<int>>)
    requires j < 8 && k < 32
    ensures IsDigestBits(u)
  {
    Bump(Zero(), j, k, 1)
  }

  /** hj with d added to bit k of word j. */
  function Bump(hj: seq<seq<int>>, j: nat, k: nat, d: int): (g: seq<seq<int>>)
    requires IsDigestBits(hj) && j < 8 && k < 32
    ensures IsDigestBits(g)
  {
    hj[j := hj[j][k := hj[j][k] + d]]
  }

  /** repack32: h starts at 0 and twok at 1; words are visited from H[7] down to H[0],
      bits of each word from 0 to 31, and each bit is added with weight twok, which then doubles. */
  method Repack32(hj: seq<seq<int>>) returns (h: int)
    requires IsDigestBits(hj)
    ensures h == RepackValue(hj)
  {
    h := 0;
    var twok := 1;
    var j := 8;
    while j > 0
      invariant 0 <= j <= 8
      invariant |Fold(hj, j)| == 32 * (8 - j)
      invariant twok == Pow2(32 * (8 - j))
      invariant h == WeightedSum(Fold(hj, j))
    {
      j := j - 1;
      var word := hj[j];
      ghost var done := Fold(hj, j + 1);
      assert done + word[..0] == done;
      var k := 0;
      while k < 32
        invariant 0 <= k <= 32
        invariant twok == Pow2(|done| + k)
        invariant h == WeightedSum(done + word[..k])
      {
        assert (done + word[..k + 1])[..|done| + k] == done + word[..k];
        h := Axpy(h, twok, word[k]);
        twok := twok + twok;
        k := k + 1;
      }
      assert word[..32] == word;
    }
  }

  lemma {:induction false} FoldLength(hj: seq<seq<int>>, j: nat)
    requires IsDigestBits(hj) && j <= 8
    ensures |Fold(hj, j)| == 32 * (8 - j)
    decreases 8 - j
  {
    if j < 8 {
      FoldLength(hj, j + 1);
    }
  }

  /** Bit k of word i sits at position 32 * (7 - i) + k of the folding order. */
  lemma {:induction false} FoldAt(hj: seq<seq<int>>, j: nat, i: nat, k: nat)
    requires IsDigestBits(hj) && j <= i < 8 && k < 32
    ensures |Fold(hj, j)| == 32 * (8 - j)
    ensures Fold(hj, j)[32 * (7 - i) + k] == hj[i][k]
    decreases 8 - j
  {
    FoldLength(hj, j);
    FoldLength(hj, j + 1);
    if i > j {
      FoldAt(hj, j + 1, i, k);
    }
  }

  /** Changing one bit in the folding order changes the weighted sum by the change times 2^t. */
  lemma {:induction false} WeightedSumUpdate(f: seq<int>, t: nat, d: int)
    requires t < |f|
    ensures WeightedSum(f[t := f[t] + d]) == WeightedSum(f) + d * Pow2(t)
    decreases |f|
  {
    var g := f[t := f[t] + d];
    var n := |f| - 1;
    if t == n {
      assert g[..n] == f[..n];
    } else {
      assert g[..n] == f[..n][t := f[t] + d];
      WeightedSumUpdate(f[..n], t, d);
    }
  }

  lemma {:induction false} FoldUpdate(hj: seq<seq<int>>, j: nat, k: nat, d: int, j0: nat)
    requires IsDigestBits(hj) && j < 8 && k < 32 && j0 <= 8
    ensures |Fold(hj, j0)| == 32 * (8 - j0)
    ensures var g := Bump(hj, j, k, d);
      if j0 <= j then
        Fold(g, j0) == Fold(hj, j0)[32 * (7 - j) + k := Fold(hj, j0)[32 * (7 - j) + k] + d]
      else
        Fold(g, j0) == Fold(hj, j0)
    decreases 8 - j0
  {
    FoldLength(hj, j0);
    if j0 < 8 {
      FoldUpdate(hj, j, k, d, j0 + 1);
      FoldLength(hj, j0 + 1);
      var g := Bump(hj, j, k, d);
      var t := 32 * (7 - j) + k;
      if j0 == j {
        assert Fold(g, j0) == Fold(hj, j0 + 1) + hj[j][k := hj[j][k] + d];
        assert Fold(g, j0) == Fold(hj, j0)[t := Fold(hj, j0)[t] + d];
      } else if j0 < j {
        assert Fold(g, j0) == Fold(g, j0 + 1) + hj[j0];
        assert Fold(g, j0) == Fold(hj, j0)[t := Fold(hj, j0)[t] + d];
      }
    }
  }

  /** The weight of bit k of word j: adding d to it adds d * 2^(32 * (7 - j) + k) to the result. */
  lemma RepackWeight(hj: seq<seq<int>>, j: nat, k: nat, d: int)
    requires IsDigestBits(hj) && j < 8 && k < 32
    ensures RepackValue(Bump(hj, j, k, d)) == RepackValue(hj) + d * Pow2(32 * (7 - j) + k)
  {
    FoldUpdate(hj, j, k, d, 0);
    WeightedSumUpdate(Fold(hj, 0), 32 * (7 - j) + k, d);
  }

  lemma {:induction false} WeightedSumZero(f: seq<int>)
    requires forall t :: 0 <= t < |f| ==> f[t] == 0
    ensures WeightedSum(f) == 0
    decreases |f|
  {
    if |f| > 0 {
      WeightedSumZero(f[..|f| - 1]);
    }
  }

  lemma RepackZero()
    ensures RepackValue(Zero()) == 0
  {
    var z := Zero();
    FoldLength(z, 0);
    forall t | 0 <= t < |Fold(z, 0)|
      ensures Fold(z, 0)[t] == 0
    {
      FoldAt(z, 0, 7 - t / 32, t % 32);
    }
    WeightedSumZero(Fold(z, 0));
  }

  /** A digest whose only set bit is bit k of word j repacks to 2^(32 * (7 - j) + k). */
  lemma RepackUnit(j: nat, k: nat)
    requires j < 8 && k < 32
    ensures RepackValue(Unit(j, k)) == Pow2(32 * (7 - j) + k)
  {
    RepackZero();
    RepackWeight(Zero(), j, k, 1);
  }

  /** Bit 0 of H[7] is the least significant bit of the result and bit 31 of H[0] the most. */
  lemma RepackEndWeights()
    ensures RepackValue(Unit(7, 0)) == 1
    ensures RepackValue(Unit(0, 31)) == Pow2(255)
  {
    RepackUnit(7, 0);
    RepackUnit(0, 31);
  }

  lemma {:induction false} WeightedSumBound(f: seq<int>)
    requires IsBits(f)
    ensures 0 <= WeightedSum(f) < Pow2(|f|)
    decreases |f|
  {
    if |f| > 0 {
      WeightedSumBound(f[..|f| - 1]);
    }
  }

  /** When every unpacked wire is a bit, the result is a 256-bit number. */
  lemma RepackBound(hj: seq<seq<int>>)
    requires IsDigestBits(hj)
    requires forall j, k :: 0 <= j < 8 && 0 <= k < 32 ==> hj[j][k] == 0 || hj[j][k] == 1
    ensures 0 <= RepackValue(hj) < Pow2(256)
  {
    FoldLength(hj, 0);
    forall t | 0 <= t < |Fold(hj, 0)|
      ensures Fold(hj, 0)[t] == 0 || Fold(hj, 0)[t] == 1
    {
      FoldAt(hj, 0, 7 - t / 32, t % 32);
    }
    WeightedSumBound(Fold(hj, 0));
  }
}
