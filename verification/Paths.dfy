/**
 * Fixed-depth binary trees and their authentication paths.
 *
 * The receipt log and the wallet's claimed set are both complete trees of a fixed depth
 * over a total leaf function. This module defines such a tree once, and shows that a path
 * folds to the root exactly when it carries the tree's own leaf and siblings.
 */
module Paths {
  import opened Base
  import opened Digests

  datatype MerklePath = MerklePath(siblings: seq<Fr>, indexBits: seq<bool>)

  /** Node `index` of level `level` in the complete tree over `f`, leaves being level zero. */
  function Sub(f: nat -> Fr, level: nat, index: nat): Fr {
    if level == 0 then f(index)
    else Node(Sub(f, level - 1, 2 * index), Sub(f, level - 1, 2 * index + 1))
  }

  /** The root of an all-zero tree of height `level`. */
  function ZeroRoot(level: nat): Fr {
    if level == 0 then Zero else Node(ZeroRoot(level - 1), ZeroRoot(level - 1))
  }

  /** The digests of the trees with nothing but zero leaves, by height. */
  method ZeroDigests(depth: nat) returns (zeros: seq<Fr>)
    ensures |zeros| == depth + 1
    ensures forall j :: 0 <= j <= depth ==> zeros[j] == ZeroRoot(j)
  {
    zeros := [Zero];
    for j := 0 to depth
      invariant |zeros| == j + 1
      invariant forall k :: 0 <= k <= j ==> zeros[k] == ZeroRoot(k)
    {
      zeros := zeros + [Node(zeros[j], zeros[j])];
    }
  }

  /** `x ^ 1`. */
  function Sibling(x: nat): nat {
    if x % 2 == 1 then x - 1 else x + 1
  }

  function Climb(n: Fr, sibling: Fr, isRight: bool): Fr {
    if isRight then Node(sibling, n) else Node(n, sibling)
  }

  /** The root a leaf and its path recompute. */
  function Fold(n: Fr, siblings: seq<Fr>, bits: seq<bool>): Fr
    decreases |siblings|
  {
    if siblings == [] || bits == [] then n
    else Fold(Climb(n, siblings[0], bits[0]), siblings[1..], bits[1..])
  }

  /** The lowest `depth` bits of `pos`, lowest first. */
  function Bits(pos: nat, depth: nat): (bits: seq<bool>)
    ensures |bits| == depth
  {
    if depth == 0 then [] else [pos % 2 == 1] + Bits(pos / 2, depth - 1)
  }

  lemma {:induction false} BitsAt(pos: nat, depth: nat, j: nat)
    requires j < depth
    ensures Bits(pos, depth)[j] == (Shr(pos, j) % 2 == 1)
  {
    if j > 0 {
      BitsAt(pos / 2, depth - 1, j - 1);
    }
  }

  /** The siblings the tree over `f` has along the path that starts at (`level`, `index`). */
  ghost function SiblingsOf(f: nat -> Fr, level: nat, index: nat, n: nat): (s: seq<Fr>)
    ensures |s| == n
    decreases n
  {
    if n == 0 then [] else [Sub(f, level, Sibling(index))] + SiblingsOf(f, level + 1, index / 2, n - 1)
  }

  lemma {:induction false} SiblingsOfAt(f: nat -> Fr, level: nat, index: nat, n: nat, j: nat)
    requires j < n
    ensures SiblingsOf(f, level, index, n)[j] == Sub(f, level + j, Sibling(Shr(index, j)))
    decreases n
  {
    if j > 0 {
      SiblingsOfAt(f, level + 1, index / 2, n - 1, j - 1);
    }
  }

  /** A path is the tree's own when each of its steps is. */
  lemma PathExt(f: nat -> Fr, pos: nat, siblings: seq<Fr>)
    requires forall k | 0 <= k < |siblings| :: siblings[k] == Sub(f, k, Sibling(Shr(pos, k)))
    ensures siblings == SiblingsOf(f, 0, pos, |siblings|)
  {
    forall k | 0 <= k < |siblings|
      ensures siblings[k] == SiblingsOf(f, 0, pos, |siblings|)[k]
    {
      SiblingsOfAt(f, 0, pos, |siblings|, k);
    }
  }

  lemma BitsExt(pos: nat, bits: seq<bool>)
    requires forall k | 0 <= k < |bits| :: bits[k] == (Shr(pos, k) % 2 == 1)
    ensures bits == Bits(pos, |bits|)
  {
    forall k | 0 <= k < |bits|
      ensures bits[k] == Bits(pos, |bits|)[k]
    {
      BitsAt(pos, |bits|, k);
    }
  }

  lemma SubSplit(f: nat -> Fr, level: nat, index: nat)
    ensures Sub(f, level + 1, index / 2) ==
            Climb(Sub(f, level, index), Sub(f, level, Sibling(index)), index % 2 == 1)
  {
    assert index == 2 * (index / 2) + index % 2;
  }

  /** One step up reaches the tree's own parent only from its own two children. */
  lemma ClimbIff(f: nat -> Fr, level: nat, index: nat, n: Fr, sibling: Fr)
    ensures Climb(n, sibling, index % 2 == 1) == Sub(f, level + 1, index / 2)
            <==> n == Sub(f, level, index) && sibling == Sub(f, level, Sibling(index))
  {
    SubSplit(f, level, index);
  }

  lemma FoldStep(n: Fr, siblings: seq<Fr>, index: nat)
    requires siblings != []
    ensures Fold(n, siblings, Bits(index, |siblings|)) ==
            Fold(Climb(n, siblings[0], index % 2 == 1), siblings[1..], Bits(index / 2, |siblings| - 1))
  {
    assert Bits(index, |siblings|)[1..] == Bits(index / 2, |siblings| - 1);
  }

  lemma ConsIff(s: seq<Fr>, head: Fr, tail: seq<Fr>)
    requires s != []
    ensures s == [head] + tail <==> s[0] == head && s[1..] == tail
  {
    assert s == [s[0]] + s[1..];
  }

  /**
   * A node and `n` siblings fold to the tree's own node `n` levels up exactly when they are
   * the tree's own node and siblings: paths are complete and binding at once.
   */
  lemma {:induction false} FoldIff(f: nat -> Fr, level: nat, index: nat, n: Fr, siblings: seq<Fr>)
    ensures Fold(n, siblings, Bits(index, |siblings|)) == Sub(f, level + |siblings|, Shr(index, |siblings|))
            <==> n == Sub(f, level, index) && siblings == SiblingsOf(f, level, index, |siblings|)
    decreases |siblings|
  {
    var d := |siblings|;
    if d > 0 {
      var up := Climb(n, siblings[0], index % 2 == 1);
      FoldStep(n, siblings, index);
      FoldIff(f, level + 1, index / 2, up, siblings[1..]);
      ClimbIff(f, level, index, n, siblings[0]);
      ConsIff(siblings, Sub(f, level, Sibling(index)), SiblingsOf(f, level + 1, index / 2, d - 1));
    }
  }

  /** `FoldIff` from the leaves to the root. */
  lemma RootIff(f: nat -> Fr, depth: nat, pos: nat, leaf: Fr, siblings: seq<Fr>)
    requires |siblings| == depth && pos < Pow2(depth)
    ensures Fold(leaf, siblings, Bits(pos, depth)) == Sub(f, depth, 0)
            <==> leaf == f(pos) && siblings == SiblingsOf(f, 0, pos, depth)
  {
    FoldIff(f, 0, pos, leaf, siblings);
    ShrOut(pos, depth);
  }

  /** Trees over leaf functions that agree below a node agree at that node. */
  lemma {:induction false} SubCongruence(f: nat -> Fr, g: nat -> Fr, level: nat, index: nat)
    requires forall i: nat :: Shr(i, level) == index ==> f(i) == g(i)
    ensures Sub(f, level, index) == Sub(g, level, index)
  {
    if level == 0 {
      assert Shr(index, 0) == index;
    } else {
      forall i: nat
        ensures Shr(i, level - 1) in {2 * index, 2 * index + 1} ==> Shr(i, level) == index
      {
        ShrStep(i, level - 1);
      }
      SubCongruence(f, g, level - 1, 2 * index);
      SubCongruence(f, g, level - 1, 2 * index + 1);
    }
  }

  /** A node commits to every leaf below it. */
  lemma {:induction false} SubInjective(f: nat -> Fr, g: nat -> Fr, level: nat, index: nat, i: nat)
    requires Sub(f, level, index) == Sub(g, level, index) && Shr(i, level) == index
    ensures f(i) == g(i)
  {
    if level > 0 {
      ShrStep(i, level - 1);
      SubInjective(f, g, level - 1, Shr(i, level - 1), i);
    }
  }

  lemma {:induction false} SubOfZeros(f: nat -> Fr, level: nat, index: nat)
    requires forall i: nat :: Shr(i, level) == index ==> f(i) == Zero
    ensures Sub(f, level, index) == ZeroRoot(level)
  {
    if level == 0 {
      assert Shr(index, 0) == index;
    } else {
      forall i: nat
        ensures Shr(i, level - 1) in {2 * index, 2 * index + 1} ==> Shr(i, level) == index
      {
        ShrStep(i, level - 1);
      }
      SubOfZeros(f, level - 1, 2 * index);
      SubOfZeros(f, level - 1, 2 * index + 1);
    }
  }

  /** The loop form of `Fold`, over a path as it was served. */
  method RootFromPath(leaf: Fr, path: MerklePath) returns (n: Fr)
    ensures n == Fold(leaf, path.siblings, path.indexBits)
  {
    n := leaf;
    var i := 0;
    while i < |path.siblings| && i < |path.indexBits|
      invariant 0 <= i <= |path.siblings| && i <= |path.indexBits|
      invariant Fold(leaf, path.siblings, path.indexBits) == Fold(n, path.siblings[i..], path.indexBits[i..])
    {
      var siblings, bits := path.siblings[i..], path.indexBits[i..];
      assert siblings[1..] == path.siblings[i + 1..] && bits[1..] == path.indexBits[i + 1..];
      n := if path.indexBits[i] then Node(path.siblings[i], n) else Node(n, path.siblings[i]);
      i := i + 1;
    }
  }
}
