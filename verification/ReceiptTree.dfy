/**
 * The append-only receipt log with every level of its tree cached.
 */
module ReceiptTrees {
  import opened Base
  import opened Digests
  import opened Paths

  /** The leaf function of a log: the receipts in append order, then zeros. */
  function LeafOf(leaves: seq<Fr>): nat -> Fr {
    (i: nat) => if i < |leaves| then leaves[i] else Zero
  }

  /** The root a log of exactly these receipts has. */
  function RootOf(leaves: seq<Fr>, depth: nat): Fr {
    Sub(LeafOf(leaves), depth, 0)
  }

  /** One cached level is the pairwise hash of the level below, zero padded. */
  predicate LevelAbove(low: seq<Fr>, high: seq<Fr>, zero: Fr) {
    && |high| == (|low| + 1) / 2
    && forall i | 0 <= i < |high| ::
         high[i] == Node(low[2 * i], if 2 * i + 1 < |low| then low[2 * i + 1] else zero)
  }

  ghost predicate Cached(levels: seq<seq<Fr>>) {
    && |levels| > 0
    && forall j | 0 <= j < |levels| - 1 :: LevelAbove(levels[j], levels[j + 1], ZeroRoot(j))
  }

  /** A cached level holds exactly the zero-padded subtree roots of the log. */
  lemma {:induction false} CachedNodes(levels: seq<seq<Fr>>, j: nat, i: nat)
    requires Cached(levels) && j < |levels|
    ensures Sub(LeafOf(levels[0]), j, i) == if i < |levels[j]| then levels[j][i] else ZeroRoot(j)
  {
    if j > 0 {
      assert LevelAbove(levels[j - 1], levels[j - 1 + 1], ZeroRoot(j - 1));
      CachedNodes(levels, j - 1, 2 * i);
      CachedNodes(levels, j - 1, 2 * i + 1);
    }
  }

  /** A cached level has ceil(size / 2^j) entries: as many as it takes to cover the log. */
  lemma {:induction false} CachedSize(levels: seq<seq<Fr>>, j: nat, k: nat)
    requires Cached(levels) && j < |levels|
    ensures k < |levels[j]| <==> k * Pow2(j) < |levels[0]|
  {
    if j > 0 {
      assert LevelAbove(levels[j - 1], levels[j - 1 + 1], ZeroRoot(j - 1));
      CachedSize(levels, j - 1, 2 * k);
      DoubledEither(k, Pow2(j - 1));
      assert Pow2(j) == 2 * Pow2(j - 1);
    }
  }

  lemma EmptyCached(levels: seq<seq<Fr>>)
    requires |levels| > 0 && forall j | 0 <= j < |levels| :: levels[j] == []
    ensures Cached(levels)
  {
  }

  /** The cache is determined by the log. */
  lemma {:induction false} CachedUnique(a: seq<seq<Fr>>, b: seq<seq<Fr>>, depth: nat)
    requires |a| == |b| == depth + 1 && Cached(a) && Cached(b) && a[0] == b[0]
    ensures a == b
  {
    if depth > 0 {
      CachedUnique(a[..depth], b[..depth], depth - 1);
      assert a[depth - 1] == a[..depth][depth - 1] == b[..depth][depth - 1] == b[depth - 1];
      assert LevelAbove(a[depth - 1], a[depth - 1 + 1], ZeroRoot(depth - 1));
      assert LevelAbove(b[depth - 1], b[depth - 1 + 1], ZeroRoot(depth - 1));
      assert a[depth] == b[depth];
      assert a == a[..depth] + [a[depth]] && b == b[..depth] + [b[depth]];
    }
  }

  /** Changing only the last entry of a level changes only the last entry of the level above. */
  lemma LevelGrows(low: seq<Fr>, high: seq<Fr>, grown: seq<Fr>, up: seq<Fr>, idx: nat, zero: Fr)
    requires LevelAbove(low, high, zero)
    requires |grown| == idx + 1 && idx <= |low| <= idx + 1 && grown[..idx] == low[..idx]
    requires var pair := idx - idx % 2;
             var parent := Node(grown[pair], if pair + 1 < |grown| then grown[pair + 1] else zero);
             up == if |high| > pair / 2 then high[pair / 2 := parent] else high + [parent]
    ensures LevelAbove(grown, up, zero)
    ensures |up| == idx / 2 + 1 && idx / 2 <= |high| <= idx / 2 + 1 && up[..idx / 2] == high[..idx / 2]
  {
    forall i | 0 <= i < idx / 2
      ensures up[i] == Node(grown[2 * i], grown[2 * i + 1])
    {
      assert grown[..idx][2 * i] == low[..idx][2 * i];
      assert grown[..idx][2 * i + 1] == low[..idx][2 * i + 1];
    }
  }

  /** A node past the end of the log is a zero subtree. */
  lemma NodeBeyond(leaves: seq<Fr>, level: nat, index: nat)
    requires index * Pow2(level) >= |leaves|
    ensures Sub(LeafOf(leaves), level, index) == ZeroRoot(level)
  {
    forall i: nat
      ensures Shr(i, level) == index ==> LeafOf(leaves)(i) == Zero
    {
      ShrIff(index, i, level);
    }
    SubOfZeros(LeafOf(leaves), level, index);
  }

  /** Leaves beyond a node's span do not reach it. */
  lemma NodeFull(leaves: seq<Fr>, size: nat, level: nat, index: nat)
    requires (index + 1) * Pow2(level) <= size <= |leaves|
    ensures Sub(LeafOf(leaves[..size]), level, index) == Sub(LeafOf(leaves), level, index)
  {
    forall i: nat
      ensures Shr(i, level) == index ==> LeafOf(leaves[..size])(i) == LeafOf(leaves)(i)
    {
      ShrIff(index + 1, i, level);
    }
    SubCongruence(LeafOf(leaves[..size]), LeafOf(leaves), level, index);
  }

  /**
   * A path that folds a nonzero leaf to the root of the first `size` receipts carries
   * exactly the receipt appended at `pos`, and every path the log serves does fold.
   */
  lemma ReceiptPathIff(leaves: seq<Fr>, depth: nat, pos: nat, leaf: Fr, siblings: seq<Fr>)
    requires |siblings| == depth && pos < Pow2(depth) && leaf != Zero
    ensures Fold(leaf, siblings, Bits(pos, depth)) == RootOf(leaves, depth)
            <==> && pos < |leaves| && leaf == leaves[pos]
                 && siblings == SiblingsOf(LeafOf(leaves), 0, pos, depth)
  {
    RootIff(LeafOf(leaves), depth, pos, leaf, siblings);
  }

  /** The root commits to the whole log: equal roots of logs without zero leaves are equal logs. */
  lemma RootBinds(a: seq<Fr>, b: seq<Fr>, depth: nat)
    requires |a| <= Pow2(depth) && |b| <= Pow2(depth) && Zero !in a && Zero !in b
    ensures RootOf(a, depth) == RootOf(b, depth) <==> a == b
  {
    if RootOf(a, depth) == RootOf(b, depth) {
      forall i: nat | i < Pow2(depth)
        ensures LeafOf(a)(i) == LeafOf(b)(i)
      {
        ShrOut(i, depth);
        SubInjective(LeafOf(a), LeafOf(b), depth, 0, i);
      }
      var k: nat := if |a| < |b| then |a| else |b|;
      assert k < |a| ==> LeafOf(a)(k) in a;
      assert k < |b| ==> LeafOf(b)(k) in b;
      forall i | 0 <= i < |a|
        ensures a[i] == b[i]
      {
        assert LeafOf(a)(i) == LeafOf(b)(i);
      }
    }
  }

  class ReceiptTree {
    const depth: nat
    const zeros: seq<Fr>
    var levels: seq<seq<Fr>>

    /** Depths are at most 63: node spans are 64-bit shifts. */
    ghost predicate Valid()
      reads this
    {
      && depth <= 63
      && |zeros| == depth + 1
      && (forall j | 0 <= j <= depth :: zeros[j] == ZeroRoot(j))
      && |levels| == depth + 1
      && Cached(levels)
      && |levels[0]| <= Pow2(depth)
    }

    ghost function Leaves(): seq<Fr>
      requires Valid()
      reads this
    {
      levels[0]
    }

    constructor (depth: nat)
      requires depth <= 63
      ensures Valid() && fresh(this) && this.depth == depth
      ensures Leaves() == []
    {
      var z := ZeroDigests(depth);
      this.depth := depth;
      this.zeros := z;
      this.levels := seq(depth + 1, j => []);
      new;
      EmptyCached(levels);
    }

    /** The tree over given leaves, one append at a time; too many of them are refused. */
    static method FromLeaves(depth: nat, leaves: seq<Fr>) returns (r: Result<ReceiptTree, Error>)
      requires depth <= 63
      ensures r.Ok? <==> |leaves| <= Pow2(depth)
      ensures r.Err? ==> r.error == ReceiptLogFull
      ensures r.Ok? ==> r.value.Valid() && fresh(r.value) && r.value.depth == depth && r.value.Leaves() == leaves
    {
      var t := new ReceiptTree(depth);
      for i := 0 to |leaves|
        invariant t.Valid() && fresh(t) && t.depth == depth
        invariant t.Leaves() == leaves[..i]
      {
        var a := t.Append(leaves[i]);
        if a.Err? {
          return Err(a.error);
        }
      }
      assert leaves[..|leaves|] == leaves;
      return Ok(t);
    }

    function Size(): nat
      requires Valid()
      reads this
    {
      |levels[0]|
    }

    /** Hash the pair with the new last entry of a level into the level above it. */
    static method Raise(low: seq<Fr>, high: seq<Fr>, idx: nat, zero: Fr, ghost before: seq<Fr>) returns (up: seq<Fr>)
      requires LevelAbove(before, high, zero)
      requires |low| == idx + 1 && idx <= |before| <= idx + 1 && low[..idx] == before[..idx]
      ensures LevelAbove(low, up, zero)
      ensures |up| == idx / 2 + 1 && idx / 2 <= |high| <= idx / 2 + 1 && up[..idx / 2] == high[..idx / 2]
    {
      hide LevelAbove;
      var pair := idx - idx % 2;
      var parent := Node(low[pair], if pair + 1 < |low| then low[pair + 1] else zero);
      up := if |high| > pair / 2 then high[pair / 2 := parent] else high + [parent];
      LevelGrows(before, high, low, up, idx, zero);
    }

    /**
     * Append a leaf; only the nodes on its path change. Refused exactly when the log is full.
     */
    method Append(leaf: Fr) returns (r: Result<nat, Error>)
      requires Valid()
      modifies this
      ensures Valid()
      ensures r == if |old(Leaves())| >= Pow2(depth) then Err(ReceiptLogFull) else Ok(|old(Leaves())|)
      ensures Leaves() == if r.Ok? then old(Leaves()) + [leaf] else old(Leaves())
    {
      hide LevelAbove;
      var index := |levels[0]|;
      if index >= Pow2(depth) {
        return Err(ReceiptLogFull);
      }
      ghost var before := levels;
      levels := levels[0 := levels[0] + [leaf]];
      var idx: nat := index;
      for j := 0 to depth
        invariant |levels| == depth + 1
        invariant forall k | j < k <= depth :: levels[k] == before[k]
        invariant forall k | 0 <= k < j :: LevelAbove(levels[k], levels[k + 1], ZeroRoot(k))
        invariant |levels[j]| == idx + 1 && idx <= |before[j]| <= idx + 1
        invariant levels[j][..idx] == before[j][..idx]
        invariant levels[0] == before[0] + [leaf]
      {
        assert LevelAbove(before[j], before[j + 1], ZeroRoot(j));
        var up := Raise(levels[j], levels[j + 1], idx, zeros[j], before[j]);
        levels := levels[j + 1 := up];
        idx := idx / 2;
      }
      return Ok(index);
    }

    /** The current root: the stored top node, or the zero root of an empty log. */
    function Root(): (root: Fr)
      requires Valid()
      reads this
      ensures root == RootOf(Leaves(), depth)
    {
      CachedNodes(levels, depth, 0);
      if |levels[depth]| > 0 then levels[depth][0] else zeros[depth]
    }

    /**
     * Node `index` of level `level` as it was when the log had `size` leaves. Below the top a
     * node that straddles the boundary has a level of at least one, since a single leaf is
     * either before the boundary or after it.
     */
    function NodeAt(level: nat, index: nat, size: nat): (n: Fr)
      requires Valid() && level <= depth && size <= Size()
      reads this
      ensures n == Sub(LeafOf(Leaves()[..size]), level, index)
    {
      var span := Pow2(level);
      var start := index * span;
      SpanEnd(index, span);
      if start >= size then
        NodeBeyond(Leaves()[..size], level, index);
        zeros[level]
      else if start + span <= size then
        NodeFull(Leaves(), size, level, index);
        CachedSize(levels, level, index);
        CachedNodes(levels, level, index);
        levels[level][index]
      else
        Node(NodeAt(level - 1, 2 * index, size), NodeAt(level - 1, 2 * index + 1, size))
    }

    /** The root the log had when it held `size` leaves. */
    method RootAt(size: nat) returns (r: Result<Fr, Error>)
      requires Valid()
      ensures size > Size() ==> r == Err(WalletState)
      ensures size <= Size() ==> r == Ok(RootOf(Leaves()[..size], depth))
    {
      if size > Size() {
        return Err(WalletState);
      }
      return Ok(NodeAt(depth, 0, size));
    }

    /**
     * The path a shorter log would have served: the siblings are that log's, and they fold the
     * receipt at `pos` to its root.
     */
    method PathAt(pos: nat, size: nat) returns (r: Result<MerklePath, Error>)
      requires Valid()
      ensures pos >= size || size > Size() ==> r == Err(WalletState)
      ensures pos < size <= Size() ==>
                && r.Ok?
                && r.value.indexBits == Bits(pos, depth)
                && r.value.siblings == SiblingsOf(LeafOf(Leaves()[..size]), 0, pos, depth)
                && Fold(Leaves()[pos], r.value.siblings, r.value.indexBits) == RootOf(Leaves()[..size], depth)
    {
      if pos >= size || size > Size() {
        return Err(WalletState);
      }
      ghost var f := LeafOf(Leaves()[..size]);
      var siblings, indexBits := [], [];
      var p := pos;
      for j := 0 to depth
        invariant |siblings| == |indexBits| == j && p == Shr(pos, j)
        invariant forall k | 0 <= k < j :: siblings[k] == Sub(f, k, Sibling(Shr(pos, k)))
        invariant forall k | 0 <= k < j :: indexBits[k] == (Shr(pos, k) % 2 == 1)
      {
        siblings := siblings + [NodeAt(j, Sibling(p), size)];
        indexBits := indexBits + [p % 2 == 1];
        ShrStep(pos, j);
        p := p / 2;
      }
      PathExt(f, pos, siblings);
      BitsExt(pos, indexBits);
      RootIff(f, depth, pos, f(pos), siblings);
      return Ok(MerklePath(siblings, indexBits));
    }
  }

  lemma SpanEnd(index: nat, span: nat)
    ensures (index + 1) * span == index * span + span
  {
  }
}
