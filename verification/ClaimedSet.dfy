/**
 * A set of positions kept as a complete tree of marks, of which a map holds the nonzero nodes.
 * The map is proved to stand for the whole tree, and the tree's root for the whole set.
 */
module ClaimedSets {
  import opened Base
  import opened Digests
  import opened Paths

  /** The leaf function of a claimed set: one at claimed positions, zero elsewhere. */
  function ClaimOf(claimed: set<nat>): nat -> Fr {
    (i: nat) => if i in claimed then One else Zero
  }

  /** The root of the complete tree whose leaves are one exactly at `claimed`. */
  ghost function ClaimRoot(claimed: set<nat>, depth: nat): Fr {
    Sub(ClaimOf(claimed), depth, 0)
  }

  ghost predicate InRange(claimed: set<nat>, depth: nat) {
    forall p | p in claimed :: p < Pow2(depth)
  }

  /** The root commits to the set. */
  lemma ClaimRootInjective(a: set<nat>, b: set<nat>, depth: nat)
    requires InRange(a, depth) && InRange(b, depth)
    ensures ClaimRoot(a, depth) == ClaimRoot(b, depth) <==> a == b
  {
    if ClaimRoot(a, depth) == ClaimRoot(b, depth) {
      forall p | p in a || p in b
        ensures p in a && p in b
      {
        ShrOut(p, depth);
        SubInjective(ClaimOf(a), ClaimOf(b), depth, 0, p);
      }
    }
  }

  /** Claiming a position leaves every node off its path as it was. */
  lemma {:induction false} OffPath(claimed: set<nat>, pid: nat, h: nat, i: nat)
    requires Shr(pid, h) != i
    ensures Sub(ClaimOf(claimed + {pid}), h, i) == Sub(ClaimOf(claimed), h, i)
  {
    if h > 0 {
      ShrStep(pid, h - 1);
      OffPath(claimed, pid, h - 1, 2 * i);
      OffPath(claimed, pid, h - 1, 2 * i + 1);
    }
  }

  /**
   * An insertion witness is exact: siblings that take leaf zero at `pid` to the root of one
   * set take leaf one to the root of another exactly when the first set gains `pid`.
   */
  lemma InsertionIff(a: set<nat>, b: set<nat>, depth: nat, pid: nat, siblings: seq<Fr>)
    requires InRange(a, depth) && InRange(b, depth) && |siblings| == depth && pid < Pow2(depth)
    requires Fold(Zero, siblings, Bits(pid, depth)) == ClaimRoot(a, depth)
    ensures pid !in a
    ensures Fold(One, siblings, Bits(pid, depth)) == ClaimRoot(b, depth) <==> b == a + {pid}
  {
    RootIff(ClaimOf(a), depth, pid, Zero, siblings);
    var grown := a + {pid};
    SiblingsUnaffected(a, pid, 0, pid, depth);
    RootIff(ClaimOf(grown), depth, pid, One, siblings);
    ClaimRootInjective(b, grown, depth);
  }

  lemma {:induction false} SiblingsUnaffected(a: set<nat>, pid: nat, level: nat, index: nat, n: nat)
    requires Shr(pid, level) == index
    ensures SiblingsOf(ClaimOf(a + {pid}), level, index, n) == SiblingsOf(ClaimOf(a), level, index, n)
    decreases n
  {
    if n > 0 {
      OffPath(a, pid, level, Sibling(index));
      ShrStep(pid, level);
      SiblingsUnaffected(a, pid, level + 1, index / 2, n - 1);
    }
  }

  datatype SmtInsertion = SmtInsertion(oldRoot: Fr, newRoot: Fr, pid: nat, siblings: seq<Fr>)

  type NodeMap = map<(nat, nat), Fr>

  function NodeIn(nodes: NodeMap, height: nat, index: nat, default: Fr): Fr {
    if (height, index) in nodes then nodes[(height, index)] else default
  }

  /** Claimed positions: the indices stored at height zero. */
  function LeavesIn(nodes: NodeMap): set<nat> {
    set k | k in nodes.Keys && k.0 == 0 :: k.1
  }

  /** Every node of one height, stored or default, is that of the complete tree. */
  ghost predicate Level(nodes: NodeMap, claimed: set<nat>, h: nat) {
    forall i: nat :: NodeIn(nodes, h, i, ZeroRoot(h)) == Sub(ClaimOf(claimed), h, i)
  }

  /** Writing one node on the path of `pid` brings its height up to date. */
  lemma WriteNode(nodes: NodeMap, claimed: set<nat>, pid: nat, h: nat, n: Fr)
    requires Level(nodes, claimed, h) && n == Sub(ClaimOf(claimed + {pid}), h, Shr(pid, h))
    ensures Level(nodes[(h, Shr(pid, h)) := n], claimed + {pid}, h)
  {
    forall i: nat
      ensures NodeIn(nodes[(h, Shr(pid, h)) := n], h, i, ZeroRoot(h)) == Sub(ClaimOf(claimed + {pid}), h, i)
    {
      assert NodeIn(nodes, h, i, ZeroRoot(h)) == Sub(ClaimOf(claimed), h, i);
      if i != Shr(pid, h) {
        OffPath(claimed, pid, h, i);
      }
    }
  }

  lemma OtherLevel(nodes: NodeMap, claimed: set<nat>, key: (nat, nat), n: Fr, h: nat)
    requires Level(nodes, claimed, h) && key.0 != h
    ensures Level(nodes[key := n], claimed, h)
  {
    forall i: nat
      ensures NodeIn(nodes[key := n], h, i, ZeroRoot(h)) == Sub(ClaimOf(claimed), h, i)
    {
      assert NodeIn(nodes, h, i, ZeroRoot(h)) == Sub(ClaimOf(claimed), h, i);
    }
  }

  /** While `pid` is being claimed, the heights below `done` already show it and the rest do not. */
  ghost predicate Front(nodes: NodeMap, claimed: set<nat>, pid: nat, done: nat, depth: nat) {
    forall h | 0 <= h <= depth :: FrontLevel(nodes, claimed, pid, done, h)
  }

  ghost predicate FrontLevel(nodes: NodeMap, claimed: set<nat>, pid: nat, done: nat, h: nat) {
    Level(nodes, if h < done then claimed + {pid} else claimed, h)
  }

  lemma Advance(nodes: NodeMap, claimed: set<nat>, pid: nat, h: nat, n: Fr, depth: nat)
    requires Front(nodes, claimed, pid, h, depth) && h <= depth
    requires n == Sub(ClaimOf(claimed + {pid}), h, Shr(pid, h))
    ensures Front(nodes[(h, Shr(pid, h)) := n], claimed, pid, h + 1, depth)
  {
    var next, done := nodes[(h, Shr(pid, h)) := n], h + 1;
    forall k | 0 <= k <= depth
      ensures FrontLevel(next, claimed, pid, done, k)
    {
      assert FrontLevel(nodes, claimed, pid, h, k);
      if k == h {
        WriteNode(nodes, claimed, pid, h, n);
      } else {
        OtherLevel(nodes, if k < h then claimed + {pid} else claimed, (h, Shr(pid, h)), n, k);
      }
    }
  }

  /** Claiming `pid` has reached height `h`, where the path node is `n`. */
  ghost predicate Progress(nodes: NodeMap, claimed: set<nat>, pid: nat, h: nat, n: Fr, depth: nat) {
    && n == Sub(ClaimOf(claimed + {pid}), h, Shr(pid, h))
    && LeavesIn(nodes) == claimed + {pid}
    && Front(nodes, claimed, pid, h + 1, depth)
  }

  lemma ClaimBegins(nodes: NodeMap, pid: nat, depth: nat)
    requires forall h | 0 <= h <= depth :: Level(nodes, LeavesIn(nodes), h)
    ensures Progress(nodes[(0, pid) := One], LeavesIn(nodes), pid, 0, One, depth)
  {
    var claimed, next := LeavesIn(nodes), nodes[(0, pid) := One];
    assert forall h | 0 <= h <= depth :: FrontLevel(nodes, claimed, pid, 0, h);
    Advance(nodes, claimed, pid, 0, One, depth);
    assert (0, pid) in next;
  }

  lemma ClaimRises(nodes: NodeMap, claimed: set<nat>, pid: nat, h: nat, n: Fr, sibling: Fr, depth: nat)
    requires Progress(nodes, claimed, pid, h, n, depth) && h < depth
    requires sibling == Sub(ClaimOf(claimed), h, Sibling(Shr(pid, h)))
    ensures var up := Climb(n, sibling, Shr(pid, h) % 2 == 1);
            Progress(nodes[(h + 1, Shr(pid, h) / 2) := up], claimed, pid, h + 1, up, depth)
  {
    var index := Shr(pid, h);
    OffPath(claimed, pid, h, Sibling(index));
    SubSplit(ClaimOf(claimed + {pid}), h, index);
    ShrStep(pid, h);
    var up := Climb(n, sibling, index % 2 == 1);
    Advance(nodes, claimed, pid, h + 1, up, depth);
    assert LeavesIn(nodes[(h + 1, index / 2) := up]) == LeavesIn(nodes);
  }

  lemma ClaimEnds(nodes: NodeMap, claimed: set<nat>, pid: nat, n: Fr, depth: nat)
    requires Progress(nodes, claimed, pid, depth, n, depth)
    ensures forall h | 0 <= h <= depth :: Level(nodes, LeavesIn(nodes), h)
  {
    var done := depth + 1;
    assert forall h | 0 <= h <= depth ::
        FrontLevel(nodes, claimed, pid, done, h) <==> Level(nodes, claimed + {pid}, h);
  }

  class ClaimedSet {
    const depth: nat
    const defaults: seq<Fr>
    var nodes: NodeMap

    ghost function Claimed(): set<nat>
      reads this
    {
      LeavesIn(nodes)
    }

    ghost predicate Valid()
      reads this
    {
      && depth <= 64
      && |defaults| == depth + 1
      && (forall j | 0 <= j <= depth :: defaults[j] == ZeroRoot(j))
      && InRange(Claimed(), depth)
      && (forall h | 0 <= h <= depth :: Level(nodes, Claimed(), h))
    }

    constructor (depth: nat)
      requires depth <= 64
      ensures Valid() && fresh(this) && this.depth == depth && Claimed() == {}
    {
      var z := ZeroDigests(depth);
      this.depth := depth;
      this.defaults := z;
      this.nodes := map[];
      new;
      forall h: nat, i: nat
        ensures NodeIn(nodes, h, i, ZeroRoot(h)) == Sub(ClaimOf(Claimed()), h, i)
      {
        SubOfZeros(ClaimOf(Claimed()), h, i);
      }
    }

    constructor Clone(other: ClaimedSet)
      requires other.Valid()
      ensures Valid() && fresh(this) && depth == other.depth && Claimed() == other.Claimed()
    {
      depth := other.depth;
      defaults := other.defaults;
      nodes := other.nodes;
    }

    function NodeAt(height: nat, index: nat): (n: Fr)
      requires Valid() && height <= depth
      reads this
      ensures n == Sub(ClaimOf(Claimed()), height, index)
    {
      assert Level(nodes, Claimed(), height);
      NodeIn(nodes, height, index, defaults[height])
    }

    function Root(): (root: Fr)
      requires Valid()
      reads this
      ensures root == ClaimRoot(Claimed(), depth)
    {
      NodeAt(depth, 0)
    }

    /** Membership is read off the leaf digest. */
    predicate Contains(pid: nat)
      requires Valid()
      reads this
      ensures Contains(pid) <==> pid in Claimed()
    {
      NodeAt(0, pid) == One
    }

    method Siblings(pid: nat) returns (r: Result<seq<Fr>, Error>)
      requires Valid() && pid < U64
      ensures pid >= Pow2(depth) ==> r == Err(WalletState)
      ensures pid < Pow2(depth) ==> r == Ok(SiblingsOf(ClaimOf(Claimed()), 0, pid, depth))
    {
      if !FitsDepth(pid, depth) {
        return Err(WalletState);
      }
      ghost var f := ClaimOf(Claimed());
      var siblings := [];
      var p := pid;
      for h := 0 to depth
        invariant |siblings| == h && p == Shr(pid, h)
        invariant forall k | 0 <= k < h :: siblings[k] == Sub(f, k, Sibling(Shr(pid, k)))
      {
        siblings := siblings + [NodeAt(h, Sibling(p))];
        ShrStep(pid, h);
        p := p / 2;
      }
      PathExt(f, pid, siblings);
      return Ok(siblings);
    }

    /**
     * Add a position. The result carries the siblings that fold a zero leaf to the root before
     * and a one leaf to the root after; a position that is too large or taken changes nothing.
     */
    method Insert(pid: nat) returns (r: Result<SmtInsertion, Error>)
      requires Valid() && pid < U64
      modifies this
      ensures Valid()
      ensures r.Ok? <==> pid < Pow2(depth) && pid !in old(Claimed())
      ensures r.Err? ==> r.error == WalletState && nodes == old(nodes)
      ensures r.Ok? ==> Claimed() == old(Claimed()) + {pid}
      ensures r.Ok? ==> Inserts(r.value, old(Claimed()), pid, depth)
    {
      var s := Siblings(pid);
      if s.Err? || Contains(pid) {
        return Err(WalletState);
      }
      ghost var a := Claimed();
      ghost var b := a + {pid};
      var oldRoot := Root();
      var siblings := s.value;
      var n := One;
      var index := pid;
      ClaimBegins(nodes, pid, depth);
      nodes := nodes[(0, pid) := n];
      for h := 0 to depth
        invariant index == Shr(pid, h)
        invariant Progress(nodes, a, pid, h, n, depth)
      {
        SiblingsOfAt(ClaimOf(a), 0, pid, depth, h);
        ClaimRises(nodes, a, pid, h, n, siblings[h], depth);
        ShrStep(pid, h);
        n := if index % 2 == 1 then Node(siblings[h], n) else Node(n, siblings[h]);
        index := index / 2;
        nodes := nodes[(h + 1, index) := n];
      }
      ClaimEnds(nodes, a, pid, n, depth);
      RootIff(ClaimOf(a), depth, pid, Zero, siblings);
      InsertionIff(a, b, depth, pid, siblings);
      return Ok(SmtInsertion(oldRoot, Root(), pid, siblings));
    }
  }

  /**
   * What an insertion witness for `pid` proves: its siblings recompute the old root from an
   * unclaimed leaf and the new root from a claimed one.
   */
  ghost predicate Inserts(w: SmtInsertion, claimed: set<nat>, pid: nat, depth: nat) {
    && w.pid == pid && |w.siblings| == depth
    && w.oldRoot == ClaimRoot(claimed, depth) == Fold(Zero, w.siblings, Bits(pid, depth))
    && w.newRoot == ClaimRoot(claimed + {pid}, depth) == Fold(One, w.siblings, Bits(pid, depth))
  }

  /** Positions are 64-bit; the range test is skipped for a full-width tree, where it always holds. */
  predicate FitsDepth(pid: nat, depth: nat)
    requires pid < U64 && depth <= 64
    ensures FitsDepth(pid, depth) <==> pid < Pow2(depth)
  {
    PowerOf64();
    !(depth < 64 && pid >= Pow2(depth))
  }
}
