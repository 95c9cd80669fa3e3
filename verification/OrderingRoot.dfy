/**
 * A Merkle root that promotes odd nodes, over leaves hashed from bytes. Leaves and nodes go
 * through one untagged hash, so what the root binds depends on which leaf preimages are as long
 * as a node's.
 */
module OrderingRoots {
  import Base
  import opened Encodings

  /** What a node hashes. */
  function Both(l: Word, r: Word): (bytes: Bytes)
    ensures |bytes| == 64
  {
    var bytes: Bytes := l;
    bytes + r
  }

  /** One level up: neighbours are hashed together, an odd last node is promoted. */
  function Paired(hash: Bytes -> Word, level: seq<Word>): (up: seq<Word>)
    ensures |up| == (|level| + 1) / 2
  {
    if level == [] then []
    else if |level| == 1 then level
    else [hash(Both(level[0], level[1]))] + Paired(hash, level[2..])
  }

  /** The root over a nonempty list of leaves. */
  function Root(hash: Bytes -> Word, leaves: seq<Word>): Word
    requires leaves != []
    decreases |leaves|
  {
    if |leaves| == 1 then leaves[0] else Root(hash, Paired(hash, leaves))
  }

  lemma {:induction false} PairedAt(hash: Bytes -> Word, level: seq<Word>, k: nat)
    requires k < (|level| + 1) / 2
    ensures Paired(hash, level)[k]
            == if 2 * k + 1 < |level| then hash(Both(level[2 * k], level[2 * k + 1])) else level[2 * k]
    decreases k
  {
    if k > 0 {
      PairedAt(hash, level[2..], k - 1);
    }
  }

  /** One level up, chunk by chunk. */
  method PairUp(hash: Bytes -> Word, level: seq<Word>) returns (up: seq<Word>)
    ensures up == Paired(hash, level)
  {
    hide Paired;
    up := [];
    for k := 0 to (|level| + 1) / 2
      invariant up == Paired(hash, level)[..k]
    {
      PairedAt(hash, level, k);
      up := up + [if 2 * k + 1 < |level| then hash(Both(level[2 * k], level[2 * k + 1])) else level[2 * k]];
    }
  }

  /** The root, computed level by level; no leaves have the hash of no bytes. */
  method ComputeRoot(hash: Bytes -> Word, leaves: seq<Word>) returns (root: Word)
    ensures root == if leaves == [] then hash([]) else Root(hash, leaves)
  {
    if leaves == [] {
      return hash([]);
    }
    var level := leaves;
    while |level| > 1
      invariant level != [] && Root(hash, level) == Root(hash, leaves)
      decreases |level|
    {
      level := PairUp(hash, level);
    }
    root := level[0];
  }

  // ---- the tree a root hashes -------------------------------------------------

  /** A leaf has its preimage, a node two subtrees. */
  datatype Tree = Leaf(bytes: Bytes) | Node(left: Tree, right: Tree)

  /** What is hashed at the top of a tree. */
  function Preimage(hash: Bytes -> Word, t: Tree): Bytes
    decreases t, 0
  {
    match t
    case Leaf(bytes) => bytes
    case Node(l, r) => Both(Digest(hash, l), Digest(hash, r))
  }

  function Digest(hash: Bytes -> Word, t: Tree): Word
    decreases t, 1
  {
    hash(Preimage(hash, t))
  }

  function Digests(hash: Bytes -> Word, ts: seq<Tree>): (digests: seq<Word>)
    ensures |digests| == |ts|
  {
    seq(|ts|, i requires 0 <= i < |ts| => Digest(hash, ts[i]))
  }

  function Leaves(preimages: seq<Bytes>): (ts: seq<Tree>)
    ensures |ts| == |preimages|
  {
    seq(|preimages|, i requires 0 <= i < |preimages| => Leaf(preimages[i]))
  }

  function Hashes(hash: Bytes -> Word, preimages: seq<Bytes>): (leaves: seq<Word>)
    ensures |leaves| == |preimages|
  {
    seq(|preimages|, i requires 0 <= i < |preimages| => hash(preimages[i]))
  }

  function PairedTrees(ts: seq<Tree>): (up: seq<Tree>)
    ensures |up| == (|ts| + 1) / 2
  {
    if |ts| <= 1 then ts else [Node(ts[0], ts[1])] + PairedTrees(ts[2..])
  }

  /** The one tree over a level of trees. */
  function Joined(ts: seq<Tree>): Tree
    requires ts != []
    decreases |ts|
  {
    if |ts| == 1 then ts[0] else Joined(PairedTrees(ts))
  }

  /** The tree whose digest is the root over these leaf preimages. */
  function TreeOver(preimages: seq<Bytes>): Tree
    requires preimages != []
  {
    Joined(Leaves(preimages))
  }

  lemma {:induction false} PairedDigests(hash: Bytes -> Word, ts: seq<Tree>)
    ensures Digests(hash, PairedTrees(ts)) == Paired(hash, Digests(hash, ts))
    decreases |ts|
  {
    if |ts| > 1 {
      PairedDigests(hash, ts[2..]);
      assert Digests(hash, ts)[2..] == Digests(hash, ts[2..]);
      assert Digests(hash, PairedTrees(ts))
          == [Digest(hash, Node(ts[0], ts[1]))] + Digests(hash, PairedTrees(ts[2..]));
    } else {
      assert Digests(hash, ts) == Paired(hash, Digests(hash, ts));
    }
  }

  lemma {:induction false} JoinedDigest(hash: Bytes -> Word, ts: seq<Tree>)
    requires ts != []
    ensures Digest(hash, Joined(ts)) == Root(hash, Digests(hash, ts))
    decreases |ts|
  {
    hide Digest, PairedTrees;
    if |ts| > 1 {
      PairedDigests(hash, ts);
      JoinedDigest(hash, PairedTrees(ts));
    }
  }

  lemma TreeDigest(hash: Bytes -> Word, preimages: seq<Bytes>)
    requires preimages != []
    ensures Digest(hash, TreeOver(preimages)) == Root(hash, Hashes(hash, preimages))
  {
    JoinedDigest(hash, Leaves(preimages));
    assert Digests(hash, Leaves(preimages)) == Hashes(hash, preimages) by {
      forall i | 0 <= i < |preimages|
        ensures Digest(hash, Leaves(preimages)[i]) == hash(preimages[i])
      {
      }
    }
  }

  // ---- reading the leaves off a tree ------------------------------------------

  function Fringe(t: Tree): seq<Bytes> {
    match t
    case Leaf(bytes) => [bytes]
    case Node(l, r) => Fringe(l) + Fringe(r)
  }

  function Fringes(ts: seq<Tree>): seq<Bytes> {
    if ts == [] then [] else Fringe(ts[0]) + Fringes(ts[1..])
  }

  lemma {:induction false} PairedFringes(ts: seq<Tree>)
    ensures Fringes(PairedTrees(ts)) == Fringes(ts)
    decreases |ts|
  {
    hide Fringe;
    if |ts| > 1 {
      var rest := PairedTrees(ts[2..]);
      PairedFringes(ts[2..]);
      assert ([Node(ts[0], ts[1])] + rest)[1..] == rest;
      assert ts[1..][1..] == ts[2..] && ts[1..][0] == ts[1];
      NodeFringe(ts[0], ts[1]);
      assert (Fringe(ts[0]) + Fringe(ts[1])) + Fringes(ts[2..]) == Fringe(ts[0]) + (Fringe(ts[1]) + Fringes(ts[2..]));
    }
  }

  lemma NodeFringe(l: Tree, r: Tree)
    ensures Fringe(Node(l, r)) == Fringe(l) + Fringe(r)
  {
  }

  lemma {:induction false} JoinedFringe(ts: seq<Tree>)
    requires ts != []
    ensures Fringe(Joined(ts)) == Fringes(ts)
    decreases |ts|
  {
    hide Fringe, PairedTrees;
    if |ts| > 1 {
      PairedFringes(ts);
      JoinedFringe(PairedTrees(ts));
    } else {
      assert ts[1..] == [] && Fringes(ts[1..]) == [];
    }
  }

  lemma {:induction false} LeavesFringe(preimages: seq<Bytes>)
    ensures Fringes(Leaves(preimages)) == preimages
  {
    if preimages != [] {
      assert Leaves(preimages)[1..] == Leaves(preimages[1..]);
      LeavesFringe(preimages[1..]);
    }
  }

  lemma TreeFringe(preimages: seq<Bytes>)
    requires preimages != []
    ensures Fringe(TreeOver(preimages)) == preimages
  {
    JoinedFringe(Leaves(preimages));
    LeavesFringe(preimages);
  }

  // ---- lists of one length have trees of one shape ----------------------------

  ghost predicate SameShape(s: Tree, t: Tree) {
    match (s, t)
    case (Leaf(_), Leaf(_)) => true
    case (Node(a, b), Node(c, d)) => SameShape(a, c) && SameShape(b, d)
    case _ => false
  }

  ghost predicate SameShapes(ss: seq<Tree>, ts: seq<Tree>) {
    |ss| == |ts| && forall i | 0 <= i < |ss| :: SameShape(ss[i], ts[i])
  }

  lemma {:induction false} PairedShapes(ss: seq<Tree>, ts: seq<Tree>)
    requires SameShapes(ss, ts)
    ensures SameShapes(PairedTrees(ss), PairedTrees(ts))
    decreases |ss|
  {
    if |ss| > 1 {
      PairedShapes(ss[2..], ts[2..]);
      assert SameShape(Node(ss[0], ss[1]), Node(ts[0], ts[1]));
    }
  }

  lemma {:induction false} JoinedShape(ss: seq<Tree>, ts: seq<Tree>)
    requires SameShapes(ss, ts) && ss != []
    ensures SameShape(Joined(ss), Joined(ts))
    decreases |ss|
  {
    hide SameShape, PairedTrees;
    if |ss| > 1 {
      PairedShapes(ss, ts);
      JoinedShape(PairedTrees(ss), PairedTrees(ts));
    }
  }

  // ---- what a root binds ------------------------------------------------------

  function Parts(t: Tree): set<Tree> {
    {t} + if t.Node? then Parts(t.left) + Parts(t.right) else {}
  }

  /** Two preimages, one hashed for each tree, are different and have one hash. */
  ghost predicate TreesClash(hash: Bytes -> Word, s: Tree, t: Tree) {
    exists u, v | u in Parts(s) && v in Parts(t) ::
      Preimage(hash, u) != Preimage(hash, v) && Digest(hash, u) == Digest(hash, v)
  }

  ghost predicate Clash(hash: Bytes -> Word, xs: seq<Bytes>, ys: seq<Bytes>)
    requires xs != [] && ys != []
  {
    TreesClash(hash, TreeOver(xs), TreeOver(ys))
  }

  /** No leaf preimage is as long as a node's. */
  ghost predicate Apart(preimages: seq<Bytes>) {
    forall x | x in preimages :: |x| != 64
  }

  lemma ClashBelow(hash: Bytes -> Word, s: Tree, t: Tree, s2: Tree, t2: Tree)
    requires TreesClash(hash, s, t) && Parts(s) <= Parts(s2) && Parts(t) <= Parts(t2)
    ensures TreesClash(hash, s2, t2)
  {
    hide Parts, Preimage, Digest;
  }

  lemma ClashHere(hash: Bytes -> Word, s: Tree, t: Tree)
    requires Preimage(hash, s) != Preimage(hash, t) && Digest(hash, s) == Digest(hash, t)
    ensures TreesClash(hash, s, t)
  {
    assert s in Parts(s) && t in Parts(t);
  }

  lemma {:induction false} TreesBind(hash: Bytes -> Word, s: Tree, t: Tree)
    requires Digest(hash, s) == Digest(hash, t)
    requires SameShape(s, t) || (Apart(Fringe(s)) && Apart(Fringe(t)))
    ensures s == t || TreesClash(hash, s, t)
  {
    hide TreesClash, Digest;
    if Preimage(hash, s) != Preimage(hash, t) {
      ClashHere(hash, s, t);
    } else {
      match (s, t)
      case (Node(a, b), Node(c, d)) =>
        Halves(Digest(hash, a), Digest(hash, b), Digest(hash, c), Digest(hash, d));
        TreesBind(hash, a, c);
        TreesBind(hash, b, d);
        if a != c {
          ClashBelow(hash, a, c, s, t);
        } else if b != d {
          ClashBelow(hash, b, d, s, t);
        }
      case (Leaf(x), Node(_, _)) =>
        assert false;
      case (Node(_, _), Leaf(y)) =>
        assert false;
      case (Leaf(_), Leaf(_)) =>
    }
  }

  lemma Halves(a: Word, b: Word, c: Word, d: Word)
    requires Both(a, b) == Both(c, d)
    ensures a == c && b == d
  {
    assert a == Both(a, b)[..32] && c == Both(c, d)[..32];
    assert b == Both(a, b)[32..] && d == Both(c, d)[32..];
  }

  lemma TreesOverBind(hash: Bytes -> Word, xs: seq<Bytes>, ys: seq<Bytes>)
    requires xs != [] && ys != [] && Root(hash, Hashes(hash, xs)) == Root(hash, Hashes(hash, ys))
    requires SameShape(TreeOver(xs), TreeOver(ys)) || (Apart(xs) && Apart(ys))
    ensures xs == ys || Clash(hash, xs, ys)
  {
    hide TreeOver, Digest, Root, TreesClash;
    TreeDigest(hash, xs);
    TreeDigest(hash, ys);
    TreeFringe(xs);
    TreeFringe(ys);
    TreesBind(hash, TreeOver(xs), TreeOver(ys));
  }

  /** Lists of one length: for any hash, one root means one list, or a collision to show. */
  lemma RootBinds(hash: Bytes -> Word, xs: seq<Bytes>, ys: seq<Bytes>)
    requires |xs| == |ys| && xs != []
    ensures Root(hash, Hashes(hash, xs)) == Root(hash, Hashes(hash, ys)) ==> xs == ys || Clash(hash, xs, ys)
  {
    if Root(hash, Hashes(hash, xs)) == Root(hash, Hashes(hash, ys)) {
      JoinedShape(Leaves(xs), Leaves(ys));
      TreesOverBind(hash, xs, ys);
    }
  }

  /** Lists of any lengths, provided no leaf preimage has a node's 64 bytes. */
  lemma RootBindsAnyLength(hash: Bytes -> Word, xs: seq<Bytes>, ys: seq<Bytes>)
    requires xs != [] && ys != [] && Apart(xs) && Apart(ys)
    ensures Root(hash, Hashes(hash, xs)) == Root(hash, Hashes(hash, ys)) ==> xs == ys || Clash(hash, xs, ys)
  {
    if Root(hash, Hashes(hash, xs)) == Root(hash, Hashes(hash, ys)) {
      TreesOverBind(hash, xs, ys);
    }
  }

  // ---- the proviso is exact ---------------------------------------------------

  /** One root, two lists, and no collision that would excuse it. */
  ghost predicate Confused(hash: Bytes -> Word, xs: seq<Bytes>, ys: seq<Bytes>)
    requires xs != [] && ys != []
  {
    Root(hash, Hashes(hash, xs)) == Root(hash, Hashes(hash, ys)) && xs != ys && !Clash(hash, xs, ys)
  }

  /** A list and the shorter list whose leaves are its first level of nodes have one root. */
  lemma LengthsCollide(hash: Bytes -> Word, xs: seq<Bytes>, ys: seq<Bytes>)
    requires |xs| > 1 && Hashes(hash, ys) == Paired(hash, Hashes(hash, xs))
    ensures |ys| < |xs| && Root(hash, Hashes(hash, ys)) == Root(hash, Hashes(hash, xs))
  {
  }

  /** Three leaves or two, two leaves or one: 64 bytes that are two leaf hashes make the difference. */
  lemma PairCollides(hash: Bytes -> Word, a: Bytes, b: Bytes, c: Bytes, x: Bytes)
    requires x == Both(hash(a), hash(b))
    ensures Root(hash, Hashes(hash, [a, b])) == Root(hash, Hashes(hash, [x]))
    ensures Root(hash, Hashes(hash, [a, b, c])) == Root(hash, Hashes(hash, [x, c]))
  {
    assert Hashes(hash, [a, b]) == [hash(a), hash(b)] && Hashes(hash, [x]) == [hash(x)];
    assert Hashes(hash, [a, b, c]) == [hash(a), hash(b), hash(c)] && Hashes(hash, [x, c]) == [hash(x), hash(c)];
    assert [hash(a), hash(b)][2..] == [] && [hash(a), hash(b), hash(c)][2..] == [hash(c)];
    assert Paired(hash, [hash(a), hash(b), hash(c)]) == [hash(x), hash(c)];
    assert Paired(hash, [hash(a), hash(b)]) == [hash(x)];
  }

  /**
   * A leaf whose preimage has 64 bytes is confused with two leaves under some hash, with no
   * collision; a leaf of any other length is confused with nothing under any.
   */
  lemma LeafLengthIff(x: Bytes)
    ensures |x| == 64 <==> exists hash: Bytes -> Word, ys: seq<Bytes> | ys != [] :: Confused(hash, [x], ys)
  {
    if |x| == 64 {
      var hash := MeetsNode(x, [0], [1]);
      assert Confused(hash, [x], [[0], [1]]);
    } else {
      forall hash: Bytes -> Word, ys: seq<Bytes> | ys != []
        ensures !Confused(hash, [x], ys)
      {
        SingleBinds(hash, x, ys);
      }
    }
  }

  lemma SingleBinds(hash: Bytes -> Word, x: Bytes, ys: seq<Bytes>)
    requires |x| != 64 && ys != []
    ensures !Confused(hash, [x], ys)
  {
    hide Parts;
    TreeDigest(hash, [x]);
    TreeDigest(hash, ys);
    TreeFringe(ys);
    assert TreeOver([x]) == Leaf(x);
    var t := TreeOver(ys);
    if Root(hash, Hashes(hash, [x])) == Root(hash, Hashes(hash, ys)) {
      if Preimage(hash, t) != x {
        ClashHere(hash, Leaf(x), t);
      } else {
        assert t.Leaf? && Fringe(t) == [x];
      }
    }
  }

  /** A hash under which the two halves of 64 bytes are the hashes of two leaves. */
  function Halving(x: Bytes, a: Bytes, b: Bytes, other: Word): (hash: Bytes -> Word)
    requires |x| == 64
  {
    (bytes: Bytes) => if bytes == a then x[..32] else if bytes == b then x[32..] else other
  }

  lemma TreeOverTwo(a: Bytes, b: Bytes)
    ensures TreeOver([a, b]) == Node(Leaf(a), Leaf(b))
  {
    var ts := Leaves([a, b]);
    assert ts == [Leaf(a), Leaf(b)] && ts[2..] == [];
    var up := PairedTrees(ts);
    assert up == [Node(Leaf(a), Leaf(b))] && Joined(up) == Node(Leaf(a), Leaf(b));
  }

  lemma LeafDigest(hash: Bytes -> Word, x: Bytes)
    ensures Preimage(hash, Leaf(x)) == x && Digest(hash, Leaf(x)) == hash(x) && Parts(Leaf(x)) == {Leaf(x)}
  {
  }

  lemma NodeDigest(hash: Bytes -> Word, l: Tree, r: Tree)
    ensures Preimage(hash, Node(l, r)) == Both(Digest(hash, l), Digest(hash, r))
    ensures forall u | u in Parts(Node(l, r)) :: u == Node(l, r) || u in Parts(l) || u in Parts(r)
  {
    hide Digest;
  }

  /** A leaf is no collision with the node it is the preimage of, nor with leaves of other hashes. */
  lemma NoClash(hash: Bytes -> Word, x: Bytes, a: Bytes, b: Bytes)
    requires x == Both(hash(a), hash(b)) && hash(x) != hash(a) && hash(x) != hash(b)
    ensures !TreesClash(hash, Leaf(x), Node(Leaf(a), Leaf(b)))
  {
    hide Parts, Preimage, Digest;
    LeafDigest(hash, x);
    LeafDigest(hash, a);
    LeafDigest(hash, b);
    NodeDigest(hash, Leaf(a), Leaf(b));
  }

  /** Under the halving hash the three preimages have their three digests. */
  lemma HalvesMeet(x: Bytes, a: Bytes, b: Bytes, other: Word)
    requires |x| == 64 && a != b && x != a && x != b && other[0] == Third(x[0], x[32])
    ensures var hash := Halving(x, a, b, other);
            x == Both(hash(a), hash(b)) && hash(x) != hash(a) && hash(x) != hash(b)
  {
    assert x == x[..32] + x[32..];
    assert x[..32][0] == x[0] && x[32..][0] == x[32];
  }

  lemma MeetsNode(x: Bytes, a: Bytes, b: Bytes) returns (hash: Bytes -> Word)
    requires |x| == 64 && a != b && x != a && x != b
    ensures Confused(hash, [x], [a, b])
  {
    hide Halving, Root, Hashes, TreeOver, TreesClash, Both;
    var other: Word := seq(32, i => Third(x[0], x[32]));
    hash := Halving(x, a, b, other);
    HalvesMeet(x, a, b, other);
    PairCollides(hash, a, b, [], x);
    TreeOverTwo(a, b);
    TreeOverOne(x);
    NoClash(hash, x, a, b);
    assert |[x]| != |[a, b]|;
  }

  lemma TreeOverOne(x: Bytes)
    ensures TreeOver([x]) == Leaf(x)
  {
  }

  /** A byte that is neither of two. */
  function Third(a: Byte, b: Byte): (c: Byte)
    ensures c != a && c != b
  {
    if a != 0 && b != 0 then 0 else if a != 1 && b != 1 then 1 else 2
  }

  // ---- leaf preimages ---------------------------------------------------------

  /** What an ordering leaf hashes: the intent id, a zero byte, the ciphertext hash. */
  function LeafBytes(id: Bytes, ct: Bytes): (bytes: Bytes) {
    id + [0] + ct
  }

  /** What a reveal leaf hashes: the position's low 32 bits as little-endian bytes, then the payload. */
  function SlotBytes(position: nat, payload: Bytes): (bytes: Bytes) {
    LittleEndian(position, 4) + payload
  }

  /** Ciphertext hashes of one width: an ordering leaf names one id and one ciphertext. */
  lemma LeafBytesInjective(id1: Bytes, ct1: Bytes, id2: Bytes, ct2: Bytes)
    requires |ct1| == |ct2|
    ensures LeafBytes(id1, ct1) == LeafBytes(id2, ct2) <==> id1 == id2 && ct1 == ct2
  {
    var a, b := LeafBytes(id1, ct1), LeafBytes(id2, ct2);
    if a == b {
      assert |id1| == |id2|;
      assert a[..|id1|] == id1 && b[..|id2|] == id2;
      assert a[|id1| + 1..] == ct1 && b[|id2| + 1..] == ct2;
    }
  }

  /** Hashes of one width also keep the leaf unambiguous without the separator. */
  lemma SeparatorNotNeeded(id1: Bytes, ct1: Bytes, id2: Bytes, ct2: Bytes)
    requires |ct1| == |ct2|
    ensures id1 + ct1 == id2 + ct2 <==> id1 == id2 && ct1 == ct2
  {
    if id1 + ct1 == id2 + ct2 {
      assert (id1 + ct1)[..|id1|] == id1 && (id2 + ct2)[..|id2|] == id2;
      assert (id1 + ct1)[|id1|..] == ct1 && (id2 + ct2)[|id2|..] == ct2;
    }
  }

  /** A reveal leaf names one position and one payload, for positions of 32 bits. */
  lemma SlotBytesInjective(p: nat, x: Bytes, q: nat, y: Bytes)
    requires p < 0x1_0000_0000 && q < 0x1_0000_0000
    ensures SlotBytes(p, x) == SlotBytes(q, y) <==> p == q && x == y
  {
    var a, b := SlotBytes(p, x), SlotBytes(q, y);
    if a == b {
      assert LittleEndian(p, 4) == a[..4] == b[..4] == LittleEndian(q, 4);
      assert a[4..] == x && b[4..] == y;
      Base.Squared(2, 4);
      Base.Squared(4, 16);
      Base.Squared(8, 256);
      Base.Squared(16, 0x1_0000);
      LittleEndianInjective(p, q, 4);
    }
  }

  /** A node's preimage is an ordering leaf's exactly for an id of 31 bytes. */
  lemma OrderingLeafLength(id: Bytes, ct: Word)
    ensures |LeafBytes(id, ct)| == 64 <==> |id| == 31
    ensures |id| == 31 ==> |id + [0]| == 32 && LeafBytes(id, ct) == Both(id + [0], ct)
  {
  }

  /** The position whose four bytes these are. */
  function PositionOf(b: Bytes): (p: nat)
    requires |b| == 4
    ensures p < 0x1_0000_0000 && LittleEndian(p, 4) == b
  {
    FourBytes(b[0], b[1], b[2], b[3]);
    (b[0] as nat) + 256 * ((b[1] as nat) + 256 * ((b[2] as nat) + 256 * (b[3] as nat)))
  }

  lemma LowByte(b: Byte, x: nat)
    ensures ((b as nat) + 256 * x) % 256 == b && ((b as nat) + 256 * x) / 256 == x
  {
    var n := (b as nat) + 256 * x;
    assert n == 256 * (n / 256) + n % 256;
  }

  lemma LowFirst(n: nat, k: nat)
    ensures LittleEndian(n, k + 1) == [n % 256] + LittleEndian(n / 256, k)
  {
  }

  lemma ByteFirst(b: Byte, x: nat, n: nat)
    ensures LittleEndian((b as nat) + 256 * x, n + 1) == [b] + LittleEndian(x, n)
  {
    hide LittleEndian;
    LowByte(b, x);
    LowFirst((b as nat) + 256 * x, n);
  }

  lemma FourBytes(a: Byte, b: Byte, c: Byte, d: Byte)
    ensures LittleEndian((a as nat) + 256 * ((b as nat) + 256 * ((c as nat) + 256 * (d as nat))), 4) == [a, b, c, d]
  {
    hide LittleEndian;
    var z: nat := d;
    var y: nat := (c as nat) + 256 * z;
    var x: nat := (b as nat) + 256 * y;
    ByteFirst(d, 0, 0);
    ByteFirst(c, z, 1);
    ByteFirst(b, y, 2);
    ByteFirst(a, x, 3);
    assert [a] + ([b] + ([c] + ([d] + LittleEndian(0, 0)))) == [a, b, c, d];
  }

  /**
   * Every pair of leaves is a reveal leaf: for any hash, the node over `a` and `b` has the
   * preimage of the slot at some position with some payload of 60 bytes, and lists of different
   * lengths have one root.
   */
  lemma SlotCollides(hash: Bytes -> Word, a: Bytes, b: Bytes, c: Bytes)
    ensures var l := hash(a);
            var p, payload := PositionOf(l[..4]), l[4..] + hash(b);
            && |payload| == 60 && SlotBytes(p, payload) == Both(l, hash(b))
            && Root(hash, Hashes(hash, [a, b])) == Root(hash, Hashes(hash, [SlotBytes(p, payload)]))
            && Root(hash, Hashes(hash, [a, b, c])) == Root(hash, Hashes(hash, [SlotBytes(p, payload), c]))
  {
    var l := hash(a);
    assert l == l[..4] + l[4..];
    assert SlotBytes(PositionOf(l[..4]), l[4..] + hash(b)) == Both(l, hash(b));
    PairCollides(hash, a, b, c, Both(l, hash(b)));
  }

  /** An id of 31 bytes: its ordering leaf is the node over any leaves with these hashes. */
  lemma OrderingCollides(hash: Bytes -> Word, a: Bytes, b: Bytes, c: Bytes, id: Bytes, ct: Word)
    requires hash(a) == id + [0] && hash(b) == ct
    ensures |id| == 31
    ensures Root(hash, Hashes(hash, [a, b])) == Root(hash, Hashes(hash, [LeafBytes(id, ct)]))
    ensures Root(hash, Hashes(hash, [a, b, c])) == Root(hash, Hashes(hash, [LeafBytes(id, ct), c]))
  {
    PairCollides(hash, a, b, c, LeafBytes(id, ct));
  }
}
