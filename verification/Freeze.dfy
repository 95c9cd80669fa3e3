/**
 * Freezing a condition: which ciphertext takes which position, how positions fall into batches,
 * and what each batch commits to.
 */
module Freezes {
  import opened Base
  import Encodings
  import Sorting

  type CondId = nat

  /** A ciphertext's 32-byte hash, as the number its fixed-width hexadecimal sorts like. */
  type Hash = h: nat | h < Encodings.Pow256(32)

  /** The bytes of a hash. */
  function Raw(h: Hash): (bytes: Encodings.Word) {
    Encodings.BigEndian(h, 32)
  }

  /** Hashes in ascending order. */
  function ByHash(s: set<Hash>): (hashes: seq<Hash>)
    ensures |hashes| == |s| && Sorting.StrictlyAscending(hashes)
    ensures forall h :: h in hashes <==> h in s
  {
    var hashes := Sorting.Sorted(s);
    assert forall i | 0 <= i < |hashes| :: hashes[i] in s;
    hashes
  }

  lemma RawInjective(h: Hash, k: Hash)
    ensures Raw(h) == Raw(k) <==> h == k
  {
    Encodings.NumberBack(h, 32);
    Encodings.NumberBack(k, 32);
  }

  /** `x` comes before `y` at their first difference. */
  ghost predicate BytesBefore(x: Encodings.Bytes, y: Encodings.Bytes) {
    exists k | 0 <= k < |x| && k < |y| :: x[..k] == y[..k] && x[k] < y[k]
  }

  lemma {:induction false} NumberLess(x: Encodings.Bytes, y: Encodings.Bytes)
    requires |x| == |y| && Encodings.Number(x) < Encodings.Number(y)
    ensures BytesBefore(x, y)
  {
    var n := |x| - 1;
    if x[..n] == y[..n] {
      assert x[n] < y[n];
    } else {
      if Encodings.Number(x[..n]) == Encodings.Number(y[..n]) {
        Encodings.BigEndianBack(x[..n]);
        Encodings.BigEndianBack(y[..n]);
        assert false;
      }
      NumberLess(x[..n], y[..n]);
      var k :| 0 <= k < n && x[..n][..k] == y[..n][..k] && x[..n][k] < y[..n][k];
      assert x[..k] == x[..n][..k] && y[..k] == y[..n][..k];
    }
  }

  /** Ascending numbers are ascending bytes: the order of hashes is that of their hexadecimal text. */
  lemma RawSorts(h: Hash, k: Hash)
    requires h < k
    ensures BytesBefore(Raw(h), Raw(k))
  {
    Encodings.NumberBack(h, 32);
    Encodings.NumberBack(k, 32);
    NumberLess(Raw(h), Raw(k));
  }

  /** `t` shares open a batch of `b` ciphertexts. */
  datatype Committee = Committee(t: nat, b: nat)

  datatype CtRow = CtRow(condition: CondId, isDummy: bool, position: Option<nat>)

  type Ciphertexts = map<Hash, CtRow>
  type Orders = map<CondId, seq<Hash>>

  // ---- batches of a position range --------------------------------------------

  /** Where batch `j` of size `b` starts. */
  function Off(b: nat, j: nat): nat { j * b }

  lemma OffNext(b: nat, j: nat)
    ensures Off(b, j + 1) == Off(b, j) + b && Off(b, 0) == 0
  {
  }

  lemma {:induction false} OffMonotone(b: nat, i: nat, j: nat)
    requires i <= j
    ensures Off(b, i) <= Off(b, j)
    decreases j - i
  {
    if i < j {
      OffMonotone(b, i + 1, j);
      OffNext(b, i);
    }
  }

  /** How many batches hold `n` ciphertexts: at least one. */
  function BatchCount(n: nat, b: nat): (count: nat)
    requires b > 0
    ensures count > 0
  {
    var ceil := (n + b - 1) / b;
    if ceil > 1 then ceil else 1
  }

  /** The fewest batches that hold `n`, but one for none. */
  lemma BatchCountLeast(n: nat, b: nat)
    requires b > 0
    ensures n <= Off(b, BatchCount(n, b))
    ensures if n > 0 then Off(b, BatchCount(n, b)) < n + b else BatchCount(n, b) == 1
  {
    var q := (n + b - 1) / b;
    assert q * b <= n + b - 1 < q * b + b;
  }

  /** Batch `j` of an order. */
  function Slice(order: seq<Hash>, b: nat, j: nat): (s: seq<Hash>)
    requires Off(b, j + 1) <= |order|
    ensures |s| == b
  {
    OffNext(b, j);
    order[Off(b, j)..Off(b, j + 1)]
  }

  // ---- positions --------------------------------------------------------------

  function Reals(cts: Ciphertexts, c: CondId): (hashes: set<Hash>)
    ensures forall h :: h in hashes <==> h in cts && cts[h].condition == c && !cts[h].isDummy
  {
    set h | h in cts.Keys && cts[h].condition == c && !cts[h].isDummy
  }

  function Dummies(cts: Ciphertexts, c: CondId): (hashes: set<Hash>)
    ensures forall h :: h in hashes <==> h in cts && cts[h].condition == c && cts[h].isDummy
  {
    set h | h in cts.Keys && cts[h].condition == c && cts[h].isDummy
  }

  /** Every place of an order holds a ciphertext of the condition that knows its place. */
  ghost predicate Lists(cts: Ciphertexts, c: CondId, order: seq<Hash>) {
    forall p | 0 <= p < |order| ::
      order[p] in cts && cts[order[p]].condition == c && cts[order[p]].position == Some(p)
  }

  /** Positions and orders are each other's inverse, and only frozen conditions have either. */
  ghost predicate Placed(cts: Ciphertexts, orders: Orders) {
    && (forall h | h in cts && cts[h].condition in orders ::
          cts[h].position.Some? && cts[h].position.value < |orders[cts[h].condition]|
          && orders[cts[h].condition][cts[h].position.value] == h)
    && (forall c | c in orders :: Lists(cts, c, orders[c]))
    && (forall h | h in cts && cts[h].condition !in orders :: cts[h].position.None? && !cts[h].isDummy)
  }

  /** The real ciphertexts come first, by hash, and then the dummies, by hash. */
  ghost predicate Layout(cts: Ciphertexts, orders: Orders) {
    forall c | c in orders :: orders[c] == ByHash(Reals(cts, c)) + ByHash(Dummies(cts, c))
  }

  /** What a freeze leaves in the ciphertext table. */
  ghost predicate Froze(cts: Ciphertexts, after: Ciphertexts, c: CondId, dummies: set<Hash>, order: seq<Hash>) {
    && after.Keys == cts.Keys + dummies
    && (forall p | 0 <= p < |order| :: order[p] in after && after[order[p]].position == Some(p))
    && (forall h | h in cts && h in order ::
          after[h].condition == cts[h].condition && after[h].isDummy == cts[h].isDummy)
    && (forall h | h in dummies :: after[h].condition == c && after[h].isDummy)
    && (forall h | h in cts && h !in order :: after[h] == cts[h])
  }

  /** The order a freeze gives a condition. */
  function OrderOf(cts: Ciphertexts, c: CondId, dummies: set<Hash>): seq<Hash> {
    ByHash(Reals(cts, c)) + ByHash(dummies)
  }

  lemma OrderOfDistinct(cts: Ciphertexts, c: CondId, dummies: set<Hash>)
    requires dummies !! cts.Keys
    ensures NoRepeats(OrderOf(cts, c, dummies))
    ensures forall h :: h in OrderOf(cts, c, dummies) <==> h in Reals(cts, c) || h in dummies
    ensures |OrderOf(cts, c, dummies)| == |Reals(cts, c)| + |dummies|
  {
    hide ByHash;
    var a, b := ByHash(Reals(cts, c)), ByHash(dummies);
    forall i, j | 0 <= i < |a| && 0 <= j < |b|
      ensures a[i] != b[j]
    {
      assert a[i] in Reals(cts, c) && b[j] in dummies;
    }
  }

  /** A freeze changes no other condition's rows, and no real ciphertext's place among the real ones. */
  lemma FrozenRows(cts: Ciphertexts, after: Ciphertexts, c: CondId, dummies: set<Hash>, order: seq<Hash>, k: CondId)
    requires Froze(cts, after, c, dummies, order) && dummies !! cts.Keys
    requires forall h :: h in order <==> h in Reals(cts, c) || h in dummies
    requires Dummies(cts, c) == {}
    ensures Reals(after, k) == Reals(cts, k)
    ensures Dummies(after, k) == if k == c then dummies else Dummies(cts, k)
  {
    forall h | h in after
      ensures h in Reals(after, k) <==> h in Reals(cts, k)
      ensures h in Dummies(after, k) <==> if k == c then h in dummies else h in Dummies(cts, k)
    {
      if h in cts && h in order {
        assert h in Reals(cts, c);
      }
    }
  }

  /** Freezing gives the condition its layout and leaves every other condition's alone. */
  lemma FrozenLayout(cts: Ciphertexts, after: Ciphertexts, orders: Orders, c: CondId, dummies: set<Hash>)
    requires Placed(cts, orders) && Layout(cts, orders) && c !in orders && dummies !! cts.Keys
    requires Froze(cts, after, c, dummies, OrderOf(cts, c, dummies))
    ensures Layout(after, orders[c := OrderOf(cts, c, dummies)])
    ensures forall k :: Reals(after, k) == Reals(cts, k)
  {
    hide ByHash, Froze;
    OrderOfDistinct(cts, c, dummies);
    assert Dummies(cts, c) == {};
    forall k
      ensures Reals(after, k) == Reals(cts, k)
      ensures Dummies(after, k) == if k == c then dummies else Dummies(cts, k)
    {
      FrozenRows(cts, after, c, dummies, OrderOf(cts, c, dummies), k);
    }
  }

  lemma FrozenPlaced(cts: Ciphertexts, after: Ciphertexts, orders: Orders, c: CondId, dummies: set<Hash>)
    requires Placed(cts, orders) && c !in orders && dummies !! cts.Keys
    requires Froze(cts, after, c, dummies, OrderOf(cts, c, dummies))
    ensures Placed(after, orders[c := OrderOf(cts, c, dummies)])
  {
    OrderOfDistinct(cts, c, dummies);
    hide OrderOf, Reals;
    PlacedByOrder(cts, after, orders, c, dummies, OrderOf(cts, c, dummies));
  }

  lemma PlacedByOrder(cts: Ciphertexts, after: Ciphertexts, orders: Orders, c: CondId, dummies: set<Hash>,
      order: seq<Hash>)
    requires Placed(cts, orders) && c !in orders && dummies !! cts.Keys && Froze(cts, after, c, dummies, order)
    requires forall h :: h in order <==> h in Reals(cts, c) || h in dummies
    ensures Placed(after, orders[c := order])
  {
    hide Reals, Froze, Lists;
    OrderKnown(cts, after, c, dummies, order);
    RestKept(cts, after, c, dummies, order);
    forall k | k in orders
      ensures Lists(after, k, orders[k])
    {
      StillLists(cts, after, c, k, orders[k]);
    }
  }

  lemma StillLists(cts: Ciphertexts, after: Ciphertexts, c: CondId, k: CondId, before: seq<Hash>)
    requires Lists(cts, k, before) && k != c
    requires forall h | h in cts && cts[h].condition != c :: h in after && after[h] == cts[h]
    ensures Lists(after, k, before)
  {
  }

  /** The frozen condition's ciphertexts know their places. */
  lemma OrderKnown(cts: Ciphertexts, after: Ciphertexts, c: CondId, dummies: set<Hash>, order: seq<Hash>)
    requires Froze(cts, after, c, dummies, order)
    requires forall h :: h in order <==> h in Reals(cts, c) || h in dummies
    ensures Lists(after, c, order)
    ensures forall h | h in after && h in order ::
              after[h].condition == c && after[h].position.Some?
              && after[h].position.value < |order| && order[after[h].position.value] == h
  {
    hide Reals;
    forall p | 0 <= p < |order|
      ensures order[p] in after && after[order[p]].condition == c && after[order[p]].position == Some(p)
    {
      assert order[p] in order;
    }
    forall h | h in after && h in order
      ensures after[h].condition == c && after[h].position.Some?
      ensures after[h].position.value < |order| && order[after[h].position.value] == h
    {
      var p :| 0 <= p < |order| && order[p] == h;
      assert after[order[p]].position == Some(p);
    }
  }

  /** Everyone else's are as they were. */
  lemma RestKept(cts: Ciphertexts, after: Ciphertexts, c: CondId, dummies: set<Hash>, order: seq<Hash>)
    requires Froze(cts, after, c, dummies, order) && dummies !! cts.Keys
    requires forall h | h in cts && cts[h].condition == c :: !cts[h].isDummy
    requires forall h :: h in order <==> h in Reals(cts, c) || h in dummies
    ensures forall h | h in after && h !in order :: h in cts && after[h] == cts[h] && after[h].condition != c
    ensures forall h | h in cts && cts[h].condition != c :: h in after && after[h] == cts[h]
  {
  }

  // ---- reading a batch back ---------------------------------------------------

  /** A ciphertext of the condition with a position in the range. */
  ghost predicate InRange(cts: Ciphertexts, c: CondId, lo: nat, hi: nat, h: Hash) {
    h in cts && cts[h].condition == c && cts[h].position.Some? && lo <= cts[h].position.value < hi
  }

  function PositionsOf(cts: Ciphertexts, rows: set<Hash>): (ps: set<nat>)
    requires forall h | h in rows :: h in cts && cts[h].position.Some?
    ensures forall h | h in rows :: cts[h].position.value in ps
    ensures forall p | p in ps :: exists h :: h in rows && cts[h].position.value == p
    ensures rows != {} ==> ps != {}
  {
    var ps := set h | h in rows :: cts[h].position.value;
    assert rows != {} ==> exists h :: h in rows && cts[h].position.value in ps;
    ps
  }

  /** The ciphertext with the least position. */
  method FirstOf(cts: Ciphertexts, rows: set<Hash>) returns (h: Hash)
    requires rows != {} && forall k | k in rows :: k in cts && cts[k].position.Some?
    ensures h in rows && forall k | k in rows :: cts[h].position.value <= cts[k].position.value
  {
    var first := Sorting.Min(PositionsOf(cts, rows));
    h :| h in rows && cts[h].position.value == first;
  }

  /** The ciphertexts of a condition with a position in the range. */
  function Within(cts: Ciphertexts, c: CondId, lo: nat, hi: nat): (rows: set<Hash>)
    ensures forall h :: h in rows <==> InRange(cts, c, lo, hi, h)
  {
    set h | h in cts.Keys && cts[h].condition == c && cts[h].position.Some? && lo <= cts[h].position.value < hi
  }

  /** The condition's ciphertexts with positions in a range, ordered by position. */
  method RangeQuery(cts: Ciphertexts, ghost orders: Orders, c: CondId, lo: nat, hi: nat) returns (rows: seq<Hash>)
    requires Placed(cts, orders) && c in orders && lo <= hi <= |orders[c]|
    ensures rows == orders[c][lo..hi]
  {
    hide Placed, Within;
    var left := Within(cts, c, lo, hi);
    rows := [];
    ghost var at := lo;
    while left != {}
      invariant lo <= at <= hi && rows == orders[c][lo..at]
      invariant left == Within(cts, c, at, hi)
      decreases |left|
    {
      var h := FirstOf(cts, left);
      NextInRange(cts, orders, c, at, hi, h);
      StretchGrows(orders[c], lo, at);
      rows := rows + [h];
      left := left - {h};
      at := at + 1;
    }
    EmptyRange(cts, orders, c, at, hi);
  }

  lemma StretchGrows<T>(s: seq<T>, lo: nat, at: nat)
    requires lo <= at < |s|
    ensures s[lo..at + 1] == s[lo..at] + [s[at]]
  {
  }

  /** The first ciphertext of a range is the one standing at its start. */
  lemma NextInRange(cts: Ciphertexts, orders: Orders, c: CondId, at: nat, hi: nat, h: Hash)
    requires Placed(cts, orders) && c in orders && at <= hi <= |orders[c]| && InRange(cts, c, at, hi, h)
    requires forall k | InRange(cts, c, at, hi, k) :: cts[h].position.value <= cts[k].position.value
    ensures at < hi && h == orders[c][at]
    ensures Within(cts, c, at + 1, hi) == Within(cts, c, at, hi) - {h}
  {
    hide Within;
    assert Lists(cts, c, orders[c]);
    assert InRange(cts, c, at, hi, orders[c][at]);
    assert cts[h].position == Some(at) && h == orders[c][at];
    forall k
      ensures k in Within(cts, c, at + 1, hi) <==> k in Within(cts, c, at, hi) && k != h
    {
    }
  }

  lemma EmptyRange(cts: Ciphertexts, orders: Orders, c: CondId, at: nat, hi: nat)
    requires Placed(cts, orders) && c in orders && at <= hi <= |orders[c]|
    requires forall h :: !InRange(cts, c, at, hi, h)
    ensures at == hi
  {
    if at < hi {
      assert Lists(cts, c, orders[c]);
      assert InRange(cts, c, at, hi, orders[c][at]);
    }
  }
}
