/** Assembling a reveal: batches by index, slots by position, and the root over them. */
module Publishing {
  import Base
  import Encodings
  import Sorting
  import opened Freezes
  import OrderingRoots
  import opened RevealTables
  import StableSorts

  /** The slots of some batches, one batch after the other. */
  function Gather(ids: seq<nat>, slots: map<nat, seq<Slot>>): seq<Slot>
    requires forall id | id in ids :: id in slots
  {
    if ids == [] then []
    else
      assert forall id | id in ids[..|ids| - 1] :: id in ids;
      Gather(ids[..|ids| - 1], slots) + slots[ids[|ids| - 1]]
  }

  lemma GatherNext(ids: seq<nat>, j: nat, slots: map<nat, seq<Slot>>)
    requires j < |ids| && forall id | id in ids :: id in slots
    ensures Gather(ids[..j + 1], slots) == Gather(ids[..j], slots) + slots[ids[j]]
  {
    assert ids[..j + 1][..j] == ids[..j];
  }

  /** The slots with the position each ciphertext's row holds. */
  function Located(slots: seq<Slot>, cts: Ciphertexts): (located: seq<Slot>)
    requires forall i | 0 <= i < |slots| :: slots[i].hash in cts && cts[slots[i].hash].position.Some?
    ensures |located| == |slots|
    ensures forall i | 0 <= i < |slots| :: located[i] == slots[i].(position := cts[slots[i].hash].position.value)
  {
    seq(|slots|, i requires 0 <= i < |slots| => slots[i].(position := cts[slots[i].hash].position.value))
  }

  /** The slots numbered from zero. */
  function Numbered(slots: seq<Slot>): (numbered: seq<Slot>)
    ensures |numbered| == |slots| && forall i | 0 <= i < |slots| :: numbered[i] == slots[i].(position := i)
  {
    seq(|slots|, i requires 0 <= i < |slots| => slots[i].(position := i))
  }

  /** Slots are shown by position. */
  function PositionOrder(a: Slot, b: Slot): bool { a.position <= b.position }

  // ---- the batches of a condition ---------------------------------------------

  /** A condition's batches from some index on. */
  ghost predicate BatchFrom(batches: map<nat, BatchRow>, c: CondId, j: nat, id: nat) {
    id in batches && batches[id].condition == c && batches[id].index >= j
  }

  function IndexesOf(batches: map<nat, BatchRow>, rows: set<nat>): (js: set<nat>)
    requires forall id | id in rows :: id in batches
    ensures forall id | id in rows :: batches[id].index in js
    ensures forall j | j in js :: exists id :: id in rows && batches[id].index == j
    ensures rows != {} ==> js != {}
  {
    var js := set id | id in rows :: batches[id].index;
    assert rows != {} ==> exists id :: id in rows && batches[id].index in js;
    js
  }

  /** A condition's batches, ordered by index. */
  method BatchQuery(batches: map<nat, BatchRow>, ghost nextBatch: nat, ghost ids: BatchIds, c: CondId)
    returns (found: seq<nat>)
    requires Batched(batches, nextBatch, ids) && c in ids
    ensures found == ids[c]
  {
    hide Batched;
    var left := set id | id in batches.Keys && batches[id].condition == c;
    found := [];
    while left != {}
      invariant |found| <= |ids[c]| && found == ids[c][..|found|]
      invariant forall id :: id in left <==> BatchFrom(batches, c, |found|, id)
      decreases |left|
    {
      var first := Sorting.Min(IndexesOf(batches, left));
      var id :| id in left && batches[id].index == first;
      NextBatchRow(batches, nextBatch, ids, c, |found|, id);
      found := found + [id];
      left := left - {id};
    }
    NoBatchLeft(batches, nextBatch, ids, c, |found|);
  }

  lemma NextBatchRow(batches: map<nat, BatchRow>, nextBatch: nat, ids: BatchIds, c: CondId, j: nat, id: nat)
    requires Batched(batches, nextBatch, ids) && c in ids && BatchFrom(batches, c, j, id)
    requires forall k | BatchFrom(batches, c, j, k) :: batches[id].index <= batches[k].index
    ensures j < |ids[c]| && id == ids[c][j]
    ensures forall k :: BatchFrom(batches, c, j + 1, k) <==> BatchFrom(batches, c, j, k) && k != id
  {
    assert BatchFrom(batches, c, j, ids[c][j]);
  }

  lemma NoBatchLeft(batches: map<nat, BatchRow>, nextBatch: nat, ids: BatchIds, c: CondId, j: nat)
    requires Batched(batches, nextBatch, ids) && c in ids && j <= |ids[c]|
    requires forall k :: !BatchFrom(batches, c, j, k)
    ensures j == |ids[c]|
  {
    if j < |ids[c]| {
      assert BatchFrom(batches, c, j, ids[c][j]);
    }
  }

  // ---- the reveal -------------------------------------------------------------

  lemma HashesOfJoin(a: seq<Slot>, b: seq<Slot>)
    ensures HashesOf(a + b) == HashesOf(a) + HashesOf(b)
  {
  }

  /** Batch by batch, the finalized slots follow the frozen order. */
  lemma {:induction false} GatherOrder(crypto: Crypto, db: Db, checks: map<nat, Check>, past: Past,
      c: CondId, j: nat)
    requires Good(crypto, db, checks, past) && c in past.ids && c in past.orders && c in db.committees
    requires forall id | id in past.ids[c] :: id in db.slots
    requires j <= |past.ids[c]| && Off(db.committees[c].b, j) <= |past.orders[c]|
    ensures HashesOf(Gather(past.ids[c][..j], db.slots)) == past.orders[c][..Off(db.committees[c].b, j)]
  {
    hide Good, Gather, HashesOf, Off;
    var b, ids, order := db.committees[c].b, past.ids[c], past.orders[c];
    OffNext(b, 0);
    if j == 0 {
      assert Gather(ids[..0], db.slots) == [] && HashesOf([]) == [] by { GatherNone(db.slots); }
      assert order[..0] == [];
    } else {
      var i := j - 1;
      OffNext(b, i);
      GatherOrder(crypto, db, checks, past, c, i);
      GatherNext(ids, i, db.slots);
      OpenedSlice(crypto, db, checks, past, c, i);
      HashesOfJoin(Gather(ids[..i], db.slots), db.slots[ids[i]]);
      assert order[..Off(b, j)] == order[..Off(b, i)] + order[Off(b, i)..Off(b, j)];
    }
  }

  /** Append the slots of each batch in turn. */
  method GatherSlots(ids: seq<nat>, slots: map<nat, seq<Slot>>) returns (all: seq<Slot>)
    requires forall id | id in ids :: id in slots
    ensures all == Gather(ids, slots)
  {
    all := [];
    for j := 0 to |ids|
      invariant forall id | id in ids[..j] :: id in slots
      invariant all == Gather(ids[..j], slots)
    {
      GatherNext(ids, j, slots);
      all := all + slots[ids[j]];
    }
    assert ids[..|ids|] == ids;
  }

  lemma GatherNone(slots: map<nat, seq<Slot>>)
    ensures forall ids | |ids| == 0 :: Gather(ids, slots) == [] && HashesOf([]) == []
  {
  }

  lemma OpenedSlice(crypto: Crypto, db: Db, checks: map<nat, Check>, past: Past, c: CondId, i: nat)
    requires Good(crypto, db, checks, past) && c in past.ids && i < |past.ids[c]| && past.ids[c][i] in db.slots
    requires c in db.committees && c in past.orders
    ensures Off(db.committees[c].b, i) <= Off(db.committees[c].b, i + 1) <= |past.orders[c]|
    ensures HashesOf(db.slots[past.ids[c][i]])
            == past.orders[c][Off(db.committees[c].b, i)..Off(db.committees[c].b, i + 1)]
  {
    hide Statused, Placed, Layout, Sized, Committed, Shared, Shown, Off, BatchSlice, HashesOf, Voters;
    BatchFacts(crypto, db, checks, past, past.ids[c][i]);
  }

  /** Numbering by the rows' positions is numbering from zero, and nothing is out of order. */
  lemma LocatedInOrder(cts: Ciphertexts, orders: Orders, c: CondId, slots: seq<Slot>)
    requires Placed(cts, orders) && c in orders && HashesOf(slots) == orders[c]
    ensures forall i | 0 <= i < |slots| :: slots[i].hash in cts && cts[slots[i].hash].position.Some?
    ensures Located(slots, cts) == Numbered(slots) && StableSorts.Sort(PositionOrder, Numbered(slots))
              == Numbered(slots)
  {
    hide StableSorts.Sort;
    var order := orders[c];
    assert Lists(cts, c, order);
    forall i | 0 <= i < |slots|
      ensures slots[i].hash in cts && cts[slots[i].hash].position == Base.Some(i)
    {
      assert HashesOf(slots)[i] == slots[i].hash == order[i];
    }
    StableSorts.SortStays(PositionOrder, Numbered(slots));
  }

  lemma NewReveal(crypto: Crypto, db: Db, checks: map<nat, Check>, past: Past, c: CondId, shown: Reveal)
    requires Good(crypto, db, checks, past) && c in db.status && (db.status[c].Frozen? || db.status[c].Stalled?)
    requires c in past.ids && c in past.orders && (forall id | id in past.ids[c] :: id in db.finalizedAt)
    requires Shows(crypto.hash, shown, past.orders[c])
    ensures var db2 := db.(published := db.published[c := shown], status := db.status[c := Revealed]);
            Good(crypto, db2, checks, past) && Lasts(db, past, db2, past)
  {
    hide Placed, Layout, Sized, Batched, Committed, Shared, Opened, Shows;
  }

  lemma FrozenFacts(crypto: Crypto, db: Db, checks: map<nat, Check>, past: Past, c: CondId)
    requires Good(crypto, db, checks, past) && c in db.status && !db.status[c].Pending?
    ensures c in past.ids && c in past.orders && c in db.committees && Placed(db.cts, past.orders)
    ensures Batched(db.batches, db.nextBatch, past.ids)
    ensures |past.orders[c]| == Off(db.committees[c].b, |past.ids[c]|) > 0
    ensures forall id | id in past.ids[c] :: id in db.finalizedAt <==> id in db.slots
    ensures forall id | id in db.batches && db.batches[id].condition == c :: id in past.ids[c]
    ensures forall id | id in past.ids[c] :: id in db.batches && db.batches[id].condition == c
  {
    hide Placed, Layout, Committed, Shared, Shown, Off, Voters, HashesOf, BatchSlice, BatchCount, Reals;
    FullSize(db.committees[c].b, |past.ids[c]|);
  }

  lemma FullSize(b: nat, count: nat)
    requires b > 0 && count > 0
    ensures Off(b, count) > 0
  {
    OffMonotone(b, 1, count);
    OffNext(b, 0);
  }

  lemma GatherAll(crypto: Crypto, db: Db, checks: map<nat, Check>, past: Past, c: CondId)
    requires Good(crypto, db, checks, past) && c in db.status && !db.status[c].Pending? && c in past.ids
               && c in past.orders
    requires forall id | id in past.ids[c] :: id in db.slots
    ensures HashesOf(Gather(past.ids[c], db.slots)) == past.orders[c] != []
  {
    hide Good, Gather, HashesOf, Off, Placed, Batched;
    FrozenFacts(crypto, db, checks, past, c);
    GatherOrder(crypto, db, checks, past, c, |past.ids[c]|);
    assert past.ids[c][..|past.ids[c]|] == past.ids[c];
    assert past.orders[c][..|past.orders[c]|] == past.orders[c];
  }

  lemma NumberedShows(hash: Encodings.Bytes -> Encodings.Word, slots: seq<Slot>, order: seq<Hash>)
    requires HashesOf(slots) == order != []
    ensures Shows(hash, Reveal(Numbered(slots), OrderingRoots.Root(hash,
              OrderingRoots.Hashes(hash, RevealPreimages(Numbered(slots))))), order)
  {
    assert HashesOf(Numbered(slots)) == HashesOf(slots);
  }
}
