/**
 * Where the payloads of a reveal come from: every slot, by its position in the frozen order, is
 * what the first shares of its batch recover from its own ciphertext.
 */
module Recoveries {
  import opened Base
  import opened Encodings
  import opened Freezes
  import opened RevealTables
  import opened Publishing

  /** What a ciphertext of a batch opens to. */
  type Opener = (seq<Share>, seq<Hash>, Hash) -> Opening

  /** The slots of a batch are what `t` of its operators' shares recover. */
  ghost predicate OpenedFrom(open: Opener, db: Db, past: Past, id: nat, ops: seq<nat>, keys: seq<Share>)
    requires id in db.slots && id in db.batches && db.batches[id].condition in db.committees
  {
    && |ops| == db.committees[db.batches[id].condition].t && NoRepeats(ops)
    && Submitted(db.shares, id, ops, keys)
    && OpenedWith(open, keys, BatchSlice(db.committees, past.orders, db.batches[id]), db.cts, db.slots[id])
  }

  /** Every finalized batch was opened with the shares of as many operators as its committee asks for. */
  ghost predicate Recovered(open: Opener, db: Db, past: Past) {
    forall id | id in db.slots ::
      && id in db.batches && db.batches[id].condition in db.committees
      && exists ops, keys :: OpenedFrom(open, db, past, id, ops, keys)
  }

  /** Every reveal shows the slots of its batches, in the order of their index, numbered from zero. */
  ghost predicate Assembled(db: Db, past: Past) {
    forall c | c in db.published ::
      && c in past.ids && (forall id | id in past.ids[c] :: id in db.slots)
      && db.published[c].slots == Numbered(Gather(past.ids[c], db.slots))
  }

  // ---- what keeps them ----------------------------------------------------------

  /** Nothing a finalized batch rests on has moved. */
  ghost predicate Grows(db: Db, past: Past, db2: Db, past2: Past) {
    && Grown(db.committees, past.orders, db2.committees, past2.orders)
    && Rooted(db.batches, db.committees, past.orders)
    && (forall id | id in db.batches :: id in db2.batches && db2.batches[id] == db.batches[id])
    && (forall k | k in db.shares :: k in db2.shares && db2.shares[k] == db.shares[k])
    && (forall h | h in db.cts :: h in db2.cts && db2.cts[h].isDummy == db.cts[h].isDummy)
    && (forall c | c in past.ids :: c in past2.ids && past2.ids[c] == past.ids[c])
  }

  lemma OpenedKept(open: Opener, db: Db, past: Past, db2: Db, past2: Past, id: nat, ops: seq<nat>, keys: seq<Share>)
    requires Grows(db, past, db2, past2)
    requires id in db.slots && id in db.batches && db.batches[id].condition in db.committees
    requires id in db2.slots && db2.slots[id] == db.slots[id] && OpenedFrom(open, db, past, id, ops, keys)
    ensures id in db2.batches && db2.batches[id].condition in db2.committees
    ensures OpenedFrom(open, db2, past2, id, ops, keys)
  {
    hide BatchSlice;
    SlicesKept(db.batches, db.committees, past.orders, db2.committees, past2.orders);
  }

  lemma RecoveredKept(open: Opener, db: Db, past: Past, db2: Db, past2: Past)
    requires Recovered(open, db, past) && Grows(db, past, db2, past2) && db2.slots == db.slots
    ensures Recovered(open, db2, past2)
  {
    hide OpenedFrom;
    forall id | id in db2.slots
      ensures id in db2.batches && db2.batches[id].condition in db2.committees
      ensures exists ops, keys :: OpenedFrom(open, db2, past2, id, ops, keys)
    {
      var ops, keys :| OpenedFrom(open, db, past, id, ops, keys);
      OpenedKept(open, db, past, db2, past2, id, ops, keys);
    }
  }

  lemma AssembledKept(db: Db, past: Past, db2: Db, past2: Past)
    requires Assembled(db, past) && Grows(db, past, db2, past2)
    requires db2.slots == db.slots && db2.published == db.published
    ensures Assembled(db2, past2)
  {
    hide Gather, Numbered, Grown, Rooted;
  }

  lemma BatchesRooted(crypto: Crypto, db: Db, checks: map<nat, Check>, past: Past)
    requires Good(crypto, db, checks, past)
    ensures Rooted(db.batches, db.committees, past.orders)
  {
    hide Statused, Placed, Layout, Committed, Shared, Opened, Shown;
    BatchedRooted(db.batches, db.nextBatch, past.ids, db.committees, past.orders);
  }

  /** The invariant of the engine, with where its payloads come from. */
  ghost predicate Sourced(crypto: Crypto, db: Db, past: Past) {
    Recovered(crypto.open, db, past) && Assembled(db, past)
  }

  lemma EmptySourced(crypto: Crypto)
    ensures Sourced(crypto, EMPTY_DB, EMPTY_PAST)
  {
  }

  lemma SourcedKept(crypto: Crypto, db: Db, past: Past, db2: Db, past2: Past)
    requires Sourced(crypto, db, past) && Grows(db, past, db2, past2)
    requires db2.slots == db.slots && db2.published == db.published
    ensures Sourced(crypto, db2, past2)
  {
    hide Recovered, Assembled, Grows;
    RecoveredKept(crypto.open, db, past, db2, past2);
    AssembledKept(db, past, db2, past2);
  }

  /** A freeze draws ids and an order for a condition that had none, and marks only its own dummies. */
  lemma FreezeGrows(db: Db, past: Past, db2: Db, past2: Past, c: CondId, dummies: set<Hash>, order: seq<Hash>,
      drawn: seq<nat>)
    requires Rooted(db.batches, db.committees, past.orders) && c !in past.orders && c !in past.ids
    requires Froze(db.cts, db2.cts, c, dummies, order) && db2.committees == db.committees && db2.shares == db.shares
    requires past2.orders == past.orders[c := order] && past2.ids == past.ids[c := drawn]
    requires forall id | id in db.batches :: id in db2.batches && db2.batches[id] == db.batches[id]
    ensures Grows(db, past, db2, past2)
  {
    hide Froze, Rooted;
    OneMoreOrder(db.committees, past.orders, c, order);
    FrozeMarks(db.cts, db2.cts, c, dummies, order);
  }

  lemma FrozeMarks(cts: Ciphertexts, after: Ciphertexts, c: CondId, dummies: set<Hash>, order: seq<Hash>)
    requires Froze(cts, after, c, dummies, order)
    ensures forall h | h in cts :: h in after && after[h].isDummy == cts[h].isDummy
  {
    forall h | h in cts
      ensures h in after && after[h].isDummy == cts[h].isDummy
    {
      if h in order {
      }
    }
  }

  lemma KeysAgree(crypto: Crypto, db: Db, checks: map<nat, Check>, past: Past)
    requires Good(crypto, db, checks, past)
    ensures past.ids.Keys == past.orders.Keys
  {
    hide Statused, Placed, Layout, Batched, Committed, Shared, Opened, Shown;
  }

  lemma ConditionGrows(crypto: Crypto, db: Db, checks: map<nat, Check>, past: Past, c: CondId, committee: Committee)
    requires Good(crypto, db, checks, past) && c !in db.status
    ensures Grows(db, past, db.(committees := db.committees[c := committee], status := db.status[c := Pending]), past)
  {
    hide Placed, Layout, Sized, Batched, Committed, Shared, Opened, Shown, Rooted;
    BatchesRooted(crypto, db, checks, past);
  }

  lemma SealGrows(crypto: Crypto, db: Db, checks: map<nat, Check>, past: Past, h: Hash, row: CtRow)
    requires Good(crypto, db, checks, past) && h !in db.cts
    ensures Grows(db, past, db.(cts := db.cts[h := row]), past)
  {
    hide Good, Rooted;
    BatchesRooted(crypto, db, checks, past);
  }

  lemma ShareGrows(crypto: Crypto, db: Db, checks: map<nat, Check>, past: Past, batch: nat, operator: nat,
      row: ShareRow)
    requires Good(crypto, db, checks, past) && (batch, operator) !in db.shares
    ensures Grows(db, past, db.(shares := db.shares[(batch, operator) := row]), past)
  {
    hide Good, Rooted;
    BatchesRooted(crypto, db, checks, past);
  }

  lemma StatusGrows(crypto: Crypto, db: Db, checks: map<nat, Check>, past: Past, status: map<CondId, Status>)
    requires Good(crypto, db, checks, past)
    ensures Grows(db, past, db.(status := status), past)
  {
    hide Good, Rooted;
    BatchesRooted(crypto, db, checks, past);
  }

  /** The slots of a batch that is not finalized are not there. */
  lemma NotOpened(crypto: Crypto, db: Db, checks: map<nat, Check>, past: Past)
    requires Good(crypto, db, checks, past)
    ensures db.finalizedAt.Keys == db.slots.Keys
  {
    hide Statused, Placed, Layout, Sized, Batched, Committed, Shared, Shown;
  }

  lemma NewRowsKeep(crypto: Crypto, db: Db, checks: map<nat, Check>, past: Past, c: CondId, count: nat, now: nat)
    requires Good(crypto, db, checks, past)
    ensures forall id | id in db.batches ::
              id in db.batches + NewRows(db.nextBatch, c, count, now)
              && (db.batches + NewRows(db.nextBatch, c, count, now))[id] == db.batches[id]
  {
    hide Statused, Placed, Layout, Sized, Committed, Shared, Opened, Shown, NewIds;
  }

  /** A batch is finalized with the shares of the earliest operators. */
  lemma SourcedOpening(crypto: Crypto, db: Db, past: Past, id: nat, ops: seq<nat>,
      keys: seq<Share>, slots: seq<Slot>, now: nat)
    requires Sourced(crypto, db, past) && id in db.batches && id !in db.slots
    requires db.batches[id].condition in db.committees
    requires |ops| == db.committees[db.batches[id].condition].t && NoRepeats(ops) && Submitted(db.shares, id, ops, keys)
    requires OpenedWith(crypto.open, keys, BatchSlice(db.committees, past.orders, db.batches[id]), db.cts, slots)
    ensures Sourced(crypto, db.(finalizedAt := db.finalizedAt[id := now], slots := db.slots[id := slots]), past)
  {
    hide BatchSlice, Gather, Numbered, OpenedWith, Submitted;
    var db2 := db.(finalizedAt := db.finalizedAt[id := now], slots := db.slots[id := slots]);
    assert OpenedFrom(crypto.open, db2, past, id, ops, keys);
    forall k | k in db2.slots
      ensures k in db2.batches && db2.batches[k].condition in db2.committees
      ensures exists ks, gs :: OpenedFrom(crypto.open, db2, past, k, ks, gs)
    {
      if k != id {
        var ks, gs :| OpenedFrom(crypto.open, db, past, k, ks, gs);
        assert OpenedFrom(crypto.open, db2, past, k, ks, gs);
      }
    }
    forall c | c in db.published
      ensures c in past.ids && (forall k | k in past.ids[c] :: k in db2.slots)
      ensures db.published[c].slots == Numbered(Gather(past.ids[c], db2.slots))
    {
      GatherSame(past.ids[c], db.slots, db2.slots);
    }
  }

  lemma {:induction false} GatherSame(ids: seq<nat>, slots: map<nat, seq<Slot>>, more: map<nat, seq<Slot>>)
    requires forall id | id in ids :: id in slots && id in more && more[id] == slots[id]
    ensures Gather(ids, more) == Gather(ids, slots)
  {
    if ids != [] {
      assert ids[|ids| - 1] in ids && forall id | id in ids[..|ids| - 1] :: id in ids;
      GatherSame(ids[..|ids| - 1], slots, more);
    }
  }

  lemma SourcedReveal(crypto: Crypto, db: Db, past: Past, c: CondId, shown: Reveal)
    requires Sourced(crypto, db, past) && c in past.ids && (forall id | id in past.ids[c] :: id in db.slots)
    requires shown.slots == Numbered(Gather(past.ids[c], db.slots))
    ensures Sourced(crypto, db.(published := db.published[c := shown], status := db.status[c := Revealed]), past)
  {
    hide Gather, Numbered, BatchSlice, OpenedWith, Submitted;
    var db2 := db.(published := db.published[c := shown], status := db.status[c := Revealed]);
    forall id | id in db2.slots
      ensures id in db2.batches && db2.batches[id].condition in db2.committees
      ensures exists ops, keys :: OpenedFrom(crypto.open, db2, past, id, ops, keys)
    {
      var ops, keys :| OpenedFrom(crypto.open, db, past, id, ops, keys);
      assert OpenedFrom(crypto.open, db2, past, id, ops, keys);
    }
  }

  // ---- slot by slot -------------------------------------------------------------

  /** Batches of one size, one after the other: slot `i` of batch `j` stands at its offset. */
  lemma {:induction false} GatherAt(ids: seq<nat>, slots: map<nat, seq<Slot>>, b: nat, j: nat, i: nat)
    requires forall id | id in ids :: id in slots && |slots[id]| == b
    requires j < |ids| && i < b
    ensures |Gather(ids, slots)| == Off(b, |ids|) && Off(b, j) + i < Off(b, |ids|) && ids[j] in ids
    ensures Gather(ids, slots)[Off(b, j) + i] == slots[ids[j]][i]
    decreases |ids|
  {
    hide Off;
    var n := |ids| - 1;
    assert ids[n] in ids && forall id | id in ids[..n] :: id in ids;
    GatherSize(ids[..n], slots, b);
    OffNext(b, n);
    if j < n {
      GatherAt(ids[..n], slots, b, j, i);
    }
  }

  lemma {:induction false} GatherSize(ids: seq<nat>, slots: map<nat, seq<Slot>>, b: nat)
    requires forall id | id in ids :: id in slots && |slots[id]| == b
    ensures |Gather(ids, slots)| == Off(b, |ids|)
  {
    hide Off;
    OffNext(b, 0);
    if ids != [] {
      var n := |ids| - 1;
      assert ids[n] in ids && forall id | id in ids[..n] :: id in ids;
      GatherSize(ids[..n], slots, b);
      OffNext(b, n);
    }
  }

  /** Every place of an order of full batches is in one of them. */
  lemma PlaceOf(b: nat, count: nat, p: nat)
    requires b > 0 && p < Off(b, count)
    ensures p / b < count && p % b < b && p == Off(b, p / b) + p % b
  {
    var j := p / b;
    assert p == j * b + p % b;
    if j >= count {
      OffMonotone(b, count, j);
    }
  }

  /**
   * A slot shows ciphertext `h` of a batch, and as its verdict and payload what the shares of `t`
   * operators recover from it.
   */
  ghost predicate ShowsOwn(open: Opener, db: Db, past: Past, c: CondId, id: nat, h: Hash, slot: Slot) {
    && id in db.batches && db.batches[id].condition == c && c in db.committees
    && slot.hash == h && h in db.cts && slot.isDummy == db.cts[h].isDummy
    && exists ops: seq<nat>, keys ::
         |ops| == db.committees[c].t && NoRepeats(ops) && Submitted(db.shares, id, ops, keys)
         && Opening(slot.valid, slot.payload) == open(keys, BatchSlice(db.committees, past.orders, db.batches[id]), h)
  }

  /** Slot `p` of a reveal says `p` and shows ciphertext `p` of the frozen order, as its batch opened it. */
  ghost predicate RevealsAt(open: Opener, db: Db, past: Past, c: CondId, p: nat) {
    && c in db.published && c in past.orders && p < |db.published[c].slots| == |past.orders[c]|
    && c in db.committees && db.committees[c].b > 0
    && c in past.ids && p / db.committees[c].b < |past.ids[c]|
    && db.published[c].slots[p].position == p
    && ShowsOwn(open, db, past, c, past.ids[c][p / db.committees[c].b], past.orders[c][p], db.published[c].slots[p])
  }

  /** What a slot shows does not depend on the position written into it. */
  lemma ShownElsewhere(open: Opener, db: Db, past: Past, c: CondId, id: nat, h: Hash, slot: Slot, p: nat)
    requires ShowsOwn(open, db, past, c, id, h, slot)
    ensures ShowsOwn(open, db, past, c, id, h, slot.(position := p))
  {
    hide BatchSlice, Submitted;
  }
}
