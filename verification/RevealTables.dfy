/** The coordinator's tables: what they hold at every moment, and how they may grow. */
module RevealTables {
  import opened Base
  import opened Encodings
  import Sorting
  import opened Freezes
  import opened OrderingRoots

  datatype Status = Pending | Frozen | Stalled | Revealed

  datatype BatchRow = BatchRow(condition: CondId, index: nat, frozenAt: nat)

  /** A decryption share names the party it is of. */
  datatype Share = Share(party: nat, data: nat)

  datatype ShareRow = ShareRow(share: Share, verified: bool, submittedAt: nat)

  /** A share being verified off the database lock, against the headers read under it. */
  datatype Check = Check(batch: nat, operator: nat, share: Share, headers: seq<Hash>)

  datatype Slot = Slot(position: nat, hash: Hash, isDummy: bool, valid: bool, payload: Bytes)

  datatype Reveal = Reveal(slots: seq<Slot>, root: Word)

  datatype Opening = Opening(valid: bool, payload: Bytes)

  /**
   * Whether a share matches an operator and a batch's headers, what shares recover from one
   * ciphertext of a batch, and the hash under every root.
   */
  datatype Crypto = Crypto(
    verify: (seq<Hash>, Share) -> bool,
    open: (seq<Share>, seq<Hash>, Hash) -> Opening,
    hash: Bytes -> Word)

  /** The intent id bound to a ciphertext, if one is. */
  type Ids = map<Hash, Bytes>

  // ---- the ordering commitment ------------------------------------------------

  /** The id of the intent bound to a ciphertext; without one the empty id. */
  function IdOf(bound: Ids, h: Hash): (id: Bytes)
    ensures h in bound ==> id == bound[h]
    ensures h !in bound ==> id == []
  {
    if h in bound then bound[h] else []
  }

  function OrderingPreimages(slice: seq<Hash>, bound: Ids): (preimages: seq<Bytes>)
    ensures |preimages| == |slice|
    ensures forall i | 0 <= i < |slice| :: preimages[i] == LeafBytes(IdOf(bound, slice[i]), Raw(slice[i]))
  {
    seq(|slice|, i requires 0 <= i < |slice| => LeafBytes(IdOf(bound, slice[i]), Raw(slice[i])))
  }

  /** What a batch commits to: its ciphertexts in order, each with its intent. */
  function SliceRoot(hash: Bytes -> Word, slice: seq<Hash>, bound: Ids): Word {
    if slice == [] then hash([]) else Root(hash, Hashes(hash, OrderingPreimages(slice, bound)))
  }

  /** Two batches are the same: the same ciphertexts in the same order, each with the same intent. */
  ghost predicate SameBatch(x: seq<Hash>, xBound: Ids, y: seq<Hash>, yBound: Ids) {
    x == y && forall h | h in x ::
      (if h in xBound then xBound[h] else []) == (if h in yBound then yBound[h] else [])
  }

  /** No ciphertext's intent has an id of 31 bytes. */
  ghost predicate NoNodeSizedId(slice: seq<Hash>, bound: Ids) {
    forall h | h in slice && h in bound :: |bound[h]| != 31
  }

  lemma SamePreimages(x: seq<Hash>, xBound: Ids, y: seq<Hash>, yBound: Ids)
    ensures OrderingPreimages(x, xBound) == OrderingPreimages(y, yBound) <==> SameBatch(x, xBound, y, yBound)
  {
    hide LeafBytes;
    var a, b := OrderingPreimages(x, xBound), OrderingPreimages(y, yBound);
    if a == b {
      forall i | 0 <= i < |x|
        ensures x[i] == y[i] && IdOf(xBound, x[i]) == IdOf(yBound, y[i])
      {
        assert a[i] == b[i];
        LeafBytesInjective(IdOf(xBound, x[i]), Raw(x[i]), IdOf(yBound, y[i]), Raw(y[i]));
        RawInjective(x[i], y[i]);
      }
    }
  }

  lemma ToldApart(slice: seq<Hash>, bound: Ids)
    ensures NoNodeSizedId(slice, bound) <==> Apart(OrderingPreimages(slice, bound))
  {
    var a := OrderingPreimages(slice, bound);
    forall i | 0 <= i < |slice|
      ensures |a[i]| == 64 <==> |IdOf(bound, slice[i])| == 31
    {
      OrderingLeafLength(IdOf(bound, slice[i]), Raw(slice[i]));
    }
    if Apart(a) {
      forall h | h in slice
        ensures |IdOf(bound, h)| != 31
      {
        var i :| 0 <= i < |slice| && slice[i] == h;
        assert a[i] in a;
      }
    }
  }

  /**
   * For any hash, one commitment means one batch, or a collision among the preimages hashed for
   * the two: unconditionally for batches of one size, and for any sizes without ids of 31 bytes.
   */
  lemma CommitmentBinds(hash: Bytes -> Word, x: seq<Hash>, xBound: Ids, y: seq<Hash>, yBound: Ids)
    requires x != [] && y != [] && SliceRoot(hash, x, xBound) == SliceRoot(hash, y, yBound)
    requires |x| == |y| || (NoNodeSizedId(x, xBound) && NoNodeSizedId(y, yBound))
    ensures SameBatch(x, xBound, y, yBound)
            || Clash(hash, OrderingPreimages(x, xBound), OrderingPreimages(y, yBound))
  {
    hide Root, Clash, SameBatch;
    var a, b := OrderingPreimages(x, xBound), OrderingPreimages(y, yBound);
    SamePreimages(x, xBound, y, yBound);
    if |x| == |y| {
      RootBinds(hash, a, b);
    } else {
      ToldApart(x, xBound);
      ToldApart(y, yBound);
      RootBindsAnyLength(hash, a, b);
    }
  }

  /** The size of the id is what decides: one ciphertext can be confused with others exactly for 31 bytes. */
  lemma IdLengthIff(h: Hash, bound: Ids)
    ensures h in bound && |bound[h]| == 31
            <==> exists hash: Bytes -> Word, slice: seq<Hash>, ids: Ids | slice != [] ::
                   Confused(hash, OrderingPreimages([h], bound), OrderingPreimages(slice, ids))
  {
    hide Confused, Raw;
    var x := LeafBytes(IdOf(bound, h), Raw(h));
    assert OrderingPreimages([h], bound) == [x];
    OrderingLeafLength(IdOf(bound, h), Raw(h));
    if |IdOf(bound, h)| == 31 {
      var slice := ConfusedSlice(x);
    } else {
      forall hash: Bytes -> Word, slice: seq<Hash>, ids: Ids | slice != []
        ensures !Confused(hash, OrderingPreimages([h], bound), OrderingPreimages(slice, ids))
      {
        SingleBinds(hash, x, OrderingPreimages(slice, ids));
      }
    }
  }

  /** Two ciphertexts without intents that some hash confuses with a leaf of 64 bytes. */
  lemma ConfusedSlice(x: Bytes) returns (slice: seq<Hash>)
    requires |x| == 64
    ensures slice != [] && exists hash: Bytes -> Word :: Confused(hash, [x], OrderingPreimages(slice, map[]))
  {
    hide Confused, Raw;
    Pow256Grows();
    slice := [0, 1];
    RawInjective(0, 1);
    var a, b := LeafBytes([], Raw(0)), LeafBytes([], Raw(1));
    LeafBytesInjective([], Raw(0), [], Raw(1));
    assert OrderingPreimages(slice, map[]) == [a, b];
    var hash := MeetsNode(x, a, b);
  }

  lemma Pow256Grows()
    ensures Pow256(32) > 1
  {
    assert Pow256(32) == 256 * Pow256(31);
  }

  // ---- what the tables hold ---------------------------------------------------

  type Committees = map<CondId, Committee>
  type BatchIds = map<CondId, seq<nat>>

  /** The ciphertexts of a batch, in order. */
  function BatchSlice(committees: Committees, orders: Orders, row: BatchRow): seq<Hash> {
    var c := row.condition;
    if c in committees && c in orders && Off(committees[c].b, row.index + 1) <= |orders[c]|
    then Slice(orders[c], committees[c].b, row.index) else []
  }

  /** Frozen conditions have the fewest batches that hold their ciphertexts, all full. */
  ghost predicate Sized(committees: Committees, cts: Ciphertexts, orders: Orders, ids: BatchIds) {
    && ids.Keys == orders.Keys <= committees.Keys
    && forall c | c in orders ::
         && committees[c].b > 0 && |ids[c]| == BatchCount(|Reals(cts, c)|, committees[c].b)
         && |orders[c]| == Off(committees[c].b, |ids[c]|)
  }

  /** A frozen condition has one batch row for each index, and there are no others. */
  ghost predicate Batched(batches: map<nat, BatchRow>, nextBatch: nat, ids: BatchIds) {
    && (forall c, j | c in ids && 0 <= j < |ids[c]| ::
          ids[c][j] in batches && batches[ids[c][j]].condition == c && batches[ids[c][j]].index == j)
    && (forall id | id in batches ::
          id < nextBatch && batches[id].condition in ids && batches[id].index < |ids[batches[id].condition]|
          && ids[batches[id].condition][batches[id].index] == id)
  }

  /** Every batch has its ordering commitment. */
  ghost predicate Committed(hash: Bytes -> Word, commitments: map<nat, Word>, batches: map<nat, BatchRow>,
      committees: Committees, orders: Orders, bound: map<CondId, Ids>)
  {
    && commitments.Keys == batches.Keys && bound.Keys == orders.Keys
    && forall id | id in batches :: batches[id].condition in bound
         && commitments[id] == SliceRoot(hash, BatchSlice(committees, orders, batches[id]),
             bound[batches[id].condition])
  }

  /** The operators with a verified share of a batch. */
  function Voters(shares: map<(nat, nat), ShareRow>, batch: nat): (ops: set<nat>)
    ensures forall op :: op in ops <==> (batch, op) in shares && shares[(batch, op)].verified
  {
    set k | k in shares.Keys && k.0 == batch && shares[k].verified :: k.1
  }

  lemma VotersGrow(shares: map<(nat, nat), ShareRow>, more: map<(nat, nat), ShareRow>, batch: nat)
    requires forall k | k in shares :: k in more && more[k] == shares[k]
    ensures Voters(shares, batch) <= Voters(more, batch) && |Voters(shares, batch)| <= |Voters(more, batch)|
  {
    Subset(Voters(shares, batch), Voters(more, batch));
  }

  lemma Subset(a: set<nat>, b: set<nat>)
    requires a <= b
    ensures |a| <= |b|
  {
    assert b == a + (b - a);
  }

  function HashesOf(slots: seq<Slot>): (hashes: seq<Hash>)
    ensures |hashes| == |slots| && forall i | 0 <= i < |slots| :: hashes[i] == slots[i].hash
  {
    seq(|slots|, i requires 0 <= i < |slots| => slots[i].hash)
  }

  /** A finalized batch has its shares and its slots, ciphertext by ciphertext. */
  ghost predicate Opened(finalizedAt: map<nat, nat>, slots: map<nat, seq<Slot>>, batches: map<nat, BatchRow>,
      shares: map<(nat, nat), ShareRow>, committees: Committees, orders: Orders)
  {
    && finalizedAt.Keys == slots.Keys <= batches.Keys
    && forall id | id in slots ::
         && batches[id].condition in committees
         && |Voters(shares, id)| >= committees[batches[id].condition].t
         && HashesOf(slots[id]) == BatchSlice(committees, orders, batches[id])
  }

  function RevealPreimages(slots: seq<Slot>): (preimages: seq<Bytes>)
    ensures |preimages| == |slots|
  {
    seq(|slots|, i requires 0 <= i < |slots| => SlotBytes(slots[i].position, slots[i].payload))
  }

  /** A reveal shows the frozen order, positions counting up, under the root over its slots. */
  ghost predicate Shows(hash: Bytes -> Word, shown: Reveal, order: seq<Hash>) {
    && HashesOf(shown.slots) == order && order != []
    && (forall i | 0 <= i < |shown.slots| :: shown.slots[i].position == i)
    && shown.root == Root(hash, Hashes(hash, RevealPreimages(shown.slots)))
  }

  function PayloadsOf(slots: seq<Slot>): (payloads: seq<Bytes>)
    ensures |payloads| == |slots| && forall i | 0 <= i < |slots| :: payloads[i] == slots[i].payload
  {
    seq(|slots|, i requires 0 <= i < |slots| => slots[i].payload)
  }

  /**
   * For any hash, one reveal root means one list of payloads, or a collision among the preimages
   * hashed for the two: unconditionally for equally many, and for any numbers of slots unless a
   * payload has 60 bytes.
   */
  lemma RevealRootBinds(hash: Bytes -> Word, x: Reveal, y: Reveal, xOrder: seq<Hash>, yOrder: seq<Hash>)
    requires Shows(hash, x, xOrder) && Shows(hash, y, yOrder) && x.root == y.root
    requires |xOrder| <= 0x1_0000_0000 && |yOrder| <= 0x1_0000_0000
    requires |xOrder| == |yOrder| || forall p | p in PayloadsOf(x.slots) || p in PayloadsOf(y.slots) :: |p| != 60
    ensures PayloadsOf(x.slots) == PayloadsOf(y.slots)
            || Clash(hash, RevealPreimages(x.slots), RevealPreimages(y.slots))
  {
    hide Root, Clash, SlotBytes, HashesOf;
    var a, b := RevealPreimages(x.slots), RevealPreimages(y.slots);
    if |a| == |b| {
      RootBinds(hash, a, b);
    } else {
      PayloadsApart(x.slots);
      PayloadsApart(y.slots);
      RootBindsAnyLength(hash, a, b);
    }
    if a == b {
      forall i | 0 <= i < |a|
        ensures x.slots[i].payload == y.slots[i].payload
      {
        assert a[i] == b[i];
        SlotBytesInjective(i, x.slots[i].payload, i, y.slots[i].payload);
      }
    }
  }

  /** The leaf preimages of payloads shown from position zero on. */
  function PayloadPreimages(payloads: seq<Bytes>): (preimages: seq<Bytes>)
    ensures |preimages| == |payloads|
  {
    seq(|payloads|, i requires 0 <= i < |payloads| => SlotBytes(i, payloads[i]))
  }

  /** Likewise one payload can be confused with others exactly if it has 60 bytes. */
  lemma PayloadLengthIff(payload: Bytes)
    ensures |payload| == 60 <==> exists hash: Bytes -> Word, payloads: seq<Bytes> | payloads != [] ::
              Confused(hash, PayloadPreimages([payload]), PayloadPreimages(payloads))
  {
    hide Confused;
    var x := SlotBytes(0, payload);
    assert PayloadPreimages([payload]) == [x];
    if |payload| == 60 {
      var a, b := SlotBytes(0, []), SlotBytes(1, [0]);
      assert |x| == 64 && |a| == 4 && |b| == 5;
      assert PayloadPreimages([[], [0]]) == [a, b];
      var hash := MeetsNode(x, a, b);
    } else {
      forall hash: Bytes -> Word, payloads: seq<Bytes> | payloads != []
        ensures !Confused(hash, PayloadPreimages([payload]), PayloadPreimages(payloads))
      {
        SingleBinds(hash, x, PayloadPreimages(payloads));
      }
    }
  }

  lemma PayloadsApart(slots: seq<Slot>)
    ensures Apart(RevealPreimages(slots)) <==> forall p | p in PayloadsOf(slots) :: |p| != 60
  {
    var a, payloads := RevealPreimages(slots), PayloadsOf(slots);
    assert forall i | 0 <= i < |slots| :: a[i] in a && payloads[i] in payloads && |a[i]| == |payloads[i]| + 4;
  }

  /** Exactly the revealed conditions have a reveal, and all their batches are finalized. */
  ghost predicate Shown(hash: Bytes -> Word, status: map<CondId, Status>, published: map<CondId, Reveal>, ids: BatchIds,
      finalizedAt: map<nat, nat>, orders: Orders)
  {
    && (forall c :: c in published <==> c in status && status[c].Revealed?)
    && forall c | c in published ::
         c in ids && c in orders && (forall id | id in ids[c] :: id in finalizedAt)
             && Shows(hash, published[c], orders[c])
  }

  /** A share, or a share being checked, is of a batch and checked against it. */
  ghost predicate Shared(crypto: Crypto, shares: map<(nat, nat), ShareRow>, checks: map<nat, Check>,
      batches: map<nat, BatchRow>, committees: Committees, orders: Orders)
  {
    && (forall k | k in shares :: k.0 in batches
          && (shares[k].verified ==> crypto.verify(BatchSlice(committees, orders, batches[k.0]), shares[k].share))
          && shares[k].share.party == k.1)
    && (forall t | t in checks :: checks[t].batch in batches && checks[t].share.party == checks[t].operator
          && checks[t].headers == BatchSlice(committees, orders, batches[checks[t].batch]))
  }

  /** A condition has an order from its freeze on, and a ciphertext has a condition. */
  ghost predicate Statused(committees: Committees, status: map<CondId, Status>, orders: Orders, cts: Ciphertexts) {
    && committees.Keys == status.Keys
    && (forall c | c in committees :: committees[c].b > 0)
    && (forall c :: c in orders <==> c in status && !status[c].Pending?)
    && (forall h | h in cts :: cts[h].condition in status)
  }

  /** The coordinator's database. */
  datatype Db = Db(
    committees: Committees,
    status: map<CondId, Status>,
    cts: Ciphertexts,
    batches: map<nat, BatchRow>,
    nextBatch: nat,
    finalizedAt: map<nat, nat>,
    commitments: map<nat, Word>,
    shares: map<(nat, nat), ShareRow>,
    slots: map<nat, seq<Slot>>,
    published: map<CondId, Reveal>)

  /** What freezes did: orders, batch ids by index, and the intents bound then. */
  datatype Past = Past(orders: Orders, ids: BatchIds, bound: map<CondId, Ids>)

  const EMPTY_DB := Db(map[], map[], map[], map[], 0, map[], map[], map[], map[], map[])
  const EMPTY_PAST := Past(map[], map[], map[])

  /** The invariant of the engine. */
  ghost predicate Good(crypto: Crypto, db: Db, checks: map<nat, Check>, past: Past) {
    && Statused(db.committees, db.status, past.orders, db.cts)
    && Placed(db.cts, past.orders) && Layout(db.cts, past.orders)
    && Sized(db.committees, db.cts, past.orders, past.ids)
    && Batched(db.batches, db.nextBatch, past.ids)
    && Committed(crypto.hash, db.commitments, db.batches, db.committees, past.orders, past.bound)
    && Shared(crypto, db.shares, checks, db.batches, db.committees, past.orders)
    && Opened(db.finalizedAt, db.slots, db.batches, db.shares, db.committees, past.orders)
    && Shown(crypto.hash, db.status, db.published, past.ids, db.finalizedAt, past.orders)
  }

  /**
   * What no step takes back: an order, its batches and their commitments, once there, stay as
   * they are; a finalized batch stays so, with its slots; a revealed condition stays revealed with its reveal.
   */
  ghost predicate Lasts(db: Db, past: Past, db2: Db, past2: Past) {
    && (forall c | c in past.orders :: c in past2.orders && past2.orders[c] == past.orders[c])
    && (forall c | c in past.ids :: c in past2.ids && past2.ids[c] == past.ids[c])
    && (forall id | id in db.commitments :: id in db2.commitments && db2.commitments[id] == db.commitments[id])
    && db.finalizedAt.Keys <= db2.finalizedAt.Keys
    && (forall id | id in db.slots :: id in db2.slots && db2.slots[id] == db.slots[id])
    && (forall c | c in db.published :: c in db2.published && db2.published[c] == db.published[c])
    && (forall c | c in db.status && db.status[c].Revealed? :: c in db2.status && db2.status[c].Revealed?)
  }

  lemma NothingMoves(db: Db, past: Past)
    ensures Lasts(db, past, db, past)
  {
  }

  lemma SizedKeys(committees: Committees, cts: Ciphertexts, orders: Orders, ids: BatchIds)
    requires Sized(committees, cts, orders, ids)
    ensures ids.Keys == orders.Keys <= committees.Keys
  {
  }

  // ---- tables that grow -------------------------------------------------------

  /** Rows of conditions known before keep their committee and order. */
  ghost predicate Grown(committees: Committees, orders: Orders, committees2: Committees, orders2: Orders) {
    && (forall c | c in committees :: c in committees2 && committees2[c] == committees[c])
    && (forall c | c in orders :: c in orders2 && orders2[c] == orders[c])
  }

  /** Every batch row's condition is frozen. */
  ghost predicate Rooted(batches: map<nat, BatchRow>, committees: Committees, orders: Orders) {
    forall id | id in batches :: batches[id].condition in committees && batches[id].condition in orders
  }

  lemma BatchedRooted(batches: map<nat, BatchRow>, nextBatch: nat, ids: BatchIds, committees: Committees,
      orders: Orders)
    requires Batched(batches, nextBatch, ids) && ids.Keys == orders.Keys <= committees.Keys
    ensures Rooted(batches, committees, orders)
  {
  }

  lemma SlicesKept(batches: map<nat, BatchRow>, committees: Committees, orders: Orders,
      committees2: Committees, orders2: Orders)
    requires Grown(committees, orders, committees2, orders2) && Rooted(batches, committees, orders)
    ensures forall id | id in batches ::
              BatchSlice(committees2, orders2, batches[id]) == BatchSlice(committees, orders, batches[id])
  {
    hide Slice, Off;
  }

  lemma SharedGrown(crypto: Crypto, shares: map<(nat, nat), ShareRow>, checks: map<nat, Check>,
      batches: map<nat, BatchRow>, committees: Committees, orders: Orders,
      batches2: map<nat, BatchRow>, committees2: Committees, orders2: Orders)
    requires Shared(crypto, shares, checks, batches, committees, orders)
    requires Grown(committees, orders, committees2, orders2) && Rooted(batches, committees, orders)
    requires forall id | id in batches :: id in batches2 && batches2[id] == batches[id]
    ensures Shared(crypto, shares, checks, batches2, committees2, orders2)
  {
    hide BatchSlice;
    SlicesKept(batches, committees, orders, committees2, orders2);
  }

  lemma OpenedGrown(finalizedAt: map<nat, nat>, slots: map<nat, seq<Slot>>, batches: map<nat, BatchRow>,
      shares: map<(nat, nat), ShareRow>, committees: Committees, orders: Orders,
      batches2: map<nat, BatchRow>, committees2: Committees, orders2: Orders)
    requires Opened(finalizedAt, slots, batches, shares, committees, orders)
    requires Grown(committees, orders, committees2, orders2) && Rooted(batches, committees, orders)
    requires forall id | id in batches :: id in batches2 && batches2[id] == batches[id]
    ensures Opened(finalizedAt, slots, batches2, shares, committees2, orders2)
  {
    hide BatchSlice, Voters;
    SlicesKept(batches, committees, orders, committees2, orders2);
  }

  lemma CommittedGrown(hash: Bytes -> Word, commitments: map<nat, Word>, batches: map<nat, BatchRow>,
      committees: Committees, orders: Orders, bound: map<CondId, Ids>, committees2: Committees)
    requires Committed(hash, commitments, batches, committees, orders, bound)
    requires Grown(committees, orders, committees2, orders) && Rooted(batches, committees, orders)
    ensures Committed(hash, commitments, batches, committees2, orders, bound)
  {
    hide BatchSlice, SliceRoot;
    SlicesKept(batches, committees, orders, committees2, orders);
  }

  lemma SizedGrown(committees: Committees, cts: Ciphertexts, orders: Orders, ids: BatchIds, committees2: Committees)
    requires Sized(committees, cts, orders, ids) && Grown(committees, orders, committees2, orders)
    ensures Sized(committees2, cts, orders, ids)
  {
    hide Reals, BatchCount, Off;
  }

  /** A new condition is pending and has nothing. */
  lemma NewStatus(hash: Bytes -> Word, committees: Committees, status: map<CondId, Status>, orders: Orders,
      cts: Ciphertexts,
      ids: BatchIds, published: map<CondId, Reveal>, finalizedAt: map<nat, nat>, c: CondId, committee: Committee)
    requires Statused(committees, status, orders, cts) && Shown(hash, status, published, ids, finalizedAt, orders)
    requires c !in status && committee.b > 0
    ensures Statused(committees[c := committee], status[c := Pending], orders, cts)
    ensures Shown(hash, status[c := Pending], published, ids, finalizedAt, orders)
    ensures Grown(committees, orders, committees[c := committee], orders)
  {
    hide Shows;
  }

  /** A ciphertext joins a condition that has no order yet. */
  lemma SealPlaced(cts: Ciphertexts, orders: Orders, c: CondId, h: Hash)
    requires Placed(cts, orders) && c !in orders && h !in cts
    ensures Placed(cts[h := CtRow(c, false, None)], orders)
  {
    var more := cts[h := CtRow(c, false, None)];
    forall k | k in orders
      ensures Lists(more, k, orders[k])
    {
      assert Lists(cts, k, orders[k]);
    }
  }

  /** A condition without an order has real ciphertexts only. */
  lemma PendingReal(cts: Ciphertexts, orders: Orders, c: CondId, h: Hash)
    requires Placed(cts, orders) && c !in orders && h in cts && cts[h].condition == c
    ensures h in Reals(cts, c)
  {
  }

  lemma SealRows(cts: Ciphertexts, c: CondId, h: Hash, k: CondId)
    requires h !in cts && k != c
    ensures Reals(cts[h := CtRow(c, false, None)], k) == Reals(cts, k)
    ensures Dummies(cts[h := CtRow(c, false, None)], k) == Dummies(cts, k)
  {
  }

  lemma SealKeeps(committees: Committees, cts: Ciphertexts, orders: Orders, ids: BatchIds, c: CondId, h: Hash)
    requires Placed(cts, orders) && Layout(cts, orders) && Sized(committees, cts, orders, ids)
    requires c !in orders && h !in cts
    ensures var more := cts[h := CtRow(c, false, None)];
            Placed(more, orders) && Layout(more, orders) && Sized(committees, more, orders, ids)
  {
    hide ByHash, BatchCount, Off, Reals, Dummies, Placed;
    SealPlaced(cts, orders, c, h);
    forall k | k in orders
      ensures var more := cts[h := CtRow(c, false, None)];
              Reals(more, k) == Reals(cts, k) && Dummies(more, k) == Dummies(cts, k)
    {
      SealRows(cts, c, h, k);
    }
  }

  lemma EmptyTables(crypto: Crypto)
    ensures Good(crypto, EMPTY_DB, map[], EMPTY_PAST)
  {
  }

  lemma NewCondition(crypto: Crypto, db: Db, checks: map<nat, Check>, past: Past,
      c: CondId, committee: Committee)
    requires Good(crypto, db, checks, past) && c !in db.status && committee.b > 0
    ensures var db2 := db.(committees := db.committees[c := committee], status := db.status[c := Pending]);
            Good(crypto, db2, checks, past) && Lasts(db, past, db2, past)
  {
    hide Statused, Placed, Layout, Sized, Batched, Committed, Shared, Opened, Shown, Grown;
    var more := db.committees[c := committee];
    NewStatus(crypto.hash, db.committees, db.status, past.orders, db.cts, past.ids, db.published, db.finalizedAt, c,
        committee);
    SizedKeys(db.committees, db.cts, past.orders, past.ids);
    BatchedRooted(db.batches, db.nextBatch, past.ids, db.committees, past.orders);
    SizedGrown(db.committees, db.cts, past.orders, past.ids, more);
    CommittedGrown(crypto.hash, db.commitments, db.batches, db.committees, past.orders, past.bound, more);
    SharedGrown(crypto, db.shares, checks, db.batches, db.committees, past.orders, db.batches, more, past.orders);
    OpenedGrown(db.finalizedAt, db.slots, db.batches, db.shares, db.committees, past.orders, db.batches, more,
        past.orders);
  }

  lemma NewSeal(crypto: Crypto, db: Db, checks: map<nat, Check>, past: Past, c: CondId, h: Hash)
    requires Good(crypto, db, checks, past) && c in db.status && db.status[c].Pending? && h !in db.cts
    ensures var db2 := db.(cts := db.cts[h := CtRow(c, false, None)]);
            Good(crypto, db2, checks, past) && Lasts(db, past, db2, past) && h in Reals(db2.cts, c)
  {
    hide Placed, Layout, Sized, Batched, Committed, Shared, Opened, Shown, Reals;
    SealKeeps(db.committees, db.cts, past.orders, past.ids, c, h);
  }

  lemma OldSeal(crypto: Crypto, db: Db, checks: map<nat, Check>, past: Past, c: CondId, h: Hash)
    requires Good(crypto, db, checks, past) && c in db.status && db.status[c].Pending? && h in db.cts
    ensures h in Reals(db.cts, c) <==> db.cts[h].condition == c
  {
    hide Placed, Layout, Sized, Batched, Committed, Shared, Opened, Shown, Reals;
    if db.cts[h].condition == c {
      PendingReal(db.cts, past.orders, c, h);
    }
  }

  lemma StatusFacts(crypto: Crypto, db: Db, checks: map<nat, Check>, past: Past, c: CondId)
    requires Good(crypto, db, checks, past) && c in db.status
    ensures c in db.committees && db.committees[c].b > 0 && (c in past.orders <==> !db.status[c].Pending?)
    ensures past.ids.Keys == past.orders.Keys
  {
    hide Placed, Layout, Batched, Committed, Shared, Opened, Shown;
  }

  lemma CommittedKeys(crypto: Crypto, db: Db, checks: map<nat, Check>, past: Past)
    requires Good(crypto, db, checks, past)
    ensures db.commitments.Keys == db.batches.Keys && forall id | id in db.commitments :: id < db.nextBatch
  {
    hide Statused, Placed, Layout, Sized, Shared, Opened, Shown;
  }

  // ---- the freeze transaction -------------------------------------------------

  /** The batch ids a freeze draws. */
  function NewIds(first: nat, count: nat): (ids: seq<nat>)
    ensures |ids| == count && forall j | 0 <= j < count :: ids[j] == first + j
    ensures forall id :: id in ids <==> first <= id < first + count
  {
    if count == 0 then [] else NewIds(first, count - 1) + [first + count - 1]
  }

  /** The batch rows a freeze inserts. */
  function NewRows(first: nat, c: CondId, count: nat, now: nat): map<nat, BatchRow> {
    map id | id in NewIds(first, count) :: BatchRow(c, id - first, now)
  }

  lemma BatchedNext(batches: map<nat, BatchRow>, nextBatch: nat, ids: BatchIds, c: CondId, count: nat, now: nat)
    requires Batched(batches, nextBatch, ids) && c !in ids
    ensures Batched(batches + NewRows(nextBatch, c, count, now), nextBatch + count, ids[c := NewIds(nextBatch, count)])
    ensures forall id | id in batches :: (batches + NewRows(nextBatch, c, count, now))[id] == batches[id]
  {
    hide NewIds;
  }

  /** Batch `j` of an order cut into `count` batches. */
  function Cut(order: seq<Hash>, b: nat, count: nat, j: nat): seq<Hash>
    requires |order| == Off(b, count) && j < count
  {
    OffMonotone(b, j + 1, count);
    Slice(order, b, j)
  }

  /** The commitments a freeze inserts. */
  function NewRoots(hash: Bytes -> Word, first: nat, order: seq<Hash>, b: nat, count: nat, intents: Ids): map<nat, Word>
    requires |order| == Off(b, count)
  {
    map id | id in NewIds(first, count) :: SliceRoot(hash, Cut(order, b, count, id - first), intents)
  }

  lemma CutIsSlice(committees: Committees, orders: Orders, c: CondId, order: seq<Hash>, count: nat, row: BatchRow)
    requires c in committees && |order| == Off(committees[c].b, count) && row.condition == c && row.index < count
    requires c in orders && orders[c] == order
    ensures BatchSlice(committees, orders, row) == Cut(order, committees[c].b, count, row.index)
  {
    hide Off;
    OffMonotone(committees[c].b, row.index + 1, count);
  }

  lemma CommittedNext(hash: Bytes -> Word, commitments: map<nat, Word>, batches: map<nat, BatchRow>, nextBatch: nat,
      ids: BatchIds,
      committees: Committees, orders: Orders, bound: map<CondId, Ids>, c: CondId, order: seq<Hash>,
      count: nat, intents: Ids, now: nat)
    requires Committed(hash, commitments, batches, committees, orders, bound) && Batched(batches, nextBatch, ids)
    requires Rooted(batches, committees, orders)
    requires c in committees && c !in orders && |order| == Off(committees[c].b, count)
    ensures Committed(hash, commitments + NewRoots(hash, nextBatch, order, committees[c].b, count, intents),
                      batches + NewRows(nextBatch, c, count, now), committees, orders[c := order], bound[c := intents])
    ensures forall id | id in commitments ::
              (commitments + NewRoots(hash, nextBatch, order, committees[c].b, count, intents))[id] == commitments[id]
  {
    hide SliceRoot, BatchSlice, Cut, NewIds, Off, Grown, Rooted, NewRows, NewRoots;
    assert Grown(committees, orders, committees, orders[c := order]) by { OneMoreOrder(committees, orders, c, order); }
    SlicesKept(batches, committees, orders, committees, orders[c := order]);
    NewSlices(nextBatch, committees, orders[c := order], c, order, count, now);
    NewRooted(hash, nextBatch, c, order, committees[c].b, count, intents, now);
    var rows := NewRows(nextBatch, c, count, now);
    forall id | id in batches
      ensures id !in rows
    {
    }
  }

  /** The rows and the commitments a freeze inserts, side by side. */
  lemma NewRooted(hash: Bytes -> Word, first: nat, c: CondId, order: seq<Hash>, b: nat, count: nat, intents: Ids,
      now: nat)
    requires |order| == Off(b, count)
    ensures var rows, roots := NewRows(first, c, count, now), NewRoots(hash, first, order, b, count, intents);
            && rows.Keys == roots.Keys
            && forall id | id in rows :: 0 <= id - first < count && rows[id].condition == c
                 && roots[id] == SliceRoot(hash, Cut(order, b, count, id - first), intents)
  {
    hide SliceRoot, Cut, NewIds, Off;
  }

  lemma OneMoreOrder(committees: Committees, orders: Orders, c: CondId, order: seq<Hash>)
    requires c !in orders
    ensures Grown(committees, orders, committees, orders[c := order])
  {
  }

  lemma NewSlices(first: nat, committees: Committees, orders: Orders, c: CondId, order: seq<Hash>, count: nat, now: nat)
    requires c in committees && |order| == Off(committees[c].b, count) && c in orders && orders[c] == order
    ensures var rows := NewRows(first, c, count, now);
            forall id | id in rows ::
              first <= id < first + count && rows[id].condition == c
              && BatchSlice(committees, orders, rows[id]) == Cut(order, committees[c].b, count, id - first)
  {
    hide BatchSlice, Cut, NewIds, Off;
    var rows := NewRows(first, c, count, now);
    forall id | id in rows
      ensures BatchSlice(committees, orders, rows[id]) == Cut(order, committees[c].b, count, id - first)
    {
      CutIsSlice(committees, orders, c, order, count, rows[id]);
    }
  }

  lemma SizedNext(committees: Committees, cts: Ciphertexts, after: Ciphertexts, orders: Orders, ids: BatchIds,
      c: CondId, order: seq<Hash>, drawn: seq<nat>)
    requires Sized(committees, cts, orders, ids) && c in committees && committees[c].b > 0
    requires forall k :: Reals(after, k) == Reals(cts, k)
    requires |drawn| == BatchCount(|Reals(cts, c)|, committees[c].b) && |order| == Off(committees[c].b, |drawn|)
    ensures Sized(committees, after, orders[c := order], ids[c := drawn])
  {
    hide Reals, BatchCount, Off;
  }

  /** A frozen condition shows nothing yet. */
  lemma StatusFrozen(hash: Bytes -> Word, committees: Committees, status: map<CondId, Status>, orders: Orders,
      cts: Ciphertexts,
      after: Ciphertexts, dummies: set<Hash>, ids: BatchIds, published: map<CondId, Reveal>, finalizedAt: map<nat, nat>,
      c: CondId, order: seq<Hash>, drawn: seq<nat>)
    requires Statused(committees, status, orders, cts) && Shown(hash, status, published, ids, finalizedAt, orders)
    requires c in status && status[c].Pending? && Froze(cts, after, c, dummies, order)
    ensures Statused(committees, status[c := Frozen], orders[c := order], after)
    ensures Shown(hash, status[c := Frozen], published, ids[c := drawn], finalizedAt, orders[c := order])
  {
    hide Shows, Froze;
    FrozeConditions(cts, after, c, dummies, order, status);
  }

  lemma FrozeConditions(cts: Ciphertexts, after: Ciphertexts, c: CondId, dummies: set<Hash>, order: seq<Hash>,
      status: map<CondId, Status>)
    requires Froze(cts, after, c, dummies, order) && c in status && forall h | h in cts :: cts[h].condition in status
    ensures forall h | h in after :: after[h].condition in status
  {
    forall h | h in after
      ensures after[h].condition in status
    {
      if h in dummies {
      } else if h in order {
      }
    }
  }

  /** How many dummies fill the last batch. */
  function Padding(n: nat, b: nat): (count: nat)
    requires b > 0
    ensures n + count == Off(b, BatchCount(n, b))
  {
    BatchCountLeast(n, b);
    Off(b, BatchCount(n, b)) - n
  }

  /** The first `n` dummies drawn. */
  function Drawn(draw: nat -> Hash, n: nat): (dummies: seq<Hash>)
    ensures |dummies| == n
  {
    seq(n, i requires 0 <= i < n => draw(i))
  }

  function SetOf<T(!new)>(xs: seq<T>): (s: set<T>)
    ensures forall x :: x in s <==> x in xs
  {
    set x | x in xs
  }

  lemma {:induction false} SetOfSize(hashes: seq<Hash>)
    requires NoRepeats(hashes)
    ensures |SetOf(hashes)| == |hashes|
  {
    if hashes != [] {
      var last := hashes[|hashes| - 1];
      var rest := hashes[..|hashes| - 1];
      SetOfSize(rest);
      assert SetOf(hashes) == SetOf(rest) + {last};
    } else {
      assert SetOf(hashes) == {};
    }
  }

  /** Draw dummies until the total is reached. */
  method Pad(have: nat, total: nat, draw: nat -> Hash) returns (dummies: seq<Hash>)
    requires have <= total
    ensures dummies == Drawn(draw, total - have)
  {
    dummies := [];
    while have + |dummies| < total
      invariant have + |dummies| <= total && dummies == Drawn(draw, |dummies|)
      decreases total - |dummies|
    {
      dummies := dummies + [draw(|dummies|)];
    }
  }

  function DummyRows(c: CondId, dummies: seq<Hash>): map<Hash, CtRow> {
    map h | h in dummies :: CtRow(c, true, None)
  }

  /** Insert the dummies, or fail on the first hash the table has already. */
  method InsertDummies(cts: Ciphertexts, c: CondId, dummies: seq<Hash>) returns (after: Option<Ciphertexts>)
    ensures after.Some? <==> NoRepeats(dummies) && forall h | h in dummies :: h !in cts
    ensures after.Some? ==> after.value == cts + DummyRows(c, dummies)
  {
    var t := cts;
    for i := 0 to |dummies|
      invariant t.Keys == cts.Keys + SetOf(dummies[..i])
      invariant forall h | h in t :: t[h] == if h in cts then cts[h] else CtRow(c, true, None)
      invariant NoRepeats(dummies[..i]) && forall h | h in dummies[..i] :: h !in cts
    {
      assert dummies[..i + 1] == dummies[..i] + [dummies[i]];
      if dummies[i] in t {
        Repeats(cts, dummies, i);
        return None;
      }
      t := t[dummies[i] := CtRow(c, true, None)];
    }
    assert dummies[..|dummies|] == dummies;
    return Some(t);
  }

  lemma Repeats(cts: Ciphertexts, dummies: seq<Hash>, i: nat)
    requires i < |dummies| && (dummies[i] in cts || dummies[i] in dummies[..i])
    ensures !(NoRepeats(dummies) && forall h | h in dummies :: h !in cts)
  {
    if dummies[i] in dummies[..i] {
      var k :| 0 <= k < i && dummies[..i][k] == dummies[i];
      assert dummies[k] == dummies[i];
    }
  }

  /** Number the ordered ciphertexts. */
  method AssignPositions(cts: Ciphertexts, order: seq<Hash>) returns (after: Ciphertexts)
    requires NoRepeats(order) && forall h | h in order :: h in cts
    ensures after.Keys == cts.Keys
    ensures forall p | 0 <= p < |order| :: after[order[p]] == cts[order[p]].(position := Some(p))
    ensures forall h | h in cts && h !in order :: after[h] == cts[h]
  {
    after := cts;
    for i := 0 to |order|
      invariant after.Keys == cts.Keys
      invariant forall p | 0 <= p < i :: after[order[p]] == cts[order[p]].(position := Some(p))
      invariant forall h | h in cts && h !in order[..i] :: after[h] == cts[h]
    {
      assert order[i] in order;
      assert order[..i + 1] == order[..i] + [order[i]];
      assert order[i] !in order[..i];
      after := after[order[i] := after[order[i]].(position := Some(i))];
    }
    assert order[..|order|] == order;
  }

  lemma FrozeAfter(cts: Ciphertexts, c: CondId, dummies: seq<Hash>, order: seq<Hash>, after: Ciphertexts)
    requires NoRepeats(order) && forall h | h in dummies :: h !in cts && h in order
    requires var padded := cts + DummyRows(c, dummies);
             && (forall h | h in order :: h in padded)
             && after.Keys == padded.Keys
             && (forall p | 0 <= p < |order| :: after[order[p]] == padded[order[p]].(position := Some(p)))
             && (forall h | h in padded && h !in order :: after[h] == padded[h])
    ensures Froze(cts, after, c, SetOf(dummies), order)
  {
    var padded := cts + DummyRows(c, dummies);
    forall h | h in order
      ensures after[h].condition == padded[h].condition && after[h].isDummy == padded[h].isDummy
    {
      var p :| 0 <= p < |order| && order[p] == h;
      assert after[order[p]] == padded[order[p]].(position := Some(p));
    }
  }

  /** Insert a row for each batch, under ids never used before. */
  method InsertBatches(batches: map<nat, BatchRow>, first: nat, c: CondId, count: nat, now: nat)
    returns (after: map<nat, BatchRow>, next: nat)
    ensures after == batches + NewRows(first, c, count, now) && next == first + count
  {
    hide NewRows;
    after, next := batches, first;
    NoRows(batches, first, c, now);
    for i := 0 to count
      invariant next == first + i && after == batches + NewRows(first, c, i, now)
    {
      OneMoreRow(batches, first, c, i, now);
      after := after[next := BatchRow(c, i, now)];
      next := next + 1;
    }
  }

  lemma NoRows(batches: map<nat, BatchRow>, first: nat, c: CondId, now: nat)
    ensures batches + NewRows(first, c, 0, now) == batches
  {
    assert NewRows(first, c, 0, now) == map[];
  }

  lemma OneMoreRow(batches: map<nat, BatchRow>, first: nat, c: CondId, i: nat, now: nat)
    ensures batches + NewRows(first, c, i + 1, now)
            == (batches + NewRows(first, c, i, now))[first + i := BatchRow(c, i, now)]
  {
    hide NewIds;
  }

  /** Commit to every batch of an order; a batch with a commitment keeps it. */
  method CommitBatches(hash: Bytes -> Word, commitments: map<nat, Word>, first: nat, order: seq<Hash>, b: nat,
      count: nat, intents: Ids) returns (after: map<nat, Word>)
    requires |order| == Off(b, count) && forall id | id in commitments :: id < first
    ensures after == commitments + NewRoots(hash, first, order, b, count, intents)
  {
    hide Cut, SliceRoot, SetOf, NewIds, Off;
    after := commitments;
    for i := 0 to count
      invariant after.Keys == commitments.Keys + SetOf(NewIds(first, i))
      invariant forall id | id in commitments :: after[id] == commitments[id]
      invariant forall id | id in NewIds(first, i) ::
                  after[id] == SliceRoot(hash, Cut(order, b, count, id - first), intents)
    {
      var root := CommitOne(hash, Cut(order, b, count, i), intents);
      if first + i !in after {
        after := after[first + i := root];
      }
    }
  }

  method CommitOne(hash: Bytes -> Word, slice: seq<Hash>, intents: Ids) returns (root: Word)
    ensures root == SliceRoot(hash, slice, intents)
  {
    root := ComputeRoot(hash, Hashes(hash, OrderingPreimages(slice, intents)));
  }

  /**
   * Pad a condition and order it: its ciphertexts by hash, then as many dummies as the last
   * batch lacks, by hash. No plan if a dummy's hash is taken.
   */
  method PlanFreeze(cts: Ciphertexts, c: CondId, b: nat, draw: nat -> Hash)
    returns (plan: Option<Ciphertexts>, order: seq<Hash>)
    requires b > 0
    ensures var dummies := Drawn(draw, Padding(|Reals(cts, c)|, b));
            && (plan.Some? <==> NoRepeats(dummies) && forall h | h in dummies :: h !in cts)
            && order == OrderOf(cts, c, SetOf(dummies))
            && (plan.Some? ==> Froze(cts, plan.value, c, SetOf(dummies), order))
    ensures plan.Some? ==> |order| == Off(b, BatchCount(|Reals(cts, c)|, b))
  {
    hide ByHash, Off, BatchCount, Drawn, Froze, NoRepeats, Reals, SetOf, OrderOf, DummyRows, Padding;
    var members := ByHash(Reals(cts, c));
    BatchCountLeast(|members|, b);
    var drawn := Pad(|members|, Off(b, BatchCount(|members|, b)), draw);
    order := members + ByHash(SetOf(drawn));
    OrderIs(cts, c, SetOf(drawn));
    assert drawn == Drawn(draw, Padding(|Reals(cts, c)|, b));
    var padded := InsertDummies(cts, c, drawn);
    if padded.None? {
      return None, order;
    }
    PlanOrder(cts, c, drawn);
    var positioned := AssignPositions(padded.value, order);
    FrozeAfter(cts, c, drawn, order, positioned);
    plan := Some(positioned);
  }

  lemma OrderIs(cts: Ciphertexts, c: CondId, dummies: set<Hash>)
    ensures OrderOf(cts, c, dummies) == ByHash(Reals(cts, c)) + ByHash(dummies)
  {
  }

  /** Fresh dummies without repeats join the condition's own ciphertexts. */
  lemma PlanOrder(cts: Ciphertexts, c: CondId, drawn: seq<Hash>)
    requires NoRepeats(drawn) && forall h | h in drawn :: h !in cts
    ensures var order := OrderOf(cts, c, SetOf(drawn));
            && NoRepeats(order) && |order| == |Reals(cts, c)| + |drawn|
            && (forall h | h in drawn :: h in order)
            && (forall h | h in order :: h in cts + DummyRows(c, drawn))
  {
    hide OrderOf;
    SetOfSize(drawn);
    OrderOfDistinct(cts, c, SetOf(drawn));
  }

  /** What a freeze makes of the ciphertext table. */
  lemma FreezeCiphertexts(hash: Bytes -> Word, committees: Committees, status: map<CondId, Status>, cts: Ciphertexts,
      after: Ciphertexts,
      orders: Orders, ids: BatchIds, published: map<CondId, Reveal>, finalizedAt: map<nat, nat>,
      c: CondId, dummies: set<Hash>, order: seq<Hash>, drawn: seq<nat>)
    requires Statused(committees, status, orders, cts) && Shown(hash, status, published, ids, finalizedAt, orders)
    requires Placed(cts, orders) && Layout(cts, orders) && Sized(committees, cts, orders, ids)
    requires c in status && status[c].Pending? && dummies !! cts.Keys
    requires order == OrderOf(cts, c, dummies) && Froze(cts, after, c, dummies, order)
    requires c in committees && |drawn| == BatchCount(|Reals(cts, c)|, committees[c].b)
               && |order| == Off(committees[c].b, |drawn|)
    ensures Statused(committees, status[c := Frozen], orders[c := order], after)
    ensures Shown(hash, status[c := Frozen], published, ids[c := drawn], finalizedAt, orders[c := order])
    ensures Placed(after, orders[c := order]) && Layout(after, orders[c := order])
    ensures Sized(committees, after, orders[c := order], ids[c := drawn])
  {
    hide Shown, Placed, Layout, Sized, Froze, OrderOf, BatchCount, Off, Reals;
    FrozenPlaced(cts, after, orders, c, dummies);
    FrozenLayout(cts, after, orders, c, dummies);
    SizedNext(committees, cts, after, orders, ids, c, order, drawn);
    StatusFrozen(hash, committees, status, orders, cts, after, dummies, ids, published, finalizedAt, c, order, drawn);
  }

  /** What a freeze makes of the batches and what hangs on them. */
  lemma FreezeBatches(crypto: Crypto, db: Db, checks: map<nat, Check>, past: Past, c: CondId,
      order: seq<Hash>, count: nat, intents: Ids, now: nat)
    requires Batched(db.batches, db.nextBatch, past.ids) && past.ids.Keys == past.orders.Keys <= db.committees.Keys
    requires Committed(crypto.hash, db.commitments, db.batches, db.committees, past.orders, past.bound)
    requires Shared(crypto, db.shares, checks, db.batches, db.committees, past.orders)
    requires Opened(db.finalizedAt, db.slots, db.batches, db.shares, db.committees, past.orders)
    requires c in db.committees && c !in past.orders && |order| == Off(db.committees[c].b, count)
    ensures var rows, orders := db.batches + NewRows(db.nextBatch, c, count, now), past.orders[c := order];
            var roots := db.commitments + NewRoots(crypto.hash, db.nextBatch, order, db.committees[c].b, count,
                intents);
            && Batched(rows, db.nextBatch + count, past.ids[c := NewIds(db.nextBatch, count)])
            && Committed(crypto.hash, roots, rows, db.committees, orders, past.bound[c := intents])
            && Shared(crypto, db.shares, checks, rows, db.committees, orders)
            && Opened(db.finalizedAt, db.slots, rows, db.shares, db.committees, orders)
            && (forall id | id in db.commitments :: id in roots && roots[id] == db.commitments[id])
  {
    hide Batched, Committed, Shared, Opened, Off, NewRows, NewRoots, NewIds, Grown, Rooted;
    BatchedRooted(db.batches, db.nextBatch, past.ids, db.committees, past.orders);
    OneMoreOrder(db.committees, past.orders, c, order);
    BatchedNext(db.batches, db.nextBatch, past.ids, c, count, now);
    CommittedNext(crypto.hash, db.commitments, db.batches, db.nextBatch, past.ids, db.committees, past.orders,
                  past.bound, c, order, count, intents, now);
    var rows, orders := db.batches + NewRows(db.nextBatch, c, count, now), past.orders[c := order];
    SharedGrown(crypto, db.shares, checks, db.batches, db.committees, past.orders, rows, db.committees, orders);
    OpenedGrown(db.finalizedAt, db.slots, db.batches, db.shares, db.committees, past.orders,
                rows, db.committees, orders);
  }

  /** The tables after the freeze transaction. */
  lemma FreezeKeeps(crypto: Crypto, db: Db, checks: map<nat, Check>, past: Past, c: CondId,
      after: Ciphertexts, dummies: set<Hash>, order: seq<Hash>, count: nat, intents: Ids, now: nat)
    requires Good(crypto, db, checks, past) && c in db.status && db.status[c].Pending? && c in db.committees
    requires dummies !! db.cts.Keys && order == OrderOf(db.cts, c, dummies) && Froze(db.cts, after, c, dummies, order)
    requires db.committees[c].b > 0 && count == BatchCount(|Reals(db.cts, c)|, db.committees[c].b)
    requires |order| == Off(db.committees[c].b, count)
    ensures var b, id := db.committees[c].b, db.nextBatch;
            var past2 := Past(past.orders[c := order], past.ids[c := NewIds(id, count)], past.bound[c := intents]);
            var db2 := db.(cts := after, status := db.status[c := Frozen],
                           batches := db.batches + NewRows(id, c, count, now), nextBatch := id + count,
                           commitments := db.commitments + NewRoots(crypto.hash, id, order, b, count, intents));
            Good(crypto, db2, checks, past2) && Lasts(db, past, db2, past2)
  {
    hide Statused, Placed, Layout, Sized, Batched, Committed, Shared, Opened, Shown, Froze, Off, OrderOf,
         BatchCount, Reals, NewRows, NewRoots, NewIds;
    StatusFacts(crypto, db, checks, past, c);
    SizedKeys(db.committees, db.cts, past.orders, past.ids);
    FreezeCiphertexts(crypto.hash, db.committees, db.status, db.cts, after, past.orders, past.ids, db.published,
                      db.finalizedAt, c, dummies, order, NewIds(db.nextBatch, count));
    FreezeBatches(crypto, db, checks, past, c, order, count, intents, now);
  }

  // ---- shares -----------------------------------------------------------------

  /** A batch's row points at one index of a frozen condition with room for the whole batch. */
  ghost predicate InOrder(committees: Committees, orders: Orders, ids: BatchIds, id: nat, row: BatchRow) {
    var c := row.condition;
    && c in committees && c in orders && c in ids && row.index < |ids[c]| && ids[c][row.index] == id
    && Off(committees[c].b, row.index) <= Off(committees[c].b, row.index + 1) <= |orders[c]|
    && BatchSlice(committees, orders, row)
       == orders[c][Off(committees[c].b, row.index)..Off(committees[c].b, row.index + 1)]
  }

  /** A batch is committed to exactly its ciphertexts in order. */
  ghost predicate Bound(hash: Bytes -> Word, db: Db, past: Past, id: nat) {
    && id in db.batches && id in db.commitments && db.batches[id].condition in past.bound
    && db.commitments[id] == SliceRoot(hash, BatchSlice(db.committees, past.orders, db.batches[id]),
        past.bound[db.batches[id].condition])
  }

  lemma RowInOrder(committees: Committees, cts: Ciphertexts, orders: Orders, ids: BatchIds, batches: map<nat, BatchRow>,
      nextBatch: nat, id: nat)
    requires Sized(committees, cts, orders, ids) && Batched(batches, nextBatch, ids) && id in batches
    ensures InOrder(committees, orders, ids, id, batches[id])
  {
    hide Off, Reals, BatchCount;
    var b := committees[batches[id].condition].b;
    OffMonotone(b, batches[id].index, batches[id].index + 1);
    OffMonotone(b, batches[id].index + 1, |ids[batches[id].condition]|);
  }

  /** Where a batch's ciphertexts are, and that they are what it committed to. */
  lemma BatchFacts(crypto: Crypto, db: Db, checks: map<nat, Check>, past: Past, id: nat)
    requires Good(crypto, db, checks, past) && id in db.batches
    ensures InOrder(db.committees, past.orders, past.ids, id, db.batches[id]) && Bound(crypto.hash, db, past, id)
  {
    hide Statused, Placed, Layout, Sized, Batched, Shared, Opened, Shown, BatchSlice, SliceRoot, InOrder;
    RowInOrder(db.committees, db.cts, past.orders, past.ids, db.batches, db.nextBatch, id);
  }

  lemma NewCheck(crypto: Crypto, db: Db, checks: map<nat, Check>, past: Past, ticket: nat, check: Check)
    requires Good(crypto, db, checks, past) && check.batch in db.batches && check.share.party == check.operator
    requires check.headers == BatchSlice(db.committees, past.orders, db.batches[check.batch])
    ensures Good(crypto, db, checks[ticket := check], past)
  {
    hide Statused, Placed, Layout, Sized, Batched, Committed, Opened, Shown, BatchSlice;
  }

  lemma NewShare(crypto: Crypto, db: Db, checks: map<nat, Check>, past: Past, ticket: nat, now: nat)
    requires Good(crypto, db, checks, past) && ticket in checks
    requires (checks[ticket].batch, checks[ticket].operator) !in db.shares
    ensures var Check(batch, operator, share, headers) := checks[ticket];
            var row := ShareRow(share, crypto.verify(headers, share), now);
            var db2 := db.(shares := db.shares[(batch, operator) := row]);
            Good(crypto, db2, checks - {ticket}, past) && Lasts(db, past, db2, past)
  {
    hide Statused, Placed, Layout, Sized, Batched, Committed, Shown, Shared, Opened;
    var Check(batch, operator, share, headers) := checks[ticket];
    var more := db.shares[(batch, operator) := ShareRow(share, crypto.verify(headers, share), now)];
    SharedNew(crypto, db.shares, checks, db.batches, db.committees, past.orders, ticket, now);
    OpenedMore(db.finalizedAt, db.slots, db.batches, db.shares, more, db.committees, past.orders);
  }

  lemma SharedNew(crypto: Crypto, shares: map<(nat, nat), ShareRow>, checks: map<nat, Check>,
      batches: map<nat, BatchRow>, committees: Committees, orders: Orders, ticket: nat, now: nat)
    requires Shared(crypto, shares, checks, batches, committees, orders) && ticket in checks
    ensures var Check(batch, operator, share, headers) := checks[ticket];
            var more := shares[(batch, operator) := ShareRow(share, crypto.verify(headers, share), now)];
            Shared(crypto, more, checks - {ticket}, batches, committees, orders)
  {
    hide BatchSlice;
  }

  lemma OpenedMore(finalizedAt: map<nat, nat>, slots: map<nat, seq<Slot>>, batches: map<nat, BatchRow>,
      shares: map<(nat, nat), ShareRow>, more: map<(nat, nat), ShareRow>, committees: Committees, orders: Orders)
    requires Opened(finalizedAt, slots, batches, shares, committees, orders)
    requires forall k | k in shares :: k in more && more[k] == shares[k]
    ensures Opened(finalizedAt, slots, batches, more, committees, orders)
  {
    hide BatchSlice, Voters, HashesOf;
    forall id | id in slots
      ensures |Voters(shares, id)| <= |Voters(more, id)|
    {
      VotersGrow(shares, more, id);
    }
  }

  lemma LessCheck(crypto: Crypto, db: Db, checks: map<nat, Check>, past: Past, ticket: nat)
    requires Good(crypto, db, checks, past)
    ensures Good(crypto, db, checks - {ticket}, past)
  {
    hide Statused, Placed, Layout, Sized, Batched, Committed, Opened, Shown, BatchSlice;
  }

  // ---- finalizing -------------------------------------------------------------

  /** The first `n` operators with a verified share of a batch, by submission time. */
  ghost predicate Earliest(shares: map<(nat, nat), ShareRow>, batch: nat, n: nat, ops: seq<nat>) {
    && |ops| == n && NoRepeats(ops) && (forall op | op in ops :: op in Voters(shares, batch))
    && (forall op, other | op in ops && other in Voters(shares, batch) && other !in ops ::
          (batch, op) in shares && (batch, other) in shares
          && shares[(batch, op)].submittedAt <= shares[(batch, other)].submittedAt)
  }

  function TimesOf(shares: map<(nat, nat), ShareRow>, batch: nat, ops: set<nat>): (times: set<nat>)
    requires forall op | op in ops :: (batch, op) in shares
    ensures forall op | op in ops :: shares[(batch, op)].submittedAt in times
    ensures forall time | time in times :: exists op :: op in ops && shares[(batch, op)].submittedAt == time
    ensures ops != {} ==> times != {}
  {
    var times := set op | op in ops :: shares[(batch, op)].submittedAt;
    assert ops != {} ==> exists op :: op in ops && shares[(batch, op)].submittedAt in times;
    times
  }

  /** Pick verified shares in submission order until there are `n`. */
  method FirstShares(shares: map<(nat, nat), ShareRow>, batch: nat, n: nat) returns (ops: seq<nat>)
    requires |Voters(shares, batch)| >= n
    ensures Earliest(shares, batch, n, ops)
  {
    ops := [];
    var left := Voters(shares, batch);
    while |ops| < n
      invariant |ops| <= n && |ops| + |left| == |Voters(shares, batch)|
      invariant Earliest(shares, batch, |ops|, ops)
      invariant forall op :: op in left <==> op in Voters(shares, batch) && op !in ops
      decreases n - |ops|
    {
      var first := Sorting.Min(TimesOf(shares, batch, left));
      var op :| op in left && shares[(batch, op)].submittedAt == first;
      ops := ops + [op];
      left := left - {op};
    }
  }

  /** The shares of some operators, in their order. */
  function SharesOf(shares: map<(nat, nat), ShareRow>, batch: nat, ops: seq<nat>): (keys: seq<Share>)
    requires forall op | op in ops :: (batch, op) in shares
    ensures |keys| == |ops|
  {
    seq(|ops|, i requires 0 <= i < |ops| => (assert ops[i] in ops; shares[(batch, ops[i])].share))
  }

  /** The slots of a batch: what its shares recover, ciphertext by ciphertext. */
  function SlotsOf(open: (seq<Share>, seq<Hash>, Hash) -> Opening, keys: seq<Share>, rows: seq<Hash>,
      cts: Ciphertexts): (slots: seq<Slot>)
    requires forall h | h in rows :: h in cts
    ensures HashesOf(slots) == rows
  {
    seq(|rows|, i requires 0 <= i < |rows| =>
      (assert rows[i] in rows;
       var o := open(keys, rows, rows[i]);
       Slot(0, rows[i], cts[rows[i]].isDummy, o.valid, o.payload)))
  }

  /** `keys` are what some operators submitted for a batch, in their order. */
  ghost predicate Submitted(shares: map<(nat, nat), ShareRow>, batch: nat, ops: seq<nat>, keys: seq<Share>) {
    && |keys| == |ops|
    && forall k | 0 <= k < |ops| ::
         (batch, ops[k]) in shares && shares[(batch, ops[k])].verified && shares[(batch, ops[k])].share == keys[k]
  }

  /**
   * Slot by slot, a batch opened with `keys`: each shows its own ciphertext's hash and dummy mark,
   * and what the keys recover from that ciphertext.
   */
  ghost predicate OpenedWith(open: (seq<Share>, seq<Hash>, Hash) -> Opening, keys: seq<Share>, rows: seq<Hash>,
      cts: Ciphertexts, slots: seq<Slot>)
  {
    && |slots| == |rows|
    && forall i | 0 <= i < |rows| ::
         && slots[i].position == 0 && slots[i].hash == rows[i]
         && rows[i] in cts && slots[i].isDummy == cts[rows[i]].isDummy
         && Opening(slots[i].valid, slots[i].payload) == open(keys, rows, rows[i])
  }

  lemma SharesSubmitted(shares: map<(nat, nat), ShareRow>, batch: nat, ops: seq<nat>)
    requires forall op | op in ops :: (batch, op) in shares && shares[(batch, op)].verified
    ensures Submitted(shares, batch, ops, SharesOf(shares, batch, ops))
  {
    forall k | 0 <= k < |ops|
      ensures (batch, ops[k]) in shares && shares[(batch, ops[k])].verified
      ensures shares[(batch, ops[k])].share == SharesOf(shares, batch, ops)[k]
    {
      assert ops[k] in ops;
    }
  }

  lemma SlotsOpened(open: (seq<Share>, seq<Hash>, Hash) -> Opening, keys: seq<Share>, rows: seq<Hash>,
      cts: Ciphertexts)
    requires forall h | h in rows :: h in cts
    ensures OpenedWith(open, keys, rows, cts, SlotsOf(open, keys, rows, cts))
  {
    forall i | 0 <= i < |rows|
      ensures rows[i] in cts
    {
      assert rows[i] in rows;
    }
  }

  lemma SliceInTable(crypto: Crypto, db: Db, checks: map<nat, Check>, past: Past, id: nat)
    requires Good(crypto, db, checks, past) && id in db.batches
    ensures forall h | h in BatchSlice(db.committees, past.orders, db.batches[id]) :: h in db.cts
  {
    hide Layout, Sized, Batched, Committed, Shared, Opened, Shown, Off, BatchSlice;
    BatchFacts(crypto, db, checks, past, id);
    assert Lists(db.cts, db.batches[id].condition, past.orders[db.batches[id].condition]);
  }

  lemma NewOpening(crypto: Crypto, db: Db, checks: map<nat, Check>, past: Past, id: nat,
      now: nat, slots: seq<Slot>)
    requires Good(crypto, db, checks, past) && id in db.batches && id !in db.finalizedAt
    requires db.batches[id].condition in db.committees
    requires |Voters(db.shares, id)| >= db.committees[db.batches[id].condition].t
    requires HashesOf(slots) == BatchSlice(db.committees, past.orders, db.batches[id])
    ensures var db2 := db.(finalizedAt := db.finalizedAt[id := now], slots := db.slots[id := slots]);
            Good(crypto, db2, checks, past) && Lasts(db, past, db2, past)
  {
    hide Statused, Placed, Layout, Sized, Batched, Committed, Shared, BatchSlice, Voters, HashesOf, Shows;
  }

  lemma EarliestStored(shares: map<(nat, nat), ShareRow>, batch: nat, n: nat, ops: seq<nat>)
    requires Earliest(shares, batch, n, ops)
    ensures forall op | op in ops :: (batch, op) in shares && shares[(batch, op)].verified
  {
  }

  lemma NewStalls(crypto: Crypto, db: Db, checks: map<nat, Check>, past: Past,
      marked: map<CondId, Status>)
    requires Good(crypto, db, checks, past) && marked.Keys == db.status.Keys
    requires forall c | c in marked :: marked[c] == db.status[c] || (db.status[c].Frozen? && marked[c].Stalled?)
    ensures Good(crypto, db.(status := marked), checks, past) && Lasts(db, past, db.(status := marked), past)
  {
    hide Placed, Layout, Sized, Batched, Committed, Shared, Opened, Shows;
  }
}
