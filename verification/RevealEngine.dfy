/**
 * The condition engine: pending, frozen, stalled and revealed conditions, the shares that open
 * their batches, and the reveal.
 */
module RevealEngines {
  import opened Base
  import Encodings
  import opened Freezes
  import OrderingRoots
  import opened RevealTables
  import opened Publishing
  import opened Recoveries
  import StableSorts

  datatype SealError = UnknownCondition | Closed

  datatype ShareReply = WrongParty | UnknownBatch | Duplicate(verified: bool) | Started

  class Engine {
    const crypto: Crypto

    /** The database, and the shares being verified off its lock. */
    var db: Db
    var checks: map<nat, Check>
    /** Each frozen condition's order, its batches by index, and the intents bound at the freeze. */
    ghost var past: Past

    ghost predicate Valid()
      reads this
    {
      Good(crypto, db, checks, past) && Sourced(crypto, db, past)
    }

    constructor (crypto: Crypto)
      ensures Valid() && fresh(this) && db.status == map[] && this.crypto == crypto
    {
      hide Good, Sourced;
      EmptyTables(crypto);
      EmptySourced(crypto);
      this.crypto := crypto;
      db, checks, past := EMPTY_DB, map[], EMPTY_PAST;
    }

    method CreateCondition(c: CondId, committee: Committee)
      requires Valid() && c !in db.status && committee.b > 0
      modifies this`db
      ensures Valid() && Lasts(old(db), old(past), db, past)
      ensures db == old(db).(committees := old(db).committees[c := committee], status := old(db).status[c := Pending])
    {
      hide Good, Lasts, Sourced, Grows;
      ConditionGrows(crypto, db, checks, past, c, committee);
      SourcedKept(crypto, db, past,
          db.(committees := db.committees[c := committee], status := db.status[c := Pending]), past);
      NewCondition(crypto, db, checks, past, c, committee);
      db := db.(committees := db.committees[c := committee], status := db.status[c := Pending]);
    }

    /**
     * Seal a ciphertext to a condition. A hash the table has already is left as it is,
     * whichever condition it was sealed to: accepting does not mean it joined this one.
     */
    method SubmitCiphertext(c: CondId, h: Hash) returns (r: Result<(), SealError>)
      requires Valid()
      modifies this`db
      ensures Valid() && Lasts(old(db), old(past), db, past)
      ensures r == if c !in db.status then Err(UnknownCondition)
                   else if !db.status[c].Pending? then Err(Closed) else Ok(())
      ensures db == if r.Ok? && h !in old(db).cts
                    then old(db).(cts := old(db).cts[h := CtRow(c, false, None)]) else old(db)
      ensures r.Ok? ==> (h in Reals(db.cts, c) <==> h !in old(db).cts || old(db).cts[h].condition == c)
    {
      hide Good, Lasts, Sourced, Grows;
      NothingMoves(db, past);
      if c !in db.status {
        return Err(UnknownCondition);
      }
      if !db.status[c].Pending? {
        return Err(Closed);
      }
      if h !in db.cts {
        NewSeal(crypto, db, checks, past, c, h);
        SealGrows(crypto, db, checks, past, h, CtRow(c, false, None));
        SourcedKept(crypto, db, past, db.(cts := db.cts[h := CtRow(c, false, None)]), past);
        db := db.(cts := db.cts[h := CtRow(c, false, None)]);
      } else {
        OldSeal(crypto, db, checks, past, c, h);
      }
      return Ok(());
    }

    // ---- freezing -----------------------------------------------------------

    /**
     * Freeze a pending condition: pad it with dummies, number its ciphertexts, cut them into
     * batches and commit to each batch's order, all in one transaction. A dummy whose hash the
     * table has already undoes everything.
     */
    method Freeze(c: CondId, draw: nat -> Hash, intents: Ids, now: nat) returns (ok: bool)
      requires Valid() && c in db.status && db.status[c].Pending?
      modifies this`db, this`past
      ensures Valid() && Lasts(old(db), old(past), db, past)
      ensures c in db.committees && db.committees[c].b > 0
      ensures var members := Reals(old(db).cts, c);
              var dummies := Drawn(draw, Padding(|members|, db.committees[c].b));
              && (ok <==> NoRepeats(dummies) && forall h | h in dummies :: h !in old(db).cts)
              && (ok ==> past.orders == old(past).orders[c := ByHash(members) + ByHash(SetOf(dummies))])
      ensures ok ==> db.status == old(db).status[c := Frozen] && past.bound == old(past).bound[c := intents]
      ensures !ok ==> db == old(db) && past == old(past)
    {
      hide Good, Sourced, Lasts, Froze, NoRepeats, ByHash, Off, Padding, Drawn, BatchCount, Reals, SetOf, OrderOf;
      StatusFacts(crypto, db, checks, past, c);
      NothingMoves(db, past);
      var plan, order := PlanFreeze(db.cts, c, db.committees[c].b, draw);
      if plan.None? {
        return false;
      }
      ghost var dummies := Drawn(draw, Padding(|Reals(db.cts, c)|, db.committees[c].b));
      OrderIs(db.cts, c, SetOf(dummies));
      WriteFreeze(c, plan.value, order, SetOf(dummies), intents, now);
      return true;
    }

    /** The writes of a planned freeze: positions, batches, commitments and the new status. */
    method WriteFreeze(c: CondId, after: Ciphertexts, order: seq<Hash>, ghost dummies: set<Hash>, intents: Ids,
        now: nat)
      requires Valid() && c in db.status && db.status[c].Pending? && c in db.committees && db.committees[c].b > 0
      requires dummies !! db.cts.Keys && order == OrderOf(db.cts, c, dummies)
      requires Froze(db.cts, after, c, dummies, order)
      requires |order| == Off(db.committees[c].b, BatchCount(|Reals(db.cts, c)|, db.committees[c].b))
      modifies this`db, this`past
      ensures Valid() && Lasts(old(db), old(past), db, past)
      ensures past.orders == old(past).orders[c := order] && past.bound == old(past).bound[c := intents]
      ensures db.status == old(db).status[c := Frozen] && db.committees == old(db).committees
    {
      hide Good, Sourced, Grows, Lasts, Froze, ByHash, Off, BatchCount, Reals, NewRows, NewRoots, NewIds, OrderOf;
      var count := BatchCount(|Reals(db.cts, c)|, db.committees[c].b);
      CommittedKeys(crypto, db, checks, past);
      var rows, next := InsertBatches(db.batches, db.nextBatch, c, count, now);
      var roots := CommitBatches(crypto.hash, db.commitments, db.nextBatch, order, db.committees[c].b, count, intents);
      FreezeKeeps(crypto, db, checks, past, c, after, dummies, order, count, intents, now);
      FreezeSourced(c, after, dummies, order, intents, rows, next, roots, count, now);
      past := past.(orders := past.orders[c := order], ids := past.ids[c := NewIds(db.nextBatch, count)],
                    bound := past.bound[c := intents]);
      db := db.(cts := after, batches := rows, nextBatch := next, commitments := roots,
                status := db.status[c := Frozen]);
    }

    /** A freeze leaves what was opened before where it comes from. */
    lemma FreezeSourced(c: CondId, after: Ciphertexts, dummies: set<Hash>, order: seq<Hash>, intents: Ids,
        rows: map<nat, BatchRow>, next: nat, roots: map<nat, Encodings.Word>, count: nat, now: nat)
      requires Valid() && c in db.status && db.status[c].Pending? && Froze(db.cts, after, c, dummies, order)
      requires rows == db.batches + NewRows(db.nextBatch, c, count, now)
      ensures Sourced(crypto,
                db.(cts := after, batches := rows, nextBatch := next, commitments := roots,
                    status := db.status[c := Frozen]),
                Past(past.orders[c := order], past.ids[c := NewIds(db.nextBatch, count)], past.bound[c := intents]))
    {
      hide Good, Sourced, Grows, Froze, NewRows, NewIds;
      BatchesRooted(crypto, db, checks, past);
      StatusFacts(crypto, db, checks, past, c);
      NewRowsKeep(crypto, db, checks, past, c, count, now);
      var db2 := db.(cts := after, batches := rows, nextBatch := next, commitments := roots,
                     status := db.status[c := Frozen]);
      var past2 := Past(past.orders[c := order], past.ids[c := NewIds(db.nextBatch, count)], past.bound[c := intents]);
      FreezeGrows(db, past, db2, past2, c, dummies, order, NewIds(db.nextBatch, count));
      SourcedKept(crypto, db, past, db2, past2);
    }

    // ---- shares -------------------------------------------------------------

    /** A batch's ciphertexts, in order. */
    method BatchCts(id: nat) returns (rows: seq<Hash>)
      requires Valid() && id in db.batches
      ensures rows == BatchSlice(db.committees, past.orders, db.batches[id])
      ensures forall h | h in rows :: h in db.cts
    {
      hide Statused, Placed, Layout, Sized, Batched, Committed, Shared, Opened, Shown, Off, BatchSlice, Sourced;
      BatchFacts(crypto, db, checks, past, id);
      SliceInTable(crypto, db, checks, past, id);
      var row := db.batches[id];
      var b := db.committees[row.condition].b;
      rows := RangeQuery(db.cts, past.orders, row.condition, Off(b, row.index), Off(b, row.index + 1));
    }

    /** The batches an operator still owes a share for, each with its ciphertexts in order. */
    method GetWork(operator: nat) returns (work: map<nat, seq<Hash>>)
      requires Valid()
      ensures forall id :: id in work <==> id in db.batches && id !in db.finalizedAt && (id, operator) !in db.shares
      ensures forall id | id in work ::
                Bound(crypto.hash, db, past, id) && work[id] == BatchSlice(db.committees, past.orders, db.batches[id])
    {
      hide Good, Sourced, BatchSlice, InOrder, Bound;
      work := map[];
      var left := set id | id in db.batches.Keys && id !in db.finalizedAt && (id, operator) !in db.shares;
      ghost var all := left;
      while left != {}
        invariant left <= all && work.Keys == all - left
        invariant forall id | id in work ::
                    id in db.batches && Bound(crypto.hash, db, past, id)
                        && work[id] == BatchSlice(db.committees, past.orders, db.batches[id])
        decreases |left|
      {
        var id :| id in left;
        left := left - {id};
        BatchFacts(crypto, db, checks, past, id);
        var rows := BatchCts(id);
        work := work[id := rows];
      }
    }

    /** A share arrives: the batch is looked up under the lock, then the share is verified off it. */
    method BeginShare(ticket: nat, batch: nat, operator: nat, share: Share) returns (r: ShareReply)
      requires Valid() && ticket !in checks
      modifies this`checks
      ensures Valid()
      ensures r == if share.party != operator then WrongParty
                   else if batch !in db.batches || batch in db.finalizedAt then UnknownBatch
                   else if (batch, operator) in db.shares then Duplicate(db.shares[(batch, operator)].verified)
                   else Started
      ensures !r.Started? ==> checks == old(checks)
      ensures r.Started? ==>
                checks == old(checks)[ticket :=
                  Check(batch, operator, share, BatchSlice(db.committees, past.orders, db.batches[batch]))]
    {
      hide Good, Sourced, BatchSlice;
      if share.party != operator {
        return WrongParty;
      }
      if batch !in db.batches || batch in db.finalizedAt {
        return UnknownBatch;
      }
      if (batch, operator) in db.shares {
        return Duplicate(db.shares[(batch, operator)].verified);
      }
      var headers := BatchCts(batch);
      NewCheck(crypto, db, checks, past, ticket, Check(batch, operator, share, headers));
      checks := checks[ticket := Check(batch, operator, share, headers)];
      return Started;
    }

    /**
     * The verification ends: the share is stored with its verdict, unless the operator's share
     * of the batch was stored meanwhile.
     */
    method EndShare(ticket: nat, now: nat) returns (verified: bool)
      requires Valid() && ticket in checks
      modifies this`checks, this`db
      ensures Valid() && Lasts(old(db), past, db, past) && checks == old(checks) - {ticket}
      ensures var Check(batch, operator, share, headers) := old(checks)[ticket];
              && verified == crypto.verify(headers, share)
              && db == if (batch, operator) in old(db).shares then old(db)
                       else old(db).(shares := old(db).shares[(batch, operator) := ShareRow(share, verified, now)])
    {
      hide Good, Lasts, Sourced, Grows;
      var Check(batch, operator, share, headers) := checks[ticket];
      verified := crypto.verify(headers, share);
      NothingMoves(db, past);
      if (batch, operator) in db.shares {
        LessCheck(crypto, db, checks, past, ticket);
      } else {
        NewShare(crypto, db, checks, past, ticket, now);
        var row := ShareRow(share, verified, now);
        ShareGrows(crypto, db, checks, past, batch, operator, row);
        SourcedKept(crypto, db, past, db.(shares := db.shares[(batch, operator) := row]), past);
        db := db.(shares := db.shares[(batch, operator) := row]);
      }
      checks := checks - {ticket};
    }

    // ---- finalizing ---------------------------------------------------------

    /** Whether a batch waits for nothing but its finalization. */
    predicate Ready(id: nat)
      reads this`db
    {
      id in db.batches && id !in db.finalizedAt && db.batches[id].condition in db.committees
      && |Voters(db.shares, id)| >= db.committees[db.batches[id].condition].t
    }

    /** Open a batch with its first `t` verified shares. A recovery that fails leaves it waiting. */
    method FinalizeBatch(id: nat, now: nat, recovers: bool)
      requires Valid() && Ready(id)
      modifies this`db
      ensures Valid() && Lasts(old(db), past, db, past)
      ensures if recovers
              then id in db.slots && db == old(db).(finalizedAt := old(db).finalizedAt[id := now],
                                                    slots := old(db).slots[id := db.slots[id]])
              else db == old(db)
      ensures recovers ==>
                exists ops, keys :: Earliest(db.shares, id, db.committees[db.batches[id].condition].t, ops)
                  && Submitted(db.shares, id, ops, keys)
                  && OpenedWith(crypto.open, keys, BatchSlice(db.committees, past.orders, db.batches[id]), db.cts,
                                db.slots[id])
    {
      hide Good, Sourced, Lasts, Earliest, SlotsOf, Voters, BatchSlice, Submitted, OpenedWith;
      NothingMoves(db, past);
      var t := db.committees[db.batches[id].condition].t;
      var ops := FirstShares(db.shares, id, t);
      EarliestStored(db.shares, id, t, ops);
      var rows := BatchCts(id);
      if recovers {
        var keys := SharesOf(db.shares, id, ops);
        SharesSubmitted(db.shares, id, ops);
        var slots := SlotsOf(crypto.open, keys, rows, db.cts);
        SlotsOpened(crypto.open, keys, rows, db.cts);
        NotOpened(crypto, db, checks, past);
        NewOpening(crypto, db, checks, past, id, now, slots);
        SourcedOpening(crypto, db, past, id, ops, keys, slots, now);
        db := db.(finalizedAt := db.finalizedAt[id := now], slots := db.slots[id := slots]);
      }
    }

    /** Conditions frozen too long with a batch unopened are stalled. */
    method MarkStalled(cutoff: nat)
      requires Valid()
      modifies this`db
      ensures Valid() && Lasts(old(db), past, db, past)
      ensures db == old(db).(status := db.status) && db.status.Keys == old(db).status.Keys
      ensures forall c | c in db.status ::
                && (db.status[c] != old(db).status[c] ==> old(db).status[c].Frozen? && db.status[c].Stalled?)
                && (db.status[c].Frozen? ==>
                      forall id | id in db.batches && db.batches[id].condition == c && id !in db.finalizedAt ::
                        db.batches[id].frozenAt > cutoff)
                && (db.status[c].Stalled? && old(db).status[c].Frozen? ==>
                      exists id :: id in db.batches && db.batches[id].condition == c
                        && db.batches[id].frozenAt <= cutoff && id !in db.finalizedAt)
    {
      hide Good, Lasts, Sourced, Grows;
      var marked := map c | c in db.status :: if db.status[c].Frozen? && Late(c, cutoff) then Stalled else db.status[c];
      NewStalls(crypto, db, checks, past, marked);
      StatusGrows(crypto, db, checks, past, marked);
      SourcedKept(crypto, db, past, db.(status := marked), past);
      db := db.(status := marked);
    }

    predicate Late(c: CondId, cutoff: nat)
      reads this`db
    {
      exists id | id in db.batches.Keys :: db.batches[id].condition == c && id !in db.finalizedAt
          && db.batches[id].frozenAt <= cutoff
    }

    // ---- revealing ----------------------------------------------------------

    /** Whether a condition waits for nothing but its reveal. */
    predicate Complete(c: CondId)
      reads this`db
    {
      && c in db.status && (db.status[c].Frozen? || db.status[c].Stalled?)
      && (exists id | id in db.batches.Keys :: db.batches[id].condition == c)
      && (forall id | id in db.batches.Keys && db.batches[id].condition == c :: id in db.finalizedAt)
    }

    /**
     * Reveal a condition whose batches are all finalized: their slots in batch order, each
     * under its ciphertext's position, under one root. What is shown follows the frozen order.
     */
    method BuildReveal(c: CondId)
      requires Valid() && Complete(c)
      modifies this`db
      ensures Valid() && Lasts(old(db), past, db, past)
      ensures c in db.published && c in past.ids && (forall id | id in past.ids[c] :: id in db.slots)
      ensures db == old(db).(published := old(db).published[c := db.published[c]],
                status := old(db).status[c := Revealed])
      ensures db.published[c].slots == Numbered(Gather(past.ids[c], db.slots))
      ensures Shows(crypto.hash, db.published[c], past.orders[c])
    {
      hide Good, Sourced, Lasts, Placed, Batched, StableSorts.Sort, Gather, HashesOf, Off;
      FrozenFacts(crypto, db, checks, past, c);
      var ids := BatchQuery(db.batches, db.nextBatch, past.ids, c);
      assert forall id | id in ids :: id in db.slots;
      GatherAll(crypto, db, checks, past, c);
      var slots := GatherSlots(ids, db.slots);
      LocatedInOrder(db.cts, past.orders, c, slots);
      slots := StableSorts.Sort(PositionOrder, Located(slots, db.cts));
      var root := OrderingRoots.ComputeRoot(crypto.hash, OrderingRoots.Hashes(crypto.hash, RevealPreimages(slots)));
      NumberedShows(crypto.hash, Gather(past.ids[c], db.slots), past.orders[c]);
      NewReveal(crypto, db, checks, past, c, Reveal(slots, root));
      SourcedReveal(crypto, db, past, c, Reveal(slots, root));
      db := db.(published := db.published[c := Reveal(slots, root)], status := db.status[c := Revealed]);
    }

    // ---- one pass -----------------------------------------------------------

    /**
     * Finalize every batch with enough verified shares, then reveal every condition whose
     * batches are all finalized. What fails is passed over: nothing that could be opened is left
     * closed unless its own recovery or its own reveal failed.
     */
    method FinalizeReady(now: nat, recovers: nat -> bool, publishes: CondId -> bool)
      requires Valid()
      modifies this`db
      ensures Valid() && Lasts(old(db), past, db, past)
      ensures forall id :: id in db.finalizedAt <==>
                || id in old(db).finalizedAt
                || (id in db.batches && recovers(id) && db.batches[id].condition in db.committees
                    && |Voters(db.shares, id)| >= db.committees[db.batches[id].condition].t)
      ensures db.batches == old(db).batches && db.shares == old(db).shares && db.committees == old(db).committees
      ensures forall c | c in db.status && !db.status[c].Pending? && publishes(c) ::
                db.status[c].Revealed? || exists id :: id in db.batches && db.batches[id].condition == c
                                                       && id !in db.finalizedAt
    {
      hide Good, Lasts, Sourced, Voters;
      FinalizeAll(now, recovers);
      ghost var mid := db;
      RevealAll(publishes);
      LastsOn(old(db), mid, db, past);
      forall c | c in db.status && !db.status[c].Pending?
        ensures exists id :: id in db.batches && db.batches[id].condition == c
      {
        HasBatch(crypto, db, checks, past, c);
      }
    }

    method FinalizeAll(now: nat, recovers: nat -> bool)
      requires Valid()
      modifies this`db
      ensures Valid() && Lasts(old(db), past, db, past)
      ensures forall id :: Ready(id) <==> old(Ready(id)) && !recovers(id)
      ensures forall id :: id in db.finalizedAt <==> id in old(db).finalizedAt || (old(Ready(id)) && recovers(id))
      ensures db == old(db).(finalizedAt := db.finalizedAt, slots := db.slots)
    {
      hide Good, Sourced, Lasts, Voters, Earliest, Submitted, OpenedWith, BatchSlice;
      NothingMoves(db, past);
      var ready: set<nat> := set id | id in db.batches.Keys && Ready(id);
      ghost var all := ready;
      while ready != {}
        invariant ready <= all && Valid() && Lasts(old(db), past, db, past)
        invariant forall id :: Ready(id) <==> id in ready || (id in all && !recovers(id))
        invariant forall id :: id in db.finalizedAt <==>
                    id in old(db).finalizedAt || (id in all - ready && recovers(id))
        invariant db == old(db).(finalizedAt := db.finalizedAt, slots := db.slots)
        decreases |ready|
      {
        var id :| id in ready;
        ready := ready - {id};
        ghost var before := db;
        FinalizeBatch(id, now, recovers(id));
        LastsOn(old(db), before, db, past);
      }
    }

    method RevealAll(publishes: CondId -> bool)
      requires Valid()
      modifies this`db
      ensures Valid() && Lasts(old(db), past, db, past)
      ensures forall c :: Complete(c) <==> old(Complete(c)) && !publishes(c)
      ensures db == old(db).(published := db.published, status := db.status)
    {
      hide Good, Sourced, Lasts, Shows;
      NothingMoves(db, past);
      var done: set<nat> := set c | c in db.status.Keys && Complete(c);
      ghost var all := done;
      while done != {}
        invariant done <= all && Valid() && Lasts(old(db), past, db, past)
        invariant db == old(db).(published := db.published, status := db.status)
        invariant forall c :: Complete(c) <==> c in done || (c in all && !publishes(c))
        decreases |done|
      {
        var c :| c in done;
        done := done - {c};
        if publishes(c) {
          ghost var before := db;
          BuildReveal(c);
          LastsOn(old(db), before, db, past);
        }
      }
    }
  }

  lemma LastsOn(a: Db, b: Db, c: Db, past: Past)
    requires Lasts(a, past, b, past) && Lasts(b, past, c, past)
    ensures Lasts(a, past, c, past)
  {
  }

  /** A frozen condition has a batch. */
  lemma HasBatch(crypto: Crypto, db: Db, checks: map<nat, Check>, past: Past, c: CondId)
    requires Good(crypto, db, checks, past) && c in db.status && !db.status[c].Pending?
    ensures exists id :: id in db.batches && db.batches[id].condition == c
  {
    hide Good, Off, Placed, Batched;
    FrozenFacts(crypto, db, checks, past, c);
    OffNext(db.committees[c].b, 0);
    assert past.ids[c][0] in past.ids[c];
  }

  // ---- what the reveal means --------------------------------------------------

  /** A share of a batch, stored or under verification, comes after the batch's commitment. */
  lemma SharesFollowCommitments(e: Engine, batch: nat, operator: nat)
    requires e.Valid() && ((batch, operator) in e.db.shares || exists t :: t in e.checks && e.checks[t].batch == batch)
    ensures Bound(e.crypto.hash, e.db, e.past, batch)
  {
    hide Statused, Placed, Layout, Sized, Batched, Opened, Shown, BatchSlice, SliceRoot;
  }

  /** A revealed condition's batches are finalized, each by `t` operators whose shares match it. */
  lemma RevealedMet(e: Engine, c: CondId, j: nat)
    requires e.Valid() && c in e.db.published && c in e.past.ids && j < |e.past.ids[c]|
    ensures var id := e.past.ids[c][j];
            && id in e.db.batches && e.db.batches[id] == e.db.batches[id].(condition := c, index := j)
            && c in e.db.committees && |Voters(e.db.shares, id)| >= e.db.committees[c].t
            && forall op | op in Voters(e.db.shares, id) ::
                 && (id, op) in e.db.shares && e.db.shares[(id, op)].share.party == op
                 && e.crypto.verify(BatchSlice(e.db.committees, e.past.orders, e.db.batches[id]),
                     e.db.shares[(id, op)].share)
  {
    hide Statused, Placed, Layout, Sized, Committed, BatchSlice, HashesOf, Shows;
    assert e.past.ids[c][j] in e.past.ids[c];
  }

  /**
   * Committed order is revealed order: a batch's commitment is the root over what the reveal
   * shows for it, in its order. Whatever else a batch of that commitment is claimed to be is
   * the same batch, or shows a collision of the hash: always for a claim of the batch's size,
   * and for a claim of any size unless an intent id has 31 bytes.
   */
  lemma RevealedAsCommitted(e: Engine, c: CondId, j: nat, claimed: seq<Hash>, intents: Ids)
    requires e.Valid() && c in e.db.published && c in e.past.ids && j < |e.past.ids[c]| && claimed != []
    ensures c in e.db.committees && c in e.past.bound && Bound(e.crypto.hash, e.db, e.past, e.past.ids[c][j])
    ensures var b, shown := e.db.committees[c].b, HashesOf(e.db.published[c].slots);
            && Off(b, j) < Off(b, j + 1) <= |shown|
            && CommitsTo(e.crypto.hash, e.db.commitments[e.past.ids[c][j]], shown[Off(b, j)..Off(b, j + 1)],
                         e.past.bound[c], claimed, intents)
  {
    hide Good, SliceRoot, Off, CommitsTo, HashesOf, BatchSlice;
    BatchShown(e.crypto, e.db, e.checks, e.past, c, j);
    var b := e.db.committees[c].b;
    Commits(e.crypto.hash, e.past.orders[c][Off(b, j)..Off(b, j + 1)], e.past.bound[c], claimed, intents);
  }

  /** Where a revealed batch stands in what is shown. */
  lemma BatchShown(crypto: Crypto, db: Db, checks: map<nat, Check>, past: Past, c: CondId, j: nat)
    requires Good(crypto, db, checks, past) && c in db.published && c in past.ids && j < |past.ids[c]|
    ensures c in db.committees && c in past.orders && HashesOf(db.published[c].slots) == past.orders[c]
    ensures Off(db.committees[c].b, j) < Off(db.committees[c].b, j + 1) <= |past.orders[c]|
    ensures var id, b := past.ids[c][j], db.committees[c].b;
            && Bound(crypto.hash, db, past, id) && db.batches[id].condition == c
            && BatchSlice(db.committees, past.orders, db.batches[id]) == past.orders[c][Off(b, j)..Off(b, j + 1)]
  {
    hide Good, BatchSlice, SliceRoot, Off, HashesOf;
    RevealFollows(crypto, db, checks, past, c);
    BatchListed(crypto, db, checks, past, c, j);
    BatchFacts(crypto, db, checks, past, past.ids[c][j]);
    OffNext(db.committees[c].b, j);
  }

  /** A reveal shows the frozen order. */
  lemma RevealFollows(crypto: Crypto, db: Db, checks: map<nat, Check>, past: Past, c: CondId)
    requires Good(crypto, db, checks, past) && c in db.published
    ensures c in past.orders && HashesOf(db.published[c].slots) == past.orders[c]
  {
    hide Statused, Placed, Layout, Sized, Batched, Committed, Shared, Opened, HashesOf;
  }

  /** A condition's batches are in the table under their index. */
  lemma BatchListed(crypto: Crypto, db: Db, checks: map<nat, Check>, past: Past, c: CondId, j: nat)
    requires Good(crypto, db, checks, past) && c in past.ids && j < |past.ids[c]|
    ensures c in db.committees && db.committees[c].b > 0
    ensures past.ids[c][j] in db.batches && db.batches[past.ids[c][j]].condition == c
    ensures db.batches[past.ids[c][j]].index == j
  {
    hide Statused, Placed, Layout, Committed, Shared, Opened, Shown, Off, BatchCount, Reals;
  }

  /**
   * A commitment is a batch's, and a claim of the same commitment is of the same batch or shows
   * a collision, if it has the batch's size or no id on either side has 31 bytes.
   */
  ghost predicate CommitsTo(hash: Encodings.Bytes -> Encodings.Word, commitment: Encodings.Word, batch: seq<Hash>,
      bound: Ids,
      claimed: seq<Hash>, intents: Ids)
    requires claimed != [] && batch != []
  {
    && commitment == SliceRoot(hash, batch, bound)
    && (SliceRoot(hash, claimed, intents) == commitment
        && (|claimed| == |batch| || (NoNodeSizedId(claimed, intents) && NoNodeSizedId(batch, bound)))
        ==> SameBatch(claimed, intents, batch, bound)
            || OrderingRoots.Clash(hash, OrderingPreimages(claimed, intents), OrderingPreimages(batch, bound)))
  }

  lemma Commits(hash: Encodings.Bytes -> Encodings.Word, batch: seq<Hash>, bound: Ids, claimed: seq<Hash>, intents: Ids)
    requires claimed != [] && batch != []
    ensures CommitsTo(hash, SliceRoot(hash, batch, bound), batch, bound, claimed, intents)
  {
    hide SliceRoot, NoNodeSizedId, SameBatch, OrderingRoots.Clash, OrderingPreimages;
    if SliceRoot(hash, claimed, intents) == SliceRoot(hash, batch, bound)
       && (|claimed| == |batch| || (NoNodeSizedId(claimed, intents) && NoNodeSizedId(batch, bound))) {
      CommitmentBinds(hash, claimed, intents, batch, bound);
    }
  }

  /** The batches of a revealed condition are opened, each with as many slots as a batch has. */
  lemma BatchOpened(e: Engine, c: CondId, j: nat)
    requires e.Valid() && c in e.db.published && c in e.past.ids && j < |e.past.ids[c]|
    ensures var id := e.past.ids[c][j];
            && id in e.db.slots && id in e.db.batches && c in e.db.committees && e.db.committees[c].b > 0
            && e.db.batches[id].condition == c && |e.db.slots[id]| == e.db.committees[c].b
  {
    hide Good, BatchSlice, Submitted, OpenedWith, Gather, Off;
    var id := e.past.ids[c][j];
    assert id in e.past.ids[c];
    BatchListed(e.crypto, e.db, e.checks, e.past, c, j);
    BatchFacts(e.crypto, e.db, e.checks, e.past, id);
    OffNext(e.db.committees[c].b, j);
    var ops, keys :| OpenedFrom(e.crypto.open, e.db, e.past, id, ops, keys);
    SlotCount(e.crypto.open, keys, BatchSlice(e.db.committees, e.past.orders, e.db.batches[id]), e.db.cts,
              e.db.slots[id]);
  }

  lemma SlotCount(open: Opener, keys: seq<Share>, rows: seq<Hash>, cts: Ciphertexts, slots: seq<Slot>)
    requires OpenedWith(open, keys, rows, cts, slots)
    ensures |slots| == |rows|
  {
  }

  /** Slot `i` of batch `j` shows the ciphertext that stands there in the frozen order. */
  lemma SlotOpened(e: Engine, c: CondId, j: nat, i: nat)
    requires e.Valid() && c in e.past.ids && j < |e.past.ids[c]| && e.past.ids[c][j] in e.db.slots
    requires c in e.db.committees && i < e.db.committees[c].b && i < |e.db.slots[e.past.ids[c][j]]|
    ensures c in e.past.orders && Off(e.db.committees[c].b, j) + i < |e.past.orders[c]|
    ensures ShowsOwn(e.crypto.open, e.db, e.past, c, e.past.ids[c][j],
              e.past.orders[c][Off(e.db.committees[c].b, j) + i],
                     e.db.slots[e.past.ids[c][j]][i])
  {
    hide Good, BatchSlice, Submitted, Gather, Off, Assembled;
    var id, b := e.past.ids[c][j], e.db.committees[c].b;
    BatchListed(e.crypto, e.db, e.checks, e.past, c, j);
    BatchFacts(e.crypto, e.db, e.checks, e.past, id);
    OffNext(b, j);
    var rows := BatchSlice(e.db.committees, e.past.orders, e.db.batches[id]);
    assert rows[i] == e.past.orders[c][Off(b, j) + i];
    var ops, keys :| OpenedFrom(e.crypto.open, e.db, e.past, id, ops, keys);
  }

  /**
   * Every slot of a reveal, by its position in the frozen order: it shows that ciphertext's hash
   * and dummy mark, and as its verdict and payload what `t` verified shares of its batch, each by
   * another operator, recover from that very ciphertext.
   */
  lemma RevealedSlots(e: Engine, c: CondId, p: nat)
    requires e.Valid() && c in e.db.published && p < |e.db.published[c].slots|
    ensures RevealsAt(e.crypto.open, e.db, e.past, c, p)
  {
    hide Good, Off, Gather, HashesOf, ShowsOwn, Recovered;
    RevealFollows(e.crypto, e.db, e.checks, e.past, c);
    ShownLength(e.db.published[c].slots, e.past.orders[c]);
    var ids := e.past.ids[c];
    forall j | 0 <= j < |ids|
      ensures c in e.db.committees && ids[j] in e.db.slots && |e.db.slots[ids[j]]| == e.db.committees[c].b
    {
      BatchOpened(e, c, j);
    }
    assert ids != [] by { GatherNone(e.db.slots); }
    BatchOpened(e, c, 0);
    var b := e.db.committees[c].b;
    GatherSize(ids, e.db.slots, b);
    PlaceOf(b, |ids|, p);
    GatherAt(ids, e.db.slots, b, p / b, p % b);
    SlotOpened(e, c, p / b, p % b);
    ShownElsewhere(e.crypto.open, e.db, e.past, c, ids[p / b], e.past.orders[c][p], e.db.slots[ids[p / b]][p % b], p);
  }

  lemma ShownLength(slots: seq<Slot>, order: seq<Hash>)
    requires HashesOf(slots) == order
    ensures |slots| == |order|
  {
  }

  /**
   * Positions are a function of the real ciphertexts alone: two conditions sealed the same
   * ciphertexts give them the same positions, whatever came when and whatever dummies were
   * drawn; the dummies stand behind all of them.
   */
  lemma PositionsOfReals(e: Engine, c: CondId, h: Hash)
    requires e.Valid() && c in e.past.orders && h in e.db.cts && e.db.cts[h].condition == c
    ensures var members := ByHash(Reals(e.db.cts, c));
            && |members| <= |e.past.orders[c]| && e.past.orders[c][..|members|] == members
            && e.db.cts[h].position.Some?
            && if e.db.cts[h].isDummy then e.db.cts[h].position.value >= |members|
               else e.db.cts[h].position.value < |members| && members[e.db.cts[h].position.value] == h
  {
    hide Statused, Sized, Batched, Committed, Shared, Opened, Shown, ByHash;
    var members, dummies := ByHash(Reals(e.db.cts, c)), ByHash(Dummies(e.db.cts, c));
    var p := e.db.cts[h].position.value;
    assert e.past.orders[c] == members + dummies;
    if p < |members| {
      assert members[p] in Reals(e.db.cts, c);
    } else {
      assert dummies[p - |members|] in Dummies(e.db.cts, c);
    }
  }
}
