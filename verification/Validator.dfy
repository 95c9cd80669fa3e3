/** A validator: the finalization and submission sides of the actor together. */
module Validators {
  import opened Base
  import opened ConsensusState
  import opened Actors
  import opened Pools

  /**
   * Block `k` of a chain lists a transaction, and the answer is what its own ledger says after
   * the transactions of earlier blocks and those before it in the block.
   */
  ghost predicate GivenAt(cfgs: Configs, chain: seq<Id>, k: nat, tx: Tx, answer: Answer) {
    && k < |chain| && chain[k].BlockId?
    && exists i | 0 <= i < |chain[k].block.txs| ::
         AnsweredAt(cfgs, Ordered(chain[..k]), chain[k].block.txs, i, tx, answer)
  }

  /** Transaction `i` of a block, and its answer after what was ordered before. */
  ghost predicate AnsweredAt(cfgs: Configs, before: seq<Tx>, txs: seq<Tx>, i: nat, tx: Tx, answer: Answer)
    requires i < |txs|
  {
    txs[i] == tx && answer == AnswerAfter(cfgs, before + txs[..i], tx)
  }

  /** The answers of a chain's tip are those its last block gives. */
  lemma TipGives(cfgs: Configs, chain: seq<Id>, tx: Tx, answer: Answer)
    requires chain != [] && chain[|chain| - 1].BlockId?
    ensures (tx, answer) in Paired(chain[|chain| - 1].block.txs, TipAnswers(cfgs, chain))
            <==> GivenAt(cfgs, chain, |chain| - 1, tx, answer)
  {
    hide TipAnswers, AnswerAfter, Ordered;
    var n := |chain| - 1;
    forall i | 0 <= i < |chain[n].block.txs|
      ensures AnsweredAt(cfgs, Ordered(chain[..n]), chain[n].block.txs, i, chain[n].block.txs[i],
                TipAnswers(cfgs, chain)[i])
    {
      TipAnswered(cfgs, chain, i);
    }
  }

  lemma {:induction false} OutcomeGiven(cfgs: Configs, chain: seq<Id>, tx: Tx, answer: Answer)
    ensures (tx, answer) in Outcomes(cfgs, chain) <==> exists k: nat :: GivenAt(cfgs, chain, k, tx, answer)
  {
    hide TipAnswers, AnswerAfter, Paired;
    if chain != [] {
      var n := |chain| - 1;
      OutcomeGiven(cfgs, chain[..n], tx, answer);
      forall k: nat | k < n
        ensures GivenAt(cfgs, chain[..n], k, tx, answer) <==> GivenAt(cfgs, chain, k, tx, answer)
      {
        assert chain[..n][..k] == chain[..k];
      }
      if chain[n].BlockId? {
        TipGives(cfgs, chain, tx, answer);
      }
      if (tx, answer) in Outcomes(cfgs, chain) {
        if (tx, answer) in Outcomes(cfgs, chain[..n]) {
          var k: nat :| GivenAt(cfgs, chain[..n], k, tx, answer);
          assert GivenAt(cfgs, chain, k, tx, answer);
        } else {
          assert GivenAt(cfgs, chain, n, tx, answer);
        }
      }
      if k: nat :| GivenAt(cfgs, chain, k, tx, answer) {
        if k < n {
          assert GivenAt(cfgs, chain[..n], k, tx, answer);
        }
      }
    }
  }

  lemma OutcomesNext(cfgs: Configs, chain: seq<Id>, id: Id)
    requires id.BlockId?
    ensures Outcomes(cfgs, chain + [id]) == Outcomes(cfgs, chain) + Paired(id.block.txs, TipAnswers(cfgs, chain + [id]))
  {
    hide TipAnswers, Paired;
    assert (chain + [id])[..|chain|] == chain;
  }

  lemma {:induction false} EligibleDistinct(pool: seq<PoolEntry>, excluded: set<Tx>)
    requires EachTxOnce(pool)
    ensures EachTxOnce(Eligible(pool, excluded))
  {
    if pool != [] {
      var rest := pool[..|pool| - 1];
      EligibleDistinct(rest, excluded);
      EligibleMembers(rest, excluded);
      forall i | 0 <= i < |Eligible(rest, excluded)|
        ensures Eligible(rest, excluded)[i].tx != pool[|pool| - 1].tx
      {
        assert Eligible(rest, excluded)[i] in rest;
      }
    }
  }

  lemma PackedDecodable(pool: seq<PoolEntry>, excluded: set<Tx>, picked: seq<PoolEntry>, maxTxs: nat)
    requires EachTxOnce(pool) && Packs(picked, Eligible(pool, excluded), maxTxs) && maxTxs <= MAX_BLOCK_TXS
    ensures Decodable(TxsOf(picked)) && |picked| <= 128 && NoRepeats(TxsOf(picked))
    ensures forall tx | tx in TxsOf(picked) :: tx !in excluded
  {
    hide Eligible, Weight;
    EligibleDistinct(pool, excluded);
    EligibleMembers(pool, excluded);
    var eligible := Eligible(pool, excluded);
    forall i | 0 <= i < |picked|
      ensures picked[i].tx !in excluded && picked[i] == eligible[i]
    {
      assert eligible[i] in eligible;
    }
  }

  class Validator {
    const actor: Actor
    const pool: Pool
    const maxBlockTxs: nat

    ghost predicate Valid()
      reads this, actor, actor.state, pool
    {
      && actor.Valid() && pool.Valid()
      && pool.outcomes == Outcomes(actor.state.cfgs, History())
    }

    /** The blocks the actor's head stands on. */
    ghost function History(): seq<Id>
      requires actor.head.height < |actor.chain|
      reads this, actor
    {
      actor.chain[1..actor.head.height + 1]
    }

    /** Start with an actor at any height and the outcomes of the blocks below it. */
    constructor (actor: Actor, pool: Pool, maxBlockTxs: nat)
      requires actor.Valid() && pool.Valid()
      requires pool.outcomes == Outcomes(actor.state.cfgs, actor.chain[1..actor.head.height + 1])
      ensures Valid() && this.actor == actor && this.pool == pool
    {
      this.actor, this.pool, this.maxBlockTxs := actor, pool, maxBlockTxs;
    }

    /** Propose a block from the pool: any peer can decode it, and nothing pending is ordered again. */
    method OnPropose(parent: Id, epoch: nat, view: nat, spelling: nat) returns (proposed: Option<Id>)
      requires Valid()
      modifies actor`blocks, actor`requested, actor`asked
      ensures Valid() && actor.Remembers()
      ensures proposed.Some? <==> old(actor.ParentHeight(parent)).Some?
      ensures proposed.Some? ==>
                && proposed.value.BlockId? && |proposed.value.block.txs| <= 128 && NoRepeats(proposed.value.block.txs)
                && forall tx | tx in proposed.value.block.txs ::
                     tx in pool.mempoolIds && tx !in old(actor.Pending(parent))
    {
      hide Actor.Valid, Pool.TasksOk, Pool.RepliesOk, Outcomes, Packs, Eligible;
      var maxTxs := if maxBlockTxs < MAX_BLOCK_TXS then maxBlockTxs else MAX_BLOCK_TXS;
      ghost var excluded := actor.Pending(parent);
      proposed := actor.OnPropose(parent, epoch, view, spelling, pool.mempool, maxTxs);
      if proposed.Some? {
        var id := proposed.value;
        ghost var picked :| Packs(picked, Eligible(pool.mempool, excluded), maxTxs) && id.block.txs == TxsOf(picked);
        PackedDecodable(pool.mempool, excluded, picked, maxTxs);
        FromPool(pool.mempool, excluded, picked, maxTxs);
      }
    }

    // ---- the other messages -------------------------------------------------

    method OnFinalized(id: Id)
      requires Valid() && id in actor.chain
      modifies actor
      ensures Valid() && actor.Remembers() && actor.head == old(actor.head)
    {
      hide Actor.Valid, Pool.Valid, Actor.Remembered, Actor.Drained, Outcomes;
      actor.OnFinalized(id);
    }

    method RunTask()
      requires Valid() && actor.task.Some? && actor.task.value.Spawned?
      modifies actor, actor.state
      ensures Valid() && actor.task.Some? && actor.task.value.Done? && actor.head == old(actor.head)
    {
      hide Actor.Valid, Pool.Valid, Outcomes;
      actor.RunTask();
    }

    method OnBlockBytes(id: Id, framed: bool)
      requires Valid() && id.BlockId?
      modifies actor
      ensures Valid() && actor.Remembers() && actor.head == old(actor.head)
    {
      hide Actor.Valid, Pool.Valid, Actor.Remembered, Actor.Drained, Outcomes, Decodable;
      actor.OnBlockBytes(id, framed);
    }

    method OnVerify(context: Context, id: Id)
      requires Valid()
      modifies actor
      ensures Valid() && actor.head == old(actor.head)
    {
      hide Pool.Valid, Outcomes, Actor.Anchored, Actor.HeadOk, Actor.Known, Actor.Cached, ChainOk;
      actor.HeightsHold();
      hide Actor.Heights;
      actor.OnVerify(context, id);
    }

    /** A vote is answered; a mint this validator's view of the chain refuses leaves its pool. */
    method OnChecked(context: Context, passes: Tx -> bool, confirmed: Tx -> Option<bool>)
      requires Valid() && context in actor.votes.checking
      modifies actor, pool
      ensures Valid() && actor.head == old(actor.head) && context in actor.votes.answers
      ensures forall tx | tx in old(pool.mempoolIds) && tx !in pool.mempoolIds ::
                tx.envelope.Mint? && confirmed(tx) == Some(false)
    {
      hide Actor.Valid, Pool.Valid, Outcomes, MintFine;
      var unconfirmed := actor.OnChecked(context, passes, confirmed);
      if unconfirmed.Some? {
        pool.Drop(unconfirmed.value);
      }
    }

    method OnSubmit(tx: Tx, submitter: Submitter, ticket: nat)
      requires Valid() && ticket !in pool.tasks && submitter.reply !in pool.place
      modifies pool
      ensures Valid() && pool.Keeps() && submitter.reply in pool.place
    {
      hide Actor.Valid, Pool.Valid, Kept, Outcomes;
      pool.Admit(tx, Some(submitter), ticket);
    }

    method OnPeerTx(tx: Tx, ticket: nat)
      requires Valid() && ticket !in pool.tasks
      modifies pool
      ensures Valid() && pool.Keeps()
    {
      hide Actor.Valid, Pool.Valid, Kept, Outcomes;
      pool.OnPeerTx(tx, ticket);
    }

    method CheckDone(ticket: nat, refusal: Option<Error>)
      requires Valid() && ticket in pool.tasks && pool.tasks[ticket].Checking?
      modifies pool
      ensures Valid() && pool.Keeps()
    {
      hide Actor.Valid, Pool.Valid, Kept, Outcomes;
      pool.CheckDone(ticket, refusal);
    }

    method OnAdmission(ticket: nat, size: nat)
      requires Valid() && ticket in pool.tasks && !pool.tasks[ticket].Checking?
      modifies pool
      ensures Valid() && pool.Keeps()
    {
      hide Actor.Valid, Pool.Valid, Kept, Outcomes;
      pool.OnAdmission(ticket, size);
    }

    /** The pool expires what is overdue, then the actor gives up and asks again. */
    method OnTick(now: nat)
      requires Valid() && now >= actor.clock && now >= pool.clock
      modifies actor, pool
      ensures Valid() && pool.Keeps() && actor.Remembers() && actor.head == old(actor.head)
    {
      hide Actor.Valid, Pool.Valid, Kept, Outcomes, Actor.Drained, Actor.Remembered;
      pool.OnTick(now);
      actor.OnTick(now);
    }

    /** The message of a finished application arrives: waiters are answered, and the head follows. */
    method OnApplied()
      requires Valid() && actor.task.Some? && actor.task.value.Done?
      modifies actor, pool
      ensures Valid() && pool.Keeps() && actor.Remembers() && actor.Drained()
      ensures actor.head == actor.state.head && actor.head.height == old(actor.head.height) + 1
      ensures pool.outcomes == Outcomes(actor.state.cfgs, actor.state.applied)
      ensures var id := old(actor.task.value.id);
              && id.BlockId? && |TipAnswers(actor.state.cfgs, actor.state.applied)| == |id.block.txs|
              && Told(id.block.txs, TipAnswers(actor.state.cfgs, actor.state.applied), old(pool.waiters), pool.answered,
                   |id.block.txs|)
    {
      hide Actor.Valid, Pool.Valid, Kept, Actor.Remembered, Actor.Drained, Outcomes, TipAnswers, Told;
      actor.DoneTip();
      var Done(id, answers) := actor.task.value;
      Tell(id, answers);
      actor.OnApplied();
    }

    /** Waiters of the block just applied get their answers. */
    method Tell(id: Id, answers: seq<Answer>)
      requires Valid() && id.BlockId? && |answers| == |id.block.txs|
      requires answers == TipAnswers(actor.state.cfgs, History() + [id])
      modifies pool
      ensures pool.Valid() && pool.Keeps()
      ensures pool.outcomes == Outcomes(actor.state.cfgs, old(History()) + [id])
      ensures Told(id.block.txs, answers, old(pool.waiters), pool.answered, |id.block.txs|)
    {
      assert actor.head.height < |actor.chain|;
      hide Actor.Valid, Pool.Valid, Kept, Outcomes, TipAnswers, Told, Eligible;
      OutcomesNext(actor.state.cfgs, History(), id);
      pool.OnApplied(id.block.txs, answers);
    }
  }

  lemma FromPool(pool: seq<PoolEntry>, excluded: set<Tx>, picked: seq<PoolEntry>, maxTxs: nat)
    requires Packs(picked, Eligible(pool, excluded), maxTxs)
    ensures forall tx | tx in TxsOf(picked) :: exists e :: e in pool && e.tx == tx
  {
    hide Weight;
    EligibleMembers(pool, excluded);
    forall i | 0 <= i < |picked|
      ensures picked[i] in pool
    {
      assert Eligible(pool, excluded)[i] in Eligible(pool, excluded);
    }
  }

  /**
   * Every Ok a submitter ever got is the record the ledger produced for that very transaction
   * in a block this validator applied.
   */
  lemma OkIsRecorded(validator: Validator, c: nat)
    requires validator.Valid() && c in validator.pool.answered && validator.pool.answered[c].Ok?
    ensures c in validator.pool.place
    ensures exists k: nat :: GivenAt(validator.actor.state.cfgs, validator.History(), k, validator.pool.place[c].tx,
              validator.pool.answered[c])
  {
    hide GivenAt, Outcomes;
    OutcomeGiven(validator.actor.state.cfgs, validator.History(), validator.pool.place[c].tx,
        validator.pool.answered[c]);
  }
}
