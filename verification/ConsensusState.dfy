/**
 * What every validator replicates: a family of ledgers that moves block by block, and whose
 * value is a function of the chain of blocks alone.
 */
module ConsensusState {
  import opened Base
  import opened LedgerModel
  import Sorting

  datatype Tx = Tx(namespace: Namespace, envelope: Envelope)

  datatype Block = Block(epoch: nat, view: nat, height: nat, parent: Id, txs: seq<Tx>)

  /**
   * A block's digest hashes its exact bytes. `spelling` tells apart byte strings that decode to
   * the same block, so a digest determines its block and, through the parent, all ancestors.
   */
  datatype Id = GenesisId(number: nat) | BlockId(block: Block, spelling: nat)

  type Ledgers = map<Namespace, Store>
  type Configs = map<Namespace, Config>
  type Answer = Result<Applied, Error>

  /** SHA-256 over the ledgers' state roots in namespace order. */
  datatype CombinedRoot = CombinedRoot(roots: seq<(Namespace, StateRoot)>)

  datatype Head = Head(height: nat, digest: Id, root: CombinedRoot)

  function ApplyTx(cfgs: Configs, ledgers: Ledgers, tx: Tx): (o: (Answer, Ledgers))
    requires ledgers.Keys == cfgs.Keys
    ensures o.1.Keys == cfgs.Keys
  {
    if tx.namespace !in ledgers then (Err(WrongNamespace), ledgers)
    else
      var (r, t) := Step(cfgs[tx.namespace], ledgers[tx.namespace], tx.envelope);
      (r, ledgers[tx.namespace := t])
  }

  /** The answers and ledgers after a list of transactions, each judged on its own. */
  ghost function ApplyTxs(cfgs: Configs, ledgers: Ledgers, txs: seq<Tx>): (o: (seq<Answer>, Ledgers))
    requires ledgers.Keys == cfgs.Keys
    ensures |o.0| == |txs| && o.1.Keys == cfgs.Keys
  {
    if txs == [] then ([], ledgers)
    else
      var n := |txs| - 1;
      var (answers, mid) := ApplyTxs(cfgs, ledgers, txs[..n]);
      var (r, after) := ApplyTx(cfgs, mid, txs[n]);
      (answers + [r], after)
  }

  function EmptyLedgers(cfgs: Configs): Ledgers {
    map ns | ns in cfgs :: EmptyStore(cfgs[ns])
  }

  /** The ledgers a chain of blocks produces from empty ones. */
  ghost function LedgersAfter(cfgs: Configs, chain: seq<Id>): (l: Ledgers)
    ensures l.Keys == cfgs.Keys
  {
    if chain == [] then EmptyLedgers(cfgs)
    else
      var n := |chain| - 1;
      var before := LedgersAfter(cfgs, chain[..n]);
      if chain[n].BlockId? then ApplyTxs(cfgs, before, chain[n].block.txs).1 else before
  }

  /** What the last block of a chain answered, transaction by transaction. */
  ghost function TipAnswers(cfgs: Configs, chain: seq<Id>): (answers: seq<Answer>)
    ensures chain != [] && chain[|chain| - 1].BlockId? ==> |answers| == |chain[|chain| - 1].block.txs|
  {
    var n := |chain| - 1;
    if chain == [] || chain[n].GenesisId? then []
    else ApplyTxs(cfgs, LedgersAfter(cfgs, chain[..n]), chain[n].block.txs).0
  }

  /** Each transaction of a chain with the answer the ledger gave it there. */
  ghost function Outcomes(cfgs: Configs, chain: seq<Id>): set<(Tx, Answer)> {
    if chain == [] then {}
    else
      var n := |chain| - 1;
      Outcomes(cfgs, chain[..n])
      + (if chain[n].BlockId? then Paired(chain[n].block.txs, TipAnswers(cfgs, chain)) else {})
  }

  ghost function Paired(txs: seq<Tx>, answers: seq<Answer>): (pairs: set<(Tx, Answer)>)
    requires |answers| == |txs|
    ensures forall tx, answer :: (tx, answer) in pairs
              <==> exists i :: 0 <= i < |txs| && txs[i] == tx && answers[i] == answer
  {
    set i | 0 <= i < |txs| :: (txs[i], answers[i])
  }

  /** State roots by namespace, in ascending namespace order. */
  function RootOfLedgers(cfgs: Configs, ledgers: Ledgers): CombinedRoot
    requires ledgers.Keys == cfgs.Keys
  {
    var order := Sorting.Sorted(ledgers.Keys);
    CombinedRoot(seq(|order|, i requires 0 <= i < |order| => NamedRoot(cfgs, ledgers, order[i])))
  }

  /** A namespace with its ledger's state root. */
  function NamedRoot(cfgs: Configs, ledgers: Ledgers, ns: Namespace): (Namespace, StateRoot)
    requires ledgers.Keys == cfgs.Keys && ns in cfgs
  {
    (ns, StateRootOf(cfgs[ns], ledgers[ns]))
  }

  /** The combined root commits to every ledger's state root. */
  lemma CombinedRootBinds(cfgs: Configs, a: Ledgers, b: Ledgers)
    requires a.Keys == b.Keys == cfgs.Keys
    ensures RootOfLedgers(cfgs, a) == RootOfLedgers(cfgs, b)
            <==> forall ns | ns in cfgs :: StateRootOf(cfgs[ns], a[ns]) == StateRootOf(cfgs[ns], b[ns])
  {
    hide Sorting.Sorted;
    var order := Sorting.Sorted(cfgs.Keys);
    var x, y := RootOfLedgers(cfgs, a), RootOfLedgers(cfgs, b);
    if x == y {
      forall ns | ns in cfgs
        ensures StateRootOf(cfgs[ns], a[ns]) == StateRootOf(cfgs[ns], b[ns])
      {
        var i :| 0 <= i < |order| && order[i] == ns;
        assert x.roots[i] == y.roots[i];
      }
    } else {
      var i :| 0 <= i < |order| && x.roots[i] != y.roots[i];
      assert order[i] in cfgs;
    }
  }

  /** Every ledger a chain produces replays, so all that is proved of reachable ledgers holds. */
  lemma {:induction false} TxsReplay(cfgs: Configs, ledgers: Ledgers, txs: seq<Tx>)
    requires ledgers.Keys == cfgs.Keys && forall ns | ns in cfgs :: Replays(cfgs[ns], ledgers[ns])
    ensures forall ns | ns in cfgs :: Replays(cfgs[ns], ApplyTxs(cfgs, ledgers, txs).1[ns])
  {
    hide Step, Replays;
    if txs != [] {
      var n := |txs| - 1;
      TxsReplay(cfgs, ledgers, txs[..n]);
      var mid := ApplyTxs(cfgs, ledgers, txs[..n]).1;
      if txs[n].namespace in cfgs {
        StepReplays(cfgs[txs[n].namespace], mid[txs[n].namespace], txs[n].envelope);
      }
    }
  }

  lemma {:induction false} ChainReplays(cfgs: Configs, chain: seq<Id>)
    ensures forall ns | ns in cfgs :: Replays(cfgs[ns], LedgersAfter(cfgs, chain)[ns])
  {
    if chain != [] {
      var n := |chain| - 1;
      ChainReplays(cfgs, chain[..n]);
      if chain[n].BlockId? {
        TxsReplay(cfgs, LedgersAfter(cfgs, chain[..n]), chain[n].block.txs);
      }
    }
  }

  // ---- ledgers by namespace ---------------------------------------------------

  /** The envelopes of a list of transactions that go to one namespace, in order. */
  function Addressed(txs: seq<Tx>, ns: Namespace): seq<Envelope> {
    if txs == [] then []
    else
      var last := txs[|txs| - 1];
      Addressed(txs[..|txs| - 1], ns) + (if last.namespace == ns then [last.envelope] else [])
  }

  /** All transactions of a chain, block after block. */
  function Ordered(chain: seq<Id>): seq<Tx> {
    if chain == [] then []
    else
      var last := chain[|chain| - 1];
      Ordered(chain[..|chain| - 1]) + (if last.BlockId? then last.block.txs else [])
  }

  lemma {:induction false} AddressedAfter(before: seq<Tx>, txs: seq<Tx>, ns: Namespace)
    ensures Addressed(before + txs, ns) == Addressed(before, ns) + Addressed(txs, ns)
  {
    if txs == [] {
      assert before + txs == before;
    } else {
      var n := |txs| - 1;
      AddressedAfter(before, txs[..n], ns);
      assert (before + txs)[..|before| + n] == before + txs[..n];
    }
  }

  /** Each ledger is where the transactions ordered so far have run it. */
  ghost predicate RunBy(cfgs: Configs, ledgers: Ledgers, txs: seq<Tx>) {
    ledgers.Keys == cfgs.Keys && forall ns | ns in cfgs :: ledgers[ns] == Run(cfgs[ns], Addressed(txs, ns))
  }

  /** What a transaction is answered after `before`: what its own ledger says, which saw only its own. */
  ghost function AnswerAfter(cfgs: Configs, before: seq<Tx>, tx: Tx): Answer {
    if tx.namespace !in cfgs then Err(WrongNamespace)
    else Step(cfgs[tx.namespace], Run(cfgs[tx.namespace], Addressed(before, tx.namespace)), tx.envelope).0
  }

  /** One transaction moves its own ledger by one envelope and no other. */
  lemma TxRuns(cfgs: Configs, ledgers: Ledgers, before: seq<Tx>, tx: Tx)
    requires RunBy(cfgs, ledgers, before)
    ensures ApplyTx(cfgs, ledgers, tx).0 == AnswerAfter(cfgs, before, tx)
    ensures RunBy(cfgs, ApplyTx(cfgs, ledgers, tx).1, before + [tx])
  {
    hide Step, Run;
    forall ns | ns in cfgs
      ensures ApplyTx(cfgs, ledgers, tx).1[ns] == Run(cfgs[ns], Addressed(before + [tx], ns))
    {
      OneMore(before, tx, ns);
      if tx.namespace == ns {
        RunGrows(cfgs[ns], Addressed(before, ns), tx.envelope);
      }
    }
  }

  lemma OneMore(before: seq<Tx>, tx: Tx, ns: Namespace)
    ensures Addressed(before + [tx], ns)
            == if tx.namespace == ns then Addressed(before, ns) + [tx.envelope] else Addressed(before, ns)
  {
    assert (before + [tx])[..|before|] == before;
  }

  lemma RunGrows(cfg: Config, envs: seq<Envelope>, env: Envelope)
    ensures Run(cfg, envs + [env]) == Step(cfg, Run(cfg, envs), env).1
  {
    hide Step;
    assert (envs + [env])[..|envs|] == envs;
  }

  lemma RunByKeys(cfgs: Configs, ledgers: Ledgers, txs: seq<Tx>)
    requires RunBy(cfgs, ledgers, txs)
    ensures ledgers.Keys == cfgs.Keys
  {
  }

  lemma {:induction false} TxsRun(cfgs: Configs, ledgers: Ledgers, before: seq<Tx>, txs: seq<Tx>)
    requires RunBy(cfgs, ledgers, before)
    ensures RunBy(cfgs, ApplyTxs(cfgs, ledgers, txs).1, before + txs)
    ensures forall i | 0 <= i < |txs| ::
              ApplyTxs(cfgs, ledgers, txs).0[i] == AnswerAfter(cfgs, before + txs[..i], txs[i])
  {
    hide ApplyTx, RunBy, AnswerAfter;
    if txs == [] {
      assert before + txs == before;
    } else {
      var n := |txs| - 1;
      RunByKeys(cfgs, ledgers, before);
      TxsRun(cfgs, ledgers, before, txs[..n]);
      TxRuns(cfgs, ApplyTxs(cfgs, ledgers, txs[..n]).1, before + txs[..n], txs[n]);
      assert before + txs[..n] + [txs[n]] == before + txs;
      forall i | 0 <= i < n
        ensures txs[..n][..i] == txs[..i]
      {
      }
    }
  }

  /**
   * The ledgers of a chain, taken one by one: each holds what its own envelopes, in chain order,
   * make of an empty ledger, whatever the others did.
   */
  lemma {:induction false} ChainRuns(cfgs: Configs, chain: seq<Id>)
    ensures forall ns | ns in cfgs ::
              LedgersAfter(cfgs, chain)[ns] == Run(cfgs[ns], Addressed(Ordered(chain), ns))
  {
    hide ApplyTxs;
    if chain != [] {
      var n := |chain| - 1;
      ChainRuns(cfgs, chain[..n]);
      if chain[n].BlockId? {
        TxsRun(cfgs, LedgersAfter(cfgs, chain[..n]), Ordered(chain[..n]), chain[n].block.txs);
      } else {
        assert Ordered(chain) == Ordered(chain[..n]);
      }
    }
  }

  /**
   * Each answer of a chain's last block is the ledger's answer to that transaction where its
   * namespace stands: after the envelopes of earlier blocks and of the transactions before it.
   */
  lemma TipAnswered(cfgs: Configs, chain: seq<Id>, i: nat)
    requires chain != [] && chain[|chain| - 1].BlockId? && i < |chain[|chain| - 1].block.txs|
    ensures var n, txs := |chain| - 1, chain[|chain| - 1].block.txs;
            TipAnswers(cfgs, chain)[i] == AnswerAfter(cfgs, Ordered(chain[..n]) + txs[..i], txs[i])
  {
    hide ApplyTxs, AnswerAfter;
    var n := |chain| - 1;
    ChainRuns(cfgs, chain[..n]);
    TxsRun(cfgs, LedgersAfter(cfgs, chain[..n]), Ordered(chain[..n]), chain[n].block.txs);
  }

  class State {
    const cfgs: Configs
    const genesis: Id
    var ledgers: Ledgers
    var head: Head
    /** The block table, in the order the blocks were applied. */
    var applied: seq<Id>

    /** The ledgers are those of the applied chain, and the head is its tip. */
    ghost predicate Valid()
      reads this
    {
      && ledgers == LedgersAfter(cfgs, applied)
      && head.height == |applied|
      && head.digest == (if applied == [] then genesis else applied[|applied| - 1])
      && head.root == RootOfLedgers(cfgs, ledgers)
    }

    constructor (cfgs: Configs, genesis: Id)
      ensures Valid() && fresh(this) && applied == [] && this.cfgs == cfgs && this.genesis == genesis
    {
      this.cfgs, this.genesis, this.applied := cfgs, genesis, [];
      this.ledgers := EmptyLedgers(cfgs);
      this.head := Head(0, genesis, RootOfLedgers(cfgs, EmptyLedgers(cfgs)));
    }

    /**
     * Apply a finalized block: refused, with nothing changed, unless it extends the head.
     * Transactions go through the ledgers one at a time, then the block and head are recorded.
     */
    method ApplyBlock(id: Id) returns (r: Option<seq<Answer>>)
      requires Valid() && id.BlockId?
      modifies this
      ensures Valid()
      ensures r.Some? <==> id.block.parent == old(head.digest) && id.block.height == old(head.height) + 1
      ensures r.None? ==> applied == old(applied) && head == old(head)
      ensures r.Some? ==>
                && applied == old(applied) + [id]
                && head.height == id.block.height && head.digest == id
                && r.value == TipAnswers(cfgs, applied)
      ensures RunBy(cfgs, ledgers, Ordered(applied))
      ensures r.Some? ==> forall i | 0 <= i < |r.value| ::
                r.value[i] == AnswerAfter(cfgs, Ordered(old(applied)) + id.block.txs[..i], id.block.txs[i])
    {
      hide Step, Sorting.Sorted, RootOfLedgers, ApplyTxs, AnswerAfter, Run;
      ChainRuns(cfgs, applied);
      var block := id.block;
      if block.parent != head.digest || block.height != head.height + 1 {
        return None;
      }
      var answers := ApplyAll(block.txs, Ordered(applied));
      LedgersGrow(cfgs, applied, id);
      assert (applied + [id])[..|applied|] == applied;
      applied := applied + [id];
      head := Head(block.height, id, RootOfLedgers(cfgs, ledgers));
      return Some(answers);
    }

    /** Every transaction in order, through its own ledger, where the transactions before have run it. */
    method ApplyAll(txs: seq<Tx>, ghost before: seq<Tx>) returns (answers: seq<Answer>)
      requires RunBy(cfgs, ledgers, before)
      modifies this`ledgers
      ensures (answers, ledgers) == ApplyTxs(cfgs, old(ledgers), txs)
      ensures RunBy(cfgs, ledgers, before + txs)
      ensures forall i | 0 <= i < |txs| :: answers[i] == AnswerAfter(cfgs, before + txs[..i], txs[i])
    {
      hide ApplyTx, RunBy, AnswerAfter;
      RunByKeys(cfgs, ledgers, before);
      TxsRun(cfgs, ledgers, before, txs);
      answers := [];
      ghost var start := ledgers;
      assert txs[..0] == [];
      for i := 0 to |txs|
        invariant ledgers.Keys == cfgs.Keys
        invariant (answers, ledgers) == ApplyTxs(cfgs, start, txs[..i])
      {
        TxsGrow(cfgs, start, txs, i);
        var (answer, next) := ApplyTx(cfgs, ledgers, txs[i]);
        ledgers := next;
        answers := answers + [answer];
      }
      assert txs[..|txs|] == txs;
    }
  }

  lemma TxsGrow(cfgs: Configs, ledgers: Ledgers, txs: seq<Tx>, i: nat)
    requires ledgers.Keys == cfgs.Keys && i < |txs|
    ensures var (answers, mid) := ApplyTxs(cfgs, ledgers, txs[..i]);
            var (r, after) := ApplyTx(cfgs, mid, txs[i]);
            ApplyTxs(cfgs, ledgers, txs[..i + 1]) == (answers + [r], after)
  {
    hide ApplyTx;
    assert txs[..i + 1][..i] == txs[..i];
  }

  lemma LedgersGrow(cfgs: Configs, chain: seq<Id>, id: Id)
    requires id.BlockId?
    ensures LedgersAfter(cfgs, chain + [id]) == ApplyTxs(cfgs, LedgersAfter(cfgs, chain), id.block.txs).1
  {
    assert (chain + [id])[..|chain|] == chain;
  }
}
