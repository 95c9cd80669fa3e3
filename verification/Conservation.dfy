/**
 * What the ledger guarantees about value it never sees.
 *
 * The tables hold only commitments. Under sound verifiers every account's commitment has one
 * opening, and over every run the balances so opened plus the receipts not yet claimed equal
 * what was ever minted; no receipt is claimed twice, and none by an account it does not name.
 */
module Conservation {
  import opened Base
  import opened Digests
  import Paths
  import ReceiptTrees
  import opened ClaimedSets
  import opened Relations
  import opened LedgerModel

  /** What an account commitment hides. */
  datatype Opening = Opening(balance: nat, claimed: set<nat>, randomness: Fr)

  type Books = map<Fr, Opening>

  /** Proofs the verifiers accept have witnesses. */
  ghost predicate Sound(cfg: Config) {
    && (forall proof, x | cfg.crypto.verifyOp(proof, x) :: exists w :: Proves(cfg, x, w))
    && (forall proof, amount, receipt | cfg.crypto.verifyDeposit(proof, amount, receipt) ::
          exists account, blind :: DepositRelation(amount, receipt, account, blind))
  }

  ghost predicate Proves(cfg: Config, x: OpStatement, w: OpWitness) {
    OpRelation(x, w, cfg.inst.receiptDepth, cfg.inst.nullDepth)
  }

  ghost predicate Opens(cfg: Config, com: Fr, o: Opening) {
    && com == Acct(o.balance, ClaimRoot(o.claimed, cfg.inst.nullDepth), o.randomness)
    && InRange(o.claimed, cfg.inst.nullDepth)
  }

  /** Only spendable receipts that name the account, already in the log, are claimed. */
  ghost predicate ClaimedFrom(receipts: seq<Fr>, account: Fr, claimed: set<nat>) {
    forall p | p in claimed :: p < |receipts| && Spendable(receipts[p]) && receipts[p].receiver == account
  }

  ghost predicate AccountOk(cfg: Config, s: Store, account: Fr, o: Opening)
    requires account in s.accounts
  {
    && account.AccountId?
    && Opens(cfg, s.accounts[account].com, o)
    && ClaimedFrom(s.receipts, account, o.claimed)
  }

  /** `books` opens every account of the tables. */
  ghost predicate Consistent(cfg: Config, s: Store, books: Books) {
    && books.Keys == s.accounts.Keys
    && (forall leaf | leaf in s.receipts :: leaf.Rec?)
    && (forall a | a in books :: AccountOk(cfg, s, a, books[a]))
  }

  // ---- value ----------------------------------------------------------------

  function BalanceIn(books: Books): Fr -> nat {
    a => if a in books then books[a].balance else 0
  }

  ghost function Balances(books: Books): nat {
    SumOver(books.Keys, BalanceIn(books))
  }

  predicate IsClaimed(leaf: Fr, position: nat, books: Books)
    requires leaf.Rec?
  {
    leaf.receiver in books && position in books[leaf.receiver].claimed
  }

  /** What the receipt at `position` still owes. */
  function Owed(leaf: Fr, position: nat, books: Books): nat {
    if Spendable(leaf) && !IsClaimed(leaf, position, books) then leaf.amount else 0
  }

  /** The sum of all spendable receipts not yet claimed. */
  function Outstanding(receipts: seq<Fr>, books: Books): nat {
    if receipts == [] then 0
    else
      var n := |receipts| - 1;
      Outstanding(receipts[..n], books) + Owed(receipts[n], n, books)
  }

  /** The sum of everything ever sent to the withdraw identifier. */
  function Burned(receipts: seq<Fr>): nat {
    if receipts == [] then 0
    else
      var n := |receipts| - 1;
      Burned(receipts[..n]) +
      (if Spendable(receipts[n]) && receipts[n].receiver == WithdrawReceiver then receipts[n].amount else 0)
  }

  /** The sum of unclaimed receipts that someone may still claim. */
  function Payable(receipts: seq<Fr>, books: Books): nat {
    if receipts == [] then 0
    else
      var n := |receipts| - 1;
      Payable(receipts[..n], books) +
      (if Spendable(receipts[n]) && receipts[n].receiver != WithdrawReceiver then Owed(receipts[n], n, books) else 0)
  }

  ghost predicate Conserved(s: Store, books: Books) {
    Balances(books) + Outstanding(s.receipts, books) == Minted(s.deposits)
  }

  // ---- single operations ----------------------------------------------------

  /** The opening an accepted operation moves its account to. */
  function After(o: Opening, w: OpWitness): Opening {
    if w.isSend then Opening(if w.amount <= o.balance then o.balance - w.amount else 0, o.claimed, w.randomnessNew)
    else Opening(o.balance + w.amount, o.claimed + {w.pos}, w.randomnessNew)
  }

  /** What an accepted operation does to the tables that hold value. */
  lemma OpRows(cfg: Config, s: Store, env: OpEnvelope)
    requires OpStep(cfg, s, env).0.Ok?
    ensures var t := OpStep(cfg, s, env).1;
            && env.account.AccountId? && env.account in s.accounts && s.accounts[env.account].com == env.com
            && RootIsRecent(cfg, s, env.root)
            && t.receipts == s.receipts + [env.receipt] && t.deposits == s.deposits
            && |t.ops| == |s.ops| + 1 && t.ops[..|s.ops|] == s.ops
            && t.ops[|s.ops|].envelope == Op(env) && t.ops[|s.ops|].account == env.account
            && t.ops[|s.ops|].position == Some(|s.receipts|)
            && t.accounts.Keys == s.accounts.Keys && t.accounts[env.account].com == env.comNew
            && (forall a | a in s.accounts && a != env.account :: t.accounts[a] == s.accounts[a])
  {
  }

  lemma RegisterRows(cfg: Config, s: Store, env: RegisterEnvelope)
    requires RegisterStep(cfg, s, env).0.Ok?
    ensures var t := RegisterStep(cfg, s, env).1;
            var account := AccountId(env.namespace, env.pubkey);
            && account !in s.accounts && t.accounts.Keys == s.accounts.Keys + {account}
            && t.accounts[account].com == InitialCommitment(cfg, env.randomness)
            && t.receipts == s.receipts && t.deposits == s.deposits
            && (forall a | a in s.accounts :: t.accounts[a] == s.accounts[a])
  {
  }

  /** A recent root is the root of some prefix of the log. */
  lemma RecentIsPast(cfg: Config, s: Store, root: Fr) returns (size: nat)
    requires RootIsRecent(cfg, s, root)
    ensures size <= |s.receipts| && root == ReceiptTrees.RootOf(s.receipts[..size], cfg.inst.receiptDepth)
  {
    var w := Window(cfg, s.receipts);
    var i :| 0 <= i < |w| && w[i] == root;
    size := WindowFrom(cfg, |s.receipts|) + i;
  }

  /** An insertion against a set's own root claims a position the set does not have. */
  lemma FreshClaim(claimed: set<nat>, pos: nat, insertion: seq<Fr>, depth: nat)
    requires InRange(claimed, depth) && |insertion| == depth && pos < Pow2(depth)
    requires Paths.Fold(Zero, insertion, Paths.Bits(pos, depth)) == ClaimRoot(claimed, depth)
    ensures pos !in claimed && InRange(claimed + {pos}, depth)
    ensures Paths.Fold(One, insertion, Paths.Bits(pos, depth)) == ClaimRoot(claimed + {pos}, depth)
  {
    InsertionIff(claimed, claimed, depth, pos, insertion);
    InsertionIff(claimed, claimed + {pos}, depth, pos, insertion);
  }

  lemma SendWitness(cfg: Config, o: Opening, x: OpStatement, w: OpWitness)
    requires Opens(cfg, x.comOld, o) && w.isSend && Sends(x, w)
    ensures w.balance == o.balance && w.amount <= o.balance && Opens(cfg, x.comNew, After(o, w))
  {
  }

  lemma ReceiveWitness(cfg: Config, s: Store, o: Opening, x: OpStatement, w: OpWitness)
    requires Opens(cfg, x.comOld, o) && RootIsRecent(cfg, s, x.root) && !w.isSend
    requires Receives(x, w, cfg.inst.receiptDepth, cfg.inst.nullDepth)
    ensures w.balance == o.balance && w.pos !in o.claimed && Opens(cfg, x.comNew, After(o, w))
    ensures w.pos < |s.receipts| && s.receipts[w.pos] == Consumed(x, w)
  {
    var size := RecentIsPast(cfg, s, x.root);
    ReceiptTrees.ReceiptPathIff(s.receipts[..size], cfg.inst.receiptDepth, w.pos, Consumed(x, w), w.path);
    FreshClaim(o.claimed, w.pos, w.insertion, cfg.inst.nullDepth);
  }

  /**
   * Every witness of an accepted operation opens the account as the books do. A send is
   * covered by the balance; a receive consumes a receipt that is in the log, names the
   * account, and has not been claimed.
   */
  lemma AcceptedWitness(cfg: Config, s: Store, books: Books, env: OpEnvelope, w: OpWitness)
    requires Consistent(cfg, s, books) && OpStep(cfg, s, env).0.Ok?
    requires Proves(cfg, Statement(env, env.com), w)
    ensures env.account in books
    ensures var o := books[env.account];
            && w.balance == o.balance
            && Opens(cfg, env.comNew, After(o, w))
            && env.receipt.Rec? && (w.isSend <==> Spendable(env.receipt))
            && if w.isSend then w.amount <= o.balance && env.receipt.amount == w.amount
               else && w.pos !in o.claimed
                    && w.pos < |s.receipts| && s.receipts[w.pos] == Consumed(Statement(env, env.com), w)
  {
    OpRows(cfg, s, env);
    var o, x := books[env.account], Statement(env, env.com);
    assert AccountOk(cfg, s, env.account, o);
    hide OpStep;
    if w.isSend {
      SendWitness(cfg, o, x, w);
    } else {
      ReceiveWitness(cfg, s, o, x, w);
    }
  }

  // ---- sums under a step ----------------------------------------------------

  lemma BalanceMoves(books: Books, account: Fr, o: Opening)
    requires account in books
    ensures Balances(books[account := o]) + books[account].balance == Balances(books) + o.balance
  {
    var after := books[account := o];
    SumSplit(books.Keys, BalanceIn(books), account);
    SumSplit(after.Keys, BalanceIn(after), account);
    assert after.Keys == books.Keys;
    SumCongruence(books.Keys - {account}, BalanceIn(books), BalanceIn(after));
  }

  lemma BalanceJoins(books: Books, account: Fr, o: Opening)
    requires account !in books
    ensures Balances(books[account := o]) == Balances(books) + o.balance
  {
    var after := books[account := o];
    SumSplit(after.Keys, BalanceIn(after), account);
    assert after.Keys - {account} == books.Keys;
    SumCongruence(books.Keys, BalanceIn(books), BalanceIn(after));
  }

  lemma MintJoins(deposits: map<string, Deposit>, id: string, d: Deposit)
    requires id !in deposits
    ensures Minted(deposits[id := d]) == Minted(deposits) + d.amount
  {
    var after := deposits[id := d];
    SumSplit(after.Keys, AmountIn(after), id);
    assert after.Keys - {id} == deposits.Keys;
    SumCongruence(deposits.Keys, AmountIn(deposits), AmountIn(after));
  }

  /** Books that agree on what is claimed owe the same. */
  lemma {:induction false} OutstandingSame(receipts: seq<Fr>, a: Books, b: Books)
    requires forall p | 0 <= p < |receipts| && receipts[p].Rec? ::
               IsClaimed(receipts[p], p, a) <==> IsClaimed(receipts[p], p, b)
    ensures Outstanding(receipts, a) == Outstanding(receipts, b)
  {
    if receipts != [] {
      OutstandingSame(receipts[..|receipts| - 1], a, b);
    }
  }

  /** An account that claims nothing new leaves every receipt as owed as it was. */
  lemma OutstandingUnmoved(receipts: seq<Fr>, books: Books, account: Fr, o: Opening)
    requires if account in books then o.claimed == books[account].claimed else o.claimed == {}
    ensures Outstanding(receipts, books) == Outstanding(receipts, books[account := o])
  {
    OutstandingSame(receipts, books, books[account := o]);
  }

  /** Claiming one receipt settles exactly its amount. */
  lemma {:induction false} OutstandingClaims(receipts: seq<Fr>, books: Books, account: Fr, o: Opening, pos: nat)
    requires account in books && pos < |receipts| && pos !in books[account].claimed
    requires Spendable(receipts[pos]) && receipts[pos].receiver == account
    requires o.claimed == books[account].claimed + {pos}
    ensures Outstanding(receipts, books) == Outstanding(receipts, books[account := o]) + receipts[pos].amount
  {
    var n := |receipts| - 1;
    if pos < n {
      OutstandingClaims(receipts[..n], books, account, o, pos);
    } else {
      OutstandingSame(receipts[..n], books, books[account := o]);
    }
  }

  /** A receipt joins the log unclaimed. */
  lemma OutstandingGrows(receipts: seq<Fr>, leaf: Fr, books: Books)
    requires AllClaimedFrom(receipts, books)
    ensures Outstanding(receipts + [leaf], books) ==
            Outstanding(receipts, books) + if Spendable(leaf) then leaf.amount else 0
  {
    assert (receipts + [leaf])[..|receipts|] == receipts;
    if Spendable(leaf) && leaf.receiver in books {
      assert ClaimedFrom(receipts, leaf.receiver, books[leaf.receiver].claimed);
    }
  }

  ghost predicate AllClaimedFrom(receipts: seq<Fr>, books: Books) {
    forall a | a in books :: ClaimedFrom(receipts, a, books[a].claimed)
  }

  lemma AllClaimed(cfg: Config, s: Store, books: Books)
    requires Consistent(cfg, s, books)
    ensures AllClaimedFrom(s.receipts, books)
  {
    forall a | a in books
      ensures ClaimedFrom(s.receipts, a, books[a].claimed)
    {
      assert AccountOk(cfg, s, a, books[a]);
    }
  }

  // ---- steps ----------------------------------------------------------------

  lemma ConsistentStays(cfg: Config, s: Store, t: Store, books: Books, a: Fr)
    requires Consistent(cfg, s, books) && a in books && a in t.accounts
    requires t.accounts[a].com == s.accounts[a].com && s.receipts <= t.receipts
    ensures AccountOk(cfg, t, a, books[a])
  {
    assert AccountOk(cfg, s, a, books[a]);
  }

  /** A registration opens at balance zero with nothing claimed. */
  function Registered(books: Books, env: RegisterEnvelope): Books {
    books[AccountId(env.namespace, env.pubkey) := Opening(0, {}, env.randomness)]
  }

  lemma JoinedOk(cfg: Config, s: Store, env: RegisterEnvelope)
    requires RegisterStep(cfg, s, env).0.Ok?
    ensures var t, account := RegisterStep(cfg, s, env).1, AccountId(env.namespace, env.pubkey);
            account in t.accounts && AccountOk(cfg, t, account, Opening(0, {}, env.randomness))
  {
    hide RegisterStep;
    RegisterRows(cfg, s, env);
    Paths.SubOfZeros(ClaimOf({}), cfg.inst.nullDepth, 0);
  }

  lemma RegisterConsistent(cfg: Config, s: Store, books: Books, env: RegisterEnvelope)
    requires Consistent(cfg, s, books) && RegisterStep(cfg, s, env).0.Ok?
    ensures Consistent(cfg, RegisterStep(cfg, s, env).1, Registered(books, env))
  {
    hide RegisterStep, Opens, AccountOk;
    RegisterRows(cfg, s, env);
    JoinedOk(cfg, s, env);
    var t, after := RegisterStep(cfg, s, env).1, Registered(books, env);
    forall a | a in books
      ensures AccountOk(cfg, t, a, after[a])
    {
      ConsistentStays(cfg, s, t, books, a);
    }
  }

  lemma RegisterConserved(cfg: Config, s: Store, books: Books, env: RegisterEnvelope)
    requires Consistent(cfg, s, books) && Conserved(s, books) && RegisterStep(cfg, s, env).0.Ok?
    ensures Conserved(RegisterStep(cfg, s, env).1, Registered(books, env))
  {
    hide RegisterStep, Balances, Outstanding, Minted;
    RegisterRows(cfg, s, env);
    BalanceJoins(books, AccountId(env.namespace, env.pubkey), Opening(0, {}, env.randomness));
    OutstandingUnmoved(s.receipts, books, AccountId(env.namespace, env.pubkey), Opening(0, {}, env.randomness));
  }

  /** Books only ever gain accounts and claims. */
  ghost predicate Extends(before: Books, after: Books) {
    before.Keys <= after.Keys && forall a | a in before :: before[a].claimed <= after[a].claimed
  }

  function Moved(books: Books, env: OpEnvelope, w: OpWitness): Books
    requires env.account in books
  {
    books[env.account := After(books[env.account], w)]
  }

  lemma OpAccountOk(cfg: Config, s: Store, books: Books, env: OpEnvelope, w: OpWitness, a: Fr)
    requires Consistent(cfg, s, books) && OpStep(cfg, s, env).0.Ok? && a in books
    requires Proves(cfg, Statement(env, env.com), w)
    ensures env.account in books && a in OpStep(cfg, s, env).1.accounts
    ensures AccountOk(cfg, OpStep(cfg, s, env).1, a, Moved(books, env, w)[a])
  {
    hide OpStep, RootIsRecent, Proves, Opens, Spendable, Consumed;
    OpRows(cfg, s, env);
    AcceptedWitness(cfg, s, books, env, w);
    assert AccountOk(cfg, s, a, books[a]);
    if a != env.account {
      ConsistentStays(cfg, s, OpStep(cfg, s, env).1, books, a);
    } else if !w.isSend {
      ConsumedNames(Statement(env, env.com), w);
    }
  }

  lemma ConsumedNames(x: OpStatement, w: OpWitness)
    ensures Spendable(Consumed(x, w)) && Consumed(x, w).receiver == x.account
  {
  }

  lemma OpConsistent(cfg: Config, s: Store, books: Books, env: OpEnvelope, w: OpWitness)
    requires Consistent(cfg, s, books) && OpStep(cfg, s, env).0.Ok?
    requires Proves(cfg, Statement(env, env.com), w)
    ensures env.account in books
    ensures Consistent(cfg, OpStep(cfg, s, env).1, Moved(books, env, w))
  {
    hide OpStep, RootIsRecent, Proves, AccountOk, Opens;
    OpRows(cfg, s, env);
    AcceptedWitness(cfg, s, books, env, w);
    forall a | a in books
      ensures AccountOk(cfg, OpStep(cfg, s, env).1, a, Moved(books, env, w)[a])
    {
      OpAccountOk(cfg, s, books, env, w, a);
    }
  }

  lemma OpConserved(cfg: Config, s: Store, books: Books, env: OpEnvelope, w: OpWitness)
    requires Consistent(cfg, s, books) && Conserved(s, books) && OpStep(cfg, s, env).0.Ok?
    requires Proves(cfg, Statement(env, env.com), w)
    ensures env.account in books
    ensures Conserved(OpStep(cfg, s, env).1, Moved(books, env, w))
  {
    hide OpStep, RootIsRecent, Proves, Opens, Consistent, AllClaimedFrom, Balances, Outstanding, Minted;
    OpRows(cfg, s, env);
    AcceptedWitness(cfg, s, books, env, w);
    AllClaimed(cfg, s, books);
    var next := After(books[env.account], w);
    if w.isSend {
      SendMoves(s.receipts, env.receipt, books, env.account, next);
    } else {
      ReceiveMoves(s.receipts, env.receipt, books, env.account, next, w.pos);
    }
  }

  /** A send moves its amount from the balance to the new receipt. */
  lemma SendMoves(receipts: seq<Fr>, leaf: Fr, books: Books, account: Fr, next: Opening)
    requires AllClaimedFrom(receipts, books) && account in books && Spendable(leaf)
    requires next.claimed == books[account].claimed && next.balance + leaf.amount == books[account].balance
    ensures Balances(books[account := next]) + Outstanding(receipts + [leaf], books[account := next])
            == Balances(books) + Outstanding(receipts, books)
  {
    BalanceMoves(books, account, next);
    OutstandingGrows(receipts, leaf, books);
    OutstandingUnmoved(receipts + [leaf], books, account, next);
  }

  /** A receive moves the amount of the receipt at `pos` to the balance; its dummy owes nothing. */
  lemma ReceiveMoves(receipts: seq<Fr>, leaf: Fr, books: Books, account: Fr, next: Opening, pos: nat)
    requires AllClaimedFrom(receipts, books) && account in books && !Spendable(leaf)
    requires pos < |receipts| && Spendable(receipts[pos]) && receipts[pos].receiver == account
    requires pos !in books[account].claimed && next.claimed == books[account].claimed + {pos}
    requires next.balance == books[account].balance + receipts[pos].amount
    ensures Balances(books[account := next]) + Outstanding(receipts + [leaf], books[account := next])
            == Balances(books) + Outstanding(receipts, books)
  {
    BalanceMoves(books, account, next);
    OutstandingGrows(receipts, leaf, books);
    OutstandingClaims(receipts + [leaf], books, account, next, pos);
  }

  lemma MintConserves(cfg: Config, s: Store, books: Books, env: MintEnvelope)
    requires Sound(cfg) && Consistent(cfg, s, books) && Conserved(s, books) && MintStep(cfg, s, env).0.Ok?
    ensures var t := MintStep(cfg, s, env).1;
            Consistent(cfg, t, books) && Conserved(t, books)
  {
    var t := MintStep(cfg, s, env).1;
    var proof := cfg.crypto.decodeProof(env.intent.proof).value;
    assert cfg.crypto.verifyDeposit(proof, env.intent.amount, env.intent.receipt);
    var account, blind :| DepositRelation(env.intent.amount, env.intent.receipt, account, blind);
    AllClaimed(cfg, s, books);
    forall a | a in books
      ensures AccountOk(cfg, t, a, books[a])
    {
      ConsistentStays(cfg, s, t, books, a);
    }
    OutstandingGrows(s.receipts, env.intent.receipt, books);
    MintJoins(s.deposits, env.depositId, t.deposits[env.depositId]);
  }

  // ---- claims over a history ------------------------------------------------

  /** `w` shows that the operation recorded in `row` consumed a receipt. */
  ghost predicate Consumes(cfg: Config, row: OpRow, w: OpWitness) {
    row.envelope.Op? && !w.isSend && Proves(cfg, RowStatement(row), w)
  }

  function RowStatement(row: OpRow): OpStatement
    requires row.envelope.Op?
  {
    Statement(row.envelope.op, row.envelope.op.com)
  }

  /** What row `row` consumed is in the log before it, names its account, and stays claimed. */
  ghost predicate ClaimRecorded(s: Store, books: Books, row: OpRow, w: OpWitness)
    requires row.envelope.Op?
  {
    && row.account == row.envelope.op.account && row.account.AccountId? && row.account in books
    && w.pos in books[row.account].claimed
    && row.position.Some? && w.pos < row.position.value < |s.receipts|
    && s.receipts[w.pos] == Consumed(RowStatement(row), w)
  }

  ghost predicate ClaimsRecorded(cfg: Config, s: Store, books: Books) {
    forall i, w | 0 <= i < |s.ops| && Consumes(cfg, s.ops[i], w) :: ClaimRecorded(s, books, s.ops[i], w)
  }

  /** No position is consumed by two operations of the history. */
  ghost predicate NoDoubleClaim(cfg: Config, s: Store) {
    forall i, j, v, w | 0 <= i < j < |s.ops| && Consumes(cfg, s.ops[i], v) && Consumes(cfg, s.ops[j], w) ::
      v.pos != w.pos
  }

  /** Everything proved about a reachable ledger at once. */
  ghost predicate Sane(cfg: Config, s: Store, books: Books) {
    && Consistent(cfg, s, books) && Conserved(s, books)
    && ClaimsRecorded(cfg, s, books) && NoDoubleClaim(cfg, s)
  }

  /** An accepted row keeps the recorded claims recorded, provided its own claim is. */
  lemma ClaimsExtend(cfg: Config, s: Store, t: Store, before: Books, after: Books)
    requires ClaimsRecorded(cfg, s, before) && NoDoubleClaim(cfg, s) && Extends(before, after)
    requires |t.ops| == |s.ops| + 1 && t.ops[..|s.ops|] == s.ops && s.receipts <= t.receipts
    requires forall w | Consumes(cfg, t.ops[|s.ops|], w) ::
               ClaimRecorded(t, after, t.ops[|s.ops|], w) && Unclaimed(before, w.pos)
    ensures ClaimsRecorded(cfg, t, after) && NoDoubleClaim(cfg, t)
  {
    var n := |s.ops|;
    forall i | 0 <= i < n
      ensures t.ops[i] == s.ops[i]
    {
      assert t.ops[..n][i] == s.ops[i];
    }
    forall i, w | 0 <= i < |t.ops| && Consumes(cfg, t.ops[i], w)
      ensures ClaimRecorded(t, after, t.ops[i], w)
    {
      if i < n {
        assert ClaimRecorded(s, before, s.ops[i], w);
      }
    }
    forall i, j, v, w | 0 <= i < j < |t.ops| && Consumes(cfg, t.ops[i], v) && Consumes(cfg, t.ops[j], w)
      ensures v.pos != w.pos
    {
      assert ClaimRecorded(s, before, s.ops[i], v);
    }
  }

  ghost predicate Unclaimed(books: Books, position: nat) {
    forall a | a in books :: position !in books[a].claimed
  }

  /** The row an accepted operation adds is a proper, first claim under every witness. */
  lemma OpClaimRow(cfg: Config, s: Store, books: Books, env: OpEnvelope, w: OpWitness, v: OpWitness)
    requires Consistent(cfg, s, books) && OpStep(cfg, s, env).0.Ok?
    requires Proves(cfg, Statement(env, env.com), w) && Proves(cfg, Statement(env, env.com), v) && !v.isSend
    ensures env.account in books && Unclaimed(books, v.pos)
    ensures var t := OpStep(cfg, s, env).1;
            |t.ops| > |s.ops| && t.ops[|s.ops|].envelope == Op(env)
            && ClaimRecorded(t, Moved(books, env, w), t.ops[|s.ops|], v)
  {
    hide RootIsRecent, Proves, Opens;
    OpRows(cfg, s, env);
    SameClaim(cfg, s, books, env, w, v);
    forall a | a in books
      ensures v.pos !in books[a].claimed
    {
      assert AccountOk(cfg, s, a, books[a]);
    }
  }

  lemma MovedExtends(books: Books, env: OpEnvelope, w: OpWitness)
    requires env.account in books
    ensures Extends(books, Moved(books, env, w))
  {
  }

  lemma OpClaims(cfg: Config, s: Store, books: Books, env: OpEnvelope, w: OpWitness)
    requires Consistent(cfg, s, books) && ClaimsRecorded(cfg, s, books) && NoDoubleClaim(cfg, s)
    requires OpStep(cfg, s, env).0.Ok? && Proves(cfg, Statement(env, env.com), w)
    ensures env.account in books
    ensures var t, after := OpStep(cfg, s, env).1, Moved(books, env, w);
            ClaimsRecorded(cfg, t, after) && NoDoubleClaim(cfg, t)
  {
    AcceptedWitness(cfg, s, books, env, w);
    OpRows(cfg, s, env);
    MovedExtends(books, env, w);
    var t, after := OpStep(cfg, s, env).1, Moved(books, env, w);
    var row := t.ops[|s.ops|];
    assert RowStatement(row) == Statement(env, env.com);
    forall v | Consumes(cfg, row, v)
      ensures ClaimRecorded(t, after, row, v) && Unclaimed(books, v.pos)
    {
      hide ClaimRecorded, Unclaimed, Proves, OpStep;
      OpClaimRow(cfg, s, books, env, w, v);
    }
    hide *;
    ClaimsExtend(cfg, s, t, books, after);
  }

  lemma OpSane(cfg: Config, s: Store, books: Books, env: OpEnvelope) returns (after: Books)
    requires Sound(cfg) && Sane(cfg, s, books) && OpStep(cfg, s, env).0.Ok?
    ensures Sane(cfg, OpStep(cfg, s, env).1, after)
  {
    var w := WitnessOf(cfg, s, env);
    hide OpStep, Proves, Consistent, Conserved, ClaimsRecorded, NoDoubleClaim;
    OpConsistent(cfg, s, books, env, w);
    OpConserved(cfg, s, books, env, w);
    OpClaims(cfg, s, books, env, w);
    after := Moved(books, env, w);
  }

  /** An accepted operation has a witness. */
  lemma WitnessOf(cfg: Config, s: Store, env: OpEnvelope) returns (w: OpWitness)
    requires Sound(cfg) && OpStep(cfg, s, env).0.Ok?
    ensures Proves(cfg, Statement(env, env.com), w)
  {
    var proof := Admit(cfg, env).value;
    assert cfg.crypto.verifyOp(proof, Statement(env, env.com));
    w :| Proves(cfg, Statement(env, env.com), w);
  }

  /** Any two witnesses of one accepted operation agree on what it consumed. */
  lemma SameClaim(cfg: Config, s: Store, books: Books, env: OpEnvelope, w: OpWitness, v: OpWitness)
    requires Consistent(cfg, s, books) && OpStep(cfg, s, env).0.Ok?
    requires Proves(cfg, Statement(env, env.com), w) && Proves(cfg, Statement(env, env.com), v)
    ensures w.isSend == v.isSend
    ensures !w.isSend ==> w.pos == v.pos
    ensures env.account in books
    ensures !v.isSend ==> v.pos !in books[env.account].claimed
    ensures !v.isSend ==> v.pos < |s.receipts| && s.receipts[v.pos] == Consumed(Statement(env, env.com), v)
  {
    AcceptedWitness(cfg, s, books, env, w);
    AcceptedWitness(cfg, s, books, env, v);
    if !w.isSend {
      var o := books[env.account];
      ClaimRootInjective(After(o, w).claimed, After(o, v).claimed, cfg.inst.nullDepth);
      assert v.pos in After(o, w).claimed;
    }
  }

  lemma RegisterSane(cfg: Config, s: Store, books: Books, env: RegisterEnvelope)
    requires Sane(cfg, s, books) && RegisterStep(cfg, s, env).0.Ok?
    ensures Sane(cfg, RegisterStep(cfg, s, env).1, Registered(books, env))
  {
    hide RegisterStep, Consistent, Conserved, ClaimsRecorded, NoDoubleClaim;
    RegisterConsistent(cfg, s, books, env);
    RegisterConserved(cfg, s, books, env);
    RegisterClaims(cfg, s, books, env);
  }

  lemma RegisterClaims(cfg: Config, s: Store, books: Books, env: RegisterEnvelope)
    requires Consistent(cfg, s, books) && ClaimsRecorded(cfg, s, books) && NoDoubleClaim(cfg, s)
    requires RegisterStep(cfg, s, env).0.Ok?
    ensures ClaimsRecorded(cfg, RegisterStep(cfg, s, env).1, Registered(books, env))
    ensures NoDoubleClaim(cfg, RegisterStep(cfg, s, env).1)
  {
    RegisterRowIs(cfg, s, env);
    RegisterExtends(cfg, s, books, env);
    hide *;
    ClaimsExtend(cfg, s, RegisterStep(cfg, s, env).1, books, Registered(books, env));
  }

  lemma RegisterRowIs(cfg: Config, s: Store, env: RegisterEnvelope)
    requires RegisterStep(cfg, s, env).0.Ok?
    ensures var t := RegisterStep(cfg, s, env).1;
            && |t.ops| == |s.ops| + 1 && t.ops[..|s.ops|] == s.ops && !t.ops[|s.ops|].envelope.Op?
            && t.receipts == s.receipts
  {
    RegisterRows(cfg, s, env);
    StepRow(cfg, s, Register(env));
  }

  lemma RegisterExtends(cfg: Config, s: Store, books: Books, env: RegisterEnvelope)
    requires Consistent(cfg, s, books) && RegisterStep(cfg, s, env).0.Ok?
    ensures Extends(books, Registered(books, env))
  {
    RegisterRows(cfg, s, env);
  }

  lemma MintSane(cfg: Config, s: Store, books: Books, env: MintEnvelope)
    requires Sound(cfg) && Sane(cfg, s, books) && MintStep(cfg, s, env).0.Ok?
    ensures Sane(cfg, MintStep(cfg, s, env).1, books)
  {
    var t := MintStep(cfg, s, env).1;
    StepRow(cfg, s, Mint(env));
    MintConserves(cfg, s, books, env);
    assert !t.ops[|s.ops|].envelope.Op?;
    ClaimsExtend(cfg, s, t, books, books);
  }

  /**
   * The main theorem. Over every run of registrations, operations and mints, whatever is
   * submitted: the tables open to books that conserve value, and no receipt is consumed twice.
   */
  lemma {:induction false} RunSane(cfg: Config, envs: seq<Envelope>) returns (books: Books)
    requires Sound(cfg)
    ensures Sane(cfg, Run(cfg, envs), books)
  {
    if envs == [] {
      books := map[];
    } else {
      var s, env := Run(cfg, envs[..|envs| - 1]), envs[|envs| - 1];
      var before := RunSane(cfg, envs[..|envs| - 1]);
      StepRow(cfg, s, env);
      hide Sane, RegisterStep, OpStep, MintStep;
      books := before;
      if Step(cfg, s, env).0.Ok? {
        match env
        case Register(reg) => RegisterSane(cfg, s, before, reg); books := Registered(before, reg);
        case Op(op) => books := OpSane(cfg, s, before, op);
        case Mint(mint) => MintSane(cfg, s, before, mint);
      }
    }
  }

  /** The books of a ledger are determined by its commitments, so balances are facts, not choices. */
  lemma BooksUnique(cfg: Config, s: Store, a: Books, b: Books)
    requires Consistent(cfg, s, a) && Consistent(cfg, s, b)
    ensures a == b
  {
    forall k | k in a
      ensures a[k] == b[k]
    {
      assert AccountOk(cfg, s, k, a[k]) && AccountOk(cfg, s, k, b[k]);
      ClaimRootInjective(a[k].claimed, b[k].claimed, cfg.inst.nullDepth);
    }
  }

  /** Every account is the identifier of a key. */
  lemma OnlyKeys(cfg: Config, s: Store, books: Books)
    requires Consistent(cfg, s, books)
    ensures forall a | a in books :: a.AccountId?
  {
    forall a | a in books
      ensures a.AccountId?
    {
      assert AccountOk(cfg, s, a, books[a]);
    }
  }

  /** Receipts sent to the withdraw identifier stay owed forever: no account is ever named by it. */
  lemma {:induction false} BurnSplit(receipts: seq<Fr>, books: Books)
    requires WithdrawReceiver !in books
    ensures Outstanding(receipts, books) == Payable(receipts, books) + Burned(receipts)
  {
    if receipts != [] {
      BurnSplit(receipts[..|receipts| - 1], books);
    }
  }

  /** The books of any ledger whose tables replay, however they were written. */
  lemma LedgerSane(cfg: Config, s: Store) returns (books: Books)
    requires Sound(cfg) && Replays(cfg, s)
    ensures Sane(cfg, s, books)
  {
    ReplayRuns(cfg, s.ops);
    books := RunSane(cfg, Envelopes(s.ops));
  }

  /**
   * Reconciliation: what the gateway must hold, minted less burned, is exactly what accounts
   * hold plus what they may still claim.
   */
  lemma ValueConserved(cfg: Config, s: Store) returns (books: Books)
    requires Sound(cfg) && Replays(cfg, s)
    ensures Consistent(cfg, s, books)
    ensures Balances(books) + Payable(s.receipts, books) == Minted(s.deposits) - Burned(s.receipts)
  {
    books := LedgerSane(cfg, s);
    OnlyKeys(cfg, s, books);
    BurnSplit(s.receipts, books);
  }

  /**
   * Every receipt a recorded operation consumed, under any witness of it, was already in the
   * log, was spendable, named that operation's account and not the withdraw identifier; and no
   * other recorded operation consumed it.
   */
  lemma ConsumedOnce(cfg: Config, s: Store, i: nat, w: OpWitness)
    requires Sound(cfg) && Replays(cfg, s) && i < |s.ops| && Consumes(cfg, s.ops[i], w)
    ensures w.pos < |s.receipts| && Spendable(s.receipts[w.pos])
    ensures s.receipts[w.pos].receiver == s.ops[i].account != WithdrawReceiver
    ensures s.ops[i].position.Some? && w.pos < s.ops[i].position.value
    ensures forall j, v | 0 <= j < |s.ops| && j != i && Consumes(cfg, s.ops[j], v) :: v.pos != w.pos
  {
    var books := LedgerSane(cfg, s);
    assert ClaimRecorded(s, books, s.ops[i], w);
    hide Replays, Proves, Consistent, Conserved;
    forall j, v | 0 <= j < |s.ops| && j != i && Consumes(cfg, s.ops[j], v)
      ensures v.pos != w.pos
    {
      if i < j {
        assert NoDoubleClaim(cfg, s);
      }
    }
  }
}
