/**
 * Whose value the books hold: a wallet that opens what the ledger holds for its account has
 * exactly the balance and the claimed receipts the books give that account.
 */
module Holdings {
  import opened Base
  import opened ClaimedSets
  import opened Conservation
  import opened Digests
  import opened LedgerModel
  import opened Wallets

  /** The wallet opens the commitment the tables hold for its account. */
  ghost predicate InStep(w: Wallet, cfg: Config, s: Store)
    reads w, w.Sets()
  {
    && w.Valid() && w.inst == cfg.inst
    && w.account in s.accounts && s.accounts[w.account].com == w.Commitment()
  }

  /** One commitment, one opening: the wallet's is the books'. */
  lemma BooksAreTheWallets(w: Wallet, cfg: Config, s: Store, books: Books)
    requires InStep(w, cfg, s) && Consistent(cfg, s, books)
    ensures w.account in books && books[w.account] == Opening(w.balance, w.claimed.Claimed(), w.randomness)
  {
    assert AccountOk(cfg, s, w.account, books[w.account]);
    ClaimRootInjective(books[w.account].claimed, w.claimed.Claimed(), cfg.inst.nullDepth);
  }

  /**
   * What the wallet booked is real: every position in its history is a spendable receipt in the
   * log that names its account, and its balance is what it received less what it sent.
   */
  lemma HistoryIsReal(w: Wallet, cfg: Config, s: Store, books: Books)
    requires InStep(w, cfg, s) && Consistent(cfg, s, books)
    ensures books.Keys == s.accounts.Keys
    ensures books[w.account].balance == ReceivedTotal(w.history) - SentTotal(w.history)
    ensures forall p | p in ReceivedPositions(w.history) ::
              p < |s.receipts| && Spendable(s.receipts[p]) && s.receipts[p].receiver == w.account
  {
    BooksAreTheWallets(w, cfg, s, books);
    assert AccountOk(cfg, s, w.account, books[w.account]);
  }

  /** Over every run, a wallet in step with the ledger holds no more than was ever minted. */
  lemma HeldIsBacked(w: Wallet, cfg: Config, envs: seq<Envelope>) returns (books: Books)
    requires Sound(cfg) && InStep(w, cfg, Run(cfg, envs))
    ensures Sane(cfg, Run(cfg, envs), books) && w.account in books
    ensures books[w.account].balance == w.balance && books[w.account].claimed == w.claimed.Claimed()
    ensures w.balance + Outstanding(Run(cfg, envs).receipts, books) <= Minted(Run(cfg, envs).deposits)
  {
    hide Run, Outstanding;
    books := RunSane(cfg, envs);
    BooksAreTheWallets(w, cfg, Run(cfg, envs), books);
    SumSplit(books.Keys, BalanceIn(books), w.account);
  }
}
