/**
 * The two proof relations, as the ledger's statement order and the wallet's witness
 * construction fix them. The circuit itself belongs to an upstream crate; a verifier is
 * sound when every statement it accepts has a witness here.
 */
module Relations {
  import Base
  import opened Digests
  import Paths

  type Amount = n: nat | n < U64

  /** The public statement of an operation, in allocation order. */
  datatype OpStatement = OpStatement(account: Fr, comOld: Fr, comNew: Fr, receipt: Fr, root: Fr)

  /** The private side: a hidden send/receive selector and everything either branch opens. */
  datatype OpWitness = OpWitness(
    isSend: bool, balance: Amount, amount: Amount, randomness: Fr, randomnessNew: Fr,
    nullRoot: Fr, counterparty: Fr, blind: Fr,
    pos: nat, path: seq<Fr>, insertion: seq<Fr>)

  /** A send moves `amount` out of the balance into a spendable receipt for the counterparty. */
  ghost predicate Sends(x: OpStatement, w: OpWitness) {
    && w.amount <= w.balance
    && x.comOld == Acct(w.balance, w.nullRoot, w.randomness)
    && x.comNew == Acct(w.balance - w.amount, w.nullRoot, w.randomnessNew)
    && x.receipt == Rec(w.amount, x.account, w.counterparty, SPENDABLE, w.blind)
  }

  /** The receipt a receive consumes: addressed to the account, from the counterparty. */
  function Consumed(x: OpStatement, w: OpWitness): Fr {
    Rec(w.amount, w.counterparty, x.account, SPENDABLE, w.blind)
  }

  /**
   * A receive adds a receipt that sits under the revealed root at `pos`, inserts `pos` into
   * the nullifier tree, and publishes an unspendable dummy.
   */
  ghost predicate Receives(x: OpStatement, w: OpWitness, receiptDepth: nat, nullDepth: nat) {
    && w.balance + w.amount < U64
    && w.pos < Base.Pow2(receiptDepth) && w.pos < Base.Pow2(nullDepth)
    && |w.path| == receiptDepth && |w.insertion| == nullDepth
    && Paths.Fold(Consumed(x, w), w.path, Paths.Bits(w.pos, receiptDepth)) == x.root
    && x.comOld == Acct(w.balance, Paths.Fold(Zero, w.insertion, Paths.Bits(w.pos, nullDepth)), w.randomness)
    && x.comNew == Acct(w.balance + w.amount, Paths.Fold(One, w.insertion, Paths.Bits(w.pos, nullDepth)),
        w.randomnessNew)
    && x.receipt.Rec? && x.receipt.kind != SPENDABLE
  }

  ghost predicate OpRelation(x: OpStatement, w: OpWitness, receiptDepth: nat, nullDepth: nat) {
    if w.isSend then Sends(x, w) else Receives(x, w, receiptDepth, nullDepth)
  }

  /** A deposit proof shows the amount in a mint receipt and hides whose it is. */
  ghost predicate DepositRelation(amount: Amount, receipt: Fr, account: Fr, blind: Fr) {
    receipt == Rec(amount, MintSender, account, SPENDABLE, blind)
  }
}
