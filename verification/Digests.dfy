/**
 * Field elements as the ledger sees them.
 *
 * Every Poseidon digest of the source is domain separated (accounts, receipts, tree
 * nodes), so a digest is a constructor over its preimage and equal digests have equal
 * preimages. Identifiers derived from a key, the mint sender and the withdraw receiver are
 * tagged hashes of distinct domains, hence distinct constructors.
 */
module Digests {

  datatype Fr =
    | Num(n: nat)
    | AccountId(namespace: nat, pubkey: nat)
    | MintSender
    | WithdrawReceiver
    | Acct(balance: nat, nullRoot: Fr, randomness: Fr)
    | Rec(amount: nat, sender: Fr, receiver: Fr, kind: nat, blind: Fr)
    | Node(left: Fr, right: Fr)

  const Zero: Fr := Num(0)
  const One: Fr := Num(1)

  /** The type tag of a spendable receipt; a dummy carries any other tag. */
  const SPENDABLE: nat := 1

  /** Exclusive bound of a 64-bit amount. */
  const U64: nat := 0x1_0000_0000_0000_0000

  predicate Spendable(leaf: Fr) {
    leaf.Rec? && leaf.kind == SPENDABLE
  }
}
