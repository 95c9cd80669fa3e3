# Verified models of Peal's ledger, consensus actor and reveal engine

This project models the parts of Peal whose correctness is a matter of state and arithmetic,
and proves what they promise. `dafny verify dfyconfig.toml` checks all of it.

**The Bonsai private ledger and its wallet** (`Digests`, `Paths`, `ReceiptTree`, `ClaimedSet`,
`Relation`, `LedgerModel`, `Acceptance`, `Ledger`, `Conservation`, `StateRoot`, `Wallet`, `Holding`, `Journal`). The ledger
keeps one opaque commitment per account and an append-only receipt log; it never sees a balance.
Poseidon digests are constructors of one datatype, since the code separates their domains, so
equal digests have equal preimages. The tables are a value (`Store`) with a step function per
entry point; the class `Ledger` keeps the cached tree, the root window, the sequence number and
the state root beside them, updates them in place, and is proved to agree with the step
functions, also when a commit fails. When an envelope is accepted, and which histories replay, is said
of the envelopes alone: every recorded row was authorized, proved and due where it stands, and the
tables hold exactly what the rows say (`ReplaysIff`, `HistoryTells`). A proof that verifies is taken to have a witness of the
relation it proves (`Conservation.Sound`): the operation relation as README.md:389-394 and the
wallet's witness construction (crates/peal-bonsai/src/wallet.rs:292-309 and 432-448) give it, the
deposit relation as crates/peal-bonsai/src/deposit.rs:16-19 does. Under that hypothesis alone, over
every run of whatever envelopes, minted less burned equals the balances hidden in the
commitments plus the receipts somebody can still claim (`RunSane`, `ValueConserved`), those
balances are unique (`BooksUnique`), and no receipt is consumed twice or by a stranger
(`ConsumedOnce`). Batches refine single application, every history replays, reopening restores
the memory, and the hashed state root of a history binds its commitments and its receipt log for
any hash function and field encoding up to an exhibited collision of either (`HashedRootBinds`). A
wallet in step with the ledger holds what the books say (`Holdings`). Its journal is proved
against every interleaving of duplicated, lost and late envelopes, timeouts and unconditional
aborts (`Journals`): exactly the prudent events keep it safe.

**The consensus application actor** (`ConsensusState`, `Actor`, `Pool`, `Validator`). The hypothesis is
simplex safety: every digest consensus reports finalized lies on one chain with its height and
parent (`ChainOk`). Whatever order reports, block bytes and completed applications arrive in, what
has been applied is a prefix of that chain with one application in flight at most; draining
terminates and leaves nothing undone that could be done; two validators agree (`Agreement`). Each
ledger of a chain is the run of its own envelopes, and each answer is that ledger's (`ChainRuns`,
`TipAnswered`). A
validator votes for a block only in a round whose epoch, view and parent it has (`YesFits`). The
submission side accounts for every reply channel: it is in exactly one place, answered at most
once, and an Ok is what the ledger answers to that transaction at its place in an applied block
(`OkIsRecorded`).

**The reveal engine** (`Encoding`, `OrderingRoot`, `Freeze`, `RevealTables`, `Publishing`, `Recovery`, `RevealEngine`,
`StableSort`, `Sorting`). Conditions are frozen in one transaction, batches are committed before
any work is handed out, shares open them at a threshold, and the reveal shows the committed order,
each slot what `t` verified shares recover from its own ciphertext (`RevealedSlots`).
Roots are computed over bytes with an arbitrary hash, and what they bind is stated up to an
exhibited collision (`CommitmentBinds`, `RevealRootBinds`, `RevealedAsCommitted`).

**Dates and bids** (`Calendar`, `Timestamps`, `Text`, `Bids`, `Auction`). The civil-date arithmetic against
the plain leap-year count and the text of section 5.6 of RFC 3339; UTF-8 as section 3 of RFC 3629 has
it; the fixed-width bid record, place by place; the ranking of bids, in amounts and positions.

## What the code does otherwise than its comments say

- `reconcile` is documented as safe to call at any time (packages/links/src/account.ts:624-625) and
  aborts are unconditional (crates/peal-bonsai/src/wallet.rs:561-574), also on any answered error
  (packages/links/src/account.ts:608-613), such as the one a submitter gets whose own deadline
  passed while its transaction stays in the pool (crates/peal-links-consensus/src/actor.rs:1074-1087).
  Either is safe exactly when the ledger has not accepted the operation and no copy of it is in
  flight (`Journals.AbortSafeIff`, `NextSafeIff`); otherwise a conflict follows
  (`ImprudentConflicts`, and `EarlyAbortConflicts` for the two runs).
- "A storage failure cannot leave it ahead of the store" (crates/peal-bonsai/src/ledger.rs:517-519):
  the tree moves before the write, and a reload that fails after a failed commit leaves it one
  receipt ahead (`Ledgers.Ledger.ApplyVerified` says exactly when). The next written operation then
  leaves a gap in the positions, and the store does not open again (`AheadUnopenable`, `LostReload`).
- A verified receipt "must sit under `root` at `position`"
  (crates/peal-bonsai/src/wallet.rs:336-338), but the path's bits are never compared with the
  position: the path of any other position is taken (`OpensElsewhere`). With the bits of the held
  position the promise holds (`OpensAtPosition`, and `OpensIff` for the exact condition).
- Odd-node promotion and one untagged hash for leaves and nodes
  (crates/bte-coordinator/src/merkle.rs:9-14, 31-37 and 46-58) leave the number of leaves open
  exactly as far as a leaf preimage has a node's 64 bytes (`RootBindsAnyLength`, `LeafLengthIff`):
  a reveal slot with a payload of 60 bytes (`SlotCollides`, `PayloadLengthIff`) or an ordering
  leaf of an intent id of 31 bytes, which crates/bte-coordinator/src/intents.rs:239 accepts
  (`OrderingCollides`, `IdLengthIff`). Among lists of one length the root binds without any
  condition (`RootBinds`). The zero byte that
  crates/bte-coordinator/src/merkle.rs:24-26 calls necessary is not, for hashes of one width
  (`SeparatorNotNeeded`).
- A ciphertext already sealed to another condition is accepted and does not join
  (crates/bte-coordinator/src/api.rs:464-474); `SubmitCiphertext` says exactly when it joins.
- `parse_rfc3339` of crates/bte-coordinator/src/v1.rs:1154-1178 promises to reject what is outside
  its subset, and takes much of it; what it takes is in the subset exactly under the condition of
  `CanonicalIff`. It takes signed fields, days past the end of a month and second 60
  (`SignedHourTaken`, `LooseDayTaken`), and it never looks at the separators of the clock or at
  anything between the seconds and a final `Z` or `+00:00` (`IgnoredBytes`), so that
  `2026-09-12T18:00:00+05:00Z` is read as 18:00 in UTC (`OffsetIgnored`). On canonical text it is
  exact (`ReadPrint`). The sign-in copy checks no ranges at all (`AuthChecksNoRange`).
- "One bid has one encoding" (crates/bte-coordinator/src/auction.rs:101-103) holds per record
  version; a bid without origin has one in each (`TwoEncodings`, and `EncodingsOf` for the
  converse).
- "Blocks known to be finalized are still wanted" (crates/peal-links-consensus/src/actor.rs:1089-1091)
  holds of blocks reported finalized, not of those known finalized as the ancestor of one. If a
  vote waited too long for the block everything outstanding depends on, the tick drops its request
  until the next event drains the queue again; `Actors.Actor.OnTick` says exactly when, and
  `Actors.TickForgets` is a run that ends so.

## Model

| member | source | states |
|---|---|---|
| Paths.ZeroDigests | crates/peal-bonsai/src/trees.rs:34-42 | entry `j` is the root of the all-zero tree of height `j`, for every height up to the depth |
| Paths.RootFromPath | crates/peal-bonsai/src/trees.rs:177-187 | the loop over siblings and bits computes the fold of the path, stopping at the shorter of the two |
| Paths.RootIff | crates/peal-bonsai/src/trees.rs:177-187 | a leaf and `depth` siblings fold to a tree's root exactly when the leaf is the tree's own at that position and every sibling is the tree's own |
| Paths.SubInjective | crates/peal-bonsai/src/trees.rs:155-173 | a node commits to every leaf below it |
| ReceiptTrees.CachedNodes | crates/peal-bonsai/src/trees.rs:87-108 | every cached entry is the zero-padded subtree root of the log, and entries past the end are zero subtrees |
| ReceiptTrees.CachedSize | crates/peal-bonsai/src/trees.rs:87-108 | level `j` has exactly ceil(size / 2^j) entries |
| ReceiptTrees.CachedUnique | crates/peal-bonsai/src/trees.rs:65-71 | all levels are determined by the leaves, so rebuilding gives the same cache |
| ReceiptTrees.ReceiptTree.FromLeaves | crates/peal-bonsai/src/trees.rs:65-71 | rebuilding gives a log with those leaves, and fails exactly when they do not fit |
| ReceiptTrees.ReceiptTree.Append | crates/peal-bonsai/src/trees.rs:87-108 | the leaf joins at the end and all levels stay a faithful cache; refused, unchanged, exactly when the log is full |
| ReceiptTrees.ReceiptTree.Root | crates/peal-bonsai/src/trees.rs:110-114 | the cached top node is the root of the complete tree over the log |
| ReceiptTrees.ReceiptTree.NodeAt | crates/peal-bonsai/src/trees.rs:155-173 | for any past size, the node of the tree the log had then |
| ReceiptTrees.ReceiptTree.RootAt | crates/peal-bonsai/src/trees.rs:146-151 | the root the log had at any past size; a larger size is refused |
| ReceiptTrees.ReceiptTree.PathAt | crates/peal-bonsai/src/trees.rs:125-143 | a path served for a past size carries that tree's siblings and folds the receipt to that size's root; refused exactly outside the log |
| ReceiptTrees.ReceiptPathIff | crates/peal-bonsai/src/trees.rs:117-143 | a nonzero leaf and siblings fold to the root of a log exactly when the leaf is the receipt appended there and the path is the served one |
| ReceiptTrees.RootBinds | crates/peal-bonsai/src/trees.rs:110-114 | equal roots of logs without zero leaves are equal logs, lengths included |
| ClaimedSets.ClaimedSet.Siblings | crates/peal-bonsai/src/trees.rs:270-285 | the siblings of the complete tree with ones exactly at claimed positions; refused exactly out of range |
| ClaimedSets.ClaimedSet.Insert | crates/peal-bonsai/src/trees.rs:289-313 | claims the position and returns a witness from the old root to the new one; a repeat or an out of range position is refused without change |
| ClaimedSets.ClaimedSet.Root | crates/peal-bonsai/src/trees.rs:253-255 | the sparse map's root is that of the complete tree |
| ClaimedSets.ClaimedSet.Contains | crates/peal-bonsai/src/trees.rs:257-259 | membership read off one leaf digest is membership |
| ClaimedSets.ClaimRootInjective | crates/peal-bonsai/src/trees.rs:253-255 | two claimed sets with equal roots are equal |
| ClaimedSets.InsertionIff | crates/peal-bonsai/src/trees.rs:289-313 | an insertion witness against one set reaches another set's root exactly when that set is the first plus the position, which was not in it |
| LedgerModel.BatchMemberIff | crates/peal-bonsai/src/ledger.rs:440-500 | a batch member is accepted exactly when single application would accept it at its turn and it was a candidate at the batch's start; acceptance writes the same rows, rejection none |
| LedgerModel.BatchRefines | crates/peal-bonsai/src/ledger.rs:440-500 | the accepted members of any batch, applied one at a time from the same start, are all accepted with the same records and reach the same tables, whichever commits fail |
| LedgerModel.BatchOfOne | crates/peal-bonsai/src/ledger.rs:378-391 | a batch of one answers and writes exactly as single application |
| LedgerModel.BatchReplays | crates/peal-bonsai/src/ledger.rs:440-500 | a batch keeps the tables replayable from their own history |
| LedgerModel.StepRow | crates/peal-bonsai/src/ledger.rs:323-653 | a rejected envelope changes no table; an accepted one adds exactly its own history row with the next number and the new state root |
| LedgerModel.RunReplays | crates/peal-bonsai/src/ledger.rs:710-748 | every reachable ledger's history alone rebuilds all of its tables |
| LedgerModel.ReplayRuns | crates/peal-bonsai/src/ledger.rs:710-748 | tables that replay are those of a run of their own history |
| LedgerModel.ReplayOpens | crates/peal-bonsai/src/ledger.rs:163-256 | tables that replay pass every check of opening |
| LedgerModel.RowsNumbered | crates/peal-bonsai/src/ledger.rs:688-705 | a replayable history numbers its rows from one without gaps |
| LedgerModel.TurnPage | crates/peal-bonsai/src/ledger.rs:713-743 | a page asked for after the last number seen holds the rows that follow it, and is empty only at the end of the history |
| Acceptances.OpAcceptedIff | crates/peal-bonsai/src/ledger.rs:360-391 | an operation is accepted exactly when it is for this ledger and circuit, signed by the key its account derives from, proved, spends the account's commitment, shows the root of one of the last sizes, and the log has room |
| Acceptances.OpRefusal | crates/peal-bonsai/src/ledger.rs:360-391 | a refused operation is told the first of these conditions that it fails |
| Acceptances.RegisterAcceptedIff | crates/peal-bonsai/src/ledger.rs:323-327 | a registration is accepted exactly when it is for this ledger, signed, and its key has no account; otherwise it is told the first of these that fails |
| Acceptances.MintAcceptedIff | crates/peal-bonsai/src/ledger.rs:574-613 | a mint is accepted exactly when it is for this ledger and circuit, has a proper deposit id not credited before, proves its amount, and the log has room |
| Acceptances.MintRefusal | crates/peal-bonsai/src/ledger.rs:574-613 | a refused mint is told the first of these conditions that it fails |
| Acceptances.AnswerTells | crates/peal-bonsai/src/ledger.rs:504-569 | an accepted envelope is answered with its number, its place in the log, the root of the log with its receipt and the new state root |
| Acceptances.ReplaysIff | crates/peal-bonsai/src/ledger.rs:710-748 | without replaying: a history replays exactly when every row is numbered by its place, authorized, proved and due after the rows before it; the tables then hold exactly what the rows say |
| Acceptances.HistoryTells | crates/peal-bonsai/src/ledger.rs:323-653 | over every run, each recorded row was due where it stands and records its account, position and link of the chain; accounts, receipts and deposits are those the rows name |
| Acceptances.OnlySigned | crates/peal-bonsai/src/ledger.rs:360-371 | over every run, each recorded operation and registration is signed by the key its account derives from |
| Ledgers.Ledger.Open | crates/peal-bonsai/src/ledger.rs:163-256 | opens exactly the stores bound to the configuration whose recorded root matches, with tree, window, sequence and state root as the tables determine |
| Ledgers.Ledger.RecentFromTree | crates/peal-bonsai/src/ledger.rs:763-770 | the rebuilt window holds the last roots of the log, oldest first |
| Ledgers.Ledger.PushRecent | crates/peal-bonsai/src/ledger.rs:754-759 | pushing the new root gives the window of the longer log |
| Ledgers.WindowSlides | crates/peal-bonsai/src/ledger.rs:754-770 | incremental and rebuilt windows agree for every width, zero included |
| Ledgers.Ledger.Register | crates/peal-bonsai/src/ledger.rs:323-357 | answer and tables are the registration step's, or unchanged tables when the commit fails |
| Ledgers.Ledger.Check | crates/peal-bonsai/src/ledger.rs:362-391 | the admission checks in order, against the tables as they are |
| Ledgers.Ledger.Apply | crates/peal-bonsai/src/ledger.rs:378-391 | answer and tables are the operation step's, or unchanged tables when the commit fails; memory mirrors the tables afterwards exactly when the step was rejected, the commit held or the reload succeeded |
| Ledgers.Ledger.ApplyVerified | crates/peal-bonsai/src/ledger.rs:504-569 | the write path; memory mirrors the tables afterwards exactly when the step was rejected, the commit held or the reload succeeded, and otherwise is ahead by this one receipt |
| Ledgers.Ledger.Write | crates/peal-bonsai/src/ledger.rs:504-569 | the write for a memory that holds any log, ahead of the tables or not: position, window and recorded root are that log's |
| LedgerModel.AheadUnopenable | crates/peal-bonsai/src/ledger.rs:226-245 | an operation written while memory is one receipt ahead leaves tables that fail the check of opening |
| Ledgers.LostReload | crates/peal-bonsai/src/ledger.rs:516-569 | a failed commit whose reload fails, then any written operation: the second answer is a success and the store does not open again |
| Ledgers.Ledger.ApplyBatch | crates/peal-bonsai/src/ledger.rs:440-500 | results and tables are those of the batch specification, for any sound batch verifier and any pattern of failing commits |
| Ledgers.Ledger.VerifyAll | crates/peal-bonsai/src/ledger.rs:462-472 | joint verification with individual fallback marks each claim as the single verifier would |
| Ledgers.Ledger.AdmitAll | crates/peal-bonsai/src/ledger.rs:445-461 | lists exactly the members that are candidates, in order, and answers the others with their admission error |
| Ledgers.Ledger.Mint | crates/peal-bonsai/src/ledger.rs:574-653 | answer and tables are the mint step's, deposit deduplication included; memory mirrors the tables afterwards under the same exact condition |
| Ledgers.Ledger.MintedTotal | crates/peal-bonsai/src/ledger.rs:658-669 | the sum over the deposit table |
| Ledgers.Ledger.ReloadTree | crates/peal-bonsai/src/ledger.rs:671-685 | tree and window again mirror the tables |
| Ledgers.Ledger.History | crates/peal-bonsai/src/ledger.rs:688-705 | a page is a stretch of consecutive rows: none before it is numbered from the given number on, all in it are, and it is shorter than the limit only at the end of the history |
| Ledgers.Ledger.ReplayInto | crates/peal-bonsai/src/ledger.rs:711-743 | feeding all pages through single application accepts the whole history exactly when it replays |
| Ledgers.Ledger.VerifyReplay | crates/peal-bonsai/src/ledger.rs:710-748 | succeeds exactly when the rows replay, number by number, to the state root held; always on a valid ledger |
| Ledgers.Reopen | crates/peal-bonsai/src/ledger.rs:163-256 | reopening gives back every level of the tree, the window, the sequence number and the state root |
| Conservation.AcceptedWitness | crates/peal-bonsai/src/ledger.rs:378-391 | any witness of an accepted operation opens the account as the books do: a send is covered, a receive consumes an unclaimed receipt in the log that names the account |
| Conservation.SameClaim | README.md:389-393 | all witnesses of one accepted operation agree on direction and consumed position |
| Conservation.RunSane | crates/peal-bonsai/src/ledger.rs:323-669 | over every run of any envelopes the commitments open to books that conserve value, and no receipt is consumed twice |
| Conservation.BooksUnique | README.md:389 | the commitments determine the books, so the balances are facts |
| Conservation.ValueConserved | crates/peal-links-node/src/api.rs:1259 | minted less burned equals all balances plus all receipts somebody can still claim |
| Conservation.ConsumedOnce | crates/peal-bonsai/src/withdrawal.rs:3-8 | a consumed receipt was in the log before, named the consuming account and not the withdraw identifier, and no other operation consumed it |
| Conservation.BurnSplit | crates/peal-bonsai/src/withdrawal.rs:3-8 | receipts sent to the withdraw identifier stay outstanding forever |
| Conservation.MintConserves | crates/peal-bonsai/src/deposit.rs:16-19 | a mint adds to what is owed exactly what it adds to the minted total |
| Holdings.BooksAreTheWallets | crates/peal-bonsai/src/wallet.rs:236-242 | a wallet that opens the commitment the ledger holds has exactly the balance, claimed set and randomness the books give its account |
| Holdings.HistoryIsReal | crates/peal-bonsai/src/wallet.rs:508-559 | every position it booked as received is a spendable receipt in the log that names its account |
| Holdings.HeldIsBacked | crates/peal-links-node/src/api.rs:1259 | over every run, such a wallet's balance together with what is still owed is at most what was minted |
| StateRoots.LinkInjective | crates/peal-bonsai/src/ledger.rs:780-799 | the link layout reads back to predecessor, number, kind and fields although the kind has no length |
| StateRoots.LinkReads | crates/peal-bonsai/src/ledger.rs:780-799 | every field of a link stands in its place: tag, predecessor, number, kind, account, commitment, receipt, receipt root |
| StateRoots.GenesisReads | crates/peal-bonsai/src/ledger.rs:772-778 | the genesis preimage is its tag, the namespace and the circuit |
| StateRoots.StoredLink | crates/peal-bonsai/src/ledger.rs:780-799 | a stored state root is the hash of bytes that hold the newest link's fields over the predecessor's hash |
| StateRoots.GenesisApart | crates/peal-bonsai/src/ledger.rs:772-778 | no link preimage is a genesis preimage |
| StateRoots.ChainBinds | crates/peal-bonsai/src/ledger.rs:772-799 | for any hash function, two chains with one genesis and one root have the same entries or exhibit a collision |
| StateRoots.StateRootBinds | crates/peal-bonsai/src/ledger.rs:527-535 | equal chains of links of replayable histories mean equally many entries, the same commitments and the same receipt log |
| StateRoots.ChainOfReplay | crates/peal-bonsai/src/ledger.rs:527-535 | a replayable history's chain starts at its configuration's genesis and has one link per row, numbered like it |
| StateRoots.HashedChainsBind | crates/peal-bonsai/src/ledger.rs:772-799 | for any hash function and any field encoding, chains over one genesis with one hash are one chain, or exhibit a collision of the hash or of the encoding among what they hash |
| StateRoots.HashedRootBinds | crates/peal-bonsai/src/ledger.rs:772-799 | for any hash function and any field encoding, two replayable histories with equal hashed state roots have equally many entries, the same commitments and the same receipt log, or exhibit such a collision |
| Wallets.Wallet.Commitment | crates/peal-bonsai/src/wallet.rs:236-242 | the digest of balance, claimed set and randomness |
| Wallets.Wallet.PrepareSend | crates/peal-bonsai/src/wallet.rs:270-333 | journals a send whose witness satisfies the operation relation for the pending statement; refused exactly when busy, unregistered or uncovered |
| Wallets.Wallet.VerifyReceipt | crates/peal-bonsai/src/wallet.rs:339-365 | the verdict is exactly whether the receipt is ours, opens, folds to the root and is unclaimed; status and known roots follow |
| Wallets.OpensIff | crates/peal-bonsai/src/wallet.rs:336-354 | a full path with the bits of position `q` verifies a receipt under a log's root exactly when it is the log's path there and the receipt the one appended at `q`, whatever position it is held for |
| Wallets.OpensAtPosition | crates/peal-bonsai/src/wallet.rs:336 | with the bits of the held position a verified receipt is the one the log has there |
| Wallets.OpensElsewhere | crates/peal-bonsai/src/wallet.rs:350-354 | a receipt appended at one position verifies as held for any other |
| Wallets.Wallet.AddReceipt | crates/peal-bonsai/src/wallet.rs:369-388 | one held receipt per position |
| Wallets.Wallet.PrepareReceive | crates/peal-bonsai/src/wallet.rs:393-467 | journals a claim whose witness satisfies the operation relation when the path is the receipt's own; refused exactly when not claimable |
| Wallets.Wallet.ProvePending | crates/peal-bonsai/src/wallet.rs:472-505 | the journalled envelope claims exactly the pending statement |
| Wallets.Wallet.CommitPending | crates/peal-bonsai/src/wallet.rs:508-559 | the wallet opens the commitment it had prepared; history, receipts and sent openings gain exactly this operation; balance stays received less sent |
| Wallets.Wallet.EntryBooks | crates/peal-bonsai/src/wallet.rs:508-559 | the history entry of a send names its addressee, of a receive the sender of the held receipt, each with the reference known for it |
| Wallets.Wallet.AbortPending | crates/peal-bonsai/src/wallet.rs:562-573 | the wallet opens what it opened before; a claiming receipt is unclaimed again |
| Wallets.Wallet.Reconcile | crates/peal-bonsai/src/wallet.rs:579-604 | follows the resolution rule; unless it reports a conflict or lacks the position, the wallet ends idle and opens the ledger's commitment |
| Wallets.Wallet.PrepareDeposit | crates/peal-bonsai/src/wallet.rs:664-700 | the intent's receipt satisfies the deposit relation for the amount and this account and is remembered with its opening; refused, unchanged, exactly for another circuit or a failing prover |
| Wallets.Wallet.DepositMinted | crates/peal-bonsai/src/wallet.rs:704-717 | the first waiting deposit of that receipt leaves the list and, unless one is held at its position, becomes the held receipt with its own opening |
| Wallets.BookedGrows | crates/peal-bonsai/src/wallet.rs:508-559 | an entry keeps the balance equal to received less sent and claimed positions equal to distinct received positions |
| Journals.AbortSafeIff | crates/peal-bonsai/src/wallet.rs:561-574 | aborting a pending operation is safe exactly when the ledger has not accepted it and no copy of it is in flight |
| Journals.NextSafeIff | packages/links/src/account.ts:601-622 | of all events, duplicates, late copies, timeouts and unconditional aborts included, exactly the prudent ones keep the ledger's commitment explained by the journal |
| Journals.AlwaysSafe | crates/peal-bonsai/src/wallet.rs:270-604 | at every point of every run of prudent events the ledger holds the wallet's commitment or the pending one, and reconciling finds no conflict |
| Journals.RunSafeIff | packages/links/src/account.ts:601-642 | a run is safe throughout exactly when its every event was prudent |
| Journals.ImprudentConflicts | crates/peal-bonsai/src/wallet.rs:561-604 | after any event that was not prudent the wallet is in conflict at once or as soon as the copy in flight lands |
| Journals.EarlyAbortConflicts | packages/links/src/account.ts:601-642 | the two runs in full: submit, abort on an answered error or reconcile too early, late delivery, conflict |
| Journals.SettleAgrees | crates/peal-bonsai/src/wallet.rs:579-604 | once nothing is in flight, reconciling is prudent and ends in agreement |
| Journals.StepMoves | crates/peal-bonsai/src/ledger.rs:323-653 | a ledger step leaves an account's commitment alone or is an operation of that account from the commitment it holds to the one it names |
| Journals.DeliverIsStep | crates/peal-bonsai/src/ledger.rs:378-391 | the ledger judging a copy in flight moves its commitment as the delivery or the refusal of that copy |
| Journals.Prepares | crates/peal-bonsai/src/wallet.rs:270-333 | preparing a send is the event of preparing, or leaves the journal alone |
| Journals.PreparesReceive | crates/peal-bonsai/src/wallet.rs:393-467 | preparing a receive is the event of preparing, or leaves the journal alone |
| Journals.Acknowledges | crates/peal-bonsai/src/wallet.rs:508-559 | committing is the event of learning of the acceptance |
| Journals.Abandons | crates/peal-bonsai/src/wallet.rs:561-574 | aborting is the event of giving up |
| Journals.Settles | crates/peal-bonsai/src/wallet.rs:579-604 | reconciling against the ledger's commitment is the event of settling, and reports a conflict exactly when there is one |
| Journals.FlightIs | packages/links/src/account.ts:601-642 | after any run a copy is in flight exactly if it was submitted while pending and not lost since |
| ConsensusState.State.ApplyBlock | crates/peal-links-consensus/src/state.rs:201-250 | applies exactly the blocks that extend the head; every ledger is then the run of its own envelopes, and every transaction is answered what its ledger answers at its place |
| ConsensusState.State.ApplyAll | crates/peal-links-consensus/src/state.rs:216-227 | in order, each transaction moves its own ledger by its envelope and no other, and is answered what that ledger says there, or that the namespace is unknown |
| ConsensusState.ChainRuns | crates/peal-links-consensus/src/state.rs:216-227 | each ledger of a chain is the run of its own envelopes from an empty ledger, whatever went to the others |
| ConsensusState.TipAnswered | crates/peal-links-consensus/src/state.rs:216-227 | each answer of a block is its ledger's answer after the transactions of earlier blocks and those before it in the block |
| ConsensusState.CombinedRootBinds | crates/peal-links-consensus/src/state.rs:163-171 | equal combined roots are equal state roots namespace by namespace |
| ConsensusState.ChainReplays | crates/peal-links-consensus/src/state.rs:201-250 | every ledger any chain of blocks produces replays, so the ledger theorems hold of it |
| Actors.Actor.Request | crates/peal-links-consensus/src/actor.rs:715-726 | asks at most once per retry interval; afterwards the block is marked requested |
| Actors.Actor.DrainFinalized | crates/peal-links-consensus/src/actor.rs:749-823 | terminates; afterwards, if a finalized height is outstanding, an application is in flight or the lowest one's bytes are missing and requested |
| Actors.Actor.StartNext | crates/peal-links-consensus/src/actor.rs:765-796 | starts the block after the head if its bytes are here and nothing else is being applied |
| Actors.Actor.WalkGap | crates/peal-links-consensus/src/actor.rs:797-821 | marks only chain blocks as finalized, down to the head or to the first missing block, which it requests |
| Actors.Actor.OnFinalized | crates/peal-links-consensus/src/actor.rs:730-747 | a reported digest is remembered until applied, no height is forgotten, and the queue is drained |
| Actors.Actor.RunTask | crates/peal-links-consensus/src/state.rs:201-250 | the state never refuses the spawned block and grows by exactly the next block of the chain |
| Actors.Actor.OnApplied | crates/peal-links-consensus/src/actor.rs:825-889 | the head follows the state by one; nothing finalized or needed is forgotten |
| Actors.Actor.PruneBlocks | crates/peal-links-consensus/src/actor.rs:893-900 | no block above the head leaves the cache |
| Actors.Actor.OnVerify | crates/peal-links-consensus/src/actor.rs:603-643 | a vote waits for the block's bytes, then for its parent, asking for the one that is missing; otherwise it is checked further exactly when epoch, view, parent and height fit the round, and answered no when not |
| Actors.Actor.JudgeableIff | crates/peal-links-consensus/src/actor.rs:513-524 | a proposal can be judged exactly when its bytes are here and its parent is the genesis, the head, held or applied |
| Actors.Actor.OnChecked | crates/peal-links-consensus/src/actor.rs:644-687 | the vote is answered by the verdict on a block that fits its round; yes exactly when every transaction passes and every mint is confirmed, no vote only if a mint could not be looked up |
| Actors.Judge | crates/peal-links-consensus/src/actor.rs:648-685 | the loop over the mints after the checks: its verdict, and the refused mint that is to be dropped |
| Actors.Actor.YesFits | crates/peal-links-consensus/src/actor.rs:630-643 | every yes ever answered was for a block of that round's epoch, view and parent, one above the parent |
| Actors.Actor.RetryAll | crates/peal-links-consensus/src/actor.rs:690-705 | the votes on a block are all checked or answered if it can be judged, or all wait again in their order |
| Actors.Actor.RetryWaiting | crates/peal-links-consensus/src/actor.rs:690-706 | afterwards no vote waits on the block, or on one that waited for it as its parent, that can be judged; and no vote is lost |
| Actors.Actor.WithoutKeeps | crates/peal-links-consensus/src/actor.rs:1097-1105 | a vote the tick stops waiting for is answered, by abstaining |
| Actors.Actor.GivesUpIff | crates/peal-links-consensus/src/actor.rs:1089-1105 | the tick gives up on exactly what was waited for over ten seconds: those votes are abstained from, everything else stays |
| Actors.Actor.OnBlockAvailable | crates/peal-links-consensus/src/actor.rs:690-713 | the votes it held up are judged, none is lost, a finalized digest moves to its height and the queue is drained |
| Actors.Actor.OnBlockBytes | crates/peal-links-consensus/src/actor.rs:1126-1143 | exactly the blocks join the cache that decode and are asked for, awaited, reported finalized, or in the window while there is room |
| Actors.Actor.Excluded | crates/peal-links-consensus/src/actor.rs:536-547 | exactly the transactions of the unapplied ancestors that are held |
| Actors.Select | crates/peal-links-consensus/src/actor.rs:548-564 | the longest run of the pool, in order and without excluded transactions, within both limits |
| Actors.Actor.OnPropose | crates/peal-links-consensus/src/actor.rs:526-583 | the block extends the parent by one and holds exactly such a run; an unknown parent is requested instead |
| Actors.Actor.OnTick | crates/peal-links-consensus/src/actor.rs:1089-1118 | exactly what is still requested afterwards; of a drained idle actor the lowest outstanding block stays requested exactly when its wait is not stale or it was itself reported finalized; votes given up on are abstained from |
| Actors.TickForgets | crates/peal-links-consensus/src/actor.rs:1089-1118 | a run from a fresh actor after which everything outstanding waits for a block nobody is asked for |
| Actors.Agreement | crates/peal-links-consensus/src/actor.rs:749-823 | validators on comparable finalized chains have applied comparable chains; at equal heights heads and ledgers are equal |
| Actors.EqualRootsAgree | crates/peal-links-consensus/src/state.rs:163-171 | equal combined roots mean equal commitments and equal receipt logs in every namespace |
| Pools.Pool.RemoveFromMempool | crates/peal-links-consensus/src/actor.rs:918-925 | exactly that transaction leaves pool, id set and byte count, which never underflows; the others keep their order |
| Pools.Pool.Admit | crates/peal-links-consensus/src/actor.rs:954-1014 | a check starts unless checks or pool are at their caps; otherwise the submitter is refused |
| Pools.Pool.CheckDone | crates/peal-links-consensus/src/actor.rs:978-1013 | a failed check answers its submitter and nobody else |
| Pools.Pool.OnAdmission | crates/peal-links-consensus/src/actor.rs:489-494 | the counter goes down; the submitter waits; the transaction enters if absent and fitting, otherwise everyone waiting for it is refused |
| Pools.Pool.OnAdmitted | crates/peal-links-consensus/src/actor.rs:1016-1052 | the cap checks on count and bytes, and who is answered when they fail |
| Pools.Pool.Drop | crates/peal-links-consensus/src/actor.rs:500-506 | the transaction leaves the pool and its waiters stay |
| Pools.Pool.ExpirePool | crates/peal-links-consensus/src/actor.rs:1056-1073 | exactly the overdue transactions leave and their waiters are refused |
| Pools.Pool.ExpireWaiters | crates/peal-links-consensus/src/actor.rs:1075-1087 | exactly the waiters past their deadline are refused, the others keep their order |
| Pools.Pool.OnTick | crates/peal-links-consensus/src/actor.rs:1054-1088 | afterwards the pool has only entries in time and the lists only waiters in time; whoever left was refused |
| Pools.Pool.AnswerAll | crates/peal-links-consensus/src/actor.rs:860-883 | everyone waiting gets an answer, the first its own, once |
| Pools.Pool.OnApplied | crates/peal-links-consensus/src/actor.rs:857-884 | block transactions leave the pool; everyone waiting for one holds the record if the ledger answered one, and otherwise the first holds the error and the others a copy of it |
| Validators.Validator.OnApplied | crates/peal-links-consensus/src/actor.rs:825-889 | outcomes are those of the applied chain, and whoever waited for a transaction of the block holds what its ledger answered there |
| Validators.Validator.OnPropose | crates/peal-links-consensus/src/actor.rs:526-583 | a proposal has no transaction twice and no more than the decoder's count, comes from the pool and repeats nothing pending; the decoder's byte limits are apart |
| Validators.PackedDecodable | crates/peal-links-consensus/src/block.rs:98-109 | a pool without repeats packs into a block without repeats and within the count |
| Validators.Validator.OnChecked | crates/peal-links-consensus/src/actor.rs:661-669 | only mints this validator's view refused leave the pool with a vote |
| Validators.Validator.OnTick | crates/peal-links-consensus/src/actor.rs:1054-1118 | both sides tick; outcomes still are those of the applied chain and no reply channel is lost |
| Validators.OkIsRecorded | crates/peal-links-consensus/src/actor.rs:857-884 | every Ok ever sent is what the ledger answers to that very transaction at its place in an applied block |
| OrderingRoots.PairUp | crates/bte-coordinator/src/merkle.rs:46-58 | one level up, chunk by chunk, the odd node promoted |
| OrderingRoots.ComputeRoot | crates/bte-coordinator/src/merkle.rs:40-61 | the loop computes the root of the recursive definition |
| OrderingRoots.RootBinds | crates/bte-coordinator/src/merkle.rs:40-61 | for any hash, leaf lists of one length with one root are equal or exhibit a collision between preimages hashed for the two |
| OrderingRoots.RootBindsAnyLength | crates/bte-coordinator/src/merkle.rs:40-61 | the same for lists of any lengths when no leaf preimage has 64 bytes |
| OrderingRoots.LeafLengthIff | crates/bte-coordinator/src/merkle.rs:40-61 | a leaf preimage has 64 bytes exactly when some hash and some other list give it one root without a collision |
| OrderingRoots.LengthsCollide | crates/bte-coordinator/src/merkle.rs:46-58 | a list and the shorter list whose leaves are its first level of nodes always have one root |
| OrderingRoots.SlotCollides | crates/bte-coordinator/src/merkle.rs:9-14 | for any hash and any two leaves their node is also a reveal leaf with a payload of 60 bytes, so two leaves and one, three and two, have one root |
| OrderingRoots.OrderingCollides | crates/bte-coordinator/src/intents.rs:239 | an intent id of 31 bytes makes an ordering leaf the node over two leaves, with the same effect |
| OrderingRoots.OrderingLeafLength | crates/bte-coordinator/src/merkle.rs:31-37 | an ordering leaf preimage is as long as a node's exactly for an id of 31 bytes |
| OrderingRoots.LeafBytesInjective | crates/bte-coordinator/src/merkle.rs:31-37 | an ordering leaf names one intent and one ciphertext |
| OrderingRoots.SeparatorNotNeeded | crates/bte-coordinator/src/merkle.rs:24 | for hashes of one width the same holds without the zero byte, unlike the comment says |
| OrderingRoots.SlotBytesInjective | crates/bte-coordinator/src/merkle.rs:9-14 | a reveal leaf names one position and one payload |
| Freezes.BatchCountLeast | crates/bte-coordinator/src/engine.rs:137 | the fewest batches that hold the ciphertexts, and one for none |
| Freezes.RawSorts | crates/bte-coordinator/src/engine.rs:134-136 | hashes ascend as numbers exactly as their bytes do, so the order is that of their hexadecimal text |
| Freezes.OrderOfDistinct | crates/bte-coordinator/src/engine.rs:134-147 | the order lists each real ciphertext and each dummy once |
| Freezes.FrozenPlaced | crates/bte-coordinator/src/engine.rs:153-165 | positions and order are each other's inverse after a freeze |
| Freezes.FrozenLayout | crates/bte-coordinator/src/engine.rs:134-147 | real ciphertexts by hash, then dummies by hash, in every frozen condition |
| Freezes.RangeQuery | crates/bte-coordinator/src/engine.rs:295-305 | the query by position range returns exactly that stretch of the frozen order |
| RevealTables.Pad | crates/bte-coordinator/src/engine.rs:137-144 | draws dummies until the last batch is full |
| RevealTables.InsertDummies | crates/bte-coordinator/src/engine.rs:153-159 | inserts all or fails exactly when a hash is taken or repeated |
| RevealTables.CommitBatches | crates/bte-coordinator/src/engine.rs:186-214 | every new batch gets the root over its slice of the order |
| RevealTables.PlanFreeze | crates/bte-coordinator/src/engine.rs:126-165 | the order and table a freeze produces |
| RevealTables.FirstShares | crates/bte-coordinator/src/engine.rs:380-394 | `t` distinct operators with verified shares, none later than one left out |
| RevealTables.CommitmentBinds | crates/bte-coordinator/src/merkle.rs:31-61 | for any hash, one commitment means the same ciphertexts in the same order with the same intents, or a collision: always for batches of one size, and for any sizes without ids of 31 bytes |
| RevealTables.RevealRootBinds | crates/bte-coordinator/src/merkle.rs:9-61 | for any hash, one reveal root means the same payloads in order, or a collision: always for equally many slots, and for any numbers without payloads of 60 bytes |
| RevealTables.IdLengthIff | crates/bte-coordinator/src/merkle.rs:31-37 | an intent id has 31 bytes exactly when some hash gives its one-ciphertext batch the commitment of another batch without a collision |
| RevealTables.PayloadLengthIff | crates/bte-coordinator/src/merkle.rs:9-14 | a payload has 60 bytes exactly when some hash gives its one-slot reveal the root of another reveal without a collision |
| RevealEngines.Engine.SubmitCiphertext | crates/bte-coordinator/src/api.rs:434-493 | accepted exactly while pending; afterwards the hash is the condition's exactly when it was new or already its own |
| RevealEngines.Engine.Freeze | crates/bte-coordinator/src/engine.rs:120-225 | succeeds exactly when no dummy hash is taken; gives the condition its order, batches and commitments, or changes nothing |
| RevealEngines.Engine.BatchCts | crates/bte-coordinator/src/engine.rs:278-307 | a batch's ciphertexts in committed order |
| RevealEngines.Engine.GetWork | crates/bte-coordinator/src/api.rs:530-583 | work is exactly the unfinalized batches without this operator's share, each already committed to what is handed out |
| RevealEngines.Engine.BeginShare | crates/bte-coordinator/src/api.rs:594-660 | unknown, finalized and repeated shares are told apart; otherwise verification starts against the batch's headers |
| RevealEngines.Engine.EndShare | crates/bte-coordinator/src/api.rs:662-688 | stored with its verdict, unless the operator's share arrived meanwhile |
| RevealEngines.Engine.FinalizeBatch | crates/bte-coordinator/src/engine.rs:353-436 | each slot holds its own ciphertext's hash and dummy mark and what the first `t` verified shares recover from that ciphertext; a recovery that fails changes nothing |
| RevealEngines.Engine.BuildReveal | crates/bte-coordinator/src/engine.rs:440-498 | the reveal is all batch slots in order, numbered from zero, following the frozen order, under their root |
| RevealEngines.Engine.MarkStalled | crates/bte-coordinator/src/engine.rs:502-517 | exactly the frozen conditions with an unfinalized batch frozen at or before the cutoff |
| RevealEngines.Engine.FinalizeReady | crates/bte-coordinator/src/engine.rs:311-351 | a pass finalizes exactly the batches with `t` verified shares whose recovery works, and leaves no condition unrevealed whose batches are all finalized, unless its own reveal failed |
| RevealEngines.SharesFollowCommitments | crates/bte-coordinator/src/engine.rs:179-214 | any share of a batch, stored or in verification, comes after the batch's commitment |
| RevealEngines.RevealedMet | crates/bte-coordinator/src/engine.rs:311-351 | every batch of a revealed condition has `t` operators with matching verified shares |
| RevealEngines.RevealedSlots | crates/bte-coordinator/src/engine.rs:440-498 | every slot of a reveal, by its position in the frozen order, shows that ciphertext's hash and dummy mark and what `t` verified shares of its batch recover from that very ciphertext |
| RevealEngines.RevealedAsCommitted | crates/bte-coordinator/src/engine.rs:440-498 | a batch's commitment is the root over what the reveal shows for it; any claim of that commitment is the same batch or exhibits a collision, if it has the batch's size or no id on either side has 31 bytes |
| RevealEngines.PositionsOfReals | crates/bte-coordinator/src/engine.rs:116 | positions of real ciphertexts depend on nothing but their hashes; dummies stand behind |
| Publishing.BatchQuery | crates/bte-coordinator/src/engine.rs:444-451 | a condition's batches by index |
| Publishing.GatherOrder | crates/bte-coordinator/src/engine.rs:453-456 | finalized slots, batch by batch, follow the frozen order |
| Publishing.LocatedInOrder | crates/bte-coordinator/src/engine.rs:457-465 | looked-up positions count from zero and the sort changes nothing |
| StableSorts.SortSorts | crates/bte-coordinator/src/engine.rs:465 | a stable sort orders and loses nothing |
| Calendar.DateRoundTrip | crates/bte-coordinator/src/v1.rs:1171-1194 | a real date comes back from its day number, for all years |
| Calendar.DayRoundTrip | crates/bte-coordinator/src/v1.rs:1171-1194 | every integer day has a real date whose day number it is |
| Calendar.PlainCount | crates/bte-coordinator/src/v1.rs:1171-1178 | the era arithmetic is the plain count of years, leap years and months |
| Timestamps.PrintRead | crates/bte-coordinator/src/v1.rs:1157-1201 | every instant of years 0000 to 9999 is printed canonically and read back |
| Timestamps.ReadPrint | crates/bte-coordinator/src/v1.rs:1157-1201 | every canonical text is read and printed back unchanged |
| Timestamps.CanonicalIff | crates/bte-coordinator/src/v1.rs:1154-1170 | an accepted text, of any year, is in the documented subset exactly when it has twenty bytes with `T` and both colons in place, digits in all fields, a real date and a second below 60 |
| Timestamps.TakenIff | crates/bte-coordinator/src/v1.rs:1157-1179 | text is read as an instant exactly when the date's separators are in place, it ends in `Z` or `+00:00`, and its six fields are numbers in range that name it |
| Timestamps.CanonicalPrintsBack | crates/bte-coordinator/src/v1.rs:1154-1201 | an accepted text of years 0000 to 9999 is canonical exactly when it prints back |
| Timestamps.IgnoredBytes | crates/bte-coordinator/src/v1.rs:1158-1167 | the clock's separators and everything between the seconds and the end are never looked at |
| Timestamps.OffsetIgnored | crates/bte-coordinator/src/v1.rs:1158-1167 | an offset before a final `Z` changes nothing: the clock is read as that of UTC |
| Timestamps.LooseDayTaken | crates/bte-coordinator/src/v1.rs:1168-1170 | days up to 31 and second 60 are taken for any month; canonical exactly when the date is real and the second below 60 |
| Timestamps.SignedHourTaken | crates/bte-coordinator/src/v1.rs:1165-1170 | a signed hour is taken and names an hour of the day before |
| Timestamps.AuthReads | crates/peal-links-node/src/auth.rs:127-145 | the sign-in reader agrees on every printed instant from 1970 on and refuses earlier ones |
| Timestamps.AuthChecksNoRange | crates/peal-links-node/src/auth.rs:127-145 | it takes any two-digit fields and carries them over |
| Timestamps.DayOfIsPrefix | crates/bte-coordinator/src/pages.rs:730-743 | the day text is the front of the instant's text, ten characters for four-digit years |
| Texts.Utf8Iff | crates/bte-coordinator/src/auction.rs:110-118 | what passes as text is exactly the encoding of a sequence of Unicode scalar values |
| Timestamps.PaddedReads | crates/bte-coordinator/src/v1.rs:1195-1200 | any number prints as a field of at least its width, sign included, that reads back as the number |
| Bids.DecodesIff | crates/bte-coordinator/src/auction.rs:108-158 | bytes decode to a record exactly when they spell it place by place: version and size, amount, id, name, contact, zero padding, origin |
| Bids.DecodeAfterEncode | crates/bte-coordinator/src/auction.rs:66-158 | printing a valid record of either version and decoding gives the record |
| Bids.EncodeAfterDecode | crates/bte-coordinator/src/auction.rs:66-158 | what decodes is exactly its record's printed form, so nothing is hidden in padding or origin |
| Bids.OneEncodingPerVersion | crates/bte-coordinator/src/auction.rs:101-106 | two encodings of one bid are equal exactly when their versions are |
| Bids.TwoEncodings | crates/bte-coordinator/src/auction.rs:66-76 | every bid without origin that fits the older version has one encoding in each |
| Bids.EncodingsOf | crates/bte-coordinator/src/auction.rs:130-140 | no other bid has two encodings |
| Auctions.Results | crates/bte-coordinator/src/auction.rs:384-443 | shown are the counted bids, the highest amount first and of equal ones the lower position; the queue holds the eligible ones, each as often; discards exactly the unreadable and foreign ones in slot order |
| Auctions.CountedIff | crates/bte-coordinator/src/auction.rs:387-424 | a bid is counted exactly if a real slot's payload decodes to its record for this auction; its flags say whether it reaches the reserve and stays within the maximum |
| Auctions.OnlyRanking | crates/bte-coordinator/src/auction.rs:427-435 | any list of these bids that respects amount and position is the list shown |
| Auctions.WinnerInAmounts | crates/bte-coordinator/src/auction.rs:437-452 | the winner is an acceptable bid some slot holds, and no acceptable bid of any slot is higher, or as high from a lower position; there is none exactly if no slot holds an acceptable bid |
| Auctions.WinnerIsBest | crates/bte-coordinator/src/auction.rs:437-452 | every eligible bid is queued, and the first of the queue is as high or higher, of equal ones with no higher position |

## Left out

- Relations.OpRelation: the circuit belongs to a crate that is not part of this model; the relation is taken from README.md:389-394 and the wallet's witness construction.
- Cryptography: signatures, proof systems, pairings and encryption are function-valued parameters; Poseidon digests, block digests and the combined root are injective constructors, while the state root's chain (`StateRoots`), the ordering commitments and the reveal roots take any hash.
- Ledgers.Ledger.ApplyBatch: assumes that every failed commit of the batch is followed by a successful reload; what a failed reload leaves behind is stated by `Ledgers.Ledger.ApplyVerified`, `Write` and `LostReload` only.
- Ledgers.Ledger.VerifyReplay: history rows are in key order and numbered from one on, which the table's primary key and the writers guarantee.
- Storage errors other than a failing commit or reload: a failing read or transaction start returns an error before anything changes.
- Depths above 63 for receipts and 64 for claimed positions: node spans are 64-bit shifts in the source.
- Overflow of the 64-bit sequence number, error message texts, `op_seq` and `applied_at` columns, and the order of `ClaimedSet::positions`.
- Changing `root_window` between two openings of one store: the configuration is fixed.
- Wallet keys, encryption, JSON, timestamps, `balances`, `prepare_withdrawal` and `withdrawal_claim`; the `registered` flag is set by the client.
- ConsensusState.State.ApplyBlock: one atomic step; a crash inside it and a block-store write that fails after the ledgers moved (crates/peal-links-consensus/src/state.rs:228-243) are not modelled, and the state holds each ledger by its tables.
- Actors.Actor.DrainFinalized: the conflicting-block branches and the failed application of crates/peal-links-consensus/src/actor.rs:754-760, 771-779 and 836-838 are excluded by the chain hypothesis, which termination needs.
- Actors.Actor.OnChecked: whether a transaction passes its own checks and whether this validator's chain view confirms a mint are parameters; the three attempts at the latter are one answer.
- Validators.Validator.OnPropose: the decoder's limits on the bytes of a block and of a transaction are not part of `Decodable`, since encodings are lengths here.
- Broadcasting, gossip, gathers, status and block serving of the actor: network plumbing.
- Timers and the interleaving of spawned tasks: every expiry and completion is a step that may come at any time.
- Freeze as two lock scopes (crates/bte-coordinator/src/engine.rs:127-151): modelled as one atomic step, as are the two statements of crates/bte-coordinator/src/engine.rs:424-432, so a database error between these two is not modelled.
- RevealEngines.Engine.FinalizeReady: which recoveries and reveals fail is a parameter; a failure changes nothing.
- RevealEngines.Engine.SubmitCiphertext: a ciphertext is its hash; parsing, size limits and share codes are not modelled.
- The engine's timing columns, cached cross terms, `at_block` polling, and intent states after the commitment.
- Timestamps.ParseAuth: fields are unbounded integers, so a 64-bit overflow of its arithmetic on absurd fields is not modelled.
- Auctions.Results: base64 and JSON are outside; a slot whose payload text does not decode has no payload.
- SQL, HTTP, CORS, rate limits, pages, the browser extension and the other packages: input, output or user interface.
