/**
 * The private state of one account and its two-phase journal: prepare, then commit, abort or
 * reconcile.
 */
module Wallets {
  import opened Base
  import Encodings
  import opened Digests
  import opened Paths
  import opened ClaimedSets
  import opened Relations
  import opened LedgerModel
  import ReceiptTrees

  datatype ReceiptOpening = ReceiptOpening(amount: Amount, sender: Fr, receiver: Fr, randomness: Fr)

  datatype ReceiptStatus = Discovered | Unclaimed | Claiming | Claimed | Invalid

  datatype HeldReceipt = HeldReceipt(
    position: nat, receipt: Fr, opening: ReceiptOpening, status: ReceiptStatus, reference: Option<string>)

  datatype PendingKind =
    | Send(amount: Amount, to: Fr, opening: ReceiptOpening, reference: Option<string>)
    | Receive(position: nat, amount: Amount)

  datatype PendingOp = PendingOp(
    kind: PendingKind, comOld: Fr, comNew: Fr, randomnessNew: Fr, receiptOut: Fr, root: Fr,
    claimedAfter: Option<ClaimedSet>, envelope: Option<OpEnvelope>)

  datatype HistoryEntry =
    | Sent(amount: Amount, counterparty: Fr, position: nat, reference: Option<string>)
    | Received(amount: Amount, counterparty: Fr, position: nat, reference: Option<string>)

  datatype PendingDeposit = PendingDeposit(receipt: Fr, opening: ReceiptOpening, reference: Option<string>)

  datatype ReceiptWitness = ReceiptWitness(path: MerklePath, root: Fr)

  datatype Reconciled = InSync | Committed | Aborted | Conflict

  /** The commitment of a real receipt. */
  function ReceiptCommitment(o: ReceiptOpening): Fr {
    Rec(o.amount, o.sender, o.receiver, SPENDABLE, o.randomness)
  }

  function ReceivedTotal(history: seq<HistoryEntry>): nat {
    if history == [] then 0
    else
      var last := history[|history| - 1];
      ReceivedTotal(history[..|history| - 1]) + if last.Received? then last.amount else 0
  }

  function SentTotal(history: seq<HistoryEntry>): nat {
    if history == [] then 0
    else
      var last := history[|history| - 1];
      SentTotal(history[..|history| - 1]) + if last.Sent? then last.amount else 0
  }

  /** The receipt positions received so far, oldest first. */
  function ReceivedPositions(history: seq<HistoryEntry>): seq<nat> {
    if history == [] then []
    else
      var last := history[|history| - 1];
      ReceivedPositions(history[..|history| - 1]) + if last.Received? then [last.position] else []
  }

  /**
   * The balance is what was received less what was sent, and the claimed positions are exactly
   * the positions received, each received once.
   */
  ghost predicate Booked(balance: nat, claimed: set<nat>, history: seq<HistoryEntry>) {
    && balance == ReceivedTotal(history) - SentTotal(history)
    && (forall p :: p in claimed <==> p in ReceivedPositions(history))
    && NoRepeats(ReceivedPositions(history))
  }

  /** An entry is booked: a covered send, or the receipt of a position not yet claimed. */
  lemma BookedGrows(balance: nat, claimed: set<nat>, history: seq<HistoryEntry>, e: HistoryEntry)
    requires Booked(balance, claimed, history)
    requires if e.Sent? then e.amount <= balance else e.position !in claimed
    ensures if e.Sent? then Booked(balance - e.amount, claimed, history + [e])
            else Booked(balance + e.amount, claimed + {e.position}, history + [e])
  {
    HistoryGrows(history, e);
    var before, after := ReceivedPositions(history), ReceivedPositions(history + [e]);
    forall p
      ensures p in after <==> p in before || (e.Received? && p == e.position)
    {
    }
  }

  /** Adding an entry moves the totals by that entry. */
  lemma HistoryGrows(history: seq<HistoryEntry>, e: HistoryEntry)
    ensures ReceivedTotal(history + [e]) == ReceivedTotal(history) + if e.Received? then e.amount else 0
    ensures SentTotal(history + [e]) == SentTotal(history) + if e.Sent? then e.amount else 0
    ensures ReceivedPositions(history + [e]) ==
            ReceivedPositions(history) + if e.Received? then [e.position] else []
  {
    assert (history + [e])[..|history|] == history;
  }

  /** The first index of a held receipt at `position`. */
  function Find(receipts: seq<HeldReceipt>, position: nat): (r: Option<nat>)
    ensures r.Some? ==> r.value < |receipts| && receipts[r.value].position == position
    ensures r.Some? ==> forall i | 0 <= i < r.value :: receipts[i].position != position
    ensures r.None? ==> forall i | 0 <= i < |receipts| :: receipts[i].position != position
  {
    if receipts == [] then None
    else if receipts[0].position == position then Some(0)
    else match Find(receipts[1..], position)
      case None => None
      case Some(i) => Some(i + 1)
  }

  /** Set the status of the first held receipt at `position`, if there is one. */
  function Mark(receipts: seq<HeldReceipt>, position: nat, status: ReceiptStatus): (r: seq<HeldReceipt>)
    ensures |r| == |receipts|
    ensures forall i | 0 <= i < |r| :: r[i].(status := receipts[i].status) == receipts[i]
    ensures forall i | 0 <= i < |r| && Find(receipts, position) != Some(i) :: r[i] == receipts[i]
    ensures Find(receipts, position).Some? ==> r[Find(receipts, position).value].status == status
  {
    match Find(receipts, position)
    case None => receipts
    case Some(i) => receipts[i := receipts[i].(status := status)]
  }

  /** At most one held receipt per position. */
  ghost predicate Positioned(receipts: seq<HeldReceipt>) {
    && (forall i | 0 <= i < |receipts| :: receipts[i].position < U64)
    && (forall i, j | 0 <= i < j < |receipts| :: receipts[i].position != receipts[j].position)
  }

  lemma StatusPositioned(receipts: seq<HeldReceipt>, idx: nat, status: ReceiptStatus)
    requires Positioned(receipts) && idx < |receipts|
    ensures receipts[idx].position < U64
    ensures Positioned(receipts[idx := receipts[idx].(status := status)])
  {
  }

  lemma MarkPositioned(receipts: seq<HeldReceipt>, position: nat, status: ReceiptStatus)
    requires Positioned(receipts)
    ensures Positioned(Mark(receipts, position, status))
  {
    var r := Mark(receipts, position, status);
    forall i | 0 <= i < |r|
      ensures r[i].position == receipts[i].position
    {
      assert r[i].(status := receipts[i].status) == receipts[i];
    }
  }

  class Wallet {
    const inst: Instance
    const circuitId: CircuitId
    const namespace: Namespace
    const pubkey: PublicKey
    const account: Fr
    var balance: Amount
    var randomness: Fr
    var claimed: ClaimedSet
    var registered: bool
    var pending: Option<PendingOp>
    var receipts: seq<HeldReceipt>
    var history: seq<HistoryEntry>
    var knownRoots: seq<Fr>
    var pendingDeposits: seq<PendingDeposit>
    var sentOpenings: seq<(nat, ReceiptOpening)>

    /** The claimed sets the wallet holds: its own and the one a pending receive moves to. */
    ghost function Sets(): set<object>
      reads this
    {
      {claimed} + if pending.Some? && pending.value.claimedAfter.Some? then {pending.value.claimedAfter.value} else {}
    }

    /**
     * The history is booked, and a pending operation starts from the commitment the wallet
     * opens and ends at the one it will open.
     */
    ghost predicate Valid()
      reads this, Sets()
    {
      && inst.receiptDepth <= 63 && inst.nullDepth <= 64
      && account == AccountId(namespace, pubkey)
      && claimed.Valid() && claimed.depth == inst.nullDepth
      && Booked(balance, claimed.Claimed(), history)
      && Positioned(receipts)
      && (pending.Some? ==> PendingOk(pending.value))
    }

    ghost predicate PendingOk(p: PendingOp)
      requires pending == Some(p) && claimed.Valid() && claimed.depth == inst.nullDepth
      reads this, claimed, Sets()
    {
      && p.comOld == Commitment()
      && match p.kind
         case Send(amount, _, _, _) =>
           && amount <= balance && p.claimedAfter.None?
           && p.comNew == Acct(balance - amount, ClaimRoot(claimed.Claimed(), inst.nullDepth), p.randomnessNew)
         case Receive(position, amount) =>
           && balance + amount < U64 && position !in claimed.Claimed()
           && p.claimedAfter.Some? && p.claimedAfter.value.Valid() && p.claimedAfter.value != claimed
           && p.claimedAfter.value.depth == inst.nullDepth
           && p.claimedAfter.value.Claimed() == claimed.Claimed() + {position}
           && p.comNew == Acct(balance + amount, ClaimRoot(claimed.Claimed() + {position}, inst.nullDepth),
                               p.randomnessNew)
    }

    constructor (inst: Instance, circuitId: CircuitId, namespace: Namespace, pubkey: PublicKey, randomness: Fr)
      requires inst.receiptDepth <= 63 && inst.nullDepth <= 64
      ensures Valid() && fresh(this) && fresh(Sets())
      ensures this.inst == inst && !registered && pending.None? && history == []
      ensures Commitment() == Acct(0, ZeroRoot(inst.nullDepth), randomness)
    {
      var c := new ClaimedSet(inst.nullDepth);
      this.inst, this.circuitId, this.namespace, this.pubkey := inst, circuitId, namespace, pubkey;
      this.account := AccountId(namespace, pubkey);
      this.balance, this.randomness, this.claimed, this.registered := 0, randomness, c, false;
      this.pending, this.receipts, this.history := None, [], [];
      this.knownRoots, this.pendingDeposits, this.sentOpenings := [], [], [];
      new;
      SubOfZeros(ClaimOf({}), inst.nullDepth, 0);
    }

    /** What the wallet's private state opens, and so what the ledger is to hold. */
    function Commitment(): (com: Fr)
      requires claimed.Valid() && claimed.depth == inst.nullDepth
      reads this, claimed
      ensures com == Acct(balance, ClaimRoot(claimed.Claimed(), inst.nullDepth), randomness)
    {
      Acct(balance, claimed.Root(), randomness)
    }

    /**
     * Prepare a send. The returned circuit satisfies the operation relation for the statement
     * now pending, so an honest wallet can always prove what it prepared.
     */
    method PrepareSend(amount: Amount, to: Fr, root: Fr, reference: Option<string>, rNew: Fr, rReceipt: Fr)
      returns (r: Result<OpWitness, Error>)
      requires Valid()
      modifies this`pending
      ensures Valid()
      ensures r.Ok? <==> old(pending.None?) && registered && amount <= balance
      ensures r.Err? ==> r.error == WalletState && pending == old(pending)
      ensures r.Ok? ==>
                && pending.Some?
                && pending.value.kind == Send(amount, to, ReceiptOpening(amount, account, to, rReceipt), reference)
                && pending.value.randomnessNew == rNew && pending.value.root == root
                && pending.value.envelope.None?
                && pending.value.receiptOut == ReceiptCommitment(ReceiptOpening(amount, account, to, rReceipt))
                && OpRelation(PendingStatement(), r.value, inst.receiptDepth, inst.nullDepth)
    {
      hide Booked, Paths.Fold, Paths.Sub;
      if pending.Some? || !registered || amount > balance {
        return Err(WalletState);
      }
      var nullRoot := claimed.Root();
      var w := OpWitness(true, balance, amount, randomness, rNew, nullRoot, to, rReceipt, 0, [], []);
      var opening := ReceiptOpening(amount, account, to, rReceipt);
      pending := Some(PendingOp(
        Send(amount, to, opening, reference), Commitment(), Acct(balance - amount, nullRoot, rNew), rNew,
        ReceiptCommitment(opening), root, None, None));
      return Ok(w);
    }

    /** The statement the pending operation will be proved for. */
    function PendingStatement(): OpStatement
      requires pending.Some?
      reads this
    {
      OpStatement(account, pending.value.comOld, pending.value.comNew, pending.value.receiptOut, pending.value.root)
    }

    /** A held receipt opens, under this path and root, to a receipt of this account. */
    predicate OpensUnder(held: HeldReceipt, served: ReceiptWitness)
      reads this
    {
      && held.opening.receiver == account
      && ReceiptCommitment(held.opening) == held.receipt
      && Fold(held.receipt, served.path.siblings, served.path.indexBits) == served.root
    }

    /**
     * Judge a held receipt by the path served for it. The verdict becomes its status, and a
     * root that it met joins the known ones unless it is there.
     */
    method VerifyReceipt(idx: nat, served: ReceiptWitness) returns (r: Result<bool, Error>)
      requires Valid()
      modifies this`receipts, this`knownRoots
      ensures Valid()
      ensures idx >= |old(receipts)| ==> r == Err(WalletState) && receipts == old(receipts)
      ensures idx < |old(receipts)| ==>
                && r == Ok(OpensUnder(old(receipts[idx]), served)
                           && old(receipts[idx]).position !in claimed.Claimed())
                && receipts == old(receipts)[idx :=
                     old(receipts[idx]).(status := if r.value then Unclaimed else Invalid)]
      ensures knownRoots == if r.Ok? && r.value && served.root !in old(knownRoots)
                            then old(knownRoots) + [served.root] else old(knownRoots)
    {
      hide Booked, Positioned, Paths.Fold, Paths.Sub;
      if idx >= |receipts| {
        return Err(WalletState);
      }
      var held := receipts[idx];
      StatusPositioned(receipts, idx, Unclaimed);
      StatusPositioned(receipts, idx, Invalid);
      var root := RootFromPath(held.receipt, served.path);
      var ok := ReceiptCommitment(held.opening) == held.receipt && held.opening.receiver == account
                && root == served.root && !claimed.Contains(held.position);
      receipts := receipts[idx := held.(status := if ok then Unclaimed else Invalid)];
      if ok && served.root !in knownRoots {
        knownRoots := knownRoots + [served.root];
      }
      return Ok(ok);
    }

    /** Record an incoming opening, once per position. */
    method AddReceipt(position: nat, opening: ReceiptOpening, reference: Option<string>) returns (idx: nat)
      requires Valid() && position < U64
      modifies this`receipts
      ensures Valid()
      ensures idx < |receipts| && receipts[idx].position == position
      ensures receipts == if Find(old(receipts), position).Some? then old(receipts)
                          else old(receipts)
                               + [HeldReceipt(position, ReceiptCommitment(opening), opening, Discovered, reference)]
    {
      match Find(receipts, position)
      case Some(i) => return i;
      case None =>
        receipts := receipts + [HeldReceipt(position, ReceiptCommitment(opening), opening, Discovered, reference)];
        return |receipts| - 1;
    }

    /** A held receipt can be claimed against `served`: it is ours, in the log, and fits the balance. */
    ghost predicate Claimable(held: HeldReceipt, served: ReceiptWitness)
      requires claimed.Valid()
      reads this, claimed
    {
      && OpensUnder(held, served)
      && held.position < Pow2(inst.receiptDepth) && held.position < Pow2(inst.nullDepth)
      && balance + held.opening.amount < U64
      && held.position !in claimed.Claimed()
    }

    /**
     * Journal a receive of the receipt at index `idx`. It is refused, and nothing changes, unless the
     * receipt is this account's, opens under the served path, lies inside the log, does not
     * overflow the balance and was not claimed before. When the served path is the one for the
     * receipt's position, the returned circuit satisfies the relation for the pending statement.
     */
    method PrepareReceive(idx: nat, served: ReceiptWitness, rNew: Fr, rDummy: Fr, dummyKind: nat)
      returns (r: Result<OpWitness, Error>)
      requires Valid() && dummyKind != SPENDABLE
      modifies this`pending, this`receipts
      ensures Valid()
      ensures r.Ok? <==>
                && old(pending.None?) && registered
                && idx < |old(receipts)| && Claimable(old(receipts[idx]), served)
      ensures r.Err? ==> r.error == WalletState && pending == old(pending) && receipts == old(receipts)
      ensures r.Ok? ==>
                && receipts == old(receipts)[idx := old(receipts[idx]).(status := Claiming)]
                && pending.Some? && PendingReceive(pending.value, old(receipts[idx]), served.root, rNew)
                && fresh(pending.value.claimedAfter.value)
                && (served.path.indexBits == Bits(old(receipts[idx]).position, inst.receiptDepth)
                    && |served.path.siblings| == inst.receiptDepth ==>
                      OpRelation(PendingStatement(), r.value, inst.receiptDepth, inst.nullDepth))
    {
      hide Booked, Positioned, Paths.Fold, Paths.Sub, Paths.Bits;
      hide OpRelation, ClaimedSets.Inserts, ClaimedSets.Level;
      if pending.Some? || !registered || idx >= |receipts| {
        return Err(WalletState);
      }
      var held := receipts[idx];
      StatusPositioned(receipts, idx, Claiming);
      var mine := CheckHeld(held, served);
      if !mine {
        return Err(WalletState);
      }
      var grown := GrowClaims(held.position);
      if grown.Err? {
        return Err(WalletState);
      }
      var (after, ins) := grown.value;
      var w := JournalReceive(held, served, rNew, rDummy, dummyKind, after, ins);
      receipts := receipts[idx := held.(status := Claiming)];
      return Ok(w);
    }

    /** The checks on a held receipt before its position is claimed. */
    method CheckHeld(held: HeldReceipt, served: ReceiptWitness) returns (ok: bool)
      ensures ok <==> && OpensUnder(held, served) && held.position < Pow2(inst.receiptDepth)
                      && balance + held.opening.amount < U64
    {
      if held.opening.receiver != account {
        return false;
      }
      var root := RootFromPath(held.receipt, served.path);
      if ReceiptCommitment(held.opening) != held.receipt || root != served.root {
        return false;
      }
      return held.position < Pow2(inst.receiptDepth) && balance + held.opening.amount < U64;
    }

    /** A copy of the claimed set with `position` added; the wallet's own set is untouched. */
    method GrowClaims(position: nat) returns (r: Result<(ClaimedSet, SmtInsertion), Error>)
      requires claimed.Valid() && claimed.depth == inst.nullDepth && position < U64
      ensures r.Ok? <==> position < Pow2(inst.nullDepth) && position !in claimed.Claimed()
      ensures r.Ok? ==>
                var (after, ins) := r.value;
                && fresh(after) && after.Valid() && after.depth == inst.nullDepth
                && after.Claimed() == claimed.Claimed() + {position}
                && Inserts(ins, claimed.Claimed(), position, inst.nullDepth)
    {
      var after := new ClaimedSet.Clone(claimed);
      var insertion := after.Insert(position);
      if insertion.Err? {
        return Err(insertion.error);
      }
      return Ok((after, insertion.value));
    }

    /** Build the circuit of a claim and make it pending. */
    method JournalReceive(held: HeldReceipt, served: ReceiptWitness, rNew: Fr, rDummy: Fr, dummyKind: nat,
                          after: ClaimedSet, ins: SmtInsertion) returns (w: OpWitness)
      requires Valid() && pending.None? && dummyKind != SPENDABLE && Claimable(held, served)
      requires after != claimed && after.Valid() && after.depth == inst.nullDepth
      requires after.Claimed() == claimed.Claimed() + {held.position}
      requires Inserts(ins, claimed.Claimed(), held.position, inst.nullDepth)
      modifies this`pending
      ensures Valid()
      ensures pending.Some? && PendingReceive(pending.value, held, served.root, rNew)
      ensures pending.value.claimedAfter == Some(after)
      ensures PathFor(served.path, held.position) ==>
                OpRelation(PendingStatement(), w, inst.receiptDepth, inst.nullDepth)
    {
      hide Booked, Positioned, Paths.Fold, Paths.Sub, Paths.Bits;
      w := OpWitness(false, balance, held.opening.amount, randomness, rNew, Zero, held.opening.sender,
                     held.opening.randomness, held.position, served.path.siblings, ins.siblings);
      pending := Some(PendingOp(
        Receive(held.position, held.opening.amount), Acct(balance, ins.oldRoot, randomness),
        Acct(balance + held.opening.amount, ins.newRoot, rNew), rNew,
        Rec(0, Zero, Zero, dummyKind, rDummy), served.root, Some(after), None));
    }

    /** The served path is the authentication path of `position`. */
    predicate PathFor(path: MerklePath, position: nat) {
      path.indexBits == Bits(position, inst.receiptDepth) && |path.siblings| == inst.receiptDepth
    }

    ghost predicate PendingReceive(p: PendingOp, held: HeldReceipt, root: Fr, rNew: Fr) {
      && p.kind == Receive(held.position, held.opening.amount) && p.claimedAfter.Some?
      && p.randomnessNew == rNew && p.root == root && p.envelope.None?
    }

    /**
     * Turn the journalled operation into its envelope and journal that too: from then on there
     * is one envelope to send, and it claims exactly the pending statement.
     */
    method ProvePending(keysCircuit: CircuitId, comNew: Fr, receiptOut: Fr, proof: Encodings.Bytes,
        signature: Encodings.Bytes)
      returns (r: Result<OpEnvelope, Error>)
      requires Valid()
      modifies this`pending
      ensures Valid()
      ensures r.Ok? <==> && old(pending).Some? && keysCircuit == circuitId
                         && comNew == old(pending).value.comNew && receiptOut == old(pending).value.receiptOut
      ensures r.Err? ==> pending == old(pending)
      ensures r.Ok? ==>
                && pending == Some(old(pending).value.(envelope := Some(r.value)))
                && Statement(r.value, r.value.com) == PendingStatement()
                && r.value.namespace == namespace && r.value.circuitId == circuitId && r.value.pubkey == pubkey
                && r.value.proof == proof && r.value.signature == signature
    {
      hide Booked;
      if pending.None? || keysCircuit != circuitId {
        return Err(WalletState);
      }
      var p := pending.value;
      if comNew != p.comNew || receiptOut != p.receiptOut {
        return Err(WalletState);
      }
      var env := OpEnvelope(namespace, circuitId, account, p.comOld, p.comNew, p.receiptOut, p.root,
                            proof, pubkey, signature);
      pending := Some(p.(envelope := Some(env)));
      return Ok(env);
    }

    /** The history entry a pending operation becomes once accepted at `position`. */
    function EntryOf(p: PendingOp, position: nat): (e: HistoryEntry)
      reads this
      ensures e.Sent? <==> p.kind.Send?
      ensures e.amount == p.kind.amount
      ensures e.position == if p.kind.Send? then position else p.kind.position
    {
      match p.kind
      case Send(amount, to, _, reference) => Sent(amount, to, position, reference)
      case Receive(from, amount) =>
        match Find(receipts, from)
        case Some(i) => Received(amount, receipts[i].opening.sender, from, receipts[i].reference)
        case None => Received(amount, Zero, from, None)
    }

    /**
     * An entry says whom an operation accepted at `position` dealt with: the addressee of a send,
     * or the sender of the held receipt a receive claimed, with the reference known for it.
     */
    ghost predicate Books(p: PendingOp, held: seq<HeldReceipt>, position: nat, e: HistoryEntry) {
      match p.kind
      case Send(amount, to, _, reference) => e == Sent(amount, to, position, reference)
      case Receive(from, amount) =>
        && e.Received? && e.amount == amount && e.position == from
        && forall i | 0 <= i < |held| && held[i].position == from ::
             e.counterparty == held[i].opening.sender && e.reference == held[i].reference
    }

    /** The entry a commit adds books its operation. */
    lemma EntryBooks(p: PendingOp, position: nat)
      requires Valid()
      ensures Books(p, receipts, position, EntryOf(p, position))
    {
      hide Booked, PendingOk;
    }

    /** Acceptance is known: the new commitment is the one opened, and the books take the entry. */
    method CommitPending(position: nat) returns (r: Result<(), Error>)
      requires Valid()
      modifies this
      ensures Valid()
      ensures r.Ok? <==> old(pending).Some?
      ensures r.Ok? ==> pending.None? && Commitment() == old(pending).value.comNew
      ensures r.Ok? ==> history == old(history) + [old(EntryOf(pending.value, position))]
      ensures r.Ok? ==> receipts == if old(pending).value.kind.Receive?
                                    then Mark(old(receipts), old(pending).value.kind.position, Claimed)
                                    else old(receipts)
      ensures r.Ok? ==> sentOpenings == if old(pending).value.kind.Send?
                                        then old(sentOpenings) + [(position, old(pending).value.kind.opening)]
                                        else old(sentOpenings)
      ensures registered == old(registered) && pendingDeposits == old(pendingDeposits)
      ensures r.Err? ==> history == old(history) && balance == old(balance) && claimed == old(claimed)
    {
      if pending.None? {
        return Err(WalletState);
      }
      hide *;
      var entry := EntryOf(pending.value, position);
      if pending.value.kind.Send? {
        CommitSend(position, entry);
      } else {
        CommitReceive(entry);
      }
      return Ok(());
    }

    method CommitSend(position: nat, entry: HistoryEntry)
      requires Valid() && pending.Some? && pending.value.kind.Send?
      requires entry.Sent? && entry.amount == pending.value.kind.amount
      modifies this`pending, this`balance, this`sentOpenings, this`history, this`randomness
      ensures Valid() && pending.None? && Commitment() == old(pending).value.comNew
      ensures history == old(history) + [entry]
      ensures sentOpenings == old(sentOpenings) + [(position, old(pending).value.kind.opening)]
    {
      hide Booked, Positioned;
      var p := pending.value;
      BookedGrows(balance, claimed.Claimed(), history, entry);
      pending := None;
      balance := balance - p.kind.amount;
      sentOpenings := sentOpenings + [(position, p.kind.opening)];
      history := history + [entry];
      randomness := p.randomnessNew;
    }

    method CommitReceive(entry: HistoryEntry)
      requires Valid() && pending.Some? && pending.value.kind.Receive?
      requires entry.Received? && entry.amount == pending.value.kind.amount
      requires entry.position == pending.value.kind.position
      modifies this`pending, this`balance, this`claimed, this`receipts, this`history, this`randomness
      ensures Valid() && pending.None? && Commitment() == old(pending).value.comNew
      ensures history == old(history) + [entry]
      ensures receipts == Mark(old(receipts), old(pending).value.kind.position, Claimed)
    {
      hide Booked, Positioned, Mark, ClaimedSets.ClaimRoot, Paths.Sub;
      var p := pending.value;
      BookedGrows(balance, claimed.Claimed(), history, entry);
      MarkPositioned(receipts, p.kind.position, Claimed);
      pending, balance, claimed := None, balance + p.kind.amount, p.claimedAfter.value;
      receipts, history := Mark(receipts, p.kind.position, Claimed), history + [entry];
      randomness := p.randomnessNew;
    }

    /** The pending operation was rejected or never sent: the wallet opens what it opened before. */
    method AbortPending()
      requires Valid()
      modifies this`pending, this`receipts
      ensures Valid() && pending.None?
      ensures receipts == if old(pending).Some? && old(pending).value.kind.Receive?
                          then Mark(old(receipts), old(pending).value.kind.position, Unclaimed) else old(receipts)
    {
      hide Booked, Positioned, Mark;
      if pending.Some? && pending.value.kind.Receive? {
        MarkPositioned(receipts, pending.value.kind.position, Unclaimed);
        receipts := Mark(receipts, pending.value.kind.position, Unclaimed);
      }
      pending := None;
    }

    /**
     * Compare the journal with the commitment read from the ledger and act on `Resolution`.
     * Except in a conflict, or when the position of an accepted operation is missing, the wallet
     * ends with nothing pending and opens what the ledger holds.
     */
    method Reconcile(ledgerCom: Fr, position: Option<nat>) returns (r: Result<Reconciled, Error>)
      requires Valid()
      modifies this
      ensures Valid()
      ensures r == Resolution(old(Journal()), ledgerCom, position.Some?)
      ensures r.Ok? && r.value != Conflict ==> pending.None? && Commitment() == ledgerCom
      ensures r == Ok(Committed) ==> history == old(history) + [old(EntryOf(pending.value, position.value))]
      ensures r != Ok(Committed) ==>
                && history == old(history) && balance == old(balance) && claimed == old(claimed)
                && randomness == old(randomness)
      ensures r.Err? || r.value == Conflict ==> pending == old(pending)
    {
      if pending.None? {
        return Ok(if ledgerCom == Commitment() then InSync else Conflict);
      }
      if ledgerCom == pending.value.comNew {
        if position.None? {
          return Err(WalletState);
        }
        var committed := CommitPending(position.value);
        return Ok(Committed);
      }
      if ledgerCom == pending.value.comOld {
        AbortPending();
        return Ok(Aborted);
      }
      return Ok(Conflict);
    }

    /** What the journal says about commitments: the one held, and the move under way. */
    function Journal(): (Fr, Option<Transition>)
      requires claimed.Valid() && claimed.depth == inst.nullDepth
      reads this, claimed
    {
      (Commitment(), if pending.None? then None else Some(Transition(pending.value.comOld, pending.value.comNew)))
    }

    /**
     * Open a receipt from the minter to this account and remember it with the intent that
     * carries it; `proof` is what the prover returns, if it succeeds. The receipt satisfies the
     * deposit relation for the amount and this account.
     */
    method PrepareDeposit(keysCircuit: CircuitId, amount: Amount, reference: Option<string>, blind: Fr,
        proof: Option<Encodings.Bytes>)
      returns (r: Result<(DepositIntent, ReceiptOpening), Error>)
      requires Valid()
      modifies this`pendingDeposits
      ensures Valid()
      ensures r.Ok? <==> keysCircuit == circuitId && proof.Some?
      ensures r.Err? ==> pendingDeposits == old(pendingDeposits)
      ensures r.Ok? ==>
                var (intent, opening) := r.value;
                && DepositRelation(amount, intent.receipt, account, blind)
                && intent.namespace == namespace && intent.circuitId == circuitId && intent.amount == amount
                && intent.proof == proof.value && ReceiptCommitment(opening) == intent.receipt
                && pendingDeposits == old(pendingDeposits) + [PendingDeposit(intent.receipt, opening, reference)]
    {
      hide Booked, Positioned;
      if keysCircuit != circuitId {
        return Err(WalletState);
      }
      var opening := ReceiptOpening(amount, MintSender, account, blind);
      var receipt := ReceiptCommitment(opening);
      if proof.None? {
        return Err(WalletState);
      }
      var intent := DepositIntent(namespace, circuitId, amount, receipt, proof.value);
      pendingDeposits := pendingDeposits + [PendingDeposit(receipt, opening, reference)];
      return Ok((intent, opening));
    }

    /** The first waiting deposit with this receipt moves to the held receipts. */
    method DepositMinted(receipt: Fr, position: nat) returns (idx: Option<nat>)
      requires Valid() && position < U64
      modifies this`receipts, this`pendingDeposits
      ensures Valid()
      ensures idx.None? <==> forall d | d in old(pendingDeposits) :: d.receipt != receipt
      ensures idx.None? ==> receipts == old(receipts) && pendingDeposits == old(pendingDeposits)
      ensures idx.Some? ==>
                && idx.value < |receipts| && receipts[idx.value].position == position
                && old(receipts) <= receipts
                && exists i | 0 <= i < |old(pendingDeposits)| ::
                     var d := old(pendingDeposits)[i];
                     && d.receipt == receipt && (forall k | 0 <= k < i :: old(pendingDeposits)[k].receipt != receipt)
                     && pendingDeposits == old(pendingDeposits)[..i] + old(pendingDeposits)[i + 1..]
                     && receipts == if exists k :: 0 <= k < |old(receipts)| && old(receipts)[k].position == position
                                    then old(receipts)
                                    else old(receipts) + [HeldReceipt(position,
                                           Rec(d.opening.amount, d.opening.sender, d.opening.receiver, 1,
                                               d.opening.randomness),
                                           d.opening, Discovered, d.reference)]
    {
      hide Booked;
      for i := 0 to |pendingDeposits|
        invariant forall k | 0 <= k < i :: pendingDeposits[k].receipt != receipt
        invariant Valid() && receipts == old(receipts) && pendingDeposits == old(pendingDeposits)
      {
        if pendingDeposits[i].receipt == receipt {
          var d := pendingDeposits[i];
          pendingDeposits := pendingDeposits[..i] + pendingDeposits[i + 1..];
          var at := AddReceipt(position, d.opening, d.reference);
          return Some(at);
        }
      }
      return None;
    }
  }

  // ---- what a verified receipt is known to be -----------------------------------

  /** The receipt is the wallet's own and its opening is right, wherever it lies. */
  ghost predicate Owns(w: Wallet, held: HeldReceipt) {
    held.opening.receiver == w.account && ReceiptCommitment(held.opening) == held.receipt
  }

  /**
   * A path of full length for position `q` verifies a receipt under a log's root exactly when
   * it is the log's own path there and the receipt is the one appended at `q`. The position the
   * receipt is held for plays no part.
   */
  lemma OpensIff(w: Wallet, held: HeldReceipt, served: ReceiptWitness, leaves: seq<Fr>, q: nat)
    requires served.root == ReceiptTrees.RootOf(leaves, w.inst.receiptDepth)
    requires |served.path.siblings| == w.inst.receiptDepth && q < Pow2(w.inst.receiptDepth)
    requires served.path.indexBits == Bits(q, w.inst.receiptDepth)
    ensures w.OpensUnder(held, served)
            <==> && Owns(w, held) && q < |leaves| && leaves[q] == held.receipt
                 && served.path.siblings == SiblingsOf(ReceiptTrees.LeafOf(leaves), 0, q, w.inst.receiptDepth)
  {
    hide Fold;
    if Owns(w, held) {
      ReceiptTrees.ReceiptPathIff(leaves, w.inst.receiptDepth, q, held.receipt, served.path.siblings);
    }
  }

  /** So with the bits of the held position, a verified receipt is the one the log has there. */
  lemma OpensAtPosition(w: Wallet, held: HeldReceipt, served: ReceiptWitness, leaves: seq<Fr>)
    requires served.root == ReceiptTrees.RootOf(leaves, w.inst.receiptDepth) && w.OpensUnder(held, served)
    requires |served.path.siblings| == w.inst.receiptDepth && held.position < Pow2(w.inst.receiptDepth)
    requires served.path.indexBits == Bits(held.position, w.inst.receiptDepth)
    ensures held.position < |leaves| && leaves[held.position] == held.receipt
  {
    OpensIff(w, held, served, leaves, held.position);
  }

  /** And without them a receipt appended at `q` verifies as one held for any other position. */
  lemma OpensElsewhere(w: Wallet, held: HeldReceipt, leaves: seq<Fr>, q: nat)
    requires Owns(w, held) && q < |leaves| <= Pow2(w.inst.receiptDepth) && leaves[q] == held.receipt
    ensures var d := w.inst.receiptDepth;
            var path := MerklePath(SiblingsOf(ReceiptTrees.LeafOf(leaves), 0, q, d), Bits(q, d));
            forall p :: w.OpensUnder(held.(position := p), ReceiptWitness(path, ReceiptTrees.RootOf(leaves, d)))
  {
    var d := w.inst.receiptDepth;
    var path := MerklePath(SiblingsOf(ReceiptTrees.LeafOf(leaves), 0, q, d), Bits(q, d));
    OpensIff(w, held, ReceiptWitness(path, ReceiptTrees.RootOf(leaves, d)), leaves, q);
  }

  /** A move of the account's commitment. */
  datatype Transition = Transition(from: Fr, to: Fr)

  /** How a wallet reads the ledger's commitment against its own journal. */
  function Resolution(journal: (Fr, Option<Transition>), ledgerCom: Fr, positionKnown: bool)
    : Result<Reconciled, Error>
  {
    match journal.1
    case None => Ok(if ledgerCom == journal.0 then InSync else Conflict)
    case Some(t) =>
      if ledgerCom == t.to then (if positionKnown then Ok(Committed) else Err(WalletState))
      else if ledgerCom == t.from then Ok(Aborted)
      else Ok(Conflict)
  }
}
