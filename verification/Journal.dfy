/**
 * The journal against the network: one device, one account, any number of copies of its
 * envelopes in flight, and a crash at any point.
 *
 * The wallet's side is its persisted journal (`Wallets.Wallet.Journal`), so a crash between
 * two steps loses nothing and needs no step of its own; its methods are proved to be the
 * events (`Prepares`, `Acknowledges`, `Abandons`, `Settles`). The ledger's side is the one
 * commitment it holds for the account; `DeliverIsStep` says it moves as the ledger's own step.
 */
module Journals {
  import opened Base
  import opened Digests
  import Relations
  import opened Wallets
  import LedgerModel

  /** `used` collects every commitment this account ever prepared or held. */
  datatype System = System(
    com: Fr, pending: Option<Transition>, ledger: Fr, flight: set<Transition>, used: set<Fr>)

  datatype Event =
    | Prepare(to: Fr)                 // journal a move to a fresh commitment
    | Submit                          // put a copy of the pending envelope on the network
    | Deliver(t: Transition)          // the ledger judges a copy; it may arrive again
    | Refuse(t: Transition)           // the ledger turns a copy down for another reason
    | Lose(t: Transition)             // a copy vanishes
    | Abandon                         // the wallet is answered with an error and aborts
    | Acknowledge                     // the wallet learns of the acceptance and commits
    | Settle                          // the wallet reads the ledger's commitment and reconciles

  function Start(com: Fr): System {
    System(com, None, com, {}, {com})
  }

  /**
   * When an event can happen. An error answer says nothing about the copies in flight, since a
   * submitter is also refused when only its own deadline passed; and the wallet may settle at
   * any time.
   */
  predicate Enabled(s: System, e: Event) {
    match e
    case Prepare(to) => s.pending.None? && to !in s.used
    case Submit => s.pending.Some?
    case Deliver(t) => t in s.flight
    case Refuse(t) => t in s.flight
    case Lose(t) => t in s.flight
    case Abandon => s.pending.Some?
    case Acknowledge => s.pending.Some? && s.ledger == s.pending.value.to
    case Settle => true
  }

  /**
   * What a wallet may do and stay safe: abort, in whichever way, only an operation that the
   * ledger has not accepted and of which no copy is in flight.
   */
  predicate Prudent(s: System, e: Event) {
    match e
    case Abandon => s.ledger == s.com && s.pending.Some? && s.pending.value !in s.flight
    case Settle => s.pending.Some? && s.ledger == s.com ==> s.pending.value !in s.flight
    case _ => true
  }

  /** The wallet after reading `ledger`, by the resolution its `Reconcile` is proved to follow. */
  function Reconciled(s: System): System {
    match Resolution((s.com, s.pending), s.ledger, true)
    case Ok(Committed) => s.(com := s.pending.value.to, pending := None)
    case Ok(Aborted) => s.(pending := None)
    case _ => s
  }

  function Next(s: System, e: Event): System
    requires Enabled(s, e)
  {
    match e
    case Prepare(to) => s.(pending := Some(Transition(s.com, to)), used := s.used + {to})
    case Submit => s.(flight := s.flight + {s.pending.value})
    case Deliver(t) => if s.ledger == t.from then s.(ledger := t.to) else s
    case Refuse(t) => s
    case Lose(t) => s.(flight := s.flight - {t})
    case Abandon => s.(pending := None)
    case Acknowledge => s.(com := s.pending.value.to, pending := None)
    case Settle => Reconciled(s)
  }

  /** The events happen in order, each when it can. */
  ghost predicate Happens(com: Fr, events: seq<Event>)
    decreases |events|, 0
  {
    events == [] ||
    (Happens(com, events[..|events| - 1])
     && Enabled(After(com, events[..|events| - 1]), events[|events| - 1]))
  }

  ghost function After(com: Fr, events: seq<Event>): System
    requires Happens(com, events)
    decreases |events|, 1
  {
    if events == [] then Start(com)
    else Next(After(com, events[..|events| - 1]), events[|events| - 1])
  }

  /** A copy that can still move the ledger is a copy of what is pending. */
  ghost predicate Dead(s: System, t: Transition) {
    t.from != s.ledger && t.from != s.com && (s.pending.Some? ==> t.from != s.pending.value.to)
  }

  /**
   * The ledger holds what the wallet opens or what its pending operation moves to, and every
   * other copy in flight starts from a commitment that can never come back.
   */
  ghost predicate Safe(s: System) {
    && (s.pending.None? ==> s.ledger == s.com)
    && (s.pending.Some? ==>
          && s.pending.value.from == s.com != s.pending.value.to
          && s.ledger in {s.com, s.pending.value.to})
    && (forall t | t in s.flight :: s.pending == Some(t) || Dead(s, t))
    && {s.com, s.ledger} <= s.used
    && (s.pending.Some? ==> s.pending.value.to in s.used)
    && (forall t | t in s.flight :: t.from in s.used && t.to in s.used)
  }

  /** Safety is kept by exactly the prudent events. */
  lemma NextSafeIff(s: System, e: Event)
    requires Safe(s) && Enabled(s, e)
    ensures Safe(Next(s, e)) <==> Prudent(s, e)
  {
    if (e.Abandon? || e.Settle?) && s.pending.Some? {
      AbortSafeIff(s);
    }
  }

  /** Dropping a pending operation is safe exactly when the ledger can no longer accept it. */
  lemma AbortSafeIff(s: System)
    requires Safe(s) && s.pending.Some?
    ensures Safe(s.(pending := None)) <==> s.ledger == s.com && s.pending.value !in s.flight
  {
    var t := s.(pending := None);
    assert s.pending.value in t.flight ==> !Dead(t, s.pending.value) || t.ledger != t.com;
  }

  /** The wallet's journal and the ledger's commitment contradict each other. */
  predicate InConflict(s: System) {
    Resolution((s.com, s.pending), s.ledger, true) == Ok(Conflict)
  }

  /** A safe wallet is in conflict with nothing. */
  lemma SafeAgrees(s: System)
    requires Safe(s)
    ensures !InConflict(s)
  {
  }

  /** Every event was prudent when it happened. */
  ghost predicate AllPrudent(com: Fr, events: seq<Event>)
    requires Happens(com, events)
    decreases |events|
  {
    events == [] ||
    (AllPrudent(com, events[..|events| - 1])
     && Prudent(After(com, events[..|events| - 1]), events[|events| - 1]))
  }

  /**
   * At every point of every run of prudent events, crash or not, the journal explains the
   * ledger's commitment, and reconciling finds no conflict.
   */
  lemma {:induction false} AlwaysSafe(com: Fr, events: seq<Event>)
    requires Happens(com, events) && AllPrudent(com, events)
    ensures Safe(After(com, events)) && !InConflict(After(com, events))
  {
    if events != [] {
      AlwaysSafe(com, events[..|events| - 1]);
      NextSafeIff(After(com, events[..|events| - 1]), events[|events| - 1]);
    }
    SafeAgrees(After(com, events));
  }

  /** Safe at the end and at every point before. */
  ghost predicate SafeThroughout(com: Fr, events: seq<Event>)
    requires Happens(com, events)
    decreases |events|
  {
    Safe(After(com, events)) && (events == [] || SafeThroughout(com, events[..|events| - 1]))
  }

  /** A run is safe throughout exactly when its every event was prudent. */
  lemma {:induction false} RunSafeIff(com: Fr, events: seq<Event>)
    requires Happens(com, events)
    ensures AllPrudent(com, events) <==> SafeThroughout(com, events)
  {
    hide Safe, Prudent, Next, Enabled;
    if events != [] {
      var init := events[..|events| - 1];
      RunSafeIff(com, init);
      if AllPrudent(com, init) {
        AlwaysSafe(com, init);
        NextSafeIff(After(com, init), events[|events| - 1]);
      }
    } else {
      StartSafe(com);
    }
  }

  lemma StartSafe(com: Fr)
    ensures Safe(Start(com))
  {
  }

  /** Once nothing is in flight, reconciling ends in agreement. */
  lemma SettleAgrees(com: Fr, events: seq<Event>)
    requires Happens(com, events) && AllPrudent(com, events) && After(com, events).flight == {}
    ensures var s := After(com, events);
            && Prudent(s, Settle)
            && Reconciled(s).pending.None? && Reconciled(s).com == Reconciled(s).ledger == s.ledger
  {
    AlwaysSafe(com, events);
  }

  /**
   * Prudence is exactly what it takes: after an event that was not prudent the wallet is in
   * conflict at once, or as soon as the copy still in flight lands.
   */
  lemma ImprudentConflicts(s: System, e: Event)
    requires Safe(s) && Enabled(s, e) && !Prudent(s, e)
    ensures s.pending.Some?
    ensures var u, t := Next(s, e), s.pending.value;
            InConflict(u) || (Enabled(u, Deliver(t)) && InConflict(Next(u, Deliver(t))))
  {
  }

  /** The runs that show it: a submitter that times out aborts, and one that reconciles too early. */
  lemma EarlyAbortConflicts(com: Fr, to: Fr, e: Event)
    requires com != to && e in {Abandon, Settle}
    ensures var run := [Prepare(to), Submit, e, Deliver(Transition(com, to))];
            Happens(com, run) && InConflict(After(com, run))
  {
    var run := [Prepare(to), Submit, e, Deliver(Transition(com, to))];
    assert run[..0] == [] && run[..4] == run;
    assert run[..1][..0] == [] && run[..2][..1] == run[..1] && run[..3][..2] == run[..2];
    assert Happens(com, []) && After(com, []) == Start(com);
    assert Happens(com, run[..1]) && After(com, run[..1]) == Next(Start(com), Prepare(to));
    assert Happens(com, run[..2]) && After(com, run[..2]) == Next(After(com, run[..1]), Submit);
    assert Happens(com, run[..3]) && After(com, run[..3]) == Next(After(com, run[..2]), e);
  }

  // ---- the network ------------------------------------------------------------

  /** A copy of `t` was put on the network and none was lost since. */
  ghost predicate Underway(com: Fr, events: seq<Event>, t: Transition)
    requires Happens(com, events)
    decreases |events|
  {
    events != [] &&
    (var n := |events| - 1;
     if events[n] == Lose(t) then false
     else Underway(com, events[..n], t) || (events[n].Submit? && After(com, events[..n]).pending == Some(t)))
  }

  /** Copies come from submissions and go only by being lost; nothing else touches them. */
  lemma {:induction false} FlightIs(com: Fr, events: seq<Event>, t: Transition)
    requires Happens(com, events)
    ensures t in After(com, events).flight <==> Underway(com, events, t)
  {
    if events != [] {
      FlightIs(com, events[..|events| - 1], t);
    }
  }

  // ---- the wallet's side --------------------------------------------------------

  /** The system's wallet is `w`: it opens `com` and journals `pending`. */
  ghost predicate Keeps(w: Wallet, s: System)
    reads w, w.Sets()
  {
    w.Valid() && w.Journal() == (s.com, s.pending)
  }

  /** Preparing a send that is not refused is the event of preparing, to a commitment drawn afresh. */
  method Prepares(w: Wallet, amount: Relations.Amount, to: Fr, root: Fr, rNew: Fr, rReceipt: Fr, ghost s: System)
    returns (r: Result<Relations.OpWitness, Error>)
    requires Keeps(w, s) && forall x | x in s.used && x.Acct? :: x.randomness != rNew
    modifies w`pending
    ensures r.Err? ==> Keeps(w, s)
    ensures r.Ok? ==> && w.pending.Some? && Enabled(s, Prepare(w.pending.value.comNew))
                      && Keeps(w, Next(s, Prepare(w.pending.value.comNew)))
  {
    hide Enabled, Next;
    r := w.PrepareSend(amount, to, root, None, rNew, rReceipt);
    if r.Ok? {
      PreparedFresh(s, w.pending.value.comNew, rNew);
    }
  }

  /** So is preparing a receive. */
  method PreparesReceive(w: Wallet, idx: nat, served: ReceiptWitness, rNew: Fr, rDummy: Fr, dummyKind: nat,
      ghost s: System) returns (r: Result<Relations.OpWitness, Error>)
    requires Keeps(w, s) && dummyKind != SPENDABLE && forall x | x in s.used && x.Acct? :: x.randomness != rNew
    modifies w`pending, w`receipts
    ensures r.Err? ==> Keeps(w, s)
    ensures r.Ok? ==> && w.pending.Some? && Enabled(s, Prepare(w.pending.value.comNew))
                      && Keeps(w, Next(s, Prepare(w.pending.value.comNew)))
  {
    hide Enabled, Next;
    r := w.PrepareReceive(idx, served, rNew, rDummy, dummyKind);
    if r.Ok? {
      PreparedFresh(s, w.pending.value.comNew, rNew);
    }
  }

  lemma PreparedFresh(s: System, to: Fr, rNew: Fr)
    requires s.pending.None? && to.Acct? && to.randomness == rNew
    requires forall x | x in s.used && x.Acct? :: x.randomness != rNew
    ensures Enabled(s, Prepare(to))
    ensures Next(s, Prepare(to)).com == s.com && Next(s, Prepare(to)).pending == Some(Transition(s.com, to))
  {
  }

  /** Committing is the event of learning of the acceptance. */
  method Acknowledges(w: Wallet, position: nat, ghost s: System)
    requires Keeps(w, s) && Enabled(s, Acknowledge)
    modifies w
    ensures Keeps(w, Next(s, Acknowledge))
  {
    var committed := w.CommitPending(position);
  }

  /** Aborting is the event of giving up, whatever was answered. */
  method Abandons(w: Wallet, ghost s: System)
    requires Keeps(w, s) && Enabled(s, Abandon)
    modifies w
    ensures Keeps(w, Next(s, Abandon))
  {
    w.AbortPending();
  }

  /** Reconciling against the ledger's commitment is the event of settling, in a conflict too. */
  method Settles(w: Wallet, position: nat, ghost s: System, com: Fr)
    returns (r: Result<Wallets.Reconciled, Error>)
    requires Keeps(w, s) && com == s.ledger
    modifies w
    ensures Keeps(w, Next(s, Settle))
    ensures r == Ok(Conflict) <==> InConflict(s)
  {
    r := w.Reconcile(com, Some(position));
  }

  // ---- the ledger's side ------------------------------------------------------

  /**
   * A step of the ledger leaves an account's commitment alone or is an operation of that
   * account, from the commitment it holds to the one the operation names.
   */
  lemma StepMoves(cfg: LedgerModel.Config, s: LedgerModel.Store, env: LedgerModel.Envelope, account: Fr)
    requires account in s.accounts
    ensures var (r, t) := LedgerModel.Step(cfg, s, env);
            && account in t.accounts
            && (t.accounts[account].com == s.accounts[account].com
                || (r.Ok? && env.Op? && env.op.account == account
                    && s.accounts[account].com == env.op.com && t.accounts[account].com == env.op.comNew))
            && (r.Ok? && env.Op? && env.op.account == account ==>
                  s.accounts[account].com == env.op.com && t.accounts[account].com == env.op.comNew)
  {
    hide LedgerModel.Window;
  }

  /** Judging a copy of an envelope in flight is its delivery or its refusal. */
  lemma DeliverIsStep(cfg: LedgerModel.Config, store: LedgerModel.Store, s: System, env: LedgerModel.OpEnvelope)
    requires env.account in store.accounts && store.accounts[env.account].com == s.ledger
    requires Transition(env.com, env.comNew) in s.flight
    ensures var (r, after) := LedgerModel.Step(cfg, store, LedgerModel.Op(env));
            var t := Transition(env.com, env.comNew);
            && env.account in after.accounts
            && after.accounts[env.account].com == Next(s, if r.Ok? then Deliver(t) else Refuse(t)).ledger
  {
    hide LedgerModel.Step;
    StepMoves(cfg, store, LedgerModel.Op(env), env.account);
    LedgerModel.StepRow(cfg, store, LedgerModel.Op(env));
  }
}
