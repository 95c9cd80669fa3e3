/**
 * What the ledger accepts and what its tables then hold, in terms of the envelopes alone: when
 * one envelope is accepted, when a whole history replays, and what an accepted history says.
 */
module Acceptances {
  import opened Base
  import opened Digests
  import Paths
  import ReceiptTrees
  import Relations
  import opened LedgerModel

  // ---- one envelope -----------------------------------------------------------

  /** The root the log had at one of its last sizes: the present one, and those the window reaches back to. */
  ghost predicate RootKept(cfg: Config, receipts: seq<Fr>, root: Fr) {
    exists n: nat | n <= |receipts| ::
      (n == |receipts| || |receipts| < n + cfg.rootWindow)
      && root == ReceiptTrees.RootOf(receipts[..n], cfg.inst.receiptDepth)
  }

  /** The key the account derives from signed the operation. */
  predicate OpAuthorized(cfg: Config, env: OpEnvelope) {
    AccountId(env.namespace, env.pubkey) == env.account && cfg.crypto.opSigned(env)
  }

  /** The proof decodes and verifies for what the operation claims. */
  predicate OpProved(cfg: Config, env: OpEnvelope) {
    && cfg.crypto.decodeProof(env.proof).Ok?
    && cfg.crypto.verifyOp(cfg.crypto.decodeProof(env.proof).value,
         Relations.OpStatement(env.account, env.com, env.comNew, env.receipt, env.root))
  }

  predicate MintProved(cfg: Config, intent: DepositIntent) {
    && cfg.crypto.decodeProof(intent.proof).Ok?
    && cfg.crypto.verifyDeposit(cfg.crypto.decodeProof(intent.proof).value, intent.amount, intent.receipt)
  }

  lemma RecentIsKept(cfg: Config, s: Store, root: Fr)
    ensures RootIsRecent(cfg, s, root) <==> RootKept(cfg, s.receipts, root)
  {
    hide ReceiptTrees.RootOf;
    var w, from := Window(cfg, s.receipts), WindowFrom(cfg, |s.receipts|);
    if RootIsRecent(cfg, s, root) {
      var i :| 0 <= i < |w| && w[i] == root;
      assert s.receipts[..from + i] == s.receipts[..(from + i) as nat];
    }
    if RootKept(cfg, s.receipts, root) {
      var n: nat :| n <= |s.receipts| && (n == |s.receipts| || |s.receipts| < n + cfg.rootWindow)
                    && root == ReceiptTrees.RootOf(s.receipts[..n], cfg.inst.receiptDepth);
      assert w[n - from] == root;
    }
  }

  /**
   * An operation is accepted exactly when it is for this ledger and circuit, signed by the key
   * its account derives from, proved, spends the commitment its account stands at, shows the
   * root of a recent log, and the log has room.
   */
  lemma OpAcceptedIff(cfg: Config, s: Store, env: OpEnvelope)
    ensures Step(cfg, s, Op(env)).0.Ok?
            <==> && env.namespace == cfg.namespace && env.circuitId == cfg.circuitId
                 && OpAuthorized(cfg, env) && OpProved(cfg, env)
                 && env.account in s.accounts && s.accounts[env.account].com == env.com
                 && RootKept(cfg, s.receipts, env.root)
                 && |s.receipts| < Pow2(cfg.inst.receiptDepth)
  {
    hide ReceiptTrees.RootOf, Window, RootKept;
    RecentIsKept(cfg, s, env.root);
  }

  /** A refused operation is told the first of these that it fails. */
  lemma OpRefusal(cfg: Config, s: Store, env: OpEnvelope)
    requires Step(cfg, s, Op(env)).0.Err?
    ensures Step(cfg, s, Op(env)).0.error
            == if env.namespace != cfg.namespace then WrongNamespace
               else if env.circuitId != cfg.circuitId then Wire
               else if !OpAuthorized(cfg, env) then BadSignature
               else if cfg.crypto.decodeProof(env.proof).Err? then cfg.crypto.decodeProof(env.proof).error
               else if env.account !in s.accounts then UnknownAccount
               else if s.accounts[env.account].com != env.com then StaleCommitment
               else if !RootKept(cfg, s.receipts, env.root) then RootNotRecent
               else if !OpProved(cfg, env) then InvalidProof else ReceiptLogFull
  {
    hide ReceiptTrees.RootOf, Window, RootKept;
    RecentIsKept(cfg, s, env.root);
  }

  /** A registration is accepted exactly when it is for this ledger, signed, and its key is new here. */
  lemma RegisterAcceptedIff(cfg: Config, s: Store, env: RegisterEnvelope)
    ensures var r := Step(cfg, s, Register(env)).0;
            && (r.Ok? <==> && env.namespace == cfg.namespace && cfg.crypto.registerSigned(env)
                           && AccountId(env.namespace, env.pubkey) !in s.accounts)
            && (r.Err? ==> r.error == if env.namespace != cfg.namespace then WrongNamespace
                                      else if !cfg.crypto.registerSigned(env) then BadSignature else AccountExists)
  {
  }

  /**
   * A mint is accepted exactly when it is for this ledger and circuit, its deposit was not
   * credited before and has a proper id, its proof shows the amount, and the log has room.
   */
  lemma MintAcceptedIff(cfg: Config, s: Store, env: MintEnvelope)
    ensures Step(cfg, s, Mint(env)).0.Ok?
            <==> && env.intent.namespace == cfg.namespace && env.intent.circuitId == cfg.circuitId
                 && 0 < |env.depositId| <= 200 && env.depositId !in s.deposits
                 && MintProved(cfg, env.intent) && |s.receipts| < Pow2(cfg.inst.receiptDepth)
  {
  }

  /** A refused mint is told the first of these that it fails. */
  lemma MintRefusal(cfg: Config, s: Store, env: MintEnvelope)
    requires Step(cfg, s, Mint(env)).0.Err?
    ensures Step(cfg, s, Mint(env)).0.error
            == if env.intent.namespace != cfg.namespace then WrongNamespace
               else if env.intent.circuitId != cfg.circuitId || !(0 < |env.depositId| <= 200) then Wire
               else if env.depositId in s.deposits then Storage
               else if cfg.crypto.decodeProof(env.intent.proof).Err? then cfg.crypto.decodeProof(env.intent.proof).error
               else if !MintProved(cfg, env.intent) then InvalidProof else ReceiptLogFull
  {
  }

  /** What an accepted envelope is answered: its number, its place in the log, and the roots it leads to. */
  lemma AnswerTells(cfg: Config, s: Store, env: Envelope)
    requires Step(cfg, s, env).0.Ok?
    ensures var (r, t) := Step(cfg, s, env);
            && r.value.seqNo == SeqOf(s) + 1
            && r.value.position == (if env.Register? then 0xFFFF_FFFF_FFFF_FFFF else |s.receipts|)
            && r.value.receiptRoot == ReceiptTrees.RootOf(t.receipts, cfg.inst.receiptDepth)
            && r.value.stateRoot == t.ops[|t.ops| - 1].stateRoot
  {
    hide ReceiptTrees.RootOf, Window;
  }

  // ---- a history in plain terms -------------------------------------------------

  /** The receipts a history appends, in order. */
  function Logged(rows: seq<OpRow>): seq<Fr> {
    if rows == [] then []
    else
      var n := |rows| - 1;
      Logged(rows[..n]) + match rows[n].envelope
                          case Register(_) => []
                          case Op(e) => [e.receipt]
                          case Mint(e) => [e.intent.receipt]
  }

  /** The account a row is about. */
  function AccountOf(env: Envelope): Fr {
    match env
    case Register(e) => AccountId(e.namespace, e.pubkey)
    case Op(e) => e.account
    case Mint(_) => MintSender
  }

  /** An account after a history: as its registration left it, then as its operations moved it. */
  function Holding(cfg: Config, rows: seq<OpRow>, account: Fr): Option<Account> {
    if rows == [] then None
    else
      var n := |rows| - 1;
      var before := Holding(cfg, rows[..n], account);
      match rows[n].envelope
      case Register(e) =>
        if AccountId(e.namespace, e.pubkey) != account then before
        else Some(Account(e.pubkey, Acct(0, Paths.ZeroRoot(cfg.inst.nullDepth), e.randomness), n + 1, n + 1))
      case Op(e) =>
        if e.account != account || before.None? then before
        else Some(before.value.(com := e.comNew, updated := n + 1))
      case Mint(_) => before
  }

  /** What a history credits to a deposit id. */
  function Credit(rows: seq<OpRow>, id: string): Option<Deposit> {
    if rows == [] then None
    else
      var n := |rows| - 1;
      if rows[n].envelope.Mint? && rows[n].envelope.mint.depositId == id
      then Some(Deposit(rows[n].envelope.mint.intent.receipt, rows[n].envelope.mint.intent.amount, n + 1))
      else Credit(rows[..n], id)
  }

  /** The row after `rows` may be about `env`: everything a ledger of that history demands of it. */
  ghost predicate Due(cfg: Config, rows: seq<OpRow>, env: Envelope) {
    match env
    case Register(e) =>
      && e.namespace == cfg.namespace && cfg.crypto.registerSigned(e)
      && Holding(cfg, rows, AccountId(e.namespace, e.pubkey)).None?
    case Op(e) =>
      && e.namespace == cfg.namespace && e.circuitId == cfg.circuitId && OpAuthorized(cfg, e) && OpProved(cfg, e)
      && Holding(cfg, rows, e.account).Some? && Holding(cfg, rows, e.account).value.com == e.com
      && RootKept(cfg, Logged(rows), e.root) && |Logged(rows)| < Pow2(cfg.inst.receiptDepth)
    case Mint(e) =>
      && e.intent.namespace == cfg.namespace && e.intent.circuitId == cfg.circuitId
      && 0 < |e.depositId| <= 200 && Credit(rows, e.depositId).None?
      && MintProved(cfg, e.intent) && |Logged(rows)| < Pow2(cfg.inst.receiptDepth)
  }

  /** The tables hold exactly what a history says. */
  ghost predicate Tells(cfg: Config, rows: seq<OpRow>, s: Store) {
    && s.receipts == Logged(rows) && SeqOf(s) == |rows|
    && (forall a :: Holding(cfg, rows, a) == if a in s.accounts then Some(s.accounts[a]) else None)
    && (forall id :: Credit(rows, id) == if id in s.deposits then Some(s.deposits[id]) else None)
  }

  /** A ledger of some history accepts exactly what is due next. */
  lemma AcceptsDue(cfg: Config, rows: seq<OpRow>, s: Store, env: Envelope)
    requires Tells(cfg, rows, s)
    ensures Step(cfg, s, env).0.Ok? <==> Due(cfg, rows, env)
  {
    hide Step, RootKept;
    match env
    case Register(e) => RegisterAcceptedIff(cfg, s, e);
    case Op(e) => OpAcceptedIff(cfg, s, e);
    case Mint(e) => MintAcceptedIff(cfg, s, e);
  }

  /** What a step does to the tables a history tells of. */
  lemma StepTables(cfg: Config, s: Store, env: Envelope)
    requires Step(cfg, s, env).0.Ok?
    ensures var t := Step(cfg, s, env).1;
            && SeqOf(t) == SeqOf(s) + 1
            && t.receipts == s.receipts + (match env
                                           case Register(_) => []
                                           case Op(e) => [e.receipt]
                                           case Mint(e) => [e.intent.receipt])
            && t.accounts == (match env
                              case Register(e) =>
                                s.accounts[AccountId(e.namespace, e.pubkey) :=
                                  Account(e.pubkey, Acct(0, Paths.ZeroRoot(cfg.inst.nullDepth), e.randomness),
                                          SeqOf(s) + 1, SeqOf(s) + 1)]
                              case Op(e) =>
                                if e.account !in s.accounts then s.accounts
                                else
                                  var before := s.accounts[e.account];
                                  s.accounts[e.account := before.(com := e.comNew, updated := SeqOf(s) + 1)]
                              case Mint(_) => s.accounts)
            && t.deposits == (match env
                              case Mint(e) =>
                                s.deposits[e.depositId := Deposit(e.intent.receipt, e.intent.amount, SeqOf(s) + 1)]
                              case _ => s.deposits)
  {
    hide ReceiptTrees.RootOf, Window;
  }

  lemma TellsNext(cfg: Config, rows: seq<OpRow>, s: Store, row: OpRow)
    requires Tells(cfg, rows, s) && Step(cfg, s, row.envelope).0.Ok?
    ensures Tells(cfg, rows + [row], Step(cfg, s, row.envelope).1)
  {
    hide Step;
    StepTables(cfg, s, row.envelope);
    assert (rows + [row])[..|rows|] == rows;
  }

  /** Every row is numbered by its place, and about something due there. */
  ghost predicate AllDue(cfg: Config, rows: seq<OpRow>) {
    forall i | 0 <= i < |rows| :: rows[i].seqNo == i + 1 && Due(cfg, rows[..i], rows[i].envelope)
  }

  /**
   * Which histories replay, without replaying them: exactly those whose every row is numbered by
   * its place, authorized, proved, and due after the rows before it. The tables then hold
   * exactly what the rows say.
   */
  lemma {:induction false} ReplaysIff(cfg: Config, rows: seq<OpRow>)
    ensures Replay(cfg, rows).Some? <==> AllDue(cfg, rows)
    ensures Replay(cfg, rows).Some? ==> Tells(cfg, rows, Replay(cfg, rows).value)
  {
    hide Step, Due, Tells;
    if rows == [] {
      TellsNothing(cfg);
    } else {
      var n := |rows| - 1;
      ReplaysIff(cfg, rows[..n]);
      assert rows == rows[..n] + [rows[n]];
      AllDueGrows(cfg, rows);
      if Replay(cfg, rows[..n]).Some? {
        var s := Replay(cfg, rows[..n]).value;
        AcceptsDue(cfg, rows[..n], s, rows[n].envelope);
        TellsSize(cfg, rows[..n], s);
        StepRow(cfg, s, rows[n].envelope);
        if Step(cfg, s, rows[n].envelope).0.Ok? {
          TellsNext(cfg, rows[..n], s, rows[n]);
        }
      }
    }
  }

  lemma TellsNothing(cfg: Config)
    ensures Tells(cfg, [], EmptyStore(cfg))
  {
  }

  lemma TellsSize(cfg: Config, rows: seq<OpRow>, s: Store)
    requires Tells(cfg, rows, s)
    ensures SeqOf(s) == |rows|
  {
  }

  lemma AllDueGrows(cfg: Config, rows: seq<OpRow>)
    requires rows != []
    ensures var n := |rows| - 1;
            AllDue(cfg, rows)
            <==> AllDue(cfg, rows[..n]) && rows[n].seqNo == n + 1 && Due(cfg, rows[..n], rows[n].envelope)
  {
    hide Due;
    var n := |rows| - 1;
    forall i | 0 <= i < n
      ensures rows[..n][i] == rows[i] && rows[..n][..i] == rows[..i]
    {
    }
  }

  // ---- what a recorded row says ---------------------------------------------------

  /** The link a row adds to the chain of state roots. */
  function LinkAfter(cfg: Config, rows: seq<OpRow>, env: Envelope): StateRoot {
    var prev := if rows == [] then Genesis(cfg.namespace, cfg.circuitId) else rows[|rows| - 1].stateRoot;
    var n := |rows| + 1;
    match env
    case Register(e) =>
      Chain(prev, n, KindRegister, AccountId(e.namespace, e.pubkey),
            Acct(0, Paths.ZeroRoot(cfg.inst.nullDepth), e.randomness), Num(0),
            ReceiptTrees.RootOf(Logged(rows), cfg.inst.receiptDepth))
    case Op(e) =>
      Chain(prev, n, KindOp, e.account, e.comNew, e.receipt,
            ReceiptTrees.RootOf(Logged(rows) + [e.receipt], cfg.inst.receiptDepth))
    case Mint(e) =>
      Chain(prev, n, KindMint, MintSender, Num(e.intent.amount), e.intent.receipt,
            ReceiptTrees.RootOf(Logged(rows) + [e.intent.receipt], cfg.inst.receiptDepth))
  }

  /** The row of an envelope accepted after `rows`. */
  function RowAfter(cfg: Config, rows: seq<OpRow>, env: Envelope): OpRow {
    OpRow(|rows| + 1, env, AccountOf(env), if env.Register? then None else Some(|Logged(rows)|),
          LinkAfter(cfg, rows, env))
  }

  lemma StepWrites(cfg: Config, s: Store, env: Envelope)
    requires Step(cfg, s, env).0.Ok? && Tells(cfg, s.ops, s)
    ensures Step(cfg, s, env).1.ops == s.ops + [RowAfter(cfg, s.ops, env)]
  {
    hide ReceiptTrees.RootOf, Window, Logged, Holding, Credit;
    assert s.receipts == Logged(s.ops) && SeqOf(s) == |s.ops|;
  }

  /**
   * Every row a ledger ever recorded was due when it was, and says where its receipt went and
   * which root followed. In particular every operation in the history is signed by the key its
   * account derives from, and every registration by its own.
   */
  lemma {:induction false} HistoryTells(cfg: Config, envs: seq<Envelope>)
    ensures var s := Run(cfg, envs);
            && Tells(cfg, s.ops, s)
            && forall i | 0 <= i < |s.ops| ::
                 Due(cfg, s.ops[..i], s.ops[i].envelope) && s.ops[i] == RowAfter(cfg, s.ops[..i], s.ops[i].envelope)
  {
    hide Step, Due, Tells, RowAfter;
    if envs == [] {
      TellsNothing(cfg);
    } else {
      var n := |envs| - 1;
      HistoryTells(cfg, envs[..n]);
      var s := Run(cfg, envs[..n]);
      StepRow(cfg, s, envs[n]);
      if Step(cfg, s, envs[n]).0.Ok? {
        StepWrites(cfg, s, envs[n]);
        AcceptsDue(cfg, s.ops, s, envs[n]);
        TellsNext(cfg, s.ops, s, RowAfter(cfg, s.ops, envs[n]));
        RowAbout(cfg, s.ops, envs[n]);
        var t := Step(cfg, s, envs[n]).1;
        forall i | 0 <= i < |s.ops|
          ensures t.ops[..i] == s.ops[..i] && t.ops[i] == s.ops[i]
        {
        }
        assert t.ops[..|s.ops|] == s.ops;
      }
    }
  }

  lemma RowAbout(cfg: Config, rows: seq<OpRow>, env: Envelope)
    ensures RowAfter(cfg, rows, env).envelope == env
  {
  }

  /** Nobody speaks for an account but the holder of its key. */
  lemma OnlySigned(cfg: Config, envs: seq<Envelope>, i: nat)
    requires i < |Run(cfg, envs).ops|
    ensures match Run(cfg, envs).ops[i].envelope
            case Register(e) =>
              cfg.crypto.registerSigned(e) && Run(cfg, envs).ops[i].account == AccountId(cfg.namespace, e.pubkey)
            case Op(e) => cfg.crypto.opSigned(e) && Run(cfg, envs).ops[i].account == AccountId(cfg.namespace, e.pubkey)
            case Mint(e) => Run(cfg, envs).ops[i].account == MintSender && MintProved(cfg, e.intent)
  {
    hide Run, Holding, Credit, Logged, LinkAfter, RootKept, OpProved, Tells;
    HistoryTells(cfg, envs);
  }
}
