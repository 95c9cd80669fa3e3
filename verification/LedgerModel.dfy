/**
 * The ledger's state transition function on its durable tables.
 *
 * Everything the running ledger keeps in memory (tree, root window, sequence number, state
 * root) is a function of these tables; the class `Ledgers.Ledger` is proved against the
 * step functions below.
 */
module LedgerModel {
  import opened Base
  import opened Encodings
  import opened Digests
  import Paths
  import opened ReceiptTrees
  import Relations

  type Namespace = nat
  type CircuitId = nat
  type PublicKey = nat

  datatype Proof = Proof(encoded: Bytes)

  datatype RegisterEnvelope = RegisterEnvelope(
    namespace: Namespace, pubkey: PublicKey, randomness: Fr, signature: Bytes)

  datatype OpEnvelope = OpEnvelope(
    namespace: Namespace, circuitId: CircuitId, account: Fr, com: Fr, comNew: Fr, receipt: Fr, root: Fr,
    proof: Bytes, pubkey: PublicKey, signature: Bytes)

  datatype DepositIntent = DepositIntent(
    namespace: Namespace, circuitId: CircuitId, amount: Relations.Amount, receipt: Fr, proof: Bytes)

  datatype MintEnvelope = MintEnvelope(intent: DepositIntent, depositId: string)

  datatype Envelope = Register(reg: RegisterEnvelope) | Op(op: OpEnvelope) | Mint(mint: MintEnvelope)

  /** The foreign checks: signatures, proof decoding and the two pairing verifiers. */
  datatype Crypto = Crypto(
    registerSigned: RegisterEnvelope -> bool,
    opSigned: OpEnvelope -> bool,
    decodeProof: Bytes -> Result<Proof, Error>,
    verifyOp: (Proof, Relations.OpStatement) -> bool,
    verifyDeposit: (Proof, Relations.Amount, Fr) -> bool)

  datatype Instance = Instance(receiptDepth: nat, nullDepth: nat)

  datatype Config = Config(
    inst: Instance, namespace: Namespace, circuitId: CircuitId, rootWindow: nat, crypto: Crypto)

  /** Depths the source's 64-bit positions can address. */
  predicate Supported(cfg: Config) {
    cfg.inst.receiptDepth <= 63 && cfg.inst.nullDepth <= 64
  }

  /**
   * The chained state root: one SHA-256 per accepted entry over its predecessor. Its byte
   * layout is proved injective in `StateRoots`.
   */
  datatype StateRoot =
    | Genesis(namespace: Namespace, circuitId: CircuitId)
    | Chain(prev: StateRoot, seqNo: nat, kind: Kind, account: Fr, com: Fr, receipt: Fr, receiptRoot: Fr)

  datatype Kind = KindRegister | KindOp | KindMint

  datatype Account = Account(pubkey: PublicKey, com: Fr, registered: nat, updated: nat)

  datatype Deposit = Deposit(receipt: Fr, amount: Relations.Amount, opSeq: nat)

  datatype OpRow = OpRow(seqNo: nat, envelope: Envelope, account: Fr, position: Option<nat>, stateRoot: StateRoot)

  /** The sqlite tables. `receipts` are the leaves in the order of their positions. */
  datatype Store = Store(
    boundNamespace: Option<Namespace>, boundCircuit: Option<CircuitId>,
    accounts: map<Fr, Account>, receipts: seq<Fr>, roots: map<nat, Fr>,
    deposits: map<string, Deposit>, ops: seq<OpRow>)

  datatype Applied = Applied(seqNo: nat, position: nat, receiptRoot: Fr, stateRoot: StateRoot)

  type Outcome = (Result<Applied, Error>, Store)

  /** The position a registration reports: it appends no receipt. */
  const NO_POSITION: nat := U64 - 1

  function EmptyStore(cfg: Config): Store {
    Store(Some(cfg.namespace), Some(cfg.circuitId), map[], [], map[], map[], [])
  }

  function SeqOf(s: Store): nat {
    if s.ops == [] then 0 else s.ops[|s.ops| - 1].seqNo
  }

  function StateRootOf(cfg: Config, s: Store): StateRoot {
    if s.ops == [] then Genesis(cfg.namespace, cfg.circuitId) else s.ops[|s.ops| - 1].stateRoot
  }

  function ReceiptRoot(cfg: Config, s: Store): Fr {
    RootOf(s.receipts, cfg.inst.receiptDepth)
  }

  /** The size of the root window, which is never empty: a configured zero counts as one. */
  function Width(cfg: Config): nat {
    if cfg.rootWindow > 1 then cfg.rootWindow else 1
  }

  /** The log sizes whose roots are recent start here. */
  function WindowFrom(cfg: Config, size: nat): (from: nat)
    ensures from <= size
  {
    if size >= Width(cfg) - 1 then size - (Width(cfg) - 1) else 0
  }

  /** The recent roots, oldest first. */
  function Window(cfg: Config, receipts: seq<Fr>): (w: seq<Fr>)
    ensures |w| == |receipts| - WindowFrom(cfg, |receipts|) + 1
    ensures forall i | 0 <= i < |w| ::
              w[i] == RootOf(receipts[..WindowFrom(cfg, |receipts|) + i], cfg.inst.receiptDepth)
  {
    var from := WindowFrom(cfg, |receipts|);
    seq(|receipts| - from + 1, i requires 0 <= i <= |receipts| - from =>
      RootOf(receipts[..from + i], cfg.inst.receiptDepth))
  }

  predicate RootIsRecent(cfg: Config, s: Store, root: Fr) {
    root in Window(cfg, s.receipts)
  }

  /** Com_acct(0, empty set; r): the only commitment an account may register at. */
  function InitialCommitment(cfg: Config, randomness: Fr): Fr {
    Acct(0, Paths.ZeroRoot(cfg.inst.nullDepth), randomness)
  }

  function Statement(env: OpEnvelope, comOld: Fr): Relations.OpStatement {
    Relations.OpStatement(env.account, comOld, env.comNew, env.receipt, env.root)
  }

  // ---- registration ---------------------------------------------------------

  function CheckRegister(cfg: Config, env: RegisterEnvelope): Result<Fr, Error> {
    if env.namespace != cfg.namespace then Err(WrongNamespace)
    else if !cfg.crypto.registerSigned(env) then Err(BadSignature)
    else Ok(AccountId(env.namespace, env.pubkey))
  }

  function RegisterStep(cfg: Config, s: Store, env: RegisterEnvelope): Outcome {
    match CheckRegister(cfg, env)
    case Err(e) => (Err(e), s)
    case Ok(account) =>
      if account in s.accounts then (Err(AccountExists), s) else
      var com := InitialCommitment(cfg, env.randomness);
      var seqNo := SeqOf(s) + 1;
      var receiptRoot := ReceiptRoot(cfg, s);
      var root := Chain(StateRootOf(cfg, s), seqNo, KindRegister, account, com, Zero, receiptRoot);
      (Ok(Applied(seqNo, NO_POSITION, receiptRoot, root)),
       s.(accounts := s.accounts[account := Account(env.pubkey, com, seqNo, seqNo)],
          ops := s.ops + [OpRow(seqNo, Register(env), account, None, root)]))
  }

  // ---- operations -----------------------------------------------------------

  /** The checks that read no table; what passes them comes with its proof decoded. */
  function Admit(cfg: Config, env: OpEnvelope): Result<Proof, Error> {
    if env.namespace != cfg.namespace then Err(WrongNamespace)
    else if env.circuitId != cfg.circuitId then Err(Wire)
    else if AccountId(env.namespace, env.pubkey) != env.account || !cfg.crypto.opSigned(env) then Err(BadSignature)
    else cfg.crypto.decodeProof(env.proof)
  }

  /** Admission against the tables: the account exists, has not moved, and the root is recent. */
  function Candidate(cfg: Config, s: Store, env: OpEnvelope): Result<Proof, Error> {
    match Admit(cfg, env)
    case Err(e) => Err(e)
    case Ok(proof) =>
      if env.account !in s.accounts then Err(UnknownAccount)
      else if s.accounts[env.account].com != env.com then Err(StaleCommitment)
      else if !RootIsRecent(cfg, s, env.root) then Err(RootNotRecent)
      else Ok(proof)
  }

  function OpStep(cfg: Config, s: Store, env: OpEnvelope): Outcome {
    match Candidate(cfg, s, env)
    case Err(e) => (Err(e), s)
    case Ok(proof) =>
      if !cfg.crypto.verifyOp(proof, Statement(env, s.accounts[env.account].com)) then (Err(InvalidProof), s)
      else WriteOp(cfg, s, env, env.com)
  }

  /**
   * The tail of an operation whose proof was verified against `com`: the commitment and the
   * window are judged again, then the receipt, root, account and history rows are written.
   */
  function WriteOp(cfg: Config, s: Store, env: OpEnvelope, com: Fr): Outcome {
    WriteOver(cfg, s, s.receipts, env, com)
  }

  /** The same for a memory that holds the tree and window of `log`, whatever the tables hold. */
  function WriteOver(cfg: Config, s: Store, log: seq<Fr>, env: OpEnvelope, com: Fr): Outcome {
    if env.account !in s.accounts then (Err(UnknownAccount), s)
    else if s.accounts[env.account].com != com then (Err(StaleCommitment), s)
    else if env.root !in Window(cfg, log) then (Err(RootNotRecent), s)
    else if |log| >= Pow2(cfg.inst.receiptDepth) then (Err(ReceiptLogFull), s)
    else
      var seqNo, position := SeqOf(s) + 1, |log|;
      var receiptRoot := RootOf(log + [env.receipt], cfg.inst.receiptDepth);
      var root := Chain(StateRootOf(cfg, s), seqNo, KindOp, env.account, env.comNew, env.receipt, receiptRoot);
      (Ok(Applied(seqNo, position, receiptRoot, root)),
       s.(receipts := s.receipts + [env.receipt],
          roots := s.roots[position + 1 := receiptRoot],
          accounts := s.accounts[env.account := s.accounts[env.account].(com := env.comNew, updated := seqNo)],
          ops := s.ops + [OpRow(seqNo, Op(env), env.account, Some(position), root)]))
  }

  /** What a write does to the log. */
  lemma WriteLog(cfg: Config, s: Store, log: seq<Fr>, env: OpEnvelope, com: Fr)
    ensures var (r, t) := WriteOver(cfg, s, log, env, com);
            if r.Ok? then t.receipts == s.receipts + [env.receipt] else t == s
  {
  }

  // ---- deposits -------------------------------------------------------------

  function CheckMint(cfg: Config, env: MintEnvelope): Result<(), Error> {
    if env.intent.namespace != cfg.namespace then Err(WrongNamespace)
    else if env.intent.circuitId != cfg.circuitId then Err(Wire)
    else if |env.depositId| == 0 || |env.depositId| > 200 then Err(Wire)
    else Ok(())
  }

  function MintStep(cfg: Config, s: Store, env: MintEnvelope): Outcome {
    var intent := env.intent;
    if CheckMint(cfg, env).Err? then (Err(CheckMint(cfg, env).error), s)
    else if env.depositId in s.deposits then (Err(Storage), s)
    else match cfg.crypto.decodeProof(intent.proof)
      case Err(e) => (Err(e), s)
      case Ok(proof) =>
        if !cfg.crypto.verifyDeposit(proof, intent.amount, intent.receipt) then (Err(InvalidProof), s)
        else if |s.receipts| >= Pow2(cfg.inst.receiptDepth) then (Err(ReceiptLogFull), s)
        else
          var seqNo, position := SeqOf(s) + 1, |s.receipts|;
          var receipts := s.receipts + [intent.receipt];
          var receiptRoot := RootOf(receipts, cfg.inst.receiptDepth);
          var root := Chain(StateRootOf(cfg, s), seqNo, KindMint, MintSender, Num(intent.amount), intent.receipt,
                            receiptRoot);
          (Ok(Applied(seqNo, position, receiptRoot, root)),
           s.(receipts := receipts,
              roots := s.roots[position + 1 := receiptRoot],
              deposits := s.deposits[env.depositId := Deposit(intent.receipt, intent.amount, seqNo)],
              ops := s.ops + [OpRow(seqNo, Mint(env), MintSender, Some(position), root)]))
  }

  // ---- batches --------------------------------------------------------------

  /** An outcome whose transaction may fail to commit: the tables then stay as they were. */
  ghost function Commit(o: Outcome, s: Store, commits: bool): Outcome {
    if o.0.Ok? && !commits then (Err(Storage), s) else o
  }

  /** One member of a batch opened at `start` and now at `s`. */
  ghost function BatchMember(cfg: Config, start: Store, s: Store, env: OpEnvelope): Outcome {
    match Candidate(cfg, start, env)
    case Err(e) => (Err(e), s)
    case Ok(proof) =>
      if !cfg.crypto.verifyOp(proof, Statement(env, env.com)) then (Err(InvalidProof), s)
      else WriteOp(cfg, s, env, env.com)
  }

  /** The results and the tables after the whole batch. */
  ghost function Batch(cfg: Config, start: Store, envs: seq<OpEnvelope>, commits: seq<bool>)
    : (o: (seq<Result<Applied, Error>>, Store))
    requires |commits| == |envs|
    ensures |o.0| == |envs|
  {
    if envs == [] then ([], start)
    else
      var n := |envs| - 1;
      var (results, s) := Batch(cfg, start, envs[..n], commits[..n]);
      var (r, t) := Commit(BatchMember(cfg, start, s, envs[n]), s, commits[n]);
      (results + [r], t)
  }

  /** Applying operations one at a time. */
  ghost function Sequential(cfg: Config, start: Store, envs: seq<OpEnvelope>): (seq<Result<Applied, Error>>, Store) {
    if envs == [] then ([], start)
    else
      var n := |envs| - 1;
      var (results, s) := Sequential(cfg, start, envs[..n]);
      var (r, t) := OpStep(cfg, s, envs[n]);
      (results + [r], t)
  }

  /** The accepted members of a batch, and what each was told. */
  function Accepted(envs: seq<OpEnvelope>, results: seq<Result<Applied, Error>>)
    : (o: (seq<OpEnvelope>, seq<Result<Applied, Error>>))
    requires |results| == |envs|
    ensures |o.0| == |o.1| && forall r | r in o.1 :: r.Ok?
  {
    if envs == [] then ([], [])
    else
      var n := |envs| - 1;
      var (es, rs) := Accepted(envs[..n], results[..n]);
      if results[n].Ok? then (es + [envs[n]], rs + [results[n]]) else (es, rs)
  }

  /**
   * A batch member is accepted exactly when single application would accept it at its turn
   * and it was already a candidate when the batch opened; acceptance writes the same rows.
   */
  lemma BatchMemberIff(cfg: Config, start: Store, s: Store, env: OpEnvelope)
    ensures var (r, t) := BatchMember(cfg, start, s, env);
            && (r.Ok? <==> OpStep(cfg, s, env).0.Ok? && Candidate(cfg, start, env).Ok?)
            && (r.Ok? ==> (r, t) == OpStep(cfg, s, env))
            && (r.Err? ==> t == s)
  {
  }

  /**
   * A batch refines single application: its accepted members, applied one at a time from the
   * same start, are all accepted with identical records and reach the same tables.
   */
  lemma {:induction false} BatchRefines(cfg: Config, start: Store, envs: seq<OpEnvelope>, commits: seq<bool>)
    requires |commits| == |envs|
    ensures var (results, t) := Batch(cfg, start, envs, commits);
            var (es, rs) := Accepted(envs, results);
            Sequential(cfg, start, es) == (rs, t)
  {
    hide OpStep, BatchMember, Candidate;
    if envs != [] {
      var n := |envs| - 1;
      BatchRefines(cfg, start, envs[..n], commits[..n]);
      var (results, s) := Batch(cfg, start, envs[..n], commits[..n]);
      var (all, t) := Batch(cfg, start, envs, commits);
      assert all[..n] == results;
      BatchMemberIff(cfg, start, s, envs[n]);
      SequentialGrows(cfg, start, Accepted(envs[..n], results).0, envs[n]);
    }
  }

  lemma SequentialGrows(cfg: Config, start: Store, envs: seq<OpEnvelope>, env: OpEnvelope)
    ensures var (results, s) := Sequential(cfg, start, envs);
            var (r, t) := OpStep(cfg, s, env);
            Sequential(cfg, start, envs + [env]) == (results + [r], t)
  {
    assert (envs + [env])[..|envs|] == envs;
  }

  /** The tables when member `i` takes its turn. */
  ghost function StoreAt(cfg: Config, start: Store, envs: seq<OpEnvelope>, commits: seq<bool>, i: nat): Store
    requires |commits| == |envs| && i <= |envs|
  {
    Batch(cfg, start, envs[..i], commits[..i]).1
  }

  /** Each member is judged on its own turn. */
  lemma {:induction false} BatchAt(cfg: Config, start: Store, envs: seq<OpEnvelope>, commits: seq<bool>, i: nat)
    requires |commits| == |envs| && i < |envs|
    ensures var s := StoreAt(cfg, start, envs, commits, i);
            (Batch(cfg, start, envs, commits).0[i], StoreAt(cfg, start, envs, commits, i + 1))
            == Commit(BatchMember(cfg, start, s, envs[i]), s, commits[i])
  {
    var n := |envs| - 1;
    if i < n {
      BatchAt(cfg, start, envs[..n], commits[..n], i);
      assert envs[..n][..i] == envs[..i] && commits[..n][..i] == commits[..i];
      assert envs[..n][..i + 1] == envs[..i + 1] && commits[..n][..i + 1] == commits[..i + 1];
    } else {
      assert envs[..n + 1] == envs && commits[..n + 1] == commits;
    }
  }

  /** No member from `lo` up to `hi` was a candidate when the batch opened. */
  ghost predicate Gap(cfg: Config, start: Store, envs: seq<OpEnvelope>, lo: nat, hi: nat) {
    lo <= hi <= |envs| && forall i | lo <= i < hi :: Candidate(cfg, start, envs[i]).Err?
  }

  /** Members that never were candidates keep their admission error and write nothing. */
  lemma {:induction false} GapSkips(
      cfg: Config, start: Store, envs: seq<OpEnvelope>, commits: seq<bool>, lo: nat, hi: nat)
    requires |commits| == |envs| && Gap(cfg, start, envs, lo, hi)
    ensures StoreAt(cfg, start, envs, commits, hi) == StoreAt(cfg, start, envs, commits, lo)
    ensures forall i | lo <= i < hi ::
              Batch(cfg, start, envs, commits).0[i] == Err(Candidate(cfg, start, envs[i]).error)
  {
    if lo < hi {
      GapSkips(cfg, start, envs, commits, lo, hi - 1);
      BatchAt(cfg, start, envs, commits, hi - 1);
    }
  }

  /** The answers and tables of a batch whose first `upto` members have had their turn. */
  ghost predicate Settled(cfg: Config, start: Store, envs: seq<OpEnvelope>, commits: seq<bool>,
                          answers: seq<Option<Result<Applied, Error>>>, s: Store, upto: nat)
  {
    && |commits| == |envs| == |answers| && upto <= |envs|
    && s == StoreAt(cfg, start, envs, commits, upto)
    && (forall j | 0 <= j < upto :: answers[j] == Some(Batch(cfg, start, envs, commits).0[j]))
    && Refused(cfg, start, envs, answers, upto, |envs|)
  }

  /** Members from `lo` up to `hi` that were no candidates already hold their admission error. */
  ghost predicate Refused(cfg: Config, start: Store, envs: seq<OpEnvelope>,
                          answers: seq<Option<Result<Applied, Error>>>, lo: nat, hi: nat)
    requires hi <= |envs| == |answers|
  {
    forall j | lo <= j < hi :: var c := Candidate(cfg, start, envs[j]); c.Err? ==> answers[j] == Some(Err(c.error))
  }

  lemma SettleStart(cfg: Config, start: Store, envs: seq<OpEnvelope>, commits: seq<bool>,
                    answers: seq<Option<Result<Applied, Error>>>)
    requires |commits| == |envs| == |answers| && Refused(cfg, start, envs, answers, 0, |envs|)
    ensures Settled(cfg, start, envs, commits, answers, start, 0)
  {
    assert envs[..0] == [];
  }

  lemma SettleGap(cfg: Config, start: Store, envs: seq<OpEnvelope>, commits: seq<bool>,
                  answers: seq<Option<Result<Applied, Error>>>, s: Store, lo: nat, hi: nat)
    requires Settled(cfg, start, envs, commits, answers, s, lo) && Gap(cfg, start, envs, lo, hi)
    ensures Settled(cfg, start, envs, commits, answers, s, hi)
  {
    GapSkips(cfg, start, envs, commits, lo, hi);
  }

  lemma SettleMember(cfg: Config, start: Store, envs: seq<OpEnvelope>, commits: seq<bool>,
                     answers: seq<Option<Result<Applied, Error>>>, s: Store, i: nat,
                     answer: Result<Applied, Error>, t: Store)
    requires Settled(cfg, start, envs, commits, answers, s, i) && i < |envs|
    requires (answer, t) == Commit(BatchMember(cfg, start, s, envs[i]), s, commits[i])
    ensures Settled(cfg, start, envs, commits, answers[i := Some(answer)], t, i + 1)
  {
    BatchAt(cfg, start, envs, commits, i);
  }

  lemma SettleEnd(cfg: Config, start: Store, envs: seq<OpEnvelope>, commits: seq<bool>,
                  answers: seq<Option<Result<Applied, Error>>>, s: Store)
    requires Settled(cfg, start, envs, commits, answers, s, |envs|)
    ensures forall i | 0 <= i < |answers| :: answers[i].Some?
    ensures (Answers(answers), s) == Batch(cfg, start, envs, commits)
  {
    assert envs[..|envs|] == envs && commits[..|envs|] == commits;
    assert Answers(answers) == Batch(cfg, start, envs, commits).0;
  }

  /** Every slot is filled. */
  function Answers(answers: seq<Option<Result<Applied, Error>>>): (results: seq<Result<Applied, Error>>)
    requires forall i | 0 <= i < |answers| :: answers[i].Some?
    ensures |results| == |answers| && forall i | 0 <= i < |answers| :: answers[i] == Some(results[i])
  {
    seq(|answers|, i requires 0 <= i < |answers| => answers[i].value)
  }

  /** A batch of one accepts exactly what single application accepts, with the same answer. */
  lemma BatchOfOne(cfg: Config, s: Store, env: OpEnvelope)
    ensures var (results, t) := Batch(cfg, s, [env], [true]);
            (results[0], t) == OpStep(cfg, s, env)
  {
    assert [env][..0] == [];
    assert Batch(cfg, s, [env][..0], [true][..0]) == ([], s);
  }

  lemma {:induction false} BatchReplays(cfg: Config, start: Store, envs: seq<OpEnvelope>, commits: seq<bool>)
    requires |commits| == |envs| && Replays(cfg, start)
    ensures Replays(cfg, Batch(cfg, start, envs, commits).1)
  {
    if envs != [] {
      var n := |envs| - 1;
      BatchReplays(cfg, start, envs[..n], commits[..n]);
      var s := Batch(cfg, start, envs[..n], commits[..n]).1;
      BatchMemberIff(cfg, start, s, envs[n]);
      StepReplays(cfg, s, Op(envs[n]));
    }
  }

  function AmountIn(deposits: map<string, Deposit>): string -> nat {
    d => if d in deposits then deposits[d].amount else 0
  }

  /** Everything ever minted. */
  ghost function Minted(deposits: map<string, Deposit>): nat {
    SumOver(deposits.Keys, AmountIn(deposits))
  }

  // ---- runs -----------------------------------------------------------------

  function Step(cfg: Config, s: Store, env: Envelope): Outcome {
    match env
    case Register(e) => RegisterStep(cfg, s, e)
    case Op(e) => OpStep(cfg, s, e)
    case Mint(e) => MintStep(cfg, s, e)
  }

  /** The tables after submitting `envs` in order to an empty ledger, whatever is rejected. */
  ghost function Run(cfg: Config, envs: seq<Envelope>): Store {
    if envs == [] then EmptyStore(cfg)
    else Step(cfg, Run(cfg, envs[..|envs| - 1]), envs[|envs| - 1]).1
  }

  /**
   * What a recorded history rebuilds, one envelope at a time from empty; `None` as soon as an
   * envelope is refused or lands on another sequence number.
   */
  ghost function Replay(cfg: Config, rows: seq<OpRow>): Option<Store> {
    if rows == [] then Some(EmptyStore(cfg))
    else
      var row := rows[|rows| - 1];
      match Replay(cfg, rows[..|rows| - 1])
      case None => None
      case Some(s) =>
        var (r, t) := Step(cfg, s, row.envelope);
        if r.Ok? && r.value.seqNo == row.seqNo then Some(t) else None
  }

  /** The tables are exactly what their own history replays to. */
  ghost predicate Replays(cfg: Config, s: Store) {
    Replay(cfg, s.ops) == Some(s)
  }

  /** A rejected envelope leaves no trace; an accepted one adds exactly its own history row. */
  lemma StepRow(cfg: Config, s: Store, env: Envelope)
    ensures var (r, t) := Step(cfg, s, env);
            && (r.Err? ==> t == s)
            && (r.Ok? ==>
                  && |t.ops| == |s.ops| + 1 && t.ops[..|s.ops|] == s.ops
                  && t.ops[|s.ops|].envelope == env
                  && t.ops[|s.ops|].seqNo == r.value.seqNo == SeqOf(s) + 1
                  && t.ops[|s.ops|].stateRoot == r.value.stateRoot == StateRootOf(cfg, t))
  {
  }

  lemma StepReplays(cfg: Config, s: Store, env: Envelope)
    requires Replays(cfg, s)
    ensures Replays(cfg, Step(cfg, s, env).1)
  {
    StepRow(cfg, s, env);
  }

  /** Every reachable ledger replays: its history alone rebuilds all of its tables. */
  lemma {:induction false} RunReplays(cfg: Config, envs: seq<Envelope>)
    ensures Replays(cfg, Run(cfg, envs))
  {
    if envs != [] {
      RunReplays(cfg, envs[..|envs| - 1]);
      StepReplays(cfg, Run(cfg, envs[..|envs| - 1]), envs[|envs| - 1]);
    }
  }

  /** Conversely a ledger that replays is reached by submitting its own history. */
  lemma {:induction false} ReplayRuns(cfg: Config, rows: seq<OpRow>)
    requires Replay(cfg, rows).Some?
    ensures Replay(cfg, rows).value == Run(cfg, Envelopes(rows))
  {
    if rows != [] {
      var init := rows[..|rows| - 1];
      ReplayRuns(cfg, init);
      assert Envelopes(rows)[..|rows| - 1] == Envelopes(init);
    }
  }

  function Envelopes(rows: seq<OpRow>): (envs: seq<Envelope>)
    ensures |envs| == |rows|
  {
    seq(|rows|, i requires 0 <= i < |rows| => rows[i].envelope)
  }

  // ---- reopening ------------------------------------------------------------

  /** The checks a store must pass to be opened under `cfg`. */
  ghost predicate Openable(cfg: Config, s: Store) {
    && (s.boundNamespace.Some? ==> s.boundNamespace.value == cfg.namespace)
    && (s.boundCircuit.Some? ==> s.boundCircuit.value == cfg.circuitId)
    && |s.receipts| <= Pow2(cfg.inst.receiptDepth)
    && (|s.receipts| > 0 ==> |s.receipts| in s.roots && s.roots[|s.receipts|] == ReceiptRoot(cfg, s))
  }

  /** The tables are bound to `cfg` and the root table holds the root of every past log size. */
  ghost predicate Recorded(cfg: Config, s: Store) {
    && s.boundNamespace == Some(cfg.namespace) && s.boundCircuit == Some(cfg.circuitId)
    && |s.receipts| <= Pow2(cfg.inst.receiptDepth)
    && (forall n | 0 < n <= |s.receipts| ::
          n in s.roots && s.roots[n] == RootOf(s.receipts[..n], cfg.inst.receiptDepth))
  }

  /** What a step does to the log and its recorded roots. */
  lemma StepLogs(cfg: Config, s: Store, env: Envelope)
    ensures var t := Step(cfg, s, env).1;
            && t.boundNamespace == s.boundNamespace && t.boundCircuit == s.boundCircuit
            && (|t.receipts| == |s.receipts| ==> t.receipts == s.receipts && t.roots == s.roots)
            && (|t.receipts| != |s.receipts| ==>
                  && |s.receipts| < |t.receipts| == |s.receipts| + 1 <= Pow2(cfg.inst.receiptDepth)
                  && t.receipts[..|s.receipts|] == s.receipts
                  && t.roots == s.roots[|t.receipts| := RootOf(t.receipts, cfg.inst.receiptDepth)])
  {
    hide RootOf, Window;
  }

  lemma StepRecorded(cfg: Config, s: Store, env: Envelope)
    requires Recorded(cfg, s)
    ensures Recorded(cfg, Step(cfg, s, env).1)
  {
    hide Step, RootOf;
    var t := Step(cfg, s, env).1;
    StepLogs(cfg, s, env);
    if |t.receipts| > |s.receipts| {
      assert t.receipts[..|t.receipts|] == t.receipts;
      forall n | 0 < n <= |s.receipts|
        ensures t.receipts[..n] == s.receipts[..n]
      {
      }
    }
  }

  /** Whatever the history, its tables open again. */
  lemma {:induction false} ReplayOpens(cfg: Config, rows: seq<OpRow>)
    requires Replay(cfg, rows).Some?
    ensures Recorded(cfg, Replay(cfg, rows).value) && Openable(cfg, Replay(cfg, rows).value)
  {
    hide Step;
    if rows != [] {
      var init := rows[..|rows| - 1];
      ReplayOpens(cfg, init);
      StepRecorded(cfg, Replay(cfg, init).value, rows[|rows| - 1].envelope);
    }
    var s := Replay(cfg, rows).value;
    assert s.receipts[..|s.receipts|] == s.receipts;
  }

  // ---- a memory ahead of its tables -------------------------------------------

  /** The root table has no root of a log longer than the one recorded. */
  ghost predicate NoRootAhead(s: Store) {
    forall n | n in s.roots :: n <= |s.receipts|
  }

  lemma {:induction false} ReplayNoRootAhead(cfg: Config, rows: seq<OpRow>)
    requires Replay(cfg, rows).Some?
    ensures NoRootAhead(Replay(cfg, rows).value)
  {
    hide Step, RootOf;
    if rows != [] {
      var init := rows[..|rows| - 1];
      ReplayNoRootAhead(cfg, init);
      StepLogs(cfg, Replay(cfg, init).value, rows[|rows| - 1].envelope);
    }
  }

  /**
   * An operation written while the memory is one receipt ahead takes the position after the
   * next and records a root for that size, so the tables fail the check of opening.
   */
  lemma AheadUnopenable(cfg: Config, s: Store, lost: Fr, env: OpEnvelope, com: Fr)
    requires Replays(cfg, s) && WriteOver(cfg, s, s.receipts + [lost], env, com).0.Ok?
    ensures !Openable(cfg, WriteOver(cfg, s, s.receipts + [lost], env, com).1)
  {
    ReplayNoRootAhead(cfg, s.ops);
  }

  // ---- history --------------------------------------------------------------

  /** Rows in primary key order, numbered from one on. */
  ghost predicate Ascending(rows: seq<OpRow>) {
    && (forall i | 0 <= i < |rows| :: rows[i].seqNo > 0)
    && (forall i, j | 0 <= i < j < |rows| :: rows[i].seqNo < rows[j].seqNo)
  }

  /** A history that replays numbers its rows 1, 2, 3 and so on. */
  lemma {:induction false} RowsNumbered(cfg: Config, rows: seq<OpRow>)
    requires Replay(cfg, rows).Some?
    ensures forall i | 0 <= i < |rows| :: rows[i].seqNo == i + 1
    ensures Ascending(rows)
    ensures SeqOf(Replay(cfg, rows).value) == |rows|
  {
    hide Step;
    if rows != [] {
      var n := |rows| - 1;
      RowsNumbered(cfg, rows[..n]);
      var s := Replay(cfg, rows[..n]).value;
      StepRow(cfg, s, rows[n].envelope);
      assert forall i | 0 <= i < n :: rows[i] == rows[..n][i];
    }
  }

  /** How many leading rows come before `from`. */
  function Before(rows: seq<OpRow>, from: nat): (n: nat)
    ensures n <= |rows|
    ensures forall i | 0 <= i < n :: rows[i].seqNo < from
    ensures n < |rows| ==> rows[n].seqNo >= from
  {
    if rows == [] || rows[0].seqNo >= from then 0 else 1 + Before(rows[1..], from)
  }

  /** At most `limit` rows from row `k` on. */
  function Page(rows: seq<OpRow>, k: nat, limit: nat): seq<OpRow>
    requires k <= |rows|
  {
    rows[k..if k + limit < |rows| then k + limit else |rows|]
  }

  /**
   * `page` is a stretch of consecutive rows, none numbered below `from` and all rows before it
   * numbered below `from`; it has `limit` rows unless the history ends first.
   */
  ghost predicate FirstFrom(rows: seq<OpRow>, from: nat, limit: nat, page: seq<OpRow>) {
    && |page| <= limit
    && (forall i | 0 <= i < |page| :: page[i].seqNo >= from)
    && (exists k | 0 <= k <= |rows| - |page| :: StartsPage(rows, from, limit, page, k))
  }

  ghost predicate StartsPage(rows: seq<OpRow>, from: nat, limit: nat, page: seq<OpRow>, k: nat)
    requires k + |page| <= |rows|
  {
    && page == rows[k..k + |page|] && (forall i | 0 <= i < k :: rows[i].seqNo < from)
    && (k + |page| < |rows| ==> |page| == limit)
  }

  lemma PageIsFirst(rows: seq<OpRow>, from: nat, limit: nat)
    requires Ascending(rows)
    ensures FirstFrom(rows, from, limit, Page(rows, Before(rows, from), limit))
  {
    var k := Before(rows, from);
    assert StartsPage(rows, from, limit, Page(rows, k, limit), k);
  }

  /** `page` holds the rows after the first `done`; only the end of the history has none. */
  ghost predicate Turned(rows: seq<OpRow>, done: nat, page: seq<OpRow>) {
    && done + |page| <= |rows| && page == rows[done..done + |page|]
    && (page == [] ==> done == |rows|)
  }

  /** Paging by sequence number visits each row once, in order. */
  lemma TurnPage(rows: seq<OpRow>, done: nat, from: nat, limit: nat, page: seq<OpRow>)
    requires Ascending(rows) && limit > 0 && done <= |rows|
    requires from == if done == 0 then 1 else rows[done - 1].seqNo + 1
    requires FirstFrom(rows, from, limit, page)
    ensures Turned(rows, done, page)
  {
    var k :| 0 <= k <= |rows| - |page| && StartsPage(rows, from, limit, page, k);
    assert forall i | 0 <= i < |rows| :: rows[i].seqNo < from <==> i < done;
    assert done < |rows| ==> rows[done].seqNo >= from;
    if page != [] {
      assert page[0] == rows[k];
    }
  }

  /** Replay goes row by row, and a prefix that fails fails the whole history. */
  lemma {:induction false} ReplayPrefix(cfg: Config, rows: seq<OpRow>, k: nat)
    requires k < |rows|
    ensures Replay(cfg, rows).Some? ==> Replay(cfg, rows[..k]).Some? && Replay(cfg, rows[..k + 1]).Some?
    ensures Replay(cfg, rows[..k]).Some? ==>
              var (r, t) := Step(cfg, Replay(cfg, rows[..k]).value, rows[k].envelope);
              Replay(cfg, rows[..k + 1]) == if r.Ok? && r.value.seqNo == rows[k].seqNo then Some(t) else None
  {
    hide Step;
    var n := |rows| - 1;
    assert rows[..k + 1][..k] == rows[..k];
    if k < n {
      ReplayPrefix(cfg, rows[..n], k);
      assert rows[..n][..k] == rows[..k] && rows[..n][..k + 1] == rows[..k + 1];
    } else {
      assert rows[..n + 1] == rows;
    }
  }

  /** A history whose first `done` rows replay to `s`. */
  ghost predicate ReplayedTo(cfg: Config, rows: seq<OpRow>, done: nat, s: Store) {
    done <= |rows| && Replay(cfg, rows[..done]) == Some(s)
  }

  lemma ReplayStarts(cfg: Config, rows: seq<OpRow>)
    ensures ReplayedTo(cfg, rows, 0, EmptyStore(cfg))
  {
  }

  lemma ReplayEnds(cfg: Config, rows: seq<OpRow>, done: nat, s: Store)
    requires ReplayedTo(cfg, rows, done, s) && Turned(rows, done, [])
    ensures Replay(cfg, rows) == Some(s)
  {
    assert rows[..|rows|] == rows;
  }

  lemma TurnedLast(rows: seq<OpRow>, done: nat, page: seq<OpRow>)
    requires Turned(rows, done, page) && page != []
    ensures done + |page| <= |rows| && page[|page| - 1] == rows[done + |page| - 1]
  {
  }
}
