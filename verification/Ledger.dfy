/**
 * The running ledger: the durable tables plus what it keeps in memory, updated in place.
 */
module Ledgers {
  import opened Base
  import opened Digests
  import opened ReceiptTrees
  import Relations
  import opened LedgerModel

  /**
   * How the disk behaves during one write: whether the transaction commits, and whether the
   * reload that follows a failed commit succeeds.
   */
  datatype Disk = Disk(commits: bool, reloads: bool)

  predicate Survives(disk: Disk) {
    disk.commits || disk.reloads
  }

  /** What a batch member carries from admission to application. */
  datatype Claim = Claim(index: nat, proof: Proof, com: Fr)

  function Commits(disks: seq<Disk>): (commits: seq<bool>)
    ensures |commits| == |disks|
  {
    seq(|disks|, i requires 0 <= i < |disks| => disks[i].commits)
  }

  /** The batch check never accepts a statement the single verifier refuses. */
  ghost predicate BatchSound(crypto: Crypto, batchVerify: seq<(Proof, Relations.OpStatement)> -> bool) {
    forall claims: seq<(Proof, Relations.OpStatement)>, k | batchVerify(claims) && 0 <= k < |claims| ::
      crypto.verifyOp(claims[k].0, claims[k].1)
  }

  /** `valid` is the single verifier's answer for each claim. */
  ghost predicate ValidityOf(crypto: Crypto, envs: seq<OpEnvelope>, claims: seq<Claim>, valid: seq<bool>) {
    && |valid| == |claims|
    && forall k | 0 <= k < |claims| ::
         && claims[k].index < |envs|
         && valid[k] == crypto.verifyOp(claims[k].proof, Statement(envs[claims[k].index], claims[k].com))
  }

  function Lower(claims: seq<Claim>, k: nat): nat
    requires k <= |claims|
  {
    if k == 0 then 0 else claims[k - 1].index + 1
  }

  function Upper(claims: seq<Claim>, k: nat, n: nat): nat
    requires k <= |claims|
  {
    if k < |claims| then claims[k].index else n
  }

  /** `claims` lists, in order, exactly the first `n` members that were candidates at `start`. */
  ghost predicate ClaimsOf(cfg: Config, start: Store, envs: seq<OpEnvelope>, claims: seq<Claim>, n: nat) {
    && (forall k | 0 <= k <= |claims| :: Gap(cfg, start, envs, Lower(claims, k), Upper(claims, k, n)))
    && (forall k | 0 <= k < |claims| ::
          && claims[k].index < n <= |envs|
          && Candidate(cfg, start, envs[claims[k].index]) == Ok(claims[k].proof)
          && claims[k].com == envs[claims[k].index].com)
  }

  /** Member `n` joins the claims exactly when it is a candidate. */
  lemma ClaimsGrow(cfg: Config, start: Store, envs: seq<OpEnvelope>, claims: seq<Claim>, n: nat, proof: Proof)
    requires ClaimsOf(cfg, start, envs, claims, n) && n < |envs|
    ensures Candidate(cfg, start, envs[n]).Err? ==> ClaimsOf(cfg, start, envs, claims, n + 1)
    ensures Candidate(cfg, start, envs[n]) == Ok(proof) ==>
              ClaimsOf(cfg, start, envs, claims + [Claim(n, proof, envs[n].com)], n + 1)
  {
    hide LedgerModel.Candidate;
    var m := |claims|;
    assert Gap(cfg, start, envs, Lower(claims, m), Upper(claims, m, n));
    var c := Candidate(cfg, start, envs[n]);
    if c.Err? {
      forall k | 0 <= k <= m
        ensures Gap(cfg, start, envs, Lower(claims, k), Upper(claims, k, n + 1))
      {
        assert Gap(cfg, start, envs, Lower(claims, k), Upper(claims, k, n));
      }
    } else {
      var grown := claims + [Claim(n, proof, envs[n].com)];
      forall k | 0 <= k <= m + 1
        ensures Gap(cfg, start, envs, Lower(grown, k), Upper(grown, k, n + 1))
      {
        if k <= m {
          assert Gap(cfg, start, envs, Lower(claims, k), Upper(claims, k, n));
        }
      }
    }
  }

  class Ledger {
    const cfg: Config
    var store: Store
    var tree: ReceiptTree
    var recent: seq<Fr>
    var seqNo: nat
    var stateRoot: StateRoot

    /** Memory is a function of the tables, and the tables of their own history. */
    ghost predicate Valid()
      reads this, tree
    {
      && Mirrors(store.receipts)
      && seqNo == SeqOf(store)
      && stateRoot == StateRootOf(cfg, store)
      && Replays(cfg, store)
    }

    /** The in-memory tree and window are those of the log `receipts`. */
    ghost predicate Mirrors(receipts: seq<Fr>)
      reads this, tree
    {
      && Supported(cfg)
      && tree.Valid() && tree.depth == cfg.inst.receiptDepth
      && tree.Leaves() == receipts
      && recent == Window(cfg, receipts)
    }

    /** Memory holds the tree and window of `log`, and the head of the tables. */
    ghost predicate Holds(log: seq<Fr>)
      reads this, tree
    {
      Mirrors(log) && seqNo == SeqOf(store) && stateRoot == StateRootOf(cfg, store)
    }

    /**
     * Open a ledger over existing tables. A store bound to another namespace or circuit, or
     * whose recorded root is not the rebuilt tree's, is refused; any other opens with the
     * memory its tables determine.
     */
    static method Open(cfg: Config, store: Store) returns (r: Result<Ledger, Error>)
      requires cfg.inst.receiptDepth <= 63 && cfg.inst.nullDepth <= 64
      ensures r.Ok? <==> Openable(cfg, store)
      ensures r.Ok? ==>
                var l := r.value;
                && fresh(l) && fresh(l.tree) && l.cfg == cfg
                && l.store == store.(boundNamespace := Some(cfg.namespace), boundCircuit := Some(cfg.circuitId))
                && l.Mirrors(store.receipts)
                && l.seqNo == SeqOf(store) && l.stateRoot == StateRootOf(cfg, store)
    {
      if store.boundNamespace.Some? && store.boundNamespace.value != cfg.namespace {
        return Err(Storage);
      }
      if store.boundCircuit.Some? && store.boundCircuit.value != cfg.circuitId {
        return Err(Storage);
      }
      var bound := store.(boundNamespace := Some(cfg.namespace), boundCircuit := Some(cfg.circuitId));
      var t := ReceiptTree.FromLeaves(cfg.inst.receiptDepth, store.receipts);
      if t.Err? {
        return Err(t.error);
      }
      var tree := t.value;
      var recent := RecentFromTree(cfg, tree);
      if |store.receipts| > 0 {
        if |store.receipts| !in store.roots || store.roots[|store.receipts|] != tree.Root() {
          return Err(Storage);
        }
      }
      var l := new Ledger.Assemble(cfg, bound, tree, recent, SeqOf(store), StateRootOf(cfg, store));
      return Ok(l);
    }

    constructor Assemble(cfg: Config, store: Store, tree: ReceiptTree, recent: seq<Fr>, seqNo: nat, root: StateRoot)
      ensures this.cfg == cfg && this.store == store && this.tree == tree
      ensures this.recent == recent && this.seqNo == seqNo && this.stateRoot == root
    {
      this.cfg, this.store, this.tree := cfg, store, tree;
      this.recent, this.seqNo, this.stateRoot := recent, seqNo, root;
    }

    /** The last roots of the tree, oldest first. */
    static method RecentFromTree(cfg: Config, tree: ReceiptTree) returns (recent: seq<Fr>)
      requires tree.Valid() && tree.depth == cfg.inst.receiptDepth
      ensures recent == Window(cfg, tree.Leaves())
    {
      var size := tree.Size();
      var from := WindowFrom(cfg, size);
      recent := [];
      for s := from to size + 1
        invariant |recent| == s - from
        invariant recent == Window(cfg, tree.Leaves())[..s - from]
      {
        var root := tree.RootAt(s);
        recent := recent + [root.value];
      }
    }

    /** Slide the window by one root: what is pushed is the window of the longer log. */
    static method PushRecent(cfg: Config, recent: seq<Fr>, root: Fr, ghost receipts: seq<Fr>, ghost leaf: Fr)
      returns (pushed: seq<Fr>)
      requires recent == Window(cfg, receipts)
      requires root == RootOf(receipts + [leaf], cfg.inst.receiptDepth)
      ensures pushed == Window(cfg, receipts + [leaf])
    {
      WindowSlides(cfg, receipts, leaf);
      pushed := DropOldest(recent + [root], Width(cfg));
    }

    /** Drop from the front until at most `width` are left. */
    static method DropOldest(all: seq<Fr>, width: nat) returns (left: seq<Fr>)
      ensures left == all[if |all| > width then |all| - width else 0..]
    {
      left := all;
      while |left| > width
        invariant |left| >= width || left == all
        invariant |left| <= |all| && left == all[|all| - |left|..]
      {
        left := left[1..];
      }
    }

    /** Take the registration step. The log does not move, so neither do tree and window. */
    method Register(env: RegisterEnvelope, disk: Disk) returns (r: Result<Applied, Error>)
      requires Valid()
      modifies this
      ensures Valid() && tree == old(tree)
      ensures (r, store) == Commit(RegisterStep(cfg, old(store), env), old(store), disk.commits)
    {
      hide LedgerModel.Replays;
      var checked := CheckRegister(cfg, env);
      if checked.Err? {
        return Err(checked.error);
      }
      var account := checked.value;
      if account in store.accounts {
        return Err(AccountExists);
      }
      var com := InitialCommitment(cfg, env.randomness);
      var next := seqNo + 1;
      var receiptRoot := tree.Root();
      var root := Chain(stateRoot, next, KindRegister, account, com, Zero, receiptRoot);
      if !disk.commits {
        return Err(Storage);
      }
      StepReplays(cfg, store, Envelope.Register(env));
      store := store.(accounts := store.accounts[account := Account(env.pubkey, com, next, next)],
                      ops := store.ops + [OpRow(next, Envelope.Register(env), account, None, root)]);
      seqNo := next;
      stateRoot := root;
      return Ok(Applied(next, NO_POSITION, receiptRoot, root));
    }

    /** Apply one operation, verifying its proof individually. */
    method Apply(env: OpEnvelope, disk: Disk) returns (r: Result<Applied, Error>)
      requires Valid()
      modifies this, tree
      ensures tree == old(tree) || fresh(tree)
      ensures (r, store) == Commit(OpStep(cfg, old(store), env), old(store), disk.commits)
      ensures Valid() <==> Survives(disk) || OpStep(cfg, old(store), env).0.Err?
      ensures !Valid() ==> Holds(store.receipts + [env.receipt])
    {
      hide LedgerModel.Replays;
      var candidate := Check(env);
      if candidate.Err? {
        return Err(candidate.error);
      }
      var com := store.accounts[env.account].com;
      if !cfg.crypto.verifyOp(candidate.value, Statement(env, com)) {
        return Err(InvalidProof);
      }
      StepReplays(cfg, store, Op(env));
      r := ApplyVerified(env, com, disk);
    }

    /** Admission of one operation against the current tables. */
    method Check(env: OpEnvelope) returns (r: Result<Proof, Error>)
      requires Valid()
      ensures r == Candidate(cfg, store, env)
    {
      var proof := Admit(cfg, env);
      if proof.Err? {
        return proof;
      }
      if env.account !in store.accounts {
        return Err(UnknownAccount);
      }
      if store.accounts[env.account].com != env.com {
        return Err(StaleCommitment);
      }
      if env.root !in recent {
        return Err(RootNotRecent);
      }
      return proof;
    }

    /**
     * The write behind a verified proof. Memory moves before the tables do, so a commit that
     * fails is made good by a reload; memory stays one receipt ahead exactly when that fails too.
     */
    method ApplyVerified(env: OpEnvelope, com: Fr, disk: Disk) returns (r: Result<Applied, Error>)
      requires Valid() && Replays(cfg, WriteOp(cfg, store, env, com).1)
      modifies this, tree
      ensures tree == old(tree) || fresh(tree)
      ensures (r, store) == Commit(WriteOp(cfg, old(store), env, com), old(store), disk.commits)
      ensures Valid() <==> Survives(disk) || WriteOp(cfg, old(store), env, com).0.Err?
      ensures !Valid() ==> Holds(store.receipts + [env.receipt])
    {
      hide LedgerModel.Replays, LedgerModel.WriteOver;
      WriteLog(cfg, store, store.receipts, env, com);
      r := Write(env, com, disk, store.receipts);
      assert store.receipts + [env.receipt] != store.receipts;
    }

    /** The write itself, for whatever log the memory holds. */
    method Write(env: OpEnvelope, com: Fr, disk: Disk, ghost log: seq<Fr>) returns (r: Result<Applied, Error>)
      requires Holds(log) && |store.receipts| <= Pow2(cfg.inst.receiptDepth)
      modifies this, tree
      ensures tree == old(tree) || fresh(tree)
      ensures (r, store) == Commit(WriteOver(cfg, old(store), log, env, com), old(store), disk.commits)
      ensures Holds(if WriteOver(cfg, old(store), log, env, com).0.Err? then log
                    else if !disk.commits && disk.reloads then store.receipts
                    else log + [env.receipt])
    {
      if env.account !in store.accounts {
        return Err(UnknownAccount);
      }
      if store.accounts[env.account].com != com {
        return Err(StaleCommitment);
      }
      if env.root !in recent {
        return Err(RootNotRecent);
      }
      var next := seqNo + 1;
      var position := tree.Size();
      if position >= Pow2(cfg.inst.receiptDepth) {
        return Err(ReceiptLogFull);
      }
      var receiptRoot := Extend(env.receipt, log);
      var root := Chain(stateRoot, next, KindOp, env.account, env.comNew, env.receipt, receiptRoot);
      if !disk.commits {
        if disk.reloads {
          ReloadTree();
        }
        return Err(Storage);
      }
      store := store.(
        receipts := store.receipts + [env.receipt],
        roots := store.roots[position + 1 := receiptRoot],
        accounts := store.accounts[env.account := store.accounts[env.account].(com := env.comNew, updated := next)],
        ops := store.ops + [OpRow(next, Op(env), env.account, Some(position), root)]);
      seqNo := next;
      stateRoot := root;
      return Ok(Applied(next, position, receiptRoot, root));
    }

    /**
     * Apply a batch. Every member is admitted against the tables as the batch opens, the
     * proofs are verified together and, if that fails, one by one; survivors are written in
     * order, each re-judged against the tables at its turn.
     */
    method ApplyBatch(envs: seq<OpEnvelope>, batchVerify: seq<(Proof, Relations.OpStatement)> -> bool, disks: seq<Disk>)
      returns (results: seq<Result<Applied, Error>>)
      requires Valid() && |disks| == |envs| && (forall d | d in disks :: Survives(d))
      requires BatchSound(cfg.crypto, batchVerify)
      modifies this, tree
      ensures Valid() && (tree == old(tree) || fresh(tree))
      ensures (results, store) == Batch(cfg, old(store), envs, Commits(disks))
    {
      ghost var start, commits := store, Commits(disks);
      var answers, claims := AdmitAll(envs);
      var valid := VerifyAll(envs, claims, batchVerify);
      SettleStart(cfg, start, envs, commits, answers);
      answers := WriteAll(envs, claims, valid, disks, answers, start);
      SettleEnd(cfg, start, envs, commits, answers, store);
      results := Answers(answers);
    }

    /** Every candidate takes its turn, in order. */
    method WriteAll(envs: seq<OpEnvelope>, claims: seq<Claim>, valid: seq<bool>, disks: seq<Disk>,
                    answers: seq<Option<Result<Applied, Error>>>, ghost start: Store)
      returns (settled: seq<Option<Result<Applied, Error>>>)
      requires Valid() && |disks| == |envs| && (forall d | d in disks :: Survives(d))
      requires ClaimsOf(cfg, start, envs, claims, |envs|) && ValidityOf(cfg.crypto, envs, claims, valid)
      requires Settled(cfg, start, envs, Commits(disks), answers, store, 0)
      modifies this, tree
      ensures Valid() && (tree == old(tree) || fresh(tree))
      ensures Settled(cfg, start, envs, Commits(disks), settled, store, |envs|)
    {
      hide LedgerModel.Candidate, LedgerModel.Replays, LedgerModel.Settled;
      settled := answers;
      for k := 0 to |claims|
        invariant Valid() && (tree == old(tree) || fresh(tree))
        invariant Settled(cfg, start, envs, Commits(disks), settled, store, Lower(claims, k))
      {
        settled := TakeTurn(envs, claims, k, valid[k], disks, settled, start);
      }
      assert Gap(cfg, start, envs, Lower(claims, |claims|), Upper(claims, |claims|, |envs|));
      SettleGap(cfg, start, envs, Commits(disks), settled, store, Lower(claims, |claims|), |envs|);
    }

    /** The next candidate's turn: the members since the last one keep their admission errors. */
    method TakeTurn(envs: seq<OpEnvelope>, claims: seq<Claim>, k: nat, valid: bool, disks: seq<Disk>,
                    answers: seq<Option<Result<Applied, Error>>>, ghost start: Store)
      returns (settled: seq<Option<Result<Applied, Error>>>)
      requires Valid() && |disks| == |envs| && (forall d | d in disks :: Survives(d))
      requires ClaimsOf(cfg, start, envs, claims, |envs|) && k < |claims|
      requires valid == cfg.crypto.verifyOp(claims[k].proof, Statement(envs[claims[k].index], claims[k].com))
      requires Settled(cfg, start, envs, Commits(disks), answers, store, Lower(claims, k))
      modifies this, tree
      ensures Valid() && (tree == old(tree) || fresh(tree))
      ensures Settled(cfg, start, envs, Commits(disks), settled, store, Lower(claims, k + 1))
    {
      hide LedgerModel.Candidate, LedgerModel.Replays, LedgerModel.Settled, LedgerModel.BatchMember;
      var i := claims[k].index;
      assert Gap(cfg, start, envs, Lower(claims, k), Upper(claims, k, |envs|));
      SettleGap(cfg, start, envs, Commits(disks), answers, store, Lower(claims, k), i);
      ghost var before := store;
      var answer := WriteMember(envs[i], claims[k], valid, disks[i], start);
      SettleMember(cfg, start, envs, Commits(disks), answers, before, i, answer, store);
      settled := answers[i := Some(answer)];
    }

    /** Judge every member against the tables as they are, keeping the candidates in order. */
    method AdmitAll(envs: seq<OpEnvelope>)
      returns (answers: seq<Option<Result<Applied, Error>>>, claims: seq<Claim>)
      requires Valid()
      ensures |answers| == |envs| && ClaimsOf(cfg, store, envs, claims, |envs|)
      ensures Refused(cfg, store, envs, answers, 0, |envs|)
    {
      answers, claims := seq(|envs|, i => None), [];
      for i := 0 to |envs|
        invariant |answers| == |envs| && ClaimsOf(cfg, store, envs, claims, i)
        invariant Refused(cfg, store, envs, answers, 0, i)
      {
        var candidate := Check(envs[i]);
        ClaimsGrow(cfg, store, envs, claims, i, if candidate.Ok? then candidate.value else Proof([]));
        if candidate.Ok? {
          claims := claims + [Claim(i, candidate.value, store.accounts[envs[i].account].com)];
        } else {
          answers := answers[i := Some(Err(candidate.error))];
        }
      }
    }

    /** One member's turn: an earlier member of the batch may have moved its account. */
    method WriteMember(env: OpEnvelope, claim: Claim, valid: bool, disk: Disk, ghost start: Store)
      returns (answer: Result<Applied, Error>)
      requires Valid() && Survives(disk)
      requires Candidate(cfg, start, env) == Ok(claim.proof) && claim.com == env.com
      requires valid == cfg.crypto.verifyOp(claim.proof, Statement(env, claim.com))
      modifies this, tree
      ensures Valid() && (tree == old(tree) || fresh(tree))
      ensures (answer, store) == Commit(BatchMember(cfg, start, old(store), env), old(store), disk.commits)
    {
      if !valid {
        return Err(InvalidProof);
      }
      if env.account !in store.accounts {
        return Err(UnknownAccount);
      }
      if store.accounts[env.account].com != claim.com {
        return Err(StaleCommitment);
      }
      BatchMemberIff(cfg, start, store, env);
      StepReplays(cfg, store, Op(env));
      answer := ApplyVerified(env, claim.com, disk);
    }

    /** One joint check, and only if it fails one check each: the answers are the single verifier's. */
    method VerifyAll(envs: seq<OpEnvelope>, claims: seq<Claim>,
        batchVerify: seq<(Proof, Relations.OpStatement)> -> bool)
      returns (valid: seq<bool>)
      requires forall c | c in claims :: c.index < |envs|
      requires BatchSound(cfg.crypto, batchVerify)
      ensures ValidityOf(cfg.crypto, envs, claims, valid)
    {
      var statements := seq(|claims|, k requires 0 <= k < |claims| =>
        (claims[k].proof, Statement(envs[claims[k].index], claims[k].com)));
      valid := seq(|claims|, k => true);
      assert forall k | 0 <= k < |claims| ::
          statements[k] == (claims[k].proof, Statement(envs[claims[k].index], claims[k].com));
      if !batchVerify(statements) {
        for k := 0 to |statements|
          invariant |valid| == |claims|
          invariant forall j | 0 <= j < k :: valid[j] == cfg.crypto.verifyOp(statements[j].0, statements[j].1)
        {
          valid := valid[k := cfg.crypto.verifyOp(statements[k].0, statements[k].1)];
        }
      }
    }

    /** Take the mint step: a new deposit id adds its receipt to the log, and no account moves. */
    method Mint(env: MintEnvelope, disk: Disk) returns (r: Result<Applied, Error>)
      requires Valid()
      modifies this, tree
      ensures tree == old(tree) || fresh(tree)
      ensures (r, store) == Commit(MintStep(cfg, old(store), env), old(store), disk.commits)
      ensures Valid() <==> Survives(disk) || MintStep(cfg, old(store), env).0.Err?
      ensures !Valid() ==> Holds(store.receipts + [env.intent.receipt])
    {
      hide LedgerModel.Replays;
      var intent := env.intent;
      var checked := CheckMint(cfg, env);
      if checked.Err? {
        return Err(checked.error);
      }
      if env.depositId in store.deposits {
        return Err(Storage);
      }
      var proof := cfg.crypto.decodeProof(intent.proof);
      if proof.Err? {
        return Err(proof.error);
      }
      if !cfg.crypto.verifyDeposit(proof.value, intent.amount, intent.receipt) {
        return Err(InvalidProof);
      }
      var next := seqNo + 1;
      var position := tree.Size();
      if position >= Pow2(cfg.inst.receiptDepth) {
        return Err(ReceiptLogFull);
      }
      StepReplays(cfg, store, Envelope.Mint(env));
      var receiptRoot := Extend(intent.receipt, store.receipts);
      var root := Chain(stateRoot, next, KindMint, MintSender, Num(intent.amount), intent.receipt, receiptRoot);
      if !disk.commits {
        if disk.reloads {
          ReloadTree();
        }
        return Err(Storage);
      }
      store := store.(
        receipts := store.receipts + [intent.receipt],
        roots := store.roots[position + 1 := receiptRoot],
        deposits := store.deposits[env.depositId := Deposit(intent.receipt, intent.amount, next)],
        ops := store.ops + [OpRow(next, Envelope.Mint(env), MintSender, Some(position), root)]);
      seqNo := next;
      stateRoot := root;
      return Ok(Applied(next, position, receiptRoot, root));
    }

    /** Memory takes over one more receipt, ahead of the tables. */
    method Extend(leaf: Fr, ghost log: seq<Fr>) returns (receiptRoot: Fr)
      requires Mirrors(log) && |log| < Pow2(cfg.inst.receiptDepth)
      modifies this`recent, tree
      ensures Mirrors(log + [leaf])
      ensures receiptRoot == RootOf(log + [leaf], cfg.inst.receiptDepth)
    {
      var appended := tree.Append(leaf);
      receiptRoot := tree.Root();
      recent := PushRecent(cfg, recent, receiptRoot, log, leaf);
    }

    /** The sum over the deposit table, row by row in any order. */
    method MintedTotal() returns (total: nat)
      ensures total == Minted(store.deposits)
    {
      total := 0;
      var rows := store.deposits.Keys;
      while rows != {}
        invariant rows <= store.deposits.Keys
        invariant total + SumOver(rows, AmountIn(store.deposits)) == Minted(store.deposits)
        decreases |rows|
      {
        var row :| row in rows;
        SumSplit(rows, AmountIn(store.deposits), row);
        total := total + store.deposits[row].amount;
        rows := rows - {row};
      }
    }

    /** One page of the accepted history: the first rows numbered `from` or later, `limit` at most. */
    method History(from: nat, limit: nat) returns (page: seq<OpRow>)
      ensures Ascending(store.ops) ==> FirstFrom(store.ops, from, limit, page)
    {
      page := Page(store.ops, Before(store.ops, from), limit);
      if Ascending(store.ops) {
        PageIsFirst(store.ops, from, limit);
      }
    }

    /**
     * Audit the tables with an empty twin that is fed the rows page by page. The answer is
     * positive exactly when the rows replay, one envelope at a time and number by number, to
     * the head this ledger holds.
     */
    method VerifyReplay() returns (r: Result<StateRoot, Error>)
      requires Supported(cfg) && Ascending(store.ops)
      ensures r.Ok? <==>
                var replayed := Replay(cfg, store.ops);
                replayed.Some? && StateRootOf(cfg, replayed.value) == stateRoot
      ensures r.Ok? ==> r.value == stateRoot
      ensures Valid() ==> r.Ok?
    {
      var blank := Open(cfg, Store(None, None, map[], [], map[], map[], []));
      var twin := blank.value;
      var replayed := ReplayInto(twin);
      if replayed.Err? {
        return Err(replayed.error);
      }
      if twin.stateRoot != stateRoot {
        return Err(Storage);
      }
      return Ok(twin.stateRoot);
    }

    /** Submit the whole history, page by page, to an empty twin; each row goes once, in order. */
    method ReplayInto(twin: Ledger) returns (r: Result<(), Error>)
      requires Ascending(store.ops) && twin != this
      requires twin.Valid() && twin.cfg == cfg && twin.store == EmptyStore(cfg)
      modifies twin, twin.tree
      ensures twin.Valid()
      ensures if r.Ok? then Replay(cfg, store.ops) == Some(twin.store) else Replay(cfg, store.ops).None?
    {
      hide *;
      ghost var rows, done := store.ops, 0;
      var from: nat := 1;
      ReplayStarts(cfg, rows);
      var page := History(from, 256);
      TurnPage(rows, 0, from, 256, page);
      while page != []
        invariant twin.Valid() && (twin.tree == old(twin.tree) || fresh(twin.tree))
        invariant store.ops == rows && Turned(rows, done, page)
        invariant ReplayedTo(cfg, rows, done, twin.store)
        decreases |rows| - done
      {
        TurnedLast(rows, done, page);
        var replayed := twin.ReplayPage(page, rows, done);
        if replayed.Err? {
          return replayed;
        }
        from := page[|page| - 1].seqNo + 1;
        done := done + |page|;
        page := History(from, 256);
        TurnPage(rows, done, from, 256, page);
      }
      ReplayEnds(cfg, rows, done, twin.store);
      return Ok(());
    }

    /** Submit one page of history to this ledger; every row must land on its own number. */
    method ReplayPage(page: seq<OpRow>, ghost rows: seq<OpRow>, ghost done: nat) returns (r: Result<(), Error>)
      requires Valid() && Turned(rows, done, page) && ReplayedTo(cfg, rows, done, store)
      modifies this, tree
      ensures Valid() && (tree == old(tree) || fresh(tree))
      ensures r.Ok? ==> ReplayedTo(cfg, rows, done + |page|, store)
      ensures r.Err? ==> Replay(cfg, rows).None?
    {
      hide LedgerModel.Step;
      for i := 0 to |page|
        invariant Valid() && (tree == old(tree) || fresh(tree))
        invariant ReplayedTo(cfg, rows, done + i, store)
      {
        ReplayPrefix(cfg, rows, done + i);
        var applied := Submit(page[i].envelope, Disk(true, true));
        if applied.Err? {
          return Err(applied.error);
        }
        if applied.value.seqNo != page[i].seqNo {
          return Err(Storage);
        }
      }
      return Ok(());
    }

    /** One envelope through the entry point of its kind. */
    method Submit(env: Envelope, disk: Disk) returns (r: Result<Applied, Error>)
      requires Valid()
      modifies this, tree
      ensures tree == old(tree) || fresh(tree)
      ensures Valid() <==> Survives(disk) || env.Register? || Step(cfg, old(store), env).0.Err?
      ensures (r, store) == Commit(Step(cfg, old(store), env), old(store), disk.commits)
    {
      match env
      case Register(reg) => r := Register(reg, disk);
      case Op(op) => r := Apply(op, disk);
      case Mint(mint) => r := Mint(mint, disk);
    }

    /** Rebuild the tree and the window from the tables. */
    method ReloadTree()
      requires Supported(cfg) && |store.receipts| <= Pow2(cfg.inst.receiptDepth)
      modifies this
      ensures Mirrors(store.receipts) && fresh(tree)
      ensures store == old(store) && seqNo == old(seqNo) && stateRoot == old(stateRoot)
    {
      var t := ReceiptTree.FromLeaves(cfg.inst.receiptDepth, store.receipts);
      tree := t.value;
      recent := RecentFromTree(cfg, tree);
    }
  }

  /** Appending slides the window: its roots are the old ones and the new root, cut to width. */
  lemma WindowSlides(cfg: Config, receipts: seq<Fr>, leaf: Fr)
    ensures var all := Window(cfg, receipts) + [RootOf(receipts + [leaf], cfg.inst.receiptDepth)];
            var drop := if |all| > Width(cfg) then |all| - Width(cfg) else 0;
            Window(cfg, receipts + [leaf]) == all[drop..]
  {
    var grown := receipts + [leaf];
    var all := Window(cfg, receipts) + [RootOf(grown, cfg.inst.receiptDepth)];
    var drop := if |all| > Width(cfg) then |all| - Width(cfg) else 0;
    var w := Window(cfg, grown);
    assert |w| == |all| - drop;
    forall i | 0 <= i < |w|
      ensures w[i] == all[drop..][i]
    {
      var size := WindowFrom(cfg, |grown|) + i;
      if size <= |receipts| {
        assert grown[..size] == receipts[..size];
      } else {
        assert grown[..size] == grown;
      }
    }
  }

  /**
   * Reopening the tables of a ledger, after a crash at any point between two writes, gives
   * back the same memory: tree with all its levels, window, sequence number and state root.
   */
  method Reopen(before: Ledger) returns (after: Ledger)
    requires before.Valid()
    ensures fresh(after) && after.Valid()
    ensures after.store == before.store && after.cfg == before.cfg
    ensures after.tree.levels == before.tree.levels && after.recent == before.recent
    ensures after.seqNo == before.seqNo && after.stateRoot == before.stateRoot
  {
    ReplayOpens(before.cfg, before.store.ops);
    var reopened := Ledger.Open(before.cfg, before.store);
    after := reopened.value;
    CachedUnique(after.tree.levels, before.tree.levels, before.tree.depth);
  }

  /**
   * What a lost reload leads to: an operation whose commit and reload both fail, then any
   * operation that is written. Both answers look normal, and the tables do not open again.
   */
  method LostReload(l: Ledger, first: OpEnvelope, second: OpEnvelope)
    returns (r: Result<Applied, Error>, q: Result<Applied, Error>)
    requires l.Valid() && OpStep(l.cfg, l.store, first).0.Ok?
    requires WriteOver(l.cfg, l.store, l.store.receipts + [first.receipt], second, second.com).0.Ok?
    modifies l, l.tree
    ensures r == Err(Storage) && q.Ok? && !Openable(l.cfg, l.store)
  {
    hide LedgerModel.WriteOver, LedgerModel.OpStep, LedgerModel.Openable;
    ghost var before := l.store;
    ReplayOpens(l.cfg, before.ops);
    r := l.Apply(first, Disk(false, false));
    AheadUnopenable(l.cfg, before, first.receipt, second, second.com);
    q := l.Write(second, second.com, Disk(true, true), before.receipts + [first.receipt]);
  }
}
