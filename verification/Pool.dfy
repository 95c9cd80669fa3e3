/**
 * The consensus application actor, submission side: admission checks, the pool of transactions
 * to propose, and the reply channels of submitters.
 */
module Pools {
  import opened Base
  import opened ConsensusState
  import opened Actors

  const MAX_MEMPOOL_TXS: nat := 4096
  const MAX_MEMPOOL_BYTES: nat := 32 * 1024 * 1024
  const MAX_ADMISSIONS_IN_FLIGHT: nat := 64

  /** A submitter's reply channel and how long it is willing to wait. */
  datatype Submitter = Submitter(reply: nat, timeout: nat)
  datatype Waiter = Waiter(reply: nat, expires: nat)

  /** An admission check off the actor: running, or finished with its message on the way back. */
  datatype Admission =
    | Checking(tx: Tx, submitter: Option<Submitter>)
    | Passed(tx: Tx, submitter: Option<Submitter>)
    | Turned(tx: Tx)

  /** Where the one sender of a reply channel is. */
  datatype Place = Admitting(tx: Tx, ticket: nat) | Waiting(tx: Tx) | Answered(tx: Tx)

  /** The bytes a pool holds. */
  ghost function TotalSize(pool: seq<PoolEntry>): nat {
    if pool == [] then 0 else TotalSize(pool[..|pool| - 1]) + pool[|pool| - 1].size
  }

  ghost predicate EachTxOnce(pool: seq<PoolEntry>) {
    forall i, j | 0 <= i < j < |pool| :: pool[i].tx != pool[j].tx
  }

  ghost predicate Listed(pool: seq<PoolEntry>, ids: set<Tx>) {
    forall tx :: tx in ids <==> exists i :: 0 <= i < |pool| && pool[i].tx == tx
  }

  lemma {:induction false} TotalSizeOut(pool: seq<PoolEntry>, i: nat)
    requires i < |pool|
    ensures TotalSize(pool) == TotalSize(pool[..i] + pool[i + 1..]) + pool[i].size
    decreases |pool|
  {
    var n := |pool| - 1;
    if i == n {
      assert pool[..i] + pool[i + 1..] == pool[..n];
    } else {
      TotalSizeOut(pool[..n], i);
      var rest := pool[..i] + pool[i + 1..];
      assert rest[..n - 1] == pool[..n][..i] + pool[..n][i + 1..];
      assert rest[n - 1] == pool[n];
    }
  }

  /** A pool none of whose transactions are excluded stays as it is. */
  lemma {:induction false} NoneOut(pool: seq<PoolEntry>, excluded: set<Tx>)
    requires forall i | 0 <= i < |pool| :: pool[i].tx !in excluded
    ensures Eligible(pool, excluded) == pool
  {
    if pool != [] {
      NoneOut(pool[..|pool| - 1], excluded);
      assert pool == pool[..|pool| - 1] + [pool[|pool| - 1]];
    }
  }

  /** In a pool without repeats, excluding a transaction takes out its one entry. */
  lemma {:induction false} OneOut(pool: seq<PoolEntry>, i: nat)
    requires EachTxOnce(pool) && i < |pool|
    ensures Eligible(pool, {pool[i].tx}) == pool[..i] + pool[i + 1..]
  {
    var n := |pool| - 1;
    if i == n {
      NoneOut(pool[..n], {pool[i].tx});
      assert pool[..i] + pool[i + 1..] == pool[..n];
    } else {
      OneOut(pool[..n], i);
      assert pool[..i] + pool[i + 1..] == pool[..n][..i] + pool[..n][i + 1..] + [pool[n]];
    }
  }

  /** Excluding twice is excluding both. */
  lemma {:induction false} OutTwice(pool: seq<PoolEntry>, a: set<Tx>, b: set<Tx>)
    ensures Eligible(Eligible(pool, a), b) == Eligible(pool, a + b)
  {
    if pool != [] {
      var rest, last := pool[..|pool| - 1], pool[|pool| - 1];
      OutTwice(rest, a, b);
      if last.tx in a {
        assert Eligible(pool, a) == Eligible(rest, a);
      } else {
        var once := Eligible(pool, a);
        assert once[..|once| - 1] == Eligible(rest, a);
      }
    }
  }

  /** Taking one entry out of a pool without repeats takes its transaction out of the listing. */
  lemma TakenOut(pool: seq<PoolEntry>, ids: set<Tx>, i: nat)
    requires EachTxOnce(pool) && Listed(pool, ids) && i < |pool|
    ensures var rest := pool[..i] + pool[i + 1..];
            && EachTxOnce(rest) && Listed(rest, ids - {pool[i].tx}) && TotalSize(pool) == TotalSize(rest) + pool[i].size
            && rest == Eligible(pool, {pool[i].tx})
  {
    var rest := pool[..i] + pool[i + 1..];
    TotalSizeOut(pool, i);
    OneOut(pool, i);
    forall tx
      ensures tx in ids - {pool[i].tx} <==> exists k :: 0 <= k < |rest| && rest[k].tx == tx
    {
      if tx in ids && tx != pool[i].tx {
        var k :| 0 <= k < |pool| && pool[k].tx == tx;
        assert rest[if k < i then k else k - 1].tx == tx;
      }
    }
  }

  function Replies(ws: seq<Waiter>): (replies: set<nat>)
    ensures forall c :: c in replies <==> exists i :: 0 <= i < |ws| && ws[i].reply == c
  {
    set i | 0 <= i < |ws| :: ws[i].reply
  }

  /** `first` on the channel that asked first, `others` on the rest. */
  function Verdicts(ws: seq<Waiter>, first: Answer, others: Answer): (sent: map<nat, Answer>)
    ensures sent.Keys == Replies(ws)
    ensures forall c | c in sent :: sent[c] == first || sent[c] == others
  {
    map c | c in Replies(ws) :: if c == ws[0].reply then first else others
  }

  lemma RepliesOfNone()
    ensures Replies([]) == {} && EachReplyOnce([])
  {
  }

  lemma KeptSame(place: Places, sent: map<nat, Answer>)
    ensures Kept(place, place, sent, sent)
  {
  }

  ghost predicate EachReplyOnce(ws: seq<Waiter>) {
    forall i, j | 0 <= i < j < |ws| :: ws[i].reply != ws[j].reply
  }

  type Places = map<nat, Place>

  /** A channel is in one running admission at most, and that is where its place says it is. */
  ghost predicate Admits(tasks: map<nat, Admission>, place: Places) {
    && (forall t | t in tasks && !tasks[t].Turned? && tasks[t].submitter.Some? ::
          var c := tasks[t].submitter.value.reply; c in place && place[c] == Admitting(tasks[t].tx, t))
    && (forall c | c in place && place[c].Admitting? ::
          var t := place[c].ticket;
          t in tasks && !tasks[t].Turned? && tasks[t].submitter.Some? && tasks[t].submitter.value.reply == c)
  }

  /** A waiting channel is in exactly one position of exactly one list, its transaction's. */
  ghost predicate Waits(waiters: map<Tx, seq<Waiter>>, place: Places) {
    && (forall tx | tx in waiters :: EachReplyOnce(waiters[tx]))
    && (forall tx, c | tx in waiters && c in Replies(waiters[tx]) :: c in place && place[c] == Waiting(tx))
    && (forall c | c in place && place[c].Waiting? ::
          place[c].tx in waiters && c in Replies(waiters[place[c].tx]))
  }

  /** The answered channels are the ones sent on, and an Ok is the ledger's own record. */
  ghost predicate Answers(answered: map<nat, Answer>, place: Places, outcomes: set<(Tx, Answer)>) {
    && (forall c :: c in answered <==> c in place && place[c].Answered?)
    && (forall c | c in answered && answered[c].Ok? :: (place[c].tx, answered[c]) in outcomes)
  }

  /** Every channel is in exactly one place: an admission, a waiting list, or answered. */
  ghost predicate Accounted(tasks: map<nat, Admission>, waiters: map<Tx, seq<Waiter>>, answered: map<nat, Answer>,
      place: Places, outcomes: set<(Tx, Answer)>)
  {
    Admits(tasks, place) && Waits(waiters, place) && Answers(answered, place, outcomes)
  }

  /** Channels of `tx` are answered. */
  function Settled(place: Places, replies: set<nat>, tx: Tx): (p: Places)
    ensures p.Keys == place.Keys + replies
    ensures forall c | c in p :: p[c] == if c in replies then Answered(tx) else place[c]
  {
    place + map c | c in replies :: Answered(tx)
  }

  lemma WaitsSettled(waiters: map<Tx, seq<Waiter>>, place: Places, tx: Tx, kept: seq<Waiter>)
    requires Waits(waiters, place) && tx in waiters
    requires EachReplyOnce(kept) && Replies(kept) <= Replies(waiters[tx])
    ensures Waits(waiters[tx := kept], Settled(place, Replies(waiters[tx]) - Replies(kept), tx))
  {
    hide Replies, EachReplyOnce, Settled;
    var w, p := waiters[tx := kept], Settled(place, Replies(waiters[tx]) - Replies(kept), tx);
    forall other, c | other in w && c in Replies(w[other])
      ensures c in p && p[c] == Waiting(other)
    {
      assert c in Replies(waiters[other]);
    }
  }

  lemma AdmitsSettled(tasks: map<nat, Admission>, place: Places, tx: Tx, replies: set<nat>)
    requires Admits(tasks, place) && forall c | c in replies :: c in place && place[c] == Waiting(tx)
    ensures Admits(tasks, Settled(place, replies, tx))
  {
  }

  /** No channel is lost, moved to another transaction, or answered a second time. */
  ghost predicate Kept(before: Places, after: Places, sent: map<nat, Answer>, sentAfter: map<nat, Answer>) {
    && (forall c | c in before :: c in after && after[c].tx == before[c].tx)
    && (forall c | c in sent :: c in sentAfter && sentAfter[c] == sent[c])
  }

  lemma AnswersSettled(answered: map<nat, Answer>, place: Places, outcomes: set<(Tx, Answer)>, tx: Tx,
      sent: map<nat, Answer>)
    requires Answers(answered, place, outcomes)
    requires forall c | c in sent :: c in place && place[c] == Waiting(tx)
    requires forall c | c in sent && sent[c].Ok? :: (tx, sent[c]) in outcomes
    ensures Answers(answered + sent, Settled(place, sent.Keys, tx), outcomes)
    ensures Kept(place, Settled(place, sent.Keys, tx), answered, answered + sent)
  {
  }

  /** One step of answering, on values. */
  lemma SettleStep(tasks: map<nat, Admission>, waiters: map<Tx, seq<Waiter>>, place: Places,
      answered: map<nat, Answer>, outcomes: set<(Tx, Answer)>, tx: Tx, kept: seq<Waiter>, sent: map<nat, Answer>)
    requires Accounted(tasks, waiters, answered, place, outcomes) && tx in waiters
    requires EachReplyOnce(kept) && Replies(kept) <= Replies(waiters[tx])
    requires sent.Keys == Replies(waiters[tx]) - Replies(kept)
    requires forall c | c in sent && sent[c].Ok? :: (tx, sent[c]) in outcomes
    ensures var after := Settled(place, sent.Keys, tx);
            && Accounted(tasks, waiters[tx := kept], answered + sent, after, outcomes)
            && Kept(place, after, answered, answered + sent) && after.Keys == place.Keys
  {
    hide Replies, EachReplyOnce, Admits, Answers, Kept, Settled;
    WaitsSettled(waiters, place, tx, kept);
    AdmitsSettled(tasks, place, tx, sent.Keys);
    AnswersSettled(answered, place, outcomes, tx, sent);
    assert place.Keys + sent.Keys == place.Keys;
  }

  /** Empty waiting lists hold no channel. */
  lemma DropStep(tasks: map<nat, Admission>, waiters: map<Tx, seq<Waiter>>, answered: map<nat, Answer>,
      place: Places, outcomes: set<(Tx, Answer)>, gone: set<Tx>)
    requires Accounted(tasks, waiters, answered, place, outcomes)
    requires forall tx | tx in gone && tx in waiters :: waiters[tx] == []
    ensures Accounted(tasks, waiters - gone, answered, place, outcomes)
  {
  }

  /** A channel that does not wait can be placed anywhere else. */
  lemma WaitsElse(waiters: map<Tx, seq<Waiter>>, place: Places, c: nat, at: Place)
    requires Waits(waiters, place) && (c in place ==> !place[c].Waiting?) && !at.Waiting?
    ensures Waits(waiters, place[c := at])
  {
    hide Replies, EachReplyOnce;
  }

  /** A channel not answered yet is answered with an error. */
  lemma AnswersNew(answered: map<nat, Answer>, place: Places, outcomes: set<(Tx, Answer)>, c: nat, tx: Tx, error: Error)
    requires Answers(answered, place, outcomes) && (c in place ==> !place[c].Answered? && place[c].tx == tx)
    ensures Answers(answered[c := Err(error)], place[c := Answered(tx)], outcomes)
    ensures Kept(place, place[c := Answered(tx)], answered, answered[c := Err(error)])
  {
  }

  /** A new channel is answered at once. */
  lemma RefuseStep(tasks: map<nat, Admission>, waiters: map<Tx, seq<Waiter>>, answered: map<nat, Answer>,
      place: Places, outcomes: set<(Tx, Answer)>, tx: Tx, reply: nat, error: Error)
    requires Accounted(tasks, waiters, answered, place, outcomes) && reply !in place
    ensures var after, sent := place[reply := Answered(tx)], answered[reply := Err(error)];
            Accounted(tasks, waiters, sent, after, outcomes) && Kept(place, after, answered, sent)
  {
    hide Waits, Answers, Kept;
    WaitsElse(waiters, place, reply, Answered(tx));
    AnswersNew(answered, place, outcomes, reply, tx, error);
  }

  /** An admission starts, with a new channel or with none. */
  lemma AdmitStep(tasks: map<nat, Admission>, waiters: map<Tx, seq<Waiter>>, answered: map<nat, Answer>,
      place: Places, outcomes: set<(Tx, Answer)>, tx: Tx, submitter: Option<Submitter>, ticket: nat)
    requires Accounted(tasks, waiters, answered, place, outcomes)
    requires ticket !in tasks && (submitter.Some? ==> submitter.value.reply !in place)
    ensures var after := if submitter.Some? then place[submitter.value.reply := Admitting(tx, ticket)] else place;
            && Accounted(tasks[ticket := Checking(tx, submitter)], waiters, answered, after, outcomes)
            && Kept(place, after, answered, answered)
  {
    hide Waits;
    if submitter.Some? {
      WaitsElse(waiters, place, submitter.value.reply, Admitting(tx, ticket));
    }
  }

  /** An admission check passes: nobody is told anything yet. */
  lemma PassStep(tasks: map<nat, Admission>, waiters: map<Tx, seq<Waiter>>, answered: map<nat, Answer>,
      place: Places, outcomes: set<(Tx, Answer)>, ticket: nat)
    requires Accounted(tasks, waiters, answered, place, outcomes) && ticket in tasks && tasks[ticket].Checking?
    ensures Accounted(tasks[ticket := Passed(tasks[ticket].tx, tasks[ticket].submitter)], waiters, answered, place,
              outcomes)
  {
  }

  /** An admission check fails: its channel, if it has one, is answered. */
  lemma TurnStep(tasks: map<nat, Admission>, waiters: map<Tx, seq<Waiter>>, answered: map<nat, Answer>,
      place: Places, outcomes: set<(Tx, Answer)>, ticket: nat, error: Error)
    requires Accounted(tasks, waiters, answered, place, outcomes) && ticket in tasks && tasks[ticket].Checking?
    ensures var Checking(tx, submitter) := tasks[ticket];
            var after := if submitter.Some? then place[submitter.value.reply := Answered(tx)] else place;
            var sent := if submitter.Some? then answered[submitter.value.reply := Err(error)] else answered;
            && Accounted(tasks[ticket := Turned(tx)], waiters, sent, after, outcomes)
            && Kept(place, after, answered, sent) && after.Keys == place.Keys
  {
    hide Waits, Answers, Kept;
    var Checking(tx, submitter) := tasks[ticket];
    KeptSame(place, answered);
    if submitter.Some? {
      WaitsElse(waiters, place, submitter.value.reply, Answered(tx));
      AnswersNew(answered, place, outcomes, submitter.value.reply, tx, error);
    }
  }

  /** A transaction's waiting list, empty when nobody waits. */
  function ListOf(waiters: map<Tx, seq<Waiter>>, tx: Tx): seq<Waiter> {
    if tx in waiters then waiters[tx] else []
  }

  /** The waiters after an admission's message: the submitter, if any, waits last in line. */
  function Pushed(waiters: map<Tx, seq<Waiter>>, tx: Tx, submitter: Option<Submitter>, now: nat): map<Tx, seq<Waiter>> {
    if submitter.None? then waiters
    else waiters[tx := ListOf(waiters, tx) + [Waiter(submitter.value.reply, now + submitter.value.timeout)]]
  }

  lemma RepliesPushed(ws: seq<Waiter>, w: Waiter)
    requires EachReplyOnce(ws) && w.reply !in Replies(ws)
    ensures EachReplyOnce(ws + [w]) && Replies(ws + [w]) == Replies(ws) + {w.reply}
  {
    forall c
      ensures c in Replies(ws + [w]) <==> c in Replies(ws) || c == w.reply
    {
      if c in Replies(ws) {
        var i :| 0 <= i < |ws| && ws[i].reply == c;
        assert (ws + [w])[i].reply == c;
      }
      assert (ws + [w])[|ws|] == w;
    }
  }

  lemma WaitsPushed(waiters: map<Tx, seq<Waiter>>, place: Places, tx: Tx, w: Waiter)
    requires Waits(waiters, place) && w.reply in place && place[w.reply].Admitting?
    ensures Waits(waiters[tx := ListOf(waiters, tx) + [w]], place[w.reply := Waiting(tx)])
  {
    hide Replies, EachReplyOnce;
    assert w.reply !in Replies(ListOf(waiters, tx)) && EachReplyOnce(ListOf(waiters, tx)) by { RepliesOfNone(); }
    RepliesPushed(ListOf(waiters, tx), w);
    var list := waiters[tx := ListOf(waiters, tx) + [w]];
    forall other, c | other in list && c in Replies(list[other])
      ensures var p := place[w.reply := Waiting(tx)]; c in p && p[c] == Waiting(other)
    {
      if other != tx {
        assert c in Replies(waiters[other]);
      } else if c != w.reply {
        assert c in Replies(ListOf(waiters, tx));
        RepliesOfNone();
      }
    }
  }

  lemma AdmitsArrived(tasks: map<nat, Admission>, place: Places, ticket: nat)
    requires Admits(tasks, place) && ticket in tasks && tasks[ticket].Passed?
    ensures tasks[ticket].submitter.Some? ==>
              Admits(tasks - {ticket}, place[tasks[ticket].submitter.value.reply := Waiting(tasks[ticket].tx)])
    ensures tasks[ticket].submitter.None? ==> Admits(tasks - {ticket}, place)
  {
  }

  /** An admission's message is handled: its channel moves to the waiting list. */
  lemma ArriveStep(tasks: map<nat, Admission>, waiters: map<Tx, seq<Waiter>>, answered: map<nat, Answer>,
      place: Places, outcomes: set<(Tx, Answer)>, ticket: nat, now: nat)
    requires Accounted(tasks, waiters, answered, place, outcomes) && ticket in tasks && tasks[ticket].Passed?
    ensures var Passed(tx, submitter) := tasks[ticket];
            var after := if submitter.Some? then place[submitter.value.reply := Waiting(tx)] else place;
            && Accounted(tasks - {ticket}, Pushed(waiters, tx, submitter, now), answered, after, outcomes)
            && Kept(place, after, answered, answered) && after.Keys == place.Keys
  {
    hide Waits;
    AdmitsArrived(tasks, place, ticket);
    var Passed(tx, submitter) := tasks[ticket];
    if submitter.Some? {
      WaitsPushed(waiters, place, tx, Waiter(submitter.value.reply, now + submitter.value.timeout));
    }
  }

  /** A failed admission's message is handled. */
  lemma LeaveStep(tasks: map<nat, Admission>, waiters: map<Tx, seq<Waiter>>, answered: map<nat, Answer>,
      place: Places, outcomes: set<(Tx, Answer)>, ticket: nat)
    requires Accounted(tasks, waiters, answered, place, outcomes) && ticket in tasks && tasks[ticket].Turned?
    ensures Accounted(tasks - {ticket}, waiters, answered, place, outcomes)
  {
    hide Waits, Answers;
  }

  /** The waiters whose own deadline has not passed. */
  ghost function Unexpired(ws: seq<Waiter>, now: nat): (kept: seq<Waiter>)
    ensures forall w :: w in kept <==> w in ws && w.expires > now
  {
    if ws == [] then []
    else
      var last := ws[|ws| - 1];
      assert ws == ws[..|ws| - 1] + [last];
      Unexpired(ws[..|ws| - 1], now) + (if last.expires > now then [last] else [])
  }

  lemma {:induction false} UnexpiredDistinct(ws: seq<Waiter>, now: nat)
    requires EachReplyOnce(ws)
    ensures EachReplyOnce(Unexpired(ws, now)) && Replies(Unexpired(ws, now)) <= Replies(ws)
  {
    if ws != [] {
      var rest := ws[..|ws| - 1];
      UnexpiredDistinct(rest, now);
      forall i | 0 <= i < |Unexpired(rest, now)|
        ensures Unexpired(rest, now)[i].reply != ws[|ws| - 1].reply
      {
        assert Unexpired(rest, now)[i] in rest;
      }
    }
    forall c | c in Replies(Unexpired(ws, now))
      ensures c in Replies(ws)
    {
      var w :| w in Unexpired(ws, now) && w.reply == c;
      assert w in ws;
    }
  }

  lemma ListDistinct(tasks: map<nat, Admission>, waiters: map<Tx, seq<Waiter>>, answered: map<nat, Answer>,
      place: Places, outcomes: set<(Tx, Answer)>, tx: Tx)
    requires Accounted(tasks, waiters, answered, place, outcomes) && tx in waiters
    ensures EachReplyOnce(waiters[tx])
  {
  }

  lemma KeptChain(p: Places, q: Places, r: Places, a: map<nat, Answer>, b: map<nat, Answer>, c: map<nat, Answer>)
    requires Kept(p, q, a, b) && Kept(q, r, b, c)
    ensures Kept(p, r, a, c)
  {
  }

  /** Whatever was sent since is a refusal. */
  ghost predicate OnlyErrorsSince(before: map<nat, Answer>, after: map<nat, Answer>) {
    forall c | c in after && c !in before :: after[c] == Err(Storage)
  }

  lemma VerdictsOfNone(answered: map<nat, Answer>, first: Answer, others: Answer)
    ensures answered + Verdicts([], first, others) == answered
  {
    RepliesOfNone();
    assert Verdicts([], first, others) == map[];
  }

  /** The entries whose time in the pool has not passed, in order. */
  ghost function InTime(pool: seq<PoolEntry>, now: nat, ttl: nat): seq<PoolEntry> {
    if pool == [] then []
    else
      var last := pool[|pool| - 1];
      InTime(pool[..|pool| - 1], now, ttl) + (if now > last.added + ttl then [] else [last])
  }

  /** Excluding exactly the transactions of overdue entries leaves the entries in time. */
  lemma {:induction false} InTimeIs(pool: seq<PoolEntry>, expired: set<Tx>, now: nat, ttl: nat)
    requires forall e | e in pool :: e.tx in expired <==> now > e.added + ttl
    ensures Eligible(pool, expired) == InTime(pool, now, ttl)
  {
    if pool != [] {
      var rest, last := pool[..|pool| - 1], pool[|pool| - 1];
      assert forall e | e in rest :: e in pool;
      assert last in pool;
      InTimeIs(rest, expired, now, ttl);
    }
  }

  /** A transaction not listed goes to the end of the pool. */
  lemma PutIn(pool: seq<PoolEntry>, ids: set<Tx>, e: PoolEntry)
    requires EachTxOnce(pool) && Listed(pool, ids) && e.tx !in ids
    ensures EachTxOnce(pool + [e]) && Listed(pool + [e], ids + {e.tx})
              && TotalSize(pool + [e]) == TotalSize(pool) + e.size
  {
    assert (pool + [e])[..|pool|] == pool;
    forall tx
      ensures tx in ids + {e.tx} <==> exists k :: 0 <= k < |pool + [e]| && (pool + [e])[k].tx == tx
    {
      if tx in ids {
        var k :| 0 <= k < |pool| && pool[k].tx == tx;
        assert (pool + [e])[k].tx == tx;
      } else if tx == e.tx {
        assert (pool + [e])[|pool|].tx == tx;
      }
    }
  }

  function TxSet(txs: seq<Tx>): (s: set<Tx>)
    ensures forall tx :: tx in s <==> tx in txs
  {
    set tx | tx in txs
  }

  lemma ErrorsNone(answered: map<nat, Answer>)
    ensures OnlyErrorsSince(answered, answered)
  {
  }

  lemma ErrorsChain(p: Places, q: Places, a: map<nat, Answer>, b: map<nat, Answer>, c: map<nat, Answer>)
    requires OnlyErrorsSince(a, b) && OnlyErrorsSince(b, c) && Kept(p, q, b, c)
    ensures OnlyErrorsSince(a, c)
  {
  }

  /** What waiters after the first get: the same record, or a copy of the error by message. */
  function Repeated(answer: Answer): (again: Answer)
    ensures again.Ok? ==> again == answer
  {
    if answer.Ok? then answer else Err(Storage)
  }

  /**
   * Everyone on a waiting list holds the record if the answer is one; if it is an error, the one
   * who asked first holds that error, and the others an error that repeats its message.
   */
  ghost predicate Delivered(ws: seq<Waiter>, answer: Answer, answered: map<nat, Answer>) {
    forall i | 0 <= i < |ws| ::
      ws[i].reply in answered
      && answered[ws[i].reply] == if answer.Ok? || i == 0 then answer else Err(Storage)
  }

  lemma VerdictsDeliver(ws: seq<Waiter>, answer: Answer, before: map<nat, Answer>)
    requires EachReplyOnce(ws)
    ensures Delivered(ws, answer, before + Verdicts(ws, answer, Repeated(answer)))
  {
  }

  /**
   * Everyone who waited for one of the first `n` transactions has its answer (its first
   * answer, should a block list it twice).
   */
  ghost predicate Told(txs: seq<Tx>, answers: seq<Answer>, waiters: map<Tx, seq<Waiter>>, answered: map<nat, Answer>,
      n: nat)
    requires n <= |txs| == |answers|
  {
    forall k | 0 <= k < n && txs[k] !in txs[..k] && txs[k] in waiters ::
      Delivered(waiters[txs[k]], answers[k], answered)
  }

  lemma ToldNone(txs: seq<Tx>, answers: seq<Answer>, waiters: map<Tx, seq<Waiter>>, answered: map<nat, Answer>)
    requires |txs| == |answers|
    ensures Told(txs, answers, waiters, answered, 0)
  {
  }

  lemma ToldStep(txs: seq<Tx>, answers: seq<Answer>, waiters: map<Tx, seq<Waiter>>, a: map<nat, Answer>,
      b: map<nat, Answer>, p: Places, q: Places, i: nat)
    requires i < |txs| == |answers| && Told(txs, answers, waiters, a, i) && Kept(p, q, a, b)
    requires txs[i] in waiters && txs[i] !in txs[..i] ==> Delivered(waiters[txs[i]], answers[i], b)
    ensures Told(txs, answers, waiters, b, i + 1)
  {
  }

  lemma OutcomesGrow(tasks: map<nat, Admission>, waiters: map<Tx, seq<Waiter>>, answered: map<nat, Answer>,
      place: Places, outcomes: set<(Tx, Answer)>, more: set<(Tx, Answer)>)
    requires Accounted(tasks, waiters, answered, place, outcomes)
    ensures Accounted(tasks, waiters, answered, place, outcomes + more)
  {
    hide Admits, Waits;
  }

  class Pool {
    const ttl: nat
    var mempool: seq<PoolEntry>
    var mempoolIds: set<Tx>
    var mempoolBytes: nat
    var admissionsInFlight: nat
    var tasks: map<nat, Admission>
    var waiters: map<Tx, seq<Waiter>>
    var clock: nat
    /** What went out on each reply channel. */
    var answered: map<nat, Answer>
    /** Where each channel's sender is, and what the ledgers answered in applied blocks. */
    ghost var place: Places
    ghost var outcomes: set<(Tx, Answer)>

    ghost predicate Valid()
      reads this
    {
      PoolOk() && TasksOk() && RepliesOk()
    }

    /** The pool lists each transaction once, its accounting is exact, and both caps hold. */
    ghost predicate PoolOk()
      reads this`mempool, this`mempoolIds, this`mempoolBytes
    {
      && EachTxOnce(mempool) && Listed(mempool, mempoolIds)
      && mempoolBytes == TotalSize(mempool) <= MAX_MEMPOOL_BYTES
      && |mempool| <= MAX_MEMPOOL_TXS
    }

    /** The in-flight counter is exact and keeps its cap. */
    ghost predicate TasksOk()
      reads this`tasks, this`admissionsInFlight
    {
      admissionsInFlight == |tasks| <= MAX_ADMISSIONS_IN_FLIGHT
    }

    /** Every channel is in exactly one place: an admission, a waiting list, or answered. */
    ghost predicate RepliesOk()
      reads this`tasks, this`waiters, this`answered, this`place, this`outcomes
    {
      Accounted(tasks, waiters, answered, place, outcomes)
    }

    constructor (ttl: nat, ghost outcomes: set<(Tx, Answer)>)
      ensures Valid() && fresh(this) && mempool == [] && place == map[] && this.outcomes == outcomes
    {
      this.ttl, mempool, mempoolIds, mempoolBytes := ttl, [], {}, 0;
      admissionsInFlight, tasks, waiters, clock, answered := 0, map[], map[], 0, map[];
      place, this.outcomes := map[], outcomes;
    }

    twostate predicate Keeps()
      reads this`place, this`answered
    {
      Kept(old(place), place, old(answered), answered)
    }

    // ---- the pool -----------------------------------------------------------

    /** Take a transaction out of the pool, wherever it stands in it. */
    method RemoveFromMempool(tx: Tx)
      requires PoolOk()
      modifies this`mempool, this`mempoolIds, this`mempoolBytes
      ensures PoolOk() && mempoolIds == old(mempoolIds) - {tx} && mempool == Eligible(old(mempool), {tx})
    {
      if tx !in mempoolIds {
        NoneOut(mempool, {tx});
        return;
      }
      mempoolIds := mempoolIds - {tx};
      for i := 0 to |mempool|
        invariant forall k | 0 <= k < i :: mempool[k].tx != tx
        invariant mempool == old(mempool) && mempoolBytes == old(mempoolBytes)
      {
        var e := mempool[i];
        if e.tx == tx {
          TakenOut(mempool, old(mempoolIds), i);
          assert mempool == mempool[..i] + [e] + mempool[i + 1..];
          mempool := mempool[..i] + mempool[i + 1..];
          mempoolBytes := mempoolBytes - e.size;
          return;
        }
      }
    }

    // ---- answering ----------------------------------------------------------

    /** Answer everyone waiting for a transaction. */
    method AnswerAll(tx: Tx, first: Answer, others: Answer)
      requires RepliesOk()
      requires (first.Ok? ==> (tx, first) in outcomes) && (others.Ok? ==> (tx, others) in outcomes)
      modifies this`waiters, this`answered, this`place
      ensures RepliesOk() && Keeps() && waiters == old(waiters) - {tx} && place.Keys == old(place.Keys)
      ensures answered == if tx in old(waiters) then old(answered) + Verdicts(old(waiters)[tx], first, others)
                else old(answered)
    {
      hide Accounted, Replies, Kept;
      KeptSame(place, answered);
      if tx in waiters {
        var ws := waiters[tx];
        assert Replies([]) == {} by { RepliesOfNone(); }
        Settle(tx, [], Verdicts(ws, first, others));
        DropStep(tasks, waiters, answered, place, outcomes, {tx});
        waiters := waiters - {tx};
      }
    }

    /** Answer those of a transaction's waiters that are not kept. */
    method Settle(tx: Tx, kept: seq<Waiter>, sent: map<nat, Answer>)
      requires RepliesOk() && tx in waiters
      requires EachReplyOnce(kept) && Replies(kept) <= Replies(waiters[tx])
      requires sent.Keys == Replies(waiters[tx]) - Replies(kept)
      requires forall c | c in sent && sent[c].Ok? :: (tx, sent[c]) in outcomes
      modifies this`waiters, this`answered, this`place
      ensures RepliesOk() && Keeps() && waiters == old(waiters)[tx := kept] && answered == old(answered) + sent
      ensures place.Keys == old(place.Keys)
    {
      hide Replies, EachReplyOnce, Accounted, Kept, Settled;
      SettleStep(tasks, waiters, place, answered, outcomes, tx, kept, sent);
      waiters := waiters[tx := kept];
      answered := answered + sent;
      place := Settled(place, sent.Keys, tx);
    }

    // ---- admission ----------------------------------------------------------

    /** Answer a channel that waits nowhere yet. */
    method Refuse(tx: Tx, reply: nat)
      requires RepliesOk() && reply !in place
      modifies this`answered, this`place
      ensures RepliesOk() && Keeps() && answered == old(answered)[reply := Err(Storage)]
      ensures place == old(place)[reply := Answered(tx)]
    {
      hide Accounted, Kept;
      RefuseStep(tasks, waiters, answered, place, outcomes, tx, reply, Storage);
      answered := answered[reply := Err(Storage)];
      place := place[reply := Answered(tx)];
    }

    /** Whether a new admission check may start. */
    predicate Busy()
      reads this`admissionsInFlight, this`mempool
    {
      admissionsInFlight >= MAX_ADMISSIONS_IN_FLIGHT || |mempool| >= MAX_MEMPOOL_TXS
    }

    /**
     * A transaction is submitted here (with a reply channel) or comes from a peer (without).
     * Its checks run off the actor, so many at a time; past that the submitter is refused.
     */
    method Admit(tx: Tx, submitter: Option<Submitter>, ticket: nat)
      requires Valid() && ticket !in tasks && (submitter.Some? ==> submitter.value.reply !in place)
      modifies this`tasks, this`admissionsInFlight, this`answered, this`place
      ensures Valid() && Keeps()
      ensures if old(admissionsInFlight) >= 64 || |mempool| >= 4096
              then tasks == old(tasks)
                   && answered == if submitter.None? then old(answered)
                                  else old(answered)[submitter.value.reply := Err(Storage)]
              else tasks == old(tasks)[ticket := Checking(tx, submitter)] && answered == old(answered)
      ensures place.Keys == old(place.Keys) + (if submitter.Some? then {submitter.value.reply} else {})
    {
      hide PoolOk, Accounted, Kept, TasksOk;
      KeptSame(place, answered);
      if Busy() {
        if submitter.Some? {
          Refuse(tx, submitter.value.reply);
        }
        return;
      }
      StartCheck(tx, submitter, ticket);
    }

    /** A check starts off the actor. */
    method StartCheck(tx: Tx, submitter: Option<Submitter>, ticket: nat)
      requires TasksOk() && RepliesOk() && !Busy()
      requires ticket !in tasks && (submitter.Some? ==> submitter.value.reply !in place)
      modifies this`tasks, this`admissionsInFlight, this`place
      ensures TasksOk() && RepliesOk() && Keeps() && tasks == old(tasks)[ticket := Checking(tx, submitter)]
      ensures place.Keys == old(place.Keys) + (if submitter.Some? then {submitter.value.reply} else {})
    {
      hide Accounted, Kept;
      AdmitStep(tasks, waiters, answered, place, outcomes, tx, submitter, ticket);
      admissionsInFlight := admissionsInFlight + 1;
      tasks := tasks[ticket := Checking(tx, submitter)];
      if submitter.Some? {
        place := place[submitter.value.reply := Admitting(tx, ticket)];
      }
    }

    /** A transaction gossiped by a peer is admitted unless it is pooled already. */
    method OnPeerTx(tx: Tx, ticket: nat)
      requires Valid() && ticket !in tasks
      modifies this`tasks, this`admissionsInFlight, this`answered, this`place
      ensures Valid() && Keeps() && place.Keys == old(place.Keys)
      ensures tx in mempoolIds ==> tasks == old(tasks)
    {
      hide Accounted, PoolOk, Kept;
      KeptSame(place, answered);
      if tx !in mempoolIds {
        Admit(tx, None, ticket);
      }
    }

    /** An admission check ends: a refusal goes to the submitter, whose part then ends. */
    method CheckDone(ticket: nat, refusal: Option<Error>)
      requires Valid() && ticket in tasks && tasks[ticket].Checking?
      modifies this`tasks, this`answered, this`place
      ensures Valid() && Keeps() && place.Keys == old(place.Keys)
      ensures var t := old(tasks)[ticket];
              && tasks == old(tasks)[ticket := if refusal.Some? then Turned(t.tx) else Passed(t.tx, t.submitter)]
              && answered == if refusal.Some? && t.submitter.Some?
                             then old(answered)[t.submitter.value.reply := Err(refusal.value)] else old(answered)
    {
      hide PoolOk, Accounted, Kept;
      KeptSame(place, answered);
      var t := tasks[ticket];
      if refusal.None? {
        PassStep(tasks, waiters, answered, place, outcomes, ticket);
        tasks := tasks[ticket := Passed(t.tx, t.submitter)];
        return;
      }
      TurnStep(tasks, waiters, answered, place, outcomes, ticket, refusal.value);
      tasks := tasks[ticket := Turned(t.tx)];
      if t.submitter.Some? {
        var reply := t.submitter.value.reply;
        answered := answered[reply := Err(refusal.value)];
        place := place[reply := Answered(t.tx)];
      }
    }

    /** Whether a transaction of `size` bytes fits into the pool. */
    predicate Fits(size: nat)
      reads this`mempool, this`mempoolBytes
    {
      |mempool| < MAX_MEMPOOL_TXS && mempoolBytes + size <= MAX_MEMPOOL_BYTES
    }

    /**
     * An admission's message arrives. The submitter waits from now on, and the transaction
     * enters the pool unless it is there; if it does not fit, all who wait for it are refused.
     */
    method OnAdmission(ticket: nat, size: nat)
      requires Valid() && ticket in tasks && !tasks[ticket].Checking?
      modifies this
      ensures Valid() && Keeps() && place.Keys == old(place.Keys) && outcomes == old(outcomes)
      ensures tasks == old(tasks) - {ticket}
      ensures var t := old(tasks)[ticket];
              if t.Turned? then mempool == old(mempool) && waiters == old(waiters) && answered == old(answered)
              else
                var list := Pushed(old(waiters), t.tx, t.submitter, old(clock));
                if t.tx in old(mempoolIds) then
                  mempool == old(mempool) && waiters == list && answered == old(answered)
                else if |old(mempool)| < 4096 && old(mempoolBytes) + size <= 32 * 1024 * 1024 then
                  mempool == old(mempool) + [PoolEntry(t.tx, size, old(clock))] && waiters == list
                      && answered == old(answered)
                else
                  && mempool == old(mempool) && waiters == list - {t.tx}
                  && answered == old(answered) + Verdicts(ListOf(list, t.tx), Err(Storage), Err(Storage))
    {
      hide PoolOk, Accounted, Kept, Verdicts, Pushed;
      var t := tasks[ticket];
      admissionsInFlight := admissionsInFlight - 1;
      if t.Turned? {
        LeaveStep(tasks, waiters, answered, place, outcomes, ticket);
        KeptSame(place, answered);
        tasks := tasks - {ticket};
        return;
      }
      Arrive(ticket);
      ghost var place0, answered0 := place, answered;
      OnAdmitted(t.tx, size);
      KeptChain(old(place), place0, place, old(answered), answered0, answered);
    }

    /** An admitted transaction whose submitter waits already enters the pool if it can. */
    method OnAdmitted(tx: Tx, size: nat)
      requires PoolOk() && RepliesOk()
      modifies this`mempool, this`mempoolIds, this`mempoolBytes, this`waiters, this`answered, this`place
      ensures PoolOk() && RepliesOk() && Keeps() && place.Keys == old(place.Keys)
      ensures tx in old(mempoolIds) || !old(Fits(size)) ==> mempool == old(mempool)
      ensures tx !in old(mempoolIds) && old(Fits(size)) ==> mempool == old(mempool) + [PoolEntry(tx, size, clock)]
      ensures tx in old(mempoolIds) || old(Fits(size)) ==> waiters == old(waiters) && answered == old(answered)
      ensures tx !in old(mempoolIds) && !old(Fits(size)) ==>
                && waiters == old(waiters) - {tx}
                && answered == old(answered) + Verdicts(ListOf(old(waiters), tx), Err(Storage), Err(Storage))
    {
      hide PoolOk, Accounted, Kept, Verdicts;
      KeptSame(place, answered);
      if tx in mempoolIds {
        return;
      }
      if Fits(size) {
        Enter(tx, size);
      } else {
        VerdictsOfNone(answered, Err(Storage), Err(Storage));
        AnswerAll(tx, Err(Storage), Err(Storage));
      }
    }

    /** A passed admission ends: its submitter, if any, joins the waiters. */
    method Arrive(ticket: nat)
      requires RepliesOk() && ticket in tasks && tasks[ticket].Passed?
      modifies this`tasks, this`waiters, this`place
      ensures RepliesOk() && Keeps() && place.Keys == old(place.Keys) && tasks == old(tasks) - {ticket}
      ensures var t := old(tasks)[ticket]; waiters == Pushed(old(waiters), t.tx, t.submitter, clock)
    {
      hide Accounted, Kept;
      var t := tasks[ticket];
      ArriveStep(tasks, waiters, answered, place, outcomes, ticket, clock);
      tasks := tasks - {ticket};
      if t.submitter.Some? {
        waiters := Pushed(waiters, t.tx, t.submitter, clock);
        place := place[t.submitter.value.reply := Waiting(t.tx)];
      }
    }

    /** Add a transaction that is not pooled and fits. */
    method Enter(tx: Tx, size: nat)
      requires PoolOk() && tx !in mempoolIds && Fits(size)
      modifies this`mempool, this`mempoolIds, this`mempoolBytes
      ensures PoolOk() && mempool == old(mempool) + [PoolEntry(tx, size, clock)] && mempoolIds == old(mempoolIds) + {tx}
    {
      PutIn(mempool, mempoolIds, PoolEntry(tx, size, clock));
      mempoolIds := mempoolIds + {tx};
      mempoolBytes := mempoolBytes + size;
      mempool := mempool + [PoolEntry(tx, size, clock)];
    }

    /** A validator gave up on a mint: it leaves the pool, and whoever waits for it goes on waiting. */
    method Drop(tx: Tx)
      requires Valid()
      modifies this`mempool, this`mempoolIds, this`mempoolBytes
      ensures Valid() && mempoolIds == old(mempoolIds) - {tx} && mempool == Eligible(old(mempool), {tx})
    {
      hide Accounted;
      RemoveFromMempool(tx);
    }

    // ---- deadlines ----------------------------------------------------------

    /** Tell a transaction's waiters past their deadline; keep the others. */
    method ExpireWaiters(tx: Tx)
      requires RepliesOk() && tx in waiters
      modifies this`waiters, this`answered, this`place
      ensures RepliesOk() && Keeps() && place.Keys == old(place.Keys)
      ensures waiters == old(waiters)[tx := Unexpired(old(waiters)[tx], clock)]
      ensures OnlyErrorsSince(old(answered), answered)
    {
      hide Accounted, Kept, Replies, EachReplyOnce;
      var ws := waiters[tx];
      var kept := [];
      for i := 0 to |ws|
        invariant kept == Unexpired(ws[..i], clock)
      {
        assert ws[..i + 1][..i] == ws[..i];
        if ws[i].expires > clock {
          kept := kept + [ws[i]];
        }
      }
      assert ws[..|ws|] == ws;
      ListDistinct(tasks, waiters, answered, place, outcomes, tx);
      UnexpiredDistinct(ws, clock);
      Settle(tx, kept, map c | c in Replies(ws) - Replies(kept) :: Err(Storage));
    }

    /** Tell every waiter past its deadline, and forget lists left empty. */
    method ExpireAllWaiters()
      requires RepliesOk()
      modifies this`waiters, this`answered, this`place
      ensures RepliesOk() && Keeps() && place.Keys == old(place.Keys) && OnlyErrorsSince(old(answered), answered)
      ensures forall tx :: tx in waiters <==> tx in old(waiters) && Unexpired(old(waiters)[tx], clock) != []
      ensures forall tx | tx in waiters :: waiters[tx] == Unexpired(old(waiters)[tx], clock)
    {
      hide Accounted, Kept, OnlyErrorsSince, Unexpired;
      KeptSame(place, answered);
      ErrorsNone(answered);
      var left := waiters.Keys;
      while left != {}
        invariant RepliesOk() && Keeps() && place.Keys == old(place.Keys) && OnlyErrorsSince(old(answered), answered)
        invariant waiters.Keys == old(waiters.Keys) && left <= waiters.Keys
        invariant forall tx | tx in waiters ::
                    waiters[tx] == if tx in left then old(waiters)[tx] else Unexpired(old(waiters)[tx], clock)
        decreases |left|
      {
        var tx :| tx in left;
        left := left - {tx};
        ghost var place0, answered0 := place, answered;
        ExpireWaiters(tx);
        KeptChain(old(place), place0, place, old(answered), answered0, answered);
        ErrorsChain(place0, place, old(answered), answered0, answered);
      }
      var empty := set tx | tx in waiters.Keys && waiters[tx] == [];
      DropStep(tasks, waiters, answered, place, outcomes, empty);
      waiters := waiters - empty;
    }

    /** Whether the clock has passed an entry's time in the pool. */
    predicate Overdue(e: PoolEntry)
      reads this`clock
    {
      clock > e.added + ttl
    }

    /** Transactions consensus did not include in time leave the pool, and their waiters are told. */
    method ExpirePool()
      requires PoolOk() && RepliesOk()
      modifies this`mempool, this`mempoolIds, this`mempoolBytes, this`waiters, this`answered, this`place
      ensures PoolOk() && RepliesOk() && Keeps() && place.Keys == old(place.Keys)
      ensures OnlyErrorsSince(old(answered), answered)
      ensures mempool == InTime(old(mempool), clock, ttl)
      ensures forall tx :: tx in waiters
                <==> tx in old(waiters) && !exists e :: e in old(mempool) && e.tx == tx && Overdue(e)
      ensures forall tx | tx in waiters :: waiters[tx] == old(waiters)[tx]
    {
      hide Accounted, Kept, OnlyErrorsSince, Listed, TotalSize, Eligible, InTime;
      KeptSame(place, answered);
      ErrorsNone(answered);
      var expired := OverdueTxs();
      assert TxSet(expired[..0]) == {};
      NoneOut(mempool, {});
      InTimeIs(mempool, TxSet(expired), clock, ttl);
      for i := 0 to |expired|
        invariant PoolOk() && RepliesOk() && Keeps() && place.Keys == old(place.Keys)
        invariant OnlyErrorsSince(old(answered), answered)
        invariant mempool == Eligible(old(mempool), TxSet(expired[..i]))
        invariant forall tx :: tx in waiters <==> tx in old(waiters) && tx !in expired[..i]
        invariant forall tx | tx in waiters :: waiters[tx] == old(waiters)[tx]
      {
        assert expired[..i + 1] == expired[..i] + [expired[i]];
        OutTwice(old(mempool), TxSet(expired[..i]), {expired[i]});
        assert TxSet(expired[..i + 1]) == TxSet(expired[..i]) + {expired[i]};
        ghost var place0, answered0 := place, answered;
        RemoveFromMempool(expired[i]);
        RefuseAll(expired[i]);
        KeptChain(old(place), place0, place, old(answered), answered0, answered);
        ErrorsChain(place0, place, old(answered), answered0, answered);
      }
      assert expired[..|expired|] == expired;
    }

    method OverdueTxs() returns (expired: seq<Tx>)
      requires PoolOk()
      ensures forall e | e in mempool :: e.tx in expired <==> Overdue(e)
      ensures forall tx | tx in expired :: exists e :: e in mempool && e.tx == tx && Overdue(e)
    {
      expired := [];
      for i := 0 to |mempool|
        invariant forall k | 0 <= k < i :: Overdue(mempool[k]) ==> mempool[k].tx in expired
        invariant forall tx | tx in expired :: exists e :: e in mempool && e.tx == tx && Overdue(e)
      {
        if Overdue(mempool[i]) {
          assert mempool[i] in mempool;
          expired := expired + [mempool[i].tx];
        }
      }
    }

    /** Everyone waiting for `tx` is refused. */
    method RefuseAll(tx: Tx)
      requires RepliesOk()
      modifies this`waiters, this`answered, this`place
      ensures RepliesOk() && Keeps() && waiters == old(waiters) - {tx} && place.Keys == old(place.Keys)
      ensures OnlyErrorsSince(old(answered), answered)
    {
      hide Accounted, Kept;
      AnswerAll(tx, Err(Storage), Err(Storage));
    }

    /** The clock ticks. */
    method OnTick(now: nat)
      requires Valid() && now >= clock
      modifies this`clock, this`mempool, this`mempoolIds, this`mempoolBytes, this`waiters, this`answered, this`place
      ensures Valid() && Keeps() && clock == now && place.Keys == old(place.Keys)
      ensures OnlyErrorsSince(old(answered), answered)
      ensures mempool == InTime(old(mempool), now, ttl)
      ensures forall tx | tx in waiters :: tx in old(waiters) && waiters[tx] == Unexpired(old(waiters)[tx], now)
      ensures forall tx | tx in old(waiters) && Unexpired(old(waiters)[tx], now) != [] ::
                tx in waiters <==> !exists e :: e in old(mempool) && e.tx == tx && now > e.added + ttl
    {
      hide PoolOk, Accounted, Kept, OnlyErrorsSince, Unexpired, InTime;
      clock := now;
      ExpirePool();
      ghost var place0, answered0 := place, answered;
      ExpireAllWaiters();
      KeptChain(old(place), place0, place, old(answered), answered0, answered);
      ErrorsChain(place0, place, old(answered), answered0, answered);
    }

    // ---- finalized blocks ---------------------------------------------------

    /**
     * A block was applied. Its transactions leave the pool, and whoever waited for one gets
     * what the ledger answered, error details going to the first only.
     */
    method OnApplied(txs: seq<Tx>, answers: seq<Answer>)
      requires Valid() && |answers| == |txs|
      modifies this`mempool, this`mempoolIds, this`mempoolBytes, this`waiters, this`answered, this`place, this`outcomes
      ensures Valid() && Keeps() && place.Keys == old(place.Keys) && outcomes == old(outcomes) + Paired(txs, answers)
      ensures mempool == Eligible(old(mempool), TxSet(txs))
      ensures forall tx :: tx in waiters <==> tx in old(waiters) && tx !in txs
      ensures forall tx | tx in waiters :: waiters[tx] == old(waiters)[tx]
      ensures Told(txs, answers, old(waiters), answered, |txs|)
    {
      hide PoolOk, Accounted, Kept, Told, Delivered, Verdicts, Paired, Repeated, Eligible;
      KeptSame(place, answered);
      assert TxSet(txs[..0]) == {};
      NoneOut(mempool, {});
      ToldNone(txs, answers, waiters, answered);
      OutcomesGrow(tasks, waiters, answered, place, outcomes, Paired(txs, answers));
      outcomes := outcomes + Paired(txs, answers);
      for i := 0 to |txs|
        invariant PoolOk() && RepliesOk() && Keeps() && place.Keys == old(place.Keys)
        invariant outcomes == old(outcomes) + Paired(txs, answers)
        invariant mempool == Eligible(old(mempool), TxSet(txs[..i]))
        invariant forall tx :: tx in waiters <==> tx in old(waiters) && tx !in txs[..i]
        invariant forall tx | tx in waiters :: waiters[tx] == old(waiters)[tx]
        invariant Told(txs, answers, old(waiters), answered, i)
      {
        assert txs[..i + 1] == txs[..i] + [txs[i]];
        assert (txs[i], answers[i]) in Paired(txs, answers);
        OutTwice(old(mempool), TxSet(txs[..i]), {txs[i]});
        assert TxSet(txs[..i + 1]) == TxSet(txs[..i]) + {txs[i]};
        ghost var place0, answered0 := place, answered;
        if txs[i] in waiters {
          ListDistinct(tasks, waiters, answered, place, outcomes, txs[i]);
          VerdictsDeliver(waiters[txs[i]], answers[i], answered);
        }
        RemoveFromMempool(txs[i]);
        AnswerAll(txs[i], answers[i], Repeated(answers[i]));
        KeptChain(old(place), place0, place, old(answered), answered0, answered);
        ToldStep(txs, answers, old(waiters), answered0, answered, place0, place, i);
      }
      assert txs[..|txs|] == txs;
    }
  }
}
