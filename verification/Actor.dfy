/**
 * The consensus application actor, finalization side: reports of finalized digests, block
 * bytes and completed applications arrive in any order, and the finalized chain is applied in
 * order, one block at a time.
 */
module Actors {
  import opened Base
  import LedgerModel
  import opened Sorting
  import opened ConsensusState
  import StateRoots

  const REQUEST_RETRY: nat := 500
  const BLOCK_CACHE_BEHIND: nat := 64
  const BLOCK_WINDOW_AHEAD: nat := 256
  const MAX_BLOCK_CACHE: nat := 4096
  const WAIT_TTL: nat := 10000

  /** The one block application under way: spawned, or done with its message on its way back. */
  datatype Task = Spawned(id: Id) | Done(id: Id, answers: seq<Answer>)

  /** A vote consensus asks for: the round, the parent it builds on, and where to answer. */
  datatype Context = Context(request: nat, epoch: nat, view: nat, parent: Id)

  datatype Verdict = Yes(id: Id) | No(id: Id) | Abstain

  /**
   * Votes waiting for a block's bytes, blocks waiting for their parent's, and since when; votes
   * being checked, and votes answered.
   */
  datatype Votes = Votes(
    waiting: map<Id, seq<Context>>, children: map<Id, set<Id>>, since: map<Id, nat>,
    checking: map<Context, Id>, answers: map<Context, Verdict>)

  const NO_VOTES := Votes(map[], map[], map[], map[], map[])

  ghost predicate Waits(v: Votes, c: Context) {
    exists id :: id in v.waiting && c in v.waiting[id]
  }

  /** A vote asked for and not lost: it waits, is being checked, or is answered. */
  ghost predicate Asked(v: Votes, c: Context) {
    c in v.checking || c in v.answers || Waits(v, c)
  }

  ghost predicate NoneLost(v: Votes, w: Votes) {
    forall c | Asked(v, c) :: Asked(w, c)
  }

  /** The votes `id` held up go on: none is lost, and nothing else happens if there were none. */
  ghost predicate Resumed(v: Votes, w: Votes, id: Id) {
    && NoneLost(v, w)
    && (id !in v.waiting && id !in v.children ==> w == v.(since := v.since - {id}))
  }

  /** What only grows loses no vote. */
  lemma GrownKeeps(v: Votes, w: Votes)
    requires v.checking.Keys <= w.checking.Keys && v.answers.Keys <= w.answers.Keys
    requires forall id | id in v.waiting :: id in w.waiting && forall c | c in v.waiting[id] :: c in w.waiting[id]
    ensures NoneLost(v, w)
  {
    forall c | Waits(v, c)
      ensures Waits(w, c)
    {
      var id :| id in v.waiting && c in v.waiting[id];
      assert id in w.waiting && c in w.waiting[id];
    }
  }

  /** No block stops waiting for its parent. */
  ghost predicate ChildrenGrow(v: Votes, w: Votes) {
    forall p | p in v.children :: p in w.children && v.children[p] <= w.children[p]
  }

  function WaitersIn(v: Votes, id: Id): seq<Context> {
    if id in v.waiting then v.waiting[id] else []
  }

  /** One vote on `id` was judged or waits last. */
  ghost predicate Verified(v: Votes, w: Votes, c: Context, id: Id, ready: bool) {
    if ready then
      w == if Fits(c, id) then v.(checking := v.checking[c := id]) else v.(answers := v.answers[c := No(id)])
    else
      && w == v.(waiting := v.waiting[id := WaitersIn(v, id) + [c]], children := w.children, since := w.since)
      && ChildrenGrow(v, w)
  }

  /** The votes `done` on `id` were all judged, or all wait again in their order. */
  ghost predicate Retried(v: Votes, w: Votes, id: Id, done: seq<Context>, ready: bool) {
    if ready then
      && w == v.(waiting := v.waiting - {id}, checking := w.checking, answers := w.answers)
      && v.checking.Keys <= w.checking.Keys && v.answers.Keys <= w.answers.Keys
      && forall c | c in done :: if Fits(c, id) then c in w.checking else c in w.answers
    else
      && w == v.(waiting := w.waiting, children := w.children, since := w.since)
      && w.waiting == (if done == [] then v.waiting - {id} else v.waiting[id := done])
      && ChildrenGrow(v, w)
  }

  lemma NoneRetried(v: Votes, id: Id, ready: bool)
    ensures Retried(v, v.(waiting := v.waiting - {id}), id, [], ready)
  {
  }

  lemma RetriedNext(u: Votes, v: Votes, w: Votes, id: Id, done: seq<Context>, c: Context, ready: bool)
    requires Retried(u, v, id, done, ready) && Verified(v, w, c, id, ready)
    ensures Retried(u, w, id, done + [c], ready)
  {
    hide Fits;
    if !ready {
      assert (u.waiting - {id})[id := [c]] == u.waiting[id := [c]];
    }
  }

  /** Retrying all votes on a block loses none. */
  lemma RetriedAll(v: Votes, w: Votes, id: Id, ready: bool)
    requires id in v.waiting && Retried(v, w, id, v.waiting[id], ready)
    ensures NoneLost(v, w) && w.waiting.Keys <= v.waiting.Keys && ChildrenGrow(v, w)
    ensures ready ==> id !in w.waiting
  {
    hide Fits;
    forall c | Waits(v, c)
      ensures Asked(w, c)
    {
      var at :| at in v.waiting && c in v.waiting[at];
      if at != id {
        assert at in w.waiting && c in w.waiting[at];
      } else if !ready {
        assert id in w.waiting && c in w.waiting[id];
      }
    }
  }

  function HeightOf(id: Id): nat {
    if id.GenesisId? then 0 else id.block.height
  }

  /** The block is of the round it is to be voted on in and one above that round's parent. */
  predicate Fits(context: Context, id: Id) {
    && id.BlockId? && id.block.epoch == context.epoch && id.block.view == context.view
    && id.block.parent == context.parent && id.block.height == HeightOf(context.parent) + 1
  }

  const MAX_BLOCK_TXS: nat := 128

  /** What a peer's decoder checks of a block's transactions: few enough, and none twice. */
  predicate Decodable(txs: seq<Tx>) {
    |txs| <= MAX_BLOCK_TXS && NoRepeats(txs)
  }

  /** The chain consensus finalizes: each block names its predecessor and its height. */
  ghost predicate ChainOk(genesis: Id, chain: seq<Id>) {
    && |chain| > 0 && chain[0] == genesis
    && (forall h | 0 < h < |chain| ::
          chain[h].BlockId? && chain[h].block.height == h && chain[h].block.parent == chain[h - 1])
  }

  /** Blocks of different heights are different, so a chain lists each block once. */
  lemma ChainDistinct(genesis: Id, chain: seq<Id>, i: nat, j: nat)
    requires ChainOk(genesis, chain) && genesis.GenesisId? && i < |chain| && j < |chain|
    ensures chain[i] == chain[j] <==> i == j
  {
  }

  class Actor {
    const genesis: Id
    const state: State
    var head: Head
    var blocks: map<Id, Block>
    /** When each wanted block was last asked for, and the requests sent. */
    var requested: map<Id, nat>
    var asked: seq<Id>
    var votes: Votes
    var finalizedKnown: map<nat, Id>
    var finalizedUnknown: set<Id>
    var applying: bool
    var task: Option<Task>
    var clock: nat
    /** The finalized chain, as far as anything has been reported. */
    ghost const chain: seq<Id>

    ghost predicate Valid()
      reads this, state
    {
      && genesis.GenesisId? && ChainOk(genesis, chain)
      && Anchored() && HeadOk() && Known() && Cached() && Ballots() && TaskHeld()
    }

    /** What the state has applied is a prefix of the finalized chain. */
    ghost predicate Anchored()
      reads state
    {
      && state.genesis == genesis && state.Valid() && state.head.height < |chain|
      && state.applied == chain[1..state.head.height + 1]
    }

    /** The actor's head trails the state by at most the application under way. */
    ghost predicate HeadOk()
      reads this`head, this`applying, this`task, state
    {
      && (applying <==> task.Some?)
      && head.height < |chain| && head.digest == chain[head.height]
      && (task.None? ==> head == state.head)
      && (task.Some? && task.value.Spawned? ==> head == state.head)
      && (task.Some? && task.value.Done? ==>
            state.head.height == head.height + 1 && task.value.answers == TipAnswers(state.cfgs, state.applied))
      && (task.Some? ==> head.height + 1 < |chain| && task.value.id == chain[head.height + 1])
    }

    /** Whatever is marked finalized is the chain's own block at that height. */
    ghost predicate Known()
      reads this`finalizedKnown, this`finalizedUnknown
    {
      && (forall h | h in finalizedKnown :: 0 < h < |chain| && finalizedKnown[h] == chain[h])
      && (forall id | id in finalizedUnknown :: id in chain && id != genesis)
    }

    /** The block being applied is one whose bytes were here. */
    ghost predicate TaskHeld()
      reads this`task, this`blocks
    {
      task.Some? ==> task.value.id in blocks
    }

    /** Cached bytes are the block their digest names. */
    ghost predicate Cached()
      reads this`blocks
    {
      forall id | id in blocks :: id.BlockId? && blocks[id] == id.block
    }

    /** A block is checked further, and voted for, only in a round it fits. */
    ghost predicate Ballots()
      reads this`votes
    {
      && (forall c | c in votes.checking :: Fits(c, votes.checking[c]))
      && (forall c | c in votes.answers && votes.answers[c].Yes? :: Fits(c, votes.answers[c].id))
    }

    /** Start from whatever the store holds, after a crash as well as from nothing. */
    constructor (genesis: Id, state: State, ghost chain: seq<Id>)
      requires genesis.GenesisId? && state.genesis == genesis && state.Valid() && ChainOk(genesis, chain)
      requires state.head.height < |chain| && state.applied == chain[1..state.head.height + 1]
      ensures Valid() && fresh(this) && this.state == state && this.genesis == genesis && this.chain == chain
      ensures head == state.head && blocks == map[] && requested == map[] && clock == 0 && !applying
      ensures votes == NO_VOTES
      ensures finalizedKnown == map[] && finalizedUnknown == {}
    {
      this.genesis, this.state, this.chain, this.head := genesis, state, chain, state.head;
      blocks, requested, asked, votes := map[], map[], [], NO_VOTES;
      finalizedKnown := map[];
      finalizedUnknown, applying, task, clock := {}, false, None, 0;
    }

    /** Ask peers for a block, at most once per retry interval. */
    method Request(id: Id)
      modifies this`requested, this`asked
      ensures id in requested && requested.Keys == old(requested.Keys) + {id}
      ensures var soon := id in old(requested) && clock < old(requested)[id] + REQUEST_RETRY;
              && requested == (if soon then old(requested) else old(requested)[id := clock])
              && asked == (if soon then old(asked) else old(asked) + [id])
    {
      if id in requested && clock < requested[id] + REQUEST_RETRY {
        return;
      }
      requested := requested[id := clock];
      asked := asked + [id];
    }

    // ---- finalizing ---------------------------------------------------------

    /** Height `h` of the chain is applied, marked finalized, or reported and awaiting its bytes. */
    ghost predicate Remembered(h: nat)
      requires h < |chain|
      reads this`head, this`finalizedKnown, this`finalizedUnknown
    {
      h <= head.height || h in finalizedKnown || chain[h] in finalizedUnknown
    }

    /** No step forgets a height. */
    twostate predicate Remembers()
      reads this`head, this`finalizedKnown, this`finalizedUnknown
    {
      forall h: nat | h < |chain| && old(Remembered(h)) :: Remembered(h)
    }

    /** Forgetting only what the head has passed is forgetting no height. */
    twostate lemma AboveRemembers()
      requires head == old(head) && finalizedUnknown == old(finalizedUnknown)
      requires forall h | h in old(finalizedKnown) && h > head.height :: h in finalizedKnown
      ensures Remembers()
    {
    }

    /**
     * Nothing more can be done for the outstanding heights: an application is under way, or
     * the lowest of them lacks its bytes, which have been asked for.
     */
    ghost predicate Drained()
      reads this`head, this`finalizedKnown, this`applying, this`blocks, this`requested
    {
      finalizedKnown != map[] ==>
        var low: nat := Min(finalizedKnown.Keys);
        low > head.height && (applying || (finalizedKnown[low] !in blocks && finalizedKnown[low] in requested))
    }

    /** The keys of `finalizedKnown` the head has already passed. */
    ghost function Passed(): set<nat>
      reads this
    {
      set h | h in finalizedKnown.Keys && h <= head.height
    }

    /**
     * Get the lowest outstanding height moving: one just above the head is applied if it can
     * be, and one higher up has its parents followed until they meet the head or run out of
     * bytes, which are then asked for.
     */
    method DrainFinalized()
      requires Valid()
      modifies this`finalizedKnown, this`requested, this`asked, this`applying, this`task
      ensures Valid() && Drained()
      ensures forall h | h in old(finalizedKnown) && h > head.height :: h in finalizedKnown
      ensures old(requested.Keys) <= requested.Keys
    {
      hide Anchored, HeadOk, Cached, ChainOk, Ballots, TaskHeld;
      while finalizedKnown != map[]
        invariant Valid() && old(requested.Keys) <= requested.Keys
        invariant forall h | h in old(finalizedKnown) && h > head.height :: h in finalizedKnown
        decreases |Passed()|, if finalizedKnown == map[] then 0 else Min(finalizedKnown.Keys)
      {
        var height: nat := Min(finalizedKnown.Keys);
        var id := finalizedKnown[height];
        if height <= head.height {
          Forget(height);
          continue;
        }
        assert Passed() == {};
        if height == head.height + 1 {
          StartNext(id);
          return;
        }
        var progressed := WalkGap(height, id);
        if !progressed {
          return;
        }
        assert Passed() == {};
      }
    }

    /** A height the head has passed is no longer outstanding. */
    method Forget(height: nat)
      requires Known() && height in finalizedKnown && height <= head.height
      modifies this`finalizedKnown
      ensures Known() && finalizedKnown == old(finalizedKnown) - {height} && |Passed()| < |old(Passed())|
    {
      hide ChainOk;
      ghost var before := Passed();
      finalizedKnown := finalizedKnown - {height};
      assert Passed() == before - {height};
    }

    /**
     * The block after the head is finalized: apply it if its bytes are here and no other block
     * is being applied. The chain hypothesis makes it extend the head.
     */
    method StartNext(id: Id)
      requires Valid() && head.height + 1 < |chain| && id == chain[head.height + 1]
      modifies this`requested, this`asked, this`applying, this`task
      ensures Valid() && old(requested.Keys) <= requested.Keys
      ensures applying || (id !in blocks && id in requested)
      ensures id in blocks ==> blocks[id].parent == head.digest
    {
      hide Anchored;
      if id !in blocks {
        Request(id);
        return;
      }
      if applying {
        return;
      }
      applying := true;
      task := Some(Spawned(id));
    }

    /** Walk from a finalized block towards the head, marking parents, until bytes are missing or the head is met. */
    method WalkGap(height: nat, id: Id) returns (progressed: bool)
      requires ChainOk(genesis, chain) && Known() && Cached()
      requires height in finalizedKnown && finalizedKnown[height] == id
      requires height > head.height + 1 && forall h | h in finalizedKnown :: h >= height
      modifies this`finalizedKnown, this`requested, this`asked
      ensures Known() && old(finalizedKnown.Keys) <= finalizedKnown.Keys
      ensures old(requested.Keys) <= requested.Keys
      ensures forall h | h in finalizedKnown :: h > head.height
      ensures progressed ==> exists h :: h in finalizedKnown && h < height
      ensures !progressed ==> finalizedKnown == old(finalizedKnown) && id !in blocks && id in requested
    {
      var cur := id;
      ghost var at := height;
      progressed := false;
      while true
        invariant Known() && old(finalizedKnown.Keys) <= finalizedKnown.Keys
        invariant old(requested.Keys) <= requested.Keys
        invariant head.height < at <= height && cur == chain[at]
        invariant forall h | h in finalizedKnown :: h > head.height
        invariant if at == height then !progressed && finalizedKnown == old(finalizedKnown)
                  else progressed && at in finalizedKnown
        decreases at
      {
        if cur !in blocks {
          Request(cur);
          break;
        }
        var b := blocks[cur];
        if b.height <= head.height + 1 {
          if b.height == head.height + 1 {
            progressed := progressed || b.height !in finalizedKnown;
            finalizedKnown := finalizedKnown[b.height := cur];
          }
          break;
        }
        progressed := progressed || b.height - 1 !in finalizedKnown;
        finalizedKnown := finalizedKnown[b.height - 1 := b.parent];
        cur := b.parent;
        at := at - 1;
      }
    }

    /** Consensus reports a finalized digest. */
    method OnFinalized(id: Id)
      requires Valid() && id in chain
      modifies this`finalizedKnown, this`finalizedUnknown, this`requested, this`asked, this`applying, this`task
      ensures Valid() && Remembers() && (old(Drained()) || id != genesis ==> Drained())
      ensures finalizedUnknown == old(finalizedUnknown) + (if id == genesis || id in blocks then {} else {id})
      ensures finalizedUnknown - old(finalizedUnknown) <= requested.Keys && old(requested.Keys) <= requested.Keys
      ensures forall h: nat | h < |chain| && chain[h] == id :: Remembered(h)
    {
      hide Anchored, HeadOk;
      OnlyAt(id);
      if id == genesis {
        return;
      }
      if id in blocks {
        finalizedKnown := finalizedKnown[blocks[id].height := id];
      } else if id !in finalizedUnknown {
        finalizedUnknown := finalizedUnknown + {id};
        Request(id);
      }
      DrainFinalized();
    }

    /** A digest of the chain stands at its own height only. */
    lemma OnlyAt(id: Id)
      requires genesis.GenesisId? && ChainOk(genesis, chain) && id in chain
      ensures forall h: nat | h < |chain| && chain[h] == id ::
                if id == genesis then h == 0 else id.BlockId? && id.block.height == h
    {
      forall h: nat | h < |chain| && chain[h] == id
        ensures if id == genesis then h == 0 else id.BlockId? && id.block.height == h
      {
        ChainDistinct(genesis, chain, h, 0);
      }
    }

    /**
     * The spawned application runs. The state never refuses it: it moves by exactly the next
     * block of the chain.
     */
    method RunTask()
      requires Valid() && task.Some? && task.value.Spawned?
      modifies this`task, state
      ensures Valid() && task.Some? && task.value.Done? && task.value.id == old(task.value).id
      ensures state.applied == old(state.applied) + [chain[head.height + 1]]
    {
      hide Known, Cached, Ballots, State.Valid, ApplyTxs, LedgersAfter, TipAnswers;
      var id := task.value.id;
      ghost var height := head.height;
      assert chain[1..height + 2] == chain[1..height + 1] + [chain[height + 1]];
      ghost var before := state.applied;
      var given := state.ApplyBlock(id);
      assert (before + [id])[..|before|] == before;
      task := Some(Done(id, given.value));
    }

    /** The state's head is the chain's block at its height. */
    lemma StateTip()
      requires ChainOk(genesis, chain) && Anchored()
      ensures state.head.digest == chain[state.head.height]
      ensures head.height + 1 < |chain| ==>
                chain[head.height + 1].BlockId? && chain[head.height + 1].block.height == head.height + 1
    {
    }

    /** What a finished application brings: the next block of the chain and its answers. */
    lemma DoneTip()
      requires Valid() && task.Some? && task.value.Done?
      ensures head.height + 1 < |chain| && task.value.id == chain[head.height + 1] && task.value.id.BlockId?
      ensures state.applied == chain[1..head.height + 2] == chain[1..head.height + 1] + [task.value.id]
      ensures task.value.answers == TipAnswers(state.cfgs, state.applied)
      ensures |task.value.answers| == |task.value.id.block.txs|
    {
      hide Known, Cached, TipAnswers, State.Valid;
    }

    /** The message of a finished application arrives: the head follows, and the next may start. */
    method OnApplied()
      requires Valid() && task.Some? && task.value.Done?
      modifies this
      ensures Valid() && Remembers() && Drained()
      ensures head == state.head && head.height == old(head.height) + 1
      ensures forall id | id in old(blocks) && id.BlockId? && id.block.height > head.height :: id in blocks
    {
      hide Anchored, HeadOk, Cached, ChainOk;
      FollowHead();
      PruneBlocks();
      DrainFinalized();
    }

    /** Take over the state's head and forget what it has passed. */
    method FollowHead()
      requires Valid() && task.Some? && task.value.Done?
      modifies this`head, this`applying, this`task, this`finalizedKnown
      ensures Valid() && task.None? && head == state.head && head.height == old(head.height) + 1
      ensures forall h | h in old(finalizedKnown) && h > head.height :: h in finalizedKnown
    {
      hide Anchored, Cached, ChainOk, Ballots;
      StateTip();
      applying := false;
      finalizedKnown := finalizedKnown - {task.value.id.block.height};
      task := None;
      head := state.head;
    }

    /** Evict what lies more than `BLOCK_CACHE_BEHIND` below the head, and all applied blocks if that is not enough. */
    method PruneBlocks()
      requires Cached()
      modifies this`blocks
      ensures Cached() && blocks.Keys <= old(blocks.Keys)
      ensures forall id | id in old(blocks) && id.BlockId? && id.block.height > head.height :: id in blocks
      ensures forall id | id in blocks :: id.BlockId? && id.block.height + BLOCK_CACHE_BEHIND >= head.height
      ensures forall id | id in blocks && |blocks| > MAX_BLOCK_CACHE :: id.BlockId? && id.block.height > head.height
    {
      var floor := if head.height >= BLOCK_CACHE_BEHIND then head.height - BLOCK_CACHE_BEHIND else 0;
      blocks := map id | id in blocks && blocks[id].height >= floor :: blocks[id];
      if |blocks| > MAX_BLOCK_CACHE {
        blocks := map id | id in blocks && blocks[id].height > head.height :: blocks[id];
      }
    }

    // ---- block bytes --------------------------------------------------------

    /** The height of a parent, wherever it is known from. */
    function ParentHeight(parent: Id): Option<nat>
      reads this`blocks, this`head, state
    {
      if parent == genesis then Some(0)
      else if parent == head.digest then Some(head.height)
      else if parent in blocks then Some(blocks[parent].height)
      else if parent in state.applied && parent.BlockId? then Some(parent.block.height)
      else None
    }

    /** Whether a proposal's bytes are here and its parent is known, so that it can be judged. */
    predicate Judgeable(id: Id)
      reads this`blocks, this`head, state
    {
      id in blocks && ParentHeight(blocks[id].parent).Some?
    }

    /** Of these blocks, none that can be judged has votes waiting. */
    ghost predicate Freed(ids: set<Id>)
      reads this`votes, this`blocks, this`head, state
    {
      forall w | w in ids :: Judgeable(w) ==> w !in votes.waiting
    }

    /** Blocks say their height, and the head is the chain's block at its own. */
    ghost predicate Heights()
      reads this`blocks, this`head
    {
      && genesis.GenesisId? && ChainOk(genesis, chain) && Cached()
      && head.height < |chain| && head.digest == chain[head.height]
    }

    lemma HeightsHold()
      requires Valid()
      ensures Heights()
    {
    }

    /** Where a parent's height is known from does not matter. */
    lemma ParentHeightIs(parent: Id)
      requires Heights() && ParentHeight(parent).Some?
      ensures ParentHeight(parent).value == HeightOf(parent)
    {
    }

    /**
     * A proposal can be judged exactly when its bytes are here and its parent is the genesis, the
     * head, held, or applied.
     */
    lemma JudgeableIff(id: Id)
      requires Valid()
      ensures Judgeable(id)
              <==> && id in blocks
                   && (var parent := id.block.parent;
                       parent == genesis || parent == head.digest || parent in blocks || parent in state.applied)
    {
      hide HeadOk, Known, Ballots, TaskHeld, State.Valid;
      if id in blocks && id.block.parent in state.applied {
        AppliedAreBlocks(id.block.parent);
      }
    }

    lemma AppliedAreBlocks(id: Id)
      requires ChainOk(genesis, chain) && Anchored() && id in state.applied
      ensures id.BlockId?
    {
      hide State.Valid;
      var i :| 0 <= i < |state.applied| && state.applied[i] == id;
      assert state.applied[i] == chain[i + 1];
    }

    function Waiters(id: Id): seq<Context>
      reads this`votes
    {
      WaitersIn(votes, id)
    }

    function Children(parent: Id): set<Id>
      reads this`votes
    {
      if parent in votes.children then votes.children[parent] else {}
    }

    /** Since when something is waited for, if it is from `now` on at the latest. */
    static function Since(waiting: map<Id, nat>, id: Id, now: nat): (since: map<Id, nat>)
      ensures since.Keys == waiting.Keys + {id} && forall w | w in waiting :: since[w] == waiting[w]
    {
      if id in waiting then waiting else waiting[id := now]
    }

    /** A vote on `id` waits for `missing`, which is asked for. */
    method WaitFor(context: Context, id: Id, missing: Id)
      modifies this`votes, this`requested, this`asked
      ensures votes == old(votes).(since := Since(Since(old(votes).since, missing, clock), id, clock),
                                   waiting := old(votes).waiting[id := old(Waiters(id)) + [context]])
      ensures requested.Keys == old(requested.Keys) + {missing}
    {
      votes := votes.(since := Since(Since(votes.since, missing, clock), id, clock),
                      waiting := votes.waiting[id := Waiters(id) + [context]]);
      Request(missing);
    }

    /**
     * A vote is asked for. It waits for the block's bytes, then for its parent, asking for what
     * it misses; a block that does not fit its round is voted against, and one that does is
     * checked further.
     */
    method OnVerify(context: Context, id: Id)
      requires Heights() && Ballots()
      modifies this`votes, this`requested, this`asked
      ensures Ballots() && old(requested.Keys) <= requested.Keys
      ensures Verified(old(votes), votes, context, id, old(Judgeable(id)))
      ensures old(Judgeable(id)) ==> requested == old(requested)
      ensures id !in blocks ==>
                id in requested && votes.children == old(votes).children
                    && votes.since == Since(old(votes).since, id, clock)
      ensures !old(Judgeable(id)) && id in blocks ==>
                var parent := blocks[id].parent;
                && parent in requested && votes.since == Since(Since(old(votes).since, parent, clock), id, clock)
                && votes.children == old(votes).children[parent := old(Children(parent)) + {id}]
    {
      if id !in blocks {
        WaitFor(context, id, id);
        return;
      }
      var block := blocks[id];
      var parent := block.parent;
      var parentHeight := ParentHeight(parent);
      if parentHeight.None? {
        votes := votes.(children := votes.children[parent := Children(parent) + {id}]);
        WaitFor(context, id, parent);
        return;
      }
      ParentHeightIs(parent);
      if block.epoch != context.epoch || block.view != context.view || block.parent != context.parent
         || block.height != parentHeight.value + 1 {
        votes := votes.(answers := votes.answers[context := No(id)]);
        return;
      }
      votes := votes.(checking := votes.checking[context := id]);
    }

    /** The check off the actor ends, and the vote is answered. */
    method OnChecked(context: Context, passes: Tx -> bool, confirmed: Tx -> Option<bool>)
      returns (unconfirmed: Option<Tx>)
      requires Valid() && context in votes.checking
      modifies this`votes
      ensures Valid() && context in votes.answers
      ensures votes == old(votes).(checking := old(votes).checking - {context},
                                   answers := old(votes).answers[context := votes.answers[context]])
      ensures var id := old(votes).checking[context];
              Fits(context, id) && Judged(id, passes, confirmed, votes.answers[context], unconfirmed)
    {
      hide Anchored, HeadOk, ChainOk, Known, Cached, Judged;
      var id := votes.checking[context];
      var verdict, tx := Judge(id, passes, confirmed);
      unconfirmed := tx;
      VerdictId(id, passes, confirmed, verdict, tx);
      votes := votes.(checking := votes.checking - {context}, answers := votes.answers[context := verdict]);
    }

    /** Every vote for a block, whenever it was cast, was in a round the block fits. */
    lemma YesFits(context: Context)
      requires Valid() && context in votes.answers && votes.answers[context].Yes?
      ensures Fits(context, votes.answers[context].id)
    {
    }

    /** `id` is no longer wanted: retry the votes that waited for it or for their parent `id`. */
    method RetryWaiting(id: Id)
      requires Heights() && Ballots()
      modifies this`votes, this`requested, this`asked
      ensures Ballots() && old(requested.Keys) - {id} <= requested.Keys
      ensures Resumed(old(votes), votes, id) && Freed({id} + old(Children(id)))
    {
      hide Asked, Judgeable;
      GrownKeeps(votes, votes.(since := votes.since - {id}));
      requested := requested - {id};
      votes := votes.(since := votes.since - {id});
      if id in votes.waiting {
        RetryAll(id);
      }
      if id in votes.children {
        RetryChildren(id);
      }
    }

    /** Retry the votes on the blocks that waited for their parent. */
    method RetryChildren(id: Id)
      requires Heights() && Ballots() && id in votes.children
      modifies this`votes, this`requested, this`asked
      ensures Ballots() && old(requested.Keys) <= requested.Keys
      ensures NoneLost(old(votes), votes) && votes.waiting.Keys <= old(votes).waiting.Keys
      ensures forall w | w in old(Children(id)) :: Judgeable(w) ==> w !in votes.waiting
    {
      hide Asked, Judgeable;
      var children := votes.children[id];
      ghost var all := children;
      GrownKeeps(votes, votes.(children := votes.children - {id}));
      votes := votes.(children := votes.children - {id});
      while children != {}
        invariant Heights() && Ballots() && old(requested.Keys) <= requested.Keys && children <= all
        invariant NoneLost(old(votes), votes) && votes.waiting.Keys <= old(votes).waiting.Keys
        invariant forall w | w in all - children :: Judgeable(w) ==> w !in votes.waiting
        decreases |children|
      {
        var child :| child in children;
        children := children - {child};
        if child in votes.waiting {
          RetryAll(child);
        }
      }
    }

    /** Retry every vote that waited for one block, in the order they came. */
    method RetryAll(id: Id)
      requires Heights() && Ballots() && id in votes.waiting
      modifies this`votes, this`requested, this`asked
      ensures Ballots() && old(requested.Keys) <= requested.Keys
      ensures Retried(old(votes), votes, id, old(votes).waiting[id], old(Judgeable(id)))
      ensures NoneLost(old(votes), votes) && votes.waiting.Keys <= old(votes).waiting.Keys
      ensures ChildrenGrow(old(votes), votes) && (Judgeable(id) ==> id !in votes.waiting)
    {
      hide Retried, NoneLost, ChildrenGrow, Fits;
      var waiters := votes.waiting[id];
      ghost var ready := Judgeable(id);
      NoneRetried(votes, id, ready);
      votes := votes.(waiting := votes.waiting - {id});
      for i := 0 to |waiters|
        invariant Heights() && Ballots() && old(requested.Keys) <= requested.Keys && Judgeable(id) == ready
        invariant Retried(old(votes), votes, id, waiters[..i], ready)
      {
        ghost var before := votes;
        OnVerify(waiters[i], id);
        RetriedNext(old(votes), before, votes, id, waiters[..i], waiters[i], ready);
        assert waiters[..i + 1] == waiters[..i] + [waiters[i]];
      }
      assert waiters[..|waiters|] == waiters;
      RetriedAll(old(votes), votes, id, ready);
    }

    /** A block can now be read: votes on it or on its children go on, and so does the finalized chain. */
    method OnBlockAvailable(id: Id)
      requires Valid() && id in blocks
      modifies this`votes, this`requested, this`asked, this`finalizedKnown, this`finalizedUnknown, this`applying,
                 this`task
      ensures Valid() && Remembers() && Drained()
      ensures finalizedUnknown == old(finalizedUnknown) - {id}
      ensures Resumed(old(votes), votes, id) && Freed({id} + old(Children(id)))
    {
      HeightsHold();
      hide Anchored, HeadOk, ChainOk, Known, Cached, Ballots, TaskHeld, Heights, Remembered, Drained, Resumed, Freed;
      WakeWaiting(id);
      label promoted:
      DrainFinalized();
      AboveRemembers@promoted();
    }

    /** Votes go on and the digest is filed under its height; nothing is applied yet. */
    method WakeWaiting(id: Id)
      requires Heights() && Known() && Ballots() && id in blocks
      modifies this`votes, this`requested, this`asked, this`finalizedKnown, this`finalizedUnknown
      ensures Known() && Ballots() && Remembers() && finalizedUnknown == old(finalizedUnknown) - {id}
      ensures Resumed(old(votes), votes, id) && Freed({id} + old(Children(id)))
    {
      hide ChainOk, Known, Cached, Ballots, Resumed, Freed;
      RetryWaiting(id);
      Promote(id);
    }

    /** A finalized digest whose bytes arrived is now finalized at a known height. */
    method Promote(id: Id)
      requires genesis.GenesisId? && ChainOk(genesis, chain) && Known() && Cached() && id in blocks
      modifies this`finalizedKnown, this`finalizedUnknown
      ensures Known() && finalizedUnknown == old(finalizedUnknown) - {id} && Remembers()
    {
      if id in finalizedUnknown {
        OnlyAt(id);
        ghost var h: nat :| h < |chain| && chain[h] == id;
        assert blocks[id].height == h;
        finalizedUnknown := finalizedUnknown - {id};
        finalizedKnown := finalizedKnown[blocks[id].height := id];
      }
    }

    /** Whether a block sent by a peer is worth caching. */
    predicate WantsBlock(id: Id, height: nat)
      reads this
    {
      id in requested || id in votes.waiting || id in finalizedUnknown
      || (head.height < height <= head.height + BLOCK_WINDOW_AHEAD && |blocks| < MAX_BLOCK_CACHE)
    }

    /**
     * Whether a peer's bytes decode: within the byte limits and of the supported version, which
     * `framed` says, above height zero, and with few enough transactions, none twice.
     */
    predicate Decodes(id: Id, framed: bool)
      requires id.BlockId?
    {
      framed && id.block.height > 0 && Decodable(id.block.txs)
    }

    /**
     * Block bytes arrive from a peer. A requested or finalized block is never turned away if it
     * decodes, so the block the chain is stuck on gets through whenever any peer sends it.
     */
    method OnBlockBytes(id: Id, framed: bool)
      requires Valid() && id.BlockId?
      modifies this`votes, this`requested, this`asked, this`finalizedKnown, this`finalizedUnknown, this`applying,
               this`task, this`blocks
      ensures Valid() && Remembers()
      ensures blocks == if id in old(blocks) || !Decodes(id, framed) || !old(WantsBlock(id, id.block.height))
                        then old(blocks) else old(blocks)[id := id.block]
      ensures id in blocks <==>
                || id in old(blocks)
                || (&& framed && id.block.height > 0 && |id.block.txs| <= 128 && NoRepeats(id.block.txs)
                    && old(|| id in requested || id in votes.waiting || id in finalizedUnknown
                           || (head.height < id.block.height <= head.height + 256 && |blocks| < 4096)))
      ensures blocks == old(blocks) ==> votes == old(votes)
      ensures blocks != old(blocks) ==>
                && Drained() && finalizedUnknown == old(finalizedUnknown) - {id}
                && Resumed(old(votes), votes, id) && Freed({id} + old(Children(id)))
    {
      if id in blocks || !Decodes(id, framed) || !WantsBlock(id, id.block.height) {
        return;
      }
      hide Anchored, HeadOk, ChainOk, Known, Ballots, Cached, TaskHeld, Drained, Remembered, Decodable, Resumed, Freed;
      Keep(id);
      OnBlockAvailable(id);
    }

    method Keep(id: Id)
      requires Valid() && id.BlockId?
      modifies this`blocks
      ensures Valid() && blocks == old(blocks)[id := id.block]
    {
      hide Anchored, HeadOk, ChainOk, Known, Ballots;
      blocks := blocks[id := id.block];
    }

    // ---- proposing ----------------------------------------------------------

    /** The transactions ordered by `from` and its ancestors above the head, as far as they are held. */
    ghost function Pending(from: Id): set<Tx>
      reads this`head, this`blocks
      decreases from
    {
      if from == head.digest || from !in blocks || from.GenesisId? then {}
      else (set tx | tx in from.block.txs) + Pending(from.block.parent)
    }

    /** Walk from the parent down to the head, gathering what is ordered but not applied. */
    method Excluded(parent: Id) returns (excluded: set<Tx>)
      requires Cached() && genesis.GenesisId?
      ensures excluded == Pending(parent)
    {
      excluded := {};
      var cur := parent;
      while cur != head.digest && cur != genesis && cur in blocks
        invariant excluded + Pending(cur) == Pending(parent)
        decreases cur
      {
        var b := blocks[cur];
        excluded := excluded + (set tx | tx in b.txs);
        cur := b.parent;
      }
      assert Pending(cur) == {};
    }

    /**
     * Build a block on `parent` from the pool, without what an unapplied ancestor already
     * orders. An unknown parent is asked for instead.
     */
    method OnPropose(parent: Id, epoch: nat, view: nat, spelling: nat, pool: seq<PoolEntry>, maxTxs: nat)
      returns (proposed: Option<Id>)
      requires Valid()
      modifies this`blocks, this`requested, this`asked
      ensures Valid() && Remembers()
      ensures proposed.None? <==> old(ParentHeight(parent)).None?
      ensures proposed.None? ==> parent in requested && blocks == old(blocks)
      ensures proposed.Some? ==>
                var id := proposed.value;
                && id.BlockId? && id.block.parent == parent && id.block.height == old(ParentHeight(parent)).value + 1
                && blocks == old(blocks)[id := id.block] && requested == old(requested)
                && exists picked :: Packs(picked, Eligible(pool, old(Pending(parent))), maxTxs)
                    && id.block.txs == TxsOf(picked)
    {
      hide Anchored, HeadOk, ChainOk, Packs;
      var parentHeight := ParentHeight(parent);
      if parentHeight.None? {
        Request(parent);
        return None;
      }
      var excluded := Excluded(parent);
      var picked := Select(pool, excluded, maxTxs);
      var block := Block(epoch, view, parentHeight.value + 1, parent, TxsOf(picked));
      var id := BlockId(block, spelling);
      blocks := blocks[id := block];
      return Some(id);
    }

    // ---- housekeeping -------------------------------------------------------

    /** What has been waited for longer than the limit. */
    function Stale(now: nat): set<Id>
      reads this`votes
    {
      set id | id in votes.since.Keys && now > votes.since[id] + WAIT_TTL
    }

    /**
     * The clock ticks. Blocks nobody supplied in time are given up on, except that a block
     * reported finalized stays wanted; what is still wanted and missing is asked for again.
     *
     * That exception does not cover a block known to be finalized only as the ancestor of
     * another. If a vote waited for it too long, the tick drops the request the lowest
     * outstanding height depends on, in exactly that case.
     */
    method OnTick(now: nat)
      requires Valid() && now >= clock
      modifies this`clock, this`votes, this`requested, this`asked
      ensures Valid() && Remembers() && clock == now
      ensures votes == Without(old(votes), old(Stale(now)))
      ensures var wanted := votes.waiting.Keys + votes.children.Keys + finalizedUnknown;
              requested.Keys == old(requested.Keys) - (old(Stale(now)) - finalizedUnknown) + (wanted - blocks.Keys)
      ensures finalizedUnknown - blocks.Keys <= requested.Keys
      ensures old(Drained()) && !applying && finalizedKnown != map[] ==>
                var low := finalizedKnown[Min(finalizedKnown.Keys)];
                Drained() <==> low !in old(Stale(now)) || low in finalizedUnknown
    {
      hide Anchored, HeadOk, ChainOk, Known, Cached, Ballots, TaskHeld, Min;
      ghost var low := if finalizedKnown == map[] then genesis else finalizedKnown[Min(finalizedKnown.Keys)];
      ghost var before, stale := requested.Keys, Stale(now);
      if low in before && low !in blocks {
        StillAsked(before, stale, finalizedUnknown, votes.waiting.Keys, votes.children.Keys, blocks.Keys, low);
      }
      Sweep(now);
    }

    /** Give up on what is stale, then ask again for what is missing. */
    method Sweep(now: nat)
      requires Ballots()
      modifies this`clock, this`votes, this`requested, this`asked
      ensures Ballots() && clock == now && votes == Without(old(votes), old(Stale(now)))
      ensures var wanted := votes.waiting.Keys + votes.children.Keys + finalizedUnknown;
              requested.Keys == old(requested.Keys) - (old(Stale(now)) - finalizedUnknown) + (wanted - blocks.Keys)
    {
      hide Ballots;
      clock := now;
      GiveUp(Stale(now));
      AskAgain(votes.waiting.Keys + votes.children.Keys + finalizedUnknown);
    }

    /** Nothing waits for these blocks any more, and the votes that did are abstained from. */
    static function Without(v: Votes, stale: set<Id>): Votes {
      var lost := set id, c | id in stale && id in v.waiting && c in v.waiting[id] :: c;
      Votes(v.waiting - stale, v.children - stale, v.since - stale, v.checking,
          (map c | c in lost :: Abstain) + v.answers)
    }

    /** Giving up answers every vote it stops waiting for. */
    static lemma WithoutKeeps(v: Votes, stale: set<Id>)
      ensures NoneLost(v, Without(v, stale))
    {
      var w := Without(v, stale);
      forall c | Waits(v, c)
        ensures Asked(w, c)
      {
        var id :| id in v.waiting && c in v.waiting[id];
        if id !in stale {
          assert id in w.waiting && c in w.waiting[id];
        }
      }
    }

    /**
     * What a tick gives up on: exactly what was waited for over ten seconds. Nobody waits for it any
     * more, every vote that did is abstained from, and everything else stays.
     */
    lemma GivesUpIff(now: nat, id: Id)
      ensures var w, late := Without(votes, Stale(now)), id in votes.since && now - votes.since[id] > 10_000;
              && (id in w.waiting <==> id in votes.waiting && !late)
              && (id in w.children <==> id in votes.children && !late)
              && (id in w.since <==> id in votes.since && !late)
              && (id in w.waiting ==> w.waiting[id] == votes.waiting[id])
              && (id in w.children ==> w.children[id] == votes.children[id])
              && (late && id in votes.waiting ==>
                    forall c | c in votes.waiting[id] && c !in votes.answers ::
                      c in w.answers && w.answers[c] == Abstain)
              && w.checking == votes.checking && (forall c | c in votes.answers :: w.answers[c] == votes.answers[c])
    {
    }

    method GiveUp(stale: set<Id>)
      requires Ballots()
      modifies this`votes, this`requested
      ensures Ballots() && votes == Without(old(votes), stale)
      ensures requested.Keys == old(requested.Keys) - (stale - finalizedUnknown)
    {
      votes := Without(votes, stale);
      requested := requested - (stale - finalizedUnknown);
    }

    /** Ask for every wanted block that is not held. */
    method AskAgain(wanted: set<Id>)
      modifies this`requested, this`asked
      ensures requested.Keys == old(requested.Keys) + (wanted - blocks.Keys)
    {
      var left := wanted - blocks.Keys;
      ghost var before, missing := requested.Keys, left;
      while left != {}
        invariant left <= missing && requested.Keys == before + (missing - left)
        decreases |left|
      {
        var id :| id in left;
        OneLess(before, missing, left, id);
        left := left - {id};
        Request(id);
      }
      assert missing - {} == missing;
    }
  }

  /** A fresh actor is asked to vote on `b1` and told that its child `b2` is finalized. */
  method WaitsForBoth(genesis: Id, state: State, b1: Id, b2: Id) returns (a: Actor)
    requires genesis.GenesisId? && state.genesis == genesis && state.Valid() && state.applied == []
    requires ChainOk(genesis, [genesis, b1, b2])
    ensures fresh(a) && a.Valid() && a.genesis == genesis && a.chain == [genesis, b1, b2] && a.head.height == 0
    ensures a.blocks == map[] && a.clock == 0 && a.finalizedUnknown == {b2}
    ensures b1 in a.votes.since && a.votes.since[b1] == 0 && a.votes.waiting.Keys == {b1} && a.votes.children == map[]
  {
    hide Actor.Anchored, Actor.Known, Actor.Cached, Actor.Drained, RootOfLedgers, LedgersAfter;
    ghost var chain := [genesis, b1, b2];
    assert chain[1] == b1 && chain[2] == b2;
    a := new Actor(genesis, state, chain);
    a.HeightsHold();
    a.OnVerify(Context(0, 0, 0, genesis), b1);
    hide Actor.HeadOk, Actor.Ballots, Actor.Remembered;
    a.OnFinalized(b2);
  }

  /**
   * The forgetful tick: then the bytes of `b2` arrive, but nobody supplies `b1` in time.
   * Everything outstanding now waits for a block that nobody is asked for.
   */
  method TickForgets(genesis: Id, state: State, b1: Id, b2: Id) returns (a: Actor)
    requires genesis.GenesisId? && state.genesis == genesis && state.Valid() && state.applied == []
    requires ChainOk(genesis, [genesis, b1, b2]) && b2.BlockId? && Decodable(b2.block.txs)
    ensures fresh(a) && a.Valid() && a.chain == [genesis, b1, b2]
    ensures 1 in a.finalizedKnown && a.finalizedKnown[1] == b1 && a.head.height == 0 && !a.applying
    ensures b1 !in a.blocks && b1 !in a.requested && !a.Drained()
  {
    hide Actor.Anchored, Actor.HeadOk, Actor.Ballots, Actor.Known, Actor.Cached, Actor.TaskHeld, Actor.Drained,
           State.Valid,
         Decodable, Min;
    a := WaitsForBoth(genesis, state, b1, b2);
    assert a.chain[1] == b1 && a.chain[2] == b2;
    assert a.Remembered(2);
    a.OnBlockBytes(b2, true);
    assert a.Remembered(2);
    OneBelow(a, b1, b2);
    a.OnTick(WAIT_TTL + 1);
    LowestMissing(a);
  }

  /** Nothing asks for the lowest outstanding block. */
  lemma LowestMissing(a: Actor)
    requires a.finalizedKnown != map[] && !a.applying && !a.Drained()
    requires var low := a.finalizedKnown[Min(a.finalizedKnown.Keys)];
             Min(a.finalizedKnown.Keys) > a.head.height && low !in a.blocks
    ensures a.finalizedKnown[Min(a.finalizedKnown.Keys)] !in a.requested
  {
  }

  /** A drained actor that holds only the second block of its chain waits for the first. */
  lemma OneBelow(a: Actor, b1: Id, b2: Id)
    requires a.Valid() && a.Drained() && 2 in a.finalizedKnown && a.chain == [a.genesis, b1, b2]
    requires a.blocks.Keys == {b2} && a.head.height == 0
    ensures !a.applying && Min(a.finalizedKnown.Keys) == 1 && a.finalizedKnown[1] == b1
    ensures b1 !in a.blocks && b1 in a.requested
  {
    hide Actor.Anchored, Actor.Cached, Actor.Ballots;
    assert a.chain[1] == b1 && a.chain[2] == b2;
    ChainDistinct(a.genesis, a.chain, 1, 2);
  }

  /** Whether a missing block is still asked for after a tick. */
  lemma StillAsked(before: set<Id>, stale: set<Id>, unknown: set<Id>, votes: set<Id>, parents: set<Id>, held: set<Id>,
      id: Id)
    requires id in before && id !in held
    ensures id in before - (stale - unknown) + ((votes - stale) + (parents - stale) + unknown - held)
            <==> id !in stale || id in unknown
  {
  }

  /** A mint this validator's view of the chain confirms, or no mint. */
  predicate MintFine(tx: Tx, confirmed: Tx -> Option<bool>) {
    tx.envelope.Mint? ==> confirmed(tx) == Some(true)
  }

  /** The verdict on a block after its transactions were checked, and the mint that spoilt it. */
  ghost predicate Judged(id: Id, passes: Tx -> bool, confirmed: Tx -> Option<bool>, verdict: Verdict,
      unconfirmed: Option<Tx>)
    requires id.BlockId?
  {
    var txs := id.block.txs;
    && verdict in {Yes(id), No(id), Abstain}
    && (verdict.Yes? <==> forall tx | tx in txs :: passes(tx) && MintFine(tx, confirmed))
    && ((exists tx :: tx in txs && !passes(tx)) ==> verdict.No? && unconfirmed.None?)
    && (verdict.Abstain? ==> exists tx :: tx in txs && tx.envelope.Mint? && confirmed(tx).None?)
    && (unconfirmed.Some? ==> verdict.No? && unconfirmed.value in txs
                              && unconfirmed.value.envelope.Mint? && confirmed(unconfirmed.value) == Some(false))
  }

  lemma VerdictId(id: Id, passes: Tx -> bool, confirmed: Tx -> Option<bool>, verdict: Verdict, unconfirmed: Option<Tx>)
    requires id.BlockId? && Judged(id, passes, confirmed, verdict, unconfirmed)
    ensures verdict.Yes? ==> verdict.id == id
  {
  }

  /**
   * Every transaction is checked on its own, then every mint against this validator's view of
   * the chain. A refused mint is a vote against; a view that cannot be had is no vote.
   */
  method Judge(id: Id, passes: Tx -> bool, confirmed: Tx -> Option<bool>)
    returns (verdict: Verdict, unconfirmed: Option<Tx>)
    requires id.BlockId?
    ensures Judged(id, passes, confirmed, verdict, unconfirmed)
  {
    var txs := id.block.txs;
    if exists tx | tx in txs :: !passes(tx) {
      return No(id), None;
    }
    for i := 0 to |txs|
      invariant forall tx | tx in txs[..i] :: MintFine(tx, confirmed)
    {
      var tx := txs[i];
      assert tx in txs && (MintFine(tx, confirmed) <==> tx.envelope.Mint? ==> confirmed(tx) == Some(true));
      if tx.envelope.Mint? {
        if confirmed(tx).None? {
          return Abstain, None;
        }
        if !confirmed(tx).value {
          return No(id), Some(tx);
        }
      }
    }
    return Yes(id), None;
  }

  lemma OneLess(before: set<Id>, missing: set<Id>, left: set<Id>, id: Id)
    requires left <= missing && id in left
    ensures before + (missing - left) + {id} == before + (missing - (left - {id}))
  {
  }

  // ---- packing a block --------------------------------------------------------

  /** A pool entry: the transaction, the length of its encoding and when it was admitted. */
  datatype PoolEntry = PoolEntry(tx: Tx, size: nat, added: nat)

  const MAX_BLOCK_BYTES: nat := 900 * 1024
  const BLOCK_OVERHEAD: nat := 256

  function TxsOf(entries: seq<PoolEntry>): (txs: seq<Tx>)
    ensures |txs| == |entries| && forall i | 0 <= i < |txs| :: txs[i] == entries[i].tx
  {
    seq(|entries|, i requires 0 <= i < |entries| => entries[i].tx)
  }

  /** The pool in order, without excluded transactions. */
  ghost function Eligible(pool: seq<PoolEntry>, excluded: set<Tx>): seq<PoolEntry> {
    if pool == [] then []
    else
      var last := pool[|pool| - 1];
      Eligible(pool[..|pool| - 1], excluded) + (if last.tx in excluded then [] else [last])
  }

  lemma {:induction false} EligibleMembers(pool: seq<PoolEntry>, excluded: set<Tx>)
    ensures forall e :: e in Eligible(pool, excluded) <==> e in pool && e.tx !in excluded
  {
    if pool != [] {
      EligibleMembers(pool[..|pool| - 1], excluded);
      assert pool == pool[..|pool| - 1] + [pool[|pool| - 1]];
    }
  }

  /** The bytes a block of these entries may take. */
  ghost function Weight(entries: seq<PoolEntry>): nat {
    if entries == [] then BLOCK_OVERHEAD
    else Weight(entries[..|entries| - 1]) + entries[|entries| - 1].size + 2
  }

  /** `picked` is the longest run from the front of `eligible` within both limits. */
  ghost predicate Packs(picked: seq<PoolEntry>, eligible: seq<PoolEntry>, maxTxs: nat) {
    && picked <= eligible && |picked| <= maxTxs && Weight(picked) <= MAX_BLOCK_BYTES
    && (|picked| < maxTxs && |picked| < |eligible| ==>
          Weight(picked) + eligible[|picked|].size + 2 > MAX_BLOCK_BYTES)
  }

  lemma {:induction false} EligiblePrefix(pool: seq<PoolEntry>, excluded: set<Tx>, i: nat)
    requires i <= |pool|
    ensures Eligible(pool[..i], excluded) <= Eligible(pool, excluded)
    decreases |pool| - i
  {
    if i == |pool| {
      assert pool[..i] == pool;
    } else {
      EligiblePrefix(pool, excluded, i + 1);
      assert pool[..i + 1][..i] == pool[..i];
    }
  }

  lemma EligibleStep(pool: seq<PoolEntry>, excluded: set<Tx>, i: nat)
    requires i < |pool|
    ensures Eligible(pool[..i + 1], excluded)
            == Eligible(pool[..i], excluded) + (if pool[i].tx in excluded then [] else [pool[i]])
    ensures Eligible(pool[..i], excluded) <= Eligible(pool, excluded)
    ensures Eligible(pool[..i + 1], excluded) <= Eligible(pool, excluded)
  {
    assert pool[..i + 1][..i] == pool[..i];
    EligiblePrefix(pool, excluded, i);
    EligiblePrefix(pool, excluded, i + 1);
  }

  /** Pool transactions in order, skipping excluded ones, until a limit is reached. */
  method Select(pool: seq<PoolEntry>, excluded: set<Tx>, maxTxs: nat) returns (picked: seq<PoolEntry>)
    ensures Packs(picked, Eligible(pool, excluded), maxTxs)
  {
    picked := [];
    var size := BLOCK_OVERHEAD;
    for i := 0 to |pool|
      invariant |picked| <= maxTxs && size == Weight(picked) <= MAX_BLOCK_BYTES
      invariant picked == Eligible(pool[..i], excluded)
    {
      EligibleStep(pool, excluded, i);
      var e := pool[i];
      if |picked| >= maxTxs {
        return;
      }
      if e.tx in excluded {
        continue;
      }
      if size + e.size + 2 > MAX_BLOCK_BYTES {
        return;
      }
      size := size + e.size + 2;
      assert (picked + [e])[..|picked|] == picked;
      picked := picked + [e];
    }
    assert pool[..|pool|] == pool;
  }

  // ---- agreement --------------------------------------------------------------

  /** Runs from the front of one chain are prefixes of one another. */
  lemma Comparable(chain: seq<Id>, i: nat, j: nat)
    requires i <= j < |chain|
    ensures chain[1..i + 1] <= chain[1..j + 1]
  {
  }

  /**
   * Agreement. Two validators whose finalized chains are prefixes of one another, whatever
   * order their messages came in, have applied comparable chains; at equal heights they hold
   * the same ledgers, and their heads, state root included, are the same.
   */
  lemma Agreement(a: Actor, b: Actor)
    requires a.Valid() && b.Valid() && a.genesis == b.genesis && a.state.cfgs == b.state.cfgs
    requires a.chain <= b.chain || b.chain <= a.chain
    ensures a.state.applied <= b.state.applied || b.state.applied <= a.state.applied
    ensures a.state.head.height == b.state.head.height ==>
              a.state.head == b.state.head && a.state.ledgers == b.state.ledgers
  {
    hide ChainOk, Actor.HeadOk, Actor.Known, Actor.Cached, RootOfLedgers, LedgersAfter;
    if a.chain <= b.chain {
      PrefixAgree(a.state.applied, b.state.applied, a.chain, b.chain);
    } else {
      PrefixAgree(b.state.applied, a.state.applied, b.chain, a.chain);
    }
  }

  /** What two validators applied along comparable chains is comparable. */
  lemma PrefixAgree(x: seq<Id>, y: seq<Id>, shorter: seq<Id>, longer: seq<Id>)
    requires shorter <= longer && |x| < |shorter| && |y| < |longer|
    requires x == shorter[1..|x| + 1] && y == longer[1..|y| + 1]
    ensures if |x| <= |y| then x <= y else y <= x
    ensures |x| == |y| ==> x == y
  {
    assert x == longer[1..|x| + 1];
    if |x| <= |y| {
      Comparable(longer, |x|, |y|);
    } else {
      Comparable(longer, |y|, |x|);
    }
  }

  /**
   * Conversely equal combined roots are equal ledgers as far as anyone can claim or spend:
   * namespace by namespace the same commitments and the same receipt log.
   */
  lemma EqualRootsAgree(a: State, b: State, ns: LedgerModel.Namespace)
    requires a.Valid() && b.Valid() && a.cfgs == b.cfgs && ns in a.cfgs && a.head.root == b.head.root
    ensures ns in a.ledgers && ns in b.ledgers
    ensures StateRoots.Commitments(a.ledgers[ns]) == StateRoots.Commitments(b.ledgers[ns])
    ensures a.ledgers[ns].receipts == b.ledgers[ns].receipts
  {
    CombinedRootBinds(a.cfgs, a.ledgers, b.ledgers);
    ChainReplays(a.cfgs, a.applied);
    ChainReplays(b.cfgs, b.applied);
    StateRoots.StateRootBinds(a.cfgs[ns], a.ledgers[ns].ops, b.ledgers[ns].ops);
  }
}
