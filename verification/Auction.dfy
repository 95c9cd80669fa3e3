/** Auction results: which revealed payloads are bids, in which order, and who is offered the lot. */
module Auctions {
  import opened Base
  import Encodings
  import opened StableSorts
  import Bids

  /** A revealed slot; no payload when its text does not decode. */
  datatype RevealedSlot = RevealedSlot(position: nat, hash: nat, isDummy: bool, payload: Option<Encodings.Bytes>)

  datatype Reason = Unreadable | OtherAuction

  datatype Discard = Discard(hash: nat, reason: Reason)

  datatype Bid = Bid(position: nat, hash: nat, record: Bids.BidRecord, meetsReserve: bool, withinMaximum: bool)

  datatype Rules = Rules(id: Encodings.Bytes, reserve: Option<int>, maximum: Option<int>)

  /** The bid a slot holds for an auction, if any. */
  function BidOf(slot: RevealedSlot, rules: Rules): Option<Bid> {
    if slot.isDummy || slot.payload.None? then None
    else
      var record := Bids.Decode(slot.payload.value);
      if record.None? || record.value.auctionId != rules.id then None
      else
        Some(Bid(slot.position, slot.hash, record.value,
                 rules.reserve.None? || record.value.amount >= rules.reserve.value,
                 rules.maximum.None? || record.value.amount <= rules.maximum.value))
  }

  /** Amount first, highest in front; then position. */
  function RankOrder(a: Bid, b: Bid): bool {
    a.record.amount > b.record.amount || (a.record.amount == b.record.amount && a.position <= b.position)
  }

  predicate Eligible(bid: Bid) { bid.meetsReserve && bid.withinMaximum }

  /** The bids of some slots, in slot order. */
  function Counted(slots: seq<RevealedSlot>, rules: Rules): (bids: seq<Bid>)
    ensures forall bid :: bid in bids <==> exists slot :: slot in slots && BidOf(slot, rules) == Some(bid)
  {
    if slots == [] then []
    else
      var last := slots[|slots| - 1];
      assert slots == slots[..|slots| - 1] + [last];
      Counted(slots[..|slots| - 1], rules) + (if BidOf(last, rules).Some? then [BidOf(last, rules).value] else [])
  }

  /** The payloads that are no bid of this auction, in slot order, and why. */
  ghost function Discarded(slots: seq<RevealedSlot>, rules: Rules): seq<Discard> {
    if slots == [] then []
    else
      var last := slots[|slots| - 1];
      Discarded(slots[..|slots| - 1], rules)
      + (if last.isDummy || last.payload.None? || BidOf(last, rules).Some? then []
         else [Discard(last.hash, if Bids.Decode(last.payload.value).None? then Unreadable else OtherAuction)])
  }

  /** The eligible bids, in the order given. */
  function Queue(bids: seq<Bid>): (queue: seq<Bid>)
    ensures forall bid :: bid in queue <==> bid in bids && Eligible(bid)
  {
    if bids == [] then []
    else
      var last := bids[|bids| - 1];
      assert bids == bids[..|bids| - 1] + [last];
      Queue(bids[..|bids| - 1]) + (if Eligible(last) then [last] else [])
  }

  /** Rank the bids of a reveal; whoever is eligible queues in rank order. */
  method Results(slots: seq<RevealedSlot>, rules: Rules)
    returns (bids: seq<Bid>, queue: seq<Bid>, discarded: seq<Discard>)
    ensures bids == Sort(RankOrder, Counted(slots, rules)) && queue == Queue(bids)
              && discarded == Discarded(slots, rules)
    ensures forall i, j | 0 <= i < j < |bids| :: bids[i].record.amount >= bids[j].record.amount
    ensures forall i, j | 0 <= i < j < |bids| && bids[i].record.amount == bids[j].record.amount ::
              bids[i].position <= bids[j].position
    ensures forall i, j | 0 <= i < j < |queue| :: queue[i].record.amount >= queue[j].record.amount
    ensures forall i, j | 0 <= i < j < |queue| && queue[i].record.amount == queue[j].record.amount ::
              queue[i].position <= queue[j].position
    ensures forall bid :: multiset(queue)[bid] == if Eligible(bid) then multiset(bids)[bid] else 0
  {
    hide Bids.Decode;
    bids, discarded := [], [];
    for i := 0 to |slots|
      invariant bids == Counted(slots[..i], rules)
      invariant discarded == Discarded(slots[..i], rules)
    {
      var slot := slots[i];
      assert slots[..i + 1][..i] == slots[..i];
      if slot.isDummy || slot.payload.None? {
        continue;
      }
      var record := Bids.Decode(slot.payload.value);
      if record.None? {
        discarded := discarded + [Discard(slot.hash, Unreadable)];
      } else if record.value.auctionId != rules.id {
        discarded := discarded + [Discard(slot.hash, OtherAuction)];
      } else {
        bids := bids + [BidOf(slot, rules).value];
      }
    }
    assert slots[..|slots|] == slots;
    bids := Sort(RankOrder, bids);
    queue := Queue(bids);
    ShownByAmount(slots, rules);
    forall bid
      ensures multiset(queue)[bid] == if Eligible(bid) then multiset(bids)[bid] else 0
    {
      QueueCounts(bids, bid);
    }
  }

  lemma RankIsOrder()
    ensures Order(RankOrder)
  {
  }

  /** No position is shown twice. */
  ghost predicate DistinctPositions(slots: seq<RevealedSlot>) {
    forall i, j | 0 <= i < j < |slots| :: slots[i].position != slots[j].position
  }

  lemma CountedNoTies(slots: seq<RevealedSlot>, rules: Rules)
    requires DistinctPositions(slots)
    ensures NoTies(RankOrder, Counted(slots, rules))
  {
    hide BidOf, Counted, DistinctPositions;
    forall a, b | a in Counted(slots, rules) && b in Counted(slots, rules) && RankOrder(a, b) && RankOrder(b, a)
      ensures a == b
    {
      OneBidAt(slots, rules, a, b);
    }
  }

  /** Two counted bids at one position are one bid. */
  lemma OneBidAt(slots: seq<RevealedSlot>, rules: Rules, a: Bid, b: Bid)
    requires DistinctPositions(slots) && a in Counted(slots, rules) && b in Counted(slots, rules)
    requires a.position == b.position
    ensures a == b
  {
    hide BidOf, Counted;
    var i :| 0 <= i < |slots| && BidOf(slots[i], rules) == Some(a);
    var j :| 0 <= j < |slots| && BidOf(slots[j], rules) == Some(b);
    BidPosition(slots[i], rules);
    BidPosition(slots[j], rules);
  }

  lemma BidPosition(slot: RevealedSlot, rules: Rules)
    requires BidOf(slot, rules).Some?
    ensures BidOf(slot, rules).value.position == slot.position
  {
    hide Bids.Decode;
  }

  /**
   * The rules leave no choice: any list of exactly these bids that respects amount and
   * position is the list shown.
   */
  lemma OnlyRanking(slots: seq<RevealedSlot>, rules: Rules, other: seq<Bid>)
    requires DistinctPositions(slots)
    ensures && (forall i, j | 0 <= i < j < |other| :: other[i].record.amount >= other[j].record.amount)
            && (forall i, j | 0 <= i < j < |other| && other[i].record.amount == other[j].record.amount ::
                  other[i].position <= other[j].position)
            && multiset(other) == multiset(Counted(slots, rules))
            <==> other == Sort(RankOrder, Counted(slots, rules))
  {
    hide Counted;
    RankIsOrder();
    assert Ordered(RankOrder, other)
        <==> && (forall i, j | 0 <= i < j < |other| :: other[i].record.amount >= other[j].record.amount)
             && (forall i, j | 0 <= i < j < |other| && other[i].record.amount == other[j].record.amount ::
                   other[i].position <= other[j].position);
    CountedNoTies(slots, rules);
    SortSorts(RankOrder, Counted(slots, rules));
    var ranked := Sort(RankOrder, Counted(slots, rules));
    if Ordered(RankOrder, other) && multiset(other) == multiset(Counted(slots, rules)) {
      TiesKept(Counted(slots, rules), ranked);
      OrderedUnique(RankOrder, ranked, other);
    }
  }

  lemma TiesKept(xs: seq<Bid>, ys: seq<Bid>)
    requires NoTies(RankOrder, xs) && multiset(xs) == multiset(ys)
    ensures NoTies(RankOrder, ys)
  {
    forall x | x in ys
      ensures x in xs
    {
      SameMembers(xs, ys, x);
    }
  }

  lemma {:induction false} QueueOrdered(bids: seq<Bid>)
    requires Ordered(RankOrder, bids)
    ensures Ordered(RankOrder, Queue(bids))
  {
    if bids != [] {
      var n := |bids| - 1;
      QueueOrdered(bids[..n]);
      forall i | 0 <= i < |Queue(bids[..n])|
        ensures RankOrder(Queue(bids[..n])[i], bids[n])
      {
        assert Queue(bids[..n])[i] in bids[..n];
      }
    }
  }

  /**
   * The winner is an eligible bid nobody eligible outranks: none is higher, and of the highest
   * none has a lower position. There is one whenever anybody is eligible.
   */
  lemma WinnerIsBest(slots: seq<RevealedSlot>, rules: Rules, bid: Bid)
    requires bid in Counted(slots, rules) && Eligible(bid)
    ensures var queue := Queue(Sort(RankOrder, Counted(slots, rules)));
            && queue != [] && queue[0] in Counted(slots, rules) && Eligible(queue[0])
            && bid.record.amount <= queue[0].record.amount
            && (bid.record.amount == queue[0].record.amount ==> queue[0].position <= bid.position)
            && (forall other | other in queue :: other in Counted(slots, rules) && Eligible(other)) && bid in queue
  {
    hide Counted, Sort;
    RankIsOrder();
    var bids := Counted(slots, rules);
    var ranked := Sort(RankOrder, bids);
    SortSorts(RankOrder, bids);
    forall other
      ensures other in ranked <==> other in bids
    {
      SameMembers(bids, ranked, other);
    }
    QueueOrdered(ranked);
    var queue := Queue(ranked);
    assert bid in queue;
    var i :| 0 <= i < |queue| && queue[i] == bid;
    assert queue[0] in queue;
  }

  // ---- in amounts and positions -------------------------------------------------

  /** Whether an amount is one the seller would take. */
  predicate Acceptable(rules: Rules, amount: int) {
    (rules.reserve.Some? ==> amount >= rules.reserve.value) && (rules.maximum.Some? ==> amount <= rules.maximum.value)
  }

  /** The slot is real, and its payload decodes to the record of a bid in this auction. */
  predicate Holds(slot: RevealedSlot, rules: Rules, bid: Bid) {
    && !slot.isDummy && slot.payload.Some? && Bids.Decode(slot.payload.value) == Some(bid.record)
    && bid.record.auctionId == rules.id && bid.position == slot.position && bid.hash == slot.hash
  }

  /** A bid is counted exactly if a slot holds it, with flags that say whether the seller would take it. */
  lemma CountedIff(slots: seq<RevealedSlot>, rules: Rules, bid: Bid)
    ensures bid in Counted(slots, rules)
            <==> && (exists slot :: slot in slots && Holds(slot, rules, bid))
                 && bid.meetsReserve == (rules.reserve.Some? ==> bid.record.amount >= rules.reserve.value)
                 && bid.withinMaximum == (rules.maximum.Some? ==> bid.record.amount <= rules.maximum.value)
    ensures bid in Counted(slots, rules) ==> (Eligible(bid) <==> Acceptable(rules, bid.record.amount))
  {
    hide Bids.Decode, Counted;
    if slot :| slot in slots && Holds(slot, rules, bid) {
      assert BidOf(slot, rules).Some? && BidOf(slot, rules).value.record == bid.record;
    }
    if bid in Counted(slots, rules) {
      var slot :| slot in slots && BidOf(slot, rules) == Some(bid);
      assert Holds(slot, rules, bid);
    }
  }

  /** As many bids are queued as were counted and are acceptable, each as often as it was counted. */
  lemma {:induction false} QueueCounts(bids: seq<Bid>, bid: Bid)
    ensures multiset(Queue(bids))[bid] == if bid.meetsReserve && bid.withinMaximum then multiset(bids)[bid] else 0
  {
    if bids != [] {
      QueueCounts(bids[..|bids| - 1], bid);
      assert bids == bids[..|bids| - 1] + [bids[|bids| - 1]];
    }
  }

  /**
   * What is shown, in amounts: every counted bid once, the highest first, and of equal ones the
   * lower position first.
   */
  lemma ShownByAmount(slots: seq<RevealedSlot>, rules: Rules)
    ensures var bids := Sort(RankOrder, Counted(slots, rules));
            && multiset(bids) == multiset(Counted(slots, rules))
            && (forall i, j | 0 <= i < j < |bids| :: bids[i].record.amount >= bids[j].record.amount)
            && (forall i, j | 0 <= i < j < |bids| && bids[i].record.amount == bids[j].record.amount ::
                  bids[i].position <= bids[j].position)
            && (forall i, j | 0 <= i < j < |Queue(bids)| ::
                  && Queue(bids)[i].record.amount >= Queue(bids)[j].record.amount
                  && (Queue(bids)[i].record.amount == Queue(bids)[j].record.amount ==>
                        Queue(bids)[i].position <= Queue(bids)[j].position))
  {
    hide Counted, Sort;
    RankIsOrder();
    SortSorts(RankOrder, Counted(slots, rules));
    QueueOrdered(Sort(RankOrder, Counted(slots, rules)));
  }

  /**
   * The winner, in amounts: an acceptable bid that some slot holds, and no acceptable bid that
   * any slot holds is higher, or as high from a lower position. There is none exactly if no slot
   * holds an acceptable bid.
   */
  lemma WinnerInAmounts(slots: seq<RevealedSlot>, rules: Rules)
    ensures var queue := Queue(Sort(RankOrder, Counted(slots, rules)));
            && (queue == [] <==> forall slot, bid | slot in slots && Holds(slot, rules, bid) ::
                  !Acceptable(rules, bid.record.amount))
            && (queue != [] ==>
                  && (exists slot :: slot in slots && Holds(slot, rules, queue[0]))
                  && Acceptable(rules, queue[0].record.amount)
                  && forall slot, bid | slot in slots && Holds(slot, rules, bid)
                      && Acceptable(rules, bid.record.amount) ::
                       && bid.record.amount <= queue[0].record.amount
                       && (bid.record.amount == queue[0].record.amount ==> queue[0].position <= bid.position))
  {
    hide Counted, Sort, Holds;
    var bids := Counted(slots, rules);
    var queue := Queue(Sort(RankOrder, bids));
    RankIsOrder();
    SortSorts(RankOrder, bids);
    forall slot, bid | slot in slots && Holds(slot, rules, bid) && Acceptable(rules, bid.record.amount)
      ensures queue != [] && bid.record.amount <= queue[0].record.amount
      ensures bid.record.amount == queue[0].record.amount ==> queue[0].position <= bid.position
    {
      var flagged := bid.(meetsReserve := true, withinMaximum := true);
      HeldFlagged(slot, rules, bid, flagged);
      CountedIff(slots, rules, flagged);
      WinnerIsBest(slots, rules, flagged);
    }
    if queue != [] {
      assert queue[0] in queue;
      SameMembers(bids, Sort(RankOrder, bids), queue[0]);
      CountedIff(slots, rules, queue[0]);
    }
  }

  /** Which slot holds a bid does not depend on its flags. */
  lemma HeldFlagged(slot: RevealedSlot, rules: Rules, bid: Bid, flagged: Bid)
    requires Holds(slot, rules, bid)
    requires flagged.position == bid.position && flagged.hash == bid.hash && flagged.record == bid.record
    ensures Holds(slot, rules, flagged)
  {
    hide Bids.Decode;
  }
}
