/** Concrete feeds on which the two generations part, through both markets. */
module Divergences {
  import opened Numbers
  import opened Counting
  import opened BookSpec
  import opened RefLayout
  import opened MarketSpec
  import opened ArraySpec
  import opened Equivalence

  const PRICE: uint32 := 10000
  const BID := Key(true, PRICE)

  function Bid(ref: uint64): Message {
    AddOrder(1, ref, 'B', 100, PRICE)
  }

  // A market whose one queue holds orders with these references.
  ghost function OneQueue(refs: seq<uint64>): MarketSpec.Market {
    map[1 := map[BID := Orders(refs)]]
  }

  ghost function Orders(refs: seq<uint64>): seq<Order> {
    seq(|refs|, i requires 0 <= i < |refs| => Order(refs[i], 100))
  }

  // With a pool of one slot the array book drops the second order.
  method ExhaustedPoolDiverges(hash: Hash, first: uint64, second: uint64)
      returns (v1: BaselineMarkets.Market, v3: ArrayMarkets.Market)
    requires first < U64 - 1 && second < U64 - 1 && first != second
    ensures v1.Valid() && v3.Valid() && v3.pool.slots.Length == 1 && v3.refs.slots.Length == 4
    ensures v1.View == Run(map[], [Bid(first), Bid(second)], true) == OneQueue([first, second])
    ensures v3.View == OneQueue([first])
  {
    hide ArrayMarkets.Market.Valid, BaselineMarkets.Market.Valid, ArrayMarkets.Market.Holding, FeedRun, FeedHeld, Run,
      HeldRun, PricesAsked, AgreesAt, OneQueue, Pow2;
    var msgs, mismatches := [Bid(first), Bid(second)], 0;
    SmallPowers();
    FirstTwo(first, second, Capacity(1, 4));
    FewPrices(msgs);
    v1, v3, mismatches := ReplayFeed(msgs, hash, 1, 4, 2);
    v3.HoldingIs();
  }

  // With a table of two slots the second order is taken, with six slots of the pool
  // left, but cannot be found again: the array book ignores its deletion.
  method HalfLoadDiverges(hash: Hash, first: uint64, second: uint64)
      returns (v1: BaselineMarkets.Market, v3: ArrayMarkets.Market)
    requires first < U64 - 1 && second < U64 - 1 && first != second
    ensures v1.Valid() && v3.Valid() && v3.pool.slots.Length == 8 && v3.refs.slots.Length == 2
    ensures v1.View == Run(map[], [Bid(first), Bid(second), OrderDelete(1, second)], true) == OneQueue([first])
    ensures v3.View == OneQueue([first, second]) && v3.refs.Contents.Keys == {first}
    // Up to the deletion the books are the same.
    ensures Run(map[], [Bid(first), Bid(second)], true) == OneQueue([first, second])
  {
    hide ArrayMarkets.Market.Valid, BaselineMarkets.Market.Valid, ArrayMarkets.Market.Holding, FeedRun, FeedHeld, Run,
      HeldRun, PricesAsked, AgreesAt, OneQueue, Pow2;
    var msgs, mismatches := [Bid(first), Bid(second), OrderDelete(1, second)], 0;
    SmallPowers();
    FirstTwo(first, second, Capacity(8, 2));
    ThenDelete(first, second);
    FewPrices(msgs);
    v1, v3, mismatches := ReplayFeed(msgs, hash, 8, 2, 1);
    v3.HoldingIs();
  }

  const ASK := Key(false, 10100)

  function Ask(ref: uint64): Message {
    AddOrder(1, ref, 'S', 100, 10100)
  }

  // A dropped ask leaves the array book without a top: one of the two comparisons
  // of the replay mismatches.
  method ExhaustedPoolMismatches(hash: Hash, first: uint64, second: uint64) returns (mismatches: nat)
    requires first < U64 - 1 && second < U64 - 1 && first != second
    ensures mismatches == 1
  {
    hide ArrayMarkets.Market.Valid, BaselineMarkets.Market.Valid, ArrayMarkets.Market.Holding, FeedRun, FeedHeld, Run,
      HeldRun, PricesAsked, AgreesAt, OneQueue, TwoQueues, Pow2, Mismatches;
    var msgs := [Bid(first), Ask(second)];
    SmallPowers();
    BidThenAsk(first, second);
    OneMismatch(first, second);
    TwoPrices(msgs);
    var v1, v3;
    v1, v3, mismatches := ReplayFeed(msgs, hash, 1, 4, 2);
  }

  ghost function TwoQueues(first: uint64, second: uint64): MarketSpec.Market {
    map[1 := map[BID := [Order(first, 100)], ASK := [Order(second, 100)]]]
  }

  lemma TwoPrices(msgs: seq<Message>)
    requires forall m :: m in msgs && Asks(m) ==> m.price == PRICE || m.price == 10100
    ensures forall l :: 2048 + 2 * |PricesAsked(msgs, l)| < 0x7FFF_FFFF
  {
    forall l
      ensures |PricesAsked(msgs, l)| <= 2
    {
      var two: set<uint32> := {PRICE, 10100};
      assert forall p :: p in PricesAsked(msgs, l) ==> p in two;
      Smaller(PricesAsked(msgs, l), two);
    }
  }

  lemma AskDropped(first: uint64, second: uint64)
    requires second < U64 - 1 && first != second
    ensures Feedable(OneQueue([first]), Ask(second))
    ensures Step(OneQueue([first]), Ask(second), true) == TwoQueues(first, second)
    ensures HeldStep(Held(OneQueue([first]), {first}), Ask(second), Capacity(1, 4)) == Held(OneQueue([first]), {first})
  {
    QueueRefs([first]);
    assert (set r | r in [first]) == {first};
    assert Orders([first]) == [Order(first, 100)];
    hide MarketRefs;
    var b: Book := OneQueue([first])[1];
    assert Queue(b, ASK) + [Order(second, 100)] == [Order(second, 100)];
    assert b[ASK := [Order(second, 100)]] == TwoQueues(first, second)[1];
    assert Apply(b, Ask(second), true) == TwoQueues(first, second)[1];
    assert OneQueue([first])[1 := TwoQueues(first, second)[1]] == TwoQueues(first, second);
  }

  lemma BidThenAsk(first: uint64, second: uint64)
    requires first < U64 - 1 && second < U64 - 1 && first != second
    ensures var msgs, cap := [Bid(first), Ask(second)], Capacity(1, 4);
            && FeedRun(msgs) && FeedHeld(msgs, cap)
            && Run(map[], msgs[..1], true) == HeldRun(msgs[..1], cap).books == OneQueue([first])
            && Run(map[], msgs[..2], true) == TwoQueues(first, second)
            && HeldRun(msgs[..2], cap).books == OneQueue([first])
  {
    hide Step, HeldStep, Feedable, OneQueue, TwoQueues, Bid, Ask;
    var msgs, cap := [Bid(first), Ask(second)], Capacity(1, 4);
    assert msgs[..0] == [] && msgs[..1] == [Bid(first)] && msgs[..1][..0] == [] && msgs[..2] == msgs;
    FirstBid(first, cap);
    AskDropped(first, second);
    assert Run(map[], msgs[..1], true) == OneQueue([first]);
    assert HeldRun(msgs[..1], cap) == Held(OneQueue([first]), {first});
  }

  lemma OneMismatch(first: uint64, second: uint64)
    requires first < U64 - 1 && second < U64 - 1 && first != second
    ensures |Mismatches([Bid(first), Ask(second)], 2, Capacity(1, 4))| == 1
  {
    var msgs, cap := [Bid(first), Ask(second)], Capacity(1, 4);
    BidThenAsk(first, second);
    var b, c: Book := OneQueue([first])[1], TwoQueues(first, second)[1];
    var top := TopExists(b);
    assert Key(true, PRICE) in c && Key(false, 10100) in c;
    assert !TopsDiffer(msgs, 0, cap) && TopsDiffer(msgs, 1, cap);
    MismatchesStart(msgs, cap);
    MismatchesNext(msgs, 0, cap);
    MismatchesNext(msgs, 1, cap);
  }

  lemma SmallPowers()
    ensures Pow2(1) == 2 && Pow2(2) == 4
  {
  }

  lemma FewPrices(msgs: seq<Message>)
    requires forall m :: m in msgs && Asks(m) ==> m.price == PRICE
    ensures forall l :: 2048 + 2 * |PricesAsked(msgs, l)| < 0x7FFF_FFFF
  {
    forall l
      ensures |PricesAsked(msgs, l)| <= 1
    {
      assert forall p :: p in PricesAsked(msgs, l) ==> p in {PRICE};
      Smaller(PricesAsked(msgs, l), {PRICE});
    }
  }

  lemma QueueRefs(refs: seq<uint64>)
    ensures MarketRefs(OneQueue(refs)) == set r | r in refs
  {
    var q: seq<Order> := OneQueue(refs)[1][BID];
    forall r
      ensures r in LiveRefs(OneQueue(refs)[1]) <==> r in refs
    {
      LiveIsMember(OneQueue(refs)[1], r);
      assert Live(OneQueue(refs)[1], r) <==> Has(q, r);
      if r in refs {
        var i :| 0 <= i < |refs| && refs[i] == r;
        assert q[i].ref == r;
      }
    }
  }

  // A bid joins the queue.
  lemma BidJoins(refs: seq<uint64>, r: uint64)
    requires refs != []
    ensures Apply(OneQueue(refs)[1], Bid(r), true) == Apply(OneQueue(refs)[1], Bid(r), false) == OneQueue(refs + [r])[1]
    ensures Step(OneQueue(refs), Bid(r), true) == OneQueue(refs + [r])
  {
    assert Orders(refs) + [Order(r, 100)] == Orders(refs + [r]);
    var b: Book := OneQueue(refs)[1];
    assert Queue(b, BID) == Orders(refs);
    assert b[BID := Orders(refs + [r])] == OneQueue(refs + [r])[1];
  }

  lemma FirstBid(r: uint64, cap: Capacity)
    requires r < U64 - 1 && cap.pool >= 1 && cap.table >= 1
    ensures Feedable(map[], Bid(r)) && Step(map[], Bid(r), true) == OneQueue([r])
    ensures HeldStep(NOTHING, Bid(r), cap) == Held(OneQueue([r]), {r})
  {
    NoRefs();
    var none: Book := map[];
    assert Queue(none, BID) + [Order(r, 100)] == Orders([r]);
    assert Apply(none, Bid(r), false) == Apply(none, Bid(r), true) == OneQueue([r])[1];
  }

  lemma SecondBid(first: uint64, second: uint64, cap: Capacity)
    requires second < U64 - 1 && first != second && cap.pool >= 1 && cap.table >= 1
    ensures Feedable(OneQueue([first]), Bid(second))
    ensures Step(OneQueue([first]), Bid(second), true) == OneQueue([first, second])
    ensures HeldStep(Held(OneQueue([first]), {first}), Bid(second), cap)
            == Held(OneQueue(if cap.pool > 1 then [first, second] else [first]),
                    if cap.pool > 1 && cap.table > 2 then {first, second} else {first})
  {
    QueueRefs([first]);
    BidJoins([first], second);
    assert [first] + [second] == [first, second];
    assert (set r | r in [first]) == {first};
    hide MarketRefs, Apply;
    assert OneQueue([first])[1 := OneQueue([first, second])[1]] == OneQueue([first, second]);
  }

  // The first order, with slots and room for one, then the second.
  lemma FirstTwo(first: uint64, second: uint64, cap: Capacity)
    requires first < U64 - 1 && second < U64 - 1 && first != second && cap.pool >= 1 && cap.table >= 1
    ensures var msgs := [Bid(first), Bid(second)];
            && FeedRun(msgs) && FeedHeld(msgs, cap)
            && Run(map[], msgs, true) == OneQueue([first, second])
            && HeldRun(msgs, cap) == Held(OneQueue(if cap.pool > 1 then [first, second] else [first]),
                                          if cap.pool > 1 && cap.table > 2 then {first, second} else {first})
  {
    hide Step, HeldStep, Feedable, OneQueue, Bid;
    var msgs := [Bid(first), Bid(second)];
    assert msgs[..0] == [] && msgs[..1] == [Bid(first)] && msgs[..1][..0] == [];
    FirstBid(first, cap);
    SecondBid(first, second, cap);
    assert Run(map[], msgs[..1], true) == OneQueue([first]);
    assert HeldRun(msgs[..1], cap) == Held(OneQueue([first]), {first});
  }

  lemma DeletesSecond(first: uint64, second: uint64)
    requires second < U64 - 1 && first != second
    ensures var mk, m := OneQueue([first, second]), OrderDelete(1, second);
            && Feedable(mk, m) && Step(mk, m, true) == OneQueue([first])
            && HeldStep(Held(mk, {first}), m, Capacity(8, 2)) == Held(mk, {first})
  {
    var mk, m := OneQueue([first, second]), OrderDelete(1, second);
    var b: Book, q: seq<Order> := mk[1], mk[1][BID];
    assert q[1].ref == second && Has(q, second);
    SweepAt(q, 1, second, Drop);
    assert q[..1] + [] + q[2..] == OneQueue([first])[1][BID];
    assert SweepBook(b, second, Drop) == OneQueue([first])[1];
    hide MarketRefs, Sweep;
    assert Step(mk, m, true) == OneQueue([first]);
  }

  lemma ThenDelete(first: uint64, second: uint64)
    requires first < U64 - 1 && second < U64 - 1 && first != second
    requires var msgs, cap := [Bid(first), Bid(second)], Capacity(8, 2);
             && FeedRun(msgs) && FeedHeld(msgs, cap)
             && Run(map[], msgs, true) == OneQueue([first, second])
             && HeldRun(msgs, cap) == Held(OneQueue([first, second]), {first})
    ensures var msgs, cap := [Bid(first), Bid(second), OrderDelete(1, second)], Capacity(8, 2);
            && FeedRun(msgs) && FeedHeld(msgs, cap)
            && Run(map[], msgs, true) == OneQueue([first])
            && HeldRun(msgs, cap) == Held(OneQueue([first, second]), {first})
  {
    hide Step, HeldStep, Feedable, OneQueue, Bid, FeedRun, FeedHeld;
    var msgs, cap := [Bid(first), Bid(second), OrderDelete(1, second)], Capacity(8, 2);
    assert msgs[..2] == [Bid(first), Bid(second)];
    DeletesSecond(first, second);
    FeedSplit(msgs, cap);
  }
}
