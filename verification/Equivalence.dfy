/** The two generations of the book side by side on one feed. */
module Equivalence {
  import opened Numbers
  import opened BookSpec
  import opened RefLayout
  import opened LevelAddressing
  import opened BookImage
  import opened BookImageView
  import opened ArrayBook
  import opened MarketSpec
  import opened ArraySpec
  import opened OrderPools
  import BaselineBook
  import BaselineMarkets
  import ArrayMarkets

  // The two markets share no state.
  ghost predicate Separate(v1: BaselineMarkets.Market, v3: ArrayMarkets.Market)
    reads v1, v3
  {
    v1 in v1.Repr && v3 in v3.Repr && v1.Repr !! v3.Repr
  }

  // One message to one book of each generation, in any state with equal books.
  // They part exactly on an add that finds the pool exhausted, on a fill that the
  // known order does not cover, and on a message that would change an order the
  // table has lost.
  method StepBoth(v1: BaselineBook.OrderBook, v3: ArrayBook.OrderBook, m: Message)
    requires v1.Valid() && SharedOk(v3.pool, v3.refs) && v3.Valid()
    requires v1.View() == v3.View() && ArrayMarkets.Ready(v3, m)
    modifies v1, v3, v3.occupied, v3.pool, v3.pool.slots, v3.refs, v3.refs.slots
    ensures v1.Valid() && SharedOk(v3.pool, v3.refs) && v3.Valid()
    ensures v1.View() == v3.View() <==>
            Agrees(old(v1.View()), m, old(v3.refs.Contents.Keys), old(v3.pool.free) != [])
    // No order is lost exactly when an add that takes a slot finds room in the table.
    ensures old(AllIndexed(v3.pool.live, v3.refs.Contents)) ==>
              (AllIndexed(v3.pool.live, v3.refs.Contents) <==>
                 (m.AddOrder? ==> old(v3.pool.free) == [] || 2 * old(v3.refs.size) < v3.refs.slots.Length))
  {
    hide *;
    ghost var b, known, slot := v3.View(), v3.refs.Contents.Keys, v3.pool.free != [];
    ViewOk(v3);
    ArrayMarkets.ReadyStartsFresh(v3, m);
    StepsAgreeIff(b, m, known, slot);
    BaselineMarkets.Dispatch(v1, m);
    ArrayMarkets.Dispatch(v3, m);
  }

  lemma ViewOk(b: ArrayBook.OrderBook)
    requires SharedOk(b.pool, b.refs) && b.Valid()
    ensures WellFormed(b.View())
  {
    hide BookOkBut, ViewOf, WellFormed, FreeChain, Partition, Layout;
    ViewIsWellFormed(b.Picture(), b, b.pool.slots[..], b.pool.live, {});
  }

  // One message to both markets, and whether their tops of book then agree.
  method Compare(v1: BaselineMarkets.Market, v3: ArrayMarkets.Market, m: Message, ghost before: seq<Message>)
      returns (same: bool)
    requires v1.Valid() && v3.Valid() && Separate(v1, v3)
    requires v3.AskedOnly(before) && FIRST_OVERFLOW + 2 * |PricesAsked(before, m.locate)| < MAX_LEVELS
    requires Feedable(v1.View, m) && Feedable(v3.View, m)
    modifies v1.Repr, v3.Repr
    ensures v1.Valid() && v3.Valid() && Separate(v1, v3) && v3.AskedOnly(before + [m])
    ensures fresh(v1.Repr - old(v1.Repr)) && fresh(v3.Repr - old(v3.Repr))
    ensures v1.View == Step(old(v1.View), m, true)
    ensures v3.Holding() == HeldStep(old(v3.Holding()), m, v3.Capacity())
    ensures m.locate in v1.View && m.locate in v3.View
    ensures same <==> exists top :: IsTop(v1.View[m.locate], top) && IsTop(v3.View[m.locate], top)
  {
    hide *;
    Advance(v1, v3, m, before);
    StepHasBook(v1, v3, m);
    var a := v1.BestBidAsk(m.locate);
    var b := v3.BestBidAsk(m.locate);
    same := a == b;
    forall top | IsTop(v1.View[m.locate], top) && IsTop(v3.View[m.locate], top)
      ensures top == a == b
    {
      TopIsUnique(v1.View[m.locate], a, top);
      TopIsUnique(v3.View[m.locate], b, top);
    }
  }

  // After the i-th message of a feed the two generations show different tops of
  // book for the symbol concerned.
  ghost predicate TopsDiffer(msgs: seq<Message>, i: nat, cap: Capacity)
    requires i < |msgs|
  {
    var b := BookAt(Run(map[], msgs[..i + 1], true), msgs[i].locate);
    var c := BookAt(HeldRun(msgs[..i + 1], cap).books, msgs[i].locate);
    !exists top :: IsTop(b, top) && IsTop(c, top)
  }

  ghost function Mismatches(msgs: seq<Message>, n: nat, cap: Capacity): set<nat>
    requires n <= |msgs|
  {
    set i: nat | i < n && TopsDiffer(msgs, i, cap)
  }

  lemma MismatchesStart(msgs: seq<Message>, cap: Capacity)
    ensures |Mismatches(msgs, 0, cap)| == 0
  {
    assert Mismatches(msgs, 0, cap) == {};
  }

  lemma MismatchesNext(msgs: seq<Message>, n: nat, cap: Capacity)
    requires n < |msgs|
    ensures |Mismatches(msgs, n + 1, cap)| == |Mismatches(msgs, n, cap)| + if TopsDiffer(msgs, n, cap) then 1 else 0
  {
    hide TopsDiffer;
    assert Mismatches(msgs, n + 1, cap) == Mismatches(msgs, n, cap) + if TopsDiffer(msgs, n, cap) then {n} else {};
  }

  // Equal books have the same top.
  lemma NoMismatch(msgs: seq<Message>, cap: Capacity)
    requires forall n :: 0 <= n <= |msgs| ==> SameAfter(msgs, n, cap)
    ensures Mismatches(msgs, |msgs|, cap) == {}
  {
    forall i: nat | i < |msgs|
      ensures !TopsDiffer(msgs, i, cap)
    {
      assert SameAfter(msgs, i + 1, cap);
      var top := TopExists(BookAt(Run(map[], msgs[..i + 1], true), msgs[i].locate));
    }
  }

  // One message to both markets.
  method Advance(v1: BaselineMarkets.Market, v3: ArrayMarkets.Market, m: Message, ghost before: seq<Message>)
    requires v1.Valid() && v3.Valid() && Separate(v1, v3)
    requires v3.AskedOnly(before) && FIRST_OVERFLOW + 2 * |PricesAsked(before, m.locate)| < MAX_LEVELS
    requires Feedable(v1.View, m) && Feedable(v3.View, m)
    modifies v1.Repr, v3.Repr
    ensures v1.Valid() && v3.Valid() && Separate(v1, v3) && v3.AskedOnly(before + [m])
    ensures fresh(v1.Repr - old(v1.Repr)) && fresh(v3.Repr - old(v3.Repr))
    ensures v1.View == Step(old(v1.View), m, true)
    ensures v3.Holding() == HeldStep(old(v3.Holding()), m, v3.Capacity())
    ensures m.locate in v1.books && m.locate in v3.books
  {
    hide ArrayMarkets.Market.Valid, BaselineMarkets.Market.Valid, Feedable, StartsFresh, BookAt, HeldStep, Step,
      PricesAsked, ArrayMarkets.Market.AskedOnly, ArrayMarkets.Market.Holding;
    FreshInBook(v1.View, m);
    v3.TableInRepr();
    v1.Process(m);
    v3.Process(m, before);
  }

  // Replays a feed, whatever its fills and however small the pool and the table,
  // through both markets, and compares the top of book of the symbol concerned
  // after every message.
  method ReplayFeed(msgs: seq<Message>, hash: Hash, poolCapacity: nat, tableCapacity: nat, ghost log: nat)
      returns (v1: BaselineMarkets.Market, v3: ArrayMarkets.Market, mismatches: nat)
    requires 1 <= poolCapacity <= 0xFFFF_FFFF
    requires log >= 1 && tableCapacity == Pow2(log) <= 0x8000_0000_0000_0000
    requires FeedRun(msgs) && FeedHeld(msgs, Capacity(poolCapacity, tableCapacity))
    requires forall l :: 2048 + 2 * |PricesAsked(msgs, l)| < 0x7FFF_FFFF
    ensures v1.Valid() && v3.Valid() && fresh(v1) && fresh(v3)
    ensures v3.pool.slots.Length == poolCapacity && v3.refs.slots.Length == tableCapacity
    ensures v1.View == Run(map[], msgs, true)
    ensures v3.Holding() == HeldRun(msgs, Capacity(poolCapacity, tableCapacity))
    ensures mismatches == |Mismatches(msgs, |msgs|, Capacity(poolCapacity, tableCapacity))|
    ensures (forall i :: 0 <= i < |msgs| ==> AgreesAt(msgs, i, Capacity(poolCapacity, tableCapacity)))
            ==> mismatches == 0
  {
    Limits();
    hide *;
    v1 := new BaselineMarkets.Market();
    v3 := new ArrayMarkets.Market(poolCapacity, tableCapacity, log, hash);
    mismatches := 0;
    ghost var cap := Capacity(poolCapacity, tableCapacity);
    StartsApart(v1, v3);
    MismatchesStart(msgs, cap);
    var i := 0;
    while i < |msgs|
      invariant 0 <= i <= |msgs| && mismatches == |Mismatches(msgs, i, cap)|
      invariant v1.Valid() && v3.Valid() && Separate(v1, v3) && fresh(v1.Repr) && fresh(v3.Repr)
      invariant v1.View == Run(map[], msgs[..i], true) && v3.Holding() == HeldRun(msgs[..i], cap)
      invariant v3.pool.slots.Length == poolCapacity && v3.refs.slots.Length == tableCapacity
      invariant v3.AskedOnly(msgs[..i])
    {
      v3.HoldingIs();
      FedAt(msgs, i, cap);
      PricesAskedPrefix(msgs, i, msgs[i].locate);
      RunNext(msgs, i, cap);
      var same := Compare(v1, v3, msgs[i], msgs[..i]);
      v3.HoldingIs();
      TopsDifferIs(msgs, i, cap, v1.View, v3.View);
      MismatchesNext(msgs, i, cap);
      mismatches := mismatches + if same then 0 else 1;
      i := i + 1;
    }
    assert msgs[..i] == msgs;
    AgreeThroughoutIff(msgs, cap);
    if forall j :: 0 <= j < |msgs| ==> AgreesAt(msgs, j, cap) {
      NoMismatch(msgs, cap);
    }
  }

  lemma Limits()
    ensures NULL_IDX == 0xFFFF_FFFF && U64 / 2 == 0x8000_0000_0000_0000
    ensures FIRST_OVERFLOW == 2048 && MAX_LEVELS == 0x7FFF_FFFF
  {
  }

  lemma TopsDifferIs(msgs: seq<Message>, i: nat, cap: Capacity, mk: MarketSpec.Market, held: MarketSpec.Market)
    requires i < |msgs| && mk == Run(map[], msgs[..i + 1], true) && held == HeldRun(msgs[..i + 1], cap).books
    requires msgs[i].locate in mk && msgs[i].locate in held
    ensures TopsDiffer(msgs, i, cap) <==>
            !exists top :: IsTop(mk[msgs[i].locate], top) && IsTop(held[msgs[i].locate], top)
  {
    hide IsTop, Run, HeldRun;
    assert BookAt(mk, msgs[i].locate) == mk[msgs[i].locate];
    assert BookAt(held, msgs[i].locate) == held[msgs[i].locate];
  }

  lemma StartsApart(v1: BaselineMarkets.Market, v3: ArrayMarkets.Market)
    requires v3.Valid() && v3.Holding() == NOTHING && v3.books == map[] && v1.View == map[]
    requires v1 in v1.Repr && v3 in v3.Repr && v1.Repr !! v3.Repr
    ensures Separate(v1, v3) && v3.AskedOnly([])
    ensures v1.View == Run(map[], [], true) && forall cap :: v3.Holding() == HeldRun([], cap)
  {
    hide ArrayMarkets.Market.Valid;
  }

  lemma RunNext(msgs: seq<Message>, i: nat, cap: Capacity)
    requires i < |msgs|
    ensures msgs[..i + 1] == msgs[..i] + [msgs[i]]
    ensures Run(map[], msgs[..i + 1], true) == Step(Run(map[], msgs[..i], true), msgs[i], true)
    ensures HeldRun(msgs[..i + 1], cap) == HeldStep(HeldRun(msgs[..i], cap), msgs[i], cap)
  {
    hide Step, HeldStep;
    assert msgs[..i + 1][..i] == msgs[..i];
  }

  // On a feed that keeps the promises, both markets hold the same queues of
  // (reference, shares) at every symbol, side and price, and no top of book differs.
  method Replay(msgs: seq<Message>, hash: Hash, poolCapacity: nat, tableCapacity: nat, ghost log: nat)
      returns (v1: BaselineMarkets.Market, v3: ArrayMarkets.Market, mismatches: nat)
    requires 1 <= poolCapacity <= 0xFFFF_FFFF
    requires log >= 1 && tableCapacity == Pow2(log) <= 0x8000_0000_0000_0000
    requires AdmissibleRun(msgs, Capacity(poolCapacity, tableCapacity))
    requires forall l :: 2048 + 2 * |PricesAsked(msgs, l)| < 0x7FFF_FFFF
    ensures v1.Valid() && v3.Valid() && fresh(v1) && fresh(v3)
    // The same queues of (reference, shares) at every symbol, side and price.
    ensures v1.View == v3.View == Run(map[], msgs, true)
    // Every order is known to the table all along.
    ensures v3.refs.Contents.Keys == MarketRefs(v3.View)
    ensures mismatches == 0
  {
    hide *;
    AdmissibleRunAgrees(msgs, Capacity(poolCapacity, tableCapacity));
    v1, v3, mismatches := ReplayFeed(msgs, hash, poolCapacity, tableCapacity, log);
    v3.HoldingIs();
  }

  lemma FedAt(msgs: seq<Message>, i: nat, cap: Capacity)
    requires FeedRun(msgs) && FeedHeld(msgs, cap) && i < |msgs|
    ensures Feedable(Run(map[], msgs[..i], true), msgs[i]) && Feedable(HeldRun(msgs[..i], cap).books, msgs[i])
  {
  }

  lemma StepHasBook(v1: BaselineMarkets.Market, v3: ArrayMarkets.Market, m: Message)
    requires v1.Valid() && v3.Valid() && m.locate in v1.books && m.locate in v3.books
    ensures m.locate in v1.View && m.locate in v3.View
  {
  }
}
