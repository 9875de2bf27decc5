/** All symbols together: what a feed message does to the market, and what the
    feed promises about its messages. */
module MarketSpec {
  import opened Numbers
  import opened Counting
  import opened BookSpec

  // One book a stock locate code; a symbol not seen yet has an empty book.
  type Market = map<uint16, Book>

  ghost function BookAt(mk: Market, locate: uint16): Book {
    if locate in mk then mk[locate] else map[]
  }

  ghost function Step(mk: Market, m: Message, wraps: bool): Market {
    mk[m.locate := Apply(BookAt(mk, m.locate), m, wraps)]
  }

  ghost function Run(mk: Market, msgs: seq<Message>, wraps: bool): Market {
    if msgs == [] then mk else Step(Run(mk, msgs[..|msgs| - 1], wraps), msgs[|msgs| - 1], wraps)
  }

  // References are unique across the whole market.
  ghost function MarketRefs(mk: Market): set<uint64> {
    set l, r | l in mk && r in LiveRefs(mk[l]) :: r
  }

  ghost predicate MarketOk(mk: Market) {
    && (forall l :: l in mk ==> WellFormed(mk[l]))
    && (forall l, n :: l in mk && n in mk && l != n ==> LiveRefs(mk[l]) !! LiveRefs(mk[n]))
  }

  // Messages that may ask for a price level.
  ghost predicate Asks(m: Message) {
    m.AddOrder? || m.OrderReplace?
  }

  // The prices that messages to a symbol ask for.
  ghost function PricesAsked(msgs: seq<Message>, locate: uint16): set<uint32> {
    set i | 0 <= i < |msgs| && msgs[i].locate == locate && Asks(msgs[i]) :: msgs[i].price
  }

  lemma PricesAskedNext(msgs: seq<Message>, m: Message, locate: uint16)
    ensures PricesAsked(msgs + [m], locate)
            == PricesAsked(msgs, locate) + if m.locate == locate && Asks(m) then {m.price} else {}
  {
    var all := msgs + [m];
    assert all[|msgs|] == m;
    forall p | p in PricesAsked(msgs, locate)
      ensures p in PricesAsked(all, locate)
    {
      var i :| 0 <= i < |msgs| && msgs[i].locate == locate && Asks(msgs[i]) && msgs[i].price == p;
      assert all[i] == msgs[i];
    }
  }

  // Fewer messages ask for fewer prices.
  lemma PricesAskedPrefix(msgs: seq<Message>, n: nat, locate: uint16)
    requires n <= |msgs|
    ensures |PricesAsked(msgs[..n], locate)| <= |PricesAsked(msgs, locate)|
  {
    forall p | p in PricesAsked(msgs[..n], locate)
      ensures p in PricesAsked(msgs, locate)
    {
      var i :| 0 <= i < n && msgs[..n][i].locate == locate && Asks(msgs[..n][i]) && msgs[..n][i].price == p;
      assert msgs[i] == msgs[..n][i];
    }
    Smaller(PricesAsked(msgs[..n], locate), PricesAsked(msgs, locate));
  }

  datatype Capacity = Capacity(pool: nat, table: nat)

  // What the feed promises about the references of a message in the market it
  // meets: they start fresh, and a message names its order's own symbol.
  ghost predicate Feedable(mk: Market, m: Message) {
    && m.ref < U64 - 1
    && (!m.AddOrder? && m.ref in MarketRefs(mk) ==> Live(BookAt(mk, m.locate), m.ref))
    && (match m
        case AddOrder(_, ref, _, _, _) => ref !in MarketRefs(mk)
        case OrderReplace(_, ref, newRef, _, _) =>
          newRef < U64 - 1 && (newRef == ref || newRef !in MarketRefs(mk))
        case _ => true)
  }

  // Said order by order: a reference is none of the last number, an add's is live
  // nowhere, a replacement's is live nowhere but under itself, and any other message
  // names an order of its own symbol or of none.
  lemma FeedableIs(mk: Market, m: Message)
    ensures Feedable(mk, m) <==>
            && m.ref < 0xFFFF_FFFF_FFFF_FFFF
            && (if m.AddOrder? then forall l :: l in mk ==> !Live(mk[l], m.ref)
                else forall l :: l in mk && Live(mk[l], m.ref) ==> m.locate in mk && Live(mk[m.locate], m.ref))
            && (m.OrderReplace? ==>
                  && m.newRef < 0xFFFF_FFFF_FFFF_FFFF
                  && (m.newRef == m.ref || forall l :: l in mk ==> !Live(mk[l], m.newRef)))
  {
    RefIsLive(mk, m.ref);
    if m.OrderReplace? {
      RefIsLive(mk, m.newRef);
    }
    hide Live, MarketRefs;
    assert !Live(map[], m.ref) by {
      NoneLive(m.ref);
    }
  }

  lemma NoneLive(ref: uint64)
    ensures !Live(map[], ref)
  {
  }

  lemma RefIsLive(mk: Market, ref: uint64)
    ensures ref in MarketRefs(mk) <==> exists l :: l in mk && Live(mk[l], ref)
  {
    hide Live, LiveRefs;
    forall l | l in mk
      ensures ref in LiveRefs(mk[l]) <==> Live(mk[l], ref)
    {
      LiveIsMember(mk[l], ref);
    }
  }

  // Besides, a fill is covered, and an order that is added finds room.
  ghost predicate Admissible(mk: Market, m: Message, cap: Capacity) {
    && Feedable(mk, m)
    && FillCovered(BookAt(mk, m.locate), m)
    && (m.AddOrder? ==> |MarketRefs(mk)| < cap.pool && 2 * |MarketRefs(mk)| < cap.table)
  }

  ghost predicate AdmissibleRun(msgs: seq<Message>, cap: Capacity) {
    forall i :: 0 <= i < |msgs| ==> Admissible(Run(map[], msgs[..i], true), msgs[i], cap)
  }

  ghost predicate FeedRun(msgs: seq<Message>) {
    forall i :: 0 <= i < |msgs| ==> Feedable(Run(map[], msgs[..i], true), msgs[i])
  }

  lemma FeedPrefix(msgs: seq<Message>, n: nat)
    requires FeedRun(msgs) && n <= |msgs|
    ensures FeedRun(msgs[..n])
  {
    hide Feedable, Run;
    forall i | 0 <= i < n
      ensures Feedable(Run(map[], msgs[..n][..i], true), msgs[..n][i])
    {
      assert msgs[..n][..i] == msgs[..i];
    }
  }

  lemma {:induction false} FeedKeeps(msgs: seq<Message>)
    requires FeedRun(msgs)
    ensures MarketOk(Run(map[], msgs, true))
    decreases |msgs|
  {
    hide Feedable, MarketOk, Step;
    if msgs == [] {
      NoBooksOk();
    } else {
      var n := |msgs| - 1;
      FeedPrefix(msgs, n);
      FeedKeeps(msgs[..n]);
      assert Feedable(Run(map[], msgs[..n], true), msgs[n]);
      StepKeeps(Run(map[], msgs[..n], true), msgs[n]);
    }
  }

  lemma NoBooksOk()
    ensures MarketOk(map[])
  {
  }

  // On admissible messages the wrapping and the capped fill arithmetic coincide.
  lemma StepsAgree(mk: Market, m: Message, cap: Capacity)
    requires MarketOk(mk) && Admissible(mk, m, cap)
    ensures Step(mk, m, true) == Step(mk, m, false)
  {
    MessagesAgreeIffCovered(BookAt(mk, m.locate), m);
  }

  // A reference new to the market is new to the book it starts in.
  lemma FreshInBook(mk: Market, m: Message)
    requires Feedable(mk, m)
    ensures StartsFresh(BookAt(mk, m.locate), m)
  {
    var b := BookAt(mk, m.locate);
    LiveIsMember(b, m.ref);
    if m.OrderReplace? {
      LiveIsMember(b, m.newRef);
    }
    assert m.locate !in mk ==> LiveRefs(b) == {};
  }

  lemma StepKeeps(mk: Market, m: Message)
    requires MarketOk(mk) && Feedable(mk, m)
    ensures MarketOk(Step(mk, m, true))
  {
    var b, c := BookAt(mk, m.locate), Apply(BookAt(mk, m.locate), m, true);
    assert LiveRefs(b) <= MarketRefs(mk) by {
      assert m.locate !in mk ==> LiveRefs(b) == {};
    }
    FreshInBook(mk, m);
    ApplyKeeps(b, m, true);
    ApplyRefs(b, m);
    forall l | l in mk && l != m.locate
      ensures LiveRefs(mk[l]) !! LiveRefs(c)
    {
      forall r | r in LiveRefs(mk[l])
        ensures r !in LiveRefs(c)
      {
        assert r in MarketRefs(mk);
        assert r !in LiveRefs(b);
        LiveIsMember(b, m.ref);
      }
    }
  }

  // A message brings in no reference but its own.
  lemma ApplyRefs(b: Book, m: Message)
    requires WellFormed(b) && StartsFresh(b, m)
    ensures LiveRefs(Apply(b, m, true)) <=
            LiveRefs(b) + (if m.AddOrder? then {m.ref}
                           else if m.OrderReplace? && Live(b, m.ref) then {m.newRef}
                           else {})
  {
    match m
    case AddOrder(_, ref, side, shares, price) => JoinKeeps(b, ref, Key(side == 'B', price), shares);
    case OrderExecuted(_, ref, n) => SweepKeeps(b, ref, Fill(true, n));
    case OrderCancel(_, ref, n) => SweepKeeps(b, ref, Fill(true, n));
    case OrderDelete(_, ref) => SweepKeeps(b, ref, Drop);
    case OrderReplace(_, ref, newRef, shares, price) =>
      if Live(b, ref) {
        DropKeeps(b, ref);
        LiveIsMember(b, newRef);
        LiveIsMember(SweepBook(b, ref, Drop), newRef);
        JoinKeeps(SweepBook(b, ref, Drop), newRef, Key(IsBid(b, ref), price), shares);
      }
  }

  lemma AdmissiblePrefix(msgs: seq<Message>, n: nat, cap: Capacity)
    requires AdmissibleRun(msgs, cap) && n <= |msgs|
    ensures AdmissibleRun(msgs[..n], cap)
  {
    hide Admissible, Run;
    forall i | 0 <= i < n
      ensures Admissible(Run(map[], msgs[..n][..i], true), msgs[..n][i], cap)
    {
      assert msgs[..n][..i] == msgs[..i];
    }
  }

  lemma {:induction false} RunKeeps(msgs: seq<Message>, cap: Capacity)
    requires AdmissibleRun(msgs, cap)
    ensures MarketOk(Run(map[], msgs, true)) && Run(map[], msgs, true) == Run(map[], msgs, false)
    decreases |msgs|
  {
    if msgs != [] {
      var n := |msgs| - 1;
      AdmissiblePrefix(msgs, n, cap);
      RunKeeps(msgs[..n], cap);
      StepKeeps(Run(map[], msgs[..n], true), msgs[n]);
      StepsAgree(Run(map[], msgs[..n], true), msgs[n], cap);
    }
  }
}
