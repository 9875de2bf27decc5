/** Best prices of an image: what the window caches and the overflow maps say
    about the book it denotes. */
module TopOfBook {
  import opened Numbers
  import opened BookSpec
  import opened OrderPools
  import opened LevelAddressing
  import opened LevelLists
  import opened BookImage
  import opened BookImageView

  // A side and price is in the book exactly when it has a level with orders.
  lemma InView(g: Image, s: seq<PooledOrder>, live: Tags, k: Key)
    requires Sized(g) && Placed(g)
    ensures k in ViewOf(g, s, live) <==>
            LevelOf(g.addr, k).Some? && LevelOf(g.addr, k).value < |g.lists| && g.lists[LevelOf(g.addr, k).value] != []
  {
    hide KeyOf, LevelOf, AddressOk;
    if k in ViewOf(g, s, live) {
      var l := KeyLevel(g, s, live, k);
      QueueOfView(g, s, live, k);
    } else if LevelOf(g.addr, k).Some? {
      KeyOfLevelOf(g.addr, k);
    }
  }

  // p is the best price of its side among the window levels of the book.
  ghost predicate BestInWindow(g: Image, b: Book, bid: bool, p: Option<uint32>) {
    match p
    case None => forall q: uint32 :: Key(bid, q) in b ==> q in Overflow(g.addr, bid)
    case Some(x) =>
      && Key(bid, x) in b
      && forall q: uint32 :: Key(bid, q) in b ==> q in Overflow(g.addr, bid) || (if bid then q <= x else x <= q)
  }

  lemma WindowLevel(g: Image, s: seq<PooledOrder>, live: Tags, k: Key)
    requires Sized(g) && Placed(g) && k in ViewOf(g, s, live) && k.price !in Overflow(g.addr, k.bid)
    ensures var l := k.price / 100 - g.addr.base + if k.bid then 0 else ASK_BASE;
            && (if k.bid then 0 <= l < ASK_BASE else ASK_BASE <= l < FIRST_OVERFLOW)
            && k.price % 100 == 0 && g.lists[l] != []
  {
    InView(g, s, live, k);
  }

  lemma CachedLevel(g: Image, s: seq<PooledOrder>, live: Tags, l: nat)
    requires Sized(g) && Placed(g) && l < FIRST_OVERFLOW && g.lists[l] != []
    ensures var k := KeyOf(g.addr, l);
            && k in ViewOf(g, s, live) && k.bid == (l < ASK_BASE)
            && k.price == (g.addr.base + l % WINDOW) * 100
  {
    ActiveLevel(g, l);
    assert KeyOf(g.addr, l) in ActiveKeys(g);
    hide Wrap32;
    LevelOfKeyOf(g.addr, l);
    var off := l % WINDOW;
    assert off == if l < ASK_BASE then l else l - ASK_BASE;
    WrapExact((g.addr.base + off) * 100);
  }

  lemma WrapExact(x: int)
    requires 0 <= x < U32
    ensures Wrap32(x) == x
  {
  }

  lemma WindowBid(g: Image, s: seq<PooledOrder>, live: Tags)
    requires Sized(g) && Placed(g) && BidCached(g)
    ensures BestInWindow(g, ViewOf(g, s, live), true,
                         if g.bestBid >= 0 then Some(KeyOf(g.addr, g.bestBid).price) else None)
  {
    hide KeyOf, LevelOf, AddressOk, ViewOf;
    if g.bestBid >= 0 {
      CachedLevel(g, s, live, g.bestBid);
    }
    forall q: uint32 | Key(true, q) in ViewOf(g, s, live) && q !in Overflow(g.addr, true)
      ensures g.bestBid >= 0 && q <= KeyOf(g.addr, g.bestBid).price
    {
      WindowLevel(g, s, live, Key(true, q));
    }
  }

  lemma WindowAsk(g: Image, s: seq<PooledOrder>, live: Tags)
    requires Sized(g) && Placed(g) && AskCached(g)
    ensures BestInWindow(g, ViewOf(g, s, live), false,
                         if g.bestAsk >= 0 then Some(KeyOf(g.addr, g.bestAsk).price) else None)
  {
    hide KeyOf, LevelOf, AddressOk, ViewOf;
    if g.bestAsk >= 0 {
      CachedLevel(g, s, live, g.bestAsk);
      assert g.bestAsk % WINDOW == g.bestAsk - ASK_BASE;
    }
    forall q: uint32 | Key(false, q) in ViewOf(g, s, live) && q !in Overflow(g.addr, false)
      ensures g.bestAsk >= 0 && KeyOf(g.addr, g.bestAsk).price <= q
    {
      WindowLevel(g, s, live, Key(false, q));
    }
  }

  // An overflow price is in the book exactly when its level has a head.
  lemma OverflowInView(g: Image, s: seq<PooledOrder>, live: Tags, bid: bool, p: uint32)
    requires Sized(g) && Placed(g) && AllLinked(g, s) && p in Overflow(g.addr, bid)
    ensures var l := Overflow(g.addr, bid)[p];
            l < |g.lists| && (Key(bid, p) in ViewOf(g, s, live) <==> g.levels[l].head != NULL_IDX)
  {
    var l := Overflow(g.addr, bid)[p];
    assert OverflowEntry(g.addr, bid, p, l);
    assert !InWindow(g.addr.base, p);
    InView(g, s, live, Key(bid, p));
    assert Linked(s, g.levels[l], l, g.lists[l]);
    hide Wrap32, Shares, Chained, NoRepeats;
    assert g.lists[l] != [] ==> g.levels[l].head == g.lists[l][0] < |s|;
  }
}
