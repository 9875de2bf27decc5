/** All v3 books over one pool and one table. */
module ArrayMarkets {
  import opened Numbers
  import opened Counting
  import opened BookSpec
  import opened RefLayout
  import opened RefTables
  import opened OrderPools
  import opened LevelAddressing
  import opened LevelLists
  import opened BookImage
  import opened BookImageView
  import opened ArrayBook
  import opened MarketSpec
  import opened ArraySpec

  // What a message needs of its book and of the references in use.
  ghost predicate Ready(b: ArrayBook.OrderBook, m: Message)
    reads b, b.pool, b.refs
  {
    && m.ref < U64 - 1
    && (Asks(m) ==> |b.levels| < MAX_LEVELS)
    && (match m
        case AddOrder(_, ref, _, _, _) => Unused(b.pool.live, ref)
        case OrderReplace(_, ref, newRef, _, _) =>
          b.Mine(ref) && newRef < U64 - 1 && (newRef == ref || Unused(b.pool.live, newRef))
        case _ => b.Mine(m.ref))
  }

  // An order the table knows is live in its book.
  lemma KnownIsLive(b: ArrayBook.OrderBook, ref: uint64)
    requires SharedOk(b.pool, b.refs) && b.Valid() && b.Mine(ref)
    ensures ref in b.refs.Contents ==> Live(b.View(), ref)
  {
    ViewRefs(b.Picture(), b, b.pool.slots[..], b.pool.live, ref);
    hide BookOkBut, ViewOf, Layout, FreeChain;
  }

  // References that no live slot carries are new to the book.
  lemma ReadyStartsFresh(b: ArrayBook.OrderBook, m: Message)
    requires b.Valid() && Ready(b, m)
    ensures StartsFresh(b.View(), m)
  {
    hide BookOkBut, ViewOf, Live;
    ViewRefs(b.Picture(), b, b.pool.slots[..], b.pool.live, m.ref);
    if m.OrderReplace? {
      ViewRefs(b.Picture(), b, b.pool.slots[..], b.pool.live, m.newRef);
    }
  }

  // Runs the handler that the message's type selects.
  method Dispatch(b: ArrayBook.OrderBook, m: Message)
    requires SharedOk(b.pool, b.refs) && b.Valid() && Ready(b, m)
    modifies b, b.occupied, b.pool, b.pool.slots, b.refs, b.refs.slots
    ensures SharedOk(b.pool, b.refs) && b.Valid()
    ensures b.View() == ArrayStep(old(b.View()), m, old(b.refs.Contents.Keys), old(b.pool.free) != [])
    ensures b.refs.Contents.Keys == KnownAfter(b.View(), m, old(b.refs.Contents.Keys), old(b.pool.free) != [],
                                               2 * old(b.refs.size) < b.refs.slots.Length)
    ensures old(AllIndexed(b.pool.live, b.refs.Contents)) ==>
              (AllIndexed(b.pool.live, b.refs.Contents) <==>
                 (m.AddOrder? ==> old(b.pool.free) == [] || 2 * old(b.refs.size) < b.refs.slots.Length))
    ensures OnlyMine(b, old(b.pool.slots[..]), old(b.pool.live), b.pool.slots[..], b.pool.live)
    ensures b.prices == old(b.prices) || (Asks(m) && b.prices == old(b.prices) + [m.price])
  {
    hide BookOkBut, ViewOf, SweepBook, Join, Layout, FreeChain, Partition, RefsDiffer, TableAgrees, AllIndexed,
      OnlyMine, IsBid, Live, Apply, ArrayStep, KnownAfter;
    ghost var table, slot, room := b.refs.Contents, b.pool.free != [], 2 * b.refs.size < b.refs.slots.Length;
    StepIs(b.View(), m, table.Keys, slot);
    KeysWithout(table, m.ref);
    match m {
      case AddOrder(_, ref, side, shares, price) =>
        b.AddOrder(ref, side, shares, price);
      case OrderExecuted(_, ref, n) =>
        b.ExecuteOrder(ref, n);
      case OrderCancel(_, ref, n) =>
        b.CancelOrder(ref, n);
      case OrderDelete(_, ref) =>
        b.DeleteOrder(ref);
      case OrderReplace(_, ref, newRef, shares, price) =>
        KnownIsLive(b, ref);
        if ref in table {
          KeysMoved(table, ref, newRef, table[ref]);
        }
        b.ReplaceOrder(ref, newRef, shares, price);
    }
    KnownAfterIs(b.View(), m, table.Keys, slot, room);
  }

  // The step of each type of message, in the handlers' terms.
  lemma StepIs(b: Book, m: Message, known: set<uint64>, slot: bool)
    ensures var c := ArrayStep(b, m, known, slot);
            match m
            case AddOrder(_, ref, side, shares, price) =>
              c == if slot then Join(b, ref, Key(side == 'B', price), shares) else b
            case OrderExecuted(_, ref, n) => c == if ref in known then SweepBook(b, ref, Take(n)) else b
            case OrderCancel(_, ref, n) => c == if ref in known then SweepBook(b, ref, Take(n)) else b
            case OrderDelete(_, ref) => c == if ref in known then SweepBook(b, ref, Drop) else b
            case OrderReplace(_, ref, newRef, shares, price) =>
              && (ref !in known ==> c == b)
              && (ref in known && Live(b, ref) ==>
                    c == Join(SweepBook(b, ref, Drop), newRef, Key(IsBid(b, ref), price), shares))
  {
    hide SweepBook, Join, Live, IsBid;
  }

  lemma KnownAfterIs(after: Book, m: Message, known: set<uint64>, slot: bool, room: bool)
    ensures var c := KnownAfter(after, m, known, slot, room);
            match m
            case AddOrder(_, ref, _, _, _) => c == known + if slot && room then {ref} else {}
            case OrderDelete(_, ref) => c == known - {ref}
            case OrderReplace(_, ref, newRef, _, _) => c == if ref in known then known - {ref} + {newRef} else known
            case _ => c == if Live(after, m.ref) then known else known - {m.ref}
  {
    hide Live;
  }

  lemma KeysWithout(table: map<uint64, uint32>, ref: uint64)
    ensures (table - {ref}).Keys == table.Keys - {ref}
  {
  }

  lemma KeysMoved(table: map<uint64, uint32>, ref: uint64, newRef: uint64, x: uint32)
    ensures (table - {ref})[newRef := x].Keys == table.Keys - {ref} + {newRef}
  {
  }

  type Books = map<uint16, ArrayBook.OrderBook>

  // The books are distinct objects over this pool and table.
  ghost predicate Wired(books: Books, pool: OrderPool, refs: RefTable, repr: set<object>) {
    && {pool, pool.slots, refs, refs.slots} <= repr
    && (forall l :: l in books ==>
          && books[l] in repr && books[l].occupied in repr
          && books[l].pool == pool && books[l].refs == refs && books[l].Apart())
    && (forall l, n :: l in books && n in books && l != n ==>
          books[l] != books[n] && books[l].occupied != books[n].occupied)
  }

  // The image is that of a consistent book, and denotes v.
  ghost predicate Denotes(me: object, g: Image, s: seq<PooledOrder>, live: Tags, v: Book) {
    BookOk(g, me, s, live) && ViewOf(g, s, live) == v
  }

  // Every live slot belongs to some book.
  ghost predicate AllOwned(books: Books, live: Tags) {
    forall x :: x in live ==> exists l :: l in books && books[l] == live[x].book
  }

  lemma AddedIsOwned(books: Books, live: Tags, locate: uint16, b: ArrayBook.OrderBook)
    requires AllOwned(books, live) && locate !in books
    ensures AllOwned(books[locate := b], live)
  {
    var more := books[locate := b];
    forall x | x in live
      ensures exists l :: l in more && more[l] == live[x].book
    {
      var l :| l in books && books[l] == live[x].book;
      assert more[l] == books[l];
    }
  }

  lemma AddedIsWired(books: Books, pool: OrderPool, refs: RefTable, repr: set<object>, locate: uint16,
                     b: ArrayBook.OrderBook)
    requires Wired(books, pool, refs, repr) && locate !in books && b !in repr && b.occupied !in repr
    requires b.pool == pool && b.refs == refs && b.Apart()
    ensures Wired(books[locate := b], pool, refs, repr + {b, b.occupied})
  {
  }

  // Slots changed by one book of the market stay owned.
  lemma StillOwned(books: Books, me: uint16, s: seq<PooledOrder>, live: Tags, t: seq<PooledOrder>, live': Tags)
    requires AllOwned(books, live) && me in books && OnlyMine(books[me], s, live, t, live')
    ensures AllOwned(books, live')
  {
    forall x | x in live'
      ensures exists l :: l in books && books[l] == live'[x].book
    {
      if live'[x].book == books[me] {
      } else {
        assert live[x] == live'[x];
      }
    }
  }

  // A slot is free exactly when fewer references are live than there are slots.
  lemma SlotIsFreeIff(refs: set<uint64>, n: nat, free: seq<int>, live: Tags)
    requires Partition(n, free, live) && RefsDiffer(live) && forall i :: i in free ==> 0 <= i < n
    requires forall r :: r in refs <==> exists x :: x in live && live[x].ref == r
    ensures free != [] <==> |refs| < n
  {
    if free == [] {
      var all := seq(n, x requires 0 <= x < n => live[x].ref);
      assert forall x :: 0 <= x < n ==> x in live;
      AtLeast(refs, all);
    } else {
      assert free[0] in free;
      FewerThanSlots(refs, n, free[0], live);
    }
  }

  // With one slot free, the slots of the references fit below n - 1 when the last
  // slot stands in for the free one.
  lemma FewerThanSlots(refs: set<uint64>, n: nat, spare: int, live: Tags)
    requires 0 <= spare < n && spare !in live && forall x :: x in live ==> 0 <= x < n
    requires forall r :: r in refs ==> exists x :: x in live && live[x].ref == r
    ensures |refs| < n
  {
    var slot := map r | r in refs :: SlotWith(live, r);
    var rank := map r | r in refs :: if slot[r] == n - 1 then spare else slot[r];
    forall a, b | a in refs && b in refs && a != b
      ensures rank[a] != rank[b]
    {
      assert live[slot[a]].ref == a && live[slot[b]].ref == b;
    }
    AtMost(refs, rank, n - 1);
  }

  ghost function SlotWith(live: Tags, ref: uint64): (x: int)
    requires exists x :: x in live && live[x].ref == ref
    ensures x in live && live[x].ref == ref
  {
    var x :| x in live && live[x].ref == ref;
    x
  }

  // A book whose own slots and fields stay the same stays what it was.
  lemma OtherBook(me: object, other: object, g: Image, s: seq<PooledOrder>, live: Tags, t: seq<PooledOrder>,
                  live': Tags, v: Book)
    requires me != other && OnlyMine(me, s, live, t, live') && Denotes(other, g, s, live, v)
    ensures Denotes(other, g, t, live', v)
  {
    OthersUntouched(me, other, s, live, t, live');
    UntouchedOk(g, other, s, live, t, live');
    UntouchedView(g, other, s, live, t, live');
  }

  // A symbol without a book and one with an empty book are the same to a message.
  lemma TouchedIsSame(h: Held, m: Message, cap: MarketSpec.Capacity)
    requires m.locate !in h.books
    ensures var touched := h.(books := h.books[m.locate := map[]]);
            && (Feedable(touched.books, m) <==> Feedable(h.books, m))
            && HeldStep(touched, m, cap) == HeldStep(h, m, cap)
  {
    hide *;
    var touched := h.books[m.locate := map[]];
    SameRefs(h.books, m.locate);
    SameBookAt(h.books, m.locate);
    SameFeed(h.books, touched, m);
    SameStep(h, touched, m, cap);
  }

  lemma SameRefs(mk: MarketSpec.Market, locate: uint16)
    requires locate !in mk
    ensures MarketRefs(mk[locate := map[]]) == MarketRefs(mk)
  {
    RefsSplit(mk, locate);
    RefsSplit(mk[locate := map[]], locate);
    OtherRefsStay(mk, locate, map[]);
    hide MarketRefs, OtherRefs, LiveRefs;
  }

  lemma SameBookAt(mk: MarketSpec.Market, locate: uint16)
    requires locate !in mk
    ensures BookAt(mk[locate := map[]], locate) == BookAt(mk, locate)
  {
  }

  lemma SameFeed(mk: MarketSpec.Market, mk': MarketSpec.Market, m: Message)
    requires MarketRefs(mk') == MarketRefs(mk) && BookAt(mk', m.locate) == BookAt(mk, m.locate)
    ensures Feedable(mk', m) <==> Feedable(mk, m)
  {
    hide MarketRefs, BookAt, Live;
  }

  lemma SameStep(h: Held, mk: MarketSpec.Market, m: Message, cap: MarketSpec.Capacity)
    requires MarketRefs(mk) == MarketRefs(h.books) && BookAt(mk, m.locate) == BookAt(h.books, m.locate)
    requires mk == h.books[m.locate := map[]]
    ensures HeldStep(h.(books := mk), m, cap) == HeldStep(h, m, cap)
  {
    hide MarketRefs, BookAt, ArrayStep, KnownAfter;
  }

  // What wiring says of the other books, seen from one of them.
  lemma OthersApart(books: Books, pool: OrderPool, refs: RefTable, repr: set<object>, me: uint16)
    requires Wired(books, pool, refs, repr) && me in books
    ensures forall l :: l in books ==>
              && books[l].pool == pool && books[l].refs == refs && books[l].Apart()
              && books[l].occupied as object != pool.slots && books[l].occupied as object != refs.slots
              && (l != me ==> books[l] != books[me] && books[l].occupied != books[me].occupied)
    ensures {pool, pool.slots, refs, refs.slots, books[me], books[me].occupied} <= repr
  {
  }

  lemma NextAt(h: Held, m: Message, cap: MarketSpec.Capacity)
    requires m.locate in h.books
    ensures var next, b, slot := HeldStep(h, m, cap), h.books[m.locate], HasSlot(h, cap);
            && next.books.Keys == h.books.Keys
            && (forall l :: l in h.books && l != m.locate ==> next.books[l] == h.books[l])
            && next.books[m.locate] == ArrayStep(b, m, h.known, slot)
            && next.known == KnownAfter(next.books[m.locate], m, h.known, slot, 2 * |h.known| < cap.table)
  {
    hide ArrayStep, KnownAfter, HasSlot;
  }

  lemma StandsAs(b: ArrayBook.OrderBook)
    requires b.Valid()
    ensures Denotes(b, b.Picture(), b.pool.slots[..], b.pool.live, b.View())
  {
    hide BookOkBut, ViewOf;
  }

  lemma StandsWhole(b: ArrayBook.OrderBook, v: Book)
    requires b.Apart() && Denotes(b, b.Picture(), b.pool.slots[..], b.pool.live, v)
    ensures b.Valid() && b.View() == v
  {
    hide BookOkBut, ViewOf;
  }

  // A list without repetition is no longer than the pool, so its length fits in 32 bits.
  lemma ListsAreShort(s: seq<PooledOrder>, q: seq<int>)
    requires InRange(s, q) && NoRepeats(q) && |s| < U32
    ensures |q| <= |s| && Wrap32(|q|) == |q|
  {
    var slots := set x | x in q;
    AtLeast(slots, q);
    AtMost(slots, map x | x in slots :: x, |s|);
  }

  class Market {
    const pool: OrderPool
    const refs: RefTable
    var books: map<uint16, ArrayBook.OrderBook>
    ghost var View: MarketSpec.Market
    ghost var Repr: set<object>

    ghost predicate Valid()
      reads this, Repr
    {
      && this in Repr && Wired(books, pool, refs, Repr)
      && SharedOk(pool, refs)
      && View.Keys == books.Keys
      && (forall l :: l in books ==> Denotes(books[l], books[l].Picture(), pool.slots[..], pool.live, View[l]))
      && AllOwned(books, pool.live)
    }

    lemma Parts()
      requires Valid()
      ensures this in Repr && Wired(books, pool, refs, Repr)
      ensures SharedOk(pool, refs) && AllOwned(books, pool.live)
      ensures View.Keys == books.Keys
      ensures forall l :: l in books ==> Denotes(books[l], books[l].Picture(), pool.slots[..], pool.live, View[l])
    {
    }

    lemma Whole()
      requires this in Repr && Wired(books, pool, refs, Repr)
      requires SharedOk(pool, refs) && AllOwned(books, pool.live)
      requires View.Keys == books.Keys
      requires forall l :: l in books ==> Denotes(books[l], books[l].Picture(), pool.slots[..], pool.live, View[l])
      ensures Valid()
    {
    }

    ghost function Capacity(): MarketSpec.Capacity {
      MarketSpec.Capacity(pool.slots.Length, refs.slots.Length)
    }

    lemma TableInRepr()
      requires Valid()
      ensures {this, pool, refs} <= Repr
    {
    }

    // What the market holds: its books, and the references its table knows.
    ghost function Holding(): Held
      reads this, refs
    {
      Held(View, refs.Contents.Keys)
    }

    constructor (poolCapacity: nat, tableCapacity: nat, ghost log: nat, hash: Hash)
      requires 1 <= poolCapacity <= NULL_IDX
      requires log >= 1 && tableCapacity == Pow2(log) <= U64 / 2
      ensures Valid() && fresh(Repr) && this in Repr && Holding() == NOTHING
      ensures pool.slots.Length == poolCapacity && refs.slots.Length == tableCapacity && books == map[]
    {
      hide *;
      var p := new OrderPool(poolCapacity);
      var r := new RefTable(hash, tableCapacity, log);
      pool, refs, books := p, r, map[];
      Repr := {this, p, p.slots, r, r.slots};
      View := map[];
      new;
      StartsEmpty();
    }

    lemma StartsEmpty()
      requires pool.Valid() && refs.Valid() && pool.slots as object != refs.slots
      requires pool.live == map[] && refs.Contents == map[] && books == map[] && View == map[]
      requires Repr == {this, pool, pool.slots, refs, refs.slots}
      ensures Valid() && Holding() == NOTHING
    {
      hide FreeChain, Partition, Layout, Pow2;
    }

    // Overflow levels stand for prices that the messages so far asked for.
    ghost predicate AskedOnly(msgs: seq<Message>)
      reads this, Repr
    {
      forall l, p :: l in books && books[l] in Repr && p in books[l].prices ==> p in PricesAsked(msgs, l)
    }

    lemma AskedByBook(msgs: seq<Message>)
      requires Wired(books, pool, refs, Repr)
      ensures AskedOnly(msgs) <==> forall l, p :: l in books && p in books[l].prices ==> p in PricesAsked(msgs, l)
    {
    }

    lemma RoomForLevel(msgs: seq<Message>, l: uint16)
      requires Valid() && AskedOnly(msgs) && l in books
      requires FIRST_OVERFLOW + 2 * |PricesAsked(msgs, l)| < MAX_LEVELS
      ensures |books[l].levels| < MAX_LEVELS
    {
      hide ViewOf, AllLinked, Owns, Covers, BitsAgree, BidCached, AskCached, BookImage.Placed, SharedOk,
        AllOwned;
      AskedByBook(msgs);
      assert Denotes(books[l], books[l].Picture(), pool.slots[..], pool.live, View[l]);
      OverflowLevelsAreFew(books[l].Addr(), PricesAsked(msgs, l));
    }

    // The book of a symbol, constructed on first use.
    method Touch(locate: uint16, ghost before: seq<Message>)
      requires AskedOnly(before) && Valid()
      modifies this`books, this`Repr, this`View
      ensures Valid() && locate in books && fresh(Repr - old(Repr))
      ensures books.Keys == old(books.Keys) + {locate}
      ensures forall l :: l in old(books) ==> books[l] == old(books)[l] && books[l].Picture() == old(books[l].Picture())
      ensures AskedOnly(before)
      ensures View == if locate in old(books) then old(View) else old(View)[locate := map[]]
    {
      hide *;
      Parts();
      if locate !in books {
        AskedByBook(before);
        Install(locate);
        Parts();
        AskedByBook(before);
      }
    }

    method Install(locate: uint16)
      requires Valid() && locate !in books
      modifies this`books, this`Repr, this`View
      ensures Valid() && fresh(Repr - old(Repr))
      ensures books.Keys == old(books.Keys) + {locate}
      ensures forall l :: l in old(books) ==> books[l] == old(books)[l]
      ensures books[locate].prices == []
      ensures View == old(View)[locate := map[]]
    {
      hide *;
      Parts();
      var b := Create();
      AddedIsOwned(books, pool.live, locate, b);
      AddedIsWired(books, pool, refs, Repr, locate, b);
      books, Repr, View := books[locate := b], Repr + {b, b.occupied}, View[locate := map[]];
      Whole();
    }

    method Create() returns (b: ArrayBook.OrderBook)
      requires SharedOk(pool, refs)
      ensures fresh(b) && fresh(b.occupied) && b.pool == pool && b.refs == refs && b.Apart()
      ensures Denotes(b, b.Picture(), pool.slots[..], pool.live, map[]) && b.prices == []
    {
      hide Layout, ViewOf, BookOkBut, FreeChain, Partition;
      b := new ArrayBook.OrderBook(pool, refs);
    }

    // The references of the market are those of the live slots.
    lemma RefsAreLive(ref: uint64)
      requires Valid()
      ensures ref in MarketRefs(View) <==> exists x :: x in pool.live && pool.live[x].ref == ref
    {
      hide ViewOf, BookOkBut, SharedOk;
      if ref in MarketRefs(View) {
        var l :| l in View && ref in LiveRefs(View[l]);
        RefsOfBook(l, ref);
      }
      if x :| x in pool.live && pool.live[x].ref == ref {
        var l :| l in books && books[l] == pool.live[x].book;
        RefsOfBook(l, ref);
      }
    }

    lemma RefsOfBook(l: uint16, ref: uint64)
      requires Valid() && l in books
      ensures ref in LiveRefs(View[l]) <==>
              exists x :: x in pool.live && pool.live[x].book == books[l] && pool.live[x].ref == ref
    {
      hide ViewOf, BookOkBut, SharedOk, AllOwned;
      assert Denotes(books[l], books[l].Picture(), pool.slots[..], pool.live, View[l]);
      ViewRefs(books[l].Picture(), books[l], pool.slots[..], pool.live, ref);
      LiveIsMember(View[l], ref);
    }

    lemma MineIfFed(l: uint16, ref: uint64)
      requires Valid() && l in books && (ref in MarketRefs(View) ==> Live(View[l], ref))
      ensures books[l].Mine(ref)
    {
      hide ViewOf, BookOkBut, AllOwned, FreeChain, Layout, Denotes;
      if ref in refs.Contents {
        RefsAreLive(ref);
        LiveIsMember(View[l], ref);
        RefsOfBook(l, ref);
      }
    }

    lemma UnusedIfFresh(ref: uint64)
      requires Valid() && ref !in MarketRefs(View)
      ensures Unused(pool.live, ref)
    {
      RefsAreLive(ref);
    }

    // Capacity read off the books: the pool has a slot exactly when the market holds
    // fewer orders than slots, and the table counts the references it knows.
    lemma SlotIff()
      requires Valid()
      ensures pool.free != [] <==> HasSlot(Holding(), Capacity())
      ensures refs.size == |Holding().known|
    {
      hide ViewOf, BookOkBut, AllOwned, Layout, Denotes, Partition, MarketRefs;
      forall ref
        ensures ref in MarketRefs(View) <==> exists x :: x in pool.live && pool.live[x].ref == ref
      {
        RefsAreLive(ref);
      }
      SlotIsFreeIff(MarketRefs(View), pool.slots.Length, pool.free, pool.live);
    }

    // What the feed promises, read off the pool and the table.
    lemma ReadyFor(m: Message)
      requires Valid() && m.locate in books && |books[m.locate].levels| < MAX_LEVELS && Feedable(View, m)
      ensures books[m.locate].Valid() && books[m.locate].View() == View[m.locate] && Ready(books[m.locate], m)
    {
      hide ViewOf, BookOkBut, AllOwned, SharedOk, Unused;
      assert Denotes(books[m.locate], books[m.locate].Picture(), pool.slots[..], pool.live, View[m.locate]);
      if m.AddOrder? {
        UnusedIfFresh(m.ref);
      } else {
        MineIfFed(m.locate, m.ref);
        if m.OrderReplace? && m.newRef != m.ref {
          UnusedIfFresh(m.newRef);
        }
      }
    }

    // Runs the handler on the book of the message's symbol, which exists.
    method RunHandler(m: Message) returns (ghost next: Held)
      requires Valid() && m.locate in books && |books[m.locate].levels| < MAX_LEVELS && Feedable(View, m)
      modifies books[m.locate], books[m.locate].occupied, pool, pool.slots, refs, refs.slots
      ensures SharedOk(pool, refs)
      ensures OnlyMine(books[m.locate], old(pool.slots[..]), old(pool.live), pool.slots[..], pool.live)
      ensures next == HeldStep(old(Holding()), m, Capacity()) && next.known == refs.Contents.Keys
      ensures next.books.Keys == View.Keys && forall l :: l in View && l != m.locate ==> next.books[l] == View[l]
      ensures m.locate in next.books
      ensures Denotes(books[m.locate], books[m.locate].Picture(), pool.slots[..], pool.live, next.books[m.locate])
      ensures forall l :: l in books && l != m.locate ==>
                books[l].Picture() == old(books[l].Picture()) && books[l].prices == old(books[l].prices)
      ensures var was, now := old(books[m.locate].prices), books[m.locate].prices;
              now == was || (Asks(m) && now == was + [m.price])
    {
      hide *;
      Parts();
      ReadyFor(m);
      SlotIff();
      OthersApart(books, pool, refs, Repr, m.locate);
      HoldingIs();
      NextAt(Holding(), m, Capacity());
      next := HeldStep(Holding(), m, Capacity());
      Dispatch(books[m.locate], m);
      StandsAs(books[m.locate]);
    }

    lemma HoldingIs()
      ensures Holding() == Held(View, refs.Contents.Keys)
      ensures Capacity() == MarketSpec.Capacity(pool.slots.Length, refs.slots.Length)
    {
    }

    // Applies a message to the book of its symbol, which exists.
    method Handle(m: Message)
      requires Valid() && m.locate in books && |books[m.locate].levels| < MAX_LEVELS && Feedable(View, m)
      modifies this`View, books[m.locate], books[m.locate].occupied, pool, pool.slots, refs, refs.slots
      ensures Valid()
      ensures Holding() == HeldStep(old(Holding()), m, Capacity())
      ensures forall l :: l in books && l != m.locate ==>
                books[l].Picture() == old(books[l].Picture()) && books[l].prices == old(books[l].prices)
      ensures var was, now := old(books[m.locate].prices), books[m.locate].prices;
              now == was || (Asks(m) && now == was + [m.price])
    {
      hide *;
      Parts();
      OthersApart(books, pool, refs, Repr, m.locate);
      ghost var s, live := pool.slots[..], pool.live;
      ghost var next := RunHandler(m);
      View := next.books;
      AllStand(m.locate, s, live);
      HoldingIs();
    }

    // After a step of one book, which changed no slot of another, all books stand.
    lemma AllStand(me: uint16, s: seq<PooledOrder>, live: Tags)
      requires this in Repr && Wired(books, pool, refs, Repr) && SharedOk(pool, refs)
      requires me in books && View.Keys == books.Keys
      requires AllOwned(books, live) && OnlyMine(books[me], s, live, pool.slots[..], pool.live)
      requires Denotes(books[me], books[me].Picture(), pool.slots[..], pool.live, View[me])
      requires forall l :: l in books && l != me ==> Denotes(books[l], books[l].Picture(), s, live, View[l])
      ensures Valid()
    {
      hide *;
      OthersApart(books, pool, refs, Repr, me);
      StillOwned(books, me, s, live, pool.slots[..], pool.live);
      forall l | l in books && l != me
        ensures Denotes(books[l], books[l].Picture(), pool.slots[..], pool.live, View[l])
      {
        OtherBook(books[me], books[l], books[l].Picture(), s, live, pool.slots[..], pool.live, View[l]);
      }
      Whole();
    }

    // Takes a message, whatever its fill and whether or not there is room.
    method Process(m: Message, ghost before: seq<Message>)
      requires Valid() && AskedOnly(before) && FIRST_OVERFLOW + 2 * |PricesAsked(before, m.locate)| < MAX_LEVELS
      requires Feedable(View, m)
      modifies Repr
      ensures Valid() && fresh(Repr - old(Repr)) && AskedOnly(before + [m])
      ensures this in Repr
      ensures Holding() == HeldStep(old(Holding()), m, Capacity())
      // Isolation: every other book is as it was, aggregates and caches included.
      ensures forall l :: l in old(books) && l != m.locate ==>
                l in books && books[l] == old(books)[l] && books[l].Picture() == old(books[l].Picture())
      ensures books.Keys == old(books.Keys) + {m.locate}
    {
      hide *;
      Parts();
      HoldingIs();
      if m.locate !in books {
        TouchedIsSame(Holding(), m, Capacity());
      }
      Touch(m.locate, before);
      Parts();
      HoldingIs();
      OthersApart(books, pool, refs, Repr, m.locate);
      RoomForLevel(before, m.locate);
      AskedByBook(before);
      Handle(m);
      AskedByBook(before + [m]);
      forall l | l in books
        ensures forall p :: p in books[l].prices ==> p in PricesAsked(before + [m], l)
      {
        PricesAskedNext(before, m, l);
      }
    }

    method BestBidAsk(locate: uint16) returns (top: Option<(uint32, uint32)>)
      requires Valid() && locate in books
      ensures IsTop(View[locate], top)
    {
      hide *;
      Parts();
      OthersApart(books, pool, refs, Repr, locate);
      StandsWhole(books[locate], View[locate]);
      top := books[locate].BestBidAsk();
    }

    // ---------- Ownership across the whole market ----------

    // Slot x is at position i of level `level` of the book of symbol l.
    ghost predicate Holds(l: uint16, level: int, i: int, x: int)
      reads this, books.Values
    {
      && l in books && 0 <= level < |books[l].lists| && 0 <= i < |books[l].lists[level]|
      && books[l].lists[level][i] == x
    }

    // A slot in a level list is live and tagged with that list's book.
    lemma HeldIsLive(l: uint16, level: int, i: int, x: int)
      requires Valid() && Holds(l, level, i, x)
      ensures x in pool.live && pool.live[x].book == books[l]
    {
      hide SharedOk, AllOwned, ViewOf, Sized, AllLinked, Covers, BitsAgree, BidCached, AskCached, Placed;
      assert Denotes(books[l], books[l].Picture(), pool.slots[..], pool.live, View[l]);
    }

    // The free chain has no repetition, and every slot is either on it or in a
    // level list of some book.
    lemma EverySlotIsFreeOrListed(x: int)
      requires Valid() && 0 <= x < pool.slots.Length
      ensures NoRepeats(pool.free)
      ensures x in pool.free <==> !exists l, level, i :: Holds(l, level, i, x)
    {
      hide ViewOf, BookOkBut, Layout, Denotes;
      if x in pool.live {
        var l :| l in books && books[l] == pool.live[x].book;
        var level, i := ListedBy(l, x);
        assert Holds(l, level, i, x);
      } else {
        forall l, level, i
          ensures !Holds(l, level, i, x)
        {
          if Holds(l, level, i, x) {
            HeldIsLive(l, level, i, x);
          }
        }
      }
    }

    lemma ListedBy(l: uint16, x: int) returns (level: nat, i: nat)
      requires Valid() && l in books && x in pool.live && pool.live[x].book == books[l]
      ensures Holds(l, level, i, x)
    {
      hide SharedOk, AllOwned, ViewOf, BookOkBut;
      assert Denotes(books[l], books[l].Picture(), pool.slots[..], pool.live, View[l]);
      level, i := WhereListed(books[l].Picture(), books[l], pool.slots[..], pool.live, {}, x);
    }

    // No slot is in two places of any level lists.
    lemma ListedOnce(l: uint16, level: int, i: int, n: uint16, other: int, j: int, x: int)
      requires Valid() && Holds(l, level, i, x) && Holds(n, other, j, x)
      ensures l == n && level == other && i == j
    {
      HeldIsLive(l, level, i, x);
      HeldIsLive(n, other, j, x);
      hide SharedOk, AllOwned, ViewOf, Sized, Owns, Covers, BitsAgree, BidCached, AskCached, Placed, Linked;
      assert Denotes(books[l], books[l].Picture(), pool.slots[..], pool.live, View[l]);
      if level != other || i != j {
        ListsAreDisjoint(books[l].Picture(), pool.slots[..], level, i, other, j);
      }
    }

    // The table's values are live slots, each under the one reference it is for.
    lemma TableHoldsLiveSlots()
      requires Valid()
      ensures forall r :: r in refs.Contents ==> refs.Contents[r] in pool.live && pool.live[refs.Contents[r]].ref == r
      ensures forall q, r :: q in refs.Contents && r in refs.Contents && refs.Contents[q] == refs.Contents[r] ==> q == r
      ensures refs.Contents.Keys <= MarketRefs(View) && refs.size == |refs.Contents|
    {
      hide ViewOf, BookOkBut, Layout, Denotes, AllOwned;
      forall r | r in refs.Contents
        ensures r in MarketRefs(View)
      {
        RefsAreLive(r);
      }
    }

    // While every order in the market is known, they are exactly the live slots, and
    // the table's size is the number of live orders.
    lemma FullTableHoldsLiveSlots()
      requires Valid() && refs.Contents.Keys == MarketRefs(View)
      ensures forall x :: x in pool.live <==> exists r :: r in refs.Contents && refs.Contents[r] == x
      ensures refs.size == |MarketRefs(View)|
    {
      hide ViewOf, BookOkBut, Layout, Denotes, AllOwned;
      forall x | x in pool.live
        ensures exists r :: r in refs.Contents && refs.Contents[r] == x
      {
        var r := pool.live[x].ref;
        RefsAreLive(r);
        assert pool.live[refs.Contents[r]].ref == r;
      }
    }

    // No reference is live in two places.
    lemma ViewIsOk()
      requires Valid()
      ensures MarketOk(View)
    {
      hide ViewOf, BookOkBut, AllOwned, FreeChain, Partition, Layout, TableAgrees, WellFormed, LiveRefs;
      forall l | l in View
        ensures WellFormed(View[l])
      {
        assert Denotes(books[l], books[l].Picture(), pool.slots[..], pool.live, View[l]);
        ViewIsWellFormed(books[l].Picture(), books[l], pool.slots[..], pool.live, {});
      }
      forall l, n | l in View && n in View && l != n
        ensures LiveRefs(View[l]) !! LiveRefs(View[n])
      {
        forall r | r in LiveRefs(View[l])
          ensures r !in LiveRefs(View[n])
        {
          RefsOfBook(l, r);
          RefsOfBook(n, r);
        }
      }
    }

    // Counts and totals kept at a level are those of its list.
    lemma LevelAggregates(l: uint16, level: nat)
      requires Valid() && l in books && level < |books[l].lists|
      ensures level < |books[l].levels| && InRange(pool.slots[..], books[l].lists[level])
      ensures books[l].levels[level].orderCount == |books[l].lists[level]|
      ensures books[l].levels[level].totalQty == Wrap32(Shares(pool.slots[..], books[l].lists[level]))
    {
      hide SharedOk, AllOwned, ViewOf, Sized, Owns, Covers, BitsAgree, BidCached, AskCached, Placed,
        Shares, Chained, Wrap32;
      assert Denotes(books[l], books[l].Picture(), pool.slots[..], pool.live, View[l]);
      assert Linked(pool.slots[..], books[l].levels[level], level, books[l].lists[level]);
      ListsAreShort(pool.slots[..], books[l].lists[level]);
    }
  }
}
