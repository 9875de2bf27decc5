/** The book that an image denotes, and what each step does to it. */
module BookImageView {
  import opened Numbers
  import opened BookSpec
  import opened OrderPools
  import opened LevelAddressing
  import opened LevelLists
  import opened Bitmap
  import opened BookImage

  // No two live slots carry the same reference.
  ghost predicate RefsDiffer(live: Tags) {
    forall x, y :: x in live && y in live && live[x].ref == live[y].ref ==> x == y
  }

  ghost function OrderAt(s: seq<PooledOrder>, live: Tags, x: int): Order {
    if x in live && 0 <= x < |s| then Order(live[x].ref, s[x].qty) else Order(0, 0)
  }

  ghost function OrdersOf(s: seq<PooledOrder>, live: Tags, q: seq<int>): (r: seq<Order>)
    ensures |r| == |q|
    ensures forall i :: 0 <= i < |q| ==> r[i] == OrderAt(s, live, q[i])
  {
    seq(|q|, i requires 0 <= i < |q| => OrderAt(s, live, q[i]))
  }

  // The queue at a side and price: the orders of its level, if it has one.
  ghost function QueueAt(g: Image, s: seq<PooledOrder>, live: Tags, k: Key): seq<Order> {
    match LevelOf(g.addr, k)
    case None => []
    case Some(l) => if l < |g.lists| then OrdersOf(s, live, g.lists[l]) else []
  }

  ghost function ActiveKeys(g: Image): set<Key>
    requires Sized(g)
  {
    set l | 0 <= l < |g.lists| && g.lists[l] != [] :: KeyOf(g.addr, l)
  }

  ghost function ViewOf(g: Image, s: seq<PooledOrder>, live: Tags): Book
    requires Sized(g)
  {
    map k | k in ActiveKeys(g) :: QueueAt(g, s, live, k)
  }

  lemma ActiveLevel(g: Image, l: nat)
    requires Sized(g) && Placed(g) && l < |g.lists| && g.lists[l] != []
    ensures KeyOf(g.addr, l) in ActiveKeys(g) && LevelOf(g.addr, KeyOf(g.addr, l)) == Some(l)
  {
    hide KeyOf, LevelOf, AddressOk;
    assert KeyOf(g.addr, l) in ActiveKeys(g);
  }

  lemma QueueOfView(g: Image, s: seq<PooledOrder>, live: Tags, k: Key)
    requires Sized(g) && Placed(g)
    ensures Queue(ViewOf(g, s, live), k) == QueueAt(g, s, live, k)
    ensures k in ViewOf(g, s, live) ==> ViewOf(g, s, live)[k] == QueueAt(g, s, live, k) != []
  {
    hide KeyOf, LevelOf, AddressOk;
    if k in ActiveKeys(g) {
      var l :| 0 <= l < |g.lists| && g.lists[l] != [] && KeyOf(g.addr, l) == k;
      ActiveLevel(g, l);
    } else if LevelOf(g.addr, k).Some? {
      KeyOfLevelOf(g.addr, k);
      assert g.lists[LevelOf(g.addr, k).value] == [];
    }
  }

  lemma ViewHasNoEmptyQueues(g: Image, s: seq<PooledOrder>, live: Tags)
    requires Sized(g) && Placed(g)
    ensures NoEmptyQueues(ViewOf(g, s, live))
  {
    forall k | k in ViewOf(g, s, live)
      ensures ViewOf(g, s, live)[k] != []
    {
      QueueOfView(g, s, live, k);
    }
  }

  // An image denotes a book when its queues are those of the book.
  lemma ViewIs(g: Image, s: seq<PooledOrder>, live: Tags, b: Book)
    requires Sized(g) && Placed(g) && NoEmptyQueues(b)
    requires forall k :: QueueAt(g, s, live, k) == Queue(b, k)
    ensures ViewOf(g, s, live) == b
  {
    ViewHasNoEmptyQueues(g, s, live);
    forall k
      ensures Queue(ViewOf(g, s, live), k) == Queue(b, k)
    {
      QueueOfView(g, s, live, k);
    }
    hide ViewOf, QueueAt, NoEmptyQueues;
    SameQueues(ViewOf(g, s, live), b);
  }

  lemma SameView(g: Image, s: seq<PooledOrder>, live: Tags, h: Image, t: seq<PooledOrder>, live': Tags)
    requires Sized(g) && Placed(g) && Sized(h) && Placed(h)
    requires forall k :: QueueAt(h, t, live', k) == QueueAt(g, s, live, k)
    ensures ViewOf(h, t, live') == ViewOf(g, s, live)
  {
    ViewHasNoEmptyQueues(g, s, live);
    forall k
      ensures QueueAt(h, t, live', k) == Queue(ViewOf(g, s, live), k)
    {
      QueueOfView(g, s, live, k);
    }
    hide ViewOf, QueueAt, NoEmptyQueues;
    ViewIs(h, t, live', ViewOf(g, s, live));
  }

  // Queues depend only on the slots they list.
  lemma SameOrders(s: seq<PooledOrder>, live: Tags, t: seq<PooledOrder>, live': Tags, q: seq<int>)
    requires forall i :: 0 <= i < |q| ==> OrderAt(t, live', q[i]) == OrderAt(s, live, q[i])
    ensures OrdersOf(t, live', q) == OrdersOf(s, live, q)
  {
  }

  lemma SameSlotsSameView(g: Image, s: seq<PooledOrder>, live: Tags, t: seq<PooledOrder>, live': Tags)
    requires Sized(g) && Placed(g)
    requires forall l, i :: 0 <= l < |g.lists| && 0 <= i < |g.lists[l]| ==>
      OrderAt(t, live', g.lists[l][i]) == OrderAt(s, live, g.lists[l][i])
    ensures ViewOf(g, t, live') == ViewOf(g, s, live)
  {
    hide OrderAt, OrdersOf, LevelOf, Placed, Sized;
    forall k
      ensures QueueAt(g, t, live', k) == QueueAt(g, s, live, k)
    {
      if LevelOf(g.addr, k).Some? && LevelOf(g.addr, k).value < |g.lists| {
        SameOrders(s, live, t, live', g.lists[LevelOf(g.addr, k).value]);
      }
    }
    SameView(g, s, live, g, t, live');
  }

  lemma ViewIsWellFormed(g: Image, me: object, s: seq<PooledOrder>, live: Tags, skip: set<int>)
    requires BookOkBut(g, me, s, live, skip) && RefsDiffer(live)
    ensures WellFormed(ViewOf(g, s, live))
  {
    hide AddressOk, LevelOf, KeyOf, BitsAgree, BidCached, AskCached, Covers, Linked, Sized;
    ViewHasNoEmptyQueues(g, s, live);
    var b: Book := ViewOf(g, s, live);
    forall k, i, m, j | k in b && m in b && 0 <= i < |b[k]| && 0 <= j < |b[m]| && b[k][i].ref == b[m][j].ref
      ensures k == m && i == j
    {
      var l := KeyLevel(g, s, live, k);
      var n := KeyLevel(g, s, live, m);
      ListedOrder(g, me, s, live, l, i);
      ListedOrder(g, me, s, live, n, j);
      if l != n || i != j {
        ListsAreDisjoint(g, s, l, i, n, j);
      }
      assert l == n;
    }
  }

  // The level behind a queue of the view.
  lemma KeyLevel(g: Image, s: seq<PooledOrder>, live: Tags, k: Key) returns (l: nat)
    requires Sized(g) && Placed(g) && k in ViewOf(g, s, live)
    ensures l < |g.lists| && KeyOf(g.addr, l) == k && LevelOf(g.addr, k) == Some(l)
    ensures ViewOf(g, s, live)[k] == OrdersOf(s, live, g.lists[l])
  {
    hide KeyOf, LevelOf, AddressOk;
    l :| 0 <= l < |g.lists| && g.lists[l] != [] && KeyOf(g.addr, l) == k;
    ActiveLevel(g, l);
    QueueOfView(g, s, live, k);
  }

  lemma ListedOrder(g: Image, me: object, s: seq<PooledOrder>, live: Tags, l: nat, i: nat)
    requires AllLinked(g, s) && Owns(g, me, live) && l < |g.lists| && i < |g.lists[l]|
    ensures var x := g.lists[l][i];
            x in live && 0 <= x < |s| && OrderAt(s, live, x) == Order(live[x].ref, s[x].qty)
  {
    assert Linked(s, g.levels[l], l, g.lists[l]);
    LinkedInRange(s, g.levels[l], l, g.lists[l]);
  }

  // ---------- Steps ----------

  lemma WidenedView(g: Image, price: uint32, side: char, s: seq<PooledOrder>, live: Tags)
    requires Sized(g) && Placed(g) && |g.levels| < MAX_LEVELS
    ensures Sized(Widened(g, price, side))
    ensures ViewOf(Widened(g, price, side), s, live) == ViewOf(g, s, live)
  {
    var h := Widened(g, price, side);
    AssignKeeps(g.addr, price, side);
    WidenedSized(g, price, side);
    WidenedLists(g, price, side);
    forall k
      ensures QueueAt(h, s, live, k) == QueueAt(g, s, live, k)
    {
      WidenedQueue(g, price, side, s, live, k);
    }
    hide Sized, Placed, ViewOf, QueueAt, Widened, Assign;
    SameView(g, s, live, h, s, live);
  }

  lemma WidenedQueue(g: Image, price: uint32, side: char, s: seq<PooledOrder>, live: Tags, k: Key)
    requires Sized(g) && Placed(g) && |g.levels| < MAX_LEVELS
    ensures QueueAt(Widened(g, price, side), s, live, k) == QueueAt(g, s, live, k)
  {
    hide Assign, KeyOf, LevelOf, AddressOk, Widened, Placed;
    WidenedAddress(g, price, side);
    WidenedSized(g, price, side);
    WidenedLists(g, price, side);
    WidenedLevelOf(g, price, side, k);
  }

  // A level that is new to a key has not held orders under another key.
  lemma WidenedLevelOf(g: Image, price: uint32, side: char, k: Key)
    requires Sized(g) && Placed(g) && |g.levels| < MAX_LEVELS
    ensures var b := Assign(g.addr, price, side);
            && (LevelOf(g.addr, k).Some? ==>
                  LevelOf(b, k) == LevelOf(g.addr, k) && LevelOf(g.addr, k).value < |g.lists|)
            && (LevelOf(g.addr, k).None? && LevelOf(b, k).Some? && LevelOf(b, k).value < |g.lists|
                ==> g.lists[LevelOf(b, k).value] == [])
  {
    hide Assign, KeyOf, LevelOf, AddressOk;
    AssignKeeps(g.addr, price, side);
    var b := Assign(g.addr, price, side);
    if LevelOf(g.addr, k).Some? {
      KeyOfLevelOf(g.addr, k);
    } else if LevelOf(b, k).Some? {
      KeyOfLevelOf(b, k);
    }
  }

  lemma WidenedAddress(g: Image, price: uint32, side: char)
    requires FIRST_OVERFLOW + |g.addr.sides| < MAX_LEVELS
    ensures Widened(g, price, side).addr == Assign(g.addr, price, side)
  {
  }

  // Linking an order at a key's level joins it to the key's queue.
  lemma LinkedView(g: Image, k: Key, idx: uint32, qty: uint32, me: object, s: seq<PooledOrder>, live: Tags)
    requires BookOkBut(g, me, s, live, {idx as int}) && idx < |s| && idx in live && live[idx].book == me
    requires LevelOf(g.addr, k).Some?
    ensures var l := LevelOf(g.addr, k).value;
            && l < |g.lists| && (g.levels[l].tail == NULL_IDX || g.levels[l].tail < |s|)
            && BookOk(LinkedImage(g, l, idx, qty), me, LinkSlots(s, g.levels[l], l, idx, qty), live)
            && ViewOf(LinkedImage(g, l, idx, qty), LinkSlots(s, g.levels[l], l, idx, qty), live)
               == Join(ViewOf(g, s, live), live[idx].ref, k, qty)
  {
    KeyOfLevelOf(g.addr, k);
    var l := LevelOf(g.addr, k).value;
    LinkedOk(g, l, idx, qty, me, s, live);
    var h, t := LinkedImage(g, l, idx, qty), LinkSlots(s, g.levels[l], l, idx, qty);
    var b := Join(ViewOf(g, s, live), live[idx].ref, k, qty);
    hide BookOkBut, LinkedImage, LinkSlots, LevelOf;
    forall m
      ensures QueueAt(h, t, live, m) == Queue(b, m)
    {
      LinkedQueue(g, k, idx, qty, me, s, live, m);
    }
    JoinedHasNoEmptyQueues(g, s, live, live[idx].ref, k, qty);
    ViewIs(h, t, live, b);
  }

  lemma JoinedHasNoEmptyQueues(g: Image, s: seq<PooledOrder>, live: Tags, ref: uint64, k: Key, qty: uint32)
    requires Sized(g) && Placed(g)
    ensures NoEmptyQueues(Join(ViewOf(g, s, live), ref, k, qty))
  {
    ViewHasNoEmptyQueues(g, s, live);
    hide ViewOf;
  }

  lemma LinkedQueue(g: Image, k: Key, idx: uint32, qty: uint32, me: object, s: seq<PooledOrder>, live: Tags, m: Key)
    requires BookOkBut(g, me, s, live, {idx as int}) && idx < |s| && idx in live && live[idx].book == me
    requires LevelOf(g.addr, k).Some?
    ensures var l := LevelOf(g.addr, k).value;
            && l < |g.lists| && (g.levels[l].tail == NULL_IDX || g.levels[l].tail < |s|)
            && QueueAt(LinkedImage(g, l, idx, qty), LinkSlots(s, g.levels[l], l, idx, qty), live, m)
               == Queue(Join(ViewOf(g, s, live), live[idx].ref, k, qty), m)
  {
    KeyOfLevelOf(g.addr, k);
    hide AddressOk, KeyOf, LevelOf, BitsAgree, BidCached, AskCached, Covers, Owns, LinkSlots, ViewOf, Wrap32, Shares,
      Chained, NoRepeats;
    assert Linked(s, g.levels[LevelOf(g.addr, k).value], LevelOf(g.addr, k).value, g.lists[LevelOf(g.addr, k).value]);
    LinkedQueueAt(g, k, idx, qty, s, live, m);
    QueueOfView(g, s, live, k);
    QueueOfView(g, s, live, m);
  }

  lemma LinkedQueueAt(g: Image, k: Key, idx: uint32, qty: uint32, s: seq<PooledOrder>, live: Tags, m: Key)
    requires Sized(g) && Unlisted(g, {idx as int}) && idx < |s| && idx in live
    requires LevelOf(g.addr, k).Some? && LevelOf(g.addr, k).value < |g.lists|
    requires var l := LevelOf(g.addr, k).value; g.levels[l].tail == NULL_IDX || g.levels[l].tail < |s|
    ensures var l := LevelOf(g.addr, k).value;
            QueueAt(LinkedImage(g, l, idx, qty), LinkSlots(s, g.levels[l], l, idx, qty), live, m)
            == if m == k then QueueAt(g, s, live, k) + [Order(live[idx].ref, qty)] else QueueAt(g, s, live, m)
  {
    hide KeyOf, AddressOk, LinkSlots, LinkLevel, SetAt, LevelOf, OrderAt;
    var l := LevelOf(g.addr, k).value;
    if LevelOf(g.addr, m).Some? && LevelOf(g.addr, m).value < |g.lists| {
      var n := LevelOf(g.addr, m).value;
      assert idx as int !in g.lists[n];
      LinkKeepsOrders(s, g.levels[l], l, idx, qty, live, g.lists[n]);
      if n == l {
        LevelsAreInjective(g.addr, k, m);
        LinkedOrderIs(s, g.levels[l], l, idx, qty, live);
      }
    }
  }

  lemma LinkedOrderIs(s: seq<PooledOrder>, lvl: PriceLevel, l: uint32, idx: uint32, qty: uint32, live: Tags)
    requires idx < |s| && (lvl.tail == NULL_IDX || lvl.tail < |s|) && idx in live
    ensures OrderAt(LinkSlots(s, lvl, l, idx, qty), live, idx) == Order(live[idx].ref, qty)
  {
  }

  lemma LinkKeepsOrders(s: seq<PooledOrder>, lvl: PriceLevel, l: uint32, idx: uint32, qty: uint32, live: Tags,
                        q: seq<int>)
    requires idx < |s| && (lvl.tail == NULL_IDX || lvl.tail < |s|) && idx as int !in q
    ensures OrdersOf(LinkSlots(s, lvl, l, idx, qty), live, q) == OrdersOf(s, live, q)
  {
    var t := LinkSlots(s, lvl, l, idx, qty);
    forall i | 0 <= i < |q|
      ensures OrderAt(t, live, q[i]) == OrderAt(s, live, q[i])
    {
      assert q[i] in q;
    }
  }

  // What an effect on the order at position i of level l leaves of its queue.
  ghost function Affected(g: Image, s: seq<PooledOrder>, live: Tags, l: nat, i: nat, e: Effect): seq<Order>
    requires l < |g.lists| && i < |g.lists[l]|
  {
    var q := OrdersOf(s, live, g.lists[l]);
    q[..i] + After(e, q[i]) + q[i + 1..]
  }

  // An image whose queues differ from g's by an effect at one order denotes
  // the book in which that order's reference is swept.
  lemma SweptView(g: Image, me: object, s: seq<PooledOrder>, live: Tags, l: nat, i: nat, e: Effect,
                  h: Image, t: seq<PooledOrder>, live': Tags)
    requires BookOk(g, me, s, live) && RefsDiffer(live) && l < |g.lists| && i < |g.lists[l]|
    requires Sized(h) && Placed(h)
    requires g.lists[l][i] in live
    requires forall m :: QueueAt(h, t, live', m) ==
                         if m == KeyOf(g.addr, l) then Affected(g, s, live, l, i, e) else QueueAt(g, s, live, m)
    ensures ViewOf(h, t, live') == SweepBook(ViewOf(g, s, live), live[g.lists[l][i]].ref, e)
  {
    var k, ref := KeyOf(g.addr, l), live[g.lists[l][i]].ref;
    ViewIsWellFormed(g, me, s, live, {});
    ActiveLevel(g, l);
    QueueOfView(g, s, live, k);
    ListedOrder(g, me, s, live, l, i);
    SweptQueues(g, s, live, l, i, e, ref);
    SweptHasNoEmptyQueues(ViewOf(g, s, live), ref, e);
    hide KeyOf, ViewOf, SweepBook, Affected, QueueAt, BookOkBut, Placed, Sized;
    forall m
      ensures QueueAt(h, t, live', m) == Queue(SweepBook(ViewOf(g, s, live), ref, e), m)
    {
    }
    ViewIs(h, t, live', SweepBook(ViewOf(g, s, live), ref, e));
  }

  lemma SweptQueues(g: Image, s: seq<PooledOrder>, live: Tags, l: nat, i: nat, e: Effect, ref: uint64)
    requires Sized(g) && Placed(g) && l < |g.lists| && i < |g.lists[l]| && WellFormed(ViewOf(g, s, live))
    requires OrderAt(s, live, g.lists[l][i]).ref == ref
    ensures forall m :: Queue(SweepBook(ViewOf(g, s, live), ref, e), m) ==
                        if m == KeyOf(g.addr, l) then Affected(g, s, live, l, i, e) else QueueAt(g, s, live, m)
  {
    var k := KeyOf(g.addr, l);
    var b: Book := ViewOf(g, s, live);
    ActiveLevel(g, l);
    QueueOfView(g, s, live, k);
    assert k in b && b[k] == OrdersOf(s, live, g.lists[l]);
    hide KeyOf, ViewOf, SweepBook, WellFormed, Placed, Sized;
    SweepBookAt(b, ref, e, k, i);
    forall m
      ensures Queue(SweepBook(b, ref, e), m) == if m == k then Affected(g, s, live, l, i, e) else QueueAt(g, s, live, m)
    {
      QueueOfView(g, s, live, m);
    }
  }

  // The level of a key is level l exactly when the key is the one l stands for.
  lemma LevelOfKey(g: Image, l: nat, m: Key)
    requires Sized(g) && Placed(g) && l < |g.lists| && g.lists[l] != []
    ensures LevelOf(g.addr, m) == Some(l) <==> m == KeyOf(g.addr, l)
  {
    hide KeyOf, LevelOf, AddressOk;
    if LevelOf(g.addr, m) == Some(l) {
      KeyOfLevelOf(g.addr, m);
    }
  }

  lemma UnlinkKeepsOrders(s: seq<PooledOrder>, idx: uint32, live: Tags, q: seq<int>)
    requires UnlinkableAt(s, idx)
    ensures OrdersOf(UnlinkSlots(s, idx), live, q) == OrdersOf(s, live, q)
  {
    forall i | 0 <= i < |q|
      ensures OrderAt(UnlinkSlots(s, idx), live, q[i]) == OrderAt(s, live, q[i])
    {
      if 0 <= q[i] < |s| {
        UnlinkKeepsFields(s, idx, q[i]);
      }
    }
  }

  lemma OrdersWithout(s: seq<PooledOrder>, live: Tags, q: seq<int>, i: nat)
    requires i < |q|
    ensures OrdersOf(s, live, Without(q, i)) == OrdersOf(s, live, q)[..i] + OrdersOf(s, live, q)[i + 1..]
  {
  }

  // Unlinking an order sweeps its reference from the book.
  lemma UnlinkedView(g: Image, l: nat, i: nat, e: Effect, me: object, s: seq<PooledOrder>, live: Tags, h: Image)
    requires BookOk(g, me, s, live) && RefsDiffer(live) && l < |g.lists| && i < |g.lists[l]|
    requires g.lists[l][i] in live && 0 <= g.lists[l][i] < |s| && IsUnlinkedImage(g, l, i, s, h)
    requires After(e, OrderAt(s, live, g.lists[l][i])) == []
    ensures UnlinkableAt(s, g.lists[l][i]) && Sized(h)
    ensures ViewOf(h, UnlinkSlots(s, g.lists[l][i]), live) == SweepBook(ViewOf(g, s, live), live[g.lists[l][i]].ref, e)
  {
    UnlinkedOk(g, l, i, me, s, live, h);
    hide KeyOf, LevelOf, AllLinked, Owns, Covers, BitsAgree, BidCached, AskCached, AddressOk, Unlisted, UnlinkSlots,
      ViewOf, SweepBook, After, OrderAt;
    var t := UnlinkSlots(s, g.lists[l][i]);
    forall m
      ensures QueueAt(h, t, live, m)
              == if m == KeyOf(g.addr, l) then Affected(g, s, live, l, i, e) else QueueAt(g, s, live, m)
    {
      LevelOfKey(g, l, m);
      UnlinkedQueue(g, l, i, s, live, h, m, e);
    }
    SweptView(g, me, s, live, l, i, e, h, t, live);
  }

  lemma UnlinkedQueue(g: Image, l: nat, i: nat, s: seq<PooledOrder>, live: Tags, h: Image, m: Key, e: Effect)
    requires Sized(g) && l < |g.lists| && i < |g.lists[l]|
    requires UnlinkableAt(s, g.lists[l][i]) && IsUnlinkedImage(g, l, i, s, h) && |s| <= NULL_IDX
    requires After(e, OrderAt(s, live, g.lists[l][i])) == []
    ensures QueueAt(h, UnlinkSlots(s, g.lists[l][i]), live, m)
            == if LevelOf(g.addr, m) == Some(l) then Affected(g, s, live, l, i, e) else QueueAt(g, s, live, m)
  {
    hide KeyOf, LevelOf, AddressOk, UnlinkSlots, OrderAt, After, Without, ClearAt;
    if LevelOf(g.addr, m).Some? && LevelOf(g.addr, m).value < |g.lists| {
      var n := LevelOf(g.addr, m).value;
      UnlinkKeepsOrders(s, g.lists[l][i], live, h.lists[n]);
      if n == l {
        OrdersWithout(s, live, g.lists[l], i);
      }
    }
  }

  // Releasing an unlisted slot changes nothing a book denotes.
  lemma ReleasedView(g: Image, s: seq<PooledOrder>, t: seq<PooledOrder>, live: Tags, x: int)
    requires Sized(g) && Placed(g) && Unlisted(g, {x}) && |t| == |s|
    requires forall y :: 0 <= y < |s| && y != x ==> t[y] == s[y]
    ensures ViewOf(g, t, live - {x}) == ViewOf(g, s, live)
  {
    hide ViewOf, Sized, Placed;
    forall l, i | 0 <= l < |g.lists| && 0 <= i < |g.lists[l]|
      ensures OrderAt(t, live - {x}, g.lists[l][i]) == OrderAt(s, live, g.lists[l][i])
    {
      assert g.lists[l][i] in g.lists[l];
    }
    SameSlotsSameView(g, s, live, t, live - {x});
  }

  lemma AllocatedView(g: Image, s: seq<PooledOrder>, live: Tags, x: int, tag: Tag)
    requires Sized(g) && Placed(g) && Unlisted(g, {x})
    ensures ViewOf(g, s, live[x := tag]) == ViewOf(g, s, live)
  {
    hide ViewOf, Sized, Placed;
    forall l, i | 0 <= l < |g.lists| && 0 <= i < |g.lists[l]|
      ensures OrderAt(s, live[x := tag], g.lists[l][i]) == OrderAt(s, live, g.lists[l][i])
    {
      assert g.lists[l][i] in g.lists[l];
    }
    SameSlotsSameView(g, s, live, s, live[x := tag]);
  }

  lemma UntouchedView(g: Image, me: object, s: seq<PooledOrder>, live: Tags, t: seq<PooledOrder>, live': Tags)
    requires BookOk(g, me, s, live) && Untouched(me, s, live, t, live')
    ensures ViewOf(g, t, live') == ViewOf(g, s, live)
  {
    hide ViewOf, AllLinked, Covers, BitsAgree, BidCached, AskCached, Placed, Sized;
    forall l, i | 0 <= l < |g.lists| && 0 <= i < |g.lists[l]|
      ensures OrderAt(t, live', g.lists[l][i]) == OrderAt(s, live, g.lists[l][i])
    {
      assert g.lists[l][i] in live && live[g.lists[l][i]].book == me;
    }
    SameSlotsSameView(g, s, live, t, live');
  }

  // A partial fill is the sweep that takes the shares.
  lemma ReducedView(g: Image, l: nat, i: nat, n: uint32, me: object, s: seq<PooledOrder>, live: Tags)
    requires BookOk(g, me, s, live) && RefsDiffer(live) && l < |g.lists| && i < |g.lists[l]|
    requires g.lists[l][i] in live && 0 <= g.lists[l][i] < |s| && n < s[g.lists[l][i]].qty
    ensures Sized(ReducedImage(g, l, n))
    ensures var x := g.lists[l][i];
            ViewOf(ReducedImage(g, l, n), s[x := s[x].(qty := s[x].qty - n)], live)
            == SweepBook(ViewOf(g, s, live), live[x].ref, Take(n))
  {
    hide KeyOf, LevelOf, AllLinked, Owns, Covers, Unlisted, BitsAgree, BidCached, AskCached, AddressOk, ViewOf,
      SweepBook, ReducedImage, Affected, QueueAt;
    var x := g.lists[l][i];
    var t := s[x := s[x].(qty := s[x].qty - n)];
    ReducedRest(g, l, n);
    forall m
      ensures QueueAt(ReducedImage(g, l, n), t, live, m)
              == if m == KeyOf(g.addr, l) then Affected(g, s, live, l, i, Take(n)) else QueueAt(g, s, live, m)
    {
      LevelOfKey(g, l, m);
      ReducedQueue(g, l, i, n, s, live, m);
    }
    SweptView(g, me, s, live, l, i, Take(n), ReducedImage(g, l, n), t, live);
  }

  lemma ReducedQueue(g: Image, l: nat, i: nat, n: uint32, s: seq<PooledOrder>, live: Tags, m: Key)
    requires Sized(g) && AllLinked(g, s) && l < |g.lists| && i < |g.lists[l]|
    requires g.lists[l][i] in live && 0 <= g.lists[l][i] < |s| && n < s[g.lists[l][i]].qty
    ensures var x := g.lists[l][i];
            QueueAt(ReducedImage(g, l, n), s[x := s[x].(qty := s[x].qty - n)], live, m)
            == if LevelOf(g.addr, m) == Some(l) then Affected(g, s, live, l, i, Take(n)) else QueueAt(g, s, live, m)
  {
    hide KeyOf, LevelOf, AddressOk, AllLinked;
    if LevelOf(g.addr, m).Some? && LevelOf(g.addr, m).value < |g.lists| {
      ReducedOrders(g, l, i, n, s, live, LevelOf(g.addr, m).value);
    }
  }

  lemma ReducedOrders(g: Image, l: nat, i: nat, n: uint32, s: seq<PooledOrder>, live: Tags, p: nat)
    requires AllLinked(g, s) && l < |g.lists| && i < |g.lists[l]| && p < |g.lists|
    requires g.lists[l][i] in live && 0 <= g.lists[l][i] < |s| && n < s[g.lists[l][i]].qty
    ensures var x := g.lists[l][i];
            OrdersOf(s[x := s[x].(qty := s[x].qty - n)], live, g.lists[p])
            == if p == l then Affected(g, s, live, l, i, Take(n)) else OrdersOf(s, live, g.lists[p])
  {
    hide AllLinked;
    var x := g.lists[l][i];
    var t := s[x := s[x].(qty := s[x].qty - n)];
    forall j | 0 <= j < |g.lists[p]| && (p != l || j != i)
      ensures OrderAt(t, live, g.lists[p][j]) == OrderAt(s, live, g.lists[p][j])
    {
      ListsAreDisjoint(g, s, l, i, p, j);
    }
  }

  // The references in the book are those of the live slots tagged with it.
  lemma ViewRefs(g: Image, me: object, s: seq<PooledOrder>, live: Tags, ref: uint64)
    requires BookOk(g, me, s, live)
    ensures Live(ViewOf(g, s, live), ref) <==> exists x :: x in live && live[x].book == me && live[x].ref == ref
  {
    hide KeyOf, LevelOf, AddressOk, BitsAgree, BidCached, AskCached, Linked;
    var b: Book := ViewOf(g, s, live);
    if Live(b, ref) {
      var k, i := Locate(b, ref);
      var l := KeyLevel(g, s, live, k);
      ListedOrder(g, me, s, live, l, i);
    }
    if x :| x in live && live[x].book == me && live[x].ref == ref {
      var l, i := WhereListed(g, me, s, live, {}, x);
      ActiveLevel(g, l);
      QueueOfView(g, s, live, KeyOf(g.addr, l));
      ListedOrder(g, me, s, live, l, i);
      assert b[KeyOf(g.addr, l)][i].ref == ref;
      assert Has(b[KeyOf(g.addr, l)], ref);
    }
  }
}
