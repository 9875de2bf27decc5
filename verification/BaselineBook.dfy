/** The v1 order book: ordered maps of price levels, a list of orders at each
    level, and an index from order reference to its place. */
module BaselineBook {
  import opened Numbers
  import opened BookSpec
  import opened SortedKeys

  datatype RestingOrder = RestingOrder(ref: uint64, side: char, price: uint32, shares: uint32)

  // A list node: iterators keep denoting their node while others come and go.
  datatype Node = Node(id: nat, order: RestingOrder)

  type Level = seq<Node>

  datatype OrderLocator = OrderLocator(side: char, price: uint32, node: nat)

  ghost predicate HasNode(level: Level, node: nat) {
    exists i :: 0 <= i < |level| && level[i].id == node
  }

  // Dereferencing an iterator: the position of its node in the list.
  function Position(level: Level, node: nat): (i: nat)
    requires HasNode(level, node)
    ensures i < |level| && level[i].id == node
  {
    if level[0].id == node then 0
    else
      assert HasNode(level[1..], node) by {
        var i :| 0 <= i < |level| && level[i].id == node;
        assert level[1..][i - 1].id == node;
      }
      1 + Position(level[1..], node)
  }

  ghost function Orders(level: Level): (q: seq<Order>)
    ensures |q| == |level|
    ensures forall i :: 0 <= i < |level| ==> q[i] == Order(level[i].order.ref, level[i].order.shares)
  {
    seq(|level|, i requires 0 <= i < |level| => Order(level[i].order.ref, level[i].order.shares))
  }

  ghost function KeyAt(side: char, price: uint32): Key {
    Key(side == 'B', price)
  }

  // ---------- All levels of both sides as one map ----------

  type Levels = map<Key, Level>

  ghost function Both(bids: map<uint32, Level>, asks: map<uint32, Level>): (lv: Levels)
    ensures forall k :: k in lv <==> if k.bid then k.price in bids else k.price in asks
    ensures forall k :: k in lv ==> lv[k] == if k.bid then bids[k.price] else asks[k.price]
  {
    var b := map p | p in bids :: Key(true, p) := bids[p];
    var a := map p | p in asks :: Key(false, p) := asks[p];
    assert forall k: Key :: k == Key(k.bid, k.price);
    b + a
  }

  ghost function Denote(lv: Levels): Book {
    map k | k in lv :: Orders(lv[k])
  }

  ghost function LevelAt(lv: Levels, k: Key): Level {
    if k in lv then lv[k] else []
  }

  ghost function WithLevel(lv: Levels, k: Key, level: Level): Levels {
    if level == [] then lv - {k} else lv[k := level]
  }

  ghost predicate DistinctNodes(level: Level) {
    forall i, j :: 0 <= i < j < |level| ==> level[i].id != level[j].id
  }

  // The index leads from this node's reference back to the node.
  ghost predicate Placed(n: Node, k: Key, index: map<uint64, OrderLocator>, next: nat) {
    && n.id < next
    && k == KeyAt(n.order.side, n.order.price)
    && n.order.ref in index
    && index[n.order.ref] == OrderLocator(n.order.side, n.order.price, n.id)
  }

  ghost predicate Found(lv: Levels, loc: OrderLocator, ref: uint64) {
    var k := KeyAt(loc.side, loc.price);
    k in lv && exists i :: 0 <= i < |lv[k]| && lv[k][i].id == loc.node && lv[k][i].order.ref == ref
  }

  ghost predicate Indexed(lv: Levels, index: map<uint64, OrderLocator>, next: nat) {
    && (forall k :: k in lv ==> lv[k] != [] && DistinctNodes(lv[k]))
    && (forall k, i :: k in lv && 0 <= i < |lv[k]| ==> Placed(lv[k][i], k, index, next))
    && (forall ref :: ref in index ==> Found(lv, index[ref], ref))
  }

  lemma IndexedIsWellFormed(lv: Levels, index: map<uint64, OrderLocator>, next: nat)
    requires Indexed(lv, index, next)
    ensures WellFormed(Denote(lv))
    ensures forall ref :: Live(Denote(lv), ref) <==> ref in index
  {
    var b: Book := Denote(lv);
    forall k, i, l, j | k in b && l in b && 0 <= i < |b[k]| && 0 <= j < |b[l]| && b[k][i].ref == b[l][j].ref
      ensures k == l && i == j
    {
      assert Placed(lv[k][i], k, index, next) && Placed(lv[l][j], l, index, next);
      assert DistinctNodes(lv[k]);
    }
    forall ref
      ensures Live(b, ref) <==> ref in index
    {
      if Live(b, ref) {
        var k, i := Locate(b, ref);
        assert Placed(lv[k][i], k, index, next);
      }
      if ref in index {
        var k := KeyAt(index[ref].side, index[ref].price);
        assert Found(lv, index[ref], ref);
        var i :| 0 <= i < |lv[k]| && lv[k][i].order.ref == ref;
        assert b[k][i].ref == ref;
        assert Has(b[k], ref);
      }
    }
  }

  // ---------- Changing one place of one level ----------

  ghost function Splice(level: Level, i: nat, rest: seq<Node>): Level
    requires i < |level|
  {
    level[..i] + rest + level[i + 1..]
  }

  // The same node, possibly with other shares.
  ghost predicate SameNode(a: Node, b: Node) {
    a.id == b.id && a.order.ref == b.order.ref && a.order.side == b.order.side && a.order.price == b.order.price
  }

  // What may stand in for a node: nothing, or the node with other shares.
  ghost predicate StandsFor(rest: seq<Node>, n: Node) {
    |rest| <= 1 && (rest != [] ==> SameNode(rest[0], n))
  }

  // Where position j of a spliced list comes from, and where position j goes to.
  ghost function CameFrom(j: int, i: nat, rest: seq<Node>): int {
    if j < i + |rest| then j else j + 1 - |rest|
  }

  ghost function GoesTo(j: int, i: nat, rest: seq<Node>): int {
    if j < i + |rest| then j else j - 1 + |rest|
  }

  lemma SpliceFrom(level: Level, i: nat, rest: seq<Node>, j: int)
    requires i < |level| && StandsFor(rest, level[i]) && 0 <= j < |Splice(level, i, rest)|
    ensures var j0 := CameFrom(j, i, rest);
            0 <= j0 < |level| && (rest == [] ==> j0 != i) && SameNode(Splice(level, i, rest)[j], level[j0])
  {
  }

  lemma SpliceTo(level: Level, i: nat, rest: seq<Node>, j: int)
    requires i < |level| && StandsFor(rest, level[i]) && 0 <= j < |level| && (rest == [] ==> j != i)
    ensures var j' := GoesTo(j, i, rest);
            0 <= j' < |Splice(level, i, rest)| && SameNode(Splice(level, i, rest)[j'], level[j])
  {
  }

  lemma SpliceDistinct(level: Level, i: nat, rest: seq<Node>)
    requires i < |level| && StandsFor(rest, level[i]) && DistinctNodes(level)
    ensures DistinctNodes(Splice(level, i, rest))
  {
    hide Splice;
    var t := Splice(level, i, rest);
    forall j, l | 0 <= j < l < |t|
      ensures t[j].id != t[l].id
    {
      SpliceFrom(level, i, rest, j);
      SpliceFrom(level, i, rest, l);
      assert level[CameFrom(j, i, rest)].id != level[CameFrom(l, i, rest)].id;
    }
  }

  lemma SpliceKeepsIndex(lv: Levels, index: map<uint64, OrderLocator>, next: nat, k: Key, i: nat, rest: seq<Node>)
    requires Indexed(lv, index, next)
    requires k in lv && i < |lv[k]| && StandsFor(rest, lv[k][i])
    ensures Indexed(WithLevel(lv, k, Splice(lv[k], i, rest)),
                    if rest == [] then index - {lv[k][i].order.ref} else index, next)
  {
    var level, t, ref := lv[k], Splice(lv[k], i, rest), lv[k][i].order.ref;
    var lv', index' := WithLevel(lv, k, t), if rest == [] then index - {ref} else index;
    SpliceDistinct(level, i, rest);
    hide Splice, StandsFor, DistinctNodes;
    assert Placed(level[i], k, index, next);
    forall l, j | l in lv' && 0 <= j < |lv'[l]|
      ensures Placed(lv'[l][j], l, index', next)
    {
      PlacedAfterSplice(lv, index, next, k, i, rest, l, j);
    }
    forall r | r in index'
      ensures Found(lv', index'[r], r)
    {
      assert Found(lv, index[r], r);
      var l := KeyAt(index[r].side, index[r].price);
      var j0 :| 0 <= j0 < |lv[l]| && lv[l][j0].id == index[r].node && lv[l][j0].order.ref == r;
      if l == k {
        SpliceTo(level, i, rest, j0);
        assert lv'[k][GoesTo(j0, i, rest)].order.ref == r;
      } else {
        assert lv'[l][j0] == lv[l][j0];
      }
    }
  }

  lemma PlacedAfterSplice(lv: Levels, index: map<uint64, OrderLocator>, next: nat, k: Key, i: nat, rest: seq<Node>,
                          l: Key, j: int)
    requires Indexed(lv, index, next)
    requires k in lv && i < |lv[k]| && StandsFor(rest, lv[k][i])
    requires var lv' := WithLevel(lv, k, Splice(lv[k], i, rest)); l in lv' && 0 <= j < |lv'[l]|
    ensures Placed(WithLevel(lv, k, Splice(lv[k], i, rest))[l][j], l,
                   if rest == [] then index - {lv[k][i].order.ref} else index, next)
  {
    var level := lv[k];
    hide Splice, StandsFor;
    assert Placed(level[i], k, index, next);
    if l == k {
      SpliceFrom(level, i, rest, j);
      var j0 := CameFrom(j, i, rest);
      assert Placed(level[j0], k, index, next);
      assert DistinctNodes(level);
    } else {
      assert Placed(lv[l][j], l, index, next);
    }
  }

  lemma QueueOfLevel(lv: Levels, k: Key)
    ensures Queue(Denote(lv), k) == Orders(LevelAt(lv, k))
  {
  }

  lemma DenotedHasNoEmptyQueues(lv: Levels)
    requires forall k :: k in lv ==> lv[k] != []
    ensures NoEmptyQueues(Denote(lv))
  {
  }

  // The spliced levels denote the swept book.
  lemma SpliceIsSweep(lv: Levels, index: map<uint64, OrderLocator>, next: nat, k: Key, i: nat, rest: seq<Node>,
                      e: Effect)
    requires Indexed(lv, index, next) && k in lv && i < |lv[k]|
    requires Orders(rest) == After(e, Orders(lv[k])[i])
    ensures Denote(WithLevel(lv, k, Splice(lv[k], i, rest))) == SweepBook(Denote(lv), lv[k][i].order.ref, e)
  {
    IndexedIsWellFormed(lv, index, next);
    assert k in Denote(lv) && Denote(lv)[k] == Orders(lv[k]);
    DenotedHasNoEmptyQueues(WithLevel(lv, k, Splice(lv[k], i, rest)));
    hide Denote, SweepBook, Indexed, WellFormed, Splice, After;
    SweepBookAt(Denote(lv), lv[k][i].order.ref, e, k, i);
    SpliceOrders(lv[k], i, rest);
    LevelsMatchQueues(lv, k, Splice(lv[k], i, rest), SweepBook(Denote(lv), lv[k][i].order.ref, e));
    SweptHasNoEmptyQueues(Denote(lv), lv[k][i].order.ref, e);
    SameQueues(Denote(WithLevel(lv, k, Splice(lv[k], i, rest))), SweepBook(Denote(lv), lv[k][i].order.ref, e));
  }

  // A book whose queues are those of lv but for the one at k.
  lemma LevelsMatchQueues(lv: Levels, k: Key, level: Level, c: Book)
    requires Queue(c, k) == Orders(level)
    requires forall l :: l != k ==> Queue(c, l) == Queue(Denote(lv), l)
    ensures forall l :: Queue(Denote(WithLevel(lv, k, level)), l) == Queue(c, l)
  {
    hide Denote, Queue;
    forall l
      ensures Queue(Denote(WithLevel(lv, k, level)), l) == Queue(c, l)
    {
      QueueOfLevel(lv, l);
      QueueOfLevel(WithLevel(lv, k, level), l);
    }
  }

  lemma SpliceOrders(level: Level, i: nat, rest: seq<Node>)
    requires i < |level|
    ensures Orders(Splice(level, i, rest)) == Orders(level)[..i] + Orders(rest) + Orders(level)[i + 1..]
  {
  }

  lemma ReduceToSome(lv: Levels, index: map<uint64, OrderLocator>, next: nat, k: Key, i: nat, node: Node, n: uint32)
    requires Indexed(lv, index, next) && k in lv && i < |lv[k]|
    requires var o := lv[k][i].order;
             node == Node(lv[k][i].id, o.(shares := (o.shares - n) % U32)) && node.order.shares != 0
    ensures Indexed(lv[k := lv[k][i := node]], index, next)
    ensures Denote(lv[k := lv[k][i := node]]) == SweepBook(Denote(lv), node.order.ref, Subtract(n))
  {
    assert lv[k][i := node] == Splice(lv[k], i, [node]);
    SpliceKeepsIndex(lv, index, next, k, i, [node]);
    hide Indexed, Denote, SweepBook, Splice;
    assert Orders([node]) == [Order(node.order.ref, node.order.shares)];
    SpliceIsSweep(lv, index, next, k, i, [node], Subtract(n));
  }

  // Writing zero shares to a node and then unlinking it is unlinking it.
  lemma ReduceToNothing(lv: Levels, index: map<uint64, OrderLocator>, next: nat, k: Key, i: nat, node: Node, n: uint32)
    requires Indexed(lv, index, next) && k in lv && i < |lv[k]| && HasNode(lv[k], node.id)
             && i == Position(lv[k], node.id)
    requires var o := lv[k][i].order;
             node == Node(lv[k][i].id, o.(shares := (o.shares - n) % U32)) && node.order.shares == 0
    ensures var level := lv[k][i := node];
            HasNode(level, node.id)
            && var lv' := WithLevel(lv[k := level], k, Splice(level, Position(level, node.id), []));
            Indexed(lv', index - {node.order.ref}, next)
            && Denote(lv') == SweepBook(Denote(lv), node.order.ref, Subtract(n))
  {
    var level := lv[k][i := node];
    assert level[i].id == node.id;
    PositionIs(lv[k], level, i, node.id);
    SpliceKeepsIndex(lv, index, next, k, i, []);
    assert Splice(level, i, []) == Splice(lv[k], i, []);
    hide Indexed, Denote, SweepBook, Splice, Position;
    SpliceIsSweep(lv, index, next, k, i, [], Subtract(n));
    assert WithLevel(lv[k := level], k, Splice(level, i, [])) == WithLevel(lv, k, Splice(level, i, []));
  }

  // A new node at the end of a level, with its locator.
  lemma AppendKeepsIndex(lv: Levels, index: map<uint64, OrderLocator>, next: nat, o: RestingOrder)
    requires Indexed(lv, index, next) && o.ref !in index
    ensures var k := KeyAt(o.side, o.price);
            Indexed(lv[k := LevelAt(lv, k) + [Node(next, o)]],
                    index[o.ref := OrderLocator(o.side, o.price, next)], next + 1)
  {
    var k := KeyAt(o.side, o.price);
    var level := LevelAt(lv, k);
    var longer := level + [Node(next, o)];
    var lv', index' := lv[k := longer], index[o.ref := OrderLocator(o.side, o.price, next)];
    forall l, j | l in lv' && 0 <= j < |lv'[l]|
      ensures Placed(lv'[l][j], l, index', next + 1)
    {
      if l != k || j < |level| {
        assert lv'[l][j] == lv[l][j];
        assert Placed(lv[l][j], l, index, next);
      }
    }
    assert DistinctNodes(longer) by {
      forall j | 0 <= j < |level|
        ensures level[j].id < next
      {
        assert Placed(lv[k][j], k, index, next);
      }
    }
    forall r | r in index'
      ensures Found(lv', index'[r], r)
    {
      if r == o.ref {
        assert longer[|level|] == Node(next, o);
      } else {
        assert Found(lv, index[r], r);
        var l := KeyAt(index[r].side, index[r].price);
        var j :| 0 <= j < |lv[l]| && lv[l][j].id == index[r].node && lv[l][j].order.ref == r;
        assert lv'[l][j] == lv[l][j];
      }
    }
  }

  lemma AppendIsJoin(lv: Levels, o: RestingOrder, id: nat)
    ensures var k := KeyAt(o.side, o.price);
            Denote(lv[k := LevelAt(lv, k) + [Node(id, o)]]) == Join(Denote(lv), o.ref, k, o.shares)
  {
    var k := KeyAt(o.side, o.price);
    assert Orders(LevelAt(lv, k) + [Node(id, o)]) == Orders(LevelAt(lv, k)) + [Order(o.ref, o.shares)];
  }

  // The side in a live order's locator is the side its queue is on.
  lemma SideIsBid(lv: Levels, index: map<uint64, OrderLocator>, next: nat, ref: uint64)
    requires Indexed(lv, index, next) && ref in index
    ensures IsBid(Denote(lv), ref) <==> index[ref].side == 'B'
  {
    var b: Book := Denote(lv);
    IndexedIsWellFormed(lv, index, next);
    var k, i := Locate(b, ref);
    assert Placed(lv[k][i], k, index, next);
    if IsBid(b, ref) {
      var l :| l in b && Has(b[l], ref) && l.bid;
      var j :| 0 <= j < |b[l]| && b[l][j].ref == ref;
      assert Placed(lv[l][j], l, index, next);
    }
  }

  class OrderBook {
    var bids: map<uint32, Level>
    var asks: map<uint32, Level>
    var refIndex: map<uint64, OrderLocator>
    var nextNode: nat

    ghost function Lv(): Levels
      reads this
    {
      Both(bids, asks)
    }

    ghost predicate Valid()
      reads this
    {
      Indexed(Lv(), refIndex, nextNode)
    }

    ghost function View(): Book
      reads this
    {
      Denote(Lv())
    }

    constructor ()
      ensures Valid() && View() == map[]
    {
      hide Both, Indexed, Denote;
      bids, asks, refIndex, nextNode := map[], map[], map[], 0;
      new;
      NoLevels();
    }

    // The list at a side and price, empty when the map has no entry.
    function LevelOf(side: char, price: uint32): (level: Level)
      reads this
      ensures level == LevelAt(Lv(), KeyAt(side, price))
    {
      var levels := if side == 'B' then bids else asks;
      if price in levels then levels[price] else []
    }

    method PutLevel(side: char, price: uint32, level: Level)
      modifies this`bids, this`asks
      ensures Lv() == old(Lv())[KeyAt(side, price) := level]
    {
      hide Both;
      if side == 'B' {
        bids := bids[price := level];
      } else {
        asks := asks[price := level];
      }
    }

    method RemoveLocator(loc: OrderLocator)
      requires HasNode(LevelOf(loc.side, loc.price), loc.node)
      modifies this`bids, this`asks
      ensures var k, level := KeyAt(loc.side, loc.price), old(LevelOf(loc.side, loc.price));
              Lv() == WithLevel(old(Lv()), k, Splice(level, Position(level, loc.node), []))
    {
      hide Both, Position;
      var level := LevelOf(loc.side, loc.price);
      var i := Position(level, loc.node);
      var rest := level[..i] + level[i + 1..];
      assert rest == Splice(level, i, []);
      hide Splice;
      PutLevel(loc.side, loc.price, rest);
      if rest == [] {
        EraseLevel(loc.side, loc.price);
      }
    }

    method EraseLevel(side: char, price: uint32)
      modifies this`bids, this`asks
      ensures Lv() == old(Lv()) - {KeyAt(side, price)}
    {
      hide Both;
      if side == 'B' {
        bids := bids - {price};
      } else {
        asks := asks - {price};
      }
    }

    method AddOrder(ref: uint64, side: char, shares: uint32, price: uint32)
      requires Valid() && !Live(View(), ref)
      modifies this
      ensures Valid() && View() == Join(old(View()), ref, KeyAt(side, price), shares)
    {
      IndexedIsWellFormed(Lv(), refIndex, nextNode);
      AppendNode(RestingOrder(ref, side, price, shares));
    }

    // push_back of an order, and the locator that finds it again.
    method AppendNode(o: RestingOrder)
      requires Valid() && o.ref !in refIndex
      modifies this
      ensures Valid() && View() == Join(old(View()), o.ref, KeyAt(o.side, o.price), o.shares)
    {
      hide Both, Indexed, Denote, Join;
      AppendKeepsIndex(Lv(), refIndex, nextNode, o);
      AppendIsJoin(Lv(), o, nextNode);
      PutLevel(o.side, o.price, LevelOf(o.side, o.price) + [Node(nextNode, o)]);
      refIndex := refIndex[o.ref := OrderLocator(o.side, o.price, nextNode)];
      nextNode := nextNode + 1;
    }

    // Executions and cancellations run the same statements on their share count.
    method Reduce(ref: uint64, n: uint32)
      requires Valid()
      modifies this
      ensures Valid() && View() == SweepBook(old(View()), ref, Subtract(n))
    {
      hide Both, Indexed, Denote, SweepBook, Position;
      IndexedIsWellFormed(Lv(), refIndex, nextNode);
      if ref !in refIndex {
        SweepBookAbsent(View(), ref, Subtract(n));
        return;
      }
      var loc := refIndex[ref];
      ghost var k, lv := KeyAt(loc.side, loc.price), Lv();
      var level := LevelOf(loc.side, loc.price);
      PositionOf(lv, refIndex, nextNode, ref);
      var i := Position(level, loc.node);
      var left := (level[i].order.shares - n) % U32;
      var node := level[i].(order := level[i].order.(shares := left));
      PutLevel(loc.side, loc.price, level[i := node]);
      if left == 0 {
        ReduceToNothing(lv, refIndex, nextNode, k, i, node, n);
        RemoveLocator(loc);
        refIndex := refIndex - {ref};
      } else {
        ReduceToSome(lv, refIndex, nextNode, k, i, node, n);
      }
    }

    method ExecuteOrder(ref: uint64, executedShares: uint32)
      requires Valid()
      modifies this
      ensures Valid() && View() == SweepBook(old(View()), ref, Subtract(executedShares))
    {
      Reduce(ref, executedShares);
    }

    method CancelOrder(ref: uint64, canceledShares: uint32)
      requires Valid()
      modifies this
      ensures Valid() && View() == SweepBook(old(View()), ref, Subtract(canceledShares))
    {
      Reduce(ref, canceledShares);
    }

    method DeleteOrder(ref: uint64)
      requires Valid()
      modifies this
      ensures Valid() && View() == SweepBook(old(View()), ref, Drop)
      ensures refIndex == old(refIndex) - {ref}
    {
      hide Both, Indexed, Denote, SweepBook, Position;
      IndexedIsWellFormed(Lv(), refIndex, nextNode);
      if ref !in refIndex {
        SweepBookAbsent(View(), ref, Drop);
        return;
      }
      var loc := refIndex[ref];
      ghost var k, lv := KeyAt(loc.side, loc.price), Lv();
      PositionOf(lv, refIndex, nextNode, ref);
      ghost var i := Position(lv[k], loc.node);
      RemoveLocator(loc);
      SpliceKeepsIndex(lv, refIndex, nextNode, k, i, []);
      SpliceIsSweep(lv, refIndex, nextNode, k, i, [], Drop);
      refIndex := refIndex - {ref};
    }

    method ReplaceOrder(originalRef: uint64, newRef: uint64, shares: uint32, price: uint32)
      requires Valid() && (newRef == originalRef || !Live(View(), newRef))
      modifies this
      ensures Valid()
      ensures View() == Apply(old(View()), OrderReplace(0, originalRef, newRef, shares, price), true)
    {
      hide Both, Indexed, Denote, SweepBook, Join;
      IndexedIsWellFormed(Lv(), refIndex, nextNode);
      if originalRef !in refIndex {
        return;
      }
      var side := refIndex[originalRef].side;
      SideIsBid(Lv(), refIndex, nextNode, originalRef);
      DeleteOrder(originalRef);
      AppendNode(RestingOrder(newRef, side, price, shares));
    }

    method BestBidAsk() returns (top: Option<(uint32, uint32)>)
      requires Valid()
      ensures IsTop(View(), top)
    {
      assert forall p :: p in bids <==> Key(true, p) in View();
      assert forall p :: p in asks <==> Key(false, p) in View();
      if bids.Keys == {} || asks.Keys == {} {
        assert forall p :: (p in bids <==> p in bids.Keys) && (p in asks <==> p in asks.Keys);
        return None;
      }
      var bid := Greatest(bids.Keys);
      var ask := Least(asks.Keys);
      return Some((bid, ask));
    }
  }

  lemma NoLevels()
    ensures Both(map[], map[]) == map[] && Indexed(map[], map[], 0) && Denote(map[]) == map[]
  {
    assert forall k :: k !in Both(map[], map[]);
  }

  // The node an index entry names is the order with that reference.
  lemma PositionOf(lv: Levels, index: map<uint64, OrderLocator>, next: nat, ref: uint64)
    requires Indexed(lv, index, next) && ref in index
    ensures var k := KeyAt(index[ref].side, index[ref].price);
            && k in lv && HasNode(lv[k], index[ref].node)
            && lv[k][Position(lv[k], index[ref].node)].order.ref == ref
  {
    var k := KeyAt(index[ref].side, index[ref].price);
    assert Found(lv, index[ref], ref);
    assert DistinctNodes(lv[k]);
  }

  lemma {:induction false} PositionIs(level: Level, same: Level, i: nat, node: nat)
    requires |level| == |same| && i < |level| && same[i].id == node && level[i].id == node
    requires forall j :: 0 <= j < |level| ==> same[j].id == level[j].id
    ensures Position(level, node) == Position(same, node)
  {
    if level[0].id != node {
      PositionIs(level[1..], same[1..], i - 1, node);
    }
  }
}
