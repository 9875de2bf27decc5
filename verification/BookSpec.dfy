/** What a limit order book means, independent of how a version stores it:
    for each side and price, the queue of resting orders in time priority. */
module BookSpec {
  import opened Numbers
  import opened SortedKeys

  datatype Message =
    | AddOrder(locate: uint16, ref: uint64, side: char, shares: uint32, price: uint32)
    | OrderExecuted(locate: uint16, ref: uint64, shares: uint32)
    | OrderCancel(locate: uint16, ref: uint64, shares: uint32)
    | OrderDelete(locate: uint16, ref: uint64)
    | OrderReplace(locate: uint16, ref: uint64, newRef: uint64, shares: uint32, price: uint32)

  datatype Key = Key(bid: bool, price: uint32)
  datatype Order = Order(ref: uint64, shares: uint32)

  // Prices without resting orders are absent.
  type Book = map<Key, seq<Order>>

  ghost function Queue(b: Book, k: Key): seq<Order> {
    if k in b then b[k] else []
  }

  ghost predicate NoEmptyQueues(b: Book) {
    forall k :: k in b ==> b[k] != []
  }

  ghost predicate UniqueRefs(b: Book) {
    forall k, i, l, j :: k in b && l in b && 0 <= i < |b[k]| && 0 <= j < |b[l]| && b[k][i].ref == b[l][j].ref
                         ==> k == l && i == j
  }

  ghost predicate WellFormed(b: Book) {
    NoEmptyQueues(b) && UniqueRefs(b)
  }

  ghost predicate Has(q: seq<Order>, ref: uint64) {
    exists i :: 0 <= i < |q| && q[i].ref == ref
  }

  ghost predicate Live(b: Book, ref: uint64) {
    exists k :: k in b && Has(b[k], ref)
  }

  ghost predicate IsBid(b: Book, ref: uint64) {
    exists k :: k in b && Has(b[k], ref) && k.bid
  }

  ghost function LiveRefs(b: Book): set<uint64> {
    set k, i | k in b && 0 <= i < |b[k]| :: b[k][i].ref
  }

  lemma LiveIsMember(b: Book, ref: uint64)
    ensures Live(b, ref) <==> ref in LiveRefs(b)
  {
    if Live(b, ref) {
      var k :| k in b && Has(b[k], ref);
      var i :| 0 <= i < |b[k]| && b[k][i].ref == ref;
    }
    if ref in LiveRefs(b) {
      var k, i :| k in b && 0 <= i < |b[k]| && b[k][i].ref == ref;
      assert Has(b[k], ref);
    }
  }

  // ---------- What one message does ----------

  // Subtract is the baseline book's fill: 32-bit subtraction, removal at zero.
  // Take is the array book's fill: removal as soon as nothing would be left.
  datatype Effect = Subtract(n: uint32) | Take(n: uint32) | Drop

  ghost function After(e: Effect, o: Order): seq<Order> {
    match e
    case Subtract(n) =>
      var left := (o.shares - n) % U32;
      if left == 0 then [] else [Order(o.ref, left)]
    case Take(n) =>
      if n >= o.shares then [] else [Order(o.ref, o.shares - n)]
    case Drop => []
  }

  // Every order with the reference undergoes the effect, all others stay in place.
  ghost function Sweep(q: seq<Order>, ref: uint64, e: Effect): seq<Order> {
    if q == [] then []
    else (if q[0].ref == ref then After(e, q[0]) else [q[0]]) + Sweep(q[1..], ref, e)
  }

  ghost function SweepBook(b: Book, ref: uint64, e: Effect): Book {
    map k | k in b && Sweep(b[k], ref, e) != [] :: Sweep(b[k], ref, e)
  }

  ghost function Join(b: Book, ref: uint64, k: Key, shares: uint32): Book {
    b[k := Queue(b, k) + [Order(ref, shares)]]
  }

  ghost function Fill(wraps: bool, n: uint32): Effect {
    if wraps then Subtract(n) else Take(n)
  }

  // One message applied to a book; `wraps` selects the fill arithmetic.
  ghost function Apply(b: Book, m: Message, wraps: bool): Book {
    match m
    case AddOrder(_, ref, side, shares, price) => Join(b, ref, Key(side == 'B', price), shares)
    case OrderExecuted(_, ref, n) => SweepBook(b, ref, Fill(wraps, n))
    case OrderCancel(_, ref, n) => SweepBook(b, ref, Fill(wraps, n))
    case OrderDelete(_, ref) => SweepBook(b, ref, Drop)
    case OrderReplace(_, ref, newRef, shares, price) =>
      if Live(b, ref) then Join(SweepBook(b, ref, Drop), newRef, Key(IsBid(b, ref), price), shares) else b
  }

  // ---------- Sweeping a queue ----------

  lemma {:induction false} SweepAbsent(q: seq<Order>, ref: uint64, e: Effect)
    requires !Has(q, ref)
    ensures Sweep(q, ref, e) == q
  {
    if q != [] {
      assert forall i :: 0 <= i < |q[1..]| ==> q[1..][i] == q[i + 1];
      SweepAbsent(q[1..], ref, e);
      assert q == [q[0]] + q[1..];
    }
  }

  // With the reference at position i only, the sweep acts there and nowhere else.
  lemma {:induction false} SweepAt(q: seq<Order>, i: nat, ref: uint64, e: Effect)
    requires i < |q| && q[i].ref == ref
    requires forall j :: 0 <= j < |q| && j != i ==> q[j].ref != ref
    ensures Sweep(q, ref, e) == q[..i] + After(e, q[i]) + q[i + 1..]
  {
    assert forall j :: 0 <= j < |q[1..]| ==> q[1..][j] == q[j + 1];
    if i == 0 {
      SweepAbsent(q[1..], ref, e);
    } else {
      SweepAt(q[1..], i - 1, ref, e);
      assert q[1..][..i - 1] == q[1..i] && q[1..][i - 1 + 1..] == q[i + 1..];
      assert q[..i] == [q[0]] + q[1..i];
    }
  }

  lemma {:induction false} SweepMembers(q: seq<Order>, ref: uint64, e: Effect, i: nat)
    requires i < |Sweep(q, ref, e)|
    ensures Has(q, Sweep(q, ref, e)[i].ref)
    decreases |q|
  {
    var first := if q[0].ref == ref then After(e, q[0]) else [q[0]];
    if i >= |first| {
      SweepMembers(q[1..], ref, e, i - |first|);
      var j :| 0 <= j < |q[1..]| && q[1..][j].ref == Sweep(q, ref, e)[i].ref;
      assert q[j + 1].ref == Sweep(q, ref, e)[i].ref;
    } else {
      assert q[0].ref == Sweep(q, ref, e)[i].ref;
    }
  }

  lemma QueueAfterSweep(b: Book, ref: uint64, e: Effect, k: Key)
    ensures Queue(SweepBook(b, ref, e), k) == Sweep(Queue(b, k), ref, e)
  {
  }

  lemma SweptHasNoEmptyQueues(b: Book, ref: uint64, e: Effect)
    ensures NoEmptyQueues(SweepBook(b, ref, e))
  {
  }

  // Books without empty queues are equal when every queue is.
  lemma SameQueues(a: Book, b: Book)
    requires NoEmptyQueues(a) && NoEmptyQueues(b)
    requires forall k :: Queue(a, k) == Queue(b, k)
    ensures a == b
  {
    forall k
      ensures k in a <==> k in b
      ensures k in a ==> a[k] == b[k]
    {
      assert Queue(a, k) == Queue(b, k);
    }
  }

  // Where a live order sits.
  lemma Locate(b: Book, ref: uint64) returns (k: Key, i: nat)
    requires Live(b, ref)
    ensures k in b && i < |b[k]| && b[k][i].ref == ref
  {
    k :| k in b && Has(b[k], ref);
    i :| 0 <= i < |b[k]| && b[k][i].ref == ref;
  }

  // Sweeping a live reference touches one queue, at one place.
  lemma SweepBookAt(b: Book, ref: uint64, e: Effect, k: Key, i: nat)
    requires WellFormed(b) && k in b && i < |b[k]| && b[k][i].ref == ref
    ensures Queue(SweepBook(b, ref, e), k) == b[k][..i] + After(e, b[k][i]) + b[k][i + 1..]
    ensures forall l :: l != k ==> Queue(SweepBook(b, ref, e), l) == Queue(b, l)
  {
    SweepAt(b[k], i, ref, e);
    QueueAfterSweep(b, ref, e, k);
    forall l | l != k
      ensures Queue(SweepBook(b, ref, e), l) == Queue(b, l)
    {
      SweepAbsent(Queue(b, l), ref, e);
      QueueAfterSweep(b, ref, e, l);
    }
  }

  lemma SweepBookAbsent(b: Book, ref: uint64, e: Effect)
    requires NoEmptyQueues(b) && !Live(b, ref)
    ensures SweepBook(b, ref, e) == b
  {
    forall k
      ensures Queue(SweepBook(b, ref, e), k) == Queue(b, k)
    {
      SweepAbsent(Queue(b, k), ref, e);
      QueueAfterSweep(b, ref, e, k);
    }
    SameQueues(SweepBook(b, ref, e), b);
  }

  // ---------- Messages keep books well formed ----------

  lemma JoinKeeps(b: Book, ref: uint64, k: Key, shares: uint32)
    requires WellFormed(b) && !Live(b, ref)
    ensures WellFormed(Join(b, ref, k, shares))
    ensures LiveRefs(Join(b, ref, k, shares)) == LiveRefs(b) + {ref}
    ensures IsBid(Join(b, ref, k, shares), ref) == k.bid
  {
    var c: Book := Join(b, ref, k, shares);
    var n := |Queue(b, k)|;
    assert c[k][n] == Order(ref, shares) && Has(c[k], ref);
    assert forall l: Key, i: int :: l in c && 0 <= i < |c[l]| && (l != k || i != n) ==>
        l in b && i < |b[l]| && c[l][i] == b[l][i];
    forall l, i | l in b && 0 <= i < |b[l]|
      ensures b[l][i].ref != ref && b[l][i].ref in LiveRefs(c)
    {
      assert Has(b[l], b[l][i].ref);
      assert l in c && i < |c[l]| && c[l][i] == b[l][i];
    }
  }

  // A book never takes in an order without changing.
  lemma JoinChanges(b: Book, ref: uint64, k: Key, shares: uint32)
    ensures Join(b, ref, k, shares) != b
  {
    assert |Queue(Join(b, ref, k, shares), k)| == |Queue(b, k)| + 1;
  }

  lemma SweepKeeps(b: Book, ref: uint64, e: Effect)
    requires WellFormed(b)
    ensures WellFormed(SweepBook(b, ref, e))
    ensures LiveRefs(SweepBook(b, ref, e)) <= LiveRefs(b)
    ensures LiveRefs(b) - {ref} <= LiveRefs(SweepBook(b, ref, e))
  {
    if Live(b, ref) {
      var k, i := Locate(b, ref);
      SweepBookAt(b, ref, e, k, i);
      SweepOneKeeps(b, SweepBook(b, ref, e), k, i, After(e, b[k][i]));
    } else {
      SweepBookAbsent(b, ref, e);
    }
  }

  lemma SweepOneKeeps(b: Book, c: Book, k: Key, i: nat, rest: seq<Order>)
    requires WellFormed(b) && NoEmptyQueues(c) && k in b && i < |b[k]|
    requires |rest| <= 1 && (rest != [] ==> rest[0].ref == b[k][i].ref)
    requires Queue(c, k) == b[k][..i] + rest + b[k][i + 1..]
    requires forall l :: l != k ==> Queue(c, l) == Queue(b, l)
    ensures WellFormed(c)
    ensures LiveRefs(c) <= LiveRefs(b) && LiveRefs(b) - {b[k][i].ref} <= LiveRefs(c)
    ensures rest == [] ==> LiveRefs(c) == LiveRefs(b) - {b[k][i].ref}
  {
    // Position j of a queue of c comes from this position of the same queue of b.
    var d := 1 - |rest|;
    forall l, j | l in c && 0 <= j < |c[l]|
      ensures l in b && 0 <= Origin(l == k && j >= i, j, d) < |b[l]|
      ensures c[l][j].ref == b[l][Origin(l == k && j >= i, j, d)].ref
      ensures rest == [] ==> c[l][j].ref != b[k][i].ref
    {
      assert Queue(c, l) == c[l];
      if l != k {
        assert Queue(b, l) == c[l];
      }
    }
    forall l, j | l in b && 0 <= j < |b[l]| && b[l][j].ref != b[k][i].ref
      ensures b[l][j].ref in LiveRefs(c)
    {
      if l != k {
        assert Queue(c, l) == b[l];
        assert c[l][j] == b[l][j];
      } else {
        var p := if j < i then j else j - d;
        assert Queue(c, k)[p] == b[k][j];
        assert c[k][p] == b[k][j];
      }
    }
  }

  ghost function Origin(shifted: bool, j: int, d: int): int {
    if shifted then j + d else j
  }

  // The sweep that removes its order removes exactly its reference.
  lemma RemovalRefs(b: Book, ref: uint64, e: Effect, k: Key, i: nat)
    requires WellFormed(b) && k in b && i < |b[k]| && b[k][i].ref == ref && After(e, b[k][i]) == []
    ensures LiveRefs(SweepBook(b, ref, e)) == LiveRefs(b) - {ref}
  {
    SweepBookAt(b, ref, e, k, i);
    SweepOneKeeps(b, SweepBook(b, ref, e), k, i, []);
  }

  // What the feed promises about one message for the book it addresses:
  // a reference is fresh when it starts an order.
  ghost predicate StartsFresh(b: Book, m: Message) {
    match m
    case AddOrder(_, ref, _, _, _) => !Live(b, ref)
    case OrderReplace(_, ref, newRef, _, _) => newRef == ref || !Live(b, newRef)
    case _ => true
  }

  lemma ApplyKeeps(b: Book, m: Message, wraps: bool)
    requires WellFormed(b) && StartsFresh(b, m)
    ensures WellFormed(Apply(b, m, wraps))
  {
    match m
    case AddOrder(_, ref, side, shares, price) => JoinKeeps(b, ref, Key(side == 'B', price), shares);
    case OrderExecuted(_, ref, n) => SweepKeeps(b, ref, Fill(wraps, n));
    case OrderCancel(_, ref, n) => SweepKeeps(b, ref, Fill(wraps, n));
    case OrderDelete(_, ref) => SweepKeeps(b, ref, Drop);
    case OrderReplace(_, ref, newRef, shares, price) =>
      if Live(b, ref) {
        DropKeeps(b, ref);
        var c := SweepBook(b, ref, Drop);
        LiveIsMember(b, newRef);
        LiveIsMember(c, newRef);
        JoinKeeps(c, newRef, Key(IsBid(b, ref), price), shares);
      }
  }

  lemma DropKeeps(b: Book, ref: uint64)
    requires WellFormed(b)
    ensures WellFormed(SweepBook(b, ref, Drop))
    ensures LiveRefs(SweepBook(b, ref, Drop)) == LiveRefs(b) - {ref}
  {
    SweepKeeps(b, ref, Drop);
    LiveIsMember(b, ref);
    if Live(b, ref) {
      var k, i := Locate(b, ref);
      RemovalRefs(b, ref, Drop, k, i);
    }
  }

  // ---------- The two fills ----------

  // Open shares cover the fill, wherever the order sits.
  ghost predicate Covered(b: Book, ref: uint64, n: uint32) {
    forall k, i :: k in b && 0 <= i < |b[k]| && b[k][i].ref == ref ==> n <= b[k][i].shares
  }

  // The wrapping fill and the capped fill agree exactly on fills that the
  // order covers; beyond that the baseline keeps an order with wrapped shares
  // which the array book removes.
  lemma FillsAgreeIffCovered(b: Book, ref: uint64, n: uint32)
    requires WellFormed(b)
    ensures SweepBook(b, ref, Subtract(n)) == SweepBook(b, ref, Take(n)) <==> Covered(b, ref, n)
  {
    if Live(b, ref) {
      var k, i := Locate(b, ref);
      SweepBookAt(b, ref, Subtract(n), k, i);
      SweepBookAt(b, ref, Take(n), k, i);
      var o := b[k][i];
      if n <= o.shares {
        assert (o.shares - n) % U32 == o.shares - n;
        SameQueues(SweepBook(b, ref, Subtract(n)), SweepBook(b, ref, Take(n)));
      } else {
        assert (o.shares - n) % U32 == o.shares - n + U32;
        assert |Queue(SweepBook(b, ref, Subtract(n)), k)| == |b[k]|;
        assert |Queue(SweepBook(b, ref, Take(n)), k)| == |b[k]| - 1;
      }
    } else {
      SweepBookAbsent(b, ref, Subtract(n));
      SweepBookAbsent(b, ref, Take(n));
      forall k, i | k in b && 0 <= i < |b[k]|
        ensures b[k][i].ref != ref
      {
        assert b[k][i].ref == ref ==> Has(b[k], ref);
      }
    }
  }

  // A fill leaves the order at its place with the shares that remain, or takes it out
  // when none do.
  lemma FillLeaves(b: Book, ref: uint64, n: uint32, wraps: bool, k: Key, i: nat)
    requires WellFormed(b) && k in b && i < |b[k]| && b[k][i].ref == ref && n <= b[k][i].shares
    ensures Queue(SweepBook(b, ref, Fill(wraps, n)), k)
            == if n < b[k][i].shares then b[k][i := Order(ref, b[k][i].shares - n)] else b[k][..i] + b[k][i + 1..]
  {
    hide *;
    SweepBookAt(b, ref, Fill(wraps, n), k, i);
    AfterFill(b[k][i], n, wraps);
    PutAt(b[k], i, Order(ref, if n < b[k][i].shares then b[k][i].shares - n else 0));
  }

  lemma PutAt(q: seq<Order>, i: nat, o: Order)
    requires i < |q|
    ensures q[..i] + [o] + q[i + 1..] == q[i := o] && q[..i] + [] + q[i + 1..] == q[..i] + q[i + 1..]
  {
  }

  lemma AfterFill(o: Order, n: uint32, wraps: bool)
    requires n <= o.shares
    ensures After(Fill(wraps, n), o) == if n < o.shares then [Order(o.ref, o.shares - n)] else []
  {
  }

  ghost predicate FillCovered(b: Book, m: Message) {
    match m
    case OrderExecuted(_, ref, n) => Covered(b, ref, n)
    case OrderCancel(_, ref, n) => Covered(b, ref, n)
    case _ => true
  }

  lemma MessagesAgreeIffCovered(b: Book, m: Message)
    requires WellFormed(b)
    ensures Apply(b, m, true) == Apply(b, m, false) <==> FillCovered(b, m)
  {
    match m
    case OrderExecuted(_, ref, n) => FillsAgreeIffCovered(b, ref, n);
    case OrderCancel(_, ref, n) => FillsAgreeIffCovered(b, ref, n);
    case _ =>
  }

  // A fill of 101 shares on an order of 100: the baseline keeps the order, with
  // 2^32 - 1 shares, and the array book removes it.
  lemma OverfillDiverges(k: Key, ref: uint64, locate: uint16)
    ensures var b: Book, m := map[k := [Order(ref, 100)]], OrderExecuted(locate, ref, 101);
            && Apply(b, m, true) == map[k := [Order(ref, U32 - 1)]] && Apply(b, m, false) == map[]
  {
    var b: Book := map[k := [Order(ref, 100)]];
    assert b[k][1..] == [];
    assert Sweep([], ref, Subtract(101)) == [] && Sweep([], ref, Take(101)) == [];
    assert Sweep(b[k], ref, Subtract(101)) == [Order(ref, U32 - 1)];
    assert Sweep(b[k], ref, Take(101)) == [];
  }

  // ---------- Top of book ----------

  ghost predicate HighestBid(b: Book, p: uint32) {
    Key(true, p) in b && forall q: uint32 :: Key(true, q) in b ==> q <= p
  }

  ghost predicate LowestAsk(b: Book, p: uint32) {
    Key(false, p) in b && forall q: uint32 :: Key(false, q) in b ==> q >= p
  }

  ghost predicate SideEmpty(b: Book, bid: bool) {
    forall q: uint32 :: Key(bid, q) !in b
  }

  // The best bid and ask, or none as soon as one side has no resting order.
  ghost predicate IsTop(b: Book, top: Option<(uint32, uint32)>) {
    match top
    case None => SideEmpty(b, true) || SideEmpty(b, false)
    case Some(t) => HighestBid(b, t.0) && LowestAsk(b, t.1)
  }

  lemma TopIsUnique(b: Book, s: Option<(uint32, uint32)>, t: Option<(uint32, uint32)>)
    requires IsTop(b, s) && IsTop(b, t)
    ensures s == t
  {
    if s.Some? && t.Some? {
      assert s.value.0 == t.value.0 && s.value.1 == t.value.1;
    }
  }

  ghost function Prices(b: Book, bid: bool): set<int> {
    set k | k in b && k.bid == bid :: k.price
  }

  // The top is the greatest bid price with the least ask price, or none when a side
  // has no price; every book has one.
  lemma TopIs(b: Book, top: Option<(uint32, uint32)>)
    ensures IsTop(b, top) <==>
            match top
            case None => Prices(b, true) == {} || Prices(b, false) == {}
            case Some(t) => IsGreatest(Prices(b, true), t.0) && IsLeast(Prices(b, false), t.1)
  {
    PricesAre(b, true);
    PricesAre(b, false);
    if top.Some? {
      BestIs(b, top.value.0);
      BestIs(b, top.value.1);
    }
    hide Prices;
  }

  lemma BestIs(b: Book, p: uint32)
    ensures HighestBid(b, p) <==> IsGreatest(Prices(b, true), p)
    ensures LowestAsk(b, p) <==> IsLeast(Prices(b, false), p)
  {
    PricesAre(b, true);
    PricesAre(b, false);
    hide Prices;
    if HighestBid(b, p) {
      forall x | x in Prices(b, true)
        ensures x <= p
      {
        var q: uint32 := x;
        assert Key(true, q) in b;
      }
    }
    if LowestAsk(b, p) {
      forall x | x in Prices(b, false)
        ensures p <= x
      {
        var q: uint32 := x;
        assert Key(false, q) in b;
      }
    }
  }

  lemma PricesAre(b: Book, bid: bool)
    ensures forall p: uint32 :: p as int in Prices(b, bid) <==> Key(bid, p) in b
    ensures forall x :: x in Prices(b, bid) ==> 0 <= x < U32
    ensures SideEmpty(b, bid) <==> Prices(b, bid) == {}
  {
    forall p: uint32
      ensures p as int in Prices(b, bid) <==> Key(bid, p) in b
    {
      if k :| k in b && k.bid == bid && k.price == p {
        assert k == Key(bid, p);
      }
    }
    if x :| x in Prices(b, bid) {
      var k :| k in b && k.bid == bid && k.price == x;
      assert k == Key(bid, x);
    }
  }

  lemma TopExists(b: Book) returns (top: Option<(uint32, uint32)>)
    ensures IsTop(b, top)
  {
    PricesAre(b, true);
    PricesAre(b, false);
    top := None;
    if Prices(b, true) != {} && Prices(b, false) != {} {
      var p := GreatestExists(Prices(b, true));
      var q := LeastExists(Prices(b, false));
      top := Some((p, q));
    }
    TopIs(b, top);
  }
}
