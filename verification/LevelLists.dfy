/** The queue at a price level as an intrusive doubly linked list threaded
    through pool slots. */
module LevelLists {
  import opened Numbers
  import opened OrderPools

  datatype PriceLevel = PriceLevel(head: uint32, tail: uint32, totalQty: uint32, orderCount: uint32)

  const EMPTY_LEVEL := PriceLevel(NULL_IDX, NULL_IDX, 0, 0)

  // The open shares of a queue.
  ghost function Shares(s: seq<PooledOrder>, q: seq<int>): int
    requires InRange(s, q)
  {
    if q == [] then 0 else Shares(s, q[..|q| - 1]) + s[q[|q| - 1]].qty
  }

  ghost predicate Ends(lvl: PriceLevel, q: seq<int>) {
    && lvl.head == (if q == [] then NULL_IDX else q[0])
    && lvl.tail == (if q == [] then NULL_IDX else q[|q| - 1])
  }

  ghost predicate Chained(s: seq<PooledOrder>, l: int, q: seq<int>)
    requires InRange(s, q)
  {
    forall i {:trigger s[q[i]]} :: 0 <= i < |q| ==>
      s[q[i]].next == Successor(q, i) && s[q[i]].prev == Predecessor(q, i) && s[q[i]].level == l
  }

  // Level l holds exactly the orders q, in that order: the links are mutual
  // inverses along q, the ends are its ends, every slot names its level, and
  // the aggregates are the count and the shares of q (in 32 bits).
  ghost predicate Linked(s: seq<PooledOrder>, lvl: PriceLevel, l: int, q: seq<int>) {
    Shape(s, lvl, l, q) && Aggregates(s, lvl, q)
  }

  ghost predicate Shape(s: seq<PooledOrder>, lvl: PriceLevel, l: int, q: seq<int>) {
    InRange(s, q) && NoRepeats(q) && Ends(lvl, q) && Chained(s, l, q)
  }

  ghost predicate Aggregates(s: seq<PooledOrder>, lvl: PriceLevel, q: seq<int>)
    requires InRange(s, q)
  {
    lvl.orderCount == Wrap32(|q|) && lvl.totalQty == Wrap32(Shares(s, q))
  }

  // ---------- The two list operations, on values ----------

  ghost function LinkSlots(s: seq<PooledOrder>, lvl: PriceLevel, l: uint32, idx: uint32, qty: uint32)
      : (t: seq<PooledOrder>)
    requires idx < |s| && (lvl.tail == NULL_IDX || lvl.tail < |s|)
    ensures |t| == |s|
  {
    var t := s[idx := PooledOrder(NULL_IDX, lvl.tail, qty, l)];
    if lvl.tail != NULL_IDX then t[lvl.tail := t[lvl.tail].(next := idx)] else t
  }

  ghost function LinkLevel(lvl: PriceLevel, idx: uint32, qty: uint32): PriceLevel {
    PriceLevel(if lvl.tail != NULL_IDX then lvl.head else idx, idx,
               Wrap32(lvl.totalQty + qty), Wrap32(lvl.orderCount + 1))
  }

  // The links of the slot lead to slots.
  ghost predicate UnlinkableAt(s: seq<PooledOrder>, idx: int) {
    && 0 <= idx < |s|
    && (s[idx].prev == NULL_IDX || s[idx].prev < |s|) && (s[idx].next == NULL_IDX || s[idx].next < |s|)
  }

  ghost function UnlinkSlots(s: seq<PooledOrder>, idx: uint32): (t: seq<PooledOrder>)
    requires UnlinkableAt(s, idx)
    ensures |t| == |s|
  {
    var o := s[idx];
    var t := if o.prev != NULL_IDX then s[o.prev := s[o.prev].(next := o.next)] else s;
    if o.next != NULL_IDX then t[o.next := t[o.next].(prev := o.prev)] else t
  }

  ghost function UnlinkLevel(lvl: PriceLevel, o: PooledOrder): PriceLevel {
    PriceLevel(if o.prev != NULL_IDX then lvl.head else o.next,
               if o.next != NULL_IDX then lvl.tail else o.prev,
               Wrap32(lvl.totalQty - o.qty), Wrap32(lvl.orderCount - 1))
  }

  ghost function Without(q: seq<int>, i: nat): seq<int>
    requires i < |q|
    ensures |Without(q, i)| == |q| - 1
  {
    q[..i] + q[i + 1..]
  }

  // ---------- Shares ----------

  lemma {:induction false} SharesFrame(s: seq<PooledOrder>, t: seq<PooledOrder>, q: seq<int>)
    requires InRange(s, q) && |t| == |s|
    requires forall i :: 0 <= i < |q| ==> t[q[i]].qty == s[q[i]].qty
    ensures InRange(t, q) && Shares(t, q) == Shares(s, q)
    decreases |q|
  {
    if q != [] {
      SharesFrame(s, t, q[..|q| - 1]);
    }
  }

  lemma {:induction false} SharesWithout(s: seq<PooledOrder>, q: seq<int>, i: nat)
    requires InRange(s, q) && i < |q|
    ensures InRange(s, Without(q, i)) && Shares(s, q) == Shares(s, Without(q, i)) + s[q[i]].qty
    decreases |q|
  {
    var r := Without(q, i);
    if i == |q| - 1 {
      assert r == q[..|q| - 1];
    } else {
      SharesWithout(s, q[..|q| - 1], i);
      assert r[..|r| - 1] == Without(q[..|q| - 1], i);
    }
  }

  lemma {:induction false} SharesReduced(s: seq<PooledOrder>, q: seq<int>, i: nat, n: uint32)
    requires InRange(s, q) && NoRepeats(q) && i < |q| && n <= s[q[i]].qty
    ensures var t := s[q[i] := s[q[i]].(qty := s[q[i]].qty - n)];
            InRange(t, q) && Shares(t, q) == Shares(s, q) - n
    decreases |q|
  {
    var t := s[q[i] := s[q[i]].(qty := s[q[i]].qty - n)];
    if i == |q| - 1 {
      SharesFrame(s, t, q[..|q| - 1]);
    } else {
      SharesReduced(s, q[..|q| - 1], i, n);
    }
  }

  // ---------- What the operations do to a linked level ----------

  // Slots outside the queue are of no concern to it.
  lemma LinkedFrame(s: seq<PooledOrder>, t: seq<PooledOrder>, lvl: PriceLevel, l: int, q: seq<int>)
    requires Linked(s, lvl, l, q) && |t| == |s|
    requires forall i :: 0 <= i < |q| ==> t[q[i]] == s[q[i]]
    ensures Linked(t, lvl, l, q)
  {
    SharesFrame(s, t, q);
  }

  // Linking appends at the tail.
  lemma LinkAppends(s: seq<PooledOrder>, lvl: PriceLevel, l: uint32, q: seq<int>, idx: uint32, qty: uint32)
    requires Linked(s, lvl, l, q) && idx < |s| < U32 && idx as int !in q
    ensures Linked(LinkSlots(s, lvl, l, idx, qty), LinkLevel(lvl, idx, qty), l, q + [idx as int])
  {
    hide Wrap32, LinkSlots, NoRepeats, Chained, Shares;
    LinkShape(s, lvl, l, q, idx, qty);
    LinkAggregates(s, LinkSlots(s, lvl, l, idx, qty), lvl, q, idx, qty);
  }

  lemma LinkAggregates(s: seq<PooledOrder>, t: seq<PooledOrder>, lvl: PriceLevel, q: seq<int>, idx: uint32, qty: uint32)
    requires InRange(s, q) && Aggregates(s, lvl, q) && |t| == |s| && idx < |t| && t[idx].qty == qty
    requires forall i :: 0 <= i < |q| ==> t[q[i]].qty == s[q[i]].qty
    ensures InRange(t, q + [idx as int]) && Aggregates(t, LinkLevel(lvl, idx, qty), q + [idx as int])
  {
    hide Wrap32, Shares;
    SharesFrame(s, t, q);
    SharesAppend(t, q, idx);
    WrapStep(lvl.orderCount, |q|, 1);
    WrapStep(lvl.totalQty, Shares(s, q), qty);
  }

  lemma SharesAppend(s: seq<PooledOrder>, q: seq<int>, x: int)
    requires InRange(s, q) && 0 <= x < |s|
    ensures InRange(s, q + [x]) && Shares(s, q + [x]) == Shares(s, q) + s[x].qty
  {
    assert (q + [x])[..|q|] == q;
  }

  lemma LinkShape(s: seq<PooledOrder>, lvl: PriceLevel, l: uint32, q: seq<int>, idx: uint32, qty: uint32)
    requires Shape(s, lvl, l, q) && idx < |s| < U32 && idx as int !in q
    ensures var t := LinkSlots(s, lvl, l, idx, qty);
            Shape(t, LinkLevel(lvl, idx, qty), l, q + [idx as int]) && t[idx].qty == qty
            && forall i :: 0 <= i < |q| ==> t[q[i]].qty == s[q[i]].qty
  {
    hide Wrap32;
    var t, r := LinkSlots(s, lvl, l, idx, qty), q + [idx as int];
    assert NoRepeats(r) && InRange(t, r);
    forall i | 0 <= i < |r|
      ensures t[r[i]].next == Successor(r, i) && t[r[i]].prev == Predecessor(r, i) && t[r[i]].level == l
      ensures i < |q| ==> t[r[i]].qty == s[q[i]].qty
    {
      LinkedSlot(s, lvl, l, q, idx, qty, i);
    }
  }

  lemma LinkedSlot(s: seq<PooledOrder>, lvl: PriceLevel, l: uint32, q: seq<int>, idx: uint32, qty: uint32, i: int)
    requires Shape(s, lvl, l, q) && idx < |s| < U32 && idx as int !in q && 0 <= i <= |q|
    ensures var t, r := LinkSlots(s, lvl, l, idx, qty), q + [idx as int];
            && 0 <= r[i] < |t| && t[r[i]].next == Successor(r, i) && t[r[i]].prev == Predecessor(r, i)
            && t[r[i]].level == l
            && (i < |q| ==> t[r[i]].qty == s[q[i]].qty)
  {
    if i < |q| {
      assert q[i] in q && (i < |q| - 1 ==> q[i] != q[|q| - 1]);
      assert s[q[i]].level == l;
    }
  }

  // Unlinking takes out one order from any position; the rest keep their order.
  lemma UnlinkRemoves(s: seq<PooledOrder>, lvl: PriceLevel, l: uint32, q: seq<int>, i: nat)
    requires Linked(s, lvl, l, q) && i < |q| && |s| <= NULL_IDX
    ensures UnlinkableAt(s, q[i])
    ensures Linked(UnlinkSlots(s, q[i]), UnlinkLevel(lvl, s[q[i]]), l, Without(q, i))
  {
    hide Wrap32, UnlinkSlots, NoRepeats, Shares, Without;
    UnlinkShape(s, lvl, l, q, i);
    UnlinkAggregates(s, UnlinkSlots(s, q[i]), lvl, q, i);
  }

  lemma UnlinkAggregates(s: seq<PooledOrder>, t: seq<PooledOrder>, lvl: PriceLevel, q: seq<int>, i: nat)
    requires InRange(s, q) && Aggregates(s, lvl, q) && |t| == |s| && i < |q|
    requires forall j :: 0 <= j < |q| - 1 ==> t[Without(q, i)[j]].qty == s[Without(q, i)[j]].qty
    ensures InRange(t, Without(q, i)) && Aggregates(t, UnlinkLevel(lvl, s[q[i]]), Without(q, i))
  {
    hide Wrap32, Shares, Without;
    SharesWithout(s, q, i);
    SharesFrame(s, t, Without(q, i));
    WrapStep(lvl.orderCount, |q|, -1);
    WrapStep(lvl.totalQty, Shares(s, q), -(s[q[i]].qty as int));
  }

  lemma UnlinkShape(s: seq<PooledOrder>, lvl: PriceLevel, l: uint32, q: seq<int>, i: nat)
    requires Shape(s, lvl, l, q) && i < |q| && |s| <= NULL_IDX
    ensures UnlinkableAt(s, q[i])
    ensures var t, r := UnlinkSlots(s, q[i]), Without(q, i);
            Shape(t, UnlinkLevel(lvl, s[q[i]]), l, r)
            && forall j :: 0 <= j < |r| ==> t[r[j]].qty == s[r[j]].qty
  {
    assert s[q[i]].level == l;
    var t, r := UnlinkSlots(s, q[i]), Without(q, i);
    WithoutKeeps(s, q, i);
    assert |t| == |s|;
    UnlinkedEnds(s, lvl, l, q, i);
    hide Wrap32, UnlinkSlots, Without, NoRepeats, Ends, UnlinkLevel;
    forall j | 0 <= j < |r|
      ensures t[r[j]].next == Successor(r, j) && t[r[j]].prev == Predecessor(r, j) && t[r[j]].level == l
      ensures t[r[j]].qty == s[r[j]].qty
    {
      UnlinkedSlot(s, lvl, l, q, i, j);
    }
  }

  lemma WithoutKeeps(s: seq<PooledOrder>, q: seq<int>, i: nat)
    requires InRange(s, q) && NoRepeats(q) && i < |q|
    ensures InRange(s, Without(q, i)) && NoRepeats(Without(q, i))
  {
  }

  lemma UnlinkedEnds(s: seq<PooledOrder>, lvl: PriceLevel, l: uint32, q: seq<int>, i: nat)
    requires Shape(s, lvl, l, q) && i < |q| && |s| <= NULL_IDX
    ensures Ends(UnlinkLevel(lvl, s[q[i]]), Without(q, i))
  {
    hide Wrap32;
    assert s[q[i]].level == l;
  }

  lemma UnlinkedSlot(s: seq<PooledOrder>, lvl: PriceLevel, l: uint32, q: seq<int>, i: nat, j: int)
    requires Shape(s, lvl, l, q) && i < |q| && |s| <= NULL_IDX && 0 <= j < |q| - 1
    ensures UnlinkableAt(s, q[i])
    ensures var t, r := UnlinkSlots(s, q[i]), Without(q, i);
            && 0 <= r[j] < |t| && t[r[j]].next == Successor(r, j) && t[r[j]].prev == Predecessor(r, j)
            && t[r[j]].level == l
            && t[r[j]].qty == s[r[j]].qty
  {
    var j0 := if j < i then j else j + 1;
    assert s[q[j0]].level == l && s[q[i]].level == l;
  }

  // A partial fill lowers one order's shares and the level's total alike.
  lemma ReduceKeepsLinks(s: seq<PooledOrder>, lvl: PriceLevel, l: uint32, q: seq<int>, i: nat, n: uint32)
    requires Linked(s, lvl, l, q) && i < |q| && n <= s[q[i]].qty
    ensures Linked(s[q[i] := s[q[i]].(qty := s[q[i]].qty - n)], lvl.(totalQty := Wrap32(lvl.totalQty - n)), l, q)
  {
    var t := s[q[i] := s[q[i]].(qty := s[q[i]].qty - n)];
    hide Wrap32;
    assert Shape(t, lvl.(totalQty := Wrap32(lvl.totalQty - n)), l, q);
    hide NoRepeats, Chained, Ends;
    SharesReduced(s, q, i, n);
    WrapStep(lvl.totalQty, Shares(s, q), -(n as int));
  }
}
