/** The v3 order book: price levels in an array, orders in intrusive lists
    inside a pool, references in a flat table; pool and table are shared by all
    books. */
module ArrayBook {
  import opened Numbers
  import opened BookSpec
  import opened RefLayout
  import opened RefTables
  import opened OrderPools
  import opened LevelAddressing
  import opened LevelLists
  import opened Bitmap
  import opened BookImage
  import opened BookImageView
  import opened SortedKeys
  import opened TopOfBook

  // The table leads to live slots that carry the reference looked up.
  ghost predicate TableAgrees(live: Tags, table: map<uint64, uint32>) {
    forall r :: r in table ==> table[r] in live && live[table[r]].ref == r
  }

  ghost predicate SharedOk(pool: OrderPool, refs: RefTable)
    reads pool, pool.slots, refs, refs.slots
  {
    && pool.slots as object != refs.slots && pool.Valid() && refs.Valid()
    && RefsDiffer(pool.live) && TableAgrees(pool.live, refs.Contents)
  }

  // Every live order can be found by its reference.
  ghost predicate AllIndexed(live: Tags, table: map<uint64, uint32>) {
    forall x :: x in live ==> live[x].ref in table
  }

  ghost predicate Unused(live: Tags, ref: uint64) {
    forall x :: x in live ==> live[x].ref != ref
  }

  // Only slots of book `me`, or free ones, have changed.
  ghost predicate OnlyMine(me: object, s: seq<PooledOrder>, live: Tags, t: seq<PooledOrder>, live': Tags) {
    && |t| == |s|
    && (forall x :: x in live && live[x].book != me ==>
          x in live' && live'[x] == live[x] && (0 <= x < |s| ==> t[x] == s[x]))
    && (forall x :: x in live' && live'[x].book != me ==> x in live && live[x].book != me)
  }

  lemma OnlyMineTwice(me: object, s: seq<PooledOrder>, live: Tags, t: seq<PooledOrder>, live': Tags,
                      u: seq<PooledOrder>, live'': Tags)
    requires OnlyMine(me, s, live, t, live') && OnlyMine(me, t, live', u, live'')
    ensures OnlyMine(me, s, live, u, live'')
  {
  }

  lemma OthersUntouched(me: object, other: object, s: seq<PooledOrder>, live: Tags, t: seq<PooledOrder>, live': Tags)
    requires OnlyMine(me, s, live, t, live') && other != me
    ensures Untouched(other, s, live, t, live')
  {
  }

  class OrderBook {
    const pool: OrderPool
    const refs: RefTable
    var baseCents: int
    var baseSet: bool
    var levels: seq<PriceLevel>
    var overflowBid: map<uint32, uint32>
    var overflowAsk: map<uint32, uint32>
    var overflowSide: seq<char>
    var bestBidIdx: int
    var bestAskIdx: int
    const occupied: array<bv64>
    ghost var lists: seq<seq<int>>
    ghost var prices: seq<uint32>

    ghost function Addr(): Address
      reads this
    {
      Address(baseSet, baseCents, overflowBid, overflowAsk, overflowSide, prices)
    }

    ghost function Picture(): Image
      reads this, occupied
    {
      Image(Addr(), levels, bestBidIdx, bestAskIdx, occupied[..], lists)
    }

    // The three arrays are three objects.
    ghost predicate Apart() {
      occupied as object != pool.slots && occupied as object != refs.slots
    }

    ghost predicate Valid()
      reads this, occupied, pool, pool.slots
    {
      Apart() && BookOk(Picture(), this, pool.slots[..], pool.live)
    }

    ghost function View(): Book
      requires Valid()
      reads this, occupied, pool, pool.slots
    {
      ViewOf(Picture(), pool.slots[..], pool.live)
    }

    constructor (pool: OrderPool, refs: RefTable)
      requires pool.Valid()
      ensures Valid() && View() == map[]
      ensures fresh(occupied) && this.pool == pool && this.refs == refs && prices == []
    {
      this.pool, this.refs := pool, refs;
      baseCents, baseSet := -1, false;
      levels := seq(FIRST_OVERFLOW, _ => EMPTY_LEVEL);
      overflowBid, overflowAsk, overflowSide := map[], map[], [];
      bestBidIdx, bestAskIdx := -1, -1;
      occupied := new bv64[WORDS](_ => 0);
      lists := seq(FIRST_OVERFLOW, _ => []);
      prices := [];
      new;
      NewImageOk(Picture(), this, pool.slots[..], pool.live);
    }

    method SideOf(l: nat) returns (side: char)
      requires Sized(Picture()) && l < |levels|
      ensures side == 'B' <==> KeyOf(Addr(), l).bid
    {
      if l < ASK_BASE {
        return 'B';
      }
      if l < FIRST_OVERFLOW {
        return 'S';
      }
      return overflowSide[l - FIRST_OVERFLOW];
    }

    method PriceOf(l: nat) returns (price: uint32)
      requires Sized(Picture()) && l < |levels|
      ensures price == KeyOf(Addr(), l).price
    {
      if l < ASK_BASE {
        return Wrap32((baseCents + l) * 100);
      }
      if l < FIRST_OVERFLOW {
        return Wrap32((baseCents + (l - ASK_BASE)) * 100);
      }
      var side := SideOf(l);
      var ovf := if side == 'B' then overflowBid else overflowAsk;
      assert prices[l - FIRST_OVERFLOW] in ovf && ovf[prices[l - FIRST_OVERFLOW]] == l;
      price := 0;
      var rest := ovf.Keys;
      while rest != {}
        invariant rest <= ovf.Keys && prices[l - FIRST_OVERFLOW] in rest
        decreases rest
      {
        var p :| p in rest;
        if ovf[p] == l {
          assert OverflowEntry(Addr(), side == 'B', p, ovf[p]);
          return p;
        }
        rest := rest - {p};
      }
    }

    // The level of a side and price, creating an overflow level when there is none.
    method LevelFor(price: uint32, side: char) returns (l: nat)
      requires Sized(Picture()) && |levels| < MAX_LEVELS
      modifies this
      ensures Picture() == Widened(old(Picture()), price, side)
      ensures LevelOf(Addr(), Key(side == 'B', price)) == Some(l)
      ensures prices == old(prices) || prices == old(prices) + [price]
    {
      hide AddressOk, KeyOf, OverflowEntry;
      if !baseSet {
        baseCents := price / 100 - WINDOW / 2;
        baseSet := true;
      }
      if price % 100 == 0 {
        var off := price / 100 - baseCents;
        if 0 <= off < WINDOW {
          return if side == 'B' then off else ASK_BASE + off;
        }
      }
      l := OverflowLevel(price, side);
    }

    // The level of a price outside the window.
    method OverflowLevel(price: uint32, side: char) returns (l: nat)
      requires |levels| == |lists| == FIRST_OVERFLOW + |overflowSide| < MAX_LEVELS && |prices| == |overflowSide|
      requires baseSet && !InWindow(baseCents, price)
      modifies this`levels, this`lists, this`overflowBid, this`overflowAsk, this`overflowSide, this`prices
      ensures Picture() == Widened(old(Picture()), price, side)
      ensures LevelOf(Addr(), Key(side == 'B', price)) == Some(l)
      ensures prices == old(prices) || prices == old(prices) + [price]
    {
      hide AddressOk, KeyOf, OverflowEntry, InWindow;
      var ovf := if side == 'B' then overflowBid else overflowAsk;
      if price in ovf {
        return ovf[price];
      }
      l := |levels|;
      levels := levels + [EMPTY_LEVEL];
      lists := lists + [[]];
      overflowSide := overflowSide + [side];
      prices := prices + [price];
      if side == 'B' {
        overflowBid := overflowBid[price := l];
      } else {
        overflowAsk := overflowAsk[price := l];
      }
    }

    method LinkOrder(l: nat, idx: uint32, qty: uint32)
      requires Sized(Picture()) && l < |levels| && idx < pool.slots.Length
      requires Apart() && (levels[l].tail == NULL_IDX || levels[l].tail < pool.slots.Length)
      modifies this, occupied, pool.slots
      ensures Picture() == LinkedImage(old(Picture()), l, idx, qty)
      ensures pool.slots[..] == LinkSlots(old(pool.slots[..]), old(levels[l]), l, idx, qty)
      ensures prices == old(prices)
    {
      hide AddressOk, Wrap32, Shift, WithBit;
      ghost var s, occ := pool.slots[..], occupied[..];
      var lvl := levels[l];
      var slots := pool.slots;
      slots[idx] := PooledOrder(NULL_IDX, lvl.tail, qty, l);
      if lvl.tail != NULL_IDX {
        slots[lvl.tail] := slots[lvl.tail].(next := idx);
      } else {
        lvl := lvl.(head := idx);
      }
      assert slots[..] == LinkSlots(s, levels[l], l, idx, qty);
      lvl := lvl.(tail := idx);
      lvl := lvl.(orderCount := Wrap32(lvl.orderCount + 1));
      lvl := lvl.(totalQty := Wrap32(lvl.totalQty + qty));
      levels := levels[l := lvl];
      lists := lists[l := lists[l] + [idx as int]];
      if l < FIRST_OVERFLOW {
        occupied[l / 64] := WithBit(occupied[l / 64], Shift(l % 64));
        assert occupied[..] == SetAt(occ, l);
      }
      if l < ASK_BASE {
        if l > bestBidIdx {
          bestBidIdx := l;
        }
      } else if l < FIRST_OVERFLOW {
        if bestAskIdx < 0 || l < bestAskIdx {
          bestAskIdx := l;
        }
      }
    }

    method UnlinkOrder(idx: uint32, ghost l: nat, ghost i: nat)
      requires Valid() && l < |lists| && i < |lists[l]| && lists[l][i] == idx
      modifies this, occupied, pool.slots
      ensures 0 <= idx < pool.slots.Length && UnlinkableAt(old(pool.slots[..]), idx)
      ensures IsUnlinkedImage(old(Picture()), l, i, old(pool.slots[..]), Picture())
      ensures pool.slots[..] == UnlinkSlots(old(pool.slots[..]), idx)
      ensures prices == old(prices) && |levels| == old(|levels|)
    {
      hide AddressOk, Wrap32, Linked, Owns, Covers, BitsAgree, Placed, LevelOf, KeyOf, ClearAt, NearestBelow,
        NearestAbove;
      ghost var g, s := Picture(), pool.slots[..];
      ListedSlot(g, s, l, i);
      var o := pool.slots[idx];
      var lvl := Detach(idx, levels[o.level]);
      levels := levels[o.level := lvl];
      lists := lists[l := Without(lists[l], i)];
      if lvl.head == NULL_IDX {
        LevelEmptied(o.level);
      }
    }

    // Joins the neighbours of a slot; returns its level without it.
    method Detach(idx: uint32, was: PriceLevel) returns (lvl: PriceLevel)
      requires UnlinkableAt(pool.slots[..], idx)
      modifies pool.slots
      ensures pool.slots[..] == UnlinkSlots(old(pool.slots[..]), idx)
      ensures lvl == UnlinkLevel(was, old(pool.slots[idx]))
    {
      hide Wrap32;
      ghost var s := pool.slots[..];
      var slots := pool.slots;
      var o := slots[idx];
      lvl := was;
      if o.prev != NULL_IDX {
        slots[o.prev] := slots[o.prev].(next := o.next);
      } else {
        lvl := lvl.(head := o.next);
      }
      if o.next != NULL_IDX {
        slots[o.next] := slots[o.next].(prev := o.prev);
      } else {
        lvl := lvl.(tail := o.prev);
      }
      lvl := lvl.(totalQty := Wrap32(lvl.totalQty - o.qty));
      lvl := lvl.(orderCount := Wrap32(lvl.orderCount - 1));
      assert slots[..] == UnlinkSlots(s, idx);
    }

    // Clears the bit of a level that lost its last order and rescans a cache
    // that pointed at it.
    method LevelEmptied(l: nat)
      requires occupied.Length == WORDS && bestBidIdx < ASK_BASE && bestAskIdx < FIRST_OVERFLOW
      modifies this`bestBidIdx, this`bestAskIdx, occupied
      ensures occupied[..] == if l < FIRST_OVERFLOW then ClearAt(old(occupied[..]), l) else old(occupied[..])
      ensures if l == old(bestBidIdx) then NearestBelow(occupied[..], old(bestBidIdx), bestBidIdx)
              else bestBidIdx == old(bestBidIdx)
      ensures if l == old(bestAskIdx) then NearestAbove(occupied[..], old(bestAskIdx), bestAskIdx)
              else bestAskIdx == old(bestAskIdx)
    {
      hide WithoutBit, Shift, NearestBelow, NearestAbove;
      if l < FIRST_OVERFLOW {
        ghost var occ := occupied[..];
        occupied[l / 64] := WithoutBit(occupied[l / 64], Shift(l % 64));
        assert occupied[..] == ClearAt(occ, l);
      }
      if l == bestBidIdx {
        bestBidIdx := FindPrevSet(occupied, bestBidIdx);
      }
      if l == bestAskIdx {
        bestAskIdx := FindNextSet(occupied, bestAskIdx);
      }
    }

    // Unlinks an order, releases its slot and erases its reference.
    method RemoveOrder(idx: uint32, ref: uint64, ghost e: Effect)
      requires SharedOk(pool, refs) && Valid()
      requires ref in refs.Contents && refs.Contents[ref] == idx && idx in pool.live && pool.live[idx].book == this
      requires 0 <= idx < pool.slots.Length ==> After(e, Order(ref, pool.slots[idx].qty)) == []
      modifies this, occupied, pool, pool.slots, refs, refs.slots
      ensures SharedOk(pool, refs) && Valid()
      ensures View() == SweepBook(old(View()), ref, e)
      ensures refs.Contents == old(refs.Contents) - {ref} && pool.live == old(pool.live) - {idx as int}
      ensures pool.free == [idx as int] + old(pool.free)
      ensures OnlyMine(this, old(pool.slots[..]), old(pool.live), pool.slots[..], pool.live)
      ensures prices == old(prices) && |levels| == old(|levels|)
    {
      hide BookOkBut, ViewOf, SweepBook, Layout, UnlinkSlots, After, FreeChain, Partition, RefsDiffer, TableAgrees;
      ghost var g, s, live := Picture(), pool.slots[..], pool.live;
      RemovalShared(live, refs.Contents, ref);
      ghost var l, i := WhereListed(g, this, s, live, {}, idx);
      UnlinkOrder(idx, l, i);
      ghost var h, t := Picture(), pool.slots[..];
      UnlinkStep(g, l, i, e, this, s, live, h);
      ChainKept(s, t, pool.freeHead, pool.free, live);
      pool.Release(idx);
      ReleaseStep(h, this, t, pool.slots[..], live, idx);
      OnlyMineTwice(this, s, live, t, live, pool.slots[..], pool.live);
      refs.Erase(ref);
    }

    // Allocates a slot, links it at its level and enters its reference.
    method PlaceOrder(ref: uint64, side: char, shares: uint32, price: uint32)
      requires SharedOk(pool, refs) && Valid() && ref < U64 - 1 && Unused(pool.live, ref) && |levels| < MAX_LEVELS
      modifies this, occupied, pool, pool.slots, refs, refs.slots
      ensures SharedOk(pool, refs) && Valid()
      ensures OnlyMine(this, old(pool.slots[..]), old(pool.live), pool.slots[..], pool.live)
      ensures prices == old(prices) || prices == old(prices) + [price]
      ensures old(pool.free) == [] ==>
                && View() == old(View()) && pool.free == [] && pool.live == old(pool.live)
                && refs.Contents == old(refs.Contents)
      ensures old(pool.free) != [] ==>
                && View() == Join(old(View()), ref, Key(side == 'B', price), shares)
                && pool.free == old(pool.free)[1..]
                && pool.live == old(pool.live)[old(pool.free)[0] := Tag(this, ref)]
                && 0 <= old(pool.free)[0] < pool.slots.Length
                && refs.Contents == if 2 * old(refs.size) >= refs.slots.Length then old(refs.Contents)
                                    else old(refs.Contents)[ref := old(pool.free)[0]]
    {
      hide BookOkBut, ViewOf, Join, Layout, LinkSlots, LinkedImage, Widened, FreeChain, RefsDiffer, TableAgrees,
        Unused, LevelOf;
      ghost var g, s, live := Picture(), pool.slots[..], pool.live;
      var idx := pool.Allocate(Tag(this, ref));
      if idx == NULL_IDX {
        OnlyMineSame(this, s, live);
        return;
      }
      AllocateStep(g, this, s, live, idx, ref, refs.Contents);
      var l := LevelFor(price, side);
      ghost var h := Picture();
      WidenStep(g, price, side, this, s, pool.live, {idx as int});
      LinkStep(h, Key(side == 'B', price), idx, shares, this, s, pool.live);
      LinkOrder(l, idx, shares);
      ChainKept(s, pool.slots[..], pool.freeHead, pool.free, pool.live);
      OnlyMineTwice(this, s, live, s, pool.live, pool.slots[..], pool.live);
      InsertShared(pool.live, refs.Contents, ref, idx);
      refs.Insert(ref, idx);
    }

    method AddOrder(ref: uint64, side: char, shares: uint32, price: uint32)
      requires SharedOk(pool, refs) && Valid() && ref < U64 - 1 && Unused(pool.live, ref) && |levels| < MAX_LEVELS
      modifies this, occupied, pool, pool.slots, refs, refs.slots
      ensures SharedOk(pool, refs) && Valid()
      ensures OnlyMine(this, old(pool.slots[..]), old(pool.live), pool.slots[..], pool.live)
      ensures prices == old(prices) || prices == old(prices) + [price]
      ensures old(pool.free) == [] ==>
                View() == old(View()) && pool.live == old(pool.live) && refs.Contents == old(refs.Contents)
      ensures old(pool.free) != [] ==>
                pool.live == old(pool.live)[old(pool.free)[0] := Tag(this, ref)] && pool.free == old(pool.free)[1..]
      ensures refs.Contents == if old(pool.free) != [] && 2 * old(refs.size) < refs.slots.Length
                               then old(refs.Contents)[ref := old(pool.free)[0]] else old(refs.Contents)
      ensures refs.Contents.Keys == old(refs.Contents.Keys)
                + if old(pool.free) != [] && 2 * old(refs.size) < refs.slots.Length then {ref} else {}
      // The order joins its queue exactly when a slot is free, and can be found
      // again exactly when the table is below half load as well.
      ensures old(pool.free) != [] <==> View() == Join(old(View()), ref, Key(side == 'B', price), shares)
      ensures old(pool.free) != [] && 2 * old(refs.size) < refs.slots.Length <==> ref in refs.Contents
      ensures old(AllIndexed(pool.live, refs.Contents)) ==>
                (AllIndexed(pool.live, refs.Contents) <==>
                   old(pool.free) == [] || 2 * old(refs.size) < refs.slots.Length)
    {
      hide BookOkBut, ViewOf, Join, Layout, FreeChain, Partition, RefsDiffer, TableAgrees, AllIndexed, Unused, OnlyMine;
      ghost var live, table := pool.live, refs.Contents;
      JoinChanges(View(), ref, Key(side == 'B', price), shares);
      PlaceOrder(ref, side, shares, price);
      AddedToTable(live, table, ref);
      if old(pool.free) != [] {
        AllIndexedAfterAdd(live, table, old(pool.free)[0], Tag(this, ref));
      }
    }

    // The reference, if the table knows it, is one of this book's orders.
    ghost predicate Mine(ref: uint64)
      reads this, pool, refs
    {
      ref in refs.Contents ==> refs.Contents[ref] in pool.live && pool.live[refs.Contents[ref]].book == this
    }

    // Executions and cancellations run the same statements on their share count.
    method Reduce(ref: uint64, n: uint32)
      requires SharedOk(pool, refs) && Valid() && ref < U64 - 1 && Mine(ref)
      modifies this, occupied, pool, pool.slots, refs, refs.slots
      ensures SharedOk(pool, refs) && Valid()
      ensures View() == if ref in old(refs.Contents) then SweepBook(old(View()), ref, Take(n)) else old(View())
      ensures refs.Contents == if Live(View(), ref) then old(refs.Contents) else old(refs.Contents) - {ref}
      ensures OnlyMine(this, old(pool.slots[..]), old(pool.live), pool.slots[..], pool.live)
      ensures old(AllIndexed(pool.live, refs.Contents)) ==> AllIndexed(pool.live, refs.Contents)
      ensures prices == old(prices)
    {
      hide BookOkBut, ViewOf, SweepBook, Layout, FreeChain, RefsDiffer, TableAgrees, AllIndexed, Live;
      var idx := refs.Find(ref);
      ghost var s, live := pool.slots[..], pool.live;
      KnownIsNotNull(pool.slots.Length, pool.free, live, refs.Contents, ref);
      if idx == NULL_IDX {
        OnlyMineSame(this, s, live);
        return;
      }
      RemovalShared(live, refs.Contents, ref);
      if n >= pool.slots[idx].qty {
        RemoveOrder(idx, ref, Take(n));
        GoneFromView(live, idx, ref);
      } else {
        TakeShares(idx, ref, n);
      }
    }

    // Lowers an order's shares and its level's total alike.
    method TakeShares(idx: uint32, ref: uint64, n: uint32)
      requires SharedOk(pool, refs) && Valid()
      requires idx in pool.live && pool.live[idx] == Tag(this, ref)
      requires 0 <= idx < pool.slots.Length ==> n < pool.slots[idx].qty
      modifies this`levels, pool.slots
      ensures SharedOk(pool, refs) && Valid()
      ensures View() == SweepBook(old(View()), ref, Take(n)) && Live(View(), ref)
      ensures OnlyMine(this, old(pool.slots[..]), pool.live, pool.slots[..], pool.live)
    {
      hide BookOkBut, ViewOf, SweepBook, Layout, FreeChain, RefsDiffer, TableAgrees, Live;
      ghost var g, s, live := Picture(), pool.slots[..], pool.live;
      ghost var l, i := WhereListed(g, this, s, live, {}, idx);
      ReduceStep(g, l, i, n, this, s, live);
      var o := pool.slots[idx];
      levels := levels[o.level := levels[o.level].(totalQty := Wrap32(levels[o.level].totalQty - n))];
      pool.slots[idx] := o.(qty := o.qty - n);
      assert pool.slots[..] == s[idx := s[idx].(qty := s[idx].qty - n)];
      ChainKept(s, pool.slots[..], pool.freeHead, pool.free, live);
      StaysInView(idx, ref);
    }

    lemma GoneFromView(was: Tags, x: int, ref: uint64)
      requires Valid() && RefsDiffer(was) && x in was && was[x].ref == ref && pool.live == was - {x}
      ensures !Live(View(), ref)
    {
      hide BookOkBut, ViewOf, Live;
      ViewRefs(Picture(), this, pool.slots[..], pool.live, ref);
    }

    lemma StaysInView(x: int, ref: uint64)
      requires Valid() && x in pool.live && pool.live[x] == Tag(this, ref)
      ensures Live(View(), ref)
    {
      hide BookOkBut, ViewOf, Live;
      ViewRefs(Picture(), this, pool.slots[..], pool.live, ref);
    }

    method ExecuteOrder(ref: uint64, executedShares: uint32)
      requires SharedOk(pool, refs) && Valid() && ref < U64 - 1 && Mine(ref)
      modifies this, occupied, pool, pool.slots, refs, refs.slots
      ensures SharedOk(pool, refs) && Valid()
      ensures View() ==
              if ref in old(refs.Contents) then SweepBook(old(View()), ref, Take(executedShares)) else old(View())
      ensures refs.Contents == if Live(View(), ref) then old(refs.Contents) else old(refs.Contents) - {ref}
      ensures OnlyMine(this, old(pool.slots[..]), old(pool.live), pool.slots[..], pool.live)
      ensures old(AllIndexed(pool.live, refs.Contents)) ==> AllIndexed(pool.live, refs.Contents)
      ensures prices == old(prices)
    {
      Reduce(ref, executedShares);
    }

    method CancelOrder(ref: uint64, canceledShares: uint32)
      requires SharedOk(pool, refs) && Valid() && ref < U64 - 1 && Mine(ref)
      modifies this, occupied, pool, pool.slots, refs, refs.slots
      ensures SharedOk(pool, refs) && Valid()
      ensures View() ==
              if ref in old(refs.Contents) then SweepBook(old(View()), ref, Take(canceledShares)) else old(View())
      ensures refs.Contents == if Live(View(), ref) then old(refs.Contents) else old(refs.Contents) - {ref}
      ensures OnlyMine(this, old(pool.slots[..]), old(pool.live), pool.slots[..], pool.live)
      ensures old(AllIndexed(pool.live, refs.Contents)) ==> AllIndexed(pool.live, refs.Contents)
      ensures prices == old(prices)
    {
      Reduce(ref, canceledShares);
    }

    method DeleteOrder(ref: uint64)
      requires SharedOk(pool, refs) && Valid() && ref < U64 - 1 && Mine(ref)
      modifies this, occupied, pool, pool.slots, refs, refs.slots
      ensures SharedOk(pool, refs) && Valid()
      ensures View() == if ref in old(refs.Contents) then SweepBook(old(View()), ref, Drop) else old(View())
      ensures refs.Contents == old(refs.Contents) - {ref}
      ensures OnlyMine(this, old(pool.slots[..]), old(pool.live), pool.slots[..], pool.live)
      ensures old(AllIndexed(pool.live, refs.Contents)) ==> AllIndexed(pool.live, refs.Contents)
      ensures prices == old(prices)
    {
      hide BookOkBut, ViewOf, SweepBook, Layout, FreeChain, RefsDiffer, TableAgrees, AllIndexed;
      var idx := refs.Find(ref);
      ghost var s, live := pool.slots[..], pool.live;
      KnownIsNotNull(pool.slots.Length, pool.free, live, refs.Contents, ref);
      if idx == NULL_IDX {
        OnlyMineSame(this, s, live);
        return;
      }
      RemovalShared(live, refs.Contents, ref);
      RemoveOrder(idx, ref, Drop);
    }

    // A replaced order is never lost: whatever the pool and the table hold, the
    // slot it frees is the one it takes again, and its new reference is entered.
    method ReplaceOrder(originalRef: uint64, newRef: uint64, shares: uint32, price: uint32)
      requires SharedOk(pool, refs) && Valid() && |levels| < MAX_LEVELS
      requires originalRef < U64 - 1 && newRef < U64 - 1 && Mine(originalRef)
      requires newRef == originalRef || Unused(pool.live, newRef)
      modifies this, occupied, pool, pool.slots, refs, refs.slots
      ensures SharedOk(pool, refs) && Valid()
      ensures originalRef !in old(refs.Contents) ==>
                View() == old(View()) && pool.live == old(pool.live) && refs.Contents == old(refs.Contents)
      ensures originalRef in old(refs.Contents) ==>
                var x := old(refs.Contents)[originalRef];
                && View() == Join(SweepBook(old(View()), originalRef, Drop), newRef,
                                  Key(IsBid(old(View()), originalRef), price), shares)
                && pool.live == old(pool.live)[x := Tag(this, newRef)] && pool.free == old(pool.free)
                && refs.Contents == (old(refs.Contents) - {originalRef})[newRef := x]
      ensures OnlyMine(this, old(pool.slots[..]), old(pool.live), pool.slots[..], pool.live)
      ensures old(AllIndexed(pool.live, refs.Contents)) ==> AllIndexed(pool.live, refs.Contents)
      ensures prices == old(prices) || prices == old(prices) + [price]
    {
      hide BookOkBut, ViewOf, SweepBook, Join, Layout, FreeChain, RefsDiffer, TableAgrees, AllIndexed, OnlyMine,
        Unused, KeyOf, IsBid;
      var oldIdx := refs.Find(originalRef);
      ghost var g, s, live := Picture(), pool.slots[..], pool.live;
      KnownIsNotNull(pool.slots.Length, pool.free, live, refs.Contents, originalRef);
      if oldIdx == NULL_IDX {
        OnlyMineSame(this, s, live);
        return;
      }
      RemovalShared(live, refs.Contents, originalRef);
      ghost var l, i := WhereListed(g, this, s, live, {}, oldIdx);
      ListedSide(g, this, s, live, l, i);
      var side := SideOf(pool.slots[oldIdx].level);
      MoveOrder(oldIdx, originalRef, newRef, side, shares, price);
    }

    // The highest live bid: the window's cached one against the highest overflow
    // level that has not emptied.
    method BestBid() returns (best: Option<uint32>)
      requires SharedOk(pool, refs) && Valid()
      ensures match best case None => SideEmpty(View(), true) case Some(p) => HighestBid(View(), p)
    {
      hide ViewOf, KeyOf, LevelOf, AddressOk, AllLinked, Owns, Covers, BitsAgree, Placed, BidCached, AskCached,
        FreeChain, Layout;
      ghost var g, s, live := Picture(), pool.slots[..], pool.live;
      WindowBid(g, s, live);
      assert bestBidIdx < ASK_BASE by { CachesInRange(g); }
      best := None;
      if bestBidIdx >= 0 {
        var p := PriceOf(bestBidIdx);
        best := Some(p);
      }
      ghost var cached := best;
      var rest := overflowBid.Keys;
      while rest != {}
        invariant rest <= overflowBid.Keys && best == cached
        invariant forall q :: q in overflowBid && q !in rest ==> Key(true, q) !in View()
        decreases rest
      {
        var p := Greatest(rest);
        OverflowInView(g, s, live, true, p);
        if levels[overflowBid[p]].head != NULL_IDX {
          if best.None? || p > best.value {
            best := Some(p);
          }
          return;
        }
        rest := rest - {p};
      }
    }

    // The lowest live ask, likewise.
    method BestAsk() returns (best: Option<uint32>)
      requires SharedOk(pool, refs) && Valid()
      ensures match best case None => SideEmpty(View(), false) case Some(p) => LowestAsk(View(), p)
    {
      hide ViewOf, KeyOf, LevelOf, AddressOk, AllLinked, Owns, Covers, BitsAgree, Placed, BidCached, AskCached,
        FreeChain, Layout;
      ghost var g, s, live := Picture(), pool.slots[..], pool.live;
      WindowAsk(g, s, live);
      assert bestAskIdx < FIRST_OVERFLOW by { CachesInRange(g); }
      best := None;
      if bestAskIdx >= 0 {
        var p := PriceOf(bestAskIdx);
        best := Some(p);
      }
      ghost var cached := best;
      var rest := overflowAsk.Keys;
      while rest != {}
        invariant rest <= overflowAsk.Keys && best == cached
        invariant forall q :: q in overflowAsk && q !in rest ==> Key(false, q) !in View()
        decreases rest
      {
        var p := Least(rest);
        OverflowInView(g, s, live, false, p);
        if levels[overflowAsk[p]].head != NULL_IDX {
          if best.None? || p < best.value {
            best := Some(p);
          }
          return;
        }
        rest := rest - {p};
      }
    }

    method BestBidAsk() returns (top: Option<(uint32, uint32)>)
      requires SharedOk(pool, refs) && Valid()
      ensures IsTop(View(), top)
    {
      hide ViewOf, BookOkBut, FreeChain, Layout;
      var bid := BestBid();
      var ask := BestAsk();
      if bid.None? || ask.None? {
        return None;
      }
      return Some((bid.value, ask.value));
    }

    // Takes an order out and enters its replacement in the slot it leaves.
    method MoveOrder(idx: uint32, ref: uint64, newRef: uint64, side: char, shares: uint32, price: uint32)
      requires SharedOk(pool, refs) && Valid() && |levels| < MAX_LEVELS && newRef < U64 - 1
      requires ref in refs.Contents && refs.Contents[ref] == idx && idx in pool.live && pool.live[idx].book == this
      requires newRef == ref || Unused(pool.live, newRef)
      modifies this, occupied, pool, pool.slots, refs, refs.slots
      ensures SharedOk(pool, refs) && Valid()
      ensures View() == Join(SweepBook(old(View()), ref, Drop), newRef, Key(side == 'B', price), shares)
      ensures pool.live == old(pool.live)[idx as int := Tag(this, newRef)] && pool.free == old(pool.free)
      ensures refs.Contents == (old(refs.Contents) - {ref})[newRef := idx]
      ensures OnlyMine(this, old(pool.slots[..]), old(pool.live), pool.slots[..], pool.live)
      ensures old(AllIndexed(pool.live, refs.Contents)) ==> AllIndexed(pool.live, refs.Contents)
      ensures prices == old(prices) || prices == old(prices) + [price]
    {
      hide BookOkBut, ViewOf, SweepBook, Join, Layout, FreeChain, Partition, RefsDiffer, TableAgrees, AllIndexed,
        OnlyMine, Unused;
      ghost var s, live, table := pool.slots[..], pool.live, refs.Contents;
      RemovalShared(live, table, ref);
      RemoveOrder(idx, ref, Drop);
      UnusedAfterRemoval(live, idx, ref, newRef);
      ghost var t, live1 := pool.slots[..], pool.live;
      PlaceOrder(newRef, side, shares, price);
      OnlyMineTwice(this, s, live, t, live1, pool.slots[..], pool.live);
      assert pool.live == live[idx as int := Tag(this, newRef)];
      AllIndexedAfterReplace(live, table, ref, newRef, Tag(this, newRef));
    }
  }

  lemma CachesInRange(g: Image)
    requires BidCached(g) && AskCached(g)
    ensures g.bestBid < ASK_BASE && g.bestAsk < FIRST_OVERFLOW
  {
  }

  lemma KnownIsNotNull(n: nat, free: seq<int>, live: Tags, table: map<uint64, uint32>, ref: uint64)
    requires n <= NULL_IDX && Partition(n, free, live) && TableAgrees(live, table)
    ensures ref in table ==> table[ref] != NULL_IDX
  {
  }

  lemma AllIndexedAfterReplace(live: Tags, table: map<uint64, uint32>, ref: uint64, newRef: uint64, tag: Tag)
    requires RefsDiffer(live) && TableAgrees(live, table) && ref in table && tag.ref == newRef
    ensures AllIndexed(live, table) ==>
              AllIndexed(live[table[ref] as int := tag], (table - {ref})[newRef := table[ref]])
  {
  }

  lemma AddedToTable(live: Tags, table: map<uint64, uint32>, ref: uint64)
    requires TableAgrees(live, table) && Unused(live, ref)
    ensures ref !in table && forall x: uint32 {:trigger table[ref := x]} :: table[ref := x].Keys == table.Keys + {ref}
  {
  }

  lemma AllIndexedAfterAdd(live: Tags, table: map<uint64, uint32>, x: int, tag: Tag)
    requires TableAgrees(live, table) && Unused(live, tag.ref) && 0 <= x < U32
    ensures !AllIndexed(live[x := tag], table)
    ensures AllIndexed(live, table) ==> AllIndexed(live[x := tag], table[tag.ref := x])
  {
    AddedToTable(live, table, tag.ref);
    assert live[x := tag][x] == tag;
  }

  lemma UnusedAfterRemoval(live: Tags, x: int, ref: uint64, newRef: uint64)
    requires RefsDiffer(live) && x in live && live[x].ref == ref && (newRef == ref || Unused(live, newRef))
    ensures Unused(live - {x}, newRef)
  {
  }

  // The side read off a listed slot's level is the side of its order.
  lemma ListedSide(g: Image, me: object, s: seq<PooledOrder>, live: Tags, l: nat, i: nat)
    requires BookOk(g, me, s, live) && RefsDiffer(live) && l < |g.lists| && i < |g.lists[l]|
    ensures Sized(g) && g.lists[l][i] in live
    ensures IsBid(ViewOf(g, s, live), live[g.lists[l][i]].ref) <==> KeyOf(g.addr, l).bid
  {
    var b: Book, k, ref := ViewOf(g, s, live), KeyOf(g.addr, l), live[g.lists[l][i]].ref;
    ListedInView(g, me, s, live, l, i);
    ViewIsWellFormed(g, me, s, live, {});
    hide KeyOf, ViewOf, BookOkBut;
    assert b[k][i].ref == ref;
    assert Has(b[k], ref);
    forall m | m in b && Has(b[m], ref)
      ensures m == k
    {
      var j :| 0 <= j < |b[m]| && b[m][j].ref == ref;
    }
  }

  lemma ListedInView(g: Image, me: object, s: seq<PooledOrder>, live: Tags, l: nat, i: nat)
    requires BookOk(g, me, s, live) && l < |g.lists| && i < |g.lists[l]|
    ensures var k, b := KeyOf(g.addr, l), ViewOf(g, s, live);
            var x := g.lists[l][i];
            k in b && |b[k]| == |g.lists[l]| && x in live && b[k][i].ref == live[x].ref
  {
    var k := KeyOf(g.addr, l);
    ActiveLevel(g, l);
    QueueOfView(g, s, live, k);
    ListedOrder(g, me, s, live, l, i);
  }

  lemma ReduceStep(g: Image, l: nat, i: nat, n: uint32, me: object, s: seq<PooledOrder>, live: Tags)
    requires BookOk(g, me, s, live) && RefsDiffer(live) && l < |g.lists| && i < |g.lists[l]|
    requires g.lists[l][i] in live && 0 <= g.lists[l][i] < |s| && n < s[g.lists[l][i]].qty
    ensures var x := g.lists[l][i];
            var t := s[x := s[x].(qty := s[x].qty - n)];
            && l < |g.levels|
            && BookOk(ReducedImage(g, l, n), me, t, live)
            && Sized(g) && Sized(ReducedImage(g, l, n))
            && ViewOf(ReducedImage(g, l, n), t, live) == SweepBook(ViewOf(g, s, live), live[x].ref, Take(n))
            && OnlyMine(me, s, live, t, live)
  {
    ReducedOk(g, l, i, n, me, s, live);
    ReducedView(g, l, i, n, me, s, live);
    hide AllLinked, Sized, BitsAgree, BidCached, AskCached, Placed, Covers, ViewOf, SweepBook;
    assert live[g.lists[l][i]].book == me;
  }

  lemma OnlyMineSame(me: object, s: seq<PooledOrder>, live: Tags)
    ensures OnlyMine(me, s, live, s, live)
  {
  }

  // Tagging a fresh slot for a reference that no live order carries.
  lemma AllocateStep(g: Image, me: object, s: seq<PooledOrder>, live: Tags, x: int, ref: uint64,
                     table: map<uint64, uint32>)
    requires BookOk(g, me, s, live) && x !in live && RefsDiffer(live) && TableAgrees(live, table) && Unused(live, ref)
    ensures var live' := live[x := Tag(me, ref)];
            && Sized(g) && BookOkBut(g, me, s, live', {x}) && ViewOf(g, s, live') == ViewOf(g, s, live)
            && RefsDiffer(live') && TableAgrees(live', table) && OnlyMine(me, s, live, s, live')
  {
    hide ViewOf, AllLinked, Owns, Covers, BitsAgree, BidCached, AskCached, Placed, Sized, RefsDiffer, TableAgrees,
      Unused, OnlyMine;
    AllocatedOk(g, me, s, live, x, Tag(me, ref));
    AllocatedView(g, s, live, x, Tag(me, ref));
    AllocatedShared(me, s, live, x, ref, table);
  }

  lemma AllocatedShared(me: object, s: seq<PooledOrder>, live: Tags, x: int, ref: uint64, table: map<uint64, uint32>)
    requires x !in live && RefsDiffer(live) && TableAgrees(live, table) && Unused(live, ref)
    ensures var live' := live[x := Tag(me, ref)];
            RefsDiffer(live') && TableAgrees(live', table) && OnlyMine(me, s, live, s, live')
  {
  }

  lemma WidenStep(g: Image, price: uint32, side: char, me: object, s: seq<PooledOrder>, live: Tags, skip: set<int>)
    requires BookOkBut(g, me, s, live, skip) && |g.levels| < MAX_LEVELS
    ensures var h := Widened(g, price, side);
            && Sized(h) && BookOkBut(h, me, s, live, skip) && ViewOf(h, s, live) == ViewOf(g, s, live)
            && LevelOf(h.addr, Key(side == 'B', price)).Some? && |g.levels| <= |h.levels| <= |g.levels| + 1
  {
    hide ViewOf, AllLinked, Owns, Covers, BitsAgree, BidCached, AskCached, Placed, AddressOk, LevelOf, Unlisted;
    WidenedOk(g, price, side, me, s, live, skip);
    WidenedView(g, price, side, s, live);
    WidenedLists(g, price, side);
  }

  lemma LinkStep(g: Image, k: Key, idx: uint32, qty: uint32, me: object, s: seq<PooledOrder>, live: Tags)
    requires BookOkBut(g, me, s, live, {idx as int}) && idx < |s| && idx in live && live[idx].book == me
    requires LevelOf(g.addr, k).Some?
    ensures var l := LevelOf(g.addr, k).value;
            && l < |g.lists| && (g.levels[l].tail == NULL_IDX || g.levels[l].tail < |s|)
            && var t := LinkSlots(s, g.levels[l], l, idx, qty);
            && BookOk(LinkedImage(g, l, idx, qty), me, t, live)
            && ViewOf(LinkedImage(g, l, idx, qty), t, live) == Join(ViewOf(g, s, live), live[idx].ref, k, qty)
            && OnlyMine(me, s, live, t, live)
            && (forall y :: 0 <= y < |s| && y !in live ==> t[y] == s[y])
  {
    LinkedView(g, k, idx, qty, me, s, live);
    LinkMine(g, LevelOf(g.addr, k).value, idx, qty, me, s, live);
  }

  lemma LinkMine(g: Image, l: nat, idx: uint32, qty: uint32, me: object, s: seq<PooledOrder>, live: Tags)
    requires AllLinked(g, s) && Owns(g, me, live) && l < |g.lists| < U32 && idx < |s| && idx in live
             && live[idx].book == me
    requires g.levels[l].tail == NULL_IDX || g.levels[l].tail < |s|
    ensures var t := LinkSlots(s, g.levels[l], l, idx, qty);
            && OnlyMine(me, s, live, t, live)
            && (forall y :: 0 <= y < |s| && y !in live ==> t[y] == s[y])
  {
    assert Linked(s, g.levels[l], l, g.lists[l]);
    hide Wrap32, Shares, Chained, NoRepeats;
    var t := LinkSlots(s, g.levels[l], l, idx, qty);
    forall y | 0 <= y < |s| && (y in live ==> live[y].book != me)
      ensures t[y] == s[y]
    {
      if g.lists[l] != [] {
        assert g.lists[l][|g.lists[l]| - 1] != y;
      }
    }
  }

  // Entering the reference of a live slot keeps the table in agreement.
  lemma InsertShared(live: Tags, table: map<uint64, uint32>, ref: uint64, idx: uint32)
    requires TableAgrees(live, table) && idx in live && live[idx].ref == ref
    ensures TableAgrees(live, table[ref := idx])
  {
  }

  lemma ChainKept(s: seq<PooledOrder>, t: seq<PooledOrder>, head: uint32, free: seq<int>, live: Tags)
    requires FreeChain(s, head, free) && Partition(|s|, free, live) && |t| == |s|
    requires forall y :: 0 <= y < |s| && y !in live ==> t[y] == s[y]
    ensures FreeChain(t, head, free)
  {
    FreeChainFrame(s, t, head, free);
  }

  // A removed reference takes its slot with it.
  lemma RemovalShared(live: Tags, table: map<uint64, uint32>, ref: uint64)
    requires RefsDiffer(live) && TableAgrees(live, table) && ref in table
    ensures table[ref] in live && live[table[ref]].ref == ref
    ensures RefsDiffer(live - {table[ref] as int}) && TableAgrees(live - {table[ref] as int}, table - {ref})
    ensures AllIndexed(live, table) ==> AllIndexed(live - {table[ref] as int}, table - {ref})
  {
  }

  // Unlinking, as a step of the whole invariant: it touches only slots of this book.
  lemma UnlinkStep(g: Image, l: nat, i: nat, e: Effect, me: object, s: seq<PooledOrder>, live: Tags, h: Image)
    requires BookOk(g, me, s, live) && RefsDiffer(live) && l < |g.lists| && i < |g.lists[l]|
    requires var x := g.lists[l][i];
             && x in live && 0 <= x < |s| && IsUnlinkedImage(g, l, i, s, h)
             && After(e, Order(live[x].ref, s[x].qty)) == []
    ensures var x := g.lists[l][i];
            && UnlinkableAt(s, x) && BookOkBut(h, me, UnlinkSlots(s, x), live, {x})
            && ViewOf(h, UnlinkSlots(s, x), live) == SweepBook(ViewOf(g, s, live), live[x].ref, e)
            && OnlyMine(me, s, live, UnlinkSlots(s, x), live)
            && (forall y :: 0 <= y < |s| && y !in live ==> UnlinkSlots(s, x)[y] == s[y])
  {
    hide ViewOf, SweepBook, UnlinkSlots, IsUnlinkedImage, BookOkBut, RefsDiffer, OnlyMine, After;
    UnlinkOrderAt(g, me, s, live, l, i);
    UnlinkedOk(g, l, i, me, s, live, h);
    UnlinkedView(g, l, i, e, me, s, live, h);
    UnlinkMine(g, l, i, me, s, live);
  }

  lemma UnlinkOrderAt(g: Image, me: object, s: seq<PooledOrder>, live: Tags, l: nat, i: nat)
    requires BookOk(g, me, s, live) && l < |g.lists| && i < |g.lists[l]|
    ensures var x := g.lists[l][i];
            x in live && 0 <= x < |s| && UnlinkableAt(s, x) && OrderAt(s, live, x) == Order(live[x].ref, s[x].qty)
  {
    ListedOrder(g, me, s, live, l, i);
    ListedSlot(g, s, l, i);
  }

  lemma UnlinkMine(g: Image, l: nat, i: nat, me: object, s: seq<PooledOrder>, live: Tags)
    requires BookOk(g, me, s, live) && l < |g.lists| && i < |g.lists[l]| && UnlinkableAt(s, g.lists[l][i])
    ensures var x := g.lists[l][i];
            && OnlyMine(me, s, live, UnlinkSlots(s, x), live)
            && (forall y :: 0 <= y < |s| && y !in live ==> UnlinkSlots(s, x)[y] == s[y])
  {
    hide UnlinkSlots, Sized, Owns, Linked, BitsAgree, BidCached, AskCached, Placed, Covers, Unlisted;
    forall y | 0 <= y < |s| && (y in live ==> live[y].book != me)
      ensures UnlinkSlots(s, g.lists[l][i])[y] == s[y]
    {
      UnlinkWrites(g, l, i, me, s, live, y);
    }
  }

  lemma UnlinkWrites(g: Image, l: nat, i: nat, me: object, s: seq<PooledOrder>, live: Tags, y: int)
    requires AllLinked(g, s) && Owns(g, me, live) && l < |g.lists| && i < |g.lists[l]|
    requires UnlinkableAt(s, g.lists[l][i]) && 0 <= y < |s| && (y in live ==> live[y].book != me)
    ensures UnlinkSlots(s, g.lists[l][i])[y] == s[y]
  {
    var q := g.lists[l];
    assert Linked(s, g.levels[l], l, q);
    hide Wrap32, Shares;
    assert s[q[i]].level == l;
    if i > 0 {
      assert q[i - 1] != y;
    }
    if i + 1 < |q| {
      assert q[i + 1] != y;
    }
  }

  lemma ReleaseStep(g: Image, me: object, s: seq<PooledOrder>, t: seq<PooledOrder>, live: Tags, x: int)
    requires BookOkBut(g, me, s, live, {x}) && |t| == |s| && x in live && live[x].book == me
    requires forall y :: 0 <= y < |s| && y != x ==> t[y] == s[y]
    ensures BookOk(g, me, t, live - {x}) && ViewOf(g, t, live - {x}) == ViewOf(g, s, live)
    ensures OnlyMine(me, s, live, t, live - {x})
  {
    ReleasedOk(g, me, s, t, live, x);
    ReleasedView(g, s, t, live, x);
  }

  lemma NewImageOk(g: Image, me: object, s: seq<PooledOrder>, live: Tags)
    requires g == NewImage() && |s| <= NULL_IDX && forall x :: x in live ==> live[x].book != me
    ensures BookOk(g, me, s, live) && ViewOf(g, s, live) == map[]
  {
    forall l: nat | l < FIRST_OVERFLOW
      ensures !IsSet(g.occ, l)
    {
      ZeroHasNoBits();
    }
  }

  // What linking makes true of a listed slot and of its level.
  lemma ListedSlot(g: Image, s: seq<PooledOrder>, l: nat, i: nat)
    requires AllLinked(g, s) && l < |g.lists| && i < |g.lists[l]|
    ensures var x, lvl := g.lists[l][i], g.levels[l];
            && 0 <= x < |s| && UnlinkableAt(s, x) && s[x].level == l
            && (|g.lists[l]| == 1 <==> UnlinkLevel(lvl, s[x]).head == NULL_IDX)
  {
    var q := g.lists[l];
    assert Linked(s, g.levels[l], l, q);
    assert s[q[i]].level == l;
    UnlinkRemoves(s, g.levels[l], l, q, i);
    assert |Without(q, i)| == |q| - 1;
    hide Wrap32;
    assert i == 0 && |q| > 1 ==> Without(q, i)[0] == q[1] && q[1] < |s|;
    assert i > 0 ==> Without(q, i)[0] == q[0];
  }
}
