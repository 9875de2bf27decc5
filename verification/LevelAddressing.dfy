/** How the array book names a price level by index: a window of whole-cent
    prices on each side, and overflow levels handed out one by one. */
module LevelAddressing {
  import opened Numbers
  import opened Counting
  import opened BookSpec

  const WINDOW := 1024
  const ASK_BASE := 1024
  const FIRST_OVERFLOW := 2048

  // The addressing state of a book. `prices` is the price each overflow level
  // was created for, which the program keeps only as a key of its map.
  datatype Address = Address(baseSet: bool, base: int, bids: map<uint32, uint32>, asks: map<uint32, uint32>,
                             sides: seq<char>, prices: seq<uint32>)

  function InWindow(base: int, price: uint32): bool {
    price % 100 == 0 && 0 <= price / 100 - base < WINDOW
  }

  ghost function Overflow(a: Address, bid: bool): map<uint32, uint32> {
    if bid then a.bids else a.asks
  }

  // The level that stands for a side and price, if it has been given one.
  ghost function LevelOf(a: Address, k: Key): Option<nat> {
    if !a.baseSet then None
    else if InWindow(a.base, k.price) then
      var off := k.price / 100 - a.base;
      Some(if k.bid then off else ASK_BASE + off)
    else if k.price in Overflow(a, k.bid) then Some(Overflow(a, k.bid)[k.price])
    else None
  }

  // The side and price an index stands for; window prices in 32-bit arithmetic.
  ghost function KeyOf(a: Address, l: nat): Key
    requires |a.sides| == |a.prices| && l < FIRST_OVERFLOW + |a.sides|
  {
    if l < ASK_BASE then Key(true, Wrap32((a.base + l) * 100))
    else if l < FIRST_OVERFLOW then Key(false, Wrap32((a.base + (l - ASK_BASE)) * 100))
    else Key(a.sides[l - FIRST_OVERFLOW] == 'B', a.prices[l - FIRST_OVERFLOW])
  }

  ghost predicate AddressOk(a: Address) {
    && |a.sides| == |a.prices|
    && (!a.baseSet ==> a.sides == [] && a.bids == map[] && a.asks == map[])
    && (a.baseSet ==> -512 <= a.base <= 42949160)
    && (forall j :: 0 <= j < |a.sides| ==>
          && !InWindow(a.base, a.prices[j])
          && a.prices[j] in Overflow(a, a.sides[j] == 'B')
          && Overflow(a, a.sides[j] == 'B')[a.prices[j]] == FIRST_OVERFLOW + j)
    && (forall p :: p in a.bids ==> OverflowEntry(a, true, p, a.bids[p]))
    && (forall p :: p in a.asks ==> OverflowEntry(a, false, p, a.asks[p]))
  }

  ghost predicate OverflowEntry(a: Address, bid: bool, p: uint32, l: uint32) {
    && FIRST_OVERFLOW <= l < FIRST_OVERFLOW + |a.sides| && |a.sides| == |a.prices|
    && a.prices[l - FIRST_OVERFLOW] == p && (a.sides[l - FIRST_OVERFLOW] == 'B') == bid
  }

  // The first price fixes the window, centred on it.
  ghost function WithBase(a: Address, price: uint32): Address {
    if a.baseSet then a else a.(baseSet := true, base := price / 100 - WINDOW / 2)
  }

  // The addressing state after asking for the level of a side and price.
  ghost function Assign(a: Address, price: uint32, side: char): Address
    requires FIRST_OVERFLOW + |a.sides| < U32
  {
    var b := WithBase(a, price);
    if LevelOf(b, Key(side == 'B', price)).Some? then b
    else Grown(b, price, side)
  }

  // Reading an index back gives the side and price it was given out for.
  lemma KeyOfLevelOf(a: Address, k: Key)
    requires AddressOk(a) && LevelOf(a, k).Some?
    ensures var l := LevelOf(a, k).value; l < FIRST_OVERFLOW + |a.sides| && KeyOf(a, l) == k
  {
    if InWindow(a.base, k.price) {
      assert (a.base + (k.price / 100 - a.base)) * 100 == k.price;
    } else {
      assert OverflowEntry(a, k.bid, k.price, Overflow(a, k.bid)[k.price]);
    }
  }

  // Two different (side, price) pairs never share a level.
  lemma LevelsAreInjective(a: Address, k: Key, m: Key)
    requires AddressOk(a) && LevelOf(a, k).Some? && LevelOf(a, k) == LevelOf(a, m)
    ensures k == m
  {
    KeyOfLevelOf(a, k);
    KeyOfLevelOf(a, m);
  }

  // An overflow index is the level of the key it reads back as, and a window
  // index is so exactly when its price fits in 32 bits.
  lemma LevelOfKeyOf(a: Address, l: nat)
    requires AddressOk(a) && a.baseSet && l < FIRST_OVERFLOW + |a.sides|
    ensures LevelOf(a, KeyOf(a, l)) == Some(l) <==>
            (l < FIRST_OVERFLOW ==> 0 <= (a.base + l % WINDOW) * 100 < U32)
  {
    if l < FIRST_OVERFLOW {
      WindowIndex(l);
      WindowReadsBack(a.base + l % WINDOW);
    }
  }

  lemma WindowIndex(l: nat)
    requires l < FIRST_OVERFLOW
    ensures l % WINDOW == if l < ASK_BASE then l else l - ASK_BASE
  {
  }

  // A cent price reads back from 32 bits exactly when it fits in them.
  lemma WindowReadsBack(c: int)
    requires -512 <= c < 42949160 + 1024
    ensures 0 <= c * 100 < U32 ==> Wrap32(c * 100) == c * 100
    ensures !(0 <= c * 100 < U32) ==> Wrap32(c * 100) / 100 != c || Wrap32(c * 100) % 100 != 0
  {
    if !(0 <= c * 100 < U32) {
      WrappedPriceMisses(c);
    }
  }

  // A cent price outside 32 bits wraps to one that is no longer at its offset.
  lemma WrappedPriceMisses(c: int)
    requires !(0 <= c * 100 < U32) && -512 <= c < 42949160 + 1024
    ensures c * 100 % U32 != c * 100
  {
  }

  // Asking for a level keeps the addressing consistent, answers with the level
  // of that key, and changes no answer given before.
  lemma AssignKeeps(a: Address, price: uint32, side: char)
    requires AddressOk(a) && FIRST_OVERFLOW + |a.sides| < U32
    ensures var b, k := Assign(a, price, side), Key(side == 'B', price);
            && AddressOk(b) && b.baseSet && LevelOf(b, k).Some?
            && (forall m :: LevelOf(a, m).Some? ==> LevelOf(b, m) == LevelOf(a, m))
            && (|| (b.sides == a.sides && b.prices == a.prices)
                || (b.sides == a.sides + [side] && b.prices == a.prices + [price]))
            && (a.baseSet ==> b.base == a.base)
            && (forall l :: 0 <= l < FIRST_OVERFLOW + |a.sides| && a.baseSet ==> KeyOf(b, l) == KeyOf(a, l))
  {
    hide AddressOk, Assign, LevelOf, KeyOf, InWindow;
    AssignOk(a, price, side);
    AssignAnswers(a, price, side);
    AssignSize(a, price, side);
    forall m | LevelOf(a, m).Some?
      ensures LevelOf(Assign(a, price, side), m) == LevelOf(a, m)
    {
      AssignKeepsLevel(a, price, side, m);
    }
    forall l | 0 <= l < FIRST_OVERFLOW + |a.sides| && a.baseSet
      ensures KeyOf(Assign(a, price, side), l) == KeyOf(a, l)
    {
      AssignKeepsKey(a, price, side, l);
    }
  }

  lemma AssignOk(a: Address, price: uint32, side: char)
    requires AddressOk(a) && FIRST_OVERFLOW + |a.sides| < U32
    ensures AddressOk(Assign(a, price, side)) && |a.sides| == |a.prices|
  {
    var w := WithBase(a, price);
    BaseKeeps(a, price);
    hide LevelOf, InWindow;
    if LevelOf(w, Key(side == 'B', price)).None? {
      GrowKeeps(w, price, side);
    }
  }

  lemma AssignAnswers(a: Address, price: uint32, side: char)
    requires FIRST_OVERFLOW + |a.sides| < U32
    ensures LevelOf(Assign(a, price, side), Key(side == 'B', price)).Some?
  {
    hide InWindow;
  }

  lemma AssignSize(a: Address, price: uint32, side: char)
    requires FIRST_OVERFLOW + |a.sides| < U32
    ensures var b := Assign(a, price, side);
            && b.baseSet && (a.baseSet ==> b.base == a.base)
            && (|| (b.sides == a.sides && b.prices == a.prices)
                || (b.sides == a.sides + [side] && b.prices == a.prices + [price]))
  {
    hide LevelOf;
  }

  lemma AssignKeepsLevel(a: Address, price: uint32, side: char, m: Key)
    requires FIRST_OVERFLOW + |a.sides| < U32 && LevelOf(a, m).Some?
    ensures LevelOf(Assign(a, price, side), m) == LevelOf(a, m)
  {
    hide InWindow;
  }

  lemma AssignKeepsKey(a: Address, price: uint32, side: char, l: nat)
    requires |a.sides| == |a.prices| && FIRST_OVERFLOW + |a.sides| < U32 && a.baseSet
    requires l < FIRST_OVERFLOW + |a.sides|
    ensures var b := Assign(a, price, side);
            && |b.sides| == |b.prices| && |a.sides| <= |b.sides| && KeyOf(b, l) == KeyOf(a, l)
  {
    AssignSize(a, price, side);
    hide Assign, LevelOf, InWindow;
  }

  lemma BaseKeeps(a: Address, price: uint32)
    requires AddressOk(a)
    ensures AddressOk(WithBase(a, price))
  {
    assert a.baseSet || forall p :: p !in a.bids && p !in a.asks;
  }

  ghost function Grown(w: Address, price: uint32, side: char): Address
    requires FIRST_OVERFLOW + |w.sides| < U32
  {
    var l := FIRST_OVERFLOW + |w.sides|;
    var c := w.(sides := w.sides + [side], prices := w.prices + [price]);
    if side == 'B' then c.(bids := c.bids[price := l]) else c.(asks := c.asks[price := l])
  }

  lemma GrowKeeps(w: Address, price: uint32, side: char)
    requires AddressOk(w) && FIRST_OVERFLOW + |w.sides| < U32
    requires w.baseSet && LevelOf(w, Key(side == 'B', price)).None?
    ensures AddressOk(Grown(w, price, side))
  {
    var b := Grown(w, price, side);
    hide InWindow, LevelOf;
    NewOverflowPrice(w, price, side == 'B');
    forall p | p in b.bids
      ensures OverflowEntry(b, true, p, b.bids[p])
    {
      assert p in w.bids ==> OverflowEntry(w, true, p, w.bids[p]);
    }
    forall p | p in b.asks
      ensures OverflowEntry(b, false, p, b.asks[p])
    {
      assert p in w.asks ==> OverflowEntry(w, false, p, w.asks[p]);
    }
    forall j | 0 <= j < |b.sides|
      ensures !InWindow(b.base, b.prices[j]) && b.prices[j] in Overflow(b, b.sides[j] == 'B')
      ensures Overflow(b, b.sides[j] == 'B')[b.prices[j]] == FIRST_OVERFLOW + j
    {
      if j < |w.sides| {
        assert b.sides[j] == w.sides[j] && b.prices[j] == w.prices[j];
        assert w.prices[j] in Overflow(w, w.sides[j] == 'B');
      }
    }
  }

  lemma NewOverflowPrice(w: Address, price: uint32, bid: bool)
    requires w.baseSet && LevelOf(w, Key(bid, price)).None?
    ensures !InWindow(w.base, price) && price !in Overflow(w, bid)
  {
  }

  // A book has at most two overflow levels a price it was ever asked for.
  lemma OverflowLevelsAreFew(a: Address, asked: set<uint32>)
    requires AddressOk(a) && forall p :: p in a.prices ==> p in asked
    ensures |a.sides| <= 2 * |asked|
  {
    hide InWindow;
    var n := |a.sides|;
    var keys := seq(n, j requires 0 <= j < n => Key(a.sides[j] == 'B', a.prices[j]));
    forall i, j | 0 <= i < j < n
      ensures keys[i] != keys[j]
    {
      assert Overflow(a, a.sides[i] == 'B')[a.prices[i]] == FIRST_OVERFLOW + i;
      assert Overflow(a, a.sides[j] == 'B')[a.prices[j]] == FIRST_OVERFLOW + j;
    }
    var all := set k | k in keys;
    var bids, asks := set k | k in all && k.bid, set k | k in all && !k.bid;
    AtLeast(all, keys);
    KeysOfOneSide(bids, true, asked);
    KeysOfOneSide(asks, false, asked);
    assert all == bids + asks;
  }

  lemma {:induction false} KeysOfOneSide(keys: set<Key>, bid: bool, asked: set<uint32>)
    requires forall k :: k in keys ==> k.bid == bid && k.price in asked
    ensures |keys| <= |asked|
  {
    if keys != {} {
      var k :| k in keys;
      forall m | m in keys - {k}
        ensures m.price in asked - {k.price}
      {
        assert m == Key(bid, m.price);
      }
      KeysOfOneSide(keys - {k}, bid, asked - {k.price});
    }
  }

  // The first whole-cent price of a book is in the middle of its window.
  lemma FirstPriceCentres(a: Address, price: uint32, side: char)
    requires !a.baseSet && price % 100 == 0 && FIRST_OVERFLOW + |a.sides| < U32
    ensures LevelOf(Assign(a, price, side), Key(side == 'B', price)) == Some(if side == 'B' then 512 else 1536)
  {
  }

  // From the first price on, the whole-cent prices less than 512 cents above it and
  // at most 512 below have the 2048 window levels, by distance; all others overflow.
  lemma WindowIs(a: Address, first: uint32, side: char, k: Key)
    requires AddressOk(a) && !a.baseSet
    ensures var b, off := Assign(a, first, side), k.price / 100 - first / 100 + 512;
            if k.price % 100 == 0 && 0 <= off < 1024
            then LevelOf(b, k) == Some(if k.bid then off else 1024 + off)
            else LevelOf(b, k).Some? ==> 2048 <= LevelOf(b, k).value
  {
    AssignOk(a, first, side);
    assert forall p :: p in Assign(a, first, side).bids ==>
        OverflowEntry(Assign(a, first, side), true, p, Assign(a, first, side).bids[p]);
  }

  ghost function AssignAll(a: Address, requests: seq<(uint32, char)>): Address
    requires FIRST_OVERFLOW + |a.sides| + |requests| < U32
    decreases |requests|
  {
    if requests == [] then a
    else AssignAll(Assign(a, requests[0].0, requests[0].1), requests[1..])
  }

  // Once given, a level index stands for the same side and price for the rest
  // of any run, and no other pair ever gets it.
  lemma {:induction false} LevelsAreForever(a: Address, requests: seq<(uint32, char)>, k: Key, m: Key)
    requires AddressOk(a) && FIRST_OVERFLOW + |a.sides| + |requests| < U32 && LevelOf(a, k).Some?
    ensures var b := AssignAll(a, requests);
            && AddressOk(b)
            && LevelOf(b, k) == LevelOf(a, k) && KeyOf(b, LevelOf(a, k).value) == k
            && (m != k ==> LevelOf(b, m) != LevelOf(a, k))
    decreases |requests|
  {
    if requests == [] {
      KeyOfLevelOf(a, k);
      if LevelOf(a, m) == LevelOf(a, k) {
        LevelsAreInjective(a, k, m);
      }
    } else {
      AssignKeeps(a, requests[0].0, requests[0].1);
      LevelsAreForever(Assign(a, requests[0].0, requests[0].1), requests[1..], k, m);
    }
  }
}
