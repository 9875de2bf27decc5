/** The state of one array book as a value, its invariant over the shared pool,
    and what each step of a message does to both. */
module BookImage {
  import opened Numbers
  import opened BookSpec
  import opened OrderPools
  import opened LevelAddressing
  import opened LevelLists
  import opened Bitmap

  const MAX_LEVELS := 0x7FFF_FFFF

  // `lists` names, for each level, the pool slots of its orders in queue order.
  datatype Image = Image(addr: Address, levels: seq<PriceLevel>, bestBid: int, bestAsk: int,
                         occ: seq<bv64>, lists: seq<seq<int>>)

  type Tags = map<int, Tag>

  ghost predicate Sized(g: Image) {
    && AddressOk(g.addr) && |g.addr.sides| == |g.addr.prices|
    && |g.levels| == |g.lists| == FIRST_OVERFLOW + |g.addr.sides| <= MAX_LEVELS
    && |g.occ| == WORDS
  }

  ghost predicate AllLinked(g: Image, s: seq<PooledOrder>) {
    && |s| <= NULL_IDX && |g.levels| == |g.lists|
    && forall l :: 0 <= l < |g.lists| ==> Linked(s, g.levels[l], l, g.lists[l])
  }

  // Every listed slot is live and tagged with this book.
  ghost predicate Owns(g: Image, me: object, live: Tags) {
    forall l, i :: 0 <= l < |g.lists| && 0 <= i < |g.lists[l]| ==>
      g.lists[l][i] in live && live[g.lists[l][i]].book == me
  }

  // Every live slot tagged with this book, but for some, is listed at its level.
  ghost predicate Covers(g: Image, me: object, s: seq<PooledOrder>, live: Tags, skip: set<int>) {
    forall x :: x in live && x !in skip && live[x].book == me ==>
      0 <= x < |s| && s[x].level < |g.lists| && x in g.lists[s[x].level]
  }

  ghost predicate Unlisted(g: Image, skip: set<int>) {
    forall l, x :: 0 <= l < |g.lists| && x in skip ==> x !in g.lists[l]
  }

  // Bit l of the bitmap is set exactly when window level l has orders.
  ghost predicate BitsAgree(g: Image) {
    && |g.occ| == WORDS && |g.lists| >= FIRST_OVERFLOW
    && forall l :: 0 <= l < FIRST_OVERFLOW ==> (IsSet(g.occ, l) <==> g.lists[l] != [])
  }

  // The cached best bid is the highest bid level of the window with orders.
  ghost predicate BidCached(g: Image) {
    && |g.lists| >= FIRST_OVERFLOW && -1 <= g.bestBid < ASK_BASE
    && (g.bestBid >= 0 ==> g.lists[g.bestBid] != [])
    && forall l :: 0 <= l < ASK_BASE && l > g.bestBid ==> g.lists[l] == []
  }

  // The cached best ask is the lowest ask level of the window with orders.
  ghost predicate AskCached(g: Image) {
    && |g.lists| >= FIRST_OVERFLOW
    && (g.bestAsk == -1 || (ASK_BASE <= g.bestAsk < FIRST_OVERFLOW && g.lists[g.bestAsk] != []))
    && forall l :: ASK_BASE <= l < FIRST_OVERFLOW && (l < g.bestAsk || g.bestAsk == -1) ==> g.lists[l] == []
  }

  // A level with orders is the level of the side and price it reads back as.
  ghost predicate Placed(g: Image)
    requires Sized(g)
  {
    forall l :: 0 <= l < |g.lists| && g.lists[l] != [] ==>
      g.addr.baseSet && LevelOf(g.addr, KeyOf(g.addr, l)) == Some(l)
  }

  // The invariant of a book, while some slots are tagged with it but not listed.
  ghost predicate BookOkBut(g: Image, me: object, s: seq<PooledOrder>, live: Tags, skip: set<int>) {
    && Sized(g) && AllLinked(g, s) && Owns(g, me, live) && Covers(g, me, s, live, skip) && Unlisted(g, skip)
    && BitsAgree(g) && BidCached(g) && AskCached(g) && Placed(g)
  }

  ghost predicate BookOk(g: Image, me: object, s: seq<PooledOrder>, live: Tags) {
    BookOkBut(g, me, s, live, {})
  }

  ghost function NewImage(): Image {
    Image(Address(false, -1, map[], map[], [], []), seq(FIRST_OVERFLOW, _ => EMPTY_LEVEL), -1, -1,
          seq(WORDS, _ => 0), seq(FIRST_OVERFLOW, _ => []))
  }

  // The level and position of a slot tagged with the book.
  lemma WhereListed(g: Image, me: object, s: seq<PooledOrder>, live: Tags, skip: set<int>, x: int)
      returns (l: nat, i: nat)
    requires BookOkBut(g, me, s, live, skip) && x in live && x !in skip && live[x].book == me
    ensures 0 <= x < |s| && l == s[x].level < |g.lists| && i < |g.lists[l]| && g.lists[l][i] == x
  {
    l := s[x].level;
    i :| 0 <= i < |g.lists[l]| && g.lists[l][i] == x;
  }

  // Slots at two different levels differ, since each names its own level.
  lemma ListsAreDisjoint(g: Image, s: seq<PooledOrder>, l: int, i: int, m: int, j: int)
    requires AllLinked(g, s)
    requires 0 <= l < |g.lists| && 0 <= i < |g.lists[l]| && 0 <= m < |g.lists| && 0 <= j < |g.lists[m]|
    requires l != m || i != j
    ensures g.lists[l][i] != g.lists[m][j]
  {
    assert Linked(s, g.levels[l], l, g.lists[l]) && Linked(s, g.levels[m], m, g.lists[m]);
    hide Wrap32, Shares;
    assert s[g.lists[l][i]].level == l && s[g.lists[m][j]].level == m;
  }

  // ---------- Asking for a level ----------

  ghost function Widened(g: Image, price: uint32, side: char): Image
    requires FIRST_OVERFLOW + |g.addr.sides| < MAX_LEVELS
  {
    var a := Assign(g.addr, price, side);
    if |a.sides| == |g.addr.sides| then g.(addr := a)
    else g.(addr := a, levels := g.levels + [EMPTY_LEVEL], lists := g.lists + [[]])
  }

  lemma WidenedOk(g: Image, price: uint32, side: char, me: object, s: seq<PooledOrder>, live: Tags, skip: set<int>)
    requires BookOkBut(g, me, s, live, skip) && |g.levels| < MAX_LEVELS
    ensures BookOkBut(Widened(g, price, side), me, s, live, skip)
    ensures LevelOf(Widened(g, price, side).addr, Key(side == 'B', price)).Some?
  {
    hide Widened, AllLinked, LevelOf, Placed, AddressOk, Owns, Covers, Unlisted, BitsAgree, BidCached, AskCached;
    WidenedSized(g, price, side);
    WidenedLists(g, price, side);
    WidenedLinks(g, price, side, s);
    SameListsOk(g, Widened(g, price, side), me, s, live, skip);
  }

  // Empty levels at the end matter to none of these.
  lemma SameListsOk(g: Image, h: Image, me: object, s: seq<PooledOrder>, live: Tags, skip: set<int>)
    requires Owns(g, me, live) && Covers(g, me, s, live, skip) && Unlisted(g, skip)
    requires BitsAgree(g) && BidCached(g) && AskCached(g)
    requires |g.lists| <= |h.lists| && h.occ == g.occ && h.bestBid == g.bestBid && h.bestAsk == g.bestAsk
    requires forall l :: 0 <= l < |h.lists| ==> h.lists[l] == if l < |g.lists| then g.lists[l] else []
    ensures Owns(h, me, live) && Covers(h, me, s, live, skip) && Unlisted(h, skip)
    ensures BitsAgree(h) && BidCached(h) && AskCached(h)
  {
    hide IsSet;
  }

  lemma WidenedSized(g: Image, price: uint32, side: char)
    requires Sized(g) && Placed(g) && |g.levels| < MAX_LEVELS
    ensures var h := Widened(g, price, side);
            Sized(h) && Placed(h) && LevelOf(h.addr, Key(side == 'B', price)).Some?
  {
    AssignKeeps(g.addr, price, side);
    hide AddressOk, Assign, LevelOf, KeyOf;
    var h := Widened(g, price, side);
    forall l | 0 <= l < |h.lists| && h.lists[l] != []
      ensures h.addr.baseSet && LevelOf(h.addr, KeyOf(h.addr, l)) == Some(l)
    {
      assert h.lists[l] == g.lists[l];
      assert LevelOf(g.addr, KeyOf(g.addr, l)) == Some(l);
    }
  }

  // Widening adds at most one level, and that one empty.
  lemma WidenedLists(g: Image, price: uint32, side: char)
    requires Sized(g) && |g.levels| < MAX_LEVELS
    ensures var h := Widened(g, price, side);
            && |g.lists| <= |h.lists| <= |g.lists| + 1
            && (forall l :: 0 <= l < |h.lists| ==> h.lists[l] == if l < |g.lists| then g.lists[l] else [])
            && h.occ == g.occ && h.bestBid == g.bestBid && h.bestAsk == g.bestAsk
  {
    hide Assign, AddressOk;
  }

  lemma WidenedLinks(g: Image, price: uint32, side: char, s: seq<PooledOrder>)
    requires Sized(g) && AllLinked(g, s) && |g.levels| < MAX_LEVELS
    ensures AllLinked(Widened(g, price, side), s)
  {
    hide Assign, AddressOk, Linked;
    var h := Widened(g, price, side);
    EmptyIsLinked(s, |g.lists|);
    forall l | 0 <= l < |h.lists|
      ensures Linked(s, h.levels[l], l, h.lists[l])
    {
      if l < |g.lists| {
        assert Linked(s, g.levels[l], l, g.lists[l]);
      }
    }
  }

  lemma EmptyIsLinked(s: seq<PooledOrder>, l: int)
    ensures Linked(s, EMPTY_LEVEL, l, [])
  {
  }

  // ---------- Linking ----------

  ghost function LinkedImage(g: Image, l: nat, idx: uint32, qty: uint32): Image
    requires Sized(g) && l < |g.lists|
  {
    Image(g.addr, g.levels[l := LinkLevel(g.levels[l], idx, qty)],
          if l < ASK_BASE && l > g.bestBid then l else g.bestBid,
          if ASK_BASE <= l < FIRST_OVERFLOW && (g.bestAsk < 0 || l < g.bestAsk) then l else g.bestAsk,
          if l < FIRST_OVERFLOW then SetAt(g.occ, l) else g.occ,
          g.lists[l := g.lists[l] + [idx as int]])
  }

  lemma LinkedOk(g: Image, l: nat, idx: uint32, qty: uint32, me: object, s: seq<PooledOrder>, live: Tags)
    requires BookOkBut(g, me, s, live, {idx as int}) && l < |g.lists| && idx < |s| && idx in live
             && live[idx].book == me
    requires g.addr.baseSet && LevelOf(g.addr, KeyOf(g.addr, l)) == Some(l)
    ensures g.levels[l].tail == NULL_IDX || g.levels[l].tail < |s|
    ensures BookOk(LinkedImage(g, l, idx, qty), me, LinkSlots(s, g.levels[l], l, idx, qty), live)
  {
    hide Shares, Wrap32, NoRepeats, Chained, BitsAgree, BidCached, AskCached, Placed, Covers, Owns, AddressOk,
      LevelOf, KeyOf;
    assert Linked(s, g.levels[l], l, g.lists[l]);
    LinkedBookkeeping(g, l, idx, qty, s, me, live);
  }

  lemma LinkedBookkeeping(g: Image, l: nat, idx: uint32, qty: uint32, s: seq<PooledOrder>, me: object, live: Tags)
    requires BookOkBut(g, me, s, live, {idx as int}) && l < |g.lists| && idx < |s| && idx in live
             && live[idx].book == me
    requires g.addr.baseSet && LevelOf(g.addr, KeyOf(g.addr, l)) == Some(l)
    requires g.levels[l].tail == NULL_IDX || g.levels[l].tail < |s|
    ensures BookOk(LinkedImage(g, l, idx, qty), me, LinkSlots(s, g.levels[l], l, idx, qty), live)
  {
    LinkedLinks(g, l, idx, qty, s);
    LinkedCovers(g, l, idx, qty, me, s, live);
    LinkedCaches(g, l, idx, qty);
    LinkedPlaces(g, l, idx, qty, me, live);
    hide LinkedImage, LinkSlots, AllLinked, Owns, Covers, BitsAgree, BidCached, AskCached, Placed, Sized, LevelOf,
      KeyOf;
  }

  lemma LinkedPlaces(g: Image, l: nat, idx: uint32, qty: uint32, me: object, live: Tags)
    requires Sized(g) && Placed(g) && Owns(g, me, live) && l < |g.lists| && idx in live && live[idx].book == me
    requires g.addr.baseSet && LevelOf(g.addr, KeyOf(g.addr, l)) == Some(l)
    ensures Sized(LinkedImage(g, l, idx, qty)) && Placed(LinkedImage(g, l, idx, qty))
    ensures Owns(LinkedImage(g, l, idx, qty), me, live)
  {
    hide AddressOk, LevelOf, KeyOf, SetAt, LinkLevel;
  }

  lemma LinkedCaches(g: Image, l: nat, idx: uint32, qty: uint32)
    requires Sized(g) && BitsAgree(g) && BidCached(g) && AskCached(g) && l < |g.lists|
    ensures var h := LinkedImage(g, l, idx, qty); BitsAgree(h) && BidCached(h) && AskCached(h)
  {
    hide AddressOk, SetAt, LinkLevel, IsSet;
    var h := LinkedImage(g, l, idx, qty);
    if l < FIRST_OVERFLOW {
      forall x: nat | x < FIRST_OVERFLOW
        ensures IsSet(h.occ, x) <==> h.lists[x] != []
      {
        SetAtSets(g.occ, l, x);
      }
    }
  }

  lemma LinkedLinks(g: Image, l: nat, idx: uint32, qty: uint32, s: seq<PooledOrder>)
    requires Sized(g) && AllLinked(g, s) && Unlisted(g, {idx as int}) && l < |g.lists| && idx < |s|
    requires g.levels[l].tail == NULL_IDX || g.levels[l].tail < |s|
    ensures AllLinked(LinkedImage(g, l, idx, qty), LinkSlots(s, g.levels[l], l, idx, qty))
  {
    var h, t := LinkedImage(g, l, idx, qty), LinkSlots(s, g.levels[l], l, idx, qty);
    forall m | 0 <= m < |h.lists|
      ensures Linked(t, h.levels[m], m, h.lists[m])
    {
      assert Linked(s, g.levels[m], m, g.lists[m]);
      if m == l {
        LinkAppends(s, g.levels[l], l, g.lists[l], idx, qty);
      } else {
        forall i | 0 <= i < |g.lists[m]|
          ensures t[g.lists[m][i]] == s[g.lists[m][i]]
        {
          LinkTouches(g, l, idx, qty, s, m, i);
        }
        LinkedFrame(s, t, g.levels[m], m, g.lists[m]);
      }
    }
  }

  // Linking at level l writes no slot of another level.
  lemma LinkTouches(g: Image, l: nat, idx: uint32, qty: uint32, s: seq<PooledOrder>, m: int, i: int)
    requires AllLinked(g, s) && Unlisted(g, {idx as int}) && l < |g.lists| < U32 && idx < |s|
    requires g.levels[l].tail == NULL_IDX || g.levels[l].tail < |s|
    requires 0 <= m < |g.lists| && m != l && 0 <= i < |g.lists[m]|
    ensures 0 <= g.lists[m][i] < |s|
    ensures LinkSlots(s, g.levels[l], l, idx, qty)[g.lists[m][i]] == s[g.lists[m][i]]
  {
    var x := g.lists[m][i];
    assert x in g.lists[m];
    assert Linked(s, g.levels[l], l, g.lists[l]) && Linked(s, g.levels[m], m, g.lists[m]);
    if g.lists[l] != [] {
      ListsAreDisjoint(g, s, l, |g.lists[l]| - 1, m, i);
    }
  }

  lemma LinkKeepsLevel(s: seq<PooledOrder>, lvl: PriceLevel, l: uint32, idx: uint32, qty: uint32, x: int)
    requires idx < |s| && (lvl.tail == NULL_IDX || lvl.tail < |s|) && 0 <= x < |s| && x != idx
    ensures LinkSlots(s, lvl, l, idx, qty)[x].level == s[x].level
  {
  }

  lemma LinkedCovers(g: Image, l: nat, idx: uint32, qty: uint32, me: object, s: seq<PooledOrder>, live: Tags)
    requires Sized(g) && Covers(g, me, s, live, {idx as int}) && l < |g.lists| && idx < |s|
    requires g.levels[l].tail == NULL_IDX || g.levels[l].tail < |s|
    ensures Covers(LinkedImage(g, l, idx, qty), me, LinkSlots(s, g.levels[l], l, idx, qty), live, {})
  {
    var h, t := LinkedImage(g, l, idx, qty), LinkSlots(s, g.levels[l], l, idx, qty);
    assert h.lists[l][|g.lists[l]|] == idx;
    forall x | x in live && live[x].book == me
      ensures 0 <= x < |t| && t[x].level < |h.lists| && x in h.lists[t[x].level]
    {
      if x == idx {
        assert idx as int in h.lists[l];
      } else {
        LinkKeepsLevel(s, g.levels[l], l, idx, qty, x);
      }
    }
  }

  // ---------- Unlinking ----------

  // After unlinking position i of level l; the caches are rescanned only when
  // the level empties and is the cached one.
  ghost predicate IsUnlinkedImage(g: Image, l: nat, i: nat, s: seq<PooledOrder>, h: Image)
    requires Sized(g) && l < |g.lists| && i < |g.lists[l]| && 0 <= g.lists[l][i] < |s|
  {
    var emptied := |g.lists[l]| == 1;
    && h.addr == g.addr
    && h.levels == g.levels[l := UnlinkLevel(g.levels[l], s[g.lists[l][i]])]
    && h.lists == g.lists[l := Without(g.lists[l], i)]
    && h.occ == (if emptied && l < FIRST_OVERFLOW then ClearAt(g.occ, l) else g.occ)
    && |h.occ| == WORDS
    && (if emptied && l == g.bestBid && l < BITS then NearestBelow(h.occ, g.bestBid, h.bestBid)
        else h.bestBid == g.bestBid)
    && (if emptied && l == g.bestAsk then NearestAbove(h.occ, g.bestAsk, h.bestAsk) else h.bestAsk == g.bestAsk)
  }

  lemma UnlinkedOk(g: Image, l: nat, i: nat, me: object, s: seq<PooledOrder>, live: Tags, h: Image)
    requires BookOk(g, me, s, live) && l < |g.lists| && i < |g.lists[l]|
    requires 0 <= g.lists[l][i] < |s| && IsUnlinkedImage(g, l, i, s, h)
    ensures UnlinkableAt(s, g.lists[l][i])
    ensures BookOkBut(h, me, UnlinkSlots(s, g.lists[l][i]), live, {g.lists[l][i]})
  {
    assert Linked(s, g.levels[l], l, g.lists[l]);
    UnlinkRemoves(s, g.levels[l], l, g.lists[l], i);
    UnlinkedLinks(g, l, i, s, h);
    UnlinkedOwns(g, l, i, me, s, live, h);
    UnlinkedCovers(g, l, i, me, s, live, h);
    UnlinkedBits(g, l, i, s, h);
    UnlinkedCaches(g, l, i, s, h);
  }

  lemma UnlinkedLinks(g: Image, l: nat, i: nat, s: seq<PooledOrder>, h: Image)
    requires Sized(g) && AllLinked(g, s) && l < |g.lists| && i < |g.lists[l]|
    requires UnlinkableAt(s, g.lists[l][i]) && IsUnlinkedImage(g, l, i, s, h)
    ensures AllLinked(h, UnlinkSlots(s, g.lists[l][i]))
  {
    var t := UnlinkSlots(s, g.lists[l][i]);
    forall m | 0 <= m < |h.lists|
      ensures Linked(t, h.levels[m], m, h.lists[m])
    {
      assert Linked(s, g.levels[m], m, g.lists[m]);
      if m == l {
        UnlinkRemoves(s, g.levels[l], l, g.lists[l], i);
      } else {
        forall j | 0 <= j < |g.lists[m]|
          ensures t[g.lists[m][j]] == s[g.lists[m][j]]
        {
          UnlinkTouches(g, l, i, s, m, j);
        }
        LinkedFrame(s, t, g.levels[m], m, g.lists[m]);
      }
    }
  }

  // Unlinking at level l writes no slot of another level.
  lemma UnlinkTouches(g: Image, l: nat, i: nat, s: seq<PooledOrder>, m: int, j: int)
    requires AllLinked(g, s) && l < |g.lists| && i < |g.lists[l]| && UnlinkableAt(s, g.lists[l][i])
    requires 0 <= m < |g.lists| && m != l && 0 <= j < |g.lists[m]|
    ensures 0 <= g.lists[m][j] < |s|
    ensures UnlinkSlots(s, g.lists[l][i])[g.lists[m][j]] == s[g.lists[m][j]]
  {
    var q := g.lists[l];
    assert Linked(s, g.levels[l], l, q) && Linked(s, g.levels[m], m, g.lists[m]);
    hide Wrap32, Shares;
    assert s[q[i]].level == l && s[g.lists[m][j]].level == m;
    if i > 0 {
      assert s[q[i - 1]].level == l;
    }
    if i + 1 < |q| {
      assert s[q[i + 1]].level == l;
    }
  }

  // Unlinking changes links only.
  lemma UnlinkKeepsFields(s: seq<PooledOrder>, idx: uint32, x: int)
    requires UnlinkableAt(s, idx) && 0 <= x < |s|
    ensures UnlinkSlots(s, idx)[x].level == s[x].level && UnlinkSlots(s, idx)[x].qty == s[x].qty
  {
  }

  lemma UnlinkedOwns(g: Image, l: nat, i: nat, me: object, s: seq<PooledOrder>, live: Tags, h: Image)
    requires Sized(g) && AllLinked(g, s) && Owns(g, me, live) && l < |g.lists| && i < |g.lists[l]|
    requires 0 <= g.lists[l][i] < |s| && IsUnlinkedImage(g, l, i, s, h)
    ensures Owns(h, me, live) && Unlisted(h, {g.lists[l][i]})
  {
    forall m, j | 0 <= m < |h.lists| && 0 <= j < |h.lists[m]|
      ensures h.lists[m][j] in live && live[h.lists[m][j]].book == me && h.lists[m][j] != g.lists[l][i]
    {
      var j0 := if m == l && j >= i then j + 1 else j;
      assert h.lists[m][j] == g.lists[m][j0];
      ListsAreDisjoint(g, s, l, i, m, j0);
    }
  }

  lemma UnlinkedCovers(g: Image, l: nat, i: nat, me: object, s: seq<PooledOrder>, live: Tags, h: Image)
    requires Sized(g) && Covers(g, me, s, live, {}) && l < |g.lists| && i < |g.lists[l]|
    requires |s| <= NULL_IDX && UnlinkableAt(s, g.lists[l][i]) && IsUnlinkedImage(g, l, i, s, h)
    ensures Covers(h, me, UnlinkSlots(s, g.lists[l][i]), live, {g.lists[l][i]})
  {
    var idx := g.lists[l][i];
    var t := UnlinkSlots(s, idx);
    forall x | x in live && x !in {idx} && live[x].book == me
      ensures 0 <= x < |t| && t[x].level < |h.lists| && x in h.lists[t[x].level]
    {
      UnlinkKeepsFields(s, idx, x);
      var m := s[x].level;
      var j :| 0 <= j < |g.lists[m]| && g.lists[m][j] == x;
      if m == l {
        var j' := if j < i then j else j - 1;
        assert h.lists[l][j'] == x;
      }
    }
  }

  lemma UnlinkedBits(g: Image, l: nat, i: nat, s: seq<PooledOrder>, h: Image)
    requires Sized(g) && BitsAgree(g) && l < |g.lists| && i < |g.lists[l]|
    requires 0 <= g.lists[l][i] < |s| && IsUnlinkedImage(g, l, i, s, h)
    ensures BitsAgree(h)
  {
    hide IsSet, ClearAt;
    forall x: nat | x < FIRST_OVERFLOW
      ensures IsSet(h.occ, x) <==> h.lists[x] != []
    {
      if |g.lists[l]| == 1 && l < FIRST_OVERFLOW {
        ClearAtClears(g.occ, l, x);
      }
    }
  }

  lemma UnlinkedCaches(g: Image, l: nat, i: nat, s: seq<PooledOrder>, h: Image)
    requires Sized(g) && BitsAgree(g) && BitsAgree(h) && BidCached(g) && AskCached(g)
    requires l < |g.lists| && i < |g.lists[l]|
    requires 0 <= g.lists[l][i] < |s| && IsUnlinkedImage(g, l, i, s, h)
    ensures BidCached(h) && AskCached(h)
  {
    hide IsSet, ClearAt, Without;
    assert forall m :: 0 <= m < |g.lists| && m != l ==> h.lists[m] == g.lists[m];
    assert |h.lists[l]| == |g.lists[l]| - 1;
  }

  // ---------- Pool bookkeeping around the list steps ----------

  lemma AllocatedOk(g: Image, me: object, s: seq<PooledOrder>, live: Tags, x: int, tag: Tag)
    requires BookOk(g, me, s, live) && x !in live
    ensures BookOkBut(g, me, s, live[x := tag], {x})
  {
    forall l | 0 <= l < |g.lists|
      ensures x !in g.lists[l]
    {
      assert forall i :: 0 <= i < |g.lists[l]| ==> g.lists[l][i] in live;
    }
  }

  lemma ReleasedOk(g: Image, me: object, s: seq<PooledOrder>, t: seq<PooledOrder>, live: Tags, x: int)
    requires BookOkBut(g, me, s, live, {x}) && |t| == |s|
    requires forall y :: 0 <= y < |s| && y != x ==> t[y] == s[y]
    ensures BookOk(g, me, t, live - {x})
  {
    forall l | 0 <= l < |g.lists|
      ensures Linked(t, g.levels[l], l, g.lists[l])
    {
      assert Linked(s, g.levels[l], l, g.lists[l]);
      assert forall i :: 0 <= i < |g.lists[l]| ==> g.lists[l][i] in g.lists[l];
      LinkedFrame(s, t, g.levels[l], l, g.lists[l]);
    }
    forall l, i | 0 <= l < |g.lists| && 0 <= i < |g.lists[l]|
      ensures g.lists[l][i] in live - {x}
    {
      assert g.lists[l][i] in g.lists[l];
    }
  }

  // What other books do to slots of their own is of no concern to this one.
  ghost predicate Untouched(me: object, s: seq<PooledOrder>, live: Tags, t: seq<PooledOrder>, live': Tags) {
    && |t| == |s|
    && (forall x :: x in live && live[x].book == me ==>
          x in live' && live'[x] == live[x] && (0 <= x < |s| ==> t[x] == s[x]))
    && (forall x :: x in live' && live'[x].book == me ==> x in live && live[x].book == me)
  }

  lemma UntouchedOk(g: Image, me: object, s: seq<PooledOrder>, live: Tags, t: seq<PooledOrder>, live': Tags)
    requires BookOk(g, me, s, live) && Untouched(me, s, live, t, live')
    ensures BookOk(g, me, t, live')
  {
    forall l | 0 <= l < |g.lists|
      ensures Linked(t, g.levels[l], l, g.lists[l])
    {
      assert Linked(s, g.levels[l], l, g.lists[l]);
      assert InRange(s, g.lists[l]);
      assert forall i :: 0 <= i < |g.lists[l]| ==> g.lists[l][i] in live && live[g.lists[l][i]].book == me;
      LinkedFrame(s, t, g.levels[l], l, g.lists[l]);
    }
  }

  // ---------- Partial fills ----------

  ghost function ReducedImage(g: Image, l: nat, n: uint32): Image
    requires l < |g.levels|
  {
    g.(levels := g.levels[l := g.levels[l].(totalQty := Wrap32(g.levels[l].totalQty - n))])
  }

  lemma ReducedOk(g: Image, l: nat, i: nat, n: uint32, me: object, s: seq<PooledOrder>, live: Tags)
    requires BookOk(g, me, s, live) && l < |g.lists| && i < |g.lists[l]|
    requires 0 <= g.lists[l][i] < |s| && n <= s[g.lists[l][i]].qty
    ensures var x := g.lists[l][i];
            BookOk(ReducedImage(g, l, n), me, s[x := s[x].(qty := s[x].qty - n)], live)
  {
    ReducedLinks(g, l, i, n, s);
    ReducedRest(g, l, n);
    hide AllLinked, BitsAgree, BidCached, AskCached, Placed, Sized, ReducedImage;
  }

  lemma ReducedRest(g: Image, l: nat, n: uint32)
    requires Sized(g) && Placed(g) && BitsAgree(g) && BidCached(g) && AskCached(g) && l < |g.lists|
    ensures var h := ReducedImage(g, l, n);
            && h.lists == g.lists && Sized(h) && Placed(h) && BitsAgree(h) && BidCached(h) && AskCached(h)
  {
    hide AddressOk, LevelOf, KeyOf, IsSet;
  }

  lemma ReducedLinks(g: Image, l: nat, i: nat, n: uint32, s: seq<PooledOrder>)
    requires AllLinked(g, s) && l < |g.lists| < U32 && i < |g.lists[l]|
    requires 0 <= g.lists[l][i] < |s| && n <= s[g.lists[l][i]].qty
    ensures var x := g.lists[l][i];
            AllLinked(ReducedImage(g, l, n), s[x := s[x].(qty := s[x].qty - n)])
  {
    hide Linked;
    var x, h := g.lists[l][i], ReducedImage(g, l, n);
    var t := s[x := s[x].(qty := s[x].qty - n)];
    forall m | 0 <= m < |h.lists|
      ensures Linked(t, h.levels[m], m, h.lists[m])
    {
      assert Linked(s, g.levels[m], m, g.lists[m]);
      if m == l {
        ReduceKeepsLinks(s, g.levels[l], l, g.lists[l], i, n);
      } else {
        forall j | 0 <= j < |g.lists[m]|
          ensures g.lists[m][j] != x
        {
          ListsAreDisjoint(g, s, l, i, m, j);
        }
        LinkedInRange(s, g.levels[m], m, g.lists[m]);
        LinkedFrame(s, t, g.levels[m], m, g.lists[m]);
      }
    }
  }

  lemma LinkedInRange(s: seq<PooledOrder>, lvl: PriceLevel, l: int, q: seq<int>)
    requires Linked(s, lvl, l, q)
    ensures InRange(s, q)
  {
  }
}
