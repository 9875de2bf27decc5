/** What the array books do with any message, room or not, as a function of the
    books and of the references the table knows; and exactly when that is what the
    baseline books do. */
module ArraySpec {
  import opened Numbers
  import opened BookSpec
  import opened MarketSpec

  // One message on one book. `slot`: the pool has a free slot. An add without one
  // is dropped, and a message about a reference the table does not know is ignored.
  ghost function ArrayStep(b: Book, m: Message, known: set<uint64>, slot: bool): Book {
    if (if m.AddOrder? then slot else m.ref in known) then Apply(b, m, false) else b
  }

  // The references the table knows afterwards. `room`: it is below half load.
  ghost function KnownAfter(after: Book, m: Message, known: set<uint64>, slot: bool, room: bool): set<uint64> {
    match m
    case AddOrder(_, ref, _, _, _) => if slot && room then known + {ref} else known
    case OrderReplace(_, ref, newRef, _, _) => if ref in known then known - {ref} + {newRef} else known
    case OrderDelete(_, ref) => known - {ref}
    case _ => if Live(after, m.ref) then known else known - {m.ref}
  }

  // ---------- Messages about an order the table has lost ----------

  ghost predicate IsAt(b: Book, ref: uint64, k: Key, i: int) {
    k in b && 0 <= i < |b[k]| && b[k][i].ref == ref
  }

  // The message changes nothing although its order is live: a fill of no shares of
  // an order that has some, or a replacement of the last order of a queue by itself.
  ghost predicate Unmoved(b: Book, m: Message) {
    match m
    case AddOrder(_, _, _, _, _) => false
    case OrderExecuted(_, ref, n) => n == 0 && forall k, i :: IsAt(b, ref, k, i) ==> b[k][i].shares != 0
    case OrderCancel(_, ref, n) => n == 0 && forall k, i :: IsAt(b, ref, k, i) ==> b[k][i].shares != 0
    case OrderDelete(_, _) => false
    case OrderReplace(_, ref, newRef, shares, price) =>
      newRef == ref && forall k, i :: IsAt(b, ref, k, i) ==>
        k.price == price && i == |b[k]| - 1 && b[k][i].shares == shares
  }

  lemma OnlyAt(b: Book, ref: uint64, k: Key, i: nat)
    requires WellFormed(b) && IsAt(b, ref, k, i)
    ensures Live(b, ref) && forall l, j :: IsAt(b, ref, l, j) <==> l == k && j == i
  {
    assert Has(b[k], ref);
  }

  lemma FillUnmovedIff(b: Book, ref: uint64, n: uint32, k: Key, i: nat)
    requires WellFormed(b) && IsAt(b, ref, k, i)
    ensures SweepBook(b, ref, Subtract(n)) == b <==> n == 0 && b[k][i].shares != 0
  {
    SweepBookAt(b, ref, Subtract(n), k, i);
    SweepKeeps(b, ref, Subtract(n));
    FillChanges(b[k], i, n);
    var c: Book := SweepBook(b, ref, Subtract(n));
    hide SweepBook, After, UniqueRefs;
    if n == 0 && b[k][i].shares != 0 {
      SameQueues(c, b);
    }
  }

  lemma FillChanges(q: seq<Order>, i: nat, n: uint32)
    requires i < |q|
    ensures q[..i] + After(Subtract(n), q[i]) + q[i + 1..] == q <==> n == 0 && q[i].shares != 0
  {
    var left := (q[i].shares - n) % U32;
    var r := q[..i] + After(Subtract(n), q[i]) + q[i + 1..];
    if left == 0 {
      assert |r| == |q| - 1;
    } else {
      assert r[i].shares == left;
      assert n != 0 ==> left != q[i].shares;
      assert n == 0 ==> r == q;
    }
  }

  // Leaving a queue and joining its tail again changes nothing for its last order only.
  lemma RejoinUnmovedIff(b: Book, ref: uint64, shares: uint32, k: Key, i: nat)
    requires WellFormed(b) && IsAt(b, ref, k, i)
    ensures Join(SweepBook(b, ref, Drop), ref, k, shares) == b <==> i == |b[k]| - 1 && b[k][i].shares == shares
  {
    var c: Book := Join(SweepBook(b, ref, Drop), ref, k, shares);
    SweepBookAt(b, ref, Drop, k, i);
    SweepKeeps(b, ref, Drop);
    hide SweepBook, UniqueRefs;
    assert Queue(c, k) == b[k][..i] + b[k][i + 1..] + [Order(ref, shares)];
    TailIs(b, ref, shares, k, i);
    if i == |b[k]| - 1 && b[k][i].shares == shares {
      SameQueues(c, b);
    }
  }

  lemma TailIs(b: Book, ref: uint64, shares: uint32, k: Key, i: nat)
    requires WellFormed(b) && IsAt(b, ref, k, i)
    ensures b[k][..i] + b[k][i + 1..] + [Order(ref, shares)] == b[k] <==> i == |b[k]| - 1 && b[k][i].shares == shares
  {
    OnlyAt(b, ref, k, i);
    hide WellFormed, Live;
    var q := b[k][..i] + b[k][i + 1..] + [Order(ref, shares)];
    assert q[|q| - 1] == Order(ref, shares);
    assert i != |b[k]| - 1 ==> !IsAt(b, ref, k, |b[k]| - 1);
  }

  lemma ReplaceUnmovedIff(b: Book, ref: uint64, newRef: uint64, shares: uint32, price: uint32, k: Key, i: nat)
    requires WellFormed(b) && IsAt(b, ref, k, i) && (newRef == ref || !Live(b, newRef))
    ensures var c := Join(SweepBook(b, ref, Drop), newRef, Key(k.bid, price), shares);
            c == b <==> newRef == ref && k.price == price && i == |b[k]| - 1 && b[k][i].shares == shares
  {
    var dropped, target := SweepBook(b, ref, Drop), Key(k.bid, price);
    var c: Book := Join(dropped, newRef, target, shares);
    if newRef != ref {
      hide SweepBook, WellFormed, LiveRefs, Live, Join;
      DropKeeps(b, ref);
      LiveIsMember(b, newRef);
      LiveIsMember(dropped, newRef);
      JoinKeeps(dropped, newRef, target, shares);
    } else if target != k {
      SweepBookAt(b, ref, Drop, k, i);
      hide SweepBook, WellFormed, Live;
      assert Queue(c, k) == Queue(dropped, k);
      assert |Queue(c, k)| == |b[k]| - 1;
    } else {
      RejoinUnmovedIff(b, ref, shares, k, i);
    }
  }

  // What a message about a live order leaves as it was.
  lemma UnmovedIff(b: Book, m: Message)
    requires WellFormed(b) && StartsFresh(b, m) && !m.AddOrder? && Live(b, m.ref)
    ensures Apply(b, m, true) == b <==> Unmoved(b, m)
  {
    var k, i := Locate(b, m.ref);
    OnlyAt(b, m.ref, k, i);
    hide WellFormed, SweepBook, Join;
    match m
    case OrderExecuted(_, ref, n) => FillUnmovedIff(b, ref, n, k, i);
    case OrderCancel(_, ref, n) => FillUnmovedIff(b, ref, n, k, i);
    case OrderDelete(_, ref) =>
      DropKeeps(b, ref);
      LiveIsMember(b, ref);
    case OrderReplace(_, ref, newRef, shares, price) =>
      SideAt(b, ref, k, i);
      ReplaceUnmovedIff(b, ref, newRef, shares, price, k, i);
  }

  lemma SideAt(b: Book, ref: uint64, k: Key, i: nat)
    requires WellFormed(b) && IsAt(b, ref, k, i)
    ensures IsBid(b, ref) == k.bid
  {
    assert Has(b[k], ref);
  }

  // ---------- When the two generations agree ----------

  // The exact condition: an add finds a slot, a fill of a known order is covered,
  // and a message about a lost order is one that changes nothing.
  ghost predicate Agrees(b: Book, m: Message, known: set<uint64>, slot: bool) {
    if m.AddOrder? then slot
    else if Live(b, m.ref) && m.ref !in known then Unmoved(b, m)
    else FillCovered(b, m)
  }

  lemma StepsAgreeIff(b: Book, m: Message, known: set<uint64>, slot: bool)
    requires WellFormed(b) && StartsFresh(b, m)
    ensures ArrayStep(b, m, known, slot) == Apply(b, m, true) <==> Agrees(b, m, known, slot)
  {
    hide WellFormed, SweepBook, Join, Unmoved;
    MessagesAgreeIffCovered(b, m);
    if m.AddOrder? {
      JoinChanges(b, m.ref, Key(m.side == 'B', m.price), m.shares);
    } else if Live(b, m.ref) {
      UnmovedIff(b, m);
    } else {
      AbsentChangesNothing(b, m);
    }
  }

  lemma AbsentChangesNothing(b: Book, m: Message)
    requires WellFormed(b) && !m.AddOrder? && !Live(b, m.ref)
    ensures Apply(b, m, true) == b && Apply(b, m, false) == b
  {
    hide SweepBook;
    match m
    case OrderExecuted(_, ref, n) =>
      SweepBookAbsent(b, ref, Subtract(n));
      SweepBookAbsent(b, ref, Take(n));
    case OrderCancel(_, ref, n) =>
      SweepBookAbsent(b, ref, Subtract(n));
      SweepBookAbsent(b, ref, Take(n));
    case OrderDelete(_, ref) => SweepBookAbsent(b, ref, Drop);
    case OrderReplace(_, _, _, _, _) =>
  }

  // ---------- All books ----------

  // The books of the market and the references their table knows.
  datatype Held = Held(books: Market, known: set<uint64>)

  const NOTHING := Held(map[], {})

  ghost predicate HasSlot(h: Held, cap: Capacity) {
    |MarketRefs(h.books)| < cap.pool
  }

  ghost function HeldStep(h: Held, m: Message, cap: Capacity): Held {
    var after := ArrayStep(BookAt(h.books, m.locate), m, h.known, HasSlot(h, cap));
    Held(h.books[m.locate := after],
         KnownAfter(after, m, h.known, HasSlot(h, cap), 2 * |h.known| < cap.table))
  }

  ghost function HeldRun(msgs: seq<Message>, cap: Capacity): Held {
    if msgs == [] then NOTHING else HeldStep(HeldRun(msgs[..|msgs| - 1], cap), msgs[|msgs| - 1], cap)
  }

  ghost predicate HeldAgrees(h: Held, m: Message, cap: Capacity) {
    Agrees(BookAt(h.books, m.locate), m, h.known, HasSlot(h, cap))
  }

  lemma HeldStepsAgreeIff(h: Held, m: Message, cap: Capacity)
    requires MarketOk(h.books) && Feedable(h.books, m)
    ensures HeldStep(h, m, cap).books == Step(h.books, m, true) <==> HeldAgrees(h, m, cap)
  {
    var b := BookAt(h.books, m.locate);
    FreshInBook(h.books, m);
    hide Apply, Agrees, ArrayStep, KnownAfter, StartsFresh;
    assert WellFormed(b);
    StepsAgreeIff(b, m, h.known, HasSlot(h, cap));
    assert HeldStep(h, m, cap).books[m.locate] == ArrayStep(b, m, h.known, HasSlot(h, cap));
    assert Step(h.books, m, true)[m.locate] == Apply(b, m, true);
  }

  // The books of the two generations are the same after the first n messages.
  ghost predicate SameAfter(msgs: seq<Message>, n: nat, cap: Capacity)
    requires n <= |msgs|
  {
    HeldRun(msgs[..n], cap).books == Run(map[], msgs[..n], true)
  }

  ghost predicate AgreesAt(msgs: seq<Message>, i: nat, cap: Capacity)
    requires i < |msgs|
  {
    HeldAgrees(HeldRun(msgs[..i], cap), msgs[i], cap)
  }

  // Over any feed with fresh references, whatever its fills and however small the
  // pool and the table: the two generations hold the same books all along exactly
  // when every message meets the condition in the state it finds.
  lemma {:induction false} AgreeThroughoutIff(msgs: seq<Message>, cap: Capacity)
    requires FeedRun(msgs)
    ensures (forall n :: 0 <= n <= |msgs| ==> SameAfter(msgs, n, cap))
            <==> (forall i :: 0 <= i < |msgs| ==> AgreesAt(msgs, i, cap))
    decreases |msgs|
  {
    hide *;
    if msgs == [] {
      SameAtStart(msgs, cap);
    } else {
      var n := |msgs| - 1;
      FeedPrefix(msgs, n);
      AgreeThroughoutIff(msgs[..n], cap);
      LastAgreesIff(msgs, cap);
      forall k | 0 <= k <= n
        ensures SameAfter(msgs[..n], k, cap) == SameAfter(msgs, k, cap)
      {
        SameBefore(msgs, n, k, cap);
      }
      forall i | 0 <= i < n
        ensures AgreesAt(msgs[..n], i, cap) == AgreesAt(msgs, i, cap)
      {
        AgreesBefore(msgs, n, i, cap);
      }
    }
  }

  lemma SameAtStart(msgs: seq<Message>, cap: Capacity)
    ensures SameAfter(msgs, 0, cap)
  {
  }

  lemma SameBefore(msgs: seq<Message>, n: nat, k: nat, cap: Capacity)
    requires k <= n <= |msgs|
    ensures SameAfter(msgs[..n], k, cap) == SameAfter(msgs, k, cap)
  {
    assert msgs[..n][..k] == msgs[..k];
  }

  lemma AgreesBefore(msgs: seq<Message>, n: nat, i: nat, cap: Capacity)
    requires i < n <= |msgs|
    ensures AgreesAt(msgs[..n], i, cap) == AgreesAt(msgs, i, cap)
  {
    assert msgs[..n][..i] == msgs[..i];
  }

  lemma LastAgreesIff(msgs: seq<Message>, cap: Capacity)
    requires msgs != [] && FeedRun(msgs)
    ensures var n := |msgs| - 1;
            SameAfter(msgs, n, cap) ==> (SameAfter(msgs, |msgs|, cap) <==> AgreesAt(msgs, n, cap))
  {
    hide HeldStep, HeldAgrees, Step, Feedable, MarketOk;
    var n := |msgs| - 1;
    assert msgs[..|msgs|] == msgs;
    assert Feedable(Run(map[], msgs[..n], true), msgs[n]);
    FeedPrefix(msgs, n);
    FeedKeeps(msgs[..n]);
    var h := HeldRun(msgs[..n], cap);
    if h.books == Run(map[], msgs[..n], true) {
      HeldStepsAgreeIff(h, msgs[n], cap);
    }
  }

  // ---------- Feeds that keep the promises ----------

  // A book whose references are all known: they are so afterwards.
  lemma RefsAfter(b: Book, m: Message)
    requires WellFormed(b) && StartsFresh(b, m)
    ensures var c := Apply(b, m, false); LiveRefs(c) == KnownAfter(c, m, LiveRefs(b), true, true)
  {
    hide WellFormed, SweepBook, Join, LiveRefs, Live;
    var c := Apply(b, m, false);
    LiveIsMember(b, m.ref);
    LiveIsMember(c, m.ref);
    match m
    case AddOrder(_, ref, side, shares, price) => JoinKeeps(b, ref, Key(side == 'B', price), shares);
    case OrderExecuted(_, ref, n) => SweepKeeps(b, ref, Take(n));
    case OrderCancel(_, ref, n) => SweepKeeps(b, ref, Take(n));
    case OrderDelete(_, ref) => DropKeeps(b, ref);
    case OrderReplace(_, ref, newRef, shares, price) =>
      LiveIsMember(b, newRef);
      if Live(b, ref) {
        DropKeeps(b, ref);
        LiveIsMember(SweepBook(b, ref, Drop), newRef);
        JoinKeeps(SweepBook(b, ref, Drop), newRef, Key(IsBid(b, ref), price), shares);
      }
  }

  // The references of the other books.
  ghost function OtherRefs(mk: Market, locate: uint16): set<uint64> {
    set l, r | l in mk && l != locate && r in LiveRefs(mk[l]) :: r
  }

  lemma RefsSplit(mk: Market, locate: uint16)
    ensures MarketRefs(mk) == OtherRefs(mk, locate) + LiveRefs(BookAt(mk, locate))
    ensures MarketOk(mk) ==> OtherRefs(mk, locate) !! LiveRefs(BookAt(mk, locate))
  {
    assert locate !in mk ==> LiveRefs(BookAt(mk, locate)) == {};
  }

  lemma OtherRefsStay(mk: Market, locate: uint16, b: Book)
    ensures OtherRefs(mk[locate := b], locate) == OtherRefs(mk, locate)
  {
    var mk' := mk[locate := b];
    assert forall l :: l != locate ==> (l in mk' <==> l in mk) && (l in mk ==> mk'[l] == mk[l]);
  }

  // On an admissible message, with every live reference known, the generations
  // agree and every live reference is known again.
  lemma AdmissibleAgrees(mk: Market, m: Message, cap: Capacity)
    requires MarketOk(mk) && Admissible(mk, m, cap)
    ensures var h := Held(mk, MarketRefs(mk));
            && HeldAgrees(h, m, cap)
            && HeldStep(h, m, cap) == Held(Step(mk, m, true), MarketRefs(Step(mk, m, true)))
  {
    hide *;
    KnownOrAbsent(mk, m, cap);
    AdmissibleStep(mk, m, cap);
    KnownFollows(mk, m);
    StepsAgree(mk, m, cap);
  }

  lemma AdmissibleStep(mk: Market, m: Message, cap: Capacity)
    requires MarketOk(mk) && Admissible(mk, m, cap)
    ensures var after := Apply(BookAt(mk, m.locate), m, false);
            && HeldStep(Held(mk, MarketRefs(mk)), m, cap)
               == Held(mk[m.locate := after], KnownAfter(after, m, MarketRefs(mk), true, true))
            && Step(mk, m, false) == mk[m.locate := after]
  {
    hide Apply, MarketRefs, MarketOk, Feedable, FillCovered, ArrayStep, KnownAfter;
    var h, b := Held(mk, MarketRefs(mk)), BookAt(mk, m.locate);
    AllKnownIsTaken(mk, m, HasSlot(h, cap));
    KnownWithRoom(Apply(b, m, false), m, h.known, HasSlot(h, cap), 2 * |h.known| < cap.table);
  }

  lemma AllKnownIsTaken(mk: Market, m: Message, slot: bool)
    requires MarketOk(mk) && (m.AddOrder? ==> slot)
    ensures var b := BookAt(mk, m.locate); ArrayStep(b, m, MarketRefs(mk), slot) == Apply(b, m, false)
  {
    var b := BookAt(mk, m.locate);
    LiveIsMember(b, m.ref);
    RefsSplit(mk, m.locate);
    BookAtOk(mk, m.locate);
    hide Apply, MarketRefs, LiveRefs, WellFormed, Live, MarketOk;
    if !m.AddOrder? && m.ref !in MarketRefs(mk) {
      AbsentChangesNothing(b, m);
    }
  }

  lemma KnownWithRoom(after: Book, m: Message, known: set<uint64>, slot: bool, room: bool)
    requires m.AddOrder? ==> slot && room
    ensures KnownAfter(after, m, known, slot, room) == KnownAfter(after, m, known, true, true)
  {
  }

  lemma BookAtOk(mk: Market, locate: uint16)
    requires MarketOk(mk)
    ensures WellFormed(BookAt(mk, locate))
  {
  }

  lemma KnownFollows(mk: Market, m: Message)
    requires MarketOk(mk) && Feedable(mk, m)
    ensures var mk' := Step(mk, m, false);
            KnownAfter(Apply(BookAt(mk, m.locate), m, false), m, MarketRefs(mk), true, true) == MarketRefs(mk')
  {
    var b := BookAt(mk, m.locate);
    var after := Apply(b, m, false);
    FreshInBook(mk, m);
    LiveIsMember(b, m.ref);
    RefsSplit(mk, m.locate);
    BookAtOk(mk, m.locate);
    RefsAfter(b, m);
    assert m.ref !in OtherRefs(mk, m.locate);
    OtherRefsStay(mk, m.locate, after);
    RefsSplit(mk[m.locate := after], m.locate);
    hide Apply, LiveRefs, OtherRefs, MarketRefs, MarketOk, WellFormed, Live;
    KnownSplits(after, m, OtherRefs(mk, m.locate), LiveRefs(b));
  }

  // The promises are exactly what agreement takes while every order is known: without
  // them the generations part or an order is lost.
  lemma AdmissibleIff(mk: Market, m: Message, cap: Capacity)
    requires MarketOk(mk) && Feedable(mk, m)
    ensures var h := Held(mk, MarketRefs(mk));
            var next := HeldStep(h, m, cap);
            Admissible(mk, m, cap) <==> HeldAgrees(h, m, cap) && next.known == MarketRefs(next.books)
  {
    var h := Held(mk, MarketRefs(mk));
    if Admissible(mk, m, cap) {
      AdmissibleAgrees(mk, m, cap);
    } else if HeldAgrees(h, m, cap) {
      AllKnownIsNotLost(mk, m);
      LostWithoutRoom(mk, m, cap);
    }
  }

  lemma AllKnownIsNotLost(mk: Market, m: Message)
    ensures Live(BookAt(mk, m.locate), m.ref) ==> m.ref in MarketRefs(mk)
  {
    LiveIsMember(BookAt(mk, m.locate), m.ref);
    RefsSplit(mk, m.locate);
  }

  lemma LostWithoutRoom(mk: Market, m: Message, cap: Capacity)
    requires MarketOk(mk) && Feedable(mk, m) && m.AddOrder? && HasSlot(Held(mk, MarketRefs(mk)), cap)
    ensures var next := HeldStep(Held(mk, MarketRefs(mk)), m, cap);
            next.known == MarketRefs(next.books) ==> 2 * |MarketRefs(mk)| < cap.table
  {
    KnownFollows(mk, m);
    hide Apply, MarketRefs, MarketOk, HasSlot;
  }

  lemma KnownOrAbsent(mk: Market, m: Message, cap: Capacity)
    requires Admissible(mk, m, cap)
    ensures Feedable(mk, m) && HeldAgrees(Held(mk, MarketRefs(mk)), m, cap)
  {
    var b := BookAt(mk, m.locate);
    LiveIsMember(b, m.ref);
    RefsSplit(mk, m.locate);
  }

  lemma KnownSplits(after: Book, m: Message, others: set<uint64>, own: set<uint64>)
    requires m.ref !in others
    ensures KnownAfter(after, m, others + own, true, true) == others + KnownAfter(after, m, own, true, true)
  {
  }

  // The references are fresh to the array books too.
  ghost predicate FeedHeld(msgs: seq<Message>, cap: Capacity) {
    forall i :: 0 <= i < |msgs| ==> Feedable(HeldRun(msgs[..i], cap).books, msgs[i])
  }

  // Along an admissible feed every live reference is known, and the generations agree.
  lemma {:induction false} AdmissibleRunAgrees(msgs: seq<Message>, cap: Capacity)
    requires AdmissibleRun(msgs, cap)
    ensures HeldRun(msgs, cap) == Held(Run(map[], msgs, true), MarketRefs(Run(map[], msgs, true)))
    ensures FeedRun(msgs) && FeedHeld(msgs, cap)
    ensures forall i :: 0 <= i < |msgs| ==> AgreesAt(msgs, i, cap)
    decreases |msgs|
  {
    hide *;
    if msgs == [] {
      NothingYet(cap);
    } else {
      var n := |msgs| - 1;
      AdmissiblePrefix(msgs, n, cap);
      AdmissibleRunAgrees(msgs[..n], cap);
      LastIsAdmissible(msgs, cap);
      FeedSplit(msgs, cap);
      forall i | 0 <= i < n
        ensures AgreesAt(msgs, i, cap)
      {
        AgreesBefore(msgs, n, i, cap);
      }
    }
  }

  lemma NothingYet(cap: Capacity)
    ensures HeldRun([], cap) == Held(Run(map[], [], true), MarketRefs(Run(map[], [], true)))
    ensures FeedRun([]) && FeedHeld([], cap)
  {
    NoRefs();
  }

  lemma LastIsAdmissible(msgs: seq<Message>, cap: Capacity)
    requires msgs != [] && AdmissibleRun(msgs, cap)
    requires var mk := Run(map[], msgs[..|msgs| - 1], true);
             HeldRun(msgs[..|msgs| - 1], cap) == Held(mk, MarketRefs(mk))
    ensures HeldRun(msgs, cap) == Held(Run(map[], msgs, true), MarketRefs(Run(map[], msgs, true)))
    ensures var n := |msgs| - 1;
            && Feedable(Run(map[], msgs[..n], true), msgs[n]) && Feedable(HeldRun(msgs[..n], cap).books, msgs[n])
            && AgreesAt(msgs, n, cap)
  {
    hide Admissible, Feedable, HeldStep, Step, HeldAgrees, MarketRefs, MarketOk;
    var n := |msgs| - 1;
    var mk := Run(map[], msgs[..n], true);
    assert Admissible(mk, msgs[n], cap);
    AdmissiblePrefix(msgs, n, cap);
    RunKeeps(msgs[..n], cap);
    AdmissibleAgrees(mk, msgs[n], cap);
    KnownOrAbsent(mk, msgs[n], cap);
  }

  lemma FeedSplit(msgs: seq<Message>, cap: Capacity)
    requires msgs != [] && FeedRun(msgs[..|msgs| - 1]) && FeedHeld(msgs[..|msgs| - 1], cap)
    requires var n := |msgs| - 1;
             Feedable(Run(map[], msgs[..n], true), msgs[n]) && Feedable(HeldRun(msgs[..n], cap).books, msgs[n])
    ensures FeedRun(msgs) && FeedHeld(msgs, cap)
  {
    hide Feedable, Run, HeldRun;
    var n := |msgs| - 1;
    forall i | 0 <= i < n
      ensures Feedable(Run(map[], msgs[..i], true), msgs[i]) && Feedable(HeldRun(msgs[..i], cap).books, msgs[i])
    {
      assert msgs[..n][..i] == msgs[..i] && msgs[..n][i] == msgs[i];
    }
  }

  lemma NoRefs()
    ensures MarketRefs(map[]) == {}
  {
  }
}
