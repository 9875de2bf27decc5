/** What the tracker's final state depends on: not the order or repetition of
    arrivals, and in step with the simpler tracker of the v1 receiver. */
module GapOrder {
  import opened Numbers
  import opened GapTracking

  // Packets are pairwise the same or without a common number.
  ghost predicate NoOverlaps(ps: seq<Packet>) {
    forall p, q :: p in ps && q in ps && p != q ==> Span(p) !! Span(q)
  }

  ghost predicate StartsLowest(ps: seq<Packet>) {
    ps != [] && forall p :: p in ps ==> ps[0].seqNo <= p.seqNo
  }

  ghost predicate Carried(ps: seq<Packet>, x: int) {
    exists p :: p in ps && x in Span(p)
  }

  // Every distinct packet is taken once: the numbers taken are those carried.
  lemma {:induction false} TakenIsCarried(ps: seq<Packet>)
    requires InBoundsRun(ps) && NoneEmpty(ps) && NoOverlaps(ps) && StartsLowest(ps)
    ensures forall x :: x in Taken(ps) <==> Carried(ps, x)
    decreases |ps|
  {
    hide Step, InBounds, InBoundsRun, Recovering, Run, Taken;
    var n := |ps| - 1;
    var before, p := ps[..n], ps[n];
    assert forall q :: q in ps <==> q in before || q == p;
    assert p.seqNo in Span(p);
    LastIsTakenIfNew(ps);
    NothingTaken();
    if n > 0 {
      PrefixInBounds(ps, n);
      assert before[0] == ps[0];
      TakenIsCarried(before);
    } else {
      assert before == [];
    }
    forall x
      ensures x in Taken(ps) <==> Carried(ps, x)
    {
      assert Carried(ps, x) <==> Carried(before, x) || x in Span(p);
    }
  }

  lemma LastIsTakenIfNew(ps: seq<Packet>)
    requires InBoundsRun(ps) && NoneEmpty(ps) && StartsLowest(ps)
    ensures var n := |ps| - 1;
            Taken(ps) == Taken(ps[..n]) + if Taken(ps[..n]) !! Span(ps[n]) then Span(ps[n]) else {}
  {
    hide Step, InBounds, InBoundsRun, Recovering, Run;
    CompleteRecovery(ps);
    assert ps[|ps| - 1] in ps;
  }

  lemma NothingTaken()
    ensures Taken([]) == {}
  {
  }

  // Each distinct packet is accepted the first time it arrives, and only then.
  lemma AcceptedOnFirstArrival(ps: seq<Packet>, i: nat)
    requires InBoundsRun(ps) && NoneEmpty(ps) && NoOverlaps(ps) && StartsLowest(ps) && i < |ps|
    ensures Accepts(ps, i) <==> ps[i] !in ps[..i]
  {
    hide Step, InBounds, InBoundsRun, Recovering, Run, Taken, Accepts;
    CompleteRecovery(ps);
    assert ps[i] in ps && ps[i].seqNo in Span(ps[i]);
    if i > 0 {
      PrefixInBounds(ps, i);
      var before := ps[..i];
      assert before[0] == ps[0] && forall p :: p in before ==> p in ps;
      TakenIsCarried(before);
      assert ps[i] in before ==> Carried(before, ps[i].seqNo);
    } else {
      NothingTaken();
      assert ps[..i] == [];
    }
  }

  // Maximal gaps are determined by the numbers they cover.
  lemma GapsAreCanonical(a: Gaps, b: Gaps, first: int, high: int)
    requires GapsOk(a, first, high) && GapsOk(b, first, high) && Separated(a) && Separated(b)
    requires forall x :: Pending(a, x) <==> Pending(b, x)
    ensures a == b
  {
    forall g | g in a
      ensures g in b && b[g] == a[g]
    {
      SameGap(a, b, first, high, g);
    }
    forall g | g in b
      ensures g in a
    {
      SameGap(b, a, first, high, g);
    }
  }

  lemma SameGap(a: Gaps, b: Gaps, first: int, high: int, g: int)
    requires GapsOk(a, first, high) && GapsOk(b, first, high) && Separated(a) && Separated(b)
    requires forall x :: Pending(a, x) <==> Pending(b, x)
    requires g in a
    ensures g in b && b[g] == a[g]
  {
    var h := Covering(a, b, first, high, g);
    var k := Covering(b, a, first, high, h);
  }

  // A gap of one map lies inside a gap of the other.
  lemma Covering(a: Gaps, b: Gaps, first: int, high: int, g: int) returns (h: int)
    requires GapsOk(a, first, high) && GapsOk(b, first, high) && Separated(b)
    requires forall x :: Pending(a, x) ==> Pending(b, x)
    requires g in a
    ensures h in b && h <= g && g + a[g] <= h + b[h]
  {
    assert Pending(a, g);
    h :| h in b && h <= g < h + b[h];
    GapEndIsNotPending(b, first, high, h);
  }

  // The expected number is one past the last number taken.
  lemma SameHigh(t: State, u: State, first: int, taken: set<int>)
    requires Recovering(t, first, taken) && Recovering(u, first, taken)
    ensures t.high == u.high
  {
    assert t.high - 1 < u.high && u.high - 1 < t.high;
  }

  lemma RecoveringParts(t: State, first: int, taken: set<int>)
    requires Recovering(t, first, taken)
    ensures GapsOk(t.gaps, first, t.high) && Separated(t.gaps)
    ensures forall x :: Pending(t.gaps, x) <==> first <= x < t.high && x !in taken
  {
  }

  // Any two arrivals of the same packets that start with the lowest, repeated
  // and reordered in any way, leave the same expected number and pending gaps.
  lemma OrderInsensitive(ps: seq<Packet>, qs: seq<Packet>)
    requires forall p :: p in ps <==> p in qs
    requires InBoundsRun(ps) && InBoundsRun(qs) && NoneEmpty(ps) && NoOverlaps(ps)
    requires StartsLowest(ps) && StartsLowest(qs)
    ensures Run(ps).high == Run(qs).high && Run(ps).gaps == Run(qs).gaps
  {
    hide Run, InBoundsRun, Step, Taken, Recovering;
    assert NoneEmpty(qs) by {
      assert forall i :: 0 <= i < |qs| ==> qs[i] in ps;
    }
    assert ps[0] in qs && qs[0] in ps;
    TakenIsCarried(ps);
    TakenIsCarried(qs);
    CompleteRecovery(ps);
    CompleteRecovery(qs);
    assert Taken(ps) == Taken(qs) by {
      forall x
        ensures x in Taken(ps) <==> x in Taken(qs)
      {
        assert Carried(ps, x) <==> Carried(qs, x);
      }
    }
    RecoveringParts(Run(ps), ps[0].seqNo, Taken(ps));
    RecoveringParts(Run(qs), ps[0].seqNo, Taken(qs));
    SameHigh(Run(ps), Run(qs), ps[0].seqNo, Taken(ps));
    GapsAreCanonical(Run(ps).gaps, Run(qs).gaps, ps[0].seqNo, Run(ps).high);
  }

  // ---------- The count of numbers still missing ----------

  lemma SomeGap(gaps: Gaps)
    requires gaps != map[]
    ensures exists g :: g in gaps
  {
    assert (forall g :: g !in gaps) ==> gaps == map[];
  }

  ghost function Total(gaps: Gaps): int {
    if gaps == map[] then 0
    else
      SomeGap(gaps);
      var g :| g in gaps;
      gaps[g] + Total(gaps - {g})
  }

  lemma {:induction false} TotalWithout(gaps: Gaps, g: int)
    requires g in gaps
    ensures Total(gaps) == gaps[g] + Total(gaps - {g})
    decreases |gaps|
  {
    var h :| h in gaps && Total(gaps) == gaps[h] + Total(gaps - {h});
    if h != g {
      TotalWithout(gaps - {h}, g);
      TotalWithout(gaps - {g}, h);
      assert gaps - {h} - {g} == gaps - {g} - {h};
    }
  }

  lemma TotalWith(gaps: Gaps, g: int, len: int)
    requires g !in gaps
    ensures Total(gaps[g := len]) == Total(gaps) + len
  {
    TotalWithout(gaps[g := len], g);
    assert gaps[g := len] - {g} == gaps;
  }

  // When the packets leave no number out nothing is reported lost.
  lemma ContiguousIsComplete(ps: seq<Packet>, end: int)
    requires InBoundsRun(ps) && NoneEmpty(ps) && NoOverlaps(ps) && StartsLowest(ps)
    requires forall x :: Carried(ps, x) <==> ps[0].seqNo <= x < end
    ensures Run(ps).gaps == map[] && Total(Run(ps).gaps) == 0 && Run(ps).high == end
  {
    TakenIsCarried(ps);
    CompleteRecovery(ps);
    hide Run, InBoundsRun, Step, Taken;
    var t, taken := Run(ps), Taken(ps);
    assert ps[0].seqNo in Span(ps[0]) && ps[0] in ps;
    assert Carried(ps, ps[0].seqNo);
    assert Carried(ps, end - 1);
    assert end - 1 in taken && t.high - 1 in taken;
    forall g
      ensures g !in t.gaps
    {
      assert g in t.gaps ==> Pending(t.gaps, g);
    }
  }

  // ---------- The v1 receiver's tracker ----------

  datatype Simple = Simple(expected: int, gaps: nat, lost: int, dups: nat)

  ghost function SimpleStep(t0: Simple, p: Packet): (Simple, bool) {
    var t := if t0.expected == 0 then t0.(expected := p.seqNo) else t0;
    if p.seqNo < t.expected then (t.(dups := t.dups + 1), false)
    else if p.seqNo > t.expected then
      (t.(gaps := t.gaps + 1, lost := t.lost + (p.seqNo - t.expected), expected := p.seqNo + p.count), true)
    else (t.(expected := p.seqNo + p.count), true)
  }

  // It takes every packet that is not behind what it expects.
  lemma SimpleDecision(t: Simple, p: Packet)
    ensures SimpleStep(t, p).1 <==> t.expected == 0 || p.seqNo >= t.expected
    ensures SimpleStep(t, p).1 ==> SimpleStep(t, p).0.expected == p.seqNo + p.count
    ensures !SimpleStep(t, p).1 ==> SimpleStep(t, p).0 == t.(dups := t.dups + 1)
  {
  }

  ghost function SimpleRun(ps: seq<Packet>): Simple {
    if ps == [] then Simple(0, 0, 0, 0) else SimpleStep(SimpleRun(ps[..|ps| - 1]), ps[|ps| - 1]).0
  }

  // How many packets the gap tracker took late.
  ghost function Late(ps: seq<Packet>): nat {
    if ps == [] then 0
    else
      var n := |ps| - 1;
      var t := Started(Run(ps[..n]), ps[n]);
      Late(ps[..n]) + if Accepts(ps, n) && ps[n].seqNo < t.high then 1 else 0
  }

  // The two trackers in step: late of the packets were taken late.
  ghost predicate InStep(s: Simple, t: State, late: nat) {
    && s.expected == t.high && s.gaps == t.gapEvents
    && s.lost == t.recovered + Total(t.gaps)
    && s.dups == t.dups + late
  }

  lemma InsideIsNoKey(gaps: Gaps, first: int, high: int, g: int, x: int)
    requires GapsOk(gaps, first, high) && g in gaps
    ensures 1 <= gaps[g] < U16
    ensures g < x < g + gaps[g] ==> x !in gaps
  {
  }

  lemma CarveTotal(gaps: Gaps, first: int, high: int, g: int, p: Packet)
    requires GapsOk(gaps, first, high) && g in gaps
    requires g <= p.seqNo && p.seqNo + p.count <= g + gaps[g]
    ensures Total(Carve(gaps, g, p.seqNo, p.count)) == Total(gaps) - p.count
  {
    hide GapsOk, Total;
    var len, end := gaps[g], p.seqNo + p.count;
    var rest := gaps - {g};
    TotalWithout(gaps, g);
    InsideIsNoKey(gaps, first, high, g, end);
    assert Cast16(len - p.count) == len - p.count && Cast16(p.seqNo - g) == p.seqNo - g;
    assert end < g + len ==> Cast16(g + len - end) == g + len - end;
    if p.seqNo == g && p.count == len {
    } else if p.seqNo == g {
      TotalWith(rest, end, len - p.count);
    } else if end == g + len {
      assert gaps[g := p.seqNo - g] == rest[g := p.seqNo - g];
      TotalWith(rest, g, p.seqNo - g);
    } else {
      TotalWith(rest, g, p.seqNo - g);
      TotalWith(rest[g := p.seqNo - g], end, g + len - end);
    }
  }

  lemma InStepStep(s: Simple, t: State, late: nat, p: Packet, first: int, taken: set<int>)
    requires InStep(s, t, late) && Partitioned(t, first, taken) && InBounds(t, p)
    ensures var (u, accepted) := Step(t, p);
            && InStep(SimpleStep(s, p).0, u, late + if accepted && p.seqNo < t.high then 1 else 0)
            && (SimpleStep(s, p).1 <==> accepted && p.seqNo >= t.high)
  {
    if p.seqNo > t.high {
      AheadAddsGap(t.gaps, first, t.high, p);
      TotalWith(t.gaps, t.high, p.seqNo - t.high);
      assert Cast16(p.seqNo - t.high) == p.seqNo - t.high;
    } else if p.seqNo < t.high && HostGap(t.gaps, p).Some? {
      HostedIsPending(t.gaps, p);
      CarveTotal(t.gaps, first, t.high, HostGap(t.gaps, p).value, p);
    }
  }

  // The simple tracker takes the i-th packet exactly when the gap tracker takes it
  // and it is not behind the number expected.
  ghost predicate TakenAlike(ps: seq<Packet>, i: nat)
    requires i < |ps|
  {
    SimpleStep(SimpleRun(ps[..i]), ps[i]).1
    <==> Accepts(ps, i) && ps[i].seqNo >= Started(Run(ps[..i]), ps[i]).high
  }

  // Fed the same packets, the simple tracker expects the same number and counts
  // the same gaps; it takes exactly what the gap tracker takes without recourse to
  // a gap; what it calls lost is what the other has recovered or still misses; and
  // what it calls duplicate is what the other calls so or has taken late.
  lemma {:induction false} TrackersInStep(ps: seq<Packet>)
    requires ps != [] && InBoundsRun(ps)
    ensures InStep(SimpleRun(ps), Run(ps), Late(ps))
    ensures forall i :: 0 <= i < |ps| ==> TakenAlike(ps, i)
    decreases |ps|
  {
    hide Step, InStep, InBounds, Partitioned, SimpleStep, Started;
    var n := |ps| - 1;
    assert InBounds(Run(ps[..n]), ps[n]);
    BoundsOf(Run(ps[..n]), ps[n]);
    if n == 0 {
      assert ps[..0] == [] && Run(ps[..0]) == START;
      FirstInStep(ps[0]);
    } else {
      PrefixInBounds(ps, n);
      TrackersInStep(ps[..n]);
      ExactlyOnce(ps[..n]);
      InStepStep(SimpleRun(ps[..n]), Run(ps[..n]), Late(ps[..n]), ps[n], ps[0].seqNo, Taken(ps[..n]));
      AlreadyStarted(Run(ps[..n]), ps[n], ps[0].seqNo, Taken(ps[..n]));
      forall i | 0 <= i < n
        ensures TakenAlike(ps, i)
      {
        assert ps[..n][..i] == ps[..i] && ps[..n][i] == ps[i];
        assert TakenAlike(ps[..n], i);
      }
    }
  }

  lemma AlreadyStarted(t: State, p: Packet, first: int, taken: set<int>)
    requires Partitioned(t, first, taken)
    ensures Started(t, p) == t
  {
  }

  lemma FirstInStep(p: Packet)
    requires 1 <= p.seqNo
    ensures InStep(SimpleStep(Simple(0, 0, 0, 0), p).0, Step(START, p).0, 0)
    ensures SimpleStep(Simple(0, 0, 0, 0), p).1 && Step(START, p).1 && Started(START, p).high == p.seqNo
  {
    FirstPacket(p);
  }
}
