/** What the trackers' counters count, said without the trackers' arithmetic. */
module GapCounts {
  import opened GapTracking
  import opened GapOrder

  // The state that the i-th packet meets.
  ghost function Before(ps: seq<Packet>, i: int): State
    requires 0 <= i < |ps|
  {
    Started(Run(ps[..i]), ps[i])
  }

  ghost predicate IsAhead(ps: seq<Packet>, i: int)
    requires 0 <= i < |ps|
  {
    ps[i].seqNo > Before(ps, i).high
  }

  // Taken late: out of a gap.
  ghost predicate IsLate(ps: seq<Packet>, i: int)
    requires 0 <= i < |ps|
  {
    Accepts(ps, i) && ps[i].seqNo < Before(ps, i).high
  }

  ghost function Aheads(ps: seq<Packet>): set<int> {
    set i | 0 <= i < |ps| && IsAhead(ps, i)
  }

  ghost function Refused(ps: seq<Packet>): set<int> {
    set i | 0 <= i < |ps| && !Accepts(ps, i)
  }

  ghost function Lates(ps: seq<Packet>): set<int> {
    set i | 0 <= i < |ps| && IsLate(ps, i)
  }

  // The numbers that packets taken late carried.
  ghost function LateNumbers(ps: seq<Packet>): set<int> {
    set i, x | 0 <= i < |ps| && IsLate(ps, i) && x in Span(ps[i]) :: x
  }

  // The numbers between the first and the expected one that no accepted packet carried.
  ghost function Missing(ps: seq<Packet>): set<int>
    requires ps != []
  {
    set x | ps[0].seqNo <= x < Run(ps).high && x !in Taken(ps)
  }

  // ---------- Counting over a run ----------

  lemma StepCounts(t0: State, p: Packet)
    ensures var t, (u, accepted) := Started(t0, p), Step(t0, p);
            && u.gapEvents == t0.gapEvents + (if p.seqNo > t.high then 1 else 0)
            && u.dups == t0.dups + (if accepted then 0 else 1)
            && u.recovered == t0.recovered + (if accepted && p.seqNo < t.high then p.count else 0)
  {
  }

  lemma SameBefore(ps: seq<Packet>, n: nat, i: nat)
    requires i < n <= |ps|
    ensures IsAhead(ps[..n], i) == IsAhead(ps, i) && Accepts(ps[..n], i) == Accepts(ps, i)
    ensures IsLate(ps[..n], i) == IsLate(ps, i) && ps[..n][i] == ps[i]
  {
    assert ps[..n][..i] == ps[..i];
  }

  lemma LastIndex(ps: seq<Packet>)
    requires ps != []
    ensures var n := |ps| - 1;
            && Aheads(ps) == Aheads(ps[..n]) + (if IsAhead(ps, n) then {n} else {})
            && Refused(ps) == Refused(ps[..n]) + (if Accepts(ps, n) then {} else {n})
            && Lates(ps) == Lates(ps[..n]) + (if IsLate(ps, n) then {n} else {})
            && LateNumbers(ps) == LateNumbers(ps[..n]) + (if IsLate(ps, n) then Span(ps[n]) else {})
  {
    hide IsAhead, IsLate, Accepts, Span;
    var n := |ps| - 1;
    forall i | 0 <= i < n
      ensures IsAhead(ps[..n], i) == IsAhead(ps, i) && Accepts(ps[..n], i) == Accepts(ps, i)
      ensures IsLate(ps[..n], i) == IsLate(ps, i) && ps[..n][i] == ps[i]
    {
      SameBefore(ps, n, i);
    }
    LastLateNumbers(ps);
  }

  lemma LastLateNumbers(ps: seq<Packet>)
    requires ps != []
    ensures var n := |ps| - 1;
            LateNumbers(ps) == LateNumbers(ps[..n]) + (if IsLate(ps, n) then Span(ps[n]) else {})
  {
    hide IsLate, Span;
    var n := |ps| - 1;
    forall x
      ensures x in LateNumbers(ps) <==> x in LateNumbers(ps[..n]) || (IsLate(ps, n) && x in Span(ps[n]))
    {
      if x in LateNumbers(ps) {
        var i :| 0 <= i < |ps| && IsLate(ps, i) && x in Span(ps[i]);
        if i < n {
          SameBefore(ps, n, i);
        }
      }
      if x in LateNumbers(ps[..n]) {
        var i :| 0 <= i < n && IsLate(ps[..n], i) && x in Span(ps[..n][i]);
        SameBefore(ps, n, i);
      }
    }
  }

  lemma {:induction false} IntervalSize(a: int, n: nat)
    ensures |Interval(a, n)| == n
    decreases n
  {
    if n > 0 {
      IntervalSize(a, n - 1);
    }
  }

  // Numbers taken late were not taken before, so each is counted once.
  lemma LateWereTaken(ps: seq<Packet>)
    ensures LateNumbers(ps) <= Taken(ps)
  {
    forall x | x in LateNumbers(ps)
      ensures x in Taken(ps)
    {
      var i :| 0 <= i < |ps| && IsLate(ps, i) && x in Span(ps[i]);
      AcceptedIsTaken(ps, i, x);
    }
  }

  lemma {:induction false} AcceptedIsTaken(ps: seq<Packet>, i: nat, x: int)
    requires i < |ps| && Accepts(ps, i) && x in Span(ps[i])
    ensures x in Taken(ps)
    decreases |ps|
  {
    hide Step, Span;
    var n := |ps| - 1;
    if i < n {
      SameBefore(ps, n, i);
      AcceptedIsTaken(ps[..n], i, x);
    }
  }

  // The gap events are the packets ahead, the duplicates are the packets refused,
  // and the recovered are the numbers taken late.
  lemma {:induction false} CountersCount(ps: seq<Packet>)
    requires InBoundsRun(ps)
    ensures Run(ps).gapEvents == |Aheads(ps)| && Run(ps).dups == |Refused(ps)|
    ensures Run(ps).recovered == |LateNumbers(ps)|
    ensures Late(ps) == |Lates(ps)|
    decreases |ps|
  {
    hide Step, IsAhead, IsLate, Taken, LateNumbers, Aheads, Refused, Lates, InBoundsRun;
    if ps == [] {
      NoneYet();
    } else {
      var n := |ps| - 1;
      PrefixInBounds(ps, n);
      CountersCount(ps[..n]);
      LastIndex(ps);
      FreshIndex(ps);
      LastCounts(ps);
      LateIsNew(ps);
    }
  }

  lemma NoneYet()
    ensures Aheads([]) == {} && Refused([]) == {} && Lates([]) == {} && LateNumbers([]) == {}
    ensures Run([]) == START && Late([]) == 0
  {
  }

  lemma FreshIndex(ps: seq<Packet>)
    requires ps != []
    ensures var n := |ps| - 1; n !in Aheads(ps[..n]) && n !in Refused(ps[..n]) && n !in Lates(ps[..n])
  {
    hide IsAhead, IsLate, Accepts;
  }

  lemma LastCounts(ps: seq<Packet>)
    requires ps != []
    ensures var n := |ps| - 1;
            && Run(ps).gapEvents == Run(ps[..n]).gapEvents + (if IsAhead(ps, n) then 1 else 0)
            && Run(ps).dups == Run(ps[..n]).dups + (if Accepts(ps, n) then 0 else 1)
            && Run(ps).recovered == Run(ps[..n]).recovered + (if IsLate(ps, n) then ps[n].count else 0)
            && Late(ps) == Late(ps[..n]) + (if IsLate(ps, n) then 1 else 0)
  {
    hide Step;
    StepCounts(Run(ps[..|ps| - 1]), ps[|ps| - 1]);
  }

  lemma LateIsNew(ps: seq<Packet>)
    requires ps != [] && InBoundsRun(ps)
    ensures var n := |ps| - 1;
            IsLate(ps, n) ==> LateNumbers(ps[..n]) !! Span(ps[n]) && |Span(ps[n])| == ps[n].count
  {
    hide Step, InBoundsRun, LateNumbers, Taken;
    var n := |ps| - 1;
    ExactlyOnce(ps);
    LateWereTaken(ps[..n]);
    IntervalSize(ps[n].seqNo, ps[n].count);
  }

  // ---------- What is still missing ----------

  ghost function PendingIn(gaps: Gaps, first: int, high: int): set<int> {
    set x | first <= x < high && Pending(gaps, x)
  }

  lemma {:induction false} TotalIsPending(gaps: Gaps, first: int, high: int)
    requires GapsOk(gaps, first, high)
    ensures Total(gaps) == |PendingIn(gaps, first, high)|
    decreases |gaps|
  {
    if gaps == map[] {
      assert PendingIn(gaps, first, high) == {};
    } else {
      SomeGap(gaps);
      var g :| g in gaps;
      TotalWithout(gaps, g);
      TotalIsPending(gaps - {g}, first, high);
      PendingSplits(gaps, first, high, g);
      IntervalSize(g, gaps[g]);
    }
  }

  lemma PendingSplits(gaps: Gaps, first: int, high: int, g: int)
    requires GapsOk(gaps, first, high) && g in gaps
    ensures var rest := PendingIn(gaps - {g}, first, high);
            PendingIn(gaps, first, high) == rest + Interval(g, gaps[g]) && rest !! Interval(g, gaps[g])
  {
    forall x
      ensures Pending(gaps, x) <==> Pending(gaps - {g}, x) || g <= x < g + gaps[g]
      ensures g <= x < g + gaps[g] ==> first <= x < high && !Pending(gaps - {g}, x)
    {
      PendingWithout(gaps, first, high, g, x);
    }
    hide Pending, GapsOk;
  }

  lemma PendingWithout(gaps: Gaps, first: int, high: int, g: int, x: int)
    requires GapsOk(gaps, first, high) && g in gaps
    ensures Pending(gaps, x) <==> Pending(gaps - {g}, x) || g <= x < g + gaps[g]
    ensures g <= x < g + gaps[g] ==> first <= x < high && !Pending(gaps - {g}, x)
  {
    var rest := gaps - {g};
    if Pending(gaps, x) {
      var h :| h in gaps && h <= x < h + gaps[h];
      if h != g {
        assert h in rest && rest[h] == gaps[h];
      }
    }
    if Pending(rest, x) {
      var h :| h in rest && h <= x < h + rest[h];
      assert h in gaps && gaps[h] == rest[h] && h != g;
    }
  }

  // The sum of the pending gaps is the number of numbers no accepted packet carried.
  lemma TotalIsMissing(ps: seq<Packet>)
    requires ps != [] && InBoundsRun(ps)
    ensures Total(Run(ps).gaps) == |Missing(ps)|
  {
    ExactlyOnce(ps);
    TotalIsPending(Run(ps).gaps, ps[0].seqNo, Run(ps).high);
    assert PendingIn(Run(ps).gaps, ps[0].seqNo, Run(ps).high) == Missing(ps);
  }

  // The v1 tracker: its gaps are the packets ahead, its duplicates those that are
  // not, refused or taken late by the other, and it calls lost both what the other
  // has recovered and what is missing for good.
  lemma SimpleCountersCount(ps: seq<Packet>)
    requires ps != [] && InBoundsRun(ps)
    ensures var s := SimpleRun(ps);
            && s.expected == Run(ps).high && s.gaps == |Aheads(ps)|
            && s.lost == |LateNumbers(ps)| + |Missing(ps)|
            && s.dups == |Refused(ps)| + |Lates(ps)|
  {
    TrackersInStep(ps);
    CountersCount(ps);
    TotalIsMissing(ps);
  }
}
