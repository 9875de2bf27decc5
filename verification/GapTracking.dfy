/** The sequence tracker of the v2 and v3 receivers: the next number expected
    and the ranges still missing below it. */
module GapTracking {
  import opened Numbers
  import opened SortedKeys

  datatype Packet = Packet(seqNo: uint64, count: uint16)

  // Gap start to gap length.
  type Gaps = map<int, int>

  datatype State = State(high: int, gaps: Gaps, gapEvents: nat, dups: nat, recovered: nat)

  const START := State(0, map[], 0, 0, 0)

  function Cast16(x: int): int {
    x % U16
  }

  // The start of the last gap at or below a sequence number.
  ghost function FloorOf(gaps: Gaps, x: int): (r: Option<int>)
    ensures IsFloor(gaps.Keys, x, r)
  {
    FloorExists(gaps.Keys, x);
    var r :| IsFloor(gaps.Keys, x, r);
    r
  }

  lemma {:induction false} FloorExists(s: set<int>, bound: int)
    ensures exists r :: IsFloor(s, bound, r)
  {
    if s == {} {
      assert IsFloor(s, bound, None);
    } else {
      SomeMember(s);
      var x :| x in s;
      FloorExists(s - {x}, bound);
      var r :| IsFloor(s - {x}, bound, r);
      assert forall y :: y in s ==> y == x || y in s - {x};
      assert IsFloor(s, bound, if x <= bound && (r.None? || r.value < x) then Some(x) else r);
    }
  }

  // What remains of the gap at g after a packet that lies inside it.
  ghost function Carve(gaps: Gaps, g: int, seqNo: int, count: int): Gaps
    requires g in gaps
  {
    var len := gaps[g];
    if seqNo == g && count == len then gaps - {g}
    else if seqNo == g then (gaps - {g})[seqNo + count := Cast16(len - count)]
    else if seqNo + count == g + len then gaps[g := Cast16(seqNo - g)]
    else (gaps - {g})[g := Cast16(seqNo - g)][seqNo + count := Cast16(g + len - (seqNo + count))]
  }

  // Whether a late packet lies inside a pending gap, and in which.
  ghost function HostGap(gaps: Gaps, p: Packet): Option<int> {
    match FloorOf(gaps, p.seqNo)
    case None => None
    case Some(g) => if p.seqNo + p.count <= g + gaps[g] then Some(g) else None
  }

  // The first packet sets the numbering.
  ghost function Started(t: State, p: Packet): State {
    if t.high == 0 then t.(high := p.seqNo) else t
  }

  // The state after a packet, and whether its messages are taken.
  ghost function Step(t0: State, p: Packet): (State, bool) {
    var t := Started(t0, p);
    if p.seqNo == t.high then (t.(high := t.high + p.count), true)
    else if p.seqNo > t.high then
      (t.(gapEvents := t.gapEvents + 1, gaps := t.gaps[t.high := Cast16(p.seqNo - t.high)],
          high := p.seqNo + p.count),
       true)
    else
      match HostGap(t.gaps, p)
      case Some(g) => (t.(recovered := t.recovered + p.count, gaps := Carve(t.gaps, g, p.seqNo, p.count)), true)
      case None => (t.(dups := t.dups + 1), false)
  }

  ghost function Run(ps: seq<Packet>): State {
    if ps == [] then START else Step(Run(ps[..|ps| - 1]), ps[|ps| - 1]).0
  }

  ghost predicate Accepts(ps: seq<Packet>, i: int)
    requires 0 <= i < |ps|
  {
    Step(Run(ps[..i]), ps[i]).1
  }

  ghost function Interval(a: int, n: nat): (r: set<int>)
    ensures forall x :: x in r <==> a <= x < a + n
  {
    if n == 0 then {} else Interval(a, n - 1) + {a + n - 1}
  }

  // The sequence numbers a packet carries.
  ghost function Span(p: Packet): (r: set<int>)
    ensures forall x :: x in r <==> p.seqNo <= x < p.seqNo + p.count
  {
    Interval(p.seqNo, p.count)
  }

  // The sequence numbers of all accepted packets.
  ghost function Taken(ps: seq<Packet>): set<int> {
    if ps == [] then {}
    else
      var n := |ps| - 1;
      Taken(ps[..n]) + if Accepts(ps, n) then Span(ps[n]) else {}
  }

  ghost predicate Pending(gaps: Gaps, x: int) {
    exists g :: g in gaps && g <= x < g + gaps[g]
  }

  // ---------- What the feed promises ----------

  // Numbering starts at one and stays in 64 bits, and a packet ahead of the
  // expected number is ahead by no more than a gap length can hold.
  ghost predicate InBounds(t: State, p: Packet) {
    1 <= p.seqNo && p.seqNo + p.count < U64 && p.seqNo - Started(t, p).high < U16
  }

  ghost predicate InBoundsRun(ps: seq<Packet>) {
    forall i :: 0 <= i < |ps| ==> InBounds(Run(ps[..i]), ps[i])
  }

  // ---------- Exactly-once partition ----------

  ghost predicate GapsOk(gaps: Gaps, first: int, high: int) {
    && (forall g :: g in gaps ==> 1 <= gaps[g] < U16 && first <= g && g + gaps[g] <= high)
    && (forall g, h :: g in gaps && h in gaps && g < h ==> g + gaps[g] <= h)
  }

  // Taken and pending numbers together are exactly those from first to high,
  // and none is both.
  ghost predicate Partitioned(t: State, first: int, taken: set<int>) {
    && 1 <= first <= t.high
    && GapsOk(t.gaps, first, t.high)
    && (forall x :: x in taken || Pending(t.gaps, x) <==> first <= x < t.high)
    && (forall x :: x in taken ==> !Pending(t.gaps, x))
  }

  lemma HostIsFloor(gaps: Gaps, first: int, high: int, p: Packet, g: int)
    requires GapsOk(gaps, first, high) && g in gaps && g <= p.seqNo && p.seqNo < g + gaps[g]
    ensures FloorOf(gaps, p.seqNo) == Some(g)
  {
    var f := FloorOf(gaps, p.seqNo);
    assert f.Some? && g <= f.value;
  }

  // Carving a packet out of its gap leaves the parts before and after it.
  lemma CarveParts(gaps: Gaps, first: int, high: int, g: int, p: Packet)
    requires GapsOk(gaps, first, high) && g in gaps
    requires g <= p.seqNo && p.seqNo + p.count <= g + gaps[g]
    ensures var gaps', end := Carve(gaps, g, p.seqNo, p.count), g + gaps[g];
            && (forall h :: h != g && h != p.seqNo + p.count ==>
                  (h in gaps' <==> h in gaps) && (h in gaps ==> gaps'[h] == gaps[h]))
            && (p.seqNo > g ==> g in gaps' && gaps'[g] == p.seqNo - g)
            && (p.seqNo + p.count < end ==>
                  p.seqNo + p.count in gaps' && gaps'[p.seqNo + p.count] == end - (p.seqNo + p.count))
            && (p.seqNo == g && p.count > 0 ==> g !in gaps')
            && (p.seqNo + p.count == end && p.seqNo + p.count != g ==>
                  (end in gaps' <==> end in gaps) && (end in gaps ==> gaps'[end] == gaps[end]))
  {
    assert Cast16(gaps[g] - p.count) == gaps[g] - p.count;
  }

  // Carving a packet out of its gap removes exactly its numbers.
  lemma CarveRemoves(gaps: Gaps, first: int, high: int, g: int, p: Packet)
    requires GapsOk(gaps, first, high) && g in gaps
    requires g <= p.seqNo && p.seqNo + p.count <= g + gaps[g]
    ensures var gaps' := Carve(gaps, g, p.seqNo, p.count);
            && GapsOk(gaps', first, high)
            && (forall x :: Pending(gaps', x) <==> Pending(gaps, x) && x !in Span(p))
  {
    var gaps' := Carve(gaps, g, p.seqNo, p.count);
    CarveParts(gaps, first, high, g, p);
    hide Carve;
    forall x
      ensures Pending(gaps', x) <==> Pending(gaps, x) && x !in Span(p)
    {
    }
  }

  // Every late packet that is not hosted by one gap leaves the state alone but
  // for the duplicate count.
  lemma StepCases(t0: State, p: Packet)
    ensures var t, (u, accepted) := Started(t0, p), Step(t0, p);
            && (p.seqNo == t.high ==> accepted && u.gaps == t.gaps && u.high == t.high + p.count)
            && (p.seqNo > t.high ==>
                  && accepted && u.gaps == t.gaps[t.high := Cast16(p.seqNo - t.high)]
                  && u.high == p.seqNo + p.count)
            && (p.seqNo < t.high ==> u.high == t.high && accepted == HostGap(t.gaps, p).Some?)
            && (p.seqNo < t.high ==>
                  u.gaps == if accepted then Carve(t.gaps, HostGap(t.gaps, p).value, p.seqNo, p.count) else t.gaps)
  {
  }

  // One packet keeps the partition, and what it brings was not there before.
  lemma StepKeepsPartition(t: State, p: Packet, first: int, taken: set<int>)
    requires Partitioned(t, first, taken) && InBounds(t, p)
    ensures var (u, accepted) := Step(t, p);
            && Partitioned(u, first, if accepted then taken + Span(p) else taken)
            && (accepted ==> taken !! Span(p))
  {
    var (u, accepted) := Step(t, p);
    StepCases(t, p);
    hide Step;
    if p.seqNo > t.high {
      AheadAddsGap(t.gaps, first, t.high, p);
    } else if p.seqNo < t.high && accepted {
      CarveRemoves(t.gaps, first, t.high, HostGap(t.gaps, p).value, p);
      HostedIsPending(t.gaps, p);
    }
    hide Carve, HostGap, GapsOk, Pending;
  }

  // A packet behind the expected number is accepted exactly when it lies inside one
  // pending gap; an empty one may also stand at the end of it.
  lemma LateAcceptedIff(t: State, p: Packet, first: int)
    requires 1 <= t.high && GapsOk(t.gaps, first, t.high) && p.seqNo < t.high
    ensures Step(t, p).1 <==>
            exists g :: g in t.gaps && g <= p.seqNo && p.seqNo + p.count <= g + t.gaps[g]
  {
    StepCases(t, p);
    if HostGap(t.gaps, p).Some? {
      HostedIsPending(t.gaps, p);
    }
    if g :| g in t.gaps && g <= p.seqNo && p.seqNo + p.count <= g + t.gaps[g] {
      var f := FloorOf(t.gaps, p.seqNo);
      assert f.Some? && g <= f.value;
    }
  }

  // What is assumed of a packet once the numbering has started.
  lemma BoundsAre(t: State, p: Packet)
    requires 1 <= t.high
    ensures InBounds(t, p) <==>
            1 <= p.seqNo && p.seqNo + p.count < 0x1_0000_0000_0000_0000 && p.seqNo - t.high <= 65535
  {
  }

  lemma HostedIsPending(gaps: Gaps, p: Packet)
    requires HostGap(gaps, p).Some?
    ensures var g := HostGap(gaps, p).value; g in gaps && g <= p.seqNo && p.seqNo + p.count <= g + gaps[g]
    ensures forall x :: x in Span(p) ==> Pending(gaps, x)
  {
  }

  // A packet ahead of the expected number opens one gap in between.
  lemma AheadAddsGap(gaps: Gaps, first: int, high: int, p: Packet)
    requires GapsOk(gaps, first, high) && first <= high < p.seqNo && p.seqNo - high < U16
    ensures var gaps' := gaps[high := Cast16(p.seqNo - high)];
            && high !in gaps && gaps'[high] == p.seqNo - high
            && GapsOk(gaps', first, p.seqNo + p.count)
            && (forall x :: Pending(gaps', x) <==> Pending(gaps, x) || high <= x < p.seqNo)
  {
    var gaps' := gaps[high := Cast16(p.seqNo - high)];
    assert Cast16(p.seqNo - high) == p.seqNo - high;
    assert high !in gaps;
    forall x
      ensures Pending(gaps', x) <==> Pending(gaps, x) || high <= x < p.seqNo
    {
      if Pending(gaps, x) {
        var g :| g in gaps && g <= x < g + gaps[g];
        assert g in gaps' && gaps'[g] == gaps[g];
      }
      if high <= x < p.seqNo {
        assert high in gaps';
      }
    }
  }

  // The 16-bit gap length holds the jump exactly when the jump is below 2^16;
  // beyond that some missing numbers are no longer on record.
  lemma JumpFitsIff(t: State, p: Packet, first: int, taken: set<int>)
    requires Partitioned(t, first, taken) && p.seqNo > t.high
    ensures Partitioned(Step(t, p).0, first, taken + Span(p)) <==> p.seqNo - t.high < U16
  {
    var u := Step(t, p).0;
    if p.seqNo - t.high < U16 {
      AheadAddsGap(t.gaps, first, t.high, p);
    } else {
      var len := Cast16(p.seqNo - t.high);
      assert t.high in u.gaps && u.gaps[t.high] == len;
      NotCovered(u.gaps, first, t.high, p.seqNo - 1, t.gaps);
    }
  }

  // Past a recorded gap that is too short, the last missing number is in no gap.
  lemma NotCovered(gaps: Gaps, first: int, g: int, x: int, before: Gaps)
    requires g in gaps && 0 <= gaps[g] <= x - g && GapsOk(before, first, g)
    requires forall h :: h in gaps && h != g ==> h in before && gaps[h] == before[h]
    ensures !Pending(gaps, x)
  {
  }

  lemma FirstPacket(p: Packet)
    requires 1 <= p.seqNo
    ensures var (u, accepted) := Step(START, p);
            accepted && u == State(p.seqNo + p.count, map[], 0, 0, 0) && Partitioned(u, p.seqNo, Span(p))
  {
  }

  lemma BoundsOf(t: State, p: Packet)
    requires InBounds(t, p)
    ensures 1 <= p.seqNo && p.seqNo + p.count < U64
  {
  }

  lemma PrefixInBounds(ps: seq<Packet>, n: nat)
    requires InBoundsRun(ps) && n <= |ps|
    ensures InBoundsRun(ps[..n])
  {
    forall i | 0 <= i < n
      ensures InBounds(Run(ps[..n][..i]), ps[..n][i])
    {
      assert ps[..n][..i] == ps[..i];
    }
  }

  // After any packets, lost, repeated or reordered in any way, the accepted
  // numbers and the pending gaps partition what lies between the first packet
  // and the expected number, and no number has been accepted twice.
  lemma {:induction false} ExactlyOnce(ps: seq<Packet>)
    requires ps != [] && InBoundsRun(ps)
    ensures Partitioned(Run(ps), ps[0].seqNo, Taken(ps))
    ensures forall i :: 0 <= i < |ps| && Accepts(ps, i) ==> Taken(ps[..i]) !! Span(ps[i])
    decreases |ps|
  {
    hide Step, Partitioned, InBounds;
    var n := |ps| - 1;
    assert InBounds(Run(ps[..n]), ps[n]);
    BoundsOf(Run(ps[..n]), ps[n]);
    if n == 0 {
      assert ps[..0] == [] && Run(ps[..0]) == START;
      FirstPacket(ps[0]);
      assert Taken(ps[..0]) == {} && Taken(ps) == Span(ps[0]);
    } else {
      PrefixInBounds(ps, n);
      ExactlyOnce(ps[..n]);
      StepKeepsPartition(Run(ps[..n]), ps[n], ps[0].seqNo, Taken(ps[..n]));
      assert Taken(ps) == if Accepts(ps, n) then Taken(ps[..n]) + Span(ps[n]) else Taken(ps[..n]);
      forall i | 0 <= i < |ps| && Accepts(ps, i)
        ensures Taken(ps[..i]) !! Span(ps[i])
      {
        if i < n {
          assert ps[..n][..i] == ps[..i];
          assert Accepts(ps[..n], i);
        }
      }
    }
  }

  // ---------- Complete recovery ----------

  // No gap ends where another starts: the gaps are the maximal missing runs.
  ghost predicate Separated(gaps: Gaps) {
    forall g, h :: g in gaps && h in gaps ==> g + gaps[g] != h
  }

  // What breaks maximality: an empty packet strictly inside a gap, which splits
  // it in two, or a packet ahead while a gap ends at the expected number, as only
  // an empty packet ahead leaves one.
  ghost predicate Splits(t: State, p: Packet) {
    || (p.count == 0 && exists g :: g in t.gaps && g < p.seqNo < g + t.gaps[g])
    || (p.seqNo > t.high && exists g :: g in t.gaps && g + t.gaps[g] == t.high)
  }

  lemma StepSeparates(t: State, p: Packet, first: int, taken: set<int>)
    requires Partitioned(t, first, taken) && InBounds(t, p) && Separated(t.gaps)
    ensures Separated(Step(t, p).0.gaps) <==> !Splits(t, p)
  {
    var (u, accepted) := Step(t, p);
    StepCases(t, p);
    hide Step;
    if p.seqNo > t.high {
      AheadAddsGap(t.gaps, first, t.high, p);
      if g :| g in t.gaps && g + t.gaps[g] == t.high {
        assert g in u.gaps && u.gaps[g] == t.gaps[g] && t.high in u.gaps;
      }
    } else if p.seqNo < t.high {
      if accepted {
        HostedIsPending(t.gaps, p);
        CarveSeparates(t.gaps, first, t.high, HostGap(t.gaps, p).value, p);
      }
      if p.count == 0 {
        if g :| g in t.gaps && g < p.seqNo < g + t.gaps[g] {
          HostIsFloor(t.gaps, first, t.high, p, g);
        }
      }
    }
  }

  lemma CarveSeparates(gaps: Gaps, first: int, high: int, g: int, p: Packet)
    requires GapsOk(gaps, first, high) && Separated(gaps) && g in gaps
    requires g <= p.seqNo && p.seqNo + p.count <= g + gaps[g]
    ensures Separated(Carve(gaps, g, p.seqNo, p.count)) <==> !(p.count == 0 && g < p.seqNo < g + gaps[g])
  {
    var gaps' := Carve(gaps, g, p.seqNo, p.count);
    CarveParts(gaps, first, high, g, p);
    hide Carve;
    if p.count == 0 && g < p.seqNo < g + gaps[g] {
      assert g in gaps' && gaps'[g] == p.seqNo - g && p.seqNo in gaps';
    }
  }

  ghost predicate NoneEmpty(ps: seq<Packet>) {
    forall i :: 0 <= i < |ps| ==> ps[i].count >= 1
  }

  // What holds between non-empty packets: maximal gaps, none reaching the
  // expected number.
  ghost predicate Recovering(t: State, first: int, taken: set<int>) {
    Partitioned(t, first, taken) && Separated(t.gaps) && t.high - 1 in taken
  }

  lemma NoGapReachesHigh(t: State, first: int, taken: set<int>, g: int)
    requires Recovering(t, first, taken) && g in t.gaps
    ensures g + t.gaps[g] < t.high
  {
    assert g + t.gaps[g] >= t.high ==> Pending(t.gaps, t.high - 1);
  }

  lemma StepRecovers(t: State, p: Packet, first: int, taken: set<int>)
    requires Recovering(t, first, taken) && InBounds(t, p) && p.count >= 1
    ensures var (u, accepted) := Step(t, p);
            Recovering(u, first, if accepted then taken + Span(p) else taken)
  {
    var (u, accepted) := Step(t, p);
    StepKeepsPartition(t, p, first, taken);
    forall g | g in t.gaps
      ensures g + t.gaps[g] < t.high
    {
      NoGapReachesHigh(t, first, taken, g);
    }
    StepSeparates(t, p, first, taken);
    StepCases(t, p);
    hide Step, Partitioned, Separated, HostGap;
    assert p.seqNo >= t.high ==> u.high - 1 in Span(p);
  }

  // Every gap is followed by a taken number.
  ghost predicate Bounded(t: State) {
    Separated(t.gaps) && forall g :: g in t.gaps ==> g + t.gaps[g] < t.high
  }

  lemma RecoveringIsBounded(t: State, first: int, taken: set<int>)
    requires Recovering(t, first, taken)
    ensures Partitioned(t, first, taken) && Bounded(t)
  {
    forall g | g in t.gaps
      ensures g + t.gaps[g] < t.high
    {
      NoGapReachesHigh(t, first, taken, g);
    }
  }

  // A packet of which nothing was taken lies in one gap, or ahead.
  lemma MissedIsHosted(t: State, p: Packet, first: int, taken: set<int>)
    requires Partitioned(t, first, taken) && Bounded(t)
    requires p.count >= 1 && first <= p.seqNo < t.high && taken !! Span(p)
    ensures HostGap(t.gaps, p).Some?
  {
    assert p.seqNo in Span(p);
    var g :| g in t.gaps && g <= p.seqNo < g + t.gaps[g];
    HostIsFloor(t.gaps, first, t.high, p, g);
    var end := g + t.gaps[g];
    assert p.seqNo + p.count > end ==> end in Span(p);
    GapEndIsNotPending(t.gaps, first, t.high, g);
  }

  lemma GapEndIsNotPending(gaps: Gaps, first: int, high: int, g: int)
    requires GapsOk(gaps, first, high) && Separated(gaps) && g in gaps
    ensures !Pending(gaps, g + gaps[g])
  {
  }

  lemma AcceptsIffMissed(t: State, p: Packet, first: int, taken: set<int>)
    requires Partitioned(t, first, taken) && Bounded(t) && InBounds(t, p) && p.count >= 1 && first <= p.seqNo
    ensures Step(t, p).1 <==> taken !! Span(p)
  {
    StepKeepsPartition(t, p, first, taken);
    StepCases(t, p);
    if taken !! Span(p) && p.seqNo < t.high {
      MissedIsHosted(t, p, first, taken);
    }
  }

  // Whatever comes next with none of its numbers taken is accepted.
  ghost predicate RecoversAll(t: State, first: int, taken: set<int>) {
    forall p: Packet {:trigger Step(t, p)} ::
      InBounds(t, p) && p.count >= 1 && first <= p.seqNo && taken !! Span(p) ==> Step(t, p).1
  }

  // The tracker recovers whatever was missed exactly when every gap is followed
  // by a taken number; otherwise the two numbers around a gap's end, though both
  // missing, are refused when they come in one packet.
  lemma RecoversAllIff(t: State, first: int, taken: set<int>)
    requires Partitioned(t, first, taken) && t.high + 1 < U64
    ensures RecoversAll(t, first, taken) <==> Bounded(t)
  {
    if Bounded(t) {
      forall p: Packet | InBounds(t, p) && p.count >= 1 && first <= p.seqNo && taken !! Span(p)
        ensures Step(t, p).1
      {
        AcceptsIffMissed(t, p, first, taken);
      }
    } else {
      var g :| g in t.gaps && (g + t.gaps[g] in t.gaps || g + t.gaps[g] >= t.high);
      AcrossEndIsRefused(t, first, taken, g);
    }
  }

  lemma AcrossEndIsRefused(t: State, first: int, taken: set<int>, g: int)
    requires Partitioned(t, first, taken) && t.high + 1 < U64
    requires g in t.gaps && (g + t.gaps[g] in t.gaps || g + t.gaps[g] >= t.high)
    ensures !RecoversAll(t, first, taken)
  {
    var last := g + t.gaps[g] - 1;
    var p := Packet(last, 2);
    assert Span(p) == {last, last + 1};
    assert last + 1 < t.high ==> last + 1 in t.gaps && Pending(t.gaps, last + 1);
    assert Pending(t.gaps, last);
    HostIsFloor(t.gaps, first, t.high, p, g);
    StepCases(t, p);
    assert InBounds(t, p) && !Step(t, p).1;
  }

  // That holds after every run of packets.
  lemma RecoveryAfterRunIff(ps: seq<Packet>)
    requires ps != [] && InBoundsRun(ps) && Run(ps).high + 1 < U64
    ensures RecoversAll(Run(ps), ps[0].seqNo, Taken(ps)) <==> Bounded(Run(ps))
  {
    ExactlyOnce(ps);
    RecoversAllIff(Run(ps), ps[0].seqNo, Taken(ps));
  }

  // What leaves a gap without a taken number after it: an empty packet ahead,
  // whose gap ends at the expected number, or one strictly inside a gap.
  ghost predicate Unbounds(t: State, p: Packet) {
    p.count == 0 && (p.seqNo > t.high || exists g :: g in t.gaps && g < p.seqNo < g + t.gaps[g])
  }

  lemma StepBounds(t: State, p: Packet, first: int, taken: set<int>)
    requires Partitioned(t, first, taken) && InBounds(t, p) && Bounded(t)
    ensures Bounded(Step(t, p).0) <==> !Unbounds(t, p)
  {
    StepSeparates(t, p, first, taken);
    StepCases(t, p);
    hide Step, Separated;
    var u := Step(t, p).0;
    if p.seqNo > t.high {
      AheadAddsGap(t.gaps, first, t.high, p);
      assert t.high in u.gaps && t.high + u.gaps[t.high] == p.seqNo;
    } else if p.seqNo < t.high && HostGap(t.gaps, p).Some? {
      HostedIsPending(t.gaps, p);
      CarvedStaysBelow(t, first, HostGap(t.gaps, p).value, p);
    }
  }

  lemma CarvedStaysBelow(t: State, first: int, g: int, p: Packet)
    requires GapsOk(t.gaps, first, t.high) && Bounded(t) && g in t.gaps
    requires g <= p.seqNo && p.seqNo + p.count <= g + t.gaps[g]
    ensures var gaps' := Carve(t.gaps, g, p.seqNo, p.count); forall h :: h in gaps' ==> h + gaps'[h] < t.high
  {
    CarveParts(t.gaps, first, t.high, g, p);
    hide Carve;
  }

  // After the first n packets everything missed can still be recovered.
  ghost predicate RecoverableAfter(ps: seq<Packet>, n: nat)
    requires 1 <= n <= |ps|
  {
    RecoversAll(Run(ps[..n]), ps[0].seqNo, Taken(ps[..n]))
  }

  // Along a run: everything missed stays recoverable after every packet exactly
  // when no packet after the first is of that kind.
  lemma {:induction false} RecoverableThroughoutIff(ps: seq<Packet>)
    requires ps != [] && InBoundsRun(ps) && Run(ps).high + 1 < U64
    ensures (forall n :: 1 <= n <= |ps| ==> RecoverableAfter(ps, n))
            <==> (forall i :: 1 <= i < |ps| ==> !Unbounds(Run(ps[..i]), ps[i]))
    decreases |ps|
  {
    hide *;
    var n := |ps| - 1;
    if n == 0 {
      FirstIsRecoverable(ps);
    } else {
      var before := ps[..n];
      PrefixInBounds(ps, n);
      LastRecoverableIff(ps);
      RecoverableThroughoutIff(before);
      forall k | 1 <= k <= n
        ensures RecoverableAfter(before, k) == RecoverableAfter(ps, k)
      {
        RecoverableBefore(ps, n, k);
      }
      assert forall i :: 1 <= i < n ==> before[..i] == ps[..i] && before[i] == ps[i];
    }
  }

  lemma RecoverableBefore(ps: seq<Packet>, n: nat, k: nat)
    requires 1 <= k <= n <= |ps|
    ensures RecoverableAfter(ps[..n], k) == RecoverableAfter(ps, k)
  {
    assert ps[..n][..k] == ps[..k];
  }

  lemma LastRecoverableIff(ps: seq<Packet>)
    requires |ps| > 1 && InBoundsRun(ps) && Run(ps).high + 1 < U64
    ensures var n := |ps| - 1;
            && Run(ps[..n]).high + 1 < U64
            && (RecoverableAfter(ps, n) ==> (RecoverableAfter(ps, |ps|) <==> !Unbounds(Run(ps[..n]), ps[n])))
  {
    hide Step, RecoversAll, Unbounds, Bounded, Partitioned, InBounds;
    var n := |ps| - 1;
    var before := ps[..n];
    assert ps[..|ps|] == ps;
    assert InBounds(Run(before), ps[n]);
    PrefixInBounds(ps, n);
    ExactlyOnce(before);
    HighGrows(Run(before), ps[n], ps[0].seqNo, Taken(before));
    RecoveryAfterRunIff(before);
    RecoveryAfterRunIff(ps);
    if Bounded(Run(before)) {
      StepBounds(Run(before), ps[n], ps[0].seqNo, Taken(before));
    }
  }

  lemma FirstIsRecoverable(ps: seq<Packet>)
    requires |ps| == 1 && InBoundsRun(ps) && Run(ps).high + 1 < U64
    ensures RecoverableAfter(ps, 1)
  {
    assert ps[..0] == [] && InBounds(Run(ps[..0]), ps[0]) && ps[..1] == ps;
    FirstPacket(ps[0]);
    RecoveryAfterRunIff(ps);
  }

  lemma HighGrows(t: State, p: Packet, first: int, taken: set<int>)
    requires Partitioned(t, first, taken)
    ensures Step(t, p).0.high >= t.high
  {
    StepCases(t, p);
  }

  // The i-th packet is accepted exactly when it brings no number taken before.
  ghost predicate AcceptedIffNew(ps: seq<Packet>, i: nat)
    requires i < |ps|
  {
    Accepts(ps, i) <==> Taken(ps[..i]) !! Span(ps[i])
  }

  // With non-empty packets nothing is lost to reordering: the pending gaps are
  // the maximal missing runs, and a packet from the first on is accepted exactly
  // when it shares no number with an earlier accepted one.
  lemma {:induction false} CompleteRecovery(ps: seq<Packet>)
    requires ps != [] && InBoundsRun(ps) && NoneEmpty(ps)
    ensures Recovering(Run(ps), ps[0].seqNo, Taken(ps))
    ensures forall i :: 0 <= i < |ps| && ps[0].seqNo <= ps[i].seqNo ==> AcceptedIffNew(ps, i)
    decreases |ps|
  {
    hide Step, Recovering, InBounds, InBoundsRun, Bounded, Partitioned, AcceptedIffNew, Taken, Run;
    var n := |ps| - 1;
    if n == 0 {
      FirstRecovers(ps);
    } else {
      PrefixInBounds(ps, n);
      CompleteRecovery(ps[..n]);
      LastRecovers(ps);
      forall i | 0 <= i < n && ps[0].seqNo <= ps[i].seqNo
        ensures AcceptedIffNew(ps, i)
      {
        AcceptedEarlier(ps, n, i);
      }
    }
  }

  lemma AcceptedEarlier(ps: seq<Packet>, n: nat, i: nat)
    requires i < n <= |ps|
    ensures AcceptedIffNew(ps[..n], i) == AcceptedIffNew(ps, i)
  {
    assert ps[..n][..i] == ps[..i];
  }

  lemma LastRecovers(ps: seq<Packet>)
    requires |ps| > 1 && InBoundsRun(ps) && NoneEmpty(ps)
    requires var before := ps[..|ps| - 1]; Recovering(Run(before), ps[0].seqNo, Taken(before))
    ensures Recovering(Run(ps), ps[0].seqNo, Taken(ps))
    ensures ps[0].seqNo <= ps[|ps| - 1].seqNo ==> AcceptedIffNew(ps, |ps| - 1)
  {
    hide Step, Recovering, InBounds, Bounded, Partitioned;
    var n := |ps| - 1;
    var before := ps[..n];
    assert InBounds(Run(before), ps[n]);
    StepRecovers(Run(before), ps[n], ps[0].seqNo, Taken(before));
    assert Taken(ps) == if Accepts(ps, n) then Taken(before) + Span(ps[n]) else Taken(before);
    RecoveringIsBounded(Run(before), ps[0].seqNo, Taken(before));
    if ps[0].seqNo <= ps[n].seqNo {
      AcceptsIffMissed(Run(before), ps[n], ps[0].seqNo, Taken(before));
    }
  }

  lemma FirstRecovers(ps: seq<Packet>)
    requires |ps| == 1 && InBoundsRun(ps) && NoneEmpty(ps)
    ensures Recovering(Run(ps), ps[0].seqNo, Taken(ps)) && AcceptedIffNew(ps, 0)
  {
    assert ps[..0] == [] && InBounds(Run(ps[..0]), ps[0]);
    FirstPacket(ps[0]);
    assert Taken(ps[..0]) == {} && Taken(ps) == Span(ps[0]);
  }

  // An empty packet inside a gap can cost a later one its recovery: with 2 to 9
  // missing, the packet of 4 to 6 is taken, but after an empty packet numbered 5
  // it is turned away as a duplicate.
  lemma EmptyPacketLosesAnother()
    ensures var t := Run([Packet(1, 1), Packet(10, 1)]);
            Step(t, Packet(4, 3)).1 && !Step(Step(t, Packet(5, 0)).0, Packet(4, 3)).1
  {
    var t := State(11, map[2 := 8], 1, 0, 0);
    OneGap();
    FloorIs(t.gaps, 5, 2);
    FloorIs(t.gaps, 4, 2);
    var u := State(11, map[2 := 3, 5 := 5], 1, 0, 0);
    assert Step(t, Packet(5, 0)).0 == u;
    FloorIs(u.gaps, 4, 2);
  }

  // So can one ahead: after packet 1 the packet of 9 and 10 is taken, but after
  // an empty packet numbered 10 it lies across the end of the gap and is refused.
  lemma EmptyPacketAheadLosesAnother()
    ensures var t := Run([Packet(1, 1)]);
            Step(t, Packet(9, 2)).1 && !Step(Step(t, Packet(10, 0)).0, Packet(9, 2)).1
  {
    assert [Packet(1, 1)][..0] == [];
    assert Run([Packet(1, 1)]) == State(2, map[], 0, 0, 0);
    FloorIs(map[2 := 8], 9, 2);
  }

  // A packet 2^16 numbers ahead leaves a gap of length zero: 65536 missing
  // numbers are neither taken nor on record.
  lemma LongJumpLosesNumbers()
    ensures var t, p := Run([Packet(1, 1)]), Packet(2 + U16, 1);
            Step(t, p).0.gaps == map[2 := 0] && !Partitioned(Step(t, p).0, 1, {1} + Span(p))
  {
    assert [Packet(1, 1)][..0] == [];
    var t, p := Run([Packet(1, 1)]), Packet(2 + U16, 1);
    assert t == State(2, map[], 0, 0, 0);
    FirstPacket(Packet(1, 1));
    assert Span(Packet(1, 1)) == {1};
    JumpFitsIff(t, p, 1, {1});
  }

  lemma OneGap()
    ensures Run([Packet(1, 1), Packet(10, 1)]) == State(11, map[2 := 8], 1, 0, 0)
  {
    var ps := [Packet(1, 1), Packet(10, 1)];
    assert ps[..1] == [ps[0]] && ps[..1][..0] == [];
    assert Run(ps[..1]) == State(2, map[], 0, 0, 0);
  }

  lemma FloorIs(gaps: Gaps, x: int, g: int)
    requires IsFloor(gaps.Keys, x, Some(g))
    ensures FloorOf(gaps, x) == Some(g)
  {
    FloorIsUnique(gaps.Keys, x, FloorOf(gaps, x), Some(g));
  }
}
