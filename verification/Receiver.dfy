/** The receivers: tracking sequence numbers, unpacking accepted packets, and
    what reaches the books end to end. */
module Receiver {
  import opened Numbers
  import opened SortedKeys
  import opened GapTracking
  import opened GapOrder
  import opened Wire
  import opened Sender

  // The complete messages of a datagram, up to the number announced.
  method Unpack(buf: Bytes, count: uint16) returns (msgs: seq<Bytes>)
    requires |buf| >= HEADER_SIZE
    ensures msgs == Parse(buf, HEADER_SIZE, count)
    ensures var all := Frames(buf, HEADER_SIZE); msgs == if count <= |all| then all[..count] else all
  {
    hide ReadBe, Frames;
    ParseIsFrames(buf, HEADER_SIZE, count);
    msgs := [];
    var off := HEADER_SIZE;
    for i := 0 to count
      invariant 0 <= off <= |buf|
      invariant msgs + Parse(buf, off, count - i) == Parse(buf, HEADER_SIZE, count)
    {
      if off + 2 > |buf| {
        break;
      }
      var len := ReadBe(buf[off..off + 2]);
      if off + 2 + len > |buf| {
        break;
      }
      var msg := buf[off + 2..off + 2 + len];
      assert FrameAt(buf, off) == Some(msg);
      msgs := msgs + [msg];
      off := off + 2 + len;
    }
  }

  // The receive loop of v2 and v3.
  class GapReceiver {
    var highSeq: int
    var pendingGaps: Gaps
    var packets: nat
    var gaps: nat
    var dups: nat
    var recovered: nat
    var delivered: seq<Bytes>

    ghost function Tracked(): State
      reads this
    {
      State(highSeq, pendingGaps, gaps, dups, recovered)
    }

    constructor ()
      ensures Tracked() == START && delivered == [] && packets == 0
    {
      highSeq, pendingGaps, packets, gaps, dups, recovered, delivered := 0, map[], 0, 0, 0, 0, [];
    }

    method Track(seqNo: uint64, count: uint16) returns (accept: bool)
      requires seqNo + count < U64
      modifies this
      ensures (Tracked(), accept) == Step(old(Tracked()), Packet(seqNo, count))
      // Each counter counts its own kind of packet.
      ensures gaps == old(gaps) + (if old(highSeq) != 0 && seqNo > old(highSeq) then 1 else 0)
      ensures dups == old(dups) + (if accept then 0 else 1)
      ensures recovered == old(recovered) + (if accept && seqNo < old(highSeq) then count else 0)
      ensures delivered == old(delivered) && packets == old(packets) + 1
    {
      hide FloorOf;
      packets := packets + 1;
      if highSeq == 0 {
        highSeq := seqNo;
      }
      accept := true;
      if seqNo == highSeq {
        highSeq := highSeq + count;
      } else if seqNo > highSeq {
        gaps := gaps + 1;
        pendingGaps := pendingGaps[highSeq := Cast16(seqNo - highSeq)];
        highSeq := seqNo + count;
      } else {
        var it := Floor(pendingGaps.Keys, seqNo);
        FloorIsUnique(pendingGaps.Keys, seqNo, it, FloorOf(pendingGaps, seqNo));
        var recoveredHere := false;
        if it.Some? {
          var gapStart, gapLen := it.value, pendingGaps[it.value];
          if seqNo >= gapStart && seqNo + count <= gapStart + gapLen {
            recoveredHere := true;
            recovered := recovered + count;
            if seqNo == gapStart && count == gapLen {
              pendingGaps := pendingGaps - {gapStart};
            } else if seqNo == gapStart {
              pendingGaps := pendingGaps - {gapStart};
              pendingGaps := pendingGaps[seqNo + count := Cast16(gapLen - count)];
            } else if seqNo + count == gapStart + gapLen {
              pendingGaps := pendingGaps[gapStart := Cast16(seqNo - gapStart)];
            } else {
              pendingGaps := pendingGaps - {gapStart};
              pendingGaps := pendingGaps[gapStart := Cast16(seqNo - gapStart)];
              pendingGaps := pendingGaps[seqNo + count := Cast16(gapStart + gapLen - (seqNo + count))];
            }
          }
        }
        if !recoveredHere {
          dups := dups + 1;
          accept := false;
        }
      }
    }

    // The numbers given up on when the feed ends.
    method TrulyLost() returns (lost: int)
      ensures lost == Total(pendingGaps)
    {
      lost := 0;
      var rest := pendingGaps;
      while rest.Keys != {}
        invariant lost + Total(rest) == Total(pendingGaps)
        decreases rest.Keys
      {
        SomeMember(rest.Keys);
        var g :| g in rest.Keys;
        TotalWithout(rest, g);
        lost := lost + rest[g];
        rest := rest - {g};
      }
      assert rest == map[];
    }

    // One datagram: its header to the tracker, its messages on when accepted.
    method OnDatagram(buf: Bytes)
      requires |buf| >= HEADER_SIZE ==> SeqOf(buf) + CountOf(buf) < U64
      modifies this
      ensures |buf| < HEADER_SIZE ==>
                Tracked() == old(Tracked()) && delivered == old(delivered) && packets == old(packets)
      ensures |buf| >= HEADER_SIZE ==>
                var p := HeaderOf(buf);
                && Tracked() == Step(old(Tracked()), p).0 && packets == old(packets) + 1
                && delivered
                   == old(delivered) + if Step(old(Tracked()), p).1 then Parse(buf, HEADER_SIZE, p.count) else []
    {
      hide Step, ReadBe;
      if |buf| < HEADER_SIZE {
        return;
      }
      CountFits(buf);
      var seqNo := ReadBe(buf[10..18]);
      var count := ReadBe(buf[18..20]);
      var accept := Track(seqNo, count);
      if accept {
        var msgs := Unpack(buf, count);
        delivered := delivered + msgs;
      }
    }
  }

  lemma CountFits(buf: Bytes)
    requires |buf| >= HEADER_SIZE
    ensures SeqOf(buf) < U64 && CountOf(buf) < U16
  {
    Powers();
    ReadBound(buf[10..18]);
    ReadBound(buf[18..20]);
  }

  ghost function HeaderOf(buf: Bytes): Packet
    requires |buf| >= HEADER_SIZE
  {
    CountFits(buf);
    Packet(SeqOf(buf), CountOf(buf))
  }

  // The receive loop of v1.
  class SimpleReceiver {
    var expectedSeq: int
    var packets: nat
    var gaps: nat
    var lost: int
    var dups: nat
    var delivered: seq<Bytes>

    ghost function Tracked(): Simple
      reads this
    {
      Simple(expectedSeq, gaps, lost, dups)
    }

    constructor ()
      ensures Tracked() == Simple(0, 0, 0, 0) && delivered == [] && packets == 0
    {
      expectedSeq, packets, gaps, lost, dups, delivered := 0, 0, 0, 0, 0, [];
    }

    method Track(seqNo: uint64, count: uint16) returns (accept: bool)
      requires seqNo + count < U64
      modifies this
      ensures (Tracked(), accept) == SimpleStep(old(Tracked()), Packet(seqNo, count))
      ensures accept <==> old(expectedSeq) == 0 || seqNo >= old(expectedSeq)
      ensures expectedSeq == if accept then seqNo + count else old(expectedSeq)
      ensures dups == old(dups) + (if accept then 0 else 1)
      ensures var ahead := old(expectedSeq) != 0 && seqNo > old(expectedSeq);
              && gaps == old(gaps) + (if ahead then 1 else 0)
              && lost == old(lost) + (if ahead then seqNo - old(expectedSeq) else 0)
      ensures delivered == old(delivered) && packets == old(packets) + 1
    {
      packets := packets + 1;
      if expectedSeq == 0 {
        expectedSeq := seqNo;
      }
      if seqNo > expectedSeq {
        gaps := gaps + 1;
        lost := lost + (seqNo - expectedSeq);
      } else if seqNo < expectedSeq {
        dups := dups + 1;
        return false;
      }
      expectedSeq := seqNo + count;
      return true;
    }

    // One datagram: its messages are handed on unless it is behind the number expected.
    method OnDatagram(buf: Bytes)
      requires |buf| >= HEADER_SIZE ==> SeqOf(buf) + CountOf(buf) < U64
      modifies this
      ensures |buf| < HEADER_SIZE ==>
                Tracked() == old(Tracked()) && delivered == old(delivered) && packets == old(packets)
      ensures |buf| >= HEADER_SIZE ==>
                var p := HeaderOf(buf);
                && Tracked() == SimpleStep(old(Tracked()), p).0 && packets == old(packets) + 1
                && delivered == old(delivered)
                                + if old(expectedSeq) == 0 || p.seqNo >= old(expectedSeq)
                                  then Parse(buf, HEADER_SIZE, p.count) else []
    {
      hide SimpleStep, ReadBe;
      if |buf| < HEADER_SIZE {
        return;
      }
      CountFits(buf);
      var seqNo := ReadBe(buf[10..18]);
      var count := ReadBe(buf[18..20]);
      var accept := Track(seqNo, count);
      if accept {
        var msgs := Unpack(buf, count);
        delivered := delivered + msgs;
      }
    }
  }

  // ---------- End to end ----------

  ghost predicate AllFramable(groups: seq<seq<Bytes>>) {
    forall g :: g in groups ==> Framable(g)
  }

  // The header of the j-th packet sent.
  ghost function Header(groups: seq<seq<Bytes>>, j: int): Packet
    requires 0 <= j < |groups| && 1 + |Flat(groups[..j])| < U64 && |groups[j]| < U16
  {
    Packet(1 + |Flat(groups[..j])|, |groups[j]|)
  }

  ghost predicate Numbered(groups: seq<seq<Bytes>>) {
    && 1 + |Flat(groups)| < U64
    && forall j :: 0 <= j < |groups| ==> 1 <= |groups[j]| < U16
  }

  lemma {:induction false} FlatGrows(groups: seq<seq<Bytes>>, j: nat, k: nat)
    requires j < k <= |groups|
    ensures |Flat(groups[..j])| + |groups[j]| <= |Flat(groups[..k])| <= |Flat(groups)|
    decreases |groups| - j, k
  {
    assert groups[..j + 1][..j] == groups[..j];
    if j + 1 < k {
      assert groups[..k][..k - 1] == groups[..k - 1];
      FlatGrows(groups, j, k - 1);
    }
    if k < |groups| {
      FlatUpTo(groups, k);
    } else {
      assert groups[..k] == groups;
    }
  }

  lemma {:induction false} FlatUpTo(groups: seq<seq<Bytes>>, k: nat)
    requires k <= |groups|
    ensures |Flat(groups[..k])| <= |Flat(groups)|
    decreases |groups|
  {
    if k < |groups| {
      var shorter := groups[..|groups| - 1];
      FlatUpTo(shorter, k);
      assert shorter[..k] == groups[..k];
    } else {
      assert groups[..k] == groups;
    }
  }

  lemma HeaderFits(groups: seq<seq<Bytes>>, j: nat)
    requires Numbered(groups) && j < |groups|
    ensures 1 + |Flat(groups[..j])| + |groups[j]| < U64
  {
    FlatGrows(groups, j, j + 1);
  }

  // The headers of packets in the order they arrive.
  ghost function Headers(groups: seq<seq<Bytes>>, order: seq<nat>): (ps: seq<Packet>)
    requires Numbered(groups) && forall i :: 0 <= i < |order| ==> order[i] < |groups|
    ensures |ps| == |order|
  {
    seq(|order|, i requires 0 <= i < |order| => HeaderFits(groups, order[i]); Header(groups, order[i]))
  }

  // The messages of each packet, at its first arrival.
  ghost function FirstArrivals(groups: seq<seq<Bytes>>, order: seq<nat>): seq<Bytes>
    requires forall i :: 0 <= i < |order| ==> order[i] < |groups|
  {
    if order == [] then []
    else
      var n := |order| - 1;
      FirstArrivals(groups, order[..n]) + if order[n] in order[..n] then [] else groups[order[n]]
  }

  lemma HeadersDiffer(groups: seq<seq<Bytes>>, j: nat, k: nat)
    requires Numbered(groups) && j < k < |groups|
    ensures 1 + |Flat(groups[..k])| < U64 && 1 + |Flat(groups[..j])| < U64
    ensures Header(groups, j) != Header(groups, k) && Span(Header(groups, j)) !! Span(Header(groups, k))
  {
    HeaderFits(groups, j);
    HeaderFits(groups, k);
    FlatGrows(groups, j, k);
  }

  // Packets as sent never overlap, and none is empty.
  lemma SentPacketsAreOrderly(groups: seq<seq<Bytes>>, order: seq<nat>)
    requires Numbered(groups) && (forall i :: 0 <= i < |order| ==> order[i] < |groups|) && order != [] && order[0] == 0
    ensures var ps := Headers(groups, order);
            && NoneEmpty(ps) && NoOverlaps(ps) && StartsLowest(ps)
            && forall i, j :: 0 <= i < |ps| && 0 <= j < |ps| ==> (ps[i] == ps[j] <==> order[i] == order[j])
  {
    var ps := Headers(groups, order);
    forall i, j | 0 <= i < |ps| && 0 <= j < |ps|
      ensures ps[i] == ps[j] <==> order[i] == order[j]
      ensures ps[i] != ps[j] ==> Span(ps[i]) !! Span(ps[j])
    {
      if order[i] < order[j] {
        HeadersDiffer(groups, order[i], order[j]);
      } else if order[j] < order[i] {
        HeadersDiffer(groups, order[j], order[i]);
      }
    }
    assert ps[0].seqNo == 1 by {
      assert groups[..0] == [];
    }
  }

  lemma SentIsParsed(sent: seq<Bytes>, groups: seq<seq<Bytes>>, j: nat)
    requires Carries(sent, groups) && Numbered(groups) && AllFramable(groups) && j < |groups|
    ensures |sent[j]| >= HEADER_SIZE
    ensures 1 + |Flat(groups[..j])| < U64 && HeaderOf(sent[j]) == Header(groups, j)
    ensures Parse(sent[j], HEADER_SIZE, |groups[j]|) == groups[j]
    ensures 1 <= SeqOf(sent[j]) && SeqOf(sent[j]) + CountOf(sent[j]) < U64
  {
    HeaderFits(groups, j);
    assert groups[j] in groups;
    PacketRoundTrip(1 + |Flat(groups[..j])|, groups[j]);
  }

  // Packets arriving repeated and reordered in any way, the first one first,
  // hand on the messages of each packet once, when it first arrives.
  method ReceiveAll(rx: GapReceiver, sent: seq<Bytes>, ghost groups: seq<seq<Bytes>>, order: seq<nat>)
    requires Carries(sent, groups) && Numbered(groups) && AllFramable(groups)
    requires order != [] && order[0] == 0 && forall i :: 0 <= i < |order| ==> order[i] < |groups|
    requires InBoundsRun(Headers(groups, order))
    requires rx.Tracked() == START && rx.delivered == []
    modifies rx
    ensures rx.delivered == FirstArrivals(groups, order)
    ensures rx.Tracked() == GapTracking.Run(Headers(groups, order))
  {
    hide *;
    ghost var ps := Headers(groups, order);
    SentPacketsAreOrderly(groups, order);
    NothingYet(groups);
    for i := 0 to |order|
      invariant rx.delivered == FirstArrivals(groups, order[..i])
      invariant rx.Tracked() == GapTracking.Run(ps[..i])
    {
      NextArrival(sent, groups, order, ps, i);
      rx.OnDatagram(sent[order[i]]);
    }
    assert order[..|order|] == order && ps[..|order|] == ps;
  }

  lemma NothingYet(groups: seq<seq<Bytes>>)
    ensures FirstArrivals(groups, []) == [] && GapTracking.Run([]) == START
  {
  }

  // What the i-th arrival adds.
  lemma NextArrival(sent: seq<Bytes>, groups: seq<seq<Bytes>>, order: seq<nat>, ps: seq<Packet>, i: nat)
    requires Carries(sent, groups) && Numbered(groups) && AllFramable(groups)
    requires i < |order| && forall j :: 0 <= j < |order| ==> order[j] < |groups|
    requires ps == Headers(groups, order)
    requires InBoundsRun(ps) && NoneEmpty(ps) && NoOverlaps(ps) && StartsLowest(ps)
    requires forall j, k :: 0 <= j < |ps| && 0 <= k < |ps| ==> (ps[j] == ps[k] <==> order[j] == order[k])
    ensures |sent| == |groups| && |sent[order[i]]| >= HEADER_SIZE
    ensures var buf := sent[order[i]];
            && HeaderOf(buf) == ps[i] && SeqOf(buf) + CountOf(buf) < U64
            && FirstArrivals(groups, order[..i + 1])
               == FirstArrivals(groups, order[..i])
                  + (if Step(GapTracking.Run(ps[..i]), ps[i]).1 then Parse(buf, HEADER_SIZE, ps[i].count) else [])
            && GapTracking.Run(ps[..i + 1]) == Step(GapTracking.Run(ps[..i]), ps[i]).0
  {
    hide *;
    CarriesSize(sent, groups);
    SentIsParsed(sent, groups, order[i]);
    HeaderAt(groups, order, i);
    AcceptedOnFirstArrival(ps, i);
    AcceptsIs(ps, i);
    ArrivedBefore(order, ps, i);
    ArrivalsNext(groups, order, i);
    RunNext(ps, i);
  }

  lemma HeaderAt(groups: seq<seq<Bytes>>, order: seq<nat>, i: nat)
    requires Numbered(groups) && i < |order| && forall j :: 0 <= j < |order| ==> order[j] < |groups|
    ensures 1 + |Flat(groups[..order[i]])| < U64 && |groups[order[i]]| < U16
    ensures Headers(groups, order)[i] == Header(groups, order[i])
    ensures Header(groups, order[i]).count == |groups[order[i]]|
  {
    HeaderFits(groups, order[i]);
    hide Flat;
  }

  lemma AcceptsIs(ps: seq<Packet>, i: nat)
    requires i < |ps|
    ensures Accepts(ps, i) == Step(GapTracking.Run(ps[..i]), ps[i]).1
  {
  }

  lemma ArrivedBefore(order: seq<nat>, ps: seq<Packet>, i: nat)
    requires |order| == |ps| && i < |ps|
    requires forall j, k :: 0 <= j < |ps| && 0 <= k < |ps| ==> (ps[j] == ps[k] <==> order[j] == order[k])
    ensures ps[i] in ps[..i] <==> order[i] in order[..i]
  {
  }

  lemma ArrivalsNext(groups: seq<seq<Bytes>>, order: seq<nat>, i: nat)
    requires i < |order| && forall j :: 0 <= j < |order| ==> order[j] < |groups|
    ensures FirstArrivals(groups, order[..i + 1])
            == FirstArrivals(groups, order[..i]) + if order[i] in order[..i] then [] else groups[order[i]]
  {
    assert order[..i + 1][..i] == order[..i];
  }

  lemma RunNext(ps: seq<Packet>, i: nat)
    requires i < |ps|
    ensures GapTracking.Run(ps[..i + 1]) == Step(GapTracking.Run(ps[..i]), ps[i]).0
  {
    hide Step;
    assert ps[..i + 1][..i] == ps[..i];
  }

  // The packet that carries a sequence number.
  lemma {:induction false} CarrierOf(groups: seq<seq<Bytes>>, x: int) returns (j: nat)
    requires 1 <= x < 1 + |Flat(groups)|
    ensures j < |groups| && 1 + |Flat(groups[..j])| <= x < 1 + |Flat(groups[..j])| + |groups[j]|
    decreases |groups|
  {
    var n := |groups| - 1;
    if x < 1 + |Flat(groups[..n])| {
      j := CarrierOf(groups[..n], x);
      assert groups[..n][..j] == groups[..j];
    } else {
      j := n;
    }
  }

  // Once every packet has arrived at least once, nothing is missing.
  lemma AllArrivedIsComplete(groups: seq<seq<Bytes>>, order: seq<nat>)
    requires Numbered(groups) && order != [] && order[0] == 0 && forall i :: 0 <= i < |order| ==> order[i] < |groups|
    requires InBoundsRun(Headers(groups, order))
    requires forall j: nat :: j < |groups| ==> j in order
    ensures var t := GapTracking.Run(Headers(groups, order));
            t.gaps == map[] && Total(t.gaps) == 0 && t.high == 1 + |Flat(groups)|
  {
    hide GapTracking.Run, InBoundsRun, Flat, Numbered;
    var ps := Headers(groups, order);
    SentPacketsAreOrderly(groups, order);
    CarriedNumbers(groups, order);
    hide Headers;
    ContiguousIsComplete(ps, 1 + |Flat(groups)|);
  }

  lemma CarriedNumbers(groups: seq<seq<Bytes>>, order: seq<nat>)
    requires Numbered(groups) && order != [] && order[0] == 0 && forall i :: 0 <= i < |order| ==> order[i] < |groups|
    requires forall j: nat :: j < |groups| ==> j in order
    ensures var ps := Headers(groups, order);
            ps[0].seqNo == 1 && forall x :: Carried(ps, x) <==> 1 <= x < 1 + |Flat(groups)|
  {
    hide Flat;
    var ps := Headers(groups, order);
    assert ps[0].seqNo == 1 by {
      FlatNothing();
      assert groups[..0] == [];
    }
    forall x
      ensures Carried(ps, x) <==> 1 <= x < 1 + |Flat(groups)|
    {
      if Carried(ps, x) {
        var p :| p in ps && x in Span(p);
        var i :| 0 <= i < |ps| && ps[i] == p;
        FlatGrows(groups, order[i], order[i] + 1);
      }
      if 1 <= x < 1 + |Flat(groups)| {
        var j := CarrierOf(groups, x);
        assert j in order;
        var i :| 0 <= i < |order| && order[i] == j;
        HeaderFits(groups, j);
        assert ps[i] in ps && x in Span(ps[i]);
      }
    }
  }

  // ---------- Out of order, but complete ----------

  // The messages of the first k packets that have arrived.
  ghost function Arrived(groups: seq<seq<Bytes>>, order: seq<nat>, k: nat): multiset<Bytes>
    requires k <= |groups|
  {
    if k == 0 then multiset{}
    else Arrived(groups, order, k - 1) + if k - 1 in order then multiset(groups[k - 1]) else multiset{}
  }

  lemma {:induction false} ArrivedNext(groups: seq<seq<Bytes>>, order: seq<nat>, k: nat)
    requires order != [] && k <= |groups| && order[|order| - 1] < |groups|
    ensures var n := |order| - 1;
            Arrived(groups, order, k)
            == Arrived(groups, order[..n], k)
               + if order[n] in order[..n] || order[n] >= k then multiset{} else multiset(groups[order[n]])
  {
    var n := |order| - 1;
    assert order == order[..n] + [order[n]];
    if k > 0 {
      ArrivedNext(groups, order, k - 1);
    }
  }

  lemma NoneArrived(groups: seq<seq<Bytes>>, k: nat)
    requires k <= |groups|
    ensures Arrived(groups, [], k) == multiset{}
  {
  }

  lemma {:induction false} DeliveredIsArrived(groups: seq<seq<Bytes>>, order: seq<nat>)
    requires forall i :: 0 <= i < |order| ==> order[i] < |groups|
    ensures multiset(FirstArrivals(groups, order)) == Arrived(groups, order, |groups|)
    decreases |order|
  {
    if order == [] {
      NoneArrived(groups, |groups|);
    } else {
      DeliveredIsArrived(groups, order[..|order| - 1]);
      ArrivedNext(groups, order, |groups|);
    }
  }

  lemma {:induction false} AllArrived(groups: seq<seq<Bytes>>, order: seq<nat>, k: nat)
    requires k <= |groups| && forall j: nat :: j < |groups| ==> j in order
    ensures Arrived(groups, order, k) == multiset(Flat(groups[..k]))
  {
    if k > 0 {
      AllArrived(groups, order, k - 1);
      assert groups[..k][..k - 1] == groups[..k - 1];
    }
  }

  // However packets are repeated and reordered, once all have arrived every message
  // has been handed on exactly as often as it was sent.
  lemma AllArrivedDelivers(groups: seq<seq<Bytes>>, order: seq<nat>)
    requires forall i :: 0 <= i < |order| ==> order[i] < |groups|
    requires forall j: nat :: j < |groups| ==> j in order
    ensures multiset(FirstArrivals(groups, order)) == multiset(Flat(groups))
  {
    DeliveredIsArrived(groups, order);
    AllArrived(groups, order, |groups|);
    assert groups[..|groups|] == groups;
  }

  // ---------- In order ----------

  ghost function Upto(n: nat): (s: seq<nat>)
    ensures |s| == n && forall i :: 0 <= i < n ==> s[i] == i
  {
    seq(n, i => i)
  }

  // Packets in order never run ahead: each is the next expected.
  lemma {:induction false} InOrderRun(groups: seq<seq<Bytes>>, n: nat)
    requires Numbered(groups) && n <= |groups|
    ensures var t, ps := GapTracking.Run(Headers(groups, Upto(|groups|))[..n]), Headers(groups, Upto(|groups|));
            && (n > 0 ==> t == State(1 + |Flat(groups[..n])|, map[], 0, 0, 0)) && (n == 0 ==> t == START)
            && (n < |groups| ==> InBounds(t, ps[n]))
    decreases n
  {
    var ps := Headers(groups, Upto(|groups|));
    if n > 0 {
      InOrderRun(groups, n - 1);
      assert ps[..n][..n - 1] == ps[..n - 1];
      assert groups[..n][..n - 1] == groups[..n - 1];
      assert groups[..0] == [];
    }
    if n < |groups| {
      HeaderFits(groups, n);
    }
  }

  lemma {:induction false} InOrderArrivals(groups: seq<seq<Bytes>>, n: nat)
    requires n <= |groups|
    ensures FirstArrivals(groups, Upto(n)) == Flat(groups[..n])
    decreases n
  {
    if n > 0 {
      InOrderArrivals(groups, n - 1);
      assert Upto(n)[..n - 1] == Upto(n - 1);
      assert groups[..n][..n - 1] == groups[..n - 1];
    }
  }

  // From file to receiver: over a network that keeps packets in order, the receiver
  // hands on exactly the messages of the file, in order, and misses none.
  method Transmit(file: Bytes) returns (delivered: seq<Bytes>, lost: int)
    requires |file| < U64
    requires forall m :: m in Frames(file, 0) ==> |m| <= 1378
    ensures delivered == Frames(file, 0)
    ensures lost == 0
  {
    hide Step, Parse, PacketBytes, FrameAt, Carries, Join, GapTracking.Run, InBoundsRun, Numbered, AllFramable, Flat,
      FirstArrivals, Total;
    var reader := new ItchFileReader(file);
    var sender := new ReplaySender();
    sender.Run(reader);
    var rx := new GapReceiver();
    ghost var groups := sender.groups;
    SentIsNumbered(file, sender.sent, groups);
    ghost var order := Upto(|groups|);
    InOrderInBounds(groups);
    var arrivals := seq(|sender.sent|, i => i);
    assert arrivals == order by {
      CarriesSize(sender.sent, groups);
    }
    if |sender.sent| > 0 {
      ReceiveAll(rx, sender.sent, groups, arrivals);
      forall j: nat | j < |groups|
        ensures j in order
      {
        assert order[j] == j;
      }
      AllArrivedIsComplete(groups, order);
    } else {
      CarriesSize(sender.sent, groups);
      NothingArrived(groups, order);
    }
    InOrderArrivals(groups, |groups|);
    assert groups[..|groups|] == groups;
    delivered := rx.delivered;
    lost := rx.TrulyLost();
  }

  lemma NothingArrived(groups: seq<seq<Bytes>>, order: seq<nat>)
    requires order == []
    ensures FirstArrivals(groups, order) == [] && Total(map[]) == 0
  {
  }

  lemma CarriesSize(sent: seq<Bytes>, groups: seq<seq<Bytes>>)
    requires Carries(sent, groups)
    ensures |sent| == |groups|
  {
  }

  lemma InOrderInBounds(groups: seq<seq<Bytes>>)
    requires Numbered(groups)
    ensures InBoundsRun(Headers(groups, Upto(|groups|)))
  {
    forall i | 0 <= i < |groups|
      ensures InBounds(GapTracking.Run(Headers(groups, Upto(|groups|))[..i]), Headers(groups, Upto(|groups|))[i])
    {
      InOrderRun(groups, i);
    }
  }

  lemma SentIsNumbered(file: Bytes, sent: seq<Bytes>, groups: seq<seq<Bytes>>)
    requires |file| < U64 && Carries(sent, groups) && Flat(groups) == Frames(file, 0)
    requires forall m :: m in Frames(file, 0) ==> |m| <= MAX_PACKET - HEADER_SIZE - 2
    ensures Numbered(groups) && AllFramable(groups)
  {
    FramesAreFew(file, 0);
    forall g | g in groups
      ensures Framable(g)
    {
      var j :| 0 <= j < |groups| && groups[j] == g;
      forall m | m in g
        ensures m in Flat(groups)
      {
        MemberOfFlat(groups, j, m);
      }
    }
  }

  lemma {:induction false} FramesAreFew(s: Bytes, off: nat)
    requires off <= |s|
    ensures 2 * |Frames(s, off)| <= |s| - off
    decreases |s| - off
  {
    if FrameAt(s, off).Some? {
      FramesAreFew(s, off + 2 + |FrameAt(s, off).value|);
    }
  }

  lemma {:induction false} MemberOfFlat(groups: seq<seq<Bytes>>, j: nat, m: Bytes)
    requires j < |groups| && m in groups[j]
    ensures m in Flat(groups)
    decreases |groups|
  {
    if j < |groups| - 1 {
      MemberOfFlat(groups[..|groups| - 1], j, m);
    }
  }
}
