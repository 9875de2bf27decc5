/** The replay sender: reads length-prefixed messages from a file and packs them
    greedily into MoldUDP64 packets. */
module Sender {
  import opened Numbers
  import opened Wire

  class ItchFileReader {
    const data: Bytes
    var offset: nat

    constructor (data: Bytes)
      ensures this.data == data && offset == 0
    {
      this.data, offset := data, 0;
    }

    // The next complete message, if there is one.
    method Next() returns (ok: bool, msg: Bytes)
      requires offset <= |data|
      modifies this
      ensures offset <= |data|
      ensures ok == FrameAt(data, old(offset)).Some?
      ensures ok ==> msg == FrameAt(data, old(offset)).value && offset == old(offset) + 2 + |msg|
      ensures !ok ==> offset == old(offset)
    {
      msg := [];
      if offset + 2 > |data| {
        return false, msg;
      }
      var len := ReadBe(data[offset..offset + 2]);
      if offset + 2 + len > |data| {
        return false, msg;
      }
      msg := data[offset + 2..offset + 2 + len];
      offset := offset + (2 + len);
      ok := true;
    }
  }

  // All messages of a grouping, in order.
  ghost function Flat(groups: seq<seq<Bytes>>): seq<Bytes> {
    if groups == [] then [] else Flat(groups[..|groups| - 1]) + groups[|groups| - 1]
  }

  // The datagrams carry the groups, numbered consecutively from one.
  ghost predicate Carries(sent: seq<Bytes>, groups: seq<seq<Bytes>>) {
    && |sent| == |groups|
    && forall i :: 0 <= i < |groups| ==>
         && groups[i] != [] && sent[i] == PacketBytes(1 + |Flat(groups[..i])|, groups[i])
         && |sent[i]| <= MAX_PACKET && |groups[i]| < U16
  }

  // Packing is greedy: no packet had room for the message that starts the next.
  ghost predicate Greedy(groups: seq<seq<Bytes>>) {
    forall i :: 0 <= i && i + 1 < |groups| && groups[i + 1] != [] ==> Overflows(groups[i], groups[i + 1][0])
  }

  ghost predicate Overflows(ms: seq<Bytes>, m: Bytes) {
    HEADER_SIZE + |Join(ms)| + (2 + |m|) > MAX_PACKET
  }

  // The packets sent and the one being filled.
  ghost function Packed(groups: seq<seq<Bytes>>, current: seq<Bytes>): seq<seq<Bytes>> {
    if current == [] then groups else groups + [current]
  }

  lemma GreedyNothing()
    ensures Greedy(Packed([], []))
  {
  }

  lemma GreedyNext(groups: seq<seq<Bytes>>, current: seq<Bytes>, m: Bytes)
    requires Greedy(Packed(groups, current)) && current != [] && Overflows(current, m)
    ensures Greedy(Packed(groups + [current], [m]))
  {
    var all := groups + [current] + [[m]];
    forall i | 0 <= i && i + 1 < |all| && all[i + 1] != []
      ensures Overflows(all[i], all[i + 1][0])
    {
      assert i + 1 <= |groups| ==> all[i] == (groups + [current])[i] && all[i + 1] == (groups + [current])[i + 1];
    }
  }

  lemma GreedyMore(groups: seq<seq<Bytes>>, current: seq<Bytes>, m: Bytes)
    requires Greedy(Packed(groups, current)) && (current == [] ==> groups == [])
    ensures Greedy(Packed(groups, current + [m]))
  {
    var all := groups + [current + [m]];
    forall i | 0 <= i && i + 1 < |all| && all[i + 1] != []
      ensures Overflows(all[i], all[i + 1][0])
    {
      var was := groups + [current];
      assert all[i] == was[i] && was[i + 1] != [] && all[i + 1][0] == was[i + 1][0];
    }
  }

  lemma FlatAppend(groups: seq<seq<Bytes>>, g: seq<Bytes>)
    ensures Flat(groups + [g]) == Flat(groups) + g
  {
    assert (groups + [g])[..|groups|] == groups;
  }

  lemma FlatPacked(groups: seq<seq<Bytes>>, current: seq<Bytes>)
    ensures Flat(Packed(groups, current)) == Flat(groups) + current
  {
    FlatAppend(groups, current);
  }

  lemma FlatNothing()
    ensures Flat([]) == []
  {
  }

  lemma CarriesAppend(sent: seq<Bytes>, groups: seq<seq<Bytes>>, d: Bytes, g: seq<Bytes>)
    requires Carries(sent, groups) && g != [] && d == PacketBytes(1 + |Flat(groups)|, g)
    requires |d| <= MAX_PACKET && |g| < U16
    ensures Carries(sent + [d], groups + [g])
  {
    hide PacketBytes, Flat;
    var sent', groups' := sent + [d], groups + [g];
    forall i | 0 <= i < |groups'|
      ensures groups'[i] != [] && sent'[i] == PacketBytes(1 + |Flat(groups'[..i])|, groups'[i])
      ensures |sent'[i]| <= MAX_PACKET && |groups'[i]| < U16
    {
      assert groups'[..i] == if i < |groups| then groups[..i] else groups;
    }
  }

  lemma {:induction false} JoinSize(ms: seq<Bytes>)
    ensures |Join(ms)| >= 2 * |ms|
    decreases |ms|
  {
    if ms != [] {
      JoinSize(ms[..|ms| - 1]);
    }
  }

  lemma JoinAppend(ms: seq<Bytes>, m: Bytes)
    ensures Join(ms + [m]) == Join(ms) + Frame(m)
  {
    assert (ms + [m])[..|ms|] == ms;
  }

  // memcpy into the packet buffer.
  method Put(a: array<byte>, off: nat, s: Bytes)
    requires off + |s| <= a.Length
    modifies a
    ensures a[..] == old(a[..off]) + s + old(a[off + |s|..])
  {
    for i := 0 to |s|
      invariant a[..off + i] == old(a[..off]) + s[..i]
      invariant a[off + i..] == old(a[off + i..])
    {
      a[off + i] := s[i];
      assert a[..off + i + 1] == a[..off + i] + [s[i]];
      assert s[..i + 1] == s[..i] + [s[i]];
    }
    assert a[..] == a[..off + |s|] + a[off + |s|..];
    assert s[..|s|] == s;
  }

  lemma HeaderWritten(p0: Bytes, p1: Bytes, p2: Bytes, p3: Bytes, used: nat, seqNo: nat, ms: seq<Bytes>)
    requires HEADER_SIZE <= used <= |p0| && p0[HEADER_SIZE..used] == Join(ms)
    requires p1 == p0[..0] + SESSION + p0[10..]
    requires p2 == p1[..10] + WriteBe(seqNo, 8) + p1[18..]
    requires p3 == p2[..18] + WriteBe(|ms|, 2) + p2[20..]
    ensures p3[..used] == PacketBytes(seqNo, ms)
  {
    hide Join, WriteBe;
    assert p1[20..] == p0[20..];
    assert p2[20..] == p1[20..];
    assert p3[20..] == p2[20..];
    assert p1[..10] == SESSION;
    assert p2[..18] == SESSION + WriteBe(seqNo, 8);
    assert p3[..20] == SESSION + WriteBe(seqNo, 8) + WriteBe(|ms|, 2);
    assert p3[20..used] == p0[20..used];
    assert p3[..used] == p3[..20] + p3[20..used];
  }

  lemma FrameWritten(p0: Bytes, p1: Bytes, p2: Bytes, used: nat, ms: seq<Bytes>, m: Bytes)
    requires HEADER_SIZE <= used && used + 2 + |m| <= |p0| && p0[HEADER_SIZE..used] == Join(ms)
    requires p1 == p0[..used] + WriteBe(|m|, 2) + p0[used + 2..]
    requires p2 == p1[..used + 2] + m + p1[used + 2 + |m|..]
    ensures p2[HEADER_SIZE..used + 2 + |m|] == Join(ms) + Frame(m)
  {
    FrameBytesWritten(p0, p1, p2, used, Join(ms), WriteBe(|m|, 2), m);
  }

  lemma FrameBytesWritten(p0: Bytes, p1: Bytes, p2: Bytes, used: nat, body: Bytes, w: Bytes, m: Bytes)
    requires HEADER_SIZE <= used && used + |w| + |m| <= |p0| && p0[HEADER_SIZE..used] == body
    requires p1 == p0[..used] + w + p0[used + |w|..]
    requires p2 == p1[..used + |w|] + m + p1[used + |w| + |m|..]
    ensures p2[HEADER_SIZE..used + |w| + |m|] == body + (w + m)
  {
    Overwritten(p0, used, w, p1, HEADER_SIZE);
    Overwritten(p1, used + |w|, m, p2, HEADER_SIZE);
    assert body + w + m == body + (w + m);
  }

  // What a write at `off` leaves between a and its own end.
  lemma Overwritten(p: Bytes, off: nat, s: Bytes, q: Bytes, a: nat)
    requires a <= off && off + |s| <= |p| && q == p[..off] + s + p[off + |s|..]
    ensures |q| == |p| && q[a..off + |s|] == p[a..off] + s
  {
  }

  // Reading on: the next frame moves from what is left to what is packed.
  lemma FramesNext(s: Bytes, off: nat, taken: seq<Bytes>)
    requires off <= |s| && taken + Frames(s, off) == Frames(s, 0)
    ensures match FrameAt(s, off)
            case None => taken == Frames(s, 0)
            case Some(m) => m in Frames(s, 0) && taken + [m] + Frames(s, off + 2 + |m|) == Frames(s, 0)
  {
    if FrameAt(s, off).Some? {
      assert Frames(s, 0)[|taken|] == FrameAt(s, off).value;
    }
  }

  class ReplaySender {
    const packet: array<byte>
    var packetUsed: nat
    var packetFirstSeq: nat
    var packetMsgCount: nat
    var nextSeq: nat
    var sent: seq<Bytes>
    ghost var groups: seq<seq<Bytes>>
    ghost var current: seq<Bytes>

    ghost predicate Valid()
      reads this, packet
    {
      && packet.Length == MAX_PACKET
      && Carries(sent, groups)
      && packetUsed == HEADER_SIZE + |Join(current)| <= MAX_PACKET
      && packet[HEADER_SIZE..packetUsed] == Join(current)
      && packetMsgCount == |current|
      && nextSeq == 1 + |Flat(groups)| + |current|
      && (current != [] ==> packetFirstSeq == 1 + |Flat(groups)|)
    }

    constructor ()
      ensures Valid() && fresh(packet)
      ensures sent == [] && groups == [] && current == []
    {
      packet := new byte[MAX_PACKET](_ => 0);
      packetUsed, packetFirstSeq, packetMsgCount, nextSeq := HEADER_SIZE, 1, 0, 1;
      sent, groups, current := [], [], [];
    }

    method FlushPacket()
      requires Valid()
      modifies this, packet
      ensures Valid() && current == []
      ensures groups == Packed(old(groups), old(current))
    {
      hide Carries, Flat, Join, WriteBe, PacketBytes;
      JoinNothing();
      if packetMsgCount == 0 {
        return;
      }
      JoinSize(current);
      ghost var p0 := packet[..];
      Put(packet, 0, SESSION);
      ghost var p1 := packet[..];
      Put(packet, 10, WriteBe(packetFirstSeq, 8));
      ghost var p2 := packet[..];
      Put(packet, 18, WriteBe(packetMsgCount, 2));
      HeaderWritten(p0, p1, p2, packet[..], packetUsed, packetFirstSeq, current);
      CarriesAppend(sent, groups, packet[..packetUsed], current);
      FlatAppend(groups, current);
      sent := sent + [packet[..packetUsed]];
      groups, current := groups + [current], [];
      packetUsed := HEADER_SIZE;
      packetMsgCount := 0;
    }

    // Sends the packet being filled if the next message would overflow it.
    method MakeRoom(msg: Bytes)
      requires Valid() && |msg| <= MAX_PACKET - HEADER_SIZE - 2
      requires Greedy(Packed(groups, current)) && (current == [] ==> groups == [])
      modifies this, packet
      ensures Valid() && !Overflows(current, msg)
      ensures Greedy(Packed(groups, current + [msg]))
      ensures Flat(groups) + (current + [msg]) == old(Flat(groups) + current) + [msg]
    {
      hide Carries, Flat, Join, WriteBe, PacketBytes, Greedy;
      JoinNothing();
      FlatAppend(groups, current);
      if packetUsed + (2 + |msg|) > MAX_PACKET {
        assert current != [];
        FlushPacket();
        GreedyNext(old(groups), old(current), msg);
        assert current + [msg] == [msg];
      } else {
        GreedyMore(groups, current, msg);
      }
    }

    // Adds a message to the packet being filled.
    method Enqueue(msg: Bytes)
      requires Valid() && |msg| <= MAX_PACKET - HEADER_SIZE - 2
      requires Greedy(Packed(groups, current)) && (current == [] ==> groups == [])
      modifies this, packet
      ensures Valid() && current != [] && Greedy(Packed(groups, current))
      ensures Flat(groups) + current == old(Flat(groups) + current) + [msg]
    {
      hide Carries, Flat, Join, WriteBe, PacketBytes, Greedy;
      MakeRoom(msg);
      if packetMsgCount == 0 {
        packetFirstSeq := nextSeq;
      }
      ghost var p0 := packet[..];
      Put(packet, packetUsed, WriteBe(|msg|, 2));
      ghost var p1 := packet[..];
      Put(packet, packetUsed + 2, msg);
      FrameWritten(p0, p1, packet[..], packetUsed, current, msg);
      JoinAppend(current, msg);
      packetUsed := packetUsed + (2 + |msg|);
      packetMsgCount := packetMsgCount + 1;
      nextSeq := nextSeq + 1;
      current := current + [msg];
    }

    // Packs the whole file.
    method Run(reader: ItchFileReader)
      requires Valid() && sent == [] && groups == [] && current == [] && reader.offset == 0
      requires forall m :: m in Frames(reader.data, 0) ==> |m| <= 1378
      modifies this, packet, reader
      ensures Valid() && Greedy(groups)
      ensures Flat(groups) == Frames(reader.data, 0)
      // Each packet carries one group under the number of its first message; none is
      // empty or too long, and none had room for the message that starts the next.
      ensures |sent| == |groups|
      ensures forall i :: 0 <= i < |sent| ==>
                && groups[i] != [] && |groups[i]| < 0x1_0000
                && sent[i] == PacketBytes(1 + |Flat(groups[..i])|, groups[i]) && |sent[i]| <= 1400
      ensures forall i :: 0 <= i && i + 1 < |sent| ==> |sent[i]| + 2 + |groups[i + 1][0]| > 1400
    {
      hide Carries, Flat, Frames, FrameAt, Join, PacketBytes, Greedy, Overflows, Packed, ReplaySender.Valid;
      FlatNothing();
      GreedyNothing();
      while true
        invariant Valid() && reader.offset <= |reader.data|
        invariant Greedy(Packed(groups, current)) && (current == [] ==> groups == [])
        invariant (Flat(groups) + current) + Frames(reader.data, reader.offset) == Frames(reader.data, 0)
        decreases |reader.data| - reader.offset
      {
        ghost var taken := Flat(groups) + current;
        FramesNext(reader.data, reader.offset, taken);
        var ok, msg := reader.Next();
        if !ok {
          break;
        }
        ghost var off := reader.offset;
        Enqueue(msg);
        assert Flat(groups) + current == taken + [msg] && reader.offset == off;
      }
      FlatPacked(groups, current);
      FlushPacket();
      SentAre(this);
    }
  }

  lemma SentAre(s: ReplaySender)
    requires s.Valid() && Greedy(s.groups)
    ensures |s.sent| == |s.groups|
    ensures forall i :: 0 <= i < |s.sent| ==>
              && s.groups[i] != [] && |s.groups[i]| < 0x1_0000
              && s.sent[i] == PacketBytes(1 + |Flat(s.groups[..i])|, s.groups[i]) && |s.sent[i]| <= 1400
    ensures forall i :: 0 <= i && i + 1 < |s.sent| ==> |s.sent[i]| + 2 + |s.groups[i + 1][0]| > 1400
  {
    hide Join, Flat, WriteBe;
    forall i | 0 <= i && i + 1 < |s.sent|
      ensures |s.sent[i]| + 2 + |s.groups[i + 1][0]| > 1400
    {
      assert Overflows(s.groups[i], s.groups[i + 1][0]);
      assert s.sent[i] == PacketBytes(1 + |Flat(s.groups[..i])|, s.groups[i]);
    }
  }
}
