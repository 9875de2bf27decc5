/** Bytes on the wire: big-endian numbers, length-prefixed frames, and the
    MoldUDP64 downstream packet. */
module Wire {
  import opened Numbers

  type byte = x: int | 0 <= x < 256
  type Bytes = seq<byte>

  const HEADER_SIZE := 20
  const MAX_PACKET := 1400
  const SESSION: Bytes := [83, 69, 83, 83, 73, 79, 78, 48, 48, 49]

  function Pow256(n: nat): (p: nat)
    ensures p >= 1
  {
    if n == 0 then 1 else 256 * Pow256(n - 1)
  }

  // The number that big-endian bytes spell.
  function ReadBe(s: Bytes): nat {
    if s == [] then 0 else ReadBe(s[..|s| - 1]) * 256 + s[|s| - 1]
  }

  // The lowest n base-256 digits of v, most significant first.
  function WriteBe(v: nat, n: nat): (s: Bytes)
    ensures |s| == n
  {
    if n == 0 then [] else WriteBe(v / 256, n - 1) + [v % 256]
  }

  lemma {:induction false} ReadWriteBe(v: nat, n: nat)
    requires v < Pow256(n)
    ensures ReadBe(WriteBe(v, n)) == v
    decreases n
  {
    if n > 0 {
      ReadWriteBe(v / 256, n - 1);
      assert WriteBe(v, n)[..n - 1] == WriteBe(v / 256, n - 1);
    }
  }

  lemma {:induction false} ReadBound(s: Bytes)
    ensures ReadBe(s) < Pow256(|s|)
    decreases |s|
  {
    if s != [] {
      ReadBound(s[..|s| - 1]);
    }
  }

  lemma Powers()
    ensures Pow256(2) == U16 && Pow256(8) == U64
  {
    assert Pow256(4) == U32;
    assert Pow256(5) == U32 * 256;
    assert Pow256(6) == U32 * 256 * 256;
  }

  // The most significant byte comes first.
  lemma ReadBePair(a: byte, b: byte)
    ensures ReadBe([a, b]) == 256 * (a as int) + b
  {
    assert [a, b][..1] == [a] && [a][..0] == [];
    assert ReadBe([a]) == a;
  }

  // What stands in front counts for more by the bytes behind it.
  lemma {:induction false} ReadBeJoin(s: Bytes, t: Bytes)
    ensures ReadBe(s + t) == ReadBe(s) * Pow256(|t|) + ReadBe(t)
    decreases |t|
  {
    hide ReadBe, Pow256;
    if t == [] {
      assert s + t == s;
      ReadBeEnds(t);
    } else {
      var n := |t| - 1;
      assert (s + t)[..|s + t| - 1] == s + t[..n];
      ReadBeEnds(s + t);
      ReadBeEnds(t);
      ReadBeJoin(s, t[..n]);
      ShiftByte(ReadBe(s), Pow256(n), ReadBe(t[..n]), t[n]);
    }
  }

  lemma ReadBeEnds(s: Bytes)
    ensures s == [] ==> ReadBe(s) == 0 && Pow256(0) == 1
    ensures s != [] ==> ReadBe(s) == ReadBe(s[..|s| - 1]) * 256 + s[|s| - 1]
    ensures s != [] ==> Pow256(|s|) == 256 * Pow256(|s| - 1)
  {
  }

  lemma ShiftByte(a: nat, p: nat, b: nat, c: nat)
    ensures (a * p + b) * 256 + c == a * (256 * p) + (b * 256 + c)
  {
  }

  lemma WriteBePair(v: nat)
    requires v < 0x1_0000
    ensures WriteBe(v, 2) == [v / 256, v % 256]
  {
    assert WriteBe(v / 256, 1) == WriteBe(v / 256 / 256, 0) + [v / 256 % 256];
  }

  // ---------- Frames ----------

  // A message preceded by its two-byte length.
  function Frame(m: Bytes): Bytes {
    WriteBe(|m|, 2) + m
  }

  function Join(ms: seq<Bytes>): Bytes {
    if ms == [] then [] else Join(ms[..|ms| - 1]) + Frame(ms[|ms| - 1])
  }

  // The message framed at an offset, unless the bytes end before it does.
  function FrameAt(s: Bytes, off: nat): Option<Bytes> {
    if off + 2 > |s| then None
    else
      var len := ReadBe(s[off..off + 2]);
      if off + 2 + len > |s| then None else Some(s[off + 2..off + 2 + len])
  }

  // At most `limit` messages framed back to back from an offset, up to the first
  // that is cut short.
  function Parse(s: Bytes, off: nat, limit: nat): seq<Bytes>
    decreases limit
  {
    if limit == 0 then []
    else
      match FrameAt(s, off)
      case None => []
      case Some(m) => [m] + Parse(s, off + 2 + |m|, limit - 1)
  }

  // All of them.
  function Frames(s: Bytes, off: nat): seq<Bytes>
    decreases |s| - off
  {
    match FrameAt(s, off)
    case None => []
    case Some(m) => [m] + Frames(s, off + 2 + |m|)
  }

  // Two bytes of length, the higher first, and then so many bytes of message.
  lemma FrameLayout(m: Bytes)
    requires |m| < 0x1_0000
    ensures Frame(m) == [|m| / 256, |m| % 256] + m
  {
    WriteBePair(|m|);
  }

  lemma FrameAtIs(s: Bytes, off: nat)
    ensures off + 2 > |s| ==> FrameAt(s, off) == None
    ensures off + 2 <= |s| ==>
              var len := 256 * (s[off] as int) + s[off + 1];
              FrameAt(s, off) == if off + 2 + len <= |s| then Some(s[off + 2..off + 2 + len]) else None
  {
    if off + 2 <= |s| {
      assert s[off..off + 2] == [s[off], s[off + 1]];
      ReadBePair(s[off], s[off + 1]);
    }
  }

  // Unpacking hands on complete messages only, and of these as many as announced.
  lemma {:induction false} ParseIsFrames(s: Bytes, off: nat, limit: nat)
    ensures var all := Frames(s, off); Parse(s, off, limit) == if limit <= |all| then all[..limit] else all
    decreases limit
  {
    hide FrameAt;
    if limit > 0 && FrameAt(s, off).Some? {
      ParseIsFrames(s, off + 2 + |FrameAt(s, off).value|, limit - 1);
    }
  }

  ghost predicate Framable(ms: seq<Bytes>) {
    forall m :: m in ms ==> |m| < U16
  }

  lemma FrameIsRead(pre: Bytes, m: Bytes, post: Bytes)
    requires |m| < U16
    ensures FrameAt(pre + Frame(m) + post, |pre|) == Some(m)
  {
    var s := pre + Frame(m) + post;
    assert s[|pre|..|pre| + 2] == WriteBe(|m|, 2);
    Powers();
    ReadWriteBe(|m|, 2);
    assert s[|pre| + 2..|pre| + 2 + |m|] == m;
  }

  lemma {:induction false} JoinCons(m: Bytes, ms: seq<Bytes>)
    ensures Join([m] + ms) == Frame(m) + Join(ms)
    decreases |ms|
  {
    var all := [m] + ms;
    if ms == [] {
      assert all[..0] == [] && all[0] == m;
    } else {
      JoinCons(m, ms[..|ms| - 1]);
      assert all[..|all| - 1] == [m] + ms[..|ms| - 1];
      assert Frame(m) + Join(ms[..|ms| - 1]) + Frame(ms[|ms| - 1]) ==
             Frame(m) + (Join(ms[..|ms| - 1]) + Frame(ms[|ms| - 1]));
    }
  }

  // Reading back what was framed: the messages, and no more than asked for.
  lemma {:induction false} ParseJoined(pre: Bytes, ms: seq<Bytes>, post: Bytes)
    requires Framable(ms)
    ensures Parse(pre + Join(ms) + post, |pre|, |ms|) == ms
    decreases |ms|
  {
    hide FrameAt, Frame, ReadBe, WriteBe, Join;
    if ms != [] {
      var m, rest := ms[0], ms[1..];
      assert ms == [m] + rest;
      JoinCons(m, rest);
      var s := pre + Join(ms) + post;
      assert s == pre + Frame(m) + (Join(rest) + post);
      FrameIsRead(pre, m, Join(rest) + post);
      ParseJoined(pre + Frame(m), rest, post);
      assert s == (pre + Frame(m)) + Join(rest) + post;
      FrameSize(m);
    }
  }

  lemma FrameAtSplits(s: Bytes, off: nat)
    requires FrameAt(s, off).Some?
    ensures var m := FrameAt(s, off).value;
            && |m| < U16 && off + 2 + |m| <= |s| && s[off..off + 2 + |m|] == Frame(m)
  {
    var head := s[off..off + 2];
    Powers();
    ReadBound(head);
    WriteReadBe(head);
    var m := FrameAt(s, off).value;
    assert s[off..off + 2 + |m|] == head + m;
  }

  lemma {:induction false} WriteReadBe(s: Bytes)
    ensures WriteBe(ReadBe(s), |s|) == s
    decreases |s|
  {
    if s != [] {
      var n := |s| - 1;
      WriteReadBe(s[..n]);
      assert ReadBe(s) / 256 == ReadBe(s[..n]) && ReadBe(s) % 256 == s[n];
      assert s == s[..n] + [s[n]];
    }
  }

  // The messages read are those of the longest prefix of complete frames: their
  // frames are a prefix of the bytes, and no complete frame follows it.
  lemma {:induction false} FramesArePrefix(s: Bytes, off: nat)
    requires off <= |s|
    ensures var ms := Frames(s, off);
            var end := off + |Join(ms)|;
            && Framable(ms) && end <= |s| && s[off..end] == Join(ms) && FrameAt(s, end) == None
    decreases |s| - off
  {
    hide FrameAt, Frame, ReadBe, WriteBe, Join;
    JoinNothing();
    if FrameAt(s, off).Some? {
      var m := FrameAt(s, off).value;
      var next := off + 2 + |m|;
      FrameAtSplits(s, off);
      FramesArePrefix(s, next);
      var rest := Frames(s, next);
      JoinCons(m, rest);
      assert forall x :: x in [m] + rest <==> x == m || x in rest;
      var end := next + |Join(rest)|;
      assert s[off..end] == s[off..next] + s[next..end];
    }
  }

  // Conversely, framed messages followed by an incomplete frame are read back.
  lemma {:induction false} FramesJoined(pre: Bytes, ms: seq<Bytes>, post: Bytes)
    requires Framable(ms) && FrameAt(post, 0) == None
    ensures Frames(pre + Join(ms) + post, |pre|) == ms
    decreases |ms|
  {
    hide FrameAt, Frame, ReadBe, WriteBe, Join;
    JoinNothing();
    var s := pre + Join(ms) + post;
    if ms == [] {
      assert s == pre + post;
      FrameAtShifts(pre, post);
    } else {
      var m, rest := ms[0], ms[1..];
      assert ms == [m] + rest;
      JoinCons(m, rest);
      assert s == pre + Frame(m) + (Join(rest) + post);
      FrameIsRead(pre, m, Join(rest) + post);
      FramesJoined(pre + Frame(m), rest, post);
      assert s == (pre + Frame(m)) + Join(rest) + post;
      FrameSize(m);
    }
  }

  lemma JoinNothing()
    ensures Join([]) == []
  {
  }

  lemma FrameSize(m: Bytes)
    ensures |Frame(m)| == 2 + |m|
  {
  }

  lemma FrameAtShifts(pre: Bytes, post: Bytes)
    ensures FrameAt(pre + post, |pre|) == FrameAt(post, 0)
  {
    var s := pre + post;
    if |post| >= 2 {
      assert s[|pre|..|pre| + 2] == post[0..2];
      var len := ReadBe(post[0..2]);
      if 2 + len <= |post| {
        assert s[|pre| + 2..|pre| + 2 + len] == post[2..2 + len];
      }
    }
  }

  // ---------- Packets ----------

  // Session, first sequence number, message count, message blocks.
  function PacketBytes(seqNo: nat, ms: seq<Bytes>): Bytes {
    SESSION + WriteBe(seqNo, 8) + WriteBe(|ms|, 2) + Join(ms)
  }

  function SeqOf(buf: Bytes): nat
    requires |buf| >= HEADER_SIZE
  {
    ReadBe(buf[10..18])
  }

  function CountOf(buf: Bytes): nat
    requires |buf| >= HEADER_SIZE
  {
    ReadBe(buf[18..20])
  }

  // A packet reads back as the numbers and messages it was made of.
  lemma PacketRoundTrip(seqNo: nat, ms: seq<Bytes>)
    requires seqNo < U64 && |ms| < U16 && Framable(ms)
    ensures var buf := PacketBytes(seqNo, ms);
            && |buf| == HEADER_SIZE + |Join(ms)|
            && SeqOf(buf) == seqNo && CountOf(buf) == |ms|
            && Parse(buf, HEADER_SIZE, |ms|) == ms
  {
    var buf := PacketBytes(seqNo, ms);
    Powers();
    assert buf[10..18] == WriteBe(seqNo, 8) && buf[18..20] == WriteBe(|ms|, 2);
    ReadWriteBe(seqNo, 8);
    ReadWriteBe(|ms|, 2);
    var header := SESSION + WriteBe(seqNo, 8) + WriteBe(|ms|, 2);
    ParseJoined(header, ms, []);
    assert buf == header + Join(ms) + [];
  }

  // The header of a downstream packet: ten bytes of session, eight of sequence
  // number, two of message count, and from byte 20 on the message blocks.
  lemma PacketLayout(seqNo: nat, ms: seq<Bytes>)
    requires |ms| < 0x1_0000
    ensures var buf := PacketBytes(seqNo, ms);
            && |buf| == 20 + |Join(ms)|
            && buf[..10] == [83, 69, 83, 83, 73, 79, 78, 48, 48, 49]
            && buf[10..18] == WriteBe(seqNo, 8)
            && buf[18..20] == [|ms| / 256, |ms| % 256]
            && buf[20..] == Join(ms)
  {
    WriteBePair(|ms|);
  }

  lemma HeaderFields(buf: Bytes)
    requires |buf| >= 20
    ensures CountOf(buf) == 256 * (buf[18] as int) + buf[19]
    ensures SeqOf(buf) == ReadBe(buf[10..14]) * 0x1_0000_0000 + ReadBe(buf[14..18])
  {
    assert buf[18..20] == [buf[18], buf[19]];
    ReadBePair(buf[18], buf[19]);
    assert buf[10..18] == buf[10..14] + buf[14..18];
    ReadBeJoin(buf[10..14], buf[14..18]);
    assert Pow256(4) == 0x1_0000_0000;
  }
}
