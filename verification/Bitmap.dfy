/** The occupancy bitmap of the price window: one bit a level, 64 to a word,
    and the search for the nearest set bit across words. */
module Bitmap {
  const WORDS := 32
  const BITS := 2048

  predicate BitV(w: bv64, b: bv6) {
    (w >> b) & 1 == 1
  }

  predicate Bit(w: bv64, b: nat)
    requires b < 64
  {
    BitV(w, Shift(b))
  }

  // A bit position as a six-bit shift count.
  function Shift(b: nat): (v: bv6)
    requires b < 64
  {
    if b == 0 then 0 else Shift(b - 1) + 1
  }

  lemma SuccV(v: bv6)
    requires v as int < 63
    ensures (v + 1) as int == v as int + 1
  {
  }

  lemma {:induction false} ShiftCount(b: nat)
    requires b < 64
    ensures Shift(b) as int == b
  {
    if b > 0 {
      ShiftCount(b - 1);
      SuccV(Shift(b - 1));
    }
  }

  lemma OrderV(u: bv6, v: bv6)
    ensures u <= v <==> u as int <= v as int
    ensures u == v <==> u as int == v as int
  {
  }

  lemma ShiftOrder(b: nat, c: nat)
    requires b < 64 && c < 64
    ensures Shift(b) <= Shift(c) <==> b <= c
    ensures Shift(b) == Shift(c) <==> b == c
  {
    ShiftCount(b);
    ShiftCount(c);
    OrderV(Shift(b), Shift(c));
  }

  // The masks of the source, by shift count.
  function AllBut(b: bv6): bv64 {
    !(1 << b)
  }

  function OnesUpTo(b: bv6): bv64 {
    if b == 63 then 0xFFFF_FFFF_FFFF_FFFF else (1 << (b + 1)) - 1
  }

  function OnesFrom(b: bv6): bv64 {
    0xFFFF_FFFF_FFFF_FFFF << b
  }

  // Its four word operations.
  function WithBit(w: bv64, b: bv6): bv64 {
    w | (1 << b)
  }

  function WithoutBit(w: bv64, b: bv6): bv64 {
    w & AllBut(b)
  }

  function UpTo(w: bv64, b: bv6): bv64 {
    w & OnesUpTo(b)
  }

  function From(w: bv64, b: bv6): bv64 {
    w & OnesFrom(b)
  }

  lemma SetBitV(w: bv64, b: bv6, c: bv6)
    ensures BitV(WithBit(w, b), c) <==> c == b || BitV(w, c)
  {
  }

  lemma ClearBitV(w: bv64, b: bv6, c: bv6)
    ensures BitV(WithoutBit(w, b), c) <==> c != b && BitV(w, c)
  {
    hide BitV, AllBut;
    MaskedBit(w, AllBut(b), c);
    AllButBits(b, c);
  }

  lemma LowMaskV(w: bv64, b: bv6, c: bv6)
    ensures BitV(UpTo(w, b), c) <==> c <= b && BitV(w, c)
  {
    hide BitV, OnesUpTo;
    MaskedBit(w, OnesUpTo(b), c);
    OnesUpToBits(b, c);
  }

  lemma HighMaskV(w: bv64, b: bv6, c: bv6)
    ensures BitV(From(w, b), c) <==> b <= c && BitV(w, c)
  {
    hide BitV, OnesFrom;
    MaskedBit(w, OnesFrom(b), c);
    OnesFromBits(b, c);
  }

  lemma MaskedBit(w: bv64, mask: bv64, c: bv6)
    ensures BitV(w & mask, c) <==> BitV(w, c) && BitV(mask, c)
  {
  }

  lemma AllButBits(b: bv6, c: bv6)
    ensures BitV(AllBut(b), c) <==> c != b
  {
  }

  lemma OnesUpToBits(b: bv6, c: bv6)
    ensures BitV(OnesUpTo(b), c) <==> c <= b
  {
  }

  lemma OnesFromBits(b: bv6, c: bv6)
    ensures BitV(OnesFrom(b), c) <==> b <= c
  {
  }

  // ---------- Counting zeros at either end of a word ----------

  // Bits b-1 and below are the only ones that can be set.
  ghost predicate FitsBelow(w: bv64, b: nat) {
    b >= 64 || w >> Shift(b) == 0
  }

  lemma FitsOneLess(w: bv64, b: nat)
    requires b < 64 && FitsBelow(w, b + 1) && !Bit(w, b)
    ensures FitsBelow(w, b)
  {
    if b < 63 {
      ShiftOrder(b, 63);
      FitsOneLessV(w, Shift(b));
    } else {
      ShiftCount(63);
      TopClearV(w);
    }
  }

  lemma FitsOneLessV(w: bv64, b: bv6)
    requires b < 63 && w >> (b + 1) == 0 && !BitV(w, b)
    ensures w >> b == 0
  {
  }

  lemma TopClearV(w: bv64)
    requires !BitV(w, 63)
    ensures w >> 63 == 0
  {
  }

  lemma LastBitV(w: bv64)
    requires w != 0 && w >> 1 == 0
    ensures w == 1
  {
  }

  lemma LastBit(w: bv64)
    requires w != 0 && FitsBelow(w, 1)
    ensures Bit(w, 0)
  {
    LastBitV(w);
  }

  function HighestFrom(w: bv64, b: nat): (r: nat)
    requires w != 0 && b < 64 && FitsBelow(w, b + 1)
    ensures r <= b && Bit(w, r)
    ensures forall c :: r < c <= b ==> !Bit(w, c)
    decreases b
  {
    if b == 0 then LastBit(w); 0
    else if Bit(w, b) then b
    else FitsOneLess(w, b); HighestFrom(w, b - 1)
  }

  // The number of leading zero bits of a nonzero word.
  function CountLeadingZeros(w: bv64): (r: nat)
    requires w != 0
    ensures r < 64 && Bit(w, 63 - r)
    ensures forall c :: 63 - r < c < 64 ==> !Bit(w, c)
  {
    63 - HighestFrom(w, 63)
  }

  function LowestFrom(w: bv64, b: nat, top: nat): (r: nat)
    requires b <= top < 64 && Bit(w, top)
    ensures b <= r <= top && Bit(w, r)
    ensures forall c :: b <= c < r ==> !Bit(w, c)
    decreases top - b
  {
    if Bit(w, b) then b else LowestFrom(w, b + 1, top)
  }

  // The number of trailing zero bits of a nonzero word.
  function CountTrailingZeros(w: bv64): (r: nat)
    requires w != 0
    ensures r < 64 && Bit(w, r)
    ensures forall c :: 0 <= c < r ==> !Bit(w, c)
  {
    LowestFrom(w, 0, HighestFrom(w, 63))
  }

  // ---------- The bitmap as a whole ----------

  ghost predicate IsSet(occ: seq<bv64>, l: int)
    requires |occ| == WORDS && 0 <= l < BITS
  {
    Bit(occ[l / 64], l % 64)
  }

  function SetAt(occ: seq<bv64>, l: nat): (r: seq<bv64>)
    requires |occ| == WORDS && l < BITS
    ensures |r| == WORDS
  {
    occ[l / 64 := WithBit(occ[l / 64], Shift(l % 64))]
  }

  function ClearAt(occ: seq<bv64>, l: nat): (r: seq<bv64>)
    requires |occ| == WORDS && l < BITS
    ensures |r| == WORDS
  {
    occ[l / 64 := WithoutBit(occ[l / 64], Shift(l % 64))]
  }

  lemma SetBit(w: bv64, b: nat, c: nat)
    requires b < 64 && c < 64
    ensures Bit(WithBit(w, Shift(b)), c) <==> c == b || Bit(w, c)
  {
    hide BitV, WithBit, Shift;
    SetBitV(w, Shift(b), Shift(c));
    ShiftOrder(b, c);
  }

  lemma ClearBit(w: bv64, b: nat, c: nat)
    requires b < 64 && c < 64
    ensures Bit(WithoutBit(w, Shift(b)), c) <==> c != b && Bit(w, c)
  {
    hide BitV, WithoutBit, Shift;
    ClearBitV(w, Shift(b), Shift(c));
    ShiftOrder(b, c);
  }

  lemma LowMask(w: bv64, b: nat, c: nat)
    requires b < 64 && c < 64
    ensures Bit(UpTo(w, Shift(b)), c) <==> c <= b && Bit(w, c)
  {
    hide BitV, UpTo, Shift;
    LowMaskV(w, Shift(b), Shift(c));
    ShiftOrder(c, b);
  }

  lemma HighMask(w: bv64, b: nat, c: nat)
    requires b < 64 && c < 64
    ensures Bit(From(w, Shift(b)), c) <==> b <= c && Bit(w, c)
  {
    hide BitV, From, Shift;
    HighMaskV(w, Shift(b), Shift(c));
    ShiftOrder(b, c);
  }

  lemma SetAtSets(occ: seq<bv64>, l: nat, x: nat)
    requires |occ| == WORDS && l < BITS && x < BITS
    ensures IsSet(SetAt(occ, l), x) <==> x == l || IsSet(occ, x)
  {
    hide BitV, WithBit, Shift;
    SetBit(occ[l / 64], l % 64, x % 64);
  }

  lemma ClearAtClears(occ: seq<bv64>, l: nat, x: nat)
    requires |occ| == WORDS && l < BITS && x < BITS
    ensures IsSet(ClearAt(occ, l), x) <==> x != l && IsSet(occ, x)
  {
    hide BitV, WithoutBit, Shift;
    ClearBit(occ[l / 64], l % 64, x % 64);
  }

  // r is the nearest set bit at or below `from`, or -1 if there is none.
  ghost predicate NearestBelow(occ: seq<bv64>, from: int, r: int)
    requires |occ| == WORDS && from < BITS
  {
    && -1 <= r && r <= from
    && (r >= 0 ==> IsSet(occ, r))
    && (forall x :: r < x <= from && 0 <= x ==> !IsSet(occ, x))
  }

  // r is the nearest set bit at or above `from`, or -1 if there is none.
  ghost predicate NearestAbove(occ: seq<bv64>, from: nat, r: int)
    requires |occ| == WORDS
  {
    if r == -1 then forall x :: from <= x < BITS ==> !IsSet(occ, x)
    else from <= r < BITS && IsSet(occ, r) && forall x :: from <= x < r ==> !IsSet(occ, x)
  }

  lemma LowMaskAll(w: bv64, b: nat)
    requires b < 64
    ensures forall c :: 0 <= c < 64 ==> (Bit(UpTo(w, Shift(b)), c) <==> c <= b && Bit(w, c))
  {
    hide BitV, UpTo, Shift;
    forall c | 0 <= c < 64
      ensures Bit(UpTo(w, Shift(b)), c) <==> c <= b && Bit(w, c)
    {
      LowMask(w, b, c);
    }
  }

  lemma HighMaskAll(w: bv64, b: nat)
    requires b < 64
    ensures forall c :: 0 <= c < 64 ==> (Bit(From(w, Shift(b)), c) <==> b <= c && Bit(w, c))
  {
    hide BitV, From, Shift;
    forall c | 0 <= c < 64
      ensures Bit(From(w, Shift(b)), c) <==> b <= c && Bit(w, c)
    {
      HighMask(w, b, c);
    }
  }

  lemma ZeroHasNoBits()
    ensures forall c :: 0 <= c < 64 ==> !Bit(0, c)
  {
    forall b: bv6
      ensures !BitV(0, b)
    {
    }
  }

  // The set levels of one word are the set bits of that word.
  lemma WordBits(occ: seq<bv64>, w: nat)
    requires |occ| == WORDS && w < WORDS
    ensures forall c :: 0 <= c < 64 ==> (IsSet(occ, w * 64 + c) <==> Bit(occ[w], c))
    ensures forall x :: w * 64 <= x < w * 64 + 64 ==> (IsSet(occ, x) <==> Bit(occ[w], x - w * 64))
  {
    hide Bit;
    assert forall x :: w * 64 <= x < w * 64 + 64 ==> x / 64 == w && x % 64 == x - w * 64;
  }

  // `word` holds the set levels of word w that pass the limit.
  ghost predicate Candidates(occ: seq<bv64>, w: int, word: bv64, low: int, high: int)
    requires |occ| == WORDS && 0 <= w < WORDS
  {
    forall c :: 0 <= c < 64 ==> (Bit(word, c) <==> low <= w * 64 + c <= high && IsSet(occ, w * 64 + c))
  }

  lemma NoCandidates(occ: seq<bv64>, w: nat, low: int, high: int)
    requires |occ| == WORDS && w < WORDS && Candidates(occ, w, 0, low, high)
    ensures forall x :: w * 64 <= x < w * 64 + 64 && low <= x <= high ==> !IsSet(occ, x)
  {
    ZeroHasNoBits();
    hide Bit, IsSet;
    forall x | w * 64 <= x < w * 64 + 64 && low <= x <= high
      ensures !IsSet(occ, x)
    {
      var c := x - w * 64;
      assert x == w * 64 + c && !Bit(0, c);
    }
  }

  lemma TopCandidate(occ: seq<bv64>, w: nat, word: bv64, low: int, high: int)
    requires |occ| == WORDS && w < WORDS && word != 0 && Candidates(occ, w, word, low, high)
    ensures var r := w * 64 + (63 - CountLeadingZeros(word));
            low <= r <= high && r < w * 64 + 64 && IsSet(occ, r)
            && forall x :: r < x < w * 64 + 64 && low <= x <= high ==> !IsSet(occ, x)
  {
    hide Bit, IsSet;
    var r := w * 64 + (63 - CountLeadingZeros(word));
    forall x | r < x < w * 64 + 64 && low <= x <= high
      ensures !IsSet(occ, x)
    {
      var c := x - w * 64;
      assert x == w * 64 + c && !Bit(word, c);
    }
  }

  lemma BottomCandidate(occ: seq<bv64>, w: nat, word: bv64, low: int, high: int)
    requires |occ| == WORDS && w < WORDS && word != 0 && Candidates(occ, w, word, low, high)
    ensures var r := w * 64 + CountTrailingZeros(word);
            low <= r <= high && w * 64 <= r < BITS && IsSet(occ, r)
            && forall x :: w * 64 <= x < r && low <= x <= high ==> !IsSet(occ, x)
  {
    hide Bit, IsSet;
    var r := w * 64 + CountTrailingZeros(word);
    forall x | w * 64 <= x < r && low <= x <= high
      ensures !IsSet(occ, x)
    {
      var c := x - w * 64;
      assert x == w * 64 + c && !Bit(word, c);
    }
  }

  method FindPrevSet(occ: array<bv64>, from: int) returns (r: int)
    requires occ.Length == WORDS && from < BITS
    ensures from < 0 ==> r == -1
    ensures from >= 0 ==> NearestBelow(occ[..], from, r)
  {
    hide Bit, UpTo, Shift, IsSet, CountLeadingZeros;
    if from < 0 {
      return -1;
    }
    var w := from / 64;
    LowMaskAll(occ[w], from % 64);
    WordBits(occ[..], w);
    var word := UpTo(occ[w], Shift(from % 64));
    while true
      invariant 0 <= w <= from / 64
      invariant Candidates(occ[..], w, word, 0, from)
      invariant forall x :: w * 64 + 64 <= x <= from ==> !IsSet(occ[..], x)
      decreases w
    {
      if word != 0 {
        TopCandidate(occ[..], w, word, 0, from);
        return w * 64 + (63 - CountLeadingZeros(word));
      }
      NoCandidates(occ[..], w, 0, from);
      if w == 0 {
        return -1;
      }
      w := w - 1;
      WordBits(occ[..], w);
      word := occ[w];
    }
  }

  method FindNextSet(occ: array<bv64>, from: int) returns (r: int)
    requires occ.Length == WORDS
    ensures from >= BITS ==> r == -1
    ensures from < BITS ==> NearestAbove(occ[..], if from < 0 then 0 else from, r)
  {
    hide Bit, From, Shift, IsSet, CountTrailingZeros;
    if from >= BITS {
      return -1;
    }
    var start := if from < 0 then 0 else from;
    var w := start / 64;
    HighMaskAll(occ[w], start % 64);
    WordBits(occ[..], w);
    var word := From(occ[w], Shift(start % 64));
    var lastWord := (BITS - 1) / 64;
    while true
      invariant start / 64 <= w <= lastWord
      invariant Candidates(occ[..], w, word, start, BITS)
      invariant forall x :: start <= x < w * 64 ==> !IsSet(occ[..], x)
      decreases lastWord - w
    {
      if word != 0 {
        BottomCandidate(occ[..], w, word, start, BITS);
        return w * 64 + CountTrailingZeros(word);
      }
      NoCandidates(occ[..], w, start, BITS);
      if w >= lastWord {
        return -1;
      }
      w := w + 1;
      WordBits(occ[..], w);
      word := occ[w];
    }
  }
}
