/** The layout of the open-addressing table of order references, as a value:
    which key sits in which slot, and what linear probing needs of it. */
module RefLayout {
  import opened Numbers
  import opened Counting

  const EMPTY: uint64 := 0xFFFF_FFFF_FFFF_FFFF

  datatype Slot = Slot(key: uint64, value: uint32)

  type Hash = uint64 -> uint64

  ghost function Home(hash: Hash, key: uint64, cap: nat): (h: nat)
    requires cap > 0
    ensures h < cap
  {
    hash(key) % cap
  }

  // A key's home is the masked hash, as the probe computes it.
  lemma HomeIsMasked(hash: Hash, key: uint64, log: nat)
    ensures Home(hash, key, Pow2(log)) == BitAnd(hash(key), Pow2(log) - 1)
  {
    MaskIsModulo(hash(key), log);
  }

  // Number of steps from slot a forward (cyclically) to slot b.
  ghost function Dist(a: int, b: int, cap: nat): (d: int)
    requires 0 <= a < cap && 0 <= b < cap
    ensures 0 <= d < cap
  {
    if a <= b then b - a else b - a + cap
  }

  ghost function Next(i: nat, cap: nat): (j: nat)
    requires i < cap
    ensures j < cap
  {
    if i + 1 == cap then 0 else i + 1
  }

  // No key occurs in two slots.
  ghost predicate Distinct(s: seq<Slot>) {
    forall i, j :: 0 <= i < |s| && 0 <= j < |s| && i != j && s[i].key != EMPTY ==> s[i].key != s[j].key
  }

  // x lies on the cyclic path from the home of slot i's key to slot i.
  ghost predicate OnPath(hash: Hash, s: seq<Slot>, i: int, x: int)
    requires 0 <= i < |s| && 0 <= x < |s|
  {
    var h := Home(hash, s[i].key, |s|);
    Dist(h, x, |s|) <= Dist(h, i, |s|)
  }

  // Every slot between a key's home and its slot is occupied, so a probe for
  // the key never meets an empty slot first.
  ghost predicate NoGaps(hash: Hash, s: seq<Slot>) {
    forall i, x {:trigger OnPath(hash, s, i, x)} ::
      0 <= i < |s| && 0 <= x < |s| && s[i].key != EMPTY && OnPath(hash, s, i, x) ==> s[x].key != EMPTY
  }

  // The slots hold exactly the pairs of m.
  ghost predicate Stores(s: seq<Slot>, m: map<uint64, uint32>) {
    && (forall i :: 0 <= i < |s| && s[i].key != EMPTY ==> s[i].key in m && m[s[i].key] == s[i].value)
    && (forall k :: k in m ==> k != EMPTY && exists i :: 0 <= i < |s| && s[i].key == k)
  }

  ghost predicate Layout(hash: Hash, s: seq<Slot>, m: map<uint64, uint32>) {
    Distinct(s) && NoGaps(hash, s) && Stores(s, m)
  }

  lemma SpareSlot(hash: Hash, s: seq<Slot>, m: map<uint64, uint32>) returns (e: nat)
    requires Layout(hash, s, m) && |m| < |s|
    ensures e < |s| && s[e].key == EMPTY
  {
    var keys := seq(|s|, i requires 0 <= i < |s| => s[i].key);
    if forall i :: 0 <= i < |s| ==> keys[i] != EMPTY {
      AtLeast(m.Keys, keys);
    }
    assert exists i :: 0 <= i < |s| && keys[i] == EMPTY;
    e :| 0 <= e < |s| && s[e].key == EMPTY;
  }

  // ---------- Erasing by shifting back ----------

  // The state of the shifting loop: slot `hole` is logically empty (what it
  // holds is stale), the slots after it up to `cursor` have been examined and
  // none of their keys needs the hole, and slot `spare` is an empty one ahead.
  ghost predicate Shifting(hash: Hash, s: seq<Slot>, m: map<uint64, uint32>, key: uint64,
                           hole: int, cursor: int, spare: int)
  {
    && 0 <= hole < |s| && 0 <= cursor < |s| && 0 <= spare < |s|
    && s[spare].key == EMPTY && s[hole].key != EMPTY
    && Dist(hole, cursor, |s|) < Dist(hole, spare, |s|)
    && (forall i, j :: 0 <= i < |s| && 0 <= j < |s| && i != j && i != hole && j != hole && s[i].key != EMPTY
                       ==> s[i].key != s[j].key)
    && (forall i :: 0 <= i < |s| && i != hole && s[i].key != EMPTY
                    ==> s[i].key != key && s[i].key in m && m[s[i].key] == s[i].value)
    && (forall k :: k in m ==> k != EMPTY && (k != key ==> exists i :: 0 <= i < |s| && i != hole && s[i].key == k))
    && (forall i, x {:trigger OnPath(hash, s, i, x)} | 0 <= i < |s| && 0 <= x < |s| ::
          i != hole && s[i].key != EMPTY && OnPath(hash, s, i, x) ==>
            s[x].key != EMPTY && (x == hole ==> Dist(hole, i, |s|) > Dist(hole, cursor, |s|)))
  }

  lemma ShiftStart(hash: Hash, s: seq<Slot>, m: map<uint64, uint32>, hole: nat, spare: nat)
    requires Layout(hash, s, m)
    requires hole < |s| && spare < |s| && s[spare].key == EMPTY && s[hole].key != EMPTY
    ensures Shifting(hash, s, m, s[hole].key, hole, hole, spare)
  {
    assert forall i :: 0 <= i < |s| && i != hole ==> Dist(hole, i, |s|) > 0;
    forall k | k in m && k != s[hole].key
      ensures exists i :: 0 <= i < |s| && i != hole && s[i].key == k
    {
      var i :| 0 <= i < |s| && s[i].key == k;
      assert i != hole;
    }
  }

  // The comparison of plain indices that decides, across wraparound, whether
  // the key at slot j, whose home is k, may move back to slot i.
  function CanMove(i: nat, j: nat, k: nat): bool {
    if j > i then k <= i || k > j else k <= i && k > j
  }

  lemma CanMoveIsOnPath(hash: Hash, s: seq<Slot>, i: nat, j: nat)
    requires i < |s| && j < |s| && i != j
    ensures CanMove(i, j, Home(hash, s[j].key, |s|)) <==> OnPath(hash, s, j, i)
  {
  }

  // The key at the next slot does not need the hole: step over it.
  lemma ShiftSkip(hash: Hash, s: seq<Slot>, m: map<uint64, uint32>, key: uint64, hole: int, cursor: int, spare: int)
    requires Shifting(hash, s, m, key, hole, cursor, spare)
    requires var j := Next(cursor, |s|); s[j].key != EMPTY && !OnPath(hash, s, j, hole)
    ensures Shifting(hash, s, m, key, hole, Next(cursor, |s|), spare)
    ensures Dist(Next(cursor, |s|), spare, |s|) < Dist(cursor, spare, |s|)
  {
    var j := Next(cursor, |s|);
    assert j != spare;
    assert Dist(hole, j, |s|) == Dist(hole, cursor, |s|) + 1;
    forall i | 0 <= i < |s| && i != hole && s[i].key != EMPTY && OnPath(hash, s, i, hole)
      ensures Dist(hole, i, |s|) > Dist(hole, j, |s|)
    {
      assert i != j;
    }
  }

  // The key at the next slot has the hole on its path: it moves into the hole.
  lemma ShiftMove(hash: Hash, s: seq<Slot>, m: map<uint64, uint32>, key: uint64, hole: int, cursor: int, spare: int)
    requires Shifting(hash, s, m, key, hole, cursor, spare)
    requires var j := Next(cursor, |s|); s[j].key != EMPTY && OnPath(hash, s, j, hole)
    ensures var j := Next(cursor, |s|);
            Shifting(hash, s[hole := s[j]], m, key, j, j, spare)
            && Dist(j, spare, |s|) < Dist(cursor, spare, |s|)
  {
    var j := Next(cursor, |s|);
    assert j != spare;
    assert Dist(hole, j, |s|) == Dist(hole, cursor, |s|) + 1;
    var t := s[hole := s[j]];
    assert forall i :: 0 <= i < |s| && i != j ==> Dist(j, i, |s|) > 0;
    MovedKeysStay(s, m, key, hole, j);
    MovedPathsStay(hash, s, m, key, hole, cursor, spare);
    hide OnPath, Home;
  }

  lemma MovedPathsStay(hash: Hash, s: seq<Slot>, m: map<uint64, uint32>, key: uint64,
                       hole: int, cursor: int, spare: int)
    requires Shifting(hash, s, m, key, hole, cursor, spare)
    requires var j := Next(cursor, |s|); s[j].key != EMPTY && OnPath(hash, s, j, hole)
    ensures var j, t := Next(cursor, |s|), s[hole := s[Next(cursor, |s|)]];
            forall i, x {:trigger OnPath(hash, t, i, x)} ::
              0 <= i < |t| && 0 <= x < |t| && i != j && t[i].key != EMPTY && OnPath(hash, t, i, x) ==> t[x].key != EMPTY
  {
    var j := Next(cursor, |s|);
    var t := s[hole := s[j]];
    forall i, x | 0 <= i < |t| && 0 <= x < |t| && i != j && t[i].key != EMPTY && OnPath(hash, t, i, x)
      ensures t[x].key != EMPTY
    {
      if i == hole {
        assert OnPath(hash, s, j, x);
      } else {
        assert OnPath(hash, s, i, x);
      }
    }
  }

  lemma MovedKeysStay(s: seq<Slot>, m: map<uint64, uint32>, key: uint64, hole: nat, j: nat)
    requires hole < |s| && j < |s| && hole != j
    requires forall k :: k in m && k != key ==> exists i :: 0 <= i < |s| && i != hole && s[i].key == k
    ensures var t := s[hole := s[j]];
            forall k :: k in m && k != key ==> exists i :: 0 <= i < |t| && i != j && t[i].key == k
  {
    var t := s[hole := s[j]];
    forall k | k in m && k != key
      ensures exists i :: 0 <= i < |t| && i != j && t[i].key == k
    {
      var i :| 0 <= i < |s| && i != hole && s[i].key == k;
      assert t[if i == j then hole else i].key == k;
    }
  }

  // The next slot is empty: emptying the hole leaves a layout without the key.
  lemma ShiftDone(hash: Hash, s: seq<Slot>, m: map<uint64, uint32>, key: uint64, hole: int, cursor: int, spare: int)
    requires Shifting(hash, s, m, key, hole, cursor, spare)
    requires s[Next(cursor, |s|)].key == EMPTY
    ensures Layout(hash, s[hole := Slot(EMPTY, s[hole].value)], m - {key})
  {
    var j := Next(cursor, |s|);
    var t := s[hole := Slot(EMPTY, s[hole].value)];
    assert Dist(hole, j, |s|) == Dist(hole, cursor, |s|) + 1;
    forall i, x | 0 <= i < |t| && 0 <= x < |t| && t[i].key != EMPTY && OnPath(hash, t, i, x)
      ensures t[x].key != EMPTY
    {
      assert OnPath(hash, s, i, x);
      assert x == hole ==> OnPath(hash, s, i, j);
    }
    forall k | k in m - {key}
      ensures k != EMPTY && exists i :: 0 <= i < |t| && t[i].key == k
    {
      var i :| 0 <= i < |s| && i != hole && s[i].key == k;
      assert t[i].key == k;
    }
  }

  // Erasing in general. The key that marks empty slots is "found" at an empty slot,
  // which serves as the hole and as the spare one; nothing needs to move into it.
  ghost predicate Erasing(hash: Hash, s: seq<Slot>, m: map<uint64, uint32>, key: uint64,
                          hole: int, cursor: int, spare: int)
  {
    if key == EMPTY
    then Layout(hash, s, m) && hole == spare && 0 <= hole < |s| && 0 <= cursor < |s| && s[hole].key == EMPTY
    else Shifting(hash, s, m, key, hole, cursor, spare)
  }

  // The slots still to be examined at most.
  ghost function Ahead(cursor: int, spare: int, cap: nat): (n: int)
    requires 0 <= cursor < cap && 0 <= spare < cap
    ensures 0 <= n <= cap
  {
    if cursor == spare then cap else Dist(cursor, spare, cap)
  }

  lemma ErasingInRange(hash: Hash, s: seq<Slot>, m: map<uint64, uint32>, key: uint64,
                       hole: int, cursor: int, spare: int)
    requires Erasing(hash, s, m, key, hole, cursor, spare)
    ensures 0 <= hole < |s| && 0 <= cursor < |s| && 0 <= spare < |s| && s[spare].key == EMPTY
  {
  }

  lemma ErasingNext(hash: Hash, s: seq<Slot>, m: map<uint64, uint32>, key: uint64, hole: int, cursor: int, spare: int)
    requires Erasing(hash, s, m, key, hole, cursor, spare)
    requires 0 <= cursor < |s| && s[Next(cursor, |s|)].key != EMPTY
    ensures Next(cursor, |s|) != hole
  {
    hide Layout, OnPath;
  }

  lemma EraseStart(hash: Hash, s: seq<Slot>, m: map<uint64, uint32>, key: uint64, hole: nat)
      returns (spare: nat)
    requires Layout(hash, s, m) && |m| < |s| && hole < |s| && s[hole].key == key
    ensures Erasing(hash, s, m, key, hole, hole, spare)
  {
    if key == EMPTY {
      spare := hole;
    } else {
      spare := SpareSlot(hash, s, m);
      ShiftStart(hash, s, m, hole, spare);
    }
  }

  lemma EraseSkip(hash: Hash, s: seq<Slot>, m: map<uint64, uint32>, key: uint64, hole: int, cursor: int, spare: int)
    requires Erasing(hash, s, m, key, hole, cursor, spare)
    requires 0 <= cursor < |s| && 0 <= hole < |s|
    requires var j := Next(cursor, |s|); s[j].key != EMPTY && !OnPath(hash, s, j, hole)
    ensures Erasing(hash, s, m, key, hole, Next(cursor, |s|), spare)
    ensures 0 <= spare < |s| && Ahead(Next(cursor, |s|), spare, |s|) < Ahead(cursor, spare, |s|)
  {
    hide Layout, OnPath;
    if key != EMPTY {
      ShiftSkip(hash, s, m, key, hole, cursor, spare);
    }
  }

  // A move happens only for a key that was stored.
  lemma EraseMove(hash: Hash, s: seq<Slot>, m: map<uint64, uint32>, key: uint64, hole: int, cursor: int, spare: int)
    requires Erasing(hash, s, m, key, hole, cursor, spare)
    requires 0 <= cursor < |s| && 0 <= hole < |s|
    requires var j := Next(cursor, |s|); s[j].key != EMPTY && OnPath(hash, s, j, hole)
    ensures key != EMPTY
    ensures var j := Next(cursor, |s|); Erasing(hash, s[hole := s[j]], m, key, j, j, spare)
    ensures 0 <= spare < |s| && Ahead(Next(cursor, |s|), spare, |s|) < Ahead(cursor, spare, |s|)
  {
    if key != EMPTY {
      ShiftMove(hash, s, m, key, hole, cursor, spare);
    }
  }

  lemma EraseDone(hash: Hash, s: seq<Slot>, m: map<uint64, uint32>, key: uint64, hole: int, cursor: int, spare: int)
    requires Erasing(hash, s, m, key, hole, cursor, spare)
    requires 0 <= cursor < |s| && 0 <= hole < |s| && s[Next(cursor, |s|)].key == EMPTY
    ensures Layout(hash, s[hole := Slot(EMPTY, s[hole].value)], m - {key})
    ensures key == EMPTY ==> s[hole := Slot(EMPTY, s[hole].value)] == s
  {
    if key == EMPTY {
      assert s[hole := Slot(EMPTY, s[hole].value)] == s;
      NoEmptyKey(hash, s, m);
      assert m - {key} == m;
    } else {
      ShiftDone(hash, s, m, key, hole, cursor, spare);
    }
  }

  lemma NoEmptyKey(hash: Hash, s: seq<Slot>, m: map<uint64, uint32>)
    requires Layout(hash, s, m)
    ensures EMPTY !in m
  {
  }

  // ---------- Deletion leaves no residue ----------

  // The keys whose home is one of the `len` slots that end at slot x.
  ghost function HomedIn(hash: Hash, keys: set<uint64>, cap: nat, x: nat, len: nat): set<uint64>
    requires x < cap
  {
    set k | k in keys && Dist(Home(hash, k, cap), x, cap) < len
  }

  // A stretch of `len` slots ending at x is the home of at least `len` keys.
  ghost predicate Crowded(hash: Hash, keys: set<uint64>, cap: nat, x: nat, len: nat)
    requires x < cap
  {
    1 <= len < cap && |HomedIn(hash, keys, cap, x, len)| >= len
  }

  ghost function Back(x: int, d: int, cap: nat): int {
    if d <= x then x - d else x - d + cap
  }

  // With an empty slot `len` steps back from x, a key d < len steps back from x
  // is homed after that empty slot.
  lemma HomedAfterEmpty(hash: Hash, s: seq<Slot>, x: nat, d: nat, len: nat)
    requires NoGaps(hash, s) && x < |s| && d < len < |s|
    requires s[Back(x, d, |s|)].key != EMPTY && s[Back(x, len, |s|)].key == EMPTY
    ensures Dist(Home(hash, s[Back(x, d, |s|)].key, |s|), x, |s|) < len
  {
    assert !OnPath(hash, s, Back(x, d, |s|), Back(x, len, |s|));
  }

  // Walking back from an occupied slot one meets an empty one; the slots
  // passed hold keys that are all homed among them.
  lemma OccupiedIsCrowded(hash: Hash, s: seq<Slot>, m: map<uint64, uint32>, x: nat) returns (len: nat)
    requires Layout(hash, s, m) && |m| < |s| && x < |s| && s[x].key != EMPTY
    ensures Crowded(hash, m.Keys, |s|, x, len)
  {
    len := OccupiedRun(hash, s, m, x);
    var keys := seq(len, d requires 0 <= d < len => s[Back(x, d, |s|)].key);
    forall d | 0 <= d < len
      ensures keys[d] in HomedIn(hash, m.Keys, |s|, x, len)
    {
      HomedAfterEmpty(hash, s, x, d, len);
    }
    AtLeast(HomedIn(hash, m.Keys, |s|, x, len), keys);
  }

  // How far back from an occupied slot the next empty one is.
  lemma OccupiedRun(hash: Hash, s: seq<Slot>, m: map<uint64, uint32>, x: nat) returns (len: nat)
    requires Layout(hash, s, m) && |m| < |s| && x < |s| && s[x].key != EMPTY
    ensures 1 <= len < |s| && s[Back(x, len, |s|)].key == EMPTY
    ensures forall d :: 0 <= d < len ==> s[Back(x, d, |s|)].key != EMPTY
  {
    hide NoGaps;
    var e := SpareSlot(hash, s, m);
    len := 1;
    while s[Back(x, len, |s|)].key != EMPTY
      invariant 1 <= len <= Dist(e, x, |s|)
      invariant forall d :: 0 <= d < len ==> s[Back(x, d, |s|)].key != EMPTY
      decreases |s| - len
    {
      len := len + 1;
    }
  }

  ghost function SlotOf(s: seq<Slot>, m: map<uint64, uint32>, k: uint64): (i: int)
    requires Stores(s, m) && k in m
    ensures 0 <= i < |s| && s[i].key == k
  {
    var i :| 0 <= i < |s| && s[i].key == k;
    i
  }

  // Keys homed in a stretch that ends at an empty slot all sit in its other slots.
  lemma EmptyIsNotCrowded(hash: Hash, s: seq<Slot>, m: map<uint64, uint32>, x: nat, len: nat)
    requires Layout(hash, s, m) && x < |s| && s[x].key == EMPTY
    ensures !Crowded(hash, m.Keys, |s|, x, len)
  {
    if 1 <= len < |s| {
      var keys := HomedIn(hash, m.Keys, |s|, x, len);
      var rank := map k | k in keys :: Dist(SlotOf(s, m, k), x, |s|) - 1;
      forall k | k in keys
        ensures 0 <= rank[k] < len - 1
      {
        SlotBeforeEmpty(hash, s, m, x, k);
      }
      forall a, b | a in keys && b in keys && a != b
        ensures rank[a] != rank[b]
      {
        assert SlotOf(s, m, a) != SlotOf(s, m, b);
      }
      AtMost(keys, rank, len - 1);
    }
  }

  // A key sits between its home and the next empty slot.
  lemma SlotBeforeEmpty(hash: Hash, s: seq<Slot>, m: map<uint64, uint32>, x: nat, k: uint64)
    requires Layout(hash, s, m) && x < |s| && s[x].key == EMPTY && k in m
    ensures 0 < Dist(SlotOf(s, m, k), x, |s|) <= Dist(Home(hash, k, |s|), x, |s|)
  {
    var p, h := SlotOf(s, m, k), Home(hash, k, |s|);
    assert !OnPath(hash, s, p, x);
  }

  // Which slots are occupied is a function of the stored keys alone.
  lemma OccupiedIffCrowded(hash: Hash, s: seq<Slot>, m: map<uint64, uint32>, x: nat)
    requires Layout(hash, s, m) && |m| < |s| && x < |s|
    ensures s[x].key != EMPTY <==> exists len: nat :: Crowded(hash, m.Keys, |s|, x, len)
  {
    if s[x].key != EMPTY {
      var len := OccupiedIsCrowded(hash, s, m, x);
    } else {
      forall len: nat
        ensures !Crowded(hash, m.Keys, |s|, x, len)
      {
        EmptyIsNotCrowded(hash, s, m, x, len);
      }
    }
  }

  // Two layouts of the same keys occupy the same slots, whatever inserts and
  // erases led to them.
  lemma SameKeysSameSlots(hash: Hash, s: seq<Slot>, m: map<uint64, uint32>, t: seq<Slot>, n: map<uint64, uint32>)
    requires Layout(hash, s, m) && Layout(hash, t, n)
    requires |s| == |t| && m.Keys == n.Keys && |m| < |s|
    ensures forall x :: 0 <= x < |s| ==> (s[x].key != EMPTY <==> t[x].key != EMPTY)
  {
    assert |m| == |m.Keys| == |n|;
    forall x | 0 <= x < |s|
      ensures s[x].key != EMPTY <==> t[x].key != EMPTY
    {
      OccupiedIffCrowded(hash, s, m, x);
      OccupiedIffCrowded(hash, t, n, x);
    }
  }
}
