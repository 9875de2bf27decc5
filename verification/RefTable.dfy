/** The flat table from order reference to pool index: linear probing over a
    power-of-two array, at most half full, erasing by shifting entries back. */
module RefTables {
  import opened Numbers
  import opened RefLayout

  class RefTable {
    const hash: Hash
    const slots: array<Slot>
    const mask: nat
    var size: nat
    ghost const logCapacity: nat
    ghost var Contents: map<uint64, uint32>

    ghost predicate Valid()
      reads this, slots
    {
      && logCapacity >= 1
      && slots.Length == Pow2(logCapacity) <= U64 / 2
      && mask == slots.Length - 1
      && size == |Contents|
      && 2 * size <= slots.Length
      && EMPTY !in Contents
      && Layout(hash, slots[..], Contents)
    }

    constructor (hash: Hash, capacity: nat, ghost log: nat)
      requires log >= 1 && capacity == Pow2(log) <= U64 / 2
      ensures Valid() && fresh(slots)
      ensures Contents == map[] && slots.Length == capacity && this.hash == hash
    {
      this.hash := hash;
      slots := new Slot[capacity](_ => Slot(EMPTY, 0));
      mask := capacity - 1;
      size := 0;
      logCapacity := log;
      Contents := map[];
    }

    // The slot that holds the key, or else the empty slot where a probe for it stops.
    method Probe(key: uint64) returns (i: nat)
      requires Valid()
      ensures i < slots.Length
      ensures slots[i].key == if key in Contents then key else EMPTY
      ensures var h := Home(hash, key, slots.Length);
              forall x :: 0 <= x < slots.Length && Dist(h, x, slots.Length) < Dist(h, i, slots.Length)
                          ==> slots[x].key != EMPTY && slots[x].key != key
    {
      hide BitAnd, Pow2, Layout;
      ghost var h := Home(hash, key, slots.Length);
      ghost var spare := SpareSlot(hash, slots[..], Contents);
      MaskedIndex(hash(key), mask, logCapacity);
      i := BitAnd(hash(key), mask);
      while slots[i].key != EMPTY && slots[i].key != key
        invariant i < slots.Length
        invariant Dist(h, i, slots.Length) <= Dist(h, spare, slots.Length)
        invariant forall x :: 0 <= x < slots.Length && Dist(h, x, slots.Length) < Dist(h, i, slots.Length)
                              ==> slots[x].key != EMPTY && slots[x].key != key
        decreases Dist(i, spare, slots.Length)
      {
        i := Step(i);
      }
      if slots[i].key == key != EMPTY {
        HitMeansStored(hash, slots[..], Contents, i);
      } else if key != EMPTY {
        EmptyStopMeansAbsent(hash, slots[..], Contents, key, i);
      }
    }

    // The cyclic successor of a slot, computed with the mask.
    method Step(i: nat) returns (j: nat)
      requires i <= mask && mask + 1 == Pow2(logCapacity)
      ensures j == Next(i, mask + 1)
    {
      MaskedSuccessor(i, mask, logCapacity);
      j := BitAnd(i + 1, mask);
    }

    method Insert(key: uint64, value: uint32)
      requires Valid()
      modifies this`size, this`Contents, slots
      // Inserting the key that marks empty slots counts an entry that is not there.
      ensures Valid() <==> key < U64 - 1 || 2 * old(size) >= slots.Length
      ensures Contents ==
              if key == U64 - 1 || 2 * old(size) >= slots.Length then old(Contents) else old(Contents)[key := value]
      ensures 2 * old(size) >= slots.Length ==> slots[..] == old(slots[..])
    {
      hide Layout, Pow2, Home, Dist;
      PowerIsEven(logCapacity);
      if size * 2 >= slots.Length {
        return;
      }
      var i := Probe(key);
      ghost var s, m := slots[..], Contents;
      if slots[i].key == EMPTY {
        slots[i] := Slot(key, slots[i].value);
        size := size + 1;
      }
      slots[i] := Slot(slots[i].key, value);
      if key != EMPTY {
        Contents := Contents[key := value];
        assert slots[..] == s[i := Slot(key, value)];
        InsertLayout(hash, s, m, key, value, i);
      }
    }

    method Find(key: uint64) returns (value: uint32)
      requires Valid()
      ensures key < U64 - 1 ==> value == if key in Contents then Contents[key] else 0xFFFF_FFFF
      // The key that marks empty slots finds what one of them still holds.
      ensures key == U64 - 1 ==> exists i :: 0 <= i < slots.Length && slots[i] == Slot(key, value)
    {
      var i := Probe(key);
      assert slots[..][i] == slots[i];
      value := if slots[i].key == key then slots[i].value else NULL_IDX;
    }

    method Erase(key: uint64)
      requires Valid()
      modifies this`size, this`Contents, slots
      // Erasing the key that marks empty slots uncounts an entry that is still there.
      ensures Valid() <==> key < U64 - 1
      ensures Contents == old(Contents) - {key}
      ensures key !in old(Contents) ==> slots[..] == old(slots[..])
      ensures key == U64 - 1 ==> size == if old(size) == 0 then U64 - 1 else old(size) - 1
    {
      hide Pow2, Erasing, Home, Dist, Layout;
      var i := Probe(key);
      if slots[i].key != key {
        return;
      }
      ghost var spare := EraseStart(hash, slots[..], Contents, key, i);
      var hole := ShiftBack(key, i, spare);
      ghost var s := slots[..];
      slots[hole] := Slot(EMPTY, slots[hole].value);
      assert slots[..] == s[hole := Slot(EMPTY, s[hole].value)];
      size := if size == 0 then U64 - 1 else size - 1;
      Contents := Contents - {key};
    }

    // Moves later entries back until an empty slot ends the run; returns the
    // slot that is left to be emptied.
    method ShiftBack(key: uint64, start: nat, ghost spare: nat) returns (i: nat)
      requires slots.Length == mask + 1 == Pow2(logCapacity)
      requires Erasing(hash, slots[..], Contents, key, start, start, spare)
      modifies slots
      ensures i < slots.Length
      ensures Layout(hash, slots[..][i := Slot(EMPTY, slots[i].value)], Contents - {key})
      ensures key == EMPTY ==> slots[..][i := Slot(EMPTY, slots[i].value)] == old(slots[..])
    {
      hide Layout, BitAnd, Pow2, Erasing, Dist, Ahead;
      ErasingInRange(hash, slots[..], Contents, key, start, start, spare);
      i := start;
      var j := i;
      while true
        invariant i < slots.Length && 0 <= j < slots.Length && spare < slots.Length
        invariant Erasing(hash, slots[..], Contents, key, i, j, spare)
        invariant key == EMPTY ==> slots[..] == old(slots[..])
        decreases Ahead(j, spare, slots.Length)
      {
        ghost var s, hole, cursor := slots[..], i, j;
        j := Step(j);
        if slots[j].key == EMPTY {
          EraseDone(hash, s, Contents, key, hole, cursor, spare);
          return;
        }
        ErasingNext(hash, s, Contents, key, hole, cursor, spare);
        MaskedIndex(hash(slots[j].key), mask, logCapacity);
        var k := BitAnd(hash(slots[j].key), mask);
        CanMoveIsOnPath(hash, s, i, j);
        if CanMove(i, j, k) {
          EraseMove(hash, s, Contents, key, hole, cursor, spare);
          slots[i] := slots[j];
          assert slots[..] == s[hole := s[j]];
          i := j;
        } else {
          EraseSkip(hash, s, Contents, key, hole, cursor, spare);
        }
      }
    }
  }

  lemma HitMeansStored(hash: Hash, s: seq<Slot>, m: map<uint64, uint32>, i: nat)
    requires Layout(hash, s, m) && i < |s| && s[i].key != EMPTY
    ensures s[i].key in m
  {
  }

  // A probe that stops at an empty slot has met every slot the key could be in.
  lemma EmptyStopMeansAbsent(hash: Hash, s: seq<Slot>, m: map<uint64, uint32>, key: uint64, i: nat)
    requires Layout(hash, s, m) && key != EMPTY && i < |s| && s[i].key == EMPTY
    requires var h := Home(hash, key, |s|);
             forall x {:trigger s[x]} :: 0 <= x < |s| && Dist(h, x, |s|) < Dist(h, i, |s|) ==> s[x].key != key
    ensures key !in m
  {
    forall p | 0 <= p < |s|
      ensures s[p].key != key
    {
      assert s[p].key == key ==> OnPath(hash, s, p, i);
    }
  }

  // Storing a key at the slot where its probe stopped keeps the layout.
  lemma InsertLayout(hash: Hash, s: seq<Slot>, m: map<uint64, uint32>, key: uint64, value: uint32, i: nat)
    requires Layout(hash, s, m) && key != EMPTY && i < |s|
    requires s[i].key == if key in m then key else EMPTY
    requires var h := Home(hash, key, |s|);
             forall x {:trigger s[x]} :: 0 <= x < |s| && Dist(h, x, |s|) < Dist(h, i, |s|) ==> s[x].key != EMPTY
    ensures Layout(hash, s[i := Slot(key, value)], m[key := value])
  {
    var t := s[i := Slot(key, value)];
    forall a, x | 0 <= a < |t| && 0 <= x < |t| && t[a].key != EMPTY && OnPath(hash, t, a, x)
      ensures t[x].key != EMPTY
    {
      if a != i {
        assert OnPath(hash, s, a, x);
      }
    }
    var n := m[key := value];
    forall k | k in n
      ensures exists a :: 0 <= a < |t| && t[a].key == k
    {
      if k == key {
        assert t[i].key == k;
      } else {
        var a :| 0 <= a < |s| && s[a].key == k;
        assert t[a].key == k;
      }
    }
  }

  // Deletion leaves no residue: two tables of one capacity that hold the same
  // keys occupy the same slots, whatever histories led to them.
  lemma NoResidue(a: RefTable, b: RefTable)
    requires a.Valid() && b.Valid()
    requires a.hash == b.hash && a.slots.Length == b.slots.Length && a.Contents.Keys == b.Contents.Keys
    ensures forall x :: 0 <= x < a.slots.Length ==> (a.slots[x].key != EMPTY <==> b.slots[x].key != EMPTY)
  {
    SameKeysSameSlots(a.hash, a.slots[..], a.Contents, b.slots[..], b.Contents);
    assert forall x :: 0 <= x < a.slots.Length ==> a.slots[..][x] == a.slots[x] && b.slots[..][x] == b.slots[x];
  }
}
