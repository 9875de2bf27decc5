/** The preallocated pool of order slots: live orders are named by index, free
    slots are chained through `next`. */
module OrderPools {
  import opened Numbers

  datatype PooledOrder = PooledOrder(next: uint32, prev: uint32, qty: uint32, level: uint32)

  // What a slot is in use for. The program does not store this: the owner is
  // the book that linked the order, the reference is the table's key for it.
  datatype Tag = Tag(book: object, ref: uint64)

  // The neighbours of position i in a chain of slot indices.
  ghost function Successor(q: seq<int>, i: int): int
    requires 0 <= i < |q|
  {
    if i + 1 < |q| then q[i + 1] else NULL_IDX
  }

  ghost function Predecessor(q: seq<int>, i: int): int
    requires 0 <= i < |q|
  {
    if i > 0 then q[i - 1] else NULL_IDX
  }

  ghost predicate InRange(s: seq<PooledOrder>, q: seq<int>) {
    forall i :: 0 <= i < |q| ==> 0 <= q[i] < |s|
  }

  ghost predicate NoRepeats(q: seq<int>) {
    forall i, j :: 0 <= i < j < |q| ==> q[i] != q[j]
  }

  // `free` lists, in order, the slots reached from the head along `next`.
  ghost predicate FreeChain(s: seq<PooledOrder>, head: uint32, free: seq<int>) {
    && head == (if free == [] then NULL_IDX else free[0])
    && InRange(s, free) && NoRepeats(free)
    && (forall i {:trigger s[free[i]]} :: 0 <= i < |free| ==> s[free[i]].next == Successor(free, i))
  }

  // Every slot is either free or live, never both.
  ghost predicate Partition(n: nat, free: seq<int>, live: map<int, Tag>) {
    && (forall i :: i in live ==> 0 <= i < n)
    && (forall i :: 0 <= i < n ==> (i in live <==> i !in free))
  }

  class OrderPool {
    const slots: array<PooledOrder>
    var freeHead: uint32
    ghost var free: seq<int>
    ghost var live: map<int, Tag>

    ghost predicate Valid()
      reads this, slots
    {
      && 1 <= slots.Length <= NULL_IDX
      && FreeChain(slots[..], freeHead, free)
      && Partition(slots.Length, free, live)
    }

    constructor (capacity: nat)
      requires 1 <= capacity <= NULL_IDX
      ensures Valid() && fresh(slots)
      ensures slots.Length == capacity && live == map[] && free == seq(capacity, k => k)
    {
      slots := new PooledOrder[capacity](_ => PooledOrder(0, 0, 0, 0));
      freeHead := 0;
      new;
      var i := 0;
      while i + 1 < capacity
        invariant 0 <= i < capacity == slots.Length
        invariant forall k :: 0 <= k < i ==> slots[k].next == k + 1
        invariant fresh(slots) && freeHead == 0
      {
        slots[i] := slots[i].(next := i + 1);
        i := i + 1;
      }
      slots[capacity - 1] := slots[capacity - 1].(next := NULL_IDX);
      free := seq(capacity, k => k);
      live := map[];
      forall k | 0 <= k < capacity
        ensures free[k] == k && k in free
      {
        assert free[k] == k;
      }
      assert forall k :: 0 <= k < capacity ==> slots[..][k] == slots[k];
    }

    method Allocate(ghost tag: Tag) returns (idx: uint32)
      requires Valid()
      modifies this
      ensures Valid()
      ensures old(free) == [] ==> idx == 0xFFFF_FFFF && free == [] && live == old(live)
      ensures old(free) != [] ==> idx == old(free)[0] && free == old(free)[1..]
      ensures old(free) != [] ==> idx !in old(live) && 0 <= idx < slots.Length && live == old(live)[idx := tag]
    {
      if freeHead == NULL_IDX {
        return NULL_IDX;
      }
      idx := freeHead;
      PopChain(slots[..], freeHead, free, live);
      freeHead := slots[idx].next;
      free := free[1..];
      live := live[idx := tag];
    }

    method Release(idx: uint32)
      requires Valid() && idx in live
      modifies this, slots
      ensures Valid()
      ensures free == [idx as int] + old(free) && live == old(live) - {idx as int}
      ensures slots[..] == old(slots[..])[idx := old(slots[idx]).(next := old(freeHead))]
    {
      PushChain(slots[..], freeHead, free, idx);
      ghost var s := slots[..];
      slots[idx] := slots[idx].(next := freeHead);
      assert slots[..] == s[idx := s[idx].(next := freeHead)];
      freeHead := idx;
      free := [idx as int] + free;
      live := live - {idx as int};
    }
  }

  lemma PopChain(s: seq<PooledOrder>, head: uint32, free: seq<int>, live: map<int, Tag>)
    requires |s| <= NULL_IDX && FreeChain(s, head, free) && Partition(|s|, free, live) && head != NULL_IDX
    ensures 0 <= head < |s| && free != [] && head == free[0] && head !in live && FreeChain(s, s[head].next, free[1..])
    ensures forall i :: i in free[1..] <==> i in free && i != head
  {
    assert free == [free[0]] + free[1..];
    assert free[0] in free;
    var rest := free[1..];
    assert rest == [] || rest[0] == free[1];
    forall i | 0 <= i < |rest|
      ensures 0 <= rest[i] < |s| && s[rest[i]].next == Successor(rest, i)
    {
      assert rest[i] == free[i + 1] && (i + 1 < |rest| ==> rest[i + 1] == free[i + 2]);
    }
  }

  lemma PushChain(s: seq<PooledOrder>, head: uint32, free: seq<int>, idx: uint32)
    requires FreeChain(s, head, free) && 0 <= idx < |s| && idx as int !in free
    ensures FreeChain(s[idx := s[idx].(next := head)], idx, [idx as int] + free)
  {
    hide NoRepeats;
    var t, f := s[idx := s[idx].(next := head)], [idx as int] + free;
    forall i | 0 <= i < |f|
      ensures 0 <= f[i] < |t| && t[f[i]].next == Successor(f, i)
    {
      if i > 0 {
        assert f[i] == free[i - 1] && free[i - 1] in free;
        assert t[f[i]] == s[free[i - 1]] && Successor(f, i) == Successor(free, i - 1);
      }
    }
    PushedIsNew(free, idx as int);
  }

  lemma PushedIsNew(free: seq<int>, idx: int)
    requires NoRepeats(free) && idx !in free
    ensures NoRepeats([idx] + free)
  {
    var f := [idx] + free;
    forall i, j | 0 <= i < j < |f|
      ensures f[i] != f[j]
    {
      assert f[j] == free[j - 1] && free[j - 1] in free && (i > 0 ==> f[i] == free[i - 1]);
    }
  }

  // Writing only live slots keeps the free chain.
  lemma FreeChainFrame(s: seq<PooledOrder>, t: seq<PooledOrder>, head: uint32, free: seq<int>)
    requires FreeChain(s, head, free) && |t| == |s|
    requires forall i :: 0 <= i < |s| && i in free ==> t[i] == s[i]
    ensures FreeChain(t, head, free)
  {
    assert forall i :: 0 <= i < |free| ==> free[i] in free;
  }
}
