/** Counting arguments over finite sets: pigeonhole facts in both directions. */
module Counting {
  // Members with distinct labels below n number at most n.
  lemma {:induction false} AtMost<T>(s: set<T>, rank: map<T, nat>, n: nat)
    requires forall a :: a in s ==> a in rank && rank[a] < n
    requires forall a, b :: a in s && b in s && a != b ==> rank[a] != rank[b]
    ensures |s| <= n
    decreases n
  {
    if n == 0 {
      assert forall a :: a !in s;
    } else if exists a :: a in s && rank[a] == n - 1 {
      var a :| a in s && rank[a] == n - 1;
      AtMost(s - {a}, rank, n - 1);
    } else {
      AtMost(s, rank, n - 1);
    }
  }

  // A set that holds a sequence of distinct elements is at least as large.
  lemma {:induction false} AtLeast<T>(s: set<T>, xs: seq<T>)
    requires forall i :: 0 <= i < |xs| ==> xs[i] in s
    requires forall i, j :: 0 <= i < j < |xs| ==> xs[i] != xs[j]
    ensures |s| >= |xs|
    decreases |xs|
  {
    if xs != [] {
      var last := xs[|xs| - 1];
      AtLeast(s - {last}, xs[..|xs| - 1]);
    }
  }

  // A subset has no more members.
  lemma {:induction false} Smaller<T>(a: set<T>, b: set<T>)
    requires a <= b
    ensures |a| <= |b|
  {
    if a != {} {
      var x :| x in a;
      Smaller(a - {x}, b - {x});
    }
  }
}
