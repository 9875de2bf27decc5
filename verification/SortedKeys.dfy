/** The key queries of an ordered map: first, last, and nearest at or below. */
module SortedKeys {
  import opened Numbers

  ghost predicate IsLeast(s: set<int>, x: int) {
    x in s && forall y :: y in s ==> x <= y
  }

  ghost predicate IsGreatest(s: set<int>, x: int) {
    x in s && forall y :: y in s ==> y <= x
  }

  // The greatest member of s that is at most `bound`, if there is one.
  ghost predicate IsFloor(s: set<int>, bound: int, r: Option<int>) {
    match r
    case None => forall y :: y in s ==> y > bound
    case Some(x) => x in s && x <= bound && forall y :: y in s && y <= bound ==> y <= x
  }

  lemma SomeMember(s: set<int>)
    requires s != {}
    ensures exists x :: x in s
  {
    assert (forall x :: x !in s) ==> s == {};
  }

  lemma {:induction false} GreatestExists(s: set<int>) returns (x: int)
    requires s != {}
    ensures IsGreatest(s, x)
  {
    SomeMember(s);
    x :| x in s;
    if s != {x} {
      var rest := s - {x};
      var y := GreatestExists(rest);
      assert forall z :: z in s ==> z == x || z in rest;
      x := if y > x then y else x;
    }
  }

  lemma {:induction false} LeastExists(s: set<int>) returns (x: int)
    requires s != {}
    ensures IsLeast(s, x)
  {
    SomeMember(s);
    x :| x in s;
    if s != {x} {
      var rest := s - {x};
      var y := LeastExists(rest);
      assert forall z :: z in s ==> z == x || z in rest;
      x := if y < x then y else x;
    }
  }

  method Least(s: set<int>) returns (x: int)
    requires s != {}
    ensures IsLeast(s, x)
  {
    SomeMember(s);
    x :| x in s;
    var rest := s - {x};
    while rest != {}
      invariant rest <= s && x in s
      invariant forall y :: y in s && y !in rest ==> x <= y
      decreases rest
    {
      SomeMember(rest);
      var y :| y in rest;
      if y < x {
        x := y;
      }
      rest := rest - {y};
    }
  }

  method Greatest(s: set<int>) returns (x: int)
    requires s != {}
    ensures IsGreatest(s, x)
  {
    SomeMember(s);
    x :| x in s;
    var rest := s - {x};
    while rest != {}
      invariant rest <= s && x in s
      invariant forall y :: y in s && y !in rest ==> y <= x
      decreases rest
    {
      SomeMember(rest);
      var y :| y in rest;
      if y > x {
        x := y;
      }
      rest := rest - {y};
    }
  }

  method Floor(s: set<int>, bound: int) returns (r: Option<int>)
    ensures IsFloor(s, bound, r)
  {
    var below := set x | x in s && x <= bound;
    if below == {} {
      assert forall y :: y in s && y <= bound ==> y in below;
      return None;
    }
    var x := Greatest(below);
    assert forall y :: y in s && y <= bound ==> y in below;
    return Some(x);
  }

  lemma FloorIsUnique(s: set<int>, bound: int, a: Option<int>, b: Option<int>)
    requires IsFloor(s, bound, a) && IsFloor(s, bound, b)
    ensures a == b
  {
  }
}
