/** Sorting finite sets by a total order. */
module Ordering {

  ghost predicate TotalOrder<T(!new)>(le: (T, T) -> bool)
  {
    && (forall a, b :: le(a, b) || le(b, a))
    && (forall a, b :: le(a, b) && le(b, a) ==> a == b)
    && (forall a, b, c :: le(a, b) && le(b, c) ==> le(a, c))
  }

  predicate Least<T>(le: (T, T) -> bool, x: T, s: set<T>)
  {
    x in s && forall y :: y in s ==> le(x, y)
  }

  lemma {:induction false} LeastExists<T(!new)>(le: (T, T) -> bool, s: set<T>) returns (x: T)
    requires TotalOrder(le) && s != {}
    ensures Least(le, x, s)
  {
    var m :| m in s;
    if s == {m} {
      x := m;
    } else {
      var k := LeastExists(le, s - {m});
      x := if le(m, k) then m else k;
      assert forall y :: y in s ==> y == m || y in s - {m};
    }
  }

  ghost function Sorted<T(!new)>(le: (T, T) -> bool, s: set<T>): (sorted: seq<T>)
    requires TotalOrder(le)
    ensures forall x :: x in sorted <==> x in s
    decreases |s|
  {
    if s == {} then []
    else
      assert exists x :: Least(le, x, s) by { var x := LeastExists(le, s); }
      var x :| Least(le, x, s);
      [x] + Sorted(le, s - {x})
  }

  lemma SortedFirst<T(!new)>(le: (T, T) -> bool, s: set<T>, x: T)
    requires TotalOrder(le) && Least(le, x, s)
    ensures Sorted(le, s) == [x] + Sorted(le, s - {x})
  {
    assert Least(le, Sorted(le, s)[0], s);
  }

  lemma {:induction false} SortedDistinct<T(!new)>(le: (T, T) -> bool, s: set<T>)
    requires TotalOrder(le)
    ensures |Sorted(le, s)| == |s|
    ensures forall i, j :: 0 <= i < j < |s| ==> Sorted(le, s)[i] != Sorted(le, s)[j] && le(Sorted(le, s)[i], Sorted(le, s)[j])
    decreases |s|
  {
    if s != {} {
      var x := LeastExists(le, s);
      SortedFirst(le, s, x);
      SortedDistinct(le, s - {x});
      var rest := Sorted(le, s - {x});
      forall i, j | 0 <= i < j < |s|
        ensures Sorted(le, s)[i] != Sorted(le, s)[j] && le(Sorted(le, s)[i], Sorted(le, s)[j])
      {
        assert rest[j - 1] in rest;
        if i > 0 { assert Sorted(le, s)[i] == rest[i - 1]; }
      }
    }
  }

  /** Selection of the least remaining element, over and over. */
  method Sort<T(!new, ==)>(le: (T, T) -> bool, s: set<T>) returns (sorted: seq<T>)
    requires TotalOrder(le)
    ensures sorted == Sorted(le, s)
  {
    sorted := [];
    var remaining := s;
    while remaining != {}
      invariant sorted + Sorted(le, remaining) == Sorted(le, s)
      decreases |remaining|
    {
      ghost var least := LeastExists(le, remaining);
      var x :| x in remaining && forall y :: y in remaining ==> le(x, y);
      SortedFirst(le, remaining, x);
      sorted := sorted + [x];
      remaining := remaining - {x};
    }
  }
}
