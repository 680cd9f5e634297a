/** Sorted enumeration of a set of integers: what a query returns under ORDER BY. */
module SortedSets {

  datatype Order = Asc | Desc

  predicate Precedes(order: Order, x: int, y: int) {
    if order.Asc? then x <= y else y <= x
  }

  predicate IsFirst(s: set<int>, order: Order, m: int) {
    m in s && forall x :: x in s ==> Precedes(order, m, x)
  }

  lemma HasMember(s: set<int>)
    ensures s == {} || exists y :: y in s
  {
    if forall y :: y !in s {
      assert s == {};
    }
  }

  lemma {:induction false} FirstExists(s: set<int>, order: Order)
    requires s != {}
    ensures exists m :: IsFirst(s, order, m)
    decreases |s|
  {
    HasMember(s);
    var y :| y in s;
    var rest := s - {y};
    if rest == {} {
      assert s == {y};
      assert IsFirst(s, order, y);
    } else {
      FirstExists(rest, order);
      var m :| IsFirst(rest, order, m);
      assert forall x :: x in s ==> x == y || x in rest;
      assert IsFirst(s, order, if Precedes(order, y, m) then y else m);
    }
  }

  function First(s: set<int>, order: Order): (m: int)
    requires s != {}
    ensures IsFirst(s, order, m)
  {
    FirstExists(s, order);
    var m :| IsFirst(s, order, m);
    m
  }

  /** ORDER BY ... ASC / DESC over distinct values. */
  function Sorted(s: set<int>, order: Order): (r: seq<int>)
    ensures |r| == |s|
    decreases |s|
  {
    if s == {} then []
    else
      var m := First(s, order);
      [m] + Sorted(s - {m}, order)
  }

  lemma {:induction false} SortedHead(s: set<int>, order: Order, m: int)
    requires IsFirst(s, order, m)
    ensures |Sorted(s, order)| >= 1 && Sorted(s, order)[0] == m
    ensures Sorted(s, order)[1..] == Sorted(s - {m}, order)
  {
    assert First(s, order) == m;
  }

  ghost predicate StrictlyOrdered(r: seq<int>, order: Order) {
    forall i, j :: 0 <= i < j < |r| ==> r[i] != r[j] && Precedes(order, r[i], r[j])
  }

  /** The enumeration lists exactly the set, each member once, in the order asked for. */
  lemma {:induction false} SortedEnumerates(s: set<int>, order: Order)
    ensures forall x :: x in Sorted(s, order) <==> x in s
    ensures StrictlyOrdered(Sorted(s, order), order)
    decreases |s|
  {
    if s != {} {
      var m := First(s, order);
      SortedEnumerates(s - {m}, order);
      var r := Sorted(s - {m}, order);
      var all := Sorted(s, order);
      assert all == [m] + r;
      forall i, j | 0 <= i < j < |all|
        ensures all[i] != all[j] && Precedes(order, all[i], all[j])
      {
        assert all[j] == r[j - 1] && r[j - 1] in r;
        assert i > 0 ==> all[i] == r[i - 1];
      }
    }
  }
}
