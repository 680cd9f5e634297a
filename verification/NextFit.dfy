/** Next fit over a set of addresses: from a starting point on in order, then around once. */
module NextFit {
  import opened Wrappers
  import opened SortedSets

  function AheadOf(all: set<int>, order: Order, start: int): set<int> {
    set x | x in all && Precedes(order, start, x)
  }

  /** The nearest address from the start on, else the nearest from the other end; None when
      there is none. */
  ghost predicate IsNextFit(all: set<int>, order: Order, start: int, choice: Option<int>) {
    if choice.None? then all == {}
    else if AheadOf(all, order, start) != {} then IsFirst(AheadOf(all, order, start), order, choice.value)
    else IsFirst(all, order, choice.value)
  }

  /** The addresses from the start on in order, then those behind it in order. */
  function Rotation(all: set<int>, order: Order, start: int): seq<int> {
    var ahead := AheadOf(all, order, start);
    Sorted(ahead, order) + Sorted(all - ahead, order)
  }

  lemma {:induction false} HeadFirst(a: set<int>, b: set<int>, order: Order, x: int)
    requires IsFirst(a, order, x)
    ensures Sorted(a, order) + Sorted(b, order) == [x] + (Sorted(a - {x}, order) + Sorted(b, order))
  {
    SortedHead(a, order, x);
    assert Sorted(a, order) == [x] + Sorted(a - {x}, order);
  }

  lemma AheadOfHead(all: set<int>, order: Order, start: int, x: int)
    requires IsFirst(AheadOf(all, order, start), order, x)
    ensures AheadOf(all - {x}, order, x) == AheadOf(all, order, start) - {x}
    ensures (all - {x}) - (AheadOf(all, order, start) - {x}) == all - AheadOf(all, order, start)
  {
  }

  lemma NothingAhead(all: set<int>, order: Order, start: int, x: int)
    requires AheadOf(all, order, start) == {} && IsFirst(all, order, x)
    ensures AheadOf(all - {x}, order, x) == all - {x}
    ensures (all - {x}) - (all - {x}) == {} && all - AheadOf(all, order, start) == all
  {
  }

  lemma {:induction false} HeadAhead(all: set<int>, order: Order, start: int, x: int)
    requires IsFirst(AheadOf(all, order, start), order, x)
    ensures Rotation(all, order, start) == [x] + Rotation(all - {x}, order, x)
  {
    AheadOfHead(all, order, start, x);
    HeadFirst(AheadOf(all, order, start), all - AheadOf(all, order, start), order, x);
  }

  lemma {:induction false} HeadAround(all: set<int>, order: Order, start: int, x: int)
    requires AheadOf(all, order, start) == {} && IsFirst(all, order, x)
    ensures Rotation(all, order, start) == [x] + Rotation(all - {x}, order, x)
  {
    NothingAhead(all, order, start, x);
    HeadFirst(all, {}, order, x);
    assert Sorted({}, order) == [];
  }

  /** The next fit is the head of the rotation, and the rest of it is the rotation from there. */
  lemma {:induction false} NextFitIsHead(all: set<int>, order: Order, start: int, x: int)
    requires IsNextFit(all, order, start, Some(x))
    ensures x in all && Rotation(all, order, start) == [x] + Rotation(all - {x}, order, x)
  {
    if AheadOf(all, order, start) != {} {
      HeadAhead(all, order, start, x);
    } else {
      HeadAround(all, order, start, x);
    }
  }

  lemma Split(all: set<int>, some: set<int>)
    requires some <= all
    ensures |some| + |all - some| == |all|
  {
    assert all == some + (all - some);
  }

  /** The rotation lists every address, each once. */
  lemma {:induction false} RotationListsAll(all: set<int>, order: Order, start: int)
    ensures forall x :: x in Rotation(all, order, start) <==> x in all
    ensures |Rotation(all, order, start)| == |all|
    ensures forall i, j :: 0 <= i < j < |all| ==> Rotation(all, order, start)[i] != Rotation(all, order, start)[j]
  {
    var ahead := AheadOf(all, order, start);
    SortedEnumerates(ahead, order);
    SortedEnumerates(all - ahead, order);
    Split(all, ahead);
    var a, b := Sorted(ahead, order), Sorted(all - ahead, order);
    forall i, j | 0 <= i < |a| && 0 <= j < |b| ensures a[i] != b[j] {
      assert a[i] in a && b[j] in b;
    }
  }

  /** Ahead of the start comes before behind it; on the same side the order decides. */
  predicate Before(order: Order, start: int, x: int, y: int) {
    if Precedes(order, start, x) == Precedes(order, start, y) then Precedes(order, x, y) else Precedes(order, start, x)
  }

  lemma {:induction false} RotationOrdered(all: set<int>, order: Order, start: int)
    ensures var r := Rotation(all, order, start);
            forall i, j :: 0 <= i < j < |r| ==> Before(order, start, r[i], r[j])
  {
    var ahead := AheadOf(all, order, start);
    var a, b := Sorted(ahead, order), Sorted(all - ahead, order);
    SortedEnumerates(ahead, order);
    SortedEnumerates(all - ahead, order);
    var r := a + b;
    forall i, j | 0 <= i < j < |r| ensures Before(order, start, r[i], r[j]) {
      assert if i < |a| then a[i] in a else b[i - |a|] in b;
      assert if j < |a| then a[j] in a else b[j - |a|] in b;
    }
  }
}
