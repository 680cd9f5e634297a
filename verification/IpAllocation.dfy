/** How a DHCP range finds an unleased address: a self-join keeps only the ends of the
    leased runs, and at most two of those rows are looked at. */
module IpAllocation {
  import opened SortedSets
  import opened Wrappers

  /** A row of the self-join; `prev` and `follow` are NULL at the ends of a run. */
  datatype BoundaryRow = BoundaryRow(ipv4: int, prev: Option<int>, follow: Option<int>)

  // ----- the self-join -----

  function JoinedRow(leased: set<int>, lo: int, hi: int, ip: int): BoundaryRow {
    BoundaryRow(ip,
                if lo <= ip - 1 <= hi && ip - 1 in leased then Some(ip - 1) else None,
                if lo <= ip + 1 <= hi && ip + 1 in leased then Some(ip + 1) else None)
  }

  predicate HasNullNeighbour(row: BoundaryRow) {
    row.prev.None? || row.follow.None?
  }

  /** The leased addresses of lo..hi whose joined row has a NULL neighbour. */
  function BoundAddresses(leased: set<int>, lo: int, hi: int): set<int> {
    set ip {:trigger JoinedRow(leased, lo, hi, ip)} |
      ip in leased && lo <= ip <= hi && HasNullNeighbour(JoinedRow(leased, lo, hi, ip))
  }

  function LeasedIpBoundLease(leased: set<int>, lo: int, hi: int, order: Order): seq<BoundaryRow> {
    var ips := Sorted(BoundAddresses(leased, lo, hi), order);
    seq(|ips|, i requires 0 <= i < |ips| => JoinedRow(leased, lo, hi, ips[i]))
  }

  function Limit<T>(rows: seq<T>, n: nat): seq<T> {
    if |rows| <= n then rows else rows[..n]
  }

  function GetAssignmentIp(boundaries: seq<BoundaryRow>, lo: int, hi: int): Option<int> {
    var up := lo <= hi;
    var step := if up then 1 else -1;
    if |boundaries| == 0 then Some(lo)
    else
      var first := boundaries[0];
      var prev := if up then first.prev else first.follow;
      var follow := if up then first.follow else first.prev;
      if prev.None? && first.ipv4 != lo then Some(lo)
      else if follow.None? then
        if first.ipv4 != hi then Some(first.ipv4 + step) else None
      else if |boundaries| == 2 then
        var second := boundaries[1];
        var follow2 := if up then second.follow else second.prev;
        if follow2.None? && second.ipv4 != hi then Some(second.ipv4 + step) else None
      else None
  }

  function AvailableIp(leased: set<int>, lo: int, hi: int, order: Order): Option<int> {
    var boundaries := Limit(LeasedIpBoundLease(leased, lo, hi, order), 2);
    match order
    case Asc => GetAssignmentIp(boundaries, lo, hi)
    case Desc => GetAssignmentIp(boundaries, hi, lo)
  }

  // ----- the reference: a plain linear scan -----

  function FreeAddresses(leased: set<int>, lo: int, hi: int): set<int> {
    set x | lo <= x <= hi && x !in leased
  }

  function LinearScan(leased: set<int>, lo: int, hi: int, order: Order): Option<int>
    decreases hi - lo
  {
    if lo > hi then None
    else if order.Asc? then
      if lo !in leased then Some(lo) else LinearScan(leased, lo + 1, hi, order)
    else
      if hi !in leased then Some(hi) else LinearScan(leased, lo, hi - 1, order)
  }

  /** nil exactly when everything is leased; otherwise the nearest free address. */
  lemma {:induction false} LinearScanMeaning(leased: set<int>, lo: int, hi: int, order: Order)
    ensures match LinearScan(leased, lo, hi, order)
            case None => forall x :: lo <= x <= hi ==> x in leased
            case Some(ip) => IsFirst(FreeAddresses(leased, lo, hi), order, ip)
    decreases hi - lo
  {
    if lo <= hi {
      if order.Asc? && lo in leased {
        LinearScanMeaning(leased, lo + 1, hi, order);
      } else if order.Desc? && hi in leased {
        LinearScanMeaning(leased, lo, hi - 1, order);
      }
    }
  }

  // ----- runs of leased addresses -----

  /** x..y is leased throughout. */
  ghost predicate Leased(leased: set<int>, x: int, y: int) {
    forall a :: x <= a <= y ==> a in leased
  }

  /** e is where the run through x stops on the way to lo (Desc) or hi (Asc). */
  ghost predicate IsRunEnd(leased: set<int>, lo: int, hi: int, order: Order, x: int, e: int) {
    if order.Asc? then x <= e <= hi && Leased(leased, x, e) && (e == hi || e + 1 !in leased)
    else lo <= e <= x && Leased(leased, e, x) && (e == lo || e - 1 !in leased)
  }

  lemma {:induction false} FindRunEnd(leased: set<int>, lo: int, hi: int, order: Order, x: int) returns (e: int)
    requires lo <= x <= hi && x in leased
    ensures IsRunEnd(leased, lo, hi, order, x, e)
    decreases if order.Asc? then hi - x else x - lo
  {
    if order.Asc? && x < hi && x + 1 in leased {
      e := FindRunEnd(leased, lo, hi, order, x + 1);
    } else if order.Desc? && lo < x && x - 1 in leased {
      e := FindRunEnd(leased, lo, hi, order, x - 1);
    } else {
      e := x;
    }
  }

  lemma RunEndIsBoundary(leased: set<int>, lo: int, hi: int, order: Order, x: int, e: int)
    requires lo <= x <= hi && IsRunEnd(leased, lo, hi, order, x, e)
    ensures e in BoundAddresses(leased, lo, hi)
  {
  }

  function StartOf(lo: int, hi: int, order: Order): int {
    if order.Asc? then lo else hi
  }

  /** Nothing lies between the two ends of the run at the starting bound. */
  lemma {:induction false} RunIsFirst(leased: set<int>, lo: int, hi: int, order: Order, e: int)
    requires lo <= hi && IsRunEnd(leased, lo, hi, order, StartOf(lo, hi, order), e)
    ensures var b, start := BoundAddresses(leased, lo, hi), StartOf(lo, hi, order);
            IsFirst(b, order, start) && (start != e ==> IsFirst(b - {start}, order, e))
  {
    var b, start := BoundAddresses(leased, lo, hi), StartOf(lo, hi, order);
    RunEndIsBoundary(leased, lo, hi, order, start, e);
    assert HasNullNeighbour(JoinedRow(leased, lo, hi, start));
    forall x | x in b && x != start ensures Precedes(order, e, x) {
      assert HasNullNeighbour(JoinedRow(leased, lo, hi, x));
    }
  }

  /** The first rows are the two ends of the run at the starting bound. */
  lemma {:induction false} FirstRowsOfRun(leased: set<int>, lo: int, hi: int, order: Order, e: int)
    requires lo <= hi && IsRunEnd(leased, lo, hi, order, StartOf(lo, hi, order), e)
    ensures var start, rows := StartOf(lo, hi, order), LeasedIpBoundLease(leased, lo, hi, order);
            |rows| >= 1 && rows[0] == JoinedRow(leased, lo, hi, start)
            && (start != e ==> |rows| >= 2 && rows[1] == JoinedRow(leased, lo, hi, e))
  {
    var b, start := BoundAddresses(leased, lo, hi), StartOf(lo, hi, order);
    RunIsFirst(leased, lo, hi, order, e);
    SortedHead(b, order, start);
    if start != e {
      SortedHead(b - {start}, order, e);
    }
  }

  /** When the starting bound is free, the first row (if any) lies beyond it and has no
      neighbour on that side. */
  lemma {:induction false} FirstRowOfGap(leased: set<int>, lo: int, hi: int, order: Order)
    requires lo <= hi && StartOf(lo, hi, order) !in leased
    ensures var rows := LeasedIpBoundLease(leased, lo, hi, order);
            |rows| > 0 ==> if order.Asc? then lo < rows[0].ipv4 && rows[0].prev.None?
                           else rows[0].ipv4 < hi && rows[0].follow.None?
  {
    var b := BoundAddresses(leased, lo, hi);
    if b != {} {
      var x := First(b, order);
      SortedHead(b, order, x);
      var back := if order.Asc? then Desc else Asc;
      var e := FindRunEnd(leased, lo, hi, back, x);
      RunEndIsBoundary(leased, lo, hi, back, x, e);
      assert Precedes(order, x, e);
    }
  }

  /** What a scan finds next to the run at the starting bound. */
  lemma {:induction false} ScanPastRun(leased: set<int>, lo: int, hi: int, order: Order, e: int)
    requires lo <= hi && IsRunEnd(leased, lo, hi, order, StartOf(lo, hi, order), e)
    ensures LinearScan(leased, lo, hi, order)
         == if order.Asc? then if e == hi then None else Some(e + 1)
            else if e == lo then None else Some(e - 1)
    decreases hi - lo
  {
    if order.Asc? && lo < e {
      ScanPastRun(leased, lo + 1, hi, order, e);
    } else if order.Desc? && e < hi {
      ScanPastRun(leased, lo, hi - 1, order, e);
    }
  }

  /** Two boundary rows decide as much as a linear scan does, on every leased set and in
      both directions, exactly when the bounds are not crossed. */
  lemma {:induction false} AvailableIpIsLinearScan(leased: set<int>, lo: int, hi: int, order: Order)
    ensures AvailableIp(leased, lo, hi, order) == LinearScan(leased, lo, hi, order) <==> lo <= hi
  {
    if lo > hi {
      assert BoundAddresses(leased, lo, hi) == {};
    } else if StartOf(lo, hi, order) !in leased {
      FirstRowOfGap(leased, lo, hi, order);
    } else {
      var e := FindRunEnd(leased, lo, hi, order, StartOf(lo, hi, order));
      ScanPastRun(leased, lo, hi, order, e);
      FirstRowsOfRun(leased, lo, hi, order, e);
    }
  }
}
