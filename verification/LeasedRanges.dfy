/** The two reports of a DHCP range: its leased runs, and the gaps between them. */
module LeasedRanges {
  import opened SortedSets
  import opened Wrappers
  import opened IpAllocation

  /** One turn of the loop body: open a range at a row without predecessor, close the
      last one at a row without follower. The ends are moved outwards by `d`. */
  function PushRow(ary: seq<seq<int>>, row: BoundaryRow, d: int): seq<seq<int>> {
    var grown := if row.prev.None? then ary + [[row.ipv4 - d]] else ary;
    if row.follow.None? && grown != [] then
      grown[|grown| - 1 := grown[|grown| - 1] + [row.ipv4 + d]]
    else grown
  }

  function FoldRows(rows: seq<BoundaryRow>, d: int): seq<seq<int>> {
    if rows == [] then [] else PushRow(FoldRows(rows[..|rows| - 1], d), rows[|rows| - 1], d)
  }

  /** `ary.last` exists whenever a row closes a range. */
  ghost predicate Foldable(rows: seq<BoundaryRow>) {
    rows != [] ==> rows[0].prev.None?
  }

  lemma {:induction false} FoldNonEmpty(rows: seq<BoundaryRow>, d: int)
    requires Foldable(rows) && rows != []
    ensures FoldRows(rows, d) != []
  {
    if |rows| > 1 {
      assert rows[..|rows| - 1][0] == rows[0];
      FoldNonEmpty(rows[..|rows| - 1], d);
    }
  }

  method LeasedRanges(rows: seq<BoundaryRow>) returns (ary: seq<seq<int>>)
    requires Foldable(rows)
    ensures ary == FoldRows(rows, 0)
  {
    ary := [];
    for i := 0 to |rows|
      invariant ary == FoldRows(rows[..i], 0)
      invariant i > 0 ==> ary != []
    {
      assert rows[..i + 1][..i] == rows[..i];
      var ip := rows[i].ipv4;
      if rows[i].prev.None? {
        ary := ary + [[ip]];
      }
      if rows[i].follow.None? {
        ary := ary[|ary| - 1 := ary[|ary| - 1] + [ip]];
      }
    }
    assert rows[..|rows|] == rows;
  }

  /** With no boundary row there is no first range to extend: nil error. */
  method NotLeasedRanges(rows: seq<BoundaryRow>, rangeBegin: int, rangeEnd: int)
    returns (r: Result<seq<seq<int>>, string>)
    requires Foldable(rows)
    ensures r.Err? <==> rows == []
    ensures r.Ok? ==> Flatten(r.value) == [rangeBegin] + Flatten(FoldRows(rows, 1)) + [rangeEnd]
  {
    var ary := [];
    for i := 0 to |rows|
      invariant ary == FoldRows(rows[..i], 1)
      invariant i > 0 ==> ary != []
    {
      assert rows[..i + 1][..i] == rows[..i];
      var ip := rows[i].ipv4;
      if rows[i].prev.None? {
        ary := ary + [[ip - 1]];
      }
      if rows[i].follow.None? {
        ary := ary[|ary| - 1 := ary[|ary| - 1] + [ip + 1]];
      }
    }
    assert rows[..|rows|] == rows;
    if ary == [] {
      return Err("undefined method `unshift' for nil");
    }
    ghost var folded := ary;
    ary := ary[0 := [rangeBegin] + ary[0]];
    FlattenFirst(folded, rangeBegin);
    FlattenLast(ary, rangeEnd);
    ary := ary[|ary| - 1 := ary[|ary| - 1] + [rangeEnd]];
    r := Ok(ary);
  }

  function Flatten(ss: seq<seq<int>>): seq<int> {
    if ss == [] then [] else ss[0] + Flatten(ss[1..])
  }

  lemma FlattenFirst(ss: seq<seq<int>>, x: int)
    requires ss != []
    ensures Flatten(ss[0 := [x] + ss[0]]) == [x] + Flatten(ss)
  {
  }

  lemma {:induction false} FlattenLast(ss: seq<seq<int>>, x: int)
    requires ss != []
    ensures Flatten(ss[|ss| - 1 := ss[|ss| - 1] + [x]]) == Flatten(ss) + [x]
  {
    var tt := ss[|ss| - 1 := ss[|ss| - 1] + [x]];
    if |ss| > 1 {
      FlattenLast(ss[1..], x);
      assert tt[1..] == ss[1..][|ss| - 2 := ss[1..][|ss| - 2] + [x]];
      assert tt[0] == ss[0];
    }
  }

  // ----- what the folded rows mean -----

  /** No leased address of lo..hi lies strictly between x and y. */
  ghost predicate Gap(leased: set<int>, lo: int, hi: int, x: int, y: int) {
    forall a :: x < a < y && lo <= a <= hi ==> a !in leased
  }

  /** Neighbouring boundary addresses either bound one leased run or face an unleased gap. */
  ghost predicate Neighbours(leased: set<int>, lo: int, hi: int, x: int, y: int) {
    && x < y
    && (x + 1 in leased ==> Leased(leased, x, y))
    && (x + 1 !in leased ==> Gap(leased, lo, hi, x, y))
  }

  ghost predicate RowOf(leased: set<int>, lo: int, hi: int, row: BoundaryRow) {
    lo <= row.ipv4 <= hi && row.ipv4 in leased && HasNullNeighbour(row) && row == JoinedRow(leased, lo, hi, row.ipv4)
  }

  /** The ascending query, as the loops see it. */
  ghost predicate BoundaryRows(leased: set<int>, lo: int, hi: int, rows: seq<BoundaryRow>) {
    && (forall i :: 0 <= i < |rows| ==> RowOf(leased, lo, hi, rows[i]))
    && (forall i :: 0 < i < |rows| ==> Neighbours(leased, lo, hi, rows[i - 1].ipv4, rows[i].ipv4))
    && Gap(leased, lo, hi, lo - 1, if rows == [] then hi + 1 else rows[0].ipv4)
  }

  lemma {:induction false} BetweenBoundaries(leased: set<int>, lo: int, hi: int, x: int, y: int)
    requires var b := BoundAddresses(leased, lo, hi);
             x < y && x in b && y in b && forall a :: a in b ==> a <= x || y <= a
    ensures Neighbours(leased, lo, hi, x, y)
  {
    if x + 1 in leased {
      var e := FindRunEnd(leased, lo, hi, Asc, x + 1);
      RunEndIsBoundary(leased, lo, hi, Asc, x + 1, e);
      assert Leased(leased, x + 1, e);
    } else {
      forall a | x < a < y ensures a !in leased {
        if a in leased {
          var e := FindRunEnd(leased, lo, hi, Desc, a);
          RunEndIsBoundary(leased, lo, hi, Desc, a, e);
        }
      }
    }
  }

  lemma {:induction false} OutsideBoundaries(leased: set<int>, lo: int, hi: int, order: Order, z: int)
    requires forall a :: a in BoundAddresses(leased, lo, hi) ==> if order.Asc? then a <= z else z <= a
    ensures if order.Asc? then Gap(leased, lo, hi, z, hi + 1) else Gap(leased, lo, hi, lo - 1, z)
  {
    forall a | lo <= a <= hi && (if order.Asc? then z < a else a < z) ensures a !in leased {
      if a in leased {
        var e := FindRunEnd(leased, lo, hi, order, a);
        RunEndIsBoundary(leased, lo, hi, order, a, e);
      }
    }
  }

  lemma {:induction false} RowAt(leased: set<int>, lo: int, hi: int, i: nat)
    requires i < |Sorted(BoundAddresses(leased, lo, hi), Asc)|
    ensures var row := LeasedIpBoundLease(leased, lo, hi, Asc)[i];
            RowOf(leased, lo, hi, row) && row.ipv4 == Sorted(BoundAddresses(leased, lo, hi), Asc)[i]
  {
    SortedEnumerates(BoundAddresses(leased, lo, hi), Asc);
    assert Sorted(BoundAddresses(leased, lo, hi), Asc)[i] in BoundAddresses(leased, lo, hi);
  }

  lemma {:induction false} NextRowAt(leased: set<int>, lo: int, hi: int, i: nat)
    requires 0 < i < |Sorted(BoundAddresses(leased, lo, hi), Asc)|
    ensures var ips := Sorted(BoundAddresses(leased, lo, hi), Asc);
            Neighbours(leased, lo, hi, ips[i - 1], ips[i])
  {
    var b := BoundAddresses(leased, lo, hi);
    var ips := Sorted(b, Asc);
    SortedEnumerates(b, Asc);
    assert ips[i - 1] in ips && ips[i] in ips;
    forall a | a in b ensures a <= ips[i - 1] || ips[i] <= a {
      assert a in ips;
    }
    BetweenBoundaries(leased, lo, hi, ips[i - 1], ips[i]);
  }

  lemma {:induction false} EdgeGaps(leased: set<int>, lo: int, hi: int)
    ensures var ips := Sorted(BoundAddresses(leased, lo, hi), Asc);
            && Gap(leased, lo, hi, lo - 1, if ips == [] then hi + 1 else ips[0])
            && (ips != [] ==> Gap(leased, lo, hi, ips[|ips| - 1], hi + 1))
  {
    var b := BoundAddresses(leased, lo, hi);
    var ips := Sorted(b, Asc);
    SortedEnumerates(b, Asc);
    forall a | a in b ensures |ips| > 0 && ips[0] <= a <= ips[|ips| - 1] {
      assert a in ips;
    }
    OutsideBoundaries(leased, lo, hi, Desc, if ips == [] then hi + 1 else ips[0]);
    if ips != [] {
      OutsideBoundaries(leased, lo, hi, Asc, ips[|ips| - 1]);
    }
  }

  lemma {:induction false} QueryGivesBoundaryRows(leased: set<int>, lo: int, hi: int)
    ensures var rows := LeasedIpBoundLease(leased, lo, hi, Asc);
            BoundaryRows(leased, lo, hi, rows) && (rows != [] ==> Gap(leased, lo, hi, rows[|rows| - 1].ipv4, hi + 1))
  {
    var rows := LeasedIpBoundLease(leased, lo, hi, Asc);
    forall i | 0 <= i < |rows| ensures RowOf(leased, lo, hi, rows[i]) {
      RowAt(leased, lo, hi, i);
    }
    forall i | 0 < i < |rows| ensures Neighbours(leased, lo, hi, rows[i - 1].ipv4, rows[i].ipv4) {
      NextRowAt(leased, lo, hi, i);
    }
    EdgeGaps(leased, lo, hi);
  }

  /** The folded ranges, ends moved back by `d`, are the maximal leased runs of lo..z from
      the last one backwards; when `open`, the last one is still running at z. */
  ghost predicate RunList(ary: seq<seq<int>>, d: int, leased: set<int>, lo: int, z: int, open: bool)
    decreases |ary|
  {
    if ary == [] then !open && Gap(leased, lo, z, lo - 1, z + 1)
    else
      var p := ary[|ary| - 1];
      && |p| == (if open then 1 else 2)
      && var s, e := p[0] + d, if open then z else p[1] - d;
         && lo <= s <= e <= z && Leased(leased, s, e) && (s == lo || s - 1 !in leased)
         && Gap(leased, lo, z, e, z + 1)
         && RunList(ary[..|ary| - 1], d, leased, lo, s - 1, false)
  }

  lemma {:induction false} SkipGap(ary: seq<seq<int>>, d: int, leased: set<int>, lo: int, z: int, y: int)
    requires RunList(ary, d, leased, lo, z, false) && z <= y && Gap(leased, lo, y, z, y + 1)
    ensures RunList(ary, d, leased, lo, y, false)
  {
  }

  /** One loop turn at the row after x, where the ranges up to x are known. */
  lemma {:induction false} PushKeepsRuns(ary: seq<seq<int>>, d: int, leased: set<int>, lo: int, hi: int, x: int,
                                         row: BoundaryRow)
    requires lo <= x < row.ipv4 && RowOf(leased, lo, hi, row) && Neighbours(leased, lo, hi, x, row.ipv4)
    requires RunList(ary, d, leased, lo, x, x + 1 in leased)
    ensures RunList(PushRow(ary, row, d), d, leased, lo, row.ipv4, row.follow.Some?)
  {
    var y := row.ipv4;
    if x + 1 in leased {
      var n := |ary| - 1;
      var s := ary[n][0] + d;
      assert Leased(leased, x, y) && y - 1 in leased && row.follow.None?;
      assert Leased(leased, s, y);
      var next := PushRow(ary, row, d);
      assert next[n] == [s - d, y + d] && next[..n] == ary[..n];
    } else {
      SkipGap(ary, d, leased, lo, x, y - 1);
      StartRun(ary, d, leased, lo, hi, row);
    }
  }

  lemma {:induction false} StartRun(ary: seq<seq<int>>, d: int, leased: set<int>, lo: int, hi: int, row: BoundaryRow)
    requires RowOf(leased, lo, hi, row) && row.prev.None?
    requires RunList(ary, d, leased, lo, row.ipv4 - 1, false)
    ensures RunList(PushRow(ary, row, d), d, leased, lo, row.ipv4, row.follow.Some?)
  {
    var y := row.ipv4;
    if row.follow.None? {
      var grown := ary + [[y - d]];
      assert grown[|ary|] + [y + d] == [y - d, y + d];
      assert PushRow(ary, row, d) == ary + [[y - d, y + d]];
      AppendRun(ary, [y - d, y + d], d, leased, lo, y, false);
    } else {
      assert PushRow(ary, row, d) == ary + [[y - d]];
      AppendRun(ary, [y - d], d, leased, lo, y, true);
    }
  }

  lemma {:induction false} AppendRun(ary: seq<seq<int>>, p: seq<int>, d: int, leased: set<int>, lo: int, y: int, open: bool)
    requires RunList(ary, d, leased, lo, y - 1, false) && lo <= y && y in leased && (y == lo || y - 1 !in leased)
    requires p == if open then [y - d] else [y - d, y + d]
    ensures RunList(ary + [p], d, leased, lo, y, open)
  {
    var next := ary + [p];
    assert next[|next| - 1] == p && next[..|next| - 1] == ary;
    assert Leased(leased, y, y) && Gap(leased, lo, y, y, y + 1);
  }

  /** The fold over boundary rows has seen every leased address up to the last row. */
  lemma {:induction false} FoldBuildsRuns(leased: set<int>, lo: int, hi: int, rows: seq<BoundaryRow>, d: int)
    requires BoundaryRows(leased, lo, hi, rows) && rows != []
    ensures var last := rows[|rows| - 1];
            RunList(FoldRows(rows, d), d, leased, lo, last.ipv4, last.follow.Some?)
  {
    var n := |rows| - 1;
    assert RowOf(leased, lo, hi, rows[n]);
    if n == 0 {
      StartRun([], d, leased, lo, hi, rows[0]);
    } else {
      var prev := rows[n - 1];
      assert RowOf(leased, lo, hi, prev) && Neighbours(leased, lo, hi, prev.ipv4, rows[n].ipv4);
      FoldBuildsRuns(leased, lo, hi, rows[..n], d);
      PushKeepsRuns(FoldRows(rows[..n], d), d, leased, lo, hi, prev.ipv4, rows[n]);
    }
  }

  lemma {:induction false} FoldIsRunList(leased: set<int>, lo: int, hi: int, d: int)
    requires lo <= hi
    ensures RunList(FoldRows(LeasedIpBoundLease(leased, lo, hi, Asc), d), d, leased, lo, hi, false)
    ensures Foldable(LeasedIpBoundLease(leased, lo, hi, Asc))
  {
    var rows := LeasedIpBoundLease(leased, lo, hi, Asc);
    QueryGivesBoundaryRows(leased, lo, hi);
    if rows != [] {
      assert RowOf(leased, lo, hi, rows[0]) && RowOf(leased, lo, hi, rows[|rows| - 1]);
      FoldBuildsRuns(leased, lo, hi, rows, d);
      SkipGap(FoldRows(rows, d), d, leased, lo, rows[|rows| - 1].ipv4, hi);
    }
  }

  /** Ascending, disjoint, non-adjacent pairs inside lo..hi covering exactly the leased
      addresses (each pair's ends moved outwards by `d`). */
  ghost predicate MaximalRuns(ary: seq<seq<int>>, d: int, leased: set<int>, lo: int, hi: int) {
    && (forall k :: 0 <= k < |ary| ==> |ary[k]| == 2 && lo <= ary[k][0] + d <= ary[k][1] - d <= hi)
    && (forall k, l :: 0 <= k < l < |ary| ==> ary[k][1] - d + 1 < ary[l][0] + d)
    && (forall a :: lo <= a <= hi ==> (a in leased <==> exists k :: 0 <= k < |ary| && InRun(ary[k], d, a)))
  }

  ghost predicate InRun(p: seq<int>, d: int, a: int) {
    |p| == 2 && p[0] + d <= a <= p[1] - d
  }

  lemma {:induction false} RunListMeaning(ary: seq<seq<int>>, d: int, leased: set<int>, lo: int, z: int)
    requires RunList(ary, d, leased, lo, z, false)
    ensures MaximalRuns(ary, d, leased, lo, z)
    decreases |ary|
  {
    if ary != [] {
      var n := |ary| - 1;
      var p := ary[n];
      RunListMeaning(ary[..n], d, leased, lo, p[0] + d - 1);
      assert p[0] + d == lo || p[0] + d - 1 !in leased;
      LastRunMeaning(ary[..n], p, d, leased, lo, z);
      assert ary == ary[..n] + [p];
    }
  }

  /** One more run behind the known ones. */
  lemma {:induction false} LastRunMeaning(rest: seq<seq<int>>, p: seq<int>, d: int, leased: set<int>, lo: int, z: int)
    requires |p| == 2 && lo <= p[0] + d <= p[1] - d <= z
    requires MaximalRuns(rest, d, leased, lo, p[0] + d - 1)
    requires Leased(leased, p[0] + d, p[1] - d) && Gap(leased, lo, z, p[1] - d, z + 1)
    requires p[0] + d == lo || p[0] + d - 1 !in leased
    ensures MaximalRuns(rest + [p], d, leased, lo, z)
  {
    var s, all := p[0] + d, rest + [p];
    forall k | 0 <= k < |rest| ensures rest[k][1] - d + 1 < s {
      assert InRun(rest[k], d, rest[k][1] - d);
    }
    forall a | lo <= a <= z
      ensures a in leased <==> exists k :: 0 <= k < |all| && InRun(all[k], d, a)
    {
      if a < s && a in leased {
        var k :| 0 <= k < |rest| && InRun(rest[k], d, a);
        assert InRun(all[k], d, a);
      }
      assert s <= a <= p[1] - d ==> InRun(all[|rest|], d, a);
      assert forall k :: 0 <= k < |rest| ==> all[k] == rest[k];
    }
  }

  /** `leased_ranges` and, moved outwards by one, the pairs of `not_leased_ranges`. */
  lemma {:induction false} FoldIsMaximalRuns(leased: set<int>, lo: int, hi: int, d: int)
    requires lo <= hi
    ensures Foldable(LeasedIpBoundLease(leased, lo, hi, Asc))
    ensures MaximalRuns(FoldRows(LeasedIpBoundLease(leased, lo, hi, Asc), d), d, leased, lo, hi)
  {
    FoldIsRunList(leased, lo, hi, d);
    RunListMeaning(FoldRows(LeasedIpBoundLease(leased, lo, hi, Asc), d), d, leased, lo, hi);
  }

  lemma {:induction false} FlattenPairs(ss: seq<seq<int>>, k: nat)
    requires k < |ss| && forall i :: 0 <= i < |ss| ==> |ss[i]| == 2
    ensures |Flatten(ss)| == 2 * |ss| && Flatten(ss)[2 * k] == ss[k][0] && Flatten(ss)[2 * k + 1] == ss[k][1]
  {
    if |ss| > 1 {
      FlattenPairs(ss[1..], if k == 0 then 0 else k - 1);
    }
  }

  ghost predicate InGap(flat: seq<int>, k: int, a: int) {
    0 <= 2 * k && 2 * k + 1 < |flat| && flat[2 * k] <= a <= flat[2 * k + 1]
  }

  /** The flattened `not_leased_ranges`, read as pairs, is the complement of the leased set;
      a pair (x + 1, x) is an empty gap. */
  ghost predicate IsComplement(flat: seq<int>, leased: set<int>, lo: int, hi: int) {
    && |flat| % 2 == 0
    && (forall k :: 0 <= 2 * k < |flat| ==> flat[2 * k] <= flat[2 * k + 1] + 1)
    && (forall a :: lo <= a <= hi ==> (a !in leased <==> exists k :: InGap(flat, k, a)))
  }

  /** The k-th gap lies between the end of run k - 1 and the start of run k. */
  ghost predicate GapsAround(flat: seq<int>, ary: seq<seq<int>>, lo: int, hi: int) {
    && |flat| == 2 * |ary| + 2
    && (forall k :: 0 <= k < |ary| ==> |ary[k]| == 2)
    && (forall k :: 0 <= k <= |ary| ==> GapAt(flat, ary, lo, hi, k))
  }

  ghost predicate GapAt(flat: seq<int>, ary: seq<seq<int>>, lo: int, hi: int, k: nat)
    requires k <= |ary| && |flat| == 2 * |ary| + 2 && forall i :: 0 <= i < |ary| ==> |ary[i]| == 2
  {
    && flat[2 * k] == (if k == 0 then lo else ary[k - 1][1])
    && flat[2 * k + 1] == (if k == |ary| then hi else ary[k][0])
  }

  lemma {:induction false} FlatIsGaps(ary: seq<seq<int>>, lo: int, hi: int)
    requires ary != [] && forall k :: 0 <= k < |ary| ==> |ary[k]| == 2
    ensures GapsAround([lo] + Flatten(ary) + [hi], ary, lo, hi)
  {
    var flat := [lo] + Flatten(ary) + [hi];
    FlattenPairs(ary, 0);
    forall k | 0 <= k <= |ary| ensures GapAt(flat, ary, lo, hi, k) {
      if k > 0 { FlattenPairs(ary, k - 1); }
      if k < |ary| { FlattenPairs(ary, k); }
    }
  }

  /** An address in no run lies in the gap after the last run below it. */
  lemma {:induction false} FindGap(flat: seq<int>, ary: seq<seq<int>>, leased: set<int>, lo: int, hi: int, a: int, k: nat)
    requires MaximalRuns(ary, 1, leased, lo, hi) && GapsAround(flat, ary, lo, hi)
    requires lo <= a <= hi && a !in leased
    requires k <= |ary| && (k > 0 ==> ary[k - 1][1] <= a)
    ensures exists k :: InGap(flat, k, a)
    decreases |ary| - k
  {
    if k < |ary| && ary[k][1] <= a {
      FindGap(flat, ary, leased, lo, hi, a, k + 1);
    } else {
      assert k < |ary| ==> !InRun(ary[k], 1, a);
      assert GapAt(flat, ary, lo, hi, k);
      assert InGap(flat, k, a);
    }
  }

  /** `not_leased_ranges`, given at least one lease. */
  lemma {:induction false} NotLeasedRangesAreComplement(leased: set<int>, lo: int, hi: int)
    requires lo <= hi && LeasedIpBoundLease(leased, lo, hi, Asc) != []
    ensures IsComplement([lo] + Flatten(FoldRows(LeasedIpBoundLease(leased, lo, hi, Asc), 1)) + [hi], leased, lo, hi)
  {
    var ary := FoldRows(LeasedIpBoundLease(leased, lo, hi, Asc), 1);
    FoldIsMaximalRuns(leased, lo, hi, 1);
    FoldNonEmpty(LeasedIpBoundLease(leased, lo, hi, Asc), 1);
    FlatIsGaps(ary, lo, hi);
    GapsAreComplement([lo] + Flatten(ary) + [hi], ary, leased, lo, hi);
  }

  lemma {:induction false} GapsAreComplement(flat: seq<int>, ary: seq<seq<int>>, leased: set<int>, lo: int, hi: int)
    requires lo <= hi && MaximalRuns(ary, 1, leased, lo, hi) && GapsAround(flat, ary, lo, hi)
    ensures IsComplement(flat, leased, lo, hi)
  {
    forall a | lo <= a <= hi ensures a !in leased <==> exists k :: InGap(flat, k, a) {
      if a !in leased {
        FindGap(flat, ary, leased, lo, hi, a, 0);
      }
      forall k, l | 0 <= k <= |ary| && 0 <= l < |ary|
        ensures !(InGap(flat, k, a) && InRun(ary[l], 1, a))
      {
        assert GapAt(flat, ary, lo, hi, k);
      }
    }
    forall k | 0 <= 2 * k < |flat| ensures flat[2 * k] <= flat[2 * k + 1] + 1 {
      assert GapAt(flat, ary, lo, hi, k);
    }
  }
}
