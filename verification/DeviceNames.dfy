/** The next guest device name of a volume: one pass over the sorted names with String#succ.
    Device names are lower-case letters (sda, vdb, hdaa, ...). */
module DeviceNames {
  import opened Wrappers

  predicate Lower(s: string) {
    forall i :: 0 <= i < |s| ==> 'a' <= s[i] <= 'z'
  }

  // ----- the code -----

  /** Increment the last letter; 'z' becomes 'a' with a carry, which may add a letter. */
  function Carry(s: string): (t: string)
    requires Lower(s)
    ensures Lower(t)
  {
    if s == "" then "a"
    else
      var init, last := s[..|s| - 1], s[|s| - 1];
      if last < 'z' then init + [last + 1 as char] else Carry(init) + "a"
  }

  /** String#succ leaves the empty string alone. */
  function Succ(s: string): string
    requires Lower(s)
  {
    if s == "" then "" else Carry(s)
  }

  predicate LexLess(a: string, b: string) {
    b != "" && (a == "" || a[0] < b[0] || (a[0] == b[0] && LexLess(a[1..], b[1..])))
  }

  /** The sort block: by size, then by string order. */
  predicate ShortLess(a: string, b: string) {
    if |a| == |b| then LexLess(a, b) else |a| < |b|
  }

  function Insert(s: string, sorted: seq<string>): seq<string> {
    if sorted == [] then [s]
    else if ShortLess(sorted[0], s) then [sorted[0]] + Insert(s, sorted[1..])
    else [s] + sorted
  }

  function Sort(names: seq<string>): seq<string> {
    if names == [] then [] else Insert(names[0], Sort(names[1..]))
  }

  /** Each name paired with its successor in the list, the last one with nil. */
  function ZipNext(names: seq<string>): seq<(string, Option<string>)> {
    seq(|names|, i requires 0 <= i < |names| => (names[i], if i + 1 < |names| then Some(names[i + 1]) else None))
  }

  function Inject(pairs: seq<(string, Option<string>)>, r: string): string
    requires Lower(r) && forall i :: 0 <= i < |pairs| && pairs[i].1.Some? ==> Lower(pairs[i].1.value)
  {
    if pairs == [] then r
    else Inject(pairs[1..], if pairs[0].1 == Some(Succ(r)) then pairs[0].1.value else r)
  }

  function FindCandidateDeviceName(names: seq<string>): Option<string>
    requires forall s :: s in names ==> Lower(s)
  {
    var sorted := Sort(names);
    SortKeepsNames(names);
    if sorted == [] then None
    else
      var last := Inject(ZipNext(sorted), sorted[0]);
      InjectPicks(sorted, 0, sorted[0]);
      Some(Succ(last))
  }

  lemma {:induction false} SortKeepsNames(names: seq<string>)
    ensures multiset(Sort(names)) == multiset(names)
    ensures forall s :: s in Sort(names) <==> s in names
  {
    if names != [] {
      SortKeepsNames(names[1..]);
      InsertKeepsNames(names[0], Sort(names[1..]));
      assert names == [names[0]] + names[1..];
    }
    assert forall s :: s in Sort(names) <==> s in multiset(Sort(names));
  }

  lemma {:induction false} InsertKeepsNames(s: string, sorted: seq<string>)
    ensures multiset(Insert(s, sorted)) == multiset(sorted) + multiset{s}
  {
    if sorted != [] && ShortLess(sorted[0], s) {
      InsertKeepsNames(s, sorted[1..]);
      assert sorted == [sorted[0]] + sorted[1..];
    }
  }

  lemma {:induction false} InjectPicks(sorted: seq<string>, k: nat, r: string)
    requires k <= |sorted| && r in sorted && forall s :: s in sorted ==> Lower(s)
    ensures Inject(ZipNext(sorted)[k..], r) in sorted
    decreases |sorted| - k
  {
    if k < |sorted| {
      var pair := ZipNext(sorted)[k];
      assert ZipNext(sorted)[k..][1..] == ZipNext(sorted)[k + 1..];
      InjectPicks(sorted, k + 1, if pair.1 == Some(Succ(r)) then pair.1.value else r);
    }
  }

  // ----- bijective base-26 numbering -----

  function Value(s: string): nat
    requires Lower(s)
  {
    if s == "" then 0 else 26 * Value(s[..|s| - 1]) + (s[|s| - 1] as int - 'a' as int + 1)
  }

  /** succ, carry included, is +1. */
  lemma {:induction false} CarryIsPlusOne(s: string)
    requires Lower(s)
    ensures Value(Carry(s)) == Value(s) + 1
  {
    if s != "" {
      var init := s[..|s| - 1];
      CarryIsPlusOne(init);
      var t := Carry(s);
      assert t[..|t| - 1] == if s[|s| - 1] < 'z' then init else Carry(init);
    }
  }

  /** The number of the first name with n letters. */
  function FirstOfLength(n: nat): nat {
    if n == 0 then 0 else 26 * FirstOfLength(n - 1) + 1
  }

  lemma {:induction false} ValueOfLength(s: string)
    requires Lower(s)
    ensures FirstOfLength(|s|) <= Value(s) < FirstOfLength(|s| + 1)
  {
    if s != "" {
      ValueOfLength(s[..|s| - 1]);
    }
  }

  lemma {:induction false} LongerIsLater(m: nat, n: nat)
    requires m <= n
    ensures FirstOfLength(m) <= FirstOfLength(n)
    decreases n
  {
    if m < n {
      LongerIsLater(m, n - 1);
    }
  }

  lemma {:induction false} LexLessByLast(a: string, b: string)
    requires |a| == |b| > 0
    ensures var n := |a| - 1;
            LexLess(a, b) <==> LexLess(a[..n], b[..n]) || (a[..n] == b[..n] && a[n] < b[n])
  {
    var n := |a| - 1;
    if n > 0 {
      LexLessByLast(a[1..], b[1..]);
      assert a[1..][..n - 1] == a[..n][1..] && b[1..][..n - 1] == b[..n][1..];
      assert a[..n] == [a[0]] + a[..n][1..] && b[..n] == [b[0]] + b[..n][1..];
    }
  }

  /** The sort order is the numeric order. */
  lemma {:induction false} ShortLessIsLess(a: string, b: string)
    requires Lower(a) && Lower(b)
    ensures ShortLess(a, b) <==> Value(a) < Value(b)
    ensures a == b <==> Value(a) == Value(b)
    decreases |a|
  {
    ValueOfLength(a);
    ValueOfLength(b);
    if |a| < |b| {
      LongerIsLater(|a| + 1, |b|);
    } else if |b| < |a| {
      LongerIsLater(|b| + 1, |a|);
    } else if a != "" {
      var n := |a| - 1;
      LexLessByLast(a, b);
      ShortLessIsLess(a[..n], b[..n]);
      assert a == a[..n] + [a[n]] && b == b[..n] + [b[n]];
    }
  }

  // ----- the result -----

  ghost predicate Ascending(names: seq<string>) {
    && (forall s :: s in names ==> Lower(s))
    && (forall i, j :: 0 <= i < j < |names| ==> Value(names[i]) <= Value(names[j]))
  }

  lemma {:induction false} SortIsAscending(names: seq<string>)
    requires forall s :: s in names ==> Lower(s)
    ensures Ascending(Sort(names))
  {
    SortKeepsNames(names);
    if names != [] {
      SortIsAscending(names[1..]);
      InsertIsAscending(names[0], Sort(names[1..]));
    }
  }

  lemma {:induction false} InsertIsAscending(s: string, sorted: seq<string>)
    requires Lower(s) && Ascending(sorted)
    ensures Ascending(Insert(s, sorted))
    ensures forall t :: t in Insert(s, sorted) ==> t == s || t in sorted
  {
    if sorted != [] {
      ShortLessIsLess(sorted[0], s);
      if ShortLess(sorted[0], s) {
        InsertIsAscending(s, sorted[1..]);
        PrependIsAscending(sorted, s, Insert(s, sorted[1..]));
      }
    }
  }

  lemma PrependIsAscending(sorted: seq<string>, s: string, rest: seq<string>)
    requires Ascending(sorted) && sorted != [] && Ascending(rest) && Lower(s) && Value(sorted[0]) <= Value(s)
    requires forall t :: t in rest ==> t == s || t in sorted[1..]
    ensures Ascending([sorted[0]] + rest)
  {
    forall j | 0 <= j < |rest| ensures Value(sorted[0]) <= Value(rest[j]) {
      assert rest[j] in rest;
      if rest[j] != s {
        var i :| 0 <= i < |sorted[1..]| && sorted[1..][i] == rest[j];
        assert sorted[i + 1] == rest[j];
      }
    }
  }

  function Values(names: seq<string>): seq<nat>
    requires forall s :: s in names ==> Lower(s)
  {
    seq(|names|, i requires 0 <= i < |names| => Value(names[i]))
  }

  /** The fold on numbers: step on while the next entry is one higher. */
  function Climb(v: seq<nat>, r: nat): nat {
    if v == [] then r else Climb(v[1..], if v[0] == r + 1 then v[0] else r)
  }

  lemma {:induction false} InjectClimbs(sorted: seq<string>, k: nat, r: string)
    requires "" !in sorted && k < |sorted| && r in sorted && forall s :: s in sorted ==> Lower(s)
    ensures Inject(ZipNext(sorted)[k..], r) in sorted
    ensures Value(Inject(ZipNext(sorted)[k..], r)) == Climb(Values(sorted)[k + 1..], Value(r))
    decreases |sorted| - k
  {
    var pairs, v := ZipNext(sorted), Values(sorted);
    InjectPicks(sorted, k, r);
    assert pairs[k..][1..] == pairs[k + 1..];
    if k + 1 < |sorted| {
      var next := sorted[k + 1];
      assert next in sorted;
      CarryIsPlusOne(r);
      ShortLessIsLess(Succ(r), next);
      assert v[k + 1..][0] == Value(next) && v[k + 1..][1..] == v[k + 2..];
      InjectClimbs(sorted, k + 1, if next == Succ(r) then next else r);
    }
  }

  /** In an ascending list the climb from r takes every number up to its end, and the next
      one is missing. */
  lemma {:induction false} ClimbStopsAtGap(v: seq<nat>, r: nat)
    requires forall i, j :: 0 <= i < j < |v| ==> v[i] <= v[j]
    requires forall i :: 0 <= i < |v| ==> r <= v[i]
    ensures var last := Climb(v, r);
            r <= last && last + 1 !in v && forall x :: r < x <= last ==> x in v
    decreases |v|
  {
    if v != [] {
      var next := if v[0] == r + 1 then v[0] else r;
      if v[0] <= r + 1 {
        ClimbStopsAtGap(v[1..], next);
        assert forall x :: x in v <==> x == v[0] || x in v[1..];
      } else {
        ClimbStays(v, r);
      }
    }
  }

  lemma {:induction false} ClimbStays(v: seq<nat>, r: nat)
    requires forall i :: 0 <= i < |v| ==> r + 1 < v[i]
    ensures Climb(v, r) == r
  {
    if v != [] {
      ClimbStays(v[1..], r);
    }
  }

  ghost predicate IsMinimum(names: seq<string>, m: string) {
    m in names && forall s {:trigger s in names} :: s in names ==> s == m || ShortLess(m, s)
  }

  ghost predicate AllTaken(names: seq<string>, m: string, r: string) {
    forall s {:trigger s in names} :: Lower(s) && ShortLess(m, s) && ShortLess(s, r) ==> s in names
  }

  /** r is the shortlex-least lower-case string above the list's minimum and not in it. */
  ghost predicate IsLeastFree(names: seq<string>, r: string) {
    && Lower(r) && r !in names
    && exists m {:trigger IsMinimum(names, m)} :: IsMinimum(names, m) && ShortLess(m, r) && AllTaken(names, m, r)
  }

  /** For any order and any repeats the answer is the least free name, exactly when no name
      is empty; then, and only for an empty list, there is no answer at all. */
  lemma {:induction false} CandidateIsLeastFree(names: seq<string>)
    requires forall s :: s in names ==> Lower(s)
    ensures FindCandidateDeviceName(names).None? <==> names == []
    ensures names != [] ==>
              (IsLeastFree(names, FindCandidateDeviceName(names).value) <==> "" !in names)
  {
    SortKeepsNames(names);
    SortIsAscending(names);
    assert |Sort(names)| == |multiset(names)| == |names|;
    if "" in names {
      EmptyNameStalls(names);
    } else if names != [] {
      SortedLeastFree(names, Sort(names));
    }
  }

  lemma HeadIsMinimum(names: seq<string>, sorted: seq<string>)
    requires Ascending(sorted) && sorted != [] && forall s :: s in sorted <==> s in names
    ensures IsMinimum(names, sorted[0])
  {
    forall s | s in names ensures s == sorted[0] || ShortLess(sorted[0], s) {
      var i :| 0 <= i < |sorted| && sorted[i] == s;
      assert i > 0 ==> Value(sorted[0]) <= Value(sorted[i]);
      ShortLessIsLess(sorted[0], s);
    }
  }

  /** The successor of the fold's result is the first number missing above the list's head. */
  lemma {:induction false} SortedClimb(sorted: seq<string>)
    requires Ascending(sorted) && sorted != [] && "" !in sorted
    ensures var last := Inject(ZipNext(sorted), sorted[0]);
            var rest := Values(sorted)[1..];
            && last in sorted && Value(sorted[0]) < Value(Succ(last)) && Value(Succ(last)) !in rest
            && forall x :: Value(sorted[0]) < x < Value(Succ(last)) ==> x in rest
  {
    var v := Values(sorted);
    assert sorted[0] in sorted;
    InjectClimbs(sorted, 0, sorted[0]);
    assert ZipNext(sorted)[0..] == ZipNext(sorted);
    ClimbStopsAtGap(v[1..], v[0]);
    CarryIsPlusOne(Inject(ZipNext(sorted), sorted[0]));
  }

  lemma {:induction false} SortedLeastFree(names: seq<string>, sorted: seq<string>)
    requires Ascending(sorted) && sorted != [] && "" !in sorted && forall s :: s in sorted <==> s in names
    ensures var last := Inject(ZipNext(sorted), sorted[0]);
            last in sorted && IsLeastFree(names, Succ(last))
  {
    SortedClimb(sorted);
    LeastFreeByValue(names, sorted, sorted[0], Succ(Inject(ZipNext(sorted), sorted[0])));
  }

  lemma {:induction false} LeastFreeByValue(names: seq<string>, sorted: seq<string>, m: string, r: string)
    requires Ascending(sorted) && sorted != [] && m == sorted[0] && Lower(r)
    requires forall s :: s in sorted <==> s in names
    requires Value(m) < Value(r) && Value(r) !in Values(sorted)[1..]
    requires forall x :: Value(m) < x < Value(r) ==> x in Values(sorted)[1..]
    ensures IsLeastFree(names, r)
  {
    var v := Values(sorted);
    HeadIsMinimum(names, sorted);
    ShortLessIsLess(m, r);
    forall i | 0 <= i < |sorted| ensures sorted[i] != r {
      assert i > 0 ==> v[1..][i - 1] == Value(sorted[i]);
    }
    forall s | Lower(s) && ShortLess(m, s) && ShortLess(s, r) ensures s in names {
      ShortLessIsLess(m, s);
      ShortLessIsLess(s, r);
      assert Value(s) in v[1..];
      var i :| 0 <= i < |v[1..]| && v[1..][i] == Value(s);
      ShortLessIsLess(s, sorted[i + 1]);
      assert sorted[i + 1] in sorted;
    }
    assert AllTaken(names, m, r);
  }

  /** With an empty name in the list the answer is that very name. */
  lemma {:induction false} EmptyNameStalls(names: seq<string>)
    requires "" in names && forall s :: s in names ==> Lower(s)
    ensures FindCandidateDeviceName(names) == Some("")
  {
    SortKeepsNames(names);
    SortIsAscending(names);
    var sorted := Sort(names);
    var i :| 0 <= i < |sorted| && sorted[i] == "";
    assert Value(sorted[0]) <= Value(sorted[i]);
    ShortLessIsLess(sorted[0], "");
    InjectStaysEmpty(ZipNext(sorted));
  }

  lemma {:induction false} InjectStaysEmpty(pairs: seq<(string, Option<string>)>)
    requires forall i :: 0 <= i < |pairs| && pairs[i].1.Some? ==> Lower(pairs[i].1.value)
    ensures Inject(pairs, "") == ""
  {
    if pairs != [] {
      InjectStaysEmpty(pairs[1..]);
    }
  }
}
