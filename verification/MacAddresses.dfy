/** MAC addresses as numbers and as text, and the ranges they are drawn from. */
module MacAddresses {
  import opened Wrappers

  // ----- hexadecimal -----

  const DIGITS := "0123456789abcdef"

  function Downcase(c: char): char {
    if 'A' <= c <= 'Z' then c - 'A' + 'a' else c
  }

  predicate IsHex(c: char) {
    '0' <= c <= '9' || 'a' <= c <= 'f' || 'A' <= c <= 'F'
  }

  predicate AllHex(s: string) {
    forall i :: 0 <= i < |s| ==> IsHex(s[i])
  }

  function DigitValue(c: char): nat
    requires IsHex(c)
  {
    if c <= '9' then c as int - '0' as int
    else if c <= 'F' then c as int - 'A' as int + 10
    else c as int - 'a' as int + 10
  }

  /** String#hex on a string of hexadecimal digits. */
  function Hex(s: string): nat
    requires AllHex(s)
  {
    if s == "" then 0 else 16 * Hex(s[..|s| - 1]) + DigitValue(s[|s| - 1])
  }

  /** Integer#to_s(16) */
  function ToHex(n: nat): string {
    if n < 16 then [DIGITS[n]] else ToHex(n / 16) + [DIGITS[n % 16]]
  }

  predicate LowerHex(s: string) {
    forall i :: 0 <= i < |s| ==> IsHex(s[i]) && Downcase(s[i]) == s[i]
  }

  function Pow16(n: nat): nat {
    if n == 0 then 1 else 16 * Pow16(n - 1)
  }

  lemma DigitOf(d: nat)
    requires d < 16
    ensures IsHex(DIGITS[d]) && Downcase(DIGITS[d]) == DIGITS[d] && DigitValue(DIGITS[d]) == d
  {
  }

  /** Printing in base 16 and reading it back; the digits needed are the magnitude. */
  lemma {:induction false} ToHexRoundTrip(n: nat)
    ensures LowerHex(ToHex(n)) && AllHex(ToHex(n)) && Hex(ToHex(n)) == n && ToHex(n) != ""
    ensures forall w: nat :: w > 0 ==> (|ToHex(n)| <= w <==> n < Pow16(w))
  {
    DigitOf(n % 16);
    if n < 16 {
      assert ToHex(n)[..0] == "";
      forall w: nat | w > 0 ensures n < Pow16(w) {
        Pow16Grows(1, w);
      }
    } else {
      ToHexRoundTrip(n / 16);
      assert ToHex(n)[..|ToHex(n)| - 1] == ToHex(n / 16);
      forall w: nat | w > 0 ensures |ToHex(n)| <= w <==> n < Pow16(w) {
        assert w > 1 ==> (n / 16 < Pow16(w - 1) <==> n < Pow16(w));
        assert Pow16(1) == 16;
      }
    }
  }

  lemma {:induction false} Pow16Grows(m: nat, n: nat)
    requires m <= n
    ensures Pow16(m) <= Pow16(n)
    decreases n
  {
    if m < n {
      Pow16Grows(m, n - 1);
    }
  }

  // ----- zero padding -----

  function PadTo(s: string, w: nat): (t: string)
    ensures |t| == if |s| < w then w else |s|
    decreases w - |s|
  {
    if |s| < w then PadTo("0" + s, w) else s
  }

  method Pad(s: string, w: nat) returns (mac: string)
    ensures mac == PadTo(s, w)
  {
    mac := s;
    while |mac| < w
      invariant PadTo(mac, w) == PadTo(s, w)
      decreases w - |mac|
    {
      mac := "0" + mac;
    }
  }

  lemma {:induction false} LeadingZero(s: string)
    requires AllHex(s)
    ensures AllHex("0" + s) && Hex("0" + s) == Hex(s)
  {
    if s != "" {
      LeadingZero(s[..|s| - 1]);
      assert ("0" + s)[..|s|] == "0" + s[..|s| - 1];
    } else {
      assert ("0" + s)[..0] == "";
    }
  }

  lemma {:induction false} PaddingKeepsValue(s: string, w: nat)
    requires LowerHex(s) && AllHex(s)
    ensures LowerHex(PadTo(s, w)) && AllHex(PadTo(s, w)) && Hex(PadTo(s, w)) == Hex(s)
    decreases w - |s|
  {
    if |s| < w {
      LeadingZero(s);
      assert LowerHex("0" + s);
      PaddingKeepsValue("0" + s, w);
    }
  }

  lemma {:induction false} HexConcat(a: string, b: string)
    requires AllHex(a) && AllHex(b)
    ensures AllHex(a + b) && Hex(a + b) == Hex(a) * Pow16(|b|) + Hex(b)
    ensures Hex(b) < Pow16(|b|)
  {
    if b == "" {
      assert a + b == a;
    } else {
      var n := |b| - 1;
      HexConcat(a, b[..n]);
      assert (a + b)[..|a + b| - 1] == a + b[..n];
      ShiftIn(Hex(a), Pow16(n), Hex(b[..n]), DigitValue(b[n]));
    }
  }

  lemma ShiftIn(a: nat, p: nat, b: nat, d: nat)
    ensures 16 * (a * p + b) + d == a * (16 * p) + (16 * b + d)
  {
  }

  // ----- MacLease#pretty_mac_addr and NetworkVif#normalize_mac_addr -----

  /** scan(/.{2}|.+/) */
  function Pairs(s: string): seq<string> {
    if |s| >= 2 then [s[..2]] + Pairs(s[2..]) else if s == "" then [] else [s]
  }

  function Join(parts: seq<string>, delim: string): string {
    if parts == [] then "" else if |parts| == 1 then parts[0] else parts[0] + delim + Join(parts[1..], delim)
  }

  method PrettyMacAddr(mac: nat, delim: string) returns (s: string)
    ensures s == Join(Pairs(PadTo(ToHex(mac), 12)), delim)
  {
    var text := Pad(ToHex(mac), 12);
    s := Join(Pairs(text), delim);
  }

  /** downcase.gsub(/[^0-9a-f]/, '') */
  function KeepHex(s: string): string {
    if s == "" then "" else KeepIfHex(s[0]) + KeepHex(s[1..])
  }

  function KeepIfHex(c: char): string {
    if IsHex(c) then [Downcase(c)] else ""
  }

  function NormalizeMacAddr(s: string): Result<string, string> {
    var kept := KeepHex(s);
    if |kept| > 12 then Err("invalid mac address data: " + kept) else Ok(kept)
  }

  predicate NoHex(s: string) {
    forall i :: 0 <= i < |s| ==> !IsHex(s[i])
  }

  lemma {:induction false} KeepHexConcat(a: string, b: string)
    ensures KeepHex(a + b) == KeepHex(a) + KeepHex(b)
  {
    if a == "" {
      assert a + b == b;
    } else {
      KeepHexConcat(a[1..], b);
      assert (a + b)[1..] == a[1..] + b;
      assert (a + b)[0] == a[0];
      assert KeepIfHex(a[0]) + (KeepHex(a[1..]) + KeepHex(b)) == KeepIfHex(a[0]) + KeepHex(a[1..]) + KeepHex(b);
    }
  }

  lemma {:induction false} KeepHexAll(s: string)
    requires LowerHex(s)
    ensures KeepHex(s) == s
  {
    if s != "" {
      KeepHexAll(s[1..]);
    }
  }

  lemma {:induction false} KeepHexNone(s: string)
    requires NoHex(s)
    ensures KeepHex(s) == ""
  {
    if s != "" {
      KeepHexNone(s[1..]);
    }
  }

  lemma {:induction false} KeepHexOfJoin(s: string, delim: string)
    requires LowerHex(s) && NoHex(delim)
    ensures KeepHex(Join(Pairs(s), delim)) == s
  {
    KeepHexNone(delim);
    if |s| <= 2 {
      KeepHexAll(s);
      assert |s| == 2 ==> s[..2] == s && s[2..] == "";
    } else {
      KeepHexOfJoin(s[2..], delim);
      KeepHexAll(s[..2]);
      KeepHexConcat(s[..2] + delim, Join(Pairs(s[2..]), delim));
      KeepHexConcat(s[..2], delim);
      assert Pairs(s)[1..] == Pairs(s[2..]) && Pairs(s[2..]) != [];
      assert s == s[..2] + s[2..];
    }
  }

  lemma FortyEightBits()
    ensures Pow16(12) == 0x1_0000_0000_0000 && Pow16(6) == 0x100_0000
  {
    assert Pow16(3) == 4096;
    assert Pow16(6) == 4096 * 4096;
    assert Pow16(9) == 4096 * Pow16(6);
  }

  /** Reading a printed address gives the number back, whatever delimiter without hexadecimal
      digits was used, exactly below 2^48; above it the text is refused. */
  lemma PrettyRoundTrip(mac: nat, delim: string)
    requires NoHex(delim)
    ensures var r := NormalizeMacAddr(Join(Pairs(PadTo(ToHex(mac), 12)), delim));
            && (r.Ok? <==> mac < 0x1_0000_0000_0000)
            && (r.Ok? ==> |r.value| == 12 && AllHex(r.value) && Hex(r.value) == mac)
  {
    ToHexRoundTrip(mac);
    FortyEightBits();
    PaddingKeepsValue(ToHex(mac), 12);
    KeepHexOfJoin(PadTo(ToHex(mac), 12), delim);
  }

  /** Six groups of two digits. */
  function SixGroups(t: string, delim: string): string
    requires |t| == 12
  {
    t[..2] + (delim + (t[2..4] + (delim + (t[4..6] + (delim + (t[6..8] + (delim + (t[8..10] + (delim + t[10..])))))))))
  }

  lemma {:induction false} JoinPairs(t: string, delim: string)
    requires |t| >= 2
    ensures Join(Pairs(t), delim) == if |t| == 2 then t else t[..2] + (delim + Join(Pairs(t[2..]), delim))
  {
    if |t| == 2 {
      assert t[2..] == "" && t[..2] == t;
    } else {
      assert Pairs(t)[1..] == Pairs(t[2..]) && Pairs(t[2..]) != [];
      assert t[..2] + delim + Join(Pairs(t[2..]), delim) == t[..2] + (delim + Join(Pairs(t[2..]), delim));
    }
  }

  /** A 48-bit address is printed as its twelve lower-case digits in six groups. */
  lemma {:induction false} PrettyText(mac: nat, delim: string)
    requires mac < 0x1_0000_0000_0000
    ensures exists t: string :: |t| == 12 && LowerHex(t) && AllHex(t) && Hex(t) == mac
                                && Join(Pairs(PadTo(ToHex(mac), 12)), delim) == SixGroups(t, delim)
  {
    ToHexRoundTrip(mac);
    FortyEightBits();
    PaddingKeepsValue(ToHex(mac), 12);
    TwelveInSixGroups(PadTo(ToHex(mac), 12), delim);
  }

  lemma {:induction false} TwelveInSixGroups(t: string, delim: string)
    requires |t| == 12
    ensures Join(Pairs(t), delim) == SixGroups(t, delim)
  {
    var a, b, c, d, e := t[2..], t[4..], t[6..], t[8..], t[10..];
    assert a[2..] == b && b[2..] == c && c[2..] == d && d[2..] == e;
    assert a[..2] == t[2..4] && b[..2] == t[4..6] && c[..2] == t[6..8] && d[..2] == t[8..10] && e[..2] == e;
    JoinPairs(t, delim);
    JoinPairs(a, delim);
    JoinPairs(b, delim);
    JoinPairs(c, delim);
    JoinPairs(d, delim);
    JoinPairs(e, delim);
  }

  function Lowered(s: string): string {
    seq(|s|, i requires 0 <= i < |s| => Downcase(s[i]))
  }

  function HexCount(s: string): nat {
    if s == "" then 0 else (if IsHex(s[0]) then 1 else 0) + HexCount(s[1..])
  }

  /** Normalising keeps the hexadecimal digits of any text in lower case, whatever their case was,
      and refuses it exactly when there are more than twelve. */
  lemma {:induction false} NormalizeAnyText(s: string)
    ensures LowerHex(KeepHex(s)) && KeepHex(Lowered(s)) == KeepHex(s) && |KeepHex(s)| == HexCount(s)
    ensures NormalizeMacAddr(s).Ok? <==> HexCount(s) <= 12
    ensures NormalizeMacAddr(s).Ok? ==> NormalizeMacAddr(s).value == KeepHex(s)
  {
    if s != "" {
      NormalizeAnyText(s[1..]);
      assert Lowered(s)[1..] == Lowered(s[1..]);
      assert IsHex(Downcase(s[0])) <==> IsHex(s[0]);
    }
  }

  // ----- MacLease.string_to_ints -----

  /** Vendor and device part; six digits take the configured vendor id. nil for other sizes. */
  function StringToInts(s: string, vendor: string): Option<(nat, nat)>
    requires AllHex(s) && AllHex(vendor)
  {
    if |s| == 6 then Some((Hex(vendor), Hex(s)))
    else if |s| == 12 then Some((Hex(s[..6]), Hex(s[6..])))
    else None
  }

  /** The two parts of a printed address make up the address again. */
  lemma SplitRoundTrip(mac: nat, vendor: string)
    requires mac < 0x1_0000_0000_0000 && AllHex(vendor)
    ensures AllHex(PadTo(ToHex(mac), 12))
    ensures var parts := StringToInts(PadTo(ToHex(mac), 12), vendor);
            parts.Some? && parts.value.0 * 0x100_0000 + parts.value.1 == mac && parts.value.1 < 0x100_0000
  {
    ToHexRoundTrip(mac);
    FortyEightBits();
    PaddingKeepsValue(ToHex(mac), 12);
    var s := PadTo(ToHex(mac), 12);
    HexConcat(s[..6], s[6..]);
    assert s == s[..6] + s[6..];
  }

  /** Six digits are read like twelve with the configured vendor in front; other sizes are not read. */
  lemma SixDigitsTakeVendor(s: string, vendor: string)
    requires AllHex(s) && AllHex(vendor) && |vendor| == 6
    ensures AllHex(vendor + s)
    ensures |s| == 6 ==> StringToInts(s, vendor) == StringToInts(vendor + s, vendor)
    ensures StringToInts(s, vendor).Some? <==> |s| == 6 || |s| == 12
  {
    assert |s| == 6 ==> (vendor + s)[..6] == vendor && (vendor + s)[6..] == s;
  }

  // ----- the command line's mac_to_int and int_to_mac -----

  /** split(':') of a text without trailing delimiters. */
  function Parts(s: string): (r: seq<string>)
    ensures |r| >= 1
  {
    if s == "" then [""]
    else
      var rest := Parts(s[1..]);
      if s[0] == ':' then [""] + rest else [[s[0]] + rest[0]] + rest[1..]
  }

  function Concat(parts: seq<string>): string {
    if parts == [] then "" else parts[0] + Concat(parts[1..])
  }

  /** check_mac_format: two or three groups of one or two digits, or one to six digits. */
  predicate ValidFormat(s: string) {
    var parts := Parts(s);
    && (forall i :: 0 <= i < |parts| ==> parts[i] != "" && AllHex(parts[i]))
    && if |parts| == 1 then |s| <= 6
       else |parts| <= 3 && forall i :: 0 <= i < |parts| ==> |parts[i]| <= 2
  }

  lemma {:induction false} ConcatHex(parts: seq<string>)
    requires forall i :: 0 <= i < |parts| ==> AllHex(parts[i])
    ensures AllHex(Concat(parts))
  {
    if parts != [] {
      ConcatHex(parts[1..]);
    }
  }

  function MacToInt(mac: string): Result<nat, string> {
    if !ValidFormat(mac) then Err("Invalid mac address syntax " + mac)
    else
      ConcatHex(Parts(mac));
      Ok(Hex(Concat(Parts(mac))))
  }

  function InsertAt(s: string, k: nat, t: string): string
    requires k <= |s|
  {
    s[..k] + t + s[k..]
  }

  method IntToMac(n: nat) returns (mac: string)
    ensures mac == Delimited(PadTo(ToHex(n), 6))
  {
    mac := Pad(ToHex(n), 6);
    mac := InsertAt(mac, 2, ":");
    mac := InsertAt(mac, 5, ":");
  }

  function Delimited(s: string): string
    requires |s| >= 6
  {
    InsertAt(InsertAt(s, 2, ":"), 5, ":")
  }

  lemma {:induction false} PartsOfHex(s: string)
    requires AllHex(s)
    ensures Parts(s) == [s]
  {
    if s != "" {
      PartsOfHex(s[1..]);
      assert [s[0]] + s[1..] == s;
    }
  }

  lemma {:induction false} PartsOfPrefix(a: string, b: string)
    requires AllHex(a)
    ensures Parts(a + ":" + b) == [a] + Parts(b)
  {
    var s := a + ":" + b;
    if a == "" {
      assert s[1..] == b;
    } else {
      assert s[1..] == a[1..] + ":" + b;
      PartsOfPrefix(a[1..], b);
      assert [a[0]] + a[1..] == a;
    }
  }

  lemma PartsOfDelimited(s: string)
    requires AllHex(s) && |s| >= 6
    ensures Parts(Delimited(s)) == [s[..2], s[2..4], s[4..]]
  {
    var tail := s[2..4] + ":" + s[4..];
    assert Delimited(s) == s[..2] + ":" + tail;
    PartsOfPrefix(s[..2], tail);
    PartsOfPrefix(s[2..4], s[4..]);
    PartsOfHex(s[4..]);
  }

  /** The command line reads back what it prints exactly for 24-bit numbers. */
  lemma IntRoundTrip(n: nat)
    ensures MacToInt(Delimited(PadTo(ToHex(n), 6))) == Ok(n) <==> n < 0x100_0000
    ensures n >= 0x100_0000 ==> MacToInt(Delimited(PadTo(ToHex(n), 6))).Err?
  {
    ToHexRoundTrip(n);
    FortyEightBits();
    PaddingKeepsValue(ToHex(n), 6);
    var s := PadTo(ToHex(n), 6);
    PartsOfDelimited(s);
    var parts := Parts(Delimited(s));
    assert parts[1..] == [s[2..4], s[4..]] && parts[1..][1..] == [s[4..]];
    assert Concat([s[4..]]) == s[4..] + Concat([s[4..]][1..]) == s[4..];
    assert Concat(parts[1..]) == s[2..4] + s[4..];
    assert s == s[..2] + (s[2..4] + s[4..]);
  }

  lemma {:induction false} ReadsOneGroup(a: string)
    requires AllHex(a)
    ensures MacToInt(a) == if 1 <= |a| <= 6 then Ok(Hex(a)) else Err("Invalid mac address syntax " + a)
  {
    PartsOfHex(a);
    assert [a][1..] == [];
    assert Concat([a]) == a + Concat([]) == a;
  }

  lemma {:induction false} ReadsTwoGroups(a: string, b: string)
    requires AllHex(a) && AllHex(b) && 1 <= |a| <= 2 && 1 <= |b| <= 2
    ensures MacToInt(a + ":" + b) == Ok(Hex(a) * Pow16(|b|) + Hex(b))
  {
    PartsOfHex(b);
    PartsOfPrefix(a, b);
    ConcatTwo(a, b);
    HexConcat(a, b);
  }

  lemma {:induction false} ReadsThreeGroups(a: string, b: string, c: string)
    requires AllHex(a) && AllHex(b) && AllHex(c) && 1 <= |a| <= 2 && 1 <= |b| <= 2 && 1 <= |c| <= 2
    ensures MacToInt(a + ":" + b + ":" + c) == Ok((Hex(a) * Pow16(|b|) + Hex(b)) * Pow16(|c|) + Hex(c))
  {
    PartsOfHex(c);
    PartsOfPrefix(b, c);
    PartsOfPrefix(a, b + ":" + c);
    assert a + ":" + b + ":" + c == a + ":" + (b + ":" + c);
    assert Parts(a + ":" + b + ":" + c) == [a, b, c];
    ConcatThree(a, b, c);
    HexConcat(a, b);
    HexConcat(a + b, c);
  }

  lemma ConcatTwo(a: string, b: string)
    ensures Concat([a, b]) == a + b
  {
    assert [a, b][1..] == [b] && [b][1..] == [];
    assert Concat([b]) == b + Concat([]);
  }

  lemma ConcatThree(a: string, b: string, c: string)
    ensures Concat([a, b, c]) == a + b + c
  {
    assert [a, b, c][1..] == [b, c];
    ConcatTwo(b, c);
  }

  /** A 24-bit number is printed as its six lower-case digits in three groups. */
  lemma {:induction false} IntText(n: nat)
    requires n < 0x100_0000
    ensures exists t: string :: |t| == 6 && LowerHex(t) && AllHex(t) && Hex(t) == n
                                && Delimited(PadTo(ToHex(n), 6)) == t[..2] + ":" + t[2..4] + ":" + t[4..]
  {
    ToHexRoundTrip(n);
    FortyEightBits();
    PaddingKeepsValue(ToHex(n), 6);
    var t := PadTo(ToHex(n), 6);
    assert Delimited(t) == t[..2] + ":" + t[2..4] + ":" + t[4..];
  }

  // ----- ranges -----

  datatype MacRange = MacRange(vendorId: nat, rangeBegin: nat, rangeEnd: nat) {
    function ConcatBegin(): int { vendorId * 0x100_0000 + rangeBegin }

    function ConcatEnd(): int { vendorId * 0x100_0000 + rangeEnd }

    predicate Contains(mac: int) { ConcatBegin() <= mac <= ConcatEnd() }

    /** (end - begin) minus the number of lease rows in the range. */
    function AmountOfAvailableMacs(leases: seq<int>): int {
      (ConcatEnd() - ConcatBegin()) - CountIn(leases, ConcatBegin(), ConcatEnd())
    }

    predicate AvailableMacsLeft(leases: seq<int>) {
      AmountOfAvailableMacs(leases) > 0
    }

    function Free(leases: seq<int>): set<int> {
      Unleased(leases, ConcatBegin(), ConcatEnd())
    }
  }

  function Unleased(leases: seq<int>, lo: int, hi: int): set<int> {
    set m | lo <= m <= hi && m !in leases
  }

  function CountIn(leases: seq<int>, lo: int, hi: int): nat {
    if leases == [] then 0
    else CountIn(leases[..|leases| - 1], lo, hi) + if lo <= leases[|leases| - 1] <= hi then 1 else 0
  }

  lemma {:induction false} IntervalSize(lo: int, hi: int)
    ensures |Unleased([], lo, hi)| == if lo <= hi then hi - lo + 1 else 0
    decreases hi - lo
  {
    if lo <= hi {
      IntervalSize(lo + 1, hi);
      assert Unleased([], lo, hi) == {lo} + Unleased([], lo + 1, hi);
    } else {
      assert Unleased([], lo, hi) == {};
    }
  }

  /** A range holds the addresses of its vendor whose device part lies between its ends. */
  lemma RangeByParts(r: MacRange, mac: nat, vendor: string)
    requires r.rangeEnd < 0x100_0000 && mac < 0x1_0000_0000_0000 && AllHex(vendor)
    ensures AllHex(PadTo(ToHex(mac), 12))
    ensures var parts := StringToInts(PadTo(ToHex(mac), 12), vendor);
            && parts.Some?
            && (r.Contains(mac) <==> parts.value.0 == r.vendorId && r.rangeBegin <= parts.value.1 <= r.rangeEnd)
  {
    SplitRoundTrip(mac, vendor);
  }

  predicate Distinct(leases: seq<int>) {
    forall i, j :: 0 <= i < j < |leases| ==> leases[i] != leases[j]
  }

  /** Each lease row takes at most one address, and exactly one when the rows are distinct. */
  lemma {:induction false} FreeCount(leases: seq<int>, lo: int, hi: int)
    ensures |Unleased(leases, lo, hi)| >= |Unleased([], lo, hi)| - CountIn(leases, lo, hi)
    ensures Distinct(leases) ==> |Unleased(leases, lo, hi)| == |Unleased([], lo, hi)| - CountIn(leases, lo, hi)
  {
    if leases != [] {
      var n := |leases| - 1;
      FreeCount(leases[..n], lo, hi);
      assert forall m :: m in leases <==> m == leases[n] || m in leases[..n];
      assert Unleased(leases, lo, hi) == Unleased(leases[..n], lo, hi) - {leases[n]};
      assert Distinct(leases) && lo <= leases[n] <= hi ==> leases[n] in Unleased(leases[..n], lo, hi);
    }
  }

  /** A range that reports addresses left has at least two; over distinct leases it reports
      them exactly then, so the last free address is never offered. */
  lemma LeftMeansTwoFree(r: MacRange, leases: seq<int>)
    ensures r.AvailableMacsLeft(leases) ==> |r.Free(leases)| >= 2
    ensures Distinct(leases) ==> (r.AvailableMacsLeft(leases) <==> |r.Free(leases)| >= 2)
  {
    FreeCount(leases, r.ConcatBegin(), r.ConcatEnd());
    IntervalSize(r.ConcatBegin(), r.ConcatEnd());
  }

  /** A range of one unleased address has it free and reports none left. */
  lemma LastFreeMacIsHidden(vendorId: nat, address: nat)
    ensures var r := MacRange(vendorId, address, address);
            |r.Free([])| == 1 && !r.AvailableMacsLeft([])
  {
    var r := MacRange(vendorId, address, address);
    IntervalSize(r.ConcatBegin(), r.ConcatEnd());
  }

  datatype Search = NoneLeft | Found(mac: int) | Searching

  /** The random search against a finite stretch of the random numbers it draws: it stops at
      the first unleased draw, and some draw of the range would stop it. */
  method GetRandomAvailableMac(r: MacRange, leases: seq<int>, draws: seq<int>) returns (s: Search)
    requires forall i :: 0 <= i < |draws| ==> r.Contains(draws[i])
    ensures s.NoneLeft? <==> !r.AvailableMacsLeft(leases)
    ensures s.Found? ==> s.mac in r.Free(leases)
    ensures s.Found? ==> exists i :: 0 <= i < |draws| && draws[i] == s.mac && forall j :: 0 <= j < i ==> draws[j] in leases
    ensures s.Searching? ==> (forall i :: 0 <= i < |draws| ==> draws[i] in leases) && r.Free(leases) != {}
  {
    if !r.AvailableMacsLeft(leases) {
      return NoneLeft;
    }
    for i := 0 to |draws|
      invariant forall j :: 0 <= j < i ==> draws[j] in leases
    {
      if draws[i] !in leases {
        return Found(draws[i]);
      }
    }
    LeftMeansTwoFree(r, leases);
    s := Searching;
  }
}
