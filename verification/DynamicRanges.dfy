/** Dynamic (DHCP) ranges of a network: the subnet arithmetic, the endpoint-only overlap
    check, and what it lets into the range table. */
module DynamicRanges {
  import opened Wrappers

  // ----- the subnet (section 3.1 of RFC 4632, section 7 of RFC 919) -----

  datatype Subnet = Subnet(ipv4: nat, prefix: nat) {
    function NetworkAddress(): int {
      ipv4 - ipv4 % BlockSize(prefix)
    }

    /** All host bits set. */
    function Broadcast(): int {
      NetworkAddress() + BlockSize(prefix) - 1
    }

    /** The gem's test: masking the address gives the network address. */
    predicate Includes(address: int) {
      address - address % BlockSize(prefix) == NetworkAddress()
    }

    /** What DhcpRange#validate_address accepts. */
    predicate Usable(address: int) {
      Includes(address) && address != NetworkAddress() && address != Broadcast()
    }
  }

  function BlockSize(prefix: nat): (size: nat)
    ensures size >= 1
    decreases 32 - prefix
  {
    if prefix >= 32 then 1 else 2 * BlockSize(prefix + 1)
  }

  lemma MulGap(m: int, a: int, b: int)
    requires m >= 1 && a < b
    ensures m * a + m <= m * b
  {
    assert m * b - m * a - m == m * (b - a - 1);
  }

  lemma AlignedBlock(x: int, m: int, q: int)
    requires m >= 1
    ensures x - x % m == m * q <==> m * q <= x < m * q + m
  {
    var d := x / m;
    if d < q {
      MulGap(m, d, q);
    } else if q < d {
      MulGap(m, q, d);
    }
  }

  /** Prefix matching selects exactly the addresses from network to broadcast, so a usable
      address lies strictly between the two. */
  lemma UsableMeansBetween(net: Subnet, address: int)
    ensures net.Includes(address) <==> net.NetworkAddress() <= address <= net.Broadcast()
    ensures net.Usable(address) <==> net.NetworkAddress() < address < net.Broadcast()
  {
    var m := BlockSize(net.prefix);
    var q := net.ipv4 / m;
    assert net.NetworkAddress() == m * q;
    AlignedBlock(address, m, q);
  }

  // ----- the prefix as leading bits -----

  function Pow2(n: nat): (r: nat)
    ensures r >= 1
  {
    if n == 0 then 1 else 2 * Pow2(n - 1)
  }

  /** The k-th bit, counted from the lowest. */
  function Bit(a: nat, k: nat): nat {
    if k == 0 then a % 2 else Bit(a / 2, k - 1)
  }

  lemma {:induction false} Pow2Sum(m: nat, n: nat)
    ensures Pow2(m + n) == Pow2(m) * Pow2(n)
  {
    if m > 0 {
      Pow2Sum(m - 1, n);
    }
  }

  lemma ThirtyTwoBits()
    ensures Pow2(32) == 0x1_0000_0000
  {
    assert Pow2(8) == 256;
    Pow2Sum(8, 8);
    Pow2Sum(16, 16);
  }

  /** A prefix leaves 32 - prefix host bits. */
  lemma {:induction false} BlockSizeIsPow2(prefix: nat)
    requires prefix <= 32
    ensures BlockSize(prefix) == Pow2(32 - prefix) && BlockSize(prefix) * Pow2(prefix) == 0x1_0000_0000
    decreases 32 - prefix
  {
    if prefix < 32 {
      BlockSizeIsPow2(prefix + 1);
    }
    Pow2Sum(32 - prefix, prefix);
    ThirtyTwoBits();
  }

  lemma DivIs(x: int, m: int, q: int)
    requires m >= 1 && m * q <= x < m * q + m
    ensures x / m == q
  {
    if x / m < q {
      MulGap(m, x / m, q);
    } else if q < x / m {
      MulGap(m, q, x / m);
    }
  }

  lemma DivTwice(a: nat, m: nat, q: int)
    requires m >= 1 && q == a / 2 / m
    ensures a / (2 * m) == q
  {
    FloorMultiple(a / 2, m);
    assert (2 * m) * q == 2 * (m * q);
    DivIs(a, 2 * m, q);
  }

  predicate SameBits(a: nat, b: nat, n: nat, w: nat) {
    forall k: nat :: n <= k < w ==> Bit(a, k) == Bit(b, k)
  }

  lemma ShiftedBits(a: nat, b: nat, n: nat, w: nat)
    ensures SameBits(a, b, n + 1, w + 1) <==> SameBits(a / 2, b / 2, n, w)
  {
    forall k: nat ensures Bit(a / 2, k) == Bit(a, k + 1) && Bit(b / 2, k) == Bit(b, k + 1) {
    }
    if SameBits(a, b, n + 1, w + 1) {
      forall k: nat | n <= k < w ensures Bit(a / 2, k) == Bit(b / 2, k) {
        assert Bit(a, k + 1) == Bit(b, k + 1);
      }
    }
    if SameBits(a / 2, b / 2, n, w) {
      forall k: nat | n + 1 <= k < w + 1 ensures Bit(a, k) == Bit(b, k) {
        assert Bit(a / 2, k - 1) == Bit(b / 2, k - 1);
      }
    }
  }

  lemma {:induction false} SameNumber(a: nat, b: nat, w: nat)
    requires a < Pow2(w) && b < Pow2(w)
    ensures a == b <==> SameBits(a, b, 0, w)
  {
    if w > 0 {
      SameNumber(a / 2, b / 2, w - 1);
      ShiftedBits(a, b, 0, w - 1);
      assert SameBits(a, b, 0, w) <==> Bit(a, 0) == Bit(b, 0) && SameBits(a, b, 1, w);
    }
  }

  /** Two numbers of w bits agree above the lowest n exactly when their bits do. */
  lemma {:induction false} SameLeadingBits(a: nat, b: nat, n: nat, w: nat)
    requires n <= w && a < Pow2(w) && b < Pow2(w)
    ensures a / Pow2(n) == b / Pow2(n) <==> SameBits(a, b, n, w)
  {
    if n == 0 {
      SameNumber(a, b, w);
    } else {
      DivTwice(a, Pow2(n - 1), a / 2 / Pow2(n - 1));
      DivTwice(b, Pow2(n - 1), b / 2 / Pow2(n - 1));
      SameLeadingBits(a / 2, b / 2, n - 1, w - 1);
      ShiftedBits(a, b, n - 1, w - 1);
    }
  }

  lemma {:induction false} HostBits(x: nat, q: nat, n: nat, k: nat)
    requires k < n && x == Pow2(n) * q
    ensures Bit(x, k) == 0 && Bit(x + Pow2(n) - 1, k) == 1
  {
    var m := Pow2(n - 1);
    assert x == 2 * (m * q);
    assert (x + 2 * m - 1) / 2 == m * q + m - 1;
    if k > 0 {
      HostBits(m * q, q, n - 1, k - 1);
    }
  }

  lemma AllHostBits(x: nat, q: nat, n: nat)
    requires x == Pow2(n) * q
    ensures forall k: nat :: k < n ==> Bit(x, k) == 0 && Bit(x + Pow2(n) - 1, k) == 1
  {
    forall k: nat | k < n ensures Bit(x, k) == 0 && Bit(x + Pow2(n) - 1, k) == 1 {
      HostBits(x, q, n, k);
    }
  }

  lemma FloorMultiple(x: int, m: int)
    requires m >= 1
    ensures x - x % m == m * (x / m)
  {
  }

  lemma BlockBounds(x: int, m: int, p: int)
    requires m >= 1 && 0 <= x < m * p
    ensures 0 <= m * (x / m) && m * (x / m) + m <= m * p
  {
    FloorMultiple(x, m);
    if x / m > p {
      MulGap(m, p, x / m);
    } else if x / m < p {
      MulGap(m, x / m, p);
    }
  }

  lemma SameBlock(x: int, y: int, m: int)
    requires m >= 1
    ensures x - x % m == y - y % m <==> x / m == y / m
  {
    FloorMultiple(x, m);
    FloorMultiple(y, m);
    if x / m < y / m {
      MulGap(m, x / m, y / m);
    } else if y / m < x / m {
      MulGap(m, y / m, x / m);
    }
  }

  /** A subnet holds exactly the addresses that share its leading bits. */
  lemma {:induction false} PrefixMeansLeadingBits(net: Subnet, address: nat)
    requires net.prefix <= 32 && net.ipv4 < 0x1_0000_0000 && address < 0x1_0000_0000
    ensures net.Includes(address) <==> SameBits(address, net.ipv4, 32 - net.prefix, 32)
  {
    BlockSizeIsPow2(net.prefix);
    ThirtyTwoBits();
    SameLeadingBits(address, net.ipv4, 32 - net.prefix, 32);
    SameBlock(address, net.ipv4, BlockSize(net.prefix));
  }

  /** The network and the broadcast address bound the block of the subnet. */
  lemma BlockOfSubnet(net: Subnet)
    requires net.prefix <= 32 && net.ipv4 < 0x1_0000_0000
    ensures net.NetworkAddress() == BlockSize(net.prefix) * (net.ipv4 / BlockSize(net.prefix))
    ensures 0 <= net.NetworkAddress() <= net.Broadcast() < 0x1_0000_0000
    ensures net.Includes(net.NetworkAddress()) && net.Includes(net.Broadcast())
  {
    var m := BlockSize(net.prefix);
    BlockSizeIsPow2(net.prefix);
    BlockBounds(net.ipv4, m, Pow2(net.prefix));
    FloorMultiple(net.ipv4, m);
    AlignedBlock(net.NetworkAddress(), m, net.ipv4 / m);
    AlignedBlock(net.Broadcast(), m, net.ipv4 / m);
  }

  /** The network address has no host bit set, the broadcast address every one. */
  lemma {:induction false} HostBitsOfSubnet(net: Subnet)
    requires net.prefix <= 32 && net.ipv4 < 0x1_0000_0000
    ensures 0 <= net.NetworkAddress() <= net.Broadcast() < 0x1_0000_0000
    ensures net.Includes(net.NetworkAddress()) && net.Includes(net.Broadcast())
    ensures forall k: nat :: k < 32 - net.prefix ==> Bit(net.NetworkAddress(), k) == 0 && Bit(net.Broadcast(), k) == 1
  {
    BlockOfSubnet(net);
    BlockSizeIsPow2(net.prefix);
    var m := BlockSize(net.prefix);
    assert net.Broadcast() == net.NetworkAddress() + Pow2(32 - net.prefix) - 1;
    AllHostBits(net.NetworkAddress(), net.ipv4 / m, 32 - net.prefix);
  }

  // ----- the range table -----

  datatype Range = Range(first: int, last: int) {
    predicate Contains(address: int) {
      first <= address <= last
    }
  }

  datatype RangeError = OutOfSubnet | Crossed | EdgeOverlap | NotFound | ValidationFailed

  function HitRanges(ranges: seq<Range>, addresses: seq<int>): seq<Range> {
    if ranges == [] then []
    else
      (if exists a :: a in addresses && ranges[0].Contains(a) then [ranges[0]] else [])
      + HitRanges(ranges[1..], addresses)
  }

  function ValidateRangeArgs(net: Subnet, first: int, last: int): Option<RangeError> {
    if !(net.Includes(first) && net.Includes(last)) then Some(OutOfSubnet)
    else if first > last then Some(Crossed)
    else None
  }

  function AddRange(net: Subnet, ranges: seq<Range>, first: int, last: int): Result<seq<Range>, RangeError> {
    var args := ValidateRangeArgs(net, first, last);
    if args.Some? then Err(args.value)
    else if HitRanges(ranges, [first, last]) != [] then Err(EdgeOverlap)
    else if !(net.Usable(first) && net.Usable(last) && first <= last) then Err(ValidationFailed)
    else Ok(ranges + [Range(first, last)])
  }

  function Without(ranges: seq<Range>, r: Range): seq<Range> {
    if ranges == [] then []
    else (if ranges[0] == r then [] else [ranges[0]]) + Without(ranges[1..], r)
  }

  function DelRange(net: Subnet, ranges: seq<Range>, first: int, last: int): Result<seq<Range>, RangeError> {
    var args := ValidateRangeArgs(net, first, last);
    if args.Some? then Err(args.value)
    else if Range(first, last) !in ranges then Err(NotFound)
    else Ok(Without(ranges, Range(first, last)))
  }

  class Network {
    const net: Subnet
    var dhcpRanges: seq<Range>

    constructor (net: Subnet)
      ensures this.net == net && dhcpRanges == []
    {
      this.net := net;
      dhcpRanges := [];
    }

    method AddIpv4DynamicRange(first: int, last: int) returns (r: Result<(), RangeError>)
      modifies this
      ensures match AddRange(net, old(dhcpRanges), first, last)
              case Ok(ranges) => r == Ok(()) && dhcpRanges == ranges
              case Err(e) => r == Err(e) && dhcpRanges == old(dhcpRanges)
    {
      var args := ValidateRangeArgs(net, first, last);
      if args.Some? {
        return Err(args.value);
      }
      if HitRanges(dhcpRanges, [first, last]) != [] {
        return Err(EdgeOverlap);
      }
      if !(net.Usable(first) && net.Usable(last)) || first > last {
        return Err(ValidationFailed);
      }
      dhcpRanges := dhcpRanges + [Range(first, last)];
      r := Ok(());
    }

    method DelIpv4DynamicRange(first: int, last: int) returns (r: Result<(), RangeError>)
      modifies this
      ensures match DelRange(net, old(dhcpRanges), first, last)
              case Ok(ranges) => r == Ok(()) && dhcpRanges == ranges
              case Err(e) => r == Err(e) && dhcpRanges == old(dhcpRanges)
    {
      var args := ValidateRangeArgs(net, first, last);
      if args.Some? {
        return Err(args.value);
      }
      if Range(first, last) !in dhcpRanges {
        return Err(NotFound);
      }
      dhcpRanges := Without(dhcpRanges, Range(first, last));
      r := Ok(());
    }

    predicate ExistsInDhcpRange(address: int)
      reads this
    {
      exists r :: r in dhcpRanges && r.Contains(address)
    }

    /** The array holds an address exactly when the range query finds it, nested ranges or not. */
    method Ipv4U32DynamicRangeArray() returns (ary: seq<int>)
      ensures forall a :: a in ary <==> ExistsInDhcpRange(a)
    {
      ary := [];
      for i := 0 to |dhcpRanges|
        invariant forall a :: a in ary <==> exists r :: r in dhcpRanges[..i] && r.Contains(a)
      {
        var range := dhcpRanges[i];
        var before := ary;
        ary := ary + seq(if range.first <= range.last then range.last - range.first + 1 else 0,
                         k requires 0 <= k => range.first + k);
        forall a ensures a in ary <==> a in before || range.Contains(a) {
          if range.Contains(a) {
            assert ary[|before| + a - range.first] == a;
          }
        }
        assert forall r :: r in dhcpRanges[..i + 1] <==> r in dhcpRanges[..i] || r == range;
      }
      assert dhcpRanges[..|dhcpRanges|] == dhcpRanges;
    }
  }

  // ----- what the endpoint check guarantees -----

  predicate Disjoint(r: Range, s: Range) {
    r.last < s.first || s.last < r.first
  }

  predicate StrictlyInside(r: Range, s: Range) {
    s.first < r.first && r.last < s.last
  }

  predicate LaminarPair(r: Range, s: Range) {
    Disjoint(r, s) || StrictlyInside(r, s) || StrictlyInside(s, r)
  }

  /** Nested or disjoint, and every address of every range is a usable one. */
  ghost predicate Laminar(net: Subnet, ranges: seq<Range>) {
    && (forall i, j :: 0 <= i < j < |ranges| ==> LaminarPair(ranges[i], ranges[j]))
    && (forall i :: 0 <= i < |ranges| ==> WithinHosts(net, ranges[i]))
  }

  predicate WithinHosts(net: Subnet, r: Range) {
    net.NetworkAddress() < r.first <= r.last < net.Broadcast()
  }

  lemma {:induction false} HitRangesFinds(ranges: seq<Range>, addresses: seq<int>)
    ensures forall r :: (r in HitRanges(ranges, addresses)
                         <==> r in ranges && exists a :: a in addresses && r.Contains(a))
  {
    if ranges != [] {
      HitRangesFinds(ranges[1..], addresses);
      assert forall r :: r in ranges <==> r == ranges[0] || r in ranges[1..];
    }
  }

  /** A new range is accepted exactly when it runs upwards over usable addresses and every
      stored range is disjoint from it or strictly enclosed by it: despite its comment the
      check lets a new range swallow existing ones. */
  lemma {:induction false} AddAcceptsExactly(net: Subnet, ranges: seq<Range>, first: int, last: int)
    requires Laminar(net, ranges)
    ensures AddRange(net, ranges, first, last).Ok?
       <==> (WithinHosts(net, Range(first, last))
             && forall r :: r in ranges ==> Disjoint(r, Range(first, last)) || StrictlyInside(r, Range(first, last)))
    ensures AddRange(net, ranges, first, last).Ok? ==>
              AddRange(net, ranges, first, last).value == ranges + [Range(first, last)]
    ensures AddRange(net, ranges, first, last) == Err(EdgeOverlap)
       <==> (net.Includes(first) && net.Includes(last) && first <= last
             && exists r :: r in ranges && (r.Contains(first) || r.Contains(last)))
    ensures AddRange(net, ranges, first, last) == Err(OutOfSubnet)
       <==> !(net.NetworkAddress() <= first <= net.Broadcast() && net.NetworkAddress() <= last <= net.Broadcast())
    ensures AddRange(net, ranges, first, last) == Err(Crossed)
       <==> net.NetworkAddress() <= last < first <= net.Broadcast()
  {
    UsableMeansBetween(net, first);
    UsableMeansBetween(net, last);
    HitRangesFinds(ranges, [first, last]);
    forall r | r in ranges && first <= last
      ensures !r.Contains(first) && !r.Contains(last)
         <==> Disjoint(r, Range(first, last)) || StrictlyInside(r, Range(first, last))
    {
      assert exists i :: 0 <= i < |ranges| && ranges[i] == r;
    }
    var hits := HitRanges(ranges, [first, last]);
    assert first in [first, last] && last in [first, last];
    assert hits != [] ==> hits[0] in hits;
  }

  ghost predicate PairwiseDisjoint(ranges: seq<Range>) {
    forall i, j :: 0 <= i < j < |ranges| ==> Disjoint(ranges[i], ranges[j])
  }

  /** An accepted range leaves disjoint ranges disjoint exactly when it swallows none of them. */
  lemma {:induction false} AddKeepsDisjointExactly(net: Subnet, ranges: seq<Range>, first: int, last: int)
    requires Laminar(net, ranges) && PairwiseDisjoint(ranges) && AddRange(net, ranges, first, last).Ok?
    ensures PairwiseDisjoint(AddRange(net, ranges, first, last).value)
       <==> forall r :: r in ranges ==> !StrictlyInside(r, Range(first, last))
  {
    AddAcceptsExactly(net, ranges, first, last);
    var n, r := |ranges|, AddRange(net, ranges, first, last).value;
    assert r == ranges + [Range(first, last)];
    if PairwiseDisjoint(r) {
      forall s | s in ranges ensures !StrictlyInside(s, Range(first, last)) {
        var i :| 0 <= i < n && ranges[i] == s;
        assert Disjoint(r[i], r[n]) && WithinHosts(net, ranges[i]);
      }
    }
  }

  datatype Change = Add(first: int, last: int) | Del(first: int, last: int)

  /** The table after a run of calls; a call that raises leaves it as it was. */
  function Run(net: Subnet, changes: seq<Change>): seq<Range> {
    if changes == [] then []
    else
      var before := Run(net, changes[..|changes| - 1]);
      var change := changes[|changes| - 1];
      var r := if change.Add? then AddRange(net, before, change.first, change.last)
               else DelRange(net, before, change.first, change.last);
      if r.Ok? then r.value else before
  }

  /** A run in which it swallows one: both ranges are stored. */
  lemma {:induction false} LaterRangeSwallowsEarlier(net: Subnet, a: int, b: int, c: int, d: int)
    requires net.NetworkAddress() < a < b <= c < d < net.Broadcast()
    ensures Run(net, [Add(b, c), Add(a, d)]) == [Range(b, c), Range(a, d)]
  {
    var run := [Add(b, c), Add(a, d)];
    AddAcceptsExactly(net, [], b, c);
    AddAcceptsExactly(net, [Range(b, c)], a, d);
    assert run[..1] == [Add(b, c)] && [Add(b, c)][..0] == [];
    assert Run(net, []) == [] && Run(net, run[..1]) == [Range(b, c)];
  }

  lemma {:induction false} WithoutIsFilter(net: Subnet, ranges: seq<Range>, r: Range)
    requires Laminar(net, ranges)
    ensures Laminar(net, Without(ranges, r))
    ensures forall s :: s in Without(ranges, r) <==> s in ranges && s != r
    ensures |Without(ranges, r)| == if r in ranges then |ranges| - 1 else |ranges|
  {
    if ranges != [] {
      var rest := Without(ranges[1..], r);
      WithoutIsFilter(net, ranges[1..], r);
      assert forall s :: s in ranges <==> s == ranges[0] || s in ranges[1..];
      forall j | 0 <= j < |rest| ensures LaminarPair(ranges[0], rest[j]) {
        assert rest[j] in ranges[1..];
      }
      assert r == ranges[0] ==> r !in ranges[1..] by {
        forall j | 0 <= j < |ranges[1..]| ensures ranges[1..][j] != ranges[0] {
          assert LaminarPair(ranges[0], ranges[j + 1]);
        }
      }
    }
  }

  /** Every reachable table is laminar and stays off the network and broadcast addresses. */
  lemma {:induction false} ReachableIsLaminar(net: Subnet, changes: seq<Change>)
    ensures Laminar(net, Run(net, changes))
  {
    if changes != [] {
      var before := Run(net, changes[..|changes| - 1]);
      var change := changes[|changes| - 1];
      ReachableIsLaminar(net, changes[..|changes| - 1]);
      if change.Add? {
        AddAcceptsExactly(net, before, change.first, change.last);
      } else {
        WithoutIsFilter(net, before, Range(change.first, change.last));
      }
    }
  }

  /** A delete removes the one row it names, and undoes the add that stored it. */
  lemma {:induction false} DelUndoesAdd(net: Subnet, ranges: seq<Range>, first: int, last: int)
    requires Laminar(net, ranges)
    ensures var added := AddRange(net, ranges, first, last);
            added.Ok? ==> DelRange(net, added.value, first, last) == Ok(ranges)
    ensures var deleted := DelRange(net, ranges, first, last);
            && (deleted.Ok? ==> |deleted.value| == |ranges| - 1)
            && (deleted.Ok? ==> forall r :: (r in deleted.value <==> r in ranges && r != Range(first, last)))
            && (deleted == Err(NotFound) <==> ValidateRangeArgs(net, first, last).None? && Range(first, last) !in ranges)
  {
    AddAcceptsExactly(net, ranges, first, last);
    WithoutIsFilter(net, ranges, Range(first, last));
    if AddRange(net, ranges, first, last).Ok? {
      assert Range(first, last) !in ranges;
      WithoutLast(ranges, Range(first, last));
    }
  }

  lemma {:induction false} WithoutLast(ranges: seq<Range>, r: Range)
    requires r !in ranges
    ensures Without(ranges + [r], r) == ranges
  {
    if ranges != [] {
      assert (ranges + [r])[1..] == ranges[1..] + [r];
      WithoutLast(ranges[1..], r);
    }
  }
}
