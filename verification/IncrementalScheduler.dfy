/** Next-fit address scheduling over all dynamic ranges of a network: go on from the address
    leased last, skip the network's own addresses, wrap around once. */
module IncrementalScheduler {
  import opened Wrappers
  import opened SortedSets
  import opened NextFit
  import opened IpAllocation
  import opened DynamicRanges
  import opened LeaseLifecycle

  function LeasedIn(index: set<(nat, int)>, network: nat): set<int> {
    set p | p in index && p.0 == network :: p.1
  }

  lemma LeasedInMeaning(index: set<(nat, int)>, network: nat, a: int)
    ensures a in LeasedIn(index, network) <==> (network, a) in index
  {
    if (network, a) in index {
      assert (network, a).1 in LeasedIn(index, network);
    }
  }

  lemma CreateGrows(cfg: Config, db: Db, lease: Lease)
    requires CreateLease(cfg, db, lease).Ok?
    ensures LeasedIn(CreateLease(cfg, db, lease).value.index, lease.network) == LeasedIn(db.index, lease.network) + {lease.ipv4}
  {
    var next := CreateLease(cfg, db, lease).value;
    forall a ensures a in LeasedIn(next.index, lease.network) <==> a in LeasedIn(db.index, lease.network) || a == lease.ipv4 {
      LeasedInMeaning(next.index, lease.network, a);
      LeasedInMeaning(db.index, lease.network, a);
    }
  }

  // ----- one range until it is exhausted -----

  /** Take available_ip and create the lease, until nil comes back or a creation is refused: the
      tables then, and the addresses in turn. */
  function DrainInto(cfg: Config, network: nat, vif: nat, db: Db, lo: int, hi: int, order: Order)
    : Result<(Db, seq<int>), LeaseError>
    requires lo <= hi
    decreases |FreeAddresses(LeasedIn(db.index, network), lo, hi)|
  {
    NearestFree(LeasedIn(db.index, network), lo, hi, order);
    match AvailableIp(LeasedIn(db.index, network), lo, hi, order)
    case None => Ok((db, []))
    case Some(ip) =>
      var lease := Lease(network, ip, Some(vif), None, false, None);
      match CreateLease(cfg, db, lease)
      case Err(e) => Err(e)
      case Ok(next) =>
        CreateGrows(cfg, db, lease);
        assert FreeAddresses(LeasedIn(next.index, network), lo, hi)
            == FreeAddresses(LeasedIn(db.index, network), lo, hi) - {ip};
        var rest := DrainInto(cfg, network, vif, next, lo, hi, order);
        if rest.Err? then rest else Ok((rest.value.0, [ip] + rest.value.1))
  }

  function VifLeases(network: nat, vif: nat, ips: seq<int>): seq<Lease> {
    seq(|ips|, i requires 0 <= i < |ips| => Lease(network, ips[i], Some(vif), None, false, None))
  }

  /** Inside its network a range never refuses a creation: it leases its free addresses to the
      vif, once each, in order, and stops when all are leased. */
  lemma {:induction false} DrainLeasesAllFree(cfg: Config, network: nat, vif: nat, db: Db, lo: int, hi: int, order: Order)
    requires lo <= hi && network in cfg.networks
    requires forall x :: lo <= x <= hi ==> cfg.networks[network].subnet.Includes(x)
    ensures var r, ips := DrainInto(cfg, network, vif, db, lo, hi, order),
                          Sorted(FreeAddresses(LeasedIn(db.index, network), lo, hi), order);
            r.Ok? && r.value.1 == ips && r.value.0.leases == db.leases + VifLeases(network, vif, ips)
    decreases |FreeAddresses(LeasedIn(db.index, network), lo, hi)|
  {
    var free := FreeAddresses(LeasedIn(db.index, network), lo, hi);
    NearestFree(LeasedIn(db.index, network), lo, hi, order);
    match AvailableIp(LeasedIn(db.index, network), lo, hi, order)
    case None =>
    case Some(ip) =>
      var lease := Lease(network, ip, Some(vif), None, false, None);
      LeasedInMeaning(db.index, network, ip);
      CreateGrows(cfg, db, lease);
      var next := CreateLease(cfg, db, lease).value;
      assert FreeAddresses(LeasedIn(next.index, network), lo, hi) == free - {ip};
      DrainLeasesAllFree(cfg, network, vif, next, lo, hi, order);
      SortedFirst(free, order, ip);
      VifLeasesFirst(network, vif, db.leases, ip, Sorted(free - {ip}, order));
  }

  lemma SortedFirst(s: set<int>, order: Order, m: int)
    requires IsFirst(s, order, m)
    ensures Sorted(s, order) == [m] + Sorted(s - {m}, order)
  {
    SortedHead(s, order, m);
  }

  lemma VifLeasesFirst(network: nat, vif: nat, before: seq<Lease>, ip: int, rest: seq<int>)
    ensures before + VifLeases(network, vif, [ip] + rest)
         == (before + [Lease(network, ip, Some(vif), None, false, None)]) + VifLeases(network, vif, rest)
  {
    var lease := Lease(network, ip, Some(vif), None, false, None);
    assert VifLeases(network, vif, [ip] + rest) == [lease] + VifLeases(network, vif, rest);
  }

  // ----- the range query -----

  predicate ComesBefore(r: Range, s: Range, order: Order) {
    if order.Asc? then r.first <= s.first else s.last <= r.last
  }

  function InsertRange(r: Range, rs: seq<Range>, order: Order): seq<Range> {
    if rs == [] || ComesBefore(r, rs[0], order) then [r] + rs else [rs[0]] + InsertRange(r, rs[1..], order)
  }

  /** containing_range, ordered by range_begin (Asc) or range_end descending (Desc). */
  function RangeQuery(ranges: seq<Range>, lo: int, hi: int, order: Order): seq<Range> {
    if ranges == [] then []
    else
      var rest := RangeQuery(ranges[1..], lo, hi, order);
      if ranges[0].last >= lo && ranges[0].first <= hi then InsertRange(ranges[0], rest, order) else rest
  }

  ghost predicate InQueryOrder(rs: seq<Range>, order: Order) {
    forall i, j :: 0 <= i < j < |rs| ==> ComesBefore(rs[i], rs[j], order)
  }

  lemma {:induction false} InsertRangeOrdered(r: Range, rs: seq<Range>, order: Order)
    requires InQueryOrder(rs, order)
    ensures InQueryOrder(InsertRange(r, rs, order), order)
    ensures forall s :: s in InsertRange(r, rs, order) <==> s == r || s in rs
  {
    if rs != [] && !ComesBefore(r, rs[0], order) {
      InsertRangeOrdered(r, rs[1..], order);
      var rest := InsertRange(r, rs[1..], order);
      forall j | 0 <= j < |rest| ensures ComesBefore(rs[0], rest[j], order) {
        assert rest[j] in rest;
        if rest[j] != r {
          var i :| 0 <= i < |rs[1..]| && rs[1..][i] == rest[j];
          assert ComesBefore(rs[0], rs[i + 1], order);
        }
      }
      assert forall s :: s in rs <==> s == rs[0] || s in rs[1..];
    }
  }

  lemma {:induction false} RangeQueryOrdered(ranges: seq<Range>, lo: int, hi: int, order: Order)
    ensures InQueryOrder(RangeQuery(ranges, lo, hi, order), order)
    ensures forall r :: (r in RangeQuery(ranges, lo, hi, order) <==> r in ranges && r.last >= lo && r.first <= hi)
  {
    if ranges != [] {
      var rest := RangeQuery(ranges[1..], lo, hi, order);
      RangeQueryOrdered(ranges[1..], lo, hi, order);
      InsertRangeOrdered(ranges[0], rest, order);
      assert forall r :: r in ranges <==> r == ranges[0] || r in ranges[1..];
    }
  }

  // ----- what the scheduler may hand out -----

  /** Unleased addresses of lo..hi inside some range, the network's own addresses left out. */
  function Candidates(ranges: seq<Range>, lo: int, hi: int, leased: set<int>, reserved: set<int>): set<int> {
    set r, x | r in ranges && r.first <= x <= r.last && lo <= x <= hi && x !in leased && x !in reserved :: x
  }

  /** Leasing the skipped addresses as reserved, one after the other. */
  function ReserveAll(network: nat, db: Db, ips: seq<int>): Db {
    if ips == [] then db
    else
      var n := |ips| - 1;
      var before := ReserveAll(network, db, ips[..n]);
      before.(leases := before.leases + [Lease(network, ips[n], None, None, true, None)],
              index := before.index + {(network, ips[n])})
  }

  lemma {:induction false} ReserveAllIndex(network: nat, db: Db, ips: seq<int>)
    ensures forall a :: a in LeasedIn(ReserveAll(network, db, ips).index, network)
                   <==> (a in LeasedIn(db.index, network) || a in ips)
  {
    if ips != [] {
      var n := |ips| - 1;
      ReserveAllIndex(network, db, ips[..n]);
      var before := ReserveAll(network, db, ips[..n]);
      forall a ensures a in LeasedIn(ReserveAll(network, db, ips).index, network)
                  <==> (a in LeasedIn(before.index, network) || a == ips[n])
      {
        LeasedInMeaning(ReserveAll(network, db, ips).index, network, a);
        LeasedInMeaning(before.index, network, a);
      }
      assert forall a :: a in ips <==> a == ips[n] || a in ips[..n];
    }
  }

  lemma TakenGrows(network: nat, db: Db, ips: seq<int>, reserved: set<int>)
    requires forall a :: a in ips ==> a in reserved
    ensures var leased, taken := LeasedIn(db.index, network), LeasedIn(ReserveAll(network, db, ips).index, network);
            leased <= taken <= leased + reserved && taken + reserved == leased + reserved
  {
    ReserveAllIndex(network, db, ips);
  }

  lemma {:induction false} ReserveOneMore(cfg: Config, network: nat, db: Db, ips: seq<int>, ip: int)
    requires var before := ReserveAll(network, db, ips);
             && network in cfg.networks && cfg.networks[network].subnet.Includes(ip)
             && ip !in LeasedIn(before.index, network)
    ensures var before := ReserveAll(network, db, ips);
            && CreateLease(cfg, before, Lease(network, ip, None, None, true, None))
            == Ok(ReserveAll(network, db, ips + [ip]))
            && LeasedIn(ReserveAll(network, db, ips + [ip]).index, network) == LeasedIn(before.index, network) + {ip}
  {
    var before := ReserveAll(network, db, ips);
    assert (ips + [ip])[..|ips|] == ips;
    LeasedInMeaning(before.index, network, ip);
    ReserveAllIndex(network, db, ips);
    ReserveAllIndex(network, db, ips + [ip]);
  }

  /** The allocator's answer as a set statement. */
  lemma NearestFree(leased: set<int>, lo: int, hi: int, order: Order)
    requires lo <= hi
    ensures match AvailableIp(leased, lo, hi, order)
            case None => FreeAddresses(leased, lo, hi) == {}
            case Some(ip) => IsFirst(FreeAddresses(leased, lo, hi), order, ip)
  {
    AvailableIpIsLinearScan(leased, lo, hi, order);
    LinearScanMeaning(leased, lo, hi, order);
  }

  /** Behind the current bounds f..u everything is leased or reserved. */
  ghost predicate Passed(leased: set<int>, reserved: set<int>, lo: int, hi: int, f: int, u: int) {
    && lo <= f <= u <= hi
    && forall x :: lo <= x <= hi && (x < f || u < x) ==> x in leased + reserved
  }

  lemma PassOne(leased: set<int>, now: set<int>, reserved: set<int>, lo: int, hi: int, f: int, u: int, order: Order,
                ip: int)
    requires Passed(leased, reserved, lo, hi, f, u) && now <= leased + reserved
    requires IsFirst(FreeAddresses(now, f, u), order, ip)
    ensures Passed(leased, reserved, lo, hi, if order.Asc? then ip else f, if order.Asc? then u else ip)
  {
    forall x | f <= x <= u && (if order.Asc? then x < ip else ip < x) ensures x in leased + reserved {
      assert x !in FreeAddresses(now, f, u);
    }
  }

  lemma ScanDone(leased: set<int>, now: set<int>, reserved: set<int>, lo: int, hi: int, f: int, u: int, order: Order,
                 addr: Option<int>)
    requires Passed(leased, reserved, lo, hi, f, u) && leased <= now <= leased + reserved
    requires addr.None? ==> FreeAddresses(now, f, u) == {}
    requires addr.Some? ==> IsFirst(FreeAddresses(now, f, u), order, addr.value) && addr.value !in reserved
    ensures addr.None? ==> FreeAddresses(leased + reserved, lo, hi) == {}
    ensures addr.Some? ==> IsFirst(FreeAddresses(leased + reserved, lo, hi), order, addr.value)
  {
    forall x | x in FreeAddresses(leased + reserved, lo, hi) ensures x in FreeAddresses(now, f, u) {
    }
  }

  /** The loop over one range: the nearest candidate from the starting bound, reserving the
      network's own addresses on the way. */
  method ScanRange(t: AddressTables, network: nat, lo: int, hi: int, reserved: set<int>, order: Order)
    returns (addr: Option<int>, ghost skipped: seq<int>)
    requires network in t.cfg.networks && lo <= hi
    requires forall x :: lo <= x <= hi ==> t.cfg.networks[network].subnet.Includes(x)
    modifies t
    ensures t.State() == ReserveAll(network, old(t.State()), skipped)
    ensures forall a :: a in skipped ==> a in reserved
    ensures var free := FreeAddresses(LeasedIn(old(t.index), network) + reserved, lo, hi);
            if addr.None? then free == {} else IsFirst(free, order, addr.value)
  {
    ghost var db, leased := t.State(), LeasedIn(t.index, network);
    var f, u := lo, hi;
    skipped := [];
    addr := AvailableIp(LeasedIn(t.index, network), f, u, order);
    NearestFree(leased, f, u, order);
    while addr.Some? && addr.value in reserved
      invariant Passed(leased, reserved, lo, hi, f, u)
      invariant t.State() == ReserveAll(network, db, skipped)
      invariant forall a :: a in skipped ==> a in reserved
      invariant leased <= LeasedIn(t.index, network) <= leased + reserved
      invariant addr.None? ==> FreeAddresses(LeasedIn(t.index, network), f, u) == {}
      invariant addr.Some? ==> IsFirst(FreeAddresses(LeasedIn(t.index, network), f, u), order, addr.value)
      decreases |FreeAddresses(LeasedIn(t.index, network), lo, hi)|
    {
      var ip := addr.value;
      ghost var now := LeasedIn(t.index, network);
      ReserveOneMore(t.cfg, network, db, skipped, ip);
      PassOne(leased, now, reserved, lo, hi, f, u, order, ip);
      var id := t.Create(Lease(network, ip, None, None, true, None));
      skipped := skipped + [ip];
      assert FreeAddresses(now + {ip}, lo, hi) == FreeAddresses(now, lo, hi) - {ip};
      if order.Asc? { f := ip; } else { u := ip; }
      addr := AvailableIp(LeasedIn(t.index, network), f, u, order);
      NearestFree(LeasedIn(t.index, network), f, u, order);
    }
    ScanDone(leased, LeasedIn(t.index, network), reserved, lo, hi, f, u, order, addr);
  }

  // ----- all ranges -----

  function Clip(r: Range, lo: int, hi: int): Range {
    Range(if lo > r.first then lo else r.first, if hi < r.last then hi else r.last)
  }

  function FreeOf(r: Range, lo: int, hi: int, taken: set<int>): set<int> {
    var c := Clip(r, lo, hi);
    FreeAddresses(taken, c.first, c.last)
  }

  lemma {:induction false} ReserveAllTwice(network: nat, db: Db, a: seq<int>, b: seq<int>)
    ensures ReserveAll(network, ReserveAll(network, db, a), b) == ReserveAll(network, db, a + b)
  {
    if b == [] {
      assert a + b == a;
    } else {
      ReserveAllTwice(network, db, a, b[..|b| - 1]);
      assert (a + b)[..|a + b| - 1] == a + b[..|b| - 1];
    }
  }

  lemma CandidateMeaning(ranges: seq<Range>, lo: int, hi: int, leased: set<int>, reserved: set<int>, x: int)
    ensures x in Candidates(ranges, lo, hi, leased, reserved)
       <==> exists r :: r in ranges && x in FreeOf(r, lo, hi, leased + reserved)
  {
    if x in Candidates(ranges, lo, hi, leased, reserved) {
      var r :| r in ranges && r.first <= x <= r.last && lo <= x <= hi && x !in leased && x !in reserved;
      assert x in FreeOf(r, lo, hi, leased + reserved);
    }
  }

  /** In query order, the nearest free address of the first range that has one is the nearest
      of all, whether ranges nest or not. */
  lemma FirstRangeWins(ranges: seq<Range>, lo: int, hi: int, leased: set<int>, reserved: set<int>, order: Order, i: nat,
                       x: int)
    requires var rs := RangeQuery(ranges, lo, hi, order);
             && i < |rs|
             && (forall j :: 0 <= j < i ==> FreeOf(rs[j], lo, hi, leased + reserved) == {})
             && IsFirst(FreeOf(rs[i], lo, hi, leased + reserved), order, x)
    ensures IsFirst(Candidates(ranges, lo, hi, leased, reserved), order, x)
  {
    var rs := RangeQuery(ranges, lo, hi, order);
    RangeQueryOrdered(ranges, lo, hi, order);
    assert rs[i] in rs;
    CandidateMeaning(ranges, lo, hi, leased, reserved, x);
    forall y | y in Candidates(ranges, lo, hi, leased, reserved) ensures Precedes(order, x, y) {
      CandidateMeaning(ranges, lo, hi, leased, reserved, y);
      var r :| r in ranges && y in FreeOf(r, lo, hi, leased + reserved);
      assert r in rs;
      var j :| 0 <= j < |rs| && rs[j] == r;
      assert j >= i;
      if j > i {
        assert ComesBefore(rs[i], rs[j], order);
      }
    }
  }

  lemma NoRangeHasAny(ranges: seq<Range>, rs: seq<Range>, lo: int, hi: int, leased: set<int>, reserved: set<int>,
                      order: Order)
    requires rs == RangeQuery(ranges, lo, hi, order)
    requires forall j :: 0 <= j < |rs| ==> FreeOf(rs[j], lo, hi, leased + reserved) == {}
    ensures Candidates(ranges, lo, hi, leased, reserved) == {}
  {
    RangeQueryOrdered(ranges, lo, hi, order);
    forall x ensures x !in Candidates(ranges, lo, hi, leased, reserved) {
      CandidateMeaning(ranges, lo, hi, leased, reserved, x);
      forall r | r in ranges ensures x !in FreeOf(r, lo, hi, leased + reserved) {
        if r.last >= lo && r.first <= hi {
          assert r in rs;
          var j :| 0 <= j < |rs| && rs[j] == r;
          assert FreeOf(rs[j], lo, hi, leased + reserved) == {};
        } else {
          assert Clip(r, lo, hi).last < Clip(r, lo, hi).first || hi < lo || r.last < r.first;
        }
      }
    }
  }

  /** The nearest candidate of lo..hi over all ranges; nil exactly when there is none. */
  method GetLeaseAddress(t: AddressTables, network: nat, ranges: seq<Range>, lo: int, hi: int, reserved: set<int>,
                         order: Order)
    returns (addr: Option<int>, ghost skipped: seq<int>)
    requires network in t.cfg.networks && lo <= hi
    requires forall r :: r in ranges ==> WithinHosts(t.cfg.networks[network].subnet, r)
    modifies t
    ensures t.State() == ReserveAll(network, old(t.State()), skipped)
    ensures forall a :: a in skipped ==> a in reserved
    ensures var all := Candidates(ranges, lo, hi, LeasedIn(old(t.index), network), reserved);
            if addr.None? then all == {} else IsFirst(all, order, addr.value)
  {
    ghost var db, leased := t.State(), LeasedIn(t.index, network);
    var rs := RangeQuery(ranges, lo, hi, order);
    RangeQueryOrdered(ranges, lo, hi, order);
    skipped := [];
    for i := 0 to |rs|
      invariant t.State() == ReserveAll(network, db, skipped)
      invariant forall a :: a in skipped ==> a in reserved
      invariant forall j :: 0 <= j < i ==> FreeOf(rs[j], lo, hi, leased + reserved) == {}
    {
      assert rs[i] in rs;
      var c := Clip(rs[i], lo, hi);
      ghost var now := LeasedIn(t.index, network);
      TakenGrows(network, db, skipped, reserved);
      IncludesWithin(t.cfg.networks[network].subnet, rs[i]);
      ghost var more;
      addr, more := ScanRange(t, network, c.first, c.last, reserved, order);
      ReserveAllTwice(network, db, skipped, more);
      skipped := skipped + more;
      if addr.Some? {
        FirstRangeWins(ranges, lo, hi, leased, reserved, order, i, addr.value);
        return;
      }
    }
    NoRangeHasAny(ranges, rs, lo, hi, leased, reserved, order);
    addr := None;
  }

  lemma IncludesWithin(net: Subnet, r: Range)
    requires WithinHosts(net, r)
    ensures forall x :: r.first <= x <= r.last ==> net.Includes(x)
  {
    forall x | r.first <= x <= r.last ensures net.Includes(x) {
      UsableMeansBetween(net, x);
    }
  }

  const MAX_U32 := 0xFFFF_FFFF

  /** The address of the newest alive lease of type auto. */
  function LatestAuto(leases: seq<Lease>, network: nat): Option<int> {
    if leases == [] then None
    else
      var l := leases[|leases| - 1];
      if IsAuto(l, network) then Some(l.ipv4) else LatestAuto(leases[..|leases| - 1], network)
  }

  predicate IsAuto(l: Lease, network: nat) {
    l.network == network && l.Alive() && !l.reserved
  }

  lemma {:induction false} LatestAutoIsNewest(leases: seq<Lease>, network: nat)
    ensures match LatestAuto(leases, network)
            case None => forall l :: l in leases && l.network == network && l.deletedAt.None? ==> l.reserved
            case Some(ip) =>
              exists i :: 0 <= i < |leases| && leases[i].ipv4 == ip && leases[i].network == network
                          && leases[i].deletedAt.None? && !leases[i].reserved
                          && forall j :: i < j < |leases| && leases[j].network == network && leases[j].deletedAt.None? ==>
                               leases[j].reserved
  {
    if leases != [] {
      var n := |leases| - 1;
      LatestAutoIsNewest(leases[..n], network);
      if !IsAuto(leases[n], network) {
        assert LatestAuto(leases, network) == LatestAuto(leases[..n], network);
      }
    }
  }

  /** All usable addresses of the ranges. */
  function Usable(network: nat, ranges: seq<Range>, reserved: set<int>, db: Db): set<int> {
    Candidates(ranges, 0, MAX_U32, LeasedIn(db.index, network), reserved)
  }

  lemma CandidatesAhead(ranges: seq<Range>, leased: set<int>, reserved: set<int>, order: Order, start: int)
    requires 0 <= start <= MAX_U32
    ensures Candidates(ranges, if order.Asc? then start else 0, if order.Asc? then MAX_U32 else start, leased, reserved)
         == AheadOf(Candidates(ranges, 0, MAX_U32, leased, reserved), order, start)
  {
  }

  /** One call of the scheduler: for whom, and what it came to. */
  datatype Grant = Grant(vif: Option<nat>, pool: Option<nat>, now: int, choice: Option<int>, skipped: seq<int>)

  function StartAt(db: Db, network: nat, order: Order): int {
    var latest := LatestAuto(db.leases, network);
    if latest.Some? then latest.value else if order.Asc? then 0 else MAX_U32
  }

  /** The choice is the next fit, and only addresses of the network's own were skipped. */
  ghost predicate Fits(network: nat, ranges: seq<Range>, reserved: set<int>, order: Order, db: Db, g: Grant) {
    && IsNextFit(Usable(network, ranges, reserved, db), order, StartAt(db, network, order), g.choice)
    && forall a :: a in g.skipped ==> a in reserved
  }

  /** Leases the choice for a vif, or for a new handle of a pool, on top of the skipped addresses. */
  function Granted(cfg: Config, network: nat, db: Db, g: Grant): Result<Db, LeaseError> {
    if g.choice.None? then Err(NoAddressLeft)
    else
      var lease := Lease(network, g.choice.value, g.vif, None, false, None);
      var reserving := ReserveAll(network, db, g.skipped);
      if g.pool.Some? then Acquire(cfg, reserving, g.pool.value, lease, g.now) else CreateLease(cfg, reserving, lease)
  }

  /** What a call that succeeds adds to the tables: a reserved row for each skipped address, then
      the row of the lease, for the vif that asked, and for a pool the one new handle it carries. */
  ghost predicate Leases(cfg: Config, network: nat, db: Db, g: Grant, next: Db, id: nat) {
    && g.choice.Some? && id == |db.leases| + |g.skipped| && |next.leases| == id + 1
    && (forall i :: 0 <= i < |db.leases| ==> next.leases[i] == db.leases[i])
    && (forall k :: 0 <= k < |g.skipped| ==>
          next.leases[|db.leases| + k] == Lease(network, g.skipped[k], None, None, true, None))
    && next.leases[id] == Lease(network, g.choice.value, g.vif, if g.pool.Some? then Some(|db.handles|) else None, false, None)
    && (g.pool.None? ==> next.handles == db.handles)
    && (g.pool.Some? ==>
          && g.pool.value in cfg.pools && |next.handles| == |db.handles| + 1
          && (forall h :: 0 <= h < |db.handles| ==> next.handles[h] == db.handles[h])
          && var initial := cfg.pools[g.pool.value].expireInitial;
             next.handles[|db.handles|]
             == Handle(g.pool.value, if initial.Some? then Some(g.now + initial.value) else None, None))
    && next.index == ReserveAll(network, db, g.skipped).index + {(network, g.choice.value)}
  }

  lemma {:induction false} ReservedRowsOf(network: nat, db: Db, ips: seq<int>)
    ensures var r := ReserveAll(network, db, ips);
            && |r.leases| == |db.leases| + |ips| && r.handles == db.handles
            && (forall i :: 0 <= i < |db.leases| ==> r.leases[i] == db.leases[i])
            && (forall k :: 0 <= k < |ips| ==> r.leases[|db.leases| + k] == Lease(network, ips[k], None, None, true, None))
  {
    if ips != [] {
      ReservedRowsOf(network, db, ips[..|ips| - 1]);
    }
  }

  lemma {:induction false} GrantLeases(cfg: Config, network: nat, db: Db, g: Grant)
    requires Granted(cfg, network, db, g).Ok?
    ensures Leases(cfg, network, db, g, Granted(cfg, network, db, g).value, |ReserveAll(network, db, g.skipped).leases|)
  {
    ReservedRowsOf(network, db, g.skipped);
  }

  predicate InU32(a: Option<int>) {
    a.Some? ==> 0 <= a.value <= MAX_U32
  }

  /** Assigns the next address to a vif, or to a new handle of a pool. It fails for want of
      addresses exactly when no usable address is left in the ranges. */
  method Schedule(t: AddressTables, network: nat, ranges: seq<Range>, reserved: set<int>, order: Order,
                  vif: Option<nat>, pool: Option<nat>, now: int)
    returns (r: Result<nat, LeaseError>, ghost choice: Option<int>, ghost skipped: seq<int>)
    requires network in t.cfg.networks
    requires forall r :: r in ranges ==> WithinHosts(t.cfg.networks[network].subnet, r)
    requires InU32(LatestAuto(t.leases, network))
    modifies t
    ensures Fits(network, ranges, reserved, order, old(t.State()), Grant(vif, pool, now, choice, skipped))
    ensures var db := ReserveAll(network, old(t.State()), skipped);
            match Granted(t.cfg, network, old(t.State()), Grant(vif, pool, now, choice, skipped))
            case Ok(next) => r == Ok(|db.leases|) && t.State() == next
            case Err(e) => r == Err(e) && e != AlreadyExists && e != OutOfRange && t.State() == db
    ensures r.Ok? ==> Leases(t.cfg, network, old(t.State()), Grant(vif, pool, now, choice, skipped), t.State(), r.value)
  {
    ghost var db0, leased := t.State(), LeasedIn(t.index, network);
    var latest := LatestAuto(t.leases, network);
    CandidatesAhead(ranges, leased, reserved, order, StartAt(db0, network, order));
    var lo := if order.Asc? && latest.Some? then latest.value else 0;
    var hi := if order.Desc? && latest.Some? then latest.value else MAX_U32;
    var addr;
    addr, skipped := GetLeaseAddress(t, network, ranges, lo, hi, reserved, order);
    if addr.None? {
      lo := if order.Desc? && latest.Some? then latest.value else 0;
      hi := if order.Asc? && latest.Some? then latest.value else MAX_U32;
      ghost var more;
      TakenGrows(network, db0, skipped, reserved);
      ghost var taken := LeasedIn(t.index, network);
      addr, more := GetLeaseAddress(t, network, ranges, lo, hi, reserved, order);
      WrapAround(ranges, leased, taken, reserved, order, latest, addr);
      ReserveAllTwice(network, db0, skipped, more);
      skipped := skipped + more;
    }
    choice := addr;
    if addr.None? {
      return Err(NoAddressLeft), choice, skipped;
    }
    ChoiceIsFree(t.cfg, network, ranges, leased, reserved, skipped, db0, choice.value);
    var lease := Lease(network, addr.value, vif, None, false, None);
    if pool.Some? {
      r := t.AcquireLease(pool.value, lease, now);
    } else {
      r := t.Create(lease);
    }
    if r.Ok? {
      GrantLeases(t.cfg, network, db0, Grant(vif, pool, now, choice, skipped));
    }
  }

  /** Nothing ahead, so the nearest candidate behind is the nearest of all. */
  lemma WrapAround(ranges: seq<Range>, leased: set<int>, taken: set<int>, reserved: set<int>, order: Order,
                   latest: Option<int>, addr: Option<int>)
    requires latest.Some? ==> 0 <= latest.value <= MAX_U32
    requires leased <= taken <= leased + reserved
    requires Candidates(ranges, if order.Asc? && latest.Some? then latest.value else 0,
                        if order.Desc? && latest.Some? then latest.value else MAX_U32, leased, reserved) == {}
    requires var behind := Candidates(ranges, if order.Desc? && latest.Some? then latest.value else 0,
                                      if order.Asc? && latest.Some? then latest.value else MAX_U32, taken, reserved);
             if addr.None? then behind == {} else IsFirst(behind, order, addr.value)
    ensures var all := Candidates(ranges, 0, MAX_U32, leased, reserved);
            if addr.None? then all == {} else IsFirst(all, order, addr.value)
  {
    var ahead := Candidates(ranges, if order.Asc? && latest.Some? then latest.value else 0,
                            if order.Desc? && latest.Some? then latest.value else MAX_U32, leased, reserved);
    var behind := Candidates(ranges, if order.Desc? && latest.Some? then latest.value else 0,
                             if order.Asc? && latest.Some? then latest.value else MAX_U32, taken, reserved);
    var all := Candidates(ranges, 0, MAX_U32, leased, reserved);
    forall x ensures x in all <==> x in behind {
      if x in all {
        var r :| r in ranges && r.first <= x <= r.last && 0 <= x <= MAX_U32 && x !in leased && x !in reserved;
        assert x in ahead || x in behind;
      }
    }
  }

  /** The chosen address passes the checks of the lease that takes it. */
  lemma ChoiceIsFree(cfg: Config, network: nat, ranges: seq<Range>, leased: set<int>, reserved: set<int>,
                     skipped: seq<int>, db0: Db, x: int)
    requires network in cfg.networks && leased == LeasedIn(db0.index, network)
    requires forall r :: r in ranges ==> WithinHosts(cfg.networks[network].subnet, r)
    requires forall a :: a in skipped ==> a in reserved
    requires exists lo, hi :: x in Candidates(ranges, lo, hi, leased, reserved)
    ensures cfg.networks[network].subnet.Includes(x)
    ensures (network, x) !in ReserveAll(network, db0, skipped).index
  {
    var lo, hi :| x in Candidates(ranges, lo, hi, leased, reserved);
    var r :| r in ranges && r.first <= x <= r.last && lo <= x <= hi && x !in leased && x !in reserved;
    IncludesWithin(cfg.networks[network].subnet, r);
    ReserveAllIndex(network, db0, skipped);
    LeasedInMeaning(ReserveAll(network, db0, skipped).index, network, x);
  }

  // ----- scheduling again and again -----

  /** The addresses in the order in which scheduling again and again hands them out. */
  function Turn(network: nat, ranges: seq<Range>, reserved: set<int>, order: Order, db: Db): seq<int> {
    Rotation(Usable(network, ranges, reserved, db), order, StartAt(db, network, order))
  }

  lemma GrantedLeases(cfg: Config, network: nat, db: Db, g: Grant)
    requires Granted(cfg, network, db, g).Ok?
    ensures var next := Granted(cfg, network, db, g).value;
            var leased, now := LeasedIn(db.index, network), LeasedIn(next.index, network);
            && LatestAuto(next.leases, network) == g.choice
            && leased + {g.choice.value} <= now
            && forall a :: a in now ==> a in leased || a in g.skipped || a == g.choice.value
  {
    var next, before := Granted(cfg, network, db, g).value, ReserveAll(network, db, g.skipped);
    var x := g.choice.value;
    assert next.index == before.index + {(network, x)};
    assert next.leases[..|before.leases|] == before.leases;
    ReserveAllIndex(network, db, g.skipped);
    forall a ensures a in LeasedIn(next.index, network) <==> a in LeasedIn(before.index, network) || a == x {
      LeasedInMeaning(next.index, network, a);
      LeasedInMeaning(before.index, network, a);
    }
    forall a | a in LeasedIn(db.index, network) ensures a in LeasedIn(next.index, network) {
      assert a in LeasedIn(before.index, network);
    }
  }

  lemma UsableAfter(ranges: seq<Range>, leased: set<int>, now: set<int>, reserved: set<int>, x: int)
    requires leased + {x} <= now <= leased + reserved + {x}
    ensures Candidates(ranges, 0, MAX_U32, now, reserved) == Candidates(ranges, 0, MAX_U32, leased, reserved) - {x}
  {
  }

  lemma GrantLeavesUsable(cfg: Config, network: nat, ranges: seq<Range>, reserved: set<int>, db: Db, g: Grant)
    requires Granted(cfg, network, db, g).Ok? && forall a :: a in g.skipped ==> a in reserved
    ensures var next := Granted(cfg, network, db, g).value;
            && LatestAuto(next.leases, network) == g.choice
            && Usable(network, ranges, reserved, next) == Usable(network, ranges, reserved, db) - {g.choice.value}
  {
    var leased, now := LeasedIn(db.index, network), LeasedIn(Granted(cfg, network, db, g).value.index, network);
    GrantedLeases(cfg, network, db, g);
    forall a | a in now ensures a in leased + reserved + {g.choice.value} {
    }
    UsableAfter(ranges, leased, now, reserved, g.choice.value);
  }

  /** A granted address heads the turn; it is the new starting point, and the turn goes on from it. */
  lemma {:induction false} GrantTakesOne(cfg: Config, network: nat, ranges: seq<Range>, reserved: set<int>, order: Order,
                                         db: Db, g: Grant)
    requires Fits(network, ranges, reserved, order, db, g) && Granted(cfg, network, db, g).Ok?
    ensures Turn(network, ranges, reserved, order, db)
         == [g.choice.value] + Turn(network, ranges, reserved, order, Granted(cfg, network, db, g).value)
  {
    GrantLeavesUsable(cfg, network, ranges, reserved, db, g);
    NextFitIsHead(Usable(network, ranges, reserved, db), order, StartAt(db, network, order), g.choice.value);
  }

  /** Every call fits the tables the one before left, and none fails. */
  ghost predicate Run(cfg: Config, network: nat, ranges: seq<Range>, reserved: set<int>, order: Order, db: Db,
                      gs: seq<Grant>)
    decreases |gs|
  {
    gs == [] || (&& Fits(network, ranges, reserved, order, db, gs[0]) && Granted(cfg, network, db, gs[0]).Ok?
                 && Run(cfg, network, ranges, reserved, order, Granted(cfg, network, db, gs[0]).value, gs[1..]))
  }

  function AfterRun(cfg: Config, network: nat, db: Db, gs: seq<Grant>): Db
    decreases |gs|
  {
    if gs == [] || Granted(cfg, network, db, gs[0]).Err? then db
    else AfterRun(cfg, network, Granted(cfg, network, db, gs[0]).value, gs[1..])
  }

  /** The calls get the first elements of the turn, and the last one the element after them. */
  predicate HandsOut(turn: seq<int>, gs: seq<Grant>, last: Grant) {
    && |gs| <= |turn|
    && (forall i :: 0 <= i < |gs| ==> gs[i].choice == Some(turn[i]))
    && last.choice == if |gs| < |turn| then Some(turn[|gs|]) else None
  }

  lemma HandsOutFirst(turn: seq<int>, gs: seq<Grant>, last: Grant)
    requires turn != [] && gs != [] && gs[0].choice == Some(turn[0]) && HandsOut(turn[1..], gs[1..], last)
    ensures HandsOut(turn, gs, last)
  {
    forall i | 0 < i < |gs| ensures gs[i].choice == Some(turn[i]) {
      assert gs[1..][i - 1].choice == Some(turn[1..][i - 1]);
    }
  }

  /** Scheduling again and again without release hands out the usable addresses of all ranges,
      each once, in order from the starting point with one wrap-around; the next call runs out
      of addresses exactly when all of them have been handed out. */
  lemma {:induction false} RunHandsOutRotation(cfg: Config, network: nat, ranges: seq<Range>, reserved: set<int>,
                                               order: Order, db: Db, gs: seq<Grant>, last: Grant)
    requires Run(cfg, network, ranges, reserved, order, db, gs)
    requires Fits(network, ranges, reserved, order, AfterRun(cfg, network, db, gs), last)
    ensures HandsOut(Turn(network, ranges, reserved, order, db), gs, last)
    decreases |gs|
  {
    if gs == [] {
      NothingHandedOutYet(network, ranges, reserved, order, db, last);
    } else {
      var next := Granted(cfg, network, db, gs[0]).value;
      GrantTakesOne(cfg, network, ranges, reserved, order, db, gs[0]);
      RunHandsOutRotation(cfg, network, ranges, reserved, order, next, gs[1..], last);
      HandsOutFirst(Turn(network, ranges, reserved, order, db), gs, last);
    }
  }

  lemma NothingHandedOutYet(network: nat, ranges: seq<Range>, reserved: set<int>, order: Order, db: Db, last: Grant)
    requires Fits(network, ranges, reserved, order, db, last)
    ensures HandsOut(Turn(network, ranges, reserved, order, db), [], last)
  {
    if last.choice.Some? {
      NextFitIsHead(Usable(network, ranges, reserved, db), order, StartAt(db, network, order), last.choice.value);
    } else {
      RotationListsAll({}, order, StartAt(db, network, order));
    }
  }

  lemma UsableMeans(network: nat, ranges: seq<Range>, reserved: set<int>, db: Db, x: int)
    ensures x in Usable(network, ranges, reserved, db) <==>
              && 0 <= x <= MAX_U32 && (network, x) !in db.index && x !in reserved
              && exists r :: r in ranges && r.first <= x <= r.last
  {
    LeasedInMeaning(db.index, network, x);
  }

  /** The turn lists the unleased addresses of all ranges but for the network's own, each once. */
  lemma {:induction false} TurnMembers(network: nat, ranges: seq<Range>, reserved: set<int>, order: Order, db: Db)
    ensures var turn := Turn(network, ranges, reserved, order, db);
            && (forall x :: x in turn <==>
                  && 0 <= x <= MAX_U32 && (network, x) !in db.index && x !in reserved
                  && exists r :: r in ranges && r.first <= x <= r.last)
            && (forall i, j :: 0 <= i < j < |turn| ==> turn[i] != turn[j])
  {
    RotationListsAll(Usable(network, ranges, reserved, db), order, StartAt(db, network, order));
    forall x {
      UsableMeans(network, ranges, reserved, db, x);
    }
  }

  /** In the turn, the addresses from the latest one on come before those behind it, and on
      either side the order asked for decides; without a lease yet it is that order alone. */
  lemma {:induction false} TurnOrder(network: nat, ranges: seq<Range>, reserved: set<int>, order: Order, db: Db)
    ensures var turn, latest := Turn(network, ranges, reserved, order, db), LatestAuto(db.leases, network);
            forall i, j :: 0 <= i < j < |turn| ==>
              if latest.Some? then Before(order, latest.value, turn[i], turn[j]) else Precedes(order, turn[i], turn[j])
  {
    var all, start, turn := Usable(network, ranges, reserved, db), StartAt(db, network, order),
                            Turn(network, ranges, reserved, order, db);
    RotationListsAll(all, order, start);
    RotationOrdered(all, order, start);
    forall i, j | 0 <= i < j < |turn| && LatestAuto(db.leases, network).None? ensures Precedes(order, turn[i], turn[j]) {
      assert Before(order, start, turn[i], turn[j]) && turn[i] in turn && turn[j] in turn;
      UsableMeans(network, ranges, reserved, db, turn[i]);
      UsableMeans(network, ranges, reserved, db, turn[j]);
    }
  }
}
