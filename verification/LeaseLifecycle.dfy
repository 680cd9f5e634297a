/** IP leases (soft-deleted history), the index of leased addresses (hard-deleted), and IP
    handles with their expiry: the model hooks as steps on the three tables. */
module LeaseLifecycle {
  import opened Wrappers
  import opened DynamicRanges

  datatype NetworkInfo = NetworkInfo(subnet: Subnet, dcNetwork: nat)

  datatype Pool = Pool(expireInitial: Option<int>, expireReleased: Option<int>, dcNetworks: set<nat>)

  /** The tables these steps only read. */
  datatype Config = Config(networks: map<nat, NetworkInfo>, pools: map<nat, Pool>)

  /** A row of network_vif_ip_leases; its id is its position. */
  datatype Lease = Lease(network: nat, ipv4: int, vif: Option<nat>, handle: Option<nat>, reserved: bool,
                         deletedAt: Option<int>) {
    predicate Alive() { deletedAt.None? }

    function Pair(): (nat, int) { (network, ipv4) }

    function Deleted(now: int): Lease {
      this.(deletedAt := if deletedAt.Some? then deletedAt else Some(now))
    }
  }

  /** A row of ip_handles; its id is its position. */
  datatype Handle = Handle(pool: nat, expiresAt: Option<int>, deletedAt: Option<int>) {
    predicate Alive() { deletedAt.None? }
  }

  datatype Db = Db(leases: seq<Lease>, index: set<(nat, int)>, handles: seq<Handle>)

  datatype LeaseError =
    | OutOfRange | AlreadyExists | WrongDcNetwork | AlreadyAttached | NotAttached | NoLease | UnknownRow | UnknownPool
    | NoAddressLeft

  // ----- one row at a time -----

  function CreateLease(cfg: Config, db: Db, lease: Lease): Result<Db, LeaseError> {
    if lease.network !in cfg.networks || !cfg.networks[lease.network].subnet.Includes(lease.ipv4) then Err(OutOfRange)
    else if lease.Pair() in db.index then Err(AlreadyExists)
    else if lease.handle.Some? && !HandleFits(cfg, db, lease) then Err(WrongDcNetwork)
    else Ok(db.(leases := db.leases + [lease], index := db.index + {lease.Pair()}))
  }

  predicate HandleFits(cfg: Config, db: Db, lease: Lease)
    requires lease.handle.Some? && lease.network in cfg.networks
  {
    && lease.handle.value < |db.handles|
    && db.handles[lease.handle.value].pool in cfg.pools
    && cfg.networks[lease.network].dcNetwork in cfg.pools[db.handles[lease.handle.value].pool].dcNetworks
  }

  /** before_destroy frees the address by its value, whatever row is being destroyed. */
  function DestroyLease(db: Db, id: nat, now: int): Db
    requires id < |db.leases|
  {
    db.(index := db.index - {db.leases[id].Pair()}, leases := db.leases[id := db.leases[id].Deleted(now)])
  }

  function SetExpiresAt(db: Db, h: nat, t: Option<int>): Db {
    if h < |db.handles| then db.(handles := db.handles[h := db.handles[h].(expiresAt := t)]) else db
  }

  function AttachVif(db: Db, id: nat, vif: nat): Result<Db, LeaseError>
    requires id < |db.leases|
  {
    var lease := db.leases[id];
    if lease.vif.Some? then Err(AlreadyAttached)
    else
      var saved := db.(leases := db.leases[id := lease.(vif := Some(vif))]);
      Ok(if lease.handle.Some? then SetExpiresAt(saved, lease.handle.value, None) else saved)
  }

  function DetachVif(cfg: Config, db: Db, id: nat, now: int): Result<Db, LeaseError>
    requires id < |db.leases|
  {
    var lease := db.leases[id];
    if lease.vif.None? then Err(NotAttached)
    else
      var saved := db.(leases := db.leases[id := lease.(vif := None)]);
      if lease.handle.None? || lease.handle.value >= |db.handles| then Ok(saved)
      else
        var pool := db.handles[lease.handle.value].pool;
        if pool in cfg.pools && cfg.pools[pool].expireReleased.Some?
        then Ok(SetExpiresAt(saved, lease.handle.value, Some(now + cfg.pools[pool].expireReleased.value)))
        else Ok(saved)
  }

  /** nil for every refusal. `network` is the network of the vif at the time of the call: a lease
      of another one, or a second lease unless several are allowed, is refused. */
  function AddIpLease(db: Db, vif: nat, network: Option<nat>, id: nat, allowMultiple: bool): Option<Db>
    requires id < |db.leases|
  {
    if !allowMultiple
       && (exists l :: l in db.leases && l.vif == Some(vif) && Some(l.network) == network && l.Alive()) then None
    else if db.leases[id].vif.Some? || Some(db.leases[id].network) != network then None
    else Some(AttachVif(db, id, vif).value)
  }

  predicate HandleAlive(db: Db, lease: Lease) {
    lease.handle.Some? && lease.handle.value < |db.handles| && db.handles[lease.handle.value].Alive()
  }

  function RemoveIpLease(cfg: Config, db: Db, vif: nat, id: nat, now: int): Option<Db>
    requires id < |db.leases|
  {
    if db.leases[id].vif != Some(vif) then None
    else if HandleAlive(db, db.leases[id]) then Some(DetachVif(cfg, db, id, now).value)
    else Some(DestroyLease(db, id, now))
  }

  /** The lease of a handle: the first row that names it, deleted or not. */
  function LeaseOf(leases: seq<Lease>, h: nat): (r: Option<nat>)
    ensures r.Some? ==> r.value < |leases| && leases[r.value].handle == Some(h)
    ensures r.None? ==> forall l :: l in leases ==> l.handle != Some(h)
  {
    if leases == [] then None
    else
      var n := |leases| - 1;
      var r := LeaseOf(leases[..n], h);
      if r.Some? then r else if leases[n].handle == Some(h) then Some(n) else None
  }

  /** Destroys the lease unless it is attached, then marks the handle. Only an alive handle is
      saved: that checks that it has a lease and drops the expiry of an attached one. */
  function DestroyHandle(db: Db, h: nat, now: int): Result<Db, LeaseError>
    requires h < |db.handles|
  {
    var lease, handle := LeaseOf(db.leases, h), db.handles[h];
    var attached := lease.Some? && db.leases[lease.value].vif.Some?;
    var next := if lease.None? || attached then db else DestroyLease(db, lease.value, now);
    if !handle.Alive() then Ok(next)
    else if lease.None? then Err(NoLease)
    else Ok(next.(handles := db.handles[h := handle.(deletedAt := Some(now),
                                                     expiresAt := if attached then None else handle.expiresAt)]))
  }

  /** Handle first, then the lease that carries it. */
  function Acquire(cfg: Config, db: Db, pool: nat, lease: Lease, now: int): Result<Db, LeaseError> {
    if pool !in cfg.pools then Err(UnknownPool)
    else
      var initial := cfg.pools[pool].expireInitial;
      var handle := Handle(pool, if initial.Some? then Some(now + initial.value) else None, None);
      CreateLease(cfg, db.(handles := db.handles + [handle]), lease.(handle := Some(|db.handles|)))
  }

  // ----- several rows at a time -----

  predicate Within(ids: seq<nat>, n: nat) {
    forall k :: 0 <= k < |ids| ==> ids[k] < n
  }

  /** The ids of the rows a filter selects, in id order. */
  function Select(leases: seq<Lease>, p: Lease -> bool): (ids: seq<nat>)
    ensures forall i: nat :: (i in ids <==> i < |leases| && p(leases[i]))
    ensures Within(ids, |leases|)
  {
    if leases == [] then []
    else
      var n := |leases| - 1;
      Select(leases[..n], p) + if p(leases[n]) then [n] else []
  }

  function DestroyAll(db: Db, ids: seq<nat>, now: int): (r: Db)
    requires Within(ids, |db.leases|)
    ensures |r.leases| == |db.leases| && r.handles == db.handles
  {
    if ids == [] then db
    else
      var n := |ids| - 1;
      DestroyLease(DestroyAll(db, ids[..n], now), ids[n], now)
  }

  function VifRows(db: Db, vif: nat): seq<nat> {
    Select(db.leases, (l: Lease) => l.vif == Some(vif))
  }

  function ReservedRows(db: Db, network: nat, ipv4: int): seq<nat> {
    Select(db.leases, (l: Lease) => l.reserved && l.network == network && l.ipv4 == ipv4)
  }

  lemma {:induction false} DestroyAllEffect(db: Db, ids: seq<nat>, now: int)
    requires Within(ids, |db.leases|)
    ensures var r := DestroyAll(db, ids, now);
            && (forall i: nat :: i < |db.leases| ==>
                  r.leases[i] == if i in ids then db.leases[i].Deleted(now) else db.leases[i])
            && (forall p :: p in r.index <==> p in db.index && forall k :: 0 <= k < |ids| ==> db.leases[ids[k]].Pair() != p)
  {
    if ids != [] {
      var n := |ids| - 1;
      DestroyAllEffect(db, ids[..n], now);
      assert forall i :: i in ids <==> i == ids[n] || i in ids[..n];
    }
  }

  /** Exactly the rows that `doomed` holds for are deleted, rows deleted before keep their time,
      and the index loses exactly their addresses. */
  ghost predicate DestroysExactly(db: Db, r: Db, doomed: Lease -> bool, now: int) {
    && r.handles == db.handles && |r.leases| == |db.leases|
    && (forall i :: 0 <= i < |db.leases| ==>
          r.leases[i] == if doomed(db.leases[i]) && db.leases[i].deletedAt.None?
                         then db.leases[i].(deletedAt := Some(now)) else db.leases[i])
    && (forall p :: p in r.index <==>
          p in db.index && forall i :: 0 <= i < |db.leases| && doomed(db.leases[i]) ==>
            (db.leases[i].network, db.leases[i].ipv4) != p)
  }

  lemma {:induction false} DestroySelected(db: Db, ids: seq<nat>, doomed: Lease -> bool, now: int)
    requires forall i: nat :: i in ids <==> i < |db.leases| && doomed(db.leases[i])
    requires Within(ids, |db.leases|)
    ensures DestroysExactly(db, DestroyAll(db, ids, now), doomed, now)
  {
    DestroyAllEffect(db, ids, now);
    var r := DestroyAll(db, ids, now);
    forall p ensures p in r.index <==> p in db.index && forall i :: 0 <= i < |db.leases| && doomed(db.leases[i]) ==>
                       (db.leases[i].network, db.leases[i].ipv4) != p {
      if p in r.index {
        forall i | 0 <= i < |db.leases| && doomed(db.leases[i]) ensures (db.leases[i].network, db.leases[i].ipv4) != p {
          var k :| 0 <= k < |ids| && ids[k] == i;
          assert db.leases[ids[k]].Pair() != p;
        }
      } else if p in db.index {
        var k :| 0 <= k < |ids| && db.leases[ids[k]].Pair() == p;
        assert ids[k] in ids;
      }
    }
  }

  /** not_leased.expired.alives: handles past their time whose lease names no vif. */
  predicate Expirable(db: Db, h: nat, now: int)
    requires h < |db.handles|
  {
    var lease := LeaseOf(db.leases, h);
    && (lease.None? || db.leases[lease.value].vif.None?)
    && db.handles[h].expiresAt.Some? && db.handles[h].expiresAt.value <= now
    && db.handles[h].Alive()
  }

  function ExpirableFrom(db: Db, n: nat, now: int): (hs: seq<nat>)
    requires n <= |db.handles|
    ensures forall h: nat :: (h in hs <==> h < n && Expirable(db, h, now))
    ensures Within(hs, n)
    ensures forall i, j :: 0 <= i < j < |hs| ==> hs[i] != hs[j]
  {
    if n == 0 then []
    else ExpirableFrom(db, n - 1, now) + if Expirable(db, n - 1, now) then [n - 1] else []
  }

  function DestroyHandles(db: Db, hs: seq<nat>, now: int): (r: Result<Db, LeaseError>)
    requires Within(hs, |db.handles|)
    ensures r.Ok? ==> |r.value.handles| == |db.handles| && |r.value.leases| == |db.leases|
  {
    if hs == [] then Ok(db)
    else
      var n := |hs| - 1;
      var before := DestroyHandles(db, hs[..n], now);
      if before.Err? then before else DestroyHandle(before.value, hs[n], now)
  }

  /** Dropping the handles one after the other raised at the k-th, with the earlier ones gone. */
  predicate RaisedAt(db: Db, hs: seq<nat>, k: nat, now: int, reached: Db)
    requires Within(hs, |db.handles|)
  {
    k < |hs| && DestroyHandles(db, hs[..k], now) == Ok(reached) && DestroyHandle(reached, hs[k], now).Err?
  }

  function ExpireHandles(db: Db, now: int): Result<Db, LeaseError> {
    DestroyHandles(db, ExpirableFrom(db, |db.handles|, now), now)
  }

  // ----- the tables -----

  class AddressTables {
    const cfg: Config
    var leases: seq<Lease>
    var index: set<(nat, int)>
    var handles: seq<Handle>

    function State(): Db
      reads this
    {
      Db(leases, index, handles)
    }

    constructor (cfg: Config)
      ensures this.cfg == cfg && State() == Db([], {}, [])
    {
      this.cfg := cfg;
      leases, index, handles := [], {}, [];
    }

    method Create(lease: Lease) returns (r: Result<nat, LeaseError>)
      modifies this
      ensures match CreateLease(cfg, old(State()), lease)
              case Ok(db) => r == Ok(|old(leases)|) && State() == db
              case Err(e) => r == Err(e) && State() == old(State())
    {
      if lease.network !in cfg.networks || !cfg.networks[lease.network].subnet.Includes(lease.ipv4) {
        return Err(OutOfRange);
      }
      if (lease.network, lease.ipv4) in index {
        return Err(AlreadyExists);
      }
      if lease.handle.Some? && !HandleFits(cfg, State(), lease) {
        return Err(WrongDcNetwork);
      }
      index := index + {(lease.network, lease.ipv4)};
      leases := leases + [lease];
      r := Ok(|leases| - 1);
    }

    method Destroy(id: nat, now: int)
      requires id < |leases|
      modifies this
      ensures State() == DestroyLease(old(State()), id, now)
    {
      index := index - {(leases[id].network, leases[id].ipv4)};
      var lease := leases[id];
      if lease.deletedAt.None? {
        lease := lease.(deletedAt := Some(now));
      }
      leases := leases[id := lease];
    }

    method Attach(id: nat, vif: nat) returns (r: Result<(), LeaseError>)
      requires id < |leases|
      modifies this
      ensures match AttachVif(old(State()), id, vif)
              case Ok(db) => r == Ok(()) && State() == db
              case Err(e) => r == Err(e) && State() == old(State())
    {
      var lease := leases[id];
      if lease.vif.Some? {
        return Err(AlreadyAttached);
      }
      leases := leases[id := lease.(vif := Some(vif))];
      if lease.handle.Some? && lease.handle.value < |handles| && handles[lease.handle.value].expiresAt.Some? {
        handles := handles[lease.handle.value := handles[lease.handle.value].(expiresAt := None)];
      }
      r := Ok(());
    }

    method Detach(id: nat, now: int) returns (r: Result<(), LeaseError>)
      requires id < |leases|
      modifies this
      ensures match DetachVif(cfg, old(State()), id, now)
              case Ok(db) => r == Ok(()) && State() == db
              case Err(e) => r == Err(e) && State() == old(State())
    {
      var lease := leases[id];
      if lease.vif.None? {
        return Err(NotAttached);
      }
      leases := leases[id := lease.(vif := None)];
      if lease.handle.Some? && lease.handle.value < |handles| {
        var handle := handles[lease.handle.value];
        if handle.pool in cfg.pools && cfg.pools[handle.pool].expireReleased.Some? {
          handles := handles[lease.handle.value :=
            handle.(expiresAt := Some(now + cfg.pools[handle.pool].expireReleased.value))];
        }
      }
      r := Ok(());
    }

    method Add(vif: nat, network: Option<nat>, id: nat, allowMultiple: bool) returns (ok: bool)
      requires id < |leases|
      modifies this
      ensures match AddIpLease(old(State()), vif, network, id, allowMultiple)
              case Some(db) => ok && State() == db
              case None => !ok && State() == old(State())
    {
      if !allowMultiple && exists l :: l in leases && l.vif == Some(vif) && Some(l.network) == network && l.Alive() {
        return false;
      }
      if leases[id].vif.Some? || Some(leases[id].network) != network {
        return false;
      }
      var r := Attach(id, vif);
      ok := true;
    }

    method Remove(vif: nat, id: nat, now: int) returns (ok: bool)
      requires id < |leases|
      modifies this
      ensures match RemoveIpLease(cfg, old(State()), vif, id, now)
              case Some(db) => ok && State() == db
              case None => !ok && State() == old(State())
    {
      if leases[id].vif != Some(vif) {
        return false;
      }
      if HandleAlive(State(), leases[id]) {
        var r := Detach(id, now);
      } else {
        Destroy(id, now);
      }
      ok := true;
    }

    method AcquireLease(pool: nat, lease: Lease, now: int) returns (r: Result<nat, LeaseError>)
      modifies this
      ensures match Acquire(cfg, old(State()), pool, lease, now)
              case Ok(db) => r == Ok(|old(leases)|) && State() == db
              case Err(e) => r == Err(e) && State() == old(State())
    {
      if pool !in cfg.pools {
        return Err(UnknownPool);
      }
      var before := handles;
      var handle := Handle(pool, None, None);
      if cfg.pools[pool].expireInitial.Some? {
        handle := handle.(expiresAt := Some(now + cfg.pools[pool].expireInitial.value));
      }
      handles := handles + [handle];
      r := Create(lease.(handle := Some(|before|)));
      if r.Err? {
        handles := before;
      }
    }

    /** Destroys every selected row, deleted rows included. */
    method DestroyRows(ids: seq<nat>, now: int)
      requires Within(ids, |leases|)
      modifies this
      ensures State() == DestroyAll(old(State()), ids, now)
    {
      for k := 0 to |ids|
        invariant State() == DestroyAll(old(State()), ids[..k], now)
      {
        assert ids[..k + 1][..k] == ids[..k];
        Destroy(ids[k], now);
      }
      assert ids[..|ids|] == ids;
    }

    method ReleaseIpLease(vif: nat, now: int)
      modifies this
      ensures State() == DestroyAll(old(State()), VifRows(old(State()), vif), now)
      ensures DestroysExactly(old(State()), State(), (l: Lease) => l.vif == Some(vif), now)
    {
      DestroySelected(State(), VifRows(State(), vif), (l: Lease) => l.vif == Some(vif), now);
      DestroyRows(VifRows(State(), vif), now);
    }

    method DeleteReserved(network: nat, ipv4: int, now: int)
      modifies this
      ensures State() == DestroyAll(old(State()), ReservedRows(old(State()), network, ipv4), now)
      ensures DestroysExactly(old(State()), State(),
                              (l: Lease) => l.reserved && l.network == network && l.ipv4 == ipv4, now)
    {
      DestroySelected(State(), ReservedRows(State(), network, ipv4),
                      (l: Lease) => l.reserved && l.network == network && l.ipv4 == ipv4, now);
      DestroyRows(ReservedRows(State(), network, ipv4), now);
    }

    method DestroyIpHandle(h: nat, now: int) returns (r: Result<(), LeaseError>)
      requires h < |handles|
      modifies this
      ensures match DestroyHandle(old(State()), h, now)
              case Ok(db) => r == Ok(()) && State() == db
              case Err(e) => r == Err(e) && State() == old(State())
    {
      var lease, handle := LeaseOf(leases, h), handles[h];
      if handle.deletedAt.None? && lease.None? {
        return Err(NoLease);
      }
      var attached := lease.Some? && leases[lease.value].vif.Some?;
      if lease.Some? && !attached {
        Destroy(lease.value, now);
      }
      if handle.deletedAt.None? {
        handle := handle.(deletedAt := Some(now));
        if attached {
          handle := handle.(expiresAt := None);
        }
        handles := handles[h := handle];
      }
      r := Ok(());
    }

    /** Each handle is dropped on its own: an error leaves the earlier ones dropped. */
    method DropHandles(hs: seq<nat>, now: int) returns (r: Result<(), LeaseError>)
      requires Within(hs, |handles|)
      modifies this
      ensures match DestroyHandles(old(State()), hs, now)
              case Ok(db) => r == Ok(()) && State() == db
              case Err(e) => r == Err(e) && exists k :: RaisedAt(old(State()), hs, k, now, State())
    {
      for k := 0 to |hs|
        invariant DestroyHandles(old(State()), hs[..k], now) == Ok(State())
      {
        assert hs[..k + 1][..k] == hs[..k];
        r := DestroyIpHandle(hs[k], now);
        if r.Err? {
          assert RaisedAt(old(State()), hs, k, now, State());
          FirstErrorWins(old(State()), hs, k + 1, now);
          return;
        }
      }
      assert hs[..|hs|] == hs;
      r := Ok(());
    }

    method Expire(now: int) returns (r: Result<(), LeaseError>)
      modifies this
      ensures match ExpireHandles(old(State()), now)
              case Ok(db) => r == Ok(()) && State() == db
              case Err(e) => && r == Err(e)
                             && exists k :: RaisedAt(old(State()), ExpirableFrom(old(State()), |old(handles)|, now), k, now, State())
    {
      r := DropHandles(ExpirableFrom(State(), |handles|, now), now);
    }
  }

  lemma {:induction false} FirstErrorWins(db: Db, hs: seq<nat>, k: nat, now: int)
    requires k <= |hs| && Within(hs, |db.handles|) && DestroyHandles(db, hs[..k], now).Err?
    ensures DestroyHandles(db, hs, now) == DestroyHandles(db, hs[..k], now)
    decreases |hs|
  {
    if k == |hs| {
      assert hs[..k] == hs;
    } else {
      assert hs[..|hs| - 1][..k] == hs[..k];
      FirstErrorWins(db, hs[..|hs| - 1], k, now);
    }
  }
}
