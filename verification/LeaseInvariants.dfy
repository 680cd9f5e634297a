/** What every run of lease and handle operations keeps: no address leaks, expiry touches only
    unattached leases past their time, and when the index agrees with the alive leases. */
module LeaseInvariants {
  import opened Wrappers
  import opened DynamicRanges
  import opened LeaseLifecycle

  datatype Event =
    | Assign(network: nat, ipv4: int, vif: nat)
    | Reserve(network: nat, ipv4: int, forVif: Option<nat>)
    | AcquireIp(pool: nat, network: nat, ipv4: int, atVif: Option<nat>, now: int)
    | Add(vif: nat, vifNetwork: Option<nat>, id: nat, allowMultiple: bool)
    | Remove(vif: nat, id: nat, now: int)
    | Release(vif: nat, now: int)
    | FreeReserved(network: nat, ipv4: int, now: int)
    | SetExpiry(h: nat, t: int)
    | DropHandle(h: nat, now: int)
    | Expire(now: int)

  function OrElse(r: Option<Db>, e: LeaseError): Result<Db, LeaseError> {
    if r.Some? then Ok(r.value) else Err(e)
  }

  /** One transaction; a refusal is an error and changes nothing. (Expire drops each handle on its
      own, but is never refused: see StepSound.) */
  function Step(cfg: Config, db: Db, e: Event): Result<Db, LeaseError> {
    match e
    case Assign(network, ipv4, vif) => CreateLease(cfg, db, Lease(network, ipv4, Some(vif), None, false, None))
    case Reserve(network, ipv4, vif) => CreateLease(cfg, db, Lease(network, ipv4, vif, None, true, None))
    case AcquireIp(pool, network, ipv4, vif, now) =>
      Acquire(cfg, db, pool, Lease(network, ipv4, vif, None, false, None), now)
    case Add(vif, network, id, allowMultiple) =>
      if id >= |db.leases| then Err(UnknownRow)
      else OrElse(AddIpLease(db, vif, network, id, allowMultiple), AlreadyAttached)
    case Remove(vif, id, now) =>
      if id < |db.leases| then OrElse(RemoveIpLease(cfg, db, vif, id, now), NotAttached) else Err(UnknownRow)
    case Release(vif, now) => Ok(DestroyAll(db, VifRows(db, vif), now))
    case FreeReserved(network, ipv4, now) => Ok(DestroyAll(db, ReservedRows(db, network, ipv4), now))
    case SetExpiry(h, t) =>
      if h >= |db.handles| then Err(UnknownRow)
      else if LeaseOf(db.leases, h).None? then Err(NoLease)
      else if db.leases[LeaseOf(db.leases, h).value].vif.Some? then Err(AlreadyAttached)
      else Ok(SetExpiresAt(db, h, Some(t)))
    case DropHandle(h, now) => if h < |db.handles| then DestroyHandle(db, h, now) else Err(UnknownRow)
    case Expire(now) => ExpireHandles(db, now)
  }

  /** The rows on which a step runs `destroy`. */
  function Destroyed(db: Db, e: Event): (ids: seq<nat>)
    ensures Within(ids, |db.leases|)
  {
    match e
    case Remove(vif, id, _) =>
      if id < |db.leases| && db.leases[id].vif == Some(vif) && !HandleAlive(db, db.leases[id]) then [id] else []
    case Release(vif, _) => VifRows(db, vif)
    case FreeReserved(network, ipv4, _) => ReservedRows(db, network, ipv4)
    case DropHandle(h, _) => LeasesDropped(db, [h])
    case Expire(now) => LeasesDropped(db, ExpirableFrom(db, |db.handles|, now))
    case _ => []
  }

  /** The unattached leases of the handles. */
  function LeasesDropped(db: Db, hs: seq<nat>): (ids: seq<nat>)
    ensures Within(ids, |db.leases|)
    ensures forall i: nat :: (i in ids <==> i < |db.leases| && db.leases[i].vif.None?
                                            && exists h :: h in hs && LeaseOf(db.leases, h) == Some(i))
  {
    if hs == [] then []
    else
      var n := |hs| - 1;
      var lease := LeaseOf(db.leases, hs[n]);
      assert forall h :: h in hs <==> h == hs[n] || h in hs[..n];
      LeasesDropped(db, hs[..n])
      + if lease.Some? && db.leases[lease.value].vif.None? then [lease.value] else []
  }

  // ----- index agreement -----

  predicate Holds(lease: Lease, pair: (nat, int)) {
    lease.Alive() && lease.Pair() == pair
  }

  /** The index holds exactly the pairs of the alive leases, and no two of those share one. */
  ghost predicate Agreement(db: Db) {
    && (forall p :: p in db.index <==> exists i :: 0 <= i < |db.leases| && Holds(db.leases[i], p))
    && (forall i, j :: 0 <= i < j < |db.leases| && db.leases[i].Alive() && db.leases[j].Alive() ==>
          db.leases[i].Pair() != db.leases[j].Pair())
  }

  /** No row being destroyed is already deleted while another, surviving row has its address. */
  predicate NoStaleRow(db: Db, ids: seq<nat>)
    requires Within(ids, |db.leases|)
  {
    forall k, j: nat :: 0 <= k < |ids| && j < |db.leases| && j !in ids ==>
      !(!db.leases[ids[k]].Alive() && Holds(db.leases[j], db.leases[ids[k]].Pair()))
  }

  /** Destroying rows keeps the index in agreement exactly when no stale row is among them. */
  lemma {:induction false} DestroyAllAgreement(db: Db, ids: seq<nat>, now: int)
    requires Agreement(db) && Within(ids, |db.leases|)
    ensures Agreement(DestroyAll(db, ids, now)) <==> NoStaleRow(db, ids)
  {
    var r := DestroyAll(db, ids, now);
    DestroyAllEffect(db, ids, now);
    if Agreement(r) {
      forall k, j: nat | 0 <= k < |ids| && j < |db.leases| && j !in ids
        ensures !(!db.leases[ids[k]].Alive() && Holds(db.leases[j], db.leases[ids[k]].Pair()))
      {
        var p := db.leases[ids[k]].Pair();
        assert p !in r.index;
        assert !Holds(r.leases[j], p);
      }
    }
    if NoStaleRow(db, ids) {
      forall p ensures p in r.index <==> exists i :: 0 <= i < |r.leases| && Holds(r.leases[i], p) {
        if p in r.index {
          var i :| 0 <= i < |db.leases| && Holds(db.leases[i], p);
          assert i !in ids;
          assert Holds(r.leases[i], p);
        }
        if i :| 0 <= i < |r.leases| && Holds(r.leases[i], p) {
          assert i !in ids && Holds(db.leases[i], p);
          forall k | 0 <= k < |ids| ensures db.leases[ids[k]].Pair() != p {
            assert ids[k] in ids && ids[k] != i;
          }
        }
      }
    }
  }

  lemma {:induction false} SameHandlesSameLease(a: seq<Lease>, b: seq<Lease>, h: nat)
    requires |a| == |b| && forall i :: 0 <= i < |a| ==> a[i].handle == b[i].handle
    ensures LeaseOf(a, h) == LeaseOf(b, h)
  {
    if a != [] {
      SameHandlesSameLease(a[..|a| - 1], b[..|b| - 1], h);
    }
  }

  /** Dropping handles destroys their unattached leases and touches no other lease. */
  lemma {:induction false} DroppingHandles(db: Db, hs: seq<nat>, now: int)
    requires Within(hs, |db.handles|) && DestroyHandles(db, hs, now).Ok?
    ensures var r, gone := DestroyHandles(db, hs, now).value, DestroyAll(db, LeasesDropped(db, hs), now);
            r.leases == gone.leases && r.index == gone.index
  {
    if hs != [] {
      var n := |hs| - 1;
      DroppingHandles(db, hs[..n], now);
      var ids := LeasesDropped(db, hs[..n]);
      var before, gone := DestroyHandles(db, hs[..n], now).value, DestroyAll(db, ids, now);
      forall i | 0 <= i < |db.leases|
        ensures gone.leases[i].handle == db.leases[i].handle && gone.leases[i].vif == db.leases[i].vif
      {
        DestroyAllEffect(db, ids, now);
      }
      SameHandlesSameLease(db.leases, gone.leases, hs[n]);
      var lease := LeaseOf(db.leases, hs[n]);
      if lease.Some? && db.leases[lease.value].vif.None? {
        assert LeasesDropped(db, hs) == ids + [lease.value];
        DestroyOneMore(db, ids, lease.value, now);
      } else {
        assert LeasesDropped(db, hs) == ids;
      }
    }
  }

  lemma DestroyOneMore(db: Db, ids: seq<nat>, id: nat, now: int)
    requires Within(ids, |db.leases|) && id < |db.leases|
    ensures DestroyAll(db, ids + [id], now) == DestroyLease(DestroyAll(db, ids, now), id, now)
  {
    assert (ids + [id])[..|ids|] == ids;
  }

  predicate IsDestroying(e: Event) {
    e.Release? || e.FreeReserved? || e.DropHandle? || e.Expire?
  }

  lemma {:induction false} DestroyingStep(cfg: Config, db: Db, e: Event, now: int)
    requires IsDestroying(e) && Step(cfg, db, e).Ok? && now == e.now
    ensures var r, gone := Step(cfg, db, e).value, DestroyAll(db, Destroyed(db, e), now);
            r.leases == gone.leases && r.index == gone.index
  {
    if e.DropHandle? {
      assert DestroyHandles(db, [], e.now) == Ok(db);
      assert DestroyHandles(db, [e.h], e.now) == DestroyHandle(db, e.h, e.now);
      DroppingHandles(db, [e.h], e.now);
    } else if e.Expire? {
      DroppingHandles(db, ExpirableFrom(db, |db.handles|, e.now), e.now);
    }
  }

  lemma {:induction false} RemoveStep(cfg: Config, db: Db, e: Event)
    requires Agreement(db) && e.Remove? && Step(cfg, db, e).Ok?
    ensures Agreement(Step(cfg, db, e).value) <==> NoStaleRow(db, Destroyed(db, e))
  {
    if HandleAlive(db, db.leases[e.id]) {
      SameRowsAgree(db, Step(cfg, db, e).value);
    } else {
      DestroyOneMore(db, [], e.id, e.now);
      DestroyAllAgreement(db, [e.id], e.now);
    }
  }

  lemma {:induction false} OtherStep(cfg: Config, db: Db, e: Event)
    requires Agreement(db) && !IsDestroying(e) && !e.Remove? && Step(cfg, db, e).Ok?
    ensures Agreement(Step(cfg, db, e).value)
  {
    var r := Step(cfg, db, e).value;
    if e.Add? || e.SetExpiry? {
      SameRowsAgree(db, r);
    } else {
      NewRowAgrees(db, r);
    }
  }

  lemma AgreementOfTables(a: Db, b: Db)
    requires a.leases == b.leases && a.index == b.index
    ensures Agreement(a) <==> Agreement(b)
  {
  }

  /** Every step: the index stays in agreement exactly when the step destroys no stale row. */
  lemma {:induction false} StepAgreement(cfg: Config, db: Db, e: Event)
    requires Agreement(db) && Step(cfg, db, e).Ok?
    ensures Agreement(Step(cfg, db, e).value) <==> NoStaleRow(db, Destroyed(db, e))
  {
    if IsDestroying(e) {
      var now := e.now;
      DestroyingStep(cfg, db, e, now);
      DestroyAllAgreement(db, Destroyed(db, e), now);
      AgreementOfTables(Step(cfg, db, e).value, DestroyAll(db, Destroyed(db, e), now));
    } else if e.Remove? {
      RemoveStep(cfg, db, e);
    } else {
      OtherStep(cfg, db, e);
      assert Destroyed(db, e) == [];
    }
  }

  lemma SameRowsAgree(db: Db, r: Db)
    requires Agreement(db) && r.index == db.index && |r.leases| == |db.leases|
    requires forall i :: 0 <= i < |db.leases| ==>
      r.leases[i].Pair() == db.leases[i].Pair() && r.leases[i].Alive() == db.leases[i].Alive()
    ensures Agreement(r)
  {
    forall p ensures p in r.index <==> exists i :: 0 <= i < |r.leases| && Holds(r.leases[i], p) {
      if i :| 0 <= i < |db.leases| && Holds(db.leases[i], p) {
        assert Holds(r.leases[i], p);
      }
      if i :| 0 <= i < |r.leases| && Holds(r.leases[i], p) {
        assert Holds(db.leases[i], p);
      }
    }
  }

  lemma NewRowAgrees(db: Db, r: Db)
    requires Agreement(db) && |r.leases| == |db.leases| + 1 && r.leases[..|db.leases|] == db.leases
    requires var lease := r.leases[|db.leases|];
             lease.Alive() && lease.Pair() !in db.index && r.index == db.index + {lease.Pair()}
    ensures Agreement(r)
  {
    var n := |db.leases|;
    forall i | 0 <= i < n ensures r.leases[i] == db.leases[i] && !Holds(db.leases[i], r.leases[n].Pair()) {
      assert r.leases[..n][i] == db.leases[i];
    }
    forall p ensures p in r.index <==> exists i :: 0 <= i < |r.leases| && Holds(r.leases[i], p) {
      assert Holds(r.leases[n], r.leases[n].Pair());
      if i :| 0 <= i < n && Holds(db.leases[i], p) {
        assert Holds(r.leases[i], p);
      }
    }
  }

  // ----- whole runs -----

  /** A refused step changes nothing. */
  function Next(cfg: Config, db: Db, e: Event): Db {
    var r := Step(cfg, db, e);
    if r.Ok? then r.value else db
  }

  /** The tables after the first n steps of a run. */
  function After(cfg: Config, events: seq<Event>, n: nat): Db
    requires n <= |events|
  {
    if n == 0 then Db([], {}, []) else Next(cfg, After(cfg, events, n - 1), events[n - 1])
  }

  /** The step at position i is refused or destroys no stale row. */
  predicate Fresh(cfg: Config, events: seq<Event>, i: nat)
    requires i < |events|
  {
    var db := After(cfg, events, i);
    Step(cfg, db, events[i]).Ok? ==> NoStaleRow(db, Destroyed(db, events[i]))
  }

  predicate FreshThroughout(cfg: Config, events: seq<Event>, n: nat)
    requires n <= |events|
  {
    n == 0 || (FreshThroughout(cfg, events, n - 1) && Fresh(cfg, events, n - 1))
  }

  ghost predicate AgreesThroughout(cfg: Config, events: seq<Event>, n: nat)
    requires n <= |events|
  {
    Agreement(After(cfg, events, n)) && (n == 0 || AgreesThroughout(cfg, events, n - 1))
  }

  /** In every run the index agrees all the way exactly when no step destroys a stale row. */
  lemma {:induction false} RunAgreement(cfg: Config, events: seq<Event>, n: nat)
    requires n <= |events|
    ensures AgreesThroughout(cfg, events, n) <==> FreshThroughout(cfg, events, n)
  {
    if n > 0 {
      RunAgreement(cfg, events, n - 1);
      if AgreesThroughout(cfg, events, n - 1) {
        AgreementStep(cfg, events, n - 1);
      }
    }
  }

  lemma {:induction false} AgreementStep(cfg: Config, events: seq<Event>, i: nat)
    requires i < |events| && Agreement(After(cfg, events, i))
    ensures Agreement(After(cfg, events, i + 1)) <==> Fresh(cfg, events, i)
  {
    if Step(cfg, After(cfg, events, i), events[i]).Ok? {
      StepAgreement(cfg, After(cfg, events, i), events[i]);
    }
  }

  /** A freed address can be leased again while its deleted row stays in the table. */
  lemma FreedCanBeLeasedAgain(cfg: Config, db: Db, id: nat, vif: nat, now: int)
    requires Agreement(db) && id < |db.leases| && db.leases[id].Alive()
    requires db.leases[id].network in cfg.networks
    requires cfg.networks[db.leases[id].network].subnet.Includes(db.leases[id].ipv4)
    ensures var lease := db.leases[id];
            var freed := DestroyAll(db, [id], now);
            var again := Step(cfg, freed, Assign(lease.network, lease.ipv4, vif));
            && Step(cfg, db, Assign(lease.network, lease.ipv4, vif)) == Err(AlreadyExists)
            && again.Ok? && Agreement(again.value) && again.value.leases[id] == lease.Deleted(now)
  {
    var lease := db.leases[id];
    assert Holds(lease, lease.Pair());
    DestroyAllEffect(db, [id], now);
    assert [id][0] == id;
    DestroyAllAgreement(db, [id], now);
    var freed := DestroyAll(db, [id], now);
    NewRowAgrees(freed, Step(cfg, freed, Assign(lease.network, lease.ipv4, vif)).value);
  }

  /** A concrete run: vif 1 gives up an address, vif 2 gets it, and the release of vif 1, which
      also destroys deleted rows, frees it a second time; vif 3 then leases it as well. */
  lemma StaleReleaseSharesAddress(cfg: Config, network: nat, ipv4: int)
    requires network in cfg.networks && cfg.networks[network].subnet.Includes(ipv4)
    ensures var run := [Assign(network, ipv4, 1), Remove(1, 0, 10), Assign(network, ipv4, 2), Release(1, 20),
                        Assign(network, ipv4, 3)];
            var db := After(cfg, run, 5);
            |db.leases| == 3 && db.leases[1].Alive() && db.leases[2].Alive()
            && db.leases[1].Pair() == db.leases[2].Pair() == (network, ipv4)
  {
    var run := [Assign(network, ipv4, 1), Remove(1, 0, 10), Assign(network, ipv4, 2), Release(1, 20),
                Assign(network, ipv4, 3)];
    var p := (network, ipv4);
    var l1, l2 := Lease(network, ipv4, Some(1), None, false, None), Lease(network, ipv4, Some(2), None, false, None);
    var d1, d2, d3 := After(cfg, run, 1), After(cfg, run, 2), After(cfg, run, 3);
    assert After(cfg, run, 0) == Db([], {}, []);
    assert d1 == Next(cfg, Db([], {}, []), run[0]);
    assert d1.leases == [l1];
    assert d1.index == {p};
    assert d2.leases == [l1.Deleted(10)] && d2.index == {};
    assert d3.leases == [l1.Deleted(10), l2] && d3.index == {p};
    var rows := VifRows(d3, 1);
    DestroyAllEffect(d3, rows, 20);
    assert 0 in rows && 1 !in rows;
    assert After(cfg, run, 4) == DestroyAll(d3, rows, 20);
  }

  // ----- no leaked address, safe expiry -----

  /** Every handle has exactly one lease row, and leases name existing handles. */
  ghost predicate OneLeasePerHandle(db: Db) {
    && (forall i :: 0 <= i < |db.leases| && db.leases[i].handle.Some? ==> db.leases[i].handle.value < |db.handles|)
    && (forall i, j :: 0 <= i < j < |db.leases| && db.leases[i].handle.Some? ==> db.leases[i].handle != db.leases[j].handle)
    && (forall h: nat :: h < |db.handles| ==> LeaseOf(db.leases, h).Some?)
  }

  predicate Owned(db: Db, lease: Lease) {
    lease.Alive() ==> lease.vif.Some? || HandleAlive(db, lease) || lease.reserved
  }

  /** Every alive lease is attached, or has an alive handle, or is reserved. */
  ghost predicate NoLeak(db: Db) {
    forall i :: 0 <= i < |db.leases| ==> Owned(db, db.leases[i])
  }

  predicate Unhurried(db: Db, lease: Lease) {
    HandleAlive(db, lease) && lease.vif.Some? ==> db.handles[lease.handle.value].expiresAt.None?
  }

  /** An alive handle whose lease is attached has no expiry time. */
  ghost predicate AttachedNeverExpire(db: Db) {
    forall i :: 0 <= i < |db.leases| ==> Unhurried(db, db.leases[i])
  }

  /** Every alive address has an owner, and handles and leases belong together. */
  ghost predicate Accounted(db: Db) {
    OneLeasePerHandle(db) && NoLeak(db)
  }

  /** From `db` to `r` no address is lost and no attached lease begins to expire. */
  ghost predicate Keeps(db: Db, r: Db) {
    Accounted(r) && (AttachedNeverExpire(db) ==> AttachedNeverExpire(r))
  }

  /** An acquire that attaches at once from a pool with an initial expiry: the handle was
      stamped before its lease existed. */
  predicate StampsAttached(cfg: Config, e: Event) {
    e.AcquireIp? && e.atVif.Some? && e.pool in cfg.pools && cfg.pools[e.pool].expireInitial.Some?
  }

  /** The tables differ from `db` only in lease states and handle times: handle links stay. */
  lemma {:induction false} LinksStay(db: Db, r: Db)
    requires OneLeasePerHandle(db) && |r.leases| == |db.leases| && |r.handles| == |db.handles|
    requires forall i :: 0 <= i < |db.leases| ==> r.leases[i].handle == db.leases[i].handle
    ensures OneLeasePerHandle(r)
  {
    forall h: nat | h < |db.handles| ensures LeaseOf(r.leases, h).Some? {
      SameHandlesSameLease(db.leases, r.leases, h);
    }
  }

  lemma {:induction false} LeaseAppended(leases: seq<Lease>, lease: Lease, h: nat)
    ensures LeaseOf(leases + [lease], h)
         == if LeaseOf(leases, h).Some? then LeaseOf(leases, h)
            else if lease.handle == Some(h) then Some(|leases|) else None
  {
    assert (leases + [lease])[..|leases|] == leases;
  }

  lemma {:induction false} NewLeaseSound(db: Db, r: Db, lease: Lease)
    requires Accounted(db) && lease.handle.None? && r.leases == db.leases + [lease] && r.handles == db.handles
    requires lease.vif.Some? || lease.reserved
    ensures Keeps(db, r)
  {
    forall h: nat | h < |r.handles| ensures LeaseOf(r.leases, h).Some? {
      LeaseAppended(db.leases, lease, h);
    }
    forall i | 0 <= i < |r.leases| ensures Owned(r, r.leases[i]) && (AttachedNeverExpire(db) ==> Unhurried(r, r.leases[i])) {
      if i < |db.leases| {
        assert Owned(db, db.leases[i]) && (AttachedNeverExpire(db) ==> Unhurried(db, db.leases[i]));
      }
    }
  }

  /** A new handle and its lease: attached leases still never expire unless the handle is
      stamped and the lease attached. */
  lemma {:induction false} AcquiredSound(db: Db, r: Db, lease: Lease, handle: Handle)
    requires Accounted(db) && lease.handle == Some(|db.handles|) && handle.Alive()
    requires r.leases == db.leases + [lease] && r.handles == db.handles + [handle]
    ensures Accounted(r)
    ensures AttachedNeverExpire(db) ==> (AttachedNeverExpire(r) <==> (lease.vif.Some? ==> handle.expiresAt.None?))
  {
    var n := |db.leases|;
    forall h: nat | h < |r.handles| ensures LeaseOf(r.leases, h).Some? {
      LeaseAppended(db.leases, lease, h);
    }
    forall i | 0 <= i < n ensures Owned(r, r.leases[i]) && (AttachedNeverExpire(db) ==> Unhurried(r, r.leases[i])) {
      assert Owned(db, db.leases[i]) && (AttachedNeverExpire(db) ==> Unhurried(db, db.leases[i]));
    }
    assert HandleAlive(r, r.leases[n]);
    assert Unhurried(r, r.leases[n]) <==> (lease.vif.Some? ==> handle.expiresAt.None?);
  }

  lemma {:induction false} AttachSound(db: Db, id: nat, vif: nat)
    requires Accounted(db) && id < |db.leases| && db.leases[id].vif.None?
    ensures Keeps(db, AttachVif(db, id, vif).value)
  {
    var r := AttachVif(db, id, vif).value;
    LinksStay(db, r);
    forall i | 0 <= i < |r.leases| ensures Owned(r, r.leases[i]) && (AttachedNeverExpire(db) ==> Unhurried(r, r.leases[i])) {
      assert Owned(db, db.leases[i]) && (AttachedNeverExpire(db) ==> Unhurried(db, db.leases[i]));
    }
  }

  lemma {:induction false} DetachSound(cfg: Config, db: Db, id: nat, now: int)
    requires Accounted(db) && id < |db.leases| && db.leases[id].vif.Some? && HandleAlive(db, db.leases[id])
    ensures Keeps(db, DetachVif(cfg, db, id, now).value)
  {
    var r := DetachVif(cfg, db, id, now).value;
    LinksStay(db, r);
    forall i | 0 <= i < |r.leases| ensures Owned(r, r.leases[i]) && (AttachedNeverExpire(db) ==> Unhurried(r, r.leases[i])) {
      assert Owned(db, db.leases[i]) && (AttachedNeverExpire(db) ==> Unhurried(db, db.leases[i]));
    }
  }

  lemma {:induction false} DestroyAllSound(db: Db, ids: seq<nat>, now: int)
    requires Accounted(db) && Within(ids, |db.leases|)
    ensures Keeps(db, DestroyAll(db, ids, now))
  {
    var r := DestroyAll(db, ids, now);
    DestroyAllEffect(db, ids, now);
    LinksStay(db, r);
    forall i | 0 <= i < |r.leases| ensures Owned(r, r.leases[i]) && (AttachedNeverExpire(db) ==> Unhurried(r, r.leases[i])) {
      assert Owned(db, db.leases[i]) && (AttachedNeverExpire(db) ==> Unhurried(db, db.leases[i]));
    }
  }

  lemma {:induction false} SetExpirySound(db: Db, h: nat, t: int)
    requires Accounted(db) && h < |db.handles| && db.leases[LeaseOf(db.leases, h).value].vif.None?
    ensures Keeps(db, SetExpiresAt(db, h, Some(t)))
  {
    var r := SetExpiresAt(db, h, Some(t));
    LinksStay(db, r);
    forall i | 0 <= i < |r.leases| ensures Owned(r, r.leases[i]) && (AttachedNeverExpire(db) ==> Unhurried(r, r.leases[i])) {
      assert Owned(db, db.leases[i]) && (AttachedNeverExpire(db) ==> Unhurried(db, db.leases[i]));
    }
  }

  /** A handle can always be dropped. */
  lemma {:induction false} DropSound(db: Db, h: nat, now: int)
    requires Accounted(db) && h < |db.handles|
    ensures DestroyHandle(db, h, now).Ok? && Keeps(db, DestroyHandle(db, h, now).value)
  {
    var lease := LeaseOf(db.leases, h).value;
    var r := DestroyHandle(db, h, now).value;
    LinksStay(db, r);
    forall i | 0 <= i < |r.leases| ensures Owned(r, r.leases[i]) && (AttachedNeverExpire(db) ==> Unhurried(r, r.leases[i])) {
      assert Owned(db, db.leases[i]) && (AttachedNeverExpire(db) ==> Unhurried(db, db.leases[i]));
      assert db.leases[i].handle == Some(h) ==> i == lease;
    }
  }

  lemma {:induction false} DropAllSound(db: Db, hs: seq<nat>, now: int)
    requires Accounted(db) && Within(hs, |db.handles|)
    ensures DestroyHandles(db, hs, now).Ok? && Keeps(db, DestroyHandles(db, hs, now).value)
  {
    if hs != [] {
      var n := |hs| - 1;
      DropAllSound(db, hs[..n], now);
      DropSound(DestroyHandles(db, hs[..n], now).value, hs[n], now);
    }
  }

  lemma {:induction false} AcquireStepSound(cfg: Config, db: Db, e: Event)
    requires Accounted(db) && e.AcquireIp? && Step(cfg, db, e).Ok?
    ensures Accounted(Step(cfg, db, e).value)
    ensures AttachedNeverExpire(db) ==> (AttachedNeverExpire(Step(cfg, db, e).value) <==> !StampsAttached(cfg, e))
  {
    var initial := cfg.pools[e.pool].expireInitial;
    AcquiredSound(db, Step(cfg, db, e).value, Lease(e.network, e.ipv4, e.atVif, Some(|db.handles|), false, None),
                  Handle(e.pool, if initial.Some? then Some(e.now + initial.value) else None, None));
  }

  lemma {:induction false} DropStepKeeps(cfg: Config, db: Db, e: Event)
    requires Accounted(db) && IsDestroying(e)
    ensures (e.DropHandle? && e.h >= |db.handles|) || (Step(cfg, db, e).Ok? && Keeps(db, Step(cfg, db, e).value))
  {
    match e
    case Release(vif, now) => DestroyAllSound(db, VifRows(db, vif), now);
    case FreeReserved(network, ipv4, now) => DestroyAllSound(db, ReservedRows(db, network, ipv4), now);
    case DropHandle(h, now) =>
      if h < |db.handles| {
        DropSound(db, h, now);
      }
    case Expire(now) => DropAllSound(db, ExpirableFrom(db, |db.handles|, now), now);
  }

  lemma {:induction false} RemoveStepKeeps(cfg: Config, db: Db, e: Event)
    requires Accounted(db) && e.Remove? && Step(cfg, db, e).Ok?
    ensures Keeps(db, Step(cfg, db, e).value)
  {
    if HandleAlive(db, db.leases[e.id]) {
      DetachSound(cfg, db, e.id, e.now);
    } else {
      DestroyOneMore(db, [], e.id, e.now);
      DestroyAllSound(db, [e.id], e.now);
    }
  }

  lemma {:induction false} RowStepKeeps(cfg: Config, db: Db, e: Event)
    requires Accounted(db) && (e.Assign? || e.Reserve? || e.Add? || e.SetExpiry?) && Step(cfg, db, e).Ok?
    ensures Keeps(db, Step(cfg, db, e).value)
  {
    match e
    case Assign(network, ipv4, vif) =>
      NewLeaseSound(db, Step(cfg, db, e).value, Lease(network, ipv4, Some(vif), None, false, None));
    case Reserve(network, ipv4, vif) =>
      NewLeaseSound(db, Step(cfg, db, e).value, Lease(network, ipv4, vif, None, true, None));
    case Add(vif, _, id, _) => AttachSound(db, id, vif);
    case SetExpiry(h, t) => SetExpirySound(db, h, t);
  }

  /** Every step keeps the addresses accounted for, and keeps attached leases from expiring save
      exactly an acquire that attaches at once from a pool with an initial expiry. Expiring and
      dropping handles never fail. */
  lemma {:induction false} StepSound(cfg: Config, db: Db, e: Event)
    requires Accounted(db)
    ensures e.Expire? || (e.DropHandle? && e.h < |db.handles|) ==> Step(cfg, db, e).Ok?
    ensures Step(cfg, db, e).Ok? ==> Accounted(Step(cfg, db, e).value)
    ensures Step(cfg, db, e).Ok? && AttachedNeverExpire(db) ==>
              (AttachedNeverExpire(Step(cfg, db, e).value) <==> !StampsAttached(cfg, e))
  {
    if IsDestroying(e) {
      DropStepKeeps(cfg, db, e);
    } else if Step(cfg, db, e).Ok? {
      if e.AcquireIp? {
        AcquireStepSound(cfg, db, e);
      } else if e.Remove? {
        RemoveStepKeeps(cfg, db, e);
      } else {
        RowStepKeeps(cfg, db, e);
      }
    }
  }

  /** Releasing a vif deletes exactly its rows, and freeing a reserved address exactly the reserved
      rows of that address, with their addresses; all other rows stay. */
  lemma {:induction false} ReleaseDestroysExactly(cfg: Config, db: Db, e: Event)
    requires e.Release? || e.FreeReserved?
    ensures var r := Step(cfg, db, e);
            && r.Ok?
            && DestroysExactly(db, r.value, (l: Lease) => if e.Release? then l.vif == Some(e.vif)
                                                          else l.reserved && l.network == e.network && l.ipv4 == e.ipv4,
                               e.now)
  {
    var doomed := (l: Lease) => if e.Release? then l.vif == Some(e.vif)
                                else l.reserved && l.network == e.network && l.ipv4 == e.ipv4;
    DestroySelected(db, Destroyed(db, e), doomed, e.now);
  }

  /** In every run: no alive address is ever without an owner. */
  lemma {:induction false} RunAccounted(cfg: Config, events: seq<Event>, n: nat)
    requires n <= |events|
    ensures Accounted(After(cfg, events, n))
  {
    if n > 0 {
      RunAccounted(cfg, events, n - 1);
      NextAccounted(cfg, After(cfg, events, n - 1), events[n - 1]);
    }
  }

  lemma NextAccounted(cfg: Config, db: Db, e: Event)
    requires Accounted(db)
    ensures Accounted(Next(cfg, db, e))
  {
    StepSound(cfg, db, e);
  }

  /** None of the first n steps is an accepted acquire that stamps an attached lease. */
  predicate StampsNothing(cfg: Config, events: seq<Event>, n: nat)
    requires n <= |events|
  {
    n == 0 || (&& StampsNothing(cfg, events, n - 1)
               && !(Step(cfg, After(cfg, events, n - 1), events[n - 1]).Ok? && StampsAttached(cfg, events[n - 1])))
  }

  ghost predicate NeverExpireThroughout(cfg: Config, events: seq<Event>, n: nat)
    requires n <= |events|
  {
    AttachedNeverExpire(After(cfg, events, n)) && (n == 0 || NeverExpireThroughout(cfg, events, n - 1))
  }

  /** In every run attached leases are free of expiry all the way exactly when no accepted step
      is such an acquire. */
  lemma {:induction false} RunNeverExpires(cfg: Config, events: seq<Event>, n: nat)
    requires n <= |events|
    ensures NeverExpireThroughout(cfg, events, n) <==> StampsNothing(cfg, events, n)
  {
    if n > 0 {
      RunNeverExpires(cfg, events, n - 1);
      RunAccounted(cfg, events, n - 1);
      StepSound(cfg, After(cfg, events, n - 1), events[n - 1]);
    }
  }

  /** The one-step run that fails: the lease is attached and its alive handle expires. */
  lemma StampedAcquireExpires(cfg: Config, pool: nat, network: nat, ipv4: int, vif: nat, now: int)
    requires network in cfg.networks && cfg.networks[network].subnet.Includes(ipv4)
    requires pool in cfg.pools && cfg.networks[network].dcNetwork in cfg.pools[pool].dcNetworks
    requires cfg.pools[pool].expireInitial.Some?
    ensures var run := [AcquireIp(pool, network, ipv4, Some(vif), now)];
            var db := After(cfg, run, 1);
            && |db.leases| == |db.handles| == 1 && db.leases[0].vif == Some(vif) && HandleAlive(db, db.leases[0])
            && db.handles[0].expiresAt == Some(now + cfg.pools[pool].expireInitial.value)
            && !AttachedNeverExpire(db)
  {
    var run := [AcquireIp(pool, network, ipv4, Some(vif), now)];
    assert After(cfg, run, 0) == Db([], {}, []);
    var db := After(cfg, run, 1);
    assert db == Next(cfg, Db([], {}, []), run[0]);
    assert !Unhurried(db, db.leases[0]);
  }

  lemma {:induction false} DroppedByHandle(db: Db, hs: seq<nat>, i: nat)
    requires OneLeasePerHandle(db) && i < |db.leases|
    ensures var lease := db.leases[i];
            i in LeasesDropped(db, hs) <==> lease.vif.None? && lease.handle.Some? && lease.handle.value in hs
  {
    var lease := db.leases[i];
    if lease.handle.Some? {
      assert LeaseOf(db.leases, lease.handle.value) == Some(i);
    }
  }

  /** The handle of the lease is alive and past its time, and no vif uses the lease. */
  predicate PastItsTime(db: Db, lease: Lease, now: int) {
    && lease.vif.None? && HandleAlive(db, lease)
    && db.handles[lease.handle.value].expiresAt.Some?
    && db.handles[lease.handle.value].expiresAt.value <= now
  }

  lemma {:induction false} ExpiredLease(db: Db, now: int, i: nat)
    requires Accounted(db) && i < |db.leases|
    ensures ExpireHandles(db, now).Ok?
    ensures ExpireHandles(db, now).value.leases[i]
         == if PastItsTime(db, db.leases[i], now) then db.leases[i].Deleted(now) else db.leases[i]
  {
    var hs := ExpirableFrom(db, |db.handles|, now);
    DropAllSound(db, hs, now);
    DroppingHandles(db, hs, now);
    DestroyAllEffect(db, LeasesDropped(db, hs), now);
    DroppedByHandle(db, hs, i);
    if db.leases[i].vif.None? && db.leases[i].handle.Some? {
      ExpirableByLease(db, i, now);
    }
  }

  lemma {:induction false} ExpirableByLease(db: Db, i: nat, now: int)
    requires OneLeasePerHandle(db) && i < |db.leases| && db.leases[i].vif.None? && db.leases[i].handle.Some?
    ensures Expirable(db, db.leases[i].handle.value, now) <==> PastItsTime(db, db.leases[i], now)
  {
    assert LeaseOf(db.leases, db.leases[i].handle.value) == Some(i);
  }

  /** In every state of every run, expiry succeeds, deletes exactly the unattached leases of
      alive handles past their time, and touches no other lease. */
  lemma {:induction false} ExpiryIsSafe(cfg: Config, events: seq<Event>, n: nat, now: int, i: nat)
    requires n <= |events| && i < |After(cfg, events, n).leases|
    ensures var db := After(cfg, events, n);
            && ExpireHandles(db, now).Ok?
            && ExpireHandles(db, now).value.leases[i]
               == if PastItsTime(db, db.leases[i], now) then db.leases[i].Deleted(now) else db.leases[i]
  {
    RunAccounted(cfg, events, n);
    ExpiredLease(After(cfg, events, n), now, i);
  }

  /** In every state of every run, expiry marks exactly the expirable handles and leaves every
      expiry time alone. */
  lemma {:induction false} ExpiryMarksHandles(cfg: Config, events: seq<Event>, n: nat, now: int, h: nat)
    requires n <= |events| && h < |After(cfg, events, n).handles|
    ensures var db := After(cfg, events, n);
            && ExpireHandles(db, now).Ok?
            && ExpireHandles(db, now).value.handles[h]
               == if Expirable(db, h, now) then db.handles[h].(deletedAt := Some(now)) else db.handles[h]
  {
    var db := After(cfg, events, n);
    RunAccounted(cfg, events, n);
    DropsMark(db, ExpirableFrom(db, |db.handles|, now), now, h);
  }

  lemma {:induction false} DropsMark(db: Db, hs: seq<nat>, now: int, h: nat)
    requires Accounted(db) && h < |db.handles| && Within(hs, |db.handles|)
    requires forall k :: 0 <= k < |hs| ==> Expirable(db, hs[k], now)
    ensures DestroyHandles(db, hs, now).Ok?
    ensures DestroyHandles(db, hs, now).value.handles[h]
         == if h in hs then db.handles[h].(deletedAt := Some(now)) else db.handles[h]
  {
    DropAllSound(db, hs, now);
    if hs != [] {
      var n := |hs| - 1;
      DropsMark(db, hs[..n], now, h);
      DroppingHandles(db, hs[..n], now);
      var ids, before := LeasesDropped(db, hs[..n]), DestroyHandles(db, hs[..n], now).value;
      forall i | 0 <= i < |db.leases|
        ensures before.leases[i].handle == db.leases[i].handle && before.leases[i].vif == db.leases[i].vif
      {
        DestroyAllEffect(db, ids, now);
      }
      SameHandlesSameLease(db.leases, before.leases, hs[n]);
      assert Expirable(db, hs[n], now);
    }
  }

  // ----- creating, attaching, detaching and acquiring -----

  /** A lease is created exactly when its address is one of the network's, no alive lease has
      it, and the pool of its handle serves the network; the new row is then the only change. */
  lemma {:induction false} CreateAccepts(cfg: Config, db: Db, lease: Lease)
    requires Agreement(db)
    ensures var r := CreateLease(cfg, db, lease);
            && (r.Ok? <==>
                  && lease.network in cfg.networks
                  && (var net := cfg.networks[lease.network].subnet; net.NetworkAddress() <= lease.ipv4 <= net.Broadcast())
                  && (forall i :: 0 <= i < |db.leases| ==> !Holds(db.leases[i], lease.Pair()))
                  && (lease.handle.Some? ==>
                        && lease.handle.value < |db.handles|
                        && var pool := db.handles[lease.handle.value].pool;
                           pool in cfg.pools && cfg.networks[lease.network].dcNetwork in cfg.pools[pool].dcNetworks))
            && (r.Ok? ==> r.value == Db(db.leases + [lease], db.index + {lease.Pair()}, db.handles))
            && (r == Err(OutOfRange) <==>
                  lease.network in cfg.networks ==>
                    var net := cfg.networks[lease.network].subnet; !(net.NetworkAddress() <= lease.ipv4 <= net.Broadcast()))
            && (r == Err(AlreadyExists) ==> exists i :: 0 <= i < |db.leases| && Holds(db.leases[i], lease.Pair()))
  {
    if lease.network in cfg.networks {
      UsableMeansBetween(cfg.networks[lease.network].subnet, lease.ipv4);
    }
  }

  /** An address is acquired exactly when the pool is known and serves the network, the address
      is one of the network's, and no alive lease has it. */
  lemma {:induction false} AcquireAccepts(cfg: Config, db: Db, pool: nat, lease: Lease, now: int)
    requires Agreement(db)
    ensures Acquire(cfg, db, pool, lease, now).Ok? <==>
              && pool in cfg.pools && lease.network in cfg.networks
              && (var net := cfg.networks[lease.network].subnet; net.NetworkAddress() <= lease.ipv4 <= net.Broadcast())
              && (forall i :: 0 <= i < |db.leases| ==> !Holds(db.leases[i], lease.Pair()))
              && cfg.networks[lease.network].dcNetwork in cfg.pools[pool].dcNetworks
  {
    if pool in cfg.pools {
      var initial := cfg.pools[pool].expireInitial;
      var handle := Handle(pool, if initial.Some? then Some(now + initial.value) else None, None);
      var with := db.(handles := db.handles + [handle]);
      AgreementOfTables(db, with);
      CreateAccepts(cfg, with, lease.(handle := Some(|db.handles|)));
    }
  }

  /** Only a free lease can be attached and only an attached one detached; detaching undoes
      attaching in the lease rows and the index, and attaching stops the expiry of the handle. */
  lemma {:induction false} DetachUndoesAttach(cfg: Config, db: Db, id: nat, vif: nat, now: int)
    requires id < |db.leases|
    ensures var attached, lease := AttachVif(db, id, vif), db.leases[id];
            && (attached.Ok? <==> lease.vif.None?) && (DetachVif(cfg, db, id, now).Ok? <==> lease.vif.Some?)
            && (attached.Ok? ==>
                  && attached.value.leases == db.leases[id := lease.(vif := Some(vif))]
                  && attached.value.index == db.index && |attached.value.handles| == |db.handles|
                  && (forall h: nat :: h < |db.handles| ==>
                        attached.value.handles[h]
                        == if lease.handle == Some(h) then db.handles[h].(expiresAt := None) else db.handles[h])
                  && var r := DetachVif(cfg, attached.value, id, now);
                     r.Ok? && r.value.leases == db.leases && r.value.index == db.index)
  {
  }

  /** An expiry time set on an unattached lease's handle ends the lease in the first expiry run
      from that time on, and not before. */
  lemma {:induction false} SetExpiryTakesEffect(cfg: Config, db: Db, h: nat, t: int, now: int, i: nat)
    requires Accounted(db) && h < |db.handles| && db.handles[h].Alive()
    requires i < |db.leases| && db.leases[i].handle == Some(h)
    ensures var r := Step(cfg, db, SetExpiry(h, t));
            && (r.Ok? <==> db.leases[i].vif.None?)
            && (r.Ok? ==>
                  && ExpireHandles(r.value, now).Ok?
                  && ExpireHandles(r.value, now).value.leases[i]
                     == if t <= now then db.leases[i].Deleted(now) else db.leases[i])
  {
    assert LeaseOf(db.leases, h) == Some(i);
    if db.leases[i].vif.None? {
      SetExpirySound(db, h, t);
      ExpiredLease(SetExpiresAt(db, h, Some(t)), now, i);
    }
  }

  /** Dropping a handle deletes its lease and frees the address unless a vif uses it; an alive
      handle is marked, and loses its expiry if a vif uses the lease. Nothing else changes. */
  lemma {:induction false} DropEffect(db: Db, h: nat, now: int, i: nat)
    requires OneLeasePerHandle(db) && h < |db.handles| && i < |db.leases| && db.leases[i].handle == Some(h)
    ensures var r, lease, handle := DestroyHandle(db, h, now), db.leases[i], db.handles[h];
            && r.Ok?
            && r.value.leases == (if lease.vif.Some? || lease.deletedAt.Some? then db.leases
                                  else db.leases[i := lease.(deletedAt := Some(now))])
            && r.value.index == (if lease.vif.Some? then db.index else db.index - {lease.Pair()})
            && r.value.handles == (if handle.deletedAt.Some? then db.handles
                                   else db.handles[h := Handle(handle.pool,
                                                               if lease.vif.Some? then None else handle.expiresAt,
                                                               Some(now))])
  {
    assert LeaseOf(db.leases, h) == Some(i);
  }

  /** A vif gets a lease exactly when the lease is free and of the vif's network, and the vif
      has none there yet or may have several; the handle then stops expiring. */
  lemma AddEffect(db: Db, vif: nat, network: Option<nat>, id: nat, allowMultiple: bool)
    requires id < |db.leases|
    ensures var r := AddIpLease(db, vif, network, id, allowMultiple);
            && (r.Some? <==>
                  && db.leases[id].vif.None? && Some(db.leases[id].network) == network
                  && (allowMultiple || forall l :: l in db.leases ==>
                        !(l.vif == Some(vif) && Some(l.network) == network && l.Alive())))
            && (r.Some? ==>
                  && r.value.index == db.index && r.value.leases == db.leases[id := db.leases[id].(vif := Some(vif))]
                  && (forall h: nat :: h < |db.handles| ==>
                        r.value.handles[h] == if db.leases[id].handle == Some(h) then db.handles[h].(expiresAt := None)
                                              else db.handles[h]))
  {
  }

  /** Taking a lease off its vif keeps it for an alive handle, which starts to expire when its
      pool says so; without one the lease is destroyed and its address freed. */
  lemma RemoveEffect(cfg: Config, db: Db, vif: nat, id: nat, now: int)
    requires id < |db.leases|
    ensures var r, lease := RemoveIpLease(cfg, db, vif, id, now), db.leases[id];
            && (r.Some? <==> lease.vif == Some(vif))
            && (r.Some? && HandleAlive(db, lease) ==>
                  var h := lease.handle.value;
                  var pool := db.handles[h].pool;
                  && r.value.index == db.index && r.value.leases == db.leases[id := lease.(vif := None)]
                  && r.value.handles[h].expiresAt
                     == (if pool in cfg.pools && cfg.pools[pool].expireReleased.Some?
                         then Some(now + cfg.pools[pool].expireReleased.value) else db.handles[h].expiresAt))
            && (r.Some? && !HandleAlive(db, lease) ==>
                  && lease.Pair() !in r.value.index && r.value.handles == db.handles
                  && r.value.leases == db.leases[id := lease.Deleted(now)])
  {
  }

  /** An acquired lease carries a new alive handle, expiring as the pool says from the start. */
  lemma AcquireEffect(cfg: Config, db: Db, pool: nat, lease: Lease, now: int)
    requires Acquire(cfg, db, pool, lease, now).Ok?
    ensures var r, h := Acquire(cfg, db, pool, lease, now).value, |db.handles|;
            && r.leases == db.leases + [lease.(handle := Some(h))] && r.index == db.index + {lease.Pair()}
            && lease.Pair() !in db.index && |r.handles| == h + 1 && r.handles[..h] == db.handles
            && r.handles[h].Alive() && r.handles[h].pool == pool
            && (r.handles[h].expiresAt.Some? <==> cfg.pools[pool].expireInitial.Some?)
            && (r.handles[h].expiresAt.Some? ==> r.handles[h].expiresAt.value == now + cfg.pools[pool].expireInitial.value)
            && cfg.networks[lease.network].subnet.Includes(lease.ipv4)
            && cfg.networks[lease.network].dcNetwork in cfg.pools[pool].dcNetworks
  {
  }

  /** A vif that gets a lease and gives it up again leaves the lease rows and the index as they
      were, when the lease has an alive handle; that handle then expires as the pool says. */
  lemma RemoveUndoesAdd(cfg: Config, db: Db, vif: nat, network: Option<nat>, id: nat, allowMultiple: bool, now: int)
    requires id < |db.leases| && HandleAlive(db, db.leases[id])
    requires AddIpLease(db, vif, network, id, allowMultiple).Some?
    ensures var added := AddIpLease(db, vif, network, id, allowMultiple).value;
            var r := RemoveIpLease(cfg, added, vif, id, now);
            var h := db.leases[id].handle.value;
            var pool := db.handles[h].pool;
            && r.Some? && r.value.leases == db.leases && r.value.index == db.index
            && r.value.handles == db.handles[h := db.handles[h].(expiresAt :=
                 if pool in cfg.pools && cfg.pools[pool].expireReleased.Some?
                 then Some(now + cfg.pools[pool].expireReleased.value) else None)]
  {
    AddEffect(db, vif, network, id, allowMultiple);
    RemoveEffect(cfg, AddIpLease(db, vif, network, id, allowMultiple).value, vif, id, now);
  }

  /** Dropping the handle of a lease that was acquired without a vif frees its address again and
      leaves every other row as it was before the acquire. */
  lemma {:induction false} DropUndoesAcquire(cfg: Config, db: Db, pool: nat, lease: Lease, now: int, later: int)
    requires Accounted(db) && lease.vif.None? && lease.Alive() && Acquire(cfg, db, pool, lease, now).Ok?
    ensures var acquired, h := Acquire(cfg, db, pool, lease, now).value, |db.handles|;
            var r := DestroyHandle(acquired, h, later);
            && r.Ok? && r.value.index == db.index
            && r.value.leases == db.leases + [lease.(handle := Some(h), deletedAt := Some(later))]
            && r.value.handles == db.handles + [acquired.handles[h].(deletedAt := Some(later))]
  {
    var acquired, h := Acquire(cfg, db, pool, lease, now).value, |db.handles|;
    AcquireEffect(cfg, db, pool, lease, now);
    assert forall i :: 0 <= i < |db.leases| ==> db.leases[i].handle != Some(h);
    LeaseAppended(db.leases, lease.(handle := Some(h)), h);
    assert acquired.handles == db.handles + [acquired.handles[h]];
  }
}
