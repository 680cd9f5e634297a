/** Capacity checks of the host nodes: one node against its own instances, and the whole
    domain against the online nodes together. */
module HostCapacity {

  datatype State = Running | Stopped | OtherState

  /** A row of instances. */
  datatype Instance = Instance(host: nat, cpu: nat, memory: nat, state: State, terminated: bool)

  /** A row of host_nodes; `online` also stands for scheduling_enabled. */
  datatype Node = Node(cpu: nat, memory: nat, online: bool)

  datatype Resource = Cpu | Memory

  function Demand(i: Instance, r: Resource): nat {
    if r.Cpu? then i.cpu else i.memory
  }

  function Offering(n: Node, r: Resource): nat {
    if r.Cpu? then n.cpu else n.memory
  }

  // ----- the sums -----

  /** SUM over the alive instances of one node. */
  function Used(instances: seq<Instance>, host: nat, r: Resource): nat {
    if instances == [] then 0
    else
      var i := instances[0];
      (if !i.terminated && i.host == host then Demand(i, r) else 0) + Used(instances[1..], host, r)
  }

  predicate OnOnlineNode(nodes: seq<Node>, i: Instance) {
    !i.terminated && i.host < |nodes| && nodes[i.host].online
  }

  /** SUM over the alive instances on online nodes; with `stoppedOnly`, of the stopped ones. */
  function DomainUsed(nodes: seq<Node>, instances: seq<Instance>, r: Resource, stoppedOnly: bool): nat {
    if instances == [] then 0
    else
      var i := instances[0];
      (if OnOnlineNode(nodes, i) && (stoppedOnly ==> i.state == Stopped) then Demand(i, r) else 0)
      + DomainUsed(nodes, instances[1..], r, stoppedOnly)
  }

  function Offered(nodes: seq<Node>, r: Resource): nat {
    if nodes == [] then 0
    else Offered(nodes[..|nodes| - 1], r) + if nodes[|nodes| - 1].online then Offering(nodes[|nodes| - 1], r) else 0
  }

  // ----- the checks -----

  predicate CheckCapacity(nodes: seq<Node>, instances: seq<Instance>, host: nat, candidate: Instance)
    requires host < |nodes|
  {
    && nodes[host].cpu >= Used(instances, host, Cpu) + candidate.cpu
    && nodes[host].memory >= Used(instances, host, Memory) + candidate.memory
  }

  function DomainAvailable(nodes: seq<Node>, instances: seq<Instance>, r: Resource, factor: real): int {
    var alive, stopped := DomainUsed(nodes, instances, r, false), DomainUsed(nodes, instances, r, true);
    Offered(nodes, r) - ((alive - stopped) + Reserved(stopped, factor))
  }

  /** The share of the stopped instances that stays reserved, rounded down. */
  function Reserved(stopped: nat, factor: real): int {
    (stopped as real * factor).Floor
  }

  predicate CheckDomainCapacity(nodes: seq<Node>, instances: seq<Instance>, cpu: nat, memory: nat, num: nat, factor: real) {
    && DomainAvailable(nodes, instances, Memory, factor) >= memory * num
    && DomainAvailable(nodes, instances, Cpu, factor) >= cpu * num
  }

  // ----- placing -----

  ghost predicate WithinOffering(nodes: seq<Node>, instances: seq<Instance>) {
    forall h, r :: 0 <= h < |nodes| ==> Used(instances, h, r) <= Offering(nodes[h], r)
  }

  datatype Event =
    | Place(candidate: Instance)
    | Terminate(index: nat)
    | Become(index: nat, state: State)

  /** An instance is placed only where check_capacity holds; others end or change state. */
  function Step(nodes: seq<Node>, instances: seq<Instance>, e: Event): seq<Instance> {
    match e
    case Place(candidate) =>
      if candidate.host < |nodes| && CheckCapacity(nodes, instances, candidate.host, candidate)
      then instances + [candidate] else instances
    case Terminate(k) => if k < |instances| then instances[k := instances[k].(terminated := true)] else instances
    case Become(k, state) => if k < |instances| then instances[k := instances[k].(state := state)] else instances
  }

  function After(nodes: seq<Node>, events: seq<Event>): seq<Instance> {
    if events == [] then [] else Step(nodes, After(nodes, events[..|events| - 1]), events[|events| - 1])
  }

  lemma {:induction false} UsedAppend(instances: seq<Instance>, i: Instance, host: nat, r: Resource)
    ensures Used(instances + [i], host, r)
         == Used(instances, host, r) + if !i.terminated && i.host == host then Demand(i, r) else 0
  {
    if instances != [] {
      assert (instances + [i])[1..] == instances[1..] + [i];
      UsedAppend(instances[1..], i, host, r);
    }
  }

  /** check_capacity holds exactly when the node stays within its offering with the instance. */
  lemma CheckIsExact(nodes: seq<Node>, instances: seq<Instance>, candidate: Instance)
    requires WithinOffering(nodes, instances) && candidate.host < |nodes| && !candidate.terminated
    ensures CheckCapacity(nodes, instances, candidate.host, candidate)
       <==> WithinOffering(nodes, instances + [candidate])
  {
    forall h, r ensures Used(instances + [candidate], h, r)
                     == Used(instances, h, r) + if candidate.host == h then Demand(candidate, r) else 0
    {
      UsedAppend(instances, candidate, h, r);
    }
    if WithinOffering(nodes, instances + [candidate]) {
      assert Used(instances + [candidate], candidate.host, Cpu) <= Offering(nodes[candidate.host], Cpu);
      assert Used(instances + [candidate], candidate.host, Memory) <= Offering(nodes[candidate.host], Memory);
    }
  }

  lemma {:induction false} UsedUpdate(instances: seq<Instance>, k: nat, i: Instance, host: nat, r: Resource)
    requires k < |instances| && i.host == instances[k].host && Demand(i, r) == Demand(instances[k], r)
    requires instances[k].terminated ==> i.terminated
    ensures Used(instances[k := i], host, r) <= Used(instances, host, r)
  {
    if k > 0 {
      assert instances[k := i][1..] == instances[1..][k - 1 := i];
      UsedUpdate(instances[1..], k - 1, i, host, r);
    }
  }

  /** No run of checked placements, terminations and state changes overloads a node. */
  lemma {:induction false} RunStaysWithinOffering(nodes: seq<Node>, events: seq<Event>)
    ensures WithinOffering(nodes, After(nodes, events))
  {
    var n := |events| - 1;
    forall h, r | 0 <= h < |nodes| ensures Used(After(nodes, events), h, r) <= Offering(nodes[h], r) {
      if events != [] {
        RunStaysWithinOffering(nodes, events[..n]);
        var before := After(nodes, events[..n]);
        assert Used(before, h, r) <= Offering(nodes[h], r);
        match events[n]
        case Place(candidate) => UsedAppend(before, candidate, h, r);
        case Terminate(k) =>
          if k < |before| {
            UsedUpdate(before, k, before[k].(terminated := true), h, r);
          }
        case Become(k, state) =>
          if k < |before| {
            UsedUpdate(before, k, before[k].(state := state), h, r);
          }
      }
    }
  }

  /** In every run an instance is placed exactly when its node stays within its offering with it. */
  lemma {:induction false} PlacedWhenItFits(nodes: seq<Node>, events: seq<Event>, candidate: Instance)
    requires candidate.host < |nodes| && !candidate.terminated
    ensures var before := After(nodes, events);
            After(nodes, events + [Place(candidate)])
            == if WithinOffering(nodes, before + [candidate]) then before + [candidate] else before
  {
    RunStaysWithinOffering(nodes, events);
    CheckIsExact(nodes, After(nodes, events), candidate);
    assert (events + [Place(candidate)])[..|events|] == events;
  }

  // ----- the domain as a sum of nodes -----

  /** Used resources of the first n nodes that are online. */
  function NodesUsed(nodes: seq<Node>, instances: seq<Instance>, r: Resource, n: nat): nat
    requires n <= |nodes|
  {
    if n == 0 then 0
    else NodesUsed(nodes, instances, r, n - 1) + if nodes[n - 1].online then Used(instances, n - 1, r) else 0
  }

  lemma {:induction false} NodesUsedHead(nodes: seq<Node>, instances: seq<Instance>, r: Resource, n: nat)
    requires n <= |nodes| && instances != []
    ensures NodesUsed(nodes, instances, r, n)
         == NodesUsed(nodes, instances[1..], r, n)
          + if OnOnlineNode(nodes, instances[0]) && instances[0].host < n then Demand(instances[0], r) else 0
  {
    if n > 0 {
      NodesUsedHead(nodes, instances, r, n - 1);
    }
  }

  lemma {:induction false} NothingUsed(nodes: seq<Node>, r: Resource, n: nat)
    requires n <= |nodes|
    ensures NodesUsed(nodes, [], r, n) == 0
  {
    if n > 0 {
      NothingUsed(nodes, r, n - 1);
    }
  }

  /** The instances on online nodes are partitioned by their node. */
  lemma {:induction false} DomainIsPartitioned(nodes: seq<Node>, instances: seq<Instance>, r: Resource)
    ensures DomainUsed(nodes, instances, r, false) == NodesUsed(nodes, instances, r, |nodes|)
    ensures DomainUsed(nodes, instances, r, true) <= DomainUsed(nodes, instances, r, false)
  {
    if instances == [] {
      NothingUsed(nodes, r, |nodes|);
    } else {
      DomainIsPartitioned(nodes, instances[1..], r);
      NodesUsedHead(nodes, instances, r, |nodes|);
    }
  }

  /** Free resources of the first n online nodes, added up node by node. */
  function FreeSum(nodes: seq<Node>, instances: seq<Instance>, r: Resource, n: nat): int
    requires n <= |nodes|
  {
    if n == 0 then 0
    else FreeSum(nodes, instances, r, n - 1)
         + if nodes[n - 1].online then Offering(nodes[n - 1], r) - Used(instances, n - 1, r) else 0
  }

  lemma {:induction false} FreeIsOfferedMinusUsed(nodes: seq<Node>, instances: seq<Instance>, r: Resource, n: nat)
    requires n <= |nodes|
    ensures FreeSum(nodes, instances, r, n) == Offered(nodes[..n], r) - NodesUsed(nodes, instances, r, n)
  {
    if n > 0 {
      FreeIsOfferedMinusUsed(nodes, instances, r, n - 1);
      assert nodes[..n][..n - 1] == nodes[..n - 1];
    }
  }

  lemma ReservedWithin(stopped: nat, factor: real)
    requires 0.0 <= factor <= 1.0
    ensures 0 <= Reserved(stopped, factor) <= stopped
  {
    var s := stopped as real;
    assert 0.0 <= s * factor;
    assert s - s * factor == s * (1.0 - factor) >= 0.0;
  }

  lemma ReservedAll(stopped: nat)
    ensures Reserved(stopped, 1.0) == stopped
  {
    assert stopped as real * 1.0 == stopped as real;
  }

  lemma {:induction false} OfferedMinusUsed(nodes: seq<Node>, instances: seq<Instance>, r: Resource)
    ensures Offered(nodes, r) - DomainUsed(nodes, instances, r, false) == FreeSum(nodes, instances, r, |nodes|)
  {
    DomainIsPartitioned(nodes, instances, r);
    FreeIsOfferedMinusUsed(nodes, instances, r, |nodes|);
    assert nodes[..|nodes|] == nodes;
  }

  /** What the domain check compares is the free amount summed over the nodes, plus the part of
      the stopped instances' share that the factor does not reserve: nothing at factor 1. */
  lemma {:induction false} DomainAvailableIsFreeSum(nodes: seq<Node>, instances: seq<Instance>, r: Resource, factor: real)
    requires 0.0 <= factor <= 1.0
    ensures var stopped := DomainUsed(nodes, instances, r, true);
            && DomainAvailable(nodes, instances, r, factor)
            == FreeSum(nodes, instances, r, |nodes|) + (stopped - Reserved(stopped, factor))
            && 0 <= Reserved(stopped, factor) <= stopped
    ensures factor == 1.0 ==> DomainAvailable(nodes, instances, r, factor) == FreeSum(nodes, instances, r, |nodes|)
  {
    OfferedMinusUsed(nodes, instances, r);
    ReservedWithin(DomainUsed(nodes, instances, r, true), factor);
    ReservedAll(DomainUsed(nodes, instances, r, true));
  }

  function StoppedOf(instances: seq<Instance>): seq<Instance> {
    if instances == [] then []
    else (if instances[0].state == Stopped then [instances[0]] else []) + StoppedOf(instances[1..])
  }

  /** The stopped instances on online nodes are partitioned by their node as well. */
  lemma {:induction false} StoppedIsPartitioned(nodes: seq<Node>, instances: seq<Instance>, r: Resource)
    ensures DomainUsed(nodes, instances, r, true) == NodesUsed(nodes, StoppedOf(instances), r, |nodes|)
  {
    StoppedAlone(nodes, instances, r);
    DomainIsPartitioned(nodes, StoppedOf(instances), r);
  }

  lemma {:induction false} StoppedAlone(nodes: seq<Node>, instances: seq<Instance>, r: Resource)
    ensures DomainUsed(nodes, instances, r, true) == DomainUsed(nodes, StoppedOf(instances), r, false)
  {
    if instances != [] {
      StoppedAlone(nodes, instances[1..], r);
      if instances[0].state == Stopped {
        assert StoppedOf(instances)[1..] == StoppedOf(instances[1..]);
      } else {
        assert StoppedOf(instances) == StoppedOf(instances[1..]);
      }
    }
  }

  predicate IsFloor(k: int, x: real) {
    k as real <= x < k as real + 1.0
  }

  function StoppedShare(nodes: seq<Node>, instances: seq<Instance>, r: Resource): nat {
    NodesUsed(nodes, StoppedOf(instances), r, |nodes|)
  }

  lemma ReservedIs(stopped: nat, factor: real, kept: int)
    requires IsFloor(kept, stopped as real * factor)
    ensures Reserved(stopped, factor) == kept
  {
    var x := stopped as real * factor;
    assert x.Floor == kept;
  }

  lemma {:induction false} AvailableIsExact(nodes: seq<Node>, instances: seq<Instance>, r: Resource, factor: real, kept: int)
    requires IsFloor(kept, StoppedShare(nodes, instances, r) as real * factor)
    ensures DomainAvailable(nodes, instances, r, factor)
         == FreeSum(nodes, instances, r, |nodes|) + StoppedShare(nodes, instances, r) - kept
  {
    StoppedIsPartitioned(nodes, instances, r);
    OfferedMinusUsed(nodes, instances, r);
    ReservedIs(StoppedShare(nodes, instances, r), factor, kept);
    var share := DomainUsed(nodes, instances, r, true);
    assert share == StoppedShare(nodes, instances, r);
    assert Reserved(share, factor) == kept;
  }

  /** The domain check passes exactly when, for either resource, the demand fits into the free
      amount summed over the online nodes plus the share of the stopped instances that the factor
      does not reserve; that reserve is the floor of the factor times their share. */
  lemma {:induction false} DomainCheckIsExact(nodes: seq<Node>, instances: seq<Instance>, cpu: nat, memory: nat, num: nat,
                                              factor: real, keptCpu: int, keptMemory: int)
    requires IsFloor(keptCpu, StoppedShare(nodes, instances, Cpu) as real * factor)
    requires IsFloor(keptMemory, StoppedShare(nodes, instances, Memory) as real * factor)
    ensures CheckDomainCapacity(nodes, instances, cpu, memory, num, factor)
       <==> && cpu * num <= FreeSum(nodes, instances, Cpu, |nodes|) + StoppedShare(nodes, instances, Cpu) - keptCpu
            && memory * num <= FreeSum(nodes, instances, Memory, |nodes|) + StoppedShare(nodes, instances, Memory) - keptMemory
  {
    AvailableIsExact(nodes, instances, Cpu, factor, keptCpu);
    AvailableIsExact(nodes, instances, Memory, factor, keptMemory);
  }

  /** At factor 1 the stopped instances count in full: what fits is what is free on the nodes. */
  lemma {:induction false} FullReserve(nodes: seq<Node>, instances: seq<Instance>, cpu: nat, memory: nat, num: nat)
    ensures CheckDomainCapacity(nodes, instances, cpu, memory, num, 1.0)
       <==> && cpu * num <= FreeSum(nodes, instances, Cpu, |nodes|)
            && memory * num <= FreeSum(nodes, instances, Memory, |nodes|)
  {
    var c, m := StoppedShare(nodes, instances, Cpu), StoppedShare(nodes, instances, Memory);
    assert c as real * 1.0 == c as real && m as real * 1.0 == m as real;
    DomainCheckIsExact(nodes, instances, cpu, memory, num, 1.0, c, m);
  }

  lemma {:induction false} OneNodeWithinSum(nodes: seq<Node>, instances: seq<Instance>, r: Resource, n: nat, host: nat)
    requires n <= |nodes| && forall h :: 0 <= h < |nodes| && nodes[h].online ==> Used(instances, h, r) <= Offering(nodes[h], r)
    ensures FreeSum(nodes, instances, r, n) >= 0
    ensures host < n && nodes[host].online ==>
              FreeSum(nodes, instances, r, n) >= Offering(nodes[host], r) - Used(instances, host, r)
  {
    if n > 0 {
      OneNodeWithinSum(nodes, instances, r, n - 1, host);
    }
  }

  /** If some online node takes the instance, so does the domain, at every usage factor. */
  lemma {:induction false} NodeFitsDomainFits(nodes: seq<Node>, instances: seq<Instance>, host: nat, candidate: Instance,
                                              factor: real)
    requires forall h, r :: 0 <= h < |nodes| && nodes[h].online ==> Used(instances, h, r) <= Offering(nodes[h], r)
    requires host < |nodes| && nodes[host].online && CheckCapacity(nodes, instances, host, candidate)
    requires 0.0 <= factor <= 1.0
    ensures CheckDomainCapacity(nodes, instances, candidate.cpu, candidate.memory, 1, factor)
  {
    forall r ensures DomainAvailable(nodes, instances, r, factor) >= Demand(candidate, r) {
      DomainAvailableIsFreeSum(nodes, instances, r, factor);
      OneNodeWithinSum(nodes, instances, r, |nodes|, host);
    }
    assert DomainAvailable(nodes, instances, Cpu, factor) >= Demand(candidate, Cpu);
    assert DomainAvailable(nodes, instances, Memory, factor) >= Demand(candidate, Memory);
  }

  /** Not the other way round: two half-free nodes pass the domain check for an instance that
      neither can take. */
  lemma DomainFitsNoNodeFits()
    ensures var nodes, candidate := [Node(1, 8, true), Node(1, 8, true)], Instance(0, 2, 1, Running, false);
            && CheckDomainCapacity(nodes, [], candidate.cpu, candidate.memory, 1, 1.0)
            && !CheckCapacity(nodes, [], 0, candidate) && !CheckCapacity(nodes, [], 1, candidate)
  {
    var nodes := [Node(1, 8, true), Node(1, 8, true)];
    assert nodes[..1] == [Node(1, 8, true)] && [Node(1, 8, true)][..0] == [];
    forall r ensures Offered(nodes, r) == 2 * Offering(nodes[0], r) {
      assert Offered([Node(1, 8, true)], r) == Offering(nodes[0], r);
    }
    assert Offered(nodes, Cpu) == 2 && Offered(nodes, Memory) == 16;
  }
}
