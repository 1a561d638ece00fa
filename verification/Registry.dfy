/**
 The driver registry: devices and drivers in the order they were registered, and which
 driver each device is bound to.

 A device carries the devices that a driver's probe of it registers, so a probe that
 re-enters registration is a device with children.  A driver is named by its position.
 */
module RegistryModel {
  import opened Wrappers
  import opened Bags

  /** `named` and `memory` say whether registration finds a name and is granted its node. */
  datatype Device = Device(bus: int, id: int, named: bool, memory: bool, children: Children)

  /** What probes register, in order: `device` is registered by the probe of driver `driver`. */
  datatype Children = NoChild | Child(driver: int, device: Device, rest: Children)

  /** A driver without a match callback takes every device of its bus. */
  datatype Driver = Driver(id: int, bus: int, match_: Option<set<int>>, hasProbe: bool)

  /** A registered device and the index of its driver, -1 while it has none. */
  datatype Node = Node(device: Device, bound: int)

  /** driver_device_matches */
  predicate Matches(r: Driver, d: Device) {
    r.bus == d.bus && (r.match_.None? || d.id in r.match_.value)
  }

  predicate Accepted(d: Device) {
    d.named && d.memory
  }

  /** Index of the earliest registered driver that matches, or -1. */
  function Earliest(drivers: seq<Driver>, d: Device): (k: int)
    ensures -1 <= k < |drivers|
    ensures k >= 0 ==> Matches(drivers[k], d)
    ensures forall j :: 0 <= j < (if k < 0 then |drivers| else k) ==> !Matches(drivers[j], d)
  {
    if drivers == [] then -1
    else
      var k := Earliest(drivers[..|drivers| - 1], d);
      if k >= 0 then k
      else if Matches(drivers[|drivers| - 1], d) then |drivers| - 1
      else -1
  }

  /** The nodes that registering `d` adds: itself, then what its driver's probe registers. */
  function Expand(drivers: seq<Driver>, d: Device): seq<Node>
    decreases d, 1
  {
    if !Accepted(d) then []
    else
      var k := Earliest(drivers, d);
      [Node(d, k)] + if k < 0 then [] else Spawn(drivers, d, k)
  }

  /** What the probe of `d` by driver `k` registers. */
  function Spawn(drivers: seq<Driver>, d: Device, k: int): seq<Node>
    requires 0 <= k < |drivers|
    decreases d, 0
  {
    if drivers[k].hasProbe then ExpandChildren(drivers, d.children, drivers[k].id) else []
  }

  function ExpandChildren(drivers: seq<Driver>, kids: Children, driver: int): seq<Node>
    decreases kids
  {
    match kids
    case NoChild => []
    case Child(k, d, rest) => (if k == driver then Expand(drivers, d) else []) + ExpandChildren(drivers, rest, driver)
  }

  /** A node when driver `k` is offered to its device. */
  function Offer(n: Node, r: Driver, k: int): Node {
    if n.bound < 0 && Matches(r, n.device) then Node(n.device, k) else n
  }

  function OfferAll(nodes: seq<Node>, r: Driver, k: int): (out: seq<Node>)
    ensures |out| == |nodes| && forall i :: 0 <= i < |nodes| ==> out[i] == Offer(nodes[i], r, k)
  {
    if nodes == [] then [] else [Offer(nodes[0], r, k)] + OfferAll(nodes[1..], r, k)
  }

  /** What the probes of the newly bound devices register. */
  function SpawnAll(drivers: seq<Driver>, nodes: seq<Node>, k: int): seq<Node>
    requires 0 <= k < |drivers|
  {
    if nodes == [] then []
    else
      var n := nodes[|nodes| - 1];
      SpawnAll(drivers, nodes[..|nodes| - 1], k)
      + if n.bound < 0 && Matches(drivers[k], n.device) then Spawn(drivers, n.device, k) else []
  }

  // ----- registrations as steps -----

  datatype Registry = Registry(drivers: seq<Driver>, nodes: seq<Node>)

  datatype Request = AddDevice(device: Device) | AddDriver(driver: Driver)

  function Step(g: Registry, r: Request): Registry {
    match r
    case AddDevice(d) => g.(nodes := g.nodes + Expand(g.drivers, d))
    case AddDriver(r) =>
      var k := |g.drivers|;
      var all := g.drivers + [r];
      Registry(all, OfferAll(g.nodes, r, k) + SpawnAll(all, g.nodes, k))
  }

  function Run(g: Registry, rs: seq<Request>): Registry
    decreases |rs|
  {
    if rs == [] then g else Run(Step(g, rs[0]), rs[1..])
  }

  /** Every device is bound to the earliest driver that matches it. */
  ghost predicate Settled(drivers: seq<Driver>, nodes: seq<Node>) {
    forall n :: n in nodes ==> n.bound == Earliest(drivers, n.device) && Accepted(n.device)
  }

  lemma {:induction false} EarliestAppend(drivers: seq<Driver>, r: Driver, d: Device)
    ensures Earliest(drivers + [r], d) ==
            if Earliest(drivers, d) >= 0 then Earliest(drivers, d)
            else if Matches(r, d) then |drivers| else -1
  {
    assert (drivers + [r])[..|drivers|] == drivers;
  }

  lemma {:induction false} ExpandSettled(drivers: seq<Driver>, d: Device)
    ensures Settled(drivers, Expand(drivers, d))
    decreases d, 1
  {
    if Accepted(d) && Earliest(drivers, d) >= 0 {
      SpawnSettled(drivers, d, Earliest(drivers, d));
    }
  }

  lemma {:induction false} SpawnSettled(drivers: seq<Driver>, d: Device, k: int)
    requires 0 <= k < |drivers|
    ensures Settled(drivers, Spawn(drivers, d, k))
    decreases d, 0
  {
    if drivers[k].hasProbe {
      ChildrenSettled(drivers, d.children, drivers[k].id);
    }
  }

  lemma {:induction false} ChildrenSettled(drivers: seq<Driver>, kids: Children, driver: int)
    ensures Settled(drivers, ExpandChildren(drivers, kids, driver))
    decreases kids
  {
    match kids {
      case NoChild =>
      case Child(k, d, rest) =>
        ExpandSettled(drivers, d);
        ChildrenSettled(drivers, rest, driver);
    }
  }

  lemma {:induction false} SpawnAllSettled(drivers: seq<Driver>, nodes: seq<Node>, k: int)
    requires 0 <= k < |drivers|
    ensures Settled(drivers, SpawnAll(drivers, nodes, k))
  {
    if nodes != [] {
      SpawnAllSettled(drivers, nodes[..|nodes| - 1], k);
      SpawnSettled(drivers, nodes[|nodes| - 1].device, k);
    }
  }

  lemma {:induction false} OfferSettles(drivers: seq<Driver>, r: Driver, nodes: seq<Node>)
    requires Settled(drivers, nodes)
    ensures Settled(drivers + [r], OfferAll(nodes, r, |drivers|))
  {
    var out := OfferAll(nodes, r, |drivers|);
    forall n | n in out ensures n.bound == Earliest(drivers + [r], n.device) && Accepted(n.device) {
      var i :| 0 <= i < |out| && out[i] == n;
      assert nodes[i] in nodes;
      EarliestAppend(drivers, r, n.device);
    }
  }

  /** On return from every registration each device has the earliest driver that matches it. */
  lemma {:induction false} StepSettles(g: Registry, r: Request)
    requires Settled(g.drivers, g.nodes)
    ensures Settled(Step(g, r).drivers, Step(g, r).nodes)
  {
    match r {
      case AddDevice(d) => ExpandSettled(g.drivers, d);
      case AddDriver(r) =>
        OfferSettles(g.drivers, r, g.nodes);
        SpawnAllSettled(g.drivers + [r], g.nodes, |g.drivers|);
    }
  }

  lemma {:induction false} RunSettles(g: Registry, rs: seq<Request>)
    requires Settled(g.drivers, g.nodes)
    ensures Settled(Run(g, rs).drivers, Run(g, rs).nodes)
    decreases |rs|
  {
    if rs != [] {
      StepSettles(g, rs[0]);
      RunSettles(Step(g, rs[0]), rs[1..]);
    }
  }

  // ----- confluence -----

  function DriversOf(rs: seq<Request>): seq<Driver> {
    if rs == [] then []
    else (if rs[0].AddDriver? then [rs[0].driver] else []) + DriversOf(rs[1..])
  }

  function DevicesOf(rs: seq<Request>): seq<Device> {
    if rs == [] then []
    else (if rs[0].AddDevice? then [rs[0].device] else []) + DevicesOf(rs[1..])
  }

  /** Everything that registering `ds` leads to once the drivers are `drivers`. */
  ghost function Forest(drivers: seq<Driver>, ds: seq<Device>): multiset<Node> {
    Total(Tree(drivers), ds)
  }

  ghost function Tree(drivers: seq<Driver>): Device -> multiset<Node> {
    d => multiset(Expand(drivers, d))
  }

  /** What becomes of a node, and of the devices behind it, when driver `k` arrives. */
  ghost function Grow(drivers: seq<Driver>, n: Node, k: int): multiset<Node>
    requires 0 <= k < |drivers|
  {
    if n.bound < 0 && Matches(drivers[k], n.device) then multiset{Node(n.device, k)} + multiset(Spawn(drivers, n.device, k))
    else multiset{n}
  }

  ghost function Growth(drivers: seq<Driver>, k: int): Node -> multiset<Node>
    requires 0 <= k < |drivers|
  {
    n => Grow(drivers, n, k)
  }

  ghost function GrowAll(drivers: seq<Driver>, nodes: seq<Node>, k: int): multiset<Node>
    requires 0 <= k < |drivers|
  {
    Total(Growth(drivers, k), nodes)
  }

  lemma {:induction false} OfferLast(front: seq<Node>, n: Node, r: Driver, k: int)
    ensures OfferAll(front + [n], r, k) == OfferAll(front, r, k) + [Offer(n, r, k)]
  {
  }

  lemma {:induction false} SweepLast(drivers: seq<Driver>, front: seq<Node>, n: Node, k: int)
    requires 0 <= k < |drivers|
    ensures var nodes := front + [n];
            multiset(OfferAll(front, drivers[k], k) + [Offer(n, drivers[k], k)] + SpawnAll(drivers, nodes, k))
            == multiset(OfferAll(front, drivers[k], k) + SpawnAll(drivers, front, k)) + Grow(drivers, n, k)
  {
    var nodes := front + [n];
    assert nodes[..|front|] == front;
    var o, s := OfferAll(front, drivers[k], k), SpawnAll(drivers, front, k);
    var t := if n.bound < 0 && Matches(drivers[k], n.device) then Spawn(drivers, n.device, k) else [];
    assert SpawnAll(drivers, nodes, k) == s + t;
    Regroup(o, Offer(n, drivers[k], k), s, t);
  }

  /** The new list is what the old nodes grow into. */
  lemma {:induction false} SweepGrows(drivers: seq<Driver>, nodes: seq<Node>, k: int)
    requires 0 <= k < |drivers|
    ensures multiset(OfferAll(nodes, drivers[k], k) + SpawnAll(drivers, nodes, k)) == GrowAll(drivers, nodes, k)
    decreases |nodes|
  {
    if nodes != [] {
      var m := |nodes| - 1;
      var n := nodes[m];
      SweepGrows(drivers, nodes[..m], k);
      assert nodes == nodes[..m] + [n];
      TotalJoin(Growth(drivers, k), nodes[..m], [n]);
      TotalOne(Growth(drivers, k), n);
      OfferLast(nodes[..m], n, drivers[k], k);
      SweepLast(drivers, nodes[..m], n, k);
    }
  }

  /** Expanding a device with one more driver is growing its expansion without it. */
  lemma {:induction false} ExpandGrows(drivers: seq<Driver>, r: Driver, d: Device)
    ensures multiset(Expand(drivers + [r], d)) == GrowAll(drivers + [r], Expand(drivers, d), |drivers|)
    decreases d, 1
  {
    var all, k := drivers + [r], |drivers|;
    EarliestAppend(drivers, r, d);
    if Accepted(d) {
      var e := Earliest(drivers, d);
      var tail := if e < 0 then [] else Spawn(drivers, d, e);
      TotalJoin(Growth(all, k), [Node(d, e)], tail);
      TotalOne(Growth(all, k), Node(d, e));
      if e >= 0 {
        SpawnGrows(drivers, r, d, e);
      }
    }
  }

  lemma {:induction false} SpawnGrows(drivers: seq<Driver>, r: Driver, d: Device, e: int)
    requires 0 <= e < |drivers|
    ensures multiset(Spawn(drivers + [r], d, e)) == GrowAll(drivers + [r], Spawn(drivers, d, e), |drivers|)
    decreases d, 0
  {
    if drivers[e].hasProbe {
      ChildrenGrow(drivers, r, d.children, drivers[e].id);
    }
  }

  lemma {:induction false} ChildrenGrow(drivers: seq<Driver>, r: Driver, kids: Children, driver: int)
    ensures multiset(ExpandChildren(drivers + [r], kids, driver)) == GrowAll(drivers + [r], ExpandChildren(drivers, kids, driver), |drivers|)
    decreases kids
  {
    match kids {
      case NoChild =>
      case Child(c, d, rest) =>
        ExpandGrows(drivers, r, d);
        ChildrenGrow(drivers, r, rest, driver);
        var first := if c == driver then Expand(drivers, d) else [];
        TotalJoin(Growth(drivers + [r], |drivers|), first, ExpandChildren(drivers, rest, driver));
    }
  }

  lemma {:induction false} ForestGrows(drivers: seq<Driver>, r: Driver, ds: seq<Device>, nodes: seq<Node>)
    requires multiset(nodes) == Forest(drivers, ds)
    ensures GrowAll(drivers + [r], nodes, |drivers|) == Forest(drivers + [r], ds)
    decreases |ds|
  {
    var all, k := drivers + [r], |drivers|;
    if ds == [] {
      assert |multiset(nodes)| == 0;
    } else {
      var rest := Flat(drivers, ds[1..]);
      ForestGrows(drivers, r, ds[1..], rest);
      ExpandGrows(drivers, r, ds[0]);
      TotalPermutes(Growth(all, k), nodes, Expand(drivers, ds[0]) + rest);
      TotalJoin(Growth(all, k), Expand(drivers, ds[0]), rest);
    }
  }

  /** A sequence with the nodes of a forest. */
  ghost function Flat(drivers: seq<Driver>, ds: seq<Device>): (nodes: seq<Node>)
    ensures multiset(nodes) == Forest(drivers, ds)
  {
    if ds == [] then [] else Expand(drivers, ds[0]) + Flat(drivers, ds[1..])
  }

  lemma {:induction false} StepForest(g: Registry, ds: seq<Device>, r: Request)
    requires multiset(g.nodes) == Forest(g.drivers, ds)
    ensures r.AddDevice? ==> multiset(Step(g, r).nodes) == Forest(g.drivers, ds + [r.device])
    ensures r.AddDriver? ==> multiset(Step(g, r).nodes) == Forest(g.drivers + [r.driver], ds)
  {
    match r {
      case AddDevice(d) =>
        TotalJoin(Tree(g.drivers), ds, [d]);
        TotalOne(Tree(g.drivers), d);
      case AddDriver(r) =>
        SweepGrows(g.drivers + [r], g.nodes, |g.drivers|);
        ForestGrows(g.drivers, r, ds, g.nodes);
    }
  }

  lemma {:induction false} Reassociate<A>(a: seq<A>, b: seq<A>, c: seq<A>)
    ensures a + (b + c) == (a + b) + c && a + [] == a
  {
  }

  /** Whatever the interleaving, the nodes are those of the devices under the final drivers. */
  lemma {:induction false} RunForest(g: Registry, ds: seq<Device>, rs: seq<Request>)
    requires multiset(g.nodes) == Forest(g.drivers, ds)
    ensures Run(g, rs).drivers == g.drivers + DriversOf(rs)
    ensures multiset(Run(g, rs).nodes) == Forest(g.drivers + DriversOf(rs), ds + DevicesOf(rs))
    decreases |rs|
  {
    if rs == [] {
      Reassociate(g.drivers, [], []);
      Reassociate(ds, [], []);
    } else {
      var newDrivers := if rs[0].AddDriver? then [rs[0].driver] else [];
      var newDevices := if rs[0].AddDevice? then [rs[0].device] else [];
      StepForest(g, ds, rs[0]);
      Reassociate(g.drivers, newDrivers, DriversOf(rs[1..]));
      Reassociate(ds, newDevices, DevicesOf(rs[1..]));
      RunForest(Step(g, rs[0]), ds + newDevices, rs[1..]);
    }
  }

  /**
   Confluence: two runs that register the same drivers in the same order and the same
   devices in any order, interleaved in any way, end with the same devices bound alike.
   */
  lemma {:induction false} Confluence(p: seq<Request>, q: seq<Request>)
    requires DriversOf(p) == DriversOf(q) && multiset(DevicesOf(p)) == multiset(DevicesOf(q))
    ensures multiset(Run(Registry([], []), p).nodes) == multiset(Run(Registry([], []), q).nodes)
  {
    RunForest(Registry([], []), [], p);
    RunForest(Registry([], []), [], q);
    assert [] + DevicesOf(p) == DevicesOf(p) && [] + DevicesOf(q) == DevicesOf(q);
    assert [] + DriversOf(p) == DriversOf(p) && [] + DriversOf(q) == DriversOf(q);
    TotalPermutes(Tree(DriversOf(p)), DevicesOf(p), DevicesOf(q));
  }

  // ----- bookkeeping -----

  function CountBound(nodes: seq<Node>): nat {
    if nodes == [] then 0 else (if nodes[0].bound >= 0 then 1 else 0) + CountBound(nodes[1..])
  }

  lemma {:induction false} CountJoin(a: seq<Node>, b: seq<Node>)
    ensures CountBound(a + b) == CountBound(a) + CountBound(b)
  {
    if a == [] {
      assert a + b == b;
    } else {
      CountJoin(a[1..], b);
      assert (a + b)[1..] == a[1..] + b;
    }
  }

  /** Binding one unbound node adds one. */
  lemma {:induction false} CountBind(nodes: seq<Node>, i: nat, n: Node)
    requires i < |nodes| && nodes[i].bound < 0 <= n.bound
    ensures CountBound(nodes[i := n]) == CountBound(nodes) + 1
  {
    assert nodes == nodes[..i] + ([nodes[i]] + nodes[i + 1..]);
    assert nodes[i := n] == nodes[..i] + ([n] + nodes[i + 1..]);
    CountJoin(nodes[..i], [nodes[i]] + nodes[i + 1..]);
    CountJoin(nodes[..i], [n] + nodes[i + 1..]);
    assert ([n] + nodes[i + 1..])[1..] == nodes[i + 1..] == ([nodes[i]] + nodes[i + 1..])[1..];
  }

  /** The probes a list of nodes accounts for: one for each bound device whose driver has a probe. */
  ghost function Probes(drivers: seq<Driver>, nodes: seq<Node>): multiset<Node> {
    Total(ProbeOf(drivers), nodes)
  }

  ghost function ProbeOf(drivers: seq<Driver>): Node -> multiset<Node> {
    (n: Node) => if 0 <= n.bound < |drivers| && drivers[n.bound].hasProbe then multiset{n} else multiset{}
  }

  lemma {:induction false} ProbeBind(drivers: seq<Driver>, nodes: seq<Node>, i: nat, n: Node)
    requires i < |nodes| && nodes[i].bound < 0
    ensures Probes(drivers, nodes[i := n]) == Probes(drivers, nodes) + ProbeOf(drivers)(n)
  {
    TotalPull(ProbeOf(drivers), nodes, i);
    TotalPull(ProbeOf(drivers), nodes[i := n], i);
    assert nodes[i := n][..i] + nodes[i := n][i + 1..] == nodes[..i] + nodes[i + 1..];
  }

  lemma {:induction false} ProbesKept(drivers: seq<Driver>, r: Driver, nodes: seq<Node>)
    requires forall i :: 0 <= i < |nodes| ==> nodes[i].bound < |drivers|
    ensures Probes(drivers + [r], nodes) == Probes(drivers, nodes)
  {
    if nodes != [] {
      ProbesKept(drivers, r, nodes[1..]);
    }
  }
}
