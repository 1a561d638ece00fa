/** driver.c: registration from both sides, with probes that register further devices. */
module KernelRegistry {
  import opened RegistryModel
  import opened Bags

  class DriverRegistry {
    var ready: bool
    var drivers: seq<Driver>
    var nodes: seq<Node>
    var boundCount: nat
    ghost var probed: multiset<Node>

    /** The bound counter and the probes made agree with the bindings, at every moment. */
    ghost predicate Valid()
      reads this
    {
      Booked(drivers, nodes, boundCount, probed)
    }

    /** driver_model_init: the model stays down without a heap, and when a built-in bus gets no node. */
    constructor (heapReady: bool, pciGranted: bool, virtioGranted: bool)
      ensures Valid() && drivers == [] && nodes == []
      ensures ready <==> heapReady && pciGranted && virtioGranted
    {
      drivers, nodes, boundCount, probed := [], [], 0, multiset{};
      ready := heapReady && pciGranted && virtioGranted;
    }

    /** driver_try_bind */
    method TryBind(i: nat, k: nat, ghost d: Device)
      requires Valid() && ready && i < |nodes| && k < |drivers| && d == nodes[i].device
      modifies this
      ensures Valid() && ready && drivers == old(drivers)
      ensures nodes == if old(nodes[i].bound) < 0 && Matches(drivers[k], d)
                       then old(nodes)[i := Node(d, k)] + Spawn(drivers, d, k) else old(nodes)
      decreases d, 1
    {
      if nodes[i].bound >= 0 {
        return;
      }
      if !Matches(drivers[k], nodes[i].device) {
        return;
      }
      var n := Node(nodes[i].device, k);
      Bind(i, n);
      Announce(n);
    }

    /** The end of driver_try_bind: the probe of the driver just bound, if it has one. */
    method Announce(n: Node)
      requires ready && 0 <= n.bound < |drivers| && Booked(drivers, nodes, boundCount, probed + ProbeOf(drivers)(n))
      modifies this
      ensures Valid() && ready && drivers == old(drivers) && nodes == old(nodes) + Spawn(drivers, n.device, n.bound)
      decreases n.device, 0
    {
      if drivers[n.bound].hasProbe {
        probed := probed + multiset{n};
        Probe(n.device.children, drivers[n.bound].id);
      } else {
        assert probed + ProbeOf(drivers)(n) == probed;
      }
    }

    /** The assignments of a binding; the probe that the driver may have is still to be made. */
    method Bind(i: nat, n: Node)
      requires Valid() && i < |nodes| && nodes[i].bound < 0 <= n.bound < |drivers|
      modifies `nodes, `boundCount
      ensures nodes == old(nodes)[i := n] && Booked(drivers, nodes, boundCount, probed + ProbeOf(drivers)(n))
    {
      BookedBind(drivers, nodes, boundCount, probed, i, n);
      nodes := nodes[i := n];
      boundCount := boundCount + 1;
    }

    /** A driver's probe: it registers its share of the device's children. */
    method Probe(kids: Children, driver: int)
      requires Valid() && ready
      modifies this
      ensures Valid() && ready && drivers == old(drivers)
      ensures nodes == old(nodes) + ExpandChildren(drivers, kids, driver)
      decreases kids
    {
      match kids {
        case NoChild =>
          assert nodes == nodes + [];
        case Child(k, device, rest) =>
          ghost var first := if k == driver then Expand(drivers, device) else [];
          Reassociate(nodes, first, ExpandChildren(drivers, rest, driver));
          if k == driver {
            var _ := RegisterDevice(device);
          }
          Probe(rest, driver);
      }
    }

    /** The driver loop of driver_register_device: device `i` is offered to every driver in turn. */
    method OfferToDrivers(i: nat, d: Device)
      requires Valid() && ready && i == |nodes| - 1 && nodes[i] == Node(d, -1)
      modifies this
      ensures Valid() && ready && drivers == old(drivers)
      ensures nodes == old(nodes)[..i] + Offered(drivers, d, Earliest(drivers, d))
      decreases d, 2
    {
      ghost var base := nodes[..i];
      var k := 0;
      OfferedStart(drivers, d);
      while k < |drivers|
        invariant 0 <= k <= |drivers| && drivers == old(drivers) && Valid() && ready
        invariant nodes == base + Offered(drivers, d, Earliest(drivers[..k], d))
      {
        OfferedStep(drivers, d, k, base);
        TryBind(i, k, d);
        k := k + 1;
      }
      assert drivers[..k] == drivers;
    }

    /** driver_register_device */
    method RegisterDevice(d: Device) returns (ok: bool)
      requires Valid()
      modifies this
      ensures Valid() && ready == old(ready) && drivers == old(drivers)
      ensures ok <==> ready && Accepted(d)
      ensures nodes == if ready then old(nodes) + Expand(drivers, d) else old(nodes)
      decreases d, 3
    {
      if !ready || !d.named || !d.memory {
        assert nodes + [] == nodes;
        return false;
      }
      AppendUnbound(drivers, nodes, d);
      nodes := nodes + [Node(d, -1)];
      OfferToDrivers(|nodes| - 1, d);
      return true;
    }

    /** One turn of the device loop of driver_register_driver. */
    method OfferNext(i: nat, k: nat, ghost was: seq<Node>)
      requires Valid() && ready && k < |drivers| && i < |nodes| && nodes == Progress(drivers, was, i, k)
      modifies this
      ensures Valid() && ready && drivers == old(drivers)
      ensures nodes == Progress(drivers, was, i + 1, k)
      ensures |was| <= |old(nodes)| <= |nodes| && (i >= |was| ==> |nodes| == |old(nodes)|)
    {
      SweptNext(drivers, was, i, k);
      TryBind(i, k, nodes[i].device);
    }

    /** The device loop of driver_register_driver; the list grows under it as probes add devices. */
    method OfferToDevices(ghost was: seq<Node>)
      requires Valid() && ready && nodes == was && drivers != []
      modifies this
      ensures Valid() && ready && drivers == old(drivers)
      ensures nodes == Swept(drivers, was, |was|, |drivers| - 1)
    {
      var i, k := 0, |drivers| - 1;
      ghost var all := drivers;
      ProgressEnds(all, was, k);
      while i < |nodes|
        invariant drivers == all && Valid() && ready
        invariant 0 <= i <= |nodes| && |was| <= |nodes|
        invariant nodes == Progress(all, was, i, k)
        decreases if i < |was| then |was| - i else 0, |nodes| - i
      {
        OfferNext(i, k, was);
        i := i + 1;
      }
    }

    /** driver_register_driver */
    method RegisterDriver(r: Driver, named: bool, memory: bool) returns (ok: bool)
      requires Valid()
      modifies this
      ensures Valid() && ready == old(ready)
      ensures ok <==> ready && named && memory
      ensures !ok ==> drivers == old(drivers) && nodes == old(nodes)
      ensures ok ==> Registry(drivers, nodes) == Step(old(Registry(drivers, nodes)), AddDriver(r))
    {
      if !ready || !named || !memory {
        return false;
      }
      BookedLater(drivers, nodes, boundCount, probed, r);
      SweptIsStep(drivers, nodes, r);
      drivers := drivers + [r];
      OfferToDevices(nodes);
      return true;
    }
  }

  /** The bound counter and the probes made agree with the bindings. */
  ghost predicate Booked(drivers: seq<Driver>, nodes: seq<Node>, boundCount: nat, probed: multiset<Node>) {
    && (forall i :: 0 <= i < |nodes| ==> -1 <= nodes[i].bound < |drivers|)
    && boundCount == CountBound(nodes)
    && probed == Probes(drivers, nodes)
  }

  lemma {:induction false} BookedBind(drivers: seq<Driver>, nodes: seq<Node>, boundCount: nat, probed: multiset<Node>, i: nat, n: Node)
    requires Booked(drivers, nodes, boundCount, probed) && i < |nodes| && nodes[i].bound < 0 <= n.bound < |drivers|
    ensures Booked(drivers, nodes[i := n], boundCount + 1, probed + ProbeOf(drivers)(n))
  {
    CountBind(nodes, i, n);
    ProbeBind(drivers, nodes, i, n);
  }

  /** A device, freshly appended, once the drivers up to the one it took have been offered. */
  function Offered(drivers: seq<Driver>, d: Device, e: int): seq<Node>
    requires -1 <= e < |drivers|
  {
    [Node(d, e)] + if e < 0 then [] else Spawn(drivers, d, e)
  }

  lemma {:induction false} AppendUnbound(drivers: seq<Driver>, nodes: seq<Node>, d: Device)
    ensures CountBound(nodes + [Node(d, -1)]) == CountBound(nodes)
    ensures Probes(drivers, nodes + [Node(d, -1)]) == Probes(drivers, nodes)
  {
    CountJoin(nodes, [Node(d, -1)]);
    TotalJoin(ProbeOf(drivers), nodes, [Node(d, -1)]);
    TotalOne(ProbeOf(drivers), Node(d, -1));
  }

  /** The device list when the first `m` old devices have been offered driver `k`. */
  function Swept(drivers: seq<Driver>, was: seq<Node>, m: nat, k: int): seq<Node>
    requires m <= |was| && 0 <= k < |drivers|
  {
    OfferAll(was[..m], drivers[k], k) + was[m..] + SpawnAll(drivers, was[..m], k)
  }

  lemma {:induction false} SweptStart(drivers: seq<Driver>, was: seq<Node>, k: int)
    requires 0 <= k < |drivers|
    ensures Swept(drivers, was, 0, k) == was
  {
    assert was[..0] == [] && was[0..] == was;
  }

  lemma {:induction false} SweptEnd(drivers: seq<Driver>, was: seq<Node>, k: int)
    requires 0 <= k < |drivers|
    ensures Swept(drivers, was, |was|, k) == OfferAll(was, drivers[k], k) + SpawnAll(drivers, was, k)
  {
    assert was[..|was|] == was && was[|was|..] == [];
    DropEmpty(OfferAll(was, drivers[k], k), SpawnAll(drivers, was, k));
  }

  lemma {:induction false} DropEmpty<A>(a: seq<A>, b: seq<A>)
    ensures a + [] + b == a + b
  {
  }

  lemma {:induction false} SweptIsStep(drivers: seq<Driver>, nodes: seq<Node>, r: Driver)
    ensures Registry(drivers + [r], Swept(drivers + [r], nodes, |nodes|, |drivers|)) == Step(Registry(drivers, nodes), AddDriver(r))
  {
    SweptEnd(drivers + [r], nodes, |drivers|);
  }

  lemma {:induction false} BookedLater(drivers: seq<Driver>, nodes: seq<Node>, boundCount: nat, probed: multiset<Node>, r: Driver)
    requires Booked(drivers, nodes, boundCount, probed)
    ensures Booked(drivers + [r], nodes, boundCount, probed)
  {
    ProbesKept(drivers, r, nodes);
  }

  lemma {:induction false} ReplaceMiddle<A>(o: seq<A>, n: A, m: A, rest: seq<A>, sp: seq<A>, t: seq<A>)
    ensures (o + ([n] + rest) + sp)[|o|] == n
    ensures (o + ([n] + rest) + sp)[|o| := m] + t == o + [m] + rest + (sp + t)
    ensures o + [n] + rest + (sp + []) == o + ([n] + rest) + sp
  {
  }

  /** Offering the driver to old device `i`. */
  lemma {:induction false} SweptStep(drivers: seq<Driver>, was: seq<Node>, i: nat, k: int)
    requires i < |was| && 0 <= k < |drivers|
    ensures var s := Swept(drivers, was, i, k);
            && i < |s| && s[i] == was[i]
            && Swept(drivers, was, i + 1, k) ==
               if was[i].bound < 0 && Matches(drivers[k], was[i].device)
               then s[i := Node(was[i].device, k)] + Spawn(drivers, was[i].device, k) else s
  {
    var n := was[i];
    var o, rest, sp := OfferAll(was[..i], drivers[k], k), was[i + 1..], SpawnAll(drivers, was[..i], k);
    var t := if n.bound < 0 && Matches(drivers[k], n.device) then Spawn(drivers, n.device, k) else [];
    ReplaceMiddle(o, n, Offer(n, drivers[k], k), rest, sp, t);
    assert was[i..] == [n] + rest;
    SpawnLast(drivers, was, i, k);
    assert was[..i + 1] == was[..i] + [n];
    OfferLast(was[..i], n, drivers[k], k);
  }

  lemma {:induction false} SpawnLast(drivers: seq<Driver>, was: seq<Node>, i: nat, k: int)
    requires i < |was| && 0 <= k < |drivers|
    ensures SpawnAll(drivers, was[..i + 1], k) ==
            SpawnAll(drivers, was[..i], k)
            + if was[i].bound < 0 && Matches(drivers[k], was[i].device) then Spawn(drivers, was[i].device, k) else []
  {
    assert was[..i + 1][..i] == was[..i];
  }

  /** Devices that probes added during the sweep were offered the driver when they were registered. */
  lemma {:induction false} SweptRest(drivers: seq<Driver>, was: seq<Node>, i: nat, k: int)
    requires 0 <= k < |drivers| && |was| <= i < |Swept(drivers, was, |was|, k)|
    ensures var n := Swept(drivers, was, |was|, k)[i];
            !(n.bound < 0 && Matches(drivers[k], n.device))
  {
    SweptEnd(drivers, was, k);
    SpawnAllSettled(drivers, was, k);
    var n := Swept(drivers, was, |was|, k)[i];
    assert n in SpawnAll(drivers, was, k);
  }

  /** The device list when the loop has reached index `i`, be it an old device or a new one. */
  function Progress(drivers: seq<Driver>, was: seq<Node>, i: nat, k: int): seq<Node>
    requires 0 <= k < |drivers|
  {
    Swept(drivers, was, if i < |was| then i else |was|, k)
  }

  lemma {:induction false} ProgressEnds(drivers: seq<Driver>, was: seq<Node>, k: int)
    requires 0 <= k < |drivers|
    ensures Progress(drivers, was, 0, k) == was
    ensures forall i: nat :: i >= |was| ==> Progress(drivers, was, i, k) == Swept(drivers, was, |was|, k)
  {
    SweptStart(drivers, was, k);
  }

  /** What one turn of the device loop does to the list. */
  lemma {:induction false} SweptNext(drivers: seq<Driver>, was: seq<Node>, i: nat, k: int)
    requires 0 <= k < |drivers|
    requires i < |Progress(drivers, was, i, k)|
    ensures var s := Progress(drivers, was, i, k);
            var t := Progress(drivers, was, i + 1, k);
            && |was| <= |s| <= |t|
            && (i >= |was| ==> t == s)
            && t == if s[i].bound < 0 && Matches(drivers[k], s[i].device)
                    then s[i := Node(s[i].device, k)] + Spawn(drivers, s[i].device, k) else s
  {
    if i < |was| {
      SweptStep(drivers, was, i, k);
    } else {
      SweptRest(drivers, was, i, k);
    }
  }

  lemma {:induction false} OfferedStart(drivers: seq<Driver>, d: Device)
    ensures Offered(drivers, d, Earliest(drivers[..0], d)) == [Node(d, -1)]
  {
    assert drivers[..0] == [];
  }

  /** What one turn of the driver loop does to the list. */
  lemma {:induction false} OfferedStep(drivers: seq<Driver>, d: Device, k: nat, base: seq<Node>)
    requires k < |drivers|
    ensures var s := base + Offered(drivers, d, Earliest(drivers[..k], d));
            var t := base + Offered(drivers, d, Earliest(drivers[..k + 1], d));
            && s[|base|].device == d
            && t == if s[|base|].bound < 0 && Matches(drivers[k], d)
                    then s[|base| := Node(d, k)] + Spawn(drivers, d, k) else s
  {
    assert drivers[..k + 1][..k] == drivers[..k];
    var e := Earliest(drivers[..k], d);
    if e < 0 {
      BindLast(base, Node(d, e), Node(d, k), Spawn(drivers, d, k));
    }
  }

  lemma {:induction false} BindLast<A>(base: seq<A>, n: A, m: A, t: seq<A>)
    ensures base + ([n] + []) == base + [n] && (base + [n])[|base| := m] + t == base + ([m] + t)
  {
  }
}
