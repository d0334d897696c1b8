/** The tree of PCI functions, and the order in which a depth-first scan lists it. */
module PciTree {
  datatype Function = Function(bus: int, device: int, fn: int)

  /** How many devices a bus has room for, and what the scan asks of a function: is it there, is it a bridge,
      and to which bus. */
  datatype Topology = Topology(devices: nat, found: Function -> bool, bridge: Function -> bool, below: Function -> int)

  predicate Present(net: Topology, h: Function) {
    0 <= h.bus < 256 && 0 <= h.device < net.devices && 0 <= h.fn < 8 && net.found(h)
  }

  /** The buses of `buses` contain what their bridges lead to, and every bridge leads to a lower rank. Such a choice
      exists exactly if no bridges lead in a circle (PciTheorems.RankedIff), and that is exactly when the scan ends
      (PciTheorems.ScanEndsIff). */
  ghost predicate Ranked(net: Topology, buses: set<int>, rank: int -> nat) {
    && (forall b :: b in buses ==> 0 <= b < 256)
    && forall h: Function {:trigger net.below(h)} :: h.bus in buses && Present(net, h) && net.bridge(h) ==>
         net.below(h) in buses && rank(net.below(h)) < rank(h.bus)
  }

  // ------------------------------------------------------------------ specification

  /** The functions present on a bus before function `f` of device `d`, in order. */
  function Local(net: Topology, bus: int, d: nat, f: nat): (hs: seq<Function>)
    requires 0 <= bus < 256 && d <= net.devices && f <= 8 && (d == net.devices ==> f == 0)
    ensures forall h: Function :: h in hs <==>
              Present(net, h) && h.bus == bus && (h.device < d || (h.device == d && h.fn < f))
    decreases d, f
  {
    if f > 0 then
      var h := Function(bus, d, f - 1);
      Local(net, bus, d, f - 1) + if Present(net, h) then [h] else []
    else if d > 0 then Local(net, bus, d - 1, 8)
    else []
  }

  /** The visit of some functions of one bus: each after everything behind it. */
  ghost function Visit(net: Topology, bus: int, hs: seq<Function>, buses: set<int>, rank: int -> nat): seq<Function>
    requires Ranked(net, buses, rank) && bus in buses
    requires forall h :: h in hs ==> Present(net, h) && h.bus == bus
    decreases rank(bus), |hs|
  {
    if hs == [] then []
    else
      var n := |hs| - 1;
      Visit(net, bus, hs[..n], buses, rank) + Behind(net, hs[n], buses, rank) + [hs[n]]
  }

  ghost function Behind(net: Topology, h: Function, buses: set<int>, rank: int -> nat): seq<Function>
    requires Ranked(net, buses, rank) && h.bus in buses && Present(net, h)
    decreases rank(h.bus), 0
  {
    if net.bridge(h) then
      var b := net.below(h);
      assert b in buses;
      Visit(net, b, Local(net, b, net.devices, 0), buses, rank)
    else []
  }

  ghost function All(net: Topology, bus: int, buses: set<int>, rank: int -> nat): seq<Function>
    requires Ranked(net, buses, rank) && bus in buses
  {
    Visit(net, bus, Local(net, bus, net.devices, 0), buses, rank)
  }

  /** What the scan of a bus has listed when it comes to function `f` of device `d`. */
  ghost function Seen(net: Topology, bus: int, d: nat, f: nat, buses: set<int>, rank: int -> nat): seq<Function>
    requires Ranked(net, buses, rank) && bus in buses && d <= net.devices && f <= 8 && (d == net.devices ==> f == 0)
  {
    Visit(net, bus, Local(net, bus, d, f), buses, rank)
  }

  lemma SeenStep(net: Topology, bus: int, d: nat, f: nat, buses: set<int>, rank: int -> nat)
    requires Ranked(net, buses, rank) && bus in buses && d < net.devices && f < 8
    ensures var h := Function(bus, d, f);
      Seen(net, bus, d, f + 1, buses, rank) ==
      if Present(net, h) then Seen(net, bus, d, f, buses, rank) + Behind(net, h, buses, rank) + [h]
      else Seen(net, bus, d, f, buses, rank)
  {
    var h, hs := Function(bus, d, f), Local(net, bus, d, f);
    if Present(net, h) {
      assert Local(net, bus, d, f + 1) == hs + [h];
      assert (hs + [h])[..|hs|] == hs;
    } else {
      assert Local(net, bus, d, f + 1) == hs + [] == hs;
    }
  }

  lemma {:induction false} SeenSkip(net: Topology, bus: int, d: nat, f: nat, buses: set<int>, rank: int -> nat)
    requires Ranked(net, buses, rank) && bus in buses && d < net.devices && f <= 8
    requires forall e :: f <= e < 8 ==> !Present(net, Function(bus, d, e))
    ensures Seen(net, bus, d, 8, buses, rank) == Seen(net, bus, d, f, buses, rank)
    decreases 8 - f
  {
    if f == 8 {
    } else {
      assert !Present(net, Function(bus, d, f));
      SeenStep(net, bus, d, f, buses, rank);
      SeenSkip(net, bus, d, f + 1, buses, rank);
    }
  }
}
