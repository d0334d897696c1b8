/** Enumeration of the PCI bus (kernel/src/pci.c). */
module Pci {
  import opened Arithmetic
  import opened PciConfig
  import opened PciTree

  const ABSENT := 0xFFFF
  const LAST_DEVICE := 31

  /** The functions the scan finds in a configuration space: function 0 of a device first, and the others
      only of a multi-function device. */
  predicate Found(space: Space, h: Function) {
    && Vendor(space, h.bus, h.device, 0) != ABSENT
    && (h.fn != 0 ==> HeaderType(space, h.bus, h.device, 0) >= 0x80 && Vendor(space, h.bus, h.device, h.fn) != ABSENT)
  }

  predicate IsBridge(space: Space, h: Function) {
    Class(space, h.bus, h.device, h.fn) == 0x06 && Subclass(space, h.bus, h.device, h.fn) == 0x04
  }

  /** The tree answers for each function what the configuration space holds, on buses of 32 devices. */
  ghost predicate Describes(net: Topology, space: Space) {
    net.devices - 1 == LAST_DEVICE && forall h: Function ::
      && net.found(h) == Found(space, h)
      && net.bridge(h) == IsBridge(space, h)
      && net.below(h) == SecondaryBus(space, h.bus, h.device, h.fn)
  }

  /** No function answers: its vendor bytes are all ones. */
  predicate Silent(space: Space, b: int, d: int, f: int) {
    RegisterByte(space, b, d, f, 0, 0) == 0xFF && RegisterByte(space, b, d, f, 0, 1) == 0xFF
  }

  /** What the tree holds, in terms of the bytes of the PCI header: presence, bit 7 of the header type of function 0 for
      the other functions of a device, class and subclass of a bridge, and its secondary bus. */
  lemma TreeIsOfHeaders(net: Topology, space: Space, h: Function)
    requires IsSpace(space) && Describes(net, space)
    ensures Present(net, h) <==>
      && 0 <= h.bus < 256 && 0 <= h.device < 32 && 0 <= h.fn < 8 && !Silent(space, h.bus, h.device, 0)
      && (h.fn != 0 ==> RegisterByte(space, h.bus, h.device, 0, 0xC, 2) >= 128 && !Silent(space, h.bus, h.device, h.fn))
    ensures net.bridge(h) <==>
      && RegisterByte(space, h.bus, h.device, h.fn, 0x8, 3) == 6
      && RegisterByte(space, h.bus, h.device, h.fn, 0x8, 2) == 4
    ensures net.below(h) == RegisterByte(space, h.bus, h.device, h.fn, 0x18, 1)
  {
    FieldsAreHeaderBytes(space, h.bus, h.device, 0);
    FieldsAreHeaderBytes(space, h.bus, h.device, h.fn);
    VendorBytes(space, h.bus, h.device, 0);
    VendorBytes(space, h.bus, h.device, h.fn);
    assert net.found(h) == Found(space, h) && net.bridge(h) == IsBridge(space, h);
    assert net.below(h) == SecondaryBus(space, h.bus, h.device, h.fn);
  }

  lemma VendorBytes(space: Space, b: int, d: int, f: int)
    requires IsSpace(space)
    ensures Vendor(space, b, d, f) == ABSENT <==> Silent(space, b, d, f)
  {
    var dword := space(Address(b, d, f, 0));
    var h, l := dword / 0x100, dword % 0x100;
    DivUnique(dword, 0x1_0000, h / 0x100, 0x100 * (h % 0x100) + l);
  }

  /** Every configuration space has such a tree. */
  lemma TreeOf(space: Space) returns (net: Topology)
    ensures Describes(net, space)
  {
    net := Topology(LAST_DEVICE + 1, h => Found(space, h), h => IsBridge(space, h),
                    (h: Function) => SecondaryBus(space, h.bus, h.device, h.fn));
  }

  /** scan_pci_buses calls check_bus for bus `f`: for bus 0, or, behind a multi-function host, for the number of each
      function before the first that is there. */
  predicate Scanned(space: Space, f: int) {
    if HeaderType(space, 0, 0, 0) < 0x80 then f == 0
    else 0 <= f < 8 && forall g {:trigger Vendor(space, 0, 0, g)} :: 0 <= g <= f ==> Vendor(space, 0, 0, g) == ABSENT
  }

  lemma ScannedBefore(space: Space, n: nat)
    requires HeaderType(space, 0, 0, 0) >= 0x80 && n <= 8
    requires forall f :: 0 <= f < n ==> Vendor(space, 0, 0, f) == ABSENT
    requires n < 8 ==> Vendor(space, 0, 0, n) != ABSENT
    ensures forall f :: 0 <= f < 8 ==> (Scanned(space, f) <==> f < n)
  {
  }

  class Scanner {
    const space: Space
    ghost const tree: Topology
    var devices: seq<Function>      // pci_connected_devices

    constructor (space: Space, ghost net: Topology)
      requires Describes(net, space)
      ensures this.space == space && tree == net && Matches() && devices == []
    {
      this.space, tree, devices := space, net, [];
    }

    ghost predicate Matches() {
      Describes(tree, space)
    }

    /** scan_pci_buses */
    method ScanBuses(ghost buses: set<int>, ghost rank: int -> nat) returns (ghost hosts: nat)
      requires Matches() && Ranked(tree, buses, rank) && forall f :: Scanned(space, f) ==> f in buses
      modifies this`devices
      ensures HeaderType(space, 0, 0, 0) < 0x80 ==>
        Scanned(space, 0) && devices == old(devices) + All(tree, 0, buses, rank)
      ensures HeaderType(space, 0, 0, 0) >= 0x80 ==>
        && hosts <= 8 && (forall f :: 0 <= f < 8 ==> (Scanned(space, f) <==> f < hosts))
        && devices == old(devices) + Hosts(tree, hosts, buses, rank)
    {
      hosts := 0;
      if HeaderType(space, 0, 0, 0) < 0x80 {
        assert Scanned(space, 0);
        CheckBus(0, buses, rank);
      } else {
        hosts := ScanHosts(buses, rank);
      }
    }

    /** Its loop for a multi-function host: it stops at the first function that is there, and scans a bus
        for each one before that is not. */
    method ScanHosts(ghost buses: set<int>, ghost rank: int -> nat) returns (ghost hosts: nat)
      requires Matches() && Ranked(tree, buses, rank) && forall f :: Scanned(space, f) ==> f in buses
      requires HeaderType(space, 0, 0, 0) >= 0x80
      modifies this`devices
      ensures hosts <= 8 && forall f :: 0 <= f < 8 ==> (Scanned(space, f) <==> f < hosts)
      ensures devices == old(devices) + Hosts(tree, hosts, buses, rank)
    {
      var fn := 0;
      while fn < 8 && Vendor(space, 0, 0, fn) == ABSENT
        invariant 0 <= fn <= 8
        invariant forall f :: 0 <= f < fn ==> Vendor(space, 0, 0, f) == ABSENT
        invariant forall f :: 0 <= f < fn ==> f in buses
        invariant devices == old(devices) + Hosts(tree, fn, buses, rank)
      {
        assert Scanned(space, fn);
        CheckBus(fn, buses, rank);
        fn := fn + 1;
      }
      hosts := fn;
      ScannedBefore(space, hosts);
    }

    /** check_bus */
    method CheckBus(bus: int, ghost buses: set<int>, ghost rank: int -> nat)
      requires Matches() && Ranked(tree, buses, rank) && bus in buses
      modifies this`devices
      ensures devices == old(devices) + All(tree, bus, buses, rank)
      decreases rank(bus), 3
    {
      var device := 0;
      while device < 32
        invariant 0 <= device <= 32
        invariant devices == old(devices) + Seen(tree, bus, device, 0, buses, rank)
      {
        CheckDevice(bus, device, buses, rank, old(devices));
        device := device + 1;
      }
    }

    /** check_device; `before` is the list at the start of the bus. */
    method CheckDevice(bus: int, device: int, ghost
        buses: set<int>, ghost rank: int -> nat, ghost before: seq<Function>)
      requires Matches() && Ranked(tree, buses, rank) && bus in buses && 0 <= device < 32
      requires devices == before + Seen(tree, bus, device, 0, buses, rank)
      modifies this`devices
      ensures devices == before + Seen(tree, bus, device, 8, buses, rank)
      decreases rank(bus), 2
    {
      var fn := 0;
      if Vendor(space, bus, device, fn) == ABSENT {
        SeenSkip(tree, bus, device, 0, buses, rank);
        return;
      }
      CheckFunction(bus, device, fn, buses, rank, before);
      if HeaderType(space, bus, device, fn) >= 0x80 {
        fn := 1;
        while fn < 8
          invariant 1 <= fn <= 8
          invariant devices == before + Seen(tree, bus, device, fn, buses, rank)
        {
          if Vendor(space, bus, device, fn) != ABSENT {
            CheckFunction(bus, device, fn, buses, rank, before);
          } else {
            SeenStep(tree, bus, device, fn, buses, rank);
          }
          fn := fn + 1;
        }
      } else {
        SeenSkip(tree, bus, device, 1, buses, rank);
      }
    }

    /** check_function, for a function that is present. */
    method CheckFunction(bus: int, device: int, fn: int, ghost buses: set<int>, ghost rank: int -> nat,
                         ghost before: seq<Function>)
      requires Matches() && Ranked(tree, buses, rank) && bus in buses && 0 <= device < 32 && 0 <= fn < 8
      requires Present(tree, Function(bus, device, fn))
      requires devices == before + Seen(tree, bus, device, fn, buses, rank)
      modifies this`devices
      ensures devices == before + Seen(tree, bus, device, fn + 1, buses, rank)
      decreases rank(bus), 1
    {
      ghost var h := Function(bus, device, fn);
      ghost var seen := Seen(tree, bus, device, fn, buses, rank);
      SeenStep(tree, bus, device, fn, buses, rank);
      FollowBridge(bus, device, fn, buses, rank);
      ghost var behind := Behind(tree, h, buses, rank);
      devices := devices + [Function(bus, device, fn)];
      Regroup(before, seen, behind, [h]);
    }

    /** The first half of check_function. */
    method FollowBridge(bus: int, device: int, fn: int, ghost buses: set<int>, ghost rank: int -> nat)
      requires Matches() && Ranked(tree, buses, rank) && bus in buses
      requires Present(tree, Function(bus, device, fn))
      modifies this`devices
      ensures devices == old(devices) + Behind(tree, Function(bus, device, fn), buses, rank)
      decreases rank(bus), 0
    {
      if IsBridge(space, Function(bus, device, fn)) {
        ghost var h := Function(bus, device, fn);
        assert tree.found(h) && tree.below(h) in buses;
        CheckBus(SecondaryBus(space, bus, device, fn), buses, rank);
      }
    }
  }

  /** What bus scans list that run for buses 0, 1, ... before `n`. */
  ghost function Hosts(net: Topology, n: nat, buses: set<int>, rank: int -> nat): seq<Function>
    requires Ranked(net, buses, rank) && forall b :: 0 <= b < n ==> b in buses
  {
    if n == 0 then [] else Hosts(net, n - 1, buses, rank) + All(net, n - 1, buses, rank)
  }

  lemma Regroup<T>(a: seq<T>, b: seq<T>, c: seq<T>, d: seq<T>)
    ensures a + b + c + d == a + (b + c + d)
  {
  }
}
