/** What the PCI scan lists: the functions that bridges lead to, each behind its bridge. */
module PciTheorems {
  import opened Pci
  import opened PciConfig
  import opened PciTree

  // ------------------------------------------------------------------ reachability

  /** The bridges of `p` lead, one after the other, from bus `s` to bus `t`. */
  ghost predicate Path(net: Topology, s: int, p: seq<Function>, t: int) {
    if p == [] then s == t
    else
      var h := p[|p| - 1];
      Present(net, h) && net.bridge(h) && net.below(h) == t && Path(net, s, p[..|p| - 1], h.bus)
  }

  ghost predicate Reachable(net: Topology, s: int, x: Function) {
    Present(net, x) && Leads(net, s, x.bus)
  }

  /** Bus `t` lies behind bus `s`, or is it. */
  ghost predicate Leads(net: Topology, s: int, t: int) {
    exists p :: Path(net, s, p, t)
  }

  lemma {:induction false} PathConcat(net: Topology, r: int, p: seq<Function>, s: int, q: seq<Function>, t: int)
    requires Path(net, r, p, s) && Path(net, s, q, t)
    ensures Path(net, r, p + q, t)
    decreases |q|
  {
    if q == [] {
      assert p + q == p;
    } else {
      var n := |q| - 1;
      assert (p + q)[..|p + q| - 1] == p + q[..n];
      PathConcat(net, r, p, s, q[..n], q[n].bus);
    }
  }

  lemma Step(net: Topology, h: Function)
    requires Present(net, h) && net.bridge(h)
    ensures Path(net, h.bus, [h], net.below(h))
  {
    assert [h][..0] == [];
  }

  lemma {:induction false} PathFirst(net: Topology, s: int, p: seq<Function>, t: int)
    requires Path(net, s, p, t) && p != []
    ensures p[0].bus == s && Present(net, p[0]) && net.bridge(p[0])
    ensures Path(net, net.below(p[0]), p[1..], t)
    decreases |p|
  {
    var n := |p| - 1;
    if n == 0 {
    } else {
      PathFirst(net, s, p[..n], p[n].bus);
      assert p[..n][1..] == p[1..][..n - 1];
    }
  }

  lemma {:induction false} PathDescends(net: Topology, s: int, p: seq<Function>, t: int,
      buses: set<int>, rank: int -> nat)
    requires Ranked(net, buses, rank) && s in buses && Path(net, s, p, t)
    ensures t in buses && rank(t) + |p| <= rank(s)
    decreases |p|
  {
    if p == [] {
    } else {
      PathDescends(net, s, p[..|p| - 1], p[|p| - 1].bus, buses, rank);
    }
  }

  /** The scan needs bridges that lead away: none can be ranked that come back to their bus. */
  lemma CyclesCannotBeRanked(net: Topology, s: int, p: seq<Function>, buses: set<int>, rank: int -> nat)
    requires p != [] && Path(net, s, p, s) && s in buses
    ensures !Ranked(net, buses, rank)
  {
    if Ranked(net, buses, rank) {
      PathDescends(net, s, p, s, buses, rank);
    }
  }

  /** Around a circle of bridges the scan descends beyond any depth. */
  lemma {:induction false} CirclesNest(net: Topology, s: int, p: seq<Function>, n: nat) returns (q: seq<Function>)
    requires p != [] && Path(net, s, p, s)
    ensures Path(net, s, q, s) && |q| >= n
    decreases n
  {
    if n == 0 {
      q := p;
    } else {
      var r := CirclesNest(net, s, p, n - 1);
      PathConcat(net, s, r, s, p, s);
      q := r + p;
    }
  }

  /** No bridges behind bus `s` lead in a circle. */
  ghost predicate Acyclic(net: Topology, s: int) {
    forall t, p {:trigger Path(net, t, p, t)} :: Leads(net, s, t) && p != [] ==> !Path(net, t, p, t)
  }

  /** Bus numbers are bytes. */
  ghost predicate ByteBuses(net: Topology) {
    forall h: Function {:trigger net.below(h)} :: 0 <= net.below(h) < 256
  }

  ghost function BusesFrom(net: Topology, s: int): set<int> {
    set t: int | 0 <= t < 256 && Leads(net, s, t)
  }

  lemma SmallerSet(A: set<int>, B: set<int>)
    requires A < B
    ensures |A| < |B|
  {
    assert B == A + (B - A);
    assert |B - A| > 0;
  }

  /** Without a circle there are fewer buses behind a bridge than behind the bus it is on. */
  lemma FewerBehind(net: Topology, s: int, h: Function)
    requires Leads(net, s, h.bus) && Acyclic(net, s) && Present(net, h) && net.bridge(h)
    ensures |BusesFrom(net, net.below(h))| < |BusesFrom(net, h.bus)|
  {
    var A, B := BusesFrom(net, net.below(h)), BusesFrom(net, h.bus);
    Step(net, h);
    forall t | t in A ensures t in B {
      var q :| Path(net, net.below(h), q, t);
      PathConcat(net, h.bus, [h], net.below(h), q, t);
    }
    assert Path(net, h.bus, [], h.bus);
    if h.bus in A {
      var q :| Path(net, net.below(h), q, h.bus);
      assert |[h] + q| > 0;
      PathConcat(net, h.bus, [h], net.below(h), q, h.bus);
    }
    SmallerSet(A, B);
  }

  /** Bus `t` lies behind one of the buses in `S`. */
  ghost predicate LedTo(net: Topology, S: set<int>, t: int) {
    exists s :: s in S && Leads(net, s, t)
  }

  ghost function BusesFromAny(net: Topology, S: set<int>): set<int> {
    set t: int | 0 <= t < 256 && LedTo(net, S, t)
  }

  lemma BridgeDescends(net: Topology, S: set<int>, h: Function)
    requires ByteBuses(net) && (forall s :: s in S ==> Acyclic(net, s)) && LedTo(net, S, h.bus)
    requires Present(net, h) && net.bridge(h)
    ensures LedTo(net, S, net.below(h)) && |BusesFrom(net, net.below(h))| < |BusesFrom(net, h.bus)|
  {
    var s :| s in S && Leads(net, s, h.bus);
    var p :| Path(net, s, p, h.bus);
    Step(net, h);
    PathConcat(net, s, p, h.bus, [h], net.below(h));
    assert Leads(net, s, net.below(h));
    FewerBehind(net, s, h);
  }

  lemma AcyclicIsRanked(net: Topology, S: set<int>) returns (buses: set<int>, rank: int -> nat)
    requires ByteBuses(net) && forall s :: s in S ==> 0 <= s < 256 && Acyclic(net, s)
    ensures S <= buses && Ranked(net, buses, rank)
  {
    buses, rank := BusesFromAny(net, S), b => |BusesFrom(net, b)|;
    forall s | s in S ensures s in buses {
      assert Path(net, s, [], s) && Leads(net, s, s);
    }
    forall h: Function | h.bus in buses && Present(net, h) && net.bridge(h)
      ensures net.below(h) in buses && rank(net.below(h)) < rank(h.bus)
    {
      BridgeDescends(net, S, h);
    }
  }

  lemma RankedIsAcyclic(net: Topology, s: int, buses: set<int>, rank: int -> nat)
    requires Ranked(net, buses, rank) && s in buses
    ensures Acyclic(net, s)
  {
    forall t, p {:trigger Path(net, t, p, t)} | Leads(net, s, t) && p != [] ensures !Path(net, t, p, t) {
      if Path(net, t, p, t) {
        var q :| Path(net, s, q, t);
        PathDescends(net, s, q, t, buses, rank);
        CyclesCannotBeRanked(net, t, p, buses, rank);
      }
    }
  }

  /** A ranking of the buses behind `S` exists exactly when no bridges there lead in a circle. */
  lemma RankedIff(net: Topology, S: set<int>)
    requires ByteBuses(net) && forall s :: s in S ==> 0 <= s < 256
    ensures (exists buses: set<int>, rank: int -> nat :: S <= buses && Ranked(net, buses, rank)) <==>
      forall s :: s in S ==> Acyclic(net, s)
  {
    if buses: set<int>, rank: int -> nat :| S <= buses && Ranked(net, buses, rank) {
      forall s | s in S ensures Acyclic(net, s) {
        RankedIsAcyclic(net, s, buses, rank);
      }
    } else {
      if forall s :: s in S ==> Acyclic(net, s) {
        var buses, rank := AcyclicIsRanked(net, S);
      }
    }
  }

  ghost function AllBuses(): set<int> {
    set b: int {:trigger Height(b)} | 0 <= b < 256
  }

  function Height(b: int): nat {
    if b < 256 then 256 - b else 0
  }

  /** Bus numbers that grow away from the host, as enumeration firmware assigns them, are always ranked. */
  lemma IncreasingIsRanked(net: Topology)
    requires forall h: Function {:trigger net.below(h)} :: 
      Present(net, h) && net.bridge(h) ==> h.bus < net.below(h) < 256
    ensures Ranked(net, AllBuses(), Height)
  {
  }

  // ------------------------------------------------------------------ what is listed

  lemma {:induction false} VisitedIsReachable(net: Topology, s: int, hs: seq<Function>, x: Function,
      buses: set<int>, rank: int -> nat)
    requires Ranked(net, buses, rank) && s in buses
    requires forall h :: h in hs ==> Present(net, h) && h.bus == s
    requires x in Visit(net, s, hs, buses, rank)
    ensures Reachable(net, s, x)
    ensures x in hs || exists h :: h in hs && x in Behind(net, h, buses, rank)
    decreases rank(s), |hs|
  {
    var n := |hs| - 1;
    var h := hs[n];
    if x == h {
      assert Path(net, s, [], s);
    } else if x in Visit(net, s, hs[..n], buses, rank) {
      VisitedIsReachable(net, s, hs[..n], x, buses, rank);
    } else {
      var b := net.below(h);
      VisitedIsReachable(net, b, Local(net, b, net.devices, 0), x, buses, rank);
      var p :| Path(net, b, p, x.bus);
      Step(net, h);
      PathConcat(net, s, [h], b, p, x.bus);
    }
  }

  lemma {:induction false} VisitContains(net: Topology, s: int, hs: seq<Function>, h: Function,
      buses: set<int>, rank: int -> nat)
    requires Ranked(net, buses, rank) && s in buses && h in hs
    requires forall g :: g in hs ==> Present(net, g) && g.bus == s
    ensures h in Visit(net, s, hs, buses, rank)
    ensures forall x :: x in Behind(net, h, buses, rank) ==> x in Visit(net, s, hs, buses, rank)
    decreases |hs|
  {
    var n := |hs| - 1;
    if h == hs[n] {
    } else {
      VisitContains(net, s, hs[..n], h, buses, rank);
    }
  }

  lemma {:induction false} ReachableIsListed(net: Topology, s: int, p: seq<Function>, x: Function,
      buses: set<int>, rank: int -> nat)
    requires Ranked(net, buses, rank) && s in buses && Present(net, x) && Path(net, s, p, x.bus)
    ensures x in All(net, s, buses, rank)
    decreases |p|
  {
    var hs := Local(net, s, net.devices, 0);
    if p == [] {
      VisitContains(net, s, hs, x, buses, rank);
    } else {
      PathFirst(net, s, p, x.bus);
      ReachableIsListed(net, net.below(p[0]), p[1..], x, buses, rank);
      VisitContains(net, s, hs, p[0], buses, rank);
    }
  }

  /** The scan of a bus lists the functions reachable from it, and no other. */
  lemma ListedIffReachable(net: Topology, s: int, x: Function, buses: set<int>, rank: int -> nat)
    requires Ranked(net, buses, rank) && s in buses
    ensures x in All(net, s, buses, rank) <==> Reachable(net, s, x)
  {
    if x in All(net, s, buses, rank) {
      VisitedIsReachable(net, s, Local(net, s, net.devices, 0), x, buses, rank);
    }
    if Reachable(net, s, x) {
      var p :| Path(net, s, p, x.bus);
      ReachableIsListed(net, s, p, x, buses, rank);
    }
  }

  // ------------------------------------------------------------------ whether the scan ends

  datatype Listing = Deeper | Listed(list: seq<Function>)

  /** PciTree.Visit without a ranking: a scan that gives up where its calls would nest deeper than `depth`. */
  ghost function BoundedVisit(net: Topology, hs: seq<Function>, depth: nat): Listing
    requires ByteBuses(net)
    decreases depth, |hs|
  {
    if hs == [] then Listed([])
    else
      var n := |hs| - 1;
      var before, behind := BoundedVisit(net, hs[..n], depth), BoundedBehind(net, hs[n], depth);
      if before.Deeper? || behind.Deeper? then Deeper else Listed(before.list + behind.list + [hs[n]])
  }

  ghost function BoundedBehind(net: Topology, h: Function, depth: nat): Listing
    requires ByteBuses(net)
    decreases depth, 0
  {
    if !net.bridge(h) then Listed([])
    else if depth == 0 then Deeper
    else BoundedVisit(net, Local(net, net.below(h), net.devices, 0), depth - 1)
  }

  ghost function BoundedScan(net: Topology, bus: int, depth: nat): Listing
    requires ByteBuses(net) && 0 <= bus < 256
  {
    BoundedVisit(net, Local(net, bus, net.devices, 0), depth)
  }

  /** Where there is a ranking, the rank of the bus is depth enough, and the list is that of the unbounded scan. */
  lemma {:induction false} RankIsDepth(net: Topology, s: int, hs: seq<Function>, depth: nat,
      buses: set<int>, rank: int -> nat)
    requires ByteBuses(net) && Ranked(net, buses, rank) && s in buses
    requires forall h :: h in hs ==> Present(net, h) && h.bus == s
    ensures var visit := Listed(Visit(net, s, hs, buses, rank));
      BoundedVisit(net, hs, depth) == Deeper || BoundedVisit(net, hs, depth) == visit
    ensures depth >= rank(s) ==> BoundedVisit(net, hs, depth).Listed?
    decreases depth, |hs|
  {
    if hs == [] {
    } else {
      var n := |hs| - 1;
      var h := hs[n];
      RankIsDepth(net, s, hs[..n], depth, buses, rank);
      var b := net.below(h);
      assert net.bridge(h) ==> rank(b) < rank(s);
      if net.bridge(h) && depth > 0 {
        RankIsDepth(net, b, Local(net, b, net.devices, 0), depth - 1, buses, rank);
      }
    }
  }

  lemma {:induction false} EachIsListed(net: Topology, hs: seq<Function>, h: Function, depth: nat)
    requires ByteBuses(net) && h in hs && BoundedVisit(net, hs, depth).Listed?
    ensures BoundedBehind(net, h, depth).Listed?
    decreases |hs|
  {
    var n := |hs| - 1;
    if h == hs[n] {
    } else {
      EachIsListed(net, hs[..n], h, depth);
    }
  }

  /** A scan that does not give up has followed every path. */
  lemma {:induction false} DepthBoundsPaths(net: Topology, s: int, p: seq<Function>, t: int, depth: nat)
    requires ByteBuses(net) && 0 <= s < 256 && BoundedScan(net, s, depth).Listed? && Path(net, s, p, t)
    ensures |p| <= depth
    decreases |p|
  {
    if p == [] {
    } else {
      PathFirst(net, s, p, t);
      EachIsListed(net, Local(net, s, net.devices, 0), p[0], depth);
      DepthBoundsPaths(net, net.below(p[0]), p[1..], t, depth - 1);
    }
  }

  /** check_bus returns, that is some depth suffices for its calls, exactly when no bridges behind the bus lead in
      a circle. */
  lemma ScanEndsIff(net: Topology, s: int)
    requires ByteBuses(net) && 0 <= s < 256
    ensures (exists depth: nat :: BoundedScan(net, s, depth).Listed?) <==> Acyclic(net, s)
  {
    if depth: nat :| BoundedScan(net, s, depth).Listed? {
      forall t, p {:trigger Path(net, t, p, t)} | Leads(net, s, t) && p != [] ensures !Path(net, t, p, t) {
        if Path(net, t, p, t) {
          var q :| Path(net, s, q, t);
          var r := CirclesNest(net, t, p, depth + 1);
          PathConcat(net, s, q, t, r, t);
          DepthBoundsPaths(net, s, q + r, t, depth);
        }
      }
    } else {
      if Acyclic(net, s) {
        var buses, rank := AcyclicIsRanked(net, {s});
        RankIsDepth(net, s, Local(net, s, net.devices, 0), rank(s), buses, rank);
        assert BoundedScan(net, s, rank(s)).Listed?;
      }
    }
  }

  /** And what it then lists, at any depth that suffices, is the list of PciTree.All. */
  lemma ScanIsAll(net: Topology, s: int, depth: nat, buses: set<int>, rank: int -> nat)
    requires ByteBuses(net) && Ranked(net, buses, rank) && s in buses && BoundedScan(net, s, depth).Listed?
    ensures BoundedScan(net, s, depth).list == All(net, s, buses, rank)
  {
    RankIsDepth(net, s, Local(net, s, net.devices, 0), depth, buses, rank);
  }

  // ------------------------------------------------------------------ in which order

  /** Right before position `i` stands everything behind the function listed there. */
  ghost predicate PostOrderAt(net: Topology, list: seq<Function>, i: int, buses: set<int>, rank: int -> nat)
    requires Ranked(net, buses, rank) && 0 <= i < |list|
  {
    && Present(net, list[i]) && list[i].bus in buses
    && var behind := Behind(net, list[i], buses, rank);
       |behind| <= i && list[i - |behind|..i] == behind
  }

  ghost predicate PostOrder(net: Topology, list: seq<Function>, buses: set<int>, rank: int -> nat)
    requires Ranked(net, buses, rank)
  {
    forall i {:trigger PostOrderAt(net, list, i, buses, rank)} :: 0 <= i < |list| ==>
      PostOrderAt(net, list, i, buses, rank)
  }

  lemma PostOrderConcat(net: Topology, a: seq<Function>, b: seq<Function>, buses: set<int>, rank: int -> nat)
    requires Ranked(net, buses, rank) && PostOrder(net, a, buses, rank) && PostOrder(net, b, buses, rank)
    ensures PostOrder(net, a + b, buses, rank)
  {
    var c := a + b;
    forall i | 0 <= i < |c| ensures PostOrderAt(net, c, i, buses, rank) {
      if i < |a| {
        assert PostOrderAt(net, a, i, buses, rank);
        var k := |Behind(net, c[i], buses, rank)|;
        assert c[i - k..i] == a[i - k..i];
      } else {
        var j := i - |a|;
        assert PostOrderAt(net, b, j, buses, rank);
        var k := |Behind(net, c[i], buses, rank)|;
        assert c[i - k..i] == b[j - k..j];
      }
    }
  }

  lemma PostOrderLast(net: Topology, a: seq<Function>, h: Function, buses: set<int>, rank: int -> nat)
    requires Ranked(net, buses, rank) && h.bus in buses && Present(net, h)
    requires PostOrder(net, a + Behind(net, h, buses, rank), buses, rank)
    ensures PostOrder(net, a + Behind(net, h, buses, rank) + [h], buses, rank)
  {
    var behind := Behind(net, h, buses, rank);
    var b := a + behind;
    var c := b + [h];
    forall i | 0 <= i < |c| ensures PostOrderAt(net, c, i, buses, rank) {
      if i < |b| {
        assert PostOrderAt(net, b, i, buses, rank);
        var k := |Behind(net, c[i], buses, rank)|;
        assert c[i - k..i] == b[i - k..i];
      } else {
        assert c[i - |behind|..i] == behind;
      }
    }
  }

  lemma {:induction false} VisitIsPostOrder(net: Topology, s: int, hs: seq<Function>, buses: set<int>, rank: int -> nat)
    requires Ranked(net, buses, rank) && s in buses
    requires forall h :: h in hs ==> Present(net, h) && h.bus == s
    ensures PostOrder(net, Visit(net, s, hs, buses, rank), buses, rank)
    decreases rank(s), |hs|
  {
    if hs == [] {
    } else {
      var n := |hs| - 1;
      var h, before := hs[n], Visit(net, s, hs[..n], buses, rank);
      VisitIsPostOrder(net, s, hs[..n], buses, rank);
      if net.bridge(h) {
        var b := net.below(h);
        VisitIsPostOrder(net, b, Local(net, b, net.devices, 0), buses, rank);
      }
      PostOrderConcat(net, before, Behind(net, h, buses, rank), buses, rank);
      PostOrderLast(net, before, h, buses, rank);
    }
  }

  /** The list is in post-order: every bridge right after the functions behind it. */
  lemma ScanIsPostOrder(net: Topology, s: int, buses: set<int>, rank: int -> nat)
    requires Ranked(net, buses, rank) && s in buses
    ensures PostOrder(net, All(net, s, buses, rank), buses, rank)
  {
    VisitIsPostOrder(net, s, Local(net, s, net.devices, 0), buses, rank);
  }

  // ------------------------------------------------------------------ how often

  /** Some function is present on bus `b`. */
  ghost predicate Occupied(net: Topology, b: int) {
    exists x: Function :: Present(net, x) && x.bus == b
  }

  lemma ListOfOccupied(net: Topology, b: int, buses: set<int>, rank: int -> nat)
    requires Ranked(net, buses, rank) && b in buses
    ensures All(net, b, buses, rank) != [] <==> Occupied(net, b)
  {
    var hs := Local(net, b, net.devices, 0);
    if x: Function :| Present(net, x) && x.bus == b {
      VisitContains(net, b, hs, x, buses, rank);
    }
    if hs != [] {
      assert hs[0] in hs;
    }
  }

  /** Two reachable bridges lead to one bus with functions on it. */
  ghost predicate Shared(net: Topology, r: int, g: Function, h: Function) {
    && g != h && Reachable(net, r, g) && Reachable(net, r, h) && net.bridge(g) && net.bridge(h)
    && net.below(g) == net.below(h) && Occupied(net, net.below(g))
  }

  ghost predicate NothingShared(net: Topology, r: int) {
    forall g, h {:trigger Shared(net, r, g, h)} :: !Shared(net, r, g, h)
  }

  ghost predicate Distinct(list: seq<Function>) {
    forall i, j :: 0 <= i < j < |list| ==> list[i] != list[j]
  }

  lemma RepeatedBlock(list: seq<Function>, i: nat, j: nat, block: seq<Function>)
    requires block != [] && |block| <= i <= |list| && |block| <= j <= |list| && i != j
    requires list[i - |block|..i] == block == list[j - |block|..j]
    ensures !Distinct(list)
  {
    var k := |block|;
    assert list[i - k] == block[0] == list[j - k];
  }

  lemma SharedIsListedTwice(net: Topology, r: int, g: Function, h: Function, buses: set<int>, rank: int -> nat)
    requires Ranked(net, buses, rank) && r in buses && Shared(net, r, g, h)
    ensures !Distinct(All(net, r, buses, rank))
  {
    var list := All(net, r, buses, rank);
    ListedIffReachable(net, r, g, buses, rank);
    ListedIffReachable(net, r, h, buses, rank);
    var p :| Path(net, r, p, g.bus);
    PathDescends(net, r, p, g.bus, buses, rank);
    assert net.below(g) in buses;
    ListOfOccupied(net, net.below(g), buses, rank);
    var i :| 0 <= i < |list| && list[i] == g;
    var j :| 0 <= j < |list| && list[j] == h;
    ScanIsPostOrder(net, r, buses, rank);
    assert PostOrderAt(net, list, i, buses, rank) && PostOrderAt(net, list, j, buses, rank);
    var behind := Behind(net, g, buses, rank);
    assert Behind(net, h, buses, rank) == behind;
    RepeatedBlock(list, i, j, behind);
  }

  /** Two paths to one bus: without shared buses, one start lies on the way from the other. */
  lemma {:induction false} PathsMerge(net: Topology, r: int, s1: int, p: seq<Function>, s2: int, q: seq<Function>,
      t: int,
                                      buses: set<int>, rank: int -> nat)
    requires Ranked(net, buses, rank) && r in buses && t in buses && Occupied(net, t)
    requires NothingShared(net, r)
    requires Leads(net, r, s1)
    requires Leads(net, r, s2)
    requires Path(net, s1, p, t) && Path(net, s2, q, t)
    ensures Leads(net, s1, s2) || Leads(net, s2, s1)
    decreases |p|
  {
    if p == [] {
      assert Path(net, s2, q, s1);
    } else if q == [] {
      assert Path(net, s1, p, s2);
    } else {
      var g, h := p[|p| - 1], q[|q| - 1];
      var p', q' := p[..|p| - 1], q[..|q| - 1];
      var a :| Path(net, r, a, s1);
      var b :| Path(net, r, b, s2);
      PathConcat(net, r, a, s1, p', g.bus);
      PathConcat(net, r, b, s2, q', h.bus);
      assert Reachable(net, r, g) && Reachable(net, r, h);
      assert g == h by {
        assert !Shared(net, r, g, h);
      }
      PathDescends(net, r, a + p', g.bus, buses, rank);
      PathsMerge(net, r, s1, p', s2, q', g.bus, buses, rank);
    }
  }

  lemma NoWayBack(net: Topology, r: int, s: int, g: Function, h: Function, d: seq<Function>,
      buses: set<int>, rank: int -> nat)
    requires Ranked(net, buses, rank) && r in buses && s in buses
    requires NothingShared(net, r)
    requires Leads(net, r, s)
    requires g.bus == s && h.bus == s && Present(net, g) && Present(net, h) && net.bridge(g) && net.bridge(h)
    requires Occupied(net, net.below(h)) && net.below(g) != net.below(h)
    ensures !Path(net, net.below(g), d, net.below(h))
  {
    if Path(net, net.below(g), d, net.below(h)) {
      var k := d[|d| - 1];
      var d' := d[..|d| - 1];
      var a :| Path(net, r, a, s);
      Step(net, g);
      PathConcat(net, r, a, s, [g], net.below(g));
      PathConcat(net, r, a + [g], net.below(g), d', k.bus);
      assert Reachable(net, r, k) && Reachable(net, r, h);
      assert k == h by {
        assert !Shared(net, r, k, h);
      }
      PathDescends(net, net.below(g), d', s, buses, rank);
    }
  }

  /** Without shared buses, nothing lies behind two functions of one bus. */
  lemma BehindIsDisjoint(net: Topology, r: int, s: int, g: Function, h: Function, x: Function,
      buses: set<int>, rank: int -> nat)
    requires Ranked(net, buses, rank) && r in buses && s in buses
    requires NothingShared(net, r)
    requires Leads(net, r, s)
    requires g != h && g.bus == s && h.bus == s && Present(net, g) && Present(net, h)
    requires x in Behind(net, g, buses, rank)
    ensures x !in Behind(net, h, buses, rank)
  {
    if x in Behind(net, h, buses, rank) {
      var b, c := net.below(g), net.below(h);
      ReachesBehind(net, r, s, g, x, buses, rank);
      ReachesBehind(net, r, s, h, x, buses, rank);
      assert b != c by {
        assert !Shared(net, r, g, h);
      }
      var p :| Path(net, b, p, x.bus);
      var q :| Path(net, c, q, x.bus);
      PathsMerge(net, r, b, p, c, q, x.bus, buses, rank);
      if d :| Path(net, b, d, c) {
        NoWayBack(net, r, s, g, h, d, buses, rank);
      } else {
        var d :| Path(net, c, d, b);
        NoWayBack(net, r, s, h, g, d, buses, rank);
      }
    }
  }

  lemma ReachesBehind(net: Topology, r: int, s: int, h: Function, x: Function, buses: set<int>, rank: int -> nat)
    requires Ranked(net, buses, rank) && r in buses && s in buses && Leads(net, r, s)
    requires h.bus == s && Present(net, h) && x in Behind(net, h, buses, rank)
    ensures Reachable(net, r, h) && net.bridge(h) && net.below(h) in buses
    ensures exists a :: Path(net, r, a, net.below(h))
    ensures exists p :: Path(net, net.below(h), p, x.bus)
    ensures x.bus in buses && rank(x.bus) < rank(s) && Occupied(net, x.bus) && Occupied(net, net.below(h))
  {
    var b := net.below(h);
    var a :| Path(net, r, a, s);
    Step(net, h);
    PathConcat(net, r, a, s, [h], b);
    ListedIffReachable(net, b, x, buses, rank);
    var p :| Path(net, b, p, x.bus);
    PathDescends(net, b, p, x.bus, buses, rank);
    ListOfOccupied(net, b, buses, rank);
  }

  lemma DistinctConcat(a: seq<Function>, b: seq<Function>)
    requires Distinct(a) && Distinct(b) && forall x :: x in a ==> x !in b
    ensures Distinct(a + b)
  {
    var c := a + b;
    forall i, j | 0 <= i < j < |c| ensures c[i] != c[j] {
      assert i < |a| ==> c[i] in a;
      assert j >= |a| ==> c[j] in b;
    }
  }

  lemma {:induction false} LocalIsDistinct(net: Topology, bus: int, d: nat, f: nat)
    requires 0 <= bus < 256 && d <= net.devices && f <= 8 && (d == net.devices ==> f == 0)
    ensures Distinct(Local(net, bus, d, f))
    decreases d, f
  {
    if f > 0 {
      LocalIsDistinct(net, bus, d, f - 1);
    } else if d > 0 {
      LocalIsDistinct(net, bus, d - 1, 8);
    }
  }

  lemma {:induction false} VisitIsDistinct(net: Topology, r: int, s: int, hs: seq<Function>,
      buses: set<int>, rank: int -> nat)
    requires Ranked(net, buses, rank) && r in buses && s in buses && Leads(net, r, s)
    requires NothingShared(net, r)
    requires Distinct(hs) && forall h :: h in hs ==> Present(net, h) && h.bus == s
    ensures Distinct(Visit(net, s, hs, buses, rank))
    decreases rank(s), |hs|
  {
    if hs == [] {
    } else {
      var n := |hs| - 1;
      var h := hs[n];
      var before, behind := Visit(net, s, hs[..n], buses, rank), Behind(net, h, buses, rank);
      VisitIsDistinct(net, r, s, hs[..n], buses, rank);
      if net.bridge(h) {
        var b := net.below(h);
        var a :| Path(net, r, a, s);
        Step(net, h);
        PathConcat(net, r, a, s, [h], b);
        LocalIsDistinct(net, b, net.devices, 0);
        VisitIsDistinct(net, r, b, Local(net, b, net.devices, 0), buses, rank);
      }
      forall x | x in behind ensures x !in before && x != h {
        BehindIsNew(net, r, s, hs[..n], h, x, buses, rank);
      }
      assert h !in before by {
        if h in before {
          VisitedIsReachable(net, s, hs[..n], h, buses, rank);
          var g :| g in hs[..n] && h in Behind(net, g, buses, rank);
          ReachesBehind(net, r, s, g, h, buses, rank);
        }
      }
      DistinctConcat(before, behind);
      DistinctConcat(before + behind, [h]);
    }
  }

  lemma BehindIsNew(net: Topology, r: int, s: int, hs: seq<Function>, h: Function, x: Function,
      buses: set<int>, rank: int -> nat)
    requires Ranked(net, buses, rank) && r in buses && s in buses && Leads(net, r, s)
    requires NothingShared(net, r)
    requires h !in hs && Present(net, h) && h.bus == s && forall g :: g in hs ==> Present(net, g) && g.bus == s
    requires x in Behind(net, h, buses, rank)
    ensures x !in Visit(net, s, hs, buses, rank) && x != h
  {
    ReachesBehind(net, r, s, h, x, buses, rank);
    if x in Visit(net, s, hs, buses, rank) {
      VisitedIsReachable(net, s, hs, x, buses, rank);
      var g :| g in hs && x in Behind(net, g, buses, rank);
      BehindIsDisjoint(net, r, s, h, g, x, buses, rank);
    }
  }

  /** Each reachable function is listed once, exactly when no two reachable bridges lead to one bus
      with functions on it. */
  lemma ListedOnceIff(net: Topology, r: int, buses: set<int>, rank: int -> nat)
    requires Ranked(net, buses, rank) && r in buses
    ensures Distinct(All(net, r, buses, rank)) <==>
      NothingShared(net, r)
  {
    if g, h :| Shared(net, r, g, h) {
      SharedIsListedTwice(net, r, g, h, buses, rank);
    } else {
      assert Path(net, r, [], r);
      LocalIsDistinct(net, r, net.devices, 0);
      VisitIsDistinct(net, r, r, Local(net, r, net.devices, 0), buses, rank);
    }
  }

  // ------------------------------------------------------------------ the scan of a machine

  /** Firmware numbers each bus higher than the one its bridge is on. */
  ghost predicate FirmwareOrder(net: Topology) {
    forall h: Function {:trigger net.below(h)} :: Present(net, h) && net.bridge(h) ==> net.below(h) > h.bus
  }

  lemma BusesAreBytes(space: Space, net: Topology)
    requires IsSpace(space) && Describes(net, space)
    ensures ByteBuses(net)
  {
    forall h: Function ensures 0 <= net.below(h) < 256 {
      assert net.below(h) == SecondaryBus(space, h.bus, h.device, h.fn);
    }
  }

  /** Such a machine has no circles. */
  lemma FirmwareOrderIsAcyclic(space: Space, net: Topology, s: int)
    requires IsSpace(space) && Describes(net, space) && FirmwareOrder(net) && 0 <= s < 256
    ensures Acyclic(net, s)
  {
    BusesAreBytes(space, net);
    IncreasingIsRanked(net);
    assert Height(s) > 0;
    RankedIff(net, {s});
    assert {s} <= AllBuses();
  }

  /** The list that a scan from bus `s` should leave: what is reachable, in post-order, and once each unless
      buses are shared. */
  ghost predicate Complete(net: Topology, s: int, list: seq<Function>, buses: set<int>, rank: int -> nat)
    requires Ranked(net, buses, rank) && s in buses
  {
    && (forall x :: x in list <==> Reachable(net, s, x))
    && PostOrder(net, list, buses, rank)
    && (Distinct(list) <==> NothingShared(net, s))
  }

  lemma AllIsComplete(net: Topology, s: int, buses: set<int>, rank: int -> nat)
    requires Ranked(net, buses, rank) && s in buses
    ensures Complete(net, s, All(net, s, buses, rank), buses, rank)
  {
    var list := All(net, s, buses, rank);
    forall x ensures x in list <==> Reachable(net, s, x) {
      ListedIffReachable(net, s, x, buses, rank);
    }
    ScanIsPostOrder(net, s, buses, rank);
    ListedOnceIff(net, s, buses, rank);
  }

  lemma {:induction false} HostsAreListed(net: Topology, n: nat, x: Function, buses: set<int>, rank: int -> nat)
    requires Ranked(net, buses, rank) && forall b :: 0 <= b < n ==> b in buses
    ensures x in Hosts(net, n, buses, rank) <==> exists f :: 0 <= f < n && Reachable(net, f, x)
    ensures PostOrder(net, Hosts(net, n, buses, rank), buses, rank)
  {
    if n == 0 {
    } else {
      HostsAreListed(net, n - 1, x, buses, rank);
      ListedIffReachable(net, n - 1, x, buses, rank);
      ScanIsPostOrder(net, n - 1, buses, rank);
      PostOrderConcat(net, Hosts(net, n - 1, buses, rank), All(net, n - 1, buses, rank), buses, rank);
    }
  }

  /** pci_initialize, on a machine where no bridges lead in a circle. With a host that is there, the list is what it
      should be exactly if the host has a single function: otherwise the scan ends before it began. */
  method Initialize(space: Space, ghost net: Topology)
    returns (devices: seq<Function>, ghost buses: set<int>, ghost rank: int -> nat)
    requires IsSpace(space) && Describes(net, space) && forall f :: Scanned(space, f) ==> Acyclic(net, f)
    ensures Ranked(net, buses, rank) && forall f :: Scanned(space, f) ==> f in buses
    ensures forall x :: x in devices <==> exists f :: Scanned(space, f) && Reachable(net, f, x)
    ensures PostOrder(net, devices, buses, rank)
    ensures HeaderType(space, 0, 0, 0) < 0x80 ==> 0 in buses && Complete(net, 0, devices, buses, rank)
    ensures Vendor(space, 0, 0, 0) != ABSENT ==>
      ((forall x :: x in devices <==> Reachable(net, 0, x)) <==> HeaderType(space, 0, 0, 0) < 0x80)
  {
    BusesAreBytes(space, net);
    ghost var starts := set f: int | 0 <= f < 256 && Scanned(space, f);
    buses, rank := AcyclicIsRanked(net, starts);
    assert forall f :: Scanned(space, f) ==> f in starts;
    var scanner := new Scanner(space, net);
    ghost var hosts := scanner.ScanBuses(buses, rank);
    devices := scanner.devices;
    if HeaderType(space, 0, 0, 0) < 0x80 {
      assert Scanned(space, 0) && devices == All(net, 0, buses, rank);
      AllIsComplete(net, 0, buses, rank);
    } else {
      ListOfHosts(space, net, devices, hosts, buses, rank);
    }
  }

  /** The list behind a multi-function host. */
  lemma ListOfHosts(space: Space, net: Topology, devices: seq<Function>, hosts: nat, buses: set<int>, rank: int -> nat)
    requires Describes(net, space) && Ranked(net, buses, rank) && hosts <= 8 && HeaderType(space, 0, 0, 0) >= 0x80
    requires forall f :: 0 <= f < 8 ==> (Scanned(space, f) <==> f < hosts)
    requires forall f :: 0 <= f < hosts ==> f in buses
    requires devices == Hosts(net, hosts, buses, rank)
    ensures forall x :: x in devices <==> exists f :: Scanned(space, f) && Reachable(net, f, x)
    ensures PostOrder(net, devices, buses, rank)
    ensures Vendor(space, 0, 0, 0) != ABSENT ==> Reachable(net, 0, Function(0, 0, 0)) && devices == []
  {
    var host := Function(0, 0, 0);
    HostsAreListed(net, hosts, host, buses, rank);
    forall x ensures x in devices <==> exists f :: Scanned(space, f) && Reachable(net, f, x) {
      HostsAreListed(net, hosts, x, buses, rank);
    }
    if Vendor(space, 0, 0, 0) != ABSENT {
      assert net.found(host) && Path(net, 0, [], 0) && Leads(net, 0, 0);
      assert !Scanned(space, 0);
    }
  }

  /** A machine whose list stays empty: its host has two functions. */
  lemma MultiFunctionHostIsMissed() returns (space: Space, net: Topology)
    ensures IsSpace(space) && Describes(net, space) && forall f :: !Scanned(space, f)
    ensures Vendor(space, 0, 0, 0) != ABSENT && HeaderType(space, 0, 0, 0) >= 0x80
    ensures Reachable(net, 0, Function(0, 0, 0)) && Reachable(net, 0, Function(0, 0, 1))
  {
    space := a => if a == 0x8000_0000 then 0x1237_8086 else if a == 0x8000_0100 then 0x7000_8086
                  else if a == 0x8000_000C then 0x80_0000 else 0xFFFF_FFFF;
    net := TreeOf(space);
    assert net.found(Function(0, 0, 0)) && net.found(Function(0, 0, 1));
    assert Path(net, 0, [], 0) && Leads(net, 0, 0);
    assert Vendor(space, 0, 0, 0) != ABSENT;
  }
}
