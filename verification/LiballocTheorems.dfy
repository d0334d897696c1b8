/** What Liballoc.Heap.Valid means for whole regions, whole lists and the whole heap. */
module LiballocTheorems {
  import opened Liballoc
  import opened Machine
  import opened PageProvider
  import opened Powers

  // ------------------------------------------------------------------ regions

  /** The tags met by following `split_right` from `t`. */
  ghost function Chain(h: Heap, t: Tag): (c: seq<Tag>)
    requires h.Core() && t in h.tags
    reads h, h.tags, h.freePages, h.provider
    ensures |c| > 0 && c[0] == t && forall i :: 0 <= i < |c| ==> c[i] in h.tags
    decreases t.end - t.addr
  {
    assert h.Placed(t) && h.SplitLinked(t);
    if t.splitRight == null then [t]
    else
      assert h.Placed(t.splitRight);
      [t] + Chain(h, t.splitRight)
  }

  ghost function SizeSum(c: seq<Tag>): int
    reads set t | t in c
  {
    if c == [] then 0 else c[0].realSize + SizeSum(c[1..])
  }

  /** `u` is the right neighbour of `t`: linked both ways, end to end. */
  ghost predicate Joint(t: Tag, u: Tag)
    reads t, u
  {
    t.splitRight == u && u.splitLeft == t && t.addr + t.realSize == u.addr
  }

  ghost predicate Linked(c: seq<Tag>)
    reads set t | t in c
  {
    forall i, j :: 0 <= i < j < |c| && j == i + 1 ==> Joint(c[i], c[j])
  }

  lemma {:induction false} ChainSpans(h: Heap, t: Tag)
    requires h.Core() && t in h.tags
    ensures var c := Chain(h, t); var z := c[|c| - 1];
      z.splitRight == null && z.addr + z.realSize == t.end && SizeSum(c) == t.end - t.addr
    ensures forall u :: u in Chain(h, t) ==> u.base == t.base && t.addr <= u.addr
    decreases t.end - t.addr
  {
    assert h.Placed(t) && h.SplitLinked(t);
    var c := Chain(h, t);
    if t.splitRight != null {
      var r := t.splitRight;
      assert h.Placed(r);
      ChainSpans(h, r);
      var d := Chain(h, r);
      assert c == [t] + d && c[1..] == d && c[|c| - 1] == d[|d| - 1];
    } else {
      assert c == [t] && c[1..] == [];
    }
  }

  lemma {:induction false} ChainLinked(h: Heap, t: Tag)
    requires h.Core() && t in h.tags
    ensures Linked(Chain(h, t))
    decreases t.end - t.addr
  {
    assert h.Placed(t) && h.SplitLinked(t);
    if t.splitRight == null {
    } else {
      var r := t.splitRight;
      assert h.Placed(r);
      ChainLinked(h, r);
      LinkedCons(t, Chain(h, r));
    }
  }

  lemma LinkedCons(t: Tag, d: seq<Tag>)
    requires Linked(d) && |d| > 0 && Joint(t, d[0])
    ensures Linked([t] + d)
  {
    var c := [t] + d;
    forall i, j | 0 <= i < j < |c| && j == i + 1 ensures Joint(c[i], c[j]) {
      assert c[j] == d[j - 1] && (i > 0 ==> c[i] == d[i - 1]);
    }
  }

  /** The chain from `s` reaches every tag of the region at or beyond it. */
  lemma {:induction false} ChainReaches(h: Heap, s: Tag, t: Tag)
    requires h.Core() && s in h.tags && t in h.tags && s.base == t.base && s.addr <= t.addr
    ensures t in Chain(h, s)
    decreases s.end - s.addr
  {
    assert h.Placed(s) && h.SplitLinked(s) && h.Placed(t);
    if s == t {
    } else {
      assert h.Apart(s, t);
      var r := s.splitRight;
      assert h.Placed(r);
      if r != t {
        assert h.Apart(r, t);
      }
      ChainReaches(h, r, t);
      assert Chain(h, s) == [s] + Chain(h, r);
    }
  }

  /** The tags of a held region tile it: linked both ways, end to end, from its first byte to its last. */
  lemma RegionsAreTiled(h: Heap, b: int)
    requires h.Valid() && b in h.provider.held
    ensures b in h.at && h.at[b] in h.tags
    ensures var c := Chain(h, h.at[b]);
      && c[0].addr == b && c[0].splitLeft == null && c[|c| - 1].splitRight == null
      && Linked(c) && SizeSum(c) == PAGE * h.provider.held[b]
      && forall t :: t in h.tags ==> (t.base == b <==> t in c)
  {
    assert h.Rooted(b);
    var r := h.at[b];
    assert h.Placed(r) && h.SplitLinked(r);
    ChainSpans(h, r);
    ChainLinked(h, r);
    forall t | t in h.tags && t.base == b ensures t in Chain(h, r) {
      assert h.Placed(t);
      ChainReaches(h, r, t);
    }
  }

  // ------------------------------------------------------------------ free lists

  /** The tags met by following `next` from `t`. */
  ghost function ListFrom(h: Heap, t: Tag?): (l: seq<Tag>)
    requires h.Core() && (t != null ==> t in h.tags)
    reads h, h.tags, h.freePages, h.provider
    ensures forall u :: u in l ==> u in h.tags
    decreases if t == null then 0 else t.rank + 1
  {
    if t == null then []
    else
      assert h.FreeLinked(t);
      [t] + ListFrom(h, t.next)
  }

  lemma {:induction false} ListHolds(h: Heap, t: Tag)
    requires h.Core() && t in h.tags && t.index >= 0
    ensures forall u :: u in h.tags ==> (u in ListFrom(h, t) <==> u.index == t.index && u.rank <= t.rank)
    decreases t.rank
  {
    assert h.FreeLinked(t);
    var n := t.next;
    assert ListFrom(h, t) == [t] + ListFrom(h, n);
    if n == null {
    } else {
      ListHolds(h, n);
    }
    forall u | u in h.tags ensures u in ListFrom(h, t) <==> u.index == t.index && u.rank <= t.rank {
      if u != t {
        assert h.Ordered(t, u);
      }
    }
  }

  ghost predicate Newest(l: seq<Tag>)
    reads set t | t in l
  {
    forall i, j :: 0 <= i < j < |l| ==> l[j].rank < l[i].rank
  }

  lemma {:induction false} ListDescends(h: Heap, t: Tag)
    requires h.Core() && t in h.tags && t.index >= 0
    ensures Newest(ListFrom(h, t))
    decreases t.rank
  {
    assert h.FreeLinked(t);
    if t.next == null {
    } else {
      ListDescends(h, t.next);
      ListHolds(h, t.next);
      NewestCons(t, ListFrom(h, t.next));
    }
  }

  lemma NewestCons(t: Tag, l: seq<Tag>)
    requires Newest(l) && forall u :: u in l ==> u.rank < t.rank
    ensures Newest([t] + l)
  {
    var c := [t] + l;
    forall i, j | 0 <= i < j < |c| ensures c[j].rank < c[i].rank {
      assert c[j] == l[j - 1] && l[j - 1] in l;
    }
  }

  /** List `k` is exactly the tags of index `k`, each once, the latest arrival first; `prev` undoes `next`. */
  lemma ListsAreExact(h: Heap, k: int)
    requires h.Valid() && 0 <= k < MAX_EXP
    ensures h.freePages[k] != null ==> h.freePages[k] in h.tags
    ensures var l := ListFrom(h, h.freePages[k]);
      && (forall t :: t in h.tags ==> (t in l <==> t.index == k))
      && Newest(l) && (forall i, j :: 0 <= i < j < |l| ==> l[i] != l[j])
      && (forall t :: t in l && t.next != null ==> t.next.prev == t)
  {
    var hd := h.freePages[k];
    assert h.Head(k);
    forall t | t in h.tags && t.index == k ensures hd != null && t.rank <= hd.rank {
      assert h.Leads(t) && h.FreeLinked(t);
    }
    if hd != null {
      ListHolds(h, hd);
      ListDescends(h, hd);
    }
    forall t | t in h.tags ensures h.FreeLinked(t) {
    }
  }

  /** List `k`, head first. */
  ghost function FreeList(h: Heap, k: int): (l: seq<Tag>)
    requires h.Valid() && 0 <= k < MAX_EXP
    reads h, h.tags, h.freePages, h.completePages, h.provider
    ensures forall u :: u in l ==> u in h.tags
  {
    assert h.Head(k);
    ListFrom(h, h.freePages[k])
  }

  /** The tags of `l` that are in `S`, in their order. */
  ghost function Remaining(l: seq<Tag>, S: set<Tag>): (r: seq<Tag>)
    ensures (forall u :: u in r ==> u in l && u in S) && (forall u :: u in l && u in S ==> u in r)
  {
    if l == [] then []
    else Remaining(l[..|l| - 1], S) + if l[|l| - 1] in S then [l[|l| - 1]] else []
  }

  lemma {:induction false} RemainingDescends(l: seq<Tag>, S: set<Tag>)
    requires forall i, j :: 0 <= i < j < |l| && l[i] in S && l[j] in S ==> l[j].rank < l[i].rank
    ensures Newest(Remaining(l, S))
  {
    if l == [] {
    } else {
      var n := |l| - 1;
      RemainingDescends(l[..n], S);
      var r := Remaining(l[..n], S);
      forall u | u in r && l[n] in S ensures l[n].rank < u.rank {
        var i :| 0 <= i < n && l[..n][i] == u;
      }
    }
  }

  /** Two lists of the same tags, both by falling rank, are one list. */
  lemma {:induction false} OneOrder(a: seq<Tag>, b: seq<Tag>)
    requires Newest(a) && Newest(b) && forall u :: u in a <==> u in b
    ensures a == b
    decreases |a|
  {
    assert (a == [] || a[0] in a) && (b == [] || b[0] in b);
    if |a| > 0 && |b| > 0 {
      assert a[0] in b && b[0] in a;
      var i :| 0 <= i < |b| && b[i] == a[0];
      var j :| 0 <= j < |a| && a[j] == b[0];
      assert a[0] == b[0];
      forall u ensures u in a[1..] <==> u in b[1..] {
        TailOf(a, u);
        TailOf(b, u);
      }
      OneOrder(a[1..], b[1..]);
      assert a == [a[0]] + a[1..] && b == [b[0]] + b[1..];
    }
  }

  lemma TailOf(a: seq<Tag>, u: Tag)
    requires Newest(a) && a != []
    ensures u in a[1..] <==> u in a && u != a[0]
  {
    if u in a && u != a[0] {
      var i :| 0 <= i < |a| && a[i] == u;
      assert a[1..][i - 1] == u;
    }
  }

  /** `was` was list `k` when the tags had their places `before`. */
  ghost predicate WasList(before: Places, k: int, was: seq<Tag>) {
    && (forall u :: u in was ==> u in before && before[u].index == k)
    && (forall u :: u in before && before[u].index == k ==> u in was)
    && (forall i, j :: 0 <= i < j < |was| ==>
          was[i] in before && was[j] in before && before[was[j]].rank < before[was[i]].rank)
  }

  lemma IsList(h: Heap, k: int)
    requires h.Valid() && 0 <= k < MAX_EXP
    ensures WasList(h.PlacesNow(), k, FreeList(h, k))
  {
    ListsAreExact(h, k);
  }

  ghost function Besides(h: Heap, front: Tag?, t: Tag?): set<Tag>
    reads h`tags
  {
    set u | u in h.tags && u != front && u != t
  }

  ghost function Ahead(front: Tag?, k: int): seq<Tag>
    reads front
  {
    if front != null && front.index == k then [front] else []
  }

  /** If tag `t` left the lists, `front` came to the head of its own, and the others kept their places, then list `k` is
      what remains of it behind `front`. */
  lemma ListsNow(h: Heap, before: Places, was: seq<Tag>, front: Tag?, t: Tag?, k: int)
    requires h.Valid() && 0 <= k < MAX_EXP && WasList(before, k, was)
    requires h.Kept(before, t) && forall u :: u in h.tags && u != front && u != t ==> u in before
    requires (front != null ==> h.Front(front) && (front in before ==> front == t))
    requires t != null && t != front && t in h.tags ==> t.index < 0
    ensures FreeList(h, k) == Ahead(front, k) + Remaining(was, Besides(h, front, t))
  {
    var S := Besides(h, front, t);
    var r := Remaining(was, S);
    var l := Ahead(front, k) + r;
    ListsAreExact(h, k);
    RemainingDescends(was, S);
    forall u | front != null && front.index == k && u in r ensures u.rank < front.rank {
      FrontIsLatest(h, front, u);
    }
    assert forall u :: u in l <==> u in h.tags && u.index == k;
    OneOrder(FreeList(h, k), l);
  }

  lemma FrontIsLatest(h: Heap, front: Tag, u: Tag)
    requires h.Valid() && h.Front(front) && u in h.tags && u != front && u.index == front.index
    ensures u.rank < front.rank
  {
    assert h.FreeLinked(front);
    assert h.Leads(u) && h.Ordered(front, u);
  }

  /** A free tag waits in list max(8, floor(log2(bytes behind its header))), between two blocks in use. */
  lemma FreeTagsAreSorted(h: Heap, t: Tag)
    requires h.Valid() && t in h.tags && t.index >= 0
    ensures var s := t.realSize - HEADER;
      if s < 256 then t.index == 8 else Pow2(t.index) <= s < Pow2(t.index + 1)
    ensures t.splitLeft != null ==> t.splitLeft.index < 0
    ensures t.splitRight != null ==> t.splitRight.index < 0
  {
    Pow2Values();
    assert h.Classed(t) && h.SplitLinked(t) && h.FreeLinked(t);
    if t.splitLeft != null {
      assert h.Classed(t.splitLeft);
    }
    if t.realSize - HEADER < 256 && t.index > 8 {
      Pow2Monotone(8, t.index);
    }
  }

  // ------------------------------------------------------------------ the whole heap

  ghost function Bytes(S: set<Tag>): int
    reads S
  {
    if S == {} then 0
    else
      var t :| t in S;
      t.realSize + Bytes(S - {t})
  }

  lemma {:induction false} BytesRemove(S: set<Tag>, t: Tag)
    requires t in S
    ensures Bytes(S) == t.realSize + Bytes(S - {t})
    decreases S
  {
    var u :| u in S && Bytes(S) == u.realSize + Bytes(S - {u});
    if u == t {
    } else {
      BytesRemove(S - {u}, t);
      BytesRemove(S - {t}, u);
      assert S - {u} - {t} == S - {t} - {u};
    }
  }

  lemma {:induction false} BytesAdd(S: set<Tag>, T: set<Tag>)
    requires S !! T
    ensures Bytes(S + T) == Bytes(S) + Bytes(T)
    decreases S
  {
    if S == {} {
      assert S + T == T;
    } else {
      var t :| t in S;
      BytesRemove(S, t);
      BytesRemove(S + T, t);
      assert S + T - {t} == (S - {t}) + T;
      BytesAdd(S - {t}, T);
    }
  }

  lemma {:induction false} BytesOfChain(c: seq<Tag>)
    requires forall i, j :: 0 <= i < j < |c| ==> c[i] != c[j]
    ensures Bytes(set t | t in c) == SizeSum(c)
  {
    var S := set t | t in c;
    if c == [] {
      assert S == {};
    } else {
      BytesOfChain(c[1..]);
      BytesRemove(S, c[0]);
      assert S - {c[0]} == set t | t in c[1..];
    }
  }

  ghost predicate Rising(c: seq<Tag>) {
    forall i, j :: 0 <= i < j < |c| ==> c[i].addr < c[j].addr
  }

  lemma {:induction false} ChainDistinct(h: Heap, t: Tag)
    requires h.Core() && t in h.tags
    ensures Rising(Chain(h, t))
    decreases t.end - t.addr
  {
    assert h.Placed(t) && h.SplitLinked(t);
    if t.splitRight == null {
    } else {
      var r := t.splitRight;
      assert h.Placed(r);
      ChainDistinct(h, r);
      ChainSpans(h, r);
      assert Chain(h, t) == [t] + Chain(h, r);
      RisingCons(t, Chain(h, r));
    }
  }

  lemma RisingCons(t: Tag, d: seq<Tag>)
    requires Rising(d) && forall u :: u in d ==> t.addr < u.addr
    ensures Rising([t] + d)
  {
    var c := [t] + d;
    forall i, j | 0 <= i < j < |c| ensures c[i].addr < c[j].addr {
      assert c[j] == d[j - 1] && d[j - 1] in d;
    }
  }

  lemma {:induction false} BytesOfRegions(h: Heap, H: Regions)
    requires h.Valid() && forall b :: b in H ==> b in h.provider.held && H[b] == h.provider.held[b]
    ensures Bytes(set t | t in h.tags && t.base in H) == PAGE * PageSum(H)
    decreases |H|
  {
    var S := set t | t in h.tags && t.base in H;
    if H == map[] {
      assert S == {};
    } else {
      HasKey(H);
      var b :| b in H;
      var R := set t | t in h.tags && t.base in H - {b};
      BytesOfRegions(h, H - {b});
      PageSumRemove(H, b);
      var C := set t | t in h.tags && t.base == b;
      BytesOfRegion(h, b);
      assert S == C + R by {
        forall t | t in S ensures t in C + R {
          assert t.base != b ==> t.base in H - {b};
        }
      }
      BytesAdd(C, R);
    }
  }

  lemma BytesOfRegion(h: Heap, b: int)
    requires h.Valid() && b in h.provider.held
    ensures Bytes(set t | t in h.tags && t.base == b) == PAGE * h.provider.held[b]
  {
    RegionsAreTiled(h, b);
    var c := Chain(h, h.at[b]);
    ChainDistinct(h, h.at[b]);
    BytesOfChain(c);
    assert (set t | t in h.tags && t.base == b) == set t | t in c;
  }

  /** Page conservation: what was obtained and not returned is what the tags add up to. */
  lemma PagesAreConserved(h: Heap)
    requires h.Valid()
    ensures Bytes(h.tags) == 4096 * (h.provider.obtained - h.provider.returned)
  {
    BytesOfRegions(h, h.provider.held);
    forall t | t in h.tags ensures t.base in h.provider.held {
      assert h.Placed(t);
    }
    assert h.tags == set t | t in h.tags && t.base in h.provider.held;
  }

  /** With no live block left, every held region is one free tag, counted in its class. */
  lemma EmptyHeapIsCoalesced(h: Heap, t: Tag)
    requires h.Valid() && h.live == map[] && t in h.tags
    ensures t.splitLeft == null && t.splitRight == null && t.addr == t.base
    ensures t.base in h.provider.held && t.realSize == PAGE * h.provider.held[t.base]
    ensures MIN_EXP <= t.index < MAX_EXP && t in h.Whole(t.index) && 1 <= h.completePages[t.index] <= 5
  {
    forall u | u in h.tags ensures u.index >= 0 {
      assert h.Holds(u);
    }
    assert h.Placed(t) && h.SplitLinked(t) && h.FreeLinked(t);
    FreeTagsAreSorted(h, t);
  }

  /** The block at `p`: inside one region, behind its header, with at most 287 bytes to spare. */
  lemma BlocksAreTight(h: Heap, p: int)
    requires h.Valid() && p in h.live
    ensures p - HEADER in h.at
    ensures var t := h.at[p - HEADER];
      && t in h.tags && t.addr + 32 == p && t.size == h.live[p]
      && 0 <= t.realSize - t.size - 32 <= 287
      && t.base <= t.addr && p + h.live[p] <= t.end
      && t.base in h.provider.held && t.end == t.base + PAGE * h.provider.held[t.base]
  {
    h.LiveBlock(p);
    assert h.Holds(h.at[p - HEADER]) && h.Placed(h.at[p - HEADER]);
  }

  // ------------------------------------------------------------------ malloc and free on the lists

  /** Every list as it stands. */
  ghost function AllLists(h: Heap): (lists: seq<seq<Tag>>)
    requires h.Valid()
    reads h, h.tags, h.freePages, h.completePages, h.provider
    ensures |lists| == MAX_EXP && forall k :: 0 <= k < MAX_EXP ==> lists[k] == FreeList(h, k)
  {
    seq(MAX_EXP, k requires 0 <= k < MAX_EXP && h.Valid()
                   reads h, h.tags, h.freePages, h.completePages, h.provider => FreeList(h, k))
  }

  ghost predicate WereLists(before: Places, was: seq<seq<Tag>>) {
    |was| == MAX_EXP && forall k :: 0 <= k < MAX_EXP ==> WasList(before, k, was[k])
  }

  lemma AreLists(h: Heap)
    requires h.Valid()
    ensures WereLists(h.PlacesNow(), AllLists(h))
  {
    forall k | 0 <= k < MAX_EXP ensures WasList(h.PlacesNow(), k, AllLists(h)[k]) {
      IsList(h, k);
    }
  }

  /** Every list is what remains of it, behind `front` if that is its. */
  ghost predicate Moved(h: Heap, was: seq<seq<Tag>>, front: Tag?, t: Tag?)
    requires h.Valid() && |was| == MAX_EXP
    reads h, h.tags, h.freePages, h.completePages, h.provider, front
  {
    forall k :: 0 <= k < MAX_EXP ==> FreeList(h, k) == Ahead(front, k) + Remaining(was[k], Besides(h, front, t))
  }

  lemma AllMoved(h: Heap, before: Places, was: seq<seq<Tag>>, front: Tag?, t: Tag?)
    requires h.Valid() && WereLists(before, was)
    requires h.Kept(before, t) && forall u :: u in h.tags && u != front && u != t ==> u in before
    requires (front != null ==> h.Front(front) && (front in before ==> front == t))
    requires t != null && t != front && t in h.tags ==> t.index < 0
    ensures Moved(h, was, front, t)
  {
    forall k | 0 <= k < MAX_EXP
      ensures FreeList(h, k) == Ahead(front, k) + Remaining(was[k], Besides(h, front, t))
    {
      ListsNow(h, before, was[k], front, t, k);
    }
  }

  /** free, on the lists: the tag with the bytes of the block is at the head of one, unless its region went back; and
      every list goes on with what it was, without the tags that were melted. */
  method FreeOnLists(h: Heap, p: int) returns (ghost front: Tag?)
    requires h.Valid() && p in h.live && p != 0
    modifies h, h.tags, h.freePages, h.completePages, h.provider
    ensures h.Valid() && Moved(h, old(AllLists(h)), front, front)
    ensures front == null <==> old(h.LastInRegion(p) && h.Surplus(h.RegionOf(p)))
    ensures front != null ==>
      && front in h.tags && front.index >= 0
      && front.addr <= p - HEADER && p + old(h.live[p]) <= front.addr + front.realSize
  {
    AreLists(h);
    h.LiveBlock(p);
    assert h.Holds(h.at[p - HEADER]);
    ghost var before, was, start := h.PlacesNow(), AllLists(h), h.at[p - HEADER];
    ghost var back := h.LastInRegion(p) && h.Surplus(h.RegionOf(p));
    h.Free(p);
    front := null;
    if !back {
      front :| front in h.tags && h.Requeues(before, front, start);
    }
    AllMoved(h, before, was, front, front);
  }

  /** Of the old list `l` the first tag that fits is `t`. */
  ghost predicate FirstOf(l: seq<Tag>, t: Tag, size: int)
    reads set u | u in l
  {
    exists i :: 0 <= i < |l| && l[i] == t && FitsAt(l, i, size) && forall j :: 0 <= j < i ==> !FitsAt(l, j, size)
  }

  ghost predicate FitsAt(l: seq<Tag>, i: int, size: int)
    requires 0 <= i < |l|
    reads set u | u in l
  {
    size + 2 * HEADER <= l[i].realSize
  }

  lemma FirstFitIsFirst(h: Heap, t: Tag, size: int)
    requires h.Valid() && h.FirstFit(t, size)
    ensures 0 <= t.index < MAX_EXP && FirstOf(FreeList(h, t.index), t, size)
  {
    assert h.FreeLinked(t);
    var l := FreeList(h, t.index);
    ListsAreExact(h, t.index);
    var i :| 0 <= i < |l| && l[i] == t;
    forall j | 0 <= j < i ensures !FitsAt(l, j, size) {
      assert l[j] in l && l[j].rank > t.rank && !h.Fits(l[j], size);
    }
    assert FitsAt(l, i, size);
  }

  /** malloc, on the lists: from a class with a tag that fits, the block is the first such, and its list goes on without
      it; what a block leaves over is at the head of a list; else the lists stay as they were. */
  method MallocOnLists(h: Heap, size: int) returns (p: int, ghost t: Tag?, ghost rest: Tag?)
    requires h.Valid() && 0 <= size <= MAX_REQUEST
    modifies h, h.tags, h.freePages, h.completePages, h.provider
    ensures h.Valid() && Moved(h, old(AllLists(h)), rest, t)
    ensures if p == 0 then t == null else t != null && t in h.tags && p == t.addr + HEADER
    ensures old(h.Available(size)) ==> t != null && t in old(h.tags) && old(FirstInClass(h, t, size))
    ensures rest != null ==> t != null && rest.addr == p + size && rest.realSize >= HEADER + 256
  {
    BeforeMalloc(h, size);
    ghost var before, was := h.PlacesNow(), AllLists(h);
    p := h.Malloc(size);
    t, rest := null, null;
    if p != 0 {
      t := h.at[p - HEADER];
      ghost var total := if old(h.Available(size)) then before[t].realSize else PAGE * PagesFor(size);
      if total - size - 2 * HEADER >= 256 {
        rest := t.splitRight;
      }
      h.LiveBlock(p);
      assert h.SplitLinked(t);
    }
    AllMoved(h, before, was, rest, t);
  }

  lemma BeforeMalloc(h: Heap, size: int)
    requires h.Valid()
    ensures WereLists(h.PlacesNow(), AllLists(h))
    ensures forall u :: u in h.tags && h.FirstFit(u, size) ==> FirstInClass(h, u, size)
  {
    AreLists(h);
    forall u | u in h.tags && h.FirstFit(u, size) ensures FirstInClass(h, u, size) {
      FirstFitIsFirst(h, u, size);
    }
  }

  /** `t` is the first that fits of the list of the request's class. */
  ghost predicate FirstInClass(h: Heap, t: Tag, size: int)
    requires h.Valid()
    reads h, h.tags, h.freePages, h.completePages, h.provider
  {
    exists k :: 0 <= k < MAX_EXP && InClass(size, k) && FirstOf(FreeList(h, k), t, size)
  }

  /** So the last block that was freed is the first to be used again, for a request of its class that it can hold. */
  lemma LastFreedIsReused(h: Heap, front: Tag, t: Tag, size: int)
    requires h.Valid() && h.Front(front) && h.FirstFit(t, size)
    requires InClass(size, front.index) && size + 2 * HEADER <= front.realSize
    ensures t == front
  {
    ClassUnique(size, t.index, front.index);
    if t != front {
      FrontIsLatest(h, front, t);
      assert h.Fits(front, size);
    }
  }
}
