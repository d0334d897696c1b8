/** Whole runs of the heap, for every client: seen from outside, it is a store of independent byte strings. */
module LiballocRuns {
  import opened Arithmetic
  import opened Liballoc
  import opened LiballocTheorems
  import opened Machine
  import opened PageProvider

  /** What a client believes to be in memory: its blocks, and the bytes of each. */
  type Store = map<int, seq<Byte>>

  datatype Op =
    | Malloc(size: int)
    | Calloc(nobj: int, size: int)
    | Realloc(ptr: int, size: int)
    | Free(ptr: int)
    | Write(ptr: int, offset: int, value: Byte)

  /** A call, its result, and the store afterwards. */
  datatype Event = Event(op: Op, result: Outcome, after: Store)

  /** Whatever happened so far, the client decides on the next call. */
  type Client = seq<Event> -> Op

  function Last(events: seq<Event>): Store {
    if events == [] then map[] else events[|events| - 1].after
  }

  /** Clients pass pointers of their own, or NULL, and write inside their blocks. */
  predicate Allowed(op: Op, s: Store) {
    match op
    case Malloc(size) => 0 <= size <= MAX_REQUEST
    case Calloc(nobj, size) =>
      0 <= nobj < WORD_LIMIT && 0 <= size < WORD_LIMIT && (nobj * size) % WORD_LIMIT <= MAX_REQUEST
    case Realloc(p, size) => 0 <= size <= MAX_REQUEST && (p == 0 || p in s)
    case Free(p) => p == 0 || p in s
    case Write(p, i, _) => p in s && 0 <= i < |s[p]|
  }

  ghost predicate Careful(client: Client) {
    forall events {:trigger client(events)} :: Allowed(client(events), Last(events))
  }

  /** A new block at `p`, of `size` bytes; the others as they are. */
  predicate Adds(s: Store, t: Store, p: int, size: int) {
    p != 0 && p !in s && p in t && |t[p]| == size && t == s[p := t[p]]
  }

  /** What ISO C promises of each call. A refusal is NULL, or the fault of a store through it. */
  predicate Step(s: Store, e: Event)
    requires Allowed(e.op, s)
  {
    var t := e.after;
    match e.op
    case Malloc(size) =>
      e.result.Done? && if e.result.ptr == 0 then t == s else Adds(s, t, e.result.ptr, size)
    case Calloc(nobj, size) =>
      var n := (nobj * size) % WORD_LIMIT;
      if e.result == Fault then t == s && n > 0
      else if e.result.ptr == 0 then t == s && n == 0
      else Adds(s, t, e.result.ptr, n) && forall i :: 0 <= i < n ==> t[e.result.ptr][i] == 0
    case Realloc(p, size) =>
      if e.result == Fault then t == s && size > 0 && p != 0 && |s[p]| > 0
      else if e.result.ptr == 0 then t == s - {p} && (size == 0 || p == 0 || s[p] == [])
      else
        && size > 0 && e.result.ptr !in s && Adds(s - {p}, t, e.result.ptr, size)
        && (p != 0 ==> forall i :: 0 <= i < Min(|s[p]|, size) ==> t[e.result.ptr][i] == s[p][i])
    case Free(p) => e.result == Done(0) && t == s - {p}
    case Write(p, i, value) =>
      var data: seq<Byte> := s[p][i := value];
      e.result == Done(0) && t == s[p := data]
  }

  /** The blocks of the store are those of the heap, and a load from any of them sees the bytes in the store. */
  ghost predicate Shows(h: Heap, s: Store)
    reads h, h.tags, h.bytes
  {
    && s.Keys == h.live.Keys
    && forall p :: p in s ==> ShowsBlock(h, p, s[p])
  }

  ghost predicate ShowsBlock(h: Heap, p: int, data: seq<Byte>)
    reads h, h.tags, h.bytes
  {
    && p in h.live && h.live[p] == |data|
    && forall i :: 0 <= i < |data| ==> h.Peek(p, i) == data[i]
  }

  /** The last call went through memory at address 0. */
  predicate Faulted(events: seq<Event>) {
    events != [] && events[|events| - 1].result == Fault
  }

  /** Every event is the client's next call, does to the store what it should, and is the last if it faults. */
  ghost predicate Follows(client: Client, events: seq<Event>) {
    forall k {:trigger FollowsAt(client, events, k)} :: 0 <= k < |events| ==> FollowsAt(client, events, k)
  }

  ghost predicate FollowsAt(client: Client, events: seq<Event>, k: int)
    requires 0 <= k < |events|
  {
    && !Faulted(events[..k])
    && events[k].op == client(events[..k]) && Allowed(events[k].op, Last(events[..k]))
    && Step(Last(events[..k]), events[k])
  }

  // ------------------------------------------------------------------ one call

  /** A call that spares the payloads outside `except` leaves the store right about the blocks that are left. */
  twostate lemma StillShows(h: Heap, new s: Store, new except: set<int>)
    requires old(Shows(h, s)) && h.SamePayloads(except)
    ensures forall q :: q in s && q !in except && q in h.live && h.live[q] == old(h.live)[q] ==> ShowsBlock(h, q, s[q])
  {
    forall q | q in s && q !in except && q in h.live && h.live[q] == old(h.live)[q] ensures ShowsBlock(h, q, s[q]) {
      assert old(ShowsBlock(h, q, s[q]));
    }
  }

  /** The bytes in memory are those of the new block at `p`. */
  lemma Enter(h: Heap, p: int, data: seq<Byte>, s: Store)
    requires h.Valid() && p in h.live && h.live[p] == |data| && p != 0 && p !in s
    requires h.live.Keys == s.Keys + {p} && forall q :: q in s ==> ShowsBlock(h, q, s[q])
    requires 0 <= p && p + |data| <= h.bytes.Length && data == h.bytes[p..p + |data|]
    ensures Shows(h, s[p := data]) && ShowsBlock(h, p, data)
  {
    forall i | 0 <= i < |data| ensures h.Peek(p, i) == data[i] {
      h.PayloadIsRaw(p, i);
    }
  }

  method RunMalloc(h: Heap, size: int, s: Store) returns (r: Outcome, t: Store)
    requires h.Valid() && Shows(h, s) && Allowed(Malloc(size), s)
    modifies h, h.tags, h.freePages, h.completePages, h.provider
    ensures h.Valid() && fresh(h.tags - old(h.tags)) && Shows(h, t) && Step(s, Event(Malloc(size), r, t))
  {
    var p := h.Malloc(size);
    StillShows(h, s, {});
    r, t := Done(p), s;
    if p != 0 {
      h.InsideMemory(p);
      var data := h.bytes[p..p + size];
      Enter(h, p, data, s);
      t := s[p := data];
    }
  }

  method RunCalloc(h: Heap, nobj: int, size: int, s: Store) returns (r: Outcome, t: Store)
    requires h.Valid() && Shows(h, s) && Allowed(Calloc(nobj, size), s)
    modifies h, h.tags, h.freePages, h.completePages, h.provider, h.bytes
    ensures h.Valid() && fresh(h.tags - old(h.tags)) && Shows(h, t) && Step(s, Event(Calloc(nobj, size), r, t))
  {
    r := h.Calloc(nobj, size);
    StillShows(h, s, {});
    t := s;
    if r.Done? && r.ptr != 0 {
      h.InsideMemory(r.ptr);
      var data := h.bytes[r.ptr..r.ptr + (nobj * size) % WORD_LIMIT];
      Enter(h, r.ptr, data, s);
      t := s[r.ptr := data];
    }
  }

  method RunRealloc(h: Heap, p: int, size: int, s: Store) returns (r: Outcome, t: Store)
    requires h.Valid() && Shows(h, s) && Allowed(Realloc(p, size), s)
    modifies h, h.tags, h.freePages, h.completePages, h.provider, h.bytes
    ensures h.Valid() && fresh(h.tags - old(h.tags)) && Shows(h, t) && Step(s, Event(Realloc(p, size), r, t))
  {
    h.NullIsDead();
    assert p != 0 ==> ShowsBlock(h, p, s[p]);
    r := CallRealloc(h, p, size, s);
    if r == Fault {
      t := s;
    } else if r.ptr == 0 {
      t := s - {p};
    } else {
      h.InsideMemory(r.ptr);
      var data := h.bytes[r.ptr..r.ptr + size];
      Enter(h, r.ptr, data, s - {p});
      t := (s - {p})[r.ptr := data];
    }
  }

  /** realloc, as the store sees it. */
  method CallRealloc(h: Heap, p: int, size: int, s: Store) returns (r: Outcome)
    requires h.Valid() && Shows(h, s) && Allowed(Realloc(p, size), s)
    modifies h, h.tags, h.freePages, h.completePages, h.provider, h.bytes
    ensures h.Valid() && fresh(h.tags - old(h.tags))
    ensures r == Fault ==> Shows(h, s) && size > 0 && p != 0 && |s[p]| > 0
    ensures r == Done(0) ==> Shows(h, s - {p}) && (size == 0 || p == 0 || s[p] == [])
    ensures r.Done? && r.ptr != 0 ==>
      && size > 0 && r.ptr !in s && r.ptr in h.live && h.live[r.ptr] == size
      && h.live.Keys == (s - {p}).Keys + {r.ptr} && forall q :: q in s - {p} ==> ShowsBlock(h, q, s[q])
    ensures r.Done? && r.ptr != 0 && p != 0 ==> forall i :: 0 <= i < Min(|s[p]|, size) ==> h.Peek(r.ptr, i) == s[p][i]
  {
    assert p in s ==> ShowsBlock(h, p, s[p]);
    r := h.Realloc(p, size);
    StillShows(h, s, if r == Fault then {} else {p});
  }

  method RunFree(h: Heap, p: int, s: Store) returns (t: Store)
    requires h.Valid() && Shows(h, s) && Allowed(Free(p), s)
    modifies h, h.tags, h.freePages, h.completePages, h.provider
    ensures h.Valid() && fresh(h.tags - old(h.tags)) && Shows(h, t) && Step(s, Event(Free(p), Done(0), t))
  {
    h.Free(p);
    StillShows(h, s, {p});
    t := s - {p};
  }

  /** The client stores into its block. */
  method RunWrite(h: Heap, p: int, i: int, value: Byte, s: Store) returns (t: Store)
    requires h.Valid() && Shows(h, s) && Allowed(Write(p, i, value), s)
    modifies h.bytes
    ensures h.Valid() && Shows(h, t) && Step(s, Event(Write(p, i, value), Done(0), t))
  {
    h.InsideMemory(p);
    h.AllPayloadsRaw();
    assert ShowsBlock(h, p, s[p]);
    h.bytes[p + i] := value;
    h.StoresStayInside(p);
    StillShows(h, s, {p});
    var data: seq<Byte> := s[p][i := value];
    t := s[p := data];
    h.AllPayloadsRaw();
    forall j | 0 <= j < |data| ensures h.Peek(p, j) == data[j] {
      assert h.Raw(p, j) && old(h.Raw(p, j));
    }
  }

  /** Whatever the client calls next. */
  method Perform(h: Heap, op: Op, s: Store) returns (r: Outcome, t: Store)
    requires h.Valid() && Shows(h, s) && Allowed(op, s)
    modifies h, h.tags, h.freePages, h.completePages, h.provider, h.bytes
    ensures h.Valid() && fresh(h.tags - old(h.tags)) && Shows(h, t) && Step(s, Event(op, r, t))
  {
    r := Done(0);
    match op {
      case Malloc(size) => r, t := RunMalloc(h, size, s);
      case Calloc(nobj, size) => r, t := RunCalloc(h, nobj, size, s);
      case Realloc(p, size) => r, t := RunRealloc(h, p, size, s);
      case Free(p) => t := RunFree(h, p, s);
      case Write(p, i, value) => t := RunWrite(h, p, i, value, s);
    }
  }

  // ------------------------------------------------------------------ whole runs

  lemma Extend(client: Client, events: seq<Event>, e: Event)
    requires Follows(client, events) && !Faulted(events) && e.op == client(events)
    requires Allowed(e.op, Last(events)) && Step(Last(events), e)
    ensures Follows(client, events + [e]) && Last(events + [e]) == e.after
  {
    var longer := events + [e];
    forall k | 0 <= k < |longer| ensures FollowsAt(client, longer, k) {
      assert longer[..k] == events[..k];
      assert k < |events| ==> FollowsAt(client, events, k);
      assert k == |events| ==> events[..k] == events;
    }
  }

  /** The client's next call. */
  method Advance(client: Client, h: Heap, events: seq<Event>) returns (longer: seq<Event>)
    requires Careful(client) && Follows(client, events) && !Faulted(events)
    requires h.Valid() && Shows(h, Last(events))
    modifies h, h.tags, h.freePages, h.completePages, h.provider, h.bytes
    ensures h.Valid() && fresh(h.tags - old(h.tags)) && Shows(h, Last(longer))
    ensures Follows(client, longer) && |longer| == |events| + 1
  {
    var op := client(events);
    var r, t := Perform(h, op, Last(events));
    Extend(client, events, Event(op, r, t));
    longer := events + [Event(op, r, t)];
  }

  /** `n` calls of any client, from boot on, or fewer if one of them faults: each call does to the store what it
      should, and the heap is valid and shows the store all the while. */
  method Run(client: Client, n: nat) returns (h: Heap, events: seq<Event>)
    requires Careful(client)
    ensures fresh(h) && h.Valid() && Shows(h, Last(events))
    ensures Follows(client, events) && |events| <= n && (|events| < n ==> Faulted(events))
  {
    h := new Heap();
    events := [];
    while |events| < n && !Faulted(events)
      invariant fresh(h) && fresh(h.tags) && fresh(h.freePages) && fresh(h.completePages)
      invariant fresh(h.provider) && fresh(h.bytes)
      invariant h.Valid() && Shows(h, Last(events))
      invariant Follows(client, events) && |events| <= n
      decreases n - |events|
    {
      events := Advance(client, h, events);
    }
  }

  /** The block a call is about. */
  function Subject(op: Op): int {
    match op
    case Realloc(p, _) => p
    case Free(p) => p
    case Write(p, _, _) => p
    case _ => 0
  }

  /** So a block keeps its bytes until the client calls for a change, whatever happens to other blocks. */
  lemma {:induction false} BlockSurvives(client: Client, events: seq<Event>, i: nat, j: nat, q: int)
    requires Follows(client, events) && i <= j <= |events| && q != 0 && q in Last(events[..i])
    requires forall k :: i <= k < j ==> Subject(events[k].op) != q
    ensures q in Last(events[..j]) && Last(events[..j])[q] == Last(events[..i])[q]
    decreases j
  {
    if i == j {
    } else {
      BlockSurvives(client, events, i, j - 1, q);
      assert FollowsAt(client, events, j - 1);
      assert Last(events[..j]) == events[j - 1].after;
    }
  }
}
