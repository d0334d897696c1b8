/** The boundary-tag heap of libc/src/liballoc/liballoc.c. */
module Liballoc {
  import opened Arithmetic
  import opened Machine
  import opened Powers
  import opened PageProvider

  const MAGIC := 0xc001c0de
  const HEADER := 32          // sizeof(struct boundary_tag) on i686
  const MIN_EXP := 8
  const MAX_EXP := 32
  const MAX_COMPLETE := 5
  const MIN_PAGES := 16

  /** Requests that fit 32 bits together with their header. */
  const MAX_REQUEST := 0xFFFF_FFDF

  /** Requests that some region can hold: no region has the page at 0. */
  const MAX_BLOCK := 0xFFFF_EFE0

  lemma ClassUnique(s: int, j: int, k: int)
    requires InClass(s, j) && InClass(s, k)
    ensures j == k
  {
    if j < k {
      Pow2Monotone(j + 1, k);
    } else if k < j {
      Pow2Monotone(k + 1, j);
    }
  }

  type Byte = b: int | 0 <= b < 256

  /** Size class `k` holds the tags with `s` bytes behind their header. */
  ghost predicate InClass(s: int, k: int) {
    && MIN_EXP <= k < MAX_EXP
    && (k == MIN_EXP || Pow2(k) <= s)
    && s < Pow2(k + 1)
  }

  /** getexp: -1 below the quantum, else the exponent of the highest bit. */
  method GetExp(size: int) returns (e: int)
    requires 0 <= size < WORD_LIMIT
    ensures size < 256 ==> e == -1
    ensures size >= 256 ==> MIN_EXP <= e < MAX_EXP && Pow2(e) <= size < Pow2(e + 1)
  {
    Pow2Values();
    if size < Pow2(MIN_EXP) {
      return -1;
    }
    var shift := MIN_EXP;
    while shift < MAX_EXP
      invariant MIN_EXP <= shift <= MAX_EXP
      invariant if shift == MIN_EXP then Pow2(shift) <= size else Pow2(shift - 1) <= size
    {
      if Pow2(shift) > size {
        break;
      }
      shift := shift + 1;
    }
    return shift - 1;
  }

  /** Request and block are of one class, so what is left over never looks negative. */
  lemma Leftover(size: int, realSize: int, k: int)
    requires 0 <= size && InClass(size, k) && InClass(realSize - HEADER, k)
    ensures realSize - size - 2 * HEADER < 0x8000_0000
  {
    Pow2Values();
    Pow2Monotone(k, 31);
    Pow2Monotone(k + 1, 32);
  }

  /** The page count of allocate_new_tag, in the source's 32-bit arithmetic. */
  function PagesFor(size: int): (pages: int)
    requires 0 <= size < WORD_LIMIT
  {
    var usage := (size + HEADER) % WORD_LIMIT;
    var pages := if usage % PAGE != 0 then usage / PAGE + 1 else usage / PAGE;
    if pages < MIN_PAGES then MIN_PAGES else pages
  }

  /** The pages have room for header and request exactly up to MAX_REQUEST; and no fewer would do, unless it is the
      least number of pages the heap asks for. */
  lemma PagesSuffice(size: int)
    requires 0 <= size < WORD_LIMIT
    ensures MIN_PAGES <= PagesFor(size)
    ensures size + HEADER <= PAGE * PagesFor(size) <==> size <= MAX_REQUEST
    ensures size <= MAX_REQUEST ==> PagesFor(size) == 16 || PAGE * (PagesFor(size) - 1) < size + HEADER
  {
    if size + HEADER < WORD_LIMIT {
      assert (size + HEADER) % WORD_LIMIT == size + HEADER;
    } else {
      assert (size + HEADER) % WORD_LIMIT == size + HEADER - WORD_LIMIT;
    }
  }

  /** Beyond MAX_REQUEST the sums of malloc wrap. Every tag with room for another header passes the search, and none has
      room for the request; where the tag is split, the new header lies inside its own. */
  lemma OversizeIsWrong(size: int, tag: int, realSize: int)
    requires MAX_REQUEST < size < WORD_LIMIT
    requires 0 <= tag && 2 * HEADER <= realSize && tag + realSize <= WORD_LIMIT && realSize < WORD_LIMIT
    ensures (size + HEADER) % WORD_LIMIT <= realSize - HEADER < size
    ensures tag <= (tag + HEADER + size) % WORD_LIMIT < tag + HEADER
  {
    assert (size + HEADER) % WORD_LIMIT == size + HEADER - WORD_LIMIT;
    assert (tag + HEADER + size) % WORD_LIMIT == tag + HEADER + size - WORD_LIMIT;
  }

  /** It is split if it is a new region, which has MIN_PAGES pages; a free tag of the request's class 31 only if it is
      at the lower end of its class, as else the remainder looks negative. */
  lemma OversizeSplits(size: int, realSize: int)
    requires MAX_REQUEST < size < WORD_LIMIT && 2 * HEADER <= realSize < WORD_LIMIT
    ensures PagesFor(size) == MIN_PAGES
    ensures var remainder := (realSize - size - 2 * HEADER) % WORD_LIMIT;
      && remainder == realSize - 2 * HEADER + (WORD_LIMIT - size)
      && (realSize == PAGE * MIN_PAGES ==> 256 <= remainder < 0x8000_0000)
      && (InClass(realSize - HEADER, 31) ==>
            (256 <= remainder < 0x8000_0000 <==> realSize < 0x8000_0000 + 2 * HEADER - (WORD_LIMIT - size)))
  {
    assert (size + HEADER) % WORD_LIMIT == size + HEADER - WORD_LIMIT;
    Pow2Values();
  }

  /** `struct boundary_tag`. `base` and `end` are the bounds of the page region the
      tag was cut from; `rank` is the time of its last insertion into a free list;
      a `busy` tag is in the hands of the running operation. */
  class Tag {
    const addr: int
    ghost const base: int
    ghost const end: int
    const magic := MAGIC
    var size: int
    var realSize: int
    var index: int
    var splitLeft: Tag?
    var splitRight: Tag?
    var next: Tag?
    var prev: Tag?
    ghost var rank: nat
    ghost var busy: bool

    /** A new header. Its size stays what the memory held; the source leaves the index open as well,
        until insert_tag or the caller sets it. */
    constructor (addr: int, realSize: int, splitLeft: Tag?, splitRight: Tag?, ghost base: int, ghost end: int)
      ensures this.addr == addr && this.base == base && this.end == end
      ensures this.realSize == realSize && index == -1
      ensures this.splitLeft == splitLeft && this.splitRight == splitRight && next == null && prev == null && busy
    {
      this.addr, this.base, this.end := addr, base, end;
      this.realSize, this.index := realSize, -1;
      this.splitLeft, this.splitRight, this.next, this.prev := splitLeft, splitRight, null, null;
      this.busy := true;
    }
  }

  function Pointer(t: Tag?): int {
    if t == null then 0 else t.addr
  }

  lemma PageMultiple(pages: int)
    ensures (PAGE * pages) % PAGE == 0 && PAGE * pages / PAGE == pages
  {
  }

  lemma RegionFits(base: int, pages: int)
    requires Region(base, pages)
    ensures PAGE * pages <= WORD_LIMIT - PAGE
  {
    var k := base / PAGE;
    assert base == PAGE * k && k >= 1;
  }

  /** How a call ends that may store through the NULL of a refused allocation. */
  datatype Outcome = Done(ptr: int) | Fault

  /** The eight words of the header, in the order of the struct. */
  function HeaderWord(t: Tag, i: int): int
    reads t
  {
    match i
    case 0 => t.magic
    case 1 => t.size
    case 2 => t.realSize
    case 3 => t.index
    case 4 => Pointer(t.splitLeft)
    case 5 => Pointer(t.splitRight)
    case 6 => Pointer(t.next)
    case _ => Pointer(t.prev)
  }

  /** Byte `i` of a word, the least significant first. */
  function ByteOf(w: int, i: int): Byte {
    if i == 0 then w % 256 else if i == 1 then w / 0x100 % 256 else if i == 2 then w / 0x1_0000 % 256
    else w / 0x100_0000 % 256
  }

  /** Little-endian bytes of the header. */
  function HeaderByte(t: Tag, i: int): Byte
    reads t
  {
    ByteOf(HeaderWord(t, i / 4), i % 4)
  }

  /** The 32-bit word that a little-endian load finds at offset `o` of the header. */
  function HeaderLoad(t: Tag, o: int): int
    reads t
  {
    HeaderByte(t, o) + 0x100 * HeaderByte(t, o + 1) + 0x1_0000 * HeaderByte(t, o + 2)
    + 0x100_0000 * HeaderByte(t, o + 3)
  }

  /** The loads of the source's field accesses see the fields, in 32 bits. */
  lemma HeaderLayout(t: Tag)
    ensures HeaderLoad(t, 0) == 0xC001_C0DE && HeaderLoad(t, 4) == t.size % WORD_LIMIT
    ensures HeaderLoad(t, 8) == t.realSize % WORD_LIMIT && HeaderLoad(t, 12) == t.index % WORD_LIMIT
    ensures HeaderLoad(t, 16) == Pointer(t.splitLeft) % WORD_LIMIT
    ensures HeaderLoad(t, 20) == Pointer(t.splitRight) % WORD_LIMIT
    ensures HeaderLoad(t, 24) == Pointer(t.next) % WORD_LIMIT
    ensures HeaderLoad(t, 28) == Pointer(t.prev) % WORD_LIMIT
  {
    HeaderLoads(t, 0);
    HeaderLoads(t, 1);
    HeaderLoads(t, 2);
    HeaderLoads(t, 3);
    HeaderLoads(t, 4);
    HeaderLoads(t, 5);
    HeaderLoads(t, 6);
    HeaderLoads(t, 7);
  }

  lemma HeaderLoads(t: Tag, i: int)
    ensures HeaderLoad(t, 4 * i) == HeaderWord(t, i) % WORD_LIMIT
  {
    assert (4 * i) / 4 == i && (4 * i + 1) / 4 == i && (4 * i + 2) / 4 == i && (4 * i + 3) / 4 == i;
    WordOfBytes(HeaderWord(t, i));
  }

  lemma WordOfBytes(w: int)
    ensures w % 256 + 0x100 * (w / 0x100 % 256) + 0x1_0000 * (w / 0x1_0000 % 256) + 0x100_0000 * (w / 0x100_0000 % 256)
            == w % WORD_LIMIT
  {
    var q8 := w / 0x100;
    var q16 := q8 / 0x100;
    var q24 := q16 / 0x100;
    assert w / 0x1_0000 == q16;
    assert w / 0x100_0000 == q24;
    assert w / WORD_LIMIT == q24 / 0x100;
  }

  /** The provider's account, the region of some block, and whether the block is the last in it. */
  datatype Books = Books(held: Regions, obtained: int, returned: int, region: int, last: bool)

  /** The bytes of a tag, its list, and its place there. */
  datatype Place = Place(realSize: int, index: int, rank: nat)

  type Places = map<Tag, Place>

  class Heap {
    const freePages: array<Tag?>
    const completePages: array<int>
    const bytes: array<Byte>        // the 32-bit address space; the tags' headers lie over it
    const provider: Provider
    var initialized: bool
    var at: map<int, Tag>     // the tag stored at an address: what casting a pointer yields
    ghost var tags: set<Tag>
    ghost var live: map<int, int>   // payload pointer -> requested size
    ghost var clock: nat

    constructor ()
      ensures Valid() && fresh(freePages) && fresh(completePages) && fresh(provider) && fresh(bytes)
      ensures live == map[] && tags == {}
    {
      freePages := new Tag?[MAX_EXP](_ => null);
      completePages := new int[MAX_EXP](_ => 0);
      provider := new Provider();
      bytes := new Byte[WORD_LIMIT];
      initialized := false;
      at, tags, live, clock := map[], {}, map[], 0;
    }

    // ---------------------------------------------------------------- invariant

    ghost predicate Placed(t: Tag)
      reads this`at, provider`held, t`realSize
    {
      && t.addr in at && at[t.addr] == t
      && t.magic == MAGIC
      && HEADER <= t.realSize
      && t.base in provider.held
      && t.end == t.base + PAGE * provider.held[t.base] && provider.held[t.base] >= MIN_PAGES
      && t.base <= t.addr && t.addr + t.realSize <= t.end
    }

    ghost predicate SplitLinked(t: Tag)
      reads this`tags, t`realSize, t`splitLeft, t`splitRight, tags`realSize, tags`splitLeft, tags`splitRight
    {
      && (t.splitLeft == null <==> t.addr == t.base)
      && (t.splitRight == null <==> t.addr + t.realSize == t.end)
      && (t.splitLeft != null ==>
            && t.splitLeft in tags && t.splitLeft.splitRight == t
            && t.splitLeft.base == t.base
            && t.splitLeft.addr + t.splitLeft.realSize == t.addr)
      && (t.splitRight != null ==>
            && t.splitRight in tags && t.splitRight.splitLeft == t
            && t.splitRight.base == t.base
            && t.splitRight.addr == t.addr + t.realSize)
    }

    ghost predicate Apart(t: Tag, u: Tag)
      reads t`realSize, u`realSize
    {
      t.addr + t.realSize <= u.addr || u.addr + u.realSize <= t.addr
    }

    ghost predicate FreeLinked(t: Tag)
      requires freePages.Length == MAX_EXP
      reads this`tags, this`clock, freePages, t`index, t`next, t`prev, t`rank
      reads tags`index, tags`next, tags`prev, tags`rank
    {
      && (t.index < 0 ==> t.index == -1 && t.next == null && t.prev == null)
      && (t.index >= 0 ==>
            && MIN_EXP <= t.index < MAX_EXP
            && (t.prev == null <==> freePages[t.index] == t)
            && t.rank < clock)
      && (t.next != null ==>
            && t.next in tags && t.next.prev == t && t.next.index == t.index
            && t.next.rank < t.rank)
      && (t.prev != null ==>
            && t.prev in tags && t.prev.next == t && t.prev.index == t.index
            && t.rank < t.prev.rank)
    }

    /** A list is ordered by insertion time and skips nobody. */
    ghost predicate Ordered(t: Tag, u: Tag)
      reads this`tags, t`index, t`next, t`rank, u`index, u`rank, tags`rank
    {
      t.index == u.index >= 0 ==>
        && t.rank != u.rank
        && (u.rank < t.rank ==> t.next != null && t.next in tags && u.rank <= t.next.rank)
    }

    /** The head of list `k` is its newest tag. */
    ghost predicate Leads(t: Tag)
      requires freePages.Length == MAX_EXP
      reads this`tags, freePages, t`index, t`rank, tags`rank
    {
      MIN_EXP <= t.index < MAX_EXP ==>
        freePages[t.index] != null && freePages[t.index] in tags && t.rank <= freePages[t.index].rank
    }

    ghost predicate Head(k: int)
      requires freePages.Length == MAX_EXP
      reads this`tags, freePages, tags`index
    {
      0 <= k < MAX_EXP && freePages[k] != null ==> freePages[k] in tags && freePages[k].index == k
    }

    /** The region at `b` starts with a tag. */
    ghost predicate Rooted(b: int)
      reads this`at
    {
      b in at && at[b].base == b
    }

    ghost predicate Chains()
      reads this`tags, this`at, provider`held, tags`realSize, tags`splitLeft, tags`splitRight
    {
      && (forall a {:trigger at[a]} :: a in at ==> at[a] in tags && at[a].addr == a)
      && (forall t {:trigger Placed(t)} :: t in tags ==> Placed(t))
      && (forall t {:trigger SplitLinked(t)} :: t in tags ==> SplitLinked(t))
      && (forall t, u {:trigger Apart(t, u)} :: t in tags && u in tags && t != u ==> Apart(t, u))
      && (forall b {:trigger Rooted(b)} :: b in provider.held ==> Rooted(b))
    }

    ghost predicate Lists()
      requires freePages.Length == MAX_EXP
      reads this`tags, this`clock, freePages, tags`index, tags`next, tags`prev, tags`rank
    {
      && (forall t {:trigger FreeLinked(t)} :: t in tags ==> FreeLinked(t))
      && (forall t, u {:trigger Ordered(t, u)} :: t in tags && u in tags && t != u ==> Ordered(t, u))
      && (forall t {:trigger Leads(t)} :: t in tags ==> Leads(t))
      && (forall k {:trigger Head(k)} :: Head(k))
    }

    /** Free tags sit in the list of their size class and never touch each other. */
    ghost predicate Classed(t: Tag)
      reads this`tags, t`realSize, t`index, t`splitRight, t`busy, tags`index, tags`busy
    {
      t.index >= 0 && !t.busy ==>
        && InClass(t.realSize - HEADER, t.index)
        && (t.splitRight != null && t.splitRight in tags && !t.splitRight.busy ==> t.splitRight.index < 0)
    }

    /** A tag outside the lists holds a live block, and wastes at most 287 bytes of it. */
    ghost predicate Holds(t: Tag)
      reads this`live, t`size, t`realSize, t`index, t`busy
    {
      t.index < 0 && !t.busy ==>
        && t.addr + HEADER in live && live[t.addr + HEADER] == t.size
        && 0 <= t.size
        && t.size + HEADER <= t.realSize <= t.size + HEADER + 287
    }

    /** Every live block is held by a tag outside the lists. */
    ghost predicate Held(p: int)
      reads this`at, this`tags, tags`index, tags`busy
    {
      p - HEADER in at && at[p - HEADER] in tags && at[p - HEADER].index < 0 && !at[p - HEADER].busy
    }

    ghost predicate Blocks()
      reads this`tags, this`at, this`live, tags`index, tags`size, tags`realSize, tags`splitRight, tags`busy
    {
      && (forall t {:trigger Classed(t)} :: t in tags ==> Classed(t))
      && (forall t {:trigger Holds(t)} :: t in tags ==> Holds(t))
      && (forall p {:trigger Held(p)} :: p in live ==> Held(p))
    }

    /** What holds between any two statements. */
    ghost predicate Core()
      reads this`tags, this`at, this`live, this`clock, tags, freePages, provider
    {
      && freePages.Length == MAX_EXP && completePages.Length == MAX_EXP
      && provider.Valid()
      && Chains() && Lists() && Blocks()
    }

    /** The whole, empty regions waiting in list `k`. */
    ghost function Whole(k: int): set<Tag>
      reads this`tags, tags`index, tags`splitLeft, tags`splitRight, tags`busy
    {
      set t | t in tags && !t.busy && t.index == k && t.splitLeft == null && t.splitRight == null
    }

    ghost function Single(t: Tag): set<Tag>
      reads t`splitLeft, t`splitRight
    {
      if t.splitLeft == null && t.splitRight == null then {t} else {}
    }

    ghost predicate Counts()
      requires completePages.Length == MAX_EXP
      reads this`tags, tags`index, tags`splitLeft, tags`splitRight, tags`busy, completePages
    {
      forall k :: 0 <= k < MAX_EXP ==> completePages[k] == |Whole(k)| <= MAX_COMPLETE
    }

    /** No operation is running. */
    ghost predicate Idle()
      reads this`tags, tags`busy
    {
      forall t :: t in tags ==> !t.busy
    }

    ghost predicate Valid()
      reads this, tags, freePages, completePages, provider
    {
      && bytes.Length == WORD_LIMIT && Core() && Counts() && Idle()
      && (!initialized ==> tags == {})
    }

    /** The split neighbours of `t` are in use. */
    ghost predicate Alone(t: Tag)
      reads t`splitLeft, t`splitRight, t.splitLeft, t.splitRight
    {
      && (t.splitLeft != null ==> t.splitLeft.index < 0 || t.splitLeft.busy)
      && (t.splitRight != null ==> t.splitRight.index < 0 || t.splitRight.busy)
    }

    // ---------------------------------------------------------------- lists

    /** `t` is at the head of its list. */
    ghost predicate Front(t: Tag)
      reads this`tags, freePages, t`index
    {
      freePages.Length == MAX_EXP && t in tags && 0 <= t.index < MAX_EXP && freePages[t.index] == t
    }

    ghost function PlacesNow(): Places
      reads this`tags, tags`realSize, tags`index, tags`rank
    {
      map t | t in tags :: Place(t.realSize, t.index, t.rank)
    }

    /** The tags that had their places `before` and are still there, other than `t`, have them now. */
    ghost predicate Kept(before: Places, t: Tag?)
      reads this`tags, tags`realSize, tags`index, tags`rank
    {
      forall u :: u in tags && u in before && u != t ==>
        u.realSize == before[u].realSize && u.index == before[u].index && u.rank == before[u].rank
    }

    /** The tags that were and still are there, other than `t`, have their bytes, their list and their place in it. */
    twostate predicate Undisturbed(new t: Tag?)
      reads this`tags, tags`realSize, tags`index, tags`rank
    {
      forall u :: u in old(tags) && u in tags && u != t ==>
        u.realSize == old(u.realSize) && u.index == old(u.index) && u.rank == old(u.rank)
    }

    /** Only free-list fields changed. */
    twostate predicate SameChains()
      reads this, tags
    {
      && tags == old(tags) && at == old(at) && live == old(live)
      && forall u :: u in tags ==>
           && u.size == old(u.size) && u.realSize == old(u.realSize)
           && u.splitLeft == old(u.splitLeft) && u.splitRight == old(u.splitRight)
    }

    /** `t` became the head of list `k`, and nothing else changed in the lists. */
    twostate predicate Pushed(new t: Tag, k: int)
      requires freePages.Length == MAX_EXP && 0 <= k < MAX_EXP
      reads this, tags, freePages
    {
      var h := old(freePages[k]);
      && tags == old(tags) && t in tags && clock == old(clock) + 1
      && freePages[..] == old(freePages[..])[k := t]
      && t.index == k && t.next == h && t.prev == null && t.rank == old(clock) && !t.busy
      && (forall u :: u in tags && u != t ==>
            u.index == old(u.index) && u.next == old(u.next) && u.rank == old(u.rank) && u.busy == old(u.busy)
            && u.prev == if u == h then t else old(u.prev))
    }

    twostate lemma PushKeepsLists(new t: Tag, k: int)
      requires freePages.Length == MAX_EXP && MIN_EXP <= k < MAX_EXP
      requires old(Lists()) && t in old(tags) && old(t.index) < 0 && Pushed(t, k)
      ensures Lists()
    {
      assert old(FreeLinked(t));
      assert old(Head(k));
      var h := old(freePages[k]);
      assert h != null ==> old(FreeLinked(h));
      forall u | u in tags ensures FreeLinked(u) {
        assert old(FreeLinked(u)) && old(Leads(u));
      }
      PushKeepsOrder(t, k);
    }

    twostate lemma PushKeepsOrder(new t: Tag, k: int)
      requires freePages.Length == MAX_EXP && MIN_EXP <= k < MAX_EXP
      requires old(Lists()) && t in old(tags) && old(t.index) < 0 && Pushed(t, k)
      ensures forall u, v {:trigger Ordered(u, v)} :: u in tags && v in tags && u != v ==> Ordered(u, v)
      ensures forall u {:trigger Leads(u)} :: u in tags ==> Leads(u)
      ensures forall j {:trigger Head(j)} :: Head(j)
    {
      assert old(Head(k));
      forall u, v | u in tags && v in tags && u != v ensures Ordered(u, v) {
        assert old(Ordered(u, v)) && old(FreeLinked(u)) && old(FreeLinked(v)) && old(Leads(v));
      }
      forall u | u in tags ensures Leads(u) {
        assert old(Leads(u)) && old(FreeLinked(u));
      }
      forall j ensures Head(j) {
        assert old(Head(j));
      }
    }

    twostate lemma PushKeepsBlocks(new t: Tag, k: int)
      requires freePages.Length == MAX_EXP && MIN_EXP <= k < MAX_EXP
      requires old(Chains()) && old(Blocks())
      requires t in old(tags) && old(t.busy) && old(t.index) < 0 && old(Alone(t))
      requires Pushed(t, k) && SameChains() && InClass(t.realSize - HEADER, k)
      ensures Blocks()
      ensures forall j :: Whole(j) == old(Whole(j)) + if j == k then Single(t) else {}
    {
      assert old(Placed(t)) && old(SplitLinked(t));
      forall u | u in tags ensures Classed(u) {
        assert old(Classed(u)) && old(SplitLinked(u));
      }
      forall u | u in tags ensures Holds(u) {
        assert old(Holds(u));
      }
      forall p | p in live ensures Held(p) {
        assert old(Held(p));
      }
    }

    twostate lemma PushKeepsCore(new t: Tag, k: int)
      requires old(Core()) && MIN_EXP <= k < MAX_EXP
      requires t in old(tags) && old(t.busy) && old(t.index) < 0 && old(Alone(t))
      requires Pushed(t, k) && SameChains() && InClass(t.realSize - HEADER, k)
      requires provider.held == old(provider.held) && provider.Valid()
      ensures Core()
      ensures forall j :: Whole(j) == old(Whole(j)) + if j == k then Single(t) else {}
    {
      PushKeepsLists(t, k);
      PushKeepsBlocks(t, k);
    }

    /** The free list a tag belongs to, computed alike by insert_tag and by free. */
    method ClassIndex(t: Tag) returns (index: int)
      requires Core() && t in tags
      ensures InClass(t.realSize - HEADER, index)
    {
      assert Placed(t);
      index := GetExp(t.realSize - HEADER);
      if index < MIN_EXP {
        index := MIN_EXP;
        Pow2Values();
      }
    }

    /** The pointer surgery of insert_tag. */
    method PushFront(t: Tag, k: int)
      requires freePages.Length == MAX_EXP && 0 <= k < MAX_EXP
      requires t in tags && t.next == null && t.prev == null
      requires freePages[k] != null ==> freePages[k] in tags && freePages[k] != t
      modifies this`clock, freePages, tags`next, tags`prev, tags`index, tags`rank, tags`busy
      ensures Pushed(t, k) && SameChains()
    {
      t.index := k;
      if freePages[k] != null {
        freePages[k].prev := t;
        t.next := freePages[k];
      }
      freePages[k] := t;
      t.rank, t.busy := clock, false;
      clock := clock + 1;
    }

    /** insert_tag */
    method InsertTag(t: Tag, index: int)
      requires Core() && t in tags && t.busy && t.index < 0 && Alone(t)
      requires index >= 0 ==> InClass(t.realSize - HEADER, index)
      modifies this`clock, freePages, tags`next, tags`prev, tags`index, tags`rank, tags`busy
      ensures Core() && 0 <= t.index < MAX_EXP && Pushed(t, t.index) && InClass(t.realSize - HEADER, t.index)
      ensures !t.busy && Front(t) && Undisturbed(t)
      ensures forall u :: u in tags && u != t ==> u.index == old(u.index) && u.busy == old(u.busy)
      ensures forall k :: Whole(k) == old(Whole(k)) + if k == t.index then Single(t) else {}
    {
      var realIndex := index;
      if index < 0 {
        realIndex := ClassIndex(t);
      }
      assert Head(realIndex) && FreeLinked(t);
      PushFront(t, realIndex);
      PushKeepsCore(t, realIndex);
    }

    /** `t` left its list, its neighbours closing the gap. */
    twostate predicate Pulled(new t: Tag)
      requires freePages.Length == MAX_EXP && t in old(tags) && 0 <= old(t.index) < MAX_EXP
      reads this, tags, freePages
    {
      var k, n, p := old(t.index), old(t.next), old(t.prev);
      && tags == old(tags) && t in tags && clock == old(clock)
      && freePages[..] == (if old(freePages[k]) == t then old(freePages[..])[k := n] else old(freePages[..]))
      && t.index == -1 && t.next == null && t.prev == null && t.busy == old(t.busy)
      && (forall u :: u in tags && u != t ==>
            && u.index == old(u.index) && u.rank == old(u.rank) && u.busy == old(u.busy)
            && u.next == (if u == p then n else old(u.next))
            && u.prev == (if u == n then p else old(u.prev)))
    }

    twostate lemma PullKeepsLinks(new t: Tag)
      requires freePages.Length == MAX_EXP && t in old(tags) && MIN_EXP <= old(t.index) < MAX_EXP
      requires old(Lists()) && Pulled(t)
      ensures forall u {:trigger FreeLinked(u)} :: u in tags ==> FreeLinked(u)
    {
      assert old(FreeLinked(t));
      assert old(Head(t.index));
      forall u | u in tags ensures FreeLinked(u) {
        assert old(FreeLinked(u));
      }
    }

    twostate lemma PullKeepsOrder(new t: Tag)
      requires freePages.Length == MAX_EXP && t in old(tags) && MIN_EXP <= old(t.index) < MAX_EXP
      requires old(Lists()) && Pulled(t)
      ensures forall u, v {:trigger Ordered(u, v)} :: u in tags && v in tags && u != v ==> Ordered(u, v)
      ensures forall u {:trigger Leads(u)} :: u in tags ==> Leads(u)
      ensures forall j {:trigger Head(j)} :: Head(j)
    {
      assert old(FreeLinked(t));
      forall u, v | u in tags && v in tags && u != v ensures Ordered(u, v) {
        assert old(Ordered(u, v)) && old(FreeLinked(u)) && old(FreeLinked(v));
        assert v != t ==> old(Ordered(t, v));
      }
      forall u | u in tags ensures Leads(u) {
        assert old(Leads(u)) && old(FreeLinked(u));
        assert u != t ==> old(Ordered(t, u));
        assert old(Head(u.index));
      }
      forall j ensures Head(j) {
        assert old(Head(j));
      }
    }

    twostate lemma PullKeepsBlocks(new t: Tag)
      requires freePages.Length == MAX_EXP && t in old(tags) && 0 <= old(t.index) < MAX_EXP
      requires old(Blocks()) && old(t.busy) && Pulled(t) && SameChains()
      ensures Blocks() && forall j :: Whole(j) == old(Whole(j))
    {
      forall u | u in tags ensures Classed(u) {
        assert old(Classed(u));
      }
      forall u | u in tags ensures Holds(u) {
        assert old(Holds(u));
      }
      forall p | p in live ensures Held(p) {
        assert old(Held(p));
      }
    }

    /** The pointer surgery of remove_tag. */
    method Unlink(t: Tag)
      requires freePages.Length == MAX_EXP && 0 <= t.index < MAX_EXP && t in tags
      requires t.prev != null ==> t.prev in tags && t.prev != t
      requires t.next != null ==> t.next in tags && t.next != t
      modifies freePages, tags`next, tags`prev, tags`index
      ensures Pulled(t) && SameChains()
    {
      if freePages[t.index] == t {
        freePages[t.index] := t.next;
      }
      if t.prev != null {
        t.prev.next := t.next;
      }
      if t.next != null {
        t.next.prev := t.prev;
      }
      t.next := null;
      t.prev := null;
      t.index := -1;
    }

    /** remove_tag */
    method RemoveTag(t: Tag)
      requires Core() && t in tags && t.busy && t.index >= 0
      modifies freePages, tags`next, tags`prev, tags`index
      ensures Core() && t.index == -1
      ensures forall u :: u in tags && u != t ==> u.index == old(u.index)
      ensures forall k :: Whole(k) == old(Whole(k))
    {
      assert FreeLinked(t);
      Unlink(t);
      PullKeepsLinks(t);
      PullKeepsOrder(t);
      PullKeepsBlocks(t);
    }

    // ---------------------------------------------------------------- splitting and melting

    twostate lemma SeizeKeepsBlocks(new t: Tag)
      requires old(Chains()) && old(Blocks()) && t in old(tags) && !old(t.busy)
      requires tags == old(tags) && at == old(at) && t.busy
      requires forall u :: u in tags ==>
        u.index == old(u.index) && u.size == old(u.size) && u.realSize == old(u.realSize)
      requires forall u :: u in tags ==> u.splitLeft == old(u.splitLeft) && u.splitRight == old(u.splitRight)
      requires forall u :: u in tags && u != t ==> u.busy == old(u.busy)
      requires live == if t.index < 0 then old(live) - {t.addr + HEADER} else old(live)
      ensures Blocks() && forall k :: Whole(k) == old(Whole(k)) - {t}
    {
      assert old(Holds(t)) && old(Placed(t));
      forall u | u in tags ensures Classed(u) {
        assert old(Classed(u));
      }
      forall u | u in tags ensures Holds(u) {
        assert old(Holds(u)) && old(Placed(u));
      }
      forall p | p in live ensures Held(p) {
        assert old(Held(p));
      }
    }

    /** The running operation takes a tag; a live block dies with this. */
    ghost method Seize(t: Tag)
      requires Core() && t in tags && !t.busy
      modifies this`live, t`busy
      ensures Core() && t.busy
      ensures live == if t.index < 0 then old(live) - {t.addr + HEADER} else old(live)
      ensures forall k :: Whole(k) == old(Whole(k)) - {t}
    {
      if t.index < 0 {
        live := live - {t.addr + HEADER};
      }
      t.busy := true;
      SeizeKeepsBlocks(t);
    }

    /** `left` took over the bytes of its right neighbour `gone`. */
    twostate predicate Joined(new left: Tag, new gone: Tag)
      requires left in old(tags) && gone in old(tags)
      reads this, tags
    {
      var r := old(gone.splitRight);
      && tags == old(tags) - {gone} && at == old(at) - {gone.addr} && live == old(live) && clock == old(clock)
      && left in tags && left.realSize == old(left.realSize) + old(gone.realSize) && left.splitRight == r
      && (forall u :: u in tags ==>
            && (u != left ==> u.realSize == old(u.realSize) && u.splitRight == old(u.splitRight))
            && u.splitLeft == (if u == r then left else old(u.splitLeft))
            && u.size == old(u.size) && u.index == old(u.index) && u.busy == old(u.busy)
            && u.next == old(u.next) && u.prev == old(u.prev) && u.rank == old(u.rank))
    }

    twostate lemma JoinKeepsChains(new left: Tag, new gone: Tag)
      requires left in old(tags) && gone in old(tags)
      requires old(Chains()) && old(gone.splitLeft) == left && provider.held == old(provider.held)
      requires Joined(left, gone)
      ensures Chains()
    {
      assert old(Placed(gone)) && old(SplitLinked(gone)) && old(Placed(left)) && old(SplitLinked(left));
      forall u | u in tags ensures Placed(u) {
        assert old(Placed(u));
      }
      forall u | u in tags ensures SplitLinked(u) {
        assert old(SplitLinked(u));
      }
      forall u, v | u in tags && v in tags && u != v ensures Apart(u, v) {
        assert old(Apart(u, v)) && old(Placed(u)) && old(Placed(v));
        assert u != gone && v != gone ==> old(Apart(u, gone)) && old(Apart(gone, v));
      }
      forall b | b in provider.held ensures Rooted(b) {
        assert old(Rooted(b));
      }
    }

    twostate lemma JoinKeepsLists(new left: Tag, new gone: Tag)
      requires left in old(tags) && gone in old(tags) && freePages.Length == MAX_EXP
      requires old(Lists()) && old(gone.index) < 0 && freePages[..] == old(freePages[..])
      requires Joined(left, gone)
      ensures Lists()
    {
      assert old(FreeLinked(gone));
      forall u | u in tags ensures FreeLinked(u) {
        assert old(FreeLinked(u));
      }
      forall u, v | u in tags && v in tags && u != v ensures Ordered(u, v) {
        assert old(Ordered(u, v)) && old(FreeLinked(u));
      }
      forall u | u in tags ensures Leads(u) {
        assert old(Leads(u)) && old(Head(u.index));
      }
      forall j ensures Head(j) {
        assert old(Head(j));
      }
    }

    twostate lemma JoinKeepsBlocks(new left: Tag, new gone: Tag)
      requires left in old(tags) && gone in old(tags)
      requires old(Chains()) && old(Blocks()) && old(left.busy) && old(gone.busy) && old(gone.splitLeft) == left
      requires Joined(left, gone)
      ensures Blocks() && forall k :: Whole(k) == old(Whole(k))
    {
      assert old(SplitLinked(gone)) && old(Placed(gone));
      forall u | u in tags ensures Classed(u) {
        assert old(Classed(u)) && old(SplitLinked(u));
      }
      forall u | u in tags ensures Holds(u) {
        assert old(Holds(u));
      }
      forall p | p in live ensures Held(p) {
        assert old(Held(p));
      }
    }

    /** The pointer surgery shared by melt_left and absorb_right. */
    method Join(left: Tag, gone: Tag)
      requires left in tags && gone in tags && left != gone
      requires gone.splitRight != null ==> gone.splitRight in tags && gone.splitRight != gone
      modifies this`tags, this`at, tags`realSize, tags`splitLeft, tags`splitRight
      ensures Joined(left, gone)
    {
      left.realSize := left.realSize + gone.realSize;
      left.splitRight := gone.splitRight;
      if gone.splitRight != null {
        gone.splitRight.splitLeft := left;
      }
      tags := tags - {gone};
      at := at - {gone.addr};
    }

    twostate lemma JoinKeepsCore(new left: Tag, new gone: Tag)
      requires left in old(tags) && gone in old(tags) && old(gone.splitLeft) == left
      requires old(Core()) && old(left.busy) && old(gone.busy) && old(gone.index) < 0
      requires freePages[..] == old(freePages[..]) && provider.Valid() && provider.held == old(provider.held)
      requires Joined(left, gone)
      ensures Core() && forall k :: Whole(k) == old(Whole(k))
    {
      JoinKeepsChains(left, gone);
      JoinKeepsLists(left, gone);
      JoinKeepsBlocks(left, gone);
    }

    /** melt_left */
    method MeltLeft(tag: Tag) returns (left: Tag)
      requires Core() && tag in tags && tag.busy && tag.index < 0
      requires tag.splitLeft != null && tag.splitLeft.busy
      modifies this`tags, this`at, tags`realSize, tags`splitLeft, tags`splitRight
      ensures Core() && left == old(tag.splitLeft) && left in old(tags) && Joined(left, tag)
      ensures forall k :: Whole(k) == old(Whole(k))
    {
      left := tag.splitLeft;
      assert SplitLinked(tag) && Placed(tag) && Placed(left);
      Join(left, tag);
      JoinKeepsCore(left, tag);
    }

    /** `tag` took over the bytes of its right neighbour `gone`, which left its list. */
    twostate predicate Absorbed(new tag: Tag, new gone: Tag)
      requires tag in old(tags) && gone in old(tags)
      reads this, tags
    {
      var r := old(gone.splitRight);
      && tags == old(tags) - {gone} && tag in tags
      && tag.realSize == old(tag.realSize) + old(gone.realSize) && tag.splitRight == r
      && (forall u :: u in tags ==>
            && (u != tag ==> u.realSize == old(u.realSize) && u.splitRight == old(u.splitRight))
            && u.splitLeft == (if u == r then tag else old(u.splitLeft))
            && u.index == old(u.index))
    }

    /** absorb_right */
    method AbsorbRight(tag: Tag) returns (r: Tag)
      requires Core() && tag in tags && tag.busy && tag.index < 0
      requires tag.splitRight != null && tag.splitRight.busy && tag.splitRight.index >= 0
      modifies this`tags, this`at, tags`realSize, tags`splitLeft, tags`splitRight
      modifies freePages, tags`next, tags`prev, tags`index
      ensures Core() && r == tag && r in tags && old(tag.splitRight) in old(tags) && Absorbed(tag, old(tag.splitRight))
      ensures forall k :: Whole(k) == old(Whole(k))
    {
      var right := tag.splitRight;
      assert SplitLinked(tag) && SplitLinked(right) && Placed(tag) && Placed(right);
      RemoveTag(right);
      label removed:
      Join(tag, right);
      JoinKeepsCore@removed(tag, right);
      r := tag;
    }

    /** The list and block fields of the old tags did not change. */
    twostate predicate SameLists()
      reads this, tags
    {
      && live == old(live) && clock == old(clock)
      && forall u :: u in old(tags) && u in tags ==>
           && u.size == old(u.size) && u.index == old(u.index) && u.busy == old(u.busy)
           && u.next == old(u.next) && u.prev == old(u.prev) && u.rank == old(u.rank)
    }

    /** A tag nobody has linked into a list yet. */
    ghost predicate Newborn(n: Tag)
      reads n
    {
      n.index == -1 && n.next == null && n.prev == null && n.busy
    }

    twostate lemma BirthKeepsLists(new n: Tag)
      requires freePages.Length == MAX_EXP && freePages[..] == old(freePages[..])
      requires old(Lists()) && tags == old(tags) + {n} && n !in old(tags) && Newborn(n) && SameLists()
      ensures Lists()
    {
      forall u | u in tags ensures FreeLinked(u) {
        assert u != n ==> old(FreeLinked(u));
      }
      forall u, v | u in tags && v in tags && u != v ensures Ordered(u, v) {
        assert u != n && v != n ==> old(Ordered(u, v)) && old(FreeLinked(u));
      }
      forall u | u in tags ensures Leads(u) {
        assert u != n ==> old(Leads(u));
      }
      forall j ensures Head(j) {
        assert old(Head(j));
      }
    }

    /** `tag` kept its first bytes and gave the rest to the new tag `n`. */
    twostate predicate Cut(new tag: Tag, new n: Tag)
      requires tag in old(tags)
      reads this, tags, n
    {
      var r := old(tag.splitRight);
      && tags == old(tags) + {n} && n !in old(tags) && at == old(at)[n.addr := n]
      && n.addr == tag.addr + HEADER + old(tag.size) && n.base == tag.base && n.end == tag.end
      && n.realSize == old(tag.realSize) - HEADER - old(tag.size)
      && n.splitLeft == tag && n.splitRight == r
      && tag in tags && tag.realSize == HEADER + old(tag.size) && tag.splitRight == n
      && (forall u :: u in old(tags) && u in tags ==>
            && (u != tag ==> u.realSize == old(u.realSize) && u.splitRight == old(u.splitRight))
            && u.splitLeft == if u == r then n else old(u.splitLeft))
    }

    twostate lemma CutKeepsChains(new tag: Tag, new n: Tag)
      requires tag in old(tags) && 0 <= old(tag.size) && old(tag.size) + 2 * HEADER <= old(tag.realSize)
      requires old(Chains()) && provider.held == old(provider.held)
      requires Cut(tag, n)
      ensures Chains()
    {
      assert old(Placed(tag)) && old(SplitLinked(tag));
      forall u | u in tags && u != tag && u != n ensures Placed(u) && SplitLinked(u) && u.addr != n.addr {
        assert old(Placed(u)) && old(SplitLinked(u)) && old(Apart(u, tag));
      }
      assert Placed(n) && SplitLinked(n) && Placed(tag) && SplitLinked(tag);
      forall u, v | u in tags && v in tags && u != v ensures Apart(u, v) {
        assert u in old(tags) && v in old(tags) ==> old(Apart(u, v));
        assert u in old(tags) && u != tag ==> old(Apart(u, tag)) && old(Placed(u));
        assert v in old(tags) && v != tag ==> old(Apart(tag, v)) && old(Placed(v));
      }
      forall b | b in provider.held ensures Rooted(b) {
        assert old(Rooted(b));
      }
    }

    twostate lemma CutKeepsBlocks(new tag: Tag, new n: Tag)
      requires tag in old(tags) && old(tag.busy) && n.busy && n.realSize > 0
      requires old(Chains()) && old(Blocks()) && Chains() && Cut(tag, n) && SameLists()
      ensures Blocks() && forall k :: Whole(k) == old(Whole(k))
    {
      forall u | u in tags ensures Classed(u) {
        assert u != n ==> old(Classed(u)) && old(SplitLinked(u));
      }
      forall u | u in tags ensures Holds(u) {
        assert u != n ==> old(Holds(u));
      }
      forall p | p in live ensures Held(p) {
        assert old(Held(p));
        var t := old(at[p - HEADER]);
        assert Placed(n) && old(Placed(t)) && Placed(t);
      }
      forall k ensures Whole(k) == old(Whole(k)) {
        assert old(SplitLinked(tag));
      }
    }

    twostate lemma CutKeepsCore(new tag: Tag, new n: Tag)
      requires tag in old(tags) && old(tag.busy) && Newborn(n)
      requires 0 <= old(tag.size) && old(tag.size) + 2 * HEADER <= old(tag.realSize)
      requires old(Core()) && freePages[..] == old(freePages[..])
      requires provider.Valid() && provider.held == old(provider.held)
      requires Cut(tag, n) && SameLists()
      ensures Core() && forall k :: Whole(k) == old(Whole(k))
    {
      CutKeepsChains(tag, n);
      BirthKeepsLists(n);
      CutKeepsBlocks(tag, n);
    }

    /** The pointer surgery of split_tag. */
    method Sever(tag: Tag) returns (n: Tag)
      requires tag in tags
      requires tag.splitRight != null ==> tag.splitRight in tags && tag.splitRight != tag
      modifies this`tags, this`at, tag`realSize, tag`splitRight, tags`splitLeft
      ensures fresh(n) && Cut(tag, n) && SameLists() && Newborn(n)
    {
      var remainder := tag.realSize - HEADER - tag.size;
      n := new Tag(tag.addr + HEADER + tag.size, remainder, tag, tag.splitRight, tag.base, tag.end);
      if n.splitRight != null {
        n.splitRight.splitLeft := n;
      }
      tag.splitRight := n;
      tag.realSize := tag.realSize - n.realSize;
      tags := tags + {n};
      at := at[n.addr := n];
    }

    /** split_tag */
    method SplitTag(tag: Tag) returns (n: Tag)
      requires Core() && tag in tags && tag.busy && tag.index < 0
      requires 0 <= tag.size && tag.size + 2 * HEADER <= tag.realSize
      requires tag.splitRight != null ==> tag.splitRight.index < 0 || tag.splitRight.busy
      modifies this`tags, this`at, tag`realSize, tag`splitRight, tags`splitLeft
      modifies this`clock, freePages, tags`next, tags`prev, tags`index, tags`rank, tags`busy
      ensures Core() && fresh(n) && tags == old(tags) + {n} && !n.busy && Front(n)
      ensures n == tag.splitRight && n.realSize == old(tag.realSize) - HEADER - tag.size
      ensures tag.realSize == HEADER + tag.size && tag.index < 0 && tag.busy
      ensures Undisturbed(tag) && forall u :: u in old(tags) ==> u.index == old(u.index) && u.busy == old(u.busy)
      ensures forall k :: Whole(k) == old(Whole(k))
    {
      n := Separate(tag);
      InsertTag(n, -1);
    }

    /** split_tag, without the insertion. */
    method Separate(tag: Tag) returns (n: Tag)
      requires Core() && tag in tags && tag.busy && tag.index < 0
      requires 0 <= tag.size && tag.size + 2 * HEADER <= tag.realSize
      requires tag.splitRight != null ==> tag.splitRight.index < 0 || tag.splitRight.busy
      modifies this`tags, this`at, tag`realSize, tag`splitRight, tags`splitLeft
      ensures Core() && fresh(n) && tags == old(tags) + {n} && n.busy && n.index < 0 && Alone(n)
      ensures n == tag.splitRight && n.realSize == old(tag.realSize) - HEADER - tag.size
      ensures tag.realSize == HEADER + tag.size && forall k :: Whole(k) == old(Whole(k))
      ensures Single(n) == {}
    {
      assert SplitLinked(tag) && Placed(tag);
      n := Sever(tag);
      CutKeepsCore(tag, n);
    }

    // ---------------------------------------------------------------- regions

    /** `n` spans a region of its own that the provider has just granted. */
    twostate predicate Granted(new n: Tag)
      reads this, tags, n, provider
    {
      && tags == old(tags) + {n} && n !in old(tags) && at == old(at)[n.addr := n]
      && n.addr == n.base && n.end == n.addr + n.realSize && n.splitLeft == null && n.splitRight == null
      && n.addr !in old(provider.held) && n.realSize % PAGE == 0 && n.realSize >= PAGE * MIN_PAGES
      && Fresh(old(provider.held), n.addr, n.realSize / PAGE)
      && provider.held == old(provider.held)[n.addr := n.realSize / PAGE]
      && (forall u :: u in old(tags) && u in tags ==>
            && u.realSize == old(u.realSize)
            && u.splitLeft == old(u.splitLeft) && u.splitRight == old(u.splitRight))
    }

    twostate lemma GrantKeepsChains(new n: Tag)
      requires old(Chains()) && Granted(n)
      ensures Chains()
    {
      forall u | u in tags && u != n ensures Placed(u) && SplitLinked(u) && Apart(u, n) && u.addr != n.addr {
        assert old(Placed(u)) && old(SplitLinked(u));
        assert Disjoint(u.base, old(provider.held)[u.base], n.addr, n.realSize / PAGE);
      }
      assert Placed(n) && SplitLinked(n);
      forall u, v | u in tags && v in tags && u != v ensures Apart(u, v) {
        assert u != n && v != n ==> old(Apart(u, v));
        assert Apart(u, n) ==> Apart(n, u);
      }
      forall b | b in provider.held ensures Rooted(b) {
        assert b != n.addr ==> old(Rooted(b));
      }
    }

    twostate lemma GrantKeepsCore(new n: Tag)
      requires old(Core()) && Granted(n) && Newborn(n) && SameLists()
      requires freePages[..] == old(freePages[..]) && provider.Valid()
      ensures Core() && forall k :: Whole(k) == old(Whole(k))
    {
      GrantKeepsChains(n);
      BirthKeepsLists(n);
      forall u | u in tags ensures Classed(u) {
        assert u != n ==> old(Classed(u)) && old(SplitLinked(u));
      }
      forall u | u in tags ensures Holds(u) {
        assert u != n ==> old(Holds(u));
      }
      forall p | p in live ensures Held(p) {
        assert old(Held(p));
        var t := old(at[p - HEADER]);
        assert Placed(n) && old(Placed(t)) && Placed(t);
      }
    }

    /** allocate_new_tag */
    method AllocateNewTag(size: int) returns (tag: Tag?)
      requires Core() && 0 <= size <= MAX_REQUEST
      modifies this`tags, this`at, provider
      ensures Core()
      ensures tag == null ==>
        && tags == old(tags) && provider.held == old(provider.held)
        && provider.obtained == old(provider.obtained)
      ensures tag != null ==>
        && fresh(tag) && tags == old(tags) + {tag} && Newborn(tag) && tag.size == size
        && tag.splitLeft == null && tag.splitRight == null && tag.realSize == PAGE * PagesFor(size) <= WORD_LIMIT
        && tag.base !in old(provider.held) && provider.held == old(provider.held)[tag.base := PagesFor(size)]
        && provider.obtained == old(provider.obtained) + PagesFor(size)
      ensures provider.returned == old(provider.returned)
      ensures forall k :: Whole(k) == old(Whole(k))
    {
      PagesSuffice(size);
      var pages := PagesFor(size);
      var base := provider.Alloc(pages);
      if base == 0 {
        return null;
      }
      PageMultiple(pages);
      var n := new Tag(base, PAGE * pages, null, null, base, base + PAGE * pages);
      n.size := size;
      tags := tags + {n};
      at := at[base := n];
      GrantKeepsCore(n);
      tag := n;
    }

    // ---------------------------------------------------------------- malloc

    /** The search criterion of malloc: room for header and request, and for one more header. */
    predicate Fits(t: Tag, size: int): (fits: bool)
      reads t`realSize
      ensures fits <==> size + 2 * HEADER <= t.realSize
    {
      t.realSize - HEADER >= size + HEADER
    }

    /** Of the free tags in its list, `t` is the latest that fits. */
    ghost predicate FirstFit(t: Tag, size: int)
      reads this`tags, tags`index, tags`realSize, tags`rank, t`index, t`realSize, t`rank
    {
      && t in tags && t.index >= 0 && InClass(size, t.index) && Fits(t, size)
      && forall u {:trigger Fits(u, size)} :: u in tags && u.index == t.index && u.rank > t.rank ==> !Fits(u, size)
    }

    /** Some free tag of the request's class has room for it. */
    ghost predicate Available(size: int)
      reads this`tags, tags`index, tags`realSize
    {
      exists t :: t in tags && t.index >= 0 && InClass(size, t.index) && Fits(t, size)
    }

    lemma AvailableIn(size: int, k: int)
      requires InClass(size, k)
      ensures Available(size) <==> exists t :: t in tags && t.index == k && Fits(t, size)
    {
      forall j | InClass(size, j) ensures j == k {
        ClassUnique(size, j, k);
      }
    }

    /** The search of malloc: the newest tag of the list with room for the request. */
    method FindFit(index: int, size: int) returns (tag: Tag?)
      requires Core() && InClass(size, index)
      ensures tag == null <==> !Available(size)
      ensures tag != null ==> tag.index == index && FirstFit(tag, size)
    {
      AvailableIn(size, index);
      tag := freePages[index];
      assert Head(index);
      forall u | u in tags && u.index == index ensures tag != null && u.rank <= tag.rank {
        assert Leads(u);
      }
      while tag != null
        invariant tag != null ==> tag in tags && tag.index == index
        invariant forall u {:trigger Fits(u, size)} ::
          u in tags && u.index == index && (tag == null || u.rank > tag.rank) ==> !Fits(u, size)
        decreases if tag != null then tag.rank + 1 else 0
      {
        if Fits(tag, size) {
          break;
        }
        assert FreeLinked(tag);
        forall u | u in tags && u.index == index && (tag.next == null || u.rank > tag.next.rank)
          ensures !Fits(u, size)
        {
          assert u != tag ==> Ordered(tag, u);
        }
        tag := tag.next;
      }
    }

    /** The running operation hands the block to the client. */
    ghost method Deliver(t: Tag)
      requires Core() && t in tags && t.busy && t.index < 0
      requires 0 <= t.size && t.size + HEADER <= t.realSize <= t.size + HEADER + 287
      modifies this`live, t`busy
      ensures Core() && !t.busy
      ensures t.addr + HEADER !in old(live) && live == old(live)[t.addr + HEADER := t.size]
      ensures forall k :: 0 <= k ==> Whole(k) == old(Whole(k))
    {
      assert Placed(t) && FreeLinked(t);
      assert t.addr + HEADER in live ==> Held(t.addr + HEADER);
      live := live[t.addr + HEADER := t.size];
      t.busy := false;
      DeliverKeepsBlocks(t);
    }

    twostate lemma DeliverKeepsBlocks(new t: Tag)
      requires old(Chains()) && old(Blocks()) && t in old(tags) && old(t.busy) && old(t.index) == -1 && !t.busy
      requires 0 <= t.size && t.size + HEADER <= t.realSize <= t.size + HEADER + 287
      requires tags == old(tags) && at == old(at) && live == old(live)[t.addr + HEADER := t.size]
      requires forall u :: u in tags && u != t ==> u.busy == old(u.busy)
      requires forall u :: u in tags ==>
        u.index == old(u.index) && u.size == old(u.size) && u.realSize == old(u.realSize)
      requires forall u :: u in tags ==> u.splitLeft == old(u.splitLeft) && u.splitRight == old(u.splitRight)
      ensures Blocks() && forall k :: 0 <= k ==> Whole(k) == old(Whole(k))
    {
      assert old(Placed(t));
      forall u | u in tags ensures Classed(u) {
        assert old(Classed(u));
      }
      forall u | u in tags ensures Holds(u) {
        assert old(Holds(u)) && old(Placed(u));
      }
      forall p | p in live ensures Held(p) {
        assert p != t.addr + HEADER ==> old(Held(p));
      }
    }

    /** First call: clear the lists and counters, which are still in their static initial state. */
    method Initialize()
      requires Valid()
      modifies this`initialized, freePages, completePages
      ensures Valid() && initialized
    {
      if initialized {
        return;
      }
      forall k | 0 <= k < MAX_EXP ensures freePages[k] == null && completePages[k] == 0 {
        assert Head(k) && Whole(k) == {};
      }
      var index := 0;
      while index < MAX_EXP
        invariant 0 <= index <= MAX_EXP && tags == {}
        invariant forall k :: 0 <= k < MAX_EXP ==> freePages[k] == null && completePages[k] == 0
      {
        freePages[index] := null;
        completePages[index] := 0;
        index := index + 1;
      }
      assert forall k :: Whole(k) == {};
      initialized := true;
    }

    /** The counters, while one counted region of list `k` is already taken out. */
    ghost predicate CountsAhead(k: int)
      requires completePages.Length == MAX_EXP
      reads this`tags, tags`index, tags`splitLeft, tags`splitRight, tags`busy, completePages
    {
      forall j :: 0 <= j < MAX_EXP ==> completePages[j] == |Whole(j)| + (if j == k then 1 else 0) <= MAX_COMPLETE
    }

    twostate lemma CountsSame()
      requires completePages.Length == MAX_EXP && old(Counts()) && completePages[..] == old(completePages[..])
      requires forall j :: 0 <= j ==> Whole(j) == old(Whole(j))
      ensures Counts()
    {
    }

    /** remove_tag for a tag the search found. */
    method Pick(tag: Tag)
      requires Core() && Counts() && Idle() && tag in tags && tag.index >= 0
      modifies freePages, tags`next, tags`prev, tags`index, this`live, tag`busy
      ensures Core() && tag.busy && tag.index == -1 && live == old(live) && old(tag.index) < MAX_EXP
      ensures forall u :: u in tags ==> (u.busy ==> u == tag) && (u != tag ==> u.index == old(u.index))
      ensures if tag.splitLeft == null && tag.splitRight == null then CountsAhead(old(tag.index)) else Counts()
    {
      assert FreeLinked(tag);
      Seize(tag);
      RemoveTag(tag);
      CountsAfterPick(tag);
    }

    twostate lemma CountsAfterPick(new tag: Tag)
      requires completePages.Length == MAX_EXP && old(Counts()) && completePages[..] == old(completePages[..])
      requires tag in old(tags) && !old(tag.busy) && 0 <= old(tag.index) < MAX_EXP
      requires tag.splitLeft == old(tag.splitLeft) && tag.splitRight == old(tag.splitRight)
      requires forall k :: Whole(k) == old(Whole(k)) - {tag}
      ensures if tag.splitLeft == null && tag.splitRight == null then CountsAhead(old(tag.index)) else Counts()
    {
      assert forall k :: tag in old(Whole(k)) <==> k == old(tag.index) && Spans(tag);
    }

    /** Takes a free tag out of its list, keeping the count of whole regions exact. */
    method Take(tag: Tag, index: int)
      requires Core() && Counts() && Idle() && tag in tags && tag.index == index >= 0
      modifies freePages, completePages, tags`next, tags`prev, tags`index, this`live, tag`busy
      ensures Core() && Counts() && tag.busy && tag.index == -1 && live == old(live)
      ensures Undisturbed(tag) && forall u :: u in tags && u.busy ==> u == tag
    {
      Pick(tag);
      if tag.splitLeft == null && tag.splitRight == null {
        Uncount(index);
      }
    }

    /** The counter update of malloc. */
    method Uncount(index: int)
      requires Core() && 0 <= index < MAX_EXP && CountsAhead(index)
      modifies completePages
      ensures Core() && Counts()
    {
      completePages[index] := completePages[index] - 1;
    }

    /** malloc records the request in the tag it is working on. */
    method SetSize(tag: Tag, size: int)
      requires Core() && tag in tags && tag.busy
      modifies tag`size
      ensures Core() && tag.size == size
    {
      tag.size := size;
      forall u | u in tags ensures Holds(u) {
        assert old(Holds(u));
      }
    }

    /** Of `was` bytes `t` kept those that the request needs, and what it left over is at the head of its list; or all
        of them, if a tag with 256 bytes would not fit into what is left over. */
    ghost predicate Portioned(t: Tag, was: int, size: int)
      reads this`tags, freePages, t, t.splitRight
    {
      if was - size - 2 * HEADER < 256 then t.realSize == was
      else
        && t.realSize == size + HEADER && t.splitRight != null
        && Front(t.splitRight) && t.splitRight.realSize == was - size - HEADER
    }

    /** The tag that was left over. */
    ghost function Rest(t: Tag, was: int, size: int): set<Tag>
      reads t
    {
      if was - size - 2 * HEADER < 256 || t.splitRight == null then {} else {t.splitRight}
    }

    /** The last part of malloc: give back what the request leaves over, if a tag with 256 bytes fits there. */
    method Carve(tag: Tag, size: int)
      requires Core() && tag in tags && tag.busy && tag.index < 0 && 0 <= size < WORD_LIMIT
      requires size + HEADER <= tag.realSize <= WORD_LIMIT && tag.realSize - size - 2 * HEADER < 0x8000_0000
      requires tag.splitRight != null ==> tag.splitRight.index < 0 || tag.splitRight.busy
      modifies this`tags, this`at, tag`size, tag`realSize, tag`splitRight, tags`splitLeft
      modifies this`clock, freePages, tags`next, tags`prev, tags`index, tags`rank, tags`busy
      ensures Core() && tag in tags && tag.busy && tag.index < 0 && tag.size == size
      ensures size + HEADER <= tag.realSize <= size + HEADER + 287
      ensures Portioned(tag, old(tag.realSize), size) && Undisturbed(tag)
      ensures tags == old(tags) + Rest(tag, old(tag.realSize), size) && fresh(Rest(tag, old(tag.realSize), size))
      ensures forall u :: u in tags && u.busy ==> u in old(tags) && old(u.busy)
      ensures forall k :: Whole(k) == old(Whole(k))
    {
      SetSize(tag, size);
      Divide(tag, size);
    }

    /** The split of malloc. */
    method Divide(tag: Tag, size: int)
      requires Core() && tag in tags && tag.busy && tag.index < 0 && 0 <= size < WORD_LIMIT && tag.size == size
      requires size + HEADER <= tag.realSize <= WORD_LIMIT && tag.realSize - size - 2 * HEADER < 0x8000_0000
      requires tag.splitRight != null ==> tag.splitRight.index < 0 || tag.splitRight.busy
      modifies this`tags, this`at, tag`realSize, tag`splitRight, tags`splitLeft
      modifies this`clock, freePages, tags`next, tags`prev, tags`index, tags`rank, tags`busy
      ensures Core() && tag in tags && tag.busy && tag.index < 0
      ensures Portioned(tag, old(tag.realSize), size) && Undisturbed(tag)
      ensures tags == old(tags) + Rest(tag, old(tag.realSize), size) && fresh(Rest(tag, old(tag.realSize), size))
      ensures forall u :: u in tags && u.busy ==> u in old(tags) && old(u.busy)
      ensures forall k :: Whole(k) == old(Whole(k))
    {
      var remainder := (tag.realSize - size - 2 * HEADER) % WORD_LIMIT;
      if 0 < remainder < 0x8000_0000 {
        var childIndex := GetExp(remainder);
        if childIndex >= 0 {
          var newTag := SplitTag(tag);
        }
      }
    }

    /** `tag`, in no list, is the only tag in the hands of the running operation. */
    ghost predicate Working(tag: Tag)
      reads this`tags, tags`busy, tags`index
    {
      tag in tags && tag.busy && tag.index == -1 && forall u :: u in tags && u.busy ==> u == tag
    }

    /** The base of the region that holds the block at `p`. */
    ghost function RegionOf(p: int): int
      reads this`at
    {
      if p - HEADER in at then at[p - HEADER].base else 0
    }

    /** `tag` is in malloc's hands, and has room for the request. */
    ghost predicate Ready(tag: Tag, size: int)
      reads this`tags, tags`busy, tags`index, tag, tag.splitRight
    {
      && Working(tag)
      && size + HEADER <= tag.realSize <= WORD_LIMIT && tag.realSize - size - 2 * HEADER < 0x8000_0000
      && (tag.splitRight != null ==> tag.splitRight.index < 0 || tag.splitRight.busy)
    }

    /** Which tag malloc works on: one from the lists, or a new region. */
    method Obtain(size: int) returns (tag: Tag?)
      requires Core() && Counts() && Idle() && 0 <= size <= MAX_REQUEST
      modifies this`tags, this`at, this`live, provider
      modifies freePages, completePages, tags`next, tags`prev, tags`index, tags`busy
      ensures Core() && Counts() && live == old(live)
      ensures old(Available(size)) ==>
        && tag != null && tag in old(tags) && old(FirstFit(tag, size)) && tag.realSize == old(tag.realSize)
        && tags == old(tags) && Obtained(tag.base, 0)
      ensures !old(Available(size)) ==>
        Grown(tag, size) && (tag != null ==> tag.realSize == PAGE * PagesFor(size))
      ensures Undisturbed(tag)
      ensures if tag == null then Idle() else Ready(tag, size)
    {
      var index := RequestIndex(size);
      var found := FindFit(index, size);
      tag := Secure(found, size, index);
    }

    /** ... once the search is over. */
    method Secure(found: Tag?, size: int, index: int) returns (tag: Tag?)
      requires Core() && Counts() && Idle() && 0 <= size <= MAX_REQUEST && InClass(size, index)
      requires (found == null <==> !Available(size)) && (found != null ==>
        found.index == index && FirstFit(found, size))
      modifies this`tags, this`at, this`live, provider
      modifies freePages, completePages, tags`next, tags`prev, tags`index, tags`busy
      ensures Core() && Counts() && live == old(live) && Undisturbed(tag)
      ensures found != null ==>
        tag == found && tag.realSize == old(tag.realSize) && tags == old(tags) && Obtained(tag.base, 0)
      ensures found == null ==> Grown(tag, size) && (tag != null ==> tag.realSize == PAGE * PagesFor(size))
      ensures if tag == null then Idle() else Ready(tag, size)
    {
      tag := found;
      if tag == null {
        tag := Grow(size);
      } else {
        TakeFit(tag, size, index);
      }
    }

    /** The provider granted `pages` pages at `base`, or none, and took none back. */
    twostate predicate Obtained(base: int, pages: int)
      reads provider
    {
      && provider.returned == old(provider.returned) && provider.obtained == old(provider.obtained) + pages
      && (pages != 0 ==> base !in old(provider.held))
      && provider.held == With(old(provider.held), base, pages)
    }

    /** The provider refused, or granted a region for the request, of which `tag` is the only tag. */
    twostate predicate Grown(new tag: Tag?, size: int)
      requires 0 <= size < WORD_LIMIT
      reads this`tags, provider
    {
      if tag == null then tags == old(tags) && Obtained(0, 0)
      else fresh(tag) && tags == old(tags) + {tag} && Obtained(tag.base, PagesFor(size))
    }

    /** Takes a new region. */
    method Grow(size: int) returns (tag: Tag?)
      requires Core() && Counts() && Idle() && 0 <= size <= MAX_REQUEST
      modifies this`tags, this`at, provider
      ensures Core() && Counts()
      ensures Grown(tag, size) && (tag != null ==> tag.realSize == PAGE * PagesFor(size))
      ensures if tag == null then Idle() else Ready(tag, size)
    {
      PagesSuffice(size);
      tag := AllocateNewTag(size);
      CountsSame();
    }

    /** Takes the tag the search found. */
    method TakeFit(tag: Tag, size: int, index: int)
      requires Core() && Counts() && Idle() && tag in tags && tag.index == index >= 0
      requires 0 <= size && InClass(size, index) && Fits(tag, size)
      modifies freePages, completePages, tags`next, tags`prev, tags`index, this`live, tag`busy
      ensures Core() && Counts() && live == old(live)
      ensures Ready(tag, size) && Obtained(tag.base, 0) && Undisturbed(tag)
    {
      Suitable(tag, size, index);
      Take(tag, index);
    }

    /** The list malloc searches. */
    method RequestIndex(size: int) returns (index: int)
      requires 0 <= size < WORD_LIMIT
      ensures InClass(size, index)
    {
      index := GetExp(size);
      if index < MIN_EXP {
        index := MIN_EXP;
        Pow2Values();
      }
    }

    lemma Suitable(tag: Tag, size: int, index: int)
      requires Core() && Idle() && tag in tags && tag.index == index >= 0 && 0 <= size && InClass(size, index)
      ensures tag.realSize <= WORD_LIMIT && tag.realSize - size - 2 * HEADER < 0x8000_0000
      ensures tag.splitRight != null ==> tag.splitRight in tags && tag.splitRight != tag && tag.splitRight.index < 0
    {
      assert Placed(tag) && SplitLinked(tag) && Classed(tag);
      Leftover(size, tag.realSize, index);
    }

    /** The tag malloc works on becomes the client's block. */
    method Finish(tag: Tag, size: int) returns (p: int)
      requires Core() && Counts() && Ready(tag, size) && 0 <= size < WORD_LIMIT
      modifies this`tags, this`at, this`live, tag`size, tag`realSize, tag`splitRight, tags`splitLeft
      modifies this`clock, freePages, tags`next, tags`prev, tags`index, tags`rank, tags`busy
      ensures Core() && Counts() && Idle() && tag in tags && Undisturbed(tag)
      ensures Portioned(tag, old(tag.realSize), size)
      ensures tags == old(tags) + Rest(tag, old(tag.realSize), size) && fresh(Rest(tag, old(tag.realSize), size))
      ensures 0 < p && p !in old(live) && live == old(live)[p := size]
      ensures p - HEADER in at && at[p - HEADER] == tag
    {
      Carve(tag, size);
      assert Placed(tag);
      Deliver(tag);
      CountsSame();
      p := tag.addr + HEADER;
    }

    /** What malloc does to the tags: it takes the first fit of the old lists, or a new region; the block keeps what it
        needs, and what is left over becomes the head of its list. No other tag changes or loses its place. */
    twostate predicate Served(new t: Tag, size: int)
      requires 0 <= size < WORD_LIMIT
      reads this`tags, tags`realSize, tags`index, tags`rank, freePages, t, t.splitRight
    {
      && t in tags && Undisturbed(t)
      && (if old(Available(size)) then
            && t in old(tags) && old(FirstFit(t, size)) && Portioned(t, old(t.realSize), size)
            && tags == old(tags) + Rest(t, old(t.realSize), size) && fresh(Rest(t, old(t.realSize), size))
          else
            && fresh(t) && Portioned(t, PAGE * PagesFor(size), size)
            && tags == old(tags) + {t} + Rest(t, PAGE * PagesFor(size), size)
            && fresh(Rest(t, PAGE * PagesFor(size), size)))
    }

    /** malloc, once the heap is initialized. */
    method Serve(size: int) returns (p: int)
      requires Core() && Counts() && Idle() && 0 <= size <= MAX_REQUEST
      modifies this, tags, freePages, completePages, provider
      ensures Core() && Counts() && Idle() && fresh(tags - old(tags)) && initialized == old(initialized)
      ensures p == 0 ==> live == old(live) && !old(Available(size)) && tags == old(tags) && Undisturbed(null)
      ensures p != 0 ==> p !in old(live) && live == old(live)[p := size]
      ensures p != 0 ==> p - HEADER in at && Served(at[p - HEADER], size)
      ensures Obtained(RegionOf(p), if old(Available(size)) || p == 0 then 0 else PagesFor(size))
    {
      var tag := Obtain(size);
      if tag == null {
        return 0;
      }
      p := Finish(tag, size);
    }

    /** malloc, as far as tags are concerned. */
    method Allocate(size: int) returns (p: int)
      requires Valid() && 0 <= size <= MAX_REQUEST
      modifies this, tags, freePages, completePages, provider
      ensures Valid() && fresh(tags - old(tags))
      ensures p == 0 ==> live == old(live) && !old(Available(size)) && tags == old(tags) && Undisturbed(null)
      ensures p != 0 ==> p !in old(live) && live == old(live)[p := size]
      ensures p != 0 ==> p - HEADER in at && Served(at[p - HEADER], size)
      ensures Obtained(RegionOf(p), if old(Available(size)) || p == 0 then 0 else PagesFor(size))
    {
      Initialize();
      p := Serve(size);
    }

    // ---------------------------------------------------------------- free

    /** One round of the loop that melts left. */
    method MeltLeftStep(tag: Tag) returns (left: Tag)
      requires Core() && Working(tag) && tag.splitLeft != null && tag.splitLeft.index >= 0
      modifies this`tags, this`at, this`live, tags`realSize, tags`splitLeft, tags`splitRight
      modifies freePages, tags`next, tags`prev, tags`index, tags`busy
      ensures Core() && Working(left) && tags == old(tags) - {tag} && live == old(live)
      ensures left in old(tags) && left != tag && left.base == tag.base && old(left.index) >= 0 && Undisturbed(left)
      ensures left.addr <= tag.addr && left.addr + left.realSize == tag.addr + old(tag.realSize)
      ensures forall k :: Whole(k) == old(Whole(k))
    {
      assert SplitLinked(tag) && Placed(tag.splitLeft);
      Seize(tag.splitLeft);
      left := MeltLeft(tag);
      RemoveTag(left);
    }

    /** One round of the loop that melts right. */
    method MeltRightStep(tag: Tag)
      requires Core() && Working(tag) && tag.splitRight != null && tag.splitRight.index >= 0
      modifies this`tags, this`at, this`live, tags`realSize, tags`splitLeft, tags`splitRight
      modifies freePages, tags`next, tags`prev, tags`index, tags`busy
      ensures Core() && Working(tag) && live == old(live)
      ensures old(tag.splitRight) in old(tags) && tags == old(tags) - {old(tag.splitRight)}
      ensures Undisturbed(tag) && tag.realSize >= old(tag.realSize)
      ensures tag.splitLeft == old(tag.splitLeft) && (tag.splitLeft != null ==> tag.splitLeft in tags)
      ensures forall k :: Whole(k) == old(Whole(k))
    {
      assert SplitLinked(tag) && Placed(tag) && SplitLinked(tag.splitRight) && Placed(tag.splitRight);
      Seize(tag.splitRight);
      var same := AbsorbRight(tag);
      assert SplitLinked(tag);
    }

    /** `start` was melted into `tag`, with free tags of its region only; the others stayed as they were. */
    ghost predicate Melted(before: Places, start: Tag, tag: Tag)
      reads this`tags, tags`realSize, tags`index, tags`rank
    {
      && tags <= before.Keys && start in before && tag in tags && tag.base == start.base && Kept(before, tag)
      && tag.addr <= start.addr && start.addr + before[start].realSize <= tag.addr + tag.realSize
      && (start in tags ==> start == tag)
      && (forall u :: u in before && u != start && (u !in tags || u == tag) ==> before[u].index >= 0)
    }

    /** The loop of free that melts left. */
    method MeltLeftAll(start: Tag, ghost before: Places) returns (tag: Tag)
      requires Core() && Working(start) && Melted(before, start, start)
      modifies this`tags, this`at, this`live, tags`realSize, tags`splitLeft, tags`splitRight
      modifies freePages, tags`next, tags`prev, tags`index, tags`busy
      ensures Core() && Working(tag) && Melted(before, start, tag) && tags <= old(tags) && live == old(live)
      ensures tag.splitLeft != null ==> tag.splitLeft in tags && tag.splitLeft.index < 0
      ensures forall k :: Whole(k) == old(Whole(k))
    {
      tag := start;
      while tag.splitLeft != null && tag.splitLeft.index >= 0
        invariant Core() && Working(tag) && Melted(before, start, tag) && tags <= old(tags) && live == old(live)
        invariant forall k :: Whole(k) == old(Whole(k))
        decreases tags
      {
        tag := MeltLeftStep(tag);
      }
      assert SplitLinked(tag);
    }

    /** The loop of free that melts right. */
    method MeltRightAll(tag: Tag, ghost start: Tag, ghost before: Places)
      requires Core() && Working(tag) && Melted(before, start, tag)
      requires tag.splitLeft != null ==> tag.splitLeft in tags && tag.splitLeft.index < 0
      modifies this`tags, this`at, this`live, tags`realSize, tags`splitLeft, tags`splitRight
      modifies freePages, tags`next, tags`prev, tags`index, tags`busy
      ensures Core() && Working(tag) && Alone(tag) && Melted(before, start, tag)
      ensures tags <= old(tags) && live == old(live)
      ensures forall k :: Whole(k) == old(Whole(k))
    {
      while tag.splitRight != null && tag.splitRight.index >= 0
        invariant Core() && Working(tag) && Melted(before, start, tag) && tags <= old(tags) && live == old(live)
        invariant forall k :: Whole(k) == old(Whole(k))
        invariant tag.splitLeft != null ==> tag.splitLeft in tags && tag.splitLeft.index < 0
        decreases tags
      {
        MeltRightStep(tag);
      }
    }

    /** Both melting loops of free. */
    method Melt(start: Tag, ghost before: Places) returns (tag: Tag)
      requires Core() && Counts() && Working(start) && Melted(before, start, start)
      modifies this`tags, this`at, this`live, tags`realSize, tags`splitLeft, tags`splitRight
      modifies freePages, tags`next, tags`prev, tags`index, tags`busy
      ensures Core() && Counts() && Working(tag) && Alone(tag) && Melted(before, start, tag)
      ensures tags <= old(tags) && live == old(live)
    {
      tag := MeltLeftAll(start, before);
      MeltRightAll(tag, start, before);
      CountsSame();
    }

    /** `t`, which spans a whole region, went back to the provider with it. */
    twostate predicate Returned(new t: Tag)
      reads this, tags, t, provider
    {
      && tags == old(tags) - {t} && at == old(at) - {t.addr} && provider.held == old(provider.held) - {t.addr}
      && forall u :: u in tags ==>
           && u.realSize == old(u.realSize) && u.splitLeft == old(u.splitLeft) && u.splitRight == old(u.splitRight)
    }

    twostate lemma ReturnKeepsChains(new t: Tag)
      requires t in old(tags) && old(t.splitLeft) == null && old(t.splitRight) == null
      requires old(Chains()) && Returned(t)
      ensures Chains()
    {
      assert old(Placed(t)) && old(SplitLinked(t));
      forall u | u in tags ensures Placed(u) && SplitLinked(u) {
        assert old(Placed(u)) && old(SplitLinked(u)) && old(Apart(u, t));
        assert u.splitLeft != null ==> old(Placed(u.splitLeft));
      }
      forall u, v | u in tags && v in tags && u != v ensures Apart(u, v) {
        assert old(Apart(u, v));
      }
      forall b | b in provider.held ensures Rooted(b) {
        assert old(Rooted(b));
      }
    }

    twostate lemma ReturnKeepsRest(new t: Tag)
      requires t in old(tags) && old(t.busy) && old(t.index) < 0 && old(t.splitLeft) == null
      requires old(t.splitRight) == null
      requires old(Core()) && Returned(t) && SameLists() && freePages[..] == old(freePages[..])
      ensures Lists() && Blocks() && forall k :: Whole(k) == old(Whole(k))
    {
      assert old(FreeLinked(t)) && old(Placed(t));
      forall u | u in tags ensures FreeLinked(u) && Leads(u) {
        assert old(FreeLinked(u)) && old(Leads(u)) && old(Head(u.index));
      }
      forall u, v | u in tags && v in tags && u != v ensures Ordered(u, v) {
        assert old(Ordered(u, v)) && old(FreeLinked(u));
      }
      forall j ensures Head(j) {
        assert old(Head(j));
      }
      forall u | u in tags ensures Classed(u) && Holds(u) {
        assert old(Classed(u)) && old(Holds(u)) && old(SplitLinked(u));
      }
      forall p | p in live ensures Held(p) {
        assert old(Held(p));
      }
    }

    /** free hands a whole region back. */
    method ReturnRegion(tag: Tag)
      requires Core() && Working(tag) && tag.splitLeft == null && tag.splitRight == null
      modifies this`tags, this`at, provider
      ensures Core() && Idle() && tags == old(tags) - {tag}
      ensures tag.addr == tag.base && Settled(tag.base, true)
      ensures tag.realSize == PAGE * old(provider.held)[tag.base]
      ensures forall k :: Whole(k) == old(Whole(k))
    {
      assert Placed(tag) && SplitLinked(tag);
      var pages := tag.realSize / PAGE;
      if tag.realSize % PAGE != 0 {
        pages := pages + 1;
      }
      if pages < MIN_PAGES {
        pages := MIN_PAGES;
      }
      provider.Release(tag.addr, pages);
      tags := tags - {tag};
      at := at - {tag.addr};
      ReturnKeepsChains(tag);
      ReturnKeepsRest(tag);
    }

    /** A region joined the waiting ones of list `k`, as the counter already says. */
    twostate lemma CountsCatchUp(new t: Tag, k: int)
      requires completePages.Length == MAX_EXP && 0 <= k < MAX_EXP && old(CountsAhead(k))
      requires completePages[..] == old(completePages[..])
      requires t !in old(Whole(k)) && Single(t) == {t}
      requires forall j :: Whole(j) == old(Whole(j)) + if j == k then Single(t) else {}
      ensures Counts()
    {
    }

    /** The counter update of free. */
    method Count(index: int)
      requires Core() && Counts() && 0 <= index < MAX_EXP && completePages[index] != MAX_COMPLETE
      modifies completePages
      ensures Core() && CountsAhead(index)
    {
      assert completePages[index] == |Whole(index)| <= MAX_COMPLETE;
      completePages[index] := completePages[index] + 1;
    }

    lemma SameClass(t: Tag, k: int)
      requires Core() && t in tags && t.index >= 0 && !t.busy && InClass(t.realSize - HEADER, k)
      ensures t.index == k
    {
      assert Classed(t);
      ClassUnique(t.realSize - HEADER, t.index, k);
    }

    /** The tag goes to the head of its list. */
    method PutBack(tag: Tag, index: int, ghost before: Places)
      requires Core() && Working(tag) && Alone(tag) && InClass(tag.realSize - HEADER, index) && Kept(before, tag)
      modifies this`clock, freePages, tags`next, tags`prev, tags`index, tags`rank, tags`busy
      ensures Core() && Idle() && Front(tag) && Kept(before, tag) && tag.index == index
      ensures forall k :: Whole(k) == old(Whole(k)) + if k == index then Single(tag) else {}
    {
      InsertTag(tag, index);
      SameClass(tag, index);
    }

    /** A whole region waits in its list, and is counted. */
    method KeepRegion(tag: Tag, index: int, ghost before: Places)
      requires Core() && Counts() && Working(tag) && InClass(tag.realSize - HEADER, index) && Kept(before, tag)
      requires tag.splitLeft == null && tag.splitRight == null && completePages[index] != MAX_COMPLETE
      modifies this`clock, freePages, completePages, tags`next, tags`prev, tags`index, tags`rank, tags`busy
      ensures Core() && Counts() && Idle() && Settled(tag.base, false) && Front(tag) && Kept(before, tag)
    {
      Count(index);
      KeepCounted(tag, index, before);
    }

    method KeepCounted(tag: Tag, index: int, ghost before: Places)
      requires Core() && CountsAhead(index) && Working(tag) && InClass(tag.realSize - HEADER, index)
      requires Kept(before, tag)
      requires tag.splitLeft == null && tag.splitRight == null
      modifies this`clock, freePages, tags`next, tags`prev, tags`index, tags`rank, tags`busy
      ensures Core() && Counts() && Idle() && Front(tag) && Kept(before, tag)
    {
      assert tag !in Whole(index) && Single(tag) == {tag};
      PutBack(tag, index, before);
      CountsCatchUp(tag, index);
    }

    /** Part of a region waits in its list; the counters do not mind. */
    method KeepPart(tag: Tag, index: int, ghost before: Places)
      requires Kept(before, tag) && Core() && Counts() && Working(tag) && Alone(tag)
      requires InClass(tag.realSize - HEADER, index)
      requires tag.splitLeft != null || tag.splitRight != null
      modifies this`clock, freePages, tags`next, tags`prev, tags`index, tags`rank, tags`busy
      ensures Core() && Counts() && Idle() && Settled(tag.base, false) && Front(tag) && Kept(before, tag)
    {
      assert Single(tag) == {};
      PutBack(tag, index, before);
      CountsSame();
    }

    /** The size class of the region at `b` already has MAX_COMPLETE whole regions waiting. */
    ghost predicate Surplus(b: int)
      requires completePages.Length == MAX_EXP
      reads provider`held, completePages
    {
      b in provider.held && FullClass(PAGE * provider.held[b] - HEADER)
    }

    ghost predicate FullClass(s: int)
      requires completePages.Length == MAX_EXP
      reads completePages
    {
      exists k :: InClass(s, k) && completePages[k] == MAX_COMPLETE
    }

    lemma SurplusIn(b: int, k: int)
      requires completePages.Length == MAX_EXP && b in provider.held && InClass(PAGE * provider.held[b] - HEADER, k)
      ensures Surplus(b) <==> completePages[k] == MAX_COMPLETE
    {
      var s := PAGE * provider.held[b] - HEADER;
      forall j | InClass(s, j) ensures j == k {
        ClassUnique(s, j, k);
      }
    }

    /** The region at `b`, and no other, went back to the provider; or, without `back`, none did. */
    twostate predicate Settled(b: int, back: bool)
      reads provider
    {
      && provider.obtained == old(provider.obtained)
      && (back ==> b in old(provider.held))
      && provider.held == Without(old(provider.held), b, back)
      && provider.returned == old(provider.returned) + if back then old(provider.held)[b] else 0
    }

    /** The tag is all there is of its region. */
    ghost predicate Spans(tag: Tag)
      reads tag`splitLeft, tag`splitRight
    {
      tag.splitLeft == null && tag.splitRight == null
    }

    /** The end of free: the melted tag waits in its list, unless it is a region too many. */
    method Retire(tag: Tag, ghost before: Places)
      requires Core() && Counts() && Working(tag) && Alone(tag) && Kept(before, tag)
      modifies this`tags, this`at, provider
      modifies this`clock, freePages, completePages, tags`next, tags`prev, tags`index, tags`rank, tags`busy
      ensures Core() && Counts() && Idle()
      ensures if old(Spans(tag) && Surplus(tag.base)) then tags == old(tags) - {tag} && Kept(before, null)
              else tags == old(tags) && Front(tag) && Kept(before, tag)
      ensures Settled(tag.base, old(Spans(tag) && Surplus(tag.base)))
      ensures old(Spans(tag) && Surplus(tag.base)) ==> FullClass(PAGE * old(provider.held)[tag.base] - HEADER)
    {
      var index := ClassIndex(tag);
      RetireTo(tag, index, before);
    }

    /** ... once its class is known. */
    method RetireTo(tag: Tag, index: int, ghost before: Places)
      requires Core() && Counts() && Working(tag) && Alone(tag) && Kept(before, tag)
      requires InClass(tag.realSize - HEADER, index)
      modifies this`tags, this`at, provider
      modifies this`clock, freePages, completePages, tags`next, tags`prev, tags`index, tags`rank, tags`busy
      ensures Core() && Counts() && Idle()
      ensures if old(Spans(tag) && Surplus(tag.base)) then tags == old(tags) - {tag} && Kept(before, null)
              else tags == old(tags) && Front(tag) && Kept(before, tag)
      ensures Settled(tag.base, old(Spans(tag) && Surplus(tag.base)))
      ensures old(Spans(tag) && Surplus(tag.base)) ==> FullClass(PAGE * old(provider.held)[tag.base] - HEADER)
    {
      if tag.splitLeft == null && tag.splitRight == null {
        SpannedRegion(tag, index);
        if completePages[index] == MAX_COMPLETE {
          ReturnRegion(tag);
          return;
        }
        KeepRegion(tag, index, before);
      } else {
        KeepPart(tag, index, before);
      }
    }

    lemma SpannedRegion(tag: Tag, index: int)
      requires Core() && tag in tags && Spans(tag) && InClass(tag.realSize - HEADER, index)
      ensures tag.base == tag.addr && tag.base in provider.held && tag.realSize == PAGE * provider.held[tag.base]
      ensures Surplus(tag.base) <==> completePages[index] == MAX_COMPLETE
    {
      assert Placed(tag) && SplitLinked(tag);
      SurplusIn(tag.base, index);
    }

    lemma LiveBlock(p: int)
      requires Core() && p in live
      ensures Held(p) && HEADER < p
      ensures var t := at[p - HEADER]; t in tags && t.index == -1 && !t.busy && t.addr == p - HEADER
    {
      assert Held(p);
      var t := at[p - HEADER];
      assert Placed(t) && FreeLinked(t);
    }

    /** A live block dies. */
    ghost method SeizeLive(start: Tag)
      requires Core() && Counts() && Idle() && start in tags && start.index == -1
      modifies this`live, start`busy
      ensures Core() && Counts() && Working(start)
      ensures live == old(live) - {start.addr + HEADER}
    {
      Seize(start);
      CountsSame();
    }

    /** From the client's tag to the melted one. */
    method Reclaim(start: Tag, ghost before: Places) returns (tag: Tag)
      requires Core() && Counts() && Idle() && start in tags && start.index == -1 && Melted(before, start, start)
      modifies this`tags, this`at, this`live, tags`realSize, tags`splitLeft, tags`splitRight
      modifies freePages, tags`next, tags`prev, tags`index, tags`busy
      ensures Core() && Counts() && Working(tag) && Alone(tag) && Melted(before, start, tag)
      ensures (Spans(tag) <==> Only(before, start)) && tags <= old(tags) && live == old(live) - {start.addr + HEADER}
    {
      SeizeLive(start);
      tag := Melt(start, before);
      SpansIff(before, start, tag);
    }

    /** All other tags of the region were free. */
    ghost predicate Only(before: Places, start: Tag) {
      forall u :: u in before && u != start && u.base == start.base ==> before[u].index >= 0
    }

    /** What `start` was melted into spans its region exactly if all other tags there were free. */
    lemma SpansIff(before: Places, start: Tag, tag: Tag)
      requires Core() && Working(tag) && Alone(tag) && Melted(before, start, tag)
      ensures Spans(tag) <==> Only(before, start)
    {
      assert Placed(tag) && SplitLinked(tag);
      if Spans(tag) {
        forall u | u in before && u != start && u.base == start.base ensures before[u].index >= 0 {
          assert u in tags && u != tag ==> Placed(u) && Apart(u, tag);
        }
      } else {
        var u := if tag.splitLeft != null then tag.splitLeft else tag.splitRight;
        assert Placed(u) && u != tag && u.index < 0;
        assert u in before && u != start && u.base == start.base && before[u].index < 0;
      }
    }

    /** `t` has the bytes of `start`, and is at the head of its list; no other tag changed or lost its place. */
    ghost predicate Requeues(before: Places, t: Tag, start: Tag)
      reads this`tags, freePages, tags`realSize, tags`index, tags`rank, t`realSize, t`index
    {
      && t in tags && start in before
      && t.addr <= start.addr && start.addr + before[start].realSize <= t.addr + t.realSize
      && Front(t) && Kept(before, t)
    }

    /** What free does to the tags: some tag has the bytes of the block and is at the head of its list, unless its
        region went back; and no other tag changed or lost its place. */
    ghost predicate Requeued(before: Places, start: Tag, back: bool)
      reads this`tags, freePages, tags`realSize, tags`index, tags`rank
    {
      && tags <= before.Keys
      && if back then Kept(before, null) else exists t :: t in tags && Requeues(before, t, start)
    }

    /** free, once it has found the tag. */
    method FreeTag(start: Tag, ghost before: Places, ghost back: bool)
      requires Core() && Counts() && Idle() && start in tags && start.index == -1 && Melted(before, start, start)
      requires back == (Only(before, start) && Surplus(start.base))
      modifies this`tags, this`at, this`live, this`clock, tags, freePages, completePages, provider
      ensures Core() && Counts() && Idle() && Requeued(before, start, back) && Settled(start.base, back)
      ensures live == old(live) - {start.addr + HEADER}
      ensures back ==> FullClass(PAGE * old(provider.held)[start.base] - HEADER)
    {
      var tag := Reclaim(start, before);
      RetireMelted(start, tag, before, back);
    }

    /** The end of free, in terms of the tag the client gave back. */
    method RetireMelted(ghost start: Tag, tag: Tag, ghost before: Places, ghost back: bool)
      requires Core() && Counts() && Working(tag) && Alone(tag) && Melted(before, start, tag)
      requires back == (Spans(tag) && Surplus(start.base))
      modifies this`tags, this`at, provider
      modifies this`clock, freePages, completePages, tags`next, tags`prev, tags`index, tags`rank, tags`busy
      ensures Core() && Counts() && Idle() && Requeued(before, start, back) && Settled(start.base, back)
      ensures back ==> FullClass(PAGE * old(provider.held)[start.base] - HEADER)
    {
      Retire(tag, before);
      assert Front(tag) && Kept(before, tag) ==> Requeues(before, tag, start);
    }

    // ---------------------------------------------------------------- bytes

    predicate InHeader(t: Tag, a: int) {
      t.addr <= a < t.addr + HEADER
    }

    /** What a load from address `a` sees: the tags' headers, and the raw bytes between them. */
    ghost function ByteAt(a: int): Byte
      requires 0 <= a < bytes.Length
      reads this`tags, tags, bytes
    {
      if exists t :: t in tags && InHeader(t, a) then
        var t :| t in tags && InHeader(t, a);
        HeaderByte(t, a - t.addr)
      else
        bytes[a]
    }

    /** Byte `i` of the block at `p`, as the client reads it. */
    ghost function Peek(p: int, i: int): Byte
      reads this`tags, tags, bytes
    {
      if 0 <= p + i < bytes.Length then ByteAt(p + i) else 0
    }

    /** A live payload lies inside its region and under no header. */
    lemma PayloadIsRaw(p: int, i: int)
      requires Valid() && p in live && 0 <= i < live[p]
      ensures 0 <= p + i < WORD_LIMIT && Peek(p, i) == bytes[p + i]
    {
      LiveBlock(p);
      var t := at[p - HEADER];
      assert Holds(t) && Placed(t) && Region(t.base, provider.held[t.base]);
      forall u | u in tags ensures !InHeader(u, p + i) {
        assert Placed(u) && (u != t ==> Apart(t, u));
      }
    }

    /** Live payloads are pairwise disjoint, with room for a header between them. */
    lemma PayloadsDisjoint(p: int, q: int)
      requires Valid() && p in live && q in live && p != q
      ensures p + live[p] + HEADER <= q || q + live[q] + HEADER <= p
    {
      LiveBlock(p);
      LiveBlock(q);
      var t, u := at[p - HEADER], at[q - HEADER];
      assert Holds(t) && Holds(u) && Apart(t, u);
    }

    /** No header lies over byte `i` of the block at `p`. */
    ghost predicate Raw(p: int, i: int)
      requires bytes.Length == WORD_LIMIT
      reads this`tags, tags, bytes
    {
      0 <= p + i < WORD_LIMIT && Peek(p, i) == bytes[p + i]
    }

    ghost predicate PayloadsRaw()
      requires bytes.Length == WORD_LIMIT
      reads this`tags, this`live, tags, bytes
    {
      forall p, i {:trigger Raw(p, i)} {:trigger Peek(p, i)} :: p in live && 0 <= i < live[p] ==> Raw(p, i)
    }

    lemma AllPayloadsRaw()
      requires Valid()
      ensures PayloadsRaw()
    {
      forall p, i | p in live && 0 <= i < live[p] ensures Raw(p, i) {
        PayloadIsRaw(p, i);
      }
    }

    /** The blocks that stayed live, except those of `except`, read as before. */
    twostate predicate SamePayloads(except: set<int>)
      reads this, tags, bytes
    {
      forall p, i {:trigger Peek(p, i)} ::
        p in old(live) && p !in except && 0 <= i < old(live)[p] ==> Peek(p, i) == old(Peek(p, i))
    }

    /** malloc */
    method Malloc(size: int) returns (p: int)
      requires Valid() && 0 <= size <= MAX_REQUEST
      modifies this, tags, freePages, completePages, provider
      ensures Valid() && fresh(tags - old(tags))
      ensures p == 0 ==> live == old(live) && !old(Available(size)) && tags == old(tags) && Undisturbed(null)
      ensures size > MAX_BLOCK ==> p == 0
      ensures p != 0 ==> p !in old(live) && live == old(live)[p := size]
      ensures p != 0 ==> p - HEADER in at && Served(at[p - HEADER], size)
      ensures SamePayloads({})
      ensures Obtained(RegionOf(p), if old(Available(size)) || p == 0 then 0 else PagesFor(size))
    {
      AllPayloadsRaw();
      p := Allocate(size);
      AllPayloadsRaw();
      if p != 0 {
        BlockFits(p);
      }
    }

    /** No live block is larger than MAX_BLOCK. */
    lemma BlockFits(p: int)
      requires Valid() && p in live
      ensures 0 <= live[p] <= MAX_BLOCK
    {
      LiveBlock(p);
      var t := at[p - HEADER];
      assert Holds(t) && Placed(t);
      RegionFits(t.base, provider.held[t.base]);
    }

    /** No other live block lies in its region. */
    ghost predicate LastInRegion(p: int)
      reads this`at, this`live
    {
      forall q {:trigger RegionOf(q)} :: q in live && q != p ==> RegionOf(q) != RegionOf(p)
    }

    lemma OnlyIff(p: int)
      requires Valid() && p in live
      ensures p - HEADER in at && Melted(PlacesNow(), at[p - HEADER], at[p - HEADER])
      ensures Only(PlacesNow(), at[p - HEADER]) <==> LastInRegion(p)
    {
      LiveBlock(p);
      var t := at[p - HEADER];
      if Only(PlacesNow(), t) {
        forall q | q in live && q != p ensures RegionOf(q) != RegionOf(p) {
          LiveBlock(q);
        }
      }
      if LastInRegion(p) {
        forall u | u in PlacesNow() && u != t && u.base == t.base ensures u.index >= 0 {
          assert Placed(u) && Placed(t) && Holds(u);
          assert RegionOf(u.addr + HEADER) == u.base;
        }
      }
    }

    /** free */
    method Free(p: int)
      requires Valid() && (p == 0 || p in live)
      modifies this, tags, freePages, completePages, provider
      ensures Valid() && tags <= old(tags)
      ensures live == old(live) - {p}
      ensures SamePayloads({p})
      ensures p == 0 ==> Settled(0, false) && tags == old(tags) && Undisturbed(null)
      ensures p != 0 ==>
        && p - HEADER in old(at) && old(at)[p - HEADER] in old(tags)
        && Requeued(old(PlacesNow()), old(at)[p - HEADER], old(LastInRegion(p) && Surplus(RegionOf(p))))
      ensures p != 0 ==> Settled(old(RegionOf(p)), old(LastInRegion(p) && Surplus(RegionOf(p))))
      ensures p != 0 && old(LastInRegion(p) && Surplus(RegionOf(p))) ==>
        FullClass(PAGE * old(provider.held)[old(RegionOf(p))] - HEADER)
    {
      AllPayloadsRaw();
      NullIsDead();
      if p != 0 {
        LiveBlock(p);
        OnlyIff(p);
        FreeTag(at[p - HEADER], PlacesNow(), LastInRegion(p) && Surplus(RegionOf(p)));
      }
      AllPayloadsRaw();
    }

    /** liballoc_memset */
    method MemSet(s: int, c: Byte, n: int)
      requires 0 <= n && 0 <= s && s + n <= bytes.Length
      modifies bytes
      ensures forall a :: 0 <= a < bytes.Length ==> bytes[a] == if s <= a < s + n then c else old(bytes[a])
    {
      var i := 0;
      while i < n
        invariant 0 <= i <= n
        invariant forall a :: 0 <= a < bytes.Length ==> bytes[a] == if s <= a < s + i then c else old(bytes[a])
      {
        bytes[s + i] := c;
        i := i + 1;
      }
    }

    /** liballoc_memcpy: words first, then the odd bytes. Each word is loaded before it is stored. */
    method MemCopy(d: int, s: int, n: int)
      requires 0 <= n && 0 <= d && d + n <= bytes.Length && 0 <= s && s + n <= bytes.Length
      requires d + n <= s || s + n <= d
      modifies bytes
      ensures forall a :: 0 <= a < bytes.Length ==>
        bytes[a] == if d <= a < d + n then old(bytes[s + (a - d)]) else old(bytes[a])
    {
      var ldest, lsrc, left := d, s, n;
      while left >= 4
        invariant 0 <= left <= n && ldest == d + (n - left) && lsrc == s + (n - left)
        invariant forall a :: 0 <= a < bytes.Length ==>
          bytes[a] == if d <= a < ldest then old(bytes[s + (a - d)]) else old(bytes[a])
      {
        bytes[ldest], bytes[ldest + 1], bytes[ldest + 2], bytes[ldest + 3] :=
          bytes[lsrc], bytes[lsrc + 1], bytes[lsrc + 2], bytes[lsrc + 3];
        ldest, lsrc, left := ldest + 4, lsrc + 4, left - 4;
      }
      while left > 0
        invariant 0 <= left <= n && ldest == d + (n - left) && lsrc == s + (n - left)
        invariant forall a :: 0 <= a < bytes.Length ==>
          bytes[a] == if d <= a < ldest then old(bytes[s + (a - d)]) else old(bytes[a])
      {
        bytes[ldest] := bytes[lsrc];
        ldest, lsrc, left := ldest + 1, lsrc + 1, left - 1;
      }
    }

    /** A store into the block at `q` shows in no other block. */
    twostate lemma StoresStayInside(q: int)
      requires old(Valid()) && Valid() && q in live && live == old(live) && tags == old(tags)
      requires forall a :: 0 <= a < WORD_LIMIT && !(q <= a < q + live[q]) ==> bytes[a] == old(bytes[a])
      requires old(PayloadsRaw())
      ensures SamePayloads({q})
    {
      AllPayloadsRaw();
      forall p, i {:trigger Peek(p, i)} | p in old(live) && p !in {q} && 0 <= i < old(live)[p]
        ensures Peek(p, i) == old(Peek(p, i))
      {
        PayloadsDisjoint(p, q);
        assert Raw(p, i) && old(Raw(p, i));
      }
    }

    /** calloc: the product is taken in 32 bits, and a refused block is cleared all the same, through NULL. */
    method Calloc(nobj: int, size: int) returns (r: Outcome)
      requires Valid() && 0 <= nobj < WORD_LIMIT && 0 <= size < WORD_LIMIT && (nobj * size) % WORD_LIMIT <= MAX_REQUEST
      modifies this, tags, freePages, completePages, provider, bytes
      ensures var n := (nobj * size) % WORD_LIMIT;
        && Valid() && fresh(tags - old(tags)) && SamePayloads({})
        && (r == Fault ==> live == old(live) && n > 0 && !old(Available(n)))
        && (r == Done(0) ==> live == old(live) && n == 0)
        && (r.Done? && r.ptr != 0 ==>
              && r.ptr !in old(live) && live == old(live)[r.ptr := n]
              && r.ptr - HEADER in at && Served(at[r.ptr - HEADER], n)
              && forall i :: 0 <= i < n ==> Peek(r.ptr, i) == 0)
        && ObtainedBy(r, if old(Available(n)) then 0 else PagesFor(n))
    {
      r := Zeroed((nobj * size) % WORD_LIMIT);
    }

    /** The page account of a call that allocates: nothing came in without a block. */
    twostate predicate ObtainedBy(r: Outcome, pages: int)
      reads this`at, provider
    {
      if r.Done? && r.ptr != 0 then Obtained(RegionOf(r.ptr), pages) else Obtained(0, 0)
    }

    /** calloc, once it has the product. */
    method Zeroed(n: int) returns (r: Outcome)
      requires Valid() && 0 <= n <= MAX_REQUEST
      modifies this, tags, freePages, completePages, provider, bytes
      ensures Valid() && fresh(tags - old(tags)) && SamePayloads({})
      ensures r == Fault ==> live == old(live) && n > 0 && !old(Available(n))
      ensures r == Done(0) ==> live == old(live) && n == 0
      ensures r.Done? && r.ptr != 0 ==>
        && r.ptr !in old(live) && live == old(live)[r.ptr := n]
        && r.ptr - HEADER in at && Served(at[r.ptr - HEADER], n)
        && forall i :: 0 <= i < n ==> Peek(r.ptr, i) == 0
      ensures ObtainedBy(r, if old(Available(n)) then 0 else PagesFor(n))
    {
      var p := Malloc(n);
      if p == 0 {
        return if n > 0 then Fault else Done(0);
      }
      Clear(p, n);
      r := Done(p);
    }

    /** The memset of calloc, of a live block. */
    method Clear(p: int, n: int)
      requires Valid() && p in live && live[p] == n
      modifies bytes
      ensures Valid() && SamePayloads({p})
      ensures forall i :: 0 <= i < n ==> Peek(p, i) == 0
    {
      AllPayloadsRaw();
      InsideMemory(p);
      MemSet(p, 0, n);
      AllPayloadsRaw();
      StoresStayInside(p);
      forall i | 0 <= i < n ensures Peek(p, i) == 0 {
        assert Raw(p, i);
      }
    }

    /** A live block lies inside the address space. */
    lemma InsideMemory(p: int)
      requires Valid() && p in live
      ensures HEADER < p && 0 <= live[p] && p + live[p] <= WORD_LIMIT
    {
      LiveBlock(p);
      var t := at[p - HEADER];
      assert Holds(t) && Placed(t) && Region(t.base, provider.held[t.base]);
    }

    // ---------------------------------------------------------------- blocks and their regions

    predicate Contained(a: Regions, b: Regions) {
      forall c :: c in a ==> c in b && b[c] == a[c]
    }

    /** Two held regions that both reach over address `a` are one. */
    lemma OneRegion(held: Regions, b: int, c: int, a: int)
      requires b in held && c in held && b <= a < b + PAGE * held[b] && c <= a < c + PAGE * held[c]
      requires forall x, y :: x in held && y in held && x != y ==> Disjoint(x, held[x], y, held[y])
      ensures b == c
    {
      assert b != c ==> Disjoint(b, held[b], c, held[c]);
    }

    /** A live block keeps its region while regions come, or go, but not both. */
    twostate lemma RegionKept(new p: int)
      requires old(Valid()) && Valid() && p in old(live) && p in live
      requires Contained(old(provider.held), provider.held) || Contained(provider.held, old(provider.held))
      ensures RegionOf(p) == old(RegionOf(p)) && RegionOf(p) in provider.held && RegionOf(p) in old(provider.held)
    {
      assert old(Held(p)) && Held(p);
      assert old(Placed(at[p - HEADER])) && Placed(at[p - HEADER]);
      var b, c := old(RegionOf(p)), RegionOf(p);
      if Contained(old(provider.held), provider.held) {
        OneRegion(provider.held, b, c, p - HEADER);
      } else {
        OneRegion(old(provider.held), b, c, p - HEADER);
      }
    }

    /** A new block at `q` is one more in its region. */
    twostate lemma LastAfterGrowth(new p: int, new q: int)
      requires old(Valid()) && Valid() && p in old(live) && p in live && Contained(old(provider.held), provider.held)
      requires if q == 0 then live == old(live) else q !in old(live) && q in live && live - {q} == old(live)
      ensures LastInRegion(p) <==> old(LastInRegion(p)) && (q == 0 || RegionOf(q) != RegionOf(p))
    {
      forall x | x in old(live) ensures x in live && RegionOf(x) == old(RegionOf(x)) {
        assert q != 0 ==> x in live - {q};
        RegionKept(x);
      }
      assert forall x :: x in live && (q == 0 || x != q) ==> x in old(live) by {
        assert q != 0 ==> forall x :: x in live - {q} ==> x in old(live);
      }
    }

    /** A tag outside the lists holds a live block of its region. */
    lemma InUse(t: Tag)
      requires Valid() && t in tags
      ensures t.index >= 0 || (t.addr + HEADER in live && RegionOf(t.addr + HEADER) == t.base)
    {
      assert Placed(t) && Holds(t);
    }

    /** A region without live blocks is one free tag. */
    lemma VacantIsWhole(t: Tag)
      requires Valid() && t in tags && t.addr == t.base
      requires forall x {:trigger RegionOf(x)} :: x in live ==> RegionOf(x) != t.base
      ensures MIN_EXP <= t.index < MAX_EXP && Spans(t) && t in Whole(t.index)
      ensures t.base in provider.held && InClass(PAGE * provider.held[t.base] - HEADER, t.index)
    {
      assert Placed(t) && SplitLinked(t) && FreeLinked(t) && Classed(t);
      InUse(t);
      if t.splitRight != null {
        InUse(t.splitRight);
      }
    }

    /** Besides the region at `b`, MAX_COMPLETE whole regions wait in the class of `s` bytes. */
    ghost predicate OthersWait(s: int, b: int)
      reads this`tags, tags`index, tags`splitLeft, tags`splitRight, tags`busy
    {
      exists k :: InClass(s, k) && |Others(k, b)| == MAX_COMPLETE
    }

    ghost function Others(k: int, b: int): set<Tag>
      reads this`tags, tags`index, tags`splitLeft, tags`splitRight, tags`busy
    {
      set t | t in Whole(k) && t.base != b
    }

    /** Without a region at `b`, all that wait are others. */
    lemma AllWait(s: int, b: int)
      requires Valid() && b !in provider.held && FullClass(s)
      ensures OthersWait(s, b)
    {
      var k :| InClass(s, k) && completePages[k] == MAX_COMPLETE;
      forall t | t in Whole(k) ensures t in Others(k, b) {
        assert Placed(t);
      }
      assert Whole(k) == Others(k, b);
    }

    /** A held region without live blocks waits itself, and leaves no room for MAX_COMPLETE others. */
    lemma VacantWaits(b: int)
      requires Valid() && b in provider.held && forall x {:trigger RegionOf(x)} :: x in live ==> RegionOf(x) != b
      ensures !OthersWait(PAGE * provider.held[b] - HEADER, b)
    {
      var s := PAGE * provider.held[b] - HEADER;
      assert Rooted(b);
      var t := at[b];
      VacantIsWhole(t);
      var W, O := Whole(t.index), Others(t.index, b);
      assert O + {t} + (W - O - {t}) == W;
      assert |W| == |O| + 1 + |W - O - {t}|;
      forall k | InClass(s, k) ensures k == t.index {
        ClassUnique(s, k, t.index);
      }
    }

    /** free, in terms of the state after it: the region of the last block goes back exactly if enough others of its
        class wait. */
    twostate lemma OthersWaitIff(new p: int)
      requires old(Valid()) && Valid() && p in old(live) && live == old(live) - {p}
      requires var b := old(RegionOf(p)); var back := old(LastInRegion(p)) && old(Surplus(b));
        && b in old(provider.held) && Settled(b, back)
        && (back ==> FullClass(PAGE * old(provider.held)[b] - HEADER))
      ensures var b := old(RegionOf(p));
        old(LastInRegion(p)) ==> (old(Surplus(b)) <==> OthersWait(PAGE * old(provider.held)[b] - HEADER, b))
    {
      var b := old(RegionOf(p));
      if old(LastInRegion(p)) {
        if old(Surplus(b)) {
          AllWait(PAGE * old(provider.held)[b] - HEADER, b);
        } else {
          forall x {:trigger RegionOf(x)} | x in live ensures RegionOf(x) != b {
            assert x in old(live);
            RegionKept(x);
          }
          VacantWaits(b);
        }
      }
    }

    /** The page account, as far as the block at `p` is concerned. */
    ghost function BooksOf(p: int): Books
      reads this`at, this`live, provider
    {
      Books(provider.held, provider.obtained, provider.returned, RegionOf(p), LastInRegion(p))
    }

    /** The copy at `q` is there, and `pages` pages came in for it. */
    ghost predicate Copied(before: Books, p: int, q: int, pages: int)
      reads this`at, this`live, provider
    {
      && before.region in before.held && before.region == RegionOf(p) && (pages != 0 ==> RegionOf(q) !in before.held)
      && (LastInRegion(p) <==> before.last && (q == 0 || RegionOf(q) != before.region))
      && provider.held == With(before.held, RegionOf(q), pages)
      && provider.obtained == before.obtained + pages && provider.returned == before.returned
    }

    /** What a successful realloc to `q` does with pages: `pages` come in for `q`; and the region of the old block goes
        back exactly if no other block lives in it, `q` included, and enough others of its class wait afterwards. */
    ghost predicate Exchanged(before: Books, q: int, pages: int)
      reads this`tags, this`at, provider
      reads tags`index, tags`splitLeft, tags`splitRight, tags`busy
    {
      var b := before.region;
      && b in before.held && (pages != 0 ==> RegionOf(q) !in before.held)
      && var n := before.held[b];
         var back := before.last && (q == 0 || RegionOf(q) != b) && OthersWait(PAGE * n - HEADER, b);
         && provider.held == Without(With(before.held, RegionOf(q), pages), b, back)
         && provider.obtained == before.obtained + pages
         && provider.returned == before.returned + (if back then n else 0)
    }

    /** realloc: allocate, copy, free. */
    method Realloc(p: int, size: int) returns (r: Outcome)
      requires Valid() && 0 <= size <= MAX_REQUEST && (p == 0 || p in live)
      modifies this, tags, freePages, completePages, provider, bytes
      ensures Valid() && fresh(tags - old(tags)) && SamePayloads({p})
      ensures size == 0 ==> r == Done(0) && live == old(live) - {p}
      ensures r.Done? && r.ptr != 0 ==>
        && size > 0 && r.ptr !in old(live) && live == old(live)[r.ptr := size] - {p}
        && (p != 0 ==> forall i {:trigger Peek(r.ptr, i)} ::
              0 <= i < Min(old(live[p]), size) ==> Peek(r.ptr, i) == old(Peek(p, i)))
      ensures r == Done(0) && size > 0 ==>
        !old(Available(size)) && live == old(live) - {p} && (p == 0 || old(live[p]) == 0)
      ensures r == Fault ==>
        SamePayloads({}) && !old(Available(size)) && size > 0 && live == old(live) && p != 0 && old(live[p]) > 0
      ensures size == 0 && p != 0 ==> Settled(old(RegionOf(p)), old(LastInRegion(p) && Surplus(RegionOf(p))))
      ensures r == Fault || (size == 0 && p == 0) ==> Settled(0, false)
      ensures r.Done? && size > 0 ==>
        var pages := if old(Available(size)) || r.ptr == 0 then 0 else PagesFor(size);
        if p == 0 then Obtained(RegionOf(r.ptr), pages) else Exchanged(old(BooksOf(p)), r.ptr, pages)
    {
      if size == 0 {
        Free(p);
        return Done(0);
      }
      if p == 0 {
        NullIsDead();
        var q := Malloc(size);
        return Done(q);
      }
      r := Move(p, size);
    }

    lemma NullIsDead()
      requires Valid()
      ensures 0 !in live
    {
      if 0 in live {
        LiveBlock(0);
      }
    }

    /** realloc of a block to a non-zero size. */
    method Move(p: int, size: int) returns (r: Outcome)
      requires Valid() && 0 < size <= MAX_REQUEST && p in live
      modifies this, tags, freePages, completePages, provider, bytes
      ensures Valid() && fresh(tags - old(tags)) && SamePayloads({p})
      ensures r.Done? && r.ptr != 0 ==>
        && r.ptr !in old(live) && live == old(live)[r.ptr := size] - {p}
        && forall i {:trigger Peek(r.ptr, i)} :: 0 <= i < Min(old(live[p]), size) ==> Peek(r.ptr, i) == old(Peek(p, i))
      ensures r == Done(0) ==> !old(Available(size)) && live == old(live) - {p} && old(live[p]) == 0
      ensures r == Fault ==>
        SamePayloads({}) && !old(Available(size)) && live == old(live) && old(live[p]) > 0 && Settled(0, false)
      ensures r.Done? ==>
        Exchanged(old(BooksOf(p)), r.ptr, if old(Available(size)) || r.ptr == 0 then 0 else PagesFor(size))
    {
      ghost var before := BooksOf(p);
      NullIsDead();
      r := Duplicate(p, size);
      if r == Fault {
        return;
      }
      Release(p, r.ptr, before);
    }

    /** The end of realloc, with the copy at `q`. */
    method Release(p: int, ghost q: int, ghost before: Books)
      requires Valid() && p in live && p != 0 && p != q && (q == 0 || q in live)
      requires Copied(before, p, q, provider.obtained - before.obtained)
      requires q == 0 ==> provider.obtained == before.obtained
      modifies this, tags, freePages, completePages, provider
      ensures Valid() && tags <= old(tags) && live == old(live) - {p} && SamePayloads({p})
      ensures Exchanged(before, q, old(provider.obtained) - before.obtained)
    {
      RegionKept(p);
      Free(p);
      OthersWaitIff(p);
      if q != 0 {
        RegionKept(q);
      }
    }

    /** realloc up to its call of free. */
    method Duplicate(p: int, size: int) returns (r: Outcome)
      requires Valid() && 0 < size <= MAX_REQUEST && p in live
      modifies this, tags, freePages, completePages, provider, bytes
      ensures Valid() && fresh(tags - old(tags)) && SamePayloads({})
      ensures r.Done? && r.ptr != 0 ==>
        && r.ptr !in old(live) && live == old(live)[r.ptr := size]
        && forall i {:trigger Peek(r.ptr, i)} :: 0 <= i < Min(old(live[p]), size) ==> Peek(r.ptr, i) == old(Peek(p, i))
      ensures r == Done(0) ==> !old(Available(size)) && live == old(live) && old(live[p]) == 0
      ensures r == Fault ==> !old(Available(size)) && live == old(live) && old(live[p]) > 0
      ensures r == Fault ==> Settled(0, false)
      ensures r.Done? ==>
        Copied(old(BooksOf(p)), p, r.ptr, if old(Available(size)) || r.ptr == 0 then 0 else PagesFor(size))
    {
      LiveBlock(p);
      assert Holds(at[p - HEADER]);
      InsideMemory(p);
      var realSize := Min(at[p - HEADER].size, size);
      var ptr := MallocBeside(p, size);
      if ptr == 0 && realSize > 0 {
        return Fault;
      }
      if ptr != 0 {
        CopyBlock(ptr, p, realSize);
      }
      r := Done(ptr);
    }

    /** The malloc of realloc. */
    method MallocBeside(ghost p: int, size: int) returns (q: int)
      requires Valid() && 0 < size <= MAX_REQUEST && p in live
      modifies this, tags, freePages, completePages, provider
      ensures Valid() && fresh(tags - old(tags)) && SamePayloads({})
      ensures q == 0 ==> live == old(live) && !old(Available(size))
      ensures q != 0 ==> q !in old(live) && live == old(live)[q := size]
      ensures Copied(old(BooksOf(p)), p, q, if old(Available(size)) || q == 0 then 0 else PagesFor(size))
    {
      ghost var before := BooksOf(p);
      q := Malloc(size);
      RegionKept(p);
      LastAfterGrowth(p, q);
      assert LastInRegion(p) <==> before.last && (q == 0 || RegionOf(q) != before.region);
    }

    /** The copy of realloc, between two live blocks. */
    method CopyBlock(d: int, s: int, n: int)
      requires Valid() && d in live && s in live && d != s && 0 <= n <= live[d] && n <= live[s]
      modifies bytes
      ensures Valid() && SamePayloads({d})
      ensures forall i {:trigger Peek(d, i)} :: 0 <= i < n ==> Peek(d, i) == old(Peek(s, i))
    {
      AllPayloadsRaw();
      InsideMemory(d);
      InsideMemory(s);
      PayloadsDisjoint(d, s);
      MemCopy(d, s, n);
      AllPayloadsRaw();
      StoresStayInside(d);
      forall i {:trigger Peek(d, i)} | 0 <= i < n ensures Peek(d, i) == old(Peek(s, i)) {
        assert Raw(d, i) && old(Raw(s, i));
      }
    }
  }
}
