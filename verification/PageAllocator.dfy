/** The first-fit page bitmap of kernel/src/paging.c. */
module PageAllocator {
  import opened Arithmetic
  import opened Bits
  import opened Machine
  import opened Paging
  import opened Powers

  const BITMAP_WORDS := 24544         // PAGE_BITMAP_SIZE: FREE_TABLES * 1024 / 32
  const PAGES := 760864               // BITMAP_WORDS * 31: bit 0 of a word is never handed out
  const UINT32_MAX := 0xFFFF_FFFF

  /** The page index of the `n`-th allocation, from 0: 31 pages of each 32. */
  function PageIndex(n: nat): nat {
    n + n / 31
  }

  /** Its inverse on the indices that are handed out. */
  function Ordinal(index: nat): nat {
    31 * (index / 32) + index % 32
  }

  /** The virtual address of the `n`-th allocation. */
  function PageAddress(n: nat): nat {
    4096 * PageIndex(n) + 4096
  }

  lemma IndexOrdinal(n: nat)
    ensures PageIndex(n) / 32 == n / 31 && PageIndex(n) % 32 == n % 31 && Ordinal(PageIndex(n)) == n
  {
    var q, r := n / 31, n % 31;
    assert n == 31 * q + r && PageIndex(n) == 32 * q + r;
  }

  lemma OrdinalIndex(index: nat)
    requires index % 32 < 31
    ensures PageIndex(Ordinal(index)) == index
  {
    var q, r := index / 32, index % 32;
    assert index == 32 * q + r && Ordinal(index) == 31 * q + r;
    assert Ordinal(index) / 31 == q;
  }

  /** `v` lies in one of the first `n` pages. */
  predicate Mapped(v: Word, n: nat) {
    v >= 4096 && (v / 4096 - 1) % 32 < 31 && Ordinal(v / 4096 - 1) < n
  }

  /** Mapped means: in the page of some earlier allocation. */
  lemma MappedPages(v: Word, n: nat)
    ensures Mapped(v, n) <==> exists k :: 0 <= k < n && v / 4096 * 4096 == PageAddress(k)
  {
    if Mapped(v, n) {
      var k := Ordinal(v / 4096 - 1);
      OrdinalIndex(v / 4096 - 1);
      assert v / 4096 * 4096 == PageAddress(k);
    }
    forall k | 0 <= k < n && v / 4096 * 4096 == PageAddress(k) ensures Mapped(v, n) {
      IndexOrdinal(k);
      assert v / 4096 - 1 == PageIndex(k);
    }
  }

  /** After `n` allocations: below the kernel exactly the pages handed out are mapped, one after the
      other in physical memory from `base` on; the kernel half is as booted. */
  function Translation(v: Word, n: nat, base: Word): Option<Word> {
    if v >= KERNEL_ADDRESS then
      if v < KERNEL_ADDRESS + 0x80_0000 then Some(v - KERNEL_ADDRESS) else None
    else if Mapped(v, n) then Some((base as int + v - 4096) % WORD_LIMIT)
    else None
  }

  lemma {:induction false} NoBits(b: nat)
    ensures !TestBit(0, b)
  {
    if b == 0 {
    } else {
      NoBits(b - 1);
    }
  }

  /** Page, the address 0 of an exhausted bitmap, or the abort of exhausted memory. */
  datatype Allocation = Page(address: int) | NoPage | OutOfMemory

  class Allocator {
    const mmu: Mmu
    const bitmap: array<Word>
    const freeMemory: Word         // mmap_free_memory
    const freeLength: nat          // mmap_free_memory_length
    ghost var count: nat           // pages handed out so far

    /** The state after paging_initialize and mmap_initialize. */
    constructor (mmu: Mmu, freeMemory: Word, freeLength: nat)
      requires mmu.Layout() && mmu.Booted() && freeMemory % 4096 == 0
      ensures Valid() && count == 0 && fresh(bitmap)
      ensures this.mmu == mmu && this.freeMemory == freeMemory && this.freeLength == freeLength
    {
      this.mmu, this.freeMemory, this.freeLength, count := mmu, freeMemory, freeLength, 0;
      bitmap := new Word[BITMAP_WORDS](_ => 0);
      new;
      mmu.BootedIsValid();
      forall i, b | 0 <= i < BITMAP_WORDS && 0 <= b < 32 ensures Taken(i, b) {
        NoBits(b);
      }
      forall v: Word | v < TABLE_WINDOW ensures mmu.Walk(v) == Translation(v, 0, freeMemory) {
        mmu.BootWalk(v);
      }
    }

    /** The first `count` positions are taken, and no other. */
    ghost predicate Taken(i: int, b: int)
      requires 0 <= i < bitmap.Length
      reads this`count, bitmap
    {
      0 <= b < 32 ==> (TestBit(bitmap[i], b) <==> b > 0 && 31 * i + (31 - b) < count)
    }

    /** What the hardware sees after `n` allocations. */
    ghost predicate Shows(n: nat)
      requires mmu.Layout()
      reads mmu.mem
    {
      forall v: Word {:trigger mmu.Walk(v)} :: v < TABLE_WINDOW ==> mmu.Walk(v) == Translation(v, n, freeMemory)
    }

    ghost predicate Valid()
      reads this`count, bitmap, mmu.mem
    {
      && mmu.Valid() && bitmap.Length == BITMAP_WORDS && bitmap != mmu.mem
      && freeMemory % 4096 == 0 && count <= PAGES && (count > 0 ==> 4096 * PageIndex(count - 1) < freeLength)
      && (forall i, b {:trigger Taken(i, b)} :: 0 <= i < BITMAP_WORDS ==> Taken(i, b))
      && Shows(count)
    }

    /** The low 12 bits of the table entry of the page at `v`: its flags. */
    ghost function FlagsOf(v: int): int
      requires mmu.Layout()
      reads mmu.mem
    {
      if 0 <= v < TABLE_WINDOW && mmu.HasTable(DirIndex(v)) && 0 <= mmu.TableFrame(DirIndex(v)) < 0x10_0000
      then mmu.Entry(mmu.TableFrame(DirIndex(v)), TabIndex(v)) % 4096 else -1
    }

    /** Present, and with the flags that were asked for. */
    ghost predicate Flagged(v: int, flags: nat)
      requires mmu.Layout()
      reads mmu.mem
    {
      FlagsOf(v) % 2 == 1 && FlagsOf(v) / 2 == flags / 2 % 2048
    }

    /** The pages of the first `n` allocations have the flags they had. */
    twostate predicate FlagsKept(n: nat)
      requires mmu.Layout()
      reads mmu.mem
    {
      forall k {:trigger PageAddress(k)} :: 0 <= k < n ==> FlagsOf(PageAddress(k)) == old(FlagsOf(PageAddress(k)))
    }

    /** map_page stores into the table entry of no other page. */
    twostate lemma OtherFlags(new v: Word, new w: Word, new entry: Word)
      requires mmu.Layout() && w < TABLE_WINDOW && mmu.HasTable(DirIndex(w))
      requires mmu.Stored(DirIndex(w), TabIndex(w), entry) && v < TABLE_WINDOW && !SamePage(v, w)
      ensures FlagsOf(v) == old(FlagsOf(v))
    {
      if mmu.HasTable(DirIndex(v)) {
        mmu.TablesApart(DirIndex(v), DirIndex(w));
      }
    }

    lemma StoredFlags(v: Word, frame: int, flags: int)
      requires mmu.Layout() && 0 <= flags && v < TABLE_WINDOW && mmu.HasTable(DirIndex(v))
      requires 0 <= mmu.TableFrame(DirIndex(v)) < 0x10_0000
      requires mmu.Entry(mmu.TableFrame(DirIndex(v)), TabIndex(v)) == frame * 4096 + EntryFlags(flags)
      ensures Flagged(v, flags)
    {
      LowBits(frame, EntryFlags(flags));
    }

    /** Allocations `m` to `n` have these flags. */
    ghost predicate AllFlagged(m: nat, n: nat, flags: nat)
      requires mmu.Layout()
      reads mmu.mem
    {
      forall k {:trigger PageAddress(k)} :: m <= k < n ==> Flagged(PageAddress(k), flags)
    }

    twostate lemma StillFlagged(new m: nat, new n: nat, new flags: nat)
      requires mmu.Layout() && FlagsKept(n) && old(AllFlagged(m, n, flags))
      ensures AllFlagged(m, n, flags)
    {
    }

    twostate lemma EarlierFlags(new n: nat, new entry: Word)
      requires mmu.Layout() && n < PAGES && PageAddress(n) < TABLE_WINDOW && mmu.HasTable(DirIndex(PageAddress(n)))
      requires mmu.Stored(DirIndex(PageAddress(n)), TabIndex(PageAddress(n)), entry)
      ensures FlagsKept(n)
    {
      forall k | 0 <= k < n ensures FlagsOf(PageAddress(k)) == old(FlagsOf(PageAddress(k))) {
        IndicesGrow(k, n);
        TablesSuffice(k);
        SamePageNumber(PageAddress(k), PageAddress(n));
        OtherFlags(PageAddress(k), PageAddress(n), entry);
      }
    }

    /** alloc_page */
    method AllocPage(flags: int) returns (r: Allocation)
      requires Valid() && 0 <= flags
      modifies this`count, bitmap, mmu.mem
      ensures Valid()
      ensures r.Page? ==>
        r.address == PageAddress(old(count)) && count == old(count) + 1 && 4096 * PageIndex(old(count)) < freeLength
      ensures r.NoPage? ==> old(count) == PAGES && count == old(count)
      ensures r.OutOfMemory? ==> 4096 * PageIndex(old(count)) >= freeLength && old(count) < PAGES && count == old(count)
      ensures FlagsKept(old(count)) && (r.Page? ==> Flagged(r.address, flags))
    {
      var i := 0;
      while i < BITMAP_WORDS
        invariant 0 <= i <= BITMAP_WORDS && 31 * i <= count
      {
        if bitmap[i] != UINT32_MAX {
          var b := 31;
          while b > 0
            invariant 0 <= b <= 31 && 31 * i + (31 - b) <= count
          {
            assert Taken(i, b);
            if !TestBit(bitmap[i], b) {
              r := Claim(i, b, flags);
              return;
            }
            b := b - 1;
          }
        } else {
          assert Taken(i, 1);
        }
        i := i + 1;
      }
      r := NoPage;
    }

    /** `page_bitmap[i] |= 1 << b` */
    method TakeBit(i: int, b: int)
      requires bitmap.Length == BITMAP_WORDS && 0 <= i < BITMAP_WORDS && 0 <= b < 32
      modifies bitmap
      ensures forall k, c {:trigger TestBit(bitmap[k], c)} :: 0 <= k < BITMAP_WORDS && 0 <= c ==>
        (TestBit(bitmap[k], c) <==> (k == i && c == b) || old(TestBit(bitmap[k], c)))
    {
      Pow2Values();
      SetBitBound(bitmap[i], b, 32);
      forall c: nat ensures TestBit(SetBit(bitmap[i], b), c) <==> c == b || TestBit(bitmap[i], c) {
        SetBitSetsOne(bitmap[i], b, c);
      }
      bitmap[i] := SetBit(bitmap[i], b);
    }

    /** The map_page call of alloc_page: page `x` of the free region appears at virtual page `x + 1`. */
    method MapNext(i: int, b: int, flags: int)
      requires mmu.Valid() && freeMemory % 4096 == 0 && 0 <= flags
      requires 0 <= i < BITMAP_WORDS && 0 < b < 32 && count == 31 * i + (31 - b)
      requires Shows(count)
      modifies mmu.mem
      ensures mmu.Valid() && Shows(count + 1) && FlagsKept(count) && Flagged(PageAddress(count), flags)
    {
      ClaimedIndex(i, b);
      MapAt(32 * i + (31 - b), flags, i, b);
    }

    /** ... for page `x`. */
    method MapAt(x: int, flags: int, ghost i: int, ghost b: int)
      requires mmu.Valid() && freeMemory % 4096 == 0 && 0 <= flags
      requires 0 <= i < BITMAP_WORDS && 0 < b < 32 && count == 31 * i + (31 - b)
      requires x == 32 * i + (31 - b) == PageIndex(count)
      requires Shows(count)
      modifies mmu.mem
      ensures mmu.Valid() && Shows(count + 1) && FlagsKept(count) && Flagged(PageAddress(count), flags)
    {
      var physical: int := (freeMemory as int + 4096 * x) % WORD_LIMIT;
      var virtual := 4096 * x + 4096;
      VirtualPage(x);
      var ok := mmu.MapPage(physical, virtual, flags);
      StoredFlags(virtual, Frame(physical), flags);
      ShowsNext(i, b, physical, virtual);
      EarlierFlags(count, Frame(physical) * 4096 + EntryFlags(flags));
    }

    /** What map_page did to the translations is what one more allocation should do. */
    twostate lemma ShowsNext(new i: int, new b: int, new physical: Word, new virtual: Word)
      requires old(mmu.Valid()) && mmu.Valid() && freeMemory % 4096 == 0
      requires 0 <= i < BITMAP_WORDS && 0 < b < 32 && count == 31 * i + (31 - b) && count == old(count)
      requires old(Shows(count)) && virtual / 4096 == 32 * i + (31 - b) + 1
      requires Frame(physical) * 4096 == (freeMemory as int + 4096 * (32 * i + (31 - b))) % WORD_LIMIT / 4096 * 4096
      requires forall a: Word {:trigger mmu.Walk(a)} :: a < TABLE_WINDOW ==>
        mmu.Walk(a) == if SamePage(a, virtual) then Some(Frame(physical) * 4096 + a % 4096) else old(mmu.Walk(a))
      ensures Shows(count + 1)
    {
      forall v: Word | v < TABLE_WINDOW ensures mmu.Walk(v) == Translation(v, count + 1, freeMemory) {
        assert old(mmu.Walk(v)) == Translation(v, count, freeMemory);
        SamePageNumber(v, virtual);
        NextPage(v, i, b, freeMemory);
      }
    }

    /** alloc_page, once a clear bit is found. */
    method Claim(i: int, b: int, flags: int) returns (r: Allocation)
      requires Valid() && 0 <= i < BITMAP_WORDS && 0 < b < 32 && count == 31 * i + (31 - b) && 0 <= flags
      modifies this`count, bitmap, mmu.mem
      ensures Valid()
      ensures r.Page? ==>
        r.address == PageAddress(old(count)) && count == old(count) + 1 && 4096 * PageIndex(old(count)) < freeLength
      ensures !r.NoPage?
      ensures r.OutOfMemory? ==> 4096 * PageIndex(old(count)) >= freeLength && count == old(count)
      ensures FlagsKept(old(count)) && (r.Page? ==> Flagged(r.address, flags))
    {
      var pageOffset := (32 * i + (31 - b)) * 4096;
      ClaimedIndex(i, b);
      if pageOffset >= freeLength {
        return OutOfMemory;
      }
      MapNext(i, b, flags);
      TakeBit(i, b);
      count := count + 1;
      forall k, c | 0 <= k < BITMAP_WORDS ensures Taken(k, c) {
        assert old(Taken(k, c));
      }
      r := Page(pageOffset + 4096);
    }

    /** alloc_pages: the address of the first page that was not refused. */
    method AllocPages(pages: nat, flags: int) returns (r: Allocation)
      requires Valid() && 0 <= flags
      modifies this`count, bitmap, mmu.mem
      ensures Valid()
      ensures r.OutOfMemory? ==>
        4096 * PageIndex(count) >= freeLength && count < PAGES && old(count) <= count < old(count) + pages
      ensures !r.OutOfMemory? ==> count == if old(count) + pages <= PAGES then old(count) + pages else PAGES
      ensures r.Page? ==> r.address == PageAddress(old(count)) && pages > 0 && old(count) < PAGES
      ensures r.NoPage? ==> pages == 0 || old(count) == PAGES
      ensures AllFlagged(old(count), count, flags)
    {
      r := NoPage;
      var i := 0;
      while i < pages
        invariant 0 <= i <= pages && Valid() && !r.OutOfMemory?
        invariant count == if old(count) + i <= PAGES then old(count) + i else PAGES
        invariant r.Page? ==> r.address == PageAddress(old(count)) && i > 0 && old(count) < PAGES
        invariant r.NoPage? ==> i == 0 || old(count) == PAGES
        invariant AllFlagged(old(count), count, flags)
      {
        label before:
        ghost var n := count;
        var page := AllocPage(flags);
        StillFlagged@before(old(count), n, flags);
        if page.OutOfMemory? {
          return page;
        }
        if r.NoPage? {
          r := page;
        }
        i := i + 1;
      }
    }

    /** The pages handed out so far end below 4 GiB. */
    ghost predicate InReach()
      reads this`count
    {
      count > 0 ==> freeMemory + 4096 * PageIndex(count - 1) < WORD_LIMIT
    }

    /** Then every byte handed out is a byte of the free region. */
    lemma PagesAreFreeMemory(v: Word)
      requires Valid() && v < KERNEL_ADDRESS && Mapped(v, count) && InReach() && freeLength % 4096 == 0
      ensures mmu.Walk(v) == Some(freeMemory + v - 4096)
      ensures freeMemory <= freeMemory + v - 4096 < freeMemory + freeLength
    {
      MappedBelow(v, count, freeLength);
      LimitAligned(freeMemory);
      MappedBelow(v, count, WORD_LIMIT - freeMemory);
      SmallModulus(freeMemory + v - 4096);
      assert mmu.Walk(v) == Translation(v, count, freeMemory);
    }

    /** Only then: a region that passes 4 GiB goes on at address 0. */
    lemma ReachIff()
      requires Valid() && freeLength % 4096 == 0
      ensures InReach() <==>
        forall v: Word {:trigger mmu.Walk(v)} :: v < KERNEL_ADDRESS && Mapped(v, count) ==>
          mmu.Walk(v).Some? && mmu.Walk(v).value == freeMemory + v - 4096
    {
      if InReach() {
        forall v: Word {:trigger mmu.Walk(v)} | v < KERNEL_ADDRESS && Mapped(v, count)
          ensures mmu.Walk(v).Some? && mmu.Walk(v).value == freeMemory + v - 4096
        {
          PagesAreFreeMemory(v);
        }
      } else {
        TablesSuffice(count - 1);
        LastIsMapped(count);
        var v := PageAddress(count - 1);
        assert mmu.Walk(v) == Translation(v, count, freeMemory);
        assert mmu.Walk(v).value < WORD_LIMIT <= freeMemory + v - 4096;
      }
    }
  }

  /** The page behind page `x` of the region has a table. */
  lemma VirtualPage(x: int)
    requires 0 <= x < 32 * BITMAP_WORDS - 1
    ensures var virtual := 4096 * x + 4096;
      virtual / 4096 == x + 1 && virtual < KERNEL_ADDRESS && DirIndex(virtual) < FREE_TABLES
  {
    assert 32 * BITMAP_WORDS == 767 * 1024;
  }

  lemma LowBits(frame: int, low: int)
    requires 0 <= low < 4096
    ensures (frame * 4096 + low) % 4096 == low
  {
  }

  lemma LastIsMapped(n: nat)
    requires 0 < n <= PAGES && PageAddress(n - 1) < KERNEL_ADDRESS
    ensures Mapped(PageAddress(n - 1), n)
  {
    var v, x := PageAddress(n - 1), PageIndex(n - 1);
    assert v / 4096 == x + 1;
    IndexOrdinal(n - 1);
  }

  lemma LimitAligned(a: int)
    requires a % 4096 == 0
    ensures (WORD_LIMIT - a) % 4096 == 0
  {
    var k := a / 4096;
    assert WORD_LIMIT - a == 4096 * (0x10_0000 - k);
  }

  lemma MappedBelow(v: Word, n: nat, length: nat)
    requires Mapped(v, n) && 4096 * PageIndex(n - 1) < length && length % 4096 == 0
    ensures 4096 <= v < length + 4096
  {
    var x, pages := v / 4096 - 1, length / 4096;
    OrdinalIndex(x);
    IndicesGrow(Ordinal(x), n - 1);
    assert length == 4096 * pages;
    assert x < pages;
  }

  lemma SmallModulus(a: int)
    requires 0 <= a < WORD_LIMIT
    ensures a % WORD_LIMIT == a
  {
  }

  lemma IndicesGrow(m: nat, n: nat)
    ensures m <= n ==> PageIndex(m) <= PageIndex(n)
    ensures m < n ==> PageIndex(m) < PageIndex(n)
  {
  }

  /** Allocation `n + j` lies `j` pages behind allocation `n`. */
  predicate Follows(n: nat, j: nat) {
    PageAddress(n + j) == PageAddress(n) + 4096 * j
  }

  /** `k` allocations after the first `n` are consecutive exactly when none of them starts a new bitmap word. */
  lemma ConsecutiveIff(n: nat, k: nat)
    ensures (forall j :: 0 <= j < k ==> Follows(n, j)) <==> n % 31 + k <= 31
  {
    if n % 31 + k <= 31 {
      forall j | 0 <= j < k ensures Follows(n, j) {
        assert (n + j) / 31 == n / 31;
      }
    } else {
      var j := 31 - n % 31;
      assert (n + j) / 31 == n / 31 + 1;
      assert !Follows(n, j);
    }
  }

  ghost predicate AllMapped(start: int, end: int, n: nat) {
    forall v: Word :: start <= v < end ==> Mapped(v, n)
  }

  /** What liballoc expects of its provider: `k` mapped pages from the returned address on. */
  ghost predicate WholeGrant(n: nat, k: nat) {
    AllMapped(PageAddress(n), PageAddress(n) + 4096 * k, n + k)
  }

  /** alloc_pages keeps that promise exactly when its pages are consecutive. */
  lemma GrantIsWholeIff(n: nat, k: nat)
    requires n + k <= PAGES
    ensures WholeGrant(n, k) <==> n % 31 + k <= 31
  {
    var m, q, r := n + k, n / 31, n % 31;
    assert n == 31 * q + r && PageIndex(n) == 32 * q + r;
    if r + k <= 31 {
      forall v: Word | PageAddress(n) <= v < PageAddress(n) + 4096 * k ensures Mapped(v, m) {
        var x := v / 4096 - 1;
        assert 32 * q + r <= x < 32 * q + r + k;
        assert x / 32 == q && x % 32 == x - 32 * q;
      }
    } else {
      var hole: Word := 4096 * (32 * q + 31) + 4096;
      assert (hole / 4096 - 1) % 32 == 31;
      assert !Mapped(hole, m);
      assert PageAddress(n) <= hole < PageAddress(n) + 4096 * k;
    }
  }

  /** liballoc asks for 16 pages at a time: its second region already has a hole. */
  lemma SecondGrantHasAHole()
    ensures WholeGrant(0, 16) && !WholeGrant(16, 16)
  {
    GrantIsWholeIff(0, 16);
    GrantIsWholeIff(16, 16);
  }

  /** Every page handed out has a table among free_page_tables. */
  lemma TablesSuffice(n: nat)
    requires n < PAGES
    ensures PageAddress(n) < KERNEL_ADDRESS && DirIndex(PageAddress(n)) < FREE_TABLES
  {
    IndicesGrow(n, PAGES - 1);
  }

  lemma ClaimedIndex(i: int, b: int)
    requires 0 <= i < BITMAP_WORDS && 0 < b < 32
    ensures PageIndex(31 * i + (31 - b)) == 32 * i + (31 - b)
  {
    assert (31 * i + (31 - b)) / 31 == i;
  }

  /** Numbers of two digits: one more in the second digit admits one more number. */
  lemma NextInOrder(q: int, r: int, i: int, s: int)
    requires 0 <= r < 31 && 0 <= s < 31
    ensures 31 * q + r < 31 * i + s + 1 <==> 31 * q + r < 31 * i + s || (q == i && r == s)
    ensures 32 * q + r == 32 * i + s <==> q == i && r == s
  {
  }

  /** Handing out bit `b` of word `i` adds exactly one page to the mapped ones. */
  lemma NextMapped(v: Word, i: int, b: int)
    requires 0 <= i < BITMAP_WORDS && 0 < b < 32
    ensures var n := 31 * i + (31 - b); Mapped(v, n + 1) <==> Mapped(v, n) || v / 4096 == 32 * i + (31 - b) + 1
  {
    var x, s := v / 4096 - 1, 31 - b;
    var q, r := x / 32, x % 32;
    assert x == 32 * q + r && (v >= 4096 <==> x >= 0);
    if x >= 0 && r < 31 {
      NextInOrder(q, r, i, s);
      assert Ordinal(x) == 31 * q + r;
    } else {
      assert x == 32 * i + s ==> q == i && r == s by {
        DivUnique(32 * i + s, 32, i, s);
      }
    }
  }

  /** ... and the other translations stay. `target` is the frame map_page was given. */
  lemma NextPage(v: Word, i: int, b: int, base: Word)
    requires 0 <= i < BITMAP_WORDS && 0 < b < 32 && base % 4096 == 0 && v < TABLE_WINDOW
    ensures var n := 31 * i + (31 - b); var x := 32 * i + (31 - b);
      Translation(v, n + 1, base) ==
        if v / 4096 == x + 1 then Some((base as int + 4096 * x) % WORD_LIMIT / 4096 * 4096 + v % 4096)
        else Translation(v, n, base)
  {
    NextMapped(v, i, b);
    var x := 32 * i + (31 - b);
    if v / 4096 == x + 1 {
      assert v - 4096 == 4096 * x + v % 4096;
      WrapAligned(base + 4096 * x, v % 4096);
    }
  }

  lemma WrapAligned(p: int, offset: int)
    requires 0 <= p < 2 * WORD_LIMIT && p % 4096 == 0 && 0 <= offset < 4096
    ensures (p + offset) % WORD_LIMIT == p % WORD_LIMIT / 4096 * 4096 + offset
  {
    var k := p / 4096;
    assert p == 4096 * k;
    if p >= WORD_LIMIT {
      assert p % WORD_LIMIT == 4096 * (k - 0x10_0000);
    }
  }
}
