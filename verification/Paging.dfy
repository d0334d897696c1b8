/** Two-level paging with a recursive directory slot (kernel/src/paging.c). */
module Paging {
  import opened Arithmetic
  import opened Machine

  const WORDS := 0x4000_0000          // 32-bit words of physical memory
  const KERNEL_ADDRESS := 0xC000_0000
  const KERNEL_SLOT := 768            // KERNEL_PAGE_DIRECTORY_START
  const KERNEL_TABLES := 2
  const FREE_TABLES := 767
  const DIRECTORY_WINDOW := 0xFFFF_F000
  const TABLE_WINDOW := 0xFFC0_0000

  type Word = w: int | 0 <= w < WORD_LIMIT

  datatype Option<T> = None | Some(value: T)

  // The fields of entries and addresses. A shift by n bits is a division by 2^n, a mask of the
  // low n bits a remainder, and joining disjoint bits a sum.
  predicate Present(entry: Word) { entry % 2 == 1 }
  function Frame(entry: Word): int { entry / 4096 }
  function DirIndex(v: Word): int { v / 0x40_0000 }
  function TabIndex(v: Word): int { v / 4096 % 1024 }

  /** `(flags & 0xFFF) | PAGE_FLAG_PRESENT` */
  function EntryFlags(flags: int): (low: int)
    requires 0 <= flags
    ensures 0 <= low < 4096 && low % 2 == 1 && low / 2 == flags / 2 % 2048
  {
    flags % 4096 + if flags % 2 == 0 then 1 else 0
  }

  /** Where the page table entry `w` puts address `a`. */
  function Target(w: Word, a: Word): Option<Word> {
    if Present(w) then Some(Frame(w) * 4096 + a % 4096) else None
  }

  /** `a` lies in the page that entry `j` of slot `i` describes. */
  predicate InPage(a: Word, i: int, j: int) {
    DirIndex(a) == i && TabIndex(a) == j
  }

  lemma PageNumber(a: Word, i: int, j: int)
    requires 0 <= j < 1024
    ensures InPage(a, i, j) <==> a / 4096 == 1024 * i + j
  {
    assert DirIndex(a) == a / 4096 / 1024;
  }

  predicate SamePage(a: Word, v: Word) {
    InPage(a, DirIndex(v), TabIndex(v))
  }

  lemma SamePageNumber(a: Word, v: Word)
    ensures SamePage(a, v) <==> a / 4096 == v / 4096
  {
    PageNumber(a, DirIndex(v), TabIndex(v));
    PageNumber(v, DirIndex(v), TabIndex(v));
  }

  lemma WordIndex(frame: int, k: int)
    ensures (frame * 4096 + 4 * k) / 4 == frame * 1024 + k
  {
    assert frame * 4096 + 4 * k == 4 * (frame * 1024 + k);
  }

  lemma EntryFields(frame: int, low: int)
    requires 0 <= frame < 0x10_0000 && 0 <= low < 4096
    ensures var w: Word := frame * 4096 + low; Frame(w) == frame && (Present(w) <==> low % 2 == 1)
  {
  }

  /** `w & ~PAGE_FLAG_PRESENT` */
  lemma ClearPresent(w: Word)
    requires Present(w)
    ensures 0 <= w - 1 < WORD_LIMIT && !Present(w - 1)
  {
  }

  class Mmu {
    const mem: array<Word>     // physical memory
    const dir: int             // frame of page_directory, also loaded into CR3
    const kernelTables: int    // first frame of kernel_page_tables
    const freeTables: int      // first frame of free_page_tables

    /** Where the linker put the three structures: whole frames, apart from each other. */
    static predicate Placed(dir: int, kernelTables: int, freeTables: int) {
      && 0 <= dir < 0x10_0000
      && 0 <= kernelTables && kernelTables + KERNEL_TABLES <= 0x10_0000
      && 0 <= freeTables && freeTables + FREE_TABLES <= 0x10_0000
      && !(kernelTables <= dir < kernelTables + KERNEL_TABLES)
      && !(freeTables <= dir < freeTables + FREE_TABLES)
      && (kernelTables + KERNEL_TABLES <= freeTables || freeTables + FREE_TABLES <= kernelTables)
    }

    ghost predicate Layout() {
      mem.Length == WORDS && Placed(dir, kernelTables, freeTables)
    }

    constructor (dir: int, kernelTables: int, freeTables: int)
      requires Placed(dir, kernelTables, freeTables)
      ensures Layout() && fresh(mem)
      ensures this.dir == dir && this.kernelTables == kernelTables && this.freeTables == freeTables
    {
      mem := new Word[WORDS];
      this.dir, this.kernelTables, this.freeTables := dir, kernelTables, freeTables;
    }

    /** Entry `i` of the table in `frame`. */
    function Entry(frame: int, i: int): Word
      requires Layout() && 0 <= frame < 0x10_0000 && 0 <= i < 1024
      reads mem
    {
      mem[frame * 1024 + i]
    }

    /** The hardware's walk from CR3: 32-bit paging with 4 KiB pages, section 4.3 of the Intel SDM, Volume 3A. */
    function Walk(v: Word): Option<Word>
      requires Layout()
      reads mem
    {
      var pde := Entry(dir, DirIndex(v));
      if !Present(pde) then None
      else
        var pte := Entry(Frame(pde), TabIndex(v));
        Target(pte, v)
    }

    /** The same on the words of physical memory, for an address with directory index `i`, table index `j` and
        offset `o`: bit 0 of an entry is its present bit, bits 12 to 31 are a frame. */
    lemma WalkIsHardware(i: int, j: int, o: int)
      requires Layout() && 0 <= i < 1024 && 0 <= j < 1024 && 0 <= o < 4096
      ensures var walk := Walk(0x40_0000 * i + 0x1000 * j + o);
        var pde := mem[1024 * dir + i];
        if pde % 2 == 0 then walk == None
        else
          var pte := mem[1024 * (pde / 0x1000) + j];
          if pte % 2 == 0 then walk == None
          else walk.Some? && walk.value / 0x1000 == pte / 0x1000 && walk.value % 0x1000 == o
    {
      var v := 0x40_0000 * i + 0x1000 * j + o;
      DivUnique(v, 0x40_0000, i, 0x1000 * j + o);
      DivUnique(v, 0x1000, 1024 * i + j, o);
      DivUnique(1024 * i + j, 1024, i, j);
    }

    /** The last directory slot holds the directory itself. */
    ghost predicate SelfMapped()
      requires Layout()
      reads mem
    {
      Present(Entry(dir, 1023)) && Frame(Entry(dir, 1023)) == dir
    }

    /** The one table that directory slot `i` can hold. */
    function TableFrame(i: int): int {
      if i < FREE_TABLES then freeTables + i else kernelTables + (i - KERNEL_SLOT)
    }

    predicate HasTable(i: int) {
      0 <= i < FREE_TABLES || KERNEL_SLOT <= i < KERNEL_SLOT + KERNEL_TABLES
    }

    ghost predicate SlotOk(i: int)
      requires Layout() && 0 <= i < 1023
      reads mem
    {
      Present(Entry(dir, i)) ==> HasTable(i) && Frame(Entry(dir, i)) == TableFrame(i)
    }

    /** A table no slot holds has no present entry. */
    ghost predicate DetachedIsEmpty(i: int, j: int)
      requires Layout() && 0 <= i < FREE_TABLES && 0 <= j < 1024
      reads mem
    {
      Present(Entry(dir, i)) || !Present(Entry(freeTables + i, j))
    }

    ghost predicate Valid()
      reads mem
    {
      && Layout() && SelfMapped()
      && (forall i {:trigger SlotOk(i)} :: 0 <= i < 1023 ==> SlotOk(i))
      && (forall i, j {:trigger DetachedIsEmpty(i, j)} :: 0 <= i < FREE_TABLES && 0 <= j < 1024 ==>
            DetachedIsEmpty(i, j))
    }

    // ---------------------------------------------------------------- the windows

    /** Through 0xFFFFF000 the walk arrives at the directory's own entries. */
    lemma DirectoryWindow(i: int)
      requires Layout() && SelfMapped() && 0 <= i < 1024
      ensures Walk(0xFFFF_F000 + 4 * i) == Some(dir * 4096 + 4 * i)
    {
      var v := DIRECTORY_WINDOW + 4 * i;
      assert DirIndex(v) == 1023 && TabIndex(v) == 1023 && v % 4096 == 4 * i;
    }

    /** Through 0xFFC00000 it arrives at entry `j` of the table that slot `i` holds. */
    lemma TableWindow(i: int, j: int)
      requires Layout() && SelfMapped() && 0 <= i < 1024 && 0 <= j < 1024
      ensures Walk(0xFFC0_0000 + 4 * (1024 * i + j)) ==
        if Present(Entry(dir, i)) then Some(Frame(Entry(dir, i)) * 4096 + 4 * j) else None
    {
      var v := TABLE_WINDOW + 4 * (1024 * i + j);
      assert v == 0xFFC0_0000 + 4096 * i + 4 * j;
      assert v / 4096 == 0xFFC00 + i;
      assert DirIndex(v) == 1023 && TabIndex(v) == i && v % 4096 == 4 * j;
    }

    /** A load of the 32-bit word at `v`, which the walk finds in entry `i` of `frame`.
        Were it to fail, the source would take a page fault. */
    method Load(v: Word, ghost frame: int, ghost i: int) returns (w: Word)
      requires Layout() && 0 <= frame < 0x10_0000 && 0 <= i < 1024 && Walk(v) == Some(frame * 4096 + 4 * i)
      ensures w == Entry(frame, i)
    {
      WordIndex(frame, i);
      w := mem[Walk(v).value / 4];
    }

    /** Entry `i` of the table in `frame` became `w`, and no other entry of any frame changed. */
    twostate predicate Written(new frame: int, new i: int, new w: Word)
      requires Layout()
      reads mem
    {
      forall f, k {:trigger Entry(f, k)} :: 0 <= f < 0x10_0000 && 0 <= k < 1024 ==>
        Entry(f, k) == if f == frame && k == i then w else old(Entry(f, k))
    }

    method Store(v: Word, w: Word, ghost frame: int, ghost i: int)
      requires Layout() && 0 <= frame < 0x10_0000 && 0 <= i < 1024 && Walk(v) == Some(frame * 4096 + 4 * i)
      modifies mem
      ensures Written(frame, i, w)
    {
      WordIndex(frame, i);
      mem[Walk(v).value / 4] := w;
    }

    /** `pd[i]`, with `pd` at 0xFFFFF000. */
    method LoadDirectory(i: int) returns (w: Word)
      requires Layout() && SelfMapped() && 0 <= i < 1024
      ensures w == Entry(dir, i)
    {
      DirectoryWindow(i);
      w := Load(DIRECTORY_WINDOW + 4 * i, dir, i);
    }

    method StoreDirectory(i: int, w: Word)
      requires Layout() && SelfMapped() && 0 <= i < 1024
      modifies mem
      ensures Written(dir, i, w)
    {
      DirectoryWindow(i);
      Store(DIRECTORY_WINDOW + 4 * i, w, dir, i);
    }

    /** `pt[j]`, with `pt` at 0xFFC00000 + 4096 * i. */
    method LoadTable(i: int, j: int) returns (w: Word)
      requires Layout() && SelfMapped() && 0 <= i < 1024 && 0 <= j < 1024 && Present(Entry(dir, i))
      ensures w == Entry(Frame(Entry(dir, i)), j)
    {
      TableWindow(i, j);
      w := Load(TABLE_WINDOW + 4 * (1024 * i + j), Frame(Entry(dir, i)), j);
    }

    method StoreTable(i: int, j: int, w: Word)
      requires Layout() && SelfMapped() && 0 <= i < 1024 && 0 <= j < 1024 && Present(Entry(dir, i))
      modifies mem
      ensures Written(Frame(old(Entry(dir, i))), j, w)
    {
      TableWindow(i, j);
      Store(TABLE_WINDOW + 4 * (1024 * i + j), w, Frame(Entry(dir, i)), j);
    }

    // ---------------------------------------------------------------- the operations

    /** get_physical_address; None where the source returns NULL. */
    method GetPhysicalAddress(v: Word) returns (r: Option<Word>)
      requires Layout() && SelfMapped()
      ensures r == Walk(v)
    {
      var pd := LoadDirectory(DirIndex(v));
      if !Present(pd) {
        return None;
      }
      var pt := LoadTable(DirIndex(v), TabIndex(v));
      if !Present(pt) {
        return None;
      }
      r := Some(Frame(pt) * 4096 + v % 4096);
    }

    /** The tables are different frames, and none is the directory. */
    lemma TablesApart(i: int, k: int)
      requires Layout() && HasTable(i)
      ensures 0 <= TableFrame(i) < 0x10_0000 && TableFrame(i) != dir
      ensures HasTable(k) && i != k ==> TableFrame(i) != TableFrame(k)
    {
    }

    twostate lemma AttachKeepsValid(new i: int, new w: Word)
      requires old(Valid()) && 0 <= i < FREE_TABLES
      requires Frame(w) == freeTables + i && Present(w) && Written(dir, i, w)
      ensures Valid()
    {
      forall k | 0 <= k < 1023 ensures SlotOk(k) {
        assert old(SlotOk(k));
      }
      forall k, j | 0 <= k < FREE_TABLES && 0 <= j < 1024 ensures DetachedIsEmpty(k, j) {
        TablesApart(k, k);
        assert old(DetachedIsEmpty(k, j));
      }
    }

    twostate lemma AttachWalk(new i: int, new w: Word, new a: Word)
      requires old(Valid()) && 0 <= i < FREE_TABLES && !old(Present(Entry(dir, i)))
      requires Frame(w) == freeTables + i && Present(w) && Written(dir, i, w)
      ensures Walk(a) == if InPage(a, 1023, i) then Some((freeTables + i) * 4096 + a % 4096) else old(Walk(a))
    {
      var k := DirIndex(a);
      if k < 1023 {
        assert old(SlotOk(k));
        assert k == i ==> old(DetachedIsEmpty(k, TabIndex(a)));
      }
    }

    /** Slot `i` has its table now, and nothing but the window page of a new table translates differently. */
    twostate predicate Extended(new i: int)
      requires Layout() && 0 <= i < 1023
      reads mem
    {
      forall a: Word {:trigger Walk(a)} ::
        Walk(a) == if !old(Present(Entry(dir, i))) && InPage(a, 1023, i) then Some(TableFrame(i) * 4096 + a % 4096)
                   else old(Walk(a))
    }

    /** The first branch of map_page: slot `i` gets its own, still empty, table. */
    method Attach(i: int)
      requires Valid() && 0 <= i < FREE_TABLES && !Present(Entry(dir, i))
      modifies mem
      ensures Valid() && Present(Entry(dir, i)) && Extended(i)
      ensures Written(dir, i, (freeTables + i) * 4096 + 7)
    {
      var w: Word := (freeTables + i) * 4096 + 7;
      EntryFields(freeTables + i, 7);
      StoreDirectory(i, w);
      AttachKeepsValid(i, w);
      forall a: Word ensures
        Walk(a) == if InPage(a, 1023, i) then Some(TableFrame(i) * 4096 + a % 4096) else old(Walk(a)) {
        AttachWalk(i, w, a);
      }
    }

    twostate lemma SetKeepsValid(new i: int, new j: int, new w: Word)
      requires old(Valid()) && 0 <= i < 1023 && 0 <= j < 1024 && old(Present(Entry(dir, i)))
      requires HasTable(i) && 0 <= TableFrame(i) < 0x10_0000 && Written(TableFrame(i), j, w)
      ensures Valid() && forall k :: 0 <= k < 1024 ==> Entry(dir, k) == old(Entry(dir, k))
    {
      TablesApart(i, i);
      forall k | 0 <= k < 1023 ensures SlotOk(k) {
        assert old(SlotOk(k));
      }
      forall k, l | 0 <= k < FREE_TABLES && 0 <= l < 1024 ensures DetachedIsEmpty(k, l) {
        TablesApart(k, i);
        assert old(DetachedIsEmpty(k, l));
      }
    }

    twostate lemma SetWalk(new i: int, new j: int, new w: Word, new a: Word)
      requires old(Valid()) && 0 <= i < 1023 && 0 <= j < 1024 && old(Present(Entry(dir, i)))
      requires HasTable(i) && 0 <= TableFrame(i) < 0x10_0000 && Written(TableFrame(i), j, w)
      ensures Walk(a) == if InPage(a, i, j) then Target(w, a) else old(Walk(a))
    {
      TablesApart(i, i);
      assert old(SlotOk(i));
      var k := DirIndex(a);
      if k < 1023 {
        assert old(SlotOk(k));
        if old(Present(Entry(dir, k))) {
          TablesApart(k, i);
        }
      }
    }

    /** A store into an attached table changes the walks of one page and no other. */
    method SetEntry(i: int, j: int, w: Word)
      requires Valid() && 0 <= i < 1023 && 0 <= j < 1024 && Present(Entry(dir, i))
      modifies mem
      ensures Valid() && HasTable(i) && 0 <= TableFrame(i) < 0x10_0000 && Written(TableFrame(i), j, w)
      ensures forall k :: 0 <= k < 1024 ==> Entry(dir, k) == old(Entry(dir, k))
      ensures forall a: Word {:trigger Walk(a)} ::
        Walk(a) == if InPage(a, i, j) then Target(w, a) else old(Walk(a))
    {
      assert SlotOk(i);
      TablesApart(i, i);
      StoreTable(i, j, w);
      SetKeepsValid(i, j, w);
      forall a: Word ensures
        Walk(a) == if InPage(a, i, j) then Target(w, a) else old(Walk(a)) {
        SetWalk(i, j, w, a);
      }
    }

    /** The first half of map_page: see that slot `i` has a table. */
    method EnsureTable(i: int) returns (ok: bool)
      requires Valid() && 0 <= i < 1023
      modifies mem
      ensures Valid() && (ok <==> Present(Entry(dir, i)))
      ensures ok <==> old(Present(Entry(dir, i))) || i < FREE_TABLES
      ensures !ok ==> mem[..] == old(mem[..])
      ensures ok ==> Extended(i) && (if old(Present(Entry(dir, i))) then mem[..] == old(mem[..])
                                     else Written(dir, i, (freeTables + i) * 4096 + 7))
    {
      var pd := LoadDirectory(i);
      if Present(pd) {
        return true;
      }
      if i >= FREE_TABLES {
        return false;
      }
      Attach(i);
      ok := true;
    }

    /** Entry `j` of the table of slot `i` became `w`, the slot got its table if it had none, and no other entry of any
        frame changed. */
    twostate predicate Stored(new i: int, new j: int, new w: Word)
      requires Layout() && 0 <= i < 1023
      reads mem
    {
      forall f, k {:trigger Entry(f, k)} :: 0 <= f < 0x10_0000 && 0 <= k < 1024 ==>
        Entry(f, k) == if f == TableFrame(i) && k == j then w
                       else if f == dir && k == i && !old(Present(Entry(dir, i))) then (freeTables + i) * 4096 + 7
                       else old(Entry(f, k))
    }

    /** The directory and table accesses of map_page. */
    method MapEntry(i: int, j: int, w: Word) returns (ok: bool)
      requires Valid() && 0 <= i < 1023 && 0 <= j < 1024 && Present(w)
      modifies mem
      ensures Valid()
      ensures ok <==> old(Present(Entry(dir, i))) || i < FREE_TABLES
      ensures !ok ==> mem[..] == old(mem[..])
      ensures ok ==> HasTable(i) && 0 <= TableFrame(i) < 0x10_0000 && Stored(i, j, w)
      ensures ok ==> forall a: Word {:trigger Walk(a)} ::
        && (InPage(a, i, j) ==> Walk(a) == Some(Frame(w) * 4096 + a % 4096))
        && (!InPage(a, i, j) ==>
              Walk(a) == if !old(Present(Entry(dir, i))) && InPage(a, 1023, i)
                         then Some(TableFrame(i) * 4096 + a % 4096)
                         else old(Walk(a)))
    {
      ok := EnsureTable(i);
      if ok {
        assert SlotOk(i);
        TablesApart(i, i);
        SetEntry(i, j, w);
      }
    }

    /** map_page with free_page_tables; false where the source aborts. */
    method MapPage(p: Word, v: Word, flags: int) returns (ok: bool)
      requires Valid() && v < TABLE_WINDOW && 0 <= flags
      modifies mem
      ensures Valid()
      ensures ok <==> old(Present(Entry(dir, DirIndex(v)))) || DirIndex(v) < FREE_TABLES
      ensures !ok ==> mem[..] == old(mem[..])
      ensures ok ==>
        && HasTable(DirIndex(v)) && 0 <= TableFrame(DirIndex(v)) < 0x10_0000
        && Stored(DirIndex(v), TabIndex(v), Frame(p) * 4096 + EntryFlags(flags))
      ensures ok ==> forall a: Word {:trigger Walk(a)} ::
        && (SamePage(a, v) ==> Walk(a) == Some(Frame(p) * 4096 + a % 4096))
        && (!SamePage(a, v) ==>
              Walk(a) == if !old(Present(Entry(dir, DirIndex(v)))) && InPage(a, 1023, DirIndex(v))
                         then Some(TableFrame(DirIndex(v)) * 4096 + a % 4096)
                         else old(Walk(a)))
    {
      EntryFields(Frame(p), EntryFlags(flags));
      ok := MapEntry(DirIndex(v), TabIndex(v), Frame(p) * 4096 + EntryFlags(flags));
    }

    /** unmap_page */
    method UnmapPage(v: Word)
      requires Valid() && v < TABLE_WINDOW
      modifies mem
      ensures Valid()
      ensures forall a: Word {:trigger Walk(a)} :: Walk(a) == if SamePage(a, v) then None else old(Walk(a))
      ensures old(Walk(v)).None? ==> mem[..] == old(mem[..])
      ensures old(Walk(v)).Some? ==>
        && HasTable(DirIndex(v)) && 0 <= TableFrame(DirIndex(v)) < 0x10_0000
        && 0 < old(Entry(TableFrame(DirIndex(v)), TabIndex(v)))
        && Written(TableFrame(DirIndex(v)), TabIndex(v), old(Entry(TableFrame(DirIndex(v)), TabIndex(v))) - 1)
    {
      var i, j := DirIndex(v), TabIndex(v);
      var pd := LoadDirectory(i);
      if !Present(pd) {
        return;
      }
      var pt := LoadTable(i, j);
      if !Present(pt) {
        return;
      }
      assert SlotOk(i);
      TablesApart(i, i);
      ClearPresent(pt);
      SetEntry(i, j, pt - 1);
    }

    // ---------------------------------------------------------------- paging_initialize

    /** memset of whole frames to 0. */
    method ClearFrames(frame: int, n: int)
      requires Layout() && 0 <= frame && 0 <= n && frame + n <= 0x10_0000
      modifies mem
      ensures forall f, k {:trigger Entry(f, k)} :: 0 <= f < 0x10_0000 && 0 <= k < 1024 ==>
        Entry(f, k) == if frame <= f < frame + n then 0 else old(Entry(f, k))
    {
      var w := frame * 1024;
      while w < (frame + n) * 1024
        invariant frame * 1024 <= w <= (frame + n) * 1024
        invariant forall k :: 0 <= k < mem.Length ==> mem[k] == if frame * 1024 <= k < w then 0 else old(mem[k])
      {
        mem[w] := 0;
        w := w + 1;
      }
    }

    method SetWord(frame: int, i: int, w: Word)
      requires Layout() && 0 <= frame < 0x10_0000 && 0 <= i < 1024
      modifies mem
      ensures Written(frame, i, w)
    {
      mem[frame * 1024 + i] := w;
    }

    /** The first `n` kernel tables and `m` entries of the next map memory from 0 on, present and writable. */
    ghost predicate KernelMapped(n: int, m: int)
      requires Layout()
      reads mem
    {
      forall f, k {:trigger Entry(f, k)} ::
        && kernelTables <= f < kernelTables + KERNEL_TABLES && 0 <= k < 1024
        && 1024 * (f - kernelTables) + k < 1024 * n + m
        ==> Entry(f, k) == (1024 * (f - kernelTables) + k) * 4096 + 3
    }

    /** The directory with `n` kernel tables, and nothing else below slot 1023. */
    ghost predicate KernelAttached(n: int)
      requires Layout()
      reads mem
    {
      forall k {:trigger Entry(dir, k)} :: 0 <= k < 1023 ==>
        Entry(dir, k) == if KERNEL_SLOT <= k < KERNEL_SLOT + n then (kernelTables + (k - KERNEL_SLOT)) * 4096 + 3 else 0
    }

    /** Directory and tables as paging_initialize leaves them. */
    ghost predicate Booted()
      requires Layout()
      reads mem
    {
      && KernelMapped(KERNEL_TABLES, 0) && KernelAttached(KERNEL_TABLES) && Entry(dir, 1023) == dir * 4096 + 3
      && (forall f, k {:trigger Entry(f, k)} :: freeTables <= f < freeTables + FREE_TABLES && 0 <= k < 1024 ==>
            Entry(f, k) == 0)
    }

    /** paging_initialize, without loading CR3. */
    method Initialize()
      requires Layout()
      modifies mem
      ensures Booted()
    {
      ClearFrames(dir, 1);
      var current := 0;
      var i := 0;
      while i < KERNEL_TABLES
        invariant 0 <= i <= KERNEL_TABLES && current == 1024 * i
        invariant KernelAttached(i) && KernelMapped(i, 0)
      {
        var j := 0;
        while j < 1024
          invariant 0 <= j <= 1024 && current == 1024 * i + j
          invariant KernelAttached(i) && KernelMapped(i, j)
        {
          SetWord(kernelTables + i, j, current * 4096 + 3);
          j, current := j + 1, current + 1;
        }
        SetWord(dir, KERNEL_SLOT + i, (kernelTables + i) * 4096 + 3);
        i := i + 1;
      }
      ClearFrames(freeTables, FREE_TABLES);
      SetWord(dir, 1023, dir * 4096 + 3);
    }

    lemma BootedIsValid()
      requires Layout() && Booted()
      ensures Valid()
    {
      EntryFields(dir, 3);
      EntryFields(kernelTables, 3);
      EntryFields(kernelTables + 1, 3);
    }

    /** At boot the first 8 MiB of memory appear at KERNEL_ADDRESS, and nothing else is mapped below the windows. */
    lemma BootWalk(a: Word)
      requires Layout() && Booted() && a < TABLE_WINDOW
      ensures Walk(a) == if 0xC000_0000 <= a < 0xC080_0000 then Some(a - 0xC000_0000) else None
    {
      var i, j := DirIndex(a), TabIndex(a);
      BootSlot(a);
      var pde := Entry(dir, i);
      if KERNEL_SLOT <= i < KERNEL_SLOT + KERNEL_TABLES {
        var f, p := kernelTables + (i - KERNEL_SLOT), 1024 * (i - KERNEL_SLOT) + j;
        EntryFields(f, 3);
        EntryFields(p, 3);
        assert pde == f * 4096 + 3 && Entry(f, j) == p * 4096 + 3;
      } else {
        assert pde == 0;
      }
    }
  }

  /** The directory slots of the first 8 MiB from KERNEL_ADDRESS, and where their pages lie. */
  lemma BootSlot(a: Word)
    requires a < TABLE_WINDOW
    ensures var i, j := DirIndex(a), TabIndex(a);
      && 0 <= i < 1023 && 0 <= j < 1024
      && (KERNEL_SLOT <= i < KERNEL_SLOT + KERNEL_TABLES <==> KERNEL_ADDRESS <= a < KERNEL_ADDRESS + 0x80_0000)
      && a - KERNEL_ADDRESS == (1024 * (i - KERNEL_SLOT) + j) * 4096 + a % 4096
  {
    PageNumber(a, DirIndex(a), TabIndex(a));
  }
}
