/** From boot to the last page: paging_initialize, mmap_initialize and alloc_page together. */
module Boot {
  import opened Machine
  import M = MemoryMap
  import opened PageAllocator
  import opened Paging

  /** The frames from `frame` on, `n` in number, lie in the kernel image. */
  predicate InImage(frame: int, n: int, kernelStart: int, kernelEnd: int) {
    kernelStart <= 4096 * frame && 4096 * (frame + n) <= kernelEnd
  }

  /** page_directory, kernel_page_tables and free_page_tables are static data of the kernel. */
  predicate StaticTables(dir: int, kernelTables: int, freeTables: int, kernelStart: int, kernelEnd: int) {
    && InImage(dir, 1, kernelStart, kernelEnd)
    && InImage(kernelTables, KERNEL_TABLES, kernelStart, kernelEnd)
    && InImage(freeTables, FREE_TABLES, kernelStart, kernelEnd)
  }

  /** kernel_main up to the point where pages can be allocated. */
  method Start(dir: int, kernelTables: int, freeTables: int,
               hasMap: bool, mapBytes: nat, entries: seq<M.Entry>, kernelStart: int, kernelEnd: int)
    returns (a: Allocator?, ghost e: M.Entry)
    requires Mmu.Placed(dir, kernelTables, freeTables)
    requires |entries| == mapBytes / M.ENTRY_SIZE && forall e :: e in entries ==> e.WellFormed()
    requires 0 <= kernelStart <= kernelEnd < WORD_LIMIT
    ensures a == null <==> !hasMap || mapBytes == 0
    ensures a != null ==>
      && fresh(a) && fresh(a.bitmap) && fresh(a.mmu.mem) && a.Valid() && a.count == 0
      && a.mmu.dir == dir && a.mmu.kernelTables == kernelTables && a.mmu.freeTables == freeTables
      && M.Largest(entries, e) && e.WellFormed()
      && M.Trimmed(e, kernelStart, kernelEnd, a.freeMemory, a.freeLength)
  {
    var mmu := new Mmu(dir, kernelTables, freeTables);
    mmu.Initialize();
    var region := new M.FreeRegion();
    var ok;
    ok, e := region.Initialize(hasMap, mapBytes, entries, kernelStart, kernelEnd);
    if !ok {
      return null, e;
    }
    var start, q := M.TrimmedPages(e, kernelStart, kernelEnd, region.freeMemory, region.freeLength);
    a := new Allocator(mmu, region.freeMemory, region.freeLength);
  }

  /** Through any number of allocations within 4 GiB from an entry that reaches the start of its region: each byte
      the kernel can reach below its own half is a byte of that entry outside the kernel image, and two addresses
      never share one. */
  lemma AllocatedMemoryIsOurs(a: Allocator, e: M.Entry, kernelStart: int, kernelEnd: int, v: Word, w: Word)
    requires a.Valid() && e.WellFormed() && 0 <= kernelStart <= kernelEnd < WORD_LIMIT
    requires M.Trimmed(e, kernelStart, kernelEnd, a.freeMemory, a.freeLength)
    requires M.Reaches(e, kernelStart, kernelEnd) && a.InReach()
    requires v < KERNEL_ADDRESS && w < KERNEL_ADDRESS && a.mmu.Walk(v).Some? && a.mmu.Walk(w).Some?
    ensures a.mmu.Walk(v) == Some(a.freeMemory + v - 4096)
    ensures e.Base() <= a.mmu.Walk(v).value < e.End()
    ensures !(kernelStart <= a.mmu.Walk(v).value < kernelEnd)
    ensures v != w ==> a.mmu.Walk(v) != a.mmu.Walk(w)
  {
    M.TrimIsExact(e, kernelStart, kernelEnd, a.freeMemory, a.freeLength);
    M.ExactAvoidsKernel(e, kernelStart, kernelEnd, a.freeMemory, a.freeLength);
    assert a.mmu.Walk(v) == Translation(v, a.count, a.freeMemory);
    assert a.mmu.Walk(w) == Translation(w, a.count, a.freeMemory);
    a.PagesAreFreeMemory(v);
    a.PagesAreFreeMemory(w);
  }

  /** A region that ends by 4 GiB never runs out of reach. */
  lemma StaysInReach(a: Allocator, e: M.Entry, kernelStart: int, kernelEnd: int)
    requires a.Valid() && e.WellFormed() && 0 <= kernelStart <= kernelEnd < WORD_LIMIT
    requires M.Trimmed(e, kernelStart, kernelEnd, a.freeMemory, a.freeLength)
    requires M.Reaches(e, kernelStart, kernelEnd) && e.End() <= WORD_LIMIT
    ensures a.InReach()
  {
    M.TrimIsExact(e, kernelStart, kernelEnd, a.freeMemory, a.freeLength);
  }

  /** No such byte lies in the page directory or in a page table: what the kernel stores below its own half never
      changes a translation. */
  lemma TablesAreOutOfReach(a: Allocator, e: M.Entry, kernelStart: int, kernelEnd: int, v: Word, i: int)
    requires a.Valid() && e.WellFormed() && 0 <= kernelStart <= kernelEnd < WORD_LIMIT
    requires StaticTables(a.mmu.dir, a.mmu.kernelTables, a.mmu.freeTables, kernelStart, kernelEnd)
    requires M.Trimmed(e, kernelStart, kernelEnd, a.freeMemory, a.freeLength)
    requires M.Reaches(e, kernelStart, kernelEnd) && a.InReach()
    requires v < KERNEL_ADDRESS && a.mmu.Walk(v).Some?
    ensures a.mmu.Walk(v).value / 4096 != a.mmu.dir
    ensures a.mmu.HasTable(i) ==> a.mmu.Walk(v).value / 4096 != a.mmu.TableFrame(i)
  {
    AllocatedMemoryIsOurs(a, e, kernelStart, kernelEnd, v, v);
  }

  /** The kernel reaches a byte of entry `e` at `v`, outside its own image. */
  ghost predicate Ours(a: Allocator, e: M.Entry, kernelStart: int, kernelEnd: int, v: Word)
    requires a.mmu.Layout()
    reads a.mmu.mem
  {
    a.mmu.Walk(v).Some? ==>
      var p := a.mmu.Walk(v).value;
      e.Base() <= p < e.End() && !(kernelStart <= p < kernelEnd)
  }

  /** Boot, and up to `n` allocations of a page: the pages lie where they should, they end early only for lack of
      addresses or of memory, and from an entry that mmap_initialize handles, all of them are ours. */
  method StartAndAllocate(dir: int, kernelTables: int, freeTables: int, hasMap: bool, mapBytes: nat,
                          entries: seq<M.Entry>, kernelStart: int, kernelEnd: int, n: nat, flags: int)
    returns (a: Allocator?, ghost e: M.Entry, pages: seq<int>)
    requires Mmu.Placed(dir, kernelTables, freeTables) && 0 <= flags
    requires |entries| == mapBytes / M.ENTRY_SIZE && forall e :: e in entries ==> e.WellFormed()
    requires 0 <= kernelStart <= kernelEnd < WORD_LIMIT
    ensures a == null <==> !hasMap || mapBytes == 0
    ensures a != null ==>
      && a.Valid() && M.Largest(entries, e) && e.WellFormed()
      && M.Trimmed(e, kernelStart, kernelEnd, a.freeMemory, a.freeLength)
      && a.count == |pages| <= n && forall i :: 0 <= i < |pages| ==> pages[i] == PageAddress(i)
    ensures a != null && |pages| < n ==> |pages| == PAGES || PAGE * PageIndex(|pages|) >= a.freeLength
    ensures a != null && M.Reaches(e, kernelStart, kernelEnd) && e.End() <= WORD_LIMIT ==>
      forall v: Word :: v < KERNEL_ADDRESS ==> Ours(a, e, kernelStart, kernelEnd, v)
  {
    pages := [];
    a, e := Start(dir, kernelTables, freeTables, hasMap, mapBytes, entries, kernelStart, kernelEnd);
    if a == null {
      return;
    }
    pages := Allocate(a, n, flags);
    AllOurs(a, e, kernelStart, kernelEnd);
  }

  /** Its loop. */
  method Allocate(a: Allocator, n: nat, flags: int) returns (pages: seq<int>)
    requires a.Valid() && a.count == 0 && 0 <= flags
    modifies a, a.bitmap, a.mmu.mem
    ensures a.Valid() && a.count == |pages| <= n && forall i :: 0 <= i < |pages| ==> pages[i] == PageAddress(i)
    ensures |pages| < n ==> |pages| == PAGES || PAGE * PageIndex(|pages|) >= a.freeLength
  {
    pages := [];
    while |pages| < n
      invariant a.Valid() && a.count == |pages| <= n
      invariant forall i :: 0 <= i < |pages| ==> pages[i] == PageAddress(i)
    {
      var page := a.AllocPage(flags);
      if !page.Page? {
        return;
      }
      pages := pages + [page.address];
    }
  }

  lemma AllOurs(a: Allocator, e: M.Entry, kernelStart: int, kernelEnd: int)
    requires a.Valid() && e.WellFormed() && 0 <= kernelStart <= kernelEnd < WORD_LIMIT
    requires M.Trimmed(e, kernelStart, kernelEnd, a.freeMemory, a.freeLength)
    ensures M.Reaches(e, kernelStart, kernelEnd) && e.End() <= WORD_LIMIT ==>
      forall v: Word :: v < KERNEL_ADDRESS ==> Ours(a, e, kernelStart, kernelEnd, v)
  {
    if M.Reaches(e, kernelStart, kernelEnd) && e.End() <= WORD_LIMIT {
      StaysInReach(a, e, kernelStart, kernelEnd);
      forall v: Word | v < KERNEL_ADDRESS ensures Ours(a, e, kernelStart, kernelEnd, v) {
        if a.mmu.Walk(v).Some? {
          AllocatedMemoryIsOurs(a, e, kernelStart, kernelEnd, v, v);
        }
      }
    }
  }
}
