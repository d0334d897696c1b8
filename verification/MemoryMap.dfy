/** The choice of the free memory region (kernel/src/mmap.c). */
module MemoryMap {
  import opened Machine

  const WORD64_LIMIT := 0x1_0000_0000_0000_0000
  const AVAILABLE := 1
  const ENTRY_SIZE := 24

  /** multiboot_memory_map_t, without its size field. */
  datatype Entry = Entry(addrLow: int, addrHigh: int, lenLow: int, lenHigh: int, kind: int) {
    predicate WellFormed() {
      0 <= addrLow < WORD_LIMIT && 0 <= addrHigh < WORD_LIMIT && 0 <= lenLow < WORD_LIMIT && 0 <= lenHigh < WORD_LIMIT
    }

    function Length(): int {
      lenLow + lenHigh * WORD_LIMIT
    }

    /** Where the area really starts. The source reads the low half only. */
    function Base(): int {
      addrLow + addrHigh * WORD_LIMIT
    }

    function End(): int {
      Base() + Length()
    }
  }

  /** The halves of an entry's base and length are those of two 64-bit words. */
  lemma HalvesOfWords(e: Entry)
    requires e.WellFormed()
    ensures e.Length() % WORD_LIMIT == e.lenLow && e.Length() / WORD_LIMIT == e.lenHigh
    ensures e.Base() % WORD_LIMIT == e.addrLow && e.Base() / WORD_LIMIT == e.addrHigh
    ensures 0 <= e.Length() < WORD64_LIMIT && 0 <= e.Base() < WORD64_LIMIT
  {
  }

  const NOTHING := Entry(0, 0, 0, 0, AVAILABLE)

  /** `e` is the first largest available entry, or NOTHING if all are empty. */
  ghost predicate Largest(entries: seq<Entry>, e: Entry) {
    && (forall i :: 0 <= i < |entries| && entries[i].kind == AVAILABLE ==> entries[i].Length() <= e.Length())
    && (if e.Length() == 0 then e == NOTHING else exists i :: First(entries, i, e))
  }

  /** `e` is entry `i`, and the first available one of its length. */
  ghost predicate First(entries: seq<Entry>, i: int, e: Entry) {
    && 0 <= i < |entries| && entries[i] == e && e.kind == AVAILABLE
    && forall j :: 0 <= j < i && entries[j].kind == AVAILABLE ==> entries[j].Length() < e.Length()
  }

  function RoundUp(a: int): int {
    if a % PAGE == 0 then a else a + (PAGE - a % PAGE)
  }

  /** The test for an overlap with the kernel image, with the source's truncation of the end address. */
  predicate TestsOverlap(base: int, length: int, kernelStart: int, kernelEnd: int) {
    base < kernelEnd && (base + length) % WORD_LIMIT >= kernelStart
  }

  /** The page boundary at which the region should start. */
  function Start(base: int, length: int, kernelStart: int, kernelEnd: int): int {
    RoundUp(if TestsOverlap(base, length, kernelStart, kernelEnd) then kernelEnd else base)
  }

  /** What is left of entry `e`, in the source's 32- and 64-bit arithmetic. */
  ghost predicate Trimmed(e: Entry, kernelStart: int, kernelEnd: int, freeMemory: int, freeLength: int) {
    var start := Start(e.addrLow, e.Length(), kernelStart, kernelEnd);
    && freeMemory == start % WORD_LIMIT
    && freeLength == (e.Length() - (start - e.addrLow)) % WORD64_LIMIT / PAGE * PAGE
  }

  class FreeRegion {
    var freeMemory: int      // mmap_free_memory, 32 bits
    var freeLength: int      // mmap_free_memory_length, 64 bits

    constructor ()
      ensures freeMemory == 0 && freeLength == 0
    {
      freeMemory, freeLength := 0, 0;
    }

    /** mmap_initialize; false where the source aborts. */
    method Initialize(hasMap: bool, mapBytes: nat, entries: seq<Entry>, kernelStart: int, kernelEnd: int)
      returns (ok: bool, ghost e: Entry)
      requires freeMemory == 0 && freeLength == 0 && |entries| == mapBytes / ENTRY_SIZE
      requires forall e :: e in entries ==> e.WellFormed()
      requires 0 <= kernelStart <= kernelEnd < WORD_LIMIT
      modifies this
      ensures ok <==> hasMap && mapBytes != 0
      ensures ok ==> Largest(entries, e) && e.WellFormed() && Trimmed(e, kernelStart, kernelEnd, freeMemory, freeLength)
    {
      e := NOTHING;
      if !hasMap || mapBytes == 0 {
        ok := false;
        return;
      }
      e := Choose(entries);
      Trim(kernelStart, kernelEnd);
      ok := true;
    }

    /** The selection loop. */
    method Choose(entries: seq<Entry>) returns (ghost e: Entry)
      requires freeMemory == 0 && freeLength == 0 && forall e :: e in entries ==> e.WellFormed()
      modifies this
      ensures Largest(entries, e) && e.WellFormed() && freeMemory == e.addrLow && freeLength == e.Length()
    {
      e := NOTHING;
      var i := 0;
      while i < |entries|
        invariant 0 <= i <= |entries|
        invariant Largest(entries[..i], e) && e.WellFormed() && freeMemory == e.addrLow && freeLength == e.Length()
      {
        var entry := entries[i];
        assert entry in entries;
        if entry.kind == AVAILABLE && freeLength < entry.Length() {
          freeLength := entry.Length();
          freeMemory := entry.addrLow;
          e := entry;
          assert First(entries[..i + 1], i, e);
        } else if freeLength != 0 {
          ghost var k :| First(entries[..i], k, e);
          assert First(entries[..i + 1], k, e);
        }
        i := i + 1;
      }
      assert entries[..i] == entries;
    }

    /** Exclusion of the kernel, and alignment of both ends. */
    method Trim(kernelStart: int, kernelEnd: int)
      requires 0 <= freeMemory < WORD_LIMIT && 0 <= freeLength < WORD64_LIMIT
      requires 0 <= kernelStart <= kernelEnd < WORD_LIMIT
      modifies this
      ensures var start := Start(old(freeMemory), old(freeLength), kernelStart, kernelEnd);
        && freeMemory == start % WORD_LIMIT
        && freeLength == (old(freeLength) - (start - old(freeMemory))) % WORD64_LIMIT / PAGE * PAGE
    {
      ghost var base, length := freeMemory, freeLength;
      ExcludeKernel(kernelStart, kernelEnd);
      ghost var middle := freeMemory;
      AlignPages();
      SubtractTwice(length, middle - base, RoundUp(middle) - middle);
    }

    method ExcludeKernel(kernelStart: int, kernelEnd: int)
      requires 0 <= freeMemory < WORD_LIMIT && 0 <= freeLength < WORD64_LIMIT
      requires 0 <= kernelStart <= kernelEnd < WORD_LIMIT
      modifies this
      ensures freeMemory == if TestsOverlap(old(freeMemory), old(freeLength), kernelStart, kernelEnd) then kernelEnd
                            else old(freeMemory)
      ensures 0 <= freeMemory - old(freeMemory) < WORD_LIMIT
      ensures freeLength == (old(freeLength) - (freeMemory - old(freeMemory))) % WORD64_LIMIT
    {
      if TestsOverlap(freeMemory, freeLength, kernelStart, kernelEnd) {
        var previous := freeMemory;
        freeMemory := kernelEnd;
        freeLength := (freeLength - (freeMemory - previous)) % WORD64_LIMIT;
      }
    }

    method AlignPages()
      requires 0 <= freeMemory < WORD_LIMIT && 0 <= freeLength < WORD64_LIMIT
      modifies this
      ensures freeMemory == RoundUp(old(freeMemory)) % WORD_LIMIT
      ensures freeLength ==
        (old(freeLength) - (RoundUp(old(freeMemory)) - old(freeMemory))) % WORD64_LIMIT / PAGE * PAGE
    {
      var alignment := freeMemory % PAGE;
      if alignment != 0 {
        var previous := freeMemory;
        freeMemory := (freeMemory + (PAGE - alignment)) % WORD_LIMIT;
        WrapBack(previous, PAGE - alignment);
        freeLength := (freeLength - (freeMemory - previous) % WORD_LIMIT) % WORD64_LIMIT;
      }
      RoundDown(freeLength);
      freeLength := freeLength - freeLength % PAGE;
    }
  }

  lemma RoundDown(n: int)
    requires 0 <= n
    ensures n - n % PAGE == n / PAGE * PAGE
  {
  }

  /** Differences of wrapped addresses. */
  lemma WrapBack(a: int, d: int)
    requires 0 <= a < WORD_LIMIT && 0 <= d < WORD_LIMIT
    ensures ((a + d) % WORD_LIMIT - a) % WORD_LIMIT == d
  {
  }

  lemma SubtractTwice(n: int, c: int, d: int)
    requires 0 <= n < WORD64_LIMIT && 0 <= c < WORD_LIMIT && 0 <= d < WORD_LIMIT
    ensures ((n - c) % WORD64_LIMIT - d) % WORD64_LIMIT == (n - (c + d)) % WORD64_LIMIT
  {
    assert (n - c) % WORD64_LIMIT == if n >= c then n - c else n - c + WORD64_LIMIT;
  }

  // ------------------------------------------------------------------ what is promised of the result

  /** The pages from `a` to `b` lie in the entry, and behind the kernel image if that overlaps it. */
  predicate Candidate(e: Entry, kernelStart: int, kernelEnd: int, a: int, b: int) {
    && a % PAGE == 0 && b % PAGE == 0 && e.Base() <= a <= b <= e.End()
    && (e.Base() < kernelEnd && kernelStart <= e.End() ==> kernelEnd <= a)
  }

  /** The region is the largest page-aligned part of the entry, or of what lies behind the kernel in it. */
  ghost predicate Exact(e: Entry, kernelStart: int, kernelEnd: int, freeMemory: int, freeLength: int) {
    && Candidate(e, kernelStart, kernelEnd, freeMemory, freeMemory + freeLength)
    && forall a, b {:trigger Candidate(e, kernelStart, kernelEnd, a, b)} ::
         Candidate(e, kernelStart, kernelEnd, a, b) ==> freeMemory <= a && b <= freeMemory + freeLength
  }

  /** Such a region is free of the kernel. */
  lemma ExactAvoidsKernel(e: Entry, kernelStart: int, kernelEnd: int, freeMemory: int, freeLength: int)
    requires e.WellFormed() && kernelStart <= kernelEnd && Exact(e, kernelStart, kernelEnd, freeMemory, freeLength)
    ensures kernelEnd <= freeMemory || freeMemory + freeLength <= kernelStart
    ensures freeLength % PAGE == 0
  {
    var m, n := freeMemory / PAGE, (freeMemory + freeLength) / PAGE;
    assert freeLength == PAGE * (n - m);
  }

  /** The entry starts below 4 GiB, reaches the page boundary where the region should start, which lies below 4 GiB as
      well, and does not hide an overlap with the kernel by passing 4 GiB. */
  predicate Reaches(e: Entry, kernelStart: int, kernelEnd: int) {
    var start := Start(e.addrLow, e.Length(), kernelStart, kernelEnd);
    && e.addrHigh == 0 && start <= e.End() && start < WORD_LIMIT
    && (kernelEnd <= start || e.End() < WORD_LIMIT)
  }

  lemma RoundUpBounds(a: int)
    ensures a <= RoundUp(a) < a + PAGE && RoundUp(a) % PAGE == 0
  {
  }

  /** Rounding down. */
  lemma Floor(n: int) returns (q: int)
    requires 0 <= n
    ensures n / PAGE * PAGE == PAGE * q && PAGE * q <= n < PAGE * q + PAGE
  {
    q := n / PAGE;
  }

  lemma AlignedAbove(a: int, x: int)
    requires a % PAGE == 0 && x <= a
    ensures RoundUp(x) <= a
  {
    var q := a / PAGE;
    assert a == PAGE * q;
    if x % PAGE != 0 {
      assert x / PAGE < q;
    }
  }

  lemma StartBounds(base: int, length: int, kernelStart: int, kernelEnd: int)
    requires 0 <= base < WORD_LIMIT && 0 <= kernelStart <= kernelEnd < WORD_LIMIT
    ensures var start := Start(base, length, kernelStart, kernelEnd);
      base <= start <= WORD_LIMIT && start % PAGE == 0
  {
    var from := if TestsOverlap(base, length, kernelStart, kernelEnd) then kernelEnd else base;
    RoundUpBounds(from);
    AlignedAbove(WORD_LIMIT, from);
  }

  /** The 64-bit length, which wraps if the start lies beyond the end. */
  lemma LengthLeft(n: int, d: int)
    requires 0 <= n < WORD64_LIMIT && 0 <= d <= WORD_LIMIT
    ensures (n - d) % WORD64_LIMIT == if d <= n then n - d else n - d + WORD64_LIMIT
  {
  }

  lemma Remainders(start: int)
    requires 0 <= start <= WORD_LIMIT
    ensures start % WORD_LIMIT == if start == WORD_LIMIT then 0 else start
  {
  }

  /** The trimmed region without remainders: `q` pages, as many as fit. */
  lemma TrimmedPages(e: Entry, kernelStart: int, kernelEnd: int, freeMemory: int, freeLength: int)
    returns (start: int, q: int)
    requires e.WellFormed() && 0 <= kernelStart <= kernelEnd < WORD_LIMIT
    requires Trimmed(e, kernelStart, kernelEnd, freeMemory, freeLength)
    ensures start == Start(e.addrLow, e.Length(), kernelStart, kernelEnd) && start % PAGE == 0
    ensures e.addrLow <= start <= WORD_LIMIT && freeMemory == if start == WORD_LIMIT then 0 else start
    ensures freeLength == PAGE * q
    ensures var left := e.addrLow + e.Length() - start;
      PAGE * q <= (if left >= 0 then left else left + WORD64_LIMIT) < PAGE * q + PAGE
  {
    start := Start(e.addrLow, e.Length(), kernelStart, kernelEnd);
    StartBounds(e.addrLow, e.Length(), kernelStart, kernelEnd);
    LengthLeft(e.Length(), start - e.addrLow);
    Remainders(start);
    q := Floor((e.Length() - (start - e.addrLow)) % WORD64_LIMIT);
  }

  /** An entry that reaches the start of the region ... */
  lemma ReachingIsExact(e: Entry, kernelStart: int, kernelEnd: int, freeMemory: int, freeLength: int)
    requires e.WellFormed() && 0 <= kernelStart <= kernelEnd < WORD_LIMIT
    requires Trimmed(e, kernelStart, kernelEnd, freeMemory, freeLength) && Reaches(e, kernelStart, kernelEnd)
    ensures Exact(e, kernelStart, kernelEnd, freeMemory, freeLength)
  {
    var start, q := TrimmedPages(e, kernelStart, kernelEnd, freeMemory, freeLength);
    forall a, b | Candidate(e, kernelStart, kernelEnd, a, b) ensures start <= a && b <= start + PAGE * q {
      CandidateInside(e, kernelStart, kernelEnd, a, b, start, q);
    }
  }

  lemma CandidateInside(e: Entry, kernelStart: int, kernelEnd: int, a: int, b: int, start: int, q: int)
    requires e.WellFormed() && e.addrHigh == 0 && start == Start(e.addrLow, e.Length(), kernelStart, kernelEnd)
    requires start % PAGE == 0 && e.End() < start + PAGE * q + PAGE
    requires Candidate(e, kernelStart, kernelEnd, a, b)
    ensures start <= a && b <= start + PAGE * q
  {
    AlignedAbove(a, e.addrLow);
    if e.addrLow < kernelEnd && kernelStart <= e.End() {
      AlignedAbove(a, kernelEnd);
    }
    var m, n := start / PAGE, b / PAGE;
    assert start == PAGE * m && b == PAGE * n;
    assert n < m + q + 1;
  }

  /** ... and only such an entry is trimmed as it should be. */
  lemma OthersAreNot(e: Entry, kernelStart: int, kernelEnd: int, freeMemory: int, freeLength: int)
    requires e.WellFormed() && 0 <= kernelStart <= kernelEnd < WORD_LIMIT
    requires Trimmed(e, kernelStart, kernelEnd, freeMemory, freeLength) && !Reaches(e, kernelStart, kernelEnd)
    ensures !Exact(e, kernelStart, kernelEnd, freeMemory, freeLength)
  {
    var start, q := TrimmedPages(e, kernelStart, kernelEnd, freeMemory, freeLength);
    if e.addrHigh == 0 && start <= e.End() {
      if start == WORD_LIMIT {
        LastPageIsWrong(e, kernelStart, kernelEnd, freeLength);
      } else {
        var n := start / PAGE;
        assert start == PAGE * n;
        assert freeMemory + freeLength >= WORD_LIMIT;
      }
    }
  }

  /** A region that should start at 4 GiB starts at 0 instead. */
  lemma LastPageIsWrong(e: Entry, kernelStart: int, kernelEnd: int, freeLength: int)
    requires e.WellFormed() && e.addrHigh == 0 && 0 <= kernelStart <= kernelEnd < WORD_LIMIT
    requires Start(e.addrLow, e.Length(), kernelStart, kernelEnd) == WORD_LIMIT <= e.End()
    requires freeLength <= e.End() - WORD_LIMIT
    ensures !Exact(e, kernelStart, kernelEnd, 0, freeLength)
  {
    var q := Floor(e.End());
    var b := PAGE * q;
    assert Candidate(e, kernelStart, kernelEnd, WORD_LIMIT, b);
  }

  /** For every memory map entry: mmap_initialize leaves the largest page-aligned part of it, behind the kernel if the
      two overlap, exactly when the entry Reaches. */
  lemma TrimIsExact(e: Entry, kernelStart: int, kernelEnd: int, freeMemory: int, freeLength: int)
    requires e.WellFormed() && 0 <= kernelStart <= kernelEnd < WORD_LIMIT
    requires Trimmed(e, kernelStart, kernelEnd, freeMemory, freeLength)
    ensures Exact(e, kernelStart, kernelEnd, freeMemory, freeLength) <==> Reaches(e, kernelStart, kernelEnd)
  {
    if Reaches(e, kernelStart, kernelEnd) {
      ReachingIsExact(e, kernelStart, kernelEnd, freeMemory, freeLength);
    } else {
      OthersAreNot(e, kernelStart, kernelEnd, freeMemory, freeLength);
    }
  }

  /** Containment alone: unless the region would start at 4 GiB, it lies inside its entry exactly when the entry
      starts below 4 GiB and reaches the start of the region. */
  lemma StaysInsideIff(e: Entry, kernelStart: int, kernelEnd: int, freeMemory: int, freeLength: int)
    requires e.WellFormed() && 0 <= kernelStart <= kernelEnd < WORD_LIMIT
    requires Trimmed(e, kernelStart, kernelEnd, freeMemory, freeLength)
    requires Start(e.addrLow, e.Length(), kernelStart, kernelEnd) < WORD_LIMIT
    ensures e.Base() <= freeMemory && freeMemory + freeLength <= e.End() <==>
      e.addrHigh == 0 && Start(e.addrLow, e.Length(), kernelStart, kernelEnd) <= e.End()
  {
    var start, q := TrimmedPages(e, kernelStart, kernelEnd, freeMemory, freeLength);
  }

  /** An entry that ends inside the kernel image comes out with a length of nearly 2^64. */
  lemma RegionInsideKernelWraps() returns (e: Entry, kernelEnd: int)
    ensures e.WellFormed() && Largest([e], e) && e.addrHigh == 0 && e.End() < kernelEnd < WORD_LIMIT
    ensures Trimmed(e, 0, kernelEnd, kernelEnd, WORD64_LIMIT - 0x10_0000)
    ensures !Exact(e, 0, kernelEnd, kernelEnd, WORD64_LIMIT - 0x10_0000)
  {
    e, kernelEnd := Entry(0x10_0000, 0, 0x10_0000, 0, AVAILABLE), 0x30_0000;
    assert First([e], 0, e);
    assert Start(e.addrLow, e.Length(), 0, kernelEnd) == kernelEnd;
  }

  /** An entry of 1 GiB at 4 GiB: the region left lies a whole 4 GiB below it. */
  lemma UpperEntryIsMissed() returns (e: Entry, kernelEnd: int)
    ensures e.WellFormed() && Largest([e], e) && e.Base() == WORD_LIMIT && kernelEnd < e.addrLow + e.Length()
    ensures Trimmed(e, 0, kernelEnd, 0x31_0000, 0x3FCF_0000) && 0x31_0000 + 0x3FCF_0000 < e.Base()
    ensures !Exact(e, 0, kernelEnd, 0x31_0000, 0x3FCF_0000)
  {
    e, kernelEnd := Entry(0, 1, 0x4000_0000, 0, AVAILABLE), 0x31_0000;
    assert First([e], 0, e);
    assert Start(e.addrLow, e.Length(), 0, kernelEnd) == kernelEnd;
  }

  /** An entry that starts in the last page below 4 GiB: the region left starts at 0 instead of 4 GiB. */
  lemma LastPageWraps() returns (e: Entry, kernelEnd: int)
    ensures e.WellFormed() && Largest([e], e) && e.addrHigh == 0 && kernelEnd < e.addrLow
    ensures Start(e.addrLow, e.Length(), 0, kernelEnd) == WORD_LIMIT <= e.End()
    ensures Trimmed(e, 0, kernelEnd, 0, PAGE) && !Exact(e, 0, kernelEnd, 0, PAGE)
  {
    e, kernelEnd := Entry(0xFFFF_F800, 0, 0x2000, 0, AVAILABLE), 0x30_0000;
    assert First([e], 0, e);
    assert RoundUp(e.addrLow) == WORD_LIMIT;
  }

  /** An entry around the kernel whose end passes 4 GiB: the overlap goes unnoticed. */
  lemma OverlapIsMissed() returns (e: Entry, kernelStart: int, kernelEnd: int)
    ensures e.WellFormed() && Largest([e], e) && e.addrHigh == 0 && e.addrLow < kernelStart < kernelEnd < e.End()
    ensures Trimmed(e, kernelStart, kernelEnd, e.addrLow, e.Length())
    ensures !Exact(e, kernelStart, kernelEnd, e.addrLow, e.Length())
  {
    e, kernelStart, kernelEnd := Entry(0x10_0000, 0, 0xFFF8_0000, 0, AVAILABLE), 0x20_0000, 0x30_0000;
    assert First([e], 0, e);
    assert (e.addrLow + e.Length()) % WORD_LIMIT == 0x8_0000;
    assert Start(e.addrLow, e.Length(), kernelStart, kernelEnd) == e.addrLow;
  }
}
