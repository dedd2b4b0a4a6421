/** The two-level page tables and the frame allocator in place: the routines that
    build, copy, shrink and free address spaces over one pool of frames. */
module PageTable {
  import opened Words
  import opened PageCount
  import opened PageSpec
  import opened PageSteps

  const KERNBASE := 0x8000_0000
  const TWO_32 := 0x1_0000_0000

  datatype Outcome = Mapped | NoMemory | Remap

  /** PGROUNDUP, as a page number. */
  function Up(a: nat): (p: nat)
    ensures p * PGSIZE >= a && p * PGSIZE < a + PGSIZE
  {
    (a + PGSIZE - 1) / PGSIZE
  }

  /** Page f lies wholly between the two addresses. */
  predicate Inside(vstart: nat, vend: nat, f: nat) {
    vstart <= f * PGSIZE && (f + 1) * PGSIZE <= vend
  }

  /** The pages that size bytes at va touch. */
  function PagesOf(va: nat, size: nat): (n: nat)
    requires size > 0
    ensures n > 0 && va / PGSIZE + n - 1 == (va + size - 1) / PGSIZE
    ensures va + size <= TWO_32 ==> va / PGSIZE + n <= PAGES
  {
    (va + size - 1) / PGSIZE - va / PGSIZE + 1
  }

  // --- The kernel's part of every address space ------------------------------------------

  datatype KMap = KMap(virt: nat, physStart: nat, physEnd: nat, perm: nat)

  /** kmap; data is the address where the kernel's writable data begin. */
  function Kmap(data: nat): (m: seq<KMap>)
    requires DataOk(data)
    ensures |m| == 4
  {
    [ KMap(KERNBASE, 0, 0x10_0000, PTE_W),
      KMap(0x8010_0000, 0x10_0000, data - KERNBASE, 0),
      KMap(data, data - KERNBASE, 0xE00_0000, PTE_W),
      KMap(0xFE00_0000, 0xFE00_0000, 0, PTE_W) ]
  }

  predicate DataOk(data: nat) { 0x8010_0000 < data < KERNBASE + 0xE00_0000 && data % PGSIZE == 0 }

  /** What every process sees at kernel pages: physical memory from KERNBASE on, read
      only from KERNLINK to data, and the devices at their own addresses. */
  function KernelView(data: nat, q: nat): Word {
    if 0x8_0000 <= q < 0x8_E000 then Entry(q - 0x8_0000, if 0x8_0100 <= q < data / PGSIZE then 1 else 3)
    else if 0xF_E000 <= q < PAGES then Entry(q, 3)
    else 0
  }

  /** Directory d lets the kernel, and only the kernel, use all of physical memory: frame f
      is at KERNBASE + f pages, not writable where the kernel's text and constants are, and
      the devices are at their own addresses. */
  ghost predicate KernelOnly(mem: Memory, d: nat, data: nat) {
    && (forall q: nat {:trigger UserMayRead(mem, d, q)} :: q >= USER_PAGES ==> !UserMayRead(mem, d, q))
    && (forall f: nat {:trigger KernelReaches(mem, d, data, f)} :: f < TOP_FRAME ==> KernelReaches(mem, d, data, f))
    && forall q: nat {:trigger DeviceMapped(mem, d, q)} ::
         0xFE00_0000 <= q * PGSIZE < TWO_32 ==> DeviceMapped(mem, d, q)
  }

  predicate KernelReaches(mem: Memory, d: nat, data: nat, f: nat) {
    var w := View(mem, d, (KERNBASE + f * PGSIZE) / PGSIZE);
    Present(w) && Frame(w) == f && (Writable(w) <==> !(0x8010_0000 <= KERNBASE + f * PGSIZE < data))
  }

  predicate DeviceMapped(mem: Memory, d: nat, q: nat) {
    Present(View(mem, d, q)) && Writable(View(mem, d, q)) && Frame(View(mem, d, q)) == q
  }

  lemma {:induction false} KernelViewIsKernelOnly(s: Ram, d: nat, data: nat)
    requires Accounted(s.mem, s.owner) && IsDir(s.owner, d) && DataOk(data)
    requires forall q: nat :: q >= USER_PAGES ==> View(s.mem, d, q) == KernelView(data, q)
    ensures KernelOnly(s.mem, d, data)
  {
    hide Accounted;
    forall q: nat | q >= USER_PAGES
      ensures !UserMayRead(s.mem, d, q)
    {
      TablesPermit(s.mem, s.owner, d, q);
      FlagBits(KernelView(data, q));
    }
    forall f: nat | f < TOP_FRAME
      ensures KernelReaches(s.mem, d, data, f)
    {
      FlagBits(KernelView(data, 0x8_0000 + f));
    }
    forall q: nat | 0xFE00_0000 <= q * PGSIZE < TWO_32
      ensures DeviceMapped(s.mem, d, q)
    {
      FlagBits(KernelView(data, q));
    }
  }

  /** Page q is mapped by one of the first k entries of kmap. */
  predicate Covered(data: nat, k: nat, q: nat) {
    || (k > 0 && 0x8_0000 <= q < 0x8_0100)
    || (k > 1 && 0x8_0100 <= q < data / PGSIZE)
    || (k > 2 && data / PGSIZE <= q < 0x8_E000)
    || (k > 3 && 0xF_E000 <= q < PAGES)
  }

  ghost predicate KernelSoFar(s: Ram, d: nat, data: nat, k: nat) {
    forall q: nat :: View(s.mem, d, q) == if Covered(data, k, q) then KernelView(data, q) else 0
  }

  /** phys_end - phys_start in unsigned arithmetic. */
  function Extent(m: KMap): nat
    requires m.physStart < TWO_32
  {
    if m.physEnd >= m.physStart then m.physEnd - m.physStart else TWO_32 + m.physEnd - m.physStart
  }

  lemma {:induction false} KmapFits(data: nat, k: nat)
    requires DataOk(data) && k < 4
    ensures var m := Kmap(data)[k];
            && m.physStart < TWO_32 && Extent(m) > 0 && m.virt + Extent(m) <= TWO_32 && m.perm < PGSIZE
            && m.virt / PGSIZE >= USER_PAGES
            && m.physStart / PGSIZE + PagesOf(m.virt, Extent(m)) <= PAGES
  {
  }

  lemma {:induction false} KmapStep(s: Ram, s1: Ram, d: nat, data: nat, k: nat)
    requires DataOk(data) && k < 4 && KernelSoFar(s, d, data, k)
    ensures var m := Kmap(data)[k];
            && m.physStart < TWO_32 && Extent(m) > 0 && m.perm < PGSIZE
            && m.physStart / PGSIZE + PagesOf(m.virt, Extent(m)) <= PAGES
            && AbsentRange(s, d, m.virt / PGSIZE, PagesOf(m.virt, Extent(m)))
            && (MappedRange(s, s1, d, m.virt / PGSIZE, PagesOf(m.virt, Extent(m)), m.physStart / PGSIZE, m.perm) ==>
                  KernelSoFar(s1, d, data, k + 1))
  {
    var m := Kmap(data)[k];
    KmapFits(data, k);
    var first, n, pa, next := m.virt / PGSIZE, PagesOf(m.virt, Extent(m)), m.physStart / PGSIZE, k + 1;
    forall q: nat
      ensures first <= q < first + n <==> Covered(data, next, q) && !Covered(data, k, q)
      ensures first <= q < first + n ==> KernelView(data, q) == Entry(pa + (q - first), WithP(m.perm))
    {
    }
  }

  // --- The machine ------------------------------------------------------------------------

  const ZERO_PAGE: Content := Content(Filled(0), 6)

  lemma {:induction false} NewPages(s: Ram, s1: Ram, d: nat, lo: nat, pages: seq<Content>)
    requires Accounted(s1.mem, s1.owner) && IsDir(s1.owner, d) && GrowStep(s, s1, d, lo, pages)
    requires forall k :: 0 <= k < |pages| ==> pages[k] == ZERO_PAGE
    ensures forall p: nat :: lo <= p < lo + |pages| ==> NewPage(s1.mem, d, p)
  {
    forall p: nat | lo <= p < lo + |pages|
      ensures NewPage(s1.mem, d, p)
    {
      assert FilledAt(s, s1, d, lo, pages, p - lo) && lo + (p - lo) == p;
      FlagBits(View(s1.mem, d, p));
      TablesPermit(s1.mem, s1.owner, d, p);
    }
  }

  /** Page k of directory d, as copyuvm reads it. */
  function PageContent(s: Ram, d: nat, k: nat): Content {
    var w := View(s.mem, d, k);
    if Frame(w) in s.mem then Content(s.mem[Frame(w)], Flags(w)) else ZERO_PAGE
  }

  lemma {:induction false} AddedToFreeList(mem: Memory, owner: Owners, free: seq<nat>, head: nat, d: nat, i: nat,
                                           t: nat)
    requires FreeList(mem, owner, free, head) && IsDir(owner, d) && i < ENTRIES && t in owner && owner[t] == Other
             && t != 0
    ensures t < PAGES
    ensures FreeList(mem[t := Filled(0)][d := mem[d][i := Entry(t, 7)]], owner[t := Table(d, i)], free, head)
  {
    FreeListKept(mem, owner, free, head, t, Filled(0));
    var mem1 := mem[t := Filled(0)];
    FreeListKept(mem1, owner, free, head, d, mem1[d][i := Entry(t, 7)]);
    FreeListSame(mem1[d := mem1[d][i := Entry(t, 7)]], owner, owner[t := Table(d, i)], free, head);
  }

  predicate CopiedAt(s: Ram, s1: Ram, d: nat, c: nat, q: nat) {
    var w, v := View(s.mem, d, q), View(s1.mem, c, q);
    && Present(v) && Flags(v) == Flags(w) && Frame(v) != Frame(w)
    && Frame(w) in s.mem && Frame(v) in s1.mem && s1.mem[Frame(v)] == s.mem[Frame(w)]
  }

  /** The child c has the parent's first n pages, with their bytes and flags but in
      frames of its own, and the kernel's; the parent sees what it saw. */
  ghost predicate CopyStep(s: Ram, s1: Ram, d: nat, c: nat, data: nat, n: nat) {
    && (forall q: nat {:trigger CopiedAt(s, s1, d, c, q)} :: q < n ==> CopiedAt(s, s1, d, c, q))
    && (forall q: nat :: q >= n ==> View(s1.mem, c, q) == KernelView(data, q))
    && (forall q: nat :: View(s1.mem, d, q) == View(s.mem, d, q))
  }

  lemma {:induction false} ParentPage(s: Ram, s1: Ram, c: nat, d: nat, q: nat)
    requires Accounted(s.mem, s.owner) && BuiltStep(s, s1, c) && IsDir(s.owner, d) && q < USER_PAGES
             && View(s.mem, d, q) != 0
    ensures IsDir(s1.owner, d) && d != c
    ensures View(s1.mem, d, q) == View(s.mem, d, q) && Frame(View(s.mem, d, q)) in s1.mem
            && Frame(View(s.mem, d, q)) in s.mem
    ensures s.owner[Frame(View(s.mem, d, q))] == User(d, q)
    ensures PageContent(s1, d, q) == PageContent(s, d, q)
  {
    OthersSeeTheSame(s, s1, c, d);
    PageFrame(s, d, q);
    assert BuiltAt(s, s1, c, Frame(View(s.mem, d, q))) && BuiltAt(s, s1, c, d);
  }

  lemma {:induction false} WalkBuilt(s: Ram, s1: Ram, s2: Ram, d: nat)
    requires BuiltStep(s, s1, d) && WalkStep(s1, s2, d)
    ensures BuiltStep(s, s2, d)
  {
    forall f | f in s1.owner
      ensures s2.owner[f] == s1.owner[f] || (s1.owner[f] == Free && Family(s2.owner[f], d))
    {
      assert TableAddedAt(s1, s2, d, f);
    }
    BuiltOn(s, s1, s2, d);
  }

  lemma {:induction false} GrowBuilt(s: Ram, s1: Ram, s2: Ram, d: nat, lo: nat, pages: seq<Content>)
    requires BuiltStep(s, s1, d) && GrowStep(s1, s2, d, lo, pages)
    ensures BuiltStep(s, s2, d)
  {
    forall f | f in s1.owner
      ensures s2.owner[f] == s1.owner[f] || (s1.owner[f] == Free && Family(s2.owner[f], d))
    {
      assert GrownAt(s1, s2, d, lo, lo + |pages|, f);
    }
    BuiltOn(s, s1, s2, d);
  }

  lemma {:induction false} KernelBuilt(s: Ram, s1: Ram, s2: Ram, d: nat, first: nat, n: nat, pa: nat, perm: nat)
    requires BuiltStep(s, s1, d) && first >= USER_PAGES && pa + n <= PAGES && perm < PGSIZE
    requires MapStep(s1, s2, d, first, n, pa, perm)
    ensures BuiltStep(s, s2, d)
  {
    forall f | f in s1.owner
      ensures s2.owner[f] == s1.owner[f] || (s1.owner[f] == Free && Family(s2.owner[f], d))
    {
      assert ChargedAt(s1, s2, d, first, n, pa, f);
    }
    BuiltOn(s, s1, s2, d);
  }

  lemma {:induction false} AllUnmapped(s: Ram, s1: Ram, d: nat)
    requires Accounted(s.mem, s.owner) && UnmapStep(s, s1, d, 0, USER_PAGES)
    ensures forall f :: f in s1.owner && s1.owner[f].User? ==> s1.owner[f].dir != d
  {
    forall f | f in s1.owner && s1.owner[f].User?
      ensures s1.owner[f].dir != d
    {
      assert ReleasedAt(s, s1, d, 0, USER_PAGES, f) && FrameOk(s.mem, s.owner, f);
    }
  }

  lemma {:induction false} NothingRestored(s: Ram)
    requires s.mem.Keys == s.owner.Keys
    ensures Restored(s, s)
  {
  }

  lemma {:induction false} CopyDone(s: Ram, s1: Ram, s2: Ram, d: nat, c: nat, data: nat, pages: seq<Content>)
    requires Accounted(s.mem, s.owner) && IsDir(s.owner, d) && |pages| <= USER_PAGES
    requires BuiltStep(s, s1, c) && BuiltStep(s, s2, c) && GrowStep(s1, s2, c, 0, pages)
    requires forall q: nat :: View(s1.mem, c, q) == KernelView(data, q)
    requires forall q: nat :: q < |pages| ==> View(s.mem, d, q) != 0
    requires forall k :: 0 <= k < |pages| ==> pages[k] == PageContent(s, d, k)
    ensures IsDir(s2.owner, d) && CopyStep(s, s2, d, c, data, |pages|)
  {
    OthersSeeTheSame(s, s2, c, d);
    forall q: nat | q < |pages|
      ensures CopiedAt(s, s2, d, c, q)
    {
      ParentPage(s, s1, c, d, q);
      assert FilledAt(s1, s2, c, 0, pages, q) && 0 + q == q;
      assert BuiltAt(s, s1, c, Frame(View(s.mem, d, q)));
    }
  }

  lemma {:induction false} SamePermissions(s: Ram, s1: Ram, d: nat, c: nat, data: nat, n: nat)
    requires Accounted(s.mem, s.owner) && IsDir(s.owner, d) && Accounted(s1.mem, s1.owner) && IsDir(s1.owner, c)
    requires CopyStep(s, s1, d, c, data, n) && n <= USER_PAGES && DataOk(data)
    ensures KernelOnly(s1.mem, c, data)
    ensures forall q: nat :: q < n ==>
              && UserMayRead(s1.mem, c, q) == UserMayRead(s.mem, d, q)
              && UserMayWrite(s1.mem, c, q) == UserMayWrite(s.mem, d, q)
  {
    hide Accounted, KernelOnly, UserMayRead, UserMayWrite;
    KernelViewIsKernelOnly(s1, c, data);
    forall q: nat | q < n
      ensures UserMayRead(s1.mem, c, q) == UserMayRead(s.mem, d, q)
      ensures UserMayWrite(s1.mem, c, q) == UserMayWrite(s.mem, d, q)
    {
      TablesPermit(s.mem, s.owner, d, q);
      TablesPermit(s1.mem, s1.owner, c, q);
      assert CopiedAt(s, s1, d, c, q);
      SameBits(View(s1.mem, c, q), View(s.mem, d, q));
    }
  }

  // --- The kernel's tables ------------------------------------------------------------------

  /** 56 for the memory from KERNBASE on, and 8 for the devices. */
  const KERNEL_TABLES := 64

  function KernelTables(): set<nat> {
    set i: nat | i < ENTRIES && KernelEntry(i)
  }

  predicate KernelEntry(i: nat) { 512 <= i < 568 || 1016 <= i }

  function Interval(lo: nat, hi: nat): (r: set<nat>)
    requires lo <= hi
    ensures |r| == hi - lo && forall i :: i in r <==> lo <= i < hi
    decreases hi
  {
    if lo == hi then {} else Interval(lo, hi - 1) + {hi - 1}
  }

  lemma {:induction false} KernelTablesCounted()
    ensures |KernelTables()| == KERNEL_TABLES
  {
    assert KernelTables() == Interval(512, 568) + Interval(1016, 1024);
  }

  /** The entries of the first k regions of kmap. */
  function RegionTables(data: nat, k: nat): set<nat>
    requires DataOk(data) && k <= 4
  {
    if k == 0 then {}
    else
      var m := Kmap(data)[k - 1];
      RegionTables(data, k - 1) + if 0 < Extent(m)
          then Indices(m.virt / PGSIZE, m.virt / PGSIZE + PagesOf(m.virt, Extent(m))) else {}
  }

  lemma {:induction false} RegionsAreKernel(data: nat, k: nat)
    requires DataOk(data) && k <= 4
    ensures RegionTables(data, k) <= KernelTables()
    ensures k == 4 ==> RegionTables(data, k) == KernelTables()
    decreases k
  {
    if k > 0 {
      RegionsAreKernel(data, k - 1);
      KmapFits(data, k - 1);
      if k == 4 {
        assert Kmap(data)[0].virt == KERNBASE;
        RegionsAreMemory(data);
      }
    }
  }

  lemma {:induction false} RegionsAreMemory(data: nat)
    requires DataOk(data)
    ensures forall i: nat :: 512 <= i < 568 ==> i in RegionTables(data, 3)
  {
    var m0, m1, m2 := Kmap(data)[0], Kmap(data)[1], Kmap(data)[2];
    assert RegionTables(data, 1) == Indices(m0.virt / PGSIZE, m0.virt / PGSIZE + PagesOf(m0.virt, Extent(m0)));
    assert RegionTables(data, 2)
           == RegionTables(data, 1) + Indices(m1.virt / PGSIZE, m1.virt / PGSIZE + PagesOf(m1.virt, Extent(m1)));
    assert RegionTables(data, 3)
           == RegionTables(data, 2) + Indices(m2.virt / PGSIZE, m2.virt / PGSIZE + PagesOf(m2.virt, Extent(m2)));
  }

  /** A table is missing when region k is half mapped: some of the kernel's 64 are not there yet. */
  lemma {:induction false} KernelLacking(data: nat, k: nat, n: nat, tables: set<nat>)
    requires DataOk(data) && k < 4
    requires var m := Kmap(data)[k];
             && 0 < Extent(m) && n < PagesOf(m.virt, Extent(m)) && m.virt / PGSIZE + PagesOf(m.virt, Extent(m)) <= PAGES
             && tables == RegionTables(data, k) + Indices(m.virt / PGSIZE, m.virt / PGSIZE + n)
             && Hi(m.virt / PGSIZE + n) !in tables
    ensures |tables| < KERNEL_TABLES
  {
    var first, count := Kmap(data)[k].virt / PGSIZE, PagesOf(Kmap(data)[k].virt, Extent(Kmap(data)[k]));
    hide Indices, KernelTables, Kmap, Extent, PagesOf;
    RegionsAreKernel(data, k + 1);
    IndicesStep(first, first + n);
    IndicesMore(first, first + n + 1, first + count);
    KernelTablesCounted();
    OneMissing(tables, Hi(first + n), KernelTables());
  }

  lemma {:induction false} OneMissing(a: set<nat>, i: nat, b: set<nat>)
    requires i !in a && a <= b && i in b
    ensures |a| < |b|
  {
    SubsetSize(a + {i}, b);
  }

  lemma {:induction false} SubsetSize(a: set<nat>, b: set<nat>)
    requires a <= b
    ensures |a| <= |b|
  {
    assert b == a + (b - a);
  }

  /** The frames that a child with n pages takes: its directory, the kernel's tables, the
      pages, and a table for every 1024 of them. */
  function CopyNeed(n: nat): nat {
    1 + KERNEL_TABLES + n + (n + ENTRIES - 1) / ENTRIES
  }

  lemma {:induction false} CopyNeedGrows(n: nat, m: nat)
    requires n <= m
    ensures CopyNeed(0) == 1 + KERNEL_TABLES && CopyNeed(n) <= CopyNeed(m)
  {
  }

  /** The child's next page is absent. */
  lemma {:induction false} KernelAbsent(s: Ram, s1: Ram, c: nat, data: nat, pages: seq<Content>)
    requires GrowStep(s, s1, c, 0, pages) && |pages| < USER_PAGES
    requires forall q: nat :: View(s.mem, c, q) == KernelView(data, q)
    ensures View(s1.mem, c, |pages|) == 0
  {
    assert View(s1.mem, c, |pages|) == View(s.mem, c, |pages|);
  }

  /** What a child has cost when i of its pages are copied, and whether the next needs a table. */
  lemma {:induction false} CopyCost(tables: set<nat>, i: nat)
    requires i < USER_PAGES && tables == KernelTables() + Indices(0, i)
    ensures |tables| + 1 + i == CopyNeed(i)
    ensures CopyNeed(i + 1) == CopyNeed(i) + if Hi(i) in tables then 1 else 2
    ensures Hi(i) in tables <==> i % ENTRIES != 0
    ensures Indices(0, i + 1) == Indices(0, i) + {Hi(i)}
  {
    KernelTablesCounted();
    IndicesStep(0, i);
    assert Indices(0, i) == Interval(0, (i + ENTRIES - 1) / ENTRIES);
    assert KernelTables() * Indices(0, i) == {};
  }

  /** A walk changes neither the view of a page nor the use of a frame in hand. */
  lemma {:induction false} WalkChanges(s: Ram, s1: Ram, d: nat, p: nat, f: nat)
    requires WalkStep(s, s1, d)
    ensures View(s1.mem, d, p) == View(s.mem, d, p)
    ensures f in s.owner && s.owner[f] == Other ==> f in s1.owner && s1.owner[f] == Other
  {
    assert f in s.owner ==> TableAddedAt(s, s1, d, f);
  }

  lemma {:induction false} WalkChangesNoView(s: Ram, s1: Ram, d: nat)
    requires WalkStep(s, s1, d)
    ensures forall q: nat :: View(s1.mem, d, q) == View(s.mem, d, q)
  {
  }

  lemma {:induction false} FirstTwoPages(page: Page)
    requires 0 !in Tables(page)
    ensures Need(page, 0, 0) == 0 && Need(page, 0, 1) == 2 && Need(page, 0, 2) == 3 && |Lacking(page, 0, 1)| == 1
  {
    hide Tables;
    assert Lacking(page, 0, 0) == {} && Lacking(page, 0, 1) == {0} && Lacking(page, 0, 2) == {0};
  }

  /** Without a table, two pages take three frames, and two do for the first. */
  lemma {:induction false} TwoPagesNeed(page: Page, n: nat, after: int)
    requires Tables(page) == KernelTables()
    ensures Need(page, 0, 2) == 3
    ensures RanOut(page, 0, 2, n, 2, after) ==> after == 1
  {
    hide Tables, KernelTables, Need, Lacking, FirstLacking;
    KernelFrom512(0);
    FirstTwoPages(page);
    if RanOut(page, 0, 2, n, 2, after) {
      assert n == 0 || n == 1;
    }
  }

  lemma {:induction false} KernelFrom512(i: nat)
    requires i < 512
    ensures i !in KernelTables()
  {
  }

  lemma {:induction false} KernelHigh(s: Ram, d: nat, data: nat)
    requires DataOk(data) && forall q: nat :: View(s.mem, d, q) == KernelView(data, q)
    ensures forall q: nat :: q < USER_PAGES ==> View(s.mem, d, q) == 0
    ensures AbsentRange(s, d, 0, 2)
  {
  }

  lemma {:induction false} MapStepRange(s: Ram, s1: Ram, d: nat, first: nat, n: nat, pa: nat, perm: nat)
    requires pa + n <= PAGES && perm < PGSIZE && MapStep(s, s1, d, first, n, pa, perm)
    ensures MappedRange(s, s1, d, first, n, pa, perm)
  {
  }

  lemma {:induction false} KernelStart(s: Ram, d: nat, data: nat)
    requires DataOk(data) && forall q: nat :: View(s.mem, d, q) == 0
    ensures KernelSoFar(s, d, data, 0) && RegionTables(data, 0) == {}
  {
  }

  lemma {:induction false} KernelDone(s: Ram, d: nat, data: nat)
    requires DataOk(data) && KernelSoFar(s, d, data, 4)
    ensures forall q: nat :: View(s.mem, d, q) == KernelView(data, q)
  {
  }

  lemma {:induction false} NextAbsent(s: Ram, s1: Ram, d: nat, lo: nat, pages: seq<Content>, n: nat)
    requires GrowStep(s, s1, d, lo, pages) && AbsentRange(s, d, lo, n) && |pages| < n
    ensures View(s1.mem, d, lo + |pages|) == 0
  {
  }

  lemma {:induction false} RestoredDir(s: Ram, s1: Ram, d: nat)
    requires Restored(s, s1) && IsDir(s.owner, d)
    ensures IsDir(s1.owner, d)
  {
    assert RestoredAt(s, s1, d);
  }

  lemma {:induction false} BuiltDir(s: Ram, s1: Ram, d: nat)
    requires BuiltStep(s, s1, d)
    ensures IsDir(s1.owner, d) && d in s1.mem
  {
  }

  class Machine {
    /** The address of the kernel's writable data. */
    const data: nat
    var mem: Memory
    /** Head of the list of free frames; 0 is the null pointer. */
    var freelist: nat
    ghost var owner: Owners
    ghost var free: seq<nat>

    ghost predicate Valid()
      reads this
    {
      Inv(mem, owner, free, freelist) && DataOk(data)
    }

    ghost function Now(): Ram
      reads this
    {
      Ram(mem, owner)
    }

    /** The free frames together with the tables of d. */
    ghost function Held(d: nat): nat
      requires d in mem
      reads this
    {
      |free| + |Tables(mem[d])|
    }

    /** All frames from the end of the kernel to PHYSTOP, none of them free yet. */
    constructor (frames: Memory, data: nat)
      requires DataOk(data) && forall f :: f in frames ==> 0 < f < TOP_FRAME
      ensures Valid() && free == [] && mem == frames && forall f :: f in owner ==> owner[f] == Other
    {
      this.data := data;
      mem, freelist, free := frames, 0, [];
      owner := map f | f in frames :: Other;
    }

    /** Frames that a page table still points to may be passed as well, so only the
        free list is asked to be in order; the whole is, if nothing pointed to f. */
    method Kfree(f: nat)
      requires FreeList(mem, owner, free, freelist) && f in owner && owner[f] != Free
      modifies this
      ensures FreeList(mem, owner, free, freelist) && old(freelist) < TOP_FRAME
      ensures owner == old(owner)[f := Free] && mem == old(mem)[f := Junk(old(freelist))]
      // Whoever still points to the frame reads ones, behind the link to the next free one.
      ensures f in mem && mem[f][0] == old(freelist) && forall i :: 0 < i < ENTRIES ==> mem[f][i] == 0x0101_0101
      ensures free == [f] + old(free) && freelist == f
      ensures old(Valid()) && old(owner)[f] == Other ==> Valid()
      ensures forall d, p: nat ::
                old(Valid()) && old(owner)[f] == Other && IsDir(owner, d) ==> Pte(mem, d, p) == Pte(old(mem), d, p)
    {
      KfreeKeeps(mem, owner, free, freelist, f);
      if Accounted(mem, owner) && owner[f] == Other {
        OtherWritten(mem, owner, f, Junk(freelist), Free);
      }
      var junk := Filled(0x0101_0101);
      mem := mem[f := junk];
      mem := mem[f := mem[f][0 := freelist]];
      assert mem == old(mem)[f := Junk(freelist)];
      owner, free := owner[f := Free], [f] + free;
      freelist := f;
    }

    method Kalloc() returns (f: nat)
      requires Valid()
      modifies this
      ensures Valid() && mem == old(mem)
      ensures f == 0 <==> old(free) == []
      ensures f == 0 ==> owner == old(owner) && free == []
      ensures f != 0 ==>
                && f in owner && old(owner)[f] == Free && owner == old(owner)[f := Other]
                && |free| == |old(free)| - 1
    {
      f := freelist;
      if f != 0 {
        KallocKeeps(mem, owner, free, freelist);
        KallocAccounted(mem, owner, f);
        freelist := mem[f][0];
        owner, free := owner[f := Other], free[1..];
      } else {
        assert free != [] ==> free[0] in free;
      }
    }

    /** Frees every page that lies wholly between two addresses. */
    method Freerange(vstart: nat, vend: nat)
      requires Valid()
      requires forall f :: Inside(vstart, vend, f) ==> f in owner && owner[f] == Other
      modifies this
      ensures Valid() && owner.Keys == old(owner).Keys
      ensures forall f :: f in owner ==> owner[f] == if Inside(vstart, vend, f) then Free else old(owner)[f]
    {
      hide FrameOk, FreeLinks, FreeOk, Pte;
      var p := Up(vstart) * PGSIZE;
      ghost var lo, k := Up(vstart), Up(vstart);
      while p + PGSIZE <= vend
        invariant p == k * PGSIZE && lo == Up(vstart) <= k
        invariant k > lo ==> p <= vend
        invariant Valid() && owner.Keys == old(owner).Keys
        invariant forall f :: f in owner ==> owner[f] == if lo <= f < k then Free else old(owner)[f]
      {
        assert Inside(vstart, vend, k);
        Kfree(p / PGSIZE);
        p := p + PGSIZE;
        k := k + 1;
      }
      forall f: nat
        ensures Inside(vstart, vend, f) <==> lo <= f < k
      {
      }
    }

    /** A frame just allocated is filled. */
    method Fill(f: nat, words: Page)
      requires Valid() && f in owner && owner[f] == Other
      modifies this`mem
      ensures Valid() && mem == old(mem)[f := words]
      ensures forall d, p: nat :: IsDir(owner, d) ==> Pte(mem, d, p) == Pte(old(mem), d, p)
    {
      OtherWritten(mem, owner, f, words, Other);
      FreeListKept(mem, owner, free, freelist, f, words);
      mem := mem[f := words];
      assert owner[f := Other] == owner;
    }

    /** The table that holds page p's entry, 0 if there is none and none can be made. */
    method Walkpgdir(d: nat, p: nat, alloc: bool) returns (t: nat)
      requires Valid() && IsDir(owner, d) && p < PAGES
      modifies this
      ensures Valid() && IsDir(owner, d) && WalkStep(old(Now()), Now(), d)
      ensures t != 0 ==> Present(mem[d][Hi(p)]) && Frame(mem[d][Hi(p)]) == t && t in mem
      ensures t == 0 <==> !Present(old(mem)[d][Hi(p)]) && (!alloc || old(free) == [])
      ensures t == 0 || !alloc ==> Now() == old(Now()) && free == old(free)
      ensures t == 0 && alloc ==> free == []
      ensures Held(d) == old(Held(d))
      ensures Tables(mem[d]) == old(Tables(mem[d])) + if t == 0 then {} else {Hi(p)}
    {
      if Present(mem[d][Hi(p)]) {
        TableOf(mem, owner, d, p);
        t := Frame(mem[d][Hi(p)]);
      } else {
        if !alloc {
          return 0;
        }
        t := Kalloc();
        if t == 0 {
          return 0;
        }
        TableAdded(mem, owner, d, Hi(p), t);
        TableFilled(mem[d], Hi(p), Entry(t, 7));
        AddedToFreeList(mem, owner, free, freelist, d, Hi(p), t);
        mem := mem[t := Filled(0)];
        mem := mem[d := mem[d][Hi(p) := Entry(t, 7)]];
        owner := owner[t := Table(d, Hi(p))];
      }
    }

    /** Writes an absent entry, in table t. */
    method SetEntry(d: nat, p: nat, t: nat, f: nat, perm: nat)
      requires Valid() && IsDir(owner, d) && p < PAGES && f < PAGES && perm < PGSIZE
      requires Present(mem[d][Hi(p)]) && Frame(mem[d][Hi(p)]) == t && !Present(Pte(mem, d, p))
      requires p < USER_PAGES ==> f in owner && owner[f] == Other
      modifies this
      ensures Valid() && IsDir(owner, d) && MapStep(old(Now()), Now(), d, p, 1, f, perm)
      ensures free == old(free) && mem[d] == old(mem)[d]
    {
      TableOf(mem, owner, d, p);
      PageMapped(Now(), free, freelist, d, p, f, perm);
      mem := mem[t := mem[t][Lo(p) := Entry(f, WithP(perm))]];
      owner := if p < USER_PAGES then owner[f := User(d, p)] else owner;
    }

    /** Sets the entry of page p, through walkpgdir. */
    method MapPage(d: nat, p: nat, f: nat, perm: nat) returns (r: Outcome)
      requires Valid() && IsDir(owner, d) && p < PAGES && f < PAGES && perm < PGSIZE
      requires p < USER_PAGES ==> f in owner && owner[f] == Other
      modifies this
      ensures Valid() && IsDir(owner, d)
      ensures MapStep(old(Now()), Now(), d, p, if r == Mapped then 1 else 0, f, perm)
      ensures r == NoMemory <==> Hi(p) !in old(Tables(mem[d])) && old(free) == []
      ensures r == NoMemory ==> Now() == old(Now()) && free == []
      ensures Held(d) == old(Held(d))
      ensures Tables(mem[d]) == old(Tables(mem[d])) + if r == Mapped then {Hi(p)} else {}
      ensures r == Remap ==> View(old(mem), d, p) != 0
    {
      hide FrameOk, FreeLinks, FreeOk, WalkStep, MapStep;
      var t := Walkpgdir(d, p, true);
      WalkIsStep(old(Now()), Now(), d, p, f, perm);
      WalkChanges(old(Now()), Now(), d, p, f);
      if t == 0 {
        return NoMemory;
      }
      TableOf(mem, owner, d, p);
      if Present(mem[t][Lo(p)]) {
        assert View(mem, d, p) == View(old(mem), d, p);
        assert Hi(p) in old(Tables(mem[d]));
        return Remap;
      }
      ghost var s1 := Now();
      SetEntry(d, p, t, f, perm);
      MapStepsJoin(old(Now()), s1, Now(), d, p, 0, 1, f, perm);
      return Mapped;
    }

    /** mappages' loop over the pages first .. last. */
    method MapPages(d: nat, first: nat, last: nat, pa: nat, perm: nat) returns (r: Outcome, ghost n: nat)
      requires Valid() && IsDir(owner, d) && first <= last < PAGES && perm < PGSIZE
      requires pa + (last - first) < PAGES && Mappable(Now(), first, last - first + 1, pa)
      modifies this
      ensures Valid() && IsDir(owner, d) && n <= last - first + 1
      ensures MapStep(old(Now()), Now(), d, first, n, pa, perm)
      ensures r == Mapped <==> n == last - first + 1
      ensures r == NoMemory ==> free == [] && Hi(first + n) !in Tables(mem[d])
      ensures Held(d) == old(Held(d)) && Tables(mem[d]) == old(Tables(mem[d])) + Indices(first, first + n)
      ensures r == Remap ==> !AbsentRange(old(Now()), d, first, last - first + 1)
    {
      hide Accounted, FreeLinks, FreeOk, MapStep, Mappable, AbsentRange, Tables, Indices;
      var a, f := first, pa;
      r, n := Mapped, 0;
      ghost var s, count := Now(), last - first + 1;
      ghost var held, tables := Held(d), Tables(mem[d]);
      NothingMapped(s, d, first, pa, perm);
      NothingNeeded(mem[d], first);
      while a <= last
        invariant Valid() && IsDir(owner, d) && a <= last + 1
        invariant r == Mapped && n == a - first && f == pa + n
        invariant MapStep(s, Now(), d, first, n, pa, perm)
        invariant Held(d) == held && Tables(mem[d]) == tables + Indices(first, a)
        decreases last - a
      {
        r := MapNext(d, a, f, perm, s, first, n, count);
        if r != Mapped {
          return;
        }
        IndicesStep(first, a);
        assert (tables + Indices(first, a)) + {Hi(a)} == tables + Indices(first, a + 1);
        a, f, n := a + 1, f + 1, n + 1;
      }
    }

    /** One turn of mappages' loop, which began at page first in state s. */
    method MapNext(d: nat, a: nat, f: nat, perm: nat, ghost s: Ram, ghost first: nat, ghost n: nat, ghost count: nat)
      returns (r: Outcome)
      requires Valid() && IsDir(owner, d) && n < count && perm < PGSIZE && n <= f && f - n + count <= PAGES
      requires a == first + n < PAGES && Mappable(s, first, count, f - n) && MapStep(s, Now(), d, first, n, f - n, perm)
      modifies this
      ensures Valid() && IsDir(owner, d)
      ensures MapStep(s, Now(), d, first, if r == Mapped then n + 1 else n, f - n, perm)
      ensures r == NoMemory ==> free == [] && Hi(a) !in Tables(mem[d])
      ensures Held(d) == old(Held(d)) && Tables(mem[d]) == old(Tables(mem[d])) + if r == Mapped then {Hi(a)} else {}
      ensures r == Remap ==> !AbsentRange(s, d, first, count)
    {
      hide Accounted, FreeLinks, FreeOk, MapStep, Mappable, AbsentRange, Tables;
      ghost var s1 := Now();
      MappableStill(s, s1, d, first, count, f - n, n, perm);
      r := MapPage(d, a, f, perm);
      MapStepsJoin(s, s1, Now(), d, first, n, if r == Mapped then 1 else 0, f - n, perm);
      if r == Remap {
        PresentBefore(s, s1, d, first, n, count, f - n, perm);
      }
    }

    /** Maps the pages of size bytes at va to consecutive frames from pa on; stops when
        no table can be had, or at a page already present, where the kernel panics. */
    method Mappages(d: nat, va: nat, size: nat, pa: nat, perm: nat) returns (r: Outcome, ghost n: nat)
      requires Valid() && IsDir(owner, d) && size > 0 && va + size <= TWO_32 && perm < PGSIZE
      requires pa + PagesOf(va, size) <= PAGES
      requires Mappable(Now(), va / PGSIZE, PagesOf(va, size), pa)
      modifies this
      ensures Valid() && IsDir(owner, d) && n <= PagesOf(va, size)
      ensures MapStep(old(Now()), Now(), d, va / PGSIZE, n, pa, perm)
      ensures r == Mapped <==> n == PagesOf(va, size)
      ensures r == NoMemory ==> free == [] && Hi(va / PGSIZE + n) !in Tables(mem[d])
      ensures Held(d) == old(Held(d))
      ensures Tables(mem[d]) == old(Tables(mem[d])) + Indices(va / PGSIZE, va / PGSIZE + n)
      ensures r == Remap ==> !AbsentRange(old(Now()), d, va / PGSIZE, PagesOf(va, size))
    {
      hide Accounted, FreeLinks, FreeOk, MapStep, Mappable, AbsentRange, Tables, Indices;
      r, n := MapPages(d, va / PGSIZE, (va + size - 1) / PGSIZE, pa, perm);
    }

    /** Frees page p's frame and clears its entry, in table t. */
    method Unmap(d: nat, p: nat, t: nat)
      requires Valid() && IsDir(owner, d) && p < USER_PAGES && Present(Pte(mem, d, p)) && t == Frame(mem[d][Hi(p)])
      modifies this
      ensures Valid() && IsDir(owner, d) && UnmapStep(old(Now()), Now(), d, p, p + 1) && mem[d] == old(mem)[d]
    {
      PageUnmapped(Now(), free, freelist, d, p);
      PageFrame(Now(), d, p);
      Kfree(Frame(mem[t][Lo(p)]));
      mem := mem[t := mem[t][Lo(p) := 0]];
    }

    /** Removes the pages from newsz up to oldsz. */
    method Deallocuvm(d: nat, oldsz: nat, newsz: nat) returns (r: nat)
      requires Valid() && IsDir(owner, d) && oldsz <= KERNBASE
      modifies this
      ensures Valid() && IsDir(owner, d) && r == (if newsz >= oldsz then oldsz else newsz)
      ensures UnmapStep(old(Now()), Now(), d, Up(newsz), Up(oldsz)) && mem[d] == old(mem)[d]
    {
      hide FrameOk, FreeLinks, FreeOk, UnmapStep, WalkStep, DirOk;
      if newsz >= oldsz {
        NothingUnmapped(Now(), d, Up(newsz), Up(oldsz));
        return oldsz;
      }
      var a := Up(newsz);
      ghost var s, lo, hi := Now(), Up(newsz), Up(oldsz);
      NothingUnmapped(s, d, lo, lo);
      while a * PGSIZE < oldsz
        invariant Valid() && IsDir(owner, d) && lo <= a && lo <= hi <= USER_PAGES && mem[d] == s.mem[d]
        invariant UnmapStep(s, Now(), d, lo, if a < hi then a else hi)
        decreases hi - a
      {
        ghost var s1, a0 := Now(), a;
        var t := Walkpgdir(d, a, false);
        if t == 0 {
          a := (Hi(a) + 1) * ENTRIES - 1;
          JumpSkipsNothing(s1, d, a0, if a + 1 < hi then a + 1 else hi);
        } else {
          TableOf(mem, owner, d, a);
          if Present(mem[t][Lo(a)]) {
            Unmap(d, a, t);
          } else {
            NothingUnmapped(s1, d, a, a + 1);
          }
        }
        a := a + 1;
        UnmapStepsJoin(s, s1, Now(), d, lo, a0, if a < hi then a else hi);
      }
      r := newsz;
    }

    /** Grows the user part from oldsz to newsz with zeroed pages; or to nothing, when
        memory runs out: then no view has changed, and only tables may remain. */
    method Allocuvm(d: nat, oldsz: nat, newsz: nat) returns (r: nat, ghost pages: seq<Content>)
      requires Valid() && IsDir(owner, d)
      requires oldsz <= newsz < KERNBASE ==> AbsentRange(Now(), d, Up(oldsz), Up(newsz) - Up(oldsz))
      modifies this
      ensures Valid() && IsDir(owner, d)
      ensures newsz >= KERNBASE ==> r == 0 && Now() == old(Now())
      ensures newsz < oldsz && newsz < KERNBASE ==> r == oldsz && Now() == old(Now())
      ensures oldsz <= newsz < KERNBASE && r == newsz ==>
                && |pages| == Up(newsz) - Up(oldsz) && (forall k :: 0 <= k < |pages| ==> pages[k] == ZERO_PAGE)
                && GrowStep(old(Now()), Now(), d, Up(oldsz), pages)
                && forall p: nat :: Up(oldsz) <= p < Up(newsz) ==> NewPage(mem, d, p)
      ensures oldsz <= newsz < KERNBASE && r != newsz ==> r == 0 && WalkStep(old(Now()), Now(), d)
      // It succeeds exactly if the frames suffice for the pages and the tables they lack.
      ensures oldsz <= newsz < KERNBASE ==>
                (r == newsz <==> |old(free)| >= Need(old(mem)[d], Up(oldsz), Up(newsz)))
      // A failure costs the tables made on the way, and they are what it leaves behind.
      ensures oldsz <= newsz < KERNBASE && r != newsz ==>
                RanOut(old(mem)[d], Up(oldsz), Up(newsz), |pages|, |old(free)|, |free|)
    {
      hide FrameOk, FreeLinks, FreeOk, GrowStep, WalkStep, AbsentRange, Tables, Indices, Lacking, RanOut, Accounted,
          View, DataOk;
      pages := [];
      if newsz >= KERNBASE {
        return 0, pages;
      }
      if newsz < oldsz {
        return oldsz, pages;
      }
      ghost var s, lo, hi := Now(), Up(oldsz), Up(newsz);
      var a := Up(oldsz);
      NothingGrown(s, d, lo);
      NothingNeeded(mem[d], lo);
      while a * PGSIZE < newsz
        invariant Valid() && IsDir(owner, d) && lo <= a == lo + |pages| <= hi < USER_PAGES + 1
        invariant GrowStep(s, Now(), d, lo, pages)
        invariant Held(d) == old(Held(d)) - |pages| && Tables(mem[d]) == Tables(s.mem[d]) + Indices(lo, a)
        invariant |old(free)| >= Need(s.mem[d], lo, a)
        invariant forall k :: 0 <= k < |pages| ==> pages[k] == ZERO_PAGE
      {
        TablesJoin(s.mem[d], mem[d], lo, a);
        NeedStep(s.mem[d], lo, a);
        IndicesStep(lo, a);
        NextAbsent(s, Now(), d, lo, pages, hi - lo);
        var ok := ZeroPage(d, a, oldsz, newsz, s, pages);
        if !ok {
          ReserveCounted(s.mem, s.owner, old(free), old(freelist), d);
          ReserveCounted(mem, owner, free, freelist, d);
          ReserveKept(s, Now(), d);
          RanOutAt(s.mem[d], lo, hi, |pages|, |old(free)|, |free|);
          return 0, pages;
        }
        pages := pages + [ZERO_PAGE];
        a := a + 1;
      }
      NewPages(s, Now(), d, lo, pages);
      r := newsz;
    }

    /** One turn of allocuvm's loop; when memory runs out everything is taken back. */
    method ZeroPage(d: nat, a: nat, oldsz: nat, newsz: nat, ghost s: Ram, ghost pages: seq<Content>) returns (ok: bool)
      requires Valid() && IsDir(owner, d) && oldsz <= newsz < KERNBASE && View(mem, d, a) == 0
      requires Accounted(s.mem, s.owner) && IsDir(s.owner, d) && AbsentRange(s, d, Up(oldsz), Up(newsz) - Up(oldsz))
      requires Up(oldsz) + |pages| == a < Up(newsz) && GrowStep(s, Now(), d, Up(oldsz), pages)
      modifies this
      ensures Valid() && IsDir(owner, d)
      ensures ok <==> |old(free)| >= if Hi(a) in old(Tables(mem[d])) then 1 else 2
      ensures ok ==> GrowStep(s, Now(), d, Up(oldsz), pages + [ZERO_PAGE])
      ensures ok ==> Held(d) == old(Held(d)) - 1 && Tables(mem[d]) == old(Tables(mem[d])) + {Hi(a)}
      ensures !ok ==> WalkStep(s, Now(), d) && Tables(mem[d]) == old(Tables(mem[d]))
    {
      hide FrameOk, FreeLinks, FreeOk, GrowStep, WalkStep, AbsentRange, Tables;
      ghost var s1 := Now();
      var f;
      f, ok := AddPage(d, a, ZERO_PAGE.words, 6);
      if ok {
        GrowStepsJoin(s, s1, Now(), d, Up(oldsz), pages, [ZERO_PAGE]);
      } else {
        GiveUp(d, oldsz, newsz, f, s, s1, pages);
      }
    }

    /** allocuvm's way out, with the frame f still in hand unless it is 0. */
    method GiveUp(d: nat, oldsz: nat, newsz: nat, f: nat, ghost s: Ram, ghost s1: Ram, ghost pages: seq<Content>)
      requires Valid() && IsDir(owner, d) && oldsz <= newsz < KERNBASE
      requires Accounted(s.mem, s.owner) && IsDir(s.owner, d) && AbsentRange(s, d, Up(oldsz), Up(newsz) - Up(oldsz))
      requires Up(oldsz) + |pages| <= Up(newsz) && IsDir(s1.owner, d) && GrowStep(s, s1, d, Up(oldsz), pages)
      requires f == 0 ==> Now() == s1
      requires f != 0 ==> f in owner && owner[f] == Other && WalkStep(s1, Ram(mem, owner[f := Free]), d)
      modifies this
      ensures Valid() && IsDir(owner, d) && WalkStep(s, Now(), d) && mem[d] == old(mem)[d]
    {
      hide FrameOk, FreeLinks, FreeOk, GrowStep, WalkStep, AbsentRange, UnmapStep, View;
      ghost var s2, lo, hi := Now(), Up(oldsz), Up(newsz);
      var r := Deallocuvm(d, newsz, oldsz);
      if f == 0 {
        GrowthUndone(s, s1, Now(), d, lo, pages, hi);
      } else {
        GrowthUndoneAround(s, s1, s2, Now(), d, lo, pages, hi, f);
        KfreeKeeps(mem, owner, free, freelist, f);
        FreeContent(s, Now(), d, f, Junk(freelist));
        Kfree(f);
      }
    }

    /** kalloc, the page's contents, and mappages of one page.  When there is no frame f is
        0; when there is no table f is still in hand. */
    method AddPage(d: nat, p: nat, words: Page, perm: nat) returns (f: nat, ok: bool)
      requires Valid() && IsDir(owner, d) && p < USER_PAGES && perm < PGSIZE && View(mem, d, p) == 0
      modifies this
      ensures Valid() && IsDir(owner, d)
      ensures ok ==> GrowStep(old(Now()), Now(), d, p, [Content(words, perm)])
      ensures ok <==> |old(free)| >= if Hi(p) in old(Tables(mem[d])) then 1 else 2
      ensures ok ==> Held(d) == old(Held(d)) - 1
      ensures Tables(mem[d]) == old(Tables(mem[d])) + if ok then {Hi(p)} else {}
      ensures !ok && f == 0 ==> Now() == old(Now())
      ensures !ok && f != 0 ==> f in owner && owner[f] == Other && WalkStep(old(Now()), Ram(mem, owner[f := Free]), d)
    {
      f := Kalloc();
      if f == 0 {
        return f, false;
      }
      Fill(f, words);
      assert View(mem, d, p) == 0;
      ghost var s := Ram(old(mem), old(owner));
      var r := MapPage(d, p, f, perm);
      if r == Mapped {
        PageAdded(old(Now()), Now(), d, p, f, words, perm);
      } else {
        MapFailed(old(Now()), Now(), d, p, f, words, perm);
      }
      ok := r == Mapped;
    }

    /** Frees the user pages, the tables and the directory. */
    method Freevm(d: nat)
      requires Valid() && IsDir(owner, d)
      modifies this
      ensures Valid() && TornStep(old(Now()), Now(), d)
    {
      hide FrameOk, FreeLinks, FreeOk, UnmapStep, TornStep;
      ghost var s := Now();
      var r := Deallocuvm(d, KERNBASE, 0);
      ghost var s1 := Now();
      AllUnmapped(s, s1, d);
      DismantledAccounted(mem, owner, d);
      FreeListSame(mem, owner, Dismantled(owner, d), free, freelist);
      TearingStarts(s1, d);
      owner := Dismantled(owner, d);
      var i := 0;
      while i < ENTRIES
        invariant Valid() && 0 <= i <= ENTRIES && Tearing(s1, Now(), d, i)
        invariant d in mem && mem[d] == s1.mem[d]
      {
        assert TearingAt(s1, Now(), d, i, d);
        KfreeKeeps(mem, owner, free, freelist, d);
        TearingTable(s1, Now(), d, i, Junk(freelist));
        if Present(mem[d][i]) {
          Kfree(Frame(mem[d][i]));
        }
        i := i + 1;
      }
      assert TearingAt(s1, Now(), d, ENTRIES, d);
      KfreeKeeps(mem, owner, free, freelist, d);
      Torn(s, s1, Now(), d, Junk(freelist));
      Kfree(d);
    }

    /** A directory with the kernel's mappings; 0, and no frame lost, if memory runs out. */
    method Setupkvm() returns (d: nat)
      requires Valid()
      modifies this
      ensures Valid()
      ensures d == 0 ==> Restored(old(Now()), Now())
      // It takes exactly the directory and the kernel's tables.
      ensures d != 0 <==> |old(free)| >= 1 + KERNEL_TABLES
      ensures d != 0 ==> d in mem && |free| == |old(free)| - 1 - KERNEL_TABLES && Tables(mem[d]) == KernelTables()
      ensures d != 0 ==> BuiltStep(old(Now()), Now(), d) && forall q: nat :: View(mem, d, q) == KernelView(data, q)
      ensures d != 0 ==> KernelOnly(mem, d, data)
    {
      hide FrameOk, FreeLinks, FreeOk, BuiltStep, KernelSoFar, Restored, MapStep, Indices, TornStep;
      ghost var s := Now();
      d := Kalloc();
      if d == 0 {
        NothingRestored(s);
        return;
      }
      DirectoryMade(s, d);
      Fill(d, Filled(0));
      FreeListSame(mem, owner, owner[d := Dir], free, freelist);
      owner := owner[d := Dir];
      assert owner == s.owner[d := Dir];
      assert Tables(Filled(0)) == {};
      KernelTablesCounted();
      KernelStart(Now(), d, data);
      var k := 0;
      while k < 4
        invariant Valid() && 0 <= k <= 4 && IsDir(owner, d) && BuiltStep(s, Now(), d) && KernelSoFar(Now(), d, data, k)
        invariant Held(d) == |old(free)| - 1 && Tables(mem[d]) == RegionTables(data, k)
      {
        var ok := MapRegion(d, k, s);
        if !ok {
          ghost var s2 := Now();
          Freevm(d);
          BuiltAndTorn(s, s2, Now(), d);
          return 0;
        }
        k := k + 1;
      }
      RegionsAreKernel(data, 4);
      KernelDone(Now(), d, data);
      BuiltDir(s, Now(), d);
      KernelViewIsKernelOnly(Now(), d, data);
    }

    /** One entry of kmap. */
    method MapRegion(d: nat, k: nat, ghost s: Ram) returns (ok: bool)
      requires Valid() && k < 4 && IsDir(owner, d) && BuiltStep(s, Now(), d) && KernelSoFar(Now(), d, data, k)
      requires Tables(mem[d]) == RegionTables(data, k)
      modifies this
      ensures Valid() && IsDir(owner, d) && BuiltStep(s, Now(), d) && Held(d) == old(Held(d))
      ensures ok ==> KernelSoFar(Now(), d, data, k + 1) && Tables(mem[d]) == RegionTables(data, k + 1)
      ensures !ok ==> free == [] && |Tables(mem[d])| < KERNEL_TABLES
    {
      hide FrameOk, FreeLinks, FreeOk, BuiltStep, KernelSoFar, MapStep, Indices, Tables, Covered, AbsentRange;
      ghost var s1 := Now();
      var m := Kmap(data)[k];
      KmapFits(data, k);
      KmapStep(s1, s1, d, data, k);
      var r, n := Mappages(d, m.virt, Extent(m), m.physStart / PGSIZE, m.perm);
      MapStepRange(s1, Now(), d, m.virt / PGSIZE, n, m.physStart / PGSIZE, m.perm);
      KmapStep(s1, Now(), d, data, k);
      KernelBuilt(s, s1, Now(), d, m.virt / PGSIZE, n, m.physStart / PGSIZE, m.perm);
      ok := r == Mapped;
      if !ok {
        KernelLacking(data, k, n, Tables(mem[d]));
      }
    }

    /** A child's address space with the parent's first pages; 0, and no frame lost, if
        memory runs out. */
    method Copyuvm(d: nat, sz: nat) returns (c: nat, ghost pages: seq<Content>)
      requires Valid() && IsDir(owner, d) && sz < KERNBASE
      requires forall q: nat :: q < Up(sz) ==> View(mem, d, q) != 0
      modifies this
      ensures Valid() && IsDir(owner, d)
      ensures c == 0 ==> Restored(old(Now()), Now())
      ensures c != 0 <==> |old(free)| >= CopyNeed(Up(sz))
      ensures c != 0 ==> BuiltStep(old(Now()), Now(), c) && CopyStep(old(Now()), Now(), d, c, data, Up(sz))
      ensures c != 0 ==> KernelOnly(mem, c, data)
      ensures c != 0 ==> forall q: nat :: q < Up(sz) ==>
                && UserMayRead(mem, c, q) == UserMayRead(old(mem), d, q)
                && UserMayWrite(mem, c, q) == UserMayWrite(old(mem), d, q)
    {
      hide FrameOk, FreeLinks, FreeOk, BuiltStep, GrowStep, Restored, CopyStep, Indices, TornStep, Tables, CopyNeed,
          PageContent, View, KernelView;
      ghost var s, n := Now(), Up(sz);
      pages := [];
      CopyNeedGrows(0, n);
      c := Setupkvm();
      if c == 0 {
        RestoredDir(s, Now(), d);
        return;
      }
      ghost var s1 := Now();
      BuiltDir(s, s1, c);
      NothingGrown(s1, c, 0);
      NothingNeeded(mem[c], 0);
      KernelTablesCounted();
      var i := 0;
      while i * PGSIZE < sz
        invariant Valid() && IsDir(owner, c) && 0 <= i == |pages| <= n
        invariant BuiltStep(s, Now(), c) && GrowStep(s1, Now(), c, 0, pages)
        invariant Held(c) == |old(free)| - 1 - |pages| && Tables(mem[c]) == KernelTables() + Indices(0, i)
        invariant |old(free)| >= CopyNeed(i)
        invariant forall k :: 0 <= k < |pages| ==> pages[k] == PageContent(s, d, k)
      {
        CopyCost(Tables(mem[c]), i);
        CopyNeedGrows(i + 1, n);
        KernelAbsent(s1, Now(), c, data, pages);
        var ok := CopyPage(c, d, i, s, s1, pages);
        if !ok {
          RestoredDir(s, Now(), d);
          return 0, pages;
        }
        pages := pages + [PageContent(s, d, i)];
        i := i + 1;
      }
      CopyDone(s, s1, Now(), d, c, data, pages);
      SamePermissions(s, Now(), d, c, data, n);
    }

    /** One turn of copyuvm's loop; when memory runs out the child is gone. */
    method CopyPage(c: nat, d: nat, i: nat, ghost s: Ram, ghost s1: Ram, ghost pages: seq<Content>) returns (ok: bool)
      requires Valid() && IsDir(owner, c) && i == |pages| < USER_PAGES && View(mem, c, i) == 0
      requires Accounted(s.mem, s.owner) && IsDir(s.owner, d) && View(s.mem, d, i) != 0
      requires BuiltStep(s, Now(), c) && GrowStep(s1, Now(), c, 0, pages)
      modifies this
      ensures Valid()
      ensures ok <==> |old(free)| >= if Hi(i) in old(Tables(mem[c])) then 1 else 2
      ensures !ok ==> Restored(s, Now())
      ensures ok ==> IsDir(owner, c) && Held(c) == old(Held(c)) - 1 && Tables(mem[c]) == old(Tables(mem[c])) + {Hi(i)}
      ensures ok ==> BuiltStep(s, Now(), c) && GrowStep(s1, Now(), c, 0, pages + [PageContent(s, d, i)])
    {
      hide FrameOk, FreeLinks, FreeOk, BuiltStep, GrowStep, Restored, Tables, TornStep, WalkStep;
      ghost var s2 := Now();
      ParentPage(s, s2, c, d, i);
      var pte := ReadPte(d, i);
      assert Content(mem[Frame(pte)], Flags(pte)) == PageContent(s2, d, i) == PageContent(s, d, i);
      var f;
      f, ok := AddPage(c, i, mem[Frame(pte)], Flags(pte));
      if ok {
        GrowStepsJoin(s1, s2, Now(), c, 0, pages, [PageContent(s, d, i)]);
        GrowBuilt(s, s2, Now(), c, i, [PageContent(s, d, i)]);
      } else {
        Abandon(c, f, s, s2);
      }
    }

    /** walkpgdir without allocation, and the entry of a present page. */
    method ReadPte(d: nat, p: nat) returns (pte: Word)
      requires Valid() && IsDir(owner, d) && p < USER_PAGES && View(mem, d, p) != 0
      modifies this
      ensures Valid() && Now() == old(Now()) && free == old(free) && pte == View(mem, d, p) && Frame(pte) in mem
    {
      var t := Walkpgdir(d, p, false);
      TableOf(mem, owner, d, p);
      pte := mem[t][Lo(p)];
      PageFrame(Now(), d, p);
    }

    /** copyuvm's way out, with the frame f still in hand unless it is 0. */
    method Abandon(c: nat, f: nat, ghost s: Ram, ghost s1: Ram)
      requires Valid() && IsDir(owner, c) && BuiltStep(s, s1, c)
      requires f == 0 ==> Now() == s1
      requires f != 0 ==> f in owner && owner[f] == Other && WalkStep(s1, Ram(mem, owner[f := Free]), c)
      modifies this
      ensures Valid() && Restored(s, Now())
    {
      if f != 0 {
        KfreeKeeps(mem, owner, free, freelist, f);
        FreeContent(s1, Now(), c, f, Junk(freelist));
        Kfree(f);
        WalkBuilt(s, s1, Now(), c);
      }
      ghost var s2 := Now();
      Freevm(c);
      BuiltAndTorn(s, s2, Now(), c);
    }

    /** A whole life: an address space set up, grown step by step, and freed gives back
        exactly the frames it took, whether or not memory ran out on the way. */
    method BuildAndFree(sizes: seq<nat>)
      requires Valid()
      modifies this
      ensures Valid() && Restored(old(Now()), Now())
    {
      ghost var s := Now();
      var d := Setupkvm();
      if d == 0 {
        return;
      }
      var sz: nat := 0;
      for i := 0 to |sizes|
        invariant Valid() && IsDir(owner, d) && BuiltStep(s, Now(), d) && sz < KERNBASE
        invariant forall q: nat :: Up(sz) <= q < USER_PAGES ==> View(mem, d, q) == 0
      {
        ghost var s1 := Now();
        var r;
        ghost var pages;
        if sz <= sizes[i] < KERNBASE {
          r, pages := Allocuvm(d, sz, sizes[i]);
          if r == sizes[i] {
            GrowBuilt(s, s1, Now(), d, Up(sz), pages);
            sz := r;
          } else {
            WalkBuilt(s, s1, Now(), d);
          }
        }
      }
      ghost var s2 := Now();
      Freevm(d);
      BuiltAndTorn(s, s2, Now(), d);
    }

    /** For instance: with two frames more than an empty address space takes, growing it by
        two pages fails, no page is there, and one frame is gone: it is a page table. */
    method FailingKeepsTable() returns (d: nat, r: nat)
      requires Valid() && |free| == 1 + KERNEL_TABLES + 2
      modifies this
      ensures Valid() && d != 0 && r == 0 && |free| == 1
      ensures forall q: nat :: q < USER_PAGES ==> View(mem, d, q) == 0
    {
      hide FrameOk, FreeLinks, FreeOk, BuiltStep, GrowStep, WalkStep, Restored, AbsentRange, View, KernelView;
      hide Tables, KernelTables, RanOut, Need, Indices;
      d := Setupkvm();
      ghost var s := Now();
      BuiltDir(old(Now()), s, d);
      KernelHigh(s, d, data);
      ghost var pages;
      assert Up(0) == 0 && Up(2 * PGSIZE) == 2;
      r, pages := Allocuvm(d, 0, 2 * PGSIZE);
      TwoPagesNeed(s.mem[d], |pages|, |free|);
      WalkChangesNoView(s, Now(), d);
    }

    /** A child copied and freed leaves the pool as it was. */
    method CopyAndFree(d: nat, sz: nat)
      requires Valid() && IsDir(owner, d) && sz < KERNBASE
      requires forall q: nat :: q < Up(sz) ==> View(mem, d, q) != 0
      modifies this
      ensures Valid() && Restored(old(Now()), Now())
    {
      var c;
      ghost var pages;
      c, pages := Copyuvm(d, sz);
      if c != 0 {
        ghost var s1 := Now();
        Freevm(c);
        BuiltAndTorn(old(Now()), s1, Now(), c);
      }
    }
  }
}
