/** Demand paging on values: what one eviction, one page-in and one page of growth
    do to the page table, the frames, the swap file and the two page lists, and
    why a process cannot tell. */
module SwapSpec {
  import opened Words
  import opened Finite

  const PGSIZE: nat := 4096
  const MAX_PSYCH_PAGES: nat := 15

  type Page = p: seq<Byte> | |p| == PGSIZE witness seq(PGSIZE, _ => 0)

  /** A page-table entry: PTE_P, PTE_PG and the frame; the other flags are not modelled. */
  datatype Pte = Pte(frame: nat, present: bool, paged: bool)

  datatype PageMeta = PageMeta(va: nat, fileStart: nat)

  /** A process's memory as the kernel keeps it.  entered and left record the
      pages in the order they were put on page_list and taken off it. */
  datatype Vm = Vm(pages: seq<nat>, metas: seq<PageMeta>, pt: map<nat, Pte>, swap: seq<Byte>,
                   ram: map<nat, Page>, free: seq<nat>, entered: seq<nat>, left: seq<nat>)

  function ZeroPage(): Page { seq(PGSIZE, _ => 0) }
  function JunkPage(): Page { seq(PGSIZE, _ => 1) }

  // --- The swap file ----------------------------------------------------------

  /** The file after data was written at off, which may extend it. */
  function Written(file: seq<Byte>, off: nat, data: seq<Byte>): seq<Byte>
    requires off <= |file|
  {
    file[..off] + data + (if off + |data| <= |file| then file[off + |data|..] else [])
  }

  function Slot(file: seq<Byte>, off: nat): Page
    requires off + PGSIZE <= |file|
  {
    file[off..off + PGSIZE]
  }

  lemma {:induction false} WrittenSlots(file: seq<Byte>, off: nat, page: Page, other: nat)
    requires off <= |file| && off % PGSIZE == 0
    ensures off + PGSIZE <= |Written(file, off, page)| && Slot(Written(file, off, page), off) == page
    ensures |Written(file, off, page)| == if off + PGSIZE <= |file| then |file| else off + PGSIZE
    ensures other % PGSIZE == 0 && other != off && other + PGSIZE <= |file| ==>
              Slot(Written(file, off, page), other) == Slot(file, other)
  {
    if other % PGSIZE == 0 && other != off && other + PGSIZE <= |file| {
      assert other + PGSIZE <= off || off + PGSIZE <= other by {
        var i, j := off / PGSIZE, other / PGSIZE;
        assert off == i * PGSIZE && other == j * PGSIZE;
      }
    }
  }

  // --- What the process sees -----------------------------------------------------

  predicate Listed(metas: seq<PageMeta>, va: nat) {
    exists i :: 0 <= i < |metas| && metas[i].va == va
  }

  /** Where meta_list says the page lies in the swap file. */
  function SlotOf(metas: seq<PageMeta>, va: nat): nat
    requires Listed(metas, va)
  {
    if metas[0].va == va then metas[0].fileStart else SlotOf(metas[1..], va)
  }

  ghost predicate DistinctVas(metas: seq<PageMeta>) {
    forall i, j :: 0 <= i < j < |metas| ==> metas[i].va != metas[j].va
  }

  ghost predicate DistinctSlots(metas: seq<PageMeta>) {
    forall i, j :: 0 <= i < j < |metas| ==> metas[i].fileStart != metas[j].fileStart
  }

  lemma {:induction false} SlotAt(metas: seq<PageMeta>, i: nat)
    requires i < |metas| && DistinctVas(metas)
    ensures SlotOf(metas, metas[i].va) == metas[i].fileStart
  {
    if i > 0 {
      assert metas[1..][i - 1] == metas[i];
      SlotAt(metas[1..], i - 1);
    }
  }

  /** The consistency that every single step below keeps. */
  ghost predicate Core(s: Vm) {
    && Distinct(s.pages) && DistinctVas(s.metas) && DistinctSlots(s.metas) && Distinct(s.free)
    && (forall k :: 0 <= k < |s.pages| ==> s.pages[k] in s.pt && s.pt[s.pages[k]].present)
    && (forall i :: 0 <= i < |s.metas| ==> MetaOk(s, s.metas[i]))
    && (forall va :: va in s.pt && !s.pt[va].present ==> Listed(s.metas, va))
    && (forall va :: va in s.pt && s.pt[va].present ==>
          s.pt[va].frame in s.ram && s.pt[va].frame !in s.free && !s.pt[va].paged)
    && (forall va, vb :: va in s.pt && vb in s.pt && s.pt[va].present && s.pt[vb].present && va != vb ==>
          s.pt[va].frame != s.pt[vb].frame)
    && (forall f :: f in s.free ==> f in s.ram)
  }

  predicate MetaOk(s: Vm, m: PageMeta) {
    && m.va in s.pt && !s.pt[m.va].present && s.pt[m.va].paged
    && m.fileStart % PGSIZE == 0 && m.fileStart + PGSIZE <= |s.swap|
  }

  /** A page's bytes: from its frame if present, from its swap slot otherwise. */
  ghost function UserPage(s: Vm, va: nat): Page
    requires Core(s) && va in s.pt
  {
    if s.pt[va].present then s.ram[s.pt[va].frame]
    else
      assert exists i :: 0 <= i < |s.metas| && s.metas[i].va == va && MetaOk(s, s.metas[i]);
      SlotInFile(s, va);
      Slot(s.swap, SlotOf(s.metas, va))
  }

  lemma {:induction false} SlotInFile(s: Vm, va: nat)
    requires Core(s) && Listed(s.metas, va)
    ensures SlotOf(s.metas, va) + PGSIZE <= |s.swap|
  {
    var i :| 0 <= i < |s.metas| && s.metas[i].va == va;
    SlotAt(s.metas, i);
    assert MetaOk(s, s.metas[i]);
  }

  ghost function UserMem(s: Vm): map<nat, Page>
    requires Core(s)
  {
    map va | va in s.pt :: UserPage(s, va)
  }

  // --- The steps -------------------------------------------------------------------

  /** kalloc, memset, mappages: a new page of zeros at a. */
  function Mapped(s: Vm, a: nat): Vm
    requires |s.free| > 0
  {
    s.(pt := s.pt[a := Pte(s.free[0], true, false)], ram := s.ram[s.free[0] := ZeroPage()], free := s.free[1..])
  }

  /** The page of meta_list entry i comes back into a frame. */
  function Loaded(s: Vm, i: nat): Vm
    requires |s.free| > 0 && i < |s.metas| && MetaOk(s, s.metas[i])
  {
    var m, f := s.metas[i], s.free[0];
    s.(metas := Without(s.metas, i),
       pt := s.pt[m.va := Pte(f, true, false)],
       ram := s.ram[f := Slot(s.swap, m.fileStart)],
       free := s.free[1..])
  }

  /** The first page of page_list goes out to the slot at off, and its frame is freed. */
  function Evicted(s: Vm, off: nat): Vm
    requires |s.pages| > 0 && s.pages[0] in s.pt && s.pt[s.pages[0]].frame in s.ram && off <= |s.swap|
  {
    var va := s.pages[0];
    var f := s.pt[va].frame;
    s.(pages := s.pages[1..], left := s.left + [va],
       metas := s.metas + [PageMeta(va, off)],
       swap := Written(s.swap, off, s.ram[f]),
       pt := s.pt[va := Pte(f, false, true)],
       ram := s.ram[f := JunkPage()],
       free := [f] + s.free)
  }

  /** The page is put at the end of page_list. */
  function Tracked(s: Vm, va: nat): Vm {
    s.(pages := s.pages + [va], entered := s.entered + [va])
  }

  lemma {:induction false} MappedKeeps(s: Vm, a: nat)
    requires Core(s) && a !in s.pt && |s.free| > 0
    ensures Core(Mapped(s, a)) && UserMem(Mapped(s, a)) == UserMem(s)[a := ZeroPage()]
  {
    var t := Mapped(s, a);
    forall i | 0 <= i < |t.metas|
      ensures MetaOk(t, t.metas[i])
    {
      assert MetaOk(s, s.metas[i]);
    }
  }

  function Without(metas: seq<PageMeta>, i: nat): seq<PageMeta>
    requires i < |metas|
  {
    metas[..i] + metas[i + 1..]
  }

  lemma {:induction false} WithoutDistinct(metas: seq<PageMeta>, i: nat)
    requires i < |metas| && DistinctVas(metas) && DistinctSlots(metas)
    ensures DistinctVas(Without(metas, i)) && DistinctSlots(Without(metas, i))
    ensures !Listed(Without(metas, i), metas[i].va)
    ensures forall j :: 0 <= j < |metas| - 1 ==> Without(metas, i)[j].fileStart != metas[i].fileStart
    ensures forall j :: 0 <= j < |metas| - 1 ==> Without(metas, i)[j] == metas[if j < i then j else j + 1]
  {
  }

  lemma {:induction false} WithoutSlot(metas: seq<PageMeta>, i: nat, va: nat)
    requires i < |metas| && DistinctVas(metas) && DistinctSlots(metas)
    requires Listed(metas, va) && va != metas[i].va
    ensures Listed(Without(metas, i), va) && SlotOf(Without(metas, i), va) == SlotOf(metas, va)
  {
    var k :| 0 <= k < |metas| && metas[k].va == va;
    var j := if k < i then k else k - 1;
    WithoutDistinct(metas, i);
    assert Without(metas, i)[j] == metas[k];
    SlotAt(metas, k);
    SlotAt(Without(metas, i), j);
  }

  lemma {:induction false} LoadedCore(s: Vm, i: nat)
    requires Core(s) && |s.free| > 0 && i < |s.metas| && MetaOk(s, s.metas[i])
    ensures Core(Loaded(s, i))
  {
    var t := Loaded(s, i);
    WithoutDistinct(s.metas, i);
    assert t.metas == Without(s.metas, i);
    forall j | 0 <= j < |t.metas|
      ensures MetaOk(t, t.metas[j])
    {
      assert MetaOk(s, s.metas[if j < i then j else j + 1]);
    }
    forall vb | vb in t.pt && !t.pt[vb].present
      ensures Listed(t.metas, vb)
    {
      WithoutSlot(s.metas, i, vb);
    }
  }

  lemma {:induction false} LoadedPage(s: Vm, i: nat, va: nat)
    requires Core(s) && |s.free| > 0 && i < |s.metas| && MetaOk(s, s.metas[i]) && Core(Loaded(s, i)) && va in s.pt
    ensures UserPage(Loaded(s, i), va) == UserPage(s, va)
  {
    if va == s.metas[i].va {
      SlotAt(s.metas, i);
    } else if !s.pt[va].present {
      WithoutSlot(s.metas, i, va);
    }
  }

  lemma {:induction false} LoadedKeeps(s: Vm, i: nat)
    requires Core(s) && |s.free| > 0 && i < |s.metas| && MetaOk(s, s.metas[i])
    ensures Core(Loaded(s, i)) && UserMem(Loaded(s, i)) == UserMem(s)
  {
    LoadedCore(s, i);
    forall va | va in s.pt
      ensures UserPage(Loaded(s, i), va) == UserPage(s, va)
    {
      LoadedPage(s, i, va);
    }
  }

  lemma {:induction false} EvictedCore(s: Vm, off: nat)
    requires Core(s) && |s.pages| > 0 && off % PGSIZE == 0 && off <= |s.swap|
    requires forall j :: 0 <= j < |s.metas| ==> s.metas[j].fileStart != off
    ensures Core(Evicted(s, off))
  {
    var t := Evicted(s, off);
    var n := |s.metas|;
    WrittenSlots(s.swap, off, s.ram[s.pt[s.pages[0]].frame], 0);
    forall j | 0 <= j < |t.metas|
      ensures MetaOk(t, t.metas[j])
    {
      if j < n {
        assert t.metas[j] == s.metas[j] && MetaOk(s, s.metas[j]);
      }
    }
    assert t.metas[n].va == s.pages[0];
    forall va | va in t.pt && !t.pt[va].present
      ensures Listed(t.metas, va)
    {
      if va != s.pages[0] {
        var k :| 0 <= k < n && s.metas[k].va == va;
        assert t.metas[k] == s.metas[k];
      }
    }
  }

  lemma {:induction false} EvictedPage(s: Vm, off: nat, va: nat)
    requires Core(s) && |s.pages| > 0 && off % PGSIZE == 0 && off <= |s.swap|
    requires forall j :: 0 <= j < |s.metas| ==> s.metas[j].fileStart != off
    requires Core(Evicted(s, off)) && va in s.pt
    ensures UserPage(Evicted(s, off), va) == UserPage(s, va)
  {
    var t := Evicted(s, off);
    var page := s.ram[s.pt[s.pages[0]].frame];
    if va == s.pages[0] {
      SlotAt(t.metas, |s.metas|);
      WrittenSlots(s.swap, off, page, 0);
    } else if !s.pt[va].present {
      var k :| 0 <= k < |s.metas| && s.metas[k].va == va;
      assert t.metas[k] == s.metas[k] && MetaOk(s, s.metas[k]);
      SlotAt(s.metas, k);
      SlotAt(t.metas, k);
      WrittenSlots(s.swap, off, page, s.metas[k].fileStart);
    }
  }

  lemma {:induction false} EvictedKeeps(s: Vm, off: nat)
    requires Core(s) && |s.pages| > 0 && off % PGSIZE == 0 && off <= |s.swap|
    requires forall j :: 0 <= j < |s.metas| ==> s.metas[j].fileStart != off
    ensures Core(Evicted(s, off)) && UserMem(Evicted(s, off)) == UserMem(s)
  {
    EvictedCore(s, off);
    forall va | va in s.pt
      ensures UserPage(Evicted(s, off), va) == UserPage(s, va)
    {
      EvictedPage(s, off, va);
    }
  }

  // --- What every whole operation keeps ----------------------------------------------

  /** Between operations at most 15 tracked pages are resident, exactly 15 once
      anything is swapped out; the slots fill the swap file; and page_list holds
      what became resident and has not left, in order. */
  ghost predicate Inv(s: Vm) {
    && Core(s)
    && |s.pages| <= MAX_PSYCH_PAGES && |s.metas| <= MAX_PSYCH_PAGES
    && (s.metas != [] ==> |s.pages| == MAX_PSYCH_PAGES)
    && |s.swap| == PGSIZE * |s.metas|
    && s.entered == s.left + s.pages
  }

  /** Growth has room as long as one of the two lists does. */
  predicate CanGrow(s: Vm, a: nat) {
    a !in s.pt && |s.free| > 0 && (|s.pages| < MAX_PSYCH_PAGES || |s.metas| < MAX_PSYCH_PAGES)
  }

  /** One page of allocuvm's growth. */
  function Grown(s: Vm, a: nat): Vm
    requires |s.free| > 0
    requires |s.pages| >= MAX_PSYCH_PAGES ==>
               s.pages[0] in Mapped(s, a).pt && Mapped(s, a).pt[s.pages[0]].frame in Mapped(s, a).ram
  {
    var t := Mapped(s, a);
    if |s.pages| < MAX_PSYCH_PAGES then Tracked(t, a) else Tracked(Evicted(t, |t.swap|), a)
  }

  /** The first entry of meta_list for the page. */
  function IndexOf(metas: seq<PageMeta>, va: nat): (i: nat)
    requires Listed(metas, va)
    ensures i < |metas| && metas[i].va == va
  {
    if metas[0].va == va then 0 else 1 + IndexOf(metas[1..], va)
  }

  /** do_the_swap on a page of the swap file: the page takes the place of the one
      that has been on page_list longest, and that one takes its slot. */
  function Swapped(s: Vm, i: nat): Vm
    requires |s.free| > 0 && i < |s.metas| && MetaOk(s, s.metas[i]) && |s.pages| > 0
    requires s.pages[0] in Loaded(s, i).pt && Loaded(s, i).pt[s.pages[0]].frame in Loaded(s, i).ram
  {
    Tracked(Evicted(Loaded(s, i), s.metas[i].fileStart), s.metas[i].va)
  }

  lemma {:induction false} SlotsBound(metas: seq<PageMeta>, n: nat, off: nat)
    requires DistinctSlots(metas)
    requires forall i :: 0 <= i < |metas| ==>
               metas[i].fileStart % PGSIZE == 0 && metas[i].fileStart + PGSIZE <= PGSIZE * n
    ensures |metas| <= n
    ensures |metas| == n && off < n ==> exists i :: 0 <= i < |metas| && metas[i].fileStart == PGSIZE * off
  {
    var slots := seq(|metas|, i requires 0 <= i < |metas| => metas[i].fileStart / PGSIZE);
    forall i, j | 0 <= i < j < |slots|
      ensures slots[i] != slots[j]
    {
      assert metas[i].fileStart == PGSIZE * slots[i] && metas[j].fileStart == PGSIZE * slots[j];
    }
    Pigeonhole(slots, n);
    if |metas| == n && off < n {
      assert off in slots;
      var i :| 0 <= i < |slots| && slots[i] == off;
      assert metas[i].fileStart == PGSIZE * off;
    }
  }

  /** The slots in meta_list are a permutation of 0, PGSIZE, ..., file_offset - PGSIZE. */
  lemma {:induction false} SlotsArePermutation(s: Vm, k: nat)
    requires Inv(s) && k < |s.metas|
    ensures s.metas[k].fileStart % PGSIZE == 0 && s.metas[k].fileStart < |s.swap|
    ensures exists i :: 0 <= i < |s.metas| && s.metas[i].fileStart == PGSIZE * k
    ensures DistinctSlots(s.metas)
  {
    forall i | 0 <= i < |s.metas|
      ensures s.metas[i].fileStart % PGSIZE == 0 && s.metas[i].fileStart + PGSIZE <= PGSIZE * |s.metas|
    {
      assert MetaOk(s, s.metas[i]);
    }
    SlotsBound(s.metas, |s.metas|, k);
  }

  /** A page is never on both lists. */
  lemma {:induction false} ListsDisjoint(s: Vm, va: nat)
    requires Core(s)
    ensures !(va in s.pages && Listed(s.metas, va))
  {
    if Listed(s.metas, va) {
      var i :| 0 <= i < |s.metas| && s.metas[i].va == va;
      assert MetaOk(s, s.metas[i]);
    }
  }

  lemma {:induction false} GrownKeeps(s: Vm, a: nat)
    requires Inv(s) && CanGrow(s, a)
    ensures Inv(Grown(s, a)) && UserMem(Grown(s, a)) == UserMem(s)[a := ZeroPage()]
    ensures |Grown(s, a).pages| + |Grown(s, a).metas| == |s.pages| + |s.metas| + 1
  {
    var t := Mapped(s, a);
    MappedKeeps(s, a);
    if |s.pages| < MAX_PSYCH_PAGES {
      TrackedKeeps(t, a);
    } else {
      forall j | 0 <= j < |t.metas|
        ensures t.metas[j].fileStart != |t.swap|
      {
        assert MetaOk(t, t.metas[j]);
      }
      EvictedKeeps(t, |t.swap|);
      EvictedLists(t, |t.swap|);
      TrackedKeeps(Evicted(t, |t.swap|), a);
    }
  }

  lemma {:induction false} TrackedKeeps(s: Vm, va: nat)
    requires Core(s) && va in s.pt && s.pt[va].present && va !in s.pages
    ensures Core(Tracked(s, va)) && UserMem(Tracked(s, va)) == UserMem(s)
  {
    var t := Tracked(s, va);
    forall i | 0 <= i < |t.metas|
      ensures MetaOk(t, t.metas[i])
    {
      assert MetaOk(s, s.metas[i]);
    }
    assert Core(t);
    forall vb | vb in s.pt
      ensures UserPage(t, vb) == UserPage(s, vb)
    {
    }
  }

  lemma {:induction false} EvictedLists(s: Vm, off: nat)
    requires Core(s) && |s.pages| > 0 && off % PGSIZE == 0 && off <= |s.swap|
    ensures var t := Evicted(s, off);
            |t.swap| == (if off + PGSIZE <= |s.swap| then |s.swap| else off + PGSIZE)
            && t.left + t.pages == s.left + s.pages
            && (forall va :: va in t.pt && va != s.pages[0] ==> va in s.pt && t.pt[va] == s.pt[va])
  {
    WrittenSlots(s.swap, off, s.ram[s.pt[s.pages[0]].frame], 0);
  }

  lemma {:induction false} SwappedKeeps(s: Vm, i: nat)
    requires Inv(s) && |s.free| > 0 && i < |s.metas| && MetaOk(s, s.metas[i])
    ensures Inv(Swapped(s, i)) && UserMem(Swapped(s, i)) == UserMem(s)
    ensures var t := Swapped(s, i);
            t.pt.Keys == s.pt.Keys && t.pt[s.metas[i].va].present && |t.free| == |s.free|
            && |t.pages| == |s.pages| && |t.metas| == |s.metas|
  {
    var m, t := s.metas[i], Loaded(s, i);
    LoadedKeeps(s, i);
    WithoutDistinct(s.metas, i);
    EvictedKeeps(t, m.fileStart);
    EvictedLists(t, m.fileStart);
    TrackedKeeps(Evicted(t, m.fileStart), m.va);
  }

  // --- Whole runs -----------------------------------------------------------------------

  /** What a process does with its memory: grow by a page, read one, write one. */
  datatype Op = Grow(a: nat) | Read(va: nat) | Write(va: nat, page: Page)

  /** A page that is out is brought back by the page fault its access raises. */
  ghost function Faulted(s: Vm, va: nat): Vm
    requires Inv(s) && va in s.pt && |s.free| > 0
  {
    if s.pt[va].present then s
    else
      var i := IndexOf(s.metas, va);
      assert MetaOk(s, s.metas[i]);
      LoadedKeeps(s, i);
      Swapped(s, i)
  }

  function Stored(s: Vm, va: nat, page: Page): Vm
    requires va in s.pt
  {
    s.(ram := s.ram[s.pt[va].frame := page])
  }

  ghost predicate Enabled(s: Vm, op: Op) {
    match op
    case Grow(a) => CanGrow(s, a)
    case Read(va) => va in s.pt && |s.free| > 0
    case Write(va, _) => va in s.pt && |s.free| > 0
  }

  /** The new state, and what a read returns. */
  ghost function Step(s: Vm, op: Op): (Vm, seq<Page>)
    requires Inv(s) && Enabled(s, op)
  {
    match op
    case Grow(a) => GrownKeeps(s, a); (Grown(s, a), [])
    case Read(va) =>
      FaultedKeeps(s, va);
      (Faulted(s, va), [UserPage(Faulted(s, va), va)])
    case Write(va, page) =>
      FaultedKeeps(s, va);
      (Stored(Faulted(s, va), va, page), [])
  }

  /** The same operation on an ordinary memory without frames, slots or faults. */
  function FlatStep(m: map<nat, Page>, op: Op): (map<nat, Page>, seq<Page>)
    requires op.Read? ==> op.va in m
  {
    match op
    case Grow(a) => (m[a := ZeroPage()], [])
    case Read(va) => (m, [m[va]])
    case Write(va, page) => (m[va := page], [])
  }

  lemma {:induction false} FaultedKeeps(s: Vm, va: nat)
    requires Inv(s) && va in s.pt && |s.free| > 0
    ensures var t := Faulted(s, va);
            Inv(t) && UserMem(t) == UserMem(s) && va in t.pt && t.pt[va].present && t.pt.Keys == s.pt.Keys
            && |t.pages| == |s.pages| && |t.metas| == |s.metas| && |t.free| == |s.free|
  {
    if !s.pt[va].present {
      var i := IndexOf(s.metas, va);
      assert MetaOk(s, s.metas[i]);
      SwappedKeeps(s, i);
    }
  }

  lemma {:induction false} StoredKeeps(s: Vm, va: nat, page: Page)
    requires Inv(s) && va in s.pt && s.pt[va].present
    ensures Inv(Stored(s, va, page)) && UserMem(Stored(s, va, page)) == UserMem(s)[va := page]
  {
    var t := Stored(s, va, page);
    forall i | 0 <= i < |t.metas|
      ensures MetaOk(t, t.metas[i])
    {
      assert MetaOk(s, s.metas[i]);
    }
    assert Core(t);
    forall vb | vb in s.pt
      ensures UserPage(t, vb) == if vb == va then page else UserPage(s, vb)
    {
    }
  }

  lemma {:induction false} StepIsFlat(s: Vm, op: Op)
    requires Inv(s) && Enabled(s, op)
    ensures op.Read? ==> op.va in UserMem(s)
    ensures Inv(Step(s, op).0)
    ensures FlatStep(UserMem(s), op) == (UserMem(Step(s, op).0), Step(s, op).1)
    ensures var t := Step(s, op).0;
            |t.pages| + |t.metas| == |s.pages| + |s.metas| + if op.Grow? then 1 else 0
  {
    match op
    case Grow(a) => GrownKeeps(s, a);
    case Read(va) =>
      FaultedKeeps(s, va);
      assert UserMem(Faulted(s, va))[va] == UserPage(Faulted(s, va), va);
    case Write(va, page) =>
      FaultedKeeps(s, va);
      StoredKeeps(Faulted(s, va), va, page);
  }

  ghost predicate AllEnabled(s: Vm, ops: seq<Op>)
    requires Inv(s)
    decreases |ops|
  {
    ops == [] ||
    (Enabled(s, ops[0]) && (StepIsFlat(s, ops[0]); AllEnabled(Step(s, ops[0]).0, ops[1..])))
  }

  ghost function Run(s: Vm, ops: seq<Op>): (Vm, seq<Page>)
    requires Inv(s) && AllEnabled(s, ops)
    decreases |ops|
  {
    if ops == [] then (s, [])
    else
      StepIsFlat(s, ops[0]);
      var (t, out) := Step(s, ops[0]);
      var (u, rest) := Run(t, ops[1..]);
      (u, out + rest)
  }

  /** The run of an ordinary memory.  Reads outside the memory give nothing. */
  function FlatRun(m: map<nat, Page>, ops: seq<Op>): (map<nat, Page>, seq<Page>)
    decreases |ops|
  {
    if ops == [] then (m, [])
    else if ops[0].Read? && ops[0].va !in m then FlatRun(m, ops[1..])
    else
      var (m1, out) := FlatStep(m, ops[0]);
      var (m2, rest) := FlatRun(m1, ops[1..]);
      (m2, out + rest)
  }

  /** One spare frame is enough for any sequence of reads and writes. */
  lemma {:induction false} AccessRuns(s: Vm, ops: seq<Op>)
    requires Inv(s) && |s.free| > 0 && forall op :: op in ops ==> !op.Grow? && op.va in s.pt
    ensures AllEnabled(s, ops) && |Run(s, ops).0.free| == |s.free|
    decreases |ops|
  {
    hide Core;
    if ops != [] {
      assert ops[0] in ops;
      FaultedKeeps(s, ops[0].va);
      StepIsFlat(s, ops[0]);
      var t := Step(s, ops[0]).0;
      AccessRuns(t, ops[1..]);
    }
  }

  function Grows(ops: seq<Op>): nat {
    if ops == [] then 0 else (if ops[0].Grow? then 1 else 0) + Grows(ops[1..])
  }

  /** Paging is transparent over any run: every read returns what it would on an
      ordinary memory, the memory ends the same, and the bookkeeping of Inv holds. */
  lemma {:induction false} PagingTransparent(s: Vm, ops: seq<Op>)
    requires Inv(s) && AllEnabled(s, ops)
    ensures var (t, out) := Run(s, ops);
            Inv(t) && FlatRun(UserMem(s), ops) == (UserMem(t), out)
            && |t.pages| + |t.metas| == |s.pages| + |s.metas| + Grows(ops)
    decreases |ops|
  {
    if ops != [] {
      StepIsFlat(s, ops[0]);
      PagingTransparent(Step(s, ops[0]).0, ops[1..]);
    }
  }

  /** Over any run, pages leave memory in the order they last became resident:
      the departures are the first arrivals, and the rest wait on page_list. */
  lemma {:induction false} FirstInFirstOut(s: Vm, ops: seq<Op>, k: nat)
    requires Inv(s) && AllEnabled(s, ops)
    requires k < |Run(s, ops).0.left|
    ensures var t := Run(s, ops).0;
            |t.left| <= |t.entered| && t.left[k] == t.entered[k] && t.pages == t.entered[|t.left|..]
  {
    PagingTransparent(s, ops);
    var t := Run(s, ops).0;
    assert t.entered[|t.left|..] == t.pages;
    assert (t.left + t.pages)[k] == t.left[k];
  }

  /** Growing is defined, with or without room in meta_list. */
  lemma {:induction false} GrownDefined(s: Vm, a: nat)
    requires Inv(s) && a !in s.pt && |s.free| > 0
    ensures |s.pages| >= MAX_PSYCH_PAGES ==>
              s.pages[0] in Mapped(s, a).pt && Mapped(s, a).pt[s.pages[0]].frame in Mapped(s, a).ram
    ensures var t := Grown(s, a);
            && t.pt.Keys == s.pt.Keys + {a}
            && |t.free| + |t.pages| == |s.free| + |s.pages|
            && |t.metas| == if |s.pages| < MAX_PSYCH_PAGES then |s.metas| else |s.metas| + 1
  {
    MappedKeeps(s, a);
  }

  /** meta_list has no capacity test: after any run, growing by one more page keeps
      within its 15 entries exactly while fewer than 30 pages are tracked, resident and
      swapped together; the next growth writes the entry one past its end. */
  lemma {:induction false} GrowthLimit(s: Vm, ops: seq<Op>, a: nat)
    requires Inv(s) && AllEnabled(s, ops)
    ensures var t := Run(s, ops).0;
            a !in t.pt && |t.free| > 0 ==>
              && (CanGrow(t, a) <==> |s.pages| + |s.metas| + Grows(ops) < 2 * MAX_PSYCH_PAGES)
              && (PagingTransparent(s, ops); GrownDefined(t, a);
                  if |s.pages| + |s.metas| + Grows(ops) < 2 * MAX_PSYCH_PAGES
                      then |Grown(t, a).metas| <= MAX_PSYCH_PAGES
                  else |Grown(t, a).metas| == MAX_PSYCH_PAGES + 1)
  {
    PagingTransparent(s, ops);
    var t := Run(s, ops).0;
    if a !in t.pt && |t.free| > 0 {
      GrownDefined(t, a);
    }
  }

  /** Growth by n pages from page number from on. */
  function Growth(from: nat, n: nat): (ops: seq<Op>)
    ensures |ops| == n
    decreases n
  {
    if n == 0 then [] else [Grow(from * PGSIZE)] + Growth(from + 1, n - 1)
  }

  lemma {:induction false} GrowsOfGrowth(from: nat, n: nat)
    ensures Grows(Growth(from, n)) == n
    decreases n
  {
    if n > 0 {
      GrowsOfGrowth(from + 1, n - 1);
    }
  }

  ghost predicate NoneFrom(s: Vm, from: nat) {
    forall k {:trigger k * PGSIZE} :: from <= k ==> k * PGSIZE !in s.pt
  }

  lemma {:induction false} GrowthRuns(s: Vm, from: nat, n: nat)
    requires Inv(s) && |s.pages| + |s.metas| + n <= 2 * MAX_PSYCH_PAGES
    requires |s.free| + |s.pages| > MAX_PSYCH_PAGES && NoneFrom(s, from)
    ensures AllEnabled(s, Growth(from, n))
    ensures var t := Run(s, Growth(from, n)).0; |t.free| > 0 && NoneFrom(t, from + n)
    decreases n
  {
    hide Core, UserMem;
    if n > 0 {
      var a := from * PGSIZE;
      GrownDefined(s, a);
      GrownKeeps(s, a);
      var ops := Growth(from, n);
      assert ops[0] == Grow(a) && ops[1..] == Growth(from + 1, n - 1);
      assert NoneFrom(Grown(s, a), from + 1) by {
        forall k | from + 1 <= k
          ensures k * PGSIZE !in Grown(s, a).pt
        {
          assert k * PGSIZE != from * PGSIZE;
        }
      }
      GrowthRuns(Grown(s, a), from + 1, n - 1);
      assert Step(s, ops[0]).0 == Grown(s, a);
    }
  }

  /** The limit is reached: any process with no page tracked and sixteen free frames can
      grow by thirty pages, and the thirty-first entry overruns meta_list. */
  lemma {:induction false} OverrunReached(s: Vm, from: nat)
    requires Inv(s) && s.pages == [] && s.metas == [] && |s.free| > MAX_PSYCH_PAGES && NoneFrom(s, from)
    ensures AllEnabled(s, Growth(from, 30))
    ensures var t := Run(s, Growth(from, 30)).0;
            && Inv(t) && |t.pages| == |t.metas| == MAX_PSYCH_PAGES && (from + 30) * PGSIZE !in t.pt && |t.free| > 0
            && (GrownDefined(t, (from + 30) * PGSIZE); |Grown(t, (from + 30) * PGSIZE).metas| == MAX_PSYCH_PAGES + 1)
  {
    GrowthRuns(s, from, 30);
    GrowsOfGrowth(from, 30);
    PagingTransparent(s, Growth(from, 30));
    GrowthLimit(s, Growth(from, 30), (from + 30) * PGSIZE);
  }

  /** Such a process: no memory yet, sixteen frames. */
  lemma {:induction false} FreshProcess() returns (s: Vm)
    ensures Inv(s) && s.pages == [] && s.metas == [] && |s.free| > MAX_PSYCH_PAGES && NoneFrom(s, 0)
  {
    var free := seq(16, i => i);
    s := Vm([], [], map[], [], map f: nat | f in free :: ZeroPage(), free, [], []);
  }
}
