/** Demand paging in place: the two fixed-size page lists of a process are shifted,
    its page table, swap file and the frame list are updated.  The two-level page
    table is a flat map here.  kalloc and the swap file's I/O succeed. */
module Swap {
  import opened Words
  import opened SwapSpec

  const KERNBASE: nat := 0x8000_0000

  function RoundUp(sz: nat): (a: nat)
    ensures a % PGSIZE == 0 && sz <= a < sz + PGSIZE
  {
    (sz + PGSIZE - 1) / PGSIZE * PGSIZE
  }

  /** Growth up to newsz, page by page from address a. */
  ghost function GrownTo(s: Vm, pid: nat, a: nat, newsz: nat): Vm
    requires Inv(s) && CanGrowTo(s, pid, a, newsz)
    decreases newsz - a
  {
    if a >= newsz then s
    else
      GrownOneKeeps(s, pid, a, newsz);
      GrownTo(GrownOne(s, pid, a), pid, a + PGSIZE, newsz)
  }

  /** Processes 1 and 2 are not paged. */
  ghost function GrownOne(s: Vm, pid: nat, a: nat): Vm
    requires Inv(s) && a !in s.pt && |s.free| > 0
    requires pid > 2 ==> CanGrow(s, a)
  {
    if pid > 2 then Grown(s, a) else Mapped(s, a)
  }

  function PagesFrom(a: nat, newsz: nat): nat {
    if a >= newsz then 0 else (newsz - a + PGSIZE - 1) / PGSIZE
  }

  predicate InRange(va: nat, a: nat, newsz: nat) {
    a <= va < newsz && (va - a) % PGSIZE == 0
  }

  lemma {:induction false} InRangeStep(va: nat, a: nat, newsz: nat)
    requires a < newsz
    ensures InRange(va, a, newsz) <==> va == a || InRange(va, a + PGSIZE, newsz)
  {
    if a < va {
      var q := (va - a) / PGSIZE;
      assert va - a == PGSIZE * q + (va - a) % PGSIZE;
    }
  }

  /** The pages of the new range are not mapped, the lists have room for them, and
      there are frames: one per page that is to stay resident, and one to spare. */
  ghost predicate CanGrowTo(s: Vm, pid: nat, a: nat, newsz: nat) {
    && (forall va :: va in s.pt ==> !InRange(va, a, newsz))
    && (pid > 2 ==> |s.pages| + |s.metas| + PagesFrom(a, newsz) <= 2 * MAX_PSYCH_PAGES)
    && (|s.free| >= PagesFrom(a, newsz) || (pid > 2 && |s.free| + |s.pages| > MAX_PSYCH_PAGES))
  }

  lemma {:induction false} RangeShrinks(s: Vm, t: Vm, a: nat, newsz: nat)
    requires a < newsz && t.pt.Keys == s.pt.Keys + {a}
    requires forall va :: va in s.pt ==> !InRange(va, a, newsz)
    ensures a !in s.pt
    ensures forall va :: va in t.pt ==> !InRange(va, a + PGSIZE, newsz)
    ensures PagesFrom(a, newsz) == 1 + PagesFrom(a + PGSIZE, newsz)
  {
    assert InRange(a, a, newsz);
    forall va | va in t.pt
      ensures !InRange(va, a + PGSIZE, newsz)
    {
      InRangeStep(va, a, newsz);
    }
  }

  lemma {:induction false} GrownOneKeeps(s: Vm, pid: nat, a: nat, newsz: nat)
    requires Inv(s) && CanGrowTo(s, pid, a, newsz) && a < newsz
    ensures a !in s.pt && |s.free| > 0 && (pid > 2 ==> CanGrow(s, a))
    ensures var t := GrownOne(s, pid, a);
            Inv(t) && UserMem(t) == UserMem(s)[a := ZeroPage()] && CanGrowTo(t, pid, a + PGSIZE, newsz)
            && |t.pages| + |t.metas| == |s.pages| + |s.metas| + (if pid > 2 then 1 else 0)
    ensures PagesFrom(a, newsz) == 1 + PagesFrom(a + PGSIZE, newsz)
  {
    RangeShrinks(s, Mapped(s, a), a, newsz);
    GrownOneMem(s, pid, a);
    RangeShrinks(s, GrownOne(s, pid, a), a, newsz);
  }

  lemma {:induction false} GrownOneMem(s: Vm, pid: nat, a: nat)
    requires Inv(s) && a !in s.pt && |s.free| > 0 && (pid > 2 ==> CanGrow(s, a))
    ensures var t := GrownOne(s, pid, a);
            Inv(t) && UserMem(t) == UserMem(s)[a := ZeroPage()] && t.pt.Keys == s.pt.Keys + {a}
            && |t.free| + |t.pages| >= |s.free| + |s.pages| - (if pid > 2 then 0 else 1)
            && |t.free| >= |s.free| - 1
            && |t.pages| + |t.metas| == |s.pages| + |s.metas| + (if pid > 2 then 1 else 0)
  {
    if pid > 2 {
      GrownKeeps(s, a);
    } else {
      MappedKeeps(s, a);
    }
  }

  /** A flat memory grown by zero pages from a up to newsz. */
  function ZeroExtended(m: map<nat, Page>, a: nat, newsz: nat): map<nat, Page>
    decreases newsz - a
  {
    if a >= newsz then m else ZeroExtended(m[a := ZeroPage()], a + PGSIZE, newsz)
  }

  /** Growth adds zero pages over the new range and changes no other byte. */
  lemma {:induction false} GrownToKeeps(s: Vm, pid: nat, a: nat, newsz: nat)
    requires Inv(s) && CanGrowTo(s, pid, a, newsz)
    ensures Inv(GrownTo(s, pid, a, newsz))
    ensures UserMem(GrownTo(s, pid, a, newsz)) == ZeroExtended(UserMem(s), a, newsz)
    // The first two processes are not paged: none of their pages is put on a list.
    ensures var t := GrownTo(s, pid, a, newsz);
            |t.pages| + |t.metas| == |s.pages| + |s.metas| + (if pid <= 2 then 0 else PagesFrom(a, newsz))
    decreases newsz - a
  {
    if a < newsz {
      GrownOneKeeps(s, pid, a, newsz);
      GrownToKeeps(GrownOne(s, pid, a), pid, a + PGSIZE, newsz);
    }
  }

  lemma {:induction false} ZeroExtendedAt(m: map<nat, Page>, a: nat, newsz: nat, va: nat)
    requires forall vb :: vb in m ==> !InRange(vb, a, newsz)
    ensures va in ZeroExtended(m, a, newsz) <==> va in m || InRange(va, a, newsz)
    ensures va in ZeroExtended(m, a, newsz) ==>
              if va in m then ZeroExtended(m, a, newsz)[va] == m[va]
              else forall k :: 0 <= k < PGSIZE ==> ZeroExtended(m, a, newsz)[va][k] == 0
    decreases newsz - a
  {
    if a < newsz {
      assert InRange(a, a, newsz);
      InRangeStep(va, a, newsz);
      var m1 := m[a := ZeroPage()];
      forall vb | vb in m1
        ensures !InRange(vb, a + PGSIZE, newsz)
      {
        InRangeStep(vb, a, newsz);
      }
      ZeroExtendedAt(m1, a + PGSIZE, newsz, va);
    }
  }

  class Process {
    const pid: nat
    const pageList: array<nat>
    var pageListLast: int
    const metaList: array<PageMeta>
    var metaListLast: int
    var fileOffset: nat
    var pgdir: map<nat, Pte>
    var swapFile: seq<Byte>
    var ram: map<nat, Page>
    var freelist: seq<nat>
    /** All of the above on values, with the history of page_list. */
    ghost var vm: Vm

    ghost predicate Agrees()
      reads this, pageList, metaList
    {
      && pageList.Length == MAX_PSYCH_PAGES && metaList.Length == MAX_PSYCH_PAGES
      && -1 <= pageListLast < MAX_PSYCH_PAGES && -1 <= metaListLast < MAX_PSYCH_PAGES
      && vm.pages == pageList[..pageListLast + 1]
      && vm.metas == metaList[..metaListLast + 1]
      && vm.pt == pgdir && vm.swap == swapFile && vm.ram == ram && vm.free == freelist
    }

    ghost predicate Valid()
      reads this, pageList, metaList
    {
      Agrees() && Inv(vm) && fileOffset == |swapFile|
    }

    /** allocproc's part: nothing tracked, nothing swapped, an empty swap file. */
    constructor (pid: nat, pgdir: map<nat, Pte>, ram: map<nat, Page>, freelist: seq<nat>)
      requires Core(Vm([], [], pgdir, [], ram, freelist, [], []))
      ensures Valid() && this.pid == pid && vm == Vm([], [], pgdir, [], ram, freelist, [], [])
    {
      this.pid, this.pgdir, this.ram, this.freelist := pid, pgdir, ram, freelist;
      pageList := new nat[MAX_PSYCH_PAGES](_ => 0);
      metaList := new PageMeta[MAX_PSYCH_PAGES](_ => PageMeta(0, 0));
      pageListLast, metaListLast, fileOffset, swapFile := -1, -1, 0, [];
      vm := Vm([], [], pgdir, [], ram, freelist, [], []);
    }

    // --- The lists ---------------------------------------------------------------------

    /** Takes the oldest page off page_list by shifting the rest to the left. */
    method FifoAlgo() returns (va: nat)
      requires Agrees() && pageListLast >= 0
      modifies this`pageListLast, this`vm, pageList
      ensures Agrees() && va == old(vm).pages[0]
      ensures vm == old(vm).(pages := old(vm).pages[1..], left := old(vm).left + [va])
    {
      ghost var pages := vm.pages;
      va := pageList[0];
      var j := 0;
      while j < pageListLast
        invariant 0 <= j <= pageListLast == old(pageListLast) && vm == old(vm)
        invariant forall k :: 0 <= k < j ==> pageList[k] == pages[k + 1]
        invariant forall k :: j <= k <= pageListLast ==> pageList[k] == pages[k]
      {
        pageList[j] := pageList[j + 1];
        j := j + 1;
      }
      pageListLast := pageListLast - 1;
      vm := vm.(pages := pages[1..], left := vm.left + [va]);
      assert pageList[..pageListLast + 1] == pages[1..];
    }

    method AppendPage(va: nat)
      requires Agrees() && pageListLast < MAX_PSYCH_PAGES - 1
      modifies this`pageListLast, this`vm, pageList
      ensures Agrees() && vm == Tracked(old(vm), va)
    {
      pageListLast := pageListLast + 1;
      pageList[pageListLast] := va;
      vm := Tracked(vm, va);
      assert pageList[..pageListLast + 1] == vm.pages;
    }

    /** remove_meta_: takes one entry off meta_list by shifting the rest to the left. */
    method RemoveMeta(index: nat)
      requires Agrees() && index <= metaListLast
      modifies this`metaListLast, this`vm, metaList
      ensures metaListLast == old(metaListLast) - 1
      ensures Agrees() && vm == old(vm).(metas := Without(old(vm).metas, index))
    {
      ghost var metas := vm.metas;
      var j := index;
      while j < metaListLast
        invariant index <= j <= metaListLast == old(metaListLast) && vm == old(vm)
        invariant forall k :: 0 <= k < index ==> metaList[k] == metas[k]
        invariant forall k :: index <= k < j ==> metaList[k] == metas[k + 1]
        invariant forall k :: j <= k <= metaListLast ==> metaList[k] == metas[k]
      {
        metaList[j] := metaList[j + 1];
        j := j + 1;
      }
      metaListLast := metaListLast - 1;
      vm := vm.(metas := Without(metas, index));
      assert metaList[..metaListLast + 1] == vm.metas;
    }

    method AppendMeta(va: nat, fileStart: nat)
      requires Agrees() && metaListLast < MAX_PSYCH_PAGES - 1
      modifies this`metaListLast, this`vm, metaList
      ensures Agrees() && vm == old(vm).(metas := old(vm).metas + [PageMeta(va, fileStart)])
    {
      metaListLast := metaListLast + 1;
      metaList[metaListLast] := PageMeta(va, fileStart);
      vm := vm.(metas := vm.metas + [PageMeta(va, fileStart)]);
      assert metaList[..metaListLast + 1] == vm.metas;
    }

    // --- Eviction, growth and faults ------------------------------------------------------

    /** kalloc and memset, then mappages with its test against remapping. */
    method MapNewPage(va: nat, page: Page)
      requires Agrees() && |freelist| > 0
      requires va in pgdir ==> !pgdir[va].present
      modifies this`pgdir, this`ram, this`freelist, this`vm
      ensures Agrees()
      ensures vm == old(vm).(pt := old(vm).pt[va := Pte(old(freelist)[0], true, false)],
                             ram := old(vm).ram[old(freelist)[0] := page], free := old(vm).free[1..])
    {
      var mem := freelist[0];
      freelist := freelist[1..];
      ram := ram[mem := ZeroPage()];
      ram := ram[mem := page];
      pgdir := pgdir[va := Pte(mem, true, false)];
      vm := vm.(pt := pgdir, ram := ram, free := freelist);
    }

    /** Both places that evict: the oldest page is written to the swap file at off,
        entered in meta_list, marked PTE_PG without PTE_P, and its frame freed. */
    method Evict(off: nat)
      requires Agrees() && pageListLast >= 0 && metaListLast < MAX_PSYCH_PAGES - 1
      requires vm.pages[0] in pgdir && pgdir[vm.pages[0]].frame in ram && off <= |swapFile|
      modifies this`pageListLast, this`metaListLast, this`pgdir, this`swapFile, this`ram, this`freelist, this`vm
      modifies pageList, metaList
      ensures Agrees() && vm == Evicted(old(vm), off)
      ensures pageListLast == old(pageListLast) - 1
      // kfree fills the frame with ones.
      ensures var f := old(pgdir)[old(vm).pages[0]].frame;
              freelist == [f] + old(freelist) && f in ram && forall k :: 0 <= k < PGSIZE ==> ram[f][k] == 1
    {
      var va := FifoAlgo();
      var pte := pgdir[va];
      swapFile := Written(swapFile, off, ram[pte.frame]);
      vm := vm.(swap := swapFile);
      AppendMeta(va, off);
      pgdir := pgdir[va := Pte(pte.frame, false, true)];
      ram := ram[pte.frame := JunkPage()];
      freelist := [pte.frame] + freelist;
      vm := vm.(pt := pgdir, ram := ram, free := freelist);
    }

    /** allocuvm, with kalloc and mappages succeeding. */
    method AllocUvm(oldsz: nat, newsz: nat) returns (sz: nat)
      requires Valid()
      requires oldsz <= newsz < KERNBASE ==> CanGrowTo(vm, pid, RoundUp(oldsz), newsz)
      modifies this, pageList, metaList
      ensures Valid()
      ensures newsz >= KERNBASE ==> sz == 0 && vm == old(vm)
      ensures newsz < KERNBASE && newsz < oldsz ==> sz == oldsz && vm == old(vm)
      ensures oldsz <= newsz < KERNBASE ==>
                && sz == newsz
                && vm == GrownTo(old(vm), pid, RoundUp(oldsz), newsz)
                && UserMem(vm) == ZeroExtended(UserMem(old(vm)), RoundUp(oldsz), newsz)
                && |vm.pages| + |vm.metas| == |old(vm).pages| + |old(vm).metas|
                     + (if pid <= 2 then 0 else PagesFrom(RoundUp(oldsz), newsz))
    {
      if newsz >= KERNBASE {
        return 0;
      }
      if newsz < oldsz {
        return oldsz;
      }
      GrownToKeeps(vm, pid, RoundUp(oldsz), newsz);
      GrowFrom(RoundUp(oldsz), newsz);
      sz := newsz;
    }

    method GrowFrom(start: nat, newsz: nat)
      requires Valid() && CanGrowTo(vm, pid, start, newsz)
      modifies this, pageList, metaList
      ensures Valid() && vm == GrownTo(old(vm), pid, start, newsz)
    {
      var a := start;
      while a < newsz
        invariant Valid() && CanGrowTo(vm, pid, a, newsz)
        invariant GrownTo(vm, pid, a, newsz) == GrownTo(old(vm), pid, start, newsz)
        decreases newsz - a
      {
        GrownOneKeeps(vm, pid, a, newsz);
        GrowByPage(a);
        a := a + PGSIZE;
      }
    }

    method GrowByPage(a: nat)
      requires Valid() && a !in vm.pt && |vm.free| > 0
      requires pid > 2 ==> CanGrow(vm, a)
      modifies this, pageList, metaList
      ensures Valid() && vm == GrownOne(old(vm), pid, a)
    {
      ghost var s := vm;
      MapNewPage(a, ZeroPage());
      MappedKeeps(s, a);
      if pid > 2 {
        GrownKeeps(s, a);
        if pageListLast < MAX_PSYCH_PAGES - 1 {
          AppendPage(a);
        } else {
          Evict(fileOffset);
          fileOffset := fileOffset + PGSIZE;
          AppendPage(a);
        }
      }
    }

    /** The page fault at address addr: 1 if the page was in the swap file and is
        back in memory, 0 if it was not there and nothing changed. */
    method DoTheSwap(addr: nat) returns (done: int)
      requires Valid() && |freelist| > 0
      modifies this, pageList, metaList
      ensures Valid()
      ensures done == if Listed(old(vm).metas, addr - addr % PGSIZE) then 1 else 0
      ensures done == 0 ==> vm == old(vm)
      ensures done == 1 ==>
                var i := IndexOf(old(vm).metas, addr - addr % PGSIZE);
                MetaOk(old(vm), old(vm).metas[i]) && vm == Swapped(old(vm), i)
                && UserMem(vm) == UserMem(old(vm)) && vm.pt[addr - addr % PGSIZE].present
    {
      hide Core, UserMem, Swapped, Loaded;
      var va := addr - addr % PGSIZE;
      var i := 0;
      while i <= metaListLast
        invariant 0 <= i <= metaListLast + 1
        invariant forall k :: 0 <= k < i ==> vm.metas[k].va != va
      {
        if va == metaList[i].va {
          assert vm.metas[i] == metaList[i];
          IndexIsFirst(vm.metas, i);
          CoreMeta(vm, i);
          LoadedKeeps(vm, i);
          SwappedKeeps(vm, i);
          BringBack(i);
          return 1;
        }
        i := i + 1;
      }
      return 0;
    }

    method BringBack(i: nat)
      requires Agrees() && |freelist| > 0 && i < |vm.metas| && MetaOk(vm, vm.metas[i])
      requires pageListLast >= 0 && Core(Loaded(vm, i))
      modifies this, pageList, metaList
      ensures Agrees() && vm == Swapped(old(vm), i) && fileOffset == old(fileOffset)
    {
      var m := metaList[i];
      assert m == vm.metas[i];
      LoadFromSwap(i);
      Evict(m.fileStart);
      AppendPage(m.va);
    }

    /** A new frame is filled from the swap file and mapped at the faulting page. */
    method LoadFromSwap(i: nat)
      requires Agrees() && |freelist| > 0 && i < |vm.metas| && MetaOk(vm, vm.metas[i])
      modifies this, pageList, metaList
      ensures Agrees() && vm == Loaded(old(vm), i)
      ensures fileOffset == old(fileOffset) && pageListLast == old(pageListLast)
              && metaListLast == old(metaListLast) - 1
    {
      var m := metaList[i];
      assert m == vm.metas[i];
      var page := Slot(swapFile, m.fileStart);
      RemoveMeta(i);
      MapNewPage(m.va, page);
    }
  }

  lemma {:induction false} CoreMeta(s: Vm, i: nat)
    requires Core(s) && i < |s.metas|
    ensures MetaOk(s, s.metas[i])
  {
  }

  lemma {:induction false} IndexIsFirst(metas: seq<PageMeta>, i: nat)
    requires i < |metas| && forall k :: 0 <= k < i ==> metas[k].va != metas[i].va
    ensures Listed(metas, metas[i].va) && IndexOf(metas, metas[i].va) == i
  {
    if i > 0 {
      assert metas[1..][i - 1] == metas[i];
      IndexIsFirst(metas[1..], i - 1);
    }
  }
}
