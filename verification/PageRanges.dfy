/**
 Ranges of pages in an address space: what ProcessSegment::update_mapping does to the page tables, page by
 page, and the temporary address space of MemorySegment::copy.
 */
module PageRanges {
  import opened Arithmetic
  import opened PageTables

  // The pages in front of the kernel's part of the directory.
  const USER_PAGES := KERNEL_INDEX * 1024

  // Entry i of a directory in the part of the kernel is the kernel's, and not counted.
  ghost predicate Untouched(m: Memory, kernel: Frame, d: Frame, i: nat, n: nat) {
    n == 0 && Entry(m, d, i) == Entry(m, kernel, i)
  }

  // ... or it was given away, or it is counted, and then for a table of the kernel or one without pages from j on.
  ghost predicate Touched(m: Memory, kernel: Frame, d: Frame, i: nat, j: nat, n: nat) {
    || (n == 0 && Entry(m, d, i) == 0 != Entry(m, kernel, i))
    || (n > 0 && Entry(m, d, i) != 0
        && (Entry(m, d, i) == Entry(m, kernel, i)
            || forall k | j <= k < 1024 :: !IsPresent(Entry(m, TableOf(m, d, i), k))))
  }

  // What does not depend on counters: directories are neither free nor tables.
  ghost predicate Loose(m: Memory, free: set<Frame>, kernel: Frame, dirs: set<Frame>, d: Frame) {
    && Framed(m) && dirs <= m.Keys && free <= m.Keys && dirs !! free && 0 !in free && kernel in dirs && d in dirs && kernel != d
    && forall i | KERNEL_INDEX <= i < 1024 :: LooseEntry(m, Entry(m, d, i), dirs)
  }

  ghost predicate LooseEntry(m: Memory, e: Word, dirs: set<Frame>) {
    e == 0 || (IsPresent(e) && FrameOf(e) != 0 && FrameOf(e) in m && FrameOf(e) !in dirs)
  }

  // The directories change at one entry of one of them at most.
  ghost predicate OneEntry(m: Memory, m': Memory, dirs: set<Frame>, d: Frame, i: nat) {
    m'.Keys == m.Keys && forall c, k | c in dirs && !(c == d && k == i) :: Entry(m', c, k) == Entry(m, c, k)
  }

  // A frame that was free is cleared and comes to stand at an index of one directory.
  lemma AddedLoose(m: Memory, free: set<Frame>, m': Memory, free': set<Frame>, kernel: Frame, dirs: set<Frame>, d: Frame, i: nat,
                   kernelPage: bool, blank: Table)
    requires Loose(m, free, kernel, dirs, d) && i < 1024 && |blank| == 1024 && forall k | 0 <= k < 1024 :: !IsPresent(blank[k])
    requires TableAdded(m, free, m', free', {d}, i, kernelPage, blank)
    ensures Loose(m', free', kernel, dirs, d) && OneEntry(m, m', dirs, d, i) && Entry(m', d, i) != 0
    ensures TableOf(m', d, i) !in dirs && forall k: nat | k < 1024 :: !IsPresent(Entry(m', TableOf(m', d, i), k))
  {
    hide IsPresent, FrameOf, DirEntry;
    var f :| f in free && f != 0 && free' == free - {f} && EntryWritten(m[f := blank], m', {d}, i, DirEntry(f, kernelPage));
    Packed(f, kernelPage);
    SmallFrame(m, f);
    NoEntry();
    var m1 := m[f := blank];
    assert forall c | c in dirs :: m1[c] == m[c];
    assert Entry(m', d, i) == DirEntry(f, kernelPage);
    assert m'[f] == blank;
    forall k | KERNEL_INDEX <= k < 1024
      ensures LooseEntry(m', Entry(m', d, k), dirs)
    {
      assert LooseEntry(m, Entry(m, d, k), dirs);
      assert k != i ==> Entry(m', d, k) == Entry(m, d, k);
    }
  }

  // retain_page_tab in the part of the kernel.
  lemma RetainLoose(m: Memory, free: set<Frame>, n: nat, m': Memory, free': set<Frame>, n': nat, kernel: Frame, dirs: set<Frame>,
                    d: Frame, i: nat, kernelPage: bool, blank: Table, j: nat)
    requires Loose(m, free, kernel, dirs, d) && KERNEL_INDEX <= i < 1024 && n <= PINNED
    requires |blank| == 1024 && forall k | 0 <= k < 1024 :: !IsPresent(blank[k])
    requires Untouched(m, kernel, d, i, n) || Touched(m, kernel, d, i, j, n)
    requires Retained(true, m, free, n, m', free', n', d, {d}, i, kernelPage, blank)
    ensures Loose(m', free', kernel, dirs, d) && OneEntry(m, m', dirs, d, i)
    ensures 0 < n' <= PINNED && Touched(m', kernel, d, i, j, n')
    ensures n' == 1 ==> Entry(m', d, i) == Entry(m', kernel, i) || forall k: nat | j <= k < 1024 :: !IsPresent(Entry(m', TableOf(m', d, i), k))
  {
    hide IsPresent, FrameOf, TableAdded;
    NoEntry();
    assert LooseEntry(m, Entry(m, d, i), dirs);
    if n != PINNED && !IsPresent(Entry(m, d, i)) {
      AddedLoose(m, free, m', free', kernel, dirs, d, i, kernelPage, blank);
    }
  }

  // release_page_tab in the part of the kernel, for a table of the kernel.
  lemma ReleaseLoose(m: Memory, free: set<Frame>, n: nat, m': Memory, free': set<Frame>, n': nat, kernel: Frame, dirs: set<Frame>,
                     d: Frame, i: nat, j: nat)
    requires Loose(m, free, kernel, dirs, d) && KERNEL_INDEX <= i < 1024 && n <= PINNED
    requires Entry(m, d, i) == Entry(m, kernel, i) != 0
    requires Released(m, free, n, m', free', n', d, {d}, i)
    ensures Loose(m', free', kernel, dirs, d) && OneEntry(m, m', dirs, d, i)
    ensures n' <= PINNED && Touched(m', kernel, d, i, j, n')
  {
    hide IsPresent, FrameOf;
    NoEntry();
    assert LooseEntry(m, Entry(m, d, i), dirs);
    forall k | KERNEL_INDEX <= k < 1024
      ensures LooseEntry(m', Entry(m', d, k), dirs)
    {
      assert LooseEntry(m, Entry(m, d, k), dirs);
    }
  }

  // The entry of one page is written to a table.
  lemma EntryLoose(m: Memory, free: set<Frame>, t: Frame, kernel: Frame, dirs: set<Frame>, d: Frame, j: nat, e: Word)
    requires Loose(m, free, kernel, dirs, d) && j < 1024 && t !in dirs
    ensures Loose(WithEntry(m, t, j, e), free, kernel, dirs, d)
    ensures WithEntry(m, t, j, e).Keys == m.Keys && forall c, k | c in dirs :: Entry(WithEntry(m, t, j, e), c, k) == Entry(m, c, k)
  {
    hide IsPresent, FrameOf, WithEntry;
    var m' := WithEntry(m, t, j, e);
    assert forall c, k | c in dirs :: Entry(m', c, k) == Entry(m, c, k);
    forall k | KERNEL_INDEX <= k < 1024
      ensures LooseEntry(m', Entry(m', d, k), dirs)
    {
      assert LooseEntry(m, Entry(m, d, k), dirs);
    }
  }

  lemma WriteLoose(m: Memory, free: set<Frame>, n: nat, t: Frame, kernel: Frame, dirs: set<Frame>, d: Frame, i: nat, j: nat, e: Word)
    requires Loose(m, free, kernel, dirs, d) && KERNEL_INDEX <= i < 1024 && j < 1024 && t !in dirs
    requires Touched(m, kernel, d, i, j, n)
    ensures Loose(WithEntry(m, t, j, e), free, kernel, dirs, d) && OneEntry(m, WithEntry(m, t, j, e), dirs, d, i)
    ensures Touched(WithEntry(m, t, j, e), kernel, d, i, j + 1, n)
  {
    hide IsPresent, FrameOf, WithEntry;
    EntryLoose(m, free, t, kernel, dirs, d, j, e);
    var m' := WithEntry(m, t, j, e);
    assert TableOf(m', d, i) == TableOf(m, d, i);
    assert forall k | j + 1 <= k < 1024 :: Entry(m', TableOf(m, d, i), k) == Entry(m, TableOf(m, d, i), k);
  }

  // map_page in the part of the kernel.
  lemma SetLoose(m: Memory, free: set<Frame>, n: nat, m': Memory, free': set<Frame>, n': nat, kernel: Frame, dirs: set<Frame>,
                 d: Frame, i: nat, kernelPage: bool, blank: Table, j: nat, e: Word)
    requires Loose(m, free, kernel, dirs, d) && KERNEL_INDEX <= i < 1024 && n <= PINNED && j < 1024
    requires |blank| == 1024 && forall k | 0 <= k < 1024 :: !IsPresent(blank[k])
    requires Untouched(m, kernel, d, i, n) || Touched(m, kernel, d, i, j, n)
    requires PageMapped(m, free, n, m', free', n', d, {d}, i, kernelPage, blank, j, e)
    ensures Loose(m', free', kernel, dirs, d) && OneEntry(m, m', dirs, d, i)
    ensures n' <= PINNED && Touched(m', kernel, d, i, j + 1, n')
  {
    hide IsPresent, FrameOf, Retained, Released, WithEntry, Loose;
    var m1, free1, n1, m2 :|
      && Retained(true, m, free, n, m1, free1, n1, d, {d}, i, kernelPage, blank)
      && ReleasedIf(IsPresent(Entry(m1, TableOf(m1, d, i), j)), m1, free1, n1, m2, free', n', d, {d}, i)
      && m' == WithEntry(m2, TableOf(m1, d, i), j, e);
    RetainLoose(m, free, n, m1, free1, n1, kernel, dirs, d, i, kernelPage, blank, j);
    if IsPresent(Entry(m1, TableOf(m1, d, i), j)) {
      ReleaseLoose(m1, free1, n1, m2, free', n', kernel, dirs, d, i, j);
    }
    TableNoDir(m1, free1, kernel, dirs, d, i);
    WriteLoose(m2, free', n', TableOf(m1, d, i), kernel, dirs, d, i, j, e);
  }

  lemma TableNoDir(m: Memory, free: set<Frame>, kernel: Frame, dirs: set<Frame>, d: Frame, i: nat)
    requires Loose(m, free, kernel, dirs, d) && KERNEL_INDEX <= i < 1024 && Entry(m, d, i) != 0
    ensures TableOf(m, d, i) !in dirs && TableOf(m, d, i) != 0 && kernel in dirs && d in dirs
  {
    hide IsPresent, FrameOf;
    assert LooseEntry(m, Entry(m, d, i), dirs);
  }

  // unmap_page of a page that is mapped, in the part of the kernel.
  lemma UnsetLoose(m: Memory, free: set<Frame>, n: nat, m': Memory, free': set<Frame>, n': nat, kernel: Frame, dirs: set<Frame>,
                   d: Frame, i: nat, j: nat)
    requires Loose(m, free, kernel, dirs, d) && KERNEL_INDEX <= i < 1024 && n <= PINNED && j < 1024
    requires Untouched(m, kernel, d, i, n) || Touched(m, kernel, d, i, j, n)
    requires TableOf(m, d, i) != 0 && IsPresent(Entry(m, TableOf(m, d, i), j))
    requires Released(WithEntry(m, TableOf(m, d, i), j, 0), free, n, m', free', n', d, {d}, i)
    ensures Loose(m', free', kernel, dirs, d) && OneEntry(m, m', dirs, d, i)
    ensures n' <= PINNED && Touched(m', kernel, d, i, j + 1, n')
  {
    hide IsPresent, FrameOf, Released, WithEntry, Loose;
    NoEntry();
    TableNoDir(m, free, kernel, dirs, d, i);
    EntryLoose(m, free, TableOf(m, d, i), kernel, dirs, d, j, 0);
    ReleaseLoose(WithEntry(m, TableOf(m, d, i), j, 0), free, n, m', free', n', kernel, dirs, d, i, j + 1);
  }

  // What an address space maps its own pages to.
  type PageMap = map<int, Mapping>

  ghost function UserPart(m: Memory, dir: Frame): PageMap {
    map q | 0 <= q < USER_PAGES && Lookup(m, dir, q) != None :: Lookup(m, dir, q)
  }

  ghost function KernelPart(m: Memory, dir: Frame): PageMap {
    map q | USER_PAGES <= q < PAGES && Lookup(m, dir, q) != None :: Lookup(m, dir, q)
  }

  ghost function View(vmm: VirtualMemoryManager): map<AddressSpace, PageMap>
    reads vmm
  {
    map v | v in vmm.Spaces() :: UserPart(vmm.mem, v.pageDir)
  }

  ghost function KernelPages(vmm: VirtualMemoryManager): PageMap
    reads vmm
  {
    KernelPart(vmm.mem, vmm.kernel.pageDir)
  }

  // A directory whose entries from page q on, in the part of the kernel, are still the kernel's.
  ghost predicate ReadyOn(m: Memory, free: set<Frame>, kernel: Frame, dirs: set<Frame>, d: Frame, counts: seq<nat>, q: nat) {
    && Loose(m, free, kernel, dirs, d) && |counts| == 1024 && (forall i | 0 <= i < 1024 :: counts[i] <= PINNED)
    && (forall i | KERNEL_INDEX <= i < 1024 && q <= 1024 * i :: Untouched(m, kernel, d, i, counts[i]))
    && (USER_PAGES <= q < PAGES ==>
          Untouched(m, kernel, d, q / 1024, counts[q / 1024]) || Touched(m, kernel, d, q / 1024, q % 1024, counts[q / 1024]))
  }

  // It has something in the part of the kernel that is not the kernel's, or counts something there.
  ghost predicate AstrayOn(m: Memory, kernel: Frame, d: Frame, counts: seq<nat>)
    requires |counts| == 1024
  {
    exists i :: KERNEL_INDEX <= i < 1024 && !Untouched(m, kernel, d, i, counts[i])
  }

  // A page of the part of the kernel was mapped.
  lemma Further(m: Memory, free: set<Frame>, counts: seq<nat>, m': Memory, free': set<Frame>, n': nat, kernel: Frame,
                dirs: set<Frame>, d: Frame, q: nat)
    requires ReadyOn(m, free, kernel, dirs, d, counts, q) && USER_PAGES <= q < PAGES
    requires Loose(m', free', kernel, dirs, d) && OneEntry(m, m', dirs, d, q / 1024) && n' <= PINNED
    requires Touched(m', kernel, d, q / 1024, q % 1024 + 1, n')
    ensures ReadyOn(m', free', kernel, dirs, d, counts[q / 1024 := n'], q + 1)
    ensures AstrayOn(m', kernel, d, counts[q / 1024 := n'])
  {
    hide IsPresent, FrameOf, Entry, Touched;
    var i := q / 1024;
    var counts' := counts[i := n'];
    assert !Untouched(m', kernel, d, i, counts'[i]) by { TouchedIsNot(m', kernel, d, i, q % 1024 + 1, n'); }
    assert (q + 1) / 1024 == i ==> (q + 1) % 1024 == q % 1024 + 1;
    assert (q + 1) / 1024 != i ==> (q + 1) == 1024 * (i + 1);
    forall k | KERNEL_INDEX <= k < 1024 && q + 1 <= 1024 * k
      ensures Untouched(m', kernel, d, k, counts'[k])
    {
      assert Untouched(m, kernel, d, k, counts[k]);
      assert kernel in dirs && d in dirs && k != i;
    }
  }

  lemma TouchedIsNot(m: Memory, kernel: Frame, d: Frame, i: nat, j: nat, n: nat)
    requires Touched(m, kernel, d, i, j, n)
    ensures !Untouched(m, kernel, d, i, n)
  {
  }

  // A page of the part of the kernel was not mapped, and stays so.
  lemma FurtherSame(m: Memory, free: set<Frame>, counts: seq<nat>, kernel: Frame, dirs: set<Frame>, d: Frame, q: nat)
    requires ReadyOn(m, free, kernel, dirs, d, counts, q) && USER_PAGES <= q < PAGES
    ensures ReadyOn(m, free, kernel, dirs, d, counts, q + 1)
  {
    hide IsPresent, FrameOf, Entry;
    assert (q + 1) / 1024 == q / 1024 ==> (q + 1) % 1024 == q % 1024 + 1;
    assert (q + 1) / 1024 != q / 1024 ==> (q + 1) == 1024 * (q / 1024 + 1);
  }

  ghost predicate Ready(vmm: VirtualMemoryManager, vm: AddressSpace, q: nat)
    reads vmm, vm.pageDirMapCount
  {
    && vmm.Distinct() && vm in vmm.vmems
    && ReadyOn(vmm.mem, vmm.free, vmm.kernel.pageDir, vmm.Dirs(), vm.pageDir, vm.pageDirMapCount[..], q)
  }

  ghost predicate Astray(vmm: VirtualMemoryManager, vm: AddressSpace)
    reads vmm, vm.pageDirMapCount
  {
    vm.pageDirMapCount.Length == 1024 && AstrayOn(vmm.mem, vmm.kernel.pageDir, vm.pageDir, vm.pageDirMapCount[..])
  }

  lemma AstrayNotValid(vmm: VirtualMemoryManager, vm: AddressSpace)
    requires vmm.Distinct() && vm in vmm.vmems && Astray(vmm, vm)
    ensures !vmm.Valid()
  {
    hide IsPresent, FrameOf, PresentCount;
    if vmm.Valid() {
      ValidReady(vmm, vm, 0);
    }
  }

  lemma ValidReady(vmm: VirtualMemoryManager, vm: AddressSpace, q: nat)
    requires vmm.Valid() && vm in vmm.vmems
    ensures Ready(vmm, vm, q) && !Astray(vmm, vm)
  {
    hide IsPresent, FrameOf, PresentCount;
    vmm.SpaceDirs();
    NoEntry();
    forall i | 0 <= i < 1024
      ensures vm.pageDirMapCount[i] <= PINNED
      ensures i >= KERNEL_INDEX ==> Untouched(vmm.mem, vmm.kernel.pageDir, vm.pageDir, i, vm.pageDirMapCount[i])
      ensures i >= KERNEL_INDEX ==> LooseEntry(vmm.mem, Entry(vmm.mem, vm.pageDir, i), vmm.Dirs())
    {
      assert vmm.Counted(vm, i);
      vmm.AnyCount(vm, i);
      AnyEntrySound(vmm.mem, vmm.free, vmm.kernel.pageDir, vmm.Dirs(), vmm.owners, vm.pageDir, i);
    }
  }

  // One page of the part of the kernel is mapped: afterwards the address space is astray.
  method ShowForeign(vmm: VirtualMemoryManager, vm: AddressSpace, page: nat, frame: Frame, write: bool) returns (ok: bool)
    requires Ready(vmm, vm, page) && USER_PAGES <= page < PAGES
    modifies vmm`mem, vmm`free, vmm`owners, vm.pageDirMapCount
    ensures !ok ==> vmm.free == {}
    ensures ok ==> Ready(vmm, vm, page + 1) && Astray(vmm, vm)
  {
    hide Loose, Untouched, Touched, OneEntry, Retained, PageMapped, IsPresent, FrameOf, TabEntry, PresentCount, Structure;
    hide VirtualMemoryManager.Valid;
    ghost var m0, free0, counts0 := vmm.mem, vmm.free, vm.pageDirMapCount[..];
    assert 0 !in vmm.free && vm.pageDir != vmm.kernel.pageDir by { LooseFree(vmm.mem, vmm.free, vmm.kernel.pageDir, vmm.Dirs(), vm.pageDir); }
    ok := vmm.MapPage(vm, page, frame, write);
    if ok {
      NoEntry();
      SetLoose(m0, free0, counts0[page / 1024], vmm.mem, vmm.free, vm.pageDirMapCount[page / 1024], vmm.kernel.pageDir, vmm.Dirs(),
               vm.pageDir, page / 1024, vm.isKernel, EMPTY, page % 1024, TabEntry(frame, write));
      Further(m0, free0, counts0, vmm.mem, vmm.free, vm.pageDirMapCount[page / 1024], vmm.kernel.pageDir, vmm.Dirs(), vm.pageDir, page);
      assert vm.pageDirMapCount[..] == counts0[page / 1024 := vm.pageDirMapCount[page / 1024]];
    }
  }

  lemma LooseFree(m: Memory, free: set<Frame>, kernel: Frame, dirs: set<Frame>, d: Frame)
    requires Loose(m, free, kernel, dirs, d)
    ensures 0 !in free && d != kernel && kernel in dirs && d in dirs
  {
  }

  // One page of the part of the kernel is unmapped: astray afterwards if so before, or if the page was mapped.
  method HideForeign(vmm: VirtualMemoryManager, vm: AddressSpace, page: nat)
    requires Ready(vmm, vm, page) && USER_PAGES <= page < PAGES
    modifies vmm`mem, vmm`free, vmm`owners, vm.pageDirMapCount
    ensures Ready(vmm, vm, page + 1)
    ensures Astray(vmm, vm) <==> old(Astray(vmm, vm)) || old(vmm.Maps(vm, page)) != None
    ensures old(vmm.Maps(vm, page)) == None ==> vmm.mem == old(vmm.mem) && vmm.free == old(vmm.free) && vmm.owners == old(vmm.owners)
    ensures old(vmm.Valid()) ==> (vmm.Valid() <==> old(vmm.Maps(vm, page)) == None)
  {
    hide Loose, Untouched, Touched, OneEntry, Released, IsPresent, FrameOf, PresentCount, Structure, WithEntry;
    hide VirtualMemoryManager.Valid;
    ghost var m0, free0, counts0 := vmm.mem, vmm.free, vm.pageDirMapCount[..];
    LooseFree(vmm.mem, vmm.free, vmm.kernel.pageDir, vmm.Dirs(), vm.pageDir);
    vmm.WhenNone(m0, vm.pageDir, page);
    assert !vmm.OwnPart(vm, page / 1024);
    vmm.UnmapPage(vm, page);
    assert vm.pageDirMapCount[..] == counts0[page / 1024 := vm.pageDirMapCount[page / 1024]];
    if Lookup(m0, vm.pageDir, page) == None {
      FurtherSame(m0, free0, counts0, vmm.kernel.pageDir, vmm.Dirs(), vm.pageDir, page);
    } else {
      UnsetLoose(m0, free0, counts0[page / 1024], vmm.mem, vmm.free, vm.pageDirMapCount[page / 1024], vmm.kernel.pageDir, vmm.Dirs(),
                 vm.pageDir, page / 1024, page % 1024);
      Further(m0, free0, counts0, vmm.mem, vmm.free, vm.pageDirMapCount[page / 1024], vmm.kernel.pageDir, vmm.Dirs(), vm.pageDir, page);
    }
  }

  lemma SameParts(m: Memory, m': Memory, d: Frame)
    requires forall q | 0 <= q < PAGES :: Lookup(m', d, q) == Lookup(m, d, q)
    ensures UserPart(m', d) == UserPart(m, d) && KernelPart(m', d) == KernelPart(m, d)
  {
    hide Lookup;
  }

  lemma UserPartChanged(m: Memory, m': Memory, d: Frame, page: nat)
    requires page < USER_PAGES && forall q | 0 <= q < USER_PAGES && q != page :: Lookup(m', d, q) == Lookup(m, d, q)
    ensures UserPart(m', d) == if Lookup(m', d, page) == None then UserPart(m, d) - {page} else UserPart(m, d)[page := Lookup(m', d, page)]
  {
    hide Lookup;
  }

  // Where one page of one address space changes, and no other, the maps of all spaces follow.
  lemma OneMapChanged(vmm: VirtualMemoryManager, vm: AddressSpace, page: nat, m0: Memory)
    requires vmm.kernel in vmm.Spaces() && vm in vmm.Spaces() && vm != vmm.kernel && page < USER_PAGES
    requires forall v, q | v in vmm.Spaces() && 0 <= q < PAGES && !(v == vm && q == page) :: vmm.Maps(v, q) == Lookup(m0, v.pageDir, q)
    ensures forall v | v in vmm.Spaces() && v != vm :: UserPart(vmm.mem, v.pageDir) == UserPart(m0, v.pageDir)
    ensures UserPart(vmm.mem, vm.pageDir) == if vmm.Maps(vm, page) == None then UserPart(m0, vm.pageDir) - {page}
                                             else UserPart(m0, vm.pageDir)[page := vmm.Maps(vm, page)]
    ensures KernelPart(vmm.mem, vmm.kernel.pageDir) == KernelPart(m0, vmm.kernel.pageDir)
  {
    hide Lookup, UserPart, KernelPart;
    forall v | v in vmm.Spaces() && v != vm
      ensures UserPart(vmm.mem, v.pageDir) == UserPart(m0, v.pageDir)
      ensures KernelPart(vmm.mem, v.pageDir) == KernelPart(m0, v.pageDir)
    {
      assert forall q | 0 <= q < PAGES :: vmm.Maps(v, q) == Lookup(m0, v.pageDir, q);
      SameParts(m0, vmm.mem, v.pageDir);
    }
    assert forall q | 0 <= q < USER_PAGES && q != page :: vmm.Maps(vm, q) == Lookup(m0, vm.pageDir, q);
    UserPartChanged(m0, vmm.mem, vm.pageDir, page);
  }

  lemma ViewUpdated(vmm: VirtualMemoryManager, vm: AddressSpace, view0: map<AddressSpace, PageMap>, part: PageMap)
    requires view0.Keys == vmm.Spaces() && vm in vmm.Spaces() && UserPart(vmm.mem, vm.pageDir) == part
    requires forall v | v in vmm.Spaces() && v != vm :: UserPart(vmm.mem, v.pageDir) == view0[v]
    ensures View(vmm) == view0[vm := part]
  {
    hide UserPart;
  }

  // One page of the own part is mapped.
  method ShowOwn(vmm: VirtualMemoryManager, vm: AddressSpace, page: nat, frame: Frame, write: bool) returns (ok: bool)
    requires vmm.Valid() && vm in vmm.vmems && page < USER_PAGES
    modifies vmm`mem, vmm`free, vmm`owners, vm.pageDirMapCount
    ensures !ok ==> vmm.free == {}
    ensures ok ==> vmm.Valid() && vmm.TableFrames() == old(vmm.TableFrames()) && vmm.mem.Keys == old(vmm.mem.Keys)
    ensures ok ==> View(vmm) == old(View(vmm))[vm := old(View(vmm))[vm][page := To(frame % FRAMES, write)]]
    ensures ok ==> KernelPages(vmm) == old(KernelPages(vmm))
  {
    hide IsPresent, FrameOf, TabEntry, PresentCount, Structure, Lookup, UserPart, KernelPart, PageMapped;
    ghost var m0, free0, view0 := vmm.mem, vmm.free, View(vmm);
    vmm.SpaceDirs();
    vmm.NoFrameZero();
    vmm.AnyCount(vm, page / 1024) by { assert vmm.Counted(vm, page / 1024); }
    ok := vmm.MapPage(vm, page, frame, write);
    if ok {
      OneMapChanged(vmm, vm, page, m0);
      ViewUpdated(vmm, vm, view0, view0[vm][page := To(frame % FRAMES, write)]);
      SetKeys(m0, free0, old(vm.pageDirMapCount[page / 1024]), vmm.mem, vmm.free, vm.pageDirMapCount[page / 1024], vm.pageDir,
              Sharers(vmm.kernel.pageDir, vmm.Dirs(), vm.pageDir), page / 1024, vm.isKernel, EMPTY, page % 1024, TabEntry(frame, write));
    }
  }

  lemma SetKeys(m: Memory, free: set<Frame>, n: nat, m': Memory, free': set<Frame>, n': nat, d: Frame, targets: set<Frame>,
                i: nat, kernelPage: bool, blank: Table, j: nat, e: Word)
    requires free <= m.Keys && PageMapped(m, free, n, m', free', n', d, targets, i, kernelPage, blank, j, e)
    ensures m'.Keys == m.Keys
  {
    hide IsPresent, FrameOf, DirEntry;
  }

  lemma UnsetKeys(m: Memory, free: set<Frame>, t: Frame, j: nat, n: nat, m': Memory, free': set<Frame>, n': nat, d: Frame,
                  targets: set<Frame>, i: nat)
    requires Released(WithEntry(m, t, j, 0), free, n, m', free', n', d, targets, i)
    ensures m'.Keys == m.Keys
  {
    hide IsPresent, FrameOf;
  }

  // One page of the own part is unmapped.
  method HideOwn(vmm: VirtualMemoryManager, vm: AddressSpace, page: nat)
    requires vmm.Valid() && vm in vmm.vmems && page < USER_PAGES
    modifies vmm`mem, vmm`free, vmm`owners, vm.pageDirMapCount
    ensures vmm.Valid() && vmm.TableFrames() == old(vmm.TableFrames()) && vmm.mem.Keys == old(vmm.mem.Keys)
    ensures View(vmm) == old(View(vmm))[vm := old(View(vmm))[vm] - {page}] && KernelPages(vmm) == old(KernelPages(vmm))
  {
    hide IsPresent, FrameOf, PresentCount, Structure, Lookup, UserPart, KernelPart, Released, WithEntry;
    ghost var m0, free0, n0, view0 := vmm.mem, vmm.free, vm.pageDirMapCount[page / 1024], View(vmm);
    vmm.SpaceDirs();
    vmm.AnyCount(vm, page / 1024) by { assert vmm.Counted(vm, page / 1024); }
    vmm.UnmapPage(vm, page);
    assert vmm.Maps(vm, page) == None;
    OneMapChanged(vmm, vm, page, m0);
    ViewUpdated(vmm, vm, view0, view0[vm] - {page});
    if Lookup(m0, vm.pageDir, page) != None {
      UnsetKeys(m0, free0, TableOf(m0, vm.pageDir, page / 1024), page % 1024, n0, vmm.mem, vmm.free, vm.pageDirMapCount[page / 1024],
                vm.pageDir, Sharers(vmm.kernel.pageDir, vmm.Dirs(), vm.pageDir), page / 1024);
    }
  }

  // The pages of a segment stand one after the other in a range; behind them nothing is mapped.
  ghost predicate RegionMapped(part: PageMap, base: nat, limit: nat, pages: seq<Frame>, write: bool) {
    forall q | base <= q < limit ::
      if q - base < |pages| then q in part && part[q] == To(pages[q - base], write) else q !in part
  }

  ghost predicate SameOutside(part: PageMap, part': PageMap, base: nat, limit: nat) {
    forall q | !(base <= q < limit) :: (q in part' <==> q in part) && (q in part ==> part'[q] == part[q])
  }

  // A range of which n pages are mapped and the others unmapped: none is mapped in the kernel's part, and none
  // is unmapped there that is mapped.
  ghost predicate Fits(kernelPages: PageMap, base: nat, limit: nat, n: nat) {
    && (n == 0 || limit <= base || limit <= USER_PAGES || base + n <= USER_PAGES)
    && forall q | base <= q < limit && USER_PAGES <= q :: q !in kernelPages
  }

  // All is in order, or the address space has gone astray in front of page q.
  ghost predicate Going(vmm: VirtualMemoryManager, vm: AddressSpace, q: nat)
    reads vmm, vmm.Counters(), vm.pageDirMapCount
  {
    vm in vmm.vmems && (vmm.Valid() || (Ready(vmm, vm, q) && Astray(vmm, vm) && q >= USER_PAGES))
  }

  lemma KernelPagesAre(vmm: VirtualMemoryManager, vm: AddressSpace, q: nat)
    requires vmm.Valid() && vm in vmm.vmems && USER_PAGES <= q < PAGES
    ensures q in KernelPages(vmm) <==> vmm.Maps(vm, q) != None
    ensures vm in View(vmm) && q !in View(vmm)[vm]
  {
    hide Lookup, VirtualMemoryManager.Valid;
    vmm.SharedKernelHalf(vm, vmm.kernel, q / 1024);
  }

  // The frames that are free or belong to the page tables.
  ghost function Held(vmm: VirtualMemoryManager): set<Frame>
    reads vmm
  {
    vmm.TableFrames() + vmm.Dirs()
  }

  // What a range of pages leaves as it is.
  ghost predicate SameElse(vmm: VirtualMemoryManager, held: set<Frame>, keys: set<Frame>, kernelPages: PageMap)
    reads vmm
  {
    Held(vmm) == held && vmm.mem.Keys == keys && KernelPages(vmm) == kernelPages
  }

  // One page of a range is mapped or unmapped.
  method ShowOne(vmm: VirtualMemoryManager, vm: AddressSpace, q: nat, mapped: bool, frame: Frame, write: bool) returns (ok: bool)
    requires Going(vmm, vm, q) && q < PAGES && frame < FRAMES
    modifies vmm`mem, vmm`free, vmm`owners, vm.pageDirMapCount
    ensures !ok ==> vmm.free == {} && mapped
    ensures ok ==> Going(vmm, vm, q + 1)
    ensures ok ==> (vmm.Valid() <==> old(vmm.Valid()) && (q < USER_PAGES || (!mapped && q !in old(KernelPages(vmm)))))
    ensures ok && vmm.Valid() ==>
              && SameElse(vmm, old(Held(vmm)), old(vmm.mem.Keys), old(KernelPages(vmm))) && vm in old(View(vmm))
              && View(vmm) == old(View(vmm))[vm := if mapped then old(View(vmm))[vm][q := To(frame, write)] else old(View(vmm))[vm] - {q}]
  {
    hide Lookup, VirtualMemoryManager.Valid, ReadyOn, AstrayOn, UserPart, KernelPart;
    ok := true;
    if q >= USER_PAGES {
      ok := ForeignOne(vmm, vm, q, mapped, frame, write);
    } else if mapped {
      ok := ShowOwn(vmm, vm, q, frame, write);
    } else {
      HideOwn(vmm, vm, q);
    }
  }

  method ForeignOne(vmm: VirtualMemoryManager, vm: AddressSpace, q: nat, mapped: bool, frame: Frame, write: bool) returns (ok: bool)
    requires Going(vmm, vm, q) && USER_PAGES <= q < PAGES
    modifies vmm`mem, vmm`free, vmm`owners, vm.pageDirMapCount
    ensures !ok ==> vmm.free == {} && mapped
    ensures ok ==> Going(vmm, vm, q + 1)
    ensures ok ==> (vmm.Valid() <==> old(vmm.Valid()) && !mapped && q !in old(KernelPages(vmm)))
    ensures ok && vmm.Valid() ==>
              && SameElse(vmm, old(Held(vmm)), old(vmm.mem.Keys), old(KernelPages(vmm))) && vm in old(View(vmm))
              && View(vmm) == old(View(vmm))[vm := old(View(vmm))[vm] - {q}]
  {
    hide Lookup, VirtualMemoryManager.Valid, ReadyOn, AstrayOn, UserPart, KernelPart;
    ok := true;
    ghost var valid, view0 := vmm.Valid(), View(vmm);
    if valid {
      ValidReady(vmm, vm, q);
      KernelPagesAre(vmm, vm, q);
    }
    if mapped {
      ok := ShowForeign(vmm, vm, q, frame, write);
    } else {
      HideForeign(vmm, vm, q);
      if valid && vmm.Valid() {
        ViewUpdated(vmm, vm, view0, view0[vm] - {q});
      }
    }
    if ok && Astray(vmm, vm) {
      AstrayNotValid(vmm, vm);
    }
  }

  lemma OneShown(part: PageMap, part1: PageMap, base: nat, q: nat, pages: seq<Frame>, write: bool)
    requires base <= q && RegionMapped(part1, base, q, pages, write) && SameOutside(part, part1, base, q)
    ensures var part2 := if q - base < |pages| then part1[q := To(pages[q - base], write)] else part1 - {q};
            RegionMapped(part2, base, q + 1, pages, write) && SameOutside(part, part2, base, q + 1)
  {
  }

  lemma FitsOneMore(kernelPages: PageMap, base: nat, q: nat, n: nat)
    requires base <= q
    ensures Fits(kernelPages, base, q + 1, n) <==>
              Fits(kernelPages, base, q, n) && (q < USER_PAGES || (q - base >= n && q !in kernelPages))
  {
  }

  // One address space changed in a range, and nothing else did.
  ghost predicate OnlyShown(vm: AddressSpace, view: map<AddressSpace, PageMap>, view': map<AddressSpace, PageMap>, base: nat, limit: nat,
                            pages: seq<Frame>, write: bool) {
    && vm in view && vm in view' && view' == view[vm := view'[vm]]
    && RegionMapped(view'[vm], base, limit, pages, write) && SameOutside(view[vm], view'[vm], base, limit)
  }

  lemma NothingShown(vm: AddressSpace, view: map<AddressSpace, PageMap>, base: nat, pages: seq<Frame>, write: bool)
    requires vm in view
    ensures OnlyShown(vm, view, view, base, base, pages, write)
  {
  }

  lemma EmptyShown(vm: AddressSpace, view: map<AddressSpace, PageMap>, view': map<AddressSpace, PageMap>, base: nat, limit: nat,
                   pages: seq<Frame>, write: bool)
    requires OnlyShown(vm, view, view', base, base, pages, write) && limit <= base
    ensures OnlyShown(vm, view, view', base, limit, pages, write)
  {
  }

  lemma OneMoreShown(vm: AddressSpace, view: map<AddressSpace, PageMap>, view1: map<AddressSpace, PageMap>, base: nat, q: nat,
                     pages: seq<Frame>, write: bool)
    requires base <= q && OnlyShown(vm, view, view1, base, q, pages, write)
    ensures OnlyShown(vm, view, view1[vm := if q - base < |pages| then view1[vm][q := To(pages[q - base], write)] else view1[vm] - {q}],
                      base, q + 1, pages, write)
  {
    OneShown(view[vm], view1[vm], base, q, pages, write);
  }

  lemma Viewed(vmm: VirtualMemoryManager, vm: AddressSpace)
    requires vm in vmm.vmems
    ensures vm in View(vmm)
  {
  }

  /**
   update_mapping, over the page tables: the range shows the pages.  All is in order afterwards if and only if
   no page of the kernel's part was mapped, and none that was mapped there was unmapped; then every other page
   of this and of every other address space is as before.
   */
  method ShowRange(vmm: VirtualMemoryManager, vm: AddressSpace, base: nat, limit: nat, pages: seq<Frame>, write: bool) returns (ok: bool)
    requires Going(vmm, vm, base) && limit <= PAGES && forall i | 0 <= i < |pages| :: pages[i] < FRAMES
    modifies vmm`mem, vmm`free, vmm`owners, vm.pageDirMapCount
    ensures !ok ==> vmm.free == {} && pages != []
    ensures ok ==> Going(vmm, vm, if base <= limit then limit else base)
    ensures ok ==> (vmm.Valid() <==> old(vmm.Valid()) && Fits(old(KernelPages(vmm)), base, limit, |pages|))
    ensures ok && vmm.Valid() ==>
              && OnlyShown(vm, old(View(vmm)), View(vmm), base, limit, pages, write)
              && SameElse(vmm, old(Held(vmm)), old(vmm.mem.Keys), old(KernelPages(vmm)))
  {
    hide Lookup, VirtualMemoryManager.Valid, ReadyOn, AstrayOn, UserPart, KernelPart, View, KernelPages, OnlyShown, Fits;
    ghost var valid, view0, held, keys, kernelPages := vmm.Valid(), View(vmm), Held(vmm), vmm.mem.Keys, KernelPages(vmm);
    Viewed(vmm, vm);
    NothingShown(vm, view0, base, pages, write);
    assert Fits(kernelPages, base, base, |pages|) && (limit <= base ==> Fits(kernelPages, base, limit, |pages|)) by {
      FitsNothing(kernelPages, base, limit, |pages|);
    }
    ok := true;
    var page := 0;
    while base + page < limit
      invariant (base + page <= limit || page == 0) && Going(vmm, vm, base + page)
      invariant vmm.Valid() <==> valid && Fits(kernelPages, base, base + page, |pages|)
      invariant vmm.Valid() ==> OnlyShown(vm, view0, View(vmm), base, base + page, pages, write)
      invariant vmm.Valid() ==> SameElse(vmm, held, keys, kernelPages)
    {
      FitsOneMore(kernelPages, base, base + page, |pages|);
      if vmm.Valid() {
        OneMoreShown(vm, view0, View(vmm), base, base + page, pages, write);
      }
      if page < |pages| {
        ok := ShowOne(vmm, vm, base + page, true, pages[page], write);
      } else {
        ok := ShowOne(vmm, vm, base + page, false, 0, write);
      }
      if !ok {
        return;
      }
      page := page + 1;
    }
    if limit <= base && vmm.Valid() {
      EmptyShown(vm, view0, View(vmm), base, limit, pages, write);
    }
  }

  lemma FitsNothing(kernelPages: PageMap, base: nat, limit: nat, n: nat)
    ensures Fits(kernelPages, base, base, n) && (limit <= base ==> Fits(kernelPages, base, limit, n))
  {
  }

  // A range that is as long as the segment.
  lemma FitsExactly(kernelPages: PageMap, base: nat, n: nat)
    ensures Fits(kernelPages, base, base + n, n) <==> n == 0 || base + n <= USER_PAGES
  {
  }

  /**
   What happens otherwise, at a page that the kernel has a table for and does not map, as 0xC0400 may be: the
   page appears in every other address space.
   */
  method SeenByAll(vmm: VirtualMemoryManager, vm: AddressSpace, other: AddressSpace, page: nat, frame: Frame, write: bool) returns (ok: bool)
    requires vmm.Valid() && vm in vmm.vmems && other in vmm.Spaces() && USER_PAGES <= page < PAGES && frame < FRAMES
    requires page !in KernelPages(vmm) && TableOf(vmm.mem, vmm.kernel.pageDir, page / 1024) != 0
    modifies vmm`mem, vmm`free, vmm`owners, vm.pageDirMapCount
    ensures ok && !vmm.Valid()
    ensures old(vmm.Maps(other, page)) == None && vmm.Maps(other, page) == To(frame, write)
  {
    hide Structure, Lookup, IsPresent, FrameOf, PresentCount, TabEntry, PageMapped;
    KernelPagesAre(vmm, vm, page);
    vmm.SharedKernelHalf(other, vm, page / 1024);
    vmm.SharedKernelHalf(vmm.kernel, vm, page / 1024);
    vmm.AnyCount(vm, page / 1024) by { assert vmm.Counted(vm, page / 1024); }
    assert !vmm.OwnPart(vm, page / 1024) by { vmm.SpaceDirs(); }
    ok := vmm.MapPage(vm, page, frame, write);
  }

  // An address space counts no table of its own exactly when it maps no page of its own.
  lemma NoPagesNoTables(vmm: VirtualMemoryManager, vm: AddressSpace)
    requires vmm.Valid() && vm in vmm.vmems
    ensures vm in View(vmm)
    ensures View(vmm)[vm] == map[] <==> forall i | 0 <= i < KERNEL_INDEX :: vm.pageDirMapCount[i] == 0
  {
    hide Structure, IsPresent, FrameOf, PresentCount, VirtualMemoryManager.Valid, Meaning;
    TableInUse(vmm, vm, 0);
    forall i | 0 <= i < KERNEL_INDEX
      ensures vm.pageDirMapCount[i] == 0 <==> forall q | 1024 * i <= q < 1024 * (i + 1) :: vmm.Maps(vm, q) == None
    {
      TableInUse(vmm, vm, i);
    }
    if forall i | 0 <= i < KERNEL_INDEX :: vm.pageDirMapCount[i] == 0 {
      forall q | 0 <= q < USER_PAGES
        ensures Lookup(vmm.mem, vm.pageDir, q) == None
      {
        assert vmm.Maps(vm, q) == Lookup(vmm.mem, vm.pageDir, q);
        assert vm.pageDirMapCount[q / 1024] == 0 && 1024 * (q / 1024) <= q < 1024 * (q / 1024 + 1);
      }
      assert View(vmm)[vm] == map[];
    }
    if View(vmm)[vm] == map[] {
      forall i | 0 <= i < KERNEL_INDEX
        ensures vm.pageDirMapCount[i] == 0
      {
        forall q | 1024 * i <= q < 1024 * (i + 1)
          ensures vmm.Maps(vm, q) == None
        {
          assert 0 <= q < USER_PAGES && q !in View(vmm)[vm];
        }
      }
    }
  }

  lemma TableInUse(vmm: VirtualMemoryManager, vm: AddressSpace, i: nat)
    requires vmm.Valid() && vm in vmm.vmems && i < KERNEL_INDEX
    ensures vm.pageDirMapCount.Length == 1024
    ensures vm.pageDirMapCount[i] == 0 <==> forall q | 1024 * i <= q < 1024 * (i + 1) :: vmm.Maps(vm, q) == None
  {
    hide Structure, IsPresent, FrameOf, PresentCount, Meaning;
    vmm.SpaceDirs();
    vmm.AnyCount(vm, i) by { assert vmm.Counted(vm, i); }
    vmm.OwnCount(vm, i) by { assert vmm.Counted(vm, i); }
    var t := TableOf(vmm.mem, vm.pageDir, i);
    if t != 0 {
      UsedPage(vmm.mem, t);
      var j :| 0 <= j < 1024 && IsPresent(vmm.mem[t][j]);
      assert Entry(vmm.mem, t, j) == vmm.mem[t][j];
      vmm.WhenNone(vmm.mem, vm.pageDir, 1024 * i + j);
      assert (1024 * i + j) / 1024 == i && (1024 * i + j) % 1024 == j;
      assert vmm.Maps(vm, 1024 * i + j) != None;
    } else {
      assert forall q | 1024 * i <= q < 1024 * (i + 1) :: q / 1024 == i;
    }
  }

  lemma UsedPage(m: Memory, t: Frame)
    requires t in m && |m[t]| == 1024 && t != 0 && Used(m, t) > 0
    ensures exists j :: 0 <= j < 1024 && IsPresent(m[t][j])
  {
    hide IsPresent;
    NonePresent(m[t]);
  }

  // A new address space, with no pages of its own.
  method NewSpace(vmm: VirtualMemoryManager) returns (vm: AddressSpace?)
    requires vmm.Valid()
    modifies vmm`mem, vmm`free, vmm`vmems
    ensures vm == null <==> old(vmm.free) == {}
    ensures vm == null ==> vmm.free == {}
    ensures vm != null ==>
              && vmm.Valid() && fresh(vm) && fresh(vm.pageDirMapCount) && vmm.vmems == old(vmm.vmems) + [vm] && vm !in old(View(vmm))
              && View(vmm) == old(View(vmm))[vm := map[]] && KernelPages(vmm) == old(KernelPages(vmm))
              && vmm.mem.Keys == old(vmm.mem.Keys) && Held(vmm) == old(Held(vmm))
  {
    hide Structure, Lookup, IsPresent, FrameOf, PresentCount, VirtualMemoryManager.Valid;
    ghost var m0, spaces, view0 := vmm.mem, vmm.Spaces(), View(vmm);
    vm := vmm.Create();
    if vm != null {
      forall v | v in spaces
        ensures UserPart(vmm.mem, v.pageDir) == UserPart(m0, v.pageDir) && KernelPart(vmm.mem, v.pageDir) == KernelPart(m0, v.pageDir)
      {
        assert forall q | 0 <= q < PAGES :: vmm.Maps(v, q) == Lookup(vmm.mem, v.pageDir, q);
        SameParts(m0, vmm.mem, v.pageDir);
      }
      NoUserPart(vmm, vm);
      assert vmm.Spaces() == spaces + {vm};
      ViewUpdated(vmm, vm, view0[vm := map[]], map[]);
    }
  }

  lemma NoUserPart(vmm: VirtualMemoryManager, vm: AddressSpace)
    requires forall q | 0 <= q < USER_PAGES :: vmm.Maps(vm, q) == None
    ensures UserPart(vmm.mem, vm.pageDir) == map[]
  {
    hide Lookup;
    forall q | 0 <= q < USER_PAGES
      ensures Lookup(vmm.mem, vm.pageDir, q) == None
    {
      assert vmm.Maps(vm, q) == None;
    }
  }

  lemma DirsApart(vmm: VirtualMemoryManager, vm: AddressSpace)
    requires vmm.Valid() && vm in vmm.vmems
    ensures vmm.Dirs() !! vmm.TableFrames() && vm.pageDir in vmm.Dirs()
    ensures forall v | v in vmm.Spaces() && v != vm :: v.pageDir != vm.pageDir
    ensures vmm.Dirs() - {vm.pageDir} == set v | v in vmm.Spaces() - {vm} :: v.pageDir
  {
  }

  lemma LostFrames(frames: set<Frame>, frames': set<Frame>, dirs: set<Frame>, d: Frame)
    requires dirs !! frames && d in dirs && d in frames' && frames' <= frames + {d}
    ensures frames' + (dirs - {d}) <= frames + dirs
    ensures frames' + (dirs - {d}) == frames + dirs <==> frames' == frames + {d}
  {
    if frames' + (dirs - {d}) == frames + dirs {
      forall f | f in frames
        ensures f in frames'
      {
        assert f in frames' + (dirs - {d}) && f !in dirs;
      }
    }
  }

  /** An address space is destroyed: no frame is lost if and only if it maps no page of its own. */
  method DropSpace(vmm: VirtualMemoryManager, vm: AddressSpace)
    requires vmm.Valid() && vm in vmm.vmems
    modifies vmm`free, vmm`owners, vmm`vmems
    ensures vmm.Valid() && vmm.mem == old(vmm.mem) && KernelPages(vmm) == old(KernelPages(vmm))
    ensures vm in old(View(vmm)) && View(vmm) == old(View(vmm)) - {vm}
    ensures forall v | v in old(vmm.vmems) && v != vm :: v in vmm.vmems
    ensures Held(vmm) <= old(Held(vmm))
    ensures Held(vmm) == old(Held(vmm)) <==> old(View(vmm))[vm] == map[]
  {
    hide Structure, Lookup, IsPresent, FrameOf, PresentCount, VirtualMemoryManager.Valid, UserPart, KernelPart;
    NoPagesNoTables(vmm, vm);
    DirsApart(vmm, vm);
    ghost var frames, dirs := vmm.TableFrames(), vmm.Dirs();
    vmm.Destroy(vm);
    assert vmm.Dirs() == dirs - {vm.pageDir};
    LostFrames(frames, vmm.TableFrames(), dirs, vm.pageDir);
  }

  lemma UserSpace(vmm: VirtualMemoryManager, vm: AddressSpace)
    requires vmm.Valid()
    ensures vm in View(vmm) && !vm.isKernel <==> vm in vmm.vmems
  {
  }

  // The frame that an address space shows at one of its own pages.
  method Translate(vmm: VirtualMemoryManager, vm: AddressSpace, page: nat) returns (frame: Frame)
    requires vmm.Valid() && vm in View(vmm) && page in View(vmm)[vm]
    ensures frame == View(vmm)[vm][page].frame && vmm.Valid()
  {
    hide Structure, Lookup, IsPresent, FrameOf, PresentCount;
    frame := vmm.VirPaddrToPhy(vm, page);
  }

  // A free frame is taken away, for something else than page tables.
  method TakeFrame(vmm: VirtualMemoryManager) returns (f: Frame)
    requires vmm.Valid()
    modifies vmm`free
    ensures vmm.Valid() && View(vmm) == old(View(vmm)) && KernelPages(vmm) == old(KernelPages(vmm))
    ensures f == 0 <==> old(vmm.free) == {}
    ensures f == 0 ==> vmm.free == old(vmm.free)
    ensures f != 0 ==> f in old(vmm.free) && vmm.free == old(vmm.free) - {f} && f in vmm.mem && f < FRAMES
                       && Held(vmm) == old(Held(vmm)) - {f} && f in old(Held(vmm))
  {
    hide IsPresent, FrameOf, PresentCount, Lookup;
    f := 0;
    if vmm.free != {} {
      ghost var free0 := vmm.free;
      f :| f in vmm.free;
      vmm.free := vmm.free - {f};
      FewerFree(vmm.mem, free0, vmm.free, vmm.kernel.pageDir, vmm.Dirs(), vmm.owners);
      forall v, i | v in vmm.Spaces() && 0 <= i < 1024
        ensures vmm.Counted(v, i)
      {
        assert old(vmm.Counted(v, i));
      }
    }
  }

  lemma FewerFree(m: Memory, free: set<Frame>, free': set<Frame>, kernel: Frame, dirs: set<Frame>, owners: Owners)
    requires Structure(m, free, kernel, dirs, owners) && free' <= free
    ensures Structure(m, free', kernel, dirs, owners) && free !! dirs && free !! owners.Keys && 0 !in free && Framed(m) && free <= m.Keys
  {
  }

  // A frame that no page table has is given back.
  method GiveFrame(vmm: VirtualMemoryManager, f: Frame)
    requires vmm.Valid() && f in vmm.mem && f != 0 && f !in Held(vmm)
    modifies vmm`free
    ensures vmm.Valid() && View(vmm) == old(View(vmm)) && KernelPages(vmm) == old(KernelPages(vmm))
    ensures vmm.free == old(vmm.free) + {f} && Held(vmm) == old(Held(vmm)) + {f}
  {
    hide IsPresent, FrameOf, PresentCount, Lookup;
    ghost var free0 := vmm.free;
    vmm.free := vmm.free + {f};
    MoreFree(vmm.mem, free0, vmm.kernel.pageDir, vmm.Dirs(), vmm.owners, f);
    forall v, i | v in vmm.Spaces() && 0 <= i < 1024
      ensures vmm.Counted(v, i)
    {
      assert old(vmm.Counted(v, i));
    }
  }

  lemma MoreFree(m: Memory, free: set<Frame>, kernel: Frame, dirs: set<Frame>, owners: Owners, f: Frame)
    requires Structure(m, free, kernel, dirs, owners) && f in m && f != 0 && f !in dirs && f !in owners
    ensures Structure(m, free + {f}, kernel, dirs, owners)
  {
  }

  datatype Outcome = Done | NoFrame | TooLarge

  const TEMP_BASE := 0x100

  // What the temporary address space of copy shows: the source to read, and behind it the destination to write.
  ghost predicate ShowsBoth(part: PageMap, src: seq<Frame>, dst: seq<Frame>) {
    && (forall i {:trigger src[i]} | 0 <= i < |src| :: TEMP_BASE + i in part && part[TEMP_BASE + i] == To(src[i], false))
    && (forall i {:trigger dst[i]} | 0 <= i < |dst| ::
          TEMP_BASE + |src| + i in part && part[TEMP_BASE + |src| + i] == To(dst[i], true))
    && (src == dst == [] ==> part == map[])
  }

  lemma ShownAt(part: PageMap, src: seq<Frame>, dst: seq<Frame>, i: nat)
    requires ShowsBoth(part, src, dst) && i < |src| == |dst|
    ensures TEMP_BASE + i in part && part[TEMP_BASE + i] == To(src[i], false)
    ensures TEMP_BASE + |src| + i in part && part[TEMP_BASE + |src| + i] == To(dst[i], true)
  {
    var s, d := src[i], dst[i];
  }

  lemma BothShown(part1: PageMap, part2: PageMap, src: seq<Frame>, dst: seq<Frame>)
    requires RegionMapped(part1, TEMP_BASE, TEMP_BASE + |src|, src, false) && SameOutside(map[], part1, TEMP_BASE, TEMP_BASE + |src|)
    requires RegionMapped(part2, TEMP_BASE + |src|, TEMP_BASE + |src| + |dst|, dst, true)
    requires SameOutside(part1, part2, TEMP_BASE + |src|, TEMP_BASE + |src| + |dst|)
    ensures ShowsBoth(part2, src, dst)
  {
    forall i | 0 <= i < |src|
      ensures TEMP_BASE + i in part2 && part2[TEMP_BASE + i] == To(src[i], false)
    {
      assert TEMP_BASE + i in part1;
    }
    forall i | 0 <= i < |dst|
      ensures TEMP_BASE + |src| + i in part2 && part2[TEMP_BASE + |src| + i] == To(dst[i], true)
    {
      assert TEMP_BASE + |src| <= TEMP_BASE + |src| + i < TEMP_BASE + |src| + |dst|;
    }
    if src == dst == [] {
      assert forall q :: q !in part2;
    }
  }

  // The temporary address space is in order if and only if both fit together in front of the kernel's part.
  method ShowBoth(vmm: VirtualMemoryManager, tmp: AddressSpace, src: seq<Frame>, dst: seq<Frame>) returns (outcome: Outcome)
    requires vmm.Valid() && tmp in vmm.vmems && tmp in View(vmm) && View(vmm)[tmp] == map[]
    requires (forall i | 0 <= i < |src| :: src[i] < FRAMES) && (forall i | 0 <= i < |dst| :: dst[i] < FRAMES)
    modifies vmm`mem, vmm`free, vmm`owners, tmp.pageDirMapCount
    ensures outcome.NoFrame? ==> vmm.free == {}
    ensures outcome.TooLarge? ==> |src| + |dst| > USER_PAGES - TEMP_BASE && (|src| + |dst| <= PAGES - TEMP_BASE ==> !vmm.Valid())
    ensures outcome.Done? ==> |src| + |dst| <= USER_PAGES - TEMP_BASE
    ensures outcome.Done? ==>
              && vmm.Valid() && tmp in View(vmm) && View(vmm) == old(View(vmm))[tmp := View(vmm)[tmp]] && ShowsBoth(View(vmm)[tmp], src, dst)
              && SameElse(vmm, old(Held(vmm)), old(vmm.mem.Keys), old(KernelPages(vmm)))
  {
    hide RegionMapped, SameOutside, ShowsBoth, View, KernelPages, ReadyOn, AstrayOn, VirtualMemoryManager.Valid;
    ghost var kernelPages := KernelPages(vmm);
    var mid, end := TEMP_BASE + |src|, TEMP_BASE + |src| + |dst|;
    if end > PAGES {
      return TooLarge;
    }
    FitsExactly(kernelPages, TEMP_BASE, |src|);
    FitsExactly(kernelPages, mid, |dst|);
    var ok := ShowRange(vmm, tmp, TEMP_BASE, mid, src, false);
    if !ok {
      return NoFrame;
    }
    ghost var view1 := View(vmm);
    ok := ShowRange(vmm, tmp, mid, end, dst, true);
    if !ok {
      return NoFrame;
    }
    if end > USER_PAGES {
      return TooLarge;
    }
    BothShown(view1[tmp], View(vmm)[tmp], src, dst);
    return Done;
  }

  /** The temporary address space is made. */
  method Borrow(vmm: VirtualMemoryManager, src: seq<Frame>, dst: seq<Frame>) returns (outcome: Outcome, tmp: AddressSpace?)
    requires vmm.Valid() && (forall i | 0 <= i < |src| :: src[i] < FRAMES) && (forall i | 0 <= i < |dst| :: dst[i] < FRAMES)
    modifies vmm`mem, vmm`free, vmm`owners, vmm`vmems
    ensures outcome.NoFrame? ==> vmm.free == {}
    ensures outcome.TooLarge? ==> |src| + |dst| > USER_PAGES - TEMP_BASE && (|src| + |dst| <= PAGES - TEMP_BASE ==> !vmm.Valid())
    ensures outcome.Done? ==> |src| + |dst| <= USER_PAGES - TEMP_BASE
    ensures outcome.Done? ==>
              && tmp != null && vmm.Valid() && fresh(tmp) && vmm.vmems == old(vmm.vmems) + [tmp] && tmp in View(vmm) && tmp !in old(View(vmm))
              && View(vmm) == old(View(vmm))[tmp := View(vmm)[tmp]] && ShowsBoth(View(vmm)[tmp], src, dst)
              && vmm.mem.Keys == old(vmm.mem.Keys) && Held(vmm) == old(Held(vmm)) && KernelPages(vmm) == old(KernelPages(vmm))
  {
    hide ShowsBoth, View, KernelPages, VirtualMemoryManager.Valid;
    outcome := NoFrame;
    tmp := NewSpace(vmm);
    if tmp != null {
      outcome := ShowBoth(vmm, tmp, src, dst);
    }
  }
}
