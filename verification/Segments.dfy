/**
 Memory of processes: segments of physical pages, shown at ranges of virtual pages through the page tables, and
 fork.
 */
module Segments {
  import opened PageTables
  import opened PageRanges

  // What all address spaces map their own pages to, what the kernel maps, and the frames that are not lost.
  datatype Picture = Picture(view: map<AddressSpace, PageMap>, kernelPages: PageMap, known: set<Frame>)

  /** Physical memory: its frames are free, or belong to page tables, or are pages of segments, or are lost. */
  class PhysicalMemory {
    const vmm: VirtualMemoryManager
    // The pages that were handed out, and what they hold.
    var used: set<Frame>
    var data: map<Frame, seq<nat>>

    constructor (vmm: VirtualMemoryManager)
      requires vmm.Valid()
      ensures Valid() && this.vmm == vmm && used == {}
    {
      this.vmm, used, data := vmm, {}, map[];
    }

    // No page is free, or part of the page tables.
    ghost predicate PagesApart()
      reads this, vmm
    {
      used !! Held(vmm) && used <= vmm.mem.Keys && forall f | f in used :: 0 < f < FRAMES
    }

    ghost predicate Valid()
      reads this, vmm, vmm.Counters()
    {
      vmm.Valid() && PagesApart()
    }

    // The frames that are not lost.
    ghost function Known(): set<Frame>
      reads this, vmm
    {
      Held(vmm) + used
    }

    ghost function Outline(): Picture
      reads this, vmm
    {
      Picture(View(vmm), KernelPages(vmm), Known())
    }

    // Afterwards only the frames of the tables that copying needs are lost: some, if and only if there was a page.
    ghost predicate Copied(outline: Picture, pages: seq<Frame>)
      reads this, vmm, vmm.Counters()
    {
      && Valid() && |pages| + |pages| <= USER_PAGES - TEMP_BASE
      && View(vmm) == outline.view && KernelPages(vmm) == outline.kernelPages && Known() <= outline.known
      && (Known() == outline.known <==> pages == [])
    }

    function Bytes(page: Frame): seq<nat>
      reads this
    {
      if page in data then data[page] else []
    }

    // Another address space, with nothing mapped.
    method AddSpace() returns (space: AddressSpace?)
      requires Valid()
      modifies vmm
      ensures space == null ==> vmm.free == {}
      ensures space != null ==>
                && Valid() && fresh(space) && fresh(space.pageDirMapCount) && space !in old(Outline()).view && !space.isKernel
                && Outline() == old(Outline()).(view := old(Outline()).view[space := map[]])
    {
      hide View, KernelPages, VirtualMemoryManager.Valid, Held;
      space := NewSpace(vmm);
      if space != null {
        UserSpace(vmm, space);
      }
    }

    method AllocPage() returns (page: Frame)
      requires Valid()
      modifies this`used, vmm`free
      ensures Valid() && Outline() == old(Outline())
      ensures page == 0 <==> old(vmm.free) == {}
      ensures page == 0 ==> used == old(used) && vmm.free == old(vmm.free)
      ensures page != 0 ==> page in old(vmm.free) && page !in old(used) && vmm.free == old(vmm.free) - {page} && used == old(used) + {page}
    {
      hide View, KernelPages, VirtualMemoryManager.Valid, Held;
      page := TakeFrame(vmm);
      if page != 0 {
        assert this !in vmm.Counters();
        used := used + {page};
        assert Known() == old(Known());
      }
    }

    method DeallocPage(page: Frame)
      requires Valid() && page in used
      modifies this`used, vmm`free
      ensures Valid() && Outline() == old(Outline())
      ensures used == old(used) - {page} && vmm.free == old(vmm.free) + {page}
    {
      hide View, KernelPages, VirtualMemoryManager.Valid, Held;
      GiveFrame(vmm, page);
      assert this !in vmm.Counters();
      used := used - {page};
      assert Known() == old(Known());
    }
  }

  ghost predicate Distinct(pages: seq<Frame>) {
    forall i, j | 0 <= i < j < |pages| :: pages[i] != pages[j]
  }

  function PageSet(pages: seq<Frame>): set<Frame> {
    set p | p in pages
  }

  // These pages were taken from the free frames, and are used now.
  ghost predicate Taken(pages: seq<Frame>, used0: set<Frame>, free0: set<Frame>, used: set<Frame>, free: set<Frame>) {
    && Distinct(pages) && used == used0 + PageSet(pages) && free == free0 - PageSet(pages) && |free| == |free0| - |pages|
    && PageSet(pages) !! used0 && PageSet(pages) <= free0
  }

  lemma NothingTaken(used: set<Frame>, free: set<Frame>)
    ensures Taken([], used, free, used, free)
  {
  }

  lemma PageSetMore(pages: seq<Frame>, page: Frame)
    ensures PageSet(pages + [page]) == PageSet(pages) + {page}
  {
  }

  lemma OneMoreTaken(pages: seq<Frame>, used0: set<Frame>, free0: set<Frame>, used: set<Frame>, free: set<Frame>, page: Frame)
    requires Taken(pages, used0, free0, used, free) && page in free && page !in used
    ensures Taken(pages + [page], used0, free0, used + {page}, free - {page})
  {
    PageSetMore(pages, page);
    DistinctMore(pages, page);
    hide PageSet, Distinct;
    MovedMore(PageSet(pages), used0, free0, used, free, page);
  }

  lemma DistinctMore(pages: seq<Frame>, page: Frame)
    requires Distinct(pages) && page !in PageSet(pages)
    ensures Distinct(pages + [page])
  {
    forall i, j | 0 <= i < j < |pages| + 1
      ensures (pages + [page])[i] != (pages + [page])[j]
    {
      assert pages[i] in PageSet(pages);
    }
  }

  lemma MovedMore(part: set<Frame>, used0: set<Frame>, free0: set<Frame>, used: set<Frame>, free: set<Frame>, page: Frame)
    requires used == used0 + part && free == free0 - part && page in free && page !in used
    ensures used + {page} == used0 + (part + {page}) && free - {page} == free0 - (part + {page}) && page in free0 && page !in used0
    ensures |free - {page}| == |free| - 1
  {
  }

  lemma AllTaken(pages: seq<Frame>, used0: set<Frame>, free0: set<Frame>, used: set<Frame>, free: set<Frame>)
    requires Taken(pages, used0, free0, used, free)
    ensures Distinct(pages) && used == used0 + PageSet(pages) && |free| == |free0| - |pages| && forall p | p in pages :: p !in used0
    ensures used - PageSet(pages) == used0 && free + PageSet(pages) == free0 && PageSet(pages) <= used
  {
  }

  lemma SameUnion(held: set<Frame>, held': set<Frame>, used: set<Frame>)
    requires held' <= held && used !! held
    ensures held' + used == held + used <==> held' == held
  {
    if held' + used == held + used {
      forall f | f in held
        ensures f in held'
      {
        assert f in held' + used;
      }
    }
  }

  // When the kernel stops: with no frame for a table or fewer than n for pages, or for a segment too large to copy.
  ghost predicate Stopped(outcome: Outcome, free: set<Frame>, n: nat) {
    && (outcome.NoFrame? ==> free == {} || |free| < n)
    && (outcome.TooLarge? ==> n + n > USER_PAGES - TEMP_BASE)
  }

  /** Physical pages with the permissions they are mapped with. */
  class MemorySegment {
    const write: bool
    const shared: bool
    var pages: seq<Frame>
    var psegments: seq<ProcessSegment>

    constructor (write: bool, shared: bool)
      ensures this.write == write && this.shared == shared && pages == [] && psegments == []
    {
      this.write, this.shared, pages, psegments := write, shared, [], [];
    }

    predicate CopyOnWrite()
      reads this
    {
      |psegments| > 1 && !shared && write
    }

    // get_perms_for_proc
    predicate WriteForProc()
      reads this
    {
      write && !CopyOnWrite()
    }

    // create: a segment of fresh pages, unless there are not so many; then those taken are given back.
    static method Create(phys: PhysicalMemory, count: nat, write: bool, shared: bool) returns (segment: MemorySegment?)
      requires phys.Valid()
      modifies phys`used, phys.vmm`free
      ensures phys.Valid() && phys.Outline() == old(phys.Outline())
      ensures segment == null <==> old(|phys.vmm.free|) < count
      ensures segment == null ==> phys.used == old(phys.used) && phys.vmm.free == old(phys.vmm.free)
      ensures segment != null ==>
                && fresh(segment) && segment.write == write && segment.shared == shared && segment.psegments == []
                && |segment.pages| == count && Distinct(segment.pages) && (forall p | p in segment.pages :: p !in old(phys.used))
                && phys.used == old(phys.used) + PageSet(segment.pages)
    {
      hide VirtualMemoryManager.Valid, PhysicalMemory.Outline, PhysicalMemory.PagesApart, Taken, Distinct, PageSet;
      segment := new MemorySegment(write, shared);
      assert segment !in phys.vmm.Counters();
      ghost var used, free := phys.used, phys.vmm.free;
      NothingTaken(used, free);
      var page: Frame := 1;
      var i := 0;
      while i < count
        invariant 0 <= i <= count && page != 0
        invariant phys.Valid() && phys.Outline() == old(phys.Outline())
        invariant fresh(segment) && |segment.pages| == i && segment.psegments == []
        invariant Taken(segment.pages, used, free, phys.used, phys.vmm.free)
      {
        ghost var pages, used1, free1 := segment.pages, phys.used, phys.vmm.free;
        page := phys.AllocPage();
        if page == 0 {
          break;
        }
        OneMoreTaken(pages, used, free, used1, free1, page);
        assert segment !in phys.vmm.Counters();
        segment.pages := segment.pages + [page];
        i := i + 1;
      }
      AllTaken(segment.pages, used, free, phys.used, phys.vmm.free);
      if page == 0 {
        segment.Delete(phys);
        segment := null;
      }
    }

    // The destructor gives the pages back.
    method Delete(phys: PhysicalMemory)
      requires phys.Valid() && Distinct(pages) && PageSet(pages) <= phys.used
      modifies phys`used, phys.vmm`free
      ensures phys.Valid() && phys.Outline() == old(phys.Outline())
      ensures phys.used == old(phys.used) - PageSet(pages) && phys.vmm.free == old(phys.vmm.free) + PageSet(pages)
    {
      hide VirtualMemoryManager.Valid, PhysicalMemory.Outline, PhysicalMemory.PagesApart;
      for i := 0 to |pages|
        invariant phys.Valid() && phys.Outline() == old(phys.Outline())
        invariant phys.used == old(phys.used) - PageSet(pages[..i]) && phys.vmm.free == old(phys.vmm.free) + PageSet(pages[..i])
      {
        assert pages[..i + 1] == pages[..i] + [pages[i]];
        assert pages[i] in PageSet(pages) && pages[i] !in PageSet(pages[..i]);
        phys.DeallocPage(pages[i]);
      }
      assert pages[..|pages|] == pages;
    }

    // create_copy: as many fresh pages with the same contents.
    static method CreateCopy(phys: PhysicalMemory, source: MemorySegment) returns (outcome: Outcome, segment: MemorySegment?)
      requires phys.Valid() && Distinct(source.pages) && forall p | p in source.pages :: p in phys.used
      modifies phys, phys.vmm
      ensures Stopped(outcome, phys.vmm.free, |source.pages|)
      ensures outcome.TooLarge? && |source.pages| + |source.pages| <= PAGES - TEMP_BASE ==> !phys.vmm.Valid()
      ensures outcome.Done? ==> phys.Copied(old(phys.Outline()), source.pages)
      ensures outcome.Done? ==>
                && segment != null && fresh(segment) && segment.write == source.write && segment.shared == source.shared
                && |segment.pages| == |source.pages| && Distinct(segment.pages) && segment.psegments == []
                && (forall p | p in segment.pages :: p !in old(phys.used)) && phys.used == old(phys.used) + PageSet(segment.pages)
                && (forall i | 0 <= i < |source.pages| :: phys.Bytes(segment.pages[i]) == old(phys.Bytes(source.pages[i])))
      ensures forall p | p in old(phys.used) :: phys.Bytes(p) == old(phys.Bytes(p))
    {
      hide VirtualMemoryManager.Valid, PhysicalMemory.Outline, PhysicalMemory.PagesApart, PhysicalMemory.Copied, Distinct;
      ghost var used := phys.used;
      segment := Create(phys, |source.pages|, source.write, source.shared);
      if segment == null {
        return NoFrame, null;
      }
      assert forall i | 0 <= i < |source.pages| :: source.pages[i] in used && segment.pages[i] !in used;
      outcome := Copy(phys, segment.pages, source.pages, used);
    }

    // copy: the contents of pages go to other pages, by way of a temporary address space.
    static method Copy(phys: PhysicalMemory, dst: seq<Frame>, src: seq<Frame>, ghost kept: set<Frame>) returns (outcome: Outcome)
      requires phys.Valid() && |dst| == |src| && Distinct(dst) && forall i | 0 <= i < |src| :: src[i] in kept && dst[i] !in kept
      requires forall i | 0 <= i < |src| :: src[i] in phys.used && dst[i] in phys.used
      modifies phys`data, phys.vmm
      ensures Stopped(outcome, phys.vmm.free, |src|)
      ensures outcome.TooLarge? && |src| + |src| <= PAGES - TEMP_BASE ==> !phys.vmm.Valid()
      ensures outcome.Done? ==> phys.Copied(old(phys.Outline()), src)
      ensures outcome.Done? ==> forall i | 0 <= i < |src| :: phys.Bytes(dst[i]) == old(phys.Bytes(src[i]))
      ensures forall p | p in kept :: phys.Bytes(p) == old(phys.Bytes(p))
    {
      hide VirtualMemoryManager.Valid, ShowsBoth, View, KernelPages, Held, Distinct, PhysicalMemory.Copied;
      ghost var outline := phys.Outline();
      var tmp;
      outcome, tmp := Borrow(phys.vmm, src, dst);
      if outcome.Done? {
        assert phys !in phys.vmm.Counters();
        CopyThrough(phys, tmp, dst, src, kept);
        Leave(phys, tmp, outline, src, dst);
      }
    }

    // The bytes are copied at the addresses where the temporary address space shows the pages.
    static method CopyThrough(phys: PhysicalMemory, tmp: AddressSpace, dst: seq<Frame>, src: seq<Frame>, ghost kept: set<Frame>)
      requires phys.vmm.Valid() && tmp in View(phys.vmm) && ShowsBoth(View(phys.vmm)[tmp], src, dst)
      requires |dst| == |src| && Distinct(dst) && forall i | 0 <= i < |src| :: src[i] in kept && dst[i] !in kept
      modifies phys`data
      ensures phys.vmm.Valid()
      ensures forall i | 0 <= i < |src| :: phys.Bytes(dst[i]) == old(phys.Bytes(src[i]))
      ensures forall p | p in kept :: phys.Bytes(p) == old(phys.Bytes(p))
    {
      hide VirtualMemoryManager.Valid, View, ShowsBoth;
      for i := 0 to |src|
        invariant phys.vmm.Valid()
        invariant forall j | 0 <= j < i :: phys.Bytes(dst[j]) == old(phys.Bytes(src[j]))
        invariant forall p | p in kept :: phys.Bytes(p) == old(phys.Bytes(p))
      {
        ShownAt(View(phys.vmm)[tmp], src, dst, i);
        var from := Translate(phys.vmm, tmp, TEMP_BASE + i);
        var to := Translate(phys.vmm, tmp, TEMP_BASE + |src| + i);
        assert phys !in phys.vmm.Counters();
        phys.data := phys.data[to := phys.Bytes(from)];
      }
    }

    // The temporary address space is destroyed.
    static method Leave(phys: PhysicalMemory, tmp: AddressSpace, ghost outline: Picture,
                        ghost src: seq<Frame>, ghost dst: seq<Frame>)
      requires phys.Valid() && tmp in phys.vmm.vmems && tmp in View(phys.vmm) && ShowsBoth(View(phys.vmm)[tmp], src, dst)
      requires |dst| == |src| && |src| + |src| <= USER_PAGES - TEMP_BASE && tmp !in outline.view
      requires phys.Outline() == outline.(view := outline.view[tmp := View(phys.vmm)[tmp]])
      modifies phys.vmm
      ensures phys.Copied(outline, src)
    {
      hide VirtualMemoryManager.Valid, View, KernelPages, Held;
      ghost var part, held := View(phys.vmm)[tmp], Held(phys.vmm);
      if src != [] {
        ShownAt(part, src, dst, 0);
      }
      DropSpace(phys.vmm, tmp);
      assert outline.view[tmp := part] - {tmp} == outline.view;
      SameUnion(held, Held(phys.vmm), phys.used);
    }

    /**
     process_map: the segment becomes that of a place in an address space.  A segment that has a place
     already stays with it, and the new place gets a copy.
     */
    method ProcessMap(phys: PhysicalMemory, seg: ProcessSegment) returns (outcome: Outcome)
      requires phys == seg.parent.phys && seg.parent.Linked() && seg.limit <= PAGES
      requires seg.msegment == this && |psegments| <= 1 && seg !in psegments
      requires Distinct(pages) && forall p | p in pages :: p in phys.used
      modifies (if psegments == [] then {this} else {})`psegments, seg`msegment, seg.parent`vmem, phys, phys.vmm
      modifies seg.parent.space.pageDirMapCount
      ensures Stopped(outcome, phys.vmm.free, |pages|)
      ensures outcome.Done? ==> (phys.vmm.Valid() <==> Fits(seg.parent.kernelPages, seg.base, seg.limit, |pages|))
      ensures outcome.Done? && phys.vmm.Valid() ==>
                && seg.Placed() && seg.parent.After(old(phys.Outline()), old(psegments) == [] || pages == [])
                && SameOutside(old(seg.parent.vmem), seg.parent.vmem, seg.base, seg.limit)
      ensures outcome.Done? ==> seg.Has(this, old(psegments) != [], old(phys.used)) && (old(psegments) != [] ==> fresh(seg.msegment))
      ensures forall p | p in old(phys.used) :: phys.Bytes(p) == old(phys.Bytes(p))
      decreases |psegments|, 0
    {
      hide VirtualMemoryManager.Valid, View, KernelPages, RegionMapped, SameOutside, Distinct, Fits;
      if |psegments| >= 1 {
        outcome := MapCopy(phys, seg);
        return;
      }
      seg.parent.NoCounters(seg, this);
      psegments := psegments + [seg];
      assert !CopyOnWrite();
      outcome := seg.UpdateMapping();
    }

    // The new place gets a copy.
    method MapCopy(phys: PhysicalMemory, seg: ProcessSegment) returns (outcome: Outcome)
      requires phys == seg.parent.phys && seg.parent.Linked() && seg.limit <= PAGES
      requires seg.msegment == this && |psegments| == 1 && seg !in psegments
      requires Distinct(pages) && forall p | p in pages :: p in phys.used
      modifies seg`msegment, seg.parent`vmem, phys, phys.vmm, seg.parent.space.pageDirMapCount
      ensures Stopped(outcome, phys.vmm.free, |pages|)
      ensures outcome.Done? ==> (phys.vmm.Valid() <==> Fits(seg.parent.kernelPages, seg.base, seg.limit, |pages|))
      ensures outcome.Done? && phys.vmm.Valid() ==>
                && seg.Placed() && seg.parent.After(old(phys.Outline()), pages == [])
                && SameOutside(old(seg.parent.vmem), seg.parent.vmem, seg.base, seg.limit)
      ensures outcome.Done? ==> seg.Has(this, true, old(phys.used)) && fresh(seg.msegment)
      ensures forall p | p in old(phys.used) :: phys.Bytes(p) == old(phys.Bytes(p))
      decreases 0, 2
    {
      hide VirtualMemoryManager.Valid, View, KernelPages, RegionMapped, SameOutside, Distinct, Fits, PhysicalMemory.Copied,
           PhysicalMemory.Valid, ProcessMemory.After, ProcessSegment.CopyOf, ProcessSegment.Placed, PhysicalMemory.Known;
      ghost var outline0 := phys.Outline();
      var copy;
      outcome, copy := CreateCopy(phys, this);
      if outcome.Done? {
        ghost var outline1 := phys.Outline();
        seg.parent.LinkedAfterCopy(outline0, pages);
        outcome := seg.SetSegment(phys, copy);
        if outcome.Done? {
          seg.IsCopy(this);
          if phys.vmm.Valid() {
            seg.parent.AfterBoth(outline0, outline1, pages);
          }
        }
      }
    }

    // process_unmap: the place is gone.
    method ProcessUnmap(seg: ProcessSegment)
      requires |psegments| <= 1
      modifies (if psegments == [seg] then {this} else {})`psegments
      ensures psegments == if old(psegments) == [seg] then [] else old(psegments)
    {
      if |psegments| == 1 && psegments[0] == seg {
        psegments := [];
      }
    }
  }

  /** A segment in the address space of a process. */
  class ProcessSegment {
    const parent: ProcessMemory
    const base: nat
    const limit: nat
    var msegment: MemorySegment?

    constructor (parent: ProcessMemory, base: nat, limit: nat)
      ensures this.parent == parent && this.base == base && this.limit == limit && msegment == null
    {
      this.parent, this.base, this.limit, msegment := parent, base, limit, null;
    }

    ghost function Pages(): seq<Frame>
      reads this, msegment
    {
      if msegment == null then [] else msegment.pages
    }

    // The range shows the pages of the segment, which has no other place.
    ghost predicate Placed()
      reads this, parent`vmem, msegment
    {
      msegment != null && msegment.psegments == [this]
      && RegionMapped(parent.vmem, base, limit, msegment.pages, msegment.write)
    }

    // set_segment, for a new place or one whose segment was left to another place.
    method SetSegment(phys: PhysicalMemory, segment: MemorySegment) returns (outcome: Outcome)
      requires phys == parent.phys && parent.Linked() && limit <= PAGES && |segment.psegments| <= 1 && this !in segment.psegments
      requires Distinct(segment.pages) && forall p | p in segment.pages :: p in phys.used
      requires msegment != null ==> |msegment.psegments| == 1 && this !in msegment.psegments
      modifies this`msegment, (if segment.psegments == [] then {segment} else {})`psegments, parent`vmem, phys, phys.vmm
      modifies parent.space.pageDirMapCount
      ensures Stopped(outcome, phys.vmm.free, |segment.pages|)
      ensures outcome.Done? ==> (phys.vmm.Valid() <==> Fits(parent.kernelPages, base, limit, |segment.pages|))
      ensures outcome.Done? && phys.vmm.Valid() ==>
                && Placed() && parent.After(old(phys.Outline()), old(segment.psegments) == [] || segment.pages == [])
                && SameOutside(old(parent.vmem), parent.vmem, base, limit)
      ensures outcome.Done? ==> Has(segment, old(segment.psegments) != [], old(phys.used)) && (old(segment.psegments) != [] ==> fresh(msegment))
      ensures forall p | p in old(phys.used) :: phys.Bytes(p) == old(phys.Bytes(p))
      decreases |segment.psegments|, 1
    {
      hide VirtualMemoryManager.Valid, View, KernelPages, RegionMapped, SameOutside, Distinct, Fits;
      if msegment != null {
        msegment.ProcessUnmap(this);
      }
      parent.NoCounters(this, segment);
      msegment := segment;
      outcome := segment.ProcessMap(phys, this);
    }

    // The segment of this place is that one, or a copy of it on pages that nobody had.
    ghost predicate Has(segment: MemorySegment, copied: bool, used: set<Frame>)
      reads this, msegment, segment, parent.phys
    {
      if copied then
        CopyOf(segment) && (forall p | p in msegment.pages :: p !in used) && parent.phys.used == used + PageSet(msegment.pages)
      else msegment == segment && parent.phys.used == used
    }

    lemma SameShape(segment: MemorySegment, copied: bool, used: set<Frame>)
      requires Has(segment, copied, used)
      ensures msegment != null && |msegment.pages| == |segment.pages| && msegment.write == segment.write && msegment.shared == segment.shared
      ensures copied ==> CopyOf(segment) && (forall p | p in msegment.pages :: p !in used) && parent.phys.used == used + PageSet(msegment.pages)
    {
    }

    // The segment of this place has the permissions and the contents of another one, on pages of its own.
    ghost predicate CopyOf(source: MemorySegment)
      reads this, msegment, source, parent.phys
    {
      && msegment != null && msegment != source && msegment.write == source.write && msegment.shared == source.shared
      && |msegment.pages| == |source.pages| && Distinct(msegment.pages)
      && forall i | 0 <= i < |source.pages| :: parent.phys.Bytes(msegment.pages[i]) == parent.phys.Bytes(source.pages[i])
    }

    lemma IsCopy(source: MemorySegment)
      requires msegment != null && msegment != source && msegment.write == source.write && msegment.shared == source.shared
      requires |msegment.pages| == |source.pages| && Distinct(msegment.pages)
      requires forall i | 0 <= i < |source.pages| :: parent.phys.Bytes(msegment.pages[i]) == parent.phys.Bytes(source.pages[i])
      ensures CopyOf(source)
    {
    }

    // update_mapping: the range shows the pages of the segment.
    method UpdateMapping() returns (outcome: Outcome)
      requires msegment != null && parent.Linked() && limit <= PAGES && forall p | p in msegment.pages :: p in parent.phys.used
      modifies parent`vmem, parent.phys.vmm, parent.space.pageDirMapCount
      ensures !outcome.TooLarge? && (outcome.NoFrame? ==> parent.phys.vmm.free == {})
      ensures outcome.Done? ==> (parent.phys.vmm.Valid() <==> Fits(parent.kernelPages, base, limit, |msegment.pages|))
      ensures outcome.Done? && parent.phys.vmm.Valid() ==>
                && parent.After(old(parent.phys.Outline()), true)
                && RegionMapped(parent.vmem, base, limit, msegment.pages, msegment.WriteForProc())
                && SameOutside(old(parent.vmem), parent.vmem, base, limit)
    {
      hide VirtualMemoryManager.Valid, View, KernelPages, Held, RegionMapped, SameOutside, Fits;
      UserSpace(parent.phys.vmm, parent.space);
      forall i | 0 <= i < |msegment.pages|
        ensures msegment.pages[i] < FRAMES
      {
        assert msegment.pages[i] in parent.phys.used;
      }
      var ok := ShowRange(parent.phys.vmm, parent.space, base, limit, msegment.pages, msegment.WriteForProc());
      parent.NoCounters(this, msegment);
      parent.vmem := if parent.space in View(parent.phys.vmm) then View(parent.phys.vmm)[parent.space] else map[];
      outcome := if ok then Done else NoFrame;
    }
  }

  ghost function Union<T>(parts: seq<set<T>>): set<T> {
    set i, p | 0 <= i < |parts| && p in parts[i] :: p
  }

  ghost predicate InSome(q: int, segments: seq<ProcessSegment>) {
    exists i :: 0 <= i < |segments| && segments[i].base <= q < segments[i].limit
  }

  lemma InRanges(vmem: PageMap, vmem': PageMap, was: seq<ProcessSegment>, added: ProcessSegment)
    requires (forall q | q in vmem :: InSome(q, was)) && SameOutside(vmem, vmem', added.base, added.limit)
    ensures forall q | q in vmem' :: InSome(q, was + [added])
  {
    forall q | q in vmem'
      ensures InSome(q, was + [added])
    {
      if added.base <= q < added.limit {
        assert (was + [added])[|was|] == added;
      } else {
        var i :| 0 <= i < |was| && was[i].base <= q < was[i].limit;
        assert (was + [added])[i] == was[i];
      }
    }
  }

  lemma NotInRange(vmem: PageMap, vmem': PageMap, was: seq<ProcessSegment>, k: nat)
    requires k < |was| && (forall q | q in vmem :: InSome(q, was)) && SameOutside(vmem, vmem', was[k].base, was[k].limit)
    requires forall q | was[k].base <= q < was[k].limit :: q !in vmem'
    ensures forall q | q in vmem' :: InSome(q, was[..k] + was[k + 1..])
  {
    forall q | q in vmem'
      ensures InSome(q, was[..k] + was[k + 1..])
    {
      var i :| 0 <= i < |was| && was[i].base <= q < was[i].limit;
      assert (was[..k] + was[k + 1..])[if i < k then i else i - 1] == was[i];
    }
  }

  // A place keeps its pages when another range changes.
  lemma StillMapped(vmem: PageMap, vmem': PageMap, base: nat, limit: nat, s: ProcessSegment)
    requires s.msegment != null && SameOutside(vmem, vmem', base, limit) && !(base < s.limit && s.base < limit)
    ensures RegionMapped(vmem, s.base, s.limit, s.msegment.pages, s.msegment.write) ==>
              RegionMapped(vmem', s.base, s.limit, s.msegment.pages, s.msegment.write)
  {
  }

  lemma PartOfUnion<T>(parts: seq<set<T>>, i: nat)
    requires i < |parts|
    ensures parts[i] <= Union(parts)
  {
    forall p | p in parts[i]
      ensures p in Union(parts)
    {
    }
  }

  lemma UnionMore<T>(parts: seq<set<T>>, added: set<T>)
    ensures Union(parts + [added]) == Union(parts) + added
  {
    var all := parts + [added];
    assert added == all[|parts|];
    forall i, p | 0 <= i < |parts| && p in parts[i]
      ensures p in Union(all)
    {
      assert p in all[i];
    }
  }

  lemma UnionLess(parts: seq<set<nat>>, k: nat)
    requires k < |parts| && forall i, j | 0 <= i < j < |parts| :: parts[i] !! parts[j]
    ensures Union(parts[..k] + parts[k + 1..]) == Union(parts) - parts[k]
  {
    var rest := parts[..k] + parts[k + 1..];
    forall p
      ensures p in Union(rest) <==> p in Union(parts) - parts[k]
    {
      if p in Union(rest) {
        var i :| 0 <= i < |rest| && p in rest[i];
        assert p in parts[if i < k then i else i + 1];
      }
      if p in Union(parts) - parts[k] {
        var i :| 0 <= i < |parts| && p in parts[i];
        assert p in rest[if i < k then i else i - 1];
      }
    }
  }

  // The pages of one owner go from mine to mine': they were nobody's before, and nobody else loses one.
  ghost predicate PagesMoved(used: set<nat>, used': set<nat>, mine: set<nat>, mine': set<nat>) {
    && mine' <= used' && (forall p | p in mine' && p !in mine :: p !in used)
    && used' - mine' == used - mine
  }

  lemma MovedIn(used: set<Frame>, mine: set<Frame>, pages: seq<Frame>)
    requires mine <= used
    ensures (forall p | p in pages :: p !in used) ==> PagesMoved(used, used + PageSet(pages), mine, mine + PageSet(pages))
  {
  }

  lemma NothingMoved(used: set<Frame>, mine: set<Frame>)
    requires mine <= used
    ensures PagesMoved(used, used, mine, mine)
  {
  }

  lemma MovedFresh(used: set<Frame>, mine: set<Frame>)
    requires mine !! used
    ensures PagesMoved(used, used + mine, {}, mine)
  {
  }

  lemma MovedOut(used: set<Frame>, mine: set<Frame>, part: set<Frame>)
    requires mine <= used && part <= mine
    ensures PagesMoved(used, used - part, mine, mine - part) && mine - part <= used - part
  {
  }

  lemma FitsNone(kernelPages: PageMap, base: nat, limit: nat, n: nat)
    requires Fits(kernelPages, base, limit, n)
    ensures Fits(kernelPages, base, limit, 0)
  {
  }

  class ProcessMemory {
    const phys: PhysicalMemory
    const space: AddressSpace
    // What the address space maps in the part of the kernel, and its own part of it, as maps.
    ghost const kernelPages: PageMap
    ghost var vmem: PageMap
    var segments: seq<ProcessSegment>
    // The objects that only this process has, and the pages of each of its segments.
    ghost var repr: set<object>
    ghost var parts: seq<set<Frame>>

    constructor (phys: PhysicalMemory, space: AddressSpace, ghost kernelPages: PageMap)
      ensures this.phys == phys && this.space == space && this.kernelPages == kernelPages
      ensures vmem == map[] && segments == [] && repr == {} && parts == []
    {
      this.phys, this.space, this.kernelPages := phys, space, kernelPages;
      vmem, segments, repr, parts := map[], [], {}, [];
    }

    // The pages of all segments.
    ghost function Frames(): set<Frame>
      reads this`parts
    {
      Union(parts)
    }

    // A segment of this process: in place, and alone there.
    ghost predicate Holds(s: ProcessSegment)
      reads this`vmem, s, s.msegment
    {
      HoldsIn(vmem, s)
    }

    ghost predicate HoldsIn(vmem: PageMap, s: ProcessSegment)
      reads s, s.msegment
    {
      && s.parent == this && s.base <= s.limit <= PAGES && s.msegment != null && s.msegment.psegments == [s]
      && RegionMapped(vmem, s.base, s.limit, s.msegment.pages, s.msegment.write) && Distinct(s.msegment.pages)
      && Fits(kernelPages, s.base, s.limit, |s.msegment.pages|)
    }

    // ... with these pages.
    ghost predicate Kept(vmem: PageMap, s: ProcessSegment, part: set<Frame>)
      reads s, s.msegment
    {
      HoldsIn(vmem, s) && part == PageSet(s.Pages())
    }

    // A segment with one place is never copied on write.
    lemma NeverCopiedOnWrite(s: ProcessSegment)
      requires Holds(s)
      ensures !s.msegment.CopyOnWrite() && s.msegment.WriteForProc() == s.msegment.write
    {
      hide RegionMapped, Fits;
      assert |s.msegment.psegments| == 1;
    }

    ghost predicate Apart(s: ProcessSegment, t: ProcessSegment) {
      s.limit <= t.base || t.limit <= s.base
    }

    // A new segment has joined those there were, and the page tables show its pages as they were asked for.
    ghost predicate Added(was: seq<ProcessSegment>, base: nat, limit: nat, n: nat, write: bool, shared: bool)
      reads this, phys, phys.vmm
      reads set i | 0 <= i < |segments| :: segments[i], set i | 0 <= i < |segments| :: segments[i].msegment
    {
      && |segments| == |was| + 1 && segments[..|was|] == was
      && var s := segments[|was|];
         && s.parent == this && s.base == base && s.limit == limit && s.msegment != null
         && |s.msegment.pages| == n && s.msegment.write == write && s.msegment.shared == shared
         && (forall i | 0 <= i < n && base + i < limit :: phys.vmm.Maps(space, base + i) == To(s.msegment.pages[i], write))
         && forall q | base + n <= q < limit && q < USER_PAGES :: phys.vmm.Maps(space, q) == None
    }

    // ... which are a copy of those of another segment.
    ghost predicate AddedCopy(was: seq<ProcessSegment>, base: nat, limit: nat, source: MemorySegment)
      reads this, phys, phys.vmm, source
      reads set i | 0 <= i < |segments| :: segments[i], set i | 0 <= i < |segments| :: segments[i].msegment
    {
      Added(was, base, limit, |source.pages|, source.write, source.shared) && segments[|was|].CopyOf(source)
    }

    // The page tables show what the map says.
    lemma ShownAs(q: nat)
      requires Linked()
      ensures q in vmem ==> q < USER_PAGES
      ensures q < USER_PAGES ==> phys.vmm.Maps(space, q) == if q in vmem then vmem[q] else None
    {
      hide Lookup, VirtualMemoryManager.Valid, PhysicalMemory.PagesApart, KernelPages;
    }

    lemma LastIsAdded(was: seq<ProcessSegment>)
      requires Valid() && |segments| == |was| + 1 && segments[..|was|] == was
      ensures var s := segments[|was|];
              s.msegment != null && Added(was, s.base, s.limit, |s.msegment.pages|, s.msegment.write, s.msegment.shared)
    {
      hide Distinct, InSome, Fits, Linked;
      var s := segments[|was|];
      assert Kept(vmem, s, parts[|was|]);
      forall q | s.base + |s.msegment.pages| <= q < s.limit && q < USER_PAGES
        ensures phys.vmm.Maps(space, q) == None
      {
        assert q !in vmem;
        ShownAs(q);
      }
      forall i | 0 <= i < |s.msegment.pages| && s.base + i < s.limit
        ensures phys.vmm.Maps(space, s.base + i) == To(s.msegment.pages[i], s.msegment.write)
      {
        assert s.base + i in vmem;
        ShownAs(s.base + i);
      }
    }

    // No segment of this process overlaps a range.
    ghost predicate Room(base: nat, limit: nat)
      reads this`segments
    {
      forall i | 0 <= i < |segments| :: !(base < segments[i].limit && segments[i].base < limit)
    }

    // These segments are places of this process, with these pages, and apart from each other.
    ghost predicate Keeps(segs: seq<ProcessSegment>, parts: seq<set<Frame>>, objects: set<object>)
      reads this`vmem, objects
    {
      && |parts| == |segs|
      && (forall i | 0 <= i < |segs| :: segs[i] in objects && segs[i].msegment != null && segs[i].msegment in objects)
      && (forall i | 0 <= i < |segs| :: Kept(vmem, segs[i], parts[i]))
      && StandApart(segs, parts)
    }

    ghost predicate StandApart(segs: seq<ProcessSegment>, parts: seq<set<Frame>>)
      requires |parts| == |segs|
    {
      forall i, j | 0 <= i < j < |segs| :: segs[i] != segs[j] && Apart(segs[i], segs[j]) && parts[i] !! parts[j]
    }

    lemma KeepsIf()
      requires |parts| == |segments| && StandApart(segments, parts)
      requires forall i | 0 <= i < |segments| ::
                 segments[i] in repr && segments[i].msegment != null && segments[i].msegment in repr && Kept(vmem, segments[i], parts[i])
      ensures Keeps(segments, parts, repr)
    {
      hide Kept;
    }

    lemma HoldsIf(s: ProcessSegment)
      requires s.parent == this && s.base <= s.limit <= PAGES && s.Placed() && Distinct(s.msegment.pages)
      requires Fits(kernelPages, s.base, s.limit, |s.msegment.pages|)
      ensures Holds(s)
    {
    }

    // What is true of the process's own objects.
    ghost predicate Local()
      reads this, repr
    {
      && (forall o | o in repr :: o is ProcessSegment || o is MemorySegment)
      && Keeps(segments, parts, repr)
      && forall q | q in vmem :: InSome(q, segments)
    }

    ghost predicate Valid()
      reads this, repr, phys, phys.vmm, phys.vmm.Counters()
    {
      Local() && Linked() && Frames() <= phys.used
    }

    // The maps are what the page tables say.
    ghost predicate Linked()
      reads this`vmem, phys, phys.vmm, phys.vmm.Counters()
    {
      && phys.Valid() && !space.isKernel && space in View(phys.vmm) && View(phys.vmm)[space] == vmem
      && KernelPages(phys.vmm) == kernelPages
    }

    // This address space has changed, and no other one; no frame was lost, or else some were.
    ghost predicate After(outline: Picture, lossless: bool)
      reads this`vmem, phys, phys.vmm, phys.vmm.Counters()
    {
      && Linked() && View(phys.vmm) == outline.view[space := vmem] && phys.Known() <= outline.known
      && (phys.Known() == outline.known <==> lossless)
    }

    lemma LinkedAfterCopy(outline: Picture, pages: seq<Frame>)
      requires phys.Copied(outline, pages) && MapsAre(outline)
      ensures Linked() && phys.Outline().view == outline.view && phys.Outline().known <= outline.known
      ensures phys.Outline().known == outline.known <==> pages == []
    {
      hide View, KernelPages, VirtualMemoryManager.Valid;
    }

    lemma AfterBoth(outline0: Picture, outline1: Picture,
                    pages: seq<Frame>)
      requires After(outline1, true) && outline1.view == outline0.view && outline1.known <= outline0.known
      requires outline1.known == outline0.known <==> pages == []
      ensures After(outline0, pages == [])
    {
      hide View, KernelPages, VirtualMemoryManager.Valid;
    }

    // The counters of page tables are none of these objects.
    lemma NoCounters(s: ProcessSegment, m: MemorySegment)
      ensures this !in phys.vmm.Counters() && phys !in phys.vmm.Counters() && s !in phys.vmm.Counters() && m !in phys.vmm.Counters()
    {
    }

    /**
     map_segment: a range that is free shows the segment, or a copy of it if the segment has a place already.
     All is in order afterwards if and only if the range fits.  Nothing else changes then.
     */
    method MapSegment(segment: MemorySegment, base: nat, limit: nat) returns (outcome: Outcome, pseg: ProcessSegment?)
      requires Valid() && base <= limit <= PAGES && |segment.psegments| <= 1 && Distinct(segment.pages)
      requires forall p | p in segment.pages :: p in phys.used && (segment.psegments == [] ==> p !in Frames())
      modifies this, phys, phys.vmm, space.pageDirMapCount, (if segment.psegments == [] then {segment} else {})`psegments
      ensures Stopped(outcome, phys.vmm.free, |segment.pages|)
      ensures outcome.Done? ==> (pseg == null <==> !old(Room(base, limit)))
      ensures !old(Room(base, limit)) ==>
                && outcome.Done? && Valid() && unchanged(this) && phys.used == old(phys.used) && phys.Outline() == old(phys.Outline())
                && segment.psegments == old(segment.psegments) && phys.vmm.free == old(phys.vmm.free)
                && After(old(phys.Outline()), true) && PagesMoved(old(phys.used), phys.used, old(Frames()), Frames())
      ensures outcome.Done? && pseg != null ==> (Valid() <==> Fits(kernelPages, base, limit, |segment.pages|))
      ensures outcome.Done? && pseg != null && Valid() ==>
                && fresh(pseg) && pseg.parent == this && segments == old(segments) + [pseg] && pseg.base == base && pseg.limit == limit
                && SameOutside(old(vmem), vmem, base, limit) && After(old(phys.Outline()), old(segment.psegments) == [] || segment.pages == [])
                && repr == old(repr) + {pseg, pseg.msegment} && Frames() == old(Frames()) + PageSet(pseg.Pages())
                && pseg.Has(segment, old(segment.psegments) != [], old(phys.used))
                && (old(segment.psegments) != [] ==> fresh(pseg.msegment) && PagesMoved(old(phys.used), phys.used, old(Frames()), Frames()))
                && Added(old(segments), base, limit, |segment.pages|, segment.write, segment.shared)
                && (old(segment.psegments) != [] ==> AddedCopy(old(segments), base, limit, segment))
      ensures forall p | p in old(phys.used) :: phys.Bytes(p) == old(phys.Bytes(p))
    {
      hide VirtualMemoryManager.Valid, View, KernelPages, RegionMapped, SameOutside, Distinct, Fits, InSome, Keeps, Union, Linked, After,
           ProcessSegment.CopyOf, Added, ProcessSegment.Has;
      NothingMoved(phys.used, Frames());
      AfterNothing();
      var i := 0;
      while i < |segments|
        invariant i <= |segments| && forall j | 0 <= j < i :: !(base < segments[j].limit && segments[j].base < limit)
      {
        if base < segments[i].limit && segments[i].base < limit {
          return Done, null;
        }
        i := i + 1;
      }
      ghost var used, frames, copied, was := phys.used, Frames(), segment.psegments != [], segments;
      outcome, pseg := Place(segment, base, limit);
      if outcome.Done? && Valid() {
        if copied {
          MovedIn(used, frames, pseg.Pages());
        }
        LastIsAdded(was);
        pseg.SameShape(segment, copied, used);
      }
    }

    method Place(segment: MemorySegment, base: nat, limit: nat) returns (outcome: Outcome, pseg: ProcessSegment)
      requires Valid() && base <= limit <= PAGES && |segment.psegments| <= 1 && Distinct(segment.pages) && Room(base, limit)
      requires forall p | p in segment.pages :: p in phys.used && (segment.psegments == [] ==> p !in Frames())
      modifies this, phys, phys.vmm, space.pageDirMapCount, (if segment.psegments == [] then {segment} else {})`psegments
      ensures Stopped(outcome, phys.vmm.free, |segment.pages|)
      ensures outcome.Done? ==> (Valid() <==> Fits(kernelPages, base, limit, |segment.pages|))
      ensures outcome.Done? && Valid() ==>
                && fresh(pseg) && pseg.parent == this && segments == old(segments) + [pseg] && pseg.base == base && pseg.limit == limit
                && SameOutside(old(vmem), vmem, base, limit) && After(old(phys.Outline()), old(segment.psegments) == [] || segment.pages == [])
                && repr == old(repr) + {pseg, pseg.msegment} && Frames() == old(Frames()) + PageSet(pseg.Pages())
                && pseg.Has(segment, old(segment.psegments) != [], old(phys.used)) && (old(segment.psegments) != [] ==> fresh(pseg.msegment))
      ensures forall p | p in old(phys.used) :: phys.Bytes(p) == old(phys.Bytes(p))
    {
      hide VirtualMemoryManager.Valid, View, KernelPages, RegionMapped, SameOutside, Distinct, Fits, InSome, Holds, Keeps, Union,
           Linked, After, Local, ProcessSegment.Has, PageSet, PhysicalMemory.Outline;
      ghost var outline, lossless := phys.Outline(), segment.psegments == [] || segment.pages == [];
      ghost var vmem0, used, copied := vmem, phys.used, segment.psegments != [];
      LocalIs();
      outcome, pseg := NewPlace(segment, base, limit);
      if outcome.Done? {
        if phys.vmm.Valid() {
          AfterLinked(outline, lossless);
        }
        Join(segment, pseg, vmem0, outline, lossless, used, copied);
        InOrder();
      }
    }

    // A place that is mapped already joins the segments.
    method Join(segment: MemorySegment, pseg: ProcessSegment, ghost vmem0: PageMap, ghost outline: Picture, ghost lossless: bool,
                ghost used: set<Frame>, ghost copied: bool)
      requires pseg.msegment != null && pseg.parent == this && pseg.Has(segment, copied, used) && pseg !in segments
      requires phys.vmm.Valid() ==>
                 && Linked() && After(outline, lossless) && Holds(pseg) && Keeps(segments, parts, repr) && Room(pseg.base, pseg.limit)
                 && PageSet(pseg.Pages()) !! Frames() && PageSet(pseg.Pages()) + Frames() <= phys.used
      requires (forall o | o in repr :: o is ProcessSegment || o is MemorySegment) && forall q | q in vmem0 :: InSome(q, segments)
      requires phys.vmm.Valid() ==> SameOutside(vmem0, vmem, pseg.base, pseg.limit)
      modifies this`repr, this`segments, this`parts
      ensures phys.vmm.Valid() == old(phys.vmm.Valid())
      ensures phys.vmm.Valid() ==> Linked() && After(outline, lossless) && Local() && Frames() <= phys.used
      ensures segments == old(segments) + [pseg] && repr == old(repr) + {pseg, pseg.msegment}
      ensures Frames() == old(Frames()) + PageSet(pseg.Pages()) && pseg.Has(segment, copied, used)
    {
      hide VirtualMemoryManager.Valid, View, KernelPages, RegionMapped, SameOutside, Distinct, Fits, InSome, Holds, Keeps, Union,
           Linked, After, Local, ProcessSegment.Has, PageSet, PhysicalMemory.Outline;
      ghost var was, parts0, part := segments, parts, PageSet(pseg.Pages());
      if phys.vmm.Valid() {
        OneMore(pseg);
      }
      NoCounters(pseg, segment);
      UnionMore(parts, part);
      repr := repr + {pseg, pseg.msegment};
      segments, parts := segments + [pseg], parts + [part];
      if phys.vmm.Valid() {
        InRanges(vmem0, vmem, was, pseg);
        LocalIf();
      }
    }

    lemma OtherProcess(other: ProcessMemory)
      requires Local()
      ensures other !in repr && other.space.pageDirMapCount !in repr
    {
      hide Keeps, InSome;
    }

    lemma ReprApart()
      requires Local()
      ensures this !in repr && phys !in repr && phys.vmm !in repr && phys.vmm.Counters() !! repr
    {
      hide Keeps, InSome;
    }

    lemma LocalIs()
      ensures Local() ==> (forall o | o in repr :: o is ProcessSegment || o is MemorySegment) && forall q | q in vmem :: InSome(q, segments)
    {
      hide Keeps, InSome;
    }

    lemma LocalIf()
      requires forall o | o in repr :: o is ProcessSegment || o is MemorySegment
      requires Keeps(segments, parts, repr) && forall q | q in vmem :: InSome(q, segments)
      ensures Local()
    {
      hide Keeps, InSome;
    }

    lemma InOrder()
      ensures Linked() ==> phys.vmm.Valid() && phys.Valid()
    {
      hide VirtualMemoryManager.Valid, View, KernelPages;
    }

    lemma AfterLinked(outline: Picture, lossless: bool)
      requires After(outline, lossless)
      ensures Linked()
    {
      hide VirtualMemoryManager.Valid, View, KernelPages;
    }

    // A new place next to those there are.
    method NewPlace(segment: MemorySegment, base: nat, limit: nat) returns (outcome: Outcome, pseg: ProcessSegment)
      requires Valid() && base <= limit <= PAGES && |segment.psegments| <= 1 && Distinct(segment.pages) && Room(base, limit)
      requires forall p | p in segment.pages :: p in phys.used && (segment.psegments == [] ==> p !in Frames())
      modifies this`vmem, phys, phys.vmm, space.pageDirMapCount, (if segment.psegments == [] then {segment} else {})`psegments
      ensures fresh(pseg) && pseg.base == base && pseg.limit == limit && pseg.parent == this
      ensures Stopped(outcome, phys.vmm.free, |segment.pages|)
      ensures outcome.Done? ==> (phys.vmm.Valid() <==> Fits(kernelPages, base, limit, |segment.pages|))
      ensures outcome.Done? ==> pseg.msegment != null && pseg.Has(segment, old(segment.psegments) != [], old(phys.used))
                                && (old(segment.psegments) != [] ==> fresh(pseg.msegment))
      ensures outcome.Done? && phys.vmm.Valid() ==>
                && Holds(pseg) && Keeps(segments, parts, repr)
                && PageSet(pseg.Pages()) !! Frames() && PageSet(pseg.Pages()) <= phys.used && old(phys.used) <= phys.used
                && SameOutside(old(vmem), vmem, base, limit) && After(old(phys.Outline()), old(segment.psegments) == [] || segment.pages == [])
      ensures forall p | p in old(phys.used) :: phys.Bytes(p) == old(phys.Bytes(p))
    {
      hide VirtualMemoryManager.Valid, View, KernelPages, RegionMapped, SameOutside, Distinct, Fits, InSome, Union, Linked, After, Kept,
           ProcessSegment.Pages, Keeps, Holds;
      ghost var vmem0, used0, copied := vmem, phys.used, segment.psegments != [];
      OtherSegments(segment);
      pseg := new ProcessSegment(this, base, limit);
      NoCounters(pseg, segment);
      outcome := pseg.SetSegment(phys, segment);
      assert forall i | 0 <= i < |segments| ::
          segments[i].msegment != null && segments[i].msegment in repr && Kept(vmem0, segments[i], parts[i]);
      if outcome.Done? && phys.vmm.Valid() {
        forall i | 0 <= i < |segments|
          ensures Kept(vmem, segments[i], parts[i])
        {
          StillKept(vmem0, vmem, base, limit, segments[i], parts[i]);
        }
        KeepsIf();
        HoldsIf(pseg);
        NewPages(pseg, segment, copied, used0);
      }
    }

    lemma NewPages(pseg: ProcessSegment, segment: MemorySegment, copied: bool, used: set<Frame>)
      requires pseg.parent == this && pseg.Has(segment, copied, used) && pseg.msegment != null && Frames() <= used
      requires !copied ==> forall p | p in segment.pages :: p in used && p !in Frames()
      ensures PageSet(pseg.Pages()) !! Frames() && PageSet(pseg.Pages()) <= phys.used && used <= phys.used
    {
    }

    lemma OtherSegments(segment: MemorySegment)
      requires Local()
      ensures |parts| == |segments| && StandApart(segments, parts)
      ensures forall i | 0 <= i < |segments| ::
                && segments[i].msegment != null && (segments[i].msegment == segment ==> segment.psegments == [segments[i]])
                && segments[i] in repr && segments[i].msegment in repr && Kept(vmem, segments[i], parts[i])
    {
      hide RegionMapped, Distinct, Fits, InSome;
    }

    lemma StillKept(vmem: PageMap, vmem': PageMap, base: nat, limit: nat, s: ProcessSegment, part: set<Frame>)
      requires Kept(vmem, s, part) && SameOutside(vmem, vmem', base, limit) && !(base < s.limit && s.base < limit)
      ensures Kept(vmem', s, part)
    {
      hide Distinct, Fits;
    }

    lemma OneMore(pseg: ProcessSegment)
      requires Keeps(segments, parts, repr) && Holds(pseg) && pseg !in segments
      requires PageSet(pseg.Pages()) !! Frames() && forall i | 0 <= i < |segments| :: Apart(segments[i], pseg)
      ensures Keeps(segments + [pseg], parts + [PageSet(pseg.Pages())], repr + {pseg, pseg.msegment})
    {
      hide RegionMapped, Distinct, Fits;
      var segs, ps := segments + [pseg], parts + [PageSet(pseg.Pages())];
      var objects: set<object> := repr + {pseg, pseg.msegment};
      forall i | 0 <= i < |segs|
        ensures segs[i] in objects && segs[i].msegment != null && segs[i].msegment in objects
        ensures Holds(segs[i]) && ps[i] == PageSet(segs[i].Pages())
      {
        assert i < |segments| ==> segs[i] == segments[i];
      }
      forall i, j | 0 <= i < j < |segs|
        ensures segs[i] != segs[j] && Apart(segs[i], segs[j]) && ps[i] !! ps[j]
      {
        assert segs[i] == segments[i] && ps[i] == parts[i] && (j < |segments| ==> segs[j] == segments[j] && ps[j] == parts[j]);
      }
    }

    lemma PagesUsed()
      requires Valid()
      ensures forall i, n | 0 <= i < |segments| && 0 <= n < |segments[i].Pages()| ::
                segments[i].Pages()[n] in phys.used && segments[i].Pages()[n] in Frames()
      ensures forall i, p | 0 <= i < |segments| && p in segments[i].Pages() :: p in phys.used && p in Frames()
    {
      hide RegionMapped, Distinct, InSome, Fits, Linked;
      forall i, p | 0 <= i < |segments| && p in segments[i].Pages()
        ensures p in Frames()
      {
        assert p in parts[i];
      }
    }

    lemma HasOnePlace(i: nat)
      requires Valid() && i < |segments|
      ensures segments[i].msegment != null && segments[i].msegment.psegments == [segments[i]] && segments[i].msegment in repr
      ensures Distinct(segments[i].msegment.pages) && forall p | p in segments[i].msegment.pages :: p in phys.used
      ensures segments[i].base <= segments[i].limit <= PAGES
      ensures Fits(kernelPages, segments[i].base, segments[i].limit, |segments[i].msegment.pages|)
    {
      hide RegionMapped, Distinct, InSome, Fits, Linked;
      assert Holds(segments[i]);
      PagesUsed();
    }

    // What an outline says of this process.
    ghost predicate MapsAre(outline: Picture)
      reads this`vmem
    {
      !space.isKernel && space in outline.view && outline.view[space] == vmem && outline.kernelPages == kernelPages
    }

    lemma ValidSays()
      requires Valid()
      ensures Local() && Linked() && Frames() <= phys.used
    {
      hide Local, Linked;
    }

    lemma OnePart(a: nat)
      requires Local() && a < |segments|
      ensures PageSet(segments[a].Pages()) <= Frames()
      ensures forall b | 0 <= b < |segments| && b != a ::
                segments[b] != segments[a] && PageSet(segments[a].Pages()) !! PageSet(segments[b].Pages())
    {
      hide RegionMapped, Distinct, Fits, InSome;
      PartOfUnion(parts, a);
      assert forall b | 0 <= b < |segments| :: Kept(vmem, segments[b], parts[b]);
      assert forall b | 0 <= b < |segments| && b != a :: if b < a then parts[b] !! parts[a] else parts[a] !! parts[b];
    }

    lemma MapsMore(outline: Picture, extra: AddressSpace)
      requires MapsAre(outline) && extra !in outline.view
      ensures MapsAre(outline.(view := outline.view[extra := map[]])) && space in outline.view
    {
    }

    lemma LinkedMaps()
      ensures Linked() <==> phys.Valid() && MapsAre(phys.Outline())
    {
      hide VirtualMemoryManager.Valid, View, KernelPages;
    }

    /** A new segment is mapped, or deleted again if there is no room for it. */
    method MapNew(count: nat, write: bool, shared: bool, base: nat, limit: nat) returns (outcome: Outcome, pseg: ProcessSegment?)
      requires Valid() && base <= limit <= PAGES
      modifies this, phys, phys.vmm, space.pageDirMapCount
      ensures Stopped(outcome, phys.vmm.free, count)
      ensures outcome.Done? ==> (pseg == null <==> old(|phys.vmm.free|) < count || !old(Room(base, limit)))
      ensures outcome.Done? && pseg == null ==>
                Valid() && unchanged(this) && phys.used == old(phys.used) && phys.Outline() == old(phys.Outline())
      ensures outcome.Done? && pseg != null ==> (Valid() <==> Fits(kernelPages, base, limit, count))
      ensures outcome.Done? && Valid() ==>
                && PagesMoved(old(phys.used), phys.used, old(Frames()), Frames()) && After(old(phys.Outline()), true)
                && repr >= old(repr) && fresh(repr - old(repr))
      ensures outcome.Done? && Valid() && pseg != null ==>
                && segments == old(segments) + [pseg] && pseg.base == base && pseg.limit == limit
                && |pseg.Pages()| == count && SameOutside(old(vmem), vmem, base, limit)
                && Added(old(segments), base, limit, count, write, shared)
      ensures forall p | p in old(phys.used) :: phys.Bytes(p) == old(phys.Bytes(p))
    {
      hide VirtualMemoryManager.Valid, View, KernelPages, RegionMapped, SameOutside, Distinct, Fits, InSome, Local, Union, Linked, After,
           ProcessSegment.CopyOf, PhysicalMemory.Outline, PhysicalMemory.PagesApart, Keeps, Added, AddedCopy;
      ghost var outline := phys.Outline();
      var segment := CreateSegment(count, write, shared);
      if segment == null {
        AfterNothing();
        NothingMoved(phys.used, Frames());
        return Done, null;
      }
      MovedIn(old(phys.used), Frames(), segment.pages);
      NothingMoved(old(phys.used), Frames());
      outcome, pseg := MapSegment(segment, base, limit);
      if outcome.Done? && pseg == null {
        DeleteSegment(segment);
        AfterNothing();
      }
    }

    lemma AfterNothing()
      requires Linked()
      ensures After(phys.Outline(), true)
    {
      hide VirtualMemoryManager.Valid, View, KernelPages;
      LinkedMaps();
      assert View(phys.vmm)[space := vmem] == View(phys.vmm);
    }

    // A segment that no process has is made, and it is deleted.
    method CreateSegment(count: nat, write: bool, shared: bool) returns (segment: MemorySegment?)
      requires Valid()
      modifies phys`used, phys.vmm`free
      ensures Valid() && phys.Outline() == old(phys.Outline())
      ensures segment == null <==> old(|phys.vmm.free|) < count
      ensures segment == null ==> phys.used == old(phys.used) && phys.vmm.free == old(phys.vmm.free)
      ensures segment != null ==>
                && fresh(segment) && segment.write == write && segment.shared == shared && segment.psegments == []
                && |segment.pages| == count && Distinct(segment.pages) && (forall p | p in segment.pages :: p !in old(phys.used))
                && phys.used == old(phys.used) + PageSet(segment.pages)
    {
      hide VirtualMemoryManager.Valid, View, KernelPages, Distinct, Local, Linked, PhysicalMemory.Outline, PhysicalMemory.PagesApart;
      LinkedMaps();
      ReprApart();
      segment := MemorySegment.Create(phys, count, write, shared);
      LinkedMaps();
    }

    method DeleteSegment(segment: MemorySegment)
      requires Valid() && Distinct(segment.pages) && PageSet(segment.pages) <= phys.used - Frames()
      modifies phys`used, phys.vmm`free
      ensures Valid() && phys.Outline() == old(phys.Outline()) && phys.used == old(phys.used) - PageSet(segment.pages)
    {
      hide VirtualMemoryManager.Valid, View, KernelPages, Distinct, Local, Linked, PhysicalMemory.Outline, PhysicalMemory.PagesApart;
      LinkedMaps();
      ReprApart();
      segment.Delete(phys);
      LinkedMaps();
    }

    /**
     unmap_segment: the range is free again, and the pages of the segment are given back, no others.  What fitted
     when it was mapped is unmapped without touching the kernel's part.
     */
    method UnmapSegment(segment: ProcessSegment) returns (ghost k: nat)
      requires Valid()
      modifies this, phys`used, phys.vmm, space.pageDirMapCount, repr
      ensures Valid() && repr == old(repr) && After(old(phys.Outline()), true)
      ensures segment !in old(segments) ==> segments == old(segments) && vmem == old(vmem) && phys.used == old(phys.used)
      ensures segment in old(segments) ==>
                && k < |old(segments)| && old(segments)[k] == segment && segments == old(segments)[..k] + old(segments)[k + 1..]
                && (forall q | segment.base <= q < segment.limit :: q !in vmem)
                && SameOutside(old(vmem), vmem, segment.base, segment.limit)
                && phys.used == old(phys.used) - old(PageSet(segment.Pages()))
                && Frames() == old(Frames()) - old(PageSet(segment.Pages()))
      ensures PagesMoved(old(phys.used), phys.used, old(Frames()), Frames())
    {
      hide VirtualMemoryManager.Valid, View, KernelPages, RegionMapped, SameOutside, Distinct, InSome, Union, Linked, After, Keeps, Fits,
           PhysicalMemory.Outline;
      var i := IndexOf(segment);
      k := i;
      if i < |segments| {
        HasOnePlace(i);
        RemovePlace(segment, i);
      } else {
        AfterNothing();
        NothingMoved(phys.used, Frames());
      }
    }

    method RemovePlace(segment: ProcessSegment, k: nat)
      requires Valid() && k < |segments| && segments[k] == segment && segment.msegment != null
      modifies this, phys`used, phys.vmm, space.pageDirMapCount, segment.msegment`psegments
      ensures Valid() && segments == old(segments)[..k] + old(segments)[k + 1..] && repr == old(repr)
      ensures After(old(phys.Outline()), true)
      ensures (forall q | segment.base <= q < segment.limit :: q !in vmem)
      ensures SameOutside(old(vmem), vmem, segment.base, segment.limit)
      ensures phys.used == old(phys.used) - old(PageSet(segment.Pages()))
      ensures Frames() == old(Frames()) - old(PageSet(segment.Pages()))
      ensures PagesMoved(old(phys.used), phys.used, old(Frames()), Frames())
    {
      hide VirtualMemoryManager.Valid, View, KernelPages, RegionMapped, SameOutside, Distinct, InSome, Union, Linked, After, Keeps, Fits,
           PhysicalMemory.Outline, Kept, PageSet;
      OtherSegments(segment.msegment);
      ghost var vmem0, outline, used, frames, part := vmem, phys.Outline(), phys.used, Frames(), parts[k];
      PartIs(segment, part);
      UnionLess(parts, k);
      PartOfUnion(parts, k);
      LocalIs();
      Release(segment, k);
      Leave(segment, k, vmem0, outline);
      MovedOut(used, frames, part);
    }

    lemma PartIs(s: ProcessSegment, part: set<Frame>)
      requires Kept(vmem, s, part)
      ensures part == PageSet(s.Pages())
    {
      hide RegionMapped, Distinct, Fits;
    }

    // A place that is unmapped already leaves the segments.
    method Leave(segment: ProcessSegment, k: nat, ghost vmem0: PageMap, ghost outline: Picture)
      requires k < |segments| == |parts| && segments[k] == segment
      requires After(outline, true) && Keeps(segments[..k] + segments[k + 1..], parts[..k] + parts[k + 1..], repr)
      requires (forall o | o in repr :: o is ProcessSegment || o is MemorySegment) && forall q | q in vmem0 :: InSome(q, segments)
      requires SameOutside(vmem0, vmem, segment.base, segment.limit) && forall q | segment.base <= q < segment.limit :: q !in vmem
      modifies this`segments, this`parts
      ensures After(outline, true) && Linked() && Local()
      ensures segments == old(segments)[..k] + old(segments)[k + 1..] && parts == old(parts)[..k] + old(parts)[k + 1..]
    {
      hide VirtualMemoryManager.Valid, View, KernelPages, SameOutside, InSome, Linked, After, Keeps, PhysicalMemory.Outline;
      NotInRange(vmem0, vmem, segments, k);
      assert this !in phys.vmm.Counters();
      segments, parts := segments[..k] + segments[k + 1..], parts[..k] + parts[k + 1..];
      AfterLinked(outline, true);
      LocalIf();
    }

    method IndexOf(segment: ProcessSegment) returns (i: nat)
      requires Valid()
      ensures Valid()
      ensures i <= |segments| && (i < |segments| ==> segments[i] == segment) && (i == |segments| <==> segment !in segments)
    {
      hide Valid;
      i := 0;
      while i < |segments| && segments[i] != segment
        invariant i <= |segments| && forall j | 0 <= j < i :: segments[j] != segment
      {
        i := i + 1;
      }
    }

    // The pages of a place are unmapped and given back.
    method Release(segment: ProcessSegment, ghost k: nat)
      requires Valid() && k < |segments| && segments[k] == segment && segment.msegment != null
      modifies this`vmem, phys`used, phys.vmm, space.pageDirMapCount, segment.msegment`psegments
      ensures After(old(phys.Outline()), true) && phys.used == old(phys.used) - old(PageSet(segment.Pages()))
      ensures SameOutside(old(vmem), vmem, segment.base, segment.limit)
      ensures forall q | segment.base <= q < segment.limit :: q !in vmem
      ensures Keeps(segments[..k] + segments[k + 1..], parts[..k] + parts[k + 1..], repr)
    {
      hide VirtualMemoryManager.Valid, View, KernelPages, RegionMapped, SameOutside, Distinct, InSome, Linked, After, Keeps, Kept, Fits,
           PhysicalMemory.Outline, PageSet;
      ghost var vmem0, outline := vmem, phys.Outline();
      OtherSegments(segment.msegment);
      HasOnePlace(k);
      assert forall i | 0 <= i < |segments| && i != k :: segments[i] != segment && segments[i].msegment != segment.msegment by {
        assert forall i | 0 <= i < |segments| && i != k :: if i < k then segments[i] != segments[k] else segments[k] != segments[i];
      }
      FitsNone(kernelPages, segment.base, segment.limit, |segment.msegment.pages|);
      UnmapRange(segment.base, segment.limit);
      GiveBack(segment, outline);
      assert forall i | 0 <= i < |segments| && i != k :: Kept(vmem0, segments[i], parts[i]);
      forall i | 0 <= i < |segments| && i != k
        ensures Kept(vmem, segments[i], parts[i])
      {
        assert if i < k then Apart(segments[i], segment) else Apart(segment, segments[i]);
        StillKept(vmem0, vmem, segment.base, segment.limit, segments[i], parts[i]);
      }
      OneLess(k);
    }

    method GiveBack(segment: ProcessSegment, ghost outline: Picture)
      requires After(outline, true) && segment.msegment != null && segment.msegment.psegments == [segment]
      requires Distinct(segment.msegment.pages) && forall p | p in segment.msegment.pages :: p in phys.used
      modifies phys`used, phys.vmm`free, segment.msegment`psegments
      ensures After(outline, true) && phys.used == old(phys.used) - PageSet(segment.msegment.pages) && segment.msegment.psegments == []
    {
      hide VirtualMemoryManager.Valid, View, KernelPages, Distinct, PhysicalMemory.Known, PhysicalMemory.PagesApart;
      var msegment := segment.msegment;
      NoCounters(segment, msegment);
      msegment.ProcessUnmap(segment);
      if msegment.psegments == [] {
        msegment.Delete(phys);
      }
    }

    lemma OneLess(k: nat)
      requires k < |segments| == |parts| && StandApart(segments, parts)
      requires forall i | 0 <= i < |segments| :: segments[i] in repr && segments[i].msegment != null && segments[i].msegment in repr
      requires forall i | 0 <= i < |segments| && i != k :: Kept(vmem, segments[i], parts[i])
      ensures Keeps(segments[..k] + segments[k + 1..], parts[..k] + parts[k + 1..], repr)
    {
      hide Kept;
      var segs, ps := segments[..k] + segments[k + 1..], parts[..k] + parts[k + 1..];
      forall i | 0 <= i < |segs|
        ensures segs[i] in repr && segs[i].msegment != null && segs[i].msegment in repr && Kept(vmem, segs[i], ps[i])
      {
        assert segs[i] == segments[if i < k then i else i + 1] && ps[i] == parts[if i < k then i else i + 1];
      }
      forall i, j | 0 <= i < j < |segs|
        ensures segs[i] != segs[j] && Apart(segs[i], segs[j]) && ps[i] !! ps[j]
      {
        assert segs[i] == segments[if i < k then i else i + 1] && segs[j] == segments[if j < k then j else j + 1];
      }
    }

    method UnmapRange(base: nat, limit: nat)
      requires Linked() && limit <= PAGES && Fits(kernelPages, base, limit, 0)
      modifies this`vmem, phys.vmm, space.pageDirMapCount
      ensures After(old(phys.Outline()), true)
      ensures SameOutside(old(vmem), vmem, base, limit) && forall q | base <= q < limit :: q !in vmem
    {
      hide VirtualMemoryManager.Valid, View, KernelPages, Held, SameOutside, Fits;
      UserSpace(phys.vmm, space);
      var ok := ShowRange(phys.vmm, space, base, limit, [], false);
      assert this !in phys.vmm.Counters();
      vmem := View(phys.vmm)[space];
    }

    // One change after the other.
    lemma AfterTwice(outline0: Picture, vmem1: PageMap, outline1: Picture, lossless: bool, lossless': bool)
      requires After(outline1, lossless') && outline1.view == outline0.view[space := vmem1]
      requires outline1.known <= outline0.known && (outline1.known == outline0.known <==> lossless)
      ensures After(outline0, lossless && lossless')
    {
      hide View, KernelPages, VirtualMemoryManager.Valid;
      assert outline0.view[space := vmem1][space := vmem] == outline0.view[space := vmem];
    }

    lemma AfterSays(outline: Picture, lossless: bool)
      requires After(outline, lossless)
      ensures phys.Outline().view == outline.view[space := vmem] && phys.Outline().known <= outline.known
      ensures phys.Outline().known == outline.known <==> lossless
      ensures phys.Outline().kernelPages == kernelPages && Linked()
    {
      hide View, KernelPages, VirtualMemoryManager.Valid;
    }

    // unmap_all: nothing is mapped, and all pages are given back.
    method UnmapAll()
      requires Valid()
      modifies this, phys`used, phys.vmm, space.pageDirMapCount, repr
      ensures Valid() && repr == old(repr) && segments == [] && vmem == map[] && Frames() == {} && After(old(phys.Outline()), true)
      ensures PagesMoved(old(phys.used), phys.used, old(Frames()), {})
    {
      hide VirtualMemoryManager.Valid, View, KernelPages, RegionMapped, SameOutside, Distinct, Linked, After, Fits, PhysicalMemory.Outline,
           Kept, PageSet;
      ghost var outline := phys.Outline();
      AfterNothing();
      NothingMoved(phys.used, Frames());
      while |segments| > 0
        invariant Valid() && repr == old(repr) && PagesMoved(old(phys.used), phys.used, old(Frames()), Frames())
        invariant After(outline, true)
        decreases |segments|
      {
        ghost var outline1, vmem1 := phys.Outline(), vmem;
        AfterSays(outline, true);
        var _ := UnmapSegment(segments[0]);
        AfterSays(outline1, true);
        AfterTwice(outline, vmem1, outline1, true, true);
      }
      assert forall q :: q !in vmem;
    }

    // A place like one of another process: same range, permissions and contents.
    ghost predicate Mirrors(s: ProcessSegment, t: ProcessSegment)
      reads s, s.msegment, s.parent, s.parent.phys, t, t.msegment
    {
      s.base == t.base && s.limit == t.limit && t.msegment != null && s.CopyOf(t.msegment)
    }

    // Segment i of this process is one that the child can map, where it has room for it.
    lemma HasRoom(child: ProcessMemory, i: nat)
      requires Valid() && |child.segments| == i < |segments|
      requires forall j | 0 <= j < i :: child.segments[j].base == segments[j].base && child.segments[j].limit == segments[j].limit
      ensures child.Room(segments[i].base, segments[i].limit)
    {
      hide RegionMapped, Distinct, InSome, Fits, Linked, Kept;
      assert forall j | 0 <= j < i :: Apart(segments[j], segments[i]);
    }

    // The child maps segment i of the parent.
    method ForkSegment(child: ProcessMemory, i: nat, ghost used: set<Frame>, ghost outline: Picture, ghost lossless: bool)
      returns (outcome: Outcome)
      requires Valid() && child.Valid() && child != this && child.phys == phys && child.space != space && child.kernelPages == kernelPages
      requires |child.segments| == i < |segments| && child.repr !! repr && child.MirrorsFirst(i, this)
      requires phys.used == used + child.Frames() && used !! child.Frames() && child.After(outline, lossless)
      modifies child, phys, phys.vmm, child.space.pageDirMapCount
      ensures Stopped(outcome, phys.vmm.free, |segments[i].Pages()|)
      ensures outcome.Done? ==>
                && Valid() && child.Valid() && fresh(child.repr - old(child.repr)) && child.MirrorsFirst(i + 1, this)
                && phys.used == used + child.Frames() && used !! child.Frames() && |child.segments| == i + 1
                && child.After(outline, lossless && segments[i].Pages() == [])
      ensures forall p | p in old(phys.used) :: phys.Bytes(p) == old(phys.Bytes(p))
    {
      hide VirtualMemoryManager.Valid, View, KernelPages, RegionMapped, SameOutside, Distinct, InSome, Union, Linked, After, Keeps, Fits, Kept,
           Apart, PhysicalMemory.Outline, Local, Room;
      ghost var was := child.segments;
      HasRoom(child, i);
      PagesUsed();
      child.PagesUsed();
      var pseg;
      outcome, pseg := MapFor(child, i, outline, lossless);
      if outcome.Done? {
        forall j | 0 <= j < i
          ensures child.Mirrors(child.segments[j], segments[j])
        {
          assert old(child.Mirrors(was[j], segments[j]));
          assert was[j].Pages() == old(was[j].Pages()) && segments[j].Pages() == old(segments[j].Pages());
        }
      }
    }

    // The first n segments of another process have their like here.
    ghost predicate MirrorsFirst(n: nat, parent: ProcessMemory)
      reads this, phys, set i | 0 <= i < |segments| :: segments[i], set i | 0 <= i < |segments| :: segments[i].msegment
      reads parent, set i | 0 <= i < |parent.segments| :: parent.segments[i], set i | 0 <= i < |parent.segments| :: parent.segments[i].msegment
    {
      && n <= |segments| && n <= |parent.segments|
      && forall j | 0 <= j < n :: segments[j].parent == this && Mirrors(segments[j], parent.segments[j])
    }

    method MapFor(child: ProcessMemory, i: nat, ghost outline: Picture, ghost lossless: bool) returns (outcome: Outcome, pseg: ProcessSegment?)
      requires Valid() && child.Valid() && child != this && child.phys == phys && child.space != space && child.kernelPages == kernelPages
      requires i < |segments| && child.Room(segments[i].base, segments[i].limit) && child.After(outline, lossless)
      modifies child, phys, phys.vmm, child.space.pageDirMapCount
      ensures Stopped(outcome, phys.vmm.free, |segments[i].Pages()|)
      ensures outcome.Done? ==>
                && Valid() && child.Valid() && pseg != null && fresh(child.repr - old(child.repr)) && fresh(pseg) && pseg.parent == child
                && child.segments == old(child.segments) + [pseg] && child.Mirrors(pseg, segments[i])
                && (forall p | p in pseg.Pages() :: p !in old(phys.used)) && phys.used == old(phys.used) + PageSet(pseg.Pages())
                && child.Frames() == old(child.Frames()) + PageSet(pseg.Pages())
                && child.After(outline, lossless && segments[i].Pages() == [])
      ensures forall p | p in old(phys.used) :: phys.Bytes(p) == old(phys.Bytes(p))
    {
      hide VirtualMemoryManager.Valid, View, KernelPages, RegionMapped, SameOutside, Distinct, InSome, Union, Linked, After, Keeps, Fits, Kept,
           Apart, PhysicalMemory.Outline, Local, Room, Added, AddedCopy, PageSet, ProcessSegment.CopyOf;
      ghost var outline1, vmem1, repr0 := phys.Outline(), child.vmem, child.repr;
      HasOnePlace(i);
      LinkedMaps();
      child.AfterSays(outline, lossless);
      ReprApart();
      OtherProcess(child);
      outcome, pseg := child.MapSegment(segments[i].msegment, segments[i].base, segments[i].limit);
      if outcome.Done? {
        assert forall o | o in child.repr && o !in repr0 :: o == pseg || o == pseg.msegment;
        child.AfterSays(outline1, segments[i].Pages() == []);
        child.LinkedMaps();
        LinkedMaps();
        child.AfterTwice(outline, vmem1, outline1, lossless, segments[i].Pages() == []);
      }
    }

    // A process without segments.
    static method Empty(phys: PhysicalMemory) returns (process: ProcessMemory?)
      requires phys.Valid()
      modifies phys.vmm
      ensures process == null ==> phys.vmm.free == {}
      ensures process != null ==>
                && process.Valid() && fresh(process) && fresh(process.space) && fresh(process.space.pageDirMapCount) && process.phys == phys
                && process.segments == [] && process.repr == {} && process.Frames() == {} && process.vmem == map[]
                && process.kernelPages == old(phys.Outline()).kernelPages && process.space !in old(phys.Outline()).view
                && phys.Outline() == old(phys.Outline()).(view := old(phys.Outline()).view[process.space := map[]])
    {
      hide VirtualMemoryManager.Valid, View, KernelPages, PhysicalMemory.Outline, PhysicalMemory.PagesApart;
      process := null;
      var space := phys.AddSpace();
      if space != null {
        process := new ProcessMemory(phys, space, phys.Outline().kernelPages);
        assert process !in phys.vmm.Counters();
        process.Nothing();
      }
    }

    lemma Nothing()
      requires segments == [] && vmem == map[] && repr == {} && parts == [] && phys.Valid() && MapsAre(phys.Outline())
      ensures Valid() && Frames() == {}
    {
      hide VirtualMemoryManager.Valid, View, KernelPages;
      LinkedMaps();
    }

    // Two address spaces are created for the child, and the first one is not used.
    method StartFork() returns (child: ProcessMemory?, extra: AddressSpace?)
      requires Valid()
      modifies phys.vmm
      ensures child == null ==> phys.vmm.free == {}
      ensures child != null ==>
                && extra != null && fresh(extra) && fresh(extra.pageDirMapCount) && child.space != extra
                && extra !in old(phys.Outline()).view && child.space !in old(phys.Outline()).view
                && Valid() && child.Valid() && fresh(child) && fresh(child.space) && fresh(child.space.pageDirMapCount) && child.phys == phys
                && child.segments == [] && child.repr == {} && child.Frames() == {} && child.kernelPages == kernelPages
                && child.After(old(phys.Outline()).(view := old(phys.Outline()).view[extra := map[]]), true)
    {
      hide VirtualMemoryManager.Valid, View, KernelPages, PhysicalMemory.Outline, PhysicalMemory.PagesApart, Local, Linked, After;
      child := null;
      LinkedMaps();
      ReprApart();
      extra := phys.AddSpace();
      if extra != null {
        LinkedMaps();
        ghost var outline := phys.Outline();
        child := Empty(phys);
        if child != null {
          child.LinkedMaps();
          LinkedMaps();
          child.AfterStart(outline);
        }
      }
    }

    lemma AfterStart(outline: Picture)
      requires Linked() && vmem == map[] && phys.Outline() == outline.(view := outline.view[space := map[]])
      ensures After(outline, true)
    {
      hide VirtualMemoryManager.Valid, View, KernelPages;
    }

    /**
     fork: the child has the parent's ranges with the same contents, on pages that nobody had; the parent
     stays as it is.  One of the two address spaces that are created belongs to no process; frames are lost if
     and only if the parent has a page.
     */
    method Fork() returns (outcome: Outcome, child: ProcessMemory?, extra: AddressSpace?)
      requires Valid()
      modifies phys, phys.vmm
      ensures Stopped(outcome, phys.vmm.free, Largest(|segments|))
      ensures outcome.Done? ==>
                && child != null && extra != null && fresh(child) && fresh(extra) && fresh(extra.pageDirMapCount) && child.space != extra
                && extra !in old(phys.Outline()).view && child.space !in old(phys.Outline()).view
                && Valid() && child.Valid() && child.phys == phys && child.kernelPages == kernelPages
                && fresh(child.repr) && fresh(child.space.pageDirMapCount)
                && |child.segments| == |segments| && child.MirrorsFirst(|segments|, this)
                && phys.used == old(phys.used) + child.Frames() && child.Frames() !! old(phys.used)
                && child.After(old(phys.Outline()).(view := old(phys.Outline()).view[extra := map[]]), Frames() == {})
      ensures forall p | p in old(phys.used) :: phys.Bytes(p) == old(phys.Bytes(p))
    {
      hide VirtualMemoryManager.Valid, View, KernelPages, PhysicalMemory.Outline, PhysicalMemory.PagesApart, Local, Linked, After,
           MirrorsFirst, Valid, NoPages;
      ghost var used, outline := phys.used, phys.Outline();
      child, extra := StartFork();
      if child == null {
        return NoFrame, null, null;
      }
      outline := outline.(view := outline.view[extra := map[]]);
      outcome := Done;
      NoneMirrored(child);
      var i := 0;
      while i < |segments|
        invariant 0 <= i <= |segments| && outcome.Done?
        invariant Valid() && child.Valid() && fresh(child.repr)
        invariant |child.segments| == i && child.MirrorsFirst(i, this)
        invariant phys.used == used + child.Frames() && used !! child.Frames()
        invariant child.After(outline, NoPages(i))
        invariant forall p | p in used :: phys.Bytes(p) == old(phys.Bytes(p))
      {
        NoPagesAt(i);
        outcome := ForkSegment(child, i, used, outline, NoPages(i));
        if !outcome.Done? {
          StoppedAt(outcome, phys.vmm.free, i, |segments|);
          return;
        }
        i := i + 1;
      }
      NoPagesAt(i);
    }

    lemma NoneMirrored(child: ProcessMemory)
      ensures child.MirrorsFirst(0, this) && NoPages(0)
    {
    }

    // The first n segments have no pages.
    ghost predicate NoPages(n: nat)
      reads this`parts
    {
      n <= |parts| && forall i | 0 <= i < n :: parts[i] == {}
    }

    lemma NoPagesAt(n: nat)
      requires Valid() && n <= |segments|
      ensures n < |segments| ==> (NoPages(n + 1) <==> NoPages(n) && segments[n].Pages() == [])
      ensures n == |segments| ==> (NoPages(n) <==> Frames() == {})
    {
      hide RegionMapped, Distinct, Fits, InSome, Linked;
      if n < |segments| {
        assert Kept(vmem, segments[n], parts[n]);
        EmptySet(segments[n].Pages());
      } else if NoPages(n) {
        assert Union(parts) == {};
      } else {
        var i :| 0 <= i < n && parts[i] != {};
        PartOfUnion(parts, i);
      }
    }

    lemma EmptySet(pages: seq<Frame>)
      ensures PageSet(pages) == {} <==> pages == []
    {
      assert pages != [] ==> pages[0] in PageSet(pages);
    }

    // The most pages that one of the first n segments has.
    ghost function Largest(n: nat): nat
      reads this`segments, set i | 0 <= i < |segments| :: segments[i], set i | 0 <= i < |segments| :: segments[i].msegment
      requires n <= |segments|
    {
      if n == 0 then 0 else if Largest(n - 1) < |segments[n - 1].Pages()| then |segments[n - 1].Pages()| else Largest(n - 1)
    }

    lemma StoppedAt(outcome: Outcome, free: set<Frame>, i: nat, n: nat)
      requires i < n <= |segments| && Stopped(outcome, free, |segments[i].Pages()|)
      ensures Stopped(outcome, free, Largest(n))
    {
      if i < n - 1 {
        StoppedAt(outcome, free, i, n - 1);
      }
    }
  }

  // Each of several owners has what it has alone.
  ghost predicate OneOwnerEach<T>(owners: seq<set<T>>) {
    forall i, j | 0 <= i < j < |owners| :: owners[i] !! owners[j]
  }

  lemma StillApart<T>(owners: seq<set<T>>, k: nat, mine: set<T>)
    requires OneOwnerEach(owners) && k < |owners| && forall i | 0 <= i < |owners| :: mine - owners[k] !! owners[i]
    ensures OneOwnerEach(owners[k := mine]) && Union(owners[k := mine]) <= Union(owners) + (mine - owners[k])
  {
    assert mine <= (mine - owners[k]) + owners[k];
    forall i | 0 <= i < |owners| && i != k
      ensures mine !! owners[i]
    {
      assert if i < k then owners[i] !! owners[k] else owners[k] !! owners[i];
    }
  }

  lemma MovedTwice(used: set<nat>, used': set<nat>, used'': set<nat>, mine: set<nat>, mine': set<nat>, mine'': set<nat>)
    requires PagesMoved(used, used', mine, mine') && PagesMoved(used', used'', mine', mine'')
    ensures PagesMoved(used, used'', mine, mine'')
  {
    forall p | p in mine'' && p !in mine
      ensures p !in used
    {
      assert p in used - mine <==> p in used'' - mine'';
    }
  }

  /** What one owner gives back or takes anew leaves the others with what they have. */
  lemma StillOwned(used: set<nat>, used': set<nat>, owners: seq<set<nat>>, k: nat, mine: set<nat>)
    requires OneOwnerEach(owners) && Union(owners) <= used && k < |owners| && PagesMoved(used, used', owners[k], mine)
    ensures OneOwnerEach(owners[k := mine]) && PagesMoved(used, used', Union(owners), Union(owners[k := mine]))
  {
    var owners' := owners[k := mine];
    forall i, p | 0 <= i < |owners| && p in owners[i]
      ensures p in used && (i != k ==> p in owners'[i] && p !in mine && p !in owners[k])
    {
      assert p in Union(owners);
      assert i != k ==> owners[if i < k then i else k] !! owners[if i < k then k else i];
    }
    forall p
      ensures p in Union(owners') <==> p in mine || (p in Union(owners) && p !in owners[k])
    {
      if p in mine {
        assert p in owners'[k];
      }
      if p in Union(owners) && p !in owners[k] {
        var i :| 0 <= i < |owners| && p in owners[i];
        assert p in owners'[i];
      }
    }
    forall p
      ensures p in used' && p !in Union(owners') <==> p in used && p !in Union(owners)
      ensures p in Union(owners') ==> p in used' && (p !in Union(owners) ==> p !in used)
    {
      assert p in used' - mine <==> p in used - owners[k];
      assert p in owners[k] ==> p in Union(owners);
    }
  }

  // What may happen to the memory of processes: process number from shares its segment number at.
  datatype Call =
    | MapNew(process: nat, count: nat, write: bool, shared: bool, base: nat, size: nat)
    | Share(process: nat, from: nat, at: nat, base: nat, size: nat)
    | Unmap(process: nat, at: nat)
    | UnmapAll(process: nat)
    | Fork(process: nat)

  // How many processes there were, and the segments and the map of one of them; and whether a call is refused.
  datatype Target = Target(procs: nat, segments: seq<ProcessSegment>, vmem: PageMap, rejected: bool)

  datatype Moment = Moment(procs: seq<ProcessMemory>, frames: set<Frame>, used: set<Frame>, known: set<Frame>)

  /** The address spaces of all processes, over one physical memory. */
  class AddressSpaces {
    const phys: PhysicalMemory
    var procs: seq<ProcessMemory>

    // One process, with nothing mapped.
    constructor (first: ProcessMemory)
      requires first.Valid() && first.segments == [] && first.repr == {} && first.Frames() == {}
      ensures Valid() && this.phys == first.phys && procs == [first]
    {
      this.phys, procs := first.phys, [first];
      new;
      assert this !in phys.vmm.Counters() && this !in first.repr;
      OnlyProcess(first);
    }

    lemma OnlyProcess(first: ProcessMemory)
      requires phys == first.phys && procs == [first] && first.Valid() && first.repr == {} && first.Frames() == {}
      ensures Valid()
    {
      hide ProcessMemory.Local, View, KernelPages, VirtualMemoryManager.Valid;
      first.LinkedMaps();
      PartOfUnion(Objects(), 0);
    }

    ghost function Objects(): seq<set<object>>
      reads this, procs
    {
      seq(|procs|, i requires 0 <= i < |procs| reads this, procs => procs[i].repr)
    }

    ghost function Frames(): seq<set<Frame>>
      reads this, procs
    {
      seq(|procs|, i requires 0 <= i < |procs| reads this, procs => procs[i].Frames())
    }

    // Every process has an address space of its own, and the page tables show what it maps.
    ghost predicate Mapped(outline: Picture)
      reads this, procs
    {
      && (forall i | 0 <= i < |procs| :: procs[i].phys == phys && procs[i].MapsAre(outline))
      && (forall i, j | 0 <= i < j < |procs| :: procs[i] != procs[j] && procs[i].space != procs[j].space)
    }

    /**
     Every process is in order; no MemorySegment and no ProcessSegment is in two processes, and no page is in
     two segments, of one process or of two.
     */
    ghost predicate Valid()
      reads this, phys, phys.vmm, phys.vmm.Counters(), procs, Union(Objects())
    {
      && phys.Valid() && Union(Frames()) <= phys.used && Mapped(phys.Outline())
      && (forall i | 0 <= i < |procs| :: Objects()[i] <= Union(Objects()) && procs[i].Local())
      && OneOwnerEach(Objects()) && OneOwnerEach(Frames())
    }

    // Where one process has changed its address space, the others have theirs as before.
    lemma StillMapped(k: nat, outline: Picture, lossless: bool)
      requires k < |procs| && procs[k].After(outline, lossless) && procs[k].kernelPages == outline.kernelPages
      requires forall i | 0 <= i < |procs| :: procs[i].phys == phys && (i != k ==> procs[i].MapsAre(outline))
      requires forall i, j | 0 <= i < j < |procs| :: procs[i] != procs[j] && procs[i].space != procs[j].space
      ensures Mapped(phys.Outline()) && phys.Valid()
      ensures phys.Outline().known <= outline.known && (phys.Outline().known == outline.known <==> lossless)
      ensures phys.Outline().view.Keys == outline.view.Keys + {procs[k].space}
    {
      hide View, KernelPages, VirtualMemoryManager.Valid;
      procs[k].LinkedMaps();
    }

    lemma StillValid(k: nat, objects: seq<set<object>>, frames: seq<set<Frame>>, used: set<Frame>)
      requires k < |procs| == |objects| == |frames| && phys.Valid() && Mapped(phys.Outline())
      requires forall i | 0 <= i < |procs| :: procs[i].Local()
      requires forall i | 0 <= i < |procs| && i != k :: procs[i].repr == objects[i] && procs[i].Frames() == frames[i]
      requires OneOwnerEach(objects) && OneOwnerEach(frames) && Union(frames) <= used
      requires PagesMoved(used, phys.used, frames[k], procs[k].Frames())
      requires forall i | 0 <= i < |procs| :: procs[k].repr - objects[k] !! objects[i]
      ensures Valid() && PagesMoved(used, phys.used, Union(frames), Union(Frames()))
      ensures Union(Objects()) <= Union(objects) + (procs[k].repr - objects[k])
    {
      hide ProcessMemory.Local, Mapped, PhysicalMemory.Valid, PhysicalMemory.Outline;
      StillOwned(used, phys.used, frames, k, procs[k].Frames());
      StillApart(objects, k, procs[k].repr);
      forall i | 0 <= i < |procs|
        ensures Objects()[i] <= Union(Objects())
      {
        PartOfUnion(Objects(), i);
      }
      assert Frames() == frames[k := procs[k].Frames()];
      assert Objects() == objects[k := procs[k].repr];
    }

    // One process is as it should be by itself.
    lemma OneValid(k: nat)
      requires Valid() && k < |procs|
      ensures procs[k].Valid() && procs[k].phys == phys && procs[k].kernelPages == phys.Outline().kernelPages
      ensures procs[k].space in phys.Outline().view
      ensures forall i | 0 <= i < |procs| ::
                && this !in procs[i].repr && phys !in procs[i].repr && procs[k] !in procs[i].repr && procs[i] !in procs[k].repr
                && phys.vmm !in procs[i].repr && procs[k].space.pageDirMapCount !in procs[i].repr
      ensures forall i | 0 <= i < |procs| && i != k :: procs[i] != procs[k] && procs[i].repr !! procs[k].repr
    {
      hide ProcessMemory.Keeps, InSome, PhysicalMemory.Outline, PhysicalMemory.Valid;
      PartOfUnion(Frames(), k);
      procs[k].LinkedMaps();
      forall i | 0 <= i < |procs| && i != k
        ensures procs[i] != procs[k] && procs[i].repr !! procs[k].repr
      {
        assert if i < k then Objects()[i] !! Objects()[k] else Objects()[k] !! Objects()[i];
      }
    }

    // What Valid says of each process and of all together.
    lemma AllLocal()
      requires Valid()
      ensures phys.Valid() && OneOwnerEach(Objects()) && OneOwnerEach(Frames()) && Union(Frames()) <= phys.used
      ensures forall i | 0 <= i < |procs| :: procs[i].Local() && procs[i].phys == phys && procs[i].MapsAre(phys.Outline())
      ensures forall i, j | 0 <= i < j < |procs| :: procs[i] != procs[j] && procs[i].space != procs[j].space
    {
      hide ProcessMemory.Local, PhysicalMemory.Valid, PhysicalMemory.Outline, ProcessMemory.MapsAre;
    }

    lemma ValidIf(k: nat)
      requires k < |procs|
      ensures Valid() ==> procs[k].Valid()
    {
      if Valid() {
        OneValid(k);
      }
    }

    // A new segment is mapped, unless there is no room for it.
    ghost predicate Refused(k: nat, count: nat, base: nat, limit: nat)
      reads this, procs, phys, phys.vmm
      requires k < |procs|
    {
      |phys.vmm.free| < count || !procs[k].Room(base, limit)
    }

    method MapNewAt(k: nat, count: nat, write: bool, shared: bool, base: nat, size: nat) returns (outcome: Outcome)
      requires Valid() && k < |procs| && base + size <= PAGES
      modifies procs[k], phys, phys.vmm, procs[k].space.pageDirMapCount
      ensures Stopped(outcome, phys.vmm.free, count)
      ensures outcome.Done? ==> (Valid() <==> old(Refused(k, count, base, base + size)) || Fits(procs[k].kernelPages, base, base + size, count))
      ensures outcome.Done? && Valid() ==>
                && PagesMoved(old(phys.used), phys.used, old(Union(Frames())), Union(Frames()))
                && phys.Outline().known == old(phys.Outline().known)
                && (forall o | o in Union(Objects()) && o !in old(Union(Objects())) :: fresh(o))
                && phys.Outline().view.Keys == old(phys.Outline().view.Keys)
      ensures outcome.Done? && Valid() ==>
                if old(Refused(k, count, base, base + size))
                then procs[k].segments == old(procs[k].segments) && procs[k].vmem == old(procs[k].vmem)
                else procs[k].phys == phys && procs[k].Added(old(procs[k].segments), base, base + size, count, write, shared)
      ensures forall p | p in old(phys.used) :: phys.Bytes(p) == old(phys.Bytes(p))
    {
      hide ProcessMemory.Local, Union, PagesMoved, VirtualMemoryManager.Valid, View, KernelPages, PhysicalMemory.Valid, PhysicalMemory.Outline,
           ProcessMemory.MapsAre, ProcessMemory.After, ProcessMemory.Linked, SameOutside, Fits, ProcessMemory.Added;
      ghost var objects, frames, used, outline := Objects(), Frames(), phys.used, phys.Outline();
      OneValid(k);
      var pseg;
      outcome, pseg := procs[k].MapNew(count, write, shared, base, base + size);
      if outcome.Done? {
        if procs[k].Valid() {
          StillMapped(k, outline, true);
          StillValid(k, objects, frames, used);
        } else if Valid() {
          OneValid(k);
        }
      }
    }

    // A segment that some process has is mapped: as it has a place there, a copy of it.
    method ShareAt(k: nat, from: nat, at: nat, base: nat, size: nat) returns (outcome: Outcome)
      requires Valid() && k < |procs| && from < |procs| && at < |procs[from].segments| && base + size <= PAGES
      modifies procs[k], phys, phys.vmm, procs[k].space.pageDirMapCount
      ensures Stopped(outcome, phys.vmm.free, old(|procs[from].segments[at].Pages()|))
      ensures outcome.Done? ==>
                (Valid() <==> !old(procs[k].Room(base, base + size))
                              || Fits(procs[k].kernelPages, base, base + size, old(|procs[from].segments[at].Pages()|)))
      ensures outcome.Done? && Valid() ==>
                && PagesMoved(old(phys.used), phys.used, old(Union(Frames())), Union(Frames()))
                && phys.Outline().known <= old(phys.Outline().known)
                && (phys.Outline().known == old(phys.Outline().known) <==>
                      !old(procs[k].Room(base, base + size)) || old(procs[from].segments[at].Pages()) == [])
                && (forall o | o in Union(Objects()) && o !in old(Union(Objects())) :: fresh(o))
                && phys.Outline().view.Keys == old(phys.Outline().view.Keys)
      ensures outcome.Done? && Valid() ==>
                if !old(procs[k].Room(base, base + size)) then procs[k].segments == old(procs[k].segments) && procs[k].vmem == old(procs[k].vmem)
                else
                  && procs[k].phys == phys && at < |procs[from].segments| && procs[from].segments[at].msegment != null
                  && procs[k].AddedCopy(old(procs[k].segments), base, base + size, procs[from].segments[at].msegment)
      ensures forall p | p in old(phys.used) :: phys.Bytes(p) == old(phys.Bytes(p))
    {
      hide ProcessMemory.Local, Union, PagesMoved, VirtualMemoryManager.Valid, View, KernelPages, PhysicalMemory.Valid, PhysicalMemory.Outline,
           ProcessMemory.MapsAre, ProcessMemory.After, ProcessMemory.Linked, SameOutside, Fits,
           Valid, ProcessMemory.Valid, ProcessMemory.Room, ProcessSegment.Has, ProcessMemory.Added, ProcessMemory.AddedCopy;
      ghost var objects, frames, used, outline := Objects(), Frames(), phys.used, phys.Outline();
      AllLocal();
      OneValid(from);
      procs[from].HasOnePlace(at);
      OneValid(k);
      ghost var lossless := !procs[k].Room(base, base + size) || procs[from].segments[at].Pages() == [];
      var pseg;
      outcome, pseg := procs[k].MapSegment(procs[from].segments[at].msegment, base, base + size);
      ValidIf(k);
      if outcome.Done? && procs[k].Valid() {
        procs[k].ValidSays();
        assert fresh(procs[k].repr - objects[k]);
        StillMapped(k, outline, lossless);
        StillValid(k, objects, frames, used);
      }
    }

    method UnmapAt(k: nat, at: nat)
      requires Valid() && k < |procs| && at < |procs[k].segments|
      modifies procs[k], phys`used, phys.vmm, procs[k].space.pageDirMapCount, procs[k].repr
      ensures phys.Outline().known == old(phys.Outline().known) && phys.Outline().view.Keys == old(phys.Outline().view.Keys)
      ensures PagesMoved(old(phys.used), phys.used, old(Union(Frames())), Union(Frames()))
      ensures forall o | o in Union(Objects()) && o !in old(Union(Objects())) :: fresh(o)
      ensures Acted(Unmap(k, at), old(TargetOf(Unmap(k, at))))
      ensures Valid()
    {
      hide ProcessMemory.Local, Union, PagesMoved, VirtualMemoryManager.Valid, View, KernelPages, PhysicalMemory.Valid, PhysicalMemory.Outline,
           ProcessMemory.MapsAre, ProcessMemory.After, ProcessMemory.Linked, SameOutside, Fits;
      ghost var objects, frames, used, outline := Objects(), Frames(), phys.used, phys.Outline();
      OneValid(k);
      procs[k].OnePart(at);
      var _ := procs[k].UnmapSegment(procs[k].segments[at]);
      StillMapped(k, outline, true);
      StillValid(k, objects, frames, used);
    }

    method UnmapAllAt(k: nat)
      requires Valid() && k < |procs|
      modifies procs[k], phys`used, phys.vmm, procs[k].space.pageDirMapCount, procs[k].repr
      ensures procs[k].Frames() == {}
      ensures phys.Outline().known == old(phys.Outline().known) && phys.Outline().view.Keys == old(phys.Outline().view.Keys)
      ensures PagesMoved(old(phys.used), phys.used, old(Union(Frames())), Union(Frames()))
      ensures forall o | o in Union(Objects()) && o !in old(Union(Objects())) :: fresh(o)
      ensures Acted(UnmapAll(k), old(TargetOf(UnmapAll(k))))
      ensures Valid()
    {
      hide ProcessMemory.Local, Union, PagesMoved, VirtualMemoryManager.Valid, View, KernelPages, PhysicalMemory.Valid, PhysicalMemory.Outline,
           ProcessMemory.MapsAre, ProcessMemory.After, ProcessMemory.Linked, SameOutside, Fits;
      ghost var objects, frames, used, outline := Objects(), Frames(), phys.used, phys.Outline();
      OneValid(k);
      procs[k].UnmapAll();
      StillMapped(k, outline, true);
      StillValid(k, objects, frames, used);
    }

    // The child joins the processes; the address space that fork leaves over is there as well.
    method ForkAt(k: nat) returns (outcome: Outcome, extra: AddressSpace?)
      requires Valid() && k < |procs|
      modifies this, phys, phys.vmm
      ensures Stopped(outcome, phys.vmm.free, old(procs[k].Largest(|procs[k].segments|)))
      ensures outcome.Done? ==>
                && Valid() && |procs| == |old(procs)| + 1 && procs[..|old(procs)|] == old(procs) && fresh(procs[|old(procs)|])
                && PagesMoved(old(phys.used), phys.used, old(Union(Frames())), Union(Frames()))
                && phys.Outline().known <= old(phys.Outline().known)
                && (phys.Outline().known == old(phys.Outline().known) <==> old(procs[k].Frames()) == {})
                && (forall o | o in Union(Objects()) && o !in old(Union(Objects())) :: fresh(o))
                && extra != null && fresh(extra) && fresh(extra.pageDirMapCount) && fresh(procs[|old(procs)|].space.pageDirMapCount)
                && phys.Outline().view.Keys == old(phys.Outline().view.Keys) + {extra, procs[|old(procs)|].space}
                && forall i | 0 <= i < |procs| :: procs[i].space != extra
      ensures outcome.Done? ==> Acted(Fork(k), old(TargetOf(Fork(k))))
      ensures forall p | p in old(phys.used) :: phys.Bytes(p) == old(phys.Bytes(p))
    {
      hide ProcessMemory.Local, Union, PagesMoved, VirtualMemoryManager.Valid, View, KernelPages, PhysicalMemory.Valid, PhysicalMemory.Outline,
           ProcessMemory.MapsAre, ProcessMemory.After, ProcessMemory.Linked, SameOutside, Fits, ProcessMemory.MirrorsFirst,
           Valid, ProcessMemory.Valid, ProcessMemory.Largest;
      ghost var objects, frames, used, outline := Objects(), Frames(), phys.used, phys.Outline();
      AllLocal();
      OneValid(k);
      var child;
      outcome, child, extra := procs[k].Fork();
      if outcome.Done? {
        child.ValidSays();
        assert forall i | 0 <= i < |procs| :: procs[i].Local() && procs[i].MapsAre(outline);
        Adopt(child, extra, outline, used, frames[k] == {});
      }
    }

    // A process that is in order by itself joins the others.
    method Adopt(child: ProcessMemory, ghost extra: AddressSpace, ghost outline: Picture, ghost used: set<Frame>, ghost lossless: bool)
      requires child.Valid() && child.phys == phys && child !in procs && child.kernelPages == outline.kernelPages
      requires child.After(outline.(view := outline.view[extra := map[]]), lossless)
      requires extra !in outline.view && child.space !in outline.view && child.space != extra
      requires forall i | 0 <= i < |procs| ::
                 procs[i].phys == phys && procs[i].Local() && procs[i].MapsAre(outline) && procs[i].repr !! child.repr
      requires forall i, j | 0 <= i < j < |procs| :: procs[i] != procs[j] && procs[i].space != procs[j].space
      requires this !in child.repr && forall i | 0 <= i < |procs| :: this !in procs[i].repr
      requires OneOwnerEach(Objects()) && OneOwnerEach(Frames()) && Union(Frames()) <= used
      requires phys.used == used + child.Frames() && child.Frames() !! used
      modifies this
      ensures procs == old(procs) + [child] && forall i | 0 <= i < |procs| :: procs[i].space != extra
      ensures phys.Outline().known <= outline.known && (phys.Outline().known == outline.known <==> lossless)
      ensures phys.Outline().view.Keys == outline.view.Keys + {extra, child.space}
      ensures PagesMoved(used, phys.used, old(Union(Frames())), Union(Frames()))
      ensures Union(Objects()) <= old(Union(Objects())) + child.repr
      ensures Valid()
    {
      hide ProcessMemory.Local, Union, PagesMoved, VirtualMemoryManager.Valid, View, KernelPages, PhysicalMemory.Valid, PhysicalMemory.Outline,
           ProcessMemory.MapsAre, ProcessMemory.After, ProcessMemory.Linked, SameOutside, Fits;
      ghost var objects, frames, outline1 := Objects(), Frames(), outline.(view := outline.view[extra := map[]]);
      forall i | 0 <= i < |procs|
        ensures procs[i].MapsAre(outline1) && procs[i].space != extra && procs[i].space != child.space
      {
        procs[i].MapsMore(outline, extra);
      }
      assert this !in phys.vmm.Counters();
      procs := procs + [child];
      UnionMore(frames, {});
      UnionMore(objects, {});
      assert Union(frames) + {} == Union(frames) && Union(objects) + {} == Union(objects);
      StillMapped(|objects|, outline1, lossless);
      MovedFresh(used, child.Frames());
      StillValid(|objects|, objects + [{}], frames + [{}], used);
    }

    // Where the calls started, and what has come of it: no page was lost, and no process.
    ghost function Here(): Moment
      reads this, phys, phys.vmm, procs
    {
      Moment(procs, Union(Frames()), phys.used, phys.Outline().known)
    }

    ghost predicate Since(start: Moment)
      reads this, phys, phys.vmm, procs
    {
      && PagesMoved(start.used, phys.used, start.frames, Union(Frames())) && phys.Outline().known <= start.known
      && |procs| >= |start.procs| && procs[..|start.procs|] == start.procs
    }

    lemma Onward(start: Moment, mid: Moment)
      requires PagesMoved(start.used, mid.used, start.frames, mid.frames) && mid.known <= start.known
      requires |mid.procs| >= |start.procs| && mid.procs[..|start.procs|] == start.procs && Since(mid)
      ensures Since(start)
    {
      MovedTwice(start.used, mid.used, phys.used, start.frames, mid.frames, Union(Frames()));
      hide Union, PagesMoved, PhysicalMemory.Outline;
      assert procs[..|mid.procs|][..|start.procs|] == procs[..|start.procs|];
    }

    lemma SinceHere()
      requires Valid()
      ensures Since(Here())
    {
      hide PhysicalMemory.Outline, ProcessMemory.Local;
      NothingMoved(phys.used, Union(Frames()));
    }

    // The call maps a segment at a range of pages: it names processes and segments that there are.
    ghost predicate Maps(c: Call)
      reads this, procs
    {
      match c
      case MapNew(k, count, write, shared, base, size) => k < |procs| && base + size <= PAGES
      case Share(k, from, at, base, size) => k < |procs| && from < |procs| && at < |procs[from].segments| && base + size <= PAGES
      case _ => false
    }

    // The pages that the call needs for one segment.
    ghost function PagesFor(c: Call): nat
      reads this, procs, set i, j | 0 <= i < |procs| && 0 <= j < |procs[i].segments| :: procs[i].segments[j]
      reads set i, j | 0 <= i < |procs| && 0 <= j < |procs[i].segments| :: procs[i].segments[j].msegment
    {
      match c
      case MapNew(_, count, _, _, _, _) => count
      case Share(_, from, at, _, _) => if from < |procs| && at < |procs[from].segments| then |procs[from].segments[at].Pages()| else 0
      case Fork(k) => if k < |procs| then procs[k].Largest(|procs[k].segments|) else 0
      case _ => 0
    }

    // There is no room for what the call maps.
    ghost predicate Rejected(c: Call)
      reads this, procs, phys, phys.vmm
      requires Maps(c)
    {
      match c
      case MapNew(k, count, write, shared, base, size) => Refused(k, count, base, base + size)
      case Share(k, from, at, base, size) => !procs[k].Room(base, base + size)
      case _ => false
    }

    // The call keeps away from the kernel's part of the directory: what it maps fits, or is not mapped.
    ghost predicate KeepsAway(c: Call)
      reads this, procs, set i, j | 0 <= i < |procs| && 0 <= j < |procs[i].segments| :: procs[i].segments[j]
      reads set i, j | 0 <= i < |procs| && 0 <= j < |procs[i].segments| :: procs[i].segments[j].msegment
      reads phys, phys.vmm
    {
      !Maps(c) || Rejected(c) || Fits(procs[c.process].kernelPages, c.base, c.base + c.size, PagesFor(c))
    }

    // The call copies no page, and so no frame is lost.
    ghost predicate CopiesNothing(c: Call)
      reads this, procs, set i, j | 0 <= i < |procs| && 0 <= j < |procs[i].segments| :: procs[i].segments[j]
      reads set i, j | 0 <= i < |procs| && 0 <= j < |procs[i].segments| :: procs[i].segments[j].msegment
      reads phys, phys.vmm
    {
      match c
      case Share(k, from, at, base, size) => !Maps(c) || Rejected(c) || procs[from].segments[at].Pages() == []
      case Fork(k) => k < |procs| ==> procs[k].Frames() == {}
      case _ => true
    }

    // What a call is for, as it was before.
    ghost function TargetOf(c: Call): Target
      reads this, procs, phys, phys.vmm
    {
      if c.process < |procs| then Target(|procs|, procs[c.process].segments, procs[c.process].vmem, !Maps(c) || Rejected(c))
      else Target(|procs|, [], map[], true)
    }

    // What a call has done to its process, and for fork to the new one.
    ghost predicate Acted(c: Call, was: Target)
      reads this, procs, set i, j | 0 <= i < |procs| && 0 <= j < |procs[i].segments| :: procs[i].segments[j]
      reads set i, j | 0 <= i < |procs| && 0 <= j < |procs[i].segments| :: procs[i].segments[j].msegment
      reads phys, phys.vmm
    {
      c.process < was.procs ==>
        && c.process < |procs|
        && var p := procs[c.process];
        match c
        case MapNew(_, count, write, shared, base, size) =>
          if was.rejected then p.segments == was.segments && p.vmem == was.vmem
          else p.phys == phys && p.Added(was.segments, base, base + size, count, write, shared)
        case Share(_, from, at, base, size) =>
          if was.rejected then p.segments == was.segments && p.vmem == was.vmem
          else
            && p.phys == phys && from < |procs| && at < |procs[from].segments| && procs[from].segments[at].msegment != null
            && p.AddedCopy(was.segments, base, base + size, procs[from].segments[at].msegment)
        case Unmap(_, at) =>
          if at < |was.segments| then
            && p.segments == was.segments[..at] + was.segments[at + 1..]
            && (forall q | was.segments[at].base <= q < was.segments[at].limit :: q !in p.vmem)
            && SameOutside(was.vmem, p.vmem, was.segments[at].base, was.segments[at].limit)
          else p.segments == was.segments && p.vmem == was.vmem
        case UnmapAll(_) => p.segments == [] && p.vmem == map[]
        case Fork(_) =>
          && p.segments == was.segments && p.vmem == was.vmem && |procs| == was.procs + 1
          && procs[was.procs].phys == phys && |procs[was.procs].segments| == |p.segments|
          && procs[was.procs].MirrorsFirst(|p.segments|, p)
    }

    /**
     One call keeps all this if and only if it keeps away from the kernel's part of the directory.  Then it does
     for its process what it is for, loses no page, and leaves to every other process its address space and what
     its pages hold; a frame is lost if and only if a page is copied.  The kernel stops only without a free frame,
     or for a segment that is too large to copy.
     */
    method Step(c: Call, ghost watched: nat) returns (outcome: Outcome)
      requires Valid()
      modifies this, phys, phys.vmm, phys.vmm.Counters(), procs, Union(Objects())
      ensures Stopped(outcome, phys.vmm.free, old(PagesFor(c)))
      ensures outcome.Done? ==> (Valid() <==> old(KeepsAway(c)))
      ensures outcome.Done? && Valid() ==>
                Since(old(Here())) && (phys.Outline().known == old(phys.Outline().known) <==> old(CopiesNothing(c)))
      ensures outcome.Done? && Valid() ==>
                && (forall i | |old(procs)| <= i < |procs| :: fresh(procs[i]))
                && (forall o | o in Union(Objects()) && o !in old(Union(Objects())) :: fresh(o))
                && (forall o | o in phys.vmm.Counters() && o !in old(phys.vmm.Counters()) :: fresh(o))
      ensures outcome.Done? && Valid() && watched < |old(procs)| && watched != c.process ==>
                procs[watched].vmem == old(procs[watched].vmem) && procs[watched].Frames() == old(procs[watched].Frames())
      ensures outcome.Done? && Valid() ==> Acted(c, old(TargetOf(c)))
      ensures forall p | p in old(phys.used) :: phys.Bytes(p) == old(phys.Bytes(p))
    {
      hide ProcessMemory.Local, Union, PagesMoved, Valid, VirtualMemoryManager.Valid, View, KernelPages, PhysicalMemory.Valid,
           PhysicalMemory.Outline, Fits, ProcessMemory.Largest, VirtualMemoryManager.Counters, Acted, ProcessMemory.MirrorsFirst;
      outcome := Done;
      AllLocal();
      SinceHere();
      NoTarget(c);
      if c.process >= |procs| {
        return;
      }
      OneValid(c.process);
      CounterOf(c.process);
      PartOfUnion(Objects(), c.process);
      CountersOf();
      if c.Fork? {
        var extra;
        outcome, extra := ForkAt(c.process);
      } else {
        outcome := ActOn(c);
      }
      CountersOf();
    }

    lemma NoTarget(c: Call)
      ensures c.process >= |procs| ==> Acted(c, TargetOf(c))
    {
    }

    // A call that changes one process only.
    method ActOn(c: Call) returns (outcome: Outcome)
      requires Valid() && c.process < |procs| && !c.Fork?
      modifies procs[c.process], phys, phys.vmm, procs[c.process].space.pageDirMapCount, procs[c.process].repr
      ensures Stopped(outcome, phys.vmm.free, old(PagesFor(c)))
      ensures outcome.Done? ==> (Valid() <==> old(KeepsAway(c)))
      ensures outcome.Done? && Valid() ==>
                && PagesMoved(old(phys.used), phys.used, old(Union(Frames())), Union(Frames()))
                && phys.Outline().known <= old(phys.Outline().known)
                && (phys.Outline().known == old(phys.Outline().known) <==> old(CopiesNothing(c)))
                && (forall o | o in Union(Objects()) && o !in old(Union(Objects())) :: fresh(o))
                && phys.Outline().view.Keys == old(phys.Outline().view.Keys)
      ensures outcome.Done? && Valid() ==> Acted(c, old(TargetOf(c)))
      ensures forall p | p in old(phys.used) :: phys.Bytes(p) == old(phys.Bytes(p))
    {
      hide ProcessMemory.Local, Union, PagesMoved, Valid, VirtualMemoryManager.Valid, View, KernelPages, PhysicalMemory.Valid,
           PhysicalMemory.Outline, Fits, ProcessMemory.Added, ProcessMemory.AddedCopy;
      outcome := Done;
      AllLocal();
      OneValid(c.process);
      NothingMoved(phys.used, Union(Frames()));
      match c
      case MapNew(k, count, write, shared, base, size) =>
        if base + size <= PAGES {
          outcome := MapNewAt(k, count, write, shared, base, size);
        }
      case Share(k, from, at, base, size) =>
        if from < |procs| && at < |procs[from].segments| && base + size <= PAGES {
          outcome := ShareAt(k, from, at, base, size);
        }
      case Unmap(k, at) =>
        if at < |procs[k].segments| {
          UnmapAt(k, at);
        }
      case UnmapAll(k) =>
        UnmapAllAt(k);
    }

    lemma CounterOf(k: nat)
      requires Valid() && k < |procs|
      ensures procs[k].space.pageDirMapCount in phys.vmm.Counters()
    {
      hide ProcessMemory.Local;
    }

    // The range of the call is empty, or ends in front of the kernel's part.
    predicate InFront(c: Call) {
      match c
      case MapNew(_, _, _, _, base, size) => size == 0 || base + size <= USER_PAGES
      case Share(_, _, _, base, size) => size == 0 || base + size <= USER_PAGES
      case _ => true
    }

    lemma FrontKeepsAway(c: Call)
      requires InFront(c)
      ensures KeepsAway(c)
    {
    }

    /**
     So it is over any sequence of calls, up to the first one with a range that does not end in front of the
     kernel's part.
     */
    method Run(calls: seq<Call>, ghost watched: nat) returns (outcome: Outcome, n: nat)
      requires Valid()
      modifies this, phys, phys.vmm, phys.vmm.Counters(), procs, Union(Objects())
      ensures n <= |calls| && forall i | 0 <= i < n :: InFront(calls[i])
      ensures outcome.Done? ==> Valid() && Since(old(Here())) && (n < |calls| ==> !InFront(calls[n]))
      ensures outcome.Done? && watched < |old(procs)| && (forall c | c in calls :: c.process != watched) ==>
                && |procs| > watched && procs[watched] == old(procs[watched])
                && procs[watched].vmem == old(procs[watched].vmem) && procs[watched].Frames() == old(procs[watched].Frames())
                && forall p | p in procs[watched].Frames() :: phys.Bytes(p) == old(phys.Bytes(p))
    {
      hide ProcessMemory.Local, Union, PagesMoved, Valid, VirtualMemoryManager.Valid, View, KernelPages, PhysicalMemory.Valid,
           PhysicalMemory.Outline, Fits, KeepsAway, CopiesNothing, PagesFor, Stopped, InFront, VirtualMemoryManager.Counters,
           Frames, Acted, ProcessMemory.MirrorsFirst;
      ghost var start, quiet := Here(), watched < |procs| && forall c | c in calls :: c.process != watched;
      outcome, n := Done, 0;
      SinceHere();
      while n < |calls| && InFront(calls[n])
        invariant 0 <= n <= |calls| && outcome.Done? && forall i | 0 <= i < n :: InFront(calls[i])
        invariant Valid() && Since(start)
        invariant forall i | |start.procs| <= i < |procs| :: fresh(procs[i])
        invariant forall o | o in Union(Objects()) && o !in old(Union(Objects())) :: fresh(o)
        invariant forall o | o in phys.vmm.Counters() && o !in old(phys.vmm.Counters()) :: fresh(o)
        invariant quiet ==>
            && procs[watched] == old(procs[watched])
            && procs[watched].vmem == old(procs[watched].vmem) && procs[watched].Frames() == old(procs[watched].Frames())
            && forall p | p in procs[watched].Frames() :: phys.Bytes(p) == old(phys.Bytes(p))
      {
        ghost var mid, objects1, counters1 := Here(), Union(Objects()), phys.vmm.Counters();
        if quiet {
          FramesUsed(watched);
        }
        FrontKeepsAway(calls[n]);
        outcome := Step(calls[n], watched);
        if !outcome.Done? {
          return;
        }
        Onward(start, mid);
        assert forall i | |start.procs| <= i < |mid.procs| :: procs[i] == mid.procs[i];
        assert forall o | o in Union(Objects()) && o !in old(Union(Objects())) :: o in objects1 || fresh(o);
        assert forall o | o in phys.vmm.Counters() && o !in old(phys.vmm.Counters()) :: o in counters1 || fresh(o);
        n := n + 1;
      }
    }

    lemma FramesUsed(k: nat)
      requires Valid() && k < |procs|
      ensures procs[k].Frames() <= phys.used
    {
      hide ProcessMemory.Local, PhysicalMemory.Outline;
      OneValid(k);
    }

    lemma CountersOf()
      ensures phys.vmm.Counters() == set v | v in phys.Outline().view :: v.pageDirMapCount
    {
    }

    /** The page tables show of every process what its map says. */
    lemma ShownAsMapped(i: nat, q: nat)
      requires Valid() && i < |procs| && q < USER_PAGES
      ensures phys.vmm.Maps(procs[i].space, q) == if q in procs[i].vmem then procs[i].vmem[q] else None
    {
      hide ProcessMemory.Local, Lookup;
      OneValid(i);
    }

    // One page behind the user's part is enough for a call not to keep away.
    lemma OneForeignPage(k: nat)
      requires Valid() && k < |procs| && |phys.vmm.free| >= 1 && procs[k].Room(0xC0400, 0xC0401)
      ensures !KeepsAway(MapNew(k, 1, true, false, 0xC0400, 1))
    {
      FitsExactly(procs[k].kernelPages, 0xC0400, 1);
    }

    /** Wherever a segment is mapped, it is never copied on write. */
    lemma NeverCopiedOnWrite(i: nat, a: nat)
      requires Valid() && i < |procs| && a < |procs[i].segments|
      ensures procs[i].segments[a].msegment != null && !procs[i].segments[a].msegment.CopyOnWrite()
    {
      OneValid(i);
      procs[i].HasOnePlace(a);
    }

    /** Two places, of one process or of two, show different segments, without a page in common. */
    lemma NothingShared(i: nat, a: nat, j: nat, b: nat)
      requires Valid() && i < |procs| && a < |procs[i].segments| && j < |procs| && b < |procs[j].segments|
      requires i != j || a != b
      ensures procs[i].segments[a] != procs[j].segments[b] && procs[i].segments[a].msegment != procs[j].segments[b].msegment
      ensures PageSet(procs[i].segments[a].Pages()) !! PageSet(procs[j].segments[b].Pages())
    {
      hide RegionMapped, Distinct, InSome, Fits, PhysicalMemory.Valid, PhysicalMemory.Outline;
      OneValid(i);
      procs[i].OnePart(a);
      procs[j].OnePart(b);
      assert i < j ==> Frames()[i] !! Frames()[j];
      assert j < i ==> Frames()[j] !! Frames()[i];
      procs[i].HasOnePlace(a);
      OneValid(j);
      procs[j].HasOnePlace(b);
    }
  }
}
