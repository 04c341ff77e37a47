/**
 Two-level page tables of 32-bit paging (section 4.3 of the Intel SDM, volume 3A): a directory of 1024
 entries for each address space, and tables of 1024 entries.  A table is shared by all address spaces
 when it belongs to the kernel's part of the directory.
 */
module PageTables {
  import opened Arithmetic

  // A page frame, by number.
  type Frame = nat
  // An entry: the frame from bit 12 on and flags below.
  type Word = w: nat | w < 0x1_0000_0000
  type Table = seq<Word>
  type Memory = map<Frame, Table>

  const EMPTY: Table := seq(1024, _ => 0)
  const FRAMES := 0x10_0000
  const PRESENT := 1
  const WRITE := 2
  const USER := 4

  // User stacks end at page 0xC0000; the directory entries from here on are the kernel's.
  const KERNEL_INDEX := 768
  const PAGES := 0x10_0000

  // The counter of the kernel's last table is pinned at a number no other counter reaches.
  const PINNED := 0xffff
  const LAST_INDEX := 1023

  // The low 12 bits of a shifted frame are clear, so adding flags sets their bits.
  function TabEntry(frame: Frame, write: bool): Word {
    frame * 0x1000 % 0x1_0000_0000 + PRESENT + if write then WRITE else 0
  }

  function DirEntry(frame: Frame, kernelPage: bool): Word {
    frame * 0x1000 % 0x1_0000_0000 + PRESENT + WRITE + if kernelPage then 0 else USER
  }

  function FrameOf(e: Word): Frame {
    e / 0x1000
  }

  predicate IsPresent(e: Word) {
    e % 2 == 1
  }

  predicate IsWritable(e: Word) {
    e / 2 % 2 == 1
  }

  predicate IsUser(e: Word) {
    e / 4 % 2 == 1
  }

  // The flags of a directory entry at an index: programs reach the tables in front of the kernel's part only.
  predicate DirFlags(e: Word, i: nat) {
    IsWritable(e) && (IsUser(e) <==> i < KERNEL_INDEX)
  }

  // What an entry packs together comes out again; of a frame number, 20 bits do.
  lemma Packed(frame: Frame, flag: bool)
    ensures IsWritable(DirEntry(frame, flag)) && IsUser(DirEntry(frame, flag)) == !flag && !IsUser(TabEntry(frame, flag))
    ensures IsPresent(TabEntry(frame, flag)) && FrameOf(TabEntry(frame, flag)) == frame % FRAMES
    ensures IsWritable(TabEntry(frame, flag)) == flag
    ensures IsPresent(DirEntry(frame, flag)) && FrameOf(DirEntry(frame, flag)) == frame % FRAMES
  {
    Shifted(frame);
    WithFlags(frame % FRAMES, 1 + if flag then WRITE else 0);
    WithFlags(frame % FRAMES, 3 + if flag then 0 else USER);
    WithUserFlag(frame % FRAMES, 1 + if flag then WRITE else 0);
    WithUserFlag(frame % FRAMES, 3 + if flag then 0 else USER);
  }

  lemma Shifted(frame: Frame)
    ensures frame * 0x1000 % 0x1_0000_0000 == frame % FRAMES * 0x1000
  {
    assert frame == frame / FRAMES * FRAMES + frame % FRAMES;
  }

  lemma WithFlags(frame: Frame, flags: nat)
    requires flags < 0x1000
    ensures (frame * 0x1000 + flags) / 0x1000 == frame
    ensures (frame * 0x1000 + flags) % 2 == flags % 2 && (frame * 0x1000 + flags) / 2 % 2 == flags / 2 % 2
  {
    DivModUnique(frame, 0x1000, flags);
    DivModUnique(frame * 0x800 + flags / 2, 2, flags % 2);
    DivModUnique(frame * 0x400 + flags / 4, 2, flags / 2 % 2);
  }

  lemma WithUserFlag(frame: Frame, flags: nat)
    requires flags < 0x1000
    ensures (frame * 0x1000 + flags) / 4 % 2 == flags / 4 % 2
  {
    var rest := flags / 4;
    DivModUnique(frame * 0x400 + rest, 4, flags % 4);
    DivModUnique(frame * 0x200 + rest / 2, 2, rest % 2);
  }

  predicate Framed(m: Memory) {
    forall f | f in m :: f < FRAMES && |m[f]| == 1024
  }

  function Entry(m: Memory, frame: Frame, i: nat): Word {
    if frame in m && i < |m[frame]| then m[frame][i] else 0
  }

  // The table at an index of a directory, and 0 when there is none.
  function TableOf(m: Memory, dir: Frame, i: nat): Frame {
    FrameOf(Entry(m, dir, i))
  }

  datatype Mapping = None | To(frame: Frame, write: bool)

  function Meaning(e: Word): Mapping {
    if IsPresent(e) then To(FrameOf(e), IsWritable(e)) else None
  }

  // What an address space maps a page to.
  function Lookup(m: Memory, dir: Frame, page: nat): Mapping {
    if TableOf(m, dir, page / 1024) == 0 then None else Meaning(Entry(m, TableOf(m, dir, page / 1024), page % 1024))
  }

  function PresentCount(t: seq<Word>): (n: nat)
    ensures n <= |t|
  {
    if t == [] then 0 else PresentCount(t[..|t| - 1]) + if IsPresent(t[|t| - 1]) then 1 else 0
  }

  function One(b: bool): nat {
    if b then 1 else 0
  }

  lemma {:induction false} CountAfter(t: seq<Word>, i: nat, e: Word)
    requires i < |t|
    ensures PresentCount(t[i := e]) + One(IsPresent(t[i])) == PresentCount(t) + One(IsPresent(e))
  {
    var n := |t| - 1;
    if i < n {
      CountAfter(t[..n], i, e);
      assert t[i := e][..n] == t[..n][i := e];
    } else {
      assert t[i := e][..n] == t[..n];
    }
  }

  lemma {:induction false} NonePresent(t: seq<Word>)
    ensures PresentCount(t) == 0 <==> forall i | 0 <= i < |t| :: !IsPresent(t[i])
  {
    if t != [] {
      NonePresent(t[..|t| - 1]);
    }
  }

  // The part of a directory whose tables are its own: for the kernel's directory the upper part.
  predicate Owns(kernel: Frame, dir: Frame, i: nat) {
    i < 1024 && ((dir == kernel) == (i >= KERNEL_INDEX))
  }

  // The tables in use, with the directory and the index each belongs to.
  type Owners = map<Frame, (Frame, nat)>

  // A table in use stands where its owner says.
  ghost predicate OwnerSound(m: Memory, kernel: Frame, dirs: set<Frame>, owners: Owners, f: Frame)
    requires f in owners
  {
    var (d, i) := owners[f];
    d in dirs && Owns(kernel, d, i) && TableOf(m, d, i) == f
  }

  ghost predicate EntrySound(m: Memory, owners: Owners, d: Frame, i: nat) {
    var e := Entry(m, d, i);
    e == 0 || (IsPresent(e) && DirFlags(e, i) && FrameOf(e) in owners && owners[FrameOf(e)] == (d, i))
  }

  /**
   The directories of all address spaces and their tables: no frame has two roles, and all directories
   show the kernel's tables at the kernel's indices.
   */
  ghost predicate Structure(m: Memory, free: set<Frame>, kernel: Frame, dirs: set<Frame>, owners: Owners) {
    && Framed(m) && 0 !in free && free <= m.Keys
    && kernel in dirs && dirs <= m.Keys && dirs !! free && 0 !in dirs && dirs !! owners.Keys
    && (forall f | f in owners :: f in m && f !in free && f != 0 && OwnerSound(m, kernel, dirs, owners, f))
    && (forall d, i | d in dirs && Owns(kernel, d, i) :: EntrySound(m, owners, d, i))
    && (forall d, i | d in dirs && KERNEL_INDEX <= i < 1024 :: Entry(m, d, i) == Entry(m, kernel, i))
    && (forall i | 0 <= i < KERNEL_INDEX :: Entry(m, kernel, i) == 0)
  }

  // Entry i of some frames was set to e.
  ghost predicate EntryWritten(m: Memory, m': Memory, targets: set<Frame>, i: nat, e: Word) {
    m'.Keys == m.Keys && forall f | f in m :: m'[f] == if f in targets && i < |m[f]| then m[f][i := e] else m[f]
  }

  // The directories that show the tables of one of them.
  function Sharers(kernel: Frame, dirs: set<Frame>, d: Frame): set<Frame> {
    if d == kernel then dirs else {d}
  }

  lemma NoEntry()
    ensures !IsPresent(0) && FrameOf(0) == 0
  {
  }

  // The same for the entries that a directory shows without owning them.
  lemma AnyEntrySound(m: Memory, free: set<Frame>, kernel: Frame, dirs: set<Frame>, owners: Owners, d: Frame, i: nat)
    requires Structure(m, free, kernel, dirs, owners) && d in dirs && i < 1024
    ensures Owns(kernel, d, i) || Entry(m, d, i) == if i >= KERNEL_INDEX then Entry(m, kernel, i) else 0
    ensures EntrySound(m, owners, if Owns(kernel, d, i) then d else kernel, i) || Entry(m, d, i) == 0
  {
    hide IsPresent, DirFlags, FrameOf;
  }

  // Two directories show the same table only where the kernel's table is shared.
  lemma SameTable(m: Memory, free: set<Frame>, kernel: Frame, dirs: set<Frame>, owners: Owners, d: Frame, i: nat,
                  c: Frame, j: nat)
    requires Structure(m, free, kernel, dirs, owners) && d in dirs && c in dirs && j < 1024 && Owns(kernel, d, i)
    requires TableOf(m, d, i) != 0
    ensures TableOf(m, c, j) == TableOf(m, d, i) <==> j == i && c in Sharers(kernel, dirs, d)
  {
    hide IsPresent, DirFlags, FrameOf;
    AnyEntrySound(m, free, kernel, dirs, owners, c, j);
    NoEntry();
    assert EntrySound(m, owners, d, i);
  }

  // A frame that nobody uses.
  ghost predicate Unused(m: Memory, free: set<Frame>, dirs: set<Frame>, owners: Owners, f: Frame) {
    f in m && f !in free && f !in dirs && f !in owners && f != 0
  }

  // An unused frame becomes table i of a directory.
  lemma TableInstalled(m: Memory, m': Memory, free: set<Frame>, kernel: Frame, dirs: set<Frame>, owners: Owners,
                       d: Frame, i: nat, f: Frame, e: Word)
    requires Structure(m, free, kernel, dirs, owners) && d in dirs && Owns(kernel, d, i) && Unused(m, free, dirs, owners, f)
    requires TableOf(m, d, i) == 0 && IsPresent(e) && FrameOf(e) == f && DirFlags(e, i)
    requires EntryWritten(m, m', Sharers(kernel, dirs, d), i, e)
    ensures Structure(m', free, kernel, dirs, owners[f := (d, i)])
  {
    hide IsPresent, DirFlags, FrameOf, EntryWritten;
    NoEntry();
    EntriesWritten(m, m', free, kernel, dirs, owners, d, i, e);
    var owners' := owners[f := (d, i)];
    forall c, j | c in dirs && Owns(kernel, c, j)
      ensures EntrySound(m', owners', c, j)
    {
      assert EntrySound(m, owners, c, j);
    }
    forall g | g in owners'
      ensures OwnerSound(m', kernel, dirs, owners', g)
    {
      if g != f {
        assert OwnerSound(m, kernel, dirs, owners, g);
        var (c, j) := owners[g];
        assert Entry(m', c, j) == Entry(m, c, j);
      }
    }
  }

  // What the directories show after one entry was set, and the use of all tables.
  lemma EntriesWritten(m: Memory, m': Memory, free: set<Frame>, kernel: Frame, dirs: set<Frame>, owners: Owners,
                       d: Frame, i: nat, e: Word)
    requires Structure(m, free, kernel, dirs, owners) && d in dirs && Owns(kernel, d, i)
    requires EntryWritten(m, m', Sharers(kernel, dirs, d), i, e)
    ensures m'.Keys == m.Keys && Framed(m')
    ensures forall c, j | c in dirs && 0 <= j < 1024 ::
              Entry(m', c, j) == if j == i && (c == d || d == kernel) then e else Entry(m, c, j)
    ensures forall c, j | c in dirs && Owns(kernel, c, j) ::
              Entry(m', c, j) == if c == d && j == i then e else Entry(m, c, j)
  {
    hide IsPresent, DirFlags, FrameOf;
  }

  // A table is taken out of the directories that show it.
  lemma TableRemoved(m: Memory, m': Memory, free: set<Frame>, kernel: Frame, dirs: set<Frame>, owners: Owners,
                     d: Frame, i: nat)
    requires Structure(m, free, kernel, dirs, owners) && d in dirs && Owns(kernel, d, i) && TableOf(m, d, i) != 0
    requires EntryWritten(m, m', Sharers(kernel, dirs, d), i, 0)
    ensures Structure(m', free + {TableOf(m, d, i)}, kernel, dirs, owners - {TableOf(m, d, i)})
  {
    hide IsPresent, DirFlags, FrameOf, EntryWritten;
    NoEntry();
    EntriesWritten(m, m', free, kernel, dirs, owners, d, i, 0);
    var t := TableOf(m, d, i);
    assert EntrySound(m, owners, d, i);
    forall c, j | c in dirs && Owns(kernel, c, j)
      ensures EntrySound(m', owners - {t}, c, j)
    {
      assert EntrySound(m, owners, c, j);
    }
    forall g | g in owners && g != t
      ensures OwnerSound(m', kernel, dirs, owners - {t}, g)
    {
      assert OwnerSound(m, kernel, dirs, owners, g);
      var (c, j) := owners[g];
      assert Entry(m', c, j) == Entry(m, c, j);
    }
  }

  // Writing to a table or to an unused frame leaves all directories as they are.
  lemma TableWritten(m: Memory, m': Memory, free: set<Frame>, kernel: Frame, dirs: set<Frame>, owners: Owners, f: Frame)
    requires Structure(m, free, kernel, dirs, owners) && f !in dirs
    requires m'.Keys == m.Keys && Framed(m') && forall g | g in m && g != f :: m'[g] == m[g]
    ensures Structure(m', free, kernel, dirs, owners)
    ensures forall d, i | d in dirs :: Entry(m', d, i) == Entry(m, d, i)
  {
    hide IsPresent, DirFlags, FrameOf;
    assert forall c, j | c in dirs :: Entry(m', c, j) == Entry(m, c, j);
    forall c, j | c in dirs && Owns(kernel, c, j)
      ensures EntrySound(m', owners, c, j)
    {
      assert EntrySound(m, owners, c, j);
    }
  }

  // Entry j of one table is set.
  function WithEntry(m: Memory, t: Frame, j: nat, e: Word): (m': Memory)
    ensures EntryWritten(m, m', {t}, j, e)
  {
    if t in m && j < |m[t]| then
      var row: Table := m[t][j := e];
      m[t := row]
    else m
  }

  // Changing entry j of a table changes what the directories that show this table map that one page to.
  lemma PageWritten(m: Memory, free: set<Frame>, kernel: Frame, dirs: set<Frame>, owners: Owners, d: Frame, i: nat,
                    j: nat, e: Word)
    requires Structure(m, free, kernel, dirs, owners) && d in dirs && i < 1024 && j < 1024 && TableOf(m, d, i) != 0
    ensures TableOf(m, d, i) in m && |m[TableOf(m, d, i)]| == 1024
    ensures var t := TableOf(m, d, i); var m' := WithEntry(m, t, j, e);
            && Structure(m', free, kernel, dirs, owners)
            && (forall c, k | c in dirs :: Entry(m', c, k) == Entry(m, c, k))
            && (forall c, q | c in dirs && 0 <= q < PAGES ::
                  Lookup(m', c, q) == if q == 1024 * i + j && TableOf(m, c, i) == t then Meaning(e) else Lookup(m, c, q))
  {
    hide IsPresent, DirFlags, FrameOf;
    AnyEntrySound(m, free, kernel, dirs, owners, d, i);
    NoEntry();
    var t := TableOf(m, d, i);
    var m' := WithEntry(m, t, j, e);
    TableWritten(m, m', free, kernel, dirs, owners, t);
    forall c, q | c in dirs && 0 <= q < PAGES
      ensures Lookup(m', c, q) == if q == 1024 * i + j && TableOf(m, c, i) == t then Meaning(e) else Lookup(m, c, q)
    {
      if TableOf(m, c, q / 1024) == t {
        SameTables(m, free, kernel, dirs, owners, d, i, c, q / 1024);
      }
    }
  }

  // No table stands at two indices.
  lemma SameTables(m: Memory, free: set<Frame>, kernel: Frame, dirs: set<Frame>, owners: Owners, d: Frame, i: nat,
                   c: Frame, j: nat)
    requires Structure(m, free, kernel, dirs, owners) && d in dirs && c in dirs && i < 1024 && j < 1024
    requires TableOf(m, c, j) == TableOf(m, d, i) != 0
    ensures i == j && (i < KERNEL_INDEX ==> c == d)
  {
    hide IsPresent, DirFlags, FrameOf;
    AnyEntrySound(m, free, kernel, dirs, owners, d, i);
    AnyEntrySound(m, free, kernel, dirs, owners, c, j);
    NoEntry();
  }

  /**
   When writing a page entry through one address space is visible in no other: it is so for user pages, and
   for the kernel's only if nobody else exists or nothing changes.
   */
  lemma Isolation(m: Memory, free: set<Frame>, kernel: Frame, dirs: set<Frame>, owners: Owners, d: Frame, i: nat,
                  j: nat, e: Word)
    requires Structure(m, free, kernel, dirs, owners) && d in dirs && i < 1024 && j < 1024 && TableOf(m, d, i) != 0
    requires TableOf(m, d, i) in m && |m[TableOf(m, d, i)]| == 1024
    ensures var t := TableOf(m, d, i);
            (forall c, q | c in dirs && c != d && 0 <= q < PAGES :: Lookup(WithEntry(m, t, j, e), c, q) == Lookup(m, c, q))
            <==> i < KERNEL_INDEX || dirs == {d} || Meaning(e) == Lookup(m, d, 1024 * i + j)
  {
    hide IsPresent, DirFlags, FrameOf, Meaning, WithEntry, EntrySound, OwnerSound, EntryWritten;
    var t := TableOf(m, d, i);
    var q := 1024 * i + j;
    PageWritten(m, free, kernel, dirs, owners, d, i, j, e);
    if i < KERNEL_INDEX {
      forall c | c in dirs && c != d
        ensures TableOf(m, c, i) != t
      {
        if TableOf(m, c, i) == t {
          SameTables(m, free, kernel, dirs, owners, d, i, c, i);
        }
      }
    } else if dirs != {d} {
      var c :| c in dirs && c != d;
      assert forall b | b in dirs :: TableOf(m, b, i) == TableOf(m, kernel, i);
      assert Lookup(m, c, q) == Lookup(m, d, q);
    }
  }

  predicate NoPages(m: Memory, table: Frame) {
    table == 0 || forall j | 0 <= j < 1024 :: !IsPresent(Entry(m, table, j))
  }

  // A table without present entries may come and go: nobody maps a page through it.
  lemma EmptyTableUnseen(m: Memory, m': Memory, kernel: Frame, dirs: set<Frame>, targets: set<Frame>, i: nat,
                         e: Word, e': Word)
    requires Framed(m) && dirs <= m.Keys && EntryWritten(m, m', targets, i, e') && i < 1024
    requires forall c | c in dirs && c in targets :: Entry(m, c, i) == e
    requires NoPages(m, FrameOf(e)) && NoPages(m, FrameOf(e')) && FrameOf(e) !in dirs && FrameOf(e') !in dirs
    requires targets <= dirs && forall c, j | c in dirs && 0 <= j < 1024 :: TableOf(m, c, j) !in dirs
    ensures forall c, q | c in dirs && 0 <= q < PAGES :: Lookup(m', c, q) == Lookup(m, c, q)
  {
    hide IsPresent, DirFlags, FrameOf;
    forall c, q | c in dirs && 0 <= q < PAGES
      ensures Lookup(m', c, q) == Lookup(m, c, q)
    {
      var k, t := q / 1024, TableOf(m, c, q / 1024);
      if c in targets && k == i {
        assert Entry(m', c, i) == e' && Entry(m, c, i) == e;
        assert Entry(m', FrameOf(e'), q % 1024) == Entry(m, FrameOf(e'), q % 1024);
      } else {
        assert Entry(m', c, k) == Entry(m, c, k);
        assert Entry(m', t, q % 1024) == Entry(m, t, q % 1024);
      }
    }
  }

  lemma NotWritten(m: Memory, i: nat, e: Word)
    ensures EntryWritten(m, m, {}, i, e)
  {
  }

  lemma SmallFrame(m: Memory, f: Frame)
    requires Framed(m) && f in m
    ensures f % FRAMES == f
  {
  }

  lemma WrittenTwice(m0: Memory, m1: Memory, m2: Memory, s: set<Frame>, f: Frame, i: nat, e: Word)
    requires EntryWritten(m0, m1, s, i, e) && EntryWritten(m1, m2, {f}, i, e)
    ensures EntryWritten(m0, m2, s + {f}, i, e)
  {
  }

  // The kernel's directory in the beginning.
  lemma FirstStructure(m: Memory, free: set<Frame>, dir: Frame, last: Frame, e: Word)
    requires Framed(m) && 0 !in free && free <= m.Keys && {dir, last} <= m.Keys && {dir, last} !! free + {0} && dir != last
    requires m[dir] == EMPTY && m[last] == EMPTY && IsPresent(e) && FrameOf(e) == last && DirFlags(e, LAST_INDEX)
    ensures Structure(WithEntry(m, dir, LAST_INDEX, e), free, dir, {dir}, map[last := (dir, LAST_INDEX)])
    ensures forall q | 0 <= q < PAGES :: Lookup(WithEntry(m, dir, LAST_INDEX, e), dir, q) == None
    ensures forall i | 0 <= i < 1024 :: TableOf(WithEntry(m, dir, LAST_INDEX, e), dir, i) == if i == LAST_INDEX then last else 0
  {
    hide IsPresent, DirFlags, FrameOf;
    NoEntry();
    var m' := WithEntry(m, dir, LAST_INDEX, e);
    assert forall i | 0 <= i < 1024 :: Entry(m', dir, i) == if i == LAST_INDEX then e else 0;
    assert forall i | 0 <= i < 1024 :: Entry(m', last, i) == 0;
    forall q | 0 <= q < PAGES
      ensures Lookup(m', dir, q) == None
    {
      assert q / 1024 < 1024 && q % 1024 < 1024;
    }
  }

  ghost function Used(m: Memory, table: Frame): (n: nat)
    ensures table in m && |m[table]| <= 1024 ==> n <= 1024
  {
    if table in m && table != 0 then PresentCount(m[table]) else 0
  }

  lemma NoTableNoUse(m: Memory)
    ensures Used(m, 0) == 0
  {
  }

  predicate IsPinned(kernel: Frame, d: Frame, i: nat) {
    d == kernel && i == LAST_INDEX
  }

  // A table is there exactly as long as its counter is positive, and the counter counts its present entries.
  ghost predicate CountOk(m: Memory, kernel: Frame, d: Frame, i: nat, count: nat) {
    if IsPinned(kernel, d, i) then count == PINNED && TableOf(m, d, i) != 0
    else if !Owns(kernel, d, i) then count == 0
    else count == Used(m, TableOf(m, d, i)) && (TableOf(m, d, i) != 0 <==> count > 0)
  }

  lemma InStep(m: Memory, kernel: Frame, d: Frame, i: nat, count: nat)
    requires Owns(kernel, d, i) && !IsPinned(kernel, d, i)
    requires count == Used(m, TableOf(m, d, i)) && (TableOf(m, d, i) != 0 <==> count > 0)
    ensures CountOk(m, kernel, d, i, count)
  {
  }

  lemma Settled(m: Memory, kernel: Frame, d: Frame, i: nat, count: nat)
    requires Owns(kernel, d, i) && TableOf(m, d, i) != 0 && Used(m, TableOf(m, d, i)) > 0
    requires count == if IsPinned(kernel, d, i) then PINNED else Used(m, TableOf(m, d, i))
    ensures CountOk(m, kernel, d, i, count)
  {
  }

  // One more than CountOk asks for: between the two halves of a change.
  ghost predicate CountAhead(m: Memory, kernel: Frame, d: Frame, i: nat, count: nat) {
    && TableOf(m, d, i) != 0
    && count == if IsPinned(kernel, d, i) then PINNED else Used(m, TableOf(m, d, i)) + 1
  }

  lemma Ahead(m: Memory, kernel: Frame, d: Frame, i: nat, count: nat)
    requires Owns(kernel, d, i) && TableOf(m, d, i) != 0
    requires count == if IsPinned(kernel, d, i) then PINNED else Used(m, TableOf(m, d, i)) + 1
    ensures CountAhead(m, kernel, d, i, count)
  {
  }

  lemma SomePageUsed(m: Memory, t: Frame, j: nat)
    requires t in m && t != 0 && j < |m[t]| && IsPresent(m[t][j])
    ensures Used(m, t) > 0
  {
    hide IsPresent;
    NonePresent(m[t]);
  }

  lemma WrittenUse(m: Memory, t: Frame, j: nat, e: Word)
    requires t in m && t != 0 && j < |m[t]|
    ensures Used(WithEntry(m, t, j, e), t) + One(IsPresent(Entry(m, t, j))) == Used(m, t) + One(IsPresent(e))
  {
    CountAfter(m[t], j, e);
  }

  // A change to table i of directory d concerns no other counter.
  lemma OtherCounts(m: Memory, m': Memory, free: set<Frame>, kernel: Frame, dirs: set<Frame>, owners: Owners,
                    d: Frame, i: nat)
    requires Structure(m, free, kernel, dirs, owners)
    requires forall c, j | c in dirs && Owns(kernel, c, j) && !(c == d && j == i) :: Entry(m', c, j) == Entry(m, c, j)
    requires forall f | f in owners && owners[f] != (d, i) :: f in m' && m'[f] == m[f]
    ensures forall c, j, n | c in dirs && 0 <= j < 1024 && !(c == d && j == i) && CountOk(m, kernel, c, j, n) ::
              CountOk(m', kernel, c, j, n)
  {
    hide IsPresent, DirFlags, FrameOf, PresentCount;
    NoEntry();
    forall c, j, n: nat | c in dirs && 0 <= j < 1024 && !(c == d && j == i) && CountOk(m, kernel, c, j, n)
      ensures CountOk(m', kernel, c, j, n)
    {
      if Owns(kernel, c, j) {
        assert EntrySound(m, owners, c, j);
      }
    }
  }

  ghost predicate SameLookups(m: Memory, m': Memory, dirs: set<Frame>) {
    forall c, q | c in dirs && 0 <= q < PAGES :: Lookup(m', c, q) == Lookup(m, c, q)
  }

  ghost predicate CountsKept(m: Memory, m': Memory, kernel: Frame, dirs: set<Frame>, d: Frame, i: nat) {
    forall c, j, n | c in dirs && 0 <= j < 1024 && !(c == d && j == i) && CountOk(m, kernel, c, j, n) ::
      CountOk(m', kernel, c, j, n)
  }

  // An address space writes an entry of a table of its own.
  lemma OwnPageWritten(m: Memory, free: set<Frame>, kernel: Frame, dirs: set<Frame>, owners: Owners, d: Frame,
                       i: nat, j: nat, e: Word)
    requires Structure(m, free, kernel, dirs, owners) && d in dirs && Owns(kernel, d, i) && j < 1024 && TableOf(m, d, i) != 0
    ensures var t := TableOf(m, d, i); var m' := WithEntry(m, t, j, e);
            && Structure(m', free, kernel, dirs, owners) && TableOf(m', d, i) == t
            && Used(m', t) + One(IsPresent(Entry(m, t, j))) == Used(m, t) + One(IsPresent(e))
            && CountsKept(m, m', kernel, dirs, d, i)
            && forall c, q | c in dirs && 0 <= q < PAGES ::
                 Lookup(m', c, q) == if q == 1024 * i + j && (c == d || d == kernel) then Meaning(e) else Lookup(m, c, q)
  {
    hide IsPresent, DirFlags, FrameOf, Lookup, Meaning, Used, CountOk;
    var t := TableOf(m, d, i);
    PageWritten(m, free, kernel, dirs, owners, d, i, j, e);
    WrittenUse(m, t, j, e);
    forall c | c in dirs
      ensures TableOf(m, c, i) == t <==> c == d || d == kernel
    {
      SameTable(m, free, kernel, dirs, owners, d, i, c, i);
    }
    NoEntry();
    assert EntrySound(m, owners, d, i);
    OtherCounts(m, WithEntry(m, t, j, e), free, kernel, dirs, owners, d, i);
  }

  // A frame that was free is cleared.
  lemma Cleared(m: Memory, free: set<Frame>, kernel: Frame, dirs: set<Frame>, owners: Owners, f: Frame)
    requires Structure(m, free, kernel, dirs, owners) && f in free
    ensures Structure(m[f := EMPTY], free - {f}, kernel, dirs, owners)
    ensures forall c, j | c in dirs :: Entry(m[f := EMPTY], c, j) == Entry(m, c, j)
    ensures SameLookups(m, m[f := EMPTY], dirs) && NoPages(m[f := EMPTY], f)
  {
    hide IsPresent, DirFlags, FrameOf;
    NoEntry();
    var m1 := m[f := EMPTY];
    TableWritten(m, m1, free, kernel, dirs, owners, f);
    forall c, q | c in dirs && 0 <= q < PAGES
      ensures Lookup(m1, c, q) == Lookup(m, c, q)
    {
      AnyEntrySound(m, free, kernel, dirs, owners, c, q / 1024);
      assert Entry(m1, c, q / 1024) == Entry(m, c, q / 1024);
    }
  }

  // A new table is cleared and put into the directories; nobody sees a difference.
  lemma NewTable(m: Memory, m': Memory, free: set<Frame>, kernel: Frame, dirs: set<Frame>, owners: Owners,
                 d: Frame, i: nat, f: Frame, e: Word)
    requires Structure(m, free, kernel, dirs, owners) && d in dirs && Owns(kernel, d, i) && f in free
    requires TableOf(m, d, i) == 0 && IsPresent(e) && FrameOf(e) == f && DirFlags(e, i)
    requires EntryWritten(m[f := EMPTY], m', Sharers(kernel, dirs, d), i, e)
    ensures Structure(m', free - {f}, kernel, dirs, owners[f := (d, i)])
    ensures SameLookups(m, m', dirs) && CountsKept(m, m', kernel, dirs, d, i)
    ensures TableOf(m', d, i) == f && Used(m', f) == 0
  {
    hide IsPresent, DirFlags, FrameOf, Lookup;
    NoEntry();
    var m1 := m[f := EMPTY];
    Cleared(m, free, kernel, dirs, owners, f);
    TableInstalled(m1, m', free - {f}, kernel, dirs, owners, d, i, f, e);
    assert EntrySound(m, owners, d, i);
    TablesAreNoDirs(m1, free - {f}, kernel, dirs, owners);
    EmptyTableUnseen(m1, m', kernel, dirs, Sharers(kernel, dirs, d), i, 0, e);
    OtherCounts(m, m', free, kernel, dirs, owners, d, i);
    NonePresent(EMPTY);
  }

  lemma TablesAreNoDirs(m: Memory, free: set<Frame>, kernel: Frame, dirs: set<Frame>, owners: Owners)
    requires Structure(m, free, kernel, dirs, owners)
    ensures forall c, j | c in dirs && 0 <= j < 1024 :: TableOf(m, c, j) !in dirs
  {
    hide IsPresent, DirFlags, FrameOf;
    NoEntry();
    forall c, j | c in dirs && 0 <= j < 1024
      ensures TableOf(m, c, j) !in dirs
    {
      AnyEntrySound(m, free, kernel, dirs, owners, c, j);
    }
  }

  // A table without pages is taken out of the directories and becomes free; nobody sees a difference.
  lemma OldTable(m: Memory, m': Memory, free: set<Frame>, kernel: Frame, dirs: set<Frame>, owners: Owners, d: Frame,
                 i: nat)
    requires Structure(m, free, kernel, dirs, owners) && d in dirs && Owns(kernel, d, i) && TableOf(m, d, i) != 0
    requires Used(m, TableOf(m, d, i)) == 0
    requires EntryWritten(m, m', Sharers(kernel, dirs, d), i, 0)
    ensures Structure(m', free + {TableOf(m, d, i)}, kernel, dirs, owners - {TableOf(m, d, i)})
    ensures SameLookups(m, m', dirs) && CountsKept(m, m', kernel, dirs, d, i)
    ensures TableOf(m', d, i) == 0 && TableOf(m, d, i) in owners && TableOf(m, d, i) !in free
  {
    hide IsPresent, DirFlags, FrameOf, Lookup;
    NoEntry();
    var t := TableOf(m, d, i);
    assert EntrySound(m, owners, d, i);
    NonePresent(m[t]);
    TableRemoved(m, m', free, kernel, dirs, owners, d, i);
    TablesAreNoDirs(m, free, kernel, dirs, owners);
    EmptyTableUnseen(m, m', kernel, dirs, Sharers(kernel, dirs, d), i, Entry(m, d, i), 0);
    OtherCounts(m, m', free, kernel, dirs, owners, d, i);
  }

  // A new directory starts as a copy of the kernel's.
  lemma DirAdded(m: Memory, m': Memory, free: set<Frame>, kernel: Frame, dirs: set<Frame>, owners: Owners, f: Frame)
    requires Structure(m, free, kernel, dirs, owners) && f in free
    requires kernel in m && m' == m[f := m[kernel]]
    ensures Structure(m', free - {f}, kernel, dirs + {f}, owners)
    ensures SameLookups(m, m', dirs)
    ensures forall q | 0 <= q < PAGES ::
              Lookup(m', f, q) == if q / 1024 >= KERNEL_INDEX then Lookup(m, kernel, q) else None
    ensures forall c, j, n | c in dirs && 0 <= j < 1024 && CountOk(m, kernel, c, j, n) :: CountOk(m', kernel, c, j, n)
    ensures forall j | 0 <= j < 1024 :: CountOk(m', kernel, f, j, 0)
  {
    hide IsPresent, DirFlags, FrameOf;
    NoEntry();
    assert forall c, j | c in dirs :: Entry(m', c, j) == Entry(m, c, j);
    assert forall j :: Entry(m', f, j) == Entry(m, kernel, j);
    forall c, j | c in dirs + {f} && Owns(kernel, c, j)
      ensures EntrySound(m', owners, c, j)
    {
      assert c in dirs ==> EntrySound(m, owners, c, j);
    }
    OtherCounts(m, m', free, kernel, dirs, owners, 0, 0);
    forall c, q | c in dirs && 0 <= q < PAGES
      ensures Lookup(m', c, q) == Lookup(m, c, q)
      ensures c == kernel && q / 1024 >= KERNEL_INDEX ==> Lookup(m', f, q) == Lookup(m, c, q)
      ensures q / 1024 < KERNEL_INDEX ==> Lookup(m', f, q) == None
    {
      AnyEntrySound(m, free, kernel, dirs, owners, c, q / 1024);
    }
  }

  // The tables of a directory.
  ghost function TablesOf(owners: Owners, d: Frame): set<Frame> {
    set f | f in owners && owners[f].0 == d
  }

  // A directory goes; its tables stay behind, neither free nor in use.
  lemma DirRemoved(m: Memory, free: set<Frame>, kernel: Frame, dirs: set<Frame>, owners: Owners, d: Frame)
    requires Structure(m, free, kernel, dirs, owners) && d in dirs && d != kernel
    ensures Structure(m, free + {d}, kernel, dirs - {d}, owners - TablesOf(owners, d))
    ensures (forall i | 0 <= i < KERNEL_INDEX :: TableOf(m, d, i) == 0) <==> TablesOf(owners, d) == {}
    ensures TablesOf(owners, d) !! free + {d}
  {
    hide IsPresent, DirFlags, FrameOf;
    forall c, j | c in dirs - {d} && Owns(kernel, c, j)
      ensures EntrySound(m, owners - TablesOf(owners, d), c, j)
    {
      assert EntrySound(m, owners, c, j);
    }
    NoEntry();
    forall i | 0 <= i < KERNEL_INDEX
      ensures TableOf(m, d, i) != 0 ==> TableOf(m, d, i) in TablesOf(owners, d)
    {
      assert EntrySound(m, owners, d, i);
    }
  }

  // A frame that was free is cleared, to be the blank table, and put into some directories as table i.
  ghost predicate TableAdded(m: Memory, free: set<Frame>, m': Memory, free': set<Frame>, targets: set<Frame>, i: nat,
                             kernelPage: bool, blank: Table) {
    exists f :: f in free && f != 0 && free' == free - {f} && EntryWritten(m[f := blank], m', targets, i, DirEntry(f, kernelPage))
  }

  // retain_page_tab with the 16-bit counter n of table i of directory d, which some directories show.
  ghost predicate Retained(ok: bool, m: Memory, free: set<Frame>, n: nat, m': Memory, free': set<Frame>, n': nat,
                           d: Frame, targets: set<Frame>, i: nat, kernelPage: bool, blank: Table) {
    if n == PINNED then ok && m' == m && free' == free && n' == n
    else if IsPresent(Entry(m, d, i)) then ok && m' == m && free' == free && n' == n + 1
    else n' == 1 && (ok <==> free - {0} != {})
         && if ok then TableAdded(m, free, m', free', targets, i, kernelPage, blank) else m' == m && free' == free
  }

  // release_page_tab with the 16-bit counter n of table i of directory d, which some directories show.
  ghost predicate Released(m: Memory, free: set<Frame>, n: nat, m': Memory, free': set<Frame>, n': nat,
                           d: Frame, targets: set<Frame>, i: nat) {
    if n == PINNED then m' == m && free' == free && n' == n
    else if n != 1 then m' == m && free' == free && n' == if n == 0 then PINNED else n - 1
    else n' == 0 && free' == free + {TableOf(m, d, i)} && EntryWritten(m, m', targets, i, 0)
  }

  // The table is retained, released again if it had the page before, and then the page is written.
  ghost predicate PageMapped(m: Memory, free: set<Frame>, n: nat, m': Memory, free': set<Frame>, n': nat, d: Frame,
                          targets: set<Frame>, i: nat, kernelPage: bool, blank: Table, j: nat, e: Word) {
    exists m1, free1, n1, m2 ::
      && Retained(true, m, free, n, m1, free1, n1, d, targets, i, kernelPage, blank)
      && ReleasedIf(IsPresent(Entry(m1, TableOf(m1, d, i), j)), m1, free1, n1, m2, free', n', d, targets, i)
      && m' == WithEntry(m2, TableOf(m1, d, i), j, e)
  }

  ghost predicate ReleasedIf(b: bool, m: Memory, free: set<Frame>, n: nat, m': Memory, free': set<Frame>, n': nat,
                             d: Frame, targets: set<Frame>, i: nat) {
    if b then Released(m, free, n, m', free', n', d, targets, i) else m' == m && free' == free && n' == n
  }

  lemma PageIsMapped(m: Memory, free: set<Frame>, n: nat, m1: Memory, free1: set<Frame>, n1: nat, m2: Memory, m': Memory,
                  free': set<Frame>, n': nat, d: Frame, targets: set<Frame>, i: nat, kernelPage: bool, blank: Table, j: nat, e: Word)
    requires Retained(true, m, free, n, m1, free1, n1, d, targets, i, kernelPage, blank)
    requires ReleasedIf(IsPresent(Entry(m1, TableOf(m1, d, i), j)), m1, free1, n1, m2, free', n', d, targets, i)
    requires m' == WithEntry(m2, TableOf(m1, d, i), j, e)
    ensures PageMapped(m, free, n, m', free', n', d, targets, i, kernelPage, blank, j, e)
  {
    hide Retained, IsPresent, WithEntry, ReleasedIf;
  }

  // Where an entry of some directories is set, other entries of the directories and the tables stay.
  lemma LookupsElsewhere(m: Memory, m': Memory, dirs: set<Frame>, targets: set<Frame>, i: nat, e: Word)
    requires EntryWritten(m, m', targets, i, e) && targets <= dirs && i < 1024
    requires forall c, j | c in dirs && 0 <= j < 1024 :: TableOf(m, c, j) !in dirs
    ensures forall c, q | c in dirs && 0 <= q < PAGES && !(c in targets && q / 1024 == i) :: Lookup(m', c, q) == Lookup(m, c, q)
  {
    hide IsPresent, DirFlags, FrameOf, Meaning;
    forall c, q | c in dirs && 0 <= q < PAGES && !(c in targets && q / 1024 == i)
      ensures Lookup(m', c, q) == Lookup(m, c, q)
    {
      assert Entry(m', c, q / 1024) == Entry(m, c, q / 1024);
      assert Entry(m', TableOf(m, c, q / 1024), q % 1024) == Entry(m, TableOf(m, c, q / 1024), q % 1024);
    }
  }

  // Setting an entry of a table and one of some directories may be done in either order.
  lemma InEitherOrder(m: Memory, m': Memory, targets: set<Frame>, i: nat, t: Frame, j: nat, e: Word, e': Word)
    requires EntryWritten(m, m', targets, i, e) && t !in targets
    ensures EntryWritten(WithEntry(m, t, j, e'), WithEntry(m', t, j, e'), targets, i, e)
  {
  }

  // A cleared frame comes to stand in some directories, and gets one page.
  lemma ShownTable(m1: Memory, m2: Memory, dirs: set<Frame>, targets: set<Frame>, i: nat, f: Frame, e0: Word, j: nat, e: Word)
    requires f in m1 && m1[f] == EMPTY && f != 0 && f !in dirs && targets <= dirs <= m1.Keys && Framed(m1) && i < 1024 && j < 1024
    requires EntryWritten(m1, m2, targets, i, e0) && FrameOf(e0) == f
    requires forall c, k | c in dirs && 0 <= k < 1024 :: TableOf(m1, c, k) !in dirs && TableOf(m1, c, k) != f
    ensures forall c, q | c in dirs && 0 <= q < PAGES ::
              Lookup(WithEntry(m2, f, j, e), c, q) ==
              if c in targets && q / 1024 == i then (if q == 1024 * i + j then Meaning(e) else None) else Lookup(m1, c, q)
    ensures forall c | c in targets :: TableOf(m2, c, i) == f
    ensures !IsPresent(Entry(m2, f, j))
  {
    hide FrameOf;
    LookupsElsewhere(m1, m2, dirs, targets, i, e0);
    var m3 := WithEntry(m2, f, j, e);
    forall c, q | c in dirs && 0 <= q < PAGES
      ensures Lookup(m3, c, q) == if c in targets && q / 1024 == i then (if q == 1024 * i + j then Meaning(e) else None) else Lookup(m1, c, q)
    {
      assert Entry(m3, c, q / 1024) == if c in targets && q / 1024 == i then e0 else Entry(m1, c, q / 1024);
      if c in targets && q / 1024 == i {
        assert Entry(m3, f, q % 1024) == if q % 1024 == j then e else 0;
      } else {
        assert Entry(m3, TableOf(m1, c, q / 1024), q % 1024) == Entry(m2, TableOf(m1, c, q / 1024), q % 1024);
        assert Entry(m2, c, q / 1024) == Entry(m1, c, q / 1024);
      }
    }
  }

  // A new table of some directories has one page; nothing else changes.
  lemma ForeignTable(m: Memory, m2: Memory, free: set<Frame>, free': set<Frame>, kernel: Frame, dirs: set<Frame>, owners: Owners,
                     targets: set<Frame>, d: Frame, i: nat, j: nat, e: Word, kernelPage: bool)
    requires Structure(m, free, kernel, dirs, owners) && targets <= dirs && d in targets && i < 1024 && j < 1024
    requires TableAdded(m, free, m2, free', targets, i, kernelPage, EMPTY)
    ensures TableOf(m2, d, i) != 0 && !IsPresent(Entry(m2, TableOf(m2, d, i), j))
    ensures forall c, q | c in dirs && 0 <= q < PAGES ::
              Lookup(WithEntry(m2, TableOf(m2, d, i), j, e), c, q) ==
              if c in targets && q / 1024 == i then (if q == 1024 * i + j then Meaning(e) else None) else Lookup(m, c, q)
  {
    hide IsPresent, DirFlags, FrameOf, DirEntry, Lookup, WithEntry, EntryWritten;
    var f :| f in free && f != 0 && free' == free - {f} && EntryWritten(m[f := EMPTY], m2, targets, i, DirEntry(f, kernelPage));
    Packed(f, kernelPage);
    SmallFrame(m, f);
    var m1 := m[f := EMPTY];
    Cleared(m, free, kernel, dirs, owners, f);
    TablesAreNoDirs(m1, free - {f}, kernel, dirs, owners);
    TablesNotFree(m, free, kernel, dirs, owners);
    assert forall c, k | c in dirs && 0 <= k < 1024 :: TableOf(m1, c, k) == TableOf(m, c, k);
    ShownTable(m1, m2, dirs, targets, i, f, DirEntry(f, kernelPage), j, e);
  }

  lemma TablesNotFree(m: Memory, free: set<Frame>, kernel: Frame, dirs: set<Frame>, owners: Owners)
    requires Structure(m, free, kernel, dirs, owners)
    ensures forall c, j | c in dirs && 0 <= j < 1024 :: TableOf(m, c, j) !in free
  {
    hide IsPresent, DirFlags, FrameOf;
    NoEntry();
    forall c, j | c in dirs && 0 <= j < 1024
      ensures TableOf(m, c, j) !in free
    {
      AnyEntrySound(m, free, kernel, dirs, owners, c, j);
    }
  }

  // A kernel table is written that one directory no longer shows.
  lemma HiddenTable(m: Memory, m1: Memory, free: set<Frame>, kernel: Frame, dirs: set<Frame>, owners: Owners,
                    d: Frame, i: nat, j: nat, e: Word)
    requires Structure(m, free, kernel, dirs, owners) && d in dirs && d != kernel && KERNEL_INDEX <= i < 1024 && j < 1024
    requires TableOf(m, kernel, i) != 0 && EntryWritten(m, m1, {d}, i, 0)
    ensures forall c, q | c in dirs && 0 <= q < PAGES ::
              Lookup(WithEntry(m1, TableOf(m, kernel, i), j, e), c, q) ==
              if c == d && q / 1024 == i then None else if q == 1024 * i + j then Meaning(e) else Lookup(m, c, q)
    ensures forall c | c in dirs :: Entry(WithEntry(m1, TableOf(m, kernel, i), j, e), c, i) == if c == d then 0 else Entry(m, kernel, i)
  {
    hide IsPresent, DirFlags, FrameOf, WithEntry;
    NoEntry();
    var t := TableOf(m, kernel, i);
    PageWritten(m, free, kernel, dirs, owners, kernel, i, j, e);
    TablesAreNoDirs(m, free, kernel, dirs, owners);
    var m2, m3 := WithEntry(m, t, j, e), WithEntry(m1, t, j, e);
    InEitherOrder(m, m1, {d}, i, t, j, 0, e);
    TablesAreNoDirs(m2, free, kernel, dirs, owners);
    LookupsElsewhere(m2, m3, dirs, {d}, i, 0);
    forall c | c in dirs
      ensures Entry(m3, c, i) == if c == d then 0 else Entry(m, kernel, i)
    {
      assert Entry(m2, c, i) == Entry(m, c, i);
    }
  }

  /** The page tables of one address space: a directory and the counters of its tables. */
  class AddressSpace {
    const isKernel: bool
    const pageDir: Frame
    const pageDirMapCount: array<nat>

    constructor (isKernel: bool, pageDir: Frame)
      ensures this.isKernel == isKernel && this.pageDir == pageDir && fresh(pageDirMapCount)
      ensures pageDirMapCount.Length == 1024 && forall i | 0 <= i < 1024 :: pageDirMapCount[i] == 0
    {
      this.isKernel, this.pageDir := isKernel, pageDir;
      pageDirMapCount := new nat[1024](_ => 0);
    }
  }

  /** All address spaces, over the physical memory that holds their directories and tables. */
  class VirtualMemoryManager {
    const kernel: AddressSpace
    var vmems: seq<AddressSpace>
    var mem: Memory
    var free: set<Frame>
    ghost var owners: Owners

    // The kernel's own address space: a directory whose last table is always there.
    constructor (mem: Memory, free: set<Frame>, dirFrame: Frame, lastFrame: Frame)
      requires Framed(mem) && 0 !in free && free <= mem.Keys && {dirFrame, lastFrame} <= mem.Keys
      requires {dirFrame, lastFrame} !! free + {0} && dirFrame != lastFrame
      requires mem[dirFrame] == EMPTY && mem[lastFrame] == EMPTY
      ensures Valid() && vmems == [] && this.free == free && fresh(kernel) && fresh(kernel.pageDirMapCount)
      ensures forall q | 0 <= q < PAGES :: Maps(kernel, q) == None
    {
      hide Framed, Lookup, WithEntry, EntryWritten, Structure, TableOf, PresentCount, IsPresent, FrameOf;
      kernel := new AddressSpace(true, dirFrame);
      vmems := [];
      this.mem := WithEntry(mem, dirFrame, LAST_INDEX, DirEntry(lastFrame, true));
      this.free := free;
      owners := map[lastFrame := (dirFrame, LAST_INDEX)];
      new;
      kernel.pageDirMapCount[LAST_INDEX] := PINNED;
      Packed(lastFrame, true);
      assert FrameOf(DirEntry(lastFrame, true)) == lastFrame by { SmallFrame(mem, lastFrame); }
      FirstStructure(mem, free, dirFrame, lastFrame, DirEntry(lastFrame, true));
      assert Spaces() == {kernel} && Dirs() == {dirFrame};
    }

    ghost function Spaces(): set<AddressSpace>
      reads this
    {
      {kernel} + set v | v in vmems
    }

    ghost function Dirs(): set<Frame>
      reads this
    {
      set v | v in Spaces() :: v.pageDir
    }

    ghost function Counters(): (s: set<object>)
      reads this
      ensures forall o | o in s :: o is array<nat>
    {
      set v | v in Spaces() :: v.pageDirMapCount
    }

    ghost predicate Distinct()
      reads this
    {
      && kernel.isKernel && (forall v | v in vmems :: !v.isKernel)
      && (forall i, j | 0 <= i < j < |vmems| :: vmems[i] != vmems[j])
      && (forall v, w | v in Spaces() && w in Spaces() && v != w ::
            v.pageDir != w.pageDir && v.pageDirMapCount != w.pageDirMapCount)
      && (forall v | v in Spaces() :: v.pageDirMapCount.Length == 1024)
    }

    ghost predicate Shaped()
      reads this
    {
      Distinct() && Structure(mem, free, kernel.pageDir, Dirs(), owners)
    }

    ghost predicate Counted(v: AddressSpace, i: nat)
      reads this, v.pageDirMapCount
    {
      i < v.pageDirMapCount.Length && CountOk(mem, kernel.pageDir, v.pageDir, i, v.pageDirMapCount[i])
    }

    ghost predicate CountedBut(vm: AddressSpace, idx: nat)
      reads this, Counters()
    {
      forall v, i | v in Spaces() && 0 <= i < 1024 && !(v == vm && i == idx) :: Counted(v, i)
    }

    ghost predicate Valid()
      reads this, Counters()
    {
      Shaped() && forall v, i | v in Spaces() && 0 <= i < 1024 :: Counted(v, i)
    }

    // What an address space maps a page to.
    ghost function Maps(vm: AddressSpace, page: nat): Mapping
      reads this
    {
      Lookup(mem, vm.pageDir, page)
    }

    // The address spaces that see what one of them does to its own part.
    ghost predicate Sees(v: AddressSpace, vm: AddressSpace) {
      v == vm || vm == kernel
    }

    method AllocTable() returns (f: Frame)
      modifies this`mem, this`free
      ensures f == 0 <==> old(free) - {0} == {}
      ensures f == 0 ==> mem == old(mem) && free == old(free)
      ensures f != 0 ==> f in old(free) && free == old(free) - {f} && mem == old(mem)[f := EMPTY]
    {
      f := 0;
      if free - {0} != {} {
        f :| f in free - {0};
        mem, free := mem[f := EMPTY], free - {f};
      }
    }

    // set_page_tab and clear_page_tab: the kernel's entries go to all directories.
    method WriteDirEntry(vm: AddressSpace, idx: nat, e: Word)
      requires Distinct() && vm in Spaces() && idx < 1024
      modifies this`mem
      ensures EntryWritten(old(mem), mem, Sharers(kernel.pageDir, Dirs(), vm.pageDir), idx, e)
    {
      hide Structure, EntryWritten, WithEntry;
      ghost var m0 := mem;
      NotWritten(m0, idx, e);
      ghost var done: set<Frame> := {};
      if vm.isKernel {
        var n := 0;
        while n < |vmems|
          invariant 0 <= n <= |vmems|
          invariant done == set k | 0 <= k < n :: vmems[k].pageDir
          invariant EntryWritten(m0, mem, done, idx, e)
        {
          WrittenTwice(m0, mem, WithEntry(mem, vmems[n].pageDir, idx, e), done, vmems[n].pageDir, idx, e);
          mem := WithEntry(mem, vmems[n].pageDir, idx, e);
          done := done + {vmems[n].pageDir};
          n := n + 1;
        }
      }
      WrittenTwice(m0, mem, WithEntry(mem, vm.pageDir, idx, e), done, vm.pageDir, idx, e);
      mem := WithEntry(mem, vm.pageDir, idx, e);
      assert done + {vm.pageDir} == Sharers(kernel.pageDir, Dirs(), vm.pageDir);
    }

    // The address spaces whose directories an operation of vm may touch: its own part.
    ghost predicate OwnPart(vm: AddressSpace, idx: nat)
      reads this
    {
      vm in Spaces() && Owns(kernel.pageDir, vm.pageDir, idx)
    }

    // All frames that are free or hold a table.
    ghost function TableFrames(): set<Frame>
      reads this
    {
      free + owners.Keys
    }

    lemma SpaceDirs()
      requires Shaped()
      ensures forall v | v in Spaces() :: v.pageDir in Dirs() && v.pageDirMapCount in Counters()
      ensures kernel in Spaces() && Structure(mem, free, kernel.pageDir, Dirs(), owners)
      ensures forall v | v in Spaces() :: v.isKernel == (v == kernel) && v.pageDirMapCount.Length == 1024
      ensures forall v, w | v in Spaces() && w in Spaces() && v != w :: v.pageDir != w.pageDir && v.pageDirMapCount != w.pageDirMapCount
    {
      hide Structure;
    }

    // What the counter of an own table says.
    lemma OwnCount(vm: AddressSpace, idx: nat)
      requires Shaped() && OwnPart(vm, idx) && Counted(vm, idx)
      ensures var (n, t) := (vm.pageDirMapCount[idx], TableOf(mem, vm.pageDir, idx));
              && (n == PINNED <==> IsPinned(kernel.pageDir, vm.pageDir, idx))
              && (n == PINNED ==> t != 0)
              && (n != PINNED ==> n == Used(mem, t) <= 1024 && (t != 0 <==> n > 0))
              && (t != 0 <==> IsPresent(Entry(mem, vm.pageDir, idx)))
              && (t != 0 ==> t in mem && |mem[t]| == 1024 && t in owners && t !in Dirs())
              && (t == 0 ==> Entry(mem, vm.pageDir, idx) == 0)
    {
      hide IsPresent, DirFlags, FrameOf, PresentCount;
      NoEntry();
      SpaceDirs();
      assert EntrySound(mem, owners, vm.pageDir, idx);
    }

    // retain_page_tab: the counter goes up, and in front of the first page there comes a table.
    method RetainPageTab(vm: AddressSpace, idx: nat) returns (ok: bool)
      requires Distinct() && vm in Spaces() && idx < 1024 && vm.pageDirMapCount[idx] <= PINNED
      modifies this`mem, this`free, this`owners, vm.pageDirMapCount
      ensures Retained(ok, old(mem), old(free), old(vm.pageDirMapCount[idx]), mem, free, vm.pageDirMapCount[idx],
                       vm.pageDir, Sharers(kernel.pageDir, Dirs(), vm.pageDir), idx, vm.isKernel, EMPTY)
      ensures vm.pageDirMapCount[idx] <= PINNED
      ensures !ok ==> old(free) - {0} == {} && mem == old(mem) && free == old(free)
      ensures forall i | 0 <= i < 1024 && i != idx :: vm.pageDirMapCount[i] == old(vm.pageDirMapCount[i])
      ensures old(Valid()) ==> (!ok <==> old(free) == {} && old(TableOf(mem, vm.pageDir, idx)) == 0)
      ensures old(Valid()) && ok && OwnPart(vm, idx) ==>
                && Shaped() && CountedBut(vm, idx) && TableFrames() == old(TableFrames())
                && CountAhead(mem, kernel.pageDir, vm.pageDir, idx, vm.pageDirMapCount[idx])
                && SameLookups(old(mem), mem, Dirs())
      ensures old(Valid()) && ok && !OwnPart(vm, idx) ==>
                && vm.pageDirMapCount[idx] == 1
                && if old(TableOf(mem, vm.pageDir, idx)) != 0 then mem == old(mem) && free == old(free)
                   else TableAdded(old(mem), old(free), mem, free, Sharers(kernel.pageDir, Dirs(), vm.pageDir), idx, vm.isKernel, EMPTY)
    {
      hide Structure, CountOk, Lookup, IsPresent, FrameOf, Used, DirEntry, EntryWritten, TableAdded;
      ghost var valid := Valid();
      if valid {
        SpaceDirs();
        AnyCount(vm, idx);
        NoFrameZero();
      }
      ok := true;
      if vm.pageDirMapCount[idx] == PINNED {
        return;
      }
      var dirEnt := Entry(mem, vm.pageDir, idx);
      vm.pageDirMapCount[idx] := (vm.pageDirMapCount[idx] + 1) % 0x1_0000;
      if !IsPresent(dirEnt) {
        vm.pageDirMapCount[idx] := 1;
        ok := AddTable(vm, idx);
      }
      forall v, i | valid && v in Spaces() && 0 <= i < 1024 && !(v == vm && i == idx)
        ensures ok && OwnPart(vm, idx) ==> Counted(v, i)
      {
        assert old(Counted(v, i));
      }
    }

    // What the counter of any entry says.
    lemma AnyCount(vm: AddressSpace, idx: nat)
      requires Shaped() && vm in Spaces() && idx < 1024 && Counted(vm, idx)
      ensures var (n, t) := (vm.pageDirMapCount[idx], TableOf(mem, vm.pageDir, idx));
              && (t != 0 <==> IsPresent(Entry(mem, vm.pageDir, idx)))
              && (n == PINNED <==> IsPinned(kernel.pageDir, vm.pageDir, idx))
              && (n == PINNED ==> t != 0 && OwnPart(vm, idx))
              && (OwnPart(vm, idx) && n != PINNED ==> n == Used(mem, t) <= 1024 && (t != 0 <==> n > 0))
              && (!OwnPart(vm, idx) ==> n == 0)
              && (!OwnPart(vm, idx) ==> t == if vm == kernel then 0 else TableOf(mem, kernel.pageDir, idx))
    {
      hide IsPresent, DirFlags, FrameOf, PresentCount;
      NoEntry();
      SpaceDirs();
      if OwnPart(vm, idx) {
        OwnCount(vm, idx);
      } else {
        AnyEntrySound(mem, free, kernel.pageDir, Dirs(), owners, vm.pageDir, idx);
      }
    }

    // A fresh table comes to stand at an index, in the own part one that had none.
    method AddTable(vm: AddressSpace, idx: nat) returns (ok: bool)
      requires Distinct() && vm in Spaces() && idx < 1024
      modifies this`mem, this`free, this`owners
      ensures !ok <==> old(free) - {0} == {}
      ensures if ok then TableAdded(old(mem), old(free), mem, free, Sharers(kernel.pageDir, Dirs(), vm.pageDir), idx, vm.isKernel, EMPTY)
              else mem == old(mem) && free == old(free)
      ensures ok && OwnPart(vm, idx) && old(Shaped() && TableOf(mem, vm.pageDir, idx) == 0) ==>
                && Shaped() && TableFrames() == old(TableFrames()) && SameLookups(old(mem), mem, Dirs())
                && CountsKept(old(mem), mem, kernel.pageDir, Dirs(), vm.pageDir, idx)
                && TableOf(mem, vm.pageDir, idx) != 0 && Used(mem, TableOf(mem, vm.pageDir, idx)) == 0
    {
      hide Structure, CountOk, Lookup, IsPresent, FrameOf, Used, DirEntry, EntryWritten;
      ghost var m0, free0, owners0 := mem, free, owners;
      ghost var own := OwnPart(vm, idx) && Shaped() && TableOf(mem, vm.pageDir, idx) == 0;
      if own {
        SpaceDirs();
        NoFrameZero();
      }
      ok := true;
      var pageTab := AllocTable();
      if pageTab == 0 {
        ok := false;
        return;
      }
      WriteDirEntry(vm, idx, DirEntry(pageTab, vm.isKernel));
      if own {
        FrameInRange(m0, free0, pageTab, idx);
        owners := owners[pageTab := (vm.pageDir, idx)];
        NewTable(m0, mem, free0, kernel.pageDir, Dirs(), owners0, vm.pageDir, idx, pageTab, DirEntry(pageTab, vm.isKernel));
      }
    }

    lemma NoFrameZero()
      requires Shaped()
      ensures 0 !in free && free - {0} == free && Framed(mem) && free <= mem.Keys
    {
    }

    lemma FrameInRange(m: Memory, free: set<Frame>, f: Frame, i: nat)
      requires Framed(m) && free <= m.Keys && f in free
      ensures IsPresent(DirEntry(f, true)) && FrameOf(DirEntry(f, true)) == f
      ensures IsPresent(DirEntry(f, false)) && FrameOf(DirEntry(f, false)) == f
      ensures DirFlags(DirEntry(f, i >= KERNEL_INDEX), i)
    {
      Packed(f, true);
      Packed(f, false);
    }

    // The counter of a table of its own stands one ahead, and all others are as they should be.
    ghost predicate Releasable(vm: AddressSpace, idx: nat)
      reads this, Counters(), vm.pageDirMapCount
    {
      Shaped() && OwnPart(vm, idx) && CountedBut(vm, idx) && idx < vm.pageDirMapCount.Length
      && CountAhead(mem, kernel.pageDir, vm.pageDir, idx, vm.pageDirMapCount[idx])
    }

    // release_page_tab: the counter goes down, and behind the last page the table goes.
    method ReleasePageTab(vm: AddressSpace, idx: nat)
      requires Distinct() && vm in Spaces() && idx < 1024 && vm.pageDirMapCount[idx] <= PINNED
      modifies this`mem, this`free, this`owners, vm.pageDirMapCount
      ensures Released(old(mem), old(free), old(vm.pageDirMapCount[idx]), mem, free, vm.pageDirMapCount[idx],
                       vm.pageDir, Sharers(kernel.pageDir, Dirs(), vm.pageDir), idx)
      ensures forall i | 0 <= i < 1024 && i != idx :: vm.pageDirMapCount[i] == old(vm.pageDirMapCount[i])
      ensures old(Releasable(vm, idx)) ==>
                && Valid() && TableFrames() == old(TableFrames()) && SameLookups(old(mem), mem, Dirs())
                && (old(Used(mem, TableOf(mem, vm.pageDir, idx))) > 0 ==>
                      mem == old(mem) && free == old(free) && vm.pageDirMapCount[idx] > 0)
    {
      hide Structure, CountOk, Lookup, IsPresent, FrameOf, Used, EntryWritten;
      ghost var own := Releasable(vm, idx);
      if own {
        SpaceDirs();
        AheadCount(vm, idx);
      }
      if vm.pageDirMapCount[idx] == PINNED {
        return;
      }
      vm.pageDirMapCount[idx] := (vm.pageDirMapCount[idx] + 0xffff) % 0x1_0000;
      if vm.pageDirMapCount[idx] == 0 {
        DropTable(vm, idx);
        assert Used(mem, 0) == 0 by { NoTableNoUse(mem); }
      }
      if own {
        InStep(mem, kernel.pageDir, vm.pageDir, idx, vm.pageDirMapCount[idx]);
        forall v, i | v in Spaces() && 0 <= i < 1024
          ensures Counted(v, i)
        {
          assert (v == vm && i == idx) || old(Counted(v, i));
        }
      }
    }

    lemma AheadCount(vm: AddressSpace, idx: nat)
      requires Shaped() && OwnPart(vm, idx) && vm.pageDirMapCount.Length == 1024
      requires CountAhead(mem, kernel.pageDir, vm.pageDir, idx, vm.pageDirMapCount[idx])
      ensures var (n, t) := (vm.pageDirMapCount[idx], TableOf(mem, vm.pageDir, idx));
              && (n == PINNED <==> IsPinned(kernel.pageDir, vm.pageDir, idx))
              && (n != PINNED ==> n == Used(mem, t) + 1)
              && t in mem && |mem[t]| == 1024 && t in owners && t !in Dirs() && Used(mem, t) <= 1024
              && (n == PINNED ==> CountOk(mem, kernel.pageDir, vm.pageDir, idx, n))
    {
      hide IsPresent, DirFlags, FrameOf, PresentCount;
      NoEntry();
      SpaceDirs();
      assert EntrySound(mem, owners, vm.pageDir, idx);
    }

    ghost predicate Droppable(vm: AddressSpace, idx: nat)
      reads this
    {
      Shaped() && OwnPart(vm, idx) && TableOf(mem, vm.pageDir, idx) != 0 && Used(mem, TableOf(mem, vm.pageDir, idx)) == 0
    }

    // The table at an index goes.
    method DropTable(vm: AddressSpace, idx: nat)
      requires Distinct() && vm in Spaces() && idx < 1024
      modifies this`mem, this`free, this`owners
      ensures free == old(free) + {old(TableOf(mem, vm.pageDir, idx))}
      ensures EntryWritten(old(mem), mem, Sharers(kernel.pageDir, Dirs(), vm.pageDir), idx, 0)
      ensures old(Droppable(vm, idx)) ==>
                && Shaped() && TableFrames() == old(TableFrames()) && SameLookups(old(mem), mem, Dirs())
                && CountsKept(old(mem), mem, kernel.pageDir, Dirs(), vm.pageDir, idx)
                && TableOf(mem, vm.pageDir, idx) == 0
    {
      hide Structure, CountOk, Lookup, IsPresent, FrameOf, Used, EntryWritten;
      ghost var m0, free0, owners0, own := mem, free, owners, Droppable(vm, idx);
      var table := TableOf(mem, vm.pageDir, idx);
      if own {
        SpaceDirs();
      }
      free := free + {table};
      WriteDirEntry(vm, idx, 0);
      if own {
        owners := owners - {table};
        OldTable(m0, mem, free0, kernel.pageDir, Dirs(), owners0, vm.pageDir, idx);
      }
    }

    // One page entry is written through vm, to the table that stood there.
    method WritePage(vm: AddressSpace, page: nat, table: Frame, e: Word)
      requires Distinct() && vm in Spaces() && page < PAGES
      modifies this`mem
      ensures mem == WithEntry(old(mem), table, page % 1024, e)
      ensures var (idx, j) := (page / 1024, page % 1024);
              OwnPart(vm, idx) && old(Shaped() && CountedBut(vm, idx)) && table == old(TableOf(mem, vm.pageDir, idx)) != 0 ==>
                && Shaped() && CountedBut(vm, idx) && TableOf(mem, vm.pageDir, idx) == table
                && Used(mem, table) + One(IsPresent(old(Entry(mem, table, j)))) == old(Used(mem, table)) + One(IsPresent(e))
                && forall v, q | v in Spaces() && 0 <= q < PAGES ::
                     Maps(v, q) == if q == page && Sees(v, vm) then Meaning(e) else Lookup(old(mem), v.pageDir, q)
    {
      hide Structure, CountOk, Lookup, IsPresent, FrameOf, PresentCount, EntryWritten, WithEntry, Meaning;
      var idx, j := page / 1024, page % 1024;
      ghost var own := OwnPart(vm, idx) && Shaped() && CountedBut(vm, idx) && table == TableOf(mem, vm.pageDir, idx) != 0;
      if own {
        SpaceDirs();
        OwnPageWritten(mem, free, kernel.pageDir, Dirs(), owners, vm.pageDir, idx, j, e);
      }
      mem := WithEntry(mem, table, j, e);
      forall v, i | own && v in Spaces() && 0 <= i < 1024 && !(v == vm && i == idx)
        ensures Counted(v, i)
      {
        assert old(Counted(v, i));
      }
    }

    // A page of vm in the part of others maps to something new: with a table of its own, ...
    ghost predicate OnNewTable(vm: AddressSpace, page: nat, target: Mapping, m0: Memory)
      requires page / 1024 < vm.pageDirMapCount.Length
      reads this, vm.pageDirMapCount
    {
      && vm.pageDirMapCount[page / 1024] == 1
      && forall v, q | v in Spaces() && 0 <= q < PAGES ::
           Maps(v, q) == if Sees(v, vm) && q / 1024 == page / 1024 then (if q == page then target else None) else Lookup(m0, v.pageDir, q)
    }

    // ... on the kernel's table, ...
    ghost predicate ForEverybody(vm: AddressSpace, page: nat, target: Mapping, m0: Memory, free0: set<Frame>)
      requires page / 1024 < vm.pageDirMapCount.Length
      reads this, vm.pageDirMapCount
    {
      && vm.pageDirMapCount[page / 1024] == 1 && free == free0
      && TableOf(mem, vm.pageDir, page / 1024) == TableOf(mem, kernel.pageDir, page / 1024) == TableOf(m0, vm.pageDir, page / 1024)
      && forall v, q | v in Spaces() && 0 <= q < PAGES :: Maps(v, q) == if q == page then target else Lookup(m0, v.pageDir, q)
    }

    // ... or on the kernel's table, which now counts as free.
    ghost predicate OnFreeTable(vm: AddressSpace, page: nat, target: Mapping, m0: Memory, free0: set<Frame>)
      requires page / 1024 < vm.pageDirMapCount.Length
      reads this, vm.pageDirMapCount
    {
      && vm.pageDirMapCount[page / 1024] == 0 && free == free0 + {TableOf(mem, kernel.pageDir, page / 1024)}
      && TableOf(mem, vm.pageDir, page / 1024) == 0
      && TableOf(mem, kernel.pageDir, page / 1024) == TableOf(m0, vm.pageDir, page / 1024)
      && forall v, q | v in Spaces() && 0 <= q < PAGES ::
           Maps(v, q) == if v == vm && q / 1024 == page / 1024 then None
                         else if q == page then target else Lookup(m0, v.pageDir, q)
    }

    // A new table that some directories show has no page yet; with one page, all else is as before.
    lemma GivenTable(vm: AddressSpace, page: nat, m0: Memory, free0: set<Frame>, owners0: Owners, m1: Memory, free1: set<Frame>, e: Word)
      requires Distinct() && vm in Spaces() && page < PAGES && Structure(m0, free0, kernel.pageDir, Dirs(), owners0)
      requires TableAdded(m0, free0, m1, free1, Sharers(kernel.pageDir, Dirs(), vm.pageDir), page / 1024, vm.isKernel, EMPTY)
      ensures TableOf(m1, vm.pageDir, page / 1024) != 0
      ensures !IsPresent(Entry(m1, TableOf(m1, vm.pageDir, page / 1024), page % 1024))
      ensures vm.pageDirMapCount[page / 1024] == 1 && mem == WithEntry(m1, TableOf(m1, vm.pageDir, page / 1024), page % 1024, e) ==>
                OnNewTable(vm, page, Meaning(e), m0)
    {
      hide Structure, TableAdded, Lookup, WithEntry, IsPresent, FrameOf, Meaning;
      assert vm.pageDir in Dirs();
      assert forall v | v in Spaces() :: v.pageDir in Dirs();
      ForeignTable(m0, m1, free0, free1, kernel.pageDir, Dirs(), owners0, Sharers(kernel.pageDir, Dirs(), vm.pageDir),
                   vm.pageDir, page / 1024, page % 1024, e, vm.isKernel);
    }

    // The kernel's tables are those of all address spaces.
    lemma KernelTable(vm: AddressSpace, idx: nat, m0: Memory, free0: set<Frame>, owners0: Owners)
      requires Distinct() && vm in Spaces() && Structure(m0, free0, kernel.pageDir, Dirs(), owners0) && KERNEL_INDEX <= idx < 1024
      ensures Entry(m0, vm.pageDir, idx) == Entry(m0, kernel.pageDir, idx) && TableOf(m0, vm.pageDir, idx) !in free0
      ensures forall v | v in Spaces() :: v.pageDir in Dirs() && TableOf(m0, v.pageDir, idx) == TableOf(m0, kernel.pageDir, idx)
    {
      hide Lookup, WithEntry, IsPresent, FrameOf, Meaning, EntrySound, OwnerSound;
      assert kernel in Spaces();
      assert forall v | v in Spaces() :: v.pageDir in Dirs();
      TablesNotFree(m0, free0, kernel.pageDir, Dirs(), owners0);
    }

    // An entry of a kernel table is written: everybody sees it.
    lemma EverybodySees(vm: AddressSpace, page: nat, m0: Memory, free0: set<Frame>, owners0: Owners, e: Word)
      requires Distinct() && vm in vmems && page < PAGES && Structure(m0, free0, kernel.pageDir, Dirs(), owners0)
      requires KERNEL_INDEX <= page / 1024 && TableOf(m0, vm.pageDir, page / 1024) != 0
      requires mem == WithEntry(m0, TableOf(m0, vm.pageDir, page / 1024), page % 1024, e)
      ensures TableOf(mem, vm.pageDir, page / 1024) == TableOf(mem, kernel.pageDir, page / 1024) == TableOf(m0, vm.pageDir, page / 1024)
      ensures forall v, q | v in Spaces() && 0 <= q < PAGES :: Maps(v, q) == if q == page then Meaning(e) else Lookup(m0, v.pageDir, q)
    {
      hide Lookup, WithEntry, IsPresent, FrameOf, Meaning, Structure;
      KernelTable(vm, page / 1024, m0, free0, owners0);
      PageWritten(m0, free0, kernel.pageDir, Dirs(), owners0, vm.pageDir, page / 1024, page % 1024, e);
      assert kernel in Spaces() && page == 1024 * (page / 1024) + page % 1024;
    }

    // A table that a user space no longer shows is free, but the kernel shows it still, with the entry written.
    lemma TableGivenAway(vm: AddressSpace, page: nat, m0: Memory, free0: set<Frame>, owners0: Owners, m1: Memory, e: Word)
      requires Distinct() && vm in vmems && page < PAGES && Structure(m0, free0, kernel.pageDir, Dirs(), owners0)
      requires KERNEL_INDEX <= page / 1024 && TableOf(m0, vm.pageDir, page / 1024) != 0
      requires EntryWritten(m0, m1, {vm.pageDir}, page / 1024, 0)
      requires mem == WithEntry(m1, TableOf(m0, vm.pageDir, page / 1024), page % 1024, e)
      requires free == free0 + {TableOf(m0, vm.pageDir, page / 1024)} && vm.pageDirMapCount[page / 1024] == 0
      ensures OnFreeTable(vm, page, Meaning(e), m0, free0)
    {
      hide Lookup, WithEntry, IsPresent, FrameOf, Meaning, Structure;
      KernelTable(vm, page / 1024, m0, free0, owners0);
      HiddenTable(m0, m1, free0, kernel.pageDir, Dirs(), owners0, vm.pageDir, page / 1024, page % 1024, e);
      NoEntry();
      assert kernel in Spaces() && page == 1024 * (page / 1024) + page % 1024;
    }

    // Neither a counter in the part of others nor a free table that the kernel shows is allowed.
    lemma NotValid(vm: AddressSpace, idx: nat)
      requires Distinct() && vm in Spaces() && idx < 1024 && !OwnPart(vm, idx)
      requires vm.pageDirMapCount[idx] != 0 || TableOf(mem, kernel.pageDir, idx) in free
      ensures !Valid()
    {
      hide IsPresent, DirFlags, FrameOf, Structure;
      assert vm.pageDirMapCount[idx] != 0 ==> !Counted(vm, idx);
      ShownNotFree(idx);
    }

    lemma ShownNotFree(idx: nat)
      requires Distinct() && idx < 1024
      ensures Shaped() ==> TableOf(mem, kernel.pageDir, idx) !in free
    {
      if Shaped() {
        SpaceDirs();
        TablesNotFree(mem, free, kernel.pageDir, Dirs(), owners);
      }
    }

    /**
     map_page: the page maps to the frame, in every address space that shares the table, and no other page of
     any address space changes.  It fails, and the kernel stops, only when there is no frame for a table.
     All is in order afterwards if and only if the page is in the part of the directory that the address space
     owns.  In the other part the kernel gives a new table to everybody, in place of those they have; a user
     space without a table there has a page that the others do not have, and with a table it changes a page of
     the kernel, and gives the table away if the page was mapped before.
     */
    method MapPage(vm: AddressSpace, page: nat, frame: Frame, write: bool) returns (ok: bool)
      requires Distinct() && vm in Spaces() && page < PAGES && vm.pageDirMapCount[page / 1024] <= PINNED
      modifies this`mem, this`free, this`owners, vm.pageDirMapCount
      ensures old(Valid()) ==> (!ok <==> old(free) == {} && old(TableOf(mem, vm.pageDir, page / 1024)) == 0)
      ensures old(Valid()) && ok ==> (Valid() <==> OwnPart(vm, page / 1024))
      ensures old(Valid()) && ok && OwnPart(vm, page / 1024) ==>
                && TableFrames() == old(TableFrames())
                && forall v, q | v in Spaces() && 0 <= q < PAGES ::
                     Maps(v, q) == if q == page && Sees(v, vm) then To(frame % FRAMES, write) else old(Maps(v, q))
      ensures old(Valid()) && ok && !OwnPart(vm, page / 1024) ==>
                if old(TableOf(mem, vm.pageDir, page / 1024)) == 0 then OnNewTable(vm, page, To(frame % FRAMES, write), old(mem))
                else && vm != kernel
                     && if old(Maps(vm, page)) == None then ForEverybody(vm, page, To(frame % FRAMES, write), old(mem), old(free))
                        else OnFreeTable(vm, page, To(frame % FRAMES, write), old(mem), old(free))
      ensures !ok ==> old(free) - {0} == {} && mem == old(mem) && free == old(free)
      ensures ok ==> PageMapped(old(mem), old(free), old(vm.pageDirMapCount[page / 1024]), mem, free, vm.pageDirMapCount[page / 1024],
                             vm.pageDir, Sharers(kernel.pageDir, Dirs(), vm.pageDir), page / 1024, vm.isKernel, EMPTY,
                             page % 1024, TabEntry(frame, write))
      ensures forall i | 0 <= i < 1024 && i != page / 1024 :: vm.pageDirMapCount[i] == old(vm.pageDirMapCount[i])
    {
      hide Structure, CountOk, Lookup, IsPresent, FrameOf, PresentCount, TabEntry, Used, WithEntry, EntryWritten, TableAdded,
           Released, ReleasedIf, Retained, PageMapped, OnNewTable, ForEverybody, OnFreeTable;
      var dirIdx, tabIdx := page / 1024, page % 1024;
      ghost var valid, m0, free0, owners0 := Valid(), mem, free, owners;
      ghost var own := valid && OwnPart(vm, dirIdx);
      if valid {
        SpaceDirs();
      }
      var table: Frame;
      ghost var m1, free1, n1;
      ok, table, m1, free1, n1 := HoldTable(vm, page);
      if !ok {
        return;
      }
      ghost var m2 := mem;
      WritePage(vm, page, table, TabEntry(frame, write));
      PageIsMapped(m0, free0, old(vm.pageDirMapCount[dirIdx]), m1, free1, n1, m2, mem, free, vm.pageDirMapCount[dirIdx], vm.pageDir,
                Sharers(kernel.pageDir, Dirs(), vm.pageDir), dirIdx, vm.isKernel, EMPTY, tabIdx, TabEntry(frame, write));
      Packed(frame, write);
      if own {
        Settled(mem, kernel.pageDir, vm.pageDir, dirIdx, vm.pageDirMapCount[dirIdx]);
        AllCounted(vm, dirIdx);
      } else if valid && TableOf(m0, vm.pageDir, dirIdx) == 0 {
        GivenTable(vm, page, m0, free0, owners0, m1, free1, TabEntry(frame, write));
        NotValid(vm, dirIdx);
      } else if valid {
        ForeignMapped(vm, page, m0, free0, owners0, m2, TabEntry(frame, write));
      }
    }

    // The first half of map_page: the table is there, and its counter ready for the page.
    method HoldTable(vm: AddressSpace, page: nat) returns (ok: bool, table: Frame, ghost m1: Memory, ghost free1: set<Frame>, ghost n1: nat)
      requires Distinct() && vm in Spaces() && page < PAGES && vm.pageDirMapCount[page / 1024] <= PINNED
      modifies this`mem, this`free, this`owners, vm.pageDirMapCount
      ensures !ok ==> old(free) - {0} == {} && mem == old(mem) && free == old(free)
      ensures ok ==>
                && Retained(true, old(mem), old(free), old(vm.pageDirMapCount[page / 1024]), m1, free1, n1,
                            vm.pageDir, Sharers(kernel.pageDir, Dirs(), vm.pageDir), page / 1024, vm.isKernel, EMPTY)
                && table == TableOf(m1, vm.pageDir, page / 1024)
                && ReleasedIf(IsPresent(Entry(m1, table, page % 1024)), m1, free1, n1, mem, free, vm.pageDirMapCount[page / 1024],
                              vm.pageDir, Sharers(kernel.pageDir, Dirs(), vm.pageDir), page / 1024)
      ensures forall i | 0 <= i < 1024 && i != page / 1024 :: vm.pageDirMapCount[i] == old(vm.pageDirMapCount[i])
      ensures old(Valid()) ==> (!ok <==> old(free) == {} && old(TableOf(mem, vm.pageDir, page / 1024)) == 0)
      ensures old(Valid()) && ok && OwnPart(vm, page / 1024) ==>
                && Shaped() && CountedBut(vm, page / 1024) && TableFrames() == old(TableFrames())
                && SameLookups(old(mem), mem, Dirs()) && table == TableOf(mem, vm.pageDir, page / 1024) != 0
                && vm.pageDirMapCount[page / 1024] ==
                   (if IsPinned(kernel.pageDir, vm.pageDir, page / 1024) then PINNED
                    else Used(mem, table) + One(!IsPresent(Entry(mem, table, page % 1024))))
                && (IsPresent(Entry(mem, table, page % 1024)) ==> Used(mem, table) > 0)
      ensures old(Valid()) && ok && !OwnPart(vm, page / 1024) ==>
                if old(TableOf(mem, vm.pageDir, page / 1024)) != 0
                then vm in vmems && table == old(TableOf(mem, vm.pageDir, page / 1024))
                     && ReleasedIf(IsPresent(old(Entry(mem, TableOf(mem, vm.pageDir, page / 1024), page % 1024))),
                                   old(mem), old(free), 1, mem, free, vm.pageDirMapCount[page / 1024],
                                   vm.pageDir, {vm.pageDir}, page / 1024)
                else && mem == m1 && free == free1 && vm.pageDirMapCount[page / 1024] == 1
                     && TableAdded(old(mem), old(free), m1, free1, Sharers(kernel.pageDir, Dirs(), vm.pageDir), page / 1024, vm.isKernel, EMPTY)
    {
      hide Structure, CountOk, Lookup, IsPresent, FrameOf, PresentCount, Used, WithEntry, EntryWritten, TableAdded, Released, Retained;
      var dirIdx, tabIdx := page / 1024, page % 1024;
      ghost var valid, m0, free0, owners0 := Valid(), mem, free, owners;
      ghost var own := valid && OwnPart(vm, dirIdx);
      if valid {
        SpaceDirs();
        AnyCount(vm, dirIdx);
      }
      ok := RetainPageTab(vm, dirIdx);
      table, m1, free1, n1 := TableOf(mem, vm.pageDir, dirIdx), mem, free, vm.pageDirMapCount[dirIdx];
      if !ok {
        return;
      }
      if own {
        SpaceDirs();
        AheadCount(vm, dirIdx);
      } else if valid && TableOf(m0, vm.pageDir, dirIdx) == 0 {
        GivenTable(vm, page, m0, free0, owners0, m1, free1, 0);
      }
      if IsPresent(Entry(mem, table, tabIdx)) {
        if own {
          SomePageUsed(mem, table, tabIdx);
        }
        ReleasePageTab(vm, dirIdx);
        if own {
          OwnCount(vm, dirIdx);
        }
      }
    }

    // What a user space did to a kernel table by mapping a page of it.
    lemma ForeignMapped(vm: AddressSpace, page: nat, m0: Memory, free0: set<Frame>, owners0: Owners, m2: Memory, e: Word)
      requires Distinct() && vm in vmems && page < PAGES && Structure(m0, free0, kernel.pageDir, Dirs(), owners0)
      requires KERNEL_INDEX <= page / 1024 && TableOf(m0, vm.pageDir, page / 1024) != 0
      requires mem == WithEntry(m2, TableOf(m0, vm.pageDir, page / 1024), page % 1024, e)
      requires ReleasedIf(IsPresent(Entry(m0, TableOf(m0, vm.pageDir, page / 1024), page % 1024)), m0, free0, 1,
                          m2, free, vm.pageDirMapCount[page / 1024], vm.pageDir, {vm.pageDir}, page / 1024)
      ensures !Valid()
      ensures if Lookup(m0, vm.pageDir, page) == None then ForEverybody(vm, page, Meaning(e), m0, free0)
              else OnFreeTable(vm, page, Meaning(e), m0, free0)
    {
      hide Structure, IsPresent, FrameOf, WithEntry, EntryWritten;
      if IsPresent(Entry(m0, TableOf(m0, vm.pageDir, page / 1024), page % 1024)) {
        TableGivenAway(vm, page, m0, free0, owners0, m2, e);
      } else {
        EverybodySees(vm, page, m0, free0, owners0, e);
      }
      NotValid(vm, page / 1024);
    }

    lemma AllCounted(vm: AddressSpace, idx: nat)
      requires Shaped() && CountedBut(vm, idx) && Counted(vm, idx)
      ensures Valid()
    {
      hide Structure, CountOk;
    }

    /**
     unmap_page: the page maps to nothing, wherever the table is shared, and no other page changes.  In the
     other part of the directory it takes the page from everybody too, but the counter goes below zero, to
     0xffff.  Whatever state it starts from, it clears the entry and releases the table once.
     */
    method UnmapPage(vm: AddressSpace, page: nat)
      requires Distinct() && vm in Spaces() && page < PAGES && vm.pageDirMapCount[page / 1024] <= PINNED
      modifies this`mem, this`free, this`owners, vm.pageDirMapCount
      ensures old(Valid()) ==> (Valid() <==> OwnPart(vm, page / 1024) || old(Maps(vm, page)) == None)
      ensures old(Valid()) ==> forall v, q | v in Spaces() && 0 <= q < PAGES ::
                Maps(v, q) == if q == page && (Sees(v, vm) || !OwnPart(vm, page / 1024)) && old(Maps(vm, page)) != None then None
                              else old(Maps(v, q))
      ensures old(Valid()) && OwnPart(vm, page / 1024) ==> TableFrames() == old(TableFrames())
      ensures old(Valid()) && !OwnPart(vm, page / 1024) && old(Maps(vm, page)) != None ==> vm.pageDirMapCount[page / 1024] == PINNED
      ensures if old(Maps(vm, page)) == None then mem == old(mem) && free == old(free) && owners == old(owners) && unchanged(vm.pageDirMapCount)
              else Released(WithEntry(old(mem), old(TableOf(mem, vm.pageDir, page / 1024)), page % 1024, 0),
                            old(free), old(vm.pageDirMapCount[page / 1024]), mem, free, vm.pageDirMapCount[page / 1024],
                            vm.pageDir, Sharers(kernel.pageDir, Dirs(), vm.pageDir), page / 1024)
      ensures forall i | 0 <= i < 1024 && i != page / 1024 :: vm.pageDirMapCount[i] == old(vm.pageDirMapCount[i])
    {
      hide Structure, CountOk, IsPresent, FrameOf, PresentCount, Used, Sees, WithEntry, EntryWritten, Released, Lookup, Meaning;
      ghost var valid, own, m0 := Valid(), Valid() && OwnPart(vm, page / 1024), mem;
      ghost var free0, owners0 := free, owners;
      var dirIdx, tabIdx := page / 1024, page % 1024;
      WhenNone(mem, vm.pageDir, page);
      if own {
        SpaceDirs();
        OwnCount(vm, dirIdx);
        NotMapped(vm, page);
      } else if valid {
        AnyCount(vm, dirIdx);
      }
      var table := TableOf(mem, vm.pageDir, dirIdx);
      if table == 0 || !IsPresent(Entry(mem, table, tabIdx)) {
        return;
      }
      WritePage(vm, page, table, 0);
      if own {
        Ahead(mem, kernel.pageDir, vm.pageDir, dirIdx, vm.pageDirMapCount[dirIdx]);
        SpaceDirs();
      }
      ghost var m1 := mem;
      forall v, q | own && v in Spaces() && 0 <= q < PAGES
        ensures Lookup(m1, v.pageDir, q) == if q == page && Sees(v, vm) then None else Lookup(m0, v.pageDir, q)
      {
        assert Maps(v, q) == if q == page && Sees(v, vm) then None else old(Maps(v, q));
      }
      ReleasePageTab(vm, dirIdx);
      if own {
        assert forall v, q | v in Spaces() && 0 <= q < PAGES :: Maps(v, q) == Lookup(m1, v.pageDir, q);
      } else if valid {
        ReleasedAtZero(m1, free0, mem, free, vm.pageDirMapCount[dirIdx], vm.pageDir, Sharers(kernel.pageDir, Dirs(), vm.pageDir), dirIdx);
        EverybodySees(vm, page, m0, free0, owners0, 0);
        NotValid(vm, dirIdx);
      }
    }

    lemma WhenNone(m: Memory, dir: Frame, page: nat)
      ensures Lookup(m, dir, page) == None <==>
                TableOf(m, dir, page / 1024) == 0 || !IsPresent(Entry(m, TableOf(m, dir, page / 1024), page % 1024))
      ensures Meaning(0) == None && !IsPresent(0)
    {
      NoEntry();
    }

    lemma ReleasedAtZero(m: Memory, free0: set<Frame>, m': Memory, free': set<Frame>, n: nat, d: Frame, targets: set<Frame>, i: nat)
      requires Released(m, free0, 0, m', free', n, d, targets, i)
      ensures m' == m && free' == free0 && n == PINNED
    {
    }

    // What the sharers of a table that is not there, or has no entry for a page, map this page to.
    lemma NotMapped(vm: AddressSpace, page: nat)
      requires Shaped() && page < PAGES && OwnPart(vm, page / 1024)
      ensures var t := TableOf(mem, vm.pageDir, page / 1024);
              t == 0 || !IsPresent(Entry(mem, t, page % 1024)) ==> forall v | v in Spaces() && Sees(v, vm) :: Maps(v, page) == None
    {
      hide IsPresent, DirFlags, FrameOf;
      SpaceDirs();
    }

    /**
     A user space that maps a page of a kernel table and unmaps it again has the table's frame freed, while the
     kernel's directory shows it still and the kernel's counter is positive.
     */
    method MapThenUnmap(vm: AddressSpace, page: nat, frame: Frame, write: bool)
      requires Valid() && vm in vmems && KERNEL_INDEX <= page / 1024 && page < PAGES
      requires TableOf(mem, vm.pageDir, page / 1024) != 0 && Maps(vm, page) == None
      modifies this`mem, this`free, this`owners, vm.pageDirMapCount
      ensures TableOf(mem, kernel.pageDir, page / 1024) == old(TableOf(mem, kernel.pageDir, page / 1024)) != 0
      ensures TableOf(mem, kernel.pageDir, page / 1024) in free && kernel.pageDirMapCount[page / 1024] > 0 && !Valid()
    {
      hide Structure, CountOk, Lookup, IsPresent, FrameOf, PresentCount, Used, WithEntry, EntryWritten, Entry;
      SpaceDirs();
      KernelTable(vm, page / 1024, mem, free, owners);
      OwnCount(kernel, page / 1024);
      assert kernel.pageDirMapCount[page / 1024] > 0;
      TablesAreNoDirs(mem, free, kernel.pageDir, Dirs(), owners);
      AnyCount(vm, page / 1024);
      var _ := MapPage(vm, page, frame, write);
      ghost var m1 := mem;
      UnmapPage(vm, page);
      StillShown(m1, mem, kernel.pageDir, vm.pageDir, page / 1024, page % 1024);
      NotValid(vm, page / 1024);
    }

    lemma StillShown(m: Memory, m': Memory, kernel: Frame, d: Frame, i: nat, j: nat)
      requires kernel != d && TableOf(m, d, i) == TableOf(m, kernel, i) && TableOf(m, d, i) !in {kernel, d}
      ensures TableOf(WithEntry(m, TableOf(m, d, i), j, 0), d, i) == TableOf(m, d, i)
      ensures EntryWritten(WithEntry(m, TableOf(m, d, i), j, 0), m', {d}, i, 0) ==> TableOf(m', kernel, i) == TableOf(m, kernel, i)
    {
      hide FrameOf;
    }

    /** vir_paddr_to_phy: the frame of a page, and 0 for a page that is not mapped. */
    method VirPaddrToPhy(vm: AddressSpace, page: nat) returns (frame: Frame)
      requires Shaped() && vm in Spaces() && page < PAGES
      ensures frame == if Maps(vm, page).To? then Maps(vm, page).frame else 0
    {
      var table := TableOf(mem, vm.pageDir, page / 1024);
      if table == 0 {
        return 0;
      }
      var e := Entry(mem, table, page % 1024);
      if !IsPresent(e) {
        return 0;
      }
      return FrameOf(e);
    }

    /** create: a new address space has the kernel's pages and no others; it fails only without a free frame. */
    method Create() returns (vm: AddressSpace?)
      requires Valid()
      modifies this`mem, this`free, this`vmems
      ensures vm == null <==> old(free) == {}
      ensures vm == null ==> mem == old(mem) && free == old(free) && vmems == old(vmems)
      ensures vm != null ==> Valid() && fresh(vm) && fresh(vm.pageDirMapCount) && !vm.isKernel && vmems == old(vmems) + [vm]
      ensures mem.Keys == old(mem.Keys)
      ensures vm != null ==> free == old(free) - {vm.pageDir} && owners == old(owners) && vm.pageDir in old(free)
      ensures vm != null ==> forall v, q | v in old(Spaces()) && 0 <= q < PAGES :: Maps(v, q) == old(Maps(v, q))
      ensures vm != null ==> forall q | 0 <= q < PAGES ::
                Maps(vm, q) == if q / 1024 >= KERNEL_INDEX then Maps(kernel, q) else None
    {
      hide Structure, CountOk, Lookup, IsPresent, FrameOf;
      SpaceDirs();
      NoFrameZero();
      ghost var m0, free0, dirs0 := mem, free, Dirs();
      var pageDir := AllocTable();
      if pageDir == 0 {
        return null;
      }
      KernelHasMemory(m0, free0, kernel.pageDir, dirs0, owners);
      mem := mem[pageDir := mem[kernel.pageDir]];
      assert mem == m0[pageDir := m0[kernel.pageDir]];
      DirAdded(m0, mem, free0, kernel.pageDir, dirs0, owners, pageDir);
      vm := new AddressSpace(false, pageDir);
      vmems := vmems + [vm];
      assert Spaces() == old(Spaces()) + {vm};
      assert Dirs() == dirs0 + {pageDir};
      assert Distinct();
      forall v, i | v in Spaces() && 0 <= i < 1024
        ensures Counted(v, i)
      {
        assert v == vm || old(Counted(v, i));
      }
    }

    lemma KernelHasMemory(m: Memory, free: set<Frame>, kernel: Frame, dirs: set<Frame>, owners: Owners)
      requires Structure(m, free, kernel, dirs, owners)
      ensures kernel in m && dirs !! free
    {
    }

    /**
     destroy: the directory becomes free and nobody else sees a difference.  The tables of the address space
     do not: no frame is lost if and only if all its counters are zero.
     */
    method Destroy(vm: AddressSpace)
      requires Valid() && vm in vmems
      modifies this`free, this`owners, this`vmems
      ensures Valid() && Spaces() == old(Spaces()) - {vm} && free == old(free) + {vm.pageDir} && owners.Keys <= old(owners.Keys)
      ensures forall v | v in old(vmems) && v != vm :: v in vmems
      ensures forall v, q | v in Spaces() && 0 <= q < PAGES :: Maps(v, q) == old(Maps(v, q))
      ensures TableFrames() == old(TableFrames()) + {vm.pageDir} <==>
                forall i | 0 <= i < KERNEL_INDEX :: old(vm.pageDirMapCount[i]) == 0
    {
      hide Structure, CountOk, Lookup, IsPresent, FrameOf;
      SpaceDirs();
      ghost var dirs0, owners0 := Dirs(), owners;
      var k :| 0 <= k < |vmems| && vmems[k] == vm;
      DirRemoved(mem, free, kernel.pageDir, dirs0, owners, vm.pageDir);
      ZeroCounts(vm);
      vmems := vmems[..k] + vmems[k + 1..];
      free := free + {vm.pageDir};
      owners := owners - TablesOf(owners, vm.pageDir);
      assert Spaces() == old(Spaces()) - {vm};
      assert Dirs() == dirs0 - {vm.pageDir};
      forall v, i | v in Spaces() && 0 <= i < 1024
        ensures Counted(v, i)
      {
        assert old(Counted(v, i));
      }
      LostFrames(free, owners0, TablesOf(owners0, vm.pageDir));
    }

    lemma LostFrames(free: set<Frame>, owners: Owners, gone: set<Frame>)
      requires gone <= owners.Keys && gone !! free
      ensures free + (owners - gone).Keys == free + owners.Keys <==> gone == {}
    {
      if gone != {} {
        var f :| f in gone;
        assert f in free + owners.Keys && f !in free + (owners - gone).Keys;
      }
    }

    lemma ZeroCounts(vm: AddressSpace)
      requires Valid() && vm in vmems
      ensures forall i | 0 <= i < KERNEL_INDEX :: vm.pageDirMapCount[i] == 0 <==> TableOf(mem, vm.pageDir, i) == 0
    {
      hide Structure, IsPresent, FrameOf;
      SpaceDirs();
      forall i | 0 <= i < KERNEL_INDEX
        ensures vm.pageDirMapCount[i] == 0 <==> TableOf(mem, vm.pageDir, i) == 0
      {
        assert Counted(vm, i);
      }
    }

    /** All address spaces have the kernel's entries in the upper part of their directories. */
    lemma SharedKernelHalf(v: AddressSpace, w: AddressSpace, i: nat)
      requires Valid() && v in Spaces() && w in Spaces() && KERNEL_INDEX <= i < 1024
      ensures Entry(mem, v.pageDir, i) == Entry(mem, w.pageDir, i)
      ensures forall q | 0 <= q < PAGES && q / 1024 == i :: Maps(v, q) == Maps(w, q)
    {
      hide IsPresent, DirFlags, FrameOf, Meaning, CountOk, EntrySound, OwnerSound;
      assert v.pageDir in Dirs() && w.pageDir in Dirs();
    }

    /** Every directory entry allows writing, and programs to go on exactly in front of the kernel's part. */
    lemma FlagsOfDirectories(v: AddressSpace, i: nat)
      requires Valid() && v in Spaces() && i < 1024
      ensures Entry(mem, v.pageDir, i) != 0 ==>
                IsWritable(Entry(mem, v.pageDir, i)) && (IsUser(Entry(mem, v.pageDir, i)) <==> i < KERNEL_INDEX)
    {
      hide IsPresent, FrameOf, IsWritable, IsUser;
      SpaceDirs();
      AnyEntrySound(mem, free, kernel.pageDir, Dirs(), owners, v.pageDir, i);
    }

    /** A frame holds a table exactly while the counter of its place is positive; no counter but the pinned one is 0xffff. */
    lemma HeldWhileCounted(v: AddressSpace, i: nat)
      requires Valid() && OwnPart(v, i) && !IsPinned(kernel.pageDir, v.pageDir, i)
      ensures var t := TableOf(mem, v.pageDir, i);
              && (v.pageDirMapCount[i] > 0 <==> t != 0 && t in owners && owners[t] == (v.pageDir, i))
              && (v.pageDirMapCount[i] > 0 ==> t !in free && v.pageDirMapCount[i] == PresentCount(mem[t]))
              && v.pageDirMapCount[i] <= 1024
    {
      hide IsPresent, DirFlags, FrameOf, PresentCount;
      NoEntry();
      SpaceDirs();
      OwnCount(v, i);
      assert Counted(v, i);
      assert EntrySound(mem, owners, v.pageDir, i);
    }
  }
}
