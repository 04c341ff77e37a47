/** A block of an ext2 directory: records that follow each other and fill the block. */
module DirBlocks {
  import opened DiskBlocks

  // sizeof(ext2_dir_entry): inode number, record size, length and type of the name.
  const RECORD := 8

  function Num16(b: seq<byte>, at: nat): nat {
    if at + 2 <= |b| then b[at] as nat + 0x100 * b[at + 1] as nat else 0
  }

  function Num32(b: seq<byte>, at: nat): nat {
    Num16(b, at) + 0x1_0000 * Num16(b, at + 2)
  }

  function InodeNum(b: seq<byte>, at: nat): nat {
    Num32(b, at)
  }

  function Size(b: seq<byte>, at: nat): nat {
    Num16(b, at + 4)
  }

  function NameLen(b: seq<byte>, at: nat): nat {
    if at + 6 < |b| then b[at + 6] as nat else 0
  }

  // The room a record with a name of some length needs, rounded up to a multiple of four.
  function Need(nameLen: nat): (n: nat)
    ensures n % 4 == 0 && RECORD + nameLen <= n < RECORD + nameLen + 4
  {
    (RECORD + nameLen + 3) / 4 * 4
  }

  function NeedAt(b: seq<byte>, at: nat): nat {
    Need(NameLen(b, at))
  }

  function Kind(b: seq<byte>, at: nat): byte {
    if at + 7 < |b| then b[at + 7] else 0
  }

  function Name(b: seq<byte>, at: nat): seq<byte> {
    var from := at + RECORD;
    if from + NameLen(b, at) <= |b| then b[from..from + NameLen(b, at)] else []
  }

  predicate IsLive(b: seq<byte>, at: nat) {
    InodeNum(b, at) != 0
  }

  // A record in front of some position, with room for its name if it is live.
  predicate Fits(b: seq<byte>, at: nat, end: nat) {
    && at + RECORD <= end <= |b| && RECORD <= Size(b, at) && at + Size(b, at) <= end
    && (IsLive(b, at) ==> NeedAt(b, at) <= Size(b, at))
  }

  /** Records fill the bytes between two positions exactly. */
  predicate Tiles(b: seq<byte>, from: nat, end: nat)
    decreases end - from
  {
    from == end || (from < end && Fits(b, from, end) && Tiles(b, from + Size(b, from), end))
  }

  predicate AllDead(b: seq<byte>, from: nat, end: nat)
    decreases end - from
  {
    from == end || (from < end && Fits(b, from, end) && !IsLive(b, from) && AllDead(b, from + Size(b, from), end))
  }

  // Where the fields of a record lie: four bytes of inode number, two of size, the length of the name and its type, and
  // then the name.
  lemma RecordLayout(b: seq<byte>, at: nat)
    requires at + RECORD <= |b|
    ensures InodeNum(b, at) == b[at] as nat + 0x100 * b[at + 1] as nat + 0x1_0000 * b[at + 2] as nat + 0x100_0000 * b[at + 3] as nat
    ensures Size(b, at) == b[at + 4] as nat + 0x100 * b[at + 5] as nat && NameLen(b, at) == b[at + 6] as nat && Kind(b, at) == b[at + 7]
    ensures at + 8 + NameLen(b, at) <= |b| ==> Name(b, at) == b[at + 8..at + 8 + NameLen(b, at)]
  {
  }

  datatype Entry = Entry(name: seq<byte>, inode: nat, kind: byte)

  // The entry of a live record.
  function EntryAt(b: seq<byte>, at: nat): Entry {
    Entry(Name(b, at), InodeNum(b, at), Kind(b, at))
  }

  // The entries in a stretch of records, in order.
  function Entries(b: seq<byte>, from: nat, end: nat): seq<Entry>
    decreases end - from
  {
    if from < end && Fits(b, from, end) then
      (if IsLive(b, from) then [EntryAt(b, from)] else [])
      + Entries(b, from + Size(b, from), end)
    else []
  }

  lemma {:induction false} Together(b: seq<byte>, x: nat, y: nat, z: nat)
    requires x <= y <= z <= |b| && Tiles(b, x, y) && Tiles(b, y, z)
    ensures Tiles(b, x, z) && Entries(b, x, z) == Entries(b, x, y) + Entries(b, y, z)
    decreases y - x
  {
    hide Size, EntryAt, InodeNum, NeedAt;
    if x < y {
      assert y <= z;
      Together(b, x + Size(b, x), y, z);
    }
  }

  lemma {:induction false} DeadTiles(b: seq<byte>, from: nat, end: nat)
    requires from <= end && AllDead(b, from, end)
    ensures Tiles(b, from, end) && Entries(b, from, end) == []
    decreases end - from
  {
    if from < end {
      DeadTiles(b, from + Size(b, from), end);
    }
  }

  lemma {:induction false} OneMoreDead(b: seq<byte>, from: nat, end: nat)
    requires from <= end && AllDead(b, from, end) && end <= |b| && Fits(b, end, |b|) && !IsLive(b, end)
    ensures AllDead(b, from, end + Size(b, end))
    decreases end - from
  {
    if from < end {
      OneMoreDead(b, from + Size(b, from), end);
    }
  }

  // Records in front of others are the same chain.
  lemma {:induction false} InOrder(b: seq<byte>, x: nat, s: nat, t: nat)
    requires x <= s <= t && Tiles(b, x, s) && Tiles(b, x, t)
    ensures Tiles(b, s, t)
    decreases s - x
  {
    if x < s {
      InOrder(b, x + Size(b, x), s, t);
    }
  }

  lemma {:induction false} DeadInside(b: seq<byte>, x: nat, s: nat, t: nat)
    requires x <= s < t && Tiles(b, x, s) && AllDead(b, x, t)
    ensures !IsLive(b, s)
    decreases s - x
  {
    if x < s {
      DeadInside(b, x + Size(b, x), s, t);
    }
  }

  // Records are read from their own bytes only.
  lemma {:induction false} SameRecords(b: seq<byte>, b': seq<byte>, from: nat, end: nat)
    requires |b'| == |b| && from <= end <= |b| && Tiles(b, from, end) && forall k | from <= k < end :: b'[k] == b[k]
    ensures Tiles(b', from, end) && Entries(b', from, end) == Entries(b, from, end)
    decreases end - from
  {
    hide Size, EntryAt, InodeNum, NeedAt;
    if from < end {
      SameRecord(b, b', from, end);
      SameRecords(b, b', from + Size(b, from), end);
    }
  }

  lemma SameRecord(b: seq<byte>, b': seq<byte>, at: nat, end: nat)
    requires |b'| == |b| && Fits(b, at, end) && forall k | at <= k < at + Size(b, at) :: b'[k] == b[k]
    ensures Fits(b', at, end) && Size(b', at) == Size(b, at) && InodeNum(b', at) == InodeNum(b, at)
    ensures IsLive(b, at) ==> EntryAt(b', at) == EntryAt(b, at)
  {
  }

  // A live record at s and dead ones behind it up to e.
  ghost predicate Run(b: seq<byte>, s: nat, e: nat) {
    && s < e <= |b| && Tiles(b, 0, s) && Fits(b, s, e) && IsLive(b, s) && AllDead(b, s + Size(b, s), e)
  }

  // ... with so much room behind the name of the live one.
  ghost predicate HasRoom(b: seq<byte>, s: nat, e: nat, need: nat) {
    Run(b, s, e) && s + NeedAt(b, s) + need <= e
  }

  // The room in the dead records at the beginning of the block.
  function LeadingDead(b: seq<byte>, from: nat): nat
    decreases |b| - from
  {
    if Fits(b, from, |b|) && !IsLive(b, from) then Size(b, from) + LeadingDead(b, from + Size(b, from)) else 0
  }

  // Where a walk over dead records from a position on stops: at a live record, at the end, or far enough.
  function DeadStop(b: seq<byte>, from: nat, need: nat): nat
    decreases |b| - from
  {
    if from < need && Fits(b, from, |b|) && !IsLive(b, from) then DeadStop(b, from + Size(b, from), need) else from
  }

  lemma {:induction false} DeadAtFront(b: seq<byte>, from: nat, end: nat)
    requires from <= end <= |b| && AllDead(b, from, end)
    ensures end - from <= LeadingDead(b, from)
    decreases end - from
  {
    if from < end {
      DeadAtFront(b, from + Size(b, from), end);
    }
  }

  lemma {:induction false} DeadUpTo(b: seq<byte>, from: nat, end: nat)
    requires from <= end && AllDead(b, from, end) && Fits(b, end, |b|) && IsLive(b, end)
    ensures end - from == LeadingDead(b, from)
    decreases end - from
  {
    if from < end {
      DeadUpTo(b, from + Size(b, from), end);
    }
  }

  lemma RunTiles(b: seq<byte>, s: nat, e: nat)
    requires Run(b, s, e)
    ensures Tiles(b, 0, e) && Tiles(b, s, e)
    ensures Entries(b, s, e) == [EntryAt(b, s)]
  {
    DeadTiles(b, s + Size(b, s), e);
    Together(b, 0, s, e);
  }

  // A stretch of records has one last live record.
  lemma OneRun(b: seq<byte>, s: nat, t: nat, e: nat)
    requires Run(b, s, e) && Run(b, t, e)
    ensures t <= s
  {
    if s < t {
      InOrder(b, 0, s, t);
      DeadInside(b, s + Size(b, s), t, e);
    }
  }

  // No run ends inside a record.
  lemma RunEnds(b: seq<byte>, s: nat, e: nat, at: nat)
    requires Run(b, s, e) && Tiles(b, 0, at) && Fits(b, at, |b|)
    ensures e <= at || at + Size(b, at) <= e
  {
    if at < e {
      RunTiles(b, s, e);
      InOrder(b, 0, at, e);
    }
  }

  lemma NoRunInDead(b: seq<byte>, s: nat, e: nat)
    requires e <= |b| && AllDead(b, 0, e)
    ensures !Run(b, s, e)
  {
    if Run(b, s, e) {
      DeadInside(b, 0, s, e);
    }
  }

  lemma RoomOfRun(b: seq<byte>, s: nat, e: nat, need: nat)
    ensures Run(b, s, e) ==> s < e <= |b| && s + NeedAt(b, s) <= e && (HasRoom(b, s, e, need) <==> e - s - NeedAt(b, s) >= need)
  {
    if Run(b, s, e) {
      RunTiles(b, s, e);
    }
  }

  // One record further.
  lemma Further(b: seq<byte>, at: nat)
    requires at < |b| && Tiles(b, 0, at) && Tiles(b, at, |b|)
    ensures Fits(b, at, |b|) && Tiles(b, 0, at + Size(b, at)) && Tiles(b, at + Size(b, at), |b|)
    ensures IsLive(b, at) ==> Run(b, at, at + Size(b, at))
    ensures !IsLive(b, at) && AllDead(b, 0, at) ==> AllDead(b, 0, at + Size(b, at))
    ensures forall s: nat | Run(b, s, at) && !IsLive(b, at) :: Run(b, s, at + Size(b, at))
  {
    hide Size, EntryAt, InodeNum, NeedAt, Entries;
    var next := at + Size(b, at);
    assert Tiles(b, at, next);
    Together(b, 0, at, next);
    if !IsLive(b, at) && AllDead(b, 0, at) {
      OneMoreDead(b, 0, at);
    }
    forall s: nat | Run(b, s, at) && !IsLive(b, at)
      ensures Run(b, s, next)
    {
      OneMoreDead(b, s + Size(b, s), at);
    }
  }

  // When the last live record has no room, no run up to here has.
  lemma NoRoomYet(b: seq<byte>, at: nat, live: bool, start: nat, need: nat)
    requires Tiles(b, 0, at) && Fits(b, at, |b|)
    requires forall s: nat, e: nat | e <= at :: !HasRoom(b, s, e, need)
    requires var next := at + Size(b, at); if live then Run(b, start, next) && !HasRoom(b, start, next, need) else AllDead(b, 0, next)
    ensures forall s: nat, e: nat | e <= at + Size(b, at) :: !HasRoom(b, s, e, need)
  {
    var next := at + Size(b, at);
    forall s: nat, e: nat | at < e <= next
      ensures !HasRoom(b, s, e, need)
    {
      NoRoomAt(b, at, live, start, need, s, e);
    }
  }

  lemma NoRoomAt(b: seq<byte>, at: nat, live: bool, start: nat, need: nat, s: nat, e: nat)
    requires Tiles(b, 0, at) && Fits(b, at, |b|) && at < e <= at + Size(b, at)
    requires if live then Run(b, start, at + Size(b, at)) && !HasRoom(b, start, at + Size(b, at), need)
             else AllDead(b, 0, at + Size(b, at))
    ensures !HasRoom(b, s, e, need)
  {
    hide Size, Tiles, AllDead, Fits, Run, HasRoom, NeedAt;
    var next := at + Size(b, at);
    RoomInRun(b, s, e, need);
    if Run(b, s, e) {
      RunEnds(b, s, e, at);
      if live {
        OneRun(b, s, start, next);
        OneRun(b, start, s, next);
      } else {
        InBlock(b, at);
        NoRunInDead(b, s, next);
      }
    }
  }

  lemma RoomInRun(b: seq<byte>, s: nat, e: nat, need: nat)
    ensures HasRoom(b, s, e, need) ==> Run(b, s, e)
  {
  }

  lemma InBlock(b: seq<byte>, at: nat)
    requires Fits(b, at, |b|)
    ensures at + Size(b, at) <= |b|
  {
  }

  lemma AtStart(b: seq<byte>, need: nat)
    ensures Tiles(b, 0, 0) && AllDead(b, 0, 0) && forall s: nat, e: nat | e <= 0 :: !HasRoom(b, s, e, need)
  {
  }

  lemma NoRunBehind(b: seq<byte>, need: nat)
    ensures forall s: nat, e: nat | e > |b| :: !HasRoom(b, s, e, need)
  {
  }

  // The walk of dirent_table_alloc: the first live record that has the room, with the dead ones behind it, or
  // the dead records at the beginning if they have it.
  method FindSlack(table: array<byte>, need: nat) returns (found: bool, start: nat, size: nat)
    requires Tiles(table[..], 0, table.Length) && need > 0
    ensures found ==> size >= need
    ensures found && LeadingDead(table[..], 0) < need ==>
              HasRoom(table[..], start, start + NeedAt(table[..], start) + size, need)
    ensures found && LeadingDead(table[..], 0) >= need ==>
              start == 0 && size == DeadStop(table[..], 0, need) <= table.Length && AllDead(table[..], 0, size)
    ensures !found ==> LeadingDead(table[..], 0) < need && forall s: nat, e: nat :: !HasRoom(table[..], s, e, need)
  {
    hide Size, InodeNum, NameLen, Need, Tiles, AllDead, LeadingDead, DeadStop, HasRoom, Run;
    ghost var b := table[..];
    AtStart(b, need);
    NoRunBehind(b, need);
    var dirent := 0;
    start, size := 0, 0;
    ghost var live := false;
    while dirent != table.Length
      invariant dirent <= |b| && Tiles(b, 0, dirent) && Tiles(b, dirent, |b|)
      invariant if live then Run(b, start, dirent) && size == dirent - start - NeedAt(b, start)
                else start == 0 && AllDead(b, 0, dirent) && size == dirent && DeadStop(b, 0, need) == DeadStop(b, dirent, need)
      invariant forall s: nat, e: nat | e <= dirent :: !HasRoom(b, s, e, need)
      invariant size < need && (live ==> LeadingDead(b, 0) < need)
      decreases |b| - dirent
    {
      ghost var at := dirent;
      Further(b, at);
      StopFurther(b, at, need);
      if InodeNum(table[..], dirent) != 0 {
        if !live {
          DeadUpTo(b, 0, dirent);
        }
        start := dirent;
        size := Size(table[..], dirent) - NeedAt(table[..], dirent);
        live := true;
      } else {
        size := size + Size(table[..], dirent);
      }
      dirent := dirent + Size(table[..], dirent);
      RoomOfRun(b, start, dirent, need);
      if !live {
        DeadAtFront(b, 0, dirent);
      }
      if size < need {
        NoRoomYet(b, at, live, start, need);
      }
      if size >= need {
        break;
      }
    }
    StopFurther(b, dirent, need);
    found := size >= need;
    if !found && !live {
      AllDeadBlock(b, 0);
    }
  }

  lemma StopFurther(b: seq<byte>, at: nat, need: nat)
    ensures at >= need ==> DeadStop(b, at, need) == at
    ensures at < need && Fits(b, at, |b|) && !IsLive(b, at) ==> DeadStop(b, at, need) == DeadStop(b, at + Size(b, at), need)
  {
  }

  lemma {:induction false} AllDeadBlock(b: seq<byte>, from: nat)
    requires from <= |b| && AllDead(b, from, |b|)
    ensures LeadingDead(b, from) == |b| - from
    decreases |b| - from
  {
    if from < |b| {
      AllDeadBlock(b, from + Size(b, from));
    }
  }

  lemma NeedBounded(b: seq<byte>, at: nat)
    ensures RECORD <= NeedAt(b, at) <= 0x108
  {
  }

  // A stretch of one live record.
  lemma OneRecord(b: seq<byte>, at: nat, end: nat)
    requires Fits(b, at, end) && IsLive(b, at) && at + Size(b, at) == end
    ensures Tiles(b, at, end) && Entries(b, at, end) == [EntryAt(b, at)]
  {
    assert Tiles(b, end, end) && Entries(b, end, end) == [];
  }

  // Everything is as before but the size of one record and the bytes of another one.
  ghost predicate OnlyTwo(b: seq<byte>, b': seq<byte>, start: nat, from: nat, end: nat) {
    && |b'| == |b|
    && forall k | 0 <= k < |b| && !(start + 4 <= k < start + 6) && !(from <= k < end) :: b'[k] == b[k]
  }

  /** A record put behind the name of a live one, over the dead records there: one more entry, none less. */
  lemma RecordAdded(b: seq<byte>, b': seq<byte>, start: nat, e: nat, name: seq<byte>, inode: nat, kind: byte)
    requires Tiles(b, 0, |b|) && HasRoom(b, start, e, Need(|name|)) && inode != 0
    requires var ret := start + NeedAt(b, start);
             && OnlyTwo(b, b', start, ret, ret + RECORD + |name|) && Size(b', start) == NeedAt(b, start) && Size(b', ret) == e - ret
             && EntryAt(b', ret) == Entry(name, inode, kind) && NameLen(b', ret) == |name|
    ensures Tiles(b', 0, |b'|)
    ensures Entries(b', 0, |b'|) == Entries(b, 0, e) + [Entry(name, inode, kind)] + Entries(b, e, |b|)
    ensures Entries(b, 0, |b|) == Entries(b, 0, e) + Entries(b, e, |b|)
  {
    hide Size, InodeNum, NameLen, Name, Need, Tiles, AllDead, Entries;
    var n, ret := |b|, start + NeedAt(b, start);
    RunTiles(b, start, e);
    InOrder(b, 0, e, n);
    Together(b, 0, start, e);
    Together(b, 0, e, n);
    SameRecords(b, b', 0, start);
    SameRecords(b, b', e, n);
    ShrunkRecord(b, b', start, e, ret, ret + RECORD + |name|);
    OneRecord(b', start, ret);
    OneRecord(b', ret, e);
    Together(b', 0, start, ret);
    Together(b', 0, ret, e);
    Together(b', 0, e, n);
  }

  // A live record that keeps what it needs is still the same entry.
  lemma ShrunkRecord(b: seq<byte>, b': seq<byte>, start: nat, e: nat, ret: nat, end: nat)
    requires Fits(b, start, e) && IsLive(b, start) && e <= |b| && ret == start + NeedAt(b, start) <= e
    requires OnlyTwo(b, b', start, ret, end) && Size(b', start) == NeedAt(b, start)
    ensures Fits(b', start, ret) && IsLive(b', start)
    ensures EntryAt(b', start) == EntryAt(b, start)
  {
    hide Need, Size;
    assert Num16(b', start) == Num16(b, start) && Num16(b', start + 2) == Num16(b, start + 2);
    assert NameLen(b', start) == NameLen(b, start);
  }

  method PutNum16(table: array<byte>, at: nat, n: nat)
    requires at + 2 <= table.Length && n < 0x1_0000
    modifies table
    ensures Num16(table[..], at) == n
    ensures forall k | 0 <= k < table.Length && k != at && k != at + 1 :: table[k] == old(table[k])
  {
    table[at], table[at + 1] := n % 0x100, n / 0x100;
  }

  /**
   dirent_table_alloc: the first place with room for a record, cut off from the record in front of it.  When
   the dead records at the beginning of the block have the room, the first of them is cut to what it needs and
   the new record gets the size of all of them.
   */
  method AllocRecord(table: array<byte>, nameLen: nat) returns (ret: nat, ghost start: nat)
    requires 1024 <= table.Length < 0x1_0000 && Tiles(table[..], 0, table.Length)
    modifies table
    ensures ret == 0 ==> table[..] == old(table[..]) && LeadingDead(table[..], 0) < Need(nameLen)
                         && forall s: nat, e: nat :: !HasRoom(table[..], s, e, Need(nameLen))
    ensures ret != 0 ==>
              && ret == start + NeedAt(old(table[..]), start) && Size(table[..], start) == ret - start
              && Size(table[..], ret) >= Need(nameLen) && ret + RECORD <= table.Length
              && OnlyTwo(old(table[..]), table[..], start, ret + 4, ret + 6)
    ensures ret != 0 && LeadingDead(old(table[..]), 0) < Need(nameLen) ==>
              HasRoom(old(table[..]), start, ret + Size(table[..], ret), Need(nameLen))
    ensures LeadingDead(old(table[..]), 0) >= Need(nameLen) ==>
              && ret != 0 && start == 0 && AllDead(old(table[..]), 0, Size(table[..], ret))
              && Size(table[..], ret) == DeadStop(old(table[..]), 0, Need(nameLen)) <= table.Length
  {
    hide InodeNum, NameLen, Need, Tiles, AllDead, LeadingDead, DeadStop, HasRoom, Size, Num16;
    ghost var b := table[..];
    var found, startEnt, size := FindSlack(table, Need(nameLen));
    start := startEnt;
    ret := 0;
    if !found {
      return;
    }
    PlaceFound(b, start, size, Need(nameLen));
    ret := startEnt + NeedAt(table[..], startEnt);
    CutOff(table, startEnt, ret, size);
  }

  // Where the new record comes to stand.
  lemma PlaceFound(b: seq<byte>, start: nat, size: nat, need: nat)
    requires 1024 <= |b| < 0x1_0000 && size >= need >= RECORD
    requires LeadingDead(b, 0) < need ==> HasRoom(b, start, start + NeedAt(b, start) + size, need)
    requires LeadingDead(b, 0) >= need ==> start == 0 && size <= |b|
    ensures RECORD <= NeedAt(b, start) < 0x1_0000 && size < 0x1_0000 && start + NeedAt(b, start) + RECORD <= |b|
  {
    hide Tiles, AllDead, LeadingDead, Fits, NeedAt;
    NeedBounded(b, start);
    if LeadingDead(b, 0) < need {
      EndsInside(b, start, start + NeedAt(b, start) + size, need);
    }
  }

  // The sizes of a record and of the one cut off from it.
  method CutOff(table: array<byte>, start: nat, ret: nat, size: nat)
    requires start + RECORD <= ret < 0x1_0000 && ret + RECORD <= table.Length && size < 0x1_0000
    modifies table
    ensures Size(table[..], start) == ret - start && Size(table[..], ret) == size
    ensures OnlyTwo(old(table[..]), table[..], start, ret + 4, ret + 6)
  {
    PutNum16(table, start + 4, ret - start);
    PutNum16(table, ret + 4, size);
  }

  // The record at a position is filled in.
  method Fill(table: array<byte>, at: nat, name: seq<byte>, inode: nat, kind: byte)
    requires at + RECORD + |name| <= table.Length && |name| < 0x100 && inode < 0x1_0000_0000
    modifies table
    ensures EntryAt(table[..], at) == Entry(name, inode, kind) && NameLen(table[..], at) == |name|
    ensures forall k | 0 <= k < table.Length && !(at <= k < at + RECORD + |name|) :: table[k] == old(table[k])
    ensures Size(table[..], at) == old(Size(table[..], at))
  {
    PutNum16(table, at, inode % 0x1_0000);
    PutNum16(table, at + 2, inode / 0x1_0000);
    table[at + 6] := |name|;
    table[at + 7] := kind;
    ghost var b := table[..];
    for i := 0 to |name|
      invariant forall k | 0 <= k < table.Length && !(at + RECORD <= k < at + RECORD + i) :: table[k] == b[k]
      invariant forall k | 0 <= k < i :: table[at + RECORD + k] == name[k]
    {
      table[at + RECORD + i] := name[i];
    }
    assert Num16(table[..], at) == Num16(b, at) && Num16(table[..], at + 2) == Num16(b, at + 2);
  }

  // The dead records at the beginning of the block have the room for a name.
  predicate FrontHasRoom(b: seq<byte>, nameLen: nat) {
    LeadingDead(b, 0) >= Need(nameLen)
  }

  // Where a record that is put over them ends: behind the last one it takes, by what the first one needs.
  function FrontEnd(b: seq<byte>, nameLen: nat): nat {
    DeadStop(b, 0, Need(nameLen)) + NeedAt(b, 0)
  }

  // When the records still fill the block after a name was put into it, ...
  predicate KeepsRecords(b: seq<byte>, nameLen: nat) {
    var e := FrontEnd(b, nameLen);
    FrontHasRoom(b, nameLen) ==> e <= |b| && Tiles(b, e, |b|)
  }

  // ... and when the other entries are still there.
  predicate KeepsEntries(b: seq<byte>, nameLen: nat) {
    var s, e := DeadStop(b, 0, Need(nameLen)), FrontEnd(b, nameLen);
    KeepsRecords(b, nameLen) && (FrontHasRoom(b, nameLen) ==> Entries(b, e, |b|) == Entries(b, s, |b|))
  }

  /** A record put over the dead ones at the beginning of a block. */
  lemma FrontAdded(b: seq<byte>, b': seq<byte>, name: seq<byte>, inode: nat, kind: byte)
    requires 1024 <= |b| && Tiles(b, 0, |b|) && FrontHasRoom(b, |name|) && inode != 0
    requires AllDead(b, 0, DeadStop(b, 0, Need(|name|))) && Need(|name|) <= DeadStop(b, 0, Need(|name|)) <= |b|
    requires var ret := NeedAt(b, 0);
             && OnlyTwo(b, b', 0, ret, ret + RECORD + |name|) && Size(b', 0) == ret
             && Size(b', ret) == DeadStop(b, 0, Need(|name|))
             && EntryAt(b', ret) == Entry(name, inode, kind) && NameLen(b', ret) == |name|
    ensures Tiles(b', 0, |b'|) <==> KeepsRecords(b, |name|)
    ensures Tiles(b', 0, |b'|) && Entries(b', 0, |b'|) == [Entry(name, inode, kind)] + Entries(b, 0, |b|)
            <==> KeepsEntries(b, |name|)
  {
    hide Size, InodeNum, NameLen, Name, Kind, Need, Tiles, AllDead, Entries, DeadStop, LeadingDead, NeedAt;
    var n, ret, stop := |b|, NeedAt(b, 0), DeadStop(b, 0, Need(|name|));
    var e := stop + ret;
    DeadTiles(b, 0, stop);
    InOrder(b, 0, stop, n);
    Together(b, 0, stop, n);
    NeedBounded(b, 0);
    FirstIsDead(b, b', stop, ret, ret + RECORD + |name|);
    TwoInFront(b', ret, stop, Entry(name, inode, kind));
    SameTail(b, b', e);
    SameBehind(Entry(name, inode, kind), Entries(b, e, n), Entries(b, stop, n));
  }

  // A dead record, a live one behind it, and the rest of the block.
  lemma TwoInFront(b: seq<byte>, ret: nat, size: nat, entry: Entry)
    requires Fits(b, 0, |b|) && !IsLive(b, 0) && Size(b, 0) == ret < |b|
    requires Size(b, ret) == size && EntryAt(b, ret) == entry && entry.inode != 0 && Need(NameLen(b, ret)) <= size
    ensures Tiles(b, 0, |b|) <==> ret + size <= |b| && Tiles(b, ret + size, |b|)
    ensures Tiles(b, 0, |b|) ==> Entries(b, 0, |b|) == [entry] + Entries(b, ret + size, |b|)
  {
    hide Size, InodeNum, NameLen, Name, Kind, Need, Tiles, Entries;
    var n := |b|;
    HeadOf(b, 0, n);
    if ret + size <= n {
      HeadOf(b, ret, n);
    } else {
      NotFitting(b, ret, n);
    }
  }

  // The first record stays dead.
  lemma FirstIsDead(b: seq<byte>, b': seq<byte>, stop: nat, ret: nat, end: nat)
    requires AllDead(b, 0, stop) && 0 < stop <= |b| && RECORD <= ret <= |b|
    requires OnlyTwo(b, b', 0, ret, end) && Size(b', 0) == ret
    ensures Fits(b', 0, |b'|) && !IsLive(b', 0)
  {
    hide Size;
    assert Num16(b', 0) == Num16(b, 0) && Num16(b', 2) == Num16(b, 2);
  }

  lemma SameBehind(x: Entry, a: seq<Entry>, b: seq<Entry>)
    ensures [x] + a == [x] + b <==> a == b
  {
    assert ([x] + a)[1..] == a && ([x] + b)[1..] == b;
  }

  lemma NotFitting(b: seq<byte>, at: nat, end: nat)
    requires at != end && at + Size(b, at) > end
    ensures !Tiles(b, at, end)
  {
  }

  // The records behind a position are the same when the bytes are.
  lemma SameTail(b: seq<byte>, b': seq<byte>, e: nat)
    requires |b'| == |b| && forall k | e <= k < |b| :: b'[k] == b[k]
    ensures e <= |b| ==> (Tiles(b', e, |b|) <==> Tiles(b, e, |b|))
    ensures e <= |b| && Tiles(b, e, |b|) ==> Entries(b', e, |b|) == Entries(b, e, |b|)
  {
    if e <= |b| && Tiles(b, e, |b|) {
      SameRecords(b, b', e, |b|);
    } else if e <= |b| && Tiles(b', e, |b|) {
      SameRecords(b', b, e, |b|);
    }
  }

  /**
   link, in one block: nothing is changed exactly when no place has the room.  Behind a live record, the new
   entry joins the others.  Over the dead records at the beginning it does so, and the records still fill the
   block, only if the new record happens to end where another one does.
   */
  method Link(table: array<byte>, name: seq<byte>, inode: nat, kind: byte) returns (ok: bool, ghost k: nat)
    requires 1024 <= table.Length < 0x1_0000 && Tiles(table[..], 0, table.Length)
    requires |name| < 0x100 && 0 < inode < 0x1_0000_0000
    modifies table
    ensures !ok <==> !FrontHasRoom(old(table[..]), |name|)
                     && forall s: nat, e: nat :: !HasRoom(old(table[..]), s, e, Need(|name|))
    ensures !ok ==> table[..] == old(table[..])
    ensures ok ==> (Tiles(table[..], 0, table.Length) <==> KeepsRecords(old(table[..]), |name|))
    ensures var (es, es') := (old(Entries(table[..], 0, table.Length)), Entries(table[..], 0, table.Length));
            && (ok && !FrontHasRoom(old(table[..]), |name|) ==>
                  k <= |es| && es' == es[..k] + [Entry(name, inode, kind)] + es[k..])
            && (ok && FrontHasRoom(old(table[..]), |name|) ==>
                  (Tiles(table[..], 0, table.Length) && es' == [Entry(name, inode, kind)] + es
                   <==> KeepsEntries(old(table[..]), |name|)))
  {
    hide InodeNum, NameLen, Need, Name, Tiles, AllDead, LeadingDead, Entries, HasRoom, Size, DeadStop, EntryAt;
    ghost var b := table[..];
    var ret, start := AllocRecord(table, |name|);
    ok, k := ret != 0, 0;
    if !ok {
      return;
    }
    ghost var e := ret + Size(table[..], ret);
    ghost var b1 := table[..];
    NewRecordInside(b, start, ret, e, |name|);
    Fill(table, ret, name, inode, kind);
    StillSized(b1, table[..], start, ret, ret + RECORD + |name|);
    if FrontHasRoom(b, |name|) {
      FrontAdded(b, table[..], name, inode, kind);
    } else {
      RecordAdded(b, table[..], start, e, name, inode, kind);
      k := |Entries(b, 0, e)|;
    }
  }

  // The bytes of the new record lie in the block.
  lemma NewRecordInside(b: seq<byte>, start: nat, ret: nat, e: nat, nameLen: nat)
    requires 1024 <= |b| && nameLen < 0x100 && ret == start + NeedAt(b, start)
    requires if FrontHasRoom(b, nameLen) then start == 0 else HasRoom(b, start, e, Need(nameLen))
    ensures start + 6 <= ret && ret + RECORD + nameLen <= |b|
  {
    hide NeedAt, LeadingDead, Tiles, AllDead;
    NeedBounded(b, start);
    if !FrontHasRoom(b, nameLen) {
      EndsInside(b, start, e, Need(nameLen));
    }
  }

  /** A block that is one dead record does not survive another name. */
  lemma OneDeadRecord(b: seq<byte>, nameLen: nat)
    requires 1024 <= |b| && nameLen < 0x100 && Fits(b, 0, |b|) && Size(b, 0) == |b| && !IsLive(b, 0)
    ensures FrontHasRoom(b, nameLen) && !KeepsRecords(b, nameLen)
  {
    hide Size, Need, NameLen, InodeNum, NeedAt;
    var need := Need(nameLen);
    NeedBounded(b, 0);
    assert LeadingDead(b, 0) >= Size(b, 0);
    StopFurther(b, 0, need);
    StopFurther(b, |b|, need);
    assert DeadStop(b, 0, need) == |b|;
  }

  /** It is what is left of a directory's new block after the first name in it is taken back. */
  method LinkAfterUnlink(table: array<byte>, first: seq<byte>, name: seq<byte>, inode: nat, inode': nat, kind: byte)
    requires 1024 <= table.Length < 0x1_0000 && |first| < 0x100 && |name| < 0x100
    requires 0 < inode < 0x1_0000_0000 && 0 < inode' < 0x1_0000_0000
    modifies table
    ensures !Tiles(table[..], 0, table.Length)
  {
    hide InodeNum, NameLen, Need, Name, Kind, LeadingDead, DeadStop, Num16;
    LinkFirst(table, first, inode, kind);
    Unlink(table, 0);
    OneDeadRecord(table[..], |name|);
    var ok, k := Link(table, name, inode', kind);
  }

  lemma EndsInside(b: seq<byte>, s: nat, e: nat, need: nat)
    requires HasRoom(b, s, e, need)
    ensures s + NeedAt(b, s) + need <= e <= |b|
  {
  }

  lemma StillSized(b: seq<byte>, b': seq<byte>, start: nat, from: nat, end: nat)
    requires |b'| == |b| && start + 6 <= from && forall k | 0 <= k < |b| && !(from <= k < end) :: b'[k] == b[k]
    requires from <= |b|
    ensures Size(b', start) == Size(b, start)
  {
  }

  /** unlink, in one block: the entry at a live record is gone, and the records still fill the block. */
  method Unlink(table: array<byte>, at: nat)
    requires Tiles(table[..], 0, at) && Fits(table[..], at, table.Length) && IsLive(table[..], at)
    requires Tiles(table[..], at, table.Length)
    modifies table
    ensures Tiles(table[..], 0, table.Length)
    ensures old(Entries(table[..], 0, table.Length)) ==
              old(Entries(table[..], 0, at)) + [old(EntryAt(table[..], at))]
              + old(Entries(table[..], at + Size(table[..], at), table.Length))
    ensures Entries(table[..], 0, table.Length) ==
              old(Entries(table[..], 0, at)) + old(Entries(table[..], at + Size(table[..], at), table.Length))
    ensures Fits(table[..], at, table.Length) && !IsLive(table[..], at) && Size(table[..], at) == old(Size(table[..], at))
  {
    hide NameLen, Need, Name, Tiles, Entries, Size;
    ghost var b := table[..];
    PutNum16(table, at, 0);
    PutNum16(table, at + 2, 0);
    RecordRemoved(b, table[..], at);
  }

  lemma RecordRemoved(b: seq<byte>, b': seq<byte>, at: nat)
    requires Tiles(b, 0, at) && Fits(b, at, |b|) && IsLive(b, at) && Tiles(b, at, |b|)
    requires |b'| == |b| && InodeNum(b', at) == 0 && forall k | 0 <= k < |b| && !(at <= k < at + 4) :: b'[k] == b[k]
    ensures Tiles(b', 0, |b'|)
    ensures Entries(b, 0, |b|) ==
              Entries(b, 0, at) + [EntryAt(b, at)] + Entries(b, at + Size(b, at), |b|)
    ensures Entries(b', 0, |b'|) == Entries(b, 0, at) + Entries(b, at + Size(b, at), |b|)
    ensures Fits(b', at, |b'|) && Size(b', at) == Size(b, at)
  {
    hide InodeNum, NameLen, Need, Name, Tiles, Entries, Size;
    var next := at + Size(b, at);
    HeadOf(b, at, |b|);
    Together(b, 0, at, |b|);
    SameRecords(b, b', 0, at);
    SameRecords(b, b', next, |b|);
    assert Size(b', at) == Size(b, at) by { SameSize(b, b', at); }
    HeadOf(b', at, |b|);
    Together(b', 0, at, |b|);
  }

  lemma SameSize(b: seq<byte>, b': seq<byte>, at: nat)
    requires |b'| == |b| && at + RECORD <= |b| && forall k | at + 4 <= k < |b| :: b'[k] == b[k]
    ensures Size(b', at) == Size(b, at)
  {
  }

  lemma HeadOf(b: seq<byte>, at: nat, end: nat)
    requires Fits(b, at, end)
    ensures Tiles(b, at, end) <==> Tiles(b, at + Size(b, at), end)
    ensures Entries(b, at, end) ==
              (if IsLive(b, at) then [EntryAt(b, at)] else []) + Entries(b, at + Size(b, at), end)
  {
  }

  /** link, in a new block: one record fills it. */
  method LinkFirst(table: array<byte>, name: seq<byte>, inode: nat, kind: byte)
    requires 1024 <= table.Length < 0x1_0000 && |name| < 0x100 && 0 < inode < 0x1_0000_0000
    modifies table
    ensures Tiles(table[..], 0, table.Length) && Entries(table[..], 0, table.Length) == [Entry(name, inode, kind)]
    ensures table[0] as nat + 0x100 * table[1] as nat + 0x1_0000 * table[2] as nat + 0x100_0000 * table[3] as nat == inode
    ensures table[4] as nat + 0x100 * table[5] as nat == table.Length
    ensures table[6] as nat == |name| && table[7] == kind && table[8..8 + |name|] == name
    ensures Fits(table[..], 0, table.Length) && IsLive(table[..], 0) && Size(table[..], 0) == table.Length
  {
    hide InodeNum, NameLen, Name, Tiles, Entries;
    Fill(table, 0, name, inode, kind);
    ghost var b := table[..];
    PutNum16(table, 4, table.Length);
    OneFill(b, table[..], name);
    OneRecord(table[..], 0, table.Length);
    RecordLayout(table[..], 0);
    assert table[8..8 + |name|] == table[..][8..8 + |name|];
  }

  lemma OneFill(b: seq<byte>, b': seq<byte>, name: seq<byte>)
    requires 1024 <= |b| == |b'| && |name| < 0x100 && NameLen(b, 0) == |name|
    requires forall k | 0 <= k < |b| && k != 4 && k != 5 :: b'[k] == b[k]
    ensures EntryAt(b', 0) == EntryAt(b, 0) && NameLen(b', 0) == NameLen(b, 0)
    ensures NeedAt(b', 0) <= 0x108
  {
    assert Num16(b', 0) == Num16(b, 0) && Num16(b', 2) == Num16(b, 2);
  }
}
