/** What a whole ext2 volume keeps: every used block belongs to exactly one owner. */
module Volumes {
  import opened Arithmetic
  import opened DiskBlocks
  import opened BlockTrees
  import opened Inodes

  type InodeTable = map<nat, InodeEntry>

  /**
   The used blocks of the volume are the disjoint union of the reserved blocks (boot block,
   superblock, group table, bitmaps, inode tables) and the blocks of all inodes in use.
   */
  ghost predicate Partitioned(d: Disk, p: nat, inodes: InodeTable, free: set<nat>, reserved: set<nat>) {
    && (forall i | i in inodes :: Sound(d, p, inodes[i], free))
    && reserved !! free
    && (forall i, b | i in inodes && b in FileBlocks(d, p, inodes[i]) :: b !in reserved)
    && (forall i, j | i in inodes && j in inodes && i != j ::
          FileBlocks(d, p, inodes[i]) !! FileBlocks(d, p, inodes[j]))
    && (forall b | 0 <= b < |d| && b !in free && b !in reserved ::
          exists i :: i in inodes && b in FileBlocks(d, p, inodes[i]))
  }

  // The file of e is the same on both disks: same blocks in the same places with the same contents.
  ghost predicate SameFile(d: Disk, d': Disk, p: nat, e: InodeEntry) {
    && Roots(d', p, e.Ptrs()) == Roots(d, p, e.Ptrs())
    && (forall b | b in FileBlocks(d, p, e) :: b < |d| && b < |d'| && d'[b] == d[b])
  }

  lemma SameFileTwice(d0: Disk, d1: Disk, d2: Disk, p: nat, e: InodeEntry)
    requires SameFile(d0, d1, p, e) && SameFile(d1, d2, p, e)
    ensures SameFile(d0, d2, p, e)
  {
  }

  // All files but one are the same on both disks.
  ghost predicate SameFilesBut(d: Disk, d': Disk, p: nat, inodes: InodeTable, ino: nat) {
    forall j | j in inodes && j != ino :: SameFile(d, d', p, inodes[j])
  }

  // ... and so are their entries.
  ghost predicate FilesKept(d: Disk, d': Disk, p: nat, inodes: InodeTable, inodes': InodeTable, ino: nat) {
    forall j | j in inodes && j != ino :: j in inodes' && inodes'[j] == inodes[j] && SameFile(d, d', p, inodes[j])
  }

  lemma SameFilesTwice(d0: Disk, d1: Disk, d2: Disk, p: nat, inodes: InodeTable, ino: nat)
    requires SameFilesBut(d0, d1, p, inodes, ino) && SameFilesBut(d1, d2, p, inodes, ino)
    ensures SameFilesBut(d0, d2, p, inodes, ino)
  {
    forall j | j in inodes && j != ino
      ensures SameFile(d0, d2, p, inodes[j])
    {
      SameFileTwice(d0, d1, d2, p, inodes[j]);
    }
  }

  // Writing one inode's pointer blocks, or free blocks, leaves another inode's file alone.
  lemma OtherFile(d: Disk, d': Disk, p: nat, e: InodeEntry, other: InodeEntry, free: set<nat>)
    requires p > 0 && Sound(d, p, e, free) && Sound(d, p, other, free)
    requires FileBlocks(d, p, e) !! FileBlocks(d, p, other)
    requires SameElsewhere(d, d', FileInner(d, p, e), free)
    ensures SameFile(d, d', p, other)
  {
    forall b | b in FileBlocks(d, p, other)
      ensures b < |d| && d'[b] == d[b]
    {
      assert b !in FileBlocks(d, p, e);
    }
    forall b | b in FileInner(d, p, other)
      ensures b < |d| && d'[b] == d[b]
    {
      assert b in FileBlocks(d, p, other);
    }
    SameBlocksSameFile(d, d', p, other);
  }

  lemma SameBlocksSameFile(d: Disk, d': Disk, p: nat, e: InodeEntry)
    requires p > 0 && |d'| == |d|
    requires forall b | b in FileInner(d, p, e) :: b < |d| && d'[b] == d[b]
    ensures Roots(d', p, e.Ptrs()) == Roots(d, p, e.Ptrs())
  {
    var ts := Roots(d, p, e.Ptrs());
    forall i | 0 <= i < |ts|
      ensures TreeAt(d', p, e.Ptrs()[i], Height(i)) == ts[i]
    {
      assert ts[i] == TreeAt(d, p, e.Ptrs()[i], Height(i));
      InnerSplitAt(ts, i);
      assert forall b | b in Inner(ts[i]) :: b in FileInner(d, p, e);
      TreeFrame(d, d', p, e.Ptrs()[i], Height(i));
    }
  }

  // The blocks that are free or belong to one inode stay the same ones.
  ghost predicate OneOwnerChanged(d: Disk, d': Disk, p: nat, e: InodeEntry, e': InodeEntry, free: set<nat>,
                                  free': set<nat>) {
    forall b :: (b in FileBlocks(d', p, e') || b in free') <==> (b in FileBlocks(d, p, e) || b in free)
  }

  // ... and sound, when the free set changed by blocks of the first inode only.
  lemma OtherSound(d: Disk, d': Disk, p: nat, e: InodeEntry, e': InodeEntry, other: InodeEntry, free: set<nat>,
                   free': set<nat>)
    requires p > 0 && Sound(d, p, e, free) && Sound(d, p, other, free)
    requires FileBlocks(d, p, e) !! FileBlocks(d, p, other)
    requires SameElsewhere(d, d', FileInner(d, p, e), free) && OneOwnerChanged(d, d', p, e, e', free, free')
    ensures SameFile(d, d', p, other) && Sound(d', p, other, free')
    ensures FileBlocks(d', p, other) == FileBlocks(d, p, other) && FileBlocks(d', p, other) !! FileBlocks(d', p, e')
  {
    hide TreeAt, Data, Inner, Blocks;
    OtherFile(d, d', p, e, other, free);
    forall b | b in FileBlocks(d, p, other)
      ensures b !in free' && b !in FileBlocks(d', p, e')
    {
      assert b !in FileBlocks(d, p, e);
    }
  }

  /** One inode gains or loses blocks, all of them from or to the free set. */
  lemma PartitionKept(d: Disk, d': Disk, p: nat, inodes: InodeTable, ino: nat, e': InodeEntry,
                      free: set<nat>, free': set<nat>, reserved: set<nat>)
    requires p > 0 && Partitioned(d, p, inodes, free, reserved) && ino in inodes && Sound(d', p, e', free')
    requires SameElsewhere(d, d', FileInner(d, p, inodes[ino]), free)
    requires OneOwnerChanged(d, d', p, inodes[ino], e', free, free')
    ensures Partitioned(d', p, inodes[ino := e'], free', reserved)
    ensures forall j | j in inodes && j != ino :: SameFile(d, d', p, inodes[j])
  {
    hide Sound, SameFile, FileBlocks, FileInner;
    var e, inodes' := inodes[ino], inodes[ino := e'];
    forall j | j in inodes && j != ino
      ensures SameFile(d, d', p, inodes[j]) && Sound(d', p, inodes[j], free')
      ensures FileBlocks(d', p, inodes[j]) == FileBlocks(d, p, inodes[j])
      ensures FileBlocks(d', p, inodes[j]) !! FileBlocks(d', p, e')
    {
      OtherSound(d, d', p, e, e', inodes[j], free, free');
    }
    forall b | 0 <= b < |d'| && b !in free' && b !in reserved
      ensures exists i :: i in inodes' && b in FileBlocks(d', p, inodes'[i])
    {
      if b in FileBlocks(d', p, e') {
        assert inodes'[ino] == e';
      } else {
        var i :| i in inodes && b in FileBlocks(d, p, inodes[i]);
        assert inodes'[i] == inodes[i];
      }
    }
    forall i, b | i in inodes' && b in FileBlocks(d', p, inodes'[i])
      ensures b !in reserved
    {
      assert i != ino ==> b in FileBlocks(d, p, inodes[i]);
      assert i == ino ==> b in FileBlocks(d, p, e) || b in free;
    }
  }

  // Only the pointers of an entry matter for its file.
  lemma SamePtrs(d: Disk, p: nat, e: InodeEntry, e': InodeEntry, free: set<nat>)
    requires e'.direct == e.direct && e'.Ptrs() == e.Ptrs()
    ensures FileData(d, p, e') == FileData(d, p, e) && FileBlocks(d, p, e') == FileBlocks(d, p, e)
    ensures FileInner(d, p, e') == FileInner(d, p, e)
    ensures Sound(d, p, e, free) ==> Sound(d, p, e', free)
  {
  }

  lemma PartitionSamePtrs(d: Disk, p: nat, inodes: InodeTable, ino: nat, e': InodeEntry, free: set<nat>,
                          reserved: set<nat>)
    requires Partitioned(d, p, inodes, free, reserved) && ino in inodes
    requires e'.direct == inodes[ino].direct && e'.Ptrs() == inodes[ino].Ptrs()
    ensures Partitioned(d, p, inodes[ino := e'], free, reserved)
  {
    hide Sound, FileBlocks, InodeEntry.Ptrs;
    var inodes' := inodes[ino := e'];
    SamePtrs(d, p, inodes[ino], e', free);
    forall b | 0 <= b < |d| && b !in free && b !in reserved
      ensures exists i :: i in inodes' && b in FileBlocks(d, p, inodes'[i])
    {
      var i :| i in inodes && b in FileBlocks(d, p, inodes[i]);
      assert FileBlocks(d, p, inodes'[i]) == FileBlocks(d, p, inodes[i]);
    }
  }

  // A new inode without blocks, and one without blocks that goes away.
  lemma PartitionWith(d: Disk, p: nat, inodes: InodeTable, ino: nat, e: InodeEntry, free: set<nat>, reserved: set<nat>)
    requires Partitioned(d, p, inodes, free, reserved) && ino !in inodes
    requires Sound(d, p, e, free) && FileBlocks(d, p, e) == multiset{}
    ensures Partitioned(d, p, inodes[ino := e], free, reserved)
  {
    hide Sound, FileBlocks;
    var inodes' := inodes[ino := e];
    forall b | 0 <= b < |d| && b !in free && b !in reserved
      ensures exists i :: i in inodes' && b in FileBlocks(d, p, inodes'[i])
    {
      var i :| i in inodes && b in FileBlocks(d, p, inodes[i]);
      assert inodes'[i] == inodes[i];
    }
  }

  lemma PartitionWithout(d: Disk, p: nat, inodes: InodeTable, ino: nat, free: set<nat>, reserved: set<nat>)
    requires Partitioned(d, p, inodes, free, reserved) && ino in inodes
    requires FileBlocks(d, p, inodes[ino]) == multiset{}
    ensures Partitioned(d, p, inodes - {ino}, free, reserved)
  {
    hide Sound, FileBlocks;
    var inodes' := inodes - {ino};
    forall b | 0 <= b < |d| && b !in free && b !in reserved
      ensures exists i :: i in inodes' && b in FileBlocks(d, p, inodes'[i])
    {
      var i :| i in inodes && b in FileBlocks(d, p, inodes[i]);
      assert inodes'[i] == inodes[i];
    }
  }

  // An entry whose fifteen pointers are 0.
  lemma ZeroEntry(d: Disk, p: nat, e: InodeEntry, free: set<nat>)
    requires p > 0 && |e.direct| == 12 && forall i | 0 <= i < 15 :: e.Ptrs()[i] == 0
    ensures Sound(d, p, e, free) && FileData(d, p, e) == [] && FileBlocks(d, p, e) == multiset{}
  {
    AllEmpty(Roots(d, p, e.Ptrs()));
  }

  /** The number of blocks a file of some size needs. */
  function BlockCount(size: nat, blockSize: nat): nat
    requires blockSize > 0
  {
    size / blockSize + if size % blockSize != 0 then 1 else 0
  }

  // An entry's 32-bit size field agrees with the blocks of a file exactly when the size fits into it.
  lemma SizeFieldWraps(size: nat, blockSize: nat)
    requires 0 < blockSize <= 0x1_0000_0000
    ensures BlockCount(size % 0x1_0000_0000, blockSize) == BlockCount(size, blockSize) <==> size < 0x1_0000_0000
  {
    if size >= 0x1_0000_0000 {
      FewerBlocks(size % 0x1_0000_0000, size, blockSize);
    }
  }

  lemma EnoughBlocks(size: nat, blockSize: nat)
    requires blockSize > 0
    ensures size <= BlockCount(size, blockSize) * blockSize
  {
    DivModIdentity(size, blockSize);
    OneMore(size / blockSize, blockSize);
  }

  lemma NotMoreBlocks(blocks: nat, size: nat, blockSize: nat)
    requires blockSize > 0 && blocks < BlockCount(size, blockSize)
    ensures blocks * blockSize <= size
  {
    DivModIdentity(size, blockSize);
    MulMonotone(blocks, size / blockSize, blockSize);
  }

  lemma CountOfSum(blocks: nat, rest: nat, blockSize: nat)
    requires blockSize > 0
    ensures BlockCount(blocks * blockSize + rest, blockSize) == blocks + BlockCount(rest, blockSize)
  {
    DivModIdentity(rest, blockSize);
    DivModUnique(blocks + rest / blockSize, blockSize, rest % blockSize);
    assert blocks * blockSize + rest == (blocks + rest / blockSize) * blockSize + rest % blockSize;
  }

  lemma CountInside(size: nat, blockSize: nat, blocks: nat)
    requires blockSize > 0 && size < blocks * blockSize
    ensures BlockCount(size, blockSize) <= blocks
    ensures BlockCount(size, blockSize) == blocks ==> (blocks - 1) * blockSize < size
  {
    DivModIdentity(size, blockSize);
    DivLess(size, blocks, blockSize);
  }

  // A size in the last of so many blocks is no multiple of their number.
  lemma LastBlock(size: nat, blockSize: nat, blocks: nat)
    requires 0 < blockSize <= blocks && (blocks - 1) * blockSize < size < blocks * blockSize
    ensures 0 < size % blocks && blocks <= size
  {
    var r := blocks * blockSize - size;
    OneMore(blocks - 1, blockSize);
    assert 0 < r < blockSize;
    OneMore(blockSize - 1, blocks);
    assert size == (blockSize - 1) * blocks + (blocks - r);
    DivModUnique(blockSize - 1, blocks, blocks - r);
    MulMonotone(1, blockSize - 1, blocks);
  }

  lemma SomeBlock(size: nat, blockSize: nat)
    requires blockSize > 0 && size > 0
    ensures BlockCount(size, blockSize) > 0
  {
    DivModIdentity(size, blockSize);
  }

  // What whole rounds of the size field and the block count add.
  lemma WholeRounds(q: nat, s: nat, blockSize: nat, w: nat)
    requires blockSize > 0 && w > 0
    ensures (q * (blockSize * w) + s) % w == s % w
    ensures BlockCount(q * (blockSize * w) + s, blockSize) == q * w + BlockCount(s, blockSize)
  {
    DivModIdentity(s, w);
    assert q * (blockSize * w) == q * blockSize * w;
    assert q * blockSize * w + s / w * w == (q * blockSize + s / w) * w;
    DivModUnique(q * blockSize + s / w, w, s % w);
    assert q * (blockSize * w) == q * w * blockSize;
    CountOfSum(q * w, s, blockSize);
  }

  lemma RestWraps(s: nat, blockSize: nat)
    requires 0 < blockSize <= 0x1_0000_0000 && s < blockSize * 0x1_0000_0000
    ensures BlockCount(s % 0x1_0000_0000, blockSize) == BlockCount(s, blockSize) % 0x1_0000_0000 <==> s < 0x1_0000_0000
  {
    hide BlockCount;
    CountInside(s, blockSize, 0x1_0000_0000);
    if BlockCount(s, blockSize) < 0x1_0000_0000 {
      SizeFieldWraps(s, blockSize);
    } else {
      LastBlock(s, blockSize, 0x1_0000_0000);
      SomeBlock(s % 0x1_0000_0000, blockSize);
    }
  }

  lemma ModOfSum(q: nat, w: nat, c: nat)
    requires w > 0
    ensures (q * w + c) % w == c % w
  {
    DivModIdentity(c, w);
    DivModUnique(q + c / w, w, c % w);
    assert q * w + c == (q + c / w) * w + c % w;
  }

  lemma RoundsWrap(q: nat, s: nat, blockSize: nat, round: nat)
    requires 0 < blockSize <= 0x1_0000_0000 && round == blockSize * 0x1_0000_0000 && s < round
    ensures var size := q * round + s;
            BlockCount(size % 0x1_0000_0000, blockSize) == BlockCount(size, blockSize) % 0x1_0000_0000 <==> s < 0x1_0000_0000
  {
    hide BlockCount;
    WholeRounds(q, s, blockSize, 0x1_0000_0000);
    ModOfSum(q, 0x1_0000_0000, BlockCount(s, blockSize));
    RestWraps(s, blockSize);
  }

  // A size without the whole rounds that a block count of 32 bits makes.
  function WithoutRounds(size: nat, blockSize: nat): nat
    requires blockSize > 0
  {
    size % (blockSize * 0x1_0000_0000)
  }

  lemma RoundAndRest(size: nat, round: nat) returns (q: nat)
    requires round > 0
    ensures size == q * round + size % round && size % round < round
    ensures size < round ==> size % round == size
  {
    q := size / round;
    DivModIdentity(size, round);
    if size < round {
      DivModUnique(0, round, size);
    }
  }

  lemma RoundsAndRest(size: nat, blockSize: nat) returns (q: nat)
    requires blockSize > 0
    ensures size == q * (blockSize * 0x1_0000_0000) + WithoutRounds(size, blockSize)
    ensures WithoutRounds(size, blockSize) < blockSize * 0x1_0000_0000
    ensures size < blockSize * 0x1_0000_0000 ==> WithoutRounds(size, blockSize) == size
  {
    q := RoundAndRest(size, blockSize * 0x1_0000_0000);
  }

  // A block count of 32 bits and a size field of 32 bits agree when they wrap the same number of times.
  lemma CountWraps(size: nat, blockSize: nat)
    requires 0 < blockSize <= 0x1_0000_0000
    ensures BlockCount(size % 0x1_0000_0000, blockSize) == BlockCount(size, blockSize) % 0x1_0000_0000
            <==> WithoutRounds(size, blockSize) < 0x1_0000_0000
  {
    hide BlockCount, WithoutRounds;
    var q := RoundsAndRest(size, blockSize);
    RoundsWrap(q, WithoutRounds(size, blockSize), blockSize, blockSize * 0x1_0000_0000);
  }

  lemma MoreBlocks(a: nat, b: nat, m: nat)
    requires m > 0 && a <= b
    ensures BlockCount(a, m) <= BlockCount(b, m)
  {
    DivModIdentity(a, m);
    DivModIdentity(b, m);
    DivMonotone(a, b, m);
  }

  lemma FewerBlocks(a: nat, b: nat, m: nat)
    requires m > 0 && a + m <= b
    ensures BlockCount(a, m) < BlockCount(b, m)
  {
    var (qa, qb) := (a / m, b / m);
    DivModIdentity(a, m);
    DivModIdentity(b, m);
    OneMore(qa, m);
    DivModUnique(qa + 1, m, a % m);
    DivMonotone(a + m, b, m);
  }

  lemma PartitionSameRoots(d: Disk, d': Disk, p: nat, inodes: InodeTable, free: set<nat>, reserved: set<nat>)
    requires Partitioned(d, p, inodes, free, reserved) && |d'| == |d|
    requires forall i | i in inodes :: Roots(d', p, inodes[i].Ptrs()) == Roots(d, p, inodes[i].Ptrs())
    ensures Partitioned(d', p, inodes, free, reserved)
  {
    hide Roots, InodeEntry.Ptrs, BlocksAll, Prefixed, Owned;
    assert forall i | i in inodes :: FileBlocks(d', p, inodes[i]) == FileBlocks(d, p, inodes[i]);
  }

  // Writing one data block of a file leaves every tree of the volume, and all other files, alone.
  lemma DataWriteKeepsPartition(d: Disk, d': Disk, p: nat, inodes: InodeTable, ino: nat, b: nat,
                                free: set<nat>, reserved: set<nat>)
    requires p > 0 && Partitioned(d, p, inodes, free, reserved) && ino in inodes && b in FileData(d, p, inodes[ino])
    requires |d'| == |d| && forall c | 0 <= c < |d| && c != b :: d'[c] == d[c]
    ensures Partitioned(d', p, inodes, free, reserved)
    ensures FileData(d', p, inodes[ino]) == FileData(d, p, inodes[ino])
    ensures forall j | j in inodes && j != ino :: SameFile(d, d', p, inodes[j])
  {
    hide Roots, InodeEntry.Ptrs, Sound;
    forall j | j in inodes
      ensures Roots(d', p, inodes[j].Ptrs()) == Roots(d, p, inodes[j].Ptrs())
      ensures j != ino ==> SameFile(d, d', p, inodes[j])
    {
      NotInOtherFile(d, p, inodes, ino, j, b, free, reserved);
      SameBlocksSameFile(d, d', p, inodes[j]);
    }
    PartitionSameRoots(d, d', p, inodes, free, reserved);
  }

  lemma NotInOtherFile(d: Disk, p: nat, inodes: InodeTable, ino: nat, j: nat, b: nat, free: set<nat>,
                       reserved: set<nat>)
    requires Partitioned(d, p, inodes, free, reserved) && ino in inodes && j in inodes
    requires b in FileData(d, p, inodes[ino])
    ensures b !in FileInner(d, p, inodes[j]) && forall c | c in FileBlocks(d, p, inodes[j]) :: c < |d|
    ensures forall c | c in FileInner(d, p, inodes[j]) :: c < |d|
    ensures j != ino ==> b !in FileBlocks(d, p, inodes[j])
  {
    hide Roots, InodeEntry.Ptrs, Prefixed;
    assert b in FileBlocks(d, p, inodes[ino]);
    assert forall c | c in FileInner(d, p, inodes[j]) :: c in FileBlocks(d, p, inodes[j]);
    DataBlocksDistinct(d, p, inodes[ino], free);
  }
}
