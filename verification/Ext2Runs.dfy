/** Whole runs of inode operations on an ext2 volume. */
module Ext2Runs {
  import opened Arithmetic
  import opened DiskBlocks
  import opened FileBytes
  import opened BlockTrees
  import opened Growth
  import opened Inodes
  import opened UsageBitmaps
  import opened Volumes
  import opened Ext2

  // What the kernel asks of a volume: create_inode, resize_inode, remove_inode and write_inode_blocks.
  datatype Op =
    | Create(mode: nat, uid: nat, gid: nat)
    | Resize(ino: nat, size: nat)
    | Remove(ino: nat)
    | Write(ino: nat, offset: nat, buf: seq<byte>, count: nat)

  // An operation on an inode other than ino.
  predicate LeavesAlone(op: Op, ino: nat) {
    op.Create? || op.ino != ino
  }

  // The size of a file agrees with its blocks, and so do its sectors of 512 bytes.
  ghost predicate EntryOk(d: Disk, p: nat, blockSize: nat, e: InodeEntry)
    requires blockSize > 0
  {
    && |FileData(d, p, e)| == BlockCount(e.size, blockSize)
    && (blockSize % 512 == 0 ==> 512 * e.sizeSectors == |FileData(d, p, e)| * blockSize)
  }

  ghost predicate SizesOk(d: Disk, p: nat, blockSize: nat, inodes: InodeTable) {
    blockSize > 0 && forall i | i in inodes :: EntryOk(d, p, blockSize, inodes[i])
  }

  ghost predicate AllSizesOk(fs: Ext2FileSystem)
    reads fs
  {
    SizesOk(fs.disk, fs.p, fs.blockSize, fs.inodes)
  }

  // A request below the 4 GiB that the size field can hold is granted below it.
  lemma GrantFits(blocks: nat, size: nat, blockSize: nat)
    requires blockSize > 0 && size < 0x1_0000_0000 && blocks <= BlockCount(size, blockSize)
    ensures BlockCount(size, blockSize) < 0x1_0000_0000
    ensures blocks != BlockCount(size, blockSize) ==> blocks * blockSize < 0x1_0000_0000
  {
    DivModIdentity(size, blockSize);
    MulMonotone(1, blockSize, size / blockSize);
    MulMonotone(blocks, size / blockSize, blockSize);
  }

  // A file that stays the same keeps its size right.
  lemma SameFileSameSize(d: Disk, d': Disk, p: nat, e: InodeEntry)
    requires SameFile(d, d', p, e)
    ensures FileData(d', p, e) == FileData(d, p, e)
  {
  }

  lemma SizesKept(d: Disk, d': Disk, p: nat, blockSize: nat, inodes: InodeTable, inodes': InodeTable, ino: nat)
    requires SizesOk(d, p, blockSize, inodes) && FilesKept(d, d', p, inodes, inodes', ino)
    requires forall j | j in inodes' && j != ino :: j in inodes
    requires ino in inodes' ==> EntryOk(d', p, blockSize, inodes'[ino])
    ensures SizesOk(d', p, blockSize, inodes')
  {
    hide FileData, SameFile, BlockCount;
    forall j | j in inodes' && j != ino
      ensures EntryOk(d', p, blockSize, inodes'[j])
    {
      SameFileSameSize(d, d', p, inodes[j]);
    }
  }

  // A disk of blocks of one size that a bitmap of the given geometry can describe.
  ghost predicate Formattable(blksizeBits: nat, disk: Disk, blockGeo: Geometry, inodeGeo: Geometry) {
    && 2 <= blksizeBits && Pow(2, blksizeBits) <= 0x1_0000_0000 && |disk| <= blockGeo.Count() && |disk| <= 0x1_0000_0000
    && (forall b | 0 <= b < |disk| :: |disk[b]| == Pow(2, blksizeBits))
    && blockGeo.Valid() && blockGeo.firstNum == 0 && blockGeo.numPerGroup == blockGeo.blocksPerGroup
    && inodeGeo.Valid() && inodeGeo.firstNum == 1 && inodeGeo.SameNumbering()
  }

  lemma FourWords(bits: nat)
    requires 2 <= bits
    ensures Pow(2, bits) == 4 * (Pow(2, bits) / 4) && 4 <= Pow(2, bits)
  {
    assert Pow(2, bits) == 4 * Pow(2, bits - 2);
    PowPositive(2, bits - 2);
  }

  // A bitmap whose free units are those from one to another.
  method ReleaseAll(geo: Geometry, from: nat, to: nat) returns (m: UsageBitmap)
    requires geo.Valid() && geo.SameNumbering() && (geo.firstNum == 0 ==> from > 0)
    requires forall n | from <= n < to :: geo.IsUnit(n)
    ensures m.Valid() && m.geo == geo && fresh(m) && fresh(m.bits) && fresh(m.groupFree)
    ensures forall n: nat :: n in m.free <==> from <= n < to
  {
    hide BitTaken;
    m := new UsageBitmap.Full(geo);
    var n := from;
    while n < to
      invariant from <= n && (n <= to || n == from)
      invariant m.Valid() && m.geo == geo && fresh(m) && fresh(m.bits) && fresh(m.groupFree)
      invariant forall i: nat :: i in m.free <==> from <= i < n
    {
      geo.UnitReleases(n);
      geo.UnitGroup(n);
      m.Dealloc(n + geo.firstNum);
      n := n + 1;
    }
  }

  ghost function FirstNumbers(n: nat): (s: set<nat>)
    ensures forall i: nat :: i in s <==> i < n
  {
    if n == 0 then {} else FirstNumbers(n - 1) + {n - 1}
  }

  /** Runs have a start: a volume without files, whose first blocks hold the metadata and whose others are free. */
  method Format(blksizeBits: nat, disk: Disk, blockGeo: Geometry, inodeGeo: Geometry, used: nat, numInodes: nat)
    returns (fs: Ext2FileSystem)
    requires Formattable(blksizeBits, disk, blockGeo, inodeGeo) && used > 0
    requires forall n | 0 <= n < numInodes :: inodeGeo.IsUnit(n)
    ensures fresh(fs) && fs.Consistent() && AllSizesOk(fs) && fs.disk == disk && fs.inodes == map[]
    ensures fs.blockSize == Pow(2, blksizeBits) && fs.blockMap.geo == blockGeo && fs.inodeMap.geo == inodeGeo
    ensures forall b: nat :: (b in fs.reserved <==> b < used) && (b in fs.Free() <==> used <= b < |disk|)
    ensures forall n: nat :: n in fs.inodeMap.free <==> n < numInodes
  {
    hide UsageBitmap.Valid, Geometry.Valid;
    assert blockGeo.SameNumbering();
    forall b | used <= b < |disk|
      ensures blockGeo.Valid() && blockGeo.IsUnit(b)
    {
      BlockIsUnit(blockGeo, b);
    }
    FourWords(blksizeBits);
    var blockMap := ReleaseAll(blockGeo, used, |disk|);
    var inodeMap := ReleaseAll(inodeGeo, 0, numInodes);
    fs := new Ext2FileSystem(blksizeBits, blockMap, inodeMap, disk, map[], FirstNumbers(used));
  }

  lemma BlockIsUnit(geo: Geometry, b: nat)
    requires geo.Valid() && geo.numPerGroup == geo.blocksPerGroup && b < geo.Count()
    ensures geo.IsUnit(b)
  {
  }

  predicate MayResize(fs: Ext2FileSystem, ino: nat, size: nat)
    reads fs
  {
    && fs.blockSize > 0 && fs.p > 0 && ino in fs.inodes && size < 0x1_0000_0000
    && fs.Resizable(BlockCount(fs.inodes[ino].size, fs.blockSize), fs.Wanted(size))
  }

  // The sectors of a file below 4 GiB fit into their field.
  lemma EntryIsOk(fs: Ext2FileSystem, ino: nat)
    requires 0 < fs.blockSize <= 0x1_0000_0000 && ino in fs.inodes && fs.SizeOk(ino)
    requires fs.blockSize % 512 == 0 ==>
               var n := |FileData(fs.disk, fs.p, fs.inodes[ino])|;
               (fs.SectorsOf(fs.inodes[ino], n) <==> n * fs.blockSize < 0x200_0000_0000)
    ensures EntryOk(fs.disk, fs.p, fs.blockSize, fs.inodes[ino])
  {
    hide FileData;
    var size, n := fs.inodes[ino].size, |FileData(fs.disk, fs.p, fs.inodes[ino])|;
    DivModIdentity(size, fs.blockSize);
    MulMonotone(n, size / fs.blockSize + 1, fs.blockSize);
  }

  // The file has as many blocks as it can have of those that were asked for, and the size to be known before.
  ghost predicate Resized(d: Disk, d': Disk, p: nat, e: InodeEntry, e': InodeEntry, free: set<nat>, blocks: nat, size: nat) {
    var (data, data') := (FileData(d, p, e), FileData(d', p, e'));
    && |data'| == blocks && e'.size as nat == size && e'.SameAttributes(e)
    && (if blocks <= |data| then data' <= data else data <= data' && NewFrom(data, data', free))
    && forall b | b in data :: b < |d| && b < |d'| && d'[b] == d[b]
  }

  lemma ResizedIf(d: Disk, d': Disk, p: nat, e: InodeEntry, e': InodeEntry, free: set<nat>, m: nat)
    requires var (n, n') := (|FileData(d, p, e)|, |FileData(d', p, e')|);
             && (m <= n ==> n' == m && FileData(d', p, e') <= FileData(d, p, e))
             && (m >= n ==> n <= n' && FileData(d, p, e) <= FileData(d', p, e') && NewFrom(FileData(d, p, e), FileData(d', p, e'), free))
    requires |d'| == |d| && e'.SameAttributes(e) && forall b | b in FileData(d, p, e) :: b < |d'| && d'[b] == d[b]
    ensures Resized(d, d', p, e, e', free, |FileData(d', p, e')|, e'.size)
  {
    hide FileData;
  }

  method Resize(fs: Ext2FileSystem, ino: nat, size: nat) returns (newSize: nat)
    requires fs.Consistent() && AllSizesOk(fs) && MayResize(fs, ino, size)
    modifies fs`disk, fs`inodes, fs.BitmapParts()
    ensures fs.Consistent() && AllSizesOk(fs) && ino in fs.inodes && fs.inodes.Keys == old(fs.inodes.Keys)
    ensures FilesKept(old(fs.disk), fs.disk, fs.p, old(fs.inodes), fs.inodes, ino)
    ensures OneOwnerChanged(old(fs.disk), fs.disk, fs.p, old(fs.inodes[ino]), fs.inodes[ino], old(fs.Free()), fs.Free())
    ensures newSize == old(fs.WillGrant(ino, size)) && fs.inodes[ino].SameAttributes(old(fs.inodes[ino]))
    ensures Resized(old(fs.disk), fs.disk, fs.p, old(fs.inodes[ino]), fs.inodes[ino], old(fs.Free()),
                    old(fs.WillHave(ino, fs.Wanted(size))), newSize)
    ensures size == 0 ==> FileData(fs.disk, fs.p, fs.inodes[ino]) == []
  {
    hide Ext2FileSystem.Consistent, SameFile, FileData, BlockCount, OneOwnerChanged, Resized, EntryOk, NewFrom;
    hide Ext2FileSystem.Granted, Ext2FileSystem.WillHave, Ext2FileSystem.Room, FileNeeds, Base, Ext2FileSystem.SectorsOf, WithoutRounds;
    fs.Geometric();
    SizeIsOk(fs, ino);
    NoBytesNoBlocks(fs.blockSize);
    ghost var d, inodes, free, m := fs.disk, fs.inodes, fs.Free(), fs.Wanted(size);
    GrantIs(fs, fs.WillHave(ino, m), size);
    newSize := fs.ResizeInode(ino, size);
    EntryIsOk(fs, ino);
    SizesKept(d, fs.disk, fs.p, fs.blockSize, inodes, fs.inodes, ino);
    ResizedIf(d, fs.disk, fs.p, inodes[ino], fs.inodes[ino], free, m);
  }

  // A request below 4 GiB is not cut off in the 32 bits of the answer.
  lemma GrantIs(fs: Ext2FileSystem, blocks: nat, size: nat)
    requires 0 < fs.blockSize && fs.blockSize >= 4 && size < 0x1_0000_0000
    ensures fs.Wanted(size) == BlockCount(size, fs.blockSize)
    ensures blocks == fs.Wanted(size) ==> fs.Granted(blocks, size) == size
    ensures blocks <= fs.Wanted(size) ==> fs.Granted(blocks, size) % 0x1_0000_0000 == fs.Granted(blocks, size) < 0x1_0000_0000
  {
    fs.WantedIs32(size);
    if blocks <= fs.Wanted(size) {
      GrantFits(blocks, size, fs.blockSize);
    }
  }

  method Remove(fs: Ext2FileSystem, ino: nat)
    requires fs.Consistent() && AllSizesOk(fs) && ino in fs.inodes
    modifies fs`disk, fs`inodes, fs.BitmapParts(), fs.InodeParts()
    ensures fs.Consistent() && AllSizesOk(fs) && fs.inodes.Keys == old(fs.inodes.Keys) - {ino}
    ensures FilesKept(old(fs.disk), fs.disk, fs.p, old(fs.inodes), fs.inodes, ino)
    ensures fs.inodeMap.free == old(fs.inodeMap.free) + {ino - 1}
    ensures forall b :: b in fs.Free() <==> b in old(fs.Free()) || b in old(FileBlocks(fs.disk, fs.p, fs.inodes[ino]))
  {
    hide Ext2FileSystem.Consistent, SameFile, FileData, BlockCount, FileBlocks, EntryOk;
    SizeIsOk(fs, ino);
    ghost var d, inodes := fs.disk, fs.inodes;
    fs.RemoveInode(ino);
    SizesKept(d, fs.disk, fs.p, fs.blockSize, inodes, fs.inodes, ino);
  }

  lemma SizeIsOk(fs: Ext2FileSystem, ino: nat)
    requires AllSizesOk(fs) && ino in fs.inodes
    ensures fs.blockSize > 0 && fs.SizeOk(ino)
  {
    hide FileData, BlockCount;
    assert EntryOk(fs.disk, fs.p, fs.blockSize, fs.inodes[ino]);
  }

  method Write(fs: Ext2FileSystem, ino: nat, offset: nat, buf: seq<byte>, count: nat) returns (n: nat)
    requires fs.Consistent() && AllSizesOk(fs) && ino in fs.inodes
    requires offset + count <= Base(fs.p, 15) && |buf| == count * fs.blockSize
    modifies fs`disk
    ensures fs.Consistent() && AllSizesOk(fs)
    ensures FilesKept(old(fs.disk), fs.disk, fs.p, old(fs.inodes), fs.inodes, ino)
    ensures fs.FileList(ino) == old(fs.FileList(ino))
    ensures n <= count && (n < count ==> offset + n >= |fs.FileList(ino)|)
    ensures if n == 0 then fs.disk == old(fs.disk)
            else Spliced(old(fs.Content(ino)), fs.Content(ino), offset * fs.blockSize, Cut(buf, 0, n * fs.blockSize))
  {
    hide Ext2FileSystem.Consistent, SameFile, FileData, BlockCount, Bytes, EntryOk;
    ghost var d, inodes := fs.disk, fs.inodes;
    n := fs.WriteInodeBlocks(ino, offset, buf, count);
    SameDataOk(d, fs.disk, fs.p, fs.blockSize, fs.inodes, ino);
    SizesKept(d, fs.disk, fs.p, fs.blockSize, inodes, fs.inodes, ino);
  }

  lemma SameDataOk(d: Disk, d': Disk, p: nat, blockSize: nat, inodes: InodeTable, ino: nat)
    requires SizesOk(d, p, blockSize, inodes) && ino in inodes && FileData(d', p, inodes[ino]) == FileData(d, p, inodes[ino])
    ensures EntryOk(d', p, blockSize, inodes[ino])
  {
    hide FileData, BlockCount;
    assert EntryOk(d, p, blockSize, inodes[ino]);
  }

  lemma SameDisk(fs: Ext2FileSystem)
    requires fs.Consistent()
    ensures forall j | j in fs.inodes :: SameFile(fs.disk, fs.disk, fs.p, fs.inodes[j])
  {
    fs.OthersSame();
  }

  // The entry of a new file.
  function NewEntry(mode: nat, uid: nat, gid: nat): InodeEntry {
    InodeEntry(mode, uid, gid, 0, 0, 0, seq(12, _ => 0), 0, 0, 0)
  }

  method Create(fs: Ext2FileSystem, mode: nat, uid: nat, gid: nat) returns (ino: nat)
    requires fs.Consistent() && AllSizesOk(fs)
    modifies fs`inodes, fs.InodeParts()
    ensures fs.Consistent() && AllSizesOk(fs)
    ensures ino == 0 <==> old(fs.inodeMap.free) == {}
    ensures ino == 0 ==> fs.inodes == old(fs.inodes) && fs.inodeMap.free == old(fs.inodeMap.free)
    ensures ino != 0 ==>
              && ino !in old(fs.inodes) && ino - 1 in old(fs.inodeMap.free) && (forall m | m in old(fs.inodeMap.free) :: ino - 1 <= m)
              && fs.inodeMap.free == old(fs.inodeMap.free) - {ino - 1}
              && fs.inodes == old(fs.inodes)[ino := NewEntry(mode, uid, gid)] && FileData(fs.disk, fs.p, fs.inodes[ino]) == []
  {
    hide Ext2FileSystem.Consistent, SameFile, FileData, BlockCount, FileBlocks, EntryOk;
    SameDisk(fs);
    ghost var d, inodes := fs.disk, fs.inodes;
    ino := fs.CreateInode(mode, uid, gid);
    if ino != 0 {
      NoBytesNoBlocks(fs.blockSize);
      NewIsOk(fs.disk, fs.p, fs.blockSize, fs.inodes[ino]);
    }
    SizesKept(d, fs.disk, fs.p, fs.blockSize, inodes, fs.inodes, ino);
  }

  lemma NewIsOk(d: Disk, p: nat, blockSize: nat, e: InodeEntry)
    requires blockSize > 0 && e.size == 0 && e.sizeSectors == 0 && |FileData(d, p, e)| == BlockCount(e.size, blockSize)
    ensures EntryOk(d, p, blockSize, e) && FileData(d, p, e) == []
  {
    hide FileData;
    NoBytesNoBlocks(blockSize);
  }

  // An operation that the volume is in a state to take.
  ghost predicate Applies(fs: Ext2FileSystem, op: Op)
    reads fs
  {
    match op
    case Create(_, _, _) => true
    case Resize(ino, size) => MayResize(fs, ino, size)
    case Remove(ino) => ino in fs.inodes
    case Write(ino, offset, buf, count) => ino in fs.inodes && offset + count <= Base(fs.p, 15) && |buf| == count * fs.blockSize
  }

  /** One operation: what it does to the file it names, and that it leaves the others alone. */
  method Step(fs: Ext2FileSystem, op: Op, ghost watched: nat) returns (r: nat)
    requires fs.Consistent() && AllSizesOk(fs)
    modifies fs`disk, fs`inodes, fs.BitmapParts(), fs.InodeParts()
    ensures fs.Consistent() && AllSizesOk(fs)
    ensures LeavesAlone(op, watched) && watched in old(fs.inodes) ==>
              watched in fs.inodes && fs.inodes[watched] == old(fs.inodes)[watched]
              && SameFile(old(fs.disk), fs.disk, fs.p, fs.inodes[watched])
    ensures watched in old(fs.inodes) && op != Op.Remove(watched) ==>
              watched in fs.inodes && fs.inodes[watched].SameAttributes(old(fs.inodes)[watched])
    ensures !old(Applies(fs, op)) ==> fs.disk == old(fs.disk) && fs.inodes == old(fs.inodes) && fs.Free() == old(fs.Free())
    ensures op.Create? ==>
              if r == 0 then old(fs.inodeMap.free) == {} && fs.inodes == old(fs.inodes)
              else && r - 1 in old(fs.inodeMap.free) && (forall m | m in old(fs.inodeMap.free) :: r - 1 <= m) && r !in old(fs.inodes)
                   && fs.inodes == old(fs.inodes)[r := NewEntry(op.mode, op.uid, op.gid)] && FileData(fs.disk, fs.p, fs.inodes[r]) == []
    ensures op.Resize? && old(Applies(fs, op)) ==>
              && op.ino in fs.inodes && r == old(fs.WillGrant(op.ino, op.size))
              && Resized(old(fs.disk), fs.disk, fs.p, old(fs.inodes[op.ino]), fs.inodes[op.ino], old(fs.Free()),
                         old(fs.WillHave(op.ino, fs.Wanted(op.size))), r)
    ensures op.Remove? && old(Applies(fs, op)) ==>
              && op.ino !in fs.inodes && fs.inodeMap.free == old(fs.inodeMap.free) + {op.ino - 1}
              && forall b :: b in fs.Free() <==> b in old(fs.Free()) || b in old(FileBlocks(fs.disk, fs.p, fs.inodes[op.ino]))
    ensures op.Write? && old(Applies(fs, op)) ==>
              && fs.FileList(op.ino) == old(fs.FileList(op.ino)) && r <= op.count
              && (r < op.count ==> op.offset + r >= |fs.FileList(op.ino)|)
              && if r == 0 then fs.disk == old(fs.disk)
                 else Spliced(old(fs.Content(op.ino)), fs.Content(op.ino), op.offset * fs.blockSize, Cut(op.buf, 0, r * fs.blockSize))
  {
    hide Ext2FileSystem.Consistent, SameFile, AllSizesOk, Base, FileData, Bytes, Resized, FileBlocks, Ext2FileSystem.WillHave,
         Ext2FileSystem.WillGrant, MayResize;
    SameDisk(fs);
    r := 0;
    match op {
      case Create(mode, uid, gid) =>
        r := Create(fs, mode, uid, gid);
      case Resize(ino, size) =>
        if MayResize(fs, ino, size) {
          r := Resize(fs, ino, size);
        }
      case Remove(ino) =>
        if ino in fs.inodes {
          Remove(fs, ino);
        }
      case Write(ino, offset, buf, count) =>
        if ino in fs.inodes && offset + count <= Base(fs.p, 15) && |buf| == count * fs.blockSize {
          r := Write(fs, ino, offset, buf, count);
        }
    }
  }

  /**
   Any sequence of operations keeps the volume consistent, with sizes and sectors that agree with the blocks; a
   file that none of them names keeps its entry, its blocks, their order and their contents, and one that none of
   them removes keeps its mode, owner and links.
   */
  method Run(fs: Ext2FileSystem, ops: seq<Op>, ghost watched: nat)
    requires fs.Consistent() && AllSizesOk(fs)
    modifies fs, fs.BitmapParts(), fs.InodeParts()
    ensures fs.Consistent() && AllSizesOk(fs)
    ensures watched in old(fs.inodes) && (forall k | 0 <= k < |ops| :: LeavesAlone(ops[k], watched)) ==>
              watched in fs.inodes && fs.inodes[watched] == old(fs.inodes)[watched]
              && SameFile(old(fs.disk), fs.disk, fs.p, fs.inodes[watched])
    ensures watched in old(fs.inodes) && (forall k | 0 <= k < |ops| :: ops[k] != Op.Remove(watched)) ==>
              watched in fs.inodes && fs.inodes[watched].SameAttributes(old(fs.inodes)[watched])
  {
    hide Ext2FileSystem.Consistent, SameFile, AllSizesOk, FileData, Bytes, Resized, FileBlocks, Ext2FileSystem.WillHave,
         Ext2FileSystem.WillGrant, Applies, LeavesAlone, Spliced;
    SameDisk(fs);
    ghost var d0, alone := fs.disk, watched in fs.inodes;
    var k := 0;
    while k < |ops|
      invariant 0 <= k <= |ops| && fs.Consistent() && AllSizesOk(fs)
      invariant alone && (forall i | 0 <= i < k :: LeavesAlone(ops[i], watched)) ==>
                  watched in fs.inodes && fs.inodes[watched] == old(fs.inodes)[watched]
                  && SameFile(d0, fs.disk, fs.p, fs.inodes[watched])
      invariant alone && (forall i | 0 <= i < k :: ops[i] != Op.Remove(watched)) ==>
                  watched in fs.inodes && fs.inodes[watched].SameAttributes(old(fs.inodes)[watched])
    {
      ghost var d1 := fs.disk;
      var _ := Step(fs, ops[k], watched);
      if alone && forall i | 0 <= i < k + 1 :: LeavesAlone(ops[i], watched) {
        SameFileTwice(d0, d1, fs.disk, fs.p, fs.inodes[watched]);
      }
      k := k + 1;
    }
  }

  // What Consistent() says about the bits: the bit of a block is set exactly when the block is reserved
  // or belongs to a file, and then it belongs to that file only.
  lemma SetBitsAreOwnedBlocks(fs: Ext2FileSystem, b: nat)
    requires fs.Consistent() && b < |fs.disk| && fs.blockMap.geo.Valid()
    ensures fs.blockMap.geo.Pos(b) < 8 * fs.blockMap.bits.Length
    ensures BitAt(fs.blockMap.bits[..], fs.blockMap.geo.Pos(b)) <==>
              b in fs.reserved || exists i :: i in fs.inodes && b in FileBlocks(fs.disk, fs.p, fs.inodes[i])
    ensures Digit(fs.blockMap.bits[fs.blockMap.geo.Pos(b) / 8], fs.blockMap.geo.Pos(b) % 8) == 1 <==>
              b in fs.reserved || exists i :: i in fs.inodes && b in FileBlocks(fs.disk, fs.p, fs.inodes[i])
    ensures forall i, j | i in fs.inodes && j in fs.inodes && b in FileBlocks(fs.disk, fs.p, fs.inodes[i])
                          && (b in FileBlocks(fs.disk, fs.p, fs.inodes[j]) || b in fs.reserved) :: i == j && b !in fs.reserved
    ensures forall i | i in fs.inodes :: FileBlocks(fs.disk, fs.p, fs.inodes[i])[b] <= 1
  {
    hide FileBlocks, Sound, Decodes, Bit, Digit;
    UnitRoundTrip(b, fs.blockMap.geo.blockSize, fs.blockMap.geo.blocksPerGroup, fs.blockMap.geo.groups);
    fs.blockMap.BitOfUnit(b);
    forall i | i in fs.inodes
      ensures FileBlocks(fs.disk, fs.p, fs.inodes[i])[b] <= 1
      ensures b in FileBlocks(fs.disk, fs.p, fs.inodes[i]) ==> b !in fs.Free()
    {
      SoundOwns(fs.disk, fs.p, fs.inodes[i], fs.Free(), b);
    }
  }

  lemma SoundOwns(d: Disk, p: nat, e: InodeEntry, free: set<nat>, b: nat)
    requires Sound(d, p, e, free)
    ensures b in FileBlocks(d, p, e) ==> FileBlocks(d, p, e)[b] == 1 && b !in free
  {
  }

  lemma NoBytesNoBlocks(blockSize: nat)
    requires blockSize > 0
    ensures BlockCount(0, blockSize) == 0
  {
  }

  lemma NoBlocks(fs: Ext2FileSystem, ino: nat)
    requires fs.Consistent() && ino in fs.inodes && FileData(fs.disk, fs.p, fs.inodes[ino]) == []
    ensures FileBlocks(fs.disk, fs.p, fs.inodes[ino]) == multiset{} && |fs.inodes[ino].direct| == 12
    ensures forall i | 0 <= i < 15 :: fs.inodes[ino].Ptrs()[i] == 0
  {
    hide FileBlocks;
    fs.InodeIsSound(ino);
    EmptyFile(fs.disk, fs.p, fs.inodes[ino], fs.Free());
  }

  /** Growing an empty file and truncating it restores the block bitmap and all its counters, bit for bit. */
  method GrowAndTruncate(fs: Ext2FileSystem, ino: nat, size: nat)
    requires fs.Consistent() && AllSizesOk(fs) && MayResize(fs, ino, size)
    requires FileData(fs.disk, fs.p, fs.inodes[ino]) == []
    modifies fs, fs.BitmapParts()
    ensures fs.Consistent() && AllSizesOk(fs) && ino in fs.inodes
    ensures fs.blockMap.bits[..] == old(fs.blockMap.bits[..])
    ensures fs.blockMap.numFree == old(fs.blockMap.numFree)
    ensures fs.blockMap.groupFree[..] == old(fs.blockMap.groupFree[..])
    ensures |fs.inodes[ino].direct| == 12 && forall i | 0 <= i < 15 :: fs.inodes[ino].Ptrs()[i] == 0
  {
    hide SameFile, FileData, FileBlocks, Partitioned, UsageBitmap.Valid;
    NoBlocks(fs, ino);
    NoBytesNoBlocks(fs.blockSize);
    var _ := Resize(fs, ino, size);
    var _ := Resize(fs, ino, 0);
    NoBlocks(fs, ino);
    assert fs.Free() == old(fs.Free());
    fs.blockMap.SameFreeSameState();
  }
}
