/** Directories: the records in all blocks of a file. */
module Directories {
  import opened Arithmetic
  import opened DiskBlocks
  import opened FileBytes
  import opened BlockTrees
  import opened Inodes
  import opened Growth
  import opened UsageBitmaps
  import opened Volumes
  import opened Ext2
  import Dir = DirBlocks

  // Block i of some bytes.
  ghost function Chunk(bytes: seq<byte>, size: nat, i: nat): seq<byte> {
    Cut(bytes, i * size, (i + 1) * size)
  }

  // The entries in the blocks from one to another, in order.
  ghost function EntriesIn(bytes: seq<byte>, size: nat, from: nat, to: nat): seq<Dir.Entry>
    decreases if from < to then to - from else 0
  {
    if from < to then Dir.Entries(Chunk(bytes, size, from), 0, size) + EntriesIn(bytes, size, from + 1, to) else []
  }

  // Records fill each of the first n blocks.
  ghost predicate AllTiled(bytes: seq<byte>, size: nat, n: nat) {
    forall i | 0 <= i < n :: Dir.Tiles(Chunk(bytes, size, i), 0, size)
  }

  // No place in a block has the room for a name.
  ghost predicate NoRoom(b: seq<byte>, nameLen: nat) {
    !Dir.FrontHasRoom(b, nameLen) && forall s: nat, e: nat :: !Dir.HasRoom(b, s, e, Dir.Need(nameLen))
  }

  lemma ChunkBounds(i: nat, n: nat, size: nat)
    requires i < n
    ensures 0 <= i * size <= (i + 1) * size <= n * size && (i + 1) * size - i * size == size
  {
    MulMonotone(i + 1, n, size);
  }

  lemma ChunksApart(i: nat, j: nat, size: nat)
    requires i < j
    ensures (i + 1) * size <= j * size
  {
    MulMonotone(i + 1, j, size);
  }

  lemma ChunkSize(bytes: seq<byte>, size: nat, n: nat, i: nat)
    requires |bytes| == n * size && i < n
    ensures |Chunk(bytes, size, i)| == size
  {
    ChunkBounds(i, n, size);
  }

  // One block is written.
  ghost predicate ChunkWritten(bytes: seq<byte>, bytes': seq<byte>, size: nat, n: nat, i: nat, b: seq<byte>) {
    |bytes'| == |bytes| && Chunk(bytes', size, i) == b && forall j | 0 <= j < n && j != i :: Chunk(bytes', size, j) == Chunk(bytes, size, j)
  }

  lemma SplicedChunk(bytes: seq<byte>, bytes': seq<byte>, size: nat, n: nat, i: nat, b: seq<byte>)
    requires |bytes| == n * size && i < n && |b| == size && Spliced(bytes, bytes', i * size, b)
    ensures ChunkWritten(bytes, bytes', size, n, i, b)
  {
    ChunkBounds(i, n, size);
    forall j | 0 <= j < n
      ensures Chunk(bytes', size, j) == if j == i then b else Chunk(bytes, size, j)
    {
      ChunkBounds(j, n, size);
      if j != i {
        ChunksApart(if i < j then i else j, if i < j then j else i, size);
        SameCut(bytes, bytes', j * size, (j + 1) * size, i * size, b);
      }
    }
  }

  lemma SameCut(s: seq<byte>, s': seq<byte>, from: nat, to: nat, at: nat, b: seq<byte>)
    requires Spliced(s, s', at, b) && from <= to <= |s| && (to <= at || at + |b| <= from)
    ensures Cut(s', from, to) == Cut(s, from, to)
  {
  }

  lemma {:induction false} EntriesJoin(bytes: seq<byte>, size: nat, from: nat, mid: nat, to: nat)
    requires from <= mid <= to
    ensures EntriesIn(bytes, size, from, to) == EntriesIn(bytes, size, from, mid) + EntriesIn(bytes, size, mid, to)
    decreases mid - from
  {
    if from < mid {
      EntriesJoin(bytes, size, from + 1, mid, to);
    }
  }

  lemma {:induction false} SameEntries(bytes: seq<byte>, bytes': seq<byte>, size: nat, from: nat, to: nat)
    requires from <= to
    requires forall j | from <= j < to :: Chunk(bytes', size, j) == Chunk(bytes, size, j)
    ensures EntriesIn(bytes', size, from, to) == EntriesIn(bytes, size, from, to)
    decreases if from < to then to - from else 0
  {
    if from < to {
      SameEntries(bytes, bytes', size, from + 1, to);
    }
  }

  lemma EntriesAround(bytes: seq<byte>, size: nat, n: nat, i: nat)
    requires i < n
    ensures EntriesIn(bytes, size, 0, n) ==
              EntriesIn(bytes, size, 0, i) + Dir.Entries(Chunk(bytes, size, i), 0, size) + EntriesIn(bytes, size, i + 1, n)
  {
    EntriesJoin(bytes, size, 0, i, n);
  }

  // An entry stands at a place in front of, between or behind others.
  ghost predicate Inserted(es: seq<Dir.Entry>, es': seq<Dir.Entry>, k: nat, e: Dir.Entry) {
    k <= |es| && es' == es[..k] + [e] + es[k..]
  }

  lemma InsertedInside(a: seq<Dir.Entry>, es: seq<Dir.Entry>, es': seq<Dir.Entry>, c: seq<Dir.Entry>, k: nat, e: Dir.Entry)
    requires k <= |es|
    ensures Inserted(a + es + c, a + es' + c, |a| + k, e) <==> Inserted(es, es', k, e)
  {
    var all, all' := a + es + c, a + es' + c;
    assert all[..|a| + k] == a + es[..k] && all[|a| + k..] == es[k..] + c;
    if Inserted(all, all', |a| + k, e) {
      assert all' == a + (es[..k] + [e] + es[k..]) + c;
      assert es' == all'[|a|..|all'| - |c|];
    }
  }

  // A directory: a file whose size agrees with its blocks, all of them filled by records.
  ghost predicate IsDirectory(fs: Ext2FileSystem, ino: nat)
    reads fs
  {
    && 1024 <= fs.blockSize < 0x1_0000 && ino in fs.inodes && fs.SizeOk(ino)
    && AllTiled(fs.Content(ino), fs.blockSize, |fs.FileList(ino)|)
  }

  // What the record of a linked name says.
  ghost predicate Nameable(name: seq<byte>, inode: nat) {
    |name| < 0x100 && 0 < inode < 0x1_0000_0000
  }

  lemma FileFits(fs: Ext2FileSystem, ino: nat)
    requires fs.Consistent() && ino in fs.inodes
    ensures fs.p > 0 && |fs.FileList(ino)| <= Base(fs.p, 15) && |fs.Content(ino)| == |fs.FileList(ino)| * fs.blockSize
  {
    hide FileData, Sound, Base, Bytes, FileBlocks, UsageBitmap.Valid, FileInner;
    fs.InodeIsSound(ino);
    fs.ContentReadable(ino);
    TailOfFile(fs.disk, fs.p, fs.inodes[ino], fs.Free());
  }

  method ReadChunk(fs: Ext2FileSystem, ino: nat, i: nat) returns (table: array<byte>)
    requires fs.Consistent() && ino in fs.inodes && i < |fs.FileList(ino)|
    ensures fs.Consistent() && fresh(table) && table[..] == Chunk(fs.Content(ino), fs.blockSize, i) && table.Length == fs.blockSize
  {
    hide FileData, Base, Bytes, Ext2FileSystem.Consistent;
    FileFits(fs, ino);
    var n, buf := fs.ReadInodeBlocks(ino, i, 1);
    assert n == 1 && fs.Consistent();
    table := new byte[|buf|](j requires 0 <= j < |buf| => buf[j]);
    assert table[..] == buf && table !in fs.BitmapParts() && table !in fs.InodeParts() && table != fs as object;
  }

  // What the record of a new name does to a block with room for it.
  ghost predicate RecordPut(b: seq<byte>, b': seq<byte>, nameLen: nat, k: nat, e: Dir.Entry) {
    var (es, es') := (Dir.Entries(b, 0, |b|), Dir.Entries(b', 0, |b'|));
    && |b'| == |b| && (Dir.Tiles(b', 0, |b'|) <==> Dir.KeepsRecords(b, nameLen))
    && (!Dir.FrontHasRoom(b, nameLen) ==> Inserted(es, es', k, e))
    && (Dir.FrontHasRoom(b, nameLen) ==> k == 0 && (Dir.Tiles(b', 0, |b'|) && Inserted(es, es', k, e) <==> Dir.KeepsEntries(b, nameLen)))
  }

  method PutRecord(table: array<byte>, name: seq<byte>, inode: nat, kind: byte) returns (ok: bool, ghost k: nat)
    requires 1024 <= table.Length < 0x1_0000 && Dir.Tiles(table[..], 0, table.Length) && Nameable(name, inode)
    modifies table
    ensures !ok <==> NoRoom(old(table[..]), |name|)
    ensures ok ==> RecordPut(old(table[..]), table[..], |name|, k, Dir.Entry(name, inode, kind))
  {
    hide Dir.Tiles, Dir.Entries, Dir.HasRoom, Dir.FrontHasRoom, Dir.KeepsRecords, Dir.KeepsEntries;
    ghost var b := table[..];
    ok, k := Dir.Link(table, name, inode, kind);
    k := if Dir.FrontHasRoom(b, |name|) then 0 else k;
    KeptInPlace(b, |name|);
  }

  lemma KeptInPlace(b: seq<byte>, nameLen: nat)
    ensures !Dir.FrontHasRoom(b, nameLen) ==> Dir.KeepsRecords(b, nameLen)
  {
  }

  method WriteChunk(fs: Ext2FileSystem, ino: nat, i: nat, b: seq<byte>)
    requires fs.Consistent() && ino in fs.inodes && i < |fs.FileList(ino)| && |b| == fs.blockSize
    modifies fs`disk
    ensures fs.Consistent() && FilesKept(old(fs.disk), fs.disk, fs.p, old(fs.inodes), fs.inodes, ino)
    ensures fs.FileList(ino) == old(fs.FileList(ino))
    ensures ChunkWritten(old(fs.Content(ino)), fs.Content(ino), fs.blockSize, |fs.FileList(ino)|, i, b)
  {
    hide FileData, Base, Bytes, Ext2FileSystem.Consistent, Chunk, SameFile;
    FileFits(fs, ino);
    ghost var bytes := fs.Content(ino);
    var n := fs.WriteInodeBlocks(ino, i, b, 1);
    SplicedChunk(bytes, fs.Content(ino), fs.blockSize, |fs.FileList(ino)|, i, b);
  }

  // One block is tried: with room for the name, it gets the record and is written.
  method LinkInBlock(fs: Ext2FileSystem, ino: nat, i: nat, name: seq<byte>, inode: nat, kind: byte) returns (ok: bool, ghost k: nat)
    requires fs.Consistent() && ino in fs.inodes && 1024 <= fs.blockSize < 0x1_0000 && i < |fs.FileList(ino)| && Nameable(name, inode)
    requires Dir.Tiles(Chunk(fs.Content(ino), fs.blockSize, i), 0, fs.blockSize)
    modifies fs`disk
    ensures fs.Consistent() && FilesKept(old(fs.disk), fs.disk, fs.p, old(fs.inodes), fs.inodes, ino)
    ensures fs.FileList(ino) == old(fs.FileList(ino))
    ensures !ok <==> NoRoom(old(Chunk(fs.Content(ino), fs.blockSize, i)), |name|)
    ensures !ok ==> fs.disk == old(fs.disk)
    ensures ok ==> ChunkWritten(old(fs.Content(ino)), fs.Content(ino), fs.blockSize, |fs.FileList(ino)|, i,
                                Chunk(fs.Content(ino), fs.blockSize, i))
    ensures ok ==> RecordPut(old(Chunk(fs.Content(ino), fs.blockSize, i)), Chunk(fs.Content(ino), fs.blockSize, i), |name|, k,
                             Dir.Entry(name, inode, kind))
  {
    hide FileData, Base, Bytes, Ext2FileSystem.Consistent, Chunk, SameFile, RecordPut, NoRoom, Nameable, Dir.Tiles, ChunkWritten;
    SameFiles(fs);
    ghost var bytes := fs.Content(ino);
    var table := ReadChunk(fs, ino, i);
    assert table !in fs.BitmapParts() && table !in fs.InodeParts() && table != fs as object;
    ok, k := PutRecord(table, name, inode, kind);
    if ok {
      WriteChunk(fs, ino, i, table[..]);
      WrittenIs(bytes, fs.Content(ino), fs.blockSize, |fs.FileList(ino)|, i, table[..]);
    }
  }

  lemma WrittenIs(bytes: seq<byte>, bytes': seq<byte>, size: nat, n: nat, i: nat, b: seq<byte>)
    requires ChunkWritten(bytes, bytes', size, n, i, b)
    ensures Chunk(bytes', size, i) == b
  {
  }

  lemma SameFiles(fs: Ext2FileSystem)
    requires fs.Consistent()
    ensures forall j | j in fs.inodes :: SameFile(fs.disk, fs.disk, fs.p, fs.inodes[j])
  {
    fs.OthersSame();
  }

  // What a record put into block i does to the directory.
  lemma PutInside(bytes: seq<byte>, bytes': seq<byte>, size: nat, n: nat, i: nat, nameLen: nat, k: nat, e: Dir.Entry)
    requires |bytes| == n * size && i < n && AllTiled(bytes, size, n)
    requires ChunkWritten(bytes, bytes', size, n, i, Chunk(bytes', size, i))
    requires RecordPut(Chunk(bytes, size, i), Chunk(bytes', size, i), nameLen, k, e)
    ensures DirectoryPut(bytes, bytes', size, n, i, nameLen, |EntriesIn(bytes, size, 0, i)| + k, e)
  {
    hide Chunk, EntriesIn, Inserted, Dir.Tiles, Dir.Entries, Dir.FrontHasRoom, Dir.KeepsRecords, Dir.KeepsEntries;
    ChunkSize(bytes, size, n, i);
    ChunkSize(bytes', size, n, i);
    EntriesAround(bytes, size, n, i);
    EntriesAround(bytes', size, n, i);
    SameEntries(bytes, bytes', size, 0, i);
    SameEntries(bytes, bytes', size, i + 1, n);
    PutPlace(Chunk(bytes, size, i), Chunk(bytes', size, i), nameLen, k, e);
    InsertedInside(EntriesIn(bytes, size, 0, i), Dir.Entries(Chunk(bytes, size, i), 0, size), Dir.Entries(Chunk(bytes', size, i), 0, size),
                   EntriesIn(bytes, size, i + 1, n), k, e);
  }

  lemma PutPlace(b: seq<byte>, b': seq<byte>, nameLen: nat, k: nat, e: Dir.Entry)
    requires RecordPut(b, b', nameLen, k, e)
    ensures k <= |Dir.Entries(b, 0, |b|)|
  {
    hide Dir.Tiles, Dir.Entries, Dir.FrontHasRoom, Dir.KeepsRecords, Dir.KeepsEntries;
  }

  // The new entry joins those of the directory at place k; what was put over dead records in front of block i does
  // not always leave the others.
  ghost predicate DirectoryPut(bytes: seq<byte>, bytes': seq<byte>, size: nat, n: nat, i: nat, nameLen: nat, k: nat, e: Dir.Entry) {
    var (b, es, es') := (Chunk(bytes, size, i), EntriesIn(bytes, size, 0, n), EntriesIn(bytes', size, 0, n));
    && (AllTiled(bytes', size, n) <==> Dir.KeepsRecords(b, nameLen))
    && (!Dir.FrontHasRoom(b, nameLen) ==> Inserted(es, es', k, e))
    && (Dir.FrontHasRoom(b, nameLen) ==> (AllTiled(bytes', size, n) && Inserted(es, es', k, e) <==> Dir.KeepsEntries(b, nameLen)))
  }

  // The loop of link: the first block with room for the name gets the record.
  method LinkInBlocks(fs: Ext2FileSystem, ino: nat, n: nat, name: seq<byte>, inode: nat, kind: byte) returns (at: nat, ghost k: nat)
    requires fs.Consistent() && IsDirectory(fs, ino) && n == |fs.FileList(ino)| && Nameable(name, inode)
    modifies fs`disk
    ensures fs.Consistent() && FilesKept(old(fs.disk), fs.disk, fs.p, old(fs.inodes), fs.inodes, ino)
    ensures fs.FileList(ino) == old(fs.FileList(ino)) && at <= n
    ensures forall j | 0 <= j < at :: NoRoom(old(Chunk(fs.Content(ino), fs.blockSize, j)), |name|)
    ensures at == n ==> fs.disk == old(fs.disk)
    ensures at < n ==> !NoRoom(old(Chunk(fs.Content(ino), fs.blockSize, at)), |name|)
                       && DirectoryPut(old(fs.Content(ino)), fs.Content(ino), fs.blockSize, n, at, |name|, k, Dir.Entry(name, inode, kind))
  {
    hide FileData, Base, Bytes, Ext2FileSystem.Consistent, Chunk, SameFile, RecordPut, NoRoom, Nameable, Dir.Tiles, ChunkWritten, DirectoryPut;
    SameFiles(fs);
    FileFits(fs, ino);
    ghost var bytes := fs.Content(ino);
    at, k := 0, 0;
    while at < n
      invariant 0 <= at <= n && fs.Consistent() && fs.disk == old(fs.disk)
      invariant forall j | 0 <= j < at :: NoRoom(Chunk(bytes, fs.blockSize, j), |name|)
    {
      var ok;
      ok, k := LinkInBlock(fs, ino, at, name, inode, kind);
      if ok {
        PutInside(bytes, fs.Content(ino), fs.blockSize, n, at, |name|, k, Dir.Entry(name, inode, kind));
        k := |EntriesIn(bytes, fs.blockSize, 0, at)| + k;
        return;
      }
      at := at + 1;
    }
  }

  // A new block at the end holds one record with the name, and the others are as before.
  ghost predicate BlockAppended(bytes: seq<byte>, bytes': seq<byte>, size: nat, n: nat, e: Dir.Entry) {
    && |bytes'| == |bytes| + size && AllTiled(bytes', size, n + 1)
    && (forall j | 0 <= j < n :: Chunk(bytes', size, j) == Chunk(bytes, size, j))
    && EntriesIn(bytes', size, 0, n + 1) == EntriesIn(bytes, size, 0, n) + [e]
  }

  lemma AppendedEntries(bytes: seq<byte>, bytes1: seq<byte>, bytes': seq<byte>, size: nat, n: nat, b: seq<byte>, e: Dir.Entry)
    requires |bytes| == n * size && |bytes1| == (n + 1) * size && bytes <= bytes1 && AllTiled(bytes, size, n)
    requires ChunkWritten(bytes1, bytes', size, n + 1, n, b) && Dir.Tiles(b, 0, size) && Dir.Entries(b, 0, size) == [e]
    ensures BlockAppended(bytes, bytes', size, n, e)
  {
    hide Dir.Tiles, Dir.Entries;
    forall j | 0 <= j < n
      ensures Chunk(bytes', size, j) == Chunk(bytes, size, j)
    {
      ChunkBounds(j, n, size);
      assert Chunk(bytes1, size, j) == Chunk(bytes, size, j);
    }
    SameEntries(bytes, bytes', size, 0, n);
    EntriesJoin(bytes', size, 0, n, n + 1);
    assert EntriesIn(bytes', size, n + 1, n + 1) == [];
    assert EntriesIn(bytes', size, n, n + 1) == [e];
  }

  lemma OneBlockMore(size: nat, n: nat, fileSize: nat)
    requires size >= 1024 && BlockCount(fileSize, size) == n && fileSize < 0x1_0000_0000
    ensures BlockCount((n + 1) * size, size) == n + 1 < 0x1_0000_0000
    ensures n * size % 0x1_0000_0000 < (n + 1) * size
  {
    DivModUnique(n + 1, size, 0);
    DivModIdentity(fileSize, size);
    MulMonotone(1, size, fileSize / size);
    assert n <= fileSize / size + 1;
    assert (n + 1) * size == n * size + size;
    ModBelow(n * size, 0x1_0000_0000);
  }

  lemma ModBelow(x: nat, m: nat)
    requires m > 0
    ensures x % m <= x
  {
    DivModIdentity(x, m);
  }

  lemma AskForOneMore(fs: Ext2FileSystem, n: nat, fileSize: nat)
    requires fs.blockSize >= 1024 && BlockCount(fileSize, fs.blockSize) == n && fileSize < 0x1_0000_0000
    ensures fs.Wanted((n + 1) * fs.blockSize) == n + 1
    ensures fs.Granted(n, (n + 1) * fs.blockSize) % 0x1_0000_0000 < (n + 1) * fs.blockSize
  {
    OneBlockMore(fs.blockSize, n, fileSize);
  }

  // The directory grows by one block, if there is one for it and for the pointer blocks that it needs.
  method GrowByOne(fs: Ext2FileSystem, ino: nat, n: nat) returns (ok: bool)
    requires fs.Consistent() && ino in fs.inodes && fs.blockSize >= 1024 && fs.SizeOk(ino) && n == |fs.FileList(ino)|
    modifies fs`disk, fs`inodes, fs.BitmapParts()
    ensures fs.Consistent() && ino in fs.inodes && FilesKept(old(fs.disk), fs.disk, fs.p, old(fs.inodes), fs.inodes, ino)
    ensures ok <==> n + 1 <= Base(fs.p, 15) && FileNeeds(fs.p, n + 1) <= old(fs.Room(ino))
    ensures |fs.FileList(ino)| == if ok then n + 1 else n
    ensures old(fs.FileList(ino)) <= fs.FileList(ino) && NewFrom(old(fs.FileList(ino)), fs.FileList(ino), old(fs.Free()))
    ensures old(fs.Content(ino)) <= fs.Content(ino)
  {
    hide Ext2FileSystem.Consistent, SameFile, FileData, OneOwnerChanged, Base, Bytes, BlockCount, FileBlocks;
    hide Ext2FileSystem.WillHave, Ext2FileSystem.Room, FileNeeds, WithoutRounds, Ext2FileSystem.Wanted, Ext2FileSystem.Granted, NewFrom;
    ghost var d, data := fs.disk, fs.FileList(ino);
    AskForOneMore(fs, n, fs.inodes[ino].size);
    var size := (n + 1) * fs.blockSize;
    var granted := fs.ResizeInode(ino, size);
    ok := granted == size;
    PrefixBytes(d, fs.disk, data, fs.FileList(ino));
  }

  // What link does behind its loop: the new block gets a record that fills it.
  method LinkInNewBlock(fs: Ext2FileSystem, ino: nat, n: nat, name: seq<byte>, inode: nat, kind: byte) returns (linked: bool)
    requires fs.Consistent() && IsDirectory(fs, ino) && n == |fs.FileList(ino)| && Nameable(name, inode)
    modifies fs`disk, fs`inodes, fs.BitmapParts()
    ensures fs.Consistent() && ino in fs.inodes && FilesKept(old(fs.disk), fs.disk, fs.p, old(fs.inodes), fs.inodes, ino)
    ensures linked <==> n + 1 <= Base(fs.p, 15) && FileNeeds(fs.p, n + 1) <= old(fs.Room(ino))
    ensures |fs.FileList(ino)| == if linked then n + 1 else n
    ensures old(fs.FileList(ino)) <= fs.FileList(ino) && NewFrom(old(fs.FileList(ino)), fs.FileList(ino), old(fs.Free()))
    ensures if linked then BlockAppended(old(fs.Content(ino)), fs.Content(ino), fs.blockSize, n, Dir.Entry(name, inode, kind))
            else fs.Content(ino) == old(fs.Content(ino))
  {
    hide Ext2FileSystem.Consistent, SameFile, FileData, Base, Bytes, BlockCount, Chunk, ChunkWritten, Ext2FileSystem.Room, FileNeeds, NewFrom,
         Dir.Tiles, Dir.Entries, BlockAppended;
    ghost var d, inodes, bytes := fs.disk, fs.inodes, fs.Content(ino);
    FileFits(fs, ino);
    linked := GrowByOne(fs, ino, n);
    FileFits(fs, ino);
    if linked {
      ghost var d1, inodes1, bytes1 := fs.disk, fs.inodes, fs.Content(ino);
      ghost var b := FillNewBlock(fs, ino, n, name, inode, kind);
      KeptTwice(d, d1, fs.disk, fs.p, inodes, inodes1, fs.inodes, ino);
      AppendedEntries(bytes, bytes1, fs.Content(ino), fs.blockSize, n, b, Dir.Entry(name, inode, kind));
    }
  }

  method FillNewBlock(fs: Ext2FileSystem, ino: nat, n: nat, name: seq<byte>, inode: nat, kind: byte) returns (ghost b: seq<byte>)
    requires fs.Consistent() && ino in fs.inodes && 1024 <= fs.blockSize < 0x1_0000 && n + 1 == |fs.FileList(ino)| && Nameable(name, inode)
    modifies fs`disk
    ensures fs.Consistent() && FilesKept(old(fs.disk), fs.disk, fs.p, old(fs.inodes), fs.inodes, ino)
    ensures fs.FileList(ino) == old(fs.FileList(ino))
    ensures ChunkWritten(old(fs.Content(ino)), fs.Content(ino), fs.blockSize, n + 1, n, b)
    ensures Dir.Tiles(b, 0, fs.blockSize) && Dir.Entries(b, 0, fs.blockSize) == [Dir.Entry(name, inode, kind)]
  {
    hide Ext2FileSystem.Consistent, SameFile, FileData, Bytes, Chunk, ChunkWritten, Dir.Tiles, Dir.Entries;
    var table := ReadChunk(fs, ino, n);
    assert table !in fs.BitmapParts() && table !in fs.InodeParts() && table != fs as object;
    Dir.LinkFirst(table, name, inode, kind);
    b := table[..];
    WriteChunk(fs, ino, n, table[..]);
  }

  lemma KeptTwice(d0: Disk, d1: Disk, d2: Disk, p: nat, inodes0: InodeTable, inodes1: InodeTable, inodes2: InodeTable, ino: nat)
    requires FilesKept(d0, d1, p, inodes0, inodes1, ino) && FilesKept(d1, d2, p, inodes1, inodes2, ino)
    ensures FilesKept(d0, d2, p, inodes0, inodes2, ino)
  {
    hide SameFile;
    forall j | j in inodes0 && j != ino
      ensures j in inodes2 && inodes2[j] == inodes0[j] && SameFile(d0, d2, p, inodes0[j])
    {
      SameFileTwice(d0, d1, d2, p, inodes0[j]);
    }
  }

  /**
   link: the entry joins the directory, in the first block with room for it, and otherwise in a new block, if the
   directory can get one.  The entries that were there stay in order, and no other file changes, unless dead
   records stand in front of that block: then they stay exactly under the condition of KeepsEntries.
   */
  method Link(fs: Ext2FileSystem, ino: nat, name: seq<byte>, inode: nat, kind: byte) returns (linked: bool, at: nat, ghost k: nat)
    requires fs.Consistent() && IsDirectory(fs, ino) && Nameable(name, inode)
    modifies fs`disk, fs`inodes, fs.BitmapParts()
    ensures fs.Consistent() && ino in fs.inodes && FilesKept(old(fs.disk), fs.disk, fs.p, old(fs.inodes), fs.inodes, ino)
    ensures var n := old(|fs.FileList(ino)|);
            && at <= n && (forall j | 0 <= j < at :: NoRoom(old(Chunk(fs.Content(ino), fs.blockSize, j)), |name|))
            && (at < n ==> !NoRoom(old(Chunk(fs.Content(ino), fs.blockSize, at)), |name|))
            && (linked <==> at < n || (n + 1 <= Base(fs.p, 15) && FileNeeds(fs.p, n + 1) <= old(fs.Room(ino))))
    ensures var (n, bytes) := (old(|fs.FileList(ino)|), old(fs.Content(ino)));
            && (!linked ==> fs.FileList(ino) == old(fs.FileList(ino)) && fs.Content(ino) == bytes)
            && (at < n ==>
                  && fs.FileList(ino) == old(fs.FileList(ino))
                  && DirectoryPut(bytes, fs.Content(ino), fs.blockSize, n, at, |name|, k, Dir.Entry(name, inode, kind)))
            && (linked && at == n ==>
                  && |fs.FileList(ino)| == n + 1 && old(fs.FileList(ino)) <= fs.FileList(ino) && fs.FileList(ino)[n] in old(fs.Free())
                  && BlockAppended(bytes, fs.Content(ino), fs.blockSize, n, Dir.Entry(name, inode, kind)))
  {
    hide Ext2FileSystem.Consistent, SameFile, FileData, Base, Bytes, BlockCount, Chunk, Ext2FileSystem.Room, FileNeeds,
         NoRoom, DirectoryPut, BlockAppended, AllTiled;
    SizePositive(fs, ino);
    var n := BlockCount(fs.inodes[ino].size, fs.blockSize);
    linked := true;
    at, k := LinkInBlocks(fs, ino, n, name, inode, kind);
    if at == n {
      linked := LinkInNewBlock(fs, ino, n, name, inode, kind);
    }
  }

  lemma SizePositive(fs: Ext2FileSystem, ino: nat)
    requires IsDirectory(fs, ino)
    ensures fs.blockSize > 0 && ino in fs.inodes && BlockCount(fs.inodes[ino].size, fs.blockSize) == |fs.FileList(ino)|
  {
    hide FileData, Bytes;
  }
}
