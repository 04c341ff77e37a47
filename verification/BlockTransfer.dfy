/**
 BlockTransferFileDescription: byte access at any offset on top of a device that moves whole blocks.
 The kernel instantiates it for IDE disks and for ext2 files.
 */
module BlockTransfers {
  import opened Arithmetic
  import opened DiskBlocks
  import opened FileBytes
  import opened Growth
  import opened Inodes
  import opened Volumes
  import opened Ext2
  import opened Ext2Runs

  const SECTOR_SIZE := 512

  // n of count blocks at an offset of a device with so many blocks were moved: fewer than requested only
  // at the end of the device or when a command failed.
  ghost predicate Moved(n: nat, offset: nat, count: nat, blocks: nat, faults: nat, faults': nat) {
    && n <= count && (n > 0 ==> offset + n <= blocks) && faults <= faults'
    && (n < count ==> offset + n >= blocks || faults < faults')
  }

  // How many of some commands fail.
  function Failing(outcomes: seq<bool>): (n: nat)
    ensures n <= |outcomes|
  {
    if outcomes == [] then 0 else Failing(outcomes[..|outcomes| - 1]) + if outcomes[|outcomes| - 1] then 0 else 1
  }

  lemma {:induction false} FailingSplit(a: seq<bool>, b: seq<bool>)
    ensures Failing(a + b) == Failing(a) + Failing(b)
  {
    if b == [] {
      assert a + b == a;
    } else {
      assert (a + b)[..|a + b| - 1] == a + b[..|b| - 1];
      FailingSplit(a, b[..|b| - 1]);
    }
  }

  lemma {:induction false} NoneFails(outcomes: seq<bool>)
    ensures Failing(outcomes) == 0 <==> forall k | 0 <= k < |outcomes| :: outcomes[k]
  {
    if outcomes != [] {
      NoneFails(outcomes[..|outcomes| - 1]);
    }
  }

  // From one state of a disk to another its next commands were given, and so many of them failed.
  ghost predicate Given(outcomes: seq<bool>, outcomes': seq<bool>, faults: nat, faults': nat) {
    && |outcomes'| <= |outcomes| && outcomes' == outcomes[|outcomes| - |outcomes'|..]
    && faults' == faults + Failing(outcomes[..|outcomes| - |outcomes'|])
  }

  lemma GivenSince(all: seq<bool>, outcomes: seq<bool>, outcomes': seq<bool>, faults: nat, faults': nat)
    requires Given(all, outcomes, 0, faults) && Given(all, outcomes', 0, faults') && |outcomes'| <= |outcomes|
    ensures Given(outcomes, outcomes', faults, faults')
    ensures (forall k | 0 <= k < |outcomes| :: outcomes[k]) ==> faults' == faults
  {
    var u, v := |all| - |outcomes|, |all| - |outcomes'|;
    FailingSplit(all[..u], all[u..v]);
    assert all[..u] + all[u..v] == all[..v];
    assert all[u..v] == outcomes[..v - u];
    NoneFails(all[u..v]);
  }

  /** An IDE disk.  The outcomes of its future commands are given; a command that fails moves nothing. */
  class IDEDevice {
    const size: nat
    var sectors: seq<byte>
    var outcomes: seq<bool>
    // How many commands have failed.
    var faults: nat
    // The outcomes of all commands from the start.
    ghost const all: seq<bool>

    constructor (size: nat, sectors: seq<byte>, outcomes: seq<bool>)
      requires |sectors| == size * SECTOR_SIZE
      ensures this.size == size && this.sectors == sectors && this.outcomes == outcomes && faults == 0 && Valid()
    {
      this.size, this.sectors, this.outcomes, faults := size, sectors, outcomes, 0;
      all := outcomes;
    }

    ghost predicate Valid()
      reads this
    {
      |sectors| == size * SECTOR_SIZE && Given(all, outcomes, 0, faults)
    }

    // The next command succeeds.
    ghost predicate WillSucceed()
      reads this`outcomes
    {
      outcomes == [] || outcomes[0]
    }

    method Command() returns (ok: bool)
      requires Valid()
      modifies this`outcomes, this`faults
      ensures Valid() && ok == old(WillSucceed()) && faults == old(faults) + (if ok then 0 else 1)
      ensures outcomes == if old(outcomes) == [] then [] else old(outcomes)[1..]
    {
      ghost var u := |all| - |outcomes|;
      ok := true;
      if |outcomes| > 0 {
        FailingSplit(all[..u], [all[u]]);
        assert all[..u] + [all[u]] == all[..u + 1];
        ok, outcomes := outcomes[0], outcomes[1..];
      }
      if !ok {
        faults := faults + 1;
      }
    }

    method ReadBlocks(offset: nat, count: nat) returns (n: nat, buf: seq<byte>)
      requires Valid()
      modifies this
      ensures Valid() && sectors == old(sectors) && |outcomes| <= |old(outcomes)|
      ensures Moved(n, offset, count, size, old(faults), faults) && |buf| == n * SECTOR_SIZE
      ensures n > 0 ==> buf == Cut(sectors, offset * SECTOR_SIZE, (offset + n) * SECTOR_SIZE)
      ensures n == Movable(offset, count, size, old(WillSucceed()))
    {
      n, buf := 0, [];
      if offset >= size || count == 0 {
        return;
      }
      var some := if count < size - offset then count else size - offset;
      var ok := Command();
      if ok {
        n, buf := some, sectors[offset * SECTOR_SIZE..(offset + some) * SECTOR_SIZE];
      }
    }

    method WriteBlocks(offset: nat, buf: seq<byte>, count: nat) returns (n: nat)
      requires Valid() && |buf| == count * SECTOR_SIZE
      modifies this
      ensures Valid() && Moved(n, offset, count, size, old(faults), faults) && |outcomes| <= |old(outcomes)|
      ensures n == 0 ==> sectors == old(sectors)
      ensures n > 0 ==> Spliced(old(sectors), sectors, offset * SECTOR_SIZE, Cut(buf, 0, n * SECTOR_SIZE))
      ensures n == Movable(offset, count, size, old(WillSucceed()))
    {
      n := 0;
      if offset >= size || count == 0 {
        return;
      }
      var some := if count < size - offset then count else size - offset;
      var ok := Command();
      if ok {
        n := some;
        sectors := Splice(sectors, offset * SECTOR_SIZE, buf[..some * SECTOR_SIZE]);
      }
    }
  }

  // The sectors of a request that exist, all of them or none.
  function Movable(offset: nat, count: nat, size: nat, ok: bool): nat {
    if !ok || offset >= size then 0 else if offset + count <= size then count else size - offset
  }

  datatype Device = Disk(ide: IDEDevice) | File(fs: Ext2FileSystem, ino: nat)

  // What set_size answers on a device that cannot change its size.
  const NO_SIZE := 0xffff_ffff_ffff_ffff

  datatype Direction = READ | WRITE

  /**
   n bytes went between a buffer and a device at an offset: from the device to out when reading, from input
   to the device when writing.  before and after are all the bytes on the device.
   */
  ghost predicate Done(dir: Direction, before: seq<byte>, after: seq<byte>, offset: int, n: int,
                       input: seq<byte>, out: seq<byte>) {
    && 0 <= offset <= offset + n <= |before|
    && (dir == READ ==> after == before && out == Cut(before, offset, offset + n))
    && (dir == WRITE ==> n <= |input| && after == Splice(before, offset, input[..n]))
  }

  lemma NothingDone(dir: Direction, bytes: seq<byte>, offset: int, input: seq<byte>)
    requires 0 <= offset <= |bytes|
    ensures Done(dir, bytes, bytes, offset, 0, input, [])
  {
  }

  lemma DoneMore(dir: Direction, s0: seq<byte>, s1: seq<byte>, s2: seq<byte>, offset: int, n: nat, k: nat,
                 input: seq<byte>, out: seq<byte>, more: seq<byte>)
    requires Done(dir, s0, s1, offset, n, input, out)
    requires dir == WRITE ==> n + k <= |input|
    requires Done(dir, s1, s2, offset + n, k, if dir == READ then [] else input[n..], more)
    ensures Done(dir, s0, s2, offset, n + k, input, out + more)
  {
    if dir == WRITE {
      assert input[n..][..k] == input[n..n + k];
      SpliceTwice(s0, offset, input[..n], input[n..n + k]);
      assert input[..n] + input[n..n + k] == input[..n + k];
    }
  }

  // A transfer that was given the front of the input.
  lemma DoneLonger(dir: Direction, before: seq<byte>, after: seq<byte>, offset: int, n: nat, front: nat,
                   input: seq<byte>, out: seq<byte>)
    requires dir == WRITE ==> n <= front <= |input|
    requires Done(dir, before, after, offset, n, if dir == READ then [] else input[..front], out)
    ensures Done(dir, before, after, offset, n, input, out)
  {
    if dir == WRITE {
      assert input[..front][..n] == input[..n];
    }
  }

  lemma SpliceTwice(s: seq<byte>, offset: nat, a: seq<byte>, b: seq<byte>)
    requires offset + |a| + |b| <= |s|
    ensures Splice(Splice(s, offset, a), offset + |a|, b) == Splice(s, offset, a + b)
  {
  }

  // Part of block number block was read.
  lemma SectionRead(s: seq<byte>, buf: seq<byte>, block: nat, size: nat, base: nat, limit: nat)
    requires size > 0 && |buf| == size && buf == Cut(s, block * size, (block + 1) * size) && base <= limit <= size
    ensures Done(READ, s, s, block * size + base, limit - base, [], buf[base..limit])
  {
    OneMore(block, size);
    PartRead(s, buf, block * size, size, base, limit);
  }

  lemma PartRead(s: seq<byte>, buf: seq<byte>, at: int, size: nat, base: nat, limit: nat)
    requires size > 0 && |buf| == size && buf == Cut(s, at, at + size) && base <= limit <= size
    ensures Done(READ, s, s, at + base, limit - base, [], buf[base..limit])
  {
    assert 0 <= at && at + size <= |s| && buf == s[at..at + size];
    SliceOfSlice(s, at, size, base, limit);
    assert at + base + (limit - base) == at + limit;
  }

  lemma SliceOfSlice(s: seq<byte>, at: nat, size: nat, base: nat, limit: nat)
    requires at + size <= |s| && base <= limit <= size
    ensures s[at..at + size][base..limit] == s[at + base..at + limit]
  {
    var (part, slice) := (s[at..at + size], s[at + base..at + limit]);
    assert forall k | 0 <= k < limit - base :: part[base..limit][k] == part[base + k] == slice[k];
  }

  // A block that was read is written back with some of its bytes changed.
  lemma SectionWritten(s: seq<byte>, s': seq<byte>, buf: seq<byte>, block: nat, size: nat, base: nat, data: seq<byte>)
    requires size > 0 && |buf| == size && buf == Cut(s, block * size, (block + 1) * size) && base + |data| <= size
    requires Spliced(s, s', block * size, Cut(Splice(buf, base, data), 0, 1 * size))
    ensures Done(WRITE, s, s', block * size + base, |data|, data, [])
  {
    OneMore(block, size);
    PartWritten(s, s', buf, block * size, size, base, data);
  }

  lemma PartWritten(s: seq<byte>, s': seq<byte>, buf: seq<byte>, at: int, size: nat, base: nat, data: seq<byte>)
    requires size > 0 && |buf| == size && buf == Cut(s, at, at + size) && base + |data| <= size
    requires Spliced(s, s', at, Cut(Splice(buf, base, data), 0, size))
    ensures Done(WRITE, s, s', at + base, |data|, data, [])
  {
    assert 0 <= at && at + size <= |s| && buf == s[at..at + size];
    assert Splice(buf, base, data)[0..size] == Splice(buf, base, data);
    assert data[..|data|] == data;
    SpliceOfSplice(s, at, size, base, data);
  }

  lemma SpliceOfSplice(s: seq<byte>, at: nat, size: nat, base: nat, data: seq<byte>)
    requires at + size <= |s| && base + |data| <= size
    ensures Splice(s, at, Splice(s[at..at + size], base, data)) == Splice(s, at + base, data)
  {
  }

  // Whole blocks were read or written.
  lemma BlocksDone(dir: Direction, s: seq<byte>, s': seq<byte>, block: nat, size: nat, n: nat,
                   data: seq<byte>, out: seq<byte>)
    requires size > 0 && n > 0
    requires dir == READ ==> s' == s && |out| == n * size && out == Cut(s, block * size, (block + n) * size)
    requires dir == WRITE ==> 0 <= n * size <= |data| && Spliced(s, s', block * size, Cut(data, 0, n * size))
    ensures Done(dir, s, s', block * size, n * size, data, out)
  {
    hide Done, Cut, Spliced;
    SumOfBlocks(block, n, size);
    RunDone(dir, s, s', block * size, n * size, data, out);
  }

  lemma SumOfBlocks(block: nat, n: nat, size: nat)
    requires size > 0 && n > 0
    ensures (block + n) * size == block * size + n * size && block * size >= 0 && n * size > 0
  {
    MulMonotone(0, block, size);
    MulMonotone(1, n, size);
  }

  lemma RunDone(dir: Direction, s: seq<byte>, s': seq<byte>, at: int, len: int, data: seq<byte>, out: seq<byte>)
    requires at >= 0 && len > 0
    requires dir == READ ==> s' == s && |out| == len && out == Cut(s, at, at + len)
    requires dir == WRITE ==> 0 <= len <= |data| && Spliced(s, s', at, Cut(data, 0, len))
    ensures Done(dir, s, s', at, len, data, out)
  {
  }

  // The input's first n bytes are at an offset, and all other bytes that were there are as before.
  ghost predicate Written(before: seq<byte>, after: seq<byte>, offset: int, n: int, input: seq<byte>) {
    && 0 <= offset <= offset + n <= |after| && |before| <= |after| && n <= |input|
    && after[offset..offset + n] == input[..n]
    && forall i | 0 <= i < |before| && !(offset <= i < offset + n) :: after[i] == before[i]
  }

  lemma NothingWritten(bytes: seq<byte>, offset: nat, input: seq<byte>)
    requires offset <= |bytes|
    ensures Written(bytes, bytes, offset, 0, input)
  {
  }

  lemma GrownAndDone(s0: seq<byte>, s1: seq<byte>, s2: seq<byte>, offset: int, n: int, input: seq<byte>, front: nat,
                     out: seq<byte>)
    requires s0 <= s1 && front <= |input| && Done(WRITE, s1, s2, offset, n, input[..front], out)
    ensures Written(s0, s2, offset, n, input)
  {
    assert input[..front][..n] == input[..n];
  }

  // A transfer of the part of a request that lies inside the file.
  lemma ClippedAndDone(dir: Direction, s0: seq<byte>, s1: seq<byte>, s2: seq<byte>, offset: int, n: int, input: seq<byte>,
                       front: nat, out: seq<byte>)
    requires s0 <= s1 && (dir == READ ==> s1 == s0) && (dir == WRITE ==> front <= |input|)
    requires Done(dir, s1, s2, offset, n, if dir == READ then [] else input[..front], out)
    ensures dir == READ ==> s2 == s0 && |out| == n && out == Cut(s2, offset, offset + n)
    ensures dir == WRITE ==> Written(s0, s2, offset, n, input)
  {
    if dir == WRITE {
      GrownAndDone(s0, s1, s2, offset, n, input, front, out);
    }
  }

  lemma ReadBack(before: seq<byte>, after: seq<byte>, offset: int, n: nat, m: nat, input: seq<byte>)
    requires Written(before, after, offset, n, input) && m <= n
    ensures Cut(after, offset, offset + m) == input[..m]
  {
    assert after[offset..offset + n][..m] == input[..n][..m];
    assert after[offset..offset + m] == after[offset..offset + n][..m];
    assert input[..n][..m] == input[..m];
  }

  function Min(a: int, b: int): int {
    if a < b then a else b
  }

  // The bytes that fit from an offset to the end of a file of some size.
  function Rest(size: nat, offset: nat, bytes: nat): (rest: nat)
    ensures rest <= bytes
  {
    if offset + bytes <= size then bytes else if offset <= size then size - offset else 0
  }

  lemma FilesKeptTwice(d0: Disk, d1: Disk, d2: Disk, p: nat, i0: InodeTable, i1: InodeTable, i2: InodeTable, ino: nat)
    requires FilesKept(d0, d1, p, i0, i1, ino) && FilesKept(d1, d2, p, i1, i2, ino)
    ensures FilesKept(d0, d2, p, i0, i2, ino)
  {
    forall j | j in i0 && j != ino
      ensures j in i2 && i2[j] == i0[j] && SameFile(d0, d2, p, i0[j])
    {
      SameFileTwice(d0, d1, d2, p, i0[j]);
    }
  }

  lemma Cube(p: nat)
    requires p >= 256
    ensures p * p * p >= 0x100_0000 && p * p >= 0
  {
    MulMonotone(256, p, p);
    MulMonotone(0x1_0000, p * p, p);
  }

  lemma FewBlocks(limit: nat, m: nat)
    requires m >= 1024 && limit < 0x1_0000_0000
    ensures limit / m < 0x40_0000
  {
    DivLess(limit, 0x40_0000, m);
  }

  // The three levels of pointer blocks reach further than any size that fits into 32 bits.
  lemma AllReachable(limit: nat, p: nat)
    requires p >= 256 && limit < 0x1_0000_0000
    ensures limit / (4 * p) + 1 <= Base(p, 15)
  {
    hide Base;
    SmallPowers(p);
    Cube(p);
    FewBlocks(limit, 4 * p);
  }

  lemma BetweenBlocks(first: nat, last: nat, size: nat)
    requires first <= last
    ensures (last - first) * size == last * size - first * size >= 0
    ensures first < last ==> (last - 1) * size == last * size - size
  {
    MulMonotone(first, last, size);
  }

  lemma FewerBytes(blocks: nat, count: nat, size: nat)
    requires blocks <= count
    ensures 0 <= blocks * size <= count * size
    ensures blocks < count ==> blocks * size + size <= count * size
  {
    MulMonotone(blocks, count, size);
    if blocks < count {
      OneMore(blocks, size);
      MulMonotone(blocks + 1, count, size);
    }
  }

  // Where a range begins and ends in its first and last block.
  lemma Positions(first: nat, start: nat, last: nat, end: nat, size: nat)
    requires start == first * size && end == last * size && start < end + size
    ensures first <= last && (first == last ==> start == end) && (first < last ==> start + size <= end)
  {
    OneMore(last, size);
    MulMonotone(last + 1, first, size);
    OneMore(first, size);
    MulMonotone(first + 1, last, size);
  }

  // resize_inode, asking for no less than the file has, and granted no more than the size field can hold.
  method GrowFile(fs: Ext2FileSystem, ino: nat, size: nat) returns (granted: nat)
    requires fs.Consistent() && AllSizesOk(fs) && ino in fs.inodes && fs.inodes[ino].size as nat <= size
    requires fs.WillGrant(ino, size) < 0x1_0000_0000
    modifies fs, fs.BitmapParts()
    ensures fs.Consistent() && AllSizesOk(fs) && ino in fs.inodes
    ensures old(fs.inodes[ino].size) as nat <= granted == fs.inodes[ino].size as nat <= size
    ensures granted == old(fs.WillGrant(ino, size))
    ensures granted < size ==> fs.Free() == {} || |fs.FileList(ino)| == Base(fs.p, 15)
    ensures old(fs.Content(ino)) <= fs.Content(ino)
    ensures FilesKept(old(fs.disk), fs.disk, fs.p, old(fs.inodes), fs.inodes, ino)
  {
    hide Ext2FileSystem.Consistent, SameFile, FileData, BlockCount, OneOwnerChanged, Base, Bytes;
    hide Ext2FileSystem.Granted, Ext2FileSystem.WillHave, Ext2FileSystem.Wanted, Ext2FileSystem.Room, FileNeeds,
         WithoutRounds, EntryOk, Ext2FileSystem.SectorsOf;
    SizeIsOk(fs, ino);
    ghost var d, inodes, data, will := fs.disk, fs.inodes, fs.FileList(ino), fs.WillGrant(ino, size);
    fs.Geometric();
    NoLess(fs, ino, size);
    granted := fs.ResizeInode(ino, size);
    ghost var blocks := |FileData(fs.disk, fs.p, fs.inodes[ino])|;
    GrantInBetween(fs, inodes[ino].size, |data|, blocks, size);
    SmallRest(will, fs.blockSize);
    EntryIsOk(fs, ino);
    SizesKept(d, fs.disk, fs.p, fs.blockSize, inodes, fs.inodes, ino);
    PrefixBytes(d, fs.disk, data, fs.FileList(ino));
  }

  // A request whose grant fits into the size field does not ask for fewer blocks, although their count wraps.
  lemma NoLess(fs: Ext2FileSystem, ino: nat, size: nat)
    requires fs.blockSize >= 4 && fs.p > 0 && ino in fs.inodes && fs.SizeOk(ino)
    requires fs.inodes[ino].size as nat <= size && fs.WillGrant(ino, size) < 0x1_0000_0000
    ensures fs.Wanted(size) >= |FileData(fs.disk, fs.p, fs.inodes[ino])|
  {
    hide FileData, BlockCount, Ext2FileSystem.Room, Reach;
    if fs.Wanted(size) < |FileData(fs.disk, fs.p, fs.inodes[ino])| {
      fs.WantedIs32(size);
      MoreBlocks(fs.inodes[ino].size, size, fs.blockSize);
    }
  }

  lemma NeverFurther(fs: Ext2FileSystem, ino: nat, newBlocks: nat)
    requires ino in fs.inodes
    ensures fs.WillHave(ino, newBlocks) <= newBlocks
  {
    hide FileData, Ext2FileSystem.Room, Reach;
    var n := |FileData(fs.disk, fs.p, fs.inodes[ino])|;
    if newBlocks > n {
      ReachBelow(fs.p, n, newBlocks, fs.Room(ino));
    }
  }

  lemma SmallRequestFits(fs: Ext2FileSystem, ino: nat, size: nat)
    requires fs.blockSize > 0 && ino in fs.inodes && size < 0x1_0000_0000
    ensures fs.WillGrant(ino, size) < 0x1_0000_0000
  {
    hide BlockCount, Ext2FileSystem.WillHave;
    var blocks := fs.WillHave(ino, fs.Wanted(size));
    NeverFurther(fs, ino, fs.Wanted(size));
    if blocks != fs.Wanted(size) {
      NotMoreBlocks(blocks, size, fs.blockSize);
    }
  }

  lemma SmallRest(n: nat, blockSize: nat)
    requires n < 0x1_0000_0000 && blockSize > 0
    ensures WithoutRounds(n, blockSize) == n
  {
    hide WithoutRounds;
    MulMonotone(1, blockSize, 0x1_0000_0000);
    var _ := RoundsAndRest(n, blockSize);
  }

  lemma GrantInBetween(fs: Ext2FileSystem, before: nat, had: nat, blocks: nat, size: nat)
    requires fs.blockSize > 0 && before <= size
    requires had == BlockCount(before, fs.blockSize) <= blocks <= fs.Wanted(size)
    ensures before <= fs.Granted(blocks, size) <= size
    ensures blocks == fs.Wanted(size) ==> fs.Granted(blocks, size) == size
  {
    hide BlockCount;
    if blocks != fs.Wanted(size) {
      EnoughBlocks(before, fs.blockSize);
      MulMonotone(had, blocks, fs.blockSize);
      NotMoreBlocks(blocks, size, fs.blockSize);
    }
  }

  class BlockFile {
    const dev: Device
    // The block size that tempBlock was made for.
    var blockBits: nat
    var blockSize: nat
    var tempBlock: seq<byte>

    constructor (dev: Device)
      ensures this.dev == dev && blockBits == 255
    {
      this.dev, blockBits, blockSize, tempBlock := dev, 255, 0, [];
    }

    ghost function DeviceParts(): set<object> {
      match dev
      case Disk(ide) => {ide}
      case File(fs, _) => {fs}
    }

    ghost function Parts(): set<object> {
      match dev
      case Disk(ide) => {ide}
      case File(fs, _) => {fs} + fs.BitmapParts()
    }

    ghost function AllParts(): set<object> {
      match dev
      case Disk(ide) => {ide}
      case File(fs, _) => {fs} + fs.BitmapParts() + fs.InodeParts()
    }

    ghost predicate Valid()
      reads AllParts()
    {
      && this !in AllParts()
      && match dev
         case Disk(ide) => ide.Valid()
         case File(fs, ino) => fs.Consistent() && AllSizesOk(fs) && ino in fs.inodes && fs.blockSize >= 1024
    }

    // temp_block has the size of one block.
    ghost predicate Ready()
      reads this
    {
      this !in AllParts() && blockSize == BlockBytes() == |tempBlock|
    }

    ghost function BlockBytes(): (bytes: nat)
      ensures bytes > 0
    {
      match dev
      case Disk(_) => SECTOR_SIZE
      case File(fs, _) => if fs.blockSize > 0 then fs.blockSize else 1
    }

    // All bytes of all blocks; those of the file are the first Size() of them.
    ghost function Stored(): seq<byte>
      reads AllParts()
    {
      match dev
      case Disk(ide) => ide.sectors
      case File(fs, ino) => fs.Content(ino)
    }

    ghost function Size(): nat
      reads AllParts()
    {
      match dev
      case Disk(ide) => ide.size * SECTOR_SIZE
      case File(fs, ino) => if ino in fs.inodes then fs.inodes[ino].size as nat else 0
    }

    ghost function Blocks(): nat
      reads AllParts()
    {
      match dev
      case Disk(ide) => ide.size
      case File(fs, ino) => |fs.FileList(ino)|
    }

    ghost function Faults(): nat
      reads AllParts()
    {
      match dev
      case Disk(ide) => ide.faults
      case File(_, _) => 0
    }

    // The outcomes of the commands that are still to come.
    ghost function Outcomes(): seq<bool>
      reads AllParts()
    {
      match dev
      case Disk(ide) => ide.outcomes
      case File(_, _) => []
    }

    ghost function Volume(): Disk
      reads AllParts()
    {
      match dev
      case Disk(_) => []
      case File(fs, _) => fs.disk
    }

    ghost function Inodes(): InodeTable
      reads AllParts()
    {
      match dev
      case Disk(_) => map[]
      case File(fs, _) => fs.inodes
    }

    // All other files of the volume are as they were.
    ghost predicate OthersKept(d: Disk, d': Disk, inodes: InodeTable, inodes': InodeTable) {
      match dev
      case Disk(_) => true
      case File(fs, ino) => FilesKept(d, d', fs.p, inodes, inodes', ino)
    }

    lemma OthersAsTheyAre()
      requires Valid()
      ensures OthersKept(Volume(), Volume(), Inodes(), Inodes())
    {
      hide SameFile;
      if dev.File? {
        dev.fs.OthersSame();
      }
    }

    lemma OthersKeptTwice(d0: Disk, d1: Disk, d2: Disk, i0: InodeTable, i1: InodeTable, i2: InodeTable)
      requires OthersKept(d0, d1, i0, i1) && OthersKept(d1, d2, i1, i2)
      ensures OthersKept(d0, d2, i0, i2)
    {
      hide FilesKept;
      if dev.File? {
        FilesKeptTwice(d0, d1, d2, dev.fs.p, i0, i1, i2, dev.ino);
      }
    }

    // No block left to give to the file.
    ghost predicate Exhausted()
      reads AllParts()
    {
      dev.File? && (dev.fs.Free() == {} || |dev.fs.FileList(dev.ino)| == Base(dev.fs.p, 15))
    }

    // Blocks that the device can be asked for: all of them on a disk, those that an inode has pointers for in a file.
    ghost predicate Addressable(limit: int) {
      dev.File? ==> limit <= Base(dev.fs.p, 15)
    }

    method ReadBlocks(offset: nat, count: nat) returns (n: nat, buf: seq<byte>)
      requires Valid() && Addressable(offset + count)
      modifies if dev.Disk? then {dev.ide} else {}
      ensures Valid() && Stored() == old(Stored()) && Size() == old(Size()) && Blocks() == old(Blocks())
      ensures |Outcomes()| <= |old(Outcomes())| && Moved(n, offset, count, Blocks(), old(Faults()), Faults()) && |buf| == n * BlockBytes()
      ensures n > 0 ==> buf == Cut(Stored(), offset * BlockBytes(), (offset + n) * BlockBytes())
      ensures Volume() == old(Volume()) && Inodes() == old(Inodes()) && Exhausted() == old(Exhausted())
    {
      hide Ext2FileSystem.Consistent, FileData, SizesOk;
      match dev
      case Disk(ide) =>
        n, buf := ide.ReadBlocks(offset, count);
      case File(fs, ino) =>
        n, buf := fs.ReadInodeBlocks(ino, offset, count);
    }

    method WriteBlocks(offset: nat, buf: seq<byte>, count: nat) returns (n: nat)
      requires Valid() && Addressable(offset + count) && |buf| == count * BlockBytes()
      modifies DeviceParts()
      ensures Valid() && Size() == old(Size()) && Blocks() == old(Blocks())
      ensures |Outcomes()| <= |old(Outcomes())| && Moved(n, offset, count, Blocks(), old(Faults()), Faults())
      ensures n == 0 ==> Stored() == old(Stored())
      ensures n > 0 ==> Spliced(old(Stored()), Stored(), offset * BlockBytes(), Cut(buf, 0, n * BlockBytes()))
      ensures Exhausted() == old(Exhausted())
      ensures OthersKept(old(Volume()), Volume(), old(Inodes()), Inodes())
    {
      hide FilesKept, Ext2FileSystem.Consistent, Spliced, FileData;
      match dev
      case Disk(ide) =>
        n := ide.WriteBlocks(offset, buf, count);
      case File(fs, ino) =>
        ghost var d, inodes := fs.disk, fs.inodes;
        n := fs.WriteInodeBlocks(ino, offset, buf, count);
        SizesKept(d, fs.disk, fs.p, fs.blockSize, inodes, fs.inodes, ino);
    }

    lemma Shape()
      requires Valid()
      ensures |Stored()| == Blocks() * BlockBytes() && Size() <= |Stored()|
    {
      hide Ext2FileSystem.Consistent;
      match dev
      case Disk(_) =>
      case File(fs, ino) =>
        fs.ContentReadable(ino);
        EnoughBlocks(fs.inodes[ino].size, fs.blockSize);
    }

    function BlockSizeBits(): nat {
      match dev
      case Disk(_) => 9
      case File(fs, _) => fs.blksizeBits
    }

    method CheckBlockSizeChanged()
      requires Valid() && BlockBytes() == Pow(2, BlockSizeBits()) && (blockBits == BlockSizeBits() ==> Ready())
      modifies this
      ensures Valid() && Ready() && blockBits == BlockSizeBits()
      ensures Stored() == old(Stored()) && Size() == old(Size()) && Faults() == old(Faults()) && Outcomes() == old(Outcomes())
      ensures Volume() == old(Volume()) && Inodes() == old(Inodes()) && Exhausted() == old(Exhausted())
    {
      hide Ext2FileSystem.Consistent, SizesOk, Pow;
      if BlockSizeBits() != blockBits {
        blockBits := BlockSizeBits();
        blockSize := Pow(2, blockBits);
        tempBlock := seq(blockSize, _ => 0);
      }
    }

    // access_block_section: some bytes of one block.
    method AccessBlockSection(dir: Direction, data: seq<byte>, block: nat, base: nat, limit: nat)
      returns (ok: bool, out: seq<byte>)
      requires Valid() && Ready() && Addressable(block + 1)
      requires base <= limit <= BlockBytes() && |data| == (if dir == READ then 0 else limit - base)
      modifies this`tempBlock, DeviceParts()
      ensures Valid() && Ready() && Size() == old(Size()) && Blocks() == old(Blocks())
      ensures old(Faults()) <= Faults() && |Outcomes()| <= |old(Outcomes())|
      ensures ok ==> Done(dir, old(Stored()), Stored(), block * BlockBytes() + base, limit - base, data, out)
      ensures !ok ==> Stored() == old(Stored()) && out == [] && (block >= Blocks() || old(Faults()) < Faults())
      ensures Exhausted() == old(Exhausted())
      ensures OthersKept(old(Volume()), Volume(), old(Inodes()), Inodes())
    {
      hide Valid, Done, Stored, Size, Blocks, Faults, Outcomes, Volume, Inodes, OthersKept, BlockBytes, Exhausted, Cut, Spliced;
      out := [];
      OthersAsTheyAre();
      var n, buf := ReadBlocks(block, 1);
      ok := n == 1;
      if !ok {
        return;
      }
      ghost var before, bytes := Stored(), BlockBytes();
      tempBlock := buf;
      if dir == READ {
        SectionRead(before, buf, block, bytes, base, limit);
        out := tempBlock[base..limit];
        return;
      }
      tempBlock := Splice(tempBlock, base, data);
      n := WriteBlocks(block, tempBlock, 1);
      ok := n == 1;
      if ok {
        SectionWritten(before, Stored(), buf, block, bytes, base, data);
      }
    }

    method AccessBlocks(dir: Direction, data: seq<byte>, block: nat, count: nat) returns (n: nat, out: seq<byte>)
      requires Valid() && Addressable(block + count) && |data| == (if dir == READ then 0 else count * BlockBytes())
      modifies DeviceParts()
      ensures Valid() && Size() == old(Size()) && Blocks() == old(Blocks())
      ensures |Outcomes()| <= |old(Outcomes())| && Moved(n, block, count, Blocks(), old(Faults()), Faults())
      ensures n > 0 ==> Done(dir, old(Stored()), Stored(), block * BlockBytes(), n * BlockBytes(), data, out)
      ensures n == 0 ==> Stored() == old(Stored()) && out == []
      ensures Exhausted() == old(Exhausted())
      ensures OthersKept(old(Volume()), Volume(), old(Inodes()), Inodes())
    {
      hide Valid, Done, Stored, Size, Blocks, Faults, Outcomes, Volume, Inodes, OthersKept, BlockBytes, Exhausted, Cut, Spliced;
      n, out := 0, [];
      ghost var before := Stored();
      OthersAsTheyAre();
      if count == 0 {
        return;
      }
      if dir == READ {
        n, out := ReadBlocks(block, count);
      } else {
        n := WriteBlocks(block, data, count);
      }
      if n > 0 {
        MulMonotone(n, count, BlockBytes());
        BlocksDone(dir, before, Stored(), block, BlockBytes(), n, data, out);
      }
    }

    lemma AllStored()
      requires Valid()
      ensures Size() <= |Stored()|
    {
      hide Valid, Stored, Size, Blocks, BlockBytes;
      Shape();
    }

    // A block whose bytes lie inside the file is one of its blocks.
    lemma BlockInRange(block: nat, at: nat)
      requires Valid() && block * BlockBytes() <= at < Size()
      ensures block < Blocks()
    {
      hide Ext2FileSystem.Consistent, SizesOk;
      Shape();
      MulMonotone(Blocks(), block, BlockBytes());
    }

    // The end of a transfer: the first bytes of the last block.
    method TransferTail(dir: Direction, input: seq<byte>, last: nat, tail: nat, ghost end: nat) returns (n: nat, out: seq<byte>)
      requires Valid() && Ready() && end == last * BlockBytes() && tail < BlockBytes() && end + tail <= Size()
      requires Addressable(last + 1) && |input| == if dir == READ then 0 else tail
      modifies this`tempBlock, DeviceParts()
      ensures Valid() && Ready() && Size() == old(Size()) && old(Faults()) <= Faults() && |Outcomes()| <= |old(Outcomes())|
      ensures Done(dir, old(Stored()), Stored(), end, n, input, out)
      ensures n <= tail && (n < tail ==> old(Faults()) < Faults())
      ensures Exhausted() == old(Exhausted())
      ensures OthersKept(old(Volume()), Volume(), old(Inodes()), Inodes())
    {
      hide Valid, Done, Stored, Size, Blocks, Faults, Outcomes, Volume, Inodes, OthersKept, BlockBytes, Exhausted;
      AllStored();
      NothingDone(dir, Stored(), end, input);
      OthersAsTheyAre();
      n, out := 0, [];
      if tail != 0 {
        BlockInRange(last, end);
        var ok, got := AccessBlockSection(dir, input, last, 0, tail);
        if ok {
          n, out := tail, got;
        }
      }
    }

    // The aligned middle of a transfer: whole blocks, the input going on behind them.
    method TransferBlocks(dir: Direction, input: seq<byte>, first: nat, last: nat, ghost start: nat, ghost end: nat)
      returns (n: nat, out: seq<byte>, whole: bool)
      requires Valid() && Ready() && start == first * BlockBytes() && end == last * BlockBytes() && start <= end
      requires first <= last && end <= Size() && Addressable(last + 1)
      requires dir == WRITE ==> end - start <= |input|
      modifies this`tempBlock, DeviceParts()
      ensures Valid() && Ready() && Size() == old(Size()) && old(Faults()) <= Faults() && |Outcomes()| <= |old(Outcomes())|
      ensures Done(dir, old(Stored()), Stored(), start, n, input, out)
      ensures n <= end - start && (whole <==> n == end - start) && (!whole ==> old(Faults()) < Faults())
      ensures Exhausted() == old(Exhausted())
      ensures OthersKept(old(Volume()), Volume(), old(Inodes()), Inodes())
    {
      hide Valid, Done, Stored, Size, Blocks, Faults, Outcomes, Volume, Inodes, OthersKept, BlockBytes, Exhausted;
      OthersAsTheyAre();
      var count := last - first;
      BetweenBlocks(first, last, blockSize);
      AllStored();
      ghost var s0 := Stored();
      NothingDone(dir, s0, start, input);
      n, out, whole := 0, [], true;
      if count > 0 {
        BlockInRange(last - 1, end - 1);
        var blocks, got := AccessBlocks(dir, if dir == READ then [] else input[..count * blockSize], first, count);
        n, out, whole := blocks * blockSize, got, blocks == count;
        FewerBytes(blocks, count, blockSize);
        if blocks > 0 {
          DoneLonger(dir, s0, Stored(), start, n, count * blockSize, input, out);
        }
      }
    }

    // The aligned middle and the tail of a transfer that starts with a block.
    method TransferFromBlock(dir: Direction, input: seq<byte>, first: nat, last: nat, tail: nat, ghost start: nat, ghost end: nat)
      returns (n: nat, out: seq<byte>)
      requires Valid() && Ready() && start == first * BlockBytes() && end == last * BlockBytes() && start <= end
      requires first <= last && tail < BlockBytes() && end + tail <= Size() && Addressable(last + 1)
      requires |input| == if dir == READ then 0 else end + tail - start
      modifies this`tempBlock, DeviceParts()
      ensures Valid() && Ready() && Size() == old(Size()) && old(Faults()) <= Faults() && |Outcomes()| <= |old(Outcomes())|
      ensures Done(dir, old(Stored()), Stored(), start, n, input, out)
      ensures n <= end + tail - start && (n < end + tail - start ==> old(Faults()) < Faults())
      ensures Exhausted() == old(Exhausted())
      ensures OthersKept(old(Volume()), Volume(), old(Inodes()), Inodes())
    {
      hide Valid, Done, Stored, Size, Blocks, Faults, Outcomes, Volume, Inodes, OthersKept, BlockBytes, Exhausted;
      ghost var s0, d0, i0 := Stored(), Volume(), Inodes();
      var whole;
      n, out, whole := TransferBlocks(dir, input, first, last, start, end);
      if !whole {
        return;
      }
      ghost var s1, d1, i1 := Stored(), Volume(), Inodes();
      var rest, more := TransferTail(dir, if dir == READ then [] else input[n..], last, tail, end);
      DoneMore(dir, s0, s1, Stored(), start, n, rest, input, out, more);
      OthersKeptTwice(d0, d1, Volume(), i0, i1, Inodes());
      n, out := n + rest, out + more;
    }

    // A transfer that starts inside a block and ends in a later one.
    method TransferFromInside(dir: Direction, input: seq<byte>, first: nat, skip: nat, last: nat, tail: nat,
                              ghost start: nat, ghost end: nat)
      returns (n: nat, out: seq<byte>)
      requires Valid() && Ready() && start == first * BlockBytes() && end == last * BlockBytes() && start + BlockBytes() <= end
      requires first < last && 0 < skip < BlockBytes() && tail < BlockBytes() && end + tail <= Size() && Addressable(last + 1)
      requires |input| == (if dir == READ then 0 else end + tail - start - skip)
      modifies this`tempBlock, DeviceParts()
      ensures Valid() && Ready() && Size() == old(Size()) && old(Faults()) <= Faults() && |Outcomes()| <= |old(Outcomes())|
      ensures Done(dir, old(Stored()), Stored(), start + skip, n, input, out)
      ensures n <= end + tail - start - skip && (n < end + tail - start - skip ==> old(Faults()) < Faults())
      ensures Exhausted() == old(Exhausted())
      ensures OthersKept(old(Volume()), Volume(), old(Inodes()), Inodes())
    {
      hide Valid, Done, Stored, Size, Blocks, Faults, Outcomes, Volume, Inodes, OthersKept, BlockBytes, Exhausted;
      ghost var s0, d0, i0 := Stored(), Volume(), Inodes();
      AllStored();
      NothingDone(dir, s0, start + skip, input);
      BlockInRange(first, start);
      var head := blockSize - skip;
      var ok, got := AccessBlockSection(dir, if dir == READ then [] else input[..head], first, skip, blockSize);
      n, out := 0, [];
      if !ok {
        return;
      }
      DoneLonger(dir, s0, Stored(), start + skip, head, head, input, got);
      ghost var s1, d1, i1 := Stored(), Volume(), Inodes();
      OneMore(first, blockSize);
      var rest, more := TransferFromBlock(dir, if dir == READ then [] else input[head..], first + 1, last, tail, start + blockSize, end);
      DoneMore(dir, s0, s1, Stored(), start + skip, head, rest, input, got, more);
      OthersKeptTwice(d0, d1, Volume(), i0, i1, Inodes());
      n, out := head + rest, got + more;
    }

    ghost predicate Starts(block: nat, at: nat) {
      at == block * BlockBytes()
    }

    // Where the block of a position starts.
    lemma BlockOf(at: nat)
      requires Ready() && blockSize > 0
      ensures 0 <= at / blockSize && 0 <= at % blockSize < blockSize && at % blockSize <= at
      ensures Starts(at / blockSize, at - at % blockSize)
    {
      DivModIdentity(at, blockSize);
      MulMonotone(0, at / blockSize, blockSize);
    }

    lemma InOrder(first: nat, start: nat, last: nat, end: nat)
      requires BlockBytes() > 0 && Starts(first, start) && Starts(last, end) && start < end + BlockBytes()
      ensures first <= last && (first == last ==> start == end) && (first < last ==> start + BlockBytes() <= end)
    {
      Positions(first, start, last, end, BlockBytes());
    }

    // The blocks in front of the end of a file have pointers.
    lemma BlockIsAddressable(last: nat, end: nat)
      requires Valid() && Starts(last, end) && end <= Size()
      ensures Addressable(last + 1)
    {
      hide Base, SizesOk, Partitioned;
      if dev.File? {
        AllReachable(end, dev.fs.p);
        DivModUnique(last, dev.fs.blockSize, 0);
      }
    }

    // From byte skip of one block to the first bytes of another.
    method TransferRange(dir: Direction, input: seq<byte>, first: nat, skip: nat, last: nat, tail: nat,
                         ghost start: nat, ghost end: nat)
      returns (n: nat, out: seq<byte>)
      requires Valid() && Ready() && Starts(first, start) && Starts(last, end)
      requires skip < BlockBytes() && tail < BlockBytes() && start + skip <= end + tail <= Size() && Addressable(last + 1)
      requires first <= last && (first == last ==> start == end) && (first < last ==> start + BlockBytes() <= end)
      requires |input| == (if dir == READ then 0 else end + tail - start - skip)
      modifies this`tempBlock, DeviceParts()
      ensures Valid() && Ready() && Size() == old(Size()) && old(Faults()) <= Faults() && |Outcomes()| <= |old(Outcomes())|
      ensures Done(dir, old(Stored()), Stored(), start + skip, n, input, out)
      ensures n <= end + tail - start - skip && (n < end + tail - start - skip ==> old(Faults()) < Faults())
      ensures Exhausted() == old(Exhausted())
      ensures OthersKept(old(Volume()), Volume(), old(Inodes()), Inodes())
    {
      hide Valid, Done, Stored, Size, Blocks, Faults, Outcomes, Volume, Inodes, OthersKept, BlockBytes, Exhausted;
      AllStored();
      NothingDone(dir, Stored(), start + skip, input);
      n, out := 0, [];
      if start + skip < end + tail {
        BlockInRange(first, start);
      }
      if first == last {
        var ok, got := AccessBlockSection(dir, input, first, skip, tail);
        if ok {
          n, out := tail - skip, got;
        }
      } else if skip == 0 {
        n, out := TransferFromBlock(dir, input, first, last, tail, start, end);
      } else {
        n, out := TransferFromInside(dir, input, first, skip, last, tail, start, end);
      }
    }

    // A transfer whose range lies inside the file.
    method Transfer(dir: Direction, input: seq<byte>, offset: nat, size: nat) returns (n: nat, out: seq<byte>)
      requires Valid() && Ready() && offset + size <= Size() && |input| == (if dir == READ then 0 else size)
      modifies this`tempBlock, DeviceParts()
      ensures Valid() && Ready() && Size() == old(Size()) && old(Faults()) <= Faults() && |Outcomes()| <= |old(Outcomes())|
      ensures Done(dir, old(Stored()), Stored(), offset, n, input, out)
      ensures n <= size && (n < size ==> old(Faults()) < Faults())
      ensures Exhausted() == old(Exhausted())
      ensures OthersKept(old(Volume()), Volume(), old(Inodes()), Inodes())
    {
      hide Valid, Done, Stored, Size, Blocks, Faults, Outcomes, Volume, Inodes, OthersKept, BlockBytes, Exhausted, Addressable, Starts;
      BlockOf(offset);
      BlockOf(offset + size);
      var first, skip := offset / blockSize, offset % blockSize;
      var last, tail := (offset + size) / blockSize, (offset + size) % blockSize;
      ghost var start, end := offset - skip, offset + size - tail;
      InOrder(first, start, last, end);
      BlockIsAddressable(last, end);
      n, out := TransferRange(dir, input, first, skip, last, tail, start, end);
    }

    method GetSize() returns (size: nat)
      requires Valid()
      ensures Valid() && size == Size()
    {
      match dev
      case Disk(ide) => size := ide.size * 512;
      case File(fs, ino) => size := fs.inodes[ino].size;
    }

    // The size that a file is granted when it is to reach a limit fits into its 32-bit size field.
    ghost predicate Fits(limit: nat)
      requires Valid()
      reads AllParts()
    {
      dev.File? && limit > dev.fs.inodes[dev.ino].size as nat ==> dev.fs.WillGrant(dev.ino, limit) < 0x1_0000_0000
    }

    // The size after a write that is to reach a limit.
    ghost function WillReach(limit: nat): nat
      requires Valid()
      reads AllParts()
    {
      if dev.File? && limit > Size() then dev.fs.WillGrant(dev.ino, limit) else Size()
    }

    /** So it does for every limit below 4 GiB. */
    lemma SmallFits(limit: nat)
      requires Valid() && limit < 0x1_0000_0000
      ensures Fits(limit)
    {
      hide Ext2FileSystem.Consistent, Ext2FileSystem.WillGrant, SizesOk;
      if dev.File? {
        dev.fs.Geometric();
        SmallRequestFits(dev.fs, dev.ino, limit);
      }
    }

    // set_size, asking for more: a file grows at its end, short of the request only when the volume is full
    // or the inode has no pointers left.  A disk stays as it is.
    method SetSize(size: nat) returns (granted: nat)
      requires Valid() && size >= Size() && Fits(size)
      modifies Parts()
      ensures Valid() && Faults() == old(Faults()) && Outcomes() == old(Outcomes()) && old(Stored()) <= Stored()
      ensures dev.Disk? ==> granted == NO_SIZE && Size() == old(Size()) && Stored() == old(Stored())
      ensures dev.File? ==> old(Size()) <= granted == Size() <= size && granted < 0x1_0000_0000 && (granted < size ==> Exhausted())
      ensures Size() == old(WillReach(size))
      ensures OthersKept(old(Volume()), Volume(), old(Inodes()), Inodes())
    {
      hide Ext2FileSystem.Consistent, Ext2FileSystem.WillGrant, FileData, Base, SizesOk, SameFile, OneOwnerChanged, Bytes;
      match dev
      case Disk(_) =>
        granted := NO_SIZE;
      case File(fs, ino) =>
        fs.Geometric();
        if size == fs.inodes[ino].size as nat {
          SmallRequestFits(fs, ino, size);
        }
        granted := GrowFile(fs, ino, size);
    }

    // The part of a request that lies inside the file, which a write first tries to make long enough.
    method Clip(dir: Direction, offset: nat, size: nat) returns (bytes: nat)
      requires Valid() && Ready() && offset <= Size()
      requires dir == WRITE ==> Fits(offset + size)
      modifies Parts()
      ensures Valid() && Ready() && Faults() == old(Faults()) && Outcomes() == old(Outcomes())
      ensures bytes == Rest(Size(), offset, size) && offset + bytes <= Size()
      ensures dir == READ || dev.Disk? || offset + size <= old(Size()) ==> Size() == old(Size()) && Stored() == old(Stored())
      ensures dir == WRITE && dev.File? && old(Size()) < offset + size ==>
                old(Size()) <= Size() <= offset + size && (Size() < offset + size ==> Exhausted())
      ensures dir == WRITE && size > 0 ==> Size() == old(WillReach(offset + size))
      ensures old(Stored()) <= Stored()
      ensures OthersKept(old(Volume()), Volume(), old(Inodes()), Inodes())
    {
      hide Stored, Size, Blocks, Faults, Outcomes, Volume, Inodes, OthersKept, BlockBytes, Exhausted;
      hide Ext2FileSystem.Consistent, Ext2FileSystem.WillGrant, SizesOk;
      OthersAsTheyAre();
      var limit := GetSize();
      bytes := size;
      if offset + size > limit {
        bytes := limit - offset;
        if dir == WRITE {
          var granted := SetSize(offset + size);
          if granted != NO_SIZE {
            bytes := Min(size, granted - offset);
          }
        }
      }
    }

    // access, once the temporary block has the size of the device's blocks.
    method AccessReady(dir: Direction, input: seq<byte>, offset: nat, size: nat) returns (n: nat, out: seq<byte>)
      requires Valid() && Ready() && size > 0
      requires offset <= Size() && |input| == (if dir == READ then 0 else size)
      requires dir == WRITE ==> Fits(offset + size)
      modifies this`tempBlock, Parts()
      ensures Valid() && Ready() && old(Faults()) <= Faults() && |Outcomes()| <= |old(Outcomes())|
      ensures n <= Rest(Size(), offset, size) && (n < Rest(Size(), offset, size) ==> old(Faults()) < Faults())
      ensures dir == READ || dev.Disk? || offset + size <= old(Size()) ==> Size() == old(Size())
      ensures dir == WRITE && dev.File? && old(Size()) < offset + size ==>
                old(Size()) <= Size() <= offset + size && (Size() < offset + size ==> Exhausted())
      ensures dir == WRITE && size > 0 ==> Size() == old(WillReach(offset + size))
      ensures dir == READ ==> Stored() == old(Stored()) && |out| == n && out == Cut(Stored(), offset, offset + n)
      ensures dir == WRITE ==> Written(old(Stored()), Stored(), offset, n, input)
      ensures OthersKept(old(Volume()), Volume(), old(Inodes()), Inodes())
    {
      hide Valid, Stored, Size, Blocks, Faults, Outcomes, Volume, Inodes, OthersKept, BlockBytes, Pow, Exhausted, Fits, WillReach, Done, Written;
      ghost var s0, d0, i0 := Stored(), Volume(), Inodes();
      var bytes := Clip(dir, offset, size);
      ghost var s1, d1, i1 := Stored(), Volume(), Inodes();
      n, out := Transfer(dir, if dir == READ then [] else input[..bytes], offset, bytes);
      OthersKeptTwice(d0, d1, Volume(), i0, i1, Inodes());
      ClippedAndDone(dir, s0, s1, Stored(), offset, n, input, bytes, out);
    }

    /**
     access: a read returns the bytes from an offset to the end of the file or of the request.  A write makes
     the file longer when it can and puts the front of the input into it.  Nothing else changes, and only a
     failed command of the disk makes the transfer shorter; what it returns is then what it did.
     */
    method Access(dir: Direction, input: seq<byte>, offset: nat, size: nat) returns (n: nat, out: seq<byte>)
      requires Valid() && BlockBytes() == Pow(2, BlockSizeBits()) && (blockBits == BlockSizeBits() ==> Ready())
      requires offset <= Size() && |input| == (if dir == READ then 0 else size)
      requires dir == WRITE ==> Fits(offset + size)
      modifies this, Parts()
      ensures Valid() && (blockBits == BlockSizeBits() ==> Ready()) && old(Faults()) <= Faults() && |Outcomes()| <= |old(Outcomes())|
      ensures n <= Rest(Size(), offset, size) && (n < Rest(Size(), offset, size) ==> old(Faults()) < Faults())
      ensures dir == READ || dev.Disk? || offset + size <= old(Size()) ==> Size() == old(Size())
      ensures dir == WRITE && dev.File? && old(Size()) < offset + size ==>
                old(Size()) <= Size() <= offset + size && (Size() < offset + size ==> Exhausted())
      ensures dir == WRITE && size > 0 ==> Size() == old(WillReach(offset + size))
      ensures dir == READ ==> Stored() == old(Stored()) && |out| == n && out == Cut(Stored(), offset, offset + n)
      ensures dir == WRITE ==> Written(old(Stored()), Stored(), offset, n, input)
      ensures OthersKept(old(Volume()), Volume(), old(Inodes()), Inodes())
      ensures Given(old(Outcomes()), Outcomes(), old(Faults()), Faults())
      ensures (forall k | 0 <= k < |old(Outcomes())| :: old(Outcomes())[k]) ==> n == Rest(Size(), offset, size)
    {
      hide Valid, Stored, Size, Blocks, Faults, Outcomes, Volume, Inodes, OthersKept, BlockBytes, Pow, Exhausted, Fits, WillReach, Written,
           Given;
      CommandsSoFar();
      ghost var outcomes, faults := Outcomes(), Faults();
      n, out := 0, [];
      if size == 0 {
        CommandsSince(outcomes, faults);
        OthersAsTheyAre();
        AllStored();
        NothingWritten(Stored(), offset, input);
        return;
      }
      CheckBlockSizeChanged();
      n, out := AccessReady(dir, input, offset, size);
      CommandsSince(outcomes, faults);
    }

    // The outcomes of all commands of the disk from the start.
    ghost function AllOutcomes(): seq<bool> {
      match dev
      case Disk(ide) => ide.all
      case File(_, _) => []
    }

    lemma CommandsSoFar()
      requires Valid()
      ensures Given(AllOutcomes(), Outcomes(), 0, Faults())
    {
      hide Ext2FileSystem.Consistent, SizesOk;
    }

    lemma CommandsSince(outcomes: seq<bool>, faults: nat)
      requires Valid() && Given(AllOutcomes(), outcomes, 0, faults) && |Outcomes()| <= |outcomes|
      ensures Given(outcomes, Outcomes(), faults, Faults())
      ensures (forall k | 0 <= k < |outcomes| :: outcomes[k]) ==> Faults() == faults
    {
      hide Valid, Outcomes, Faults, Given;
      CommandsSoFar();
      GivenSince(AllOutcomes(), outcomes, Outcomes(), faults, Faults());
    }

    /** Bytes that were written to a file are read back from it. */
    method WriteAndReadBack(input: seq<byte>, offset: nat) returns (n: nat, m: nat, out: seq<byte>)
      requires Valid() && BlockBytes() == Pow(2, BlockSizeBits()) && (blockBits == BlockSizeBits() ==> Ready())
      requires offset <= Size() && Fits(offset + |input|)
      modifies this, Parts()
      ensures Valid() && m <= n <= |input| && out == input[..m] && (m < n ==> old(Faults()) < Faults())
      ensures old(Faults()) == Faults() ==> out == input[..Rest(Size(), offset, |input|)]
      ensures Given(old(Outcomes()), Outcomes(), old(Faults()), Faults())
      ensures (forall k | 0 <= k < |old(Outcomes())| :: old(Outcomes())[k]) ==> out == input[..Rest(Size(), offset, |input|)]
    {
      hide Valid, Stored, Size, Blocks, Faults, Outcomes, Volume, Inodes, OthersKept, BlockBytes, Pow, Exhausted, Written,
           Cut, Fits, WillReach, Given;
      ghost var before, outcomes, faults := Stored(), Outcomes(), Faults();
      CommandsSoFar();
      var nothing;
      n, nothing := Access(WRITE, input, offset, |input|);
      assert n <= |input|;
      m, out := Access(READ, [], offset, n);
      ReadBack(before, Stored(), offset, n, m, input);
      CommandsSince(outcomes, faults);
    }
  }
}
