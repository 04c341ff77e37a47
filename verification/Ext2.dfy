/** Ext2FileSystem: block allocation, the pointer blocks of inodes, and inodes. */
module Ext2 {
  import opened Arithmetic
  import opened DiskBlocks
  import opened FileBytes
  import opened Growth
  import opened BlockTrees
  import opened Inodes
  import opened UsageBitmaps
  import opened Volumes

  class Ext2FileSystem {
    const blksizeBits: nat
    const blockSize: nat
    const p: nat
    const blockMap: UsageBitmap
    const inodeMap: UsageBitmap
    var disk: Disk
    // The inode entries in use, by inode number.
    var inodes: map<nat, InodeEntry>
    // The blocks that hold metadata.
    ghost const reserved: set<nat>

    // What init leaves behind after reading the superblock, the group table and the bitmaps.
    constructor (blksizeBits: nat, blockMap: UsageBitmap, inodeMap: UsageBitmap, disk: Disk, inodes: InodeTable,
                 ghost reserved: set<nat>)
      ensures this.blksizeBits == blksizeBits && blockSize == Pow(2, blksizeBits) && p == blockSize / 4
      ensures this.blockMap == blockMap && this.inodeMap == inodeMap && this.disk == disk && this.inodes == inodes
      ensures this.reserved == reserved
    {
      this.blksizeBits := blksizeBits;
      this.blockSize, this.p := Pow(2, blksizeBits), Pow(2, blksizeBits) / 4;
      this.blockMap, this.inodeMap, this.disk, this.inodes := blockMap, inodeMap, disk, inodes;
      this.reserved := reserved;
    }

    ghost function Free(): set<nat>
      reads blockMap
    {
      blockMap.free
    }

    ghost function BitmapParts(): set<object> {
      {blockMap, blockMap.bits, blockMap.groupFree}
    }

    ghost predicate Mounted()
      reads this, BitmapParts()
    {
      && blockMap.Valid() && blockMap.geo.firstNum == 0 && blockMap.geo.numPerGroup == blockMap.geo.blocksPerGroup
      && p > 0 && blockSize == 4 * p
      && |disk| <= blockMap.geo.Count() && |disk| <= 0x1_0000_0000
      && (forall b | 0 <= b < |disk| :: |disk[b]| == blockSize)
      && (forall b | b in Free() :: 0 < b < |disk|)
    }

    ghost function InodeParts(): set<object> {
      {inodeMap, inodeMap.bits, inodeMap.groupFree}
    }

    // An inode number that is in use.
    ghost predicate Numbered(ino: nat)
      reads inodeMap
      requires inodeMap.geo.Valid()
    {
      ino >= 1 && inodeMap.geo.IsUnit(ino - 1) && ino - 1 !in inodeMap.free
    }

    // What every operation on the volume keeps.
    ghost predicate Consistent()
      reads this, BitmapParts(), InodeParts()
    {
      && Mounted() && blockSize <= 0x1_0000_0000
      && Partitioned(disk, p, inodes, Free(), reserved)
      && inodeMap.Valid() && inodeMap.geo.firstNum == 1 && inodeMap.geo.SameNumbering()
      && this !in BitmapParts() && this !in InodeParts() && BitmapParts() !! InodeParts()
      && (forall i | i in inodes :: Numbered(i))
    }

    lemma Geometric()
      requires Consistent()
      ensures p > 0 && blockSize == 4 * p && blockSize <= 0x1_0000_0000
    {
    }

    // The size of the file agrees with its blocks.
    ghost predicate SizeOk(ino: nat)
      reads this
      requires blockSize > 0 && ino in inodes
    {
      |FileData(disk, p, inodes[ino])| == BlockCount(inodes[ino].size, blockSize)
    }

    // The tree of height h that hangs from a pointer.
    ghost function Tree(ptr: nat, h: nat): (t: Tree)
      reads this
      ensures t == Empty <==> ptr == 0
    {
      TreeAt(disk, p, ptr, h)
    }

    method AllocBlock() returns (b: word)
      requires Mounted()
      modifies BitmapParts()
      ensures Mounted()
      ensures b == 0 <==> old(Free()) == {}
      ensures b == 0 ==> Free() == old(Free())
      ensures b != 0 ==> b in old(Free()) && Free() == old(Free()) - {b as nat} && forall m | m in old(Free()) :: b as nat <= m
    {
      var n := blockMap.Alloc();
      assert n != 0 ==> n in old(Free());
      b := n;
    }

    method FreeBlock(b: word)
      requires Mounted() && 0 < b as int < |disk|
      modifies BitmapParts()
      ensures Mounted() && Free() == old(Free()) + {b as nat}
    {
      hide UsageBitmap.Valid, Geometry.Released;
      ghost var free := Free();
      Releasable(b);
      blockMap.Dealloc(b);
      assert Free() == free + {b as nat};
    }

    lemma Releasable(b: word)
      requires Mounted() && 0 < b as int < |disk|
      ensures blockMap.geo.Released(b) == b && b as int / blockMap.geo.numPerGroup < blockMap.geo.groups
    {
      blockMap.geo.SameNumberingReleases(b);
      blockMap.geo.GroupInRange(b);
    }

    method ReadPointers(b: nat) returns (ptrs: seq<word>)
      requires Mounted() && b < |disk|
      ensures |ptrs| == p && forall i | 0 <= i < p :: ptrs[i] == Ptr(disk, b, i)
    {
      ptrs := WordsOf(disk[b]);
    }

    method WritePointers(b: nat, ptrs: seq<word>)
      requires Mounted() && b < |disk| && |ptrs| == p
      modifies this`disk
      ensures Mounted()
      ensures |disk| == old(|disk|) && forall c | 0 <= c < |disk| && c != b :: disk[c] == old(disk[c])
      ensures forall i | 0 <= i < p :: Ptr(disk, b, i) == ptrs[i]
    {
      PtrAfterWrite(disk, b, ptrs);
      disk := disk[b := BytesOf(ptrs)];
    }

    method ClearBlock(b: nat)
      requires Mounted() && b < |disk|
      modifies this`disk
      ensures Mounted()
      ensures |disk| == old(|disk|) && forall c | 0 <= c < |disk| && c != b :: disk[c] == old(disk[c])
      ensures forall i | 0 <= i < p :: Ptr(disk, b, i) == 0
    {
      PtrAfterClear(disk, b, blockSize);
      disk := disk[b := Zeros(blockSize)];
    }

    // A new entry for a pointer table: a data block, or a pointer block full of zeros.
    method NewEntry(layer: nat) returns (b: word)
      requires Mounted()
      modifies this`disk, BitmapParts()
      ensures Mounted()
      ensures b == 0 <==> old(Free()) == {}
      ensures |disk| == old(|disk|)
      ensures b == 0 ==> Free() == old(Free()) && disk == old(disk)
      ensures b != 0 ==> TreeGrown(old(disk), disk, p, 0, b, layer, if layer == 0 then 1 else 0, old(Free()), Free())
    {
      hide UsageBitmap.Valid, TreeGrown, Ptr;
      ghost var d, free := disk, Free();
      b := AllocBlock();
      if b != 0 {
        if layer > 0 {
          ClearBlock(b);
        }
        assert free - Free() == {b as nat};
        FreshGrowth(d, disk, p, b, layer, free, Free());
      }
    }

    // The body of alloc_inode_ptrblk's loop: entry idx of the table is allocated if it is missing, and
    // the blocks below it are.
    method FillEntry(ghost t: Tree, ptrs: seq<word>, idx: nat, want: nat, layer: nat,
                     ghost added: nat, ghost d0: Disk, ghost free0: set<nat>)
      returns (blkn: word, more: nat)
      requires Mounted() && want > 0 && |ptrs| == p && idx < p && t.Node?
      requires Filling(d0, disk, p, t, ptrs, layer, added, free0, Free())
      requires forall j | idx < j < p :: ptrs[j] == 0
      requires (forall i | 0 <= i < idx :: Full(Tree(ptrs[i], layer), layer)) || (Free() == {} && ptrs[idx] == 0)
      modifies this`disk, BitmapParts()
      ensures Mounted() && |disk| == old(|disk|)
      ensures blkn == 0 ==> disk == old(disk) && Free() == old(Free()) == {} && more == 0
      ensures blkn != 0 ==>
                && Filling(d0, disk, p, t, ptrs[idx := blkn], layer, added + more, free0, Free())
                && more <= want
                && (forall i | 0 <= i < idx :: Full(Tree(ptrs[i], layer), layer))
                && (more < want ==> Free() == {} || Full(Tree(blkn, layer), layer))
      decreases layer, 0
    {
      hide Filling, TreeGrown, Owned, WellFormed, Full, Blocks, Inner, Data, TreeAt, Ptr, UsageBitmap.Valid, SameElsewhere;
      blkn, more := ptrs[idx], 0;
      ghost var now := ptrs;
      if blkn == 0 {
        ghost var d, f := disk, Free();
        blkn := NewEntry(layer);
        if blkn == 0 {
          return;
        }
        if layer == 0 {
          more := 1;
        }
        FillingStep(d0, d, disk, p, t, now, idx, blkn, layer, added, more, free0, f, Free());
        now := now[idx := blkn];
      }
      assert forall i | 0 <= i < idx :: Full(Tree(now[i], layer), layer);
      if layer > 0 {
        ghost var d, f := disk, Free();
        EntrySound(d0, d, p, t, now, layer, added, free0, f, idx);
        more := AllocPtrBlk(blkn, want, layer - 1);
        FillingStep(d0, d, disk, p, t, now, idx, blkn, layer, added, more, free0, f, Free());
        assert now[idx := blkn] == now;
      } else {
        DataBlockFull(disk, p, blkn);
      }
      assert now == ptrs[idx := blkn];
      assert forall i | 0 <= i < idx :: now[i] == ptrs[i] && Full(Tree(now[i], layer), layer);
    }

    // alloc_inode_ptrblk: the tree grows by up to count data blocks, and by fewer only when no block
    // is free or the tree is full.
    method AllocPtrBlk(blknum: word, count: nat, layer: nat) returns (added: nat)
      requires Mounted() && count > 0 && blknum != 0
      requires WellFormed(Tree(blknum, layer + 1), p, layer + 1)
      requires Owned(Blocks(Tree(blknum, layer + 1)), |disk|, Free())
      modifies this`disk, BitmapParts()
      ensures Mounted() && |disk| == old(|disk|)
      ensures TreeGrown(old(disk), disk, p, blknum, blknum, layer + 1, added, old(Free()), Free())
      ensures NewFrom(Data(old(Tree(blknum, layer + 1))), Data(Tree(blknum, layer + 1)), old(Free()))
      ensures added <= count
      ensures added < count ==> Free() == {} || Full(Tree(blknum, layer + 1), layer + 1)
      decreases layer, 1
    {
      hide Filling, TreeGrown, Owned, WellFormed, Full, Blocks, Inner, Data, TreeAt, Ptr, UsageBitmap.Valid;
      ghost var t, free := Tree(blknum, layer + 1), Free();
      RootInRange(blknum, layer + 1);
      var ptrs := ReadPointers(blknum);
      FillingStart(disk, p, blknum, ptrs, layer, free);

      added := 0;
      var idx := p - 1;
      while ptrs[idx] == 0 && idx != 0
        invariant 0 <= idx < p
        invariant forall j | idx < j < p :: ptrs[j] == 0
      {
        idx := idx - 1;
      }
      if ptrs[idx] != 0 {
        FullBefore(disk, disk, p, t, ptrs, layer, 0, free, free, idx);
      }

      while idx < p
        invariant Mounted() && |disk| == old(|disk|) && |ptrs| == p
        invariant 0 <= idx <= p && added < count
        invariant Filling(old(disk), disk, p, t, ptrs, layer, added, free, Free())
        invariant forall j | idx < j < p :: ptrs[j] == 0
        invariant (forall i | 0 <= i < idx :: Full(Tree(ptrs[i], layer), layer))
                  || (Free() == {} && (idx < p ==> ptrs[idx] == 0))
      {
        var blkn, more := FillEntry(t, ptrs, idx, count - added, layer, added, old(disk), free);
        if blkn == 0 {
          break;
        }
        ptrs := ptrs[idx := blkn];
        added := added + more;
        // The driver panics when it has allocated more than requested.
        assert added <= count;
        if added == count {
          break;
        }
        idx := idx + 1;
      }
      ghost var d := disk;
      WritePointers(blknum, ptrs);
      FillingEnd(old(disk), d, disk, p, blknum, ptrs, layer, added, free, Free());
      TreeGrownFromFree(old(disk), disk, p, blknum, blknum, layer + 1, added, free, Free());
    }

    lemma RootInRange(ptr: nat, h: nat)
      requires ptr != 0 && Owned(Blocks(Tree(ptr, h)), |disk|, Free())
      ensures ptr < |disk|
    {
      assert ptr in Blocks(Tree(ptr, h));
    }

    // The body of dealloc_inode_ptrblk's loop: the last blocks below entry idx are freed, and the entry goes
    // with its block when the tree below says so.
    method EmptyEntry(ghost t: Tree, ptrs: seq<word>, idx: nat, want: nat, layer: nat,
                      ghost freed: nat, ghost d0: Disk, ghost free0: set<nat>)
      returns (lost: nat, ptrs': seq<word>, ghost exact: bool)
      requires Mounted() && want > 0 && |ptrs| == p && idx < p && ptrs[idx] != 0 && t.Node?
      requires Emptying(d0, disk, p, t, ptrs, layer, freed, free0, Free(), true)
      requires forall j | idx < j < p :: ptrs[j] == 0
      modifies this`disk, BitmapParts()
      ensures Mounted() && |disk| == old(|disk|)
      ensures Emptying(d0, disk, p, t, ptrs', layer, freed + lost, free0, Free(), exact)
      ensures var k := old(|Data(Tree(ptrs[idx], layer))|);
              && k <= Pow(p, layer) && |Data(t)| == freed + idx * Pow(p, layer) + k
              && (if want >= k then lost == k && exact && ptrs' == ptrs[idx := 0]
                  else lost == want && (exact <==> Cuttable(p, layer, k - want)) && (exact ==> ptrs' == ptrs))
      ensures ptrs' == ptrs || ptrs' == ptrs[idx := 0]
      decreases layer, 0
    {
      hide Emptying, Pruned, Owned, WellFormed, Blocks, Inner, Data, TreeAt, Ptr, SameElsewhere, UsageBitmap.Valid;
      hide Cuttable, Pow;
      ghost var d, f := disk, Free();
      LastEntry(d0, disk, p, t, ptrs, layer, freed, free0, Free(), idx);
      var blkn := ptrs[idx];
      RootInRange(blkn, layer);
      ptrs' := ptrs;
      if layer > 0 {
        var may;
        lost, may, exact := DeallocPtrBlk(blkn, want, layer - 1);
        if may {
          ghost var left := Tree(blkn, layer);
          KidGone(d, disk, p, blkn, layer, lost, f, Free(), exact);
          FreeBlock(blkn);
          exact := exact && Data(left) == [];
          ptrs' := ptrs[idx := 0];
        }
      } else {
        lost, exact := 1, true;
        FreeBlock(blkn);
        DataBlockGone(blkn, f);
        ptrs' := ptrs[idx := 0];
      }
      assert Tree(0, layer) == Empty;
      EmptyingStep(d0, d, disk, p, t, ptrs, idx, ptrs'[idx], layer, freed, lost, free0, f, Free(), exact);
      assert ptrs[idx := ptrs'[idx]] == ptrs';
    }

    lemma DataBlockGone(b: nat, free: set<nat>)
      requires b != 0 && Owned(Blocks(Tree(b, 0)), |disk|, free)
      ensures Pruned(Tree(b, 0), Empty, disk, disk, p, 0, 1, free, free + {b}, true)
      ensures |Data(Tree(b, 0))| == 1
    {
      assert b in Blocks(Tree(b, 0));
      assert free + {b} - free == {b};
    }

    // dealloc_inode_ptrblk: the last count data blocks go.  The cut is exact, and the answer whether the table
    // itself may go is right, exactly when all blocks go or the rest is cuttable.
    method DeallocPtrBlk(blknum: word, count: nat, layer: nat) returns (freed: nat, mayDealloc: bool, ghost exact: bool)
      requires Mounted() && count > 0 && blknum != 0
      requires WellFormed(Tree(blknum, layer + 1), p, layer + 1)
      requires Owned(Blocks(Tree(blknum, layer + 1)), |disk|, Free())
      modifies this`disk, BitmapParts()
      ensures Mounted() && |disk| == old(|disk|)
      ensures TreeShrunk(old(disk), disk, p, blknum, layer + 1, freed, old(Free()), Free(), exact)
      ensures var n := old(|Data(Tree(blknum, layer + 1))|);
              if count >= n then freed == n && exact && mayDealloc && Blocks(Tree(blknum, layer + 1)) == multiset{blknum as nat}
              else freed == count && (exact && !mayDealloc <==> Cuttable(p, layer + 1, n - count))
      ensures exact ==> (Data(Tree(blknum, layer + 1)) == [] <==> count >= old(|Data(Tree(blknum, layer + 1))|))
      decreases layer, 2
    {
      hide Emptying, TreeShrunk, Pruned, Owned, WellFormed, Blocks, Inner, Data, TreeAt, Ptr, SameElsewhere;
      hide UsageBitmap.Valid, Cuttable, Pow;
      ghost var t, free := Tree(blknum, layer + 1), Free();
      RootInRange(blknum, layer + 1);
      var ptrs := ReadPointers(blknum);
      EmptyingStart(disk, p, blknum, ptrs, layer, free);

      freed, exact := 0, true;
      var idx: int := 0;
      while idx < p && ptrs[idx] != 0
        invariant 0 <= idx <= p
        invariant forall j | 0 <= j < idx :: ptrs[j] != 0
      {
        idx := idx + 1;
      }
      if idx < p {
        EmptyFront(disk, disk, p, t, ptrs, layer, 0, free, free, true, idx);
      }
      if idx <= 0 {
        EmptyingEnd(disk, disk, disk, p, blknum, ptrs, layer, 0, free, free, true);
        ShrunkSize(disk, disk, p, blknum, layer + 1, 0, free, free, true);
        return 0, true, true;
      }
      idx := idx - 1;

      freed, ptrs, idx, exact := EmptyTable(t, ptrs, idx, count, layer, free);
      if ptrs[0] == 0 {
        EmptyFront(old(disk), disk, p, t, ptrs, layer, freed, free, Free(), exact, 0);
      }
      ghost var d := disk;
      WritePointers(blknum, ptrs);
      EmptyingEnd(old(disk), d, disk, p, blknum, ptrs, layer, freed, free, Free(), exact);
      ShrunkSize(old(disk), disk, p, blknum, layer + 1, freed, free, Free(), exact);
      mayDealloc := idx <= 0;
    }

    // The loop of dealloc_inode_ptrblk, from the last present entry down.
    method EmptyTable(ghost t: Tree, ptrs0: seq<word>, last: nat, count: nat, layer: nat, ghost free0: set<nat>)
      returns (freed: nat, ptrs: seq<word>, idx: int, ghost exact: bool)
      requires Mounted() && count > 0 && |ptrs0| == p && last < p && t.Node?
      requires Emptying(disk, disk, p, t, ptrs0, layer, 0, free0, Free(), true)
      requires forall j | 0 <= j < p :: ptrs0[j] != 0 <==> j <= last
      modifies this`disk, BitmapParts()
      ensures Mounted() && |disk| == old(|disk|) && |ptrs| == p
      ensures Emptying(old(disk), disk, p, t, ptrs, layer, freed, free0, Free(), exact)
      ensures if count >= |Data(t)| then freed == |Data(t)| && exact && ptrs[0] == 0 && idx <= 0
              else freed == count && (exact && idx > 0 <==> Cuttable(p, layer + 1, |Data(t)| - count))
      decreases layer, 1
    {
      hide Emptying, TreeShrunk, Pruned, Owned, WellFormed, Blocks, Inner, Data, TreeAt, Ptr, SameElsewhere;
      hide UsageBitmap.Valid, Cuttable, Pow;
      freed, ptrs, idx, exact := 0, ptrs0, last, true;
      while idx >= 0
        invariant Mounted() && |disk| == old(|disk|) && |ptrs| == p && exact
        invariant -1 <= idx < p && freed < count && freed <= |Data(t)|
        invariant Emptying(old(disk), disk, p, t, ptrs, layer, freed, free0, Free(), true)
        invariant forall j | 0 <= j <= idx :: ptrs[j] != 0
        invariant forall j | idx < j < p :: ptrs[j] == 0
      {
        ghost var k := |Data(Tree(ptrs[idx], layer))|;
        var lost;
        lost, ptrs, exact := EmptyEntry(t, ptrs, idx, count - freed, layer, freed, old(disk), free0);
        LastCut(layer, idx, k, count - freed);
        freed := freed + lost;
        // The driver panics when it has freed more than requested.
        assert freed <= count;
        if freed == count {
          break;
        }
        idx := idx - 1;
      }
      if ptrs[0] == 0 {
        EmptyFront(old(disk), disk, p, t, ptrs, layer, freed, free0, Free(), exact, 0);
      }
    }

    // The last round of the loop: what remains, and whether the cut is exact.
    lemma LastCut(layer: nat, idx: nat, k: nat, want: nat)
      requires p > 0 && k <= Pow(p, layer) && want > 0
      ensures var left := idx * Pow(p, layer) + k - want;
              && (want == k ==> left >= 0 && (left > 0 <==> idx > 0) && Cuttable(p, layer + 1, left))
              && (want < k ==> left > 0 && (Cuttable(p, layer + 1, left) <==> idx > 0 && Cuttable(p, layer, k - want)))
    {
      hide Pow, Cuttable;
      PowPositive(p, layer);
      MulMonotone(1, idx, Pow(p, layer));
      MulMonotone(0, idx, Pow(p, layer));
      if want <= k {
        CuttableAt(p, layer, idx, k - want);
      }
    }

    method SetPtr(ino: nat, i: nat, ptr: word)
      requires ino in inodes && |inodes[ino].direct| == 12 && i < 15
      modifies this`inodes
      ensures inodes == old(inodes)[ino := old(inodes)[ino].WithPtr(i, ptr)]
    {
      inodes := inodes[ino := inodes[ino].WithPtr(i, ptr)];
    }

    // Every tree before tree i is full.
    ghost predicate FullUpTo(ino: nat, i: nat)
      reads this
      requires ino in inodes && i <= |inodes[ino].Ptrs()|
    {
      forall j | 0 <= j < i :: Full(Tree(inodes[ino].Ptrs()[j], Height(j)), Height(j))
    }

    // One of the three blocks of code for the indirect trees in alloc_inode_blocks: the pointer block
    // is allocated if it is missing, and then filled.
    method GrowRoot(ino: nat, i: nat, want: nat, ghost added: nat, ghost d0: Disk, ghost e0: InodeEntry,
                    ghost free0: set<nat>)
      returns (ok: bool, more: nat)
      requires Mounted() && ino in inodes && 12 <= i < 15 && want > 0
      requires InodeGrowing(d0, disk, p, e0, inodes[ino], added, free0, Free())
      requires FullUpTo(ino, i) || (Free() == {} && inodes[ino].Ptrs()[i] == 0)
      modifies this`disk, this`inodes, BitmapParts()
      ensures Mounted() && |disk| == old(|disk|)
      ensures ino in inodes && inodes == old(inodes)[ino := inodes[ino]]
      ensures InodeGrowing(d0, disk, p, e0, inodes[ino], added + more, free0, Free())
      ensures more <= want
      ensures !ok ==> Free() == {} && more == 0
      ensures ok ==> FullUpTo(ino, i) && (more < want ==> FullUpTo(ino, i + 1) || Free() == {})
    {
      hide InodeGrowing, TreeGrown, Owned, WellFormed, Full, Blocks, Inner, Data, TreeAt, UsageBitmap.Valid;
      hide InodeEntry.Ptrs, InodeEntry.WithPtr, Roots;
      ok, more := true, 0;
      InodeSound(d0, e0, ino, added, free0);
      if inodes[ino].Ptrs()[i] == 0 {
        ghost var d, f, e := disk, Free(), inodes[ino];
        RootsBefore(disk, p, e, Free(), i);
        var b := NewEntry(i - 11);
        if b == 0 {
          return false, 0;
        }
        InodeGrowingStep(d0, d, disk, p, e0, e, i, b, added, 0, free0, f, Free());
        SetPtr(ino, i, b);
        assert FullUpTo(ino, i);
      }
      ghost var d, f, e := disk, Free(), inodes[ino];
      InodeSound(d0, e0, ino, added, free0);
      RootsBefore(disk, p, e, Free(), i);
      more := AllocPtrBlk(inodes[ino].Ptrs()[i], want, i - 12);
      if forall j | i < j < 15 :: e.Ptrs()[j] == 0 {
        InodeGrowingStep(d0, d, disk, p, e0, e, i, e.Ptrs()[i], added, more, free0, f, Free());
        e.SamePtr(i);
      } else {
        InodeUnchangedStep(d0, d, disk, p, e0, e, i, added, more, free0, f, Free());
      }
    }

    lemma InodeSound(d0: Disk, e0: InodeEntry, ino: nat, added: nat, free0: set<nat>)
      requires ino in inodes && InodeGrowing(d0, disk, p, e0, inodes[ino], added, free0, Free())
      ensures Sound(disk, p, inodes[ino], Free())
    {
    }

    // A tree that could not be filled is the last one.
    lemma NextRoot(ino: nat, i: nat, added: nat, d0: Disk, e0: InodeEntry, free0: set<nat>)
      requires ino in inodes && i < 14 && InodeGrowing(d0, disk, p, e0, inodes[ino], added, free0, Free())
      requires FullUpTo(ino, i)
      ensures FullUpTo(ino, i + 1) || inodes[ino].Ptrs()[i + 1] == 0
    {
      RootsBefore(disk, p, inodes[ino], Free(), i);
    }

    // The loop of alloc_inode_blocks over the direct pointers.
    method AllocDirect(ino: nat, count: nat) returns (more: bool, added: nat)
      requires Mounted() && ino in inodes && Sound(disk, p, inodes[ino], Free()) && count > 0
      modifies this`disk, this`inodes, BitmapParts()
      ensures Mounted() && |disk| == old(|disk|)
      ensures ino in inodes && inodes == old(inodes)[ino := inodes[ino]]
      ensures InodeGrowing(old(disk), disk, p, old(inodes[ino]), inodes[ino], added, old(Free()), Free())
      ensures more ==> added < count && FullUpTo(ino, 12)
      ensures !more ==> added == count || (added < count && Free() == {})
    {
      hide InodeGrowing, TreeGrown, Owned, WellFormed, Full, Blocks, Inner, Data, TreeAt, UsageBitmap.Valid;
      ghost var e0, free := inodes[ino], Free();
      InodeGrowingStart(disk, p, e0, free);
      added := 0;
      var i := 0;
      while i < 12
        invariant Mounted() && |disk| == old(|disk|) && 0 <= i <= 12 && added < count
        invariant ino in inodes && inodes == old(inodes)[ino := inodes[ino]] && |inodes[ino].direct| == 12
        invariant InodeGrowing(old(disk), disk, p, e0, inodes[ino], added, free, Free())
        invariant FullUpTo(ino, i)
      {
        if inodes[ino].direct[i] == 0 {
          ghost var d, f, e := disk, Free(), inodes[ino];
          InodeSound(old(disk), e0, ino, added, free);
          RootsBefore(disk, p, e, Free(), i);
          var b := NewEntry(0);
          if b == 0 {
            return false, added;
          }
          InodeGrowingStep(old(disk), d, disk, p, e0, e, i, b, added, 1, free, f, Free());
          SetPtr(ino, i, b);
          added := added + 1;
          if added >= count {
            return false, added;
          }
        }
        DataBlockFull(disk, p, inodes[ino].direct[i]);
        i := i + 1;
      }
      more := true;
    }

    // The direct pointers and the three trees, one behind the other.
    method AllocFile(ino: nat, count: nat) returns (added: nat)
      requires Mounted() && ino in inodes && Sound(disk, p, inodes[ino], Free())
      modifies this`disk, this`inodes, BitmapParts()
      ensures Mounted() && |disk| == old(|disk|)
      ensures ino in inodes && inodes == old(inodes)[ino := inodes[ino]]
      ensures InodeGrowing(old(disk), disk, p, old(inodes[ino]), inodes[ino], added, old(Free()), Free())
      ensures added <= count && (added < count ==> Free() == {} || FullUpTo(ino, 15))
    {
      hide InodeGrowing, TreeGrown, Owned, WellFormed, Full, Blocks, Inner, Data, TreeAt, UsageBitmap.Valid;
      hide FullUpTo, Sound;
      ghost var e0, free := inodes[ino], Free();
      added := 0;
      if count == 0 {
        InodeGrowingStart(disk, p, e0, free);
        return;
      }
      var ok, more;
      ok, added := AllocDirect(ino, count);
      if !ok {
        return;
      }
      ok, more := GrowRoot(ino, 12, count - added, added, old(disk), e0, free);
      added := added + more;
      if !ok || added >= count {
        return;
      }
      NextRoot(ino, 12, added, old(disk), e0, free);
      ok, more := GrowRoot(ino, 13, count - added, added, old(disk), e0, free);
      added := added + more;
      if !ok || added >= count {
        return;
      }
      NextRoot(ino, 13, added, old(disk), e0, free);
      ok, more := GrowRoot(ino, 14, count - added, added, old(disk), e0, free);
      added := added + more;
    }

    // alloc_inode_blocks: the file grows by up to count blocks, and by fewer only when no block is free
    // or the inode addresses no more.
    method AllocInodeBlocks(ino: nat, count: nat) returns (added: nat)
      requires Mounted() && ino in inodes && Sound(disk, p, inodes[ino], Free())
      modifies this`disk, this`inodes, BitmapParts()
      ensures Mounted() && |disk| == old(|disk|)
      ensures ino in inodes && inodes == old(inodes)[ino := inodes[ino]]
      ensures InodeGrowing(old(disk), disk, p, old(inodes[ino]), inodes[ino], added, old(Free()), Free())
      ensures NewFrom(old(FileData(disk, p, inodes[ino])), FileData(disk, p, inodes[ino]), old(Free()))
      ensures added <= count && (added < count ==> Free() == {} || FullUpTo(ino, 15))
    {
      ghost var d, e, f := disk, inodes[ino], Free();
      added := AllocFile(ino, count);
      GrownFromFree(d, disk, p, e, inodes[ino], added, f, Free());
    }

    // One of the three blocks of code for the indirect trees in dealloc_inode_blocks.
    method CutRoot(ino: nat, i: nat, want: nat, ghost freed: nat, ghost d0: Disk, ghost e0: InodeEntry,
                   ghost free0: set<nat>)
      returns (less: nat, ghost exact: bool)
      requires Mounted() && ino in inodes && 12 <= i < 15 && want > 0
      requires InodeShrinking(d0, disk, p, e0, inodes[ino], freed, free0, Free(), true)
      requires |inodes[ino].direct| == 12 && forall j | i < j < 15 :: inodes[ino].Ptrs()[j] == 0
      modifies this`disk, this`inodes, BitmapParts()
      ensures Mounted() && |disk| == old(|disk|)
      ensures ino in inodes && inodes == old(inodes)[ino := inodes[ino]] && |inodes[ino].direct| == 12
      ensures InodeShrinking(d0, disk, p, e0, inodes[ino], freed + less, free0, Free(), exact)
      ensures var k := old(RootLen(disk, p, inodes[ino], i));
              if want >= k then less == k && exact && inodes[ino].Ptrs()[i] == 0
              else less == want && (exact <==> Cuttable(p, i - 11, k - want))
      ensures forall j | 0 <= j < 15 && j != i ::
                inodes[ino].Ptrs()[j] == old(inodes[ino].Ptrs()[j])
                && RootLen(disk, p, inodes[ino], j) == old(RootLen(disk, p, inodes[ino], j))
    {
      hide InodeShrinking, Pruned, Owned, WellFormed, Full, Blocks, Inner, Data, SameElsewhere, UsageBitmap.Valid;
      hide InodeEntry.Ptrs, InodeEntry.WithPtr, Roots, Cuttable;
      ghost var d, f, e := disk, Free(), inodes[ino];
      ShrinkingShape(d0, disk, p, e0, e, freed, free0, f, true);
      RootsBefore(disk, p, e, f, i);
      var ptr := inodes[ino].Ptrs()[i];
      if ptr == 0 {
        NoTree(e, i);
        return 0, true;
      }
      RootInRange(ptr, i - 11);
      var may;
      less, may, exact := DeallocPtrBlk(ptr, want, i - 12);
      if may {
        ghost var left := Tree(ptr, i - 11);
        KidGone(d, disk, p, ptr, i - 11, less, f, Free(), exact);
        FreeBlock(ptr);
        exact := exact && Data(left) == [];
        SetPtr(ino, i, 0);
        InodeShrinkingStep(d0, d, disk, p, e0, e, i, 0, freed, less, free0, f, Free(), exact);
      } else {
        InodeShrinkingStep(d0, d, disk, p, e0, e, i, ptr, freed, less, free0, f, Free(), exact);
        SameEntry(e, i);
      }
    }

    lemma SameEntry(e: InodeEntry, i: nat)
      requires |e.direct| == 12 && i < 15
      ensures e.WithPtr(i, e.Ptrs()[i]) == e
    {
    }

    lemma NoTree(e: InodeEntry, i: nat)
      requires i < |e.Ptrs()| && e.Ptrs()[i] == 0
      ensures RootLen(disk, p, e, i) == 0
    {
    }

    // The loop of dealloc_inode_blocks over the direct pointers.  It has no exit but the return inside,
    // so a request for more blocks than there are would let its index wrap.
    method DeallocDirect(ino: nat, want: nat, ghost freed: nat, ghost d0: Disk, ghost e0: InodeEntry,
                         ghost free0: set<nat>)
      returns (less: nat)
      requires Mounted() && ino in inodes && 0 < want
      requires InodeShrinking(d0, disk, p, e0, inodes[ino], freed, free0, Free(), true)
      requires |inodes[ino].direct| == 12 && forall j | 12 <= j < 15 :: inodes[ino].Ptrs()[j] == 0
      requires freed + want <= |FileData(d0, p, e0)|
      modifies this`inodes, BitmapParts()
      ensures Mounted()
      ensures ino in inodes && inodes == old(inodes)[ino := inodes[ino]]
      ensures InodeShrinking(d0, disk, p, e0, inodes[ino], freed + less, free0, Free(), true)
      ensures less == want
    {
      hide InodeShrinking, Owned, WellFormed, Full, Blocks, Inner, Data, TreeAt, SameElsewhere, UsageBitmap.Valid;
      hide Roots;
      less := 0;
      var i := 11;
      while true
        invariant Mounted() && 0 <= i < 12 && less < want
        invariant ino in inodes && inodes == old(inodes)[ino := inodes[ino]] && |inodes[ino].direct| == 12
        invariant InodeShrinking(d0, disk, p, e0, inodes[ino], freed + less, free0, Free(), true)
        invariant forall j | i < j < 15 :: inodes[ino].Ptrs()[j] == 0
        decreases i
      {
        if inodes[ino].direct[i] != 0 {
          DropDirect(ino, i, freed + less, d0, e0, free0);
          less := less + 1;
          if less >= want {
            return;
          }
        }
        ShrinkingShape(d0, disk, p, e0, inodes[ino], freed + less, free0, Free(), true);
        EmptyFile(disk, p, inodes[ino], Free());
        i := i - 1;
      }
    }

    method DropDirect(ino: nat, i: nat, ghost freed: nat, ghost d0: Disk, ghost e0: InodeEntry, ghost free0: set<nat>)
      requires Mounted() && ino in inodes && |inodes[ino].direct| == 12 && i < 12 && inodes[ino].direct[i] != 0
      requires InodeShrinking(d0, disk, p, e0, inodes[ino], freed, free0, Free(), true)
      requires forall j | i < j < 15 :: inodes[ino].Ptrs()[j] == 0
      modifies this`inodes, BitmapParts()
      ensures Mounted()
      ensures ino in inodes && inodes == old(inodes)[ino := old(inodes[ino]).WithPtr(i, 0)]
      ensures InodeShrinking(d0, disk, p, e0, inodes[ino], freed + 1, free0, Free(), true)
    {
      hide InodeShrinking, Owned, WellFormed, Full, Blocks, Inner, Data, TreeAt, SameElsewhere, UsageBitmap.Valid;
      hide Roots;
      ghost var f, e := Free(), inodes[ino];
      var ptr := inodes[ino].direct[i];
      ShrinkingShape(d0, disk, p, e0, e, freed, free0, f, true);
      RootsBefore(disk, p, e, f, i);
      RootInRange(ptr, 0);
      FreeBlock(ptr);
      DataBlockGone(ptr, f);
      InodeShrinkingStep(d0, disk, disk, p, e0, e, i, 0, freed, 1, free0, f, Free(), true);
      SetPtr(ino, i, 0);
    }

    // dealloc_inode_blocks: the last count data blocks go, exactly where the place is right.
    method DeallocInodeBlocks(ino: nat, count: nat) returns (freed: nat, ghost exact: bool)
      requires Mounted() && ino in inodes && Sound(disk, p, inodes[ino], Free())
      requires count <= |FileData(disk, p, inodes[ino])|
      modifies this`disk, this`inodes, BitmapParts()
      ensures Mounted() && |disk| == old(|disk|)
      ensures ino in inodes && inodes == old(inodes)[ino := inodes[ino]]
      ensures InodeShrinking(old(disk), disk, p, old(inodes[ino]), inodes[ino], freed, old(Free()), Free(), exact)
      ensures freed == count
      ensures count > 0 ==>
                (exact <==> CutOk(p, count, old(RootLen(disk, p, inodes[ino], 13)), old(RootLen(disk, p, inodes[ino], 14))))
    {
      hide InodeShrinking, Owned, WellFormed, Full, Blocks, Inner, Data, TreeAt, SameElsewhere, UsageBitmap.Valid;
      hide Roots, InodeEntry.Ptrs, Cuttable;
      ghost var e0, free := inodes[ino], Free();
      InodeShrinkingStart(disk, p, e0, free);
      freed, exact := 0, true;
      if count == 0 {
        return;
      }
      var less;
      less, exact := CutRoot(ino, 14, count - freed, freed, old(disk), e0, free);
      freed := freed + less;
      if freed >= count {
        return;
      }
      less, exact := CutRoot(ino, 13, count - freed, freed, old(disk), e0, free);
      freed := freed + less;
      if freed >= count {
        return;
      }
      less, exact := CutRoot(ino, 12, count - freed, freed, old(disk), e0, free);
      assert exact by { SinglesAreCuttable(); }
      freed := freed + less;
      if freed >= count {
        return;
      }
      less := DeallocDirect(ino, count - freed, freed, old(disk), e0, free);
      freed := freed + less;
    }

    lemma SinglesAreCuttable()
      requires p > 0
      ensures forall left :: Cuttable(p, 1, left)
    {
    }

    // read_blknum_from_table
    method ReadTable(blknum: word, index: nat) returns (entry: word)
      requires Mounted() && (blknum == 0 || (blknum as int < |disk| && index < p))
      ensures entry == if blknum == 0 then 0 else Ptr(disk, blknum, index)
    {
      if blknum == 0 {
        return 0;
      }
      entry := WordsOf(disk[blknum])[index];
    }

    // A tree below which get_inode_blknum may look.
    ghost predicate Readable(ptr: nat, h: nat)
      reads this, blockMap
    {
      ptr != 0 ==> WellFormed(Tree(ptr, h), p, h) && Owned(Blocks(Tree(ptr, h)), |disk|, Free())
    }

    ghost function TreeNth(ptr: nat, h: nat, i: nat): nat
      reads this
    {
      Nth(Data(Tree(ptr, h)), i)
    }

    // One step of get_inode_blknum to index i: index q of the table at ptr, then index r below.
    method Follow(ptr: word, h: nat, q: nat, r: nat, ghost unit: nat, ghost i: nat) returns (next: word)
      requires Mounted() && h > 0 && Readable(ptr, h) && unit == Pow(p, h - 1) && q < p && r < unit
      requires i == q * unit + r && i < Pow(p, h)
      ensures Readable(next, h - 1)
      ensures TreeNth(ptr, h, i) == TreeNth(next, h - 1, r)
    {
      hide UsageBitmap.Valid, WellFormed, Data, Blocks, TreeAt, Pow, Ptr;
      ShallowNth(disk, p, ptr, h, i);
      ShallowNth(disk, p, 0, h - 1, r);
      if ptr != 0 {
        DivModUnique(q, unit, r);
        Descend(disk, p, ptr, h, i, Free());
      }
      next := ReadTable(ptr, q);
    }

    method LookupSingle(ptr: word, offset: nat) returns (blknum: word)
      requires Mounted() && Readable(ptr, 1) && offset < p
      ensures blknum as int == TreeNth(ptr, 1, offset)
    {
      hide UsageBitmap.Valid, Readable, TreeNth, Mounted;
      SmallPowers(p);
      blknum := Follow(ptr, 1, offset, 0, 1, offset);
      LeafNth(blknum);
    }

    // A digit of an index, and the rest of it.
    lemma Digit(offset: nat, h: nat, unit: nat)
      requires unit == Pow(p, h) && offset < Pow(p, h + 1)
      ensures unit > 0 && offset / unit < p && offset / unit * unit + offset % unit == offset
      ensures 0 <= offset - offset / unit * unit == offset % unit < unit
    {
      DivLess(offset, p, unit);
      DivModIdentity(offset, unit);
    }

    lemma SquarePow()
      ensures Pow(p, 1) == p && Pow(p, 2) == p * p
    {
      SmallPowers(p);
    }

    method LookupDouble(ptr: word, offset: nat) returns (blknum: word)
      requires Mounted() && Readable(ptr, 2) && offset < Pow(p, 2)
      ensures blknum as int == TreeNth(ptr, 2, offset)
    {
      hide UsageBitmap.Valid, Readable, TreeNth, Pow, Base;
      SquarePow();
      Digit(offset, 1, p);
      var idx0, idx1 := offset / p, offset % p;
      blknum := Follow(ptr, 2, idx0, idx1, p, offset);
      if blknum == 0 {
        MissingNth(1, idx1);
        return 0;
      }
      blknum := LookupSingle(blknum, idx1);
    }

    method LookupTriple(ptr: word, offset: nat) returns (blknum: word)
      requires Mounted() && Readable(ptr, 3) && offset < Pow(p, 3)
      ensures blknum as int == TreeNth(ptr, 3, offset)
    {
      hide UsageBitmap.Valid, Readable, TreeNth, Pow, Base;
      SquarePow();
      var entCount1 := p * p;
      Digit(offset, 2, entCount1);
      var idx0 := offset / entCount1;
      var rest := offset - idx0 * entCount1;
      Digit(rest, 1, p);
      var idx1, idx2 := rest / p, rest % p;
      blknum := Follow(ptr, 3, idx0, rest, entCount1, offset);
      if blknum == 0 {
        MissingNth(2, rest);
        return 0;
      }
      blknum := Follow(blknum, 2, idx1, idx2, p, rest);
      if blknum == 0 {
        MissingNth(1, idx2);
        return 0;
      }
      blknum := LookupSingle(blknum, idx2);
    }

    lemma LeafNth(ptr: nat)
      ensures TreeNth(ptr, 0, 0) == ptr
    {
      ShallowNth(disk, p, ptr, 0, 0);
    }

    lemma MissingNth(h: nat, i: nat)
      ensures TreeNth(0, h, i) == 0
    {
      ShallowNth(disk, p, 0, h, i);
    }

    // Block Base(i) + r of a file is block r of its tree i.
    lemma FileTree(ino: nat, i: nat, r: nat)
      requires Mounted() && ino in inodes && Sound(disk, p, inodes[ino], Free()) && i < 15 && r < Pow(p, Height(i))
      ensures Readable(inodes[ino].Ptrs()[i], Height(i))
      ensures Nth(FileData(disk, p, inodes[ino]), Base(p, i) + r) == TreeNth(inodes[ino].Ptrs()[i], Height(i), r)
    {
      hide UsageBitmap.Valid, WellFormed, Blocks, Data, Sound, Owned, Full, TreeAt, FileData, Base, Pow;
      RootsBefore(disk, p, inodes[ino], Free(), i);
      FileNth(disk, p, inodes[ino], Free(), i, r);
    }

    // get_inode_blknum: the block number of the file's block at an index, and 0 behind the last block.
    method GetInodeBlknum(ino: nat, index: nat) returns (blknum: word)
      requires Mounted() && ino in inodes && Sound(disk, p, inodes[ino], Free()) && index < Base(p, 15)
      ensures blknum as int == Nth(FileData(disk, p, inodes[ino]), index)
    {
      hide UsageBitmap.Valid, Readable, TreeNth, FileData, Base, Pow;
      SmallPowers(p);
      if index < 12 {
        DirectBase(p, index);
        FileTree(ino, index, 0);
        LeafNth(inodes[ino].direct[index]);
        return inodes[ino].direct[index];
      }
      var entCount0, entCount1 := p, p * p;
      var offset := index - 12;
      if offset < entCount0 {
        FileTree(ino, 12, offset);
        blknum := LookupSingle(inodes[ino].single, offset);
        return;
      }
      offset := offset - entCount0;
      if offset < entCount1 {
        FileTree(ino, 13, offset);
        blknum := LookupDouble(inodes[ino].double, offset);
        return;
      }
      offset := offset - entCount1;
      FileTree(ino, 14, offset);
      blknum := LookupTriple(inodes[ino].triple, offset);
    }

    // The blocks a grown inode gained were free, and the free set lost nothing else.
    lemma GrowthKeepsPartition(d0: Disk, ino: nat, inodes0: InodeTable, e: InodeEntry, added: nat, free0: set<nat>)
      requires p > 0 && Partitioned(d0, p, inodes0, free0, reserved) && ino in inodes0
      requires InodeGrowing(d0, disk, p, inodes0[ino], e, added, free0, Free())
      ensures Partitioned(disk, p, inodes0[ino := e], Free(), reserved)
      ensures forall j | j in inodes0 && j != ino :: SameFile(d0, disk, p, inodes0[j])
      ensures OneOwnerChanged(d0, disk, p, inodes0[ino], e, free0, Free())
    {
      hide Sound, Partitioned, SameElsewhere, FileData, FileInner, SameFile;
      forall b
        ensures (b in FileBlocks(disk, p, e) || b in Free()) <==> (b in FileBlocks(d0, p, inodes0[ino]) || b in free0)
      {
        assert FileBlocks(disk, p, e)[b] == FileBlocks(d0, p, inodes0[ino])[b] + multiset(free0 - Free())[b];
      }
      PartitionKept(d0, disk, p, inodes0, ino, e, free0, Free(), reserved);
    }

    lemma ShrinkKeepsPartition(d0: Disk, ino: nat, inodes0: InodeTable, e: InodeEntry, freed: nat, free0: set<nat>)
      requires p > 0 && Partitioned(d0, p, inodes0, free0, reserved) && ino in inodes0
      requires InodeShrinking(d0, disk, p, inodes0[ino], e, freed, free0, Free(), true)
      ensures Partitioned(disk, p, inodes0[ino := e], Free(), reserved)
      ensures forall j | j in inodes0 && j != ino :: SameFile(d0, disk, p, inodes0[j])
      ensures OneOwnerChanged(d0, disk, p, inodes0[ino], e, free0, Free())
    {
      hide Sound, Partitioned, FileData, FileInner, SameFile;
      forall b
        ensures (b in FileBlocks(disk, p, e) || b in Free()) <==> (b in FileBlocks(d0, p, inodes0[ino]) || b in free0)
      {
        assert FileBlocks(d0, p, inodes0[ino])[b] == FileBlocks(disk, p, e)[b] + multiset(Free() - free0)[b];
      }
      PartitionKept(d0, disk, p, inodes0, ino, e, free0, Free(), reserved);
    }

    // The blocks to ask for, in 32 bits.
    function Wanted(size: nat): nat
      requires blockSize > 0
    {
      BlockCount(size, blockSize) % 0x1_0000_0000
    }

    // The size a file has got after a request for a size of so many bytes.
    function Granted(blocks: nat, size: nat): nat
      requires blockSize > 0
    {
      if blocks == Wanted(size) then size else blocks * blockSize
    }

    // The blocks that a file has or could still get.
    ghost function Room(ino: nat): nat
      requires ino in inodes
      reads this, blockMap
    {
      |Free()| + |FileBlocks(disk, p, inodes[ino])|
    }

    // The number of data blocks that a file comes to have when it is asked to have so many.
    ghost function WillHave(ino: nat, newBlocks: nat): nat
      requires ino in inodes
      reads this, blockMap
    {
      var n := |FileData(disk, p, inodes[ino])|;
      if newBlocks <= n then newBlocks else Reach(p, n, newBlocks, Room(ino))
    }

    // The size that resize_inode is going to give a file.
    ghost function WillGrant(ino: nat, size: nat): nat
      requires blockSize > 0 && ino in inodes
      reads this, blockMap
    {
      Granted(WillHave(ino, Wanted(size)), size)
    }

    lemma InodeIsSound(ino: nat)
      requires Partitioned(disk, p, inodes, Free(), reserved) && ino in inodes
      ensures Sound(disk, p, inodes[ino], Free())
    {
    }

    // A file gets a number of blocks without losing any from sight.
    predicate Resizable(oldBlocks: nat, newBlocks: nat)
      requires p > 0
    {
      newBlocks >= oldBlocks || ShrinkOk(p, newBlocks)
    }

    // ... by growing.
    method GrowBlocks(ino: nat, oldBlocks: nat, newBlocks: nat) returns (blocks: nat)
      requires Consistent() && ino in inodes && |FileData(disk, p, inodes[ino])| == oldBlocks <= newBlocks
      modifies this`disk, this`inodes, BitmapParts()
      ensures Consistent() && |disk| == old(|disk|) && inodes.Keys == old(inodes.Keys)
      ensures inodes == old(inodes)[ino := inodes[ino]] && inodes[ino].SameAttributes(old(inodes[ino]))
      ensures FilesKept(old(disk), disk, p, old(inodes), inodes, ino)
      ensures OneOwnerChanged(old(disk), disk, p, old(inodes[ino]), inodes[ino], old(Free()), Free())
      ensures blocks == |FileData(disk, p, inodes[ino])| == old(WillHave(ino, newBlocks))
      ensures blocks == newBlocks <==> newBlocks <= Base(p, 15) && FileNeeds(p, newBlocks) <= old(Room(ino))
      ensures oldBlocks <= blocks <= newBlocks && old(FileData(disk, p, inodes[ino])) <= FileData(disk, p, inodes[ino])
      ensures NewFrom(old(FileData(disk, p, inodes[ino])), FileData(disk, p, inodes[ino]), old(Free()))
      ensures blocks < newBlocks ==> Free() == {} || blocks == Base(p, 15)
      ensures forall b | b in old(FileData(disk, p, inodes[ino])) :: b < |disk| && disk[b] == old(disk[b])
    {
      hide InodeGrowing, InodeShrinking, Sound, Partitioned, FileData, UsageBitmap.Valid, SameFile, Base, RootLen;
      hide OneOwnerChanged, Reach, FileBlocks, FileNeeds, NewFrom;
      ghost var inodes0, d0, free0, e0 := inodes, disk, Free(), inodes[ino];
      InodeIsSound(ino);
      var wanted := newBlocks - oldBlocks;
      var added := AllocInodeBlocks(ino, wanted);
      GrowthKeepsPartition(d0, ino, inodes0, inodes[ino], added, free0);
      Grew(d0, ino, e0, added, free0);
      TailOfFile(disk, p, inodes[ino], Free());
      blocks := oldBlocks + added;
      GrownAsFarAsPossible(d0, disk, p, e0, inodes[ino], added, free0, Free(), newBlocks);
      ReachNothing(newBlocks, |free0| + |FileBlocks(d0, p, e0)|);
    }

    lemma ReachNothing(n: nat, room: nat)
      ensures Reach(p, n, n, room) == n
    {
    }

    // The part of resize_inode that allocates or frees blocks.
    method ChangeBlocks(ino: nat, oldBlocks: nat, newBlocks: nat) returns (blocks: nat)
      requires Consistent() && ino in inodes && |FileData(disk, p, inodes[ino])| == oldBlocks
      modifies this`disk, this`inodes, BitmapParts()
      ensures Mounted() && |disk| == old(|disk|) && inodes.Keys == old(inodes.Keys)
      ensures inodes == old(inodes)[ino := inodes[ino]] && inodes[ino].SameAttributes(old(inodes[ino]))
      ensures FilesKept(old(disk), disk, p, old(inodes), inodes, ino)
      ensures newBlocks <= oldBlocks ==> blocks == newBlocks
      ensures newBlocks >= oldBlocks ==>
                NewFrom(old(FileData(disk, p, inodes[ino])), FileData(disk, p, inodes[ino]), old(Free()))
      ensures !Resizable(oldBlocks, newBlocks) ==>
                && |FileData(disk, p, inodes[ino])| < blocks
                && exists b :: b in old(FileBlocks(disk, p, inodes[ino])) && b !in FileBlocks(disk, p, inodes[ino]) && b !in Free()
      ensures Resizable(oldBlocks, newBlocks) ==>
                && Consistent()
                && OneOwnerChanged(old(disk), disk, p, old(inodes[ino]), inodes[ino], old(Free()), Free())
                && blocks == |FileData(disk, p, inodes[ino])|
                && (newBlocks <= oldBlocks ==> FileData(disk, p, inodes[ino]) <= old(FileData(disk, p, inodes[ino])))
                && (newBlocks >= oldBlocks ==>
                      oldBlocks <= blocks <= newBlocks && old(FileData(disk, p, inodes[ino])) <= FileData(disk, p, inodes[ino]))
                && (blocks < newBlocks ==> Free() == {} || blocks == Base(p, 15))
                && blocks == old(WillHave(ino, newBlocks))
                && (newBlocks >= oldBlocks ==>
                      (blocks == newBlocks <==> newBlocks <= Base(p, 15) && FileNeeds(p, newBlocks) <= old(Room(ino))))
      ensures Resizable(oldBlocks, newBlocks) ==>
                forall b | b in old(FileData(disk, p, inodes[ino])) :: b < |disk| && disk[b] == old(disk[b])
    {
      hide InodeGrowing, InodeShrinking, Sound, Partitioned, FileData, UsageBitmap.Valid, SameFile, Base, RootLen;
      hide OneOwnerChanged, ShrinkOk, CutOk, Reach, FileBlocks, FileNeeds, NewFrom;
      ghost var inodes0, d0, free0, e0 := inodes, disk, Free(), inodes[ino];
      blocks := newBlocks;
      InodeIsSound(ino);
      if newBlocks < oldBlocks {
        CutPlace(disk, p, e0, free0, newBlocks);
        var freed;
        ghost var exact;
        freed, exact := DeallocInodeBlocks(ino, oldBlocks - newBlocks);
        ShrinkingShape(d0, disk, p, e0, inodes[ino], freed, free0, Free(), exact);
        ShrinkKeepsOthers(d0, ino, inodes0, inodes[ino], freed, free0, exact);
        if exact {
          ShrinkKeepsPartition(d0, ino, inodes0, inodes[ino], freed, free0);
          Shrunk(d0, ino, e0, freed, free0);
        } else {
          LeakedBlock(d0, disk, p, e0, inodes[ino], freed, free0, Free());
        }
      } else {
        blocks := GrowBlocks(ino, oldBlocks, newBlocks);
      }
    }

    /**
     resize_inode: the file grows at its end, by blocks that were free, or is cut there, and all other files stay as
     they are.  When the cut goes into the first entry of a higher tree, the file loses blocks that neither become
     free nor stay in it.
     How far it grows is known before, from the blocks it has and the free ones.  The 32-bit size field agrees
     with the blocks exactly when no block is lost and the size to be granted, less the whole rounds of the
     32-bit block count, fits into it.
     */
    method ResizeInode(ino: nat, size: nat) returns (newSize: nat)
      requires Consistent() && ino in inodes && SizeOk(ino)
      modifies this`disk, this`inodes, BitmapParts()
      ensures Mounted() && |disk| == old(|disk|) && inodes.Keys == old(inodes.Keys)
      ensures FilesKept(old(disk), disk, p, old(inodes), inodes, ino)
      ensures Resizable(old(|FileData(disk, p, inodes[ino])|), Wanted(size)) ==>
                && Consistent()
                && OneOwnerChanged(old(disk), disk, p, old(inodes[ino]), inodes[ino], old(Free()), Free())
                && forall b | b in old(FileData(disk, p, inodes[ino])) :: b < |disk| && disk[b] == old(disk[b])
      ensures !Resizable(old(|FileData(disk, p, inodes[ino])|), Wanted(size)) ==>
                exists b :: b in old(FileBlocks(disk, p, inodes[ino])) && b !in FileBlocks(disk, p, inodes[ino]) && b !in Free()
      ensures var (n, n', m) := (old(|FileData(disk, p, inodes[ino])|), |FileData(disk, p, inodes[ino])|, Wanted(size));
              && (Resizable(n, m) ==> n' == old(WillHave(ino, m)))
              && (Resizable(n, m) && m <= n ==> n' == m && FileData(disk, p, inodes[ino]) <= old(FileData(disk, p, inodes[ino])))
              && (m >= n ==> n <= n' <= m && old(FileData(disk, p, inodes[ino])) <= FileData(disk, p, inodes[ino]))
              && (m >= n ==> NewFrom(old(FileData(disk, p, inodes[ino])), FileData(disk, p, inodes[ino]), old(Free())))
              && (m >= n ==> (n' == m <==> m <= Base(p, 15) && FileNeeds(p, m) <= old(Room(ino))))
              && (m >= n && n' < m ==> Free() == {} || n' == Base(p, 15))
              && newSize == (if n' == m || m < n then size else Granted(n', size) % 0x1_0000_0000)
              && inodes[ino].size as int == newSize % 0x1_0000_0000
              && (Resizable(n, m) ==> (SizeOk(ino) <==> WithoutRounds(old(WillGrant(ino, size)), blockSize) < 0x1_0000_0000))
              && (BlockCount(size, blockSize) < 0x1_0000_0000 ==>
                    (SizeOk(ino) <==> Resizable(n, m) && old(WillGrant(ino, size)) < 0x1_0000_0000))
      ensures Resizable(old(|FileData(disk, p, inodes[ino])|), Wanted(size)) && size < 0x1_0000_0000 ==> SizeOk(ino)
      // The other fields of the entry: the sectors of the data blocks, in 32 bits, and what was there before.
      ensures inodes[ino].SameAttributes(old(inodes[ino]))
      ensures var (n, n', m) := (old(|FileData(disk, p, inodes[ino])|), |FileData(disk, p, inodes[ino])|, Wanted(size));
              blockSize % 512 == 0 ==>
                && (SectorsOf(inodes[ino], if m < n then m else n') <==> (if m < n then m else n') * blockSize < 0x200_0000_0000)
                && (Resizable(n, m) && size < 0x1_0000_0000 ==> SectorsOf(inodes[ino], n'))
    {
      hide Partitioned, FileData, UsageBitmap.Valid, SameFile, Base, InodeEntry.Ptrs, FileBlocks;
      hide BlockCount, Granted, SectorCount, ShrinkOk, WillHave, Wanted, Room, FileNeeds, WithoutRounds,
           NewFrom;
      ghost var willHave, n := WillHave(ino, Wanted(size)), |FileData(disk, p, inodes[ino])|;
      WantedIs32(size);
      var oldBlocks := BlockCount(inodes[ino].size, blockSize);
      var newBlocks := Wanted(size);
      SmallerSize(inodes[ino].size, size);
      var blocks := ChangeBlocks(ino, oldBlocks, newBlocks);
      newSize := size;
      if blocks < newBlocks {
        newSize := blocks * blockSize % 0x1_0000_0000;
        assert newSize == Granted(blocks, size) % 0x1_0000_0000 by { ShortGrant(blocks, size); }
      }
      SizeAgrees(blocks, size, newSize);
      GrantBelow(blocks, size);
      SetSize(ino, newSize % 0x1_0000_0000, SectorCount(blocks));
      SectorsAgree(blocks);
      SectorsFit(blocks, size);
    }

    // The sectors in the entry, of 512 bytes each, are those of so many blocks.
    predicate SectorsOf(e: InodeEntry, blocks: nat) {
      512 * e.sizeSectors == blocks * blockSize
    }

    lemma SectorsAgree(blocks: nat)
      requires blockSize > 0
      ensures blockSize % 512 == 0 ==> (512 * SectorCount(blocks) == blocks * blockSize <==> blocks * blockSize < 0x200_0000_0000)
    {
      if blockSize % 512 == 0 {
        var k := blockSize / 512;
        assert blocks * blockSize == 512 * (blocks * k);
      }
    }

    lemma SectorsFit(blocks: nat, size: nat)
      requires 0 < blockSize <= 0x1_0000_0000
      ensures blocks <= Wanted(size) && size < 0x1_0000_0000 ==> blocks * blockSize < 0x200_0000_0000
    {
      if blocks <= Wanted(size) && size < 0x1_0000_0000 {
        DivModIdentity(size, blockSize);
        assert blocks <= size / blockSize + 1;
        MulMonotone(blocks, size / blockSize + 1, blockSize);
      }
    }

    // Cutting a file does not make its size too large, unless the block count wraps.
    lemma SmallerSize(before: word, size: nat)
      requires 0 < blockSize <= 0x1_0000_0000
      ensures BlockCount(size, blockSize) < BlockCount(before, blockSize) ==> size < 0x1_0000_0000
    {
      if size >= 0x1_0000_0000 {
        MoreBlocks(before, size, blockSize);
      }
    }

    lemma WantedIs32(size: nat)
      requires blockSize > 0
      ensures Wanted(size) < 0x1_0000_0000
      ensures BlockCount(size, blockSize) < 0x1_0000_0000 ==> Wanted(size) == BlockCount(size, blockSize)
      ensures size < 0x1_0000_0000 ==> BlockCount(size, blockSize) < 0x1_0000_0000 || blockSize < 4
    {
      DivModIdentity(size, blockSize);
      MulMonotone(4, blockSize, size / blockSize);
    }

    function SectorCount(blocks: nat): word {
      blocks * (blockSize / 512) % 0x1_0000_0000
    }

    lemma ShortGrant(blocks: nat, size: nat)
      requires blockSize > 0 && blocks != Wanted(size)
      ensures Granted(blocks, size) == blocks * blockSize
    {
    }

    lemma SizeAgrees(blocks: nat, size: nat, newSize: nat)
      requires 0 < blockSize <= 0x1_0000_0000 && blocks < 0x1_0000_0000
      requires newSize == if blocks == Wanted(size) then size else Granted(blocks, size) % 0x1_0000_0000
      ensures BlockCount(newSize % 0x1_0000_0000, blockSize) == blocks
              <==> WithoutRounds(Granted(blocks, size), blockSize) < 0x1_0000_0000
    {
      hide BlockCount, WithoutRounds;
      var granted := Granted(blocks, size);
      CountWraps(granted, blockSize);
      CountOfSum(blocks, 0, blockSize);
      assert BlockCount(0, blockSize) == 0 by { NoBlocks(blockSize); }
      WrapTwice(granted);
    }

    lemma NoBlocks(blockSize: nat)
      requires blockSize > 0
      ensures BlockCount(0, blockSize) == 0
    {
    }

    lemma WrapTwice(n: nat)
      ensures n % 0x1_0000_0000 % 0x1_0000_0000 == n % 0x1_0000_0000
    {
    }

    // A size of fewer blocks than 32 bits count wraps only once.
    lemma GrantBelow(blocks: nat, size: nat)
      requires blockSize > 0
      ensures blocks <= Wanted(size) && BlockCount(size, blockSize) < 0x1_0000_0000 ==>
                Granted(blocks, size) <= size && WithoutRounds(Granted(blocks, size), blockSize) == Granted(blocks, size)
    {
      if blocks <= Wanted(size) && BlockCount(size, blockSize) < 0x1_0000_0000 {
        WantedIs32(size);
        EnoughBlocks(size, blockSize);
        if blocks != Wanted(size) {
          NotMoreBlocks(blocks, size, blockSize);
        }
        LessThanRound(Granted(blocks, size), BlockCount(size, blockSize));
      }
    }

    lemma LessThanRound(size: nat, blocks: nat)
      requires blockSize > 0 && size <= blocks * blockSize && blocks < 0x1_0000_0000
      ensures WithoutRounds(size, blockSize) == size
    {
      hide WithoutRounds;
      OneMore(blocks, blockSize);
      MulMonotone(blocks + 1, 0x1_0000_0000, blockSize);
      var _ := RoundsAndRest(size, blockSize);
    }

    method SetSize(ino: nat, size: word, sectors: word)
      requires Mounted() && ino in inodes
      modifies this`inodes
      ensures Mounted() && (old(Consistent()) ==> Consistent())
      ensures inodes == old(inodes)[ino := old(inodes[ino]).(size := size, sizeSectors := sectors)]
      ensures FileData(disk, p, inodes[ino]) == old(FileData(disk, p, inodes[ino]))
      ensures FileBlocks(disk, p, inodes[ino]) == old(FileBlocks(disk, p, inodes[ino]))
    {
      hide Partitioned, UsageBitmap.Valid;
      ghost var e' := inodes[ino].(size := size, sizeSectors := sectors);
      SamePtrs(disk, p, inodes[ino], e', Free());
      if Consistent() {
        PartitionSamePtrs(disk, p, inodes, ino, e', Free(), reserved);
      }
      inodes := inodes[ino := inodes[ino].(size := size, sizeSectors := sectors)];
    }

    // Other files are as before whether a cut is exact or not.
    lemma ShrinkKeepsOthers(d0: Disk, ino: nat, inodes0: InodeTable, e: InodeEntry, freed: nat, free0: set<nat>, exact: bool)
      requires p > 0 && Partitioned(d0, p, inodes0, free0, reserved) && ino in inodes0
      requires InodeShrinking(d0, disk, p, inodes0[ino], e, freed, free0, Free(), exact)
      ensures forall j | j in inodes0 && j != ino :: SameFile(d0, disk, p, inodes0[j])
      ensures e.SameAttributes(inodes0[ino])
    {
      hide Sound, FileData, FileInner, FileBlocks, SameFile, Lost, DataLost;
      forall j | j in inodes0 && j != ino
        ensures SameFile(d0, disk, p, inodes0[j])
      {
        OtherFile(d0, disk, p, inodes0[ino], inodes0[j], free0);
      }
    }

    lemma Shrunk(d0: Disk, ino: nat, e0: InodeEntry, freed: nat, free0: set<nat>)
      requires ino in inodes && InodeShrinking(d0, disk, p, e0, inodes[ino], freed, free0, Free(), true)
      requires Sound(d0, p, e0, free0)
      ensures Sound(disk, p, inodes[ino], Free())
      ensures FileData(disk, p, inodes[ino]) <= FileData(d0, p, e0)
      ensures |FileData(disk, p, inodes[ino])| == |FileData(d0, p, e0)| - freed
      ensures |disk| == |d0| && forall b | b in FileData(d0, p, e0) :: b < |disk| && disk[b] == d0[b]
    {
      forall b | b in FileData(d0, p, e0)
        ensures b < |disk| && disk[b] == d0[b]
      {
        DataIsOwn(d0, e0, free0, b);
      }
    }

    lemma Grew(d0: Disk, ino: nat, e0: InodeEntry, added: nat, free0: set<nat>)
      requires ino in inodes && InodeGrowing(d0, disk, p, e0, inodes[ino], added, free0, Free())
      requires Sound(d0, p, e0, free0)
      ensures Sound(disk, p, inodes[ino], Free())
      ensures FileData(d0, p, e0) <= FileData(disk, p, inodes[ino])
      ensures |FileData(disk, p, inodes[ino])| == |FileData(d0, p, e0)| + added && inodes[ino].SameAttributes(e0)
      ensures |disk| == |d0| && forall b | b in FileData(d0, p, e0) :: b < |disk| && disk[b] == d0[b]
    {
      forall b | b in FileData(d0, p, e0)
        ensures b < |disk| && disk[b] == d0[b]
      {
        DataIsOwn(d0, e0, free0, b);
      }
    }

    // A data block of a file is neither free nor one of its pointer blocks.
    lemma DataIsOwn(d: Disk, e: InodeEntry, free: set<nat>, b: nat)
      requires Sound(d, p, e, free) && b in FileData(d, p, e)
      ensures 0 < b < |d| && b !in free && b !in FileInner(d, p, e)
    {
      assert FileBlocks(d, p, e)[b] == FileInner(d, p, e)[b] + multiset(FileData(d, p, e))[b];
      assert b in FileBlocks(d, p, e);
    }

    // create_inode: the lowest free inode number gets an entry without blocks.
    method CreateInode(mode: nat, uid: nat, gid: nat) returns (ino: nat)
      requires Consistent()
      modifies this`inodes, InodeParts()
      ensures Consistent()
      ensures ino == 0 <==> old(inodeMap.free) == {}
      ensures ino == 0 ==> inodes == old(inodes) && inodeMap.free == old(inodeMap.free)
      ensures ino != 0 ==>
                && ino !in old(inodes) && ino - 1 in old(inodeMap.free) && inodeMap.free == old(inodeMap.free) - {ino - 1}
                && (forall m | m in old(inodeMap.free) :: ino - 1 <= m)
                && inodes == old(inodes)[ino := InodeEntry(mode, uid, gid, 0, 0, 0, seq(12, _ => 0), 0, 0, 0)]
                && FileBlocks(disk, p, inodes[ino]) == multiset{} && SizeOk(ino)
    {
      hide Partitioned, Sound, FileData, FileBlocks, UsageBitmap.Valid;
      FreeNumbersAreUnits();
      ino := inodeMap.Alloc();
      if ino == 0 {
        return;
      }
      var e := InodeEntry(mode, uid, gid, 0, 0, 0, seq(12, _ => 0), 0, 0, 0);
      ZeroEntry(disk, p, e, Free());
      PartitionWith(disk, p, inodes, ino, e, Free(), reserved);
      inodes := inodes[ino := e];
    }

    lemma FreeNumbersAreUnits()
      requires inodeMap.Valid()
      ensures forall n | n in inodeMap.free :: inodeMap.geo.IsUnit(n)
    {
      forall n | n in inodeMap.free
        ensures inodeMap.geo.IsUnit(n)
      {
        inodeMap.FreeIsUnit(n);
      }
    }

    // remove_inode: the inode and every one of its blocks become free, once, and nothing else does.
    method RemoveInode(ino: nat)
      requires Consistent() && ino in inodes && SizeOk(ino)
      modifies this`disk, this`inodes, BitmapParts(), InodeParts()
      ensures Consistent() && |disk| == old(|disk|)
      ensures inodes.Keys == old(inodes.Keys) - {ino} && FilesKept(old(disk), disk, p, old(inodes), inodes, ino)
      ensures inodeMap.free == old(inodeMap.free) + {ino - 1}
      ensures forall b :: b in Free() <==> b in old(Free()) || b in old(FileBlocks(disk, p, inodes[ino]))
    {
      hide Partitioned, Sound, FileData, FileBlocks, UsageBitmap.Valid, SameFile, WithoutRounds;
      hide BlockCount, Wanted, WillHave, WillGrant, Room, FileNeeds, Base, ShrinkOk;
      InodeIsSound(ino);
      NothingWanted();
      if inodes[ino].size > 0 {
        var rest := ResizeInode(ino, 0);
      } else {
        OthersSame();
      }
      InodeIsSound(ino);
      EmptyFile(disk, p, inodes[ino], Free());
      PartitionWithout(disk, p, inodes, ino, Free(), reserved);
      inodes := inodes - {ino};
      FreeInodeNumber(ino);
    }

    lemma NothingWanted()
      requires p > 0 && blockSize > 0
      ensures BlockCount(0, blockSize) == 0 && Wanted(0) == 0 && ShrinkOk(p, 0)
    {
    }

    method FreeInodeNumber(ino: nat)
      requires inodeMap.Valid() && inodeMap.geo.firstNum == 1 && inodeMap.geo.SameNumbering() && Numbered(ino)
      modifies InodeParts()
      ensures inodeMap.Valid() && inodeMap.free == old(inodeMap.free) + {ino - 1}
    {
      inodeMap.geo.UnitReleases(ino - 1);
      inodeMap.geo.UnitGroup(ino - 1);
      inodeMap.Dealloc(ino);
    }

    lemma OthersSame()
      requires Partitioned(disk, p, inodes, Free(), reserved)
      ensures forall j | j in inodes :: SameFile(disk, disk, p, inodes[j])
    {
    }

    // The data blocks of a file, and the bytes in them.
    ghost function FileList(ino: nat): seq<nat>
      reads this
    {
      if ino in inodes then FileData(disk, p, inodes[ino]) else []
    }

    ghost function Content(ino: nat): seq<byte>
      reads this
    {
      Bytes(disk, FileList(ino))
    }

    lemma ContentReadable(ino: nat)
      requires Consistent() && ino in inodes
      ensures BlocksOf(disk, FileList(ino), blockSize)
      ensures |Content(ino)| == |FileList(ino)| * blockSize
    {
      hide FileData, Partitioned, UsageBitmap.Valid, Sound;
      InodeIsSound(ino);
      DataBlocksDistinct(disk, p, inodes[ino], Free());
      BytesLength(disk, FileList(ino), blockSize);
    }

    // The block of a file at an index, and 0 behind its last block.
    method FileBlockAt(ino: nat, index: nat) returns (blknum: word)
      requires Consistent() && ino in inodes && index < Base(p, 15)
      ensures Consistent()
      ensures var data := FileList(ino);
              if index < |data| then 0 < blknum as int < |disk| && blknum as int == data[index] else blknum == 0
    {
      hide FileData, UsageBitmap.Valid, Sound, Base, Partitioned;
      InodeIsSound(ino);
      DataBlocksDistinct(disk, p, inodes[ino], Free());
      blknum := GetInodeBlknum(ino, index);
    }

    // access_inode_blocks, reading: as many of the requested blocks as the file has.
    method ReadInodeBlocks(ino: nat, offset: nat, count: nat) returns (n: nat, buf: seq<byte>)
      requires Consistent() && ino in inodes && offset + count <= Base(p, 15)
      ensures Consistent()
      ensures n <= count && (n < count ==> offset + n >= |FileList(ino)|)
      ensures n > 0 ==> offset + n <= |FileList(ino)|
      ensures |buf| == n * blockSize
      ensures n > 0 ==> buf == Cut(Content(ino), offset * blockSize, (offset + n) * blockSize)
    {
      hide FileData, Partitioned, UsageBitmap.Valid, Sound, Base, Bytes, Sub;
      n, buf := GatherBlocks(ino, offset, count);
      ContentReadable(ino);
      SubBytes(disk, FileList(ino), blockSize, offset, n);
    }

    method GatherBlocks(ino: nat, offset: nat, count: nat) returns (n: nat, buf: seq<byte>)
      requires Consistent() && ino in inodes && offset + count <= Base(p, 15)
      ensures Consistent()
      ensures n <= count && (n < count ==> offset + n >= |FileList(ino)|)
      ensures n > 0 ==> offset + n <= |FileList(ino)|
      ensures buf == Bytes(disk, Sub(FileList(ino), offset, n))
    {
      hide FileList, Consistent, Base, Sub;
      ghost var data := FileList(ino);
      n, buf := 0, [];
      NoBytes(data, offset);
      while n < count
        invariant Consistent() && FileList(ino) == data
        invariant n <= count && (n > 0 ==> offset + n <= |data|)
        invariant buf == Bytes(disk, Sub(data, offset, n))
      {
        var blknum := FileBlockAt(ino, offset + n);
        if blknum == 0 {
          break;
        }
        SubSnoc(data, offset, n);
        BytesSnoc(disk, Sub(data, offset, n), data[offset + n]);
        buf := buf + disk[blknum];
        n := n + 1;
      }
    }

    lemma NoBytes(data: seq<nat>, offset: nat)
      ensures Bytes(disk, Sub(data, offset, 0)) == []
    {
    }

    // Overwrites block index of a file.
    method WriteBlock(ino: nat, index: nat, b: word, chunk: Block)
      requires Consistent() && ino in inodes && |chunk| == blockSize
      requires index < |FileList(ino)| && b as int == FileList(ino)[index]
      requires b as int < |disk|
      modifies this`disk
      ensures Consistent() && disk == old(disk)[b := chunk]
      ensures FileList(ino) == old(FileList(ino))
      ensures SameFilesBut(old(disk), disk, p, inodes, ino)
    {
      hide FileData, Partitioned, UsageBitmap.Valid, SameFile;
      disk := disk[b := chunk];
      DataWriteKeepsPartition(old(disk), disk, p, inodes, ino, b, Free(), reserved);
    }

    // access_inode_blocks, writing: as many of the given blocks as the file has.
    method WriteInodeBlocks(ino: nat, offset: nat, buf: seq<byte>, count: nat) returns (n: nat)
      requires Consistent() && ino in inodes && offset + count <= Base(p, 15) && |buf| == count * blockSize
      modifies this`disk
      ensures Consistent() && |disk| == old(|disk|) && FilesKept(old(disk), disk, p, old(inodes), inodes, ino)
      ensures FileList(ino) == old(FileList(ino))
      ensures n <= count && (n < count ==> offset + n >= |FileList(ino)|)
      ensures n > 0 ==> offset + n <= |FileList(ino)|
      ensures n == 0 ==> disk == old(disk)
      ensures n > 0 ==> Spliced(old(Content(ino)), Content(ino), offset * blockSize, Cut(buf, 0, n * blockSize))
    {
      hide FileList, FileData, Partitioned, UsageBitmap.Valid, Sound, Base, Bytes, SameFile, Sub, Cut;
      ghost var data := FileList(ino);
      ContentReadable(ino);
      n := ScatterBlocks(ino, offset, buf, count);
      ContentReadable(ino);
      SplicedContent(old(disk), data, offset, n);
    }

    method ScatterBlocks(ino: nat, offset: nat, buf: seq<byte>, count: nat) returns (n: nat)
      requires Consistent() && ino in inodes && offset + count <= Base(p, 15) && |buf| == count * blockSize
      modifies this`disk
      ensures Consistent() && |disk| == old(|disk|) && SameFilesBut(old(disk), disk, p, inodes, ino)
      ensures FileList(ino) == old(FileList(ino))
      ensures n <= count && (n < count ==> offset + n >= |FileList(ino)|)
      ensures n > 0 ==> offset + n <= |FileList(ino)|
      ensures n == 0 ==> disk == old(disk)
      ensures Bytes(disk, Sub(FileList(ino), offset, n)) == Cut(buf, 0, n * blockSize)
      ensures SameBlocksBut(old(disk), disk, FileList(ino), offset, offset + n)
    {
      hide FileList, Consistent, Base, Bytes, SameFilesBut, SameBlocksBut, Sub;
      ghost var data := FileList(ino);
      n := 0;
      var pos := 0;
      ScatterStart(ino, data, offset);
      while n < count
        invariant Consistent() && FileList(ino) == data && |disk| == old(|disk|)
        invariant n <= count && (n > 0 ==> offset + n <= |data|) && (n == 0 ==> disk == old(disk))
        invariant pos == n * blockSize <= |buf|
        invariant Bytes(disk, Sub(data, offset, n)) == buf[..pos]
        invariant SameBlocksBut(old(disk), disk, data, offset, offset + n)
        invariant SameFilesBut(old(disk), disk, p, inodes, ino)
      {
        var blknum := FileBlockAt(ino, offset + n);
        if blknum == 0 {
          break;
        }
        InBuffer(n, count, blockSize);
        var chunk := buf[pos..pos + blockSize];
        ghost var d := disk;
        WriteBlock(ino, offset + n, blknum, chunk);
        NextChunk(ino, d, offset, n, chunk);
        SameBlocksOneMore(old(disk), d, disk, data, offset, offset + n);
        SameFilesTwice(old(disk), d, disk, p, inodes, ino);
        assert buf[..pos] + chunk == buf[..pos + blockSize];
        pos := pos + blockSize;
        n := n + 1;
      }
    }

    lemma InBuffer(n: nat, count: nat, blockSize: nat)
      requires n < count
      ensures (n + 1) * blockSize == n * blockSize + blockSize <= count * blockSize
    {
      OneMore(n, blockSize);
      MulMonotone(n + 1, count, blockSize);
    }

    lemma ScatterStart(ino: nat, data: seq<nat>, offset: nat)
      requires Consistent()
      ensures Bytes(disk, Sub(data, offset, 0)) == []
      ensures SameBlocksBut(disk, disk, data, offset, offset)
      ensures SameFilesBut(disk, disk, p, inodes, ino)
    {
      OthersSame();
    }

    // After block offset + n of the file was overwritten by chunk.
    lemma NextChunk(ino: nat, d: Disk, offset: nat, n: nat, chunk: Block)
      requires Consistent() && ino in inodes
      requires var data := FileList(ino);
               offset + n < |data| && data[offset + n] < |d| && disk == d[data[offset + n] := chunk]
      ensures Bytes(disk, Sub(FileList(ino), offset, n + 1)) == Bytes(d, Sub(FileList(ino), offset, n)) + chunk
      ensures SameBlocksBut(d, disk, FileList(ino), offset + n, offset + n + 1)
    {
      hide FileData, Partitioned, UsageBitmap.Valid, Sound, Bytes, Sub, SameBlocksBut;
      InodeIsSound(ino);
      DataBlocksDistinct(disk, p, inodes[ino], Free());
      OneMoreBlock(d, disk, FileList(ino), offset, n, chunk);
    }

    lemma SplicedContent(d: Disk, data: seq<nat>, offset: nat, n: nat)
      requires BlocksOf(disk, data, blockSize) && BlocksOf(d, data, blockSize) && (n > 0 ==> offset + n <= |data|)
      requires SameBlocksBut(d, disk, data, offset, offset + n)
      ensures n > 0 ==> Spliced(Bytes(d, data), Bytes(disk, data), offset * blockSize, Bytes(disk, Sub(data, offset, n)))
    {
      if n > 0 {
        OverwrittenBytes(d, disk, data, blockSize, offset, offset + n);
      }
    }
  }
}
