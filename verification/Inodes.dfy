/** Inode entries, and the fifteen trees that hang from one. */
module Inodes {
  import opened Arithmetic
  import opened DiskBlocks
  import opened BlockTrees

  datatype InodeEntry = InodeEntry(
    mode: nat, uid: nat, gid: nat, size: word, linkCount: nat, sizeSectors: word,
    direct: seq<word>, single: word, double: word, triple: word)
  {
    // The entry of the same file after its blocks have changed.
    predicate SameAttributes(e: InodeEntry) {
      mode == e.mode && uid == e.uid && gid == e.gid && linkCount == e.linkCount
    }

    // The pointers in file order.
    function Ptrs(): (ptrs: seq<word>)
      ensures |ptrs| == |direct| + 3
    {
      direct + [single, double, triple]
    }

    function WithPtr(i: nat, ptr: word): (e: InodeEntry)
      requires |direct| == 12 && i < 15
      ensures |e.direct| == 12 && e.Ptrs() == Ptrs()[i := ptr]
      ensures e == this.(direct := e.direct, single := e.single, double := e.double, triple := e.triple)
    {
      if i < 12 then this.(direct := direct[i := ptr])
      else if i == 12 then this.(single := ptr)
      else if i == 13 then this.(double := ptr)
      else this.(triple := ptr)
    }

    lemma SamePtr(i: nat)
      requires |direct| == 12 && i < 15
      ensures WithPtr(i, Ptrs()[i]) == this
    {
    }
  }

  // Twelve data blocks, then trees of height 1, 2 and 3.
  function Height(i: nat): nat {
    if i < 12 then 0 else i - 11
  }

  ghost function Roots(d: Disk, p: nat, ptrs: seq<word>): (ts: seq<Tree>)
    ensures |ts| == |ptrs|
  {
    seq(|ptrs|, i requires 0 <= i < |ptrs| => TreeAt(d, p, ptrs[i], Height(i)))
  }

  // The file's data blocks in order, its pointer blocks, and both.
  ghost function FileData(d: Disk, p: nat, e: InodeEntry): seq<nat> {
    DataAll(Roots(d, p, e.Ptrs()))
  }

  ghost function FileInner(d: Disk, p: nat, e: InodeEntry): multiset<nat> {
    InnerAll(Roots(d, p, e.Ptrs()))
  }

  ghost function FileBlocks(d: Disk, p: nat, e: InodeEntry): multiset<nat> {
    BlocksAll(Roots(d, p, e.Ptrs()))
  }

  // Every tree is well formed, and full once a later tree is present.
  ghost predicate Prefixed(ts: seq<Tree>, p: nat) {
    && (forall i | 0 <= i < |ts| :: WellFormed(ts[i], p, Height(i)))
    && (forall i, j | 0 <= i < j < |ts| && ts[j].Node? :: Full(ts[i], Height(i)))
  }

  ghost predicate Sound(d: Disk, p: nat, e: InodeEntry, free: set<nat>) {
    && |e.direct| == 12
    && Prefixed(Roots(d, p, e.Ptrs()), p)
    && Owned(FileBlocks(d, p, e), |d|, free)
  }

  // Two different trees of one inode share no block.
  lemma RootApart(ts: seq<Tree>, i: nat, limit: nat, free: set<nat>)
    requires i < |ts| && Owned(BlocksAll(ts), limit, free)
    ensures Owned(Blocks(ts[i]), limit, free)
    ensures forall j | 0 <= j < |ts| && j != i :: Blocks(ts[i]) !! Blocks(ts[j])
  {
    BlocksSplitAt(ts, i);
    assert Blocks(ts[i]) <= BlocksAll(ts);
    forall j | 0 <= j < |ts| && j != i
      ensures Blocks(ts[i]) !! Blocks(ts[j])
    {
      TwoKids(ts, i, j);
    }
  }

  // Writing the pointer blocks of tree i, or free blocks, leaves tree j alone.
  lemma OtherRoot(d: Disk, d': Disk, p: nat, ts: seq<Tree>, i: nat, j: nat, ptr: nat, h: nat, free: set<nat>)
    requires p > 0 && i < |ts| && j < |ts| && i != j && ts[j] == TreeAt(d, p, ptr, h)
    requires Owned(BlocksAll(ts), |d|, free) && SameElsewhere(d, d', Inner(ts[i]), free)
    ensures ts[j] == TreeAt(d', p, ptr, h)
  {
    RootApart(ts, i, |d|, free);
    RootApart(ts, j, |d|, free);
    forall b | b in Inner(ts[j])
      ensures b < |d| && b < |d'| && d[b] == d'[b]
    {
      assert b in Blocks(ts[j]);
    }
    TreeFrame(d, d', p, ptr, h);
  }

  lemma OtherRoots(d: Disk, d': Disk, p: nat, ptrs: seq<word>, i: nat, ptr': word, free: set<nat>)
    requires p > 0 && i < |ptrs| && Owned(BlocksAll(Roots(d, p, ptrs)), |d|, free)
    requires SameElsewhere(d, d', Inner(TreeAt(d, p, ptrs[i], Height(i))), free)
    ensures Roots(d', p, ptrs[i := ptr']) == Roots(d, p, ptrs)[i := TreeAt(d', p, ptr', Height(i))]
    ensures forall j | 0 <= j < |ptrs| && j != i ::
              TreeAt(d', p, ptrs[j], Height(j)) == TreeAt(d, p, ptrs[j], Height(j))
  {
    hide TreeAt, Inner, BlocksAll, Owned, SameElsewhere;
    var ts := Roots(d, p, ptrs);
    assert ts[i] == TreeAt(d, p, ptrs[i], Height(i));
    forall j | 0 <= j < |ptrs| && j != i
      ensures ts[j] == TreeAt(d, p, ptrs[j], Height(j)) == TreeAt(d', p, ptrs[j], Height(j))
    {
      OtherRoot(d, d', p, ts, i, j, ptrs[j], Height(j), free);
    }
  }

  lemma ReplaceRootBlocks(ts: seq<Tree>, i: nat, t: Tree)
    requires i < |ts|
    ensures BlocksAll(ts[i := t]) + Blocks(ts[i]) == BlocksAll(ts) + Blocks(t)
  {
    var ts' := ts[i := t];
    assert ts'[..i] == ts[..i] && ts'[i + 1..] == ts[i + 1..];
    BlocksSplitAt(ts, i);
    BlocksSplitAt(ts', i);
  }

  lemma ReplaceLastRoot(ts: seq<Tree>, i: nat, t: Tree)
    requires i < |ts| && forall j | i < j < |ts| :: ts[j] == Empty
    ensures DataAll(ts) == DataAll(ts[..i]) + Data(ts[i])
    ensures DataAll(ts[i := t]) == DataAll(ts[..i]) + Data(t)
  {
    hide Data, DataAll, Inner, InnerAll;
    var ts' := ts[i := t];
    assert ts'[..i] == ts[..i] && ts'[i + 1..] == ts[i + 1..];
    DataSplitAt(ts, i);
    DataSplitAt(ts', i);
    AllEmpty(ts[i + 1..]);
  }

  /** An inode in the middle of growing, compared with the state e0, d0, free0 it started from. */
  ghost predicate InodeGrowing(d0: Disk, d: Disk, p: nat, e0: InodeEntry, e: InodeEntry, added: nat,
                               free0: set<nat>, free: set<nat>) {
    && Sound(d, p, e, free)
    && free <= free0 && FileBlocks(d, p, e) == FileBlocks(d0, p, e0) + multiset(free0 - free)
    && FileInner(d0, p, e0) <= FileInner(d, p, e)
    && FileData(d0, p, e0) <= FileData(d, p, e) && |FileData(d, p, e)| == |FileData(d0, p, e0)| + added
    && SameElsewhere(d0, d, FileInner(d0, p, e0), free0)
    && e == e0.(direct := e.direct, single := e.single, double := e.double, triple := e.triple)
  }

  lemma InodeGrowingStart(d: Disk, p: nat, e: InodeEntry, free: set<nat>)
    requires Sound(d, p, e, free)
    ensures InodeGrowing(d, d, p, e, e, 0, free, free)
  {
    assert free - free == {};
  }

  // Tree i, all earlier ones being full and all later ones empty, grows.
  lemma InodeGrowingStep(d0: Disk, d: Disk, d': Disk, p: nat, e0: InodeEntry, e: InodeEntry, i: nat, ptr': word,
                         added: nat, more: nat, free0: set<nat>, free: set<nat>, free': set<nat>)
    requires p > 0 && i < 15 && InodeGrowing(d0, d, p, e0, e, added, free0, free)
    requires forall j | i < j < 15 :: e.Ptrs()[j] == 0
    requires forall j | 0 <= j < i :: Full(TreeAt(d, p, e.Ptrs()[j], Height(j)), Height(j))
    requires forall b | b in free :: 0 < b < |d|
    requires TreeGrown(d, d', p, e.Ptrs()[i], ptr', Height(i), more, free, free')
    ensures InodeGrowing(d0, d', p, e0, e.WithPtr(i, ptr'), added + more, free0, free')
    ensures forall j | 0 <= j < 15 && j != i ::
              TreeAt(d', p, e.Ptrs()[j], Height(j)) == TreeAt(d, p, e.Ptrs()[j], Height(j))
  {
    hide WellFormed, Full, Data, Inner, TreeAt, Owned, BlocksAll, DataAll, InnerAll, Blocks;
    var ts, t' := Roots(d, p, e.Ptrs()), TreeAt(d', p, ptr', Height(i));
    assert ts[i] == TreeAt(d, p, e.Ptrs()[i], Height(i));
    OtherRoots(d, d', p, e.Ptrs(), i, ptr', free);
    assert ts[i := t'] == Roots(d', p, e.WithPtr(i, ptr').Ptrs());
    assert forall j | i < j < 15 :: ts[j] == Empty;
    assert forall j | 0 <= j < i :: Full(ts[j], Height(j));
    GrowRootBlocks(ts, i, t', |d|, free, free');
    GrowRootData(ts, i, t');
    GrowRootInner(ts, i, t');
    GainTwice(free0, free, free');
    RootWrites(d0, d, d', p, e0, e, i, added, free0, free);
    assert Prefixed(ts[i := t'], p);
  }

  lemma GrowRootData(ts: seq<Tree>, i: nat, t': Tree)
    requires i < |ts| && (forall j | i < j < |ts| :: ts[j] == Empty) && Data(ts[i]) <= Data(t')
    ensures DataAll(ts) <= DataAll(ts[i := t'])
    ensures |DataAll(ts[i := t'])| - |DataAll(ts)| == |Data(t')| - |Data(ts[i])|
  {
    ReplaceLastRoot(ts, i, t');
  }

  lemma GrowRootInner(ts: seq<Tree>, i: nat, t': Tree)
    requires i < |ts| && Inner(ts[i]) <= Inner(t')
    ensures InnerAll(ts) <= InnerAll(ts[i := t'])
  {
    var ts' := ts[i := t'];
    assert ts'[..i] == ts[..i] && ts'[i + 1..] == ts[i + 1..];
    InnerSplitAt(ts, i);
    InnerSplitAt(ts', i);
  }

  // What a file has got more were free blocks.
  lemma GrownFromFree(d0: Disk, d: Disk, p: nat, e0: InodeEntry, e: InodeEntry, added: nat, free0: set<nat>, free: set<nat>)
    requires InodeGrowing(d0, d, p, e0, e, added, free0, free)
    ensures NewFrom(FileData(d0, p, e0), FileData(d, p, e), free0)
  {
    hide FileData, FileInner, Sound;
    Parts(d, p, e);
    Parts(d0, p, e0);
    NewDataWasFree(FileInner(d0, p, e0), FileInner(d, p, e), FileData(d0, p, e0), FileData(d, p, e), free0 - free);
  }

  lemma Parts(d: Disk, p: nat, e: InodeEntry)
    ensures FileBlocks(d, p, e) == FileInner(d, p, e) + multiset(FileData(d, p, e))
  {
  }

  // Growing tree i wrote nothing that the whole growth may not write.
  lemma RootWrites(d0: Disk, d: Disk, d': Disk, p: nat, e0: InodeEntry, e: InodeEntry, i: nat, added: nat,
                   free0: set<nat>, free: set<nat>)
    requires i < 15 && InodeGrowing(d0, d, p, e0, e, added, free0, free)
    requires SameElsewhere(d, d', Inner(TreeAt(d, p, e.Ptrs()[i], Height(i))), free)
    ensures SameElsewhere(d0, d', FileInner(d0, p, e0), free0)
  {
    hide TreeAt, Data, Inner, WellFormed, Full;
    var ts := Roots(d, p, e.Ptrs());
    assert ts[i] == TreeAt(d, p, e.Ptrs()[i], Height(i));
    SplitAt(ts, i);
    forall b | b in Inner(ts[i])
      ensures b in FileInner(d0, p, e0) || b in free0
    {
      InodeInner(InnerAll(ts), DataAll(ts), FileInner(d0, p, e0), FileData(d0, p, e0), |d|, free0, free, b);
    }
  }

  // A pointer block of the grown inode was a pointer block before, or free.
  lemma InodeInner(inner: multiset<nat>, data: seq<nat>, inner0: multiset<nat>, data0: seq<nat>, limit: nat,
                   free0: set<nat>, free: set<nat>, b: nat)
    requires Owned(inner + multiset(data), limit, free) && data0 <= data && b in inner
    requires inner + multiset(data) == inner0 + multiset(data0) + multiset(free0 - free)
    ensures b in inner0 || b in free0
  {
    var all := inner + multiset(data);
    assert b in all && all[b] == inner[b] + multiset(data)[b];
    assert b in data0 ==> b in data;
  }

  lemma GrowRootBlocks(ts: seq<Tree>, i: nat, t': Tree, limit: nat, free: set<nat>, free': set<nat>)
    requires i < |ts| && free' <= free && Blocks(t') == Blocks(ts[i]) + multiset(free - free')
    requires Owned(BlocksAll(ts), limit, free) && forall b | b in free :: 0 < b < limit
    ensures BlocksAll(ts[i := t']) == BlocksAll(ts) + multiset(free - free')
    ensures Owned(BlocksAll(ts[i := t']), limit, free')
  {
    hide Blocks, BlocksAll;
    ReplaceRootBlocks(ts, i, t');
    CancelGain(BlocksAll(ts), BlocksAll(ts[i := t']), Blocks(ts[i]), Blocks(t'), multiset(free - free'));
    assert free - (free - free') == free';
    OwnedGain(BlocksAll(ts), free - free', limit, free);
  }

  // The number of pointer blocks of a full tree of height h.
  ghost function PointerBlocks(p: nat, h: nat): nat {
    if h == 0 then 0 else 1 + p * PointerBlocks(p, h - 1)
  }

  lemma {:induction false} FullInner(t: Tree, p: nat, h: nat)
    requires p > 0 && WellFormed(t, p, h) && Full(t, h)
    ensures |Inner(t)| == PointerBlocks(p, h)
    decreases h, 0
  {
    if h > 0 {
      FullInnerAll(t.kids, p, h - 1);
    }
  }

  lemma {:induction false} FullInnerAll(ks: seq<Tree>, p: nat, h: nat)
    requires p > 0 && forall i | 0 <= i < |ks| :: WellFormed(ks[i], p, h) && Full(ks[i], h)
    ensures |InnerAll(ks)| == |ks| * PointerBlocks(p, h)
    decreases h, 1 + |ks|
  {
    if ks != [] {
      FullInner(ks[0], p, h);
      FullInnerAll(ks[1..], p, h);
      assert |InnerAll(ks)| == |Inner(ks[0])| + |InnerAll(ks[1..])|;
      OneMore(|ks[1..]|, PointerBlocks(p, h));
    }
  }

  // Growing a full tree does nothing.
  lemma FullStays(d: Disk, d': Disk, p: nat, ptr: nat, h: nat, added: nat, free: set<nat>, free': set<nat>)
    requires p > 0 && TreeGrown(d, d', p, ptr, ptr, h, added, free, free')
    requires WellFormed(TreeAt(d, p, ptr, h), p, h) && Full(TreeAt(d, p, ptr, h), h)
    ensures var (t, t') := (TreeAt(d, p, ptr, h), TreeAt(d', p, ptr, h));
            && added == 0 && free' == free && Full(t', h)
            && Data(t') == Data(t) && Inner(t') == Inner(t) && Blocks(t') == Blocks(t)
  {
    var t, t' := TreeAt(d, p, ptr, h), TreeAt(d', p, ptr, h);
    Capacity(t, p, h);
    Capacity(t', p, h);
    FullInner(t, p, h);
    FullInner(t', p, h);
    NothingGained(Inner(t), Inner(t'), Data(t), Data(t'), free - free');
    assert free - free' == {};
  }

  lemma NothingGained(inner: multiset<nat>, inner': multiset<nat>, data: seq<nat>, data': seq<nat>, gained: set<nat>)
    requires inner' + multiset(data') == inner + multiset(data) + multiset(gained)
    requires data == data' && |inner| == |inner'|
    ensures gained == {} && inner == inner'
  {
    assert |inner' + multiset(data')| == |inner'| + |data'|;
    assert |inner + multiset(data) + multiset(gained)| == |inner| + |data| + |gained|;
    assert (inner' + multiset(data')) - multiset(data) == inner';
    assert (inner + multiset(data)) - multiset(data) == inner;
    assert multiset(gained) == multiset{};
  }

  // Everything before a present tree is full, everything behind a missing one is missing.
  lemma RootsBefore(d: Disk, p: nat, e: InodeEntry, free: set<nat>, i: nat)
    requires i < 15 && Sound(d, p, e, free)
    ensures e.Ptrs()[i] != 0 ==>
              && WellFormed(TreeAt(d, p, e.Ptrs()[i], Height(i)), p, Height(i))
              && Owned(Blocks(TreeAt(d, p, e.Ptrs()[i], Height(i))), |d|, free)
              && forall j | 0 <= j < i :: Full(TreeAt(d, p, e.Ptrs()[j], Height(j)), Height(j))
    ensures (exists j | i < j < 15 :: e.Ptrs()[j] != 0) ==> Full(TreeAt(d, p, e.Ptrs()[i], Height(i)), Height(i))
    ensures e.Ptrs()[i] == 0 ==> forall j | i < j < 15 :: e.Ptrs()[j] == 0
  {
    hide Inner, Data;
    var ts := Roots(d, p, e.Ptrs());
    assert forall j | 0 <= j < 15 :: ts[j] == TreeAt(d, p, e.Ptrs()[j], Height(j));
    RootApart(ts, i, |d|, free);
    assert forall j | i < j < 15 && e.Ptrs()[j] != 0 :: ts[j].Node? && Full(ts[i], Height(i));
  }

  // Tree i was full and stays as it is.
  lemma InodeUnchangedStep(d0: Disk, d: Disk, d': Disk, p: nat, e0: InodeEntry, e: InodeEntry, i: nat,
                           added: nat, more: nat, free0: set<nat>, free: set<nat>, free': set<nat>)
    requires p > 0 && i < 15 && InodeGrowing(d0, d, p, e0, e, added, free0, free)
    requires Full(TreeAt(d, p, e.Ptrs()[i], Height(i)), Height(i))
    requires TreeGrown(d, d', p, e.Ptrs()[i], e.Ptrs()[i], Height(i), more, free, free')
    ensures more == 0 && free' == free && InodeGrowing(d0, d', p, e0, e, added, free0, free)
    ensures forall j | 0 <= j < 15 && Full(TreeAt(d, p, e.Ptrs()[j], Height(j)), Height(j)) ::
              Full(TreeAt(d', p, e.Ptrs()[j], Height(j)), Height(j))
  {
    hide WellFormed, Full, Data, Inner, TreeAt, Owned, BlocksAll, DataAll, InnerAll, Blocks;
    var ts, t' := Roots(d, p, e.Ptrs()), TreeAt(d', p, e.Ptrs()[i], Height(i));
    assert ts[i] == TreeAt(d, p, e.Ptrs()[i], Height(i));
    FullStays(d, d', p, e.Ptrs()[i], Height(i), more, free, free');
    OtherRoots(d, d', p, e.Ptrs(), i, e.Ptrs()[i], free);
    assert e.Ptrs()[i := e.Ptrs()[i]] == e.Ptrs();
    SameRoot(ts, i, t');
    RootWrites(d0, d, d', p, e0, e, i, added, free0, free);
    assert Prefixed(ts[i := t'], p);
  }

  lemma SameRoot(ts: seq<Tree>, i: nat, t': Tree)
    requires i < |ts| && Data(t') == Data(ts[i]) && Inner(t') == Inner(ts[i])
    ensures DataAll(ts[i := t']) == DataAll(ts) && InnerAll(ts[i := t']) == InnerAll(ts)
    ensures BlocksAll(ts[i := t']) == BlocksAll(ts)
  {
    var ts' := ts[i := t'];
    assert ts'[..i] == ts[..i] && ts'[i + 1..] == ts[i + 1..];
    SplitAt(ts, i);
    SplitAt(ts', i);
  }

  /** An inode in the middle of shrinking, compared with the state e0, d0, free0 it started from. */
  ghost predicate InodeShrinking(d0: Disk, d: Disk, p: nat, e0: InodeEntry, e: InodeEntry, freed: nat,
                                 free0: set<nat>, free: set<nat>, exact: bool) {
    && Sound(d, p, e, free)
    && free0 <= free && Lost(FileBlocks(d0, p, e0), FileBlocks(d, p, e), multiset(free - free0), exact)
    && FileData(d, p, e) <= FileData(d0, p, e0) && DataLost(|FileData(d0, p, e0)|, |FileData(d, p, e)|, freed, exact)
    && FileInner(d, p, e) <= FileInner(d0, p, e0) && SameElsewhere(d0, d, FileInner(d0, p, e0), {})
    && e == e0.(direct := e.direct, single := e.single, double := e.double, triple := e.triple)
  }

  lemma InodeShrinkingStart(d: Disk, p: nat, e: InodeEntry, free: set<nat>)
    requires Sound(d, p, e, free)
    ensures InodeShrinking(d, d, p, e, e, 0, free, free, true)
  {
    assert free - free == {};
  }

  // How many data blocks tree i holds.
  ghost function RootLen(d: Disk, p: nat, e: InodeEntry, i: nat): nat
    requires i < |e.Ptrs()|
  {
    |Data(TreeAt(d, p, e.Ptrs()[i], Height(i)))|
  }

  // The last present tree is cut down or goes away.
  lemma InodeShrinkingStep(d0: Disk, d: Disk, d': Disk, p: nat, e0: InodeEntry, e: InodeEntry, i: nat, ptr': word,
                           freed: nat, less: nat, free0: set<nat>, free: set<nat>, free': set<nat>, exact: bool)
    requires p > 0 && i < 15 && InodeShrinking(d0, d, p, e0, e, freed, free0, free, true)
    requires e.Ptrs()[i] != 0 && forall j | i < j < 15 :: e.Ptrs()[j] == 0
    requires Pruned(TreeAt(d, p, e.Ptrs()[i], Height(i)), TreeAt(d', p, ptr', Height(i)), d, d', p, Height(i), less, free, free', exact)
    ensures |e.direct| == 12
    ensures InodeShrinking(d0, d', p, e0, e.WithPtr(i, ptr'), freed + less, free0, free', exact)
    ensures forall j | 0 <= j < 15 && j != i ::
              TreeAt(d', p, e.Ptrs()[j], Height(j)) == TreeAt(d, p, e.Ptrs()[j], Height(j))
    ensures forall j | 0 <= j < 15 && j != i :: RootLen(d', p, e.WithPtr(i, ptr'), j) == RootLen(d, p, e, j)
  {
    hide WellFormed, Full, Data, Inner, TreeAt, Owned, BlocksAll, DataAll, InnerAll, Blocks, Lost;
    ShrinkingShape(d0, d, p, e0, e, freed, free0, free, true);
    var ts, t' := Roots(d, p, e.Ptrs()), TreeAt(d', p, ptr', Height(i));
    assert ts[i] == TreeAt(d, p, e.Ptrs()[i], Height(i));
    assert SameElsewhere(d, d', Inner(ts[i]), free);
    OtherRoots(d, d', p, e.Ptrs(), i, ptr', free);
    assert ts[i := t'] == Roots(d', p, e.WithPtr(i, ptr').Ptrs());
    assert forall j | i < j < 15 :: ts[j] == Empty;
    ShrinkRoot(ts, i, t', FileBlocks(d0, p, e0), |d|, free0, free, free', exact);
    ShrinkRootData(ts, i, t');
    assert Inner(ts[i]) <= FileInner(d0, p, e0);
    assert SameElsewhere(d0, d', FileInner(d0, p, e0), {});
    assert Prefixed(ts[i := t'], p);
  }

  lemma ShrinkRoot(ts: seq<Tree>, i: nat, t': Tree, all: multiset<nat>, limit: nat,
                   free0: set<nat>, free: set<nat>, free': set<nat>, exact: bool)
    requires i < |ts| && free0 <= free <= free' && Lost(Blocks(ts[i]), Blocks(t'), multiset(free' - free), exact)
    requires Owned(BlocksAll(ts), limit, free) && Lost(all, BlocksAll(ts), multiset(free - free0), true)
    ensures Lost(all, BlocksAll(ts[i := t']), multiset(free' - free0), exact) && Owned(BlocksAll(ts[i := t']), limit, free')
  {
    ReplaceRootBlocks(ts, i, t');
    LoseInside(all, BlocksAll(ts), BlocksAll(ts[i := t']), Blocks(ts[i]), Blocks(t'), limit, free0, free, free', exact);
  }

  lemma ShrinkRootData(ts: seq<Tree>, i: nat, t': Tree)
    requires i < |ts| && (forall j | i < j < |ts| :: ts[j] == Empty)
    requires Data(t') <= Data(ts[i]) && Inner(t') <= Inner(ts[i])
    ensures DataAll(ts[i := t']) <= DataAll(ts)
    ensures |DataAll(ts)| - |DataAll(ts[i := t'])| == |Data(ts[i])| - |Data(t')|
    ensures InnerAll(ts[i := t']) <= InnerAll(ts) && Inner(ts[i]) <= InnerAll(ts)
  {
    ReplaceLastRoot(ts, i, t');
    var ts' := ts[i := t'];
    assert ts'[..i] == ts[..i] && ts'[i + 1..] == ts[i + 1..];
    SplitAt(ts, i);
    SplitAt(ts', i);
  }

  // A file without data blocks has no blocks at all, not even a pointer block.
  lemma EmptyFile(d: Disk, p: nat, e: InodeEntry, free: set<nat>)
    requires p > 0 && Sound(d, p, e, free)
    ensures FileData(d, p, e) == [] <==> e.Ptrs()[0] == 0
    ensures FileData(d, p, e) == [] ==> (forall i | 0 <= i < 15 :: e.Ptrs()[i] == 0) && FileBlocks(d, p, e) == multiset{}
  {
    var ts := Roots(d, p, e.Ptrs());
    assert ts[0] == TreeAt(d, p, e.Ptrs()[0], 0);
    RootsBefore(d, p, e, free, 0);
    if e.Ptrs()[0] == 0 {
      assert forall i | 0 <= i < 15 :: ts[i] == TreeAt(d, p, e.Ptrs()[i], Height(i)) == Empty;
      AllEmpty(ts);
    } else {
      SplitAt(ts, 0);
    }
  }

  lemma ShrinkingShape(d0: Disk, d: Disk, p: nat, e0: InodeEntry, e: InodeEntry, freed: nat,
                       free0: set<nat>, free: set<nat>, exact: bool)
    requires InodeShrinking(d0, d, p, e0, e, freed, free0, free, exact)
    ensures |e.direct| == 12 && Sound(d, p, e, free)
    ensures DataLost(|FileData(d0, p, e0)|, |FileData(d, p, e)|, freed, exact)
  {
  }

  // A cut that is not exact leaves a block that is neither free nor in the file.
  lemma LeakedBlock(d0: Disk, d: Disk, p: nat, e0: InodeEntry, e: InodeEntry, freed: nat, free0: set<nat>,
                    free: set<nat>)
    requires InodeShrinking(d0, d, p, e0, e, freed, free0, free, false) && Sound(d0, p, e0, free0)
    ensures exists b :: b in FileBlocks(d0, p, e0) && b !in FileBlocks(d, p, e) && b !in free
  {
    Missing(FileBlocks(d0, p, e0), FileBlocks(d, p, e), free - free0);
  }

  // Entry i of a list of block numbers, or 0 behind its end.
  ghost function Nth(data: seq<nat>, i: nat): nat {
    if i < |data| then data[i] else 0
  }

  // The index of the first data block below tree i when all trees before it are full.
  function Base(p: nat, i: nat): nat {
    if i == 0 then 0 else Base(p, i - 1) + Pow(p, Height(i - 1))
  }

  lemma {:induction false} FrontLength(ts: seq<Tree>, p: nat, i: nat)
    requires p > 0 && i <= |ts| && Prefixed(ts, p)
    ensures |DataAll(ts[..i])| <= Base(p, i)
    ensures (forall j | 0 <= j < i :: Full(ts[j], Height(j))) ==> |DataAll(ts[..i])| == Base(p, i)
  {
    if i > 0 {
      FrontLength(ts, p, i - 1);
      Capacity(ts[i - 1], p, Height(i - 1));
      assert ts[..i] == ts[..i - 1] + [ts[i - 1]];
      DataSplit(ts[..i - 1], [ts[i - 1]]);
      Singleton(ts[i - 1]);
    }
  }

  // Block Base(i) + r of the file is block r of tree i.
  lemma FileNth(d: Disk, p: nat, e: InodeEntry, free: set<nat>, i: nat, r: nat)
    requires p > 0 && Sound(d, p, e, free) && i < 15 && r < Pow(p, Height(i))
    ensures Nth(FileData(d, p, e), Base(p, i) + r) == Nth(Data(TreeAt(d, p, e.Ptrs()[i], Height(i))), r)
  {
    hide Owned, FileBlocks, WellFormed, Data, Inner, Blocks, TreeAt, Pow, Base;
    var ts := Roots(d, p, e.Ptrs());
    assert ts[i] == TreeAt(d, p, e.Ptrs()[i], Height(i));
    SplitAt(ts, i);
    AroundRoot(ts, p, i);
    NthInMiddle(DataAll(ts[..i]), Data(ts[i]), DataAll(ts[i + 1..]), Base(p, i), r);
  }

  lemma AroundRoot(ts: seq<Tree>, p: nat, i: nat)
    requires p > 0 && Prefixed(ts, p) && i < |ts|
    ensures |DataAll(ts[..i])| <= Base(p, i)
    ensures Data(ts[i]) != [] ==> |DataAll(ts[..i])| == Base(p, i)
    ensures |Data(ts[i])| < Pow(p, Height(i)) ==> DataAll(ts[i + 1..]) == []
  {
    FrontLength(ts, p, i);
    Capacity(ts[i], p, Height(i));
    if |Data(ts[i])| < Pow(p, Height(i)) {
      AllEmpty(ts[i + 1..]);
    }
  }

  lemma NthInMiddle(front: seq<nat>, middle: seq<nat>, back: seq<nat>, base: nat, r: nat)
    requires |front| <= base && (middle != [] ==> |front| == base) && (r >= |middle| ==> back == [])
    ensures Nth(front + middle + back, base + r) == Nth(middle, r)
  {
  }

  // Following one pointer on the way to block i of a tree.
  lemma Descend(d: Disk, p: nat, ptr: nat, h: nat, i: nat, free: set<nat>)
    requires p > 0 && h > 0 && ptr != 0 && i < Pow(p, h)
    requires WellFormed(TreeAt(d, p, ptr, h), p, h) && Owned(Blocks(TreeAt(d, p, ptr, h)), |d|, free)
    ensures ptr < |d| && Pow(p, h - 1) > 0
    ensures var (q, r) := (i / Pow(p, h - 1), i % Pow(p, h - 1));
            && 0 <= q < p && 0 <= r < Pow(p, h - 1)
            && var kid := TreeAt(d, p, Ptr(d, ptr, q), h - 1);
            && WellFormed(kid, p, h - 1) && Owned(Blocks(kid), |d|, free)
            && Nth(Data(TreeAt(d, p, ptr, h)), i) == Nth(Data(kid), r)
  {
    var t := TreeAt(d, p, ptr, h);
    assert ptr in Blocks(t);
    DataAt(t, p, h, i);
    KidApart(ptr, t.kids, i / Pow(p, h - 1), |d|, free);
  }

  lemma SmallPowers(p: nat)
    ensures Pow(p, 0) == 1 && Pow(p, 1) == p && Pow(p, 2) == p * p && Pow(p, 3) == p * p * p
    ensures Base(p, 12) == 12 && Base(p, 13) == 12 + p && Base(p, 14) == 12 + p + p * p
    ensures Base(p, 15) == 12 + p + p * p + p * p * p
  {
    assert Pow(p, 1) == p * Pow(p, 0);
    assert Pow(p, 2) == p * Pow(p, 1);
    assert Pow(p, 3) == p * Pow(p, 2) == p * p * p;
    forall i: nat | i <= 12
      ensures Base(p, i) == i
    {
      DirectBase(p, i);
    }
  }

  lemma {:induction false} DirectBase(p: nat, i: nat)
    requires i <= 12
    ensures Base(p, i) == i
  {
    if i > 0 {
      DirectBase(p, i - 1);
    }
  }

  // Nothing hangs from a missing pointer; a data block is its own block 0.
  lemma ShallowNth(d: Disk, p: nat, ptr: nat, h: nat, i: nat)
    ensures ptr == 0 ==> Nth(Data(TreeAt(d, p, ptr, h)), i) == 0
    ensures Nth(Data(TreeAt(d, p, ptr, 0)), 0) == ptr
  {
  }

  // A request that leaves at most 12 + p blocks covers the double and the triple indirect tree.
  lemma TailOfFile(d: Disk, p: nat, e: InodeEntry, free: set<nat>)
    requires p > 0 && Sound(d, p, e, free)
    ensures |FileData(d, p, e)| <= Base(p, 15)
    ensures (forall i | 0 <= i < 15 :: Full(TreeAt(d, p, e.Ptrs()[i], Height(i)), Height(i))) ==>
              |FileData(d, p, e)| == Base(p, 15)
    ensures RootLen(d, p, e, 13) + RootLen(d, p, e, 14) <= |FileData(d, p, e)|
    ensures RootLen(d, p, e, 13) + RootLen(d, p, e, 14) > 0 ==>
              |FileData(d, p, e)| == 12 + p + RootLen(d, p, e, 13) + RootLen(d, p, e, 14)
  {
    hide Owned, FileBlocks, Data, Inner, Blocks, TreeAt, Pow, Base;
    var ts := Roots(d, p, e.Ptrs());
    assert forall i | 0 <= i < 15 :: ts[i] == TreeAt(d, p, e.Ptrs()[i], Height(i));
    SmallPowers(p);
    FrontLength(ts, p, 15);
    assert ts[..15] == ts;
    LastTwo(ts);
    AroundRoot(ts, p, 13);
    Capacity(ts[13], p, 2);
    if Data(ts[13]) == [] {
      PowPositive(p, 2);
      Singleton(ts[14]);
      assert ts[14..] == [ts[14]];
    }
  }

  /**
   Which files dealloc_inode_blocks cuts exactly, by the number of blocks that remain: those that end in front of
   the double indirect blocks or at a cuttable place in one of the two highest trees.
   */
  predicate ShrinkOk(p: nat, left: nat)
    requires p > 0
  {
    if left < 12 + p then true
    else if left < 12 + p + p * p then Cuttable(p, 2, left - 12 - p)
    else Cuttable(p, 3, left - 12 - p - p * p)
  }

  // Leaving one block behind the single indirect ones is the first cut that is not exact; leaving a full table is.
  lemma FirstLost(p: nat)
    requires p >= 2
    ensures ShrinkOk(p, 12 + p) && !ShrinkOk(p, 13 + p) && ShrinkOk(p, 12 + 2 * p)
    ensures forall left: nat | left <= 12 + p :: ShrinkOk(p, left)
  {
    SmallPowers(p);
    assert p < p * p by { MulMonotone(2, p, p); }
    DivModUnique(0, p, 1);
    DivModUnique(1, p, 0);
    assert Cuttable(p, 2, 0) && !Cuttable(p, 2, 1) && Cuttable(p, 2, p);
    NothingLeft(p);
  }

  // The same by the lengths of these trees and the number of blocks that go.
  predicate CutOk(p: nat, count: nat, double: nat, triple: nat)
    requires p > 0
  {
    if count < triple then Cuttable(p, 3, triple - count)
    else if triple < count < triple + double then Cuttable(p, 2, triple + double - count)
    else true
  }

  lemma CutPlace(d: Disk, p: nat, e: InodeEntry, free: set<nat>, left: nat)
    requires p > 0 && Sound(d, p, e, free) && left < |FileData(d, p, e)|
    ensures CutOk(p, |FileData(d, p, e)| - left, RootLen(d, p, e, 13), RootLen(d, p, e, 14)) <==> ShrinkOk(p, left)
  {
    hide Owned, FileData, FileBlocks, Data, Inner, Blocks, TreeAt, Pow, Base, Full, WellFormed, Cuttable;
    TailOfFile(d, p, e, free);
    HighRoots(d, p, e, free);
    NothingLeft(p);
    CutArithmetic(p, |FileData(d, p, e)|, left, RootLen(d, p, e, 13), RootLen(d, p, e, 14));
  }

  lemma NothingLeft(p: nat)
    requires p > 0
    ensures Cuttable(p, 2, 0) && Cuttable(p, 3, 0)
  {
    hide Pow;
    PowPositive(p, 1);
    PowPositive(p, 2);
  }

  lemma HighRoots(d: Disk, p: nat, e: InodeEntry, free: set<nat>)
    requires p > 0 && Sound(d, p, e, free)
    ensures RootLen(d, p, e, 13) <= p * p && (RootLen(d, p, e, 14) > 0 ==> RootLen(d, p, e, 13) == p * p)
    ensures RootLen(d, p, e, 13) + RootLen(d, p, e, 14) == 0 ==> |FileData(d, p, e)| <= 12 + p
  {
    hide Owned, Data, Inner, Blocks, Pow, Base;
    var ts := Roots(d, p, e.Ptrs());
    assert forall i | 0 <= i < 15 :: ts[i] == TreeAt(d, p, e.Ptrs()[i], Height(i));
    SmallPowers(p);
    Capacity(ts[13], p, 2);
    RootsBefore(d, p, e, free, 14);
    RootsBefore(d, p, e, free, 13);
    NoData(ts[14]);
    FrontLength(ts, p, 13);
    LastTwo(ts);
  }

  lemma NoData(t: Tree)
    ensures t == Empty ==> Data(t) == []
  {
  }

  lemma CutArithmetic(p: nat, total: nat, left: nat, double: nat, triple: nat)
    requires p > 0 && left < total && double <= p * p && (triple > 0 ==> double == p * p)
    requires if double + triple > 0 then total == 12 + p + double + triple else total <= 12 + p
    requires Cuttable(p, 2, 0) && Cuttable(p, 3, 0)
    ensures CutOk(p, total - left, double, triple) <==> ShrinkOk(p, left)
  {
    hide Cuttable;
  }

  lemma LastTwo(ts: seq<Tree>)
    requires |ts| == 15
    ensures DataAll(ts) == DataAll(ts[..13]) + Data(ts[13]) + Data(ts[14])
  {
    SplitAt(ts, 13);
    assert ts[14..] == [ts[14]];
    Singleton(ts[14]);
  }

  // The data blocks of a file are pairwise different nonzero blocks of the volume, none of them free and
  // none of them a pointer block of the file.
  lemma DataBlocksDistinct(d: Disk, p: nat, e: InodeEntry, free: set<nat>)
    requires Sound(d, p, e, free)
    ensures var data := FileData(d, p, e);
            && (forall i | 0 <= i < |data| :: 0 < data[i] < |d| && data[i] !in free && data[i] !in FileInner(d, p, e))
            && (forall i, j | 0 <= i < j < |data| :: data[i] != data[j])
  {
    hide Roots, DataAll, InnerAll, Prefixed;
    var data, inner := FileData(d, p, e), FileInner(d, p, e);
    assert FileBlocks(d, p, e) == inner + multiset(data);
    OwnedDistinct(inner, data, |d|, free);
  }

  lemma OwnedDistinct(inner: multiset<nat>, data: seq<nat>, limit: nat, free: set<nat>)
    requires Owned(inner + multiset(data), limit, free)
    ensures forall i | 0 <= i < |data| :: 0 < data[i] < limit && data[i] !in free && data[i] !in inner
    ensures forall i, j | 0 <= i < j < |data| :: data[i] != data[j]
  {
    var all := inner + multiset(data);
    forall i | 0 <= i < |data|
      ensures 0 < data[i] < limit && data[i] !in free && data[i] !in inner
    {
      assert data[i] in multiset(data) && data[i] in all;
      assert all[data[i]] == inner[data[i]] + multiset(data)[data[i]];
    }
    forall i, j | 0 <= i < j < |data|
      ensures data[i] != data[j]
    {
      assert data == data[..j] + data[j..] && data[i] in data[..j] && data[j] in data[j..];
      assert multiset(data) == multiset(data[..j]) + multiset(data[j..]);
      assert all[data[i]] == 1;
    }
  }
}
