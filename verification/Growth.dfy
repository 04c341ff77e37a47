/** How far a file can grow: the pointer blocks that its data blocks need, and the blocks there are. */
module Growth {
  import opened Arithmetic
  import opened BlockTrees
  import opened DiskBlocks
  import opened Inodes

  function Behind(n: nat, front: nat): nat {
    if n > front then n - front else 0
  }

  // The pointer blocks of a tree of height h with n data blocks, filled from the front, ...
  function TreeNeeds(p: nat, h: nat, n: nat): nat
    decreases h, 0
  {
    if h == 0 || n == 0 then 0 else 1 + KidsNeed(p, h - 1, p, n)
  }

  // ... of k such trees, ...
  function KidsNeed(p: nat, h: nat, k: nat, n: nat): nat
    decreases h, k + 1
  {
    if k == 0 || n == 0 then 0 else TreeNeeds(p, h, n) + KidsNeed(p, h, k - 1, Behind(n, Pow(p, h)))
  }

  // ... and of the fifteen trees of an inode from tree i on.
  function RootsNeed(p: nat, i: nat, n: nat): nat
    decreases 15 - i
  {
    if i >= 15 || n == 0 then 0 else TreeNeeds(p, Height(i), n) + RootsNeed(p, i + 1, Behind(n, Pow(p, Height(i))))
  }

  // All blocks of a file with n data blocks.
  function FileNeeds(p: nat, n: nat): nat {
    n + RootsNeed(p, 0, n)
  }

  // The most data blocks, up to m, that a file of n data blocks comes to have with so much room.
  function Reach(p: nat, n: nat, m: nat, room: nat): nat
    decreases m - n
  {
    if n < m && n < Base(p, 15) && FileNeeds(p, n + 1) <= room then Reach(p, n + 1, m, room) else n
  }

  lemma FirstKid(ks: seq<Tree>)
    requires ks != []
    ensures |DataAll(ks)| == |Data(ks[0])| + |DataAll(ks[1..])|
    ensures |InnerAll(ks)| == |Inner(ks[0])| + |InnerAll(ks[1..])|
  {
    assert InnerAll(ks) == Inner(ks[0]) + InnerAll(ks[1..]);
  }

  // A tree has the pointer blocks for the data it has, ...
  lemma {:induction false} TreeAtLeast(t: Tree, p: nat, h: nat, x: nat)
    requires p > 0 && WellFormed(t, p, h) && (x <= |Data(t)| || Full(t, h))
    ensures |Inner(t)| >= TreeNeeds(p, h, x)
    decreases h, 0
  {
    if h > 0 && x > 0 {
      KidsAtLeast(t.kids, p, h - 1, x);
    }
  }

  lemma {:induction false} KidsAtLeast(ks: seq<Tree>, p: nat, h: nat, x: nat)
    requires p > 0 && (forall i | 0 <= i < |ks| :: WellFormed(ks[i], p, h))
    requires forall i, j | 0 <= i < j < |ks| && ks[j].Node? :: Full(ks[i], h)
    requires x <= |DataAll(ks)| || forall i | 0 <= i < |ks| :: Full(ks[i], h)
    ensures |InnerAll(ks)| >= KidsNeed(p, h, |ks|, x)
    decreases h, 1 + |ks|
  {
    hide Full, WellFormed, Data, DataAll, Inner, InnerAll, Pow, TreeNeeds;
    if ks != [] && x > 0 {
      Capacity(ks[0], p, h);
      FirstKid(ks);
      if !Full(ks[0], h) {
        AllEmpty(ks[1..]);
      }
      TreeAtLeast(ks[0], p, h, x);
      KidsAtLeast(ks[1..], p, h, Behind(x, Pow(p, h)));
    }
  }

  // ... and none that one more data block would not need.
  lemma {:induction false} TreeAtMost(t: Tree, p: nat, h: nat, x: nat)
    requires p > 0 && WellFormed(t, p, h) && x > |Data(t)|
    ensures |Inner(t)| <= TreeNeeds(p, h, x)
    decreases h, 0
  {
    if h > 0 && t.Node? {
      KidsAtMost(t.kids, p, h - 1, x);
    }
  }

  lemma {:induction false} KidsAtMost(ks: seq<Tree>, p: nat, h: nat, x: nat)
    requires p > 0 && (forall i | 0 <= i < |ks| :: WellFormed(ks[i], p, h))
    requires forall i, j | 0 <= i < j < |ks| && ks[j].Node? :: Full(ks[i], h)
    requires x > |DataAll(ks)|
    ensures |InnerAll(ks)| <= KidsNeed(p, h, |ks|, x)
    decreases h, 1 + |ks|
  {
    hide Full, WellFormed, Data, DataAll, Inner, InnerAll, Pow, TreeNeeds;
    if ks != [] {
      Capacity(ks[0], p, h);
      FirstKid(ks);
      TreeAtMost(ks[0], p, h, x);
      if Full(ks[0], h) {
        KidsAtMost(ks[1..], p, h, Behind(x, Pow(p, h)));
      } else {
        AllEmpty(ks[1..]);
      }
    } else {
      AllEmpty(ks);
    }
  }

  lemma {:induction false} RootsAtLeast(ts: seq<Tree>, p: nat, i: nat, x: nat)
    requires p > 0 && i <= |ts| == 15 && Prefixed(ts, p)
    requires x <= |DataAll(ts[i..])| || forall j | i <= j < 15 :: Full(ts[j], Height(j))
    ensures |InnerAll(ts[i..])| >= RootsNeed(p, i, x)
    decreases 15 - i
  {
    hide Full, WellFormed, Data, DataAll, Inner, InnerAll, Pow, TreeNeeds;
    if i < 15 && x > 0 {
      FirstOf(ts, i);
      Capacity(ts[i], p, Height(i));
      if !Full(ts[i], Height(i)) {
        AllEmpty(ts[i + 1..]);
      }
      TreeAtLeast(ts[i], p, Height(i), x);
      RootsAtLeast(ts, p, i + 1, Behind(x, Pow(p, Height(i))));
    }
  }

  lemma {:induction false} RootsAtMost(ts: seq<Tree>, p: nat, i: nat, x: nat)
    requires p > 0 && i <= |ts| == 15 && Prefixed(ts, p) && x > |DataAll(ts[i..])|
    ensures |InnerAll(ts[i..])| <= RootsNeed(p, i, x)
    decreases 15 - i
  {
    hide Full, WellFormed, Data, DataAll, Inner, InnerAll, Pow, TreeNeeds;
    if i < 15 {
      FirstOf(ts, i);
      Capacity(ts[i], p, Height(i));
      TreeAtMost(ts[i], p, Height(i), x);
      if Full(ts[i], Height(i)) {
        RootsAtMost(ts, p, i + 1, Behind(x, Pow(p, Height(i))));
      } else {
        AllEmpty(ts[i + 1..]);
      }
    } else {
      AllEmpty(ts[i..]);
    }
  }

  lemma FirstOf(ts: seq<Tree>, i: nat)
    requires i < |ts|
    ensures |DataAll(ts[i..])| == |Data(ts[i])| + |DataAll(ts[i + 1..])|
    ensures |InnerAll(ts[i..])| == |Inner(ts[i])| + |InnerAll(ts[i + 1..])|
  {
    assert ts[i..][1..] == ts[i + 1..];
    FirstKid(ts[i..]);
  }

  /** A file has the blocks that its data blocks need, and fewer than one more data block would need. */
  lemma FileInBetween(d: Disk, p: nat, e: InodeEntry, free: set<nat>, x: nat)
    requires p > 0 && Sound(d, p, e, free)
    ensures |FileBlocks(d, p, e)| == |FileInner(d, p, e)| + |FileData(d, p, e)|
    ensures |FileData(d, p, e)| <= Base(p, 15)
    ensures x <= |FileData(d, p, e)| ==> FileNeeds(p, x) <= |FileBlocks(d, p, e)|
    ensures x > |FileData(d, p, e)| ==> |FileBlocks(d, p, e)| < FileNeeds(p, x)
  {
    hide Full, WellFormed, Data, Inner, TreeAt, DataAll, InnerAll, RootsNeed;
    var ts := Roots(d, p, e.Ptrs());
    assert ts[0..] == ts && ts[..15] == ts;
    FrontLength(ts, p, 15);
    if x <= |DataAll(ts)| {
      RootsAtLeast(ts, p, 0, x);
    } else {
      RootsAtMost(ts, p, 0, x);
    }
  }

  lemma {:induction false} ReachBelow(p: nat, n: nat, m: nat, room: nat)
    requires n <= m
    ensures n <= Reach(p, n, m, room) <= m
    decreases m - n
  {
    hide FileNeeds, Base;
    if n < m {
      ReachBelow(p, n + 1, m, room);
    }
  }

  lemma {:induction false} ReachIs(p: nat, n: nat, m: nat, room: nat, reached: nat)
    requires n <= reached <= m && reached <= Base(p, 15)
    requires forall x | n < x <= reached :: FileNeeds(p, x) <= room
    requires reached == m || reached == Base(p, 15) || FileNeeds(p, reached + 1) > room
    ensures Reach(p, n, m, room) == reached
    decreases reached - n
  {
    hide FileNeeds, Base;
    if n < reached {
      ReachIs(p, n + 1, m, room, reached);
    }
  }

  lemma FarEnough(p: nat, n0: nat, n: nat, m: nat, has: nat, room: nat)
    requires n0 <= n <= m && n <= Base(p, 15) && has <= room
    requires forall x: nat :: x <= n <==> FileNeeds(p, x) <= has
    requires n < m ==> has == room || n == Base(p, 15)
    ensures Reach(p, n0, m, room) == n
    ensures n == m <==> m <= Base(p, 15) && FileNeeds(p, m) <= room
  {
    hide FileNeeds, Base;
    assert n + 1 <= n <==> FileNeeds(p, n + 1) <= has;
    ReachIs(p, n0, m, room, n);
  }

  // The number of data blocks of a file says what its blocks are enough for.
  lemma JustEnough(d: Disk, p: nat, e: InodeEntry, free: set<nat>)
    requires p > 0 && Sound(d, p, e, free)
    ensures |FileData(d, p, e)| <= Base(p, 15)
    ensures forall x: nat :: x <= |FileData(d, p, e)| <==> FileNeeds(p, x) <= |FileBlocks(d, p, e)|
  {
    hide Sound, FileData, FileInner, FileBlocks, FileNeeds, Base;
    FileInBetween(d, p, e, free, 0);
    forall x: nat
      ensures x <= |FileData(d, p, e)| <==> FileNeeds(p, x) <= |FileBlocks(d, p, e)|
    {
      FileInBetween(d, p, e, free, x);
    }
  }

  lemma WhatGrows(d0: Disk, d: Disk, p: nat, e0: InodeEntry, e: InodeEntry, added: nat, free0: set<nat>, free: set<nat>)
    requires InodeGrowing(d0, d, p, e0, e, added, free0, free)
    ensures Sound(d, p, e, free) && free <= free0
    ensures FileBlocks(d, p, e) == FileBlocks(d0, p, e0) + multiset(free0 - free)
    ensures |FileData(d0, p, e0)| <= |FileData(d, p, e)|
  {
    hide FileData, FileInner, FileBlocks, Sound, SameElsewhere;
  }

  /**
   A growth that stops only when the request is met, no block is free or no pointer is left comes exactly as
   far as the blocks of the file and the free ones reach together.
   */
  lemma GrownAsFarAsPossible(d0: Disk, d: Disk, p: nat, e0: InodeEntry, e: InodeEntry, added: nat,
                             free0: set<nat>, free: set<nat>, m: nat)
    requires p > 0 && InodeGrowing(d0, d, p, e0, e, added, free0, free)
    requires |FileData(d, p, e)| <= m
    requires |FileData(d, p, e)| < m ==> free == {} || |FileData(d, p, e)| == Base(p, 15)
    ensures |FileData(d, p, e)| == Reach(p, |FileData(d0, p, e0)|, m, |free0| + |FileBlocks(d0, p, e0)|)
    ensures |FileData(d, p, e)| == m <==> m <= Base(p, 15) && FileNeeds(p, m) <= |free0| + |FileBlocks(d0, p, e0)|
  {
    hide InodeGrowing, FileData, FileInner, FileBlocks, FileNeeds, Base, Sound, Reach;
    WhatGrows(d0, d, p, e0, e, added, free0, free);
    JustEnough(d, p, e, free);
    SameRoom(FileBlocks(d0, p, e0), FileBlocks(d, p, e), free0, free);
    FarEnough(p, |FileData(d0, p, e0)|, |FileData(d, p, e)|, m, |FileBlocks(d, p, e)|, |free0| + |FileBlocks(d0, p, e0)|);
  }

  // Blocks that change from free to used are as many as before.
  lemma SameRoom(blocks0: multiset<nat>, blocks: multiset<nat>, free0: set<nat>, free: set<nat>)
    requires free <= free0 && blocks == blocks0 + multiset(free0 - free)
    ensures |free| + |blocks| == |free0| + |blocks0|
  {
    assert free0 == free + (free0 - free);
  }
}
