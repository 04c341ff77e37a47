/**
 The pointer trees of an inode as values: what alloc_inode_ptrblk, dealloc_inode_ptrblk and
 get_inode_blknum read and write on the disk, seen as a tree.  A tree of height 0 is a data block; a
 tree of height h > 0 is a pointer block with p subtrees of height h - 1.
 */
module BlockTrees {
  import opened Arithmetic
  import opened DiskBlocks

  datatype Tree = Empty | Node(blk: nat, kids: seq<Tree>)

  // The tree that hangs from a pointer on a given disk; pointer 0 means that there is none.
  ghost function TreeAt(disk: Disk, p: nat, ptr: nat, h: nat): (t: Tree)
    ensures t == Empty <==> ptr == 0
    ensures t != Empty ==> t.blk == ptr && |t.kids| == if h == 0 then 0 else p
    decreases h
  {
    if ptr == 0 then Empty
    else if h == 0 then Node(ptr, [])
    else Node(ptr, seq(p, i requires 0 <= i < p => TreeAt(disk, p, Ptr(disk, ptr, i), h - 1)))
  }

  // The data blocks in file order.
  ghost function Data(t: Tree): seq<nat>
    decreases t
  {
    match t
    case Empty => []
    case Node(blk, kids) => if kids == [] then [blk] else DataAll(kids)
  }

  ghost function DataAll(ks: seq<Tree>): seq<nat>
    decreases ks
  {
    if ks == [] then [] else Data(ks[0]) + DataAll(ks[1..])
  }

  // The pointer blocks.
  ghost function Inner(t: Tree): multiset<nat>
    decreases t
  {
    match t
    case Empty => multiset{}
    case Node(blk, kids) => if kids == [] then multiset{} else multiset{blk} + InnerAll(kids)
  }

  ghost function InnerAll(ks: seq<Tree>): multiset<nat>
    decreases ks
  {
    if ks == [] then multiset{} else Inner(ks[0]) + InnerAll(ks[1..])
  }

  // All blocks a tree occupies.
  ghost function Blocks(t: Tree): multiset<nat> {
    Inner(t) + multiset(Data(t))
  }

  ghost function BlocksAll(ks: seq<Tree>): multiset<nat> {
    InnerAll(ks) + multiset(DataAll(ks))
  }

  // No entry is missing anywhere.
  ghost predicate Full(t: Tree, h: nat)
    decreases h
  {
    t.Node? && (h > 0 ==> forall i | 0 <= i < |t.kids| :: Full(t.kids[i], h - 1))
  }

  // Entries are filled from the front: every subtree before a present one is full.  (The last
  // present subtree may be a pointer block without any data, left by a growth that ran out of space.)
  ghost predicate WellFormed(t: Tree, p: nat, h: nat)
    decreases h
  {
    t.Node? ==>
      if h == 0 then t.kids == []
      else
        && |t.kids| == p
        && (forall i | 0 <= i < p :: WellFormed(t.kids[i], p, h - 1))
        && (forall i, j | 0 <= i < j < p && t.kids[j].Node? :: Full(t.kids[i], h - 1))
  }

  // Every block is used once, is a block of the volume and is not free.
  ghost predicate Owned(m: multiset<nat>, limit: nat, free: set<nat>) {
    forall b | b in m :: m[b] == 1 && 0 < b < limit && b !in free
  }

  lemma {:induction false} DataSplit(a: seq<Tree>, b: seq<Tree>)
    ensures DataAll(a + b) == DataAll(a) + DataAll(b)
  {
    if a == [] {
      assert a + b == b;
    } else {
      assert (a + b)[1..] == a[1..] + b;
      DataSplit(a[1..], b);
    }
  }

  lemma {:induction false} InnerSplit(a: seq<Tree>, b: seq<Tree>)
    ensures InnerAll(a + b) == InnerAll(a) + InnerAll(b)
  {
    if a == [] {
      assert a + b == b;
    } else {
      assert (a + b)[1..] == a[1..] + b;
      InnerSplit(a[1..], b);
    }
  }

  lemma {:induction false} AllEmpty(ks: seq<Tree>)
    requires forall i | 0 <= i < |ks| :: ks[i] == Empty
    ensures DataAll(ks) == [] && InnerAll(ks) == multiset{}
  {
    if ks != [] {
      AllEmpty(ks[1..]);
    }
  }

  lemma Singleton(t: Tree)
    ensures DataAll([t]) == Data(t) && InnerAll([t]) == Inner(t)
  {
    assert DataAll([t]) == Data(t) + DataAll([]);
  }

  lemma ThreePieces(ks: seq<Tree>, i: nat)
    requires i < |ks|
    ensures ks == ks[..i] + [ks[i]] + ks[i + 1..]
  {
  }

  // One subtree singled out.
  lemma SplitAt(ks: seq<Tree>, i: nat)
    requires i < |ks|
    ensures DataAll(ks) == DataAll(ks[..i]) + Data(ks[i]) + DataAll(ks[i + 1..])
    ensures InnerAll(ks) == InnerAll(ks[..i]) + Inner(ks[i]) + InnerAll(ks[i + 1..])
  {
    DataSplitAt(ks, i);
    InnerSplitAt(ks, i);
  }

  lemma DataSplitAt(ks: seq<Tree>, i: nat)
    requires i < |ks|
    ensures DataAll(ks) == DataAll(ks[..i]) + Data(ks[i]) + DataAll(ks[i + 1..])
  {
    ThreePieces(ks, i);
    DataSplit(ks[..i] + [ks[i]], ks[i + 1..]);
    DataSplit(ks[..i], [ks[i]]);
    Singleton(ks[i]);
  }

  lemma InnerSplitAt(ks: seq<Tree>, i: nat)
    requires i < |ks|
    ensures InnerAll(ks) == InnerAll(ks[..i]) + Inner(ks[i]) + InnerAll(ks[i + 1..])
  {
    ThreePieces(ks, i);
    InnerSplit(ks[..i] + [ks[i]], ks[i + 1..]);
    InnerSplit(ks[..i], [ks[i]]);
    Singleton(ks[i]);
  }

  lemma BlocksSplitAt(ks: seq<Tree>, i: nat)
    requires i < |ks|
    ensures BlocksAll(ks) == BlocksAll(ks[..i]) + Blocks(ks[i]) + BlocksAll(ks[i + 1..])
  {
    SplitAt(ks, i);
  }

  // Two different subtrees take their blocks separately.
  lemma TwoKids(ks: seq<Tree>, i: nat, j: nat)
    requires i < |ks| && j < |ks| && i != j
    ensures Blocks(ks[i]) + Blocks(ks[j]) <= BlocksAll(ks)
  {
    var lo, hi := if i < j then i else j, if i < j then j else i;
    var rest := ks[lo + 1..];
    BlocksSplitAt(ks, lo);
    BlocksSplitAt(rest, hi - lo - 1);
    assert rest[hi - lo - 1] == ks[hi];
  }

  lemma NodeBlocks(blk: nat, ks: seq<Tree>)
    requires ks != []
    ensures Blocks(Node(blk, ks)) == multiset{blk} + BlocksAll(ks)
    ensures Data(Node(blk, ks)) == DataAll(ks)
  {
  }

  // Subtrees of an owned tree share no block, neither with each other nor with the root.
  lemma KidApart(blk: nat, ks: seq<Tree>, i: nat, limit: nat, free: set<nat>)
    requires i < |ks| && Owned(Blocks(Node(blk, ks)), limit, free)
    ensures Owned(Blocks(ks[i]), limit, free) && blk !in Blocks(ks[i])
    ensures forall j | 0 <= j < |ks| && j != i :: Blocks(ks[i]) !! Blocks(ks[j])
  {
    NodeBlocks(blk, ks);
    BlocksSplitAt(ks, i);
    assert Blocks(ks[i]) <= Blocks(Node(blk, ks));
    forall j | 0 <= j < |ks| && j != i
      ensures Blocks(ks[i]) !! Blocks(ks[j])
    {
      TwoKids(ks, i, j);
    }
  }

  lemma KidInner(blk: nat, ks: seq<Tree>, i: nat)
    requires i < |ks|
    ensures Inner(ks[i]) <= Inner(Node(blk, ks))
  {
    SplitAt(ks, i);
  }

  // A tree is read off its pointer blocks only: writing anywhere else leaves it alone.
  lemma {:induction false} TreeFrame(disk: Disk, disk': Disk, p: nat, ptr: nat, h: nat)
    requires forall b | b in Inner(TreeAt(disk, p, ptr, h)) :: b < |disk| && b < |disk'| && disk[b] == disk'[b]
    requires p > 0
    ensures TreeAt(disk, p, ptr, h) == TreeAt(disk', p, ptr, h)
    decreases h
  {
    if ptr != 0 && h > 0 {
      var t := TreeAt(disk, p, ptr, h);
      assert ptr in Inner(t);
      forall i | 0 <= i < p
        ensures TreeAt(disk, p, Ptr(disk, ptr, i), h - 1) == TreeAt(disk', p, Ptr(disk', ptr, i), h - 1)
      {
        assert t.kids[i] == TreeAt(disk, p, Ptr(disk, ptr, i), h - 1);
        KidInner(ptr, t.kids, i);
        assert t == Node(ptr, t.kids);
        TreeFrame(disk, disk', p, Ptr(disk, ptr, i), h - 1);
      }
    }
  }

  lemma OwnedGain(m: multiset<nat>, gained: set<nat>, limit: nat, free: set<nat>)
    requires Owned(m, limit, free) && gained <= free && forall b | b in gained :: 0 < b < limit
    ensures Owned(m + multiset(gained), limit, free - gained)
  {
    forall b | b in m + multiset(gained)
      ensures (m + multiset(gained))[b] == 1 && 0 < b < limit && b !in free - gained
    {
      if b in m {
        assert b !in gained;
      }
    }
  }

  lemma ReplaceBlocks(blk: nat, ks: seq<Tree>, i: nat, kid: Tree)
    requires i < |ks|
    ensures Blocks(Node(blk, ks[i := kid])) + Blocks(ks[i]) == Blocks(Node(blk, ks)) + Blocks(kid)
  {
    var ks' := ks[i := kid];
    BlocksSplitAt(ks, i);
    BlocksSplitAt(ks', i);
    assert ks'[..i] == ks[..i] && ks'[i + 1..] == ks[i + 1..];
    NodeBlocks(blk, ks);
    NodeBlocks(blk, ks');
  }

  lemma ReplaceLastData(blk: nat, ks: seq<Tree>, i: nat, kid: Tree)
    requires i < |ks| && forall j | i < j < |ks| :: ks[j] == Empty
    ensures Data(Node(blk, ks)) == DataAll(ks[..i]) + Data(ks[i])
    ensures Data(Node(blk, ks[i := kid])) == DataAll(ks[..i]) + Data(kid)
  {
    var ks' := ks[i := kid];
    SplitAt(ks, i);
    SplitAt(ks', i);
    assert ks'[..i] == ks[..i] && ks'[i + 1..] == ks[i + 1..];
    AllEmpty(ks[i + 1..]);
  }

  // Putting a grown subtree in place of subtree i, all later ones being empty: the data grows at the
  // end, and the tree gains exactly the blocks the subtree gained.
  lemma GrowKidData(blk: nat, ks: seq<Tree>, i: nat, kid: Tree)
    requires i < |ks| && forall j | i < j < |ks| :: ks[j] == Empty
    requires Data(ks[i]) <= Data(kid)
    ensures Data(Node(blk, ks)) <= Data(Node(blk, ks[i := kid]))
    ensures |Data(Node(blk, ks[i := kid]))| - |Data(Node(blk, ks))| == |Data(kid)| - |Data(ks[i])|
  {
    ReplaceLastData(blk, ks, i, kid);
  }

  lemma GrowKidBlocks(blk: nat, ks: seq<Tree>, i: nat, kid: Tree, gained: set<nat>, limit: nat, free: set<nat>)
    requires i < |ks| && Blocks(kid) == Blocks(ks[i]) + multiset(gained)
    requires Owned(Blocks(Node(blk, ks)), limit, free) && gained <= free
    requires forall b | b in gained :: 0 < b < limit
    ensures Blocks(Node(blk, ks[i := kid])) == Blocks(Node(blk, ks)) + multiset(gained)
    ensures Owned(Blocks(Node(blk, ks[i := kid])), limit, free - gained)
  {
    ReplaceBlocks(blk, ks, i, kid);
    CancelGain(Blocks(Node(blk, ks)), Blocks(Node(blk, ks[i := kid])), Blocks(ks[i]), Blocks(kid), multiset(gained));
    OwnedGain(Blocks(Node(blk, ks)), gained, limit, free);
  }

  lemma CancelGain(before: multiset<nat>, after: multiset<nat>, part: multiset<nat>, part': multiset<nat>,
                   gained: multiset<nat>)
    requires after + part == before + part' && part' == part + gained
    ensures after == before + gained
  {
    assert (after + part) - part == after;
    assert (before + gained + part) - part == before + gained;
  }

  lemma WellFormedGrow(blk: nat, ks: seq<Tree>, i: nat, kid: Tree, p: nat, h: nat)
    requires h > 0 && i < |ks| == p && WellFormed(Node(blk, ks), p, h)
    requires forall j | i < j < p :: ks[j] == Empty
    requires forall j | 0 <= j < i :: Full(ks[j], h - 1)
    requires WellFormed(kid, p, h - 1)
    ensures WellFormed(Node(blk, ks[i := kid]), p, h)
  {
  }

  // A tree of height h holds at most p^h data blocks, and exactly that many when it is full.
  lemma {:induction false} Capacity(t: Tree, p: nat, h: nat)
    requires p > 0 && WellFormed(t, p, h)
    ensures |Data(t)| <= Pow(p, h)
    ensures |Data(t)| == Pow(p, h) <==> Full(t, h)
    decreases h, 0
  {
    if t == Empty {
      PowPositive(p, h);
    } else if h > 0 {
      CapacityAll(t.kids, p, h - 1);
    }
  }

  lemma {:induction false} CapacityAll(ks: seq<Tree>, p: nat, h: nat)
    requires p > 0 && forall i | 0 <= i < |ks| :: WellFormed(ks[i], p, h)
    ensures |DataAll(ks)| <= |ks| * Pow(p, h)
    ensures |DataAll(ks)| == |ks| * Pow(p, h) <==> forall i | 0 <= i < |ks| :: Full(ks[i], h)
    decreases h, 1 + |ks|
  {
    if ks != [] {
      var rest := ks[1..];
      Capacity(ks[0], p, h);
      CapacityAll(rest, p, h);
      OneMore(|rest|, Pow(p, h));
      assert (forall i | 0 <= i < |ks| :: Full(ks[i], h)) <==>
             Full(ks[0], h) && forall i | 0 <= i < |rest| :: Full(rest[i], h) by {
        assert forall i | 0 < i < |ks| :: ks[i] == rest[i - 1];
      }
    }
  }

  // In a well-formed tree everything before subtree q is full once subtree q is present, and
  // everything behind it is empty unless it is full.
  lemma AroundKid(t: Tree, p: nat, h: nat, q: nat)
    requires p > 0 && h > 0 && t.Node? && WellFormed(t, p, h) && q < p
    ensures |DataAll(t.kids[..q])| <= q * Pow(p, h - 1)
    ensures t.kids[q].Node? ==> |DataAll(t.kids[..q])| == q * Pow(p, h - 1)
    ensures |Data(t.kids[q])| < Pow(p, h - 1) ==> DataAll(t.kids[q + 1..]) == []
  {
    hide Pow, Data, DataAll, Full;
    CapacityAll(t.kids[..q], p, h - 1);
    Capacity(t.kids[q], p, h - 1);
    if |Data(t.kids[q])| < Pow(p, h - 1) {
      AllEmpty(t.kids[q + 1..]);
    }
  }

  // Where the i-th data block of a tree hangs: in subtree i / p^(h-1), at place i % p^(h-1).
  lemma DataAt(t: Tree, p: nat, h: nat, i: nat)
    requires p > 0 && h > 0 && t.Node? && WellFormed(t, p, h) && i < Pow(p, h)
    ensures Pow(p, h - 1) > 0
    ensures var (q, r) := (i / Pow(p, h - 1), i % Pow(p, h - 1));
            && 0 <= q < p && r < Pow(p, h - 1)
            && (i < |Data(t)| <==> r < |Data(t.kids[q])|)
            && (i < |Data(t)| ==> Data(t)[i] == Data(t.kids[q])[r])
  {
    PowPositive(p, h - 1);
    assert Pow(p, h) == p * Pow(p, h - 1);
    hide WellFormed, Data, Pow;
    DivModBounds(i, p, Pow(p, h - 1));
    DataAtSplit(t, p, h, i / Pow(p, h - 1), i % Pow(p, h - 1));
  }

  lemma DataAtSplit(t: Tree, p: nat, h: nat, q: nat, r: nat)
    requires p > 0 && h > 0 && t.Node? && WellFormed(t, p, h) && q < p && r < Pow(p, h - 1)
    ensures var i := q * Pow(p, h - 1) + r;
            && (i < |Data(t)| <==> r < |Data(t.kids[q])|)
            && (i < |Data(t)| ==> Data(t)[i] == Data(t.kids[q])[r])
  {
    AroundKid(t, p, h, q);
    SplitAt(t.kids, q);
    Capacity(t.kids[q], p, h - 1);
  }

  // d' differs from d at most in the given pointer blocks and in blocks that were free.
  ghost predicate SameElsewhere(d: Disk, d': Disk, inner: multiset<nat>, free: set<nat>) {
    && |d'| == |d|
    && forall b | 0 <= b < |d| && b !in inner && b !in free :: d'[b] == d[b]
  }

  // t' is t with added data blocks behind the old ones; every block it gained came out of the free set, and its
  // pointer blocks are pointer blocks still.
  ghost predicate Growing(t: Tree, t': Tree, p: nat, h: nat, added: nat, free: set<nat>, free': set<nat>) {
    && t.Node? && t'.Node? && t'.blk == t.blk && WellFormed(t', p, h)
    && free' <= free
    && Blocks(t') == Blocks(t) + multiset(free - free') && Inner(t) <= Inner(t')
    && Data(t) <= Data(t') && |Data(t')| == |Data(t)| + added
  }

  // The entries behind the old ones come out of a set.
  ghost predicate NewFrom(data: seq<nat>, data': seq<nat>, free: set<nat>) {
    forall k | |data| <= k < |data'| :: data'[k] in free
  }

  // So every new data block was free.
  lemma NewDataWasFree(inner: multiset<nat>, inner': multiset<nat>, data: seq<nat>, data': seq<nat>, gained: set<nat>)
    requires inner' + multiset(data') == inner + multiset(data) + multiset(gained)
    requires inner <= inner' && data <= data'
    ensures NewFrom(data, data', gained)
  {
    var more := data'[|data|..];
    assert data' == data + more;
    forall k | |data| <= k < |data'|
      ensures data'[k] in gained
    {
      assert data'[k] == more[k - |data|] && data'[k] in multiset(more);
      assert (inner' + multiset(data'))[data'[k]] == inner'[data'[k]] + multiset(data)[data'[k]] + multiset(more)[data'[k]];
    }
  }

  lemma GainTwice(a: set<nat>, b: set<nat>, c: set<nat>)
    requires c <= b <= a
    ensures multiset(a - b) + multiset(b - c) == multiset(a - c)
  {
    assert a - c == (a - b) + (b - c);
  }

  lemma ReplaceInner(blk: nat, ks: seq<Tree>, i: nat, kid: Tree)
    requires i < |ks| && Inner(kid) <= Inner(ks[i])
    ensures Inner(Node(blk, ks[i := kid])) <= Inner(Node(blk, ks))
  {
    var ks' := ks[i := kid];
    assert ks'[..i] == ks[..i] && ks'[i + 1..] == ks[i + 1..];
    InnerSplitAt(ks, i);
    InnerSplitAt(ks', i);
  }

  lemma MoreInner(blk: nat, ks: seq<Tree>, i: nat, kid: Tree)
    requires i < |ks| && Inner(ks[i]) <= Inner(kid)
    ensures Inner(Node(blk, ks)) <= Inner(Node(blk, ks[i := kid]))
  {
    assert ks[i := kid][i := ks[i]] == ks;
    ReplaceInner(blk, ks[i := kid], i, ks[i]);
  }

  // Growing one subtree, all earlier ones being full and all later ones empty, grows the tree.
  lemma GrowingStep(t: Tree, blk: nat, ks: seq<Tree>, i: nat, kid: Tree, p: nat, h: nat, added: nat, more: nat,
                    limit: nat, free: set<nat>, mid: set<nat>, free': set<nat>)
    requires h > 0 && i < |ks| == p && Growing(t, Node(blk, ks), p, h, added, free, mid)
    requires Owned(Blocks(Node(blk, ks)), limit, mid)
    requires forall j | i < j < p :: ks[j] == Empty
    requires forall j | 0 <= j < i :: Full(ks[j], h - 1)
    requires WellFormed(kid, p, h - 1) && Data(ks[i]) <= Data(kid) && |Data(kid)| == |Data(ks[i])| + more
    requires free' <= mid && Blocks(kid) == Blocks(ks[i]) + multiset(mid - free') && Inner(ks[i]) <= Inner(kid)
    requires forall b | b in mid :: 0 < b < limit
    ensures Growing(t, Node(blk, ks[i := kid]), p, h, added + more, free, free')
    ensures Owned(Blocks(Node(blk, ks[i := kid])), limit, free')
  {
    hide Blocks, Data, Inner, WellFormed, Full, Owned;
    MoreInner(blk, ks, i, kid);
    GrowKidData(blk, ks, i, kid);
    GrowingStepBlocks(blk, ks, i, kid, limit, mid, free');
    GainTwice(free, mid, free');
    WellFormedGrow(blk, ks, i, kid, p, h);
  }

  lemma GrowingStepBlocks(blk: nat, ks: seq<Tree>, i: nat, kid: Tree, limit: nat, mid: set<nat>, free': set<nat>)
    requires i < |ks| && free' <= mid && Blocks(kid) == Blocks(ks[i]) + multiset(mid - free')
    requires Owned(Blocks(Node(blk, ks)), limit, mid) && forall b | b in mid :: 0 < b < limit
    ensures Blocks(Node(blk, ks[i := kid])) == Blocks(Node(blk, ks)) + multiset(mid - free')
    ensures Owned(Blocks(Node(blk, ks[i := kid])), limit, free')
  {
    assert mid - (mid - free') == free';
    GrowKidBlocks(blk, ks, i, kid, mid - free', limit, mid);
  }

  lemma DataIsNotInner(t: Tree, limit: nat, free: set<nat>, b: nat)
    requires Owned(Blocks(t), limit, free) && b in Inner(t)
    ensures b !in Data(t)
  {
    assert Blocks(t)[b] == Inner(t)[b] + multiset(Data(t))[b];
    assert b in Blocks(t);
  }

  // The pointer blocks of a grown tree are old pointer blocks or blocks that were free.
  lemma InnerOfGrown(t: Tree, t': Tree, p: nat, h: nat, added: nat, limit: nat, free: set<nat>, free': set<nat>)
    requires Growing(t, t', p, h, added, free, free') && Owned(Blocks(t'), limit, free')
    ensures forall b | b in Inner(t') :: b in Inner(t) || b in free
  {
    hide WellFormed, Full, Data, Inner;
    forall b | b in Inner(t')
      ensures b in Inner(t) || b in free
    {
      DataIsNotInner(t', limit, free', b);
      assert b in Blocks(t') && (b in Data(t) ==> b in Data(t'));
    }
  }

  // Growing subtree i wrote nothing that the whole growth may not write.
  lemma SameElsewhereStep(d: Disk, d1: Disk, d2: Disk, t: Tree, blk: nat, ks: seq<Tree>, i: nat, p: nat, h: nat,
                          added: nat, free: set<nat>, mid: set<nat>)
    requires i < |ks| && Growing(t, Node(blk, ks), p, h, added, free, mid)
    requires Owned(Blocks(Node(blk, ks)), |d|, mid)
    requires SameElsewhere(d, d1, Inner(t), free) && SameElsewhere(d1, d2, Inner(ks[i]), mid)
    ensures SameElsewhere(d, d2, Inner(t), free)
  {
    KidInner(blk, ks, i);
    InnerOfGrown(t, Node(blk, ks), p, h, added, |d|, free, mid);
  }

  // Writing subtree i leaves the other subtrees alone.
  lemma OtherKids(d: Disk, d': Disk, p: nat, ptrs: seq<word>, blk: nat, ks: seq<Tree>, h: nat, i: nat, free: set<nat>)
    requires p > 0 && |ptrs| == |ks| && i < |ks|
    requires forall j | 0 <= j < |ks| && j != i :: ks[j] == TreeAt(d, p, ptrs[j], h)
    requires Owned(Blocks(Node(blk, ks)), |d|, free) && SameElsewhere(d, d', Inner(ks[i]), free)
    ensures forall j | 0 <= j < |ks| && j != i :: ks[j] == TreeAt(d', p, ptrs[j], h)
  {
    forall j | 0 <= j < |ks| && j != i
      ensures ks[j] == TreeAt(d', p, ptrs[j], h)
    {
      KidApart(blk, ks, i, |d|, free);
      KidApart(blk, ks, j, |d|, free);
      forall b | b in Inner(ks[j])
        ensures b < |d| && b < |d'| && d[b] == d'[b]
      {
        assert b in Blocks(ks[j]);
      }
      TreeFrame(d, d', p, ptrs[j], h);
    }
  }

  // A subtree that has just been allocated: a data block, or a pointer block full of zeros.
  lemma FreshTree(d: Disk, p: nat, b: nat, h: nat)
    requires p > 0 && b > 0 && (h > 0 ==> forall i | 0 <= i < p :: Ptr(d, b, i) == 0)
    ensures var t := TreeAt(d, p, b, h);
            && WellFormed(t, p, h) && Blocks(t) == multiset({b})
            && |Data(t)| == if h == 0 then 1 else 0
  {
    var t := TreeAt(d, p, b, h);
    if h > 0 {
      assert forall i | 0 <= i < p :: t.kids[i] == Empty;
      EmptyTable(b, t.kids, p, h);
    }
  }

  lemma EmptyTable(b: nat, ks: seq<Tree>, p: nat, h: nat)
    requires h > 0 && |ks| == p > 0 && forall i | 0 <= i < p :: ks[i] == Empty
    ensures WellFormed(Node(b, ks), p, h)
    ensures Blocks(Node(b, ks)) == multiset({b}) && Data(Node(b, ks)) == []
  {
    AllEmpty(ks);
  }

  ghost function Kids(d: Disk, p: nat, ptrs: seq<word>, h: nat): (ks: seq<Tree>)
    ensures |ks| == |ptrs|
  {
    seq(|ptrs|, i requires 0 <= i < |ptrs| => TreeAt(d, p, ptrs[i], h))
  }

  // The state of alloc_inode_ptrblk while it fills the table ptrs of block blk, which it writes back
  // only at the end: the tree as it will be is the tree t it started from with added more data blocks.
  ghost predicate Filling(d0: Disk, d: Disk, p: nat, t: Tree, ptrs: seq<word>, h: nat, added: nat,
                          free0: set<nat>, free: set<nat>)
    requires t.Node?
  {
    && p > 0 && |ptrs| == p
    && Growing(t, Node(t.blk, Kids(d, p, ptrs, h)), p, h + 1, added, free0, free)
    && Owned(Blocks(Node(t.blk, Kids(d, p, ptrs, h))), |d|, free)
    && SameElsewhere(d0, d, Inner(t), free0)
    && (forall b | b in free :: 0 < b < |d|)
  }

  // Between two states of the disk and the free set, the tree at ptr turned into the tree at ptr' by
  // growing, and nothing else was written.
  ghost predicate TreeGrown(d: Disk, d': Disk, p: nat, ptr: nat, ptr': nat, h: nat, added: nat,
                            free: set<nat>, free': set<nat>) {
    var (t, t') := (TreeAt(d, p, ptr, h), TreeAt(d', p, ptr', h));
    && WellFormed(t', p, h) && Owned(Blocks(t'), |d'|, free')
    && free' <= free && Blocks(t') == Blocks(t) + multiset(free - free') && Inner(t) <= Inner(t')
    && Data(t) <= Data(t') && |Data(t')| == |Data(t)| + added
    && SameElsewhere(d, d', Inner(t), free)
  }

  lemma TreeGrownFromFree(d: Disk, d': Disk, p: nat, ptr: nat, ptr': nat, h: nat, added: nat, free: set<nat>, free': set<nat>)
    requires TreeGrown(d, d', p, ptr, ptr', h, added, free, free')
    ensures NewFrom(Data(TreeAt(d, p, ptr, h)), Data(TreeAt(d', p, ptr', h)), free)
  {
    hide TreeAt, Data, Inner, WellFormed, Owned;
    var (t, t') := (TreeAt(d, p, ptr, h), TreeAt(d', p, ptr', h));
    NewDataWasFree(Inner(t), Inner(t'), Data(t), Data(t'), free - free');
  }

  // A block that was free comes to hang from a pointer that was 0.
  lemma FreshGrowth(d: Disk, d': Disk, p: nat, b: nat, h: nat, free: set<nat>, free': set<nat>)
    requires p > 0 && 0 < b < |d'| && (h > 0 ==> forall i | 0 <= i < p :: Ptr(d', b, i) == 0)
    requires free' <= free && free - free' == {b} && b !in free'
    requires |d'| == |d| && forall c | 0 <= c < |d| && c != b :: d'[c] == d[c]
    ensures TreeGrown(d, d', p, 0, b, h, if h == 0 then 1 else 0, free, free')
  {
    hide Ptr, WellFormed, Blocks, Data, Inner, TreeAt;
    FreshTree(d', p, b, h);
    NoBlocks();
    assert multiset{} + multiset({b}) == multiset({b});
  }

  lemma NoBlocks()
    ensures Blocks(Empty) == multiset{} && Inner(Empty) == multiset{} && Data(Empty) == []
  {
  }

  // One entry changes: its subtree, all earlier ones being full and all later ones empty, grows.
  lemma FillingStep(d0: Disk, d: Disk, d': Disk, p: nat, t: Tree, ptrs: seq<word>, i: nat, ptr': word, h: nat,
                    added: nat, more: nat, free0: set<nat>, free: set<nat>, free': set<nat>)
    requires t.Node? && i < |ptrs| && Filling(d0, d, p, t, ptrs, h, added, free0, free)
    requires forall j | i < j < p :: ptrs[j] == 0
    requires forall j | 0 <= j < i :: Full(TreeAt(d, p, ptrs[j], h), h)
    requires TreeGrown(d, d', p, ptrs[i], ptr', h, more, free, free')
    ensures Filling(d0, d', p, t, ptrs[i := ptr'], h, added + more, free0, free')
    ensures forall j | 0 <= j < p && j != i :: TreeAt(d', p, ptrs[j], h) == TreeAt(d, p, ptrs[j], h)
  {
    var ks, kid' := Kids(d, p, ptrs, h), TreeAt(d', p, ptr', h);
    assert forall j | i < j < p :: ks[j] == Empty;
    assert forall j | 0 <= j < i :: Full(ks[j], h);
    assert ks[i] == TreeAt(d, p, ptrs[i], h);
    FillingStepKids(d, d', p, t.blk, ptrs, i, ptr', h, free);
    FillingStepGrows(d0, d, d', p, t, ks, i, kid', h, added, more, free0, free, free');
    assert Kids(d', p, ptrs[i := ptr'], h) == ks[i := kid'];
  }

  lemma FillingStepKids(d: Disk, d': Disk, p: nat, blk: nat, ptrs: seq<word>, i: nat, ptr': word, h: nat,
                        free: set<nat>)
    requires p > 0 && i < |ptrs| && Owned(Blocks(Node(blk, Kids(d, p, ptrs, h))), |d|, free)
    requires SameElsewhere(d, d', Inner(TreeAt(d, p, ptrs[i], h)), free)
    ensures Kids(d', p, ptrs[i := ptr'], h) == Kids(d, p, ptrs, h)[i := TreeAt(d', p, ptr', h)]
    ensures forall j | 0 <= j < |ptrs| && j != i :: TreeAt(d', p, ptrs[j], h) == TreeAt(d, p, ptrs[j], h)
  {
    OtherKids(d, d', p, ptrs, blk, Kids(d, p, ptrs, h), h, i, free);
    assert forall j | 0 <= j < |ptrs| && j != i :: Kids(d, p, ptrs, h)[j] == TreeAt(d', p, ptrs[j], h);
  }

  lemma FillingStepGrows(d0: Disk, d: Disk, d': Disk, p: nat, t: Tree, ks: seq<Tree>, i: nat, kid': Tree, h: nat,
                         added: nat, more: nat, free0: set<nat>, free: set<nat>, free': set<nat>)
    requires i < |ks| == p && t.Node? && forall j | i < j < p :: ks[j] == Empty
    requires forall j | 0 <= j < i :: Full(ks[j], h)
    requires Growing(t, Node(t.blk, ks), p, h + 1, added, free0, free) && Owned(Blocks(Node(t.blk, ks)), |d|, free)
    requires SameElsewhere(d0, d, Inner(t), free0) && SameElsewhere(d, d', Inner(ks[i]), free)
    requires WellFormed(kid', p, h) && Data(ks[i]) <= Data(kid') && |Data(kid')| == |Data(ks[i])| + more
    requires free' <= free && Blocks(kid') == Blocks(ks[i]) + multiset(free - free') && Inner(ks[i]) <= Inner(kid')
    requires forall b | b in free :: 0 < b < |d|
    ensures Growing(t, Node(t.blk, ks[i := kid']), p, h + 1, added + more, free0, free')
    ensures Owned(Blocks(Node(t.blk, ks[i := kid'])), |d'|, free')
    ensures SameElsewhere(d0, d', Inner(t), free0)
  {
    hide WellFormed, Full, Data, Inner;
    GrowingStep(t, t.blk, ks, i, kid', p, h + 1, added, more, |d|, free0, free, free');
    SameElsewhereStep(d0, d, d', t, t.blk, ks, i, p, h + 1, added, free0, free);
  }

  lemma FillingStart(d: Disk, p: nat, blk: nat, ptrs: seq<word>, h: nat, free: set<nat>)
    requires p > 0 && |ptrs| == p && forall i | 0 <= i < p :: ptrs[i] == Ptr(d, blk, i)
    requires var t := TreeAt(d, p, blk, h + 1);
             t.Node? && WellFormed(t, p, h + 1) && Owned(Blocks(t), |d|, free)
    requires forall b | b in free :: 0 < b < |d|
    ensures Filling(d, d, p, TreeAt(d, p, blk, h + 1), ptrs, h, 0, free, free)
  {
    var t := TreeAt(d, p, blk, h + 1);
    assert t == Node(blk, Kids(d, p, ptrs, h));
    assert free - free == {};
  }

  // Everything before a present entry is full.
  lemma FullBefore(d0: Disk, d: Disk, p: nat, t: Tree, ptrs: seq<word>, h: nat, added: nat, free0: set<nat>,
                   free: set<nat>, j: nat)
    requires t.Node? && Filling(d0, d, p, t, ptrs, h, added, free0, free) && j < p && ptrs[j] != 0
    ensures forall i | 0 <= i < j :: Full(TreeAt(d, p, ptrs[i], h), h)
  {
    var ks := Kids(d, p, ptrs, h);
    assert ks[j].Node?;
    assert forall i | 0 <= i < j :: ks[i] == TreeAt(d, p, ptrs[i], h);
  }

  lemma DataBlockFull(d: Disk, p: nat, ptr: nat)
    requires ptr != 0
    ensures Full(TreeAt(d, p, ptr, 0), 0)
  {
  }

  // The subtree at a present entry.
  lemma EntrySound(d0: Disk, d: Disk, p: nat, t: Tree, ptrs: seq<word>, h: nat, added: nat, free0: set<nat>,
                   free: set<nat>, i: nat)
    requires t.Node? && Filling(d0, d, p, t, ptrs, h, added, free0, free) && i < p && ptrs[i] != 0
    ensures WellFormed(TreeAt(d, p, ptrs[i], h), p, h) && Owned(Blocks(TreeAt(d, p, ptrs[i], h)), |d|, free)
  {
    var ks := Kids(d, p, ptrs, h);
    assert ks[i] == TreeAt(d, p, ptrs[i], h);
    KidApart(t.blk, ks, i, |d|, free);
  }

  // Writing the table back makes the tree what it was to become.
  lemma FillingEnd(d0: Disk, d: Disk, d': Disk, p: nat, blk: nat, ptrs: seq<word>, h: nat, added: nat,
                   free0: set<nat>, free: set<nat>)
    requires var t := TreeAt(d0, p, blk, h + 1);
             t.Node? && Filling(d0, d, p, t, ptrs, h, added, free0, free)
    requires |d'| == |d| && forall b | 0 <= b < |d| && b != blk :: d'[b] == d[b]
    requires forall i | 0 <= i < p :: Ptr(d', blk, i) == ptrs[i]
    ensures TreeGrown(d0, d', p, blk, blk, h + 1, added, free0, free)
    ensures Full(TreeAt(d', p, blk, h + 1), h + 1) <==> forall i | 0 <= i < p :: Full(TreeAt(d, p, ptrs[i], h), h)
  {
    var ks, t := Kids(d, p, ptrs, h), TreeAt(d0, p, blk, h + 1);
    TableWritten(d, d', p, blk, ptrs, h, free);
    assert Full(Node(blk, ks), h + 1) <==> forall i | 0 <= i < p :: Full(ks[i], h);
    assert forall i | 0 <= i < p :: ks[i] == TreeAt(d, p, ptrs[i], h);
    assert blk in Inner(t);
  }

  lemma TableWritten(d: Disk, d': Disk, p: nat, blk: nat, ptrs: seq<word>, h: nat, free: set<nat>)
    requires p > 0 && |ptrs| == p && blk > 0 && Owned(Blocks(Node(blk, Kids(d, p, ptrs, h))), |d|, free)
    requires |d'| == |d| && forall b | 0 <= b < |d| && b != blk :: d'[b] == d[b]
    requires forall i | 0 <= i < p :: Ptr(d', blk, i) == ptrs[i]
    ensures TreeAt(d', p, blk, h + 1) == Node(blk, Kids(d, p, ptrs, h))
  {
    var ks := Kids(d, p, ptrs, h);
    forall i | 0 <= i < p
      ensures TreeAt(d', p, ptrs[i], h) == ks[i]
    {
      KidApart(blk, ks, i, |d|, free);
      forall b | b in Inner(ks[i])
        ensures b < |d| && d[b] == d'[b]
      {
        assert b in Blocks(ks[i]);
      }
      TreeFrame(d, d', p, ptrs[i], h);
    }
  }

  ghost predicate Lost(all: multiset<nat>, left: multiset<nat>, gained: multiset<nat>, exact: bool) {
    if exact then all == left + gained else left + gained < all
  }

  ghost predicate DataLost(all: nat, left: nat, freed: nat, exact: bool) {
    if exact then all == left + freed else left + freed < all
  }

  /**
   A tree of height h cut down from the back: it lost its last freed data blocks, and what it lost became free.
   An exact cut frees every block the tree lost, once; any other loses data blocks that do not become free.
   Nothing outside the tree's pointer blocks is written.
   */
  ghost predicate Pruned(t: Tree, t': Tree, d: Disk, d': Disk, p: nat, h: nat, freed: nat, free: set<nat>,
                         free': set<nat>, exact: bool) {
    && WellFormed(t', p, h) && free <= free'
    && Lost(Blocks(t), Blocks(t'), multiset(free' - free), exact)
    && Data(t') <= Data(t) && DataLost(|Data(t)|, |Data(t')|, freed, exact)
    && Inner(t') <= Inner(t) && SameElsewhere(d, d', Inner(t), {})
  }

  // Between two states of the disk and the free set, the tree at ptr was cut down.
  ghost predicate TreeShrunk(d: Disk, d': Disk, p: nat, ptr: nat, h: nat, freed: nat, free: set<nat>,
                             free': set<nat>, exact: bool) {
    var (t, t') := (TreeAt(d, p, ptr, h), TreeAt(d', p, ptr, h));
    Pruned(t, t', d, d', p, h, freed, free, free', exact) && Owned(Blocks(t'), |d'|, free')
  }

  // The state of dealloc_inode_ptrblk while it empties the table ptrs from the back.
  ghost predicate Emptying(d0: Disk, d: Disk, p: nat, t: Tree, ptrs: seq<word>, h: nat, freed: nat,
                           free0: set<nat>, free: set<nat>, exact: bool)
    requires t.Node?
  {
    var v := Node(t.blk, Kids(d, p, ptrs, h));
    p > 0 && |ptrs| == p && Pruned(t, v, d0, d, p, h + 1, freed, free0, free, exact) && Owned(Blocks(v), |d|, free)
  }

  /**
   When dealloc_inode_ptrblk cuts a tree of height h exactly, so that left data blocks remain: where the cut lies
   between two entries, or not in the first entry and exactly inside the other one.
   */
  predicate Cuttable(p: nat, h: nat, left: nat)
    requires p > 0
    decreases h
  {
    if h == 0 then true
    else
      PowPositive(p, h - 1);
      var c := Pow(p, h - 1);
      left % c == 0 || (left > c && Cuttable(p, h - 1, left % c))
  }

  // A cut that leaves idx entries, or a part of entry idx behind them.
  lemma CuttableAt(p: nat, h: nat, idx: nat, part: nat)
    requires p > 0 && part < Pow(p, h)
    ensures part == 0 ==> Cuttable(p, h + 1, idx * Pow(p, h) + part)
    ensures part > 0 ==> (Cuttable(p, h + 1, idx * Pow(p, h) + part) <==> idx > 0 && Cuttable(p, h, part))
  {
    hide Pow;
    var c := Pow(p, h);
    DivModUnique(idx, c, part);
    MulMonotone(1, idx, c);
    MulMonotone(idx, 0, c);
  }

  lemma EmptyingStart(d: Disk, p: nat, blk: nat, ptrs: seq<word>, h: nat, free: set<nat>)
    requires p > 0 && |ptrs| == p && blk > 0 && forall i | 0 <= i < p :: ptrs[i] == Ptr(d, blk, i)
    requires var t := TreeAt(d, p, blk, h + 1);
             WellFormed(t, p, h + 1) && Owned(Blocks(t), |d|, free)
    ensures Emptying(d, d, p, TreeAt(d, p, blk, h + 1), ptrs, h, 0, free, free, true)
  {
    var t := TreeAt(d, p, blk, h + 1);
    assert t == Node(blk, Kids(d, p, ptrs, h));
    assert free - free == {};
  }

  // A tree v that loses some blocks, of which some or all become free.
  lemma LoseKid(t: multiset<nat>, v: multiset<nat>, v': multiset<nat>, gone: multiset<nat>, limit: nat,
                free0: set<nat>, free: set<nat>, free': set<nat>, exact: bool)
    requires Owned(v, limit, free) && v' + gone == v && Lost(gone, multiset{}, multiset(free' - free), exact)
    requires free0 <= free <= free' && t == v + multiset(free - free0)
    ensures Lost(t, v', multiset(free' - free0), exact) && Owned(v', limit, free')
  {
    GainTwice(free', free, free0);
    forall b | b in v'
      ensures v'[b] == 1 && 0 < b < limit && b !in free'
    {
      assert v[b] == v'[b] + gone[b];
      assert multiset(free' - free)[b] <= gone[b];
    }
    if !exact {
      StillLess(v', gone, multiset(free' - free), multiset(free - free0));
    }
  }

  lemma StillLess(left: multiset<nat>, gone: multiset<nat>, gained: multiset<nat>, more: multiset<nat>)
    requires gained < gone
    ensures left + (gained + more) < (left + gone) + more
  {
    forall b
      ensures (left + (gained + more))[b] <= ((left + gone) + more)[b]
    {
    }
    SameParts(left, gone, gained, more);
  }

  lemma SameParts(left: multiset<nat>, gone: multiset<nat>, gained: multiset<nat>, more: multiset<nat>)
    ensures left + (gained + more) == (left + gone) + more ==> gained == gone
  {
    if left + (gained + more) == (left + gone) + more {
      forall b
        ensures gained[b] == gone[b]
      {
        assert (left + (gained + more))[b] == ((left + gone) + more)[b];
      }
    }
  }

  // Some element is missing.
  lemma Missing(all: multiset<nat>, left: multiset<nat>, gained: set<nat>)
    requires left + multiset(gained) < all && forall b | b in all :: all[b] == 1
    ensures exists b :: b in all && b !in left && b !in gained
  {
    NoneMissing(all, left, gained);
  }

  lemma NoneMissing(all: multiset<nat>, left: multiset<nat>, gained: set<nat>)
    requires left + multiset(gained) <= all && forall b | b in all :: all[b] == 1
    ensures (forall b | b in all :: b in left || b in gained) ==> left + multiset(gained) == all
  {
    if forall b | b in all :: b in left || b in gained {
      forall b
        ensures (left + multiset(gained))[b] == all[b]
      {
        assert (left + multiset(gained))[b] <= all[b];
      }
    }
  }

  // What a subtree lost, the tree around it lost.
  lemma LoseInside(t: multiset<nat>, v: multiset<nat>, v': multiset<nat>, kid: multiset<nat>, kid': multiset<nat>,
                   limit: nat,
                   free0: set<nat>, free: set<nat>, free': set<nat>, exact: bool)
    requires Owned(v, limit, free) && v' + kid == v + kid' && Lost(kid, kid', multiset(free' - free), exact)
    requires free0 <= free <= free' && t == v + multiset(free - free0)
    ensures Lost(t, v', multiset(free' - free0), exact) && Owned(v', limit, free')
  {
    var gone := kid - kid';
    assert kid' <= kid;
    forall b
      ensures (v' + gone)[b] == v[b]
      ensures multiset(free' - free)[b] <= gone[b]
      ensures exact ==> multiset(free' - free)[b] == gone[b]
    {
      assert (v' + kid)[b] == (v + kid')[b];
      assert (kid' + multiset(free' - free))[b] <= kid[b];
    }
    LoseKid(t, v, v', gone, limit, free0, free, free', exact);
  }

  // The last present entry loses blocks, or goes altogether.
  lemma EmptyingStep(d0: Disk, d: Disk, d': Disk, p: nat, t: Tree, ptrs: seq<word>, i: nat, ptr': word, h: nat,
                     freed: nat, less: nat, free0: set<nat>, free: set<nat>, free': set<nat>, exact: bool)
    requires t.Node? && i < |ptrs| && Emptying(d0, d, p, t, ptrs, h, freed, free0, free, true)
    requires ptrs[i] != 0 && forall j | i < j < p :: ptrs[j] == 0
    requires Pruned(TreeAt(d, p, ptrs[i], h), TreeAt(d', p, ptr', h), d, d', p, h, less, free, free', exact)
    ensures Emptying(d0, d', p, t, ptrs[i := ptr'], h, freed + less, free0, free', exact)
  {
    hide Blocks, Data, Inner, Full, WellFormed, Lost, TreeAt, DataLost;
    var ks, kid' := Kids(d, p, ptrs, h), TreeAt(d', p, ptr', h);
    var v, v' := Node(t.blk, ks), Node(t.blk, ks[i := kid']);
    assert ks[i] == TreeAt(d, p, ptrs[i], h);
    EntriesFull(t.blk, ks, i, p, h, d, ptrs);
    assert SameElsewhere(d, d', Inner(ks[i]), free);
    FillingStepKids(d, d', p, t.blk, ptrs, i, ptr', h, free);
    assert Kids(d', p, ptrs[i := ptr'], h) == ks[i := kid'];
    ReplaceLastData(t.blk, ks, i, kid');
    ReplaceInner(t.blk, ks, i, kid');
    ReplaceBlocks(t.blk, ks, i, kid');
    ExactLoss(Blocks(t), Blocks(v), multiset(free - free0));
    LoseInside(Blocks(t), Blocks(v), Blocks(v'), Blocks(ks[i]), Blocks(kid'), |d|, free0, free, free', exact);
    KidInner(t.blk, ks, i);
    WellFormedGrow(t.blk, ks, i, kid', p, h + 1);
    PrunedFurther(t, v, v', ks[i], kid', d0, d, d', p, h, freed, less, free0, free, free', exact);
  }

  // A tree v that t was cut to lost what one of its subtrees lost.
  lemma PrunedFurther(t: Tree, v: Tree, v': Tree, kid: Tree, kid': Tree, d0: Disk, d: Disk, d': Disk, p: nat, h: nat,
                      freed: nat, less: nat, free0: set<nat>, free: set<nat>, free': set<nat>, exact: bool)
    requires Pruned(t, v, d0, d, p, h + 1, freed, free0, free, true) && Pruned(kid, kid', d, d', p, h, less, free, free', exact)
    requires WellFormed(v', p, h + 1) && Lost(Blocks(t), Blocks(v'), multiset(free' - free0), exact)
    requires Data(v') <= Data(v) && |Data(v)| - |Data(v')| == |Data(kid)| - |Data(kid')|
    requires Inner(v') <= Inner(v) && Inner(kid) <= Inner(v)
    ensures Pruned(t, v', d0, d', p, h + 1, freed + less, free0, free', exact)
  {
    hide Blocks, Data, Inner, WellFormed, Lost;
    assert Inner(kid) <= Inner(t);
  }

  lemma ExactLoss(all: multiset<nat>, left: multiset<nat>, gained: multiset<nat>)
    ensures Lost(all, left, gained, true) <==> all == left + gained
  {
  }

  // What stands before and behind the last present entry.
  lemma EntriesFull(blk: nat, ks: seq<Tree>, i: nat, p: nat, h: nat, d: Disk, ptrs: seq<word>)
    requires WellFormed(Node(blk, ks), p, h + 1) && i < p == |ptrs| && ks == Kids(d, p, ptrs, h) && ptrs[i] != 0
    requires forall j | i < j < p :: ptrs[j] == 0
    ensures forall j | i < j < p :: ks[j] == Empty
    ensures forall j | 0 <= j < i :: Full(ks[j], h)
  {
    assert ks[i] == TreeAt(d, p, ptrs[i], h);
    assert ks[i].Node?;
  }

  lemma EmptyingEnd(d0: Disk, d: Disk, d': Disk, p: nat, blk: nat, ptrs: seq<word>, h: nat, freed: nat,
                    free0: set<nat>, free: set<nat>, exact: bool)
    requires var t := TreeAt(d0, p, blk, h + 1);
             t.Node? && Emptying(d0, d, p, t, ptrs, h, freed, free0, free, exact)
    requires |d'| == |d| && forall b | 0 <= b < |d| && b != blk :: d'[b] == d[b]
    requires forall i | 0 <= i < p :: Ptr(d', blk, i) == ptrs[i]
    ensures TreeShrunk(d0, d', p, blk, h + 1, freed, free0, free, exact)
    ensures (forall i | 0 <= i < p :: ptrs[i] == 0) ==> Blocks(TreeAt(d', p, blk, h + 1)) == multiset{blk}
  {
    var ks, t := Kids(d, p, ptrs, h), TreeAt(d0, p, blk, h + 1);
    TableWritten(d, d', p, blk, ptrs, h, free);
    assert blk in Inner(t);
    if forall i | 0 <= i < p :: ptrs[i] == 0 {
      assert forall i | 0 <= i < p :: ks[i] == Empty;
      AllEmpty(ks);
    }
  }

  // An empty first entry means that the whole table is empty.
  lemma EmptyFront(d0: Disk, d: Disk, p: nat, t: Tree, ptrs: seq<word>, h: nat, freed: nat,
                   free0: set<nat>, free: set<nat>, exact: bool, i: nat)
    requires t.Node? && Emptying(d0, d, p, t, ptrs, h, freed, free0, free, exact) && i < p && ptrs[i] == 0
    ensures forall j | i <= j < p :: ptrs[j] == 0
    ensures i == 0 && exact ==> Blocks(Node(t.blk, Kids(d, p, ptrs, h))) == multiset{t.blk} && |Data(t)| == freed
  {
    hide Full, Owned, SameElsewhere, Inner, Data;
    var ks := Kids(d, p, ptrs, h);
    assert ks[i] == Empty;
    forall j | i <= j < p
      ensures ptrs[j] == 0
    {
      MissingBehind(t.blk, ks, i, j, p, h);
      assert ks[j] == TreeAt(d, p, ptrs[j], h);
    }
    if i == 0 {
      assert forall j | 0 <= j < p :: ks[j] == Empty;
      EmptyTableData(t.blk, ks);
    }
  }

  lemma MissingBehind(blk: nat, ks: seq<Tree>, i: nat, j: nat, p: nat, h: nat)
    requires WellFormed(Node(blk, ks), p, h + 1) && i <= j < p && ks[i] == Empty
    ensures ks[j] == Empty
  {
  }

  lemma EmptyTableData(blk: nat, ks: seq<Tree>)
    requires ks != [] && forall j | 0 <= j < |ks| :: ks[j] == Empty
    ensures Blocks(Node(blk, ks)) == multiset{blk} && Data(Node(blk, ks)) == []
  {
    AllEmpty(ks);
  }

  // The last present entry of a half-emptied table, and how many data blocks there are up to it.
  lemma LastEntry(d0: Disk, d: Disk, p: nat, t: Tree, ptrs: seq<word>, h: nat, freed: nat,
                  free0: set<nat>, free: set<nat>, i: nat)
    requires t.Node? && Emptying(d0, d, p, t, ptrs, h, freed, free0, free, true) && i < p && ptrs[i] != 0
    requires forall j | i < j < p :: ptrs[j] == 0
    ensures var kid := TreeAt(d, p, ptrs[i], h);
            && WellFormed(kid, p, h) && Owned(Blocks(kid), |d|, free)
            && |Data(kid)| <= Pow(p, h) && |Data(t)| == freed + i * Pow(p, h) + |Data(kid)|
            && (h == 0 ==> Blocks(kid) == multiset{ptrs[i] as nat} && |Data(kid)| == 1)
  {
    hide Inner, Blocks, Data, Pow, Owned, Full, SameElsewhere, TreeAt;
    var ks := Kids(d, p, ptrs, h);
    assert ks[i] == TreeAt(d, p, ptrs[i], h);
    EntriesFull(t.blk, ks, i, p, h, d, ptrs);
    KidApart(t.blk, ks, i, |d|, free);
    EntrySizes(t.blk, ks, i, p, h);
    LeafEntry(d, p, ptrs[i], h);
  }

  lemma LeafEntry(d: Disk, p: nat, ptr: nat, h: nat)
    requires ptr != 0
    ensures h == 0 ==> Blocks(TreeAt(d, p, ptr, h)) == multiset{ptr} && |Data(TreeAt(d, p, ptr, h))| == 1
  {
  }

  // The data blocks of a table whose entries in front of entry i are full, and those behind it missing.
  lemma EntrySizes(blk: nat, ks: seq<Tree>, i: nat, p: nat, h: nat)
    requires p > 0 && i < |ks| && forall j | 0 <= j < |ks| :: WellFormed(ks[j], p, h)
    requires (forall j | 0 <= j < i :: Full(ks[j], h)) && forall j | i < j < |ks| :: ks[j] == Empty
    ensures |Data(ks[i])| <= Pow(p, h) && |Data(Node(blk, ks))| == i * Pow(p, h) + |Data(ks[i])|
  {
    hide Pow, Full, WellFormed, Data;
    Capacity(ks[i], p, h);
    CapacityAll(ks[..i], p, h);
    ReplaceLastData(blk, ks, i, Empty);
  }

  lemma ShrunkSize(d: Disk, d': Disk, p: nat, ptr: nat, h: nat, freed: nat, free: set<nat>, mid: set<nat>, exact: bool)
    requires TreeShrunk(d, d', p, ptr, h, freed, free, mid, exact)
    ensures exact ==> |Data(TreeAt(d, p, ptr, h))| == |Data(TreeAt(d', p, ptr, h))| + freed
  {
  }

  // A subtree that was cut down, and whose root is then freed too: an exact cut of all of it only when the
  // root was all that was left.
  lemma KidGone(d: Disk, d': Disk, p: nat, ptr: nat, h: nat, freed: nat, free: set<nat>, mid: set<nat>, exact: bool)
    requires h > 0 && p > 0 && ptr != 0 && TreeShrunk(d, d', p, ptr, h, freed, free, mid, exact)
    requires exact && Data(TreeAt(d', p, ptr, h)) == [] ==> Blocks(TreeAt(d', p, ptr, h)) == multiset{ptr}
    ensures Pruned(TreeAt(d, p, ptr, h), Empty, d, d', p, h, freed, free, mid + {ptr}, exact && Data(TreeAt(d', p, ptr, h)) == [])
  {
    hide Owned, SameElsewhere, TreeAt, Blocks, Data, Inner;
    var t, t' := TreeAt(d, p, ptr, h), TreeAt(d', p, ptr, h);
    RootIsInner(d', p, ptr, h);
    NothingThere();
    NotFree(Blocks(t'), |d'|, mid, ptr);
    assert mid + {ptr} - free == (mid - free) + {ptr};
    assert multiset(mid + {ptr} - free) == multiset(mid - free) + multiset{ptr};
    LeftData(t', ptr);
    RootGone(Blocks(t), Blocks(t'), multiset(mid - free), ptr, exact, Data(t') == []);
  }

  lemma RootIsInner(d: Disk, p: nat, ptr: nat, h: nat)
    requires h > 0 && p > 0 && ptr != 0
    ensures ptr in Inner(TreeAt(d, p, ptr, h)) && ptr in Blocks(TreeAt(d, p, ptr, h))
  {
  }

  lemma NothingThere()
    ensures Data(Empty) == [] && Inner(Empty) == multiset{} && Blocks(Empty) == multiset{}
  {
  }

  lemma NotFree(m: multiset<nat>, limit: nat, free: set<nat>, b: nat)
    requires Owned(m, limit, free) && b in m
    ensures b !in free
  {
  }

  // A tree with data blocks has more blocks than its root.
  lemma LeftData(t: Tree, ptr: nat)
    requires ptr in Inner(t)
    ensures Data(t) != [] ==> Blocks(t) != multiset{ptr}
  {
    if Data(t) != [] {
      assert |Blocks(t)| == |Inner(t)| + |Data(t)|;
    }
  }

  lemma RootGone(all: multiset<nat>, left: multiset<nat>, gained: multiset<nat>, root: nat, exact: bool, nothing: bool)
    requires Lost(all, left, gained, exact) && root in left && (exact && nothing ==> left == multiset{root})
    requires !nothing ==> left != multiset{root}
    ensures Lost(all, multiset{}, gained + multiset{root}, exact && nothing)
  {
    assert multiset{root} <= left;
    if !(exact && nothing) {
      forall b
        ensures (gained + multiset{root})[b] <= all[b]
      {
        assert (left + gained)[b] <= all[b];
      }
      RootOnly(all, left, gained, root);
    }
  }

  lemma RootOnly(all: multiset<nat>, left: multiset<nat>, gained: multiset<nat>, root: nat)
    requires left + gained <= all && root in left
    ensures gained + multiset{root} == all ==> left == multiset{root} && left + gained == all
  {
    if gained + multiset{root} == all {
      forall b
        ensures left[b] == multiset{root}[b]
      {
        assert (left + gained)[b] <= all[b] && (gained + multiset{root})[b] == all[b];
      }
    }
  }
}
