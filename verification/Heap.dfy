/** The first-fit heap of the kernel: a linked list of blocks by address, and the pages behind it. */
module Heaps {
  import opened Arithmetic

  // A block: its address, the bytes behind its header, and the alignment of these as a power of two.
  datatype Block = Block(addr: nat, size: nat, align: nat)

  // What stands in memory in front of a block's bytes.
  datatype Header = Header(next: nat, size: nat, align: nat)

  /**
   What realloc comes to.  A block moves to another place, or it is gone because there is none; the first block
   does not come that far, as the code writes the link in front of it through a null pointer.
   */
  datatype ReallocOutcome = NoBlock | InPlace | Moved(ptr: nat) | Gone | NullWrite

  /**
   What free comes to.  When it takes out the only block of a heap with a callback, it reads the end of the block in
   front of it, which is not there, through a null pointer.
   */
  datatype FreeOutcome = Unknown | Freed | NullRead

  const HEADER := 12
  const PAGE := 0x1000

  function Data(addr: nat): nat {
    addr + HEADER
  }

  function End(b: Block): nat {
    Data(b.addr) + b.size
  }

  function Unit(align: nat): (u: nat)
    ensures u > 0
  {
    PowPositive(2, align);
    Pow(2, align)
  }

  predicate Aligned(x: nat, align: nat) {
    x % Unit(align) == 0
  }

  // alignceil: the next multiple of 2^align.
  function AlignCeil(x: nat, align: nat): (y: nat)
    ensures Aligned(y, align) && x <= y
    ensures forall z | x <= z && Aligned(z, align) :: y <= z
  {
    NextMultiple(x, Unit(align));
    var down := x / Unit(align) * Unit(align);
    if x != down then down + Unit(align) else down
  }

  lemma NextMultiple(x: nat, m: nat)
    requires m > 0
    ensures var y := if x != x / m * m then x / m * m + m else x / m * m;
            0 <= x / m * m && y % m == 0 && x <= y && forall z | x <= z && z % m == 0 :: y <= z
  {
    DivModIdentity(x, m);
    MulMonotone(0, x / m, m);
    DivModUnique(x / m, m, 0);
    DivModUnique(x / m + 1, m, 0);
    OneMore(x / m, m);
    forall z | x <= z && z % m == 0
      ensures x != x / m * m ==> x / m * m + m <= z
      ensures x / m * m <= z
    {
      NoEarlierMultiple(x, z, m);
    }
  }

  lemma NoEarlierMultiple(x: nat, z: nat, m: nat)
    requires m > 0 && x <= z && z % m == 0
    ensures x / m * m <= z && (x != x / m * m ==> x / m * m + m <= z)
  {
    DivModIdentity(x, m);
    DivModIdentity(z, m);
    MulMonotone(z / m, x / m, m);
    DivMonotone(x, z, m);
    MulMonotone(x / m, z / m, m);
    MulMonotone(x / m + 1, z / m, m);
    OneMore(x / m, m);
  }

  // LCHeap_block_after: where a block may start behind some address.
  function BlockAfter(base: nat, align: nat): (a: nat)
    ensures base <= a && Aligned(Data(a), align)
    ensures forall z | base <= z && Aligned(Data(z), align) :: a <= z
  {
    AlignCeil(base + HEADER, align) - HEADER
  }

  /** Blocks lie one behind the other, aligned, from a base address on. */
  ghost predicate Layout(base: nat, bs: seq<Block>) {
    && (forall i | 0 <= i < |bs| :: base <= bs[i].addr && Aligned(Data(bs[i].addr), bs[i].align))
    && (forall i, j | 0 <= i < j < |bs| :: End(bs[i]) <= bs[j].addr)
  }

  // A block could be put at address a.
  ghost predicate Placeable(base: nat, bs: seq<Block>, a: nat, size: nat, align: nat) {
    && base <= a && Aligned(Data(a), align)
    && forall i | 0 <= i < |bs| :: End(bs[i]) <= a || Data(a) + size <= bs[i].addr
  }

  // No such place is in front of address c.
  ghost predicate NoneBefore(base: nat, bs: seq<Block>, c: nat, size: nat, align: nat) {
    forall a | 0 <= a < c :: !Placeable(base, bs, a, size, align)
  }

  function Gap(base: nat, bs: seq<Block>, k: nat): nat
    requires k <= |bs|
  {
    if k == 0 then base else End(bs[k - 1])
  }

  // The first place of gap k, when none is in an earlier gap.
  lemma FirstOfGap(base: nat, bs: seq<Block>, k: nat, size: nat, align: nat)
    requires Layout(base, bs) && k <= |bs|
    requires k > 0 ==> NoneBefore(base, bs, BlockAfter(Gap(base, bs, k - 1), align), size, align)
    requires k > 0 ==> bs[k - 1].addr < Data(BlockAfter(Gap(base, bs, k - 1), align)) + size
    ensures NoneBefore(base, bs, BlockAfter(Gap(base, bs, k), align), size, align)
  {
    hide Aligned, BlockAfter;
    forall a | Placeable(base, bs, a, size, align)
      ensures BlockAfter(Gap(base, bs, k), align) <= a
    {
      assert Gap(base, bs, k) <= a;
    }
  }

  // The list with one more block.
  function WithBlock(bs: seq<Block>, k: nat, b: Block): (r: seq<Block>)
    requires k <= |bs|
    ensures |r| == |bs| + 1
  {
    bs[..k] + [b] + bs[k..]
  }

  // A block that ends in front of the next one can go there.
  lemma FitsInGap(base: nat, bs: seq<Block>, k: nat, size: nat, align: nat)
    requires Layout(base, bs) && k <= |bs|
    requires k < |bs| ==> Data(BlockAfter(Gap(base, bs, k), align)) + size <= bs[k].addr
    ensures Placeable(base, bs, BlockAfter(Gap(base, bs, k), align), size, align)
    ensures Layout(base, WithBlock(bs, k, Block(BlockAfter(Gap(base, bs, k), align), size, align)))
  {
    hide Aligned, BlockAfter, WithBlock, Layout, Placeable;
    BetweenNeighbours(base, bs, k, BlockAfter(Gap(base, bs, k), align), size, align);
    OneLaidOut(base, bs, k, Block(BlockAfter(Gap(base, bs, k), align), size, align));
  }

  lemma BetweenNeighbours(base: nat, bs: seq<Block>, k: nat, a: nat, size: nat, align: nat)
    requires Layout(base, bs) && k <= |bs| && Gap(base, bs, k) <= a && Aligned(Data(a), align)
    requires k < |bs| ==> Data(a) + size <= bs[k].addr
    ensures forall i | 0 <= i < k :: End(bs[i]) <= a
    ensures forall i | k <= i < |bs| :: Data(a) + size <= bs[i].addr
    ensures base <= a && Placeable(base, bs, a, size, align)
  {
    hide Aligned;
  }

  lemma OneLaidOut(base: nat, bs: seq<Block>, k: nat, b: Block)
    requires Layout(base, bs) && k <= |bs| && base <= b.addr && Aligned(Data(b.addr), b.align)
    requires (forall i | 0 <= i < k :: End(bs[i]) <= b.addr) && forall i | k <= i < |bs| :: End(b) <= bs[i].addr
    ensures Layout(base, WithBlock(bs, k, b))
  {
    hide Aligned;
    var bs' := WithBlock(bs, k, b);
    forall i, j | 0 <= i < j < |bs'|
      ensures End(bs'[i]) <= bs'[j].addr
    {
      var (x, y) := (if i < k then i else i - 1, if j < k then j else j - 1);
      assert bs'[i] == if i == k then b else bs[x];
      assert bs'[j] == if j == k then b else bs[y];
    }
  }

  // The address of block i, and 0 behind the last one.
  function AddrAt(bs: seq<Block>, i: int): nat {
    if 0 <= i < |bs| then bs[i].addr else 0
  }

  ghost predicate HeaderIs(mem: map<nat, Header>, bs: seq<Block>, i: nat)
    requires i < |bs|
  {
    bs[i].addr in mem && mem[bs[i].addr] == Header(AddrAt(bs, i + 1), bs[i].size, bs[i].align)
  }

  // The headers in memory link the blocks.
  ghost predicate Linked(mem: map<nat, Header>, head: nat, bs: seq<Block>) {
    && head == AddrAt(bs, 0)
    && forall i | 0 <= i < |bs| :: HeaderIs(mem, bs, i)
  }

  function WithoutBlock(bs: seq<Block>, k: nat): (r: seq<Block>)
    requires k < |bs|
    ensures |r| == |bs| - 1
  {
    bs[..k] + bs[k + 1..]
  }

  // A header for a new block, and the link to it.
  function LinkIn(mem: map<nat, Header>, prev: nat, b: Block, next: nat): map<nat, Header> {
    var m := mem[b.addr := Header(next, b.size, b.align)];
    if prev in m && prev != 0 then m[prev := m[prev].(next := b.addr)] else m
  }

  lemma LinkedIn(base: nat, mem: map<nat, Header>, head: nat, bs: seq<Block>, k: nat, b: Block)
    requires base > 0 && Layout(base, bs) && Linked(mem, head, bs) && k <= |bs| && Layout(base, WithBlock(bs, k, b))
    ensures Linked(LinkIn(mem, if k == 0 then 0 else bs[k - 1].addr, b, AddrAt(bs, k)),
                   if k == 0 then b.addr else head, WithBlock(bs, k, b))
  {
    hide Aligned;
    var bs' := WithBlock(bs, k, b);
    var mem' := LinkIn(mem, if k == 0 then 0 else bs[k - 1].addr, b, AddrAt(bs, k));
    Apart(base, bs');
    forall i | 0 <= i < |bs'|
      ensures HeaderIs(mem', bs', i)
    {
      HeaderLinked(mem, head, bs, k, b, i);
    }
  }

  lemma HeaderLinked(mem: map<nat, Header>, head: nat, bs: seq<Block>, k: nat, b: Block, i: nat)
    requires Linked(mem, head, bs) && k <= |bs| && i <= |bs| && forall i | 0 <= i < |bs| :: bs[i].addr > 0
    requires var bs' := WithBlock(bs, k, b); forall i, j | 0 <= i < j < |bs'| :: bs'[i].addr < bs'[j].addr
    ensures HeaderIs(LinkIn(mem, if k == 0 then 0 else bs[k - 1].addr, b, AddrAt(bs, k)), WithBlock(bs, k, b), i)
  {
    var bs' := WithBlock(bs, k, b);
    assert bs'[k] == b;
    assert k > 0 ==> HeaderIs(mem, bs, k - 1) && bs'[k - 1] == bs[k - 1] && bs'[k - 1].addr < bs'[k].addr;
    if i != k {
      var j := if i < k then i else i - 1;
      assert HeaderIs(mem, bs, j) && bs'[i] == bs[j];
      assert if i < k then bs'[i].addr < bs'[k].addr else bs'[k].addr < bs'[i].addr;
      assert AddrAt(bs', i + 1) == if i == k - 1 then b.addr else AddrAt(bs, j + 1);
      assert k > 0 && i != k - 1 ==> bs'[i].addr != bs'[k - 1].addr;
    } else {
      assert AddrAt(bs', k + 1) == AddrAt(bs, k);
    }
  }

  // Blocks have different addresses.
  lemma Apart(base: nat, bs: seq<Block>)
    requires Layout(base, bs)
    ensures forall i, j | 0 <= i < j < |bs| :: bs[i].addr < bs[j].addr
  {
  }

  // The link around a block.
  function LinkOut(mem: map<nat, Header>, prev: nat, next: nat): map<nat, Header> {
    if prev in mem && prev != 0 then mem[prev := mem[prev].(next := next)] else mem
  }

  lemma LinkedOut(base: nat, mem: map<nat, Header>, head: nat, bs: seq<Block>, k: nat)
    requires base > 0 && Layout(base, bs) && Linked(mem, head, bs) && k < |bs|
    ensures Linked(LinkOut(mem, if k == 0 then 0 else bs[k - 1].addr, AddrAt(bs, k + 1)),
                   if k == 0 then AddrAt(bs, 1) else head, WithoutBlock(bs, k))
    ensures Layout(base, WithoutBlock(bs, k))
  {
    hide Aligned;
    var mem' := LinkOut(mem, if k == 0 then 0 else bs[k - 1].addr, AddrAt(bs, k + 1));
    Apart(base, bs);
    StillLaidOut(base, bs, k);
    forall i | 0 <= i < |bs| - 1
      ensures HeaderIs(mem', WithoutBlock(bs, k), i)
    {
      HeaderKept(mem, head, bs, k, i);
    }
  }

  lemma StillLaidOut(base: nat, bs: seq<Block>, k: nat)
    requires Layout(base, bs) && k < |bs|
    ensures Layout(base, WithoutBlock(bs, k))
  {
    hide Aligned;
  }

  lemma HeaderKept(mem: map<nat, Header>, head: nat, bs: seq<Block>, k: nat, i: nat)
    requires Linked(mem, head, bs) && k < |bs| && i < |bs| - 1 && forall i | 0 <= i < |bs| :: bs[i].addr > 0
    requires forall i, j | 0 <= i < j < |bs| :: bs[i].addr < bs[j].addr
    ensures HeaderIs(LinkOut(mem, if k == 0 then 0 else bs[k - 1].addr, AddrAt(bs, k + 1)), WithoutBlock(bs, k), i)
  {
    var bs' := WithoutBlock(bs, k);
    var j := if i < k then i else i + 1;
    assert HeaderIs(mem, bs, j) && bs'[i] == bs[j];
    assert AddrAt(bs', i + 1) == if i == k - 1 then AddrAt(bs, k + 1) else AddrAt(bs, j + 1);
    assert k > 0 ==> HeaderIs(mem, bs, k - 1);
    assert k > 0 && i != k - 1 ==> bs[j].addr != bs[k - 1].addr;
  }

  lemma Addresses(base: nat, mem: map<nat, Header>, head: nat, bs: seq<Block>)
    requires base > 0 && Layout(base, bs) && Linked(mem, head, bs)
    ensures forall i | 0 <= i < |bs| :: base <= bs[i].addr
    ensures head == AddrAt(bs, 0) && forall i :: AddrAt(bs, i) == 0 <==> i < 0 || i >= |bs|
  {
    hide Aligned;
  }

  lemma HeaderAt(mem: map<nat, Header>, head: nat, bs: seq<Block>, k: nat)
    requires Linked(mem, head, bs) && k < |bs|
    ensures bs[k].addr in mem && mem[bs[k].addr] == Header(AddrAt(bs, k + 1), bs[k].size, bs[k].align)
  {
    assert HeaderIs(mem, bs, k);
  }

  lemma NoPlace(base: nat, bs: seq<Block>, c: nat, size: nat, align: nat)
    requires NoneBefore(base, bs, c, size, align)
    ensures forall a | Placeable(base, bs, a, size, align) :: c <= a
  {
    hide Placeable;
  }

  lemma GapsRise(base: nat, bs: seq<Block>, k: nat)
    requires Layout(base, bs) && k <= |bs|
    ensures base <= Gap(base, bs, k) <= Gap(base, bs, |bs|)
  {
    hide Aligned;
  }

  // The end of the last block.
  lemma LastWith(base: nat, bs: seq<Block>, k: nat, b: Block)
    requires k <= |bs|
    ensures Gap(base, WithBlock(bs, k, b), |bs| + 1) == if k == |bs| then End(b) else Gap(base, bs, |bs|)
  {
  }

  lemma LastWithout(base: nat, bs: seq<Block>, k: nat)
    requires k < |bs|
    ensures Gap(base, WithoutBlock(bs, k), |bs| - 1) == if k == |bs| - 1 then Gap(base, bs, k) else Gap(base, bs, |bs|)
  {
  }

  function Resized(bs: seq<Block>, k: nat, size: nat): seq<Block>
    requires k < |bs|
  {
    bs[k := bs[k].(size := size)]
  }

  // Block k went, and one of another size came to the lowest place that is free without it.
  ghost predicate BlockMoved(base: nat, bs: seq<Block>, bs': seq<Block>, k: nat, j: nat, ptr: nat, size: nat) {
    0 < k < |bs| && ptr > HEADER
    && var (rest, a, align) := (WithoutBlock(bs, k), ptr - HEADER, bs[k].align);
       && j <= |rest| && bs' == WithBlock(rest, j, Block(a, size, align))
       && Placeable(base, rest, a, size, align) && NoneBefore(base, rest, a, size, align)
  }

  // Block k went, and without it there is no place below the limit either.
  ghost predicate BlockGone(base: nat, limit: nat, bs: seq<Block>, bs': seq<Block>, k: nat, size: nat) {
    0 < k < |bs| && bs' == WithoutBlock(bs, k)
    && forall a | Placeable(base, bs', a, size, bs[k].align) :: Data(a) + size > limit
  }

  // A block that ends in front of the next one may have any size.
  lemma ResizedInPlace(base: nat, mem: map<nat, Header>, head: nat, bs: seq<Block>, k: nat, size: nat)
    requires base > 0 && Layout(base, bs) && Linked(mem, head, bs) && k < |bs| && bs[k].addr in mem
    requires k + 1 < |bs| ==> Data(bs[k].addr) + size <= bs[k + 1].addr
    ensures Layout(base, Resized(bs, k, size))
    ensures Linked(mem[bs[k].addr := mem[bs[k].addr].(size := size)], head, Resized(bs, k, size))
    ensures Gap(base, Resized(bs, k, size), |bs|) == if k == |bs| - 1 then Data(bs[k].addr) + size else Gap(base, bs, |bs|)
  {
    hide Aligned;
    var bs' := Resized(bs, k, size);
    var mem' := mem[bs[k].addr := mem[bs[k].addr].(size := size)];
    Apart(base, bs);
    forall i | 0 <= i < |bs'|
      ensures HeaderIs(mem', bs', i)
    {
      assert HeaderIs(mem, bs, i);
    }
  }

  // All bytes that were asked for.
  function TotalSize(bs: seq<Block>): nat {
    if bs == [] then 0 else TotalSize(bs[..|bs| - 1]) + bs[|bs| - 1].size
  }

  lemma TotalResized(bs: seq<Block>, k: nat, size: nat)
    requires k < |bs|
    ensures TotalSize(Resized(bs, k, size)) == TotalSize(bs) + size - bs[k].size
    ensures TotalSize(bs) >= bs[k].size
  {
    hide TotalSize;
    TotalWithout(bs, k);
    TotalWithout(Resized(bs, k, size), k);
    assert WithoutBlock(Resized(bs, k, size), k) == WithoutBlock(bs, k);
  }

  lemma {:induction false} TotalWith(bs: seq<Block>, k: nat, b: Block)
    requires k <= |bs|
    ensures TotalSize(WithBlock(bs, k, b)) == TotalSize(bs) + b.size
  {
    var n := |bs| - 1;
    if k == |bs| {
      assert WithBlock(bs, k, b)[..|bs|] == bs;
    } else {
      TotalWith(bs[..n], k, b);
      assert bs == bs[..n] + [bs[n]];
      assert WithBlock(bs, k, b) == WithBlock(bs[..n], k, b) + [bs[n]];
    }
  }

  lemma TotalWithout(bs: seq<Block>, k: nat)
    requires k < |bs|
    ensures TotalSize(bs) == TotalSize(WithoutBlock(bs, k)) + bs[k].size
  {
    hide TotalSize, WithBlock, WithoutBlock;
    TotalWith(WithoutBlock(bs, k), k, bs[k]);
    PutBack(bs, k);
  }

  lemma PutBack(bs: seq<Block>, k: nat)
    requires k < |bs|
    ensures WithBlock(WithoutBlock(bs, k), k, bs[k]) == bs
  {
  }

  // Freeing a block that was just allocated leaves the blocks as they were.
  lemma TakenOut(bs: seq<Block>, k: nat, b: Block)
    requires k <= |bs|
    ensures WithoutBlock(WithBlock(bs, k, b), k) == bs
  {
  }

  lemma WithBlockAt(bs: seq<Block>, k: nat, b: Block)
    requires k <= |bs|
    ensures WithBlock(bs, k, b)[k] == b
  {
  }

  // Only one block stands at an address.
  lemma SamePlace(base: nat, bs: seq<Block>, i: nat, j: nat)
    requires Layout(base, bs) && i < |bs| && j < |bs| && bs[i].addr == bs[j].addr
    ensures i == j
  {
    hide Aligned;
    Apart(base, bs);
  }

  // The number of the page behind an address, rounded up.
  function PageCeil(x: nat): nat {
    x / PAGE + if x % PAGE != 0 then 1 else 0
  }

  // The pages mapped are those from one number up to another.
  ghost predicate Exactly(mapped: set<nat>, from: nat, to: nat) {
    forall p: nat :: p in mapped <==> from <= p < to
  }

  /** The kernel's memory manager, as far as it keeps pages behind the heap. */
  class MemoryManager {
    var kheapBase: nat
    var kheapLimit: nat
    // The mapped pages of the heap's address range.
    var mapped: set<nat>

    constructor (firstPage: nat)
      requires firstPage > 0
      ensures Valid() && kheapBase == kheapLimit == firstPage * PAGE
    {
      kheapBase, kheapLimit, mapped := firstPage * PAGE, firstPage * PAGE, {};
    }

    // The mapped pages are those from the base up to the limit.
    ghost predicate Valid()
      reads this
    {
      && 0 < kheapBase <= kheapLimit && kheapBase % PAGE == 0
      && Exactly(mapped, kheapBase / PAGE, PageCeil(kheapLimit))
    }

    // resize_heap, when there are enough frames.
    method ResizeHeap(limit: nat) returns (ok: bool)
      requires Valid() && kheapBase <= limit
      modifies this
      ensures Valid() && ok && kheapLimit == limit && kheapBase == old(kheapBase)
      ensures forall q: nat :: q in mapped <==> kheapBase <= q * PAGE < limit
    {
      var oldPidx := kheapLimit / PAGE;
      if kheapLimit % PAGE != 0 {
        oldPidx := oldPidx + 1;
      }
      var newPidx := limit / PAGE;
      if limit % PAGE != 0 {
        newPidx := newPidx + 1;
      }
      ok := true;
      kheapLimit := limit;
      ghost var first := kheapBase / PAGE;
      var i := if newPidx < oldPidx then newPidx else oldPidx;
      if newPidx < oldPidx {
        while i < oldPidx
          invariant kheapBase == old(kheapBase) && kheapLimit == limit && first <= newPidx <= i <= oldPidx
          invariant forall p: nat :: p in mapped <==> first <= p < newPidx || i <= p < oldPidx
        {
          mapped := mapped - {i};
          i := i + 1;
        }
      } else {
        while i < newPidx
          invariant kheapBase == old(kheapBase) && kheapLimit == limit
          invariant first <= oldPidx <= i <= newPidx && Exactly(mapped, first, i)
        {
          mapped := mapped + {i};
          i := i + 1;
        }
      }
    }
  }

  /** The heap: a linked list of blocks in memory. */
  class LCHeap {
    const base: nat
    const limit: nat
    // Where the heap asks for more room, if it may.
    const pages: MemoryManager?
    var head: nat
    var totalSize: nat
    var memory: map<nat, Header>
    ghost var blocks: seq<Block>

    // A heap between two addresses.
    constructor (base: nat, limit: nat)
      ensures Valid() && pages == null && blocks == [] && this.base == (if base < 4 then 4 else base) && this.limit == limit
    {
      this.base, this.limit, pages := if base < 4 then 4 else base, limit, null;
      head, totalSize, memory, blocks := 0, 0, map[], [];
    }

    // init_heap: the kernel's heap, without room of its own.
    constructor Kernel(manager: MemoryManager)
      requires manager.Valid() && manager.kheapLimit == manager.kheapBase
      ensures Valid() && pages == manager && blocks == []
    {
      base, limit, pages := manager.kheapBase, manager.kheapBase, manager;
      head, totalSize, memory, blocks := 0, 0, map[], [];
    }

    ghost function Parts(): set<object> {
      if pages == null then {} else {pages}
    }

    ghost predicate Valid()
      reads this, Parts()
    {
      && base >= 4 && Layout(base, blocks) && Linked(memory, head, blocks) && totalSize == TotalSize(blocks)
      && if pages == null then |blocks| > 0 ==> End(blocks[|blocks| - 1]) <= limit
         else pages.Valid() && limit == base == pages.kheapBase && pages.kheapLimit == Gap(base, blocks, |blocks|)
    }

    // Links a new header into the list, behind prev.
    method Place(addr: nat, prev: nat, next: nat, size: nat, align: nat)
      modifies this`memory, this`head, this`totalSize
      ensures memory == LinkIn(old(memory), prev, Block(addr, size, align), next)
      ensures head == (if prev == 0 then addr else old(head)) && totalSize == old(totalSize) + size
    {
      memory := memory[addr := Header(next, size, align)];
      if prev == 0 {
        head := addr;
      } else if prev in memory {
        memory := memory[prev := memory[prev].(next := addr)];
      }
      totalSize := totalSize + size;
    }

    // The walk of malloc: the first gap with room for the block, or the end of the list.
    method FindPlace(size: nat, align: nat) returns (newBlock: nat, prev: nat, block: nat, ghost k: nat)
      requires Valid()
      ensures Valid() && k <= |blocks| && block == AddrAt(blocks, k) && prev == (if k == 0 then 0 else blocks[k - 1].addr)
      ensures newBlock == BlockAfter(Gap(base, blocks, k), align) && (k < |blocks| ==> Data(newBlock) + size <= block)
      ensures NoneBefore(base, blocks, newBlock, size, align) && (block == 0 <==> k == |blocks|)
    {
      hide Layout, Linked, TotalSize, Placeable, NoneBefore, Aligned, BlockAfter;
      newBlock := BlockAfter(base, align);
      block, prev := head, 0;
      k := 0;
      FirstOfGap(base, blocks, 0, size, align);
      Addresses(base, memory, head, blocks);
      while block != 0
        invariant k <= |blocks| && block == AddrAt(blocks, k) && prev == if k == 0 then 0 else blocks[k - 1].addr
        invariant newBlock == BlockAfter(Gap(base, blocks, k), align) && NoneBefore(base, blocks, newBlock, size, align)
        decreases |blocks| - k
      {
        HeaderAt(memory, head, blocks, k);
        if Data(newBlock) + size <= block {
          return;
        }
        FirstOfGap(base, blocks, k + 1, size, align);
        newBlock := BlockAfter(block + HEADER + memory[block].size, align);
        prev, block := block, memory[block].next;
        k := k + 1;
      }
    }

    /**
     malloc: the new block gets the lowest place where it fits and disturbs no other block.  Without a
     callback it fails only when there is no place.
     */
    method Malloc(size: nat, align: nat) returns (ptr: nat, ghost k: nat)
      requires Valid()
      modifies this`memory, this`head, this`totalSize, this`blocks, Parts()
      ensures Valid() && k <= |old(blocks)|
      ensures ptr == 0 ==> pages == null && blocks == old(blocks) && totalSize == old(totalSize)
                           && forall a | Placeable(base, blocks, a, size, align) :: Data(a) + size > limit
      ensures ptr != 0 ==> ptr > HEADER && blocks == WithBlock(old(blocks), k, Block(ptr - HEADER, size, align))
                           && Placeable(base, old(blocks), ptr - HEADER, size, align)
                           && NoneBefore(base, old(blocks), ptr - HEADER, size, align)
    {
      hide Layout, Linked, TotalSize, Placeable, NoneBefore, Aligned, BlockAfter, Exactly, PageCeil, LinkIn, WithBlock;
      var newBlock, prev, block;
      newBlock, prev, block, k := FindPlace(size, align);
      ghost var bs := blocks;
      ptr := 0;
      NoPlace(base, bs, newBlock, size, align);
      GapsRise(base, bs, k);
      if block == 0 && Data(newBlock) + size > limit {
        if pages == null {
          return;
        }
        var ok := pages.ResizeHeap(Data(newBlock) + size);
      }
      ghost var b := Block(newBlock, size, align);
      FitsInGap(base, bs, k, size, align);
      Addresses(base, memory, head, bs);
      assert k > 0 ==> prev == AddrAt(bs, k - 1) != 0;
      LinkedIn(base, memory, head, bs, k, b);
      TotalWith(bs, k, b);
      LastWith(base, bs, k, b);
      Place(newBlock, prev, block, size, align);
      blocks := WithBlock(bs, k, b);
      ptr := Data(newBlock);
    }

    // prev_block: the block in front of one; the walk ends early behind its address.
    method PrevBlock(block: nat) returns (prev: nat, ghost k: nat)
      requires Valid() && block > 0
      ensures Valid() && k <= |blocks|
      ensures if k < |blocks| then blocks[k].addr == block && prev == AddrAt(blocks, k - 1) && (prev == 0 <==> k == 0)
              else prev == 0 && head != block && forall i | 0 <= i < |blocks| :: blocks[i].addr != block
    {
      hide Layout, Linked, TotalSize;
      Addresses(base, memory, head, blocks);
      Apart(base, blocks);
      var item := head;
      ghost var i := 0;
      while item != 0
        invariant i <= |blocks| && item == AddrAt(blocks, i)
        invariant forall j | 1 <= j <= i && j < |blocks| :: blocks[j].addr != block
        decreases |blocks| - i
      {
        HeaderAt(memory, head, blocks, i);
        assert AddrAt(blocks, i) != 0;
        if memory[item].next == block {
          return item, i + 1;
        }
        if item > block {
          break;
        }
        item := memory[item].next;
        i := i + 1;
      }
      prev, k := 0, if head == block then 0 else |blocks|;
    }

    method Unlink(prev: nat, next: nat)
      modifies this`memory, this`head
      ensures memory == LinkOut(old(memory), prev, next) && head == if prev == 0 then next else old(head)
    {
      if prev == 0 {
        head := next;
      } else if prev in memory {
        memory := memory[prev := memory[prev].(next := next)];
      }
    }

    // The block behind prev is taken out of the list, and the pages behind the last block are given back.
    method TakeOut(prev: nat, block: nat, ghost k: nat)
      requires Valid() && k < |blocks| && blocks[k].addr == block && prev == AddrAt(blocks, k - 1)
      requires pages != null ==> |blocks| > 1
      modifies this`memory, this`head, this`totalSize, this`blocks, Parts()
      ensures Valid() && blocks == WithoutBlock(old(blocks), k)
    {
      hide Layout, Linked, TotalSize;
      ghost var bs := blocks;
      Addresses(base, memory, head, bs);
      HeaderAt(memory, head, bs, k);
      GapsRise(base, bs, k);
      LastWithout(base, bs, k);
      LinkedOut(base, memory, head, bs, k);
      TotalWithout(bs, k);
      totalSize := totalSize - memory[block].size;
      var next := memory[block].next;
      Unlink(prev, next);
      blocks := WithoutBlock(bs, k);
      if next == 0 && pages != null {
        HeaderAt(memory, head, blocks, k - 1);
        assert blocks[k - 1] == bs[k - 1] && Gap(base, bs, k) == End(bs[k - 1]);
        var _ := pages.ResizeHeap(prev + HEADER + memory[prev].size);
      }
    }

    /**
     free: exactly the block whose bytes start at ptr goes, unless it is the only one of a heap with a callback; any
     other ptr is an error and changes nothing.
     */
    method Free(ptr: nat) returns (outcome: FreeOutcome, ghost k: nat)
      requires Valid() && ptr > HEADER
      modifies this`memory, this`head, this`totalSize, this`blocks, Parts()
      ensures Valid()
      ensures outcome == Unknown <==> forall i | 0 <= i < |old(blocks)| :: Data(old(blocks)[i].addr) != ptr
      ensures outcome == NullRead <==> pages != null && |old(blocks)| == 1 && Data(old(blocks)[0].addr) == ptr
      ensures outcome == Freed ==> k < |old(blocks)| && Data(old(blocks)[k].addr) == ptr && blocks == WithoutBlock(old(blocks), k)
      ensures outcome != Freed ==> unchanged(this) && (pages != null ==> unchanged(pages))
    {
      hide Layout, Linked, TotalSize;
      var block := ptr - HEADER;
      var prev;
      prev, k := PrevBlock(block);
      Addresses(base, memory, head, blocks);
      if prev == 0 && head != block {
        assert forall i | 0 <= i < |blocks| :: Data(blocks[i].addr) != ptr;
        return Unknown, k;
      }
      assert Data(blocks[k].addr) == ptr;
      HeaderAt(memory, head, blocks, k);
      if pages != null && prev == 0 && memory[block].next == 0 {
        return NullRead, k;
      }
      TakeOut(prev, block, k);
      outcome := Freed;
    }

    /**
     Freeing what was just allocated leaves the heap as it was, the blocks, their size in all, and the pages behind
     them, if and only if it was not the first block of a heap with a callback.
     */
    method MallocThenFree(size: nat, align: nat)
      requires Valid()
      modifies this`memory, this`head, this`totalSize, this`blocks, Parts()
      ensures Valid()
      ensures pages == null || old(blocks) != [] <==> blocks == old(blocks)
      ensures blocks == old(blocks) ==> totalSize == old(totalSize) && head == old(head)
      ensures blocks == old(blocks) && pages != null ==>
                pages.mapped == old(pages.mapped) && pages.kheapLimit == old(pages.kheapLimit)
    {
      hide Layout, Linked, TotalSize, Placeable, NoneBefore, Aligned, WithBlock, WithoutBlock;
      ghost var bs := blocks;
      Addresses(base, memory, head, bs);
      var ptr;
      ghost var k, j;
      ptr, k := Malloc(size, align);
      if ptr != 0 {
        ghost var b := Block(ptr - HEADER, size, align);
        WithBlockAt(bs, k, b);
        var outcome;
        outcome, j := Free(ptr);
        if outcome == Freed {
          SamePlace(base, WithBlock(bs, k, b), k, j);
          TakenOut(bs, k, b);
        }
      }
      Addresses(base, memory, head, blocks);
    }

    /**
     realloc: the block takes its new size where it is exactly when it does not reach into what comes next.
     Otherwise it is taken out, and a block of the new size gets the lowest place that is free then; if there is
     none, the old block is gone all the same.
     */
    method Realloc(ptr: nat, size: nat) returns (outcome: ReallocOutcome, ghost k: nat, ghost j: nat)
      requires Valid() && ptr > HEADER
      modifies this`memory, this`head, this`totalSize, this`blocks, Parts()
      ensures Valid() && k <= |old(blocks)|
      ensures outcome == NoBlock <==> forall i | 0 <= i < |old(blocks)| :: Data(old(blocks)[i].addr) != ptr
      ensures outcome != NoBlock ==> k < |old(blocks)| && Data(old(blocks)[k].addr) == ptr
      ensures outcome != NoBlock ==>
                (outcome == InPlace <==> ptr + size <= if k + 1 < |old(blocks)| then old(blocks)[k + 1].addr else limit)
      ensures outcome == InPlace ==> blocks == Resized(old(blocks), k, size)
      ensures outcome == NoBlock || outcome == NullWrite ==> blocks == old(blocks)
      ensures outcome == NullWrite ==> k == 0
      ensures outcome.Moved? ==> BlockMoved(base, old(blocks), blocks, k, j, outcome.ptr, size)
      ensures outcome == Gone ==> pages == null && BlockGone(base, limit, old(blocks), blocks, k, size)
    {
      hide Layout, Linked, TotalSize, Placeable, NoneBefore, WithoutBlock, WithBlock;
      var block := ptr - HEADER;
      var prev;
      prev, k := PrevBlock(block);
      j := 0;
      Addresses(base, memory, head, blocks);
      if prev == 0 && head != block {
        assert forall i | 0 <= i < |blocks| :: Data(blocks[i].addr) != ptr;
        return NoBlock, k, j;
      }
      assert Data(blocks[k].addr) == ptr;
      HeaderAt(memory, head, blocks, k);
      var next, align := memory[block].next, memory[block].align;
      var end := if next != 0 then next else limit;
      if ptr + size <= end {
        ResizedInPlace(base, memory, head, blocks, k, size);
        TotalResized(blocks, k, size);
        totalSize := totalSize + size - memory[block].size;
        memory := memory[block := memory[block].(size := size)];
        blocks := Resized(blocks, k, size);
        return InPlace, k, j;
      }
      if prev == 0 {
        return NullWrite, k, j;
      }
      TakeOut(prev, block, k);
      var nptr;
      nptr, j := Malloc(size, align);
      outcome := if nptr == 0 then Gone else Moved(nptr);
    }

    // count_blocks and count_total_size walk the list.
    method Count() returns (count: nat, size: nat)
      requires Valid()
      ensures Valid() && count == |blocks| && size == totalSize
    {
      hide Layout, Linked, TotalSize;
      Addresses(base, memory, head, blocks);
      var block := head;
      count, size := 0, 0;
      NoBlocksNoSize();
      while block != 0
        invariant count <= |blocks| && block == AddrAt(blocks, count) && size == TotalSize(blocks[..count])
        decreases |blocks| - count
      {
        HeaderAt(memory, head, blocks, count);
        OneBlockMore(blocks, count);
        size := size + memory[block].size;
        count, block := count + 1, memory[block].next;
      }
      assert blocks[..count] == blocks;
    }

    lemma NoBlocksNoSize()
      ensures TotalSize(blocks[..0]) == 0
    {
    }

    /** Every byte of every block of the kernel's heap, and of its header, is on a mapped page. */
    lemma BlocksAreMapped(i: nat, x: nat)
      requires Valid() && pages != null && i < |blocks| && blocks[i].addr <= x < End(blocks[i])
      ensures x / PAGE in pages.mapped
    {
      hide Linked, TotalSize;
      var last := |blocks| - 1;
      assert End(blocks[i]) <= End(blocks[last]) == pages.kheapLimit;
      PageOf(base, x, pages.kheapLimit);
    }
  }

  lemma OneBlockMore(bs: seq<Block>, n: nat)
    requires n < |bs|
    ensures TotalSize(bs[..n + 1]) == TotalSize(bs[..n]) + bs[n].size
  {
    assert bs[..n + 1][..n] == bs[..n];
  }

  lemma PageOf(from: nat, x: nat, to: nat)
    requires from <= x < to
    ensures from / PAGE <= x / PAGE < PageCeil(to)
  {
  }

}
