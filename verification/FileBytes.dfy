/** The bytes of a list of disk blocks, read in order. */
module FileBytes {
  import opened Arithmetic
  import opened DiskBlocks

  ghost predicate BlocksOf(d: Disk, blocks: seq<nat>, size: nat) {
    forall i | 0 <= i < |blocks| :: blocks[i] < |d| && |d[blocks[i]]| == size
  }

  ghost function BlockAt(d: Disk, b: nat): Block {
    if b < |d| then d[b] else []
  }

  ghost function Bytes(d: Disk, blocks: seq<nat>): seq<byte> {
    if blocks == [] then [] else BlockAt(d, blocks[0]) + Bytes(d, blocks[1..])
  }

  lemma {:induction false} BytesSplit(d: Disk, a: seq<nat>, b: seq<nat>)
    ensures Bytes(d, a + b) == Bytes(d, a) + Bytes(d, b)
  {
    if a == [] {
      assert a + b == b;
    } else {
      assert (a + b)[1..] == a[1..] + b;
      BytesSplit(d, a[1..], b);
    }
  }

  lemma {:induction false} BytesLength(d: Disk, blocks: seq<nat>, size: nat)
    requires BlocksOf(d, blocks, size)
    ensures |Bytes(d, blocks)| == |blocks| * size
  {
    if blocks != [] {
      BytesLength(d, blocks[1..], size);
      assert |blocks| * size == size + |blocks[1..]| * size;
    }
  }

  // The blocks from..to of a file are its bytes from * size .. to * size.
  lemma BytesSlice(d: Disk, blocks: seq<nat>, size: nat, from: nat, to: nat)
    requires BlocksOf(d, blocks, size) && from <= to <= |blocks|
    ensures 0 <= from * size <= to * size <= |Bytes(d, blocks)| == |blocks| * size
    ensures Bytes(d, blocks[from..to]) == Bytes(d, blocks)[from * size..to * size]
  {
    hide Bytes;
    var a, m, c := blocks[..from], blocks[from..to], blocks[to..];
    ThreeParts(d, blocks, from, to);
    BytesLength(d, a, size);
    BytesLength(d, m, size);
    BytesLength(d, c, size);
    Lengths(from, to, |blocks|, size);
  }

  lemma Lengths(from: nat, to: nat, all: nat, size: nat)
    requires from <= to <= all
    ensures from * size + (to - from) * size == to * size
    ensures to * size + (all - to) * size == all * size
  {
  }

  lemma {:induction false} SameBytes(d: Disk, d': Disk, blocks: seq<nat>)
    requires forall i | 0 <= i < |blocks| :: BlockAt(d', blocks[i]) == BlockAt(d, blocks[i])
    ensures Bytes(d', blocks) == Bytes(d, blocks)
  {
    if blocks != [] {
      SameBytes(d, d', blocks[1..]);
    }
  }

  // A longer list of blocks begins with the same bytes.
  lemma PrefixBytes(d: Disk, d': Disk, a: seq<nat>, b: seq<nat>)
    requires a <= b && forall c | c in a :: BlockAt(d', c) == BlockAt(d, c)
    ensures Bytes(d, a) <= Bytes(d', b)
  {
    SameBytes(d, d', a);
    BytesSplit(d', a, b[|a|..]);
    assert b == a + b[|a|..];
  }

  // One block more.
  lemma BytesSnoc(d: Disk, blocks: seq<nat>, b: nat)
    ensures Bytes(d, blocks + [b]) == Bytes(d, blocks) + BlockAt(d, b)
  {
    BytesSplit(d, blocks, [b]);
    assert Bytes(d, [b]) == BlockAt(d, b) + Bytes(d, [b][1..]);
  }

  // s with data put at an offset.
  function Splice(s: seq<byte>, offset: nat, data: seq<byte>): (r: seq<byte>)
    requires offset + |data| <= |s|
    ensures |r| == |s|
  {
    s[..offset] + data + s[offset + |data|..]
  }

  // n entries of a list from some place on, when there are that many.
  function Sub(s: seq<nat>, from: nat, n: nat): (r: seq<nat>) {
    if from + n <= |s| then s[from..from + n] else []
  }

  // Outside places from..to of the list, the blocks are the same.
  ghost predicate SameBlocksBut(d: Disk, d': Disk, blocks: seq<nat>, from: nat, to: nat) {
    forall i | 0 <= i < |blocks| && !(from <= i < to) :: BlockAt(d', blocks[i]) == BlockAt(d, blocks[i])
  }

  // The block behind n blocks of a list is overwritten.
  lemma OneMoreBlock(d: Disk, d': Disk, blocks: seq<nat>, from: nat, n: nat, chunk: Block)
    requires from + n < |blocks| && blocks[from + n] < |d| && d' == d[blocks[from + n] := chunk]
    requires forall i, j | 0 <= i < j < |blocks| :: blocks[i] != blocks[j]
    ensures Bytes(d', Sub(blocks, from, n + 1)) == Bytes(d, Sub(blocks, from, n)) + chunk
    ensures SameBlocksBut(d, d', blocks, from + n, from + n + 1)
  {
    SubSnoc(blocks, from, n);
    BytesSnoc(d', Sub(blocks, from, n), blocks[from + n]);
    SameBytes(d, d', Sub(blocks, from, n));
  }

  // s' is s with data put at an offset.
  ghost predicate Spliced(s: seq<byte>, s': seq<byte>, offset: int, data: seq<byte>) {
    0 <= offset && offset + |data| <= |s| && s' == Splice(s, offset, data)
  }

  lemma SameBlocksOneMore(d0: Disk, d1: Disk, d2: Disk, blocks: seq<nat>, from: nat, to: nat)
    requires from <= to && SameBlocksBut(d0, d1, blocks, from, to) && SameBlocksBut(d1, d2, blocks, to, to + 1)
    ensures SameBlocksBut(d0, d2, blocks, from, to + 1)
  {
  }

  // Overwriting the blocks from..to, and only them, splices their new bytes into the file.
  lemma OverwrittenBytes(d: Disk, d': Disk, blocks: seq<nat>, size: nat, from: nat, to: nat)
    requires BlocksOf(d, blocks, size) && BlocksOf(d', blocks, size) && from <= to <= |blocks|
    requires SameBlocksBut(d, d', blocks, from, to)
    ensures 0 <= from * size && from * size + |Bytes(d', blocks[from..to])| <= |Bytes(d, blocks)|
    ensures Bytes(d', blocks) == Splice(Bytes(d, blocks), from * size, Bytes(d', blocks[from..to]))
  {
    hide Bytes;
    var a, m, c := blocks[..from], blocks[from..to], blocks[to..];
    ThreeParts(d, blocks, from, to);
    ThreeParts(d', blocks, from, to);
    SameBytes(d, d', a);
    SameBytes(d, d', c);
    BytesLength(d, a, size);
    BytesLength(d', m, size);
    BytesLength(d, m, size);
    SpliceParts(Bytes(d, a), Bytes(d, m), Bytes(d, c), Bytes(d', m));
  }

  lemma SpliceParts(front: seq<byte>, middle: seq<byte>, back: seq<byte>, middle': seq<byte>)
    requires |middle'| == |middle|
    ensures Splice(front + middle + back, |front|, middle') == front + middle' + back
  {
  }

  lemma ThreeParts(d: Disk, blocks: seq<nat>, from: nat, to: nat)
    requires from <= to <= |blocks|
    ensures Bytes(d, blocks) == Bytes(d, blocks[..from]) + Bytes(d, blocks[from..to]) + Bytes(d, blocks[to..])
  {
    var a, m, c := blocks[..from], blocks[from..to], blocks[to..];
    assert blocks == a + m + c;
    BytesSplit(d, a + m, c);
    BytesSplit(d, a, m);
  }

  lemma SubSnoc(s: seq<nat>, from: nat, n: nat)
    requires from + n < |s|
    ensures Sub(s, from, n + 1) == Sub(s, from, n) + [s[from + n]]
  {
  }

  // The bytes from a position up to another one, when there are that many.
  function Cut(s: seq<byte>, from: int, to: int): (r: seq<byte>) {
    if 0 <= from <= to <= |s| then s[from..to] else []
  }

  // The blocks from..to of a file, as above, with the bounds in the open.
  lemma BytesCut(d: Disk, blocks: seq<nat>, size: nat, from: nat, to: nat)
    requires BlocksOf(d, blocks, size) && from <= to <= |blocks|
    ensures 0 <= from * size <= to * size <= |Bytes(d, blocks)|
    ensures Bytes(d, blocks[from..to]) == Cut(Bytes(d, blocks), from * size, to * size)
  {
    BytesSlice(d, blocks, size, from, to);
  }

  lemma SubBytes(d: Disk, blocks: seq<nat>, size: nat, from: nat, n: nat)
    requires BlocksOf(d, blocks, size) && (n > 0 ==> from + n <= |blocks|)
    ensures |Bytes(d, Sub(blocks, from, n))| == n * size
    ensures n > 0 ==> Bytes(d, Sub(blocks, from, n)) == Cut(Bytes(d, blocks), from * size, (from + n) * size)
  {
    if n > 0 {
      BytesCut(d, blocks, size, from, from + n);
      BytesLength(d, blocks[from..from + n], size);
    }
  }
}
