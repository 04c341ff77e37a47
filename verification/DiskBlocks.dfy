/** Disk blocks as bytes, and pointer blocks as little-endian 32-bit words stored in them. */
module DiskBlocks {
  type byte = x: int | 0 <= x < 0x100
  type word = x: int | 0 <= x < 0x1_0000_0000

  type Block = seq<byte>
  type Disk = seq<Block>

  function WordAt(b: Block, i: nat): word
    requires 4 * i + 3 < |b|
  {
    (b[4 * i] as int) + 0x100 * (b[4 * i + 1] as int) + 0x1_0000 * (b[4 * i + 2] as int)
    + 0x100_0000 * (b[4 * i + 3] as int)
  }

  function WordsOf(b: Block): (ws: seq<word>)
    ensures |ws| == |b| / 4
  {
    seq(|b| / 4, i requires 0 <= i < |b| / 4 => WordAt(b, i))
  }

  function ByteOf(w: word, j: nat): byte
    requires j < 4
  {
    var n := w as int;
    if j == 0 then n % 0x100 else if j == 1 then n / 0x100 % 0x100
    else if j == 2 then n / 0x1_0000 % 0x100 else n / 0x100_0000
  }

  lemma WordFromBytes(w: word)
    ensures (ByteOf(w, 0) as int) + 0x100 * (ByteOf(w, 1) as int) + 0x1_0000 * (ByteOf(w, 2) as int)
            + 0x100_0000 * (ByteOf(w, 3) as int) == w
  {
    var n := w as int;
    assert n / 0x1_0000 == n / 0x100 / 0x100;
    assert n / 0x100_0000 == n / 0x1_0000 / 0x100;
  }

  function BytesOf(ws: seq<word>): (b: Block)
    ensures |b| == 4 * |ws|
  {
    seq(4 * |ws|, j requires 0 <= j < 4 * |ws| => ByteOf(ws[j / 4], j % 4))
  }

  lemma ByteAt(ws: seq<word>, i: nat, j: nat)
    requires i < |ws| && j < 4
    ensures BytesOf(ws)[4 * i + j] == ByteOf(ws[i], j)
  {
    assert (4 * i + j) / 4 == i;
  }

  lemma WordRoundTrip(ws: seq<word>, i: nat)
    requires i < |ws|
    ensures WordAt(BytesOf(ws), i) == ws[i]
  {
    hide ByteOf, BytesOf;
    ByteAt(ws, i, 0);
    ByteAt(ws, i, 1);
    ByteAt(ws, i, 2);
    ByteAt(ws, i, 3);
    WordFromBytes(ws[i]);
  }

  // What a pointer block holds after it is written is what was written.
  lemma PointerBlockRoundTrip(ws: seq<word>)
    ensures WordsOf(BytesOf(ws)) == ws
  {
    hide ByteOf, BytesOf, WordAt;
    forall i | 0 <= i < |ws|
      ensures WordAt(BytesOf(ws), i) == ws[i]
    {
      WordRoundTrip(ws, i);
    }
  }

  function Zeros(n: nat): (b: Block)
    ensures |b| == n
  {
    seq(n, _ => 0)
  }

  lemma ZeroWords(n: nat, i: nat)
    requires 4 * i + 3 < n
    ensures WordAt(Zeros(n), i) == 0
  {
  }

  // Entry i of the pointer table in block b.
  function Ptr(disk: Disk, b: nat, i: nat): word {
    if b < |disk| && 4 * i + 3 < |disk[b]| then WordAt(disk[b], i) else 0
  }

  lemma PtrAfterWrite(disk: Disk, b: nat, ws: seq<word>)
    requires b < |disk|
    ensures forall i | 0 <= i < |ws| :: Ptr(disk[b := BytesOf(ws)], b, i) == ws[i]
  {
    PointerBlockRoundTrip(ws);
    forall i | 0 <= i < |ws|
      ensures Ptr(disk[b := BytesOf(ws)], b, i) == ws[i]
    {
      assert WordsOf(BytesOf(ws))[i] == ws[i];
    }
  }

  lemma PtrAfterClear(disk: Disk, b: nat, n: nat)
    requires b < |disk|
    ensures forall i: nat | 4 * i + 3 < n :: Ptr(disk[b := Zeros(n)], b, i) == 0
  {
    forall i: nat | 4 * i + 3 < n
      ensures Ptr(disk[b := Zeros(n)], b, i) == 0
    {
      ZeroWords(n, i);
    }
  }
}
