/**
 The usage bitmaps of the ext2 driver with their free counters: Ext2FileSystem::alloc and
 Ext2FileSystem::dealloc.  One object stands for the block bitmap (firstNum == 0, and dealloc
 divides by the blocks per group) or for the inode bitmap (firstNum == 1, and dealloc divides by
 the inodes per group); alloc numbers with the blocks per group in both cases.
 */
module UsageBitmaps {
  import opened Arithmetic

  // 1 << k, as a table.
  function Mask(k: nat): bv8
    requires k < 8
  {
    if k == 0 then 0x01 else if k == 1 then 0x02 else if k == 2 then 0x04 else if k == 3 then 0x08
    else if k == 4 then 0x10 else if k == 5 then 0x20 else if k == 6 then 0x40 else 0x80
  }

  // The byte with a bit set, and with it cleared.
  function WithBit(b: bv8, k: nat): bv8
    requires k < 8
  {
    b | Mask(k)
  }

  function WithoutBit(b: bv8, k: nat): bv8
    requires k < 8
  {
    b & !Mask(k)
  }

  predicate Bit(b: bv8, k: nat)
    requires k < 8
  {
    b & Mask(k) != 0
  }

  lemma SetBit(b: bv8, k: nat, j: nat)
    requires k < 8 && j < 8
    ensures Bit(WithBit(b, k), j) <==> j == k || Bit(b, j)
  {
  }

  lemma ClearBit(b: bv8, k: nat, j: nat)
    requires k < 8 && j < 8
    ensures Bit(WithoutBit(b, k), j) <==> j != k && Bit(b, j)
  {
  }

  // 2^k, the weight of bit k.
  function Weight(k: nat): (w: nat)
    ensures w > 0
  {
    PowPositive(2, k);
    Pow(2, k)
  }

  // The digit of a byte at bit k.
  function Digit(b: bv8, k: nat): nat {
    (b as nat) / Weight(k) % 2
  }

  lemma Weights()
    ensures Weight(0) == 1 && Weight(1) == 2 && Weight(2) == 4 && Weight(3) == 8
    ensures Weight(4) == 16 && Weight(5) == 32 && Weight(6) == 64 && Weight(7) == 128
  {
    assert Pow(2, 3) == 8 && Pow(2, 7) == 128;
  }

  /** Bit k of a byte, as the code masks it, is its digit of weight 2^k. */
  lemma BitIsDigit(b: bv8, k: nat)
    requires k < 8
    ensures Bit(b, k) <==> Digit(b, k) == 1
    ensures !Bit(b, k) <==> Digit(b, k) == 0
  {
    Weights();
    hide Weight;
    Digit1(b);
    Digit2(b);
    Digit4(b);
    Digit8(b);
    HighDigits(b);
  }

  lemma Digit1(b: bv8)
    ensures b & 0x01 != 0 <==> (b as nat) / 1 % 2 == 1
  {
  }

  lemma Digit2(b: bv8)
    ensures b & 0x02 != 0 <==> (b as nat) / 2 % 2 == 1
  {
  }

  lemma Digit4(b: bv8)
    ensures b & 0x04 != 0 <==> (b as nat) / 4 % 2 == 1
  {
  }

  lemma Digit8(b: bv8)
    ensures b & 0x08 != 0 <==> (b as nat) / 8 % 2 == 1
  {
  }

  lemma HighDigits(b: bv8)
    ensures b & 0x10 != 0 <==> (b as nat) / 16 % 2 == 1
    ensures b & 0x20 != 0 <==> (b as nat) / 32 % 2 == 1
    ensures b & 0x40 != 0 <==> (b as nat) / 64 % 2 == 1
    ensures b & 0x80 != 0 <==> (b as nat) / 128 % 2 == 1
  {
  }

  // Setting a clear bit adds its weight, and clearing a set one takes it away.
  lemma SetBitAdds(b: bv8, k: nat)
    requires k < 8 && !Bit(b, k)
    ensures (WithBit(b, k)) as nat == b as nat + Weight(k)
  {
    Weights();
    hide Weight;
  }

  lemma ClearBitTakes(b: bv8, k: nat)
    requires k < 8 && Bit(b, k)
    ensures (WithoutBit(b, k)) as nat == b as nat - Weight(k)
  {
    Weights();
    hide Weight;
  }

  lemma SomeBitClear(b: bv8)
    requires b != 0xff
    ensures exists k: nat | k < 8 :: !Bit(b, k)
  {
    assert Bit(b, 0) && Bit(b, 1) && Bit(b, 2) && Bit(b, 3) && Bit(b, 4) && Bit(b, 5) && Bit(b, 6) && Bit(b, 7)
           ==> b == 0xff;
  }

  lemma AllBitsSet(k: nat)
    requires k < 8
    ensures Bit(0xff, k)
  {
  }

  // One bit of a bitmap was set, or cleared: its byte gains or loses the weight of the bit, and no other byte changes.
  ghost predicate BitAdded(bits: seq<bv8>, bits': seq<bv8>, pos: nat) {
    && pos < 8 * |bits| && |bits'| == |bits| && bits' == bits[pos / 8 := bits'[pos / 8]]
    && bits'[pos / 8] as nat == bits[pos / 8] as nat + Weight(pos % 8)
  }

  ghost predicate BitTaken(bits: seq<bv8>, bits': seq<bv8>, pos: nat) {
    BitAdded(bits', bits, pos)
  }

  lemma AddedAt(bits: seq<bv8>, byte: nat, k: nat)
    requires byte < |bits| && k < 8 && !Bit(bits[byte], k)
    ensures BitAdded(bits, bits[byte := WithBit(bits[byte], k)], 8 * byte + k)
  {
    SetBitAdds(bits[byte], k);
    hide Weight, Bit, WithBit, WithoutBit;
    assert (8 * byte + k) / 8 == byte && (8 * byte + k) % 8 == k;
  }

  lemma TakenAt(bits: seq<bv8>, byte: nat, k: nat)
    requires byte < |bits| && k < 8 && Bit(bits[byte], k)
    ensures BitTaken(bits, bits[byte := WithoutBit(bits[byte], k)], 8 * byte + k)
  {
    ClearBitTakes(bits[byte], k);
    hide Weight, Bit, WithBit, WithoutBit;
    assert (8 * byte + k) / 8 == byte && (8 * byte + k) % 8 == k;
  }

  // The bit at a position that counts bits from the start of the bitmap.
  predicate BitAt(bits: seq<bv8>, pos: nat)
    requires pos < 8 * |bits|
  {
    Bit(bits[pos / 8], pos % 8)
  }

  lemma ByteIsItsBits(b: bv8, c: bv8)
    requires forall k: nat | k < 8 :: Bit(b, k) == Bit(c, k)
    ensures b == c
  {
    assert Bit(b, 0) == Bit(c, 0) && Bit(b, 1) == Bit(c, 1) && Bit(b, 2) == Bit(c, 2) && Bit(b, 3) == Bit(c, 3);
    assert Bit(b, 4) == Bit(c, 4) && Bit(b, 5) == Bit(c, 5) && Bit(b, 6) == Bit(c, 6) && Bit(b, 7) == Bit(c, 7);
  }

  // Which unit a bit position stands for.  Every group has its own block of 8 * blockSize bits, of
  // which the first perGroup count; units are numbered perGroup to a group.
  function PosOf(n: nat, blockSize: nat, perGroup: nat): nat
    requires perGroup > 0
  {
    var g: nat := n / perGroup;
    g * (8 * blockSize) + n % perGroup
  }

  function UnitAt(pos: nat, blockSize: nat, perGroup: nat): nat
    requires blockSize > 0
  {
    var g: nat := pos / (8 * blockSize);
    g * perGroup + pos % (8 * blockSize)
  }

  // Unit and position of entry index of group g.
  lemma GroupEntry(g: nat, index: nat, blockSize: nat, perGroup: nat, groups: nat)
    requires index < perGroup <= 8 * blockSize && g < groups
    ensures 0 <= g * perGroup + index < groups * perGroup
    ensures (g * perGroup + index) / perGroup == g && (g * perGroup + index) % perGroup == index
    ensures var pos := PosOf(g * perGroup + index, blockSize, perGroup);
            && pos == g * (8 * blockSize) + index < groups * (8 * blockSize)
            && pos / (8 * blockSize) == g && pos % (8 * blockSize) == index
            && UnitAt(pos, blockSize, perGroup) == g * perGroup + index
  {
    MulBound(g, groups, perGroup, index);
    MulBound(g, groups, 8 * blockSize, index);
    DivModUnique(g, perGroup, index);
    DivModUnique(g, 8 * blockSize, index);
  }

  lemma UnitRoundTrip(n: nat, blockSize: nat, perGroup: nat, groups: nat)
    requires 0 < perGroup <= 8 * blockSize && n < groups * perGroup
    ensures n / perGroup < groups
    ensures var pos := PosOf(n, blockSize, perGroup);
            UnitAt(pos, blockSize, perGroup) == n && pos < groups * (8 * blockSize)
    ensures var pos := PosOf(n, blockSize, perGroup);
            pos / (8 * blockSize) == n / perGroup && pos % (8 * blockSize) == n % perGroup
  {
    DivModBounds(n, groups, perGroup);
    GroupEntry(n / perGroup, n % perGroup, blockSize, perGroup, groups);
  }

  lemma PosRoundTrip(pos: nat, blockSize: nat, perGroup: nat, groups: nat)
    requires 0 < perGroup <= 8 * blockSize && pos < groups * (8 * blockSize) && pos % (8 * blockSize) < perGroup
    ensures var n := UnitAt(pos, blockSize, perGroup);
            && PosOf(n, blockSize, perGroup) == pos && n < groups * perGroup
            && n / perGroup == pos / (8 * blockSize) < groups && n % perGroup == pos % (8 * blockSize)
  {
    DivModBounds(pos, groups, 8 * blockSize);
    GroupEntry(pos / (8 * blockSize), pos % (8 * blockSize), blockSize, perGroup, groups);
  }

  // The byte holding that entry.
  lemma GroupEntryByte(g: nat, index: nat, blockSize: nat, perGroup: nat, groups: nat)
    requires index < perGroup <= 8 * blockSize && g < groups
    ensures 0 <= g * blockSize + index / 8 < groups * blockSize
    ensures g * (8 * blockSize) + index == 8 * (g * blockSize + index / 8) + index % 8
  {
    MulBound(g, groups, blockSize, index / 8);
  }

  // A scan over bit positions meets the units in increasing order.
  lemma PosMonotone(m: nat, n: nat, blockSize: nat, perGroup: nat)
    requires 0 < perGroup <= 8 * blockSize && m < n
    ensures PosOf(m, blockSize, perGroup) < PosOf(n, blockSize, perGroup)
  {
    hide PosOf;
    SplitPos(m, blockSize, perGroup);
    SplitPos(n, blockSize, perGroup);
    DivMonotone(m, n, perGroup);
    GroupsApart(m / perGroup, n / perGroup, m % perGroup, n % perGroup, perGroup, 8 * blockSize);
  }

  lemma SplitPos(n: nat, blockSize: nat, perGroup: nat)
    requires 0 < perGroup
    ensures PosOf(n, blockSize, perGroup) == n / perGroup * (8 * blockSize) + n % perGroup
    ensures n == n / perGroup * perGroup + n % perGroup && 0 <= n / perGroup && 0 <= n % perGroup < perGroup
  {
  }

  lemma GroupsApart(g: nat, h: nat, i: nat, j: nat, small: nat, big: nat)
    requires g <= h && i < small <= big && j < small && g * small + i < h * small + j
    ensures g * big + i < h * big + j
  {
    MulMonotone(g + 1, h, big);
  }

  // The byte and bit arithmetic of alloc and dealloc, for bit k of a byte.
  lemma ByteArithmetic(byte: nat, k: nat, blockSize: nat)
    requires blockSize > 0 && k < 8
    ensures (8 * byte + k) / (8 * blockSize) == byte / blockSize
    ensures (8 * byte + k) % (8 * blockSize) == byte % blockSize * 8 + k
  {
    var g, r := byte / blockSize, byte % blockSize;
    assert 8 * byte + k == g * (8 * blockSize) + (8 * r + k) by {
      assert byte == g * blockSize + r;
    }
    DivModUnique(g, 8 * blockSize, 8 * r + k);
  }

  /** The geometry a mounted volume fixes once and for all. */
  datatype Geometry = Geometry(blockSize: nat, groups: nat, blocksPerGroup: nat, numPerGroup: nat, firstNum: nat)
  {
    // A group's bitmap fills one block, and a group counter is a 16-bit field.
    ghost predicate Valid() {
      && blockSize > 0 && groups > 0 && firstNum <= 1
      && 0 < numPerGroup <= blocksPerGroup <= 8 * blockSize && blocksPerGroup < 0x10000
    }

    // One past the largest number alloc can hand out.
    function Count(): nat {
      groups * blocksPerGroup
    }

    ghost function Pos(n: nat): nat
      requires Valid()
    {
      PosOf(n, blockSize, blocksPerGroup)
    }

    ghost function Unit(pos: nat): nat
      requires Valid()
    {
      UnitAt(pos, blockSize, blocksPerGroup)
    }

    // The bit at pos stands for a unit and is not padding behind a group's last unit.
    ghost predicate InGroup(pos: nat)
      requires Valid()
    {
      pos % (8 * blockSize) < numPerGroup
    }

    // The unit whose bit dealloc clears when it is handed n.
    function Released(n: nat): nat
      requires numPerGroup > 0
    {
      n / numPerGroup * blocksPerGroup + n % numPerGroup
    }

    // Free units and clear bit positions correspond one to one.
    ghost predicate Paired(clear: set<nat>, free: set<nat>)
      requires Valid()
    {
      && (forall n {:trigger Pos(n)} | n in free :: n < Count() && Pos(n) in clear && Unit(Pos(n)) == n)
      && (forall p {:trigger Unit(p)} | p in clear :: InGroup(p) && Unit(p) in free && Pos(Unit(p)) == p)
    }

    lemma PairedWithout(clear: set<nat>, free: set<nat>, p: nat)
      requires Valid() && Paired(clear, free) && p in clear
      ensures Paired(clear - {p}, free - {Unit(p)})
    {
    }

    lemma PairedWith(clear: set<nat>, free: set<nat>, n: nat)
      requires Valid() && Paired(clear, free) && n < Count() && InGroup(Pos(n)) && Unit(Pos(n)) == n
      ensures Paired(clear + {Pos(n)}, free + {n})
    {
    }

    lemma ReleasedPosition(n: nat)
      requires Valid() && n / numPerGroup < groups
      ensures var (g, index) := (n / numPerGroup, n % numPerGroup);
              && 0 <= g && Released(n) < Count() && Released(n) / blocksPerGroup == g
              && 0 <= g * blockSize + index / 8 < groups * blockSize
              && Pos(Released(n)) == 8 * (g * blockSize + index / 8) + index % 8
              && Unit(Pos(Released(n))) == Released(n) && InGroup(Pos(Released(n)))
              && (Released(n) == 0 ==> n == 0)
    {
      var g, index := n / numPerGroup, n % numPerGroup;
      GroupEntry(g, index, blockSize, blocksPerGroup, groups);
      GroupEntryByte(g, index, blockSize, blocksPerGroup, groups);
      assert Released(n) == 0 ==> n == 0 by {
        MulMonotone(1, g, blocksPerGroup);
      }
    }

    lemma ClearPosition(byte: nat, k: nat)
      requires Valid() && byte < groups * blockSize && k < 8 && InGroup(8 * byte + k)
      ensures var (g, index) := (byte / blockSize, byte % blockSize * 8 + k);
              && 0 <= g && index < blocksPerGroup
              && Unit(8 * byte + k) == g * blocksPerGroup + index && Unit(8 * byte + k) / blocksPerGroup == g < groups
    {
      ByteArithmetic(byte, k, blockSize);
      DivLess(byte, groups, blockSize);
      GroupEntry(byte / blockSize, byte % blockSize * 8 + k, blockSize, blocksPerGroup, groups);
    }

    // When does handing an allocated number back release the very unit it stood for?  Exactly in
    // group 0, or when the two divisors coincide.
    lemma ReleasedIsSame(n: nat)
      requires Valid() && n % blocksPerGroup < numPerGroup
      ensures Released(n) == n <==> n < blocksPerGroup || numPerGroup == blocksPerGroup
    {
      var h, j := n / numPerGroup, n % numPerGroup;
      assert n == h * numPerGroup + j;
      if n < blocksPerGroup {
        DivModUnique(0, blocksPerGroup, n);
        DivModUnique(0, numPerGroup, n);
      } else if Released(n) == n {
        assert h * (blocksPerGroup - numPerGroup) == 0;
        MulMonotone(1, h, blocksPerGroup - numPerGroup);
      }
    }

    // With one numbering, dealloc takes back what alloc hands out.
    lemma SameNumberingReleases(n: nat)
      requires Valid() && numPerGroup == blocksPerGroup
      ensures Released(n) == n
    {
      DivModIdentity(n, blocksPerGroup);
    }

    lemma GroupInRange(n: nat)
      requires Valid() && numPerGroup == blocksPerGroup && n < Count()
      ensures n / numPerGroup < groups
    {
      DivLess(n, groups, blocksPerGroup);
    }

    // alloc and dealloc agree on the units of the volume.
    ghost predicate SameNumbering() {
      groups == 1 || numPerGroup == blocksPerGroup
    }

    ghost predicate IsUnit(n: nat)
      requires Valid()
    {
      n < Count() && n % blocksPerGroup < numPerGroup
    }

    lemma UnitReleases(n: nat)
      requires Valid() && SameNumbering() && IsUnit(n)
      ensures Released(n) == n
    {
      assert groups == 1 ==> n < blocksPerGroup;
      ReleasedIsSame(n);
    }

    lemma UnitGroup(n: nat)
      requires Valid() && SameNumbering() && IsUnit(n)
      ensures n / numPerGroup < groups
    {
      if numPerGroup == blocksPerGroup {
        GroupInRange(n);
      } else {
        SmallQuotient(n, blocksPerGroup, numPerGroup);
      }
    }
  }

  lemma SmallQuotient(n: nat, big: nat, small: nat)
    requires 0 < small <= big && n < big && n % big < small
    ensures n / small == 0
  {
    DivModUnique(0, big, n);
    DivModUnique(0, small, n);
  }

  // clear holds exactly the positions of the zero bits.
  ghost predicate Decodes(bits: seq<bv8>, clear: set<nat>) {
    && (forall p | p in clear :: p < 8 * |bits|)
    && (forall p: nat {:trigger BitAt(bits, p)} | p < 8 * |bits| :: p in clear <==> !BitAt(bits, p))
  }

  lemma SetBitDecodes(bits: seq<bv8>, clear: set<nat>, byte: nat, k: nat)
    requires Decodes(bits, clear) && byte < |bits| && k < 8
    ensures Decodes(bits[byte := WithBit(bits[byte], k)], clear - {8 * byte + k})
  {
    var after := bits[byte := WithBit(bits[byte], k)];
    forall p: nat | p < 8 * |bits|
      ensures p in clear - {8 * byte + k} <==> !BitAt(after, p)
    {
      assert p in clear <==> !BitAt(bits, p);
      SetBit(bits[byte], k, p % 8);
    }
  }

  lemma ClearBitDecodes(bits: seq<bv8>, clear: set<nat>, byte: nat, k: nat)
    requires Decodes(bits, clear) && byte < |bits| && k < 8
    ensures Decodes(bits[byte := WithoutBit(bits[byte], k)], clear + {8 * byte + k})
  {
    var after := bits[byte := WithoutBit(bits[byte], k)];
    forall p: nat | p < 8 * |bits|
      ensures p in clear + {8 * byte + k} <==> !BitAt(after, p)
    {
      assert p in clear <==> !BitAt(bits, p);
      ClearBit(bits[byte], k, p % 8);
    }
  }

  lemma FullByteDecodes(bits: seq<bv8>, clear: set<nat>, byte: nat)
    requires Decodes(bits, clear) && byte < |bits| && bits[byte] == 0xff
    ensures forall p: nat | 8 * byte <= p < 8 * byte + 8 :: p !in clear
  {
    forall p: nat | 8 * byte <= p < 8 * byte + 8
      ensures p !in clear
    {
      AllBitsSet(p % 8);
      assert BitAt(bits, p);
    }
  }

  lemma OtherByteDecodes(bits: seq<bv8>, clear: set<nat>, byte: nat)
    requires Decodes(bits, clear) && byte < |bits| && bits[byte] != 0xff
    ensures exists p | p in clear :: 8 * byte <= p < 8 * byte + 8
  {
    SomeBitClear(bits[byte]);
    var k: nat :| k < 8 && !Bit(bits[byte], k);
    assert !BitAt(bits, 8 * byte + k);
    assert 8 * byte + k in clear;
  }

  lemma BitDecodes(bits: seq<bv8>, clear: set<nat>, byte: nat, k: nat)
    requires Decodes(bits, clear) && byte < |bits| && k < 8
    ensures 8 * byte + k in clear <==> bits[byte] & Mask(k) == 0
    ensures 8 * byte + k in clear <==> !Bit(bits[byte], k)
  {
    assert BitAt(bits, 8 * byte + k) == Bit(bits[byte], k);
  }

  // A bitmap is determined by its clear positions.
  lemma DecodesOnce(bits: seq<bv8>, bits': seq<bv8>, clear: set<nat>)
    requires |bits| == |bits'| && Decodes(bits, clear) && Decodes(bits', clear)
    ensures bits == bits'
  {
    forall i | 0 <= i < |bits|
      ensures bits[i] == bits'[i]
    {
      forall k: nat | k < 8
        ensures Bit(bits[i], k) == Bit(bits'[i], k)
      {
        assert BitAt(bits, 8 * i + k) == BitAt(bits', 8 * i + k);
      }
      ByteIsItsBits(bits[i], bits'[i]);
    }
  }

  class UsageBitmap {
    const geo: Geometry
    const bits: array<bv8>
    const groupFree: array<nat>
    var numFree: nat
    // The positions of the clear bits, and the units they stand for (numbers without the shift by
    // firstNum).
    ghost var clear: set<nat>
    ghost var free: set<nat>

    // A bitmap in which every bit is set.
    constructor Full(geo: Geometry)
      requires geo.Valid()
      ensures Valid() && this.geo == geo && free == {} && fresh(bits) && fresh(groupFree)
    {
      this.geo := geo;
      this.bits := new bv8[geo.groups * geo.blockSize](_ => 0xff);
      this.groupFree := new nat[geo.groups](_ => 0);
      this.numFree, this.clear, this.free := 0, {}, {};
      new;
      forall p: nat | p < 8 * bits.Length
        ensures BitAt(bits[..], p)
      {
        AllBitsSet(p % 8);
      }
      assert forall g: nat | g < geo.groups :: FreeIn(g) == {};
    }

    // The free units of one group.
    ghost function FreeIn(g: nat): set<nat>
      reads this
      requires geo.Valid()
    {
      set n | n in free && n / geo.blocksPerGroup == g
    }

    ghost predicate Valid()
      reads this, bits, groupFree
    {
      && geo.Valid()
      && bits as object != groupFree
      && bits.Length == geo.groups * geo.blockSize
      && Decodes(bits[..], clear)
      && geo.Paired(clear, free)
      // Number 0 is alloc's failure value.
      && (geo.firstNum == 0 ==> 0 !in free)
      // The counters are the numbers of clear bits.
      && Counted()
    }

    // The sizes of the free sets follow when unit n leaves or enters them.
    twostate lemma CountsFollow(n: nat)
      requires geo.Valid()
      requires if n in old(free) then free == old(free) - {n} else free == old(free) + {n}
      ensures |free| == old(|free|) + if n in old(free) then -1 else 1
      ensures forall g: nat | g != n / geo.blocksPerGroup :: FreeIn(g) == old(FreeIn(g))
      ensures var g := n / geo.blocksPerGroup;
              |FreeIn(g)| == old(|FreeIn(g)|) + if n in old(free) then -1 else 1
    {
      var g := n / geo.blocksPerGroup;
      if n in old(free) {
        assert FreeIn(g) == old(FreeIn(g)) - {n};
      } else {
        assert FreeIn(g) == old(FreeIn(g)) + {n};
      }
    }

    // Only units can be free.
    lemma FreeIsUnit(n: nat)
      requires geo.Valid() && geo.Paired(clear, free) && n in free
      ensures geo.IsUnit(n)
    {
      assert geo.Pos(n) in clear && geo.InGroup(geo.Pos(geo.Unit(geo.Pos(n))));
      UnitRoundTrip(n, geo.blockSize, geo.blocksPerGroup, geo.groups);
    }

    // The first clear bit of a scan stands for the lowest free unit.
    lemma FirstClearIsLowest(pos: nat)
      requires geo.Valid() && geo.Paired(clear, free) && pos in clear
      requires forall p: nat | p < pos :: p !in clear
      ensures geo.Unit(pos) in free && forall m | m in free :: geo.Unit(pos) <= m
    {
      forall m | m in free
        ensures geo.Unit(pos) <= m
      {
        assert geo.Pos(m) in clear && geo.Pos(geo.Unit(pos)) == pos;
        if m < geo.Unit(pos) {
          PosMonotone(m, geo.Unit(pos), geo.blockSize, geo.blocksPerGroup);
        }
      }
    }

    lemma FreeIffClear(n: nat)
      requires geo.Valid() && geo.Paired(clear, free) && geo.Unit(geo.Pos(n)) == n
      ensures n in free <==> geo.Pos(n) in clear
    {
    }

    method IsClear(byte: nat, k: nat) returns (c: bool)
      requires Decodes(bits[..], clear) && byte < bits.Length && k < 8
      ensures c <==> 8 * byte + k in clear
    {
      BitDecodes(bits[..], clear, byte, k);
      c := bits[byte] & Mask(k) == 0;
    }

    lemma SomeClear()
      requires geo.Valid() && geo.Paired(clear, free) && free != {}
      ensures clear != {}
    {
      var n :| n in free;
      assert geo.Pos(n) in clear;
    }

    // The part of Valid about the counters.
    ghost predicate Counted()
      reads this, groupFree
      requires geo.Valid()
    {
      && numFree == |free|
      && groupFree.Length == geo.groups
      && (forall g: nat | g < geo.groups :: groupFree[g] == |FreeIn(g)|)
    }

    // One bit is set, and one is cleared.
    method SetBitAt(byte: nat, k: nat)
      requires Decodes(bits[..], clear) && byte < bits.Length && k < 8 && 8 * byte + k in clear
      modifies this`clear, bits
      ensures Decodes(bits[..], clear) && clear == old(clear) - {8 * byte + k}
      ensures BitAdded(old(bits[..]), bits[..], 8 * byte + k)
    {
      hide Weight, BitAdded, Decodes, Bit, WithBit;
      BitDecodes(bits[..], clear, byte, k);
      AddedAt(bits[..], byte, k);
      SetBitDecodes(bits[..], clear, byte, k);
      ghost var before := bits[..];
      bits[byte] := WithBit(bits[byte], k);
      assert bits[..] == before[byte := WithBit(before[byte], k)];
      clear := clear - {8 * byte + k};
    }

    method ClearBitAt(byte: nat, k: nat)
      requires Decodes(bits[..], clear) && byte < bits.Length && k < 8 && 8 * byte + k !in clear
      modifies this`clear, bits
      ensures Decodes(bits[..], clear) && clear == old(clear) + {8 * byte + k}
      ensures BitTaken(old(bits[..]), bits[..], 8 * byte + k)
    {
      hide Weight, BitTaken, Decodes, Bit, WithoutBit;
      BitDecodes(bits[..], clear, byte, k);
      TakenAt(bits[..], byte, k);
      ClearBitDecodes(bits[..], clear, byte, k);
      ghost var before := bits[..];
      bits[byte] := WithoutBit(bits[byte], k);
      assert bits[..] == before[byte := WithoutBit(before[byte], k)];
      clear := clear + {8 * byte + k};
    }

    // Setting the bit of a free unit, and counting it.
    method MarkUsed(byte: nat, k: nat, g: nat, ghost unit: nat)
      requires Valid() && byte < bits.Length && k < 8 && 8 * byte + k in clear
      requires unit == geo.Unit(8 * byte + k) && unit in free && unit / geo.blocksPerGroup == g < geo.groups
      modifies this, bits, groupFree
      ensures Valid() && free == old(free) - {unit}
      ensures BitAdded(old(bits[..]), bits[..], 8 * byte + k)
    {
      hide BitAdded, Decodes;
      assert unit in FreeIn(g) && groupFree[g] == |FreeIn(g)|;
      SetBitAt(byte, k);
      free := free - {unit};
      assert geo.Paired(clear, free) by {
        geo.PairedWithout(old(clear), old(free), 8 * byte + k);
      }
      numFree := numFree - 1;
      groupFree[g] := groupFree[g] - 1;
      assert Counted() by {
        CountsFollow(unit);
      }
    }

    // Clearing the bit of a used unit, and counting it.
    method MarkFree(byte: nat, k: nat, g: nat, ghost unit: nat)
      requires Valid() && byte < bits.Length && k < 8
      requires unit < geo.Count() && geo.Pos(unit) == 8 * byte + k && geo.Unit(geo.Pos(unit)) == unit
      requires geo.InGroup(geo.Pos(unit)) && unit / geo.blocksPerGroup == g < geo.groups
      requires unit !in free && (geo.firstNum == 0 ==> unit != 0)
      modifies this, bits, groupFree
      ensures Valid() && free == old(free) + {unit}
      ensures BitTaken(old(bits[..]), bits[..], 8 * byte + k)
    {
      hide BitTaken, Decodes;
      FreeIffClear(unit);
      ClearBitAt(byte, k);
      free := free + {unit};
      assert geo.Paired(clear, free) by {
        geo.PairedWith(old(clear), old(free), unit);
      }
      numFree := numFree + 1;
      groupFree[g] := groupFree[g] + 1;
      assert Counted() by {
        CountsFollow(unit);
      }
    }

    // The two scanning loops of alloc: first for a byte with a clear bit, then for the bit.
    method FindClear() returns (byte: nat, k: nat)
      requires Decodes(bits[..], clear)
      ensures (byte < bits.Length && k < 8 && 8 * byte + k in clear) || (byte == bits.Length && clear == {})
      ensures forall p: nat | p < 8 * byte + k :: p !in clear
    {
      byte, k := 0, 0;
      while byte < bits.Length && bits[byte] == 0xff
        invariant byte <= bits.Length
        invariant forall p: nat | p < 8 * byte :: p !in clear
      {
        FullByteDecodes(bits[..], clear, byte);
        byte := byte + 1;
      }
      if byte == bits.Length {
        return;
      }
      OtherByteDecodes(bits[..], clear, byte);
      while k < 8
        invariant k <= 8
        invariant forall p: nat | p < 8 * byte + k :: p !in clear
      {
        var c := IsClear(byte, k);
        if c {
          break;
        }
        k := k + 1;
      }
    }

    /** Takes the lowest free unit; 0 means that no unit is free. */
    method Alloc() returns (num: nat)
      requires Valid()
      modifies this, bits, groupFree
      ensures Valid()
      ensures num == 0 <==> old(free) == {}
      ensures num == 0 ==> free == old(free)
      ensures num != 0 ==> && num - geo.firstNum in old(free)
                           && free == old(free) - {num - geo.firstNum}
                           && forall m | m in old(free) :: num - geo.firstNum <= m
      ensures if num == 0 then bits[..] == old(bits[..]) else BitAdded(old(bits[..]), bits[..], geo.Pos(num - geo.firstNum))
    {
      hide BitAdded;
      num := 0;
      if numFree <= 0 {
        return;
      }
      SomeClear();
      var byte, k := FindClear();
      if byte == bits.Length {
        return;
      }
      var g := byte / geo.blockSize;
      var index := byte % geo.blockSize * 8 + k;
      FirstClearIsLowest(8 * byte + k);
      geo.ClearPosition(byte, k);
      if index >= geo.blocksPerGroup {
        return;
      }
      MarkUsed(byte, k, g, geo.Unit(8 * byte + k));
      num := g * geo.blocksPerGroup + index + geo.firstNum;
    }

    /** Gives a unit back; a unit that is free already stays as it is. */
    method Dealloc(num: nat)
      requires Valid() && geo.firstNum <= num && (num - geo.firstNum) / geo.numPerGroup < geo.groups
      requires geo.firstNum == 0 ==> num != 0
      modifies this, bits, groupFree
      ensures Valid()
      ensures free == old(free) + {geo.Released(num - geo.firstNum)}
      ensures if geo.Released(num - geo.firstNum) in old(free) then bits[..] == old(bits[..])
              else BitTaken(old(bits[..]), bits[..], geo.Pos(geo.Released(num - geo.firstNum)))
    {
      hide BitTaken;
      var n: nat := num - geo.firstNum;
      var g := n / geo.numPerGroup;
      var index := n % geo.numPerGroup;
      geo.ReleasedPosition(n);
      var byte, k := g * geo.blockSize + index / 8, index % 8;
      ghost var unit := geo.Released(n);
      FreeIffClear(unit);
      var isClear := IsClear(byte, k);
      if !isClear {
        MarkFree(byte, k, g, unit);
      }
    }

    // The bitmap and all its counters are determined by the set of free units.
    twostate lemma SameFreeSameState()
      requires old(Valid()) && Valid() && free == old(free)
      ensures bits[..] == old(bits[..]) && numFree == old(numFree) && groupFree[..] == old(groupFree[..])
    {
      forall p
        ensures p in clear <==> p in old(clear)
      {
        if p in clear {
          assert geo.Unit(p) in free && geo.Pos(geo.Unit(p)) == p;
        }
        if p in old(clear) {
          assert geo.Unit(p) in free && geo.Pos(geo.Unit(p)) == p;
        }
      }
      assert clear == old(clear);
      DecodesOnce(bits[..], old(bits[..]), clear);
      assert forall g: nat | g < geo.groups :: FreeIn(g) == old(FreeIn(g));
    }

    // The bit of a unit says whether the unit is free, and so does its digit.
    lemma BitOfUnit(n: nat)
      requires Valid() && geo.IsUnit(n)
      ensures geo.Pos(n) < 8 * bits.Length
      ensures BitAt(bits[..], geo.Pos(n)) <==> n !in free
      ensures Digit(bits[geo.Pos(n) / 8], geo.Pos(n) % 8) == if n in free then 0 else 1
    {
      BitLength(geo.Pos(n)) by { UnitRoundTrip(n, geo.blockSize, geo.blocksPerGroup, geo.groups); }
      BitIsDigit(bits[geo.Pos(n) / 8], geo.Pos(n) % 8);
      UnitRoundTrip(n, geo.blockSize, geo.blocksPerGroup, geo.groups);
      assert geo.Unit(geo.Pos(n)) == n;
      BitLength(geo.Pos(n));
      assert n in free <==> geo.Pos(n) in clear;
    }

    lemma BitLength(pos: nat)
      requires bits.Length == geo.groups * geo.blockSize && pos < geo.groups * (8 * geo.blockSize)
      ensures pos < 8 * bits.Length
    {
      assert geo.groups * (8 * geo.blockSize) == 8 * (geo.groups * geo.blockSize);
    }
  }
}
