/** 64-bit division for a machine of 32-bit words: the support routines of arith64.c. */
module Arith64 {
  import opened Arithmetic

  const W64 := 0x1_0000_0000_0000_0000
  const ONES := 0xffff_ffff_ffff_ffff
  const TOP := 0x8000_0000_0000_0000

  type u64 = x: nat | x < 0x1_0000_0000_0000_0000
  type s64 = x: int | -0x8000_0000_0000_0000 <= x < 0x8000_0000_0000_0000

  // The bitwise operators of C on unsigned numbers.
  function And(x: nat, y: nat): nat {
    if x == 0 || y == 0 then 0 else 2 * And(x / 2, y / 2) + (x % 2) * (y % 2)
  }

  function Or(x: nat, y: nat): nat {
    if x == 0 then y else if y == 0 then x else 2 * Or(x / 2, y / 2) + if x % 2 + y % 2 > 0 then 1 else 0
  }

  function Xor(x: nat, y: nat): nat {
    if x == 0 then y else if y == 0 then x else 2 * Xor(x / 2, y / 2) + (x + y) % 2
  }

  // The powers of two.
  function Two(k: nat): (t: nat)
    ensures t > 0
  {
    PowPositive(2, k);
    Pow(2, k)
  }

  // Shifts of 64-bit numbers.
  function Shl(x: nat, k: nat): u64 {
    x * Two(k) % W64
  }

  function Shr(x: nat, k: nat): nat {
    Quot(x, Two(k))
  }

  function Quot(x: nat, m: nat): nat
    requires m > 0
  {
    x / m
  }

  lemma {:induction false} TwoSum(j: nat, k: nat)
    ensures Two(j + k) == Two(j) * Two(k)
  {
    if j > 0 {
      TwoSum(j - 1, k);
      assert Two(j + k) == 2 * Two(j - 1 + k) == 2 * (Two(j - 1) * Two(k)) == Two(j) * Two(k);
    }
  }

  lemma NextPower(k: nat)
    ensures Two(k + 1) == 2 * Two(k)
  {
  }

  lemma {:induction false} TwoMonotone(j: nat, k: nat)
    requires j <= k
    ensures Two(j) <= Two(k)
  {
    if j < k {
      TwoMonotone(j, k - 1);
      NextPower(k - 1);
    }
  }

  lemma TwoConstants()
    ensures Two(1) == 2 && Two(2) == 4 && Two(4) == 16 && Two(8) == 0x100 && Two(16) == 0x1_0000
    ensures Two(32) == 0x1_0000_0000 && Two(48) == 0x1_0000_0000_0000 && Two(56) == 0x100_0000_0000_0000
    ensures Two(60) == 0x1000_0000_0000_0000 && Two(62) == 0x4000_0000_0000_0000 && Two(63) == TOP && Two(64) == W64
  {
    hide Two;
    assert Two(0) == 1 by { NoShift(); }
    NextPower(0);
    TwoSum(1, 1);
    TwoSum(2, 2);
    TwoSum(4, 4);
    TwoSum(8, 8);
    TwoSum(16, 16);
    TwoSum(32, 16);
    TwoSum(48, 8);
    TwoSum(56, 4);
    TwoSum(60, 2);
    NextPower(62);
    NextPower(63);
  }

  // A low bit beside a number shifted up by one.
  lemma OrLow(x: nat, bit: nat)
    requires bit <= 1
    ensures Or(2 * x, bit) == 2 * x + bit
  {
    assert 2 * x / 2 == x && 2 * x % 2 == 0;
    assert Or(x, 0) == x;
  }

  lemma AndLow(x: nat)
    ensures And(x, 1) == x % 2
  {
    assert And(x / 2, 0) == 0;
  }

  // All k low bits.
  lemma {:induction false} AndAll(x: nat, k: nat)
    requires x < Two(k)
    ensures And(x, Two(k) - 1) == x
  {
    if k > 0 && x > 0 {
      AndAll(x / 2, k - 1);
      LowBits(k);
    }
  }

  // Inverting all k low bits.
  lemma {:induction false} XorAll(x: nat, k: nat)
    requires x < Two(k)
    ensures Xor(x, Two(k) - 1) == Two(k) - 1 - x
  {
    hide Two;
    NoShift();
    if k > 0 && x > 0 {
      NextPower(k - 1);
      LowBits(k);
      XorAll(x / 2, k - 1);
      var m := Two(k - 1);
      XorOdd(x, m - 1);
    }
  }

  lemma XorOdd(x: nat, z: nat)
    requires x > 0
    ensures Xor(x, 2 * z + 1) == 2 * Xor(x / 2, z) + 1 - x % 2
  {
    assert (2 * z + 1) / 2 == z;
    Parity(x, z);
  }

  lemma Parity(x: nat, z: nat)
    ensures (x + (2 * z + 1)) % 2 == 1 - x % 2
  {
    DivModIdentity(x, 2);
    DivModUnique(x / 2 + z + if x % 2 == 1 then 1 else 0, 2, 1 - x % 2);
  }

  lemma LowBits(k: nat)
    requires k > 0
    ensures (Two(k) - 1) / 2 == Two(k - 1) - 1 && (Two(k) - 1) % 2 == 1
  {
    var m := Two(k - 1);
    assert Two(k) - 1 == 2 * (m - 1) + 1;
  }

  // Bits from k on.
  lemma {:induction false} XorHigh(x: nat, y: nat, k: nat)
    ensures Shr(Xor(x, y), k) == Xor(Shr(x, k), Shr(y, k))
  {
    hide Xor, Two;
    NextPower(k);
    if k == 0 {
      assert Two(0) == 1 by { NoShift(); }
    } else {
      NextPower(k - 1);
      XorHalf(x, y);
      XorHigh(x / 2, y / 2, k - 1);
      HalfThenRest(Xor(x, y), Two(k - 1));
      HalfThenRest(x, Two(k - 1));
      HalfThenRest(y, Two(k - 1));
    }
  }

  lemma NoShift()
    ensures Two(0) == 1
  {
  }

  lemma XorHalf(x: nat, y: nat)
    ensures Xor(x, y) / 2 == Xor(x / 2, y / 2)
  {
    if x != 0 && y != 0 {
      DivModUnique(Xor(x / 2, y / 2), 2, (x + y) % 2);
    }
  }

  lemma HalfThenRest(x: nat, m: nat)
    requires m > 0
    ensures x / (2 * m) == x / 2 / m
  {
    DivModIdentity(x, 2 * m);
    var q, r := x / (2 * m), x % (2 * m);
    assert x / 2 == q * m + r / 2 by { assert x == 2 * (q * m) + r; }
    DivModUnique(q, m, r / 2);
  }

  // Bits from k on are zero exactly in the numbers below Two(k): what a test against a high mask finds out.
  lemma {:induction false} AndHigh(x: nat, k: nat, n: nat)
    requires k <= n && x < Two(n)
    ensures Two(k) <= Two(n) && (And(x, Two(n) - Two(k)) == 0 <==> x < Two(k))
  {
    TwoMonotone(k, n);
    NextPower(n);
    NextPower(k);
    if k == 0 {
      AndAll(x, n);
    } else if x > 0 {
      NextPower(n - 1);
      NextPower(k - 1);
      AndHigh(x / 2, k - 1, n - 1);
      assert (Two(n) - Two(k)) / 2 == Two(n - 1) - Two(k - 1) && (Two(n) - Two(k)) % 2 == 0;
    }
  }

  // The shift that one line of __clzdi2 finds: s if the bits under the mask are all zero.
  function Zeros(a: u64, mask: u64, s: nat): nat {
    if And(a, mask) == 0 then s else 0
  }

  // a0 shifted by n has lost no bits, and its highest bit is among the top ones.
  ghost predicate Normalized(a0: u64, a: u64, n: nat, top: nat) {
    a == a0 * Two(n) && n + top <= 64 && Two(64 - top) <= a
  }

  lemma ZerosSkipped(a0: u64, a: u64, n: nat, s: nat, mask: u64)
    requires 0 < s <= 32 && Normalized(a0, a, n, 2 * s) && mask == Two(64) - Two(64 - s)
    ensures var b := Zeros(a, mask, s); Normalized(a0, Shl(a, b), n + b, s)
  {
    hide Two, And, Normalized;
    TwoConstants();
    AndHigh(a, 64 - s, 64);
    if And(a, mask) == 0 {
      ShiftedUp(a0, a, n, s);
    } else {
      assert Shl(a, 0) == a by { NoShift(); }
      Wider(a0, a, n, s);
    }
  }

  lemma Wider(a0: u64, a: u64, n: nat, s: nat)
    requires 0 < s <= 32 && Normalized(a0, a, n, 2 * s) && a >= Two(64 - s)
    ensures Normalized(a0, a, n, s)
  {
  }

  lemma ShiftedUp(a0: u64, a: u64, n: nat, s: nat)
    requires 0 < s <= 32 && Normalized(a0, a, n, 2 * s) && a < Two(64 - s)
    ensures Normalized(a0, Shl(a, s), n + s, s)
  {
    hide Two, Shl;
    TwoConstants();
    TwoSum(n, s);
    TwoSum(64 - s, s);
    TwoSum(64 - 2 * s, s);
    NextPower(s);
    Scaled(a, Two(64 - 2 * s), Two(64 - s), Two(s));
    Associative(a0, Two(n), Two(s));
    FitsShl(a, s);
  }

  lemma Scaled(a: nat, low: nat, high: nat, m: nat)
    requires low <= a < high && m > 0
    ensures low * m <= a * m < high * m
  {
    MulMonotone(low, a, m);
    MulMonotone(a + 1, high, m);
    OneMore(a, m);
  }

  lemma Associative(x: nat, y: nat, z: nat)
    ensures x * y * z == x * (y * z)
  {
  }

  lemma FitsShl(a: nat, s: nat)
    ensures a * Two(s) < W64 ==> Shl(a, s) == a * Two(s)
  {
  }

  lemma LeadingZeros(a0: u64, a: u64, n: nat)
    requires Normalized(a0, a, n, 1)
    ensures n <= 63 && Two(63 - n) <= a0 < Two(64 - n)
  {
    hide Two;
    TwoConstants();
    TwoSum(63 - n, n);
    TwoSum(64 - n, n);
    NextPower(n);
    MulMonotone(a0 + 1, Two(63 - n), Two(n));
    OneMore(a0, Two(n));
    MulMonotone(Two(64 - n), a0, Two(n));
  }

  lemma NotShifted(a0: u64)
    ensures a0 > 0 ==> Normalized(a0, a0, 0, 64)
  {
  }

  // __clzdi2: the number of leading zero bits.
  method ClzDi2(a0: u64) returns (n: nat)
    ensures n <= 63 && (a0 > 0 ==> Two(63 - n) <= a0 < Two(64 - n))
  {
    hide Two, And, Normalized, Shl;
    TwoConstants();
    NotShifted(a0);
    var a := a0;
    n := 0;
    var b := Zeros(a, 0xffff_ffff_0000_0000, 32);
    if a0 > 0 { ZerosSkipped(a0, a, n, 32, 0xffff_ffff_0000_0000); }
    n, a := n + b, Shl(a, b);
    b := Zeros(a, 0xffff_0000_0000_0000, 16);
    if a0 > 0 { ZerosSkipped(a0, a, n, 16, 0xffff_0000_0000_0000); }
    n, a := n + b, Shl(a, b);
    b := Zeros(a, 0xff00_0000_0000_0000, 8);
    if a0 > 0 { ZerosSkipped(a0, a, n, 8, 0xff00_0000_0000_0000); }
    n, a := n + b, Shl(a, b);
    b := Zeros(a, 0xf000_0000_0000_0000, 4);
    if a0 > 0 { ZerosSkipped(a0, a, n, 4, 0xf000_0000_0000_0000); }
    n, a := n + b, Shl(a, b);
    b := Zeros(a, 0xc000_0000_0000_0000, 2);
    if a0 > 0 { ZerosSkipped(a0, a, n, 2, 0xc000_0000_0000_0000); }
    n, a := n + b, Shl(a, b);
    if a0 > 0 {
      ZerosSkipped(a0, a, n, 1, 0x8000_0000_0000_0000);
      LeadingZeros(a0, Shl(a, Zeros(a, 0x8000_0000_0000_0000, 1)), n + Zeros(a, 0x8000_0000_0000_0000, 1));
    }
    n := n + Zeros(a, 0x8000_0000_0000_0000, 1);
  }

  // The sign bit of a difference, spread over all bits.
  function SignMask(x: u64): u64 {
    if x >= TOP then ONES else 0
  }

  // One bit of the numerator a0 after the other moves from register a to rem, from the top; the bits of the
  // quotient move into a from below, the last of them through wrap.
  ghost predicate Dividing(a0: nat, b: nat, k: nat, rem: nat, a: nat, wrap: nat, q: nat) {
    && k <= 63 && rem < b && (wrap == 0 || wrap == ONES)
    && a0 / Two(k) == (2 * q + wrap % 2) * b + rem
    && a == a0 % Two(k) * Two(64 - k) + q && q < Two(64 - k)
  }

  lemma UpperAndLower(x: nat, m: nat)
    requires m > 0
    ensures x % (2 * m) == x / m % 2 * m + x % m
    ensures x / m == 2 * (x / (2 * m)) + x / m % 2
  {
    var q, bit, r := x / m / 2, x / m % 2, x % m;
    DivModIdentity(x, m);
    Doubled(q, bit, m, r);
    MulBound(bit, 2, m, r);
    DivModUnique(q, 2 * m, bit * m + r);
  }

  lemma Doubled(q: nat, bit: nat, m: nat, r: nat)
    ensures (2 * q + bit) * m + r == q * (2 * m) + (bit * m + r)
  {
  }

  // The top bit of the register is the next bit of the numerator.
  lemma NextBit(a0: u64, b: u64, k: nat, rem: nat, a: nat, wrap: nat, q: nat)
    requires Dividing(a0, b, k, rem, a, wrap, q) && k > 0
    ensures var bit := a0 / Two(k - 1) % 2;
            a < W64 && a / TOP == bit && 2 * a % W64 == a0 % Two(k - 1) * Two(65 - k) + 2 * q
  {
    hide Two;
    TwoConstants();
    NextPower(k - 1);
    NextPower(64 - k);
    TwoSum(k - 1, 64 - k);
    var (m, t) := (Two(k - 1), Two(64 - k));
    var (bit, low) := (a0 / m % 2, a0 % m);
    UpperAndLower(a0, m);
    MulBound(low, m, t, q);
    Register(bit, m, low, t, q);
    DivModUnique(bit, TOP, low * t + q);
    DivModUnique(bit, W64, 2 * (low * t + q));
  }

  lemma Register(bit: nat, m: nat, low: nat, t: nat, q: nat)
    ensures (bit * m + low) * t + q == bit * (m * t) + (low * t + q)
    ensures low * (2 * t) + 2 * q == 2 * (low * t + q)
  {
  }

  // The sign of b - rem - 1 decides the comparison, although the difference may not fit into 63 bits.
  lemma Compared(b: u64, rem: u64)
    requires rem <= 2 * b - 1 && (b >= TOP ==> rem >= b)
    ensures SignMask((b - rem - 1) % W64) == if b > rem then 0 else ONES
  {
  }

  lemma Masked(b: u64, wrap: u64)
    requires wrap == 0 || wrap == ONES
    ensures And(b, wrap) == if wrap == 0 then 0 else b
    ensures And(wrap, 1) == wrap % 2 == if wrap == 0 then 0 else 1
  {
    TwoConstants();
    AndAll(b, 64);
    AndLow(wrap);
  }

  // One round of the long division.
  lemma Round(a0: u64, b: u64, k: nat, rem: nat, a: nat, wrap: nat, q: nat, rem1: nat, wrap1: nat)
    requires Dividing(a0, b, k, rem, a, wrap, q) && k > 0 && b <= a0 && (b >= TOP ==> k == 1)
    requires rem1 == 2 * rem + a / TOP && wrap1 == if b > rem1 then 0 else ONES
    ensures rem1 <= a0 && rem1 <= 2 * b - 1 && (b >= TOP ==> rem1 >= b) && (wrap == 0 || wrap == ONES)
    ensures Dividing(a0, b, k - 1, if wrap1 == 0 then rem1 else rem1 - b, 2 * a % W64 + wrap % 2, wrap1, 2 * q + wrap % 2)
  {
    hide Two;
    NextBit(a0, b, k, rem, a, wrap, q);
    NextPower(k - 1);
    NextPower(64 - k);
    var m := Two(k - 1);
    UpperAndLower(a0, m);
    var done := 2 * q + wrap % 2;
    NextQuotient(done, b, rem, a / TOP);
    NotMore(a0, m);
    MulMonotone(0, 2 * done, b);
    OneMore(2 * done, b);
    if b >= TOP {
      NoShift();
      LargeDivisor(a0, b, done);
    }
    Quotient(2 * done, b, rem1);
  }

  lemma NotMore(x: nat, m: nat)
    requires m > 0
    ensures 0 <= x / m <= x
  {
    DivModIdentity(x, m);
    assert x / m >= 0;
    MulMonotone(1, m, x / m);
  }

  // A quotient by such a divisor has one bit.
  lemma LargeDivisor(a0: u64, b: u64, done: nat)
    requires b >= TOP && 2 * done * b <= a0
    ensures done == 0
  {
    MulMonotone(2, 2 * done, b);
  }

  lemma Quotient(q: nat, b: nat, rem: nat)
    ensures rem >= b ==> q * b + rem == (q + 1) * b + (rem - b)
  {
  }

  lemma NextQuotient(done: nat, b: nat, rem: nat, bit: nat)
    ensures 2 * (done * b + rem) + bit == 2 * done * b + (2 * rem + bit)
  {
  }

  // One pass of the loop, in the operations of the loop.
  lemma Pass(a0: u64, b: u64, k: nat, rem: u64, a: u64, wrap: u64, q: nat)
    requires Dividing(a0, b, k, rem, a, wrap, q) && k > 0 && b <= a0 && (b >= TOP ==> k == 1)
    ensures var rem1 := Or(Shl(rem, 1), Shr(a, 63));
            var wrap1 := SignMask((b - rem1 - 1) % W64);
            && And(b, wrap1) <= rem1 < W64 && Or(Shl(a, 1), And(wrap, 1)) < W64
            && Dividing(a0, b, k - 1, rem1 - And(b, wrap1), Or(Shl(a, 1), And(wrap, 1)), wrap1, 2 * q + wrap % 2)
  {
    hide Two, And, Or, Dividing;
    TwoConstants();
    var rem1 := 2 * rem + a / TOP;
    var wrap1 := if b > rem1 then 0 else ONES;
    Round(a0, b, k, rem, a, wrap, q, rem1, wrap1);
    OrLow(rem, a / TOP);
    Compared(b, rem1);
    Masked(b, wrap1);
    Masked(b, wrap);
    EvenRegister(a);
    OrLow(2 * a % W64 / 2, wrap % 2);
  }

  lemma EvenRegister(a: u64)
    ensures 2 * a % W64 / 2 * 2 == 2 * a % W64 && a / TOP <= 1
  {
  }

  // A division traps on zero.
  datatype Division = Trap | Divided(quotient: u64, remainder: u64)

  lemma Start(a0: u64, b: u64, lz: nat, lza: nat)
    requires 2 <= b <= a0 && lz <= 63 && lza <= 63
    requires Two(63 - lz) <= b < Two(64 - lz) && Two(63 - lza) <= a0 < Two(64 - lza)
    ensures 1 <= lz - lza + 1 <= 63 && Shr(a0, lz - lza + 1) < W64 && (b >= TOP ==> lz - lza + 1 == 1)
    ensures Dividing(a0, b, lz - lza + 1, Shr(a0, lz - lza + 1), Shl(a0, 64 - (lz - lza + 1)), 0, 0)
  {
    hide Two;
    TwoConstants();
    if lz < lza {
      TwoMonotone(64 - lza, 63 - lz);
    }
    if lz > 0 {
      TwoMonotone(64 - lz, 63);
    }
    NoShift();
    NextPower(0);
    var k := lz - lza + 1;
    NextPower(k);
    NextPower(64 - k);
    TwoSum(63 - lz, k);
    DivLess(a0, Two(63 - lz), Two(k));
    TwoSum(k, 64 - k);
    FirstRegister(a0, Two(k), Two(64 - k));
  }

  // What is shifted out of the register to the left is gone.
  lemma FirstRegister(a0: nat, m: nat, t: nat)
    requires m > 0 && t > 0 && m * t == W64
    ensures a0 * t % W64 == a0 % m * t
  {
    DivModIdentity(a0, m);
    MulBound(a0 % m, m, t, 0);
    Distributed(a0 / m, m, a0 % m, t);
    DivModUnique(a0 / m, W64, a0 % m * t);
  }

  lemma Distributed(q: nat, m: nat, r: nat, t: nat)
    ensures (q * m + r) * t == q * (m * t) + r * t
  {
  }

  // After the last bit the register holds the quotient but for its last bit.
  lemma Finish(a0: u64, b: u64, rem: u64, a: u64, wrap: u64, q: nat)
    requires Dividing(a0, b, 0, rem, a, wrap, q) && b > 0
    ensures var quotient := Or(Shl(a, 1), And(wrap, 1));
            quotient < W64 && quotient * b + rem == a0 && rem < b
  {
    hide And, Or, Dividing, Two;
    LastState(a0, b, rem, a, wrap, q);
    NextPower(0);
    NoShift();
    var quotient := 2 * q + wrap % 2;
    MulMonotone(1, b, quotient);
    Masked(b, wrap);
    OrLow(q, wrap % 2);
  }

  lemma LastState(a0: u64, b: u64, rem: u64, a: u64, wrap: u64, q: nat)
    requires Dividing(a0, b, 0, rem, a, wrap, q)
    ensures a0 == (2 * q + wrap % 2) * b + rem && a == q && rem < b && (wrap == 0 || wrap == ONES)
  {
    hide Two;
    NoShift();
  }

  // The long division: one pass for each bit.
  method LongDivide(a0: u64, b: u64) returns (quotient: u64, remainder: u64)
    requires 2 <= b <= a0
    ensures quotient * b + remainder == a0 && remainder < b
  {
    hide Two, And, Or, Dividing, Shl, Shr, SignMask;
    var lz := ClzDi2(b);
    var lza := ClzDi2(a0);
    Start(a0, b, lz, lza);
    var bits := lz - lza + 1;
    var rem: u64 := Shr(a0, bits);
    var a: u64 := Shl(a0, 64 - bits);
    var wrap: u64 := 0;
    ghost var q: nat := 0;
    while bits > 0
      invariant 0 <= bits <= 63 && Dividing(a0, b, bits, rem, a, wrap, q) && (b >= TOP ==> bits <= 1)
    {
      Pass(a0, b, bits, rem, a, wrap, q);
      q := 2 * q + wrap % 2;
      bits := bits - 1;
      rem := Or(Shl(rem, 1), Shr(a, 63));
      a := Or(Shl(a, 1), And(wrap, 1));
      wrap := SignMask((b - rem - 1) % W64);
      rem := rem - And(b, wrap);
    }
    Finish(a0, b, rem, a, wrap, q);
    quotient, remainder := Or(Shl(a, 1), And(wrap, 1)), rem;
  }

  /** __divmoddi4: quotient and remainder. */
  method DivModDi4(a: u64, b: u64) returns (r: Division)
    ensures if b == 0 then r == Trap else r.Divided? && r.quotient * b + r.remainder == a && r.remainder < b
  {
    if b > a {
      return Divided(0, a);
    }
    if b / 0x1_0000_0000 == 0 {
      if b == 0 {
        return Trap;
      }
      if b == 1 {
        return Divided(a, 0);
      }
      if a / 0x1_0000_0000 == 0 {
        DivModIdentity(a, b);
        MulMonotone(1, b, a / b);
        return Divided(a / b, a % b);
      }
    }
    var q, rem := LongDivide(a, b);
    return Divided(q, rem);
  }

  // The same 64 bits, read with and without a sign.
  function Unsigned(x: s64): u64 {
    if x < 0 then x + W64 else x
  }

  function Signed(x: u64): s64 {
    if x >= TOP then x - W64 else x
  }

  // arith64_neg: negates a if b is negative, by inverting and incrementing.
  function Neg(a: u64, b: s64): u64 {
    Wrap(Xor(a, if b >= 0 then 0 else ONES) + if b < 0 then 1 else 0)
  }

  function Wrap(x: nat): u64 {
    x % W64
  }

  lemma Negated(a: u64, b: s64)
    ensures Neg(a, b) == if b < 0 && a > 0 then W64 - a else a
  {
    TwoConstants();
    XorAll(a, 64);
  }

  // The sign of a ^ b: negative exactly when the signs differ.
  lemma SignsDiffer(a: s64, b: s64)
    ensures Xor(Unsigned(a), Unsigned(b)) < W64
    ensures Signed(Xor(Unsigned(a), Unsigned(b))) < 0 <==> (a < 0) != (b < 0)
  {
    hide Two, Xor;
    TwoConstants();
    XorHigh(Unsigned(a), Unsigned(b), 63);
    XorHigh(Unsigned(a), Unsigned(b), 64);
    SmallXors();
  }

  lemma SmallXors()
    ensures Xor(0, 0) == 0 && Xor(0, 1) == 1 && Xor(1, 0) == 1 && Xor(1, 1) == 0
  {
  }

  function Abs(x: int): nat {
    if x < 0 then -x else x
  }

  // Division of C (section 6.5.5 of ISO/IEC 9899:2011): the quotient with its fraction discarded.
  ghost predicate Truncated(a: int, b: int, q: int, r: int) {
    a == q * b + r && Abs(r) < Abs(b) && (r == 0 || (r < 0) == (a < 0))
  }

  // There is one such quotient.
  lemma TruncatedOnce(a: int, b: int, q: int, r: int, q': int, r': int)
    requires Truncated(a, b, q, r) && Truncated(a, b, q', r')
    ensures q' == q && r' == r
  {
    assert (q - q') * b == r' - r;
    FarApart(q - q', b);
  }

  lemma FarApart(x: int, b: int)
    ensures x != 0 ==> Abs(x * b) >= Abs(b)
  {
    if x > 0 {
      MulMonotone(1, x, Abs(b));
    } else if x < 0 {
      MulMonotone(1, -x, Abs(b));
    }
  }

  function WithSign(negative: bool, x: int): int {
    if negative then -x else x
  }

  // What divides the absolute values divides the numbers.
  lemma FromAbsolutes(a: int, b: int, q: nat, r: nat)
    requires b != 0 && q * Abs(b) + r == Abs(a) && r < Abs(b)
    ensures Truncated(a, b, WithSign((a < 0) != (b < 0), q), WithSign(a < 0, r))
  {
  }

  // The one quotient of 64-bit numbers that does not fit into 64 bits.
  predicate Overflows(a: s64, b: s64) {
    a == -0x8000_0000_0000_0000 && b == -1
  }

  datatype SignedResult = SignedTrap | SignedValue(value: s64)

  /** __divdi3: division of C for all operands that it is defined for; the overflowing one wraps around. */
  method DivDi3(a: s64, b: s64) returns (q: SignedResult)
    ensures b == 0 <==> q == SignedTrap
    ensures b != 0 && !Overflows(a, b) ==> Truncated(a, b, q.value, a - q.value * b)
    ensures Overflows(a, b) ==> q.value == a
  {
    hide Xor, Neg;
    Negated(Unsigned(a), a);
    Negated(Unsigned(b), b);
    var d := DivModDi4(Neg(Unsigned(a), a), Neg(Unsigned(b), b));
    if d == Trap {
      return SignedTrap;
    }
    SignsDiffer(a, b);
    Negated(d.quotient, Signed(Xor(Unsigned(a), Unsigned(b))));
    FromAbsolutes(a, b, d.quotient, d.remainder);
    QuotientFits(a, b, d.quotient, d.remainder);
    q := SignedValue(Signed(Neg(d.quotient, Signed(Xor(Unsigned(a), Unsigned(b))))));
  }

  lemma QuotientFits(a: s64, b: s64, q: nat, r: nat)
    requires b != 0 && q * Abs(b) + r == Abs(a)
    ensures q <= Abs(a) && (q == TOP ==> Abs(b) == 1 && a == -0x8000_0000_0000_0000)
  {
    MulMonotone(1, Abs(b), q);
    if Abs(b) >= 2 {
      MulMonotone(2, Abs(b), q);
    }
  }

  /** __moddi3: the remainder that belongs to the quotient of C, without exception. */
  method ModDi3(a: s64, b: s64) returns (r: SignedResult)
    ensures b == 0 <==> r == SignedTrap
    ensures b != 0 ==> exists q :: Truncated(a, b, q, r.value)
  {
    hide Xor, Neg;
    Negated(Unsigned(a), a);
    Negated(Unsigned(b), b);
    var d := DivModDi4(Neg(Unsigned(a), a), Neg(Unsigned(b), b));
    if d == Trap {
      return SignedTrap;
    }
    Negated(d.remainder, a);
    FromAbsolutes(a, b, d.quotient, d.remainder);
    r := SignedValue(Signed(Neg(d.remainder, a)));
  }
}
