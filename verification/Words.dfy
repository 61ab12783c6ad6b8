/** Fixed-width machine words, the C operators on them, and the modular arithmetic
    that the ring buffers, clocks and checksums of the firmware rely on. */
module Words {
  type byte = x: int | 0 <= x < 0x100
  type u16 = x: int | 0 <= x < 0x1_0000
  type u32 = x: int | 0 <= x < 0x1_0000_0000

  /** Conversion of any integer to uint32, i.e. C's unsigned wrap-around. */
  function Wrap(x: int): u32 {
    x % 0x1_0000_0000
  }

  /** The value of a uint32 stored into an int32. */
  function ToInt32(x: u32): int {
    if x < 0x8000_0000 then x else x - 0x1_0000_0000
  }

  function Min(a: int, b: int): int {
    if a < b then a else b
  }

  function Max(a: int, b: int): int {
    if a < b then b else a
  }

  /** Bitwise "and" of two unsigned numbers, bit by bit. */
  function And(a: nat, b: nat): nat {
    if a == 0 || b == 0 then 0 else 2 * And(a / 2, b / 2) + (if a % 2 == 1 && b % 2 == 1 then 1 else 0)
  }

  function Pow2(k: nat): (p: nat)
    ensures p >= 1
  {
    if k == 0 then 1 else 2 * Pow2(k - 1)
  }

  function Pow10(k: nat): nat {
    if k == 0 then 1 else 10 * Pow10(k - 1)
  }

  ghost predicate IsPow2(n: nat) {
    exists k: nat :: Pow2(k) == n
  }

  /** Little-endian 16- and 32-bit loads, as memcpy into a struct performs them. */
  function Le16(b: seq<byte>): u16
    requires |b| == 2
  {
    b[0] as int + 0x100 * (b[1] as int)
  }

  function Le32(b: seq<byte>): u32
    requires |b| == 4
  {
    b[0] as int + 0x100 * (b[1] as int) + 0x1_0000 * (b[2] as int) + 0x100_0000 * (b[3] as int)
  }

  function ToLe32(x: u32): (b: seq<byte>)
    ensures |b| == 4
  {
    [x % 0x100, x / 0x100 % 0x100, x / 0x1_0000 % 0x100, x / 0x100_0000]
  }

  lemma ToLe32RoundTrip(x: u32)
    ensures Le32(ToLe32(x)) == x
  {
    var y := x / 0x100;
    var z := y / 0x100;
    assert x / 0x1_0000 == z;
    assert x / 0x100_0000 == z / 0x100;
  }

  lemma Le32RoundTrip(b: seq<byte>)
    requires |b| == 4
    ensures ToLe32(Le32(b)) == b
  {
    var z: int := b[2] as int + 0x100 * (b[3] as int);
    var y: int := b[1] as int + 0x100 * z;
    var x: int := b[0] as int + 0x100 * y;
    assert x / 0x100 == y && y / 0x100 == z && z / 0x100 == b[3] as int;
    assert x / 0x1_0000 == z && x / 0x100_0000 == b[3] as int;
    assert x % 0x100 == b[0] as int && y % 0x100 == b[1] as int && z % 0x100 == b[2] as int;
  }

  /** The least significant byte comes first. */
  lemma LittleEndian(b0: byte, b1: byte, b2: byte, b3: byte)
    ensures var x := b0 as int + 0x100 * (b1 as int) + 0x1_0000 * (b2 as int) + 0x100_0000 * (b3 as int);
      x < 0x1_0000_0000 && ToLe32(x) == [b0, b1, b2, b3] && Le32([b0, b1, b2, b3]) == x
    ensures Le16([b0, b1]) == b0 as int + 0x100 * (b1 as int)
  {
    Le32RoundTrip([b0, b1, b2, b3]);
  }

  lemma WrapUnique(x: int, q: int, r: u32)
    requires x == q * 0x1_0000_0000 + r
    ensures Wrap(x) == r
  {
  }

  lemma WrapQuotient(x: int)
    ensures x == Wrap(x) + (x / 0x1_0000_0000) * 0x1_0000_0000
  {
  }

  lemma WrapAdd(a: int, b: int)
    ensures Wrap(Wrap(a) + b) == Wrap(a + b)
  {
    hide Wrap;
    WrapQuotient(a);
    WrapQuotient(Wrap(a) + b);
    WrapUnique(a + b, a / 0x1_0000_0000 + (Wrap(a) + b) / 0x1_0000_0000, Wrap(Wrap(a) + b));
  }

  lemma WrapSmall(x: u32)
    ensures Wrap(x) == x
  {
  }

  lemma WrapNegate(x: int)
    ensures Wrap(-x) == if Wrap(x) == 0 then 0 else 0x1_0000_0000 - Wrap(x)
  {
    hide Wrap;
    WrapQuotient(x);
    var q, r := x / 0x1_0000_0000, Wrap(x);
    if r == 0 {
      WrapUnique(-x, -q, 0);
    } else {
      WrapUnique(-x, -q - 1, 0x1_0000_0000 - r);
    }
  }

  /** The wrapped difference does not depend on where the operands wrapped. */
  lemma WrapDifference(a: int, b: int)
    ensures Wrap(Wrap(a) - Wrap(b)) == Wrap(a - b)
  {
    hide Wrap;
    WrapQuotient(a);
    WrapQuotient(b);
    var d := Wrap(a) - Wrap(b);
    WrapQuotient(d);
    WrapUnique(a - b, a / 0x1_0000_0000 - b / 0x1_0000_0000 + d / 0x1_0000_0000, Wrap(d));
  }

  // ---------------------------------------------------------------- modular arithmetic

  /** The remainder for a variable divisor, defined by repeated subtraction so that
      reasoning about ring-buffer cells stays linear. */
  function Mod(x: int, n: nat): (r: nat)
    requires n > 0
    ensures r < n
    decreases if x < 0 then n - x else x
  {
    if x < 0 then Mod(x + n, n) else if x < n then x else Mod(x - n, n)
  }

  lemma {:induction false} ModPlusMultiple(x: int, n: nat, k: int)
    requires n > 0
    ensures Mod(x + k * n, n) == Mod(x, n)
    decreases if k < 0 then -k else k
  {
    if k > 0 {
      assert x + k * n == x + (k - 1) * n + n;
      ModPlusOne(x + (k - 1) * n, n);
      ModPlusMultiple(x, n, k - 1);
    } else if k < 0 {
      assert x + k * n + n == x + (k + 1) * n;
      ModPlusOne(x + k * n, n);
      ModPlusMultiple(x, n, k + 1);
    }
  }

  lemma ModPlusOne(x: int, n: nat)
    requires n > 0
    ensures Mod(x + n, n) == Mod(x, n)
  {
  }

  /** Reducing one summand first changes nothing. */
  lemma {:induction false} ModAdd(a: int, b: int, n: nat)
    requires n > 0
    ensures Mod(Mod(a, n) + b, n) == Mod(a + b, n)
    decreases if a < 0 then n - a else a
  {
    if a < 0 {
      ModAdd(a + n, b, n);
      ModPlusOne(a + b, n);
    } else if a >= n {
      ModAdd(a - n, b, n);
      ModPlusOne(a - n + b, n);
    }
  }

  /** Mod is the mathematical remainder. */
  lemma ModIsRemainder(x: int, n: nat)
    requires n > 0
    ensures Mod(x, n) == x % n
  {
    var q, r := x / n, x % n;
    assert x == r + q * n;
    ModPlusMultiple(r, n, q);
  }

  lemma MulAssoc(a: int, b: int, c: int)
    ensures a * (b * c) == (a * b) * c
  {
  }

  lemma {:induction false} Pow2Add(a: nat, b: nat)
    ensures Pow2(a + b) == Pow2(a) * Pow2(b)
  {
    if a > 0 {
      Pow2Add(a - 1, b);
      assert Pow2(a + b) == 2 * Pow2(a - 1 + b);
    }
  }

  lemma {:induction false} Pow2Grows(a: nat, b: nat)
    requires a <= b
    ensures Pow2(a) <= Pow2(b)
  {
    if a < b {
      Pow2Grows(a, b - 1);
    }
  }

  lemma Pow2Is32()
    ensures Pow2(32) == 0x1_0000_0000
  {
    assert Pow2(8) == 0x100;
    Pow2Add(8, 8);
    Pow2Add(16, 16);
  }

  lemma {:induction false} HalfMod(x: nat, m: nat)
    requires m > 0
    ensures Mod(x, 2 * m) == 2 * Mod(x / 2, m) + x % 2
  {
    if x >= 2 * m {
      HalfMod(x - 2 * m, m);
      assert (x - 2 * m) / 2 == x / 2 - m;
    }
  }

  /** Masking with a power of two minus one is the remainder by that power. */
  lemma {:induction false} AndMask(x: nat, k: nat)
    ensures And(x, Pow2(k) - 1) == Mod(x, Pow2(k))
  {
    if k == 0 {
      AllMultiplesOfOne(x);
    } else {
      var m := Pow2(k - 1);
      AndStep(x, m - 1, 1);
      AndMask(x / 2, k - 1);
      HalfMod(x, m);
    }
  }

  lemma AllMultiplesOfOne(x: nat)
    ensures Mod(x, 1) == 0
  {
  }

  /** One digit of the bitwise "and", with the second operand given as `2 * b + bit`. */
  lemma AndStep(x: nat, b: nat, bit: nat)
    requires bit <= 1
    ensures And(x, 2 * b + bit) == 2 * And(x / 2, b) + (if bit == 1 then x % 2 else 0)
  {
    var y := 2 * b + bit;
    assert y / 2 == b && y % 2 == bit;
  }

  /** Binary digit k. */
  function Bit(x: nat, k: nat): nat {
    if k == 0 then x % 2 else Bit(x / 2, k - 1)
  }

  /** A bit of the bitwise "and" is one exactly where both operands have a one. */
  lemma {:induction false} AndBits(a: nat, b: nat, k: nat)
    ensures Bit(And(a, b), k) == if Bit(a, k) == 1 && Bit(b, k) == 1 then 1 else 0
    decreases k
  {
    if a == 0 || b == 0 {
      NoBits(k);
    } else {
      AndHalves(a, b);
      if k > 0 {
        AndBits(a / 2, b / 2, k - 1);
      }
    }
  }

  lemma {:induction false} NoBits(k: nat)
    ensures Bit(0, k) == 0
    decreases k
  {
    if k > 0 {
      NoBits(k - 1);
    }
  }

  lemma AndHalves(a: nat, b: nat)
    requires a > 0 && b > 0
    ensures And(a, b) / 2 == And(a / 2, b / 2)
    ensures And(a, b) % 2 == if a % 2 == 1 && b % 2 == 1 then 1 else 0
  {
    Halve(And(a / 2, b / 2), if a % 2 == 1 && b % 2 == 1 then 1 else 0);
  }

  lemma Halve(h: nat, bit: nat)
    requires bit <= 1
    ensures (2 * h + bit) / 2 == h && (2 * h + bit) % 2 == bit
  {
  }

  lemma {:induction false} AndSame(x: nat)
    ensures And(x, x) == x
  {
    if x > 0 {
      AndSame(x / 2);
    }
  }

  /** The test `size & (size - 1)` accepts exactly the powers of two (and zero). */
  lemma {:induction false} AndPredecessor(n: nat)
    requires n > 0
    ensures And(n, n - 1) == 0 <==> IsPow2(n)
  {
    var m := n / 2;
    if n == 1 {
      assert Pow2(0) == n;
    } else if n % 2 == 1 {
      AndStep(n, m, 0);
      AndSame(m);
      assert And(n, n - 1) == 2 * m;
      forall k: nat
        ensures n != Pow2(k)
      {
        assert k > 0 ==> Pow2(k) == 2 * Pow2(k - 1);
      }
    } else {
      AndStep(n, m - 1, 1);
      AndPredecessor(m);
      if And(m, m - 1) == 0 {
        var k: nat :| Pow2(k) == m;
        assert Pow2(k + 1) == n;
      }
      if k: nat :| Pow2(k) == n {
        assert k > 0;
        assert Pow2(k - 1) == m;
      }
    }
  }

  // ---------------------------------------------------------------- power-of-two sizes

  lemma PowerOfTwo(n: nat)
    requires IsPow2(n) && n < 0x1_0000_0000
    ensures 0 < n
    ensures exists k: nat :: k < 32 && Pow2(k) == n
  {
    var k: nat :| Pow2(k) == n;
    if k >= 32 {
      Pow2Is32();
      Pow2Grows(32, k);
      assert false;
    }
  }

  /** `x & (size - 1)` is the remainder by the size. */
  lemma MaskIsMod(n: nat, x: nat)
    requires IsPow2(n) && n < 0x1_0000_0000
    ensures 0 < n && And(x, n - 1) == Mod(x, n)
    ensures Mod(And(x, n - 1), n) == Mod(x, n)
  {
    PowerOfTwo(n);
    var k: nat :| k < 32 && Pow2(k) == n;
    AndMask(x, k);
  }

  /** Wrapping a counter at 2^32 does not move the cell it denotes. */
  lemma WrapKeepsCell(n: nat, x: int)
    requires IsPow2(n) && n < 0x1_0000_0000
    ensures 0 < n && Mod(Wrap(x), n) == Mod(x, n)
  {
    PowerOfTwo(n);
    var k: nat :| k < 32 && Pow2(k) == n;
    var m := Pow2(32 - k);
    Pow2Is32();
    Pow2Add(32 - k, k);
    var q := x / 0x1_0000_0000;
    assert x == Wrap(x) + q * 0x1_0000_0000;
    MulAssoc(q, m, n);
    ModPlusMultiple(Wrap(x), n, q * m);
  }
}
