/**
  Unsigned 128-bit arithmetic.

  The Rust code works on `u128` with `&`, `|`, `!`, `<<` and `>>`; the browser code works on
  `BigInt` with `&`, `^` and shifts. Both are modelled on natural numbers by operators defined
  one binary digit at a time. The lemmas below turn each form the program uses into the two
  functions the rest of the model reasons with: `Low(a, j)`, the value of the low `j` nibbles,
  and `Clear(a, j)`, the address with its low `j` nibbles zeroed.
 */
module Bits {
  const U128_LIMIT: nat := 0x1_0000_0000_0000_0000_0000_0000_0000_0000

  type u128 = n: nat | n < U128_LIMIT

  const U128_MAX: u128 := U128_LIMIT - 1

  /** Nibbles in a full IPv6 address. */
  const ADDR_NIBBLES: nat := 32

  function Min(a: nat, b: nat): nat {
    if a < b then a else b
  }

  // ---- bit-by-bit operators ----

  function Bit(b: bool): nat {
    if b then 1 else 0
  }

  function And(x: nat, y: nat): nat {
    if x == 0 || y == 0 then 0
    else Bit(x % 2 == 1 && y % 2 == 1) + 2 * And(x / 2, y / 2)
  }

  function Or(x: nat, y: nat): nat
    decreases x + y
  {
    if x == 0 && y == 0 then 0
    else Bit(x % 2 == 1 || y % 2 == 1) + 2 * Or(x / 2, y / 2)
  }

  function Xor(x: nat, y: nat): nat
    decreases x + y
  {
    if x == 0 && y == 0 then 0
    else Bit(x % 2 != y % 2) + 2 * Xor(x / 2, y / 2)
  }

  /** The complement of the low `n` bits of `x`. */
  function NotBits(x: nat, n: nat): nat {
    if n == 0 then 0
    else Bit(x % 2 == 0) + 2 * NotBits(x / 2, n - 1)
  }

  function Shr(x: nat, n: nat): nat {
    if n == 0 then x else Shr(x / 2, n - 1)
  }

  function LowBits(a: nat, k: nat): nat {
    if k == 0 then 0 else a % 2 + 2 * LowBits(a / 2, k - 1)
  }

  function Doubled(x: nat, n: nat): nat {
    if n == 0 then x else 2 * Doubled(x, n - 1)
  }

  /** A left shift in a 128-bit register: bits pushed past the top are lost. */
  function Shl(x: nat, n: nat): nat {
    LowBits(Doubled(x, n), 128)
  }

  function Pow2(n: nat): (p: nat)
    ensures p > 0
  {
    if n == 0 then 1 else 2 * Pow2(n - 1)
  }

  lemma U128IsPow2()
    ensures Pow2(128) == U128_LIMIT
  {
    U128IsPow16();
    NibbleBits(0, 32);
  }

  function Not(x: u128): (r: u128)
    ensures r == U128_MAX - x
  {
    U128IsPow2();
    NotBitsIsComplement(x, 128);
    NotBits(x, 128)
  }

  lemma {:induction false} NotBitsIsComplement(x: nat, n: nat)
    requires x < Pow2(n)
    ensures NotBits(x, n) == Pow2(n) - 1 - x
  {
    if n > 0 {
      NotBitsIsComplement(x / 2, n - 1);
    }
  }

  // ---- the low bits and the cleared low bits ----

  function ClearBits(a: nat, k: nat): nat {
    if k == 0 then a else 2 * ClearBits(a / 2, k - 1)
  }

  lemma {:induction false} AndOnes(a: nat, k: nat)
    ensures And(a, Pow2(k) - 1) == LowBits(a, k)
  {
    if k > 0 {
      AndOnes(a / 2, k - 1);
      assert (Pow2(k) - 1) / 2 == Pow2(k - 1) - 1;
      if a == 0 {
        assert And(0, Pow2(k - 1) - 1) == 0;
      }
    }
  }

  lemma {:induction false} LowBitsAll(a: nat, k: nat)
    requires a < Pow2(k)
    ensures LowBits(a, k) == a
  {
    if k > 0 {
      LowBitsAll(a / 2, k - 1);
    }
  }

  lemma {:induction false} AndHigh(a: nat, k: nat, n: nat)
    requires k <= n && a < Pow2(n)
    ensures Pow2(k) <= Pow2(n) && And(a, Pow2(n) - Pow2(k)) == ClearBits(a, k)
  {
    Pow2Monotone(k, n);
    if k == 0 {
      AndOnes(a, n);
      LowBitsAll(a, n);
    } else {
      AndHigh(a / 2, k - 1, n - 1);
      Pow2Monotone(k - 1, n - 1);
      assert (Pow2(n) - Pow2(k)) / 2 == Pow2(n - 1) - Pow2(k - 1);
    }
  }

  lemma {:induction false} Pow2Monotone(k: nat, n: nat)
    requires k <= n
    ensures Pow2(k) <= Pow2(n)
  {
    if k < n {
      Pow2Monotone(k, n - 1);
    }
  }

  lemma {:induction false} ShrOnes(n: nat, m: nat)
    requires m <= n
    ensures Shr(Pow2(n) - 1, m) == Pow2(n - m) - 1
  {
    if m > 0 {
      assert (Pow2(n) - 1) / 2 == Pow2(n - 1) - 1;
      ShrOnes(n - 1, m - 1);
    }
  }

  lemma {:induction false} XorOnes(k: nat, n: nat)
    requires k <= n
    ensures Xor(Pow2(n) - 1, Pow2(k) - 1) == Pow2(n) - Pow2(k)
  {
    Pow2Monotone(k, n);
    if n > 0 {
      assert (Pow2(n) - 1) / 2 == Pow2(n - 1) - 1;
      if k > 0 {
        assert (Pow2(k) - 1) / 2 == Pow2(k - 1) - 1;
        XorOnes(k - 1, n - 1);
      } else {
        XorOnes(0, n - 1);
      }
    }
  }

  // ---- nibbles ----

  function Pow16(j: nat): (p: nat)
    ensures p > 0
  {
    if j == 0 then 1 else 16 * Pow16(j - 1)
  }

  /** The value of the low `j` nibbles. */
  function Low(a: nat, j: nat): nat {
    if j == 0 then 0 else a % 16 + 16 * Low(a / 16, j - 1)
  }

  /** The address with its low `j` nibbles zeroed. */
  function Clear(a: nat, j: nat): nat {
    if j == 0 then a else 16 * Clear(a / 16, j - 1)
  }

  /** The address shifted right by `j` nibbles. */
  function Upper(a: nat, j: nat): nat {
    if j == 0 then a else Upper(a / 16, j - 1)
  }

  lemma U128IsPow16()
    ensures Pow16(ADDR_NIBBLES) == U128_LIMIT
  {
    assert Pow16(4) == 0x1_0000;
    Pow16Sum(4, 4);
    assert Pow16(8) == 0x1_0000_0000;
    Pow16Sum(8, 8);
    assert Pow16(16) == 0x1_0000_0000_0000_0000;
    Pow16Sum(16, 16);
  }

  lemma {:induction false} Pow16Sum(j: nat, k: nat)
    ensures Pow16(j + k) == Pow16(j) * Pow16(k)
  {
    if j > 0 {
      Pow16Sum(j - 1, k);
      assert Pow16(j + k) == 16 * Pow16(j - 1 + k);
    }
  }

  lemma {:induction false} ClearPlusLow(a: nat, j: nat)
    ensures Clear(a, j) + Low(a, j) == a
  {
    if j > 0 {
      ClearPlusLow(a / 16, j - 1);
    }
  }

  lemma {:induction false} LowBound(a: nat, j: nat)
    ensures Low(a, j) < Pow16(j)
  {
    if j > 0 {
      LowBound(a / 16, j - 1);
    }
  }

  lemma {:induction false} LowIdentity(a: nat, j: nat)
    requires a < Pow16(j)
    ensures Low(a, j) == a
  {
    if j > 0 {
      LowIdentity(a / 16, j - 1);
    }
  }

  /** A cleared prefix and a short host part are recovered from their sum. */
  lemma {:induction false} SplitSum(p: nat, h: nat, j: nat)
    requires Clear(p, j) == p && h < Pow16(j)
    ensures Clear(p + h, j) == p && Low(p + h, j) == h
  {
    if j > 0 {
      var p', h' := p / 16, h / 16;
      assert p == 16 * Clear(p', j - 1);
      assert Clear(p', j - 1) == p';
      SplitSum(p', h', j - 1);
      assert (p + h) / 16 == p' + h' && (p + h) % 16 == h % 16;
    }
  }

  lemma {:induction false} UpperDecidesClear(a: nat, b: nat, j: nat)
    ensures Upper(a, j) == Upper(b, j) <==> Clear(a, j) == Clear(b, j)
  {
    if j > 0 {
      UpperDecidesClear(a / 16, b / 16, j - 1);
    }
  }

  lemma {:induction false} UpperBound(a: nat, j: nat, n: nat)
    requires j <= n && a < Pow16(n)
    ensures Upper(a, j) < Pow16(n - j)
  {
    if j > 0 {
      UpperBound(a / 16, j - 1, n - 1);
    }
  }

  lemma {:induction false} UpperTwice(a: nat, j: nat, k: nat)
    ensures Upper(Upper(a, j), k) == Upper(a, j + k)
  {
    if j > 0 {
      UpperTwice(a / 16, j - 1, k);
    }
  }

  lemma {:induction false} UpperStep(a: nat, j: nat)
    ensures Upper(a, j + 1) == Upper(a, j) / 16
  {
    if j > 0 {
      UpperStep(a / 16, j - 1);
    }
  }

  /** Four binary digits make a nibble. */
  lemma NibbleBits(a: nat, j: nat)
    ensures LowBits(a, 4 * j) == Low(a, j)
    ensures ClearBits(a, 4 * j) == Clear(a, j)
    ensures Shr(a, 4 * j) == Upper(a, j)
    ensures Pow2(4 * j) == Pow16(j)
  {
    LowNibbles(a, j);
    ClearNibbles(a, j);
    ShrNibbles(a, j);
    Pow2Nibbles(j);
  }

  lemma {:induction false} LowNibbles(a: nat, j: nat)
    ensures LowBits(a, 4 * j) == Low(a, j)
  {
    if j > 0 {
      LowNibbles(a / 16, j - 1);
      var k := 4 * j;
      var b, c, d := a / 2, a / 2 / 2, a / 2 / 2 / 2;
      assert d / 2 == a / 16;
      assert LowBits(a, k) == a % 2 + 2 * LowBits(b, k - 1);
      assert LowBits(b, k - 1) == b % 2 + 2 * LowBits(c, k - 2);
      assert LowBits(c, k - 2) == c % 2 + 2 * LowBits(d, k - 3);
      assert LowBits(d, k - 3) == d % 2 + 2 * LowBits(a / 16, k - 4);
    }
  }

  lemma {:induction false} ClearNibbles(a: nat, j: nat)
    ensures ClearBits(a, 4 * j) == Clear(a, j)
  {
    if j > 0 {
      ClearNibbles(a / 16, j - 1);
      var k := 4 * j;
      assert a / 2 / 2 / 2 / 2 == a / 16;
      assert ClearBits(a, k) == 2 * ClearBits(a / 2, k - 1);
      assert ClearBits(a / 2, k - 1) == 2 * ClearBits(a / 2 / 2, k - 2);
      assert ClearBits(a / 2 / 2, k - 2) == 2 * ClearBits(a / 2 / 2 / 2, k - 3);
    }
  }

  lemma {:induction false} ShrNibbles(a: nat, j: nat)
    ensures Shr(a, 4 * j) == Upper(a, j)
  {
    if j > 0 {
      ShrNibbles(a / 16, j - 1);
      var k := 4 * j;
      assert a / 2 / 2 / 2 / 2 == a / 16;
      assert Shr(a, k) == Shr(a / 2, k - 1);
      assert Shr(a / 2, k - 1) == Shr(a / 2 / 2, k - 2);
      assert Shr(a / 2 / 2, k - 2) == Shr(a / 2 / 2 / 2, k - 3);
    }
  }

  lemma {:induction false} Pow2Nibbles(j: nat)
    ensures Pow2(4 * j) == Pow16(j)
  {
    if j > 0 {
      Pow2Nibbles(j - 1);
      var k := 4 * j;
      assert Pow2(k) == 2 * Pow2(k - 1);
      assert Pow2(k - 1) == 2 * Pow2(k - 2);
      assert Pow2(k - 2) == 2 * Pow2(k - 3);
    }
  }

  // ---- `|` on numbers that share no bits ----

  lemma {:induction false} OrDisjointBits(p: nat, h: nat, k: nat)
    requires ClearBits(p, k) == p && h < Pow2(k)
    ensures Or(p, h) == p + h
  {
    if k == 0 {
      OrZero(p);
    } else {
      var p' := p / 2;
      assert p == 2 * ClearBits(p', k - 1);
      OrDisjointBits(p', h / 2, k - 1);
    }
  }

  lemma {:induction false} OrZero(p: nat)
    ensures Or(p, 0) == p && Or(0, p) == p
  {
    if p > 0 {
      OrZero(p / 2);
    }
  }

  lemma {:induction false} OrCommutes(x: nat, y: nat)
    ensures Or(x, y) == Or(y, x)
    decreases x + y
  {
    if x != 0 || y != 0 {
      OrCommutes(x / 2, y / 2);
    }
  }

  /** `prefix | host` is addition when the prefix is cleared below `j` nibbles. */
  lemma OrDisjoint(p: nat, h: nat, j: nat)
    requires Clear(p, j) == p && h < Pow16(j)
    ensures Or(p, h) == p + h && Or(h, p) == p + h
  {
    NibbleBits(p, j);
    OrDisjointBits(p, h, 4 * j);
    OrCommutes(p, h);
  }

  // ---- shifting one nibble into place ----

  /** `Shifted(v, j)` is `v * 16^j`. */
  function Shifted(v: nat, j: nat): nat {
    if j == 0 then v else 16 * Shifted(v, j - 1)
  }

  lemma {:induction false} ShiftedFacts(v: nat, j: nat)
    requires v < 16
    ensures Clear(Shifted(v, j), j) == Shifted(v, j)
    ensures Shifted(v, j) <= 15 * Pow16(j)
  {
    if j > 0 {
      ShiftedFacts(v, j - 1);
      assert Shifted(v, j) / 16 == Shifted(v, j - 1);
    }
  }

  /** Shifting up and down again loses nothing. */
  lemma {:induction false} ShiftedBack(v: nat, j: nat, k: nat)
    requires v < Pow16(k)
    ensures Upper(Shifted(v, j), j) == v && Shifted(v, j) < Pow16(j + k)
  {
    if j > 0 {
      ShiftedBack(v, j - 1, k);
      assert Shifted(v, j) / 16 == Shifted(v, j - 1);
    }
  }

  lemma {:induction false} Pow16Monotone(k: nat, n: nat)
    requires k <= n
    ensures Pow16(k) <= Pow16(n)
  {
    if k < n {
      Pow16Monotone(k, n - 1);
    }
  }

  lemma {:induction false} DoubledIsShifted(v: nat, j: nat)
    ensures Doubled(v, 4 * j) == Shifted(v, j)
  {
    if j > 0 {
      DoubledIsShifted(v, j - 1);
      var k := 4 * j;
      assert Doubled(v, k) == 2 * Doubled(v, k - 1);
      assert Doubled(v, k - 1) == 2 * Doubled(v, k - 2);
      assert Doubled(v, k - 2) == 2 * Doubled(v, k - 3);
    }
  }

  /** `value << (position * 4)` loses nothing for the 32 positions of an address. */
  lemma ShlNibble(v: nat, j: nat)
    requires v < 16 && j < ADDR_NIBBLES
    ensures Shl(v, 4 * j) == Shifted(v, j) < U128_LIMIT
  {
    ShiftedFacts(v, j);
    Pow16Monotone(j + 1, ADDR_NIBBLES);
    U128IsPow16();
    U128IsPow2();
    DoubledIsShifted(v, j);
    LowBitsAll(Shifted(v, j), 128);
  }

  /** `addr |= value << (position * 4)` adds the nibble on top of the ones already read. */
  lemma OrNibble(addr: nat, v: nat, j: nat)
    requires addr < Pow16(j) && v < 16 && j < ADDR_NIBBLES
    ensures Or(addr, Shl(v, 4 * j)) == addr + Shifted(v, j) < Pow16(j + 1)
  {
    ShlNibble(v, j);
    ShiftedFacts(v, j);
    OrDisjoint(Shifted(v, j), addr, j);
  }

  /** `(host << 4) | value` drops the top nibble and appends one below. */
  lemma ShlOrNibble(host: nat, v: nat)
    requires v < 16
    ensures Or(Shl(host, 4), v) == 16 * Low(host, 31) + v
  {
    var s := 16 * Low(host, 31);
    assert Shl(host, 4) == s by {
      DoubledIsShifted(host, 1);
      assert Shifted(host, 1) == 16 * Shifted(host, 0);
      NibbleBits(16 * host, 32);
      assert 16 * host / 16 == host;
    }
    OrLowNibble(Low(host, 31), v);
  }

  lemma OrLowNibble(t: nat, v: nat)
    requires v < 16
    ensures Or(16 * t, v) == 16 * t + v
  {
    var s := 16 * t;
    assert s / 16 == t;
    assert Clear(s, 1) == 16 * Clear(t, 0);
    assert Pow16(1) == 16 * Pow16(0);
    OrDisjoint(s, v, 1);
  }

  /** `(prefix >> (position * 4)) & 0xF` is one nibble of the prefix. */
  lemma ExtractNibble(a: nat, j: nat)
    ensures And(Shr(a, 4 * j), 15) == Upper(a, j) % 16
  {
    NibbleBits(a, j);
    var x := Upper(a, j);
    AndOnes(x, 4);
    NibbleBits(x, 1);
    assert Pow2(4) == 16;
    assert Low(x, 1) == x % 16 + 16 * Low(x / 16, 0);
  }
}
