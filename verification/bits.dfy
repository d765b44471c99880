/**
 * Fixed-width words and the bitwise operators shared by the host scripts
 * (Python integers) and the MicroBlaze firmware (C `uint8_t`/`uint32_t`).
 *
 * Python's `&`, `|`, `^`, `>>` and `<<` on non-negative integers never wrap;
 * C's `<<` and `+` on `uint32_t` wrap modulo 2^32. Both are written out here
 * over `nat`, so that one definition serves both languages and every
 * wrap-around is explicit.
 */
module Bits {

  type byte = x: int | 0 <= x < 0x100
  type u16 = x: int | 0 <= x < 0x1_0000
  type u32 = x: int | 0 <= x < 0x1_0000_0000

  const U32_LIMIT: nat := 0x1_0000_0000

  datatype Option<T> = None | Some(value: T)

  function Pow2(k: nat): (r: nat)
    ensures r >= 1
  {
    if k == 0 then 1 else 2 * Pow2(k - 1)
  }

  function Pow16(k: nat): (r: nat)
    ensures r >= 1
  {
    if k == 0 then 1 else 16 * Pow16(k - 1)
  }

  /** Bitwise AND of two non-negative integers (Python `a & b`, C `a & b`). */
  function And(a: nat, b: nat): (r: nat)
    ensures r <= a && r <= b
    decreases a
  {
    if a == 0 || b == 0 then 0 else 2 * And(a / 2, b / 2) + (a % 2) * (b % 2)
  }

  /** Bitwise OR of two non-negative integers. */
  function Or(a: nat, b: nat): (r: nat)
    ensures a <= r && b <= r && r <= a + b
    decreases a
  {
    if a == 0 then b
    else if b == 0 then a
    else 2 * Or(a / 2, b / 2) + (if a % 2 == 1 || b % 2 == 1 then 1 else 0)
  }

  /** Bitwise exclusive OR of two non-negative integers. */
  function Xor(a: nat, b: nat): (r: nat)
    ensures r <= a + b
    decreases a
  {
    if a == 0 then b
    else if b == 0 then a
    else 2 * Xor(a / 2, b / 2) + (a % 2 + b % 2) % 2
  }

  /** Right shift (Python `a >> k`, C `a >> k` on an unsigned operand). */
  function Shr(a: nat, k: nat): nat
  {
    DivNonNegative(a, Pow2(k));
    a / Pow2(k)
  }

  /** Python's unbounded left shift `a << k`. */
  function Shl(a: nat, k: nat): nat
  {
    a * Pow2(k)
  }

  /** C's `uint32_t` left shift: the bits shifted past bit 31 are lost. */
  function Shl32(a: nat, k: nat): (r: u32)
  {
    Shl(a, k) % U32_LIMIT
  }

  /** C's `uint32_t` addition, which wraps modulo 2^32. */
  function Add32(a: nat, b: nat): (r: u32)
  {
    (a + b) % U32_LIMIT
  }

  /** Bit `k` of `a`, as a number 0 or 1. */
  function Bit(a: nat, k: nat): nat
  {
    (a / Pow2(k)) % 2
  }

  /** Python's `x & (2**k - 1)` for any integer x, including negative ones:
      Python's `&` works on two's complement with infinitely many sign bits, so
      the result is the non-negative remainder modulo 2^k. */
  function MaskInt(x: int, k: nat): (r: nat)
    ensures r < Pow2(k)
  {
    x % Pow2(k)
  }

  /** The powers of two that the firmware's and the host's masks and shifts use. */
  lemma Pow2Constants()
    ensures Pow2(1) == 2 && Pow2(2) == 4 && Pow2(3) == 8 && Pow2(4) == 16 && Pow2(8) == 0x100
    ensures Pow2(12) == 0x1000 && Pow2(16) == 0x1_0000 && Pow2(17) == 0x2_0000 && Pow2(18) == 0x4_0000
    ensures Pow2(21) == 0x20_0000 && Pow2(24) == 0x100_0000 && Pow2(25) == 0x200_0000 && Pow2(26) == 0x400_0000
    ensures Pow2(31) == 0x8000_0000 && Pow2(32) == U32_LIMIT
  {
  }

  // ---------------------------------------------------------------------
  // Arithmetic helpers
  // ---------------------------------------------------------------------

  /** The widths the protocol uses. */
  lemma Pow16Constants()
    ensures Pow16(1) == 16 && Pow16(2) == 0x100 && Pow16(4) == 0x1_0000
    ensures Pow16(6) == 0x100_0000 && Pow16(8) == U32_LIMIT
  {
  }

  lemma DivNonNegative(a: nat, d: nat)
    requires d > 0
    ensures a / d >= 0
  {
  }

  lemma MulAtLeast(x: int, d: int)
    requires x >= 1 && d > 0
    ensures x * d >= d
  {
  }

  /** Division and remainder are determined by any decomposition `a == q * d + r`. */
  lemma DivModUnique(a: int, d: int, q: int, r: int)
    requires d > 0 && 0 <= r < d && a == q * d + r
    ensures a / d == q && a % d == r
  {
    var q0, r0 := a / d, a % d;
    assert (q - q0) * d == r0 - r;
    if q - q0 >= 1 {
      MulAtLeast(q - q0, d);
    }
    if q0 - q >= 1 {
      MulAtLeast(q0 - q, d);
    }
  }

  lemma Pow16Monotone(i: nat, j: nat)
    requires i <= j
    ensures Pow16(i) <= Pow16(j)
    decreases j
  {
    if i < j {
      Pow16Monotone(i, j - 1);
    }
  }

  /** Halving first and then dividing by 2^(k-1) is dividing by 2^k. */
  lemma HalfThenPow2(a: nat, k: nat)
    requires k >= 1
    ensures (a / 2) / Pow2(k - 1) == a / Pow2(k)
    ensures (a / 2) % Pow2(k - 1) * 2 + a % 2 == a % Pow2(k)
  {
    var p := Pow2(k - 1);
    var q := (a / 2) / p;
    var s := (a / 2) % p;
    assert a / 2 == q * p + s;
    assert a == q * (2 * p) + (2 * s + a % 2);
    DivModUnique(a, 2 * p, q, 2 * s + a % 2);
  }

  // ---------------------------------------------------------------------
  // Laws of the operators
  // ---------------------------------------------------------------------

  /** Masking with 2^k - 1 keeps exactly the low k bits. */
  lemma {:induction false} AndLowMask(a: nat, k: nat)
    ensures And(a, Pow2(k) - 1) == a % Pow2(k)
  {
    if k == 0 {
      assert Pow2(k) == 1;
    } else if a == 0 {
      DivModUnique(0, Pow2(k), 0, 0);
    } else {
      var p := Pow2(k - 1);
      AndLowMaskStep(a, k);
      AndLowMask(a / 2, k - 1);
      assert And(a, Pow2(k) - 1) == (a / 2) % p * 2 + a % 2;
      HalfThenPow2(a, k);
    }
  }

  /** One bit of the low mask: bit 0 of a is kept, the rest is a / 2 masked
      with one bit fewer. */
  lemma AndLowMaskStep(a: nat, k: nat)
    requires a > 0 && k > 0
    ensures And(a, Pow2(k) - 1) == 2 * And(a / 2, Pow2(k - 1) - 1) + a % 2
  {
    var p := Pow2(k - 1);
    var m := Pow2(k) - 1;
    assert m == 2 * (p - 1) + 1;
    assert m / 2 == p - 1 && m % 2 == 1 by {
      DivModUnique(m, 2, p - 1, 1);
    }
  }

  /** Masking with the single bit 2^k is non-zero exactly when bit k is set. */
  lemma {:induction false} AndSingleBit(a: nat, k: nat)
    ensures And(a, Pow2(k)) == Bit(a, k) * Pow2(k)
  {
    if k == 0 {
      assert Pow2(0) == 1;
      assert And(a, 1) == a % 2 by { AndLowMask(a, 1); }
    } else if a == 0 {
      DivModUnique(0, Pow2(k), 0, 0);
      assert Bit(a, k) == 0;
    } else {
      var p := Pow2(k - 1);
      assert Pow2(k) == 2 * p;
      assert Pow2(k) / 2 == p && Pow2(k) % 2 == 0 by {
        DivModUnique(Pow2(k), 2, p, 0);
      }
      assert And(a, Pow2(k)) == 2 * And(a / 2, p);
      AndSingleBit(a / 2, k - 1);
      HalfThenPow2(a, k);
      assert Bit(a / 2, k - 1) == Bit(a, k);
      if Bit(a, k) == 0 {
        assert And(a, Pow2(k)) == 0;
      } else {
        assert And(a, Pow2(k)) == Pow2(k);
      }
    }
  }

  /** `(a >> k) & 1` is bit k. */
  lemma ShrAndOne(a: nat, k: nat)
    ensures And(Shr(a, k), 1) == Bit(a, k)
  {
    AndLowMask(Shr(a, k), 1);
  }

  /** A masked field shifted into place: `(a & (m << k)) >> k == (a >> k) & m`. */
  lemma {:induction false} AndShiftedMask(a: nat, m: nat, k: nat)
    ensures Shr(And(a, Shl(m, k)), k) == And(Shr(a, k), m)
    ensures And(a, Shl(m, k)) % Pow2(k) == 0
  {
    if k == 0 {
      assert Shl(m, 0) == m && Shr(a, 0) == a;
    } else if a == 0 || m == 0 {
      assert And(a, Shl(m, k)) == 0;
      assert And(Shr(a, k), m) == 0;
    } else {
      var p := Pow2(k - 1);
      var big := Shl(m, k);
      assert big == 2 * (m * p);
      assert big / 2 == Shl(m, k - 1) && big % 2 == 0;
      var inner := And(a / 2, Shl(m, k - 1));
      assert And(a, big) == 2 * inner;
      AndShiftedMask(a / 2, m, k - 1);
      HalfThenPow2(a, k);
      HalfThenPow2(2 * inner, k);
      assert (2 * inner) / 2 == inner;
      assert Shr(2 * inner, k) == inner / p;
      assert Shr(a, k) == (a / 2) / p;
    }
  }

  /** OR of two values with no common bit is their sum. */
  lemma {:induction false} OrDisjoint(a: nat, b: nat)
    requires And(a, b) == 0
    ensures Or(a, b) == a + b
    decreases a
  {
    if a != 0 && b != 0 {
      assert And(a / 2, b / 2) == 0;
      OrDisjoint(a / 2, b / 2);
    }
  }

  /** A value below 2^k shares no bit with a multiple of 2^k. */
  lemma {:induction false} AndLowHigh(a: nat, c: nat, k: nat)
    requires a < Pow2(k)
    ensures And(a, c * Pow2(k)) == 0 && And(c * Pow2(k), a) == 0
    decreases k
  {
    if k > 0 && a > 0 && c > 0 {
      var p := Pow2(k - 1);
      assert c * Pow2(k) == 2 * (c * p);
      assert (c * Pow2(k)) / 2 == c * p && (c * Pow2(k)) % 2 == 0;
      AndLowHigh(a / 2, c, k - 1);
    }
  }

  /** Packing a low field under a shifted high field: `(c << k) | a == c * 2^k + a`. */
  lemma PackFields(c: nat, k: nat, a: nat)
    requires a < Pow2(k)
    ensures Or(Shl(c, k), a) == c * Pow2(k) + a
  {
    AndLowHigh(a, c, k);
    OrDisjoint(Shl(c, k), a);
  }

  /** Packing a shifted high field over a low field: `a | (c << k) == a + c * 2^k`. */
  lemma PackFieldsLow(a: nat, c: nat, k: nat)
    requires a < Pow2(k)
    ensures Or(a, Shl(c, k)) == a + c * Pow2(k)
  {
    AndLowHigh(a, c, k);
    OrDisjoint(a, Shl(c, k));
  }

  /** XOR of two single bits is their sum modulo 2. */
  lemma XorBits(a: nat, b: nat)
    requires a <= 1 && b <= 1
    ensures Xor(a, b) == (a + b) % 2
  {
  }

  /** A single-bit mask shifted back down is that bit: `(a & (1 << k)) >> k`. */
  lemma MaskedBit(a: nat, k: nat)
    ensures Shr(And(a, Shl(1, k)), k) == Bit(a, k)
  {
    AndSingleBit(a, k);
    assert Shl(1, k) == Pow2(k);
    DivModUnique(Bit(a, k) * Pow2(k), Pow2(k), Bit(a, k), 0);
  }

  /** A field of width w at position k: `(a & (m << k)) >> k` with m = 2^w - 1. */
  lemma MaskedField(a: nat, k: nat, w: nat)
    ensures Shr(And(a, Shl(Pow2(w) - 1, k)), k) == (a / Pow2(k)) % Pow2(w)
  {
    AndShiftedMask(a, Pow2(w) - 1, k);
    AndLowMask(Shr(a, k), w);
  }

  /** Dividing twice is dividing by the product. */
  lemma DivDiv(a: nat, b: nat, c: nat)
    requires b > 0 && c > 0
    ensures (a / b) / c == a / (b * c)
  {
    var q := (a / b) / c;
    var r := (a / b) % c;
    assert a / b == q * c + r;
    assert a == q * (b * c) + (r * b + a % b);
    assert r * b + a % b < b * c by {
      assert r <= c - 1;
      assert r * b <= (c - 1) * b;
    }
    DivModUnique(a, b * c, q, r * b + a % b);
  }

  /** `(m << 16) | (p << 8) | d` for byte-sized p and d: three disjoint fields. */
  lemma PackThreeFields(m: nat, p: byte, d: byte)
    ensures Or(Or(Shl(m, 16), Shl(p, 8)), d) == m * 0x1_0000 + p * 0x100 + d
  {
    assert Pow2(8) == 0x100 && Pow2(16) == 0x1_0000 by {
      Pow2Constants();
    }
    var low := p * 0x100;
    assert Shl(p, 8) == low && low < Pow2(16);
    PackFields(m, 16, low);
    var top := Or(Shl(m, 16), low);
    assert top == m * 0x1_0000 + low;
    var high := m * 0x100 + p;
    assert top == Shl(high, 8) by {
      assert Shl(high, 8) == high * 0x100;
    }
    PackFields(high, 8, d);
    assert Or(top, d) == top + d;
  }

  /** The three fields read back by division. */
  lemma ThreeFields(m: nat, p: byte, d: byte)
    ensures var w := m * 0x1_0000 + p * 0x100 + d;
      w / 0x1_0000 == m && (w / 0x100) % 0x100 == p && w % 0x100 == d
  {
    var w := m * 0x1_0000 + p * 0x100 + d;
    DivModUnique(w, 0x1_0000, m, p * 0x100 + d);
    DivModUnique(w, 0x100, m * 0x100 + p, d);
    DivModUnique(m * 0x100 + p, 0x100, m, p);
  }

  // ---------------------------------------------------------------------
  // Hexadecimal digits (ASCII)
  // ---------------------------------------------------------------------

  const CHAR_0: byte := 0x30
  const CHAR_9: byte := 0x39
  const CHAR_UPPER_A: byte := 0x41
  const CHAR_UPPER_F: byte := 0x46
  const CHAR_A: byte := 0x61
  const CHAR_F: byte := 0x66

  /** The lower-case ASCII digit for a nibble, as both `hex()` and the
      firmware's `inttohex` produce it. */
  function HexChar(d: nat): (c: byte)
    requires d < 16
    ensures IsLowerHexDigit(c)
  {
    if d <= 9 then CHAR_0 + d else CHAR_A + (d - 10)
  }

  predicate IsLowerHexDigit(c: byte)
  {
    (CHAR_0 <= c <= CHAR_9) || (CHAR_A <= c <= CHAR_F)
  }
}
