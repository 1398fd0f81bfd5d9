/**
 * Unsigned 32-bit arithmetic on mathematical integers: powers of two, the
 * bits of a word, its high-order part and the bitwise AND.  Every value the
 * engine produces with JavaScript's `>>> 0` is an element of `U32`.
 */
module Bits {

  const TWO32: int := 0x1_0000_0000

  /** An unsigned 32-bit word. */
  type U32 = x: int | 0 <= x < 0x1_0000_0000

  /** A CIDR prefix length of an IPv4 address. */
  type Prefix = p: int | 0 <= p <= 32

  /** `x >>> 0`: the integer reduced modulo 2^32. */
  function ToUint32(x: int): U32
  {
    x % 0x1_0000_0000
  }

  function Pow2(n: nat): (r: nat)
    ensures r >= 1
  {
    if n == 0 then 1 else 2 * Pow2(n - 1)
  }

  lemma {:induction false} Pow2Add(a: nat, b: nat)
    ensures Pow2(a + b) == Pow2(a) * Pow2(b)
  {
    if a > 0 {
      Pow2Add(a - 1, b);
      assert Pow2(a + b) == 2 * Pow2(a - 1 + b);
    }
  }

  lemma {:induction false} Pow2Monotone(a: nat, b: nat)
    requires a <= b
    ensures Pow2(a) <= Pow2(b)
  {
    if a < b {
      Pow2Monotone(a, b - 1);
    }
  }

  lemma Pow2Values()
    ensures Pow2(8) == 256 && Pow2(16) == 65536 && Pow2(24) == 16777216
    ensures Pow2(32) == TWO32
  {
    assert Pow2(8) == 256;
    Pow2Add(8, 8);
    Pow2Add(16, 8);
    Pow2Add(16, 16);
  }

  /** 2^32 is the size of the address space. */
  lemma Pow2Word()
    ensures Pow2(32) == TWO32
  {
    Pow2Values();
  }

  /** The address space holds `2^(32 - h)` blocks of `2^h` addresses. */
  lemma Pow2Split(h: nat)
    requires h <= 32
    ensures Pow2(h) * Pow2(32 - h) == TWO32
  {
    Pow2Add(h, 32 - h);
    Pow2Word();
  }

  /** Below 32 bits, a block and its twin still fit in the address space. */
  lemma Pow2BelowWord(h: nat)
    requires h < 32
    ensures 2 * Pow2(h) <= TWO32
  {
    Pow2Monotone(h + 1, 32);
    Pow2Word();
  }

  /** A block of at most 32 host bits fits in the address space, and one of 32 is all of it. */
  lemma Pow2AtMostWord(h: nat)
    requires h <= 32
    ensures Pow2(h) <= TWO32
    ensures h == 32 ==> Pow2(h) == TWO32
  {
    if h < 32 {
      Pow2BelowWord(h);
    } else {
      Pow2Word();
    }
  }

  /** Euclidean division is determined by any quotient/remainder pair. */
  lemma DivModUnique(x: int, d: int, q: int, r: int)
    requires d > 0 && 0 <= r < d && x == q * d + r
    ensures x / d == q && x % d == r
  {
    var k := q - x / d;
    assert k * d == x % d - r;
  }

  /** A multiple of `d` is its quotient times `d`. */
  lemma ExactDiv(x: int, d: int)
    requires d > 0 && x % d == 0
    ensures x == x / d * d
  {
  }

  /** A multiple of `a * b` is a multiple of `a`. */
  lemma MultipleOfFactor(x: int, a: int, b: int)
    requires a > 0 && b > 0 && x % (a * b) == 0
    ensures x % a == 0
  {
    var q := x / (a * b);
    ExactDiv(x, a * b);
    assert x == (q * b) * a;
    DivModUnique(x, a, q * b, 0);
  }

  lemma MultipleSum(x: int, y: int, d: int)
    requires d > 0 && x % d == 0 && y % d == 0
    ensures (x + y) % d == 0
  {
    ExactDiv(x, d);
    ExactDiv(y, d);
    DivModUnique(x + y, d, x / d + y / d, 0);
  }

  lemma MultipleOfProduct(q: int, d: int)
    requires d > 0
    ensures (q * d) % d == 0
  {
    DivModUnique(q * d, d, q, 0);
  }

  lemma DivDiv(x: nat, a: nat, b: nat)
    requires a > 0 && b > 0
    ensures x / a / b == x / (a * b)
  {
    var q, r := x / a, x % a;
    var q2, r2 := q / b, q % b;
    RegroupProduct(q, a, q2, b, r2);
    RemainderBound(r, a, r2, b);
    DivModUnique(x, a * b, q2, r2 * a + r);
  }

  lemma RegroupProduct(q: int, a: int, q2: int, b: int, r2: int)
    requires q == q2 * b + r2
    ensures q * a == q2 * (a * b) + r2 * a
  {
  }

  lemma RemainderBound(r: int, a: int, r2: int, b: int)
    requires 0 <= r < a && 0 <= r2 < b
    ensures 0 <= r2 * a + r < a * b
  {
    MulMonotone(r2, b - 1, a);
  }

  lemma MulMonotone(x: int, y: int, c: int)
    requires x <= y && c >= 0
    ensures x * c <= y * c
  {
  }

  /** Bit `i` of `x`, counting from the least significant bit. */
  function Bit(x: nat, i: nat): (b: nat)
    ensures b < 2
  {
    var q := Quotient(x, Pow2(i));
    q % 2
  }

  /** The top `k` bits of the word `x`, read as a number. */
  function High(x: U32, k: Prefix): nat
  {
    var hostBits: nat := 32 - k;
    Quotient(x, Pow2(hostBits))
  }

  /** `x / d` for a positive divisor, which is a natural number. */
  function Quotient(x: nat, d: nat): (q: nat)
    requires d > 0
    ensures q == x / d
  {
    DivNonNegative(x, d);
    x / d
  }

  lemma DivNonNegative(x: nat, d: nat)
    requires d > 0
    ensures x / d >= 0
  {
  }

  /** Appending one more bit to the low end of a bit string of length `j`. */
  lemma ModPow2Step(y: nat, j: nat)
    ensures y % Pow2(j + 1) == 2 * ((y / 2) % Pow2(j)) + y % 2
  {
    var q, r := (y / 2) / Pow2(j), (y / 2) % Pow2(j);
    assert y == q * Pow2(j + 1) + (2 * r + y % 2);
    DivModUnique(y, Pow2(j + 1), q, 2 * r + y % 2);
  }

  /** The top `k + 1` bits are the top `k` bits followed by bit `31 - k`. */
  lemma HighStep(x: U32, k: Prefix)
    requires k < 32
    ensures High(x, k + 1) == 2 * High(x, k) + Bit(x, 31 - k)
  {
    DivDiv(x, Pow2(31 - k), 2);
    assert Pow2(32 - k) == Pow2(31 - k) * 2;
  }

  /** A shorter top part is a prefix of a longer one. */
  lemma HighPrefix(x: U32, k: Prefix, j: Prefix)
    requires k <= j
    ensures High(x, k) == High(x, j) / Pow2(j - k)
  {
    Pow2Add(32 - j, j - k);
    DivDiv(x, Pow2(32 - j), Pow2(j - k));
  }

  lemma HighEnds(x: U32)
    ensures High(x, 0) == 0 && High(x, 32) == x
  {
    Pow2Values();
  }

  lemma MulTwice(a: int, b: int)
    ensures 2 * (a * b) == a * (2 * b)
  {
  }

  lemma DivBelow(x: nat, d: nat, m: nat)
    requires d > 0 && x < d * m
    ensures x / d < m
  {
  }

  lemma HighBound(x: U32, k: Prefix)
    ensures High(x, k) < Pow2(k)
  {
    var hostBits: nat := 32 - k;
    Pow2Split(hostBits);
    DivBelow(x, Pow2(hostBits), Pow2(k));
  }

  /** JavaScript's `&` on two unsigned words, computed bit by bit from the low end. */
  function BitAnd(x: nat, y: nat): (r: nat)
    ensures r <= x && r <= y
    decreases x
  {
    if x == 0 || y == 0 then 0
    else 2 * BitAnd(x / 2, y / 2) + (if x % 2 == 1 && y % 2 == 1 then 1 else 0)
  }

  /** AND with a word whose bits `h..n-1` are set and bits `0..h-1` are clear clears the low `h` bits. */
  lemma {:induction false} BitAndLowMask(x: nat, n: nat, h: nat, m: nat)
    requires h <= n && x < Pow2(n) && m == Pow2(n) - Pow2(h)
    ensures BitAnd(x, m) == x / Pow2(h) * Pow2(h)
  {
    if x == 0 {
    } else if h == n {
      DivModUnique(x, Pow2(n), 0, x);
      assert BitAnd(x, m) == 0;
    } else if h == 0 {
      var half := Pow2(n - 1);
      assert m / 2 == half - 1 && m % 2 == 1 by {
        assert m == 2 * (half - 1) + 1;
      }
      BitAndLowMask(x / 2, n - 1, 0, m / 2);
      assert BitAnd(x, m) == 2 * (x / 2) + x % 2 == x;
      assert Pow2(h) == 1;
    } else {
      var half, low := Pow2(n - 1), Pow2(h - 1);
      Pow2Monotone(h - 1, n - 1);
      assert m / 2 == half - low && m % 2 == 0 by {
        assert m == 2 * (half - low);
      }
      BitAndLowMask(x / 2, n - 1, h - 1, m / 2);
      assert BitAnd(x, m) == 2 * ((x / 2) / low * low);
      DivDiv(x, 2, low);
      var q := x / Pow2(h);
      assert Pow2(h) == 2 * low;
      assert (x / 2) / low == q;
      MulTwice(q, low);
    }
  }
}
