/**
 Fixed-width words as integers.

 A 64-bit word is an integer in [0, 2^64) and an int64 value is an integer in
 [-2^63, 2^63).  Every operation is defined by halving, so that `Bit` sees any integer as an
 infinite two's-complement bit string; `ShlIsTimes` and `LowIsModulo` tie the
 halving definitions to multiplication, floor division and reduction modulo a power of two.
 */
module Bits {

  type Byte = b: int | 0 <= b < 256
  type Word = w: int | 0 <= w < 0x1_0000_0000_0000_0000

  /** The width of a machine word. */
  const WIDTH: nat := 64

  function Pow2(n: nat): (p: nat)
    ensures p > 0
  {
    if n == 0 then 1 else 2 * Pow2(n - 1)
  }

  /** Bit `i` of the two's-complement representation of `x`. */
  predicate Bit(x: int, i: nat)
    decreases i
  {
    if i == 0 then x % 2 == 1 else Bit(x / 2, i - 1)
  }

  function Shl(x: int, k: nat): int {
    if k == 0 then x else 2 * Shl(x, k - 1)
  }

  /** Right shift; floors, as C++20 prescribes for negative left operands. */
  function Shr(x: int, k: nat): int
    decreases k
  {
    if k == 0 then x else Shr(x / 2, k - 1)
  }

  /** The low `n` bits of `x`, read as an unsigned number. */
  function Low(x: int, n: nat): (r: nat)
    ensures r < Pow2(n)
    decreases n
  {
    if n == 0 then 0 else x % 2 + 2 * Low(x / 2, n - 1)
  }

  /** The low `n` bits of `x`, read as a two's-complement number. */
  function Signed(x: int, n: nat): (r: int)
    requires n > 0
    ensures 0 - Pow2(n - 1) <= r < Pow2(n - 1)
    decreases n
  {
    if n == 1 then -(x % 2) else x % 2 + 2 * Signed(x / 2, n - 1)
  }

  /** Bitwise or of two non-negative numbers. */
  function Or(a: nat, b: nat): nat
    decreases a + b
  {
    if a == 0 then b
    else if b == 0 then a
    else (if a % 2 == 1 || b % 2 == 1 then 1 else 0) + 2 * Or(a / 2, b / 2)
  }

  /** Bitwise and of two non-negative numbers. */
  function And(a: nat, b: nat): (r: nat)
    ensures r <= a && r <= b
    decreases a + b
  {
    if a == 0 || b == 0 then 0
    else (if a % 2 == 1 && b % 2 == 1 then 1 else 0) + 2 * And(a / 2, b / 2)
  }

  /** The word held by a uint64_t after `x << k`. */
  function Shl64(x: Word, k: nat): Word {
    Pow2Values();
    Low(Shl(x, k), WIDTH)
  }

  /** The word held by a uint64_t after `x >> k`. */
  function Shr64(x: Word, k: nat): Word {
    ShrShrinks(x, k);
    Shr(x, k)
  }

  function Or64(a: Word, b: Word): Word {
    Pow2Values();
    OrBound(a, b, WIDTH);
    Or(a, b)
  }

  function And64(a: Word, b: Word): Word {
    And(a, b)
  }

  /** Conversion of any integer to uint64_t. */
  function ToWord(x: int): Word {
    Pow2Values();
    Low(x, WIDTH)
  }

  /** Conversion of any integer to int64_t. */
  function ToInt64(x: int): int {
    Signed(x, WIDTH)
  }

  lemma Pow2Values()
    ensures Pow2(3) == 8 && Pow2(8) == 256 && Pow2(11) == 2048
    ensures Pow2(16) == 0x1_0000 && Pow2(31) == 0x8000_0000 && Pow2(32) == 0x1_0000_0000
    ensures Pow2(63) == 0x8000_0000_0000_0000 && Pow2(WIDTH) == 0x1_0000_0000_0000_0000
  {
    assert Pow2(8) == 256;
    assert Pow2(16) == 0x1_0000;
    assert Pow2(24) == 0x100_0000;
    assert Pow2(32) == 0x1_0000_0000;
    assert Pow2(40) == 0x100_0000_0000;
    assert Pow2(48) == 0x1_0000_0000_0000;
    assert Pow2(56) == 0x100_0000_0000_0000;
    assert Pow2(63) == 0x8000_0000_0000_0000;
    assert Pow2(64) == 0x1_0000_0000_0000_0000;
  }

  lemma {:induction false} Pow2Monotone(a: nat, b: nat)
    requires a <= b
    ensures Pow2(a) <= Pow2(b)
    decreases b
  {
    if a < b { Pow2Monotone(a, b - 1); }
  }

  // ----- What each operation does to each bit

  lemma {:induction false} BitZero(i: nat)
    ensures !Bit(0, i)
  {
    if i > 0 { BitZero(i - 1); }
  }

  lemma {:induction false} BitShl(x: int, k: nat, i: nat)
    ensures Bit(Shl(x, k), i) == (i >= k && Bit(x, i - k))
  {
    if k > 0 && i > 0 {
      BitShl(x, k - 1, i - 1);
    }
  }

  lemma {:induction false} BitShr(x: int, k: nat, i: nat)
    ensures Bit(Shr(x, k), i) == Bit(x, i + k)
    decreases k
  {
    if k > 0 { BitShr(x / 2, k - 1, i); }
  }

  lemma {:induction false} BitLow(x: int, n: nat, i: nat)
    ensures Bit(Low(x, n), i) == (i < n && Bit(x, i))
    decreases n
  {
    if n == 0 {
      BitZero(i);
    } else if i > 0 {
      BitLow(x / 2, n - 1, i - 1);
    }
  }

  lemma {:induction false} BitSigned(x: int, n: nat, i: nat)
    requires n > 0
    ensures Bit(Signed(x, n), i) == Bit(x, if i < n then i else n - 1)
    decreases n + i
  {
    if i > 0 {
      if n > 1 {
        BitSigned(x / 2, n - 1, i - 1);
      } else {
        assert Signed(x, 1) / 2 == Signed(x, 1);
        BitSigned(x, n, i - 1);
      }
    }
  }

  lemma {:induction false} BitOr(a: nat, b: nat, i: nat)
    ensures Bit(Or(a, b), i) == (Bit(a, i) || Bit(b, i))
    decreases i
  {
    if a == 0 || b == 0 {
      BitZero(i);
    } else if i > 0 {
      BitOr(a / 2, b / 2, i - 1);
    }
  }

  lemma {:induction false} BitAnd(a: nat, b: nat, i: nat)
    ensures Bit(And(a, b), i) == (Bit(a, i) && Bit(b, i))
    decreases i
  {
    if a == 0 || b == 0 {
      BitZero(i);
    } else if i > 0 {
      BitAnd(a / 2, b / 2, i - 1);
    }
  }

  lemma {:induction false} BitAllOnes(n: nat, i: nat)
    ensures Bit(Pow2(n) - 1, i) == (i < n)
    decreases n
  {
    if n == 0 {
      BitZero(i);
    } else if i > 0 {
      assert (Pow2(n) - 1) / 2 == Pow2(n - 1) - 1;
      BitAllOnes(n - 1, i - 1);
    }
  }

  /** Adding numbers that share no bit position concatenates them. */
  lemma {:induction false} BitConcat(a: nat, b: nat, k: nat, i: nat)
    requires a < Pow2(k)
    ensures Bit(a + Shl(b, k), i) == if i < k then Bit(a, i) else Bit(b, i - k)
    decreases k
  {
    if k > 0 {
      assert (a + Shl(b, k)) / 2 == a / 2 + Shl(b, k - 1);
      if i > 0 {
        BitConcat(a / 2, b, k - 1, i - 1);
      }
    }
  }

  // ----- Numbers are determined by their bits

  lemma {:induction false} LowByBits(x: int, y: int, n: nat)
    requires forall i | 0 <= i < n :: Bit(x, i) == Bit(y, i)
    ensures Low(x, n) == Low(y, n)
    decreases n
  {
    if n > 0 {
      assert Bit(x, 0) == Bit(y, 0);
      forall i | 0 <= i < n - 1
        ensures Bit(x / 2, i) == Bit(y / 2, i)
      {
        assert Bit(x, i + 1) == Bit(y, i + 1);
      }
      LowByBits(x / 2, y / 2, n - 1);
    }
  }

  lemma {:induction false} SignedByBits(x: int, y: int, n: nat)
    requires n > 0
    requires forall i | 0 <= i < n :: Bit(x, i) == Bit(y, i)
    ensures Signed(x, n) == Signed(y, n)
    decreases n
  {
    assert Bit(x, 0) == Bit(y, 0);
    if n > 1 {
      forall i | 0 <= i < n - 1
        ensures Bit(x / 2, i) == Bit(y / 2, i)
      {
        assert Bit(x, i + 1) == Bit(y, i + 1);
      }
      SignedByBits(x / 2, y / 2, n - 1);
    }
  }

  lemma {:induction false} ConcatBound(a: nat, b: nat, k: nat, m: nat)
    requires a < Pow2(k) && b < Pow2(m)
    ensures 0 <= a + Shl(b, k) < Pow2(k + m)
    decreases k
  {
    if k > 0 {
      assert a / 2 + Shl(b, k - 1) == (a + Shl(b, k)) / 2;
      ConcatBound(a / 2, b, k - 1, m);
    }
  }

  lemma {:induction false} LowFixed(x: int, n: nat)
    ensures Low(x, n) == x <==> 0 <= x < Pow2(n)
    decreases n
  {
    if n > 0 { LowFixed(x / 2, n - 1); }
  }

  lemma {:induction false} SignedFixed(x: int, n: nat)
    requires n > 0
    ensures Signed(x, n) == x <==> 0 - Pow2(n - 1) <= x < Pow2(n - 1)
    decreases n
  {
    if n > 1 { SignedFixed(x / 2, n - 1); }
  }

  lemma {:induction false} ShlBound(x: nat, n: nat, k: nat)
    requires x < Pow2(n)
    ensures 0 <= Shl(x, k) < Pow2(n + k)
  {
    if k > 0 { ShlBound(x, n, k - 1); }
  }

  lemma {:induction false} ShrBound(x: int, n: nat, k: nat)
    requires 0 <= x < Pow2(n)
    requires k <= n
    ensures 0 <= Shr(x, k) < Pow2(n - k)
    decreases k
  {
    if k > 0 { ShrBound(x / 2, n - 1, k - 1); }
  }

  lemma {:induction false} ShrShrinks(x: nat, k: nat)
    ensures 0 <= Shr(x, k) <= x
    decreases k
  {
    if k > 0 { ShrShrinks(x / 2, k - 1); }
  }

  lemma {:induction false} OrBound(a: nat, b: nat, n: nat)
    requires a < Pow2(n) && b < Pow2(n)
    ensures Or(a, b) < Pow2(n)
    decreases n
  {
    if a > 0 && b > 0 && n > 0 { OrBound(a / 2, b / 2, n - 1); }
  }

  // ----- The halving definitions are the arithmetic ones

  lemma {:induction false} ShlIsTimes(x: int, k: nat)
    ensures Shl(x, k) == x * Pow2(k)
  {
    if k > 0 {
      ShlIsTimes(x, k - 1);
      assert 2 * (x * Pow2(k - 1)) == x * (2 * Pow2(k - 1));
    }
  }

  lemma DoubledProduct(q: int, p: int)
    ensures q * (2 * p) == 2 * (q * p)
  {
  }

  lemma {:induction false} LowPlusShr(x: int, n: nat)
    ensures x == Low(x, n) + Shr(x, n) * Pow2(n)
    decreases n
  {
    if n > 0 {
      var h, p, q := x / 2, Pow2(n - 1), Shr(x, n);
      LowPlusShr(h, n - 1);
      assert q == Shr(h, n - 1) && Low(x, n) == x % 2 + 2 * Low(h, n - 1) && Pow2(n) == 2 * p;
      HalfAndMore(x, h, Low(h, n - 1), q, p);
    }
  }

  lemma HalfAndMore(x: int, h: int, low: int, q: int, p: int)
    requires h == x / 2 && h == low + q * p
    ensures x == x % 2 + 2 * low + q * (2 * p)
  {
    DoubledProduct(q, p);
  }

  lemma {:induction false} DistanceOfMultiples(q: int, p: int, d: int)
    requires d > 0 && q > p
    ensures q * d >= p * d + d
    decreases q - p
  {
    assert q * d == (q - 1) * d + d;
    if q - 1 > p { DistanceOfMultiples(q - 1, p, d); }
  }

  lemma DivModUnique(x: int, d: int, q: int, r: int)
    requires d > 0 && 0 <= r < d && x == r + q * d
    ensures q == x / d && r == x % d
  {
    var p := x / d;
    assert x == x % d + p * d;
    if q > p {
      DistanceOfMultiples(q, p, d);
    } else if q < p {
      DistanceOfMultiples(p, q, d);
    }
  }

  lemma DivideTwice(v: nat, a: nat, b: nat)
    requires a > 0 && b > 0
    ensures a * b > 0 && v / a / b == v / (a * b)
  {
    var q := v / a / b;
    var r := v / a % b;
    assert v == a * (v / a) + v % a && v / a == b * q + r;
    assert v == q * (a * b) + (a * r + v % a) by {
      assert a * (b * q + r) == q * (a * b) + a * r;
    }
    assert a * r + v % a < a * b by {
      assert a * r <= a * (b - 1);
    }
    DivModUnique(v, a * b, q, a * r + v % a);
  }

  lemma LowIsModulo(x: int, n: nat)
    ensures Low(x, n) == x % Pow2(n) && Shr(x, n) == x / Pow2(n)
  {
    LowPlusShr(x, n);
    DivModUnique(x, Pow2(n), Shr(x, n), Low(x, n));
  }

  /** A bit is a digit of the number to the base two. */
  lemma BitIsDigit(x: int, i: nat)
    ensures Bit(x, i) <==> x / Pow2(i) % 2 == 1
  {
    BitShr(x, i, 0);
    LowIsModulo(x, i);
  }

  /** Reading as two's complement subtracts 2^n exactly when the sign bit is set. */
  lemma {:induction false} SignedIsLowMinus(x: int, n: nat)
    requires n > 0
    ensures Signed(x, n) == Low(x, n) - (if Bit(x, n - 1) then Pow2(n) else 0)
    decreases n
  {
    if n > 1 { SignedIsLowMinus(x / 2, n - 1); }
  }
}
