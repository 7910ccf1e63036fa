// Sixteen-bit words as the simulator stores them, and the Java `int`
// arithmetic the sources use to produce them.
module Words {

  /** A machine word: the value of one register or memory cell, 0 ..= 0xFFFF. */
  type Word = x: int | 0 <= x < 0x1_0000

  /** The smallest and largest values of a Java `int`. */
  const INT_MIN: int := -0x8000_0000
  const INT_MAX: int := 0x7FFF_FFFF

  predicate IsInt32(x: int) { INT_MIN <= x <= INT_MAX }

  /** A value of Java type `int`. */
  type Int32 = x: int | INT_MIN <= x <= INT_MAX

  /** The unsigned reading of an `int`'s 32 bits, as `toBinaryString` and `%o` print it. */
  function Unsigned32(x: Int32): (r: nat)
    ensures r < 0x1_0000_0000
    ensures x >= 0 ==> r == x
    ensures x < 0 ==> r >= 0x8000_0000
  {
    if x >= 0 then x else x + 0x1_0000_0000
  }

  function Pow2(n: nat): (r: nat)
    ensures r >= 1
  {
    if n == 0 then 1 else 2 * Pow2(n - 1)
  }

  /** `x & 0xFFFF` on a Java `int`: the low sixteen bits of its two's complement form. */
  function Mask16(x: int): (r: Word)
    ensures (x - r) % 0x1_0000 == 0
    ensures 0 <= x < 0x1_0000 ==> r == x
  {
    x % 0x1_0000
  }

  // ---------------------------------------------------------------------
  // Arithmetic facts used by the proofs about shifts, rotations and decoding

  lemma {:induction false} Pow2Add(a: nat, b: nat)
    ensures Pow2(a + b) == Pow2(a) * Pow2(b)
  {
    if a > 0 {
      Pow2Add(a - 1, b);
    }
  }

  lemma Pow2Sixteen()
    ensures Pow2(16) == 0x1_0000
  {
    assert Pow2(4) == 16;
    Pow2Add(4, 4);
    Pow2Add(8, 8);
  }

  lemma {:induction false} Pow2Monotone(a: nat, b: nat)
    requires a <= b
    ensures Pow2(a) <= Pow2(b)
  {
    if a < b {
      Pow2Monotone(a, b - 1);
    }
  }

  /** Euclidean division is determined by its quotient-remainder equation. */
  lemma DivModUnique(x: int, d: int, q: int, r: int)
    requires d > 0 && 0 <= r < d && x == q * d + r
    ensures x / d == q && x % d == r
  {
    var q', r' := x / d, x % d;
    assert x == q' * d + r' && 0 <= r' < d;
    var k := q - q';
    assert k * d == r' - r by {
      assert q * d - q' * d == (q - q') * d;
    }
  }

  lemma DivModSplit(x: int, d: int)
    requires d > 0
    ensures x == (x / d) * d + x % d && 0 <= x % d < d
  {
  }

  lemma MulNonneg(a: int, b: int)
    requires 0 <= a && 0 <= b
    ensures 0 <= a * b
  {
  }

  lemma MulMonotone(a: int, b: int, c: int)
    requires a <= b && 0 <= c
    ensures a * c <= b * c
  {
    MulNonneg(b - a, c);
    assert b * c - a * c == (b - a) * c;
  }

  lemma DivBound(x: int, d: int)
    requires 0 <= x && d > 0
    ensures 0 <= x / d <= x
  {
    var q := x / d;
    assert x == q * d + x % d;
    if q < 0 {
      MulMonotone(q, -1, d);
    }
    if q > x {
      MulMonotone(1, d, q);
    }
  }

  /** Dividing a positive number by at least two makes it smaller. */
  lemma DivDecreases(x: int, d: int)
    requires x >= 1 && d >= 2
    ensures x / d < x
    ensures x >= d ==> x / d >= 1
  {
    var q, r := x / d, x % d;
    assert x == q * d + r && 0 <= r < d;
    DivBound(x, d);
    MulMonotone(2, d, q);
  }

  lemma DivDiv(x: int, a: int, b: int)
    requires a > 0 && b > 0
    ensures x / (a * b) == (x / a) / b
    ensures x % (a * b) == (x / a) % b * a + x % a
  {
    var q, r, s := (x / a) / b, (x / a) % b, x % a;
    assert x == (x / a) * a + s;
    assert x / a == q * b + r;
    assert x == q * (a * b) + (r * a + s) by {
      assert (x / a) * a == (q * b + r) * a == q * (a * b) + r * a;
    }
    MulMonotone(r, b - 1, a);
    assert (b - 1) * a == a * b - a;
    MulNonneg(r, a);
    DivModUnique(x, a * b, q, r * a + s);
  }
}
