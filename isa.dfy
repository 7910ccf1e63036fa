// The instruction-set helpers of the CPU: field extraction from the
// instruction register, sign extension, condition-code bits, and the
// 16-bit results of the ALU, shift and rotate instructions, each written
// as the Java `int` expression the CPU evaluates, followed by the laws
// those results obey.
module Isa {
  import opened Words

  // ---------------------------------------------------------------------
  // Decoding: `(IR >> k) & mask` on a Java int is floor division then a
  // non-negative remainder, which is what Dafny's `/` and `%` compute for a
  // positive divisor.

  function Opcode(ir: int): int { (ir / 1024) % 64 }        // IR[15:10]
  function RField(ir: int): int { (ir / 256) % 4 }          // IR[9:8], also Rx
  function IxField(ir: int): int { (ir / 64) % 4 }          // IR[7:6], also Ry
  function IField(ir: int): int { (ir / 32) % 2 }           // IR[5]
  function AddressField(ir: int): int { ir % 32 }           // IR[4:0], also DEVID
  function AlField(ir: int): int { (ir / 128) % 2 }         // IR[7]
  function LrField(ir: int): int { (ir / 64) % 2 }          // IR[6]
  function CountField(ir: int): int { ir % 16 }             // IR[3:0]

  /** The immediate operand: IR[4:0], read as a signed 5-bit value for AIR and SIR only. */
  function Immediate(ir: int): int
  {
    var imm := ir % 32;
    if (Opcode(ir) == 6 || Opcode(ir) == 7) && imm >= 16 then imm - 32 else imm
  }

  /** The fields partition a 16-bit instruction word. */
  lemma DecodeFields(ir: Word)
    ensures 0 <= Opcode(ir) < 64 && 0 <= RField(ir) < 4 && 0 <= IxField(ir) < 4
    ensures 0 <= IField(ir) < 2 && 0 <= AddressField(ir) < 32
    ensures ir == Opcode(ir) * 1024 + RField(ir) * 256 + IxField(ir) * 64 + IField(ir) * 32 + AddressField(ir)
    ensures IxField(ir) == AlField(ir) * 2 + LrField(ir)
    ensures AddressField(ir) == (ir / 16) % 2 * 16 + CountField(ir)
  {
    var t1, t2, t3, t4 := ir / 32, ir / 64, ir / 256, ir / 1024;
    assert t2 == t1 / 2 by { DivDiv(ir, 32, 2); }
    assert t3 == t2 / 4 by { DivDiv(ir, 64, 4); }
    assert t4 == t3 / 4 by { DivDiv(ir, 256, 4); }
    assert ir == t1 * 32 + AddressField(ir);
    assert t1 == t2 * 2 + IField(ir);
    assert t2 == t3 * 4 + IxField(ir);
    assert t3 == t4 * 4 + RField(ir);
    assert Opcode(ir) == t4;
    assert IxField(ir) == AlField(ir) * 2 + LrField(ir) by {
      DivDiv(ir, 64, 2);
      DivDiv(t2, 2, 2);
    }
    assert AddressField(ir) == (ir / 16) % 2 * 16 + CountField(ir) by {
      DivDiv(ir, 16, 2);
    }
  }

  /** The AIR/SIR immediate lies in [-16, 15] and agrees with IR[4:0] modulo 32. */
  lemma ImmediateRange(ir: Word)
    requires Opcode(ir) == 6 || Opcode(ir) == 7
    ensures -16 <= Immediate(ir) <= 15
    ensures (Immediate(ir) - AddressField(ir)) % 32 == 0
    ensures Immediate(ir) < 0 <==> (ir / 16) % 2 == 1
  {
    DivDiv(ir, 16, 2);
  }

  // ---------------------------------------------------------------------
  // Signed views and condition codes

  /** `signExtend`: if bit 15 is set, `v | 0xFFFF0000`, i.e. the low 16 bits minus 2^16. */
  function SignExtend(v: int): (r: int)
    ensures 0 <= v < 0x1_0000 ==>
      && -0x8000 <= r < 0x8000
      && Mask16(r) == v
      && (r < 0 <==> v >= 0x8000)
  {
    if (v / 0x8000) % 2 == 1 then v % 0x1_0000 - 0x1_0000 else v
  }

  /** A value in the signed 16-bit range survives masking and sign extension. */
  lemma SignExtendOfMask(x: int)
    requires -0x8000 <= x < 0x8000
    ensures SignExtend(Mask16(x)) == x
  {
    if x < 0 {
      DivModUnique(x, 0x1_0000, -1, x + 0x1_0000);
      DivModUnique(x + 0x1_0000, 0x8000, 1, x + 0x8000);
    } else {
      DivModUnique(x, 0x8000, 0, x);
    }
  }

  /** Adding two words as signed values gives the same low sixteen bits as adding them unsigned. */
  lemma SignedSumMasks(a: Word, b: Word)
    ensures Mask16(SignExtend(a) + SignExtend(b)) == Mask16(a + b)
  {
    assert (SignExtend(a) + SignExtend(b) - (a + b)) % 0x1_0000 == 0 by {
      assert (SignExtend(a) - a) % 0x1_0000 == 0 && (SignExtend(b) - b) % 0x1_0000 == 0;
      AddMultiples(SignExtend(a) - a, SignExtend(b) - b);
    }
    MaskCongruent(SignExtend(a) + SignExtend(b), a + b);
  }

  /** Subtracting two words as signed values gives the same low sixteen bits as subtracting them unsigned. */
  lemma SignedDifferenceMasks(a: Word, b: Word)
    ensures Mask16(SignExtend(a) - SignExtend(b)) == Mask16(a - b)
  {
    var x, y := SignExtend(a) - a, SignExtend(b) - b;
    assert x % 0x1_0000 == 0 && y % 0x1_0000 == 0;
    DivModUnique(x - y, 0x1_0000, x / 0x1_0000 - y / 0x1_0000, 0);
    MaskCongruent(SignExtend(a) - SignExtend(b), a - b);
  }

  lemma AddMultiples(x: int, y: int)
    requires x % 0x1_0000 == 0 && y % 0x1_0000 == 0
    ensures (x + y) % 0x1_0000 == 0
  {
    DivModUnique(x + y, 0x1_0000, x / 0x1_0000 + y / 0x1_0000, 0);
  }

  /** Values that differ by a multiple of 2^16 mask to the same word. */
  lemma MaskCongruent(x: int, y: int)
    requires (x - y) % 0x1_0000 == 0
    ensures Mask16(x) == Mask16(y)
  {
    DivModUnique(x, 0x1_0000, y / 0x1_0000 + (x - y) / 0x1_0000, y % 0x1_0000);
  }

  /** `getCCBit(bit)`: bit `3 - bit` of CC, so field value 0 reads the most significant of the four. */
  function CCBit(cc: int, bit: int): (r: int)
    requires 0 <= bit < 4
    ensures r == 0 || r == 1
  {
    (cc / Pow2(3 - bit)) % 2
  }

  /** `setCC(value)`: CC becomes 8 (binary 1000) when `value` is zero and 0 otherwise. */
  function CompareCC(value: int): int
  {
    if value == 0 then 8 else 0
  }

  /** `CC | 4` on a Java int: sets bit 2 and leaves the others. */
  function WithDivZero(cc: int): int
  {
    if (cc / 4) % 2 == 1 then cc else cc + 4
  }

  /** After TRR, field value 0 of JCC reads the bit TRR set; field value 3 reads a clear bit. */
  lemma CompareCCBits(equal: bool)
    ensures CCBit(CompareCC(if equal then 0 else 1), 0) == (if equal then 1 else 0)
    ensures CCBit(CompareCC(if equal then 0 else 1), 1) == 0
    ensures CCBit(CompareCC(if equal then 0 else 1), 2) == 0
    ensures CCBit(CompareCC(if equal then 0 else 1), 3) == 0
  {
    assert Pow2(3) == 8 && Pow2(2) == 4 && Pow2(1) == 2 && Pow2(0) == 1;
  }

  /** The DIVZERO update makes the bit JCC reads with field value 1 one, and no other bit changes. */
  lemma DivZeroBit(cc: int)
    ensures CCBit(WithDivZero(cc), 1) == 1
    ensures CCBit(WithDivZero(cc), 0) == CCBit(cc, 0)
    ensures CCBit(WithDivZero(cc), 2) == CCBit(cc, 2)
    ensures CCBit(WithDivZero(cc), 3) == CCBit(cc, 3)
  {
    assert Pow2(3) == 8 && Pow2(2) == 4 && Pow2(1) == 2 && Pow2(0) == 1;
    if (cc / 4) % 2 == 0 {
      var q8, r4 := cc / 8, cc % 4;
      assert cc % 8 == r4 by {
        DivDiv(cc, 4, 2);
      }
      DivModUnique(cc + 4, 8, q8, r4 + 4);
      DivModUnique(cc + 4, 4, cc / 4 + 1, r4);
      DivModUnique(cc + 4, 2, cc / 2 + 2, cc % 2);
    }
  }

  // ---------------------------------------------------------------------
  // Java's `&` and `|` on non-negative ints, bit by bit

  function BitAnd(a: nat, b: nat): nat
    decreases a + b
  {
    if a == 0 || b == 0 then 0 else 2 * BitAnd(a / 2, b / 2) + (if a % 2 == 1 && b % 2 == 1 then 1 else 0)
  }

  function BitOr(a: nat, b: nat): nat
    decreases a + b
  {
    if a == 0 && b == 0 then 0
    else 2 * BitOr(a / 2, b / 2) + (if a % 2 == 1 || b % 2 == 1 then 1 else 0)
  }

  /** Bit k of a non-negative integer. */
  function Bit(x: nat, k: nat): nat
  {
    (x / Pow2(k)) % 2
  }

  lemma {:induction false} BitHalf(x: nat, k: nat)
    ensures Bit(x, k + 1) == Bit(x / 2, k)
    ensures Bit(x, 0) == x % 2
  {
    calc {
      x / Pow2(k + 1);
      x / (2 * Pow2(k));
      { DivModUnique(x, 2 * Pow2(k), (x / 2) / Pow2(k), x % 2 + 2 * ((x / 2) % Pow2(k))); }
      (x / 2) / Pow2(k);
    }
  }

  /** The low bit of `&` and `|`, and what is left after it. */
  lemma BitStep(a: nat, b: nat)
    ensures BitAnd(a, b) % 2 == (if a % 2 == 1 && b % 2 == 1 then 1 else 0)
    ensures BitAnd(a, b) / 2 == BitAnd(a / 2, b / 2)
    ensures BitOr(a, b) % 2 == (if a % 2 == 1 || b % 2 == 1 then 1 else 0)
    ensures BitOr(a, b) / 2 == BitOr(a / 2, b / 2)
  {
    if a == 0 || b == 0 {
      assert BitAnd(a / 2, b / 2) == 0;
    } else {
      DivModUnique(BitAnd(a, b), 2, BitAnd(a / 2, b / 2), if a % 2 == 1 && b % 2 == 1 then 1 else 0);
    }
    if a == 0 && b == 0 {
      assert BitOr(a / 2, b / 2) == 0;
    } else {
      DivModUnique(BitOr(a, b), 2, BitOr(a / 2, b / 2), if a % 2 == 1 || b % 2 == 1 then 1 else 0);
    }
  }

  /** `&` acts on each bit independently. */
  lemma {:induction false} BitAndAt(a: nat, b: nat, k: nat)
    ensures Bit(BitAnd(a, b), k) == if Bit(a, k) == 1 && Bit(b, k) == 1 then 1 else 0
    decreases k
  {
    BitStep(a, b);
    if k == 0 {
      BitHalf(a, 0); BitHalf(b, 0); BitHalf(BitAnd(a, b), 0);
    } else {
      BitAndAt(a / 2, b / 2, k - 1);
      BitHalf(a, k - 1); BitHalf(b, k - 1); BitHalf(BitAnd(a, b), k - 1);
    }
  }

  /** `|` acts on each bit independently. */
  lemma {:induction false} BitOrAt(a: nat, b: nat, k: nat)
    ensures Bit(BitOr(a, b), k) == if Bit(a, k) == 1 || Bit(b, k) == 1 then 1 else 0
    decreases k
  {
    BitStep(a, b);
    if k == 0 {
      BitHalf(a, 0); BitHalf(b, 0); BitHalf(BitOr(a, b), 0);
    } else {
      BitOrAt(a / 2, b / 2, k - 1);
      BitHalf(a, k - 1); BitHalf(b, k - 1); BitHalf(BitOr(a, b), k - 1);
    }
  }

  lemma {:induction false} BitOrZero(y: nat)
    ensures BitOr(0, y) == y && BitOr(y, 0) == y
    decreases y
  {
    if y > 0 {
      BitOrZero(y / 2);
    }
  }

  lemma {:induction false} BitOrCommutes(a: nat, b: nat)
    ensures BitOr(a, b) == BitOr(b, a)
    decreases a + b
  {
    if a != 0 || b != 0 {
      BitOrCommutes(a / 2, b / 2);
    }
  }

  /** Halving a value below 2^k and a multiple of 2^k, for k > 0. */
  lemma HalvePow2(x: nat, m: nat, k: nat)
    requires 0 < k && x < Pow2(k)
    ensures x / 2 < Pow2(k - 1)
    ensures m * Pow2(k) == 2 * (m * Pow2(k - 1))
  {
    MulAssoc(m, Pow2(k - 1), 2);
  }

  /** One step of BitOrDisjoint: an even operand adds no low bit. */
  lemma BitOrEvenStep(x: nat, z: nat)
    requires BitOr(x / 2, z) == x / 2 + z
    ensures BitOr(x, 2 * z) == x + 2 * z
  {
    var y := 2 * z;
    assert y / 2 == z && y % 2 == 0;
    if x != 0 || y != 0 {
      assert BitOr(x, y) == 2 * BitOr(x / 2, z) + x % 2;
    }
  }

  /** `|` of a value below 2^k and a multiple of 2^k is their sum. */
  lemma {:induction false} BitOrDisjoint(x: nat, m: nat, k: nat)
    requires x < Pow2(k)
    ensures BitOr(x, m * Pow2(k)) == x + m * Pow2(k)
    ensures BitOr(m * Pow2(k), x) == x + m * Pow2(k)
  {
    var y := m * Pow2(k);
    assert BitOr(x, y) == x + y by {
      if k == 0 {
        BitOrZero(m);
      } else {
        HalvePow2(x, m, k);
        BitOrDisjoint(x / 2, m, k - 1);
        BitOrEvenStep(x, m * Pow2(k - 1));
      }
    }
    BitOrCommutes(x, y);
  }

  // ---------------------------------------------------------------------
  // Logic, shift and rotate results (the CPU masks each with 0xFFFF)

  function And16(a: Word, b: Word): Word { Mask16(BitAnd(a, b)) }
  function Or16(a: Word, b: Word): Word { Mask16(BitOr(a, b)) }

  /** Adding a multiple of d moves the quotient by that multiple and keeps the remainder. */
  lemma MulDivAdd(a: int, b: int, d: int)
    requires d > 0
    ensures (a * d + b) / d == a + b / d && (a * d + b) % d == b % d
  {
    assert (a + b / d) * d == a * d + (b / d) * d;
    DivModUnique(a * d + b, d, a + b / d, b % d);
  }

  lemma MulAssoc(a: int, b: int, c: int)
    ensures (a * b) * c == a * (b * c)
  {
  }

  lemma MulSubDistrib(a: int, b: int, c: int)
    ensures (a - b) * c == a * c - b * c
  {
  }

  /** Pow2(k) and Pow2(16 - k) multiply to 2^16, and the second is even. */
  lemma SplitSixteen(k: nat)
    requires k < 16
    ensures Pow2(k) * Pow2(16 - k) == 0x1_0000
    ensures Pow2(16 - k) == 2 * Pow2(15 - k)
  {
    Pow2Add(k, 16 - k);
    Pow2Sixteen();
  }

  /** Masking with 0xFFFF keeps bits 0..15. */
  lemma MaskKeepsLowBits(x: nat, k: nat)
    requires k < 16
    ensures Bit(Mask16(x), k) == Bit(x, k)
  {
    var p, q := Pow2(k), Pow2(16 - k);
    SplitSixteen(k);
    var hi, lo := x / 0x1_0000, x % 0x1_0000;
    DivModSplit(x, 0x1_0000);
    var h2 := hi * Pow2(15 - k);
    var c := h2 * 2;
    assert c * p == hi * 0x1_0000 by {
      MulAssoc(hi, Pow2(15 - k), 2);
      MulAssoc(hi, q, p);
    }
    MulDivAdd(c, lo, p);
    MulDivAdd(h2, lo / p, 2);
  }

  /** `0xFFFF - v` flips each of the sixteen bits of v. */
  lemma ComplementBit(v: Word, k: nat)
    requires k < 16
    ensures Bit(0xFFFF - v, k) == 1 - Bit(v, k)
  {
    var p, q := Pow2(k), Pow2(16 - k);
    SplitSixteen(k);
    var t, l := v / p, v % p;
    DivModSplit(v, p);
    DivBound(v, p);
    QuotientBelow(v, q, p);
    var u := q - 1 - t;
    assert u * p == 0x1_0000 - p - t * p by {
      MulSubDistrib(q - 1, t, p);
      MulSubDistrib(q, 1, p);
    }
    DivModUnique(0xFFFF - v, p, u, p - 1 - l);
    DivModSplit(t, 2);
    DivModUnique(u, 2, Pow2(15 - k) - 1 - t / 2, 1 - t % 2);
  }

  /** AND, ORR and NOT act on each of the sixteen bits independently. */
  lemma LogicBits(a: Word, b: Word)
    ensures forall k :: 0 <= k < 16 ==>
      Bit(And16(a, b), k) == if Bit(a, k) == 1 && Bit(b, k) == 1 then 1 else 0
    ensures forall k :: 0 <= k < 16 ==>
      Bit(Or16(a, b), k) == if Bit(a, k) == 1 || Bit(b, k) == 1 then 1 else 0
    ensures forall k :: 0 <= k < 16 ==> Bit(Not16(a), k) == 1 - Bit(a, k)
  {
    forall k | 0 <= k < 16
      ensures Bit(And16(a, b), k) == if Bit(a, k) == 1 && Bit(b, k) == 1 then 1 else 0
      ensures Bit(Or16(a, b), k) == if Bit(a, k) == 1 || Bit(b, k) == 1 then 1 else 0
      ensures Bit(Not16(a), k) == 1 - Bit(a, k)
    {
      ComplementBit(a, k);
      MaskKeepsLowBits(BitAnd(a, b), k);
      BitAndAt(a, b, k);
      MaskKeepsLowBits(BitOr(a, b), k);
      BitOrAt(a, b, k);
    }
  }

  /** `(~v) & 0xFFFF`: Java's `~v` is `-v - 1`. */
  function Not16(v: Word): (r: Word)
    ensures r == 0xFFFF - v
  {
    Mask16(-(v as int) - 1)
  }

  /** `(v << c) & 0xFFFF`; for a 16-bit v and c < 16 the Java shift does not overflow. */
  function ShiftLeft(v: Word, c: nat): Word { Mask16(v * Pow2(c)) }

  /** `v >>> c` on a non-negative int. */
  function ShiftRightLogical(v: Word, c: nat): (r: Word)
    ensures r <= v
  {
    DivBound(v, Pow2(c));
    v / Pow2(c)
  }

  /** `(signExtend(v) >> c) & 0xFFFF`: Java's `>>` rounds toward minus infinity. */
  function ShiftRightArithmetic(v: Word, c: nat): Word { Mask16(SignExtend(v) / Pow2(c)) }

  /** `((v << c) | (v >>> (16 - c))) & 0xFFFF`. */
  function RotateLeft(v: Word, c: nat): Word
    requires c < 16
  {
    MulNonneg(v, Pow2(c));
    DivBound(v, Pow2(16 - c));
    Mask16(BitOr(v * Pow2(c), v / Pow2(16 - c)))
  }

  /** `((v >>> c) | (v << (16 - c))) & 0xFFFF`; masking keeps only bits Java's 32-bit shift also keeps. */
  function RotateRight(v: Word, c: nat): Word
    requires c < 16
  {
    MulNonneg(v, Pow2(16 - c));
    DivBound(v, Pow2(c));
    Mask16(BitOr(v / Pow2(c), v * Pow2(16 - c)))
  }

  /** Arithmetic right shift replicates bit 15: of a negative word it is the complement of the logical shift of the complement. */
  lemma ArithmeticShiftReplicatesSign(v: Word, c: nat)
    ensures v < 0x8000 ==> ShiftRightArithmetic(v, c) == ShiftRightLogical(v, c)
    ensures v >= 0x8000 ==> ShiftRightArithmetic(v, c) == Not16(ShiftRightLogical(Not16(v), c))
    ensures (ShiftRightArithmetic(v, c) >= 0x8000) == (v >= 0x8000)
  {
    var p := Pow2(c);
    if v < 0x8000 {
      DivModUnique(v, 0x8000, 0, v);
      assert SignExtend(v) == v;
      DivBound(v, p);
    } else {
      DivModUnique(v, 0x8000, 1, v - 0x8000);
      var y := 0xFFFF - v;
      assert SignExtend(v) == -(y + 1);
      var q, r := y / p, y % p;
      DivBound(y, p);
      assert (-q - 1) * p + (p - 1 - r) == -(q * p + r) - 1;
      DivModUnique(-(y + 1), p, -q - 1, p - 1 - r);
      DivModUnique(-q - 1, 0x1_0000, -1, 0xFFFF - q);
      assert Not16(v) == y;
    }
  }

  /** Shifting a word up by p and wrapping at 2^16 exchanges its low and high parts. */
  lemma SwapHalves(v: Word, p: nat, q: nat)
    requires p >= 1 && q >= 1 && p * q == 0x1_0000
    ensures v / q < p
    ensures 0 <= (v % q) * p + v / q < 0x1_0000
    ensures (v * p + v / q) % 0x1_0000 == (v % q) * p + v / q
  {
    var hi, lo := v / q, v % q;
    QuotientBelow(v, p, q);
    assert v * p == hi * 0x1_0000 + lo * p by {
      assert v == hi * q + lo;
      assert v * p == (hi * q + lo) * p == hi * (q * p) + lo * p;
    }
    assert 0 <= lo * p + hi < 0x1_0000 by {
      MulMonotone(lo, q - 1, p);
      assert (q - 1) * p == 0x1_0000 - p;
      MulNonneg(lo, p);
    }
    DivModUnique(v * p + hi, 0x1_0000, hi, lo * p + hi);
  }

  /** A word divided by q is below p when p * q is 2^16. */
  lemma QuotientBelow(v: Word, p: nat, q: nat)
    requires q >= 1 && p * q == 0x1_0000
    ensures 0 <= v / q < p
  {
    var hi := v / q;
    DivBound(v, q);
    if hi >= p {
      MulMonotone(p, hi, q);
    }
  }

  /** Left rotation moves the low 16 - c bits up and the top c bits to the bottom. */
  lemma RotateLeftValue(v: Word, c: nat)
    requires c < 16
    ensures RotateLeft(v, c) == (v % Pow2(16 - c)) * Pow2(c) + v / Pow2(16 - c)
  {
    var p, q := Pow2(c), Pow2(16 - c);
    assert p * q == 0x1_0000 by {
      Pow2Add(c, 16 - c);
      Pow2Sixteen();
    }
    var w := v * p + v / q;
    assert w % 0x1_0000 == (v % q) * p + v / q by {
      SwapHalves(v, p, q);
    }
    assert RotateLeft(v, c) == w % 0x1_0000 by {
      QuotientBelow(v, p, q);
      MulNonneg(v, p);
      BitOrDisjoint(v / q, v, c);
    }
  }

  /** Right rotation moves the top 16 - c bits down and the low c bits to the top. */
  lemma RotateRightValue(v: Word, c: nat)
    requires c < 16
    ensures RotateRight(v, c) == (v % Pow2(c)) * Pow2(16 - c) + v / Pow2(c)
  {
    var p, q := Pow2(16 - c), Pow2(c);
    assert p * q == 0x1_0000 by {
      Pow2Add(16 - c, c);
      Pow2Sixteen();
    }
    var w := v * p + v / q;
    assert w % 0x1_0000 == (v % q) * p + v / q by {
      SwapHalves(v, p, q);
    }
    assert RotateRight(v, c) == w % 0x1_0000 by {
      QuotientBelow(v, p, q);
      MulNonneg(v, p);
      BitOrDisjoint(v / q, v, 16 - c);
    }
  }

  /** Rotating left by c and then right by c gives back the word. */
  lemma RotateRoundTrip(v: Word, c: nat)
    requires c < 16
    ensures RotateRight(RotateLeft(v, c), c) == v
  {
    var p, q := Pow2(c), Pow2(16 - c);
    assert p * q == 0x1_0000 by {
      Pow2Add(c, 16 - c);
      Pow2Sixteen();
    }
    var hi, lo := v / q, v % q;
    assert v == hi * q + lo by {
      DivModSplit(v, q);
    }
    assert 0 <= hi < p by {
      SwapHalves(v, p, q);
      DivBound(v, q);
    }
    assert RotateLeft(v, c) == lo * p + hi by {
      RotateLeftValue(v, c);
    }
    var w := lo * p + hi;
    assert w / p == lo && w % p == hi by {
      DivModUnique(w, p, lo, hi);
    }
    RotateRightValue(w, c);
  }

  // ---------------------------------------------------------------------
  // Multiply and divide

  /** The upper half of a 32-bit product as MLT stores it: `(result >> 16) & 0xFFFF`. */
  function HighHalf(p: int): Word { Mask16(p / 0x1_0000) }

  /** The lower half: `result & 0xFFFF`. */
  function LowHalf(p: int): Word { Mask16(p) }

  /** The two halves MLT stores recombine into the product of the signed operands. */
  lemma ProductSplit(a: Word, b: Word)
    ensures var p := SignExtend(a) * SignExtend(b);
      IsInt32(p) && SignExtend(HighHalf(p)) * 0x1_0000 + LowHalf(p) == p
  {
    var x, y := SignExtend(a), SignExtend(b);
    var p := x * y;
    assert -0x4000_0000 <= p <= 0x4000_0000 by {
      ProductBound(x, y);
    }
    var f := p / 0x1_0000;
    assert -0x4000 <= f <= 0x4000;
    var h := HighHalf(p);
    assert SignExtend(h) == f by {
      if f < 0 {
        DivModUnique(f, 0x1_0000, -1, f + 0x1_0000);
      }
    }
  }

  lemma ProductBound(x: int, y: int)
    requires -0x8000 <= x <= 0x8000 && -0x8000 <= y <= 0x8000
    ensures -0x4000_0000 <= x * y <= 0x4000_0000
  {
    var ax := if x < 0 then -x else x;
    var ay := if y < 0 then -y else y;
    MulMonotone(ax, 0x8000, ay);
    MulMonotone(ay, 0x8000, 0x8000);
    MulNonneg(ax, ay);
    if x < 0 && y < 0 {
      assert x * y == ax * ay;
    } else if x < 0 {
      assert x * y == -(ax * ay);
    } else if y < 0 {
      assert x * y == -(ax * ay);
    }
  }

  /** Java's `/`: the quotient rounded toward zero. */
  function TruncDiv(a: int, b: int): int
    requires b != 0
  {
    var q := Abs(a) / Abs(b);
    if (a < 0) != (b < 0) then -q else q
  }

  /** Java's `%`: the remainder taking the sign of the dividend. */
  function TruncRem(a: int, b: int): int
    requires b != 0
  {
    var r := Abs(a) % Abs(b);
    if a < 0 then -r else r
  }

  function Abs(x: int): nat { if x < 0 then -x else x }

  /** Quotient and remainder satisfy Java's division identity, with the remainder smaller than the divisor and signed like the dividend. */
  lemma TruncDivision(a: int, b: int)
    requires b != 0
    ensures a == b * TruncDiv(a, b) + TruncRem(a, b)
    ensures Abs(TruncRem(a, b)) < Abs(b)
    ensures TruncRem(a, b) == 0 || (TruncRem(a, b) < 0 <==> a < 0)
    ensures Abs(TruncDiv(a, b)) == Abs(a) / Abs(b)
  {
    var q, r := Abs(a) / Abs(b), Abs(a) % Abs(b);
    assert Abs(a) == q * Abs(b) + r;
    DivBound(Abs(a), Abs(b));
    if a < 0 && b < 0 {
      assert b * q == -(q * Abs(b));
    } else if a < 0 {
      assert b * -q == -(q * Abs(b));
    } else if b < 0 {
      assert b * -q == q * Abs(b);
    } else {
      assert b * q == q * Abs(b);
    }
  }

  /**
   * For 16-bit signed operands the quotient fits in 16 signed bits except for
   * -32768 / -1, whose quotient 32768 MLT's masking turns into 0x8000; the
   * remainder always fits.
   */
  lemma QuotientRange(x: int, y: int)
    requires -0x8000 <= x < 0x8000 && -0x8000 <= y < 0x8000 && y != 0
    ensures -0x8000 <= TruncDiv(x, y) <= 0x8000
    ensures TruncDiv(x, y) == 0x8000 <==> x == -0x8000 && y == -1
    ensures -0x8000 < TruncRem(x, y) < 0x8000
  {
    var q := Abs(x) / Abs(y);
    TruncDivision(x, y);
    DivModSplit(Abs(x), Abs(y));
    DivBound(Abs(x), Abs(y));
    if Abs(y) >= 2 {
      MulMonotone(2, Abs(y), q);
      assert q <= 0x4000;
    } else {
      assert q == Abs(x);
    }
  }
}
