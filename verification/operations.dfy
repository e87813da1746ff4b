/** The manual's meaning of the register operations (RISC-V Instruction Set Manual, Volume I,
    sections 2.4, 7.1 and 7.2), and where the emulator's arithmetic agrees with it. */
module Operations {
  import opened Words
  import opened Encoding
  import opened Alu
  import opened RoundTrip

  // ----- division ------------------------------------------------------------

  /** The law of signed division: the dividend is divisor times quotient plus a remainder smaller
      than the divisor that is zero or has the dividend's sign. */
  predicate DivRem(a: int, b: int, q: int, r: int) {
    a == b * q + r && Abs(r) < Abs(b) && (r == 0 || (r < 0) == (a < 0))
  }

  lemma SmallMultiple(d: int, b: int)
    requires b != 0 && 0 - Abs(b) < b * d < Abs(b)
    ensures d == 0
  {
    if b > 0 { MultipleBounds(d, b); } else { MultipleBounds(d, -b); }
  }

  lemma DivRemUnique(a: int, b: int, q: int, r: int, q': int, r': int)
    requires DivRem(a, b, q, r) && DivRem(a, b, q', r')
    ensures q == q' && r == r'
  {
    var d := q - q';
    assert b * d == r' - r by { assert b * d == b * q - b * q'; }
    SmallMultiple(d, b);
  }

  lemma TruncDivRem(a: int, b: int)
    requires b != 0
    ensures DivRem(a, b, TruncDiv(a, b), TruncRem(a, b))
  {
    var m: int, n: int := Abs(a), Abs(b);
    var q: int, r: int := m / n, m % n;
    assert m == n * q + r;
    SignedMultiple(a, b, q);
  }

  lemma SignedMultiple(a: int, b: int, q: int)
    requires b != 0
    ensures b * (if (a < 0) == (b < 0) then q else -q) == if a < 0 then -(Abs(b) * q) else Abs(b) * q
  {
    if b < 0 { assert b * q == -(-b * q) && b * -q == -b * q; } else { assert b * -q == -(b * q); }
  }

  /** The quotient and remainder the law determines. */
  ghost function Quotient(a: int, b: int): int
    requires b != 0
  {
    TruncDivRem(a, b);
    var q :| exists r :: DivRem(a, b, q, r);
    q
  }

  ghost function Remainder(a: int, b: int): int
    requires b != 0
  {
    TruncDivRem(a, b);
    var r :| exists q :: DivRem(a, b, q, r);
    r
  }

  /** C's signed division and remainder obey the law of signed division, and nothing else does. */
  lemma TruncIsManual(a: int, b: int)
    requires b != 0
    ensures TruncDiv(a, b) == Quotient(a, b) && TruncRem(a, b) == Remainder(a, b)
  {
    TruncDivRem(a, b);
    var r :| DivRem(a, b, Quotient(a, b), r);
    var q :| DivRem(a, b, q, Remainder(a, b));
    DivRemUnique(a, b, Quotient(a, b), r, TruncDiv(a, b), TruncRem(a, b));
    DivRemUnique(a, b, q, Remainder(a, b), TruncDiv(a, b), TruncRem(a, b));
  }

  // ----- the manual's operations ---------------------------------------------

  /** Bit i of a logical left shift by s is bit i - s, or zero. */
  ghost function ShiftLeft(a: u32, s: nat): nat { FromBits((i: nat) => s <= i && Bit(a, i - s), 32) }

  ghost function ShiftRight(a: u32, s: nat): nat { FromBits((i: nat) => i + s < 32 && Bit(a, i + s), 32) }

  /** An arithmetic right shift copies the sign bit into the vacated upper bits. */
  ghost function ShiftRightArith(a: u32, s: nat): nat {
    FromBits((i: nat) => Bit(a, if i + s < 32 then i + s else 31), 32)
  }

  ghost function BitAnd(a: u32, b: u32): nat { FromBits((i: nat) => Bit(a, i) && Bit(b, i), 32) }

  ghost function BitOr(a: u32, b: u32): nat { FromBits((i: nat) => Bit(a, i) || Bit(b, i), 32) }

  ghost function BitXor(a: u32, b: u32): nat { FromBits((i: nat) => Bit(a, i) != Bit(b, i), 32) }

  /** The value the manual assigns to a register-register operation. */
  ghost function Manual(k: RegKind, a: u32, b: u32): int {
    match k
    case Add => Wrap32(Signed32(a) + Signed32(b))
    case Sub => Wrap32(Signed32(a) - Signed32(b))
    case Sll => ShiftLeft(a, b % 32)
    case Slt => if Signed32(a) < Signed32(b) then 1 else 0
    case Sltu => if a < b then 1 else 0
    case Xor => BitXor(a, b)
    case Srl => ShiftRight(a, b % 32)
    case Sra => ShiftRightArith(a, b % 32)
    case Or => BitOr(a, b)
    case And => BitAnd(a, b)
    case Mul => Wrap32(Signed32(a) * Signed32(b))
    case Mulh => Wrap32(Signed32(a) * Signed32(b) / TWO32)
    case Mulhsu => Wrap32(Signed32(a) * b / TWO32)
    case Mulhu => a * b / TWO32
    case Div => if b == 0 then 0xFFFF_FFFF else Wrap32(Quotient(Signed32(a), Signed32(b)))
    case Divu => if b == 0 then 0xFFFF_FFFF else a / b
    case Rem => if b == 0 then a else Wrap32(Remainder(Signed32(a), Signed32(b)))
    case Remu => if b == 0 then a else a % b
  }

  // ----- shifts and bitwise operations agree ---------------------------------

  lemma ShlIsShiftLeft(a: u32, s: nat)
    ensures Shl32(a, s) == ShiftLeft(a, s)
  {
    Pow2Of32();
    forall i: nat | i < 32 ensures Bit(Shl32(a, s), i) == (s <= i && Bit(a, i - s)) {
      BitOfRemainder(a * Pow2(s), 32, i);
      BitOfMultiple(a, s, i);
    }
    EqualsFromBits(Shl32(a, s), (i: nat) => s <= i && Bit(a, i - s));
  }

  lemma ShrIsShiftRight(a: u32, s: nat)
    ensures Shr32(a, s) == ShiftRight(a, s)
  {
    Pow2Of32();
    forall i: nat | i < 32 ensures Bit(Shr32(a, s), i) == (i + s < 32 && Bit(a, i + s)) {
      BitOfQuotient(a, s, i);
      if i + s >= 32 { BitOfSmall(a, 32, i + s); }
    }
    EqualsFromBits(Shr32(a, s), (i: nat) => i + s < 32 && Bit(a, i + s));
  }

  lemma SignBit(a: u32)
    ensures Bit(a, 31) == (a >= 0x8000_0000)
  {
    Pow2Of32();
    BitOfQuotient(a, 31, 0);
  }

  lemma NegativeQuotient(a: nat, p: nat, m: nat)
    requires p >= 1 && a < p * m
    ensures 0 <= a / p < m && (a - p * m) / p == a / p - m
  {
    DivideByPositive(a, p);
    var q, r := a / p, a % p;
    assert a == q * p + r;
    FactorBelow(q, m, p);
    assert a - p * m == (q - m) * p + r;
    QuotientIs(a - p * m, p, q - m, r);
  }

  lemma SarNegative(a: u32, s: nat)
    requires a >= 0x8000_0000 && s < 32
    ensures a / Pow2(s) < Pow2(32 - s)
    ensures Sar32(a, s) == a / Pow2(s) + TWO32 - Pow2(32 - s)
  {
    assert Pow2(s) * Pow2(32 - s) == TWO32 && Pow2(32 - s) <= TWO32 by {
      Pow2Of32();
      Pow2Add(s, 32 - s);
      Pow2Monotone(32 - s, 32);
    }
    hide Pow2;
    NegativeQuotient(a, Pow2(s), Pow2(32 - s));
  }

  lemma SarIsShiftRightArith(a: u32, s: nat)
    requires s < 32
    ensures Sar32(a, s) == ShiftRightArith(a, s)
  {
    SignBit(a);
    var f := (i: nat) => Bit(a, if i + s < 32 then i + s else 31);
    forall i: nat | i < 32 ensures Bit(Sar32(a, s), i) == f(i) {
      SarBit(a, s, i);
    }
    EqualsFromBits(Sar32(a, s), f);
  }

  lemma SarBit(a: u32, s: nat, i: nat)
    requires s < 32 && i < 32
    ensures Bit(Sar32(a, s), i) == Bit(a, if i + s < 32 then i + s else 31)
  {
    if a < 0x8000_0000 { SarBitPositive(a, s, i); } else { SarBitNegative(a, s, i); }
  }

  lemma SarBitPositive(a: u32, s: nat, i: nat)
    requires s < 32 && i < 32 && a < 0x8000_0000
    ensures Bit(Sar32(a, s), i) == Bit(a, if i + s < 32 then i + s else 31)
  {
    hide Pow2, Bit;
    Pow2Of32();
    SignBit(a);
    BitOfQuotient(a, s, i);
    DivideByPositive(a, Pow2(s));
    if i + s >= 32 { BitOfSmall(a, 31, i + s); }
  }

  lemma SarBitNegative(a: u32, s: nat, i: nat)
    requires s < 32 && i < 32 && a >= 0x8000_0000
    ensures Bit(Sar32(a, s), i) == Bit(a, if i + s < 32 then i + s else 31)
  {
    hide Pow2, Bit, Sar32;
    Pow2Of32();
    SignBit(a);
    BitOfQuotient(a, s, i);
    SarNegative(a, s);
    BitOfHighOnes(a / Pow2(s), 32 - s, 32, i);
  }

  lemma AndIsBitAnd(a: u32, b: u32)
    ensures And32(a, b) == BitAnd(a, b)
  {
    hide Bitwise;
    forall i: nat | i < 32 ensures Bit(And32(a, b), i) == (Bit(a, i) && Bit(b, i)) {
      BitOfBitwise(AndOp, 32, a, b, i);
    }
    EqualsFromBits(And32(a, b), (i: nat) => Bit(a, i) && Bit(b, i));
  }

  lemma OrIsBitOr(a: u32, b: u32)
    ensures Or32(a, b) == BitOr(a, b)
  {
    hide Bitwise;
    forall i: nat | i < 32 ensures Bit(Or32(a, b), i) == (Bit(a, i) || Bit(b, i)) {
      BitOfBitwise(OrOp, 32, a, b, i);
    }
    EqualsFromBits(Or32(a, b), (i: nat) => Bit(a, i) || Bit(b, i));
  }

  lemma XorIsBitXor(a: u32, b: u32)
    ensures Xor32(a, b) == BitXor(a, b)
  {
    hide Bitwise;
    forall i: nat | i < 32 ensures Bit(Xor32(a, b), i) == (Bit(a, i) != Bit(b, i)) {
      BitOfBitwise(XorOp, 32, a, b, i);
    }
    EqualsFromBits(Xor32(a, b), (i: nat) => Bit(a, i) != Bit(b, i));
  }

  // ----- high products -------------------------------------------------------

  /** Storing the unsigned product in an `i64` and shifting right arithmetically still gives its high
      half: the sign copies are truncated away. */
  lemma HighHalfValue(a: u32, b: u32)
    ensures HighHalf(a, b) == a * b / TWO32
  {
    ProductFits(a, b);
    HighHalfOf(a * b);
  }

  lemma HighHalfOf(p: u64)
    ensures Wrap32(Signed64(p) / TWO32) == p / TWO32
  {
  }

  /** Wrapping away multiples of 2^32 from a shifted product. */
  lemma HighShift(p: int, t: int)
    ensures (p - TWO32 * t) / TWO32 == p / TWO32 - t
  {
  }

  lemma WrapDifference(x: u32, t: int)
    ensures Wrap32(x - t) == x <==> t % TWO32 == 0
  {
  }

  lemma MulhsuAgrees(a: u32, b: u32)
    ensures HighHalf(a, b) == Manual(Mulhsu, a, b) <==> a < 0x8000_0000 || b == 0
  {
    HighHalfValue(a, b);
    ProductFits(a, b);
    if a >= 0x8000_0000 {
      assert Signed32(a) * b == a * b - TWO32 * b;
      HighShift(a * b, b);
      WrapDifference(a * b / TWO32, b);
    }
  }

  /** The sign bit as a number. */
  function Neg(a: u32): nat { if a >= 0x8000_0000 then 1 else 0 }

  /** What the signed product misses of the unsigned one, in units of 2^32. */
  function SignedExcess(a: u32, b: u32): int { Neg(a) * b + Neg(b) * a - TWO32 * Neg(a) * Neg(b) }

  lemma SignedProduct(a: u32, b: u32)
    ensures Signed32(a) * Signed32(b) == a * b - TWO32 * SignedExcess(a, b)
  {
    if a >= 0x8000_0000 {
      assert (a - TWO32) * b == a * b - TWO32 * b;
      assert (a - TWO32) * (b - TWO32) == a * b - TWO32 * b - TWO32 * a + TWO32 * TWO32;
    } else {
      assert a * (b - TWO32) == a * b - TWO32 * a;
    }
  }

  lemma MulLow(a: u32, b: u32)
    ensures Wrap32(Signed32(a) * Signed32(b)) == Wrap32(a * b)
  {
    SignedProduct(a, b);
    WrapMultiple(a * b, SignedExcess(a, b));
  }

  /** The operands on which MULH as coded is defined and right. */
  predicate MulhOk(a: u32, b: u32) {
    || (a < 0x8000_0000 && b < 0x8000_0000)
    || a == 0 || b == 0
    || (a == 0x8000_0000 && b == 0x8000_0000)
  }

  lemma MulhOkExcess(a: u32, b: u32)
    ensures SignedExcess(a, b) % TWO32 == 0 <==> MulhOk(a, b)
  {
  }

  lemma MulhOkDefined(a: u32, b: u32)
    requires MulhOk(a, b)
    ensures a * b < TWO63
  {
    if a < 0x8000_0000 && b < 0x8000_0000 { ProductBound(a, b, 0x7FFF_FFFF, 0x7FFF_FFFF); }
  }

  /** What the three high products give for any operands: the unsigned high half, MULH only where the
      product fits a signed 64-bit word. */
  lemma HighProducts(a: u32, b: u32)
    ensures RegReg(RegTy(Mulhu), a, b) == Some(a * b / 0x1_0000_0000)
    ensures RegReg(RegTy(Mulhsu), a, b) == Some(a * b / 0x1_0000_0000)
    ensures RegReg(RegTy(Mulh), a, b)
         == if a * b < 0x8000_0000_0000_0000 then Some(a * b / 0x1_0000_0000) else None
  {
    hide HighHalf, And32, Or32, Xor32, Shl32, Shr32, Sar32, TruncDiv, TruncRem;
    HighHalfValue(a, b);
  }

  /** Division and remainder are undefined by zero, and signed ones where the quotient overflows. */
  lemma DivisionUndefined(a: u32, b: u32)
    ensures RegReg(RegTy(Divu), a, b) == None <==> b == 0
    ensures RegReg(RegTy(Remu), a, b) == None <==> b == 0
    ensures RegReg(RegTy(Div), a, b) == None <==> b == 0 || (a == 0x8000_0000 && b == 0xFFFF_FFFF)
    ensures RegReg(RegTy(Rem), a, b) == None <==> b == 0 || (a == 0x8000_0000 && b == 0xFFFF_FFFF)
  {
    hide HighHalf, And32, Or32, Xor32, Shl32, Shr32, Sar32, TruncDiv, TruncRem, Wrap32;
  }

  /** The least negative operand times one: MULHSU gives 0, the manual -1. */
  lemma MulhsuWitness()
    ensures RegReg(RegTy(Mulhsu), 0x8000_0000, 1) == Some(0) && Manual(Mulhsu, 0x8000_0000, 1) == 0xFFFF_FFFF
  {
    hide HighHalf, And32, Or32, Xor32, Shl32, Shr32, Sar32, TruncDiv, TruncRem, Quotient, Remainder;
    HighHalfValue(0x8000_0000, 1);
  }

  /** So does MULH; and -1 times -1 overflows its signed product. */
  lemma MulhWitness()
    ensures RegReg(RegTy(Mulh), 0x8000_0000, 1) == Some(0) && Manual(Mulh, 0x8000_0000, 1) == 0xFFFF_FFFF
    ensures RegReg(RegTy(Mulh), 0xFFFF_FFFF, 0xFFFF_FFFF) == None
  {
    hide HighHalf, And32, Or32, Xor32, Shl32, Shr32, Sar32, TruncDiv, TruncRem, Quotient, Remainder;
    HighHalfValue(0x8000_0000, 1);
  }

  lemma MulhAgrees(a: u32, b: u32)
    ensures (a * b < TWO63 && HighHalf(a, b) == Manual(Mulh, a, b)) <==> MulhOk(a, b)
  {
    hide SignedExcess, MulhOk, HighHalf;
    HighHalfValue(a, b);
    ProductFits(a, b);
    SignedProduct(a, b);
    HighShift(a * b, SignedExcess(a, b));
    WrapDifference(a * b / TWO32, SignedExcess(a, b));
    MulhOkExcess(a, b);
    if MulhOk(a, b) { MulhOkDefined(a, b); }
  }

  lemma WrapMultiple(p: int, t: int)
    ensures Wrap32(p - TWO32 * t) == Wrap32(p)
  {
  }

  // ----- agreement -----------------------------------------------------------

  /** The operands on which the emulator's register-register arithmetic is defined and right. */
  predicate OperandsOk(k: RegKind, a: u32, b: u32) {
    match k
    case Mulh => MulhOk(a, b)
    case Mulhsu => a < 0x8000_0000 || b == 0
    case Div => !SignedDivUndefined(a, b)
    case Rem => !SignedDivUndefined(a, b)
    case Divu => b != 0
    case Remu => b != 0
    case _ => true
  }

  lemma AddSubAgree(a: u32, b: u32)
    ensures Wrap32(a + b) == Manual(Add, a, b) && Wrap32(a - b) == Manual(Sub, a, b)
  {
  }

  lemma ShiftsAgree(a: u32, b: u32)
    ensures Shl32(a, And32(b, 0x1f)) == ShiftLeft(a, b % 32)
    ensures Shr32(a, And32(b, 0x1f)) == ShiftRight(a, b % 32)
    ensures Sar32(a, And32(b, 0x1f)) == ShiftRightArith(a, b % 32)
  {
    hide And32, Shl32, Shr32, Sar32, ShiftLeft, ShiftRight, ShiftRightArith;
    AndShiftMask(b);
    ShlIsShiftLeft(a, b % 32);
    ShrIsShiftRight(a, b % 32);
    SarIsShiftRightArith(a, b % 32);
  }

  lemma DivisionAgrees(a: u32, b: u32)
    requires b != 0
    ensures TruncDiv(Signed32(a), Signed32(b)) == Quotient(Signed32(a), Signed32(b))
    ensures TruncRem(Signed32(a), Signed32(b)) == Remainder(Signed32(a), Signed32(b))
    ensures 0 <= a / b <= a && 0 <= a % b < b
  {
    TruncIsManual(Signed32(a), Signed32(b));
    DivideByPositive(a, b);
  }

  lemma BaseAgrees(k: RegKind, a: u32, b: u32)
    requires k.Add? || k.Sub? || k.Sll? || k.Srl? || k.Sra? || k.And? || k.Or? || k.Xor? || k.Slt? || k.Sltu?
    ensures RegReg(RegTy(k), a, b) == Some(Manual(k, a, b))
  {
    hide And32, Or32, Xor32, Shl32, Shr32, Sar32, BitAnd, BitOr, BitXor,
      ShiftLeft, ShiftRight, ShiftRightArith, Wrap32, Signed32;
    match k
    case Add => AddSubAgree(a, b);
    case Sub => AddSubAgree(a, b);
    case And => AndIsBitAnd(a, b);
    case Or => OrIsBitOr(a, b);
    case Xor => XorIsBitXor(a, b);
    case Slt =>
    case Sltu =>
    case _ => ShiftsAgree(a, b);
  }

  lemma MulGroupAgrees(k: RegKind, a: u32, b: u32)
    requires k.Mul? || k.Mulh? || k.Mulhsu? || k.Mulhu?
    ensures RegReg(RegTy(k), a, b) == Some(Manual(k, a, b)) <==> OperandsOk(k, a, b)
  {
    hide Signed32, HighHalf, MulhOk;
    match k
    case Mul => MulLow(a, b);
    case Mulh => MulhAgrees(a, b);
    case Mulhsu => MulhsuAgrees(a, b);
    case Mulhu => HighHalfValue(a, b);
    case _ =>
  }

  lemma SignedDivAgrees(k: RegKind, a: u32, b: u32)
    requires k.Div? || k.Rem?
    ensures RegReg(RegTy(k), a, b) == Some(Manual(k, a, b)) <==> OperandsOk(k, a, b)
  {
    hide Quotient, Remainder, TruncDiv, TruncRem, Signed32, Wrap32;
    if !SignedDivUndefined(a, b) { DivisionAgrees(a, b); }
  }

  lemma UnsignedDivAgrees(k: RegKind, a: u32, b: u32)
    requires k.Divu? || k.Remu?
    ensures RegReg(RegTy(k), a, b) == Some(Manual(k, a, b)) <==> OperandsOk(k, a, b)
  {
    hide Quotient, Remainder, TruncDiv, TruncRem, Signed32;
    if b != 0 { DivideByPositive(a, b); }
  }

  /** The emulator computes the manual's result for a register-register operation exactly on the
      operands `OperandsOk` names; on all others it is undefined or differs. */
  lemma RegRegAgrees(k: RegKind, a: u32, b: u32)
    ensures RegReg(RegTy(k), a, b) == Some(Manual(k, a, b)) <==> OperandsOk(k, a, b)
  {
    hide RegReg, Manual;
    match k
    case Mul => MulGroupAgrees(k, a, b);
    case Mulh => MulGroupAgrees(k, a, b);
    case Mulhsu => MulGroupAgrees(k, a, b);
    case Mulhu => MulGroupAgrees(k, a, b);
    case Div => SignedDivAgrees(k, a, b);
    case Divu => UnsignedDivAgrees(k, a, b);
    case Rem => SignedDivAgrees(k, a, b);
    case Remu => UnsignedDivAgrees(k, a, b);
    case _ => BaseAgrees(k, a, b);
  }
}
