/** The register arithmetic of the dispatcher, as C computes it. */
module Alu {
  import opened Words
  import opened Insns

  /** C's `/` on signed operands truncates toward zero. */
  function TruncDiv(a: int, b: int): int
    requires b != 0
  {
    var q := Abs(a) / Abs(b);
    if (a < 0) == (b < 0) then q else -q
  }

  /** C's `%` is what the truncated quotient leaves. */
  function TruncRem(a: int, b: int): int
    requires b != 0
  {
    a - b * TruncDiv(a, b)
  }

  function Abs(x: int): nat { if x < 0 then -x else x }

  lemma ProductFits(a: u32, b: u32)
    ensures 0 <= a * b <= 0xFFFF_FFFF * 0xFFFF_FFFF
  {
    ProductBound(a, b, 0xFFFF_FFFF, 0xFFFF_FFFF);
  }

  /** A 64-bit product stored in an `i64`, shifted right by 32 and truncated to 32 bits. */
  function HighHalf(a: u32, b: u32): u32 {
    ProductFits(a, b);
    Wrap32(Signed64(a * b) / TWO32)
  }

  /** Division or remainder of these operands is undefined in C. */
  predicate SignedDivUndefined(a: u32, b: u32) {
    b == 0 || (a == 0x8000_0000 && b == 0xFFFF_FFFF)
  }

  predicate IsRegReg(ty: Mnemonic) {
    match ty
    case ADD => true case SUB => true case SLL => true case SLT => true case SLTU => true
    case XOR => true case SRL => true case SRA => true case OR => true case AND => true
    case MUL => true case MULH => true case MULHSU => true case MULHU => true
    case DIV => true case DIVU => true case REM => true case REMU => true
    case _ => false
  }

  /** The value written to rd by a register-register instruction; None where C leaves it undefined.
      MULH multiplies zero-extended operands as `i64`, so a product of 2^63 or more overflows. */
  function RegReg(ty: Mnemonic, a: u32, b: u32): Option<u32>
    requires IsRegReg(ty)
  {
    match ty
    case ADD => Some(Wrap32(a + b))
    case SUB => Some(Wrap32(a - b))
    case SLL => Some(Shl32(a, And32(b, 0x1f)))
    case SLT => Some(if Signed32(a) < Signed32(b) then 1 else 0)
    case SLTU => Some(if a < b then 1 else 0)
    case XOR => Some(Xor32(a, b))
    case SRL => Some(Shr32(a, And32(b, 0x1f)))
    case SRA => Some(Sar32(a, And32(b, 0x1f)))
    case OR => Some(Or32(a, b))
    case AND => Some(And32(a, b))
    case MUL => Some(Wrap32(a * b))
    case MULH => if a * b >= TWO63 then None else Some(HighHalf(a, b))
    case MULHSU => Some(HighHalf(a, b))
    case MULHU => Some(HighHalf(a, b))
    case DIV =>
      if SignedDivUndefined(a, b) then None else Some(Wrap32(TruncDiv(Signed32(a), Signed32(b))))
    case DIVU => if b == 0 then None else Some(Wrap32(a / b))
    case REM =>
      if SignedDivUndefined(a, b) then None else Some(Wrap32(TruncRem(Signed32(a), Signed32(b))))
    case REMU => if b == 0 then None else Some(Wrap32(a % b))
  }

  predicate IsRegImm(ty: Mnemonic) {
    match ty
    case ADDI => true case SLTI => true case SLTIU => true case XORI => true case ORI => true
    case ANDI => true case SLLI => true case SRLI => true case SRAI => true
    case _ => false
  }

  /** The value written to rd by a register-immediate instruction. */
  function RegImm(ty: Mnemonic, a: u32, imm: u32): u32
    requires IsRegImm(ty)
  {
    match ty
    case ADDI => Wrap32(a + imm)
    case SLLI => Shl32(a, And32(imm, 0x1f))
    case SLTI => if Signed32(a) < Signed32(imm) then 1 else 0
    case SLTIU => if a < imm then 1 else 0
    case XORI => Xor32(a, imm)
    case SRLI => Shr32(a, And32(imm, 0x1f))
    case SRAI => Sar32(a, And32(imm, 0x1f))
    case ORI => Or32(a, imm)
    case ANDI => And32(a, imm)
  }

  predicate IsBranch(ty: Mnemonic) {
    ty.BEQ? || ty.BNE? || ty.BLT? || ty.BGE? || ty.BLTU? || ty.BGEU?
  }

  predicate Taken(ty: Mnemonic, a: u32, b: u32)
    requires IsBranch(ty)
  {
    match ty
    case BEQ => a == b
    case BNE => a != b
    case BLT => Signed32(a) < Signed32(b)
    case BGE => Signed32(a) >= Signed32(b)
    case BLTU => a < b
    case BGEU => a >= b
  }
}
