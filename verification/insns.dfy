/** The decoded-instruction record shared by the decoder, the dispatcher and the breakpoints. */
module Insns {
  import opened Words

  /** The instruction types the decoder can produce. */
  datatype Mnemonic =
    | INVALID
    | LUI | AUIPC | JAL | JALR
    | BEQ | BNE | BLT | BGE | BLTU | BGEU
    | LB | LH | LW | LBU | LHU
    | SB | SH | SW
    | ADDI | SLTI | SLTIU | XORI | ORI | ANDI | SLLI | SRLI | SRAI
    | ADD | SUB | SLL | SLT | SLTU | XOR | SRL | SRA | OR | AND
    | FENCE | FENCE_I | ECALL | EBREAK
    | CSRRW | CSRRS | CSRRC | CSRRWI | CSRRSI | CSRRCI
    | MUL | MULH | MULHSU | MULHU | DIV | DIVU | REM | REMU
    | FLx | FSx | FMADDx | FMSUBx | FNMSUBx | FNMADDx
    | FADDx | FSUBx | FMULx | FDIVx | FSQRTx
    | FSGNJx | FSGNJNx | FSGNJXx | FMINx | FMAXx
    | FEQx | FLTx | FLEx | FCLASSx
    | FCVT_x_W | FCVT_W_x | FCVT_WU_x | FMV_X_W | FMV_W_X | FCVT_S_D | FCVT_D_S

  datatype Insn = Insn(
    ty: Mnemonic, rd: u8, rs1: u8, rs2: u8, rs3: u8, funct: u16, imm: u32)
}
