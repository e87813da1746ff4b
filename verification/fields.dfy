/** How the instruction formats of the manual and the decoder's bit-field layouts overlap. */
module Fields {
  import opened Words
  import opened Decoder
  import opened Encoding

  lemma RFields(f7: Bits7, rs2: Bits5, rs1: Bits5, f3: Bits3, rd: Bits5, op: Bits7)
    ensures var b := View(RFormat(f7, rs2, rs1, f3, rd, op));
      b.opcode == op && b.rd == rd && b.funct3 == f3 && b.rs1 == rs1 && b.rs2 == rs2 && b.funct7 == f7
  {
    var w := RFormat(f7, rs2, rs1, f3, rd, op);
    var q4 := f7 * 0x20 + rs2;
    var q3 := q4 * 0x20 + rs1;
    var q2 := q3 * 8 + f3;
    var q1 := q2 * 0x20 + rd;
    TakeField(w, 1, w, q1, op, 0, 0x80);
    TakeField(w, 0x80, q1, q2, rd, op, 0x20);
    TakeField(w, 0x1000, q2, q3, f3, rd * 0x80 + op, 8);
    TakeField(w, 0x8000, q3, q4, rs1, f3 * 0x1000 + rd * 0x80 + op, 0x20);
    TakeField(w, 0x10_0000, q4, f7, rs2, rs1 * 0x8000 + f3 * 0x1000 + rd * 0x80 + op, 0x20);
    TakeField(w, 0x200_0000, f7, 0, f7, w - f7 * 0x200_0000, 0x80);
  }

  /** Slicing k values out of a word at place d, given how the word splits there. */
  lemma TakeField(w: nat, d: nat, q: nat, above: nat, field: nat, below: nat, k: nat)
    requires d >= 1 && below < d && w == q * d + below
    requires field < k && q == above * k + field
    ensures w / d == q && w / d % k == field
  {
    QuotientIs(w, d, q, below);
    QuotientIs(q, k, above, field);
  }

  lemma NestedQuotient(w: nat, d: nat, k: nat, a: nat, b: nat, r: nat)
    requires b < k && r < d && w == (a * k + b) * d + r
    ensures w / (d * k) == a
  {
    var dk := d * k;
    assert w == a * dk + (b * d + r);
    assert b * d + r < dk by { MultipleBounds(k - b, d); assert dk == b * d + (k - b) * d; }
    QuotientIs(w, dk, a, b * d + r);
  }

  lemma NestedDivision(w: nat, d: nat, k: nat)
    requires d >= 1 && k >= 1
    ensures w / d == w / (d * k) * k + w / d % k
  {
    var q := w / d;
    DivideByPositive(w, d);
    DivideByPositive(q, k);
    assert w == q * d + w % d;
    assert q == q / k * k + q % k;
    NestedQuotient(w, d, k, q / k, q % k, w % d);
  }

  /** The R layout covers every bit of a word. */
  lemma WordAsR(w: u32)
    ensures var b := View(w); w == RFormat(b.funct7, b.rs2, b.rs1, b.funct3, b.rd, b.opcode)
  {
    NestedDivision(w, 1, 0x80);
    NestedDivision(w, 0x80, 0x20);
    NestedDivision(w, 0x1000, 8);
    NestedDivision(w, 0x8000, 0x20);
    NestedDivision(w, 0x10_0000, 0x20);
  }

  // ----- where the other layouts find their fields in the R layout -----------

  lemma ImmediateOfI(w: u32)
    ensures var b := View(w); b.i_11_0 == b.funct7 * 0x20 + b.rs2
  {
    NestedDivision(w, 0x10_0000, 0x20);
  }

  lemma FieldsOfB(w: u32)
    ensures var b := View(w);
      && b.b_11 == b.rd % 2 && b.b_4_1 == b.rd / 2
      && b.b_10_5 == b.funct7 % 0x40 && b.b_12 == b.funct7 / 0x40
  {
    LowFieldsOfB(w);
    NestedDivision(w, 0x200_0000, 0x40);
  }

  lemma LowFieldsOfB(w: u32)
    ensures w / 0x80 % 2 == w / 0x80 % 0x20 % 2
    ensures w / 0x100 % 0x10 == w / 0x80 % 0x20 / 2
  {
    NestedDivision(w, 0x80, 2);
    var q := w / 0x80;
    assert w / 0x100 == q / 2;
    Halves(q);
  }

  lemma Halves(q: nat)
    ensures q % 2 == q % 0x20 % 2 && q / 2 % 0x10 == q % 0x20 / 2
  {
  }

  lemma FieldsOfU(w: u32)
    ensures var b := View(w);
      b.u_31_12 == b.funct7 * 0x2000 + b.rs2 * 0x100 + b.rs1 * 8 + b.funct3
  {
    NestedDivision(w, 0x1000, 8);
    NestedDivision(w, 0x8000, 0x20);
    NestedDivision(w, 0x10_0000, 0x20);
  }

  lemma FieldsOfJ(w: u32)
    ensures var b := View(w);
      && b.j_19_12 == b.u_31_12 % 0x100 && b.j_11 == b.u_31_12 / 0x100 % 2
      && b.j_10_1 == b.u_31_12 / 0x200 % 0x400 && b.j_20 == b.u_31_12 / 0x8_0000
  {
    NestedDivision(w, 0x1000, 0x100);
    NestedDivision(w, 0x10_0000, 2);
    NestedDivision(w, 0x20_0000, 0x400);
  }

  lemma SFields(w: u32)
    ensures var b := View(w); b.s_4_0 == b.rd && b.s_11_5 == b.funct7 && b.rs3 == b.funct7 / 4
  {
    NestedDivision(w, 0x200_0000, 4);
  }

  lemma IFields(imm: Bits12, rs1: Bits5, f3: Bits3, rd: Bits5, op: Bits7)
    ensures var b := View(IFormat(imm, rs1, f3, rd, op));
      && b.opcode == op && b.rd == rd && b.funct3 == f3 && b.rs1 == rs1
      && b.rs2 == imm % 0x20 && b.funct7 == imm / 0x20 && b.i_11_0 == imm
  {
    RFields(imm / 0x20, imm % 0x20, rs1, f3, rd, op);
    ImmediateOfI(IFormat(imm, rs1, f3, rd, op));
  }

  lemma UFields(upper: Bits20, rd: Bits5, op: Bits7)
    ensures var b := View(UFormat(upper, rd, op));
      b.opcode == op && b.rd == rd && b.u_31_12 == upper
  {
    var w := UFormat(upper, rd, op);
    TakeField(w, 1, w, upper * 0x20 + rd, op, 0, 0x80);
    TakeField(w, 0x80, upper * 0x20 + rd, upper, rd, op, 0x20);
    QuotientIs(w, 0x1000, upper, rd * 0x80 + op);
  }

  lemma SFormatFields(imm: Bits12, rs2: Bits5, rs1: Bits5, f3: Bits3, op: Bits7)
    ensures var b := View(SFormat(imm, rs2, rs1, f3, op));
      && b.opcode == op && b.funct3 == f3 && b.rs1 == rs1 && b.rs2 == rs2
      && b.s_4_0 == imm % 0x20 && b.s_11_5 == imm / 0x20
  {
    hide View;
    RFields(imm / 0x20, rs2, rs1, f3, imm % 0x20, op);
    SFields(SFormat(imm, rs2, rs1, f3, op));
  }

  lemma BFormatFields(imm: Bits13, rs2: Bits5, rs1: Bits5, f3: Bits3, op: Bits7)
    ensures var b := View(BFormat(imm, rs2, rs1, f3, op));
      && b.opcode == op && b.funct3 == f3 && b.rs1 == rs1 && b.rs2 == rs2
      && b.b_12 == imm / 0x1000 && b.b_11 == imm / 0x800 % 2
      && b.b_10_5 == imm / 0x20 % 0x40 && b.b_4_1 == imm / 2 % 0x10
  {
    hide View;
    RFields(imm / 0x1000 * 0x40 + imm / 0x20 % 0x40, rs2, rs1, f3,
            imm / 2 % 0x10 * 2 + imm / 0x800 % 2, op);
    FieldsOfB(BFormat(imm, rs2, rs1, f3, op));
  }

  lemma JFormatFields(imm: Bits21, rd: Bits5, op: Bits7)
    ensures var b := View(JFormat(imm, rd, op));
      && b.opcode == op && b.rd == rd
      && b.j_20 == imm / 0x10_0000 && b.j_19_12 == imm / 0x1000 % 0x100
      && b.j_11 == imm / 0x800 % 2 && b.j_10_1 == imm / 2 % 0x400
  {
    hide View;
    var b20, b19_12, b11, b10_1 :=
      imm / 0x10_0000, imm / 0x1000 % 0x100, imm / 0x800 % 2, imm / 2 % 0x400;
    UFields(b20 * 0x8_0000 + b10_1 * 0x200 + b11 * 0x100 + b19_12, rd, op);
    FieldsOfJ(JFormat(imm, rd, op));
    JPacking(b20, b19_12, b11, b10_1);
  }

  lemma JPacking(b20: Bits1, b19_12: Bits8, b11: Bits1, b10_1: Bits10)
    ensures var u := b20 * 0x8_0000 + b10_1 * 0x200 + b11 * 0x100 + b19_12;
      u % 0x100 == b19_12 && u / 0x100 % 2 == b11 && u / 0x200 % 0x400 == b10_1 && u / 0x8_0000 == b20
  {
    var u := b20 * 0x8_0000 + b10_1 * 0x200 + b11 * 0x100 + b19_12;
    var q1 := b20 * 0x400 + b10_1;
    TakeField(u, 1, u, q1 * 2 + b11, b19_12, 0, 0x100);
    TakeField(u, 0x100, q1 * 2 + b11, q1, b11, b19_12, 2);
    TakeField(u, 0x200, q1, b20, b10_1, b11 * 0x100 + b19_12, 0x400);
    QuotientIs(u, 0x8_0000, b20, u - b20 * 0x8_0000);
  }
}
