// lib/back_end/risc_v_encode.h and the instruction formats of sections 2.2 and
// 2.3 of the RISC-V Unprivileged ISA. A C int is a bv32 in two's complement.
module RiscVEncode {
  import opened Options

  type Reg = bv5

  predicate Negative(x: bv32) { x & 0x8000_0000 != 0 }

  // x < y on C ints.
  predicate Less(x: bv32, y: bv32) { (x ^ 0x8000_0000) < (y ^ 0x8000_0000) }

  // x >> n on C ints.
  function Sra(x: bv32, n: bv32): bv32
    requires n <= 32
  {
    ((x ^ 0x8000_0000) >> n) - (0x8000_0000 >> n)
  }

  predicate InRange(lo: bv32, x: bv32, hi: bv32) { !Less(x, lo) && !Less(hi, x) }

  const MINUS_2048: bv32 := 0xFFFF_F800
  const MINUS_4096: bv32 := 0xFFFF_F000
  const MINUS_2_20: bv32 := 0xFFF0_0000

  // ---- The fields of a word ----

  function Opcode(w: bv32): bv32 { w & 0x7F }
  function Funct3(w: bv32): bv32 { (w >> 12) & 7 }
  function Funct7(w: bv32): bv32 { w >> 25 }
  function Rd(w: bv32): Reg { ((w >> 7) & 0x1F) as bv5 }
  function Rs1(w: bv32): Reg { ((w >> 15) & 0x1F) as bv5 }
  function Rs2(w: bv32): Reg { ((w >> 20) & 0x1F) as bv5 }

  // The bits of each immediate, gathered from the word ...
  function FieldI(w: bv32): bv32 { w >> 20 }

  function FieldS(w: bv32): bv32 { ((w >> 25) << 5) | ((w >> 7) & 0x1F) }

  function FieldB(w: bv32): bv32 {
    ((w >> 31) << 12) | (((w >> 7) & 1) << 11) | (((w >> 25) & 0x3F) << 5) | (((w >> 8) & 0xF) << 1)
  }

  function FieldJ(w: bv32): bv32 {
    ((w >> 31) << 20) | (((w >> 12) & 0xFF) << 12) | (((w >> 20) & 1) << 11) | (((w >> 21) & 0x3FF) << 1)
  }

  // ... and extended from their topmost bit.
  function Extend12(x: bv32): bv32 { (x ^ 0x800) - 0x800 }
  function Extend13(x: bv32): bv32 { (x ^ 0x1000) - 0x1000 }
  function Extend21(x: bv32): bv32 { (x ^ 0x10_0000) - 0x10_0000 }

  function ImmI(w: bv32): bv32 { Extend12(FieldI(w)) }
  function ImmS(w: bv32): bv32 { Extend12(FieldS(w)) }
  function ImmB(w: bv32): bv32 { Extend13(FieldB(w)) }
  function ImmU(w: bv32): bv32 { w & 0xFFFF_F000 }
  function ImmJ(w: bv32): bv32 { Extend21(FieldJ(w)) }

  // ---- The encoder ----

  predicate Copyable(iStart: bv32, iEnd: bv32, dStart: bv32, dEnd: bv32) {
    iStart <= iEnd < 32 && dStart <= dEnd < 32 && iEnd - iStart == dEnd - dStart
  }

  // risc_v_extract_bits()
  function ExtractBits(imm: bv32, iStart: bv32, iEnd: bv32, dStart: bv32, dEnd: bv32): bv32
    requires Copyable(iStart, iEnd, dStart, dEnd)
  {
    (Sra(imm, iStart) & ((2 << (iEnd - iStart)) - 1)) << dStart
  }

  function EncodeR(op: bv32, rd: Reg, rs1: Reg, rs2: Reg): bv32 {
    op + (rd as bv32 << 7) + (rs1 as bv32 << 15) + (rs2 as bv32 << 20)
  }

  // The adjustment of a negative immediate in EncodeI and EncodeS.
  function Field(imm: bv32): bv32 {
    if Negative(imm) then (imm + 4096) & 0x1FFF else imm
  }

  function PackI(op: bv32, rd: Reg, rs1: Reg, field: bv32): bv32 {
    op + (rd as bv32 << 7) + (rs1 as bv32 << 15) + (field << 20)
  }

  // None stands for "Offset too large".
  function EncodeI(op: bv32, rd: Reg, rs1: Reg, imm: bv32): Option<bv32> {
    if Less(2047, imm) || Less(imm, MINUS_2048) then None
    else
      Some(PackI(op, rd, rs1, Field(imm)))
  }

  function PackS(op: bv32, rs1: Reg, rs2: Reg, field: bv32): bv32 {
    op + (rs1 as bv32 << 15) + (rs2 as bv32 << 20) + ExtractBits(field, 0, 4, 7, 11) + ExtractBits(field, 5, 11, 25, 31)
  }

  function EncodeS(op: bv32, rs1: Reg, rs2: Reg, imm: bv32): Option<bv32> {
    if Less(2047, imm) || Less(imm, MINUS_2048) then None
    else
      Some(PackS(op, rs1, rs2, Field(imm)))
  }

  function PackB(op: bv32, rs1: Reg, rs2: Reg, sign: bv32, imm: bv32): bv32 {
    op + (sign << 31) + (rs1 as bv32 << 15) + (rs2 as bv32 << 20)
    + ExtractBits(imm, 11, 11, 7, 7) + ExtractBits(imm, 1, 4, 8, 11) + ExtractBits(imm, 5, 10, 25, 30)
  }

  function EncodeB(op: bv32, rs1: Reg, rs2: Reg, imm: bv32): Option<bv32> {
    if Less(4095, imm) || Less(imm, MINUS_4096) then None
    else Some(PackB(op, rs1, rs2, Sign(imm), imm))
  }

  function Sign(imm: bv32): bv32 { if Negative(imm) then 1 else 0 }

  function PackJ(op: bv32, rd: Reg, sign: bv32, field: bv32): bv32 {
    op + (sign << 31) + (rd as bv32 << 7)
    + ExtractBits(field, 1, 10, 21, 30) + ExtractBits(field, 11, 11, 20, 20) + ExtractBits(field, 12, 19, 12, 19)
  }

  function EncodeJ(op: bv32, rd: Reg, imm: bv32): bv32 {
    PackJ(op, rd, Sign(imm), JField(imm))
  }

  function JField(imm: bv32): bv32 {
    if Negative(imm) then (1 << 21) - (0 - imm) else imm
  }

  function EncodeU(op: bv32, rd: Reg, imm: bv32): bv32 {
    op + (rd as bv32 << 7) + ExtractBits(imm, 12, 31, 12, 31)
  }

  // An operation constant of risc_v.h: opcode and, per format, the function codes.
  predicate OpcodeOnly(op: bv32) { op & 0xFFFF_FF80 == 0 }
  predicate OpFunct3(op: bv32) { op & 0xFFFF_8F80 == 0 }
  predicate OpFunct37(op: bv32) { op & 0x01FF_8F80 == 0 }

  predicate SameOperation(w: bv32, op: bv32) { Opcode(w) == Opcode(op) && Funct3(w) == Funct3(op) }

  // ---- Decoding recovers what was encoded ----

  // What the copies of each format select.
  lemma FieldsOfS(imm: bv32)
    ensures ExtractBits(imm, 0, 4, 7, 11) == (imm & 0x1F) << 7
    ensures ExtractBits(imm, 5, 11, 25, 31) == ((imm >> 5) & 0x7F) << 25
  {
  }

  lemma FieldsOfB(imm: bv32)
    ensures ExtractBits(imm, 11, 11, 7, 7) == ((imm >> 11) & 1) << 7
    ensures ExtractBits(imm, 1, 4, 8, 11) == ((imm >> 1) & 0xF) << 8
    ensures ExtractBits(imm, 5, 10, 25, 30) == ((imm >> 5) & 0x3F) << 25
  {
  }

  lemma FieldsOfJ(imm: bv32)
    ensures ExtractBits(imm, 1, 10, 21, 30) == ((imm >> 1) & 0x3FF) << 21
    ensures ExtractBits(imm, 11, 11, 20, 20) == ((imm >> 11) & 1) << 20
    ensures ExtractBits(imm, 12, 19, 12, 19) == ((imm >> 12) & 0xFF) << 12
  {
  }

  lemma FieldsOfU(imm: bv32)
    ensures ExtractBits(imm, 12, 31, 12, 31) == ((imm >> 12) & 0xF_FFFF) << 12
  {
  }

  // The ranges of the immediates by their upper bits.
  lemma Range12(imm: bv32)
    ensures InRange(MINUS_2048, imm, 2047) <==> imm & 0xFFFF_F800 == 0 || imm & 0xFFFF_F800 == 0xFFFF_F800
  {
  }

  lemma Range13(imm: bv32)
    ensures InRange(MINUS_4096, imm, 4095) <==> imm & 0xFFFF_F000 == 0 || imm & 0xFFFF_F000 == 0xFFFF_F000
  {
  }

  lemma Range21(imm: bv32)
    ensures InRange(MINUS_2_20, imm, 0xF_FFFF) <==> imm & 0xFFF0_0000 == 0 || imm & 0xFFF0_0000 == 0xFFF0_0000
  {
  }

  // An immediate cut to 13 or 21 bits, without bit 0.
  function Bits13(sign: bv32, imm: bv32): bv32 { (sign << 12) | (imm & 0xFFE) }
  function Bits21(sign: bv32, imm: bv32): bv32 { (sign << 20) | (imm & 0xF_FFFE) }
  function Even(imm: bv32): bv32 { imm & 0xFFFF_FFFE }

  // Sign extension undoes the truncation of an immediate in range, and of no other.
  lemma Extend12Low(imm: bv32)
    requires imm & 0xFFFF_F800 == 0 || imm & 0xFFFF_F800 == 0xFFFF_F800
    ensures Extend12(imm & 0xFFF) == imm
  {
  }

  lemma Extend13Low(imm: bv32, sign: bv32)
    requires sign == imm >> 31
    requires imm & 0xFFFF_F000 == 0 || imm & 0xFFFF_F000 == 0xFFFF_F000
    ensures Extend13(Bits13(sign, imm)) == Even(imm)
  {
  }

  lemma Extend21Low(imm: bv32, sign: bv32)
    requires sign == imm >> 31
    requires imm & 0xFFF0_0000 == 0 || imm & 0xFFF0_0000 == 0xFFF0_0000
    ensures Extend21(Bits21(sign, imm)) == Even(imm)
  {
  }

  lemma Extend21Other(imm: bv32, sign: bv32)
    requires sign == imm >> 31
    requires imm & 0xFFF0_0000 != 0 && imm & 0xFFF0_0000 != 0xFFF0_0000
    ensures Extend21(Bits21(sign, imm)) != Even(imm)
  {
  }

  lemma SignIsTopBit(imm: bv32)
    ensures Sign(imm) == imm >> 31 && Sign(imm) <= 1
  {
    if Negative(imm) {} else {}
  }

  lemma FieldIsLowBits(imm: bv32)
    requires InRange(MINUS_2048, imm, 2047)
    ensures Field(imm) == imm & 0xFFF
  {
    Range12(imm);
    if Negative(imm) {
      assert imm & 0xFFFF_F800 == 0xFFFF_F800;
    } else {
      assert imm & 0xFFFF_F800 == 0;
    }
  }

  lemma RRoundTrip(op: bv32, rd: Reg, rs1: Reg, rs2: Reg)
    requires OpFunct37(op)
    ensures var w := EncodeR(op, rd, rs1, rs2);
            SameOperation(w, op) && Funct7(w) == Funct7(op) && Rd(w) == rd && Rs1(w) == rs1 && Rs2(w) == rs2
  {
  }

  lemma PackIFields(op: bv32, rd: Reg, rs1: Reg, field: bv32)
    requires OpFunct3(op) && field & 0xFFFF_F000 == 0
    ensures var w := PackI(op, rd, rs1, field);
            SameOperation(w, op) && Rd(w) == rd && Rs1(w) == rs1 && FieldI(w) == field
  {
  }

  lemma IRoundTrip(op: bv32, rd: Reg, rs1: Reg, imm: bv32)
    requires OpFunct3(op)
    ensures EncodeI(op, rd, rs1, imm).Some? <==> InRange(MINUS_2048, imm, 2047)
    ensures var w := EncodeI(op, rd, rs1, imm);
            w.Some? ==> SameOperation(w.value, op) && Rd(w.value) == rd && Rs1(w.value) == rs1 && ImmI(w.value) == imm
  {
    hide Field, Less, PackI, Opcode, Funct3, Rd, Rs1, FieldI, OpFunct3, Extend12;
    Range12(imm);
    if EncodeI(op, rd, rs1, imm).Some? {
      Extend12Low(imm);
      FieldIsLowBits(imm);
      PackIFields(op, rd, rs1, imm & 0xFFF);
    }
  }

  // No addition of fields carries into the next field.
  lemma SumOfS(op: bv32, a: bv32, b: bv32, c: bv32, d: bv32)
    requires OpFunct3(op) && a & 0xFFF0_7FFF == 0 && b & 0xFE0F_FFFF == 0 && c & 0xFFFF_F07F == 0 && d & 0x01FF_FFFF == 0
    ensures op + a + b + c + d == op | a | b | c | d
  {
  }

  lemma UnionOfS(op: bv32, rs1: Reg, rs2: Reg, field: bv32, w: bv32)
    requires OpFunct3(op) && field & 0xFFFF_F000 == 0
    requires w == op | (rs1 as bv32 << 15) | (rs2 as bv32 << 20) | ((field & 0x1F) << 7) | (((field >> 5) & 0x7F) << 25)
    ensures SameOperation(w, op) && Rs1(w) == rs1 && Rs2(w) == rs2 && FieldS(w) == field
  {
  }

  lemma PackSFields(op: bv32, rs1: Reg, rs2: Reg, field: bv32)
    requires OpFunct3(op) && field & 0xFFFF_F000 == 0
    ensures var w := PackS(op, rs1, rs2, field);
            SameOperation(w, op) && Rs1(w) == rs1 && Rs2(w) == rs2 && FieldS(w) == field
  {
    hide ExtractBits, Opcode, Funct3, Rs1, Rs2, FieldS, SameOperation;
    FieldsOfS(field);
    SumOfS(op, rs1 as bv32 << 15, rs2 as bv32 << 20, ExtractBits(field, 0, 4, 7, 11), ExtractBits(field, 5, 11, 25, 31));
    UnionOfS(op, rs1, rs2, field, PackS(op, rs1, rs2, field));
  }

  lemma SRoundTrip(op: bv32, rs1: Reg, rs2: Reg, imm: bv32)
    requires OpFunct3(op)
    ensures EncodeS(op, rs1, rs2, imm).Some? <==> InRange(MINUS_2048, imm, 2047)
    ensures var w := EncodeS(op, rs1, rs2, imm);
            w.Some? ==> SameOperation(w.value, op) && Rs1(w.value) == rs1 && Rs2(w.value) == rs2 && ImmS(w.value) == imm
  {
    hide PackS, Less, Opcode, Funct3, Rs1, Rs2, FieldS, OpFunct3, Field, Extend12;
    Range12(imm);
    if EncodeS(op, rs1, rs2, imm).Some? {
      Extend12Low(imm);
      FieldIsLowBits(imm);
      PackSFields(op, rs1, rs2, imm & 0xFFF);
    }
  }

  lemma PackBFields(op: bv32, rs1: Reg, rs2: Reg, sign: bv32, imm: bv32)
    requires OpFunct3(op) && sign <= 1
    ensures var w := PackB(op, rs1, rs2, sign, imm);
            SameOperation(w, op) && Rs1(w) == rs1 && Rs2(w) == rs2 && FieldB(w) == Bits13(sign, imm)
  {
    hide ExtractBits, Opcode, Funct3, Rs1, Rs2, FieldB, SameOperation;
    FieldsOfB(imm);
    SumOfB(op, sign << 31, rs1 as bv32 << 15, rs2 as bv32 << 20,
           ExtractBits(imm, 11, 11, 7, 7), ExtractBits(imm, 1, 4, 8, 11), ExtractBits(imm, 5, 10, 25, 30));
    UnionOfB(op, rs1, rs2, sign, imm, PackB(op, rs1, rs2, sign, imm));
  }

  lemma SumOfB(op: bv32, s: bv32, a: bv32, b: bv32, c: bv32, d: bv32, e: bv32)
    requires OpFunct3(op) && s & 0x7FFF_FFFF == 0 && a & 0xFFF0_7FFF == 0 && b & 0xFE0F_FFFF == 0
    requires c & 0xFFFF_FF7F == 0 && d & 0xFFFF_F0FF == 0 && e & 0x81FF_FFFF == 0
    ensures op + s + a + b + c + d + e == op | s | a | b | c | d | e
  {
  }

  lemma UnionOfB(op: bv32, rs1: Reg, rs2: Reg, sign: bv32, imm: bv32, w: bv32)
    requires OpFunct3(op) && sign <= 1
    requires w == op | (sign << 31) | (rs1 as bv32 << 15) | (rs2 as bv32 << 20)
                  | (((imm >> 11) & 1) << 7) | (((imm >> 1) & 0xF) << 8) | (((imm >> 5) & 0x3F) << 25)
    ensures SameOperation(w, op) && Rs1(w) == rs1 && Rs2(w) == rs2 && FieldB(w) == Bits13(sign, imm)
  {
  }

  // Bit 0 of a branch offset has no place in the word.
  lemma BRoundTrip(op: bv32, rs1: Reg, rs2: Reg, imm: bv32)
    requires OpFunct3(op)
    ensures EncodeB(op, rs1, rs2, imm).Some? <==> InRange(MINUS_4096, imm, 4095)
    ensures var w := EncodeB(op, rs1, rs2, imm);
            w.Some? ==> SameOperation(w.value, op) && Rs1(w.value) == rs1 && Rs2(w.value) == rs2
                        && ImmB(w.value) == Even(imm)
  {
    hide PackB, Less, Sign, Bits13, Even, Opcode, Funct3, Rs1, Rs2, FieldB, OpFunct3, Extend13;
    Range13(imm);
    if EncodeB(op, rs1, rs2, imm).Some? {
      SignIsTopBit(imm);
      Extend13Low(imm, Sign(imm));
      PackBFields(op, rs1, rs2, Sign(imm), imm);
    }
  }

  lemma PackJFields(op: bv32, rd: Reg, sign: bv32, field: bv32)
    requires OpcodeOnly(op) && sign <= 1
    ensures var w := PackJ(op, rd, sign, field);
            Opcode(w) == Opcode(op) && Rd(w) == rd && FieldJ(w) == Bits21(sign, field)
  {
    hide ExtractBits, Opcode, Rd, FieldJ;
    FieldsOfJ(field);
    SumOfJ(op, sign << 31, rd as bv32 << 7,
           ExtractBits(field, 1, 10, 21, 30), ExtractBits(field, 11, 11, 20, 20), ExtractBits(field, 12, 19, 12, 19));
    UnionOfJ(op, rd, sign, field, PackJ(op, rd, sign, field));
  }

  lemma SumOfJ(op: bv32, s: bv32, a: bv32, b: bv32, c: bv32, d: bv32)
    requires OpcodeOnly(op) && s & 0x7FFF_FFFF == 0 && a & 0xFFFF_F07F == 0
    requires b & 0x801F_FFFF == 0 && c & 0xFFEF_FFFF == 0 && d & 0xFFF0_0FFF == 0
    ensures op + s + a + b + c + d == op | s | a | b | c | d
  {
  }

  lemma UnionOfJ(op: bv32, rd: Reg, sign: bv32, field: bv32, w: bv32)
    requires OpcodeOnly(op) && sign <= 1
    requires w == op | (sign << 31) | (rd as bv32 << 7)
                  | (((field >> 1) & 0x3FF) << 21) | (((field >> 11) & 1) << 20) | (((field >> 12) & 0xFF) << 12)
    ensures Opcode(w) == Opcode(op) && Rd(w) == rd && FieldJ(w) == Bits21(sign, field)
  {
  }

  lemma JFieldIsLowBits(imm: bv32, sign: bv32)
    ensures Bits21(sign, JField(imm)) == Bits21(sign, imm)
  {
    if Negative(imm) {
      assert (1 << 21) - (0 - imm) == 0x20_0000 + imm;
    }
  }

  // There is no range check: outside of 21 bits another offset is encoded.
  lemma JRoundTrip(op: bv32, rd: Reg, imm: bv32)
    requires OpcodeOnly(op)
    ensures var w := EncodeJ(op, rd, imm);
            && Opcode(w) == Opcode(op) && Rd(w) == rd
            && (ImmJ(w) == Even(imm) <==> InRange(MINUS_2_20, imm, 0xF_FFFF))
  {
    hide PackJ, InRange, Sign, Bits21, Even, Opcode, Rd, FieldJ, OpcodeOnly, Extend21, JField;
    Range21(imm);
    SignIsTopBit(imm);
    if InRange(MINUS_2_20, imm, 0xF_FFFF) {
      Extend21Low(imm, Sign(imm));
    } else {
      Extend21Other(imm, Sign(imm));
    }
    JFieldIsLowBits(imm, Sign(imm));
    PackJFields(op, rd, Sign(imm), JField(imm));
  }

  lemma URoundTrip(op: bv32, rd: Reg, imm: bv32)
    requires OpcodeOnly(op)
    ensures var w := EncodeU(op, rd, imm);
            Opcode(w) == Opcode(op) && Rd(w) == rd && ImmU(w) == imm & 0xFFFF_F000
  {
    hide ExtractBits;
    FieldsOfU(imm);
  }

  // ---- The words that lib/back_end/risc_v.c puts together with | ----

  function RWord(op: bv32, rd: Reg, r1: Reg, r2: Reg): bv32 {
    op | (rd as bv32 << 7) | (r1 as bv32 << 15) | (r2 as bv32 << 20)
  }

  // risc_v_i_op_internal(): whatever stands above bit 11 of imm is shifted out
  function IWord(op: bv32, rd: Reg, r: Reg, imm: bv32): bv32 {
    op | (rd as bv32 << 7) | (r as bv32 << 15) | (imm << 20)
  }

  // risc_v_s_op_internal()
  function SWord(op: bv32, reg: Reg, addr: Reg, off: bv32): bv32 {
    op | ((off & 0x1F) << 7) | (addr as bv32 << 15) | (reg as bv32 << 20) | ((off >> 5) << 25)
  }

  // risc_v_20_imm_op()
  function UWord(op: bv32, reg: Reg, imm: bv32): bv32 {
    op | (reg as bv32 << 7) | (imm & 0xFFFF_F000)
  }

  // risc_v_jal()
  function JalWord(reg: Reg, off: bv32): bv32 {
    0x6F | (reg as bv32 << 7) | (((off >> 1) & 0x3FF) << 21) | (((off >> 11) & 1) << 20)
    | (((off >> 12) & 0xFF) << 12) | (((off >> 20) & 1) << 31)
  }

  // risc_v_i_to_r()
  function IToR(op: bv32): bv32 { op | 0x20 }

  lemma RAgrees(op: bv32, rd: Reg, r1: Reg, r2: Reg)
    requires OpFunct37(op)
    ensures EncodeR(op, rd, r1, r2) == RWord(op, rd, r1, r2)
  {
  }

  lemma IAgrees(op: bv32, rd: Reg, r: Reg, imm: bv32)
    requires OpFunct3(op) && InRange(MINUS_2048, imm, 2047)
    ensures EncodeI(op, rd, r, imm) == Some(IWord(op, rd, r, imm))
  {
    hide Less, Field, PackI, IWord;
    FieldIsLowBits(imm);
    IUnion(op, rd, r, imm);
  }

  lemma IUnion(op: bv32, rd: Reg, r: Reg, imm: bv32)
    requires OpFunct3(op)
    ensures PackI(op, rd, r, imm & 0xFFF) == IWord(op, rd, r, imm)
  {
  }

  // The emitted word always stands for the low 12 bits of the immediate.
  lemma IWordFields(op: bv32, rd: Reg, r: Reg, imm: bv32)
    requires OpFunct3(op)
    ensures var w := IWord(op, rd, r, imm);
            SameOperation(w, op) && Rd(w) == rd && Rs1(w) == r && ImmI(w) == Extend12(imm & 0xFFF)
  {
    hide Extend12;
    assert FieldI(IWord(op, rd, r, imm)) == imm & 0xFFF;
  }

  lemma SAgrees(op: bv32, reg: Reg, addr: Reg, off: bv32)
    requires OpFunct3(op) && InRange(MINUS_2048, off, 2047)
    ensures EncodeS(op, addr, reg, off) == Some(SWord(op, reg, addr, off))
  {
    hide Less, ExtractBits, Field;
    FieldIsLowBits(off);
    SUnion(op, reg, addr, off);
  }

  lemma SUnion(op: bv32, reg: Reg, addr: Reg, off: bv32)
    requires OpFunct3(op)
    ensures PackS(op, addr, reg, off & 0xFFF) == SWord(op, reg, addr, off)
  {
    hide ExtractBits, SWord;
    var field := off & 0xFFF;
    FieldsOfS(field);
    SumOfS(op, addr as bv32 << 15, reg as bv32 << 20, ExtractBits(field, 0, 4, 7, 11), ExtractBits(field, 5, 11, 25, 31));
    SWordUnion(op, reg, addr, off);
  }

  lemma SWordUnion(op: bv32, reg: Reg, addr: Reg, off: bv32)
    ensures var field := off & 0xFFF;
            SWord(op, reg, addr, off)
            == op | (addr as bv32 << 15) | (reg as bv32 << 20) | ((field & 0x1F) << 7) | (((field >> 5) & 0x7F) << 25)
  {
  }

  // What the other emitted words stand for.
  lemma SWordFields(op: bv32, reg: Reg, addr: Reg, off: bv32)
    requires OpFunct3(op)
    ensures var w := SWord(op, reg, addr, off);
            SameOperation(w, op) && Rs1(w) == addr && Rs2(w) == reg && ImmS(w) == Extend12(off & 0xFFF)
  {
    hide Extend12, FieldS, SameOperation, Rs1, Rs2, SWord;
    SWordUnion(op, reg, addr, off);
    LowFieldOnly(off);
    UnionOfS(op, addr, reg, off & 0xFFF, SWord(op, reg, addr, off));
  }

  lemma LowFieldOnly(off: bv32)
    ensures (off & 0xFFF) & 0xFFFF_F000 == 0
  {
  }

  lemma RWordFields(op: bv32, rd: Reg, r1: Reg, r2: Reg)
    requires OpFunct37(op)
    ensures var w := RWord(op, rd, r1, r2);
            SameOperation(w, op) && Funct7(w) == Funct7(op) && Rd(w) == rd && Rs1(w) == r1 && Rs2(w) == r2
  {
  }

  lemma UAgrees(op: bv32, reg: Reg, imm: bv32)
    requires OpcodeOnly(op)
    ensures EncodeU(op, reg, imm) == UWord(op, reg, imm)
  {
    hide ExtractBits;
    FieldsOfU(imm);
    assert ((imm >> 12) & 0xF_FFFF) << 12 == imm & 0xFFFF_F000;
    SumOfU(op, reg as bv32 << 7, imm & 0xFFFF_F000);
  }

  lemma SumOfU(op: bv32, a: bv32, b: bv32)
    requires OpcodeOnly(op) && a & 0xFFFF_F07F == 0 && b & 0xFFF == 0
    ensures op + a + b == op | a | b
  {
  }

  // The two jal encoders take the sign from different places: from bit 20 or
  // from the number. They agree exactly when these agree.
  lemma JalAgrees(reg: Reg, off: bv32)
    ensures JalWord(reg, off) == EncodeJ(0x6F, reg, off) <==> (off >> 20) & 1 == Sign(off)
  {
    hide PackJ, Sign, JField, JUnion, JalWord;
    SignIsTopBit(off);
    PackJUnion(reg, Sign(off), off);
    JalUnion(reg, off);
    JUnionSign(reg, Sign(off), off);
    JUnionSign(reg, (off >> 20) & 1, off);
  }

  function JUnion(reg: Reg, sign: bv32, off: bv32): bv32 {
    0x6F | (sign << 31) | (reg as bv32 << 7)
    | (((off >> 1) & 0x3FF) << 21) | (((off >> 11) & 1) << 20) | (((off >> 12) & 0xFF) << 12)
  }

  lemma PackJUnion(reg: Reg, sign: bv32, off: bv32)
    requires sign <= 1
    ensures PackJ(0x6F, reg, sign, JField(off)) == JUnion(reg, sign, off)
  {
    hide ExtractBits, JField;
    var field := JField(off);
    FieldsOfJ(field);
    SumOfJ(0x6F, sign << 31, reg as bv32 << 7,
           ExtractBits(field, 1, 10, 21, 30), ExtractBits(field, 11, 11, 20, 20), ExtractBits(field, 12, 19, 12, 19));
    JFieldBits(off);
  }

  lemma JalUnion(reg: Reg, off: bv32)
    ensures JalWord(reg, off) == JUnion(reg, (off >> 20) & 1, off)
  {
  }

  lemma JUnionSign(reg: Reg, sign: bv32, off: bv32)
    requires sign <= 1
    ensures JUnion(reg, sign, off) >> 31 == sign
  {
  }

  lemma JFieldBits(off: bv32)
    ensures (JField(off) >> 1) & 0x3FF == (off >> 1) & 0x3FF && (JField(off) >> 11) & 1 == (off >> 11) & 1
    ensures (JField(off) >> 12) & 0xFF == (off >> 12) & 0xFF
  {
    if Negative(off) {
      assert (1 << 21) - (0 - off) == 0x20_0000 + off;
    }
  }

  // The register form of an immediate operation is the same operation.
  lemma IToRKeepsOperation(op: bv32)
    requires OpFunct3(op) && (Opcode(op) == 0x13 || Opcode(op) == 0x1B)
    ensures Opcode(IToR(op)) == (if Opcode(op) == 0x13 then 0x33 else 0x3B)
    ensures Funct3(IToR(op)) == Funct3(op) && Funct7(IToR(op)) == 0 && OpFunct37(IToR(op))
  {
  }
}
