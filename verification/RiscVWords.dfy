// From instructions to bytes: the words that lib/back_end/risc_v.c puts together
// decode to the instructions that RiscVEmit speaks about.
module RiscVWords {
  import opened Options
  import opened BitNumbers
  import opened IrBinary
  import opened RiscVMachine
  import opened RiscVEmit
  import E = RiscVEncode

  // ---- Registers and operations as bits ----

  function RegNum(b: bv5): Reg {
    RegNumBound(b);
    NatOf(b as bv32, 5)
  }

  lemma RegNumBound(b: bv5)
    ensures NatOf(b as bv32, 5) < 32
  {
    hide NatOf, Pow2;
    Pow2Values();
    NatBound(b as bv32, 5);
  }

  function RegBits(r: Reg): bv5 { FiveBits(WordOf(r, 5)) }

  function FiveBits(w: bv32): bv5 { (w & 0x1F) as bv5 }

  lemma FiveBitsBack(w: bv32)
    requires And(w, 0x1F) == w
    ensures FiveBits(w) as bv32 == w
  {
  }

  lemma RegRoundTrip(r: Reg)
    ensures RegNum(RegBits(r)) == r
  {
    hide NatOf, WordOf, Mask, Pow2, And, FiveBits;
    MaskValues();
    Pow2Values();
    WordInMask(r, 5);
    FiveBitsBack(WordOf(r, 5));
    NatOfWord(r, 5);
  }

  // The operation constants of risc_v.h.
  function OpBits(base: bv32, funct3: nat): bv32 { JoinOp(base, WordOf(funct3, 3)) }

  function JoinOp(base: bv32, f: bv32): bv32 { base | (f << 12) }

  lemma JoinOpFields(base: bv32, f: bv32)
    requires base < 0x80 && And(f, 7) == f
    ensures E.OpFunct3(JoinOp(base, f)) && E.OpFunct37(JoinOp(base, f))
    ensures E.Opcode(JoinOp(base, f)) == base && E.Funct3(JoinOp(base, f)) == f && E.Funct7(JoinOp(base, f)) == 0
  {
  }

  lemma OpBitsFields(base: bv32, funct3: nat)
    requires base < 0x80 && funct3 < 8
    ensures E.OpFunct3(OpBits(base, funct3)) && E.OpFunct37(OpBits(base, funct3))
    ensures E.Opcode(OpBits(base, funct3)) == base && E.Funct7(OpBits(base, funct3)) == 0
    ensures NatOf(E.Funct3(OpBits(base, funct3)), 3) == funct3
  {
    hide NatOf, WordOf, Mask, Pow2, And, JoinOp, E.Opcode, E.Funct3, E.Funct7, E.OpFunct3, E.OpFunct37;
    MaskValues();
    Pow2Values();
    WordInMask(funct3, 3);
    JoinOpFields(base, WordOf(funct3, 3));
    NatOfWord(funct3, 3);
  }

  // ---- Decoding ----

  // Section 2.2 and 2.3 of the RISC-V Unprivileged ISA, for the instructions of
  // the machine.
  function Decode(w: bv32): Option<Instr> {
    var op, f, rd, rs1, rs2 := E.Opcode(w), NatOf(E.Funct3(w), 3), RegNum(E.Rd(w)), RegNum(E.Rs1(w)), RegNum(E.Rs2(w));
    if op == 0x13 then Some(OpImm(f, rd, rs1, IntOf(E.ImmI(w))))
    else if op == 0x1B then Some(OpImmW(f, rd, rs1, IntOf(E.ImmI(w))))
    else if op == 0x33 && E.Funct7(w) == 0 then Some(Op(f, rd, rs1, rs2))
    else if op == 0x3B && E.Funct7(w) == 0 then Some(OpW(f, rd, rs1, rs2))
    else if op == 0x37 then Some(Lui(rd, IntOf(E.ImmU(w))))
    else if op == 0x03 then Some(Load(f, rd, rs1, IntOf(E.ImmI(w))))
    else if op == 0x23 then Some(Store(f, rs2, rs1, IntOf(E.ImmS(w))))
    else None
  }

  // The sign extension of the low 12 bits, on words and on numbers.
  lemma ExtendIsLow12(imm: bv32)
    ensures IntOf(E.Extend12(imm & 0xFFF)) == Low12(IntOf(imm))
  {
    hide Nat32, And, Or, Low12, E.Extend12;
    AndIs(imm, 0xFFF);
    ExtendMasked(imm);
  }

  lemma ExtendMasked(imm: bv32)
    ensures IntOf(E.Extend12(And(imm, 0xFFF))) == Low12(IntOf(imm))
  {
    hide Nat32, And, Or, Low12, E.Extend12;
    var f := And(imm, 0xFFF);
    TwiceMasked(imm);
    LowTwelve(imm);
    BitEleven(f);
    ExtendByBit(f);
    LowPart(IntOf(imm));
    if And(f, 0x800) != 0 { UpperOnes(f); }
  }

  lemma AndIs(x: bv32, y: bv32)
    ensures And(x, y) == x & y
  {
  }

  lemma TwiceMasked(x: bv32)
    ensures And(And(x, 0xFFF), 0xFFF) == And(x, 0xFFF)
  {
  }

  lemma ExtendByBit(f: bv32)
    requires And(f, 0xFFF) == f
    ensures E.Extend12(f) == if And(f, 0x800) == 0 then f else Or(f, 0xFFFF_F000)
  {
    if And(f, 0x800) == 0 { ExtendClear(f); } else { ExtendSet(f); }
  }

  lemma ExtendClear(f: bv32)
    requires And(f, 0xFFF) == f && And(f, 0x800) == 0
    ensures E.Extend12(f) == f
  {
  }

  lemma ExtendSet(f: bv32)
    requires And(f, 0xFFF) == f && And(f, 0x800) != 0
    ensures E.Extend12(f) == Or(f, 0xFFFF_F000)
  {
  }

  // ---- The emitted words ----

  predicate Emittable(op: IOp) { op.funct3 < 8 }

  function IOpBits(op: IOp): bv32 {
    OpBits(if op.AluOp? then 0x13 else if op.AluWOp? then 0x1B else 0x03, op.funct3)
  }

  // risc_v_i_op_internal()
  function IWordOf(op: IOp, rd: Reg, rs1: Reg, imm: int): bv32 {
    E.IWord(IOpBits(op), RegBits(rd), RegBits(rs1), BvOf(imm))
  }

  // risc_v_r_op() with risc_v_i_to_r()
  function RWordOf(op: IOp, rd: Reg, rs1: Reg, rs2: Reg): bv32 {
    E.RWord(E.IToR(IOpBits(op)), RegBits(rd), RegBits(rs1), RegBits(rs2))
  }

  function AddWord(rd: Reg, rs1: Reg, rs2: Reg): bv32 {
    E.RWord(0x33, RegBits(rd), RegBits(rs1), RegBits(rs2))
  }

  // risc_v_s_op_internal()
  function SWordOf(funct3: nat, rs2: Reg, rs1: Reg, off: int): bv32 {
    E.SWord(OpBits(0x23, funct3), RegBits(rs2), RegBits(rs1), BvOf(off))
  }

  // risc_v_lui()
  function LuiWord(rd: Reg, imm: int): bv32 { E.UWord(0x37, RegBits(rd), BvOf(imm)) }

  lemma IWordDecodes(op: IOp, rd: Reg, rs1: Reg, imm: Int32)
    requires Emittable(op)
    ensures Decode(IWordOf(op, rd, rs1, imm)) == Some(IInstr(op, rd, rs1, imm))
  {
    hide NatOf, RegNum, RegBits, OpBits, BvOf, IntOf, Low12, E.IWord, E.Opcode, E.Funct3, E.Rd, E.Rs1, E.Rs2, E.ImmI, E.Extend12, E.OpFunct3, E.Funct7, E.OpFunct37;
    OpBitsFields(if op.AluOp? then 0x13 else if op.AluWOp? then 0x1B else 0x03, op.funct3);
    E.IWordFields(IOpBits(op), RegBits(rd), RegBits(rs1), BvOf(imm));
    RegRoundTrip(rd);
    RegRoundTrip(rs1);
    ExtendIsLow12(BvOf(imm));
    IntRoundTrip(imm);
  }

  lemma RWordDecodes(op: IOp, rd: Reg, rs1: Reg, rs2: Reg)
    requires Emittable(op) && !op.LoadOp?
    ensures Decode(RWordOf(op, rd, rs1, rs2)) == Some(RInstr(op, rd, rs1, rs2))
  {
    hide NatOf, RegNum, RegBits, OpBits, E.RWord, E.IToR, E.Opcode, E.Funct3, E.Rd, E.Rs1, E.Rs2, E.OpFunct3, E.Funct7, E.OpFunct37;
    OpBitsFields(if op.AluOp? then 0x13 else 0x1B, op.funct3);
    E.IToRKeepsOperation(IOpBits(op));
    E.RWordFields(E.IToR(IOpBits(op)), RegBits(rd), RegBits(rs1), RegBits(rs2));
    RegRoundTrip(rd);
    RegRoundTrip(rs1);
    RegRoundTrip(rs2);
  }

  lemma AddWordDecodes(rd: Reg, rs1: Reg, rs2: Reg)
    ensures Decode(AddWord(rd, rs1, rs2)) == Some(Op(0, rd, rs1, rs2))
  {
    hide NatOf, RegNum, RegBits, E.RWord, E.Rd, E.Rs1, E.Rs2;
    E.RWordFields(0x33, RegBits(rd), RegBits(rs1), RegBits(rs2));
    NatOfZero(0, 3);
    RegRoundTrip(rd);
    RegRoundTrip(rs1);
    RegRoundTrip(rs2);
  }

  lemma SWordDecodes(funct3: nat, rs2: Reg, rs1: Reg, off: Int32)
    requires funct3 < 8 && ValidImm(off)
    ensures Decode(SWordOf(funct3, rs2, rs1, off)) == Some(Store(funct3, rs2, rs1, off))
  {
    hide NatOf, RegNum, RegBits, OpBits, BvOf, IntOf, Low12, E.SWord, E.Opcode, E.Funct3, E.Rd, E.Rs1, E.Rs2, E.ImmS, E.Extend12, E.OpFunct3, E.Funct7, E.OpFunct37;
    OpBitsFields(0x23, funct3);
    E.SWordFields(OpBits(0x23, funct3), RegBits(rs2), RegBits(rs1), BvOf(off));
    RegRoundTrip(rs2);
    RegRoundTrip(rs1);
    ExtendIsLow12(BvOf(off));
    IntRoundTrip(off);
  }

  lemma UpperField(reg: bv5, imm: bv32)
    ensures var w := E.UWord(0x37, reg, imm);
            E.Opcode(w) == 0x37 && E.Rd(w) == reg && E.ImmU(w) == And(imm, 0xFFFF_F000)
  {
  }

  lemma LuiWordDecodes(rd: Reg, imm: Int32)
    ensures Decode(LuiWord(rd, imm)) == Some(LuiInstr(rd, imm))
  {
    hide NatOf, RegNum, RegBits, BvOf, IntOf, And, E.UWord, E.Rd, E.ImmU;
    UpperField(RegBits(rd), BvOf(imm));
    RegRoundTrip(rd);
    UpperTwenty(BvOf(imm));
    IntRoundTrip(imm);
  }

  // ---- Bytes ----

  // write_uint32_le_m()
  function WordBytes(w: bv32): (b: Bytes)
    ensures |b| == 4
  {
    Le(Nat32(w), 4)
  }

  function Cons(i: Option<Instr>, rest: Option<seq<Instr>>): Option<seq<Instr>> {
    if i.None? || rest.None? then None else Some([i.value] + rest.value)
  }

  // The instructions in a stretch of text; None when some word is not one.
  function DecodeBytes(b: Bytes): Option<seq<Instr>> {
    if b == [] then Some([])
    else if |b| < 4 then None
    else Cons(Decode(WordOf(FromLe(b[..4]), 32)), DecodeBytes(b[4..]))
  }

  lemma ConsSome(i: Option<Instr>, rest: Option<seq<Instr>>)
    ensures Cons(i, rest).Some? <==> i.Some? && rest.Some?
  {
  }

  lemma ConsAppend(i: Option<Instr>, x: seq<Instr>, y: seq<Instr>)
    requires i.Some?
    ensures Cons(i, Some(x + y)) == Some(Cons(i, Some(x)).value + y)
  {
    assert [i.value] + (x + y) == ([i.value] + x) + y;
  }

  lemma WordBack(w: bv32)
    ensures WordOf(FromLe(WordBytes(w)), 32) == w
  {
    hide Le, FromLe, NatOf, WordOf;
    assert Pow256(4) == 0x1_0000_0000;
    Nat32Bound(w);
    LeRoundTrip(Nat32(w), 4);
    WordRoundTrip(w);
  }

  lemma {:induction false} DecodeAppend(a: Bytes, b: Bytes)
    requires DecodeBytes(a).Some? && DecodeBytes(b).Some?
    ensures DecodeBytes(a + b) == Some(DecodeBytes(a).value + DecodeBytes(b).value)
    decreases |a|
  {
    hide Decode, FromLe, WordOf, Cons;
    if a == [] {
      assert a + b == b;
      assert [] + DecodeBytes(b).value == DecodeBytes(b).value;
    } else {
      assert (a + b)[..4] == a[..4] && (a + b)[4..] == a[4..] + b;
      ConsSome(Decode(WordOf(FromLe(a[..4]), 32)), DecodeBytes(a[4..]));
      DecodeAppend(a[4..], b);
      ConsAppend(Decode(WordOf(FromLe(a[..4]), 32)), DecodeBytes(a[4..]).value, DecodeBytes(b).value);
    }
  }

  lemma DecodeOne(w: bv32)
    requires Decode(w).Some?
    ensures DecodeBytes(WordBytes(w)) == Some([Decode(w).value])
  {
    hide Decode, FromLe, WordOf, Le, Nat32;
    var b := WordBytes(w);
    WordBack(w);
    assert b[..4] == b && b[4..] == [];
    assert DecodeBytes([]) == Some([]);
    assert [Decode(w).value] + [] == [Decode(w).value];
  }

  // Running a stretch of text from its start to its end.
  function RunBytes(b: Bytes, s: State): (t: Option<State>)
    requires s.Valid()
    ensures t.Some? ==> t.value.Valid()
  {
    var code := DecodeBytes(b);
    if code.None? then None else Run(code.value, s)
  }

  // ---- The emitters ----

  // The end of the text section, where put() appends bytes.
  class Text {
    var bytes: Bytes

    ghost predicate Valid()
      reads this
    {
      DecodeBytes(bytes).Some?
    }

    // The instructions that the bytes decode to.
    ghost function Code(): seq<Instr>
      requires Valid()
      reads this
    {
      DecodeBytes(bytes).value
    }

    constructor ()
      ensures Valid() && Code() == [] && bytes == []
    {
      bytes := [];
    }

    method Put(w: bv32)
      requires Valid() && Decode(w).Some?
      modifies this
      ensures Valid() && bytes == old(bytes) + WordBytes(w)
      ensures Code() == old(Code()) + [Decode(w).value]
    {
      hide Decode, WordBytes, DecodeBytes;
      DecodeOne(w);
      DecodeAppend(bytes, WordBytes(w));
      bytes := bytes + WordBytes(w);
    }

    method EmitSetReg(rd: Reg, imm: Int32)
      requires Valid()
      modifies this
      ensures Valid() && Code() == old(Code()) + SetReg(rd, imm)
    {
      hide Wrap, Low12, ValidImm, Decode, DecodeBytes, IWordOf, LuiWord;
      if !ValidImm(imm) {
        var up := imm;
        if imm % 4096 >= 2048 {
          up := Wrap(imm + 4096);
        }
        LuiWordDecodes(rd, up);
        Put(LuiWord(rd, up));
        if up % 4096 != 0 {
          IWordDecodes(ADDI, rd, rd, up);
          Put(IWordOf(ADDI, rd, rd, up));
        }
      } else {
        IWordDecodes(ADDI, rd, ZERO, imm);
        Put(IWordOf(ADDI, rd, ZERO, imm));
      }
    }

    method EmitImmOp(op: IOp, rd: Reg, rs1: Reg, imm: Int32, tmp: Reg)
      requires Valid() && Emittable(op)
      modifies this
      ensures Valid() && Code() == old(Code()) + ImmOp(op, rd, rs1, imm, tmp)
    {
      hide Wrap, Low12, ValidImm, SetReg, Decode, DecodeBytes, IWordOf, RWordOf, LuiWord, AddWord;
      hide ImmOp, IInstr, RInstr, LuiInstr;
      ImmOpIs(op, rd, rs1, imm, tmp);
      if ValidImm(imm) {
        IWordDecodes(op, rd, rs1, imm);
        Put(IWordOf(op, rd, rs1, imm));
      } else if !op.LoadOp? {
        if (op == ADDI || op == AluWOp(0)) && ValidImm(imm / 2) {
          IWordDecodes(op, rd, rs1, imm / 2);
          Put(IWordOf(op, rd, rs1, imm / 2));
          IWordDecodes(op, rd, rd, imm - imm / 2);
          Put(IWordOf(op, rd, rd, imm - imm / 2));
        } else {
          EmitSetReg(tmp, imm);
          RWordDecodes(op, rd, rs1, tmp);
          Put(RWordOf(op, rd, rs1, tmp));
        }
      } else {
        var lo := Low12(imm);
        LuiWordDecodes(tmp, Wrap(imm - lo));
        Put(LuiWord(tmp, Wrap(imm - lo)));
        AddWordDecodes(tmp, tmp, rs1);
        Put(AddWord(tmp, tmp, rs1));
        Low12Range(imm);
        IWordDecodes(op, rd, tmp, lo);
        Put(IWordOf(op, rd, tmp, lo));
      }
    }

    method EmitStoreOp(funct3: nat, rs2: Reg, rs1: Reg, off: Int32)
      requires Valid() && funct3 < 8
      modifies this
      ensures Valid() && Code() == old(Code()) + StoreOp(funct3, rs2, rs1, off)
    {
      hide Decode, DecodeBytes, SWordOf, ValidImm;
      if ValidImm(off) {
        SWordDecodes(funct3, rs2, rs1, off);
        Put(SWordOf(funct3, rs2, rs1, off));
      }
    }
  }

  lemma ImmOpIs(op: IOp, rd: Reg, rs1: Reg, imm: Int32, tmp: Reg)
    ensures ImmOp(op, rd, rs1, imm, tmp)
            == if ValidImm(imm) then [IInstr(op, rd, rs1, imm)]
               else if op.LoadOp? then
                 [LuiInstr(tmp, Wrap(imm - Low12(imm))), Op(0, tmp, tmp, rs1), IInstr(op, rd, tmp, Low12(imm))]
               else if (op == ADDI || op == AluWOp(0)) && ValidImm(imm / 2) then
                 [IInstr(op, rd, rs1, imm / 2), IInstr(op, rd, rd, imm - imm / 2)]
               else SetReg(tmp, imm) + [RInstr(op, rd, rs1, tmp)]
  {
    hide SetReg, IInstr, LuiInstr, RInstr;
  }

  lemma Low12Range(x: int)
    ensures -2048 <= Low12(x) < 2048
  {
  }
}
