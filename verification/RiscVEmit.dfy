// lib/back_end/risc_v.c: which instructions stand for one operation with a full
// 32-bit immediate, and for the entry and exit of a function.
module RiscVEmit {
  import opened Options
  import opened RiscVMachine

  const ZERO: Reg := 0
  const RA: Reg := 1
  const SP: Reg := 2
  const S0: Reg := 8

  type Int32 = x: int | -TWO_31 <= x < TWO_31

  function Wrap(x: int): Int32 { SextWord(x) }

  // What the 12-bit field keeps of a number, after sign extension.
  function Low12(x: int): int { (x + 2048) % 4096 - 2048 }

  // risc_v_is_valid_imm()
  predicate ValidImm(imm: int) { Low12(imm) == imm }

  // The operations handed to risc_v_i_op().
  datatype IOp = AluOp(funct3: nat) | AluWOp(funct3: nat) | LoadOp(funct3: nat)

  const ADDI: IOp := AluOp(0)
  const LD: IOp := LoadOp(3)

  // ---- What is emitted ----

  // risc_v_i_op_internal()
  function IInstr(op: IOp, rd: Reg, rs1: Reg, imm: int): Instr {
    match op
    case AluOp(f) => OpImm(f, rd, rs1, Low12(imm))
    case AluWOp(f) => OpImmW(f, rd, rs1, Low12(imm))
    case LoadOp(f) => Load(f, rd, rs1, Low12(imm))
  }

  // risc_v_i_to_r(), for the operations that are not loads
  function RInstr(op: IOp, rd: Reg, rs1: Reg, rs2: Reg): Instr
    requires !op.LoadOp?
  {
    match op
    case AluOp(f) => Op(f, rd, rs1, rs2)
    case AluWOp(f) => OpW(f, rd, rs1, rs2)
  }

  // risc_v_lui() drops the low 12 bits.
  function LuiInstr(rd: Reg, imm: int): Instr { Lui(rd, imm - imm % 4096) }

  // risc_v_native_setreg32s()
  function SetReg(rd: Reg, imm: Int32): seq<Instr> {
    if ValidImm(imm) then [IInstr(ADDI, rd, ZERO, imm)]
    else
      var up := Upper(imm);
      [LuiInstr(rd, up)] + if up % 4096 != 0 then [IInstr(ADDI, rd, rd, up)] else []
  }

  predicate Splits(op: IOp, imm: Int32) {
    !ValidImm(imm) && (op == ADDI || op == AluWOp(0)) && ValidImm(imm / 2)
  }

  predicate NeedsScratch(op: IOp, imm: Int32) { !ValidImm(imm) && !Splits(op, imm) }

  // risc_v_i_op(); tmp is the register that allocate_register() hands out
  function ImmOp(op: IOp, rd: Reg, rs1: Reg, imm: Int32, tmp: Reg): seq<Instr> {
    if ValidImm(imm) then [IInstr(op, rd, rs1, imm)]
    else if !op.LoadOp? then
      if Splits(op, imm) then [IInstr(op, rd, rs1, imm / 2), IInstr(op, rd, rd, imm - imm / 2)]
      else SetReg(tmp, imm) + [RInstr(op, rd, rs1, tmp)]
    else
      var lo := Low12(imm);
      [LuiInstr(tmp, Wrap(imm - lo)), Op(0, tmp, tmp, rs1), IInstr(op, rd, tmp, lo)]
  }

  // risc_v_s_op(): nothing is emitted for an offset that does not fit
  function StoreOp(funct3: nat, rs2: Reg, rs1: Reg, off: Int32): seq<Instr> {
    if ValidImm(off) then [Store(funct3, rs2, rs1, off)] else []
  }

  // ---- What it does ----

  lemma ValidImmRange(imm: int)
    ensures ValidImm(imm) <==> -2048 <= imm < 2048
  {
  }

  // t is s with rd set to v, and possibly with another value in tmp.
  ghost predicate Writes(s: State, t: State, rd: Reg, v: int, tmp: Reg) {
    && s.Valid() && t.Valid() && t.mem == s.mem
    && t.Get(rd) == (if rd == 0 then 0 else v % TWO_64)
    && forall q: Reg :: q != rd && q != tmp ==> t.Get(q) == s.Get(q)
  }

  lemma SetWrites(s: State, rd: Reg, v: int)
    requires s.Valid()
    ensures Writes(s, s.Set(rd, v), rd, v, rd)
  {
  }

  lemma SameModulo(s: State, t: State, rd: Reg, v: int, w: int, tmp: Reg)
    requires Writes(s, t, rd, v, tmp) && v % TWO_64 == w % TWO_64
    ensures Writes(s, t, rd, w, tmp)
  {
  }

  // The last of two writes stays; the register of the first was scratch.
  lemma WritesTwice(s: State, t: State, u: State, tmp: Reg, v: int, rd: Reg, w: int)
    requires Writes(s, t, tmp, v, tmp) && Writes(t, u, rd, w, rd)
    ensures Writes(s, u, rd, w, tmp)
  {
  }

  // The second of two writes adds to the first.
  lemma WritesSum(s: State, t: State, u: State, rd: Reg, v: int, w: int)
    requires Writes(s, t, rd, v, rd) && Writes(t, u, rd, t.Get(rd) + w, rd)
    ensures Writes(s, u, rd, v + w, rd)
  {
    ModAdd(v, w);
  }

  lemma ModAdd(x: int, y: int)
    ensures (x % TWO_64 + y) % TWO_64 == (x + y) % TWO_64
  {
  }

  lemma Nested(x: int)
    ensures (x % TWO_64) % TWO_32 == x % TWO_32 && SextWord(x) % TWO_32 == x % TWO_32
  {
    var q := x / TWO_64;
    assert x == x % TWO_64 + TWO_32 * (TWO_32 * q);
    SameLowWord(x % TWO_64, TWO_32 * q);
    SameLowWord(x % TWO_32, -1);
  }

  lemma SameLowWord(w: int, q: int)
    ensures (w + TWO_32 * q) % TWO_32 == w % TWO_32
  {
    var r := w % TWO_32;
    assert w + TWO_32 * q == TWO_32 * (w / TWO_32 + q) + r;
  }

  lemma SumModWord(x: int, x': int, y: int)
    requires x % TWO_32 == x' % TWO_32
    ensures SextWord(x + y) == SextWord(x' + y)
  {
    assert (x + y) % TWO_32 == (x' + y) % TWO_32;
  }

  lemma SextWordModulo(x: int, y: int)
    ensures SextWord(SextWord(x) % TWO_64 + y) == SextWord(x + y)
    ensures SextWord(y + x % TWO_64) == SextWord(y + x)
  {
    hide SextWord;
    Nested(x);
    Nested(SextWord(x));
    SumModWord(SextWord(x) % TWO_64, x, y);
    SumModWord(x % TWO_64, x, y);
  }

  // ---- Single instructions ----

  lemma AddImm(s: State, rd: Reg, rs1: Reg, imm: int)
    requires s.Valid()
    ensures var t := Exec(OpImm(0, rd, rs1, imm), s);
            t.Some? && Writes(s, t.value, rd, s.Get(rs1) + imm, rd)
  {
    hide Writes, Bitwise;
    var v := s.Get(rs1) + imm % TWO_64;
    SetWrites(s, rd, v);
    ModAdd(imm, s.Get(rs1));
    SameModulo(s, s.Set(rd, v), rd, v, s.Get(rs1) + imm, rd);
  }

  lemma AddImmW(s: State, rd: Reg, rs1: Reg, imm: int)
    requires s.Valid()
    ensures var t := Exec(OpImmW(0, rd, rs1, imm), s);
            t.Some? && Writes(s, t.value, rd, SextWord(s.Get(rs1) + imm), rd)
  {
    hide Writes, SextWord;
    SetWrites(s, rd, SextWord(s.Get(rs1) + imm));
  }

  lemma LuiWrites(s: State, rd: Reg, upper: int)
    requires s.Valid()
    ensures var t := Exec(Lui(rd, upper), s);
            t.Some? && Writes(s, t.value, rd, upper, rd)
  {
    hide Writes;
    SetWrites(s, rd, upper);
  }

  lemma AddWrites(s: State, rd: Reg, rs1: Reg, rs2: Reg)
    requires s.Valid()
    ensures var t := Exec(Op(0, rd, rs1, rs2), s);
            t.Some? && Writes(s, t.value, rd, s.Get(rs1) + s.Get(rs2), rd)
  {
    hide Writes, Bitwise;
    SetWrites(s, rd, s.Get(rs1) + s.Get(rs2));
  }

  lemma LoadWrites(s: State, funct3: nat, rd: Reg, rs1: Reg, imm: int, a: int)
    requires s.Valid() && (s.Get(rs1) + imm) % TWO_64 == a % TWO_64 && LoadValue(funct3, s.mem, a).Some?
    ensures var t := Exec(Load(funct3, rd, rs1, imm), s);
            t.Some? && Writes(s, t.value, rd, LoadValue(funct3, s.mem, a).value, rd)
  {
    hide Writes, LoadValue;
    LoadModulo(funct3, s.mem, s.Get(rs1) + imm, a);
    SetWrites(s, rd, LoadValue(funct3, s.mem, a).value);
  }

  // The register form of an operation, applied to y modulo 2^64.
  lemma RInstrWrites(op: IOp, s: State, rd: Reg, rs1: Reg, rs2: Reg, y: int)
    requires s.Valid() && !op.LoadOp? && s.Get(rs2) == y % TWO_64 && Wanted(op, s, rs1, y).Some?
    ensures var t := Exec(RInstr(op, rd, rs1, rs2), s);
            t.Some? && Writes(s, t.value, rd, Wanted(op, s, rs1, y).value, rd)
  {
    hide Writes, Alu, SextWord;
    SextWordModulo(y, s.Get(rs1));
    SetWrites(s, rd, Wanted(op, s, rs1, y).value);
  }

  // ---- Sequences ----

  // The value that lui and addi leave behind.
  function SetValue(imm: Int32): int { if imm < TWO_31 - 2048 then imm else imm - TWO_32 }

  function Upper(imm: Int32): Int32 { if imm % 4096 >= 2048 then Wrap(imm + 4096) else imm }

  lemma UpperParts(imm: Int32)
    requires !ValidImm(imm)
    ensures var up := Upper(imm);
            (up - up % 4096) + (if up % 4096 != 0 then Low12(up) else 0) == SetValue(imm)
  {
    var up := Upper(imm);
    UpperValue(imm);
    LowPart(up);
  }

  lemma UpperValue(imm: Int32)
    ensures Upper(imm) % 4096 == imm % 4096
    ensures Upper(imm) == SetValue(imm) + if imm % 4096 >= 2048 then 4096 else 0
  {
  }

  lemma LowPart(x: int)
    ensures Low12(x) == if x % 4096 < 2048 then x % 4096 else x % 4096 - 4096
  {
  }

  lemma SmallSetValue(imm: int)
    requires ValidImm(imm)
    ensures Low12(imm) == imm == SetValue(imm)
  {
  }

  // Loading a constant is exact in 64 bits below 2^31 - 2^11, and 2^32 too small
  // from there on.
  lemma SetRegMeaning(rd: Reg, imm: Int32, s: State)
    requires s.Valid() && rd != 0
    ensures Run(SetReg(rd, imm), s).Some?
    ensures Writes(s, Run(SetReg(rd, imm), s).value, rd, SetValue(imm), rd)
  {
    hide Run, Exec, Writes, Low12, Wrap, SetValue, ValidImm;
    if ValidImm(imm) {
      RunOne(IInstr(ADDI, rd, ZERO, imm), s);
      AddImm(s, rd, ZERO, imm);
      SmallSetValue(imm);
    } else {
      var up := Upper(imm);
      UpperParts(imm);
      LuiWrites(s, rd, up - up % 4096);
      var t := Exec(LuiInstr(rd, up), s).value;
      if up % 4096 != 0 {
        assert SetReg(rd, imm) == [LuiInstr(rd, up), IInstr(ADDI, rd, rd, up)];
        RunTwo(LuiInstr(rd, up), IInstr(ADDI, rd, rd, up), s);
        AddImm(t, rd, rd, Low12(up));
        WritesSum(s, t, Exec(IInstr(ADDI, rd, rd, up), t).value, rd, up - up % 4096, Low12(up));
      } else {
        assert SetReg(rd, imm) == [LuiInstr(rd, up)];
        RunOne(LuiInstr(rd, up), s);
      }
    }
  }

  // The result of one operation with the whole immediate.
  function Wanted(op: IOp, s: State, rs1: Reg, imm: int): Option<int>
    requires s.Valid()
  {
    match op
    case AluOp(f) => Alu(f, s.Get(rs1), imm % TWO_64)
    case AluWOp(f) => AluW(f, s.Get(rs1), imm)
    case LoadOp(f) => LoadValue(f, s.mem, s.Get(rs1) + imm)
  }

  lemma SplitParts(imm: Int32)
    requires ValidImm(imm / 2) && !ValidImm(imm)
    ensures Low12(imm / 2) + Low12(imm - imm / 2) == if imm == 4095 then -1 else imm
  {
    ValidImmRange(imm / 2);
    ValidImmRange(imm);
  }

  lemma WritesWordSum(s: State, t: State, u: State, rd: Reg, v: int, w: int)
    requires Writes(s, t, rd, SextWord(v), rd) && Writes(t, u, rd, SextWord(t.Get(rd) + w), rd)
    ensures Writes(s, u, rd, SextWord(v + w), rd)
  {
    hide SextWord;
    SextWordModulo(v, w);
  }

  lemma TwoAddImm(s: State, rd: Reg, rs1: Reg, a: int, b: int)
    requires s.Valid()
    ensures var t := Run([OpImm(0, rd, rs1, a), OpImm(0, rd, rd, b)], s);
            t.Some? && Writes(s, t.value, rd, s.Get(rs1) + a + b, rd)
  {
    hide *;
    RunTwo(OpImm(0, rd, rs1, a), OpImm(0, rd, rd, b), s);
    AddImm(s, rd, rs1, a);
    var t := Exec(OpImm(0, rd, rs1, a), s).value;
    AddImm(t, rd, rd, b);
    WritesSum(s, t, Exec(OpImm(0, rd, rd, b), t).value, rd, s.Get(rs1) + a, b);
  }

  lemma TwoAddImmW(s: State, rd: Reg, rs1: Reg, a: int, b: int)
    requires s.Valid()
    ensures var t := Run([OpImmW(0, rd, rs1, a), OpImmW(0, rd, rd, b)], s);
            t.Some? && Writes(s, t.value, rd, SextWord(s.Get(rs1) + a + b), rd)
  {
    hide *;
    RunTwo(OpImmW(0, rd, rs1, a), OpImmW(0, rd, rd, b), s);
    AddImmW(s, rd, rs1, a);
    var t := Exec(OpImmW(0, rd, rs1, a), s).value;
    AddImmW(t, rd, rd, b);
    WritesWordSum(s, t, Exec(OpImmW(0, rd, rd, b), t).value, rd, s.Get(rs1) + a, b);
  }

  // addi twice, or addiw twice: exact but for 4095, whose second half does not fit.
  lemma SplitMeaning(op: IOp, rd: Reg, rs1: Reg, imm: Int32, s: State)
    requires s.Valid() && Splits(op, imm)
    ensures var code := [IInstr(op, rd, rs1, imm / 2), IInstr(op, rd, rd, imm - imm / 2)];
            var total := if imm == 4095 then -1 else imm;
            && Run(code, s).Some? && Wanted(op, s, rs1, total).Some?
            && Writes(s, Run(code, s).value, rd, Wanted(op, s, rs1, total).value, rd)
  {
    hide *;
    SplitOps(op, imm);
    SplitParts(imm);
    if op == ADDI {
      SplitAddi(rd, rs1, imm, s);
    } else {
      SplitAddiw(rd, rs1, imm, s);
    }
  }

  lemma SplitOps(op: IOp, imm: Int32)
    requires Splits(op, imm)
    ensures (op == ADDI || op == AluWOp(0)) && ValidImm(imm / 2) && !ValidImm(imm)
  {
  }

  lemma SplitAddi(rd: Reg, rs1: Reg, imm: Int32, s: State)
    requires s.Valid()
    ensures var code := [IInstr(ADDI, rd, rs1, imm / 2), IInstr(ADDI, rd, rd, imm - imm / 2)];
            var total := Low12(imm / 2) + Low12(imm - imm / 2);
            && Run(code, s).Some? && Wanted(ADDI, s, rs1, total).Some?
            && Writes(s, Run(code, s).value, rd, Wanted(ADDI, s, rs1, total).value, rd)
  {
    hide Run, Exec, Writes, SextWord, Low12, Wanted;
    var a, b := Low12(imm / 2), Low12(imm - imm / 2);
    TwoAddImm(s, rd, rs1, a, b);
    WantedAddi(s, rs1, a + b);
    SameModulo(s, Run([OpImm(0, rd, rs1, a), OpImm(0, rd, rd, b)], s).value, rd, s.Get(rs1) + a + b,
               Wanted(ADDI, s, rs1, a + b).value, rd);
  }

  lemma SplitAddiw(rd: Reg, rs1: Reg, imm: Int32, s: State)
    requires s.Valid()
    ensures var code := [IInstr(AluWOp(0), rd, rs1, imm / 2), IInstr(AluWOp(0), rd, rd, imm - imm / 2)];
            var total := Low12(imm / 2) + Low12(imm - imm / 2);
            && Run(code, s).Some? && Wanted(AluWOp(0), s, rs1, total).Some?
            && Writes(s, Run(code, s).value, rd, Wanted(AluWOp(0), s, rs1, total).value, rd)
  {
    hide Run, Exec, Writes, SextWord, Low12, Wanted;
    var a, b := Low12(imm / 2), Low12(imm - imm / 2);
    TwoAddImmW(s, rd, rs1, a, b);
    WantedAddiw(s, rs1, a + b);
  }

  lemma WantedAddi(s: State, rs1: Reg, imm: int)
    requires s.Valid()
    ensures var v := Wanted(ADDI, s, rs1, imm);
            v.Some? && v.value % TWO_64 == (s.Get(rs1) + imm) % TWO_64
  {
    ModAdd(imm, s.Get(rs1));
  }

  lemma WantedAddiw(s: State, rs1: Reg, imm: int)
    requires s.Valid()
    ensures Wanted(AluWOp(0), s, rs1, imm) == Some(SextWord(s.Get(rs1) + imm))
  {
  }

  // The immediate goes through a scratch register.
  lemma ScratchMeaning(op: IOp, rd: Reg, rs1: Reg, imm: Int32, tmp: Reg, s: State)
    requires s.Valid() && tmp != 0 && tmp != rs1 && !op.LoadOp?
    requires Wanted(op, s, rs1, SetValue(imm)).Some?
    ensures var code := SetReg(tmp, imm) + [RInstr(op, rd, rs1, tmp)];
            Run(code, s).Some? && Writes(s, Run(code, s).value, rd, Wanted(op, s, rs1, SetValue(imm)).value, tmp)
  {
    hide Run, Exec, SetReg, Alu, SextWord, SetValue;
    SetRegMeaning(tmp, imm, s);
    var t := Run(SetReg(tmp, imm), s).value;
    RunAppend(SetReg(tmp, imm), [RInstr(op, rd, rs1, tmp)], s);
    RunOne(RInstr(op, rd, rs1, tmp), t);
    assert Wanted(op, t, rs1, SetValue(imm)) == Wanted(op, s, rs1, SetValue(imm));
    RInstrWrites(op, t, rd, rs1, tmp, SetValue(imm));
    WritesTwice(s, t, Exec(RInstr(op, rd, rs1, tmp), t).value, tmp, SetValue(imm), rd, Wanted(op, s, rs1, SetValue(imm)).value);
  }

  lemma LoadParts(imm: Int32)
    ensures var lo := Low12(imm);
            var hi := Wrap(imm - lo);
            hi % 4096 == 0 && hi + lo == SetValue(imm) && Low12(lo) == lo
  {
  }

  // A load through a scratch register goes to the address base + imm, or, from
  // 2^31 - 2^11 on, 2^32 below.
  lemma LoadMeaning(op: IOp, rd: Reg, rs1: Reg, imm: Int32, tmp: Reg, s: State)
    requires s.Valid() && tmp != 0 && op.LoadOp? && !ValidImm(imm) && tmp != rs1
    requires Wanted(op, s, rs1, SetValue(imm)).Some?
    ensures Run(ImmOp(op, rd, rs1, imm, tmp), s).Some?
    ensures Writes(s, Run(ImmOp(op, rd, rs1, imm, tmp), s).value, rd, Wanted(op, s, rs1, SetValue(imm)).value, tmp)
  {
    hide Run, Exec, LoadValue, Low12, Wrap, SetValue, ValidImm, Writes;
    var lo := Low12(imm);
    var hi := Wrap(imm - lo);
    LoadParts(imm);
    LuiAddLoad(s, op.funct3, rd, rs1, hi, lo, tmp);
  }

  lemma LuiAddLoad(s: State, funct3: nat, rd: Reg, rs1: Reg, hi: int, lo: int, tmp: Reg)
    requires s.Valid() && tmp != 0 && tmp != rs1 && LoadValue(funct3, s.mem, s.Get(rs1) + (hi + lo)).Some?
    ensures var t := Run([Lui(tmp, hi), Op(0, tmp, tmp, rs1), Load(funct3, rd, tmp, lo)], s);
            t.Some? && Writes(s, t.value, rd, LoadValue(funct3, s.mem, s.Get(rs1) + (hi + lo)).value, tmp)
  {
    hide *;
    LuiWrites(s, tmp, hi);
    var t := Exec(Lui(tmp, hi), s).value;
    AddWrites(t, tmp, tmp, rs1);
    var u := Exec(Op(0, tmp, tmp, rs1), t).value;
    AddressSum(s, t, u, tmp, rs1, hi, lo);
    LoadWrites(u, funct3, rd, tmp, lo, s.Get(rs1) + (hi + lo));
    var w := Exec(Load(funct3, rd, tmp, lo), u).value;
    RunThree(Lui(tmp, hi), Op(0, tmp, tmp, rs1), Load(funct3, rd, tmp, lo), s);
    WritesTwice(s, t, u, tmp, hi, tmp, t.Get(tmp) + t.Get(rs1));
    WritesTwice(s, u, w, tmp, t.Get(tmp) + t.Get(rs1), rd, LoadValue(funct3, s.mem, s.Get(rs1) + (hi + lo)).value);
  }

  lemma AddressSum(s: State, t: State, u: State, tmp: Reg, rs1: Reg, hi: int, lo: int)
    requires tmp != 0 && tmp != rs1
    requires Writes(s, t, tmp, hi, tmp) && Writes(t, u, tmp, t.Get(tmp) + t.Get(rs1), tmp)
    ensures u.mem == s.mem && (u.Get(tmp) + lo) % TWO_64 == (s.Get(rs1) + (hi + lo)) % TWO_64
  {
    assert t.Get(rs1) == s.Get(rs1);
    ModAdd(hi, s.Get(rs1));
    ModAdd(hi + s.Get(rs1), lo);
  }

  // The immediate that the emitted sequence works with.
  function Got(op: IOp, imm: Int32): int {
    if ValidImm(imm) then imm
    else if Splits(op, imm) then (if imm == 4095 then -1 else imm)
    else SetValue(imm)
  }

  lemma ImmOpGets(op: IOp, rd: Reg, rs1: Reg, imm: Int32, tmp: Reg, s: State)
    requires s.Valid() && tmp != 0 && (NeedsScratch(op, imm) ==> tmp != rs1) && Wanted(op, s, rs1, Got(op, imm)).Some?
    ensures Run(ImmOp(op, rd, rs1, imm, tmp), s).Some?
    ensures Writes(s, Run(ImmOp(op, rd, rs1, imm, tmp), s).value, rd, Wanted(op, s, rs1, Got(op, imm)).value,
                   if NeedsScratch(op, imm) then tmp else rd)
  {
    hide Run, SetReg, LoadValue, Writes, Alu, SextWord, Low12, SetValue;
    if ValidImm(imm) {
      OneInstr(op, rd, rs1, imm, s);
    } else if op.LoadOp? {
      LoadMeaning(op, rd, rs1, imm, tmp, s);
    } else if Splits(op, imm) {
      SplitMeaning(op, rd, rs1, imm, s);
    } else {
      ScratchMeaning(op, rd, rs1, imm, tmp, s);
    }
  }

  lemma OneInstr(op: IOp, rd: Reg, rs1: Reg, imm: Int32, s: State)
    requires s.Valid() && ValidImm(imm) && Wanted(op, s, rs1, imm).Some?
    ensures var t := Run([IInstr(op, rd, rs1, imm)], s);
            t.Some? && Writes(s, t.value, rd, Wanted(op, s, rs1, imm).value, rd)
  {
    hide Run, LoadValue, Writes, Alu, SextWord, Low12;
    RunOne(IInstr(op, rd, rs1, imm), s);
    SetWrites(s, rd, Wanted(op, s, rs1, imm).value);
  }

  // When that is the immediate that was asked for.
  predicate Exact(op: IOp, rs1: Reg, imm: Int32, tmp: Reg) {
    if ValidImm(imm) then true
    else if Splits(op, imm) then imm != 4095
    else tmp != rs1 && (op == AluWOp(0) || imm < TWO_31 - 2048)
  }

  // Then the emitted sequence acts as one operation with the whole immediate.
  lemma ImmOpMeaning(op: IOp, rd: Reg, rs1: Reg, imm: Int32, tmp: Reg, s: State)
    requires s.Valid() && tmp != 0 && Exact(op, rs1, imm, tmp) && Wanted(op, s, rs1, imm).Some?
    ensures Run(ImmOp(op, rd, rs1, imm, tmp), s).Some?
    ensures Writes(s, Run(ImmOp(op, rd, rs1, imm, tmp), s).value, rd, Wanted(op, s, rs1, imm).value,
                   if NeedsScratch(op, imm) then tmp else rd)
  {
    hide Run, ImmOp, Writes, SextWord, Low12, ValidImm;
    WordIgnoresUpper(s.Get(rs1), imm);
    ImmOpGets(op, rd, rs1, imm, tmp, s);
  }

  lemma WordIgnoresUpper(x: int, imm: Int32)
    ensures SextWord(x + SetValue(imm)) == SextWord(x + imm)
  {
  }

  // ---- addi, addiw and loads are exact in every state, exactly when Exact says so ----

  predicate Judged(op: IOp) { op == ADDI || op == AluWOp(0) || (op.LoadOp? && op.funct3 <= 6) }

  ghost predicate ActsIn(op: IOp, s: State, rd: Reg, rs1: Reg, imm: Int32, tmp: Reg)
    requires s.Valid()
  {
    var t := Run(ImmOp(op, rd, rs1, imm, tmp), s);
    var want := Wanted(op, s, rs1, imm);
    want.Some? ==> t.Some? && t.value.Get(rd) == want.value % TWO_64
  }

  ghost predicate AlwaysActs(op: IOp, rd: Reg, rs1: Reg, imm: Int32, tmp: Reg) {
    forall s: State :: s.Valid() ==> ActsIn(op, s, rd, rs1, imm, tmp)
  }

  lemma ImmOpExactly(op: IOp, rd: Reg, rs1: Reg, imm: Int32, tmp: Reg)
    requires Judged(op) && rd != 0 && tmp != 0
    ensures AlwaysActs(op, rd, rs1, imm, tmp) <==> Exact(op, rs1, imm, tmp)
  {
    hide Judged, Exact, ActsIn;
    if Exact(op, rs1, imm, tmp) {
      forall s: State | s.Valid() ensures ActsIn(op, s, rd, rs1, imm, tmp) {
        ExactActs(op, s, rd, rs1, imm, tmp);
      }
    } else {
      var s := InexactMisses(op, rd, rs1, imm, tmp);
    }
  }

  lemma ExactActs(op: IOp, s: State, rd: Reg, rs1: Reg, imm: Int32, tmp: Reg)
    requires s.Valid() && rd != 0 && tmp != 0 && Exact(op, rs1, imm, tmp)
    ensures ActsIn(op, s, rd, rs1, imm, tmp)
  {
    hide Run, ImmOp, Wanted, Exact;
    if Wanted(op, s, rs1, imm).Some? { ImmOpMeaning(op, rd, rs1, imm, tmp, s); }
  }

  // All registers 0 and one byte of memory, at a, set to 1.
  function Marked(a: int): (s: State)
    ensures s.Valid() && forall r: Reg :: s.Get(r) == 0
  {
    State(seq(32, _ => 0), x => if x == a % TWO_64 then 1 else 0)
  }

  // A state that shows the difference.
  lemma InexactMisses(op: IOp, rd: Reg, rs1: Reg, imm: Int32, tmp: Reg) returns (s: State)
    requires Judged(op) && rd != 0 && tmp != 0 && !Exact(op, rs1, imm, tmp)
    ensures s.Valid() && !ActsIn(op, s, rd, rs1, imm, tmp)
  {
    hide Run, ImmOp, ActsIn, Low12, ValidImm, SextWord, LoadValue;
    s := Marked(imm);
    ValidImmRange(imm);
    if op.LoadOp? {
      LoadMisses(op, rd, rs1, imm, tmp);
    } else if op == ADDI {
      AddiMisses(rd, rs1, imm, tmp, s);
    } else {
      AddiwMisses(rd, rs1, imm, tmp, s);
    }
  }

  lemma AddiMisses(rd: Reg, rs1: Reg, imm: Int32, tmp: Reg, s: State)
    requires rd != 0 && tmp != 0 && !Exact(ADDI, rs1, imm, tmp)
    requires s.Valid() && forall r: Reg :: s.Get(r) == 0
    ensures !ActsIn(ADDI, s, rd, rs1, imm, tmp)
  {
    hide Run, ImmOp, Low12, Wanted;
    ValidImmRange(imm);
    WantedAddi(s, rs1, imm);
    if NeedsScratch(ADDI, imm) && tmp == rs1 {
      BaseClobbered(ADDI, rd, imm, tmp, s);
      WantedAddi(s, ZERO, 2 * SetValue(imm));
    } else {
      WantedAddi(s, rs1, Got(ADDI, imm));
      ImmOpGets(ADDI, rd, rs1, imm, tmp, s);
    }
  }

  lemma AddiwMisses(rd: Reg, rs1: Reg, imm: Int32, tmp: Reg, s: State)
    requires rd != 0 && tmp != 0 && !Exact(AluWOp(0), rs1, imm, tmp)
    requires s.Valid() && forall r: Reg :: s.Get(r) == 0
    ensures !ActsIn(AluWOp(0), s, rd, rs1, imm, tmp)
  {
    hide *;
    InexactAddiw(rs1, imm, tmp);
    WantedAddiw(s, rs1, imm);
    ActsInMeans(AluWOp(0), s, rd, rs1, imm, tmp, SextWord(imm));
    if Splits(AluWOp(0), imm) {
      WantedAddiw(s, rs1, Got(AluWOp(0), imm));
      ImmOpGets(AluWOp(0), rd, rs1, imm, tmp, s);
      WritesGet(s, Run(ImmOp(AluWOp(0), rd, rs1, imm, tmp), s).value, rd, SextWord(-1), rd);
      SextSame(-1, imm);
    } else {
      BaseClobberedAddiw(rd, imm, tmp, s);
      SextSame(2 * SetValue(imm), imm);
    }
  }

  lemma InexactAddiw(rs1: Reg, imm: Int32, tmp: Reg)
    requires !Exact(AluWOp(0), rs1, imm, tmp)
    ensures NeedsScratch(AluWOp(0), imm) <==> !Splits(AluWOp(0), imm)
    ensures if Splits(AluWOp(0), imm) then imm == 4095 && Got(AluWOp(0), imm) == -1 else tmp == rs1
    ensures (2 * SetValue(imm)) % TWO_32 != imm % TWO_32 && (Splits(AluWOp(0), imm) ==> -1 % TWO_32 != imm % TWO_32)
  {
    ValidImmRange(imm);
  }

  lemma SextSame(a: int, b: int)
    ensures SextWord(a) % TWO_64 == SextWord(b) % TWO_64 <==> a % TWO_32 == b % TWO_32
  {
  }

  lemma WritesGet(s: State, t: State, rd: Reg, v: int, tmp: Reg)
    requires Writes(s, t, rd, v, tmp) && rd != 0
    ensures t.Valid() && t.Get(rd) == v % TWO_64
  {
  }

  lemma ActsInMeans(op: IOp, s: State, rd: Reg, rs1: Reg, imm: Int32, tmp: Reg, want: int)
    requires s.Valid() && Wanted(op, s, rs1, imm) == Some(want)
    ensures var t := Run(ImmOp(op, rd, rs1, imm, tmp), s);
            ActsIn(op, s, rd, rs1, imm, tmp) <==> t.Some? && t.value.Get(rd) == want % TWO_64
  {
    hide Run, ImmOp, Wanted;
  }

  lemma LoadMisses(op: IOp, rd: Reg, rs1: Reg, imm: Int32, tmp: Reg)
    requires rd != 0 && tmp != 0 && op.LoadOp? && op.funct3 <= 6 && !Exact(op, rs1, imm, tmp)
    ensures !ActsIn(op, Marked(imm), rd, rs1, imm, tmp)
  {
    hide *;
    var s, far := Marked(imm), SetValue(imm);
    InexactLoad(op, rs1, imm, tmp);
    WantedLoad(op, s, rs1, imm);
    LoadLowByte(op.funct3, s.mem, imm);
    MarkedByte(imm, imm);
    ActsInMeans(op, s, rd, rs1, imm, tmp, LoadValue(op.funct3, s.mem, imm).value);
    if tmp == rs1 {
      far := LoadUpper(imm) + SetValue(imm);
      ClobberedAddress(imm);
      BaseClobberedLoad(op, rd, imm, tmp, s);
      LoadLowByte(op.funct3, s.mem, far);
    } else {
      WantedLoad(op, s, rs1, far);
      LoadLowByte(op.funct3, s.mem, far);
      LoadMeaning(op, rd, rs1, imm, tmp, s);
      WritesGet(s, Run(ImmOp(op, rd, rs1, imm, tmp), s).value, rd, LoadValue(op.funct3, s.mem, far).value, tmp);
    }
    MarkedByte(imm, far);
    LowBytesDiffer(LoadValue(op.funct3, s.mem, far).value, LoadValue(op.funct3, s.mem, imm).value);
  }

  lemma InexactLoad(op: IOp, rs1: Reg, imm: Int32, tmp: Reg)
    requires op.LoadOp? && !Exact(op, rs1, imm, tmp)
    ensures !ValidImm(imm) && (tmp == rs1 || SetValue(imm) % TWO_64 != imm % TWO_64)
  {
    hide ValidImm;
  }

  lemma WantedLoad(op: IOp, s: State, rs1: Reg, imm: int)
    requires s.Valid() && s.Get(rs1) == 0 && op.LoadOp?
    ensures Wanted(op, s, rs1, imm) == LoadValue(op.funct3, s.mem, imm)
  {
    hide LoadValue;
  }

  lemma MarkedByte(a: int, b: int)
    ensures Marked(a).mem(b % TWO_64) == if b % TWO_64 == a % TWO_64 then 1 else 0
  {
  }

  lemma LowBytesDiffer(v: int, w: int)
    requires v % 256 != w % 256
    ensures v % TWO_64 != w % TWO_64
  {
    assert v == v % TWO_64 + 256 * (0x100_0000_0000_0000 * (v / TWO_64));
    assert w == w % TWO_64 + 256 * (0x100_0000_0000_0000 * (w / TWO_64));
    SameLowByte(v % TWO_64, 0x100_0000_0000_0000 * (v / TWO_64));
    SameLowByte(w % TWO_64, 0x100_0000_0000_0000 * (w / TWO_64));
  }

  // The scratch register is the base: the base is lost, and the result is that
  // of twice the immediate.
  lemma BaseClobbered(op: IOp, rd: Reg, imm: Int32, tmp: Reg, s: State)
    requires s.Valid() && rd != 0 && tmp != 0 && (op == ADDI || op == AluWOp(0)) && NeedsScratch(op, imm)
    ensures var t := Run(ImmOp(op, rd, tmp, imm, tmp), s);
            t.Some? && t.value.Get(rd)
                       == (if op == ADDI then 2 * SetValue(imm) else SextWord(2 * SetValue(imm))) % TWO_64
  {
    hide *;
    if op == ADDI {
      BaseClobberedAddi(rd, imm, tmp, s);
    } else {
      BaseClobberedAddiw(rd, imm, tmp, s);
    }
  }

  lemma BaseClobberedAddi(rd: Reg, imm: Int32, tmp: Reg, s: State)
    requires s.Valid() && rd != 0 && tmp != 0 && NeedsScratch(ADDI, imm)
    ensures var t := Run(ImmOp(ADDI, rd, tmp, imm, tmp), s);
            t.Some? && t.value.Get(rd) == (2 * SetValue(imm)) % TWO_64
  {
    hide *;
    LargeAddi(rd, tmp, imm, tmp);
    SetRegMeaning(tmp, imm, s);
    var t := Run(SetReg(tmp, imm), s).value;
    RunAppend(SetReg(tmp, imm), [Op(0, rd, tmp, tmp)], s);
    RunOne(Op(0, rd, tmp, tmp), t);
    WritesGet(s, t, tmp, SetValue(imm), tmp);
    AddWrites(t, rd, tmp, tmp);
    WritesGet(t, Exec(Op(0, rd, tmp, tmp), t).value, rd, t.Get(tmp) + t.Get(tmp), rd);
    ModTwice(SetValue(imm));
  }

  lemma LargeAddi(rd: Reg, rs1: Reg, imm: Int32, tmp: Reg)
    requires NeedsScratch(ADDI, imm)
    ensures ImmOp(ADDI, rd, rs1, imm, tmp) == SetReg(tmp, imm) + [Op(0, rd, rs1, tmp)]
  {
    hide SetReg;
  }

  lemma ModTwice(x: int)
    ensures (x % TWO_64 + x % TWO_64) % TWO_64 == (2 * x) % TWO_64
  {
    ModAdd(x, x);
    ModAdd(x, x % TWO_64);
  }

  lemma BaseClobberedAddiw(rd: Reg, imm: Int32, tmp: Reg, s: State)
    requires s.Valid() && rd != 0 && tmp != 0 && NeedsScratch(AluWOp(0), imm)
    ensures var t := Run(ImmOp(AluWOp(0), rd, tmp, imm, tmp), s);
            t.Some? && t.value.Get(rd) == SextWord(2 * SetValue(imm)) % TWO_64
  {
    hide Run, Exec, SetReg, SetValue, Splits, ValidImm, SextWord, Low12;
    SetRegMeaning(tmp, imm, s);
    var t := Run(SetReg(tmp, imm), s).value;
    RunAppend(SetReg(tmp, imm), [RInstr(AluWOp(0), rd, tmp, tmp)], s);
    RunOne(RInstr(AluWOp(0), rd, tmp, tmp), t);
    RInstrWrites(AluWOp(0), t, rd, tmp, tmp, SetValue(imm));
    SextWordModulo(SetValue(imm), SetValue(imm));
    SextWordModulo(SetValue(imm), t.Get(tmp));
    SextWordModulo(SetValue(imm), SetValue(imm) % TWO_64);
  }

  function LoadUpper(imm: Int32): int { Wrap(imm - Low12(imm)) }

  // For a load the address is the upper part twice and the lower part once.
  lemma BaseClobberedLoad(op: IOp, rd: Reg, imm: Int32, tmp: Reg, s: State)
    requires s.Valid() && rd != 0 && tmp != 0 && op.LoadOp? && op.funct3 <= 6 && !ValidImm(imm)
    ensures var t := Run(ImmOp(op, rd, tmp, imm, tmp), s);
            && LoadValue(op.funct3, s.mem, LoadUpper(imm) + SetValue(imm)).Some?
            && t.Some?
            && t.value.Get(rd) == LoadValue(op.funct3, s.mem, LoadUpper(imm) + SetValue(imm)).value % TWO_64
  {
    hide Run, Exec, LoadValue, Low12, Wrap, SetValue, ValidImm;
    var lo := Low12(imm);
    var hi := Wrap(imm - lo);
    LoadParts(imm);
    var a := hi + SetValue(imm);
    LoadLowByte(op.funct3, s.mem, a);
    LuiWrites(s, tmp, hi);
    var t := Exec(Lui(tmp, hi), s).value;
    AddWrites(t, tmp, tmp, tmp);
    var u := Exec(Op(0, tmp, tmp, tmp), t).value;
    ModAdd(hi, hi % TWO_64);
    ModAdd(hi, hi);
    ModAdd(hi + hi, lo);
    assert (u.Get(tmp) + lo) % TWO_64 == a % TWO_64;
    LoadWrites(u, op.funct3, rd, tmp, lo, a);
    RunThree(Lui(tmp, hi), Op(0, tmp, tmp, tmp), Load(op.funct3, rd, tmp, lo), s);
  }

  // That address is never the one that was asked for.
  lemma ClobberedAddress(imm: Int32)
    requires !ValidImm(imm)
    ensures (LoadUpper(imm) + SetValue(imm)) % TWO_64 != imm % TWO_64
  {
    LoadParts(imm);
    ValidImmRange(imm);
    var hi := LoadUpper(imm);
    assert hi != 0 && -TWO_31 <= hi < TWO_31;
    assert -TWO_64 < hi + SetValue(imm) - imm < TWO_64 && hi + SetValue(imm) - imm != 0;
  }
}
