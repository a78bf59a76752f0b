// Entry and exit of a function, lib/back_end/risc_v.c: the return address, the
// frame pointer and the stack pointer come back, whatever the body does to the
// rest of the machine.
module RiscVFrame {
  import opened Options
  import opened IrBinary
  import opened RiscVMachine
  import opened RiscVEmit
  import opened RiscVWords

  // A stack usage for which the C int sums below do not overflow.
  type StackUsage = n: nat | n < TWO_31 - 32

  // align_to_16_bytes()
  function Align16(n: nat): (e: nat)
    ensures e % 16 == 0 && n <= e < n + 16
  {
    (n + 15) / 16 * 16
  }

  // A register that allocate_register() can hand out.
  type Scratch = r: Reg | 5 <= r witness 5

  datatype Scratches = Scratches(a: Scratch, b: Scratch, c: Scratch, d: Scratch, e: Scratch)

  // back_end_native_prologue()
  function Prologue(usage: StackUsage, tmp: Scratches): seq<Instr> {
    var e := Align16(usage);
    ImmOp(ADDI, SP, SP, -(e + 16), tmp.a) + StoreOp(3, RA, SP, e + 8) + StoreOp(3, S0, SP, e)
    + ImmOp(ADDI, S0, SP, e + 16, tmp.b)
  }

  // back_end_native_epilogue()
  function Epilogue(usage: StackUsage, tmp: Scratches): seq<Instr> {
    var e := Align16(usage);
    ImmOp(LD, RA, SP, e + 8, tmp.c) + ImmOp(LD, S0, SP, e, tmp.d) + ImmOp(ADDI, SP, SP, e + 16, tmp.e)
  }

  method EmitPrologue(text: Text, usage: StackUsage, tmp: Scratches)
    requires text.Valid()
    modifies text
    ensures text.Valid() && text.Code() == old(text.Code()) + Prologue(usage, tmp)
  {
    hide ImmOp, StoreOp, DecodeBytes;
    var e: int := Align16(usage);
    text.EmitImmOp(ADDI, SP, SP, -(e + 16), tmp.a);
    text.EmitStoreOp(3, RA, SP, e + 8);
    text.EmitStoreOp(3, S0, SP, e);
    text.EmitImmOp(ADDI, S0, SP, e + 16, tmp.b);
  }

  method EmitEpilogue(text: Text, usage: StackUsage, tmp: Scratches)
    requires text.Valid()
    modifies text
    ensures text.Valid() && text.Code() == old(text.Code()) + Epilogue(usage, tmp)
  {
    hide ImmOp, DecodeBytes;
    var e: int := Align16(usage);
    text.EmitImmOp(LD, RA, SP, e + 8, tmp.c);
    text.EmitImmOp(LD, S0, SP, e, tmp.d);
    text.EmitImmOp(ADDI, SP, SP, e + 16, tmp.e);
  }

  // What a body has to leave alone: the stack pointer and the two saved slots.
  ghost predicate BodyKeeps(usage: StackUsage, t: State, mid: State)
    requires t.Valid()
  {
    var e := Align16(usage);
    && mid.Valid() && mid.Get(SP) == t.Get(SP)
    && Double(mid.mem, t.Get(SP) + (e + 8)) == Double(t.mem, t.Get(SP) + (e + 8))
    && Double(mid.mem, t.Get(SP) + e) == Double(t.mem, t.Get(SP) + e)
  }

  ghost predicate Restored(s: State, u: State)
    requires s.Valid()
  {
    u.Valid() && u.Get(SP) == s.Get(SP) && u.Get(RA) == s.Get(RA) && u.Get(S0) == s.Get(S0)
  }

  // One call: prologue from s, some body, epilogue.
  ghost predicate CallRestores(usage: StackUsage, tmp: Scratches, s: State, mid: State)
    requires s.Valid()
  {
    var t := Run(Prologue(usage, tmp), s);
    && t.Some?
    && (BodyKeeps(usage, t.value, mid) ==>
        Run(Epilogue(usage, tmp), mid).Some? && Restored(s, Run(Epilogue(usage, tmp), mid).value))
  }

  ghost predicate FrameWorks(usage: StackUsage, tmp: Scratches) {
    forall s: State, mid: State :: s.Valid() ==> CallRestores(usage, tmp, s, mid)
  }

  // ---- Small frames ----

  lemma SmallFrame(usage: StackUsage)
    requires usage <= 2032
    ensures Align16(usage) <= 2032
  {
  }

  // The state behind the prologue of a small frame.
  ghost predicate Entered(usage: StackUsage, s: State, t: State) {
    var e := Align16(usage);
    && s.Valid() && t.Valid()
    && t.Get(SP) == (s.Get(SP) - (e + 16)) % TWO_64
    && t.Get(S0) == s.Get(SP)
    && Double(t.mem, t.Get(SP) + (e + 8)) == s.Get(RA)
    && Double(t.mem, t.Get(SP) + e) == s.Get(S0)
    && (forall q: Reg :: q != SP && q != S0 ==> t.Get(q) == s.Get(q))
  }

  lemma SmallExact(rs1: Reg, imm: Int32, tmp: Reg)
    requires -2048 <= imm <= 2048
    ensures Exact(ADDI, rs1, imm, tmp) && !NeedsScratch(ADDI, imm)
  {
    ValidImmRange(imm);
    ValidImmRange(imm / 2);
  }

  lemma AddiRuns(s: State, rd: Reg, rs1: Reg, imm: Int32, tmp: Reg)
    requires s.Valid() && tmp != 0 && -2048 <= imm <= 2048
    ensures var t := Run(ImmOp(ADDI, rd, rs1, imm, tmp), s);
            t.Some? && Writes(s, t.value, rd, s.Get(rs1) + imm, rd)
  {
    hide *;
    SmallExact(rs1, imm, tmp);
    WantedAddi(s, rs1, imm);
    ImmOpMeaning(ADDI, rd, rs1, imm, tmp, s);
    SameModulo(s, Run(ImmOp(ADDI, rd, rs1, imm, tmp), s).value, rd, Wanted(ADDI, s, rs1, imm).value, s.Get(rs1) + imm, rd);
  }

  lemma StoreRuns(s: State, rs2: Reg, off: Int32)
    requires s.Valid() && -2048 <= off < 2048
    ensures var t := Run(StoreOp(3, rs2, SP, off), s);
            t == Some(s.(mem := StoreBytes(s.mem, s.Get(SP) + off, Le(s.Get(rs2), 8))))
  {
    hide Run, StoreBytes, Le;
    ValidImmRange(off);
    RunOne(Store(3, rs2, SP, off), s);
  }

  lemma LoadRuns(s: State, rd: Reg, off: Int32, tmp: Reg)
    requires s.Valid() && tmp != 0 && -2048 <= off < 2048
    ensures var t := Run(ImmOp(LD, rd, SP, off, tmp), s);
            t.Some? && Writes(s, t.value, rd, Double(s.mem, s.Get(SP) + off), rd)
  {
    ValidImmRange(off);
    hide Run, Writes, ValidImm, FromLe, ImmOp;
    ImmOpMeaning(LD, rd, SP, off, tmp, s);
  }

  lemma Apart(x: int, e: int)
    ensures ((x + (e + 8)) - (x + e)) % TWO_64 == 8 && ((x + e) - (x + (e + 8))) % TWO_64 == TWO_64 - 8
  {
  }

  // The two saved registers can both be loaded back.
  lemma SavedSlots(s: State, e: nat, t: State, u: State)
    requires s.Valid() && e <= 2032
    requires t == s.(mem := StoreBytes(s.mem, s.Get(SP) + (e + 8), Le(s.Get(RA), 8)))
    requires u == t.(mem := StoreBytes(t.mem, s.Get(SP) + e, Le(s.Get(S0), 8)))
    ensures Double(u.mem, s.Get(SP) + (e + 8)) == s.Get(RA) && Double(u.mem, s.Get(SP) + e) == s.Get(S0)
  {
    hide StoreBytes, Double;
    Apart(s.Get(SP), e);
    LoadStored(s.mem, s.Get(SP) + (e + 8), s.Get(RA));
    LoadStored(t.mem, s.Get(SP) + e, s.Get(S0));
    LoadBeside(t.mem, s.Get(SP) + e, Le(s.Get(S0), 8), s.Get(SP) + (e + 8));
  }

  lemma RunChain4(a: seq<Instr>, b: seq<Instr>, c: seq<Instr>, d: seq<Instr>, s: State)
    requires s.Valid() && Run(a, s).Some? && Run(b, Run(a, s).value).Some?
    requires Run(c, Run(b, Run(a, s).value).value).Some?
    ensures Run(a + b + c + d, s) == Run(d, Run(c, Run(b, Run(a, s).value).value).value)
  {
    hide Run;
    RunAppend(a, b, s);
    RunAppend(a + b, c, s);
    RunAppend(a + b + c, d, s);
  }

  lemma PrologueEnters(usage: StackUsage, tmp: Scratches, s: State)
    requires s.Valid() && usage <= 2032
    ensures var t := Run(Prologue(usage, tmp), s);
            t.Some? && Entered(usage, s, t.value)
  {
    hide *;
    var e: int := Align16(usage);
    SmallFrame(usage);
    AddiRuns(s, SP, SP, -(e + 16), tmp.a);
    var a := Run(ImmOp(ADDI, SP, SP, -(e + 16), tmp.a), s).value;
    StoreRuns(a, RA, e + 8);
    var b := Run(StoreOp(3, RA, SP, e + 8), a).value;
    StoreRuns(b, S0, e);
    var c := Run(StoreOp(3, S0, SP, e), b).value;
    AddiRuns(c, S0, SP, e + 16, tmp.b);
    var d := Run(ImmOp(ADDI, S0, SP, e + 16, tmp.b), c).value;
    PrologueParts(usage, tmp);
    RunChain4(ImmOp(ADDI, SP, SP, -(e + 16), tmp.a), StoreOp(3, RA, SP, e + 8), StoreOp(3, S0, SP, e),
              ImmOp(ADDI, S0, SP, e + 16, tmp.b), s);
    FourSteps(usage, s, a, b, c, d);
  }

  lemma PrologueParts(usage: StackUsage, tmp: Scratches)
    ensures var e: int := Align16(usage);
            Prologue(usage, tmp) == ImmOp(ADDI, SP, SP, -(e + 16), tmp.a) + StoreOp(3, RA, SP, e + 8) + StoreOp(3, S0, SP, e)
                                    + ImmOp(ADDI, S0, SP, e + 16, tmp.b)
  {
  }

  lemma FourSteps(usage: StackUsage, s: State, a: State, b: State, c: State, d: State)
    requires s.Valid() && a.Valid() && b.Valid() && c.Valid() && usage <= 2032
    requires var e: int := Align16(usage);
             && Writes(s, a, SP, s.Get(SP) - (e + 16), SP)
             && b == a.(mem := StoreBytes(a.mem, a.Get(SP) + (e + 8), Le(a.Get(RA), 8)))
             && c == b.(mem := StoreBytes(b.mem, b.Get(SP) + e, Le(b.Get(S0), 8)))
             && Writes(c, d, S0, c.Get(SP) + (e + 16), S0)
    ensures Entered(usage, s, d)
  {
    hide StoreBytes, Le, Double;
    var e := Align16(usage);
    SmallFrame(usage);
    SavedSlots(a, e, b, c);
    ModAdd(s.Get(SP) - (e + 16), e + 16);
  }

  lemma EpilogueLeaves(usage: StackUsage, tmp: Scratches, s: State, t: State, mid: State)
    requires usage <= 2032 && Entered(usage, s, t) && BodyKeeps(usage, t, mid)
    ensures var u := Run(Epilogue(usage, tmp), mid);
            u.Some? && Restored(s, u.value) && u.value.mem == mid.mem
  {
    hide Run, ImmOp, Double;
    var e: int := Align16(usage);
    SmallFrame(usage);
    LoadRuns(mid, RA, e + 8, tmp.c);
    var a := Run(ImmOp(LD, RA, SP, e + 8, tmp.c), mid).value;
    LoadRuns(a, S0, e, tmp.d);
    var b := Run(ImmOp(LD, S0, SP, e, tmp.d), a).value;
    AddiRuns(b, SP, SP, e + 16, tmp.e);
    RunAppend(ImmOp(LD, RA, SP, e + 8, tmp.c), ImmOp(LD, S0, SP, e, tmp.d), mid);
    RunAppend(ImmOp(LD, RA, SP, e + 8, tmp.c) + ImmOp(LD, S0, SP, e, tmp.d), ImmOp(ADDI, SP, SP, e + 16, tmp.e), mid);
  }

  // The stack pointer stays a multiple of 16.
  lemma EntryKeepsAlignment(usage: StackUsage, s: State, t: State)
    requires Entered(usage, s, t)
    ensures t.Get(SP) % 16 == s.Get(SP) % 16
  {
    hide Double;
    Aligned(s.Get(SP), Align16(usage) + 16);
  }

  lemma Aligned(x: int, k: int)
    requires 0 <= x < TWO_64 && 0 <= k < TWO_32 && k % 16 == 0
    ensures (x - k) % TWO_64 % 16 == x % 16
  {
    var y := x - k;
    assert y % TWO_64 == if y >= 0 then y else y + TWO_64;
  }

  // ---- Large frames ----

  function Zeroed(): (s: State)
    ensures s.Valid() && forall r: Reg :: s.Get(r) == 0
  {
    State(seq(32, _ => 0), _ => 0)
  }

  // From 2033 bytes on the offsets of the two saves do not fit and nothing is
  // saved; a state of zeros but for the return address shows it.
  function Lonely(): (s: State)
    ensures s.Valid() && s.Get(RA) == 1
  {
    Zeroed().Set(RA, 1)
  }

  lemma AddiRunsAnyhow(s: State, rd: Reg, rs1: Reg, imm: Int32, tmp: Reg)
    requires s.Valid() && tmp > 2 && rs1 == SP && rd != RA
    ensures var t := Run(ImmOp(ADDI, rd, rs1, imm, tmp), s);
            t.Some? && t.value.Valid() && t.value.mem == s.mem && t.value.Get(RA) == s.Get(RA)
  {
    hide Run, ImmOp, Wanted, NeedsScratch;
    WantedAddi(s, rs1, Got(ADDI, imm));
    ImmOpGets(ADDI, rd, rs1, imm, tmp, s);
  }

  lemma ZeroMemory(m: Memory, a: int)
    requires m == Zeroed().mem
    ensures Double(m, a) == 0
  {
    assert LoadBytes(m, a, 8) == Le(0, 8);
    U64RoundTrip(0);
  }

  // Loads from zeros leave zero in rd.
  lemma LoadRunsAnyhow(s: State, rd: Reg, off: Int32, tmp: Reg)
    requires s.Valid() && tmp > 2 && s.mem == Zeroed().mem
    ensures var t := Run(ImmOp(LD, rd, SP, off, tmp), s);
            && t.Some? && t.value.Valid() && t.value.mem == s.mem
            && t.value.Get(rd) == 0 && (rd != RA ==> t.value.Get(RA) == s.Get(RA))
  {
    hide Run, ImmOp, NeedsScratch, FromLe, LoadBytes;
    ZeroMemory(s.mem, s.Get(SP) + Got(LD, off));
    ImmOpGets(LD, rd, SP, off, tmp, s);
  }

  lemma LargeFrame(usage: StackUsage)
    requires usage > 2032
    ensures Align16(usage) >= 2048
  {
  }

  lemma NothingSaved(usage: StackUsage, tmp: Scratches)
    requires usage > 2032
    ensures var t := Run(Prologue(usage, tmp), Lonely());
            t.Some? && t.value.mem == Zeroed().mem
  {
    hide Run, ImmOp, Zeroed;
    var e: int := Align16(usage);
    var s := Lonely();
    LargeFrame(usage);
    ValidImmRange(e + 8);
    ValidImmRange(e);
    AddiRunsAnyhow(s, SP, SP, -(e + 16), tmp.a);
    var a := Run(ImmOp(ADDI, SP, SP, -(e + 16), tmp.a), s).value;
    AddiRunsAnyhow(a, S0, SP, e + 16, tmp.b);
    assert Prologue(usage, tmp) == ImmOp(ADDI, SP, SP, -(e + 16), tmp.a) + ImmOp(ADDI, S0, SP, e + 16, tmp.b);
    RunAppend(ImmOp(ADDI, SP, SP, -(e + 16), tmp.a), ImmOp(ADDI, S0, SP, e + 16, tmp.b), s);
  }

  lemma ReturnAddressLost(usage: StackUsage, tmp: Scratches, mid: State)
    requires mid.Valid() && mid.mem == Zeroed().mem
    ensures var u := Run(Epilogue(usage, tmp), mid);
            u.Some? && u.value.Valid() && u.value.Get(RA) == 0
  {
    hide Run, ImmOp, Zeroed;
    var e := Align16(usage);
    LoadRunsAnyhow(mid, RA, e + 8, tmp.c);
    var a := Run(ImmOp(LD, RA, SP, e + 8, tmp.c), mid).value;
    LoadRunsAnyhow(a, S0, e, tmp.d);
    var b := Run(ImmOp(LD, S0, SP, e, tmp.d), a).value;
    AddiRunsAnyhow(b, SP, SP, e + 16, tmp.e);
    RunAppend(ImmOp(LD, RA, SP, e + 8, tmp.c), ImmOp(LD, S0, SP, e, tmp.d), mid);
    RunAppend(ImmOp(LD, RA, SP, e + 8, tmp.c) + ImmOp(LD, S0, SP, e, tmp.d), ImmOp(ADDI, SP, SP, e + 16, tmp.e), mid);
  }

  // ---- Main result ----

  // Prologue, any body that keeps the stack pointer and the saved slots, then
  // epilogue: sp, ra and s0 are restored from every state, exactly when the
  // stack usage is at most 2032 bytes.
  lemma FrameWorksExactly(usage: StackUsage, tmp: Scratches)
    ensures FrameWorks(usage, tmp) <==> usage <= 2032
  {
    hide Run, Prologue, Epilogue, Entered, BodyKeeps, Restored, Zeroed;
    if usage <= 2032 {
      forall s: State, mid: State | s.Valid() ensures CallRestores(usage, tmp, s, mid) {
        PrologueEnters(usage, tmp, s);
        var t := Run(Prologue(usage, tmp), s).value;
        if BodyKeeps(usage, t, mid) {
          EpilogueLeaves(usage, tmp, s, t, mid);
        }
      }
    } else {
      LargeFrameFails(usage, tmp);
    }
  }

  lemma LargeFrameFails(usage: StackUsage, tmp: Scratches)
    requires usage > 2032
    ensures exists mid :: !CallRestores(usage, tmp, Lonely(), mid)
  {
    hide Run, Prologue, Epilogue, Zeroed;
    NothingSaved(usage, tmp);
    var mid := Run(Prologue(usage, tmp), Lonely()).value;
    ReturnAddressLost(usage, tmp, mid);
    assert !CallRestores(usage, tmp, Lonely(), mid);
  }

  // ---- The same about bytes ----

  ghost predicate BytesRestore(usage: StackUsage, pro: Bytes, epi: Bytes, s: State, mid: State)
    requires s.Valid()
  {
    var t := RunBytes(pro, s);
    && t.Some?
    && (BodyKeeps(usage, t.value, mid) ==>
        RunBytes(epi, mid).Some? && Restored(s, RunBytes(epi, mid).value))
  }

  ghost predicate BytesWork(usage: StackUsage, pro: Bytes, epi: Bytes) {
    forall s: State, mid: State :: s.Valid() ==> BytesRestore(usage, pro, epi, s, mid)
  }

  lemma BytesAreCode(usage: StackUsage, tmp: Scratches, pro: Bytes, epi: Bytes)
    requires DecodeBytes(pro) == Some(Prologue(usage, tmp)) && DecodeBytes(epi) == Some(Epilogue(usage, tmp))
    ensures BytesWork(usage, pro, epi) <==> FrameWorks(usage, tmp)
  {
    hide Run, DecodeBytes, Prologue, Epilogue, BodyKeeps, Restored;
    forall s: State, mid: State | s.Valid()
      ensures BytesRestore(usage, pro, epi, s, mid) <==> CallRestores(usage, tmp, s, mid)
    {
    }
  }

  // The bytes that are emitted for the entry and the exit of a function, when
  // they are run, restore sp, ra and s0 around every such body exactly when the
  // stack usage is at most 2032 bytes.
  method FrameBytes(usage: StackUsage, tmp: Scratches) returns (pro: Bytes, epi: Bytes)
    ensures DecodeBytes(pro) == Some(Prologue(usage, tmp)) && DecodeBytes(epi) == Some(Epilogue(usage, tmp))
    ensures BytesWork(usage, pro, epi) <==> usage <= 2032
  {
    hide DecodeBytes, Prologue, Epilogue, BytesWork, FrameWorks;
    var front := new Text();
    var back := new Text();
    EmitPrologue(front, usage, tmp);
    EmitEpilogue(back, usage, tmp);
    pro, epi := front.bytes, back.bytes;
    assert [] + Prologue(usage, tmp) == Prologue(usage, tmp) && [] + Epilogue(usage, tmp) == Epilogue(usage, tmp);
    BytesAreCode(usage, tmp, pro, epi);
    FrameWorksExactly(usage, tmp);
  }
}
