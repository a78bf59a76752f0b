// How long the functions are that lib/back_end/emit.c lays out: the sizes that
// Emit counts with are those of the code that is emitted around a body.
module FnLayout {
  import opened Options
  import opened IrBinary
  import opened BitNumbers
  import opened Emit
  import opened RiscVMachine
  import opened RiscVEmit
  import opened RiscVWords
  import F = RiscVFrame
  import E = RiscVEncode

  const A7: Reg := 17

  // back_end_native_ret(): jalr with the zero register and ra
  function RetBytes(): (b: Bytes)
    ensures |b| == 4
  {
    WordBytes(E.IWord(0x67, RegBits(ZERO), RegBits(RA), BvOf(0)))
  }

  // back_end_native_syscall_0(): li a7, then ecall
  function ExitBytes(number: int): Bytes {
    WordBytes(IWordOf(ADDI, A7, ZERO, number)) + [0x73, 0, 0, 0]
  }

  lemma {:induction false} DecodeLength(b: Bytes)
    requires DecodeBytes(b).Some?
    ensures |b| == 4 * |DecodeBytes(b).value|
    decreases |b|
  {
    hide Decode, FromLe, WordOf;
    if b != [] {
      DecodeLength(b[4..]);
    }
  }

  // Without stack usage all immediates fit.
  lemma EmptyPrologue(tmp: F.Scratches)
    ensures |F.Prologue(0, tmp)| == 4
  {
    hide ImmOp, StoreOp, ValidImm, F.Align16;
    NothingToAlign();
    SmallImmediates();
    OneImm(ADDI, SP, SP, -16, tmp.a);
    OneStore(RA, 8);
    OneStore(S0, 0);
    OneImm(ADDI, S0, SP, 16, tmp.b);
  }

  lemma EmptyEpilogue(tmp: F.Scratches)
    ensures |F.Epilogue(0, tmp)| == 3
  {
    hide ImmOp, ValidImm, F.Align16;
    NothingToAlign();
    SmallImmediates();
    OneImm(LD, RA, SP, 8, tmp.c);
    OneImm(LD, S0, SP, 0, tmp.d);
    OneImm(ADDI, SP, SP, 16, tmp.e);
  }

  lemma NothingToAlign()
    ensures F.Align16(0) == 0
  {
  }

  lemma SmallImmediates()
    ensures ValidImm(-16) && ValidImm(8) && ValidImm(0) && ValidImm(16)
  {
    ValidImmRange(-16);
    ValidImmRange(8);
    ValidImmRange(0);
    ValidImmRange(16);
  }

  lemma OneImm(op: IOp, rd: Reg, rs1: Reg, imm: Int32, tmp: Reg)
    requires ValidImm(imm)
    ensures |ImmOp(op, rd, rs1, imm, tmp)| == 1
  {
    hide ValidImm;
  }

  lemma OneStore(rs2: Reg, off: Int32)
    requires ValidImm(off)
    ensures |StoreOp(3, rs2, SP, off)| == 1
  {
    hide ValidImm;
  }

  lemma {:induction false} SizeAppend(a: seq<Op>, b: seq<Op>)
    ensures OpsSize(a + b) == OpsSize(a) + OpsSize(b)
    decreases |b|
  {
    if b == [] {
      assert a + b == a;
    } else {
      var c := b[..|b| - 1];
      assert (a + b)[..|a + b| - 1] == a + c;
      SizeAppend(a, c);
    }
  }

  lemma SizeOne(n: nat)
    ensures OpsSize([Plain(n)]) == n
  {
    assert [Plain(n)][..0] == [];
  }

  // Every function but main: its body stands right behind the prologue, and
  // behind it the epilogue and the return.
  lemma {:induction false} UsualSizes(f: Fn, tmp: F.Scratches, pro: Bytes, epi: Bytes, k: nat)
    requires f.name != "main" && k <= |f.ops|
    requires DecodeBytes(pro) == Some(F.Prologue(0, tmp)) && DecodeBytes(epi) == Some(F.Epilogue(0, tmp))
    ensures |FnOps(f)| == 1 + |f.ops| + 2 && FnOps(f)[1..1 + |f.ops|] == f.ops
    ensures OpsSize(FnOps(f)[..1 + k]) == |pro| + OpsSize(f.ops[..k])
    ensures OpsSize(FnOps(f)) == |pro| + OpsSize(f.ops) + |epi| + |RetBytes()|
  {
    hide DecodeBytes, RetBytes, F.Prologue, F.Epilogue, OpsSize;
    DecodeLength(pro);
    DecodeLength(epi);
    EmptyPrologue(tmp);
    EmptyEpilogue(tmp);
    var front, back := [Plain(16)], [Plain(12)] + [Plain(4)];
    assert FnOps(f) == front + f.ops + back;
    assert FnOps(f)[..1 + k] == front + f.ops[..k];
    SizeOne(16);
    SizeOne(12);
    SizeOne(4);
    SizeAppend([Plain(12)], [Plain(4)]);
    SizeAppend(front, f.ops[..k]);
    SizeAppend(front, f.ops);
    SizeAppend(front + f.ops, back);
  }

  lemma LiIsOneWord(number: int, tmp: Reg)
    requires -2048 <= number < 2048
    ensures |ExitBytes(number)| == 8
    ensures DecodeBytes(ExitBytes(number)[..4]) == Some(ImmOp(ADDI, A7, ZERO, number, tmp))
  {
    hide DecodeBytes, Decode, IWordOf, ValidImm, WordBytes, IInstr;
    ValidImmRange(number);
    IWordDecodes(ADDI, A7, ZERO, number);
    DecodeOne(IWordOf(ADDI, A7, ZERO, number));
    assert ExitBytes(number)[..4] == WordBytes(IWordOf(ADDI, A7, ZERO, number));
  }

  // main: nothing in front of its body, the exit behind it.
  lemma {:induction false} MainSizes(f: Fn, number: int, tmp: Reg, k: nat)
    requires f.name == "main" && k <= |f.ops| && -2048 <= number < 2048
    ensures DecodeBytes(ExitBytes(number)[..4]) == Some(ImmOp(ADDI, A7, ZERO, number, tmp))
    ensures |FnOps(f)| == |f.ops| + 1 && FnOps(f)[..|f.ops|] == f.ops
    ensures OpsSize(FnOps(f)[..k]) == OpsSize(f.ops[..k])
    ensures OpsSize(FnOps(f)) == OpsSize(f.ops) + |ExitBytes(number)|
  {
    hide OpsSize, DecodeBytes;
    LiIsOneWord(number, tmp);
    hide WordBytes, ImmOp;
    assert FnOps(f) == f.ops + [Plain(8)];
    assert FnOps(f)[..k] == f.ops[..k];
    SizeOne(8);
    SizeAppend(f.ops, [Plain(8)]);
  }

  // visit_fn_usual() around a body that is already emitted: the code that comes
  // out has the size that the layout counts, and keeps the caller's registers.
  method UsualFn(f: Fn, body: Bytes, tmp: F.Scratches) returns (code: Bytes, ghost pro: Bytes, ghost epi: Bytes)
    requires f.name != "main" && |body| == OpsSize(f.ops)
    ensures code == pro + body + epi + RetBytes() && |code| == OpsSize(FnOps(f))
    ensures F.BytesWork(0, pro, epi) && OpsSize(FnOps(f)[..1]) == |pro|
    ensures DecodeBytes(pro) == Some(F.Prologue(0, tmp)) && DecodeBytes(epi) == Some(F.Epilogue(0, tmp))
  {
    hide DecodeBytes, RetBytes, F.Prologue, F.Epilogue, OpsSize, FnOps, F.BytesWork;
    var front, back := F.FrameBytes(0, tmp);
    pro, epi := front, back;
    code := front + body + back + RetBytes();
    UsualSizes(f, tmp, pro, epi, 0);
    NoSize(f);
  }

  lemma NoSize(f: Fn)
    ensures OpsSize(f.ops[..0]) == 0
  {
  }
}
