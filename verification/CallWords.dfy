// The calls of lib/back_end/emit.c as the words that risc_v_jal() emits for them:
// which calls reach their callee.
module CallWords {
  import opened BitNumbers
  import opened IrBinary
  import opened Emit
  import W = RiscVWords
  import E = RiscVEncode

  // ---- The offset of a jal ----

  lemma JalField(reg: E.Reg, x: bv32)
    ensures E.FieldJ(E.JalWord(reg, x)) == And(x, 0x1F_FFFE)
    ensures E.Opcode(E.JalWord(reg, x)) == 0x6F && E.Rd(E.JalWord(reg, x)) == reg
  {
  }

  lemma ExtendZeros(x: bv32)
    requires And(x, 0xFFF0_0000) == 0
    ensures E.Extend21(And(x, 0x1F_FFFE)) == And(x, 0xFFFF_FFFE)
  {
  }

  lemma ExtendOnes(x: bv32)
    requires And(x, 0xFFF0_0000) == 0xFFF0_0000
    ensures E.Extend21(And(x, 0x1F_FFFE)) == And(x, 0xFFFF_FFFE)
  {
  }

  lemma ExtendOthers(x: bv32)
    requires And(x, 0xFFF0_0000) != 0 && And(x, 0xFFF0_0000) != 0xFFF0_0000
    ensures E.Extend21(And(x, 0x1F_FFFE)) != And(x, 0xFFFF_FFFE)
  {
  }

  // The decoded offset is always even.
  lemma ExtendIsEven(x: bv32)
    ensures And(E.Extend21(And(x, 0x1F_FFFE)), 0xFFFF_FFFE) == E.Extend21(And(x, 0x1F_FFFE))
  {
    hide E.Extend21, And;
    var f := And(x, 0x1F_FFFE);
    FieldIsEven(x);
    if And(f, 0x10_0000) == 0 {
      ExtendClear(f);
    } else {
      ExtendSet(f);
    }
  }

  lemma FieldIsEven(x: bv32)
    ensures var f := And(x, 0x1F_FFFE); And(f, 0x1F_FFFE) == f && And(f, 0xFFFF_FFFE) == f
  {
  }

  lemma ExtendClear(f: bv32)
    requires And(f, 0x1F_FFFE) == f && And(f, 0x10_0000) == 0
    ensures E.Extend21(f) == f
  {
  }

  lemma ExtendSet(f: bv32)
    requires And(f, 0x1F_FFFE) == f && And(f, 0x10_0000) != 0
    ensures And(E.Extend21(f), 0xFFFF_FFFE) == E.Extend21(f)
  {
    ExtendSetBits(f);
  }

  lemma ExtendSetBits(f: bv32)
    requires And(f, 0x1F_FFFE) == f && And(f, 0x10_0000) != 0
    ensures E.Extend21(f) == Or(f, 0xFFE0_0000)
  {
  }

  // It is x without bit 0 exactly when bits 20 to 31 are alike.
  lemma ExtendField(x: bv32)
    ensures E.Extend21(And(x, 0x1F_FFFE)) == And(x, 0xFFFF_FFFE)
            <==> And(x, 0xFFF0_0000) == 0 || And(x, 0xFFF0_0000) == 0xFFF0_0000
  {
    hide E.Extend21, And;
    if And(x, 0xFFF0_0000) == 0 {
      ExtendZeros(x);
    } else if And(x, 0xFFF0_0000) == 0xFFF0_0000 {
      ExtendOnes(x);
    } else {
      ExtendOthers(x);
    }
  }

  lemma Masks()
    ensures And(Mask(1), 0xFFFF_FFFE) == 0 && Or(Mask(1), 0xFFFF_FFFE) == 0xFFFF_FFFF && Pow2(1) == 2
    ensures And(Mask(20), 0xFFF0_0000) == 0 && Or(Mask(20), 0xFFF0_0000) == 0xFFFF_FFFF && Pow2(20) == 0x10_0000
    ensures IntOf(0) == 0 && IntOf(0xFFF0_0000) == -0x10_0000
  {
    assert Mask(1) == 1;
    MaskTwenty();
    hide NatOf, Mask;
    NatOfZero(0, 32);
    TwentyOnes();
  }

  lemma MaskTwenty()
    ensures Mask(20) == 0xF_FFFF && Pow2(20) == 0x10_0000
  {
    assert Mask(8) == 0xFF && Pow2(8) == 256;
    assert Mask(14) == 0x3FFF && Pow2(14) == 0x4000;
  }

  lemma TwentyOnes()
    ensures IntOf(0xFFF0_0000) == -0x10_0000
  {
    hide NatOf, Mask, Pow2;
    MaskTwenty();
    MaskValues();
    Pow2Values();
    NatOfMask(20, 32);
    NatOfMask(32, 32);
    SumOfParts(0xFFFF_FFFF, 0xF_FFFF, 0xFFF0_0000);
  }

  // An offset comes back from its word exactly when it is even and has 21 bits.
  lemma JalOffset(reg: E.Reg, off: int)
    ensures IntOf(E.ImmJ(E.JalWord(reg, BvOf(off)))) == off <==> -0x10_0000 <= off < 0x10_0000 && off % 2 == 0
  {
    hide IntOf, BvOf, And, Or, Mask, Pow2, E.JalWord, E.FieldJ, E.Extend21, E.Opcode, E.Rd;
    var x := BvOf(off);
    var y := E.ImmJ(E.JalWord(reg, x));
    JalField(reg, x);
    ExtendField(x);
    ExtendIsEven(x);
    Masks();
    IntRange(y);
    UpperBits(y, 1, 0xFFFF_FFFE);
    if -0x8000_0000 <= off < 0x8000_0000 {
      IntRoundTrip(off);
      UpperBits(x, 1, 0xFFFF_FFFE);
      UpperBits(x, 20, 0xFFF0_0000);
      if IntOf(y) == off { IntInjective(y, And(x, 0xFFFF_FFFE)); }
      if IntOf(And(x, 0xFFF0_0000)) == 0 { IntInjective(And(x, 0xFFF0_0000), 0); }
      if IntOf(And(x, 0xFFF0_0000)) == -0x10_0000 { IntInjective(And(x, 0xFFF0_0000), 0xFFF0_0000); }
    }
  }

  lemma IntRange(x: bv32)
    ensures -0x8000_0000 <= IntOf(x) < 0x8000_0000
  {
    hide NatOf;
    Nat32Bound(x);
  }

  // ---- The text as bytes ----

  const RA: E.Reg := 1

  // risc_v_jal(risc_v_reg_ra, off)
  function CallWord(off: int): bv32 { E.JalWord(RA, BvOf(off)) }

  // Bytes that hold the words of all calls; the other code is left open.
  ghost predicate IsText(bytes: Bytes, text: seq<Cell>) {
    && |bytes| == |text|
    && forall i :: 0 <= i < |text| && text[i].Jal? ==>
         text[i].part < 4 && bytes[i] == W.WordBytes(CallWord(text[i].off))[text[i].part]
  }

  function WordAt(bytes: Bytes, at: nat): bv32
    requires at + 4 <= |bytes|
  {
    WordOf(FromLe(bytes[at..at + 4]), 32)
  }

  lemma CallBytes(bytes: Bytes, text: seq<Cell>, at: nat, off: int)
    requires IsText(bytes, text) && at + 4 <= |text| && text[at..at + 4] == JalCells(off)
    ensures WordAt(bytes, at) == CallWord(off)
  {
    hide W.WordBytes, CallWord, FromLe, WordOf;
    var b := W.WordBytes(CallWord(off));
    forall j | 0 <= j < 4 ensures bytes[at..at + 4][j] == b[j] {
      assert text[at..at + 4][j] == Jal(off, j) && text[at + j] == text[at..at + 4][j];
    }
    assert bytes[at..at + 4] == b;
    W.WordBack(CallWord(off));
  }

  // ---- Whole instructions ----

  predicate WholeOps(ops: seq<Op>) {
    forall i :: 0 <= i < |ops| ==> OpSize(ops[i]) % 4 == 0
  }

  ghost predicate WholeWords(fns: seq<Fn>) {
    forall j :: 0 <= j < |fns| ==> WholeOps(fns[j].ops)
  }

  lemma {:induction false} OpsAligned(ops: seq<Op>)
    requires WholeOps(ops)
    ensures OpsSize(ops) % 4 == 0
    decreases |ops|
  {
    if ops != [] { OpsAligned(ops[..|ops| - 1]); }
  }

  lemma {:induction false} WholeFn(f: Fn)
    requires WholeOps(f.ops)
    ensures WholeOps(FnOps(f))
  {
  }

  lemma WholePrefix(ops: seq<Op>, k: nat)
    requires WholeOps(ops) && k <= |ops|
    ensures WholeOps(ops[..k])
  {
  }

  lemma {:induction false} StartAligned(fns: seq<Fn>, j: nat)
    requires WholeWords(fns) && j <= |fns|
    ensures Start(fns, j) % 4 == 0
    decreases j
  {
    hide FnOps, OpsSize, WholeOps;
    if j > 0 {
      StartAligned(fns, j - 1);
      WholeFn(fns[j - 1]);
      OpsAligned(FnOps(fns[j - 1]));
    }
  }

  lemma {:induction false} CallAligned(fns: seq<Fn>, i: nat, k: nat)
    requires WholeWords(fns) && i < |fns| && k <= |FnOps(fns[i])|
    ensures (START_SIZE + Start(fns, i) + OpsSize(FnOps(fns[i])[..k])) % 4 == 0
  {
    hide Start, OpsSize, FnOps, WholeOps;
    StartAligned(fns, i);
    WholeFn(fns[i]);
    WholePrefix(FnOps(fns[i]), k);
    OpsAligned(FnOps(fns[i])[..k]);
  }

  // ---- Where calls lead ----

  // A jal ra at this address of the text that leads to the target.
  ghost predicate JalTo(bytes: Bytes, at: nat, target: int)
    requires at + 4 <= |bytes|
  {
    var w := WordAt(bytes, at);
    E.Opcode(w) == 0x6F && E.Rd(w) == RA && at + IntOf(E.ImmJ(w)) == target
  }

  lemma JalToExactly(bytes: Bytes, text: seq<Cell>, at: nat, target: nat)
    requires IsText(bytes, text) && at + 4 <= |text| && text[at..at + 4] == JalCells(target - at)
    requires at % 4 == 0 && target % 4 == 0
    ensures at + 4 <= |bytes| && (JalTo(bytes, at, target) <==> -0x10_0000 <= target - at < 0x10_0000)
  {
    hide *;
    TextLength(bytes, text);
    CallBytes(bytes, text, at, target - at);
    JalToMeans(bytes, at, target);
    JalOffset(RA, target - at);
    EvenDistance(at, target);
  }

  lemma EvenDistance(at: nat, target: nat)
    requires at % 4 == 0 && target % 4 == 0
    ensures (target - at) % 2 == 0
  {
    FourTimes(at, at / 4);
    FourTimes(target, target / 4);
    TwiceEven(2 * (target / 4) - 2 * (at / 4), target - at);
  }

  lemma FourTimes(n: nat, q: nat)
    requires n % 4 == 0 && q == n / 4
    ensures n == 2 * (2 * q)
  {
  }

  lemma TwiceEven(d: int, n: int)
    requires n == 2 * d
    ensures n % 2 == 0
  {
  }

  lemma JalToMeans(bytes: Bytes, at: nat, target: int)
    requires at + 4 <= |bytes| && WordAt(bytes, at) == CallWord(target - at)
    ensures JalTo(bytes, at, target) <==> IntOf(E.ImmJ(E.JalWord(RA, BvOf(target - at)))) == target - at
  {
    hide IntOf, BvOf, WordAt, E.JalWord, E.ImmJ, E.FieldJ, E.Opcode, E.Rd, And;
    JalField(RA, BvOf(target - at));
  }

  // In the emitted bytes a call is a jal to the address that the symbol table
  // gives for its callee exactly when that is less than 2^20 bytes away (or
  // 2^20 backwards); farther callees are missed silently.
  lemma {:induction false} CallReaches(fns: seq<Fn>, i: nat, k: nat, bytes: Bytes)
    requires AllKnown(fns) && HasMain(fns) && WholeWords(fns) && IsText(bytes, FinalText(fns))
    requires i < |fns| && k < |FnOps(fns[i])| && FnOps(fns[i])[k].Call?
    ensures var at := START_SIZE + Start(fns, i) + OpsSize(FnOps(fns[i])[..k]);
            var callee := Lookup(fns[..i + 1], FnOps(fns[i])[k].name);
            && callee.Some? && at + 4 <= |bytes| && |Symbols(fns)| == |fns| + 1
            && var target := Symbols(fns)[callee.value + 1].1;
               JalTo(bytes, at, target) <==> -0x10_0000 <= target - at < 0x10_0000
  {
    hide AllKnown, HasMain, WholeWords, IsText, JalTo, JalCells, FnOps, OpsSize, Start, Lookup, Symbols, FinalText;
    FinalCallLands(fns, i, k);
    var at := START_SIZE + Start(fns, i) + OpsSize(FnOps(fns[i])[..k]);
    var callee := Lookup(fns[..i + 1], FnOps(fns[i])[k].name).value;
    CallAligned(fns, i, k);
    SymbolOf(fns, callee);
    StartAligned(fns, callee);
    TextLength(bytes, FinalText(fns));
    JalToExactly(bytes, FinalText(fns), at, Symbols(fns)[callee + 1].1);
  }

  lemma TextLength(bytes: Bytes, text: seq<Cell>)
    requires IsText(bytes, text)
    ensures |bytes| == |text|
  {
  }

  // And _start reaches main exactly when that starts below 2^20.
  lemma {:induction false} StartReaches(fns: seq<Fn>, bytes: Bytes)
    requires AllKnown(fns) && HasMain(fns) && WholeWords(fns) && IsText(bytes, FinalText(fns))
    ensures var main := Lookup(fns, "main").value;
            && 4 <= |bytes| && |Symbols(fns)| == |fns| + 1
            && (JalTo(bytes, 0, Symbols(fns)[main + 1].1) <==> Symbols(fns)[main + 1].1 < 0x10_0000)
  {
    hide AllKnown, WholeWords, IsText, JalTo, JalCells, Start, Lookup, Symbols, BodyText;
    var main := Lookup(fns, "main").value;
    SymbolOf(fns, main);
    StartAligned(fns, main);
    TextLength(bytes, FinalText(fns));
    StartJump(fns);
    JalToExactly(bytes, FinalText(fns), 0, Symbols(fns)[main + 1].1);
  }

  lemma StartJump(fns: seq<Fn>)
    requires AllKnown(fns) && HasMain(fns)
    ensures 4 <= |FinalText(fns)| && FinalText(fns)[0..4] == JalCells(START_SIZE + Start(fns, Lookup(fns, "main").value))
  {
    hide AllKnown, JalCells, Start, Lookup, BodyText;
  }
}
