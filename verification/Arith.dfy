// lib/middle_end/opt/arith.c: algebraic rewrites of stored binary operations.
module Arith {
  import opened Int32
  import opened Ir
  import opened Options
  import opened Interpreter
  import opened TypePass

  predicate IsPowerOfTwo(x: int32) {
    x > 0 && AndBits(x, x - 1) == 0
  }

  ghost predicate PowerOfTwo(x: int) {
    exists k: nat :: x == Pow2(k)
  }

  lemma {:induction false} AndBitsSelf(a: nat)
    ensures AndBits(a, a) == a
    decreases a
  {
    if a > 0 { AndBitsSelf(a / 2); }
  }

  lemma Pow2Halves(x: nat, k: nat)
    requires x == Pow2(k) && x != 1
    ensures k > 0 && x % 2 == 0 && x / 2 == Pow2(k - 1)
  {
  }

  // x & (x - 1) clears the lowest set bit, so it is zero for powers of two only.
  lemma {:induction false} ClearsLowestBit(x: nat)
    requires x > 0
    ensures AndBits(x, x - 1) == 0 <==> PowerOfTwo(x)
    decreases x
  {
    if x == 1 {
      assert x == Pow2(0);
    } else if x % 2 == 1 {
      assert (x - 1) / 2 == x / 2;
      AndBitsSelf(x / 2);
      if PowerOfTwo(x) {
        var k: nat :| x == Pow2(k);
        Pow2Halves(x, k);
      }
    } else {
      var h := x / 2;
      assert (x - 1) / 2 == h - 1 && (x - 1) % 2 == 1;
      ClearsLowestBit(h);
      if PowerOfTwo(h) {
        var k: nat :| h == Pow2(k);
        assert x == Pow2(k + 1);
      }
      if PowerOfTwo(x) {
        var k: nat :| x == Pow2(k);
        Pow2Halves(x, k);
      }
    }
  }

  // The position of the only bit of a power of two.
  function Log2(x: nat): (k: nat)
    requires PowerOfTwo(x)
    ensures x == Pow2(k)
    decreases x
  {
    if x == 1 then 0
    else
      assert x / 2 < x && x % 2 == 0 && PowerOfTwo(x / 2) by {
        var k: nat :| x == Pow2(k);
        Pow2Halves(x, k);
      }
      1 + Log2(x / 2)
  }

  lemma {:induction false} Pow2Injective(a: nat, b: nat)
    requires Pow2(a) == Pow2(b)
    ensures a == b
    decreases a
  {
    if a > 0 && b > 0 { Pow2Injective(a - 1, b - 1); }
  }

  // nth_bit()
  method NthBit(x: int32) returns (idx: int32)
    requires IsPowerOfTwo(x)
    ensures 0 <= idx < 31 && x == Pow2(idx)
  {
    ClearsLowestBit(x);
    ghost var k: nat :| x == Pow2(k);
    BelowTopBit(k);
    var rest := x;
    idx := 0;
    while rest > 0
      invariant 0 <= idx <= k && rest == Pow2(k - idx)
      decreases k - idx
    {
      if rest % 2 == 1 {
        return;
      }
      Pow2Halves(rest, k - idx);
      rest := rest / 2;
      idx := idx + 1;
    }
  }

  lemma Pow2At31()
    ensures Pow2(31) == 0x8000_0000
  {
    assert Pow2(8) == 256;
    assert Pow2(16) == 65536;
    assert Pow2(24) == 0x100_0000;
  }

  lemma BelowTopBit(k: nat)
    requires Pow2(k) < 0x8000_0000
    ensures k < 31
  {
    Pow2At31();
    if k >= 31 { Pow2Grows(31, k); }
  }

  lemma {:induction false} Pow2Grows(a: nat, b: nat)
    requires a <= b
    ensures Pow2(a) <= Pow2(b)
    decreases b
  {
    if a < b { Pow2Grows(a, b - 1); }
  }

  // opt_arith_bin(): the replacement, if a rule applies.
  function OptBin(op: BinOp, l: Operand, r: Operand): Option<Body> {
    if op == Minus && l.Sym? && r.Sym? && l.idx == r.idx then Some(Direct(Imm(0)))
    else if !(l.Sym? && r.Imm?) then None
    else if op == Plus && r.n == 0 then Some(Direct(Sym(l.idx)))
    else if op == Minus && r.n == 0 then Some(Direct(Sym(l.idx)))
    else if op == Star && r.n == 0 then Some(Direct(Imm(0)))
    else if op == BitAnd && r.n == 0 then Some(Direct(Imm(0)))
    else if op == BitOr && r.n == 0 then Some(Direct(Sym(l.idx)))
    else if op == Star && IsPowerOfTwo(r.n) then
      ClearsLowestBit(r.n);
      BelowTopBit(Log2(r.n));
      Some(Bin(Shl, Sym(l.idx), Imm(Log2(r.n))))
    else None
  }

  function OptInstr(i: Instr): Instr {
    match i
    case Store(x, Bin(op, l, r)) =>
      var b := OptBin(op, l, r);
      if b.Some? then Store(x, b.value) else i
    case _ => i
  }

  function OptProgram(prog: Program): (r: Program)
    ensures |r| == |prog| && forall i :: 0 <= i < |prog| ==> r[i] == OptInstr(prog[i])
  {
    seq(|prog|, i requires 0 <= i < |prog| => OptInstr(prog[i]))
  }

  // What the rules do to instructions as they are: the operands of a
  // replacement are new nodes, and a new symbol has no type.
  function OptTyped(i: TInstr): TInstr {
    match i
    case TStore(x, ty, TBin(op, l, r)) =>
      var b := OptBin(op, EraseOperand(l), EraseOperand(r));
      if b.Some? then TStore(x, ty, RawBody(b.value)) else i
    case _ => i
  }

  function OptTypedProgram(prog: TProgram): (r: TProgram)
    ensures |r| == |prog| && forall i :: 0 <= i < |prog| ==> r[i] == OptTyped(prog[i])
  {
    seq(|prog|, i requires 0 <= i < |prog| => OptTyped(prog[i]))
  }

  // opt_arith_bin() and opt_arith_store(), with the shift count from the loop of nth_bit().
  method OptArithStore(op: BinOp, l: TOperand, r: TOperand) returns (b: Option<TBody>)
    ensures var want := OptBin(op, EraseOperand(l), EraseOperand(r));
            b == if want.Some? then Some(RawBody(want.value)) else None
  {
    if op == Minus && l.TSym? && r.TSym? && l.idx == r.idx {
      return Some(TDirect(TImm(0)));
    }
    if !(l.TSym? && r.TImm?) {
      return None;
    }
    if op == Plus && r.n == 0 {
      return Some(TDirect(TSym(l.idx, Unknown)));
    }
    if op == Minus && r.n == 0 {
      return Some(TDirect(TSym(l.idx, Unknown)));
    }
    if op == Star && r.n == 0 {
      return Some(TDirect(TImm(0)));
    }
    if op == BitAnd && r.n == 0 {
      return Some(TDirect(TImm(0)));
    }
    if op == BitOr && r.n == 0 {
      return Some(TDirect(TSym(l.idx, Unknown)));
    }
    if op == Star && IsPowerOfTwo(r.n) {
      var k := NthBit(r.n);
      ClearsLowestBit(r.n);
      Pow2Injective(k, Log2(r.n));
      return Some(TBin(Shl, TSym(l.idx, Unknown), TImm(k)));
    }
    return None;
  }

  // ir_opt_arith_fn_decl(): store bodies are replaced in place.
  method OptArith(code: array<TInstr>)
    modifies code
    ensures code[..] == OptTypedProgram(old(code[..]))
  {
    var i := 0;
    while i < code.Length
      invariant 0 <= i <= code.Length
      invariant forall j :: 0 <= j < i ==> code[j] == OptTyped(old(code[j]))
      invariant forall j :: i <= j < code.Length ==> code[j] == old(code[j])
    {
      match code[i] {
        case TStore(x, ty, TBin(op, l, r)) =>
          var b := OptArithStore(op, l, r);
          if b.Some? {
            code[i] := TStore(x, ty, b.value);
          }
        case _ =>
      }
      i := i + 1;
    }
  }

  lemma UnsignedWrap(x: int32)
    ensures Wrap(Unsigned(x)) == x
  {
  }

  // Every rewrite keeps the value, whatever the variables hold.
  lemma OptBinKeepsValue(env: Env, op: BinOp, l: Operand, r: Operand)
    requires OptBin(op, l, r).Some?
    ensures EvalBody(env, OptBin(op, l, r).value) == EvalBody(env, Bin(op, l, r))
  {
    hide EvalOp, IsPowerOfTwo;
    var x := EvalOperand(env, l);
    RuleValues(x);
    if l.Sym? && r.Imm? && op == Star && r.n != 0 {
      ClearsLowestBit(r.n);
      BelowTopBit(Log2(r.n));
      ShiftValue(x, r.n, Log2(r.n));
    }
  }

  lemma RuleValues(x: int32)
    ensures EvalOp(Minus, x, x) == 0 && EvalOp(Star, x, 0) == 0 && EvalOp(BitAnd, x, 0) == 0
    ensures EvalOp(Plus, x, 0) == x && EvalOp(Minus, x, 0) == x && EvalOp(BitOr, x, 0) == x
  {
    hide Pow2, Quotient, XorBits;
    WrapIdentity(x);
    UnsignedWrap(x);
  }

  lemma ShiftValue(x: int32, n: int32, k: nat)
    requires k < 31 && n == Pow2(k)
    ensures EvalOp(Shl, x, k) == EvalOp(Star, x, n)
  {
    hide Pow2, Wrap;
  }

  // When a body is rewritten, told from values.  A symbol and an immediate: the
  // symbol alone remains exactly when the operation never changes it,
  lemma SymbolRemainsExactly(op: BinOp, i: nat, n: int32)
    requires op in {Plus, Minus, BitOr}
    ensures OptBin(op, Sym(i), Imm(n)) == Some(Direct(Sym(i))) <==> forall x: int32 :: EvalOp(op, x, n) == x
    ensures OptBin(op, Sym(i), Imm(n)) in {None, Some(Direct(Sym(i)))}
  {
    hide EvalOp, IsPowerOfTwo;
    if n == 0 {
      forall x: int32 ensures EvalOp(op, x, n) == x { RuleValues(x); }
    } else {
      ZeroChanged(n);
      assert EvalOp(op, 0, n) != 0;
    }
  }

  // zero remains exactly when the result is always zero, a shift exactly for
  // powers of two,
  lemma ProductRewrittenExactly(i: nat, n: int32)
    ensures OptBin(Star, Sym(i), Imm(n)) == Some(Direct(Imm(0))) <==> forall x: int32 :: EvalOp(Star, x, n) == 0
    ensures PowerOfTwo(n) ==> exists k: int32 :: OptBin(Star, Sym(i), Imm(n)) == Some(Bin(Shl, Sym(i), Imm(k)))
    ensures OptBin(Star, Sym(i), Imm(n)).Some? ==> PowerOfTwo(n) || OptBin(Star, Sym(i), Imm(n)) == Some(Direct(Imm(0)))
  {
    hide EvalOp, IsPowerOfTwo;
    if n == 0 {
      forall x: int32 ensures EvalOp(Star, x, n) == 0 { RuleValues(x); }
      NotPowerOfTwo(n);
    } else {
      OneMultiplied(n);
      assert EvalOp(Star, 1, n) != 0;
      PowersFound(n);
      if PowerOfTwo(n) {
        BelowTopBit(Log2(n));
        assert OptBin(Star, Sym(i), Imm(n)) == Some(Bin(Shl, Sym(i), Imm(Log2(n))));
      }
    }
  }

  lemma MaskRewrittenExactly(i: nat, n: int32)
    ensures OptBin(BitAnd, Sym(i), Imm(n)) == Some(Direct(Imm(0))) <==> forall x: int32 :: EvalOp(BitAnd, x, n) == 0
    ensures OptBin(BitAnd, Sym(i), Imm(n)) in {None, Some(Direct(Imm(0)))}
  {
    hide EvalOp, IsPowerOfTwo;
    if n == 0 {
      forall x: int32 ensures EvalOp(BitAnd, x, n) == 0 { RuleValues(x); }
    } else {
      MaskedItself(n);
      assert EvalOp(BitAnd, n, n) != 0;
    }
  }

  // and no other operation is touched.  Two symbols: zero remains exactly for the
  // difference of equal ones.  In front of a constant nothing is rewritten.
  lemma OthersRewrittenExactly(op: BinOp, l: Operand, r: Operand)
    requires r.Sym? || l.Imm? || op !in {Plus, Minus, BitOr, Star, BitAnd}
    ensures OptBin(op, l, r) == if op == Minus && l.Sym? && l == r then Some(Direct(Imm(0))) else None
  {
  }

  lemma ZeroChanged(n: int32)
    requires n != 0
    ensures EvalOp(Plus, 0, n) != 0 && EvalOp(Minus, 0, n) != 0 && EvalOp(BitOr, 0, n) != 0
  {
    hide Pow2, Quotient, XorBits, AndBits, OrBits, Wrap;
    WrapIdentity(n);
    UnsignedWrap(n);
    OrZero(Unsigned(n));
    WrapNegative(n);
  }

  lemma OrZero(a: nat)
    ensures OrBits(0, a) == a
  {
  }

  lemma WrapNegative(n: int32)
    requires n != 0
    ensures Wrap(0 - n) != 0
  {
  }

  lemma OneMultiplied(n: int32)
    requires n != 0
    ensures EvalOp(Star, 1, n) != 0
  {
    hide Pow2, Quotient, XorBits, AndBits, OrBits, Wrap;
    WrapIdentity(n);
  }

  lemma MaskedItself(n: int32)
    requires n != 0
    ensures EvalOp(BitAnd, n, n) != 0
  {
    hide Pow2, Quotient, XorBits, AndBits, OrBits, Wrap, Unsigned;
    UnsignedWrap(n);
    AndBitsSelf(Unsigned(n));
  }

  // The test finds exactly the powers of two.
  lemma PowersFound(n: int32)
    ensures IsPowerOfTwo(n) <==> PowerOfTwo(n)
  {
    hide AndBits;
    if n > 0 { ClearsLowestBit(n); } else { NotPowerOfTwo(n); }
  }

  lemma NotPowerOfTwo(n: int)
    requires n <= 0
    ensures !PowerOfTwo(n)
  {
  }

  lemma OptStep(prog: Program, c: Config)
    ensures Step(OptProgram(prog), c) == Step(prog, c)
  {
    if c.Running? && c.pc < |prog| {
      match prog[c.pc]
      case Store(x, Bin(op, l, r)) =>
        if OptBin(op, l, r).Some? { OptBinKeepsValue(c.env, op, l, r); }
      case _ =>
    }
  }

  // On plain ints the rewritten program passes through the same states, step for
  // step.
  lemma {:induction false} OptKeepsRuns(prog: Program, c: Config, n: nat)
    ensures Run(OptProgram(prog), c, n) == Run(prog, c, n)
    decreases n
  {
    if n > 0 {
      OptStep(prog, c);
      OptKeepsRuns(prog, Step(prog, c), n - 1);
    }
  }

  // ---- What the interpreter makes of it ----

  // No rule applies, or one that leaves an immediate: x - x, x * 0 and x & 0.
  predicate NoNewSymbol(i: TInstr) {
    match i
    case TStore(_, _, TBin(op, l, r)) =>
      var b := OptBin(op, EraseOperand(l), EraseOperand(r));
      b.Some? ==> b.value.Direct? && b.value.o.Imm?
    case _ => true
  }

  predicate NoNewSymbols(prog: TProgram) {
    forall i :: 0 <= i < |prog| ==> NoNewSymbol(prog[i])
  }

  ghost predicate StepsAlike(p: TProgram, q: TProgram) {
    forall c :: TStep(p, c) == TStep(q, c)
  }

  lemma SameStep(prog: TProgram, c: TConfig)
    requires WellTyped(prog) && NoNewSymbols(prog)
    ensures TStep(OptTypedProgram(prog), c) == TStep(prog, c)
  {
    hide OptBin;
    if c.TRunning? && c.pc < |prog| {
      assert TypedInstr(prog[c.pc]) && NoNewSymbol(prog[c.pc]);
      match prog[c.pc]
      case TStore(x, ty, TBin(op, l, r)) =>
        var el, er := EraseOperand(l), EraseOperand(r);
        if OptBin(op, el, er).Some? { OptBinKeepsValue(c.env, op, el, er); }
      case _ =>
    }
  }

  // A rewrite that leaves a symbol: where the variable is 1, the interpreter
  // stores 0 instead of 1, or traps.
  lemma DifferentStep(prog: TProgram, p: nat)
    requires WellTyped(prog) && p < |prog| && !NoNewSymbol(prog[p])
    ensures exists c :: TStep(OptTypedProgram(prog), c) != TStep(prog, c)
  {
    assert TypedInstr(prog[p]);
    var TStore(x, _, TBin(op, l, r)) := prog[p];
    var env: Env := map[l.idx := 1];
    var c := TRunning(p, env);
    var b := OptBin(op, EraseOperand(l), EraseOperand(r)).value;
    if b.Direct? {
      OptBinKeepsValue(env, op, EraseOperand(l), EraseOperand(r));
      assert TStep(prog, c) == TRunning(p + 1, env[x := 1]);
      assert TStep(OptTypedProgram(prog), c) == TRunning(p + 1, env[x := 0]);
      assert env[x := 1][x] != env[x := 0][x];
    } else {
      assert TStep(prog, c).TRunning?;
      assert TStep(OptTypedProgram(prog), c) == Trapped;
    }
  }

  // After the type pass, optimised code steps like the original in every state
  // exactly when no replacement holds a symbol.
  lemma OptStepsExactly(prog: TProgram)
    requires WellTyped(prog)
    ensures StepsAlike(OptTypedProgram(prog), prog) <==> NoNewSymbols(prog)
  {
    hide TStep, WellTyped, NoNewSymbol;
    if NoNewSymbols(prog) {
      forall c ensures TStep(OptTypedProgram(prog), c) == TStep(prog, c) {
        SameStep(prog, c);
      }
    } else {
      var p: nat :| p < |prog| && !NoNewSymbol(prog[p]);
      DifferentStep(prog, p);
    }
  }

  lemma {:induction false} AlikeRuns(p: TProgram, q: TProgram, c: TConfig, n: nat)
    requires StepsAlike(p, q)
    ensures TRun(p, c, n) == TRun(q, c, n)
    decreases n
  {
    hide TStep;
    if n > 0 { AlikeRuns(p, q, TStep(q, c), n - 1); }
  }

  // ---- A second type pass would repair it ----

  lemma OptEraseCommutes(prog: TProgram)
    ensures Erase(OptTypedProgram(prog)) == OptProgram(Erase(prog))
  {
    forall i | 0 <= i < |prog| ensures EraseInstr(OptTyped(prog[i])) == OptInstr(EraseInstr(prog[i])) {
      OptInstrErases(prog[i]);
    }
  }

  lemma OptInstrErases(i: TInstr)
    ensures EraseInstr(OptTyped(i)) == OptInstr(EraseInstr(i))
  {
    hide OptBin;
  }

  lemma OptUsesNoMore(i: Instr, v: nat)
    requires Uses(OptInstr(i), v)
    ensures Uses(i, v)
  {
  }

  lemma OptKeepsDeclared(prog: Program, params: nat)
    requires DeclaredBeforeUse(prog, params)
    ensures DeclaredBeforeUse(OptProgram(prog), params)
  {
    hide OptBin, Uses;
    var opt := OptProgram(prog);
    forall p: nat, v: nat | p < |opt| && Uses(opt[p], v) ensures Declared(opt, params, p, v) {
      OptUsesNoMore(prog[p], v);
      assert DeclaredAt(prog, params, p);
      if v >= params {
        var q :| 0 <= q < p && prog[q] == Alloca(v);
        assert opt[q] == Alloca(v);
      }
    }
  }

  lemma RetypedRuns(prog: TProgram, params: nat, c: Config, n: nat)
    requires DeclaredBeforeUse(Erase(prog), params)
    ensures TRun(Typed(OptTypedProgram(prog), params), Lift(c), n) == Lift(Run(Erase(prog), c, n))
  {
    hide TRun, Run, DeclaredBeforeUse, Typed, OptProgram;
    var again := Typed(OptTypedProgram(prog), params);
    OptEraseCommutes(prog);
    OptKeepsDeclared(Erase(prog), params);
    TypedExactly(OptTypedProgram(prog), params);
    TypedRun(again, c, n);
    OptKeepsRuns(Erase(prog), c, n);
  }
}
