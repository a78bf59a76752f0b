// The interpreting driver, compiler/compiler.c: generation, types, optimisation.
module Compiler {
  import opened Int32
  import opened Options
  import opened Ir
  import opened Ast
  import opened Lowering
  import opened FunctionCorrect
  import opened Interpreter
  import opened TypePass
  import opened CfgLink
  import opened FlowGraph
  import opened LoweredTargets
  import IrGenerator
  import LoweredTypes
  import Arith

  // The interpreter returns v from this code.
  ghost predicate InterpretedReturns(prog: TProgram, args: seq<int32>, v: Option<int32>) {
    exists k: nat :: TRun(prog, Lift(Start(args)), k) == Lift(Halted(v))
  }

  lemma LiftInjective(c: Config, d: Config)
    ensures Lift(c) == Lift(d) ==> c == d
  {
  }

  lemma TypedReturns(prog: Program, args: seq<int32>, v: Option<int32>)
    ensures InterpretedReturns(AllInt(prog), args, v) <==> CodeReturns(prog, args, v)
  {
    hide TRun, Run, WellTyped, Lift;
    AllIntInverse(prog);
    if InterpretedReturns(AllInt(prog), args, v) {
      var k: nat :| TRun(AllInt(prog), Lift(Start(args)), k) == Lift(Halted(v));
      TypedRun(AllInt(prog), Start(args), k);
      LiftInjective(Run(prog, Start(args), k), Halted(v));
    }
    if CodeReturns(prog, args, v) {
      var k: nat :| Run(prog, Start(args), k) == Halted(v);
      TypedRun(AllInt(prog), Start(args), k);
    }
  }

  // The type pass types every symbol of generated code.
  lemma LoweredIsTyped(params: seq<string>, body: seq<Stmt>, isVoid: bool)
    requires BlockScoped(body, ParamSet(params))
    ensures var prog := LowerFunction(params, body, isVoid); Typed(Raw(prog), |params|) == AllInt(prog)
  {
    hide LowerFunction, BlockScoped, Typed, WellTyped, DeclaredBeforeUse;
    var prog := LowerFunction(params, body, isVoid);
    LoweredTypes.LoweredDeclares(params, body, isVoid);
    EraseRaw(prog);
    TypedExactly(Raw(prog), |params|);
    WellTypedIsAllInt(Typed(Raw(prog), |params|));
  }

  // The driver gets as far as interpreting the code, and that returns v.
  ghost predicate DriverReturns(prog: TProgram, args: seq<int32>, v: Option<int32>) {
    Linkable(Erase(prog)) && InterpretedReturns(prog, args, v)
  }

  // A non-void function whose last jump leads to the end of its list cannot be
  // linked.
  predicate CanLink(body: seq<Stmt>, isVoid: bool) { isVoid || !BlockLeadsOut(body) }

  // Linking and interpreting typed, unoptimised code gives what the source gives
  // for every function that can be linked, and stops the driver for all others.
  lemma InterpretedMeaning(params: seq<string>, args: seq<int32>, body: seq<Stmt>, isVoid: bool, v: Option<int32>)
    requires Accepted(params, args, body)
    ensures var code := Typed(Raw(LowerFunction(params, body, isVoid)), |params|);
            DriverReturns(code, args, v) <==> CanLink(body, isVoid) && SourceReturns(params, args, body, isVoid, v)
  {
    hide LowerFunction, Typed, SourceReturns, CodeReturns, InterpretedReturns, Linkable, BlockLeadsOut;
    LoweredIsTyped(params, body, isVoid);
    TypedReturns(LowerFunction(params, body, isVoid), args, v);
    LoweringPreservesMeaning(params, args, body, isVoid);
    LoweredIsLinkable(params, body, isVoid);
    AllIntInverse(LowerFunction(params, body, isVoid));
  }

  // opt() of the driver but for the reordering: the type pass, the arithmetic
  // optimiser, and the links.  Linking succeeds exactly for the functions that
  // CanLink describes.  The code steps like the typed code in every state exactly
  // when no replacement holds a symbol, and then the driver returns, for all
  // arguments, what the source returns and only that.
  method Compile(params: seq<string>, body: seq<Stmt>, isVoid: bool, order: seq<nat>)
    returns (linked: bool, code: array<TInstr>, succs: Graph)
    requires Distinct(params) && BlockScoped(body, ParamSet(params)) && IrGenerator.BlockNoBareFor(body, false)
    requires |params| <= MAX_IR_STMTS && forall i :: i in Raw(LowerFunction(params, body, isVoid)) ==> SmallInstr(i)
    requires Enumerates(order, |LowerFunction(params, body, isVoid)|)
    ensures linked <==> CanLink(body, isVoid)
    ensures linked ==> LinkedTo(code[..], succs)
    ensures var typed := AllInt(LowerFunction(params, body, isVoid));
            && code[..] == Arith.OptTypedProgram(typed)
            && (Arith.StepsAlike(code[..], typed) <==> Arith.NoNewSymbols(typed))
            && (Arith.NoNewSymbols(typed) ==>
                  forall args: seq<int32>, v :: |args| == |params| ==>
                    (DriverReturns(code[..], args, v) <==> linked && SourceReturns(params, args, body, isVoid, v)))
  {
    hide LowerFunction, SourceReturns, BlockScoped, Typed, InterpretedReturns, SmallInstr, Arith.NoNewSymbols;
    hide Linkable, BlockLeadsOut, SuccsGraph, PredsLinked, Enumerates;
    var nodes := IrGenerator.VisitFnDecl(params, body, isVoid);
    ghost var prog := LowerFunction(params, body, isVoid);
    var raw := Raw(IrGenerator.Irs(nodes));
    code := new TInstr[|raw|](i requires 0 <= i < |raw| => raw[i]);
    assert code[..] == raw;
    TypePassFn(code, |params|);
    LoweredIsTyped(params, body, isVoid);
    Arith.OptArith(code);
    var preds;
    linked, succs, preds := Link(Erase(code[..]), order);
    OptLinkable(prog);
    LoweredIsLinkable(params, body, isVoid);
    AllIntInverse(prog);
    Arith.OptStepsExactly(AllInt(prog));
    if Arith.NoNewSymbols(AllInt(prog)) {
      forall args: seq<int32>, v | |args| == |params|
        ensures DriverReturns(code[..], args, v) <==> linked && SourceReturns(params, args, body, isVoid, v)
      {
        InterpretedMeaning(params, args, body, isVoid, v);
        AlikeReturns(code[..], AllInt(prog), args, v);
      }
    }
  }

  // The optimiser changes no target.
  lemma OptLinkable(prog: Program)
    ensures Linkable(Erase(Arith.OptTypedProgram(AllInt(prog)))) <==> Linkable(prog)
  {
    var opt := Erase(Arith.OptTypedProgram(AllInt(prog)));
    forall i | 0 <= i < |prog| ensures AimListed(opt, opt[i]) <==> AimListed(prog, prog[i]) {
      OptTarget(prog, prog[i]);
    }
  }

  lemma OptTarget(prog: Program, i: Instr)
    ensures AimListed(prog, EraseInstr(Arith.OptTyped(IntInstr(i)))) <==> AimListed(prog, i)
  {
    hide Arith.OptBin;
  }

  lemma AlikeReturns(p: TProgram, q: TProgram, args: seq<int32>, v: Option<int32>)
    requires Arith.StepsAlike(p, q)
    ensures InterpretedReturns(p, args, v) <==> InterpretedReturns(q, args, v)
  {
    hide TRun, Arith.StepsAlike, Lift;
    forall k: nat ensures TRun(p, Lift(Start(args)), k) == TRun(q, Lift(Start(args)), k) {
      Arith.AlikeRuns(p, q, Lift(Start(args)), k);
    }
  }

  // ---- Where it goes wrong ----

  //   int f(int c) { if (c) { return 1; } }
  function ReturnInIf(): seq<Stmt> { [If(Symbol("c"), [Return(Some(Int(1)))], NoElse)] }

  lemma ReturnInIfLowered()
    ensures LowerFunction(["c"], ReturnInIf(), false) == [Cond(NotZero(Sym(0)), 2), Jump(3), Ret(Some(Imm(1)))]
  {
    var body, inner := ReturnInIf(), [Return(Some(Int(1)))];
    var g := Gen([], 1, map["c" := 0]);
    assert ["c"][..0] == [] && ParamNames([]) == map[];
    assert ParamNames(["c"]) == map["c" := 0];
    assert body[..0] == [] && inner[..0] == [];
    assert LowerBlock(g, []) == g;
    var gb := LowerGuard(g, Symbol("c"));
    assert gb.code == [Cond(NotZero(Sym(0)), 2), UNPATCHED];
    assert LowerBlock(gb, []) == gb;
    assert LowerBlock(gb, inner).code == gb.code + [Ret(Some(Imm(1)))];
    assert LowerStmt(g, body[0]).code == [Cond(NotZero(Sym(0)), 2), Jump(3), Ret(Some(Imm(1)))];
    assert LowerBlock(g, body) == LowerStmt(g, body[0]);
  }

  // The jump over the return has no target: the source returns 1 for c == 1, the
  // driver stops in link() for every c.
  lemma ReturnInIfStops(args: seq<int32>, v: Option<int32>)
    requires |args| == 1
    ensures Accepted(["c"], args, ReturnInIf()) && !CanLink(ReturnInIf(), false)
    ensures args[0] == 1 ==> SourceReturns(["c"], args, ReturnInIf(), false, Some(1))
    ensures !DriverReturns(Typed(Raw(LowerFunction(["c"], ReturnInIf(), false)), 1), args, v)
  {
    hide LowerFunction, DriverReturns, SourceReturns;
    ReturnInIfScoped(args);
    if args[0] == 1 { ReturnInIfReturns(args); }
    InterpretedMeaning(["c"], args, ReturnInIf(), false, v);
  }

  lemma ReturnInIfScoped(args: seq<int32>)
    requires |args| == 1
    ensures Accepted(["c"], args, ReturnInIf())
  {
    var body, inner := ReturnInIf(), [Return(Some(Int(1)))];
    assert "c" in ParamSet(["c"]);
    assert body[..0] == [] && inner[..0] == [];
    assert BlockScoped([], ParamSet(["c"])) && BlockScoped(inner, ParamSet(["c"]));
  }

  lemma ReturnInIfReturns(args: seq<int32>)
    requires args == [1]
    ensures SourceReturns(["c"], args, ReturnInIf(), false, Some(1))
  {
    var body, inner := ReturnInIf(), [Return(Some(Int(1)))];
    var env := BindParams(["c"], args);
    assert ["c"][..0] == [] && args[..0] == [] && env == BindParams([], [])["c" := 1];
    assert body[..0] == [] && inner[..0] == [];
    assert ExecBlock([], env, 0) == Normal(env);
    assert ExecBlock(inner, env, 0) == Returned(Some(1));
    assert Exec(body[0], env, 0) == Returned(Some(1));
    assert ExecFunction(["c"], args, body, false, 0) == Returned(Some(1));
  }

  //   int f() { int a = 5; return a <op> n; }
  function Sample(op: BinOp, n: int32): seq<Stmt> {
    [VarDecl("a", Some(Int(5))), Return(Some(Binary(op, Symbol("a"), Int(n))))]
  }

  function SampleCode(op: BinOp, n: int32): Program {
    [Alloca(0), Store(0, Direct(Imm(5))), Alloca(1), Store(1, Bin(op, Sym(0), Imm(n))), Ret(Some(Sym(1)))]
  }

  lemma SampleLowered(op: BinOp, n: int32)
    ensures LowerFunction([], Sample(op, n), false) == SampleCode(op, n)
  {
    var body := Sample(op, n);
    var g := Gen([], 0, map[]);
    assert ParamNames([]) == map[];
    assert body[..1] == [body[0]] && [body[0]][..0] == [];
    assert LowerBlock(g, []) == g;
    DeclLowered(g);
    assert LowerBlock(g, [body[0]]) == LowerStmt(g, body[0]);
    ReturnLowered(LowerStmt(g, body[0]), op, n);
    assert LowerBlock(g, body) == LowerStmt(LowerBlock(g, body[..1]), body[1]);
    hide LowerStmt, LowerBlock;
  }

  lemma DeclLowered(g: Gen)
    requires g == Gen([], 0, map[])
    ensures LowerStmt(g, VarDecl("a", Some(Int(5)))) == Gen([Alloca(0), Store(0, Direct(Imm(5)))], 1, map["a" := 0])
  {
  }

  lemma ReturnLowered(g: Gen, op: BinOp, n: int32)
    requires g == Gen([Alloca(0), Store(0, Direct(Imm(5)))], 1, map["a" := 0])
    ensures LowerStmt(g, Return(Some(Binary(op, Symbol("a"), Int(n))))).code == SampleCode(op, n)
  {
    var e := Binary(op, Symbol("a"), Int(n));
    var g0 := Emit(g, Alloca(1)).(nv := 2);
    assert LowerExpr(g0, Symbol("a")) == (g0, Sym(0)) && LowerExpr(g0, Int(n)) == (g0, Imm(n));
    assert LowerExpr(g, e) == (Emit(g0, Store(1, Bin(op, Sym(0), Imm(n)))), Sym(1));
  }

  lemma SampleSource(op: BinOp, n: int32)
    ensures SourceReturns([], [], Sample(op, n), false, Some(EvalOp(op, 5, n)))
  {
    hide EvalOp;
    var body, env0 := Sample(op, n), BindParams([], []);
    var env := env0["a" := 0]["a" := 5];
    assert body[..1] == [body[0]] && [body[0]][..0] == [];
    assert Exec(body[0], env0, 0) == Normal(env);
    assert ExecBlock([], env0, 0) == Normal(env0);
    assert ExecBlock([body[0]], env0, 0) == Normal(env);
    assert EvalExpr(Symbol("a"), env) == 5 && EvalExpr(Int(n), env) == n;
    assert Exec(body[1], env, 0) == Returned(Some(EvalOp(op, 5, n)));
    assert ExecBlock(body, env0, 0) == Exec(body[1], env, 0);
    assert ExecFunction([], [], body, false, 0) == Returned(Some(EvalOp(op, 5, n)));
  }

  // The optimised sample, when a rule applies.
  function OptSample(b: Body): TProgram {
    [TAlloca(0), TStore(0, IntType, TDirect(TImm(5))), TAlloca(1), TStore(1, IntType, RawBody(b)), TRet(Some(TSym(1, IntType)))]
  }

  lemma SampleOptimised(op: BinOp, n: int32, b: Body)
    requires Arith.OptBin(op, Sym(0), Imm(n)) == Some(b)
    ensures Arith.OptTypedProgram(AllInt(LowerFunction([], Sample(op, n), false))) == OptSample(b)
  {
    hide Arith.OptBin, LowerFunction;
    SampleLowered(op, n);
    var code := AllInt(SampleCode(op, n));
    assert code[3] == TStore(1, IntType, TBin(op, TSym(0, IntType), TImm(n)));
    assert Arith.OptTyped(code[3]) == TStore(1, IntType, RawBody(b));
    assert Arith.OptTypedProgram(code) == OptSample(b);
  }

  // Up to the rewritten store.
  lemma SampleRuns(b: Body)
    ensures var c3 := TRunning(3, map[0 := 5, 1 := 0]);
            && TRun(OptSample(b), Lift(Start([])), 4) == TStep(OptSample(b), c3)
            && TRun(OptSample(b), Lift(Start([])), 5) == TStep(OptSample(b), TStep(OptSample(b), c3))
  {
    var p := OptSample(b);
    var c0, c1 := Lift(Start([])), TRunning(1, map[0 := 0]);
    var c2, c3 := TRunning(2, map[0 := 5]), TRunning(3, map[0 := 5, 1 := 0]);
    assert ArgEnv([]) == map[];
    assert TStep(p, c0) == c1;
    assert TStep(p, c1) == c2;
    assert TStep(p, c2) == c3;
    FiveSteps(p, c0, c1, c2, c3, TStep(p, c3));
  }

  lemma FiveSteps(p: TProgram, c0: TConfig, c1: TConfig, c2: TConfig, c3: TConfig, c4: TConfig)
    requires c1 == TStep(p, c0) && c2 == TStep(p, c1) && c3 == TStep(p, c2) && c4 == TStep(p, c3)
    ensures TRun(p, c0, 4) == c4 && TRun(p, c0, 5) == TStep(p, c4)
  {
    hide TStep;
    assert TRun(p, c4, 1) == TStep(p, c4);
    assert TRun(p, c3, 2) == TRun(p, c4, 1);
    assert TRun(p, c2, 3) == TRun(p, c3, 2);
    assert TRun(p, c1, 4) == TRun(p, c2, 3);
    assert TRun(p, c2, 2) == TRun(p, c3, 1) == c4;
    assert TRun(p, c1, 3) == TRun(p, c2, 2);
  }

  lemma StepsAfterAdd()
    ensures DriverReturns(OptSample(Direct(Sym(0))), [], Some(0))
  {
    var p := OptSample(Direct(Sym(0)));
    SampleRuns(Direct(Sym(0)));
    hide TRun;
    var c4 := TStep(p, TRunning(3, map[0 := 5, 1 := 0]));
    assert c4 == TRunning(4, map[0 := 5, 1 := 0]);
    assert TStep(p, c4) == Lift(Halted(Some(0)));
  }

  lemma StepsAfterShift()
    ensures TRun(OptSample(Bin(Shl, Sym(0), Imm(1))), Lift(Start([])), 4) == Trapped
  {
    SampleRuns(Bin(Shl, Sym(0), Imm(1)));
    hide TRun;
  }

  lemma SampleValues()
    ensures EvalOp(Plus, 5, 0) == 5 && EvalOp(Star, 5, 2) == 10
    ensures Arith.OptBin(Plus, Sym(0), Imm(0)) == Some(Direct(Sym(0)))
  {
  }

  // a + 0: the source returns 5, the optimised code 0.
  lemma AddZeroReturnsZero()
    ensures SourceReturns([], [], Sample(Plus, 0), false, Some(5))
    ensures DriverReturns(Arith.OptTypedProgram(AllInt(LowerFunction([], Sample(Plus, 0), false))), [], Some(0))
  {
    hide *;
    SampleValues();
    SampleSource(Plus, 0);
    SampleOptimised(Plus, 0, Direct(Sym(0)));
    StepsAfterAdd();
  }

  // a * 2: the source returns 10, the interpreter traps on the shift.
  lemma DoubleTraps()
    ensures SourceReturns([], [], Sample(Star, 2), false, Some(10))
    ensures TRun(Arith.OptTypedProgram(AllInt(LowerFunction([], Sample(Star, 2), false))), Lift(Start([])), 4) == Trapped
  {
    hide *;
    SampleValues();
    SampleSource(Star, 2);
    TwoIsPower();
    SampleOptimised(Star, 2, Bin(Shl, Sym(0), Imm(1)));
    StepsAfterShift();
  }

  lemma TwoIsPower()
    ensures Arith.OptBin(Star, Sym(0), Imm(2)) == Some(Bin(Shl, Sym(0), Imm(1)))
  {
    assert AndBits(2, 1) == 0;
    assert Arith.IsPowerOfTwo(2);
    assert 2 == Pow2(1);
    Arith.Pow2Injective(Arith.Log2(2), 1);
  }
}
