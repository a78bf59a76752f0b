// lib/back_end/eval.c: the interpreter, which goes by the types that
// lib/middle_end/ir/type.c has written into the symbols.
module Interpreter {
  import opened Int32
  import opened Options
  import opened Ir
  import CfgLink

  // What type_info.dt of a symbol says; ir_sym_init() leaves it Unknown.
  datatype Type = Unknown | IntType

  datatype TOperand = TImm(n: int32) | TSym(idx: nat, ty: Type)

  datatype TBody = TDirect(o: TOperand) | TBin(op: BinOp, lhs: TOperand, rhs: TOperand)

  datatype TInstr =
    | TAlloca(idx: nat)
    | TStore(idx: nat, ty: Type, body: TBody)
    | TJump(target: nat)
    | TCond(cond: TBody, target: nat)
    | TRet(value: Option<TOperand>)

  type TProgram = seq<TInstr>

  datatype Value = Value(ty: Type, n: int32)

  // get(): as many bytes as the type has are copied, none for an unknown type.
  function GetVar(env: Env, i: nat, ty: Type): Value {
    Value(ty, if ty.IntType? then Load(env, i) else 0)
  }

  // set()
  function SetVar(env: Env, i: nat, ty: Type, v: Value): Env {
    if ty.IntType? then env[i := v.n] else env
  }

  // compute(): None stands for the trap on different or unknown types.
  function Compute(op: BinOp, l: Value, r: Value): Option<Value> {
    if l.ty != r.ty || l.ty.Unknown? then None else Some(Value(IntType, EvalOp(op, l.n, r.n)))
  }

  function EvalTOperand(env: Env, o: TOperand): Value {
    match o
    case TImm(n) => Value(IntType, n)
    case TSym(i, ty) => GetVar(env, i, ty)
  }

  function EvalTBody(env: Env, b: TBody): Option<Value> {
    match b
    case TDirect(o) => Some(EvalTOperand(env, o))
    case TBin(op, l, r) => Compute(op, EvalTOperand(env, l), EvalTOperand(env, r))
  }

  datatype TConfig =
    | TRunning(pc: nat, env: Env)
    | THalted(value: Option<Value>)
    | TOffTheEnd(env: Env)
    | Trapped

  // instr_eval() followed by the choice of the next instruction in fun_eval().
  function TStep(prog: TProgram, c: TConfig): TConfig {
    if !c.TRunning? then c
    else if c.pc >= |prog| then TOffTheEnd(c.env)
    else
      match prog[c.pc]
      case TAlloca(i) => TRunning(c.pc + 1, c.env[i := 0])
      case TStore(i, ty, b) =>
        var v := EvalTBody(c.env, b);
        if v.None? then Trapped else TRunning(c.pc + 1, SetVar(c.env, i, ty, v.value))
      case TJump(t) => TRunning(t, c.env)
      case TCond(b, t) =>
        var v := EvalTBody(c.env, b);
        if v.None? then Trapped else TRunning(if v.value.n != 0 then t else c.pc + 1, c.env)
      case TRet(None) => THalted(None)
      case TRet(Some(o)) => THalted(Some(EvalTOperand(c.env, o)))
  }

  function TRun(prog: TProgram, c: TConfig, n: nat): TConfig
    decreases n
  {
    if n == 0 then c else TRun(prog, TStep(prog, c), n - 1)
  }

  lemma {:induction false} TRunStopped(prog: TProgram, c: TConfig, n: nat)
    requires !c.TRunning?
    ensures TRun(prog, c, n) == c
    decreases n
  {
    if n > 0 { TRunStopped(prog, c, n - 1); }
  }

  // ---- Without types ----

  function EraseOperand(o: TOperand): Operand {
    match o
    case TImm(n) => Imm(n)
    case TSym(i, _) => Sym(i)
  }

  function EraseBody(b: TBody): Body {
    match b
    case TDirect(o) => Direct(EraseOperand(o))
    case TBin(op, l, r) => Bin(op, EraseOperand(l), EraseOperand(r))
  }

  function EraseInstr(i: TInstr): Instr {
    match i
    case TAlloca(x) => Alloca(x)
    case TStore(x, _, b) => Store(x, EraseBody(b))
    case TJump(t) => Jump(t)
    case TCond(b, t) => Cond(EraseBody(b), t)
    case TRet(None) => Ret(None)
    case TRet(Some(o)) => Ret(Some(EraseOperand(o)))
  }

  function Erase(prog: TProgram): (r: Program)
    ensures |r| == |prog| && forall i :: 0 <= i < |prog| ==> r[i] == EraseInstr(prog[i])
  {
    seq(|prog|, i requires 0 <= i < |prog| => EraseInstr(prog[i]))
  }

  // ---- The loop ----

  // What link() has written into the nodes of the list.
  ghost predicate LinkedTo(prog: TProgram, succs: seq<seq<nat>>) {
    CfgLink.Linkable(Erase(prog)) && succs == CfgLink.SuccsGraph(Erase(prog))
  }

  // The node that is first among the successors of the one at pc; |succs| when
  // there is none.
  function FirstSucc(succs: seq<seq<nat>>, pc: nat): nat
    requires pc < |succs|
  {
    if succs[pc] == [] then |succs| else succs[pc][0]
  }

  lemma SuccsOfStep(prog: TProgram, succs: seq<seq<nat>>, pc: nat)
    requires LinkedTo(prog, succs) && pc < |prog|
    ensures |succs| == |prog|
    ensures match prog[pc]
            case TJump(t) => FirstSucc(succs, pc) == t
            case TCond(_, t) => FirstSucc(succs, pc) == t
            case TRet(_) => true
            case _ => FirstSucc(succs, pc) == pc + 1
  {
    assert succs[pc] == CfgLink.SuccsOf(Erase(prog), pc) && Erase(prog)[pc] == EraseInstr(prog[pc]);
  }

  // The interpreter's globals, updated in place.
  class Machine {
    var instrPtr: Option<nat>
    var env: Env
    var last: Option<Value>
    var fellOff: bool
    var trapped: bool

    ghost function Now(): TConfig
      reads this
    {
      if trapped then Trapped
      else if instrPtr.Some? then TRunning(instrPtr.value, env)
      else if fellOff then TOffTheEnd(env)
      else THalted(last)
    }

    constructor (args: Env)
      ensures Now() == TRunning(0, args) && !trapped
    {
      instrPtr := Some(0);
      env := args;
      last := None;
      fellOff, trapped := false, false;
    }

    // instr_eval() of an immediate or a symbol
    method EvalOperand(o: TOperand)
      modifies `last
      ensures last == Some(EvalTOperand(env, o))
    {
      match o {
        case TImm(n) => last := Some(Value(IntType, n));
        case TSym(i, ty) => last := Some(GetVar(env, i, ty));
      }
    }

    // eval_bin()
    method EvalBin(op: BinOp, lhs: TOperand, rhs: TOperand)
      modifies `last, `trapped
      ensures var v := EvalTBody(env, TBin(op, lhs, rhs));
              trapped == (old(trapped) || v.None?) && (v.Some? ==> last == v)
    {
      EvalOperand(lhs);
      var l := last.value;
      EvalOperand(rhs);
      var r := last.value;
      var v := Compute(op, l, r);
      if v.None? {
        trapped := true;
      } else {
        last := v;
      }
    }

    method EvalBody(b: TBody)
      modifies `last, `trapped
      ensures var v := EvalTBody(env, b);
              trapped == (old(trapped) || v.None?) && (v.Some? ==> last == v)
    {
      match b {
        case TDirect(o) => EvalOperand(o);
        case TBin(op, l, r) => EvalBin(op, l, r);
      }
    }

    // One turn of the loop in fun_eval(), which goes by the links.
    method InstrEval(prog: TProgram, succs: seq<seq<nat>>)
      requires LinkedTo(prog, succs) && instrPtr.Some? && !trapped
      modifies this
      ensures Now() == TStep(prog, old(Now()))
    {
      var pc := instrPtr.value;
      if pc >= |prog| {
        instrPtr := None;
        fellOff := true;
        return;
      }
      SuccsOfStep(prog, succs, pc);
      fellOff := false;
      match prog[pc] {
        case TAlloca(i) =>
          env := env[i := 0];
          instrPtr := Some(FirstSucc(succs, pc));
        case TStore(i, ty, b) =>
          EvalBody(b);
          if !trapped {
            env := SetVar(env, i, ty, last.value);
            instrPtr := Some(FirstSucc(succs, pc));
          }
        case TJump(_) =>
          instrPtr := Some(FirstSucc(succs, pc));
        case TCond(b, _) =>
          EvalBody(b);
          if !trapped {
            instrPtr := Some(if last.value.n != 0 then FirstSucc(succs, pc) else pc + 1);
          }
        case TRet(None) =>
          last := None;
          instrPtr := None;
        case TRet(Some(o)) =>
          EvalOperand(o);
          instrPtr := None;
      }
    }
  }

  // fun_eval(), stopped after at most limit instructions.
  method FunEval(prog: TProgram, succs: seq<seq<nat>>, args: Env, limit: nat) returns (c: TConfig)
    requires LinkedTo(prog, succs)
    ensures c == TRun(prog, TRunning(0, args), limit)
  {
    var m := new Machine(args);
    var n := 0;
    while m.instrPtr.Some? && !m.trapped && n < limit
      invariant 0 <= n <= limit && fresh(m)
      invariant TRun(prog, TRunning(0, args), limit) == TRun(prog, m.Now(), limit - n)
    {
      m.InstrEval(prog, succs);
      n := n + 1;
    }
    if m.instrPtr.None? || m.trapped {
      TRunStopped(prog, m.Now(), limit - n);
    }
    c := if m.trapped then Trapped
         else if m.instrPtr.Some? then TRunning(m.instrPtr.value, m.env)
         else if m.fellOff then TOffTheEnd(m.env) else THalted(m.last);
  }

  // ---- Typed code ----

  // Every symbol has the type it was declared with.
  predicate TypedOperand(o: TOperand) { o.TSym? ==> o.ty.IntType? }

  predicate TypedBody(b: TBody) {
    match b
    case TDirect(o) => TypedOperand(o)
    case TBin(_, l, r) => TypedOperand(l) && TypedOperand(r)
  }

  // compute() traps on exactly the binary operations with an untyped symbol.
  lemma TrapsExactly(env: Env, b: TBody)
    ensures EvalTBody(env, b).None? <==> b.TBin? && !TypedBody(b)
  {
    if b.TBin? {
      assert TypedOperand(b.lhs) <==> EvalTOperand(env, b.lhs).ty.IntType?;
      assert TypedOperand(b.rhs) <==> EvalTOperand(env, b.rhs).ty.IntType?;
    }
  }

  predicate TypedInstr(i: TInstr) {
    match i
    case TStore(_, ty, b) => ty.IntType? && TypedBody(b)
    case TCond(b, _) => TypedBody(b)
    case TRet(Some(o)) => TypedOperand(o)
    case _ => true
  }

  predicate WellTyped(prog: TProgram) {
    forall i :: 0 <= i < |prog| ==> TypedInstr(prog[i])
  }

  // The instruction with every symbol typed.
  function IntOperand(o: Operand): TOperand {
    match o
    case Imm(n) => TImm(n)
    case Sym(i) => TSym(i, IntType)
  }

  function IntBody(b: Body): TBody {
    match b
    case Direct(o) => TDirect(IntOperand(o))
    case Bin(op, l, r) => TBin(op, IntOperand(l), IntOperand(r))
  }

  function IntInstr(i: Instr): TInstr {
    match i
    case Alloca(x) => TAlloca(x)
    case Store(x, b) => TStore(x, IntType, IntBody(b))
    case Jump(t) => TJump(t)
    case Cond(b, t) => TCond(IntBody(b), t)
    case Ret(None) => TRet(None)
    case Ret(Some(o)) => TRet(Some(IntOperand(o)))
  }

  function AllInt(prog: Program): (r: TProgram)
    ensures |r| == |prog| && forall i :: 0 <= i < |prog| ==> r[i] == IntInstr(prog[i])
  {
    seq(|prog|, i requires 0 <= i < |prog| => IntInstr(prog[i]))
  }

  lemma AllIntInverse(prog: Program)
    ensures WellTyped(AllInt(prog)) && Erase(AllInt(prog)) == prog
  {
    assert forall i :: 0 <= i < |prog| ==> EraseInstr(IntInstr(prog[i])) == prog[i];
  }

  lemma WellTypedIsAllInt(prog: TProgram)
    requires WellTyped(prog)
    ensures prog == AllInt(Erase(prog))
  {
    forall i | 0 <= i < |prog| ensures prog[i] == AllInt(Erase(prog))[i] {
      assert TypedInstr(prog[i]);
    }
  }

  function Lift(c: Config): TConfig {
    match c
    case Running(pc, env) => TRunning(pc, env)
    case Halted(None) => THalted(None)
    case Halted(Some(n)) => THalted(Some(Value(IntType, n)))
    case OffTheEnd(env) => TOffTheEnd(env)
  }

  lemma TypedStep(prog: TProgram, c: Config)
    requires WellTyped(prog)
    ensures TStep(prog, Lift(c)) == Lift(Step(Erase(prog), c))
  {
    if c.Running? && c.pc < |prog| {
      assert TypedInstr(prog[c.pc]);
    }
  }

  // With all symbols typed the interpreter computes on plain ints.
  lemma {:induction false} TypedRun(prog: TProgram, c: Config, n: nat)
    requires WellTyped(prog)
    ensures TRun(prog, Lift(c), n) == Lift(Run(Erase(prog), c, n))
    decreases n
  {
    hide WellTyped, TStep, Step, Lift;
    if n > 0 {
      TypedStep(prog, c);
      TypedRun(prog, Step(Erase(prog), c), n - 1);
    }
  }
}
