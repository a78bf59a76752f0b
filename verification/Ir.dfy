// The flat intermediate representation over int variables, and its meaning.
module Ir {
  import opened Int32
  import opened Options

  datatype Operand = Imm(n: int32) | Sym(idx: nat)

  datatype Body = Direct(o: Operand) | Bin(op: BinOp, lhs: Operand, rhs: Operand)

  datatype Instr =
    | Alloca(idx: nat)
    | Store(idx: nat, body: Body)
    | Jump(target: nat)
    | Cond(cond: Body, target: nat)
    | Ret(value: Option<Operand>)

  type Program = seq<Instr>

  // One value per variable index; memory is zero until it is written.
  type Env = map<nat, int32>

  function Load(env: Env, i: nat): int32 { if i in env then env[i] else 0 }

  function EvalOperand(env: Env, o: Operand): int32 {
    match o
    case Imm(n) => n
    case Sym(i) => Load(env, i)
  }

  function EvalBody(env: Env, b: Body): int32 {
    match b
    case Direct(o) => EvalOperand(env, o)
    case Bin(op, l, r) => EvalOp(op, EvalOperand(env, l), EvalOperand(env, r))
  }

  datatype Config = Running(pc: nat, env: Env) | Halted(value: Option<int32>) | OffTheEnd(env: Env)

  // One instruction and the choice of the next one.  An alloca takes a fresh,
  // zeroed stack slot.
  function Step(prog: Program, c: Config): Config {
    match c
    case Halted(_) => c
    case OffTheEnd(_) => c
    case Running(pc, env) =>
      if pc >= |prog| then OffTheEnd(env)
      else
        match prog[pc]
        case Alloca(i) => Running(pc + 1, env[i := 0])
        case Store(i, b) => Running(pc + 1, env[i := EvalBody(env, b)])
        case Jump(t) => Running(t, env)
        case Cond(b, t) => Running(if EvalBody(env, b) != 0 then t else pc + 1, env)
        case Ret(None) => Halted(None)
        case Ret(Some(o)) => Halted(Some(EvalOperand(env, o)))
  }

  function Run(prog: Program, c: Config, n: nat): Config
    decreases n
  {
    if n == 0 then c else Run(prog, Step(prog, c), n - 1)
  }

  lemma {:induction false} RunAdd(prog: Program, c: Config, m: nat, n: nat)
    ensures Run(prog, c, m + n) == Run(prog, Run(prog, c, m), n)
    decreases m
  {
    if m > 0 {
      RunAdd(prog, Step(prog, c), m - 1, n);
    }
  }

  lemma {:induction false} RunStopped(prog: Program, c: Config, n: nat)
    requires !c.Running?
    ensures Run(prog, c, n) == c
    decreases n
  {
    if n > 0 { RunStopped(prog, c, n - 1); }
  }

  // Once stopped, always stopped in the same way.
  lemma RunStaysStopped(prog: Program, c: Config, m: nat, n: nat)
    requires m <= n && !Run(prog, c, m).Running?
    ensures Run(prog, c, n) == Run(prog, c, m)
  {
    RunAdd(prog, c, m, n - m);
    RunStopped(prog, Run(prog, c, m), n - m);
  }
}
