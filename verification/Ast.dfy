// The int-only part of the source language: what the parser builds and
// var_anal.c accepts, and its meaning.
module Ast {
  import opened Int32
  import opened Options

  datatype Expr =
    | Int(n: int32)
    | Symbol(name: string)
    | Binary(op: BinOp, lhs: Expr, rhs: Expr)

  datatype Stmt =
    | VarDecl(name: string, init: Option<Expr>)
    | Assign(name: string, rhs: Expr)
    | IncDec(name: string, isInc: bool)
    | Eval(e: Expr)
    | If(cond: Expr, thn: seq<Stmt>, els: ElsePart)
    | While(cond: Expr, body: seq<Stmt>)
    | DoWhile(body: seq<Stmt>, cond: Expr)
    | For(first: Option<Stmt>, forCond: Option<Expr>, next: Option<Stmt>, body: seq<Stmt>)
    | Return(value: Option<Expr>)
    | Block(stmts: seq<Stmt>)

  datatype ElsePart = NoElse | Else(stmts: seq<Stmt>)

  type SrcEnv = map<string, int32>

  function Get(env: SrcEnv, x: string): int32 { if x in env then env[x] else 0 }

  function EvalExpr(e: Expr, env: SrcEnv): int32 {
    match e
    case Int(n) => n
    case Symbol(x) => Get(env, x)
    case Binary(op, l, r) => EvalOp(op, EvalExpr(l, env), EvalExpr(r, env))
  }

  datatype Outcome = Normal(env: SrcEnv) | Returned(value: Option<int32>) | Timeout

  // Structured execution.  fuel bounds how often loops may go round again.
  function Exec(s: Stmt, env: SrcEnv, fuel: nat): Outcome
    decreases fuel, s, 1
  {
    match s
    case VarDecl(x, init) =>
      var zeroed := env[x := 0];
      Normal(if init.Some? then zeroed[x := EvalExpr(init.value, zeroed)] else zeroed)
    case Assign(x, e) => Normal(env[x := EvalExpr(e, env)])
    case IncDec(x, isInc) => Normal(env[x := EvalOp(if isInc then Plus else Minus, Get(env, x), 1)])
    case Eval(_) => Normal(env)
    case If(c, thn, els) =>
      if EvalExpr(c, env) != 0 then ExecBlock(thn, env, fuel)
      else if els.Else? then ExecBlock(els.stmts, env, fuel)
      else Normal(env)
    case While(c, body) =>
      if EvalExpr(c, env) == 0 then Normal(env)
      else
        var r := ExecBlock(body, env, fuel);
        if !r.Normal? then r
        else if fuel == 0 then Timeout
        else Exec(s, r.env, fuel - 1)
    case DoWhile(body, c) =>
      var r := ExecBlock(body, env, fuel);
      if !r.Normal? then r
      else if EvalExpr(c, r.env) == 0 then r
      else if fuel == 0 then Timeout
      else Exec(s, r.env, fuel - 1)
    case For(first, _, _, _) =>
      if first.Some? then
        var r := Exec(first.value, env, fuel);
        if r.Normal? then ExecFor(s, r.env, fuel) else r
      else ExecFor(s, env, fuel)
    case Return(None) => Returned(None)
    case Return(Some(e)) => Returned(Some(EvalExpr(e, env)))
    case Block(ss) => ExecBlock(ss, env, fuel)
  }

  // A for loop after its first part.
  function ExecFor(s: Stmt, env: SrcEnv, fuel: nat): Outcome
    requires s.For?
    decreases fuel, s, 0
  {
    if s.forCond.Some? && EvalExpr(s.forCond.value, env) == 0 then Normal(env)
    else
      var r := ExecBlock(s.body, env, fuel);
      if !r.Normal? then r
      else
        var n := if s.next.Some? then Exec(s.next.value, r.env, fuel) else r;
        if !n.Normal? then n
        else if fuel == 0 then Timeout
        else ExecFor(s, n.env, fuel - 1)
  }

  function ExecBlock(ss: seq<Stmt>, env: SrcEnv, fuel: nat): Outcome
    decreases fuel, ss, 1
  {
    if ss == [] then Normal(env)
    else
      var r := ExecBlock(ss[..|ss| - 1], env, fuel);
      if r.Normal? then Exec(ss[|ss| - 1], r.env, fuel) else r
  }

  predicate Scoped(e: Expr, vars: set<string>) {
    match e
    case Int(_) => true
    case Symbol(x) => x in vars
    case Binary(_, l, r) => Scoped(l, vars) && Scoped(r, vars)
  }

  predicate IsSimple(s: Stmt) { s.Assign? || s.IncDec? || s.Eval? }

  // The declarations in force after s, for names declared by s itself.
  function Declares(s: Stmt, vars: set<string>): set<string> {
    if s.VarDecl? then vars + {s.name} else vars
  }

  // Every use is declared, and no declaration repeats a name in scope
  // (assert_is_declared and assert_is_not_declared of var_anal.c).
  predicate WellScoped(s: Stmt, vars: set<string>)
    decreases s, 1
  {
    match s
    case VarDecl(x, init) => x !in vars && (init.Some? ==> Scoped(init.value, vars + {x}))
    case Assign(x, e) => x in vars && Scoped(e, vars)
    case IncDec(x, _) => x in vars
    case Eval(e) => Scoped(e, vars)
    case If(c, thn, els) =>
      Scoped(c, vars) && BlockScoped(thn, vars) && (els.Else? ==> BlockScoped(els.stmts, vars))
    case While(c, body) => Scoped(c, vars) && BlockScoped(body, vars)
    case DoWhile(body, c) => Scoped(c, vars) && BlockScoped(body, vars)
    case For(first, c, next, body) =>
      && (first.Some? ==> (IsSimple(first.value) || first.value.VarDecl?) && WellScoped(first.value, vars))
      && var inner := if first.Some? then Declares(first.value, vars) else vars;
      && (c.Some? ==> Scoped(c.value, inner))
      && (next.Some? ==> IsSimple(next.value) && WellScoped(next.value, inner))
      && BlockScoped(body, inner)
    case Return(e) => e.Some? ==> Scoped(e.value, vars)
    case Block(ss) => BlockScoped(ss, vars)
  }

  function BlockDeclares(ss: seq<Stmt>, vars: set<string>): set<string> {
    if ss == [] then vars
    else Declares(ss[|ss| - 1], BlockDeclares(ss[..|ss| - 1], vars))
  }

  predicate BlockScoped(ss: seq<Stmt>, vars: set<string>)
    decreases ss, 0
  {
    ss == [] ||
    (BlockScoped(ss[..|ss| - 1], vars) && WellScoped(ss[|ss| - 1], BlockDeclares(ss[..|ss| - 1], vars)))
  }
}
