// Running the generated instructions gives what the structured source gives.
module LoweringCorrect {
  import opened Int32
  import opened Ir
  import opened Ast
  import opened Lowering
  import opened Options

  // prog holds code from position lo on.
  ghost predicate Placed(prog: Program, lo: nat, code: Program) {
    |code| <= |prog| && forall i :: lo <= i < |code| ==> prog[i] == code[i]
  }

  // The variables in scope have distinct indices below the next free one.
  ghost predicate NamesOk(g: Gen, vars: set<string>) {
    && (forall x :: x in vars ==> x in g.names && g.names[x] < g.nv)
    && forall x, y :: x in vars && y in vars && x != y ==> g.names[x] != g.names[y]
  }

  ghost predicate Agree(g: Gen, vars: set<string>, senv: SrcEnv, env: Env) {
    && NamesOk(g, vars)
    && forall x :: x in vars ==> Load(env, g.names[x]) == Get(senv, x)
  }

  ghost predicate SameBelow(env: Env, env': Env, n: nat) {
    forall i: nat :: i < n ==> Load(env', i) == Load(env, i)
  }

  ghost predicate Reaches(prog: Program, c: Config, n: nat, c': Config) {
    Run(prog, c, n) == c'
  }

  lemma ReachesTransitive(prog: Program, a: Config, m: nat, b: Config, n: nat, c: Config)
    requires Reaches(prog, a, m, b) && Reaches(prog, b, n, c)
    ensures Reaches(prog, a, m + n, c)
  {
    RunAdd(prog, a, m, n);
  }

  lemma OneStep(prog: Program, c: Config)
    ensures Reaches(prog, c, 1, Step(prog, c))
  {
    assert Run(prog, Step(prog, c), 0) == Step(prog, c);
  }

  lemma AllocaStep(prog: Program, pc: nat, env: Env, t: nat)
    requires pc < |prog| && prog[pc] == Alloca(t)
    ensures Reaches(prog, Running(pc, env), 1, Running(pc + 1, env[t := 0]))
  {
    OneStep(prog, Running(pc, env));
  }

  lemma StoreStep(prog: Program, pc: nat, env: Env, t: nat, b: Body)
    requires pc < |prog| && prog[pc] == Store(t, b)
    ensures Reaches(prog, Running(pc, env), 1, Running(pc + 1, env[t := EvalBody(env, b)]))
  {
    OneStep(prog, Running(pc, env));
  }

  lemma FreshStore(env: Env, i: nat, v: int32, n: nat)
    requires n <= i
    ensures SameBelow(env, env[i := v], n)
  {
  }

  lemma SameBelowTransitive(a: Env, b: Env, c: Env, m: nat, n: nat)
    requires SameBelow(a, b, m) && SameBelow(b, c, n) && m <= n
    ensures SameBelow(a, c, m)
  {
  }

  // An operand read before the variables from n on were written.
  lemma OperandKept(env: Env, env': Env, o: Operand, n: nat)
    requires SameBelow(env, env', n) && (o.Sym? ==> o.idx < n)
    ensures EvalOperand(env', o) == EvalOperand(env, o)
  {
  }

  lemma Reaches3(prog: Program, a: Config, m: nat, b: Config, n: nat, c: Config, k: nat, d: Config)
    requires Reaches(prog, a, m, b) && Reaches(prog, b, n, c) && Reaches(prog, c, k, d)
    ensures Reaches(prog, a, m + n + k, d)
  {
    ReachesTransitive(prog, a, m, b, n, c);
    ReachesTransitive(prog, a, m + n, c, k, d);
  }

  lemma PlacedPrefix(prog: Program, lo: nat, a: Program, b: Program)
    requires |a| <= |b| && b[..|a|] == a && Placed(prog, lo, b)
    ensures Placed(prog, lo, a)
  {
    forall i | lo <= i < |a| ensures prog[i] == a[i] {
      assert b[..|a|][i] == b[i];
    }
  }

  lemma PlacedFrom(prog: Program, lo: nat, hi: nat, code: Program)
    requires Placed(prog, lo, code) && lo <= hi
    ensures Placed(prog, hi, code)
  {
  }

  lemma AgreeStep(g: Gen, g': Gen, vars: set<string>, senv: SrcEnv, env: Env, env': Env)
    requires Agree(g, vars, senv, env) && g'.names == g.names && g.nv <= g'.nv && SameBelow(env, env', g.nv)
    ensures Agree(g', vars, senv, env')
  {
  }

  lemma AgreeOperand(g: Gen, vars: set<string>, senv: SrcEnv, env: Env, x: string)
    requires Agree(g, vars, senv, env) && x in vars
    ensures IndexOf(g, x) < g.nv && Load(env, IndexOf(g, x)) == Get(senv, x)
  {
  }

  lemma BinaryPlaced(prog: Program, g: Gen, e: Expr)
    requires e.Binary? && Placed(prog, |g.code|, LowerExpr(g, e).0.code)
    ensures var g0 := Emit(g, Alloca(g.nv)).(nv := g.nv + 1);
            var (g1, lo) := LowerExpr(g0, e.lhs);
            var (g2, ro) := LowerExpr(g1, e.rhs);
            var r := LowerExpr(g, e).0;
            && |g.code| < |g1.code| <= |g2.code| < |prog| && g0.nv <= g1.nv <= g2.nv == r.nv
            && g1.names == g.names && g2.names == g.names && r.names == g.names
            && |r.code| == |g2.code| + 1
            && prog[|g.code|] == Alloca(g.nv) && prog[|g2.code|] == Store(g.nv, Bin(e.op, lo, ro))
            && Placed(prog, |g0.code|, g1.code) && Placed(prog, |g1.code|, g2.code)
  {
    var g0 := Emit(g, Alloca(g.nv)).(nv := g.nv + 1);
    var (g1, lo) := LowerExpr(g0, e.lhs);
    var (g2, ro) := LowerExpr(g1, e.rhs);
    ExprExtends(g0, e.lhs);
    ExprExtends(g1, e.rhs);
    assert g2.code[..|g1.code|][..|g0.code|] == g0.code;
    assert g2.code[|g.code|] == g2.code[..|g1.code|][|g.code|] == g1.code[..|g0.code|][|g.code|];
    assert LowerExpr(g, e).0.code == g2.code + [Store(g.nv, Bin(e.op, lo, ro))];
    PlacedPrefix(prog, |g.code|, g2.code, LowerExpr(g, e).0.code);
    PlacedPrefix(prog, |g.code|, g1.code, g2.code);
  }

  // Expressions run straight through, touch no variable that existed before,
  // and leave their value in the operand.
  lemma {:induction false} ExprSim(prog: Program, g: Gen, e: Expr, senv: SrcEnv, env: Env, vars: set<string>)
    returns (env': Env)
    requires Agree(g, vars, senv, env) && Scoped(e, vars)
    requires Placed(prog, |g.code|, LowerExpr(g, e).0.code)
    ensures |g.code| <= |LowerExpr(g, e).0.code|
    ensures var (g1, o) := LowerExpr(g, e);
            && Reaches(prog, Running(|g.code|, env), |g1.code| - |g.code|, Running(|g1.code|, env'))
            && EvalOperand(env', o) == EvalExpr(e, senv)
            && (o.Sym? ==> o.idx < g1.nv)
            && Agree(g1, vars, senv, env')
    ensures SameBelow(env, env', g.nv)
    decreases e, 1
  {
    hide Agree, Reaches, Run, EvalOp, IndexOf, Placed;
    match e
    case Int(_) =>
      env' := env;
      NoSteps(prog, Running(|g.code|, env));
    case Symbol(x) =>
      env' := env;
      NoSteps(prog, Running(|g.code|, env));
      AgreeOperand(g, vars, senv, env, x);
    case Binary(_, _, _) =>
      env' := BinarySim(prog, g, e, senv, env, vars);
  }

  // The two operands and the store leave everything below t alone.
  lemma OlderKept(env: Env, env1: Env, env2: Env, t: nat, v: int32, n: nat)
    requires SameBelow(env[t := 0], env1, t + 1) && SameBelow(env1, env2, n) && t < n
    ensures SameBelow(env, env2[t := v], t)
  {
    hide SameBelow;
    FreshStore(env, t, 0, t);
    FreshStore(env2, t, v, t);
    SameBelowTransitive(env[t := 0], env1, env2, t + 1, n);
    SameBelowTransitive(env, env[t := 0], env2, t, t + 1);
    SameBelowTransitive(env, env2, env2[t := v], t, t);
  }

  lemma {:induction false} BinarySim(prog: Program, g: Gen, e: Expr, senv: SrcEnv, env: Env, vars: set<string>)
    returns (env': Env)
    requires e.Binary? && Agree(g, vars, senv, env) && Scoped(e, vars)
    requires Placed(prog, |g.code|, LowerExpr(g, e).0.code)
    ensures |g.code| <= |LowerExpr(g, e).0.code|
    ensures var (g1, o) := LowerExpr(g, e);
            && Reaches(prog, Running(|g.code|, env), |g1.code| - |g.code|, Running(|g1.code|, env'))
            && EvalOperand(env', o) == EvalExpr(e, senv)
            && (o.Sym? ==> o.idx < g1.nv)
            && Agree(g1, vars, senv, env')
    ensures SameBelow(env, env', g.nv)
    decreases e, 0
  {
    hide Agree, Reaches, Run, EvalOp, Step, Placed, SameBelow;
    var t := g.nv;
    var g0 := Emit(g, Alloca(t)).(nv := t + 1);
    var (g1, lo) := LowerExpr(g0, e.lhs);
    var (g2, ro) := LowerExpr(g1, e.rhs);
    var g3 := LowerExpr(g, e).0;
    BinaryPlaced(prog, g, e);
    var env0 := env[t := 0];
    AllocaStep(prog, |g.code|, env, t);
    FreshStore(env, t, 0, t);
    AgreeStep(g, g0, vars, senv, env, env0);
    var env1 := ExprSim(prog, g0, e.lhs, senv, env0, vars);
    var env2 := ExprSim(prog, g1, e.rhs, senv, env1, vars);
    OperandKept(env1, env2, lo, g1.nv);
    StoreStep(prog, |g2.code|, env2, t, Bin(e.op, lo, ro));
    var v := EvalOp(e.op, EvalOperand(env2, lo), EvalOperand(env2, ro));
    env' := env2[t := v];
    OlderKept(env, env1, env2, t, v, g1.nv);
    AgreeStep(g, g3, vars, senv, env, env');
    ReachesTransitive(prog, Running(|g.code|, env), 1, Running(|g0.code|, env0), |g1.code| - |g0.code|, Running(|g1.code|, env1));
    Reaches3(prog, Running(|g.code|, env), |g1.code| - |g.code|, Running(|g1.code|, env1),
             |g2.code| - |g1.code|, Running(|g2.code|, env2), 1, Running(|g3.code|, env'));
  }

  lemma NoSteps(prog: Program, c: Config)
    ensures Reaches(prog, c, 0, c)
  {
  }

  // ---- Statements ----

  // What n steps from instruction `from` must have done when the source s has
  // ended in out: control is behind the code of s with the variables in
  // agreement, or the function has returned, or (when the source ran out of
  // fuel) at least fuel instructions have run and none of them was a ret.
  ghost predicate Simulates(prog: Program, from: nat, env: Env, out: Outcome, fuel: nat,
                            g': Gen, vars': set<string>, n: nat, env': Env)
  {
    match out
    case Normal(senv') =>
      Reaches(prog, Running(from, env), n, Running(|g'.code|, env')) && Agree(g', vars', senv', env')
    case Returned(v) => Reaches(prog, Running(from, env), n, Halted(v))
    case Timeout => n >= fuel && Run(prog, Running(from, env), n).Running?
  }

  // Some steps first.
  lemma SimulatesAfter(prog: Program, from: nat, env: Env, m: nat, mid: nat, env1: Env, out: Outcome, fuel: nat,
                       g': Gen, vars': set<string>, n: nat, env': Env)
    requires Reaches(prog, Running(from, env), m, Running(mid, env1))
    requires Simulates(prog, mid, env1, out, fuel, g', vars', n, env')
    ensures Simulates(prog, from, env, out, fuel, g', vars', m + n, env')
    ensures out.Timeout? ==> Simulates(prog, from, env, out, fuel + m, g', vars', m + n, env')
  {
    RunAdd(prog, Running(from, env), m, n);
  }

  // Some steps afterwards, or the place and scope named differently.
  lemma SimulatesThen(prog: Program, from: nat, env: Env, out: Outcome, fuel: nat, g1: Gen, vars1: set<string>, n: nat, env1: Env,
                      k: nat, g2: Gen, vars2: set<string>, env2: Env)
    requires Simulates(prog, from, env, out, fuel, g1, vars1, n, env1)
    requires out.Normal? ==> Reaches(prog, Running(|g1.code|, env1), k, Running(|g2.code|, env2)) && Agree(g2, vars2, out.env, env2)
    ensures Simulates(prog, from, env, out, fuel, g2, vars2, if out.Normal? then n + k else n, env2)
  {
    if out.Normal? {
      ReachesTransitive(prog, Running(from, env), n, Running(|g1.code|, env1), k, Running(|g2.code|, env2));
    }
  }

  lemma SimulatesNarrow(prog: Program, from: nat, env: Env, out: Outcome, fuel: nat, g': Gen, inner: set<string>,
                        vars: set<string>, n: nat, env': Env)
    requires Simulates(prog, from, env, out, fuel, g', inner, n, env') && vars <= inner
    ensures Simulates(prog, from, env, out, fuel, g', vars, n, env')
  {
  }

  ghost predicate SameNames(g1: Gen, g2: Gen, vars: set<string>) {
    forall x :: x in vars && x in g1.names ==> x in g2.names && g2.names[x] == g1.names[x]
  }

  // Agreement is about the indices of the variables, wherever we are in the code.
  lemma AgreeMove(g1: Gen, g2: Gen, vars: set<string>, inner: set<string>, senv: SrcEnv, env: Env)
    requires Agree(g1, inner, senv, env) && vars <= inner
    requires SameNames(g1, g2, vars) || SameNames(g2, g1, vars)
    requires NamesOk(g2, vars) || g1.nv <= g2.nv
    requires forall x :: x in vars ==> x in g2.names
    ensures Agree(g2, vars, senv, env)
  {
  }

  lemma AgreeNames(g: Gen, vars: set<string>, senv: SrcEnv, env: Env)
    requires Agree(g, vars, senv, env)
    ensures NamesOk(g, vars) && forall x :: x in vars ==> x in g.names
  {
  }

  lemma AgreeAssign(g: Gen, g': Gen, vars: set<string>, senv: SrcEnv, env: Env, x: string, v: int32)
    requires Agree(g, vars, senv, env) && x in vars && g'.names == g.names && g.nv <= g'.nv
    ensures Agree(g', vars, senv[x := v], env[IndexOf(g, x) := v])
  {
  }

  lemma AgreeDeclare(g: Gen, g0: Gen, vars: set<string>, senv: SrcEnv, env: Env, x: string)
    requires Agree(g, vars, senv, env) && x !in vars
    requires g0.names == g.names[x := g.nv] && g0.nv == g.nv + 1
    ensures Agree(g0, vars + {x}, senv[x := 0], env[g.nv := 0])
  {
  }

  // The code of a block is that of its front and that of its last statement.
  lemma BlockSplit(prog: Program, g: Gen, ss: seq<Stmt>)
    requires ss != [] && Placed(prog, |g.code|, LowerBlock(g, ss).code)
    ensures var g0 := LowerBlock(g, ss[..|ss| - 1]);
            && |g.code| <= |g0.code| <= |LowerBlock(g, ss).code| <= |prog|
            && Placed(prog, |g.code|, g0.code) && Placed(prog, |g0.code|, LowerStmt(g0, ss[|ss| - 1]).code)
  {
    hide LowerStmt;
    var g0 := LowerBlock(g, ss[..|ss| - 1]);
    BlockExtends(g, ss[..|ss| - 1]);
    StmtExtends(g0, ss[|ss| - 1]);
    PlacedPrefix(prog, |g.code|, g0.code, LowerBlock(g, ss).code);
    PlacedFrom(prog, |g.code|, |g0.code|, LowerBlock(g, ss).code);
  }

  // The code of a guard up to its exit jump, and where that leads.
  ghost predicate GuardPlaced(prog: Program, g: Gen, c: Expr, exit: nat) {
    var gb := LowerGuard(g, c);
    && |gb.code| <= |prog|
    && (forall i :: |g.code| <= i < |gb.code| - 1 ==> prog[i] == gb.code[i])
    && prog[|gb.code| - 1] == Jump(exit)
  }

  lemma ExtendsStretch(a: Gen, b: Gen)
    requires Extends(a, b)
    ensures |a.code| <= |b.code| && a.nv <= b.nv
    ensures forall i :: 0 <= i < |a.code| ==> b.code[i] == a.code[i]
  {
    forall i | 0 <= i < |a.code| ensures b.code[i] == a.code[i] {
      assert b.code[..|a.code|][i] == a.code[i];
    }
  }

  // A guard runs to the code behind it when the condition holds, and through
  // its exit jump otherwise.
  lemma GuardSim(prog: Program, g: Gen, c: Expr, senv: SrcEnv, env: Env, vars: set<string>, exit: nat)
    returns (n: nat, env': Env)
    requires Agree(g, vars, senv, env) && Scoped(c, vars) && GuardPlaced(prog, g, c, exit)
    ensures n >= 1 && Agree(LowerGuard(g, c), vars, senv, env')
    ensures Reaches(prog, Running(|g.code|, env), n,
                    Running(if EvalExpr(c, senv) != 0 then |LowerGuard(g, c).code| else exit, env'))
  {
    hide Reaches, Run, Agree;
    var (g1, o) := LowerExpr(g, c);
    var gb := LowerGuard(g, c);
    ExprExtends(g, c);
    var k := |g1.code|;
    assert gb.code == g1.code + [Cond(NotZero(o), k + 2), UNPATCHED];
    env' := ExprSim(prog, g, c, senv, env, vars);
    AgreeStep(g1, gb, vars, senv, env', env');
    assert prog[k] == Cond(NotZero(o), k + 2);
    OneStep(prog, Running(k, env'));
    OneStep(prog, Running(k + 1, env'));
    if EvalExpr(c, senv) != 0 {
      n := k - |g.code| + 1;
      ReachesTransitive(prog, Running(|g.code|, env), k - |g.code|, Running(k, env'), 1, Running(k + 2, env'));
    } else {
      n := k - |g.code| + 2;
      Reaches3(prog, Running(|g.code|, env), k - |g.code|, Running(k, env'), 1, Running(k + 1, env'), 1, Running(exit, env'));
    }
  }

  // The patched stretches of a statement, seen in the finished program.
  lemma IfPlaced(prog: Program, g: Gen, s: Stmt)
    requires s.If? && Placed(prog, |g.code|, LowerStmt(g, s).code)
    ensures var gb := LowerGuard(g, s.cond);
            var g2 := LowerBlock(gb, s.thn);
            var r := LowerStmt(g, s);
            && |g.code| <= |gb.code| <= |g2.code| && Placed(prog, |gb.code|, g2.code) && gb.nv <= g2.nv <= r.nv
            && if s.els.NoElse? then
                 GuardPlaced(prog, g, s.cond, |g2.code|) && |r.code| == |g2.code| && r.names == g2.names
               else
                 var g3 := Emit(Patch(g2, |gb.code| - 1, Jump(|g2.code| + 1)), UNPATCHED);
                 && GuardPlaced(prog, g, s.cond, |g3.code|)
                 && |g2.code| < |prog| && prog[|g2.code|] == Jump(|r.code|)
                 && Placed(prog, |g3.code|, LowerBlock(g3, s.els.stmts).code)
                 && |r.code| == |LowerBlock(g3, s.els.stmts).code| && r.names == LowerBlock(g3, s.els.stmts).names
                 && g3.nv == g2.nv && LowerBlock(g3, s.els.stmts).nv == r.nv
  {
    hide LowerBlock, LowerExpr, LowerGuard;
    var gb := LowerGuard(g, s.cond);
    var g2 := LowerBlock(gb, s.thn);
    GuardExtends(g, s.cond);
    BlockExtends(gb, s.thn);
    ExtendsStretch(gb, g2);
    if s.els.Else? {
      var g3 := Emit(Patch(g2, |gb.code| - 1, Jump(|g2.code| + 1)), UNPATCHED);
      BlockExtends(g3, s.els.stmts);
      ExtendsStretch(g3, LowerBlock(g3, s.els.stmts));
    }
  }

  lemma WhilePlaced(prog: Program, g: Gen, s: Stmt)
    requires s.While? && Placed(prog, |g.code|, LowerStmt(g, s).code)
    ensures var gb := LowerGuard(g, s.cond);
            var g2 := LowerBlock(gb, s.body);
            var r := LowerStmt(g, s);
            && |g.code| <= |gb.code| <= |g2.code| < |prog| && |r.code| == |g2.code| + 1
            && GuardPlaced(prog, g, s.cond, |r.code|) && Placed(prog, |gb.code|, g2.code)
            && prog[|g2.code|] == Jump(|g.code|)
            && r.names == g2.names && r.nv == g2.nv && gb.nv <= g2.nv
  {
    var gb := LowerGuard(g, s.cond);
    var g2 := LowerBlock(gb, s.body);
    GuardExtends(g, s.cond);
    BlockExtends(gb, s.body);
    ExtendsStretch(gb, g2);
  }

  lemma DoWhilePlaced(prog: Program, g: Gen, s: Stmt)
    requires s.DoWhile? && Placed(prog, |g.code|, LowerStmt(g, s).code)
    ensures var gb := LowerBlock(g, s.body);
            var (g1, o) := LowerExpr(gb, s.cond);
            var r := LowerStmt(g, s);
            && |g.code| <= |gb.code| <= |g1.code| < |prog| && |r.code| == |g1.code| + 1
            && Placed(prog, |g.code|, gb.code) && Placed(prog, |gb.code|, g1.code)
            && prog[|g1.code|] == Cond(NotZero(o), |g.code|)
            && r.names == gb.names && r.nv == g1.nv && g.nv <= gb.nv <= g1.nv
  {
    var gb := LowerBlock(g, s.body);
    BlockExtends(g, s.body);
    ExprExtends(gb, s.cond);
    ExtendsStretch(gb, LowerExpr(gb, s.cond).0);
  }

  lemma {:induction false} StmtSim(prog: Program, g: Gen, s: Stmt, senv: SrcEnv, env: Env, vars: set<string>, fuel: nat)
    returns (n: nat, env': Env)
    requires Agree(g, vars, senv, env) && WellScoped(s, vars)
    requires Placed(prog, |g.code|, LowerStmt(g, s).code)
    ensures Simulates(prog, |g.code|, env, Exec(s, senv, fuel), fuel, LowerStmt(g, s), Declares(s, vars), n, env')
    decreases fuel, s, 3
  {
    match s
    case If(_, _, _) => n, env' := IfSim(prog, g, s, senv, env, vars, fuel);
    case While(_, _) => n, env' := WhileSim(prog, g, s, senv, env, vars, fuel);
    case DoWhile(_, _) => n, env' := DoWhileSim(prog, g, s, senv, env, vars, fuel);
    case For(_, _, _, _) => n, env' := ForSim(prog, g, s, senv, env, vars, fuel);
    case Block(ss) =>
      n, env' := BlockSim(prog, g, ss, senv, env, vars, fuel);
      BlockNamesKept(g, ss, vars);
      SimulatesNarrow(prog, |g.code|, env, Exec(s, senv, fuel), fuel, LowerBlock(g, ss), BlockDeclares(ss, vars), vars, n, env');
    case _ => n, env' := SimpleSim(prog, g, s, senv, env, vars, fuel);
  }

  lemma {:induction false} BlockSim(prog: Program, g: Gen, ss: seq<Stmt>, senv: SrcEnv, env: Env, vars: set<string>, fuel: nat)
    returns (n: nat, env': Env)
    requires Agree(g, vars, senv, env) && BlockScoped(ss, vars)
    requires Placed(prog, |g.code|, LowerBlock(g, ss).code)
    ensures Simulates(prog, |g.code|, env, ExecBlock(ss, senv, fuel), fuel, LowerBlock(g, ss), BlockDeclares(ss, vars), n, env')
    decreases fuel, ss, 0
  {
    hide Agree, Reaches;
    if ss == [] {
      n, env' := 0, env;
      NoSteps(prog, Running(|g.code|, env));
    } else {
      var init, last := ss[..|ss| - 1], ss[|ss| - 1];
      var g1 := LowerBlock(g, init);
      BlockExtends(g, init);
      StmtExtends(g1, last);
      PlacedPrefix(prog, |g.code|, g1.code, LowerBlock(g, ss).code);
      PlacedFrom(prog, |g.code|, |g1.code|, LowerBlock(g, ss).code);
      n, env' := BlockSim(prog, g, init, senv, env, vars, fuel);
      var out := ExecBlock(init, senv, fuel);
      if out.Normal? {
        var m := n;
        var env1 := env';
        n, env' := StmtSim(prog, g1, last, out.env, env1, BlockDeclares(init, vars), fuel);
        SimulatesAfter(prog, |g.code|, env, m, |g1.code|, env1, ExecBlock(ss, senv, fuel), fuel,
                       LowerBlock(g, ss), BlockDeclares(ss, vars), n, env');
        n := m + n;
      }
    }
  }

  // Declarations, assignments, ++/--, expression statements and returns.
  lemma SimpleSim(prog: Program, g: Gen, s: Stmt, senv: SrcEnv, env: Env, vars: set<string>, fuel: nat)
    returns (n: nat, env': Env)
    requires IsSimple(s) || s.VarDecl? || s.Return?
    requires Agree(g, vars, senv, env) && WellScoped(s, vars)
    requires Placed(prog, |g.code|, LowerStmt(g, s).code)
    ensures Simulates(prog, |g.code|, env, Exec(s, senv, fuel), fuel, LowerStmt(g, s), Declares(s, vars), n, env')
  {
    hide Agree, Reaches, Run, EvalOp;
    var r := LowerStmt(g, s);
    match s
    case VarDecl(x, init) =>
      n, env' := DeclSim(prog, g, s, senv, env, vars, fuel);
    case Assign(_, _) =>
      n, env' := AssignSim(prog, g, s, senv, env, vars, fuel);
    case IncDec(x, isInc) =>
      var op := if isInc then Plus else Minus;
      var i := IndexOf(g, x);
      assert prog[|g.code|] == Store(i, Bin(op, Sym(i), Imm(1)));
      AgreeOperand(g, vars, senv, env, x);
      var v := EvalOp(op, Get(senv, x), 1);
      AgreeAssign(g, r, vars, senv, env, x, v);
      env' := env[i := v];
      n := 1;
      OneStep(prog, Running(|g.code|, env));
    case Eval(e) =>
      n := |r.code| - |g.code|;
      env' := ExprSim(prog, g, e, senv, env, vars);
    case Return(None) =>
      n, env' := 1, env;
      assert prog[|g.code|] == Ret(None);
      OneStep(prog, Running(|g.code|, env));
    case Return(Some(_)) =>
      n, env' := ReturnSim(prog, g, s, senv, env, vars, fuel);
  }

  lemma AssignSim(prog: Program, g: Gen, s: Stmt, senv: SrcEnv, env: Env, vars: set<string>, fuel: nat)
    returns (n: nat, env': Env)
    requires s.Assign? && Agree(g, vars, senv, env) && WellScoped(s, vars)
    requires Placed(prog, |g.code|, LowerStmt(g, s).code)
    ensures Simulates(prog, |g.code|, env, Exec(s, senv, fuel), fuel, LowerStmt(g, s), vars, n, env')
  {
    hide Agree, Reaches, Run, EvalOp;
    var r := LowerStmt(g, s);
    var (g1, o) := LowerExpr(g, s.rhs);
    ExprExtends(g, s.rhs);
    PlacedPrefix(prog, |g.code|, g1.code, r.code);
    var env1 := ExprSim(prog, g, s.rhs, senv, env, vars);
    var v := EvalExpr(s.rhs, senv);
    assert prog[|g1.code|] == Store(IndexOf(g, s.name), Direct(o));
    AgreeAssign(g1, r, vars, senv, env1, s.name, v);
    env' := env1[IndexOf(g, s.name) := v];
    n := |g1.code| - |g.code| + 1;
    OneStep(prog, Running(|g1.code|, env1));
    ReachesTransitive(prog, Running(|g.code|, env), |g1.code| - |g.code|, Running(|g1.code|, env1), 1, Running(|r.code|, env'));
  }

  lemma ReturnSim(prog: Program, g: Gen, s: Stmt, senv: SrcEnv, env: Env, vars: set<string>, fuel: nat)
    returns (n: nat, env': Env)
    requires s.Return? && s.value.Some? && Agree(g, vars, senv, env) && WellScoped(s, vars)
    requires Placed(prog, |g.code|, LowerStmt(g, s).code)
    ensures Simulates(prog, |g.code|, env, Exec(s, senv, fuel), fuel, LowerStmt(g, s), vars, n, env')
  {
    hide Agree, Reaches, Run, EvalOp;
    var r, e := LowerStmt(g, s), s.value.value;
    var (g1, o) := LowerExpr(g, e);
    ExprExtends(g, e);
    PlacedPrefix(prog, |g.code|, g1.code, r.code);
    env' := ExprSim(prog, g, e, senv, env, vars);
    assert prog[|g1.code|] == Ret(Some(o));
    n := |g1.code| - |g.code| + 1;
    OneStep(prog, Running(|g1.code|, env'));
    ReachesTransitive(prog, Running(|g.code|, env), |g1.code| - |g.code|, Running(|g1.code|, env'),
                      1, Halted(Some(EvalExpr(e, senv))));
  }

  lemma DeclSim(prog: Program, g: Gen, s: Stmt, senv: SrcEnv, env: Env, vars: set<string>, fuel: nat)
    returns (n: nat, env': Env)
    requires s.VarDecl? && Agree(g, vars, senv, env) && WellScoped(s, vars)
    requires Placed(prog, |g.code|, LowerStmt(g, s).code)
    ensures Simulates(prog, |g.code|, env, Exec(s, senv, fuel), fuel, LowerStmt(g, s), Declares(s, vars), n, env')
  {
    hide Agree, Reaches, Run, EvalOp;
    var VarDecl(x, init) := s;
    var r := LowerStmt(g, s);
    var i := g.nv;
    var g0 := Emit(g, Alloca(i)).(nv := i + 1, names := g.names[x := i]);
    var senv0, env0 := senv[x := 0], env[i := 0];
    AgreeDeclare(g, g0, vars, senv, env, x);
    if init.None? {
      assert prog[|g.code|] == Alloca(i);
      OneStep(prog, Running(|g.code|, env));
      n, env' := 1, env0;
    } else {
      var e := init.value;
      var (g1, o) := LowerExpr(g0, e);
      ExprExtends(g0, e);
      ExtendsStretch(g0, g1);
      assert prog[|g.code|] == Alloca(i);
      OneStep(prog, Running(|g.code|, env));
      PlacedPrefix(prog, |g.code|, g1.code, r.code);
      PlacedFrom(prog, |g.code|, |g0.code|, g1.code);
      var env1 := ExprSim(prog, g0, e, senv0, env0, vars + {x});
      var v := EvalExpr(e, senv0);
      assert prog[|g1.code|] == Store(i, Direct(o));
      AgreeAssign(g1, r, vars + {x}, senv0, env1, x, v);
      env' := env1[i := v];
      OneStep(prog, Running(|g1.code|, env1));
      n := 1 + (|g1.code| - |g0.code|) + 1;
      Reaches3(prog, Running(|g.code|, env), 1, Running(|g0.code|, env0), |g1.code| - |g0.code|, Running(|g1.code|, env1),
               1, Running(|r.code|, env'));
    }
  }

  lemma {:induction false} IfSim(prog: Program, g: Gen, s: Stmt, senv: SrcEnv, env: Env, vars: set<string>, fuel: nat)
    returns (n: nat, env': Env)
    requires s.If? && Agree(g, vars, senv, env) && WellScoped(s, vars)
    requires Placed(prog, |g.code|, LowerStmt(g, s).code)
    ensures Simulates(prog, |g.code|, env, Exec(s, senv, fuel), fuel, LowerStmt(g, s), vars, n, env')
    decreases fuel, s, 1
  {
    hide Agree, Reaches, Run, Placed, LowerGuard, GuardPlaced, NamesOk, LowerStmt, LowerBlock;
    var If(c, thn, els) := s;
    var r, gb := LowerStmt(g, s), LowerGuard(g, c);
    var g2 := LowerBlock(gb, thn);
    IfPlaced(prog, g, s);
    BlockNamesKept(gb, thn, vars);
    var exit := if els.NoElse? then |g2.code| else |g2.code| + 1;
    var n1, env1 := GuardSim(prog, g, c, senv, env, vars, exit);
    AgreeNames(gb, vars, senv, env1);
    var out := Exec(s, senv, fuel);
    if EvalExpr(c, senv) != 0 {
      var n2, env2 := BlockSim(prog, gb, thn, senv, env1, vars, fuel);
      env' := env2;
      if els.NoElse? {
        n2, env' := ArriveAt(prog, |gb.code|, env1, out, fuel, g2, BlockDeclares(thn, vars), n2, env2, r, vars, 0);
      } else {
        NamesThroughElse(gb, g2, s, vars);
        n2, env' := ArriveAt(prog, |gb.code|, env1, out, fuel, g2, BlockDeclares(thn, vars), n2, env2, r, vars, 1);
      }
      SimulatesAfter(prog, |g.code|, env, n1, |gb.code|, env1, out, fuel, r, vars, n2, env');
      n := n1 + n2;
    } else if els.NoElse? {
      n, env' := n1, env1;
      AgreeMove(gb, r, vars, vars, senv, env1);
    } else {
      var g3 := Emit(Patch(g2, |gb.code| - 1, Jump(|g2.code| + 1)), UNPATCHED);
      AgreeMove(gb, g3, vars, vars, senv, env1);
      BlockNamesKept(g3, els.stmts, vars);
      var n2, env2 := BlockSim(prog, g3, els.stmts, senv, env1, vars, fuel);
      n2, env' := ArriveAt(prog, |g3.code|, env1, out, fuel, LowerBlock(g3, els.stmts), BlockDeclares(els.stmts, vars), n2, env2, r, vars, 0);
      SimulatesAfter(prog, |g.code|, env, n1, |g3.code|, env1, out, fuel, r, vars, n2, env');
      n := n1 + n2;
    }
  }

  lemma NamesThroughElse(gb: Gen, g2: Gen, s: Stmt, vars: set<string>)
    requires s.If? && s.els.Else? && BlockScoped(s.els.stmts, vars) && |gb.code| >= 1 && |g2.code| >= |gb.code|
    ensures var g3 := Emit(Patch(g2, |gb.code| - 1, Jump(|g2.code| + 1)), UNPATCHED);
            SameNames(g2, LowerBlock(g3, s.els.stmts), vars) && g2.nv <= LowerBlock(g3, s.els.stmts).nv
  {
    var g3 := Emit(Patch(g2, |gb.code| - 1, Jump(|g2.code| + 1)), UNPATCHED);
    BlockNamesKept(g3, s.els.stmts, vars);
    BlockExtends(g3, s.els.stmts);
  }

  // From the end of a block (g1, with its inner scope) on to the place g2 in
  // the outer scope, by a jump when k is 1.
  lemma ArriveAt(prog: Program, from: nat, env: Env, out: Outcome, fuel: nat, g1: Gen, inner: set<string>, n1: nat, env1: Env,
                 g2: Gen, vars: set<string>, k: nat)
    returns (n: nat, env': Env)
    requires Simulates(prog, from, env, out, fuel, g1, inner, n1, env1) && vars <= inner
    requires if k == 0 then |g1.code| == |g2.code|
             else k == 1 && |g1.code| < |prog| && prog[|g1.code|] == Jump(|g2.code|)
    requires SameNames(g1, g2, vars) || SameNames(g2, g1, vars)
    requires NamesOk(g2, vars) || g1.nv <= g2.nv
    requires out.Normal? ==> forall x :: x in vars && x in g1.names ==> x in g2.names
    ensures Simulates(prog, from, env, out, fuel, g2, vars, n, env')
    ensures env' == env1 && n == if out.Normal? then n1 + k else n1
  {
    env' := env1;
    if out.Normal? {
      AgreeNames(g1, inner, out.env, env1);
      AgreeMove(g1, g2, vars, inner, out.env, env1);
      if k == 1 {
        OneStep(prog, Running(|g1.code|, env1));
      } else {
        NoSteps(prog, Running(|g1.code|, env1));
      }
      SimulatesThen(prog, from, env, out, fuel, g1, inner, n1, env1, k, g2, vars, env1);
    }
    n := if out.Normal? then n1 + k else n1;
  }

  lemma {:induction false} WhileSim(prog: Program, g: Gen, s: Stmt, senv: SrcEnv, env: Env, vars: set<string>, fuel: nat)
    returns (n: nat, env': Env)
    requires s.While? && Agree(g, vars, senv, env) && WellScoped(s, vars)
    requires Placed(prog, |g.code|, LowerStmt(g, s).code)
    ensures Simulates(prog, |g.code|, env, Exec(s, senv, fuel), fuel, LowerStmt(g, s), vars, n, env')
    decreases fuel, s, 1
  {
    hide Agree, Reaches, Run, Placed, LowerGuard, GuardPlaced, NamesOk;
    var While(c, body) := s;
    var r, gb := LowerStmt(g, s), LowerGuard(g, c);
    var g2 := LowerBlock(gb, body);
    WhilePlaced(prog, g, s);
    GuardExtends(g, c);
    BlockNamesKept(gb, body, vars);
    AgreeNames(g, vars, senv, env);
    var n1, env1 := GuardSim(prog, g, c, senv, env, vars, |r.code|);
    AgreeNames(gb, vars, senv, env1);
    if EvalExpr(c, senv) == 0 {
      n, env' := n1, env1;
      AgreeMove(gb, r, vars, vars, senv, env1);
    } else {
      var out := ExecBlock(body, senv, fuel);
      var n2, env2 := BlockSim(prog, gb, body, senv, env1, vars, fuel);
      n2, env2 := ArriveAt(prog, |gb.code|, env1, out, fuel, g2, BlockDeclares(body, vars), n2, env2, g, vars, 1);
      SimulatesAfter(prog, |g.code|, env, n1, |gb.code|, env1, out, fuel, g, vars, n2, env2);
      n, env' := n1 + n2, env2;
      if out.Normal? {
        n, env' := AgainSim(prog, g, s, out.env, env, vars, fuel, n, env2);
      }
    }
  }

  // One round of a while or do-while is done and control is back at its start.
  lemma {:induction false} AgainSim(prog: Program, g: Gen, s: Stmt, senv: SrcEnv, env0: Env, vars: set<string>, fuel: nat,
                                    m: nat, env: Env)
    returns (n: nat, env': Env)
    requires (s.While? || s.DoWhile?) && WellScoped(s, vars) && Agree(g, vars, senv, env)
    requires m >= 1 && Reaches(prog, Running(|g.code|, env0), m, Running(|g.code|, env))
    requires Placed(prog, |g.code|, LowerStmt(g, s).code)
    ensures var out := if fuel == 0 then Timeout else Exec(s, senv, fuel - 1);
            Simulates(prog, |g.code|, env0, out, fuel, LowerStmt(g, s), vars, n, env')
    decreases fuel, s, 0
  {
    if fuel == 0 {
      n, env' := m, env;
    } else {
      var n2;
      n2, env' := StmtSim(prog, g, s, senv, env, vars, fuel - 1);
      SimulatesAfter(prog, |g.code|, env0, m, |g.code|, env, Exec(s, senv, fuel - 1), fuel - 1, LowerStmt(g, s), vars, n2, env');
      n := m + n2;
    }
  }

  lemma {:induction false} DoWhileSim(prog: Program, g: Gen, s: Stmt, senv: SrcEnv, env: Env, vars: set<string>, fuel: nat)
    returns (n: nat, env': Env)
    requires s.DoWhile? && Agree(g, vars, senv, env) && WellScoped(s, vars)
    requires Placed(prog, |g.code|, LowerStmt(g, s).code)
    ensures Simulates(prog, |g.code|, env, Exec(s, senv, fuel), fuel, LowerStmt(g, s), vars, n, env')
    decreases fuel, s, 1
  {
    hide Agree, Reaches, Run, Placed, NamesOk;
    var DoWhile(body, c) := s;
    var r, gb := LowerStmt(g, s), LowerBlock(g, body);
    var (g1, o) := LowerExpr(gb, c);
    DoWhilePlaced(prog, g, s);
    ExprExtends(gb, c);
    BlockNamesKept(g, body, vars);
    AgreeNames(g, vars, senv, env);
    var out := ExecBlock(body, senv, fuel);
    var n1, env1 := BlockSim(prog, g, body, senv, env, vars, fuel);
    n1, env1 := ArriveAt(prog, |g.code|, env, out, fuel, gb, BlockDeclares(body, vars), n1, env1, gb, vars, 0);
    n, env' := n1, env1;
    if out.Normal? {
      n, env' := CondSim(prog, g, s, out.env, env, vars, n1, env1);
      if EvalExpr(c, out.env) == 0 {
        AgreeMove(g1, r, vars, vars, out.env, env');
      } else {
        AgreeMove(g1, g, vars, vars, out.env, env');
        n, env' := AgainSim(prog, g, s, out.env, env, vars, fuel, n, env');
      }
    }
  }

  // From the end of the body of a do-while through its condition.
  lemma CondSim(prog: Program, g: Gen, s: Stmt, senv: SrcEnv, env: Env, vars: set<string>, n1: nat, env1: Env)
    returns (n: nat, env': Env)
    requires s.DoWhile? && WellScoped(s, vars) && Placed(prog, |g.code|, LowerStmt(g, s).code)
    requires Agree(LowerBlock(g, s.body), vars, senv, env1)
    requires Reaches(prog, Running(|g.code|, env), n1, Running(|LowerBlock(g, s.body).code|, env1))
    ensures var g1 := LowerExpr(LowerBlock(g, s.body), s.cond).0;
            && Agree(g1, vars, senv, env')
            && n > n1
            && Reaches(prog, Running(|g.code|, env), n,
                       Running(if EvalExpr(s.cond, senv) == 0 then |LowerStmt(g, s).code| else |g.code|, env'))
  {
    hide Agree, Reaches, Run, Placed, NamesOk, LowerBlock;
    var gb, r := LowerBlock(g, s.body), LowerStmt(g, s);
    var g1 := LowerExpr(gb, s.cond).0;
    DoWhilePlaced(prog, g, s);
    env' := ExprSim(prog, gb, s.cond, senv, env1, vars);
    OneStep(prog, Running(|g1.code|, env'));
    ExprExtends(gb, s.cond);
    AgreeStep(gb, g1, vars, senv, env1, env');
    n := n1 + (|g1.code| - |gb.code|) + 1;
    Reaches3(prog, Running(|g.code|, env), n1, Running(|gb.code|, env1), |g1.code| - |gb.code|, Running(|g1.code|, env'),
             1, Running(if EvalExpr(s.cond, senv) == 0 then |r.code| else |g.code|, env'));
  }

  // Where the parts of a for loop start and end: after its first part, after
  // its guard, after its body, after its increment.
  ghost function ForStart(g: Gen, s: Stmt): Gen
    requires s.For?
  {
    if s.first.Some? then LowerStmt(g, s.first.value) else g
  }

  ghost function ForBody(g: Gen, s: Stmt): Gen
    requires s.For?
  {
    if s.forCond.Some? then LowerGuard(ForStart(g, s), s.forCond.value) else ForStart(g, s)
  }

  ghost function ForNext(g: Gen, s: Stmt): Gen
    requires s.For?
  {
    LowerBlock(ForBody(g, s), s.body)
  }

  ghost function ForEnd(g: Gen, s: Stmt): Gen
    requires s.For?
  {
    if s.next.Some? then LowerStmt(ForNext(g, s), s.next.value) else ForNext(g, s)
  }

  ghost function ForScope(s: Stmt, vars: set<string>): set<string>
    requires s.For?
  {
    if s.first.Some? then Declares(s.first.value, vars) else vars
  }

  lemma ForPlaced(prog: Program, g: Gen, s: Stmt)
    requires s.For? && Placed(prog, |g.code|, LowerStmt(g, s).code)
    ensures var g0, gb, g2, g3, r := ForStart(g, s), ForBody(g, s), ForNext(g, s), ForEnd(g, s), LowerStmt(g, s);
            && |g.code| <= |g0.code| <= |gb.code| <= |g2.code| <= |g3.code| < |prog| && |r.code| == |g3.code| + 1
            && Placed(prog, |g.code|, g0.code) && Placed(prog, |gb.code|, g2.code) && Placed(prog, |g2.code|, g3.code)
            && (s.forCond.Some? ==> GuardPlaced(prog, g0, s.forCond.value, |r.code|))
            && prog[|g3.code|] == Jump(|g0.code|)
            && gb.names == g0.names && r.names == g3.names && g.nv <= g0.nv <= gb.nv <= g2.nv <= g3.nv == r.nv
  {
    ForGrows(g, s);
    ForCode(g, s);
    ForParts(prog, g, s);
  }

  lemma ForGrows(g: Gen, s: Stmt)
    requires s.For?
    ensures var g0, gb, g2, g3 := ForStart(g, s), ForBody(g, s), ForNext(g, s), ForEnd(g, s);
            Extends(g, g0) && Extends(g0, gb) && Extends(gb, g2) && Extends(g2, g3) && gb.names == g0.names
  {
    hide LowerBlock, LowerExpr, LowerGuard, LowerStmt, Extends;
    var g0, gb, g2 := ForStart(g, s), ForBody(g, s), ForNext(g, s);
    ExtendsSelf(g);
    ExtendsSelf(g0);
    ExtendsSelf(g2);
    if s.first.Some? { StmtExtends(g, s.first.value); }
    if s.forCond.Some? { GuardExtends(g0, s.forCond.value); }
    BlockExtends(gb, s.body);
    if s.next.Some? { StmtExtends(g2, s.next.value); }
  }

  lemma ExtendsSelf(g: Gen)
    ensures Extends(g, g)
  {
  }

  // The code of the loop is that of its parts but for the patched exit jump.
  lemma ForCode(g: Gen, s: Stmt)
    requires s.For?
    ensures var g0, gb, g3, r := ForStart(g, s), ForBody(g, s), ForEnd(g, s), LowerStmt(g, s);
            && |gb.code| <= |g3.code| && (s.forCond.Some? ==> |g0.code| + 2 <= |gb.code|)
            && r.names == g3.names && r.nv == g3.nv
            && r.code == (if s.forCond.Some? then g3.code[|gb.code| - 1 := Jump(|g3.code| + 1)] else g3.code) + [Jump(|g0.code|)]
  {
    hide LowerBlock, LowerExpr, LowerGuard;
  }

  lemma ForParts(prog: Program, g: Gen, s: Stmt)
    requires s.For? && Placed(prog, |g.code|, LowerStmt(g, s).code)
    ensures var g0, gb, g2, g3, r := ForStart(g, s), ForBody(g, s), ForNext(g, s), ForEnd(g, s), LowerStmt(g, s);
            && |g3.code| < |prog|
            && Placed(prog, |g.code|, g0.code) && Placed(prog, |gb.code|, g2.code) && Placed(prog, |g2.code|, g3.code)
            && (s.forCond.Some? ==> GuardPlaced(prog, g0, s.forCond.value, |r.code|))
            && prog[|g3.code|] == Jump(|g0.code|)
  {
    hide LowerBlock, LowerExpr, LowerGuard, LowerStmt, Extends;
    var g0, gb, g2, g3 := ForStart(g, s), ForBody(g, s), ForNext(g, s), ForEnd(g, s);
    ForGrows(g, s);
    ForCode(g, s);
    ExtendsStretch(g, g0);
    ExtendsStretch(g0, gb);
    ExtendsStretch(gb, g2);
    ExtendsStretch(g2, g3);
  }

  lemma ForNamesKept(g: Gen, s: Stmt, vars: set<string>)
    requires s.For? && WellScoped(s, vars)
    ensures var inner := ForScope(s, vars);
            && vars <= inner
            && inner <= BlockDeclares(s.body, inner)
            && SameNames(ForBody(g, s), ForNext(g, s), inner) && SameNames(ForNext(g, s), ForEnd(g, s), inner)
            && (s.next.Some? ==> Declares(s.next.value, inner) == inner)
  {
    var inner := ForScope(s, vars);
    BlockNamesKept(ForBody(g, s), s.body, inner);
    if s.next.Some? { NamesKept(ForNext(g, s), s.next.value, inner); }
  }

  lemma {:induction false} ForSim(prog: Program, g: Gen, s: Stmt, senv: SrcEnv, env: Env, vars: set<string>, fuel: nat)
    returns (n: nat, env': Env)
    requires s.For? && Agree(g, vars, senv, env) && WellScoped(s, vars)
    requires Placed(prog, |g.code|, LowerStmt(g, s).code)
    ensures Simulates(prog, |g.code|, env, Exec(s, senv, fuel), fuel, LowerStmt(g, s), vars, n, env')
    decreases fuel, s, 2
  {
    hide Agree, Reaches, Run, Placed, LowerGuard, GuardPlaced, NamesOk;
    ForPlaced(prog, g, s);
    ForNamesKept(g, s, vars);
    var inner, g0 := ForScope(s, vars), ForStart(g, s);
    var out := Exec(s, senv, fuel);
    if s.first.Some? {
      n, env' := StmtSim(prog, g, s.first.value, senv, env, vars, fuel);
      var out0 := Exec(s.first.value, senv, fuel);
      if out0.Normal? {
        var m, env0 := n, env';
        n, env' := ForLoopSim(prog, g, s, out0.env, env0, vars, fuel);
        SimulatesAfter(prog, |g.code|, env, m, |g0.code|, env0, out, fuel, LowerStmt(g, s), inner, n, env');
        n := m + n;
        SimulatesNarrow(prog, |g.code|, env, out, fuel, LowerStmt(g, s), inner, vars, n, env');
      }
    } else {
      n, env' := ForLoopSim(prog, g, s, senv, env, vars, fuel);
    }
  }

  lemma ForSameNames(g: Gen, s: Stmt, vars: set<string>)
    requires s.For? && WellScoped(s, vars) && ForBody(g, s).names == ForStart(g, s).names
    ensures SameNames(ForStart(g, s), ForEnd(g, s), ForScope(s, vars))
  {
    ForNamesKept(g, s, vars);
  }

  // Body, then increment.
  ghost function ForRound(s: Stmt, senv: SrcEnv, fuel: nat): Outcome
    requires s.For?
  {
    var r := ExecBlock(s.body, senv, fuel);
    if r.Normal? && s.next.Some? then Exec(s.next.value, r.env, fuel) else r
  }

  lemma {:induction false} ForRoundSim(prog: Program, g: Gen, s: Stmt, senv: SrcEnv, env: Env, vars: set<string>, fuel: nat)
    returns (n: nat, env': Env)
    requires s.For? && WellScoped(s, vars) && Agree(ForBody(g, s), ForScope(s, vars), senv, env)
    requires Placed(prog, |g.code|, LowerStmt(g, s).code)
    ensures Simulates(prog, |ForBody(g, s).code|, env, ForRound(s, senv, fuel), fuel, ForEnd(g, s), ForScope(s, vars), n, env')
    decreases fuel, s, 0
  {
    hide Agree, Reaches, Run, Placed, LowerGuard, GuardPlaced, NamesOk, SameNames, ForStart;
    ForPlaced(prog, g, s);
    ForNamesKept(g, s, vars);
    var inner, gb, g2, g3 := ForScope(s, vars), ForBody(g, s), ForNext(g, s), ForEnd(g, s);
    n, env' := BlockSim(prog, gb, s.body, senv, env, inner, fuel);
    var out := ExecBlock(s.body, senv, fuel);
    SimulatesNarrow(prog, |gb.code|, env, out, fuel, g2, BlockDeclares(s.body, inner), inner, n, env');
    if out.Normal? && s.next.Some? {
      var m, env1 := n, env';
      n, env' := StmtSim(prog, g2, s.next.value, out.env, env1, inner, fuel);
      SimulatesAfter(prog, |gb.code|, env, m, |g2.code|, env1, ForRound(s, senv, fuel), fuel, g3, inner, n, env');
      n := m + n;
    }
  }

  lemma ForGuardSim(prog: Program, g: Gen, s: Stmt, senv: SrcEnv, env: Env, vars: set<string>)
    returns (n: nat, env': Env)
    requires s.For? && WellScoped(s, vars) && Agree(ForStart(g, s), ForScope(s, vars), senv, env)
    requires Placed(prog, |g.code|, LowerStmt(g, s).code)
    ensures if s.forCond.Some? && EvalExpr(s.forCond.value, senv) == 0 then
              Reaches(prog, Running(|ForStart(g, s).code|, env), n, Running(|LowerStmt(g, s).code|, env'))
              && Agree(LowerStmt(g, s), ForScope(s, vars), senv, env')
            else
              Reaches(prog, Running(|ForStart(g, s).code|, env), n, Running(|ForBody(g, s).code|, env'))
              && Agree(ForBody(g, s), ForScope(s, vars), senv, env')
  {
    hide Agree, Reaches, Run, Placed, LowerGuard, GuardPlaced, NamesOk, ForStart;
    ForPlaced(prog, g, s);
    ForSameNames(g, s, vars);
    var inner, g0, r := ForScope(s, vars), ForStart(g, s), LowerStmt(g, s);
    AgreeNames(g0, inner, senv, env);
    if s.forCond.Some? {
      n, env' := GuardSim(prog, g0, s.forCond.value, senv, env, inner, |r.code|);
      AgreeMove(LowerGuard(g0, s.forCond.value), r, inner, inner, senv, env');
    } else {
      n, env' := 0, env;
      NoSteps(prog, Running(|g0.code|, env));
    }
  }

  lemma StillRunning(prog: Program, c: Config, n: nat, c': Config)
    requires Reaches(prog, c, n, c') && c'.Running?
    ensures Run(prog, c, n).Running?
  {
  }

  lemma {:induction false} ForLoopSim(prog: Program, g: Gen, s: Stmt, senv: SrcEnv, env: Env, vars: set<string>, fuel: nat)
    returns (n: nat, env': Env)
    requires s.For? && WellScoped(s, vars) && Agree(ForStart(g, s), ForScope(s, vars), senv, env)
    requires Placed(prog, |g.code|, LowerStmt(g, s).code)
    ensures Simulates(prog, |ForStart(g, s).code|, env, ExecFor(s, senv, fuel), fuel,
                      LowerStmt(g, s), ForScope(s, vars), n, env')
    decreases fuel, s, 1
  {
    hide Agree, Reaches, Run, Placed, LowerGuard, GuardPlaced, NamesOk, SameNames, ForStart, ForBody, ForNext, ForEnd;
    ForPlaced(prog, g, s);
    ForNamesKept(g, s, vars);
    var inner, g0, gb, g3, r := ForScope(s, vars), ForStart(g, s), ForBody(g, s), ForEnd(g, s), LowerStmt(g, s);
    AgreeNames(g0, inner, senv, env);
    var n1, env1 := ForGuardSim(prog, g, s, senv, env, vars);
    if s.forCond.Some? && EvalExpr(s.forCond.value, senv) == 0 {
      n, env' := n1, env1;
    } else {
      var out := ForRound(s, senv, fuel);
      var n2, env2 := ForRoundSim(prog, g, s, senv, env1, vars, fuel);
      ForSameNames(g, s, vars);
      n2, env2 := ArriveAt(prog, |gb.code|, env1, out, fuel, g3, inner, n2, env2, g0, inner, 1);
      SimulatesAfter(prog, |g0.code|, env, n1, |gb.code|, env1, out, fuel, g0, inner, n2, env2);
      n, env' := n1 + n2, env2;
      if out.Normal? {
        StillRunning(prog, Running(|g0.code|, env), n, Running(|g0.code|, env2));
      }
      if out.Normal? && fuel > 0 {
        var m := n;
        n, env' := ForLoopSim(prog, g, s, out.env, env2, vars, fuel - 1);
        SimulatesAfter(prog, |g0.code|, env, m, |g0.code|, env2, ExecFor(s, out.env, fuel - 1), fuel - 1, r, inner, n, env');
        n := m + n;
      }
    }
  }
}
