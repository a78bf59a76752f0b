// The theorem about whole functions: visit_fn_decl() of gen.c followed by
// fun_eval() of eval.c.
module FunctionCorrect {
  import opened Int32
  import opened Ir
  import opened Ast
  import opened Lowering
  import opened LoweringCorrect
  import opened Options

  function ParamSet(params: seq<string>): set<string> { set x | x in params }

  ghost predicate Distinct(params: seq<string>) {
    forall i, j :: 0 <= i < j < |params| ==> params[i] != params[j]
  }

  // Arguments as the caller pushes them, and as the source sees them.
  function ArgEnv(args: seq<int32>): Env { map i: nat | i < |args| :: args[i] }

  function BindParams(params: seq<string>, args: seq<int32>): SrcEnv
    requires |params| == |args|
  {
    if params == [] then map[]
    else BindParams(params[..|params| - 1], args[..|args| - 1])[params[|params| - 1] := args[|args| - 1]]
  }

  // A void function that runs off its end returns.
  function ExecFunction(params: seq<string>, args: seq<int32>, body: seq<Stmt>, isVoid: bool, fuel: nat): Outcome
    requires |params| == |args|
  {
    var r := ExecBlock(body, BindParams(params, args), fuel);
    if r.Normal? && isVoid then Returned(None) else r
  }

  lemma {:induction false} ParamsAgree(params: seq<string>, args: seq<int32>)
    requires |params| == |args| && Distinct(params)
    ensures forall i: nat :: i < |params| ==> params[i] in ParamNames(params) && ParamNames(params)[params[i]] == i
    ensures forall i: nat :: i < |params| ==> Get(BindParams(params, args), params[i]) == args[i]
    decreases |params|
  {
    if params != [] {
      var n := |params| - 1;
      ParamsAgree(params[..n], args[..n]);
      forall i: nat | i < n
        ensures params[i] in ParamNames(params) && ParamNames(params)[params[i]] == i
        ensures Get(BindParams(params, args), params[i]) == args[i]
      {
        assert params[..n][i] == params[i] && args[..n][i] == args[i];
      }
    }
  }

  ghost predicate Accepted(params: seq<string>, args: seq<int32>, body: seq<Stmt>) {
    |params| == |args| && Distinct(params) && BlockScoped(body, ParamSet(params))
  }

  function Start(args: seq<int32>): Config { Running(0, ArgEnv(args)) }

  // The last step of a run that reaches the end of the body.
  lemma FinishRun(prog: Program, g': Gen, args: seq<int32>, out: Outcome, fuel: nat, vars: set<string>, n: nat, env': Env, isVoid: bool)
    returns (m: nat)
    requires Simulates(prog, 0, ArgEnv(args), out, fuel, g', vars, n, env')
    requires prog == if isVoid then g'.code + [Ret(None)] else g'.code
    ensures var c := Run(prog, Start(args), m);
            match out
            case Returned(v) => c == Halted(v)
            case Normal(_) => if isVoid then c == Halted(None) else c.OffTheEnd?
            case Timeout => c.Running? && m >= fuel
  {
    m := n;
    if out.Normal? {
      OneStep(prog, Running(|g'.code|, env'));
      RunAdd(prog, Start(args), n, 1);
      m := n + 1;
    }
  }

  lemma StartAgrees(params: seq<string>, args: seq<int32>)
    requires |params| == |args| && Distinct(params)
    ensures Agree(Gen([], |params|, ParamNames(params)), ParamSet(params), BindParams(params, args), ArgEnv(args))
  {
    var g := Gen([], |params|, ParamNames(params));
    var vars, senv, env := ParamSet(params), BindParams(params, args), ArgEnv(args);
    ParamsAgree(params, args);
    forall x | x in vars
      ensures x in g.names && g.names[x] < g.nv && params[g.names[x]] == x && Load(env, g.names[x]) == Get(senv, x)
    {
      var i: nat :| i < |params| && params[i] == x;
    }
  }

  lemma FunctionSim(params: seq<string>, args: seq<int32>, body: seq<Stmt>, isVoid: bool, fuel: nat) returns (n: nat)
    requires Accepted(params, args, body)
    ensures var c := Run(LowerFunction(params, body, isVoid), Start(args), n);
            match ExecFunction(params, args, body, isVoid, fuel)
            case Returned(v) => c == Halted(v)
            case Normal(_) => c.OffTheEnd?
            case Timeout => c.Running? && n >= fuel
  {
    var prog := LowerFunction(params, body, isVoid);
    var g := Gen([], |params|, ParamNames(params));
    var g' := LowerBlock(g, body);
    var vars, senv, env := ParamSet(params), BindParams(params, args), ArgEnv(args);
    StartAgrees(params, args);
    hide Agree, Reaches, ParamNames, BindParams, LowerBlock;
    var env';
    n, env' := BlockSim(prog, g, body, senv, env, vars, fuel);
    n := FinishRun(prog, g', args, ExecBlock(body, senv, fuel), fuel, BlockDeclares(body, vars), n, env', isVoid);
  }

  ghost predicate SourceReturns(params: seq<string>, args: seq<int32>, body: seq<Stmt>, isVoid: bool, v: Option<int32>)
    requires |params| == |args|
  {
    exists fuel: nat :: ExecFunction(params, args, body, isVoid, fuel) == Returned(v)
  }

  ghost predicate CodeReturns(prog: Program, args: seq<int32>, v: Option<int32>) {
    exists k: nat :: Run(prog, Start(args), k) == Halted(v)
  }

  ghost predicate SourceFallsOff(params: seq<string>, args: seq<int32>, body: seq<Stmt>, isVoid: bool)
    requires |params| == |args|
  {
    exists fuel: nat :: ExecFunction(params, args, body, isVoid, fuel).Normal?
  }

  ghost predicate CodeFallsOff(prog: Program, args: seq<int32>) {
    exists k: nat :: Run(prog, Start(args), k).OffTheEnd?
  }

  // When the code has stopped after k instructions, the source stops in the
  // same way with k + 1 units of fuel.
  lemma StoppedCode(params: seq<string>, args: seq<int32>, body: seq<Stmt>, isVoid: bool, k: nat)
    requires Accepted(params, args, body)
    requires !Run(LowerFunction(params, body, isVoid), Start(args), k).Running?
    ensures match Run(LowerFunction(params, body, isVoid), Start(args), k)
            case Halted(v) => ExecFunction(params, args, body, isVoid, k + 1) == Returned(v)
            case OffTheEnd(_) => ExecFunction(params, args, body, isVoid, k + 1).Normal?
            case Running(_, _) => true
  {
    var prog := LowerFunction(params, body, isVoid);
    var n := FunctionSim(params, args, body, isVoid, k + 1);
    if n <= k && !Run(prog, Start(args), n).Running? {
      RunStaysStopped(prog, Start(args), n, k);
    } else if k <= n {
      RunStaysStopped(prog, Start(args), k, n);
    }
  }

  // The compiled function returns v exactly when the source function does, and
  // runs off its end exactly when the source does; so one runs forever exactly
  // when the other does.
  lemma LoweringPreservesMeaning(params: seq<string>, args: seq<int32>, body: seq<Stmt>, isVoid: bool)
    requires Accepted(params, args, body)
    ensures forall v :: SourceReturns(params, args, body, isVoid, v) <==> CodeReturns(LowerFunction(params, body, isVoid), args, v)
    ensures SourceFallsOff(params, args, body, isVoid) <==> CodeFallsOff(LowerFunction(params, body, isVoid), args)
  {
    var prog := LowerFunction(params, body, isVoid);
    forall v ensures SourceReturns(params, args, body, isVoid, v) <==> CodeReturns(prog, args, v) {
      if SourceReturns(params, args, body, isVoid, v) {
        var fuel: nat :| ExecFunction(params, args, body, isVoid, fuel) == Returned(v);
        var n := FunctionSim(params, args, body, isVoid, fuel);
      }
      if CodeReturns(prog, args, v) {
        var k: nat :| Run(prog, Start(args), k) == Halted(v);
        StoppedCode(params, args, body, isVoid, k);
      }
    }
    if SourceFallsOff(params, args, body, isVoid) {
      var fuel: nat :| ExecFunction(params, args, body, isVoid, fuel).Normal?;
      var n := FunctionSim(params, args, body, isVoid, fuel);
    }
    if CodeFallsOff(prog, args) {
      var k: nat :| Run(prog, Start(args), k).OffTheEnd?;
      StoppedCode(params, args, body, isVoid, k);
    }
  }
}
