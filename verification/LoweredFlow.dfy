// From structured code to dominators: what lib/middle_end/ir/gen.c generates is
// linked into a flow graph, and whether lib/middle_end/ir/dom.c gets its
// dominators right depends on where the source returns.
module LoweredFlow {
  import opened Options
  import opened Ir
  import opened Ast
  import opened Lowering
  import opened LoweringCorrect
  import opened FlowGraph
  import opened CfgLink
  import opened LoweredTargets
  import IrDominators
  import DominanceFrontier

  // ---- Reachability ----

  ghost predicate Live(prog: Program, i: nat) {
    i < |prog| ==> Reachable(SuccsGraph(prog), 0, i)
  }

  ghost predicate LiveCode(prog: Program, a: nat, b: nat) {
    a <= b <= |prog| && forall i: nat :: a <= i < b ==> Live(prog, i) && !prog[i].Ret?
  }

  lemma NextLive(prog: Program, i: nat)
    requires i < |prog| && Live(prog, i) && !prog[i].Jump? && !prog[i].Ret?
    ensures Live(prog, i + 1)
  {
    if i + 1 < |prog| {
      ReachableStep(SuccsGraph(prog), 0, i, i + 1);
    }
  }

  lemma AimLive(prog: Program, i: nat, t: nat)
    requires i < |prog| && Live(prog, i) && (prog[i] == Jump(t) || (prog[i].Cond? && prog[i].target == t))
    ensures Live(prog, t)
  {
    if t < |prog| {
      ReachableStep(SuccsGraph(prog), 0, i, t);
    }
  }

  lemma {:induction false} StraightLive(prog: Program, a: nat, b: nat)
    requires Straight(prog, a, b) && Live(prog, a)
    ensures LiveCode(prog, a, b) && Live(prog, b)
    decreases b - a
  {
    hide Live;
    if a < b {
      NextLive(prog, a);
      StraightLive(prog, a + 1, b);
    }
  }

  lemma LiveJoin(prog: Program, a: nat, b: nat, c: nat)
    requires LiveCode(prog, a, b) && LiveCode(prog, b, c)
    ensures LiveCode(prog, a, c)
  {
  }

  lemma LiveOne(prog: Program, a: nat)
    requires a < |prog| && Live(prog, a) && !prog[a].Ret?
    ensures LiveCode(prog, a, a + 1)
  {
  }

  lemma LiveEmpty(prog: Program, a: nat)
    requires a <= |prog|
    ensures LiveCode(prog, a, a)
  {
  }

  // A guard leads both on and out.
  lemma GuardLive(prog: Program, g: Gen, c: Expr, exit: nat)
    requires GuardPlaced(prog, g, c, exit) && Live(prog, |g.code|)
    ensures LiveCode(prog, |g.code|, |LowerGuard(g, c).code|)
    ensures Live(prog, |LowerGuard(g, c).code|) && Live(prog, exit)
  {
    GuardShape(prog, g, c, exit);
    hide GuardPlaced, LowerGuard, LowerExpr, Live;
    var k := |LowerExpr(g, c).0.code|;
    StraightLive(prog, |g.code|, k);
    NextLive(prog, k);
    AimLive(prog, k, k + 2);
    AimLive(prog, k + 1, exit);
    LiveOne(prog, k);
    LiveOne(prog, k + 1);
    LiveJoin(prog, |g.code|, k, k + 1);
    LiveJoin(prog, |g.code|, k + 1, k + 2);
  }

  // No return, and no for without a condition: the end of the statement can be
  // reached as far as its form tells.
  predicate Flows(s: Stmt)
    decreases s, 1
  {
    match s
    case If(_, thn, els) => BlockFlows(thn) && (els.Else? ==> BlockFlows(els.stmts))
    case While(_, body) => BlockFlows(body)
    case DoWhile(body, _) => BlockFlows(body)
    case For(first, c, next, body) =>
      && c.Some? && BlockFlows(body)
      && (first.Some? ==> Flows(first.value)) && (next.Some? ==> Flows(next.value))
    case Block(ss) => BlockFlows(ss)
    case Return(_) => false
    case _ => true
  }

  predicate BlockFlows(ss: seq<Stmt>)
    decreases ss, 0
  {
    ss == [] || (BlockFlows(ss[..|ss| - 1]) && Flows(ss[|ss| - 1]))
  }

  // All of its code is reachable, and so is what follows.
  lemma {:induction false} StmtLive(prog: Program, g: Gen, s: Stmt)
    requires Flows(s) && Placed(prog, |g.code|, LowerStmt(g, s).code) && Live(prog, |g.code|)
    ensures LiveCode(prog, |g.code|, |LowerStmt(g, s).code|) && Live(prog, |LowerStmt(g, s).code|)
    decreases s, 1
  {
    hide GuardPlaced, LowerGuard, LowerBlock, Live;
    match s
    case VarDecl(_, _) => SimpleLive(prog, g, s);
    case Assign(_, _) => SimpleLive(prog, g, s);
    case IncDec(_, _) => SimpleLive(prog, g, s);
    case Eval(_) => SimpleLive(prog, g, s);
    case If(_, _, _) => IfLive(prog, g, s);
    case While(c, body) =>
      hide LiveCode, Placed, LowerStmt;
      WhilePlaced(prog, g, s);
      var gb, r := LowerGuard(g, c), LowerStmt(g, s);
      var g2 := LowerBlock(gb, body);
      GuardLive(prog, g, c, |r.code|);
      BlockLive(prog, gb, body);
      LiveOne(prog, |g2.code|);
      LiveJoin(prog, |g.code|, |gb.code|, |g2.code|);
      LiveJoin(prog, |g.code|, |g2.code|, |r.code|);
    case DoWhile(body, c) =>
      hide LiveCode, LowerStmt;
      DoWhilePlaced(prog, g, s);
      var gb, r := LowerBlock(g, body), LowerStmt(g, s);
      var g1 := LowerExpr(gb, c).0;
      BlockLive(prog, g, body);
      ExprStraight(prog, gb, c);
      StraightLive(prog, |gb.code|, |g1.code|);
      NextLive(prog, |g1.code|);
      LiveOne(prog, |g1.code|);
      LiveJoin(prog, |g.code|, |gb.code|, |g1.code|);
      LiveJoin(prog, |g.code|, |g1.code|, |r.code|);
    case For(_, _, _, _) => ForLive(prog, g, s);
    case Block(ss) => BlockLive(prog, g, ss);
  }

  lemma SimpleLive(prog: Program, g: Gen, s: Stmt)
    requires s.VarDecl? || s.Assign? || s.IncDec? || s.Eval?
    requires Placed(prog, |g.code|, LowerStmt(g, s).code) && Live(prog, |g.code|)
    ensures LiveCode(prog, |g.code|, |LowerStmt(g, s).code|) && Live(prog, |LowerStmt(g, s).code|)
  {
    hide LowerStmt, Placed, Live, LiveCode;
    SimpleShape(prog, g, s);
    StraightLive(prog, |g.code|, |LowerStmt(g, s).code|);
  }

  lemma {:induction false} IfLive(prog: Program, g: Gen, s: Stmt)
    requires s.If? && Flows(s) && Placed(prog, |g.code|, LowerStmt(g, s).code) && Live(prog, |g.code|)
    ensures LiveCode(prog, |g.code|, |LowerStmt(g, s).code|) && Live(prog, |LowerStmt(g, s).code|)
    decreases s, 0
  {
    hide GuardPlaced, LowerGuard, LowerBlock, LiveCode, LowerStmt, Live;
    IfPlaced(prog, g, s);
    var gb, r := LowerGuard(g, s.cond), LowerStmt(g, s);
    var g2 := LowerBlock(gb, s.thn);
    if s.els.NoElse? {
      GuardLive(prog, g, s.cond, |g2.code|);
      BlockLive(prog, gb, s.thn);
      LiveJoin(prog, |g.code|, |gb.code|, |g2.code|);
    } else {
      var g3 := Emit(Patch(g2, |gb.code| - 1, Jump(|g2.code| + 1)), UNPATCHED);
      GuardLive(prog, g, s.cond, |g3.code|);
      BlockLive(prog, gb, s.thn);
      LiveOne(prog, |g2.code|);
      BlockLive(prog, g3, s.els.stmts);
      LiveJoin(prog, |g.code|, |gb.code|, |g2.code|);
      LiveJoin(prog, |g.code|, |g2.code|, |g3.code|);
      LiveJoin(prog, |g.code|, |g3.code|, |r.code|);
    }
  }

  lemma {:induction false} ForLive(prog: Program, g: Gen, s: Stmt)
    requires s.For? && Flows(s) && Placed(prog, |g.code|, LowerStmt(g, s).code) && Live(prog, |g.code|)
    ensures LiveCode(prog, |g.code|, |LowerStmt(g, s).code|) && Live(prog, |LowerStmt(g, s).code|)
    decreases s, 0
  {
    hide GuardPlaced, LowerGuard, LowerBlock, LiveCode, LowerStmt, Live;
    ForPlaced(prog, g, s);
    var g0, gb, g2, g3, r := ForStart(g, s), ForBody(g, s), ForNext(g, s), ForEnd(g, s), LowerStmt(g, s);
    if s.first.Some? { StmtLive(prog, g, s.first.value); } else { LiveEmpty(prog, |g.code|); }
    GuardLive(prog, g0, s.forCond.value, |r.code|);
    BlockLive(prog, gb, s.body);
    if s.next.Some? { StmtLive(prog, g2, s.next.value); } else { LiveEmpty(prog, |g2.code|); }
    LiveOne(prog, |g3.code|);
    LiveJoin(prog, |g.code|, |g0.code|, |gb.code|);
    LiveJoin(prog, |g.code|, |gb.code|, |g2.code|);
    LiveJoin(prog, |g.code|, |g2.code|, |g3.code|);
    LiveJoin(prog, |g.code|, |g3.code|, |r.code|);
  }

  lemma {:induction false} BlockLive(prog: Program, g: Gen, ss: seq<Stmt>)
    requires BlockFlows(ss) && Placed(prog, |g.code|, LowerBlock(g, ss).code) && Live(prog, |g.code|)
    ensures LiveCode(prog, |g.code|, |LowerBlock(g, ss).code|) && Live(prog, |LowerBlock(g, ss).code|)
    decreases ss, 0
  {
    if ss == [] {
      LiveEmpty(prog, |g.code|);
    } else {
      BlockSplit(prog, g, ss);
      hide LiveCode, Placed, LowerStmt, Live;
      var g0 := LowerBlock(g, ss[..|ss| - 1]);
      BlockLive(prog, g, ss[..|ss| - 1]);
      StmtLive(prog, g0, ss[|ss| - 1]);
      LiveJoin(prog, |g.code|, |g0.code|, |LowerBlock(g, ss).code|);
    }
  }

  // ---- Functions ----

  // A void function that does not return early, or another one that returns at
  // its end and nowhere else.
  predicate ReturnsAtEnd(body: seq<Stmt>, isVoid: bool) {
    if isVoid then BlockFlows(body)
    else body != [] && body[|body| - 1].Return? && BlockFlows(body[..|body| - 1])
  }

  ghost predicate GoodFlow(prog: Program) {
    && prog != [] && Linkable(prog) && CondsFollowed(prog) && OnlyRetsFollowRets(prog)
    && forall i: nat :: i < |prog| ==> Reachable(SuccsGraph(prog), 0, i)
  }

  // When it returns only at its end, all of its code is reachable.
  lemma LoweredFlows(params: seq<string>, body: seq<Stmt>, isVoid: bool)
    requires ReturnsAtEnd(body, isVoid)
    ensures GoodFlow(LowerFunction(params, body, isVoid))
  {
    hide LowerBlock, LowerStmt, BlockFlows, LeadsOut;
    var prog := LowerFunction(params, body, isVoid);
    var g := Gen([], |params|, ParamNames(params));
    LoweredIsLinkable(params, body, isVoid);
    EntryLive(prog);
    hide LiveCode, Live;
    if isVoid {
      BlockLive(prog, g, body);
    } else {
      ReturnStays(body[|body| - 1]);
      BlockSplit(prog, g, body);
      LastLower(g, body);
      var init := body[..|body| - 1];
      var g0 := LowerBlock(g, init);
      BlockLive(prog, g, init);
      SimpleShape(prog, g0, body[|body| - 1]);
      StraightLive(prog, |g0.code|, |prog| - 1);
      LiveJoin(prog, 0, |g0.code|, |prog| - 1);
    }
    AllLive(prog);
  }

  lemma AllLive(prog: Program)
    requires prog != [] && Linkable(prog) && prog[|prog| - 1].Ret? && LiveCode(prog, 0, |prog| - 1) && Live(prog, |prog| - 1)
    ensures GoodFlow(prog)
  {
    forall i: nat | i < |prog| ensures Reachable(SuccsGraph(prog), 0, i) {
      assert Live(prog, i);
    }
  }

  lemma ReturnStays(s: Stmt)
    requires s.Return?
    ensures !LeadsOut(s) && !Silent(s)
  {
  }

  lemma EntryLive(prog: Program)
    ensures Live(prog, 0)
  {
    if prog != [] { PathSingle(SuccsGraph(prog), 0); }
  }

  // ---- The analyses on generated code ----

  // link(), ir_dominator_tree() and ir_dominance_frontier() one after the other,
  // on a function that returns only at its end: all three are right.
  method Analyse(params: seq<string>, body: seq<Stmt>, isVoid: bool, order: seq<nat>)
    returns (succs: Graph, idom: seq<nat>, df: seq<seq<nat>>)
    requires ReturnsAtEnd(body, isVoid) && |LowerFunction(params, body, isVoid)| < 512
    requires Enumerates(order, |LowerFunction(params, body, isVoid)|)
    ensures succs == SuccsGraph(LowerFunction(params, body, isVoid)) && |df| == |idom| == |succs|
    ensures forall v: nat :: 0 < v < |succs| ==> IsIdom(succs, 0, idom[v], v)
    ensures forall x: nat, y: nat :: x < |succs| && 0 < y < |succs| ==>
              (y in df[x] <==> DominanceFrontier.InFrontier(succs, x, y))
  {
    var prog := LowerFunction(params, body, isVoid);
    LoweredFlows(params, body, isVoid);
    hide LowerFunction, ReturnsAtEnd, BlockFlows;
    var linked, preds;
    linked, succs, preds := Link(prog, order);
    LinkedIsFlowGraph(prog, preds);
    var back;
    idom, back := IrDominators.IrDominatorTree(succs);
    assert IrDominators.NoEdgeFromDeadCode(succs);
    df := DominanceFrontier.IrDominanceFrontier(succs, idom, preds);
  }

  // A return inside of a loop is enough to get the dominators wrong:
  //   f(int c) { int x; while (c) { return 1; } return 0; }
  // The jump back behind the return is dead, and it leads into the loop head.
  function EarlyReturn(): seq<Stmt> {
    [VarDecl("x", None), While(Symbol("c"), [Return(Some(Int(1)))]), Return(Some(Int(0)))]
  }

  function EarlyReturnCode(): Program {
    [Alloca(1), Cond(NotZero(Sym(0)), 3), Jump(5), Ret(Some(Imm(1))), Jump(1), Ret(Some(Imm(0)))]
  }

  lemma EarlyLoopLowered(g1: Gen)
    requires g1 == Gen([Alloca(1)], 2, map["c" := 0]["x" := 1])
    ensures LowerStmt(g1, EarlyReturn()[1]).code
            == [Alloca(1), Cond(NotZero(Sym(0)), 3), Jump(5), Ret(Some(Imm(1))), Jump(1)]
  {
    var gb := LowerGuard(g1, Symbol("c"));
    assert gb.code == [Alloca(1), Cond(NotZero(Sym(0)), 3), UNPATCHED];
    var inner := [Return(Some(Int(1)))];
    LastLower(gb, inner);
    assert inner[..0] == [];
    assert LowerBlock(gb, inner).code == gb.code + [Ret(Some(Imm(1)))];
  }

  lemma EarlyReturnLowered()
    ensures LowerFunction(["c"], EarlyReturn(), false) == EarlyReturnCode()
  {
    var body := EarlyReturn();
    var g := Gen([], 1, ParamNames(["c"]));
    assert ["c"][..0] == [];
    assert ParamNames(["c"]) == ParamNames([])["c" := 0] == map["c" := 0];
    assert body[..2] == [body[0], body[1]] && body[..2][..1] == [body[0]] && [body[0]][..0] == [];
    LastLower(g, body);
    LastLower(g, body[..2]);
    LastLower(g, [body[0]]);
    assert LowerBlock(g, []) == g;
    var g1 := LowerStmt(g, body[0]);
    EarlyDeclLowered(g);
    EarlyLoopLowered(g1);
    EarlyEndLowered(LowerStmt(g1, body[1]));
    hide LowerStmt, LowerBlock, LowerExpr, ParamNames;
  }

  lemma EarlyDeclLowered(g: Gen)
    requires g == Gen([], 1, map["c" := 0])
    ensures LowerStmt(g, EarlyReturn()[0]) == Gen([Alloca(1)], 2, map["c" := 0]["x" := 1])
  {
  }

  lemma EarlyEndLowered(g: Gen)
    ensures LowerStmt(g, EarlyReturn()[2]).code == g.code + [Ret(Some(Imm(0)))]
  {
  }

  // In the graph of that code the jump at 4 is dead and aims at 1, which is live.
  lemma EarlyReturnGraph(prog: Program)
    requires prog == EarlyReturnCode()
    ensures WellFormed(SuccsGraph(prog)) && Linkable(prog)
    ensures Edge(SuccsGraph(prog), 4, 1) && Reachable(SuccsGraph(prog), 0, 1) && !Reachable(SuccsGraph(prog), 0, 4)
  {
    var g := SuccsGraph(prog);
    assert Edge(g, 4, 1) && Edge(g, 0, 1);
    PathSingle(g, 0);
    ReachableStep(g, 0, 0, 1);
    if Reachable(g, 0, 4) {
      var p :| IsPath(g, p, 0, 4);
      ReachableInClosedSet(g, 0, {0, 1, 2, 3, 5}, p, 4);
    }
  }

  lemma EarlyReturnBreaksDominators()
    ensures var prog := LowerFunction(["c"], EarlyReturn(), false);
            && WellFormed(SuccsGraph(prog)) && Linkable(prog)
            && !IrDominators.NoEdgeFromDeadCode(SuccsGraph(prog)) && !OnlyRetsFollowRets(prog)
  {
    hide LowerFunction, SuccsGraph;
    EarlyReturnLowered();
    var prog := EarlyReturnCode();
    EarlyReturnGraph(prog);
    assert prog[3].Ret? && !prog[3 + 1].Ret?;
  }
}
