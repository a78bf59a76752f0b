// In the code that lib/middle_end/ir/gen.c generates every variable is allocated
// before it is used, in the order of the list, so that lib/middle_end/ir/type.c
// types every symbol.
module LoweredTypes {
  import opened Int32
  import opened Ir
  import opened Ast
  import opened Lowering
  import opened LoweringCorrect
  import opened TypePass

  // All indices handed out so far are allocated before position p.
  ghost predicate AllDeclared(prog: Program, params: nat, p: nat, n: nat) {
    p <= |prog| && forall v: nat :: v < n ==> Declared(prog, params, p, v)
  }

  ghost predicate UsesOk(prog: Program, params: nat, a: nat, b: nat) {
    a <= b <= |prog| && forall p: nat :: a <= p < b ==> DeclaredAt(prog, params, p)
  }

  ghost predicate NamesBelow(g: Gen, vars: set<string>) {
    forall x :: x in vars ==> x in g.names && g.names[x] < g.nv
  }

  // The state in which a piece of source is lowered.
  ghost predicate Ready(prog: Program, params: nat, g: Gen, vars: set<string>) {
    AllDeclared(prog, params, |g.code|, g.nv) && NamesBelow(g, vars)
  }

  lemma LaterDeclared(prog: Program, params: nat, p: nat, q: nat, n: nat)
    requires AllDeclared(prog, params, p, n) && p <= q <= |prog|
    ensures AllDeclared(prog, params, q, n)
  {
    forall v: nat | v < n ensures Declared(prog, params, q, v) {
      assert Declared(prog, params, p, v);
    }
  }

  lemma AllocaDeclares(prog: Program, params: nat, p: nat, n: nat)
    requires AllDeclared(prog, params, p, n) && p < |prog| && prog[p] == Alloca(n)
    ensures AllDeclared(prog, params, p + 1, n + 1) && UsesOk(prog, params, p, p + 1)
  {
    LaterDeclared(prog, params, p, p + 1, n);
    assert Declared(prog, params, p + 1, n);
  }

  lemma UsesJoin(prog: Program, params: nat, a: nat, b: nat, c: nat)
    requires UsesOk(prog, params, a, b) && UsesOk(prog, params, b, c)
    ensures UsesOk(prog, params, a, c)
  {
  }

  // An instruction that only uses variables below n.
  ghost predicate UsesBelow(i: Instr, n: nat) {
    forall v: nat :: Uses(i, v) ==> v < n
  }

  lemma UsesOne(prog: Program, params: nat, p: nat, n: nat)
    requires AllDeclared(prog, params, p, n) && p < |prog| && UsesBelow(prog[p], n)
    ensures UsesOk(prog, params, p, p + 1) && AllDeclared(prog, params, p + 1, n)
  {
    LaterDeclared(prog, params, p, p + 1, n);
  }

  predicate OperandBelow(o: Operand, n: nat) { o.Sym? ==> o.idx < n }

  lemma {:induction false} ExprUses(prog: Program, params: nat, g: Gen, e: Expr, vars: set<string>)
    requires Placed(prog, |g.code|, LowerExpr(g, e).0.code) && Scoped(e, vars) && Ready(prog, params, g, vars)
    ensures var (g1, o) := LowerExpr(g, e);
            && UsesOk(prog, params, |g.code|, |g1.code|) && Ready(prog, params, g1, vars)
            && OperandBelow(o, g1.nv) && g.nv <= g1.nv
    decreases e
  {
    if e.Binary? {
      hide AllDeclared, UsesOk, Placed, UsesBelow;
      var g0 := Emit(g, Alloca(g.nv)).(nv := g.nv + 1);
      var (g1, lo) := LowerExpr(g0, e.lhs);
      var (g2, ro) := LowerExpr(g1, e.rhs);
      BinaryPlaced(prog, g, e);
      AllocaDeclares(prog, params, |g.code|, g.nv);
      ExprUses(prog, params, g0, e.lhs, vars);
      ExprUses(prog, params, g1, e.rhs, vars);
      BinStoreBelow(g.nv, e.op, lo, ro, g2.nv);
      UsesOne(prog, params, |g2.code|, g2.nv);
      UsesJoin(prog, params, |g.code|, |g0.code|, |g1.code|);
      UsesJoin(prog, params, |g.code|, |g1.code|, |g2.code|);
      UsesJoin(prog, params, |g.code|, |g2.code|, |g2.code| + 1);
    }
  }

  lemma BinStoreBelow(t: nat, op: BinOp, l: Operand, r: Operand, n: nat)
    requires t < n && OperandBelow(l, n) && OperandBelow(r, n)
    ensures UsesBelow(Store(t, Bin(op, l, r)), n)
  {
  }

  lemma GuardUses(prog: Program, params: nat, g: Gen, c: Expr, vars: set<string>, exit: nat)
    requires GuardPlaced(prog, g, c, exit) && Scoped(c, vars) && Ready(prog, params, g, vars)
    ensures var gb := LowerGuard(g, c);
            UsesOk(prog, params, |g.code|, |gb.code|) && Ready(prog, params, gb, vars) && g.nv <= gb.nv
  {
    hide AllDeclared, UsesOk, LowerExpr;
    var (g1, o) := LowerExpr(g, c);
    var gb := LowerGuard(g, c);
    var k := |g1.code|;
    ExprExtends(g, c);
    assert gb.code == g1.code + [Cond(NotZero(o), k + 2), UNPATCHED];
    assert prog[k] == gb.code[k];
    ExprUses(prog, params, g, c, vars);
    UsesOne(prog, params, k, g1.nv);
    UsesOne(prog, params, k + 1, g1.nv);
    UsesJoin(prog, params, |g.code|, k, k + 1);
    UsesJoin(prog, params, |g.code|, k + 1, k + 2);
  }

  lemma {:induction false} StmtUses(prog: Program, params: nat, g: Gen, s: Stmt, vars: set<string>)
    requires Placed(prog, |g.code|, LowerStmt(g, s).code) && WellScoped(s, vars) && Ready(prog, params, g, vars)
    ensures UsesOk(prog, params, |g.code|, |LowerStmt(g, s).code|)
    ensures Ready(prog, params, LowerStmt(g, s), Declares(s, vars)) && g.nv <= LowerStmt(g, s).nv
    decreases s, 1
  {
    hide GuardPlaced, LowerGuard, LowerBlock, AllDeclared;
    match s
    case VarDecl(_, _) => SimpleUses(prog, params, g, s, vars);
    case Assign(_, _) => SimpleUses(prog, params, g, s, vars);
    case IncDec(_, _) => SimpleUses(prog, params, g, s, vars);
    case Eval(_) => SimpleUses(prog, params, g, s, vars);
    case Return(_) => SimpleUses(prog, params, g, s, vars);
    case If(_, _, _) => IfUses(prog, params, g, s, vars);
    case While(c, body) =>
      hide UsesOk, Placed, LowerStmt, NamesBelow;
      WhilePlaced(prog, g, s);
      var gb, r := LowerGuard(g, c), LowerStmt(g, s);
      var g2 := LowerBlock(gb, body);
      GuardUses(prog, params, g, c, vars, |r.code|);
      BlockUses(prog, params, gb, body, vars);
      UsesOne(prog, params, |g2.code|, g2.nv);
      StaysBelow(g2, r, vars);
      UsesJoin(prog, params, |g.code|, |gb.code|, |g2.code|);
      UsesJoin(prog, params, |g.code|, |g2.code|, |r.code|);
    case DoWhile(body, c) =>
      hide UsesOk, LowerStmt, NamesBelow;
      DoWhilePlaced(prog, g, s);
      var gb, r := LowerBlock(g, body), LowerStmt(g, s);
      var g1 := LowerExpr(gb, c).0;
      BlockUses(prog, params, g, body, vars);
      ExprUses(prog, params, gb, c, vars);
      UsesOne(prog, params, |g1.code|, g1.nv);
      StaysBelow(g1, r, vars);
      ExprExtends(gb, c);
      UsesJoin(prog, params, |g.code|, |gb.code|, |g1.code|);
      UsesJoin(prog, params, |g.code|, |g1.code|, |r.code|);
    case For(_, _, _, _) => ForUses(prog, params, g, s, vars);
    case Block(ss) =>
      BlockUses(prog, params, g, ss, vars);
  }

  lemma StaysBelow(g: Gen, r: Gen, vars: set<string>)
    requires NamesBelow(g, vars) && r.names == g.names && g.nv <= r.nv
    ensures NamesBelow(r, vars)
  {
  }

  // Straight code of an expression with one instruction behind it.
  lemma ExprThen(prog: Program, params: nat, g: Gen, e: Expr, vars: set<string>, code: Program)
    requires Placed(prog, |g.code|, code) && |code| == |LowerExpr(g, e).0.code| + 1
    requires code[..|code| - 1] == LowerExpr(g, e).0.code && Scoped(e, vars) && Ready(prog, params, g, vars)
    requires var (g1, o) := LowerExpr(g, e); OperandBelow(o, g1.nv) && g.nv <= g1.nv ==> UsesBelow(code[|code| - 1], g1.nv)
    ensures UsesOk(prog, params, |g.code|, |code|) && AllDeclared(prog, params, |code|, LowerExpr(g, e).0.nv)
    ensures g.nv <= LowerExpr(g, e).0.nv && LowerExpr(g, e).0.names == g.names && |g.code| < |code|
  {
    hide AllDeclared, UsesOk, UsesBelow;
    var g1 := LowerExpr(g, e).0;
    ExprExtends(g, e);
    PlacedPrefix(prog, |g.code|, g1.code, code);
    ExprUses(prog, params, g, e, vars);
    assert prog[|g1.code|] == code[|code| - 1];
    UsesOne(prog, params, |g1.code|, g1.nv);
    UsesJoin(prog, params, |g.code|, |g1.code|, |code|);
  }

  lemma SimpleUses(prog: Program, params: nat, g: Gen, s: Stmt, vars: set<string>)
    requires s.VarDecl? || s.Assign? || s.IncDec? || s.Eval? || s.Return?
    requires Placed(prog, |g.code|, LowerStmt(g, s).code) && WellScoped(s, vars) && Ready(prog, params, g, vars)
    ensures UsesOk(prog, params, |g.code|, |LowerStmt(g, s).code|)
    ensures Ready(prog, params, LowerStmt(g, s), Declares(s, vars)) && g.nv <= LowerStmt(g, s).nv
  {
    hide AllDeclared, UsesOk, LowerExpr, Extends;
    var r := LowerStmt(g, s);
    match s
    case VarDecl(x, init) => DeclUses(prog, params, g, s, vars);
    case Assign(_, e) => ExprThen(prog, params, g, e, vars, r.code);
    case IncDec(_, _) => UsesOne(prog, params, |g.code|, g.nv);
    case Eval(e) => ExprUses(prog, params, g, e, vars);
    case Return(v) =>
      if v.Some? {
        ExprThen(prog, params, g, v.value, vars, r.code);
      } else {
        UsesOne(prog, params, |g.code|, g.nv);
      }
  }

  lemma DeclUses(prog: Program, params: nat, g: Gen, s: Stmt, vars: set<string>)
    requires s.VarDecl?
    requires Placed(prog, |g.code|, LowerStmt(g, s).code) && WellScoped(s, vars) && Ready(prog, params, g, vars)
    ensures UsesOk(prog, params, |g.code|, |LowerStmt(g, s).code|)
    ensures Ready(prog, params, LowerStmt(g, s), Declares(s, vars)) && g.nv <= LowerStmt(g, s).nv
  {
    hide AllDeclared, UsesOk, LowerExpr, Extends;
    var r := LowerStmt(g, s);
    var g0 := Emit(g, Alloca(g.nv)).(nv := g.nv + 1, names := g.names[s.name := g.nv]);
    assert NamesBelow(g0, vars + {s.name});
    if s.init.Some? {
      ExprExtends(g0, s.init.value);
      FirstStays(g0, LowerExpr(g0, s.init.value).0, |g.code|);
      assert prog[|g.code|] == r.code[|g.code|] == Alloca(g.nv);
      AllocaDeclares(prog, params, |g.code|, g.nv);
      ExprThen(prog, params, g0, s.init.value, vars + {s.name}, r.code);
      UsesJoin(prog, params, |g.code|, |g0.code|, |r.code|);
    } else {
      AllocaDeclares(prog, params, |g.code|, g.nv);
    }
  }

  lemma FirstStays(a: Gen, b: Gen, i: nat)
    requires Extends(a, b) && i < |a.code|
    ensures |a.code| <= |b.code| && b.code[i] == a.code[i]
  {
    ExtendsStretch(a, b);
  }

  lemma {:induction false} IfUses(prog: Program, params: nat, g: Gen, s: Stmt, vars: set<string>)
    requires s.If?
    requires Placed(prog, |g.code|, LowerStmt(g, s).code) && WellScoped(s, vars) && Ready(prog, params, g, vars)
    ensures UsesOk(prog, params, |g.code|, |LowerStmt(g, s).code|)
    ensures Ready(prog, params, LowerStmt(g, s), vars) && g.nv <= LowerStmt(g, s).nv
    decreases s, 0
  {
    hide GuardPlaced, LowerGuard, LowerBlock, UsesOk, LowerStmt, AllDeclared, NamesBelow;
    IfPlaced(prog, g, s);
    var gb, r := LowerGuard(g, s.cond), LowerStmt(g, s);
    var g2 := LowerBlock(gb, s.thn);
    if s.els.NoElse? {
      GuardUses(prog, params, g, s.cond, vars, |g2.code|);
      BlockUses(prog, params, gb, s.thn, vars);
      StaysBelow(g2, r, vars);
      UsesJoin(prog, params, |g.code|, |gb.code|, |g2.code|);
      NvOfIf(g, s);
    } else {
      var g3 := Emit(Patch(g2, |gb.code| - 1, Jump(|g2.code| + 1)), UNPATCHED);
      var g4 := LowerBlock(g3, s.els.stmts);
      GuardUses(prog, params, g, s.cond, vars, |g3.code|);
      BlockUses(prog, params, gb, s.thn, vars);
      UsesOne(prog, params, |g2.code|, g2.nv);
      StaysBelow(g2, g3, vars);
      BlockUses(prog, params, g3, s.els.stmts, vars);
      StaysBelow(g4, r, vars);
      UsesJoin(prog, params, |g.code|, |gb.code|, |g2.code|);
      UsesJoin(prog, params, |g.code|, |g2.code|, |g3.code|);
      UsesJoin(prog, params, |g.code|, |g3.code|, |r.code|);
    }
  }

  lemma NvOfIf(g: Gen, s: Stmt)
    requires s.If? && s.els.NoElse?
    ensures LowerStmt(g, s).nv == LowerBlock(LowerGuard(g, s.cond), s.thn).nv
  {
  }

  lemma {:induction false} ForUses(prog: Program, params: nat, g: Gen, s: Stmt, vars: set<string>)
    requires s.For?
    requires Placed(prog, |g.code|, LowerStmt(g, s).code) && WellScoped(s, vars) && Ready(prog, params, g, vars)
    ensures UsesOk(prog, params, |g.code|, |LowerStmt(g, s).code|)
    ensures Ready(prog, params, LowerStmt(g, s), vars) && g.nv <= LowerStmt(g, s).nv
    decreases s, 0
  {
    hide GuardPlaced, LowerGuard, LowerBlock, UsesOk, LowerStmt, AllDeclared, NamesBelow;
    ForPlaced(prog, g, s);
    var g0, gb, g2, g3, r := ForStart(g, s), ForBody(g, s), ForNext(g, s), ForEnd(g, s), LowerStmt(g, s);
    var inner := ForScope(s, vars);
    if s.first.Some? { StmtUses(prog, params, g, s.first.value, vars); } else { UsesEmpty(prog, params, |g.code|); }
    if s.forCond.Some? {
      GuardUses(prog, params, g0, s.forCond.value, inner, |r.code|);
    } else {
      UsesEmpty(prog, params, |g0.code|);
    }
    BlockUses(prog, params, gb, s.body, inner);
    if s.next.Some? { StmtUses(prog, params, g2, s.next.value, inner); } else { UsesEmpty(prog, params, |g2.code|); }
    UsesOne(prog, params, |g3.code|, g3.nv);
    FewerNames(g3, r, vars, inner);
    UsesJoin(prog, params, |g.code|, |g0.code|, |gb.code|);
    UsesJoin(prog, params, |g.code|, |gb.code|, |g2.code|);
    UsesJoin(prog, params, |g.code|, |g2.code|, |g3.code|);
    UsesJoin(prog, params, |g.code|, |g3.code|, |r.code|);
  }

  lemma UsesEmpty(prog: Program, params: nat, a: nat)
    requires a <= |prog|
    ensures UsesOk(prog, params, a, a)
  {
  }

  lemma FewerNames(g: Gen, r: Gen, vars: set<string>, inner: set<string>)
    requires NamesBelow(g, inner) && vars <= inner && r.names == g.names && g.nv <= r.nv
    ensures NamesBelow(r, vars)
  {
  }

  // Afterwards the block's own declarations are in force, and with them all
  // those from outside.
  lemma {:induction false} BlockUses(prog: Program, params: nat, g: Gen, ss: seq<Stmt>, vars: set<string>)
    requires Placed(prog, |g.code|, LowerBlock(g, ss).code) && BlockScoped(ss, vars) && Ready(prog, params, g, vars)
    ensures UsesOk(prog, params, |g.code|, |LowerBlock(g, ss).code|) && g.nv <= LowerBlock(g, ss).nv
    ensures Ready(prog, params, LowerBlock(g, ss), BlockDeclares(ss, vars)) && Ready(prog, params, LowerBlock(g, ss), vars)
    ensures vars <= BlockDeclares(ss, vars)
    decreases ss, 0
  {
    if ss == [] {
      UsesEmpty(prog, params, |g.code|);
    } else {
      var init, last := ss[..|ss| - 1], ss[|ss| - 1];
      BlockSplit(prog, g, ss);
      hide UsesOk, Placed, LowerStmt, AllDeclared;
      var g0 := LowerBlock(g, init);
      BlockUses(prog, params, g, init, vars);
      StmtUses(prog, params, g0, last, BlockDeclares(init, vars));
      UsesJoin(prog, params, |g.code|, |g0.code|, |LowerBlock(g, ss).code|);
    }
  }

  lemma {:induction false} ParamsBelow(params: seq<string>, x: string)
    ensures x in ParamNames(params) <==> x in params
    ensures x in params ==> ParamNames(params)[x] < |params|
    decreases |params|
  {
    if params != [] {
      ParamsBelow(params[..|params| - 1], x);
      assert params == params[..|params| - 1] + [params[|params| - 1]];
    }
  }

  // Every function that passes the declaration checks.
  lemma LoweredDeclares(params: seq<string>, body: seq<Stmt>, isVoid: bool)
    requires BlockScoped(body, set x | x in params)
    ensures DeclaredBeforeUse(LowerFunction(params, body, isVoid), |params|)
  {
    hide LowerBlock, BlockScoped;
    var prog := LowerFunction(params, body, isVoid);
    var g := Gen([], |params|, ParamNames(params));
    forall x | x in params ensures x in g.names && g.names[x] < g.nv {
      ParamsBelow(params, x);
    }
    BlockUses(prog, |params|, g, body, set x | x in params);
    if isVoid {
      UsesOne(prog, |params|, |prog| - 1, LowerBlock(g, body).nv);
    }
  }
}
