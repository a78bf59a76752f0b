// lib/middle_end/ir/gen.c for the int-only language of Ast: what is generated,
// as functions over the generator's state.
module Lowering {
  import opened Int32
  import opened Ir
  import opened Ast
  import opened Options

  // code is the instruction list so far, nv is ir_var_idx, names is the
  // name-to-index storage.
  datatype Gen = Gen(code: Program, nv: nat, names: map<string, nat>)

  function Emit(g: Gen, i: Instr): Gen { g.(code := g.code + [i]) }

  function Patch(g: Gen, at: nat, i: Instr): Gen
    requires at < |g.code|
  {
    g.(code := g.code[at := i])
  }

  function IndexOf(g: Gen, x: string): nat { if x in g.names then g.names[x] else 0 }

  // Comparison with zero, as every condition is emitted.
  function NotZero(o: Operand): Body { Bin(Neq, o, Imm(0)) }

  function LowerExpr(g: Gen, e: Expr): (Gen, Operand)
    decreases e
  {
    match e
    case Int(n) => (g, Imm(n))
    case Symbol(x) => (g, Sym(IndexOf(g, x)))
    case Binary(op, l, r) =>
      var t := g.nv;
      var g0 := Emit(g, Alloca(t)).(nv := t + 1);
      var (g1, lo) := LowerExpr(g0, l);
      var (g2, ro) := LowerExpr(g1, r);
      (Emit(g2, Store(t, Bin(op, lo, ro))), Sym(t))
  }

  // A jump whose target is not known yet.
  const UNPATCHED := Jump(0)

  // A condition that skips the exit jump behind it: the schema shared by if,
  // while and for.
  function LowerGuard(g: Gen, c: Expr): (r: Gen)
    ensures |r.code| >= |g.code| + 2
  {
    var (g1, o) := LowerExprLonger(g, c);
    Emit(Emit(g1, Cond(NotZero(o), |g1.code| + 2)), UNPATCHED)
  }

  function LowerStmt(g: Gen, s: Stmt): (r: Gen)
    ensures |g.code| <= |r.code|
    decreases s, 1
  {
    match s
    case VarDecl(x, init) =>
      var i := g.nv;
      var g0 := Emit(g, Alloca(i)).(nv := i + 1, names := g.names[x := i]);
      if init.None? then g0
      else
        var (g1, o) := LowerExprLonger(g0, init.value);
        Emit(g1, Store(i, Direct(o)))
    case Assign(x, e) =>
      var (g1, o) := LowerExprLonger(g, e);
      Emit(g1, Store(IndexOf(g, x), Direct(o)))
    case IncDec(x, isInc) =>
      var i := IndexOf(g, x);
      Emit(g, Store(i, Bin(if isInc then Plus else Minus, Sym(i), Imm(1))))
    case Eval(e) => LowerExprLonger(g, e).0
    case If(c, thn, els) =>
      var gb := LowerGuard(g, c);
      var g2 := LowerBlock(gb, thn);
      if els.NoElse? then
        Patch(g2, |gb.code| - 1, Jump(|g2.code|))
      else
        var g3 := Emit(Patch(g2, |gb.code| - 1, Jump(|g2.code| + 1)), UNPATCHED);
        var g4 := LowerBlock(g3, els.stmts);
        Patch(g4, |g2.code|, Jump(|g4.code|))
    case While(c, body) =>
      var gb := LowerGuard(g, c);
      var g2 := LowerBlock(gb, body);
      Emit(Patch(g2, |gb.code| - 1, Jump(|g2.code| + 1)), Jump(|g.code|))
    case DoWhile(body, c) =>
      var (g1, o) := LowerExprLonger(LowerBlock(g, body), c);
      Emit(g1, Cond(NotZero(o), |g.code|))
    case For(first, c, next, body) =>
      var g0 := if first.Some? then LowerStmt(g, first.value) else g;
      var gb := if c.Some? then LowerGuard(g0, c.value) else g0;
      var g2 := LowerBlock(gb, body);
      var g3 := if next.Some? then LowerStmt(g2, next.value) else g2;
      var g4 := if c.Some? then Patch(g3, |gb.code| - 1, Jump(|g3.code| + 1)) else g3;
      Emit(g4, Jump(|g0.code|))
    case Return(None) => Emit(g, Ret(None))
    case Return(Some(e)) =>
      var (g1, o) := LowerExprLonger(g, e);
      Emit(g1, Ret(Some(o)))
    case Block(ss) => LowerBlock(g, ss)
  }

  // LowerExpr, with the fact that it only appends.
  function LowerExprLonger(g: Gen, e: Expr): (r: (Gen, Operand))
    ensures r == LowerExpr(g, e) && |g.code| <= |r.0.code|
  {
    ExprExtends(g, e);
    LowerExpr(g, e)
  }

  function LowerBlock(g: Gen, ss: seq<Stmt>): (r: Gen)
    ensures |g.code| <= |r.code|
    decreases ss, 0
  {
    if ss == [] then g
    else LowerStmt(LowerBlock(g, ss[..|ss| - 1]), ss[|ss| - 1])
  }

  // Parameters occupy the first indices; a void function gets a final ret.
  function ParamNames(params: seq<string>): map<string, nat> {
    if params == [] then map[]
    else ParamNames(params[..|params| - 1])[params[|params| - 1] := |params| - 1]
  }

  function LowerFunction(params: seq<string>, body: seq<Stmt>, isVoid: bool): Program {
    var g := LowerBlock(Gen([], |params|, ParamNames(params)), body);
    if isVoid then g.code + [Ret(None)] else g.code
  }

  // ---- What later code never touches ----

  ghost predicate Extends(a: Gen, b: Gen) {
    |a.code| <= |b.code| && b.code[..|a.code|] == a.code && a.nv <= b.nv
  }

  lemma ExtendsTransitive(a: Gen, b: Gen, c: Gen)
    requires Extends(a, b) && Extends(b, c)
    ensures Extends(a, c)
  {
    assert c.code[..|a.code|] == c.code[..|b.code|][..|a.code|];
  }

  lemma EmitExtends(g: Gen, i: Instr)
    ensures Extends(g, Emit(g, i))
  {
  }

  lemma PatchExtends(a: Gen, b: Gen, at: nat, i: Instr)
    requires Extends(a, b) && |a.code| <= at < |b.code|
    ensures Extends(a, Patch(b, at, i))
  {
  }

  lemma {:induction false} ExprExtends(g: Gen, e: Expr)
    ensures Extends(g, LowerExpr(g, e).0) && LowerExpr(g, e).0.names == g.names
    decreases e
  {
    match e
    case Int(_) =>
    case Symbol(_) =>
    case Binary(op, l, r) =>
      var g0 := Emit(g, Alloca(g.nv)).(nv := g.nv + 1);
      var (g1, lo) := LowerExpr(g0, l);
      var (g2, ro) := LowerExpr(g1, r);
      ExprExtends(g0, l);
      ExprExtends(g1, r);
      ExtendsTransitive(g0, g1, g2);
      ExtendsTransitive(g, g0, g2);
      EmitExtends(g2, Store(g.nv, Bin(op, lo, ro)));
      ExtendsTransitive(g, g2, LowerExpr(g, e).0);
  }

  lemma GuardExtends(g: Gen, c: Expr)
    ensures Extends(g, LowerGuard(g, c)) && LowerGuard(g, c).names == g.names
  {
    ExprExtends(g, c);
    ExtendsTransitive(g, LowerExpr(g, c).0, LowerGuard(g, c));
  }

  lemma {:induction false} StmtExtends(g: Gen, s: Stmt)
    ensures Extends(g, LowerStmt(g, s))
    decreases s, 1
  {
    match s
    case VarDecl(x, init) =>
      var g0 := Emit(g, Alloca(g.nv)).(nv := g.nv + 1, names := g.names[x := g.nv]);
      if init.Some? {
        ExprExtends(g0, init.value);
        ExtendsTransitive(g, g0, LowerExpr(g0, init.value).0);
        ExtendsTransitive(g, LowerExpr(g0, init.value).0, LowerStmt(g, s));
      }
    case Assign(x, e) =>
      ExprExtends(g, e);
      ExtendsTransitive(g, LowerExpr(g, e).0, LowerStmt(g, s));
    case IncDec(_, _) =>
    case Eval(e) =>
      ExprExtends(g, e);
    case If(c, thn, els) =>
      IfExtends(g, s);
    case While(c, body) =>
      var gb := LowerGuard(g, c);
      var g2 := LowerBlock(gb, body);
      GuardExtends(g, c);
      BlockExtends(gb, body);
      ExtendsTransitive(g, gb, g2);
      PatchExtends(g, g2, |gb.code| - 1, Jump(|g2.code| + 1));
      ExtendsTransitive(g, Patch(g2, |gb.code| - 1, Jump(|g2.code| + 1)), LowerStmt(g, s));
    case DoWhile(body, c) =>
      var gb := LowerBlock(g, body);
      BlockExtends(g, body);
      ExprExtends(gb, c);
      ExtendsTransitive(g, gb, LowerExpr(gb, c).0);
      ExtendsTransitive(g, LowerExpr(gb, c).0, LowerStmt(g, s));
    case For(_, _, _, _) =>
      ForExtends(g, s);
    case Return(v) =>
      if v.Some? {
        ExprExtends(g, v.value);
        ExtendsTransitive(g, LowerExpr(g, v.value).0, LowerStmt(g, s));
      }
    case Block(ss) =>
      BlockExtends(g, ss);
  }

  lemma {:induction false} IfExtends(g: Gen, s: Stmt)
    requires s.If?
    ensures Extends(g, LowerStmt(g, s))
    decreases s, 0
  {
    var If(c, thn, els) := s;
    var gb := LowerGuard(g, c);
    var g2 := LowerBlock(gb, thn);
    GuardExtends(g, c);
    BlockExtends(gb, thn);
    ExtendsTransitive(g, gb, g2);
    if els.NoElse? {
      PatchExtends(g, g2, |gb.code| - 1, Jump(|g2.code|));
    } else {
      PatchExtends(g, g2, |gb.code| - 1, Jump(|g2.code| + 1));
      var g3 := Emit(Patch(g2, |gb.code| - 1, Jump(|g2.code| + 1)), UNPATCHED);
      ExtendsTransitive(g, Patch(g2, |gb.code| - 1, Jump(|g2.code| + 1)), g3);
      var g4 := LowerBlock(g3, els.stmts);
      BlockExtends(g3, els.stmts);
      ExtendsTransitive(g, g3, g4);
      PatchExtends(g, g4, |g2.code|, Jump(|g4.code|));
    }
  }

  lemma {:induction false} ForExtends(g: Gen, s: Stmt)
    requires s.For?
    ensures Extends(g, LowerStmt(g, s))
    decreases s, 0
  {
    hide LowerBlock, LowerExpr, LowerGuard, Extends;
    var For(first, c, next, body) := s;
    var g0 := if first.Some? then LowerStmt(g, first.value) else g;
    var gb := if c.Some? then LowerGuard(g0, c.value) else g0;
    var g2 := LowerBlock(gb, body);
    var g3 := if next.Some? then LowerStmt(g2, next.value) else g2;
    if first.Some? { StmtExtends(g, first.value); }
    if c.Some? { GuardExtends(g0, c.value); }
    BlockExtends(gb, body);
    if next.Some? { StmtExtends(g2, next.value); }
    ExtendsTransitive(g, g0, gb);
    ExtendsTransitive(g, gb, g2);
    ExtendsTransitive(g, g2, g3);
    if c.Some? {
      PatchExtends(g, g3, |gb.code| - 1, Jump(|g3.code| + 1));
      ExtendsTransitive(g, Patch(g3, |gb.code| - 1, Jump(|g3.code| + 1)), LowerStmt(g, s));
    } else {
      ExtendsTransitive(g, g3, LowerStmt(g, s));
    }
  }

  lemma {:induction false} BlockExtends(g: Gen, ss: seq<Stmt>)
    ensures Extends(g, LowerBlock(g, ss))
    decreases ss, 0
  {
    if ss != [] {
      var g0 := LowerBlock(g, ss[..|ss| - 1]);
      BlockExtends(g, ss[..|ss| - 1]);
      StmtExtends(g0, ss[|ss| - 1]);
      ExtendsTransitive(g, g0, LowerBlock(g, ss));
    }
  }

  // Lowering gives no name that is in scope a new index.
  lemma {:induction false} NamesKept(g: Gen, s: Stmt, vars: set<string>)
    requires WellScoped(s, vars)
    ensures forall x :: x in vars && x in g.names ==>
              x in LowerStmt(g, s).names && LowerStmt(g, s).names[x] == g.names[x]
    decreases s, 1
  {
    match s
    case VarDecl(x, init) =>
      if init.Some? {
        ExprExtends(Emit(g, Alloca(g.nv)).(nv := g.nv + 1, names := g.names[x := g.nv]), init.value);
      }
    case Assign(_, e) => ExprExtends(g, e);
    case IncDec(_, _) =>
    case Eval(e) => ExprExtends(g, e);
    case If(c, thn, els) =>
      GuardExtends(g, c);
      var gb := LowerGuard(g, c);
      var g2 := LowerBlock(gb, thn);
      BlockNamesKept(gb, thn, vars);
      if els.Else? {
        BlockNamesKept(Emit(Patch(g2, |gb.code| - 1, Jump(|g2.code| + 1)), UNPATCHED), els.stmts, vars);
      }
    case While(c, body) =>
      GuardExtends(g, c);
      BlockNamesKept(LowerGuard(g, c), body, vars);
    case DoWhile(body, c) =>
      BlockNamesKept(g, body, vars);
      ExprExtends(LowerBlock(g, body), c);
    case For(first, c, next, body) =>
      var inner := if first.Some? then Declares(first.value, vars) else vars;
      var g0 := if first.Some? then LowerStmt(g, first.value) else g;
      var gb := if c.Some? then LowerGuard(g0, c.value) else g0;
      if first.Some? { NamesKept(g, first.value, vars); }
      if c.Some? { GuardExtends(g0, c.value); }
      BlockNamesKept(gb, body, inner);
      if next.Some? { NamesKept(LowerBlock(gb, body), next.value, inner); }
    case Return(v) =>
      if v.Some? { ExprExtends(g, v.value); }
    case Block(ss) =>
      BlockNamesKept(g, ss, vars);
  }

  lemma {:induction false} BlockNamesKept(g: Gen, ss: seq<Stmt>, vars: set<string>)
    requires BlockScoped(ss, vars)
    ensures vars <= BlockDeclares(ss, vars)
    ensures forall x :: x in vars && x in g.names ==>
              x in LowerBlock(g, ss).names && LowerBlock(g, ss).names[x] == g.names[x]
    decreases ss, 0
  {
    if ss != [] {
      BlockNamesKept(g, ss[..|ss| - 1], vars);
      NamesKept(LowerBlock(g, ss[..|ss| - 1]), ss[|ss| - 1], BlockDeclares(ss[..|ss| - 1], vars));
    }
  }
}
