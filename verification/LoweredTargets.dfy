// Where the jumps of generated code lead: link() in lib/middle_end/ir/gen.c needs
// an instruction at every target.
module LoweredTargets {
  import opened Ir
  import opened Ast
  import opened Lowering
  import opened LoweringCorrect
  import opened CfgLink

  // ---- Expressions: no jumps ----

  ghost predicate Straight(prog: Program, a: nat, b: nat) {
    a <= b <= |prog| && forall i :: a <= i < b ==> prog[i].Alloca? || prog[i].Store?
  }

  lemma {:induction false} ExprStraight(prog: Program, g: Gen, e: Expr)
    requires Placed(prog, |g.code|, LowerExpr(g, e).0.code)
    ensures Straight(prog, |g.code|, |LowerExpr(g, e).0.code|)
    decreases e
  {
    hide Placed, Extends;
    ExprExtends(g, e);
    if e.Binary? {
      var g0 := Emit(g, Alloca(g.nv)).(nv := g.nv + 1);
      var g1 := LowerExpr(g0, e.lhs).0;
      BinaryPlaced(prog, g, e);
      ExprStraight(prog, g0, e.lhs);
      ExprStraight(prog, g1, e.rhs);
    } else {
      PlacedLength(prog, |g.code|, g.code);
    }
  }

  lemma PlacedLength(prog: Program, lo: nat, code: Program)
    requires Placed(prog, lo, code)
    ensures |code| <= |prog|
  {
  }

  // ---- Jump targets ----

  predicate AimsUpTo(i: Instr, limit: nat) {
    match i
    case Jump(t) => t <= limit
    case Cond(_, t) => t <= limit
    case _ => true
  }

  ghost predicate Within(prog: Program, a: nat, b: nat, limit: nat) {
    a <= b <= |prog| && forall i :: a <= i < b ==> AimsUpTo(prog[i], limit)
  }

  lemma WithinJoin(prog: Program, a: nat, b: nat, c: nat, limit: nat, limit': nat)
    requires Within(prog, a, b, limit) && Within(prog, b, c, limit') && limit <= limit'
    ensures Within(prog, a, c, limit')
  {
  }

  lemma StraightWithin(prog: Program, a: nat, b: nat, limit: nat)
    requires Straight(prog, a, b)
    ensures Within(prog, a, b, limit)
  {
  }

  lemma WithinOne(prog: Program, a: nat, limit: nat)
    requires a < |prog| && AimsUpTo(prog[a], limit)
    ensures Within(prog, a, a + 1, limit)
  {
  }

  // The shape of a guard: straight code, a condition, the exit jump.
  lemma GuardShape(prog: Program, g: Gen, c: Expr, exit: nat)
    requires GuardPlaced(prog, g, c, exit)
    ensures var k := |LowerExpr(g, c).0.code|;
            && |LowerGuard(g, c).code| == k + 2 <= |prog| && Straight(prog, |g.code|, k)
            && prog[k].Cond? && prog[k].target == k + 2 && prog[k + 1] == Jump(exit)
  {
    hide LowerExpr, Extends;
    var (g1, o) := LowerExpr(g, c);
    var gb := LowerGuard(g, c);
    var k := |g1.code|;
    ExprExtends(g, c);
    assert gb.code == g1.code + [Cond(NotZero(o), k + 2), UNPATCHED];
    assert prog[k] == gb.code[k];
    assert Placed(prog, |g.code|, g1.code);
    ExprStraight(prog, g, c);
  }

  lemma GuardWithin(prog: Program, g: Gen, c: Expr, exit: nat, limit: nat)
    requires GuardPlaced(prog, g, c, exit) && exit <= limit && |LowerGuard(g, c).code| <= limit
    ensures Within(prog, |g.code|, |LowerGuard(g, c).code|, limit)
  {
    GuardShape(prog, g, c, exit);
    hide GuardPlaced, LowerGuard, LowerExpr;
    var k := |LowerExpr(g, c).0.code|;
    StraightWithin(prog, |g.code|, k, limit);
  }

  // Every target inside the code of a statement lies in it or just behind it.
  lemma {:induction false} StmtWithin(prog: Program, g: Gen, s: Stmt)
    requires Placed(prog, |g.code|, LowerStmt(g, s).code)
    ensures Within(prog, |g.code|, |LowerStmt(g, s).code|, |LowerStmt(g, s).code|)
    decreases s, 1
  {
    hide GuardPlaced, LowerGuard, LowerBlock;
    match s
    case VarDecl(_, _) => SimpleWithin(prog, g, s);
    case Assign(_, _) => SimpleWithin(prog, g, s);
    case IncDec(_, _) => SimpleWithin(prog, g, s);
    case Eval(_) => SimpleWithin(prog, g, s);
    case Return(_) => SimpleWithin(prog, g, s);
    case If(_, _, _) => IfWithin(prog, g, s);
    case While(c, body) =>
      hide Within, Placed, LowerStmt;
      WhilePlaced(prog, g, s);
      var gb, r := LowerGuard(g, c), LowerStmt(g, s);
      var g2 := LowerBlock(gb, body);
      GuardWithin(prog, g, c, |r.code|, |r.code|);
      BlockWithin(prog, gb, body);
      WithinOne(prog, |g2.code|, |r.code|);
      LoopWithin(prog, |g.code|, |gb.code|, |g2.code|, |r.code|);
    case DoWhile(body, c) =>
      hide Within, LowerStmt;
      DoWhilePlaced(prog, g, s);
      var gb, r := LowerBlock(g, body), LowerStmt(g, s);
      var g1 := LowerExpr(gb, c).0;
      BlockWithin(prog, g, body);
      ExprStraight(prog, gb, c);
      StraightWithin(prog, |gb.code|, |g1.code|, |r.code|);
      WithinOne(prog, |g1.code|, |r.code|);
      WithinJoin(prog, |g.code|, |gb.code|, |g1.code|, |gb.code|, |r.code|);
      WithinJoin(prog, |g.code|, |g1.code|, |r.code|, |r.code|, |r.code|);
    case For(_, _, _, _) => ForWithin(prog, g, s);
    case Block(ss) => BlockWithin(prog, g, ss);
  }

  lemma LoopWithin(prog: Program, a: nat, b: nat, c: nat, r: nat)
    requires Within(prog, a, b, r) && Within(prog, b, c, c) && Within(prog, c, r, r) && r == c + 1
    ensures Within(prog, a, r, r)
  {
  }

  lemma SimpleWithin(prog: Program, g: Gen, s: Stmt)
    requires s.VarDecl? || s.Assign? || s.IncDec? || s.Eval? || s.Return?
    requires Placed(prog, |g.code|, LowerStmt(g, s).code)
    ensures Within(prog, |g.code|, |LowerStmt(g, s).code|, |LowerStmt(g, s).code|)
  {
    SimpleShape(prog, g, s);
  }

  // The other statements: straight code, a return at most at its end.
  lemma SimpleShape(prog: Program, g: Gen, s: Stmt)
    requires s.VarDecl? || s.Assign? || s.IncDec? || s.Eval? || s.Return?
    requires Placed(prog, |g.code|, LowerStmt(g, s).code)
    ensures var n := |LowerStmt(g, s).code|;
            && |g.code| <= n <= |prog|
            && if s.Return? then |g.code| < n && Straight(prog, |g.code|, n - 1) && prog[n - 1].Ret?
               else Straight(prog, |g.code|, n)
  {
    hide LowerExpr, LowerBlock, LowerGuard, Extends;
    var r := LowerStmt(g, s);
    match s
    case VarDecl(x, init) =>
      var g0 := Emit(g, Alloca(g.nv)).(nv := g.nv + 1, names := g.names[x := g.nv]);
      if init.Some? {
        ExprPart(prog, g0, init.value, r.code);
        assert prog[|g.code|] == r.code[|g.code|];
      }
    case Assign(_, e) => ExprPart(prog, g, e, r.code);
    case IncDec(_, _) =>
    case Eval(e) => ExprStraight(prog, g, e);
    case Return(v) => if v.Some? { ExprPart(prog, g, v.value, r.code); }
  }

  lemma ExprPart(prog: Program, g: Gen, e: Expr, code: Program)
    requires Placed(prog, |g.code|, code) && |code| == |LowerExpr(g, e).0.code| + 1
    requires code[..|code| - 1] == LowerExpr(g, e).0.code
    ensures Straight(prog, |g.code|, |code| - 1) && prog[|code| - 1] == code[|code| - 1]
    ensures |g.code| < |code| && code[..|g.code|] == g.code
  {
    ExprExtends(g, e);
    assert code[..|g.code|] == code[..|code| - 1][..|g.code|];
    PlacedPrefix(prog, |g.code|, LowerExpr(g, e).0.code, code);
    ExprStraight(prog, g, e);
  }

  lemma {:induction false} IfWithin(prog: Program, g: Gen, s: Stmt)
    requires s.If? && Placed(prog, |g.code|, LowerStmt(g, s).code)
    ensures Within(prog, |g.code|, |LowerStmt(g, s).code|, |LowerStmt(g, s).code|)
    decreases s, 0
  {
    hide GuardPlaced, LowerGuard, LowerBlock, Within, LowerStmt;
    IfPlaced(prog, g, s);
    var gb, r := LowerGuard(g, s.cond), LowerStmt(g, s);
    var g2 := LowerBlock(gb, s.thn);
    BlockWithin(prog, gb, s.thn);
    if s.els.NoElse? {
      GuardWithin(prog, g, s.cond, |g2.code|, |r.code|);
      WithinJoin(prog, |g.code|, |gb.code|, |g2.code|, |r.code|, |r.code|);
    } else {
      var g3 := Emit(Patch(g2, |gb.code| - 1, Jump(|g2.code| + 1)), UNPATCHED);
      BlockWithin(prog, g3, s.els.stmts);
      GuardWithin(prog, g, s.cond, |g3.code|, |r.code|);
      WithinOne(prog, |g2.code|, |r.code|);
      WithinJoin(prog, |gb.code|, |g2.code|, |g3.code|, |g2.code|, |r.code|);
      WithinJoin(prog, |g.code|, |gb.code|, |g3.code|, |r.code|, |r.code|);
      WithinJoin(prog, |g.code|, |g3.code|, |r.code|, |r.code|, |r.code|);
    }
  }

  lemma {:induction false} ForWithin(prog: Program, g: Gen, s: Stmt)
    requires s.For? && Placed(prog, |g.code|, LowerStmt(g, s).code)
    ensures Within(prog, |g.code|, |LowerStmt(g, s).code|, |LowerStmt(g, s).code|)
    decreases s, 0
  {
    hide GuardPlaced, LowerGuard, LowerBlock, Within, LowerStmt;
    ForPlaced(prog, g, s);
    var g0, gb, g2, g3, r := ForStart(g, s), ForBody(g, s), ForNext(g, s), ForEnd(g, s), LowerStmt(g, s);
    if s.first.Some? { StmtWithin(prog, g, s.first.value); } else { WithinEmpty(prog, |g.code|); }
    if s.forCond.Some? { GuardWithin(prog, g0, s.forCond.value, |r.code|, |r.code|); } else { WithinEmpty(prog, |g0.code|); }
    BlockWithin(prog, gb, s.body);
    if s.next.Some? { StmtWithin(prog, g2, s.next.value); } else { WithinEmpty(prog, |g2.code|); }
    WithinOne(prog, |g3.code|, |r.code|);
    FiveParts(prog, |g.code|, |g0.code|, |gb.code|, |g2.code|, |g3.code|, |r.code|);
  }

  lemma WithinEmpty(prog: Program, a: nat)
    requires a <= |prog|
    ensures forall limit: nat :: Within(prog, a, a, limit)
  {
  }

  lemma FiveParts(prog: Program, a: nat, b: nat, c: nat, d: nat, e: nat, r: nat)
    requires Within(prog, a, b, b) && Within(prog, b, c, r) && Within(prog, c, d, d) && Within(prog, d, e, e)
    requires Within(prog, e, r, r)
    ensures Within(prog, a, r, r)
  {
  }

  lemma {:induction false} BlockWithin(prog: Program, g: Gen, ss: seq<Stmt>)
    requires Placed(prog, |g.code|, LowerBlock(g, ss).code)
    ensures Within(prog, |g.code|, |LowerBlock(g, ss).code|, |LowerBlock(g, ss).code|)
    decreases ss, 0
  {
    if ss == [] {
      WithinEmpty(prog, |g.code|);
    } else {
      BlockSplit(prog, g, ss);
      hide Within, Placed, LowerStmt;
      var g0 := LowerBlock(g, ss[..|ss| - 1]);
      BlockWithin(prog, g, ss[..|ss| - 1]);
      StmtWithin(prog, g0, ss[|ss| - 1]);
      WithinJoin(prog, |g.code|, |g0.code|, |LowerBlock(g, ss).code|, |g0.code|, |LowerBlock(g, ss).code|);
    }
  }

  // ---- Jumps to the end ----

  // No code at all.
  predicate Silent(s: Stmt)
    decreases s, 1
  {
    match s
    case Eval(e) => !e.Binary?
    case Block(ss) => BlockSilent(ss)
    case _ => false
  }

  predicate BlockSilent(ss: seq<Stmt>)
    decreases ss, 0
  {
    ss == [] || (BlockSilent(ss[..|ss| - 1]) && Silent(ss[|ss| - 1]))
  }

  // Some jump of the code leads right behind it: out of an if, or out of a loop
  // with its condition in front.
  predicate LeadsOut(s: Stmt)
    decreases s, 1
  {
    match s
    case If(_, _, _) => true
    case While(_, _) => true
    case For(_, c, _, _) => c.Some?
    case Block(ss) => BlockLeadsOut(ss)
    case _ => false
  }

  predicate BlockLeadsOut(ss: seq<Stmt>)
    decreases ss, 0
  {
    && ss != []
    && (LeadsOut(ss[|ss| - 1]) || (Silent(ss[|ss| - 1]) && BlockLeadsOut(ss[..|ss| - 1])))
  }

  lemma {:induction false} SilentCode(g: Gen, s: Stmt)
    ensures Silent(s) <==> |LowerStmt(g, s).code| == |g.code|
    decreases s, 1
  {
    hide LowerBlock, LowerGuard, Extends;
    match s
    case VarDecl(_, _) =>
    case Assign(_, _) =>
    case IncDec(_, _) =>
    case Eval(e) => ExprCode(g, e);
    case If(_, _, _) =>
    case While(_, _) =>
    case DoWhile(_, _) =>
    case For(_, _, _, _) => LoopCode(g, s);
    case Return(_) =>
    case Block(ss) => BlockSilentCode(g, ss);
  }

  lemma ExprCode(g: Gen, e: Expr)
    ensures e.Binary? <==> |LowerExpr(g, e).0.code| != |g.code|
  {
    if e.Binary? {
      var g0 := Emit(g, Alloca(g.nv)).(nv := g.nv + 1);
      ExprExtends(g0, e.lhs);
      ExprExtends(LowerExpr(g0, e.lhs).0, e.rhs);
    }
  }

  lemma LoopCode(g: Gen, s: Stmt)
    requires s.For?
    ensures |LowerStmt(g, s).code| > |g.code|
  {
  }

  lemma {:induction false} BlockSilentCode(g: Gen, ss: seq<Stmt>)
    ensures BlockSilent(ss) <==> |LowerBlock(g, ss).code| == |g.code|
    decreases ss, 0
  {
    hide LowerStmt;
    if ss != [] {
      BlockSilentCode(g, ss[..|ss| - 1]);
      SilentCode(LowerBlock(g, ss[..|ss| - 1]), ss[|ss| - 1]);
    }
  }

  // Without such a jump all targets are inside of the code.
  lemma {:induction false} StmtStaysInside(prog: Program, g: Gen, s: Stmt)
    requires !LeadsOut(s) && Placed(prog, |g.code|, LowerStmt(g, s).code) && |g.code| < |LowerStmt(g, s).code|
    ensures Within(prog, |g.code|, |LowerStmt(g, s).code|, |LowerStmt(g, s).code| - 1)
    decreases s, 1
  {
    hide LowerBlock, Within;
    match s
    case VarDecl(_, _) => SimpleInside(prog, g, s);
    case Assign(_, _) => SimpleInside(prog, g, s);
    case IncDec(_, _) => SimpleInside(prog, g, s);
    case Eval(_) => SimpleInside(prog, g, s);
    case Return(_) => SimpleInside(prog, g, s);
    case DoWhile(body, c) =>
      hide LowerStmt;
      DoWhilePlaced(prog, g, s);
      var gb, last := LowerBlock(g, body), |LowerStmt(g, s).code| - 1;
      BlockWithin(prog, g, body);
      ExprStraight(prog, gb, c);
      StraightWithin(prog, |gb.code|, last, last);
      WithinOne(prog, last, last);
      WithinJoin(prog, |g.code|, |gb.code|, last, |gb.code|, last);
      WithinJoin(prog, |g.code|, last, last + 1, last, last);
    case For(_, _, _, _) => ForInside(prog, g, s);
    case Block(ss) => BlockStaysInside(prog, g, ss);
  }

  lemma SimpleInside(prog: Program, g: Gen, s: Stmt)
    requires s.VarDecl? || s.Assign? || s.IncDec? || s.Eval? || s.Return?
    requires Placed(prog, |g.code|, LowerStmt(g, s).code) && |g.code| < |LowerStmt(g, s).code|
    ensures Within(prog, |g.code|, |LowerStmt(g, s).code|, |LowerStmt(g, s).code| - 1)
  {
    hide LowerStmt, Placed;
    SimpleShape(prog, g, s);
  }

  lemma ForInside(prog: Program, g: Gen, s: Stmt)
    requires s.For? && s.forCond.None? && Placed(prog, |g.code|, LowerStmt(g, s).code)
    ensures Within(prog, |g.code|, |LowerStmt(g, s).code|, |LowerStmt(g, s).code| - 1)
  {
    hide LowerBlock, Within, LowerStmt;
    ForPlaced(prog, g, s);
    var g0, g2, g3 := ForStart(g, s), ForNext(g, s), ForEnd(g, s);
    var last := |g3.code|;
    if s.first.Some? { StmtWithin(prog, g, s.first.value); } else { WithinEmpty(prog, |g.code|); }
    BlockWithin(prog, g0, s.body);
    if s.next.Some? { StmtWithin(prog, g2, s.next.value); } else { WithinEmpty(prog, |g2.code|); }
    WithinOne(prog, last, last);
    WithinJoin(prog, |g.code|, |g0.code|, |g2.code|, |g0.code|, |g2.code|);
    WithinJoin(prog, |g.code|, |g2.code|, last, |g2.code|, last);
    WithinJoin(prog, |g.code|, last, last + 1, last, last);
  }

  lemma {:induction false} BlockStaysInside(prog: Program, g: Gen, ss: seq<Stmt>)
    requires !BlockLeadsOut(ss) && Placed(prog, |g.code|, LowerBlock(g, ss).code) && |g.code| < |LowerBlock(g, ss).code|
    ensures Within(prog, |g.code|, |LowerBlock(g, ss).code|, |LowerBlock(g, ss).code| - 1)
    decreases ss, 0
  {
    var init, s := ss[..|ss| - 1], ss[|ss| - 1];
    BlockSplit(prog, g, ss);
    var g0 := LowerBlock(g, init);
    SilentCode(g0, s);
    hide Within, Placed, LowerStmt, Silent, LeadsOut;
    if Silent(s) {
      BlockStaysInside(prog, g, init);
    } else {
      BlockWithin(prog, g, init);
      StmtStaysInside(prog, g0, s);
      WithinJoin(prog, |g.code|, |g0.code|, |LowerBlock(g, ss).code|, |g0.code|, |LowerBlock(g, ss).code| - 1);
    }
  }

  ghost predicate HasAim(prog: Program, a: nat, b: nat, t: nat) {
    exists i :: a <= i < b && i < |prog| && prog[i] == Jump(t)
  }

  lemma {:induction false} StmtAimsBehind(prog: Program, g: Gen, s: Stmt)
    requires LeadsOut(s) && Placed(prog, |g.code|, LowerStmt(g, s).code)
    ensures HasAim(prog, |g.code|, |LowerStmt(g, s).code|, |LowerStmt(g, s).code|)
    decreases s, 1
  {
    hide LowerBlock, LowerGuard, LowerStmt, GuardPlaced, Placed;
    var r := LowerStmt(g, s);
    match s
    case If(c, thn, els) =>
      IfPlaced(prog, g, s);
      if els.NoElse? {
        GuardShape(prog, g, c, |r.code|);
      } else {
        assert prog[|LowerBlock(LowerGuard(g, c), thn).code|] == Jump(|r.code|);
        LaterExtends(g, s);
      }
    case While(c, _) =>
      WhilePlaced(prog, g, s);
      GuardShape(prog, g, c, |r.code|);
    case For(_, c, _, _) =>
      ForPlaced(prog, g, s);
      GuardShape(prog, ForStart(g, s), c.value, |r.code|);
    case Block(ss) =>
      BlockIs(g, ss);
      BlockAimsBehind(prog, g, ss);
  }

  lemma BlockIs(g: Gen, ss: seq<Stmt>)
    ensures LowerStmt(g, Block(ss)) == LowerBlock(g, ss)
  {
  }

  lemma LaterExtends(g: Gen, s: Stmt)
    requires s.If? && s.els.Else?
    ensures |LowerBlock(LowerGuard(g, s.cond), s.thn).code| < |LowerStmt(g, s).code|
  {
  }

  lemma {:induction false} BlockAimsBehind(prog: Program, g: Gen, ss: seq<Stmt>)
    requires BlockLeadsOut(ss) && Placed(prog, |g.code|, LowerBlock(g, ss).code)
    ensures HasAim(prog, |g.code|, |LowerBlock(g, ss).code|, |LowerBlock(g, ss).code|)
    decreases ss, 0
  {
    var init, s := ss[..|ss| - 1], ss[|ss| - 1];
    BlockSplit(prog, g, ss);
    var g0 := LowerBlock(g, init);
    SilentCode(g0, s);
    hide Placed, LowerStmt, Silent, LeadsOut;
    if LeadsOut(s) {
      StmtAimsBehind(prog, g0, s);
    } else {
      BlockAimsBehind(prog, g, init);
    }
  }

  // ---- Functions ----

  // link() succeeds on the code of a function exactly when the function is void
  // or no jump of its body leads to the end of the list.
  lemma LoweredIsLinkable(params: seq<string>, body: seq<Stmt>, isVoid: bool)
    ensures Linkable(LowerFunction(params, body, isVoid)) <==> isVoid || !BlockLeadsOut(body)
  {
    hide LowerBlock, LowerStmt, BlockLeadsOut, Within, HasAim;
    var prog := LowerFunction(params, body, isVoid);
    var g := Gen([], |params|, ParamNames(params));
    var n := |LowerBlock(g, body).code|;
    BlockWithin(prog, g, body);
    if isVoid {
      WithinListed(prog, n, n);
    } else if BlockLeadsOut(body) {
      BlockAimsBehind(prog, g, body);
      AimUnlisted(prog, 0, n);
    } else if n == 0 {
      assert prog == [];
    } else {
      BlockStaysInside(prog, g, body);
      WithinListed(prog, n, n - 1);
    }
  }

  lemma WithinListed(prog: Program, n: nat, limit: nat)
    requires Within(prog, 0, n, limit) && limit < |prog| && n + 1 >= |prog| && (n < |prog| ==> prog[n].Ret?)
    ensures Linkable(prog)
  {
  }

  lemma AimUnlisted(prog: Program, a: nat, b: nat)
    requires HasAim(prog, a, b, b) && b == |prog|
    ensures !Linkable(prog)
  {
  }

  lemma LastLower(g: Gen, ss: seq<Stmt>)
    requires ss != []
    ensures LowerBlock(g, ss) == LowerStmt(LowerBlock(g, ss[..|ss| - 1]), ss[|ss| - 1])
  {
  }
}
