// The generator of lib/middle_end/ir/gen.c itself: global state changed step by
// step, nodes stamped by the constructors of ir.c, jump indices patched in place.
module IrGenerator {
  import opened Int32
  import opened Ir
  import opened Ast
  import opened Lowering
  import opened Options

  // An entry of the instruction list with the index its constructor stamped on it.
  datatype Node = Node(instrIdx: int, ir: Instr)

  // ir_last: nothing yet, an operand that is not in the list, or a list entry.
  datatype Last = NoNode | Value(o: Operand, at: int) | Inserted(at: int)

  function Irs(nodes: seq<Node>): (code: Program)
    ensures |code| == |nodes| && forall i :: 0 <= i < |nodes| ==> code[i] == nodes[i].ir
  {
    seq(|nodes|, i requires 0 <= i < |nodes| => nodes[i].ir)
  }

  // Whether ir_last is set after visiting s.
  predicate Sets(s: Stmt, started: bool)
    decreases s, 1
  {
    if s.Block? then BlockSets(s.stmts, started) else true
  }

  predicate BlockSets(ss: seq<Stmt>, started: bool)
    decreases ss, 0
  {
    if ss == [] then started else Sets(ss[|ss| - 1], BlockSets(ss[..|ss| - 1], started))
  }

  // visit_for() reads ir_last after the first part of the loop: something must
  // have been visited by then.
  predicate NoBareFor(s: Stmt, started: bool)
    decreases s, 1
  {
    match s
    case If(_, thn, els) => BlockNoBareFor(thn, true) && (els.Else? ==> BlockNoBareFor(els.stmts, true))
    case While(_, body) => BlockNoBareFor(body, true)
    case DoWhile(body, _) => BlockNoBareFor(body, started)
    case For(first, _, next, body) =>
      && (first.Some? ==> NoBareFor(first.value, started))
      && (started || (first.Some? && Sets(first.value, started)))
      && BlockNoBareFor(body, true)
      && (next.Some? ==> NoBareFor(next.value, true))
    case Block(ss) => BlockNoBareFor(ss, started)
    case _ => true
  }

  predicate BlockNoBareFor(ss: seq<Stmt>, started: bool)
    decreases ss, 0
  {
    ss == [] ||
    (BlockNoBareFor(ss[..|ss| - 1], started) && NoBareFor(ss[|ss| - 1], BlockSets(ss[..|ss| - 1], started)))
  }

  class IrGen {
    var nodes: seq<Node>
    var instrIdx: int
    var varIdx: nat
    var names: map<string, nat>
    var last: Last

    ghost function State(): Gen
      reads this
    {
      Gen(Irs(nodes), varIdx, names)
    }

    // Every node sits at the position stamped on it, and ir_last carries the
    // index of the latest instruction.
    ghost predicate Numbered()
      reads this
    {
      && instrIdx == |nodes| - 1
      && (forall i :: 0 <= i < |nodes| ==> nodes[i].instrIdx == i)
      && (if last.NoNode? then nodes == [] else last.at == instrIdx)
    }

    // visit_fn_decl() after the parameters: their names hold the first indices.
    constructor (params: seq<string>)
      ensures Numbered() && State() == Gen([], |params|, ParamNames(params)) && last.NoNode?
    {
      nodes := [];
      instrIdx := -1;
      varIdx := |params|;
      names := ParamNames(params);
      last := NoNode;
    }

    // The constructors of ir.c that count as instructions.
    method MakeNode(ir: Instr) returns (n: Node)
      modifies `instrIdx
      ensures instrIdx == old(instrIdx) + 1 && n == Node(instrIdx, ir)
    {
      instrIdx := instrIdx + 1;
      n := Node(instrIdx, ir);
    }

    method Insert(n: Node)
      modifies `nodes, `last
      ensures nodes == old(nodes) + [n] && last == Inserted(n.instrIdx)
      ensures State() == Emit(old(State()), n.ir)
    {
      nodes := nodes + [n];
      last := Inserted(n.instrIdx);
      assert Irs(nodes) == Irs(old(nodes)) + [n.ir];
    }

    method Append(ir: Instr)
      requires Numbered()
      modifies `nodes, `last, `instrIdx
      ensures Numbered() && State() == Emit(old(State()), ir) && last == Inserted(instrIdx)
    {
      var n := MakeNode(ir);
      Insert(n);
    }

    // A jump that is already in the list gets its index.
    method SetTarget(at: nat, ir: Instr)
      requires at < |nodes|
      modifies `nodes
      ensures nodes == old(nodes)[at := old(nodes)[at].(ir := ir)]
      ensures State() == Patch(old(State()), at, ir)
    {
      nodes := nodes[at := nodes[at].(ir := ir)];
      assert Irs(nodes) == Irs(old(nodes))[at := ir];
    }

    method VisitExpr(e: Expr)
      requires Numbered()
      modifies this
      ensures Numbered() && last.Value? && (State(), last.o) == LowerExpr(old(State()), e)
      decreases e
    {
      match e {
        case Int(n) =>
          last := Value(Imm(n), instrIdx);
        case Symbol(x) =>
          last := Value(Sym(if x in names then names[x] else 0), instrIdx);
        case Binary(op, l, r) =>
          var idx := varIdx;
          varIdx := varIdx + 1;
          Append(Alloca(idx));
          VisitExpr(l);
          var lhs := last.o;
          VisitExpr(r);
          var rhs := last.o;
          Append(Store(idx, Bin(op, lhs, rhs)));
          last := Value(Sym(idx), instrIdx);
      }
    }

    // The condition and exit jump shared by visit_if, visit_while and visit_for.
    method EmitGuard(c: Expr) returns (exitJmp: nat)
      requires Numbered()
      modifies this
      ensures Numbered() && !last.NoNode? && State() == LowerGuard(old(State()), c)
      ensures exitJmp == |nodes| - 1
    {
      VisitExpr(c);
      var cond := MakeNode(Cond(NotZero(last.o), 0));
      var exit := MakeNode(UNPATCHED);
      cond := cond.(ir := Cond(NotZero(last.o), exit.instrIdx + 1));
      Insert(cond);
      Insert(exit);
      exitJmp := exit.instrIdx;
    }

    method VisitStmt(s: Stmt)
      requires Numbered() && NoBareFor(s, !last.NoNode?)
      modifies this
      ensures Numbered() && State() == LowerStmt(old(State()), s)
      ensures last.NoNode? <==> !Sets(s, old(!last.NoNode?))
      decreases s, 2
    {
      match s {
        case If(_, _, _) => VisitIf(s);
        case While(_, _) => VisitWhile(s);
        case DoWhile(_, _) => VisitDoWhile(s);
        case For(_, _, _, _) => VisitFor(s);
        case Block(ss) => VisitBlock(ss);
        case _ => VisitSimple(s);
      }
    }

    // Declarations, assignments, ++/--, expressions and returns.
    method VisitSimple(s: Stmt)
      requires Numbered() && (IsSimple(s) || s.VarDecl? || s.Return?)
      modifies this
      ensures Numbered() && State() == LowerStmt(old(State()), s) && !last.NoNode?
    {
      hide Irs;
      match s {
        case VarDecl(x, init) =>
          var idx := varIdx;
          varIdx := varIdx + 1;
          Append(Alloca(idx));
          names := names[x := idx];
          if init.Some? {
            VisitExpr(init.value);
            Append(Store(idx, Direct(last.o)));
          }
        case Assign(x, e) =>
          VisitExpr(Symbol(x));
          var lhs := last.o;
          VisitExpr(e);
          Append(Store(lhs.idx, Direct(last.o)));
        case IncDec(x, isInc) =>
          VisitExpr(Symbol(x));
          var sym := last.o;
          Append(Store(sym.idx, Bin(if isInc then Plus else Minus, sym, Imm(1))));
        case Eval(e) =>
          VisitExpr(e);
        case Return(v) =>
          if v.Some? {
            VisitExpr(v.value);
            Append(Ret(Some(last.o)));
          } else {
            Append(Ret(None));
          }
      }
    }

    method VisitIf(s: Stmt)
      requires s.If? && Numbered() && NoBareFor(s, !last.NoNode?)
      modifies this
      ensures Numbered() && State() == LowerStmt(old(State()), s) && !last.NoNode?
      decreases s, 1
    {
      hide LowerBlock, LowerGuard, LowerExpr, Irs;
      var exitJmp := EmitGuard(s.cond);
      VisitBlock(s.thn);
      StaysSet(s.thn);
      ghost var g2 := State();
      SetTarget(exitJmp, Jump(last.at + 1));
      if s.els.Else? {
        VisitElse(s, exitJmp);
        PatchTwice(g2, exitJmp, Jump(|g2.code|), Jump(|g2.code| + 1));
      }
    }

    method VisitElse(s: Stmt, exitJmp: nat)
      requires s.If? && s.els.Else? && Numbered() && !last.NoNode? && exitJmp < |nodes| && BlockNoBareFor(s.els.stmts, true)
      modifies this
      ensures Numbered() && !last.NoNode?
      ensures var g2 := old(State());
              var g4 := LowerBlock(Emit(Patch(g2, exitJmp, Jump(|g2.code| + 1)), UNPATCHED), s.els.stmts);
              State() == Patch(g4, |g2.code|, Jump(|g4.code|))
      decreases s, 0
    {
      hide LowerBlock, LowerGuard, LowerExpr, Irs;
      ghost var g2 := State();
      var elseJmp := MakeNode(UNPATCHED);
      Insert(elseJmp);
      SetTarget(exitJmp, Jump(last.at + 1));
      PatchEmit(g2, exitJmp, Jump(|g2.code| + 1), UNPATCHED);
      VisitBlock(s.els.stmts);
      StaysSet(s.els.stmts);
      SetTarget(elseJmp.instrIdx, Jump(last.at + 1));
    }

    method VisitWhile(s: Stmt)
      requires s.While? && Numbered() && NoBareFor(s, !last.NoNode?)
      modifies this
      ensures Numbered() && State() == LowerStmt(old(State()), s) && !last.NoNode?
      decreases s, 1
    {
      hide LowerBlock, LowerGuard, LowerExpr, Irs;
      var nextIter := if last.NoNode? then 0 else last.at + 1;
      var exitJmp := EmitGuard(s.cond);
      VisitBlock(s.body);
      StaysSet(s.body);
      ghost var g2 := State();
      Append(Jump(nextIter));
      SetTarget(exitJmp, Jump(instrIdx + 1));
      PatchEmit(g2, exitJmp, Jump(instrIdx + 1), Jump(nextIter));
    }

    method VisitDoWhile(s: Stmt)
      requires s.DoWhile? && Numbered() && NoBareFor(s, !last.NoNode?)
      modifies this
      ensures Numbered() && State() == LowerStmt(old(State()), s) && !last.NoNode?
      decreases s, 1
    {
      hide LowerBlock, LowerGuard, LowerExpr, Irs;
      var stmtBegin := if last.NoNode? then 0 else last.at + 1;
      VisitBlock(s.body);
      VisitExpr(s.cond);
      Append(Cond(NotZero(last.o), stmtBegin));
    }

    method VisitFor(s: Stmt)
      requires s.For? && Numbered() && NoBareFor(s, !last.NoNode?)
      modifies this
      ensures Numbered() && State() == LowerStmt(old(State()), s) && !last.NoNode?
      decreases s, 1
    {
      hide LowerBlock, LowerGuard, LowerExpr, Irs;
      VisitFirst(s);
      var nextIter := last.at + 1;
      var exitJmp := VisitForCond(s.forCond);
      VisitBlock(s.body);
      StaysSet(s.body);
      VisitNext(s);
      CloseFor(s.forCond.Some?, exitJmp, nextIter);
    }

    // Afterwards ir_last is set, so that the index of the condition is known.
    method VisitFirst(s: Stmt)
      requires s.For? && Numbered() && NoBareFor(s, !last.NoNode?)
      modifies this
      ensures Numbered() && !last.NoNode?
      ensures State() == if s.first.Some? then LowerStmt(old(State()), s.first.value) else old(State())
      decreases s, 0
    {
      if s.first.Some? {
        VisitStmt(s.first.value);
        if s.first.value.Block? { StaysSet(s.first.value.stmts); }
      }
    }

    method VisitForCond(c: Option<Expr>) returns (exitJmp: nat)
      requires Numbered() && !last.NoNode?
      modifies this
      ensures Numbered() && !last.NoNode?
      ensures State() == if c.Some? then LowerGuard(old(State()), c.value) else old(State())
      ensures c.Some? ==> exitJmp == |nodes| - 1
    {
      exitJmp := 0;
      if c.Some? {
        exitJmp := EmitGuard(c.value);
      }
    }

    method VisitNext(s: Stmt)
      requires s.For? && Numbered() && !last.NoNode? && (s.next.Some? ==> NoBareFor(s.next.value, true))
      modifies this
      ensures Numbered() && !last.NoNode?
      ensures State() == if s.next.Some? then LowerStmt(old(State()), s.next.value) else old(State())
      decreases s, 0
    {
      if s.next.Some? {
        VisitStmt(s.next.value);
        if s.next.value.Block? { StaysSet(s.next.value.stmts); }
      }
    }

    // The jump back to the condition, behind which the exit jump leads.
    method CloseFor(hasExit: bool, exitJmp: nat, nextIter: nat)
      requires Numbered() && (hasExit ==> exitJmp < |nodes|)
      modifies this
      ensures Numbered() && !last.NoNode?
      ensures var g := old(State());
              State() == Emit(if hasExit then Patch(g, exitJmp, Jump(|g.code| + 1)) else g, Jump(nextIter))
    {
      var back := MakeNode(Jump(nextIter));
      if hasExit {
        SetTarget(exitJmp, Jump(back.instrIdx + 1));
      }
      Insert(back);
    }

    // visit_compound()
    method VisitBlock(ss: seq<Stmt>)
      requires Numbered() && BlockNoBareFor(ss, !last.NoNode?)
      modifies this
      ensures Numbered() && State() == LowerBlock(old(State()), ss)
      ensures last.NoNode? <==> !BlockSets(ss, old(!last.NoNode?))
      decreases ss, 0
    {
      var i := 0;
      ghost var g0, started := State(), !last.NoNode?;
      while i < |ss|
        invariant 0 <= i <= |ss| && Numbered() && State() == LowerBlock(g0, ss[..i])
        invariant last.NoNode? <==> !BlockSets(ss[..i], started)
      {
        PrefixNoBareFor(ss, i, started);
        assert ss[..i + 1][..i] == ss[..i];
        VisitStmt(ss[i]);
        i := i + 1;
      }
      assert ss[..i] == ss;
    }
  }

  lemma {:induction false} StaysSet(ss: seq<Stmt>)
    ensures BlockSets(ss, true)
    decreases ss, 0
  {
    if ss != [] {
      StaysSet(ss[..|ss| - 1]);
      var s := ss[|ss| - 1];
      if s.Block? { StaysSet(s.stmts); }
    }
  }

  lemma PatchEmit(g: Gen, at: nat, i: Instr, j: Instr)
    requires at < |g.code|
    ensures Patch(Emit(g, j), at, i) == Emit(Patch(g, at, i), j)
  {
  }

  lemma PatchTwice(g: Gen, at: nat, i: Instr, j: Instr)
    requires at < |g.code|
    ensures Patch(Patch(g, at, i), at, j) == Patch(g, at, j)
  {
  }

  lemma {:induction false} PrefixNoBareFor(ss: seq<Stmt>, i: nat, started: bool)
    requires BlockNoBareFor(ss, started) && i < |ss|
    ensures NoBareFor(ss[i], BlockSets(ss[..i], started))
    decreases |ss|
  {
    var n := |ss| - 1;
    if i < n {
      assert ss[..n][..i] == ss[..i];
      PrefixNoBareFor(ss[..n], i, started);
    }
  }

  // visit_fn_decl(): the list of a function's instructions, each at the index
  // stamped on it.
  method VisitFnDecl(params: seq<string>, body: seq<Stmt>, isVoid: bool) returns (nodes: seq<Node>)
    requires BlockNoBareFor(body, false)
    ensures Irs(nodes) == LowerFunction(params, body, isVoid)
    ensures forall i :: 0 <= i < |nodes| ==> nodes[i].instrIdx == i
  {
    var gen := new IrGen(params);
    gen.VisitBlock(body);
    if isVoid {
      gen.Append(Ret(None));
    }
    nodes := gen.nodes;
  }
}
