// link() of lib/middle_end/ir/gen.c: successors and predecessors of every
// instruction, in whatever order the hash map hands the instructions out.
module CfgLink {
  import opened Ir
  import opened FlowGraph
  import DominanceFrontier

  // link_target(): the index that i aims at has an entry in the list.
  predicate AimListed(prog: Program, i: Instr) {
    match i
    case Jump(t) => t < |prog|
    case Cond(_, t) => t < |prog|
    case _ => true
  }

  predicate Linkable(prog: Program) {
    forall i :: 0 <= i < |prog| ==> AimListed(prog, prog[i])
  }

  // A condition is followed by an instruction.
  predicate CondsFollowed(prog: Program) {
    forall i :: 0 <= i < |prog| && prog[i].Cond? ==> i + 1 < |prog|
  }

  // The successors that link_jmp, link_cond, link_ret and link_stmt give to i;
  // |prog| is the null pointer behind a condition that comes last.
  function SuccsOf(prog: Program, i: nat): seq<nat>
    requires i < |prog|
  {
    match prog[i]
    case Jump(t) => [t]
    case Cond(_, t) => [t, i + 1]
    case Ret(_) => []
    case _ => if i + 1 < |prog| then [i + 1] else []
  }

  function SuccsGraph(prog: Program): (g: Graph)
    ensures |g| == |prog| && forall i :: 0 <= i < |prog| ==> g[i] == SuccsOf(prog, i)
  {
    seq(|prog|, i requires 0 <= i < |prog| => SuccsOf(prog, i))
  }

  // How often x ends up among the predecessors of y: once when it is the entry
  // before y (not a jump, and not a ret before a ret), once when it aims at y.
  function Falls(prog: Program, x: nat, y: nat): nat
    requires x < |prog| && y < |prog|
  {
    if y == x + 1 && !prog[x].Jump? && !(prog[x].Ret? && prog[y].Ret?) then 1 else 0
  }

  function Aims(prog: Program, x: nat, y: nat): nat
    requires x < |prog|
  {
    match prog[x]
    case Jump(t) => if t == y then 1 else 0
    case Cond(_, t) => if t == y then 1 else 0
    case _ => 0
  }

  predicate IsRet(prog: Program, x: nat) { x < |prog| && prog[x].Ret? }

  // The entries of preds that are no rets.
  ghost function NoRets(prog: Program, preds: seq<nat>): seq<nat> {
    if preds == [] then []
    else (if IsRet(prog, preds[0]) then [] else [preds[0]]) + NoRets(prog, preds[1..])
  }

  lemma {:induction false} NoRetsCount(prog: Program, preds: seq<nat>, x: nat)
    ensures multiset(NoRets(prog, preds))[x] == if IsRet(prog, x) then 0 else multiset(preds)[x]
    decreases |preds|
  {
    if preds != [] {
      assert preds == [preds[0]] + preds[1..];
      NoRetsCount(prog, preds[1..], x);
    }
  }

  lemma {:induction false} NoRetsMember(prog: Program, preds: seq<nat>, x: nat)
    requires x in NoRets(prog, preds)
    ensures x in preds
    decreases |preds|
  {
    if x != preds[0] {
      assert x in NoRets(prog, preds[1..]);
      NoRetsMember(prog, preds[1..], x);
    }
  }

  // The backward loop of link_ret() over the predecessors.
  method DropRets(prog: Program, preds: seq<nat>) returns (r: seq<nat>)
    requires forall x :: x in preds ==> x < |prog|
    ensures forall x: nat :: x < |prog| ==> multiset(r)[x] == if prog[x].Ret? then 0 else multiset(preds)[x]
    ensures forall x :: x in r ==> x < |prog|
  {
    hide NoRets;
    r := preds;
    var i := |preds|;
    NoRetsEnds(prog, preds);
    while i > 0
      invariant 0 <= i <= |preds| && r == preds[..i] + NoRets(prog, preds[i..])
    {
      i := i - 1;
      LastOfFront(prog, preds, i);
      ghost var rest := NoRets(prog, preds[i + 1..]);
      Splice(preds[..i], preds[i], rest, r);
      assert preds[i] in preds;
      if prog[r[i]].Ret? {
        r := r[..i] + r[i + 1..];
        assert [] + rest == rest;
      }
    }
    NoRetsKeeps(prog, preds);
  }

  lemma NoRetsEnds(prog: Program, preds: seq<nat>)
    ensures preds == preds[..|preds|] + NoRets(prog, preds[|preds|..])
  {
  }

  lemma Splice(front: seq<nat>, x: nat, rest: seq<nat>, r: seq<nat>)
    requires r == (front + [x]) + rest
    ensures |front| < |r| && r[|front|] == x
    ensures r[..|front|] + r[|front| + 1..] == front + rest && r == front + ([x] + rest)
  {
  }

  lemma NoRetsKeeps(prog: Program, preds: seq<nat>)
    requires forall x :: x in preds ==> x < |prog|
    ensures var r := preds[..0] + NoRets(prog, preds[0..]);
            && (forall x: nat :: x < |prog| ==> multiset(r)[x] == if prog[x].Ret? then 0 else multiset(preds)[x])
            && (forall x :: x in r ==> x < |prog|)
  {
    hide NoRets;
    var r := preds[..0] + NoRets(prog, preds[0..]);
    assert preds[0..] == preds && r == NoRets(prog, preds);
    forall x: nat | x < |prog| ensures multiset(r)[x] == if prog[x].Ret? then 0 else multiset(preds)[x] {
      NoRetsCount(prog, preds, x);
    }
    forall x | x in r ensures x < |prog| {
      NoRetsMember(prog, preds, x);
    }
  }

  // One step from the back.
  lemma LastOfFront(prog: Program, preds: seq<nat>, i: nat)
    requires i < |preds|
    ensures preds[..i + 1] == preds[..i] + [preds[i]]
    ensures NoRets(prog, preds[i..]) == (if IsRet(prog, preds[i]) then [] else [preds[i]]) + NoRets(prog, preds[i + 1..])
  {
    assert preds[i..][0] == preds[i] && preds[i..][1..] == preds[i + 1..];
  }

  ghost function Count(preds: seq<seq<nat>>, x: nat, y: nat): nat
    requires y < |preds|
  {
    multiset(preds[y])[x]
  }

  // vector_push_back(preds[y], x)
  function AddPred(preds: seq<seq<nat>>, y: nat, x: nat): (r: seq<seq<nat>>)
    requires y < |preds|
    ensures |r| == |preds|
    ensures forall u: nat, v: nat :: v < |preds| ==> Count(r, u, v) == Count(preds, u, v) + if u == x && v == y then 1 else 0
    ensures forall u: nat, v: nat :: v < |preds| && u in r[v] ==> u == x || u in preds[v]
  {
    preds[y := preds[y] + [x]]
  }

  // State after the instructions in `done` have been linked.
  ghost predicate Linked(prog: Program, succs: seq<seq<nat>>, preds: seq<seq<nat>>, done: set<nat>) {
    && |succs| == |preds| == |prog|
    && (forall i :: 0 <= i < |prog| ==> succs[i] == if i in done then SuccsOf(prog, i) else [])
    && (forall y: nat, x: nat :: y < |prog| && x < |prog| ==> PredCount(prog, preds, done, x, y))
    && (forall y: nat, x: nat :: y < |prog| && x in preds[y] ==> x < |prog|)
  }

  ghost predicate PredCount(prog: Program, preds: seq<seq<nat>>, done: set<nat>, x: nat, y: nat)
    requires x < |prog| && y < |prog| == |preds|
  {
    Count(preds, x, y) == (if y in done then Falls(prog, x, y) else 0) + (if x in done then Aims(prog, x, y) else 0)
  }

  // The body of the loop in link() for one instruction; false is the failed
  // assertion of link_target().
  method LinkStmt(prog: Program, i: nat, succs: seq<seq<nat>>, preds: seq<seq<nat>>, ghost done: set<nat>)
    returns (ok: bool, s: seq<seq<nat>>, p: seq<seq<nat>>)
    requires i < |prog| && i !in done && Linked(prog, succs, preds, done)
    ensures ok <==> AimListed(prog, prog[i])
    ensures ok ==> Linked(prog, s, p, done + {i})
  {
    hide Count;
    s, p := succs, preds;
    ok := AimListed(prog, prog[i]);
    if !ok {
      return;
    }
    match prog[i] {
      case Jump(t) =>
        s := s[i := s[i] + [t]];
      case Cond(_, t) =>
        s := s[i := s[i] + [t]];
        s := s[i := s[i] + [i + 1]];
      case Ret(_) =>
        s := s[i := []];
      case _ =>
        if i + 1 < |prog| {
          s := s[i := s[i] + [i + 1]];
        }
    }
    forall x: nat | x < |prog| && prog[x].Ret? ensures Count(preds, x, i) == 0 {
      assert PredCount(prog, preds, done, x, i);
    }
    p := LinkPreds(prog, i, preds);
    forall y: nat, x: nat | y < |prog| && x < |prog| ensures PredCount(prog, p, done + {i}, x, y) {
      assert PredCount(prog, preds, done, x, y);
      assert i !in done;
    }
  }

  // The predecessor that stands in front of i.
  method LinkFallThrough(prog: Program, i: nat, preds: seq<seq<nat>>) returns (p: seq<seq<nat>>)
    requires i < |prog| == |preds|
    requires forall y: nat, x: nat :: y < |prog| && x in preds[y] ==> x < |prog|
    ensures |p| == |prog|
    ensures forall y: nat, x: nat :: y < |prog| && x < |prog| ==>
              Count(p, x, y) == Count(preds, x, y) + if y == i && i == x + 1 && !prog[x].Jump? then 1 else 0
    ensures forall y: nat, x: nat :: y < |prog| && x in p[y] ==> x < |prog|
  {
    p := preds;
    if i > 0 && !prog[i - 1].Jump? {
      p := AddPred(p, i, i - 1);
    }
  }

  // What the switch in link() does to the predecessor lists.
  method LinkPreds(prog: Program, i: nat, preds: seq<seq<nat>>) returns (p: seq<seq<nat>>)
    requires i < |prog| == |preds| && AimListed(prog, prog[i])
    requires forall y: nat, x: nat :: y < |prog| && x in preds[y] ==> x < |prog|
    requires prog[i].Ret? ==> forall x: nat :: x < |prog| && prog[x].Ret? ==> Count(preds, x, i) == 0
    ensures |p| == |prog|
    ensures forall y: nat, x: nat :: y < |prog| && x < |prog| ==>
              Count(p, x, y) == Count(preds, x, y) + (if y == i then Falls(prog, x, i) else 0) + if x == i then Aims(prog, i, y) else 0
    ensures forall y: nat, x: nat :: y < |prog| && x in p[y] ==> x < |prog|
  {
    p := LinkFallThrough(prog, i, preds);
    match prog[i] {
      case Jump(t) =>
        p := AddPred(p, t, i);
      case Cond(_, t) =>
        p := AddPred(p, t, i);
      case Ret(_) =>
        var kept := DropRets(prog, p[i]);
        p := p[i := kept];
      case _ =>
    }
  }

  // What link() leaves in the predecessor lists.
  ghost predicate PredsLinked(prog: Program, preds: seq<seq<nat>>) {
    && |preds| == |prog|
    && (forall x: nat, y: nat :: x < |prog| && y < |prog| ==> multiset(preds[y])[x] == Falls(prog, x, y) + Aims(prog, x, y))
    && (forall x: nat, y: nat :: y < |prog| && x in preds[y] ==> x < |prog|)
  }

  // The order in which the hash map hands out the n instructions.
  ghost predicate Enumerates(order: seq<nat>, n: nat) {
    (forall i :: i in order <==> 0 <= i < n) && (forall j, k :: 0 <= j < k < |order| ==> order[j] != order[k])
  }

  // link(): it succeeds exactly when every target is in the list.
  method Link(prog: Program, order: seq<nat>) returns (linked: bool, succs: seq<seq<nat>>, preds: seq<seq<nat>>)
    requires Enumerates(order, |prog|)
    ensures linked <==> Linkable(prog)
    ensures linked ==> succs == SuccsGraph(prog) && PredsLinked(prog, preds)
  {
    succs, preds := seq(|prog|, _ => []), seq(|prog|, _ => []);
    ghost var done: set<nat> := {};
    assert forall y: nat, x: nat :: y < |prog| && x < |prog| ==> PredCount(prog, preds, done, x, y);
    var k := 0;
    while k < |order|
      invariant 0 <= k <= |order| && Linked(prog, succs, preds, done)
      invariant forall i :: i in done <==> i in order[..k]
      invariant forall i :: i in done ==> i < |prog| && AimListed(prog, prog[i])
    {
      assert order[k] in order;
      linked, succs, preds := LinkStmt(prog, order[k], succs, preds, done);
      if !linked {
        return;
      }
      done := done + {order[k]};
      assert order[..k + 1] == order[..k] + [order[k]];
      k := k + 1;
    }
    assert order[..k] == order;
    forall x: nat, y: nat | x < |prog| && y < |prog|
      ensures multiset(preds[y])[x] == Falls(prog, x, y) + Aims(prog, x, y)
    {
      assert PredCount(prog, preds, done, x, y);
    }
    assert succs == SuccsGraph(prog);
    linked := true;
  }

  // After a ret comes a ret or nothing.
  predicate OnlyRetsFollowRets(prog: Program) {
    forall i :: 0 <= i && i + 1 < |prog| && prog[i].Ret? ==> prog[i + 1].Ret?
  }

  // Predecessors and successors are the same edges, counted with multiplicity,
  // exactly when nothing but a ret directly follows a ret.
  lemma PredsInverseOfSuccs(prog: Program, preds: seq<seq<nat>>)
    requires Linkable(prog) && PredsLinked(prog, preds)
    ensures (forall x: nat, y: nat :: x < |prog| && y < |prog| ==> SameCount(prog, preds, x, y)) <==> OnlyRetsFollowRets(prog)
  {
    hide Falls, Aims, SameCount;
    forall x: nat, y: nat | x < |prog| && y < |prog|
      ensures SameCount(prog, preds, x, y) <==> !(y == x + 1 && prog[x].Ret? && !prog[y].Ret?)
    {
      SameCountWhen(prog, preds, x, y);
    }
    if !OnlyRetsFollowRets(prog) {
      var i: nat :| i + 1 < |prog| && prog[i].Ret? && !prog[i + 1].Ret?;
      assert !SameCount(prog, preds, i, i + 1);
    }
  }

  lemma SameCountWhen(prog: Program, preds: seq<seq<nat>>, x: nat, y: nat)
    requires Linkable(prog) && |preds| == |prog| && x < |prog| && y < |prog|
    requires multiset(preds[y])[x] == Falls(prog, x, y) + Aims(prog, x, y)
    ensures SameCount(prog, preds, x, y) <==> !(y == x + 1 && prog[x].Ret? && !prog[y].Ret?)
  {
    SuccsCount(prog, x, y);
  }

  ghost predicate SameCount(prog: Program, preds: seq<seq<nat>>, x: nat, y: nat)
    requires x < |prog| && y < |prog| == |preds|
  {
    multiset(preds[y])[x] == multiset(SuccsOf(prog, x))[y]
  }

  lemma SuccsCount(prog: Program, x: nat, y: nat)
    requires Linkable(prog) && x < |prog| && y < |prog|
    ensures multiset(SuccsOf(prog, x))[y] ==
            Aims(prog, x, y) + if y == x + 1 && !prog[x].Jump? && !prog[x].Ret? then 1 else 0
  {
  }

  // The linked graph is a flow graph, with the predecessors that the dominance
  // frontier expects.
  lemma LinkedIsFlowGraph(prog: Program, preds: seq<seq<nat>>)
    requires Linkable(prog) && CondsFollowed(prog) && PredsLinked(prog, preds) && OnlyRetsFollowRets(prog)
    ensures WellFormed(SuccsGraph(prog)) && DominanceFrontier.PredsOf(SuccsGraph(prog), preds)
  {
    PredsInverseOfSuccs(prog, preds);
    var g := SuccsGraph(prog);
    forall x: nat, y: nat | y < |g| ensures x in preds[y] <==> Edge(g, x, y) {
      if x < |prog| {
        assert SameCount(prog, preds, x, y);
        assert multiset(preds[y])[x] > 0 <==> x in preds[y];
        assert multiset(g[x])[y] > 0 <==> y in g[x];
      }
    }
  }

  // fun_eval() takes succs[0] after a jump or an ordinary instruction and one
  // of the two successors after a condition: that is what Step does.
  lemma StepFollowsSuccs(prog: Program, pc: nat, env: Env)
    requires Linkable(prog) && pc < |prog|
    ensures var next := Step(prog, Running(pc, env));
            match prog[pc]
            case Ret(_) => next.Halted?
            case Cond(b, t) => next == Running(SuccsOf(prog, pc)[if EvalBody(env, b) != 0 then 0 else 1], env)
            case _ => next.Running? && (SuccsOf(prog, pc) != [] ==> next.pc == SuccsOf(prog, pc)[0])
  {
  }
}
