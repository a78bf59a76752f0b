// ir_dominates() and ir_dominance_frontier() of lib/middle_end/ir/dom.c, on the
// table that ir_dominator_tree() leaves behind.
module DominanceFrontier {
  import opened FlowGraph
  import opened IrDominators

  // The immediate-dominator links of a function in which no edge from dead code
  // enters live code (see IrDominatorTree).
  ghost predicate IdomTable(g: Graph, idom: seq<nat>) {
    && WellFormed(g) && 0 < |g| == |idom| && idom[0] == 0
    && NoEdgeFromDeadCode(g) && IdomsCorrect(g, idom)
    && (forall v :: 0 <= v < |g| ==> idom[v] < |g|)
    && (forall v: nat :: v < |g| && !Reachable(g, 0, v) ==> idom[v] == 0)
  }

  ghost predicate PredsOf(g: Graph, preds: seq<seq<nat>>) {
    && |preds| == |g|
    && forall x: nat, y: nat :: y < |g| ==> (x in preds[y] <==> Edge(g, x, y))
  }

  ghost function StrictDominators(g: Graph, v: nat): set<nat> {
    set d: nat | d < |g| && StrictlyDominates(g, 0, d, v)
  }

  lemma DominatorInRange(g: Graph, d: nat, v: nat)
    requires Reachable(g, 0, v) && Dominates(g, 0, d, v)
    ensures d < |g| && Reachable(g, 0, d)
  {
    var p :| IsPath(g, p, 0, v);
    var i: nat :| i < |p| && p[i] == d;
    PathInRange(g, p, 0, v, i);
    PathSlice(g, p, 0, v, 0, i);
  }

  lemma OnlyRootDominatesRoot(g: Graph, d: nat)
    requires |g| > 0 && Dominates(g, 0, d, 0)
    ensures d == 0
  {
    PathSingle(g, 0);
    assert d in [0];
  }

  lemma RootDominatesAll(g: Graph, v: nat)
    ensures Dominates(g, 0, 0, v)
  {
    forall p | IsPath(g, p, 0, v) ensures 0 in p { assert p[0] == 0; }
  }

  // Following one link: the other dominators of v are those of idom[v], so the
  // walk ends.
  lemma StepUp(g: Graph, idom: seq<nat>, v: nat)
    requires IdomTable(g, idom) && v < |g| && v != 0 && Reachable(g, 0, v)
    ensures idom[v] != v && Reachable(g, 0, idom[v])
    ensures forall d: nat :: Dominates(g, 0, d, v) <==> d == v || Dominates(g, 0, d, idom[v])
    ensures StrictDominators(g, idom[v]) < StrictDominators(g, v)
  {
    var u := idom[v];
    DominatorInRange(g, u, v);
    DominatesReflexive(g, 0, v);
    forall d: nat | Dominates(g, 0, d, u) ensures Dominates(g, 0, d, v) && d != v {
      DominatesTransitive(g, 0, d, u, v);
      if d == v { DominatesAntisymmetric(g, 0, v, u); }
    }
    assert u in StrictDominators(g, v) && u !in StrictDominators(g, u);
  }

  // Walking the links answers whether every path from the entry to node passes
  // through dom.  From dead code the walk only meets node and the entry.
  method IrDominates(ghost g: Graph, idom: seq<nat>, dom: nat, node: nat) returns (r: bool)
    requires IdomTable(g, idom) && node < |g|
    ensures Reachable(g, 0, node) ==> (r <==> Dominates(g, 0, dom, node))
    ensures !Reachable(g, 0, node) ==> (r <==> dom == node || dom == 0)
  {
    DominatesReflexive(g, 0, node);
    if dom == node { return true; }
    var n: nat := node;
    while n != idom[n]
      invariant n < |g| && dom != n
      invariant Reachable(g, 0, node) ==> Reachable(g, 0, n)
      invariant Reachable(g, 0, node) ==> (Dominates(g, 0, dom, node) <==> Dominates(g, 0, dom, n))
      invariant !Reachable(g, 0, node) ==> n == node || (n == 0 && dom != 0)
      decreases !Reachable(g, 0, n), StrictDominators(g, n)
    {
      if Reachable(g, 0, n) {
        StepUp(g, idom, n);
      } else {
        PathSingle(g, 0);
      }
      n := idom[n];
      DominatesReflexive(g, 0, n);
      if n == dom { return true; }
    }
    if Reachable(g, 0, n) {
      if n != 0 { StepUp(g, idom, n); }
      if Dominates(g, 0, dom, n) { OnlyRootDominatesRoot(g, dom); }
    } else {
      PathSingle(g, 0);
    }
    return false;
  }

  // What membership in a dominance frontier means.
  ghost predicate InFrontier(g: Graph, x: nat, y: nat) {
    (exists p: nat :: DominatesPred(g, x, p, y)) && !StrictlyDominates(g, 0, x, y)
  }

  ghost predicate DominatesPred(g: Graph, x: nat, p: nat, y: nat) {
    Edge(g, p, y) && Dominates(g, 0, x, p)
  }

  // The immediate dominator of y dominates every predecessor of y.
  lemma IdomDominatesPreds(g: Graph, idom: seq<nat>, p: nat, y: nat)
    requires IdomTable(g, idom) && y != 0 && Reachable(g, 0, y) && Edge(g, p, y)
    ensures Reachable(g, 0, p) && Dominates(g, 0, idom[y], p)
  {
    forall q | IsPath(g, q, 0, p) ensures idom[y] in q {
      PathExtend(g, q, 0, p, y);
      assert idom[y] in q + [y];
    }
  }

  // With a single predecessor nothing has y in its frontier.
  lemma SinglePredecessor(g: Graph, idom: seq<nat>, preds: seq<seq<nat>>, x: nat, y: nat)
    requires IdomTable(g, idom) && PredsOf(g, preds) && y < |g| && y != 0 && Reachable(g, 0, y)
    requires |preds[y]| < 2
    ensures !InFrontier(g, x, y)
  {
    if InFrontier(g, x, y) {
      var p: nat :| DominatesPred(g, x, p, y);
      assert p in preds[y];
      IdomDominatesPreds(g, idom, p, y);
      forall q | IsPath(g, q, 0, y) ensures p in q {
        assert StepAt(g, q, |q| - 2);
        assert q[|q| - 2] in preds[y];
      }
      DominatesTransitive(g, 0, x, p, y);
      assert x == y;
      DominatesAntisymmetric(g, 0, p, y);
      // p == y: an edge from y to itself is the only way in
      SelfLoopOnly(g, y);
    }
  }

  lemma SelfLoopOnly(g: Graph, y: nat)
    requires y != 0 && Reachable(g, 0, y)
    ensures exists p: nat :: p != y && Edge(g, p, y)
  {
    var q :| IsPath(g, q, 0, y);
    LastEntry(g, q, y);
  }

  lemma {:induction false} LastEntry(g: Graph, q: seq<nat>, y: nat)
    requires IsPath(g, q, 0, y) && y != 0
    ensures exists p: nat :: p != y && Edge(g, p, y)
    decreases |q|
  {
    assert StepAt(g, q, |q| - 2);
    if q[|q| - 2] == y {
      PathSlice(g, q, 0, y, 0, |q| - 2);
      LastEntry(g, q[0..|q| - 1], y);
    }
  }

  // df' is df with y added for exactly the vertices in s.
  ghost predicate AddedFor(df: seq<seq<nat>>, df': seq<seq<nat>>, y: nat, s: iset<nat>) {
    && |df| == |df'|
    && forall x: nat, z: nat :: x < |df| ==> (z in df'[x] <==> z in df[x] || (z == y && x in s))
  }

  // The vertices that get y when the runner starts from the predecessor p.
  ghost function Climbed(g: Graph, p: nat, y: nat): iset<nat> {
    if Reachable(g, 0, p) then
      iset x: nat | Dominates(g, 0, x, p) && if y == 0 then x != 0 else !StrictlyDominates(g, 0, x, y)
    else iset{p}
  }

  // The runner of Cooper's algorithm climbs from p until it meets idom[y].
  method Climb(ghost g: Graph, idom: seq<nat>, p: nat, y: nat, df: seq<seq<nat>>) returns (df': seq<seq<nat>>)
    requires IdomTable(g, idom) && Edge(g, p, y) && |df| == |g|
    ensures AddedFor(df, df', y, Climbed(g, p, y))
  {
    df' := df;
    var runner: nat := p;
    ghost var done: iset<nat> := iset{};
    PathSingle(g, 0);
    StartClimb(g, idom, p, y);
    while runner != idom[y]
      invariant runner < |g| && |df'| == |df| && AddedFor(df, df', y, done)
      invariant Climbing(g, idom, p, y, runner, done)
      decreases !Reachable(g, 0, runner), StrictDominators(g, runner)
    {
      ghost var prev := df';
      df' := df'[runner := df'[runner] + [y]];
      ClimbStep(g, idom, p, y, runner, done);
      done := done + iset{runner};
      if runner == idom[runner] { break; }
      runner := idom[runner];
    }
    ClimbEnd(g, idom, p, y, runner, done);
  }

  // done are the vertices passed so far, all of them to be added; those still
  // to be added dominate the runner.
  ghost predicate Climbing(g: Graph, idom: seq<nat>, p: nat, y: nat, runner: nat, done: iset<nat>)
    requires y < |idom|
  {
    && done <= Climbed(g, p, y)
    && if Reachable(g, 0, p) then
         && Reachable(g, 0, runner)
         && Dominates(g, 0, idom[y], runner)
         && forall x: nat :: Dominates(g, 0, x, p) <==> x in done || Dominates(g, 0, x, runner)
       else idom[y] == 0 && ((runner == p && done == iset{}) || (runner == 0 && done == iset{p}))
  }

  lemma StartClimb(g: Graph, idom: seq<nat>, p: nat, y: nat)
    requires IdomTable(g, idom) && Edge(g, p, y)
    ensures Climbing(g, idom, p, y, p, iset{})
  {
    RootDominatesAll(g, p);
    PathSingle(g, 0);
    if Reachable(g, 0, p) { ReachableStep(g, 0, p, y); }
    if y != 0 && Reachable(g, 0, y) { IdomDominatesPreds(g, idom, p, y); }
  }

  // The runner is not the entry, it belongs to the answer, and the walk goes on
  // from its own immediate dominator.
  lemma ClimbStep(g: Graph, idom: seq<nat>, p: nat, y: nat, runner: nat, done: iset<nat>)
    requires IdomTable(g, idom) && Edge(g, p, y) && runner < |g|
    requires Climbing(g, idom, p, y, runner, done) && runner != idom[y]
    ensures runner != idom[runner]
    ensures Climbing(g, idom, p, y, idom[runner], done + iset{runner})
    ensures Reachable(g, 0, runner) ==> StrictDominators(g, idom[runner]) < StrictDominators(g, runner)
    ensures !Reachable(g, 0, runner) ==> idom[runner] == 0
  {
    PathSingle(g, 0);
    DominatesReflexive(g, 0, runner);
    if Reachable(g, 0, p) {
      ReachableStep(g, 0, p, y);
      if runner == 0 { OnlyRootDominatesRoot(g, idom[y]); }
      StepUp(g, idom, runner);
      if y != 0 && StrictlyDominates(g, 0, runner, y) {
        DominatesAntisymmetric(g, 0, runner, idom[y]);
      }
    }
  }

  lemma ClimbEnd(g: Graph, idom: seq<nat>, p: nat, y: nat, runner: nat, done: iset<nat>)
    requires IdomTable(g, idom) && Edge(g, p, y) && runner < |g|
    requires Climbing(g, idom, p, y, runner, done) && runner == idom[y]
    ensures done == Climbed(g, p, y)
  {
    PathSingle(g, 0);
    if Reachable(g, 0, p) {
      ReachableStep(g, 0, p, y);
      forall x: nat | Dominates(g, 0, x, runner) ensures x !in Climbed(g, p, y) {
        if y == 0 {
          OnlyRootDominatesRoot(g, x);
        } else {
          StepUp(g, idom, y);
          if x == y { DominatesAntisymmetric(g, 0, y, runner); }
        }
      }
    }
  }

  // Who gets y.  A reachable y other than the entry goes to its dominance
  // frontier in the sense of InFrontier.  The entry is only handed out when it
  // has two predecessors or more, and never to itself; from a dead predecessor
  // it goes to that predecessor alone.  A dead y with two predecessors or more
  // goes to each of them and to nothing else.
  ghost predicate Receives(g: Graph, preds: seq<seq<nat>>, x: nat, y: nat)
    requires y < |preds|
  {
    if y != 0 && Reachable(g, 0, y) then InFrontier(g, x, y)
    else if y != 0 then |preds[y]| >= 2 && Edge(g, x, y)
    else |preds[0]| >= 2 && ((x != 0 && exists p: nat :: Reachable(g, 0, p) && DominatesPred(g, x, p, 0))
                             || (!Reachable(g, 0, x) && Edge(g, x, 0)))
  }

  // ir_dominance_frontier(): y ends up in the df of x exactly when x receives it.
  method IrDominanceFrontier(ghost g: Graph, idom: seq<nat>, preds: seq<seq<nat>>) returns (df: seq<seq<nat>>)
    requires IdomTable(g, idom) && PredsOf(g, preds)
    ensures |df| == |g|
    ensures forall x: nat, y: nat :: x < |g| ==> (y in df[x] <==> y < |g| && Receives(g, preds, x, y))
  {
    df := seq(|preds|, _ => []);
    var b := 0;
    while b < |preds|
      invariant 0 <= b <= |preds| && |df| == |g|
      invariant forall x: nat, y: nat :: x < |g| ==> (y in df[x] <==> y < b && HandedOut(g, preds, x, y, |preds[y]|))
    {
      ghost var df0 := df;
      if |preds[b]| >= 2 {
        var i := 0;
        while i < |preds[b]|
          invariant 0 <= i <= |preds[b]| && |df| == |g|
          invariant forall x: nat, y: nat :: x < |g| ==>
                      (y in df[x] <==> y in df0[x] || (y == b && HandedOut(g, preds, x, b, i)))
        {
          assert preds[b][i] in preds[b];
          assert Edge(g, preds[b][i], b);
          df := Climb(g, idom, preds[b][i], b, df);
          i := i + 1;
        }
      }
      b := b + 1;
    }
    forall x: nat, y: nat | x < |g| && y < |g|
      ensures HandedOut(g, preds, x, y, |preds[y]|) <==> Receives(g, preds, x, y)
    {
      if y != 0 && Reachable(g, 0, y) {
        HandedOutIsFrontier(g, idom, preds, x, y);
      } else if y != 0 {
        DeadHandedOut(g, preds, x, y);
      } else {
        EntryHandedOut(g, preds, x);
      }
    }
  }

  // One of the first n predecessors of y hands y to x.
  ghost predicate HandedOut(g: Graph, preds: seq<seq<nat>>, x: nat, y: nat, n: nat) {
    && y < |preds| && |preds[y]| >= 2
    && exists i :: 0 <= i < n && i < |preds[y]| && x in Climbed(g, preds[y][i], y)
  }

  lemma HandedOutIsFrontier(g: Graph, idom: seq<nat>, preds: seq<seq<nat>>, x: nat, y: nat)
    requires IdomTable(g, idom) && PredsOf(g, preds) && 0 < y < |g| && Reachable(g, 0, y)
    ensures HandedOut(g, preds, x, y, |preds[y]|) <==> InFrontier(g, x, y)
  {
    if |preds[y]| < 2 {
      SinglePredecessor(g, idom, preds, x, y);
    } else {
      if HandedOut(g, preds, x, y, |preds[y]|) {
        var i :| 0 <= i < |preds[y]| && x in Climbed(g, preds[y][i], y);
        assert preds[y][i] in preds[y];
        IdomDominatesPreds(g, idom, preds[y][i], y);
        assert DominatesPred(g, x, preds[y][i], y);
      }
      if InFrontier(g, x, y) {
        var p: nat :| DominatesPred(g, x, p, y);
        assert p in preds[y];
        var i :| 0 <= i < |preds[y]| && preds[y][i] == p;
        IdomDominatesPreds(g, idom, p, y);
        assert x in Climbed(g, preds[y][i], y);
      }
    }
  }

  // A predecessor of dead code is dead.
  lemma DeadHandedOut(g: Graph, preds: seq<seq<nat>>, x: nat, y: nat)
    requires PredsOf(g, preds) && y < |g| && !Reachable(g, 0, y)
    ensures HandedOut(g, preds, x, y, |preds[y]|) <==> |preds[y]| >= 2 && Edge(g, x, y)
  {
    forall p: nat | p in preds[y] ensures Climbed(g, p, y) == iset{p} {
      if Reachable(g, 0, p) { ReachableStep(g, 0, p, y); }
    }
    if HandedOut(g, preds, x, y, |preds[y]|) {
      var i :| 0 <= i < |preds[y]| && x in Climbed(g, preds[y][i], y);
      assert preds[y][i] in preds[y];
    }
    if |preds[y]| >= 2 && Edge(g, x, y) {
      var i :| 0 <= i < |preds[y]| && preds[y][i] == x;
      assert preds[y][i] in preds[y];
      assert x in Climbed(g, preds[y][i], y);
    }
  }

  lemma EntryHandedOut(g: Graph, preds: seq<seq<nat>>, x: nat)
    requires PredsOf(g, preds) && 0 < |g|
    ensures HandedOut(g, preds, x, 0, |preds[0]|) <==> Receives(g, preds, x, 0)
  {
    if HandedOut(g, preds, x, 0, |preds[0]|) {
      var i :| 0 <= i < |preds[0]| && x in Climbed(g, preds[0][i], 0);
      assert preds[0][i] in preds[0];
      if Reachable(g, 0, preds[0][i]) {
        assert DominatesPred(g, x, preds[0][i], 0);
      }
    }
    if |preds[0]| >= 2 && x != 0 && exists p: nat :: Reachable(g, 0, p) && DominatesPred(g, x, p, 0) {
      var p: nat :| Reachable(g, 0, p) && DominatesPred(g, x, p, 0);
      assert p in preds[0];
      var i :| 0 <= i < |preds[0]| && preds[0][i] == p;
      assert x in Climbed(g, preds[0][i], 0);
    }
    if |preds[0]| >= 2 && !Reachable(g, 0, x) && Edge(g, x, 0) {
      assert x in preds[0];
      var i :| 0 <= i < |preds[0]| && preds[0][i] == x;
      assert x in Climbed(g, preds[0][i], 0);
    }
  }
}
