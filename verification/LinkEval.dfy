// The union-find forest of lib/middle_end/ir/dom.c with path compression.
module LinkEval {
  import opened FlowGraph
  import opened Semidominators

  // Links never point upwards and labels are valid indices.
  ghost predicate Forest(uf: seq<nat>, pc: seq<nat>, sd: seq<nat>) {
    && |uf| == |pc| == |sd|
    && forall x :: 0 <= x < |uf| ==> uf[x] <= x && pc[x] < |sd|
  }

  ghost function Root(uf: seq<nat>, x: nat): nat
    requires x < |uf| && forall i :: 0 <= i < |uf| ==> uf[i] <= i
    decreases x
  {
    if uf[x] == x then x else Root(uf, uf[x])
  }

  // The answer the forest holds for x, before any compression.
  ghost function Eval(uf: seq<nat>, pc: seq<nat>, sd: seq<nat>, x: nat): (r: nat)
    requires Forest(uf, pc, sd) && x < |uf|
    ensures r < |uf|
    decreases x
  {
    if uf[x] == x then x
    else
      var p := Eval(uf, pc, sd, uf[x]);
      if sd[p] < sd[pc[x]] then p else pc[x]
  }

  lemma {:induction false} RootIsRoot(uf: seq<nat>, x: nat)
    requires x < |uf| && forall i :: 0 <= i < |uf| ==> uf[i] <= i
    ensures Root(uf, x) <= x && uf[Root(uf, x)] == Root(uf, x)
    decreases x
  {
    if uf[x] != x { RootIsRoot(uf, uf[x]); }
  }

  lemma {:induction false} EvalBelowRoot(uf: seq<nat>, pc: seq<nat>, sd: seq<nat>, x: nat)
    requires Forest(uf, pc, sd) && x < |uf|
    ensures Root(uf, x) < |uf| && sd[Eval(uf, pc, sd, x)] <= sd[Root(uf, x)]
    decreases x
  {
    if uf[x] != x { EvalBelowRoot(uf, pc, sd, uf[x]); }
  }

  // Pointing u at its root with its own answer as label changes no answer.
  lemma {:induction false} CompressionKeepsAnswers(uf: seq<nat>, pc: seq<nat>, sd: seq<nat>, u: nat, x: nat)
    requires Forest(uf, pc, sd) && u < |uf| && x < |uf| && uf[u] != u
    ensures Root(uf, u) <= u
    ensures var uf', pc' := uf[u := Root(uf, u)], pc[u := Eval(uf, pc, sd, u)];
            Root(uf', x) == Root(uf, x) && Eval(uf', pc', sd, x) == Eval(uf, pc, sd, x)
    decreases x
  {
    RootIsRoot(uf, u);
    if x == u {
      EvalBelowRoot(uf, pc, sd, u);
    } else if uf[x] != x {
      CompressionKeepsAnswers(uf, pc, sd, u, uf[x]);
    }
  }

  ghost predicate SameAnswers(uf: seq<nat>, pc: seq<nat>, uf': seq<nat>, pc': seq<nat>, sd: seq<nat>)
    requires Forest(uf, pc, sd) && Forest(uf', pc', sd) && |uf| == |uf'|
  {
    forall x :: 0 <= x < |uf| ==> Root(uf', x) == Root(uf, x) && Eval(uf', pc', sd, x) == Eval(uf, pc, sd, x)
  }

  // Vertex x hangs below uf[x]; its label has the least semidominator on the
  // tree path (uf[x], x].
  ghost predicate Hangs(par: seq<nat>, uf: seq<nat>, pc: seq<nat>, sd: seq<nat>, u: nat, x: nat)
    requires x < |uf| == |pc| == |sd|
  {
    && u < uf[x] < x && Anc(par, uf[x], x)
    && u < pc[x] <= x && Anc(par, pc[x], x)
    && forall z: nat :: Anc(par, z, x) && uf[x] < z <= x ==> sd[pc[x]] <= sd[z]
  }

  // The forest while the loop of dom_tree() is at u: exactly the vertices whose
  // parent is above u have been linked.
  ghost predicate LinkForest(par: seq<nat>, uf: seq<nat>, pc: seq<nat>, sd: seq<nat>, u: nat) {
    && Forest(uf, pc, sd) && |par| <= |uf|
    && forall x: nat :: x < |uf| ==> LinkedRight(par, uf, pc, sd, u, x)
  }

  ghost predicate LinkedRight(par: seq<nat>, uf: seq<nat>, pc: seq<nat>, sd: seq<nat>, u: nat, x: nat)
    requires x < |uf| == |pc| == |sd|
  {
    if 2 <= x < |par| && par[x] > u then Hangs(par, uf, pc, sd, u, x)
    else if 1 <= x < |par| then uf[x] == x && pc[x] == x
    else uf[x] <= x && pc[x] <= x
  }

  // The answer for v: an ancestor of v above u with the least semidominator
  // among all ancestors of v above u.
  lemma {:induction false} EvalIsMin(h: Graph, par: seq<nat>, uf: seq<nat>, pc: seq<nat>, sd: seq<nat>, u: nat, v: nat)
    requires DfsNumbered(h, par) && LinkForest(par, uf, pc, sd, u) && 1 <= u < v < |par|
    ensures MinSemidomOn(par, sd, u, v, Eval(uf, pc, sd, v))
    ensures u < Root(uf, v) <= v && Anc(par, Root(uf, v), v)
    decreases v
  {
    assert LinkedRight(par, uf, pc, sd, u, v);
    var b := Eval(uf, pc, sd, v);
    assert TreeEdge(h, par, v);
    if par[v] <= u {
      forall z: nat | Anc(par, z, v) && u < z <= v ensures sd[b] <= sd[z] {
        if z != v { AncBound(par, z, par[v]); }
      }
    } else {
      EvalIsMin(h, par, uf, pc, sd, u, uf[v]);
      var p := Eval(uf, pc, sd, uf[v]);
      AncTransitive(par, p, uf[v], v);
      AncTransitive(par, Root(uf, uf[v]), uf[v], v);
      forall z: nat | Anc(par, z, v) && u < z <= v ensures sd[b] <= sd[z] {
        if z <= uf[v] { AncComparable(par, z, uf[v], v); }
      }
    }
  }

  lemma CompressionKeepsForest(h: Graph, par: seq<nat>, uf: seq<nat>, pc: seq<nat>, sd: seq<nat>, u: nat, v: nat)
    requires DfsNumbered(h, par) && LinkForest(par, uf, pc, sd, u) && 1 <= u < v < |par| && uf[v] != v
    ensures LinkForest(par, uf[v := Root(uf, v)], pc[v := Eval(uf, pc, sd, v)], sd, u)
  {
    EvalIsMin(h, par, uf, pc, sd, u, v);
    RootIsRoot(uf, v);
    var uf', pc' := uf[v := Root(uf, v)], pc[v := Eval(uf, pc, sd, v)];
    forall x: nat | x < |uf| ensures LinkedRight(par, uf', pc', sd, u, x) {
      assert LinkedRight(par, uf, pc, sd, u, x);
      if x == v {
        forall z: nat | Anc(par, z, v) && uf'[v] < z <= v ensures sd[pc'[v]] <= sd[z] {}
      }
    }
  }

  // The forest does not depend on the semidominators of unprocessed vertices.
  lemma ForestFrame(par: seq<nat>, uf: seq<nat>, pc: seq<nat>, sd: seq<nat>, sd': seq<nat>, u: nat)
    requires LinkForest(par, uf, pc, sd, u) && |sd| == |sd'|
    requires forall z :: u < z < |sd| ==> sd[z] == sd'[z]
    ensures LinkForest(par, uf, pc, sd', u)
  {
    forall x: nat | x < |uf| ensures LinkedRight(par, uf, pc, sd', u, x) {
      assert LinkedRight(par, uf, pc, sd, u, x);
    }
  }

  // Linking the children of u to u turns the forest for u into that for u - 1.
  lemma LinkChildren(h: Graph, par: seq<nat>, uf: seq<nat>, uf': seq<nat>, pc: seq<nat>, sd: seq<nat>, u: nat)
    requires DfsNumbered(h, par) && LinkForest(par, uf, pc, sd, u) && 1 <= u < |par| && |uf'| == |uf|
    requires forall x: nat :: x < |uf| ==> uf'[x] == if 2 <= x < |par| && par[x] == u then u else uf[x]
    ensures LinkForest(par, uf', pc, sd, u - 1)
  {
    forall x: nat | x < |uf| ensures LinkedRight(par, uf', pc, sd, u - 1, x) && uf'[x] <= x && pc[x] < |sd| {
      assert LinkedRight(par, uf, pc, sd, u, x);
      if 2 <= x < |par| {
        assert TreeEdge(h, par, x);
        if par[x] == u {
          assert Anc(par, u, x);
          forall z: nat | Anc(par, z, x) && u < z <= x ensures sd[pc[x]] <= sd[z] {
            if z != x { AncBound(par, z, par[x]); }
          }
        }
      }
    }
  }
}
