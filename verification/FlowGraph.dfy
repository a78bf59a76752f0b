// Flow graphs, paths and dominance, stated over paths only.  Nothing in this
// module knows how dominators are computed.
module FlowGraph {

  // succs[v] lists the targets of the edges that leave v.
  type Graph = seq<seq<nat>>

  ghost predicate WellFormed(g: Graph) {
    forall v, w :: 0 <= v < |g| && w in g[v] ==> w < |g|
  }

  predicate Edge(g: Graph, v: nat, w: nat) {
    v < |g| && w < |g| && w in g[v]
  }

  ghost predicate StepAt(g: Graph, p: seq<nat>, i: nat) {
    i + 1 < |p| && Edge(g, p[i], p[i + 1])
  }

  ghost predicate IsPath(g: Graph, p: seq<nat>, v: nat, w: nat) {
    && |p| >= 1 && p[0] == v && p[|p| - 1] == w && v < |g|
    && forall i: nat :: i + 1 < |p| ==> StepAt(g, p, i)
  }

  ghost predicate Reachable(g: Graph, root: nat, w: nat) {
    exists p :: IsPath(g, p, root, w)
  }

  // Every path from the root to w passes through d.
  ghost predicate Dominates(g: Graph, root: nat, d: nat, w: nat) {
    forall p :: IsPath(g, p, root, w) ==> d in p
  }

  ghost predicate StrictlyDominates(g: Graph, root: nat, d: nat, w: nat) {
    d != w && Dominates(g, root, d, w)
  }

  // d is the closest strict dominator of w.
  ghost predicate IsIdom(g: Graph, root: nat, d: nat, w: nat) {
    && StrictlyDominates(g, root, d, w)
    && forall e :: StrictlyDominates(g, root, e, w) ==> Dominates(g, root, e, d)
  }

  lemma PathInRange(g: Graph, p: seq<nat>, v: nat, w: nat, i: nat)
    requires IsPath(g, p, v, w) && i < |p|
    ensures p[i] < |g|
  {
    if i > 0 {
      assert StepAt(g, p, i - 1);
    }
  }

  lemma PathSlice(g: Graph, p: seq<nat>, v: nat, w: nat, i: nat, j: nat)
    requires IsPath(g, p, v, w) && i <= j < |p|
    ensures IsPath(g, p[i..j + 1], p[i], p[j])
  {
    PathInRange(g, p, v, w, i);
    var q := p[i..j + 1];
    forall k: nat | k + 1 < |q| ensures StepAt(g, q, k) {
      assert StepAt(g, p, i + k);
    }
  }

  lemma PathConcat(g: Graph, p: seq<nat>, q: seq<nat>, u: nat, v: nat, w: nat)
    requires IsPath(g, p, u, v) && IsPath(g, q, v, w)
    ensures IsPath(g, p + q[1..], u, w)
  {
    var r := p + q[1..];
    forall k: nat | k + 1 < |r| ensures StepAt(g, r, k) {
      if k + 1 < |p| {
        assert StepAt(g, p, k);
      } else {
        assert StepAt(g, q, k + 1 - |p|);
      }
    }
  }

  lemma PathExtend(g: Graph, p: seq<nat>, u: nat, v: nat, w: nat)
    requires IsPath(g, p, u, v) && Edge(g, v, w)
    ensures IsPath(g, p + [w], u, w)
  {
    var q := [v, w];
    assert forall k: nat :: k + 1 < |q| ==> StepAt(g, q, k);
    PathConcat(g, p, q, u, v, w);
    assert p + [w] == p + q[1..];
  }

  lemma PathSingle(g: Graph, v: nat)
    requires v < |g|
    ensures IsPath(g, [v], v, v)
  {
  }

  lemma {:induction false} DominatesReflexive(g: Graph, root: nat, w: nat)
    ensures Dominates(g, root, w, w)
  {
    forall p | IsPath(g, p, root, w) ensures w in p {
      assert p[|p| - 1] == w;
    }
  }

  // A dominator of a dominator is a dominator.
  lemma DominatesTransitive(g: Graph, root: nat, a: nat, b: nat, c: nat)
    requires Dominates(g, root, a, b) && Dominates(g, root, b, c)
    ensures Dominates(g, root, a, c)
  {
    forall p | IsPath(g, p, root, c) ensures a in p {
      var i: nat :| i < |p| && p[i] == b;
      PathSlice(g, p, root, c, 0, i);
      assert a in p[0..i + 1];
    }
  }

  // Two distinct vertices cannot dominate each other: the first of them on a
  // shortest prefix is reached without the other.
  lemma DominatesAntisymmetric(g: Graph, root: nat, a: nat, b: nat)
    requires Reachable(g, root, a)
    requires Dominates(g, root, a, b) && Dominates(g, root, b, a)
    ensures a == b
  {
    var p :| IsPath(g, p, root, a);
    MutualDominatorsDescend(g, root, a, b, p);
  }

  lemma {:induction false} MutualDominatorsDescend(g: Graph, root: nat, a: nat, b: nat, p: seq<nat>)
    requires IsPath(g, p, root, a)
    requires Dominates(g, root, a, b) && Dominates(g, root, b, a)
    ensures a == b
    decreases |p|
  {
    var i: nat :| i < |p| && p[i] == b;
    if i < |p| - 1 {
      PathSlice(g, p, root, a, 0, i);
      MutualDominatorsDescend(g, root, b, a, p[0..i + 1]);
    }
  }

  lemma IdomUnique(g: Graph, root: nat, d: nat, e: nat, w: nat)
    requires IsIdom(g, root, d, w) && IsIdom(g, root, e, w) && Reachable(g, root, w)
    ensures d == e
  {
    var p :| IsPath(g, p, root, w);
    var i: nat :| i < |p| && p[i] == d;
    PathSlice(g, p, root, w, 0, i);
    DominatesAntisymmetric(g, root, d, e);
  }

  // Reachability is closed under edges, and under splitting a path.
  lemma ReachableStep(g: Graph, root: nat, v: nat, w: nat)
    requires Reachable(g, root, v) && Edge(g, v, w)
    ensures Reachable(g, root, w)
  {
    var p :| IsPath(g, p, root, v);
    PathExtend(g, p, root, v, w);
  }

  // A set that holds the root and is closed under edges holds all that is reachable.
  lemma {:induction false} ReachableInClosedSet(g: Graph, root: nat, s: set<nat>, p: seq<nat>, w: nat)
    requires root in s
    requires forall v, u :: v in s && Edge(g, v, u) ==> u in s
    requires IsPath(g, p, root, w)
    ensures w in s
    decreases |p|
  {
    if |p| > 1 {
      PathSlice(g, p, root, w, 0, |p| - 2);
      ReachableInClosedSet(g, root, s, p[0..|p| - 1], p[|p| - 2]);
      assert StepAt(g, p, |p| - 2);
    }
  }
}
