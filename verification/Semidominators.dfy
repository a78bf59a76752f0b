// The theory behind lib/middle_end/ir/dom.c.  Vertices are DFS numbers 1..n,
// vertex 1 is the entry; index 0 is unused, as in the source's arrays.
module Semidominators {
  import opened FlowGraph

  // a lies on the parent chain of w (or is w).
  ghost predicate Anc(par: seq<nat>, a: nat, w: nat)
    decreases w
  {
    a == w || (a < w < |par| && par[w] < w && Anc(par, a, par[w]))
  }

  // What depth-first search establishes: parents are tree edges, numbers are a
  // preorder, and an edge to a higher number goes to a descendant.
  ghost predicate DfsNumbered(h: Graph, par: seq<nat>) {
    && |h| == |par| >= 2
    && h[0] == []
    && (forall v: nat, w: nat :: 1 <= v < |h| && w in h[v] ==> 1 <= w < |h|)
    && (forall w: nat :: 2 <= w < |h| ==> TreeEdge(h, par, w))
    && (forall v: nat, w: nat :: 1 <= v < |h| && w in h[v] ==> NoCrossForward(par, v, w))
  }

  // The parent of w is an earlier vertex with an edge to w, and is on the
  // parent chain of the vertex numbered just before w.
  ghost predicate TreeEdge(h: Graph, par: seq<nat>, w: nat)
    requires w < |h| && w < |par|
  {
    1 <= par[w] < w && w in h[par[w]] && Anc(par, par[w], w - 1)
  }

  ghost predicate NoCrossForward(par: seq<nat>, v: nat, w: nat) {
    v < w ==> Anc(par, v, w)
  }

  lemma {:induction false} AncTransitive(par: seq<nat>, a: nat, b: nat, c: nat)
    requires Anc(par, a, b) && Anc(par, b, c)
    ensures Anc(par, a, c)
    decreases c
  {
    AncBound(par, a, b);
    if b != c {
      AncTransitive(par, a, b, par[c]);
      AncBound(par, b, c);
    }
  }

  lemma {:induction false} AncBound(par: seq<nat>, a: nat, w: nat)
    requires Anc(par, a, w)
    ensures a <= w
  {
  }

  // Two ancestors of one vertex are comparable.
  lemma {:induction false} AncComparable(par: seq<nat>, a: nat, b: nat, w: nat)
    requires Anc(par, a, w) && Anc(par, b, w) && a <= b
    ensures Anc(par, a, b)
    decreases w
  {
    if b != w && a != w {
      AncComparable(par, a, b, par[w]);
    }
  }

  // The chain from w down to a only reads the entries in (a, w].
  lemma {:induction false} AncFrame(par: seq<nat>, par': seq<nat>, a: nat, w: nat)
    requires Anc(par, a, w) && (a == w || w < |par'|)
    requires forall i :: a < i <= w && i < |par| && i < |par'| ==> par[i] == par'[i]
    ensures Anc(par', a, w)
    decreases w
  {
    if a != w {
      AncBound(par, a, par[w]);
      AncFrame(par, par', a, par[w]);
    }
  }

  lemma {:induction false} RootIsAncestor(h: Graph, par: seq<nat>, w: nat)
    requires DfsNumbered(h, par) && 1 <= w < |h|
    ensures Anc(par, 1, w)
    decreases w
  {
    if w > 1 {
      assert TreeEdge(h, par, w);
      RootIsAncestor(h, par, par[w]);
    }
  }

  // Descendants of a form an interval of numbers.
  lemma {:induction false} AncContiguous(h: Graph, par: seq<nat>, a: nat, b: nat, c: nat)
    requires DfsNumbered(h, par) && 1 <= a <= b <= c < |h| && Anc(par, a, c)
    ensures Anc(par, a, b)
    decreases c
  {
    if b < c {
      assert TreeEdge(h, par, c);
      AncTransitive(par, a, par[c], c - 1);
      AncContiguous(h, par, a, b, c - 1);
    }
  }

  // The tree path from a down to w.
  lemma {:induction false} TreePath(h: Graph, par: seq<nat>, a: nat, w: nat) returns (p: seq<nat>)
    requires DfsNumbered(h, par) && 1 <= a && w < |h| && Anc(par, a, w)
    ensures IsPath(h, p, a, w)
    ensures forall x :: x in p ==> a <= x <= w && Anc(par, x, w)
    decreases w
  {
    AncBound(par, a, w);
    if a == w {
      p := [w];
    } else {
      assert TreeEdge(h, par, w);
      AncBound(par, a, par[w]);
      var q := TreePath(h, par, a, par[w]);
      PathExtend(h, q, a, par[w], w);
      p := q + [w];
    }
  }

  // Lengauer and Tarjan's path lemma: the lowest vertex of a path is an
  // ancestor of every vertex after it.
  lemma {:induction false} LowestIsAncestor(h: Graph, par: seq<nat>, p: seq<nat>, v: nat, w: nat)
    requires DfsNumbered(h, par) && IsPath(h, p, v, w) && 1 <= v
    requires forall x :: x in p ==> v <= x
    ensures Anc(par, v, w)
    decreases |p|
  {
    if |p| > 1 {
      var k := |p| - 2;
      PathSlice(h, p, v, w, 0, k);
      var q := p[0..k + 1];
      assert forall x :: x in q ==> x in p;
      LowestIsAncestor(h, par, q, v, p[k]);
      assert StepAt(h, p, k);
      assert NoCrossForward(par, p[k], w);
      if p[k] < w {
        AncTransitive(par, v, p[k], w);
      } else {
        assert w in p;
        AncContiguous(h, par, v, w, p[k]);
      }
    }
  }

  // Index of a smallest element in s[lo..hi].
  lemma {:induction false} ArgMin(s: seq<nat>, lo: nat, hi: nat) returns (m: nat)
    requires lo < hi <= |s|
    ensures lo <= m < hi && forall i :: lo <= i < hi ==> s[m] <= s[i]
    decreases hi
  {
    if hi == lo + 1 {
      m := lo;
    } else {
      m := ArgMin(s, lo, hi - 1);
      if s[hi - 1] < s[m] { m := hi - 1; }
    }
  }

  // Every vertex strictly between the ends of p[i..j + 1] is above p[j].
  ghost predicate InteriorAbove(p: seq<nat>, i: nat, j: nat)
    requires j < |p|
  {
    forall m :: i < m < j ==> p[m] > p[j]
  }

  // A path from x to w, of at least one edge, whose interior lies above w.
  ghost predicate SemiPath(h: Graph, p: seq<nat>, x: nat, w: nat) {
    IsPath(h, p, x, w) && |p| >= 2 && 1 <= x && InteriorAbove(p, 0, |p| - 1)
  }

  ghost predicate IsSemidom(h: Graph, s: nat, w: nat) {
    && (exists p :: SemiPath(h, p, s, w))
    && forall p, x :: SemiPath(h, p, x, w) ==> s <= x
  }

  // sd holds the semidominator of every vertex from `from` on.
  ghost predicate SemidomsFrom(h: Graph, sd: seq<nat>, from: nat) {
    |sd| >= |h| && forall w :: from <= w < |h| && 2 <= w ==> IsSemidom(h, sd[w], w)
  }

  lemma EdgeIsSemiPath(h: Graph, par: seq<nat>, v: nat, w: nat)
    requires DfsNumbered(h, par) && 1 <= v < |h| && w in h[v]
    ensures SemiPath(h, [v, w], v, w)
  {
    assert StepAt(h, [v, w], 0);
  }

  // The semidominator is below w, and is one of its proper ancestors.
  lemma SemidomIsAncestor(h: Graph, par: seq<nat>, s: nat, w: nat)
    requires DfsNumbered(h, par) && 2 <= w < |h| && IsSemidom(h, s, w)
    ensures 1 <= s <= par[w] < w && Anc(par, s, w)
  {
    assert TreeEdge(h, par, w);
    EdgeIsSemiPath(h, par, par[w], w);
    var p :| SemiPath(h, p, s, w);
    forall x | x in p ensures s <= x {
      var i :| 0 <= i < |p| && p[i] == x;
      if 0 < i < |p| - 1 {}
    }
    LowestIsAncestor(h, par, p, s, w);
  }

  // Candidate from above: an edge (v, w), an ancestor z of v above w, and a
  // semidominator path into z make a semidominator path into w.
  lemma SemiPathThrough(h: Graph, par: seq<nat>, w: nat, v: nat, z: nat, x: nat, p: seq<nat>) returns (q: seq<nat>)
    requires DfsNumbered(h, par) && 1 <= w < z && v < |h| && w in h[v]
    requires Anc(par, z, v) && SemiPath(h, p, x, z)
    ensures SemiPath(h, q, x, w)
  {
    var t := TreePath(h, par, z, v);
    q := JoinAbove(h, p, t, w, x, z, v);
    PathExtend(h, q, x, v, w);
    q := q + [w];
  }

  // Joining two paths whose vertices, the first aside, lie above w.
  lemma JoinAbove(h: Graph, p: seq<nat>, t: seq<nat>, w: nat, x: nat, z: nat, v: nat) returns (q: seq<nat>)
    requires IsPath(h, p, x, z) && IsPath(h, t, z, v)
    requires forall m :: 0 < m < |p| ==> p[m] > w
    requires forall y :: y in t ==> y > w
    ensures IsPath(h, q, x, v) && forall m :: 0 < m < |q| ==> q[m] > w
  {
    PathConcat(h, p, t, x, z, v);
    q := p + t[1..];
    forall m | 0 < m < |q| ensures q[m] > w {
      if m >= |p| {
        assert q[m] == t[m - |p| + 1];
        assert q[m] in t;
      }
    }
  }

  // A stretch of a path that ends in y lies above y, unless some ancestor of y
  // comes earlier on it (at a vertex not above y).
  lemma LowVertexIsAncestor(h: Graph, par: seq<nat>, p: seq<nat>, u: nat, w: nat, lo: nat, j: nat) returns (m: nat)
    requires DfsNumbered(h, par) && IsPath(h, p, u, w) && 0 < lo < j < |p|
    ensures lo <= m < j && 1 <= p[m] < |h|
    ensures p[m] <= p[j] ==> Anc(par, p[m], p[j])
    ensures forall i :: lo <= i < j ==> p[m] <= p[i]
  {
    m := ArgMin(p, lo, j);
    PathSlice(h, p, u, w, m, j);
    PathPositive(h, par, p, u, w, m);
    if p[m] <= p[j] {
      var q := p[m..j + 1];
      forall x | x in q ensures p[m] <= x {
        var i :| 0 <= i < |q| && q[i] == x;
        assert x == p[m + i];
      }
      LowestIsAncestor(h, par, q, p[m], p[j]);
    }
  }

  // Conversely, a semidominator path into w of more than one edge comes through
  // such a z (Theorem 4 of Lengauer and Tarjan).
  lemma SemiPathDecompose(h: Graph, par: seq<nat>, w: nat, x: nat, p: seq<nat>) returns (z: nat, q: seq<nat>)
    requires DfsNumbered(h, par) && 1 <= w && SemiPath(h, p, x, w) && |p| > 2
    ensures z > w && p[|p| - 2] < |h| && Anc(par, z, p[|p| - 2]) && SemiPath(h, q, x, z)
  {
    var k := |p| - 2;
    PathInRange(h, p, x, w, k);
    var j: nat := 1;
    while !Anc(par, p[j], p[k])
      invariant 1 <= j <= k
      invariant forall i :: 1 <= i < j ==> !Anc(par, p[i], p[k])
      decreases k - j
    {
      j := j + 1;
    }
    z := p[j];
    PathSlice(h, p, x, w, 0, j);
    q := p[0..j + 1];
    if j > 1 {
      var m := LowVertexIsAncestor(h, par, p, x, w, 1, j);
      if Anc(par, p[m], z) {
        AncTransitive(par, p[m], z, p[k]);
      }
    }
  }

  // The first vertex after p[i] on the tree path from a to w.
  lemma FirstOnTreePath(par: seq<nat>, p: seq<nat>, a: nat, w: nat, i: nat) returns (j: nat)
    requires i + 1 < |p| && p[|p| - 1] == w && Anc(par, a, w)
    ensures i < j < |p| && Anc(par, a, p[j]) && Anc(par, p[j], w)
    ensures forall m :: i < m < j ==> !(Anc(par, a, p[m]) && Anc(par, p[m], w))
  {
    j := i + 1;
    while !(Anc(par, a, p[j]) && Anc(par, p[j], w))
      invariant i < j < |p|
      invariant forall m :: i < m < j ==> !(Anc(par, a, p[m]) && Anc(par, p[m], w))
      decreases |p| - j
    {
      j := j + 1;
    }
  }

  // The last vertex of p below a.
  lemma LastBelow(p: seq<nat>, a: nat) returns (i: nat)
    requires |p| > 0 && p[0] < a && a <= p[|p| - 1]
    ensures i + 1 < |p| && p[i] < a && forall m :: i < m < |p| ==> p[m] >= a
  {
    i := |p| - 1;
    while p[i] >= a
      invariant 0 <= i < |p|
      invariant forall m :: i < m < |p| ==> p[m] >= a
      decreases i
    {
      i := i - 1;
    }
  }

  // The lemma under both of Lengauer and Tarjan's theorems on dominators: a
  // path to w that misses an ancestor a of w jumps over it, from some p[i]
  // below a to some p[j] on the tree path strictly between a and w.
  lemma PathJumpsOver(h: Graph, par: seq<nat>, p: seq<nat>, a: nat, w: nat) returns (i: nat, j: nat)
    requires DfsNumbered(h, par) && IsPath(h, p, 1, w) && 1 <= a && Anc(par, a, w) && a !in p
    ensures i < j < |p| && 1 <= p[i] < a < p[j] < |h|
    ensures Anc(par, a, p[j]) && Anc(par, p[j], w)
    ensures SemiPath(h, p[i..j + 1], p[i], p[j])
  {
    AncBound(par, a, w);
    assert 1 in p && w in p;
    i := LastBelow(p, a);
    j := FirstOnTreePath(par, p, a, w, i);
    assert p[j] in p;
    PathSlice(h, p, 1, w, i, j);
    PathPositive(h, par, p, 1, w, i);
    PathPositive(h, par, p, 1, w, j);
    if j > i + 1 {
      var m := LowVertexIsAncestor(h, par, p, 1, w, i + 1, j);
      if p[m] <= p[j] {
        AncTransitive(par, p[m], p[j], w);
        AncComparable(par, a, p[m], w);
      }
    }
  }

  lemma PathPositive(h: Graph, par: seq<nat>, p: seq<nat>, u: nat, w: nat, i: nat)
    requires DfsNumbered(h, par) && IsPath(h, p, u, w) && i < |p| && (i > 0 || u > 0)
    ensures 1 <= p[i] < |h|
  {
    if i > 0 {
      assert StepAt(h, p, i - 1);
    }
  }

  // Any strict dominator of w also dominates the semidominator of w.
  lemma DominatorOfSemidom(h: Graph, par: seq<nat>, s: nat, w: nat, d: nat)
    requires DfsNumbered(h, par) && 2 <= w < |h| && IsSemidom(h, s, w)
    requires StrictlyDominates(h, 1, d, w)
    ensures Dominates(h, 1, d, s) && d <= s
  {
    RootIsAncestor(h, par, w);
    var t := TreePath(h, par, 1, w);
    assert d in t;
    SemidomIsAncestor(h, par, s, w);
    var q :| SemiPath(h, q, s, w);
    forall p | IsPath(h, p, 1, s) ensures d in p {
      PathConcat(h, p, q, 1, s, w);
      assert d in p + q[1..];
    }
    RootIsAncestor(h, par, s);
    var ts := TreePath(h, par, 1, s);
    assert d in ts;
  }

  // Smallest semidominator on the tree path (lo, w].
  ghost predicate MinSemidomOn(par: seq<nat>, sd: seq<nat>, lo: nat, w: nat, b: nat) {
    && Anc(par, b, w) && lo < b <= w < |sd|
    && forall z: nat :: Anc(par, z, w) && lo < z <= w ==> sd[b] <= sd[z]
  }

  lemma SemiPathBound(h: Graph, sd: seq<nat>, p: seq<nat>, x: nat, w: nat)
    requires SemidomsFrom(h, sd, 2) && 2 <= w < |h| && SemiPath(h, p, x, w)
    ensures sd[w] <= x
  {
    assert IsSemidom(h, sd[w], w);
  }

  // Theorem 2: when no vertex on (sdom(w), w] has a smaller semidominator,
  // sdom(w) is the immediate dominator.
  lemma SemidomIsIdom(h: Graph, par: seq<nat>, sd: seq<nat>, w: nat, b: nat)
    requires DfsNumbered(h, par) && SemidomsFrom(h, sd, 2) && 2 <= w < |h|
    requires MinSemidomOn(par, sd, sd[w], w, b) && sd[b] >= sd[w]
    ensures IsIdom(h, 1, sd[w], w)
  {
    var s := sd[w];
    SemidomIsAncestor(h, par, s, w);
    forall p | IsPath(h, p, 1, w) ensures s in p {
      if s !in p {
        var i, j := PathJumpsOver(h, par, p, s, w);
        SemiPathBound(h, sd, p[i..j + 1], p[i], p[j]);
      }
    }
    forall e | StrictlyDominates(h, 1, e, w) ensures Dominates(h, 1, e, s) {
      DominatorOfSemidom(h, par, s, w, e);
    }
  }

  // Theorem 3: otherwise w has the immediate dominator of the vertex b with the
  // smallest semidominator on that path.
  lemma IdomIsRelative(h: Graph, par: seq<nat>, sd: seq<nat>, w: nat, b: nat, d: nat)
    requires DfsNumbered(h, par) && SemidomsFrom(h, sd, 2) && 2 <= w < |h|
    requires MinSemidomOn(par, sd, sd[w], w, b) && sd[b] < sd[w]
    requires IsIdom(h, 1, d, b)
    ensures IsIdom(h, 1, d, w)
  {
    SemidomIsAncestor(h, par, sd[w], w);
    IdomIsTreeAncestor(h, par, sd, b, d);
    forall p | IsPath(h, p, 1, w) ensures d in p {
      RelativeIdomOnPath(h, par, sd, w, b, d, p);
    }
    assert d != w by { AncBound(par, b, w); }
    forall e | StrictlyDominates(h, 1, e, w) ensures Dominates(h, 1, e, d) {
      DominatorOfSemidom(h, par, sd[w], w, e);
      DominatesAncestorBelow(h, par, e, b, w);
    }
  }

  lemma IdomIsTreeAncestor(h: Graph, par: seq<nat>, sd: seq<nat>, b: nat, d: nat)
    requires DfsNumbered(h, par) && SemidomsFrom(h, sd, 2) && 2 <= b < |h|
    requires IsIdom(h, 1, d, b)
    ensures 1 <= d <= sd[b] < b && Anc(par, d, b)
  {
    SemidomIsAncestor(h, par, sd[b], b);
    DominatorOfSemidom(h, par, sd[b], b, d);
    RootIsAncestor(h, par, b);
    var t := TreePath(h, par, 1, b);
    assert d in t;
  }

  // A dominator of w that lies below an ancestor b of w dominates b too.
  lemma DominatesAncestorBelow(h: Graph, par: seq<nat>, e: nat, b: nat, w: nat)
    requires DfsNumbered(h, par) && w < |h| && 1 <= b && Anc(par, b, w)
    requires Dominates(h, 1, e, w) && e < b
    ensures Dominates(h, 1, e, b)
  {
    var down := TreePath(h, par, b, w);
    forall p | IsPath(h, p, 1, b) ensures e in p {
      PathConcat(h, p, down, 1, b, w);
      assert e in p + down[1..];
      assert forall v :: v in down[1..] ==> v in down;
    }
  }

  // A path to b that misses d: down the tree to x, a jump to y, down to b.
  lemma DetourAvoids(h: Graph, par: seq<nat>, q: seq<nat>, x: nat, y: nat, b: nat, d: nat)
    requires DfsNumbered(h, par) && 1 <= x < d < y && b < |h|
    requires SemiPath(h, q, x, y) && Anc(par, y, b)
    ensures !Dominates(h, 1, d, b)
  {
    assert x < |h|;
    RootIsAncestor(h, par, x);
    var up := TreePath(h, par, 1, x);
    PathConcat(h, up, q, 1, x, y);
    var down := TreePath(h, par, y, b);
    PathConcat(h, up + q[1..], down, 1, y, b);
    var whole := up + q[1..] + down[1..];
    assert d !in up && d !in down;
    assert d !in q[1..];
    assert d !in whole;
  }

  lemma RelativeIdomOnPath(h: Graph, par: seq<nat>, sd: seq<nat>, w: nat, b: nat, d: nat, p: seq<nat>)
    requires DfsNumbered(h, par) && SemidomsFrom(h, sd, 2) && 2 <= w < |h|
    requires MinSemidomOn(par, sd, sd[w], w, b)
    requires IsIdom(h, 1, d, b) && 1 <= d <= sd[b] && Anc(par, d, b)
    requires IsPath(h, p, 1, w)
    ensures d in p
  {
    if d !in p {
      AncTransitive(par, d, b, w);
      var i, j := PathJumpsOver(h, par, p, d, w);
      var x, y := p[i], p[j];
      AncBound(par, y, w);
      SemiPathBound(h, sd, p[i..j + 1], x, y);
      // y is not on (sdom(w), w], where sd[b] is least; so it is above b
      AncComparable(par, y, b, w);
      DetourAvoids(h, par, p[i..j + 1], x, y, b, d);
    }
  }
}
