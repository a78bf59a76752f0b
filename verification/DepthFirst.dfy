// What the recursive dfs() of lib/middle_end/ir/dom.c maintains, as predicates
// over the contents of its arrays.
module DepthFirst {
  import opened FlowGraph
  import opened Semidominators

  // vt numbers the k visited vertices 1..k in order of discovery and iv inverts it.
  ghost predicate Numbering(g: Graph, vt: seq<nat>, iv: seq<nat>, k: nat) {
    && |g| < |vt| == |iv| && k < |iv|
    && (forall v :: 0 <= v < |vt| ==> vt[v] <= k)
    && (forall v :: 0 <= v < |vt| && vt[v] >= 1 ==> v < |g| && iv[vt[v]] == v)
    && (forall i :: 1 <= i <= k ==> iv[i] < |g| && vt[iv[i]] == i)
  }

  // The vertex numbered w was discovered from its parent, inside the call that
  // was numbered lo.
  ghost predicate TreeVertex(g: Graph, iv: seq<nat>, pt: seq<nat>, lo: nat, w: nat) {
    && w < |iv| && w < |pt| && lo <= pt[w] < w
    && Edge(g, iv[pt[w]], iv[w])
    && Anc(pt, pt[w], w - 1) && Anc(pt, lo, w)
  }

  ghost predicate TreeRange(g: Graph, iv: seq<nat>, pt: seq<nat>, lo: nat, k: nat) {
    forall w: nat :: lo < w <= k ==> TreeVertex(g, iv, pt, lo, w)
  }

  // All edges of the vertex numbered x lead to visited vertices, and those to
  // higher numbers to descendants.
  ghost predicate Finished(g: Graph, vt: seq<nat>, iv: seq<nat>, pt: seq<nat>, x: nat) {
    && x < |iv| && iv[x] < |g|
    && forall y: nat :: y in g[iv[x]] ==> y < |vt| && vt[y] >= 1 && NoCrossForward(pt, x, vt[y])
  }

  ghost predicate FinishedRange(g: Graph, vt: seq<nat>, iv: seq<nat>, pt: seq<nat>, lo: nat, k: nat) {
    forall x: nat :: lo <= x <= k ==> Finished(g, vt, iv, pt, x)
  }

  // From the state (vt0, iv0, pt0) with m numbers given out, a call has numbered
  // a tree m + 1 .. k and finished all of it but perhaps its root.
  ghost predicate Subtree(g: Graph, vt0: seq<nat>, iv0: seq<nat>, pt0: seq<nat>, vt: seq<nat>, iv: seq<nat>, pt: seq<nat>,
                          m: nat, k: nat)
  {
    && |vt0| == |iv0| == |pt0| == |vt| == |iv| == |pt| && m < k && Numbering(g, vt, iv, k)
    && (forall v :: 0 <= v < |vt0| && vt0[v] >= 1 ==> vt[v] == vt0[v])
    && (forall i :: 0 <= i <= m ==> iv[i] == iv0[i])
    && (forall i :: 0 <= i <= m + 1 && i < |pt| ==> pt[i] == pt0[i])
    && TreeRange(g, iv, pt, m + 1, k) && FinishedRange(g, vt, iv, pt, m + 2, k)
  }

  lemma SubtreeNumbering(g: Graph, vt0: seq<nat>, iv0: seq<nat>, pt0: seq<nat>, vt: seq<nat>, iv: seq<nat>, pt: seq<nat>,
                         m: nat, k: nat)
    requires Subtree(g, vt0, iv0, pt0, vt, iv, pt, m, k)
    ensures Numbering(g, vt, iv, k) && k < |pt|
    ensures forall v :: 0 <= v < |vt| ==> vt[v] <= k && (vt0[v] >= 1 ==> vt[v] == vt0[v])
  {
  }

  lemma {:induction false} BoundedSet(s: set<nat>, n: nat)
    requires forall x :: x in s ==> x < n
    ensures |s| <= n
    decreases n
  {
    if n > 0 {
      BoundedSet(s - {n - 1}, n - 1);
    } else {
      assert s == {};
    }
  }

  lemma {:induction false} DistinctCount(iv: seq<nat>, k: nat) returns (s: set<nat>)
    requires k < |iv|
    requires forall i, j :: 1 <= i < j <= k ==> iv[i] != iv[j]
    ensures |s| == k && forall x :: x in s <==> exists i :: 1 <= i <= k && iv[i] == x
    decreases k
  {
    if k == 0 {
      s := {};
    } else {
      s := DistinctCount(iv, k - 1);
      s := s + {iv[k]};
    }
  }

  // While a vertex is unvisited, fewer than |g| numbers have been given out.
  lemma NumbersLeft(g: Graph, vt: seq<nat>, iv: seq<nat>, k: nat, u: nat)
    requires Numbering(g, vt, iv, k) && u < |g| && vt[u] == 0
    ensures k < |g|
  {
    var s := DistinctCount(iv, k);
    assert u !in s;
    BoundedSet(s + {u}, |g|);
  }

  // Giving the next number to an unvisited vertex.
  lemma NumberNext(g: Graph, vt: seq<nat>, iv: seq<nat>, pt: seq<nat>, k: nat, u: nat)
    requires Numbering(g, vt, iv, k) && u < |g| && vt[u] == 0
    ensures k < |g| && Numbering(g, vt[u := k + 1], iv[k + 1 := u], k + 1)
    ensures |pt| == |vt| ==> Subtree(g, vt, iv, pt, vt[u := k + 1], iv[k + 1 := u], pt, k, k + 1)
  {
    NumbersLeft(g, vt, iv, k, u);
  }

  lemma NumbersBound(g: Graph, vt: seq<nat>, iv: seq<nat>, k: nat)
    requires Numbering(g, vt, iv, k)
    ensures k <= |g|
  {
    var s := DistinctCount(iv, k);
    BoundedSet(s, |g|);
  }

  // Back from the recursive call that numbered the child m + 1 .. k', the
  // child's parent entry is set to lo; the child's subtree joins lo's.
  lemma JoinChild(g: Graph, iv: seq<nat>, pt: seq<nat>, pt': seq<nat>, lo: nat, m: nat, k': nat)
    requires 1 <= lo <= m < k' < |iv| == |pt| == |pt'|
    requires TreeRange(g, iv, pt, lo, m) && TreeRange(g, iv, pt, m + 1, k')
    requires pt' == pt[m + 1 := lo]
    requires Edge(g, iv[lo], iv[m + 1])
    ensures TreeRange(g, iv, pt', lo, k')
  {
    if lo < m {
      assert TreeVertex(g, iv, pt, lo, m);
    }
    assert Anc(pt, lo, m);
    AncFrame(pt, pt', lo, m);
    assert Anc(pt', lo, lo);
    forall w: nat | lo < w <= k' ensures TreeVertex(g, iv, pt', lo, w) {
      if w <= m {
        assert TreeVertex(g, iv, pt, lo, w);
        AncFrame(pt, pt', pt[w], w - 1);
        AncFrame(pt, pt', lo, w);
      } else if w > m + 1 {
        assert TreeVertex(g, iv, pt, m + 1, w);
        AncFrame(pt, pt', pt[w], w - 1);
        AncFrame(pt, pt', m + 1, w);
        assert Anc(pt', lo, m + 1);
        AncTransitive(pt', lo, m + 1, w);
      }
    }
  }

  lemma FinishedFrame(g: Graph, vt: seq<nat>, vt': seq<nat>, iv: seq<nat>, iv': seq<nat>,
                      pt: seq<nat>, pt': seq<nat>, x: nat, k: nat)
    requires Finished(g, vt, iv, pt, x) && |vt| == |vt'| && |iv| == |iv'| && |pt| == |pt'|
    requires forall v :: 0 <= v < |vt| && vt[v] >= 1 ==> vt'[v] == vt[v] <= k
    requires iv'[x] == iv[x]
    requires forall i :: x < i <= k && i < |pt| ==> pt'[i] == pt[i]
    ensures Finished(g, vt', iv', pt', x)
  {
    forall y: nat | y in g[iv[x]] ensures vt'[y] >= 1 && NoCrossForward(pt', x, vt'[y]) {
      assert NoCrossForward(pt, x, vt[y]);
      if x < vt[y] {
        AncFrame(pt, pt', x, vt[y]);
      }
    }
  }

  // The state after the recursive call on the child v of u, once v's parent
  // entry has been set.
  lemma AfterCall(g: Graph, vt0: seq<nat>, iv0: seq<nat>, pt0: seq<nat>, vt: seq<nat>, iv: seq<nat>, pt: seq<nat>,
                  vt1: seq<nat>, iv1: seq<nat>, pt1: seq<nat>, pt2: seq<nat>,
                  m0: nat, m: nat, k: nat, u: nat, v: nat)
    requires Subtree(g, vt0, iv0, pt0, vt, iv, pt, m0, m) && Subtree(g, vt, iv, pt, vt1, iv1, pt1, m, k)
    requires Finished(g, vt1, iv1, pt1, m + 1)
    requires u < |g| && v < |g| && v in g[u] && vt[u] == m0 + 1 && vt1[v] == m + 1
    requires pt2 == pt1[m + 1 := m0 + 1]
    ensures Subtree(g, vt0, iv0, pt0, vt1, iv1, pt2, m0, k)
  {
    var lo := m0 + 1;
    forall w: nat | lo < w <= m ensures TreeVertex(g, iv1, pt1, lo, w) {
      assert TreeVertex(g, iv, pt, lo, w);
      AncFrame(pt, pt1, pt[w], w - 1);
      AncFrame(pt, pt1, lo, w);
    }
    JoinChild(g, iv1, pt1, pt2, lo, m, k);
    forall x: nat | lo + 1 <= x <= k ensures Finished(g, vt1, iv1, pt2, x) {
      if x <= m {
        assert Finished(g, vt, iv, pt, x);
        FinishedFrame(g, vt, vt1, iv, iv1, pt, pt2, x, m);
      } else {
        assert Finished(g, vt1, iv1, pt1, x);
        FinishedFrame(g, vt1, vt1, iv1, iv1, pt1, pt2, x, k);
      }
    }
  }

  lemma FinishRoot(g: Graph, vt0: seq<nat>, iv0: seq<nat>, pt0: seq<nat>, vt: seq<nat>, iv: seq<nat>, pt: seq<nat>,
                   m: nat, k: nat, u: nat)
    requires Subtree(g, vt0, iv0, pt0, vt, iv, pt, m, k) && WellFormed(g) && u < |g| && vt[u] == m + 1
    requires forall j :: 0 <= j < |g[u]| ==> g[u][j] < |vt| && vt[g[u][j]] >= 1
    ensures Finished(g, vt, iv, pt, m + 1)
  {
    var lo := m + 1;
    forall y: nat | y in g[u] ensures y < |vt| && vt[y] >= 1 && NoCrossForward(pt, lo, vt[y]) {
      if lo < vt[y] {
        assert TreeVertex(g, iv, pt, lo, vt[y]);
      }
    }
  }
}
