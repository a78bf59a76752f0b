// From DFS numbers back to vertices: paths, dominators and immediate dominators
// are the same on both sides.
module Renumbering {
  import opened FlowGraph
  import opened Semidominators
  import opened DepthFirst

  function At(s: seq<nat>, i: nat): nat { if i < |s| then s[i] else 0 }

  function RowOf(g: Graph, x: nat): seq<nat> { if x < |g| then g[x] else [] }

  function MapRow(vt: seq<nat>, row: seq<nat>): (r: seq<nat>)
    ensures |r| == |row| && forall j :: 0 <= j < |row| ==> r[j] == At(vt, row[j])
  {
    seq(|row|, j requires 0 <= j < |row| => At(vt, row[j]))
  }

  lemma MapRowAppend(vt: seq<nat>, p: seq<nat>, q: seq<nat>, x: nat)
    requires p == q + [x]
    ensures MapRow(vt, p) == MapRow(vt, q) + [At(vt, x)]
  {
  }

  // The visited part of g, with every vertex replaced by its number.
  function Renumber(g: Graph, vt: seq<nat>, iv: seq<nat>, k: nat): (h: Graph)
    ensures |h| == k + 1 && h[0] == []
    ensures forall v :: 1 <= v <= k ==> h[v] == MapRow(vt, RowOf(g, At(iv, v)))
  {
    seq(k + 1, v => if v <= 0 then [] else MapRow(vt, RowOf(g, At(iv, v))))
  }

  // The result of a complete search from vertex 0.
  ghost predicate Complete(g: Graph, vt: seq<nat>, iv: seq<nat>, pt: seq<nat>, k: nat) {
    && WellFormed(g) && Numbering(g, vt, iv, k) && |pt| == |vt| && 1 <= k && vt[0] == 1 && iv[1] == 0
    && TreeRange(g, iv, pt, 1, k) && FinishedRange(g, vt, iv, pt, 1, k)
  }

  lemma RenumberEdge(g: Graph, vt: seq<nat>, iv: seq<nat>, pt: seq<nat>, k: nat, v: nat, w: nat)
    requires Complete(g, vt, iv, pt, k) && 1 <= v <= k
    ensures w in Renumber(g, vt, iv, k)[v] <==> 1 <= w <= k && Edge(g, iv[v], iv[w])
  {
    var row := g[iv[v]];
    assert Finished(g, vt, iv, pt, v);
    assert Renumber(g, vt, iv, k)[v] == MapRow(vt, row);
    if w in MapRow(vt, row) {
      var j :| 0 <= j < |row| && MapRow(vt, row)[j] == w;
      assert row[j] in row;
    }
    if 1 <= w <= k && Edge(g, iv[v], iv[w]) {
      var j :| 0 <= j < |row| && row[j] == iv[w];
      assert MapRow(vt, row)[j] == w;
    }
  }

  lemma CompleteIsDfsNumbered(g: Graph, vt: seq<nat>, iv: seq<nat>, pt: seq<nat>, k: nat)
    requires Complete(g, vt, iv, pt, k)
    ensures DfsNumbered(Renumber(g, vt, iv, k), pt[..k + 1])
  {
    var h, par := Renumber(g, vt, iv, k), pt[..k + 1];
    forall v: nat, w: nat | 1 <= v < |h| && w in h[v]
      ensures 1 <= w < |h| && NoCrossForward(par, v, w)
    {
      RenumberEdge(g, vt, iv, pt, k, v, w);
      assert Finished(g, vt, iv, pt, v);
      assert iv[w] in g[iv[v]];
      assert NoCrossForward(pt, v, vt[iv[w]]);
      if v < w { AncFrame(pt, par, v, w); }
    }
    forall w: nat | 2 <= w < |h| ensures TreeEdge(h, par, w) {
      assert TreeVertex(g, iv, pt, 1, w);
      RenumberEdge(g, vt, iv, pt, k, pt[w], w);
      AncFrame(pt, par, pt[w], w - 1);
    }
  }

  lemma PathEnds(g: Graph, p: seq<nat>, v: nat, w: nat)
    requires IsPath(g, p, v, w)
    ensures |p| >= 1 && p[0] == v < |g| && p[|p| - 1] == w
    ensures |p| >= 2 ==> Edge(g, p[|p| - 2], w)
  {
    if |p| >= 2 { assert StepAt(g, p, |p| - 2); }
  }

  lemma SuccessorVisited(g: Graph, vt: seq<nat>, iv: seq<nat>, pt: seq<nat>, k: nat, u: nat, v: nat)
    requires Complete(g, vt, iv, pt, k) && u < |vt| && vt[u] >= 1 && Edge(g, u, v)
    ensures v < |vt| && vt[v] >= 1
  {
    assert Finished(g, vt, iv, pt, vt[u]);
  }

  lemma {:induction false} PathToNumbers(g: Graph, vt: seq<nat>, iv: seq<nat>, pt: seq<nat>, k: nat, p: seq<nat>, v: nat)
    requires Complete(g, vt, iv, pt, k) && IsPath(g, p, 0, v)
    ensures v < |vt| && vt[v] >= 1
    ensures IsPath(Renumber(g, vt, iv, k), MapRow(vt, p), 1, vt[v])
    ensures forall x :: x in p ==> x < |vt| && vt[x] >= 1
    decreases |p|
  {
    hide TreeRange, FinishedRange, Finished, Anc, Renumber, IsPath;
    PathEnds(g, p, 0, v);
    if |p| == 1 {
      assert MapRow(vt, p) == [1];
      PathSingle(Renumber(g, vt, iv, k), 1);
    } else {
      var u, q := p[|p| - 2], p[0..|p| - 1];
      PathSlice(g, p, 0, v, 0, |p| - 2);
      PathToNumbers(g, vt, iv, pt, k, q, u);
      SuccessorVisited(g, vt, iv, pt, k, u, v);
      RenumberEdge(g, vt, iv, pt, k, vt[u], vt[v]);
      PathExtend(Renumber(g, vt, iv, k), MapRow(vt, q), 1, vt[u], vt[v]);
      assert p == q + [v];
      MapRowAppend(vt, p, q, v);
    }
  }

  lemma {:induction false} PathToVertices(g: Graph, vt: seq<nat>, iv: seq<nat>, pt: seq<nat>, k: nat, p: seq<nat>, w: nat)
    requires Complete(g, vt, iv, pt, k) && IsPath(Renumber(g, vt, iv, k), p, 1, w)
    ensures 1 <= w <= k && IsPath(g, MapRow(iv, p), 0, iv[w])
    ensures forall x :: x in p ==> 1 <= x <= k
    decreases |p|
  {
    hide *;
    var h := Renumber(g, vt, iv, k);
    CompleteStart(g, vt, iv, pt, k);
    PathEnds(h, p, 1, w);
    if |p| == 1 {
      assert p == [1] && MapRow(iv, p) == [0];
      PathSingle(g, 0);
    } else {
      var u, q := p[|p| - 2], p[0..|p| - 1];
      PathSlice(h, p, 1, w, 0, |p| - 2);
      PathToVertices(g, vt, iv, pt, k, q, u);
      NumbersEdge(g, vt, iv, pt, k, u, w);
      PathExtend(g, MapRow(iv, q), 0, iv[u], iv[w]);
      assert p == q + [w];
      MapRowAppend(iv, p, q, w);
    }
  }

  lemma CompleteStart(g: Graph, vt: seq<nat>, iv: seq<nat>, pt: seq<nat>, k: nat)
    requires Complete(g, vt, iv, pt, k)
    ensures k >= 1 && k < |iv| && iv[1] == 0 && 0 < |g|
    ensures forall v: nat :: At(iv, v) == if v < |iv| then iv[v] else 0
  {
  }

  lemma NumbersEdge(g: Graph, vt: seq<nat>, iv: seq<nat>, pt: seq<nat>, k: nat, u: nat, w: nat)
    requires Complete(g, vt, iv, pt, k) && 1 <= u <= k && Edge(Renumber(g, vt, iv, k), u, w)
    ensures 1 <= w <= k < |iv| && Edge(g, iv[u], iv[w])
  {
    hide TreeRange, FinishedRange, Finished, Anc, Renumber;
    RenumberEdge(g, vt, iv, pt, k, u, w);
  }

  lemma DominatesToVertices(g: Graph, vt: seq<nat>, iv: seq<nat>, pt: seq<nat>, k: nat, d: nat, w: nat)
    requires Complete(g, vt, iv, pt, k) && 1 <= d <= k && 1 <= w <= k
    requires Dominates(Renumber(g, vt, iv, k), 1, d, w)
    ensures Dominates(g, 0, iv[d], iv[w])
  {
    forall p | IsPath(g, p, 0, iv[w]) ensures iv[d] in p {
      PathToNumbers(g, vt, iv, pt, k, p, iv[w]);
      var i :| 0 <= i < |p| && MapRow(vt, p)[i] == d;
      assert p[i] in p;
    }
  }

  lemma DominatesToNumbers(g: Graph, vt: seq<nat>, iv: seq<nat>, pt: seq<nat>, k: nat, d: nat, w: nat)
    requires Complete(g, vt, iv, pt, k) && 1 <= d <= k && 1 <= w <= k
    requires Dominates(g, 0, iv[d], iv[w])
    ensures Dominates(Renumber(g, vt, iv, k), 1, d, w)
  {
    forall p | IsPath(Renumber(g, vt, iv, k), p, 1, w) ensures d in p {
      PathToVertices(g, vt, iv, pt, k, p, w);
      var i :| 0 <= i < |p| && MapRow(iv, p)[i] == iv[d];
      assert p[i] in p;
      assert vt[iv[p[i]]] == p[i];
    }
  }

  lemma IdomToVertices(g: Graph, vt: seq<nat>, iv: seq<nat>, pt: seq<nat>, k: nat, d: nat, w: nat)
    requires Complete(g, vt, iv, pt, k) && 1 <= d <= k && 1 <= w <= k
    requires IsIdom(Renumber(g, vt, iv, k), 1, d, w)
    ensures IsIdom(g, 0, iv[d], iv[w])
  {
    DominatesToVertices(g, vt, iv, pt, k, d, w);
    assert iv[d] != iv[w] by { assert vt[iv[d]] == d && vt[iv[w]] == w; }
    VisitedIsReachable(g, vt, iv, pt, k, w);
    forall e: nat | StrictlyDominates(g, 0, e, iv[w]) ensures Dominates(g, 0, e, iv[d]) {
      var p :| IsPath(g, p, 0, iv[w]);
      PathToNumbers(g, vt, iv, pt, k, p, iv[w]);
      assert e in p;
      DominatesToNumbers(g, vt, iv, pt, k, vt[e], w);
      DominatesToVertices(g, vt, iv, pt, k, vt[e], d);
    }
  }

  lemma VisitedIsReachable(g: Graph, vt: seq<nat>, iv: seq<nat>, pt: seq<nat>, k: nat, w: nat)
    requires Complete(g, vt, iv, pt, k) && 1 <= w <= k
    ensures Reachable(g, 0, iv[w])
  {
    CompleteIsDfsNumbered(g, vt, iv, pt, k);
    var h, par := Renumber(g, vt, iv, k), pt[..k + 1];
    RootIsAncestor(h, par, w);
    var p := TreePath(h, par, 1, w);
    PathToVertices(g, vt, iv, pt, k, p, w);
  }

  // Depth-first search visits exactly what is reachable.
  lemma VisitedIffReachable(g: Graph, vt: seq<nat>, iv: seq<nat>, pt: seq<nat>, k: nat, v: nat)
    requires Complete(g, vt, iv, pt, k) && v < |g|
    ensures vt[v] >= 1 <==> Reachable(g, 0, v)
  {
    if vt[v] >= 1 {
      VisitedIsReachable(g, vt, iv, pt, k, vt[v]);
    }
    if Reachable(g, 0, v) {
      var p :| IsPath(g, p, 0, v);
      PathToNumbers(g, vt, iv, pt, k, p, v);
    }
  }
}
