module DominatorTree {
  import opened FlowGraph
  import opened Semidominators
  import opened DepthFirst
  import opened LinkEval

  const MAX_VERTICES: nat := 512

  // The static arrays of dom.c; a fresh object is the state after
  // dom_tree_reset_state().
  class DomState {
    const graph: array<seq<nat>>
    const reverseGraph: array<seq<nat>>
    const semidoms: array<seq<nat>>
    const visitTime: array<nat>
    const inverseVisitTime: array<nat>
    const parentInDfsTree: array<nat>
    const semidom: array<nat>
    const idom: array<nat>
    const unionFind: array<nat>
    const pathCompression: array<nat>
    var dfsIndex: nat

    ghost predicate Shape() {
      && graph.Length == reverseGraph.Length == semidoms.Length == MAX_VERTICES
      && visitTime.Length == inverseVisitTime.Length == parentInDfsTree.Length == MAX_VERTICES
      && semidom.Length == idom.Length == unionFind.Length == pathCompression.Length == MAX_VERTICES
      && graph != reverseGraph && graph != semidoms && reverseGraph != semidoms
      && visitTime != inverseVisitTime && visitTime != parentInDfsTree && visitTime != semidom
      && visitTime != idom && visitTime != unionFind && visitTime != pathCompression
      && inverseVisitTime != parentInDfsTree && inverseVisitTime != semidom && inverseVisitTime != idom
      && inverseVisitTime != unionFind && inverseVisitTime != pathCompression
      && parentInDfsTree != semidom && parentInDfsTree != idom && parentInDfsTree != unionFind
      && parentInDfsTree != pathCompression
      && semidom != idom && semidom != unionFind && semidom != pathCompression
      && idom != unionFind && idom != pathCompression && unionFind != pathCompression
    }

    constructor ()
      ensures Shape()
      ensures fresh(graph) && fresh(reverseGraph) && fresh(semidoms) && fresh(visitTime)
      ensures fresh(inverseVisitTime) && fresh(parentInDfsTree) && fresh(semidom) && fresh(idom)
      ensures fresh(unionFind) && fresh(pathCompression)
      ensures forall i :: 0 <= i < MAX_VERTICES ==> graph[i] == [] && reverseGraph[i] == [] && semidoms[i] == []
      ensures forall i :: 0 <= i < MAX_VERTICES ==> visitTime[i] == 0 && inverseVisitTime[i] == 0
      ensures forall i :: 0 <= i < MAX_VERTICES ==> parentInDfsTree[i] == 0 && semidom[i] == 0 && idom[i] == 0
      ensures forall i :: 0 <= i < MAX_VERTICES ==> unionFind[i] == 0 && pathCompression[i] == 0
      ensures dfsIndex == 0
    {
      graph := new seq<nat>[MAX_VERTICES](_ => []);
      reverseGraph := new seq<nat>[MAX_VERTICES](_ => []);
      semidoms := new seq<nat>[MAX_VERTICES](_ => []);
      visitTime := new nat[MAX_VERTICES](_ => 0);
      inverseVisitTime := new nat[MAX_VERTICES](_ => 0);
      parentInDfsTree := new nat[MAX_VERTICES](_ => 0);
      semidom := new nat[MAX_VERTICES](_ => 0);
      idom := new nat[MAX_VERTICES](_ => 0);
      unionFind := new nat[MAX_VERTICES](_ => 0);
      pathCompression := new nat[MAX_VERTICES](_ => 0);
      dfsIndex := 0;
    }

    // Depth-first search from u.  With m the counter on entry, the call numbers
    // a subtree m + 1 .. dfsIndex rooted at u, leaves every earlier number
    // alone, and finishes every vertex it numbers.
    method Dfs(u: nat, ghost g: Graph)
      requires Shape() && WellFormed(g) && |g| < MAX_VERTICES && graph[..|g|] == g
      requires u < |g| && visitTime[u] == 0
      requires Numbering(g, visitTime[..], inverseVisitTime[..], dfsIndex)
      modifies visitTime, inverseVisitTime, parentInDfsTree, `dfsIndex
      ensures Subtree(g, old(visitTime[..]), old(inverseVisitTime[..]), old(parentInDfsTree[..]),
                      visitTime[..], inverseVisitTime[..], parentInDfsTree[..], old(dfsIndex), dfsIndex)
      ensures Finished(g, visitTime[..], inverseVisitTime[..], parentInDfsTree[..], old(dfsIndex) + 1)
      ensures dfsIndex > old(dfsIndex) && visitTime[u] == old(dfsIndex) + 1
      decreases |g| - dfsIndex
    {
      hide Subtree, Finished, Numbering;
      ghost var m0, vt0, iv0, pt0 := dfsIndex, visitTime[..], inverseVisitTime[..], parentInDfsTree[..];
      NumberNext(g, vt0, iv0, pt0, m0, u);
      dfsIndex := dfsIndex + 1;
      visitTime[u] := dfsIndex;
      inverseVisitTime[dfsIndex] := u;
      assert visitTime[..] == vt0[u := dfsIndex] && inverseVisitTime[..] == iv0[dfsIndex := u];

      var i := 0;
      while i < |graph[u]|
        invariant 0 <= i <= |graph[u]|
        invariant m0 < dfsIndex && visitTime[u] == m0 + 1
        invariant Subtree(g, vt0, iv0, pt0, visitTime[..], inverseVisitTime[..], parentInDfsTree[..], m0, dfsIndex)
        invariant forall j :: 0 <= j < i ==> g[u][j] < MAX_VERTICES && visitTime[g[u][j]] >= 1
      {
        var v := graph[u][i];
        assert v in g[u];
        ghost var m, vt, iv, pt := dfsIndex, visitTime[..], inverseVisitTime[..], parentInDfsTree[..];
        SubtreeNumbering(g, vt0, iv0, pt0, vt, iv, pt, m0, m);
        if visitTime[v] == 0 {
          Dfs(v, g);
          ghost var vt1, iv1, pt1 := visitTime[..], inverseVisitTime[..], parentInDfsTree[..];
          SubtreeNumbering(g, vt, iv, pt, vt1, iv1, pt1, m, dfsIndex);
          parentInDfsTree[visitTime[v]] := visitTime[u];
          AfterCall(g, vt0, iv0, pt0, vt, iv, pt, vt1, iv1, pt1, parentInDfsTree[..], m0, m, dfsIndex, u, v);
        }
        i := i + 1;
      }
      FinishRoot(g, vt0, iv0, pt0, visitTime[..], inverseVisitTime[..], parentInDfsTree[..], m0, dfsIndex, u);
    }

    // The state that the loop of DomTree reads and writes, fixed apart from
    // semidom, idom, unionFind, pathCompression and semidoms.
    ghost predicate Searched(g: Graph, h: Graph, par: seq<nat>)
      reads this, visitTime, inverseVisitTime, parentInDfsTree, graph, reverseGraph
    {
      && Shape() && |h| == |par| == dfsIndex + 1 <= MAX_VERTICES
      && par == parentInDfsTree[..dfsIndex + 1] && parentInDfsTree[1] == 0 && DfsNumbered(h, par)
      && Renumbers(g, graph[..], reverseGraph[..], visitTime[..], inverseVisitTime[..], h)
    }

    method LeastSemidom(u: nat, ghost h: Graph, ghost par: seq<nat>, ghost lo: nat)
      returns (from: nat, to: nat)
      requires Shape() && DfsNumbered(h, par) && 1 <= lo <= u < |par| <= MAX_VERTICES
      requires LinkForest(par, unionFind[..], pathCompression[..], semidom[..], lo)
      modifies unionFind, pathCompression
      ensures LinkForest(par, unionFind[..], pathCompression[..], semidom[..], lo)
      ensures SameAnswers(old(unionFind[..]), old(pathCompression[..]), unionFind[..], pathCompression[..], semidom[..])
      ensures from == Eval(old(unionFind[..]), old(pathCompression[..]), semidom[..], u)
      ensures to == Root(old(unionFind[..]), u)
      ensures forall x :: u < x < MAX_VERTICES ==> unionFind[x] == old(unionFind[x]) && pathCompression[x] == old(pathCompression[x])
      decreases u
    {
      ghost var uf0, pc0, sd := unionFind[..], pathCompression[..], semidom[..];
      assert LinkedRight(par, uf0, pc0, sd, lo, u);
      if u == unionFind[u] {
        return u, u;
      }
      var p, t := LeastSemidom(unionFind[u], h, par, lo);
      ghost var uf1, pc1 := unionFind[..], pathCompression[..];
      assert uf1[u] == uf0[u] && pc1[u] == pc0[u];
      CompressionKeepsForest(h, par, uf1, pc1, sd, lo, u);
      forall x | 0 <= x < MAX_VERTICES
        ensures var uf2, pc2 := uf1[u := Root(uf1, u)], pc1[u := Eval(uf1, pc1, sd, u)];
                Root(uf2, x) == Root(uf0, x) && Eval(uf2, pc2, sd, x) == Eval(uf0, pc0, sd, x)
      {
        CompressionKeepsAnswers(uf1, pc1, sd, u, x);
      }
      unionFind[u] := t;
      if semidom[p] < semidom[pathCompression[u]] {
        pathCompression[u] := p;
      }
      assert unionFind[..] == uf1[u := Root(uf1, u)];
      assert pathCompression[..] == pc1[u := Eval(uf1, pc1, sd, u)];
      return pathCompression[u], unionFind[u];
    }

    // Step 2: the semidominator of u from its predecessors.
    method ComputeSemidom(u: nat, ghost g: Graph, ghost h: Graph, ghost par: seq<nat>)
      requires Searched(g, h, par) && 1 <= u <= dfsIndex
      requires LinkForest(par, unionFind[..], pathCompression[..], semidom[..], u)
      requires Untouched(semidom[..], u)
      modifies semidom, unionFind, pathCompression
      ensures LinkForest(par, unionFind[..], pathCompression[..], semidom[..], u)
      ensures forall i :: 0 <= i < MAX_VERTICES && i != u ==> semidom[i] == old(semidom[i])
      ensures BestSemidom(h, visitTime[..], reverseGraph[inverseVisitTime[u]], par, semidom[..], u)
    {
      hide LinkForest, BestSemidom, DfsNumbered, SameAnswers;
      ghost var row, vt := reverseGraph[inverseVisitTime[u]], visitTime[..];
      ghost var rev, iv := reverseGraph[..], inverseVisitTime[..];
      BestSemidomStart(h, vt, par, semidom[..], u);
      assert row[..0] == [];
      var i := 0;
      while i < |reverseGraph[inverseVisitTime[u]]|
        invariant 0 <= i <= |row|
        invariant LinkForest(par, unionFind[..], pathCompression[..], semidom[..], u)
        invariant forall i :: 0 <= i < MAX_VERTICES && i != u ==> semidom[i] == old(semidom[i])
        invariant BestSemidom(h, vt, row[..i], par, semidom[..], u)
      {
        ghost var sd := semidom[..];
        var x := reverseGraph[inverseVisitTime[u]][i];
        RowEntry(g, h, graph[..], rev, vt, iv, u, x);
        var v := visitTime[x];
        if v < u {
          semidom[u] := if semidom[u] < semidom[v] then semidom[u] else semidom[v];
          CandidateBelow(h, par, vt, row[..i], x, sd, semidom[..], u);
        } else {
          ghost var uf0, pc0 := unionFind[..], pathCompression[..];
          var best, _ := LeastSemidom(v, h, par, u);
          semidom[u] := if semidom[u] < semidom[best] then semidom[u] else semidom[best];
          CandidateAbove(h, par, uf0, pc0, vt, row[..i], x, sd, semidom[..], u);
        }
        ForestFrame(par, unionFind[..], pathCompression[..], sd, semidom[..], u);
        assert row[..i + 1] == row[..i] + [x];
        i := i + 1;
      }
      assert row[..i] == row;
    }

    // Step 3: the vertices whose semidominator is u get u, or a vertex with the
    // same immediate dominator.
    method ProcessBucket(u: nat, ghost h: Graph, ghost par: seq<nat>)
      requires Shape() && DfsNumbered(h, par) && 1 <= u < |par| <= MAX_VERTICES
      requires LinkForest(par, unionFind[..], pathCompression[..], semidom[..], u)
      requires forall e :: e in semidoms[u] ==> u <= e < |par| && semidom[e] == u
      modifies idom, unionFind, pathCompression
      ensures LinkForest(par, unionFind[..], pathCompression[..], semidom[..], u)
      ensures forall e :: e in semidoms[u] ==> Deferred(par, semidom[..], e, idom[e])
      ensures forall e :: 0 <= e < MAX_VERTICES && e !in semidoms[u] ==> idom[e] == old(idom[e])
    {
      hide LinkForest, DfsNumbered, Deferred, SameAnswers;
      ghost var sd, bucket := semidom[..], semidoms[u];
      var i := 0;
      while i < |semidoms[u]|
        invariant 0 <= i <= |bucket|
        invariant LinkForest(par, unionFind[..], pathCompression[..], sd, u)
        invariant forall e :: e in bucket[..i] ==> e < MAX_VERTICES && Deferred(par, sd, e, idom[e])
        invariant forall e :: 0 <= e < MAX_VERTICES && e !in bucket ==> idom[e] == old(idom[e])
      {
        var v := semidoms[u][i];
        assert v in bucket;
        ghost var uf0, pc0 := unionFind[..], pathCompression[..];
        var best, _ := LeastSemidom(v, h, par, u);
        DeferredFromEval(h, par, uf0, pc0, sd, u, v);
        if semidom[best] >= u {
          idom[v] := u;
        } else {
          idom[v] := best;
        }
        assert bucket[..i + 1] == bucket[..i] + [v];
        i := i + 1;
      }
      assert bucket[..i] == bucket;
    }

    // Links the children of u in the search tree to u.
    method LinkToParent(u: nat, ghost g: Graph, ghost h: Graph, ghost par: seq<nat>)
      requires Searched(g, h, par) && 1 <= u <= dfsIndex
      requires LinkForest(par, unionFind[..], pathCompression[..], semidom[..], u)
      modifies unionFind
      ensures LinkForest(par, unionFind[..], pathCompression[..], semidom[..], u - 1)
    {
      ghost var uf0, row := unionFind[..], graph[inverseVisitTime[u]];
      ghost var vt, iv := visitTime[..], inverseVisitTime[..];
      assert row == g[iv[u]];
      var i := 0;
      while i < |graph[inverseVisitTime[u]]|
        invariant 0 <= i <= |row|
        invariant forall x :: 0 <= x < MAX_VERTICES ==>
                    unionFind[x] == if 2 <= x < |par| && par[x] == u && x in Numbers(vt, row[..i]) then u else uf0[x]
      {
        var v := graph[inverseVisitTime[u]][i];
        assert v in row && Edge(g, iv[u], v);
        v := visitTime[v];
        ParentEntry(h, par, parentInDfsTree[..], v, u);
        if parentInDfsTree[v] == u {
          unionFind[v] := u;
        }
        NumbersStep(vt, row, i);
        i := i + 1;
      }
      assert row[..i] == row;
      forall x: nat | 2 <= x < |par| && par[x] == u ensures x in Numbers(vt, row) {
        assert TreeEdge(h, par, x);
        assert iv[x] in row;
      }
      LinkChildren(h, par, uf0, unionFind[..], pathCompression[..], semidom[..], u);
    }

    // "Each node dominates itself": the loop before step 2.
    method InitTrees(ghost g: Graph, ghost h: Graph, ghost par: seq<nat>)
      requires Searched(g, h, par)
      requires semidom[0] == 0 && idom[0] == 0 && unionFind[0] == 0 && pathCompression[0] == 0
      requires forall i :: 0 <= i < MAX_VERTICES ==> semidoms[..][i] == []
      requires forall i :: dfsIndex < i < MAX_VERTICES ==> unionFind[i] == 0 && pathCompression[i] == 0
      modifies semidom, idom, unionFind, pathCompression
      ensures LinkForest(par, unionFind[..], pathCompression[..], semidom[..], dfsIndex)
      ensures Progress(h, par, visitTime[..], reverseGraph[..], inverseVisitTime[..], semidom[..], semidoms[..], idom[..], dfsIndex)
    {
      var i := 1;
      while i <= dfsIndex
        invariant 1 <= i <= dfsIndex + 1
        invariant semidom[0] == 0 && idom[0] == 0 && unionFind[0] == 0 && pathCompression[0] == 0
        invariant forall x :: 1 <= x < i ==> semidom[x] == x && idom[x] == x && unionFind[x] == x && pathCompression[x] == x
        invariant forall x :: dfsIndex < x < MAX_VERTICES ==> unionFind[x] == 0 && pathCompression[x] == 0
      {
        semidom[i] := i;
        idom[i] := i;
        unionFind[i] := i;
        pathCompression[i] := i;
        i := i + 1;
      }
      InitialForest(h, par, unionFind[..], pathCompression[..], semidom[..]);
      InitialProgress(g, h, par, graph[..], reverseGraph[..], visitTime[..], inverseVisitTime[..], semidom[..], semidoms[..], idom[..]);
    }

    // Steps 2 and 3 and the linking for one u.
    method Visit(u: nat, ghost g: Graph, ghost h: Graph, ghost par: seq<nat>)
      requires Searched(g, h, par) && 1 <= u <= dfsIndex
      requires LinkForest(par, unionFind[..], pathCompression[..], semidom[..], u)
      requires Progress(h, par, visitTime[..], reverseGraph[..], inverseVisitTime[..], semidom[..], semidoms[..], idom[..], u)
      modifies semidom, idom, unionFind, pathCompression, semidoms
      ensures LinkForest(par, unionFind[..], pathCompression[..], semidom[..], u - 1)
      ensures Progress(h, par, visitTime[..], reverseGraph[..], inverseVisitTime[..], semidom[..], semidoms[..], idom[..], u - 1)
    {
      hide LinkForest, DfsNumbered, Renumbers, BestSemidom, SemidomState, Deferred, Untouched;
      ghost var vt, rev, iv := visitTime[..], reverseGraph[..], inverseVisitTime[..];
      ghost var sd, bk, id := semidom[..], semidoms[..], idom[..];
      ComputeSemidom(u, g, h, par);
      SemidomSettled(g, h, par, graph[..], rev, vt, iv, sd, semidom[..], bk, id, u);
      semidoms[semidom[u]] := semidoms[semidom[u]] + [u];
      BucketsKept(par, sd, semidom[..], bk, semidoms[..], u);
      assert BucketOf(par, semidom[..], semidoms[..][u], u - 1, u);
      ProcessBucket(u, h, par);
      DeferredKept(h, par, vt, rev, iv, sd, semidom[..], bk, semidoms[..], id, idom[..], u);
      LinkToParent(u, g, h, par);
    }

    // Step 4: take over the immediate dominator of the vertex stored in step 3.
    method ResolveDeferred(ghost g: Graph, ghost h: Graph, ghost par: seq<nat>)
      requires Searched(g, h, par)
      requires Progress(h, par, visitTime[..], reverseGraph[..], inverseVisitTime[..], semidom[..], semidoms[..], idom[..], 0)
      modifies idom
      ensures Resolved(h, par, visitTime[..], reverseGraph[..], inverseVisitTime[..], semidom[..], old(idom[..]), idom[..], dfsIndex + 1)
    {
      ghost var vt, rev, iv := visitTime[..], reverseGraph[..], inverseVisitTime[..];
      ghost var sd, id0 := semidom[..], idom[..];
      ResolveStart(h, par, vt, rev, iv, sd, semidoms[..], id0);
      var i := 1;
      while i <= dfsIndex
        invariant 1 <= i <= dfsIndex + 1
        invariant Resolved(h, par, vt, rev, iv, sd, id0, idom[..], i)
      {
        ghost var id := idom[..];
        ResolveStep(h, par, vt, rev, iv, sd, id0, id, i);
        if idom[i] != semidom[i] {
          idom[i] := idom[idom[i]];
        }
        assert idom[..] == ResolveAt(sd, id, i);
        i := i + 1;
      }
    }

    // dom_tree(): afterwards semidom[w] is the semidominator of w and idom[w] the
    // number of its immediate dominator whenever every predecessor of a vertex
    // other than the entry was visited; a vertex with an unvisited predecessor is
    // left as its own dominator.
    method DomTree(ghost g: Graph, ghost h: Graph, ghost par: seq<nat>)
      requires Searched(g, h, par)
      requires semidom[0] == 0 && idom[0] == 0 && unionFind[0] == 0 && pathCompression[0] == 0
      requires forall i :: 0 <= i < MAX_VERTICES ==> semidoms[..][i] == []
      requires forall i :: dfsIndex < i < MAX_VERTICES ==> unionFind[i] == 0 && pathCompression[i] == 0
      modifies semidom, idom, unionFind, pathCompression, semidoms
      ensures idom[0] == 0 && idom[1] == 1
      ensures forall w :: 0 <= w <= dfsIndex ==> idom[w] <= w
      ensures AllPredsVisited(visitTime[..], reverseGraph[..], inverseVisitTime[..], dfsIndex) ==>
                forall w :: 2 <= w <= dfsIndex ==> IsSemidom(h, semidom[w], w) && IsIdom(h, 1, idom[w], w)
      ensures forall w :: 2 <= w <= dfsIndex && HasBadPred(visitTime[..], reverseGraph[inverseVisitTime[w]]) ==> idom[w] == w
    {
      hide LinkForest, DfsNumbered, Renumbers, Progress;
      ghost var vt, rev, iv := visitTime[..], reverseGraph[..], inverseVisitTime[..];
      InitTrees(g, h, par);
      var u := dfsIndex;
      while u >= 1
        invariant 0 <= u <= dfsIndex
        invariant LinkForest(par, unionFind[..], pathCompression[..], semidom[..], u)
        invariant Progress(h, par, vt, rev, iv, semidom[..], semidoms[..], idom[..], u)
      {
        Visit(u, g, h, par);
        u := u - 1;
      }
      FinalSemidoms(h, par, vt, rev, iv, semidom[..], semidoms[..], idom[..]);
      ResolveDeferred(g, h, par);
    }
  }

  // What step 3 stores for w: its semidominator, or the vertex b with the least
  // semidominator on the tree path (sd[w], w].
  ghost predicate Deferred(par: seq<nat>, sd: seq<nat>, w: nat, d: nat) {
    && w < |sd|
    && if sd[w] == w then d == w
       else exists b: nat :: MinSemidomOn(par, sd, sd[w], w, b) && d == if sd[b] >= sd[w] then sd[w] else b
  }

  lemma DeferredFromEval(h: Graph, par: seq<nat>, uf: seq<nat>, pc: seq<nat>, sd: seq<nat>, u: nat, v: nat)
    requires DfsNumbered(h, par) && LinkForest(par, uf, pc, sd, u) && 1 <= u <= v < |par| && sd[v] == u
    ensures var b := Eval(uf, pc, sd, v); Deferred(par, sd, v, if sd[b] >= u then u else b)
  {
    if u == v {
      assert LinkedRight(par, uf, pc, sd, u, u);
    } else {
      EvalIsMin(h, par, uf, pc, sd, u, v);
    }
  }

  lemma DeferredFrame(par: seq<nat>, sd: seq<nat>, sd': seq<nat>, w: nat, d: nat, u: nat)
    requires Deferred(par, sd, w, d) && |sd| == |sd'| && u < w && u < sd[w]
    requires forall z :: u < z < |sd| ==> sd'[z] == sd[z]
    ensures Deferred(par, sd', w, d)
  {
    if sd[w] != w {
      var b: nat :| MinSemidomOn(par, sd, sd[w], w, b) && d == if sd[b] >= sd[w] then sd[w] else b;
      assert MinSemidomOn(par, sd', sd'[w], w, b);
    }
  }

  ghost predicate AllPredsVisited(vt: seq<nat>, rev: seq<seq<nat>>, iv: seq<nat>, k: int) {
    forall w :: 2 <= w <= k && w < |iv| && iv[w] < |rev| ==> !HasBadPred(vt, rev[iv[w]])
  }

  function Numbers(vt: seq<nat>, row: seq<nat>): set<nat> {
    set x | x in row && x < |vt| :: vt[x]
  }

  lemma NumbersStep(vt: seq<nat>, row: seq<nat>, i: nat)
    requires i < |row| && row[i] < |vt|
    ensures Numbers(vt, row[..i + 1]) == Numbers(vt, row[..i]) + {vt[row[i]]}
  {
    assert row[..i + 1] == row[..i] + [row[i]];
  }

  lemma ParentEntry(h: Graph, par: seq<nat>, pt: seq<nat>, v: nat, u: nat)
    requires DfsNumbered(h, par) && |par| <= |pt| && par == pt[..|par|] && 1 <= v < |par| && 1 <= u
    requires pt[1] == 0
    ensures pt[v] == u ==> 2 <= v && par[v] == u
  {
    assert par[v] == pt[v];
  }

  lemma InitialForest(h: Graph, par: seq<nat>, uf: seq<nat>, pc: seq<nat>, sd: seq<nat>)
    requires DfsNumbered(h, par) && |par| <= |uf| == |pc| == |sd|
    requires forall x :: 1 <= x < |par| ==> uf[x] == x && pc[x] == x
    requires uf[0] == 0 && pc[0] == 0
    requires forall x :: |par| <= x < |uf| ==> uf[x] == 0 && pc[x] == 0
    ensures LinkForest(par, uf, pc, sd, |par| - 1)
  {
    var k := |par| - 1;
    forall x: nat | x < |uf| ensures LinkedRight(par, uf, pc, sd, k, x) {
      if 2 <= x < |par| { assert TreeEdge(h, par, x); }
    }
  }

  // The state of the main loop when u is next: semidominators above u are
  // final, each is recorded in its bucket, and buckets above u are emptied.
  ghost predicate Progress(h: Graph, par: seq<nat>, vt: seq<nat>, rev: seq<seq<nat>>, iv: seq<nat>,
                           sd: seq<nat>, bk: seq<seq<nat>>, id: seq<nat>, u: nat)
  {
    && |sd| == |bk| == |id| == |iv| && |par| <= |sd| && u < |par|
    && (forall w :: 1 <= w < |par| ==> iv[w] < |rev|)
    && Untouched(sd, u) && SemidomState(h, par, vt, rev, iv, sd, u)
    && Buckets(par, sd, bk, u)
    && id[0] == 0 && forall w: nat :: 1 <= w < |par| ==> IdomState(par, sd, id, u, w)
  }

  // Up to u every semidominator still has its initial value.
  ghost predicate Untouched(sd: seq<nat>, u: nat) {
    forall w :: 0 <= w <= u && w < |sd| ==> sd[w] == w
  }

  ghost predicate SemidomState(h: Graph, par: seq<nat>, vt: seq<nat>, rev: seq<seq<nat>>, iv: seq<nat>, sd: seq<nat>, u: nat)
    requires |par| <= |sd| == |iv| && forall w :: 1 <= w < |par| ==> iv[w] < |rev|
  {
    && (forall w :: u < w < |par| ==> sd[w] <= w && (w >= 2 ==> sd[w] < w))
    && (AllPredsVisited(vt, rev, iv, |par| - 1) ==> SemidomsFrom(h, sd, u + 1))
    && (forall w :: u < w < |par| && HasBadPred(vt, rev[iv[w]]) ==> sd[w] == 0)
  }

  ghost predicate Buckets(par: seq<nat>, sd: seq<nat>, bk: seq<seq<nat>>, u: nat) {
    && |sd| == |bk| && |par| <= |sd|
    && (forall j: nat :: j < |bk| ==> BucketOf(par, sd, bk[j], u, j))
    && (forall w :: u < w < |par| ==> sd[w] < |bk| && w in bk[sd[w]])
  }

  ghost predicate BucketOf(par: seq<nat>, sd: seq<nat>, b: seq<nat>, u: nat, j: nat) {
    |par| <= |sd| && forall e :: e in b ==> u < e < |par| && sd[e] == j
  }

  ghost predicate IdomState(par: seq<nat>, sd: seq<nat>, id: seq<nat>, u: nat, w: nat)
    requires w < |sd| == |id|
  {
    if u < w && u < sd[w] then Deferred(par, sd, w, id[w]) else id[w] == w
  }

  lemma InitialProgress(g: Graph, h: Graph, par: seq<nat>, gs: seq<seq<nat>>, rev: seq<seq<nat>>, vt: seq<nat>, iv: seq<nat>,
                        sd: seq<nat>, bk: seq<seq<nat>>, id: seq<nat>)
    requires DfsNumbered(h, par) && Renumbers(g, gs, rev, vt, iv, h) && |sd| == |bk| == |id| == |iv|
    requires |par| <= |sd| && sd[0] == 0 && id[0] == 0 && forall w :: 1 <= w < |par| ==> sd[w] == w && id[w] == w
    requires forall j :: 0 <= j < |bk| ==> bk[j] == []
    ensures Progress(h, par, vt, rev, iv, sd, bk, id, |par| - 1)
  {
    var u := |par| - 1;
    forall w: nat | 1 <= w < |par| ensures IdomState(par, sd, id, u, w) {}
  }

  lemma SemidomSettled(g: Graph, h: Graph, par: seq<nat>, gs: seq<seq<nat>>, rev: seq<seq<nat>>, vt: seq<nat>, iv: seq<nat>,
                       sd: seq<nat>, sd1: seq<nat>, bk: seq<seq<nat>>, id: seq<nat>, u: nat)
    requires DfsNumbered(h, par) && Renumbers(g, gs, rev, vt, iv, h)
    requires Progress(h, par, vt, rev, iv, sd, bk, id, u) && u >= 1
    requires |sd1| == |sd| && forall i :: 0 <= i < |sd| && i != u ==> sd1[i] == sd[i]
    requires BestSemidom(h, vt, rev[iv[u]], par, sd1, u)
    ensures sd1[u] <= u && Untouched(sd1, u - 1) && SemidomState(h, par, vt, rev, iv, sd1, u - 1)
  {
    hide Anc, Buckets, IdomState, SemiPath, IsSemidom;
    var row := rev[iv[u]];
    if u >= 2 {
      assert TreeEdge(h, par, u);
      assert Edge(g, iv[par[u]], iv[u]);
      assert iv[par[u]] in row;
      assert AtMostCandidate(par, sd1, u, vt[iv[par[u]]]);
    }
    if HasBadPred(vt, row) {
      var x :| x in row && x < |vt| && vt[x] == 0;
      assert AtMostCandidate(par, sd1, u, vt[x]);
    }
    if AllPredsVisited(vt, rev, iv, |par| - 1) {
      forall w | u <= w < |h| && 2 <= w ensures IsSemidom(h, sd1[w], w) {
        if w == u {
          assert SemidomsFrom(h, sd1, u + 1);
          assert !HasBadPred(vt, row);
          SemidomIsLeast(g, h, par, gs, rev, vt, iv, sd1, u);
        } else {
          assert IsSemidom(h, sd[w], w);
        }
      }
    }
  }

  // The minimum over the candidates is the semidominator.
  lemma SemidomIsLeast(g: Graph, h: Graph, par: seq<nat>, gs: seq<seq<nat>>, rev: seq<seq<nat>>, vt: seq<nat>, iv: seq<nat>,
                       sd: seq<nat>, u: nat)
    requires DfsNumbered(h, par) && Renumbers(g, gs, rev, vt, iv, h) && 2 <= u < |h| <= |sd|
    requires SemidomsFrom(h, sd, u + 1) && BestSemidom(h, vt, rev[iv[u]], par, sd, u) && sd[u] < u
    requires !HasBadPred(vt, rev[iv[u]])
    ensures IsSemidom(h, sd[u], u)
  {
    forall p, x | SemiPath(h, p, x, u) ensures sd[u] <= x {
      var v := p[|p| - 2];
      PathPositive(h, par, p, x, u, |p| - 2);
      assert StepAt(h, p, |p| - 2);
      assert Edge(g, iv[v], iv[u]);
      assert iv[v] in rev[iv[u]];
      assert AtMostCandidate(par, sd, u, vt[iv[v]]);
      if |p| > 2 {
        var z, q := SemiPathDecompose(h, par, u, x, p);
        AncBound(par, z, v);
        SemiPathLeast(h, sd, u, q, x, z);
      }
    }
  }

  lemma SemiPathLeast(h: Graph, sd: seq<nat>, u: nat, q: seq<nat>, x: nat, z: nat)
    requires SemidomsFrom(h, sd, u + 1) && u < z < |h| && 2 <= z && SemiPath(h, q, x, z)
    ensures sd[z] <= x
  {
    assert IsSemidom(h, sd[z], z);
  }

  lemma BucketsKept(par: seq<nat>, sd: seq<nat>, sd1: seq<nat>, bk: seq<seq<nat>>, bk1: seq<seq<nat>>, u: nat)
    requires Buckets(par, sd, bk, u) && 1 <= u < |par| && |sd1| == |sd|
    requires forall i :: 0 <= i < |sd| && i != u ==> sd1[i] == sd[i]
    requires sd1[u] <= u && bk1 == bk[sd1[u] := bk[sd1[u]] + [u]]
    ensures Buckets(par, sd1, bk1, u - 1)
  {
    forall j: nat | j < |bk1| ensures BucketOf(par, sd1, bk1[j], u - 1, j) {
      assert BucketOf(par, sd, bk[j], u, j);
    }
  }

  lemma DeferredKept(h: Graph, par: seq<nat>, vt: seq<nat>, rev: seq<seq<nat>>, iv: seq<nat>, sd: seq<nat>, sd1: seq<nat>,
                     bk: seq<seq<nat>>, bk1: seq<seq<nat>>, id: seq<nat>, id1: seq<nat>, u: nat)
    requires Progress(h, par, vt, rev, iv, sd, bk, id, u) && u >= 1 && |sd1| == |sd| && |id1| == |id|
    requires forall i :: 0 <= i < |sd| && i != u ==> sd1[i] == sd[i]
    requires Untouched(sd1, u - 1) && SemidomState(h, par, vt, rev, iv, sd1, u - 1) && Buckets(par, sd1, bk1, u - 1)
    requires forall e :: e in bk1[u] ==> e < |id1| && Deferred(par, sd1, e, id1[e])
    requires forall e :: 0 <= e < |id| && e !in bk1[u] ==> id1[e] == id[e]
    ensures Progress(h, par, vt, rev, iv, sd1, bk1, id1, u - 1)
  {
    var u1 := u - 1;
    forall w: nat | 1 <= w < |par| ensures IdomState(par, sd1, id1, u1, w) {
      assert IdomState(par, sd, id, u, w);
      if w > u && sd[w] > u {
        DeferredFrame(par, sd, sd1, w, id[w], u);
      }
    }
  }

  // Step 4 up to i: below i the immediate dominators are final.
  ghost predicate Resolved(h: Graph, par: seq<nat>, vt: seq<nat>, rev: seq<seq<nat>>, iv: seq<nat>,
                           sd: seq<nat>, id0: seq<nat>, id: seq<nat>, i: nat)
  {
    && 2 <= |par| <= |sd| == |id| == |id0| == |iv| && 1 <= i <= |par|
    && (forall w :: 1 <= w < |par| ==> iv[w] < |rev|)
    && SemidomState(h, par, vt, rev, iv, sd, 0)
    && (forall w: nat :: 1 <= w < |par| ==> IdomState(par, sd, id0, 0, w))
    && (forall w :: i <= w < |id| ==> id[w] == id0[w])
    && id[0] == 0 && id[1] == 1
    && (forall w :: 0 <= w < |par| ==> id[w] <= w)
    && (AllPredsVisited(vt, rev, iv, |par| - 1) ==> forall w :: 2 <= w < i ==> IsIdom(h, 1, id[w], w))
    && (forall w :: 2 <= w < |par| && HasBadPred(vt, rev[iv[w]]) ==> id[w] == w)
  }

  lemma FinalSemidoms(h: Graph, par: seq<nat>, vt: seq<nat>, rev: seq<seq<nat>>, iv: seq<nat>,
                      sd: seq<nat>, bk: seq<seq<nat>>, id: seq<nat>)
    requires |h| == |par| && Progress(h, par, vt, rev, iv, sd, bk, id, 0)
    ensures AllPredsVisited(vt, rev, iv, |par| - 1) ==> forall w :: 2 <= w < |h| ==> w < |sd| && IsSemidom(h, sd[w], w)
  {
  }

  lemma ResolveStart(h: Graph, par: seq<nat>, vt: seq<nat>, rev: seq<seq<nat>>, iv: seq<nat>,
                     sd: seq<nat>, bk: seq<seq<nat>>, id: seq<nat>)
    requires |par| >= 2 && Progress(h, par, vt, rev, iv, sd, bk, id, 0)
    ensures Resolved(h, par, vt, rev, iv, sd, id, id, 1)
  {
    assert IdomState(par, sd, id, 0, 1);
    forall w: nat | w < |par| ensures id[w] <= w {
      if w >= 1 {
        assert IdomState(par, sd, id, 0, w);
      }
    }
    forall w | 2 <= w < |par| && HasBadPred(vt, rev[iv[w]]) ensures id[w] == w {
      assert IdomState(par, sd, id, 0, w);
    }
  }

  function ResolveAt(sd: seq<nat>, id: seq<nat>, i: nat): seq<nat>
    requires i < |id| == |sd| && id[i] < |id|
  {
    if id[i] != sd[i] then id[i := id[id[i]]] else id
  }

  lemma ResolveStep(h: Graph, par: seq<nat>, vt: seq<nat>, rev: seq<seq<nat>>, iv: seq<nat>,
                    sd: seq<nat>, id0: seq<nat>, id: seq<nat>, i: nat)
    requires DfsNumbered(h, par) && Resolved(h, par, vt, rev, iv, sd, id0, id, i) && i < |par|
    ensures id[i] < |id| && Resolved(h, par, vt, rev, iv, sd, id0, ResolveAt(sd, id, i), i + 1)
  {
    assert IdomState(par, sd, id0, 0, i);
    if i >= 2 && AllPredsVisited(vt, rev, iv, |par| - 1) {
      assert IsSemidom(h, sd[i], i);
      SemidomIsAncestor(h, par, sd[i], i);
      var b: nat :| MinSemidomOn(par, sd, sd[i], i, b) && id[i] == if sd[b] >= sd[i] then sd[i] else b;
      if sd[b] >= sd[i] {
        SemidomIsIdom(h, par, sd, i, b);
      } else {
        assert b != i;
        IdomIsRelative(h, par, sd, i, b, id[b]);
      }
    }
  }

  ghost predicate HasBadPred(vt: seq<nat>, row: seq<nat>) {
    exists x :: x in row && x < |vt| && vt[x] == 0
  }

  // sd[u] is at most every candidate that the predecessors in row give, hence 0
  // once one of them is unvisited; otherwise it is u or a candidate itself.
  ghost predicate BestSemidom(h: Graph, vt: seq<nat>, row: seq<nat>, par: seq<nat>, sd: seq<nat>, u: nat) {
    && u < |sd| && sd[u] <= u
    && (forall x :: x in row && x < |vt| ==> AtMostCandidate(par, sd, u, vt[x]))
    && (SemidomsFrom(h, sd, u + 1) && !HasBadPred(vt, row) ==>
          sd[u] == u || exists q :: SemiPath(h, q, sd[u], u))
  }

  ghost predicate AtMostCandidate(par: seq<nat>, sd: seq<nat>, u: nat, v: nat)
    requires u < |sd|
  {
    && (v < u ==> sd[u] <= v)
    && (v > u ==> forall z: nat :: Anc(par, z, v) && u < z <= v && z < |sd| ==> sd[u] <= sd[z])
  }

  lemma BestSemidomStart(h: Graph, vt: seq<nat>, par: seq<nat>, sd: seq<nat>, u: nat)
    requires Untouched(sd, u) && u < |sd|
    ensures BestSemidom(h, vt, [], par, sd, u)
  {
  }

  // What processing one more predecessor must establish.
  lemma BestSemidomStep(h: Graph, vt: seq<nat>, row: seq<nat>, x: nat, par: seq<nat>, sd: seq<nat>, sd': seq<nat>, u: nat)
    requires BestSemidom(h, vt, row, par, sd, u) && |sd| == |sd'| && sd'[u] <= sd[u]
    requires forall z :: u < z < |sd| ==> sd'[z] == sd[z]
    requires x < |vt| && AtMostCandidate(par, sd', u, vt[x])
    requires SemidomsFrom(h, sd, u + 1) && vt[x] != 0 && sd'[u] != sd[u] ==> exists q :: SemiPath(h, q, sd'[u], u)
    ensures BestSemidom(h, vt, row + [x], par, sd', u)
  {
    forall y | y in row + [x] && y < |vt| ensures AtMostCandidate(par, sd', u, vt[y]) {
      if y in row {
        assert AtMostCandidate(par, sd, u, vt[y]);
      }
    }
    if SemidomsFrom(h, sd', u + 1) && !HasBadPred(vt, row + [x]) {
      assert x in row + [x];
      assert !HasBadPred(vt, row) by {
        forall y | y in row && y < |vt| ensures vt[y] != 0 { assert y in row + [x]; }
      }
      assert SemidomsFrom(h, sd, u + 1);
    }
  }

  lemma CandidateBelow(h: Graph, par: seq<nat>, vt: seq<nat>, row: seq<nat>, x: nat, sd: seq<nat>, sd': seq<nat>, u: nat)
    requires DfsNumbered(h, par) && BestSemidom(h, vt, row, par, sd, u) && u < |h|
    requires x < |vt| && vt[x] < u && sd[vt[x]] == vt[x] && (vt[x] >= 1 ==> u in h[vt[x]])
    requires sd' == sd[u := if sd[u] < vt[x] then sd[u] else vt[x]]
    ensures BestSemidom(h, vt, row + [x], par, sd', u)
  {
    if vt[x] >= 1 {
      EdgeIsSemiPath(h, par, vt[x], u);
    }
    BestSemidomStep(h, vt, row, x, par, sd, sd', u);
  }

  lemma CandidateAbove(h: Graph, par: seq<nat>, uf: seq<nat>, pc: seq<nat>, vt: seq<nat>, row: seq<nat>, x: nat, sd: seq<nat>, sd': seq<nat>, u: nat)
    requires DfsNumbered(h, par) && BestSemidom(h, vt, row, par, sd, u)
    requires LinkForest(par, uf, pc, sd, u)
    requires x < |vt| && 1 <= u <= vt[x] < |h| && u in h[vt[x]]
    requires var e := Eval(uf, pc, sd, vt[x]); sd' == sd[u := if sd[u] < sd[e] then sd[u] else sd[e]]
    ensures BestSemidom(h, vt, row + [x], par, sd', u)
  {
    var v := vt[x];
    if v == u {
      assert LinkedRight(par, uf, pc, sd, u, u);
    } else {
      EvalIsMin(h, par, uf, pc, sd, u, v);
      if SemidomsFrom(h, sd, u + 1) {
        CandidateFromAbove(h, par, sd, u, v, Eval(uf, pc, sd, v));
      }
    }
    BestSemidomStep(h, vt, row, x, par, sd, sd', u);
  }

  lemma CandidateFromAbove(h: Graph, par: seq<nat>, sd: seq<nat>, u: nat, v: nat, b: nat)
    requires DfsNumbered(h, par) && SemidomsFrom(h, sd, u + 1) && 1 <= u < v < |h| && u in h[v]
    requires MinSemidomOn(par, sd, u, v, b)
    ensures exists q :: SemiPath(h, q, sd[b], u)
  {
    assert IsSemidom(h, sd[b], b);
    var p :| SemiPath(h, p, sd[b], b);
    var q := SemiPathThrough(h, par, u, v, b, sd[b], p);
  }

  // h is g restricted to the visited vertices, named by their numbers; gs and
  // rev are the arrays that hold g and its reverse.
  ghost predicate Renumbers(g: Graph, gs: seq<seq<nat>>, rev: seq<seq<nat>>, vt: seq<nat>, iv: seq<nat>, h: Graph) {
    && |h| >= 2 && |g| < |vt| == |iv| == |gs| == |rev| && Numbering(g, vt, iv, |h| - 1)
    && WellFormed(g) && gs[..|g|] == g
    && (forall x: nat, y: nat :: y < |g| ==> (x in rev[y] <==> Edge(g, x, y)))
    && (forall v: nat, w: nat :: 1 <= v < |h| ==>
          (w in h[v] <==> 1 <= w < |h| && Edge(g, iv[v], iv[w])))
    && (forall v: nat, y: nat :: 1 <= v < |h| && Edge(g, iv[v], y) ==> vt[y] >= 1)
  }

  lemma RowEntry(g: Graph, h: Graph, gs: seq<seq<nat>>, rev: seq<seq<nat>>, vt: seq<nat>, iv: seq<nat>, u: nat, x: nat)
    requires Renumbers(g, gs, rev, vt, iv, h) && 1 <= u < |h| && x in rev[iv[u]]
    ensures x < |g| && vt[x] < |h| && (vt[x] >= 1 ==> u in h[vt[x]])
  {
    assert Edge(g, x, iv[u]);
  }
}
