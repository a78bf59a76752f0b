// ir_dominator_tree() of lib/middle_end/ir/dom.c, over the instructions of one
// function named by their instr_idx; succs is what link() of gen.c left behind.
module IrDominators {
  import opened FlowGraph
  import opened Semidominators
  import opened DepthFirst
  import opened Renumbering
  import opened DominatorTree

  // No edge leads from an unreachable instruction to a reachable one other
  // than the first.
  ghost predicate NoEdgeFromDeadCode(g: Graph) {
    forall x: nat, y: nat :: Edge(g, x, y) && y != 0 && Reachable(g, 0, y) ==> Reachable(g, 0, x)
  }

  ghost predicate IdomsCorrect(g: Graph, idom: seq<nat>) {
    && |idom| == |g|
    && forall v: nat :: v < |g| && v != 0 && Reachable(g, 0, v) ==> IsIdom(g, 0, idom[v], v)
  }

  // dom_tree_fill()
  method Fill(s: DomState, succs: Graph)
    requires s.Shape() && WellFormed(succs) && |succs| < MAX_VERTICES
    requires forall i :: 0 <= i < MAX_VERTICES ==> s.graph[i] == [] && s.reverseGraph[i] == []
    modifies s.graph, s.reverseGraph
    ensures s.graph[..|succs|] == succs
    ensures forall x: nat, y: nat :: y < |succs| ==> (x in s.reverseGraph[y] <==> Edge(succs, x, y))
  {
    var u := 0;
    while u < |succs|
      invariant 0 <= u <= |succs|
      invariant forall x :: 0 <= x < u ==> s.graph[x] == succs[x]
      invariant forall x :: u <= x < MAX_VERTICES ==> s.graph[x] == []
      invariant forall x: nat, y: nat :: y < |succs| ==> (x in s.reverseGraph[y] <==> x < u && Edge(succs, x, y))
    {
      var i := 0;
      while i < |succs[u]|
        invariant 0 <= i <= |succs[u]|
        invariant forall x :: 0 <= x < u ==> s.graph[x] == succs[x]
        invariant s.graph[u] == succs[u][..i]
        invariant forall x :: u < x < MAX_VERTICES ==> s.graph[x] == []
        invariant forall x: nat, y: nat :: y < |succs| ==>
                    (x in s.reverseGraph[y] <==> (x < u && Edge(succs, x, y)) || (x == u && y in succs[u][..i]))
      {
        var v := succs[u][i];
        assert v in succs[u];
        s.graph[u] := s.graph[u] + [v];
        s.reverseGraph[v] := s.reverseGraph[v] + [u];
        assert succs[u][..i + 1] == succs[u][..i] + [v];
        i := i + 1;
      }
      assert succs[u][..i] == succs[u];
      u := u + 1;
    }
  }

  // rev holds exactly the predecessors of every instruction.
  ghost predicate ReverseOf(g: Graph, rev: seq<seq<nat>>) {
    |g| <= |rev| && forall x: nat, y: nat :: y < |g| ==> (x in rev[y] <==> Edge(g, x, y))
  }

  // What dfs(0) leaves behind in arrays that were zero.
  lemma SearchDone(g: Graph, gs: seq<seq<nat>>, rev: seq<seq<nat>>, vt0: seq<nat>, iv0: seq<nat>, pt0: seq<nat>,
                   vt: seq<nat>, iv: seq<nat>, pt: seq<nat>, k: nat)
    requires WellFormed(g) && 0 < |g| <= |gs| == |rev| == |vt| && gs[..|g|] == g && ReverseOf(g, rev)
    requires Subtree(g, vt0, iv0, pt0, vt, iv, pt, 0, k) && Finished(g, vt, iv, pt, 1) && vt[0] == 1
    requires iv0[0] == 0 && pt0[1] == 0
    ensures Complete(g, vt, iv, pt, k) && k <= |g| && k < |pt| == |iv| && iv[0] == 0 && pt[1] == 0
    ensures forall w :: 1 <= w <= k ==> iv[w] < |g|
    ensures DfsNumbered(Renumber(g, vt, iv, k), pt[..k + 1]) && Renumbers(g, gs, rev, vt, iv, Renumber(g, vt, iv, k))
  {
    hide Finished, TreeVertex, WellFormed, Edge, DfsNumbered, Renumbers, Renumber;
    assert FinishedRange(g, vt, iv, pt, 1, k);
    CompleteIsDfsNumbered(g, vt, iv, pt, k);
    CompleteRenumbers(g, gs, rev, vt, iv, pt, k);
    NumbersBound(g, vt, iv, k);
  }

  // dom_tree_reset_state(), dom_tree_fill(), dfs(0), dom_tree()
  method Solve(succs: Graph) returns (s: DomState, ghost pt: seq<nat>)
    requires WellFormed(succs) && 0 < |succs| < MAX_VERTICES
    ensures s.Shape() && fresh(s) && |succs| < MAX_VERTICES
    ensures Complete(succs, s.visitTime[..], s.inverseVisitTime[..], pt, s.dfsIndex)
    ensures Solved(succs, s.reverseGraph[..], s.visitTime[..], s.inverseVisitTime[..], s.dfsIndex, s.idom[..])
  {
    hide IsIdom, Edge, DfsNumbered, AllPredsVisited, HasBadPred, Complete, Subtree, Finished, Numbering, Renumbers, Renumber;
    hide Solved, ReverseOf, WellFormed;
    s := new DomState();
    Fill(s, succs);
    FilledReverse(succs, s.reverseGraph[..]);
    ghost var vt0, iv0, pt0 := s.visitTime[..], s.inverseVisitTime[..], s.parentInDfsTree[..];
    NothingNumbered(succs, vt0, iv0);
    s.Dfs(0, succs);
    pt := s.parentInDfsTree[..];
    ghost var vt, iv, k, rev := s.visitTime[..], s.inverseVisitTime[..], s.dfsIndex, s.reverseGraph[..];
    SearchDone(succs, s.graph[..], rev, vt0, iv0, pt0, vt, iv, pt, k);
    s.DomTree(succs, Renumber(succs, vt, iv, k), pt[..k + 1]);
    assert vt == s.visitTime[..] && iv == s.inverseVisitTime[..] && rev == s.reverseGraph[..];
    forall w | 2 <= w <= k && HasBadPred(vt, rev[iv[w]]) ensures s.idom[..][w] == w {
      assert rev[iv[w]] == s.reverseGraph[s.inverseVisitTime[w]];
    }
    SolvedAll(succs, rev, vt, iv, pt, k, s.idom[..]);
  }

  lemma FilledReverse(g: Graph, rev: seq<seq<nat>>)
    requires |g| <= |rev| && forall x: nat, y: nat :: y < |g| ==> (x in rev[y] <==> Edge(g, x, y))
    ensures ReverseOf(g, rev)
  {
  }

  lemma NothingNumbered(g: Graph, vt: seq<nat>, iv: seq<nat>)
    requires |g| < |vt| == |iv| && forall v :: 0 <= v < |vt| ==> vt[v] == 0
    ensures Numbering(g, vt, iv, 0)
  {
  }

  ghost predicate Solved(g: Graph, rev: seq<seq<nat>>, vt: seq<nat>, iv: seq<nat>, k: nat, id: seq<nat>) {
    && |rev| == |vt| == |iv| == |id| > k && |g| <= |rev| && 1 <= k
    && (forall w :: 1 <= w <= k ==> iv[w] < |g|)
    && ReverseOf(g, rev)
    && id[0] == 0 && id[1] == 1 && iv[0] == 0
    && (forall w :: 0 <= w <= k ==> id[w] <= w)
    && (AllPredsVisited(vt, rev, iv, k) ==> forall w :: 2 <= w <= k ==> IsIdom(Renumber(g, vt, iv, k), 1, id[w], w))
    && (forall w :: 2 <= w <= k && HasBadPred(vt, rev[iv[w]]) ==> id[w] == w)
  }

  lemma SolvedAll(g: Graph, rev: seq<seq<nat>>, vt: seq<nat>, iv: seq<nat>, pt: seq<nat>, k: nat, id: seq<nat>)
    requires Complete(g, vt, iv, pt, k) && ReverseOf(g, rev) && |rev| == |vt| == |id| > k && iv[0] == 0
    requires id[0] == 0 && id[1] == 1 && forall w :: 0 <= w <= k ==> id[w] <= w
    requires AllPredsVisited(vt, rev, iv, k) ==> forall w :: 2 <= w <= k ==> IsIdom(Renumber(g, vt, iv, k), 1, id[w], w)
    requires forall w :: 2 <= w <= k && HasBadPred(vt, rev[iv[w]]) ==> id[w] == w
    ensures Solved(g, rev, vt, iv, k, id)
  {
    hide IsIdom, Edge, AllPredsVisited, HasBadPred, Renumber, TreeRange, FinishedRange;
  }

  // The loop that hands the numbers back to the instructions.
  method Publish(s: DomState, n: nat) returns (idom: seq<nat>, idomBack: seq<seq<nat>>)
    requires s.Shape() && n <= MAX_VERTICES
    requires forall v :: 0 <= v < n ==> s.visitTime[v] < MAX_VERTICES && s.idom[s.visitTime[v]] < MAX_VERTICES
    requires forall v :: 0 <= v < n ==> s.inverseVisitTime[s.idom[s.visitTime[v]]] < n
    ensures |idom| == |idomBack| == n
    ensures forall v :: 0 <= v < n ==> idom[v] == s.inverseVisitTime[s.idom[s.visitTime[v]]]
    ensures forall d: nat :: d < n ==> forall v: nat :: v in idomBack[d] <==> v < n && idom[v] == d
    ensures forall d: nat, j: nat, k: nat :: d < n && j < k < |idomBack[d]| ==> idomBack[d][j] < idomBack[d][k]
  {
    hide ListIs;
    idom := [];
    idomBack := seq(n, _ => []);
    EmptyLists();
    var i := 0;
    while i < n
      invariant 0 <= i <= n && |idom| == i && |idomBack| == n
      invariant forall v :: 0 <= v < i ==> idom[v] == s.inverseVisitTime[s.idom[s.visitTime[v]]]
      invariant forall e: nat :: e < n ==> ListIs(idom, e, idomBack[e])
    {
      var d := s.inverseVisitTime[s.idom[s.visitTime[i]]];
      forall e: nat | e < n ensures ListIs(idom + [d], e, if e == d then idomBack[e] + [i] else idomBack[e]) {
        PushBack(idom, e, idomBack[e], d);
      }
      idom := idom + [d];
      idomBack := idomBack[d := idomBack[d] + [i]];
      i := i + 1;
    }
    forall d: nat | d < n
      ensures forall v: nat :: v in idomBack[d] <==> v < n && idom[v] == d
      ensures forall j: nat, k: nat :: j < k < |idomBack[d]| ==> idomBack[d][j] < idomBack[d][k]
    {
      ListMeans(idom, d, idomBack[d]);
    }
  }

  // v is in the list of e exactly when e is its dominator, and the list ascends.
  ghost predicate ListIs(idom: seq<nat>, e: nat, list: seq<nat>) {
    (forall v: nat :: v in list <==> v < |idom| && idom[v] == e) && Ascends(list)
  }

  ghost predicate Ascends(list: seq<nat>) {
    forall j: nat, k: nat :: j < k < |list| ==> list[j] < list[k]
  }

  lemma EmptyLists()
    ensures forall e: nat :: ListIs([], e, [])
  {
  }

  lemma ListMeans(idom: seq<nat>, e: nat, list: seq<nat>)
    requires ListIs(idom, e, list)
    ensures forall v: nat :: v in list <==> v < |idom| && idom[v] == e
    ensures forall j: nat, k: nat :: j < k < |list| ==> list[j] < list[k]
  {
  }

  // vector_push_back() of the next instruction, which is larger than all in the list.
  lemma PushBack(idom: seq<nat>, e: nat, list: seq<nat>, d: nat)
    requires ListIs(idom, e, list)
    ensures ListIs(idom + [d], e, if e == d then list + [|idom|] else list)
  {
    var idom', list' := idom + [d], if e == d then list + [|idom|] else list;
    forall v: nat ensures v in list' <==> v < |idom'| && idom'[v] == e {
      assert v in list <==> v < |idom| && idom[v] == e;
    }
    forall j: nat, k: nat | j < k < |list'| ensures list'[j] < list'[k] {
      if k == |list| { assert list[j] in list; }
    }
  }

  // The dominators are right exactly when no edge from dead code enters live
  // code; otherwise some reachable instruction is left as its own dominator.
  method IrDominatorTree(succs: Graph) returns (idom: seq<nat>, idomBack: seq<seq<nat>>)
    requires WellFormed(succs) && 0 < |succs| < MAX_VERTICES
    ensures |idom| == |idomBack| == |succs| && idom[0] == 0
    ensures forall v :: 0 <= v < |succs| ==> idom[v] < |succs|
    ensures IdomsCorrect(succs, idom) <==> NoEdgeFromDeadCode(succs)
    ensures forall v: nat :: v < |succs| && !Reachable(succs, 0, v) ==> idom[v] == 0
    ensures forall d: nat :: d < |succs| ==> forall v: nat :: v in idomBack[d] <==> v < |succs| && idom[v] == d
    ensures forall d: nat, j: nat, k: nat :: d < |succs| && j < k < |idomBack[d]| ==> idomBack[d][j] < idomBack[d][k]
    ensures forall v: nat :: v < |succs| ==> v in idomBack[idom[v]]
    ensures forall d: nat, e: nat, v: nat :: d < |succs| && e < |succs| && v in idomBack[d] && v in idomBack[e] ==> d == e
  {
    var s: DomState;
    ghost var pt;
    s, pt := Solve(succs);
    ghost var vt, iv, k, id := s.visitTime[..], s.inverseVisitTime[..], s.dfsIndex, s.idom[..];
    SolvedBounds(succs, s.reverseGraph[..], vt, iv, pt, k, id);
    hide Complete, Solved, IdomsCorrect, NoEdgeFromDeadCode, WellFormed, Reachable;
    idom, idomBack := Publish(s, |succs|);
    MapBack(succs, s.reverseGraph[..], vt, iv, pt, k, id, idom);
    OnceEach(idom, idomBack);
  }

  lemma OnceEach(idom: seq<nat>, back: seq<seq<nat>>)
    requires |idom| == |back| && forall v :: 0 <= v < |idom| ==> idom[v] < |idom|
    requires forall d: nat :: d < |back| ==> forall v: nat :: v in back[d] <==> v < |idom| && idom[v] == d
    ensures forall v: nat :: v < |idom| ==> v in back[idom[v]]
    ensures forall d: nat, e: nat, v: nat :: d < |back| && e < |back| && v in back[d] && v in back[e] ==> d == e
  {
    forall v: nat | v < |idom| ensures v in back[idom[v]] {
      var d := idom[v];
      assert v in back[d] <==> v < |idom| && idom[v] == d;
    }
    forall d: nat, e: nat, v: nat | d < |back| && e < |back| && v in back[d] && v in back[e] ensures d == e {
      assert v in back[d] <==> v < |idom| && idom[v] == d;
      assert v in back[e] <==> v < |idom| && idom[v] == e;
    }
  }

  lemma SolvedBounds(g: Graph, rev: seq<seq<nat>>, vt: seq<nat>, iv: seq<nat>, pt: seq<nat>, k: nat, id: seq<nat>)
    requires Complete(g, vt, iv, pt, k) && Solved(g, rev, vt, iv, k, id) && 0 < |g|
    ensures forall v :: 0 <= v < |g| ==> vt[v] <= k < |id| && id[vt[v]] <= k < |iv| && iv[id[vt[v]]] < |g|
  {
  }

  lemma CompleteRenumbers(g: Graph, gs: seq<seq<nat>>, rev: seq<seq<nat>>, vt: seq<nat>, iv: seq<nat>, pt: seq<nat>, k: nat)
    requires Complete(g, vt, iv, pt, k) && |gs| == |rev| == |vt| && gs[..|g|] == g && ReverseOf(g, rev)
    ensures Renumbers(g, gs, rev, vt, iv, Renumber(g, vt, iv, k))
  {
    var h := Renumber(g, vt, iv, k);
    forall v: nat, w: nat | 1 <= v < |h| ensures w in h[v] <==> 1 <= w < |h| && Edge(g, iv[v], iv[w]) {
      RenumberEdge(g, vt, iv, pt, k, v, w);
    }
    forall v: nat, y: nat | 1 <= v < |h| && Edge(g, iv[v], y) ensures vt[y] >= 1 {
      assert Finished(g, vt, iv, pt, v);
    }
  }

  lemma MapBack(g: Graph, rev: seq<seq<nat>>, vt: seq<nat>, iv: seq<nat>, pt: seq<nat>, k: nat, id: seq<nat>, idom: seq<nat>)
    requires Complete(g, vt, iv, pt, k) && Solved(g, rev, vt, iv, k, id) && 0 < |g| == |idom|
    requires forall v :: 0 <= v < |g| ==> vt[v] <= k && id[vt[v]] <= k && idom[v] == iv[id[vt[v]]]
    ensures idom[0] == 0
    ensures IdomsCorrect(g, idom) <==> NoEdgeFromDeadCode(g)
    ensures forall v: nat :: v < |g| && !Reachable(g, 0, v) ==> idom[v] == 0
  {
    hide TreeRange, FinishedRange, Finished, Renumber, IsIdom, WellFormed;
    VisitedAll(g, vt, iv, pt, k);
    if NoEdgeFromDeadCode(g) {
      RightWithoutDeadEdges(g, rev, vt, iv, pt, k, id, idom);
    } else {
      var x: nat, y: nat :| Edge(g, x, y) && y != 0 && Reachable(g, 0, y) && !Reachable(g, 0, x);
      WrongBehindDeadEdge(g, rev, vt, iv, pt, k, id, idom, x, y);
    }
  }

  lemma VisitedAll(g: Graph, vt: seq<nat>, iv: seq<nat>, pt: seq<nat>, k: nat)
    requires Complete(g, vt, iv, pt, k)
    ensures forall v: nat :: v < |g| ==> (vt[v] >= 1 <==> Reachable(g, 0, v))
  {
    hide TreeRange, FinishedRange, Reachable, WellFormed;
    forall v: nat | v < |g| ensures vt[v] >= 1 <==> Reachable(g, 0, v) {
      VisitedIffReachable(g, vt, iv, pt, k, v);
    }
  }

  lemma RightWithoutDeadEdges(g: Graph, rev: seq<seq<nat>>, vt: seq<nat>, iv: seq<nat>, pt: seq<nat>, k: nat,
                              id: seq<nat>, idom: seq<nat>)
    requires Complete(g, vt, iv, pt, k) && Solved(g, rev, vt, iv, k, id) && |g| == |idom| && NoEdgeFromDeadCode(g)
    requires forall v :: 0 <= v < |g| ==> vt[v] <= k && id[vt[v]] <= k && idom[v] == iv[id[vt[v]]]
    requires forall v: nat :: v < |g| ==> (vt[v] >= 1 <==> Reachable(g, 0, v))
    ensures IdomsCorrect(g, idom)
  {
    hide TreeRange, FinishedRange, Renumber, IsIdom, WellFormed, Reachable;
    NoBadPreds(g, rev, vt, iv, pt, k);
    forall v: nat | v < |g| && v != 0 && Reachable(g, 0, v) ensures IsIdom(g, 0, idom[v], v) {
      CompleteIsDfsNumbered(g, vt, iv, pt, k);
      IdomNumberPositive(Renumber(g, vt, iv, k), pt[..k + 1], id, vt[v]);
      IdomToVertices(g, vt, iv, pt, k, id[vt[v]], vt[v]);
    }
  }

  lemma NoBadPreds(g: Graph, rev: seq<seq<nat>>, vt: seq<nat>, iv: seq<nat>, pt: seq<nat>, k: nat)
    requires Complete(g, vt, iv, pt, k) && ReverseOf(g, rev) && NoEdgeFromDeadCode(g)
    requires forall v: nat :: v < |g| ==> (vt[v] >= 1 <==> Reachable(g, 0, v))
    ensures AllPredsVisited(vt, rev, iv, k)
  {
    hide TreeRange, FinishedRange, Reachable, WellFormed;
    forall w, x | 2 <= w <= k && x in rev[iv[w]] && x < |vt| ensures vt[x] != 0 {
      assert Edge(g, x, iv[w]) && iv[w] != 0;
    }
  }

  lemma WrongBehindDeadEdge(g: Graph, rev: seq<seq<nat>>, vt: seq<nat>, iv: seq<nat>, pt: seq<nat>, k: nat,
                            id: seq<nat>, idom: seq<nat>, x: nat, y: nat)
    requires Complete(g, vt, iv, pt, k) && Solved(g, rev, vt, iv, k, id) && |g| == |idom|
    requires forall v :: 0 <= v < |g| ==> vt[v] <= k && id[vt[v]] <= k && idom[v] == iv[id[vt[v]]]
    requires Edge(g, x, y) && y != 0 && y < |g| && vt[y] >= 1 && vt[x] == 0 && Reachable(g, 0, y)
    ensures idom[y] == y && !IdomsCorrect(g, idom)
  {
    hide TreeRange, FinishedRange, Reachable;
    assert x in rev[y] && vt[x] == 0;
    assert HasBadPred(vt, rev[iv[vt[y]]]);
  }

  lemma IdomNumberPositive(h: Graph, par: seq<nat>, id: seq<nat>, w: nat)
    requires DfsNumbered(h, par) && 1 <= w < |id| && w < |h| && IsIdom(h, 1, id[w], w)
    ensures id[w] >= 1
  {
    RootIsAncestor(h, par, w);
    var p := TreePath(h, par, 1, w);
    assert id[w] in p;
  }
}
