// lib/middle_end/ir/regalloc.c: live ranges, interference and greedy colouring.
module RegAlloc {
  import opened Int32
  import opened Ir

  const VARS_LIMIT: nat := 512
  const REGS_LIMIT: nat := 32

  // ---- What the tables mean ----

  predicate IsOperand(b: Body, v: nat) {
    match b
    case Direct(o) => o == Sym(v)
    case Bin(_, l, r) => l == Sym(v) || r == Sym(v)
  }

  // Only stores are looked at.
  predicate Mentions(i: Instr, v: nat) {
    i.Store? && (i.idx == v || IsOperand(i.body, v))
  }

  // First and last position below n that mentions v, or -1.
  function First(prog: Program, v: nat, n: nat): (r: int)
    requires n <= |prog|
    ensures -1 <= r < n
    ensures r >= 0 ==> Mentions(prog[r], v)
    ensures forall i :: 0 <= i < n && Mentions(prog[i], v) ==> 0 <= r <= i
  {
    if n == 0 then -1
    else
      var r := First(prog, v, n - 1);
      if r == -1 && Mentions(prog[n - 1], v) then n - 1 else r
  }

  function Last(prog: Program, v: nat, n: nat): (r: int)
    requires n <= |prog|
    ensures -1 <= r < n
    ensures r >= 0 ==> Mentions(prog[r], v)
    ensures forall i :: 0 <= i < n && Mentions(prog[i], v) ==> i <= r
  {
    if n == 0 then -1
    else if Mentions(prog[n - 1], v) then n - 1
    else Last(prog, v, n - 1)
  }

  // reg_alloc_build_graph(): the closed ranges have a point in common.
  predicate Overlap(s1: int, e1: int, s2: int, e2: int) { s1 <= e2 && s2 <= e1 }

  predicate InRange(p: int, s: int, e: int) { s <= p <= e }

  lemma OverlapMeans(s1: int, e1: int, s2: int, e2: int)
    requires s1 <= e1 && s2 <= e2
    ensures Overlap(s1, e1, s2, e2) <==> exists p :: InRange(p, s1, e1) && InRange(p, s2, e2)
  {
    var p := if s1 < s2 then s2 else s1;
    assert Overlap(s1, e1, s2, e2) <==> InRange(p, s1, e1) && InRange(p, s2, e2);
  }

  predicate Interfere(prog: Program, u: nat, v: nat) {
    var n := |prog|;
    u != v && Overlap(First(prog, u, n), Last(prog, u, n), First(prog, v, n), Last(prog, v, n))
  }

  // ---- The passes ----

  // reg_alloc_store_op_idx(): the variables a store body reads, -1 for none.
  function OperandIndex(o: Operand): int { if o.Sym? then o.idx else -1 }

  function StoreOpIdx(b: Body): (int, int) {
    match b
    case Direct(o) => (OperandIndex(o), -1)
    case Bin(_, l, r) => (OperandIndex(l), OperandIndex(r))
  }

  ghost predicate SmallVars(prog: Program) {
    forall i, v: nat :: 0 <= i < |prog| && Mentions(prog[i], v) ==> v < VARS_LIMIT
  }

  method Touch(start: array<int>, end: array<int>, v: int, i: int)
    requires start != end && start.Length == end.Length == VARS_LIMIT && -1 <= v < VARS_LIMIT && i >= 0
    modifies start, end
    ensures forall w: nat :: w < VARS_LIMIT ==> start[w] == if w == v && old(start[w]) == -1 then i else old(start[w])
    ensures forall w: nat :: w < VARS_LIMIT ==> end[w] == if w == v then i else old(end[w])
  {
    if v != -1 {
      if start[v] == -1 {
        start[v] := i;
      }
      end[v] := i;
    }
  }

  // reg_alloc_live_range_store()
  method LiveRangeStore(prog: Program, start: array<int>, end: array<int>, i: nat)
    requires start != end && start.Length == end.Length == VARS_LIMIT && i < |prog| && prog[i].Store? && SmallVars(prog)
    requires forall v: nat :: v < VARS_LIMIT ==> start[v] == First(prog, v, i) && end[v] == Last(prog, v, i)
    modifies start, end
    ensures forall v: nat :: v < VARS_LIMIT ==> start[v] == First(prog, v, i + 1) && end[v] == Last(prog, v, i + 1)
  {
    var res := prog[i].idx;
    var (lhs, rhs) := StoreOpIdx(prog[i].body);
    assert Mentions(prog[i], res);
    assert lhs >= 0 ==> Mentions(prog[i], lhs);
    assert rhs >= 0 ==> Mentions(prog[i], rhs);
    Touch(start, end, res, i);
    Touch(start, end, lhs, i);
    Touch(start, end, rhs, i);
    assert forall v: nat :: Mentions(prog[i], v) <==> v == res || v == lhs || v == rhs;
  }

  // reg_alloc_live_ranges()
  method LiveRanges(prog: Program) returns (start: array<int>, end: array<int>)
    requires SmallVars(prog)
    ensures fresh(start) && fresh(end) && start.Length == end.Length == VARS_LIMIT
    ensures forall v: nat :: v < VARS_LIMIT ==> start[v] == First(prog, v, |prog|) && end[v] == Last(prog, v, |prog|)
  {
    start := new int[VARS_LIMIT](_ => -1);
    end := new int[VARS_LIMIT](_ => -1);
    var i := 0;
    while i < |prog|
      invariant 0 <= i <= |prog|
      invariant forall v: nat :: v < VARS_LIMIT ==> start[v] == First(prog, v, i) && end[v] == Last(prog, v, i)
    {
      if prog[i].Store? {
        LiveRangeStore(prog, start, end, i);
      }
      i := i + 1;
    }
  }

  // reg_alloc_build_graph() with reg_alloc_add_edge()
  method BuildGraph(start: array<int>, end: array<int>) returns (graph: array2<bool>)
    requires start.Length == end.Length == VARS_LIMIT
    ensures fresh(graph) && graph.Length0 == graph.Length1 == VARS_LIMIT
    ensures forall u, v :: 0 <= u < VARS_LIMIT && 0 <= v < VARS_LIMIT ==>
              (graph[u, v] <==> u != v && Overlap(start[u], end[u], start[v], end[v]))
  {
    graph := new bool[VARS_LIMIT, VARS_LIMIT]((_, _) => false);
    var i := 0;
    while i < VARS_LIMIT
      invariant 0 <= i <= VARS_LIMIT
      invariant forall u, v :: 0 <= u < VARS_LIMIT && 0 <= v < VARS_LIMIT ==>
                  (graph[u, v] <==> u != v && (u < i || v < i) && Overlap(start[u], end[u], start[v], end[v]))
    {
      var j := i + 1;
      while j < VARS_LIMIT
        invariant i < j <= VARS_LIMIT
        invariant forall u, v :: 0 <= u < VARS_LIMIT && 0 <= v < VARS_LIMIT ==>
                    (graph[u, v] <==> u != v && Overlap(start[u], end[u], start[v], end[v])
                                      && (u < i || v < i || (u == i && v < j) || (v == i && u < j)))
      {
        if start[i] <= end[j] && start[j] <= end[i] {
          if !graph[i, j] {
            graph[i, j] := true;
            graph[j, i] := true;
          }
        }
        j := j + 1;
      }
      i := i + 1;
    }
  }

  // Register r is held by a neighbour of i among the first n variables.
  ghost predicate Held(graph: array2<bool>, color: seq<int>, i: nat, r: int, n: nat)
    requires i < graph.Length0 && n <= |color| <= graph.Length1
    reads graph
  {
    exists j :: 0 <= j < n && graph[i, j] && color[j] == r
  }

  // The choice for variable i: the least register that no earlier neighbour
  // holds, or a spill when every register is held.
  ghost predicate GreedyChoice(graph: array2<bool>, color: seq<int>, regs: nat, i: nat)
    requires i < graph.Length0 && i < |color| <= graph.Length1
    reads graph
  {
    && -1 <= color[i] < regs
    && (color[i] >= 0 ==> !Held(graph, color, i, color[i], i) && forall r :: 0 <= r < color[i] ==> Held(graph, color, i, r, i))
    && (color[i] == -1 ==> forall r :: 0 <= r < regs ==> Held(graph, color, i, r, i))
  }

  // The loop that strikes out the registers of coloured neighbours.
  method Available(graph: array2<bool>, color: array<int>, regs: nat, i: nat) returns (available: array<bool>)
    requires graph.Length0 == graph.Length1 == color.Length == VARS_LIMIT && regs <= REGS_LIMIT && i < VARS_LIMIT
    requires forall j :: 0 <= j < VARS_LIMIT ==> -1 <= color[j] < regs
    requires forall j :: i <= j < VARS_LIMIT ==> color[j] == -1
    ensures fresh(available) && available.Length == REGS_LIMIT
    ensures forall r :: 0 <= r < regs ==> (available[r] <==> !Held(graph, color[..], i, r, i))
  {
    available := new bool[REGS_LIMIT](_ => false);
    for j := 0 to regs
      invariant forall r :: 0 <= r < j ==> available[r]
    {
      available[j] := true;
    }
    for j := 0 to VARS_LIMIT
      invariant forall r :: 0 <= r < regs ==> (available[r] <==> !Held(graph, color[..], i, r, j))
    {
      if graph[i, j] && color[j] != -1 {
        available[color[j]] := false;
      }
    }
    forall r | 0 <= r < regs ensures Held(graph, color[..], i, r, VARS_LIMIT) <==> Held(graph, color[..], i, r, i) {
      if Held(graph, color[..], i, r, VARS_LIMIT) {
        var j :| 0 <= j < VARS_LIMIT && graph[i, j] && color[..][j] == r;
      }
    }
  }

  // reg_alloc()
  method Colour(graph: array2<bool>, regs: nat) returns (color: array<int>, spill: array<bool>)
    requires graph.Length0 == graph.Length1 == VARS_LIMIT && regs <= REGS_LIMIT
    ensures fresh(color) && fresh(spill) && color.Length == spill.Length == VARS_LIMIT
    ensures forall i: nat :: i < VARS_LIMIT ==> GreedyChoice(graph, color[..], regs, i) && (spill[i] <==> color[i] == -1)
  {
    color := new int[VARS_LIMIT](_ => -1);
    spill := new bool[VARS_LIMIT](_ => false);
    var i := 0;
    while i < VARS_LIMIT
      invariant 0 <= i <= VARS_LIMIT
      invariant forall j :: i <= j < VARS_LIMIT ==> color[j] == -1 && !spill[j]
      invariant forall j :: 0 <= j < VARS_LIMIT ==> -1 <= color[j] < regs
      invariant forall j: nat :: j < i ==> GreedyChoice(graph, color[..], regs, j) && (spill[j] <==> color[j] == -1)
    {
      ghost var before := color[..];
      var available := Available(graph, color, regs, i);
      var reg := -1;
      var j := 0;
      while j < regs
        invariant 0 <= j <= regs && reg == -1
        invariant forall r :: 0 <= r < j ==> Held(graph, before, i, r, i)
      {
        if available[j] {
          reg := j;
          break;
        }
        j := j + 1;
      }
      if reg != -1 {
        color[i] := reg;
      } else {
        spill[i] := true;
      }
      forall k: nat | k <= i ensures GreedyChoice(graph, color[..], regs, k) {
        EarlierColours(graph, before, color[..], k, i);
        if k < i { assert GreedyChoice(graph, before, regs, k); }
      }
      i := i + 1;
    }
  }

  // Choices only depend on earlier colours.
  lemma EarlierColours(graph: array2<bool>, c: seq<int>, c': seq<int>, k: nat, i: nat)
    requires k <= i < |c| == |c'| <= graph.Length1 && i < graph.Length0
    requires forall j :: 0 <= j < |c| && j != i ==> c[j] == c'[j]
    ensures forall r :: Held(graph, c, k, r, k) <==> Held(graph, c', k, r, k)
  {
    forall r ensures Held(graph, c, k, r, k) <==> Held(graph, c', k, r, k) {
      if Held(graph, c, k, r, k) {
        var j :| 0 <= j < k && graph[k, j] && c[j] == r;
        assert c'[j] == r;
      }
      if Held(graph, c', k, r, k) {
        var j :| 0 <= j < k && graph[k, j] && c'[j] == r;
        assert c[j] == r;
      }
    }
  }

  // Variables that interfere never share a register.
  ghost predicate ProperColours(prog: Program, color: seq<int>) {
    && |color| == VARS_LIMIT
    && forall u: nat, v: nat :: u < VARS_LIMIT && v < VARS_LIMIT && Interfere(prog, u, v) && color[u] == color[v] ==> color[u] == -1
  }

  // An earlier variable that interferes with v holds register r.
  ghost predicate Blocked(prog: Program, color: seq<int>, v: nat, r: int) {
    exists u: nat :: u < v && u < |color| && Interfere(prog, u, v) && color[u] == r
  }

  // reg_alloc_fn(): a register for every variable or a spill.
  method RegAllocFn(prog: Program, regs: nat) returns (color: seq<int>, spill: seq<bool>)
    requires SmallVars(prog) && regs <= REGS_LIMIT
    ensures ProperColours(prog, color) && |spill| == VARS_LIMIT
    ensures forall v: nat :: v < VARS_LIMIT ==> -1 <= color[v] < regs && (spill[v] <==> color[v] == -1)
    ensures forall v: nat :: v < VARS_LIMIT && spill[v] ==>
              forall r: int :: 0 <= r < regs ==> Blocked(prog, color, v, r)
  {
    var start, end := LiveRanges(prog);
    var graph := BuildGraph(start, end);
    var c, s := Colour(graph, regs);
    color, spill := c[..], s[..];
    assert forall u: nat, v: nat :: u < VARS_LIMIT && v < VARS_LIMIT ==> (graph[u, v] <==> Interfere(prog, u, v));
    forall u: nat, v: nat | u < VARS_LIMIT && v < VARS_LIMIT && Interfere(prog, u, v) && color[u] == color[v]
      ensures color[u] == -1
    {
      var lo, hi := if u < v then u else v, if u < v then v else u;
      assert GreedyChoice(graph, color, regs, hi) && graph[hi, lo];
    }
    forall v: nat, r: int | v < VARS_LIMIT && spill[v] && 0 <= r < regs
      ensures Blocked(prog, color, v, r)
    {
      assert GreedyChoice(graph, color, regs, v) && Held(graph, color, v, r, v);
      var u: nat :| u < v && graph[v, u] && color[u] == r;
      assert Interfere(prog, u, v);
    }
  }

  // ---- Running on registers ----

  ghost predicate StraightLine(prog: Program) {
    forall i :: 0 <= i < |prog| ==> prog[i].Store? || prog[i].Alloca?
  }

  // A variable is not mentioned before it is allocated.
  ghost predicate AllocatedFirst(prog: Program) {
    forall i, j :: 0 <= i < j < |prog| && prog[j].Alloca? ==> !Mentions(prog[i], prog[j].idx)
  }

  // Whatever a store reads has been stored before.
  ghost predicate StoredBeforeRead(prog: Program) {
    forall i, v: nat :: 0 <= i < |prog| && prog[i].Store? && IsOperand(prog[i].body, v) ==>
      exists k :: 0 <= k < i && prog[k].Store? && prog[k].idx == v
  }

  ghost predicate AllColoured(prog: Program, color: seq<int>) {
    forall i, v: nat :: 0 <= i < |prog| && Mentions(prog[i], v) ==> v < |color| && color[v] >= 0
  }

  function RegOf(color: seq<int>, v: nat): nat {
    if v < |color| && color[v] >= 0 then color[v] else 0
  }

  function RegOperand(color: seq<int>, o: Operand): Operand {
    if o.Sym? then Sym(RegOf(color, o.idx)) else o
  }

  function RegBody(color: seq<int>, b: Body): Body {
    match b
    case Direct(o) => Direct(RegOperand(color, o))
    case Bin(op, l, r) => Bin(op, RegOperand(color, l), RegOperand(color, r))
  }

  // The variables, or the registers, after the first n instructions.  An alloca
  // zeroes its variable and does nothing to the registers.
  function EnvAfter(prog: Program, env: Env, n: nat): Env
    requires n <= |prog| && StraightLine(prog)
  {
    if n == 0 then env
    else
      var e := EnvAfter(prog, env, n - 1);
      e[prog[n - 1].idx := if prog[n - 1].Store? then EvalBody(e, prog[n - 1].body) else 0]
  }

  function RegsAfter(prog: Program, color: seq<int>, regs: Env, n: nat): Env
    requires n <= |prog| && StraightLine(prog)
  {
    if n == 0 then regs
    else
      var r := RegsAfter(prog, color, regs, n - 1);
      if prog[n - 1].Store? then r[RegOf(color, prog[n - 1].idx) := EvalBody(r, RegBody(color, prog[n - 1].body))] else r
  }

  // A live variable's register holds its value.
  ghost predicate LiveAgree(prog: Program, color: seq<int>, env: Env, regs: Env, n: nat)
    requires n <= |prog|
  {
    forall v: nat :: 0 <= First(prog, v, |prog|) < n <= Last(prog, v, |prog|) ==> Load(regs, RegOf(color, v)) == Load(env, v)
  }

  lemma OperandAgrees(prog: Program, color: seq<int>, env: Env, regs: Env, n: nat, v: nat)
    requires n < |prog| && StoredBeforeRead(prog) && prog[n].Store? && IsOperand(prog[n].body, v)
    requires LiveAgree(prog, color, env, regs, n)
    ensures Load(regs, RegOf(color, v)) == Load(env, v)
  {
    assert Mentions(prog[n], v);
    var k :| 0 <= k < n && prog[k].Store? && prog[k].idx == v;
    assert Mentions(prog[k], v);
  }

  // One store: the registers of the other live variables are not touched.
  lemma StoreKeepsAgreement(prog: Program, color: seq<int>, env: Env, regs: Env, n: nat, x: int32)
    requires n < |prog| && prog[n].Store? && StoredBeforeRead(prog) && SmallVars(prog)
    requires ProperColours(prog, color) && AllColoured(prog, color) && LiveAgree(prog, color, env, regs, n)
    ensures LiveAgree(prog, color, env[prog[n].idx := x], regs[RegOf(color, prog[n].idx) := x], n + 1)
  {
    var res, len := prog[n].idx, |prog|;
    assert Mentions(prog[n], res);
    forall v: nat | 0 <= First(prog, v, len) < n + 1 <= Last(prog, v, len) && v != res
      ensures RegOf(color, v) != RegOf(color, res) && First(prog, v, len) < n
    {
      var f := First(prog, v, len);
      assert Mentions(prog[f], v) && Mentions(prog[Last(prog, v, len)], v);
      if f == n {
        var k :| 0 <= k < n && prog[k].Store? && prog[k].idx == v;
        assert Mentions(prog[k], v);
      }
      assert Interfere(prog, v, res);
    }
  }

  lemma AllocaKeepsAgreement(prog: Program, color: seq<int>, env: Env, regs: Env, n: nat)
    requires n < |prog| && prog[n].Alloca? && AllocatedFirst(prog) && LiveAgree(prog, color, env, regs, n)
    ensures LiveAgree(prog, color, env[prog[n].idx := 0], regs, n + 1)
  {
    forall v: nat | 0 <= First(prog, v, |prog|) < n + 1 <= Last(prog, v, |prog|)
      ensures First(prog, v, |prog|) < n && v != prog[n].idx
    {
      assert Mentions(prog[First(prog, v, |prog|)], v);
    }
  }

  // Every store writes the same value whether variables live in memory or in
  // the registers they were given, whatever both held before.
  lemma {:induction false} ColouringPreservesStores(prog: Program, color: seq<int>, env: Env, regs: Env, n: nat)
    requires n <= |prog| && StraightLine(prog) && StoredBeforeRead(prog) && AllocatedFirst(prog) && SmallVars(prog)
    requires ProperColours(prog, color) && AllColoured(prog, color)
    ensures LiveAgree(prog, color, EnvAfter(prog, env, n), RegsAfter(prog, color, regs, n), n)
    ensures n < |prog| && prog[n].Store? ==>
              EvalBody(RegsAfter(prog, color, regs, n), RegBody(color, prog[n].body)) == EvalBody(EnvAfter(prog, env, n), prog[n].body)
    decreases n
  {
    hide LiveAgree, ProperColours, SmallVars, AllColoured, StoredBeforeRead, AllocatedFirst, RegBody, EvalBody;
    if n > 0 {
      ColouringPreservesStores(prog, color, env, regs, n - 1);
      var e, r := EnvAfter(prog, env, n - 1), RegsAfter(prog, color, regs, n - 1);
      if prog[n - 1].Store? {
        StoreKeepsAgreement(prog, color, e, r, n - 1, EvalBody(e, prog[n - 1].body));
      } else {
        AllocaKeepsAgreement(prog, color, e, r, n - 1);
      }
    }
    if n < |prog| && prog[n].Store? {
      BodyAgrees(prog, color, EnvAfter(prog, env, n), RegsAfter(prog, color, regs, n), n);
    }
    if n == 0 {
      NothingLive(prog, color, env, regs);
    }
  }

  lemma NothingLive(prog: Program, color: seq<int>, env: Env, regs: Env)
    ensures LiveAgree(prog, color, env, regs, 0)
  {
  }

  lemma BodyAgrees(prog: Program, color: seq<int>, env: Env, regs: Env, n: nat)
    requires n < |prog| && StoredBeforeRead(prog) && prog[n].Store? && LiveAgree(prog, color, env, regs, n)
    ensures EvalBody(regs, RegBody(color, prog[n].body)) == EvalBody(env, prog[n].body)
  {
    forall v: nat | IsOperand(prog[n].body, v) ensures Load(regs, RegOf(color, v)) == Load(env, v) {
      OperandAgrees(prog, color, env, regs, n, v);
    }
  }

  // No variable that is mentioned was spilled.
  ghost predicate NoneSpilled(prog: Program, spill: seq<bool>)
    requires |spill| == VARS_LIMIT
  {
    forall v: nat :: v < VARS_LIMIT && spill[v] ==> forall i :: 0 <= i < |prog| ==> !Mentions(prog[i], v)
  }

  // With the registers chosen by ir_reg_alloc(), straight-line code in which
  // nothing is spilled stores what it stores over variables, at every
  // instruction and whatever registers and variables held before.
  method AllocateStraightLine(prog: Program, regs: nat) returns (color: seq<int>, spill: seq<bool>)
    requires SmallVars(prog) && regs <= REGS_LIMIT && StraightLine(prog) && StoredBeforeRead(prog) && AllocatedFirst(prog)
    ensures |color| == |spill| == VARS_LIMIT && forall v: nat :: v < VARS_LIMIT ==> -1 <= color[v] < regs
    ensures NoneSpilled(prog, spill) ==> forall env, out, n: nat :: n < |prog| && prog[n].Store? ==> StoresSame(prog, color, env, out, n)
  {
    color, spill := RegAllocFn(prog, regs);
    if NoneSpilled(prog, spill) {
      forall env, out, n: nat | n < |prog| && prog[n].Store? ensures StoresSame(prog, color, env, out, n) {
        ColouringPreservesStores(prog, color, env, out, n);
      }
    }
  }

  // The store at n writes the same value over registers and over variables.
  ghost predicate StoresSame(prog: Program, color: seq<int>, env: Env, regs: Env, n: nat)
    requires n < |prog| && StraightLine(prog) && prog[n].Store?
  {
    EvalBody(RegsAfter(prog, color, regs, n), RegBody(color, prog[n].body)) == EvalBody(EnvAfter(prog, env, n), prog[n].body)
  }
}
