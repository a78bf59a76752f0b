// The list of scratch registers in lib/back_end/risc_v.c.
module RegisterLru {
  const MAX_REGISTERS: nat := 32
  const FREE_REG_START: int := 5
  const FREE_REG_END: int := 31

  // init_lru(): the free registers in order; five entries at the end stay 0.
  function Initial(): (l: seq<int>)
    ensures |l| == MAX_REGISTERS
  {
    seq(MAX_REGISTERS, i => if i < 27 then FREE_REG_START + i else 0)
  }

  function IndexOf(l: seq<int>, reg: int): (i: nat)
    ensures i <= |l| && reg !in l[..i] && (i < |l| ==> l[i] == reg)
  {
    if l == [] || l[0] == reg then 0 else
      var i := IndexOf(l[1..], reg);
      assert l[..i + 1] == [l[0]] + l[1..][..i];
      i + 1
  }

  // update_lru(): reg moves to the end; one that is not listed replaces the last.
  function Updated(l: seq<int>, reg: int): (m: seq<int>)
    requires l != []
    ensures |m| == |l|
  {
    var i := IndexOf(l, reg);
    if i == |l| then l[..|l| - 1] + [reg] else l[..i] + l[i + 1..] + [reg]
  }

  // allocate_register(): the register and the list behind it; -1 and the same
  // list when the first entry is no free register.
  function Allocated(l: seq<int>): (r: (int, seq<int>))
    requires l != []
    ensures |r.1| == |l|
  {
    if FREE_REG_START <= l[0] <= FREE_REG_END then (l[0], Updated(l, l[0])) else (-1, l)
  }

  class RegLru {
    const lru: array<int>

    constructor ()
      ensures fresh(lru) && lru.Length == MAX_REGISTERS && lru[..] == Initial()
    {
      lru := new int[MAX_REGISTERS](_ => 0);
      new;
      var idx := 0;
      for i := FREE_REG_START to FREE_REG_END + 1
        invariant idx == i - FREE_REG_START
        invariant forall k :: 0 <= k < MAX_REGISTERS ==> lru[k] == if k < idx then FREE_REG_START + k else 0
      {
        lru[idx] := i;
        idx := idx + 1;
      }
      assert forall k :: 0 <= k < MAX_REGISTERS ==> lru[k] == Initial()[k];
    }

    method UpdateLru(reg: int)
      requires lru.Length == MAX_REGISTERS
      modifies lru
      ensures lru[..] == Updated(old(lru[..]), reg)
    {
      ghost var l := lru[..];
      var i := 0;
      while i < MAX_REGISTERS && lru[i] != reg
        invariant 0 <= i <= MAX_REGISTERS && reg !in l[..i] && lru[..] == l
      {
        i := i + 1;
      }
      FirstIndex(l, reg, i);
      var j := i;
      while j < MAX_REGISTERS - 1
        invariant i <= j && (j < MAX_REGISTERS || j == i)
        invariant forall k :: 0 <= k < i ==> lru[k] == l[k]
        invariant forall k :: i < k <= j && k < MAX_REGISTERS ==> lru[k - 1] == l[k]
        invariant forall k :: j <= k < MAX_REGISTERS ==> lru[k] == l[k]
      {
        lru[j] := lru[j + 1];
        j := j + 1;
      }
      lru[MAX_REGISTERS - 1] := reg;
    }

    method AllocateRegister() returns (reg: int)
      requires lru.Length == MAX_REGISTERS
      modifies lru
      ensures (reg, lru[..]) == Allocated(old(lru[..]))
    {
      for i := FREE_REG_START to FREE_REG_END + 1
        invariant lru[..] == old(lru[..]) && !(FREE_REG_START <= lru[0] < i)
      {
        if lru[0] == i {
          reg := lru[0];
          UpdateLru(reg);
          return;
        }
      }
      reg := -1;
    }
  }

  lemma {:induction false} FirstIndex(l: seq<int>, reg: int, i: nat)
    requires i <= |l| && reg !in l[..i] && (i < |l| ==> l[i] == reg)
    ensures IndexOf(l, reg) == i
  {
    var k := IndexOf(l, reg);
    assert forall j :: 0 <= j < i ==> l[j] == l[..i][j];
    assert forall j :: 0 <= j < k ==> l[j] == l[..k][j];
  }

  // ---- How long it lasts ----

  function After(n: nat): (l: seq<int>)
    ensures |l| == MAX_REGISTERS
  {
    if n == 0 then Initial() else Allocated(After(n - 1)).1
  }

  // The list after n of the first 27 allocations: turned by n places.
  function Turned(n: nat): seq<int>
    requires n <= 27
  {
    Initial()[n..] + Initial()[..n]
  }

  lemma {:induction false} AfterTurns(n: nat)
    requires n <= 27
    ensures After(n) == Turned(n)
  {
    if n == 0 {
      assert Turned(0) == Initial();
    } else {
      AfterTurns(n - 1);
      var l := Turned(n - 1);
      assert l[0] == 4 + n;
      FirstIndex(l, l[0], 0);
      assert Updated(l, l[0]) == l[1..] + [l[0]] == Turned(n);
    }
  }

  lemma {:induction false} AfterSticks(n: nat)
    requires n >= 27
    ensures After(n) == Turned(27)
    decreases n
  {
    if n == 27 {
      AfterTurns(27);
    } else {
      AfterSticks(n - 1);
      assert Turned(27)[0] == 0;
    }
  }

  // Marking the register as used once more, as its user does, changes nothing.
  lemma UseKeepsOrder(n: nat)
    requires n < 27
    ensures Updated(After(n + 1), Allocated(After(n)).0) == After(n + 1)
  {
    AllocationsRunOut(n);
    AfterTurns(n + 1);
    var l := Turned(n + 1);
    FirstIndex(l, FREE_REG_START + n, MAX_REGISTERS - 1);
    assert l == l[..MAX_REGISTERS - 1] + [l[MAX_REGISTERS - 1]];
  }

  // The first 27 allocations hand out the registers 5 to 31, each once; every
  // further one fails, because the unused entries have moved to the front.
  lemma AllocationsRunOut(n: nat)
    ensures Allocated(After(n)).0 == if n < 27 then FREE_REG_START + n else -1
  {
    if n < 27 {
      AfterTurns(n);
      assert Turned(n)[0] == FREE_REG_START + n;
    } else {
      AfterSticks(n);
      assert Turned(27)[0] == 0;
    }
  }
}
