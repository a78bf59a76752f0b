// Address bookkeeping of lib/back_end/emit.c over the text buffer of
// lib/back_end/back_end.c: _start is squeezed in at address 0 when main is met,
// after the code in front of main has been generated.
module Emit {
  import opened Options

  const START_SIZE: nat := 4

  // What visiting one node emits: some bytes, or a call.
  datatype Op = Plain(size: nat) | Call(name: string)

  datatype Fn = Fn(name: string, ops: seq<Op>)

  // One byte of text: of a jal with this offset, or of anything else.
  datatype Cell = Raw | Jal(off: int, part: nat)

  function JalCells(off: int): (c: seq<Cell>)
    ensures |c| == 4
  {
    [Jal(off, 0), Jal(off, 1), Jal(off, 2), Jal(off, 3)]
  }

  function RawCells(n: nat): (c: seq<Cell>)
    ensures |c| == n
  {
    seq(n, _ => Raw)
  }

  predicate IsMain(f: Fn) { f.name == "main" }

  // main ends in the exit system call; other functions stand between prologue,
  // epilogue and return.
  function FnOps(f: Fn): seq<Op> {
    if IsMain(f) then f.ops + [Plain(8)] else [Plain(16)] + f.ops + [Plain(12), Plain(4)]
  }

  // ---- The layout in one go ----

  function OpSize(o: Op): nat { if o.Call? then 4 else o.size }

  function OpsSize(ops: seq<Op>): nat {
    if ops == [] then 0 else OpsSize(ops[..|ops| - 1]) + OpSize(ops[|ops| - 1])
  }

  // Address of function j, counted from the first function.
  function Start(fns: seq<Fn>, j: nat): nat
    requires j <= |fns|
  {
    if j == 0 then 0 else Start(fns, j - 1) + OpsSize(FnOps(fns[j - 1]))
  }

  // The latest declaration of a name.
  function Lookup(fns: seq<Fn>, name: string): (r: Option<nat>)
    ensures r.Some? ==> r.value < |fns| && fns[r.value].name == name
  {
    if fns == [] then None
    else if fns[|fns| - 1].name == name then Some(|fns| - 1)
    else Lookup(fns[..|fns| - 1], name)
  }

  predicate CallsKnown(fns: seq<Fn>, ops: seq<Op>) {
    forall i :: 0 <= i < |ops| && ops[i].Call? ==> Lookup(fns, ops[i].name).Some?
  }

  function OpText(fns: seq<Fn>, o: Op, at: nat): (t: seq<Cell>)
    requires o.Call? ==> Lookup(fns, o.name).Some?
    ensures |t| == OpSize(o)
  {
    if o.Call? then JalCells(Start(fns, Lookup(fns, o.name).value) - at) else RawCells(o.size)
  }

  // The code of ops at address `at`, every call aimed at its callee.
  function OpsText(fns: seq<Fn>, ops: seq<Op>, at: nat): (t: seq<Cell>)
    requires CallsKnown(fns, ops)
    ensures |t| == OpsSize(ops)
  {
    if ops == [] then []
    else
      var init := ops[..|ops| - 1];
      OpsText(fns, init, at) + OpText(fns, ops[|ops| - 1], at + OpsSize(init))
  }

  // Calls go to functions declared before, or to the function itself.
  predicate AllKnown(fns: seq<Fn>) {
    fns == [] || (AllKnown(fns[..|fns| - 1]) && CallsKnown(fns, FnOps(fns[|fns| - 1])))
  }

  function BodyText(fns: seq<Fn>): (t: seq<Cell>)
    requires AllKnown(fns)
    ensures |t| == Start(fns, |fns|)
  {
    if fns == [] then []
    else
      var n := |fns| - 1;
      StartPrefix(fns, n, n);
      BodyText(fns[..n]) + OpsText(fns, FnOps(fns[n]), Start(fns, n))
  }

  lemma {:induction false} StartPrefix(fns: seq<Fn>, n: nat, j: nat)
    requires j <= n <= |fns|
    ensures Start(fns[..n], j) == Start(fns, j)
    decreases j
  {
    hide OpsSize, FnOps;
    if j > 0 { StartPrefix(fns, n, j - 1); }
  }

  predicate HasMain(fns: seq<Fn>) { Lookup(fns, "main").Some? }

  // The finished text: _start jumps to main, the functions follow.
  function FinalText(fns: seq<Fn>): seq<Cell>
    requires AllKnown(fns)
  {
    if HasMain(fns) then JalCells(START_SIZE + Start(fns, Lookup(fns, "main").value)) + BodyText(fns)
    else BodyText(fns)
  }

  function Symbols(fns: seq<Fn>): seq<(string, nat)> {
    if fns == [] then [("_start", 0)]
    else Symbols(fns[..|fns| - 1]) + [(fns[|fns| - 1].name, START_SIZE + Start(fns, |fns| - 1))]
  }

  ghost predicate AtMostOneMain(fns: seq<Fn>) {
    forall i, j :: 0 <= i < j < |fns| ==> !(IsMain(fns[i]) && IsMain(fns[j]))
  }

  // ---- What the layout promises ----

  // In the layout, the k-th operation of function i, when it is a call, is a
  // jal whose address plus offset is where the callee starts.
  lemma {:induction false} CallLands(fns: seq<Fn>, i: nat, k: nat)
    requires AllKnown(fns) && i < |fns| && k < |FnOps(fns[i])| && FnOps(fns[i])[k].Call?
    ensures var at := Start(fns, i) + OpsSize(FnOps(fns[i])[..k]);
            var callee := Lookup(fns[..i + 1], FnOps(fns[i])[k].name);
            && callee.Some? && callee.value <= i
            && at + 4 <= |BodyText(fns)|
            && BodyText(fns)[at..at + 4] == JalCells(Start(fns, callee.value) - at)
    decreases |fns|
  {
    hide OpsSize, FnOps, Lookup, Start, OpsText, JalCells, AllKnown, BodyText, CallsKnown;
    var n := |fns| - 1;
    var ops, init := FnOps(fns[i]), fns[..n];
    BodySplit(fns);
    StartPrefix(fns, n, i);
    var at := Start(fns, i) + OpsSize(ops[..k]);
    if i < n {
      CallLands(init, i, k);
      assert init[..i + 1] == fns[..i + 1];
      StartPrefix(fns, n, Lookup(fns[..i + 1], ops[k].name).value);
      SliceInFront(BodyText(init), OpsText(fns, FnOps(fns[n]), Start(fns, n)), at, 4);
    } else {
      assert fns[..i + 1] == fns;
      OpTextAt(fns, ops, Start(fns, n), k);
      KnownCall(fns, ops, k);
      CallText(fns, ops[k], at);
      SliceBehind(BodyText(init), OpsText(fns, ops, Start(fns, n)), OpsSize(ops[..k]), 4);
    }
  }

  lemma SliceBehind(x: seq<Cell>, y: seq<Cell>, i: nat, m: nat)
    requires i + m <= |y|
    ensures (x + y)[|x| + i..|x| + i + m] == y[i..i + m]
  {
  }

  lemma SliceInFront(x: seq<Cell>, y: seq<Cell>, i: nat, m: nat)
    requires i + m <= |x|
    ensures (x + y)[i..i + m] == x[i..i + m]
  {
  }

  lemma {:induction false} SymbolOf(fns: seq<Fn>, i: nat)
    requires i < |fns|
    ensures |Symbols(fns)| == |fns| + 1 && Symbols(fns)[0] == ("_start", 0)
    ensures Symbols(fns)[i + 1] == (fns[i].name, START_SIZE + Start(fns, i))
    decreases |fns|
  {
    hide FnOps, OpsSize, Start;
    var n := |fns| - 1;
    SymbolCount(fns[..n]);
    if i < n {
      SymbolOf(fns[..n], i);
      StartPrefix(fns, n, i);
    }
  }

  lemma {:induction false} SymbolCount(fns: seq<Fn>)
    ensures |Symbols(fns)| == |fns| + 1 && Symbols(fns)[0] == ("_start", 0)
    decreases |fns|
  {
    hide Start;
    if fns != [] { SymbolCount(fns[..|fns| - 1]); }
  }

  // In the finished text, with _start in front: the jump at 0 and every call
  // lead to the address that the symbol table gives for their function.
  lemma FinalCallLands(fns: seq<Fn>, i: nat, k: nat)
    requires AllKnown(fns) && HasMain(fns)
    requires i < |fns| && k < |FnOps(fns[i])| && FnOps(fns[i])[k].Call?
    ensures |Symbols(fns)| == |fns| + 1
    ensures var main := Lookup(fns, "main").value;
            && FinalText(fns)[..4] == JalCells(Symbols(fns)[main + 1].1) && Symbols(fns)[main + 1].0 == "main"
    ensures var at := START_SIZE + Start(fns, i) + OpsSize(FnOps(fns[i])[..k]);
            var target := Lookup(fns[..i + 1], FnOps(fns[i])[k].name);
            && target.Some? && at + 4 <= |FinalText(fns)|
            && FinalText(fns)[at..at + 4] == JalCells(Symbols(fns)[target.value + 1].1 - at)
            && Symbols(fns)[target.value + 1].0 == FnOps(fns[i])[k].name
  {
    hide OpsSize, FnOps, Lookup, Start, JalCells, AllKnown, BodyText, Symbols;
    var a := Start(fns, i) + OpsSize(FnOps(fns[i])[..k]);
    CallLands(fns, i, k);
    SymbolOf(fns, Lookup(fns, "main").value);
    SymbolOf(fns, Lookup(fns[..i + 1], FnOps(fns[i])[k].name).value);
    SliceBehind(JalCells(START_SIZE + Start(fns, Lookup(fns, "main").value)), BodyText(fns), a, 4);
  }

  // Without a main there is no _start, and every symbol is 4 bytes off.
  lemma SymbolsWithoutMain(fns: seq<Fn>, i: nat)
    requires AllKnown(fns) && i < |fns|
    ensures |FinalText(fns)| == Start(fns, |fns|) + (if HasMain(fns) then START_SIZE else 0)
    ensures |Symbols(fns)| == |fns| + 1 && Symbols(fns)[i + 1].1 == Start(fns, i) + START_SIZE
  {
    hide OpsSize, FnOps, Lookup, Start, AllKnown, BodyText, Symbols;
    SymbolOf(fns, i);
  }

  lemma BodySplit(fns: seq<Fn>)
    requires AllKnown(fns) && fns != []
    ensures var n := |fns| - 1;
            && AllKnown(fns[..n]) && CallsKnown(fns, FnOps(fns[n]))
            && BodyText(fns) == BodyText(fns[..n]) + OpsText(fns, FnOps(fns[n]), Start(fns, n))
            && |BodyText(fns[..n])| == Start(fns, n)
  {
    hide OpsSize, FnOps, Lookup, OpsText, CallsKnown;
    StartPrefix(fns, |fns| - 1, |fns| - 1);
  }

  lemma KnownCall(fns: seq<Fn>, ops: seq<Op>, k: nat)
    requires CallsKnown(fns, ops) && k < |ops| && ops[k].Call?
    ensures Lookup(fns, ops[k].name).Some?
  {
  }

  lemma LookupExtend(done: seq<Fn>, f: Fn, name: string)
    ensures Lookup(done + [f], name) == if f.name == name then Some(|done|) else Lookup(done, name)
  {
    assert (done + [f])[..|done|] == done;
  }

  lemma CallText(fns: seq<Fn>, o: Op, at: nat)
    requires o.Call? && Lookup(fns, o.name).Some?
    ensures OpSize(o) == 4 && OpText(fns, o, at) == JalCells(Start(fns, Lookup(fns, o.name).value) - at)
  {
  }

  lemma {:induction false} OpTextAt(fns: seq<Fn>, ops: seq<Op>, at: nat, k: nat)
    requires CallsKnown(fns, ops) && k < |ops|
    ensures var a := OpsSize(ops[..k]);
            a + OpSize(ops[k]) <= OpsSize(ops)
            && OpsText(fns, ops, at)[a..a + OpSize(ops[k])] == OpText(fns, ops[k], at + a)
    decreases |ops|
  {
    hide OpText, OpSize, Lookup;
    var n := |ops| - 1;
    var a, m := OpsSize(ops[..k]), OpSize(ops[k]);
    if k < n {
      OpTextAt(fns, ops[..n], at, k);
      assert ops[..n][..k] == ops[..k];
      SliceInFront(OpsText(fns, ops[..n], at), OpText(fns, ops[n], at + OpsSize(ops[..n])), a, m);
    } else {
      assert ops[..n] == ops[..k];
    }
  }

  // ---- The generator ----

  class Emitter {
    var text: seq<Cell>
    var seek: nat
    var mapping: map<string, nat>
    var mainEmitted: bool
    var symtab: seq<(string, nat)>

    constructor ()
      ensures text == [] && seek == 0 && mapping == map[] && !mainEmitted && symtab == []
    {
      text, seek, mapping, mainEmitted, symtab := [], 0, map[], false, [];
    }

    // put(): the bytes are inserted one by one at the seek position.
    method Put(code: seq<Cell>)
      requires seek <= |text|
      modifies `text, `seek
      ensures text == old(text)[..old(seek)] + code + old(text)[old(seek)..] && seek == old(seek) + |code|
    {
      var s := seek;
      var i := 0;
      while i < |code|
        invariant 0 <= i <= |code| && seek == s + i <= |text|
        invariant text == old(text)[..s] + code[..i] + old(text)[s..]
      {
        text := text[..seek] + [Raw] + text[seek..];
        text := text[s + i := code[i]];
        seek := seek + 1;
        assert code[..i + 1] == code[..i] + [code[i]];
        i := i + 1;
      }
      assert code[..i] == code;
    }

    // The functions in `done` are complete; the text is theirs, behind _start
    // once main is among them.
    ghost predicate Emitted(done: seq<Fn>)
      reads this
    {
      && AllKnown(done) && text == FinalText(done) && seek == |text|
      && (mainEmitted <==> HasMain(done))
      && MappingRight(done)
      && symtab == Symbols(done)
    }

    ghost predicate MappingRight(fns: seq<Fn>)
      reads `mapping
    {
      Maps(mapping, fns)
    }

    // The address that the seek position will have in the end.
    ghost function FinalSeek(): int
      reads this
    {
      if mainEmitted then seek else seek + START_SIZE
    }

    // visit_fn_call()
    method VisitCall(name: string, ghost fns: seq<Fn>) returns (ok: bool)
      requires MappingRight(fns) && seek == |text|
      modifies `text, `seek
      ensures ok <==> Lookup(fns, name).Some?
      ensures ok ==> text == old(text) + JalCells(START_SIZE + Start(fns, Lookup(fns, name).value) - old(FinalSeek()))
      ensures seek == |text|
    {
      hide Lookup, Start, JalCells;
      if name !in mapping {
        return false;
      }
      var callOff := mapping[name] - seek;
      if !mainEmitted {
        callOff := callOff - START_SIZE;
      }
      Put(JalCells(callOff));
      ok := true;
    }

    method VisitOp(o: Op, ghost fns: seq<Fn>) returns (ok: bool)
      requires MappingRight(fns) && seek == |text| && FinalSeek() >= START_SIZE
      modifies `text, `seek
      ensures ok <==> (o.Call? ==> Lookup(fns, o.name).Some?)
      ensures ok ==> text == old(text) + OpText(fns, o, old(FinalSeek()) - START_SIZE)
      ensures seek == |text|
    {
      hide Lookup, Start, JalCells, MappingRight, RawCells;
      match o {
        case Plain(n) =>
          Put(RawCells(n));
          ok := true;
        case Call(name) =>
          ok := VisitCall(name, fns);
      }
    }

    // visit_chain() with what stands around it.
    method VisitOps(ops: seq<Op>, ghost fns: seq<Fn>) returns (ok: bool)
      requires MappingRight(fns) && seek == |text| && FinalSeek() >= START_SIZE
      modifies `text, `seek
      ensures ok <==> CallsKnown(fns, ops)
      ensures ok ==> text == old(text) + OpsText(fns, ops, old(FinalSeek()) - START_SIZE) && seek == |text|
    {
      hide MappingRight, OpText, OpSize, Lookup;
      var i := 0;
      ghost var at := FinalSeek() - START_SIZE;
      while i < |ops|
        invariant 0 <= i <= |ops| && seek == |text| && CallsKnown(fns, ops[..i])
        invariant text == old(text) + OpsText(fns, ops[..i], at)
      {
        assert ops[..i + 1][..i] == ops[..i];
        ok := VisitOp(ops[i], fns);
        if !ok { return; }
        i := i + 1;
      }
      assert ops[..i] == ops;
      ok := true;
    }

    // visit_fn_decl()
    method VisitFnDecl(f: Fn, ghost done: seq<Fn>) returns (ok: bool)
      requires Emitted(done) && !(IsMain(f) && HasMain(done))
      modifies this
      ensures ok <==> CallsKnown(done + [f], FnOps(f))
      ensures ok ==> Emitted(done + [f])
    {
      hide AllKnown, BodyText, OpsText, CallsKnown, FnOps, JalCells, Start, OpsSize, FinalText, Symbols, HasMain, Maps;
      ghost var fns := done + [f];
      Extend(done, f);
      NoMainText(done);
      ghost var map0 := mapping;
      if IsMain(f) {
        mainEmitted := true;
        var mainSeek := seek + START_SIZE;
        symtab := symtab + [(f.name, mainSeek)];
        var after := seek + START_SIZE;
        mapping := mapping[f.name := mainSeek];
        seek := 0;
        Put(JalCells(mainSeek));
        seek := after;
        assert text == JalCells(mainSeek) + BodyText(done);
      } else {
        var off := if mainEmitted then seek else seek + START_SIZE;
        symtab := symtab + [(f.name, off)];
        mapping := mapping[f.name := off];
      }
      MappingExtends(map0, mapping, done, f);
      ghost var front := text;
      ok := VisitOps(FnOps(f), fns);
      if ok {
        FinalExtends(done, f, front, text);
      }
    }
  }

  lemma NoMainText(fns: seq<Fn>)
    requires AllKnown(fns)
    ensures !HasMain(fns) ==> FinalText(fns) == BodyText(fns)
  {
  }

  ghost predicate Maps(mapping: map<string, nat>, fns: seq<Fn>) {
    forall name :: (name in mapping <==> Lookup(fns, name).Some?)
                   && (name in mapping ==> mapping[name] == START_SIZE + Start(fns, Lookup(fns, name).value))
  }

  // What adding one function changes in the tables.
  lemma Extend(done: seq<Fn>, f: Fn)
    requires AllKnown(done)
    ensures var fns := done + [f];
            && Start(fns, |done|) == Start(done, |done|) == |BodyText(done)|
            && Symbols(fns) == Symbols(done) + [(f.name, START_SIZE + Start(fns, |done|))]
            && |FinalText(done)| == |BodyText(done)| + if HasMain(done) then START_SIZE else 0
  {
    hide OpsText, OpsSize, CallsKnown, FnOps, BodyText, AllKnown;
    var fns := done + [f];
    assert fns[..|done|] == done;
    StartPrefix(fns, |done|, |done|);
  }

  lemma MappingExtends(m: map<string, nat>, m': map<string, nat>, done: seq<Fn>, f: Fn)
    requires Maps(m, done)
    requires m' == m[f.name := START_SIZE + Start(done + [f], |done|)]
    ensures Maps(m', done + [f])
  {
    hide OpsSize, FnOps, Start, Lookup;
    var fns := done + [f];
    assert fns[..|done|] == done;
    forall name
      ensures (name in m' <==> Lookup(fns, name).Some?)
              && (name in m' ==> m'[name] == START_SIZE + Start(fns, Lookup(fns, name).value))
    {
      LookupExtend(done, f, name);
      if name != f.name && name in m {
        StartPrefix(fns, |done|, Lookup(done, name).value);
      }
    }
  }

  // Where main starts, as seen with one more function.
  lemma MainExtends(done: seq<Fn>, f: Fn)
    requires !(IsMain(f) && HasMain(done))
    ensures var fns := done + [f];
            && (HasMain(fns) <==> HasMain(done) || IsMain(f))
            && (HasMain(fns) ==> Start(fns, Lookup(fns, "main").value)
                                 == if IsMain(f) then Start(fns, |done|) else Start(done, Lookup(done, "main").value))
  {
    hide OpsSize, FnOps, Start, Lookup;
    assert (done + [f])[..|done|] == done;
    LookupExtend(done, f, "main");
    if HasMain(done) {
      StartPrefix(done + [f], |done|, Lookup(done, "main").value);
    }
  }

  lemma FinalExtends(done: seq<Fn>, f: Fn, front: seq<Cell>, text: seq<Cell>)
    requires AllKnown(done) && CallsKnown(done + [f], FnOps(f)) && !(IsMain(f) && HasMain(done))
    requires front == (if IsMain(f) then JalCells(START_SIZE + Start(done + [f], |done|)) + BodyText(done) else FinalText(done))
    requires text == front + OpsText(done + [f], FnOps(f), Start(done + [f], |done|))
    ensures AllKnown(done + [f]) && text == FinalText(done + [f])
    ensures HasMain(done + [f]) <==> HasMain(done) || IsMain(f)
  {
    hide OpsSize, FnOps, Start, OpsText, CallsKnown, JalCells, Lookup, BodyText, AllKnown, HasMain, IsMain;
    var fns := done + [f];
    assert fns[..|done|] == done;
    KnownExtend(done, f);
    BodySplit(fns);
    MainExtends(done, f);
    FrontAndOwn(front, BodyText(done), OpsText(fns, FnOps(f), Start(fns, |done|)));
  }

  lemma FrontAndOwn(front: seq<Cell>, body: seq<Cell>, own: seq<Cell>)
    ensures forall jump: seq<Cell> :: front == jump + body ==> front + own == jump + (body + own)
  {
  }

  lemma KnownExtend(done: seq<Fn>, f: Fn)
    ensures AllKnown(done + [f]) <==> AllKnown(done) && CallsKnown(done + [f], FnOps(f))
  {
    hide CallsKnown, FnOps;
    assert (done + [f])[..|done|] == done;
  }

  // back_end_gen(): with at most one main and calls only to functions declared
  // before (or to itself), the text is the layout in one go, although _start
  // was inserted on the way, and the symbols are the final addresses.
  // Otherwise code generation stops with an error.
  method BackEndGen(fns: seq<Fn>) returns (ok: bool, text: seq<Cell>, symtab: seq<(string, nat)>)
    requires AtMostOneMain(fns)
    ensures ok <==> AllKnown(fns)
    ensures ok ==> text == FinalText(fns) && symtab == Symbols(fns)
  {
    hide AllKnown, FinalText, Symbols, Lookup, CallsKnown, FnOps, Maps;
    NothingEmitted();
    var e := new Emitter();
    e.symtab := [("_start", e.seek)];
    var i := 0;
    while i < |fns|
      invariant 0 <= i <= |fns| && fresh(e) && e.Emitted(fns[..i])
    {
      assert fns[..i + 1] == fns[..i] + [fns[i]];
      if IsMain(fns[i]) { NoEarlierMain(fns, i); }
      KnownPrefix(fns, i + 1);
      KnownExtend(fns[..i], fns[i]);
      ok := e.VisitFnDecl(fns[i], fns[..i]);
      if !ok { return false, [], []; }
      i := i + 1;
    }
    assert fns[..i] == fns;
    return true, e.text, e.symtab;
  }

  lemma NothingEmitted()
    ensures AllKnown([]) && FinalText([]) == [] && Symbols([]) == [("_start", 0)] && Maps(map[], []) && !HasMain([])
  {
  }

  lemma NoEarlierMain(fns: seq<Fn>, i: nat)
    requires AtMostOneMain(fns) && i < |fns| && IsMain(fns[i])
    ensures !HasMain(fns[..i])
  {
  }

  lemma {:induction false} KnownPrefix(fns: seq<Fn>, n: nat)
    requires n <= |fns|
    ensures AllKnown(fns) ==> AllKnown(fns[..n])
    decreases |fns|
  {
    hide CallsKnown, FnOps;
    if n < |fns| {
      KnownPrefix(fns[..|fns| - 1], n);
      assert fns[..|fns| - 1][..n] == fns[..n];
    } else {
      assert fns[..n] == fns;
    }
  }
}
