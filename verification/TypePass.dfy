// lib/middle_end/ir/type.c: the pass that writes types into symbols.
module TypePass {
  import opened Options
  import opened Ir
  import opened Interpreter

  const MAX_IR_STMTS: nat := 10000

  // The generator's symbols, as ir_sym_init() makes them.
  function RawOperand(o: Operand): TOperand {
    match o
    case Imm(n) => TImm(n)
    case Sym(i) => TSym(i, Unknown)
  }

  function RawBody(b: Body): TBody {
    match b
    case Direct(o) => TDirect(RawOperand(o))
    case Bin(op, l, r) => TBin(op, RawOperand(l), RawOperand(r))
  }

  function RawInstr(i: Instr): TInstr {
    match i
    case Alloca(x) => TAlloca(x)
    case Store(x, b) => TStore(x, Unknown, RawBody(b))
    case Jump(t) => TJump(t)
    case Cond(b, t) => TCond(RawBody(b), t)
    case Ret(None) => TRet(None)
    case Ret(Some(o)) => TRet(Some(RawOperand(o)))
  }

  function Raw(prog: Program): (r: TProgram)
    ensures |r| == |prog| && forall i :: 0 <= i < |prog| ==> r[i] == RawInstr(prog[i])
  {
    seq(|prog|, i requires 0 <= i < |prog| => RawInstr(prog[i]))
  }

  // Variable v is a parameter or allocated in the list before position p.
  ghost predicate Declared(prog: Program, params: nat, p: nat, v: nat)
    requires p <= |prog|
  {
    v < params || exists q :: 0 <= q < p && prog[q] == Alloca(v)
  }

  // ---- The types in force, as a function from variables ----

  type TypeMap = nat -> Type

  function TypeOperand(m: TypeMap, o: TOperand): TOperand {
    if o.TSym? then TSym(o.idx, m(o.idx)) else o
  }

  function TypeBody(m: TypeMap, b: TBody): TBody {
    match b
    case TDirect(o) => TDirect(TypeOperand(m, o))
    case TBin(op, l, r) => TBin(op, TypeOperand(m, l), TypeOperand(m, r))
  }

  function TypeInstr(m: TypeMap, i: TInstr): TInstr {
    match i
    case TStore(x, _, b) => TStore(x, m(x), TypeBody(m, b))
    case TCond(b, t) => TCond(TypeBody(m, b), t)
    case TRet(Some(o)) => TRet(Some(TypeOperand(m, o)))
    case _ => i
  }

  function MapAt(prog: TProgram, params: nat, p: nat): TypeMap
    requires p <= |prog|
  {
    if p == 0 then ParamMap(params)
    else NextMap(MapAt(prog, params, p - 1), prog[p - 1])
  }

  function ParamMap(params: nat): TypeMap {
    (v: nat) => if v < params then IntType else Unknown
  }

  function NextMap(m: TypeMap, i: TInstr): TypeMap {
    if i.TAlloca? then (v: nat) => if v == i.idx then IntType else m(v) else m
  }

  function Typed(prog: TProgram, params: nat): (r: TProgram)
    ensures |r| == |prog| && forall p :: 0 <= p < |prog| ==> r[p] == TypeInstr(MapAt(prog, params, p), prog[p])
  {
    seq(|prog|, p requires 0 <= p < |prog| => TypeInstr(MapAt(prog, params, p), prog[p]))
  }

  // ---- The pass ----

  predicate SmallOperand(o: TOperand) { o.TSym? ==> o.idx < MAX_IR_STMTS }

  predicate SmallBody(b: TBody) {
    match b
    case TDirect(o) => SmallOperand(o)
    case TBin(_, l, r) => SmallOperand(l) && SmallOperand(r)
  }

  predicate SmallInstr(i: TInstr) {
    match i
    case TAlloca(x) => x < MAX_IR_STMTS
    case TStore(x, _, b) => x < MAX_IR_STMTS && SmallBody(b)
    case TCond(b, _) => SmallBody(b)
    case TRet(Some(o)) => SmallOperand(o)
    case _ => true
  }

  // The static array holds the map m.
  ghost predicate Holds(typeMap: array<Type>, m: TypeMap)
    reads typeMap
  {
    typeMap.Length == MAX_IR_STMTS && forall v: nat :: v < MAX_IR_STMTS ==> typeMap[v] == m(v)
  }

  method TypePassOperand(typeMap: array<Type>, o: TOperand, ghost m: TypeMap) returns (r: TOperand)
    requires Holds(typeMap, m) && SmallOperand(o)
    ensures r == TypeOperand(m, o)
  {
    r := if o.TSym? then TSym(o.idx, typeMap[o.idx]) else o;
  }

  method TypePassBody(typeMap: array<Type>, b: TBody, ghost m: TypeMap) returns (r: TBody)
    requires Holds(typeMap, m) && SmallBody(b)
    ensures r == TypeBody(m, b)
  {
    match b {
      case TDirect(o) =>
        var t := TypePassOperand(typeMap, o, m);
        r := TDirect(t);
      case TBin(op, l, rhs) =>
        var tl := TypePassOperand(typeMap, l, m);
        var tr := TypePassOperand(typeMap, rhs, m);
        r := TBin(op, tl, tr);
    }
  }

  // type_pass() of one instruction
  method TypePassInstr(typeMap: array<Type>, i: TInstr, ghost m: TypeMap) returns (r: TInstr)
    requires Holds(typeMap, m) && SmallInstr(i)
    modifies typeMap
    ensures Holds(typeMap, NextMap(m, i)) && r == TypeInstr(m, i)
  {
    r := i;
    match i {
      case TAlloca(x) =>
        typeMap[x] := IntType;
      case TStore(x, _, b) =>
        var t := TypePassBody(typeMap, b, m);
        r := TStore(x, typeMap[x], t);
      case TCond(b, target) =>
        var t := TypePassBody(typeMap, b, m);
        r := TCond(t, target);
      case TRet(Some(o)) =>
        var t := TypePassOperand(typeMap, o, m);
        r := TRet(Some(t));
      case _ =>
    }
  }

  // init_fn_state() and the pass over the arguments
  method NewTypeMap(params: nat) returns (typeMap: array<Type>)
    requires params <= MAX_IR_STMTS
    ensures fresh(typeMap) && Holds(typeMap, ParamMap(params))
  {
    typeMap := new Type[MAX_IR_STMTS](_ => Unknown);
    for v := 0 to params
      invariant forall w :: 0 <= w < MAX_IR_STMTS ==> typeMap[w] == if w < v then IntType else Unknown
    {
      typeMap[v] := IntType;
    }
  }

  // type_pass_fn(): symbols are typed in place, in the order of the list.
  method TypePassFn(code: array<TInstr>, params: nat)
    requires params <= MAX_IR_STMTS && forall p :: 0 <= p < code.Length ==> SmallInstr(code[p])
    modifies code
    ensures code[..] == Typed(old(code[..]), params)
  {
    hide SmallInstr, TypeInstr, NextMap, ParamMap, Holds, MapAt;
    ghost var prog := code[..];
    var typeMap := NewTypeMap(params);
    MapStart(prog, params);
    var p := 0;
    while p < code.Length
      invariant 0 <= p <= code.Length && fresh(typeMap)
      invariant Holds(typeMap, MapAt(prog, params, p))
      invariant forall q :: 0 <= q < p ==> code[q] == TypeInstr(MapAt(prog, params, q), prog[q])
      invariant forall q :: p <= q < code.Length ==> code[q] == prog[q]
    {
      assert SmallInstr(prog[p]);
      var t := TypePassInstr(typeMap, code[p], MapAt(prog, params, p));
      code[p] := t;
      MapStep(prog, params, p);
      p := p + 1;
    }
  }

  lemma MapStart(prog: TProgram, params: nat)
    ensures MapAt(prog, params, 0) == ParamMap(params)
  {
  }

  lemma MapStep(prog: TProgram, params: nat, p: nat)
    requires p < |prog|
    ensures MapAt(prog, params, p + 1) == NextMap(MapAt(prog, params, p), prog[p])
  {
  }

  // ---- What it achieves ----

  lemma {:induction false} MapMeaning(prog: TProgram, params: nat, p: nat, v: nat)
    requires p <= |prog|
    ensures MapAt(prog, params, p)(v) == IntType <==> Declared(Erase(prog), params, p, v)
    decreases p
  {
    if p > 0 {
      MapMeaning(prog, params, p - 1, v);
      if Declared(Erase(prog), params, p, v) && !Declared(Erase(prog), params, p - 1, v) {
        assert Erase(prog)[p - 1] == Alloca(v);
      }
      if prog[p - 1].TAlloca? && prog[p - 1].idx == v {
        assert Erase(prog)[p - 1] == Alloca(v);
      }
    }
  }

  predicate UsesOperand(o: Operand, v: nat) { o == Sym(v) }

  predicate UsesBody(b: Body, v: nat) {
    match b
    case Direct(o) => UsesOperand(o, v)
    case Bin(_, l, r) => UsesOperand(l, v) || UsesOperand(r, v)
  }

  predicate Uses(i: Instr, v: nat) {
    match i
    case Store(x, b) => x == v || UsesBody(b, v)
    case Cond(b, _) => UsesBody(b, v)
    case Ret(Some(o)) => UsesOperand(o, v)
    case _ => false
  }

  ghost predicate DeclaredAt(prog: Program, params: nat, p: nat)
    requires p < |prog|
  {
    forall v: nat :: Uses(prog[p], v) ==> Declared(prog, params, p, v)
  }

  // In the order of the list, every variable is declared before it is used.
  ghost predicate DeclaredBeforeUse(prog: Program, params: nat) {
    forall p: nat :: p < |prog| ==> DeclaredAt(prog, params, p)
  }

  lemma TypedAt(prog: TProgram, params: nat, p: nat)
    requires p < |prog|
    ensures TypedInstr(Typed(prog, params)[p]) <==> DeclaredAt(Erase(prog), params, p)
    ensures EraseInstr(Typed(prog, params)[p]) == Erase(prog)[p]
  {
    hide MapAt, Declared;
    forall v: nat ensures MapAt(prog, params, p)(v) == IntType <==> Declared(Erase(prog), params, p, v) {
      MapMeaning(prog, params, p, v);
    }
    UsesOfInstr(MapAt(prog, params, p), prog[p]);
    if TypedInstr(Typed(prog, params)[p]) {
      forall v: nat | Uses(Erase(prog)[p], v) ensures Declared(Erase(prog), params, p, v) {}
    }
  }

  lemma UsesOfInstr(m: TypeMap, i: TInstr)
    ensures TypedInstr(TypeInstr(m, i)) <==> forall v: nat :: Uses(EraseInstr(i), v) ==> m(v) == IntType
    ensures EraseInstr(TypeInstr(m, i)) == EraseInstr(i)
  {
    match i
    case TStore(x, _, TDirect(o)) =>
      assert Uses(EraseInstr(i), x);
      assert o.TSym? ==> Uses(EraseInstr(i), o.idx);
    case TStore(x, _, TBin(_, l, r)) =>
      assert Uses(EraseInstr(i), x);
      assert l.TSym? ==> Uses(EraseInstr(i), l.idx);
      assert r.TSym? ==> Uses(EraseInstr(i), r.idx);
    case TCond(TDirect(o), _) => assert o.TSym? ==> Uses(EraseInstr(i), o.idx);
    case TCond(TBin(_, l, r), _) =>
      assert l.TSym? ==> Uses(EraseInstr(i), l.idx);
      assert r.TSym? ==> Uses(EraseInstr(i), r.idx);
    case TRet(Some(o)) => assert o.TSym? ==> Uses(EraseInstr(i), o.idx);
    case _ =>
  }

  // The pass types every symbol exactly when declarations come first in the
  // list; it changes nothing but types.
  lemma TypedExactly(prog: TProgram, params: nat)
    ensures WellTyped(Typed(prog, params)) <==> DeclaredBeforeUse(Erase(prog), params)
    ensures Erase(Typed(prog, params)) == Erase(prog)
  {
    hide Typed, TypedInstr, DeclaredAt, EraseInstr;
    forall p: nat | p < |prog|
      ensures TypedInstr(Typed(prog, params)[p]) <==> DeclaredAt(Erase(prog), params, p)
      ensures EraseInstr(Typed(prog, params)[p]) == Erase(prog)[p]
    {
      TypedAt(prog, params, p);
    }
    assert forall p :: 0 <= p < |prog| ==> Erase(Typed(prog, params))[p] == Erase(prog)[p];
  }

  lemma EraseRaw(prog: Program)
    ensures Erase(Raw(prog)) == prog
  {
    assert forall i :: 0 <= i < |prog| ==> EraseInstr(RawInstr(prog[i])) == prog[i];
  }
}
