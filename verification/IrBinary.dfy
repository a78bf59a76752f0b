// lib/middle_end/ir/ir_bin.c: the byte format of a function and its reader.
module IrBinary {
  import opened Options

  type byte = x: int | 0 <= x < 256

  type Bytes = seq<byte>

  // sizeof of the structures that are written as they lie in memory (LP64).
  const ALLOCA_BYTES: nat := 16
  const ALLOCA_ARRAY_BYTES: nat := 152
  const IMM_BYTES: nat := 168
  const SYM_BYTES: nat := 184
  const META_BYTES: nat := 32

  datatype BinNode = BinNode(instrIdx: nat, blockNo: nat, meta: Bytes, claimedReg: Bytes, payload: Payload)

  datatype Payload =
    | AllocaImage(image: Bytes)
    | AllocaArrayImage(image: Bytes)
    | ImmImage(image: Bytes)
    | SymImage(image: Bytes)
    | Text(text: Bytes)
    | StoreOf(idx: BinNode, body: BinNode)
    | BinOf(op: Bytes, lhs: BinNode, rhs: BinNode)
    | JumpTo(target: nat)
    | CondOn(cond: BinNode, dest: nat)
    | RetVoid
    | RetOf(value: BinNode)
    | CallOf(name: Bytes, args: seq<BinNode>)

  datatype FnDecl = FnDecl(name: Bytes, retType: Bytes, ptrDepth: nat, args: seq<Bytes>, body: seq<BinNode>)

  function Pow256(k: nat): (p: nat)
    ensures p >= 1
  {
    if k == 0 then 1 else 256 * Pow256(k - 1)
  }

  const U64_LIMIT: nat := 0x1_0000_0000_0000_0000

  // Numbers are written little-endian.
  function Le(n: nat, k: nat): (b: Bytes)
    ensures |b| == k
    decreases k
  {
    if k == 0 then [] else [n % 256] + Le(n / 256, k - 1)
  }

  function FromLe(b: Bytes): nat {
    if b == [] then 0 else b[0] + 256 * FromLe(b[1..])
  }

  lemma {:induction false} LeRoundTrip(n: nat, k: nat)
    requires n < Pow256(k)
    ensures FromLe(Le(n, k)) == n
    decreases k
  {
    if k > 0 { LeRoundTrip(n / 256, k - 1); }
  }

  lemma U64RoundTrip(n: nat)
    requires n < U64_LIMIT
    ensures FromLe(Le(n, 8)) == n
  {
    assert Pow256(4) == 0x1_0000_0000;
    assert Pow256(8) == U64_LIMIT;
    LeRoundTrip(n, 8);
  }

  function Tag(p: Payload): (t: nat)
    ensures t < 17
  {
    match p
    case AllocaImage(_) => 0
    case AllocaArrayImage(_) => 1
    case ImmImage(_) => 2
    case SymImage(_) => 3
    case StoreOf(_, _) => 4
    case BinOf(_, _, _) => 5
    case JumpTo(_) => 8
    case CondOn(_, _) => 9
    case RetVoid => 10
    case RetOf(_) => 10
    case Text(_) => 12
    case CallOf(_, _) => 15
  }

  // ---- Writer ----

  function WriteNode(n: BinNode): Bytes
    decreases n, 1
  {
    Le(Tag(n.payload), 4) + Le(n.instrIdx, 8) + Le(n.blockNo, 8) + n.meta + n.claimedReg + WritePayload(n.payload)
  }

  function WritePayload(p: Payload): Bytes
    decreases p, 0
  {
    match p
    case AllocaImage(i) => i
    case AllocaArrayImage(i) => i
    case ImmImage(i) => i
    case SymImage(i) => i
    case Text(t) => Le(|t|, 8) + t
    case StoreOf(x, b) => WriteNode(x) + WriteNode(b)
    case BinOf(op, l, r) => op + WriteNode(l) + WriteNode(r)
    case JumpTo(t) => Le(t, 8)
    case CondOn(c, t) => WriteNode(c) + Le(t, 8)
    case RetVoid => [1]
    case RetOf(v) => [0] + WriteNode(v)
    case CallOf(name, args) => Le(|name|, 8) + name + Le(|args|, 8) + WriteNodes(args)
  }

  function WriteNodes(ns: seq<BinNode>): Bytes
    decreases ns, 0
  {
    if ns == [] then [] else WriteNode(ns[0]) + WriteNodes(ns[1..])
  }

  function WriteImages(args: seq<Bytes>): Bytes {
    if args == [] then [] else args[0] + WriteImages(args[1..])
  }

  function WriteFn(f: FnDecl): Bytes {
    Le(|f.name|, 8) + f.name + f.retType + Le(f.ptrDepth, 8)
    + Le(|f.args|, 8) + WriteImages(f.args)
    + Le(|f.body|, 8) + WriteNodes(f.body)
  }

  // ---- Reader ----

  // fread of n bytes: it fails at the end of the file, and also when n is 0,
  // because then it does not return 1.
  function Take(b: Bytes, n: nat): (r: Option<(Bytes, Bytes)>)
    ensures r.Some? ==> 0 < n <= |b| && r.value == (b[..n], b[n..])
  {
    if n == 0 || |b| < n then None else Some((b[..n], b[n..]))
  }

  function TakeU64(b: Bytes): (r: Option<(nat, Bytes)>)
    ensures r.Some? ==> |r.value.1| == |b| - 8
  {
    var t := Take(b, 8);
    if t.None? then None else Some((FromLe(t.value.0), t.value.1))
  }

  function TakeNumbered(b: Bytes): (r: Option<(Bytes, Bytes)>)
    ensures r.Some? ==> |r.value.1| < |b|
  {
    var n := TakeU64(b);
    if n.None? then None else Take(n.value.1, n.value.0)
  }

  datatype Header = Header(tag: nat, instrIdx: nat, blockNo: nat, meta: Bytes, claimedReg: Bytes)

  function ReadHeader(b: Bytes): (r: Option<(Header, Bytes)>)
    ensures r.Some? ==> |r.value.1| < |b|
  {
    var tag := Take(b, 4);
    if tag.None? then None else
    var i := TakeU64(tag.value.1);
    if i.None? then None else
    var no := TakeU64(i.value.1);
    if no.None? then None else
    var m := Take(no.value.1, META_BYTES);
    if m.None? then None else
    var reg := Take(m.value.1, 4);
    if reg.None? then None else
    Some((Header(FromLe(tag.value.0), i.value.0, no.value.0, m.value.0, reg.value.0), reg.value.1))
  }

  // None stands for the fatal error of a failed fread, and for the node kinds
  // without a payload of their own in the file.
  function ReadNode(b: Bytes): (r: Option<(BinNode, Bytes)>)
    ensures r.Some? ==> |r.value.1| < |b|
    decreases |b|, 0
  {
    var h := ReadHeader(b);
    if h.None? then None else
    var p := ReadPayload(h.value.0.tag, h.value.1);
    if p.None? then None else
    Some((BinNode(h.value.0.instrIdx, h.value.0.blockNo, h.value.0.meta, h.value.0.claimedReg, p.value.0), p.value.1))
  }

  function ReadImage(b: Bytes, size: nat, make: Bytes -> Payload): (r: Option<(Payload, Bytes)>)
    ensures r.Some? ==> |r.value.1| <= |b|
  {
    var t := Take(b, size);
    if t.None? then None else Some((make(t.value.0), t.value.1))
  }

  function ReadPayload(tag: nat, b: Bytes): (r: Option<(Payload, Bytes)>)
    ensures r.Some? ==> |r.value.1| <= |b|
    decreases |b|, 2
  {
    if tag == 0 then ReadImage(b, ALLOCA_BYTES, i => AllocaImage(i))
    else if tag == 1 then ReadImage(b, ALLOCA_ARRAY_BYTES, i => AllocaArrayImage(i))
    else if tag == 2 then ReadImage(b, IMM_BYTES, i => ImmImage(i))
    else if tag == 3 then ReadImage(b, SYM_BYTES, i => SymImage(i))
    else if tag == 4 then
      var x := ReadNode(b);
      if x.None? then None else
      var y := ReadNode(x.value.1);
      if y.None? then None else Some((StoreOf(x.value.0, y.value.0), y.value.1))
    else if tag == 5 then
      var op := Take(b, 4);
      if op.None? then None else
      var x := ReadNode(op.value.1);
      if x.None? then None else
      var y := ReadNode(x.value.1);
      if y.None? then None else Some((BinOf(op.value.0, x.value.0, y.value.0), y.value.1))
    else if tag == 8 then
      var t := TakeU64(b);
      if t.None? then None else Some((JumpTo(t.value.0), t.value.1))
    else if tag == 9 then
      var c := ReadNode(b);
      if c.None? then None else
      var t := TakeU64(c.value.1);
      if t.None? then None else Some((CondOn(c.value.0, t.value.0), t.value.1))
    else if tag == 10 then
      var v := Take(b, 1);
      if v.None? then None
      else if v.value.0[0] != 0 then Some((RetVoid, v.value.1))
      else
        var x := ReadNode(v.value.1);
        if x.None? then None else Some((RetOf(x.value.0), x.value.1))
    else if tag == 12 then
      var t := TakeNumbered(b);
      if t.None? then None else Some((Text(t.value.0), t.value.1))
    else if tag == 15 then
      var name := TakeNumbered(b);
      if name.None? then None else
      var n := TakeU64(name.value.1);
      if n.None? then None else
      var args := ReadNodes(n.value.1, n.value.0);
      if args.None? then None else Some((CallOf(name.value.0, args.value.0), args.value.1))
    else None
  }

  function ReadNodes(b: Bytes, count: nat): (r: Option<(seq<BinNode>, Bytes)>)
    ensures r.Some? ==> |r.value.1| <= |b|
    decreases |b|, 1, count
  {
    if count == 0 then Some(([], b))
    else
      var x := ReadNode(b);
      if x.None? then None else
      var xs := ReadNodes(x.value.1, count - 1);
      if xs.None? then None else Some(([x.value.0] + xs.value.0, xs.value.1))
  }

  function ReadImages(b: Bytes, count: nat): (r: Option<(seq<Bytes>, Bytes)>)
    ensures r.Some? ==> |r.value.1| <= |b|
    decreases count
  {
    if count == 0 then Some(([], b))
    else
      var x := Take(b, ALLOCA_BYTES);
      if x.None? then None else
      var xs := ReadImages(x.value.1, count - 1);
      if xs.None? then None else Some(([x.value.0] + xs.value.0, xs.value.1))
  }

  // read_fn_decl() up to the rebuilding of the control flow graph; an empty
  // body has no first statement to start from.
  function ReadFn(b: Bytes): Option<(FnDecl, Bytes)> {
    var name := TakeNumbered(b);
    if name.None? then None else
    var ret := Take(name.value.1, 4);
    if ret.None? then None else
    var depth := TakeU64(ret.value.1);
    if depth.None? then None else
    var n := TakeU64(depth.value.1);
    if n.None? then None else
    var args := ReadImages(n.value.1, n.value.0);
    if args.None? then None else
    var m := TakeU64(args.value.1);
    if m.None? then None else
    var body := ReadNodes(m.value.1, m.value.0);
    if body.None? || m.value.0 == 0 then None else
    Some((FnDecl(name.value.0, ret.value.0, depth.value.0, args.value.0, body.value.0), body.value.1))
  }

  // ---- What can be written ----

  // Every field has the width of its C type.
  predicate Typed(n: BinNode)
    decreases n, 1
  {
    && n.instrIdx < U64_LIMIT && n.blockNo < U64_LIMIT && |n.meta| == META_BYTES && |n.claimedReg| == 4
    && TypedPayload(n.payload)
  }

  predicate TypedPayload(p: Payload)
    decreases p, 0
  {
    match p
    case AllocaImage(i) => |i| == ALLOCA_BYTES
    case AllocaArrayImage(i) => |i| == ALLOCA_ARRAY_BYTES
    case ImmImage(i) => |i| == IMM_BYTES
    case SymImage(i) => |i| == SYM_BYTES
    case Text(t) => |t| < U64_LIMIT
    case StoreOf(x, b) => Typed(x) && Typed(b)
    case BinOf(op, l, r) => |op| == 4 && Typed(l) && Typed(r)
    case JumpTo(t) => t < U64_LIMIT
    case CondOn(c, t) => Typed(c) && t < U64_LIMIT
    case RetVoid => true
    case RetOf(v) => Typed(v)
    case CallOf(name, args) => |name| < U64_LIMIT && |args| < U64_LIMIT && TypedAll(args)
  }

  predicate TypedAll(ns: seq<BinNode>)
    decreases ns, 0
  {
    ns == [] || (Typed(ns[0]) && TypedAll(ns[1..]))
  }

  // No string literal and no called name in it is empty.
  predicate NamesFilled(n: BinNode)
    decreases n, 1
  {
    PayloadFilled(n.payload)
  }

  predicate PayloadFilled(p: Payload)
    decreases p, 0
  {
    match p
    case Text(t) => t != []
    case StoreOf(x, b) => NamesFilled(x) && NamesFilled(b)
    case BinOf(_, l, r) => NamesFilled(l) && NamesFilled(r)
    case CondOn(c, _) => NamesFilled(c)
    case RetOf(v) => NamesFilled(v)
    case CallOf(name, args) => name != [] && AllFilled(args)
    case _ => true
  }

  predicate AllFilled(ns: seq<BinNode>)
    decreases ns, 0
  {
    ns == [] || (NamesFilled(ns[0]) && AllFilled(ns[1..]))
  }

  predicate TypedFn(f: FnDecl) {
    && |f.name| < U64_LIMIT && |f.retType| == 4 && f.ptrDepth < U64_LIMIT
    && |f.args| < U64_LIMIT && (forall i :: 0 <= i < |f.args| ==> |f.args[i]| == ALLOCA_BYTES)
    && |f.body| < U64_LIMIT && TypedAll(f.body)
  }

  // ---- Round trips ----

  lemma TakeAppended(x: Bytes, rest: Bytes)
    ensures x != [] ==> Take(x + rest, |x|) == Some((x, rest))
    ensures x == [] ==> Take(x + rest, |x|) == None
  {
    if x != [] {
      assert (x + rest)[..|x|] == x && (x + rest)[|x|..] == rest;
    }
  }

  lemma TakeU64Appended(n: nat, rest: Bytes)
    requires n < U64_LIMIT
    ensures TakeU64(Le(n, 8) + rest) == Some((n, rest))
  {
    TakeAppended(Le(n, 8), rest);
    U64RoundTrip(n);
  }

  lemma TakeNumberedAppended(x: Bytes, rest: Bytes)
    requires |x| < U64_LIMIT
    ensures TakeNumbered(Le(|x|, 8) + x + rest) == if x == [] then None else Some((x, rest))
  {
    hide Le, TakeU64;
    assert Le(|x|, 8) + x + rest == Le(|x|, 8) + (x + rest);
    TakeU64Appended(|x|, x + rest);
    TakeAppended(x, rest);
  }

  lemma HeaderRoundTrip(n: BinNode, rest: Bytes)
    requires Typed(n)
    ensures ReadHeader(Le(Tag(n.payload), 4) + Le(n.instrIdx, 8) + Le(n.blockNo, 8) + n.meta + n.claimedReg + rest)
            == Some((Header(Tag(n.payload), n.instrIdx, n.blockNo, n.meta, n.claimedReg), rest))
  {
    hide Le, FromLe;
    var r4 := n.claimedReg + rest;
    var r3 := n.meta + r4;
    var r2 := Le(n.blockNo, 8) + r3;
    var r1 := Le(n.instrIdx, 8) + r2;
    assert Le(Tag(n.payload), 4) + Le(n.instrIdx, 8) + Le(n.blockNo, 8) + n.meta + n.claimedReg + rest == Le(Tag(n.payload), 4) + r1;
    TakeAppended(Le(Tag(n.payload), 4), r1);
    TakeU64Appended(n.instrIdx, r2);
    TakeU64Appended(n.blockNo, r3);
    TakeAppended(n.meta, r4);
    TakeAppended(n.claimedReg, rest);
    TagRoundTrip(n.payload);
  }

  lemma TagRoundTrip(p: Payload)
    ensures FromLe(Le(Tag(p), 4)) == Tag(p)
  {
    assert Pow256(1) == 256;
    assert Pow256(4) == 0x1_0000_0000;
    LeRoundTrip(Tag(p), 4);
  }

  // Reading back a written node gives the node and leaves what follows it,
  // exactly when no string in it is empty; otherwise reading fails.
  lemma {:induction false} NodeRoundTrip(n: BinNode, rest: Bytes)
    requires Typed(n)
    ensures ReadNode(WriteNode(n) + rest) == if NamesFilled(n) then Some((n, rest)) else None
    decreases n, 1
  {
    var tail := WritePayload(n.payload) + rest;
    assert WriteNode(n) + rest
        == Le(Tag(n.payload), 4) + Le(n.instrIdx, 8) + Le(n.blockNo, 8) + n.meta + n.claimedReg + tail;
    HeaderRoundTrip(n, tail);
    PayloadRoundTrip(n.payload, rest);
  }

  lemma {:induction false} PayloadRoundTrip(p: Payload, rest: Bytes)
    requires TypedPayload(p)
    ensures ReadPayload(Tag(p), WritePayload(p) + rest) == if PayloadFilled(p) then Some((p, rest)) else None
    decreases p, 1
  {
    hide Le, FromLe, ReadNode, WriteNode, ReadNodes, WriteNodes, Take, TakeU64, TakeNumbered, TypedAll, AllFilled, Typed, NamesFilled;
    match p
    case AllocaImage(i) => TakeAppended(i, rest);
    case AllocaArrayImage(i) => TakeAppended(i, rest);
    case ImmImage(i) => TakeAppended(i, rest);
    case SymImage(i) => TakeAppended(i, rest);
    case Text(t) => TakeNumberedAppended(t, rest);
    case StoreOf(x, b) =>
      assert WritePayload(p) + rest == WriteNode(x) + (WriteNode(b) + rest);
      NodeRoundTrip(x, WriteNode(b) + rest);
      NodeRoundTrip(b, rest);
    case BinOf(_, _, _) => BinRoundTrip(p, rest);
    case JumpTo(t) => TakeU64Appended(t, rest);
    case CondOn(c, t) =>
      assert WritePayload(p) + rest == WriteNode(c) + (Le(t, 8) + rest);
      NodeRoundTrip(c, Le(t, 8) + rest);
      TakeU64Appended(t, rest);
    case RetVoid => TakeAppended([1], rest);
    case RetOf(v) =>
      assert WritePayload(p) + rest == [0] + (WriteNode(v) + rest);
      TakeAppended([0], WriteNode(v) + rest);
      NodeRoundTrip(v, rest);
    case CallOf(_, _) => CallRoundTrip(p, rest);
  }

  lemma {:induction false} BinRoundTrip(p: Payload, rest: Bytes)
    requires p.BinOf? && TypedPayload(p)
    ensures ReadPayload(Tag(p), WritePayload(p) + rest) == if PayloadFilled(p) then Some((p, rest)) else None
    decreases p, 0
  {
    hide Le, FromLe, ReadNode, WriteNode, ReadNodes, WriteNodes, Take, TakeU64, TakeNumbered, TypedAll, AllFilled, Typed, NamesFilled;
    var BinOf(op, l, r) := p;
    assert WritePayload(p) + rest == op + (WriteNode(l) + (WriteNode(r) + rest));
    TakeAppended(op, WriteNode(l) + (WriteNode(r) + rest));
    NodeRoundTrip(l, WriteNode(r) + rest);
    NodeRoundTrip(r, rest);
  }

  lemma {:induction false} CallRoundTrip(p: Payload, rest: Bytes)
    requires p.CallOf? && TypedPayload(p)
    ensures ReadPayload(Tag(p), WritePayload(p) + rest) == if PayloadFilled(p) then Some((p, rest)) else None
    decreases p, 0
  {
    hide Le, FromLe, ReadNode, WriteNode, ReadNodes, WriteNodes, Take, TakeU64, TakeNumbered, TypedAll, AllFilled, Typed, NamesFilled;
    var CallOf(name, args) := p;
    var tail := WriteNodes(args) + rest;
    assert WritePayload(p) + rest == Le(|name|, 8) + name + (Le(|args|, 8) + tail);
    TakeNumberedAppended(name, Le(|args|, 8) + tail);
    TakeU64Appended(|args|, tail);
    NodesRoundTrip(args, rest);
  }

  lemma {:induction false} NodesRoundTrip(ns: seq<BinNode>, rest: Bytes)
    requires TypedAll(ns)
    ensures ReadNodes(WriteNodes(ns) + rest, |ns|) == if AllFilled(ns) then Some((ns, rest)) else None
    decreases ns, 0
  {
    hide ReadNode, WriteNode;
    if ns == [] {
      assert WriteNodes(ns) + rest == rest;
    } else {
      var tail := WriteNodes(ns[1..]) + rest;
      assert WriteNodes(ns) + rest == WriteNode(ns[0]) + tail;
      NodeRoundTrip(ns[0], tail);
      NodesRoundTrip(ns[1..], rest);
      assert ns == [ns[0]] + ns[1..];
    }
  }

  lemma {:induction false} ImagesRoundTrip(args: seq<Bytes>, rest: Bytes)
    requires forall i :: 0 <= i < |args| ==> |args[i]| == ALLOCA_BYTES
    ensures ReadImages(WriteImages(args) + rest, |args|) == Some((args, rest))
    decreases |args|
  {
    if args == [] {
      assert WriteImages(args) + rest == rest;
    } else {
      var tail := WriteImages(args[1..]) + rest;
      assert WriteImages(args) + rest == args[0] + tail;
      TakeAppended(args[0], tail);
      ImagesRoundTrip(args[1..], rest);
      assert args == [args[0]] + args[1..];
    }
  }

  // A written function, with any bytes behind it, is read back exactly when its
  // name, its body and every string in it are non-empty.
  lemma FnRoundTrip(f: FnDecl, rest: Bytes)
    requires TypedFn(f)
    ensures ReadFn(WriteFn(f) + rest) ==
            if f.name != [] && f.body != [] && AllFilled(f.body) then Some((f, rest)) else None
  {
    hide Le, FromLe, ReadNodes, WriteNodes, ReadImages, WriteImages, TakeNumbered, TakeU64, AllFilled, TypedAll;
    var r5 := WriteNodes(f.body) + rest;
    var r4 := Le(|f.body|, 8) + r5;
    var r3 := WriteImages(f.args) + r4;
    var r2 := Le(|f.args|, 8) + r3;
    var r1 := Le(f.ptrDepth, 8) + r2;
    var r0 := f.retType + r1;
    assert WriteFn(f) + rest == Le(|f.name|, 8) + f.name + r0;
    TakeNumberedAppended(f.name, r0);
    TakeAppended(f.retType, r1);
    TakeU64Appended(f.ptrDepth, r2);
    TakeU64Appended(|f.args|, r3);
    ImagesRoundTrip(f.args, r4);
    TakeU64Appended(|f.body|, r5);
    NodesRoundTrip(f.body, rest);
  }

  // What a loop has read so far, put in front of what it still has to read.
  ghost function Prepend<T>(done: seq<T>, more: Option<(seq<T>, Bytes)>): Option<(seq<T>, Bytes)> {
    if more.None? then None else Some((done + more.value.0, more.value.1))
  }

  lemma PrependStep<T>(done: seq<T>, x: T, more: Option<(seq<T>, Bytes)>)
    ensures Prepend(done, Prepend([x], more)) == Prepend(done + [x], more)
  {
    if more.Some? {
      assert done + ([x] + more.value.0) == done + [x] + more.value.0;
    }
  }

  lemma PrependNothing<T>(more: Option<(seq<T>, Bytes)>)
    ensures Prepend([], more) == more
  {
    if more.Some? { assert [] + more.value.0 == more.value.0; }
  }

  // The file that is written or read: writing appends, reading moves pos.
  class Stream {
    var data: Bytes
    var pos: nat

    ghost predicate Valid()
      reads this
    {
      pos <= |data|
    }

    ghost function Rest(): Bytes
      requires Valid()
      reads this
    {
      data[pos..]
    }

    // r and the new position are those of the specification want.
    ghost predicate Delivers<T>(r: Option<T>, want: Option<(T, Bytes)>)
      reads this
    {
      && Valid()
      && r.None? == want.None?
      && (r.Some? ==> r.value == want.value.0 && Rest() == want.value.1)
    }

    constructor ()
      ensures Valid() && data == [] && pos == 0
    {
      data, pos := [], 0;
    }

    method Fwrite(b: Bytes)
      modifies `data
      ensures data == old(data) + b
    {
      data := data + b;
    }

    method WriteNodeMeta(n: BinNode)
      modifies `data
      ensures data == old(data) + (Le(Tag(n.payload), 4) + Le(n.instrIdx, 8) + Le(n.blockNo, 8) + n.meta + n.claimedReg)
    {
      hide Le;
      Fwrite(Le(Tag(n.payload), 4));
      Fwrite(Le(n.instrIdx, 8));
      Fwrite(Le(n.blockNo, 8));
      Fwrite(n.meta);
      Fwrite(n.claimedReg);
    }

    method PutNode(n: BinNode)
      modifies `data
      ensures data == old(data) + WriteNode(n)
      decreases n, 1
    {
      hide Le;
      WriteNodeMeta(n);
      PutPayload(n.payload);
    }

    method PutPayload(p: Payload)
      modifies `data
      ensures data == old(data) + WritePayload(p)
      decreases p, 1
    {
      hide Le, WriteNode, WriteNodes;
      match p {
        case AllocaImage(i) => Fwrite(i);
        case AllocaArrayImage(i) => Fwrite(i);
        case ImmImage(i) => Fwrite(i);
        case SymImage(i) => Fwrite(i);
        case Text(t) => Fwrite(Le(|t|, 8)); Fwrite(t);
        case StoreOf(x, b) => PutNode(x); PutNode(b);
        case BinOf(_, _, _) => PutBin(p);
        case JumpTo(t) => Fwrite(Le(t, 8));
        case CondOn(c, t) => PutNode(c); Fwrite(Le(t, 8));
        case RetVoid => Fwrite([1]);
        case RetOf(v) => Fwrite([0]); PutNode(v);
        case CallOf(_, _) => PutCall(p);
      }
    }

    method PutBin(p: Payload)
      requires p.BinOf?
      modifies `data
      ensures data == old(data) + WritePayload(p)
      decreases p, 0
    {
      hide WriteNode;
      Fwrite(p.op);
      PutNode(p.lhs);
      PutNode(p.rhs);
    }

    method PutCall(p: Payload)
      requires p.CallOf?
      modifies `data
      ensures data == old(data) + WritePayload(p)
      decreases p, 0
    {
      hide Le, WriteNodes;
      Fwrite(Le(|p.name|, 8));
      Fwrite(p.name);
      Fwrite(Le(|p.args|, 8));
      PutNodes(p.args);
    }

    method PutNodes(ns: seq<BinNode>)
      modifies `data
      ensures data == old(data) + WriteNodes(ns)
      decreases ns, 0
    {
      hide WriteNode;
      var i := 0;
      while i < |ns|
        invariant 0 <= i <= |ns|
        invariant data + WriteNodes(ns[i..]) == old(data) + WriteNodes(ns)
      {
        assert ns[i..][1..] == ns[i + 1..];
        PutNode(ns[i]);
        i := i + 1;
      }
    }

    method PutArgs(args: seq<Bytes>)
      modifies `data
      ensures data == old(data) + WriteImages(args)
    {
      var i := 0;
      while i < |args|
        invariant 0 <= i <= |args|
        invariant data + WriteImages(args[i..]) == old(data) + WriteImages(args)
      {
        assert args[i..][1..] == args[i + 1..];
        Fwrite(args[i]);
        i := i + 1;
      }
    }

    // write_fn_decl()
    method PutFn(f: FnDecl)
      modifies `data
      ensures data == old(data) + WriteFn(f)
    {
      hide Le, WriteNodes, WriteImages;
      Fwrite(Le(|f.name|, 8));
      Fwrite(f.name);
      Fwrite(f.retType);
      Fwrite(Le(f.ptrDepth, 8));
      Fwrite(Le(|f.args|, 8));
      PutArgs(f.args);
      Fwrite(Le(|f.body|, 8));
      PutNodes(f.body);
    }

    method Fread(n: nat) returns (r: Option<Bytes>)
      requires Valid()
      modifies `pos
      ensures Delivers(r, Take(old(Rest()), n))
    {
      if n == 0 || |data| - pos < n {
        r := None;
      } else {
        r := Some(data[pos..pos + n]);
        assert data[pos..][..n] == data[pos..pos + n] && data[pos..][n..] == data[pos + n..];
        pos := pos + n;
      }
    }

    method FreadU64() returns (r: Option<nat>)
      requires Valid()
      modifies `pos
      ensures Delivers(r, TakeU64(old(Rest())))
    {
      hide FromLe;
      var t := Fread(8);
      r := if t.None? then None else Some(FromLe(t.value));
    }

    method FreadNumbered() returns (r: Option<Bytes>)
      requires Valid()
      modifies `pos
      ensures Delivers(r, TakeNumbered(old(Rest())))
    {
      hide TakeU64;
      var n := FreadU64();
      if n.None? { return None; }
      r := Fread(n.value);
    }

    method ReadNodeMeta() returns (r: Option<Header>)
      requires Valid()
      modifies `pos
      ensures Delivers(r, ReadHeader(old(Rest())))
    {
      hide FromLe, TakeU64, Take;
      var tag := Fread(4);
      if tag.None? { return None; }
      var i := FreadU64();
      if i.None? { return None; }
      var no := FreadU64();
      if no.None? { return None; }
      var m := Fread(META_BYTES);
      if m.None? { return None; }
      var reg := Fread(4);
      if reg.None? { return None; }
      r := Some(Header(FromLe(tag.value), i.value, no.value, m.value, reg.value));
    }

    method GetNode() returns (r: Option<BinNode>)
      requires Valid()
      modifies `pos
      ensures Delivers(r, ReadNode(old(Rest())))
      decreases |data| - pos, 0
    {
      hide ReadHeader, ReadPayload;
      var h := ReadNodeMeta();
      if h.None? { return None; }
      var p := GetPayload(h.value.tag);
      if p.None? { return None; }
      r := Some(BinNode(h.value.instrIdx, h.value.blockNo, h.value.meta, h.value.claimedReg, p.value));
    }

    method GetPayload(tag: nat) returns (r: Option<Payload>)
      requires Valid()
      modifies `pos
      ensures Delivers(r, ReadPayload(tag, old(Rest())))
      decreases |data| - pos, 2
    {
      hide Take, TakeU64, TakeNumbered, ReadNode, ReadNodes;
      if tag == 0 {
        var t := Fread(ALLOCA_BYTES);
        r := if t.None? then None else Some(AllocaImage(t.value));
      } else if tag == 1 {
        var t := Fread(ALLOCA_ARRAY_BYTES);
        r := if t.None? then None else Some(AllocaArrayImage(t.value));
      } else if tag == 2 {
        var t := Fread(IMM_BYTES);
        r := if t.None? then None else Some(ImmImage(t.value));
      } else if tag == 3 {
        var t := Fread(SYM_BYTES);
        r := if t.None? then None else Some(SymImage(t.value));
      } else if tag == 4 {
        var x := GetNode();
        if x.None? { return None; }
        var y := GetNode();
        if y.None? { return None; }
        r := Some(StoreOf(x.value, y.value));
      } else if tag == 5 {
        var op := Fread(4);
        if op.None? { return None; }
        var x := GetNode();
        if x.None? { return None; }
        var y := GetNode();
        if y.None? { return None; }
        r := Some(BinOf(op.value, x.value, y.value));
      } else if tag == 8 {
        var t := FreadU64();
        r := if t.None? then None else Some(JumpTo(t.value));
      } else if tag == 9 {
        var c := GetNode();
        if c.None? { return None; }
        var t := FreadU64();
        r := if t.None? then None else Some(CondOn(c.value, t.value));
      } else if tag == 10 {
        var v := Fread(1);
        if v.None? { return None; }
        if v.value[0] != 0 { return Some(RetVoid); }
        var x := GetNode();
        r := if x.None? then None else Some(RetOf(x.value));
      } else if tag == 12 {
        var t := FreadNumbered();
        r := if t.None? then None else Some(Text(t.value));
      } else if tag == 15 {
        var name := FreadNumbered();
        if name.None? { return None; }
        var n := FreadU64();
        if n.None? { return None; }
        var args := GetNodes(n.value);
        r := if args.None? then None else Some(CallOf(name.value, args.value));
      } else {
        r := None;
      }
    }

    method GetNodes(count: nat) returns (r: Option<seq<BinNode>>)
      requires Valid()
      modifies `pos
      ensures Delivers(r, ReadNodes(old(Rest()), count))
      decreases |data| - pos, 1
    {
      hide ReadNode;
      ghost var want := ReadNodes(Rest(), count);
      var nodes: seq<BinNode> := [];
      PrependNothing(want);
      var i := 0;
      while i < count
        invariant 0 <= i <= count && Valid() && old(pos) <= pos
        invariant want == Prepend(nodes, ReadNodes(Rest(), count - i))
      {
        var x := GetNode();
        if x.None? { return None; }
        PrependStep(nodes, x.value, ReadNodes(Rest(), count - i - 1));
        nodes := nodes + [x.value];
        i := i + 1;
      }
      assert nodes + [] == nodes;
      r := Some(nodes);
    }

    method GetArgs(count: nat) returns (r: Option<seq<Bytes>>)
      requires Valid()
      modifies `pos
      ensures Delivers(r, ReadImages(old(Rest()), count))
    {
      hide Take;
      ghost var want := ReadImages(Rest(), count);
      var images: seq<Bytes> := [];
      PrependNothing(want);
      var i := 0;
      while i < count
        invariant 0 <= i <= count && Valid()
        invariant want == Prepend(images, ReadImages(Rest(), count - i))
      {
        var x := Fread(ALLOCA_BYTES);
        if x.None? { return None; }
        PrependStep(images, x.value, ReadImages(Rest(), count - i - 1));
        images := images + [x.value];
        i := i + 1;
      }
      assert images + [] == images;
      r := Some(images);
    }

    // read_fn_decl()
    method GetFn() returns (r: Option<FnDecl>)
      requires Valid()
      modifies `pos
      ensures Delivers(r, ReadFn(old(Rest())))
    {
      hide Take, TakeU64, TakeNumbered, ReadNodes, ReadImages;
      var name := FreadNumbered();
      if name.None? { return None; }
      var ret := Fread(4);
      if ret.None? { return None; }
      var depth := FreadU64();
      if depth.None? { return None; }
      var n := FreadU64();
      if n.None? { return None; }
      var args := GetArgs(n.value);
      if args.None? { return None; }
      var m := FreadU64();
      if m.None? { return None; }
      var body := GetNodes(m.value);
      if body.None? || m.value == 0 { return None; }
      r := Some(FnDecl(name.value, ret.value, depth.value, args.value, body.value));
    }
  }

  // Writing a function, anything behind it, and reading from the start: the
  // function comes back and the position is right behind it, exactly when its
  // name, its body and every string in it are non-empty.
  method WriteThenRead(f: FnDecl, rest: Bytes) returns (file: Stream, r: Option<FnDecl>)
    requires TypedFn(f)
    ensures file.Valid() && file.data == WriteFn(f) + rest
    ensures r == if f.name != [] && f.body != [] && AllFilled(f.body) then Some(f) else None
    ensures r.Some? ==> file.pos == |WriteFn(f)|
  {
    hide WriteFn, ReadFn, AllFilled, TypedFn;
    file := new Stream();
    file.PutFn(f);
    file.Fwrite(rest);
    assert file.data == WriteFn(f) + rest && file.data[0..] == file.data;
    FnRoundTrip(f, rest);
    r := file.GetFn();
    assert r.Some? ==> |file.data[file.pos..]| == |rest|;
  }
}
