// The expression ladder of lib/front_end/parse/parse.c, from parse_logical_or()
// to parse_primary(), and the printer it undoes.
module Parser {
  import opened Int32
  import opened Options

  // The tokens that matter to expressions; Other is any token that cannot
  // continue one, such as a semicolon, a comma or an assignment.
  datatype Token =
    | Operator(op: BinOp)
    | Increment
    | Decrement
    | OpenParen
    | CloseParen
    | OpenBracket
    | Dot
    | Literal(n: int)
    | Name(name: string)
    | Other(kind: nat)

  datatype PrefixOp = AddressOf | Deref | PreInc | PreDec

  datatype Tree =
    | Number(n: int)
    | Variable(name: string)
    | Node(op: BinOp, lhs: Tree, rhs: Tree)
    | Prefix(pre: PrefixOp, operand: Tree)
    | Postfix(isInc: bool, operand: Tree)

  // The rungs of the ladder: ten binary levels, prefix, postfix, primary.
  const PREFIX: nat := 10
  const POSTFIX: nat := 11
  const PRIMARY: nat := 12

  function LevelOf(op: BinOp): (k: nat)
    ensures k < PREFIX
  {
    match op
    case Or => 0
    case And => 1
    case BitOr => 2
    case Xor => 3
    case BitAnd => 4
    case Eq => 5
    case Neq => 5
    case Gt => 6
    case Lt => 6
    case Ge => 6
    case Le => 6
    case Shl => 7
    case Shr => 7
    case Plus => 8
    case Minus => 8
    case Star => 9
    case Slash => 9
    case Mod => 9
  }

  predicate IsLevel(t: Token, k: nat) { t.Operator? && LevelOf(t.op) == k }

  function PrefixOf(t: Token): Option<PrefixOp> {
    match t
    case Operator(BitAnd) => Some(AddressOf)
    case Operator(Star) => Some(Deref)
    case Increment => Some(PreInc)
    case Decrement => Some(PreDec)
    case _ => None
  }

  function PrefixToken(p: PrefixOp): Token {
    match p
    case AddressOf => Operator(BitAnd)
    case Deref => Operator(Star)
    case PreInc => Increment
    case PreDec => Decrement
  }

  datatype Parse = Fail | Ok(tree: Tree, rest: seq<Token>)

  // What the function for rung k does on the tokens ahead.  Fail covers the
  // compile errors, the end of the tokens (there is no end marker to look at)
  // and calls, subscripts and member accesses.
  function ParseLevel(ts: seq<Token>, k: nat): (r: Parse)
    requires k <= PRIMARY
    ensures r.Ok? ==> 0 < |r.rest| < |ts|
    decreases |ts|, PRIMARY - k, 1
  {
    if ts == [] then Fail
    else if k < PREFIX then
      var e := ParseLevel(ts, k + 1);
      if e.Fail? then Fail else ParseLoop(e.tree, e.rest, k)
    else if k == PREFIX then
      var p := PrefixOf(ts[0]);
      if p.None? then ParseLevel(ts, POSTFIX)
      else
        var e := ParseLevel(ts[1..], PREFIX);
        if e.Fail? then Fail else Ok(Prefix(p.value, e.tree), e.rest)
    else if k == POSTFIX then
      var e := ParseLevel(ts, PRIMARY);
      if e.Fail? then Fail
      else if e.rest[0].Increment? || e.rest[0].Decrement? then
        if |e.rest| == 1 then Fail else Ok(Postfix(e.rest[0].Increment?, e.tree), e.rest[1..])
      else e
    else
      match ts[0]
      case Name(x) =>
        if |ts| == 1 || ts[1].OpenParen? || ts[1].OpenBracket? || ts[1].Dot? then Fail
        else Ok(Variable(x), ts[1..])
      case OpenParen =>
        var e := ParseLevel(ts[1..], 0);
        if e.Fail? || !e.rest[0].CloseParen? || |e.rest| == 1 || e.rest[1].Dot? then Fail
        else Ok(e.tree, e.rest[1..])
      case Literal(n) => if |ts| == 1 then Fail else Ok(Number(n), ts[1..])
      case _ => Fail
  }

  // The while (1) of a binary rung, with the left operand already read.
  function ParseLoop(e: Tree, ts: seq<Token>, k: nat): (r: Parse)
    requires k < PREFIX && 0 < |ts|
    ensures r.Ok? ==> 0 < |r.rest| <= |ts|
    decreases |ts|, 0, 0
  {
    if !IsLevel(ts[0], k) then Ok(e, ts)
    else
      var r := ParseLevel(ts[1..], k);
      if r.Fail? then Fail else ParseLoop(Node(ts[0].op, e, r.tree), r.rest, k)
  }

  // An operator of rung k or a tighter one.
  predicate Continues(t: Token, k: nat) { t.Operator? && k <= LevelOf(t.op) }

  // A rung never stops in front of an operator of its own or a tighter rung.
  lemma {:induction false} StopsAtLooserToken(ts: seq<Token>, k: nat)
    requires k <= PRIMARY && ParseLevel(ts, k).Ok?
    ensures !Continues(ParseLevel(ts, k).rest[0], k)
    decreases |ts|, PRIMARY - k
  {
    if k < PREFIX {
      var e := ParseLevel(ts, k + 1);
      StopsAtLooserToken(ts, k + 1);
      if IsLevel(e.rest[0], k) {
        StopsAtLooserToken(e.rest[1..], k);
        LoopRunsAtMostOnce(e.tree, e.rest, k);
      }
    }
  }

  // So the operator branch of its loop is taken at most once: chains of equal
  // precedence lean to the right.
  lemma {:induction false} LoopRunsAtMostOnce(e: Tree, ts: seq<Token>, k: nat)
    requires k < PREFIX && 0 < |ts| && IsLevel(ts[0], k) && ParseLevel(ts[1..], k).Ok?
    ensures ParseLoop(e, ts, k) == Ok(Node(ts[0].op, e, ParseLevel(ts[1..], k).tree), ParseLevel(ts[1..], k).rest)
    decreases |ts|, 0
  {
    StopsAtLooserToken(ts[1..], k);
  }

  // The parser itself: one cursor that moves forward and back.
  class TokenCursor {
    const toks: seq<Token>
    var pos: nat

    constructor (ts: seq<Token>)
      ensures toks == ts && pos == 0
    {
      toks := ts;
      pos := 0;
    }

    // The method of rung k reads what ParseLevel reads and leaves the cursor on
    // the first token behind it.
    method Parse(k: nat) returns (r: Option<Tree>)
      requires k <= PRIMARY && pos <= |toks|
      modifies this
      ensures pos <= |toks|
      ensures match ParseLevel(old(toks[pos..]), k)
              case Ok(t, rest) => r == Some(t) && toks[pos..] == rest
              case Fail => r == None
      decreases |toks| - pos, PRIMARY - k, 1
    {
      if pos == |toks| { return None; }
      if k < PREFIX {
        r := ParseBinary(k);
      } else if k == PREFIX {
        r := ParsePrefix();
      } else if k == POSTFIX {
        r := ParsePostfix();
      } else {
        r := ParsePrimary();
      }
    }

    // parse_logical_or() .. parse_multiplicative()
    method ParseBinary(k: nat) returns (r: Option<Tree>)
      requires k < PREFIX && pos < |toks|
      modifies this
      ensures pos <= |toks|
      ensures match ParseLevel(old(toks[pos..]), k)
              case Ok(t, rest) => r == Some(t) && toks[pos..] == rest
              case Fail => r == None
      decreases |toks| - pos, PRIMARY - k, 0
    {
      ghost var start := toks[pos..];
      r := Parse(k + 1);
      if r.None? { return; }
      while true
        invariant pos < |toks| && r.Some? && |toks[pos..]| < |start|
        invariant ParseLevel(start, k) == ParseLoop(r.value, toks[pos..], k)
        decreases |toks| - pos
      {
        var t := toks[pos];
        pos := pos + 1;
        assert toks[pos - 1..][1..] == toks[pos..];
        if IsLevel(t, k) {
          var rhs := Parse(k);
          if rhs.None? { return None; }
          r := Some(Node(t.op, r.value, rhs.value));
        } else {
          pos := pos - 1;
          return;
        }
      }
    }

    // parse_prefix_unary()
    method ParsePrefix() returns (r: Option<Tree>)
      requires pos < |toks|
      modifies this
      ensures pos <= |toks|
      ensures match ParseLevel(old(toks[pos..]), PREFIX)
              case Ok(t, rest) => r == Some(t) && toks[pos..] == rest
              case Fail => r == None
      decreases |toks| - pos, PRIMARY - PREFIX, 0
    {
      var p := PrefixOf(toks[pos]);
      assert toks[pos..][1..] == toks[pos + 1..];
      pos := pos + 1;
      if p.Some? {
        r := Parse(PREFIX);
        if r.Some? { r := Some(Prefix(p.value, r.value)); }
      } else {
        pos := pos - 1;
        r := Parse(POSTFIX);
      }
    }

    // parse_postfix_unary()
    method ParsePostfix() returns (r: Option<Tree>)
      requires pos < |toks|
      modifies this
      ensures pos <= |toks|
      ensures match ParseLevel(old(toks[pos..]), POSTFIX)
              case Ok(t, rest) => r == Some(t) && toks[pos..] == rest
              case Fail => r == None
      decreases |toks| - pos, PRIMARY - POSTFIX, 0
    {
      r := Parse(PRIMARY);
      if r.None? { return; }
      assert toks[pos..][1..] == toks[pos + 1..];
      var t := toks[pos];
      pos := pos + 1;
      if t.Increment? || t.Decrement? {
        if pos == |toks| { return None; }
        r := Some(Postfix(t.Increment?, r.value));
      } else {
        pos := pos - 1;
      }
    }

    // parse_primary(), parse_symbol() and parse_constant()
    method ParsePrimary() returns (r: Option<Tree>)
      requires pos < |toks|
      modifies this
      ensures pos <= |toks|
      ensures match ParseLevel(old(toks[pos..]), PRIMARY)
              case Ok(t, rest) => r == Some(t) && toks[pos..] == rest
              case Fail => r == None
      decreases |toks| - pos, 0, 0
    {
      var t := toks[pos];
      assert toks[pos..][1..] == toks[pos + 1..];
      pos := pos + 1;
      match t {
        case Name(x) =>
          if pos == |toks| || toks[pos].OpenParen? || toks[pos].OpenBracket? || toks[pos].Dot? { return None; }
          return Some(Variable(x));
        case OpenParen =>
          r := Parse(0);
          if r.None? || !toks[pos].CloseParen? { return None; }
          assert toks[pos..][1..] == toks[pos + 1..];
          pos := pos + 1;
          if pos == |toks| || toks[pos].Dot? { return None; }
        case Literal(n) =>
          if pos == |toks| { return None; }
          return Some(Number(n));
        case _ =>
          return None;
      }
    }
  }

  // ---- The printer ----

  function Rung(e: Tree): (k: nat)
    ensures k <= PRIMARY
  {
    match e
    case Number(_) => PRIMARY
    case Variable(_) => PRIMARY
    case Node(op, _, _) => LevelOf(op)
    case Prefix(_, _) => PREFIX
    case Postfix(_, _) => POSTFIX
  }

  // With parentheses only where the rung k of the context asks for them: the
  // left operand stands one rung tighter, the right operand on the same rung.
  function Print(e: Tree, k: nat): (ts: seq<Token>)
    requires k <= PRIMARY
    ensures 0 < |ts|
    decreases e, if Rung(e) < k then 1 else 0
  {
    if Rung(e) < k then [OpenParen] + Print(e, 0) + [CloseParen]
    else
      match e
      case Number(n) => [Literal(n)]
      case Variable(x) => [Name(x)]
      case Node(op, l, r) => Print(l, LevelOf(op) + 1) + [Operator(op)] + Print(r, LevelOf(op))
      case Prefix(p, o) => [PrefixToken(p)] + Print(o, PREFIX)
      case Postfix(isInc, o) => Print(o, PRIMARY) + [if isInc then Increment else Decrement]
  }

  // A token that ends an expression on rung k.
  predicate Ends(t: Token, k: nat) {
    && !Continues(t, k)
    && (k <= POSTFIX ==> !t.Increment? && !t.Decrement?)
    && !t.OpenParen? && !t.OpenBracket? && !t.Dot?
  }

  // A looser context prints an expression that fits a tighter one the same way,
  // and every rung in between hands it through.
  lemma {:induction false} HandThrough(ts: seq<Token>, j: nat, k: nat)
    requires k <= j <= PREFIX && ParseLevel(ts, j).Ok? && !Continues(ParseLevel(ts, j).rest[0], k)
    ensures ParseLevel(ts, k) == ParseLevel(ts, j)
    decreases j - k
  {
    if k < j {
      HandThrough(ts, j, k + 1);
    }
  }

  // Parsing what was printed gives the tree back and stops right behind it.
  lemma {:induction false} RoundTrip(e: Tree, k: nat, rest: seq<Token>)
    requires k <= PRIMARY && rest != [] && Ends(rest[0], k)
    ensures ParseLevel(Print(e, k) + rest, k) == Ok(e, rest)
    decreases e, if Rung(e) < k then 3 else 2
  {
    if Rung(e) < k {
      RoundTrip(e, 0, [CloseParen] + rest);
      ParenRung(e, k, rest);
    } else {
      RoundTripBare(e, k, rest);
    }
  }

  lemma ParenRung(e: Tree, k: nat, rest: seq<Token>)
    requires Rung(e) < k <= PRIMARY && rest != [] && Ends(rest[0], k)
    requires ParseLevel(Print(e, 0) + ([CloseParen] + rest), 0) == Ok(e, [CloseParen] + rest)
    ensures ParseLevel(Print(e, k) + rest, k) == Ok(e, rest)
  {
    hide Print;
    var ts, inner := [OpenParen] + Print(e, 0) + [CloseParen] + rest, [CloseParen] + rest;
    assert ts[1..] == Print(e, 0) + inner && inner[1..] == rest;
    assert ParseLevel(ts, PRIMARY) == Ok(e, rest);
    FromPrimary(ts, k);
    PrintParens(e, k);
  }

  lemma PrintParens(e: Tree, k: nat)
    requires Rung(e) < k <= PRIMARY
    ensures Print(e, k) == [OpenParen] + Print(e, 0) + [CloseParen]
  {
  }

  // From the primary rung up to k, when no postfix, prefix or operator token is near.
  lemma FromPrimary(ts: seq<Token>, k: nat)
    requires k <= PRIMARY && ts != [] && ParseLevel(ts, PRIMARY).Ok? && PrefixOf(ts[0]).None?
    requires Ends(ParseLevel(ts, PRIMARY).rest[0], k)
    ensures ParseLevel(ts, k) == ParseLevel(ts, PRIMARY)
  {
    if k <= POSTFIX {
      assert ParseLevel(ts, POSTFIX) == ParseLevel(ts, PRIMARY);
      assert ParseLevel(ts, PREFIX) == ParseLevel(ts, POSTFIX);
      if k <= PREFIX { HandThrough(ts, PREFIX, k); }
    }
  }

  lemma {:induction false} RoundTripBare(e: Tree, k: nat, rest: seq<Token>)
    requires k <= Rung(e) && rest != [] && Ends(rest[0], k)
    ensures ParseLevel(Print(e, k) + rest, k) == Ok(e, rest)
    decreases e, 1
  {
    var ts := Print(e, k) + rest;
    match e
    case Number(n) =>
      assert ts[1..] == rest;
      FromPrimary(ts, k);
    case Variable(x) =>
      assert ts[1..] == rest;
      FromPrimary(ts, k);
    case Node(_, _, _) => RoundTripNode(e, k, rest);
    case Prefix(_, _) => RoundTripPrefix(e, k, rest);
    case Postfix(_, _) => RoundTripPostfix(e, k, rest);
  }

  lemma {:induction false} RoundTripNode(e: Tree, k: nat, rest: seq<Token>)
    requires e.Node? && k <= Rung(e) && rest != [] && Ends(rest[0], k)
    ensures ParseLevel(Print(e, k) + rest, k) == Ok(e, rest)
    decreases e, 0
  {
    hide Ends, ParseLevel, ParseLoop, Continues, Print, LevelOf;
    var Node(op, l, r) := e;
    var j, ts := LevelOf(op), Print(e, k) + rest;
    var right := Print(r, j) + rest;
    var middle := [Operator(op)] + right;
    PrintNode(op, l, r, k, rest);
    EndsTighter(rest[0], k, j);
    OperatorEnds(op);
    RoundTrip(l, j + 1, middle);
    RoundTrip(r, j, rest);
    BinaryRung(ts, j, l, middle, r, rest);
    HandThrough(ts, j, k);
  }

  lemma PrintNode(op: BinOp, l: Tree, r: Tree, k: nat, rest: seq<Token>)
    requires k <= LevelOf(op)
    ensures var middle := [Operator(op)] + (Print(r, LevelOf(op)) + rest);
            && Print(Node(op, l, r), k) + rest == Print(l, LevelOf(op) + 1) + middle
            && middle[1..] == Print(r, LevelOf(op)) + rest
  {
    hide Print;
    PrintIs(op, l, r, k);
    Regroup(Print(l, LevelOf(op) + 1), Operator(op), Print(r, LevelOf(op)), rest);
  }

  lemma PrintIs(op: BinOp, l: Tree, r: Tree, k: nat)
    requires k <= LevelOf(op)
    ensures Print(Node(op, l, r), k) == Print(l, LevelOf(op) + 1) + [Operator(op)] + Print(r, LevelOf(op))
  {
  }

  lemma Regroup(a: seq<Token>, t: Token, b: seq<Token>, rest: seq<Token>)
    ensures (a + [t] + b) + rest == a + ([t] + (b + rest)) && ([t] + (b + rest))[1..] == b + rest
  {
  }

  lemma BinaryRung(ts: seq<Token>, j: nat, l: Tree, middle: seq<Token>, r: Tree, rest: seq<Token>)
    requires j < PREFIX && ts != [] && middle != [] && IsLevel(middle[0], j)
    requires ParseLevel(ts, j + 1) == Ok(l, middle) && ParseLevel(middle[1..], j) == Ok(r, rest)
    ensures ParseLevel(ts, j) == Ok(Node(middle[0].op, l, r), rest)
  {
    LoopRunsAtMostOnce(l, middle, j);
  }

  lemma EndsTighter(t: Token, k: nat, j: nat)
    requires Ends(t, k) && k <= j
    ensures Ends(t, j) && !Continues(t, k)
  {
  }

  lemma OperatorEnds(op: BinOp)
    ensures Ends(Operator(op), LevelOf(op) + 1)
  {
  }

  lemma {:induction false} RoundTripPrefix(e: Tree, k: nat, rest: seq<Token>)
    requires e.Prefix? && k <= Rung(e) && rest != [] && Ends(rest[0], k)
    ensures ParseLevel(Print(e, k) + rest, k) == Ok(e, rest)
    decreases e, 0
  {
    var ts := Print(e, k) + rest;
    assert ts[1..] == Print(e.operand, PREFIX) + rest;
    RoundTrip(e.operand, PREFIX, rest);
    HandThrough(ts, PREFIX, k);
  }

  lemma {:induction false} RoundTripPostfix(e: Tree, k: nat, rest: seq<Token>)
    requires e.Postfix? && k <= Rung(e) && rest != [] && Ends(rest[0], k)
    ensures ParseLevel(Print(e, k) + rest, k) == Ok(e, rest)
    decreases e, 0
  {
    var ts := Print(e, k) + rest;
    var tail := [if e.isInc then Increment else Decrement] + rest;
    assert ts == Print(e.operand, PRIMARY) + tail && tail[1..] == rest;
    RoundTrip(e.operand, PRIMARY, tail);
    PrimaryStart(e.operand, tail);
    if k <= PREFIX { HandThrough(ts, PREFIX, k); }
  }

  // A printed primary expression does not start with a prefix operator.
  lemma PrimaryStart(e: Tree, rest: seq<Token>)
    ensures PrefixOf((Print(e, PRIMARY) + rest)[0]).None?
  {
  }

  // Hence two expressions never print alike.
  lemma PrintInjective(a: Tree, b: Tree)
    requires Print(a, 0) == Print(b, 0)
    ensures a == b
  {
    RoundTrip(a, 0, [Other(0)]);
    RoundTrip(b, 0, [Other(0)]);
  }
}
