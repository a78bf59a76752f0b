// The expression grammar of draft/draft.tex, without calls, subscripts and member
// accesses, and with nested prefix operators as parse_prefix_unary() has them.
module Grammar {
  import opened Int32
  import opened Parser

  datatype Nonterminal =
    | LogicalOr | LogicalAnd | InclusiveOr | ExclusiveOr | AndExpr | Equality | Relational | Shift
    | Additive | Multiplicative | PrefixUnary | PostfixUnary | Primary

  function Height(n: Nonterminal): nat {
    match n
    case LogicalOr => 12
    case LogicalAnd => 11
    case InclusiveOr => 10
    case ExclusiveOr => 9
    case AndExpr => 8
    case Equality => 7
    case Relational => 6
    case Shift => 5
    case Additive => 4
    case Multiplicative => 3
    case PrefixUnary => 2
    case PostfixUnary => 1
    case Primary => 0
  }

  // The tokens ts are derived from n, with the tree t: one clause for each
  // nonterminal, with its own operators.
  ghost predicate Derives(n: Nonterminal, ts: seq<Token>, t: Tree)
    decreases |ts|, Height(n), 1
  {
    match n
    case LogicalOr => Derives(LogicalAnd, ts, t) || Infix(LogicalAnd, {Or}, LogicalOr, ts, t)
    case LogicalAnd => Derives(InclusiveOr, ts, t) || Infix(InclusiveOr, {And}, LogicalAnd, ts, t)
    case InclusiveOr => Derives(ExclusiveOr, ts, t) || Infix(ExclusiveOr, {BitOr}, InclusiveOr, ts, t)
    case ExclusiveOr => Derives(AndExpr, ts, t) || Infix(AndExpr, {Xor}, ExclusiveOr, ts, t)
    case AndExpr => Derives(Equality, ts, t) || Infix(Equality, {BitAnd}, AndExpr, ts, t)
    case Equality => Derives(Relational, ts, t) || Infix(Relational, {Eq, Neq}, Equality, ts, t)
    case Relational => Derives(Shift, ts, t) || Infix(Shift, {Gt, Lt, Ge, Le}, Relational, ts, t)
    case Shift => Derives(Additive, ts, t) || Infix(Additive, {Shl, Shr}, Shift, ts, t)
    case Additive => Derives(Multiplicative, ts, t) || Infix(Multiplicative, {Plus, Minus}, Additive, ts, t)
    case Multiplicative => Derives(PrefixUnary, ts, t) || Infix(PrefixUnary, {Star, Slash, Mod}, Multiplicative, ts, t)
    case PrefixUnary =>
      || Derives(PostfixUnary, ts, t)
      || (ts != [] && t.Prefix? && Derives(PrefixUnary, ts[1..], t.operand)
          && match ts[0]
             case Increment => t.pre == PreInc
             case Decrement => t.pre == PreDec
             case Operator(Star) => t.pre == Deref
             case Operator(BitAnd) => t.pre == AddressOf
             case _ => false)
    case PostfixUnary =>
      || Derives(Primary, ts, t)
      || (ts != [] && t.Postfix? && Derives(Primary, ts[..|ts| - 1], t.operand)
          && ts[|ts| - 1] == if t.isInc then Increment else Decrement)
    case Primary =>
      || (t.Number? && ts == [Literal(t.n)])
      || (t.Variable? && ts == [Name(t.name)])
      || (|ts| >= 2 && ts[0] == OpenParen && ts[|ts| - 1] == CloseParen && Derives(LogicalOr, ts[1..|ts| - 1], t))
  }

  // left operator right
  ghost predicate Infix(left: Nonterminal, ops: set<BinOp>, right: Nonterminal, ts: seq<Token>, t: Tree)
    decreases |ts|, 0, 0
  {
    t.Node? && t.op in ops
    && exists i :: 0 <= i < |ts| && ts[i] == Operator(t.op) && Derives(left, ts[..i], t.lhs) && Derives(right, ts[i + 1..], t.rhs)
  }

  // The nonterminal that the function of each rung parses.
  function RungOf(k: nat): Nonterminal
    requires k <= PRIMARY
  {
    match k
    case 0 => LogicalOr
    case 1 => LogicalAnd
    case 2 => InclusiveOr
    case 3 => ExclusiveOr
    case 4 => AndExpr
    case 5 => Equality
    case 6 => Relational
    case 7 => Shift
    case 8 => Additive
    case 9 => Multiplicative
    case 10 => PrefixUnary
    case 11 => PostfixUnary
    case _ => Primary
  }

  // ---- What is parsed is derived ----

  ghost predicate Suffix(rest: seq<Token>, ts: seq<Token>) {
    |rest| <= |ts| && ts[|ts| - |rest|..] == rest
  }

  // The tokens in front of the rest.
  function Consumed(ts: seq<Token>, rest: seq<Token>): seq<Token>
    requires |rest| <= |ts|
  {
    ts[..|ts| - |rest|]
  }

  // A binary rung, through its operators.
  lemma InfixRung(k: nat, ts: seq<Token>, t: Tree, i: nat)
    requires k < PREFIX && t.Node? && LevelOf(t.op) == k
    requires i < |ts| && ts[i] == Operator(t.op)
    requires Derives(RungOf(k + 1), ts[..i], t.lhs) && Derives(RungOf(k), ts[i + 1..], t.rhs)
    ensures Derives(RungOf(k), ts, t)
  {
  }

  lemma HandedOn(k: nat, ts: seq<Token>, t: Tree)
    requires k < PREFIX && Derives(RungOf(k + 1), ts, t)
    ensures Derives(RungOf(k), ts, t)
  {
  }

  lemma {:induction false} ParsedIsDerived(ts: seq<Token>, k: nat)
    requires k <= PRIMARY && ParseLevel(ts, k).Ok?
    ensures var r := ParseLevel(ts, k);
            Suffix(r.rest, ts) && Derives(RungOf(k), Consumed(ts, r.rest), r.tree)
    decreases |ts|, PRIMARY - k
  {
    if k < PREFIX {
      BinaryIsDerived(ts, k);
    } else if k == PREFIX {
      PrefixIsDerived(ts);
    } else if k == POSTFIX {
      PostfixIsDerived(ts);
    } else {
      PrimaryIsDerived(ts);
    }
  }

  // What a binary rung does in terms of the rungs it calls.
  lemma BinarySteps(ts: seq<Token>, k: nat)
    requires k < PREFIX && ParseLevel(ts, k).Ok?
    ensures var e := ParseLevel(ts, k + 1);
            && e.Ok? && e.rest != [] && |e.rest| < |ts|
            && if !IsLevel(e.rest[0], k) then ParseLevel(ts, k) == e
               else var r := ParseLevel(e.rest[1..], k);
                 r.Ok? && LevelOf(e.rest[0].op) == k && ParseLevel(ts, k) == Ok(Node(e.rest[0].op, e.tree, r.tree), r.rest)
  {
    var e := ParseLevel(ts, k + 1);
    if IsLevel(e.rest[0], k) { LoopRunsAtMostOnce(e.tree, e.rest, k); }
  }

  lemma {:induction false} BinaryIsDerived(ts: seq<Token>, k: nat)
    requires k < PREFIX && ParseLevel(ts, k).Ok?
    ensures var r := ParseLevel(ts, k);
            Suffix(r.rest, ts) && Derives(RungOf(k), Consumed(ts, r.rest), r.tree)
    decreases |ts|, PRIMARY - k, 0
  {
    hide Derives, ParseLevel, Suffix, LevelOf, RungOf;
    BinarySteps(ts, k);
    var e := ParseLevel(ts, k + 1);
    ParsedIsDerived(ts, k + 1);
    if IsLevel(e.rest[0], k) {
      var r := ParseLevel(e.rest[1..], k);
      ParsedIsDerived(e.rest[1..], k);
      Split(ts, e.rest, r.rest);
      InfixRung(k, Consumed(ts, r.rest), Node(e.rest[0].op, e.tree, r.tree), |ts| - |e.rest|);
    } else {
      HandedOn(k, Consumed(ts, e.rest), e.tree);
    }
  }

  // ts: the left operand, the operator, the right operand, the rest.
  lemma Split(ts: seq<Token>, mid: seq<Token>, rest: seq<Token>)
    requires mid != [] && Suffix(mid, ts) && Suffix(rest, mid[1..])
    ensures Suffix(rest, ts)
    ensures var c, i := Consumed(ts, rest), |ts| - |mid|;
            i < |c| && c[i] == mid[0] && c[..i] == Consumed(ts, mid) && c[i + 1..] == Consumed(mid[1..], rest)
  {
    assert ts[|ts| - |mid|..][0] == mid[0];
    assert mid == ts[|ts| - |mid|..];
  }

  lemma {:induction false} PrefixIsDerived(ts: seq<Token>)
    requires ParseLevel(ts, PREFIX).Ok?
    ensures var r := ParseLevel(ts, PREFIX);
            Suffix(r.rest, ts) && Derives(RungOf(PREFIX), Consumed(ts, r.rest), r.tree)
    decreases |ts|, PRIMARY - PREFIX, 0
  {
    if PrefixOf(ts[0]).Some? {
      ParsedIsDerived(ts[1..], PREFIX);
      var e := ParseLevel(ts[1..], PREFIX);
      assert Consumed(ts, e.rest)[1..] == Consumed(ts[1..], e.rest);
    } else {
      ParsedIsDerived(ts, POSTFIX);
    }
  }

  lemma {:induction false} PostfixIsDerived(ts: seq<Token>)
    requires ParseLevel(ts, POSTFIX).Ok?
    ensures var r := ParseLevel(ts, POSTFIX);
            Suffix(r.rest, ts) && Derives(RungOf(POSTFIX), Consumed(ts, r.rest), r.tree)
    decreases |ts|, PRIMARY - POSTFIX, 0
  {
    ParsedIsDerived(ts, PRIMARY);
    var e := ParseLevel(ts, PRIMARY);
    if e.rest[0].Increment? || e.rest[0].Decrement? {
      var c := Consumed(ts, e.rest[1..]);
      assert ts[|ts| - |e.rest|..][0] == e.rest[0];
      assert c[..|c| - 1] == Consumed(ts, e.rest) && c[|c| - 1] == e.rest[0];
    }
  }

  lemma {:induction false} PrimaryIsDerived(ts: seq<Token>)
    requires ParseLevel(ts, PRIMARY).Ok?
    ensures var r := ParseLevel(ts, PRIMARY);
            Suffix(r.rest, ts) && Derives(RungOf(PRIMARY), Consumed(ts, r.rest), r.tree)
    decreases |ts|, 0, 0
  {
    match ts[0]
    case Name(_) => assert Consumed(ts, ts[1..]) == [ts[0]];
    case Literal(_) => assert Consumed(ts, ts[1..]) == [ts[0]];
    case OpenParen =>
      ParsedIsDerived(ts[1..], 0);
      ParenIsDerived(ts);
    case _ =>
  }

  lemma ParenIsDerived(ts: seq<Token>)
    requires ParseLevel(ts, PRIMARY).Ok? && ts[0] == OpenParen && ParseLevel(ts[1..], 0).Ok?
    requires var e := ParseLevel(ts[1..], 0); Suffix(e.rest, ts[1..]) && Derives(LogicalOr, Consumed(ts[1..], e.rest), e.tree)
    ensures var r := ParseLevel(ts, PRIMARY);
            Suffix(r.rest, ts) && Derives(Primary, Consumed(ts, r.rest), r.tree)
  {
    var e := ParseLevel(ts[1..], 0);
    assert ParseLevel(ts, PRIMARY) == Ok(e.tree, e.rest[1..]) && e.rest[0] == CloseParen;
    hide ParseLevel;
    Split(ts[1..], e.rest, e.rest[1..]);
    Parenthesised(ts, e.rest, e.tree);
  }

  lemma Parenthesised(ts: seq<Token>, mid: seq<Token>, t: Tree)
    requires ts != [] && ts[0] == OpenParen && mid != [] && mid[0] == CloseParen && Suffix(mid, ts[1..])
    requires Derives(LogicalOr, Consumed(ts[1..], mid), t)
    ensures Suffix(mid[1..], ts) && Derives(Primary, Consumed(ts, mid[1..]), t)
  {
    hide Infix;
    var c := Consumed(ts, mid[1..]);
    assert mid == ts[1..][|ts| - 1 - |mid|..];
    assert c[1..|c| - 1] == Consumed(ts[1..], mid) && c[|c| - 1] == mid[0];
  }

  // ---- What is derived is parsed ----

  // In front of a token that ends expressions on rung k, everything derived on
  // that rung is parsed, with the tree of its derivation and up to that token.
  lemma {:induction false} DerivedIsParsed(ts: seq<Token>, t: Tree, k: nat, rest: seq<Token>)
    requires k <= PRIMARY && Derives(RungOf(k), ts, t) && rest != [] && Ends(rest[0], k)
    ensures ts != [] && ParseLevel(ts + rest, k) == Ok(t, rest)
    decreases |ts|, PRIMARY - k
  {
    if k < PREFIX {
      BinaryIsParsed(ts, t, k, rest);
    } else if k == PREFIX {
      PrefixIsParsed(ts, t, rest);
    } else if k == POSTFIX {
      PostfixIsParsed(ts, t, rest);
    } else {
      PrimaryIsParsed(ts, t, rest);
    }
  }

  ghost predicate InfixAt(k: nat, ts: seq<Token>, t: Tree, i: nat)
    requires k < PREFIX
  {
    && t.Node? && LevelOf(t.op) == k && i < |ts| && ts[i] == Operator(t.op)
    && Derives(RungOf(k + 1), ts[..i], t.lhs) && Derives(RungOf(k), ts[i + 1..], t.rhs)
  }

  // Every binary rung has one set of operators, all of its level.
  lemma RungOperators(k: nat, ts: seq<Token>, t: Tree) returns (ops: set<BinOp>)
    requires k < PREFIX && Derives(RungOf(k), ts, t)
    ensures Derives(RungOf(k + 1), ts, t) || Infix(RungOf(k + 1), ops, RungOf(k), ts, t)
    ensures forall o :: o in ops ==> LevelOf(o) == k
  {
    hide Infix;
    ops := match k
      case 0 => {Or} case 1 => {And} case 2 => {BitOr} case 3 => {Xor} case 4 => {BitAnd}
      case 5 => {Eq, Neq} case 6 => {Gt, Lt, Ge, Le} case 7 => {Shl, Shr} case 8 => {Plus, Minus}
      case _ => {Star, Slash, Mod};
  }

  lemma RungCases(k: nat, ts: seq<Token>, t: Tree)
    requires k < PREFIX && Derives(RungOf(k), ts, t)
    ensures Derives(RungOf(k + 1), ts, t) || exists i: nat :: InfixAt(k, ts, t, i)
  {
    var ops := RungOperators(k, ts, t);
    hide Derives, LevelOf;
    if !Derives(RungOf(k + 1), ts, t) {
      var i :| 0 <= i < |ts| && ts[i] == Operator(t.op) && Derives(RungOf(k + 1), ts[..i], t.lhs) && Derives(RungOf(k), ts[i + 1..], t.rhs);
      assert InfixAt(k, ts, t, i);
    }
  }

  lemma {:induction false} BinaryIsParsed(ts: seq<Token>, t: Tree, k: nat, rest: seq<Token>)
    requires k < PREFIX && Derives(RungOf(k), ts, t) && rest != [] && Ends(rest[0], k)
    ensures ts != [] && ParseLevel(ts + rest, k) == Ok(t, rest)
    decreases |ts|, PRIMARY - k, 0
  {
    hide Derives, ParseLevel, Ends;
    RungCases(k, ts, t);
    if Derives(RungOf(k + 1), ts, t) {
      EndsTighter(rest[0], k, k + 1);
      DerivedIsParsed(ts, t, k + 1, rest);
      HandedThrough(ts + rest, k);
    } else {
      var i: nat :| InfixAt(k, ts, t, i);
      var right := ts[i + 1..] + rest;
      var middle := [Operator(t.op)] + right;
      OperatorEnds(t.op);
      assert ts + rest == ts[..i] + middle && middle[1..] == right;
      DerivedIsParsed(ts[..i], t.lhs, k + 1, middle);
      DerivedIsParsed(ts[i + 1..], t.rhs, k, rest);
      BinaryRung(ts + rest, k, t.lhs, middle, t.rhs, rest);
    }
  }

  lemma HandedThrough(ts: seq<Token>, k: nat)
    requires k < PREFIX && ts != [] && ParseLevel(ts, k + 1).Ok? && Ends(ParseLevel(ts, k + 1).rest[0], k)
    ensures ParseLevel(ts, k) == ParseLevel(ts, k + 1)
  {
  }

  lemma {:induction false} PrefixIsParsed(ts: seq<Token>, t: Tree, rest: seq<Token>)
    requires Derives(PrefixUnary, ts, t) && rest != [] && Ends(rest[0], PREFIX)
    ensures ts != [] && ParseLevel(ts + rest, PREFIX) == Ok(t, rest)
    decreases |ts|, PRIMARY - PREFIX, 0
  {
    if Derives(PostfixUnary, ts, t) {
      EndsTighter(rest[0], PREFIX, POSTFIX);
      DerivedIsParsed(ts, t, POSTFIX, rest);
      PostfixStart(ts, t);
    } else {
      DerivedIsParsed(ts[1..], t.operand, PREFIX, rest);
      assert (ts + rest)[1..] == ts[1..] + rest;
    }
  }

  lemma PrimaryBegins(ts: seq<Token>, t: Tree)
    requires Derives(Primary, ts, t)
    ensures ts != [] && PrefixOf(ts[0]).None?
  {
  }

  lemma PostfixStart(ts: seq<Token>, t: Tree)
    requires Derives(PostfixUnary, ts, t)
    ensures ts != [] && PrefixOf(ts[0]).None?
  {
    if Derives(Primary, ts, t) {
      PrimaryBegins(ts, t);
    } else {
      PrimaryBegins(ts[..|ts| - 1], t.operand);
    }
  }

  lemma {:induction false} PostfixIsParsed(ts: seq<Token>, t: Tree, rest: seq<Token>)
    requires Derives(PostfixUnary, ts, t) && rest != [] && Ends(rest[0], POSTFIX)
    ensures ts != [] && ParseLevel(ts + rest, POSTFIX) == Ok(t, rest)
    decreases |ts|, PRIMARY - POSTFIX, 0
  {
    if Derives(Primary, ts, t) {
      EndsTighter(rest[0], POSTFIX, PRIMARY);
      DerivedIsParsed(ts, t, PRIMARY, rest);
    } else {
      var tail := [ts[|ts| - 1]] + rest;
      DerivedIsParsed(ts[..|ts| - 1], t.operand, PRIMARY, tail);
      assert ts + rest == ts[..|ts| - 1] + tail && tail[1..] == rest;
    }
  }

  lemma {:induction false} PrimaryIsParsed(ts: seq<Token>, t: Tree, rest: seq<Token>)
    requires Derives(Primary, ts, t) && rest != [] && Ends(rest[0], PRIMARY)
    ensures ts != [] && ParseLevel(ts + rest, PRIMARY) == Ok(t, rest)
    decreases |ts|, 0, 0
  {
    if ts[0] == OpenParen {
      var inner, tail := ts[1..|ts| - 1], [CloseParen] + rest;
      DerivedIsParsed(inner, t, 0, tail);
      assert (ts + rest)[1..] == inner + tail && tail[1..] == rest;
    } else {
      assert (ts + rest)[1..] == rest;
    }
  }

  // ---- Together ----

  // The parser accepts exactly the language of the grammar, and builds the tree
  // of the derivation.
  lemma ParsesExactly(ts: seq<Token>, t: Tree, k: nat, rest: seq<Token>)
    requires k <= PRIMARY && rest != [] && Ends(rest[0], k)
    ensures ParseLevel(ts + rest, k) == Ok(t, rest) <==> Derives(RungOf(k), ts, t)
  {
    hide Derives, ParseLevel, Ends;
    if Derives(RungOf(k), ts, t) { DerivedIsParsed(ts, t, k, rest); }
    if ParseLevel(ts + rest, k) == Ok(t, rest) {
      ParsedIsDerived(ts + rest, k);
      assert Consumed(ts + rest, rest) == ts;
    }
  }

  // So no string of tokens has two trees.
  lemma Unambiguous(ts: seq<Token>, a: Tree, b: Tree)
    requires Derives(LogicalOr, ts, a) && Derives(LogicalOr, ts, b)
    ensures a == b
  {
    hide Derives, ParseLevel;
    ParsesExactly(ts, a, 0, [Other(0)]);
    ParsesExactly(ts, b, 0, [Other(0)]);
  }
}
