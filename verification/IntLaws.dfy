// What the operators of eval_ints() in lib/back_end/eval.c compute: the C
// operators on 32-bit words, division with its remainder, and the order.
module IntLaws {
  import opened Int32
  import B = BitNumbers

  // Reduced to 32 bits, as a number without sign.
  function Low(n: int): nat { n % 0x1_0000_0000 }

  // ---- Words count, add and multiply as numbers do, wrapping around ----

  lemma HalfOfNext(w: bv32)
    ensures !B.Odd(w) ==> B.Half(w + 1) == B.Half(w) && B.Odd(w + 1)
    ensures B.Odd(w) && w != 0xFFFF_FFFF ==> B.Half(w + 1) == B.Half(w) + 1 && !B.Odd(w + 1)
  {
  }

  lemma HalfFits(w: bv32, m: bv32)
    requires m & 0x8000_0000 == 0 && B.And(w, B.Push(m, true)) == w && w != B.Push(m, true)
    ensures B.And(B.Half(w), m) == B.Half(w) && (B.Odd(w) ==> B.Half(w) != m)
  {
  }

  lemma {:induction false} NextBelow(w: bv32, k: nat)
    requires k <= 32 && B.And(w, B.Mask(k)) == w && w != B.Mask(k)
    ensures B.NatOf(w + 1, k) == B.NatOf(w, k) + 1
    decreases k
  {
    hide B.Half, B.Odd, B.And, B.Push;
    if k == 0 {
      B.AndZero(w);
      NothingBelow(w);
    } else {
      B.MaskTop(k - 1);
      HalfFits(w, B.Mask(k - 1));
      FitsNotFull(w, B.Mask(k - 1));
      HalfOfNext(w);
      if B.Odd(w) { NextBelow(B.Half(w), k - 1); }
    }
  }

  lemma NothingBelow(w: bv32)
    requires B.And(w, 0) == w
    ensures w == 0
  {
  }

  lemma FitsNotFull(w: bv32, m: bv32)
    requires B.And(w, B.Push(m, true)) == w && w != B.Push(m, true)
    ensures w != 0xFFFF_FFFF
  {
  }

  lemma Full()
    ensures B.Mask(32) == 0xFFFF_FFFF && B.Nat32(0xFFFF_FFFF) == 0xFFFF_FFFF && B.Nat32(0) == 0
  {
    hide B.NatOf, B.Mask, B.Pow2;
    B.MaskValues();
    B.Pow2Values();
    B.NatOfMask(32, 32);
    B.NatOfZero(0, 32);
  }

  lemma WholeWord(w: bv32)
    ensures B.And(w, 0xFFFF_FFFF) == w
  {
  }

  lemma OverTheTop(w: bv32)
    ensures w == 0xFFFF_FFFF ==> w + 1 == 0
  {
  }

  lemma NatNext(w: bv32)
    ensures B.Nat32(w + 1) == Low(B.Nat32(w) + 1)
  {
    hide B.NatOf, B.Mask, B.And;
    Full();
    WholeWord(w);
    B.Nat32Bound(w);
    B.Nat32Bound(w + 1);
    OverTheTop(w);
    if w != 0xFFFF_FFFF { NextBelow(w, 32); }
  }

  lemma NotFullBefore(y: bv32)
    requires y != 0
    ensures y - 1 != 0xFFFF_FFFF
  {
  }

  lemma NatBefore(y: bv32)
    requires y != 0
    ensures B.Nat32(y - 1) == B.Nat32(y) - 1
  {
    hide B.NatOf, B.Mask, B.And;
    Full();
    WholeWord(y - 1);
    NotFullBefore(y);
    NextBelow(y - 1, 32);
  }

  function SumOf(x: bv32, y: bv32): nat { B.Nat32(x + y) }

  function ProductOf(x: bv32, y: bv32): nat { B.Nat32(x * y) }

  lemma SumOfZero(x: bv32)
    ensures SumOf(x, 0) == B.Nat32(x) && ProductOf(x, 0) == 0
  {
    hide B.NatOf;
    Full();
  }

  lemma SumOfNext(x: bv32, y: bv32)
    ensures SumOf(x, y) == Low(SumOf(x, y - 1) + 1)
  {
    hide B.Nat32, Low;
    NatNext(x + (y - 1));
  }

  lemma {:induction false} NatSum(x: bv32, y: bv32)
    ensures SumOf(x, y) == Low(B.Nat32(x) + B.Nat32(y))
    decreases B.Nat32(y)
  {
    hide *;
    if y == 0 {
      SumOfZero(x);
      NatZero(x, y);
    } else {
      NatBefore(y);
      NatSum(x, y - 1);
      SumOfNext(x, y);
      SumStep(B.Nat32(x), B.Nat32(y), B.Nat32(y - 1), SumOf(x, y - 1), SumOf(x, y));
    }
  }

  lemma NatZero(x: bv32, y: bv32)
    requires y == 0
    ensures B.Nat32(y) == 0 && Low(B.Nat32(x) + B.Nat32(y)) == B.Nat32(x) && Low(B.Nat32(x) * B.Nat32(y)) == 0
  {
    hide B.NatOf;
    Full();
    B.Nat32Bound(x);
  }

  lemma ProductOfNext(x: bv32, y: bv32)
    ensures ProductOf(x, y) == SumOf(x * (y - 1), x)
  {
    hide B.Nat32;
  }

  lemma ProductGrows(x: bv32, y: bv32)
    ensures ProductOf(x, y) == Low(ProductOf(x, y - 1) + B.Nat32(x))
  {
    hide B.Nat32, Low, SumOf;
    ProductOfNext(x, y);
    NatSum(x * (y - 1), x);
  }

  lemma {:induction false} NatProduct(x: bv32, y: bv32)
    ensures ProductOf(x, y) == Low(B.Nat32(x) * B.Nat32(y))
    decreases B.Nat32(y)
  {
    hide *;
    if y == 0 {
      SumOfZero(x);
      NatZero(x, y);
    } else {
      NatBefore(y);
      NatProduct(x, y - 1);
      ProductGrows(x, y);
      ProductStep(B.Nat32(x), B.Nat32(y), B.Nat32(y - 1), ProductOf(x, y - 1), ProductOf(x, y));
    }
  }

  lemma SumStep(x: int, y: int, before: int, sum: int, next: int)
    requires before == y - 1 && sum == Low(x + before) && next == Low(sum + 1)
    ensures next == Low(x + y)
  {
    ModAdd(x + before, 1);
  }

  lemma ProductStep(x: int, y: int, before: int, product: int, next: int)
    requires before == y - 1 && product == Low(x * before) && next == Low(product + x)
    ensures next == Low(x * y)
  {
    ModAdd(x * before, x);
    OneLess(x, y);
  }

  lemma ModAdd(a: int, b: int)
    ensures Low(Low(a) + b) == Low(a + b)
  {
  }

  lemma OneLess(a: int, b: int)
    ensures a * (b - 1) + a == a * b
  {
  }


  // ---- The arithmetic operators ----

  lemma WordNat(n: int)
    ensures B.Nat32(B.BvOf(n)) == Low(n)
  {
    hide B.NatOf, B.WordOf, B.Pow2;
    B.Pow2Values();
    B.NatOfWord(Low(n), 32);
  }

  lemma SameWord(w: bv32, n: int)
    requires B.Nat32(w) == Low(n)
    ensures B.IntOf(w) == Wrap(n)
  {
    hide B.Nat32;
  }

  lemma LowSums(a: int, b: int)
    ensures Low(Low(a) + Low(b)) == Low(a + b) && Low(Low(a) * Low(b)) == Low(a * b)
  {
    hide Low;
    ModAdd(a, Low(b));
    ModAdd(b, a);
    LowProduct(a, b);
  }

  lemma LowProduct(a: int, b: int)
    ensures Low(Low(a) * Low(b)) == Low(a * b)
  {
    hide Low;
    var p := LowMultiple(a);
    var q := LowMultiple(b);
    LowOf(Low(a) * Low(b), Low(a) * q + p * b, a * b) by {
      assert a * b == Low(a) * b + p * 0x1_0000_0000 * b;
      assert Low(a) * b == Low(a) * Low(b) + Low(a) * (q * 0x1_0000_0000);
    }
  }

  lemma LowMultiple(a: int) returns (q: int)
    ensures a == Low(a) + q * 0x1_0000_0000
  {
    q := a / 0x1_0000_0000;
  }

  lemma LowOf(n: int, q: int, m: int)
    requires m == n + q * 0x1_0000_0000
    ensures Low(n) == Low(m)
  {
  }

  lemma ArithmeticWraps(l: int32, r: int32)
    ensures EvalOp(Plus, l, r) == Wrap(l + r) && EvalOp(Minus, l, r) == Wrap(l - r) && EvalOp(Star, l, r) == Wrap(l * r)
  {
    hide Wrap;
  }

  function SignedSum(x: bv32, y: bv32): int { B.IntOf(x + y) }

  function SignedDifference(x: bv32, y: bv32): int { B.IntOf(x - y) }

  function SignedProduct(x: bv32, y: bv32): int { B.IntOf(x * y) }

  lemma SumIs(x: bv32, y: bv32, n: int)
    requires SumOf(x, y) == Low(n)
    ensures SignedSum(x, y) == Wrap(n)
  {
    hide B.Nat32, B.IntOf, Low, Wrap;
    SameWord(x + y, n);
  }

  lemma DifferenceIs(x: bv32, y: bv32, n: int)
    requires DifferenceOf(x, y) == Low(n)
    ensures SignedDifference(x, y) == Wrap(n)
  {
    hide B.Nat32, B.IntOf, Low, Wrap;
    SameWord(x - y, n);
  }

  lemma ProductIs(x: bv32, y: bv32, n: int)
    requires ProductOf(x, y) == Low(n)
    ensures SignedProduct(x, y) == Wrap(n)
  {
    hide B.Nat32, B.IntOf, Low, Wrap;
    SameWord(x * y, n);
  }

  // + is addition of words in two's complement,
  lemma AddsWords(l: int32, r: int32)
    ensures EvalOp(Plus, l, r) == B.IntOf(B.BvOf(l) + B.BvOf(r))
  {
    hide EvalOp, B.BvOf, B.IntOf;
    SignedSums(l, r);
  }

  lemma SignedSums(l: int32, r: int32)
    ensures EvalOp(Plus, l, r) == SignedSum(B.BvOf(l), B.BvOf(r))
  {
    hide *;
    WordNat(l);
    WordNat(r);
    NatSum(B.BvOf(l), B.BvOf(r));
    LowSums(l, r);
    SumIs(B.BvOf(l), B.BvOf(r), l + r);
    ArithmeticWraps(l, r);
  }

  function DifferenceOf(x: bv32, y: bv32): nat { B.Nat32(x - y) }

  lemma DifferenceBack(x: bv32, y: bv32)
    ensures Low(DifferenceOf(x, y) + B.Nat32(y)) == B.Nat32(x)
  {
    hide B.Nat32, Low, SumOf;
    NatSum(x - y, y);
    BackAgain(x, y);
  }

  lemma BackAgain(x: bv32, y: bv32)
    ensures SumOf(x - y, y) == B.Nat32(x)
  {
    hide B.Nat32;
  }

  // - is subtraction of words,
  lemma SubtractsWords(l: int32, r: int32)
    ensures EvalOp(Minus, l, r) == B.IntOf(B.BvOf(l) - B.BvOf(r))
  {
    hide EvalOp, B.BvOf, B.IntOf;
    SignedDifferences(l, r);
  }

  lemma SignedDifferences(l: int32, r: int32)
    ensures EvalOp(Minus, l, r) == SignedDifference(B.BvOf(l), B.BvOf(r))
  {
    hide *;
    WordNat(l);
    WordNat(r);
    DifferenceBack(B.BvOf(l), B.BvOf(r));
    DifferenceBound(B.BvOf(l), B.BvOf(r));
    LowDifference(DifferenceOf(B.BvOf(l), B.BvOf(r)), l, r);
    DifferenceIs(B.BvOf(l), B.BvOf(r), l - r);
    ArithmeticWraps(l, r);
  }

  lemma DifferenceBound(x: bv32, y: bv32)
    ensures Low(DifferenceOf(x, y)) == DifferenceOf(x, y)
  {
    hide B.NatOf;
    B.Nat32Bound(x - y);
  }

  lemma LowDifference(d: int, l: int, r: int)
    requires Low(d + Low(r)) == Low(l) && Low(d) == d
    ensures d == Low(l - r)
  {
  }

  // and * is multiplication of words.
  lemma MultipliesWords(l: int32, r: int32)
    ensures EvalOp(Star, l, r) == B.IntOf(B.BvOf(l) * B.BvOf(r))
  {
    hide EvalOp, B.BvOf, B.IntOf;
    SignedProducts(l, r);
  }

  lemma SignedProducts(l: int32, r: int32)
    ensures EvalOp(Star, l, r) == SignedProduct(B.BvOf(l), B.BvOf(r))
  {
    hide *;
    WordNat(l);
    WordNat(r);
    NatProduct(B.BvOf(l), B.BvOf(r));
    LowSums(l, r);
    ProductIs(B.BvOf(l), B.BvOf(r), l * r);
    ArithmeticWraps(l, r);
  }


  // ---- The bitwise operators ----

  lemma HalfOfAnd(x: bv32, y: bv32)
    ensures B.Half(x & y) == B.Half(x) & B.Half(y) && (B.Odd(x & y) <==> B.Odd(x) && B.Odd(y))
  {
  }

  lemma HalfOfOr(x: bv32, y: bv32)
    ensures B.Half(x | y) == B.Half(x) | B.Half(y) && (B.Odd(x | y) <==> B.Odd(x) || B.Odd(y))
  {
  }

  lemma HalfOfXor(x: bv32, y: bv32)
    ensures B.Half(x ^ y) == B.Half(x) ^ B.Half(y)
  {
  }

  lemma OddXor(x: bv32, y: bv32)
    ensures B.Odd(x ^ y) <==> B.Odd(x) != B.Odd(y)
  {
  }

  function AndOf(x: bv32, y: bv32, k: nat): nat { B.NatOf(x & y, k) }
  function OrOf(x: bv32, y: bv32, k: nat): nat { B.NatOf(x | y, k) }
  function XorOf(x: bv32, y: bv32, k: nat): nat { B.NatOf(x ^ y, k) }

  lemma BitwiseStep(x: bv32, y: bv32, k: nat)
    requires k > 0
    ensures AndOf(x, y, k) == 2 * AndOf(B.Half(x), B.Half(y), k - 1) + if B.Odd(x) && B.Odd(y) then 1 else 0
    ensures OrOf(x, y, k) == 2 * OrOf(B.Half(x), B.Half(y), k - 1) + if B.Odd(x) || B.Odd(y) then 1 else 0
    ensures XorOf(x, y, k) == 2 * XorOf(B.Half(x), B.Half(y), k - 1) + if B.Odd(x) != B.Odd(y) then 1 else 0
  {
    hide B.Half, B.Odd;
    HalfOfAnd(x, y);
    HalfOfOr(x, y);
    HalfOfXor(x, y);
    OddXor(x, y);
  }

  lemma NatStep(x: bv32, k: nat)
    requires k > 0
    ensures B.NatOf(x, k) == 2 * B.NatOf(B.Half(x), k - 1) + B.Digit(x)
    ensures B.Digit(x) == if B.Odd(x) then 1 else 0
  {
    hide B.Half, B.Odd;
  }

  lemma NoDigits(x: bv32, y: bv32)
    ensures AndOf(x, y, 0) == AndBits(B.NatOf(x, 0), B.NatOf(y, 0))
    ensures OrOf(x, y, 0) == OrBits(B.NatOf(x, 0), B.NatOf(y, 0))
    ensures XorOf(x, y, 0) == XorBits(B.NatOf(x, 0), B.NatOf(y, 0))
  {
    hide *;
    NoDigit(x);
    NoDigit(y);
    AndNone(x, y);
    OrNone(x, y);
    XorNone(x, y);
    BitsOfZero();
  }

  lemma AndNone(x: bv32, y: bv32)
    ensures AndOf(x, y, 0) == 0
  {
    hide B.NatOf;
    NoDigit(x & y);
  }

  lemma OrNone(x: bv32, y: bv32)
    ensures OrOf(x, y, 0) == 0
  {
    hide B.NatOf;
    NoDigit(x | y);
  }

  lemma XorNone(x: bv32, y: bv32)
    ensures XorOf(x, y, 0) == 0
  {
    hide B.NatOf;
    NoDigit(x ^ y);
  }

  lemma NoDigit(x: bv32)
    ensures B.NatOf(x, 0) == 0
  {
  }

  lemma BitsOfZero()
    ensures AndBits(0, 0) == 0 && OrBits(0, 0) == 0 && XorBits(0, 0) == 0
  {
  }

  // One more digit at the end.
  lemma DigitStep(a: nat, b: nat, d: nat, e: nat)
    requires d <= 1 && e <= 1
    ensures AndBits(2 * a + d, 2 * b + e) == 2 * AndBits(a, b) + if d == 1 && e == 1 then 1 else 0
    ensures OrBits(2 * a + d, 2 * b + e) == 2 * OrBits(a, b) + if d == 1 || e == 1 then 1 else 0
    ensures XorBits(2 * a + d, 2 * b + e) == 2 * XorBits(a, b) + if d != e then 1 else 0
  {
    assert (2 * a + d) / 2 == a && (2 * b + e) / 2 == b && (2 * a + d) % 2 == d && (2 * b + e) % 2 == e;
  }

  lemma {:induction false} Bitwise(x: bv32, y: bv32, k: nat)
    ensures AndOf(x, y, k) == AndBits(B.NatOf(x, k), B.NatOf(y, k))
    ensures OrOf(x, y, k) == OrBits(B.NatOf(x, k), B.NatOf(y, k))
    ensures XorOf(x, y, k) == XorBits(B.NatOf(x, k), B.NatOf(y, k))
    decreases k
  {
    hide *;
    if k == 0 {
      NoDigits(x, y);
    } else {
      Bitwise(B.Half(x), B.Half(y), k - 1);
      BitwiseStep(x, y, k);
      NatStep(x, k);
      NatStep(y, k);
      DigitStep(B.NatOf(B.Half(x), k - 1), B.NatOf(B.Half(y), k - 1), B.Digit(x), B.Digit(y));
    }
  }

  function SignedAnd(x: bv32, y: bv32): int { B.IntOf(x & y) }
  function SignedOr(x: bv32, y: bv32): int { B.IntOf(x | y) }
  function SignedXor(x: bv32, y: bv32): int { B.IntOf(x ^ y) }

  lemma BitwiseAre(x: bv32, y: bv32)
    ensures SignedAnd(x, y) == Wrap(AndOf(x, y, 32)) && SignedOr(x, y) == Wrap(OrOf(x, y, 32))
    ensures SignedXor(x, y) == Wrap(XorOf(x, y, 32))
  {
    AndIs(x, y);
    OrIs(x, y);
    XorIs(x, y);
    hide *;
  }

  lemma AndIs(x: bv32, y: bv32)
    ensures SignedAnd(x, y) == Wrap(AndOf(x, y, 32))
  {
    hide B.NatOf, B.IntOf, Wrap;
    B.Nat32Bound(x & y);
    SameWord(x & y, B.Nat32(x & y));
  }

  lemma OrIs(x: bv32, y: bv32)
    ensures SignedOr(x, y) == Wrap(OrOf(x, y, 32))
  {
    hide B.NatOf, B.IntOf, Wrap;
    B.Nat32Bound(x | y);
    SameWord(x | y, B.Nat32(x | y));
  }

  lemma XorIs(x: bv32, y: bv32)
    ensures SignedXor(x, y) == Wrap(XorOf(x, y, 32))
  {
    hide B.NatOf, B.IntOf, Wrap;
    B.Nat32Bound(x ^ y);
    SameWord(x ^ y, B.Nat32(x ^ y));
  }

  lemma UnsignedWord(n: int32)
    ensures B.NatOf(B.BvOf(n), 32) == Unsigned(n)
  {
    hide B.NatOf, B.BvOf;
    WordNat(n);
  }

  // &, | and ^ are the operations on words.
  lemma BitwiseOnWords(l: int32, r: int32)
    ensures EvalOp(BitAnd, l, r) == B.IntOf(B.BvOf(l) & B.BvOf(r))
    ensures EvalOp(BitOr, l, r) == B.IntOf(B.BvOf(l) | B.BvOf(r))
    ensures EvalOp(Xor, l, r) == B.IntOf(B.BvOf(l) ^ B.BvOf(r))
  {
    hide EvalOp, B.BvOf, B.IntOf;
    SignedBitwise(l, r);
  }

  lemma SignedBitwise(l: int32, r: int32)
    ensures EvalOp(BitAnd, l, r) == SignedAnd(B.BvOf(l), B.BvOf(r))
    ensures EvalOp(BitOr, l, r) == SignedOr(B.BvOf(l), B.BvOf(r))
    ensures EvalOp(Xor, l, r) == SignedXor(B.BvOf(l), B.BvOf(r))
  {
    hide *;
    UnsignedWord(l);
    UnsignedWord(r);
    Bitwise(B.BvOf(l), B.BvOf(r), 32);
    BitwiseAre(B.BvOf(l), B.BvOf(r));
    BitwiseWraps(l, r);
  }

  lemma BitwiseWraps(l: int32, r: int32)
    ensures EvalOp(BitAnd, l, r) == Wrap(AndBits(Unsigned(l), Unsigned(r)))
    ensures EvalOp(BitOr, l, r) == Wrap(OrBits(Unsigned(l), Unsigned(r)))
    ensures EvalOp(Xor, l, r) == Wrap(XorBits(Unsigned(l), Unsigned(r)))
  {
    hide Wrap, AndBits, OrBits, XorBits;
  }

  // ---- Division ----

  // / and % truncate towards zero, and belong together; only the quotient of
  // -2^31 and -1 is left out, which C does not define.
  lemma DivisionLaw(l: int32, r: int32)
    requires r != 0 && !(l == -0x8000_0000 && r == -1)
    ensures var q, m := EvalOp(Slash, l, r), EvalOp(Mod, l, r);
            && l == r * q + m && Abs(m) < Abs(r)
            && (m != 0 ==> (m < 0 <==> l < 0))
  {
    hide Abs, Quotient;
    QuotientParts(l, r);
    RemainderParts(l, r);
    QuotientFits(l, r);
    WrapIdentity(Quotient(l, r));
    AbsBound(l - r * Quotient(l, r), r);
    WrapIdentity(l - r * Quotient(l, r));
  }

  lemma AbsBound(m: int, r: int32)
    requires Abs(m) < Abs(r)
    ensures -0x8000_0000 < m < 0x8000_0000
  {
  }

  // The product has the magnitude |l| - |l| % |r| and the sign of l.
  lemma QuotientParts(l: int32, r: int32)
    requires r != 0
    ensures Abs(r) > 0
    ensures r * Quotient(l, r) == if l < 0 then -(Abs(l) - Abs(l) % Abs(r)) else Abs(l) - Abs(l) % Abs(r)
  {
    hide Quotient, Abs;
    AbsIs(r);
    var q := Abs(l) / Abs(r);
    WholePart(Abs(l), Abs(r));
    QuotientSign(l, r, q);
    Signs(Abs(r), q);
    Signs(Abs(r), -q);
  }

  lemma WholePart(a: nat, b: nat)
    requires b > 0
    ensures b * (a / b) == a - a % b
  {
  }

  lemma AbsIs(r: int)
    ensures (r < 0 ==> r + Abs(r) == 0) && (r >= 0 ==> r == Abs(r))
  {
  }

  lemma QuotientSign(l: int32, r: int32, q: int)
    requires r != 0 && q == Abs(l) / Abs(r)
    ensures Quotient(l, r) == if (l < 0) == (r < 0) then q else -q
  {
  }

  lemma Signs(r: int, q: int)
    ensures r * -q == -(r * q) && -r * q == -(r * q)
  {
  }

  lemma RemainderParts(l: int32, r: int32)
    requires r != 0 && r * Quotient(l, r) == if l < 0 then -(Abs(l) - Abs(l) % Abs(r)) else Abs(l) - Abs(l) % Abs(r)
    ensures var m := l - r * Quotient(l, r);
            Abs(m) < Abs(r) && (m != 0 ==> (m < 0 <==> l < 0))
  {
    hide Quotient;
  }

  lemma QuotientFits(l: int32, r: int32)
    requires r != 0 && !(l == -0x8000_0000 && r == -1)
    ensures -0x8000_0000 <= Quotient(l, r) < 0x8000_0000
  {
    var q := Abs(l) / Abs(r);
    QuotientSize(Abs(l), Abs(r));
  }

  lemma QuotientSize(a: nat, b: nat)
    requires b > 0
    ensures 0 <= a / b <= a && (b > 1 && a > 0 ==> a / b < a)
  {
    var q := a / b;
    assert a == b * q + a % b;
    assert b * q == q + (b - 1) * q;
    if b > 1 && q >= 1 { assert (b - 1) * q >= q; }
  }

  // ---- Comparisons and logic ----

  // < is the order, > is < turned around, >= and <= are the complements, and
  // exactly one of <, == and > holds.  All of them give 0 or 1.
  lemma OrderLaws(l: int32, r: int32)
    ensures EvalOp(Lt, l, r) == 1 <==> exists d: int :: d > 0 && Shifted(l, d, r)
    ensures EvalOp(Gt, l, r) == EvalOp(Lt, r, l)
    ensures EvalOp(Ge, l, r) == 1 - EvalOp(Lt, l, r) && EvalOp(Le, l, r) == 1 - EvalOp(Gt, l, r)
    ensures EvalOp(Lt, l, r) + EvalOp(Eq, l, r) + EvalOp(Gt, l, r) == 1
    ensures EvalOp(Neq, l, r) == 1 - EvalOp(Eq, l, r)
    ensures EvalOp(Lt, l, r) in {0, 1} && EvalOp(Eq, l, r) in {0, 1} && EvalOp(Gt, l, r) in {0, 1}
    ensures EvalOp(Eq, l, r) == 1 <==> l == r
  {
    if l < r { assert Shifted(l, r - l, r); }
  }

  predicate Shifted(l: int32, d: int, r: int32) { l + d == r }

  // && and || look at nothing but whether their operands are 0.
  lemma LogicLaws(l: int32, r: int32)
    ensures EvalOp(And, l, r) == EvalOp(And, EvalOp(Neq, l, 0), EvalOp(Neq, r, 0))
    ensures EvalOp(Or, l, r) == EvalOp(Or, EvalOp(Neq, l, 0), EvalOp(Neq, r, 0))
    ensures EvalOp(And, l, r) == 0 <==> l == 0 || r == 0
    ensures EvalOp(Or, l, r) == 0 <==> l == 0 && r == 0
    ensures EvalOp(And, l, r) in {0, 1} && EvalOp(Or, l, r) in {0, 1}
  {
  }

  // ---- Shifts ----

  lemma ShiftStep(x: bv32, s: bv32)
    requires 0 < s < 32
    ensures x << s == (x << (s - 1)) << 1 && x >> s == B.Half(x >> (s - 1))
  {
  }

  function ShlOf(x: bv32, s: bv32): nat
    requires s < 32
  {
    B.Nat32(x << s)
  }

  function ShrOf(x: bv32, s: bv32): nat
    requires s < 32
  {
    B.Nat32(x >> s)
  }


  lemma Doubled(w: bv32)
    ensures B.Nat32(w << 1) == Low(2 * B.Nat32(w))
  {
    hide B.Nat32, Low;
    NatSum(w, w);
    TwiceItself(w);
  }

  lemma TwiceItself(w: bv32)
    ensures B.Nat32(w << 1) == SumOf(w, w)
  {
    hide B.Nat32;
  }

  lemma ShlNext(x: bv32, s: bv32)
    requires 0 < s < 32
    ensures ShlOf(x, s) == Low(2 * ShlOf(x, s - 1))
  {
    hide B.Nat32, Low;
    ShiftStep(x, s);
    Doubled(x << (s - 1));
  }

  lemma ShiftNone(x: bv32, s: bv32)
    requires s == 0
    ensures ShlOf(x, s) == B.Nat32(x) && ShrOf(x, s) == B.Nat32(x) && B.Nat32(s) == 0
  {
    hide B.NatOf;
    Full();
    NotShifted(x, s);
  }

  lemma NotShifted(x: bv32, s: bv32)
    requires s == 0
    ensures x << s == x && x >> s == x
  {
  }

  lemma {:induction false} ShlIs(x: bv32, s: bv32)
    requires s < 32
    ensures ShlOf(x, s) == Low(B.Nat32(x) * Pow2(B.Nat32(s)))
    decreases B.Nat32(s)
  {
    hide *;
    if s == 0 {
      ShiftNone(x, s);
      TimesOne(x);
    } else {
      NatBefore(s);
      ShlIs(x, s - 1);
      ShlNext(x, s);
      ShlGrows(B.Nat32(x), B.Nat32(s));
    }
  }

  lemma TimesOne(x: bv32)
    ensures Low(B.Nat32(x) * Pow2(0)) == B.Nat32(x)
  {
    hide B.NatOf;
    B.Nat32Bound(x);
  }

  lemma ShlGrows(n: nat, k: nat)
    requires k > 0
    ensures Low(2 * Low(n * Pow2(k - 1))) == Low(n * Pow2(k))
  {
    hide Low;
    assert n * Pow2(k) == 2 * (n * Pow2(k - 1));
    hide Pow2;
    LowSums(2, n * Pow2(k - 1));
    LowTwice(n * Pow2(k - 1));
  }

  lemma LowTwice(n: int)
    ensures Low(2 * Low(n)) == Low(2 * n)
  {
  }

  lemma HalfNat(w: bv32)
    ensures B.Nat32(B.Half(w)) == B.Nat32(w) / 2
  {
    hide B.Mask, B.And, B.Half;
    B.MaskValues();
    HalfIsShort(w);
    B.NatOfMasked(B.Half(w), 31, 32);
    NatStep(w, 32);
  }

  lemma HalfIsShort(w: bv32)
    ensures B.And(B.Half(w), 0x7FFF_FFFF) == B.Half(w)
  {
  }

  lemma ShrNext(x: bv32, s: bv32)
    requires 0 < s < 32
    ensures ShrOf(x, s) == ShrOf(x, s - 1) / 2
  {
    hide B.Nat32, B.Half;
    ShiftStep(x, s);
    HalfNat(x >> (s - 1));
  }

  lemma {:induction false} ShrIs(x: bv32, s: bv32)
    requires s < 32
    ensures ShrOf(x, s) == B.Nat32(x) / Pow2(B.Nat32(s))
    decreases B.Nat32(s)
  {
    hide *;
    if s == 0 {
      ShiftNone(x, s);
      OverOne(B.Nat32(x));
    } else {
      NatBefore(s);
      ShrIs(x, s - 1);
      ShrNext(x, s);
      HalfAgain(B.Nat32(x), B.Nat32(s));
    }
  }

  lemma OverOne(n: nat)
    ensures n / Pow2(0) == n
  {
  }

  lemma HalfAgain(n: nat, k: nat)
    requires k > 0
    ensures n / Pow2(k - 1) / 2 == n / Pow2(k)
  {
    assert Pow2(k) == 2 * Pow2(k - 1);
    hide Pow2;
    HalfQuotient(n, Pow2(k - 1));
  }

  lemma QuotientIs(n: int, p: nat, q: int, r: nat)
    requires n == p * q + r && r < p
    ensures n / p == q
  {
    B.Multiple(p, n / p - q) by {
      assert n == p * (n / p) + n % p;
      assert p * (n / p - q) == p * (n / p) - p * q;
    }
  }

  lemma HalfQuotient(n: nat, p: nat)
    requires p > 0
    ensures n / p / 2 == n / (2 * p)
  {
    var a := n / p;
    WholePart(n, p);
    assert a == 2 * (a / 2) + a % 2;
    HalfParts(p, a / 2, a % 2);
    QuotientIs(n, 2 * p, a / 2, p * (a % 2) + n % p);
  }

  lemma HalfParts(p: nat, q: nat, d: nat)
    requires d <= 1
    ensures p * (2 * q + d) == 2 * p * q + p * d && 0 <= p * d <= p
  {
    if d == 0 {} else {}
  }

  // The sign bit is copied from the left.
  function Sra(x: bv32, s: bv32): bv32
    requires s < 32
  {
    if x & 0x8000_0000 == 0 then x >> s else Not(Not(x) >> s)
  }

  lemma SignBit(x: bv32)
    ensures x & 0x8000_0000 == 0 <==> B.Nat32(x) < 0x8000_0000
  {
    hide B.NatOf, B.Mask, B.Pow2, B.And, B.Or;
    B.MaskValues();
    B.Pow2At31();
    TopParts();
    B.UpperBits(x, 31, 0x8000_0000);
    B.Nat32Bound(x);
    AndTop(x);
    ZeroIs();
    if B.IntOf(B.And(x, 0x8000_0000)) == 0 { B.IntInjective(B.And(x, 0x8000_0000), 0); }
  }

  lemma ZeroIs()
    ensures B.IntOf(0) == 0
  {
    hide B.NatOf;
    Full();
  }

  lemma TopParts()
    ensures B.And(0x7FFF_FFFF, 0x8000_0000) == 0 && B.Or(0x7FFF_FFFF, 0x8000_0000) == 0xFFFF_FFFF
  {
  }

  lemma AndTop(x: bv32)
    ensures B.And(x, 0x8000_0000) == x & 0x8000_0000
  {
  }

  function Not(x: bv32): bv32 { !x }

  lemma NotNat(x: bv32)
    ensures B.Nat32(Not(x)) == 0xFFFF_FFFF - B.Nat32(x)
  {
    hide B.Nat32, B.And, B.Or, Not;
    Full();
    NotParts(x);
    B.SumOfParts(0xFFFF_FFFF, x, Not(x));
  }

  lemma NotParts(x: bv32)
    ensures B.And(x, Not(x)) == 0 && B.Or(x, Not(x)) == 0xFFFF_FFFF
  {
  }

  lemma SraClear(x: bv32, s: bv32)
    requires s < 32 && x & 0x8000_0000 == 0
    ensures B.Nat32(Sra(x, s)) == ShrOf(x, s)
  {
    hide B.Nat32;
  }

  lemma SraSet(x: bv32, s: bv32)
    requires s < 32 && x & 0x8000_0000 != 0
    ensures B.Nat32(Sra(x, s)) == B.Nat32(Not(Not(x) >> s))
  {
    hide B.Nat32;
  }

  lemma NotShr(x: bv32, s: bv32)
    requires s < 32
    ensures B.Nat32(Not(x >> s)) == 0xFFFF_FFFF - ShrOf(x, s)
  {
    hide B.Nat32, Not;
    NotNat(x >> s);
  }

  lemma SraIs(x: bv32, s: bv32)
    requires s < 32
    ensures B.Nat32(x) < 0x8000_0000 ==> B.Nat32(Sra(x, s)) == ShrOf(x, s)
    ensures B.Nat32(x) >= 0x8000_0000 ==> B.Nat32(Sra(x, s)) == 0xFFFF_FFFF - ShrOf(Not(x), s)
  {
    hide *;
    SignBit(x);
    NotShr(Not(x), s);
    if B.Nat32(x) < 0x8000_0000 {
      SraClear(x, s);
    } else {
      SraSet(x, s);
    }
  }

  lemma CountFits(r: int)
    requires 0 <= r < 32
    ensures B.BvOf(r) < 32 && B.Nat32(B.BvOf(r)) == r
  {
    hide B.NatOf, B.Mask, B.Pow2, B.And, B.Or, B.BvOf;
    WordNat(r);
    B.MaskValues();
    B.Pow2Values();
    FiveParts();
    ZeroIs();
    var x := B.BvOf(r);
    B.UpperBits(x, 5, 0xFFFF_FFE0);
    B.IntInjective(B.And(x, 0xFFFF_FFE0), 0);
    BelowFive(x);
  }

  lemma FiveParts()
    ensures B.And(0x1F, 0xFFFF_FFE0) == 0 && B.Or(0x1F, 0xFFFF_FFE0) == 0xFFFF_FFFF
  {
  }

  lemma BelowFive(x: bv32)
    requires B.And(x, 0xFFFF_FFE0) == 0
    ensures x < 32
  {
  }

  function SignedShl(x: bv32, s: bv32): int
    requires s < 32
  {
    B.IntOf(x << s)
  }

  lemma SignedShlIs(x: bv32, s: bv32, n: int)
    requires s < 32 && ShlOf(x, s) == Low(n)
    ensures SignedShl(x, s) == Wrap(n)
  {
    hide B.Nat32, B.IntOf, Low, Wrap;
    SameWord(x << s, n);
  }

  // << and >> by 0 to 31 are the shifts of words, >> with copies of the sign.
  lemma ShiftsWords(l: int32, r: int32, s: bv32)
    requires 0 <= r < 32 && s == B.BvOf(r) && s < 32
    ensures EvalOp(Shl, l, r) == B.IntOf(B.BvOf(l) << s)
    ensures EvalOp(Shr, l, r) == B.IntOf(Sra(B.BvOf(l), s))
  {
    hide EvalOp, B.BvOf, B.IntOf, Sra;
    ShiftsLeft(l, r, s);
    ShiftsRight(l, r, s);
  }

  lemma ShiftsLeft(l: int32, r: int32, s: bv32)
    requires 0 <= r < 32 && s == B.BvOf(r) && s < 32
    ensures EvalOp(Shl, l, r) == SignedShl(B.BvOf(l), s)
  {
    hide *;
    CountFits(r);
    WordNat(l);
    ShlIs(B.BvOf(l), s);
    LowFactor(l, Pow2(r));
    SignedShlIs(B.BvOf(l), s, l * Pow2(r));
    ShiftWraps(l, r);
  }

  lemma LowFactor(a: int, b: int)
    ensures Low(Low(a) * b) == Low(a * b)
  {
    hide Low;
    var p := LowMultiple(a);
    LowOf(Low(a) * b, p * b, a * b) by {
      assert a * b == Low(a) * b + p * 0x1_0000_0000 * b;
    }
  }

  lemma ShiftWraps(l: int32, r: int32)
    requires 0 <= r < 32
    ensures EvalOp(Shl, l, r) == Wrap(l * Pow2(r)) && EvalOp(Shr, l, r) == Wrap(l / Pow2(r))
  {
    hide Wrap, Pow2;
  }

  lemma ShiftsRight(l: int32, r: int32, s: bv32)
    requires 0 <= r < 32 && s == B.BvOf(r) && s < 32
    ensures EvalOp(Shr, l, r) == B.IntOf(Sra(B.BvOf(l), s))
  {
    hide *;
    var x := B.BvOf(l);
    CountFits(r);
    WordNat(l);
    NotNat(x);
    ShrIs(x, s);
    ShrIs(Not(x), s);
    SraIs(x, s);
    ShiftWraps(l, r);
    FloorParts(l, Pow2(r));
    SameWord(Sra(x, s), l / Pow2(r));
  }

  // Shifting a negative number as its complement rounds down.
  lemma FloorParts(l: int32, p: nat)
    requires p > 0
    ensures l >= 0 ==> Low(l) < 0x8000_0000 && Low(l) / p == Low(l / p)
    ensures l < 0 ==> Low(l) >= 0x8000_0000 && 0xFFFF_FFFF - (0xFFFF_FFFF - Low(l)) / p == Low(l / p)
  {
    hide Low;
    LowOfInt(l);
    if l >= 0 {
      QuotientSize(l, p);
      LowOfInt(l / p);
    } else {
      var q := (-1 - l) / p;
      NegativeFloor(l, p);
      QuotientSize(-1 - l, p);
      LowOfInt(-1 - q);
      assert 0xFFFF_FFFF - Low(l) == -1 - l;
    }
  }

  lemma LowOfInt(n: int)
    requires -0x8000_0000 <= n < 0x8000_0000
    ensures Low(n) == if n >= 0 then n else n + 0x1_0000_0000
  {
  }

  lemma NegativeFloor(l: int, p: nat)
    requires p > 0 && l < 0
    ensures l / p == -1 - (-1 - l) / p
  {
    var a := -1 - l;
    WholePart(a, p);
    NegativeParts(p, a / p);
    QuotientIs(l, p, -1 - a / p, p - 1 - a % p);
  }

  lemma NegativeParts(p: nat, q: nat)
    ensures p * (-1 - q) + p + p * q == 0
  {
  }
}
