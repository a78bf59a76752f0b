// The numbers that 32-bit words stand for, digit by digit.
module BitNumbers {

  function Half(x: bv32): bv32 { x >> 1 }

  function And(x: bv32, y: bv32): bv32 { x & y }

  function Or(x: bv32, y: bv32): bv32 { x | y }

  predicate Odd(x: bv32) { x & 1 == 1 }

  function Digit(x: bv32): nat { if Odd(x) then 1 else 0 }

  // The number that the low k bits of x stand for.
  function NatOf(x: bv32, k: nat): nat {
    if k == 0 then 0 else 2 * NatOf(Half(x), k - 1) + Digit(x)
  }

  function Push(w: bv32, isOne: bool): bv32 { if isOne then (w << 1) | 1 else w << 1 }

  // The word whose low k bits are the low k binary digits of n.
  function WordOf(n: nat, k: nat): bv32 {
    if k == 0 then 0 else Push(WordOf(n / 2, k - 1), n % 2 == 1)
  }

  // The low k bits set.
  function Mask(k: nat): bv32 {
    if k == 0 then 0 else Push(Mask(k - 1), true)
  }

  function Pow2(k: nat): (p: nat)
    ensures p >= 1
  {
    if k == 0 then 1 else 2 * Pow2(k - 1)
  }

  // ---- One bit ----

  lemma HalfOfAnd(x: bv32, m: bv32)
    requires m & 0x8000_0000 == 0
    ensures Half(And(x, Push(m, true))) == And(Half(x), m) && (Odd(And(x, Push(m, true))) <==> Odd(x))
  {
  }

  lemma AndPush(v: bv32, m: bv32, isOne: bool)
    requires And(v, m) == v
    ensures And(Push(v, isOne), Push(m, true)) == Push(v, isOne)
  {
  }

  lemma HalfOfPush(w: bv32, isOne: bool)
    requires w & 0x8000_0000 == 0
    ensures Half(Push(w, isOne)) == w && (Odd(Push(w, isOne)) <==> isOne)
  {
  }

  lemma PushOfHalf(x: bv32, m: bv32)
    ensures Push(And(Half(x), m), Odd(x)) == And(x, Push(m, true))
  {
    hide Push, And, Half, Odd;
    if Odd(x) {
      OddPair(x, m);
    } else {
      EvenPair(x, m);
    }
  }

  lemma OddPair(x: bv32, m: bv32)
    requires Odd(x)
    ensures Push(And(Half(x), m), true) == And(x, Push(m, true))
  {
  }

  lemma EvenPair(x: bv32, m: bv32)
    requires !Odd(x)
    ensures Push(And(Half(x), m), false) == And(x, Push(m, true))
  {
  }

  lemma HalfOfOr(x: bv32, y: bv32)
    requires And(x, y) == 0
    ensures Half(Or(x, y)) == Or(Half(x), Half(y)) && And(Half(x), Half(y)) == 0
    ensures Digit(Or(x, y)) == Digit(x) + Digit(y)
  {
    HalvesJoin(x, y);
    HalvesDisjoint(x, y);
    OddOfOr(x, y);
    hide And, Or, Half, Odd;
  }

  lemma HalvesJoin(x: bv32, y: bv32)
    ensures Half(Or(x, y)) == Or(Half(x), Half(y))
  {
  }

  lemma HalvesDisjoint(x: bv32, y: bv32)
    requires And(x, y) == 0
    ensures And(Half(x), Half(y)) == 0
  {
  }

  lemma OddOfOr(x: bv32, y: bv32)
    requires And(x, y) == 0
    ensures Odd(Or(x, y)) <==> Odd(x) || Odd(y)
    ensures !(Odd(x) && Odd(y))
  {
  }

  // ---- Masks ----

  lemma {:induction false} SubMask(j: nat, k: nat)
    requires j <= k
    ensures And(Mask(j), Mask(k)) == Mask(j)
    decreases j
  {
    hide Push, Half, Odd, And;
    if j > 0 {
      SubMask(j - 1, k - 1);
      AndPush(Mask(j - 1), Mask(k - 1), true);
    } else {
      AndZero(Mask(k));
    }
  }

  lemma AndZero(x: bv32)
    ensures And(0, x) == 0 && And(x, 0) == 0
  {
  }

  lemma MaskValues()
    ensures Mask(3) == 7 && Mask(5) == 0x1F && Mask(11) == 0x7FF && Mask(12) == 0xFFF
    ensures Mask(31) == 0x7FFF_FFFF && Mask(32) == 0xFFFF_FFFF
  {
    assert Mask(3) == 7;
    assert Mask(5) == 0x1F;
    assert Mask(8) == 0xFF;
    assert Mask(11) == 0x7FF;
    assert Mask(12) == 0xFFF;
    assert Mask(16) == 0xFFFF;
    assert Mask(20) == 0xF_FFFF;
    assert Mask(24) == 0xFF_FFFF;
    assert Mask(28) == 0xFFF_FFFF;
    assert Mask(31) == 0x7FFF_FFFF;
  }

  lemma MaskTop(k: nat)
    requires k <= 31
    ensures Mask(k) & 0x8000_0000 == 0
  {
    SubMask(k, 31);
    MaskValues();
    BelowTop(Mask(k));
  }

  lemma BelowTop(x: bv32)
    requires x & 0x7FFF_FFFF == x
    ensures x & 0x8000_0000 == 0
  {
  }

  lemma Pow2Values()
    ensures Pow2(3) == 8 && Pow2(5) == 32 && Pow2(11) == 2048 && Pow2(12) == 4096 && Pow2(32) == 0x1_0000_0000
  {
    assert Pow2(8) == 256;
    assert Pow2(16) == 65536;
    assert Pow2(24) == 0x100_0000;
  }

  // ---- Numbers ----

  lemma {:induction false} NatBound(x: bv32, k: nat)
    ensures NatOf(x, k) < Pow2(k)
    decreases k
  {
    if k > 0 { NatBound(Half(x), k - 1); }
  }

  // Disjoint words add up.
  lemma {:induction false} NatOfOr(x: bv32, y: bv32, k: nat)
    requires And(x, y) == 0
    ensures NatOf(Or(x, y), k) == NatOf(x, k) + NatOf(y, k)
    decreases k
  {
    hide Digit, Half, Odd, And, Or;
    if k > 0 {
      HalfOfOr(x, y);
      NatOfOr(Half(x), Half(y), k - 1);
    }
  }

  // Masking keeps the low digits.
  lemma {:induction false} NatOfMasked(x: bv32, j: nat, k: nat)
    requires j <= k && j <= 32
    ensures NatOf(And(x, Mask(j)), k) == NatOf(x, j)
    decreases k
  {
    hide Push, Half, Odd, And;
    if j == 0 {
      AndZero(x);
      NatOfZero(And(x, Mask(0)), k);
    } else {
      MaskTop(j - 1);
      HalfOfAnd(x, Mask(j - 1));
      NatOfMasked(Half(x), j - 1, k - 1);
    }
  }

  lemma {:induction false} NatOfZero(x: bv32, k: nat)
    requires x == 0
    ensures NatOf(x, k) == 0
    decreases k
  {
    if k > 0 {
      assert Half(x) == 0 && !Odd(x);
      NatOfZero(Half(x), k - 1);
    }
  }

  // The digits above the low j count for multiples of 2^j.
  lemma {:induction false} NatOfSplit(x: bv32, j: nat, k: nat) returns (q: nat)
    requires j <= k
    ensures NatOf(x, k) == NatOf(x, j) + Pow2(j) * q
    decreases k
  {
    hide Digit, Half;
    if j > 0 {
      q := NatOfSplit(Half(x), j - 1, k - 1);
      assert 2 * (Pow2(j - 1) * q) == Pow2(j) * q;
    } else {
      q := NatOf(x, k);
    }
  }

  lemma {:induction false} NatOfMask(j: nat, k: nat)
    requires j <= k && j <= 32
    ensures NatOf(Mask(j), k) == Pow2(j) - 1
    decreases j
  {
    hide Push, Half, Odd, And;
    if j > 0 {
      MaskTop(j - 1);
      HalfOfPush(Mask(j - 1), true);
      NatOfMask(j - 1, k - 1);
    } else {
      NatOfZero(Mask(0), k);
    }
  }

  // ---- There and back ----

  lemma {:induction false} WordInMask(n: nat, k: nat)
    ensures And(WordOf(n, k), Mask(k)) == WordOf(n, k)
    decreases k
  {
    hide Push, Half, Odd, And;
    if k > 0 {
      WordInMask(n / 2, k - 1);
      AndPush(WordOf(n / 2, k - 1), Mask(k - 1), n % 2 == 1);
    } else {
      AndZero(Mask(0));
    }
  }

  lemma {:induction false} NatOfWord(n: nat, k: nat)
    requires k <= 32 && n < Pow2(k)
    ensures NatOf(WordOf(n, k), k) == n
    decreases k
  {
    hide Push, Half, Odd, And;
    if k > 0 {
      NatOfWord(n / 2, k - 1);
      WordInMask(n / 2, k - 1);
      MaskTop(k - 1);
      TopOfMasked(WordOf(n / 2, k - 1), Mask(k - 1));
      HalfOfPush(WordOf(n / 2, k - 1), n % 2 == 1);
    }
  }

  lemma TopOfMasked(w: bv32, m: bv32)
    requires And(w, m) == w && m & 0x8000_0000 == 0
    ensures w & 0x8000_0000 == 0
  {
  }

  lemma {:induction false} WordOfNat(x: bv32, k: nat)
    requires k <= 32
    ensures WordOf(NatOf(x, k), k) == And(x, Mask(k))
    decreases k
  {
    hide Push, Half, Odd, And;
    if k > 0 {
      WordOfNat(Half(x), k - 1);
      MaskTop(k - 1);
      PushOfHalf(x, Mask(k - 1));
    } else {
      AndZero(x);
    }
  }

  // ---- C ints ----

  function Nat32(x: bv32): nat { NatOf(x, 32) }

  // The number of a word in two's complement.
  function IntOf(x: bv32): int { if Nat32(x) < 0x8000_0000 then Nat32(x) else Nat32(x) - 0x1_0000_0000 }

  function BvOf(n: int): bv32 { WordOf(n % 0x1_0000_0000, 32) }

  lemma Nat32Bound(x: bv32)
    ensures Nat32(x) < 0x1_0000_0000
  {
    hide NatOf, Pow2;
    Pow2Values();
    NatBound(x, 32);
  }

  lemma IntRoundTrip(n: int)
    requires -0x8000_0000 <= n < 0x8000_0000
    ensures IntOf(BvOf(n)) == n
  {
    hide NatOf, WordOf, Pow2;
    Pow2Values();
    NatOfWord(n % 0x1_0000_0000, 32);
  }

  // Four bytes make up a word.
  lemma WordRoundTrip(x: bv32)
    ensures WordOf(Nat32(x), 32) == x
  {
    hide NatOf, WordOf, Mask;
    MaskValues();
    WordOfNat(x, 32);
    assert And(x, 0xFFFF_FFFF) == x;
  }

  // Disjoint parts of a word add up.
  lemma SumOfParts(x: bv32, a: bv32, b: bv32)
    requires And(a, b) == 0 && x == Or(a, b)
    ensures Nat32(x) == Nat32(a) + Nat32(b)
  {
    hide NatOf;
    NatOfOr(a, b, 32);
  }

  lemma {:induction false} Pow2Sum(j: nat, k: nat)
    ensures Pow2(j + k) == Pow2(j) * Pow2(k)
    decreases j
  {
    if j > 0 { Pow2Sum(j - 1, k); }
  }

  lemma AtLeast(p: nat, q: int, t: int)
    requires t <= q
    ensures p * t <= p * q
  {
  }

  lemma Multiple(p: nat, d: int)
    requires -(p as int) < p * d < p
    ensures d == 0
  {
    if d > 0 { AtLeast(p, d, 1); }
    if d < 0 { AtLeast(p, -1, d); }
  }

  lemma ModOf(p: nat, q: int, r: nat)
    requires r < p
    ensures (r + p * q) % p == r
  {
    var a := r + p * q;
    Multiple(p, a / p - q) by {
      assert a == p * (a / p) + a % p;
      assert p * (a / p - q) == p * (a / p) - p * q;
    }
    assert a / p == q;
    assert a == p * (a / p) + a % p;
  }

  // The low k bits ...
  lemma LowBits(x: bv32, k: nat)
    requires k <= 31
    ensures Nat32(And(x, Mask(k))) == Nat32(x) % Pow2(k) == IntOf(x) % Pow2(k)
  {
    hide NatOf, Mask, Pow2, And;
    Pow2Values();
    NatOfMasked(x, k, 32);
    NatBound(x, k);
    var q := NatOfSplit(x, k, 32);
    var p, r := Pow2(k), NatOf(x, k);
    ModOf(p, q, r);
    Pow2Sum(k, 32 - k);
    ModOf(p, q - Pow2(32 - k), r);
    assert p * (q - Pow2(32 - k)) == p * q - 0x1_0000_0000;
  }

  // ... and the others.
  lemma UpperBits(x: bv32, k: nat, m: bv32)
    requires k <= 31 && And(Mask(k), m) == 0 && Or(Mask(k), m) == 0xFFFF_FFFF
    ensures IntOf(And(x, m)) == IntOf(x) - IntOf(x) % Pow2(k)
  {
    hide Nat32, Mask, Pow2, And, Or;
    LowBits(x, k);
    TwoParts(x, Mask(k), m);
    SumOfParts(x, And(x, Mask(k)), And(x, m));
    Nat32Bound(x);
    TopStays(Nat32(x), k);
  }

  // Clearing low digits does not take a number below 2^31.
  lemma TopStays(n: nat, k: nat)
    requires k <= 31
    ensures n >= 0x8000_0000 ==> n - n % Pow2(k) >= 0x8000_0000
  {
    hide Pow2;
    Pow2Sum(k, 31 - k);
    Pow2At31();
    FullMultiples(n, Pow2(k), Pow2(31 - k));
  }

  lemma FullMultiples(n: nat, p: nat, t: nat)
    requires p > 0
    ensures n >= p * t ==> n - n % p >= p * t
  {
    var q := n / p;
    assert n == p * q + n % p;
    if n >= p * t && q < t {
      LessMultiple(p, q, t);
    }
    if q >= t { AtLeast(p, q, t); }
  }

  lemma LessMultiple(p: nat, q: int, t: int)
    requires q < t
    ensures p * q + p <= p * t
  {
    assert p * t == p * q + p * (t - q);
    AtLeast(p, t - q, 1);
  }

  lemma Pow2At31()
    ensures Pow2(31) == 0x8000_0000
  {
    assert Pow2(8) == 256;
    assert Pow2(16) == 65536;
    assert Pow2(24) == 0x100_0000;
  }

  lemma TwoParts(x: bv32, l: bv32, m: bv32)
    requires And(l, m) == 0 && Or(l, m) == 0xFFFF_FFFF
    ensures x == Or(And(x, l), And(x, m)) && And(And(x, l), And(x, m)) == 0
  {
  }

  lemma LowTwelve(x: bv32)
    ensures Nat32(And(x, 0xFFF)) == Nat32(x) % 4096 == IntOf(x) % 4096
  {
    hide Nat32, Mask, Pow2, And;
    MaskValues();
    Pow2Values();
    LowBits(x, 12);
  }

  lemma UpperTwenty(x: bv32)
    ensures IntOf(And(x, 0xFFFF_F000)) == IntOf(x) - IntOf(x) % 4096
  {
    hide Nat32, Mask, Pow2;
    MaskValues();
    Pow2Values();
    UpperBits(x, 12, 0xFFFF_F000);
  }

  // Different words stand for different numbers.
  lemma IntInjective(x: bv32, y: bv32)
    requires IntOf(x) == IntOf(y)
    ensures x == y
  {
    hide NatOf, WordOf;
    Nat32Bound(x);
    Nat32Bound(y);
    WordRoundTrip(x);
    WordRoundTrip(y);
  }

  lemma Constants()
    ensures Nat32(0x7FF) == 2047 && Nat32(0x800) == 2048 && Nat32(0xFFFF_F000) == 0x1_0000_0000 - 4096
  {
    hide NatOf, Mask, Pow2;
    MaskValues();
    Pow2Values();
    NatOfMask(11, 32);
    NatOfMask(12, 32);
    NatOfMask(32, 32);
    SumOfParts(0xFFF, 0x7FF, 0x800);
    SumOfParts(0xFFFF_FFFF, 0xFFF, 0xFFFF_F000);
  }

  // Bit 11 tells which half of the range a 12-bit field is in.
  lemma BitEleven(f: bv32)
    requires And(f, 0xFFF) == f
    ensures Nat32(f) < 4096 && (And(f, 0x800) == 0 <==> Nat32(f) < 2048)
  {
    hide Nat32, Mask, And, Or;
    LowTwelve(f);
    Constants();
    BelowEleven(f);
    ElevenParts(f);
    if And(f, 0x800) != 0 {
      SumOfParts(f, And(f, 0x7FF), 0x800);
    }
  }

  lemma BelowEleven(x: bv32)
    ensures Nat32(And(x, 0x7FF)) < 2048
  {
    hide NatOf, Mask, Pow2, And;
    MaskValues();
    Pow2Values();
    NatOfMasked(x, 11, 32);
    NatBound(x, 11);
  }

  lemma ElevenParts(f: bv32)
    requires And(f, 0xFFF) == f
    ensures And(f, 0x800) == 0 ==> And(f, 0x7FF) == f
    ensures And(f, 0x800) != 0 ==> f == Or(And(f, 0x7FF), 0x800)
    ensures And(And(f, 0x7FF), 0x800) == 0
  {
  }

  // Setting all upper bits subtracts 4096.
  lemma UpperOnes(f: bv32)
    requires And(f, 0xFFF) == f && And(f, 0x800) != 0
    ensures IntOf(Or(f, 0xFFFF_F000)) == Nat32(f) - 4096
  {
    hide Nat32, And, Or;
    BitEleven(f);
    Constants();
    UpperDisjoint(f);
    SumOfParts(Or(f, 0xFFFF_F000), f, 0xFFFF_F000);
  }

  lemma UpperDisjoint(f: bv32)
    requires And(f, 0xFFF) == f
    ensures And(f, 0xFFFF_F000) == 0
  {
  }
}
