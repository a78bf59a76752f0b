// The 32-bit arithmetic of eval_ints() in lib/back_end/eval.c.
module Int32 {

  type int32 = x: int | -0x8000_0000 <= x < 0x8000_0000

  datatype BinOp =
    | And | Or | Xor | BitAnd | BitOr
    | Eq | Neq | Gt | Lt | Ge | Le
    | Shl | Shr | Plus | Minus | Star | Slash | Mod

  // Two's complement truncation to 32 bits.
  function Wrap(x: int): int32 {
    var r := x % 0x1_0000_0000;
    if r < 0x8000_0000 then r else r - 0x1_0000_0000
  }

  function Unsigned(x: int32): nat {
    if x < 0 then x + 0x1_0000_0000 else x
  }

  function AndBits(a: nat, b: nat): nat {
    if a == 0 || b == 0 then 0
    else 2 * AndBits(a / 2, b / 2) + if a % 2 == 1 && b % 2 == 1 then 1 else 0
  }

  function OrBits(a: nat, b: nat): nat {
    if a == 0 then b
    else if b == 0 then a
    else 2 * OrBits(a / 2, b / 2) + if a % 2 == 1 || b % 2 == 1 then 1 else 0
  }

  function XorBits(a: nat, b: nat): nat {
    if a == 0 then b
    else if b == 0 then a
    else 2 * XorBits(a / 2, b / 2) + if a % 2 != b % 2 then 1 else 0
  }

  function Pow2(n: nat): (p: nat)
    ensures p >= 1
  {
    if n == 0 then 1 else 2 * Pow2(n - 1)
  }

  function Flag(b: bool): int32 { if b then 1 else 0 }

  function Abs(x: int): nat { if x < 0 then -x else x }

  // Truncating division, as in C; division by zero is given the value 0.
  function Quotient(l: int32, r: int32): int {
    if r == 0 then 0
    else
      var q := Abs(l) / Abs(r);
      if (l < 0) == (r < 0) then q else -q
  }

  // Shift counts outside 0..31 are given the value 0.
  function EvalOp(op: BinOp, l: int32, r: int32): int32 {
    match op
    case And => Flag(l != 0 && r != 0)
    case Or => Flag(l != 0 || r != 0)
    case Xor => Wrap(XorBits(Unsigned(l), Unsigned(r)))
    case BitAnd => Wrap(AndBits(Unsigned(l), Unsigned(r)))
    case BitOr => Wrap(OrBits(Unsigned(l), Unsigned(r)))
    case Eq => Flag(l == r)
    case Neq => Flag(l != r)
    case Gt => Flag(l > r)
    case Lt => Flag(l < r)
    case Ge => Flag(l >= r)
    case Le => Flag(l <= r)
    case Shl => if 0 <= r < 32 then Wrap(l * Pow2(r)) else 0
    case Shr => if 0 <= r < 32 then Wrap(l / Pow2(r)) else 0
    case Plus => Wrap(l + r)
    case Minus => Wrap(l - r)
    case Star => Wrap(l * r)
    case Slash => Wrap(Quotient(l, r))
    case Mod => if r == 0 then 0 else Wrap(l - r * Quotient(l, r))
  }

  lemma WrapIdentity(x: int32)
    ensures Wrap(x) == x
  {
  }
}
