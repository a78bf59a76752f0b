// A machine for the instructions that lib/back_end/risc_v.c emits: the integer
// registers and the byte memory of RV64I (RISC-V Unprivileged ISA, sections 2.4
// and 2.6, and the base integer instructions of RV64I).
module RiscVMachine {
  import opened Options
  import opened IrBinary

  const TWO_31: int := 0x8000_0000
  const TWO_32: int := 0x1_0000_0000
  const TWO_63: int := 0x8000_0000_0000_0000
  const TWO_64: int := 0x1_0000_0000_0000_0000

  type Reg = r: int | 0 <= r < 32

  type Memory = int -> byte

  // Immediates are the values that the fields of the word stand for: 12 bits
  // sign-extended, and for Lui the upper 20 bits in place.
  datatype Instr =
    | OpImm(funct3: nat, rd: Reg, rs1: Reg, imm: int)
    | OpImmW(funct3: nat, rd: Reg, rs1: Reg, imm: int)
    | Op(funct3: nat, rd: Reg, rs1: Reg, rs2: Reg)
    | OpW(funct3: nat, rd: Reg, rs1: Reg, rs2: Reg)
    | Lui(rd: Reg, upper: int)
    | Load(funct3: nat, rd: Reg, rs1: Reg, imm: int)
    | Store(funct3: nat, rs2: Reg, rs1: Reg, imm: int)

  datatype State = State(regs: seq<int>, mem: Memory) {
    ghost predicate Valid() {
      |regs| == 32 && forall r :: 0 <= r < 32 ==> 0 <= regs[r] < TWO_64
    }

    // x0 reads as zero whatever is written to it.
    function Get(r: Reg): (v: int)
      requires Valid()
      ensures 0 <= v < TWO_64
    {
      if r == 0 then 0 else regs[r]
    }

    function Set(r: Reg, v: int): (t: State)
      requires Valid()
      ensures t.Valid() && t.mem == mem
      ensures forall q: Reg :: t.Get(q) == if q == r && r != 0 then v % TWO_64 else Get(q)
    {
      this.(regs := regs[r := v % TWO_64])
    }
  }

  function Signed(v: int): int { if v < TWO_63 then v else v - TWO_64 }

  // The low 32 bits, sign-extended.
  function SextWord(v: int): int {
    var w := v % TWO_32;
    if w < TWO_31 then w else w - TWO_32
  }

  function SextHalf(v: int): int { if v < 0x8000 then v else v - 0x1_0000 }

  function SextByte(v: int): int { if v < 0x80 then v else v - 0x100 }

  function Flag(b: bool): int { if b then 1 else 0 }

  function Bitwise(funct3: nat, x: bv64, y: bv64): bv64 {
    if funct3 == 4 then x ^ y else if funct3 == 6 then x | y else x & y
  }

  // The operations that exist both with an immediate and with a register.
  function Alu(funct3: nat, x: int, y: int): Option<int>
    requires 0 <= x < TWO_64 && 0 <= y < TWO_64
  {
    if funct3 == 0 then Some(x + y)
    else if funct3 == 2 then Some(Flag(Signed(x) < Signed(y)))
    else if funct3 == 3 then Some(Flag(x < y))
    else if funct3 == 4 || funct3 == 6 || funct3 == 7 then Some(Bitwise(funct3, x as bv64, y as bv64) as int)
    else None
  }

  function AluW(funct3: nat, x: int, y: int): Option<int> {
    if funct3 == 0 then Some(SextWord(x + y)) else None
  }

  // ---- Memory, little-endian ----

  function LoadBytes(m: Memory, a: int, n: nat): (b: Bytes)
    ensures |b| == n
  {
    seq(n, i requires 0 <= i < n => m((a + i) % TWO_64))
  }

  function LoadValue(funct3: nat, m: Memory, a: int): Option<int> {
    if funct3 == 0 then Some(SextByte(FromLe(LoadBytes(m, a, 1))))
    else if funct3 == 1 then Some(SextHalf(FromLe(LoadBytes(m, a, 2))))
    else if funct3 == 2 then Some(SextWord(FromLe(LoadBytes(m, a, 4))))
    else if funct3 == 3 then Some(FromLe(LoadBytes(m, a, 8)))
    else if funct3 == 4 then Some(FromLe(LoadBytes(m, a, 1)))
    else if funct3 == 5 then Some(FromLe(LoadBytes(m, a, 2)))
    else if funct3 == 6 then Some(FromLe(LoadBytes(m, a, 4)))
    else None
  }

  function Double(m: Memory, a: int): int { FromLe(LoadBytes(m, a, 8)) }

  // The bytes b are written at a and above.
  function StoreBytes(m: Memory, a: int, b: Bytes): Memory {
    x => var k := (x - a) % TWO_64; if k < |b| then b[k] else m(x)
  }

  function StoreSize(funct3: nat): nat {
    if funct3 == 0 then 1 else if funct3 == 1 then 2 else if funct3 == 2 then 4 else 8
  }

  lemma LoadStored(m: Memory, a: int, v: int)
    requires 0 <= v < TWO_64
    ensures Double(StoreBytes(m, a, Le(v, 8)), a) == v
  {
    hide Le, FromLe;
    assert LoadBytes(StoreBytes(m, a, Le(v, 8)), a, 8) == Le(v, 8);
    U64RoundTrip(v);
  }

  lemma LoadBeside(m: Memory, a: int, b: Bytes, c: int)
    requires |b| <= 8 && 8 <= (c - a) % TWO_64 && 8 <= (a - c) % TWO_64
    ensures Double(StoreBytes(m, a, b), c) == Double(m, c)
  {
    hide Le, FromLe;
    assert LoadBytes(StoreBytes(m, a, b), c, 8) == LoadBytes(m, c, 8);
  }

  lemma LoadModulo(funct3: nat, m: Memory, a: int, b: int)
    requires a % TWO_64 == b % TWO_64
    ensures LoadValue(funct3, m, a) == LoadValue(funct3, m, b)
  {
    hide FromLe, SextByte, SextHalf, SextWord;
    SameBytes(m, a, b, 1);
    SameBytes(m, a, b, 2);
    SameBytes(m, a, b, 4);
    SameBytes(m, a, b, 8);
  }

  lemma Shifted(a: int, b: int, i: int)
    requires a % TWO_64 == b % TWO_64
    ensures (a + i) % TWO_64 == (b + i) % TWO_64
  {
  }

  lemma SameBytes(m: Memory, a: int, b: int, n: nat)
    requires a % TWO_64 == b % TWO_64
    ensures LoadBytes(m, a, n) == LoadBytes(m, b, n)
  {
    forall i | 0 <= i < n ensures LoadBytes(m, a, n)[i] == LoadBytes(m, b, n)[i] {
      Shifted(a, b, i);
    }
  }

  // The byte at the address is the low byte of whatever is loaded from there.
  lemma LoadLowByte(funct3: nat, m: Memory, a: int)
    requires funct3 <= 6
    ensures LoadValue(funct3, m, a).Some? && LoadValue(funct3, m, a).value % 256 == m(a % TWO_64)
  {
    LowByte(LoadBytes(m, a, 1));
    LowByte(LoadBytes(m, a, 2));
    LowByte(LoadBytes(m, a, 4));
    LowByte(LoadBytes(m, a, 8));
  }

  lemma LowByte(b: Bytes)
    requires b != []
    ensures FromLe(b) % 256 == b[0] && SextByte(FromLe(b)) % 256 == b[0]
    ensures SextHalf(FromLe(b)) % 256 == b[0] && SextWord(FromLe(b)) % 256 == b[0]
  {
    hide SextWord;
    WordLowByte(FromLe(b));
  }

  lemma WordLowByte(n: int)
    ensures SextWord(n) % 256 == n % 256
  {
    var w, q := n % TWO_32, n / TWO_32;
    assert n == w + 256 * (0x100_0000 * q);
    SameLowByte(w, 0x100_0000 * q);
    SameLowByte(w, -0x100_0000);
  }

  lemma SameLowByte(w: int, q: int)
    ensures (w + 256 * q) % 256 == w % 256
  {
    var r := w % 256;
    assert w + 256 * q == 256 * (w / 256 + q) + r;
  }

  // ---- Steps ----

  function WriteBack(s: State, rd: Reg, v: Option<int>): (t: Option<State>)
    requires s.Valid()
    ensures t.Some? ==> t.value.Valid()
  {
    if v.None? then None else Some(s.Set(rd, v.value))
  }

  // None for instructions outside of the model.
  function Exec(i: Instr, s: State): (t: Option<State>)
    requires s.Valid()
    ensures t.Some? ==> t.value.Valid()
  {
    match i
    case OpImm(f3, rd, rs1, imm) => WriteBack(s, rd, Alu(f3, s.Get(rs1), imm % TWO_64))
    case OpImmW(f3, rd, rs1, imm) => WriteBack(s, rd, AluW(f3, s.Get(rs1), imm))
    case Op(f3, rd, rs1, rs2) => WriteBack(s, rd, Alu(f3, s.Get(rs1), s.Get(rs2)))
    case OpW(f3, rd, rs1, rs2) => WriteBack(s, rd, AluW(f3, s.Get(rs1), s.Get(rs2)))
    case Lui(rd, upper) => Some(s.Set(rd, upper))
    case Load(f3, rd, rs1, imm) => WriteBack(s, rd, LoadValue(f3, s.mem, s.Get(rs1) + imm))
    case Store(f3, rs2, rs1, imm) =>
      if f3 > 3 then None
      else Some(s.(mem := StoreBytes(s.mem, s.Get(rs1) + imm, Le(s.Get(rs2), StoreSize(f3)))))
  }

  function Run(code: seq<Instr>, s: State): (t: Option<State>)
    requires s.Valid()
    ensures t.Some? ==> t.value.Valid()
  {
    if code == [] then Some(s)
    else
      var t := Exec(code[0], s);
      if t.None? then None else Run(code[1..], t.value)
  }

  lemma {:induction false} RunAppend(a: seq<Instr>, b: seq<Instr>, s: State)
    requires s.Valid()
    ensures Run(a + b, s) == if Run(a, s).None? then None else Run(b, Run(a, s).value)
    decreases |a|
  {
    hide Exec;
    if a == [] {
      assert a + b == b;
    } else {
      assert (a + b)[1..] == a[1..] + b;
      var t := Exec(a[0], s);
      if t.Some? { RunAppend(a[1..], b, t.value); }
    }
  }

  lemma RunOne(i: Instr, s: State)
    requires s.Valid()
    ensures Run([i], s) == Exec(i, s)
  {
    hide Exec;
    var t := Exec(i, s);
    assert [i][1..] == [];
    if t.Some? { assert Run([], t.value) == t; }
  }

  lemma RunTwo(i: Instr, j: Instr, s: State)
    requires s.Valid()
    ensures Run([i, j], s) == if Exec(i, s).None? then None else Exec(j, Exec(i, s).value)
  {
    hide Exec;
    assert [i, j] == [i] + [j];
    RunAppend([i], [j], s);
    RunOne(i, s);
    if Exec(i, s).Some? { RunOne(j, Exec(i, s).value); }
  }

  lemma RunThree(i: Instr, j: Instr, k: Instr, s: State)
    requires s.Valid() && Exec(i, s).Some? && Exec(j, Exec(i, s).value).Some?
    ensures Run([i, j, k], s) == Exec(k, Exec(j, Exec(i, s).value).value)
  {
    hide Exec;
    assert [i, j, k] == [i, j] + [k];
    RunAppend([i, j], [k], s);
    RunTwo(i, j, s);
    RunOne(k, Exec(j, Exec(i, s).value).value);
  }
}
