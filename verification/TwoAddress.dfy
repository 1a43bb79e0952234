/** Instruction selection for the two-address machine (common86-specific.h): the sequences for
    addition, subtraction, multiplication and division under every choice of registers. */
module TwoAddress {

  /** A 64-bit word as an unsigned integer; registers of a running machine are in range. */
  type W = int
  type Reg = r: int | 0 <= r < 16
  type Regs = s: seq<W> | |s| == 16 witness seq(16, _ => 0)

  const AX: Reg := 0
  const DX: Reg := 2
  const BX: Reg := 3

  predicate IsWord(x: W) {
    0 <= x < 0x1_0000_0000_0000_0000
  }

  function Wrap(x: int): W {
    x % 0x1_0000_0000_0000_0000
  }

  function Signed(x: W): int {
    if x < 0x8000_0000_0000_0000 then x else x - 0x1_0000_0000_0000_0000
  }

  /** Sign extension of the 32 bits an instruction has room for. */
  function Imm32(x: W): W {
    var low := x % 0x1_0000_0000;
    if low < 0x8000_0000 then low else low + 0xFFFF_FFFF_0000_0000
  }

  // ---------- the machine ----------

  datatype AluKind = ADD | SUB | AND | OR | XOR

  datatype Instr =
    | MovRR(d: Reg, s: Reg) | MovRI(d: Reg, v: W)
    | AluRR(k: AluKind, d: Reg, s: Reg) | AluRI(k: AluKind, d: Reg, imm: W) | Neg(d: Reg)
    | LeaBase(d: Reg, b: Reg, disp: W) | LeaIndex(d: Reg, b: Reg, i: Reg, shift: nat)
    | Shl(d: Reg, n: nat) | Sar(d: Reg, n: nat) | Shr(d: Reg, n: nat)
    | Mul(s: Reg, signed: bool) | Div(s: Reg, signed: bool) | DivTop(signed: bool) | Cqo
    | Push(s: Reg) | Pop(d: Reg) | DropTop

  datatype Cpu = Cpu(regs: Regs, stack: seq<W>, fault: bool)

  function Alu(k: AluKind, x: W, y: W): W {
    match k
    case ADD => Wrap(x + y)
    case SUB => Wrap(x - y)
    case _ => Bitwise(k, x, y, 64)
  }

  /** Bit by bit, from the lowest of n bits up. */
  function Bitwise(k: AluKind, x: W, y: W, n: nat): W
    decreases n
  {
    if n == 0 then 0 else Bit(k, x % 2 == 1, y % 2 == 1) + 2 * Bitwise(k, x / 2, y / 2, n - 1)
  }

  function Bit(k: AluKind, x: bool, y: bool): int {
    if (match k
        case AND => x && y
        case OR => x || y
        case _ => x != y) then 1 else 0
  }

  /** Bit i of a word, counted from the lowest. */
  predicate BitAt(x: W, i: nat) {
    x / Pow2(i) % 2 == 1
  }

  function Pow2(n: nat): (r: nat)
    ensures r > 0
  {
    if n == 0 then 1 else 2 * Pow2(n - 1)
  }

  function Abs(x: int): nat {
    if x < 0 then -x else x
  }

  /** Division that rounds towards zero. */
  function TruncDiv(n: int, d: int): int
    requires d != 0
  {
    var q := Abs(n) / Abs(d);
    if (n < 0) != (d < 0) then -q else q
  }

  function Product(x: W, y: W, signed: bool): int {
    if signed then Signed(x) * Signed(y) else x * y
  }

  /** The 128-bit dividend in DX:AX. */
  function Dividend(regs: Regs, signed: bool): int {
    (if signed then Signed(regs[DX]) else regs[DX]) * 0x1_0000_0000_0000_0000 + regs[AX]
  }

  function DoMul(c: Cpu, y: W, signed: bool): Cpu {
    var p := Product(c.regs[AX], y, signed);
    c.(regs := c.regs[AX := Wrap(p)][DX := Wrap(p / 0x1_0000_0000_0000_0000)])
  }

  /** Division truncates, and faults when the divisor is zero or the quotient does not fit. */
  function DoDiv(c: Cpu, y: W, signed: bool): Cpu {
    var n, d := Dividend(c.regs, signed), if signed then Signed(y) else y;
    if d == 0 then c.(fault := true)
    else
      var q := TruncDiv(n, d);
      if (if signed then -0x8000_0000_0000_0000 <= q < 0x8000_0000_0000_0000 else q < 0x1_0000_0000_0000_0000) then
        c.(regs := c.regs[AX := Wrap(q)][DX := Wrap(n - q * d)])
      else c.(fault := true)
  }

  function Step(i: Instr, c: Cpu): Cpu {
    if c.fault then c else
    match i
    case MovRR(d, s) => c.(regs := c.regs[d := c.regs[s]])
    case MovRI(d, v) => c.(regs := c.regs[d := v])
    case AluRR(k, d, s) => c.(regs := c.regs[d := Alu(k, c.regs[d], c.regs[s])])
    case AluRI(k, d, v) => c.(regs := c.regs[d := Alu(k, c.regs[d], Imm32(v))])
    case Neg(d) => c.(regs := c.regs[d := Wrap(-c.regs[d])])
    case LeaBase(d, b, disp) => c.(regs := c.regs[d := Wrap(c.regs[b] + Imm32(disp))])
    case LeaIndex(d, b, x, n) => c.(regs := c.regs[d := Wrap(c.regs[b] + c.regs[x] * Pow2(n))])
    case Shl(d, n) => c.(regs := c.regs[d := Wrap(c.regs[d] * Pow2(n))])
    case Sar(d, n) => c.(regs := c.regs[d := Wrap(Signed(c.regs[d]) / Pow2(n))])
    case Shr(d, n) => c.(regs := c.regs[d := c.regs[d] / Pow2(n)])
    case Mul(s, signed) => DoMul(c, c.regs[s], signed)
    case Div(s, signed) => DoDiv(c, c.regs[s], signed)
    case DivTop(signed) => if c.stack == [] then c.(fault := true) else DoDiv(c, c.stack[|c.stack| - 1], signed)
    case Cqo => c.(regs := c.regs[DX := if c.regs[AX] < 0x8000_0000_0000_0000 then 0 else 0xFFFF_FFFF_FFFF_FFFF])
    case Push(s) => c.(stack := c.stack + [c.regs[s]])
    case Pop(d) =>
      if c.stack == [] then c.(fault := true)
      else c.(regs := c.regs[d := c.stack[|c.stack| - 1]], stack := c.stack[..|c.stack| - 1])
    case DropTop => if c.stack == [] then c.(fault := true) else c.(stack := c.stack[..|c.stack| - 1])
  }

  function Exec(code: seq<Instr>, c: Cpu): Cpu {
    if code == [] then c else Exec(code[1..], Step(code[0], c))
  }

  lemma {:induction false} ExecConcat(a: seq<Instr>, b: seq<Instr>, c: Cpu)
    ensures Exec(a + b, c) == Exec(b, Exec(a, c))
  {
    if a == [] {
      assert a + b == b;
    } else {
      assert (a + b)[0] == a[0] && (a + b)[1..] == a[1..] + b;
      ExecConcat(a[1..], b, Step(a[0], c));
    }
  }

  lemma ExecOne(i: Instr, c: Cpu)
    ensures Exec([i], c) == Step(i, c)
  {
    assert [i][1..] == [];
  }

  lemma ExecTwo(i: Instr, j: Instr, c: Cpu)
    ensures Exec([i, j], c) == Step(j, Step(i, c))
  {
    assert [i, j][1..] == [j];
    ExecOne(j, Step(i, c));
  }

  /** The code leaves v in register d and changes nothing else. */
  ghost predicate Sets(code: seq<Instr>, c: Cpu, d: Reg, v: W) {
    Exec(code, c) == c.(regs := c.regs[d := v])
  }

  // ---------- addition, subtraction and the bitwise ops ----------

  function AluCode(k: AluKind, d: Reg, a: Reg, b: Reg): seq<Instr> {
    if d == a then [AluRR(k, d, b)]
    else if d == b then [AluRR(k, d, a)]
    else [MovRR(d, a), AluRR(k, d, b)]
  }

  function AluImmCode(k: AluKind, d: Reg, a: Reg, v: W): seq<Instr> {
    (if d != a then [MovRR(d, a)] else []) + [AluRI(k, d, v)]
  }

  lemma DivideTwice(x: nat, m: nat)
    requires m > 0
    ensures x / 2 / m == x / (2 * m)
  {
    var q := x / (2 * m);
    var r := x - q * (2 * m);
    assert x / 2 == q * m + r / 2 && 0 <= r / 2 < m;
    assert (q * m + r / 2) / m == q by { DivideSum(q, m, r / 2); }
  }

  lemma LessThanOnce(k: int, m: nat)
    requires k * m < m
    ensures k <= 0
  {
    if k >= 1 { MulMonotone(1, k, m); }
  }

  lemma DivideSum(q: nat, m: nat, r: nat)
    requires r < m
    ensures (q * m + r) / m == q
  {
    var n := q * m + r;
    var d := n / m;
    assert d * m <= n && n < d * m + m;
    assert (d - q) * m == d * m - q * m && (q - d) * m == q * m - d * m;
    LessThanOnce(d - q, m);
    LessThanOnce(q - d, m);
  }

  lemma HalfBit(x: nat, i: nat)
    ensures BitAt(x / 2, i) == BitAt(x, i + 1)
  {
    DivideTwice(x, Pow2(i));
  }

  /** AND, OR and XOR bit by bit. */
  lemma {:induction false} BitwiseBits(k: AluKind, x: nat, y: nat, n: nat, i: nat)
    requires i < n && k in {AND, OR, XOR}
    ensures Bitwise(k, x, y, n) >= 0
    ensures k == AND ==> BitAt(Bitwise(k, x, y, n), i) == (BitAt(x, i) && BitAt(y, i))
    ensures k == OR ==> BitAt(Bitwise(k, x, y, n), i) == (BitAt(x, i) || BitAt(y, i))
    ensures k == XOR ==> BitAt(Bitwise(k, x, y, n), i) == (BitAt(x, i) != BitAt(y, i))
    decreases n
  {
    var b, h := Bitwise(k, x, y, n), Bitwise(k, x / 2, y / 2, n - 1);
    BitwiseIsNat(k, x / 2, y / 2, n - 1);
    assert b / 2 == h && (b % 2 == 1) == (Bit(k, x % 2 == 1, y % 2 == 1) == 1);
    if i == 0 {
      assert Pow2(0) == 1;
    } else {
      BitwiseBits(k, x / 2, y / 2, n - 1, i - 1);
      HalfBit(x, i - 1);
      HalfBit(y, i - 1);
      HalfBit(b, i - 1);
    }
  }

  lemma {:induction false} BitwiseIsNat(k: AluKind, x: W, y: W, n: nat)
    ensures Bitwise(k, x, y, n) >= 0
    decreases n
  {
    if n > 0 { BitwiseIsNat(k, x / 2, y / 2, n - 1); }
  }

  lemma {:induction false} BitsCommute(k: AluKind, x: W, y: W, n: nat)
    ensures Bitwise(k, x, y, n) == Bitwise(k, y, x, n)
    decreases n
  {
    if n > 0 { BitsCommute(k, x / 2, y / 2, n - 1); }
  }

  lemma Commutes(k: AluKind, x: W, y: W)
    requires k != SUB
    ensures Alu(k, x, y) == Alu(k, y, x)
  {
    BitsCommute(k, x, y, 64);
  }

  /** emit_alu_op is right for the commutative operations whatever registers coincide. */
  lemma AluRight(k: AluKind, d: Reg, a: Reg, b: Reg, c: Cpu)
    requires k != SUB && !c.fault
    ensures Sets(AluCode(k, d, a, b), c, d, Alu(k, c.regs[a], c.regs[b]))
  {
    if d == a {
      ExecOne(AluRR(k, d, b), c);
    } else if d == b {
      Commutes(k, c.regs[a], c.regs[b]);
      ExecOne(AluRR(k, d, a), c);
    } else {
      ExecTwo(MovRR(d, a), AluRR(k, d, b), c);
    }
  }

  lemma AluImmRight(k: AluKind, d: Reg, a: Reg, v: W, c: Cpu)
    requires !c.fault && Imm32(v) == v
    ensures Sets(AluImmCode(k, d, a, v), c, d, Alu(k, c.regs[a], v))
  {
    if d == a {
      assert AluImmCode(k, d, a, v) == [AluRI(k, d, v)];
      ExecOne(AluRI(k, d, v), c);
    } else {
      assert AluImmCode(k, d, a, v) == [MovRR(d, a), AluRI(k, d, v)];
      ExecTwo(MovRR(d, a), AluRI(k, d, v), c);
    }
  }

  /** JIT_ADD: the address unit when the destination is a third register. */
  function AddCode(d: Reg, a: Reg, b: Reg): seq<Instr> {
    if d != a && d != b then [LeaIndex(d, a, b, 0)] else AluCode(ADD, d, a, b)
  }

  /** The guard compares the destination with the immediate as if it were a register. */
  function AddImmCode(d: Reg, a: Reg, v: W): seq<Instr> {
    if d != a && d != v then [LeaBase(d, a, v)] else AluImmCode(ADD, d, a, v)
  }

  lemma AddRight(d: Reg, a: Reg, b: Reg, c: Cpu)
    requires !c.fault
    ensures Sets(AddCode(d, a, b), c, d, Wrap(c.regs[a] + c.regs[b]))
  {
    if d != a && d != b {
      ExecOne(LeaIndex(d, a, b, 0), c);
    } else {
      AluRight(ADD, d, a, b, c);
    }
  }

  lemma AddImmRight(d: Reg, a: Reg, v: W, c: Cpu)
    requires !c.fault && Imm32(v) == v
    ensures Sets(AddImmCode(d, a, v), c, d, Wrap(c.regs[a] + v))
  {
    if d != a && d != v {
      ExecOne(LeaBase(d, a, v), c);
    } else {
      AluImmRight(ADD, d, a, v, c);
    }
  }

  function SubCode(d: Reg, a: Reg, b: Reg): seq<Instr> {
    if d == a then [AluRR(SUB, d, b)]
    else if d == b then [AluRR(SUB, d, a), Neg(d)]
    else [MovRR(d, a), AluRR(SUB, d, b)]
  }

  function SubImmCode(d: Reg, a: Reg, v: W): seq<Instr> {
    if d != a then [LeaBase(d, a, Wrap(-v))] else [AluRI(SUB, d, v)]
  }

  lemma NegDifference(x: W, y: W)
    ensures Wrap(-Wrap(x - y)) == Wrap(y - x)
  {
    var k := (x - y) / 0x1_0000_0000_0000_0000;
    assert Wrap(x - y) == x - y - k * 0x1_0000_0000_0000_0000;
    assert (y - x + k * 0x1_0000_0000_0000_0000) % 0x1_0000_0000_0000_0000 == (y - x) % 0x1_0000_0000_0000_0000;
  }

  /** emit_sub_op, also when the destination is the subtrahend. */
  lemma SubRight(d: Reg, a: Reg, b: Reg, c: Cpu)
    requires !c.fault
    ensures Sets(SubCode(d, a, b), c, d, Wrap(c.regs[a] - c.regs[b]))
  {
    if d == a {
      ExecOne(AluRR(SUB, d, b), c);
    } else if d == b {
      ExecTwo(AluRR(SUB, d, a), Neg(d), c);
      NegDifference(c.regs[b], c.regs[a]);
    } else {
      ExecTwo(MovRR(d, a), AluRR(SUB, d, b), c);
    }
  }

  /** The one immediate whose negative does not fit 32 bits. */
  const MIN32: W := 0xFFFF_FFFF_8000_0000

  lemma NegatedImm(x: W, v: W)
    requires Imm32(v) == v
    ensures Wrap(x + Imm32(Wrap(-v))) == Wrap(x - v) <==> v != MIN32
  {
    if v != MIN32 {
      assert Imm32(Wrap(-v)) == Wrap(-v);
      var k := (-v) / 0x1_0000_0000_0000_0000;
      assert Wrap(-v) == -v - k * 0x1_0000_0000_0000_0000;
      assert (x - v - k * 0x1_0000_0000_0000_0000) % 0x1_0000_0000_0000_0000 == (x - v) % 0x1_0000_0000_0000_0000;
    }
  }

  /** emit_sub_op with an immediate that fits is right exactly when the destination is the minuend
      or the immediate is not the least 32-bit number: its negative is put in a displacement. */
  lemma SubImmExactly(d: Reg, a: Reg, v: W, c: Cpu)
    requires !c.fault && Imm32(v) == v
    ensures Sets(SubImmCode(d, a, v), c, d, Wrap(c.regs[a] - v)) <==> d == a || v != MIN32
  {
    if d != a {
      ExecOne(LeaBase(d, a, Wrap(-v)), c);
      NegatedImm(c.regs[a], v);
      assert c.regs[d := Wrap(c.regs[a] + Imm32(Wrap(-v)))][d] == Wrap(c.regs[a] + Imm32(Wrap(-v)));
      assert c.regs[d := Wrap(c.regs[a] - v)][d] == Wrap(c.regs[a] - v);
    } else {
      ExecOne(AluRI(SUB, d, v), c);
    }
  }

  function RsbCode(d: Reg, a: Reg, b: Reg): seq<Instr> {
    if d == a then [AluRR(SUB, d, b), Neg(d)]
    else if d == b then [AluRR(SUB, d, a)]
    else [MovRR(d, b), AluRR(SUB, d, a)]
  }

  function RsbImmCode(d: Reg, a: Reg, v: W): seq<Instr> {
    [if d == a then AluRI(ADD, d, Wrap(-v)) else LeaBase(d, a, Wrap(-v)), Neg(d)]
  }

  lemma RsbRight(d: Reg, a: Reg, b: Reg, c: Cpu)
    requires !c.fault
    ensures Sets(RsbCode(d, a, b), c, d, Wrap(c.regs[b] - c.regs[a]))
  {
    if d == a {
      ExecTwo(AluRR(SUB, d, b), Neg(d), c);
      NegDifference(c.regs[a], c.regs[b]);
    } else if d == b {
      ExecOne(AluRR(SUB, d, a), c);
    } else {
      ExecTwo(MovRR(d, b), AluRR(SUB, d, a), c);
    }
  }

  /** emit_rsb_op with an immediate negates it in either case, so the least number is always wrong. */
  lemma RsbImmExactly(d: Reg, a: Reg, v: W, c: Cpu)
    requires !c.fault && Imm32(v) == v
    ensures Sets(RsbImmCode(d, a, v), c, d, Wrap(v - c.regs[a])) <==> v != MIN32
  {
    var x, y := c.regs[a], Wrap(c.regs[a] + Imm32(Wrap(-v)));
    ExecTwo(if d == a then AluRI(ADD, d, Wrap(-v)) else LeaBase(d, a, Wrap(-v)), Neg(d), c);
    NegatedImm(x, v);
    NegDifference(x, v);
    NegInjective(y, Wrap(x - v));
    assert c.regs[d := Wrap(-y)][d] == Wrap(-y) && c.regs[d := Wrap(v - x)][d] == Wrap(v - x);
  }

  lemma NegInjective(x: W, y: W)
    requires IsWord(x) && IsWord(y)
    ensures Wrap(-x) == Wrap(-y) <==> x == y
  {
  }

  // ---------- saving AX and DX ----------

  function PushIf(p: bool, r: Reg): seq<Instr> {
    if p then [Push(r)] else []
  }

  function PopIf(p: bool, r: Reg): seq<Instr> {
    if p then [Pop(r)] else []
  }

  function MoveIf(d: Reg, s: Reg): seq<Instr> {
    if d != s then [MovRR(d, s)] else []
  }

  /** AX and DX are put on the stack around the core unless they are the destination or unused. */
  function Guarded(d: Reg, axInUse: bool, dxInUse: bool, core: seq<Instr>): seq<Instr> {
    PushIf(d != AX && axInUse, AX) + PushIf(d != DX && dxInUse, DX) + core
    + PopIf(d != DX && dxInUse, DX) + PopIf(d != AX && axInUse, AX)
  }

  ghost predicate Other(r: Reg, d: Reg) {
    r != d && r != AX && r != DX
  }

  /** The core leaves v in d, keeps the stack and all registers but AX and DX. */
  ghost predicate Computes(core: seq<Instr>, c: Cpu, d: Reg, v: W) {
    var e := Exec(core, c);
    && !e.fault && e.stack == c.stack && e.regs[d] == v
    && forall r: Reg | Other(r, d) :: e.regs[r] == c.regs[r]
  }

  /** v in d; the stack and every register in use as before. */
  ghost predicate Delivers(code: seq<Instr>, c: Cpu, d: Reg, v: W, axInUse: bool, dxInUse: bool) {
    var e := Exec(code, c);
    && !e.fault && e.stack == c.stack && e.regs[d] == v
    && (forall r: Reg | Other(r, d) :: e.regs[r] == c.regs[r])
    && (AX != d && axInUse ==> e.regs[AX] == c.regs[AX])
    && (DX != d && dxInUse ==> e.regs[DX] == c.regs[DX])
  }

  function Pushed(c: Cpu, d: Reg, axInUse: bool, dxInUse: bool): Cpu {
    c.(stack := c.stack + (if d != AX && axInUse then [c.regs[AX]] else [])
                        + (if d != DX && dxInUse then [c.regs[DX]] else []))
  }

  lemma PushIfRuns(p: bool, r: Reg, c: Cpu)
    requires !c.fault
    ensures Exec(PushIf(p, r), c) == c.(stack := c.stack + if p then [c.regs[r]] else [])
  {
    if p { ExecOne(Push(r), c); }
  }

  lemma PushesRun(c: Cpu, d: Reg, axInUse: bool, dxInUse: bool)
    requires !c.fault
    ensures Exec(PushIf(d != AX && axInUse, AX) + PushIf(d != DX && dxInUse, DX), c) == Pushed(c, d, axInUse, dxInUse)
  {
    var a, b := PushIf(d != AX && axInUse, AX), PushIf(d != DX && dxInUse, DX);
    ExecConcat(a, b, c);
    PushIfRuns(d != AX && axInUse, AX, c);
    PushIfRuns(d != DX && dxInUse, DX, Exec(a, c));
  }

  lemma PopsRun(c: Cpu, e: Cpu, d: Reg, axInUse: bool, dxInUse: bool)
    requires !e.fault && e.stack == Pushed(c, d, axInUse, dxInUse).stack
    ensures var f := Exec(PopIf(d != DX && dxInUse, DX) + PopIf(d != AX && axInUse, AX), e);
      && !f.fault && f.stack == c.stack
      && (forall r: Reg | (r != AX && r != DX) || r == d :: f.regs[r] == e.regs[r])
      && (AX != d && axInUse ==> f.regs[AX] == c.regs[AX])
      && (DX != d && dxInUse ==> f.regs[DX] == c.regs[DX])
  {
    var a, b := PopIf(d != DX && dxInUse, DX), PopIf(d != AX && axInUse, AX);
    ExecConcat(a, b, e);
    ExecOne(Pop(DX), e);
    ExecOne(Pop(AX), Exec(a, e));
  }

  /** Whatever the core does between them, the pushes and pops balance and restore. */
  lemma GuardedRight(d: Reg, axInUse: bool, dxInUse: bool, core: seq<Instr>, c: Cpu, v: W)
    requires !c.fault && Computes(core, Pushed(c, d, axInUse, dxInUse), d, v)
    ensures Delivers(Guarded(d, axInUse, dxInUse, core), c, d, v, axInUse, dxInUse)
  {
    var pre := PushIf(d != AX && axInUse, AX) + PushIf(d != DX && dxInUse, DX);
    var post := PopIf(d != DX && dxInUse, DX) + PopIf(d != AX && axInUse, AX);
    assert Guarded(d, axInUse, dxInUse, core) == pre + core + post;
    ExecConcat(pre + core, post, c);
    ExecConcat(pre, core, c);
    PushesRun(c, d, axInUse, dxInUse);
    PopsRun(c, Exec(core, Pushed(c, d, axInUse, dxInUse)), d, axInUse, dxInUse);
  }

  lemma {:induction false} FaultStays(code: seq<Instr>, c: Cpu)
    requires c.fault
    ensures Exec(code, c) == c
  {
    if code != [] { FaultStays(code[1..], c); }
  }

  lemma GuardedFaults(d: Reg, axInUse: bool, dxInUse: bool, core: seq<Instr>, c: Cpu)
    requires !c.fault && Exec(core, Pushed(c, d, axInUse, dxInUse)).fault
    ensures Exec(Guarded(d, axInUse, dxInUse, core), c).fault
  {
    var pre := PushIf(d != AX && axInUse, AX) + PushIf(d != DX && dxInUse, DX);
    var post := PopIf(d != DX && dxInUse, DX) + PopIf(d != AX && axInUse, AX);
    assert Guarded(d, axInUse, dxInUse, core) == pre + core + post;
    ExecConcat(pre + core, post, c);
    ExecConcat(pre, core, c);
    PushesRun(c, d, axInUse, dxInUse);
    FaultStays(post, Exec(core, Pushed(c, d, axInUse, dxInUse)));
  }

  // ---------- multiplication ----------

  function MulCore(d: Reg, a: Reg, b: Reg, signed: bool, high: bool): seq<Instr> {
    MulSteps(a, b, signed) + MoveIf(d, if high then DX else AX)
  }

  function MulSteps(a: Reg, b: Reg, signed: bool): seq<Instr> {
    if a == AX then [Mul(b, signed)]
    else if b == AX then [Mul(a, signed)]
    else [MovRR(AX, a), Mul(b, signed)]
  }

  function MulImmCore(d: Reg, a: Reg, v: W, signed: bool, high: bool): seq<Instr> {
    MulImmSteps(a, v, signed) + MoveIf(d, if high then DX else AX)
  }

  function MulImmSteps(a: Reg, v: W, signed: bool): seq<Instr> {
    MoveIf(AX, a) + [MovRI(DX, v), Mul(DX, signed)]
  }

  function MulCode(d: Reg, a: Reg, b: Reg, signed: bool, high: bool, axInUse: bool, dxInUse: bool): seq<Instr> {
    Guarded(d, axInUse, dxInUse, MulCore(d, a, b, signed, high))
  }

  /** The shortcuts by shift and address unit, and the general case. */
  function MulImmCode(d: Reg, a: Reg, v: W, signed: bool, high: bool, axInUse: bool, dxInUse: bool): seq<Instr> {
    if !high && v == 2 then (if a == d then [Shl(d, 1)] else [LeaIndex(d, a, a, 0)])
    else if !high && v == 3 then [LeaIndex(d, a, a, 1)]
    else if !high && v == 4 then MoveIf(d, a) + [Shl(d, 2)]
    else if !high && v == 5 then [LeaIndex(d, a, a, 2)]
    else if !high && v == 8 then MoveIf(d, a) + [Shl(d, 3)]
    else if !high && v == 9 then [LeaIndex(d, a, a, 3)]
    else Guarded(d, axInUse, dxInUse, MulImmCore(d, a, v, signed, high))
  }

  function MulResult(x: W, y: W, signed: bool, high: bool): W {
    Wrap(if high then Product(x, y, signed) / 0x1_0000_0000_0000_0000 else Product(x, y, signed))
  }

  /** The two halves together are the product, of words or of signed words. */
  lemma HalvesAreProduct(x: W, y: W, signed: bool)
    requires IsWord(x) && IsWord(y)
    ensures var h, l := MulResult(x, y, signed, true), MulResult(x, y, signed, false);
      && IsWord(h) && IsWord(l)
      && (if signed then Signed(h) * 0x1_0000_0000_0000_0000 + l == Signed(x) * Signed(y)
          else h * 0x1_0000_0000_0000_0000 + l == x * y)
  {
    if signed {
      SignedProductFits(Signed(x), Signed(y));
      SignedHalves(Signed(x) * Signed(y));
    } else {
      ProductFits(x, y);
      UnsignedHalves(x * y);
    }
  }

  lemma SignedHalves(p: int)
    requires -0x8000_0000_0000_0000 <= p / 0x1_0000_0000_0000_0000 < 0x8000_0000_0000_0000
    ensures Signed(Wrap(p / 0x1_0000_0000_0000_0000)) * 0x1_0000_0000_0000_0000 + Wrap(p) == p
  {
  }

  lemma UnsignedHalves(p: int)
    requires 0 <= p / 0x1_0000_0000_0000_0000 < 0x1_0000_0000_0000_0000
    ensures Wrap(p / 0x1_0000_0000_0000_0000) * 0x1_0000_0000_0000_0000 + Wrap(p) == p
  {
  }

  lemma ProductFits(x: W, y: W)
    requires IsWord(x) && IsWord(y)
    ensures 0 <= x * y < 0x1_0000_0000_0000_0000 * 0x1_0000_0000_0000_0000
    ensures 0 <= x * y / 0x1_0000_0000_0000_0000 < 0x1_0000_0000_0000_0000
  {
    MulMonotone(x, 0xFFFF_FFFF_FFFF_FFFF, y);
    MulMonotone(y, 0xFFFF_FFFF_FFFF_FFFF, 0xFFFF_FFFF_FFFF_FFFF);
  }

  lemma SignedProductFits(a: int, b: int)
    requires -0x8000_0000_0000_0000 <= a < 0x8000_0000_0000_0000 && -0x8000_0000_0000_0000 <= b < 0x8000_0000_0000_0000
    ensures -0x8000_0000_0000_0000 <= a * b / 0x1_0000_0000_0000_0000 < 0x8000_0000_0000_0000
  {
    var m := 0x8000_0000_0000_0000;
    MulMonotone(Abs(a), m, Abs(b));
    MulMonotone(Abs(b), m, m);
    assert Abs(a) * Abs(b) == Abs(a * b) by { AbsProduct(a, b); }
    assert -m * m <= a * b <= m * m;
  }

  lemma AbsProduct(a: int, b: int)
    ensures Abs(a) * Abs(b) == Abs(a * b)
  {
    assert a >= 0 && b >= 0 ==> a * b >= 0;
    assert a < 0 && b < 0 ==> a * b == (-a) * (-b) && a * b >= 0;
    assert a >= 0 && b < 0 ==> a * b == -(a * (-b)) && a * b <= 0;
    assert a < 0 && b >= 0 ==> a * b == -((-a) * b) && a * b <= 0;
  }

  /** The low half does not depend on the sign. */
  lemma LowProduct(x: W, y: W, signed: bool)
    requires IsWord(x) && IsWord(y)
    ensures MulResult(x, y, signed, false) == Wrap(x * y)
  {
    var W64 := 0x1_0000_0000_0000_0000;
    if signed {
      var i, j := if Signed(x) < 0 then 1 else 0, if Signed(y) < 0 then 1 else 0;
      assert Signed(x) == x - i * W64 && Signed(y) == y - j * W64;
      assert Signed(x) * Signed(y)
        == x * y - (if j == 1 then x else 0) * W64 - (if i == 1 then y else 0) * W64 + i * j * W64 * W64;
      WrapMultiple(x * y, -(if j == 1 then x else 0) - (if i == 1 then y else 0) + i * j * W64);
    }
  }

  lemma WrapMultiple(x: int, k: int)
    ensures Wrap(x + k * 0x1_0000_0000_0000_0000) == Wrap(x)
  {
  }

  lemma MoveRuns(d: Reg, s: Reg, c: Cpu)
    requires !c.fault
    ensures Exec(MoveIf(d, s), c) == c.(regs := c.regs[d := c.regs[s]])
  {
    ExecOne(MovRR(d, s), c);
    assert c.regs[s := c.regs[s]] == c.regs;
  }

  lemma MulStepsRun(a: Reg, b: Reg, signed: bool, c: Cpu)
    requires !c.fault
    ensures var e, p := Exec(MulSteps(a, b, signed), c), Product(c.regs[a], c.regs[b], signed);
      && !e.fault && e.stack == c.stack && e.regs[AX] == Wrap(p) && e.regs[DX] == Wrap(p / 0x1_0000_0000_0000_0000)
      && forall r: Reg | r != AX && r != DX :: e.regs[r] == c.regs[r]
  {
    if a == AX {
      ExecOne(Mul(b, signed), c);
    } else if b == AX {
      ExecOne(Mul(a, signed), c);
      assert Product(c.regs[a], c.regs[b], signed) == Product(c.regs[b], c.regs[a], signed);
    } else {
      ExecTwo(MovRR(AX, a), Mul(b, signed), c);
    }
  }

  lemma MulCoreRight(d: Reg, a: Reg, b: Reg, signed: bool, high: bool, c: Cpu)
    requires !c.fault
    ensures Computes(MulCore(d, a, b, signed, high), c, d, MulResult(c.regs[a], c.regs[b], signed, high))
  {
    var code := MulSteps(a, b, signed);
    MulStepsRun(a, b, signed, c);
    ExecConcat(code, MoveIf(d, if high then DX else AX), c);
    MoveRuns(d, if high then DX else AX, Exec(code, c));
  }

  /** emit_mul_op is right for every choice of registers, AX and DX among them. */
  lemma MulRight(d: Reg, a: Reg, b: Reg, signed: bool, high: bool, axInUse: bool, dxInUse: bool, c: Cpu)
    requires !c.fault
    ensures Delivers(MulCode(d, a, b, signed, high, axInUse, dxInUse), c, d,
                     MulResult(c.regs[a], c.regs[b], signed, high), axInUse, dxInUse)
  {
    MulCoreRight(d, a, b, signed, high, Pushed(c, d, axInUse, dxInUse));
    GuardedRight(d, axInUse, dxInUse, MulCore(d, a, b, signed, high), c, MulResult(c.regs[a], c.regs[b], signed, high));
  }

  lemma MulImmCoreRight(d: Reg, a: Reg, v: W, signed: bool, high: bool, c: Cpu)
    requires !c.fault
    ensures Computes(MulImmCore(d, a, v, signed, high), c, d, MulResult(c.regs[a], v, signed, high))
  {
    var mul, last := [MovRI(DX, v), Mul(DX, signed)], MoveIf(d, if high then DX else AX);
    ExecConcat(MoveIf(AX, a) + mul, last, c);
    ExecConcat(MoveIf(AX, a), mul, c);
    MoveRuns(AX, a, c);
    ExecTwo(MovRI(DX, v), Mul(DX, signed), Exec(MoveIf(AX, a), c));
    MoveRuns(d, if high then DX else AX, Exec(MoveIf(AX, a) + mul, c));
  }

  lemma SetsDelivers(code: seq<Instr>, c: Cpu, d: Reg, v: W, axInUse: bool, dxInUse: bool)
    requires !c.fault && Sets(code, c, d, v)
    ensures Delivers(code, c, d, v, axInUse, dxInUse)
  {
  }

  lemma ShiftRuns(d: Reg, a: Reg, n: nat, c: Cpu)
    requires !c.fault
    ensures Sets(MoveIf(d, a) + [Shl(d, n)], c, d, Wrap(c.regs[a] * Pow2(n)))
  {
    ExecConcat(MoveIf(d, a), [Shl(d, n)], c);
    MoveRuns(d, a, c);
    ExecOne(Shl(d, n), Exec(MoveIf(d, a), c));
  }

  lemma LeaRuns(d: Reg, a: Reg, n: nat, c: Cpu)
    requires !c.fault
    ensures Sets([LeaIndex(d, a, a, n)], c, d, Wrap(c.regs[a] + c.regs[a] * Pow2(n)))
  {
    ExecOne(LeaIndex(d, a, a, n), c);
  }

  lemma SmallPowers()
    ensures Pow2(0) == 1 && Pow2(1) == 2 && Pow2(2) == 4 && Pow2(3) == 8
  {
    assert Pow2(0) == 1 && Pow2(1) == 2 && Pow2(2) == 4;
  }

  predicate Shortcut(v: W, high: bool) {
    !high && v in {2, 3, 4, 5, 8, 9}
  }

  lemma ShortcutRight(d: Reg, a: Reg, v: W, signed: bool, axInUse: bool, dxInUse: bool, c: Cpu)
    requires !c.fault && Shortcut(v, false)
    ensures Sets(MulImmCode(d, a, v, signed, false, axInUse, dxInUse), c, d, Wrap(c.regs[a] * v))
  {
    SmallPowers();
    if v == 2 {
      if a == d {
        assert MoveIf(d, a) + [Shl(d, 1)] == [Shl(d, 1)];
        ShiftRuns(d, a, 1, c);
      } else {
        LeaRuns(d, a, 0, c);
      }
    } else if v == 4 {
      ShiftRuns(d, a, 2, c);
    } else if v == 8 {
      ShiftRuns(d, a, 3, c);
    } else {
      LeaRuns(d, a, if v == 3 then 1 else if v == 5 then 2 else 3, c);
    }
  }

  /** Multiplication by a constant, shortcut or not. */
  lemma MulImmRight(d: Reg, a: Reg, v: W, signed: bool, high: bool, axInUse: bool, dxInUse: bool, c: Cpu)
    requires !c.fault && IsWord(v) && IsWord(c.regs[a])
    ensures Delivers(MulImmCode(d, a, v, signed, high, axInUse, dxInUse), c, d,
                     MulResult(c.regs[a], v, signed, high), axInUse, dxInUse)
  {
    if Shortcut(v, high) {
      ShortcutRight(d, a, v, signed, axInUse, dxInUse, c);
      LowProduct(c.regs[a], v, signed);
      SetsDelivers(MulImmCode(d, a, v, signed, high, axInUse, dxInUse), c, d, Wrap(c.regs[a] * v), axInUse, dxInUse);
    } else {
      MulImmCoreRight(d, a, v, signed, high, Pushed(c, d, axInUse, dxInUse));
      GuardedRight(d, axInUse, dxInUse, MulImmCore(d, a, v, signed, high), c, MulResult(c.regs[a], v, signed, high));
    }
  }

  // ---------- division ----------

  /** AX holds the dividend and DX its sign. */
  function Extended(c: Cpu, x: W): Cpu {
    c.(regs := c.regs[AX := x][DX := if x < 0x8000_0000_0000_0000 then 0 else 0xFFFF_FFFF_FFFF_FFFF])
  }

  function Extend(a: Reg): seq<Instr> {
    MoveIf(AX, a) + [Cqo]
  }

  function DivSteps(a: Reg, b: Reg, signed: bool): seq<Instr> {
    var onStack := b == AX || b == DX;
    PushIf(onStack, b) + Extend(a) + (if onStack then [DivTop(signed), DropTop] else [Div(b, signed)])
  }

  function DivCode(d: Reg, a: Reg, b: Reg, signed: bool, modulo: bool, axInUse: bool, dxInUse: bool): seq<Instr> {
    Guarded(d, axInUse, dxInUse, DivSteps(a, b, signed) + MoveIf(d, if modulo then DX else AX))
  }

  function DivImmSteps(d: Reg, a: Reg, v: W, signed: bool): seq<Instr> {
    Extend(a) + PushIf(d != BX, BX) + [MovRI(BX, v), Div(BX, signed)] + PopIf(d != BX, BX)
  }

  function DivImmCode(d: Reg, a: Reg, v: W, signed: bool, modulo: bool, axInUse: bool, dxInUse: bool): seq<Instr> {
    if v == 2 || v == 4 || v == 8 then
      MoveIf(d, a) + [if modulo then AluRI(AND, d, v - 1)
                      else if signed then Sar(d, if v == 2 then 1 else if v == 4 then 2 else 3)
                      else Shr(d, if v == 2 then 1 else if v == 4 then 2 else 3)]
    else Guarded(d, axInUse, dxInUse, DivImmSteps(d, a, v, signed) + MoveIf(d, if modulo then DX else AX))
  }

  /** What cqo and the division make of the dividend in AX. */
  function Divided(c: Cpu, x: W, y: W, signed: bool): Cpu {
    DoDiv(Extended(c, x), y, signed)
  }

  function Quotient(x: W, y: W, signed: bool, modulo: bool): W {
    var n, m := if signed then Signed(x) else x, if signed then Signed(y) else y;
    if m == 0 then 0 else Wrap(if modulo then n - TruncDiv(n, m) * m else TruncDiv(n, m))
  }

  /** When the processor can carry the division out at all: signed, unless the divisor is zero or
      the quotient is 2^63; unsigned, only if the dividend also has its top bit clear, because it is
      extended with its sign in either case. */
  predicate Divides(x: W, y: W, signed: bool) {
    && y != 0
    && (if signed then !(Signed(x) == -0x8000_0000_0000_0000 && Signed(y) == -1) else x < 0x8000_0000_0000_0000)
  }

  /** Wherever the division can be carried out, quotient and remainder are those of division that rounds
      towards zero: the remainder is smaller than the divisor and has the sign of the dividend. */
  lemma QuotientMeans(x: W, y: W, signed: bool)
    requires IsWord(x) && IsWord(y) && Divides(x, y, signed)
    ensures var q, r := Quotient(x, y, signed, false), Quotient(x, y, signed, true);
      && IsWord(q) && IsWord(r)
      && (if signed then
            && Signed(q) * Signed(y) + Signed(r) == Signed(x) && Abs(Signed(r)) < Abs(Signed(y))
            && (Signed(x) >= 0 ==> Signed(r) >= 0) && (Signed(x) <= 0 ==> Signed(r) <= 0)
          else q * y + r == x && 0 <= r < y)
  {
    var n, m := if signed then Signed(x) else x, if signed then Signed(y) else y;
    var t := TruncDiv(n, m);
    QuotientParts(x, y, signed, n, m, t);
    QuotientFits(x, y, signed, n, m, t);
    TruncMeans(n, m);
    WordsBack(n, m, t, n - t * m, signed);
  }

  lemma QuotientParts(x: W, y: W, signed: bool, n: int, m: int, t: int)
    requires n == (if signed then Signed(x) else x) && m == if signed then Signed(y) else y
    requires m != 0 && t == TruncDiv(n, m)
    ensures Quotient(x, y, signed, false) == Wrap(t) && Quotient(x, y, signed, true) == Wrap(n - t * m)
  {
  }

  lemma QuotientFits(x: W, y: W, signed: bool, n: int, m: int, t: int)
    requires IsWord(x) && IsWord(y) && Divides(x, y, signed)
    requires n == (if signed then Signed(x) else x) && m == if signed then Signed(y) else y
    requires m != 0 && t == TruncDiv(n, m)
    ensures if signed then -0x8000_0000_0000_0000 <= t < 0x8000_0000_0000_0000 else 0 <= t < 0x1_0000_0000_0000_0000
  {
    if signed {
      SignedQuotient(n, m);
    } else {
      UnsignedQuotient(x, y);
      QuotientBound(x, y);
    }
  }

  lemma WordsBack(n: int, m: int, t: int, rest: int, signed: bool)
    requires t * m + rest == n && Abs(rest) < Abs(m)
    requires if signed then -0x8000_0000_0000_0000 <= t < 0x8000_0000_0000_0000 && Abs(m) <= 0x8000_0000_0000_0000
             else 0 <= t < 0x1_0000_0000_0000_0000 && 0 <= rest < m < 0x1_0000_0000_0000_0000
    ensures IsWord(Wrap(t)) && IsWord(Wrap(rest))
    ensures if signed then Signed(Wrap(t)) == t && Signed(Wrap(rest)) == rest else Wrap(t) == t && Wrap(rest) == rest
  {
    if signed {
      SignedBack(t);
      SignedBack(rest);
    }
  }

  lemma SignedBack(v: int)
    requires -0x8000_0000_0000_0000 <= v < 0x8000_0000_0000_0000
    ensures Signed(Wrap(v)) == v && IsWord(Wrap(v))
  {
  }

  lemma TruncMeans(n: int, d: int)
    requires d != 0
    ensures var r := n - TruncDiv(n, d) * d;
      Abs(r) < Abs(d) && (n >= 0 ==> r >= 0) && (n <= 0 ==> r <= 0)
  {
    var q, a := Abs(n) / Abs(d), Abs(n) % Abs(d);
    assert Abs(n) == q * Abs(d) + a;
    Opposite(q, d);
    assert n - TruncDiv(n, d) * d == if n < 0 then -a else a;
  }

  lemma Opposite(q: int, d: int)
    ensures (-q) * d == -(q * d) && q * (-d) == -(q * d)
  {
  }

  lemma QuotientBound(m: nat, d: nat)
    requires d > 0
    ensures 0 <= m / d <= m && (d >= 2 ==> 2 * (m / d) <= m)
  {
    var q := m / d;
    assert m == q * d + m % d;
    assert q * d >= q && (d >= 2 ==> q * d >= q * 2);
  }

  lemma SignedQuotient(n: int, d: int)
    requires d != 0 && -0x8000_0000_0000_0000 <= n < 0x8000_0000_0000_0000
    ensures -0x8000_0000_0000_0000 <= TruncDiv(n, d) < 0x8000_0000_0000_0000
       <==> !(n == -0x8000_0000_0000_0000 && d == -1)
  {
    QuotientBound(Abs(n), Abs(d));
    if Abs(d) == 1 { assert Abs(n) / Abs(d) == Abs(n); }
  }

  lemma BigQuotient(n: nat, y: nat, k: nat)
    requires 0 < y && k * y <= n
    ensures n / y >= k
  {
    var q := n / y;
    assert n < (q + 1) * y;
    assert k * y < (q + 1) * y;
    if q + 1 <= k { MulMonotone(q + 1, k, y); }
  }

  lemma MulMonotone(a: nat, b: nat, y: nat)
    requires a <= b
    ensures a * y <= b * y
  {
  }

  lemma UnsignedQuotient(x: W, y: W)
    requires IsWord(x) && IsWord(y) && y != 0
    ensures TruncDiv(x, y) < 0x1_0000_0000_0000_0000
    ensures TruncDiv(0xFFFF_FFFF_FFFF_FFFF * 0x1_0000_0000_0000_0000 + x, y) >= 0x1_0000_0000_0000_0000
  {
    var n := 0xFFFF_FFFF_FFFF_FFFF * 0x1_0000_0000_0000_0000 + x;
    QuotientBound(x, y);
    BigQuotient(n, y, 0x1_0000_0000_0000_0000);
  }

  /** After the extension the division faults exactly where Divides says it does, and otherwise
      leaves quotient and remainder. */
  lemma DividedRight(c: Cpu, x: W, y: W, signed: bool)
    requires !c.fault && IsWord(x) && IsWord(y)
    ensures var e := Divided(c, x, y, signed);
      && e.stack == c.stack && (e.fault <==> !Divides(x, y, signed))
      && (!e.fault ==> e.regs[AX] == Quotient(x, y, signed, false) && e.regs[DX] == Quotient(x, y, signed, true))
      && forall r: Reg | r != AX && r != DX :: e.regs[r] == c.regs[r]
  {
    if y != 0 {
      if signed {
        SignedQuotient(Signed(x), Signed(y));
      } else {
        UnsignedQuotient(x, y);
      }
    }
  }

  /** Quotient in AX, remainder in DX, the rest as it was; or a fault, exactly when Divides fails. */
  ghost predicate Halves(e: Cpu, c: Cpu, d: Reg, x: W, y: W, signed: bool) {
    && (e.fault <==> !Divides(x, y, signed))
    && (!e.fault ==>
      && e.stack == c.stack && e.regs[AX] == Quotient(x, y, signed, false) && e.regs[DX] == Quotient(x, y, signed, true)
      && forall r: Reg | Other(r, d) :: e.regs[r] == c.regs[r])
  }

  lemma ExtendRuns(a: Reg, c: Cpu)
    requires !c.fault
    ensures Exec(Extend(a), c) == Extended(c, c.regs[a])
  {
    var c1 := c.(regs := c.regs[AX := c.regs[a]]);
    assert Exec(MoveIf(AX, a), c) == c1 by { MoveRuns(AX, a, c); }
    assert Exec([Cqo], c1) == Step(Cqo, c1) by { ExecOne(Cqo, c1); }
    assert Exec(Extend(a), c) == Exec([Cqo], c1) by { ExecConcat(MoveIf(AX, a), [Cqo], c); }
  }

  lemma DivTopRuns(e: Cpu, y: W, signed: bool)
    requires !e.fault && e.stack != [] && e.stack[|e.stack| - 1] == y
    ensures Exec([DivTop(signed), DropTop], e) == Step(DropTop, DoDiv(e, y, signed))
  {
    DivTopStep(e, y, signed);
    ExecTwo(DivTop(signed), DropTop, e);
  }

  lemma DivTopStep(e: Cpu, y: W, signed: bool)
    requires !e.fault && e.stack != [] && e.stack[|e.stack| - 1] == y
    ensures Step(DivTop(signed), e) == DoDiv(e, y, signed)
  {
  }

  /** Pushing the divisor, extending the dividend, and the rest. */
  lemma PushThenExtend(p: bool, r: Reg, a: Reg, rest: seq<Instr>, c: Cpu)
    requires !c.fault
    ensures var q := c.(stack := c.stack + if p then [c.regs[r]] else []);
      Exec(PushIf(p, r) + Extend(a) + rest, c) == Exec(rest, Extended(q, c.regs[a]))
  {
    var q := c.(stack := c.stack + if p then [c.regs[r]] else []);
    ExecConcat(PushIf(p, r) + Extend(a), rest, c);
    ExecConcat(PushIf(p, r), Extend(a), c);
    PushIfRuns(p, r, c);
    ExtendRuns(a, q);
  }

  lemma {:induction false} DivRuns(e: Cpu, b: Reg, signed: bool)
    requires !e.fault
    ensures Exec([Div(b, signed)], e) == DoDiv(e, e.regs[b], signed)
  {
    ExecOne(Div(b, signed), e);
  }

  lemma DivRegSteps(a: Reg, b: Reg, signed: bool, c: Cpu)
    requires !c.fault && b != AX && b != DX
    ensures Exec(DivSteps(a, b, signed), c) == Divided(c, c.regs[a], c.regs[b], signed)
  {
    assert c.stack + [] == c.stack;
    PushThenExtend(false, b, a, [Div(b, signed)], c);
    DivRuns(Extended(c, c.regs[a]), b, signed);
  }

  lemma DivStackSteps(a: Reg, b: Reg, signed: bool, c: Cpu)
    requires !c.fault && (b == AX || b == DX)
    ensures var p := c.(stack := c.stack + [c.regs[b]]);
      Exec(DivSteps(a, b, signed), c) == Step(DropTop, Divided(p, c.regs[a], c.regs[b], signed))
  {
    var p := c.(stack := c.stack + [c.regs[b]]);
    PushThenExtend(true, b, a, [DivTop(signed), DropTop], c);
    DivTopRuns(Extended(p, c.regs[a]), c.regs[b], signed);
  }

  lemma {:induction false} DivStepsRun(d: Reg, a: Reg, b: Reg, signed: bool, c: Cpu)
    requires !c.fault && IsWord(c.regs[a]) && IsWord(c.regs[b])
    ensures Halves(Exec(DivSteps(a, b, signed), c), c, d, c.regs[a], c.regs[b], signed)
  {
    if b == AX || b == DX {
      DivStackSteps(a, b, signed, c);
      DividedRight(c.(stack := c.stack + [c.regs[b]]), c.regs[a], c.regs[b], signed);
    } else {
      DivRegSteps(a, b, signed, c);
      DividedRight(c, c.regs[a], c.regs[b], signed);
    }
  }

  /** The state in which the division by a constant happens. */
  function ReadyBx(c: Cpu, d: Reg, x: W, v: W): Cpu {
    var e := Extended(c, x);
    e.(stack := e.stack + (if d != BX then [e.regs[BX]] else []), regs := e.regs[BX := v])
  }

  lemma DivImmStepsState(d: Reg, a: Reg, v: W, signed: bool, c: Cpu)
    requires !c.fault
    ensures Exec(DivImmSteps(d, a, v, signed), c)
      == Exec(PopIf(d != BX, BX), Step(Div(BX, signed), ReadyBx(c, d, c.regs[a], v)))
  {
    var push, pop, div := PushIf(d != BX, BX), PopIf(d != BX, BX), [MovRI(BX, v), Div(BX, signed)];
    var e := Extended(c, c.regs[a]);
    var f := e.(stack := e.stack + (if d != BX then [e.regs[BX]] else []));
    ExecConcat(Extend(a) + push + div, pop, c);
    ExecConcat(Extend(a) + push, div, c);
    ExecConcat(Extend(a), push, c);
    ExtendRuns(a, c);
    PushIfRuns(d != BX, BX, e);
    LoadThenDivide(v, signed, f);
  }

  lemma LoadThenDivide(v: W, signed: bool, f: Cpu)
    requires !f.fault
    ensures Exec([MovRI(BX, v), Div(BX, signed)], f) == Step(Div(BX, signed), f.(regs := f.regs[BX := v]))
  {
    ExecTwo(MovRI(BX, v), Div(BX, signed), f);
  }

  lemma {:induction false} DivImmStepsRun(d: Reg, a: Reg, v: W, signed: bool, c: Cpu)
    requires !c.fault && IsWord(c.regs[a]) && IsWord(v)
    ensures Halves(Exec(DivImmSteps(d, a, v, signed), c), c, d, c.regs[a], v, signed)
  {
    DivImmStepsState(d, a, v, signed, c);
    var r := ReadyBx(c, d, c.regs[a], v);
    BxThenDivide(r, c.regs[a], v, signed);
    var e := Step(Div(BX, signed), r);
    if e.fault {
      FaultStays(PopIf(d != BX, BX), e);
    } else {
      ExecOne(Pop(BX), e);
    }
  }

  /** With the divisor in BX the division is the one Divided describes. */
  lemma BxThenDivide(r: Cpu, x: W, v: W, signed: bool)
    requires !r.fault && IsWord(x) && IsWord(v) && r == Extended(r, x) && r.regs[BX] == v
    ensures var e := Step(Div(BX, signed), r);
      && e.stack == r.stack && (e.fault <==> !Divides(x, v, signed))
      && (!e.fault ==> e.regs[AX] == Quotient(x, v, signed, false) && e.regs[DX] == Quotient(x, v, signed, true))
      && forall k: Reg | k != AX && k != DX :: e.regs[k] == r.regs[k]
  {
    DividedRight(r, x, v, signed);
  }

  /** Steps that divide, and the move of the half that is wanted. */
  lemma DivideThenMove(steps: seq<Instr>, d: Reg, modulo: bool, x: W, y: W, signed: bool, c: Cpu)
    requires !c.fault && Halves(Exec(steps, c), c, d, x, y, signed)
    ensures var core := steps + MoveIf(d, if modulo then DX else AX);
      if Divides(x, y, signed) then Computes(core, c, d, Quotient(x, y, signed, modulo)) else Exec(core, c).fault
  {
    var s: Reg := if modulo then DX else AX;
    ExecConcat(steps, MoveIf(d, s), c);
    if Divides(x, y, signed) {
      MoveRuns(d, s, Exec(steps, c));
    } else {
      FaultStays(MoveIf(d, s), Exec(steps, c));
    }
  }

  /** emit_div_op: quotient or remainder for every choice of registers, and a divide fault exactly
      when the divisor is zero, the quotient is out of range, or - unsigned - the dividend has its
      top bit set. */
  lemma DivRight(d: Reg, a: Reg, b: Reg, signed: bool, modulo: bool, axInUse: bool, dxInUse: bool, c: Cpu)
    requires !c.fault && IsWord(c.regs[a]) && IsWord(c.regs[b])
    ensures var code := DivCode(d, a, b, signed, modulo, axInUse, dxInUse);
      if Divides(c.regs[a], c.regs[b], signed)
      then Delivers(code, c, d, Quotient(c.regs[a], c.regs[b], signed, modulo), axInUse, dxInUse)
      else Exec(code, c).fault
  {
    var x, y, p := c.regs[a], c.regs[b], Pushed(c, d, axInUse, dxInUse);
    var core := DivSteps(a, b, signed) + MoveIf(d, if modulo then DX else AX);
    DivStepsRun(d, a, b, signed, p);
    DivideThenMove(DivSteps(a, b, signed), d, modulo, x, y, signed, p);
    if Divides(x, y, signed) {
      GuardedRight(d, axInUse, dxInUse, core, c, Quotient(x, y, signed, modulo));
    } else {
      GuardedFaults(d, axInUse, dxInUse, core, c);
    }
  }

  /** Division by a constant outside the shortcuts. */
  lemma DivImmRight(d: Reg, a: Reg, v: W, signed: bool, modulo: bool, axInUse: bool, dxInUse: bool, c: Cpu)
    requires !c.fault && IsWord(c.regs[a]) && IsWord(v) && v != 2 && v != 4 && v != 8
    ensures var code := DivImmCode(d, a, v, signed, modulo, axInUse, dxInUse);
      if Divides(c.regs[a], v, signed)
      then Delivers(code, c, d, Quotient(c.regs[a], v, signed, modulo), axInUse, dxInUse)
      else Exec(code, c).fault
  {
    var x, p := c.regs[a], Pushed(c, d, axInUse, dxInUse);
    var core := DivImmSteps(d, a, v, signed) + MoveIf(d, if modulo then DX else AX);
    DivImmStepsRun(d, a, v, signed, p);
    DivideThenMove(DivImmSteps(d, a, v, signed), d, modulo, x, v, signed, p);
    if Divides(x, v, signed) {
      GuardedRight(d, axInUse, dxInUse, core, c, Quotient(x, v, signed, modulo));
    } else {
      GuardedFaults(d, axInUse, dxInUse, core, c);
    }
  }

  // ---------- the shortcuts by 2, 4 and 8 ----------

  lemma {:induction false} AndZero(x: W, n: nat)
    ensures Bitwise(AND, x, 0, n) == 0
    decreases n
  {
    if n > 0 { AndZero(x / 2, n - 1); }
  }

  /** One more low bit of a mask. */
  lemma AndStep(x: W, y: W, n: nat)
    requires n > 0 && y % 2 == 1
    ensures Bitwise(AND, x, y, n) == x % 2 + 2 * Bitwise(AND, x / 2, y / 2, n - 1)
  {
  }

  lemma AndMask(x: W, y: W, n: nat)
    requires y in {1, 3, 7} && n >= 3
    ensures Bitwise(AND, x, y, n) == x % (y + 1)
  {
    AndStep(x, y, n);
    if y == 1 {
      AndZero(x / 2, n - 1);
    } else {
      AndStep(x / 2, y / 2, n - 1);
      if y == 3 {
        AndZero(x / 2 / 2, n - 2);
      } else {
        AndStep(x / 2 / 2, y / 2 / 2, n - 2);
        AndZero(x / 2 / 2 / 2, n - 3);
      }
      Halvings(x);
    }
  }

  lemma Halvings(x: int)
    ensures x / 2 / 2 == x / 4 && x / 4 / 2 == x / 8
    ensures x % 4 == x % 2 + 2 * (x / 2 % 2) && x % 8 == x % 2 + 2 * (x / 2 % 2) + 4 * (x / 4 % 2)
  {
  }

  /** What the shift or mask makes of the dividend. */
  function ShortcutDivision(x: W, v: W, signed: bool, modulo: bool): W
    requires v in {2, 4, 8}
  {
    if modulo then x % v else if signed then Wrap(Signed(x) / v) else x / v
  }

  lemma DivShortcutRuns(d: Reg, a: Reg, v: W, signed: bool, modulo: bool, axInUse: bool, dxInUse: bool, c: Cpu)
    requires !c.fault && v in {2, 4, 8}
    ensures Sets(DivImmCode(d, a, v, signed, modulo, axInUse, dxInUse), c, d,
      ShortcutDivision(c.regs[a], v, signed, modulo))
  {
    var n := if v == 2 then 1 else if v == 4 then 2 else 3;
    var i := if modulo then AluRI(AND, d, v - 1) else if signed then Sar(d, n) else Shr(d, n);
    var e := c.(regs := c.regs[d := c.regs[a]]);
    assert Exec(MoveIf(d, a) + [i], c) == Step(i, e) by {
      ExecConcat(MoveIf(d, a), [i], c);
      MoveRuns(d, a, c);
      ExecOne(i, e);
    }
    assert Pow2(n) == v by { SmallPowers(); }
    MaskFits(v);
    AndMask(c.regs[a], v - 1, 64);
  }

  lemma MaskFits(v: W)
    requires v in {2, 4, 8}
    ensures Imm32(v - 1) == v - 1 && v - 1 in {1, 3, 7}
  {
    assert v == 2 || v == 4 || v == 8;
  }

  lemma RoundsBy2(m: int)
    ensures (m / 2 == TruncDiv(m, 2) <==> m >= 0 || m % 2 == 0) && -2 < m - TruncDiv(m, 2) * 2 < 2
    ensures m % 2 == m - TruncDiv(m, 2) * 2 <==> m >= 0 || m % 2 == 0
  {
  }

  lemma RoundsBy4(m: int)
    ensures (m / 4 == TruncDiv(m, 4) <==> m >= 0 || m % 4 == 0) && -4 < m - TruncDiv(m, 4) * 4 < 4
    ensures m % 4 == m - TruncDiv(m, 4) * 4 <==> m >= 0 || m % 4 == 0
  {
  }

  lemma RoundsBy8(m: int)
    ensures (m / 8 == TruncDiv(m, 8) <==> m >= 0 || m % 8 == 0) && -8 < m - TruncDiv(m, 8) * 8 < 8
    ensures m % 8 == m - TruncDiv(m, 8) * 8 <==> m >= 0 || m % 8 == 0
  {
  }

  lemma ShiftRounds(m: int, v: int)
    requires v in {2, 4, 8}
    ensures m / v == TruncDiv(m, v) <==> m >= 0 || m % v == 0
    ensures m % v == m - TruncDiv(m, v) * v <==> m >= 0 || m % v == 0
    ensures -v < m - TruncDiv(m, v) * v < v
  {
    RoundsBy2(m);
    RoundsBy4(m);
    RoundsBy8(m);
  }

  lemma WrapInjective(x: int, y: int)
    requires -0x8000_0000_0000_0000 <= x < 0x8000_0000_0000_0000 && -0x8000_0000_0000_0000 <= y < 0x8000_0000_0000_0000
    ensures Wrap(x) == Wrap(y) <==> x == y
  {
  }

  lemma {:induction false} SameLowBits(x: int, k: int)
    ensures (x - 8 * k) % 2 == x % 2 && (x - 8 * k) % 4 == x % 4 && (x - 8 * k) % 8 == x % 8
  {
  }

  lemma LowBits(x: W, v: W)
    requires IsWord(x) && v in {2, 4, 8}
    ensures x % v == Signed(x) % v && Wrap(x % v) == x % v
  {
    SameLowBits(x, 0x2000_0000_0000_0000);
    assert v == 2 || v == 4 || v == 8;
    assert 0 <= x % v < 8;
  }

  lemma ModuloShortcut(x: W, v: W)
    requires IsWord(x) && v in {2, 4, 8}
    ensures x % v == Quotient(x, v, true, true) <==> Signed(x) >= 0 || x % v == 0
  {
    var m := Signed(x);
    ShiftRounds(m, v);
    LowBits(x, v);
    assert Signed(v) == v;
    WrapInjective(m - TruncDiv(m, v) * v, m % v);
  }

  lemma DivideShortcut(x: W, v: W)
    requires IsWord(x) && v in {2, 4, 8}
    ensures Wrap(Signed(x) / v) == Quotient(x, v, true, false) <==> Signed(x) >= 0 || x % v == 0
  {
    var m := Signed(x);
    ShiftRounds(m, v);
    LowBits(x, v);
    SmallQuotient(m, v);
    assert Signed(v) == v;
    WrapInjective(m / v, TruncDiv(m, v));
  }

  lemma {:induction false} UnsignedShortcut(x: W, v: W, modulo: bool)
    requires IsWord(x) && v in {2, 4, 8}
    ensures ShortcutDivision(x, v, false, modulo) == Quotient(x, v, false, modulo)
  {
    assert v == 2 || v == 4 || v == 8;
    ShiftRounds(x, v);
    LowBits(x, v);
    QuotientBound(x, v);
  }

  /** The shortcuts round down where division rounds to zero: they are right exactly for unsigned
      division, for dividends that are not negative, and for multiples of the divisor. */
  lemma DivShortcutExactly(x: W, v: W, signed: bool, modulo: bool)
    requires IsWord(x) && v in {2, 4, 8}
    ensures ShortcutDivision(x, v, signed, modulo) == Quotient(x, v, signed, modulo)
       <==> !signed || Signed(x) >= 0 || x % v == 0
  {
    if !signed {
      UnsignedShortcut(x, v, modulo);
    } else if modulo {
      ModuloShortcut(x, v);
    } else {
      DivideShortcut(x, v);
    }
  }

  lemma SmallQuotient(m: int, v: int)
    requires -0x8000_0000_0000_0000 <= m < 0x8000_0000_0000_0000 && v in {2, 4, 8}
    ensures -0x8000_0000_0000_0000 <= m / v < 0x8000_0000_0000_0000
    ensures -0x8000_0000_0000_0000 <= TruncDiv(m, v) < 0x8000_0000_0000_0000
  {
    assert v == 2 || v == 4 || v == 8;
    QuotientBound(Abs(m), v);
  }

  // ---------- the emitters ----------

  /** Instructions go to the end of the code, as the macros advance the instruction pointer. */
  class Selector {
    var code: seq<Instr>

    constructor ()
      ensures code == []
    {
      code := [];
    }

    method Put(i: Instr)
      modifies this
      ensures code == old(code) + [i]
    {
      code := code + [i];
    }

    method EmitAluOp(k: AluKind, d: Reg, a: Reg, b: Reg)
      modifies this
      ensures code == old(code) + AluCode(k, d, a, b)
    {
      if d == a {
        Put(AluRR(k, d, b));
      } else if d == b {
        Put(AluRR(k, d, a));
      } else {
        Put(MovRR(d, a));
        Put(AluRR(k, d, b));
      }
    }

    method EmitAluImm(k: AluKind, d: Reg, a: Reg, v: W)
      modifies this
      ensures code == old(code) + AluImmCode(k, d, a, v)
    {
      if d != a {
        Put(MovRR(d, a));
      }
      Put(AluRI(k, d, v));
    }

    method EmitAdd(d: Reg, a: Reg, b: Reg)
      modifies this
      ensures code == old(code) + AddCode(d, a, b)
    {
      if d != a && d != b {
        Put(LeaIndex(d, a, b, 0));
      } else {
        EmitAluOp(ADD, d, a, b);
      }
    }

    method EmitAddImm(d: Reg, a: Reg, v: W)
      modifies this
      ensures code == old(code) + AddImmCode(d, a, v)
    {
      if d != a && d != v {
        Put(LeaBase(d, a, v));
      } else {
        EmitAluImm(ADD, d, a, v);
      }
    }

    method EmitSubOp(d: Reg, a: Reg, b: Reg)
      modifies this
      ensures code == old(code) + SubCode(d, a, b)
    {
      if d == a {
        Put(AluRR(SUB, d, b));
      } else if d == b {
        Put(AluRR(SUB, d, a));
        Put(Neg(d));
      } else {
        Put(MovRR(d, a));
        Put(AluRR(SUB, d, b));
      }
    }

    method EmitSubImm(d: Reg, a: Reg, v: W)
      modifies this
      ensures code == old(code) + SubImmCode(d, a, v)
    {
      if d != a {
        Put(LeaBase(d, a, Wrap(-v)));
      } else {
        Put(AluRI(SUB, d, v));
      }
    }

    method EmitRsbOp(d: Reg, a: Reg, b: Reg)
      modifies this
      ensures code == old(code) + RsbCode(d, a, b)
    {
      if d == a {
        Put(AluRR(SUB, d, b));
        Put(Neg(d));
      } else if d == b {
        Put(AluRR(SUB, d, a));
      } else {
        Put(MovRR(d, b));
        Put(AluRR(SUB, d, a));
      }
    }

    method EmitRsbImm(d: Reg, a: Reg, v: W)
      modifies this
      ensures code == old(code) + RsbImmCode(d, a, v)
    {
      if d == a {
        Put(AluRI(ADD, d, Wrap(-v)));
      } else {
        Put(LeaBase(d, a, Wrap(-v)));
      }
      Put(Neg(d));
    }

    method Save(d: Reg, axInUse: bool, dxInUse: bool)
      modifies this
      ensures code == old(code) + PushIf(d != AX && axInUse, AX) + PushIf(d != DX && dxInUse, DX)
    {
      if d != AX && axInUse { Put(Push(AX)); }
      if d != DX && dxInUse { Put(Push(DX)); }
    }

    /** The wanted half goes to the destination, then the saved registers come back. */
    method Finish(d: Reg, half: Reg, axInUse: bool, dxInUse: bool)
      modifies this
      ensures code == old(code) + MoveIf(d, half) + PopIf(d != DX && dxInUse, DX) + PopIf(d != AX && axInUse, AX)
    {
      if d != half { Put(MovRR(d, half)); }
      if d != DX && dxInUse { Put(Pop(DX)); }
      if d != AX && axInUse { Put(Pop(AX)); }
    }

    /** Saving, the steps just emitted and finishing make up the guarded sequence. */
    lemma Assembled(start: seq<Instr>, steps: seq<Instr>, d: Reg, half: Reg, axInUse: bool, dxInUse: bool)
      ensures start + PushIf(d != AX && axInUse, AX) + PushIf(d != DX && dxInUse, DX) + steps
              + MoveIf(d, half) + PopIf(d != DX && dxInUse, DX) + PopIf(d != AX && axInUse, AX)
           == start + Guarded(d, axInUse, dxInUse, steps + MoveIf(d, half))
    {
      SevenParts(start, PushIf(d != AX && axInUse, AX), PushIf(d != DX && dxInUse, DX), steps,
                 MoveIf(d, half), PopIf(d != DX && dxInUse, DX), PopIf(d != AX && axInUse, AX));
    }

    lemma SevenParts(s: seq<Instr>, p: seq<Instr>, q: seq<Instr>, t: seq<Instr>, m: seq<Instr>, x: seq<Instr>,
        y: seq<Instr>)
      ensures s + p + q + t + m + x + y == s + (p + q + (t + m) + x + y)
    {
    }

    method EmitMulSteps(a: Reg, b: Reg, signed: bool)
      modifies this
      ensures code == old(code) + MulSteps(a, b, signed)
    {
      if a == AX {
        Put(Mul(b, signed));
      } else if b == AX {
        Put(Mul(a, signed));
      } else {
        Put(MovRR(AX, a));
        Put(Mul(b, signed));
      }
    }

    method EmitMulOp(d: Reg, a: Reg, b: Reg, signed: bool, high: bool, axInUse: bool, dxInUse: bool)
      modifies this
      ensures code == old(code) + MulCode(d, a, b, signed, high, axInUse, dxInUse)
    {
      Save(d, axInUse, dxInUse);
      EmitMulSteps(a, b, signed);
      Finish(d, if high then DX else AX, axInUse, dxInUse);
      Assembled(old(code), MulSteps(a, b, signed), d, if high then DX else AX, axInUse, dxInUse);
    }

    /** The constants with a shortcut; the code is left alone for all others. */
    method EmitMulShortcut(d: Reg, a: Reg, v: W, ghost signed: bool, ghost axInUse: bool, ghost dxInUse: bool)
        returns (done: bool)
      modifies this
      ensures done <==> Shortcut(v, false)
      ensures code == old(code) + if done then MulImmCode(d, a, v, signed, false, axInUse, dxInUse) else []
    {
      if v == 2 {
        if a == d { Put(Shl(d, 1)); } else { Put(LeaIndex(d, a, a, 0)); }
        return true;
      } else if v == 4 || v == 8 {
        if a != d { Put(MovRR(d, a)); }
        Put(Shl(d, if v == 4 then 2 else 3));
        return true;
      } else if v == 3 || v == 5 || v == 9 {
        Put(LeaIndex(d, a, a, if v == 3 then 1 else if v == 5 then 2 else 3));
        return true;
      }
      return false;
    }

    method EmitMulImmSteps(a: Reg, v: W, signed: bool)
      modifies this
      ensures code == old(code) + MulImmSteps(a, v, signed)
    {
      if a != AX { Put(MovRR(AX, a)); }
      Put(MovRI(DX, v));
      Put(Mul(DX, signed));
    }

    /** ... for all other constants and for the high half. */
    method EmitMulGeneral(d: Reg, a: Reg, v: W, signed: bool, high: bool, axInUse: bool, dxInUse: bool)
      modifies this
      ensures code == old(code) + Guarded(d, axInUse, dxInUse, MulImmCore(d, a, v, signed, high))
    {
      Save(d, axInUse, dxInUse);
      EmitMulImmSteps(a, v, signed);
      Finish(d, if high then DX else AX, axInUse, dxInUse);
      Assembled(old(code), MulImmSteps(a, v, signed), d, if high then DX else AX, axInUse, dxInUse);
    }

    method EmitMulImm(d: Reg, a: Reg, v: W, signed: bool, high: bool, axInUse: bool, dxInUse: bool)
      modifies this
      ensures code == old(code) + MulImmCode(d, a, v, signed, high, axInUse, dxInUse)
    {
      if !high {
        var done := EmitMulShortcut(d, a, v, signed, axInUse, dxInUse);
        if done {
          return;
        }
      }
      EmitMulGeneral(d, a, v, signed, high, axInUse, dxInUse);
    }

    method EmitDivSteps(a: Reg, b: Reg, signed: bool)
      modifies this
      ensures code == old(code) + DivSteps(a, b, signed)
    {
      if b == AX || b == DX { Put(Push(b)); }
      if a != AX { Put(MovRR(AX, a)); }
      Put(Cqo);
      if b == AX || b == DX {
        Put(DivTop(signed));
        Put(DropTop);
      } else {
        Put(Div(b, signed));
      }
    }

    method EmitDivOp(d: Reg, a: Reg, b: Reg, signed: bool, modulo: bool, axInUse: bool, dxInUse: bool)
      modifies this
      ensures code == old(code) + DivCode(d, a, b, signed, modulo, axInUse, dxInUse)
    {
      Save(d, axInUse, dxInUse);
      EmitDivSteps(a, b, signed);
      Finish(d, if modulo then DX else AX, axInUse, dxInUse);
      Assembled(old(code), DivSteps(a, b, signed), d, if modulo then DX else AX, axInUse, dxInUse);
    }

    method EmitDivImmSteps(d: Reg, a: Reg, v: W, signed: bool)
      modifies this
      ensures code == old(code) + DivImmSteps(d, a, v, signed)
    {
      if a != AX { Put(MovRR(AX, a)); }
      Put(Cqo);
      if d != BX { Put(Push(BX)); }
      Put(MovRI(BX, v));
      Put(Div(BX, signed));
      if d != BX { Put(Pop(BX)); }
    }

    method EmitDivImm(d: Reg, a: Reg, v: W, signed: bool, modulo: bool, axInUse: bool, dxInUse: bool)
      modifies this
      ensures code == old(code) + DivImmCode(d, a, v, signed, modulo, axInUse, dxInUse)
    {
      if v == 2 || v == 4 || v == 8 {
        if d != a { Put(MovRR(d, a)); }
        var n := if v == 2 then 1 else if v == 4 then 2 else 3;
        Put(if modulo then AluRI(AND, d, v - 1) else if signed then Sar(d, n) else Shr(d, n));
        return;
      }
      Save(d, axInUse, dxInUse);
      EmitDivImmSteps(d, a, v, signed);
      Finish(d, if modulo then DX else AX, axInUse, dxInUse);
      Assembled(old(code), DivImmSteps(d, a, v, signed), d, if modulo then DX else AX, axInUse, dxInUse);
    }
  }
}
