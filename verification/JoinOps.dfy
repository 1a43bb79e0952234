/** The peephole joins of x86-common-stuff.c: multiplication or addition and a following
    addition become one op. */
module JoinOps {
  import opened JitOps
  import opened FlowAnalysis
  import opened Rewriting
  import opened Fusion
  import opened Arithmetic

  datatype Join = MULI_ADDI | MULI_ADDR | MULI_ORI | ADDR_ADDI | ADDI_ADDR

  /** One call of join_2ops: the two codes it looks for and the join to try. */
  datatype Rule = Rule(first: AluOp, firstImm: bool, second: AluOp, secondImm: bool, join: Join)

  const ADDMUL_RULES: seq<Rule> := [
    Rule(MUL, true, ADD, true, MULI_ADDI), Rule(LSH, true, ADD, true, MULI_ADDI),
    Rule(MUL, true, ADD, false, MULI_ADDR), Rule(LSH, true, ADD, false, MULI_ADDR),
    Rule(MUL, true, OR, true, MULI_ORI), Rule(LSH, true, OR, true, MULI_ORI)]

  const ADDIMM_RULES: seq<Rule> := [
    Rule(ADD, false, ADD, true, ADDR_ADDI), Rule(ADD, false, SUB, true, ADDR_ADDI),
    Rule(ADD, true, ADD, false, ADDI_ADDR), Rule(SUB, true, ADD, false, ADDI_ADDR)]

  predicate IsRule(r: Rule) {
    r in ADDMUL_RULES || r in ADDIMM_RULES
  }

  // ---------- arguments ----------

  /** The number an argument field holds, whatever it stands for. */
  function Raw(a: Arg): int {
    match a
    case No => 0
    case Reg(r) => r
    case Imm(v) => v
    case TReg(r) => r
  }

  predicate ThreeOperands(op: Op) {
    op.a1.TReg? && op.a2.Reg? && if op.imm then op.a3.Imm? else op.a3.Reg?
  }

  predicate Joinable(op: AluOp) {
    op == MUL || op == LSH || op == ADD || op == SUB || op == OR
  }

  /** The builder macros give these ops a target, a register, and a register or immediate. */
  predicate TypedOp(op: Op) {
    op.code.ALU? && Joinable(op.code.op) ==> ThreeOperands(op)
  }

  predicate IsCode(op: Op, code: AluOp, imm: bool) {
    op.code == ALU(code, false) && op.imm == imm
  }

  // ---------- the guards as the code has them ----------

  predicate ReadsNonZero(a: Arg) {
    a.Reg? && a.reg != 0
  }

  /** get_related_op: it asks whether the next op reads any register but number 0, not whether
      it reads the result. */
  predicate Related(op: Op, next: Op) {
    && (Raw(next.a1) == Raw(op.a1) || Raw(op.a1) !in next.liveOut)
    && (ReadsNonZero(next.a1) || ReadsNonZero(next.a2) || ReadsNonZero(next.a3))
  }

  predicate SuitableMul(op: Op) {
    var arg := Raw(op.a3);
    || (IsCode(op, MUL, true) && (arg == 2 || arg == 4 || arg == 8))
    || (IsCode(op, LSH, true) && (arg == 1 || arg == 2 || arg == 3))
  }

  /** shift_index for a multiplication, the count itself for a shift. */
  function ShiftOf(op: Op): nat {
    if IsCode(op, LSH, true) then (if Raw(op.a3) < 0 then 0 else Raw(op.a3))
    else if Raw(op.a3) == 2 then 1 else if Raw(op.a3) == 4 then 2 else 3
  }

  function Negated(x: Word): Word {
    Wrap(-x)
  }

  /** What the join function makes of the second op, if it does not give up. */
  function Joined(j: Join, op: Op, next: Op): Option<Op> {
    match j
    case MULI_ADDI => if SuitableMul(op) then Some(Addmuli(op, next)) else None
    case MULI_ORI =>
      if SuitableMul(op) && 0 < Raw(next.a3) < Pow2(ShiftOf(op)) then Some(Addmuli(op, next)) else None
    case MULI_ADDR =>
      if !SuitableMul(op) || Raw(next.a2) == Raw(next.a3) then None else Some(Addmulr(op, next))
    case ADDR_ADDI => Some(AddrAddi(op, next))
    case ADDI_ADDR => Some(AddiAddr(op, next))
  }

  function Addmuli(op: Op, next: Op): Op {
    next.(code := ALU(ADDMUL_IMM, false), imm := true, a2 := op.a2, size := ShiftOf(op))
  }

  function Addmulr(op: Op, next: Op): Op {
    next.(code := ALU(ADDMUL_REG, false), imm := false,
          a2 := if Raw(next.a2) == Raw(op.a1) then next.a3 else next.a2, a3 := op.a2, size := ShiftOf(op))
  }

  function AddrAddi(op: Op, next: Op): Op {
    next.(code := ALU(ADDIMM, false), imm := false, extra := Negated(Raw(next.a3)), a2 := op.a2, a3 := op.a3)
  }

  /** The constant of the joined op: negated for a subtraction, twice if the second op adds a
      register to itself. */
  function AddiExtra(op: Op, next: Op): Word {
    var k := if op.code == ALU(SUB, false) then Negated(Raw(op.a3)) else Raw(op.a3);
    if Raw(next.a2) == Raw(next.a3) then Wrap(2 * k) else k
  }

  function AddiAddr(op: Op, next: Op): Op {
    next.(code := ALU(ADDIMM, false), imm := false, extra := AddiExtra(op, next),
          a2 := if Raw(next.a2) == Raw(op.a1) then op.a2 else next.a2,
          a3 := if Raw(next.a3) == Raw(op.a1) then op.a2 else next.a3)
  }

  /** The rule looks for these two codes, and the ops have the arguments that go with them. */
  predicate Matches(r: Rule, op: Op, next: Op) {
    && IsRule(r) && IsCode(op, r.first, r.firstImm) && IsCode(next, r.second, r.secondImm)
    && ThreeOperands(op) && ThreeOperands(next)
  }

  // ---------- when a join is right ----------

  /** The negated immediate in a 32-bit field is what the op adds: for a subtraction if it fits, for
      an addition only if negation changes nothing there. */
  predicate NegationFits(next: Op) {
    var k := Raw(next.a3);
    if next.code == ALU(SUB, false) then FitsImm32(Negated(k))
    else Wrap(k) == 0 || Wrap(k) == WORD - 0x8000_0000
  }

  /** The condition under which the joined op does what the two ops did. */
  predicate Right(j: Join, op: Op, next: Op) {
    var chained := Raw(op.a1) in Uses(next);
    match j
    case MULI_ADDI => chained && FitsImm32(Raw(next.a3))
    case ADDR_ADDI => chained && NegationFits(next)
    case ADDI_ADDR => if chained then FitsImm32(AddiExtra(op, next)) else Imm32(AddiExtra(op, next)) == 0
    case _ => chained
  }

  lemma KnownValue(sem: Sem, op: Op, regs: map<VReg, Word>, w: World)
    requires Standard(sem) && op.code.ALU? && Known(op.code.op)
    ensures ValueAt(sem, op, regs, w)
         == Meaning(op.code.op, op.size, op.extra, Value(op.a2, regs), Value(op.a3, regs))
    ensures EffectAt(sem, op, regs, w) == w
  {
  }

  lemma ScaledValue(op: Op, x: Word)
    requires SuitableMul(op)
    ensures Meaning(op.code.op, op.size, op.extra, x, Raw(op.a3)) == Wrap(Shl(x, ShiftOf(op)))
    ensures 1 <= ShiftOf(op) <= 3
  {
    assert Shl(x, 0) == x && Shl(x, 1) == 2 * x && Shl(x, 2) == 4 * x && Shl(x, 3) == 8 * x;
  }

  lemma ScaledLow(x: int, n: nat)
    requires 1 <= n <= 3
    ensures LowZero(Wrap(Shl(x, n)), n)
  {
    assert Shl(x, 0) == x && Shl(x, 1) == 2 * x && Shl(x, 2) == 4 * x && Shl(x, 3) == 8 * x;
    if n == 1 { LowOf(x * 2, x - (x * 2) / 0x1_0000_0000_0000_0000 * 0x8000_0000_0000_0000, 2); }
    if n == 2 { LowOf(x * 4, x - (x * 4) / 0x1_0000_0000_0000_0000 * 0x4000_0000_0000_0000, 4); }
    if n == 3 { LowOf(x * 8, x - (x * 8) / 0x1_0000_0000_0000_0000 * 0x2000_0000_0000_0000, 8); }
  }

  lemma LowOf(x: int, m: int, s: nat)
    requires s in {2, 4, 8} && Wrap(x) == s * m
    ensures LowZero(Wrap(x), if s == 2 then 1 else if s == 4 then 2 else 3)
  {
    assert s == 2 || s == 4 || s == 8;
    if s == 2 { assert 2 * m / 2 == m && LowZero(m, 0); }
    if s == 4 { assert 4 * m / 2 == 2 * m && 2 * m / 2 == m && LowZero(m, 0) && LowZero(2 * m, 1); }
    if s == 8 {
      assert 8 * m / 2 == 4 * m && 4 * m / 2 == 2 * m && 2 * m / 2 == m;
      assert LowZero(m, 0) && LowZero(2 * m, 1) && LowZero(4 * m, 2);
    }
  }

  // ---------- what the joined op computes ----------

  ghost function Got(c: Op, regs: map<VReg, Word>): Word {
    if c.code.ALU? then Meaning(c.code.op, c.size, c.extra, Value(c.a2, regs), Value(c.a3, regs)) else 0
  }

  /** The value of the second op after the first. */
  ghost function Wanted(op: Op, next: Op, regs: map<VReg, Word>): Word {
    Got(next, regs[Raw(op.a1) := Got(op, regs)])
  }

  lemma JoinedIsKnown(r: Rule, op: Op, next: Op)
    requires Matches(r, op, next) && Joined(r.join, op, next).Some?
    ensures Known(op.code.op) && Known(next.code.op)
    ensures var c := Joined(r.join, op, next).value; c.code.ALU? && Known(c.code.op) && c.a1 == next.a1
  {
  }

  lemma DoesBothAtIfSame(sem: Sem, r: Rule, op: Op, next: Op, regs: map<VReg, Word>, w: World)
    requires Standard(sem) && Matches(r, op, next) && Joined(r.join, op, next).Some?
    ensures var c := Joined(r.join, op, next).value;
      DoesBothAt(sem, op, next, c, regs, w) <==> Got(c, regs) == Wanted(op, next, regs)
  {
    JoinedIsKnown(r, op, next);
    KnownValue(sem, op, regs, w);
    KnownValue(sem, next, After(sem, op, regs, w), w);
    KnownValue(sem, Joined(r.join, op, next).value, regs, w);
  }

  /** DoesBoth comes down to the two values. */
  lemma DoesBothIfSame(sem: Sem, r: Rule, op: Op, next: Op)
    requires Standard(sem) && Matches(r, op, next) && Joined(r.join, op, next).Some?
    ensures var c := Joined(r.join, op, next).value;
      DoesBoth(sem, op, next, c) <==> forall regs {:trigger Got(c, regs)} :: Got(c, regs) == Wanted(op, next, regs)
  {
    var c := Joined(r.join, op, next).value;
    forall regs, w ensures DoesBothAt(sem, op, next, c, regs, w) <==> Got(c, regs) == Wanted(op, next, regs) {
      DoesBothAtIfSame(sem, r, op, next, regs, w);
    }
    if DoesBoth(sem, op, next, c) {
      forall regs ensures Got(c, regs) == Wanted(op, next, regs) {
        var v := ValueAt(sem, c, regs, World(false, map[]));
      }
    }
  }

  lemma Scaled(op: Op, regs: map<VReg, Word>)
    requires SuitableMul(op) && op.a3.Imm?
    ensures Got(op, regs) == Wrap(Shl(Value(op.a2, regs), ShiftOf(op)))
  {
    ScaledValue(op, Value(op.a2, regs));
  }

  /** What an operand of the second op is worth. */
  ghost function Operand(op: Op, a: Arg, regs: map<VReg, Word>): Word {
    if a == Reg(Raw(op.a1)) then Got(op, regs) else Value(a, regs)
  }

  lemma WantedOperands(op: Op, next: Op, regs: map<VReg, Word>)
    requires next.code.ALU?
    ensures Wanted(op, next, regs)
         == Meaning(next.code.op, next.size, next.extra, Operand(op, next.a2, regs), Operand(op, next.a3, regs))
  {
  }

  lemma MuliAddiExactly(op: Op, next: Op, regs: map<VReg, Word>)
    requires SuitableMul(op) && op.a3.Imm? && IsCode(next, ADD, true) && next.a3.Imm?
    requires next.a2 == Reg(Raw(op.a1))
    ensures Got(Addmuli(op, next), regs) == Wanted(op, next, regs) <==> FitsImm32(Raw(next.a3))
  {
    Scaled(op, regs);
    WantedOperands(op, next, regs);
    CutOperand(Shl(Value(op.a2, regs), ShiftOf(op)), Raw(next.a3));
  }

  /** Adding a constant through a 32-bit field is right exactly when the constant fits. */
  lemma CutOperand(v: int, k: int)
    ensures Wrap(v + Imm32(k)) == Wrap(Wrap(v) + k) <==> FitsImm32(k)
  {
    WrapAdd(v, k);
    Imm32Half(k);
    WrapSame(v + Imm32(k), v + k);
    WrapSame(Imm32(k), k);
  }

  lemma WantedOr(op: Op, next: Op, regs: map<VReg, Word>)
    requires next.code == ALU(OR, false) && next.a2 == Reg(Raw(op.a1)) && next.a3.Imm?
    ensures Wanted(op, next, regs) == BitOr(Wrap(Got(op, regs)), Wrap(Raw(next.a3)))
  {
  }

  lemma MuliOri(op: Op, next: Op, regs: map<VReg, Word>)
    requires SuitableMul(op) && op.a3.Imm? && next.code == ALU(OR, false) && next.a3.Imm?
    requires next.a2 == Reg(Raw(op.a1)) && 0 < Raw(next.a3) < Pow2(ShiftOf(op)) && 1 <= ShiftOf(op) <= 3
    ensures Got(Addmuli(op, next), regs) == Wanted(op, next, regs)
  {
    var x, k, n := Value(op.a2, regs), Raw(next.a3), ShiftOf(op);
    assert Wanted(op, next, regs) == Wrap(Shl(x, n) + k) by {
      WantedOr(op, next, regs);
      Scaled(op, regs);
      WrapTwice(Shl(x, n));
      OrOfScaled(x, k, n);
    }
    PowIsShl(n);
    SmallWord(k);
    GotAddmuli(op, next, regs);
  }

  lemma GotAddmuli(op: Op, next: Op, regs: map<VReg, Word>)
    ensures Got(Addmuli(op, next), regs) == Wrap(Shl(Value(op.a2, regs), ShiftOf(op)) + Imm32(Value(next.a3, regs)))
  {
  }

  lemma WrapTwice(x: int)
    ensures Wrap(Wrap(x)) == Wrap(x)
  {
  }

  lemma {:induction false} OrOfScaled(x: int, k: nat, n: nat)
    requires 1 <= n <= 3 && k < Pow2(n)
    ensures BitOr(Wrap(Shl(x, n)), Wrap(k)) == Wrap(Shl(x, n) + k)
  {
    ScaledLow(x, n);
    NoCarry(Wrap(Shl(x, n)), k, n);
    OrIsAdd(Wrap(Shl(x, n)), k, n);
    WrapAdd(Shl(x, n), k);
  }

  lemma {:induction false} NoCarry(v: nat, k: nat, n: nat)
    requires LowZero(v, n) && v < WORD && 1 <= n <= 3 && k < Pow2(n)
    ensures Wrap(k) == k && Wrap(v + k) == v + k
  {
    assert Pow2(0) == 1 && Pow2(1) == 2 && Pow2(2) == 4 && Pow2(3) == 8;
    assert n >= 1 && LowZero(v / 2, n - 1);
    if n >= 2 { assert LowZero(v / 2 / 2, n - 2); }
  }

  lemma WantedAdd(op: Op, next: Op, regs: map<VReg, Word>)
    requires next.code == ALU(ADD, false)
    ensures Wanted(op, next, regs) == Wrap(Operand(op, next.a2, regs) + Operand(op, next.a3, regs))
  {
  }

  lemma GotAddmulr(op: Op, next: Op, regs: map<VReg, Word>)
    ensures Got(Addmulr(op, next), regs)
         == Wrap(Value(if Raw(next.a2) == Raw(op.a1) then next.a3 else next.a2, regs)
                 + Shl(Value(op.a2, regs), ShiftOf(op)))
  {
  }

  lemma MuliAddr(op: Op, next: Op, regs: map<VReg, Word>)
    requires SuitableMul(op) && op.a3.Imm? && next.code == ALU(ADD, false)
    requires next.a2.Reg? && next.a3.Reg? && next.a2 != next.a3 && Raw(op.a1) in {next.a2.reg, next.a3.reg}
    ensures Got(Addmulr(op, next), regs) == Wanted(op, next, regs)
  {
    Scaled(op, regs);
    WantedAdd(op, next, regs);
    GotAddmulr(op, next, regs);
    WrapAdd(Shl(Value(op.a2, regs), ShiftOf(op)), Value(if Raw(next.a2) == Raw(op.a1) then next.a3 else next.a2, regs));
  }

  lemma MuliAddrWrong(op: Op, next: Op) returns (regs: map<VReg, Word>)
    requires SuitableMul(op) && op.a2.Reg? && op.a3.Imm? && next.code == ALU(ADD, false)
    requires next.a2.Reg? && next.a3.Reg? && next.a2 != next.a3 && Raw(op.a1) !in {next.a2.reg, next.a3.reg}
    ensures Got(Addmulr(op, next), regs) != Wanted(op, next, regs)
  {
    regs := map[next.a3.reg := 1];
    WantedAdd(op, next, regs);
    GotAddmulr(op, next, regs);
    ScaledOne(op);
  }

  lemma ScaledOne(op: Op)
    requires SuitableMul(op)
    ensures 1 <= ShiftOf(op) <= 3 && Shl(0, ShiftOf(op)) == 0 && 2 <= Shl(1, ShiftOf(op)) <= 8
      && 16 <= Shl(8, ShiftOf(op)) <= 64
  {
    ScaledValue(op, 0);
    assert Shl(1, 0) == 1 && Shl(1, 1) == 2 && Shl(1, 2) == 4 && Shl(1, 3) == 8;
    assert Shl(8, 0) == 8 && Shl(8, 1) == 16 && Shl(8, 2) == 32 && Shl(8, 3) == 64;
    assert Shl(0, 0) == 0 && Shl(0, 1) == 0 && Shl(0, 2) == 0 && Shl(0, 3) == 0;
  }

  lemma MuliAddiWrong(op: Op, next: Op) returns (regs: map<VReg, Word>)
    requires SuitableMul(op) && op.a2.Reg? && op.a3.Imm? && next.code == ALU(ADD, false) && next.a3.Imm?
    requires next.a2.Reg? && Raw(op.a1) != next.a2.reg
    ensures Got(Addmuli(op, next), regs) != Wanted(op, next, regs)
  {
    regs := map[next.a2.reg := 1];
    WantedAdd(op, next, regs);
    GotAddmuli(op, next, regs);
    ScaledOne(op);
    CutDiffers(Shl(Value(op.a2, regs), ShiftOf(op)), 1, Raw(next.a3));
  }

  /** Cutting a constant to 32 bits does not make up for a difference in the low half. */
  lemma CutDiffers(a: int, b: int, k: int)
    requires (a - b) % 0x1_0000_0000 != 0
    ensures Wrap(a + Imm32(k)) != Wrap(b + k)
  {
    Imm32Half(k);
    WrapSame(a + Imm32(k), b + k);
    LowHalves(a - b, Imm32(k) - k);
  }

  lemma LowHalves(x: int, y: int)
    requires x % 0x1_0000_0000 != 0 && y % 0x1_0000_0000 == 0
    ensures Wrap(x + y) != 0
  {
    HalfKept(x, y / 0x1_0000_0000);
    WholeIsHalf(x + y);
  }

  lemma HalfKept(x: int, j: int)
    ensures (x + j * 0x1_0000_0000) % 0x1_0000_0000 == x % 0x1_0000_0000
  {
  }

  lemma WholeIsHalf(z: int)
    ensures Wrap(z) == 0 ==> z % 0x1_0000_0000 == 0
  {
    HalfKept(0, z / 0x1_0000_0000_0000_0000 * 0x1_0000_0000);
  }

  lemma MuliOriWrong(op: Op, next: Op) returns (regs: map<VReg, Word>)
    requires SuitableMul(op) && op.a2.Reg? && op.a3.Imm? && next.code == ALU(OR, false) && next.a3.Imm?
    requires next.a2.Reg? && Raw(op.a1) != next.a2.reg && 0 < Raw(next.a3) < Pow2(ShiftOf(op))
    ensures Got(Addmuli(op, next), regs) != Wanted(op, next, regs)
  {
    var n := ShiftOf(op);
    regs := map[next.a2.reg := Shl(1, n)];
    ScaledOne(op);
    ScaledTwice(n);
    OrGot(op, next, regs, n);
    OrWanted(op, next, regs, n);
  }

  lemma OrGot(op: Op, next: Op, regs: map<VReg, Word>, n: nat)
    requires n == ShiftOf(op) && 1 <= n <= 3 && next.a3.Imm? && 0 < Raw(next.a3) < Pow2(n)
    requires Value(op.a2, regs) == 0 || Value(op.a2, regs) == Shl(1, n)
    ensures Got(Addmuli(op, next), regs)
         == Raw(next.a3) + if Value(op.a2, regs) == 0 then 0 else Shl(Shl(1, n), n)
  {
    GotAddmuli(op, next, regs);
    PowIsShl(n);
    ScaledTwice(n);
    assert Shl(0, 0) == 0 && Shl(0, 1) == 0 && Shl(0, 2) == 0 && Shl(0, 3) == 0;
  }

  lemma OrWanted(op: Op, next: Op, regs: map<VReg, Word>, n: nat)
    requires 1 <= n <= 3 && next.code == ALU(OR, false) && next.a3.Imm? && 0 < Raw(next.a3) < Pow2(n)
    requires next.a2.Reg? && Raw(op.a1) != next.a2.reg && Value(next.a2, regs) == Shl(1, n)
    ensures Wanted(op, next, regs) == Raw(next.a3) + Shl(1, n)
  {
    WantedOrOther(op, next, regs);
    OrOfPower(Raw(next.a3), n);
  }

  lemma OrOfPower(k: nat, n: nat)
    requires 1 <= n <= 3 && k < Pow2(n)
    ensures BitOr(Wrap(Shl(1, n)), Wrap(k)) == k + Shl(1, n)
  {
    PowIsShl(n);
    LowPower(n);
    SmallWord(Pow2(n));
    SmallWord(k);
    OrIsAdd(Pow2(n), k, n);
  }

  lemma {:induction false} LowPower(n: nat)
    ensures LowZero(Pow2(n), n)
  {
    if n > 0 { LowPower(n - 1); }
  }

  lemma SmallWord(k: nat)
    requires k <= 8
    ensures Wrap(k) == k && Imm32(k) == k
  {
  }

  lemma PowIsShl(n: nat)
    requires n <= 3
    ensures Pow2(n) == Shl(1, n) <= 8
  {
    assert Shl(1, 0) == 1 && Shl(1, 1) == 2 && Shl(1, 2) == 4 && Shl(1, 3) == 8;
    assert Pow2(0) == 1 && Pow2(1) == 2 && Pow2(2) == 4 && Pow2(3) == 8;
  }

  lemma ScaledTwice(n: nat)
    requires 1 <= n <= 3
    ensures Shl(1, n) < Shl(Shl(1, n), n) <= 64
  {
    assert Shl(1, 0) == 1 && Shl(1, 1) == 2 && Shl(1, 2) == 4 && Shl(1, 3) == 8;
    assert Shl(2, 0) == 2 && Shl(2, 1) == 4;
    assert Shl(4, 0) == 4 && Shl(4, 1) == 8 && Shl(4, 2) == 16;
    assert Shl(8, 0) == 8 && Shl(8, 1) == 16 && Shl(8, 2) == 32 && Shl(8, 3) == 64;
  }

  lemma DiffersBy(a: int, b: int)
    requires a != b && -100 < a - b < 100
    ensures Wrap(a) != Wrap(b)
  {
    WrapSame(a, b);
  }

  lemma WantedOrOther(op: Op, next: Op, regs: map<VReg, Word>)
    requires next.code == ALU(OR, false) && next.a2.Reg? && next.a2 != Reg(Raw(op.a1)) && next.a3.Imm?
    ensures Wanted(op, next, regs) == BitOr(Wrap(Value(next.a2, regs)), Wrap(Raw(next.a3)))
  {
  }

  // ---------- two additions ----------

  lemma GotAddrAddi(op: Op, next: Op, regs: map<VReg, Word>)
    ensures Got(AddrAddi(op, next), regs)
         == Wrap(Value(op.a2, regs) + Value(op.a3, regs) + Imm32(Negated(Raw(next.a3))))
  {
  }

  /** The immediate with the sign the op gives it. */
  function Signed(op: Op): int {
    if op.code == ALU(SUB, false) then -Raw(op.a3) else Raw(op.a3)
  }

  lemma WantedImm(op: Op, next: Op, regs: map<VReg, Word>)
    requires next.code == ALU(ADD, false) || next.code == ALU(SUB, false)
    requires next.a3.Imm?
    ensures Wanted(op, next, regs) == Wrap(Operand(op, next.a2, regs) + Signed(next))
  {
  }

  lemma GotSum(op: Op, regs: map<VReg, Word>)
    requires op.code == ALU(ADD, false) || (op.code == ALU(SUB, false) && op.a3.Imm?)
    ensures Got(op, regs)
         == Wrap(Value(op.a2, regs) + if op.a3.Imm? then Signed(op) else Value(op.a3, regs))
  {
  }

  lemma AddrAddiExactly(op: Op, next: Op, regs: map<VReg, Word>)
    requires op.code == ALU(ADD, false) && op.a3.Reg?
    requires (next.code == ALU(ADD, false) || next.code == ALU(SUB, false)) && next.a3.Imm?
    requires next.a2 == Reg(Raw(op.a1))
    ensures Got(AddrAddi(op, next), regs) == Wanted(op, next, regs) <==> NegationFits(next)
  {
    var sum := Value(op.a2, regs) + Value(op.a3, regs);
    GotAddrAddi(op, next, regs);
    WantedImm(op, next, regs);
    GotSum(op, regs);
    SumsAgree(sum, Imm32(Negated(Raw(next.a3))), Signed(next));
    NegationExactly(next);
  }

  lemma SumsAgree(v: int, x: int, y: int)
    ensures Wrap(v + x) == Wrap(Wrap(v) + y) <==> Wrap(x) == Wrap(y)
  {
    WrapAdd(v, y);
    WrapSame(v + x, v + y);
    WrapSame(x, y);
  }

  /** What the field gives back is what the op adds. */
  lemma NegationExactly(next: Op)
    ensures Wrap(Imm32(Negated(Raw(next.a3)))) == Wrap(Signed(next)) <==> NegationFits(next)
  {
    var k := Raw(next.a3);
    Imm32Half(Negated(k));
    if next.code != ALU(SUB, false) { NegatedField(k); }
  }

  lemma NegatedField(k: int)
    ensures Imm32(Negated(k)) == Wrap(k) <==> Wrap(k) == 0 || Wrap(k) == WORD - 0x8000_0000
  {
    var u := Wrap(k);
    WrapAdd(k, 0);
    assert Negated(k) == if u == 0 then 0 else WORD - u by { NegatedIs(k); }
    if Imm32(Negated(k)) == u {
      Imm32Half(Negated(k));
      assert (2 * u) % 0x1_0000_0000 == 0;
    }
  }

  lemma NegatedIs(k: int)
    ensures Negated(k) == if Wrap(k) == 0 then 0 else WORD - Wrap(k)
  {
    WrapAdd(k, 0);
  }

  lemma AddrAddiWrong(op: Op, next: Op) returns (regs: map<VReg, Word>)
    requires op.code == ALU(ADD, false) && op.a2.Reg? && op.a3.Reg?
    requires (next.code == ALU(ADD, false) || next.code == ALU(SUB, false)) && next.a3.Imm?
    requires next.a2.Reg? && next.a2.reg != Raw(op.a1)
    ensures Got(AddrAddi(op, next), regs) != Wanted(op, next, regs)
  {
    var x, y, z := op.a2.reg, op.a3.reg, next.a2.reg;
    var one := if x == z && y != z then map[y := 1] else if y == z && x != z then map[x := 1] else map[z := 1];
    AddrAddiAt(op, next, map[]);
    AddrAddiAt(op, next, one);
    OneApart(Imm32(Negated(Raw(next.a3))), Signed(next), Read(one, x) + Read(one, y), Read(one, z));
    regs := if Got(AddrAddi(op, next), one) == Wanted(op, next, one) then map[] else one;
  }

  lemma AddrAddiAt(op: Op, next: Op, regs: map<VReg, Word>)
    requires op.code == ALU(ADD, false) && op.a2.Reg? && op.a3.Reg?
    requires (next.code == ALU(ADD, false) || next.code == ALU(SUB, false)) && next.a3.Imm?
    requires next.a2.Reg? && next.a2.reg != Raw(op.a1)
    ensures Got(AddrAddi(op, next), regs)
         == Wrap(Read(regs, op.a2.reg) + Read(regs, op.a3.reg) + Imm32(Negated(Raw(next.a3))))
    ensures Wanted(op, next, regs) == Wrap(Read(regs, next.a2.reg) + Signed(next))
  {
    GotAddrAddi(op, next, regs);
    WantedImm(op, next, regs);
  }

  /** Two sums cannot agree both before and after one of them changes by one. */
  lemma OneApart(c: int, d: int, a: int, b: int)
    requires -1 <= a - b <= 1 && a != b
    ensures Wrap(c) == Wrap(d) ==> Wrap(a + c) != Wrap(b + d)
  {
    WrapSame(c, d);
    WrapSame(a + c, b + d);
  }

  /** The immediate of the first op, twice when the second op adds its result to itself. */
  function Doubled(op: Op, next: Op): int {
    if Raw(next.a2) == Raw(next.a3) then 2 * Signed(op) else Signed(op)
  }

  lemma ExtraIsDoubled(op: Op, next: Op)
    ensures Wrap(AddiExtra(op, next)) == Wrap(Doubled(op, next))
  {
    var k := -Raw(op.a3);
    WrapAdd(k, 0);
    WrapAdd(k, k);
    WrapAdd(k, Wrap(k));
    WrapAdd(2 * Wrap(k), 0);
    WrapAdd(2 * Raw(op.a3), 0);
  }

  lemma GotAddiAddr(op: Op, next: Op, regs: map<VReg, Word>)
    ensures var c := AddiAddr(op, next);
      Got(c, regs) == Wrap(Value(c.a2, regs) + Value(c.a3, regs) + Imm32(AddiExtra(op, next)))
  {
  }

  lemma AddiAddrChained(op: Op, next: Op, regs: map<VReg, Word>)
    requires (op.code == ALU(ADD, false) || op.code == ALU(SUB, false)) && op.a3.Imm?
    requires next.code == ALU(ADD, false) && next.a2.Reg? && next.a3.Reg? && Raw(op.a1) in {next.a2.reg, next.a3.reg}
    ensures var c := AddiAddr(op, next);
      Wanted(op, next, regs) == Wrap(Value(c.a2, regs) + Value(c.a3, regs) + Doubled(op, next))
  {
    var s := Value(op.a2, regs) + Signed(op);
    WantedAdd(op, next, regs);
    GotSum(op, regs);
    SumOfOperands(s, Value(next.a2, regs), Value(next.a3, regs),
                  Raw(next.a2) == Raw(op.a1), Raw(next.a3) == Raw(op.a1));
  }

  lemma AddiAddrExactly(op: Op, next: Op, regs: map<VReg, Word>)
    requires (op.code == ALU(ADD, false) || op.code == ALU(SUB, false)) && op.a3.Imm?
    requires next.code == ALU(ADD, false) && next.a2.Reg? && next.a3.Reg? && Raw(op.a1) in {next.a2.reg, next.a3.reg}
    ensures Got(AddiAddr(op, next), regs) == Wanted(op, next, regs) <==> FitsImm32(AddiExtra(op, next))
  {
    var c, e := AddiAddr(op, next), AddiExtra(op, next);
    var v := Value(c.a2, regs) + Value(c.a3, regs);
    GotAddiAddr(op, next, regs);
    AddiAddrChained(op, next, regs);
    ExtraIsDoubled(op, next);
    CutSum(v, e, Doubled(op, next));
  }

  lemma CutSum(v: int, e: int, d: int)
    requires Wrap(e) == Wrap(d)
    ensures Wrap(v + Imm32(e)) == Wrap(v + d) <==> FitsImm32(e)
  {
    Imm32Half(e);
    WrapSame(v + Imm32(e), v + d);
    WrapSame(Imm32(e), d);
  }

  /** Cutting to 64 bits before adding makes no difference. */
  lemma SumOfOperands(s: int, y: int, z: int, first: bool, second: bool)
    ensures Wrap((if first then Wrap(s) else y) + (if second then Wrap(s) else z))
         == Wrap((if first then s else y) + (if second then s else z))
  {
    SumOfSums(s, y, z);
  }

  lemma SumOfSums(s: int, y: int, z: int)
    ensures Wrap(Wrap(s) + z) == Wrap(s + z) && Wrap(y + Wrap(s)) == Wrap(y + s)
    ensures Wrap(Wrap(s) + Wrap(s)) == Wrap(s + s)
  {
    WrapAdd(s, z);
    WrapAdd(s, y);
    WrapAdd(s, Wrap(s));
    WrapAdd(s, s);
  }

  lemma AddiAddrElse(op: Op, next: Op, regs: map<VReg, Word>)
    requires (op.code == ALU(ADD, false) || op.code == ALU(SUB, false)) && op.a3.Imm?
    requires next.code == ALU(ADD, false) && next.a2.Reg? && next.a3.Reg? && Raw(op.a1) !in {next.a2.reg, next.a3.reg}
    ensures Got(AddiAddr(op, next), regs) == Wanted(op, next, regs) <==> Imm32(AddiExtra(op, next)) == 0
  {
    var y, e := Value(next.a2, regs) + Value(next.a3, regs), AddiExtra(op, next);
    GotAddiAddr(op, next, regs);
    WantedAdd(op, next, regs);
    Imm32Half(e);
    WrapSame(y + Imm32(e), y);
  }

  // ---------- every join, exactly when it is right ----------

  /** What a matching rule says about the two ops. */
  ghost predicate Shaped(j: Join, op: Op, next: Op) {
    && op.a1.TReg? && op.a2.Reg? && next.a1.TReg? && next.a2.Reg?
    && match j
       case MULI_ADDI => SuitableMul(op) && op.a3.Imm? && IsCode(next, ADD, true) && next.a3.Imm?
       case MULI_ORI =>
         SuitableMul(op) && op.a3.Imm? && IsCode(next, OR, true) && next.a3.Imm? && 0 < Raw(next.a3) < Pow2(ShiftOf(op))
       case MULI_ADDR =>
         SuitableMul(op) && op.a3.Imm? && IsCode(next, ADD, false) && next.a3.Reg? && next.a2 != next.a3
       case ADDR_ADDI =>
         IsCode(op, ADD, false) && op.a3.Reg? && (IsCode(next, ADD, true) || IsCode(next, SUB, true)) && next.a3.Imm?
       case ADDI_ADDR =>
         (IsCode(op, ADD, true) || IsCode(op, SUB, true)) && op.a3.Imm? && IsCode(next, ADD, false) && next.a3.Reg?
  }

  lemma RuleShape(r: Rule, op: Op, next: Op)
    requires Matches(r, op, next) && Joined(r.join, op, next).Some?
    ensures Shaped(r.join, op, next)
  {
  }

  lemma RightMeansSame(j: Join, op: Op, next: Op, regs: map<VReg, Word>)
    requires Shaped(j, op, next) && Joined(j, op, next).Some? && Right(j, op, next)
    ensures Got(Joined(j, op, next).value, regs) == Wanted(op, next, regs)
  {
    match j
    case MULI_ADDI => MuliAddiExactly(op, next, regs);
    case MULI_ORI => ScaledOne(op); MuliOri(op, next, regs);
    case MULI_ADDR => MuliAddr(op, next, regs);
    case ADDR_ADDI => AddrAddiExactly(op, next, regs);
    case ADDI_ADDR =>
      if Raw(op.a1) in {next.a2.reg, next.a3.reg} {
        AddiAddrExactly(op, next, regs);
      } else {
        AddiAddrElse(op, next, regs);
      }
  }

  lemma WrongDiffers(j: Join, op: Op, next: Op) returns (regs: map<VReg, Word>)
    requires Shaped(j, op, next) && Joined(j, op, next).Some? && !Right(j, op, next)
    ensures Got(Joined(j, op, next).value, regs) != Wanted(op, next, regs)
  {
    regs := map[];
    match j
    case MULI_ADDI =>
      if next.a2.reg == Raw(op.a1) {
        MuliAddiExactly(op, next, regs);
      } else {
        regs := MuliAddiWrong(op, next);
      }
    case MULI_ORI => regs := MuliOriWrong(op, next);
    case MULI_ADDR => regs := MuliAddrWrong(op, next);
    case ADDR_ADDI =>
      if next.a2.reg == Raw(op.a1) {
        AddrAddiExactly(op, next, regs);
      } else {
        regs := AddrAddiWrong(op, next);
      }
    case ADDI_ADDR =>
      if Raw(op.a1) in {next.a2.reg, next.a3.reg} {
        AddiAddrExactly(op, next, regs);
      } else {
        AddiAddrElse(op, next, regs);
      }
  }

  /** A join does what the two ops did, for all registers, exactly when Right says so: the next op
      reads the result, the immediate has the sign the code assumes, and what becomes of it fits the
      32-bit displacement it is put in. */
  lemma RightExactly(sem: Sem, r: Rule, op: Op, next: Op)
    requires Standard(sem) && Matches(r, op, next) && Joined(r.join, op, next).Some?
    ensures DoesBoth(sem, op, next, Joined(r.join, op, next).value) <==> Right(r.join, op, next)
  {
    RuleShape(r, op, next);
    DoesBothIfSame(sem, r, op, next);
    var c := Joined(r.join, op, next).value;
    if Right(r.join, op, next) {
      forall regs ensures Got(c, regs) == Wanted(op, next, regs) {
        RightMeansSame(r.join, op, next, regs);
      }
    } else {
      var regs := WrongDiffers(r.join, op, next);
      assert Got(c, regs) != Wanted(op, next, regs);
    }
  }
}
