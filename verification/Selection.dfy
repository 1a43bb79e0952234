/** Instruction selection in the allocated code: the machine that runs the two-address sequences of the
    arithmetic ops, on which registers not in use may be overwritten, and the comparisons and conditional
    jumps of the branches, against the one that runs the ops. */
module Selection {
  import opened JitOps
  import opened Machine
  import opened Hardware
  import opened Rmap
  import opened DeadAssign
  import opened Arithmetic
  import opened Conditions
  import Llrb
  import T = TwoAddress

  // ---------- the sequence of an op ----------

  /** jit_reg_in_use */
  predicate RegInUse(op: Op, h: HReg) {
    match IsAssociated(op.regmap, h)
    case Some(v) => v in op.liveIn || v in op.liveOut
    case None => false
  }

  ghost predicate MapOk(op: Op) {
    Llrb.Ordered(op.regmap) && Injective(M(op.regmap))
  }

  /** The test finds out whether the register holds a live value. */
  lemma RegInUseExactly(op: Op, h: HReg)
    requires MapOk(op)
    ensures RegInUse(op, h) <==> InUse(op, h)
  {
    IsAssociatedFinds(op.regmap, h);
  }

  predicate IsArith(op: AluOp) {
    IsUnary(op) || op in {ADD, SUB, RSB, AND, OR, XOR, MUL, HMUL, DIV, MOD}
  }

  predicate IsUnary(op: AluOp) {
    op == MOV || op == NEG
  }

  predicate IsHw(h: HReg) {
    0 <= h < 16
  }

  /** An arithmetic op on hardware registers, its immediate no longer than 32 bits but for a MOV. */
  predicate Selectable(op: Op) {
    && op.code.ALU? && IsArith(op.code.op) && op.a1.TReg? && IsHw(op.r1)
    && (if op.code.op == MOV && op.imm then op.a2.Imm? else op.a2.Reg? && IsHw(op.r2))
    && (!IsUnary(op.code.op) ==>
          if op.imm then op.a3.Imm? && FitsImm32(op.a3.value) else op.a3.Reg? && IsHw(op.r3))
  }

  function KindOf(op: AluOp): T.AluKind {
    if op.AND? then T.AND else if op.OR? then T.OR else T.XOR
  }

  /** A MOV of zero is an XOR. */
  function MovImmCode(d: T.Reg, v: T.W): seq<T.Instr> {
    if v == 0 then [T.AluRR(T.XOR, d, d)] else [T.MovRI(d, v)]
  }

  function UnaryCode(op: Op): seq<T.Instr>
    requires Selectable(op) && IsUnary(op.code.op)
  {
    if op.code.op == NEG then T.MoveIf(op.r1, op.r2) + [T.Neg(op.r1)]
    else if op.imm then MovImmCode(op.r1, Wrap(op.a2.value))
    else T.MoveIf(op.r1, op.r2)
  }

  /** The instructions of jit_gen_op for an op with registers. */
  function RegCode(op: AluOp, signed: bool, d: T.Reg, a: T.Reg, b: T.Reg, ax: bool, dx: bool): seq<T.Instr> {
    match op
    case ADD => T.AddCode(d, a, b)
    case SUB => T.SubCode(d, a, b)
    case RSB => T.RsbCode(d, a, b)
    case MUL => T.MulCode(d, a, b, signed, false, ax, dx)
    case HMUL => T.MulCode(d, a, b, signed, true, ax, dx)
    case DIV => T.DivCode(d, a, b, signed, false, ax, dx)
    case MOD => T.DivCode(d, a, b, signed, true, ax, dx)
    case _ => T.AluCode(KindOf(op), d, a, b)
  }

  /** ... and for an op with an immediate. */
  function ImmCode(op: AluOp, signed: bool, d: T.Reg, a: T.Reg, v: T.W, ax: bool, dx: bool): seq<T.Instr> {
    match op
    case ADD => T.AddImmCode(d, a, v)
    case SUB => T.SubImmCode(d, a, v)
    case RSB => T.RsbImmCode(d, a, v)
    case MUL => T.MulImmCode(d, a, v, signed, false, ax, dx)
    case HMUL => T.MulImmCode(d, a, v, signed, true, ax, dx)
    case DIV => T.DivImmCode(d, a, v, signed, false, ax, dx)
    case MOD => T.DivImmCode(d, a, v, signed, true, ax, dx)
    case _ => T.AluImmCode(KindOf(op), d, a, v)
  }

  function CodeOf(op: Op): seq<T.Instr>
    requires Selectable(op)
  {
    var signed, ax, dx := !op.code.unsigned, RegInUse(op, T.AX), RegInUse(op, T.DX);
    if IsUnary(op.code.op) then UnaryCode(op)
    else if op.imm then ImmCode(op.code.op, signed, op.r1, op.r2, Wrap(op.a3.value), ax, dx)
    else RegCode(op.code.op, signed, op.r1, op.r2, op.r3, ax, dx)
  }

  // ---------- what the sequence delivers ----------

  /** What an arithmetic op means on 64-bit words. */
  function WordMeaning(op: AluOp, signed: bool, x: T.W, y: T.W): T.W {
    match op
    case ADD => T.Wrap(x + y)
    case SUB => T.Wrap(x - y)
    case RSB => T.Wrap(y - x)
    case MUL => T.MulResult(x, y, signed, false)
    case HMUL => T.MulResult(x, y, signed, true)
    case DIV => T.Quotient(x, y, signed, false)
    case MOD => T.Quotient(x, y, signed, true)
    case MOV => x
    case NEG => T.Wrap(-x)
    case AND => T.Alu(T.AND, x, y)
    case OR => T.Alu(T.OR, x, y)
    case XOR => T.Alu(T.XOR, x, y)
    case _ => 0
  }

  /** The bitwise ops, bit by bit. */
  lemma BitMeaning(op: AluOp, signed: bool, x: T.W, y: T.W, i: nat)
    requires T.IsWord(x) && T.IsWord(y) && i < 64 && op in {AND, OR, XOR}
    ensures var r := T.BitAt(WordMeaning(op, signed, x, y), i);
      match op
      case AND => r == (T.BitAt(x, i) && T.BitAt(y, i))
      case OR => r == (T.BitAt(x, i) || T.BitAt(y, i))
      case _ => r == (T.BitAt(x, i) != T.BitAt(y, i))
  {
    var n := 64;
    match op
    case AND => T.BitwiseBits(T.AND, x, y, n, i);
    case OR => T.BitwiseBits(T.OR, x, y, n, i);
    case XOR => T.BitwiseBits(T.XOR, x, y, n, i);
  }

  /** The sequence is right: the least 32-bit number is not negated, a division neither faults nor is
      rounded down by the shortcut. */
  predicate Fine(op: Op, x: T.W, y: T.W) {
    op.code.ALU? ==>
      match op.code.op
      case SUB => op.imm ==> op.r1 == op.r2 || y != T.MIN32
      case RSB => op.imm ==> y != T.MIN32
      case DIV => FineDivision(op.imm, !op.code.unsigned, x, y)
      case MOD => FineDivision(op.imm, !op.code.unsigned, x, y)
      case _ => true
  }

  predicate FineDivision(imm: bool, signed: bool, x: T.W, y: T.W) {
    if imm && y in {2, 4, 8} then !signed || T.Signed(x) >= 0 || x % y == 0 else T.Divides(x, y, signed)
  }

  lemma {:induction false} XorSame(x: T.W, n: nat)
    ensures T.Bitwise(T.XOR, x, x, n) == 0
    decreases n
  {
    if n > 0 { XorSame(x / 2, n - 1); }
  }

  lemma UnaryDelivers(op: Op, x: T.W, c: T.Cpu)
    requires Selectable(op) && IsUnary(op.code.op) && !c.fault
    requires x == if op.a2.Imm? then Wrap(op.a2.value) else c.regs[op.r2]
    ensures T.Delivers(CodeOf(op), c, op.r1, WordMeaning(op.code.op, !op.code.unsigned, x, 0),
      RegInUse(op, T.AX), RegInUse(op, T.DX))
  {
    var d: T.Reg := op.r1;
    if op.a2.Imm? {
      XorSame(c.regs[d], 64);
      T.ExecOne(CodeOf(op)[0], c);
    } else {
      T.MoveRuns(d, op.r2, c);
      T.ExecConcat(T.MoveIf(d, op.r2), [T.Neg(d)], c);
      T.ExecOne(T.Neg(d), T.Exec(T.MoveIf(d, op.r2), c));
    }
    T.SetsDelivers(CodeOf(op), c, d, WordMeaning(op.code.op, !op.code.unsigned, x, 0),
                   RegInUse(op, T.AX), RegInUse(op, T.DX));
  }

  lemma SumSets(op: AluOp, signed: bool, d: T.Reg, a: T.Reg, b: T.Reg, ax: bool, dx: bool, c: T.Cpu)
    requires !c.fault && (op == ADD || op == SUB || op == RSB)
    ensures T.Sets(RegCode(op, signed, d, a, b, ax, dx), c, d, WordMeaning(op, signed, c.regs[a], c.regs[b]))
  {
    match op
    case ADD => T.AddRight(d, a, b, c);
    case SUB => T.SubRight(d, a, b, c);
    case RSB => T.RsbRight(d, a, b, c);
  }

  lemma BitsSet(op: AluOp, signed: bool, d: T.Reg, a: T.Reg, b: T.Reg, ax: bool, dx: bool, c: T.Cpu)
    requires !c.fault && (op == AND || op == OR || op == XOR)
    ensures T.Sets(RegCode(op, signed, d, a, b, ax, dx), c, d, WordMeaning(op, signed, c.regs[a], c.regs[b]))
  {
    match op
    case AND => T.AluRight(T.AND, d, a, b, c);
    case OR => T.AluRight(T.OR, d, a, b, c);
    case XOR => T.AluRight(T.XOR, d, a, b, c);
  }

  lemma RegCodeDelivers(op: AluOp, signed: bool, d: T.Reg, a: T.Reg, b: T.Reg, ax: bool, dx: bool, c: T.Cpu)
    requires !c.fault && T.IsWord(c.regs[a]) && T.IsWord(c.regs[b]) && IsArith(op) && !IsUnary(op)
    ensures (op in {DIV, MOD} ==> FineDivision(false, signed, c.regs[a], c.regs[b]))
      <==> T.Delivers(RegCode(op, signed, d, a, b, ax, dx), c, d, WordMeaning(op, signed, c.regs[a], c.regs[b]), ax, dx)
  {
    match op
    case MUL => T.MulRight(d, a, b, signed, false, ax, dx, c);
    case HMUL => T.MulRight(d, a, b, signed, true, ax, dx, c);
    case DIV => T.DivRight(d, a, b, signed, false, ax, dx, c);
    case MOD => T.DivRight(d, a, b, signed, true, ax, dx, c);
    case ADD | SUB | RSB | AND | OR | XOR =>
      if op == ADD || op == SUB || op == RSB {
        SumSets(op, signed, d, a, b, ax, dx, c);
      } else {
        BitsSet(op, signed, d, a, b, ax, dx, c);
      }
      T.SetsDelivers(RegCode(op, signed, d, a, b, ax, dx), c, d, WordMeaning(op, signed, c.regs[a], c.regs[b]), ax, dx);
  }

  lemma RegDelivers(op: Op, c: T.Cpu)
    requires Selectable(op) && !IsUnary(op.code.op) && !op.imm && !c.fault
    requires T.IsWord(c.regs[op.r2]) && T.IsWord(c.regs[op.r3])
    ensures Fine(op, c.regs[op.r2], c.regs[op.r3])
      <==> T.Delivers(CodeOf(op), c, op.r1,
                      WordMeaning(op.code.op, !op.code.unsigned, c.regs[op.r2], c.regs[op.r3]),
                      RegInUse(op, T.AX), RegInUse(op, T.DX))
  {
    RegCodeDelivers(op.code.op, !op.code.unsigned, op.r1, op.r2, op.r3, RegInUse(op, T.AX), RegInUse(op, T.DX), c);
  }

  /** Code that only writes w to its destination delivers v exactly if that is w. */
  lemma WrittenDelivers(code: seq<T.Instr>, c: T.Cpu, d: T.Reg, w: T.W, v: T.W, ax: bool, dx: bool)
    requires !c.fault && T.Sets(code, c, d, w)
    ensures T.Sets(code, c, d, v) <==> w == v
    ensures T.Delivers(code, c, d, v, ax, dx) <==> w == v
  {
    assert c.regs[d := w][d] == w && c.regs[d := v][d] == v;
    if w == v { T.SetsDelivers(code, c, d, v, ax, dx); }
  }

  lemma SubImmWrites(d: T.Reg, a: T.Reg, v: T.W, c: T.Cpu) returns (w: T.W)
    requires !c.fault
    ensures T.Sets(T.SubImmCode(d, a, v), c, d, w)
  {
    T.ExecOne(T.SubImmCode(d, a, v)[0], c);
    w := T.Exec(T.SubImmCode(d, a, v), c).regs[d];
  }

  lemma RsbImmWrites(d: T.Reg, a: T.Reg, v: T.W, c: T.Cpu) returns (w: T.W)
    requires !c.fault
    ensures T.Sets(T.RsbImmCode(d, a, v), c, d, w)
  {
    T.ExecTwo(T.RsbImmCode(d, a, v)[0], T.Neg(d), c);
    w := T.Exec(T.RsbImmCode(d, a, v), c).regs[d];
  }

  lemma DivisionDelivers(d: T.Reg, a: T.Reg, v: T.W, signed: bool, modulo: bool, ax: bool, dx: bool, c: T.Cpu)
    requires !c.fault && T.IsWord(c.regs[a]) && T.IsWord(v)
    ensures FineDivision(true, signed, c.regs[a], v)
      <==> T.Delivers(T.DivImmCode(d, a, v, signed, modulo, ax, dx), c, d,
                      T.Quotient(c.regs[a], v, signed, modulo), ax, dx)
  {
    if v in {2, 4, 8} {
      T.DivShortcutRuns(d, a, v, signed, modulo, ax, dx, c);
      T.DivShortcutExactly(c.regs[a], v, signed, modulo);
      WrittenDelivers(T.DivImmCode(d, a, v, signed, modulo, ax, dx), c, d,
                      T.ShortcutDivision(c.regs[a], v, signed, modulo), T.Quotient(c.regs[a], v, signed, modulo),
                      ax, dx);
    } else {
      T.DivImmRight(d, a, v, signed, modulo, ax, dx, c);
    }
  }

  /** Whether the sequence for an immediate is right. */
  predicate FineImm(op: AluOp, signed: bool, d: T.Reg, a: T.Reg, x: T.W, y: T.W) {
    match op
    case SUB => d == a || y != T.MIN32
    case RSB => y != T.MIN32
    case DIV => FineDivision(true, signed, x, y)
    case MOD => FineDivision(true, signed, x, y)
    case _ => true
  }

  /** For the ops that only write their destination. */
  lemma ImmSets(op: AluOp, signed: bool, d: T.Reg, a: T.Reg, y: T.W, ax: bool, dx: bool, c: T.Cpu) returns (w: T.W)
    requires !c.fault && T.IsWord(y) && T.Imm32(y) == y && op in {ADD, SUB, RSB, AND, OR, XOR}
    ensures T.Sets(ImmCode(op, signed, d, a, y, ax, dx), c, d, w)
    ensures FineImm(op, signed, d, a, c.regs[a], y)
      <==> T.Sets(ImmCode(op, signed, d, a, y, ax, dx), c, d, WordMeaning(op, signed, c.regs[a], y))
  {
    w := WordMeaning(op, signed, c.regs[a], y);
    match op
    case ADD => T.AddImmRight(d, a, y, c);
    case SUB =>
      T.SubImmExactly(d, a, y, c);
      w := SubImmWrites(d, a, y, c);
    case RSB =>
      T.RsbImmExactly(d, a, y, c);
      w := RsbImmWrites(d, a, y, c);
    case AND => T.AluImmRight(T.AND, d, a, y, c);
    case OR => T.AluImmRight(T.OR, d, a, y, c);
    case XOR => T.AluImmRight(T.XOR, d, a, y, c);
  }

  lemma ImmCodeDelivers(op: AluOp, signed: bool, d: T.Reg, a: T.Reg, y: T.W, ax: bool, dx: bool, c: T.Cpu)
    requires !c.fault && T.IsWord(c.regs[a]) && T.IsWord(y) && T.Imm32(y) == y && IsArith(op) && !IsUnary(op)
    ensures FineImm(op, signed, d, a, c.regs[a], y)
      <==> T.Delivers(ImmCode(op, signed, d, a, y, ax, dx), c, d, WordMeaning(op, signed, c.regs[a], y), ax, dx)
  {
    match op
    case MUL => T.MulImmRight(d, a, y, signed, false, ax, dx, c);
    case HMUL => T.MulImmRight(d, a, y, signed, true, ax, dx, c);
    case DIV => DivisionDelivers(d, a, y, signed, false, ax, dx, c);
    case MOD => DivisionDelivers(d, a, y, signed, true, ax, dx, c);
    case ADD | SUB | RSB | AND | OR | XOR =>
      var w := ImmSets(op, signed, d, a, y, ax, dx, c);
      WrittenDelivers(ImmCode(op, signed, d, a, y, ax, dx), c, d, w, WordMeaning(op, signed, c.regs[a], y), ax, dx);
  }

  lemma ImmDelivers(op: Op, c: T.Cpu)
    requires Selectable(op) && !IsUnary(op.code.op) && op.imm && !c.fault && T.IsWord(c.regs[op.r2])
    ensures Fine(op, c.regs[op.r2], Wrap(op.a3.value))
      <==> T.Delivers(CodeOf(op), c, op.r1,
                      WordMeaning(op.code.op, !op.code.unsigned, c.regs[op.r2], Wrap(op.a3.value)),
                      RegInUse(op, T.AX), RegInUse(op, T.DX))
  {
    ImmFits(op.a3.value);
    ImmCodeDelivers(op.code.op, !op.code.unsigned, op.r1, op.r2, Wrap(op.a3.value), RegInUse(op, T.AX),
                    RegInUse(op, T.DX), c);
  }

  lemma ImmFits(v: Word)
    requires FitsImm32(v)
    ensures T.IsWord(Wrap(v)) && T.Imm32(Wrap(v)) == Wrap(v)
  {
    assert Wrap(v) % 0x1_0000_0000 == v % 0x1_0000_0000;
  }

  // ---------- the meanings agree ----------

  lemma {:induction false} OrBits(x: nat, y: nat, n: nat)
    requires x < T.Pow2(n) && y < T.Pow2(n)
    ensures T.Bitwise(T.OR, x, y, n) == BitOr(x, y)
    decreases n
  {
    if n > 0 {
      OrBits(x / 2, y / 2, n - 1);
      ZeroOr(x / 2);
      ZeroOr(y / 2);
    }
  }

  lemma ZeroOr(x: nat)
    ensures BitOr(0, x) == x && BitOr(x, 0) == x
  {
  }

  lemma {:induction false} PowerAdds(m: nat, n: nat)
    ensures T.Pow2(m + n) == T.Pow2(m) * T.Pow2(n)
  {
    if m > 0 { PowerAdds(m - 1, n); }
  }

  lemma PowerSquares(n: nat, k: nat)
    requires T.Pow2(n) == k
    ensures T.Pow2(n + n) == k * k
  {
    PowerAdds(n, n);
  }

  lemma WordPower()
    ensures T.Pow2(64) == 0x1_0000_0000_0000_0000
  {
    assert T.Pow2(4) == 16 by { T.SmallPowers(); }
    PowerSquares(4, 16);
    PowerSquares(8, 0x100);
    PowerSquares(16, 0x1_0000);
    PowerSquares(32, 0x1_0000_0000);
  }

  lemma WrapProduct(x: int, y: int)
    ensures Wrap(x * y) == Wrap(Wrap(x) * Wrap(y))
  {
    var k, l := x / WORD, y / WORD;
    assert x == Wrap(x) + k * WORD && y == Wrap(y) + l * WORD;
    assert x * y == Wrap(x) * Wrap(y) + (Wrap(x) * l + k * y) * WORD;
    WrapShift(Wrap(x) * Wrap(y), Wrap(x) * l + k * y);
  }

  lemma SumMeaning(x: Word, y: Word)
    ensures T.Wrap(Wrap(x) + Wrap(y)) == Wrap(x + y) && T.Wrap(Wrap(x) - Wrap(y)) == Wrap(x - y)
  {
    WrapAdd(x, y);
    WrapAdd(y, Wrap(x));
    WrapAdd(x, -y);
  }

  lemma ProductMeaning(signed: bool, x: Word, y: Word)
    ensures T.MulResult(Wrap(x), Wrap(y), signed, false) == Wrap(x * y)
  {
    WrapProduct(x, y);
    T.LowProduct(Wrap(x), Wrap(y), signed);
  }

  lemma OrMeaning(x: Word, y: Word)
    ensures T.Alu(T.OR, Wrap(x), Wrap(y)) == BitOr(Wrap(x), Wrap(y))
  {
    WordPower();
    OrBits(Wrap(x), Wrap(y), 64);
  }

  lemma KnownMeaning(op: AluOp, size: nat, extra: Word, signed: bool, x: Word, y: Word)
    requires IsArith(op) && Known(op)
    ensures Meaning(op, size, extra, x, y) == WordMeaning(op, signed, Wrap(x), Wrap(y))
  {
    SumMeaning(x, y);
    ProductMeaning(signed, x, y);
    OrMeaning(x, y);
  }

  /** The ops that Standard leaves open, and the orders and tests, mean what their names say. */
  ghost predicate Named(sem: Sem) {
    && Ordered(sem)
    && forall op: AluOp, u, size, extra, x, y, w {:trigger sem.result(op, u, size, extra, x, y, w)} ::
      IsArith(op) && !Known(op) ==> sem.result(op, u, size, extra, x, y, w) == WordMeaning(op, !u, Wrap(x), Wrap(y))
  }

  lemma ResultMeaning(sem: Sem, op: Op, x: Word, y: Word, w: World)
    requires Standard(sem) && Named(sem) && Selectable(op)
    ensures Result(sem, op, x, y, w) == WordMeaning(op.code.op, !op.code.unsigned, Wrap(x), Wrap(y))
  {
    if Known(op.code.op) { KnownMeaning(op.code.op, op.size, op.extra, !op.code.unsigned, x, y); }
  }

  // ---------- the sequences keep to 64 bits ----------

  predicate WordInstr(i: T.Instr) {
    i.MovRI? ==> T.IsWord(i.v)
  }

  predicate WordCode(code: seq<T.Instr>) {
    forall k | 0 <= k < |code| :: WordInstr(code[k])
  }

  predicate WordCpu(c: T.Cpu) {
    (forall r: T.Reg :: T.IsWord(c.regs[r])) && (forall k | 0 <= k < |c.stack| :: T.IsWord(c.stack[k]))
  }

  lemma {:induction false} BitsBound(k: T.AluKind, x: T.W, y: T.W, n: nat)
    ensures 0 <= T.Bitwise(k, x, y, n) < T.Pow2(n)
    decreases n
  {
    if n > 0 { BitsBound(k, x / 2, y / 2, n - 1); }
  }

  lemma AluIsWord(k: T.AluKind, x: T.W, y: T.W)
    ensures T.IsWord(T.Alu(k, x, y))
  {
    WordPower();
    BitsBound(k, x, y, 64);
  }

  lemma ShiftedIsWord(x: T.W, n: nat)
    requires T.IsWord(x)
    ensures T.IsWord(x / T.Pow2(n))
  {
    T.QuotientBound(x, T.Pow2(n));
  }

  lemma StepKeepsWords(i: T.Instr, c: T.Cpu)
    requires WordInstr(i) && WordCpu(c)
    ensures WordCpu(T.Step(i, c))
  {
    match i
    case AluRR(k, d, s) => AluIsWord(k, c.regs[d], c.regs[s]);
    case AluRI(k, d, v) => AluIsWord(k, c.regs[d], T.Imm32(v));
    case Shr(d, n) => ShiftedIsWord(c.regs[d], n);
    case _ =>
  }

  lemma {:induction false} CodeKeepsWords(code: seq<T.Instr>, c: T.Cpu)
    requires WordCode(code) && WordCpu(c)
    ensures WordCpu(T.Exec(code, c))
  {
    if code != [] {
      StepKeepsWords(code[0], c);
      CodeKeepsWords(code[1..], T.Step(code[0], c));
    }
  }

  lemma Joined(a: seq<T.Instr>, b: seq<T.Instr>)
    requires WordCode(a) && WordCode(b)
    ensures WordCode(a + b)
  {
  }

  lemma GuardedIsWord(d: T.Reg, ax: bool, dx: bool, core: seq<T.Instr>)
    requires WordCode(core)
    ensures WordCode(T.Guarded(d, ax, dx, core))
  {
    var pre := T.PushIf(d != T.AX && ax, T.AX) + T.PushIf(d != T.DX && dx, T.DX);
    Joined(pre, core);
    Joined(pre + core, T.PopIf(d != T.DX && dx, T.DX));
    Joined(pre + core + T.PopIf(d != T.DX && dx, T.DX), T.PopIf(d != T.AX && ax, T.AX));
  }

  lemma RegCodeIsWord(op: AluOp, signed: bool, d: T.Reg, a: T.Reg, b: T.Reg, ax: bool, dx: bool)
    ensures WordCode(RegCode(op, signed, d, a, b, ax, dx))
  {
    match op
    case MUL => GuardedIsWord(d, ax, dx, T.MulCore(d, a, b, signed, false));
    case HMUL => GuardedIsWord(d, ax, dx, T.MulCore(d, a, b, signed, true));
    case DIV => GuardedIsWord(d, ax, dx, T.DivSteps(a, b, signed) + T.MoveIf(d, T.AX));
    case MOD => GuardedIsWord(d, ax, dx, T.DivSteps(a, b, signed) + T.MoveIf(d, T.DX));
    case _ =>
  }

  lemma MulImmIsWord(d: T.Reg, a: T.Reg, v: T.W, signed: bool, high: bool, ax: bool, dx: bool)
    requires T.IsWord(v)
    ensures WordCode(T.MulImmCode(d, a, v, signed, high, ax, dx))
  {
    if !T.Shortcut(v, high) { GuardedIsWord(d, ax, dx, T.MulImmCore(d, a, v, signed, high)); }
  }

  lemma DivImmIsWord(d: T.Reg, a: T.Reg, v: T.W, signed: bool, modulo: bool, ax: bool, dx: bool)
    requires T.IsWord(v)
    ensures WordCode(T.DivImmCode(d, a, v, signed, modulo, ax, dx))
  {
    if v != 2 && v != 4 && v != 8 {
      GuardedIsWord(d, ax, dx, T.DivImmSteps(d, a, v, signed) + T.MoveIf(d, if modulo then T.DX else T.AX));
    }
  }

  lemma ImmCodeIsWord(op: AluOp, signed: bool, d: T.Reg, a: T.Reg, v: T.W, ax: bool, dx: bool)
    requires T.IsWord(v)
    ensures WordCode(ImmCode(op, signed, d, a, v, ax, dx))
  {
    match op
    case MUL => MulImmIsWord(d, a, v, signed, false, ax, dx);
    case HMUL => MulImmIsWord(d, a, v, signed, true, ax, dx);
    case DIV => DivImmIsWord(d, a, v, signed, false, ax, dx);
    case MOD => DivImmIsWord(d, a, v, signed, true, ax, dx);
    case _ =>
  }

  lemma CodeIsWord(op: Op)
    requires Selectable(op)
    ensures WordCode(CodeOf(op))
  {
    var signed, ax, dx := !op.code.unsigned, RegInUse(op, T.AX), RegInUse(op, T.DX);
    if IsUnary(op.code.op) {
    } else if op.imm {
      ImmFits(op.a3.value);
      ImmCodeIsWord(op.code.op, signed, op.r1, op.r2, Wrap(op.a3.value), ax, dx);
    } else {
      RegCodeIsWord(op.code.op, signed, op.r1, op.r2, op.r3, ax, dx);
    }
  }

  lemma AfterCodeWords(op: Op, regs: T.Regs)
    requires Selectable(op) && forall r: T.Reg :: T.IsWord(regs[r])
    ensures WordCpu(T.Exec(CodeOf(op), T.Cpu(regs, [], false)))
  {
    CodeIsWord(op);
    CodeKeepsWords(CodeOf(op), T.Cpu(regs, [], false));
  }

  // ---------- the machine that runs the sequences ----------

  function RegsOf(hw: map<HReg, Word>): T.Regs {
    seq(16, h => Read(hw, h))
  }

  function WithRegs(hw: map<HReg, Word>, regs: T.Regs): map<HReg, Word> {
    hw + map h | 0 <= h < 16 :: regs[h]
  }

  function AfterCode(op: Op, hw: map<HReg, Word>): T.Cpu
    requires Selectable(op)
  {
    T.Exec(CodeOf(op), T.Cpu(RegsOf(hw), [], false))
  }

  /** A branch whose operands are registers or an immediate of 32 bits. */
  predicate BranchSelectable(op: Op) {
    && IsBranch(op) && !op.a1.TReg? && op.a2.Reg? && IsHw(op.r2)
    && if op.imm then op.a3.Imm? && FitsImm32(op.a3.value) && T.IsWord(op.a3.value) else op.a3.Reg? && IsHw(op.r3)
  }

  /** The processor extends an immediate with its sign. */
  function SecondOperand(op: Op, hw: map<HReg, Word>): T.W
    requires BranchSelectable(op)
  {
    if op.imm then T.Imm32(op.a3.value) else Read(hw, op.r3)
  }

  /** ADD and SUB leave their result in the first operand, CMP and TEST do not. */
  function AfterComparison(c: Comparison, d: HReg, x: T.W, y: T.W, hw: map<HReg, Word>): map<HReg, Word> {
    match c
    case ADD_TO => hw[d := T.Wrap(x + y)]
    case SUB_FROM => hw[d := T.Wrap(x - y)]
    case _ => hw
  }

  /** The comparison and the conditional jump of a branch. */
  function BranchStep(q: seq<Op>, pc: nat, st: Store, w: World): HState
    requires pc < |q| && BranchSelectable(q[pc])
  {
    var op := q[pc];
    var x, y, c := Read(st.hw, op.r2), SecondOperand(op, st.hw), ComparisonOf(op.code);
    HRunning(if JumpsOn(ConditionByte(op.code) + 0x10, FlagsAfter(c, x, y)) then Goto(q, op) else pc + 1,
             st.(hw := AfterComparison(c, op.r2, x, y, st.hw)), w)
  }

  /** An arithmetic op or a branch is run by its instructions, every other op as before.  A fault ends the
      run: no further step is made. */
  ghost function CStep(sem: Sem, q: seq<Op>, s: HState): HState {
    if s.HRunning? && s.pc < |q| && Selectable(q[s.pc]) then
      var e := AfterCode(q[s.pc], s.store.hw);
      if e.fault then s else HRunning(s.pc + 1, s.store.(hw := WithRegs(s.store.hw, e.regs)), s.world)
    else if s.HRunning? && s.pc < |q| && BranchSelectable(q[s.pc]) then BranchStep(q, s.pc, s.store, s.world)
    else HStep(sem, q, s)
  }

  ghost function CStepper(sem: Sem, q: seq<Op>): HState -> HState {
    s => CStep(sem, q, s)
  }

  ghost function CRun(sem: Sem, q: seq<Op>, s: HState, n: nat): HState {
    Iterate(CStepper(sem, q), s, n)
  }

  /** The same meanings, with what the sequences leave in the registers. */
  function Selected(sem: Sem): Sem {
    sem.(scratch := (op: Op, hw: map<HReg, Word>) =>
      if Selectable(op) then WithRegs(hw, AfterCode(op, hw).regs) else sem.scratch(op, hw))
  }

  ghost predicate WordsIn<K(!new)>(m: map<K, Word>) {
    forall k <- m :: T.IsWord(m[k])
  }

  /** The op that is about to run, if it is an arithmetic one, is one whose sequence is right. */
  ghost predicate FineAt(q: seq<Op>, s: HState) {
    s.HRunning? && s.pc < |q| && Selectable(q[s.pc]) ==>
      var op := q[s.pc];
      Fine(op, HValue(op.a2, op.r2, s.store.hw), Wrap(HValue(op.a3, op.r3, s.store.hw)))
  }

  ghost predicate MapsOk(q: seq<Op>) {
    forall i {:trigger q[i]} | 0 <= i < |q| && q[i].code.ALU? :: MapOk(q[i])
  }

  lemma RegRead(hw: map<HReg, Word>, h: T.Reg)
    requires WordsIn(hw)
    ensures RegsOf(hw)[h] == Read(hw, h) == Wrap(Read(hw, h)) && T.IsWord(RegsOf(hw)[h])
  {
  }

  /** The sequence leaves the result, and every register in use as it was. */
  lemma AfterCodeRight(op: Op, hw: map<HReg, Word>)
    requires Selectable(op) && WordsIn(hw)
    requires Fine(op, HValue(op.a2, op.r2, hw), Wrap(HValue(op.a3, op.r3, hw)))
    ensures var x, y := HValue(op.a2, op.r2, hw), HValue(op.a3, op.r3, hw);
      T.Delivers(CodeOf(op), T.Cpu(RegsOf(hw), [], false), op.r1,
        WordMeaning(op.code.op, !op.code.unsigned, Wrap(x), Wrap(y)), RegInUse(op, T.AX), RegInUse(op, T.DX))
  {
    if op.a2.Reg? { RegRead(hw, op.r2); }
    if IsUnary(op.code.op) {
      var x := Wrap(HValue(op.a2, op.r2, hw));
      UnaryDelivers(op, x, T.Cpu(RegsOf(hw), [], false));
      assert WordMeaning(op.code.op, !op.code.unsigned, x, 0)
        == WordMeaning(op.code.op, !op.code.unsigned, x, Wrap(HValue(op.a3, op.r3, hw)));
    } else if op.imm {
      ImmDelivers(op, T.Cpu(RegsOf(hw), [], false));
    } else {
      RegRead(hw, op.r3);
      RegDelivers(op, T.Cpu(RegsOf(hw), [], false));
    }
  }

  lemma KeptInUse(op: Op, hw: map<HReg, Word>, v: T.W, h: HReg)
    requires Selectable(op) && MapOk(op) && IsHw(h) && h != op.r1 && InUse(op, h)
    requires T.Delivers(CodeOf(op), T.Cpu(RegsOf(hw), [], false), op.r1, v, RegInUse(op, T.AX), RegInUse(op, T.DX))
    ensures AfterCode(op, hw).regs[h] == Read(hw, h)
  {
    RegInUseExactly(op, h);
    var r: T.Reg := h;
    assert T.Other(r, op.r1) || r == T.AX || r == T.DX;
  }

  lemma LeftRegs(sem: Sem, op: Op, hw: map<HReg, Word>, v: T.W)
    requires Selectable(op) && MapOk(op)
    requires T.Delivers(CodeOf(op), T.Cpu(RegsOf(hw), [], false), op.r1, v, RegInUse(op, T.AX), RegInUse(op, T.DX))
    ensures WithRegs(hw, AfterCode(op, hw).regs) == Scratched(Selected(sem), op, hw)[op.r1 := v]
  {
    var a, s := WithRegs(hw, AfterCode(op, hw).regs), Scratched(Selected(sem), op, hw)[op.r1 := v];
    assert a.Keys == s.Keys;
    forall h | h in a ensures a[h] == s[h] {
      if IsHw(h) && h != op.r1 && InUse(op, h) { KeptInUse(op, hw, v, h); }
    }
  }

  lemma SelectedKeeps(sem: Sem)
    requires Standard(sem) && Named(sem)
    ensures Standard(Selected(sem)) && Named(Selected(sem))
  {
  }

  lemma ArithEffect(sem: Sem, op: Op, x1: Word, x2: Word, x3: Word, w: World)
    requires Standard(sem) && Selectable(op)
    ensures Effect(sem, op, x1, x2, x3, w) == w && Control(sem, op.code, x1, x2, x3) == Fall && !Overwrites(op)
    ensures !IsMove(op)
  {
    assert !SetsCarry(op.code) && !Stores(op.code.op);
  }

  lemma SecondIsValue(op: Op, hw: map<HReg, Word>)
    requires BranchSelectable(op) && WordsIn(hw)
    ensures SecondOperand(op, hw) == HValue(op.a3, op.r3, hw) && T.IsWord(SecondOperand(op, hw))
  {
  }

  /** The comparison and the jump do what the branch does, and leave what it leaves. */
  lemma SelectedBranch(sem: Sem, q: seq<Op>, pc: nat, st: Store, w: World)
    requires Standard(sem) && Ordered(sem) && WordsIn(st.hw) && pc < |q| && BranchSelectable(q[pc])
    ensures BranchStep(q, pc, st, w) == HStep(sem, q, HRunning(pc, st, w))
  {
    var op := q[pc];
    SecondIsValue(op, st.hw);
    var x, y := Read(st.hw, op.r2), SecondOperand(op, st.hw);
    BranchRight(sem, op.code, HValue(op.a1, op.r1, st.hw), x, y);
    assert Overwrites(op) ==> sem.sum(op.code.kind, x, y) == Sum(op.code.kind, x, y);
    assert AfterComparison(ComparisonOf(op.code), op.r2, x, y, st.hw) == Compared(sem, op, op.r2, x, y, st.hw);
  }

  /** One step of the machine that runs the sequences is one step of the machine that runs the ops and
      leaves what the sequences leave. */
  lemma SelectedStep(sem: Sem, q: seq<Op>, s: HState)
    requires Standard(sem) && Named(sem) && MapsOk(q) && FineAt(q, s) && (s.HRunning? ==> WordsIn(s.store.hw))
    ensures CStep(sem, q, s) == HStep(Selected(sem), q, s)
  {
    if s.HRunning? && s.pc < |q| {
      var op, hw := q[s.pc], s.store.hw;
      if Selectable(op) {
        var x1, x2, x3 := HValue(op.a1, op.r1, hw), HValue(op.a2, op.r2, hw), HValue(op.a3, op.r3, hw);
        SelectedKeeps(sem);
        AfterCodeRight(op, hw);
        ArithEffect(Selected(sem), op, x1, x2, x3, s.world);
        ResultMeaning(Selected(sem), op, x2, x3, s.world);
        LeftRegs(sem, op, hw, Result(Selected(sem), op, x2, x3, s.world));
      } else if BranchSelectable(op) {
        SelectedKeeps(sem);
        SelectedBranch(Selected(sem), q, s.pc, s.store, s.world);
      } else {
        assert Scratched(sem, op, hw) == Scratched(Selected(sem), op, hw);
      }
    }
  }

  // ---------- runs ----------

  /** Ops deliver 64-bit words. */
  ghost predicate DeliversWords(sem: Sem) {
    && (forall op: AluOp, u, size, extra, x, y, w {:trigger sem.result(op, u, size, extra, x, y, w)} ::
          T.IsWord(sem.result(op, u, size, extra, x, y, w)))
    && (forall k: TestKind, x, y {:trigger sem.sum(k, x, y)} :: k.BOADD? || k.BOSUB? ==> T.IsWord(sem.sum(k, x, y)))
    && (forall op: Op, hw {:trigger sem.scratch(op, hw)} :: WordsIn(hw) ==> WordsIn(sem.scratch(op, hw)))
  }

  ghost predicate OnWords(s: HState) {
    s.HRunning? ==> WordsIn(s.store.hw) && WordsIn(s.store.slots)
  }

  lemma LeftAreWords(op: Op, hw: map<HReg, Word>)
    requires Selectable(op) && WordsIn(hw)
    ensures WordsIn(WithRegs(hw, AfterCode(op, hw).regs))
  {
    AfterCodeWords(op, RegsOf(hw));
    var regs := AfterCode(op, hw).regs;
    forall h | h in WithRegs(hw, regs) ensures T.IsWord(WithRegs(hw, regs)[h]) {
      if IsHw(h) {
        var r: T.Reg := h;
        assert T.IsWord(regs[r]);
      }
    }
  }

  lemma SelectedWords(sem: Sem)
    requires DeliversWords(sem)
    ensures DeliversWords(Selected(sem))
  {
    forall op: Op, hw | WordsIn(hw) ensures WordsIn(Selected(sem).scratch(op, hw)) {
      if Selectable(op) { LeftAreWords(op, hw); } else { assert WordsIn(sem.scratch(op, hw)); }
    }
  }

  lemma ScratchedWords(sem: Sem, op: Op, hw: map<HReg, Word>)
    requires DeliversWords(sem) && WordsIn(hw)
    ensures WordsIn(Scratched(sem, op, hw))
  {
    assert WordsIn(sem.scratch(op, hw));
  }

  /** Only results and sums are written that are words. */
  lemma StepOnWords(sem: Sem, q: seq<Op>, s: HState)
    requires DeliversWords(sem) && OnWords(s)
    requires s.HRunning? && s.pc < |q| && q[s.pc].a1.TReg? && !IsMove(q[s.pc]) ==> q[s.pc].code.ALU?
    ensures OnWords(HStep(sem, q, s))
  {
    if s.HRunning? && s.pc < |q| && !IsMove(q[s.pc]) {
      ScratchedWords(sem, q[s.pc], s.store.hw);
    }
  }

  /** Ops other than moves that write a register are ALU ops. */
  ghost predicate TargetsOk(q: seq<Op>) {
    forall i {:trigger q[i]} | 0 <= i < |q| && q[i].a1.TReg? && !IsMove(q[i]) :: q[i].code.ALU?
  }

  /** No arithmetic op is reached whose sequence is wrong there. */
  ghost predicate StaysFine(sem: Sem, q: seq<Op>, s: HState) {
    forall n: nat {:trigger CRun(sem, q, s, n)} :: FineAt(q, CRun(sem, q, s, n))
  }

  lemma SelectedNext(sem: Sem, q: seq<Op>, s: HState)
    requires Standard(sem) && Named(sem) && DeliversWords(sem) && MapsOk(q) && TargetsOk(q)
    requires OnWords(s) && FineAt(q, s)
    ensures CStep(sem, q, s) == HStep(Selected(sem), q, s) && OnWords(CStep(sem, q, s))
  {
    SelectedStep(sem, q, s);
    SelectedWords(sem);
    StepOnWords(Selected(sem), q, s);
  }

  lemma {:induction false} SelectedRun(sem: Sem, q: seq<Op>, s: HState, n: nat)
    requires Standard(sem) && Named(sem) && DeliversWords(sem) && MapsOk(q) && TargetsOk(q)
    requires OnWords(s) && StaysFine(sem, q, s)
    ensures CRun(sem, q, s, n) == HRun(Selected(sem), q, s, n) && OnWords(CRun(sem, q, s, n))
  {
    if n > 0 {
      SelectedRun(sem, q, s, n - 1);
      assert FineAt(q, CRun(sem, q, s, n - 1));
      SelectedNext(sem, q, CRun(sem, q, s, n - 1));
    }
  }

  lemma {:induction false} SelectedVirtual(sem: Sem, p: seq<Op>, s: State, n: nat)
    ensures Run(Selected(sem), p, s, n) == Run(sem, p, s, n)
  {
    if n > 0 { SelectedVirtual(sem, p, s, n - 1); }
  }

  /** What needs no such condition: there is no division, and no immediate that cannot be negated. */
  predicate Tame(op: Op) {
    op.code.ALU? ==>
      && op.code.op !in {DIV, MOD}
      && (op.code.op in {SUB, RSB} && op.imm && op.a3.Imm? ==> Wrap(op.a3.value) != T.MIN32)
  }

  ghost predicate AllTame(q: seq<Op>) {
    forall i {:trigger q[i]} | 0 <= i < |q| :: Tame(q[i])
  }

  lemma TameStaysFine(sem: Sem, q: seq<Op>, s: HState)
    requires AllTame(q)
    ensures StaysFine(sem, q, s)
  {
    forall n: nat ensures FineAt(q, CRun(sem, q, s, n)) {
      var t := CRun(sem, q, s, n);
      if t.HRunning? && t.pc < |q| { assert Tame(q[t.pc]); }
    }
  }

  // ---------- such a machine ----------

  ghost function NamedSem(): Sem {
    ReferenceSem().(result := (op: AluOp, u: bool, size: nat, extra: Word, x: Word, y: Word, w: World) =>
        if IsArith(op) && !Known(op) then WordMeaning(op, !u, Wrap(x), Wrap(y)) else Meaning(op, size, extra, x, y),
      less := (u: bool, x: Word, y: Word) => if u then x < y else T.Signed(x) < T.Signed(y),
      test := (k: TestKind, x: Word, y: Word) => Tested(k, x, y))
  }

  lemma MeaningIsWord(op: AluOp, size: nat, extra: Word, x: Word, y: Word)
    ensures T.IsWord(Meaning(op, size, extra, x, y))
  {
    if op == OR {
      WordPower();
      OrBits(Wrap(x), Wrap(y), 64);
      BitsBound(T.OR, Wrap(x), Wrap(y), 64);
    }
  }

  lemma WordMeaningIsWord(op: AluOp, signed: bool, x: T.W, y: T.W)
    requires T.IsWord(x)
    ensures T.IsWord(WordMeaning(op, signed, x, y))
  {
    AluIsWord(KindOf(op), x, y);
  }

  lemma NamedExists()
    ensures Standard(NamedSem()) && Named(NamedSem()) && DeliversWords(NamedSem())
  {
    StandardExists();
    forall op: AluOp, u: bool, size, extra, x, y, w ensures T.IsWord(NamedSem().result(op, u, size, extra, x, y, w)) {
      MeaningIsWord(op, size, extra, x, y);
      WordMeaningIsWord(op, !u, Wrap(x), Wrap(y));
    }
  }
}
