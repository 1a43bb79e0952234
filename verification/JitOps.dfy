/** The three-operand ops of jitlib-core.h, kept as a list, and the machine that runs such a
    list on virtual registers.  What an arithmetic op computes is left to a parameter `Sem`. */
module JitOps {
  import Llrb
  import opened Machine

  /** A 64-bit word as the integer it stands for without sign. */
  type Word = int
  type VReg = int
  type HReg = int

  datatype Option<+T> = None | Some(value: T)

  // ---------- ops ----------

  /** One argument with its type from `spec`: a register read (REG), an immediate (IMM) or the
      target register (TREG). */
  datatype Arg = No | Reg(reg: VReg) | Imm(value: Word) | TReg(reg: VReg)

  datatype Cond = LT | LE | GT | GE | EQ | NE

  datatype TestKind = BMS | BMC | BOADD | BOSUB

  datatype AluOp =
    | MOV | LD | LDX | ST | STX | ADD | ADDC | ADDX | SUB | SUBC | SUBX | RSB | NEG
    | MUL | HMUL | DIV | MOD | OR | XOR | AND | LSH | RSH | NOT
    | SLT | SLE | SGT | SGE | SEQ | SNE
    | STI | STXI | ADDMUL_IMM | ADDMUL_REG | ADDIMM

  /** A jump or branch finds its target by the id of a LABEL or PATCH op, which stands for the
      address of that op.  UREG and LREG are what the register allocator inserts. */
  datatype Code =
    | CODESTART
    | PROLOG(gpArgs: nat, fpArgs: nat)
    | GETARG(index: nat, isFloat: bool)
    | LABEL(id: nat)
    | PATCH(id: nat)
    | NOP
    | JMP
    | BRANCH(cond: Cond, unsigned: bool)
    | TEST(kind: TestKind)
    | RET
    | ALU(op: AluOp, unsigned: bool)
    | UREG(vreg: VReg, hreg: HReg)
    | LREG(hreg: HReg, vreg: VReg)

  /** The registers live before and after an op. */
  datatype Liveness = Liveness(into: set<VReg>, out: set<VReg>)

  datatype Hint = Hint(lastPos: int, calleeSaved: int, eax: int)

  datatype Op = Op(
    code: Code, imm: bool, a1: Arg, a2: Arg, a3: Arg, jmp: Option<nat>,
    size: nat, extra: Word,
    liveIn: set<VReg>, liveOut: set<VReg>,
    regmap: Llrb.Tree<HReg>, pos: int, hints: map<VReg, Hint>,
    r1: HReg, r2: HReg, r3: HReg)

  predicate IsBranch(op: Op) {
    op.code.BRANCH? || op.code.TEST?
  }

  predicate IsJump(op: Op) {
    IsBranch(op) || op.code.JMP?
  }

  function NewOp(code: Code, imm: bool, a1: Arg, a2: Arg, a3: Arg, jmp: Option<nat>): Op {
    Op(code, imm, a1, a2, a3, jmp, 0, 0, {}, {}, Llrb.Leaf, 0, map[], -1, -1, -1)
  }

  /** __mkreg: one bit for the type, two for the kind, one for the part, then the number. */
  function MkReg(isFloat: bool, spec: nat, id: nat): VReg {
    (if isFloat then 1 else 0) + 2 * spec + 16 * id
  }

  const RTYPE_REG := 0
  const RTYPE_IMM := 1
  const RTYPE_ALIAS := 2
  const RTYPE_ARG := 3
  const GP_ARG_REGS := 6
  const FP_ARG_REGS := 8

  const R_IMM: VReg := MkReg(false, RTYPE_IMM, 0)

  function ArgReg(index: nat, isFloat: bool): VReg {
    MkReg(isFloat, RTYPE_ARG, index)
  }

  function Min(a: nat, b: nat): nat {
    if a < b then a else b
  }

  function ArgRegs(n: nat, isFloat: bool): set<VReg> {
    set j: nat | j < n :: ArgReg(j, isFloat)
  }

  /** The registers a PROLOG hands its arguments over in. */
  function PrologArgs(gpArgs: nat, fpArgs: nat): set<VReg> {
    ArgRegs(Min(gpArgs, GP_ARG_REGS), false) + ArgRegs(Min(fpArgs, FP_ARG_REGS), true)
  }

  // ---------- registers an op reads and writes ----------

  function ArgUse(a: Arg): set<VReg> {
    if a.Reg? then {a.reg} else {}
  }

  function ArgDef(a: Arg): set<VReg> {
    if a.TReg? then {a.reg} else {}
  }

  function Uses(op: Op): set<VReg> {
    ArgUse(op.a1) + ArgUse(op.a2) + ArgUse(op.a3)
    + if op.code.GETARG? then {ArgReg(op.code.index, op.code.isFloat)} else {}
  }

  function Defs(op: Op): set<VReg> {
    ArgDef(op.a1) + ArgDef(op.a2) + ArgDef(op.a3)
    + if op.code.PROLOG? then PrologArgs(op.code.gpArgs, op.code.fpArgs) else {}
  }

  /** The register arguments in `arg[]` order of kind, as `jit_collect_statistics` gathers them. */
  function Mentions(op: Op): set<VReg> {
    ArgUse(op.a1) + ArgUse(op.a2) + ArgUse(op.a3) + ArgDef(op.a1) + ArgDef(op.a2) + ArgDef(op.a3)
  }

  // ---------- jump targets ----------

  predicate IsTarget(op: Op, id: nat) {
    (op.code.LABEL? || op.code.PATCH?) && op.code.id == id
  }

  /** The position of the LABEL or PATCH with this id; the length of the list if there is none. */
  function Find(p: seq<Op>, id: nat): nat {
    if p == [] then 0
    else if IsTarget(p[0], id) then 0
    else 1 + Find(p[1..], id)
  }

  lemma {:induction false} FindsFirst(p: seq<Op>, id: nat)
    ensures var k := Find(p, id);
      && k <= |p| && (k < |p| ==> IsTarget(p[k], id))
      && (forall i | 0 <= i < k :: !IsTarget(p[i], id))
  {
    if p != [] { FindsFirst(p[1..], id); }
  }

  lemma {:induction false} SameTargets(p: seq<Op>, q: seq<Op>, id: nat)
    requires |p| == |q| && forall i | 0 <= i < |p| :: IsTarget(p[i], id) == IsTarget(q[i], id)
    ensures Find(p, id) == Find(q, id)
  {
    if p != [] {
      assert forall i | 0 <= i < |p| - 1 :: p[1..][i] == p[i + 1] && q[1..][i] == q[i + 1];
      SameTargets(p[1..], q[1..], id);
    }
  }

  function Goto(p: seq<Op>, op: Op): nat {
    if op.jmp.Some? then Find(p, op.jmp.value) else |p|
  }

  ghost predicate DistinctTargets(p: seq<Op>) {
    forall i, j, id | 0 <= i < j < |p| :: !(IsTarget(p[i], id) && IsTarget(p[j], id))
  }

  lemma OneTarget(p: seq<Op>, i: nat, k: nat, id: nat)
    requires DistinctTargets(p) && i < |p| && k < |p| && IsTarget(p[i], id) && IsTarget(p[k], id)
    ensures i == k
  {
  }

  // ---------- the virtual-register machine ----------

  datatype World = World(carry: bool, mem: map<Word, Word>)

  /** What the ops mean: the value an ALU op delivers, what it does to carry and memory, the
      signed and unsigned order, when a mask or overflow branch is taken, what an overflow branch
      leaves in its first operand, the incoming arguments, and what the instructions of an ALU op
      leave in hardware registers besides its result. */
  datatype Sem = Sem(
    result: (AluOp, bool, nat, Word, Word, Word, World) -> Word,
    effect: (AluOp, bool, nat, Word, Word, Word, World) -> World,
    less: (bool, Word, Word) -> bool,
    test: (TestKind, Word, Word) -> bool,
    sum: (TestKind, Word, Word) -> Word,
    args: VReg -> Word,
    scratch: (Op, map<HReg, Word>) -> map<HReg, Word>)

  function Compare(sem: Sem, c: Cond, unsigned: bool, x: Word, y: Word): bool {
    match c
    case LT => sem.less(unsigned, x, y)
    case LE => !sem.less(unsigned, y, x)
    case GT => sem.less(unsigned, y, x)
    case GE => !sem.less(unsigned, x, y)
    case EQ => x == y
    case NE => x != y
  }

  datatype Outcome = Fall | Taken | Return(value: Word)

  function Control(sem: Sem, code: Code, x1: Word, x2: Word, x3: Word): Outcome {
    match code
    case JMP => Taken
    case BRANCH(c, u) => if Compare(sem, c, u, x2, x3) then Taken else Fall
    case TEST(k) => if sem.test(k, x2, x3) then Taken else Fall
    case RET => Return(x1)
    case _ => Fall
  }

  function Result(sem: Sem, op: Op, x2: Word, x3: Word, w: World): Word {
    if op.code.ALU? then sem.result(op.code.op, op.code.unsigned, op.size, op.extra, x2, x3, w) else x2
  }

  function Effect(sem: Sem, op: Op, x1: Word, x2: Word, x3: Word, w: World): World {
    if op.code.ALU? then sem.effect(op.code.op, op.code.unsigned, op.size, x1, x2, x3, w) else w
  }

  /** The overflow branches add to or subtract from their first operand in place. */
  predicate Overwrites(op: Op) {
    op.code.TEST? && (op.code.kind.BOADD? || op.code.kind.BOSUB?) && op.a2.Reg?
  }

  /** The registers once the op has compared; k is where its first operand is. */
  function Compared(sem: Sem, op: Op, k: int, x2: Word, x3: Word, regs: map<int, Word>): map<int, Word> {
    if Overwrites(op) then regs[k := sem.sum(op.code.kind, x2, x3)] else regs
  }

  function Operand(op: Op): VReg {
    if op.a2.Reg? then op.a2.reg else 0
  }

  function Read<K>(m: map<K, Word>, k: K): Word {
    if k in m then m[k] else 0
  }

  function Value(a: Arg, regs: map<VReg, Word>): Word {
    match a
    case Reg(r) => Read(regs, r)
    case Imm(v) => v
    case _ => 0
  }

  function Value2(op: Op, regs: map<VReg, Word>): Word {
    if op.code.GETARG? then Read(regs, ArgReg(op.code.index, op.code.isFloat)) else Value(op.a2, regs)
  }

  datatype State =
    | Running(pc: nat, regs: map<VReg, Word>, world: World)
    | Halted(value: Word, world: World)

  function Written(sem: Sem, op: Op, regs: map<VReg, Word>, v: Word): map<VReg, Word> {
    if op.code.PROLOG? then
      regs + map r | r in PrologArgs(op.code.gpArgs, op.code.fpArgs) :: sem.args(r)
    else if op.a1.TReg? then regs[op.a1.reg := v]
    else regs
  }

  function Step(sem: Sem, p: seq<Op>, s: State): State {
    if s.Halted? || s.pc >= |p| then s
    else
      var op := p[s.pc];
      var x1, x2, x3 := Value(op.a1, s.regs), Value2(op, s.regs), Value(op.a3, s.regs);
      var w := Effect(sem, op, x1, x2, x3, s.world);
      var regs := Compared(sem, op, Operand(op), x2, x3, s.regs);
      match Control(sem, op.code, x1, x2, x3)
      case Return(v) => Halted(v, w)
      case Taken => Running(Goto(p, op), regs, w)
      case Fall => Running(s.pc + 1, Written(sem, op, regs, Result(sem, op, x2, x3, s.world)), w)
  }

  function Stepper(sem: Sem, p: seq<Op>): State -> State {
    s => Step(sem, p, s)
  }

  function Run(sem: Sem, p: seq<Op>, s: State, n: nat): State {
    Iterate(Stepper(sem, p), s, n)
  }

  // ---------- control flow ----------

  predicate FallsThrough(op: Op) {
    !op.code.RET? && !op.code.JMP?
  }

  /** j can follow i in a run, as the dataflow pass sees it. */
  ghost predicate Follows(p: seq<Op>, i: nat, j: nat) {
    && i < |p| && j < |p| && !p[i].code.RET?
    && ((FallsThrough(p[i]) && j == i + 1) || (p[i].jmp.Some? && j == Find(p, p[i].jmp.value)))
  }

  /** What the builder macros produce: only the first argument is a target register, only jumps
      carry a jump target, every target exists once, and the allocator's ops are not there yet. */
  ghost predicate WellFormed(p: seq<Op>) {
    && DistinctTargets(p)
    && forall i {:trigger WellFormedOp(p, p[i])} | 0 <= i < |p| :: WellFormedOp(p, p[i])
  }

  ghost predicate WellFormedOp(p: seq<Op>, op: Op) {
    && !op.a2.TReg? && !op.a3.TReg?
    && (op.a1.TReg? ==> op.code.ALU? || op.code.GETARG?)
    && (op.jmp.Some? <==> op.code.JMP? || op.code.BRANCH? || op.code.TEST?)
    && (op.jmp.Some? ==> Find(p, op.jmp.value) < |p|)
    && !op.code.UREG? && !op.code.LREG?
  }

  /** Live sets that satisfy the dataflow equations at least as inequalities. */
  ghost predicate LiveOk(p: seq<Op>) {
    && (forall i | 0 <= i < |p| :: Uses(p[i]) <= p[i].liveIn && p[i].liveOut - Defs(p[i]) <= p[i].liveIn)
    && (forall i: nat, j: nat | Follows(p, i, j) :: p[j].liveIn <= p[i].liveOut)
  }
}
