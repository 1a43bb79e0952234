/** The four ops that work with the carry flag, and why dead-assignment removal leaves them alone. */
module Carry {
  import opened JitOps
  import opened Machine
  import opened FlowAnalysis
  import opened Rewriting
  import opened DeadAssign
  import opened Arithmetic

  function Bit(carry: bool): int {
    if carry then 1 else 0
  }

  predicate IsWord(x: Word) {
    0 <= x < WORD
  }

  /** ADDC and SUBC set the carry, as a carry or a borrow; ADDX and SUBX also count it in; no other op
      changes it. */
  ghost predicate Carries(sem: Sem) {
    ResultsCarry(sem) && EffectsCarry(sem)
  }

  ghost predicate ResultsCarry(sem: Sem) {
    forall op: AluOp, u, size, extra, x, y, w {:trigger sem.result(op, u, size, extra, x, y, w)} ::
      Delivers(op, x, y, w, sem.result(op, u, size, extra, x, y, w))
  }

  predicate Delivers(op: AluOp, x: Word, y: Word, w: World, r: Word) {
    match op
    case ADDC => r == Wrap(x + y)
    case ADDX => r == Wrap(x + y + Bit(w.carry))
    case SUBC => r == Wrap(x - y)
    case SUBX => r == Wrap(x - y - Bit(w.carry))
    case _ => true
  }

  ghost predicate EffectsCarry(sem: Sem) {
    forall op: AluOp, u, size, x1, x, y, w {:trigger sem.effect(op, u, size, x1, x, y, w)} ::
      Changes(op, x, y, w, sem.effect(op, u, size, x1, x, y, w))
  }

  ghost predicate Changes(op: AluOp, x: Word, y: Word, w: World, w': World) {
    match op
    case ADDC => w' == w.(carry := x + y >= WORD)
    case ADDX => w' == w.(carry := x + y + Bit(w.carry) >= WORD)
    case SUBC => w' == w.(carry := x < y)
    case SUBX => w' == w.(carry := x < y + Bit(w.carry))
    case _ => if op == ST || op == STX || op == STI || op == STXI then w'.carry == w.carry else w' == w
  }

  /** Neither works with the carry nor stores. */
  predicate Idle(op: AluOp) {
    op != ADDC && op != ADDX && op != SUBC && op != SUBX && op != ST && op != STX && op != STI && op != STXI
  }

  /** So dead-assignment removal preserves meaning on every such machine. */
  lemma CarriesAreKept(sem: Sem, p: seq<Op>, l: Lives)
    requires WellFormed(p) && Closed(p, l) && Recorded(p, l) && Carries(sem) && StoresHaveNoTarget(p)
    ensures MeansTheSame(sem, p, DropAll(p))
  {
    forall op: AluOp, u, size, x1, x, y, w | Idle(op)
      ensures sem.effect(op, u, size, x1, x, y, w) == w
    {
      assert Changes(op, x, y, w, sem.effect(op, u, size, x1, x, y, w));
    }
    DropPreservesMeaning(sem, p, l);
  }

  // ---------- one such machine, whose other ops are standard ----------

  function CarryResult(op: AluOp, size: nat, extra: Word, x: Word, y: Word, w: World): Word {
    match op
    case ADDC => Wrap(x + y)
    case ADDX => Wrap(x + y + Bit(w.carry))
    case SUBC => Wrap(x - y)
    case SUBX => Wrap(x - y - Bit(w.carry))
    case _ => Meaning(op, size, extra, x, y)
  }

  function CarryEffect(op: AluOp, size: nat, x1: Word, x: Word, y: Word, w: World): World {
    match op
    case ADDC => w.(carry := x + y >= WORD)
    case ADDX => w.(carry := x + y + Bit(w.carry) >= WORD)
    case SUBC => w.(carry := x < y)
    case SUBX => w.(carry := x < y + Bit(w.carry))
    case _ => if Stores(op) then StoreEffect(op, size, x1, x, y, w) else w
  }

  function CarrySem(): Sem {
    ReferenceSem().(
      result := (op: AluOp, u: bool, size: nat, extra: Word, x: Word, y: Word, w: World) =>
        CarryResult(op, size, extra, x, y, w),
      effect := (op: AluOp, u: bool, size: nat, x1: Word, x: Word, y: Word, w: World) =>
        CarryEffect(op, size, x1, x, y, w))
  }

  lemma KnownAsBefore(op: AluOp, size: nat, extra: Word, x: Word, y: Word, w: World)
    ensures Known(op) ==> CarryResult(op, size, extra, x, y, w) == Meaning(op, size, extra, x, y)
  {
  }

  lemma EffectChanges(op: AluOp, size: nat, x1: Word, x: Word, y: Word, w: World)
    ensures Changes(op, x, y, w, CarryEffect(op, size, x1, x, y, w))
    ensures Stores(op) ==> CarryEffect(op, size, x1, x, y, w) == StoreEffect(op, size, x1, x, y, w)
    ensures Idle(op) ==> CarryEffect(op, size, x1, x, y, w) == w
  {
  }

  lemma CarryStandard()
    ensures Standard(CarrySem())
  {
    StandardExists();
    forall op, size, extra, x, y, w
      ensures Known(op) ==> CarryResult(op, size, extra, x, y, w) == Meaning(op, size, extra, x, y)
    {
      KnownAsBefore(op, size, extra, x, y, w);
    }
    forall op, size, x1, x, y, w {:trigger CarryEffect(op, size, x1, x, y, w)}
      ensures Stores(op) ==> CarryEffect(op, size, x1, x, y, w) == StoreEffect(op, size, x1, x, y, w)
      ensures Idle(op) ==> CarryEffect(op, size, x1, x, y, w) == w
    {
      EffectChanges(op, size, x1, x, y, w);
    }
  }

  lemma CarryChanges()
    ensures EffectsCarry(CarrySem())
  {
    forall op: AluOp, u: bool, size, x1, x, y, w
      ensures Changes(op, x, y, w, CarrySem().effect(op, u, size, x1, x, y, w))
    {
      EffectChanges(op, size, x1, x, y, w);
    }
  }

  lemma CarryDelivers()
    ensures ResultsCarry(CarrySem())
  {
    forall op: AluOp, u: bool, size, extra, x, y, w
      ensures Delivers(op, x, y, w, CarrySem().result(op, u, size, extra, x, y, w))
    {
    }
  }

  lemma CarriesExist()
    ensures Standard(CarrySem()) && Carries(CarrySem())
  {
    CarryStandard();
    CarryChanges();
    CarryDelivers();
  }

  // ---------- wide sums ----------

  /** The high word of a sum or a difference of two double words in registers 2, 4 and 3, 5. */
  function HighWord(subtract: bool): seq<Op> {
    [ NewOp(ALU(if subtract then SUBC else ADDC, false), false, TReg(1), Reg(2), Reg(3), None),
      NewOp(ALU(if subtract then SUBX else ADDX, false), false, TReg(6), Reg(4), Reg(5), None),
      NewOp(RET, false, Reg(6), No, No, None) ]
  }

  function Wide(low: Word, high: Word): int {
    low + WORD * high
  }

  ghost predicate WordRegs(regs: map<VReg, Word>) {
    forall r :: IsWord(Read(regs, r))
  }

  function Total(subtract: bool, regs: map<VReg, Word>): int {
    var x, y := Wide(Read(regs, 2), Read(regs, 4)), Wide(Read(regs, 3), Read(regs, 5));
    if subtract then x - y else x + y
  }

  function LowCarry(subtract: bool, regs: map<VReg, Word>): bool {
    if subtract then Read(regs, 2) < Read(regs, 3) else Read(regs, 2) + Read(regs, 3) >= WORD
  }

  /** The high word for a carry that comes in. */
  function High(subtract: bool, regs: map<VReg, Word>, carry: bool): Word {
    if subtract then Wrap(Read(regs, 4) - Read(regs, 5) - Bit(carry))
    else Wrap(Read(regs, 4) + Read(regs, 5) + Bit(carry))
  }

  lemma LowStep(sem: Sem, subtract: bool, regs: map<VReg, Word>, w: World) returns (v: Word)
    requires Carries(sem)
    ensures Step(sem, HighWord(subtract), Running(0, regs, w))
      == Running(1, regs[1 := v], w.(carry := LowCarry(subtract, regs)))
  {
    var p, a, b := HighWord(subtract), Read(regs, 2), Read(regs, 3);
    assert Changes(p[0].code.op, a, b, w, Effect(sem, p[0], 0, a, b, w));
    v := Result(sem, p[0], a, b, w);
  }

  lemma HighStep(sem: Sem, q: seq<Op>, subtract: bool, regs: map<VReg, Word>, w: World) returns (w': World)
    requires Carries(sem) && |q| == 3 && q[1] == HighWord(subtract)[1]
    ensures Step(sem, q, Running(1, regs, w)) == Running(2, regs[6 := High(subtract, regs, w.carry)], w')
  {
    var a, b := Read(regs, 4), Read(regs, 5);
    w' := Effect(sem, q[1], 0, a, b, w);
    assert Delivers(q[1].code.op, a, b, w, Result(sem, q[1], a, b, w));
  }

  lemma HighSteps(sem: Sem, q: seq<Op>, subtract: bool, regs: map<VReg, Word>, w: World)
    requires Carries(sem) && |q| == 3 && q[1] == HighWord(subtract)[1] && q[2] == HighWord(subtract)[2]
    ensures var r := Step(sem, q, Step(sem, q, Running(1, regs, w)));
      r.Halted? && r.value == High(subtract, regs, w.carry)
  {
    var w' := HighStep(sem, q, subtract, regs, w);
  }

  lemma ThreeSteps<S>(step: S -> S, s: S)
    ensures Iterate(step, s, 3) == step(step(step(s)))
  {
    assert Iterate(step, s, 1) == step(s) && Iterate(step, s, 2) == step(step(s));
  }

  lemma HighOfWords(a: Word, b: Word, c: Word, d: Word)
    requires IsWord(a) && IsWord(b)
    ensures (Wide(a, c) + Wide(b, d)) / WORD == c + d + Bit(a + b >= WORD)
    ensures (Wide(a, c) - Wide(b, d)) / WORD == c - d - Bit(a < b)
  {
  }

  lemma HighIsTotal(subtract: bool, regs: map<VReg, Word>)
    requires WordRegs(regs)
    ensures High(subtract, regs, LowCarry(subtract, regs)) == Wrap(Total(subtract, regs) / WORD)
  {
    HighOfWords(Read(regs, 2), Read(regs, 3), Read(regs, 4), Read(regs, 5));
  }

  /** It returns the high word of the double-word total. */
  lemma HighWordReturned(sem: Sem, subtract: bool, regs: map<VReg, Word>, w: World)
    requires Carries(sem) && WordRegs(regs)
    ensures var r := Run(sem, HighWord(subtract), Running(0, regs, w), 3);
      r.Halted? && r.value == Wrap(Total(subtract, regs) / WORD)
  {
    var p := HighWord(subtract);
    ThreeSteps(Stepper(sem, p), Running(0, regs, w));
    var v := LowStep(sem, subtract, regs, w);
    HighSteps(sem, p, subtract, regs[1 := v], w.(carry := LowCarry(subtract, regs)));
    HighIsTotal(subtract, regs);
  }

  /** Without the first op, whose result nobody reads, it returns the same exactly if the carry it starts
      with happens to be the one of the low words. */
  lemma WithoutCarryExactly(sem: Sem, subtract: bool, regs: map<VReg, Word>, w: World)
    requires Carries(sem) && WordRegs(regs)
    ensures var p := HighWord(subtract);
      var r := Run(sem, p[0 := Nop(p[0])], Running(0, regs, w), 3);
      r.Halted? && (r.value == Wrap(Total(subtract, regs) / WORD) <==> w.carry == LowCarry(subtract, regs))
  {
    var p := HighWord(subtract);
    var q := p[0 := Nop(p[0])];
    ThreeSteps(Stepper(sem, q), Running(0, regs, w));
    NopStep(sem, q, Running(0, regs, w));
    HighSteps(sem, q, subtract, regs, w);
    HighIsTotal(subtract, regs);
    CarriesDiffer(subtract, regs);
  }

  lemma CarriesDiffer(subtract: bool, regs: map<VReg, Word>)
    ensures High(subtract, regs, true) != High(subtract, regs, false)
  {
    var x := if subtract then Read(regs, 4) - Read(regs, 5) - 1 else Read(regs, 4) + Read(regs, 5);
    NextDiffers(x);
  }

  lemma NextDiffers(x: int)
    ensures Wrap(x) != Wrap(x + 1)
  {
  }
}
