/** Immediates that do not fit an instruction go through R_IMM (jit_correct_long_imms). */
module LongImm {
  import opened JitOps
  import opened Machine
  import opened Layout
  import opened DeadAssign
  import opened Arithmetic
  import opened Rewriting
  import JoinOps

  /** jit_imm_overflow with JIT_IMM_BITS 31: the bits above the low 31 are neither all zero nor, for a
      signed op, all one. */
  function ImmOverflow(signed: bool, value: Word): bool {
    var high := value - value % 0x8000_0000;
    var mask := 0xFFFF_FFFF_8000_0000;
    if signed then high != 0 && high != mask else high != 0
  }

  predicate IsWord(v: Word) {
    0 <= v < WORD
  }

  /** A signed op keeps its immediate exactly when sign extension of 32 bits gives it back; an
      unsigned op keeps only those that also have their sign bit clear. */
  lemma OverflowExactly(v: Word)
    requires IsWord(v)
    ensures ImmOverflow(true, v) <==> !FitsImm32(v)
    ensures ImmOverflow(false, v) <==> v >= 0x8000_0000
    ensures !ImmOverflow(false, v) ==> FitsImm32(v)
  {
    assert v - v % 0x8000_0000 == 0 <==> v < 0x8000_0000;
    assert v - v % 0x8000_0000 == 0xFFFF_FFFF_8000_0000 <==> v >= 0xFFFF_FFFF_8000_0000;
    assert v % 0x1_0000_0000 < 0x1_0000_0000;
  }

  // ---------- one op ----------

  /** The number of the immediate argument the pass looks at: the last one; 0 if there is none. */
  function ImmArg(op: Op): nat {
    if op.a3.Imm? then 3 else if op.a2.Imm? then 2 else if op.a1.Imm? then 1 else 0
  }

  function ImmValue(op: Op): Word {
    match ImmArg(op)
    case 3 => op.a3.value
    case 2 => op.a2.value
    case 1 => op.a1.value
    case _ => 0
  }

  predicate Skipped(op: Op) {
    !op.imm || op.code.JMP? || op.code.PATCH? || op.code.PROLOG? || (op.code.ALU? && op.code.op == MOV)
  }

  predicate IsUnsigned(code: Code) {
    (code.ALU? || code.BRANCH?) && code.unsigned
  }

  predicate Long(op: Op) {
    !Skipped(op) && ImmOverflow(!IsUnsigned(op.code), ImmValue(op))
  }

  function Loaded(op: Op): Op {
    var o := op.(imm := false);
    match ImmArg(op)
    case 3 => o.(a3 := Reg(R_IMM))
    case 2 => o.(a2 := Reg(R_IMM))
    case 1 => o.(a1 := Reg(R_IMM))
    case _ => o
  }

  const REG_SIZE: nat := 8

  function LoadOp(v: Word): Op {
    NewOp(ALU(MOV, false), true, TReg(R_IMM), Imm(v), No, None).(size := REG_SIZE)
  }

  function Corrected(op: Op): seq<Op> {
    if Long(op) then [LoadOp(ImmValue(op)), Loaded(op)] else [op]
  }

  function Pieces(p: seq<Op>): Blocks {
    seq(|p|, i requires 0 <= i < |p| => Corrected(p[i]))
  }

  function CorrectedAll(p: seq<Op>): seq<Op> {
    Concat(Pieces(p))
  }

  /** Immediates are words, the op has one if it says so, labels have none, and R_IMM is not read. */
  ghost predicate ImmOp(op: Op) {
    && (op.a1.Imm? ==> IsWord(op.a1.value)) && (op.a2.Imm? ==> IsWord(op.a2.value))
    && (op.a3.Imm? ==> IsWord(op.a3.value))
    && (!Skipped(op) ==> ImmArg(op) != 0 && !op.code.LABEL?)
    && R_IMM !in Uses(op)
  }

  ghost predicate ImmProgram(p: seq<Op>) {
    WellFormed(p) && forall i {:trigger ImmOp(p[i])} | 0 <= i < |p| :: ImmOp(p[i])
  }

  /** What is left fits: the immediate operand of every op that takes a 32-bit field. */
  lemma CorrectedFits(op: Op)
    requires ImmOp(op)
    ensures forall o <- Corrected(op) :: !Skipped(o) ==> FitsImm32(ImmValue(o))
  {
    forall o | o in Corrected(op) && !Skipped(o) ensures FitsImm32(ImmValue(o)) {
      if !Long(op) { OverflowExactly(ImmValue(op)); }
    }
  }

  /** In the corrected list the last immediate of every op that has one is given back by sign extension
      of 32 bits, but for a JMP, PATCH, PROLOG and MOV: that is every branch, test, store, load, shift
      and arithmetic op, and a RET. */
  lemma AllFit(p: seq<Op>, o: Op)
    requires (forall i | 0 <= i < |p| :: ImmOp(p[i])) && o in CorrectedAll(p) && o.imm
    requires !o.code.JMP? && !o.code.PATCH? && !o.code.PROLOG? && (o.code.ALU? ==> o.code.op != MOV)
    ensures if o.a3.Imm? then FitsImm32(o.a3.value) else if o.a2.Imm? then FitsImm32(o.a2.value)
            else o.a1.Imm? && FitsImm32(o.a1.value)
  {
    var k :| 0 <= k < |CorrectedAll(p)| && CorrectedAll(p)[k] == o;
    var j, e := Locate(Pieces(p), k);
    CorrectedFits(p[j]);
  }

  /** The unsigned forms of the ALU ops and of the compare branches. */
  predicate UnsignedForm(op: Op) {
    match op.code
    case ALU(_, unsigned) => unsigned
    case BRANCH(_, unsigned) => unsigned
    case _ => false
  }

  /** A MOV is put in front of an op exactly if it is none of those and its last immediate does not fit:
      for an unsigned op, if it has more than 31 bits. */
  lemma SplitExactly(op: Op)
    requires ImmOp(op)
    ensures |Corrected(op)| == 2 <==>
      && op.imm && !op.code.JMP? && !op.code.PATCH? && !op.code.PROLOG? && (op.code.ALU? ==> op.code.op != MOV)
      && var v := if op.a3.Imm? then op.a3.value else if op.a2.Imm? then op.a2.value else
                  if op.a1.Imm? then op.a1.value else 0;
         if UnsignedForm(op) then v >= 0x8000_0000 else !FitsImm32(v)
  {
    OverflowExactly(ImmValue(op));
  }

  // ---------- the two lists side by side ----------

  ghost predicate AgreeBut(regs: map<VReg, Word>, regs': map<VReg, Word>) {
    forall x {:trigger Read(regs, x)} {:trigger Read(regs', x)} | x != R_IMM :: Read(regs, x) == Read(regs', x)
  }

  /** The same op with the same carry and memory, and all registers but R_IMM alike. */
  ghost predicate Alike(p: seq<Op>, s: State, t: State) {
    match (s, t)
    case (Halted(v, w), Halted(v', w')) => v == v' && w == w'
    case (Running(i, regs, w), Running(j, regs', w')) =>
      && w == w' && AgreeBut(regs, regs')
      && (if i < |p| then j == Start(Pieces(p), i) else j >= |CorrectedAll(p)|)
    case _ => false
  }

  lemma TargetStays(p: seq<Op>, k: nat, id: nat)
    requires ImmProgram(p) && k < |p| && IsTarget(p[k], id)
    ensures Find(CorrectedAll(p), id) == Start(Pieces(p), k)
  {
    var bs := Pieces(p);
    assert ImmOp(p[k]);
    forall j, e | 0 <= j < |bs| && 0 <= e < |bs[j]| && IsTarget(bs[j][e], id) ensures j == k && e == 0 {
      assert ImmOp(p[j]) && IsTarget(p[j], id);
      OneTarget(p, k, j, id);
    }
    FindAt(bs, k, 0, id);
  }

  lemma JumpLands(p: seq<Op>, i: nat)
    requires ImmProgram(p) && i < |p| && p[i].jmp.Some?
    ensures Goto(p, p[i]) < |p| && Find(CorrectedAll(p), p[i].jmp.value) == Start(Pieces(p), Goto(p, p[i]))
  {
    assert WellFormedOp(p, p[i]);
    FindsFirst(p, p[i].jmp.value);
    TargetStays(p, Goto(p, p[i]), p[i].jmp.value);
  }

  lemma LoadStep(sem: Sem, q: seq<Op>, t: State, v: Word)
    requires Standard(sem) && IsWord(v) && t.Running? && t.pc < |q| && q[t.pc] == LoadOp(v)
    ensures Step(sem, q, t) == Running(t.pc + 1, t.regs[R_IMM := v], t.world)
  {
    JoinOps.KnownValue(sem, LoadOp(v), t.regs, t.world);
    ValueStep(sem, q, t);
  }

  lemma SameValuesBut(op: Op, regs: map<VReg, Word>, regs': map<VReg, Word>)
    requires AgreeBut(regs, regs') && R_IMM !in Uses(op)
    ensures Value(op.a1, regs) == Value(op.a1, regs') && Value2(op, regs) == Value2(op, regs')
    ensures Value(op.a3, regs) == Value(op.a3, regs')
  {
  }

  /** With R_IMM loaded the changed op reads what the op reads. */
  lemma LoadedValues(op: Op, regs: map<VReg, Word>, regs': map<VReg, Word>)
    requires AgreeBut(regs, regs') && R_IMM !in Uses(op) && Read(regs', R_IMM) == ImmValue(op)
    ensures var o := Loaded(op);
      Value(op.a1, regs) == Value(o.a1, regs') && Value2(op, regs) == Value2(o, regs')
        && Value(op.a3, regs) == Value(o.a3, regs')
  {
    SameValuesBut(op, regs, regs');
  }

  lemma SameWritesBut(sem: Sem, op: Op, o: Op, regs: map<VReg, Word>, regs': map<VReg, Word>, v: Word)
    requires AgreeBut(regs, regs') && o.code == op.code && o.a1.TReg? == op.a1.TReg?
    requires op.a1.TReg? ==> o.a1 == op.a1
    ensures AgreeBut(Written(sem, op, regs, v), Written(sem, o, regs', v))
  {
    var one, two := Written(sem, op, regs, v), Written(sem, o, regs', v);
    forall x | x != R_IMM ensures Read(one, x) == Read(two, x) {
      assert Read(regs, x) == Read(regs', x);
    }
  }

  /** An operand as it is, or R_IMM in place of an immediate. */
  predicate SameOperand(a: Arg, b: Arg) {
    b == a || (a.Imm? && b == Reg(R_IMM))
  }

  lemma SameComparedBut(sem: Sem, op: Op, o: Op, x2: Word, x3: Word, regs: map<VReg, Word>, regs': map<VReg, Word>)
    requires AgreeBut(regs, regs') && o.code == op.code && SameOperand(op.a2, o.a2)
    ensures AgreeBut(Compared(sem, op, Operand(op), x2, x3, regs), Compared(sem, o, Operand(o), x2, x3, regs'))
  {
    var one, two := Compared(sem, op, Operand(op), x2, x3, regs), Compared(sem, o, Operand(o), x2, x3, regs');
    forall x | x != R_IMM ensures Read(one, x) == Read(two, x) {
      assert Read(regs, x) == Read(regs', x);
    }
  }

  /** The op and what stands for it, both about to run. */
  lemma StepAlike(sem: Sem, p: seq<Op>, i: nat, o: Op, j: nat, regs: map<VReg, Word>, regs': map<VReg, Word>, w: World)
    requires ImmProgram(p) && i < |p| && j < |CorrectedAll(p)| && CorrectedAll(p)[j] == o
      && j + 1 == Start(Pieces(p), i + 1)
    requires AgreeBut(regs, regs') && o.code == p[i].code && o.jmp == p[i].jmp && o.size == p[i].size
      && o.extra == p[i].extra
    requires o.a1.TReg? == p[i].a1.TReg? && (p[i].a1.TReg? ==> o.a1 == p[i].a1) && SameOperand(p[i].a2, o.a2)
    requires Value(p[i].a1, regs) == Value(o.a1, regs') && Value2(p[i], regs) == Value2(o, regs')
    requires Value(p[i].a3, regs) == Value(o.a3, regs')
    ensures Alike(p, Step(sem, p, Running(i, regs, w)), Step(sem, CorrectedAll(p), Running(j, regs', w)))
  {
    var op, q := p[i], CorrectedAll(p);
    assert WellFormedOp(p, op);
    var x2, x3 := Value2(op, regs), Value(op.a3, regs);
    SameComparedBut(sem, op, o, x2, x3, regs, regs');
    SameWritesBut(sem, op, o, Compared(sem, op, Operand(op), x2, x3, regs),
                  Compared(sem, o, Operand(o), x2, x3, regs'), Result(sem, op, x2, x3, w));
    if op.jmp.Some? { JumpLands(p, i); }
    StartEnds(Pieces(p));
  }

  lemma BlockOf(p: seq<Op>, i: nat)
    requires i < |p|
    ensures var a, q := Start(Pieces(p), i), CorrectedAll(p);
      if Long(p[i]) then a + 2 == Start(Pieces(p), i + 1) <= |q| && q[a] == LoadOp(ImmValue(p[i]))
        && q[a + 1] == Loaded(p[i])
      else a + 1 == Start(Pieces(p), i + 1) <= |q| && q[a] == p[i]
  {
    Split(Pieces(p), i);
    At(Pieces(p), i, 0);
    if Long(p[i]) { At(Pieces(p), i, 1); }
  }

  lemma LongStep(sem: Sem, p: seq<Op>, i: nat, regs: map<VReg, Word>, regs': map<VReg, Word>, w: World)
    requires Standard(sem) && ImmProgram(p) && i < |p| && Long(p[i]) && AgreeBut(regs, regs')
    ensures Alike(p, Step(sem, p, Running(i, regs, w)),
                     Run(sem, CorrectedAll(p), Running(Start(Pieces(p), i), regs', w), 2))
  {
    var a, q, v := Start(Pieces(p), i), CorrectedAll(p), ImmValue(p[i]);
    var t, loaded := Running(a, regs', w), regs'[R_IMM := v];
    BlockOf(p, i);
    assert ImmOp(p[i]);
    LoadStep(sem, q, t, v);
    LoadedValues(p[i], regs, loaded);
    StepAlike(sem, p, i, Loaded(p[i]), a + 1, regs, loaded, w);
    IterateFirst(Stepper(sem, q), t, 1);
    IterateFirst(Stepper(sem, q), Step(sem, q, t), 0);
  }

  lemma ShortStep(sem: Sem, p: seq<Op>, i: nat, regs: map<VReg, Word>, regs': map<VReg, Word>, w: World)
    requires ImmProgram(p) && i < |p| && !Long(p[i]) && AgreeBut(regs, regs')
    ensures Alike(p, Step(sem, p, Running(i, regs, w)),
                     Run(sem, CorrectedAll(p), Running(Start(Pieces(p), i), regs', w), 1))
  {
    BlockOf(p, i);
    assert ImmOp(p[i]);
    SameValuesBut(p[i], regs, regs');
    StepAlike(sem, p, i, p[i], Start(Pieces(p), i), regs, regs', w);
    IterateFirst(Stepper(sem, CorrectedAll(p)), Running(Start(Pieces(p), i), regs', w), 0);
  }

  /** Any number of steps of the program is matched by at least as many of the corrected list. */
  lemma {:induction false} CorrectedRuns(sem: Sem, p: seq<Op>, s: State, t: State, n: nat) returns (m: nat)
    requires Standard(sem) && ImmProgram(p) && Alike(p, s, t)
    ensures m >= n && Alike(p, Run(sem, p, s, n), Run(sem, CorrectedAll(p), t, m))
  {
    var q := CorrectedAll(p);
    if n == 0 {
      m := 0;
    } else {
      m := CorrectedRuns(sem, p, s, t, n - 1);
      var s', t' := Run(sem, p, s, n - 1), Run(sem, q, t, m);
      var k := 1;
      if s'.Running? && s'.pc < |p| {
        if Long(p[s'.pc]) {
          LongStep(sem, p, s'.pc, s'.regs, t'.regs, s'.world);
          k := 2;
        } else {
          ShortStep(sem, p, s'.pc, s'.regs, t'.regs, s'.world);
        }
      } else {
        IterateFirst(Stepper(sem, q), t', 0);
      }
      IterateAdd(Stepper(sem, q), t, m, k);
      m := m + k;
    }
  }

  lemma {:induction false} HaltedStays(sem: Sem, q: seq<Op>, s: State, m: nat, k: nat)
    requires m <= k && Run(sem, q, s, m).Halted?
    ensures Run(sem, q, s, k) == Run(sem, q, s, m)
  {
    if m < k { HaltedStays(sem, q, s, m, k - 1); }
  }

  /** The corrected list returns a value exactly when the program does, from the start of any op. */
  lemma CorrectionPreservesMeaning(sem: Sem, p: seq<Op>, e: nat, regs: map<VReg, Word>, w: World, value: Word,
      w': World)
    requires Standard(sem) && ImmProgram(p) && e <= |p|
    ensures (exists n: nat :: Run(sem, p, Running(e, regs, w), n) == Halted(value, w'))
       <==> (exists m: nat :: Run(sem, CorrectedAll(p), Running(Start(Pieces(p), e), regs, w), m) == Halted(value, w'))
  {
    var s, t := Running(e, regs, w), Running(Start(Pieces(p), e), regs, w);
    StartEnds(Pieces(p));
    assert Alike(p, s, t);
    if n: nat :| Run(sem, p, s, n) == Halted(value, w') {
      var m := CorrectedRuns(sem, p, s, t, n);
    }
    if m: nat :| Run(sem, CorrectedAll(p), t, m) == Halted(value, w') {
      var k := CorrectedRuns(sem, p, s, t, m);
      HaltedStays(sem, CorrectedAll(p), t, m, k);
    }
  }

  // ---------- the pass ----------

  class LongImmediates {
    var ops: seq<Op>

    constructor (p: seq<Op>)
      ensures ops == p
    {
      ops := p;
    }

    /** Moves the immediate of op i to R_IMM if it is too long. */
    method CorrectOp(i: nat) returns (prepended: bool)
      requires i < |ops| && (!Skipped(ops[i]) ==> ImmArg(ops[i]) != 0)
      modifies this
      ensures ops == old(ops)[..i] + Corrected(old(ops)[i]) + old(ops)[i + 1..]
      ensures prepended <==> Long(old(ops)[i])
    {
      var op := ops[i];
      if Skipped(op) {
        return false;
      }
      var immArg := if op.a1.Imm? then 1 else 0;
      if op.a2.Imm? { immArg := 2; }
      if op.a3.Imm? { immArg := 3; }
      var value := (if immArg == 3 then op.a3 else if immArg == 2 then op.a2 else op.a1).value;
      if !ImmOverflow(!IsUnsigned(op.code), value) {
        return false;
      }
      var o := op.(imm := false);
      if immArg == 1 { o := o.(a1 := Reg(R_IMM)); }
      if immArg == 2 { o := o.(a2 := Reg(R_IMM)); }
      if immArg == 3 { o := o.(a3 := Reg(R_IMM)); }
      assert Corrected(op) == [LoadOp(value), o];
      ops := ops[..i] + [LoadOp(value), o] + ops[i + 1..];
      return true;
    }

    /** Walks the list; what it prepends to an op it does not visit again. */
    method CorrectLongImms()
      requires forall i | 0 <= i < |ops| :: !Skipped(ops[i]) ==> ImmArg(ops[i]) != 0
      modifies this
      ensures ops == CorrectedAll(old(ops))
    {
      ghost var p := ops;
      ghost var j := 0;
      var i := 0;
      while i < |ops|
        invariant j <= |p| && i == Start(Pieces(p), j)
        invariant ops == Concat(Pieces(p)[..j]) + p[j..]
        decreases |p| - j
      {
        Advance(p, j, ops);
        var prepended := CorrectOp(i);
        i := i + if prepended then 2 else 1;
        j := j + 1;
      }
      Finished(p, j, ops);
    }
  }

  lemma Finished(p: seq<Op>, j: nat, ops: seq<Op>)
    requires j <= |p| && ops == Concat(Pieces(p)[..j]) + p[j..] && |ops| <= Start(Pieces(p), j)
    ensures ops == CorrectedAll(p)
  {
    if j < |p| { Advance(p, j, ops); }
    assert Pieces(p)[..|p|] == Pieces(p);
  }

  lemma Advance(p: seq<Op>, j: nat, ops: seq<Op>)
    requires j < |p| && ops == Concat(Pieces(p)[..j]) + p[j..]
    ensures var i := Start(Pieces(p), j);
      && i < |ops| && ops[i] == p[j]
      && ops[..i] + Corrected(p[j]) + ops[i + 1..] == Concat(Pieces(p)[..j + 1]) + p[j + 1..]
      && Start(Pieces(p), j + 1) == i + |Corrected(p[j])|
  {
    Prefix(Pieces(p), j);
    var done := Concat(Pieces(p)[..j]);
    assert ops == done + [p[j]] + p[j + 1..];
  }
}
