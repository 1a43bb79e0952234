/** Rewriting a list in place: two lists of the same length that run in lock step. */
module Rewriting {
  import opened JitOps
  import opened Machine
  import opened FlowAnalysis

  /** The same point of the same path with the same carry and memory, or the same result. */
  ghost predicate SamePlace(s: State, t: State) {
    match (s, t)
    case (Halted(v, w), Halted(v', w')) => v == v' && w == w'
    case (Running(i, _, w), Running(i', _, w')) => i == i' && w == w'
    case _ => false
  }

  ghost predicate AgreeOn(live: set<VReg>, regs: map<VReg, Word>, regs': map<VReg, Word>) {
    forall x <- live :: Read(regs, x) == Read(regs', x)
  }

  /** Same place, and every register live there has the same value. */
  ghost predicate InStep(l: Lives, s: State, t: State) {
    SamePlace(s, t) && (s.Running? && s.pc < |l| ==> AgreeOn(l[s.pc].into, s.regs, t.regs))
  }

  /** From op e on, the two lists are at the same place after any number of steps. */
  ghost predicate SameMeaning(sem: Sem, p: seq<Op>, q: seq<Op>, e: nat) {
    forall regs, w, n: nat {:trigger Run(sem, p, Running(e, regs, w), n)} ::
      SamePlace(Run(sem, p, Running(e, regs, w), n), Run(sem, q, Running(e, regs, w), n))
  }

  lemma SameMeaningTrans(sem: Sem, p: seq<Op>, q: seq<Op>, r: seq<Op>, e: nat)
    requires SameMeaning(sem, p, q, e) && SameMeaning(sem, q, r, e)
    ensures SameMeaning(sem, p, r, e)
  {
    forall regs, w, n: nat
      ensures SamePlace(Run(sem, p, Running(e, regs, w), n), Run(sem, r, Running(e, regs, w), n))
    {
      assert SamePlace(Run(sem, p, Running(e, regs, w), n), Run(sem, q, Running(e, regs, w), n));
      assert SamePlace(Run(sem, q, Running(e, regs, w), n), Run(sem, r, Running(e, regs, w), n));
    }
  }

  /** Where the machine may be entered: not in the middle of straight-line arithmetic. */
  ghost predicate EntryPoint(p: seq<Op>, e: nat) {
    e < |p| ==> !p[e].code.ALU?
  }

  /** make_nop */
  function Nop(op: Op): Op {
    op.(code := NOP, imm := false, a1 := No, a2 := No, a3 := No)
  }

  // ---------- what a rewrite of single ops must keep ----------

  /** Same targets and same jumps; every op still looks as the builder macros make it. */
  ghost predicate SameShape(p: seq<Op>, q: seq<Op>) {
    && |p| == |q|
    && forall i {:trigger q[i]} | 0 <= i < |p| :: SameShapeAt(p[i], q[i])
  }

  ghost predicate SameShapeAt(op: Op, o: Op) {
    || o == op
    || (op.code.ALU? && o.code.ALU? && o.jmp == op.jmp && !o.a2.TReg? && !o.a3.TReg?)
    || ((op.code.ALU? || op.code.GETARG?) && IsNop(o) && o.jmp == op.jmp)
  }

  predicate IsNop(o: Op) {
    o.code.NOP? && o.a1.No? && o.a2.No? && o.a3.No?
  }

  /** One of the ops that only the rewrites make. */
  predicate IsMade(o: Op) {
    o.code.ALU? && o.code.op in {STI, STXI, ADDMUL_IMM, ADDMUL_REG, ADDIMM}
  }

  ghost predicate KeptOrMade(op: Op, o: Op) {
    || IsNop(o) || IsMade(o)
    || (o.code == op.code && o.imm == op.imm && o.a1 == op.a1 && o.a2 == op.a2 && o.a3 == op.a3)
  }

  /** Every op of q is p's op at its place, a NOP, or an op that only the rewrites make. */
  ghost predicate OpsKept(p: seq<Op>, q: seq<Op>) {
    |p| == |q| && forall i {:trigger q[i]} | 0 <= i < |p| :: KeptOrMade(p[i], q[i])
  }

  lemma KeptTrans(p: seq<Op>, q: seq<Op>, r: seq<Op>)
    requires OpsKept(p, q) && OpsKept(q, r)
    ensures OpsKept(p, r)
  {
    forall i | 0 <= i < |p| ensures KeptOrMade(p[i], r[i]) {
      assert KeptOrMade(p[i], q[i]) && KeptOrMade(q[i], r[i]);
    }
  }

  lemma ShapeTrans(p: seq<Op>, q: seq<Op>, r: seq<Op>)
    requires SameShape(p, q) && SameShape(q, r)
    ensures SameShape(p, r)
  {
    forall i | 0 <= i < |p| ensures SameShapeAt(p[i], r[i]) {
      assert SameShapeAt(p[i], q[i]) && SameShapeAt(q[i], r[i]);
    }
  }

  lemma ShapeTargets(p: seq<Op>, q: seq<Op>, id: nat)
    requires SameShape(p, q)
    ensures Find(p, id) == Find(q, id)
  {
    forall i | 0 <= i < |p| ensures IsTarget(p[i], id) == IsTarget(q[i], id) {
      assert SameShapeAt(p[i], q[i]);
    }
    SameTargets(p, q, id);
  }

  lemma ShapeWellFormed(p: seq<Op>, q: seq<Op>)
    requires SameShape(p, q) && WellFormed(p)
    ensures WellFormed(q)
  {
    forall i | 0 <= i < |q| ensures WellFormedOp(q, q[i]) {
      assert SameShapeAt(p[i], q[i]) && WellFormedOp(p, p[i]);
      if q[i].jmp.Some? { ShapeTargets(p, q, q[i].jmp.value); }
    }
    forall i, j, id | 0 <= i < j < |q| ensures !(IsTarget(q[i], id) && IsTarget(q[j], id)) {
      assert SameShapeAt(p[i], q[i]) && SameShapeAt(p[j], q[j]);
      assert !(IsTarget(p[i], id) && IsTarget(p[j], id));
    }
  }

  lemma ShapeFollows(p: seq<Op>, q: seq<Op>, i: nat, j: nat)
    requires SameShape(p, q) && WellFormed(p)
    ensures Follows(q, i, j) <==> Follows(p, i, j)
  {
    if i < |p| {
      assert SameShapeAt(p[i], q[i]) && WellFormedOp(p, p[i]);
      if p[i].jmp.Some? { ShapeTargets(p, q, p[i].jmp.value); }
    }
  }

  /** The recorded `live_out` covers a solution l wherever an op is not yet rewritten to NOP. */
  ghost predicate Recorded(p: seq<Op>, l: Lives) {
    && |l| == |p|
    && forall i: nat {:trigger l[i]} | i < |p| && !p[i].code.NOP? :: l[i].out <= p[i].liveOut
  }

  // ---------- meaning and shape together ----------

  /** q means what p meant, and the next pass may go on from it. */
  ghost predicate MeansTheSame(sem: Sem, p: seq<Op>, q: seq<Op>) {
    && SameShape(p, q)
    && forall e {:trigger EntryPoint(p, e)} | EntryPoint(p, e) :: SameMeaning(sem, p, q, e) && EntryPoint(q, e)
  }

  lemma MeansTrans(sem: Sem, p: seq<Op>, q: seq<Op>, r: seq<Op>)
    requires MeansTheSame(sem, p, q) && MeansTheSame(sem, q, r)
    ensures MeansTheSame(sem, p, r)
  {
    ShapeTrans(p, q, r);
    forall e | EntryPoint(p, e) ensures SameMeaning(sem, p, r, e) && EntryPoint(r, e) {
      SameMeaningTrans(sem, p, q, r, e);
    }
  }

  lemma MeansItself(sem: Sem, p: seq<Op>)
    ensures MeansTheSame(sem, p, p)
  {
    forall e | EntryPoint(p, e) ensures SameMeaning(sem, p, p, e) {
      forall regs, w, n: nat
        ensures SamePlace(Run(sem, p, Running(e, regs, w), n), Run(sem, p, Running(e, regs, w), n)) {}
    }
  }

  // ---------- one op, seen from two register files ----------

  lemma SameReads(op: Op, live: set<VReg>, regs: map<VReg, Word>, regs': map<VReg, Word>)
    requires AgreeOn(live, regs, regs') && Uses(op) <= live
    ensures Value(op.a1, regs) == Value(op.a1, regs') && Value2(op, regs) == Value2(op, regs')
    ensures Value(op.a3, regs) == Value(op.a3, regs')
  {
    assert op.a1.Reg? ==> op.a1.reg in Uses(op);
    assert op.a2.Reg? ==> op.a2.reg in Uses(op);
    assert op.a3.Reg? ==> op.a3.reg in Uses(op);
    assert op.code.GETARG? ==> ArgReg(op.code.index, op.code.isFloat) in Uses(op);
  }

  lemma SameWrites(sem: Sem, p: seq<Op>, op: Op, l: Liveness, regs: map<VReg, Word>, regs': map<VReg, Word>, v: Word)
    requires WellFormedOp(p, op) && AgreeOn(l.into, regs, regs') && l.out - Defs(op) <= l.into
    ensures AgreeOn(l.out, Written(sem, op, regs, v), Written(sem, op, regs', v))
  {
    forall x | x in l.out ensures Read(Written(sem, op, regs, v), x) == Read(Written(sem, op, regs', v), x) {
      assert x !in Defs(op) ==> x in l.into;
      assert x in Defs(op) && !op.code.PROLOG? ==> op.a1 == TReg(x);
    }
  }

  /** An op that is in both lists keeps them in step. */
  lemma SameOpStep(sem: Sem, p: seq<Op>, q: seq<Op>, l: Lives, s: State, t: State)
    requires WellFormed(p) && SameShape(p, q) && Closed(p, l) && InStep(l, s, t)
    requires s.Running? && s.pc < |p| ==> q[s.pc] == p[s.pc]
    ensures InStep(l, Step(sem, p, s), Step(sem, q, t))
  {
    if s.Running? && s.pc < |p| {
      var i, op := s.pc, p[s.pc];
      assert WellFormedOp(p, op);
      assert InOf(op, l[i].out) <= l[i].into;
      SameReads(op, l[i].into, s.regs, t.regs);
      var v := Result(sem, op, Value2(op, s.regs), Value(op.a3, s.regs), s.world);
      SameWrites(sem, p, op, l[i], s.regs, t.regs, v);
      if op.jmp.Some? { ShapeTargets(p, q, op.jmp.value); }
      var k := Step(sem, p, s);
      if k.Running? && k.pc < |p| {
        assert Follows(p, i, k.pc);
        assert l[k.pc].into <= l[i].out;
        if op.jmp.Some? { assert !op.a1.TReg? && !op.code.PROLOG?; }
      }
    }
  }

  // ---------- steps of ops that deliver a value ----------

  function ValueAt(sem: Sem, op: Op, regs: map<VReg, Word>, w: World): Word {
    Result(sem, op, Value2(op, regs), Value(op.a3, regs), w)
  }

  function EffectAt(sem: Sem, op: Op, regs: map<VReg, Word>, w: World): World {
    Effect(sem, op, Value(op.a1, regs), Value2(op, regs), Value(op.a3, regs), w)
  }

  lemma ValueStep(sem: Sem, p: seq<Op>, s: State)
    requires s.Running? && s.pc < |p| && WellFormedOp(p, p[s.pc]) && (p[s.pc].code.ALU? || p[s.pc].code.GETARG?)
    ensures Step(sem, p, s) ==
      Running(s.pc + 1,
              if p[s.pc].a1.TReg? then s.regs[p[s.pc].a1.reg := ValueAt(sem, p[s.pc], s.regs, s.world)] else s.regs,
              EffectAt(sem, p[s.pc], s.regs, s.world))
  {
  }

  lemma NopStep(sem: Sem, q: seq<Op>, t: State)
    requires t.Running? && t.pc < |q| && q[t.pc].code.NOP? && q[t.pc].a1.No?
    ensures Step(sem, q, t) == Running(t.pc + 1, t.regs, t.world)
  {
  }
}
