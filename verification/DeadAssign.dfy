/** Dropping assignments to dead registers (jit_optimize_unused_assignments). */
module DeadAssign {
  import opened JitOps
  import opened Machine
  import opened FlowAnalysis
  import opened Rewriting

  /** The ops that set the carry flag are never dropped. */
  predicate SetsCarry(code: Code) {
    code.ALU? && (code.op == ADDC || code.op == ADDX || code.op == SUBC || code.op == SUBX)
  }

  predicate Dead(op: Op) {
    op.a1.TReg? && !SetsCarry(op.code) && op.a1.reg !in op.liveOut
  }

  function DropDead(op: Op): Op {
    if Dead(op) then Nop(op) else op
  }

  function DropAll(p: seq<Op>): seq<Op> {
    seq(|p|, i requires 0 <= i < |p| => DropDead(p[i]))
  }

  predicate Stores(op: AluOp) {
    op == ST || op == STX || op == STI || op == STXI
  }

  /** All ops but the four that work with the carry flag and the four stores do nothing but deliver a
      value. */
  ghost predicate OnlyValues(sem: Sem) {
    forall op: AluOp, u, size, x1, x2, x3, w {:trigger sem.effect(op, u, size, x1, x2, x3, w)} ::
      op != ADDC && op != ADDX && op != SUBC && op != SUBX && op != ST && op != STX && op != STI && op != STXI
      ==> sem.effect(op, u, size, x1, x2, x3, w) == w
  }

  ghost predicate StoresHaveNoTarget(p: seq<Op>) {
    forall i {:trigger p[i]} | 0 <= i < |p| && p[i].code.ALU? && Stores(p[i].code.op) :: !p[i].a1.TReg?
  }

  lemma DropShape(p: seq<Op>)
    requires WellFormed(p)
    ensures SameShape(p, DropAll(p)) && WellFormed(DropAll(p))
  {
    forall i | 0 <= i < |p| ensures SameShapeAt(p[i], DropAll(p)[i]) {
      assert WellFormedOp(p, p[i]);
    }
    ShapeWellFormed(p, DropAll(p));
  }

  /** The live sets still satisfy the dataflow inequalities. */
  lemma DropKeepsLiveness(p: seq<Op>, l: Lives)
    requires WellFormed(p) && Closed(p, l) && Recorded(p, l)
    ensures Closed(DropAll(p), l) && Recorded(DropAll(p), l)
  {
    var q := DropAll(p);
    DropShape(p);
    forall i: nat | i < |q| ensures InOf(q[i], l[i].out) <= l[i].into {
      assert InOf(p[i], l[i].out) <= l[i].into && WellFormedOp(p, p[i]);
      if Dead(p[i]) {
        assert l[i].out <= p[i].liveOut && Defs(p[i]) == {p[i].a1.reg};
        assert Uses(q[i]) == {} && Defs(q[i]) == {};
      }
    }
    forall i: nat, j: nat | Follows(q, i, j) ensures l[j].into <= l[i].out {
      ShapeFollows(p, q, i, j);
      assert Follows(p, i, j);
    }
  }

  lemma DeadIsNotRead(p: seq<Op>, l: Lives, i: nat)
    requires WellFormed(p) && Closed(p, l) && Recorded(p, l) && i < |p| && Dead(p[i])
    ensures l[i].out <= l[i].into - {p[i].a1.reg} && !p[i].code.NOP?
    ensures i + 1 < |p| ==> l[i + 1].into <= l[i].out
  {
    assert WellFormedOp(p, p[i]) && Defs(p[i]) == {p[i].a1.reg};
    assert InOf(p[i], l[i].out) <= l[i].into && l[i].out <= p[i].liveOut;
    assert i + 1 < |p| ==> Follows(p, i, i + 1);
  }

  /** A dropped op does nothing but assign its target. */
  lemma DeadOnlyAssigns(sem: Sem, p: seq<Op>, s: State)
    requires WellFormed(p) && OnlyValues(sem) && StoresHaveNoTarget(p)
    requires s.Running? && s.pc < |p| && Dead(p[s.pc])
    ensures Step(sem, p, s)
      == Running(s.pc + 1, s.regs[p[s.pc].a1.reg := ValueAt(sem, p[s.pc], s.regs, s.world)], s.world)
  {
    assert WellFormedOp(p, p[s.pc]);
    ValueStep(sem, p, s);
  }

  /** A dropped op and its NOP keep the two lists in step. */
  lemma DeadStep(sem: Sem, p: seq<Op>, l: Lives, s: State, t: State)
    requires WellFormed(p) && Closed(p, l) && Recorded(p, l) && OnlyValues(sem) && StoresHaveNoTarget(p)
    requires InStep(l, s, t) && s.Running? && s.pc < |p| && Dead(p[s.pc])
    ensures InStep(l, Step(sem, p, s), Step(sem, DropAll(p), t))
  {
    DeadOnlyAssigns(sem, p, s);
    NopStep(sem, DropAll(p), t);
    DeadIsNotRead(p, l, s.pc);
  }

  lemma OneDropStep(sem: Sem, p: seq<Op>, l: Lives, s: State, t: State)
    requires WellFormed(p) && Closed(p, l) && Recorded(p, l) && OnlyValues(sem) && StoresHaveNoTarget(p)
    requires InStep(l, s, t)
    ensures InStep(l, Step(sem, p, s), Step(sem, DropAll(p), t))
  {
    if s.Running? && s.pc < |p| && Dead(p[s.pc]) {
      DeadStep(sem, p, l, s, t);
    } else {
      DropShape(p);
      SameOpStep(sem, p, DropAll(p), l, s, t);
    }
  }

  /** At every step of every run both lists agree on the path, carry, memory and live registers. */
  lemma DropInStep(sem: Sem, p: seq<Op>, l: Lives, s: State, t: State, n: nat)
    requires WellFormed(p) && Closed(p, l) && Recorded(p, l) && OnlyValues(sem) && StoresHaveNoTarget(p)
    requires InStep(l, s, t)
    ensures InStep(l, Run(sem, p, s, n), Run(sem, DropAll(p), t, n))
  {
    var q := DropAll(p);
    forall s', t' | InStep(l, s', t') ensures InStep(l, Stepper(sem, p)(s'), Stepper(sem, q)(t')) {
      OneDropStep(sem, p, l, s', t');
    }
    LockStep(Stepper(sem, p), Stepper(sem, q), (s', t') => InStep(l, s', t'), s, t, n);
  }

  /** Dead-assignment removal preserves meaning, from every op on. */
  lemma DropPreservesMeaning(sem: Sem, p: seq<Op>, l: Lives)
    requires WellFormed(p) && Closed(p, l) && Recorded(p, l) && OnlyValues(sem) && StoresHaveNoTarget(p)
    ensures MeansTheSame(sem, p, DropAll(p))
    ensures forall e: nat :: SameMeaning(sem, p, DropAll(p), e)
  {
    DropShape(p);
    forall e: nat ensures SameMeaning(sem, p, DropAll(p), e) {
      forall regs, w, n: nat
        ensures SamePlace(Run(sem, p, Running(e, regs, w), n), Run(sem, DropAll(p), Running(e, regs, w), n))
      {
        DropInStep(sem, p, l, Running(e, regs, w), Running(e, regs, w), n);
      }
    }
  }

  /** With exact live sets exactly the assignments that no path reads are dropped. */
  lemma DropsExactly(p: seq<Op>, l: Lives, i: nat)
    requires WellFormed(p) && Exact(p, l) && i < |p| && p[i].liveOut == l[i].out
    ensures DropAll(p)[i] != p[i] <==>
      && p[i].a1.TReg? && !ReachesUseAfter(p, p[i].a1.reg, i)
      && (p[i].code.ALU? ==> p[i].code.op !in {ADDC, ADDX, SUBC, SUBX})
  {
    if p[i].a1.TReg? {
      assert p[i].a1.reg in l[i].out <==> ReachesUseAfter(p, p[i].a1.reg, i);
    }
  }

  class DeadAssignments {
    var ops: seq<Op>

    constructor (p: seq<Op>)
      ensures ops == p
    {
      ops := p;
    }

    method OptimizeUnusedAssignments()
      modifies this
      ensures ops == DropAll(old(ops))
    {
      ghost var p := ops;
      for i := 0 to |ops|
        invariant |ops| == |p| && ops[..i] == DropAll(p)[..i] && ops[i..] == p[i..]
      {
        var op := ops[i];
        assert op == p[i];
        if op.a1.TReg? {
          if op.code.ALU? && (op.code.op == ADDC || op.code.op == ADDX || op.code.op == SUBC || op.code.op == SUBX) {
            continue;
          }
          if op.a1.reg !in op.liveOut {
            ops := ops[i := op.(code := NOP, imm := false, a1 := No, a2 := No, a3 := No)];
          }
        }
      }
      assert ops == ops[..|p|];
    }
  }
}
