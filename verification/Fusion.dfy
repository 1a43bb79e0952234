/** Replacing two neighbouring ops by a NOP and one combined op: what all the peephole joins of
    x86-common-stuff.c have in common. */
module Fusion {
  import opened JitOps
  import opened Machine
  import opened FlowAnalysis
  import opened Rewriting

  function Fused(p: seq<Op>, k: nat, c: Op): seq<Op>
    requires k + 1 < |p|
  {
    p[k := Nop(p[k])][k + 1 := c]
  }

  /** The registers after the first op. */
  function After(sem: Sem, op: Op, regs: map<VReg, Word>, w: World): map<VReg, Word>
    requires op.a1.TReg?
  {
    regs[op.a1.reg := ValueAt(sem, op, regs, w)]
  }

  /** From every register file and world, c does at once what op and next do one after the other. */
  ghost predicate DoesBoth(sem: Sem, op: Op, next: Op, c: Op)
    requires op.a1.TReg?
  {
    forall regs, w {:trigger ValueAt(sem, c, regs, w)} {:trigger EffectAt(sem, c, regs, w)} ::
      DoesBothAt(sem, op, next, c, regs, w)
  }

  ghost predicate DoesBothAt(sem: Sem, op: Op, next: Op, c: Op, regs: map<VReg, Word>, w: World)
    requires op.a1.TReg?
  {
    && EffectAt(sem, op, regs, w) == w
    && (next.a1.TReg? ==> ValueAt(sem, c, regs, w) == ValueAt(sem, next, After(sem, op, regs, w), w))
    && EffectAt(sem, c, regs, w) == EffectAt(sem, next, After(sem, op, regs, w), w)
  }

  /** c may stand for op and next: it writes what next writes, reads no more than the two do, and
      op's result is dead afterwards. */
  ghost predicate Replaces(op: Op, next: Op, c: Op, out: set<VReg>) {
    && op.code.ALU? && next.code.ALU? && c.code.ALU? && op.a1.TReg?
    && (if next.a1.TReg? then c.a1 == next.a1 else !c.a1.TReg?)
    && !c.a2.TReg? && !c.a3.TReg? && c.jmp == next.jmp
    && Uses(c) <= Uses(op) + (Uses(next) - {op.a1.reg})
    && (op.a1.reg !in out || next.a1 == op.a1)
  }

  ghost predicate Fusible(sem: Sem, p: seq<Op>, l: Lives, k: nat, c: Op) {
    && WellFormed(p) && Closed(p, l) && k + 1 < |p|
    && Replaces(p[k], p[k + 1], c, l[k + 1].out) && DoesBoth(sem, p[k], p[k + 1], c)
  }

  /** Between the two ops the list p is one assignment ahead. */
  ghost predicate Ahead(sem: Sem, p: seq<Op>, l: Lives, k: nat, s: State, t: State, r0: map<VReg, Word>)
    requires k < |p| == |l| && p[k].a1.TReg?
  {
    && s.Running? && t.Running? && s.pc == t.pc == k + 1 && s.world == t.world
    && s.regs == After(sem, p[k], r0, s.world) && AgreeOn(l[k].into, r0, t.regs)
  }

  ghost predicate FusedStep(sem: Sem, p: seq<Op>, l: Lives, k: nat, s: State, t: State)
    requires k < |p| == |l| && p[k].a1.TReg?
  {
    if s.Running? && s.pc == k + 1 then exists r0 :: Ahead(sem, p, l, k, s, t, r0) else InStep(l, s, t)
  }

  lemma FusedShape(sem: Sem, p: seq<Op>, l: Lives, k: nat, c: Op)
    requires Fusible(sem, p, l, k, c)
    ensures SameShape(p, Fused(p, k, c)) && WellFormed(Fused(p, k, c))
  {
    var q := Fused(p, k, c);
    forall i | 0 <= i < |p| ensures SameShapeAt(p[i], q[i]) {
      assert WellFormedOp(p, p[k]);
    }
    ShapeWellFormed(p, q);
  }

  /** Nothing jumps between the two ops. */
  lemma OnlyFromBefore(p: seq<Op>, k: nat, i: nat)
    requires WellFormed(p) && k + 1 < |p| && p[k + 1].code.ALU? && Follows(p, i, k + 1)
    ensures i == k
  {
    if p[i].jmp.Some? { FindsFirst(p, p[i].jmp.value); }
  }

  lemma FirstStep(sem: Sem, p: seq<Op>, l: Lives, k: nat, c: Op, s: State, t: State)
    requires Fusible(sem, p, l, k, c) && InStep(l, s, t) && s.Running? && s.pc == k
    ensures Ahead(sem, p, l, k, Step(sem, p, s), Step(sem, Fused(p, k, c), t), s.regs)
  {
    assert WellFormedOp(p, p[k]);
    ValueStep(sem, p, s);
    NopStep(sem, Fused(p, k, c), t);
    assert DoesBothAt(sem, p[k], p[k + 1], c, s.regs, s.world) by {
      var v := ValueAt(sem, c, s.regs, s.world);
    }
  }

  lemma CombinedReads(sem: Sem, p: seq<Op>, l: Lives, k: nat, c: Op)
    requires Fusible(sem, p, l, k, c)
    ensures Uses(c) <= l[k].into
    ensures l[k + 1].into - {p[k].a1.reg} <= l[k].into
  {
    var res := p[k].a1.reg;
    assert WellFormedOp(p, p[k]) && Follows(p, k, k + 1);
    assert l[k + 1].into <= l[k].out;
    assert InOf(p[k], l[k].out) <= l[k].into && Defs(p[k]) == {res};
    assert InOf(p[k + 1], l[k + 1].out) <= l[k + 1].into;
    forall x | x in l[k + 1].into - {res} ensures x in l[k].into {
      assert x in l[k].out - Defs(p[k]);
    }
  }

  lemma SecondStep(sem: Sem, p: seq<Op>, l: Lives, k: nat, c: Op, s: State, t: State, r0: map<VReg, Word>)
    requires Fusible(sem, p, l, k, c) && Ahead(sem, p, l, k, s, t, r0)
    ensures InStep(l, Step(sem, p, s), Step(sem, Fused(p, k, c), t))
  {
    var next, q := p[k + 1], Fused(p, k, c);
    FusedShape(sem, p, l, k, c);
    assert WellFormedOp(p, next) && WellFormedOp(q, q[k + 1]);
    ValueStep(sem, p, s);
    ValueStep(sem, q, t);
    CombinedReads(sem, p, l, k, c);
    SameReads(c, l[k].into, r0, t.regs);
    assert DoesBothAt(sem, p[k], next, c, r0, s.world) by {
      var v := ValueAt(sem, c, r0, s.world);
    }
    SecondWrites(sem, p, l, k, c, r0, t.regs, ValueAt(sem, c, r0, s.world), s.world);
    if k + 2 < |p| {
      assert Follows(p, k + 1, k + 2);
      assert l[k + 2].into <= l[k + 1].out;
    }
  }

  lemma SecondWrites(sem: Sem, p: seq<Op>, l: Lives, k: nat, c: Op,
                     r0: map<VReg, Word>, regs: map<VReg, Word>, v: Word, w: World)
    requires Fusible(sem, p, l, k, c) && AgreeOn(l[k].into, r0, regs)
    ensures var after := After(sem, p[k], r0, w);
      if p[k + 1].a1.TReg? then AgreeOn(l[k + 1].out, after[p[k + 1].a1.reg := v], regs[c.a1.reg := v])
      else AgreeOn(l[k + 1].out, after, regs)
  {
    var next := p[k + 1];
    CombinedReads(sem, p, l, k, c);
    assert WellFormedOp(p, next);
    assert InOf(next, l[k + 1].out) <= l[k + 1].into;
    assert Defs(next) == ArgDef(next.a1);
    forall x | x in l[k + 1].out && TReg(x) != next.a1 ensures x in l[k].into && x != p[k].a1.reg {
      assert x in l[k + 1].out - Defs(next);
      assert x in l[k + 1].into;
    }
    var after := After(sem, p[k], r0, w);
    forall x | x in l[k + 1].out && TReg(x) != next.a1 ensures Read(after, x) == Read(regs, x) {
      assert Read(after, x) == Read(r0, x);
    }
    if next.a1.TReg? {
      var one, two := after[next.a1.reg := v], regs[next.a1.reg := v];
      forall x | x in l[k + 1].out ensures Read(one, x) == Read(two, x) {
        assert x != next.a1.reg ==> TReg(x) != next.a1;
      }
    }
  }

  lemma OtherStep(sem: Sem, p: seq<Op>, l: Lives, k: nat, c: Op, s: State, t: State)
    requires Fusible(sem, p, l, k, c) && InStep(l, s, t) && (s.Running? ==> s.pc != k && s.pc != k + 1)
    ensures FusedStep(sem, p, l, k, Step(sem, p, s), Step(sem, Fused(p, k, c), t))
  {
    FusedShape(sem, p, l, k, c);
    SameOpStep(sem, p, Fused(p, k, c), l, s, t);
    var s' := Step(sem, p, s);
    if s'.Running? && s'.pc == k + 1 && s.pc < |p| {
      assert WellFormedOp(p, p[s.pc]);
      assert Follows(p, s.pc, k + 1);
      OnlyFromBefore(p, k, s.pc);
    }
  }

  lemma OneFusedStep(sem: Sem, p: seq<Op>, l: Lives, k: nat, c: Op, s: State, t: State)
    requires Fusible(sem, p, l, k, c) && FusedStep(sem, p, l, k, s, t)
    ensures FusedStep(sem, p, l, k, Step(sem, p, s), Step(sem, Fused(p, k, c), t))
  {
    if s.Running? && s.pc == k {
      FirstStep(sem, p, l, k, c, s, t);
    } else if s.Running? && s.pc == k + 1 {
      var r0 :| Ahead(sem, p, l, k, s, t, r0);
      SecondStep(sem, p, l, k, c, s, t, r0);
      SecondPlace(sem, p, s);
    } else {
      OtherStep(sem, p, l, k, c, s, t);
    }
  }

  lemma SecondPlace(sem: Sem, p: seq<Op>, s: State)
    requires s.Running? && s.pc < |p| && WellFormed(p) && p[s.pc].code.ALU?
    ensures Step(sem, p, s).Running? && Step(sem, p, s).pc == s.pc + 1
  {
    assert WellFormedOp(p, p[s.pc]);
  }

  lemma FusedRuns(sem: Sem, p: seq<Op>, l: Lives, k: nat, c: Op, s: State, t: State, n: nat)
    requires Fusible(sem, p, l, k, c) && FusedStep(sem, p, l, k, s, t)
    ensures FusedStep(sem, p, l, k, Run(sem, p, s, n), Run(sem, Fused(p, k, c), t, n))
  {
    var q := Fused(p, k, c);
    forall s', t' | FusedStep(sem, p, l, k, s', t')
      ensures FusedStep(sem, p, l, k, Stepper(sem, p)(s'), Stepper(sem, q)(t'))
    {
      OneFusedStep(sem, p, l, k, c, s', t');
    }
    LockStep(Stepper(sem, p), Stepper(sem, q), (s', t') => FusedStep(sem, p, l, k, s', t'), s, t, n);
  }

  /** The list with the combined op means the same from every entry point. */
  lemma FusionPreservesMeaning(sem: Sem, p: seq<Op>, l: Lives, k: nat, c: Op, e: nat)
    requires Fusible(sem, p, l, k, c) && EntryPoint(p, e)
    ensures SameMeaning(sem, p, Fused(p, k, c), e) && EntryPoint(Fused(p, k, c), e)
  {
    forall regs, w, n: nat
      ensures SamePlace(Run(sem, p, Running(e, regs, w), n), Run(sem, Fused(p, k, c), Running(e, regs, w), n))
    {
      FusedRuns(sem, p, l, k, c, Running(e, regs, w), Running(e, regs, w), n);
    }
  }

  // ---------- live sets for the new list ----------

  /** Between NOP and combined op live what lived before, without the dropped result and with
      what the combined op reads. */
  function FusedLives(l: Lives, k: nat, res: VReg, c: Op): Lives
    requires k + 1 < |l|
  {
    l[k := Liveness(l[k].into, l[k].out - {res} + Uses(c))]
     [k + 1 := Liveness(l[k + 1].into - {res} + Uses(c), l[k + 1].out)]
  }

  lemma FusedLivenessAt(sem: Sem, p: seq<Op>, l: Lives, k: nat, c: Op, i: nat)
    requires Fusible(sem, p, l, k, c) && i < |p|
    ensures var m := FusedLives(l, k, p[k].a1.reg, c); InOf(Fused(p, k, c)[i], m[i].out) <= m[i].into
  {
    assert InOf(p[i], l[i].out) <= l[i].into;
    assert WellFormedOp(p, p[i]);
    if i == k {
      CombinedReads(sem, p, l, k, c);
      assert Defs(p[k]) == {p[k].a1.reg};
    }
    if i == k + 1 { assert Defs(c) == Defs(p[k + 1]) == ArgDef(c.a1); }
  }

  lemma FusedLivenessFollows(sem: Sem, p: seq<Op>, l: Lives, k: nat, c: Op, i: nat, j: nat)
    requires Fusible(sem, p, l, k, c) && Follows(p, i, j)
    ensures var m := FusedLives(l, k, p[k].a1.reg, c); m[j].into <= m[i].out
  {
    assert l[j].into <= l[i].out;
    assert WellFormedOp(p, p[k]);
    if j == k + 1 { OnlyFromBefore(p, k, i); }
    if i == k { assert j == k + 1; }
    if i == k + 1 || j == k { assert FusedLives(l, k, p[k].a1.reg, c)[i].out == l[i].out; }
  }

  lemma FusedLiveness(sem: Sem, p: seq<Op>, l: Lives, k: nat, c: Op)
    requires Fusible(sem, p, l, k, c)
    ensures Closed(Fused(p, k, c), FusedLives(l, k, p[k].a1.reg, c))
  {
    var q, m := Fused(p, k, c), FusedLives(l, k, p[k].a1.reg, c);
    FusedShape(sem, p, l, k, c);
    forall i: nat | i < |q| ensures InOf(q[i], m[i].out) <= m[i].into {
      FusedLivenessAt(sem, p, l, k, c, i);
    }
    forall i: nat, j: nat | Follows(q, i, j) ensures m[j].into <= m[i].out {
      ShapeFollows(p, q, i, j);
      FusedLivenessFollows(sem, p, l, k, c, i, j);
    }
  }

  /** The recorded `live_out` still covers the solution wherever a later join looks at it. */
  lemma FusedRecorded(sem: Sem, p: seq<Op>, l: Lives, k: nat, c: Op)
    requires Fusible(sem, p, l, k, c) && Recorded(p, l) && c.liveOut == p[k + 1].liveOut
    ensures Recorded(Fused(p, k, c), FusedLives(l, k, p[k].a1.reg, c))
  {
    var q, m := Fused(p, k, c), FusedLives(l, k, p[k].a1.reg, c);
    forall i: nat | i < |q| && !q[i].code.NOP? ensures m[i].out <= q[i].liveOut {
      assert l[i].out <= p[i].liveOut;
    }
  }

  /** All a pass needs to know about one fusion. */
  lemma FusionKeeps(sem: Sem, p: seq<Op>, l: Lives, k: nat, c: Op)
    requires Fusible(sem, p, l, k, c) && Recorded(p, l) && c.liveOut == p[k + 1].liveOut
    ensures var q, m := Fused(p, k, c), FusedLives(l, k, p[k].a1.reg, c);
      WellFormed(q) && Closed(q, m) && Recorded(q, m) && MeansTheSame(sem, p, q)
  {
    FusedShape(sem, p, l, k, c);
    FusedLiveness(sem, p, l, k, c);
    FusedRecorded(sem, p, l, k, c);
    forall e | EntryPoint(p, e) ensures SameMeaning(sem, p, Fused(p, k, c), e) && EntryPoint(Fused(p, k, c), e) {
      FusionPreservesMeaning(sem, p, l, k, c, e);
    }
  }
}
