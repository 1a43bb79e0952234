/** Register allocation preserves meaning: the allocated list simulates the op list. */
module Simulation {
  import opened JitOps
  import opened Machine
  import opened Hardware
  import opened Rmap
  import opened Layout
  import opened RegAlloc
  import opened Allocation
  import Llrb

  /** A solution of the dataflow inequalities inside the recorded live sets. */
  ghost predicate Solves(p: seq<Op>, live: seq<Liveness>) {
    && |live| == |p|
    && (forall i {:trigger SolvesAt(p[i], live[i])} | 0 <= i < |p| :: SolvesAt(p[i], live[i]))
    && (forall i: nat, k: nat {:trigger Follows(p, i, k)} | Follows(p, i, k) :: live[k].into <= live[i].out)
  }

  ghost predicate SolvesAt(op: Op, l: Liveness) {
    && Uses(op) <= l.into && l.out - Defs(op) <= l.into
    && l.into <= op.liveIn && l.out <= op.liveOut
  }

  /** branch_adjustment knows only the six compare branches: the mask and overflow branches
      are right only where no repair is needed. */
  ghost predicate TestsAgree(x: Plan, live: seq<Liveness>)
    requires x.Shaped() && |live| == |x.p|
  {
    forall i {:trigger x.Target(i)} | 0 <= i < |x.p| && x.p[i].code.TEST? && Goto(x.p, x.p[i]) < |x.p| ::
      Agree(M(x.a[i].op.regmap), M(x.Target(i).regmap), live[Goto(x.p, x.p[i])].into)
  }

  ghost predicate Prepared(x: Plan, live: seq<Liveness>) {
    && x.Shaped() && x.Assigned() && x.Built() && x.FreshIds() && PlainProgram(x.p)
    && Solves(x.p, live)
  }

  ghost predicate Ready(x: Plan, live: seq<Liveness>) {
    Prepared(x, live) && TestsAgree(x, live)
  }

  /** The virtual machine before op i and the hardware machine at the start of its block, every
      live register where the map says; or both halted alike. */
  ghost predicate Related(x: Plan, live: seq<Liveness>, vs: State, hs: HState)
    requires x.Shaped() && |live| == |x.p|
  {
    match (vs, hs)
    case (Halted(v, w), HHalted(v', w')) => v == v' && w == w'
    case (Running(i, regs, w), HRunning(pc, st, w')) =>
      && w == w'
      && (if i < |x.p| then pc == Start(x.bs, i) && Holds(x.EntryMap(i), live[i].into, regs, st)
          else pc >= |x.Output()|)
    case _ => false
  }

  // ---------- pieces of one step ----------

  lemma BlockSlice(bs: Blocks, i: nat, moves: seq<Op>, rest: seq<Op>)
    requires i < |bs| && bs[i] == moves + rest
    ensures var a, q := Start(bs, i), Concat(bs);
      && a + |moves| + |rest| == Start(bs, i + 1) <= |q|
      && q[a..a + |moves|] == moves && q[a + |moves|..a + |moves| + |rest|] == rest
  {
    Split(bs, i);
  }

  lemma CarryOver(op: Op, m: map<VReg, HReg>, r: Assigned, live: set<VReg>, regs: map<VReg, Word>, st: Store)
    requires CarriedOver(op, m, r) && live <= op.liveIn && Holds(m, live, regs, st)
    ensures AllMoves(r.moves) && Holds(M(r.op.regmap), live, regs, Exec(r.moves, st))
  {
  }

  lemma SameValue(m: map<VReg, HReg>, live: set<VReg>, regs: map<VReg, Word>, st: Store, a: Arg, r: HReg)
    requires Holds(m, live, regs, st) && ArgAssigned(m, a, r) && ArgUse(a) <= live
    ensures HValue(a, r, st.hw) == Value(a, regs)
  {
    if a.Reg? { assert a.reg in live; }
  }

  lemma SameValues(m: map<VReg, HReg>, live: set<VReg>, regs: map<VReg, Word>, st: Store, op: Op)
    requires Holds(m, live, regs, st) && Uses(op) <= live && !op.code.GETARG?
    requires ArgAssigned(m, op.a1, op.r1) && ArgAssigned(m, op.a2, op.r2) && ArgAssigned(m, op.a3, op.r3)
    ensures HValue(op.a1, op.r1, st.hw) == Value(op.a1, regs)
    ensures HValue(op.a2, op.r2, st.hw) == Value2(op, regs)
    ensures HValue(op.a3, op.r3, st.hw) == Value(op.a3, regs)
  {
    SameValue(m, live, regs, st, op.a1, op.r1);
    SameValue(m, live, regs, st, op.a2, op.r2);
    SameValue(m, live, regs, st, op.a3, op.r3);
  }

  /** Writing the target register on both sides keeps the registers live after the op in place. */
  lemma WriteBack(sem: Sem, p: seq<Op>, m: map<VReg, HReg>, into: set<VReg>, out: set<VReg>,
                  regs: map<VReg, Word>, st: Store, op: Op, v: Word)
    requires WellFormedOp(p, op) && Plain(op) && Injective(m) && ArgAssigned(m, op.a1, op.r1)
    requires Holds(m, into, regs, st) && out - Defs(op) <= into
    ensures Holds(m, out, Written(sem, op, regs, v), st.(hw := if op.a1.TReg? then st.hw[op.r1 := v] else st.hw))
  {
    assert PrologArgs(0, 0) == {};
    if op.code.PROLOG? {
      assert Written(sem, op, regs, v) == regs;
    }
    forall x | x in out && x !in Defs(op) ensures x in into {
      assert x in out - Defs(op);
    }
  }

  /** What an overflow branch leaves in its operand is in the operand's place on both sides. */
  lemma SumInPlace(sem: Sem, m: map<VReg, HReg>, live: set<VReg>, regs: map<VReg, Word>, st: Store, op: Op,
                   x2: Word, x3: Word)
    requires Injective(m) && ArgAssigned(m, op.a2, op.r2) && Holds(m, live, regs, st)
    ensures Holds(m, live, Compared(sem, op, Operand(op), x2, x3, regs),
                  st.(hw := Compared(sem, op, op.r2, x2, x3, st.hw)))
  {
  }

  /** The instructions of an op leave every register that is live before or after it in place. */
  lemma ScratchHolds(sem: Sem, o: Op, live: set<VReg>, regs: map<VReg, Word>, st: Store)
    requires live <= o.liveIn + o.liveOut && Holds(M(o.regmap), live, regs, st)
    ensures Holds(M(o.regmap), live, regs, st.(hw := Scratched(sem, o, st.hw)))
  {
    forall v | v in live && v in M(o.regmap)
      ensures Read(Scratched(sem, o, st.hw), M(o.regmap)[v]) == Read(st.hw, M(o.regmap)[v])
    {
      assert InUse(o, M(o.regmap)[v]);
    }
  }

  // ---------- one op on both machines ----------

  /** op is the program's op and o what became of it; m says where its registers are. */
  ghost predicate Matched(p: seq<Op>, op: Op, o: Op, m: map<VReg, HReg>, l: Liveness, regs: map<VReg, Word>,
      st: Store) {
    && WellFormedOp(p, op) && Plain(op) && SameButRegs(o, op) && Injective(m)
    && ArgAssigned(m, op.a1, o.r1) && ArgAssigned(m, op.a2, o.r2) && ArgAssigned(m, op.a3, o.r3)
    && Uses(op) <= l.into && l.out - Defs(op) <= l.into && Holds(m, l.into, regs, st)
  }

  lemma StepOp(sem: Sem, p: seq<Op>, q: seq<Op>, i: nat, pc: nat, o: Op, m: map<VReg, HReg>, l: Liveness,
               regs: map<VReg, Word>, st: Store, w: World)
    requires i < |p| && pc < |q| && q[pc] == o && Matched(p, p[i], o, m, l, regs, st)
    requires m == M(o.regmap) && l.into <= o.liveIn
    ensures var vs, hs := Step(sem, p, Running(i, regs, w)), HStep(sem, q, HRunning(pc, st, w));
      || (vs.Halted? && hs == HHalted(vs.value, vs.world))
      || (vs.Running? && hs.HRunning? && vs.pc == i + 1 && hs.pc == pc + 1 && vs.world == hs.world
          && FallsThrough(p[i]) && Holds(m, l.out, vs.regs, hs.store))
      || (vs.Running? && hs.HRunning? && vs.pc == Goto(p, p[i]) && hs.pc == Goto(q, o) && vs.world == hs.world
          && p[i].jmp.Some? && Holds(m, l.into, vs.regs, hs.store))
  {
    SameValues(m, l.into, regs, st, p[i].(r1 := o.r1, r2 := o.r2, r3 := o.r3));
    var x2, x3 := Value2(p[i], regs), Value(p[i].a3, regs);
    var worked := st.(hw := Scratched(sem, o, st.hw));
    var regs', st' := Compared(sem, p[i], Operand(p[i]), x2, x3, regs),
      st.(hw := Compared(sem, o, o.r2, x2, x3, worked.hw));
    ScratchHolds(sem, o, l.into, regs, st);
    SumInPlace(sem, m, l.into, regs, worked, p[i].(r2 := o.r2), x2, x3);
    WriteBack(sem, p, m, l.into, l.out, regs', st', p[i].(r1 := o.r1), Result(sem, p[i], x2, x3, w));
  }

  /** An inverted branch falls through where the branch was taken and the other way round. */
  lemma StepInverted(sem: Sem, p: seq<Op>, q: seq<Op>, i: nat, pc: nat, o: Op, id: nat, m: map<VReg, HReg>, l: Liveness,
                     regs: map<VReg, Word>, st: Store, w: World)
    requires i < |p| && pc < |q| && p[i].code.BRANCH? && Matched(p, p[i], o, m, l, regs, st)
    requires q[pc] == Inverted(o, id)
    ensures var vs, hs := Step(sem, p, Running(i, regs, w)), HStep(sem, q, HRunning(pc, st, w));
      || (vs == Running(i + 1, regs, w) && hs == HRunning(Find(q, id), st, w))
      || (vs == Running(Goto(p, p[i]), regs, w) && hs == HRunning(pc + 1, st, w))
  {
    SameValues(m, l.into, regs, st, p[i].(r1 := o.r1, r2 := o.r2, r3 := o.r3));
    InverseNegates(sem, o.code.cond, o.code.unsigned, Value(p[i].a2, regs), Value(p[i].a3, regs));
  }

  // ---------- where a step lands ----------

  lemma LandNext(x: Plan, live: seq<Liveness>, i: nat, regs: map<VReg, Word>, st: Store)
    requires Ready(x, live) && i < |x.p| && FallsThrough(x.p[i])
    requires Holds(M(x.a[i].op.regmap), live[i].out, regs, st)
    ensures i + 1 < |x.p| ==> Holds(x.EntryMap(i + 1), live[i + 1].into, regs, st)
  {
    if i + 1 < |x.p| {
      assert Follows(x.p, i, i + 1) && EntersProlog(x.p, i + 1);
      if x.p[i + 1].code.PROLOG? {
        assert AssignedWell(x.p[i], x.EntryMap(i), x.a[i]);
        assert Plain(x.p[i]);
      }
    }
  }

  lemma LandTarget(x: Plan, live: seq<Liveness>, i: nat, regs: map<VReg, Word>, st: Store)
    requires Prepared(x, live) && i < |x.p| && x.p[i].jmp.Some? && Goto(x.p, x.p[i]) < |x.p|
    requires Holds(M(x.Target(i).regmap), live[Goto(x.p, x.p[i])].into, regs, st)
    ensures var t := Goto(x.p, x.p[i]);
      && t < |x.p| && Goto(x.Output(), x.p[i]) == Start(x.bs, t)
      && Holds(x.EntryMap(t), live[t].into, regs, st)
  {
    var t := Goto(x.p, x.p[i]);
    assert WellFormedOp(x.p, x.p[i]);
    FindsFirst(x.p, x.p[i].jmp.value);
    OldTarget(x, t, x.p[i].jmp.value);
    assert AssignedWell(x.p[t], x.EntryMap(t), x.a[t]);
    assert Plain(x.p[t]);
  }

  // ---------- one block ----------

  lemma HRunThen(sem: Sem, q: seq<Op>, s: HState, m: nat, t: HState)
    requires HRun(sem, q, s, m) == t
    ensures HRun(sem, q, s, m + 1) == HStep(sem, q, t)
  {
  }

  lemma MovesThenJump(sem: Sem, q: seq<Op>, pc: nat, ms: seq<Op>, o: Op, st: Store, w: World)
    requires AllMoves(ms) && pc + |ms| < |q| && q[pc..pc + |ms|] == ms && q[pc + |ms|] == o && o.code.JMP?
      && !o.a1.TReg?
    ensures HRun(sem, q, HRunning(pc, st, w), |ms| + 1) == HRunning(Goto(q, o), Exec(ms, st), w)
  {
    RunMoves(sem, q, pc, ms, st, w);
    HRunThen(sem, q, HRunning(pc, st, w), |ms|, HRunning(pc + |ms|, Exec(ms, st), w));
  }

  /** The moves of a repaired jump put every register live at its target where the target's map says. */
  lemma Repaired(x: Plan, live: seq<Liveness>, i: nat, cur: RegMap, out: set<VReg>, regs: map<VReg, Word>, st: Store)
    requires Ready(x, live) && i < |x.p| && Goto(x.p, x.p[i]) < |x.p| && x.p[i].jmp.Some?
    requires Llrb.Ordered(cur) && Holds(M(cur), live[Goto(x.p, x.p[i])].into, regs, st)
    requires live[Goto(x.p, x.p[i])].into <= out
    ensures var t := Goto(x.p, x.p[i]); var tgt := x.Target(i);
      && Goto(x.Output(), x.p[i]) == Start(x.bs, t)
      && Holds(x.EntryMap(t), live[t].into, regs, Exec(JumpMoves(cur, tgt.regmap, tgt.liveIn, out), st))
  {
    var t := Goto(x.p, x.p[i]);
    var tgt := x.Target(i);
    assert AssignedWell(x.p[t], x.EntryMap(t), x.a[t]);
    assert SolvesAt(x.p[t], live[t]);
    JumpRepair(cur, tgt.regmap, tgt.liveIn, out, live[t].into, regs, st);
    LandTarget(x, live, i, regs, Exec(JumpMoves(cur, tgt.regmap, tgt.liveIn, out), st));
  }

  lemma JumpsFollow(x: Plan, live: seq<Liveness>, i: nat)
    requires Ready(x, live) && i < |x.p| && x.p[i].jmp.Some?
    ensures var t := Goto(x.p, x.p[i]);
      t < |x.p| && live[t].into <= live[i].out <= live[i].into && live[i].out <= x.p[i].liveOut
  {
    assert WellFormedOp(x.p, x.p[i]) && SolvesAt(x.p[i], live[i]);
    assert Follows(x.p, i, Goto(x.p, x.p[i]));
    assert Defs(x.p[i]) == {};
  }

  ghost function RepairMoves(op: Op, t: Op): seq<Op> {
    JumpMoves(op.regmap, t.regmap, t.liveIn, op.liveOut)
  }

  lemma MovesAndOp(bs: Blocks, i: nat, ms: seq<Op>, op: Op)
    requires i < |bs| && bs[i] == ms + [op]
    ensures var s, q := Start(bs, i), Concat(bs);
      s + |ms| < |q| && q[s..s + |ms|] == ms && q[s + |ms|] == op
  {
    BlockSlice(bs, i, ms, [op]);
    var s, q := Start(bs, i), Concat(bs);
    assert q[s + |ms|] == q[s + |ms|..s + |ms| + 1][0];
  }

  lemma JumpShape(x: Plan, i: nat)
    requires x.Shaped() && x.Assigned() && x.Built() && PlainProgram(x.p) && i < |x.p| && x.p[i].code.JMP?
    ensures x.bs[i] == RepairMoves(x.a[i].op, x.Target(i)) + [x.a[i].op]
    ensures M(x.a[i].op.regmap) == x.EntryMap(i) && Llrb.Ordered(x.a[i].op.regmap) && SameButRegs(x.a[i].op, x.p[i])
    ensures !x.p[i].a1.TReg? && x.p[i].jmp.Some?
  {
    assert WellFormedOp(x.p, x.p[i]) && Plain(x.p[i]);
    assert AssignedWell(x.p[i], x.EntryMap(i), x.a[i]);
    assert x.bs[i] == x.Block(i) == x.Rest(i);
  }

  lemma StepJump(sem: Sem, p: seq<Op>, i: nat, regs: map<VReg, Word>, w: World)
    requires i < |p| && p[i].code.JMP?
    ensures Step(sem, p, Running(i, regs, w)) == Running(Goto(p, p[i]), regs, w)
  {
  }

  lemma JumpRuns(x: Plan, live: seq<Liveness>, sem: Sem, i: nat, regs: map<VReg, Word>, st: Store, w: World)
    returns (n: nat, st': Store)
    requires Ready(x, live) && i < |x.p| && x.p[i].code.JMP? && Holds(x.EntryMap(i), live[i].into, regs, st)
    ensures var t := Goto(x.p, x.p[i]);
      && n >= 1 && t < |x.p| && Holds(x.EntryMap(t), live[t].into, regs, st')
      && HRun(sem, x.Output(), HRunning(Start(x.bs, i), st, w), n) == HRunning(Start(x.bs, t), st', w)
  {
    var op := x.a[i].op;
    JumpShape(x, i);
    JumpsFollow(x, live, i);
    Repaired(x, live, i, op.regmap, op.liveOut, regs, st);
    var ms := RepairMoves(op, x.Target(i));
    MovesAndOp(x.bs, i, ms, op);
    MovesThenJump(sem, x.Output(), Start(x.bs, i), ms, op, st, w);
    n, st' := |ms| + 1, Exec(ms, st);
  }

  /** A JMP with its moves. */
  lemma JumpBlock(x: Plan, live: seq<Liveness>, sem: Sem, i: nat, regs: map<VReg, Word>, st: Store, w: World)
    returns (n: nat)
    requires Ready(x, live) && i < |x.p| && x.p[i].code.JMP? && Holds(x.EntryMap(i), live[i].into, regs, st)
    ensures n >= 1
    ensures Related(x, live, Step(sem, x.p, Running(i, regs, w)),
      HRun(sem, x.Output(), HRunning(Start(x.bs, i), st, w), n))
  {
    var st';
    n, st' := JumpRuns(x, live, sem, i, regs, st, w);
    StepJump(sem, x.p, i, regs, w);
  }

  // ---------- branches that are split ----------

  lemma SplitShape(x: Plan, i: nat)
    requires x.Shaped() && x.Assigned() && x.Built() && PlainProgram(x.p) && i < |x.p| && x.Splits(i)
    ensures var a := x.a[i];
      x.bs[i] == a.moves + ([Inverted(a.op, x.ids[i])]
        + (RepairMoves(JumpOp(a.op), x.Target(i)) + [JumpOp(a.op), PatchOp(x.ids[i])]))
    ensures x.p[i].code.BRANCH? && x.p[i].jmp.Some? && !x.p[i].a1.TReg?
    ensures Llrb.Ordered(JumpOp(x.a[i].op).regmap) && M(JumpOp(x.a[i].op).regmap) == M(x.a[i].op.regmap)
    ensures SameButRegs(x.a[i].op, x.p[i])
  {
    var a := x.a[i];
    assert x.bs[i] == x.Block(i);
    assert AssignedWell(x.p[i], x.EntryMap(i), x.a[i]);
    assert WellFormedOp(x.p, x.p[i]);
    Llrb.CloneCorrect(a.op.regmap);
    var ms := RepairMoves(JumpOp(a.op), x.Target(i));
    assert x.Rest(i) == [Inverted(a.op, x.ids[i])] + (ms + [JumpOp(a.op)]) + [PatchOp(x.ids[i])];
    assert x.Rest(i) == [Inverted(a.op, x.ids[i])] + (ms + [JumpOp(a.op), PatchOp(x.ids[i])]);
  }

  /** Where the parts of a split block are in the list. */
  lemma SplitParts(bs: Blocks, i: nat, a: seq<Op>, b: Op, ms: seq<Op>, c: Op, d: Op)
    requires i < |bs| && bs[i] == a + ([b] + (ms + [c, d]))
    ensures var s, q := Start(bs, i) + |a|, Concat(bs);
      && s + |ms| + 3 == Start(bs, i + 1) <= |q| && Start(bs, i) + |bs[i]| == Start(bs, i + 1)
      && q[s] == b && q[s + 1..s + 1 + |ms|] == ms && q[s + 1 + |ms|] == c && q[s + 2 + |ms|] == d
  {
    var n, m, s, q := |a|, |ms|, Start(bs, i) + |a|, Concat(bs);
    Split(bs, i);
    At(bs, i, n);
    At(bs, i, n + 1 + m);
    At(bs, i, n + 2 + m);
    forall k | 0 <= k < m ensures q[s + 1 + k] == ms[k] {
      At(bs, i, n + 1 + k);
    }
    assert q[s + 1..s + 1 + m] == ms;
  }

  lemma SplitLayout(x: Plan, i: nat)
    requires x.Shaped() && x.Assigned() && x.Built() && PlainProgram(x.p) && i < |x.p| && x.Splits(i)
    ensures var o, id := x.a[i].op, x.ids[i];
      var ms, s, q := RepairMoves(JumpOp(o), x.Target(i)), Start(x.bs, i) + |x.a[i].moves|, x.Output();
      && s + |ms| + 3 == Start(x.bs, i + 1) <= |q| && Start(x.bs, i) + |x.bs[i]| == Start(x.bs, i + 1)
      && q[s] == Inverted(o, id) && q[s + 1..s + 1 + |ms|] == ms
      && q[s + 1 + |ms|] == JumpOp(o) && q[s + 2 + |ms|] == PatchOp(id)
    ensures x.p[i].code.BRANCH? && x.p[i].jmp.Some? && !x.p[i].a1.TReg?
    ensures Llrb.Ordered(JumpOp(x.a[i].op).regmap) && M(JumpOp(x.a[i].op).regmap) == M(x.a[i].op.regmap)
    ensures SameButRegs(x.a[i].op, x.p[i])
  {
    var o, id := x.a[i].op, x.ids[i];
    SplitShape(x, i);
    SplitParts(x.bs, i, x.a[i].moves, Inverted(o, id), RepairMoves(JumpOp(o), x.Target(i)), JumpOp(o), PatchOp(id));
  }

  lemma StepPatch(sem: Sem, q: seq<Op>, pc: nat, id: nat, st: Store, w: World)
    requires pc < |q| && q[pc] == PatchOp(id)
    ensures HStep(sem, q, HRunning(pc, st, w)) == HRunning(pc + 1, st, w)
  {
  }

  lemma TwoSteps(sem: Sem, q: seq<Op>, s: HState, t: HState, u: HState)
    requires HStep(sem, q, s) == t && HStep(sem, q, t) == u
    ensures HRun(sem, q, s, 2) == u
  {
    IterateFirst(HStepper(sem, q), s, 1);
    IterateFirst(HStepper(sem, q), t, 0);
  }

  /** The inverted branch taken: over the JMP to the PATCH, and on to the next op. */
  lemma SplitFalls(x: Plan, live: seq<Liveness>, sem: Sem, i: nat, h: HState, regs: map<VReg, Word>, st: Store,
      w: World)
    requires Ready(x, live) && i < |x.p| && x.Splits(i)
    requires Holds(M(x.a[i].op.regmap), live[i].into, regs, st)
    requires HStep(sem, x.Output(), h) == HRunning(Find(x.Output(), x.ids[i]), st, w)
    ensures Related(x, live, Running(i + 1, regs, w), HRun(sem, x.Output(), h, 2))
  {
    var q, id := x.Output(), x.ids[i];
    var ms := RepairMoves(JumpOp(x.a[i].op), x.Target(i));
    SplitLayout(x, i);
    NewTarget(x, i);
    StepPatch(sem, q, Find(q, id), id, st, w);
    TwoSteps(sem, q, h, HRunning(Find(q, id), st, w), HRunning(Find(q, id) + 1, st, w));
    JumpsFollow(x, live, i);
    LandNext(x, live, i, regs, st);
    EndOfList(x, i);
  }

  lemma EndOfList(x: Plan, i: nat)
    requires x.Shaped() && i < |x.p|
    ensures i + 1 == |x.p| ==> Start(x.bs, i + 1) == |x.Output()|
  {
    StartEnds(x.bs);
  }

  lemma StepMovesJump(sem: Sem, q: seq<Op>, h: HState, pc: nat, ms: seq<Op>, o: Op, st: Store, w: World)
    requires HStep(sem, q, h) == HRunning(pc, st, w)
    requires AllMoves(ms) && pc + |ms| < |q| && q[pc..pc + |ms|] == ms && q[pc + |ms|] == o && o.code.JMP?
      && !o.a1.TReg?
    ensures HRun(sem, q, h, |ms| + 2) == HRunning(Goto(q, o), Exec(ms, st), w)
  {
    MovesThenJump(sem, q, pc, ms, o, st, w);
    IterateFirst(HStepper(sem, q), h, |ms| + 1);
  }

  /** The inverted branch not taken: the moves and the JMP. */
  lemma SplitJumps(x: Plan, live: seq<Liveness>, sem: Sem, i: nat, h: HState, regs: map<VReg, Word>, st: Store,
      w: World)
    returns (n: nat)
    requires Ready(x, live) && i < |x.p| && x.Splits(i)
    requires Holds(M(x.a[i].op.regmap), live[i].into, regs, st)
    requires HStep(sem, x.Output(), h) == HRunning(Start(x.bs, i) + |x.a[i].moves| + 1, st, w)
    ensures n >= 1 && Related(x, live, Running(Goto(x.p, x.p[i]), regs, w), HRun(sem, x.Output(), h, n))
  {
    var o, q, s := JumpOp(x.a[i].op), x.Output(), Start(x.bs, i) + |x.a[i].moves|;
    var ms := RepairMoves(o, x.Target(i));
    SplitLayout(x, i);
    JumpsFollow(x, live, i);
    Repaired(x, live, i, o.regmap, o.liveOut, regs, st);
    StepMovesJump(sem, q, h, s + 1, ms, o, st, w);
    n := |ms| + 2;
  }

  lemma InvertedStep(x: Plan, live: seq<Liveness>, sem: Sem, i: nat, regs: map<VReg, Word>, st: Store, w: World)
    requires Ready(x, live) && i < |x.p| && x.Splits(i)
    requires Holds(M(x.a[i].op.regmap), live[i].into, regs, st)
    ensures var s, q := Start(x.bs, i) + |x.a[i].moves|, x.Output();
      var vs, hs := Step(sem, x.p, Running(i, regs, w)), HStep(sem, q, HRunning(s, st, w));
      || (vs == Running(i + 1, regs, w) && hs == HRunning(Find(q, x.ids[i]), st, w))
      || (vs == Running(Goto(x.p, x.p[i]), regs, w) && hs == HRunning(s + 1, st, w))
  {
    SplitLayout(x, i);
    assert AssignedWell(x.p[i], x.EntryMap(i), x.a[i]);
    assert WellFormedOp(x.p, x.p[i]) && Plain(x.p[i]) && SolvesAt(x.p[i], live[i]);
    StepInverted(sem, x.p, x.Output(), i, Start(x.bs, i) + |x.a[i].moves|, x.a[i].op, x.ids[i],
                 M(x.a[i].op.regmap), live[i], regs, st, w);
  }

  /** From the inverted branch on: the fall-through or the repaired jump. */
  lemma SplitRuns(x: Plan, live: seq<Liveness>, sem: Sem, i: nat, regs: map<VReg, Word>, st: Store, w: World)
    returns (n: nat)
    requires Ready(x, live) && i < |x.p| && x.Splits(i)
    requires Holds(M(x.a[i].op.regmap), live[i].into, regs, st)
    ensures n >= 1
    ensures Related(x, live, Step(sem, x.p, Running(i, regs, w)),
                    HRun(sem, x.Output(), HRunning(Start(x.bs, i) + |x.a[i].moves|, st, w), n))
  {
    var h := HRunning(Start(x.bs, i) + |x.a[i].moves|, st, w);
    InvertedStep(x, live, sem, i, regs, st, w);
    if Step(sem, x.p, Running(i, regs, w)) == Running(i + 1, regs, w)
      && HStep(sem, x.Output(), h) == HRunning(Find(x.Output(), x.ids[i]), st, w) {
      SplitFalls(x, live, sem, i, h, regs, st, w);
      n := 2;
    } else {
      n := SplitJumps(x, live, sem, i, h, regs, st, w);
    }
  }

  // ---------- ops that keep their place ----------

  lemma PlainShape(x: Plan, i: nat)
    requires x.Shaped() && x.Assigned() && x.Built() && PlainProgram(x.p) && i < |x.p|
    requires !x.Splits(i) && !x.p[i].code.JMP?
    ensures var s, q := Start(x.bs, i) + |x.a[i].moves|, x.Output();
      s < |q| && q[s] == x.a[i].op && s + 1 == Start(x.bs, i + 1)
  {
    assert x.bs[i] == x.Block(i);
    assert AssignedWell(x.p[i], x.EntryMap(i), x.a[i]);
    assert x.bs[i] == x.a[i].moves + [x.a[i].op];
    BlockSlice(x.bs, i, x.a[i].moves, [x.a[i].op]);
    MovesAndOp(x.bs, i, x.a[i].moves, x.a[i].op);
  }

  /** A branch left alone needs no repair: its map agrees with its target's. */
  lemma UnsplitAgrees(x: Plan, live: seq<Liveness>, i: nat)
    requires Ready(x, live) && i < |x.p| && !x.Splits(i) && x.p[i].jmp.Some? && !x.p[i].code.JMP?
    ensures var t := Goto(x.p, x.p[i]);
      t < |x.p| && Agree(M(x.a[i].op.regmap), M(x.Target(i).regmap), live[t].into)
  {
    JumpsFollow(x, live, i);
    assert WellFormedOp(x.p, x.p[i]);
    if x.p[i].code.BRANCH? {
      var t := Goto(x.p, x.p[i]);
      assert SolvesAt(x.p[t], live[t]);
      assert AssignedWell(x.p[i], x.EntryMap(i), x.a[i]) && AssignedWell(x.p[t], x.EntryMap(t), x.a[t]);
      EqualMeaning(x.a[i].op.regmap, x.Target(i).regmap, x.Target(i).liveIn, x.a[i].op.liveOut);
    }
  }

  lemma FallsAlike(x: Plan, live: seq<Liveness>, i: nat, vs: State, hs: HState)
    requires Ready(x, live) && i < |x.p| && vs.Running? && hs.HRunning? && vs.world == hs.world
    requires vs.pc == i + 1 && hs.pc == Start(x.bs, i + 1) && FallsThrough(x.p[i])
    requires Holds(M(x.a[i].op.regmap), live[i].out, vs.regs, hs.store)
    ensures Related(x, live, vs, hs)
  {
    EndOfList(x, i);
    LandNext(x, live, i, vs.regs, hs.store);
  }

  lemma GoesAlike(x: Plan, live: seq<Liveness>, i: nat, vs: State, hs: HState)
    requires Ready(x, live) && i < |x.p| && !x.Splits(i) && x.p[i].jmp.Some? && !x.p[i].code.JMP?
    requires vs.Running? && hs.HRunning? && vs.world == hs.world
    requires vs.pc == Goto(x.p, x.p[i]) && hs.pc == Goto(x.Output(), x.a[i].op)
    requires Holds(M(x.a[i].op.regmap), live[i].into, vs.regs, hs.store)
    ensures Related(x, live, vs, hs)
  {
    assert AssignedWell(x.p[i], x.EntryMap(i), x.a[i]);
    UnsplitAgrees(x, live, i);
    JumpsFollow(x, live, i);
    LandTarget(x, live, i, vs.regs, hs.store);
  }

  lemma PlainRuns(x: Plan, live: seq<Liveness>, sem: Sem, i: nat, regs: map<VReg, Word>, st: Store, w: World)
    requires Ready(x, live) && i < |x.p| && !x.Splits(i) && !x.p[i].code.JMP?
    requires Holds(M(x.a[i].op.regmap), live[i].into, regs, st)
    ensures Related(x, live, Step(sem, x.p, Running(i, regs, w)),
                    HStep(sem, x.Output(), HRunning(Start(x.bs, i) + |x.a[i].moves|, st, w)))
  {
    var q, s := x.Output(), Start(x.bs, i) + |x.a[i].moves|;
    PlainShape(x, i);
    assert AssignedWell(x.p[i], x.EntryMap(i), x.a[i]);
    assert WellFormedOp(x.p, x.p[i]) && Plain(x.p[i]) && SolvesAt(x.p[i], live[i]);
    StepOp(sem, x.p, q, i, s, x.a[i].op, M(x.a[i].op.regmap), live[i], regs, st, w);
    var vs, hs := Step(sem, x.p, Running(i, regs, w)), HStep(sem, q, HRunning(s, st, w));
    if vs.Running? {
      if vs.pc == i + 1 && hs.pc == s + 1 && FallsThrough(x.p[i])
        && Holds(M(x.a[i].op.regmap), live[i].out, vs.regs, hs.store) {
        FallsAlike(x, live, i, vs, hs);
      } else {
        GoesAlike(x, live, i, vs, hs);
      }
    }
  }

  // ---------- whole runs ----------

  /** One step of the virtual machine is one or more steps of the hardware machine. */
  lemma OneStep(x: Plan, live: seq<Liveness>, sem: Sem, i: nat, regs: map<VReg, Word>, st: Store, w: World)
    returns (n: nat)
    requires Ready(x, live) && i < |x.p| && Holds(x.EntryMap(i), live[i].into, regs, st)
    ensures n >= 1
    ensures Related(x, live, Step(sem, x.p, Running(i, regs, w)),
      HRun(sem, x.Output(), HRunning(Start(x.bs, i), st, w), n))
  {
    if x.p[i].code.JMP? {
      n := JumpBlock(x, live, sem, i, regs, st, w);
    } else {
      var r, q, h := x.a[i], x.Output(), HRunning(Start(x.bs, i), st, w);
      assert SolvesAt(x.p[i], live[i]);
      MovesRun(x, sem, i, live[i].into, regs, st, w);
      var m;
      if x.Splits(i) {
        m := SplitRuns(x, live, sem, i, regs, Exec(r.moves, st), w);
      } else {
        m := 1;
        PlainRuns(x, live, sem, i, regs, Exec(r.moves, st), w);
        IterateFirst(HStepper(sem, q), HRunning(Start(x.bs, i) + |r.moves|, Exec(r.moves, st), w), 0);
      }
      n := |r.moves| + m;
      IterateAdd(HStepper(sem, q), h, |r.moves|, m);
    }
  }

  lemma MovesSlice(x: Plan, i: nat)
    requires x.Shaped() && x.Built() && i < |x.p|
    ensures var q, s, n := x.Output(), Start(x.bs, i), |x.a[i].moves|;
      s + n <= |q| && q[s..s + n] == x.a[i].moves
  {
    assert x.bs[i] == x.Block(i);
    BlockSlice(x.bs, i, x.a[i].moves, x.Rest(i));
  }

  /** The moves before an op have run: its map now holds. */
  lemma {:induction false} MovesRun(x: Plan, sem: Sem, i: nat, live: set<VReg>, regs: map<VReg, Word>, st: Store,
      w: World)
    requires x.Shaped() && x.Assigned() && x.Built() && i < |x.p|
    requires live <= x.p[i].liveIn && Holds(x.EntryMap(i), live, regs, st)
    ensures var r := x.a[i];
      && AllMoves(r.moves) && Holds(M(r.op.regmap), live, regs, Exec(r.moves, st))
      && HRun(sem, x.Output(), HRunning(Start(x.bs, i), st, w), |r.moves|)
         == HRunning(Start(x.bs, i) + |r.moves|, Exec(r.moves, st), w)
  {
    assert CarriedOver(x.p[i], x.EntryMap(i), x.a[i]);
    CarryOver(x.p[i], x.EntryMap(i), x.a[i], live, regs, st);
    MovesSlice(x, i);
    RunMoves(sem, x.Output(), Start(x.bs, i), x.a[i].moves, st, w);
  }

  /** After any number of steps of the virtual machine the hardware machine has come to a
      related state, in at least as many steps. */
  lemma {:induction false} Simulates(x: Plan, live: seq<Liveness>, sem: Sem, vs: State, hs: HState, n: nat)
    returns (m: nat)
    requires Ready(x, live) && Related(x, live, vs, hs)
    ensures m >= n && Related(x, live, Run(sem, x.p, vs, n), HRun(sem, x.Output(), hs, m))
  {
    if n == 0 {
      m := 0;
    } else {
      m := Simulates(x, live, sem, vs, hs, n - 1);
      var v, h := Run(sem, x.p, vs, n - 1), HRun(sem, x.Output(), hs, m);
      var k := 1;
      if v.Running? && v.pc < |x.p| {
        k := OneStep(x, live, sem, v.pc, v.regs, h.store, v.world);
      } else {
        IterateFirst(HStepper(sem, x.Output()), h, 0);
      }
      IterateAdd(HStepper(sem, x.Output()), hs, m, k);
      m := m + k;
    }
  }

  /** The machines start at the entry of a function, where nothing is mapped: each register
      live there has its value in its slot. */
  ghost predicate Entry(x: Plan, live: seq<Liveness>, e: nat, regs: map<VReg, Word>, st: Store)
    requires x.Shaped() && |live| == |x.p|
  {
    e < |x.p| && (e == 0 || x.p[e].code.PROLOG?) && forall v <- live[e].into :: Read(regs, v) == Read(st.slots, v)
  }

  lemma {:induction false} StaysHalted(sem: Sem, q: seq<Op>, s: HState, m: nat, k: nat)
    requires m <= k && HRun(sem, q, s, m).HHalted?
    ensures HRun(sem, q, s, k) == HRun(sem, q, s, m)
  {
    if m < k { StaysHalted(sem, q, s, m, k - 1); }
  }

  /** Register allocation preserves meaning: started at the same function, the op list returns a
      value with a final carry and memory exactly when the allocated list does. */
  lemma AllocationPreservesMeaning(x: Plan, live: seq<Liveness>, sem: Sem, e: nat, regs: map<VReg, Word>, st: Store,
                                   w: World, value: Word, w': World)
    requires Ready(x, live) && Entry(x, live, e, regs, st)
    ensures (exists n: nat :: Run(sem, x.p, Running(e, regs, w), n) == Halted(value, w'))
       <==> (exists m: nat :: HRun(sem, x.Output(), HRunning(Start(x.bs, e), st, w), m) == HHalted(value, w'))
  {
    var vs, hs := Running(e, regs, w), HRunning(Start(x.bs, e), st, w);
    assert Related(x, live, vs, hs);
    if n: nat :| Run(sem, x.p, vs, n) == Halted(value, w') {
      var m := Simulates(x, live, sem, vs, hs, n);
    }
    if m: nat :| HRun(sem, x.Output(), hs, m) == HHalted(value, w') {
      var k := Simulates(x, live, sem, vs, hs, m);
      StaysHalted(sem, x.Output(), hs, m, k);
    }
  }
}
