/** The mask and overflow branches, which branch_adjustment leaves as they are: exactly when such a
    branch arrives right. */
module TestBranches {
  import opened JitOps
  import opened Hardware
  import opened Layout
  import opened Rmap
  import opened RegAlloc
  import opened Allocation
  import opened Arithmetic
  import opened Simulation
  import Llrb

  /** If the branch at i is taken from a state that its map describes, both machines go on alike. */
  ghost predicate ArrivesRight(x: Plan, live: seq<Liveness>, i: nat, sem: Sem, regs: map<VReg, Word>, st: Store,
      w: World)
    requires x.Shaped() && |live| == |x.p| && i < |x.p| && x.p[i].code.TEST?
  {
    && Holds(M(x.a[i].op.regmap), live[i].into, regs, st)
    && sem.test(x.p[i].code.kind, Value2(x.p[i], regs), Value(x.p[i].a3, regs))
    ==> Related(x, live, Step(sem, x.p, Running(i, regs, w)),
                HStep(sem, x.Output(), HRunning(Start(x.bs, i) + |x.a[i].moves|, st, w)))
  }

  /** The map at the branch and the map at its target agree on what is live there. */
  ghost predicate MapsAgree(x: Plan, live: seq<Liveness>, i: nat)
    requires x.Shaped() && |live| == |x.p| && i < |x.p|
  {
    var t := Goto(x.p, x.p[i]);
    t < |x.p| && Agree(M(x.a[i].op.regmap), M(x.Target(i).regmap), live[t].into)
  }

  lemma TargetFacts(x: Plan, live: seq<Liveness>, i: nat)
    requires Prepared(x, live) && i < |x.p| && x.p[i].code.TEST?
    ensures var t := Goto(x.p, x.p[i]);
      && t < |x.p| && x.EntryMap(t) == M(x.Target(i).regmap)
      && live[t].into <= live[i].into && Goto(x.Output(), x.a[i].op) == Start(x.bs, t)
    ensures !x.Splits(i) && SameButRegs(x.a[i].op, x.p[i]) && Injective(M(x.a[i].op.regmap))
  {
    var t := Goto(x.p, x.p[i]);
    assert AssignedWell(x.p[i], x.EntryMap(i), x.a[i]) && SolvesAt(x.p[i], live[i]);
    assert WellFormedOp(x.p, x.p[i]) && Plain(x.p[i]);
    FindsFirst(x.p, x.p[i].jmp.value);
    OldTarget(x, t, x.p[i].jmp.value);
    assert AssignedWell(x.p[t], x.EntryMap(t), x.a[t]) && Plain(x.p[t]);
    assert Follows(x.p, i, t) && Defs(x.p[i]) == {};
    assert live[i].out - Defs(x.p[i]) <= live[i].into;
  }

  /** The registers that the branch at i leaves on the two machines: an overflow branch has added to
      or subtracted from its operand, a mask branch has changed nothing. */
  function RegsLeft(x: Plan, i: nat, sem: Sem, regs: map<VReg, Word>): map<VReg, Word>
    requires i < |x.p|
  {
    Compared(sem, x.p[i], Operand(x.p[i]), Value2(x.p[i], regs), Value(x.p[i].a3, regs), regs)
  }

  function StoreLeft(x: Plan, i: nat, sem: Sem, regs: map<VReg, Word>, st: Store): Store
    requires x.Shaped() && i < |x.p|
  {
    st.(hw := Compared(sem, x.p[i], x.a[i].op.r2, Value2(x.p[i], regs), Value(x.p[i].a3, regs), st.hw))
  }

  lemma TestTaken(sem: Sem, q: seq<Op>, pc: nat, st: Store, w: World)
    requires pc < |q| && q[pc].code.TEST?
    requires var o := q[pc]; sem.test(o.code.kind, HValue(o.a2, o.r2, st.hw), HValue(o.a3, o.r3, st.hw))
    ensures var o := q[pc];
      var hw := Compared(sem, o, o.r2, HValue(o.a2, o.r2, st.hw), HValue(o.a3, o.r3, st.hw), st.hw);
      HStep(sem, q, HRunning(pc, st, w)) == HRunning(Goto(q, o), st.(hw := hw), w)
  {
  }

  lemma SameOperands(x: Plan, live: seq<Liveness>, i: nat, regs: map<VReg, Word>, st: Store)
    requires Prepared(x, live) && i < |x.p| && Holds(M(x.a[i].op.regmap), live[i].into, regs, st)
    ensures SameButRegs(x.a[i].op, x.p[i])
    ensures var op := x.a[i].op;
      HValue(op.a2, op.r2, st.hw) == Value2(x.p[i], regs) && HValue(op.a3, op.r3, st.hw) == Value(x.p[i].a3, regs)
  {
    assert AssignedWell(x.p[i], x.EntryMap(i), x.a[i]) && SolvesAt(x.p[i], live[i]);
    assert WellFormedOp(x.p, x.p[i]) && Plain(x.p[i]);
    SameValues(M(x.a[i].op.regmap), live[i].into, regs, st,
               x.p[i].(r1 := x.a[i].op.r1, r2 := x.a[i].op.r2, r3 := x.a[i].op.r3));
  }

  /** Both machines take the branch, and nothing is moved on the way. */
  lemma TakenStep(x: Plan, live: seq<Liveness>, i: nat, sem: Sem, regs: map<VReg, Word>, st: Store, w: World)
    requires Prepared(x, live) && i < |x.p| && x.p[i].code.TEST? && Holds(M(x.a[i].op.regmap), live[i].into, regs, st)
    requires sem.test(x.p[i].code.kind, Value2(x.p[i], regs), Value(x.p[i].a3, regs))
    ensures var t := Goto(x.p, x.p[i]);
      && t < |x.p| && Step(sem, x.p, Running(i, regs, w)) == Running(t, RegsLeft(x, i, sem, regs), w)
      && HStep(sem, x.Output(), HRunning(Start(x.bs, i) + |x.a[i].moves|, st, w))
         == HRunning(Start(x.bs, t), StoreLeft(x, i, sem, regs, st), w)
  {
    TargetFacts(x, live, i);
    PlainShape(x, i);
    SameOperands(x, live, i, regs, st);
    TestTaken(sem, x.Output(), Start(x.bs, i) + |x.a[i].moves|, st, w);
  }

  lemma LeftHolds(x: Plan, live: seq<Liveness>, i: nat, sem: Sem, regs: map<VReg, Word>, st: Store)
    requires Prepared(x, live) && i < |x.p| && Holds(M(x.a[i].op.regmap), live[i].into, regs, st)
    ensures Holds(M(x.a[i].op.regmap), live[i].into, RegsLeft(x, i, sem, regs), StoreLeft(x, i, sem, regs, st))
  {
    assert AssignedWell(x.p[i], x.EntryMap(i), x.a[i]);
    SumInPlace(sem, M(x.a[i].op.regmap), live[i].into, regs, st, x.p[i].(r2 := x.a[i].op.r2),
               Value2(x.p[i], regs), Value(x.p[i].a3, regs));
  }

  lemma AgreeingArrives(x: Plan, live: seq<Liveness>, i: nat, sem: Sem, regs: map<VReg, Word>, st: Store, w: World)
    requires Prepared(x, live) && i < |x.p| && x.p[i].code.TEST? && MapsAgree(x, live, i)
    ensures ArrivesRight(x, live, i, sem, regs, st, w)
  {
    if Holds(M(x.a[i].op.regmap), live[i].into, regs, st)
      && sem.test(x.p[i].code.kind, Value2(x.p[i], regs), Value(x.p[i].a3, regs)) {
      TargetFacts(x, live, i);
      TakenStep(x, live, i, sem, regs, st, w);
      LeftHolds(x, live, i, sem, regs, st);
    }
  }

  /** One in a register whose places differ, and zero everywhere else, tells the two maps apart. */
  lemma Telling(m: map<VReg, HReg>, n: map<VReg, HReg>, live: set<VReg>, more: set<VReg>)
    returns (regs: map<VReg, Word>, st: Store)
    requires Injective(m) && !Agree(m, n, live)
    ensures Holds(m, more, regs, st) && !Holds(n, live, regs, st)
  {
    var v :| v in live && !((v in m <==> v in n) && (v in m ==> m[v] == n[v]));
    regs := map[v := 1];
    st := if v in m then Store(map[m[v] := 1], map[]) else Store(map[], map[v := 1]);
  }

  /** Where the map says that a register is. */
  function At(m: map<VReg, HReg>, v: VReg, st: Store): Word {
    if v in m then Read(st.hw, m[v]) else Read(st.slots, v)
  }

  /** Putting one value in one register's place. */
  function PutAt(m: map<VReg, HReg>, v: VReg, c: Word): Store {
    if v in m then Store(map[m[v] := c], map[]) else Store(map[], map[v := c])
  }

  lemma PutHolds(m: map<VReg, HReg>, v: VReg, c: Word, more: set<VReg>)
    requires Injective(m)
    ensures Holds(m, more, map[v := c], PutAt(m, v, c))
  {
  }

  /** v is told apart once the operand a, which is in its place, has become s. */
  predicate ToldApart(m: map<VReg, HReg>, n: map<VReg, HReg>, v: VReg, a: VReg, s: Word, regs: map<VReg, Word>,
      st: Store)
    requires a in m
  {
    Read(regs[a := s], v) != At(n, v, st.(hw := st.hw[m[a] := s]))
  }

  ghost predicate Differs(m: map<VReg, HReg>, n: map<VReg, HReg>, v: VReg) {
    !((v in m <==> v in n) && (v in m ==> m[v] == n[v]))
  }

  function Other(s: Word): Word {
    if s == 0 then 1 else 0
  }

  /** The differing register is the operand itself. */
  lemma TellingOperand(m: map<VReg, HReg>, n: map<VReg, HReg>, k: TestKind, v: VReg, b: Arg, more: set<VReg>)
    returns (regs: map<VReg, Word>, st: Store)
    requires Injective(m) && v in m && Differs(m, n, v) && (k.BOADD? || k.BOSUB?)
    ensures Holds(m, more, regs, st)
    ensures ToldApart(m, n, v, v, Sum(k, Read(regs, v), Value(b, regs)), regs, st)
  {
    var c := Other(Sum(k, 0, Value(b, map[])));
    if v !in n {
      regs, st := map[], Store(map[], map[v := c]);
    } else if b.Reg? && b.reg in m && m[b.reg] == n[v] {
      regs, st := map[v := 1], PutAt(m, v, 1);
      PutHolds(m, v, 1, more);
    } else if u :| u in m && m[u] == n[v] {
      regs, st := map[u := c], PutAt(m, u, c);
      PutHolds(m, u, c, more);
    } else {
      regs, st := map[], Store(map[n[v] := c], map[]);
    }
  }

  /** The differing register is another one. */
  lemma TellingSum(m: map<VReg, HReg>, n: map<VReg, HReg>, k: TestKind, a: VReg, b: Arg, v: VReg, more: set<VReg>)
    returns (regs: map<VReg, Word>, st: Store)
    requires Injective(m) && a in m && v != a && Differs(m, n, v) && (k.BOADD? || k.BOSUB?)
    ensures Holds(m, more, regs, st)
    ensures ToldApart(m, n, v, a, Sum(k, Read(regs, a), Value(b, regs)), regs, st)
  {
    if !(v in n && n[v] == m[a]) {
      regs, st := map[v := 1], PutAt(m, v, 1);
      PutHolds(m, v, 1, more);
    } else if b == Reg(v) {
      regs, st := map[a := 1], PutAt(m, a, 1);
      PutHolds(m, a, 1, more);
    } else {
      var c := Other(Sum(k, 0, Value(b, map[])));
      regs, st := map[v := c], PutAt(m, v, c);
      PutHolds(m, v, c, more);
    }
  }

  /** Overflow branches add and subtract; all else may mean anything. */
  ghost predicate Adds(sem: Sem) {
    forall k, x, y {:trigger sem.sum(k, x, y)} :: sem.sum(k, x, y) == Sum(k, x, y)
  }

  function AlwaysTaken(): Sem {
    Sem((op: AluOp, u: bool, size: nat, extra: Word, a: Word, b: Word, w: World) => 0,
        (op: AluOp, u: bool, size: nat, a: Word, b: Word, c: Word, w: World) => w,
        (u: bool, a: Word, b: Word) => false, (k: TestKind, a: Word, b: Word) => true,
        (k: TestKind, a: Word, b: Word) => Sum(k, a, b), (r: VReg) => 0,
        (op: Op, hw: map<HReg, Word>) => hw)
  }

  lemma OperandMapped(x: Plan, i: nat)
    requires x.Shaped() && x.Assigned() && i < |x.p| && x.p[i].a2.Reg?
    ensures var m := M(x.a[i].op.regmap); x.p[i].a2.reg in m && m[x.p[i].a2.reg] == x.a[i].op.r2
  {
    assert AssignedWell(x.p[i], x.EntryMap(i), x.a[i]);
  }

  /** A state that the branch's map describes and that the target's map does not describe once the
      branch has been taken. */
  lemma TellingState(x: Plan, live: seq<Liveness>, i: nat, sem: Sem) returns (regs: map<VReg, Word>, st: Store)
    requires Prepared(x, live) && i < |x.p| && x.p[i].code.TEST? && !MapsAgree(x, live, i) && Adds(sem)
    requires Goto(x.p, x.p[i]) < |x.p| && Injective(M(x.a[i].op.regmap))
    ensures Holds(M(x.a[i].op.regmap), live[i].into, regs, st)
    ensures !Holds(M(x.Target(i).regmap), live[Goto(x.p, x.p[i])].into, RegsLeft(x, i, sem, regs),
      StoreLeft(x, i, sem, regs, st))
  {
    var m, n, t := M(x.a[i].op.regmap), M(x.Target(i).regmap), Goto(x.p, x.p[i]);
    if Overwrites(x.p[i]) {
      var a, b, k := x.p[i].a2.reg, x.p[i].a3, x.p[i].code.kind;
      OperandMapped(x, i);
      var v :| v in live[t].into && Differs(m, n, v);
      if v == a {
        regs, st := TellingOperand(m, n, k, v, b, live[i].into);
      } else {
        regs, st := TellingSum(m, n, k, a, b, v, live[i].into);
      }
    } else {
      regs, st := Telling(m, n, live[t].into, live[i].into);
    }
  }

  /** Where the maps differ on a live register, some state goes wrong. */
  lemma DifferingFails(x: Plan, live: seq<Liveness>, i: nat) returns (sem: Sem, regs: map<VReg, Word>, st: Store)
    requires Prepared(x, live) && i < |x.p| && x.p[i].code.TEST? && !MapsAgree(x, live, i)
    ensures Adds(sem) && !ArrivesRight(x, live, i, sem, regs, st, World(false, map[]))
  {
    TargetFacts(x, live, i);
    sem := AlwaysTaken();
    regs, st := TellingState(x, live, i, sem);
    TakenStep(x, live, i, sem, regs, st, World(false, map[]));
  }

  /** A mask or overflow branch arrives right from every state its map describes exactly when the
      two maps agree on the registers live at the target. */
  lemma TestExactly(x: Plan, live: seq<Liveness>, i: nat)
    requires Prepared(x, live) && i < |x.p| && x.p[i].code.TEST?
    ensures MapsAgree(x, live, i) <==>
      forall sem, regs, st, w {:trigger ArrivesRight(x, live, i, sem, regs, st, w)} ::
        Adds(sem) ==> ArrivesRight(x, live, i, sem, regs, st, w)
  {
    if MapsAgree(x, live, i) {
      forall sem, regs, st, w ensures ArrivesRight(x, live, i, sem, regs, st, w) {
        AgreeingArrives(x, live, i, sem, regs, st, w);
      }
    } else {
      var sem, regs, st := DifferingFails(x, live, i);
      assert !ArrivesRight(x, live, i, sem, regs, st, World(false, map[]));
    }
  }

  // ---------- a program where it fails ----------

  const R: VReg := MkReg(false, RTYPE_REG, 0)

  /** A loop whose only op is a branch on a register. */
  function Waiting(): seq<Op> {
    [ NewOp(LABEL(0), false, No, No, No, None).(liveIn := {R}, liveOut := {R}),
      NewOp(TEST(BMS), true, No, Reg(R), Imm(1), Some(0)).(liveIn := {R}, liveOut := {R},
        hints := map[R := Hint(0, 0, 0)]) ]
  }

  lemma WaitingFits()
    ensures Allocatable(Waiting()) && Solves(Waiting(), [Liveness({R}, {R}), Liveness({R}, {R})])
  {
    var p, live := Waiting(), [Liveness({R}, {R}), Liveness({R}, {R})];
    assert Find(p, 0) == 0;
    forall i | 0 <= i < 2 ensures WellFormedOp(p, p[i]) && Plain(p[i]) && HintsOk(p[i]) && SolvesAt(p[i], live[i]) {}
    assert EntersProlog(p, 1);
  }

  /** The list as assign_regs leaves it, with any registers. */
  ghost function WaitingPlan(gp: seq<HwReg>): (x: Plan)
    ensures x.Shaped() && x.p == Waiting() && x.Built()
  {
    var p := Waiting();
    var a0 := AssignRegs(gp, p[0], Llrb.Leaf);
    var x := Plan(p, [a0, AssignRegs(gp, p[1], a0.op.regmap)], [1, 1], [[], []]);
    x.(bs := [x.Block(0), x.Block(1)])
  }

  lemma WaitingMade(gp: seq<HwReg>)
    requires ValidRegisters(gp)
    ensures WaitingPlan(gp).MadeWith(gp) && Prepared(WaitingPlan(gp), [Liveness({R}, {R}), Liveness({R}, {R})])
  {
    WaitingFits();
    AssignedOk(WaitingPlan(gp), gp);
  }

  /** Its branch arrives wrong: the loop's label has no register mapped, the branch has its own. */
  lemma WaitingFails(gp: seq<HwReg>)
    requires ValidRegisters(gp)
    ensures WaitingPlan(gp).MadeWith(gp) && Prepared(WaitingPlan(gp), [Liveness({R}, {R}), Liveness({R}, {R})])
    ensures !MapsAgree(WaitingPlan(gp), [Liveness({R}, {R}), Liveness({R}, {R})], 1)
  {
    var x := WaitingPlan(gp);
    WaitingMade(gp);
    assert AssignedWell(x.p[0], x.EntryMap(0), x.a[0]) && AssignedWell(x.p[1], x.EntryMap(1), x.a[1]);
    assert Goto(x.p, x.p[1]) == 0;
  }
}
