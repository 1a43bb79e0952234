/** Which registers UREG and LREG ops move: only mentioned ones, and never R_IMM. */
module MovedRegisters {
  import opened JitOps
  import opened Hardware
  import opened Rmap
  import opened Layout
  import opened RegAlloc
  import opened Allocation
  import opened ImmRegister
  import FrameSlots
  import Llrb

  ghost predicate MoveIn(op: Op, regs: set<VReg>) {
    IsMove(op) ==> op.code.vreg in regs && op.code.vreg != R_IMM
  }

  /** The moves are of registers of the set other than R_IMM. */
  ghost predicate MovesIn(ops: seq<Op>, regs: set<VReg>) {
    forall e {:trigger ops[e]} | 0 <= e < |ops| :: MoveIn(ops[e], regs)
  }

  lemma MovesInConcat(a: seq<Op>, b: seq<Op>, regs: set<VReg>)
    requires MovesIn(a, regs) && MovesIn(b, regs)
    ensures MovesIn(a + b, regs)
  {
  }

  // ---------- one op ----------

  /** R_IMM, if it is live, is an argument of the op, unless it has none. */
  ghost predicate ImmArgs(op: Op) {
    R_IMM in op.liveIn ==> UsesImm(op) || Mentions(op) == {}
  }

  /** While the op's arguments are associated: the map has registers of the set, R_IMM among them if it
      is live. */
  ghost predicate Holding(op: Op, st: Alloc, regs: set<VReg>) {
    M(st.rm).Keys <= regs && MovesIn(st.moves, regs) && (R_IMM in op.liveIn ==> R_IMM in M(st.rm))
  }

  lemma FreeHolds(gp: seq<HwReg>, op: Op, st: Alloc, v: VReg, regs: set<VReg>)
    requires ValidRegisters(gp) && HintsOk(op) && v in Mentions(op) && ImmArgs(op)
    requires GoodMap(st.rm, gp) && AllMoves(st.moves) && v !in M(st.rm) && Holding(op, st, regs)
    ensures Holding(op, MakeFreeReg(gp, op, st, v).0, regs)
  {
    MakeFreeRegOk(gp, op, st, v);
    VictimExists(op, st.rm, v, gp);
    var k := BestOf(op, st.rm, v, gp, false, |gp|).0;
    IsAssociatedFinds(st.rm, gp[k].id);
    match IsAssociated(st.rm, gp[k].id)
    case None =>
    case Some(x) =>
      Llrb.DeleteCorrect(st.rm, x);
      assert x !in Mentions(op);
  }

  lemma AssociateHolds(gp: seq<HwReg>, op: Op, st: Alloc, v: VReg, regs: set<VReg>)
    requires ValidRegisters(gp) && HintsOk(op) && v in Mentions(op) && ImmArgs(op) && Mentions(op) <= regs
    requires GoodMap(st.rm, gp) && AllMoves(st.moves) && Holding(op, st, regs)
    ensures Holding(op, Associate(gp, op, st, v).0, regs)
  {
    if v !in M(st.rm) {
      var (b, h) := MakeFreeReg(gp, op, st, v);
      MakeFreeRegOk(gp, op, st, v);
      FreeHolds(gp, op, st, v, regs);
      Llrb.InsertCorrect(b.rm, v, h);
    }
  }

  lemma ArgHolds(gp: seq<HwReg>, op: Op, st: Alloc, a: Arg, regs: set<VReg>)
    requires ValidRegisters(gp) && HintsOk(op) && a in {op.a1, op.a2, op.a3} && ImmArgs(op) && Mentions(op) <= regs
    requires GoodMap(st.rm, gp) && AllMoves(st.moves) && Holding(op, st, regs)
    ensures var c := AssignArg(gp, op, st, a).0; Holding(op, c, regs) && GoodMap(c.rm, gp) && AllMoves(c.moves)
  {
    AssignArgOk(gp, op, st, a);
    if a.Reg? || a.TReg? { AssociateHolds(gp, op, st, a.reg, regs); }
  }

  lemma OpHolds(gp: seq<HwReg>, op: Op, prev: RegMap, regs: set<VReg>)
    requires ValidRegisters(gp) && HintsOk(op) && GoodMap(prev, gp) && ImmArgs(op) && Mentions(op) <= regs
    requires M(prev).Keys <= regs && (R_IMM in op.liveIn ==> R_IMM in M(InitialMap(op, prev)))
    ensures var r := AssignRegs(gp, op, prev); MovesIn(r.moves, regs) && M(r.op.regmap).Keys <= regs
  {
    Llrb.CloneCorrect(prev);
    var s0 := Alloc(InitialMap(op, prev), []);
    var s1 := AssignArg(gp, op, s0, op.a1).0;
    var s2 := AssignArg(gp, op, s1, op.a2).0;
    ArgHolds(gp, op, s0, op.a1, regs);
    ArgHolds(gp, op, s1, op.a2, regs);
    ArgHolds(gp, op, s2, op.a3, regs);
  }

  // ---------- the list ----------

  /** R_IMM is mapped after the op that loads it and stays mapped across ops without arguments. */
  lemma ImmStays(op: Op, m: map<VReg, HReg>, r: Assigned)
    requires AssignedWell(op, m, r) && (IsLoad(op) || (Mentions(op) == {} && R_IMM in m))
    ensures R_IMM in M(r.op.regmap)
  {
  }

  /** R_IMM is mapped wherever it is live. */
  lemma {:induction false} ImmMapped(x: Plan, i: nat)
    requires x.Shaped() && x.Assigned() && ImmRegister.Kept(x.p) && i < |x.p| && R_IMM in x.p[i].liveIn
    ensures R_IMM in x.EntryMap(i)
  {
    assert KeptAt(x.p, i);
    var k := i - 1;
    if !IsLoad(x.p[k]) { ImmMapped(x, k); }
    assert AssignedWell(x.p[k], x.EntryMap(k), x.a[k]);
    ImmStays(x.p[k], x.EntryMap(k), x.a[k]);
  }

  ghost predicate InAt(x: Plan, regs: set<VReg>, i: nat)
    requires x.Shaped() && i < |x.p|
  {
    MovesIn(x.a[i].moves, regs) && M(x.a[i].op.regmap).Keys <= regs
  }

  lemma AssignedIn(x: Plan, gp: seq<HwReg>, regs: set<VReg>, i: nat)
    requires x.Shaped() && x.Assigned() && ValidRegisters(gp) && Allocatable(x.p) && x.MadeWith(gp)
    requires ImmRegister.Kept(x.p) && Only(x.p, regs)
    requires i < |x.p| && M(x.Prev(i)).Keys <= regs
    ensures InAt(x, regs, i)
  {
    PrevOk(x, gp, i);
    assert KeptAt(x.p, i) && Mentions(x.p[i]) <= regs && HintsOk(x.p[i]);
    EntryIsInitial(x, i);
    if R_IMM in x.p[i].liveIn { ImmMapped(x, i); }
    OpHolds(gp, x.p[i], x.Prev(i), regs);
  }

  lemma PrevIn(x: Plan, regs: set<VReg>, i: nat)
    requires x.Shaped() && i <= |x.p| && (i > 0 ==> InAt(x, regs, i - 1))
    ensures M(x.Prev(i)).Keys <= regs
  {
  }

  lemma AllIn(x: Plan, gp: seq<HwReg>, regs: set<VReg>)
    requires x.Shaped() && x.Assigned() && ValidRegisters(gp) && Allocatable(x.p) && x.MadeWith(gp)
    requires ImmRegister.Kept(x.p) && Only(x.p, regs)
    ensures forall i: nat {:trigger InAt(x, regs, i)} | i < |x.p| :: InAt(x, regs, i)
  {
    for i := 0 to |x.p|
      invariant forall k: nat {:trigger InAt(x, regs, k)} | k < i :: InAt(x, regs, k)
    {
      PrevIn(x, regs, i);
      AssignedIn(x, gp, regs, i);
    }
  }

  /** What the moves are of is settled; what is left is where they stand. */
  ghost predicate Good(x: Plan, regs: set<VReg>) {
    && x.Shaped() && x.Assigned() && x.Built() && WellFormed(x.p) && ImmRegister.Kept(x.p)
    && forall i: nat {:trigger InAt(x, regs, i)} | i < |x.p| :: InAt(x, regs, i)
  }

  lemma {:induction false} SyncIn(current: RegMap, target: RegMap, mode: Mode, live: set<VReg>, regs: set<VReg>)
    requires Llrb.Ordered(current) && M(current).Keys <= regs && R_IMM !in live
    ensures MovesIn(Rmap.Sync(current, target, mode, live), regs)
  {
    if current.Node? {
      JoinEntries(current);
      SyncIn(current.left, target, mode, live, regs);
      SyncIn(current.right, target, mode, live, regs);
    }
  }

  lemma AdjustedIn(op: Op, target: Op, regs: set<VReg>)
    requires Llrb.Ordered(op.regmap) && Llrb.Ordered(target.regmap)
    requires M(op.regmap).Keys <= regs && M(target.regmap).Keys <= regs
    requires R_IMM !in target.liveIn && R_IMM !in op.liveOut && op.code.JMP?
    ensures MovesIn(AdjustJump(op, target), regs)
  {
    SyncIn(op.regmap, target.regmap, UNLOAD, target.liveIn, regs);
    SyncIn(target.regmap, op.regmap, LOAD, op.liveOut, regs);
  }

  /** R_IMM is live at no jump and at no jump's target. */
  lemma TargetIn(x: Plan, regs: set<VReg>, i: nat)
    requires Good(x, regs) && i < |x.p| && x.p[i].jmp.Some?
    ensures M(x.Target(i).regmap).Keys <= regs && Llrb.Ordered(x.Target(i).regmap)
    ensures R_IMM !in x.Target(i).liveIn && R_IMM !in x.p[i].liveOut
  {
    var t := Goto(x.p, x.p[i]);
    assert WellFormedOp(x.p, x.p[i]);
    FindsFirst(x.p, x.p[i].jmp.value);
    assert KeptAt(x.p, i) && KeptAt(x.p, t) && InAt(x, regs, t);
    assert AssignedWell(x.p[t], x.EntryMap(t), x.a[t]);
  }

  lemma RestIn(x: Plan, regs: set<VReg>, i: nat)
    requires Good(x, regs) && i < |x.p|
    ensures MovesIn(x.Rest(i), regs)
  {
    var o := x.a[i].op;
    assert AssignedWell(x.p[i], x.EntryMap(i), x.a[i]) && InAt(x, regs, i);
    assert WellFormedOp(x.p, x.p[i]);
    if o.code.JMP? || x.Splits(i) { TargetIn(x, regs, i); }
    if x.Splits(i) {
      Llrb.CloneCorrect(o.regmap);
      AdjustedIn(JumpOp(o), x.Target(i), regs);
    } else if o.code.JMP? {
      AdjustedIn(o, x.Target(i), regs);
    }
  }

  /** The allocated code moves only registers that the list mentions, and never R_IMM. */
  lemma MovedIn(x: Plan, regs: set<VReg>, v: VReg)
    requires Good(x, regs) && FrameSlots.Moved(x.Output(), v)
    ensures v in regs && v != R_IMM
  {
    var q := x.Output();
    var k: nat :| k < |q| && IsMove(q[k]) && q[k].code.vreg == v;
    var i, e := Locate(x.bs, k);
    assert x.bs[i] == x.Block(i) && InAt(x, regs, i);
    RestIn(x, regs, i);
    MovesInConcat(x.a[i].moves, x.Rest(i), regs);
    assert MoveIn(x.bs[i][e], regs);
  }
}
