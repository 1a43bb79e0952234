/** The allocated code on the machine that runs the instruction sequences of its arithmetic ops and
    branches. */
module SelectedCode {
  import opened JitOps
  import opened Hardware
  import opened Rmap
  import opened Layout
  import opened Rewriting
  import opened RegAlloc
  import opened Allocation
  import opened Arithmetic
  import opened Pipeline
  import opened Selection
  import opened StackFrame
  import opened FrameSlots
  import opened FrameCode
  import Llrb
  import LongImm

  // ---------- the ops of the code ----------

  /** Put in by the allocator. */
  predicate IsSupport(o: Op) {
    !o.code.ALU? && (IsMove(o) || !o.a1.TReg?)
  }

  ghost predicate Support(ops: seq<Op>) {
    forall e {:trigger ops[e]} | 0 <= e < |ops| :: IsSupport(ops[e])
  }

  ghost predicate Allocated(x: Plan) {
    x.Shaped() && x.Assigned() && x.Built() && PlainProgram(x.p)
  }

  lemma RestOps(x: Plan, i: nat, e: nat)
    requires Allocated(x) && i < |x.p| && e < |x.Rest(i)|
    ensures IsSupport(x.Rest(i)[e]) || (x.Rest(i)[e] == x.a[i].op && x.p[i].code.ALU?)
  {
    var op, t := x.a[i].op, x.Target(i);
    assert AssignedWell(x.p[i], x.EntryMap(i), x.a[i]) && WellFormedOp(x.p, x.p[i]) && Plain(x.p[i]);
    if x.Splits(i) {
      var mid := AdjustJump(JumpOp(op), t);
      assert Support(mid);
    } else if op.code.JMP? {
      assert Support(AdjustJump(op, t));
    }
  }

  /** An ALU op of the code is one of the list's, and nothing else writes a result. */
  lemma CodeOps(x: Plan, k: nat)
    requires Allocated(x) && k < |x.Output()|
    ensures IsSupport(x.Output()[k])
      || exists i: nat {:trigger x.a[i]} :: i < |x.p| && x.Output()[k] == x.a[i].op && x.p[i].code.ALU?
  {
    var i, e := Locate(x.bs, k);
    assert x.bs[i] == x.Block(i);
    var n := |x.a[i].moves|;
    if e < n {
      assert AssignedWell(x.p[i], x.EntryMap(i), x.a[i]);
      assert IsMove(x.a[i].moves[e]);
    } else {
      RestOps(x, i, e - n);
    }
  }

  /** The branch that op o of the code is or was made of by inverting it. */
  predicate ComesFrom(o: Op, op: Op) {
    IsBranch(op) && o.imm == op.imm && o.a1 == op.a1 && o.a2 == op.a2 && o.a3 == op.a3 && o.r2 == op.r2 && o.r3 == op.r3
  }

  lemma RestBranches(x: Plan, i: nat, e: nat)
    requires Allocated(x) && i < |x.p| && e < |x.Rest(i)| && IsBranch(x.Rest(i)[e])
    ensures ComesFrom(x.Rest(i)[e], x.a[i].op) && IsBranch(x.p[i])
  {
    var op, t := x.a[i].op, x.Target(i);
    assert AssignedWell(x.p[i], x.EntryMap(i), x.a[i]);
    if x.Splits(i) {
      var mid := AdjustJump(JumpOp(op), t);
      assert forall k | 0 <= k < |mid| :: !IsBranch(mid[k]);
    }
  }

  lemma NoBranchMoved(moves: seq<Op>, rest: seq<Op>, e: nat)
    requires AllMoves(moves) && e < |moves + rest| && IsBranch((moves + rest)[e])
    ensures |moves| <= e
  {
    assert e < |moves| ==> IsMove(moves[e]);
  }

  lemma CodeBranch(x: Plan, k: nat) returns (i: nat)
    requires Allocated(x) && k < |x.Output()| && IsBranch(x.Output()[k])
    ensures i < |x.p| && ComesFrom(x.Output()[k], x.a[i].op) && IsBranch(x.p[i])
  {
    var e;
    i, e := Locate(x.bs, k);
    assert x.bs[i] == x.Block(i);
    assert AssignedWell(x.p[i], x.EntryMap(i), x.a[i]);
    NoBranchMoved(x.a[i].moves, x.Rest(i), e);
    RestBranches(x, i, e - |x.a[i].moves|);
  }

  lemma CodeIsOrdinary(x: Plan)
    requires Allocated(x)
    ensures MapsOk(x.Output()) && TargetsOk(x.Output())
  {
    forall k | 0 <= k < |x.Output()|
      ensures x.Output()[k].code.ALU? ==> MapOk(x.Output()[k])
      ensures IsSupport(x.Output()[k]) || x.Output()[k].code.ALU?
    {
      CodeOps(x, k);
      if !IsSupport(x.Output()[k]) {
        var i: nat :| i < |x.p| && x.Output()[k] == x.a[i].op && x.p[i].code.ALU?;
        assert AssignedWell(x.p[i], x.EntryMap(i), x.a[i]);
      }
    }
  }

  /** What holds of every arithmetic op of the list once its long immediates are out holds of those of
      the code: the rewrites make none. */
  lemma PlanIsTame(p: seq<Op>, x: Plan, i: nat)
    requires LongImm.ImmProgram(p) && MadeFor(x, LongImm.CorrectedAll(p)) && i < |x.p|
    requires AllTame(p)
    ensures Tame(x.p[i])
  {
    var j, e := Locate(LongImm.Pieces(p), i);
    assert LongImm.ImmOp(p[j]) && Tame(p[j]);
    assert KeptOrMade(LongImm.CorrectedAll(p)[i], x.p[i]);
  }

  lemma CodeIsTame(p: seq<Op>, x: Plan)
    requires LongImm.ImmProgram(p) && MadeFor(x, LongImm.CorrectedAll(p))
    requires AllTame(p)
    ensures AllTame(x.Output())
  {
    forall k | 0 <= k < |x.Output()| ensures Tame(x.Output()[k]) {
      CodeOps(x, k);
      if !IsSupport(x.Output()[k]) {
        var i: nat :| i < |x.p| && x.Output()[k] == x.a[i].op && x.p[i].code.ALU?;
        assert AssignedWell(x.p[i], x.EntryMap(i), x.a[i]);
        PlanIsTame(p, x, i);
      }
    }
  }

  // ---------- which ops are run by their sequences ----------

  /** The registers of AMD64. */
  predicate HwIds(gp: seq<HwReg>) {
    forall j | 0 <= j < |gp| :: IsHw(gp[j].id)
  }

  /** Two registers and a register or an immediate, as the builder makes arithmetic ops; a register and
      a register or immediate for a MOV, two registers for a NEG. */
  predicate BuiltArith(op: Op) {
    op.code.ALU? && IsArith(op.code.op) ==>
      && op.a1.TReg? && (if op.code.op == MOV && op.imm then op.a2.Imm? else op.a2.Reg?)
      && (!IsUnary(op.code.op) ==> if op.imm then op.a3.Imm? else op.a3.Reg?)
  }

  /** A branch compares a register with a register or an immediate. */
  predicate BuiltBranch(op: Op) {
    IsBranch(op) ==> !op.a1.TReg? && op.a2.Reg? && if op.imm then op.a3.Imm? else op.a3.Reg?
  }

  ghost predicate AllBuilt(p: seq<Op>) {
    forall i {:trigger p[i]} | 0 <= i < |p| :: BuiltArith(p[i]) && BuiltBranch(p[i])
  }

  /** Every arithmetic op and every branch of the code is one that CStep runs by its instructions. */
  ghost predicate AllSelected(code: seq<Op>) {
    forall k {:trigger code[k]} | 0 <= k < |code| ::
      && (code[k].code.ALU? && code[k].code.op in {MOV, NEG, ADD, SUB, RSB, AND, OR, XOR, MUL, HMUL, DIV, MOD} ==>
            Selectable(code[k]))
      && (code[k].code.BRANCH? || code[k].code.TEST? ==> BranchSelectable(code[k]))
  }

  predicate ShortArith(op: Op) {
    && BuiltArith(op) && BuiltBranch(op)
    && (op.code.ALU? && IsArith(op.code.op) && !IsUnary(op.code.op) && op.imm ==> FitsImm32(op.a3.value))
    && (IsBranch(op) && op.imm ==> FitsImm32(op.a3.value) && 0 <= op.a3.value < WORD)
  }

  lemma PieceArith(op: Op, e: nat)
    requires LongImm.ImmOp(op) && BuiltArith(op) && BuiltBranch(op) && e < |LongImm.Corrected(op)|
    ensures ShortArith(LongImm.Corrected(op)[e])
  {
    LongImm.CorrectedFits(op);
  }

  lemma PlanArith(p: seq<Op>, x: Plan, i: nat)
    requires LongImm.ImmProgram(p) && MadeFor(x, LongImm.CorrectedAll(p)) && i < |x.p|
    requires AllBuilt(p)
    ensures ShortArith(x.p[i])
  {
    var j, e := Locate(LongImm.Pieces(p), i);
    assert LongImm.ImmOp(p[j]) && BuiltArith(p[j]) && BuiltBranch(p[j]);
    PieceArith(p[j], e);
    assert KeptOrMade(LongImm.CorrectedAll(p)[i], x.p[i]);
  }

  lemma ArgIsHw(gp: seq<HwReg>, t: RegMap, a: Arg, r: HReg)
    requires HwIds(gp) && GoodMap(t, gp) && ArgAssigned(M(t), a, r) && (a.Reg? || a.TReg?)
    ensures IsHw(r)
  {
  }

  lemma RegsAreHw(x: Plan, gp: seq<HwReg>, i: nat)
    requires Allocated(x) && HwIds(gp) && ValidRegisters(gp) && Allocatable(x.p) && x.MadeWith(gp) && i < |x.p|
    ensures SameButRegs(x.a[i].op, x.p[i])
    ensures var op := x.a[i].op;
      && (op.a1.TReg? ==> IsHw(op.r1)) && (op.a2.Reg? ==> IsHw(op.r2)) && (op.a3.Reg? ==> IsHw(op.r3))
  {
    assert AssignedWell(x.p[i], x.EntryMap(i), x.a[i]);
    PrevOk(x, gp, i + 1);
    var op, t := x.a[i].op, x.a[i].op.regmap;
    if op.a1.TReg? { ArgIsHw(gp, t, op.a1, op.r1); }
    if op.a2.Reg? { ArgIsHw(gp, t, op.a2, op.r2); }
    if op.a3.Reg? { ArgIsHw(gp, t, op.a3, op.r3); }
  }

  /** Long immediates are out and only the registers of AMD64 are handed out, so there are no others. */
  lemma ArithIsSelected(p: seq<Op>, x: Plan, gp: seq<HwReg>)
    requires LongImm.ImmProgram(p) && MadeFor(x, LongImm.CorrectedAll(p)) && HwIds(gp)
    requires ValidRegisters(gp) && Allocatable(x.p) && x.MadeWith(gp)
    requires AllBuilt(p)
    ensures AllSelected(x.Output())
  {
    var q := x.Output();
    forall k | 0 <= k < |q| && q[k].code.ALU? && IsArith(q[k].code.op) ensures Selectable(q[k]) {
      CodeOps(x, k);
      var i: nat :| i < |x.p| && q[k] == x.a[i].op && x.p[i].code.ALU?;
      PlanArith(p, x, i);
      RegsAreHw(x, gp, i);
    }
    forall k | 0 <= k < |q| && IsBranch(q[k]) ensures BranchSelectable(q[k]) {
      var i := CodeBranch(x, k);
      PlanArith(p, x, i);
      RegsAreHw(x, gp, i);
    }
  }

  // ---------- the whole ----------

  /** As RunsAlike, on the machine that runs the sequences. */
  ghost predicate SelectedAlike(sem: Sem, p: seq<Op>, code: seq<Op>, starts: seq<nat>, e: nat, regs: map<VReg, Word>,
                                st: Store, w: World, value: Word, w': World)
    requires e < |starts|
  {
    (exists n: nat :: Run(sem, p, Running(e, regs, w), n) == Halted(value, w'))
    <==> (exists m: nat :: CRun(sem, code, HRunning(starts[e], st, w), m) == HHalted(value, w'))
  }

  /** The ops mean what their names say, on words, and no sequence is reached that is wrong. */
  ghost predicate Proper(sem: Sem, code: seq<Op>, pc: nat, st: Store, w: World) {
    && Standard(sem) && Named(sem) && DeliversWords(sem) && WordsIn(st.hw) && WordsIn(st.slots)
    && StaysFine(sem, code, HRunning(pc, st, w))
  }

  lemma SelectedReturns(sem: Sem, p: seq<Op>, code: seq<Op>, starts: seq<nat>, e: nat, regs: map<VReg, Word>,
                        st: Store, w: World, value: Word, w': World)
    requires e < |starts| && MapsOk(code) && TargetsOk(code) && Proper(sem, code, starts[e], st, w)
    requires RunsAlike(Selected(sem), p, code, starts, e, regs, st, w, value, w')
    ensures SelectedAlike(sem, p, code, starts, e, regs, st, w, value, w')
  {
    var s, t := Running(e, regs, w), HRunning(starts[e], st, w);
    forall n: nat ensures Run(Selected(sem), p, s, n) == Run(sem, p, s, n) {
      SelectedVirtual(sem, p, s, n);
    }
    forall n: nat ensures CRun(sem, code, t, n) == HRun(Selected(sem), code, t, n) {
      SelectedRun(sem, code, t, n);
    }
  }

  /** Entered at the start or at any function, the list and the code with its arithmetic as
      instructions return the same. */
  ghost predicate SameSelectedRuns(p: seq<Op>, code: seq<Op>, starts: seq<nat>) {
    && |starts| == |p|
    && forall sem, e: nat, regs, st: Store, w, value, w'
         {:trigger SelectedAlike(sem, p, code, starts, e, regs, st, w, value, w')} ::
      Starts(p, e, regs, st) && Proper(sem, code, starts[e], st, w)
      ==> SelectedAlike(sem, p, code, starts, e, regs, st, w, value, w')
  }

  /** ... with the slots in the frame. */
  ghost predicate SameSelectedFrameRuns(p: seq<Op>, code: seq<Op>, starts: seq<nat>, f: Frame) {
    && |starts| == |p|
    && forall sem, e: nat, regs, st: Store, w, value, w'
         {:trigger SelectedAlike(sem, p, OnFrame(code, f), starts, e, regs, st, w, value, w')} ::
      FrameStarts(p, f, e, regs, st.slots) && Proper(sem, OnFrame(code, f), starts[e], st, w)
      ==> SelectedAlike(sem, p, OnFrame(code, f), starts, e, regs, st, w, value, w')
  }

  lemma OntoSequences(p: seq<Op>, code: seq<Op>, starts: seq<nat>)
    requires MapsOk(code) && TargetsOk(code) && SameRuns(p, code, starts)
    ensures SameSelectedRuns(p, code, starts)
  {
    forall sem, e: nat, regs, st: Store, w, value, w'
      | Starts(p, e, regs, st) && Proper(sem, code, starts[e], st, w)
      ensures SelectedAlike(sem, p, code, starts, e, regs, st, w, value, w')
    {
      SelectedKeeps(sem);
      assert RunsAlike(Selected(sem), p, code, starts, e, regs, st, w, value, w');
      SelectedReturns(sem, p, code, starts, e, regs, st, w, value, w');
    }
  }

  lemma FrameIsOrdinary(q: seq<Op>, f: Frame)
    requires MapsOk(q) && TargetsOk(q)
    ensures MapsOk(OnFrame(q, f)) && TargetsOk(OnFrame(q, f))
  {
    var r := OnFrame(q, f);
    forall i | 0 <= i < |r|
      ensures (r[i].code.ALU? ==> MapOk(r[i])) && (r[i].a1.TReg? && !IsMove(r[i]) ==> r[i].code.ALU?)
    {
      assert r[i] == FrameSlots.Placed(q[i], f);
    }
  }

  lemma FrameOntoSequences(p: seq<Op>, code: seq<Op>, starts: seq<nat>, f: Frame)
    requires MapsOk(code) && TargetsOk(code) && SameFrameRuns(p, code, starts, f)
    ensures SameSelectedFrameRuns(p, code, starts, f)
  {
    FrameIsOrdinary(code, f);
    forall sem, e: nat, regs, st: Store, w, value, w'
      | FrameStarts(p, f, e, regs, st.slots) && Proper(sem, OnFrame(code, f), starts[e], st, w)
      ensures SelectedAlike(sem, p, OnFrame(code, f), starts, e, regs, st, w, value, w')
    {
      SelectedKeeps(sem);
      assert RunsAlike(Selected(sem), p, OnFrame(code, f), starts, e, regs, st, w, value, w');
      SelectedReturns(sem, p, OnFrame(code, f), starts, e, regs, st, w, value, w');
    }
  }

  /** The list and the code return the same, with the arithmetic run as ops or as instructions, and with
      the slots apart or in every frame that the list fits. */
  ghost predicate SameEverywhere(p: seq<Op>, code: seq<Op>, starts: seq<nat>) {
    && SameRuns(p, code, starts) && SameSelectedRuns(p, code, starts)
    && forall f {:trigger Fits(p, f)} | Fits(p, f) ::
         SameFrameRuns(p, code, starts, f) && SameSelectedFrameRuns(p, code, starts, f)
  }

  lemma Everywhere(p: seq<Op>, code: seq<Op>, starts: seq<nat>, x: Plan)
    requires SameRuns(p, code, starts) && code == x.Output() && Allocated(x)
    requires forall regs {:trigger BuiltOn(p, regs)} | BuiltOn(p, regs) :: MovesOnly(code, regs)
    ensures SameEverywhere(p, code, starts)
  {
    CodeIsOrdinary(x);
    AllOntoFrame(p, code, starts);
    OntoSequences(p, code, starts);
    forall f | Fits(p, f) ensures SameSelectedFrameRuns(p, code, starts, f) {
      FrameOntoSequences(p, code, starts, f);
    }
  }
}
