/** The register allocator of reg-allocator.h on values: the map and the moves of each op,
    the split branches, the repaired jumps, and the list they add up to. */
module RegAlloc {
  import opened JitOps
  import opened Hardware
  import opened Rmap
  import opened Layout
  import Llrb

  // ---------- one op: associating its arguments ----------

  /** The op's map so far and the ops inserted before it so far. */
  datatype Alloc = Alloc(rm: RegMap, moves: seq<Op>)

  ghost predicate InRange(m: map<VReg, HReg>, gp: seq<HwReg>) {
    forall v <- m :: exists j :: 0 <= j < |gp| && gp[j].id == m[v]
  }

  /** A partial injection into the registers of the allocator. */
  ghost predicate GoodMap(t: RegMap, gp: seq<HwReg>) {
    Llrb.Valid(t) && Injective(M(t)) && InRange(M(t), gp)
  }

  function MakeFreeReg(gp: seq<HwReg>, op: Op, st: Alloc, v: VReg): (r: (Alloc, HReg))
    requires Llrb.Valid(st.rm)
    ensures Llrb.Valid(r.0.rm)
  {
    var k := BestOf(op, st.rm, v, gp, false, |gp|).0;
    if k < 0 then (st, -1)
    else
      var h := gp[k].id;
      match IsAssociated(st.rm, h)
      case None => (st, h)
      case Some(x) =>
        Llrb.DeleteCorrect(st.rm, x);
        (Alloc(Llrb.Delete(st.rm, x).0, st.moves + if x in op.liveIn then [MoveOp(UNLOAD, h, x)] else []), h)
  }

  function Associate(gp: seq<HwReg>, op: Op, st: Alloc, v: VReg): (r: (Alloc, HReg))
    requires Llrb.Valid(st.rm)
    ensures Llrb.Valid(r.0.rm)
  {
    match Get(st.rm, v)
    case Some(h) => (st, h)
    case None =>
      var (st', h) := MakeFreeReg(gp, op, st, v);
      Llrb.InsertCorrect(st'.rm, v, h);
      (Alloc(Llrb.Insert(st'.rm, v, h), st'.moves + if v in op.liveIn then [MoveOp(LOAD, h, v)] else []), h)
  }

  function AssignArg(gp: seq<HwReg>, op: Op, st: Alloc, a: Arg): (r: (Alloc, HReg))
    requires Llrb.Valid(st.rm)
    ensures Llrb.Valid(r.0.rm)
  {
    if a.Reg? || a.TReg? then Associate(gp, op, st, a.reg) else (st, -1)
  }

  datatype Assigned = Assigned(moves: seq<Op>, op: Op)

  /** The map an op starts from: nothing at a PROLOG, else a copy of its predecessor's. */
  function InitialMap(op: Op, prev: RegMap): RegMap {
    if op.code.PROLOG? then Llrb.Leaf else Llrb.Clone(prev)
  }

  function AssignRegs(gp: seq<HwReg>, op: Op, prev: RegMap): (r: Assigned)
    requires Llrb.Valid(prev)
    ensures Llrb.Valid(r.op.regmap)
  {
    Llrb.CloneCorrect(prev);
    var (s1, h1) := AssignArg(gp, op, Alloc(InitialMap(op, prev), []), op.a1);
    var (s2, h2) := AssignArg(gp, op, s1, op.a2);
    var (s3, h3) := AssignArg(gp, op, s2, op.a3);
    Assigned(s3.moves, op.(regmap := s3.rm, r1 := h1, r2 := h2, r3 := h3))
  }

  /** Every live value is where the map says once the moves so far have run. */
  ghost predicate Placed(a: Alloc, live: set<VReg>, regs: map<VReg, Word>, st: Store) {
    AllMoves(a.moves) && Holds(M(a.rm), live, regs, Exec(a.moves, st))
  }

  /** What one association keeps: the map is a partial injection, and the arguments of the op
      stay in the registers they have. */
  ghost predicate Progress(gp: seq<HwReg>, op: Op, a: Alloc, b: Alloc) {
    && GoodMap(b.rm, gp) && AllMoves(b.moves)
    && (forall x <- Mentions(op) :: x in M(a.rm) ==> x in M(b.rm) && M(b.rm)[x] == M(a.rm)[x])
  }

  lemma ExecSnoc(moves: seq<Op>, op: Op, st: Store)
    requires AllMoves(moves) && IsMove(op)
    ensures AllMoves(moves + [op]) && Exec(moves + [op], st) == Move(op, Exec(moves, st))
  {
    assert [op][1..] == [];
    ExecConcat(moves, [op], st);
  }

  /** Evicting a register that is no argument of the op. */
  lemma MakeFreeRegOk(gp: seq<HwReg>, op: Op, st: Alloc, v: VReg)
    requires ValidRegisters(gp) && HintsOk(op) && v in Mentions(op)
    requires GoodMap(st.rm, gp) && AllMoves(st.moves) && v !in M(st.rm)
    ensures var (b, h) := MakeFreeReg(gp, op, st, v);
      && Progress(gp, op, st, b) && v !in M(b.rm)
      && (exists j :: 0 <= j < |gp| && gp[j].id == h) && (forall x <- M(b.rm) :: M(b.rm)[x] != h)
      && (forall live, regs, s | live <= op.liveIn && Placed(st, live, regs, s) :: Placed(b, live, regs, s))
  {
    VictimExists(op, st.rm, v, gp);
    var k := BestOf(op, st.rm, v, gp, false, |gp|).0;
    var h := gp[k].id;
    IsAssociatedFinds(st.rm, h);
    var b := MakeFreeReg(gp, op, st, v).0;
    match IsAssociated(st.rm, h)
    case None =>
    case Some(x) =>
      Llrb.DeleteCorrect(st.rm, x);
      forall live, regs, s | live <= op.liveIn && Placed(st, live, regs, s)
        ensures Placed(b, live, regs, s)
      {
        if x in op.liveIn { ExecSnoc(st.moves, MoveOp(UNLOAD, h, x), s); } else { assert b.moves == st.moves; }
      }
  }

  /** After associating an argument it is mapped, to a register of its own. */
  lemma AssociateOk(gp: seq<HwReg>, op: Op, st: Alloc, v: VReg)
    requires ValidRegisters(gp) && HintsOk(op) && v in Mentions(op)
    requires GoodMap(st.rm, gp) && AllMoves(st.moves)
    ensures var (c, h) := Associate(gp, op, st, v);
      && Progress(gp, op, st, c) && v in M(c.rm) && M(c.rm)[v] == h
      && (forall live, regs, s | live <= op.liveIn && Placed(st, live, regs, s) :: Placed(c, live, regs, s))
  {
    if v !in M(st.rm) {
      var (b, h) := MakeFreeReg(gp, op, st, v);
      MakeFreeRegOk(gp, op, st, v);
      var c := Associate(gp, op, st, v).0;
      Llrb.InsertCorrect(b.rm, v, h);
      forall live, regs, s | live <= op.liveIn && Placed(st, live, regs, s)
        ensures Placed(c, live, regs, s)
      {
        assert Placed(b, live, regs, s);
        if v in op.liveIn { ExecSnoc(b.moves, MoveOp(LOAD, h, v), s); } else { assert c.moves == b.moves; }
      }
    }
  }

  ghost predicate ArgAssigned(m: map<VReg, HReg>, a: Arg, h: HReg) {
    a.Reg? || a.TReg? ==> a.reg in m && m[a.reg] == h
  }

  lemma AssignArgOk(gp: seq<HwReg>, op: Op, st: Alloc, a: Arg)
    requires ValidRegisters(gp) && HintsOk(op) && a in {op.a1, op.a2, op.a3}
    requires GoodMap(st.rm, gp) && AllMoves(st.moves)
    ensures var (c, h) := AssignArg(gp, op, st, a);
      && Progress(gp, op, st, c) && ArgAssigned(M(c.rm), a, h)
      && (forall live, regs, s | live <= op.liveIn && Placed(st, live, regs, s) :: Placed(c, live, regs, s))
  {
    if a.Reg? || a.TReg? { AssociateOk(gp, op, st, a.reg); }
  }

  ghost predicate SameButRegs(a: Op, b: Op) {
    a == b.(regmap := a.regmap, r1 := a.r1, r2 := a.r2, r3 := a.r3)
  }

  /** What assign_regs owes the op it was called on, entered with map m: the op's map is a
      partial injection, and each register argument's r_arg is its hardware register, ... */
  ghost predicate AssignedWell(op: Op, m: map<VReg, HReg>, r: Assigned) {
    && Llrb.Ordered(r.op.regmap) && Injective(M(r.op.regmap)) && AllMoves(r.moves) && SameButRegs(r.op, op)
    && ArgAssigned(M(r.op.regmap), op.a1, r.op.r1)
    && ArgAssigned(M(r.op.regmap), op.a2, r.op.r2)
    && ArgAssigned(M(r.op.regmap), op.a3, r.op.r3)
    && (Mentions(op) == {} ==> r.moves == [] && M(r.op.regmap) == m)
  }

  /** ... and the inserted moves put every live value where the op's map says. */
  ghost predicate CarriedOver(op: Op, m: map<VReg, HReg>, r: Assigned) {
    && AllMoves(r.moves)
    && forall live, regs, st | live <= op.liveIn && Holds(m, live, regs, st) ::
         Holds(M(r.op.regmap), live, regs, Exec(r.moves, st))
  }

  lemma AssignRegsOk(gp: seq<HwReg>, op: Op, prev: RegMap)
    requires ValidRegisters(gp) && HintsOk(op) && GoodMap(prev, gp)
    ensures AssignedWell(op, M(InitialMap(op, prev)), AssignRegs(gp, op, prev))
    ensures CarriedOver(op, M(InitialMap(op, prev)), AssignRegs(gp, op, prev))
    ensures GoodMap(AssignRegs(gp, op, prev).op.regmap, gp)
  {
    Llrb.CloneCorrect(prev);
    var s0 := Alloc(InitialMap(op, prev), []);
    var s1 := AssignArg(gp, op, s0, op.a1).0;
    var s2 := AssignArg(gp, op, s1, op.a2).0;
    var s3 := AssignArg(gp, op, s2, op.a3).0;
    AssignArgOk(gp, op, s0, op.a1);
    AssignArgOk(gp, op, s1, op.a2);
    AssignArgOk(gp, op, s2, op.a3);
    forall live, regs, st | live <= op.liveIn && Holds(M(InitialMap(op, prev)), live, regs, st)
      ensures Holds(M(s3.rm), live, regs, Exec(s3.moves, st))
    {
      assert Placed(s0, live, regs, st);
      assert Placed(s1, live, regs, st);
      assert Placed(s2, live, regs, st);
      assert Placed(s3, live, regs, st);
    }
  }

  // ---------- no move too many ----------

  ghost predicate Loads(moves: seq<Op>, v: VReg) {
    exists e :: 0 <= e < |moves| && moves[e].code.LREG? && moves[e].code.vreg == v
  }

  ghost predicate Spills(moves: seq<Op>, v: VReg) {
    exists e :: 0 <= e < |moves| && moves[e].code.UREG? && moves[e].code.vreg == v
  }

  /** Since map m: loaded is what is live before the op and new in the map, spilled is what is live before
      the op and no longer in the map. */
  ghost predicate FitsAt(op: Op, m: map<VReg, HReg>, a: Alloc, v: VReg) {
    && (Loads(a.moves, v) <==> v in op.liveIn && v in M(a.rm) && v !in m)
    && (Spills(a.moves, v) <==> v in op.liveIn && v in m && v !in M(a.rm))
    && (if v in Mentions(op) then v in m ==> v in M(a.rm) else v in M(a.rm) ==> v in m)
  }

  ghost predicate MovesFit(op: Op, m: map<VReg, HReg>, a: Alloc) {
    forall v {:trigger FitsAt(op, m, a, v)} :: FitsAt(op, m, a, v)
  }

  lemma MovesThenOne(moves: seq<Op>, o: Op, v: VReg)
    requires IsMove(o)
    ensures Loads(moves + [o], v) <==> Loads(moves, v) || (o.code.LREG? && o.code.vreg == v)
    ensures Spills(moves + [o], v) <==> Spills(moves, v) || (o.code.UREG? && o.code.vreg == v)
  {
    var more := moves + [o];
    assert more[|moves|] == o;
    assert forall e | 0 <= e < |moves| :: more[e] == moves[e];
  }

  lemma NoMoreMoves(moves: seq<Op>, o: Op, spare: bool, v: VReg)
    requires IsMove(o)
    ensures var more := moves + if spare then [] else [o];
      && (Loads(more, v) <==> Loads(moves, v) || (!spare && o.code.LREG? && o.code.vreg == v))
      && (Spills(more, v) <==> Spills(moves, v) || (!spare && o.code.UREG? && o.code.vreg == v))
  {
    assert moves + [] == moves;
    MovesThenOne(moves, o, v);
  }

  lemma FreeFits(gp: seq<HwReg>, op: Op, m: map<VReg, HReg>, st: Alloc, v: VReg, w: VReg)
    requires ValidRegisters(gp) && HintsOk(op) && v in Mentions(op) && v !in M(st.rm)
    requires GoodMap(st.rm, gp) && AllMoves(st.moves) && MovesFit(op, m, st)
    ensures FitsAt(op, m, MakeFreeReg(gp, op, st, v).0, w)
  {
    VictimExists(op, st.rm, v, gp);
    var k := BestOf(op, st.rm, v, gp, false, |gp|).0;
    IsAssociatedFinds(st.rm, gp[k].id);
    assert FitsAt(op, m, st, w);
    match IsAssociated(st.rm, gp[k].id)
    case None =>
    case Some(x) =>
      Llrb.DeleteCorrect(st.rm, x);
      assert FitsAt(op, m, st, x) && x !in Mentions(op);
      NoMoreMoves(st.moves, MoveOp(UNLOAD, gp[k].id, x), x !in op.liveIn, w);
  }

  lemma AssociateFits(gp: seq<HwReg>, op: Op, m: map<VReg, HReg>, st: Alloc, v: VReg, w: VReg)
    requires ValidRegisters(gp) && HintsOk(op) && v in Mentions(op)
    requires GoodMap(st.rm, gp) && AllMoves(st.moves) && MovesFit(op, m, st)
    ensures FitsAt(op, m, Associate(gp, op, st, v).0, w)
  {
    assert FitsAt(op, m, st, w) && FitsAt(op, m, st, v);
    if v !in M(st.rm) {
      var (b, h) := MakeFreeReg(gp, op, st, v);
      MakeFreeRegOk(gp, op, st, v);
      FreeFits(gp, op, m, st, v, w);
      Llrb.InsertCorrect(b.rm, v, h);
      NoMoreMoves(b.moves, MoveOp(LOAD, h, v), v !in op.liveIn, w);
    }
  }

  lemma ArgFits(gp: seq<HwReg>, op: Op, m: map<VReg, HReg>, st: Alloc, a: Arg)
    requires ValidRegisters(gp) && HintsOk(op) && a in {op.a1, op.a2, op.a3}
    requires GoodMap(st.rm, gp) && AllMoves(st.moves) && MovesFit(op, m, st)
    ensures var c := AssignArg(gp, op, st, a).0; MovesFit(op, m, c) && GoodMap(c.rm, gp) && AllMoves(c.moves)
  {
    AssignArgOk(gp, op, st, a);
    if a.Reg? || a.TReg? {
      forall w ensures FitsAt(op, m, Associate(gp, op, st, a.reg).0, w) {
        AssociateFits(gp, op, m, st, a.reg, w);
      }
    }
  }

  /** assign_regs loads exactly the registers it newly maps that are live before the op, and spills exactly
      those that it takes out of the map and that are live before the op. */
  lemma MovesExactly(gp: seq<HwReg>, op: Op, prev: RegMap, v: VReg)
    requires ValidRegisters(gp) && HintsOk(op) && GoodMap(prev, gp)
    ensures var m, r := M(InitialMap(op, prev)), AssignRegs(gp, op, prev);
      && (Loads(r.moves, v) <==> v in op.liveIn && v in M(r.op.regmap) && v !in m)
      && (Spills(r.moves, v) <==> v in op.liveIn && v in m && v !in M(r.op.regmap))
  {
    Llrb.CloneCorrect(prev);
    var m := M(InitialMap(op, prev));
    var s0 := Alloc(InitialMap(op, prev), []);
    var s1 := AssignArg(gp, op, s0, op.a1).0;
    var s2 := AssignArg(gp, op, s1, op.a2).0;
    var s3 := AssignArg(gp, op, s2, op.a3).0;
    forall w ensures FitsAt(op, m, s0, w) {}
    ArgFits(gp, op, m, s0, op.a1);
    ArgFits(gp, op, m, s1, op.a2);
    ArgFits(gp, op, m, s2, op.a3);
    assert FitsAt(op, m, s3, v);
  }
}
