/** The whole list the register allocator makes, and the proof that running it on hardware
    registers and stack slots does what the op list does on virtual registers. */
module Allocation {
  import opened JitOps
  import opened Hardware
  import opened Rmap
  import opened Layout
  import opened RegAlloc
  import Llrb

  // ---------- branch and jump adjustment ----------

  function Inverse(c: Cond): Cond {
    match c
    case EQ => NE
    case GT => LE
    case GE => LT
    case NE => EQ
    case LT => GE
    case LE => GT
  }

  lemma InverseNegates(sem: Sem, c: Cond, unsigned: bool, x: Word, y: Word)
    ensures Compare(sem, Inverse(c), unsigned, x, y) <==> !Compare(sem, c, unsigned, x, y)
  {
  }

  predicate NeedsRepair(op: Op, target: Op) {
    op.code.BRANCH? && !Equal(op.regmap, target.regmap, target.liveIn, op.liveOut)
  }

  function Inverted(op: Op, id: nat): Op
    requires op.code.BRANCH?
  {
    op.(code := BRANCH(Inverse(op.code.cond), op.code.unsigned), jmp := Some(id))
  }

  /** The JMP put behind an inverted branch; it inherits the branch's map and live sets. */
  function JumpOp(op: Op): Op {
    NewOp(JMP, true, op.a1, No, No, op.jmp)
      .(r1 := op.r1, regmap := Llrb.Clone(op.regmap), liveIn := op.liveIn, liveOut := op.liveOut)
  }

  function PatchOp(id: nat): Op {
    NewOp(PATCH(id), false, Imm(0), No, No, None)
  }

  /** branch_adjustment: an unequal branch becomes the inverse branch, a JMP and a PATCH. */
  function AdjustBranch(op: Op, target: Op, id: nat): seq<Op> {
    if NeedsRepair(op, target) then [Inverted(op, id), JumpOp(op), PatchOp(id)] else [op]
  }

  /** jump_adjustment: the moves that turn the JMP's map into its target's. */
  function AdjustJump(op: Op, target: Op): seq<Op> {
    if op.code.JMP? then JumpMoves(op.regmap, target.regmap, target.liveIn, op.liveOut) + [op] else [op]
  }

  /** A split branch once its JMP is adjusted too. */
  function SplitBranch(op: Op, target: Op, id: nat): seq<Op>
    requires op.code.BRANCH?
  {
    [Inverted(op, id)] + AdjustJump(JumpOp(op), target) + [PatchOp(id)]
  }

  /** A branch is split exactly if its map and its target's disagree on a register that is live at the
      target or after the branch; nothing else is split. */
  lemma RepairExactly(op: Op, target: Op)
    requires Llrb.Ordered(op.regmap) && Llrb.Ordered(target.regmap)
    ensures NeedsRepair(op, target)
      <==> op.code.BRANCH? && !Agree(M(op.regmap), M(target.regmap), target.liveIn + op.liveOut)
  {
    EqualMeaning(op.regmap, target.regmap, target.liveIn, op.liveOut);
  }

  // ---------- the whole list ----------

  /** A program, what assign_regs made of each op, the address of the PATCH that goes with each
      op if it is a branch that must be split, and the block of ops that replaces each op. */
  datatype Plan = Plan(p: seq<Op>, a: seq<Assigned>, ids: seq<nat>, bs: Blocks) {

    ghost predicate Shaped() {
      |p| == |a| == |ids| == |bs|
    }

    function Target(i: nat): Op
      requires Shaped() && i < |p|
    {
      if Goto(p, p[i]) < |p| then a[Goto(p, p[i])].op else p[i]
    }

    predicate Splits(i: nat)
      requires Shaped() && i < |p|
    {
      NeedsRepair(a[i].op, Target(i))
    }

    /** What stands for op i after the moves inserted before it. */
    function Rest(i: nat): seq<Op>
      requires Shaped() && i < |p|
    {
      if Splits(i) then SplitBranch(a[i].op, Target(i), ids[i]) else AdjustJump(a[i].op, Target(i))
    }

    function Block(i: nat): seq<Op>
      requires Shaped() && i < |p|
    {
      a[i].moves + Rest(i)
    }

    /** The blocks are the ones the two adjustments make. */
    ghost predicate Built()
      requires Shaped()
    {
      forall i {:trigger Block(i)} | 0 <= i < |p| :: bs[i] == Block(i)
    }

    function Output(): seq<Op> {
      Concat(bs)
    }

    /** The map left by the textual predecessor of op i. */
    function Prev(i: nat): RegMap
      requires Shaped() && i <= |p|
    {
      if i == 0 then Llrb.Leaf else a[i - 1].op.regmap
    }

    /** The map that holds when control reaches op i. */
    ghost function EntryMap(i: nat): map<VReg, HReg>
      requires Shaped() && i < |p|
    {
      if p[i].code.PROLOG? then map[] else M(Prev(i))
    }

    /** Each op was assigned its registers starting from its predecessor's map. */
    ghost predicate MadeWith(gp: seq<HwReg>)
      requires Shaped()
    {
      forall i {:trigger Prev(i)} | 0 <= i < |p| :: Llrb.Valid(Prev(i)) && a[i] == AssignRegs(gp, p[i], Prev(i))
    }

    /** The new PATCH ops have addresses of their own. */
    ghost predicate FreshIds()
      requires Shaped()
    {
      && (forall i, k {:trigger IsTarget(p[k], ids[i])} |
            0 <= i < |p| && 0 <= k < |p| && Splits(i) :: !IsTarget(p[k], ids[i]))
      && (forall i, k {:trigger ids[i], ids[k]} | 0 <= i < k < |p| && Splits(i) && Splits(k) :: ids[i] != ids[k])
    }

    /** What the simulation needs to know of the assignment. */
    ghost predicate Assigned()
      requires Shaped()
    {
      && (forall i {:trigger AssignedWell(p[i], EntryMap(i), a[i])} | 0 <= i < |p| ::
        AssignedWell(p[i], EntryMap(i), a[i]))
      && (forall i {:trigger CarriedOver(p[i], EntryMap(i), a[i])} | 0 <= i < |p| ::
        CarriedOver(p[i], EntryMap(i), a[i]))
    }
  }

  /** A call-free program of integer ops without function arguments. */
  ghost predicate PlainProgram(p: seq<Op>) {
    && WellFormed(p)
    && (forall i {:trigger Plain(p[i])} | 0 <= i < |p| :: Plain(p[i]))
    && (forall i {:trigger EntersProlog(p, i)} | 0 < i < |p| :: EntersProlog(p, i))
  }

  /** ... with its hints collected. */
  ghost predicate Allocatable(p: seq<Op>) {
    PlainProgram(p) && forall i | 0 <= i < |p| :: HintsOk(p[i])
  }

  /** Control does not fall into a PROLOG, except from the CODESTART op. */
  ghost predicate EntersProlog(p: seq<Op>, i: nat)
    requires 0 < i < |p|
  {
    p[i].code.PROLOG? ==> !FallsThrough(p[i - 1]) || (i == 1 && p[0].code.CODESTART?)
  }

  ghost predicate Plain(op: Op) {
    && !op.code.GETARG? && (op.code.PROLOG? ==> op.code.gpArgs == op.code.fpArgs == 0)
    && (!op.code.ALU? && !op.code.BRANCH? && !op.code.TEST? && !op.code.RET? ==> Mentions(op) == {})
  }

  lemma {:induction false} PrevOk(x: Plan, gp: seq<HwReg>, i: nat)
    requires x.Shaped() && ValidRegisters(gp) && Allocatable(x.p) && x.MadeWith(gp) && i <= |x.p|
    ensures GoodMap(x.Prev(i), gp)
  {
    if i > 0 {
      PrevOk(x, gp, i - 1);
      AssignRegsOk(gp, x.p[i - 1], x.Prev(i - 1));
    }
  }

  lemma EntryIsInitial(x: Plan, i: nat)
    requires x.Shaped() && i < |x.p| && Llrb.Valid(x.Prev(i))
    ensures M(InitialMap(x.p[i], x.Prev(i))) == x.EntryMap(i)
  {
    Llrb.CloneCorrect(x.Prev(i));
  }

  /** Every op's map stays a partial injection, every argument is where its map says. */
  lemma AssignedOk(x: Plan, gp: seq<HwReg>)
    requires x.Shaped() && ValidRegisters(gp) && Allocatable(x.p) && x.MadeWith(gp)
    ensures x.Assigned()
  {
    forall i | 0 <= i < |x.p|
      ensures AssignedWell(x.p[i], x.EntryMap(i), x.a[i]) && CarriedOver(x.p[i], x.EntryMap(i), x.a[i])
    {
      PrevOk(x, gp, i);
      EntryIsInitial(x, i);
      AssignRegsOk(gp, x.p[i], x.Prev(i));
    }
  }

  // ---------- where jump targets end up ----------

  lemma AdjustedTargets(op: Op, t: Op, e: nat, id: nat)
    requires e < |AdjustJump(op, t)| && IsTarget(AdjustJump(op, t)[e], id)
    ensures AdjustJump(op, t) == [op] && IsTarget(op, id)
  {
    var ms := JumpMoves(op.regmap, t.regmap, t.liveIn, op.liveOut);
    assert e < |ms| ==> IsMove(ms[e]);
  }

  lemma MovesThenTargets(moves: seq<Op>, rest: seq<Op>, e: nat, id: nat)
    requires AllMoves(moves) && e < |moves + rest| && IsTarget((moves + rest)[e], id)
    ensures |moves| <= e && (moves + rest)[e] == rest[e - |moves|]
  {
    assert e < |moves| ==> IsMove(moves[e]);
  }

  lemma SplitTargets(op: Op, t: Op, newId: nat, e: nat, id: nat)
    requires op.code.BRANCH?
    requires e < |SplitBranch(op, t, newId)| && IsTarget(SplitBranch(op, t, newId)[e], id)
    ensures e == |SplitBranch(op, t, newId)| - 1 && id == newId
  {
    var mid := AdjustJump(JumpOp(op), t);
    if 0 < e <= |mid| { AdjustedTargets(JumpOp(op), t, e - 1, id); }
  }

  lemma AssignedFields(x: Plan, i: nat)
    requires x.Shaped() && x.Assigned() && PlainProgram(x.p) && i < |x.p|
    ensures SameButRegs(x.a[i].op, x.p[i]) && AllMoves(x.a[i].moves)
    ensures x.p[i].code.LABEL? || x.p[i].code.PATCH? ==> x.a[i].moves == []
  {
    assert AssignedWell(x.p[i], x.EntryMap(i), x.a[i]);
    assert Plain(x.p[i]);
  }

  lemma RestTargets(x: Plan, i: nat, e: nat, id: nat)
    requires x.Shaped() && i < |x.p| && SameButRegs(x.a[i].op, x.p[i])
    requires e < |x.Rest(i)| && IsTarget(x.Rest(i)[e], id)
    ensures if x.Splits(i) then id == x.ids[i] && e == |x.Rest(i)| - 1
            else IsTarget(x.p[i], id) && x.Rest(i) == [x.a[i].op]
  {
    if x.Splits(i) {
      SplitTargets(x.a[i].op, x.Target(i), x.ids[i], e, id);
    } else {
      AdjustedTargets(x.a[i].op, x.Target(i), e, id);
    }
  }

  /** The targets in a block: the op's own, alone in its block, or the new PATCH at the end. */
  lemma BlockTargets(x: Plan, i: nat, e: nat, id: nat)
    requires x.Shaped() && x.Assigned() && x.Built() && PlainProgram(x.p)
    requires i < |x.p| && e < |x.bs[i]| && IsTarget(x.bs[i][e], id)
    ensures (IsTarget(x.p[i], id) && x.bs[i] == [x.a[i].op])
         || (x.Splits(i) && id == x.ids[i] && e == |x.bs[i]| - 1)
  {
    assert x.bs[i] == x.Block(i);
    var moves, rest := x.a[i].moves, x.Rest(i);
    AssignedFields(x, i);
    MovesThenTargets(moves, rest, e, id);
    RestTargets(x, i, e - |moves|, id);
    if !x.Splits(i) { assert moves + rest == rest; }
  }

  /** A LABEL or PATCH of the program is found at the start of its block, which it fills. */
  lemma OldTarget(x: Plan, i: nat, id: nat)
    requires x.Shaped() && x.Assigned() && x.Built() && x.FreshIds() && PlainProgram(x.p) && i < |x.p|
      && IsTarget(x.p[i], id)
    ensures Find(x.Output(), id) == Start(x.bs, i)
    ensures x.bs[i] == [x.a[i].op] && x.a[i].moves == []
  {
    AssignedFields(x, i);
    assert x.bs[i] == x.Block(i);
    forall k, e | 0 <= k < |x.p| && 0 <= e < |x.bs[k]| && IsTarget(x.bs[k][e], id)
      ensures k == i && e == 0
    {
      BlockTargets(x, k, e, id);
      OneTarget(x.p, i, k, id);
    }
    FindAt(x.bs, i, 0, id);
  }

  /** The PATCH of a split branch is found at the end of its block. */
  lemma NewTarget(x: Plan, i: nat)
    requires x.Shaped() && x.Assigned() && x.Built() && x.FreshIds() && PlainProgram(x.p) && i < |x.p| && x.Splits(i)
    ensures Find(x.Output(), x.ids[i]) == Start(x.bs, i) + |x.bs[i]| - 1
  {
    var id := x.ids[i];
    assert x.bs[i] == x.Block(i);
    forall k, e | 0 <= k < |x.p| && 0 <= e < |x.bs[k]| && IsTarget(x.bs[k][e], id)
      ensures k == i && e == |x.bs[i]| - 1
    {
      BlockTargets(x, k, e, id);
    }
    FindAt(x.bs, i, |x.bs[i]| - 1, id);
  }
}
