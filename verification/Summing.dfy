/** A small program that meets every condition of the main theorem, with a loop whose body the
    peephole guards look at. */
module Summing {
  import opened JitOps
  import opened Layout
  import opened Allocation
  import opened FlowAnalysis
  import opened JoinOps
  import opened JoinPasses
  import opened Pipeline
  import E = Emission
  import LongImm
  import A = Allocator
  import opened StackFrame
  import opened FrameCode
  import opened Selection
  import opened SelectedCode

  const S: VReg := MkReg(false, RTYPE_REG, 0)
  const I: VReg := MkReg(false, RTYPE_REG, 1)

  /** A function that adds up the numbers from one to ten in a loop. */
  function Program(): seq<Op> {
    [ NewOp(CODESTART, false, No, No, No, None),
      NewOp(PROLOG(0, 0), false, No, No, No, None),
      NewOp(ALU(MOV, false), true, TReg(S), Imm(0), No, None),
      NewOp(ALU(MOV, false), true, TReg(I), Imm(1), No, None),
      NewOp(LABEL(0), false, No, No, No, None),
      NewOp(ALU(ADD, false), false, TReg(S), Reg(S), Reg(I), None),
      NewOp(ALU(ADD, false), true, TReg(I), Reg(I), Imm(1), None),
      NewOp(BRANCH(LE, false), true, No, Reg(I), Imm(10), Some(0)),
      NewOp(RET, false, Reg(S), No, No, None) ]
  }

  lemma LoopFound()
    ensures Find(Program(), 0) == 4
  {
    var p := Program();
    assert p[1..][0] == p[1] && p[1..][1..] == p[2..] && p[2..][1..] == p[3..] && p[3..][1..] == p[4..];
    assert Find(p[4..], 0) == 0;
    assert Find(p[3..], 0) == 1 && Find(p[2..], 0) == 2 && Find(p[1..], 0) == 3;
  }

  lemma OpFits(i: nat)
    requires i < 9
    ensures WellFormedOp(Program(), Program()[i]) && Plain(Program()[i])
  {
    LoopFound();
  }

  lemma OpTyped(i: nat)
    requires i < 9
    ensures LongImm.ImmOp(Program()[i]) && !LongImm.Long(Program()[i]) && WellTyped(Program()[i])
  {
  }

  lemma JumpFits(i: nat)
    requires i < 9
    ensures E.JumpOk(Program(), i)
  {
    LoopFound();
  }

  lemma Targets()
    ensures DistinctTargets(Program()) && A.BelowId(Program(), 1)
  {
  }

  lemma CanBeEmitted()
    ensures E.Emittable(Program(), seq(9, _ => 0))
  {
    var p := Program();
    Targets();
    forall i: nat | i < |p| ensures E.JumpOk(p, i) {
      JumpFits(i);
    }
    assert forall k: nat | k < |p| :: !p[k].code.PATCH?;
  }

  /** The sum is read behind the loop, so the two additions in the loop are no pair for a join. */
  lemma SumIsRead()
    ensures ReachesUseAfter(Program(), S, 6)
  {
    var p := Program();
    var path := [7, 8];
    assert path[1..] == [8] && LivePath(p, S, 8, [8]);
    assert Follows(p, 7, 8) && LivePath(p, S, 7, path);
    assert Follows(p, 6, 7) && ReachesUse(p, S, 7);
  }

  lemma OnlyPair(k: nat, j: Join)
    requires k < 8 && CodesOf(j, Program()[k], Program()[k + 1])
    ensures k == 5
  {
  }

  lemma IsSafe(unused: bool, join: bool)
    ensures Safe(Program(), unused, join)
  {
    var p := Program();
    SumIsRead();
    forall k: nat | k + 1 < |p| ensures StoreSafe(p, k) {
      assert !StoreCodes(p[k], p[k + 1]);
    }
    forall k: nat | k + 1 < |p| ensures JoinSafe(p, k, unused) {
      if k != 5 {
        var op, next := p[k], p[k + 1];
        forall j ensures JoinRight(j, op, next) {
          if CodesOf(j, op, next) { OnlyPair(k, j); }
        }
      }
    }
  }

  ghost predicate GoodOp(p: seq<Op>, i: nat)
    requires i < |p|
  {
    && WellFormedOp(p, p[i]) && Plain(p[i]) && LongImm.ImmOp(p[i]) && !LongImm.Long(p[i]) && WellTyped(p[i])
    && (p[i].code.PROLOG? ==> i == 1)
  }

  lemma PartsCompile(p: seq<Op>)
    requires |p| > 0 && p[0].code.CODESTART? && DistinctTargets(p)
    requires forall i: nat {:trigger GoodOp(p, i)} | i < |p| :: GoodOp(p, i)
    ensures LongImm.ImmProgram(p) && LongImm.CorrectedAll(p) == p && Compilable(p)
  {
    forall i: nat | i < |p|
      ensures WellFormedOp(p, p[i]) && Plain(p[i]) && LongImm.ImmOp(p[i]) && !LongImm.Long(p[i]) && WellTyped(p[i])
      ensures i > 0 ==> EntersProlog(p, i)
    {
      assert GoodOp(p, i);
    }
    NothingLong(p, 0);
  }

  lemma OnItsFrame()
    ensures Fits(Program(), Frame(2, 0, 0))
  {
    forall i | 0 <= i < 9 ensures FitsOp(Program()[i], Frame(2, 0, 0)) {}
  }

  lemma HasNoTests()
    ensures NoTests(Program())
  {
  }

  /** The conditions on `Compile` can be met, also with a loop and all optimisations. */
  lemma Compiles(unused: bool, join: bool)
    ensures LongImm.ImmProgram(Program()) && LongImm.CorrectedAll(Program()) == Program()
    ensures Compilable(Program()) && Safe(Program(), unused, join) && A.BelowId(Program(), 1)
    ensures E.Emittable(Program(), seq(9, _ => 0)) && NoTests(Program())
    ensures Fits(Program(), Frame(2, 0, 0)) && AllBuilt(Program()) && AllTame(Program())
  {
    OnItsFrame();
    forall i | 0 <= i < 9 ensures BuiltArith(Program()[i]) && BuiltBranch(Program()[i]) && Tame(Program()[i]) {}
    Targets();
    CanBeEmitted();
    HasNoTests();
    IsSafe(unused, join);
    forall i: nat | i < |Program()| ensures GoodOp(Program(), i) {
      OpFits(i);
      OpTyped(i);
    }
    PartsCompile(Program());
  }

  lemma {:induction false} NothingLong(p: seq<Op>, i: nat)
    requires i <= |p| && forall j | 0 <= j < |p| :: !LongImm.Long(p[j])
    ensures Concat(LongImm.Pieces(p)[i..]) == p[i..]
    decreases |p| - i
  {
    if i < |p| {
      NothingLong(p, i + 1);
      assert LongImm.Pieces(p)[i..][1..] == LongImm.Pieces(p)[i + 1..];
    }
  }
}
