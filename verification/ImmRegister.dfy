/** R_IMM, which holds a long immediate from the MOV in front of an op to that op: where it is live in
    the list that the register allocator gets. */
module ImmRegister {
  import opened JitOps
  import opened FlowAnalysis
  import opened Rewriting
  import opened Fusion
  import opened DeadAssign
  import opened Arithmetic
  import opened JoinOps
  import opened JoinPasses
  import opened StoreOps
  import opened Layout
  import LongImm

  // ---------- the list with the long immediates moved out ----------

  /** The MOV that jit_correct_long_imms puts in front of an op. */
  predicate IsLoad(op: Op) {
    op.code == ALU(MOV, false) && op.imm && op.a1 == TReg(R_IMM) && op.a2.Imm? && op.a3.No? && op.jmp.None?
  }

  predicate UsesImm(op: Op) {
    R_IMM in Uses(op)
  }

  predicate StoresOther(op: Op) {
    IsAlu(op, ST) || IsAlu(op, STX) ==> Raw(StoredArg(op)) != R_IMM
  }

  /** Control comes to the op from the op before it only. */
  predicate FromAbove(op: Op) {
    !op.code.LABEL? && !op.code.PATCH? && !op.code.PROLOG?
  }

  /** What the ops of a list mention besides R_IMM. */
  ghost predicate Only(p: seq<Op>, regs: set<VReg>) {
    forall i {:trigger Mentions(p[i])} | 0 <= i < |p| :: Mentions(p[i]) <= regs
  }

  /** An op that reads R_IMM stands behind a MOV to it. */
  ghost predicate LoadedAt(p: seq<Op>, k: nat)
    requires k < |p|
  {
    && (UsesImm(p[k]) ==> FromAbove(p[k]) && k > 0 && IsLoad(p[k - 1]))
    && (R_IMM in Defs(p[k]) ==> IsLoad(p[k])) && StoresOther(p[k])
  }

  ghost predicate Loaded(p: seq<Op>) {
    forall k: nat {:trigger LoadedAt(p, k)} | k < |p| :: LoadedAt(p, k)
  }

  lemma PieceLoaded(op: Op, e: nat)
    requires LongImm.ImmOp(op) && R_IMM !in Mentions(op) && TypedStore(op) && e < |LongImm.Corrected(op)|
    requires op.code.PROLOG? ==> op.code.gpArgs == op.code.fpArgs == 0
    ensures var b := LongImm.Corrected(op);
      && (UsesImm(b[e]) ==> FromAbove(b[e]) && e == 1 && IsLoad(b[0]))
      && (R_IMM in Defs(b[e]) ==> IsLoad(b[e])) && StoresOther(b[e])
      && Mentions(b[e]) <= Mentions(op) + {R_IMM}
  {
    assert PrologArgs(0, 0) == {};
  }

  /** jit_correct_long_imms, on a list that does not mention R_IMM. */
  lemma CorrectedLoaded(p: seq<Op>, regs: set<VReg>)
    requires LongImm.ImmProgram(p) && Only(p, regs) && R_IMM !in regs
    requires forall i {:trigger p[i]} | 0 <= i < |p| ::
      TypedStore(p[i]) && (p[i].code.PROLOG? ==> p[i].code.gpArgs == p[i].code.fpArgs == 0)
    ensures Loaded(LongImm.CorrectedAll(p)) && Only(LongImm.CorrectedAll(p), regs + {R_IMM})
  {
    var b, q := LongImm.Pieces(p), LongImm.CorrectedAll(p);
    forall k: nat | k < |q| ensures LoadedAt(q, k) && Mentions(q[k]) <= regs + {R_IMM} {
      var i, e := Locate(b, k);
      assert LongImm.ImmOp(p[i]) && Mentions(p[i]) <= regs;
      PieceLoaded(p[i], e);
      if e == 1 { At(b, i, 0); }
    }
  }

  // ---------- where it is live ----------

  predicate IsJoined(op: Op) {
    op.code.ALU? && op.code.op in {ADDMUL_IMM, ADDMUL_REG, ADDIMM}
  }

  /** ... or, once the pair in front is joined, behind a MOV and a NOP. */
  ghost predicate NearAt(p: seq<Op>, k: nat)
    requires k < |p|
  {
    && (UsesImm(p[k]) ==> FromAbove(p[k]) && k > 0 && (IsLoad(p[k - 1]) || BehindNop(p, k)))
    && (R_IMM in Defs(p[k]) ==> IsLoad(p[k]))
  }

  predicate BehindNop(p: seq<Op>, k: nat)
    requires k < |p|
  {
    IsJoined(p[k]) && k > 1 && IsNop(p[k - 1]) && p[k - 1].jmp.None? && IsLoad(p[k - 2])
  }

  ghost predicate Near(p: seq<Op>) {
    forall k: nat {:trigger NearAt(p, k)} | k < |p| :: NearAt(p, k)
  }

  lemma LoadedIsNear(p: seq<Op>)
    requires Loaded(p)
    ensures Near(p)
  {
    forall k: nat | k < |p| ensures NearAt(p, k) {
      assert LoadedAt(p, k);
    }
  }

  lemma ComesFromAbove(p: seq<Op>, i: nat, j: nat)
    requires WellFormed(p) && Follows(p, i, j) && FromAbove(p[j])
    ensures j == i + 1
  {
    assert WellFormedOp(p, p[i]);
    if p[i].jmp.Some? { FindsFirst(p, p[i].jmp.value); }
  }

  /** Some path reads R_IMM from op i on only if i reads it or is the NOP in between. */
  lemma {:induction false} PathIsShort(p: seq<Op>, i: nat, path: seq<nat>)
    requires WellFormed(p) && Near(p) && LivePath(p, R_IMM, i, path)
    ensures UsesImm(p[i]) || (i + 1 < |p| && UsesImm(p[i + 1]) && BehindNop(p, i + 1))
    decreases |path|
  {
    if |path| > 1 {
      var j := path[1];
      PathIsShort(p, j, path[1..]);
      assert NearAt(p, j);
      if UsesImm(p[j]) {
        ComesFromAbove(p, i, j);
      } else {
        assert NearAt(p, j + 1);
        ComesFromAbove(p, i, j);
      }
    }
  }

  // ---------- what the records say ----------

  /** Where R_IMM is live, the op before has put it in a register or kept it there, and the op itself
      reads it or reads and writes nothing. */
  ghost predicate KeptAt(p: seq<Op>, k: nat)
    requires k < |p|
  {
    && (R_IMM in p[k].liveIn ==>
          && FromAbove(p[k]) && (UsesImm(p[k]) || Mentions(p[k]) == {}) && k > 0
          && (IsLoad(p[k - 1]) || (Mentions(p[k - 1]) == {} && R_IMM in p[k - 1].liveIn)))
    && (p[k].jmp.Some? ==> R_IMM !in p[k].liveOut)
  }

  ghost predicate Kept(p: seq<Op>) {
    forall k: nat {:trigger KeptAt(p, k)} | k < |p| :: KeptAt(p, k)
  }

  lemma LiveIsShort(p: seq<Op>, i: nat)
    requires WellFormed(p) && Near(p) && ReachesUse(p, R_IMM, i)
    ensures i < |p| && (UsesImm(p[i]) || (i + 1 < |p| && UsesImm(p[i + 1]) && BehindNop(p, i + 1)))
    ensures FromAbove(p[i]) && i > 0 && (IsLoad(p[i - 1]) || (UsesImm(p[i]) && BehindNop(p, i)))
  {
    var path :| LivePath(p, R_IMM, i, path);
    PathIsShort(p, i, path);
    assert NearAt(p, if UsesImm(p[i]) then i else i + 1);
  }

  lemma NopKeeps(p: seq<Op>, k: nat)
    requires k < |p| && UsesImm(p[k]) && BehindNop(p, k)
    ensures ReachesUse(p, R_IMM, k - 1) && Mentions(p[k - 1]) == {}
  {
    UseReached(p, R_IMM, k);
    assert Follows(p, k - 1, k);
    StepBack(p, R_IMM, k - 1);
  }

  lemma NotAtJumps(p: seq<Op>, k: nat)
    requires WellFormed(p) && Near(p) && k < |p| && ReachesUseAfter(p, R_IMM, k)
    ensures p[k].jmp.None?
  {
    var j: nat :| Follows(p, k, j) && ReachesUse(p, R_IMM, j);
    LiveIsShort(p, j);
    ComesFromAbove(p, k, j);
  }

  lemma NearIsKeptAt(p: seq<Op>, l: Lives, k: nat)
    requires WellFormed(p) && Near(p) && Exact(p, l) && k < |p|
    ensures KeptAt(WithLive(p, l), k)
  {
    if R_IMM in l[k].into {
      LiveIsShort(p, k);
      if !IsLoad(p[k - 1]) { NopKeeps(p, k); }
    }
    if R_IMM in l[k].out { NotAtJumps(p, k); }
  }

  /** Exact live sets keep R_IMM between its MOV and its use. */
  lemma NearIsKept(p: seq<Op>, l: Lives)
    requires WellFormed(p) && Near(p) && Exact(p, l)
    ensures Kept(WithLive(p, l))
  {
    forall k: nat | k < |p| ensures KeptAt(WithLive(p, l), k) {
      NearIsKeptAt(p, l, k);
    }
  }

  // ---------- dropping and storing, which keep the records ----------

  ghost predicate TidyAt(p: seq<Op>, k: nat, regs: set<VReg>)
    requires k < |p|
  {
    && LoadedAt(p, k) && Mentions(p[k]) <= regs && TypedStore(p[k])
    && (UsesImm(p[k]) ==> R_IMM in p[k].liveIn)
    && (R_IMM in p[k].liveIn ==>
          && FromAbove(p[k]) && (UsesImm(p[k]) || Mentions(p[k]) == {})
          && k > 0 && IsLoad(p[k - 1]) && R_IMM in p[k - 1].liveOut)
    && (p[k].jmp.Some? ==> R_IMM !in p[k].liveOut)
  }

  ghost predicate Tidy(p: seq<Op>, regs: set<VReg>) {
    forall k: nat {:trigger TidyAt(p, k, regs)} | k < |p| :: TidyAt(p, k, regs)
  }

  lemma LoadedLive(p: seq<Op>, k: nat)
    requires WellFormed(p) && Loaded(p) && k < |p| && ReachesUse(p, R_IMM, k)
    ensures UsesImm(p[k]) && FromAbove(p[k]) && k > 0 && IsLoad(p[k - 1]) && ReachesUseAfter(p, R_IMM, k - 1)
  {
    LoadedIsNear(p);
    LiveIsShort(p, k);
    assert LoadedAt(p, if UsesImm(p[k]) then k else k + 1);
    assert Follows(p, k - 1, k);
  }

  lemma AnalysedIsTidyAt(p: seq<Op>, l: Lives, k: nat, regs: set<VReg>)
    requires WellFormed(p) && Loaded(p) && Exact(p, l)
    requires k < |p| && LoadedAt(p, k) && Mentions(p[k]) <= regs && TypedStore(p[k])
    ensures TidyAt(WithLive(p, l), k, regs)
  {
    LoadedIsNear(p);
    if UsesImm(p[k]) { UseReached(p, R_IMM, k); }
    if R_IMM in l[k].into { LoadedLive(p, k); }
    if R_IMM in l[k].out { NotAtJumps(p, k); }
  }

  lemma AnalysedIsTidy(p: seq<Op>, l: Lives, regs: set<VReg>)
    requires WellFormed(p) && Loaded(p) && Only(p, regs) && Exact(p, l)
    requires forall i: nat {:trigger TypedStore(p[i])} | i < |p| :: TypedStore(p[i])
    ensures Tidy(WithLive(p, l), regs)
  {
    forall k: nat | k < |p| ensures TidyAt(WithLive(p, l), k, regs) {
      assert LoadedAt(p, k) && Mentions(p[k]) <= regs && TypedStore(p[k]);
      AnalysedIsTidyAt(p, l, k, regs);
    }
  }

  lemma TidyIsKept(p: seq<Op>, regs: set<VReg>)
    requires Tidy(p, regs)
    ensures Kept(p) && Near(p) && Only(p, regs)
  {
    forall k: nat | k < |p| ensures KeptAt(p, k) && NearAt(p, k) && Mentions(p[k]) <= regs {
      assert TidyAt(p, k, regs);
    }
  }

  lemma DropIsTidy(p: seq<Op>, regs: set<VReg>)
    requires Tidy(p, regs)
    ensures Tidy(DropAll(p), regs)
  {
    forall k: nat | k < |p| ensures TidyAt(DropAll(p), k, regs) {
      assert TidyAt(p, k, regs);
    }
  }

  /** A store is never made of the MOV to R_IMM, nor of an op that reads R_IMM. */
  lemma StorableApart(p: seq<Op>, i: nat, regs: set<VReg>)
    requires 0 < i < |p| && Storable(p[i - 1], p[i]) && TidyAt(p, i - 1, regs) && TidyAt(p, i, regs)
    ensures !IsLoad(p[i - 1]) && !UsesImm(p[i]) && !UsesImm(p[i - 1])
    ensures R_IMM !in p[i].liveIn && R_IMM !in p[i - 1].liveIn && R_IMM !in Defs(p[i - 1])
  {
  }

  lemma StoreNopIsTidy(p: seq<Op>, i: nat, regs: set<VReg>)
    requires 0 < i < |p| && Storable(p[i - 1], p[i]) && TidyAt(p, i - 1, regs) && TidyAt(p, i, regs)
    ensures TidyAt(StoreStep(p, i), i - 1, regs)
  {
    StorableApart(p, i, regs);
    var o := StoreStep(p, i)[i - 1];
    assert o == Nop(p[i - 1]) && Mentions(o) == {} && Uses(o) == {} && Defs(o) == {};
  }

  lemma StoredOp(p: seq<Op>, i: nat, regs: set<VReg>)
    requires 0 < i < |p| && Storable(p[i - 1], p[i]) && TidyAt(p, i, regs)
    ensures var o := Stored(p[i - 1], p[i]);
      && Uses(o) <= Uses(p[i]) && Mentions(o) <= Mentions(p[i]) && Defs(o) == Defs(p[i]) == {}
      && TypedStore(o) && StoresOther(o) && FromAbove(o) && o.jmp.None?
  {
  }

  lemma StoredIsTidy(p: seq<Op>, i: nat, regs: set<VReg>)
    requires 0 < i < |p| && Storable(p[i - 1], p[i]) && TidyAt(p, i - 1, regs) && TidyAt(p, i, regs)
    ensures TidyAt(StoreStep(p, i), i, regs)
  {
    StorableApart(p, i, regs);
    StoredOp(p, i, regs);
    assert StoreStep(p, i)[i] == Stored(p[i - 1], p[i]);
  }

  lemma OthersStayTidy(p: seq<Op>, i: nat, k: nat, regs: set<VReg>)
    requires 0 < i < |p| && Storable(p[i - 1], p[i]) && k < |p| && k != i - 1 && k != i && TidyAt(p, k, regs)
    requires !IsLoad(p[i - 1])
    ensures TidyAt(StoreStep(p, i), k, regs)
  {
    assert !IsLoad(p[i]);
    assert k > 0 && IsLoad(p[k - 1]) ==> StoreStep(p, i)[k - 1] == p[k - 1];
  }

  lemma StoreIsTidyAt(p: seq<Op>, i: nat, k: nat, regs: set<VReg>)
    requires 0 < i < |p| && Storable(p[i - 1], p[i]) && k < |p|
    requires TidyAt(p, i - 1, regs) && TidyAt(p, i, regs) && TidyAt(p, k, regs)
    ensures TidyAt(StoreStep(p, i), k, regs)
  {
    if k == i - 1 {
      StoreNopIsTidy(p, i, regs);
    } else if k == i {
      StoredIsTidy(p, i, regs);
    } else {
      StorableApart(p, i, regs);
      OthersStayTidy(p, i, k, regs);
    }
  }

  lemma StoreIsTidy(p: seq<Op>, i: nat, regs: set<VReg>)
    requires Tidy(p, regs)
    ensures Tidy(StoreStep(p, i), regs)
  {
    if 0 < i < |p| && Storable(p[i - 1], p[i]) {
      forall k: nat | k < |p| ensures TidyAt(StoreStep(p, i), k, regs) {
        assert TidyAt(p, i - 1, regs) && TidyAt(p, i, regs) && TidyAt(p, k, regs);
        StoreIsTidyAt(p, i, k, regs);
      }
    }
  }

  lemma {:induction false} StoresAreTidy(p: seq<Op>, i: nat, regs: set<VReg>)
    requires Tidy(p, regs)
    ensures Tidy(StoresFrom(p, i), regs)
    decreases |p| - i
  {
    if i < |p| {
      StoreIsTidy(p, i, regs);
      StoresAreTidy(StoreStep(p, i), i + 1, regs);
    }
  }

  // ---------- joining, after which the sets are computed again ----------

  ghost predicate JoinableAt(p: seq<Op>, k: nat, regs: set<VReg>)
    requires k < |p|
  {
    NearAt(p, k) && Mentions(p[k]) <= regs && TypedOp(p[k]) && (p[k].code.ALU? ==> p[k].jmp.None?)
  }

  ghost predicate MayJoin(p: seq<Op>, regs: set<VReg>) {
    forall k: nat {:trigger JoinableAt(p, k, regs)} | k < |p| :: JoinableAt(p, k, regs)
  }

  /** c may take the place of two ops as far as R_IMM goes: it reads R_IMM only if the first does. */
  predicate Carries(op: Op, next: Op, c: Op) {
    && IsJoined(c) && TypedOp(c) && c.jmp == next.jmp && c.a1 == next.a1 && next.a1.TReg?
    && !c.a2.TReg? && !c.a3.TReg? && !next.a2.TReg? && !next.a3.TReg? && next.code.ALU? && op.code.ALU?
    && Uses(c) <= Uses(op) + Uses(next) && !UsesImm(next)
    && op.code.op != MOV && next.code.op != MOV && !IsJoined(op)
  }

  lemma JoinedReads(r: Rule, op: Op, next: Op)
    requires Matches(r, op, next) && Joined(r.join, op, next).Some?
    ensures Uses(Joined(r.join, op, next).value) <= Uses(op) + Uses(next)
  {
    match r.join
    case MULI_ADDI =>
    case MULI_ORI =>
    case MULI_ADDR =>
    case ADDR_ADDI =>
    case ADDI_ADDR =>
  }

  lemma JoinedLooks(r: Rule, op: Op, next: Op)
    requires Matches(r, op, next) && Joined(r.join, op, next).Some?
    ensures var c := Joined(r.join, op, next).value;
      IsJoined(c) && c.jmp == next.jmp && c.a1 == next.a1 && !c.a2.TReg? && !c.a3.TReg?
  {
  }

  lemma JoinedCarries(r: Rule, op: Op, next: Op)
    requires IsRule(r) && Fires(r, op, next) && TypedOp(op) && TypedOp(next) && !UsesImm(next)
    ensures Carries(op, next, Joined(r.join, op, next).value)
  {
    FiresMatches(r, op, next);
    JoinedReads(r, op, next);
    JoinedLooks(r, op, next);
  }

  lemma CarriedMentions(op: Op, next: Op, c: Op)
    requires Carries(op, next, c)
    ensures Defs(c) == Defs(next) && Mentions(c) <= Mentions(op) + Mentions(next) && FromAbove(c)
    ensures UsesImm(c) ==> UsesImm(op)
  {
    assert Defs(c) == {c.a1.reg} && Defs(next) == {next.a1.reg};
    assert Mentions(c) == Uses(c) + Defs(c) && Uses(op) <= Mentions(op) && Mentions(next) == Uses(next) + Defs(next);
  }

  lemma SecondIsPlain(r: Rule, p: seq<Op>, k: nat, regs: set<VReg>)
    requires IsRule(r) && MayJoin(p, regs) && k + 1 < |p| && Fires(r, p[k], p[k + 1])
    ensures !UsesImm(p[k + 1])
  {
    assert JoinableAt(p, k + 1, regs);
  }

  lemma NopIsNear(p: seq<Op>, k: nat, c: Op, regs: set<VReg>)
    requires k + 1 < |p| && JoinableAt(p, k, regs) && Carries(p[k], p[k + 1], c)
    ensures JoinableAt(Fused(p, k, c), k, regs)
  {
    var o := Nop(p[k]);
    assert Fused(p, k, c)[k] == o && Mentions(o) == {} && Defs(o) == {} && Uses(o) == {};
  }

  lemma JoinedIsNear(p: seq<Op>, k: nat, c: Op, regs: set<VReg>)
    requires k + 1 < |p| && JoinableAt(p, k, regs) && JoinableAt(p, k + 1, regs) && Carries(p[k], p[k + 1], c)
    ensures JoinableAt(Fused(p, k, c), k + 1, regs)
  {
    var q := Fused(p, k, c);
    CarriedMentions(p[k], p[k + 1], c);
    assert q[k + 1] == c && q[k] == Nop(p[k]) && (k > 0 ==> q[k - 1] == p[k - 1]);
  }

  lemma NearDepends(p: seq<Op>, q: seq<Op>, m: nat)
    requires m < |p| == |q| && NearAt(p, m) && q[m] == p[m]
    requires m > 0 && (IsLoad(p[m - 1]) || IsNop(p[m - 1])) ==> q[m - 1] == p[m - 1]
    requires m > 1 && IsLoad(p[m - 2]) ==> q[m - 2] == p[m - 2]
    ensures NearAt(q, m)
  {
  }

  lemma CarriedAreOthers(op: Op, next: Op, c: Op)
    requires Carries(op, next, c)
    ensures !IsLoad(op) && !IsLoad(next) && !IsNop(op) && !IsNop(next)
  {
  }

  lemma OthersStayNear(p: seq<Op>, k: nat, c: Op, m: nat, regs: set<VReg>)
    requires k + 1 < |p| && JoinableAt(p, k, regs) && Carries(p[k], p[k + 1], c)
    requires m < |p| && m != k && m != k + 1 && JoinableAt(p, m, regs)
    ensures JoinableAt(Fused(p, k, c), m, regs)
  {
    CarriedAreOthers(p[k], p[k + 1], c);
    NearDepends(p, Fused(p, k, c), m);
  }

  lemma JoinKeepsNear(r: Rule, p: seq<Op>, k: nat, regs: set<VReg>)
    requires IsRule(r) && MayJoin(p, regs)
    ensures MayJoin(Apply(r, p, k), regs)
  {
    if k + 1 < |p| && Fires(r, p[k], p[k + 1]) {
      var c := Joined(r.join, p[k], p[k + 1]).value;
      assert JoinableAt(p, k, regs) && JoinableAt(p, k + 1, regs);
      SecondIsPlain(r, p, k, regs);
      JoinedCarries(r, p[k], p[k + 1]);
      NopIsNear(p, k, c, regs);
      JoinedIsNear(p, k, c, regs);
      forall m: nat | m < |p| ensures JoinableAt(Fused(p, k, c), m, regs) {
        assert JoinableAt(p, m, regs);
        if m != k && m != k + 1 { OthersStayNear(p, k, c, m, regs); }
      }
    }
  }

  lemma {:induction false} AllKeepNear(rules: seq<Rule>, p: seq<Op>, k: nat, regs: set<VReg>)
    requires AreRules(rules) && MayJoin(p, regs)
    ensures MayJoin(ApplyAll(rules, p, k), regs)
  {
    if rules != [] {
      JoinKeepsNear(rules[0], p, k, regs);
      AllKeepNear(rules[1..], Apply(rules[0], p, k), k, regs);
    }
  }

  lemma {:induction false} PassKeepsNear(rules: seq<Rule>, p: seq<Op>, k: nat, regs: set<VReg>)
    requires AreRules(rules) && MayJoin(p, regs)
    ensures MayJoin(PassFrom(rules, p, k), regs)
    decreases |p| - k
  {
    if k < |p| {
      ApplyAllLength(rules, p, k);
      AllKeepNear(rules, p, k, regs);
      PassKeepsNear(rules, ApplyAll(rules, p, k), k + 1, regs);
    }
  }
}
