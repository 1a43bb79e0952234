/** The passes of jit_generate_code from liveness to register allocation, one after the other. */
module Pipeline {
  import opened JitOps
  import opened Machine
  import opened FlowAnalysis
  import opened Rewriting
  import opened DeadAssign
  import opened Arithmetic
  import opened JoinOps
  import opened JoinPasses
  import opened StoreOps
  import opened Hints
  import opened Hardware
  import opened Layout
  import opened Rmap
  import opened Allocation
  import opened Simulation
  import Allocator
  import FrameSlots
  import ImmRegister
  import LongImm
  import MovedRegisters

  // ---------- what the passes ask of a program ----------

  predicate StoreCodes(prev: Op, op: Op) {
    (IsAlu(op, ST) || IsAlu(op, STX)) && IsCode(prev, MOV, true) && Raw(StoredArg(op)) == Raw(prev.a1)
  }

  /** Where a MOV of an immediate is followed by a store of its target, which no path reads
      afterwards, the combined store is right. */
  ghost predicate StoreSafe(p: seq<Op>, k: nat)
    requires k + 1 < |p|
  {
    StoreCodes(p[k], p[k + 1]) && !ReachesUseAfter(p, Raw(p[k].a1), k + 1) ==> RightStore(p[k], p[k + 1])
  }

  ghost predicate StoresSafe(p: seq<Op>) {
    forall k: nat {:trigger StoreSafe(p, k)} | k + 1 < |p| :: StoreSafe(p, k)
  }

  /** Dead-assignment removal, if it is on, leaves op k: its target is read on some path, or it has
      none, or it sets the carry. */
  ghost predicate Survives(p: seq<Op>, k: nat, unused: bool)
    requires k < |p|
  {
    unused && p[k].a1.TReg? && !SetsCarry(p[k].code) ==> ReachesUseAfter(p, p[k].a1.reg, k)
  }

  /** The guard of get_related_op in terms of paths: the second op overwrites the first one's result
      or no path reads it after the second, and the second reads some register but number 0. */
  ghost predicate Guarded(p: seq<Op>, k: nat)
    requires k + 1 < |p|
  {
    var op, next := p[k], p[k + 1];
    && (Raw(next.a1) == Raw(op.a1) || !ReachesUseAfter(p, Raw(op.a1), k + 1))
    && (ReadsNonZero(next.a1) || ReadsNonZero(next.a2) || ReadsNonZero(next.a3))
  }

  /** The codes that join_2ops is called with for each join. */
  predicate CodesOf(j: Join, op: Op, next: Op) {
    match j
    case MULI_ADDI => (IsCode(op, MUL, true) || IsCode(op, LSH, true)) && IsCode(next, ADD, true)
    case MULI_ADDR => (IsCode(op, MUL, true) || IsCode(op, LSH, true)) && IsCode(next, ADD, false)
    case MULI_ORI => (IsCode(op, MUL, true) || IsCode(op, LSH, true)) && IsCode(next, OR, true)
    case ADDR_ADDI => IsCode(op, ADD, false) && (IsCode(next, ADD, true) || IsCode(next, SUB, true))
    case ADDI_ADDR => (IsCode(op, ADD, true) || IsCode(op, SUB, true)) && IsCode(next, ADD, false)
  }

  /** What a multiplication or a shift to the left by this immediate scales by, if the address unit can
      do it. */
  function ScaleOf(op: Op): int {
    var k := Raw(op.a3);
    if IsCode(op, MUL, true) then (if k == 2 || k == 4 || k == 8 then k else 0)
    else if k == 1 then 2 else if k == 2 then 4 else if k == 3 then 8 else 0
  }

  /** When join_2ops does not give up: there is such a scale, an OR stays below it, and a sum has two
      different operands. */
  predicate Foldable(j: Join, op: Op, next: Op) {
    match j
    case MULI_ADDI => ScaleOf(op) > 0
    case MULI_ORI => 0 < Raw(next.a3) < ScaleOf(op)
    case MULI_ADDR => ScaleOf(op) > 0 && Raw(next.a2) != Raw(next.a3)
    case _ => true
  }

  lemma FoldsExactly(j: Join, op: Op, next: Op)
    requires CodesOf(j, op, next)
    ensures Joined(j, op, next).Some? <==> Foldable(j, op, next)
  {
    assert Pow2(1) == 2 && Pow2(2) == 4 && Pow2(3) == 8;
  }

  /** A join that finds its codes and does not give up is right. */
  predicate JoinRight(j: Join, op: Op, next: Op) {
    CodesOf(j, op, next) && Foldable(j, op, next) ==> Right(j, op, next)
  }

  ghost predicate PairRight(op: Op, next: Op) {
    forall j {:trigger JoinRight(j, op, next)} :: JoinRight(j, op, next)
  }

  /** Where the guard of the joins holds, joining is right. */
  ghost predicate JoinSafe(p: seq<Op>, k: nat, unused: bool)
    requires k + 1 < |p|
  {
    Survives(p, k, unused) && Survives(p, k + 1, unused) && Guarded(p, k) ==> PairRight(p[k], p[k + 1])
  }

  ghost predicate JoinsSafe(p: seq<Op>, unused: bool) {
    forall k: nat {:trigger JoinSafe(p, k, unused)} | k + 1 < |p| :: JoinSafe(p, k, unused)
  }

  /** The rewrites that are switched on are right wherever their guards hold. */
  ghost predicate Safe(p: seq<Op>, unused: bool, join: bool) {
    StoresSafe(p) && (join ==> NotAtEnd(p) && JoinsSafe(p, unused))
  }

  ghost predicate WellTyped(op: Op) {
    && TypedOp(op) && TypedStore(op)
    && (op.code.ALU? && Stores(op.code.op) ==> !op.a1.TReg?)
  }

  /** A call-free program of integer ops as the builder macros make it, starting with the
      CODESTART op. */
  ghost predicate Compilable(p: seq<Op>) {
    && PlainProgram(p) && |p| > 0 && p[0].code.CODESTART?
    && forall i: nat {:trigger p[i]} | i < |p| :: WellTyped(p[i])
  }

  // ---------- ops that only lose fields nobody runs ----------

  /** The same op with other live sets, position and hints. */
  predicate SameOp(op: Op, o: Op) {
    o == op.(liveIn := o.liveIn, liveOut := o.liveOut, pos := o.pos, hints := o.hints)
  }

  predicate SameCode(p: seq<Op>, q: seq<Op>) {
    |p| == |q| && forall i {:trigger q[i]} | 0 <= i < |p| :: SameOp(p[i], q[i])
  }

  lemma SameCodeFind(p: seq<Op>, q: seq<Op>, id: nat)
    requires SameCode(p, q)
    ensures Find(q, id) == Find(p, id)
  {
    forall i | 0 <= i < |p| ensures IsTarget(q[i], id) == IsTarget(p[i], id) {
      assert SameOp(p[i], q[i]);
    }
    SameTargets(p, q, id);
  }

  lemma SameCodeStep(sem: Sem, p: seq<Op>, q: seq<Op>, s: State)
    requires SameCode(p, q)
    ensures Step(sem, q, s) == Step(sem, p, s)
  {
    if s.Running? && s.pc < |p| {
      assert SameOp(p[s.pc], q[s.pc]);
      if p[s.pc].jmp.Some? { SameCodeFind(p, q, p[s.pc].jmp.value); }
    }
  }

  lemma {:induction false} SameCodeRun(sem: Sem, p: seq<Op>, q: seq<Op>, s: State, n: nat)
    requires SameCode(p, q)
    ensures Run(sem, q, s, n) == Run(sem, p, s, n)
  {
    if n > 0 {
      SameCodeRun(sem, p, q, s, n - 1);
      SameCodeStep(sem, p, q, Run(sem, p, s, n - 1));
    }
  }

  lemma SameCodeCompilable(p: seq<Op>, q: seq<Op>)
    requires SameCode(p, q) && Compilable(p)
    ensures Compilable(q)
  {
    SameCodePlain(p, q);
    assert SameOp(p[0], q[0]);
    forall i: nat | i < |q| ensures WellTyped(q[i]) {
      assert SameOp(p[i], q[i]) && WellTyped(p[i]);
    }
  }

  lemma SameCodePlain(p: seq<Op>, q: seq<Op>)
    requires SameCode(p, q) && PlainProgram(p)
    ensures PlainProgram(q)
  {
    forall i | 0 <= i < |q| ensures WellFormedOp(q, q[i]) && Plain(q[i]) {
      assert SameOp(p[i], q[i]) && WellFormedOp(p, p[i]) && Plain(p[i]);
      if p[i].jmp.Some? { SameCodeFind(p, q, p[i].jmp.value); }
    }
    forall i, j, id | 0 <= i < j < |q| ensures !(IsTarget(q[i], id) && IsTarget(q[j], id)) {
      assert SameOp(p[i], q[i]) && SameOp(p[j], q[j]);
      assert !(IsTarget(p[i], id) && IsTarget(p[j], id));
    }
    forall i | 0 < i < |q| ensures EntersProlog(q, i) {
      assert SameOp(p[i], q[i]) && SameOp(p[i - 1], q[i - 1]) && SameOp(p[0], q[0]) && EntersProlog(p, i);
    }
  }

  // ---------- rewritten ops ----------

  lemma ShapePlain(p: seq<Op>, q: seq<Op>)
    requires SameShape(p, q) && PlainProgram(p)
    ensures PlainProgram(q)
  {
    ShapeWellFormed(p, q);
    forall i | 0 <= i < |q| ensures Plain(q[i]) {
      assert SameShapeAt(p[i], q[i]) && Plain(p[i]);
    }
    forall i | 0 < i < |q| ensures EntersProlog(q, i) {
      assert SameShapeAt(p[i], q[i]) && SameShapeAt(p[i - 1], q[i - 1]) && SameShapeAt(p[0], q[0])
        && EntersProlog(p, i);
    }
  }

  /** What dropping and store combining make of an op: itself, a NOP, or a store of an immediate. */
  ghost predicate Derived(op: Op, o: Op) {
    && o.liveIn == op.liveIn && o.liveOut == op.liveOut
    && (o == op || IsNop(o) || ((IsAlu(o, STI) || IsAlu(o, STXI)) && !o.a1.TReg?))
  }

  ghost predicate AllDerived(p: seq<Op>, q: seq<Op>) {
    |p| == |q| && forall i {:trigger q[i]} | 0 <= i < |p| :: Derived(p[i], q[i])
  }

  lemma DerivedTrans(p: seq<Op>, q: seq<Op>, r: seq<Op>)
    requires AllDerived(p, q) && AllDerived(q, r)
    ensures AllDerived(p, r)
  {
    forall i | 0 <= i < |p| ensures Derived(p[i], r[i]) {
      assert Derived(p[i], q[i]) && Derived(q[i], r[i]);
    }
  }

  lemma DropDerives(p: seq<Op>)
    ensures AllDerived(p, DropAll(p))
  {
    forall i | 0 <= i < |p| ensures Derived(p[i], DropAll(p)[i]) {}
  }

  lemma StoreStepDerives(p: seq<Op>, i: nat)
    requires StoresHaveNoTarget(p)
    ensures AllDerived(p, StoreStep(p, i)) && StoresHaveNoTarget(StoreStep(p, i))
  {
    var q := StoreStep(p, i);
    forall k | 0 <= k < |p| ensures Derived(p[k], q[k]) {}
  }

  lemma {:induction false} StoresDerive(p: seq<Op>, i: nat)
    requires StoresHaveNoTarget(p)
    ensures AllDerived(p, StoresFrom(p, i))
    decreases |p| - i
  {
    if i < |p| {
      StoreStepDerives(p, i);
      StoresDerive(StoreStep(p, i), i + 1);
      DerivedTrans(p, StoreStep(p, i), StoresFrom(p, i));
    } else {
      forall k | 0 <= k < |p| ensures Derived(p[k], p[k]) {}
    }
  }

  lemma DerivedCompilable(p: seq<Op>, q: seq<Op>)
    requires AllDerived(p, q) && SameShape(p, q) && Compilable(p)
    ensures Compilable(q)
  {
    ShapePlain(p, q);
    assert SameShapeAt(p[0], q[0]);
    forall i: nat | i < |q| ensures WellTyped(q[i]) {
      assert Derived(p[i], q[i]) && WellTyped(p[i]);
    }
  }

  // ---------- the conditions on paths against the guards of the code ----------

  lemma StoreSafeAt(p: seq<Op>, l: Lives, k: nat)
    requires Exact(p, l) && k + 1 < |p|
    ensures var q := WithLive(p, l);
      StoreSafe(p, k) <==> (Storable(q[k], q[k + 1]) ==> RightStore(q[k], q[k + 1]))
  {
    assert Raw(p[k].a1) in l[k + 1].out <==> ReachesUseAfter(p, Raw(p[k].a1), k + 1);
  }

  lemma StoresAreTyped(p: seq<Op>, l: Lives)
    requires Compilable(p) && |l| == |p|
    ensures forall i: nat {:trigger TypedStore(WithLive(p, l)[i])} | i < |p| :: TypedStore(WithLive(p, l)[i])
  {
    forall i: nat | i < |p| ensures TypedStore(WithLive(p, l)[i]) {
      assert WellTyped(p[i]);
    }
  }

  lemma SafeStoresAreRight(p: seq<Op>, l: Lives)
    requires Compilable(p) && Exact(p, l) && StoresSafe(p)
    ensures StoresRight(WithLive(p, l))
  {
    var q := WithLive(p, l);
    StoresAreTyped(p, l);
    forall i: nat | 0 < i < |q| && Storable(q[i - 1], q[i]) ensures RightStore(q[i - 1], q[i]) {
      assert StoreSafe(p, i - 1);
      StoreSafeAt(p, l, i - 1);
    }
  }

  lemma RightStoresAreSafe(p: seq<Op>, l: Lives)
    requires Exact(p, l) && StoresRight(WithLive(p, l))
    ensures StoresSafe(p)
  {
    var q := WithLive(p, l);
    forall k: nat | k + 1 < |p| ensures StoreSafe(p, k) {
      var i := k + 1;
      assert Storable(q[i - 1], q[i]) ==> RightStore(q[i - 1], q[i]);
      StoreSafeAt(p, l, k);
    }
  }

  /** With exact live sets the store pass is right exactly when the program is safe for it. */
  lemma StoresSafeExactly(p: seq<Op>, l: Lives)
    requires Compilable(p) && Exact(p, l)
    ensures StoresSafe(p) <==> StoresRight(WithLive(p, l))
  {
    if StoresSafe(p) { SafeStoresAreRight(p, l); }
    if StoresRight(WithLive(p, l)) { RightStoresAreSafe(p, l); }
  }

  lemma DropKeepsStores(p: seq<Op>)
    requires StoresRight(p)
    ensures StoresRight(DropAll(p))
  {
    var q := DropAll(p);
    forall i: nat | i < |q| ensures TypedStore(q[i]) {
      assert TypedStore(p[i]);
    }
    forall i: nat | 0 < i < |q| && Storable(q[i - 1], q[i]) ensures RightStore(q[i - 1], q[i]) {
      assert q[i] == p[i] && q[i - 1] == p[i - 1];
    }
  }

  predicate JoinCode(op: Op) {
    op.code.ALU? && JoinOps.Joinable(op.code.op)
  }

  /** The store pass leaves the ops that the joins look for alone. */
  lemma {:induction false} StoresLeave(p: seq<Op>, i: nat, k: nat)
    requires k < |p|
    ensures |StoresFrom(p, i)| == |p|
    ensures JoinCode(p[k]) ==> StoresFrom(p, i)[k] == p[k]
    ensures JoinCode(StoresFrom(p, i)[k]) ==> StoresFrom(p, i)[k] == p[k]
    decreases |p| - i
  {
    if i < |p| {
      StoreStepLeaves(p, i, k);
      StoresLeave(StoreStep(p, i), i + 1, k);
    }
  }

  lemma StoreStepLeaves(p: seq<Op>, i: nat, k: nat)
    requires k < |p|
    ensures |StoreStep(p, i)| == |p|
    ensures JoinCode(p[k]) || JoinCode(StoreStep(p, i)[k]) ==> StoreStep(p, i)[k] == p[k]
  {
  }

  /** What the joins meet at k: the op, unless it was dropped. */
  lemma FrontLeaves(p: seq<Op>, l: Lives, k: nat, unused: bool)
    requires Exact(p, l) && k < |p|
    ensures var p1, q := WithLive(p, l), AfterStores(WithLive(p, l), unused);
      && |q| == |p| && (JoinCode(q[k]) ==> q[k] == p1[k] && Survives(p, k, unused))
      && (JoinCode(p[k]) && Survives(p, k, unused) ==> q[k] == p1[k])
  {
    var p1 := WithLive(p, l);
    StoresLeave(if unused then DropAll(p1) else p1, 0, k);
    if p[k].a1.TReg? {
      assert p[k].a1.reg in l[k].out <==> ReachesUseAfter(p, p[k].a1.reg, k);
    }
  }

  /** The rule that tries join j on two ops with its codes. */
  function RuleOf(j: Join, op: Op, next: Op): Rule
    requires CodesOf(j, op, next)
  {
    Rule(op.code.op, op.imm, next.code.op, next.imm, j)
  }

  lemma RulesAreCodes(r: Rule, op: Op, next: Op)
    requires IsRule(r) && IsCode(op, r.first, r.firstImm) && IsCode(next, r.second, r.secondImm)
    ensures CodesOf(r.join, op, next) && r == RuleOf(r.join, op, next) && JoinCode(op) && JoinCode(next)
  {
  }

  lemma CodesHaveRule(j: Join, op: Op, next: Op)
    requires CodesOf(j, op, next)
    ensures IsRule(RuleOf(j, op, next)) && JoinCode(op) && JoinCode(next)
  {
    assert RuleOf(j, op, next) in ADDMUL_RULES + ADDIMM_RULES;
  }

  lemma SamePairRight(op: Op, next: Op, o: Op, n: Op, j: Join)
    requires SameOp(op, o) && SameOp(next, n)
    ensures JoinRight(j, op, next) <==> JoinRight(j, o, n)
    ensures CodesOf(j, op, next) && Joined(j, op, next).Some? <==> CodesOf(j, o, n) && Joined(j, o, n).Some?
  {
  }

  /** A rule that fires at k does so on the two ops as they are in the program, under its guard. */
  lemma FiresUnderGuard(p: seq<Op>, l: Lives, k: nat, unused: bool, r: Rule)
    requires Compilable(p) && Exact(p, l) && k + 1 < |p| && IsRule(r)
    requires var q := AfterStores(WithLive(p, l), unused); |q| == |p| && Fires(r, q[k], q[k + 1])
    ensures Survives(p, k, unused) && Survives(p, k + 1, unused) && Guarded(p, k)
    ensures var q := AfterStores(WithLive(p, l), unused); PairRight(p[k], p[k + 1]) ==> Right(r.join, q[k], q[k + 1])
  {
    var p1, q := WithLive(p, l), AfterStores(WithLive(p, l), unused);
    FrontLeaves(p, l, k, unused);
    FrontLeaves(p, l, k + 1, unused);
    RulesAreCodes(r, q[k], q[k + 1]);
    SamePairRight(p[k], p[k + 1], q[k], q[k + 1], r.join);
    FoldsExactly(r.join, q[k], q[k + 1]);
    assert Raw(p[k].a1) in l[k + 1].out <==> ReachesUseAfter(p, Raw(p[k].a1), k + 1);
    assert PairRight(p[k], p[k + 1]) ==> JoinRight(r.join, p[k], p[k + 1]);
  }

  /** Under its guard a join that finds its codes is tried. */
  lemma GuardFires(p: seq<Op>, l: Lives, k: nat, unused: bool, j: Join)
    requires Compilable(p) && Exact(p, l) && k + 1 < |p| && Survives(p, k, unused) && Survives(p, k + 1, unused)
    requires Guarded(p, k) && CodesOf(j, p[k], p[k + 1]) && Joined(j, p[k], p[k + 1]).Some?
    ensures var q := AfterStores(WithLive(p, l), unused);
      && |q| == |p| && SameOp(p[k], q[k]) && SameOp(p[k + 1], q[k + 1])
      && CodesOf(j, q[k], q[k + 1]) && Fires(RuleOf(j, q[k], q[k + 1]), q[k], q[k + 1])
  {
    var q := AfterStores(WithLive(p, l), unused);
    CodesHaveRule(j, p[k], p[k + 1]);
    FrontLeaves(p, l, k, unused);
    FrontLeaves(p, l, k + 1, unused);
    assert Raw(p[k].a1) in l[k + 1].out <==> ReachesUseAfter(p, Raw(p[k].a1), k + 1);
    SamePairRight(p[k], p[k + 1], q[k], q[k + 1], j);
  }

  lemma GuardedIsRight(p: seq<Op>, l: Lives, k: nat, unused: bool, j: Join)
    requires Compilable(p) && Exact(p, l) && k + 1 < |p| && Survives(p, k, unused) && Survives(p, k + 1, unused)
    requires Guarded(p, k)
    requires var q := AfterStores(WithLive(p, l), unused); |q| == |p| && RightAt(q, k)
    ensures JoinRight(j, p[k], p[k + 1])
  {
    if CodesOf(j, p[k], p[k + 1]) && Foldable(j, p[k], p[k + 1]) {
      FoldsExactly(j, p[k], p[k + 1]);
      var q := AfterStores(WithLive(p, l), unused);
      GuardFires(p, l, k, unused, j);
      CodesHaveRule(j, q[k], q[k + 1]);
      assert Right(j, q[k], q[k + 1]);
      SamePairRight(p[k], p[k + 1], q[k], q[k + 1], j);
    }
  }

  /** The joins are right wherever a rule fires in the list they get exactly when the program is
      safe for them. */
  lemma JoinsSafeExactly(p: seq<Op>, l: Lives, unused: bool)
    requires Compilable(p) && Exact(p, l)
    ensures JoinsSafe(p, unused) <==> JoinsRight(AfterStores(WithLive(p, l), unused))
  {
    var q := AfterStores(WithLive(p, l), unused);
    FrontLeaves(p, l, 0, unused);
    if JoinsSafe(p, unused) {
      forall k: nat | k + 1 < |q| ensures RightAt(q, k) {
        forall r | IsRule(r) && Fires(r, q[k], q[k + 1]) ensures Right(r.join, q[k], q[k + 1]) {
          FiresUnderGuard(p, l, k, unused, r);
          assert JoinSafe(p, k, unused);
        }
      }
    }
    if JoinsRight(q) {
      forall k: nat | k + 1 < |p| ensures JoinSafe(p, k, unused) {
        assert RightAt(q, k);
        if Survives(p, k, unused) && Survives(p, k + 1, unused) && Guarded(p, k) {
          var op, next := p[k], p[k + 1];
          forall j ensures JoinRight(j, op, next) {
            GuardedIsRight(p, l, k, unused, j);
          }
        }
      }
    }
  }

  lemma ReadyToJoin(p: seq<Op>, l: Lives)
    requires LiveProgram(p, l) && JoinsRight(p)
    ensures JoinPasses.Joinable(p, l)
  {
    forall i: nat | i < |p| ensures TypedOp(p[i]) {
      assert WellTyped(p[i]);
    }
  }

  lemma NoStoreTargets(p: seq<Op>)
    requires Compilable(p)
    ensures StoresHaveNoTarget(p)
  {
    forall i | 0 <= i < |p| && p[i].code.ALU? && Stores(p[i].code.op) ensures !p[i].a1.TReg? {
      assert WellTyped(p[i]);
    }
  }

  // ---------- the passes in a row ----------

  function AfterStores(p: seq<Op>, unused: bool): seq<Op> {
    StoresFrom(if unused then DropAll(p) else p, 0)
  }

  function AfterJoins(p: seq<Op>): seq<Op> {
    PassFrom(ADDIMM_RULES, PassFrom(ADDMUL_RULES, p, 0), 0)
  }

  ghost predicate LiveProgram(p: seq<Op>, l: Lives) {
    Compilable(p) && Closed(p, l) && Recorded(p, l)
  }

  lemma DropKeeps(sem: Sem, p: seq<Op>, l: Lives)
    requires Standard(sem) && LiveProgram(p, l)
    ensures LiveProgram(DropAll(p), l) && AllDerived(p, DropAll(p)) && MeansTheSame(sem, p, DropAll(p))
  {
    NoStoreTargets(p);
    DropPreservesMeaning(sem, p, l);
    DropKeepsLiveness(p, l);
    DropDerives(p);
    DerivedCompilable(p, DropAll(p));
  }

  lemma StorePassKeeps(sem: Sem, p: seq<Op>, l: Lives) returns (m: Lives)
    requires Standard(sem) && LiveProgram(p, l) && StoresRight(p)
    ensures var q := StoresFrom(p, 0);
      LiveProgram(q, m) && AllDerived(p, q) && MeansTheSame(sem, p, q) && Below(m, l)
  {
    m := StoresKeep(sem, p, l, 0);
    NoStoreTargets(p);
    StoresDerive(p, 0);
    DerivedCompilable(p, StoresFrom(p, 0));
  }

  lemma FrontKeeps(sem: Sem, p: seq<Op>, l: Lives, unused: bool) returns (m: Lives)
    requires Standard(sem) && LiveProgram(p, l) && StoresRight(p)
    ensures var q := AfterStores(p, unused);
      LiveProgram(q, m) && AllDerived(p, q) && MeansTheSame(sem, p, q) && Below(m, l)
  {
    if unused {
      DropKeeps(sem, p, l);
      DropKeepsStores(p);
      m := StorePassKeeps(sem, DropAll(p), l);
      MeansTrans(sem, p, DropAll(p), AfterStores(p, unused));
      DerivedTrans(p, DropAll(p), AfterStores(p, unused));
    } else {
      m := StorePassKeeps(sem, p, l);
    }
  }

  lemma JoinsKeep(sem: Sem, p: seq<Op>, l: Lives)
    requires Standard(sem) && LiveProgram(p, l) && JoinsRight(p)
    ensures MeansTheSame(sem, p, AfterJoins(p)) && PlainProgram(AfterJoins(p))
  {
    ReadyToJoin(p, l);
    var q := PassFrom(ADDMUL_RULES, p, 0);
    var m := PassKeeps(sem, ADDMUL_RULES, p, l, 0);
    var m' := PassKeeps(sem, ADDIMM_RULES, q, m, 0);
    MeansTrans(sem, p, q, AfterJoins(p));
    ShapePlain(p, AfterJoins(p));
  }

  // ---------- same results ----------

  /** The program returns a value from a state exactly when the allocated code does. */
  ghost predicate Agrees(sem: Sem, p: seq<Op>, x: Plan, e: nat, regs: map<VReg, Word>, st: Store, w: World,
                         value: Word, w': World)
    requires x.Shaped() && e < |x.p|
  {
    (exists n: nat :: Run(sem, p, Running(e, regs, w), n) == Halted(value, w'))
    <==> (exists m: nat :: HRun(sem, x.Output(), HRunning(Start(x.bs, e), st, w), m) == HHalted(value, w'))
  }

  ghost predicate Starts(p: seq<Op>, e: nat, regs: map<VReg, Word>, st: Store) {
    && e < |p| && (e == 0 || p[e].code.PROLOG?)
    && forall v {:trigger Read(regs, v)} :: Read(regs, v) == Read(st.slots, v)
  }

  /** Entered at the start or at any function, with any registers, memory and carry. */
  ghost predicate SameResults(p: seq<Op>, x: Plan) {
    && x.Shaped() && |x.p| == |p|
    && forall sem, e: nat, regs, st, w, value, w' {:trigger Agrees(sem, p, x, e, regs, st, w, value, w')} ::
      Standard(sem) && Starts(p, e, regs, st) ==> Agrees(sem, p, x, e, regs, st, w, value, w')
  }

  lemma SameHalts(sem: Sem, p: seq<Op>, q: seq<Op>, s: State, value: Word, w': World)
    requires forall n: nat {:trigger Run(sem, p, s, n)} :: SamePlace(Run(sem, p, s, n), Run(sem, q, s, n))
    ensures (exists n: nat :: Run(sem, p, s, n) == Halted(value, w'))
       <==> (exists n: nat :: Run(sem, q, s, n) == Halted(value, w'))
  {
    if n: nat :| Run(sem, q, s, n) == Halted(value, w') {
      assert SamePlace(Run(sem, p, s, n), Run(sem, q, s, n));
    }
    if n: nat :| Run(sem, p, s, n) == Halted(value, w') {
      assert SamePlace(Run(sem, p, s, n), Run(sem, q, s, n));
    }
  }

  /** A solution for the rewritten list, inside what the allocator's list records. */
  ghost predicate Inside(m: Lives, q: seq<Op>) {
    |m| == |q| && forall i {:trigger m[i]} | 0 <= i < |q| :: m[i].into <= q[i].liveIn && m[i].out <= q[i].liveOut
  }

  lemma SameCodeSolves(p: seq<Op>, q: seq<Op>, m: Lives)
    requires SameCode(p, q) && Closed(p, m) && Inside(m, q)
    ensures Solves(q, m)
  {
    forall i | 0 <= i < |q| ensures SolvesAt(q[i], m[i]) {
      assert SameOp(p[i], q[i]) && InOf(p[i], m[i].out) <= m[i].into;
    }
    forall i: nat, k: nat | Follows(q, i, k) ensures m[k].into <= m[i].out {
      assert SameOp(p[i], q[i]);
      if p[i].jmp.Some? { SameCodeFind(p, q, p[i].jmp.value); }
      assert Follows(p, i, k);
    }
  }

  /** The allocated code was made from q, a list with p's code. */
  ghost predicate MadeFrom(x: Plan, q: seq<Op>) {
    && x.Shaped() && x.Assigned() && x.Built() && x.FreshIds() && PlainProgram(x.p) && SameCode(q, x.p)
  }

  /** Every mask or overflow branch finds its own map at its target, on what is recorded live there
      (see TestBranches.TestExactly). */
  ghost predicate TestsMeet(x: Plan)
    requires x.Shaped()
  {
    forall i {:trigger x.Target(i)} | 0 <= i < |x.p| && x.p[i].code.TEST? && Goto(x.p, x.p[i]) < |x.p| ::
      Agree(M(x.a[i].op.regmap), M(x.Target(i).regmap), x.p[Goto(x.p, x.p[i])].liveIn)
  }

  predicate NoTests(p: seq<Op>) {
    forall i {:trigger p[i]} | 0 <= i < |p| :: !p[i].code.TEST?
  }

  lemma NothingToMeet(p: seq<Op>, x: Plan)
    requires NoTests(p) && MadeFor(x, p)
    ensures TestsMeet(x)
  {
    forall i | 0 <= i < |x.p| ensures !x.p[i].code.TEST? {
      assert SameJump(p[i], x.p[i]);
    }
  }

  lemma ReadyWith(p: seq<Op>, q: seq<Op>, x: Plan, m: Lives)
    requires Compilable(p) && SameShape(p, q) && MadeFrom(x, q) && Closed(q, m) && Inside(m, x.p) && TestsMeet(x)
    ensures Ready(x, m)
  {
    SameCodeSolves(q, x.p, m);
  }

  lemma EntersSame(p: seq<Op>, q: seq<Op>, x: Plan, m: Lives, e: nat, regs: map<VReg, Word>, st: Store)
    requires Compilable(p) && SameShape(p, q) && MadeFrom(x, q) && |m| == |q| && Starts(p, e, regs, st)
    ensures Entry(x, m, e, regs, st) && EntryPoint(p, e)
  {
    assert SameOp(q[e], x.p[e]) && SameShapeAt(p[e], q[e]);
    forall v | v in m[e].into ensures Read(regs, v) == Read(st.slots, v) {}
  }

  lemma SameCodeHalts(sem: Sem, p: seq<Op>, q: seq<Op>, s: State, value: Word, w': World)
    requires SameCode(p, q)
    ensures (exists n: nat :: Run(sem, p, s, n) == Halted(value, w'))
       <==> (exists n: nat :: Run(sem, q, s, n) == Halted(value, w'))
  {
    forall n: nat ensures Run(sem, q, s, n) == Run(sem, p, s, n) {
      SameCodeRun(sem, p, q, s, n);
    }
  }

  /** From the source program over the analysed list p1 and the rewritten list q to the code. */
  lemma AgreesThrough(sem: Sem, p: seq<Op>, p1: seq<Op>, q: seq<Op>, x: Plan, m: Lives, e: nat,
                      regs: map<VReg, Word>, st: Store, w: World, value: Word, w': World)
    requires SameCode(p, p1) && Compilable(p1) && MeansTheSame(sem, p1, q) && MadeFrom(x, q) && Closed(q, m)
      && Inside(m, x.p)
    requires Starts(p1, e, regs, st) && TestsMeet(x)
    ensures Agrees(sem, p, x, e, regs, st, w, value, w')
  {
    ReadyWith(p1, q, x, m);
    EntersSame(p1, q, x, m, e, regs, st);
    var s := Running(e, regs, w);
    SameCodeHalts(sem, p, p1, s, value, w');
    assert SameMeaning(sem, p1, q, e);
    SameHalts(sem, p1, q, s, value, w');
    SameCodeHalts(sem, q, x.p, s, value, w');
    AllocationPreservesMeaning(x, m, sem, e, regs, st, w, value, w');
  }

  /** Without a join the recorded live sets are the analysed ones. */
  lemma FrontInside(p: seq<Op>, l: Lives, q: seq<Op>, m: Lives, r: seq<Op>)
    requires |l| == |p| && AllDerived(WithLive(p, l), q) && Below(m, l) && SameRecords(q, r)
    ensures Inside(m, r)
  {
    forall i | 0 <= i < |r| ensures m[i].into <= r[i].liveIn && m[i].out <= r[i].liveOut {
      assert Derived(WithLive(p, l)[i], q[i]) && m[i].into <= l[i].into && m[i].out <= l[i].out;
      assert SameRecord(q[i], r[i]);
    }
  }

  /** Only position, hints and what the analysis records differ. */
  ghost predicate SameRecords(q: seq<Op>, r: seq<Op>) {
    |q| == |r| && forall i {:trigger r[i]} | 0 <= i < |q| :: SameRecord(q[i], r[i])
  }

  ghost predicate SameRecord(q: Op, r: Op) {
    r.liveIn == q.liveIn && r.liveOut == q.liveOut && SameOp(q, r)
  }

  lemma RecordsAreCode(q: seq<Op>, r: seq<Op>)
    requires SameRecords(q, r)
    ensures SameCode(q, r)
  {
    forall i | 0 <= i < |q| ensures SameOp(q[i], r[i]) {
      assert SameRecord(q[i], r[i]);
    }
  }

  /** WithLive records the sets and changes nothing else. */
  lemma WithLiveSame(p: seq<Op>, l: Lives)
    requires |l| == |p|
    ensures SameCode(p, WithLive(p, l)) && Recorded(WithLive(p, l), l) && Inside(l, WithLive(p, l))
  {
    forall i | 0 <= i < |p| ensures SameOp(p[i], WithLive(p, l)[i]) {}
  }

  lemma AnalysedIsLive(p: seq<Op>, l: Lives)
    requires Compilable(p) && Closed(p, l)
    ensures LiveProgram(WithLive(p, l), l)
  {
    var q := WithLive(p, l);
    WithLiveSame(p, l);
    SameCodeCompilable(p, q);
    forall i: nat | i < |q| ensures InOf(q[i], l[i].out) <= l[i].into {
      assert InOf(p[i], l[i].out) <= l[i].into;
    }
    forall i: nat, j: nat | Follows(q, i, j) ensures l[j].into <= l[i].out {
      WithLiveFollows(p, l, i, j);
      assert Follows(p, i, j);
    }
  }

  lemma ResultsWithoutJoin(p: seq<Op>, l: Lives, unused: bool, x: Plan)
    requires Compilable(p) && Closed(p, l) && StoresRight(WithLive(p, l))
    requires var q := AfterStores(WithLive(p, l), unused); MadeFrom(x, q) && SameRecords(q, x.p) && TestsMeet(x)
    ensures SameResults(p, x)
  {
    var p1, q := WithLive(p, l), AfterStores(WithLive(p, l), unused);
    AnalysedIsLive(p, l);
    WithLiveSame(p, l);
    StandardExists();
    var m0 := FrontKeeps(ReferenceSem(), p1, l, unused);
    forall sem, e: nat, regs, st, w, value, w' | Standard(sem) && Starts(p, e, regs, st)
      ensures Agrees(sem, p, x, e, regs, st, w, value, w')
    {
      var m := FrontKeeps(sem, p1, l, unused);
      FrontInside(p, l, q, m, x.p);
      assert SameOp(p[e], p1[e]);
      AgreesThrough(sem, p, p1, q, x, m, e, regs, st, w, value, w');
    }
  }

  lemma ResultsWithJoin(p: seq<Op>, l: Lives, unused: bool, l': Lives, x: Plan)
    requires Compilable(p) && Closed(p, l) && StoresRight(WithLive(p, l))
    requires JoinsRight(AfterStores(WithLive(p, l), unused))
    requires var q := AfterJoins(AfterStores(WithLive(p, l), unused));
      Closed(q, l') && MadeFrom(x, q) && Inside(l', x.p) && TestsMeet(x)
    ensures SameResults(p, x)
  {
    var p1, q3 := WithLive(p, l), AfterStores(WithLive(p, l), unused);
    var q := AfterJoins(q3);
    AnalysedIsLive(p, l);
    WithLiveSame(p, l);
    StandardExists();
    var m0 := FrontKeeps(ReferenceSem(), p1, l, unused);
    JoinsKeep(ReferenceSem(), q3, m0);
    forall sem, e: nat, regs, st, w, value, w' | Standard(sem) && Starts(p, e, regs, st)
      ensures Agrees(sem, p, x, e, regs, st, w, value, w')
    {
      var m := FrontKeeps(sem, p1, l, unused);
      JoinsKeep(sem, q3, m);
      MeansTrans(sem, p1, q3, q);
      assert SameOp(p[e], p1[e]);
      AgreesThrough(sem, p, p1, q, x, l', e, regs, st, w, value, w');
    }
  }

  // ---------- jumps and marks ----------

  predicate JumpOrMark(op: Op) {
    op.code.BRANCH? || op.code.TEST? || op.code.JMP? || op.code.LABEL? || op.code.PATCH?
  }

  predicate SameJump(op: Op, o: Op) {
    o.jmp == op.jmp && (o.code == op.code || (!JumpOrMark(op) && !JumpOrMark(o)))
  }

  /** The same jumps and the same marks in the same places. */
  ghost predicate SameJumps(p: seq<Op>, q: seq<Op>) {
    |p| == |q| && forall i {:trigger q[i]} | 0 <= i < |p| :: SameJump(p[i], q[i])
  }

  /** The allocator made its plan for a list with p's jumps, whose other ops are p's or made by the
      rewrites. */
  ghost predicate MadeFor(x: Plan, p: seq<Op>) {
    && x.Shaped() && x.Assigned() && x.Built() && x.FreshIds() && PlainProgram(x.p) && SameJumps(p, x.p)
    && OpsKept(p, x.p)
  }

  lemma JumpsKept(p: seq<Op>, p1: seq<Op>, r: seq<Op>, x: Plan)
    requires SameCode(p, p1) && SameShape(p1, r) && OpsKept(p1, r) && MadeFrom(x, r)
    ensures MadeFor(x, p)
  {
    forall i | 0 <= i < |p| ensures SameJump(p[i], x.p[i]) && KeptOrMade(p[i], x.p[i]) {
      assert SameOp(p[i], p1[i]) && SameShapeAt(p1[i], r[i]) && SameOp(r[i], x.p[i]) && KeptOrMade(p1[i], r[i]);
    }
  }

  // ---------- the driver ----------

  /** r is q with its hints collected. */
  ghost predicate Hinted(q: seq<Op>, r: seq<Op>) {
    && |r| == |q|
    && forall k: nat {:trigger r[k]} | k < |q| :: r[k] == q[k].(pos := PosAt(q, k), hints := HintsAt(q, k))
  }

  /** The passes that are switched on, one after the other: the list that the allocator gets has their
      ops, with the live sets of the last analysis and its own hints.  Only if the joins have changed
      something the analysis is the one behind them. */
  ghost predicate PassedThrough(p: seq<Op>, l: Lives, unused: bool, join: bool, r: seq<Op>)
    requires |l| == |p|
  {
    var q := AfterStores(WithLive(p, l), unused);
    || (Hinted(q, r) && (join ==> AfterJoins(q) == q))
    || (join && exists l': Lives {:trigger Exact(AfterJoins(q), l')} ::
          Exact(AfterJoins(q), l') && Hinted(WithLive(AfterJoins(q), l'), r))
  }

  ghost predicate Driven(p: seq<Op>, unused: bool, join: bool, r: seq<Op>) {
    exists l: Lives {:trigger Exact(p, l)} :: Exact(p, l) && PassedThrough(p, l, unused, join, r)
  }

  lemma HintsAllocatable(q: seq<Op>, r: seq<Op>)
    requires PlainProgram(q) && Hinted(q, r)
    ensures SameRecords(q, r) && Allocatable(r)
  {
    forall i | 0 <= i < |q| ensures SameRecord(q[i], r[i]) {}
    RecordsAreCode(q, r);
    SameCodePlain(q, r);
    forall i | 0 <= i < |r| ensures HintsOk(r[i]) {
      HintsAreOk(q, r, i);
    }
  }

  lemma IdsStayBelow(p: seq<Op>, q: seq<Op>, r: seq<Op>, base: nat)
    requires Allocator.BelowId(p, base) && SameShape(p, q) && SameCode(q, r)
    ensures Allocator.BelowId(r, base)
  {
    forall i: nat, id: nat | i < |r| && IsTarget(r[i], id) ensures id < base {
      assert SameOp(q[i], r[i]) && SameShapeAt(p[i], q[i]);
      assert IsTarget(p[i], id);
    }
  }

  /** Started where `starts` says op e's code is, the code returns a value, carry and memory exactly
      when the list does from op e. */
  ghost predicate RunsAlike(sem: Sem, p: seq<Op>, code: seq<Op>, starts: seq<nat>, e: nat, regs: map<VReg, Word>,
                            st: Store, w: World, value: Word, w': World)
    requires e < |starts|
  {
    (exists n: nat :: Run(sem, p, Running(e, regs, w), n) == Halted(value, w'))
    <==> (exists m: nat :: HRun(sem, code, HRunning(starts[e], st, w), m) == HHalted(value, w'))
  }

  /** Entered at the start or at any function, with any registers, memory and carry, the list and
      the code return the same. */
  ghost predicate SameRuns(p: seq<Op>, code: seq<Op>, starts: seq<nat>) {
    && |starts| == |p|
    && forall sem, e: nat, regs, st, w, value, w'
         {:trigger RunsAlike(sem, p, code, starts, e, regs, st, w, value, w')} ::
      Standard(sem) && Starts(p, e, regs, st) ==> RunsAlike(sem, p, code, starts, e, regs, st, w, value, w')
  }

  ghost predicate AreStarts(starts: seq<nat>, x: Plan)
    requires x.Shaped()
  {
    |starts| == |x.p| && forall i {:trigger starts[i]} | 0 <= i < |x.p| :: starts[i] == Start(x.bs, i)
  }

  /** Where the allocator's back pointers lead, if they were `owners` before. */
  ghost predicate ArePointers(back: seq<nat>, owners: map<nat, Allocator.Owner>, x: Plan)
    requires x.Shaped()
  {
    back == Allocator.BackPointers(x.bs, Allocator.OwnersAfter(owners, x.p, x.a, x.ids, |x.p|))
  }

  lemma RealRuns(p: seq<Op>, x: Plan, starts: seq<nat>)
    requires SameResults(p, x) && AreStarts(starts, x)
    ensures SameRuns(p, x.Output(), starts)
  {
    forall sem, e: nat, regs, st, w, value, w' | Standard(sem) && Starts(p, e, regs, st)
      ensures RunsAlike(sem, p, x.Output(), starts, e, regs, st, w, value, w')
    {
      assert Agrees(sem, p, x, e, regs, st, w, value, w');
      assert starts[e] == Start(x.bs, e);
    }
  }

  /** Statistics and register allocation of a list that is ready for them. */
  method AllocateRegisters(q: seq<Op>, gp: seq<HwReg>, owners: map<nat, Allocator.Owner>, nextId: nat)
    returns (code: seq<Op>, starts: seq<nat>, back: seq<nat>, ghost x: Plan)
    requires PlainProgram(q) && ValidRegisters(gp) && Allocator.BelowId(q, nextId)
    ensures MadeFrom(x, q) && SameRecords(q, x.p) && code == x.Output() && AreStarts(starts, x)
    ensures ArePointers(back, owners, x) && Allocatable(x.p) && x.MadeWith(gp) && Hinted(q, x.p)
  {
    var table := new HintTable(q);
    table.CollectStatistics();
    HintsAllocatable(q, table.ops);
    IdsStayBelow(q, q, table.ops, nextId) by {
      forall i | 0 <= i < |q| ensures SameShapeAt(q[i], q[i]) {}
    }
    var a := new Allocator.Allocator(gp, table.ops, owners, nextId);
    x := a.AssignAll();
    var groups := a.groups;
    back := Allocator.BackPointers(groups, a.owners);
    code := Concat(groups);
    starts := seq(|groups|, i requires 0 <= i < |groups| => Start(groups, i));
    RecordsAreCode(q, x.p);
  }

  lemma FrontShape(p: seq<Op>, l: Lives, unused: bool) returns (m: Lives)
    requires Compilable(p) && Closed(p, l) && StoresRight(WithLive(p, l))
    ensures var p1, q := WithLive(p, l), AfterStores(WithLive(p, l), unused);
      && LiveProgram(p1, l) && LiveProgram(q, m) && AllDerived(p1, q) && SameShape(p1, q) && SameCode(p, p1)
      && OpsKept(p1, q)
  {
    AnalysedIsLive(p, l);
    WithLiveSame(p, l);
    StandardExists();
    var p1 := WithLive(p, l);
    m := FrontKeeps(ReferenceSem(), p1, l, unused);
    forall i | 0 <= i < |p| ensures KeptOrMade(p1[i], AfterStores(p1, unused)[i]) {
      assert Derived(p1[i], AfterStores(p1, unused)[i]);
    }
  }

  lemma SameListBelow(p: seq<Op>, q: seq<Op>, base: nat)
    requires Allocator.BelowId(p, base) && SameShape(p, q)
    ensures Allocator.BelowId(q, base)
  {
    IdsStayBelow(p, q, q, base) by {
      forall i | 0 <= i < |q| ensures SameOp(q[i], q[i]) {}
    }
  }

  lemma FrontReady(p: seq<Op>, l: Lives, unused: bool, base: nat) returns (m: Lives)
    requires Compilable(p) && Closed(p, l) && Exact(p, l) && StoresSafe(p) && Allocator.BelowId(p, base)
    ensures var p1, q := WithLive(p, l), AfterStores(WithLive(p, l), unused);
      && LiveProgram(p1, l) && LiveProgram(q, m) && AllDerived(p1, q) && SameShape(p1, q) && SameCode(p, p1)
      && OpsKept(p1, q) && StoresRight(p1) && Allocator.BelowId(p1, base)
  {
    StoresSafeExactly(p, l);
    m := FrontShape(p, l, unused);
    IdsStayBelow(p, p, WithLive(p, l), base) by {
      forall i | 0 <= i < |p| ensures SameShapeAt(p[i], p[i]) {}
    }
  }

  lemma JoinedShape(p: seq<Op>, q: seq<Op>, m: Lives)
    requires LiveProgram(q, m) && JoinsRight(q) && SameShape(p, q) && OpsKept(p, q)
    ensures PlainProgram(AfterJoins(q)) && SameShape(p, AfterJoins(q)) && OpsKept(p, AfterJoins(q))
  {
    PassMakes(ADDMUL_RULES, q, 0);
    KeptTrans(p, q, PassFrom(ADDMUL_RULES, q, 0));
    PassMakes(ADDIMM_RULES, PassFrom(ADDMUL_RULES, q, 0), 0);
    KeptTrans(p, PassFrom(ADDMUL_RULES, q, 0), AfterJoins(q));
    StandardExists();
    JoinsKeep(ReferenceSem(), q, m);
    ShapeTrans(p, q, AfterJoins(q));
  }

  lemma StillNotAtEnd(p: seq<Op>, p1: seq<Op>, q: seq<Op>)
    requires NotAtEnd(p) && SameCode(p, p1) && AllDerived(p1, q)
    ensures NotAtEnd(q)
  {
    if p != [] { assert SameOp(p[|p| - 1], p1[|p| - 1]) && Derived(p1[|p| - 1], q[|p| - 1]); }
  }

  method AnalyzeLiveness(p: seq<Op>) returns (q: seq<Op>, ghost l: Lives)
    requires WellFormed(p)
    ensures |l| == |p| && q == WithLive(p, l) && Closed(p, l) && Exact(p, l)
  {
    var flow := new FlowAnalysis(p);
    l := flow.Analyze();
    q := flow.Ops(l);
  }

  // ---------- which registers the code moves ----------

  lemma RecordsKept(q: seq<Op>, r: seq<Op>, regs: set<VReg>)
    requires SameRecords(q, r) && ImmRegister.Kept(q) && ImmRegister.Only(q, regs)
    ensures ImmRegister.Kept(r) && ImmRegister.Only(r, regs)
  {
    forall k: nat | k < |r| ensures ImmRegister.KeptAt(r, k) && Mentions(r[k]) <= regs {
      assert SameRecord(q[k], r[k]) && ImmRegister.KeptAt(q, k) && Mentions(q[k]) <= regs;
      if k > 0 { assert SameRecord(q[k - 1], r[k - 1]); }
    }
  }

  lemma StoresTidy(p: seq<Op>, l: Lives, unused: bool, regs: set<VReg>)
    requires Compilable(p) && Exact(p, l) && ImmRegister.Loaded(p) && ImmRegister.Only(p, regs)
    ensures ImmRegister.Tidy(AfterStores(WithLive(p, l), unused), regs)
  {
    forall i: nat | i < |p| ensures TypedStore(p[i]) {
      assert WellTyped(p[i]);
    }
    var q := WithLive(p, l);
    ImmRegister.AnalysedIsTidy(p, l, regs);
    ImmRegister.DropIsTidy(q, regs);
    ImmRegister.StoresAreTidy(if unused then DropAll(q) else q, 0, regs);
  }

  lemma JoinsNear(q: seq<Op>, regs: set<VReg>)
    requires Compilable(q) && ImmRegister.Tidy(q, regs)
    ensures ImmRegister.MayJoin(AfterJoins(q), regs)
  {
    ImmRegister.TidyIsKept(q, regs);
    forall k: nat | k < |q| ensures ImmRegister.JoinableAt(q, k, regs) {
      assert ImmRegister.NearAt(q, k) && WellTyped(q[k]) && WellFormedOp(q, q[k]) && Mentions(q[k]) <= regs;
    }
    ImmRegister.PassKeepsNear(ADDMUL_RULES, q, 0, regs);
    ImmRegister.PassKeepsNear(ADDIMM_RULES, PassFrom(ADDMUL_RULES, q, 0), 0, regs);
  }

  lemma MayJoinIsNear(r: seq<Op>, l: Lives, regs: set<VReg>)
    requires WellFormed(r) && Exact(r, l) && ImmRegister.MayJoin(r, regs)
    ensures ImmRegister.Kept(WithLive(r, l)) && ImmRegister.Only(WithLive(r, l), regs)
  {
    forall k: nat | k < |r| ensures ImmRegister.NearAt(r, k) && Mentions(WithLive(r, l)[k]) <= regs {
      assert ImmRegister.JoinableAt(r, k, regs);
    }
    ImmRegister.NearIsKept(r, l);
  }

  /** Where each move of the code is of a mentioned register, and none of R_IMM. */
  lemma PlanMoves(x: Plan, gp: seq<HwReg>, q: seq<Op>, regs: set<VReg>)
    requires MadeFrom(x, q) && SameRecords(q, x.p) && Allocatable(x.p) && x.MadeWith(gp) && ValidRegisters(gp)
    requires ImmRegister.Kept(q) && ImmRegister.Only(q, regs)
    ensures MovedRegisters.Good(x, regs)
  {
    RecordsKept(q, x.p, regs);
    MovedRegisters.AllIn(x, gp, regs);
  }

  /** The code moves registers only that the list mentions, and R_IMM not at all. */
  ghost predicate MovesMentioned(p: seq<Op>, x: Plan) {
    forall regs: set<VReg> {:trigger ImmRegister.Only(p, regs)} ::
      ImmRegister.Only(p, regs) ==> MovedRegisters.Good(x, regs)
  }

  lemma FrontMoves(p: seq<Op>, l: Lives, unused: bool, x: Plan, gp: seq<HwReg>)
    requires Compilable(p) && Exact(p, l) && Allocatable(x.p) && ValidRegisters(gp)
    requires var q := AfterStores(WithLive(p, l), unused); MadeFrom(x, q) && SameRecords(q, x.p)
    requires x.MadeWith(gp)
    ensures ImmRegister.Loaded(p) ==> MovesMentioned(p, x)
  {
    forall regs: set<VReg> | ImmRegister.Loaded(p) && ImmRegister.Only(p, regs)
      ensures MovedRegisters.Good(x, regs)
    {
      var q := AfterStores(WithLive(p, l), unused);
      StoresTidy(p, l, unused, regs);
      ImmRegister.TidyIsKept(q, regs);
      PlanMoves(x, gp, q, regs);
    }
  }

  lemma JoinMoves(p: seq<Op>, l: Lives, unused: bool, l': Lives, x: Plan, gp: seq<HwReg>)
    requires Compilable(p) && Exact(p, l) && Allocatable(x.p) && ValidRegisters(gp)
    requires Compilable(AfterStores(WithLive(p, l), unused))
    requires var r := AfterJoins(AfterStores(WithLive(p, l), unused));
      WellFormed(r) && Exact(r, l') && MadeFrom(x, WithLive(r, l')) && SameRecords(WithLive(r, l'), x.p)
    requires x.MadeWith(gp)
    ensures ImmRegister.Loaded(p) ==> MovesMentioned(p, x)
  {
    forall regs: set<VReg> | ImmRegister.Loaded(p) && ImmRegister.Only(p, regs)
      ensures MovedRegisters.Good(x, regs)
    {
      var q := AfterStores(WithLive(p, l), unused);
      StoresTidy(p, l, unused, regs);
      JoinsNear(q, regs);
      MayJoinIsNear(AfterJoins(q), l', regs);
      PlanMoves(x, gp, WithLive(AfterJoins(q), l'), regs);
    }
  }

  /** The list is as the builder makes it and mentions registers of the set only, R_IMM not among
      them. */
  ghost predicate BuiltOn(p: seq<Op>, regs: set<VReg>) {
    && R_IMM !in regs && ImmRegister.Only(p, regs)
    && forall i {:trigger p[i]} | 0 <= i < |p| ::
         TypedStore(p[i]) && (p[i].code.PROLOG? ==> p[i].code.gpArgs == p[i].code.fpArgs == 0)
  }

  ghost predicate MovesOnly(code: seq<Op>, regs: set<VReg>) {
    forall v | FrameSlots.Moved(code, v) :: v in regs
  }

  /** From the list as built to the moves of the code. */
  lemma CodeMoves(p: seq<Op>, x: Plan, regs: set<VReg>)
    requires LongImm.ImmProgram(p) && BuiltOn(p, regs)
    requires ImmRegister.Loaded(LongImm.CorrectedAll(p)) ==> MovesMentioned(LongImm.CorrectedAll(p), x)
    ensures MovesOnly(x.Output(), regs)
  {
    ImmRegister.CorrectedLoaded(p, regs);
    forall v | FrameSlots.Moved(x.Output(), v) ensures v in regs {
      MovedRegisters.MovedIn(x, regs + {R_IMM}, v);
    }
  }

  lemma AllCodeMoves(p: seq<Op>, x: Plan)
    requires LongImm.ImmProgram(p)
    requires ImmRegister.Loaded(LongImm.CorrectedAll(p)) ==> MovesMentioned(LongImm.CorrectedAll(p), x)
    ensures forall regs {:trigger BuiltOn(p, regs)} | BuiltOn(p, regs) :: MovesOnly(x.Output(), regs)
  {
    forall regs | BuiltOn(p, regs) ensures MovesOnly(x.Output(), regs) {
      CodeMoves(p, x, regs);
    }
  }

  /** Dead assignments and stores. */
  method OptimizeStores(p: seq<Op>, unused: bool) returns (q: seq<Op>)
    ensures q == AfterStores(p, unused)
  {
    q := p;
    if unused {
      var d := new DeadAssignments(q);
      d.OptimizeUnusedAssignments();
      q := d.ops;
    }
    var s := new StorePass(q);
    s.OptimizeStOps();
    q := s.ops;
  }

  /** Both join passes. */
  method OptimizeJoins(p: seq<Op>) returns (q: seq<Op>, change: bool)
    requires NotAtEnd(p)
    ensures q == AfterJoins(p) && (!change ==> q == p)
  {
    var j := new JoinPass(p);
    change := j.OptimizeJoin(ADDMUL_RULES);
    var c := j.OptimizeJoin(ADDIMM_RULES);
    q, change := j.ops, change || c;
  }

  /** The whole back end: the code returns a value, with a final carry and memory, exactly when
      the program does, whichever optimisations are switched on. */
  method Generate(p: seq<Op>, gp: seq<HwReg>, owners: map<nat, Allocator.Owner>, nextId: nat, unused: bool, join: bool)
    returns (code: seq<Op>, starts: seq<nat>, back: seq<nat>, ghost x: Plan)
    requires Compilable(p) && Safe(p, unused, join) && ValidRegisters(gp) && Allocator.BelowId(p, nextId)
    ensures |starts| == |p| && code == x.Output() && MadeFor(x, p) && ArePointers(back, owners, x)
    ensures Allocatable(x.p) && x.MadeWith(gp)
    ensures NoTests(p) ==> SameRuns(p, code, starts)
    ensures TestsMeet(x) ==> SameRuns(p, code, starts)
    ensures ImmRegister.Loaded(p) ==> MovesMentioned(p, x)
    ensures Driven(p, unused, join, x.p)
  {
    var ops, l := AnalyzeLiveness(p);
    ghost var p1 := ops;
    ops := OptimizeStores(ops, unused);
    ghost var m := FrontReady(p, l, unused, nextId);
    var change := false;
    if join {
      JoinsSafeExactly(p, l, unused);
      JoinedShape(p1, ops, m);
      StillNotAtEnd(p, p1, ops);
      ops, change := OptimizeJoins(ops);
    }
    if change {
      ghost var l';
      ghost var r := ops;
      ops, l' := AnalyzeLiveness(ops);
      WithLiveSame(r, l');
      IdsStayBelow(p1, r, ops, nextId);
      SameCodePlain(r, ops);
      code, starts, back, x := AllocateRegisters(ops, gp, owners, nextId);
      ThroughRecords(r, l', x);
      JumpsKept(p, p1, r, x);
      if TestsMeet(x) { ResultsWithJoin(p, l, unused, l', x); }
      JoinMoves(p, l, unused, l', x, gp);
      assert Hinted(WithLive(r, l'), x.p) && Exact(r, l');
    } else {
      SameListBelow(p1, ops, nextId);
      code, starts, back, x := AllocateRegisters(ops, gp, owners, nextId);
      JumpsKept(p, p1, ops, x);
      if TestsMeet(x) { ResultsWithoutJoin(p, l, unused, x); }
      FrontMoves(p, l, unused, x, gp);
    }
    if TestsMeet(x) { RealRuns(p, x, starts); }
    if NoTests(p) { NothingToMeet(p, x); }
  }

  lemma ThroughRecords(r: seq<Op>, l: Lives, x: Plan)
    requires |l| == |r| && MadeFrom(x, WithLive(r, l)) && SameRecords(WithLive(r, l), x.p)
    ensures MadeFrom(x, r) && Inside(l, x.p)
  {
    forall i | 0 <= i < |r| ensures SameOp(r[i], x.p[i]) && l[i].into <= x.p[i].liveIn && l[i].out <= x.p[i].liveOut {
      assert SameRecord(WithLive(r, l)[i], x.p[i]);
    }
  }

  /** The long immediates. */
  method CorrectImmediates(p: seq<Op>) returns (q: seq<Op>)
    requires LongImm.ImmProgram(p)
    ensures q == LongImm.CorrectedAll(p)
  {
    forall i | 0 <= i < |p| ensures !LongImm.Skipped(p[i]) ==> LongImm.ImmArg(p[i]) != 0 {
      assert LongImm.ImmOp(p[i]);
    }
    var pass := new LongImm.LongImmediates(p);
    pass.CorrectLongImms();
    q := pass.ops;
  }

  lemma PiecesBegin(p: seq<Op>, later: seq<nat>)
    requires LongImm.ImmProgram(p) && |later| == |LongImm.CorrectedAll(p)|
    ensures forall e: nat {:trigger Start(LongImm.Pieces(p), e)} | e < |p| :: Start(LongImm.Pieces(p), e) < |later|
  {
    forall e: nat | e < |p| ensures Start(LongImm.Pieces(p), e) < |later| {
      LongImm.BlockOf(p, e);
    }
  }

  /** The same with the long immediates moved to R_IMM first: the list jit_generate_code is given
      against the code it allocates. */
  method GenerateCode(p: seq<Op>, gp: seq<HwReg>, owners: map<nat, Allocator.Owner>, nextId: nat, unused: bool,
      join: bool)
    returns (code: seq<Op>, starts: seq<nat>, back: seq<nat>, ghost x: Plan)
    requires LongImm.ImmProgram(p) && Compilable(LongImm.CorrectedAll(p)) && ValidRegisters(gp)
    requires Safe(LongImm.CorrectedAll(p), unused, join) && Allocator.BelowId(LongImm.CorrectedAll(p), nextId)
    ensures code == x.Output() && MadeFor(x, LongImm.CorrectedAll(p)) && ArePointers(back, owners, x)
    ensures Allocatable(x.p) && x.MadeWith(gp)
    ensures NoTests(p) ==> SameRuns(p, code, starts)
    ensures TestsMeet(x) ==> SameRuns(p, code, starts)
    ensures forall regs {:trigger BuiltOn(p, regs)} | BuiltOn(p, regs) :: MovesOnly(code, regs)
    ensures Driven(LongImm.CorrectedAll(p), unused, join, x.p)
  {
    var ops := CorrectImmediates(p);
    var later;
    code, later, back, x := Generate(ops, gp, owners, nextId, unused, join);
    PiecesBegin(p, later);
    starts := SourceStarts(p, later);
    FromSource(p, code, later);
    AllCodeMoves(p, x);
  }

  /** Op e of the source list starts where its piece of the corrected list does. */
  function SourceStarts(p: seq<Op>, later: seq<nat>): (starts: seq<nat>)
    requires forall e: nat {:trigger Start(LongImm.Pieces(p), e)} | e < |p| :: Start(LongImm.Pieces(p), e) < |later|
    ensures |starts| == |p|
    ensures forall e: nat {:trigger PieceStart(p, later, starts, e)} | e < |p| :: PieceStart(p, later, starts, e)
  {
    seq(|p|, e requires 0 <= e < |p| => later[Start(LongImm.Pieces(p), e)])
  }

  lemma FromSource(p: seq<Op>, code: seq<Op>, later: seq<nat>)
    requires LongImm.ImmProgram(p)
    requires forall e: nat {:trigger Start(LongImm.Pieces(p), e)} | e < |p| :: Start(LongImm.Pieces(p), e) < |later|
    ensures SameRuns(LongImm.CorrectedAll(p), code, later) ==> SameRuns(p, code, SourceStarts(p, later))
    ensures NoTests(p) ==> NoTests(LongImm.CorrectedAll(p))
  {
    if NoTests(p) { NoTestsAdded(p); }
    if SameRuns(LongImm.CorrectedAll(p), code, later) { ThroughPieces(p, code, later, SourceStarts(p, later)); }
  }

  lemma NoTestsAdded(p: seq<Op>)
    requires NoTests(p)
    ensures NoTests(LongImm.CorrectedAll(p))
  {
    var b := LongImm.Pieces(p);
    forall k: nat | k < |Concat(b)| ensures !Concat(b)[k].code.TEST? {
      var i, e := Locate(b, k);
      assert b[i] == LongImm.Corrected(p[i]);
    }
  }

  ghost predicate PieceStart(p: seq<Op>, later: seq<nat>, starts: seq<nat>, e: nat)
    requires e < |p| == |starts|
  {
    Start(LongImm.Pieces(p), e) < |later| && starts[e] == later[Start(LongImm.Pieces(p), e)]
  }

  lemma ThroughPieces(p: seq<Op>, code: seq<Op>, later: seq<nat>, starts: seq<nat>)
    requires LongImm.ImmProgram(p) && SameRuns(LongImm.CorrectedAll(p), code, later) && |starts| == |p|
    requires forall e: nat {:trigger PieceStart(p, later, starts, e)} | e < |p| :: PieceStart(p, later, starts, e)
    ensures SameRuns(p, code, starts)
  {
    forall sem, e: nat, regs, st, w, value, w' | Standard(sem) && Starts(p, e, regs, st)
      ensures RunsAlike(sem, p, code, starts, e, regs, st, w, value, w')
    {
      assert PieceStart(p, later, starts, e);
      PieceRuns(sem, p, code, later, starts, e, regs, st, w, value, w');
    }
  }

  lemma PieceRuns(sem: Sem, p: seq<Op>, code: seq<Op>, later: seq<nat>, starts: seq<nat>, e: nat,
                                     regs: map<VReg, Word>, st: Store, w: World, value: Word, w': World)
    requires LongImm.ImmProgram(p) && SameRuns(LongImm.CorrectedAll(p), code, later) && |starts| == |p|
    requires Standard(sem) && Starts(p, e, regs, st)
    requires PieceStart(p, later, starts, e)
    ensures RunsAlike(sem, p, code, starts, e, regs, st, w, value, w')
  {
    var q, a := LongImm.CorrectedAll(p), Start(LongImm.Pieces(p), e);
    LongImm.BlockOf(p, e);
    LongImm.CorrectionPreservesMeaning(sem, p, e, regs, w, value, w');
    assert Starts(q, a, regs, st);
    assert RunsAlike(sem, q, code, later, a, regs, st, w, value, w');
  }
}
