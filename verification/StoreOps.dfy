/** Storing an immediate directly (jit_optimize_st_ops). */
module StoreOps {
  import opened JitOps
  import opened FlowAnalysis
  import opened DeadAssign
  import opened Rewriting
  import opened Fusion
  import opened Arithmetic
  import opened JoinOps
  import opened JoinPasses

  predicate IsAlu(op: Op, a: AluOp) {
    op.code.ALU? && op.code.op == a
  }

  /** The builder macros give a store an address, which may be an immediate, and a value. */
  predicate TypedStore(op: Op) {
    && (IsAlu(op, ST) || IsAlu(op, STX) ==>
          && (if op.imm then op.a1.Imm? else op.a1.Reg?) && op.a2.Reg?
          && (if op.code.op == ST then op.a3.No? else op.a3.Reg?)
          && op.size in {1, 2, 4, 8} && op.jmp.None?)
    && (IsAlu(op, MOV) && op.imm ==> op.a1.TReg? && op.a2.Imm? && op.a3.No?)
  }

  /** The argument that holds the stored value. */
  function StoredArg(op: Op): Arg {
    if IsAlu(op, ST) then op.a2 else op.a3
  }

  function AddressRegs(op: Op): set<VReg> {
    ArgUse(op.a1) + if IsAlu(op, STX) then ArgUse(op.a2) else {}
  }

  /** The guard: a store of a register that the op before sets to an immediate and that is dead
      afterwards. */
  predicate Storable(prev: Op, op: Op) {
    && (IsAlu(op, ST) || IsAlu(op, STX)) && IsCode(prev, MOV, true)
    && Raw(StoredArg(op)) == Raw(prev.a1) && Raw(StoredArg(op)) !in op.liveOut
  }

  function Stored(prev: Op, op: Op): Op {
    if IsAlu(op, ST) then op.(code := ALU(STI, false), a2 := Imm(Raw(prev.a2)))
    else op.(code := ALU(STXI, false), a3 := Imm(Raw(prev.a2)))
  }

  /** When it is right: the stored register is no address register, and the immediate survives
      the 32-bit field it is put in. */
  predicate RightStore(prev: Op, op: Op) {
    && Raw(prev.a1) !in AddressRegs(op)
    && (op.size <= 4 || FitsImm32(Raw(prev.a2)))
  }

  // ---------- bytes ----------

  predicate SameLow(u: int, v: int, n: nat)
    decreases n
  {
    n == 0 || (u % 256 == v % 256 && SameLow(u / 256, v / 256, n - 1))
  }

  lemma {:induction false} SameBytes(mem: map<Word, Word>, a: Word, u: int, v: int, n: nat)
    requires SameLow(u, v, n)
    ensures StoreBytes(mem, a, u, n) == StoreBytes(mem, a, v, n)
    decreases n
  {
    if n > 0 { SameBytes(mem[Wrap(a) := u % 256], a + 1, u / 256, v / 256, n - 1); }
  }

  /** Bytes below the written range stay. */
  lemma {:induction false} BelowKept(mem: map<Word, Word>, a: Word, v: int, n: nat, b: Word)
    requires b < a && a + n <= b + WORD
    ensures var m := StoreBytes(mem, a, v, n);
      (Wrap(b) in m <==> Wrap(b) in mem) && (Wrap(b) in m ==> m[Wrap(b)] == mem[Wrap(b)])
    decreases n
  {
    if n > 0 {
      WrapSame(a, b);
      BelowKept(mem[Wrap(a) := v % 256], a + 1, v / 256, n - 1, b);
    }
  }

  lemma FirstByte(mem: map<Word, Word>, a: Word, v: int, n: nat)
    requires 0 < n <= 8
    ensures Wrap(a) in StoreBytes(mem, a, v, n) && StoreBytes(mem, a, v, n)[Wrap(a)] == v % 256
  {
    BelowKept(mem[Wrap(a) := v % 256], a + 1, v / 256, n - 1, a);
  }

  lemma {:induction false} BytesDiffer(mem: map<Word, Word>, mem': map<Word, Word>, a: Word, u: int, v: int, n: nat)
    requires n <= 8 && StoreBytes(mem, a, u, n) == StoreBytes(mem', a, v, n)
    ensures SameLow(u, v, n)
    decreases n
  {
    if n > 0 {
      FirstByte(mem, a, u, n);
      FirstByte(mem', a, v, n);
      BytesDiffer(mem[Wrap(a) := u % 256], mem'[Wrap(a) := v % 256], a + 1, u / 256, v / 256, n - 1);
    }
  }

  lemma {:induction false} SameLowEqual(u: nat, v: nat, n: nat, limit: nat)
    requires SameLow(u, v, n) && u < limit && v < limit && limit <= Pow256(n)
    ensures u == v
    decreases n
  {
    if n > 0 {
      SameLowEqual(u / 256, v / 256, n - 1, Pow256(n - 1));
    }
  }

  function Pow256(n: nat): nat {
    if n == 0 then 1 else 256 * Pow256(n - 1)
  }

  lemma LowByteOfSum(v: int, k: int)
    ensures (v + 256 * k) % 256 == v % 256 && (v + 256 * k) / 256 == v / 256 + k
  {
  }

  /** Numbers that differ by a multiple of 256^n have the same low n bytes. */
  lemma {:induction false} SameLowOfMultiple(u: int, v: int, m: int, n: nat)
    requires u == v + m * Pow256(n)
    ensures SameLow(u, v, n)
    decreases n
  {
    if n > 0 {
      var k := m * Pow256(n - 1);
      assert m * Pow256(n) == 256 * k;
      LowByteOfSum(v, k);
      SameLowOfMultiple(u / 256, v / 256, m, n - 1);
    }
  }

  lemma LowHalvesAgree(x: Word) returns (m: int)
    ensures Wrap(x) == Imm32(x) + m * 0x1_0000_0000
  {
    var j, k := x / 0x1_0000_0000, x / 0x1_0000_0000_0000_0000;
    m := j - 0x1_0000_0000 * k - if x % 0x1_0000_0000 < 0x8000_0000 then 0 else 0xFFFF_FFFF;
    assert x % 0x1_0000_0000 == x - 0x1_0000_0000 * j && Wrap(x) == x - 0x1_0000_0000_0000_0000 * k;
  }

  /** Four bytes cannot tell a word from its sign-extended low half. */
  lemma {:induction false} Imm32Low(x: Word, n: nat)
    requires n in {1, 2, 4}
    ensures SameLow(Wrap(x), Imm32(x), n)
  {
    var m := LowHalvesAgree(x);
    SmallPowers();
    SameLowOfMultiple(Wrap(x), Imm32(x), m * if n == 1 then 0x100_0000 else if n == 2 then 0x1_0000 else 1, n);
  }

  lemma SmallPowers()
    ensures Pow256(1) == 256 && Pow256(2) == 0x1_0000 && Pow256(4) == 0x1_0000_0000
  {
    assert Pow256(0) == 1 && Pow256(3) == 0x100_0000;
  }

  lemma Imm32Full(x: Word)
    ensures SameLow(Wrap(x), Imm32(x), 8) <==> FitsImm32(x)
  {
    if SameLow(Wrap(x), Imm32(x), 8) {
      assert Pow256(0) == 1 && Pow256(1) == 256 && Pow256(2) == 0x1_0000 && Pow256(3) == 0x100_0000;
      assert Pow256(4) == 0x1_0000_0000 && Pow256(5) == 0x100_0000_0000 && Pow256(6) == 0x1_0000_0000_0000;
      assert Pow256(7) == 0x100_0000_0000_0000 && Pow256(8) == 0x1_0000_0000_0000_0000;
      SameLowEqual(Wrap(x), Imm32(x), 8, 0x1_0000_0000_0000_0000);
    } else {
      if FitsImm32(x) { SameLowSelf(Wrap(x), 8); }
    }
  }

  lemma {:induction false} SameLowSelf(u: int, n: nat)
    ensures SameLow(u, u, n)
    decreases n
  {
    if n > 0 { SameLowSelf(u / 256, n - 1); }
  }

  // ---------- both ops against the one ----------

  ghost function Address(op: Op, regs: map<VReg, Word>): Word {
    Value(op.a1, regs) + if IsAlu(op, STX) || IsAlu(op, STXI) then Value(op.a2, regs) else 0
  }

  lemma StoreEffects(sem: Sem, op: Op, regs: map<VReg, Word>, w: World)
    requires Standard(sem) && (IsAlu(op, ST) || IsAlu(op, STX))
    ensures EffectAt(sem, op, regs, w) == StoreTo(w, Address(op, regs), Value(StoredArg(op), regs), op.size)
  {
  }

  lemma StoredEffects(sem: Sem, prev: Op, op: Op, regs: map<VReg, Word>, w: World)
    requires Standard(sem) && (IsAlu(op, ST) || IsAlu(op, STX))
    ensures EffectAt(sem, Stored(prev, op), regs, w)
         == StoreTo(w, Address(op, regs), Imm32(Raw(prev.a2)), op.size)
  {
  }

  lemma MovStep(sem: Sem, prev: Op, regs: map<VReg, Word>, w: World)
    requires Standard(sem) && IsCode(prev, MOV, true) && prev.a2.Imm? && prev.a1.TReg?
    ensures EffectAt(sem, prev, regs, w) == w
    ensures After(sem, prev, regs, w) == regs[Raw(prev.a1) := Wrap(Raw(prev.a2))]
  {
    KnownValue(sem, prev, regs, w);
  }

  lemma SameAddress(op: Op, regs: map<VReg, Word>, r: VReg, v: Word)
    requires (IsAlu(op, ST) || IsAlu(op, STX)) && r !in AddressRegs(op)
    ensures Address(op, regs[r := v]) == Address(op, regs)
  {
  }

  /** The new address is half the address space away. */
  lemma FarAddress(op: Op, r: VReg, v: Word) returns (regs: map<VReg, Word>)
    requires (IsAlu(op, ST) || IsAlu(op, STX)) && r in AddressRegs(op)
    ensures Address(op, regs) == Address(op, regs[r := v]) + 0x8000_0000_0000_0000
  {
    var both := IsAlu(op, STX) && op.a1 == Reg(r) && op.a2 == Reg(r);
    regs := map[r := v + if both then 0x4000_0000_0000_0000 else 0x8000_0000_0000_0000];
  }

  lemma FarBytes(a: Word, u: int, v: int, n: nat)
    requires 0 < n <= 8
    ensures StoreBytes(map[], a, u, n) != StoreBytes(map[], a + 0x8000_0000_0000_0000, v, n)
  {
    FirstByte(map[], a, u, n);
    BelowKept(map[], a + 0x8000_0000_0000_0000, v, n, a);
  }

  /** What the two ops and the one op make of a world. */
  lemma BothEffects(sem: Sem, prev: Op, op: Op, regs: map<VReg, Word>, w: World)
    requires Standard(sem) && Storable(prev, op) && TypedStore(prev) && TypedStore(op)
    ensures DoesBothAt(sem, prev, op, Stored(prev, op), regs, w) <==>
      StoreTo(w, Address(op, regs), Imm32(Raw(prev.a2)), op.size) ==
      StoreTo(w, Address(op, regs[Raw(prev.a1) := Wrap(Raw(prev.a2))]), Wrap(Raw(prev.a2)), op.size)
  {
    var after := regs[Raw(prev.a1) := Wrap(Raw(prev.a2))];
    MovStep(sem, prev, regs, w);
    StoreEffects(sem, op, after, w);
    StoredEffects(sem, prev, op, regs, w);
    assert Value(StoredArg(op), after) == Wrap(Raw(prev.a2));
    assert !op.a1.TReg?;
  }

  lemma RightStores(sem: Sem, prev: Op, op: Op, regs: map<VReg, Word>, w: World)
    requires Standard(sem) && Storable(prev, op) && TypedStore(prev) && TypedStore(op) && RightStore(prev, op)
    ensures DoesBothAt(sem, prev, op, Stored(prev, op), regs, w)
  {
    var r, k := Raw(prev.a1), Raw(prev.a2);
    BothEffects(sem, prev, op, regs, w);
    SameAddress(op, regs, r, Wrap(k));
    if op.size <= 4 { Imm32Low(k, op.size); } else { Imm32Full(k); }
    SameBytes(w.mem, Address(op, regs), Wrap(k), Imm32(k), op.size);
  }

  lemma WrongValue(mem: map<Word, Word>, a: Word, k: Word)
    requires !FitsImm32(k)
    ensures StoreBytes(mem, a, Imm32(k), 8) != StoreBytes(mem, a, Wrap(k), 8)
  {
    Imm32Full(k);
    if StoreBytes(mem, a, Wrap(k), 8) == StoreBytes(mem, a, Imm32(k), 8) {
      BytesDiffer(mem, mem, a, Wrap(k), Imm32(k), 8);
    }
  }

  lemma WrongPlace(sem: Sem, prev: Op, op: Op, regs: map<VReg, Word>)
    requires Standard(sem) && Storable(prev, op) && TypedStore(prev) && TypedStore(op)
    requires Address(op, regs) == Address(op, regs[Raw(prev.a1) := Wrap(Raw(prev.a2))]) + 0x8000_0000_0000_0000
    ensures !DoesBothAt(sem, prev, op, Stored(prev, op), regs, World(false, map[]))
  {
    var k := Raw(prev.a2);
    BothEffects(sem, prev, op, regs, World(false, map[]));
    FarStores(Address(op, regs), Address(op, regs[Raw(prev.a1) := Wrap(k)]), Imm32(k), Wrap(k), op.size);
  }

  lemma FarStores(a: int, b: int, u: int, v: int, n: nat)
    requires a == b + 0x8000_0000_0000_0000 && 0 < n <= 8
    ensures StoreTo(World(false, map[]), a, u, n) != StoreTo(World(false, map[]), b, v, n)
  {
    FarBytes(b, v, u, n);
  }

  lemma WrongImm(sem: Sem, prev: Op, op: Op, regs: map<VReg, Word>)
    requires Standard(sem) && Storable(prev, op) && TypedStore(prev) && TypedStore(op) && !RightStore(prev, op)
    requires Raw(prev.a1) !in AddressRegs(op)
    ensures !DoesBothAt(sem, prev, op, Stored(prev, op), regs, World(false, map[]))
  {
    var k := Raw(prev.a2);
    SameAddress(op, regs, Raw(prev.a1), Wrap(k));
    WrongValue(map[], Address(op, regs), k);
    BothEffects(sem, prev, op, regs, World(false, map[]));
  }

  lemma WrongStores(sem: Sem, prev: Op, op: Op) returns (regs: map<VReg, Word>)
    requires Standard(sem) && Storable(prev, op) && TypedStore(prev) && TypedStore(op) && !RightStore(prev, op)
    ensures !DoesBothAt(sem, prev, op, Stored(prev, op), regs, World(false, map[]))
  {
    var r := Raw(prev.a1);
    if r in AddressRegs(op) {
      regs := FarAddress(op, r, Wrap(Raw(prev.a2)));
      WrongPlace(sem, prev, op, regs);
    } else {
      regs := map[];
      WrongImm(sem, prev, op, regs);
    }
  }

  /** Storing the immediate does what the two ops did, from every state, exactly when the stored
      register is no address register and the immediate fits. */
  lemma RightStoreExactly(sem: Sem, prev: Op, op: Op)
    requires Standard(sem) && Storable(prev, op) && TypedStore(prev) && TypedStore(op)
    ensures DoesBoth(sem, prev, op, Stored(prev, op)) <==> RightStore(prev, op)
  {
    if RightStore(prev, op) {
      forall regs, w ensures DoesBothAt(sem, prev, op, Stored(prev, op), regs, w) {
        RightStores(sem, prev, op, regs, w);
      }
    } else {
      var regs := WrongStores(sem, prev, op);
      var w := World(false, map[]);
      assert !DoesBothAt(sem, prev, op, Stored(prev, op), regs, w);
      if DoesBoth(sem, prev, op, Stored(prev, op)) {
        var v := ValueAt(sem, Stored(prev, op), regs, w);
      }
    }
  }

  // ---------- the pass ----------

  function StoreStep(p: seq<Op>, i: nat): seq<Op> {
    if 0 < i < |p| && Storable(p[i - 1], p[i]) then Fused(p, i - 1, Stored(p[i - 1], p[i])) else p
  }

  function StoresFrom(p: seq<Op>, i: nat): seq<Op>
    decreases |p| - i
  {
    if i >= |p| then p else StoresFrom(StoreStep(p, i), i + 1)
  }

  /** After the pass no store of a MOV's immediate is left that could be direct. */
  lemma {:induction false} StoresMissNone(p: seq<Op>, i: nat, j: nat)
    requires i > 0 && forall k {:trigger p[k]} | 0 < k < i && k < |p| :: !Storable(p[k - 1], p[k])
    ensures var q := StoresFrom(p, i); 0 < j < |q| ==> !Storable(q[j - 1], q[j])
    decreases |p| - i
  {
    if i < |p| {
      var q := StoreStep(p, i);
      forall k | 0 < k < i + 1 && k < |q| ensures !Storable(q[k - 1], q[k]) {
        assert q[k - 1] == p[k - 1] || k == i;
        assert k < i ==> !Storable(p[k - 1], p[k]);
      }
      StoresMissNone(q, i + 1, j);
    }
  }

  /** Wherever the guard holds, the store is right. */
  ghost predicate StoresRight(p: seq<Op>) {
    && (forall i: nat {:trigger TypedStore(p[i])} | i < |p| :: TypedStore(p[i]))
    && forall i: nat {:trigger p[i]} | 0 < i < |p| && Storable(p[i - 1], p[i]) :: RightStore(p[i - 1], p[i])
  }

  ghost predicate StoresOk(p: seq<Op>, l: Lives) {
    WellFormed(p) && Closed(p, l) && Recorded(p, l) && StoresRight(p)
  }

  lemma StoreReplaces(prev: Op, op: Op, out: set<VReg>)
    requires Storable(prev, op) && TypedStore(prev) && TypedStore(op) && RightStore(prev, op) && out <= op.liveOut
    ensures Replaces(prev, op, Stored(prev, op), out)
  {
  }

  lemma StoreIsFusible(sem: Sem, p: seq<Op>, l: Lives, k: nat)
    requires Standard(sem) && StoresOk(p, l) && k + 1 < |p| && Storable(p[k], p[k + 1])
    ensures Fusible(sem, p, l, k, Stored(p[k], p[k + 1]))
  {
    assert TypedStore(p[k]) && TypedStore(p[k + 1]) && l[k + 1].out <= p[k + 1].liveOut;
    assert RightStore(p[k], p[k + 1]);
    RightStoreExactly(sem, p[k], p[k + 1]);
    StoreReplaces(p[k], p[k + 1], l[k + 1].out);
  }

  lemma StoreStepKeeps(sem: Sem, p: seq<Op>, l: Lives, i: nat) returns (m: Lives)
    requires Standard(sem) && StoresOk(p, l)
    ensures StoresOk(StoreStep(p, i), m) && MeansTheSame(sem, p, StoreStep(p, i))
    ensures Below(m, l)
  {
    m := l;
    if 0 < i < |p| && Storable(p[i - 1], p[i]) {
      StoreFires(sem, p, l, i - 1);
      m := StoredLives(p, l, i - 1);
    } else {
      NothingStored(sem, p, l, i);
    }
  }

  lemma NothingStored(sem: Sem, p: seq<Op>, l: Lives, i: nat)
    requires 0 < i < |p| ==> !Storable(p[i - 1], p[i])
    ensures StoreStep(p, i) == p && MeansTheSame(sem, p, p) && Below(l, l)
  {
    MeansItself(sem, p);
  }

  function StoredLives(p: seq<Op>, l: Lives, k: nat): Lives
    requires k + 1 < |p| == |l|
  {
    FusedLives(l, k, Raw(p[k].a1), Stored(p[k], p[k + 1]))
  }

  lemma StoreFires(sem: Sem, p: seq<Op>, l: Lives, k: nat)
    requires Standard(sem) && StoresOk(p, l) && k + 1 < |p| && Storable(p[k], p[k + 1])
    ensures StoresOk(StoreStep(p, k + 1), StoredLives(p, l, k)) && MeansTheSame(sem, p, StoreStep(p, k + 1))
    ensures Below(StoredLives(p, l, k), l)
  {
    StoreIsFusible(sem, p, l, k);
    assert TypedStore(p[k + 1]);
    FusionKeeps(sem, p, l, k, Stored(p[k], p[k + 1]));
    StoreStepRight(p, k + 1);
    StoreLivesBelow(p, l, k);
  }

  lemma StoreStepRight(p: seq<Op>, i: nat)
    requires StoresRight(p) && 0 < i < |p| && Storable(p[i - 1], p[i])
    ensures StoresRight(StoreStep(p, i))
  {
    var q := StoreStep(p, i);
    forall j: nat | j < |q| ensures TypedStore(q[j]) {
      assert TypedStore(p[j]);
    }
    forall j: nat | 0 < j < |q| && Storable(q[j - 1], q[j]) ensures RightStore(q[j - 1], q[j]) {
      assert q[j] == p[j] && q[j - 1] == p[j - 1];
    }
  }

  /** The combined op reads nothing new, so the live sets only shrink. */
  lemma StoreLivesBelow(p: seq<Op>, l: Lives, k: nat)
    requires WellFormed(p) && Closed(p, l) && k + 1 < |p| && Storable(p[k], p[k + 1])
    requires TypedStore(p[k + 1])
    ensures Below(FusedLives(l, k, Raw(p[k].a1), Stored(p[k], p[k + 1])), l)
  {
    assert WellFormedOp(p, p[k]) && Follows(p, k, k + 1);
    assert l[k + 1].into <= l[k].out;
    assert InOf(p[k + 1], l[k + 1].out) <= l[k + 1].into;
    assert Uses(Stored(p[k], p[k + 1])) <= Uses(p[k + 1]);
  }

  /** The pass preserves meaning from every entry point, and the recorded live sets still contain
      a solution of the dataflow inequalities. */
  lemma {:induction false} StoresKeep(sem: Sem, p: seq<Op>, l: Lives, i: nat) returns (m: Lives)
    requires Standard(sem) && StoresOk(p, l)
    ensures StoresOk(StoresFrom(p, i), m) && MeansTheSame(sem, p, StoresFrom(p, i)) && Below(m, l)
    decreases |p| - i
  {
    if i >= |p| {
      m := l;
      MeansItself(sem, p);
    } else {
      var q := StoreStep(p, i);
      var m' := StoreStepKeeps(sem, p, l, i);
      m := StoresKeep(sem, q, m', i + 1);
      MeansTrans(sem, p, q, StoresFrom(p, i));
      BelowProgress(m, m', l);
    }
  }

  class StorePass {
    var ops: seq<Op>

    constructor (p: seq<Op>)
      ensures ops == p
    {
      ops := p;
    }

    /** One round of the loop: first plain stores, then indexed ones. */
    method OptimizeStOp(i: nat)
      requires i < |ops|
      modifies this
      ensures ops == StoreStep(old(ops), i)
    {
      var op := ops[i];
      if op.code.ALU? && op.code.op == ST && i > 0 && IsCode(ops[i - 1], MOV, true)
         && Raw(op.a2) == Raw(ops[i - 1].a1) && Raw(op.a2) !in op.liveOut {
        Combine(i, op.(code := ALU(STI, false), a2 := Imm(Raw(ops[i - 1].a2))));
      }
      op := ops[i];
      if op.code.ALU? && op.code.op == STX && i > 0 && IsCode(ops[i - 1], MOV, true)
         && Raw(op.a3) == Raw(ops[i - 1].a1) && Raw(op.a3) !in op.liveOut {
        Combine(i, op.(code := ALU(STXI, false), a3 := Imm(Raw(ops[i - 1].a2))));
      }
    }

    method Combine(i: nat, c: Op)
      requires 0 < i < |ops|
      modifies this
      ensures ops == Fused(old(ops), i - 1, c)
    {
      ops := ops[i - 1 := ops[i - 1].(code := NOP, imm := false, a1 := No, a2 := No, a3 := No)][i := c];
    }

    method OptimizeStOps()
      modifies this
      ensures ops == StoresFrom(old(ops), 0)
    {
      for i := 0 to |ops|
        invariant |ops| == |old(ops)| && StoresFrom(ops, i) == StoresFrom(old(ops), 0)
      {
        OptimizeStOp(i);
      }
    }
  }
}
