/** The machine after register allocation: hardware registers, one stack slot per virtual
    register, and the UREG/LREG ops that move values between the two. */
module Hardware {
  import opened JitOps
  import opened Machine
  import Llrb

  datatype Store = Store(hw: map<HReg, Word>, slots: map<VReg, Word>)

  datatype HState =
    | HRunning(pc: nat, store: Store, world: World)
    | HHalted(value: Word, world: World)

  /** An immediate keeps its value in r_arg; a register argument is read from its hardware register. */
  function HValue(a: Arg, r: HReg, hw: map<HReg, Word>): Word {
    match a
    case Reg(_) => Read(hw, r)
    case Imm(v) => v
    case _ => 0
  }

  predicate IsMove(op: Op) {
    op.code.UREG? || op.code.LREG?
  }

  function Move(op: Op, st: Store): Store
    requires IsMove(op)
  {
    match op.code
    case UREG(v, h) => st.(slots := st.slots[v := Read(st.hw, h)])
    case LREG(h, v) => st.(hw := st.hw[h := Read(st.slots, v)])
  }

  /** The register holds the value of a virtual register that is live before or after the op. */
  ghost predicate InUse(op: Op, h: HReg) {
    exists v :: v in Llrb.Content(op.regmap) && Llrb.Content(op.regmap)[v] == h && (v in op.liveIn || v in op.liveOut)
  }

  /** The registers that an ALU op's instructions work with: those in use come out as they were. */
  ghost function Scratched(sem: Sem, op: Op, hw: map<HReg, Word>): map<HReg, Word> {
    if !op.code.ALU? then hw
    else
      var s := sem.scratch(op, hw);
      map h | h in hw.Keys + s.Keys :: if InUse(op, h) then Read(hw, h) else Read(s, h)
  }

  ghost function HStep(sem: Sem, q: seq<Op>, s: HState): HState {
    if s.HHalted? || s.pc >= |q| then s
    else
      var op := q[s.pc];
      if IsMove(op) then HRunning(s.pc + 1, Move(op, s.store), s.world)
      else
        var x1 := HValue(op.a1, op.r1, s.store.hw);
        var x2, x3 := HValue(op.a2, op.r2, s.store.hw), HValue(op.a3, op.r3, s.store.hw);
        var w := Effect(sem, op, x1, x2, x3, s.world);
        var hw := Compared(sem, op, op.r2, x2, x3, Scratched(sem, op, s.store.hw));
        match Control(sem, op.code, x1, x2, x3)
        case Return(v) => HHalted(v, w)
        case Taken => HRunning(Goto(q, op), s.store.(hw := hw), w)
        case Fall =>
          var hw' := if op.a1.TReg? then hw[op.r1 := Result(sem, op, x2, x3, s.world)] else hw;
          HRunning(s.pc + 1, s.store.(hw := hw'), w)
  }

  ghost function HStepper(sem: Sem, q: seq<Op>): HState -> HState {
    s => HStep(sem, q, s)
  }

  ghost function HRun(sem: Sem, q: seq<Op>, s: HState, n: nat): HState {
    Iterate(HStepper(sem, q), s, n)
  }

  // ---------- straight-line moves ----------

  predicate AllMoves(moves: seq<Op>) {
    forall i | 0 <= i < |moves| :: IsMove(moves[i])
  }

  function Exec(moves: seq<Op>, st: Store): Store
    requires AllMoves(moves)
  {
    if moves == [] then st else Exec(moves[1..], Move(moves[0], st))
  }

  lemma {:induction false} ExecConcat(a: seq<Op>, b: seq<Op>, st: Store)
    requires AllMoves(a) && AllMoves(b)
    ensures AllMoves(a + b) && Exec(a + b, st) == Exec(b, Exec(a, st))
  {
    if a == [] {
      assert a + b == b;
    } else {
      assert (a + b)[1..] == a[1..] + b;
      ExecConcat(a[1..], b, Move(a[0], st));
    }
  }

  lemma MoveStep(sem: Sem, q: seq<Op>, pc: nat, st: Store, w: World)
    requires pc < |q| && IsMove(q[pc])
    ensures HStep(sem, q, HRunning(pc, st, w)) == HRunning(pc + 1, Move(q[pc], st), w)
  {
  }

  /** A stretch of moves in a list runs straight through. */
  lemma {:induction false} RunMoves(sem: Sem, q: seq<Op>, pc: nat, moves: seq<Op>, st: Store, w: World)
    requires pc + |moves| <= |q| && q[pc..pc + |moves|] == moves && AllMoves(moves)
    ensures HRun(sem, q, HRunning(pc, st, w), |moves|) == HRunning(pc + |moves|, Exec(moves, st), w)
    decreases |moves|
  {
    if moves != [] {
      var rest := moves[1..];
      assert q[pc] == moves[0];
      assert q[pc + 1..pc + 1 + |rest|] == rest;
      MoveStep(sem, q, pc, st, w);
      IterateFirst(HStepper(sem, q), HRunning(pc, st, w), |rest|);
      RunMoves(sem, q, pc + 1, rest, Move(moves[0], st), w);
    }
  }

  // ---------- where the values are ----------

  ghost predicate Injective(m: map<VReg, HReg>) {
    forall x, y | x in m && y in m && m[x] == m[y] :: x == y
  }

  /** Each live register is in the hardware register it is mapped to, or in its slot if unmapped. */
  ghost predicate Holds(m: map<VReg, HReg>, live: set<VReg>, regs: map<VReg, Word>, st: Store) {
    forall v <- live :: Read(regs, v) == if v in m then Read(st.hw, m[v]) else Read(st.slots, v)
  }

  ghost predicate Agree(m: map<VReg, HReg>, n: map<VReg, HReg>, live: set<VReg>) {
    forall v <- live :: (v in m <==> v in n) && (v in m ==> m[v] == n[v])
  }

  /** Two maps can be used for one another in every state exactly when they agree on the live registers. */
  lemma AgreeExactly(m: map<VReg, HReg>, n: map<VReg, HReg>, live: set<VReg>)
    requires Injective(m)
    ensures Agree(m, n, live) <==> forall regs, st | Holds(m, live, regs, st) :: Holds(n, live, regs, st)
  {
    if !Agree(m, n, live) {
      var v :| v in live && !((v in m <==> v in n) && (v in m ==> m[v] == n[v]));
      var regs := map[v := 1];
      var st := if v in m then Store(map[m[v] := 1], map[]) else Store(map[], map[v := 1]);
      assert Holds(m, live, regs, st);
      assert !Holds(n, live, regs, st);
    }
  }
}
