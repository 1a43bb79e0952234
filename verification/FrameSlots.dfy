/** The allocated code with its slots in the frame of the function: the same runs, as long as no two
    registers that are moved share a slot. */
module FrameSlots {
  import opened JitOps
  import opened Machine
  import opened Hardware
  import opened StackFrame

  /** The fields that JIT_REG reads from the number of a register. */
  function NameOf(v: nat): Name {
    Name(v % 2 == 1, v / 2 % 8, v / 16)
  }

  lemma NameOfMkReg(isFloat: bool, spec: nat, id: nat)
    requires spec < 8
    ensures NameOf(MkReg(isFloat, spec, id)) == Name(isFloat, spec, id)
  {
  }

  lemma NamesApart(v: nat, w: nat)
    requires v != w
    ensures NameOf(v) != NameOf(w)
  {
  }

  function SlotOf(v: VReg, f: Frame): int {
    if v < 0 then 0 else RegPos(NameOf(v), f)
  }

  /** An op as it is emitted: UREG and LREG with the place in the frame. */
  function Placed(op: Op, f: Frame): Op {
    match op.code
    case UREG(v, h) => op.(code := UREG(SlotOf(v, f), h))
    case LREG(h, v) => op.(code := LREG(h, SlotOf(v, f)))
    case _ => op
  }

  function OnFrame(q: seq<Op>, f: Frame): seq<Op> {
    seq(|q|, i requires 0 <= i < |q| => Placed(q[i], f))
  }

  ghost predicate Moved(q: seq<Op>, v: VReg) {
    exists i :: 0 <= i < |q| && IsMove(q[i]) && q[i].code.vreg == v
  }

  /** No two registers that are moved share a slot. */
  ghost predicate SlotsApart(q: seq<Op>, f: Frame) {
    forall v, w | Moved(q, v) && Moved(q, w) && v != w :: SlotOf(v, f) != SlotOf(w, f)
  }

  /** Every slot in the frame holds what the slot of its register holds. */
  ghost predicate InFrame(q: seq<Op>, f: Frame, slots: map<VReg, Word>, frame: map<int, Word>) {
    forall v | Moved(q, v) :: Read(frame, SlotOf(v, f)) == Read(slots, v)
  }

  ghost predicate Alike(q: seq<Op>, f: Frame, s: HState, t: HState) {
    match (s, t)
    case (HRunning(pc, st, w), HRunning(pc', st', w')) =>
      pc == pc' && w == w' && st.hw == st'.hw && InFrame(q, f, st.slots, st'.slots)
    case (HHalted(v, w), HHalted(v', w')) => v == v' && w == w'
    case _ => false
  }

  lemma PlacedGoto(q: seq<Op>, f: Frame, op: Op)
    ensures Goto(OnFrame(q, f), op) == Goto(q, op)
  {
    if op.jmp.Some? {
      SameTargets(q, OnFrame(q, f), op.jmp.value);
    }
  }

  lemma MoveAlike(q: seq<Op>, f: Frame, i: nat, st: Store, st': Store)
    requires SlotsApart(q, f) && i < |q| && IsMove(q[i])
    requires st.hw == st'.hw && InFrame(q, f, st.slots, st'.slots)
    ensures IsMove(Placed(q[i], f)) && var a, b := Move(q[i], st), Move(Placed(q[i], f), st');
      a.hw == b.hw && InFrame(q, f, a.slots, b.slots)
  {
    assert Moved(q, q[i].code.vreg);
  }

  lemma StepAlike(sem: Sem, q: seq<Op>, f: Frame, s: HState, t: HState)
    requires SlotsApart(q, f) && Alike(q, f, s, t)
    ensures Alike(q, f, HStep(sem, q, s), HStep(sem, OnFrame(q, f), t))
  {
    if s.HRunning? && s.pc < |q| {
      if IsMove(q[s.pc]) {
        MoveAlike(q, f, s.pc, s.store, t.store);
      } else {
        PlacedGoto(q, f, q[s.pc]);
      }
    }
  }

  /** Whatever the slots hold at the start, the code on the frame goes step by step with the code on
      slots, as long as no two moved registers share a place. */
  lemma FrameRuns(sem: Sem, q: seq<Op>, f: Frame, s: HState, t: HState, n: nat)
    requires SlotsApart(q, f) && Alike(q, f, s, t)
    ensures Alike(q, f, HRun(sem, q, s, n), HRun(sem, OnFrame(q, f), t, n))
  {
    forall s', t' | Alike(q, f, s', t') ensures Alike(q, f, HStep(sem, q, s'), HStep(sem, OnFrame(q, f), t')) {
      StepAlike(sem, q, f, s', t');
    }
    LockStep(HStepper(sem, q), HStepper(sem, OnFrame(q, f)), (s', t') => Alike(q, f, s', t'), s, t, n);
  }

  /** ... so it returns a value, carry and memory exactly when the code on slots does. */
  lemma FrameHalts(sem: Sem, q: seq<Op>, f: Frame, pc: nat, st: Store, frame: map<int, Word>, w: World,
                   value: Word, w': World)
    requires SlotsApart(q, f) && InFrame(q, f, st.slots, frame)
    ensures (exists n: nat :: HRun(sem, q, HRunning(pc, st, w), n) == HHalted(value, w'))
       <==> (exists n: nat :: HRun(sem, OnFrame(q, f), HRunning(pc, Store(st.hw, frame), w), n) == HHalted(value, w'))
  {
    var s, t := HRunning(pc, st, w), HRunning(pc, Store(st.hw, frame), w);
    forall n: nat
      ensures HRun(sem, q, s, n) == HHalted(value, w') <==> HRun(sem, OnFrame(q, f), t, n) == HHalted(value, w')
    {
      FrameRuns(sem, q, f, s, t, n);
    }
  }

  // ---------- which registers may be moved ----------

  ghost predicate MovedCounted(q: seq<Op>, f: Frame) {
    forall v | Moved(q, v) :: v >= 0 && Counted(NameOf(v), f)
  }

  /** The slots are apart exactly when no argument or immediate register is moved beside one that it
      shares its slot with; if only R and FR registers are moved they always are. */
  lemma SlotsApartExactly(q: seq<Op>, f: Frame)
    requires MovedCounted(q, f)
    ensures SlotsApart(q, f) <==>
      forall v, w | Moved(q, v) && Moved(q, w) && v != w :: !Meets(NameOf(v), NameOf(w), f)
    ensures (forall v | Moved(q, v) :: NameOf(v).spec == RTYPE_REG) ==> SlotsApart(q, f)
  {
    forall v, w | Moved(q, v) && Moved(q, w) && v != w
      ensures SlotOf(v, f) == SlotOf(w, f) <==> Meets(NameOf(v), NameOf(w), f) || Meets(NameOf(w), NameOf(v), f)
    {
      NamesApart(v, w);
      SlotsMeetExactly(NameOf(v), NameOf(w), f);
    }
  }

  // ---------- what happens otherwise ----------

  /** Two registers are put away, the first is fetched and returned. */
  function Swapped(v: VReg, w: VReg): seq<Op> {
    [ NewOp(UREG(v, 0), false, No, No, No, None), NewOp(UREG(w, 1), false, No, No, No, None),
      NewOp(LREG(0, v), false, No, No, No, None), NewOp(RET, false, Reg(0), No, No, None).(r1 := 0) ]
  }

  lemma FourSteps<S>(step: S -> S, s: S)
    ensures Iterate(step, s, 4) == step(step(step(step(s))))
  {
    assert Iterate(step, s, 1) == step(s) && Iterate(step, s, 2) == step(step(s));
    assert Iterate(step, s, 3) == step(step(step(s)));
  }

  lemma SwappedReturns(sem: Sem, v: VReg, w: VReg, x: Word, y: Word, world: World)
    ensures HRun(sem, Swapped(v, w), HRunning(0, Store(map[0 := x, 1 := y], map[]), world), 4)
         == HHalted(if v == w then y else x, world)
  {
    var q, hw := Swapped(v, w), map[0 := x, 1 := y];
    var one, two := map[v := x], map[v := x][w := y];
    FourSteps(HStepper(sem, q), HRunning(0, Store(hw, map[]), world));
    assert HStep(sem, q, HRunning(0, Store(hw, map[]), world)) == HRunning(1, Store(hw, one), world);
    assert HStep(sem, q, HRunning(1, Store(hw, one), world)) == HRunning(2, Store(hw, two), world);
    var back := HStep(sem, q, HRunning(2, Store(hw, two), world));
    assert back == HRunning(3, Store(hw[0 := two[v]], two), world);
  }

  lemma SwappedPlaced(v: VReg, w: VReg, f: Frame)
    ensures OnFrame(Swapped(v, w), f) == Swapped(SlotOf(v, f), SlotOf(w, f))
  {
    var q, r := OnFrame(Swapped(v, w), f), Swapped(SlotOf(v, f), SlotOf(w, f));
    assert q[0] == r[0] && q[1] == r[1] && q[2] == r[2] && q[3] == r[3];
  }

  /** On slots this returns the first register; on the frame it does so exactly when the two have
      different slots. */
  lemma SharingFails(sem: Sem, v: VReg, w: VReg, f: Frame, x: Word, y: Word, world: World)
    requires v != w && x != y
    ensures var q, s := Swapped(v, w), HRunning(0, Store(map[0 := x, 1 := y], map[]), world);
      && HRun(sem, q, s, 4) == HHalted(x, world)
      && (HRun(sem, OnFrame(q, f), s, 4) == HHalted(x, world) <==> SlotOf(v, f) != SlotOf(w, f))
  {
    SwappedReturns(sem, v, w, x, y, world);
    SwappedReturns(sem, SlotOf(v, f), SlotOf(w, f), x, y, world);
    SwappedPlaced(v, w, f);
  }
}
