/** The allocated code of a list that mentions R and FR registers only, on the frame of its function:
    no two registers share a slot, so nothing changes. */
module FrameCode {
  import opened JitOps
  import opened Hardware
  import opened Arithmetic
  import opened StoreOps
  import opened StackFrame
  import opened FrameSlots
  import opened Pipeline
  import ImmRegister

  /** An R or FR register that the frame counts. */
  predicate IsCounted(v: VReg, f: Frame) {
    v >= 0 && NameOf(v).spec == RTYPE_REG && Counted(NameOf(v), f)
  }

  /** The op is as the builder makes it, and its registers are R and FR registers that the frame
      counts. */
  ghost predicate FitsOp(op: Op, f: Frame) {
    && TypedStore(op) && (op.code.PROLOG? ==> op.code.gpArgs == op.code.fpArgs == 0)
    && forall v <- Mentions(op) :: IsCounted(v, f)
  }

  ghost predicate Fits(p: seq<Op>, f: Frame) {
    forall i {:trigger p[i]} | 0 <= i < |p| :: FitsOp(p[i], f)
  }

  ghost function AllMentions(p: seq<Op>): set<VReg> {
    set i, v | 0 <= i < |p| && v in Mentions(p[i]) :: v
  }

  lemma FitsBuilt(p: seq<Op>, f: Frame)
    requires Fits(p, f)
    ensures BuiltOn(p, AllMentions(p))
    ensures forall v <- AllMentions(p) :: IsCounted(v, f)
  {
    forall v | v in AllMentions(p) ensures IsCounted(v, f) {
      var i :| 0 <= i < |p| && v in Mentions(p[i]);
      assert FitsOp(p[i], f);
    }
    NameOfMkReg(false, RTYPE_IMM, 0);
    forall i | 0 <= i < |p| ensures Mentions(p[i]) <= AllMentions(p) && FitsOp(p[i], f) {}
  }

  /** The code that is made of such a list moves no two registers that share a slot. */
  lemma FittingSlotsApart(p: seq<Op>, code: seq<Op>, f: Frame)
    requires Fits(p, f) && MovesOnly(code, AllMentions(p))
    ensures SlotsApart(code, f)
  {
    FitsBuilt(p, f);
    assert forall v | Moved(code, v) :: IsCounted(v, f);
    SlotsApartExactly(code, f);
  }

  /** Every register that the list mentions has its value in its place in the frame. */
  ghost predicate FrameStarts(p: seq<Op>, f: Frame, e: nat, regs: map<VReg, Word>, frame: map<int, Word>) {
    && e < |p| && (e == 0 || p[e].code.PROLOG?)
    && forall v <- AllMentions(p) :: Read(frame, SlotOf(v, f)) == Read(regs, v)
  }

  /** Entered at the start or at any function, the list and the code on the frame return the same. */
  ghost predicate SameFrameRuns(p: seq<Op>, code: seq<Op>, starts: seq<nat>, f: Frame) {
    && |starts| == |p|
    && forall sem, e: nat, regs, st: Store, w, value, w'
         {:trigger RunsAlike(sem, p, OnFrame(code, f), starts, e, regs, st, w, value, w')} ::
      Standard(sem) && FrameStarts(p, f, e, regs, st.slots)
      ==> RunsAlike(sem, p, OnFrame(code, f), starts, e, regs, st, w, value, w')
  }

  lemma OntoFrame(p: seq<Op>, code: seq<Op>, starts: seq<nat>, f: Frame)
    requires Fits(p, f) && MovesOnly(code, AllMentions(p)) && SameRuns(p, code, starts)
    ensures SameFrameRuns(p, code, starts, f)
  {
    FittingSlotsApart(p, code, f);
    forall sem, e: nat, regs, st: Store, w, value, w' | Standard(sem) && FrameStarts(p, f, e, regs, st.slots)
      ensures RunsAlike(sem, p, OnFrame(code, f), starts, e, regs, st, w, value, w')
    {
      var slots := Store(st.hw, regs);
      assert Starts(p, e, regs, slots) && RunsAlike(sem, p, code, starts, e, regs, slots, w, value, w');
      FrameHalts(sem, code, f, starts[e], slots, st.slots, w, value, w');
      assert Store(st.hw, st.slots) == st;
    }
  }

  lemma AllOntoFrame(p: seq<Op>, code: seq<Op>, starts: seq<nat>)
    requires forall regs {:trigger BuiltOn(p, regs)} | BuiltOn(p, regs) :: MovesOnly(code, regs)
    ensures forall f {:trigger Fits(p, f)} | Fits(p, f) :: SlotsApart(code, f)
    ensures SameRuns(p, code, starts) ==>
      forall f {:trigger Fits(p, f)} | Fits(p, f) :: SameFrameRuns(p, code, starts, f)
  {
    forall f | Fits(p, f)
      ensures SlotsApart(code, f) && (SameRuns(p, code, starts) ==> SameFrameRuns(p, code, starts, f))
    {
      FitsBuilt(p, f);
      FittingSlotsApart(p, code, f);
      if SameRuns(p, code, starts) { OntoFrame(p, code, starts, f); }
    }
  }
}
