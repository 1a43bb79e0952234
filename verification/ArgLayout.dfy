/** Where the arguments of a function are found on entry (__initialize_arguments and
    jit_init_arg_params), against the rule of section 3.2.3 of the System V AMD64 ABI. */
module ArgLayout {
  import opened StackFrame
  import J = JitOps

  /** A DECL_ARG op: floating point or not, and the size. */
  datatype Decl = Decl(float: bool, size: int)

  datatype Location = Reg(index: nat) | Stack(offset: int)

  /** struct jit_inp_arg */
  datatype InpArg = InpArg(
    float: bool, size: int, gpPos: int, fpPos: int, passedByReg: bool, location: Location,
    spillPos: int, overflow: bool)

  /** An op, as far as the arguments are concerned. */
  datatype ArgOp = Prolog(info: FuncInfo) | Declares(d: Decl) | Other

  class FuncInfo {
    var args: seq<InpArg>
    const gpRegCount: nat
    const fpRegCount: nat
    const allocaiMem: nat
  }

  // ---------- the rule, told by counting ----------

  /** How many arguments of the class are declared. */
  ghost function CountOf(ds: seq<Decl>, float: bool): nat {
    if ds == [] then 0
    else CountOf(ds[..|ds| - 1], float) + if ds[|ds| - 1].float == float then 1 else 0
  }

  /** An argument goes to the stack once the registers of its class are used up. */
  ghost predicate OnStack(ds: seq<Decl>, k: nat, gpRegs: nat, fpRegs: nat)
    requires k < |ds|
  {
    CountOf(ds[..k], ds[k].float) >= if ds[k].float then fpRegs else gpRegs
  }

  /** How many of the first k arguments go to the stack. */
  ghost function StackArgs(ds: seq<Decl>, k: nat, gpRegs: nat, fpRegs: nat): nat
    requires k <= |ds|
  {
    if k == 0 then 0
    else StackArgs(ds, k - 1, gpRegs, fpRegs) + if OnStack(ds, k - 1, gpRegs, fpRegs) then 1 else 0
  }

  /** The place of argument k: the next register of its class, or the next eightbyte above the
      return address and the saved frame pointer. */
  ghost function Place(ds: seq<Decl>, k: nat, gpRegs: nat, fpRegs: nat): Location
    requires k < |ds|
  {
    if OnStack(ds, k, gpRegs, fpRegs) then Stack(16 + 8 * StackArgs(ds, k, gpRegs, fpRegs))
    else Reg(CountOf(ds[..k], ds[k].float))
  }

  function Excess(pos: int, regs: int): int {
    if pos > regs then pos - regs else 0
  }

  /** The formula of the code: what is left over of both classes. */
  lemma {:induction false} StackArgsAreTheExcess(ds: seq<Decl>, k: nat, gpRegs: nat, fpRegs: nat)
    requires k <= |ds|
    ensures StackArgs(ds, k, gpRegs, fpRegs)
         == Excess(CountOf(ds[..k], false), gpRegs) + Excess(CountOf(ds[..k], true), fpRegs)
  {
    if k > 0 {
      StackArgsAreTheExcess(ds, k - 1, gpRegs, fpRegs);
      assert ds[..k][..k - 1] == ds[..k - 1];
    }
  }

  lemma {:induction false} CountGrows(ds: seq<Decl>, float: bool, j: nat, k: nat)
    requires j <= k <= |ds|
    ensures CountOf(ds[..j], float) <= CountOf(ds[..k], float)
    ensures j < k && ds[j].float == float ==> CountOf(ds[..j], float) < CountOf(ds[..k], float)
  {
    if j < k {
      CountGrows(ds, float, j, k - 1);
      assert ds[..k][..k - 1] == ds[..k - 1];
    }
  }

  lemma {:induction false} StackGrows(ds: seq<Decl>, j: nat, k: nat, gpRegs: nat, fpRegs: nat)
    requires j <= k <= |ds|
    ensures StackArgs(ds, j, gpRegs, fpRegs) <= StackArgs(ds, k, gpRegs, fpRegs)
    ensures j < k && OnStack(ds, j, gpRegs, fpRegs)
      ==> StackArgs(ds, j, gpRegs, fpRegs) < StackArgs(ds, k, gpRegs, fpRegs)
  {
    if j < k { StackGrows(ds, j, k - 1, gpRegs, fpRegs); }
  }

  /** No two arguments share a place: registers are given out once per class, and the arguments on
      the stack lie in declaration order. */
  lemma PlacesApart(ds: seq<Decl>, j: nat, k: nat, gpRegs: nat, fpRegs: nat)
    requires j < k < |ds|
    ensures var a, b := Place(ds, j, gpRegs, fpRegs), Place(ds, k, gpRegs, fpRegs);
      && (a.Stack? && b.Stack? ==> a.offset < b.offset)
      && (a.Reg? && b.Reg? && ds[j].float == ds[k].float ==> a.index < b.index)
  {
    StackGrows(ds, j, k, gpRegs, fpRegs);
    CountGrows(ds, ds[k].float, j, k);
  }

  /** The arguments on the stack leave no gap: every eightbyte up to the last is some argument's. */
  lemma {:induction false} StackFilled(ds: seq<Decl>, n: nat, k: nat, gpRegs: nat, fpRegs: nat) returns (j: nat)
    requires k <= |ds| && n < StackArgs(ds, k, gpRegs, fpRegs)
    ensures j < k && Place(ds, j, gpRegs, fpRegs) == Stack(16 + 8 * n)
  {
    if StackArgs(ds, k - 1, gpRegs, fpRegs) == n {
      j := k - 1;
    } else {
      j := StackFilled(ds, n, k - 1, gpRegs, fpRegs);
    }
  }

  // ---------- the code ----------

  /** Where argument p is kept: on the stack it stays in the eightbyte it was passed in, from a register
      it gets a slot in the frame. */
  predicate KeptAt(a: InpArg, p: nat, f: Frame) {
    match a.location
    case Stack(offset) => a.spillPos == offset
    case Reg(_) => a.spillPos == ArgSpillPos(p, f)
  }

  /** Where emit_get_arg reads argument p: arguments on the stack where they are; those passed in a
      register there while it is mapped, then in the slot they are spilled to. */
  datatype Source = InRegister(index: nat) | InFrame(pos: int)

  function ReadFrom(a: InpArg, mapped: bool): Source {
    if !a.passedByReg then InFrame(if a.location.Stack? then a.location.offset else a.spillPos)
    else if mapped && a.location.Reg? then InRegister(a.location.index)
    else InFrame(a.spillPos)
  }

  /** What is recorded of argument k leads to where the rule puts it, or to the frame slot that its
      argument register is spilled to. */
  lemma ReadWherePassed(a: InpArg, ds: seq<Decl>, k: nat, f: Frame, gpRegs: nat, fpRegs: nat, mapped: bool)
    requires k < |ds| && a.location == Place(ds, k, gpRegs, fpRegs) && a.passedByReg == a.location.Reg?
    requires KeptAt(a, k, f)
    ensures match Place(ds, k, gpRegs, fpRegs)
      case Stack(offset) => offset >= 16 && ReadFrom(a, mapped) == InFrame(offset) && a.spillPos == offset
      case Reg(index) =>
        var slot := RegPos(Name(ds[k].float, J.RTYPE_ARG, k), f);
        ReadFrom(a, mapped) == if mapped then InRegister(index) else InFrame(slot)
  {
  }

  /** The eight bytes that two arguments are kept in lie apart, on the stack or in the frame. */
  lemma KeptApart(a: InpArg, b: InpArg, ds: seq<Decl>, j: nat, k: nat, f: Frame, gpRegs: nat, fpRegs: nat)
    requires j < k < |ds| && KeptAt(a, j, f) && KeptAt(b, k, f)
    requires a.location == Place(ds, j, gpRegs, fpRegs) && b.location == Place(ds, k, gpRegs, fpRegs)
    ensures a.spillPos + 8 <= b.spillPos || b.spillPos + 8 <= a.spillPos
  {
    PlacesApart(ds, j, k, gpRegs, fpRegs);
  }

  // ---------- the argument registers of a function's PROLOG ----------

  /** The liveness pass takes the argument registers below the number of arguments of the class for
      written by the PROLOG, six or eight at most; GETARG reads the one numbered by the argument's
      position among all.  The two meet exactly where the position is that small. */
  lemma PrologExactly(ds: seq<Decl>, k: nat)
    requires k < |ds|
    ensures J.ArgReg(k, ds[k].float) in J.PrologArgs(CountOf(ds, false), CountOf(ds, true))
      <==> k < CountOf(ds, ds[k].float) && k < if ds[k].float then 8 else 6
  {
  }

  /** If all arguments are of one class they are exactly the arguments passed in registers. */
  lemma {:induction false} OneClass(ds: seq<Decl>, k: nat)
    requires k < |ds| && forall j | 0 <= j < |ds| :: ds[j].float == ds[k].float
    ensures J.ArgReg(k, ds[k].float) in J.PrologArgs(CountOf(ds, false), CountOf(ds, true))
      <==> Place(ds, k, 6, 8).Reg?
  {
    CountAll(ds, ds[k].float);
    CountAll(ds[..k], ds[k].float);
    PrologExactly(ds, k);
  }

  lemma {:induction false} CountAll(ds: seq<Decl>, float: bool)
    requires forall j | 0 <= j < |ds| :: ds[j].float == float
    ensures CountOf(ds, float) == |ds|
  {
    if ds != [] { CountAll(ds[..|ds| - 1], float); }
  }

  /** The register of its class that assign_regs_for_args associates with argument k, while there are
      any left. */
  ghost function Associated(ds: seq<Decl>, k: nat, gpRegs: nat, fpRegs: nat): J.Option<nat>
    requires k < |ds|
  {
    if CountOf(ds[..k], ds[k].float) < if ds[k].float then fpRegs else gpRegs then J.Some(k) else J.None
  }

  lemma {:induction false} CountOther(ds: seq<Decl>, float: bool)
    ensures CountOf(ds, float) <= |ds|
    ensures CountOf(ds, float) == |ds| ==> forall j | 0 <= j < |ds| :: ds[j].float == float
  {
    if ds != [] { CountOther(ds[..|ds| - 1], float); }
  }

  /** It is the register the argument is passed in exactly if all arguments before are of its class. */
  lemma AssociatedExactly(ds: seq<Decl>, k: nat, gpRegs: nat, fpRegs: nat)
    requires k < |ds| && Place(ds, k, gpRegs, fpRegs).Reg?
    ensures Associated(ds, k, gpRegs, fpRegs) == J.Some(Place(ds, k, gpRegs, fpRegs).index)
      <==> forall j | 0 <= j < k :: ds[j].float == ds[k].float
  {
    assert forall j | 0 <= j < k :: ds[..k][j] == ds[j];
    CountOther(ds[..k], ds[k].float);
    if forall j | 0 <= j < k :: ds[j].float == ds[k].float { CountAll(ds[..k], ds[k].float); }
  }

  /** A double and an integer: the integer is passed in the first register of its class, but the second
      is associated with it, and the PROLOG is not taken to write its argument register. */
  lemma MixedClasses()
    ensures var ds := [Decl(true, 8), Decl(false, 8)];
      && Place(ds, 1, 6, 8) == Reg(0) && Associated(ds, 1, 6, 8) == J.Some(1)
      && J.ArgReg(1, false) !in J.PrologArgs(CountOf(ds, false), CountOf(ds, true))
  {
    var ds := [Decl(true, 8), Decl(false, 8)];
    assert ds[..1] == [Decl(true, 8)] && ds[..1][..0] == [];
    assert CountOf(ds[..1], false) == 0 && CountOf(ds, false) == 1;
    PrologExactly(ds, 1);
  }

  /** The frame of a function as __GET_ARG_SPILL_POS sees it while the arguments are laid out: its
      register counts, but the `allocai` memory of the current function. */
  function LaidOut(info: FuncInfo, current: FuncInfo): Frame {
    Frame(info.gpRegCount, info.fpRegCount, current.allocaiMem)
  }

  /** jit_init_arg_params: where argument p with these positions is passed and where it is spilled;
      `f` is the frame as it is laid out at that time. */
  method InitArgParams(a: InpArg, p: nat, f: Frame, gpRegs: nat, fpRegs: nat) returns (r: InpArg)
    requires a.gpPos >= 0 && a.fpPos >= 0
    ensures r.float == a.float && r.size == a.size && r.gpPos == a.gpPos && r.fpPos == a.fpPos
    ensures r.passedByReg == r.location.Reg?
    ensures r.location.Reg? <==> if a.float then a.fpPos < fpRegs else a.gpPos < gpRegs
    ensures r.location.Reg? ==> r.location.index == if a.float then a.fpPos else a.gpPos
    ensures r.location.Stack? ==> r.location.offset == 16 + 8 * (Excess(a.gpPos, gpRegs) + Excess(a.fpPos, fpRegs))
    ensures (r.location.Stack? ==> r.spillPos == r.location.offset) && !r.overflow
    ensures r.location.Reg? ==> r.spillPos == ArgSpillPos(p, f)
  {
    r := a;
    if !a.float {
      var pos := a.gpPos;
      if pos < gpRegs {
        r := r.(passedByReg := true, location := Reg(pos), spillPos := ArgSpillPos(p, f));
      } else {
        var stackPos := (pos - gpRegs) + Excess(a.fpPos, fpRegs);
        r := r.(location := Stack(16 + stackPos * 8), spillPos := 16 + stackPos * 8, passedByReg := false);
      }
      r := r.(overflow := false);
      return;
    }
    var pos := a.fpPos;
    if pos < fpRegs {
      r := r.(passedByReg := true, location := Reg(pos), spillPos := ArgSpillPos(p, f));
    } else {
      var stackPos := (pos - fpRegs) + Excess(a.gpPos, gpRegs);
      r := r.(location := Stack(16 + stackPos * 8), spillPos := 16 + stackPos * 8, passedByReg := false);
    }
    r := r.(overflow := false);
  }

  /** The arguments declared since the last PROLOG. */
  ghost function Declared(ops: seq<ArgOp>): seq<Decl> {
    if ops == [] then []
    else match ops[|ops| - 1]
      case Prolog(_) => []
      case Declares(d) => Declared(ops[..|ops| - 1]) + [d]
      case Other => Declared(ops[..|ops| - 1])
  }

  ghost function Current(ops: seq<ArgOp>): FuncInfo?
  {
    if ops == [] then null
    else match ops[|ops| - 1]
      case Prolog(info) => info
      case _ => Current(ops[..|ops| - 1])
  }

  /** Every PROLOG opens a function of its own. */
  ghost predicate OwnInfos(ops: seq<ArgOp>) {
    forall i: nat, j: nat | i < j < |ops| && ops[i].Prolog? && ops[j].Prolog? :: ops[i].info != ops[j].info
  }

  lemma {:induction false} CurrentOpened(ops: seq<ArgOp>) returns (i: nat)
    requires Current(ops) != null
    ensures i < |ops| && ops[i].Prolog? && ops[i].info == Current(ops)
  {
    if ops[|ops| - 1].Prolog? { i := |ops| - 1; } else { i := CurrentOpened(ops[..|ops| - 1]); }
  }

  /** Within one function the declarations pile up. */
  lemma {:induction false} SameFunction(ops: seq<ArgOp>, i: nat, j: nat)
    requires OwnInfos(ops) && i <= j <= |ops| && Current(ops[..i]) != null
    requires Current(ops[..i]) == Current(ops[..j])
    ensures Declared(ops[..i]) <= Declared(ops[..j])
    ensures i < j && ops[i].Declares? ==> |Declared(ops[..i])| < |Declared(ops[..j])|
  {
    if i < j {
      assert ops[..j][..j - 1] == ops[..j - 1];
      if ops[j - 1].Prolog? {
        var k := CurrentOpened(ops[..i]);
        assert false;
      } else {
        SameFunction(ops, i, j - 1);
      }
    }
  }

  /** Declarations come in a function, which has an entry for each. */
  ghost predicate Room(ops: seq<ArgOp>, i: nat, lengths: map<FuncInfo, nat>)
    requires i < |ops|
  {
    ops[i].Declares? ==>
      var info := Current(ops[..i]);
      info != null && info in lengths && |Declared(ops[..i])| < lengths[info]
  }

  ghost predicate AllRoom(ops: seq<ArgOp>, lengths: map<FuncInfo, nat>) {
    forall i: nat {:trigger Room(ops, i, lengths)} | i < |ops| :: Room(ops, i, lengths)
  }

  /** What is recorded for the argument that op i declares. */
  ghost predicate Recorded(ops: seq<ArgOp>, i: nat, gpRegs: nat, fpRegs: nat, current: FuncInfo, infos: set<FuncInfo>)
    requires i < |ops|
    reads infos
  {
    ops[i].Declares? ==>
      var info, ds := Current(ops[..i]), Declared(ops[..i + 1]);
      && info in infos && |Declared(ops[..i])| < |info.args| && |Declared(ops[..i])| == |ds| - 1
      && var a := info.args[|ds| - 1];
         && a.float == ops[i].d.float && a.size == ops[i].d.size && a.passedByReg == a.location.Reg?
         && a.location == Place(ds, |ds| - 1, gpRegs, fpRegs)
         && KeptAt(a, |ds| - 1, Frame(info.gpRegCount, info.fpRegCount, current.allocaiMem)) && !a.overflow
  }

  ghost predicate RecordedUpTo(ops: seq<ArgOp>, n: nat, gpRegs: nat, fpRegs: nat, current: FuncInfo,
      infos: set<FuncInfo>)
    requires n <= |ops|
    reads infos
  {
    forall i: nat {:trigger Recorded(ops, i, gpRegs, fpRegs, current, infos)} | i < n ::
      Recorded(ops, i, gpRegs, fpRegs, current, infos)
  }

  /** The entry of argument p, whose declaration is the last of ds. */
  method MakeArg(d: Decl, p: nat, f: Frame, gpPos: nat, fpPos: nat, gpRegs: nat, fpRegs: nat, ghost ds: seq<Decl>)
    returns (a: InpArg)
    requires |ds| == p + 1 && ds[p] == d
    requires gpPos == CountOf(ds[..p], false) && fpPos == CountOf(ds[..p], true)
    ensures a.float == d.float && a.size == d.size && a.passedByReg == a.location.Reg? && !a.overflow
    ensures a.location == Place(ds, p, gpRegs, fpRegs) && KeptAt(a, p, f)
  {
    StackArgsAreTheExcess(ds, p, gpRegs, fpRegs);
    a := InpArg(d.float, d.size, gpPos, fpPos, false, Reg(0), 0, false);
    a := InitArgParams(a, p, f, gpRegs, fpRegs);
  }

  /** The branch of the loop for a DECL_ARG. */
  method DeclareArg(ops: seq<ArgOp>, n: nat, info: FuncInfo, argpos: nat, gpPos: nat, fpPos: nat, gpRegs: nat,
                    fpRegs: nat, current: FuncInfo, ghost infos: set<FuncInfo>)
    requires OwnInfos(ops) && n < |ops| && ops[n].Declares? && info == Current(ops[..n]) && info in infos
    requires argpos == |Declared(ops[..n])| < |info.args|
    requires gpPos == CountOf(Declared(ops[..n]), false) && fpPos == CountOf(Declared(ops[..n]), true)
    requires RecordedUpTo(ops, n, gpRegs, fpRegs, current, infos)
    modifies info
    ensures RecordedUpTo(ops, n + 1, gpRegs, fpRegs, current, infos) && |info.args| == old(|info.args|)
  {
    assert ops[..n + 1][..n] == ops[..n];
    ghost var ds := Declared(ops[..n + 1]);
    assert ds[..argpos] == Declared(ops[..n]) && ds[argpos] == ops[n].d;
    var a := MakeArg(ops[n].d, argpos, LaidOut(info, current), gpPos, fpPos, gpRegs, fpRegs, ds);
    info.args := info.args[argpos := a];
    forall i: nat | i < n ensures Recorded(ops, i, gpRegs, fpRegs, current, infos) {
      assert old(Recorded(ops, i, gpRegs, fpRegs, current, infos));
      if ops[i].Declares? && Current(ops[..i]) == info { SameFunction(ops, i, n); }
      assert ops[..i + 1][..i] == ops[..i];
    }
  }

  /** __initialize_arguments: every declared argument is recorded where the rule places it. */
  method InitializeArguments(ops: seq<ArgOp>, gpRegs: nat, fpRegs: nat, current: FuncInfo, ghost infos: set<FuncInfo>)
    requires OwnInfos(ops) && (forall i: nat | i < |ops| && ops[i].Prolog? :: ops[i].info in infos)
    requires AllRoom(ops, map f | f in infos :: |f.args|)
    modifies infos
    ensures RecordedUpTo(ops, |ops|, gpRegs, fpRegs, current, infos)
    ensures forall f <- infos :: |f.args| == old(|f.args|)
  {
    ghost var lengths := map f | f in infos :: |f.args|;
    var info: FuncInfo? := null;
    var gpPos, fpPos, argpos := 0, 0, 0;
    var n := 0;
    while n < |ops|
      invariant n <= |ops|
      invariant info == Current(ops[..n]) && argpos == |Declared(ops[..n])|
      invariant gpPos == CountOf(Declared(ops[..n]), false) && fpPos == CountOf(Declared(ops[..n]), true)
      invariant forall f <- infos :: |f.args| == lengths[f]
      invariant RecordedUpTo(ops, n, gpRegs, fpRegs, current, infos)
    {
      assert ops[..n + 1][..n] == ops[..n];
      match ops[n] {
      case Prolog(f) =>
        info, gpPos, fpPos, argpos := f, 0, 0, 0;
      case Declares(d) =>
        assert Room(ops, n, lengths);
        DeclareArg(ops, n, info, argpos, gpPos, fpPos, gpRegs, fpRegs, current, infos);
        if d.float { fpPos := fpPos + 1; } else { gpPos := gpPos + 1; }
        argpos := argpos + 1;
      case Other =>
      }
      n := n + 1;
    }
  }
}
