/** The stack slots that spilled registers and arguments get (amd64-specific.h), and which of them
    are one slot for two registers. */
module StackFrame {
  import opened JitOps

  /** struct jit_reg */
  datatype Name = Name(isFloat: bool, spec: nat, id: nat)

  /** What the layout of a function's frame depends on. */
  datatype Frame = Frame(gpRegs: nat, fpRegs: nat, allocaiMem: nat)

  const REG_SIZE: int := 8

  /** __GET_ARG_SPILL_POS */
  function ArgSpillPos(arg: int, f: Frame): int {
    -(arg + f.gpRegs + f.fpRegs) * REG_SIZE - f.allocaiMem
  }

  /** __GET_REG_POS: where UREG puts the register and LREG finds it. */
  function RegPos(r: Name, f: Frame): int {
    if r.spec != RTYPE_REG then ArgSpillPos(r.id, f)
    else if r.isFloat then 0 - f.gpRegs * REG_SIZE - (r.id + 1) * REG_SIZE - f.allocaiMem
    else -(r.id + 1) * REG_SIZE - f.allocaiMem
  }

  /** The frame counts the register. */
  predicate Counted(r: Name, f: Frame) {
    r.spec == RTYPE_REG ==> r.id < if r.isFloat then f.fpRegs else f.gpRegs
  }

  /** The register whose slot is the lowest. */
  predicate IsLast(r: Name, f: Frame) {
    r.spec == RTYPE_REG
    && if f.fpRegs > 0 then r.isFloat && r.id == f.fpRegs - 1 else !r.isFloat && r.id + 1 == f.gpRegs
  }

  /** r is an argument or immediate register, and s one with its number, or the last register and
      r has number 0. */
  predicate Meets(r: Name, s: Name, f: Frame) {
    r.spec != RTYPE_REG && if s.spec == RTYPE_REG then r.id == 0 && IsLast(s, f) else r.id == s.id
  }

  /** Two registers share a slot exactly then; the slots of R and FR registers are all apart. */
  lemma SlotsMeetExactly(r: Name, s: Name, f: Frame)
    requires r != s && Counted(r, f) && Counted(s, f)
    ensures RegPos(r, f) == RegPos(s, f) <==> Meets(r, s, f) || Meets(s, r, f)
  {
  }

  /** The bytes that the PROLOG reserves below the frame pointer. */
  function StackMem(f: Frame, args: nat): int {
    f.allocaiMem + (f.gpRegs + f.fpRegs + args) * REG_SIZE
  }

  /** A slot lies in the reserved bytes, and below the `allocai` memory except for number 0 of an
      argument or immediate register in a function that counts no register. */
  lemma SlotInFrameExactly(r: Name, f: Frame, args: nat)
    requires Counted(r, f) && (r.spec != RTYPE_REG ==> r.id < args)
    ensures -StackMem(f, args) <= RegPos(r, f)
    ensures f.allocaiMem + REG_SIZE <= 0 - RegPos(r, f) <==> !(r.spec != RTYPE_REG && r.id + f.gpRegs + f.fpRegs == 0)
  {
  }

  /** A spilled argument is read back from the slot it was put in exactly when the function that was
      current when the arguments were laid out has as much `allocai` memory. */
  lemma ReadBackExactly(arg: nat, isFloat: bool, f: Frame, laidOut: Frame)
    requires laidOut.gpRegs == f.gpRegs && laidOut.fpRegs == f.fpRegs
    ensures ArgSpillPos(arg, laidOut) == RegPos(Name(isFloat, RTYPE_ARG, arg), f)
      <==> laidOut.allocaiMem == f.allocaiMem
  {
  }
}
