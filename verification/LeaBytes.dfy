/** The bytes of the LEA instructions (x86_membase_emit, x86_memindex_emit and the amd64_lea macros),
    against the address that the processor reads from them. */
module LeaBytes {
  import opened JitOps
  import opened Arithmetic
  import opened Emission

  /** A general register, 0 to 15; RSP is 4 and RBP is 5. */
  type Reg = r: nat | r < 16

  /** base + index * 2^shift + displacement, either register being optional. */
  datatype Address = Address(base: Option<Reg>, index: Option<Reg>, shift: nat, disp: int)

  // ---------- what the macros write ----------

  const X86_NOBASEREG: int := -1
  const ESP: int := 4
  const EBP: int := 5

  /** x86_address_byte */
  function AddressByte(m: int, o: int, r: int): Byte {
    m % 4 * 64 + o % 8 * 8 + r % 8
  }

  /** amd64_emit_rex with an operand size of 8 */
  function RexByte(reg: int, index: int, base: int): Byte {
    0x48 + (if reg > 7 then 4 else 0) + (if index > 7 then 2 else 0) + (if base > 7 then 1 else 0)
  }

  /** The value that a cast to int leaves. */
  function Int32(v: int): int {
    var low := v % 0x1_0000_0000;
    if low < 0x8000_0000 then low else low - 0x1_0000_0000
  }

  /** x86_is_imm8 */
  predicate IsImm8(v: int) {
    -128 <= Int32(v) <= 127
  }

  /** x86_membase_emit */
  function MemBase(r: int, base: int, disp: int): seq<Byte> {
    if base == ESP then
      if disp == 0 then [AddressByte(0, r, ESP), AddressByte(0, ESP, ESP)]
      else if IsImm8(disp) then [AddressByte(1, r, ESP), AddressByte(0, ESP, ESP), disp % 256]
      else [AddressByte(2, r, ESP), AddressByte(0, ESP, ESP)] + Le32(disp)
    else if disp == 0 && base != EBP then [AddressByte(0, r, base)]
    else if IsImm8(disp) then [AddressByte(1, r, base), disp % 256]
    else [AddressByte(2, r, base)] + Le32(disp)
  }

  /** x86_memindex_emit */
  function MemIndex(r: int, base: int, disp: int, index: int, shift: int): seq<Byte> {
    if base == X86_NOBASEREG then [AddressByte(0, r, 4), AddressByte(shift, index, 5)] + Le32(disp)
    else if disp == 0 && base != EBP then [AddressByte(0, r, 4), AddressByte(shift, index, base)]
    else if IsImm8(disp) then [AddressByte(1, r, 4), AddressByte(shift, index, base), disp % 256]
    else [AddressByte(2, r, 4), AddressByte(shift, index, 5)] + Le32(disp)
  }

  /** amd64_lea_membase: the register numbers are cut to three bits before they are passed on. */
  function LeaMemBase(d: Reg, base: int, disp: int): seq<Byte> {
    [RexByte(d, 0, base), 0x8d] + MemBase(d % 8, base % 8, disp)
  }

  /** amd64_lea_memindex */
  function LeaMemIndex(d: Reg, base: int, disp: int, index: int, shift: int): seq<Byte> {
    [RexByte(d, index, base), 0x8d] + MemIndex(d % 8, base % 8, disp, index % 8, shift)
  }

  // ---------- what the processor reads ----------

  function Signed(b: int): int {
    if b < 128 then b else b - 256
  }

  /** The displacement behind the address bytes, by the mode field. */
  function DispAt(mode: int, code: seq<Byte>): Option<int> {
    if mode == 0 then Some(0)
    else if mode == 1 then
      if |code| >= 1 then Some(Signed(code[0])) else None
    else if |code| >= 4 then Some(Disp(code[..4])) else None
  }

  function Extended(field: int, bit: int): Reg {
    field % 8 + 8 * (bit % 2)
  }

  /** A LEA with a REX prefix: the target register and the address.  An address relative to the
      instruction pointer is none of these. */
  function DecodeLea(code: seq<Byte>): Option<(Reg, Address)> {
    if |code| < 3 || code[0] / 16 != 4 || code[1] != 0x8d || code[2] / 64 == 3 then None
    else
      var rex: int, mode: int, d := code[0], code[2] / 64, Extended(code[2] / 8, code[0] / 4);
      if code[2] % 8 == 4 then
        if |code| < 4 then None
        else
          var sib: int := code[3];
          var index := Extended(sib / 8, rex / 2);
          var noBase := mode == 0 && sib % 8 == 5;
          match DispAt(if noBase then 2 else mode, code[4..])
          case None => None
          case Some(disp) =>
            Some((d, Address(if noBase then None else Some(Extended(sib, rex)),
                             if index == 4 then None else Some(index), sib / 64, disp)))
      else if mode == 0 && code[2] % 8 == 5 then None
      else
        match DispAt(mode, code[3..])
        case None => None
        case Some(disp) => Some((d, Address(Some(Extended(code[2], rex)), None, 0, disp)))
  }

  // ---------- the fields ----------

  lemma Fields(m: int, o: int, r: int)
    requires 0 <= m < 4 && 0 <= o < 8 && 0 <= r < 8
    ensures var b := AddressByte(m, o, r); b / 64 == m && b / 8 % 8 == o && b % 8 == r
  {
    var b := AddressByte(m, o, r);
    assert b == 8 * (8 * m + o) + r;
    assert b / 8 == 8 * m + o;
  }

  lemma ExtendedIs(field: int, bit: int, r: Reg)
    requires field % 8 == r % 8 && bit % 2 == r / 8
    ensures Extended(field, bit) == r
  {
  }

  lemma RexFields(reg: Reg, index: Reg, base: int)
    requires -1 <= base < 16
    ensures var b := RexByte(reg, index, base);
      && b / 16 == 4 && b / 4 % 2 == reg / 8 && b / 2 % 2 == index / 8 && b % 2 == if base > 7 then 1 else 0
  {
  }

  lemma Disp32Read(disp: int)
    ensures Disp(Le32(disp)) == Int32(disp)
  {
    DispOfLe32(Int32(disp));
    assert Int32(disp) % 0x1_0000_0000 == disp % 0x1_0000_0000;
  }

  lemma LowByte(v: int, w: int, k: int)
    requires v == w + 0x1_0000_0000 * k
    ensures v % 256 == w % 256
  {
    assert v == w + 256 * (0x100_0000 * k);
  }

  lemma Disp8Read(disp: int)
    requires IsImm8(disp)
    ensures Signed(disp % 256) == Int32(disp)
  {
    var low := disp % 0x1_0000_0000;
    LowByte(disp, Int32(disp), disp / 0x1_0000_0000 + if low < 0x8000_0000 then 0 else 1);
  }

  /** The mode that goes with a displacement, and the bytes that the displacement takes. */
  function Mode(base: int, disp: int): int {
    if disp == 0 && base != EBP then 0 else if IsImm8(disp) then 1 else 2
  }

  function Tail(mode: int, disp: int): seq<Byte> {
    if mode == 0 then [] else if mode == 1 then [disp % 256] else Le32(disp)
  }

  lemma TailRead(base: int, disp: int)
    ensures DispAt(Mode(base, disp), Tail(Mode(base, disp), disp)) == Some(Int32(disp))
  {
    if Mode(base, disp) == 1 { Disp8Read(disp); } else { Disp32Read(disp); }
    assert Le32(disp)[..4] == Le32(disp);
  }

  lemma BaseParts(r: int, base: int, disp: int)
    ensures var m := Mode(base, disp);
      MemBase(r, base, disp)
      == if base == ESP then [AddressByte(m, r, ESP), AddressByte(0, ESP, ESP)] + Tail(m, disp)
         else [AddressByte(m, r, base)] + Tail(m, disp)
  {
  }

  lemma IndexParts(r: int, base: int, disp: int, index: int, shift: int)
    requires base >= 0
    ensures var m := Mode(base, disp);
      MemIndex(r, base, disp, index, shift)
      == [AddressByte(m, r, 4), AddressByte(shift, index, if m == 2 then EBP else base)] + Tail(m, disp)
  {
  }

  // ---------- reading them ----------

  lemma PlainReads(rex: Byte, modrm: Byte, tail: seq<Byte>, disp: int)
    requires rex / 16 == 4 && modrm / 64 != 3 && modrm % 8 != 4 && !(modrm / 64 == 0 && modrm % 8 == 5)
    requires DispAt(modrm / 64, tail) == Some(disp)
    ensures DecodeLea([rex, 0x8d] + ([modrm] + tail))
         == Some((Extended(modrm / 8, rex / 4), Address(Some(Extended(modrm, rex)), None, 0, disp)))
  {
    var code := [rex, 0x8d] + ([modrm] + tail);
    assert code[3..] == tail && code[2] == modrm && code[0] == rex;
  }

  lemma SibReads(rex: Byte, modrm: Byte, sib: Byte, tail: seq<Byte>, disp: int)
    requires rex / 16 == 4 && modrm / 64 != 3 && modrm % 8 == 4 && !(modrm / 64 == 0 && sib % 8 == 5)
    requires DispAt(modrm / 64, tail) == Some(disp)
    ensures var index := Extended(sib / 8, rex / 2);
      DecodeLea([rex, 0x8d] + ([modrm, sib] + tail))
      == Some((Extended(modrm / 8, rex / 4),
               Address(Some(Extended(sib, rex)), if index == 4 then None else Some(index), sib / 64, disp)))
  {
    var code := [rex, 0x8d] + ([modrm, sib] + tail);
    assert code[4..] == tail && code[3] == sib && code[2] == modrm && code[0] == rex;
  }

  // ---------- the addresses ----------

  lemma EspBaseRight(rex: Byte, modrm: Byte, sib: Byte, tail: seq<Byte>, d: Reg, base: Reg, disp: int)
    requires rex / 16 == 4 && rex / 4 % 2 == d / 8 && rex / 2 % 2 == 0 && rex % 2 == base / 8 && base % 8 == 4
    requires modrm / 64 < 3 && modrm / 8 % 8 == d % 8 && modrm % 8 == 4
    requires sib / 64 == 0 && sib / 8 % 8 == 4 && sib % 8 == 4 && DispAt(modrm / 64, tail) == Some(disp)
    ensures DecodeLea([rex, 0x8d] + ([modrm, sib] + tail)) == Some((d, Address(Some(base), None, 0, disp)))
  {
    SibReads(rex, modrm, sib, tail, disp);
    ExtendedIs(modrm / 8, rex / 4, d);
    ExtendedIs(sib / 8, rex / 2, 4);
    ExtendedIs(sib, rex, base);
  }

  lemma OtherBaseRight(rex: Byte, modrm: Byte, tail: seq<Byte>, d: Reg, base: Reg, disp: int)
    requires rex / 16 == 4 && rex / 4 % 2 == d / 8 && rex % 2 == base / 8 && base % 8 != 4
    requires modrm / 64 < 3 && modrm / 8 % 8 == d % 8 && modrm % 8 == base % 8
    requires !(modrm / 64 == 0 && base % 8 == 5) && DispAt(modrm / 64, tail) == Some(disp)
    ensures DecodeLea([rex, 0x8d] + ([modrm] + tail)) == Some((d, Address(Some(base), None, 0, disp)))
  {
    PlainReads(rex, modrm, tail, disp);
    ExtendedIs(modrm / 8, rex / 4, d);
    ExtendedIs(modrm, rex, base);
  }

  /** LEA with a base and a displacement is read as it is meant, for every register. */
  lemma MemBaseRight(d: Reg, base: Reg, disp: int)
    ensures DecodeLea(LeaMemBase(d, base, disp)) == Some((d, Address(Some(base), None, 0, Int32(disp))))
  {
    var b, m, rex := base % 8, Mode(base % 8, disp), RexByte(d, 0, base);
    RexFields(d, 0, base);
    BaseParts(d % 8, b, disp);
    TailRead(b, disp);
    Fields(m, d % 8, b);
    if b == ESP {
      Fields(0, 4, 4);
      EspBaseRight(rex, AddressByte(m, d % 8, ESP), AddressByte(0, ESP, ESP), Tail(m, disp), d, base, Int32(disp));
    } else {
      OtherBaseRight(rex, AddressByte(m, d % 8, b), Tail(m, disp), d, base, Int32(disp));
    }
  }

  /** The base register that the processor reads: with a displacement beyond 8 bits the macro writes
      EBP for it, and "no base" is number 7 once it is cut to three bits. */
  function BaseRead(base: int, disp: int): Reg
    requires -1 <= base < 16
  {
    var low := if IsImm8(disp) then base % 8 else EBP;
    if base > 7 then low + 8 else low
  }

  lemma BaseReadIs(base: Reg, disp: int)
    ensures BaseRead(base, disp) == base <==> IsImm8(disp) || base % 8 == EBP
  {
  }

  lemma MemIndexReads(d: Reg, base: int, disp: int, index: Reg, shift: nat)
    requires -1 <= base < 16 && index != ESP && shift < 4
    ensures DecodeLea(LeaMemIndex(d, base, disp, index, shift))
         == Some((d, Address(Some(BaseRead(base, disp)), Some(index), shift, Int32(disp))))
  {
    var b, m := base % 8, Mode(base % 8, disp);
    var low := if m == 2 then EBP else b;
    RexFields(d, index, base);
    IndexParts(d % 8, b, disp, index % 8, shift);
    TailRead(b, disp);
    Fields(m, d % 8, 4);
    Fields(shift, index % 8, low);
    SibReads(RexByte(d, index, base), AddressByte(m, d % 8, 4), AddressByte(shift, index % 8, low), Tail(m, disp),
      Int32(disp));
  }

  /** LEA with a base, an index and a displacement is read as it is meant exactly when the
      displacement has 8 bits or the base is RBP or R13. */
  lemma MemIndexExactly(d: Reg, base: Reg, disp: int, index: Reg, shift: nat)
    requires index != ESP && shift < 4
    ensures DecodeLea(LeaMemIndex(d, base, disp, index, shift))
              == Some((d, Address(Some(base), Some(index), shift, Int32(disp))))
       <==> IsImm8(disp) || base % 8 == EBP
  {
    MemIndexReads(d, base, disp, index, shift);
    BaseReadIs(base, disp);
  }

  // ---------- the ops that become a LEA ----------

  type Regs = Reg -> Word

  function RegValue(regs: Regs, r: Option<Reg>): Word {
    match r
    case None => 0
    case Some(r) => regs(r)
  }

  /** What LEA puts into its target. */
  function Value(regs: Regs, a: Address): Word {
    Wrap(RegValue(regs, a.base) + Shl(RegValue(regs, a.index), a.shift) + a.disp)
  }

  /** The bytes are a LEA that delivers v. */
  predicate Delivers(code: seq<Byte>, d: Reg, regs: Regs, v: Word) {
    DecodeLea(code).Some? && DecodeLea(code).value.0 == d && Value(regs, DecodeLea(code).value.1) == v
  }

  lemma DeliversRead(code: seq<Byte>, d: Reg, a: Address, regs: Regs, v: Word)
    requires DecodeLea(code) == Some((d, a))
    ensures Delivers(code, d, regs, v) <==> Value(regs, a) == v
  {
  }

  lemma SumRead(regs: Regs, b: Reg, i: Reg, n: nat, disp: int)
    ensures Value(regs, Address(Some(b), Some(i), n, disp)) == Wrap(regs(b) + Shl(regs(i), n) + disp)
  {
  }

  lemma Int32IsImm32(v: Word, x: int)
    ensures Wrap(x + Int32(v)) == Wrap(x + Imm32(v))
  {
    if v % 0x1_0000_0000 >= 0x8000_0000 {
      WrapShift(x + Int32(v), 1);
    }
  }

  lemma SumsAgree(b: Word, x: Word, y: Word, extra: Word)
    ensures Wrap(b + Shl(y, 0) + Int32(extra)) == Meaning(ADDIMM, 0, extra, x, y) <==> Wrap(b - x) == 0
  {
    Int32IsImm32(extra, x + y);
    WrapSame(b + y + Int32(extra), x + y + Int32(extra));
  }

  /** The bytes of JIT_X86_ADDIMM deliver what the op means. */
  predicate AddsImm(d: Reg, base: Reg, index: Reg, extra: Word, regs: Regs) {
    Delivers(LeaMemIndex(d, base, extra, index, 0), d, regs, Meaning(ADDIMM, 0, extra, regs(base), regs(index)))
  }

  lemma {:induction false} AddsImmAt(d: Reg, base: Reg, index: Reg, extra: Word, regs: Regs)
    requires index != ESP
    ensures AddsImm(d, base, index, extra, regs) <==> Wrap(regs(BaseRead(base, extra)) - regs(base)) == 0
  {
    var b, code, v := BaseRead(base, extra), LeaMemIndex(d, base, extra, index, 0),
      Meaning(ADDIMM, 0, extra, regs(base), regs(index));
    MemIndexReads(d, base, extra, index, 0);
    DeliversRead(code, d, Address(Some(b), Some(index), 0, Int32(extra)), regs, v);
    SumRead(regs, b, index, 0, Int32(extra));
    SumsAgree(regs(b), regs(base), regs(index), extra);
  }

  lemma AddImmRight(d: Reg, base: Reg, index: Reg, extra: Word, regs: Regs)
    requires index != ESP && BaseRead(base, extra) == base
    ensures AddsImm(d, base, index, extra, regs)
  {
    AddsImmAt(d, base, index, extra, regs);
  }

  lemma OneAway(x: Word, y: Word)
    requires x == 0 && y == 1
    ensures Wrap(x - y) != 0
  {
  }

  lemma AddImmWrong(d: Reg, base: Reg, index: Reg, extra: Word) returns (regs: Regs)
    requires index != ESP && BaseRead(base, extra) != base
    ensures !AddsImm(d, base, index, extra, regs)
  {
    regs := r => if r == base then 1 else 0;
    OneAway(regs(BaseRead(base, extra)), regs(base));
    AddsImmAt(d, base, index, extra, regs);
  }

  /** ... for all contents of the registers exactly when the constant has 8 bits or the base is RBP
      or R13, which the allocator never gives out. */
  lemma AddImmExactly(d: Reg, base: Reg, index: Reg, extra: Word)
    requires index != ESP
    ensures IsImm8(extra) || base % 8 == EBP <==> forall regs: Regs :: AddsImm(d, base, index, extra, regs)
  {
    BaseReadIs(base, extra);
    if BaseRead(base, extra) == base {
      forall regs: Regs ensures AddsImm(d, base, index, extra, regs) {
        AddImmRight(d, base, index, extra, regs);
      }
    } else {
      var regs := AddImmWrong(d, base, index, extra);
    }
  }

  /** JIT_X86_ADDMUL with a register is always right. */
  lemma AddMulRight(d: Reg, base: Reg, index: Reg, size: nat, regs: Regs)
    requires index != ESP && size < 4
    ensures Delivers(LeaMemIndex(d, base, 0, index, size), d, regs,
      Meaning(ADDMUL_REG, size, 0, regs(base), regs(index)))
  {
    MemIndexReads(d, base, 0, index, size);
    BaseReadIs(base, 0);
  }

  lemma BaseAdded(b: Word, x: int, v: Word)
    ensures Wrap(b + x + Int32(v)) == Wrap(x + Imm32(v)) <==> Wrap(b) == 0
  {
    Int32IsImm32(v, x);
    WrapSame(b + x + Int32(v), x + Int32(v));
  }

  /** JIT_X86_ADDMUL with an immediate: no base is meant, but RDI or RBP is read, so the bytes are right
      exactly where that register holds zero. */
  lemma AddMulImmExactly(d: Reg, index: Reg, size: nat, v: Word, regs: Regs)
    requires index != ESP && size < 4
    ensures Delivers(LeaMemIndex(d, X86_NOBASEREG, v, index, size), d, regs,
      Meaning(ADDMUL_IMM, size, 0, regs(index), v))
       <==> Wrap(regs(if IsImm8(v) then 7 else EBP)) == 0
  {
    MemIndexReads(d, X86_NOBASEREG, v, index, size);
    BaseAdded(regs(if IsImm8(v) then 7 else EBP), Shl(regs(index), size), v);
  }
}
