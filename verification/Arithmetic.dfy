/** 64-bit arithmetic of the ops the peephole passes know about. */
module Arithmetic {
  import opened JitOps
  import opened DeadAssign

  const WORD: int := 0x1_0000_0000_0000_0000

  function Wrap(x: int): Word {
    x % 0x1_0000_0000_0000_0000
  }

  function Pow2(n: nat): nat {
    if n == 0 then 1 else 2 * Pow2(n - 1)
  }

  /** x times 2^n. */
  function Shl(x: int, n: nat): int {
    if n == 0 then x else 2 * Shl(x, n - 1)
  }

  /** Bitwise or of two words. */
  function BitOr(x: nat, y: nat): nat
    decreases x
  {
    if x == 0 then y else if y == 0 then x
    else (if x % 2 == 1 || y % 2 == 1 then 1 else 0) + 2 * BitOr(x / 2, y / 2)
  }

  /** The low n bits of x are zero. */
  predicate LowZero(x: nat, n: nat) {
    n == 0 || (x % 2 == 0 && LowZero(x / 2, n - 1))
  }

  /** Or is addition where the low bits of one operand are zero and the other has no more bits. */
  lemma {:induction false} OrIsAdd(x: nat, y: nat, n: nat)
    requires LowZero(x, n) && y < Pow2(n)
    ensures BitOr(x, y) == x + y
  {
    if n > 0 && x > 0 && y > 0 {
      OrIsAdd(x / 2, y / 2, n - 1);
    }
  }

  /** Sign extension of the low 32 bits: what an instruction makes of its immediate field. */
  function Imm32(x: Word): Word {
    var low := x % 0x1_0000_0000;
    if low < 0x8000_0000 then low else low + WORD - 0x1_0000_0000
  }

  predicate FitsImm32(x: Word) {
    Imm32(x) == Wrap(x)
  }

  /** The field keeps the low half. */
  lemma Imm32Half(x: Word)
    ensures 0 <= Imm32(x) < WORD && (Imm32(x) - x) % 0x1_0000_0000 == 0
  {
    var k := x / 0x1_0000_0000;
    var d := if x % 0x1_0000_0000 < 0x8000_0000 then 0 else 0xFFFF_FFFF;
    assert Imm32(x) - x == (d - k) * 0x1_0000_0000;
  }

  /** The low n bytes of v, written from address a on, the least first. */
  function StoreBytes(mem: map<Word, Word>, a: Word, v: Word, n: nat): map<Word, Word>
    decreases n
  {
    if n == 0 then mem else StoreBytes(mem[Wrap(a) := v % 256], a + 1, v / 256, n - 1)
  }

  function StoreTo(w: World, a: Word, v: Word, n: nat): World {
    w.(mem := StoreBytes(w.mem, a, v, n))
  }

  /** Byte i of a value, the lowest first. */
  function ByteOf(v: Word, i: nat): Word
    decreases i
  {
    if i == 0 then v % 256 else ByteOf(v / 256, i - 1)
  }

  lemma NextPlace(a: Word, b: Word)
    requires 0 <= b < WORD
    ensures Wrap(b - a) == 0 <==> b == Wrap(a)
    ensures Wrap(b - (a + 1)) == if b == Wrap(a) then WORD - 1 else Wrap(b - a) - 1
  {
    var k := a / 0x1_0000_0000_0000_0000;
    var r := a - k * 0x1_0000_0000_0000_0000;
    WrapShift(b - r, -k);
    WrapShift(b - r - 1, -k);
  }

  /** A store writes the bytes of its value upwards from its address, the lowest first, and no others. */
  lemma {:induction false} StoredBytes(mem: map<Word, Word>, a: Word, v: Word, n: nat, b: Word)
    requires n <= 8 && 0 <= b < WORD
    ensures Read(StoreBytes(mem, a, v, n), b) == if Wrap(b - a) < n then ByteOf(v, Wrap(b - a)) else Read(mem, b)
    decreases n
  {
    if n > 0 {
      NextPlace(a, b);
      StoredBytes(mem[Wrap(a) := v % 256], a + 1, v / 256, n - 1, b);
    }
  }

  lemma {:induction false} ShlIsProduct(x: int, n: nat)
    ensures Shl(x, n) == x * Pow2(n)
  {
    if n > 0 { ShlIsProduct(x, n - 1); }
  }

  predicate Known(op: AluOp) {
    op == MOV || op == ADD || op == SUB || op == MUL || op == LSH || op == OR
    || op == ADDMUL_IMM || op == ADDMUL_REG || op == ADDIMM
  }

  /** The value a known op delivers; 0 stands for all others.  The ops that become a LEA have their
      constant cut to a 32-bit displacement. */
  function Meaning(op: AluOp, size: nat, extra: Word, x: Word, y: Word): Word {
    match op
    case MOV => Wrap(x)
    case ADD => Wrap(x + y)
    case SUB => Wrap(x - y)
    case MUL => Wrap(x * y)
    case LSH => Wrap(Shl(x, y % 64))
    case OR => BitOr(Wrap(x), Wrap(y))
    case ADDMUL_IMM => Wrap(Shl(x, size) + Imm32(y))
    case ADDMUL_REG => Wrap(x + Shl(y, size))
    case ADDIMM => Wrap(x + y + Imm32(extra))
    case _ => 0
  }

  /** A shift to the left multiplies by a power of two; of its distance the low six bits count. */
  lemma ShiftMeaning(size: nat, extra: Word, x: Word, y: Word)
    ensures Meaning(LSH, size, extra, x, y) == Wrap(x * Pow2(y % 64))
  {
    ShlIsProduct(x, y % 64);
  }

  function StoreEffect(op: AluOp, size: nat, x1: Word, x2: Word, x3: Word, w: World): World
    requires Stores(op)
  {
    match op
    case ST => StoreTo(w, x1, x2, size)
    case STX => StoreTo(w, x1 + x2, x3, size)
    case STI => StoreTo(w, x1, Imm32(x2), size)
    case STXI => StoreTo(w, x1 + x2, Imm32(x3), size)
    case _ => assert false; w
  }

  /** What an overflow branch leaves in its first operand. */
  function Sum(k: TestKind, x: Word, y: Word): Word {
    match k
    case BOADD => Wrap(x + y)
    case BOSUB => Wrap(x - y)
    case _ => x
  }

  /** The ops mean what the machine's arithmetic makes of them. */
  ghost predicate Standard(sem: Sem) {
    && OnlyValues(sem)
    && (forall op: AluOp, u, size, extra, x, y, w {:trigger sem.result(op, u, size, extra, x, y, w)} ::
      Known(op) ==> sem.result(op, u, size, extra, x, y, w) == Meaning(op, size, extra, x, y))
    && (forall op: AluOp, u, size, x1, x2, x3, w {:trigger sem.effect(op, u, size, x1, x2, x3, w)} ::
      Stores(op) ==> sem.effect(op, u, size, x1, x2, x3, w) == StoreEffect(op, size, x1, x2, x3, w))
    && (forall k: TestKind, x, y {:trigger sem.sum(k, x, y)} :: sem.sum(k, x, y) == Sum(k, x, y))
  }

  /** One such machine; its ADDC and the like leave the carry alone. */
  function ReferenceSem(): Sem {
    Sem((op: AluOp, u: bool, size: nat, extra: Word, x: Word, y: Word, w: World) => Meaning(op, size, extra, x, y),
        (op: AluOp, u: bool, size: nat, x1: Word, x2: Word, x3: Word, w: World) =>
          if Stores(op) then StoreEffect(op, size, x1, x2, x3, w) else w,
        (u, x, y) => x < y, (k, x, y) => false, (k, x, y) => Sum(k, x, y), r => 0,
        (op: Op, hw: map<HReg, Word>) => hw)
  }

  lemma StandardExists()
    ensures Standard(ReferenceSem())
  {
  }

  // ---------- words modulo 2^64 ----------

  lemma WrapShift(x: int, k: int)
    ensures Wrap(x + k * 0x1_0000_0000_0000_0000) == Wrap(x)
  {
  }

  lemma WrapAdd(x: int, y: int)
    ensures Wrap(Wrap(x) + y) == Wrap(x + y) && Wrap(y - Wrap(x)) == Wrap(y - x)
  {
    var k := x / 0x1_0000_0000_0000_0000;
    assert Wrap(x) == x - k * 0x1_0000_0000_0000_0000;
    WrapShift(x + y, -k);
    WrapShift(y - x, k);
  }

  lemma WrapSame(x: int, y: int)
    ensures Wrap(x) == Wrap(y) <==> Wrap(x - y) == 0
  {
  }
}
