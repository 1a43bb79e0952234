/** The flags of the processor and the conditional jumps that test them, against what the branch ops
    mean. */
module Conditions {
  import opened JitOps
  import T = TwoAddress

  /** ZF, CF, SF, OF and PF. */
  datatype Flags = Flags(zero: bool, carry: bool, sign: bool, overflow: bool, parity: bool)

  /** Whether an even number of the low n bits is one. */
  function EvenBits(x: nat, n: nat): bool {
    n == 0 || ((x % 2 == 1) != EvenBits(x / 2, n - 1))
  }

  /** The flags that the result alone decides. */
  function OfResult(r: T.W, carry: bool, overflow: bool): Flags {
    Flags(r == 0, carry, r >= 0x8000_0000_0000_0000, overflow, r >= 0 && EvenBits(r % 256, 8))
  }

  /** CMP and SUB: borrow and signed overflow of the difference. */
  function FlagsOfSub(x: T.W, y: T.W): Flags {
    var r := T.Wrap(x - y);
    OfResult(r, x < y, T.Signed(x) - T.Signed(y) != T.Signed(r))
  }

  function FlagsOfAdd(x: T.W, y: T.W): Flags {
    var r := T.Wrap(x + y);
    OfResult(r, x + y >= 0x1_0000_0000_0000_0000, T.Signed(x) + T.Signed(y) != T.Signed(r))
  }

  function FlagsOfTest(x: T.W, y: T.W): Flags {
    OfResult(T.Alu(T.AND, x, y), false, false)
  }

  /** The condition that the low four bits of a Jcc's last opcode byte stand for: three bits select it,
      the lowest one negates it. */
  function JumpsOn(opcode: int, f: Flags): bool {
    var tested :=
      match opcode / 2 % 8
      case 0 => f.overflow
      case 1 => f.carry
      case 2 => f.zero
      case 3 => f.carry || f.zero
      case 4 => f.sign
      case 5 => f.parity
      case 6 => f.sign != f.overflow
      case _ => f.zero || f.sign != f.overflow;
    tested != (opcode % 2 == 1)
  }

  // ---------- what is emitted ----------

  /** The condition tables of x86-codegen.h, and X86_CC_NZ, X86_CC_Z and X86_CC_O for the others. */
  function ConditionByte(code: Code): (b: int)
    ensures 0x70 <= b < 0x80
  {
    match code
    case BRANCH(c, unsigned) =>
      (match c
       case EQ => 0x74
       case NE => 0x75
       case LT => if unsigned then 0x72 else 0x7c
       case LE => if unsigned then 0x76 else 0x7e
       case GT => if unsigned then 0x77 else 0x7f
       case GE => if unsigned then 0x73 else 0x7d)
    case TEST(BMS) => 0x75
    case TEST(BMC) => 0x74
    case _ => 0x70
  }

  /** The instruction in front of the jump. */
  datatype Comparison = CMP | AND_TEST | ADD_TO | SUB_FROM

  function ComparisonOf(code: Code): Comparison {
    match code
    case TEST(BMS) => AND_TEST
    case TEST(BMC) => AND_TEST
    case TEST(BOADD) => ADD_TO
    case TEST(BOSUB) => SUB_FROM
    case _ => CMP
  }

  function FlagsAfter(c: Comparison, x: T.W, y: T.W): Flags {
    match c
    case CMP => FlagsOfSub(x, y)
    case SUB_FROM => FlagsOfSub(x, y)
    case ADD_TO => FlagsOfAdd(x, y)
    case AND_TEST => FlagsOfTest(x, y)
  }

  // ---------- what a branch means ----------

  predicate FitsSigned(x: int) {
    -0x8000_0000_0000_0000 <= x < 0x8000_0000_0000_0000
  }

  /** The two orders of 64-bit words; a mask branch looks for a common one bit, an overflow branch for a
      sum or difference that is no signed word. */
  ghost predicate Ordered(sem: Sem) {
    && (forall u, x, y {:trigger sem.less(u, x, y)} ::
          T.IsWord(x) && T.IsWord(y) ==> sem.less(u, x, y) == if u then x < y else T.Signed(x) < T.Signed(y))
    && (forall k: TestKind, x, y {:trigger sem.test(k, x, y)} ::
          T.IsWord(x) && T.IsWord(y) ==> sem.test(k, x, y) == Tested(k, x, y))
  }

  ghost predicate CommonBit(x: T.W, y: T.W) {
    exists i: nat {:trigger T.BitAt(x, i)} :: i < 64 && T.BitAt(x, i) && T.BitAt(y, i)
  }

  ghost predicate Tested(k: TestKind, x: T.W, y: T.W) {
    match k
    case BMS => CommonBit(x, y)
    case BMC => !CommonBit(x, y)
    case BOADD => !FitsSigned(T.Signed(x) + T.Signed(y))
    case BOSUB => !FitsSigned(T.Signed(x) - T.Signed(y))
  }

  /** AND is zero exactly when no bit is one in both. */
  lemma {:induction false} AndIsZero(x: T.W, y: T.W, n: nat)
    requires x >= 0 && y >= 0
    ensures T.Bitwise(T.AND, x, y, n) >= 0
    ensures T.Bitwise(T.AND, x, y, n) == 0
      <==> forall i: nat {:trigger T.BitAt(x, i)} | i < n :: !(T.BitAt(x, i) && T.BitAt(y, i))
    decreases n
  {
    if n > 0 {
      AndIsZero(x / 2, y / 2, n - 1);
      assert T.Pow2(0) == 1;
      assert T.BitAt(x, 0) == (x % 2 == 1) && T.BitAt(y, 0) == (y % 2 == 1);
      forall i: nat | i < n - 1
        ensures T.BitAt(x / 2, i) == T.BitAt(x, i + 1) && T.BitAt(y / 2, i) == T.BitAt(y, i + 1)
      {
        T.HalfBit(x, i);
        T.HalfBit(y, i);
      }
      if T.Bitwise(T.AND, x, y, n) == 0 {
        forall i: nat | i < n ensures !(T.BitAt(x, i) && T.BitAt(y, i)) {
          if i > 0 { assert !(T.BitAt(x / 2, i - 1) && T.BitAt(y / 2, i - 1)); }
        }
      } else if T.Bitwise(T.AND, x / 2, y / 2, n - 1) != 0 {
        var i: nat :| i < n - 1 && T.BitAt(x / 2, i) && T.BitAt(y / 2, i);
        assert T.BitAt(x, i + 1) && T.BitAt(y, i + 1);
      }
    }
  }

  /** The flags of a difference give both orders. */
  lemma SubFlags(x: T.W, y: T.W)
    requires T.IsWord(x) && T.IsWord(y)
    ensures var f := FlagsOfSub(x, y);
      && (f.zero <==> x == y) && (f.carry <==> x < y)
      && (f.sign != f.overflow <==> T.Signed(x) < T.Signed(y))
      && (f.overflow <==> !FitsSigned(T.Signed(x) - T.Signed(y)))
  {
  }

  lemma AddFlags(x: T.W, y: T.W)
    requires T.IsWord(x) && T.IsWord(y)
    ensures FlagsOfAdd(x, y).overflow <==> !FitsSigned(T.Signed(x) + T.Signed(y))
  {
  }

  lemma TestFlags(x: T.W, y: T.W)
    requires T.IsWord(x) && T.IsWord(y)
    ensures FlagsOfTest(x, y).zero <==> !CommonBit(x, y)
  {
    AndIsZero(x, y, 64);
  }

  /** The conditions that the emitted bytes stand for. */
  lemma JumpTable(f: Flags)
    ensures JumpsOn(0x80, f) == f.overflow
    ensures JumpsOn(0x84, f) == f.zero && JumpsOn(0x85, f) == !f.zero
    ensures JumpsOn(0x82, f) == f.carry && JumpsOn(0x83, f) == !f.carry
    ensures JumpsOn(0x86, f) == (f.carry || f.zero) && JumpsOn(0x87, f) == !(f.carry || f.zero)
    ensures JumpsOn(0x8c, f) == (f.sign != f.overflow) && JumpsOn(0x8d, f) == (f.sign == f.overflow)
    ensures JumpsOn(0x8e, f) == (f.zero || f.sign != f.overflow)
    ensures JumpsOn(0x8f, f) == !(f.zero || f.sign != f.overflow)
  {
  }

  lemma OrderRight(sem: Sem, c: Cond, unsigned: bool, x: T.W, y: T.W)
    requires Ordered(sem) && T.IsWord(x) && T.IsWord(y)
    ensures JumpsOn(ConditionByte(BRANCH(c, unsigned)) + 0x10, FlagsOfSub(x, y)) <==> Compare(sem, c, unsigned, x, y)
  {
    JumpTable(FlagsOfSub(x, y));
    SubFlags(x, y);
  }

  lemma TestRight(sem: Sem, k: TestKind, x: T.W, y: T.W)
    requires Ordered(sem) && T.IsWord(x) && T.IsWord(y)
    ensures JumpsOn(ConditionByte(TEST(k)) + 0x10, FlagsAfter(ComparisonOf(TEST(k)), x, y)) <==> sem.test(k, x, y)
  {
    JumpTable(FlagsAfter(ComparisonOf(TEST(k)), x, y));
    match k
    case BMS => TestFlags(x, y);
    case BMC => TestFlags(x, y);
    case BOADD => AddFlags(x, y);
    case BOSUB => SubFlags(x, y);
  }

  /** The processor jumps on the emitted condition, after the emitted comparison, exactly when the
      branch is taken: every order, signed and unsigned, the masks and the overflows. */
  lemma BranchRight(sem: Sem, code: Code, x1: Word, x: T.W, y: T.W)
    requires Ordered(sem) && (code.BRANCH? || code.TEST?) && T.IsWord(x) && T.IsWord(y)
    ensures JumpsOn(ConditionByte(code) + 0x10, FlagsAfter(ComparisonOf(code), x, y))
       <==> Control(sem, code, x1, x, y).Taken?
  {
    match code
    case BRANCH(c, unsigned) => OrderRight(sem, c, unsigned, x, y);
    case TEST(k) => TestRight(sem, k, x, y);
  }
}
