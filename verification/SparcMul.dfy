/** Multiplication by a constant with shifts and additions (sparc-specific.h). */
module SparcMul {

  function Wrap(x: int): int {
    x % 0x1_0000_0000
  }

  function Pow2(n: nat): (r: nat)
    ensures r > 0
  {
    if n == 0 then 1 else 2 * Pow2(n - 1)
  }

  // ---------- a word and its bits ----------

  /** The number of one bits of a number. */
  function Ones(x: nat): nat {
    if x == 0 then 0 else x % 2 + Ones(x / 2)
  }

  lemma DoubleWord(x: bv32)
    requires x < 0x8000_0000
    ensures (x << 1) as int == 2 * (x as int)
  {
  }

  lemma DoubleWordPlusOne(x: bv32)
    requires x < 0x8000_0000
    ensures ((x << 1) | 1) as int == 2 * (x as int) + 1
  {
  }

  lemma ShiftBack(x: bv32)
    ensures (x >> 1) < 0x8000_0000 && ((x & 1) == 0 || (x & 1) == 1)
    ensures x == if (x & 1) == 1 then ((x >> 1) << 1) | 1 else (x >> 1) << 1
  {
  }

  /** Shifting right halves the number, and the last bit is its parity. */
  lemma LastBit(x: bv32)
    ensures x as int == 2 * ((x >> 1) as int) + (if (x & 1) == 1 then 1 else 0)
  {
    ShiftBack(x);
    if (x & 1) == 1 {
      DoubleWordPlusOne(x >> 1);
    } else {
      DoubleWord(x >> 1);
    }
  }

  predicate Stands(w: bv32, v: int) {
    w as int == v
  }

  function Append(w: bv32, odd: bool): bv32 {
    if odd then (w << 1) | 1 else w << 1
  }

  /** The bit pattern of a number. */
  function ToWord(v: nat): bv32 {
    if v == 0 then 0 else Append(ToWord(v / 2), v % 2 == 1)
  }

  lemma TopBitClear(x: bv32)
    requires x as int < 0x8000_0000
    ensures x < 0x8000_0000
  {
  }

  lemma AppendStands(w: bv32, h: int, odd: bool)
    requires Stands(w, h) && h < 0x8000_0000
    ensures Stands(Append(w, odd), 2 * h + (if odd then 1 else 0))
  {
    TopBitClear(w);
    if odd { DoubleWordPlusOne(w); } else { DoubleWord(w); }
  }

  lemma {:induction false} ToWordStands(v: nat)
    requires v < 0x1_0000_0000
    ensures Stands(ToWord(v), v)
  {
    if v > 0 {
      ToWordStands(v / 2);
      AppendStands(ToWord(v / 2), v / 2, v % 2 == 1);
      assert v == 2 * (v / 2) + (if v % 2 == 1 then 1 else 0);
    }
  }

  // ---------- counting bits ----------

  function Bits(x: bv32, n: nat): nat
    decreases n
  {
    if n == 0 then 0 else ((x & 0x1) as int) + Bits(x >> 1, n - 1)
  }

  function Pairs(x: bv32, n: nat): nat
    decreases n
  {
    if n == 0 then 0 else ((x & 0x3) as int) + Pairs(x >> 2, n - 1)
  }

  function Nibbles(x: bv32, n: nat): nat
    decreases n
  {
    if n == 0 then 0 else ((x & 0xF) as int) + Nibbles(x >> 4, n - 1)
  }

  function Bytes(x: bv32, n: nat): nat
    decreases n
  {
    if n == 0 then 0 else ((x & 0xFF) as int) + Bytes(x >> 8, n - 1)
  }

  function Halves(x: bv32, n: nat): nat
    decreases n
  {
    if n == 0 then 0 else ((x & 0xFFFF) as int) + Halves(x >> 16, n - 1)
  }

  lemma AddSmall(x: bv32, y: bv32)
    requires x <= 31 && y <= 31
    ensures (x + y) as int == x as int + y as int
  {
  }

  // The five lines of _bit_pop: each adds up the halves of all fields of twice the width.

  function Fold1(x: bv32): bv32 { (x & 0x55555555) + ((x >> 1) & 0x55555555) }
  function Fold2(x: bv32): bv32 { (x & 0x33333333) + ((x >> 2) & 0x33333333) }
  function Fold4(x: bv32): bv32 { (x & 0x0F0F0F0F) + ((x >> 4) & 0x0F0F0F0F) }
  function Fold8(x: bv32): bv32 { (x & 0x00FF00FF) + ((x >> 8) & 0x00FF00FF) }
  function Fold16(x: bv32): bv32 { (x & 0x0000FFFF) + ((x >> 16) & 0x0000FFFF) }

  lemma LowPair(x: bv32)
    ensures (Fold1(x) & 0x3) == (x & 0x1) + ((x >> 1) & 0x1) && Fold1(x) >> 2 == Fold1(x >> 2)
    ensures (x & 0x1) <= 1 && ((x >> 1) & 0x1) <= 1 && (x >> 1) >> 1 == x >> 2
  {
  }

  lemma LowNibble(x: bv32)
    ensures (Fold2(x) & 0xF) == (x & 0x3) + ((x >> 2) & 0x3) && Fold2(x) >> 4 == Fold2(x >> 4)
    ensures (x & 0x3) <= 3 && ((x >> 2) & 0x3) <= 3 && (x >> 2) >> 2 == x >> 4
  {
  }

  lemma LowByte(x: bv32)
    ensures (Fold4(x) & 0xFF) == (x & 0xF) + ((x >> 4) & 0xF) && Fold4(x) >> 8 == Fold4(x >> 8)
    ensures (x & 0xF) <= 15 && ((x >> 4) & 0xF) <= 15 && (x >> 4) >> 4 == x >> 8
  {
  }

  lemma LowHalf(x: bv32)
    requires (x & 0xF0F0F0F0) == 0
    ensures (Fold8(x) & 0xFFFF) == (x & 0xFF) + ((x >> 8) & 0xFF) && Fold8(x) >> 16 == Fold8(x >> 16)
    ensures (x & 0xFF) <= 15 && ((x >> 8) & 0xFF) <= 15 && (x >> 8) >> 8 == x >> 16
    ensures ((x >> 16) & 0xF0F0F0F0) == 0
  {
  }

  /** The fields have room for the counts. */
  lemma Room(x: bv32)
    ensures (Fold2(x) & 0x88888888) == 0
    ensures (x & 0x88888888) == 0 ==> (Fold4(x) & 0xF0F0F0F0) == 0
    ensures (x & 0xF0F0F0F0) == 0 ==> (Fold8(x) & 0xFFE0FFE0) == 0
    ensures (x & 0xFFE0FFE0) == 0 ==> (x & 0xFFFF) <= 31 && ((x >> 16) & 0xFFFF) <= 31
  {
  }

  lemma LowPairSum(x: bv32)
    ensures (Fold1(x) & 0x3) as int == ((x & 0x1) as int) + (((x >> 1) & 0x1) as int)
    ensures Fold1(x) >> 2 == Fold1(x >> 2) && (x >> 1) >> 1 == x >> 2
  {
    LowPair(x);
    AddSmall(x & 0x1, (x >> 1) & 0x1);
  }

  lemma LowNibbleSum(x: bv32)
    ensures (Fold2(x) & 0xF) as int == ((x & 0x3) as int) + (((x >> 2) & 0x3) as int)
    ensures Fold2(x) >> 4 == Fold2(x >> 4) && (x >> 2) >> 2 == x >> 4
  {
    LowNibble(x);
    AddSmall(x & 0x3, (x >> 2) & 0x3);
  }

  lemma LowByteSum(x: bv32)
    ensures (Fold4(x) & 0xFF) as int == ((x & 0xF) as int) + (((x >> 4) & 0xF) as int)
    ensures Fold4(x) >> 8 == Fold4(x >> 8) && (x >> 4) >> 4 == x >> 8
  {
    LowByte(x);
    AddSmall(x & 0xF, (x >> 4) & 0xF);
  }

  lemma LowHalfSum(x: bv32)
    requires (x & 0xF0F0F0F0) == 0
    ensures (Fold8(x) & 0xFFFF) as int == ((x & 0xFF) as int) + (((x >> 8) & 0xFF) as int)
    ensures Fold8(x) >> 16 == Fold8(x >> 16) && (x >> 8) >> 8 == x >> 16
    ensures ((x >> 16) & 0xF0F0F0F0) == 0
  {
    LowHalf(x);
    AddSmall(x & 0xFF, (x >> 8) & 0xFF);
  }

  lemma {:induction false} PairsCount(x: bv32, n: nat)
    ensures Pairs(Fold1(x), n) == Bits(x, 2 * n)
    decreases n
  {
    if n > 0 {
      LowPairSum(x);
      PairsCount(x >> 2, n - 1);
      assert Bits(x, 2 * n) == ((x & 0x1) as int) + Bits(x >> 1, 2 * n - 1);
    }
  }

  lemma {:induction false} NibblesCount(x: bv32, n: nat)
    ensures Nibbles(Fold2(x), n) == Pairs(x, 2 * n)
    decreases n
  {
    if n > 0 {
      LowNibbleSum(x);
      NibblesCount(x >> 4, n - 1);
      assert Pairs(x, 2 * n) == ((x & 0x3) as int) + Pairs(x >> 2, 2 * n - 1);
    }
  }

  lemma {:induction false} BytesCount(x: bv32, n: nat)
    ensures Bytes(Fold4(x), n) == Nibbles(x, 2 * n)
    decreases n
  {
    if n > 0 {
      LowByteSum(x);
      BytesCount(x >> 8, n - 1);
      assert Nibbles(x, 2 * n) == ((x & 0xF) as int) + Nibbles(x >> 4, 2 * n - 1);
    }
  }

  lemma {:induction false} HalvesCount(x: bv32, n: nat)
    requires (x & 0xF0F0F0F0) == 0
    ensures Halves(Fold8(x), n) == Bytes(x, 2 * n)
    decreases n
  {
    if n > 0 {
      LowHalfSum(x);
      HalvesCount(x >> 16, n - 1);
      assert Bytes(x, 2 * n) == ((x & 0xFF) as int) + Bytes(x >> 8, 2 * n - 1);
    }
  }

  lemma {:induction false} BitsAreOnes(x: bv32, n: nat)
    requires x as int < Pow2(n)
    ensures Bits(x, n) == Ones(x as int)
    decreases n
  {
    LastBit(x);
    ShiftBack(x);
    if n > 0 {
      assert (x >> 1) as int == (x as int) / 2;
      BitsAreOnes(x >> 1, n - 1);
    }
  }

  /** The two halves are all there is. */
  lemma LastFold(x: bv32)
    requires (x & 0xFFE0FFE0) == 0
    ensures Fold16(x) as int == Halves(x, 2)
  {
    Room(x);
    AddSmall(x & 0xFFFF, (x >> 16) & 0xFFFF);
    assert Halves(x >> 16, 1) == (((x >> 16) & 0xFFFF) as int) + Halves((x >> 16) >> 16, 0);
  }

  lemma PowersOfTwo()
    ensures Pow2(32) == 0x1_0000_0000
  {
    assert Pow2(8) == 256;
    assert Pow2(16) == 65536;
    assert Pow2(24) == 0x100_0000;
  }

  /** _bit_pop, line by line: the number of one bits. */
  method BitPop(word: bv32) returns (n: nat)
    ensures n == Ones(word as int)
  {
    var x := word;
    x := Fold1(x);
    x := Fold2(x);
    x := Fold4(x);
    x := Fold8(x);
    x := Fold16(x);
    FoldsCount(word);
    n := x as int;
  }

  lemma FoldsCount(x: bv32)
    ensures Fold16(Fold8(Fold4(Fold2(Fold1(x))))) as int == Ones(x as int)
  {
    var x1 := Fold1(x);
    var x2 := Fold2(x1);
    var x4 := Fold4(x2);
    var x8 := Fold8(x4);
    Room(x1);
    Room(x2);
    Room(x4);
    PowersOfTwo();
    BitsAreOnes(x, 32);
    PairsCount(x, 16);
    NibblesCount(x1, 8);
    BytesCount(x2, 4);
    HalvesCount(x4, 2);
    LastFold(x8);
  }

  // ---------- the machine ----------

  type Reg = r: int | 0 <= r < 32
  type Regs = s: seq<int> | |s| == 32 witness seq(32, _ => 0)

  const G0: Reg := 0
  const G1: Reg := 1
  const G2: Reg := 2

  datatype Instr =
    | Sll(s: Reg, n: nat, d: Reg) | Add(s1: Reg, s2: Reg, d: Reg) | Mov(s: Reg, d: Reg) | Neg(d: Reg)
    | SmulReg(s1: Reg, s2: Reg, d: Reg) | Smul(s: Reg, v: int, d: Reg)

  /** The immediate field of sparc_encode_format3b as the processor takes it: 13 bits, sign extended. */
  function Imm13(v: int): int {
    var low := v % 0x2000;
    if low < 0x1000 then low else low - 0x2000
  }

  function Step(i: Instr, regs: Regs): Regs {
    match i
    case Sll(s, n, d) => regs[d := Wrap(regs[s] * Pow2(n))]
    case Add(s1, s2, d) => regs[d := Wrap(regs[s1] + regs[s2])]
    case Mov(s, d) => regs[d := regs[s]]
    case Neg(d) => regs[d := Wrap(-regs[d])]
    case SmulReg(s1, s2, d) => regs[d := Wrap(regs[s1] * regs[s2])]
    case Smul(s, v, d) => regs[d := Wrap(regs[s] * Imm13(v))]
  }

  function Exec(code: seq<Instr>, regs: Regs): Regs {
    if code == [] then regs else Step(code[|code| - 1], Exec(code[..|code| - 1], regs))
  }

  lemma ExecSnoc(code: seq<Instr>, i: Instr, regs: Regs)
    ensures Exec(code + [i], regs) == Step(i, Exec(code, regs))
  {
    assert (code + [i])[..|code|] == code;
  }

  predicate Allocatable(r: Reg) {
    r != G0 && r != G1 && r != G2
  }

  /** Whatever the registers hold, d ends up with a times k modulo 2^32; only d and the two
      temporary registers change. */
  ghost predicate Multiplies(code: seq<Instr>, a: Reg, d: Reg, k: int) {
    forall regs: Regs {:trigger Exec(code, regs)} :: MultipliesAt(code, a, d, k, regs)
  }

  ghost predicate MultipliesAt(code: seq<Instr>, a: Reg, d: Reg, k: int, regs: Regs) {
    && Exec(code, regs)[d] == Wrap(regs[a] * k)
    && forall r: Reg | r != d && r != G1 && r != G2 :: Exec(code, regs)[r] == regs[r]
  }

  // ---------- sums of shifts ----------

  lemma WrapSum(x: int, y: int)
    ensures Wrap(Wrap(x) + Wrap(y)) == Wrap(x + y)
  {
    var i, j := x / 0x1_0000_0000, y / 0x1_0000_0000;
    assert Wrap(x) + Wrap(y) == x + y - (i + j) * 0x1_0000_0000;
    WrapShift(x + y, -(i + j));
  }

  lemma WrapShift(x: int, k: int)
    ensures Wrap(x + k * 0x1_0000_0000) == Wrap(x)
  {
  }

  lemma Distribute(x: int, low: int, p: int)
    ensures Wrap(Wrap(x * low) + Wrap(x * p)) == Wrap(x * (low + p))
  {
    WrapSum(x * low, x * p);
    assert x * low + x * p == x * (low + p);
  }

  /** The first shift into the temporary register. */
  lemma FirstShift(a: Reg, d: Reg, i: nat)
    requires Allocatable(a)
    ensures Multiplies([Sll(a, i, d)], a, d, Pow2(i))
  {
    forall regs: Regs ensures MultipliesAt([Sll(a, i, d)], a, d, Pow2(i), regs) {
      ExecSnoc([], Sll(a, i, d), regs);
      assert [] + [Sll(a, i, d)] == [Sll(a, i, d)];
    }
  }

  /** One more shift added to what the temporary register holds. */
  lemma NextShift(code: seq<Instr>, a: Reg, d: Reg, low: int, i: nat)
    requires Multiplies(code, a, G1, low) && Allocatable(a) && (Allocatable(d) || d == G1)
    ensures Multiplies(code + [Sll(a, i, G2), Add(G1, G2, d)], a, d, low + Pow2(i))
  {
    var more := code + [Sll(a, i, G2), Add(G1, G2, d)];
    assert more == code + [Sll(a, i, G2)] + [Add(G1, G2, d)];
    var k := low + Pow2(i);
    forall regs: Regs ensures MultipliesAt(more, a, d, k, regs) {
      ExecSnoc(code + [Sll(a, i, G2)], Add(G1, G2, d), regs);
      ExecSnoc(code, Sll(a, i, G2), regs);
      assert MultipliesAt(code, a, G1, low, regs);
      Distribute(regs[a], low, Pow2(i));
    }
  }

  lemma TakeBitOf(low: int, p: int, n: int, h: int, odd: bool, c: int)
    requires c == low + p * n && n == 2 * h + (if odd then 1 else 0)
    ensures c == (if odd then low + p else low) + (2 * p) * h
  {
    if odd {
      assert p * (2 * h + 1) == (2 * p) * h + p;
    } else {
      assert p * (2 * h) == (2 * p) * h;
    }
  }

  lemma {:induction false} NoOnes(x: nat)
    requires Ones(x) == 0
    ensures x == 0
  {
    if x > 0 { NoOnes(x / 2); }
  }

  /** Taking one bit off the constant. */
  lemma TakeBit(low: int, i: nat, n: nat, c: int)
    requires c == low + Pow2(i) * n
    ensures c == (if n % 2 == 1 then low + Pow2(i) else low) + Pow2(i + 1) * (n / 2)
    ensures Ones(n) == Ones(n / 2) + n % 2
    ensures Ones(n / 2) == 0 ==> n / 2 == 0
  {
    TakeBitOf(low, Pow2(i), n, n / 2, n % 2 == 1, c);
    if Ones(n / 2) == 0 { NoOnes(n / 2); }
  }

  /** Adds a shift of the source to what has been summed up so far, if anything, and leaves the
      sum in d. */
  method EmitShift(code: seq<Instr>, a: Reg, i: nat, inTmp: bool, d: Reg, ghost low: int) returns (code': seq<Instr>)
    requires Allocatable(a) && (Allocatable(d) || d == G1)
    requires if inTmp then Multiplies(code, a, G1, low) else code == [] && low == 0
    ensures Multiplies(code', a, d, low + Pow2(i))
  {
    if !inTmp {
      code' := [Sll(a, i, d)];
      FirstShift(a, d, i);
    } else {
      NextShift(code, a, d, low, i);
      code' := code + [Sll(a, i, G2), Add(G1, G2, d)];
    }
  }

  lemma NothingLeft(c: int, low: int, n: nat)
    requires c < 0x1_0000_0000 && c == low + Pow2(32) * n && low >= 0
    ensures n == 0
  {
    PowersOfTwo();
  }

  method CountOnes(v: nat) returns (n: nat)
    requires v < 0x1_0000_0000
    ensures n == Ones(v)
  {
    n := BitPop(ToWord(v));
    ToWordStands(v);
  }

  /** __gener_mult: shifts and additions that multiply by any constant but zero, also in place. */
  method GenerMult(a1: Reg, a2: Reg, a3: nat) returns (code: seq<Instr>)
    requires Allocatable(a1) && Allocatable(a2) && 0 < a3 < 0x1_0000_0000
    ensures Multiplies(code, a2, a1, a3)
  {
    code := [];
    var bits := CountOnes(a3);
    var ar := a3;
    var inTmp := false;
    ghost var low := 0;
    if bits == 0 { NoOnes(a3); }
    for i := 0 to 32
      invariant bits == Ones(ar) > 0 && low >= 0 && ar >= 0
      invariant a3 == low + Pow2(i) * ar
      invariant if inTmp then Multiplies(code, a2, G1, low) else code == [] && low == 0
    {
      TakeBit(low, i, ar, a3);
      if ar % 2 == 1 {
        bits := bits - 1;
        code := EmitShift(code, a2, i, inTmp, if bits == 0 then a1 else G1, low);
        inTmp := true;
        low := low + Pow2(i);
        if bits == 0 {
          return;
        }
      }
      ar := ar / 2;
    }
    NothingLeft(a3, low, ar);
    assert false;
  }

  function Abs(v: int): nat {
    if v < 0 then -v else v
  }

  predicate FitsImm13(v: int) {
    -0x1000 <= v < 0x1000
  }

  /** The constants that __mul multiplies by: zero, one, those with few one bits and those that fit
      the immediate field. */
  predicate MulFits(v: int) {
    v == 0 || v == 1 || Ones(Abs(v)) <= 5 || FitsImm13(v)
  }

  /** __mul with an immediate: the result is the product modulo 2^32 for all contents of the
      registers exactly when the constant is one of these. */
  method MulImm(a1: Reg, a2: Reg, a3: int) returns (code: seq<Instr>)
    requires Allocatable(a1) && Allocatable(a2) && -0x8000_0000 <= a3 < 0x8000_0000
    ensures MultipliesWords(code, a2, a1, a3) <==> MulFits(a3)
  {
    if a3 == 0 {
      MovZero(a2, a1);
      return [Mov(G0, a1)];
    }
    if a3 == 1 {
      MovSame(a2, a1);
      return if a1 != a2 then [Mov(a2, a1)] else [];
    }
    var few := FewBits(if a3 > 0 then a3 else -a3);
    if few {
      code := GenerMult(a1, a2, if a3 > 0 then a3 else -a3);
      if a3 < 0 {
        NegRuns(code, a2, a1, -a3);
        code := code + [Neg(a1)];
      }
      AlsoWords(code, a2, a1, a3);
      return;
    }
    code := [Smul(a2, a3, a1)];
    SmulExactly(a2, a3, a1);
  }

  /** jit_imm_overflow on a 32-bit target with JIT_IMM_BITS 12. */
  function ImmOverflow(signed: bool, value: int): bool {
    var word := value % 0x1_0000_0000;
    var high := word - word % 0x1000;
    var mask := 0xFFFF_F000;
    if signed then high != 0 && high != mask else high != 0
  }

  /** The test lets pass exactly what the field gives back, for an unsigned op only half of it. */
  lemma OverflowExactly(v: int)
    requires -0x8000_0000 <= v < 0x8000_0000
    ensures !ImmOverflow(true, v) <==> FitsImm13(v)
    ensures !ImmOverflow(false, v) <==> 0 <= v < 0x1000
    ensures FitsImm13(v) <==> Imm13(v) == v
  {
    var word := v % 0x1_0000_0000;
    assert word == if v < 0 then v + 0x1_0000_0000 else v;
    assert word - word % 0x1000 == 0 <==> word < 0x1000;
    assert word - word % 0x1000 == 0xFFFF_F000 <==> word >= 0xFFFF_F000;
  }

  /** Whatever the registers hold, if the constant is in register r where the test has moved it there. */
  ghost predicate MultipliesLoaded(code: seq<Instr>, a: Reg, d: Reg, k: int, r: Reg, loaded: bool) {
    forall regs: Regs {:trigger MultipliesAt(code, a, d, k, regs)} |
      regs[G0] == 0 && 0 <= regs[a] < 0x1_0000_0000 && (loaded ==> regs[r] == Wrap(k)) ::
      MultipliesAt(code, a, d, k, regs)
  }

  /** jit_correct_long_imms and then __mul: what the test lets pass is one of the constants above, so
      every constant is multiplied by right. */
  method Mul(signed: bool, a1: Reg, a2: Reg, a3: int, rImm: Reg) returns (code: seq<Instr>)
    requires Allocatable(a1) && Allocatable(a2) && -0x8000_0000 <= a3 < 0x8000_0000
    ensures MultipliesLoaded(code, a2, a1, a3, rImm, ImmOverflow(signed, a3))
  {
    if ImmOverflow(signed, a3) {
      code := [SmulReg(a2, rImm, a1)];
      SmulRegRuns(a2, rImm, a1, a3);
    } else {
      OverflowExactly(a3);
      code := MulImm(a1, a2, a3);
    }
  }

  lemma SmulOne(a: Reg, v: int, d: Reg, regs: Regs)
    requires regs[a] == 1
    ensures Exec([Smul(a, v, d)], regs)[d] == Wrap(Imm13(v))
  {
    ExecSnoc([], Smul(a, v, d), regs);
    assert [] + [Smul(a, v, d)] == [Smul(a, v, d)];
    assert 1 * Imm13(v) == Imm13(v);
  }

  /** A constant that __mul on its own gets wrong: it has seven one bits and 17 bits in all. */
  lemma WideConstantFails(a: Reg, d: Reg, regs: Regs)
    requires regs[a] == 1
    ensures !MulFits(0x1_2345) && Exec([Smul(a, 0x1_2345, d)], regs)[d] == 0x345
  {
    WideIsWide(0x1_2345);
    WideCut(0x1_2345);
    SmulOne(a, 0x1_2345, d, regs);
  }

  lemma WideIsWide(v: int)
    requires v == 0x1_2345
    ensures !MulFits(v)
  {
    OnesOfWide();
    assert Abs(v) == v;
  }

  lemma WideCut(v: int)
    requires v == 0x1_2345
    ensures Wrap(Imm13(v)) == 0x345
  {
  }

  lemma OnesOfWide()
    ensures Ones(0x1_2345) == 7
  {
    assert Ones(1) == 1 && Ones(2) == 1 && Ones(4) == 1 && Ones(9) == 2 && Ones(18) == 2 && Ones(36) == 2;
    assert Ones(72) == 2 && Ones(145) == 3 && Ones(291) == 4 && Ones(582) == 4 && Ones(1165) == 5;
    assert Ones(2330) == 5 && Ones(4660) == 5 && Ones(9320) == 5 && Ones(18641) == 6 && Ones(37282) == 6;
  }

  /** The test for few bits. */
  method FewBits(v: nat) returns (few: bool)
    requires v < 0x1_0000_0000
    ensures few <==> Ones(v) <= 5
  {
    var n := CountOnes(v);
    few := n <= 5;
  }

  /** The same for registers that hold words, with G0 zero. */
  ghost predicate MultipliesWords(code: seq<Instr>, a: Reg, d: Reg, k: int) {
    forall regs: Regs {:trigger MultipliesAt(code, a, d, k, regs)} |
      regs[G0] == 0 && 0 <= regs[a] < 0x1_0000_0000 :: MultipliesAt(code, a, d, k, regs)
  }

  lemma AlsoWords(code: seq<Instr>, a: Reg, d: Reg, k: int)
    requires Multiplies(code, a, d, k)
    ensures MultipliesWords(code, a, d, k)
  {
    forall regs: Regs ensures MultipliesAt(code, a, d, k, regs) {
      var r := Exec(code, regs);
    }
  }

  lemma MovZero(a: Reg, d: Reg)
    ensures MultipliesWords([Mov(G0, d)], a, d, 0)
  {
    forall regs: Regs | regs[G0] == 0 ensures MultipliesAt([Mov(G0, d)], a, d, 0, regs) {
      ExecSnoc([], Mov(G0, d), regs);
      assert [] + [Mov(G0, d)] == [Mov(G0, d)];
    }
  }

  lemma MovSame(a: Reg, d: Reg)
    ensures MultipliesWords(if d != a then [Mov(a, d)] else [], a, d, 1)
  {
    var code := if d != a then [Mov(a, d)] else [];
    forall regs: Regs | 0 <= regs[a] < 0x1_0000_0000 ensures MultipliesAt(code, a, d, 1, regs) {
      ExecSnoc([], Mov(a, d), regs);
      assert [] + [Mov(a, d)] == [Mov(a, d)];
      assert Wrap(regs[a]) == regs[a];
    }
  }

  lemma SmulAt(s: Reg, v: int, d: Reg, k: int, regs: Regs)
    ensures MultipliesAt([Smul(s, v, d)], s, d, k, regs) <==> Wrap(regs[s] * Imm13(v)) == Wrap(regs[s] * k)
  {
    ExecSnoc([], Smul(s, v, d), regs);
    assert [] + [Smul(s, v, d)] == [Smul(s, v, d)];
  }

  /** smul with an immediate multiplies by it exactly when the field gives it back. */
  lemma SmulExactly(s: Reg, v: int, d: Reg)
    requires Allocatable(s) && -0x8000_0000 <= v < 0x8000_0000
    ensures MultipliesWords([Smul(s, v, d)], s, d, v) <==> FitsImm13(v)
  {
    OverflowExactly(v);
    if FitsImm13(v) {
      forall regs: Regs ensures MultipliesAt([Smul(s, v, d)], s, d, v, regs) {
        SmulAt(s, v, d, v, regs);
      }
    } else {
      var one: Regs := seq(32, i => if i == s then 1 else 0);
      SmulAt(s, v, d, v, one);
      WordsDiffer(Imm13(v), v);
      assert !MultipliesAt([Smul(s, v, d)], s, d, v, one);
    }
  }

  lemma WordsDiffer(x: int, y: int)
    requires x != y && -0x1000 <= x < 0x1000 && -0x8000_0000 <= y < 0x8000_0000
    ensures Wrap(1 * x) != Wrap(1 * y)
  {
  }

  lemma SmulRegRuns(s1: Reg, s2: Reg, d: Reg, k: int)
    ensures MultipliesLoaded([SmulReg(s1, s2, d)], s1, d, k, s2, true)
  {
    forall regs: Regs | regs[s2] == Wrap(k) ensures MultipliesAt([SmulReg(s1, s2, d)], s1, d, k, regs) {
      ExecSnoc([], SmulReg(s1, s2, d), regs);
      assert [] + [SmulReg(s1, s2, d)] == [SmulReg(s1, s2, d)];
      ProductOfWord(regs[s1], k);
    }
  }

  lemma ProductOfWord(x: int, k: int)
    ensures Wrap(x * Wrap(k)) == Wrap(x * k)
  {
    var i := k / 0x1_0000_0000;
    assert Wrap(k) == k - i * 0x1_0000_0000;
    assert x * Wrap(k) == x * k + (-(x * i)) * 0x1_0000_0000;
    WrapShift(x * k, -(x * i));
  }

  lemma NegRuns(code: seq<Instr>, a: Reg, d: Reg, k: int)
    requires Multiplies(code, a, d, k)
    ensures Multiplies(code + [Neg(d)], a, d, -k)
  {
    var more, m := code + [Neg(d)], -k;
    forall regs: Regs ensures MultipliesAt(more, a, d, m, regs) {
      ExecSnoc(code, Neg(d), regs);
      assert MultipliesAt(code, a, d, k, regs);
      NegProduct(regs[a], k);
    }
  }

  lemma NegProduct(x: int, k: int)
    ensures Wrap(-Wrap(x * k)) == Wrap(x * -k)
  {
    var i := (x * k) / 0x1_0000_0000;
    assert -Wrap(x * k) == -(x * k) + i * 0x1_0000_0000;
    WrapShift(-(x * k), i);
    assert x * -k == -(x * k);
  }
}
