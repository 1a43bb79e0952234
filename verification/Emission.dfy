/** Writing the code: every branch and jump ends up pointing at its LABEL or PATCH
    (the emission loop, x86_branch_disp32, x86_jump_disp32, amd64_patch). */
module Emission {
  import opened JitOps
  import opened Conditions
  import T = TwoAddress

  type Byte = x: int | 0 <= x < 256

  const TWO32: int := 0x1_0000_0000

  // ---------- 32-bit displacements ----------

  /** x86_imm_emit32: the value cut to 32 bits, the least byte first. */
  function Le32(d: int): seq<Byte> {
    var v := d % 0x1_0000_0000;
    [v % 256, v / 256 % 256, v / 256 / 256 % 256, v / 256 / 256 / 256]
  }

  /** What the processor reads back: four bytes, sign extended. */
  function Disp(b: seq<Byte>): int
    requires |b| == 4
  {
    var v: int := (b[0] as int) + 256 * (b[1] as int) + 65536 * (b[2] as int) + 16777216 * (b[3] as int);
    if v < 0x8000_0000 then v else v - 0x1_0000_0000
  }

  lemma DispOfLe32(d: int)
    requires -0x8000_0000 <= d < 0x8000_0000
    ensures Disp(Le32(d)) == d
  {
    var v := d % 0x1_0000_0000;
    var v1, v2, v3 := v / 256, v / 256 / 256, v / 256 / 256 / 256;
    assert v == v % 256 + 256 * v1 && v1 == v1 % 256 + 256 * v2 && v2 == v2 % 256 + 256 * v3;
  }

  // ---------- the processor's view of a jump ----------

  predicate IsRex(b: Byte) {
    b / 16 == 4
  }

  /** Where the jump at address a goes: from the end of the instruction by the displacement. */
  function JumpTarget(code: seq<Byte>, a: nat): Option<int> {
    if a >= |code| then None
    else
      var o := a + if IsRex(code[a]) then 1 else 0;
      if o + 5 <= |code| && code[o] == 0xe9 then Some(o + 5 + Disp(code[o + 1..o + 5]))
      else if o + 6 <= |code| && code[o] == 0x0f && 0x80 <= code[o + 1] <= 0x8f then
        Some(o + 6 + Disp(code[o + 2..o + 6]))
      else None
  }

  /** Whether the processor takes the jump at address a when the flags stand like this. */
  predicate Jumps(code: seq<Byte>, a: nat, f: Flags) {
    a < |code| &&
    var o := a + if IsRex(code[a]) then 1 else 0;
    if o + 5 <= |code| && code[o] == 0xe9 then true
    else o + 6 <= |code| && code[o] == 0x0f && 0x80 <= code[o + 1] <= 0x8f && JumpsOn(code[o + 1], f)
  }

  /** For all words that the jump's comparison may see it is taken exactly when the op jumps. */
  ghost predicate TakenRight(c: Code, code: seq<Byte>, a: nat) {
    forall sem, x1, x, y {:trigger Control(sem, c, x1, x, y)} | Ordered(sem) && T.IsWord(x) && T.IsWord(y) ::
      Jumps(code, a, FlagsAfter(ComparisonOf(c), x, y)) <==> Control(sem, c, x1, x, y).Taken?
  }

  // ---------- what is written for each op ----------

  predicate IsMark(op: Op) {
    op.code.LABEL? || op.code.PATCH?
  }

  /** What the encoder of the other instructions writes: the comparison of a branch, the whole of
      any op that is no jump and no mark.  It is told the op's position, since what a RET or a PROLOG
      becomes depends on the function around it. */
  type Encoder = (nat, Op) -> seq<Byte>

  function Head(enc: Encoder, i: nat, op: Op): seq<Byte> {
    if IsBranch(op) then enc(i, op) + [0x48, 0x0f, ConditionByte(op.code) + 0x10]
    else if op.code.JMP? then [0xe9]
    else if IsMark(op) then []
    else enc(i, op)
  }

  function Length(enc: Encoder, i: nat, op: Op): nat {
    |Head(enc, i, op)| + if IsJump(op) then 4 else 0
  }

  /** Where op i's code starts. */
  function Offset(enc: Encoder, q: seq<Op>, i: nat): nat
    requires i <= |q|
  {
    if i == 0 then 0 else Offset(enc, q, i - 1) + Length(enc, i - 1, q[i - 1])
  }

  lemma {:induction false} OffsetGrows(enc: Encoder, q: seq<Op>, i: nat, j: nat)
    requires i <= j <= |q|
    ensures Offset(enc, q, i) <= Offset(enc, q, j)
    ensures i < j ==> Offset(enc, q, i) + Length(enc, i, q[i]) <= Offset(enc, q, j)
  {
    if i < j { OffsetGrows(enc, q, i, j - 1); }
  }

  // ---------- what the builder and the allocator see to ----------

  /** A label is behind every jump to it, a PATCH is ahead of its jump and belongs to one jump. */
  ghost predicate JumpOk(q: seq<Op>, i: nat)
    requires i < |q|
  {
    IsJump(q[i]) ==>
      && q[i].jmp.Some?
      && var t := Goto(q, q[i]);
         t < |q| && (if q[t].code.LABEL? then t < i else q[t].code.PATCH? && i < t)
  }

  /** A PATCH knows the op it patches by its number. */
  ghost predicate PatchOf(q: seq<Op>, k: nat, j: nat)
    requires k < |q| && j < |q|
  {
    q[k].code.PATCH? && IsJump(q[j]) && Goto(q, q[j]) == k
  }

  /** links[k] is the jump that the PATCH at k belongs to (its arg[0]). */
  ghost predicate Emittable(q: seq<Op>, links: seq<nat>) {
    && |links| == |q| && DistinctTargets(q)
    && (forall i: nat {:trigger JumpOk(q, i)} | i < |q| :: JumpOk(q, i))
    && (forall k: nat {:trigger links[k]} | k < |q| && q[k].code.PATCH? :: links[k] < k && PatchOf(q, k, links[k]))
    && (forall k: nat, j: nat {:trigger PatchOf(q, k, j)} | k < |q| && j < |q| && PatchOf(q, k, j) :: j == links[k])
  }

  // ---------- the code so far ----------

  ghost predicate Resolved(q: seq<Op>, j: nat, i: nat)
    requires j < |q|
  {
    IsJump(q[j]) && var t := Goto(q, q[j]); t < |q| && (q[t].code.LABEL? || t < i)
  }

  /** Op j's bytes: its head, and the displacement once it is resolved. */
  ghost predicate OpWritten(enc: Encoder, q: seq<Op>, code: seq<Byte>, j: nat, i: nat)
    requires j < |q|
  {
    var a, h := Offset(enc, q, j), |Head(enc, j, q[j])|;
    && a + Length(enc, j, q[j]) <= |code|
    && code[a..a + h] == Head(enc, j, q[j])
    && (Resolved(q, j, i) ==> code[a + h..a + h + 4] == Le32(Offset(enc, q, Goto(q, q[j])) - (a + h + 4)))
  }

  /** The addresses of the jumps before op i. */
  ghost predicate Noted(enc: Encoder, q: seq<Op>, addrs: seq<nat>, i: nat) {
    && |addrs| == |q|
    && forall j: nat {:trigger addrs[j]} | j < i && j < |q| && IsJump(q[j]) :: addrs[j] == JumpAt(enc, q, j)
  }

  lemma NotedNext(enc: Encoder, q: seq<Op>, addrs: seq<nat>, i: nat)
    requires i < |q| && Noted(enc, q, addrs, i)
    ensures IsJump(q[i]) ==> Noted(enc, q, addrs[i := JumpAt(enc, q, i)], i + 1)
    ensures !IsJump(q[i]) ==> Noted(enc, q, addrs, i + 1)
  {
  }

  /** The places of the labels before op i. */
  ghost predicate Labelled(enc: Encoder, q: seq<Op>, places: map<nat, nat>, i: nat)
    requires i <= |q|
  {
    forall j: nat {:trigger q[j]} | j < i && q[j].code.LABEL? ::
      q[j].code.id in places && places[q[j].code.id] == Offset(enc, q, j)
  }

  ghost predicate WrittenUpTo(enc: Encoder, q: seq<Op>, code: seq<Byte>, i: nat)
    requires i <= |q|
  {
    && |code| == Offset(enc, q, i)
    && forall j: nat {:trigger OpWritten(enc, q, code, j, i)} | j < i :: OpWritten(enc, q, code, j, i)
  }

  lemma BranchDecodes(code: seq<Byte>, b: nat, cc: Byte, d: int)
    requires b + 7 <= |code| && 0x70 <= cc <= 0x7f && -0x8000_0000 <= d < 0x8000_0000
    requires code[b] == 0x48 && code[b + 1] == 0x0f && code[b + 2] == cc + 0x10 && code[b + 3..b + 7] == Le32(d)
    ensures JumpTarget(code, b) == Some(b + 7 + d)
  {
    DispOfLe32(d);
  }

  lemma JmpDecodes(code: seq<Byte>, b: nat, d: int)
    requires b + 5 <= |code| && -0x8000_0000 <= d < 0x8000_0000
    requires code[b] == 0xe9 && code[b + 1..b + 5] == Le32(d)
    ensures JumpTarget(code, b) == Some(b + 5 + d)
  {
    DispOfLe32(d);
  }

  function JumpAt(enc: Encoder, q: seq<Op>, j: nat): nat
    requires j < |q|
  {
    Offset(enc, q, j) + if IsBranch(q[j]) then |enc(j, q[j])| else 0
  }

  lemma BranchGoes(enc: Encoder, q: seq<Op>, code: seq<Byte>, j: nat, d: int)
    requires j < |q| && IsBranch(q[j]) && -0x8000_0000 <= d < 0x8000_0000
    requires var a, h := Offset(enc, q, j), |Head(enc, j, q[j])|;
      a + h + 4 <= |code| && code[a..a + h] == Head(enc, j, q[j]) && code[a + h..a + h + 4] == Le32(d)
    ensures JumpTarget(code, JumpAt(enc, q, j)) == Some(Offset(enc, q, j) + Length(enc, j, q[j]) + d)
  {
    var a, n := Offset(enc, q, j), |enc(j, q[j])|;
    HeadByte(enc, q, code, j, n);
    HeadByte(enc, q, code, j, n + 1);
    HeadByte(enc, q, code, j, n + 2);
    BranchDecodes(code, a + n, ConditionByte(q[j].code), d);
  }

  lemma JmpGoes(enc: Encoder, q: seq<Op>, code: seq<Byte>, j: nat, d: int)
    requires j < |q| && q[j].code.JMP? && -0x8000_0000 <= d < 0x8000_0000
    requires var a, h := Offset(enc, q, j), |Head(enc, j, q[j])|;
      a + h + 4 <= |code| && code[a..a + h] == Head(enc, j, q[j]) && code[a + h..a + h + 4] == Le32(d)
    ensures JumpTarget(code, JumpAt(enc, q, j)) == Some(Offset(enc, q, j) + Length(enc, j, q[j]) + d)
  {
    HeadByte(enc, q, code, j, 0);
    JmpDecodes(code, Offset(enc, q, j), d);
  }

  /** A resolved jump goes where its target's code starts. */
  lemma {:induction false} JumpsThere(enc: Encoder, q: seq<Op>, code: seq<Byte>, j: nat, i: nat)
    requires j < |q| && OpWritten(enc, q, code, j, i) && Resolved(q, j, i) && |code| < 0x8000_0000
    requires Offset(enc, q, Goto(q, q[j])) < 0x8000_0000
    ensures JumpTarget(code, JumpAt(enc, q, j)) == Some(Offset(enc, q, Goto(q, q[j])))
  {
    var d := Offset(enc, q, Goto(q, q[j])) - (Offset(enc, q, j) + Length(enc, j, q[j]));
    if IsBranch(q[j]) { BranchGoes(enc, q, code, j, d); } else { JmpGoes(enc, q, code, j, d); }
  }

  lemma HeadByte(enc: Encoder, q: seq<Op>, code: seq<Byte>, j: nat, k: nat)
    requires j < |q| && k < |Head(enc, j, q[j])|
    requires var a, h := Offset(enc, q, j), |Head(enc, j, q[j])|;
      a + h <= |code| && code[a..a + h] == Head(enc, j, q[j])
    ensures code[Offset(enc, q, j) + k] == Head(enc, j, q[j])[k]
  {
  }

  lemma Slices(a: seq<Byte>, b: seq<Byte>, c: seq<Byte>)
    ensures var code := a + (b + c);
      code[|a|..|a| + |b|] == b && code[|a| + |b|..|a| + |b| + |c|] == c
  {
  }

  // ---------- one more op ----------

  ghost function EndOf(enc: Encoder, q: seq<Op>, j: nat): nat
    requires j < |q|
  {
    Offset(enc, q, j) + Length(enc, j, q[j])
  }

  /** Bytes elsewhere do not matter to an op that is written. */
  lemma KeepWritten(enc: Encoder, q: seq<Op>, code: seq<Byte>, code': seq<Byte>, j: nat, i: nat, i': nat)
    requires j < |q| && OpWritten(enc, q, code, j, i) && (Resolved(q, j, i') ==> Resolved(q, j, i))
    requires EndOf(enc, q, j) <= |code'|
    requires code'[Offset(enc, q, j)..EndOf(enc, q, j)] == code[Offset(enc, q, j)..EndOf(enc, q, j)]
    ensures OpWritten(enc, q, code', j, i')
  {
    var a, h, e := Offset(enc, q, j), |Head(enc, j, q[j])|, EndOf(enc, q, j);
    assert code'[a..a + h] == code'[a..e][..h] && code[a..a + h] == code[a..e][..h];
    if IsJump(q[j]) {
      assert code'[a + h..a + h + 4] == code'[a..e][h..] && code[a + h..a + h + 4] == code[a..e][h..];
    }
  }

  /** A jump is resolved by the label before it or by its PATCH. */
  lemma ResolvedBy(q: seq<Op>, links: seq<nat>, j: nat, i: nat)
    requires Emittable(q, links) && j < i < |q| && !(q[i].code.PATCH? && links[i] == j)
    ensures Resolved(q, j, i + 1) ==> Resolved(q, j, i)
  {
    assert JumpOk(q, j);
    if IsJump(q[j]) && Goto(q, q[j]) == i && q[i].code.PATCH? {
      assert PatchOf(q, i, j);
    }
  }

  /** Appending op i's bytes, when it is no PATCH. */
  lemma {:induction false} Appended(enc: Encoder, q: seq<Op>, links: seq<nat>, code: seq<Byte>, bytes: seq<Byte>,
      i: nat)
    requires Emittable(q, links) && i < |q| && !q[i].code.PATCH? && WrittenUpTo(enc, q, code, i)
    requires |bytes| == Length(enc, i, q[i]) && OpWritten(enc, q, code + bytes, i, i + 1)
    ensures WrittenUpTo(enc, q, code + bytes, i + 1)
  {
    var more, n := code + bytes, i + 1;
    forall j: nat | j < n ensures OpWritten(enc, q, more, j, n) {
      if j < i {
        OffsetGrows(enc, q, j, i);
        ResolvedBy(q, links, j, i);
        assert OpWritten(enc, q, code, j, i);
        KeepWritten(enc, q, code, more, j, i, i + 1);
      }
    }
  }

  /** The code with the displacement that ends at `end` set to lead to the end of the code. */
  function Filled(code: seq<Byte>, end: nat): seq<Byte>
    requires 4 <= end <= |code|
  {
    code[..end - 4] + Le32(|code| - end) + code[end..]
  }

  lemma FilledElsewhere(code: seq<Byte>, end: nat, a: nat, b: nat)
    requires 4 <= end <= |code| && a <= b <= |code| && (b <= end - 4 || end <= a)
    ensures |Filled(code, end)| == |code| && Filled(code, end)[a..b] == code[a..b]
    ensures Filled(code, end)[end - 4..end] == Le32(|code| - end)
  {
    var more := Filled(code, end);
    assert forall k | a <= k < b :: more[k] == code[k];
  }

  /** A PATCH op writes nothing of its own and fills in the displacement of its jump. */
  lemma Patched(enc: Encoder, q: seq<Op>, links: seq<nat>, code: seq<Byte>, i: nat)
    requires Emittable(q, links) && i < |q| && q[i].code.PATCH? && WrittenUpTo(enc, q, code, i)
    ensures links[i] < i && 4 <= EndOf(enc, q, links[i]) <= |code|
    ensures WrittenUpTo(enc, q, Filled(code, EndOf(enc, q, links[i])), i + 1)
  {
    var j, n := links[i], i + 1;
    assert PatchOf(q, i, j);
    OffsetGrows(enc, q, j, i);
    var more := Filled(code, EndOf(enc, q, j));
    FilledElsewhere(code, EndOf(enc, q, j), 0, 0);
    forall k: nat | k < n ensures OpWritten(enc, q, more, k, n) {
      PatchedAt(enc, q, links, code, i, k);
    }
  }

  lemma PatchedAt(enc: Encoder, q: seq<Op>, links: seq<nat>, code: seq<Byte>, i: nat, k: nat)
    requires Emittable(q, links) && i < |q| && q[i].code.PATCH? && WrittenUpTo(enc, q, code, i) && k <= i
    requires links[i] < i && PatchOf(q, i, links[i]) && 4 <= EndOf(enc, q, links[i]) <= |code|
    ensures OpWritten(enc, q, Filled(code, EndOf(enc, q, links[i])), k, i + 1)
  {
    if k == links[i] {
      PatchHere(enc, q, code, i, k);
    } else if k < i {
      PatchElsewhere(enc, q, links, code, i, k);
    } else {
      FilledElsewhere(code, EndOf(enc, q, links[i]), 0, 0);
    }
  }

  lemma PatchElsewhere(enc: Encoder, q: seq<Op>, links: seq<nat>, code: seq<Byte>, i: nat, k: nat)
    requires Emittable(q, links) && i < |q| && q[i].code.PATCH? && WrittenUpTo(enc, q, code, i)
    requires links[i] < i && IsJump(q[links[i]]) && k < i && k != links[i]
    requires 4 <= EndOf(enc, q, links[i]) <= |code|
    ensures OpWritten(enc, q, Filled(code, EndOf(enc, q, links[i])), k, i + 1)
  {
    var j := links[i];
    Apart(enc, q, j, k);
    OffsetGrows(enc, q, k, i);
    ResolvedBy(q, links, k, i);
    assert OpWritten(enc, q, code, k, i);
    var more := Filled(code, EndOf(enc, q, j));
    FilledElsewhere(code, EndOf(enc, q, j), Offset(enc, q, k), EndOf(enc, q, k));
    KeepWritten(enc, q, code, more, k, i, i + 1);
  }

  lemma Apart(enc: Encoder, q: seq<Op>, j: nat, k: nat)
    requires j < |q| && k < |q| && j != k && IsJump(q[j])
    ensures EndOf(enc, q, k) <= EndOf(enc, q, j) - 4 || EndOf(enc, q, j) <= Offset(enc, q, k)
  {
    if k < j { OffsetGrows(enc, q, k, j); } else { OffsetGrows(enc, q, j, k); }
  }

  lemma PatchHere(enc: Encoder, q: seq<Op>, code: seq<Byte>, i: nat, j: nat)
    requires j < i < |q| && IsJump(q[j]) && Goto(q, q[j]) == i && WrittenUpTo(enc, q, code, i)
    requires 4 <= EndOf(enc, q, j) <= |code|
    ensures OpWritten(enc, q, Filled(code, EndOf(enc, q, j)), j, i + 1)
  {
    var a, end := Offset(enc, q, j), EndOf(enc, q, j);
    assert OpWritten(enc, q, code, j, i);
    FilledElsewhere(code, end, a, end - 4);
  }

  // ---------- the finished code ----------

  /** Op j's own bytes start at its offset, and if it is a jump, what the processor reads there leads
      to where its target's bytes start and is taken exactly when the op jumps. */
  ghost predicate OpEncoded(enc: Encoder, q: seq<Op>, code: seq<Byte>, j: nat)
    requires j < |q|
  {
    var a, h := Offset(enc, q, j), |Head(enc, j, q[j])|;
    && a + Length(enc, j, q[j]) <= |code| && code[a..a + h] == Head(enc, j, q[j])
    && (IsJump(q[j]) ==>
          Goto(q, q[j]) < |q| && JumpTarget(code, JumpAt(enc, q, j)) == Some(Offset(enc, q, Goto(q, q[j])))
          && TakenRight(q[j].code, code, JumpAt(enc, q, j)))
  }

  /** The code consists of the ops' bytes one behind the other, and its jumps are the list's. */
  ghost predicate Encodes(enc: Encoder, q: seq<Op>, code: seq<Byte>) {
    && |code| == Offset(enc, q, |q|)
    && forall j: nat {:trigger OpEncoded(enc, q, code, j)} | j < |q| :: OpEncoded(enc, q, code, j)
  }

  /** The bytes that decide whether the jump is taken. */
  lemma JumpBytes(enc: Encoder, q: seq<Op>, code: seq<Byte>, j: nat, i: nat)
    requires j < |q| && IsJump(q[j]) && OpWritten(enc, q, code, j, i)
    ensures var a := JumpAt(enc, q, j);
      if q[j].code.JMP? then a + 5 <= |code| && code[a] == 0xe9
      else a + 7 <= |code| && code[a] == 0x48 && code[a + 1] == 0x0f && code[a + 2] == ConditionByte(q[j].code) + 0x10
  {
    if IsBranch(q[j]) {
      HeadByte(enc, q, code, j, |enc(j, q[j])|);
      HeadByte(enc, q, code, j, |enc(j, q[j])| + 1);
      HeadByte(enc, q, code, j, |enc(j, q[j])| + 2);
    } else {
      HeadByte(enc, q, code, j, 0);
    }
  }

  /** A jump with these bytes is taken when it should be. */
  lemma BytesTakenRight(c: Code, code: seq<Byte>, a: nat)
    requires c.JMP? || c.BRANCH? || c.TEST?
    requires if c.JMP? then a + 5 <= |code| && code[a] == 0xe9
             else a + 7 <= |code| && code[a] == 0x48 && code[a + 1] == 0x0f && code[a + 2] == ConditionByte(c) + 0x10
    ensures TakenRight(c, code, a)
  {
    forall sem, x1, x, y | Ordered(sem) && T.IsWord(x) && T.IsWord(y)
      ensures Jumps(code, a, FlagsAfter(ComparisonOf(c), x, y)) <==> Control(sem, c, x1, x, y).Taken?
    {
      if !c.JMP? { BranchRight(sem, c, x1, x, y); }
    }
  }

  lemma JumpIsTakenRight(enc: Encoder, q: seq<Op>, code: seq<Byte>, j: nat, i: nat)
    requires j < |q| && IsJump(q[j]) && OpWritten(enc, q, code, j, i)
    ensures TakenRight(q[j].code, code, JumpAt(enc, q, j))
  {
    JumpBytes(enc, q, code, j, i);
    BytesTakenRight(q[j].code, code, JumpAt(enc, q, j));
  }

  lemma OpDone(enc: Encoder, q: seq<Op>, code: seq<Byte>, j: nat)
    requires j < |q| && JumpOk(q, j) && OpWritten(enc, q, code, j, |q|)
    requires |code| == Offset(enc, q, |q|) < 0x8000_0000
    ensures OpEncoded(enc, q, code, j)
  {
    if IsJump(q[j]) {
      OffsetGrows(enc, q, Goto(q, q[j]), |q|);
      JumpsThere(enc, q, code, j, |q|);
      JumpIsTakenRight(enc, q, code, j, |q|);
    }
  }

  lemma WrittenEncodes(enc: Encoder, q: seq<Op>, links: seq<nat>, code: seq<Byte>)
    requires Emittable(q, links) && WrittenUpTo(enc, q, code, |q|) && |code| < 0x8000_0000
    ensures Encodes(enc, q, code)
  {
    forall j: nat | j < |q| ensures OpEncoded(enc, q, code, j) {
      assert JumpOk(q, j) && OpWritten(enc, q, code, j, |q|);
      OpDone(enc, q, code, j);
    }
  }

  // ---------- the emitter ----------

  /** The buffer with the instruction pointer, the patch addresses of the ops and the positions
      of the labels. */
  class Emitter {
    const q: seq<Op>
    const links: seq<nat>
    const enc: Encoder
    const buf: array<Byte>
    var ip: nat
    const patchAddr: array<nat>
    var labelPos: map<nat, nat>

    constructor (q: seq<Op>, links: seq<nat>, enc: Encoder)
      requires |links| == |q|
      ensures this.q == q && this.links == links && this.enc == enc && ip == 0 && labelPos == map[]
      ensures buf.Length == Offset(enc, q, |q|) && patchAddr.Length == |q| && fresh(buf) && fresh(patchAddr)
      ensures Valid(0)
    {
      this.q, this.links, this.enc := q, links, enc;
      ip, labelPos := 0, map[];
      buf := new Byte[Offset(enc, q, |q|)];
      patchAddr := new nat[|q|];
    }

    ghost function Contents(): seq<Byte>
      requires ip <= buf.Length
      reads this, buf
    {
      buf[..ip]
    }

    method EmitByte(b: Byte)
      requires ip < buf.Length
      modifies this`ip, buf
      ensures ip == old(ip) + 1 && Contents() == old(Contents()) + [b]
    {
      buf[ip] := b;
      ip := ip + 1;
      assert buf[..ip] == old(buf[..ip]) + [b];
    }

    method EmitBytes(bytes: seq<Byte>)
      requires ip + |bytes| <= buf.Length
      modifies this`ip, buf
      ensures ip == old(ip) + |bytes| && Contents() == old(Contents()) + bytes
    {
      for i := 0 to |bytes|
        invariant ip == old(ip) + i <= buf.Length && Contents() == old(Contents()) + bytes[..i]
      {
        EmitByte(bytes[i]);
        assert bytes[..i + 1] == bytes[..i] + [bytes[i]];
      }
      assert bytes[..|bytes|] == bytes;
    }

    /** x86_imm_emit32 */
    method EmitImm32(d: int)
      requires ip + 4 <= buf.Length
      modifies this`ip, buf
      ensures ip == old(ip) + 4 && Contents() == old(Contents()) + Le32(d)
    {
      EmitBytes(Le32(d));
    }

    /** __JIT_GET_ADDR, with the pointer where it stands when the macro's text is reached: the way
        to a label that has been passed, or whatever number the argument field holds. */
    function GetAddr(op: Op): int
      reads this
    {
      if op.jmp.Some? && op.jmp.value in labelPos then labelPos[op.jmp.value] - ip else op.r1
    }

    /** amd64_branch_disp32: a REX prefix, then the two opcode bytes; the displacement is computed
        after the prefix is out. */
    method BranchDisp32(op: Op, condition: Byte) returns (ghost d: int)
      requires ip + 7 <= buf.Length && condition < 0xf0
      modifies this`ip, buf
      ensures ip == old(ip) + 7
      ensures Contents() == old(Contents()) + [0x48, 0x0f, condition + 0x10] + Le32(d)
      ensures op.jmp.Some? && op.jmp.value in labelPos ==> d == labelPos[op.jmp.value] - ip
    {
      EmitByte(0x48);
      var offset := GetAddr(op) - 6;
      EmitByte(0x0f);
      EmitByte(condition + 0x10);
      EmitImm32(offset);
      d := offset;
    }

    /** amd64_jump_disp32: no prefix. */
    method JumpDisp32(op: Op) returns (ghost d: int)
      requires ip + 5 <= buf.Length
      modifies this`ip, buf
      ensures ip == old(ip) + 5
      ensures Contents() == old(Contents()) + [0xe9] + Le32(d)
      ensures op.jmp.Some? && op.jmp.value in labelPos ==> d == labelPos[op.jmp.value] - ip
    {
      var t := GetAddr(op) - 5;
      EmitByte(0xe9);
      EmitImm32(t);
      d := t;
    }

    /** Before op i: its predecessors are written, and where their jumps and labels are is known. */
    ghost predicate Valid(i: nat)
      requires i <= |q|
      reads this, buf, patchAddr
    {
      && buf.Length == Offset(enc, q, |q|) && patchAddr.Length == |q| && ip == Offset(enc, q, i) <= buf.Length
      && WrittenUpTo(enc, q, Contents(), i)
      && Noted(enc, q, patchAddr[..], i) && Labelled(enc, q, labelPos, i)
    }

    method Overwrite(pos: nat, d: int)
      requires pos + 4 <= ip <= buf.Length
      modifies buf
      ensures Contents() == old(Contents())[..pos] + Le32(d) + old(Contents())[pos + 4..]
    {
      var b := Le32(d);
      buf[pos] := b[0];
      buf[pos + 1] := b[1];
      buf[pos + 2] := b[2];
      buf[pos + 3] := b[3];
    }

    /** amd64_patch on a jump this emitter wrote: past the prefix, past the opcode, and the
        displacement counts from its own end. */
    method PatchAt(a: nat, ghost end: nat)
      requires 5 <= end <= ip <= buf.Length
      requires (a + 5 == end && buf[a] == 0xe9)
            || (a + 7 == end && buf[a] == 0x48 && buf[a + 1] == 0x0f && 0x70 <= buf[a + 2] <= 0x8f)
      modifies buf
      ensures Contents() == Filled(old(Contents()), end)
    {
      var rex := if buf[a] / 16 == 4 then 1 else 0;
      var pos := a + 1 + rex;
      if buf[a + rex] == 0x0f {
        assert 0x70 <= buf[pos] <= 0x8f;
        pos := pos + 1;
      } else {
        assert buf[a + rex] == 0xe9;
      }
      var disp := ip - pos;
      Overwrite(pos, disp - 4);
    }

    /** emit_branch_op and its kin: the comparison, then the jump, whose address is noted. */
    method EmitBranch(i: nat) returns (ghost d: int)
      requires i < |q| == patchAddr.Length && IsBranch(q[i]) && ip + Length(enc, i, q[i]) <= buf.Length
      modifies this`ip, buf, patchAddr
      ensures ip == old(ip) + Length(enc, i, q[i]) && Contents() == old(Contents()) + (Head(enc, i, q[i]) + Le32(d))
      ensures patchAddr[..] == old(patchAddr[..])[i := old(ip) + |enc(i, q[i])|]
      ensures q[i].jmp.Some? && q[i].jmp.value in labelPos ==> d == labelPos[q[i].jmp.value] - ip
    {
      EmitBytes(enc(i, q[i]));
      patchAddr[i] := ip;
      d := BranchDisp32(q[i], ConditionByte(q[i].code));
    }

    method EmitJmp(i: nat) returns (ghost d: int)
      requires i < |q| == patchAddr.Length && q[i].code.JMP? && ip + Length(enc, i, q[i]) <= buf.Length
      modifies this`ip, buf, patchAddr
      ensures ip == old(ip) + Length(enc, i, q[i]) && Contents() == old(Contents()) + (Head(enc, i, q[i]) + Le32(d))
      ensures patchAddr[..] == old(patchAddr[..])[i := old(ip)]
      ensures q[i].jmp.Some? && q[i].jmp.value in labelPos ==> d == labelPos[q[i].jmp.value] - ip
    {
      patchAddr[i] := ip;
      d := JumpDisp32(q[i]);
    }

    method EmitJump(i: nat) returns (ghost d: int)
      requires i < |q| == patchAddr.Length && IsJump(q[i]) && ip == Offset(enc, q, i)
      requires ip + Length(enc, i, q[i]) <= buf.Length
      modifies this`ip, buf, patchAddr
      ensures ip == old(ip) + Length(enc, i, q[i]) && Contents() == old(Contents()) + (Head(enc, i, q[i]) + Le32(d))
      ensures patchAddr[..] == old(patchAddr[..])[i := JumpAt(enc, q, i)]
      ensures q[i].jmp.Some? && q[i].jmp.value in labelPos ==> d == labelPos[q[i].jmp.value] - ip
    {
      if IsBranch(q[i]) {
        d := EmitBranch(i);
      } else {
        d := EmitJmp(i);
      }
    }

    method GenJump(i: nat)
      requires i < |q| && Emittable(q, links) && Valid(i) && IsJump(q[i])
      modifies this`ip, buf, patchAddr
      ensures Valid(i + 1)
    {
      OffsetGrows(enc, q, i + 1, |q|);
      NotedNext(enc, q, patchAddr[..], i);
      ghost var before := Contents();
      ghost var d := EmitJump(i);
      JumpAppended(i, before, d);
    }

    /** The bytes of a jump are as they should be if its displacement is. */
    lemma {:induction false} JumpWritten(i: nat, before: seq<Byte>, d: int)
      requires i < |q| && Emittable(q, links) && IsJump(q[i]) && |before| == Offset(enc, q, i)
      requires Labelled(enc, q, labelPos, i)
      requires q[i].jmp.Some? && q[i].jmp.value in labelPos ==> d == labelPos[q[i].jmp.value] - EndOf(enc, q, i)
      ensures OpWritten(enc, q, before + (Head(enc, i, q[i]) + Le32(d)), i, i + 1)
    {
      LabelKnown(i, d);
      Slices(before, Head(enc, i, q[i]), Le32(d));
    }

    /** The displacement of a jump to a label is known when the jump is written. */
    lemma {:induction false} LabelKnown(i: nat, d: int)
      requires i < |q| && Emittable(q, links) && IsJump(q[i]) && Labelled(enc, q, labelPos, i)
      requires q[i].jmp.Some? && q[i].jmp.value in labelPos ==> d == labelPos[q[i].jmp.value] - EndOf(enc, q, i)
      ensures Resolved(q, i, i + 1) ==> d == Offset(enc, q, Goto(q, q[i])) - EndOf(enc, q, i)
    {
      assert JumpOk(q, i);
      FindsFirst(q, q[i].jmp.value);
    }

    lemma {:induction false} JumpAppended(i: nat, before: seq<Byte>, d: int)
      requires i < |q| && Emittable(q, links) && IsJump(q[i]) && WrittenUpTo(enc, q, before, i)
      requires Labelled(enc, q, labelPos, i)
      requires q[i].jmp.Some? && q[i].jmp.value in labelPos ==> d == labelPos[q[i].jmp.value] - EndOf(enc, q, i)
      ensures WrittenUpTo(enc, q, before + (Head(enc, i, q[i]) + Le32(d)), i + 1)
    {
      JumpWritten(i, before, d);
      Appended(enc, q, links, before, Head(enc, i, q[i]) + Le32(d), i);
    }

    method GenPatch(i: nat)
      requires i < |q| && Emittable(q, links) && Valid(i) && q[i].code.PATCH?
      modifies buf
      ensures Valid(i + 1)
    {
      PatchReady(i);
      NotedNext(enc, q, patchAddr[..], i);
      ghost var before, addrs, end := Contents(), patchAddr[..], EndOf(enc, q, links[i]);
      PatchAt(patchAddr[links[i]], end);
      Patched(enc, q, links, before, i);
      assert Contents() == Filled(before, end) && patchAddr[..] == addrs;
    }

    /** The jump that the PATCH belongs to is written, and its address is noted. */
    lemma PatchReady(i: nat)
      requires i < |q| && Emittable(q, links) && Valid(i) && q[i].code.PATCH?
      ensures links[i] < i && 5 <= EndOf(enc, q, links[i]) <= ip
      ensures var a, end := patchAddr[links[i]], EndOf(enc, q, links[i]);
        || (a + 5 == end && buf[a] == 0xe9)
        || (a + 7 == end && buf[a] == 0x48 && buf[a + 1] == 0x0f && 0x70 <= buf[a + 2] <= 0x8f)
    {
      var j := links[i];
      assert PatchOf(q, i, j) && OpWritten(enc, q, Contents(), j, i);
      PatchPlace(Contents(), j, i);
      assert patchAddr[j] == JumpAt(enc, q, j);
    }

    /** What amd64_patch finds at the jump. */
    lemma {:induction false} PatchPlace(code: seq<Byte>, j: nat, i: nat)
      requires j < |q| && IsJump(q[j]) && OpWritten(enc, q, code, j, i)
      ensures var a, end := JumpAt(enc, q, j), EndOf(enc, q, j);
        && 5 <= end <= |code|
        && if IsBranch(q[j]) then a + 7 == end && code[a] == 0x48 && code[a + 1] == 0x0f && 0x70 <= code[a + 2] <= 0x8f
           else a + 5 == end && code[a] == 0xe9
    {
      if IsBranch(q[j]) {
        HeadByte(enc, q, code, j, |enc(j, q[j])|);
        HeadByte(enc, q, code, j, |enc(j, q[j])| + 1);
        HeadByte(enc, q, code, j, |enc(j, q[j])| + 2);
      } else {
        HeadByte(enc, q, code, j, 0);
      }
    }

    method GenLabel(i: nat)
      requires i < |q| && Emittable(q, links) && Valid(i) && q[i].code.LABEL?
      modifies this`labelPos
      ensures Valid(i + 1)
    {
      labelPos := labelPos[q[i].code.id := ip];
      forall j: nat | j < i && q[j].code.LABEL? ensures q[j].code.id != q[i].code.id {
        if q[j].code.id == q[i].code.id { OneTarget(q, j, i, q[i].code.id); }
      }
      assert Contents() + [] == Contents();
      NotedNext(enc, q, patchAddr[..], i);
      PlainWritten(i, Contents());
      Appended(enc, q, links, Contents(), [], i);
      OffsetGrows(enc, q, i + 1, |q|);
    }

    method GenOther(i: nat)
      requires i < |q| && Emittable(q, links) && Valid(i) && !IsJump(q[i]) && !IsMark(q[i])
      modifies this`ip, buf
      ensures Valid(i + 1)
    {
      OffsetGrows(enc, q, i + 1, |q|);
      ghost var before := Contents();
      NotedNext(enc, q, patchAddr[..], i);
      EmitBytes(enc(i, q[i]));
      PlainWritten(i, before);
      Appended(enc, q, links, before, enc(i, q[i]), i);
    }

    method GenOp(i: nat)
      requires i < |q| && Emittable(q, links) && Valid(i)
      modifies this, buf, patchAddr
      ensures Valid(i + 1)
    {
      var op := q[i];
      match op.code
      case BRANCH(_, _) => GenJump(i);
      case TEST(_) => GenJump(i);
      case JMP => GenJump(i);
      case PATCH(_) => GenPatch(i);
      case LABEL(_) => GenLabel(i);
      case _ => GenOther(i);
    }

    lemma {:induction false} PlainWritten(i: nat, before: seq<Byte>)
      requires i < |q| && !IsJump(q[i]) && |before| == Offset(enc, q, i)
      ensures OpWritten(enc, q, before + Head(enc, i, q[i]), i, i + 1)
    {
    }

    /** The emission loop: in the finished buffer every op's bytes are where they were put, and every
        branch and jump decodes to the offset where its LABEL or PATCH was emitted and to the condition
        it is taken on. */
    method GenerateCode()
      requires Emittable(q, links) && Valid(0) && buf.Length < 0x8000_0000
      modifies this, buf, patchAddr
      ensures ip == buf.Length && patchAddr.Length == |q| && Encodes(enc, q, buf[..])
      ensures forall j: nat {:trigger patchAddr[j]} | j < |q| && IsJump(q[j]) :: patchAddr[j] == JumpAt(enc, q, j)
    {
      for i := 0 to |q|
        invariant Valid(i)
      {
        GenOp(i);
      }
      assert Contents() == buf[..];
      WrittenEncodes(enc, q, links, buf[..]);
    }
  }
}
