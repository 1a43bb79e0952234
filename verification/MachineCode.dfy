/** From the allocated list to bytes: the list that the allocator makes can be emitted, so the
    whole back end ends in code whose every jump leads where the allocated list jumps. */
module MachineCode {
  import opened JitOps
  import opened Hardware
  import opened Rmap
  import opened Layout
  import opened RegAlloc
  import opened Allocation
  import opened Rewriting
  import opened Pipeline
  import E = Emission
  import opened Arithmetic
  import LongImm
  import A = Allocator
  import opened FrameCode
  import opened Selection
  import opened SelectedCode
  import FrameSlots

  // ---------- places in a list of blocks ----------

  lemma {:induction false} StartsApart(bs: Blocks, i: nat, j: nat)
    requires i < j <= |bs|
    ensures Start(bs, i) + |bs[i]| <= Start(bs, j)
  {
    Prefix(bs, i);
    if i + 1 < j {
      Prefix(bs, j - 1);
      StartsApart(bs, i, j - 1);
    }
  }

  lemma OnePlace(bs: Blocks, i: nat, e: nat, j: nat, f: nat)
    requires i < |bs| && e < |bs[i]| && j < |bs| && f < |bs[j]|
    requires Start(bs, i) + e == Start(bs, j) + f
    ensures i == j && e == f
  {
    if i < j { StartsApart(bs, i, j); }
    if j < i { StartsApart(bs, j, i); }
  }

  // ---------- the jumps of the allocated list ----------

  /** What the allocator's result is known to satisfy. */
  ghost predicate Made(x: Plan) {
    x.Shaped() && x.Assigned() && x.Built() && x.FreshIds() && PlainProgram(x.p)
  }

  /** Where op i itself stands in its block. */
  function MainAt(x: Plan, i: nat): int
    requires x.Shaped() && i < |x.p|
  {
    |x.bs[i]| - if x.Splits(i) then 2 else 1
  }

  /** The inverted branch of a split one. */
  ghost predicate IsInverse(x: Plan, i: nat, e: nat)
    requires x.Shaped() && i < |x.p|
  {
    x.Splits(i) && e == |x.a[i].moves|
  }

  lemma MovesAreNoJumps(ms: seq<Op>, e: nat)
    requires AllMoves(ms) && e < |ms|
    ensures !IsJump(ms[e]) && !E.IsMark(ms[e])
  {
    assert IsMove(ms[e]);
  }

  lemma AdjustedJumps(op: Op, t: Op, e: nat)
    requires e < |AdjustJump(op, t)| && (IsJump(AdjustJump(op, t)[e]) || E.IsMark(AdjustJump(op, t)[e]))
    ensures e == |AdjustJump(op, t)| - 1 && AdjustJump(op, t)[e] == op
  {
    var ms := JumpMoves(op.regmap, t.regmap, t.liveIn, op.liveOut);
    if op.code.JMP? && e < |ms| { MovesAreNoJumps(ms, e); }
  }

  lemma SplitJumps(op: Op, t: Op, id: nat, e: nat)
    requires op.code.BRANCH? && e < |SplitBranch(op, t, id)| && IsJump(SplitBranch(op, t, id)[e])
    ensures |SplitBranch(op, t, id)| >= 3
    ensures if e == 0 then SplitBranch(op, t, id)[e] == Inverted(op, id)
            else e == |SplitBranch(op, t, id)| - 2 && SplitBranch(op, t, id)[e] == JumpOp(op)
  {
    var mid := AdjustJump(JumpOp(op), t);
    if 0 < e <= |mid| { AdjustedJumps(JumpOp(op), t, e - 1); }
  }

  /** Which ops of a block are jumps, and where they stand. */
  lemma BlockJumps(x: Plan, i: nat, e: nat)
    requires Made(x) && i < |x.p| && e < |x.bs[i]| && IsJump(x.bs[i][e])
    ensures IsInverse(x, i, e) ==> x.bs[i][e].jmp == Some(x.ids[i]) && e + 2 < |x.bs[i]|
    ensures !IsInverse(x, i, e) ==> e == MainAt(x, i) && IsJump(x.p[i]) && x.bs[i][e].jmp == x.p[i].jmp
  {
    assert x.bs[i] == x.Block(i);
    AssignedFields(x, i);
    var moves := x.a[i].moves;
    if e < |moves| {
      MovesAreNoJumps(moves, e);
    } else if x.Splits(i) {
      SplitJumps(x.a[i].op, x.Target(i), x.ids[i], e - |moves|);
    } else {
      AdjustedJumps(x.a[i].op, x.Target(i), e - |moves|);
    }
  }

  /** The branch of a split block leads to the block's own PATCH, every other jump to the start of
      the block of its target. */
  lemma JumpLeads(x: Plan, i: nat, e: nat)
    requires Made(x) && i < |x.p| && e < |x.bs[i]| && IsJump(x.bs[i][e])
    requires E.JumpOk(x.p, i)
    ensures var t := Goto(x.Output(), x.bs[i][e]);
      if IsInverse(x, i, e) then t == Start(x.bs, i) + |x.bs[i]| - 1
      else
        var u := Goto(x.p, x.p[i]);
        u < |x.p| && t == Start(x.bs, u) && x.bs[u] == [x.a[u].op]
  {
    BlockJumps(x, i, e);
    if IsInverse(x, i, e) {
      NewTarget(x, i);
    } else {
      FindsFirst(x.p, x.p[i].jmp.value);
      OldTarget(x, Goto(x.p, x.p[i]), x.p[i].jmp.value);
    }
  }

  // ---------- the allocated list can be emitted ----------

  lemma BlockMarks(x: Plan, i: nat)
    requires Made(x) && i < |x.p|
    ensures SameButRegs(x.a[i].op, x.p[i])
    ensures x.Splits(i) ==> x.bs[i] != [] && x.bs[i][|x.bs[i]| - 1] == PatchOp(x.ids[i])
  {
    assert x.bs[i] == x.Block(i);
    AssignedFields(x, i);
  }

  lemma JumpStaysOk(x: Plan, i: nat, e: nat)
    requires Made(x) && i < |x.p| && e < |x.bs[i]| && E.JumpOk(x.p, i)
    requires Start(x.bs, i) + e < |x.Output()| && x.Output()[Start(x.bs, i) + e] == x.bs[i][e]
    ensures E.JumpOk(x.Output(), Start(x.bs, i) + e)
  {
    if IsJump(x.bs[i][e]) {
      BlockJumps(x, i, e);
      JumpLeads(x, i, e);
      if IsInverse(x, i, e) {
        BlockMarks(x, i);
        At(x.bs, i, |x.bs[i]| - 1);
      } else {
        var t := Goto(x.p, x.p[i]);
        BlockMarks(x, t);
        At(x.bs, t, 0);
        if t < i { StartsApart(x.bs, t, i); } else { StartsApart(x.bs, i, t); }
      }
    }
  }

  /** The block that position k of the list lies in. */
  ghost function BlockAt(bs: Blocks, k: nat): (i: nat)
    requires k < |Concat(bs)|
    ensures i < |bs| && Start(bs, i) <= k < Start(bs, i) + |bs[i]| && Concat(bs)[k] == bs[i][k - Start(bs, i)]
    decreases |bs|
  {
    var n := |bs| - 1;
    Split(bs, n);
    StartEnds(bs);
    if k >= Start(bs, n) then n
    else
      var i := BlockAt(bs[..n], k);
      assert bs[..n][..i] == bs[..i];
      i
  }

  /** The jump that the PATCH in block i belongs to: the inverted branch if the PATCH is new, else
      what has become of the jump it belonged to before. */
  ghost function LinkAt(x: Plan, links: seq<nat>, i: nat): int
    requires x.Shaped() && i < |x.p| && |links| == |x.p|
  {
    if x.Splits(i) then Start(x.bs, i) + |x.a[i].moves|
    else if links[i] < |x.p| then Start(x.bs, links[i]) + MainAt(x, links[i])
    else 0
  }

  /** No op but the first of its block, or the last of a split one, is a PATCH. */
  lemma PatchPlaces(x: Plan, i: nat, e: nat)
    requires Made(x) && i < |x.p| && e < |x.bs[i]| && x.bs[i][e].code.PATCH?
    ensures if x.Splits(i) then e == |x.bs[i]| - 1 else x.p[i].code.PATCH? && x.bs[i] == [x.a[i].op]
  {
    BlockTargets(x, i, e, x.bs[i][e].code.id);
    BlockMarks(x, i);
    assert x.bs[i] == x.Block(i);
  }

  /** A jump to the PATCH in block i is the one its link names. */
  lemma OnlyLink(x: Plan, links: seq<nat>, i: nat, e: nat, j: nat, f: nat)
    requires Made(x) && E.Emittable(x.p, links) && i < |x.p| && e < |x.bs[i]| && j < |x.p| && f < |x.bs[j]|
    requires x.bs[i][e].code.PATCH? && IsJump(x.bs[j][f])
    requires Goto(x.Output(), x.bs[j][f]) == Start(x.bs, i) + e
    ensures Start(x.bs, j) + f == LinkAt(x, links, i)
  {
    assert E.JumpOk(x.p, j);
    BlockJumps(x, j, f);
    JumpLeads(x, j, f);
    PatchPlaces(x, i, e);
    if IsInverse(x, j, f) {
      OnePlace(x.bs, i, e, j, |x.bs[j]| - 1);
    } else {
      OnePlace(x.bs, i, e, Goto(x.p, x.p[j]), 0);
      BlockMarks(x, i);
      assert x.bs[i] == x.Block(i);
      assert E.PatchOf(x.p, i, j);
    }
  }

  lemma MainIsJump(x: Plan, j: nat)
    requires Made(x) && j < |x.p| && IsJump(x.p[j])
    ensures 0 <= MainAt(x, j) < |x.bs[j]| && IsJump(x.bs[j][MainAt(x, j)]) && !IsInverse(x, j, MainAt(x, j))
  {
    assert x.bs[j] == x.Block(j);
    AssignedFields(x, j);
    var op, t := x.a[j].op, x.Target(j);
    if x.Splits(j) {
      assert AdjustJump(JumpOp(op), t)[|AdjustJump(JumpOp(op), t)| - 1] == JumpOp(op);
    } else {
      assert AdjustJump(op, t)[|AdjustJump(op, t)| - 1] == op;
    }
  }

  /** Every PATCH of the allocated list belongs to a jump ahead of it. */
  lemma HasLink(x: Plan, links: seq<nat>, i: nat, e: nat) returns (j: nat, f: nat)
    requires Made(x) && E.Emittable(x.p, links) && i < |x.p| && e < |x.bs[i]| && x.bs[i][e].code.PATCH?
    ensures j < |x.p| && f < |x.bs[j]| && IsJump(x.bs[j][f]) && LinkAt(x, links, i) == Start(x.bs, j) + f
    ensures Goto(x.Output(), x.bs[j][f]) == Start(x.bs, i) + e && Start(x.bs, j) + f < Start(x.bs, i) + e
  {
    PatchPlaces(x, i, e);
    if x.Splits(i) {
      j, f := i, |x.a[i].moves|;
      assert x.bs[i] == x.Block(i);
    } else {
      j := links[i];
      assert E.PatchOf(x.p, i, j);
      MainIsJump(x, j);
      f := MainAt(x, j);
      StartsApart(x.bs, j, i);
    }
    assert E.JumpOk(x.p, j);
    JumpLeads(x, j, f);
    BlockJumps(x, j, f);
  }

  lemma OutputTargets(x: Plan, i: nat, e: nat, j: nat, f: nat, id: nat)
    requires Made(x) && i < |x.p| && e < |x.bs[i]| && j < |x.p| && f < |x.bs[j]|
    requires IsTarget(x.bs[i][e], id) && IsTarget(x.bs[j][f], id)
    ensures i == j && e == f
  {
    BlockTargets(x, i, e, id);
    BlockTargets(x, j, f, id);
    if IsTarget(x.p[i], id) && IsTarget(x.p[j], id) { OneTarget(x.p, i, j, id); }
  }

  ghost function Links(x: Plan, links: seq<nat>): (r: seq<nat>)
    requires x.Shaped() && |links| == |x.p|
    ensures |r| == |x.Output()|
    ensures forall k: nat {:trigger r[k]} | k < |r| :: r[k] == Nonneg(LinkAt(x, links, BlockAt(x.bs, k)))
  {
    seq(|x.Output()|, k requires 0 <= k < |x.Output()| => Nonneg(LinkAt(x, links, BlockAt(x.bs, k))))
  }

  function Nonneg(i: int): nat {
    if i < 0 then 0 else i
  }

  lemma OutputTargetsDistinct(x: Plan)
    requires Made(x)
    ensures DistinctTargets(x.Output())
  {
    var q := x.Output();
    forall k, l, id | 0 <= k < l < |q| ensures !(IsTarget(q[k], id) && IsTarget(q[l], id)) {
      var i, j := BlockAt(x.bs, k), BlockAt(x.bs, l);
      if IsTarget(q[k], id) && IsTarget(q[l], id) {
        OutputTargets(x, i, k - Start(x.bs, i), j, l - Start(x.bs, j), id);
      }
    }
  }

  lemma LinkHolds(x: Plan, links: seq<nat>, k: nat)
    requires Made(x) && E.Emittable(x.p, links) && k < |x.Output()| && x.Output()[k].code.PATCH?
    ensures Links(x, links)[k] < k && E.PatchOf(x.Output(), k, Links(x, links)[k])
  {
    var i := BlockAt(x.bs, k);
    var j, f := HasLink(x, links, i, k - Start(x.bs, i));
    At(x.bs, j, f);
    assert Links(x, links)[k] == Start(x.bs, j) + f;
  }

  lemma LinkIsOnly(x: Plan, links: seq<nat>, k: nat, l: nat)
    requires Made(x) && E.Emittable(x.p, links) && k < |x.Output()| && l < |x.Output()| && E.PatchOf(x.Output(), k, l)
    ensures l == Links(x, links)[k]
  {
    var i, j := BlockAt(x.bs, k), BlockAt(x.bs, l);
    OnlyLink(x, links, i, k - Start(x.bs, i), j, l - Start(x.bs, j));
    assert Links(x, links)[k] == l;
  }

  /** The allocator keeps a list fit for emission: every LABEL behind its jumps, every PATCH ahead
      of the one jump it belongs to. */
  lemma AllocatedIsEmittable(x: Plan, links: seq<nat>)
    requires Made(x) && E.Emittable(x.p, links)
    ensures E.Emittable(x.Output(), Links(x, links))
  {
    var q, r := x.Output(), Links(x, links);
    OutputTargetsDistinct(x);
    forall k: nat | k < |q| ensures E.JumpOk(q, k) {
      var i := BlockAt(x.bs, k);
      assert E.JumpOk(x.p, i);
      JumpStaysOk(x, i, k - Start(x.bs, i));
    }
    forall k: nat {:trigger r[k]} | k < |q| && q[k].code.PATCH? ensures r[k] < k && E.PatchOf(q, k, r[k]) {
      LinkHolds(x, links, k);
    }
    forall k: nat, l: nat | k < |q| && l < |q| && E.PatchOf(q, k, l) ensures l == r[k] {
      LinkIsOnly(x, links, k, l);
    }
  }

  // ---------- the same for the long immediates ----------

  /** A jump or mark is the last op of its piece, a mark the only one. */
  lemma PieceLast(p: seq<Op>, i: nat, e: nat)
    requires LongImm.ImmProgram(p) && i < |p|
    ensures var b := LongImm.Pieces(p)[i];
      && b != [] && b[|b| - 1].code == p[i].code && b[|b| - 1].jmp == p[i].jmp
      && (E.IsMark(p[i]) ==> |b| == 1)
      && (e < |b| && (IsJump(b[e]) || E.IsMark(b[e])) ==> e == |b| - 1)
  {
    assert LongImm.ImmOp(p[i]);
  }

  lemma PieceLeads(p: seq<Op>, i: nat)
    requires LongImm.ImmProgram(p) && i < |p| && E.JumpOk(p, i) && IsJump(p[i])
    ensures var b, t := LongImm.Pieces(p), Goto(p, p[i]);
      && t < |p| && |b[t]| == 1 && b[t][0].code == p[t].code
      && Goto(LongImm.CorrectedAll(p), b[i][|b[i]| - 1]) == Start(b, t)
  {
    PieceLast(p, i, 0);
    PieceLast(p, Goto(p, p[i]), 0);
    LongImm.JumpLands(p, i);
  }

  lemma PieceStaysOk(p: seq<Op>, k: nat)
    requires LongImm.ImmProgram(p) && k < |LongImm.CorrectedAll(p)|
    requires E.JumpOk(p, BlockAt(LongImm.Pieces(p), k))
    ensures E.JumpOk(LongImm.CorrectedAll(p), k)
  {
    var b, i := LongImm.Pieces(p), BlockAt(LongImm.Pieces(p), k);
    PieceLast(p, i, k - Start(b, i));
    if IsJump(LongImm.CorrectedAll(p)[k]) {
      PieceLeads(p, i);
      var t := Goto(p, p[i]);
      At(b, t, 0);
      if t < i { StartsApart(b, t, i); } else { StartsApart(b, i, t); }
    }
  }

  /** The last op of the piece of op j. */
  function PieceEnd(p: seq<Op>, j: nat): nat {
    var b := LongImm.Pieces(p);
    if j < |p| then Nonneg(Start(b, j) + |b[j]| - 1) else 0
  }

  /** Where the jump is that the PATCH at k belongs to. */
  ghost function PieceLink(p: seq<Op>, links: seq<nat>, k: nat): nat
    requires |links| == |p| && k < |LongImm.CorrectedAll(p)|
  {
    PieceEnd(p, links[BlockAt(LongImm.Pieces(p), k)])
  }

  ghost function PieceLinks(p: seq<Op>, links: seq<nat>): (r: seq<nat>)
    requires |links| == |p|
    ensures |r| == |LongImm.CorrectedAll(p)|
      && forall k: nat {:trigger r[k]} | k < |r| :: r[k] == PieceLink(p, links, k)
  {
    seq(|LongImm.CorrectedAll(p)|, k requires 0 <= k < |LongImm.CorrectedAll(p)| => PieceLink(p, links, k))
  }

  lemma PieceLinkHolds(p: seq<Op>, links: seq<nat>, k: nat)
    requires LongImm.ImmProgram(p) && E.Emittable(p, links) && k < |LongImm.CorrectedAll(p)|
      && LongImm.CorrectedAll(p)[k].code.PATCH?
    ensures PieceLink(p, links, k) < k && E.PatchOf(LongImm.CorrectedAll(p), k, PieceLink(p, links, k))
  {
    var b, i := LongImm.Pieces(p), BlockAt(LongImm.Pieces(p), k);
    PieceLast(p, i, k - Start(b, i));
    var j := links[i];
    assert E.PatchOf(p, i, j) && E.JumpOk(p, j);
    PieceLast(p, j, 0);
    PieceLeads(p, j);
    At(b, j, |b[j]| - 1);
    StartsApart(b, j, i);
  }

  lemma PieceLinkIsOnly(p: seq<Op>, links: seq<nat>, k: nat, l: nat)
    requires LongImm.ImmProgram(p) && E.Emittable(p, links) && k < |LongImm.CorrectedAll(p)|
      && l < |LongImm.CorrectedAll(p)|
    requires E.PatchOf(LongImm.CorrectedAll(p), k, l)
    ensures l == PieceLink(p, links, k)
  {
    var b := LongImm.Pieces(p);
    var i, j := BlockAt(b, k), BlockAt(b, l);
    PieceLast(p, i, k - Start(b, i));
    PieceLast(p, j, l - Start(b, j));
    assert E.JumpOk(p, j);
    PieceLeads(p, j);
    OnePlace(b, i, k - Start(b, i), Goto(p, p[j]), 0);
    assert E.PatchOf(p, i, j);
  }

  lemma PieceTargetsDistinct(p: seq<Op>)
    requires LongImm.ImmProgram(p)
    ensures DistinctTargets(LongImm.CorrectedAll(p))
  {
    var b, q := LongImm.Pieces(p), LongImm.CorrectedAll(p);
    forall k, l, id | 0 <= k < l < |q| ensures !(IsTarget(q[k], id) && IsTarget(q[l], id)) {
      var i, j := BlockAt(b, k), BlockAt(b, l);
      if IsTarget(q[k], id) && IsTarget(q[l], id) {
        PieceLast(p, i, k - Start(b, i));
        PieceLast(p, j, l - Start(b, j));
        OneTarget(p, i, j, id);
      }
    }
  }

  /** Moving long immediates out keeps a list fit for emission. */
  lemma CorrectedIsEmittable(p: seq<Op>, links: seq<nat>)
    requires LongImm.ImmProgram(p) && E.Emittable(p, links)
    ensures E.Emittable(LongImm.CorrectedAll(p), PieceLinks(p, links))
  {
    var q, r := LongImm.CorrectedAll(p), PieceLinks(p, links);
    PieceTargetsDistinct(p);
    forall k: nat | k < |q| ensures E.JumpOk(q, k) {
      assert E.JumpOk(p, BlockAt(LongImm.Pieces(p), k));
      PieceStaysOk(p, k);
    }
    forall k: nat {:trigger r[k]} | k < |q| && q[k].code.PATCH? ensures r[k] < k && E.PatchOf(q, k, r[k]) {
      PieceLinkHolds(p, links, k);
    }
    forall k: nat, l: nat | k < |q| && l < |q| && E.PatchOf(q, k, l) ensures l == r[k] {
      PieceLinkIsOnly(p, links, k, l);
    }
  }

  // ---------- the whole back end ----------

  lemma JumpsFind(p: seq<Op>, q: seq<Op>, id: nat)
    requires SameJumps(p, q)
    ensures Find(q, id) == Find(p, id)
  {
    forall i | 0 <= i < |p| ensures IsTarget(q[i], id) == IsTarget(p[i], id) {
      assert SameJump(p[i], q[i]);
    }
    SameTargets(p, q, id);
  }

  lemma JumpsOkToo(p: seq<Op>, q: seq<Op>, i: nat)
    requires SameJumps(p, q) && i < |p| && E.JumpOk(p, i)
    ensures E.JumpOk(q, i)
  {
    assert SameJump(p[i], q[i]);
    if IsJump(q[i]) {
      JumpsFind(p, q, p[i].jmp.value);
      assert SameJump(p[Goto(p, p[i])], q[Goto(p, p[i])]);
    }
  }

  lemma PatchesToo(p: seq<Op>, q: seq<Op>, k: nat, j: nat)
    requires SameJumps(p, q) && k < |p| && j < |p|
    ensures E.PatchOf(p, k, j) <==> E.PatchOf(q, k, j)
  {
    assert SameJump(p[k], q[k]) && SameJump(p[j], q[j]);
    if p[j].jmp.Some? { JumpsFind(p, q, p[j].jmp.value); }
  }

  /** Whatever keeps jumps and marks keeps a list fit for emission. */
  lemma JumpsEmittable(p: seq<Op>, q: seq<Op>, links: seq<nat>)
    requires SameJumps(p, q) && E.Emittable(p, links)
    ensures E.Emittable(q, links)
  {
    forall i, j, id | 0 <= i < j < |q| ensures !(IsTarget(q[i], id) && IsTarget(q[j], id)) {
      assert SameJump(p[i], q[i]) && SameJump(p[j], q[j]);
      assert !(IsTarget(p[i], id) && IsTarget(p[j], id));
    }
    forall i: nat | i < |q| ensures E.JumpOk(q, i) {
      assert E.JumpOk(p, i);
      JumpsOkToo(p, q, i);
    }
    forall k: nat {:trigger links[k]} | k < |q| && q[k].code.PATCH? ensures links[k] < k && E.PatchOf(q, k, links[k]) {
      assert SameJump(p[k], q[k]);
      PatchesToo(p, q, k, links[k]);
    }
    forall k: nat, j: nat | k < |q| && j < |q| && E.PatchOf(q, k, j) ensures j == links[k] {
      PatchesToo(p, q, k, j);
    }
  }

  // ---------- the back pointers ----------

  /** Every PATCH points to the op its link names. */
  ghost predicate Points(owners: map<nat, A.Owner>, q: seq<Op>, links: seq<nat>, k: nat)
    requires |links| == |q| && k < |q|
  {
    q[k].code.PATCH? ==> q[k].code.id in owners && owners[q[k].code.id] == A.OpOf(links[k])
  }

  ghost predicate AllPoint(owners: map<nat, A.Owner>, q: seq<Op>, links: seq<nat>) {
    |links| == |q| && forall k: nat {:trigger Points(owners, q, links, k)} | k < |q| :: Points(owners, q, links, k)
  }

  /** The first n PATCHes of the list, each pointing to where its link's op stands once the long
      immediates are out of it. */
  function OwnersOf(p: seq<Op>, links: seq<nat>, n: nat): map<nat, A.Owner>
    requires |links| == |p| && n <= |p|
  {
    if n == 0 then map[]
    else if p[n - 1].code.PATCH? && links[n - 1] < |p| then
      OwnersOf(p, links, n - 1)[p[n - 1].code.id := A.OpOf(PieceEnd(p, links[n - 1]))]
    else OwnersOf(p, links, n - 1)
  }

  lemma {:induction false} OwnersPoint(p: seq<Op>, links: seq<nat>, k: nat, n: nat)
    requires LongImm.ImmProgram(p) && E.Emittable(p, links) && k < n <= |p| && p[k].code.PATCH?
    ensures p[k].code.id in OwnersOf(p, links, n)
    ensures OwnersOf(p, links, n)[p[k].code.id] == A.OpOf(PieceEnd(p, links[k]))
  {
    assert links[k] < k;
    if k < n - 1 {
      OwnersPoint(p, links, k, n - 1);
      if p[n - 1].code.PATCH? && p[n - 1].code.id == p[k].code.id { OneTarget(p, k, n - 1, p[k].code.id); }
    }
  }

  lemma PiecesPoint(p: seq<Op>, links: seq<nat>)
    requires LongImm.ImmProgram(p) && E.Emittable(p, links)
    ensures AllPoint(OwnersOf(p, links, |p|), LongImm.CorrectedAll(p), PieceLinks(p, links))
  {
    var q, r := LongImm.CorrectedAll(p), PieceLinks(p, links);
    forall k: nat | k < |q| ensures Points(OwnersOf(p, links, |p|), q, r, k) {
      if q[k].code.PATCH? {
        var i := BlockAt(LongImm.Pieces(p), k);
        PieceLast(p, i, k - Start(LongImm.Pieces(p), i));
        OwnersPoint(p, links, i, |p|);
        assert r[k] == PieceLink(p, links, k);
      }
    }
  }

  lemma PointsToo(owners: map<nat, A.Owner>, p: seq<Op>, q: seq<Op>, links: seq<nat>)
    requires SameJumps(p, q) && AllPoint(owners, p, links)
    ensures AllPoint(owners, q, links)
  {
    forall k: nat | k < |q| ensures Points(owners, q, links, k) {
      assert SameJump(p[k], q[k]) && Points(owners, p, links, k);
    }
  }

  /** Who owns the PATCH at k once the first n branches are adjusted. */
  ghost function OwnerThen(x: Plan, links: seq<nat>, k: nat, n: nat): A.Owner
    requires x.Shaped() && |links| == |x.p| && k < |x.p| && n <= |x.p|
  {
    var j := links[k];
    if j < n && x.Splits(j) then A.JumpOf(j) else A.OpOf(j)
  }

  ghost function Owners(x: Plan, owners: map<nat, A.Owner>, n: nat): map<nat, A.Owner>
    requires x.Shaped() && n <= |x.p|
  {
    A.OwnersAfter(owners, x.p, x.a, x.ids, n)
  }

  /** An old PATCH belongs to the JMP of its jump if that is split. */
  lemma {:induction false} OldOwner(x: Plan, owners: map<nat, A.Owner>, links: seq<nat>, k: nat, n: nat)
    requires Made(x) && E.Emittable(x.p, links) && AllPoint(owners, x.p, links)
    requires k < |x.p| && x.p[k].code.PATCH? && n <= |x.p|
    ensures x.p[k].code.id in Owners(x, owners, n)
    ensures Owners(x, owners, n)[x.p[k].code.id] == OwnerThen(x, links, k, n)
  {
    assert links[k] < k && E.PatchOf(x.p, k, links[k]);
    if n == 0 {
      assert Points(owners, x.p, links, k);
    } else {
      OldOwner(x, owners, links, k, n - 1);
      if x.Splits(n - 1) {
        assert IsTarget(x.p[k], x.p[k].code.id);
        SplitOwner(x, links, k, n - 1);
      }
    }
  }

  /** A split branch goes to the PATCH at k exactly when k's link says so. */
  lemma SplitOwner(x: Plan, links: seq<nat>, k: nat, i: nat)
    requires Made(x) && E.Emittable(x.p, links) && k < |x.p| && x.p[k].code.PATCH? && i < |x.p| && x.Splits(i)
    ensures x.p[i].jmp.Some? && x.a[i].op.jmp == x.p[i].jmp
    ensures x.p[i].jmp == Some(x.p[k].code.id) <==> links[k] == i
    ensures links[k] == i ==> x.Target(i).code.PATCH?
  {
    AssignedFields(x, i);
    assert E.JumpOk(x.p, i) && links[k] < k && E.PatchOf(x.p, k, links[k]);
    var t := Goto(x.p, x.p[i]);
    AssignedFields(x, t);
    FindsFirst(x.p, x.p[i].jmp.value);
    FindsFirst(x.p, x.p[k].code.id);
    if x.p[i].jmp == Some(x.p[k].code.id) {
      OneTarget(x.p, t, k, x.p[k].code.id);
      assert E.PatchOf(x.p, k, i);
    }
  }

  /** A new PATCH belongs to the branch of its block. */
  lemma {:induction false} NewOwner(x: Plan, owners: map<nat, A.Owner>, links: seq<nat>, i: nat, n: nat)
    requires Made(x) && E.Emittable(x.p, links) && i < n <= |x.p| && x.Splits(i)
    ensures x.ids[i] in Owners(x, owners, n) && Owners(x, owners, n)[x.ids[i]] == A.OpOf(i)
  {
    AssignedFields(x, n - 1);
    assert E.JumpOk(x.p, n - 1);
    if i < n - 1 {
      NewOwner(x, owners, links, i, n - 1);
      if x.Splits(n - 1) {
        var t := Goto(x.p, x.p[n - 1]);
        FindsFirst(x.p, x.p[n - 1].jmp.value);
        assert !IsTarget(x.p[t], x.ids[i]);
      }
    }
  }
  // ---------- the back pointers as places in the list ----------

  lemma {:induction false} FirstJumpAt(b: seq<Op>, e: nat)
    requires e < |b| && IsJump(b[e]) && forall f | 0 <= f < e :: !IsJump(b[f])
    ensures A.FirstJump(b) == e
  {
    if e > 0 { FirstJumpAt(b[1..], e - 1); }
  }

  lemma {:induction false} LastJumpAt(b: seq<Op>, e: nat)
    requires e < |b| && IsJump(b[e]) && forall f | e < f < |b| :: !IsJump(b[f])
    ensures A.LastJump(b) == e
    decreases |b|
  {
    if e < |b| - 1 { LastJumpAt(b[..|b| - 1], e); }
  }

  lemma OpOfAt(x: Plan, i: nat)
    requires Made(x) && i < |x.p| && IsJump(x.p[i])
    ensures A.OwnerAt(x.bs, A.OpOf(i)) == Start(x.bs, i) + if x.Splits(i) then |x.a[i].moves| else MainAt(x, i)
  {
    MainIsJump(x, i);
    var e := if x.Splits(i) then |x.a[i].moves| else MainAt(x, i);
    assert x.bs[i] == x.Block(i);
    forall f | 0 <= f <= e ensures IsJump(x.bs[i][f]) <==> f == e {
      if IsJump(x.bs[i][f]) { BlockJumps(x, i, f); }
    }
    FirstJumpAt(x.bs[i], e);
  }

  lemma JumpOfAt(x: Plan, i: nat)
    requires Made(x) && i < |x.p| && IsJump(x.p[i]) && x.Splits(i)
    ensures A.OwnerAt(x.bs, A.JumpOf(i)) == Start(x.bs, i) + MainAt(x, i)
  {
    MainIsJump(x, i);
    var e := MainAt(x, i);
    assert x.bs[i] == x.Block(i);
    forall f | e <= f < |x.bs[i]| ensures IsJump(x.bs[i][f]) <==> f == e {
      if IsJump(x.bs[i][f]) { BlockJumps(x, i, f); }
    }
    LastJumpAt(x.bs[i], e);
  }

  /** The allocator's back pointer of a PATCH leads to the jump that the PATCH belongs to. */
  lemma PointerIsLink(x: Plan, owners: map<nat, A.Owner>, links: seq<nat>, k: nat)
    requires Made(x) && E.Emittable(x.p, links) && AllPoint(owners, x.p, links)
    requires k < |x.Output()| && x.Output()[k].code.PATCH?
    ensures A.BackPointers(x.bs, Owners(x, owners, |x.p|))[k] == Links(x, links)[k]
  {
    var i := BlockAt(x.bs, k);
    PatchPlaces(x, i, k - Start(x.bs, i));
    BlockMarks(x, i);
    if x.Splits(i) {
      NewOwner(x, owners, links, i, |x.p|);
      OpOfAt(x, i);
    } else {
      OldOwner(x, owners, links, i, |x.p|);
      var j := links[i];
      assert E.PatchOf(x.p, i, j);
      if x.Splits(j) { JumpOfAt(x, j); } else { OpOfAt(x, j); }
    }
    assert Links(x, links)[k] == Nonneg(LinkAt(x, links, i));
  }

  /** ... so the list can be emitted with the back pointers the allocator leaves. */
  lemma PointersEmittable(x: Plan, owners: map<nat, A.Owner>, links: seq<nat>)
    requires Made(x) && E.Emittable(x.p, links) && AllPoint(owners, x.p, links)
    ensures E.Emittable(x.Output(), A.BackPointers(x.bs, Owners(x, owners, |x.p|)))
  {
    var q, r, back := x.Output(), Links(x, links), A.BackPointers(x.bs, Owners(x, owners, |x.p|));
    AllocatedIsEmittable(x, links);
    forall k: nat | k < |q| && q[k].code.PATCH? ensures back[k] == r[k] {
      PointerIsLink(x, owners, links, k);
    }
    forall k: nat, j: nat | k < |q| && j < |q| && E.PatchOf(q, k, j) ensures j == back[k] {
      assert j == r[k];
    }
  }

  /** The buffer is full and holds the list's code. */
  ghost predicate Finished(e: E.Emitter)
    reads e, e.buf
  {
    e.ip == e.buf.Length && E.Encodes(e.enc, e.q, e.buf[..])
  }

  /** From the back pointers of the builder to those that the allocator leaves. */
  lemma BackIsEmittable(p: seq<Op>, links: seq<nat>, x: Plan)
    requires LongImm.ImmProgram(p) && E.Emittable(p, links) && MadeFor(x, LongImm.CorrectedAll(p))
    ensures E.Emittable(x.Output(), A.BackPointers(x.bs, Owners(x, OwnersOf(p, links, |p|), |x.p|)))
  {
    var owners := OwnersOf(p, links, |p|);
    CorrectedIsEmittable(p, links);
    PiecesPoint(p, links);
    JumpsEmittable(LongImm.CorrectedAll(p), x.p, PieceLinks(p, links));
    PointsToo(owners, LongImm.CorrectedAll(p), x.p, PieceLinks(p, links));
    PointersEmittable(x, owners, PieceLinks(p, links));
  }

  /** What follows from the allocator's promises for the machine with a frame and instructions. */
  lemma CompiledRuns(p: seq<Op>, gp: seq<HwReg>, starts: seq<nat>, x: Plan)
    requires LongImm.ImmProgram(p) && MadeFor(x, LongImm.CorrectedAll(p)) && Allocatable(x.p) && x.MadeWith(gp)
    requires ValidRegisters(gp)
    requires forall regs {:trigger BuiltOn(p, regs)} | BuiltOn(p, regs) :: MovesOnly(x.Output(), regs)
    ensures SameRuns(p, x.Output(), starts) ==> SameEverywhere(p, x.Output(), starts)
    ensures forall f {:trigger Fits(p, f)} | Fits(p, f) :: FrameSlots.SlotsApart(x.Output(), f)
    ensures HwIds(gp) && AllBuilt(p) ==> AllSelected(x.Output())
    ensures AllTame(p) ==> AllTame(x.Output())
  {
    AllOntoFrame(p, x.Output(), starts);
    if SameRuns(p, x.Output(), starts) { Everywhere(p, x.Output(), starts, x); }
    if HwIds(gp) && AllBuilt(p) { ArithIsSelected(p, x, gp); }
    if AllTame(p) { CodeIsTame(p, x); }
  }

  /** jit_generate_code from the list as built to the bytes: the allocated list returns what the
      program returns, on slots and, if the program mentions R and FR registers only, in the frame of
      its function; and the bytes' jumps are the list's jumps.  No bytes are made only where the
      buffer would reach 2 GiB, which a 32-bit displacement cannot cross. */
  method Compile(p: seq<Op>, gp: seq<HwReg>, nextId: nat, unused: bool, join: bool, enc: E.Encoder, links: seq<nat>)
    returns (code: seq<Op>, starts: seq<nat>, emitter: E.Emitter?, ghost x: Plan)
    requires LongImm.ImmProgram(p) && Compilable(LongImm.CorrectedAll(p)) && ValidRegisters(gp)
    requires Safe(LongImm.CorrectedAll(p), unused, join) && A.BelowId(LongImm.CorrectedAll(p), nextId)
    requires E.Emittable(p, links)
    ensures code == x.Output() && MadeFor(x, LongImm.CorrectedAll(p))
    ensures NoTests(p) ==> SameEverywhere(p, code, starts)
    ensures TestsMeet(x) ==> SameEverywhere(p, code, starts)
    ensures forall f {:trigger Fits(p, f)} | Fits(p, f) :: FrameSlots.SlotsApart(code, f)
    ensures HwIds(gp) && AllBuilt(p) ==> AllSelected(code)
    ensures AllTame(p) ==> AllTame(code)
    ensures emitter == null <==> E.Offset(enc, code, |code|) >= 0x8000_0000
    ensures emitter != null ==> emitter.q == code && emitter.enc == enc && Finished(emitter)
  {
    var owners, back := OwnersOf(p, links, |p|), [];
    code, starts, back, x := GenerateCode(p, gp, owners, nextId, unused, join);
    BackIsEmittable(p, links, x);
    CompiledRuns(p, gp, starts, x);
    if E.Offset(enc, code, |code|) >= 0x8000_0000 {
      return code, starts, null, x;
    }
    emitter := new E.Emitter(code, back, enc);
    emitter.GenerateCode();
  }
}
