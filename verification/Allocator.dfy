/** The three passes of jit_assign_regs.  The op list is kept in groups, one for each op of the
    program the allocator was given; the linked list of ops is their concatenation. */
module Allocator {
  import opened JitOps
  import opened Rmap
  import opened Layout
  import opened Hardware
  import opened RegAlloc
  import opened Allocation
  import Llrb

  /** The op that the arg[0] of a PATCH points to: op i of the program, or the JMP put behind it. */
  datatype Owner = OpOf(i: nat) | JumpOf(i: nat)

  /** `owners` holds the arg[0] of every PATCH, by the address of the PATCH. */
  class Allocator {
    const gp: seq<HwReg>
    const p: seq<Op>
    var groups: Blocks
    var owners: map<nat, Owner>
    var nextId: nat

    constructor (gp: seq<HwReg>, p: seq<Op>, owners: map<nat, Owner>, nextId: nat)
      ensures this.gp == gp && this.p == p && this.owners == owners && this.nextId == nextId
      ensures |groups| == |p| && forall i {:trigger groups[i]} | 0 <= i < |p| :: groups[i] == [p[i]]
    {
      this.gp, this.p, this.owners, this.nextId := gp, p, owners, nextId;
      groups := seq(|p|, i requires 0 <= i < |p| => [p[i]]);
    }

    /** jit_op_prepend: puts an op before the d-th op of group i. */
    method Prepend(i: nat, d: nat, op: Op)
      requires i < |groups| && d <= |groups[i]|
      modifies this`groups
      ensures groups == old(groups)[i := Insert(old(groups[i]), d, [op])]
    {
      groups := groups[i := groups[i][..d] + [op] + groups[i][d..]];
    }

    /** make_free_reg and associate_register: unloads a victim, associates and loads. */
    method Associate(i: nat, op: Op, ghost moves: seq<Op>, rm: RegMap, v: VReg) returns (rm': RegMap, h: HReg)
      requires i < |groups| == |p| && groups[i] == moves + [p[i]] && Llrb.Valid(rm)
      modifies this`groups
      ensures var (b, g) := RegAlloc.Associate(gp, op, Alloc(rm, moves), v);
        rm' == b.rm && h == g && groups == old(groups)[i := b.moves + [p[i]]]
    {
      var found := Llrb.Search(rm, v);
      Llrb.SearchFinds(rm, v);
      if found.Node? {
        assert groups == groups[i := moves + [p[i]]];
        return rm, found.value;
      }
      ghost var st := Alloc(rm, moves);
      ghost var freed := MakeFreeReg(gp, op, st, v).0.moves;
      var k := SpillCandidate(op, rm, v, gp, false);
      rm', h := rm, -1;
      if k >= 0 {
        h := gp[k].id;
        var victim := IsAssociated(rm, h);
        if victim.Some? {
          if victim.value in op.liveIn {
            Prepend(i, |groups[i]| - 1, MoveOp(UNLOAD, h, victim.value));
          }
          Llrb.DeleteCorrect(rm, victim.value);
          rm' := Llrb.Delete(rm, victim.value).0;
        }
      }
      assert groups[i] == freed + [p[i]];
      Llrb.InsertCorrect(rm', v, h);
      rm' := Llrb.Insert(rm', v, h);
      if v in op.liveIn {
        Prepend(i, |groups[i]| - 1, MoveOp(LOAD, h, v));
      }
      assert groups[i] == RegAlloc.Associate(gp, op, st, v).0.moves + [p[i]];
    }

    method AssignArg(i: nat, op: Op, ghost moves: seq<Op>, rm: RegMap, a: Arg) returns (rm': RegMap, h: HReg)
      requires i < |groups| == |p| && groups[i] == moves + [p[i]] && Llrb.Valid(rm)
      modifies this`groups
      ensures var (b, g) := RegAlloc.AssignArg(gp, op, Alloc(rm, moves), a);
        rm' == b.rm && h == g && groups == old(groups)[i := b.moves + [p[i]]]
    {
      rm', h := rm, -1;
      if a.Reg? || a.TReg? {
        rm', h := Associate(i, op, moves, rm, a.reg);
      }
    }

    /** assign_regs on op i, whose predecessor has been assigned. */
    method AssignRegs(i: nat)
      requires i < |groups| == |p| && groups[i] == [p[i]]
      requires i > 0 ==> groups[i - 1] != [] && Llrb.Valid(Last(groups[i - 1]).regmap)
      modifies this`groups
      ensures var prev := if i == 0 then Llrb.Leaf else Last(old(groups[i - 1])).regmap;
        var r := RegAlloc.AssignRegs(gp, p[i], prev);
        groups == old(groups)[i := r.moves + [r.op]]
    {
      var op := p[i];
      var prev := if i == 0 then Llrb.Leaf else Last(groups[i - 1]).regmap;
      Llrb.CloneCorrect(prev);
      ghost var s0 := Alloc(InitialMap(op, prev), []);
      var rm := InitialMap(op, prev);
      var h1, h2, h3;
      rm, h1 := AssignArg(i, op, [], rm, op.a1);
      ghost var s1 := RegAlloc.AssignArg(gp, op, s0, op.a1).0;
      rm, h2 := AssignArg(i, op, s1.moves, rm, op.a2);
      ghost var s2 := RegAlloc.AssignArg(gp, op, s1, op.a2).0;
      rm, h3 := AssignArg(i, op, s2.moves, rm, op.a3);
      groups := groups[i := groups[i][..|groups[i]| - 1] + [op.(regmap := rm, r1 := h1, r2 := h2, r3 := h3)]];
    }

    /** The first pass: every op in order. */
    method AssignPass() returns (ghost a: seq<Assigned>)
      requires |groups| == |p| && forall i {:trigger groups[i]} | 0 <= i < |p| :: groups[i] == [p[i]]
      modifies this`groups
      ensures |groups| == |p| == |a|
        && forall i {:trigger groups[i]} | 0 <= i < |p| :: groups[i] == a[i].moves + [a[i].op]
      ensures Made(gp, p, a)
    {
      a := [];
      for i := 0 to |p|
        invariant |groups| == |p| && |a| == i
        invariant forall k {:trigger groups[k]} | 0 <= k < i :: groups[k] == a[k].moves + [a[k].op]
        invariant forall k {:trigger groups[k]} | i <= k < |p| :: groups[k] == [p[k]]
        invariant Made(gp, p, a)
      {
        assert i > 0 ==> Last(groups[i - 1]) == a[i - 1].op;
        LastValid(gp, p, a);
        ghost var r := RegAlloc.AssignRegs(gp, p[i], PrevMap(a, i));
        MadeNext(gp, p, a, r);
        AssignRegs(i);
        a := a + [r];
      }
    }

    /** The second pass: branch_adjustment on every op. */
    method BranchPass(ghost a: seq<Assigned>) returns (ghost ids: seq<nat>)
      requires |groups| == |p| == |a| && WellFormed(p)
      requires forall i {:trigger groups[i]} | 0 <= i < |p| :: groups[i] == a[i].moves + [a[i].op]
      requires forall i | 0 <= i < |p| :: AllMoves(a[i].moves) && SameButRegs(a[i].op, p[i])
      modifies this
      ensures |groups| == |p| == |ids|
      ensures forall i {:trigger groups[i]} | 0 <= i < |p| ::
        groups[i] == a[i].moves + AdjustBranch(a[i].op, TargetOp(p, a, i), ids[i])
      ensures forall i | 0 <= i < |p| :: old(nextId) <= ids[i]
      ensures forall i, k {:trigger ids[i], ids[k]} |
        0 <= i < k < |p| && NeedsRepair(a[i].op, TargetOp(p, a, i)) :: ids[i] < ids[k]
      ensures owners == OwnersAfter(old(owners), p, a, ids, |p|)
    {
      ids := [];
      for i := 0 to |p|
        invariant |ids| == i && BranchesDone(groups, p, a, ids, i)
        invariant IdsGiven(p, a, ids, old(nextId), nextId) && owners == OwnersAfter(old(owners), p, a, ids, i)
      {
        OwnersNext(old(owners), p, a, ids, nextId);
        IdsNext(p, a, ids, old(nextId), nextId);
        BranchesNext(groups, p, a, ids, nextId);
        ids := ids + [nextId];
        AdjustBranchGroup(i, a, ids);
      }
    }

    method AdjustBranchGroup(i: nat, ghost a: seq<Assigned>, ghost ids: seq<nat>)
      requires i < |groups| == |p| == |a| && |ids| == i + 1 && ids[i] == nextId && WellFormed(p)
      requires forall k | 0 <= k < |p| :: AllMoves(a[k].moves) && SameButRegs(a[k].op, p[k])
      requires BranchesDone(groups, p, a, ids, i)
      modifies this
      ensures groups == old(groups)[i := a[i].moves + AdjustBranch(a[i].op, TargetOp(p, a, i), ids[i])]
      ensures nextId == old(nextId) + if NeedsRepair(a[i].op, TargetOp(p, a, i)) then 1 else 0
      ensures owners == OwnersThen(old(owners), a[i].op, TargetOp(p, a, i), i, ids[i])
    {
      ghost var moves, o, t := a[i].moves, a[i].op, TargetOp(p, a, i);
      var d := 0;
      while d < |groups[i]|
        invariant |groups| == |p| && d <= |groups[i]|
        invariant groups == old(groups)[i := groups[i]]
        invariant d <= |moves| ==> groups[i] == moves + [o] && nextId == ids[i] && owners == old(owners)
        invariant d > |moves| ==> groups[i] == moves + AdjustBranch(o, t, ids[i])
        invariant d > |moves| ==> owners == OwnersThen(old(owners), o, t, i, ids[i])
        invariant d > |moves| ==> nextId == ids[i] + if NeedsRepair(o, t) then 1 else 0
        decreases |moves| + 3 - d
      {
        var op := groups[i][d];
        assert d < |moves| ==> IsMove(moves[d]);
        if op.code.BRANCH? {
          assert WellFormedOp(p, p[i]);
          var target := Find(p, op.jmp.value);
          FindsFirst(p, p[i].jmp.value);
          var tgt := Last(groups[target]);
          if !Equal(op.regmap, tgt.regmap, tgt.liveIn, op.liveOut) {
            if tgt.code.PATCH? {
              owners := owners[op.jmp.value := JumpOf(i)];
            }
            groups := groups[i := groups[i][..d] + [Inverted(op, nextId), JumpOp(op), PatchOp(nextId)]
              + groups[i][d + 1..]];
            owners := owners[nextId := OpOf(i)];
            nextId := nextId + 1;
          }
        }
        d := d + 1;
      }
    }

    /** __sync: puts the moves of one direction before the d-th op of group i. */
    method Sync(i: nat, d: nat, current: RegMap, target: RegMap, mode: Mode, live: set<VReg>) returns (d': nat)
      requires i < |groups| && d <= |groups[i]|
      modifies this`groups
      ensures var ms := Rmap.Sync(current, target, mode, live);
        d' == d + |ms| && groups == old(groups)[i := Insert(old(groups[i]), d, ms)]
      decreases current
    {
      d' := d;
      ghost var g := groups[i];
      if current.Node? {
        ghost var here := [];
        if Moves(target, mode, live, current.key, current.value) {
          here := [MoveOp(mode, current.value, current.key)];
          Prepend(i, d, MoveOp(mode, current.value, current.key));
          d' := d + 1;
        }
        ghost var l, r := Rmap.Sync(current.left, target, mode, live), Rmap.Sync(current.right, target, mode, live);
        InsertNothing(g, d);
        d' := Sync(i, d', current.left, target, mode, live);
        InsertTwice(g, d, here, l);
        d' := Sync(i, d', current.right, target, mode, live);
        InsertTwice(g, d, here + l, r);
      } else {
        InsertNothing(g, d);
      }
    }

    /** The third pass: jump_adjustment on every op. */
    method JumpPass(ghost a: seq<Assigned>, ghost b: Blocks)
      requires |groups| == |p| == |a| == |b| && groups == b && WellFormed(p)
      requires forall i | 0 <= i < |p| :: JumpsLike(b[i], p[i])
      requires forall i, id | 0 <= i < |p| && IsTarget(p[i], id) :: SameButRegs(a[i].op, p[i]) && b[i] == [a[i].op]
      modifies this`groups
      ensures |groups| == |p|
        && forall i {:trigger groups[i]} | 0 <= i < |p| :: groups[i] == AdjustJumps(b[i], TargetOp(p, a, i))
    {
      for i := 0 to |p|
        invariant |groups| == |p|
        invariant forall k {:trigger groups[k]} | 0 <= k < i :: groups[k] == AdjustJumps(b[k], TargetOp(p, a, k))
        invariant forall k {:trigger groups[k]} | i <= k < |p| :: groups[k] == b[k]
      {
        if p[i].jmp.Some? {
          TargetKept(i, a, b);
          AdjustJumpGroup(i, Last(groups[Find(p, p[i].jmp.value)]));
        } else {
          AdjustJumpsAll(b[i], TargetOp(p, a, i));
        }
      }
    }

    /** jump_adjustment of the JMP at position d of group i. */
    method AdjustJumpAt(i: nat, d: nat, tgt: Op) returns (d': nat)
      requires i < |groups| && d < |groups[i]|
      modifies this`groups
      ensures var op := old(groups[i][d]);
        var ms := AdjustJump(op, tgt);
        groups == old(groups)[i := old(groups[i])[..d] + ms + old(groups[i])[d + 1..]] && d' == d + |ms|
    {
      var op := groups[i][d];
      ghost var g := groups[i];
      d' := d;
      if op.code.JMP? {
        d' := Sync(i, d, op.regmap, tgt.regmap, UNLOAD, tgt.liveIn);
        d' := Sync(i, d', tgt.regmap, op.regmap, LOAD, op.liveOut);
        InsertTwice(g, d, Rmap.Sync(op.regmap, tgt.regmap, UNLOAD, tgt.liveIn),
          Rmap.Sync(tgt.regmap, op.regmap, LOAD, op.liveOut));
      }
      InsertBefore(g, d, JumpMoves(op.regmap, tgt.regmap, tgt.liveIn, op.liveOut));
      d' := d' + 1;
    }

    /** jump_adjustment on the ops of group i, whose jumps all go to tgt. */
    method AdjustJumpGroup(i: nat, tgt: Op)
      requires i < |groups|
      modifies this`groups
      ensures groups == old(groups)[i := AdjustJumps(old(groups[i]), tgt)]
    {
      ghost var g, e := groups[i], 0;
      var d := 0;
      assert AdjustJumps(g[..0], tgt) + g[0..] == g;
      while d < |groups[i]|
        invariant |groups| == |old(groups)| && e <= |g|
        invariant groups == old(groups)[i := AdjustJumps(g[..e], tgt) + g[e..]]
        invariant d == |AdjustJumps(g[..e], tgt)|
        decreases |g| - e
      {
        AdjustJumpsNext(g, e, tgt);
        d := AdjustJumpAt(i, d, tgt);
        e := e + 1;
        assert groups[i] == AdjustJumps(g[..e], tgt) + g[e..];
      }
      assert g[..e] == g && g[e..] == [];
      assert groups[i] == AdjustJumps(g, tgt);
    }

    /** The group of a jump's target holds just the target op, before and after its own turn. */
    lemma TargetKept(i: nat, a: seq<Assigned>, b: Blocks)
      requires i < |groups| == |p| == |a| == |b| && WellFormed(p) && p[i].jmp.Some?
      requires forall k, id | 0 <= k < |p| && IsTarget(p[k], id) :: SameButRegs(a[k].op, p[k]) && b[k] == [a[k].op]
      requires forall k {:trigger groups[k]} | 0 <= k < i :: groups[k] == AdjustJumps(b[k], TargetOp(p, a, k))
      requires forall k {:trigger groups[k]} | i < k < |p| :: groups[k] == b[k]
      ensures var t := Find(p, p[i].jmp.value); t < |groups| && groups[t] == [TargetOp(p, a, i)]
    {
      var t := Find(p, p[i].jmp.value);
      assert WellFormedOp(p, p[i]);
      FindsFirst(p, p[i].jmp.value);
      AdjustJumpsAll([a[t].op], TargetOp(p, a, t));
    }

    /** The second and third pass on what the first one left. */
    method Adjust(ghost a: seq<Assigned>) returns (ghost ids: seq<nat>, ghost b: Blocks)
      requires |groups| == |p| == |a| && WellFormed(p)
      requires forall i {:trigger groups[i]} | 0 <= i < |p| :: groups[i] == a[i].moves + [a[i].op]
      requires forall i | 0 <= i < |p| :: AllMoves(a[i].moves) && SameButRegs(a[i].op, p[i])
      requires forall i, id | 0 <= i < |p| && IsTarget(p[i], id) :: a[i].moves == []
      modifies this
      ensures |groups| == |p| == |ids| == |b|
      ensures forall i {:trigger b[i]} | 0 <= i < |p| ::
        b[i] == a[i].moves + AdjustBranch(a[i].op, TargetOp(p, a, i), ids[i])
      ensures forall i {:trigger groups[i]} | 0 <= i < |p| :: groups[i] == AdjustJumps(b[i], TargetOp(p, a, i))
      ensures forall i | 0 <= i < |p| :: old(nextId) <= ids[i]
      ensures forall i, k {:trigger ids[i], ids[k]} |
        0 <= i < k < |p| && NeedsRepair(a[i].op, TargetOp(p, a, i)) :: ids[i] < ids[k]
      ensures owners == OwnersAfter(old(owners), p, a, ids, |p|)
    {
      ids := BranchPass(a);
      b := groups;
      GroupShapes(p, a, ids, b);
      JumpPass(a, b);
    }

    /** jit_assign_regs: the list it leaves is the output of a plan fit for the simulation. */
    method AssignAll() returns (ghost x: Plan)
      requires |groups| == |p| && (forall i {:trigger groups[i]} | 0 <= i < |p| :: groups[i] == [p[i]])
      requires ValidRegisters(gp) && Allocatable(p) && BelowId(p, nextId)
      modifies this
      ensures x.p == p && x.bs == groups && x.Shaped()
      ensures x.MadeWith(gp) && x.Assigned() && x.Built() && x.FreshIds()
      ensures owners == OwnersAfter(old(owners), p, x.a, x.ids, |p|)
    {
      ghost var base := nextId;
      ghost var a := AssignPass();
      AssignedFieldsAll(gp, p, a);
      ghost var ids, b := Adjust(a);
      x := Plan(p, a, ids, groups);
      PlanIsReady(x, gp, b, base);
    }
  }

  /** Where in a block the first and the last op with a jump address is. */
  function FirstJump(b: seq<Op>): nat {
    if b == [] || IsJump(b[0]) then 0 else 1 + FirstJump(b[1..])
  }

  function LastJump(b: seq<Op>): nat {
    if b == [] then 0
    else if IsJump(b[|b| - 1]) then |b| - 1 else LastJump(b[..|b| - 1])
  }

  function OwnerAt(bs: Blocks, o: Owner): nat {
    if o.i >= |bs| then 0
    else Start(bs, o.i) + if o.OpOf? then FirstJump(bs[o.i]) else LastJump(bs[o.i])
  }

  /** The arg[0] of every PATCH, as a place in the list. */
  function BackPointers(bs: Blocks, owners: map<nat, Owner>): seq<nat> {
    var q := Concat(bs);
    seq(|q|, k requires 0 <= k < |q| =>
      if q[k].code.PATCH? && q[k].code.id in owners then OwnerAt(bs, owners[q[k].code.id]) else 0)
  }

  ghost predicate BelowId(p: seq<Op>, base: nat) {
    forall i: nat, id: nat | i < |p| && IsTarget(p[i], id) :: id < base
  }

  function Last(s: seq<Op>): Op
    requires s != []
  {
    s[|s| - 1]
  }

  function Insert(s: seq<Op>, d: nat, x: seq<Op>): seq<Op>
    requires d <= |s|
  {
    s[..d] + x + s[d..]
  }

  lemma InsertNothing(s: seq<Op>, d: nat)
    requires d <= |s|
    ensures Insert(s, d, []) == s
  {
  }

  lemma InsertTwice(s: seq<Op>, d: nat, x: seq<Op>, y: seq<Op>)
    requires d <= |s|
    ensures Insert(Insert(s, d, x), d + |x|, y) == Insert(s, d, x + y)
  {
  }

  lemma InsertBefore(s: seq<Op>, d: nat, x: seq<Op>)
    requires d < |s|
    ensures Insert(s, d, x) == s[..d] + (x + [s[d]]) + s[d + 1..]
    ensures s == s[..d] + [s[d]] + s[d + 1..]
  {
  }

  lemma AdjustJumpsNext(ops: seq<Op>, e: nat, target: Op)
    requires e < |ops|
    ensures var done, g := AdjustJumps(ops[..e], target), AdjustJumps(ops[..e], target) + ops[e..];
      && |done| < |g| && g[|done|] == ops[e]
      && g[..|done|] + AdjustJump(ops[e], target) + g[|done| + 1..] == AdjustJumps(ops[..e + 1], target) + ops[e + 1..]
      && AdjustJumps(ops[..e + 1], target) == done + AdjustJump(ops[e], target)
  {
    assert ops[..e + 1] == ops[..e] + [ops[e]];
    AdjustJumpsSnoc(ops[..e], ops[e], target);
  }

  /** jump_adjustment on a stretch of ops whose jumps share a target. */
  ghost function AdjustJumps(ops: seq<Op>, target: Op): seq<Op> {
    if ops == [] then []
    else AdjustJumps(ops[..|ops| - 1], target) + AdjustJump(ops[|ops| - 1], target)
  }

  lemma AdjustJumpsSnoc(ops: seq<Op>, op: Op, target: Op)
    ensures AdjustJumps(ops + [op], target) == AdjustJumps(ops, target) + AdjustJump(op, target)
  {
    assert (ops + [op])[..|ops|] == ops;
  }

  lemma {:induction false} AdjustJumpsAll(ops: seq<Op>, target: Op)
    requires forall i | 0 <= i < |ops| :: !ops[i].code.JMP?
    ensures AdjustJumps(ops, target) == ops
  {
    if ops != [] {
      AdjustJumpsAll(ops[..|ops| - 1], target);
      assert ops == ops[..|ops| - 1] + [ops[|ops| - 1]];
    }
  }

  /** Every JMP among the ops goes where the program's op goes. */
  ghost predicate JumpsLike(ops: seq<Op>, op: Op) {
    forall e | 0 <= e < |ops| && ops[e].code.JMP? :: op.jmp.Some? && ops[e].jmp == op.jmp
  }

  ghost function PrevMap(a: seq<Assigned>, i: nat): RegMap
    requires i <= |a|
  {
    if i == 0 then Llrb.Leaf else a[i - 1].op.regmap
  }

  /** Each op so far was assigned its registers starting from its predecessor's map. */
  ghost predicate Made(gp: seq<HwReg>, p: seq<Op>, a: seq<Assigned>) {
    |a| <= |p| && forall i {:trigger PrevMap(a, i)} | 0 <= i < |a| ::
      Llrb.Valid(PrevMap(a, i)) && a[i] == RegAlloc.AssignRegs(gp, p[i], PrevMap(a, i))
  }

  lemma LastValid(gp: seq<HwReg>, p: seq<Op>, a: seq<Assigned>)
    requires Made(gp, p, a)
    ensures Llrb.Valid(PrevMap(a, |a|))
  {
    if |a| > 0 {
      var i := |a| - 1;
      assert a[i] == RegAlloc.AssignRegs(gp, p[i], PrevMap(a, i));
    }
  }

  lemma MadeNext(gp: seq<HwReg>, p: seq<Op>, a: seq<Assigned>, r: Assigned)
    requires Made(gp, p, a) && |a| < |p| && Llrb.Valid(PrevMap(a, |a|))
    requires r == RegAlloc.AssignRegs(gp, p[|a|], PrevMap(a, |a|))
    ensures Made(gp, p, a + [r])
  {
    var b := a + [r];
    forall i | 0 <= i < |b|
      ensures Llrb.Valid(PrevMap(b, i)) && b[i] == RegAlloc.AssignRegs(gp, p[i], PrevMap(b, i))
    {
      assert PrevMap(b, i) == PrevMap(a, i);
    }
  }

  ghost function TargetOp(p: seq<Op>, a: seq<Assigned>, i: nat): Op
    requires i < |p| == |a|
  {
    if Goto(p, p[i]) < |p| then a[Goto(p, p[i])].op else p[i]
  }

  /** The branches of the first n groups are adjusted. */
  ghost predicate BranchesDone(groups: Blocks, p: seq<Op>, a: seq<Assigned>, ids: seq<nat>, n: nat) {
    && |groups| == |p| == |a| && n <= |ids| && n <= |p|
    && (forall k {:trigger groups[k]} | 0 <= k < n ::
          groups[k] == a[k].moves + AdjustBranch(a[k].op, TargetOp(p, a, k), ids[k]))
    && (forall k {:trigger groups[k]} | n <= k < |p| :: groups[k] == a[k].moves + [a[k].op])
  }

  lemma {:induction false} BranchesNext(groups: Blocks, p: seq<Op>, a: seq<Assigned>, ids: seq<nat>, id: nat)
    requires |ids| < |p| && BranchesDone(groups, p, a, ids, |ids|)
    ensures var i := |ids|;
      && BranchesDone(groups, p, a, ids + [id], i)
      && BranchesDone(groups[i := a[i].moves + AdjustBranch(a[i].op, TargetOp(p, a, i), id)], p, a, ids + [id], i + 1)
  {
  }

  /** Each split op so far has taken an address of its own, from `base` on and below `next`. */
  ghost predicate IdsGiven(p: seq<Op>, a: seq<Assigned>, ids: seq<nat>, base: nat, next: nat)
    requires |ids| <= |p| == |a|
  {
    && base <= next
    && (forall k | 0 <= k < |ids| :: base <= ids[k] <= next)
    && (forall k {:trigger ids[k]} | 0 <= k < |ids| && NeedsRepair(a[k].op, TargetOp(p, a, k)) :: ids[k] < next)
    && (forall k, m {:trigger ids[k], ids[m]} |
          0 <= k < m < |ids| && NeedsRepair(a[k].op, TargetOp(p, a, k)) :: ids[k] < ids[m])
  }

  lemma IdsNext(p: seq<Op>, a: seq<Assigned>, ids: seq<nat>, base: nat, next: nat)
    requires |ids| < |p| == |a| && IdsGiven(p, a, ids, base, next)
    ensures IdsGiven(p, a, ids + [next], base,
      next + if NeedsRepair(a[|ids|].op, TargetOp(p, a, |ids|)) then 1 else 0)
  {
  }

  /** What branch_adjustment does to the back pointers: the PATCH a split branch went to now belongs
      to the new JMP, and the new PATCH to the branch. */
  ghost function OwnersThen(owners: map<nat, Owner>, op: Op, target: Op, i: nat, id: nat): map<nat, Owner> {
    if NeedsRepair(op, target) && op.jmp.Some? then
      (if target.code.PATCH? then owners[op.jmp.value := JumpOf(i)] else owners)[id := OpOf(i)]
    else owners
  }

  /** ... on the first n ops. */
  ghost function OwnersAfter(owners: map<nat, Owner>, p: seq<Op>, a: seq<Assigned>, ids: seq<nat>, n: nat)
      : map<nat, Owner>
    requires |p| == |a| && n <= |ids| && n <= |p|
  {
    if n == 0 then owners
    else OwnersThen(OwnersAfter(owners, p, a, ids, n - 1), a[n - 1].op, TargetOp(p, a, n - 1), n - 1, ids[n - 1])
  }

  lemma {:induction false} OwnersSame(owners: map<nat, Owner>, p: seq<Op>, a: seq<Assigned>, ids: seq<nat>, id: nat,
      n: nat)
    requires |p| == |a| && n <= |ids| && n <= |p|
    ensures OwnersAfter(owners, p, a, ids + [id], n) == OwnersAfter(owners, p, a, ids, n)
  {
    if n > 0 { OwnersSame(owners, p, a, ids, id, n - 1); }
  }

  lemma OwnersNext(owners: map<nat, Owner>, p: seq<Op>, a: seq<Assigned>, ids: seq<nat>, id: nat)
    requires |ids| < |p| == |a|
    ensures var i := |ids|;
      OwnersAfter(owners, p, a, ids + [id], i + 1)
      == OwnersThen(OwnersAfter(owners, p, a, ids, i), a[i].op, TargetOp(p, a, i), i, id)
  {
    OwnersSame(owners, p, a, ids, id, |ids|);
  }

  lemma PlanMade(x: Plan, gp: seq<HwReg>)
    requires x.Shaped() && Made(gp, x.p, x.a)
    ensures x.MadeWith(gp)
  {
    forall i | 0 <= i < |x.p|
      ensures Llrb.Valid(x.Prev(i)) && x.a[i] == RegAlloc.AssignRegs(gp, x.p[i], x.Prev(i))
    {
      assert PrevMap(x.a, i) == x.Prev(i);
    }
  }

  /** What the later passes need to know of the first. */
  lemma AssignedFieldsAll(gp: seq<HwReg>, p: seq<Op>, a: seq<Assigned>)
    requires ValidRegisters(gp) && Allocatable(p) && Made(gp, p, a) && |a| == |p|
    ensures forall i | 0 <= i < |p| :: AllMoves(a[i].moves) && SameButRegs(a[i].op, p[i])
    ensures forall i, id | 0 <= i < |p| && IsTarget(p[i], id) :: a[i].moves == []
  {
    var x := Plan(p, a, seq(|p|, _ => 0), seq(|p|, _ => []));
    PlanMade(x, gp);
    AssignedOk(x, gp);
    forall i | 0 <= i < |p|
      ensures AllMoves(a[i].moves) && SameButRegs(a[i].op, p[i])
      ensures forall id | IsTarget(p[i], id) :: a[i].moves == []
    {
      AssignedFields(x, i);
    }
  }

  lemma GroupShape(p: seq<Op>, a: seq<Assigned>, i: nat, id: nat)
    requires i < |p| == |a| && AllMoves(a[i].moves) && SameButRegs(a[i].op, p[i]) && WellFormed(p)
    requires forall k | IsTarget(p[i], k) :: a[i].moves == []
    ensures var b := a[i].moves + AdjustBranch(a[i].op, TargetOp(p, a, i), id);
      JumpsLike(b, p[i]) && (forall k | IsTarget(p[i], k) :: b == [a[i].op])
  {
    assert WellFormedOp(p, p[i]);
    var b := a[i].moves + AdjustBranch(a[i].op, TargetOp(p, a, i), id);
    forall e | 0 <= e < |b| && b[e].code.JMP?
      ensures p[i].jmp.Some? && b[e].jmp == p[i].jmp
    {
      assert e < |a[i].moves| ==> IsMove(a[i].moves[e]);
    }
  }

  lemma GroupShapes(p: seq<Op>, a: seq<Assigned>, ids: seq<nat>, b: Blocks)
    requires |p| == |a| == |ids| == |b| && WellFormed(p)
    requires forall i | 0 <= i < |p| :: AllMoves(a[i].moves) && SameButRegs(a[i].op, p[i])
    requires forall i, id | 0 <= i < |p| && IsTarget(p[i], id) :: a[i].moves == []
    requires forall i {:trigger b[i]} | 0 <= i < |p| ::
      b[i] == a[i].moves + AdjustBranch(a[i].op, TargetOp(p, a, i), ids[i])
    ensures forall i | 0 <= i < |p| :: JumpsLike(b[i], p[i])
    ensures forall i, id | 0 <= i < |p| && IsTarget(p[i], id) :: b[i] == [a[i].op]
  {
    forall i | 0 <= i < |p|
      ensures JumpsLike(b[i], p[i]) && (forall id | IsTarget(p[i], id) :: b[i] == [a[i].op])
    {
      GroupShape(p, a, i, ids[i]);
    }
  }

  lemma {:induction false} AdjustJumpsConcat(x: seq<Op>, y: seq<Op>, target: Op)
    ensures AdjustJumps(x + y, target) == AdjustJumps(x, target) + AdjustJumps(y, target)
  {
    if y == [] {
      assert x + y == x;
    } else {
      var z := y[..|y| - 1];
      assert x + y == (x + z) + [y[|y| - 1]] && y == z + [y[|y| - 1]];
      AdjustJumpsSnoc(x + z, y[|y| - 1], target);
      AdjustJumpsConcat(x, z, target);
    }
  }

  lemma AdjustJumpsOne(op: Op, target: Op)
    ensures AdjustJumps([op], target) == AdjustJump(op, target)
  {
    AdjustJumpsSnoc([], op, target);
    assert [] + [op] == [op];
  }

  /** The three passes together make the block of the plan. */
  lemma GroupIsBlock(x: Plan, i: nat)
    requires x.Shaped() && i < |x.p| && AllMoves(x.a[i].moves)
    ensures AdjustJumps(x.a[i].moves + AdjustBranch(x.a[i].op, x.Target(i), x.ids[i]), x.Target(i)) == x.Block(i)
  {
    var o, t, id := x.a[i].op, x.Target(i), x.ids[i];
    AdjustJumpsConcat(x.a[i].moves, AdjustBranch(o, t, id), t);
    AdjustJumpsAll(x.a[i].moves, t);
    if NeedsRepair(o, t) {
      var u, v, w := Inverted(o, id), JumpOp(o), PatchOp(id);
      assert AdjustBranch(o, t, id) == ([u] + [v]) + [w];
      AdjustJumpsConcat([u] + [v], [w], t);
      AdjustJumpsConcat([u], [v], t);
      AdjustJumpsOne(u, t);
      AdjustJumpsOne(v, t);
      AdjustJumpsOne(w, t);
    } else {
      AdjustJumpsOne(o, t);
    }
  }

  lemma GroupsAreBlocks(x: Plan, b: Blocks)
    requires x.Shaped() && |b| == |x.p|
    requires forall i | 0 <= i < |x.p| :: AllMoves(x.a[i].moves)
    requires forall i {:trigger b[i]} | 0 <= i < |x.p| ::
      b[i] == x.a[i].moves + AdjustBranch(x.a[i].op, TargetOp(x.p, x.a, i), x.ids[i])
    requires forall i {:trigger x.bs[i]} | 0 <= i < |x.p| :: x.bs[i] == AdjustJumps(b[i], TargetOp(x.p, x.a, i))
    ensures x.Built()
  {
    forall i | 0 <= i < |x.p| ensures x.bs[i] == x.Block(i) {
      GroupIsBlock(x, i);
    }
  }

  lemma PlanIsReady(x: Plan, gp: seq<HwReg>, b: Blocks, base: nat)
    requires ValidRegisters(gp) && Allocatable(x.p) && x.Shaped() && |b| == |x.p| && Made(gp, x.p, x.a)
    requires forall i | 0 <= i < |x.p| :: AllMoves(x.a[i].moves)
    requires forall i {:trigger b[i]} | 0 <= i < |x.p| ::
      b[i] == x.a[i].moves + AdjustBranch(x.a[i].op, TargetOp(x.p, x.a, i), x.ids[i])
    requires forall i {:trigger x.bs[i]} | 0 <= i < |x.p| :: x.bs[i] == AdjustJumps(b[i], TargetOp(x.p, x.a, i))
    requires BelowId(x.p, base) && forall i | 0 <= i < |x.p| :: base <= x.ids[i]
    requires forall i, k {:trigger x.ids[i], x.ids[k]} |
      0 <= i < k < |x.p| && NeedsRepair(x.a[i].op, TargetOp(x.p, x.a, i)) ::
      x.ids[i] < x.ids[k]
    ensures x.MadeWith(gp) && x.Assigned() && x.Built() && x.FreshIds()
  {
    GroupsAreBlocks(x, b);
    PlanMade(x, gp);
    AssignedOk(x, gp);
  }
}
