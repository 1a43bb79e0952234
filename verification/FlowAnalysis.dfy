/** Liveness by chaotic iteration (flow-analysis.h): the passes stop, and what they leave is
    exactly the registers that some path still reads. */
module FlowAnalysis {
  import opened JitOps
  import opened JitSet

  type Lives = seq<Liveness>

  // ---------- the reference: liveness by paths ----------

  /** A path from i to a use of r with no definition of r before the use. */
  ghost predicate LivePath(p: seq<Op>, r: VReg, i: nat, path: seq<nat>)
    decreases |path|
  {
    && |path| > 0 && path[0] == i && i < |p|
    && if |path| == 1 then r in Uses(p[i])
       else r !in Defs(p[i]) && Follows(p, i, path[1]) && LivePath(p, r, path[1], path[1..])
  }

  ghost predicate ReachesUse(p: seq<Op>, r: VReg, i: nat) {
    exists path :: LivePath(p, r, i, path)
  }

  ghost predicate ReachesUseAfter(p: seq<Op>, r: VReg, i: nat) {
    exists j: nat :: Follows(p, i, j) && ReachesUse(p, r, j)
  }

  lemma UseReached(p: seq<Op>, r: VReg, i: nat)
    requires i < |p| && r in Uses(p[i])
    ensures ReachesUse(p, r, i)
  {
    assert LivePath(p, r, i, [i]);
  }

  lemma StepBack(p: seq<Op>, r: VReg, i: nat)
    requires i < |p| && r !in Defs(p[i]) && ReachesUseAfter(p, r, i)
    ensures ReachesUse(p, r, i)
  {
    var j: nat :| Follows(p, i, j) && ReachesUse(p, r, j);
    var path :| LivePath(p, r, j, path);
    assert ([i] + path)[1..] == path;
    assert LivePath(p, r, i, [i] + path);
  }

  // ---------- one op ----------

  function InOf(op: Op, out: set<VReg>): set<VReg> {
    out - Defs(op) + Uses(op)
  }

  function IntoAt(l: Lives, k: nat): set<VReg> {
    if k < |l| then l[k].into else {}
  }

  function OutOf(p: seq<Op>, l: Lives, i: nat): set<VReg>
    requires i < |p|
  {
    if p[i].code.RET? then {}
    else if p[i].code.JMP? then IntoAt(l, Goto(p, p[i]))
    else IntoAt(l, i + 1) + if p[i].jmp.Some? then IntoAt(l, Goto(p, p[i])) else {}
  }

  /** What one visit of op i makes of the live sets: `live_in` from the old `live_out`, then
      `live_out` from the `live_in` of what follows. */
  function Visited(p: seq<Op>, l: Lives, i: nat): Lives
    requires i < |p| == |l|
  {
    var m := l[i := Liveness(InOf(p[i], l[i].out), l[i].out)];
    m[i := Liveness(m[i].into, OutOf(p, m, i))]
  }

  function WithLive(p: seq<Op>, l: Lives): seq<Op>
    requires |l| == |p|
  {
    seq(|p|, i requires 0 <= i < |p| => p[i].(liveIn := l[i].into, liveOut := l[i].out))
  }

  lemma FollowsOut(p: seq<Op>, l: Lives, i: nat, r: VReg)
    requires WellFormed(p) && i < |p| == |l|
    ensures r in OutOf(p, l, i) <==> exists j: nat :: Follows(p, i, j) && r in l[j].into
  {
    assert WellFormedOp(p, p[i]);
    if r in OutOf(p, l, i) {
      var j: nat := if !p[i].code.JMP? && r in IntoAt(l, i + 1) then i + 1 else Goto(p, p[i]);
      assert Follows(p, i, j) && r in l[j].into;
    }
    if j: nat :| Follows(p, i, j) && r in l[j].into {
      assert IntoAt(l, j) == l[j].into;
    }
  }

  // ---------- what every visit keeps ----------

  /** No set holds a register that no path reads. */
  ghost predicate Sound(p: seq<Op>, l: Lives) {
    && |l| == |p|
    && (forall i: nat, r: VReg {:trigger r in l[i].into} | i < |p| && r in l[i].into :: ReachesUse(p, r, i))
    && (forall i: nat, r: VReg {:trigger r in l[i].out} | i < |p| && r in l[i].out :: ReachesUseAfter(p, r, i))
  }

  /** The sets are still below what the equations ask for, so a visit only lets them grow. */
  ghost predicate Growing(p: seq<Op>, l: Lives) {
    && |l| == |p|
    && forall i: nat {:trigger l[i]} | i < |p| :: l[i].into <= InOf(p[i], l[i].out) && l[i].out <= OutOf(p, l, i)
  }

  ghost predicate Below(l: Lives, m: Lives) {
    && |l| == |m|
    && forall i: nat {:trigger l[i]} {:trigger m[i]} | i < |l| :: l[i].into <= m[i].into && l[i].out <= m[i].out
  }

  lemma OutOfMonotone(p: seq<Op>, l: Lives, m: Lives, i: nat)
    requires i < |p| && Below(l, m)
    ensures OutOf(p, l, i) <= OutOf(p, m, i)
  {
    forall k: nat ensures IntoAt(l, k) <= IntoAt(m, k) {
      if k < |l| { assert l[k].into <= m[k].into; }
    }
  }

  lemma VisitGrows(p: seq<Op>, l: Lives, i: nat)
    requires Growing(p, l) && i < |p|
    ensures Growing(p, Visited(p, l, i)) && Below(l, Visited(p, l, i))
  {
    var m := l[i := Liveness(InOf(p[i], l[i].out), l[i].out)];
    var n := Visited(p, l, i);
    assert Below(l, m);
    OutOfMonotone(p, l, m, i);
    assert Below(m, n);
    assert n[i].into == m[i].into;
    forall k: nat | k < |p| ensures n[k].into <= InOf(p[k], n[k].out) && n[k].out <= OutOf(p, n, k) {
      OutOfMonotone(p, l, m, k);
      OutOfMonotone(p, m, n, k);
    }
  }

  lemma VisitSound(p: seq<Op>, l: Lives, i: nat)
    requires WellFormed(p) && Sound(p, l) && i < |p|
    ensures Sound(p, Visited(p, l, i))
  {
    var m := l[i := Liveness(InOf(p[i], l[i].out), l[i].out)];
    var n := Visited(p, l, i);
    forall r | r in m[i].into ensures ReachesUse(p, r, i) {
      if r in Uses(p[i]) { UseReached(p, r, i); } else { StepBack(p, r, i); }
    }
    assert Sound(p, m);
    forall r | r in n[i].out ensures ReachesUseAfter(p, r, i) {
      FollowsOut(p, m, i, r);
      var j: nat :| Follows(p, i, j) && r in m[j].into;
      assert ReachesUse(p, r, j);
    }
  }

  // ---------- termination ----------

  /** How much the sets can still grow inside u. */
  ghost function Room(u: set<VReg>, l: Lives): int {
    if l == [] then 0 else 2 * |u| - |l[0].into| - |l[0].out| + Room(u, l[1..])
  }

  ghost predicate Inside(u: set<VReg>, l: Lives) {
    forall i: nat {:trigger l[i]} | i < |l| :: l[i].into <= u && l[i].out <= u
  }

  lemma SubsetSize(a: set<VReg>, b: set<VReg>)
    requires a <= b
    ensures |a| <= |b| && (a != b ==> |a| < |b|)
  {
    assert b == a + (b - a);
    if a != b {
      assert b - a != {};
    }
  }

  lemma {:induction false} RoomShrinks(u: set<VReg>, l: Lives, m: Lives)
    requires Below(l, m) && Inside(u, m)
    ensures 0 <= Room(u, m) <= Room(u, l) && (l != m ==> Room(u, m) < Room(u, l))
  {
    if l != [] {
      SubsetSize(l[0].into, m[0].into);
      SubsetSize(l[0].out, m[0].out);
      SubsetSize(m[0].into, u);
      SubsetSize(m[0].out, u);
      RoomShrinks(u, l[1..], m[1..]);
      assert l[1..] == m[1..] && l[0] == m[0] ==> l == m by {
        assert l == [l[0]] + l[1..] && m == [m[0]] + m[1..];
      }
    }
  }

  ghost function AllUses(p: seq<Op>): set<VReg> {
    if p == [] then {} else Uses(p[0]) + AllUses(p[1..])
  }

  lemma {:induction false} AllUsesHas(p: seq<Op>, i: nat)
    requires i < |p|
    ensures Uses(p[i]) <= AllUses(p)
  {
    if i > 0 { AllUsesHas(p[1..], i - 1); }
  }

  lemma {:induction false} VisitInside(p: seq<Op>, l: Lives, i: nat)
    requires |l| == |p| && Inside(AllUses(p), l) && i < |p|
    ensures Inside(AllUses(p), Visited(p, l, i))
  {
    AllUsesHas(p, i);
    var m := l[i := Liveness(InOf(p[i], l[i].out), l[i].out)];
    forall k: nat ensures IntoAt(m, k) <= AllUses(p) {
      if k < |m| && k != i { assert l[k].into <= AllUses(p); }
    }
  }

  // ---------- a pass that changes nothing ----------

  ghost predicate Stable(p: seq<Op>, l: Lives) {
    && |l| == |p|
    && forall i: nat {:trigger Visited(p, l, i)} | i < |p| :: Visited(p, l, i) == l
  }

  lemma StableAt(p: seq<Op>, l: Lives, i: nat)
    requires Stable(p, l) && i < |p|
    ensures l[i].into == InOf(p[i], l[i].out) && l[i].out == OutOf(p, l, i)
  {
    var m := l[i := Liveness(InOf(p[i], l[i].out), l[i].out)];
    assert Visited(p, l, i) == l;
    assert l[i].into == m[i].into;
    assert m == l;
  }

  /** Sets that satisfy the equations, even as inequalities, hold every register that is read. */
  ghost predicate Closed(p: seq<Op>, l: Lives) {
    && |l| == |p|
    && (forall i: nat {:trigger l[i]} | i < |p| :: InOf(p[i], l[i].out) <= l[i].into)
    && (forall i: nat, j: nat {:trigger Follows(p, i, j)} | Follows(p, i, j) :: l[j].into <= l[i].out)
  }

  lemma {:induction false} ClosedHas(p: seq<Op>, l: Lives, r: VReg, i: nat, path: seq<nat>)
    requires Closed(p, l) && LivePath(p, r, i, path)
    ensures r in l[i].into
    decreases |path|
  {
    if |path| > 1 {
      ClosedHas(p, l, r, path[1], path[1..]);
      assert l[path[1]].into <= l[i].out;
    }
    assert InOf(p[i], l[i].out) <= l[i].into;
  }

  lemma StableIsClosed(p: seq<Op>, l: Lives)
    requires WellFormed(p) && Stable(p, l)
    ensures Closed(p, l)
  {
    forall i: nat | i < |p| ensures InOf(p[i], l[i].out) <= l[i].into {
      StableAt(p, l, i);
    }
    forall i: nat, j: nat | Follows(p, i, j) ensures l[j].into <= l[i].out {
      StableAt(p, l, i);
      forall r | r in l[j].into ensures r in l[i].out { FollowsOut(p, l, i, r); }
    }
  }

  /** The live sets are exactly the registers some path still reads. */
  ghost predicate Exact(p: seq<Op>, l: Lives) {
    && |l| == |p|
    && forall i: nat, r: VReg | i < |p| ::
      (r in l[i].into <==> ReachesUse(p, r, i)) && (r in l[i].out <==> ReachesUseAfter(p, r, i))
  }

  lemma StableIsExact(p: seq<Op>, l: Lives)
    requires WellFormed(p) && Stable(p, l) && Sound(p, l)
    ensures Exact(p, l)
  {
    StableIsClosed(p, l);
    forall i: nat, r: VReg | i < |p| && ReachesUse(p, r, i) ensures r in l[i].into {
      var path :| LivePath(p, r, i, path);
      ClosedHas(p, l, r, i, path);
    }
    forall i: nat, r: VReg | i < |p| && ReachesUseAfter(p, r, i) ensures r in l[i].out {
      var j: nat :| Follows(p, i, j) && ReachesUse(p, r, j);
      assert r in l[j].into;
    }
  }

  /** Exact live sets lie inside every solution of the dataflow inequalities. */
  lemma ExactIsLeast(p: seq<Op>, l: Lives, m: Lives)
    requires Exact(p, l) && Closed(p, m)
    ensures Below(l, m)
  {
    forall i: nat | i < |p| ensures l[i].into <= m[i].into && l[i].out <= m[i].out {
      forall r | r in l[i].into ensures r in m[i].into {
        var path :| LivePath(p, r, i, path);
        ClosedHas(p, m, r, i, path);
      }
      forall r | r in l[i].out ensures r in m[i].out {
        var j: nat :| Follows(p, i, j) && ReachesUse(p, r, j);
        var path :| LivePath(p, r, j, path);
        ClosedHas(p, m, r, j, path);
        assert m[j].into <= m[i].out;
      }
    }
  }

  lemma WithLiveFollows(p: seq<Op>, l: Lives, i: nat, j: nat)
    requires |l| == |p|
    ensures Follows(WithLive(p, l), i, j) <==> Follows(p, i, j)
  {
    if i < |p| && p[i].jmp.Some? { SameTargets(p, WithLive(p, l), p[i].jmp.value); }
  }

  lemma ClosedIsLiveOk(p: seq<Op>, l: Lives)
    requires Closed(p, l)
    ensures LiveOk(WithLive(p, l))
  {
    var q := WithLive(p, l);
    forall i | 0 <= i < |q| ensures Uses(q[i]) <= q[i].liveIn && q[i].liveOut - Defs(q[i]) <= q[i].liveIn {
      assert InOf(p[i], l[i].out) <= l[i].into;
    }
    forall i: nat, j: nat | Follows(q, i, j) ensures q[j].liveIn <= q[i].liveOut {
      WithLiveFollows(p, l, i, j);
      assert l[j].into <= l[i].out;
    }
  }

  // ---------- the passes ----------

  lemma VisitedElsewhere(p: seq<Op>, l: Lives, i: nat)
    requires i < |p| == |l|
    ensures Visited(p, l, i) == l <==> Visited(p, l, i)[i] == l[i]
  {
  }

  function AllDefs(args: seq<Arg>): set<VReg> {
    if args == [] then {} else AllDefs(args[..|args| - 1]) + ArgDef(args[|args| - 1])
  }

  function AllUsed(args: seq<Arg>): set<VReg> {
    if args == [] then {} else AllUsed(args[..|args| - 1]) + ArgUse(args[|args| - 1])
  }

  lemma ArgsOf(op: Op)
    ensures AllDefs([op.a1, op.a2, op.a3]) == ArgDef(op.a1) + ArgDef(op.a2) + ArgDef(op.a3)
    ensures AllUsed([op.a1, op.a2, op.a3]) == ArgUse(op.a1) + ArgUse(op.a2) + ArgUse(op.a3)
  {
    var one, two := [op.a1], [op.a1, op.a2];
    assert [op.a1, op.a2, op.a3][..2] == two && two[..1] == one && one[..0] == [];
    assert AllDefs(one) == ArgDef(op.a1) && AllDefs(two) == AllDefs(one) + ArgDef(op.a2);
    assert AllUsed(one) == ArgUse(op.a1) && AllUsed(two) == AllUsed(one) + ArgUse(op.a2);
  }

  function NoneLive(p: seq<Op>): Lives {
    seq(|p|, _ => Liveness({}, {}))
  }

  /** The pass over the ops, with their live sets as the trees of set.h: the trees an op has are
      replaced by new ones and never changed. */
  class FlowAnalysis {
    const p: seq<Op>
    var into: seq<RegSet>
    var outs: seq<RegSet>
    ghost var repr: set<object>

    ghost predicate IsSet(s: RegSet, live: set<VReg>)
      reads this, repr
    {
      s in repr && s.Nodes() <= repr && s.Valid() && s.Bits() == live
    }

    /** The trees of op i hold the live sets. */
    ghost predicate HoldsAt(l: Lives, i: nat)
      requires i < |into| && i < |outs| && i < |l|
      reads this, repr
    {
      IsSet(into[i], l[i].into) && IsSet(outs[i], l[i].out)
    }

    ghost predicate Holds(l: Lives)
      reads this, repr
    {
      |into| == |outs| == |p| == |l| && forall i: nat {:trigger HoldsAt(l, i)} | i < |p| :: HoldsAt(l, i)
    }

    /** jit_flw_initialize */
    constructor (p: seq<Op>)
      ensures this.p == p && Holds(NoneLive(p)) && fresh(repr)
    {
      this.p, into, outs, repr := p, [], [], {};
      new;
      for i := 0 to |p|
        invariant |into| == |outs| == i && fresh(repr)
        invariant forall k: nat {:trigger HoldsAt(NoneLive(p), k)} | k < i :: HoldsAt(NoneLive(p), k)
      {
        AddEmpty();
      }
    }

    method AddEmpty()
      requires |into| == |outs| < |p|
      requires forall k: nat {:trigger HoldsAt(NoneLive(p), k)} | k < |into| :: HoldsAt(NoneLive(p), k)
      modifies this
      ensures |into| == |outs| == old(|into|) + 1 && fresh(repr - old(repr))
      ensures forall k: nat {:trigger HoldsAt(NoneLive(p), k)} | k < |into| :: HoldsAt(NoneLive(p), k)
    {
      var a := new RegSet();
      var b := new RegSet();
      into, outs := into + [a], outs + [b];
      repr := repr + {a, b};
      forall k: nat | k < |into| ensures HoldsAt(NoneLive(p), k) {
        assert k < old(|into|) ==> old(HoldsAt(NoneLive(p), k));
      }
    }

    method DropArgRegs(live: RegSet, n: nat, isFloat: bool)
      requires live.Valid()
      modifies live, live.Nodes()
      ensures live.Valid() && live.Bits() == old(live.Bits()) - ArgRegs(n, isFloat)
      ensures forall n <- live.Nodes() :: n in old(live.Nodes()) || fresh(n)
    {
      for j := 0 to n
        invariant live.Valid() && live.Bits() == old(live.Bits()) - ArgRegs(j, isFloat)
        invariant forall n <- live.Nodes() :: n in old(live.Nodes()) || fresh(n)
      {
        live.Put(ArgReg(j, isFloat), false);
        assert ArgRegs(j + 1, isFloat) == ArgRegs(j, isFloat) + {ArgReg(j, isFloat)};
      }
    }

    method DropPrologArgs(live: RegSet, gpArgs: nat, fpArgs: nat)
      requires live.Valid()
      modifies live, live.Nodes()
      ensures live.Valid() && live.Bits() == old(live.Bits()) - PrologArgs(gpArgs, fpArgs)
      ensures forall n <- live.Nodes() :: n in old(live.Nodes()) || fresh(n)
    {
      DropArgRegs(live, Min(gpArgs, GP_ARG_REGS), false);
      DropArgRegs(live, Min(fpArgs, FP_ARG_REGS), true);
    }

    method DropArgs(live: RegSet, args: seq<Arg>)
      requires live.Valid()
      modifies live, live.Nodes()
      ensures live.Valid() && live.Bits() == old(live.Bits()) - AllDefs(args)
      ensures forall n <- live.Nodes() :: n in old(live.Nodes()) || fresh(n)
    {
      for i := 0 to |args|
        invariant live.Valid() && live.Bits() == old(live.Bits()) - AllDefs(args[..i])
        invariant forall n <- live.Nodes() :: n in old(live.Nodes()) || fresh(n)
      {
        assert args[..i + 1][..i] == args[..i];
        if args[i].TReg? {
          live.Put(args[i].reg, false);
        }
      }
      assert args[..|args|] == args;
    }

    method AddArgs(live: RegSet, args: seq<Arg>)
      requires live.Valid()
      modifies live, live.Nodes()
      ensures live.Valid() && live.Bits() == old(live.Bits()) + AllUsed(args)
      ensures forall n <- live.Nodes() :: n in old(live.Nodes()) || fresh(n)
    {
      for i := 0 to |args|
        invariant live.Valid() && live.Bits() == old(live.Bits()) + AllUsed(args[..i])
        invariant forall n <- live.Nodes() :: n in old(live.Nodes()) || fresh(n)
      {
        assert args[..i + 1][..i] == args[..i];
        if args[i].Reg? {
          live.Put(args[i].reg, true);
        }
      }
      assert args[..|args|] == args;
    }

    /** The registers that the op defines leave the set. */
    method DropDefs(live: RegSet, op: Op)
      requires live.Valid()
      modifies live, live.Nodes()
      ensures live.Valid() && live.Bits() == old(live.Bits()) - Defs(op)
      ensures forall n <- live.Nodes() :: n in old(live.Nodes()) || fresh(n)
    {
      ArgsOf(op);
      DropArgs(live, [op.a1, op.a2, op.a3]);
      if op.code.PROLOG? {
        DropPrologArgs(live, op.code.gpArgs, op.code.fpArgs);
      }
    }

    /** ... and the registers that it reads enter it. */
    method AddUses(live: RegSet, op: Op)
      requires live.Valid()
      modifies live, live.Nodes()
      ensures live.Valid() && live.Bits() == old(live.Bits()) + Uses(op)
      ensures forall n <- live.Nodes() :: n in old(live.Nodes()) || fresh(n)
    {
      ArgsOf(op);
      AddArgs(live, [op.a1, op.a2, op.a3]);
      if op.code.GETARG? {
        live.Put(ArgReg(op.code.index, op.code.isFloat), true);
      }
    }

    /** The new `live_in` of op i, made from a copy of its `live_out`. */
    method NewLiveIn(i: nat, ghost l: Lives) returns (live: RegSet)
      requires i < |p| && Holds(l)
      ensures fresh(live) && fresh(live.Nodes()) && live.Valid() && live.Bits() == InOf(p[i], l[i].out)
    {
      assert HoldsAt(l, i);
      live := outs[i].Clone();
      DropDefs(live, p[i]);
      AddUses(live, p[i]);
    }

    /** A copy of the `live_in` of op k, or an empty set. */
    method CopyLiveIn(k: nat, ghost l: Lives) returns (live: RegSet)
      requires Holds(l)
      ensures fresh(live) && fresh(live.Nodes()) && live.Valid() && live.Bits() == IntoAt(l, k)
    {
      if k < |into| {
        assert HoldsAt(l, k);
        live := into[k].Clone();
      } else {
        live := new RegSet();
      }
    }

    /** The new `live_out` of op i. */
    method NewLiveOut(i: nat, ghost l: Lives) returns (live: RegSet)
      requires i < |p| && Holds(l)
      ensures fresh(live) && fresh(live.Nodes()) && live.Valid() && live.Bits() == OutOf(p, l, i)
    {
      var op := p[i];
      if op.code.RET? {
        live := new RegSet();
        return;
      }
      if op.code.JMP? {
        live := CopyLiveIn(Goto(p, op), l);
        return;
      }
      live := CopyLiveIn(i + 1, l);
      if op.jmp.Some? && Goto(p, op) < |p| {
        assert HoldsAt(l, Goto(p, op));
        live.Or(into[Goto(p, op)]);
      }
    }

    method AnalyzeOp(i: nat, ghost l: Lives) returns (changed: bool)
      requires i < |p| && Holds(l)
      modifies this
      ensures Holds(Visited(p, l, i))
      ensures changed <==> Visited(p, l, i) != l
    {
      assert HoldsAt(l, i);
      var in1 := into[i].Clone();
      in1.InHeap();
      var out1 := outs[i].Clone();
      out1.InHeap();
      Renew(i, l);
      changed := Differ(i, in1, out1, Visited(p, l, i));
      VisitedElsewhere(p, l, i);
    }

    method Differ(i: nat, in1: RegSet, out1: RegSet, ghost l: Lives) returns (differ: bool)
      requires i < |p| && Holds(l) && in1.Valid() && out1.Valid()
      ensures differ <==> Liveness(in1.Bits(), out1.Bits()) != l[i]
    {
      out1.InHeap();
      assert HoldsAt(l, i);
      var sameIn := in1.Equal(into[i]);
      var sameOut := out1.Equal(outs[i]);
      differ := !(sameIn && sameOut);
    }

    /** The new `live_in` of op i, then its new `live_out`. */
    method Renew(i: nat, ghost l: Lives)
      requires i < |p| && Holds(l)
      modifies this
      ensures Holds(Visited(p, l, i))
    {
      ghost var m := l[i := Liveness(InOf(p[i], l[i].out), l[i].out)];
      var live := NewLiveIn(i, l);
      SetInto(i, live, l, m);
      live := NewLiveOut(i, m);
      SetOut(i, live, m, Visited(p, l, i));
    }

    method SetInto(i: nat, live: RegSet, ghost l: Lives, ghost m: Lives)
      requires i < |p| && Holds(l) && live.Valid() && m == l[i := Liveness(live.Bits(), l[i].out)]
      modifies this
      ensures Holds(m)
    {
      into := into[i := live];
      repr := repr + {live} + live.Nodes();
      forall k: nat | k < |p| ensures HoldsAt(m, k) {
        assert old(HoldsAt(l, k));
      }
    }

    method SetOut(i: nat, live: RegSet, ghost l: Lives, ghost m: Lives)
      requires i < |p| && Holds(l) && live.Valid() && m == l[i := Liveness(l[i].into, live.Bits())]
      modifies this
      ensures Holds(m)
    {
      outs := outs[i := live];
      repr := repr + {live} + live.Nodes();
      forall k: nat | k < |p| ensures HoldsAt(m, k) {
        assert old(HoldsAt(l, k));
      }
    }

    /** One pass over the ops. */
    method Pass(ghost before: Lives) returns (changed: bool, ghost l: Lives)
      requires WellFormed(p) && Kept(p, before) && Holds(before)
      modifies this
      ensures Kept(p, l) && Holds(l) && Below(before, l)
      ensures changed <==> l != before
      ensures !changed ==> Stable(p, l)
    {
      changed, l := false, before;
      for i := 0 to |p|
        invariant Kept(p, l) && Holds(l) && Below(before, l)
        invariant changed <==> l != before
        invariant !changed ==> forall k: nat {:trigger Visited(p, l, k)} | k < i :: Visited(p, l, k) == l
      {
        var c := AnalyzeOp(i, l);
        VisitGrows(p, l, i);
        VisitSound(p, l, i);
        VisitInside(p, l, i);
        BelowProgress(before, l, Visited(p, l, i));
        l := Visited(p, l, i);
        changed := changed || c;
      }
    }

    /** One pass after the other until one changes nothing. */
    method Analyze() returns (ghost l: Lives)
      requires WellFormed(p) && Holds(NoneLive(p))
      modifies this
      ensures Holds(l) && Exact(p, l) && Closed(p, l)
    {
      l := NoneLive(p);
      var changed := true;
      while changed
        invariant Kept(p, l) && Holds(l)
        invariant !changed ==> Stable(p, l)
        decreases Room(AllUses(p), l), changed
      {
        ghost var before := l;
        RoomShrinks(AllUses(p), before, before);
        changed, l := Pass(before);
        RoomShrinks(AllUses(p), before, l);
      }
      StableIsExact(p, l);
      StableIsClosed(p, l);
    }

    /** The ops with their live sets. */
    method Ops(ghost l: Lives) returns (q: seq<Op>)
      requires Holds(l)
      ensures q == WithLive(p, l)
    {
      q := [];
      for i := 0 to |p|
        invariant |q| == i && q == WithLive(p, l)[..i]
      {
        assert HoldsAt(l, i);
        var a := into[i].Members();
        var b := outs[i].Members();
        q := q + [p[i].(liveIn := a, liveOut := b)];
      }
    }
  }

  ghost predicate Kept(p: seq<Op>, l: Lives) {
    Sound(p, l) && Growing(p, l) && Inside(AllUses(p), l)
  }

  lemma BelowProgress(a: Lives, b: Lives, c: Lives)
    requires Below(a, b) && Below(b, c)
    ensures Below(a, c) && (c == a ==> b == a)
  {
    if c == a {
      forall i: nat | i < |a| ensures a[i] == b[i] {
        assert b[i].into <= c[i].into && b[i].out <= c[i].out;
      }
    }
  }
}
