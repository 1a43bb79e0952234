/** The two join passes over a list (jit_optimize_join_addmul, jit_optimize_join_addimm). */
module JoinPasses {
  import opened JitOps
  import opened FlowAnalysis
  import opened Rewriting
  import opened Fusion
  import opened Arithmetic
  import opened JoinOps

  // ---------- the passes as functions ----------

  predicate Fires(r: Rule, op: Op, next: Op) {
    && IsCode(op, r.first, r.firstImm) && JoinOps.Related(op, next) && IsCode(next, r.second, r.secondImm)
    && Joined(r.join, op, next).Some?
  }

  function Apply(r: Rule, p: seq<Op>, k: nat): seq<Op> {
    if k + 1 < |p| && Fires(r, p[k], p[k + 1]) then Fused(p, k, Joined(r.join, p[k], p[k + 1]).value) else p
  }

  function ApplyAll(rules: seq<Rule>, p: seq<Op>, k: nat): seq<Op> {
    if rules == [] then p else ApplyAll(rules[1..], Apply(rules[0], p, k), k)
  }

  function PassFrom(rules: seq<Rule>, p: seq<Op>, k: nat): seq<Op>
    decreases |p| - k
  {
    if k >= |p| then p else
      ApplyAllLength(rules, p, k);
      PassFrom(rules, ApplyAll(rules, p, k), k + 1)
  }

  lemma {:induction false} ApplyAllLength(rules: seq<Rule>, p: seq<Op>, k: nat)
    ensures |ApplyAll(rules, p, k)| == |p|
  {
    if rules != [] { ApplyAllLength(rules[1..], Apply(rules[0], p, k), k); }
  }

  // ---------- what the passes need and keep ----------

  ghost predicate AllTyped(p: seq<Op>) {
    forall i: nat {:trigger p[i]} | i < |p| :: TypedOp(p[i])
  }

  /** Wherever a rule fires, the join is right. */
  ghost predicate JoinsRight(p: seq<Op>) {
    forall k: nat {:trigger RightAt(p, k)} | k + 1 < |p| :: RightAt(p, k)
  }

  ghost predicate RightAt(p: seq<Op>, k: nat)
    requires k + 1 < |p|
  {
    forall r {:trigger Fires(r, p[k], p[k + 1])} | IsRule(r) && Fires(r, p[k], p[k + 1]) ::
      Right(r.join, p[k], p[k + 1])
  }

  ghost predicate Joinable(p: seq<Op>, l: Lives) {
    WellFormed(p) && Closed(p, l) && Recorded(p, l) && AllTyped(p) && JoinsRight(p)
  }

  lemma FiresMatches(r: Rule, op: Op, next: Op)
    requires IsRule(r) && Fires(r, op, next) && TypedOp(op) && TypedOp(next)
    ensures Matches(r, op, next)
  {
  }

  lemma JoinReplaces(r: Rule, op: Op, next: Op, out: set<VReg>)
    requires Matches(r, op, next) && Fires(r, op, next) && Right(r.join, op, next) && out <= next.liveOut
    ensures Replaces(op, next, Joined(r.join, op, next).value, out)
  {
    RuleShape(r, op, next);
  }

  lemma JoinIsFusible(sem: Sem, r: Rule, p: seq<Op>, l: Lives, k: nat)
    requires Standard(sem) && IsRule(r) && Joinable(p, l) && k + 1 < |p| && Fires(r, p[k], p[k + 1])
    ensures Fusible(sem, p, l, k, Joined(r.join, p[k], p[k + 1]).value)
  {
    assert TypedOp(p[k]) && TypedOp(p[k + 1]) && RightAt(p, k);
    FiresMatches(r, p[k], p[k + 1]);
    RightExactly(sem, r, p[k], p[k + 1]);
    assert l[k + 1].out <= p[k + 1].liveOut;
    JoinReplaces(r, p[k], p[k + 1], l[k + 1].out);
  }

  /** A joined pair takes part in no further join. */
  lemma NoFurtherJoin(r: Rule, s: Rule, op: Op, next: Op, other: Op)
    requires IsRule(r) && IsRule(s) && Matches(r, op, next) && Joined(r.join, op, next).Some?
    ensures var c := Joined(r.join, op, next).value;
      && !Fires(s, Nop(op), c) && !Fires(s, other, Nop(op)) && !Fires(s, c, other)
      && c.liveOut == next.liveOut && TypedOp(c)
  {
    RuleShape(r, op, next);
  }

  function JoinedAt(r: Rule, p: seq<Op>, k: nat): Op
    requires k + 1 < |p| && Fires(r, p[k], p[k + 1])
  {
    Joined(r.join, p[k], p[k + 1]).value
  }

  lemma JoinKeeps(sem: Sem, r: Rule, p: seq<Op>, l: Lives, k: nat) returns (m: Lives)
    requires Standard(sem) && IsRule(r) && Joinable(p, l) && k + 1 < |p| && Fires(r, p[k], p[k + 1])
    ensures Joinable(Fused(p, k, JoinedAt(r, p, k)), m) && MeansTheSame(sem, p, Fused(p, k, JoinedAt(r, p, k)))
  {
    var c := JoinedAt(r, p, k);
    JoinIsFusible(sem, r, p, l, k);
    m := FusedLives(l, k, Raw(p[k].a1), c);
    JoinedTyped(r, p, k);
    FusionKeeps(sem, p, l, k, c);
  }

  lemma ApplyKeeps(sem: Sem, r: Rule, p: seq<Op>, l: Lives, k: nat) returns (m: Lives)
    requires Standard(sem) && IsRule(r) && Joinable(p, l)
    ensures Joinable(Apply(r, p, k), m) && MeansTheSame(sem, p, Apply(r, p, k))
  {
    if k + 1 < |p| && Fires(r, p[k], p[k + 1]) {
      m := JoinKeeps(sem, r, p, l, k);
    } else {
      m := l;
      MeansItself(sem, p);
    }
  }

  lemma JoinedTyped(r: Rule, p: seq<Op>, k: nat)
    requires IsRule(r) && AllTyped(p) && JoinsRight(p) && k + 1 < |p| && Fires(r, p[k], p[k + 1])
    ensures AllTyped(Fused(p, k, JoinedAt(r, p, k))) && JoinsRight(Fused(p, k, JoinedAt(r, p, k)))
    ensures JoinedAt(r, p, k).liveOut == p[k + 1].liveOut
  {
    var q := Fused(p, k, JoinedAt(r, p, k));
    assert TypedOp(p[k]) && TypedOp(p[k + 1]);
    FiresMatches(r, p[k], p[k + 1]);
    NoFurtherJoin(r, r, p[k], p[k + 1], p[k]);
    forall i: nat | i + 1 < |q| ensures RightAt(q, i) {
      if i + 1 == k || i == k || i == k + 1 {
        forall s | IsRule(s) ensures !Fires(s, q[i], q[i + 1]) {
          NoFurtherJoin(r, s, p[k], p[k + 1], if i < k then p[i] else if i > k then p[i + 1] else p[k]);
        }
      } else {
        assert RightAt(p, i) && q[i] == p[i] && q[i + 1] == p[i + 1];
      }
    }
  }

  ghost predicate AreRules(rules: seq<Rule>) {
    forall r | r in rules :: IsRule(r)
  }

  lemma {:induction false} ApplyAllKeeps(sem: Sem, rules: seq<Rule>, p: seq<Op>, l: Lives, k: nat) returns (m: Lives)
    requires Standard(sem) && AreRules(rules) && Joinable(p, l)
    ensures Joinable(ApplyAll(rules, p, k), m) && MeansTheSame(sem, p, ApplyAll(rules, p, k))
  {
    if rules == [] {
      m := l;
      MeansItself(sem, p);
    } else {
      var q := Apply(rules[0], p, k);
      var m' := ApplyKeeps(sem, rules[0], p, l, k);
      m := ApplyAllKeeps(sem, rules[1..], q, m', k);
      MeansTrans(sem, p, q, ApplyAll(rules, p, k));
    }
  }

  /** A pass of right joins preserves meaning from every entry point; the list it leaves has a
      solution of the dataflow inequalities that the recorded sets still cover. */
  lemma {:induction false} PassKeeps(sem: Sem, rules: seq<Rule>, p: seq<Op>, l: Lives, k: nat) returns (m: Lives)
    requires Standard(sem) && AreRules(rules) && Joinable(p, l)
    ensures Joinable(PassFrom(rules, p, k), m) && MeansTheSame(sem, p, PassFrom(rules, p, k))
    decreases |p| - k
  {
    if k >= |p| {
      m := l;
      MeansItself(sem, p);
    } else {
      ApplyAllLength(rules, p, k);
      var q := ApplyAll(rules, p, k);
      var m' := ApplyAllKeeps(sem, rules, p, l, k);
      m := PassKeeps(sem, rules, q, m', k + 1);
      MeansTrans(sem, p, q, PassFrom(rules, p, k));
    }
  }

  // ---------- the ops of the list that a pass leaves ----------

  lemma ApplyMakes(r: Rule, p: seq<Op>, k: nat)
    ensures OpsKept(p, Apply(r, p, k))
  {
    var q := Apply(r, p, k);
    forall i | 0 <= i < |p| ensures KeptOrMade(p[i], q[i]) {}
  }

  lemma {:induction false} ApplyAllMakes(rules: seq<Rule>, p: seq<Op>, k: nat)
    ensures OpsKept(p, ApplyAll(rules, p, k))
  {
    if rules == [] {
      forall i | 0 <= i < |p| ensures KeptOrMade(p[i], p[i]) {}
    } else {
      ApplyMakes(rules[0], p, k);
      ApplyAllMakes(rules[1..], Apply(rules[0], p, k), k);
      KeptTrans(p, Apply(rules[0], p, k), ApplyAll(rules, p, k));
    }
  }

  lemma {:induction false} PassMakes(rules: seq<Rule>, p: seq<Op>, k: nat)
    ensures OpsKept(p, PassFrom(rules, p, k))
    decreases |p| - k
  {
    ApplyAllMakes(rules, p, k);
    if k < |p| {
      PassMakes(rules, ApplyAll(rules, p, k), k + 1);
      KeptTrans(p, ApplyAll(rules, p, k), PassFrom(rules, p, k));
    } else {
      ApplyAllMakes([], p, k);
    }
  }

  // ---------- no pair is missed ----------

  ghost predicate Silent(rules: seq<Rule>, p: seq<Op>, k: nat) {
    k + 1 < |p| ==> forall r {:trigger Fires(r, p[k], p[k + 1])} | r in rules :: !Fires(r, p[k], p[k + 1])
  }

  lemma {:induction false} SilentStays(rules: seq<Rule>, p: seq<Op>, k: nat)
    requires Silent(rules, p, k)
    ensures ApplyAll(rules, p, k) == p
  {
    if rules != [] {
      assert k + 1 < |p| ==> !Fires(rules[0], p[k], p[k + 1]);
      SilentStays(rules[1..], p, k);
    }
  }

  lemma JoinedSilent(r: Rule, p: seq<Op>, k: nat, rules: seq<Rule>)
    requires IsRule(r) && AreRules(rules) && AllTyped(p) && k + 1 < |p| && Fires(r, p[k], p[k + 1])
    ensures Silent(rules, Fused(p, k, JoinedAt(r, p, k)), k)
    ensures k > 0 ==> Silent(rules, Fused(p, k, JoinedAt(r, p, k)), k - 1)
    ensures AllTyped(Fused(p, k, JoinedAt(r, p, k)))
  {
    var q := Fused(p, k, JoinedAt(r, p, k));
    assert TypedOp(p[k]) && TypedOp(p[k + 1]);
    FiresMatches(r, p[k], p[k + 1]);
    NoFurtherJoin(r, r, p[k], p[k + 1], p[k]);
    forall s | s in rules ensures !Fires(s, q[k], q[k + 1]) && (k > 0 ==> !Fires(s, q[k - 1], q[k])) {
      NoFurtherJoin(r, s, p[k], p[k + 1], if k > 0 then p[k - 1] else p[k]);
    }
  }

  /** All rules have been tried at k: nothing fires there any more, nor just before. */
  ghost predicate Tried(all: seq<Rule>, p: seq<Op>, q: seq<Op>, k: nat) {
    && |q| == |p| && AllTyped(q) && (k > 0 ==> Silent(all, q, k - 1)) && (q == p || Silent(all, q, k))
    && forall j {:trigger q[j]} | 0 <= j < |p| && j != k && j != k + 1 :: q[j] == p[j]
  }

  lemma {:induction false} TriedAt(rules: seq<Rule>, all: seq<Rule>, p: seq<Op>, k: nat)
    requires AreRules(rules) && AreRules(all) && AllTyped(p) && (k > 0 ==> Silent(all, p, k - 1))
    ensures Tried(all, p, ApplyAll(rules, p, k), k)
    ensures ApplyAll(rules, p, k) == p ==> Silent(rules, p, k)
  {
    if rules != [] {
      var p1 := Apply(rules[0], p, k);
      if k + 1 < |p| && Fires(rules[0], p[k], p[k + 1]) {
        JoinedSilent(rules[0], p, k, all);
        JoinedSilent(rules[0], p, k, rules[1..]);
        SilentStays(rules[1..], p1, k);
        assert p1[k] != p[k];
      } else {
        TriedAt(rules[1..], all, p, k);
      }
    }
  }

  ghost predicate SilentBelow(rules: seq<Rule>, p: seq<Op>, k: nat) {
    forall i: nat {:trigger Silent(rules, p, i)} | i < k :: Silent(rules, p, i)
  }

  lemma SilentFurther(rules: seq<Rule>, p: seq<Op>, k: nat)
    requires AreRules(rules) && AllTyped(p) && SilentBelow(rules, p, k)
    ensures var q := ApplyAll(rules, p, k); AllTyped(q) && SilentBelow(rules, q, k + 1)
  {
    assert k > 0 ==> Silent(rules, p, k - 1);
    TriedAt(rules, rules, p, k);
    var q := ApplyAll(rules, p, k);
    forall i: nat | i < k + 1 ensures Silent(rules, q, i) {
      if i + 1 < k {
        assert Silent(rules, p, i);
        assert i + 1 < |p| ==> q[i] == p[i] && q[i + 1] == p[i + 1];
      }
    }
  }

  /** After a pass none of its rules fires anywhere: every pair that can be joined has been. */
  lemma {:induction false} PassMissesNone(rules: seq<Rule>, p: seq<Op>, k: nat, j: nat)
    requires AreRules(rules) && AllTyped(p) && SilentBelow(rules, p, k)
    ensures Silent(rules, PassFrom(rules, p, k), j)
    decreases |p| - k
  {
    if k < |p| {
      var q := ApplyAll(rules, p, k);
      ApplyAllLength(rules, p, k);
      SilentFurther(rules, p, k);
      PassMissesNone(rules, q, k + 1, j);
      assert PassFrom(rules, p, k) == PassFrom(rules, q, k + 1);
    } else {
      assert PassFrom(rules, p, k) == p;
      assert Silent(rules, p, j);
    }
  }

  // ---------- the passes as they run ----------

  /** join_2ops looks at the op after the one it found, so the list must not end in such an op. */
  predicate NotAtEnd(p: seq<Op>) {
    p != [] ==> !p[|p| - 1].code.ALU? || p[|p| - 1].code.op !in {MUL, LSH, ADD, SUB}
  }

  class JoinPass {
    var ops: seq<Op>

    constructor (p: seq<Op>)
      ensures ops == p
    {
      ops := p;
    }

    method Join2Ops(k: nat, r: Rule) returns (change: bool)
      requires IsRule(r) && k < |ops| && NotAtEnd(ops)
      modifies this
      ensures ops == Apply(r, old(ops), k) && NotAtEnd(ops)
      ensures change <==> ops != old(ops)
    {
      var op := ops[k];
      if op.code == ALU(r.first, false) && op.imm == r.firstImm {
        var next := ops[k + 1];
        if !JoinOps.Related(op, next) || next.code != ALU(r.second, false) || next.imm != r.secondImm {
          return false;
        }
        var joined := Joined(r.join, op, next);
        if joined.None? {
          return false;
        }
        ops := ops[k := op.(code := NOP, imm := false, a1 := No, a2 := No, a3 := No)][k + 1 := joined.value];
        assert ops[k] != old(ops)[k];
        return true;
      }
      return false;
    }

    method OptimizeJoin(rules: seq<Rule>) returns (change: bool)
      requires NotAtEnd(ops) && AreRules(rules)
      modifies this
      ensures ops == PassFrom(rules, old(ops), 0) && NotAtEnd(ops)
      ensures !change ==> ops == old(ops)
    {
      change := false;
      for k := 0 to |ops|
        invariant |ops| == |old(ops)| && NotAtEnd(ops)
        invariant PassFrom(rules, ops, k) == PassFrom(rules, old(ops), 0)
        invariant !change ==> ops == old(ops)
      {
        ghost var before := ops;
        for i := 0 to |rules|
          invariant |ops| == |before| && NotAtEnd(ops)
          invariant ApplyAll(rules[i..], ops, k) == ApplyAll(rules, before, k)
          invariant !change ==> ops == old(ops)
        {
          assert rules[i..][0] == rules[i] && rules[i..][1..] == rules[i + 1..];
          var c := Join2Ops(k, rules[i]);
          change := change || c;
        }
        ApplyAllLength(rules, before, k);
      }
    }
  }
}
