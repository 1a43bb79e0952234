/** rmap.h: the map from virtual to hardware registers, kept as a tree. */
module Rmap {
  import opened JitOps
  import opened Hardware
  import Llrb

  type RegMap = Llrb.Tree<HReg>

  datatype HwReg = HwReg(id: HReg, calleeSaved: bool, priority: int)

  ghost function M(t: RegMap): map<VReg, HReg> {
    Llrb.Content(t)
  }

  function Get(t: RegMap, v: VReg): (r: Option<HReg>)
    requires Llrb.Ordered(t)
    ensures if v in M(t) then r == Some(M(t)[v]) else r == None
  {
    Llrb.SearchFinds(t, v);
    var n := Llrb.Search(t, v);
    if n.Node? then Some(n.value) else None
  }

  /** The virtual register held in a hardware register, by a walk over the whole tree. */
  function IsAssociated(t: RegMap, h: HReg): Option<VReg> {
    if t.Leaf? then None
    else if t.value == h then Some(t.key)
    else
      var l := IsAssociated(t.left, h);
      if l.Some? then l else IsAssociated(t.right, h)
  }

  lemma {:induction false} IsAssociatedFinds(t: RegMap, h: HReg)
    requires Llrb.Ordered(t)
    ensures match IsAssociated(t, h)
      case Some(v) => v in M(t) && M(t)[v] == h
      case None => forall v <- M(t) :: M(t)[v] != h
  {
    if t.Node? {
      IsAssociatedFinds(t.left, h);
      IsAssociatedFinds(t.right, h);
      assert M(t) == Llrb.Join(M(t.left), t.key, t.value, M(t.right));
    }
  }

  // ---------- comparing two maps ----------

  /** Looks a mapping up in the other map: absent, or to another hardware register. */
  predicate Differs(target: RegMap, v: VReg, h: HReg) {
    var found := Llrb.Search(target, v);
    found.Leaf? || found.value != h
  }

  predicate EqualFrom(current: RegMap, target: RegMap, tgtLive: set<VReg>, out: set<VReg>) {
    current.Leaf?
    || ((current.key in tgtLive || current.key in out ==> !Differs(target, current.key, current.value))
        && EqualFrom(current.left, target, tgtLive, out)
        && EqualFrom(current.right, target, tgtLive, out))
  }

  predicate Equal(current: RegMap, target: RegMap, tgtLive: set<VReg>, out: set<VReg>) {
    EqualFrom(current, target, tgtLive, out) && EqualFrom(target, current, tgtLive, out)
  }

  lemma {:induction false} EqualFromMeaning(current: RegMap, target: RegMap, tgtLive: set<VReg>, out: set<VReg>)
    requires Llrb.Ordered(current) && Llrb.Ordered(target)
    ensures EqualFrom(current, target, tgtLive, out) <==>
      forall v | v in M(current) && (v in tgtLive || v in out) :: v in M(target) && M(target)[v] == M(current)[v]
  {
    if current.Node? {
      EqualFromMeaning(current.left, target, tgtLive, out);
      EqualFromMeaning(current.right, target, tgtLive, out);
      Llrb.SearchFinds(target, current.key);
      Llrb.JoinKeys(M(current.left), current.key, current.value, M(current.right));
      assert M(current) == Llrb.Join(M(current.left), current.key, current.value, M(current.right));
      assert forall v <- M(current.left) :: v != current.key && v !in M(current.right);
      assert forall v <- M(current.right) :: v != current.key;
    }
  }

  /** rmap_equal answers exactly whether the maps agree on every register live at the target
      or after the op. */
  lemma EqualMeaning(current: RegMap, target: RegMap, tgtLive: set<VReg>, out: set<VReg>)
    requires Llrb.Ordered(current) && Llrb.Ordered(target)
    ensures Equal(current, target, tgtLive, out) <==> Agree(M(current), M(target), tgtLive + out)
  {
    EqualFromMeaning(current, target, tgtLive, out);
    EqualFromMeaning(target, current, tgtLive, out);
  }

  // ---------- moving the registers from one map to another ----------

  datatype Mode = UNLOAD | LOAD

  function MoveOp(mode: Mode, h: HReg, v: VReg): (r: Op)
    ensures IsMove(r)
  {
    NewOp(if mode.LOAD? then LREG(h, v) else UREG(v, h), false, No, No, No, None)
  }

  /** Whether __sync emits a move for this entry. */
  predicate Moves(target: RegMap, mode: Mode, live: set<VReg>, v: VReg, h: HReg) {
    v in live && Differs(target, v, h)
  }

  /** __sync: the moves for the entries of `current`, in the order of the walk.  `live` is
      the live-out set of the op when loading, the live-in set of its target when unloading. */
  function Sync(current: RegMap, target: RegMap, mode: Mode, live: set<VReg>): (r: seq<Op>)
    ensures AllMoves(r)
  {
    if current.Leaf? then []
    else
      (if Moves(target, mode, live, current.key, current.value)
       then [MoveOp(mode, current.value, current.key)] else [])
      + Sync(current.left, target, mode, live) + Sync(current.right, target, mode, live)
  }

  function JumpMoves(current: RegMap, target: RegMap, tgtLive: set<VReg>, out: set<VReg>): (r: seq<Op>)
    ensures AllMoves(r)
  {
    Sync(current, target, UNLOAD, tgtLive) + Sync(target, current, LOAD, out)
  }

  ghost predicate Moved(current: RegMap, target: RegMap, live: set<VReg>, v: VReg) {
    v in M(current) && v in live && !(v in M(target) && M(target)[v] == M(current)[v])
  }

  function VRegOf(op: Op): VReg
    requires IsMove(op)
  {
    op.code.vreg
  }

  ghost function VRegs(moves: seq<Op>): set<VReg>
    requires AllMoves(moves)
  {
    set i | 0 <= i < |moves| :: VRegOf(moves[i])
  }

  /** Every op moves a register to or from where the map has it. */
  ghost predicate MovesOf(moves: seq<Op>, mode: Mode, m: map<VReg, HReg>)
    requires AllMoves(moves)
  {
    forall i | 0 <= i < |moves| :: VRegOf(moves[i]) in m
      && moves[i] == MoveOp(mode, m[VRegOf(moves[i])], VRegOf(moves[i]))
  }

  lemma VRegsConcat(a: seq<Op>, b: seq<Op>)
    requires AllMoves(a) && AllMoves(b)
    ensures VRegs(a + b) == VRegs(a) + VRegs(b)
  {
    forall v | v in VRegs(b) ensures v in VRegs(a + b) {
      var i :| 0 <= i < |b| && VRegOf(b[i]) == v;
      assert (a + b)[|a| + i] == b[i];
    }
    forall v | v in VRegs(a) ensures v in VRegs(a + b) {
      var i :| 0 <= i < |a| && VRegOf(a[i]) == v;
      assert (a + b)[i] == a[i];
    }
  }

  /** __sync emits a move for exactly the live entries that the other map does not share. */
  lemma {:induction false} SyncList(current: RegMap, target: RegMap, mode: Mode, live: set<VReg>)
    requires Llrb.Ordered(current) && Llrb.Ordered(target)
    ensures MovesOf(Sync(current, target, mode, live), mode, M(current))
    ensures forall v :: v in VRegs(Sync(current, target, mode, live)) <==> Moved(current, target, live, v)
  {
    if current.Node? {
      var here := if Moves(target, mode, live, current.key, current.value)
                  then [MoveOp(mode, current.value, current.key)] else [];
      var l, r := Sync(current.left, target, mode, live), Sync(current.right, target, mode, live);
      Llrb.SearchFinds(target, current.key);
      Llrb.JoinKeys(M(current.left), current.key, current.value, M(current.right));
      SyncList(current.left, target, mode, live);
      SyncList(current.right, target, mode, live);
      VRegsConcat(here, l);
      VRegsConcat(here + l, r);
      JoinEntries(current);
      assert Sync(current, target, mode, live) == here + l + r;
      forall v ensures v in VRegs(here + l + r) <==> Moved(current, target, live, v) {
        assert v in VRegs(here) <==> here != [] && v == VRegOf(here[0]);
        assert v in VRegs(here + l + r) <==> v in VRegs(here) || v in VRegs(l) || v in VRegs(r);
      }
    }
  }

  lemma JoinEntries(t: RegMap)
    requires t.Node? && Llrb.Ordered(t)
    ensures forall v :: v in M(t) <==> v in M(t.left) || v == t.key || v in M(t.right)
    ensures forall v <- M(t.left) :: M(t)[v] == M(t.left)[v]
    ensures forall v <- M(t.right) :: M(t)[v] == M(t.right)[v]
    ensures M(t)[t.key] == t.value
    ensures t.key !in M(t.left) && t.key !in M(t.right)
  {
    assert M(t) == Llrb.Join(M(t.left), t.key, t.value, M(t.right));
  }

  lemma {:induction false} UnloadEffect(moves: seq<Op>, m: map<VReg, HReg>, st: Store)
    requires AllMoves(moves) && MovesOf(moves, UNLOAD, m)
    ensures Exec(moves, st).hw == st.hw
    ensures forall v ::
      Read(Exec(moves, st).slots, v) == if v in VRegs(moves) then Read(st.hw, m[v]) else Read(st.slots, v)
  {
    if moves != [] {
      assert moves == [moves[0]] + moves[1..];
      VRegsConcat([moves[0]], moves[1..]);
      assert VRegs([moves[0]]) == {VRegOf(moves[0])};
      UnloadEffect(moves[1..], m, Move(moves[0], st));
    }
  }

  /** Loads into distinct hardware registers do not get in each other's way. */
  lemma {:induction false} LoadEffect(moves: seq<Op>, m: map<VReg, HReg>, st: Store)
    requires AllMoves(moves) && MovesOf(moves, LOAD, m) && Injective(m)
    ensures Exec(moves, st).slots == st.slots
    ensures forall v <- m ::
      Read(Exec(moves, st).hw, m[v]) == if v in VRegs(moves) then Read(st.slots, v) else Read(st.hw, m[v])
  {
    if moves != [] {
      assert moves == [moves[0]] + moves[1..];
      VRegsConcat([moves[0]], moves[1..]);
      assert VRegs([moves[0]]) == {VRegOf(moves[0])};
      LoadEffect(moves[1..], m, Move(moves[0], st));
    }
  }

  /** Jump repair is a correct parallel move: what holds of the current map before holds of the
      target's map afterwards, whatever else the recorded live sets contain. */
  lemma JumpRepair(current: RegMap, target: RegMap, tgtLive: set<VReg>, out: set<VReg>,
                   live: set<VReg>, regs: map<VReg, Word>, st: Store)
    requires Llrb.Ordered(current) && Llrb.Ordered(target) && Injective(M(target))
    requires live <= tgtLive && live <= out
    requires Holds(M(current), live, regs, st)
    ensures Holds(M(target), live, regs, Exec(JumpMoves(current, target, tgtLive, out), st))
  {
    var a, b := Sync(current, target, UNLOAD, tgtLive), Sync(target, current, LOAD, out);
    SyncList(current, target, UNLOAD, tgtLive);
    SyncList(target, current, LOAD, out);
    UnloadEffect(a, M(current), st);
    LoadEffect(b, M(target), Exec(a, st));
    ExecConcat(a, b, st);
    forall v | v in live
      ensures Read(regs, v)
        == if v in M(target) then Read(Exec(a + b, st).hw, M(target)[v]) else Read(Exec(a + b, st).slots, v)
    {
      assert v in VRegs(a) <==> Moved(current, target, tgtLive, v);
      assert v in VRegs(b) <==> Moved(target, current, out, v);
    }
  }

  // ---------- choosing a register to spill ----------

  const INT_MIN: int := -0x8000_0000
  const AX: HReg := 0

  /** How suitable hardware register hr is for virtual register v at this op; INT_MIN if it
      holds a register the op itself uses. */
  function Score(op: Op, m: RegMap, v: VReg, hr: HwReg): int {
    var x := IsAssociated(m, hr.id);
    var alive := x.Some? && (x.value in op.liveIn || x.value in op.liveOut);
    var base := -hr.priority + if alive then 0 else 10000;
    if x.None? then base + Bonus(op, v, hr)
    else if x.value !in op.hints then base - 100000 + 50000 + Bonus(op, v, hr)
    else
      var usedInSteps := -(op.hints[x.value].lastPos - op.pos);
      if usedInSteps == 0 then INT_MIN else base - 100000 + usedInSteps * 5 + Bonus(op, v, hr)
  }

  function Bonus(op: Op, v: VReg, hr: HwReg): int {
    if v !in op.hints then 0
    else
      (if hr.id == AX then op.hints[v].eax * 5 else 0)
      + (if hr.calleeSaved then (op.hints[v].calleeSaved - 1) * 15 else 0)
  }

  /** The index and score of the first best register among the first n, or -1. */
  function BestOf(op: Op, m: RegMap, v: VReg, gp: seq<HwReg>, calleeSaved: bool, n: nat): (r: (int, int))
    requires n <= |gp|
    ensures -1 <= r.0 < n && r.1 >= INT_MIN
  {
    if n == 0 then (-1, INT_MIN)
    else
      var best := BestOf(op, m, v, gp, calleeSaved, n - 1);
      if calleeSaved && !gp[n - 1].calleeSaved then best
      else
        var score := Score(op, m, v, gp[n - 1]);
        if score > best.1 then (n - 1, score) else best
  }

  /** The loop of rmap_spill_candidate: no register scores better than the one it returns, none
      before it scores as well, and it returns none only when all are ruled out. */
  method SpillCandidate(op: Op, m: RegMap, v: VReg, gp: seq<HwReg>, calleeSaved: bool) returns (k: int)
    ensures k == BestOf(op, m, v, gp, calleeSaved, |gp|).0
    ensures -1 <= k < |gp|
    ensures k >= 0 ==> (calleeSaved ==> gp[k].calleeSaved) && Score(op, m, v, gp[k]) > INT_MIN
    ensures forall j | 0 <= j < |gp| && (calleeSaved ==> gp[j].calleeSaved) ::
      if k < 0 then Score(op, m, v, gp[j]) <= INT_MIN
      else if j < k then Score(op, m, v, gp[j]) < Score(op, m, v, gp[k])
      else Score(op, m, v, gp[j]) <= Score(op, m, v, gp[k])
  {
    k := -1;
    var bestScore := INT_MIN;
    for i := 0 to |gp|
      invariant (k, bestScore) == BestOf(op, m, v, gp, calleeSaved, i)
      invariant k >= 0 ==> (calleeSaved ==> gp[k].calleeSaved) && bestScore == Score(op, m, v, gp[k]) > INT_MIN
      invariant k < 0 ==> bestScore == INT_MIN
      invariant forall j | 0 <= j < i && (calleeSaved ==> gp[j].calleeSaved) ::
        if j < k then Score(op, m, v, gp[j]) < bestScore else Score(op, m, v, gp[j]) <= bestScore
    {
      if calleeSaved && !gp[i].calleeSaved {
        continue;
      }
      var score := Score(op, m, v, gp[i]);
      if score > bestScore {
        k, bestScore := i, score;
      }
    }
  }

  /** At least three registers with distinct ids, and priorities that fit a short. */
  ghost predicate ValidRegisters(gp: seq<HwReg>) {
    && |gp| >= 3
    && (forall i, j | 0 <= i < j < |gp| :: gp[i].id != gp[j].id)
    && (forall i | 0 <= i < |gp| :: -0x8000 <= gp[i].priority < 0x8000)
  }

  /** What jit_collect_statistics leaves at an op: a hint at distance zero for exactly the
      registers the op mentions, later ones further away. */
  ghost predicate HintsOk(op: Op) {
    && (forall x <- Mentions(op) :: x in op.hints && op.hints[x].lastPos == op.pos)
    && (forall x | x in op.hints && x !in Mentions(op) :: op.hints[x].lastPos < op.pos)
    && (forall x <- op.hints :: op.hints[x].eax >= 0 && op.hints[x].calleeSaved >= 0)
  }

  lemma ScoreRulesOut(op: Op, m: RegMap, v: VReg, hr: HwReg)
    requires Llrb.Ordered(m) && HintsOk(op) && -0x8000 <= hr.priority < 0x8000
    ensures Score(op, m, v, hr) >= INT_MIN
    ensures Score(op, m, v, hr) == INT_MIN <==> exists x <- Mentions(op) :: IsAssociated(m, hr.id) == Some(x)
  {
    assert Bonus(op, v, hr) >= -15;
    IsAssociatedFinds(m, hr.id);
  }

  /** What the register itself adds: its priority, the RETs ahead of v if it is AX, the calls that v lives
      across if it is callee saved. */
  function OwnScore(op: Op, v: VReg, hr: HwReg): int {
    var h := if v in op.hints then op.hints[v] else Hint(0, 1, 0);
    (if hr.id == 0 then 5 * h.eax else 0) + (if hr.calleeSaved then 15 * (h.calleeSaved - 1) else 0) - hr.priority
  }

  /** How far ahead the value is used next, and what it costs to lose it. */
  function ValueScore(op: Op, x: VReg): int {
    (if x in op.liveIn + op.liveOut then 0 else 10000)
    + if x in op.hints then 5 * (op.pos - op.hints[x].lastPos) - 100000 else -50000
  }

  /** The score by what the map says of the register. */
  lemma ScoreTable(op: Op, m: RegMap, v: VReg, hr: HwReg)
    requires Llrb.Ordered(m) && Injective(M(m))
    ensures (forall x <- M(m) :: M(m)[x] != hr.id) ==> Score(op, m, v, hr) == 10000 + OwnScore(op, v, hr)
    ensures forall x <- M(m) :: M(m)[x] == hr.id ==>
      Score(op, m, v, hr) == if x in op.hints && op.hints[x].lastPos == op.pos then INT_MIN
                             else ValueScore(op, x) + OwnScore(op, v, hr)
  {
    IsAssociatedFinds(m, hr.id);
  }

  /** Of two registers that are otherwise alike a free one is preferred to one whose value is used within
      18000 ops, and among those whose values are both live or both dead the one that is used later. */
  lemma FartherFirst(op: Op, m: RegMap, v: VReg, g: HwReg, h: HwReg, x: VReg)
    requires Llrb.Ordered(m) && Injective(M(m)) && HintsOk(op) && OwnScore(op, v, g) == OwnScore(op, v, h)
    requires x in M(m) && M(m)[x] == h.id && x !in Mentions(op)
    ensures (forall y <- M(m) :: M(m)[y] != g.id) && (x in op.hints ==> op.pos - op.hints[x].lastPos < 18000)
      ==> Score(op, m, v, g) > Score(op, m, v, h)
    ensures forall y <- M(m) | M(m)[y] == g.id && y !in Mentions(op) && x in op.hints && y in op.hints
              && (x in op.liveIn + op.liveOut <==> y in op.liveIn + op.liveOut) ::
      Score(op, m, v, g) > Score(op, m, v, h) <==> op.hints[y].lastPos < op.hints[x].lastPos
  {
    ScoreTable(op, m, v, g);
    ScoreTable(op, m, v, h);
  }

  /** ... and a dead value goes before a live one that is used no later. */
  lemma DeadFirst(op: Op, m: RegMap, v: VReg, g: HwReg, h: HwReg, x: VReg, y: VReg)
    requires Llrb.Ordered(m) && Injective(M(m)) && HintsOk(op) && OwnScore(op, v, g) == OwnScore(op, v, h)
    requires x in M(m) && M(m)[x] == g.id && x !in Mentions(op)
    requires y in M(m) && M(m)[y] == h.id && y !in Mentions(op)
    requires x !in op.liveIn + op.liveOut && y in op.liveIn + op.liveOut && x in op.hints && y in op.hints
    requires op.hints[x].lastPos <= op.hints[y].lastPos
    ensures Score(op, m, v, g) > Score(op, m, v, h)
  {
    ScoreTable(op, m, v, g);
    ScoreTable(op, m, v, h);
  }

  lemma {:induction false} BestIsMaximal(op: Op, m: RegMap, v: VReg, gp: seq<HwReg>, n: nat)
    requires n <= |gp|
    ensures var b := BestOf(op, m, v, gp, false, n);
      && (forall j | 0 <= j < n :: Score(op, m, v, gp[j]) <= b.1)
      && (if b.0 < 0 then b.1 == INT_MIN else b.1 > INT_MIN && b.1 == Score(op, m, v, gp[b.0]))
  {
    if n > 0 { BestIsMaximal(op, m, v, gp, n - 1); }
  }

  /** With three registers there is always one to give to an unmapped argument, and it never
      holds another argument of the op. */
  lemma VictimExists(op: Op, m: RegMap, v: VReg, gp: seq<HwReg>)
    requires ValidRegisters(gp) && Llrb.Ordered(m) && HintsOk(op) && v in Mentions(op) && v !in M(m)
    ensures var k := BestOf(op, m, v, gp, false, |gp|).0;
      0 <= k && (forall x <- Mentions(op) :: IsAssociated(m, gp[k].id) != Some(x))
  {
    BestIsMaximal(op, m, v, gp, |gp|);
    var k := BestOf(op, m, v, gp, false, |gp|).0;
    if k < 0 {
      forall j | 0 <= j < 3
        ensures exists x <- Mentions(op) :: IsAssociated(m, gp[j].id) == Some(x)
      {
        ScoreRulesOut(op, m, v, gp[j]);
      }
      var x0 :| x0 in Mentions(op) && IsAssociated(m, gp[0].id) == Some(x0);
      var x1 :| x1 in Mentions(op) && IsAssociated(m, gp[1].id) == Some(x1);
      var x2 :| x2 in Mentions(op) && IsAssociated(m, gp[2].id) == Some(x2);
      IsAssociatedFinds(m, gp[0].id);
      IsAssociatedFinds(m, gp[1].id);
      IsAssociatedFinds(m, gp[2].id);
      AtMostThree(op, x0, x1, x2, v);
    } else {
      ScoreRulesOut(op, m, v, gp[k]);
    }
  }

  lemma AtMostThree(op: Op, x: VReg, y: VReg, z: VReg, v: VReg)
    requires x in Mentions(op) && y in Mentions(op) && z in Mentions(op) && v in Mentions(op)
    requires x != y && y != z && x != z
    ensures v == x || v == y || v == z
  {
  }
}
