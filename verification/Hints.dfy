/** Next-use hints (jit_collect_statistics): what they say, and their reference counts. */
module Hints {
  import opened JitOps
  import opened Rmap
  import opened Llrb

  // ---------- the hints, computed from the end of each function ----------

  predicate LastOfFunction(p: seq<Op>, i: nat) {
    i + 1 >= |p| || p[i + 1].code.PROLOG?
  }

  /** normalized_pos: how many ops follow in the same function. */
  function PosAt(p: seq<Op>, i: nat): nat
    decreases |p| - i
  {
    if LastOfFunction(p, i) then 0 else PosAt(p, i + 1) + 1
  }

  function Later(p: seq<Op>, i: nat): map<VReg, Hint>
    decreases |p| - i, 0
  {
    if LastOfFunction(p, i) then map[] else HintsAt(p, i + 1)
  }

  /** The hint of a register the op mentions. */
  function Touched(base: map<VReg, Hint>, v: VReg, pos: int, ret: bool): Hint {
    var h := if v in base then base[v] else Hint(0, 0, 0);
    h.(lastPos := pos, eax := h.eax + if ret then 1 else 0)
  }

  function HintsAt(p: seq<Op>, i: nat): map<VReg, Hint>
    decreases |p| - i, 1
  {
    if i >= |p| then map[]
    else Later(p, i) + map v | v in Mentions(p[i]) :: Touched(Later(p, i), v, PosAt(p, i), p[i].code.RET?)
  }

  // ---------- what they say ----------

  /** No PROLOG between i and j: both are in the same function. */
  ghost predicate SameFunction(p: seq<Op>, i: nat, j: nat) {
    i <= j < |p| && forall k | i < k <= j :: !p[k].code.PROLOG?
  }

  /** j is the nearest op from i on in the same function that mentions v. */
  ghost predicate NextUse(p: seq<Op>, v: VReg, i: nat, j: nat) {
    SameFunction(p, i, j) && v in Mentions(p[j]) && forall k | i <= k < j :: v !in Mentions(p[k])
  }

  lemma NextUseStep(p: seq<Op>, v: VReg, i: nat, j: nat)
    requires i < |p| && v !in Mentions(p[i])
    ensures NextUse(p, v, i, j) <==> !LastOfFunction(p, i) && NextUse(p, v, i + 1, j)
  {
    if !LastOfFunction(p, i) && NextUse(p, v, i + 1, j) {
      assert forall k | i < k <= j :: !p[k].code.PROLOG?;
    }
  }

  lemma HintsStep(p: seq<Op>, v: VReg, i: nat)
    requires i < |p|
    ensures v in HintsAt(p, i) <==> v in Mentions(p[i]) || v in Later(p, i)
    ensures v !in Mentions(p[i]) && v in Later(p, i) ==> HintsAt(p, i)[v] == Later(p, i)[v]
    ensures v in Mentions(p[i]) ==> HintsAt(p, i)[v] == Touched(Later(p, i), v, PosAt(p, i), p[i].code.RET?)
    ensures !LastOfFunction(p, i) ==> Later(p, i) == HintsAt(p, i + 1)
  {
  }

  /** A register has a hint exactly when it is mentioned at or after the op in the same function,
      and the hint's distance is the distance to the nearest such op. */
  lemma {:induction false} HintsExact(p: seq<Op>, v: VReg, i: nat)
    requires i < |p|
    ensures v in HintsAt(p, i) <==> exists j: nat :: NextUse(p, v, i, j)
    ensures forall j: nat | NextUse(p, v, i, j) :: v in HintsAt(p, i) && PosAt(p, i) - HintsAt(p, i)[v].lastPos == j - i
    decreases |p| - i
  {
    if v in Mentions(p[i]) {
      assert NextUse(p, v, i, i);
    } else {
      forall j: nat ensures NextUse(p, v, i, j) <==> !LastOfFunction(p, i) && NextUse(p, v, i + 1, j) {
        NextUseStep(p, v, i, j);
      }
      HintsStep(p, v, i);
      if !LastOfFunction(p, i) {
        HintsExact(p, v, i + 1);
        if v in Later(p, i) {
          var j: nat :| NextUse(p, v, i + 1, j);
          assert NextUse(p, v, i, j);
        }
      }
    }
  }

  /** How many RETs from i on in the same function return v. */
  function Returns(p: seq<Op>, v: VReg, i: nat): nat
    decreases |p| - i
  {
    if i >= |p| then 0
    else
      (if p[i].code.RET? && v in Mentions(p[i]) then 1 else 0)
      + (if LastOfFunction(p, i) then 0 else Returns(p, v, i + 1))
  }

  lemma {:induction false} PreferencesExact(p: seq<Op>, v: VReg, i: nat)
    requires i < |p|
    ensures v in HintsAt(p, i) ==> HintsAt(p, i)[v].eax == Returns(p, v, i) && HintsAt(p, i)[v].calleeSaved == 0
    ensures v !in HintsAt(p, i) ==> Returns(p, v, i) == 0
    decreases |p| - i
  {
    HintsStep(p, v, i);
    if !LastOfFunction(p, i) { PreferencesExact(p, v, i + 1); }
  }

  /** The allocator's precondition on hints. */
  lemma {:induction false} HintsAreOk(p: seq<Op>, q: seq<Op>, i: nat)
    requires i < |p| == |q| && Mentions(q[i]) == Mentions(p[i])
    requires q[i].hints == HintsAt(p, i) && q[i].pos == PosAt(p, i)
    ensures HintsOk(q[i])
  {
    forall v | v in q[i].hints ensures v !in Mentions(p[i]) ==> q[i].hints[v].lastPos < q[i].pos
      ensures q[i].hints[v].eax >= 0 && q[i].hints[v].calleeSaved >= 0
    {
      HintsExact(p, v, i);
      PreferencesExact(p, v, i);
      var j: nat :| NextUse(p, v, i, j);
      assert v !in Mentions(p[i]) ==> j > i;
    }
  }

  // ---------- the table of shared hints ----------

  type Id = int

  datatype Cell = Cell(hint: Hint, refs: int)

  ghost predicate Holds(t: Tree<Id>, id: Id) {
    exists v <- Content(t) :: Content(t)[v] == id
  }

  /** Every id in the tree stands under the register it was made for. */
  ghost predicate Owned(t: Tree<Id>, owner: map<Id, VReg>) {
    forall v <- Content(t) :: Content(t)[v] in owner && owner[Content(t)[v]] == v
  }

  ghost predicate IdsIn(t: Tree<Id>, cells: map<Id, Cell>) {
    forall v <- Content(t) :: Content(t)[v] in cells
  }

  ghost function Holders(trees: seq<Tree<Id>>, id: Id): set<nat> {
    set i: nat | i < |trees| && Holds(trees[i], id)
  }

  /** The tree with the ids looked up. */
  function Deref(t: Tree<Id>, cells: map<Id, Cell>): map<VReg, Hint> {
    match t
    case Leaf => map[]
    case Node(l, _, k, id, r) =>
      (Deref(l, cells) + Deref(r, cells))[k := if id in cells then cells[id].hint else Hint(0, 0, 0)]
  }

  lemma {:induction false} DerefContent(t: Tree<Id>, cells: map<Id, Cell>)
    requires Ordered(t) && IdsIn(t, cells)
    ensures Deref(t, cells).Keys == Content(t).Keys
    ensures forall v <- Content(t) :: Deref(t, cells)[v] == cells[Content(t)[v]].hint
  {
    if t.Node? {
      JoinKeys(Content(t.left), t.key, t.value, Content(t.right));
      SubtreeIds(t, cells);
      DerefContent(t.left, cells);
      DerefContent(t.right, cells);
    }
  }

  lemma SubtreeIds(t: Tree<Id>, cells: map<Id, Cell>)
    requires t.Node? && Ordered(t) && IdsIn(t, cells)
    ensures IdsIn(t.left, cells) && IdsIn(t.right, cells) && t.value in cells
  {
    var l, r := Content(t.left), Content(t.right);
    JoinKeys(l, t.key, t.value, r);
    assert Content(t)[t.key] == t.value;
    assert forall v <- l :: Content(t)[v] == l[v];
    assert forall v <- r :: Content(t)[v] == r[v];
  }

  lemma SubtreeOwned(t: Tree<Id>, owner: map<Id, VReg>)
    requires t.Node? && Ordered(t) && Owned(t, owner)
    ensures Owned(t.left, owner) && Owned(t.right, owner)
    ensures t.value in owner && owner[t.value] == t.key
  {
    var l, r := Content(t.left), Content(t.right);
    JoinKeys(l, t.key, t.value, r);
    assert Content(t)[t.key] == t.value;
    assert forall v <- l :: Content(t)[v] == l[v];
    assert forall v <- r :: Content(t)[v] == r[v];
  }

  /** An id is in exactly one place of a tree. */
  lemma HoldsOnce(t: Tree<Id>, owner: map<Id, VReg>, id: Id)
    requires t.Node? && Ordered(t) && Owned(t, owner)
    ensures Holds(t, id) <==> t.value == id || Holds(t.left, id) || Holds(t.right, id)
    ensures !(t.value == id && Holds(t.left, id)) && !(t.value == id && Holds(t.right, id))
    ensures !(Holds(t.left, id) && Holds(t.right, id))
  {
    SubtreeOwned(t, owner);
    var l, r := Content(t.left), Content(t.right);
    JoinKeys(l, t.key, t.value, r);
    assert forall v <- l :: Content(t)[v] == l[v];
    assert forall v <- r :: Content(t)[v] == r[v];
    assert Content(t)[t.key] == t.value;
  }

  /** What counting a tree in (d == 1) or out (d == -1) makes of the cells. */
  ghost function Counted(cells: map<Id, Cell>, t: Tree<Id>, d: int): map<Id, Cell> {
    map id | id in cells :: cells[id].(refs := cells[id].refs + if Holds(t, id) then d else 0)
  }

  /** ... and with the cells gone whose count fell to zero. */
  ghost function Released(cells: map<Id, Cell>, t: Tree<Id>): map<Id, Cell> {
    map id | id in cells && !(Holds(t, id) && cells[id].refs <= 1) ::
      cells[id].(refs := cells[id].refs - if Holds(t, id) then 1 else 0)
  }

  lemma {:induction false} CountedNode(cells: map<Id, Cell>, t: Tree<Id>, owner: map<Id, VReg>, d: int)
    requires t.Node? && Ordered(t) && Owned(t, owner) && IdsIn(t, cells)
    ensures IdsIn(t.left, cells) && IdsIn(t.right, cells) && t.value in cells
    ensures var one := cells[t.value := cells[t.value].(refs := cells[t.value].refs + d)];
      Counted(Counted(one, t.left, d), t.right, d) == Counted(cells, t, d)
  {
    SubtreeIds(t, cells);
    forall id ensures Holds(t, id) <==> t.value == id || Holds(t.left, id) || Holds(t.right, id) {
      HoldsOnce(t, owner, id);
    }
    forall id ensures !(t.value == id && Holds(t.left, id)) && !(t.value == id && Holds(t.right, id))
      ensures !(Holds(t.left, id) && Holds(t.right, id))
    {
      HoldsOnce(t, owner, id);
    }
  }

  ghost predicate AllCounted(t: Tree<Id>, cells: map<Id, Cell>) {
    forall id {:trigger Holds(t, id)} | Holds(t, id) :: id in cells && cells[id].refs >= 1
  }

  /** The root's cell is untouched by releasing the subtrees. */
  lemma {:induction false} ReleasedNode(cells: map<Id, Cell>, t: Tree<Id>, owner: map<Id, VReg>)
    requires t.Node? && Ordered(t) && Owned(t, owner) && AllCounted(t, cells)
    ensures AllCounted(t.left, cells) && AllCounted(t.right, Released(cells, t.left))
    ensures var two := Released(Released(cells, t.left), t.right);
      && t.value in two && two[t.value] == cells[t.value] && cells[t.value].refs >= 1
      && Released(cells, t) ==
         if two[t.value].refs == 1 then two - {t.value}
         else two[t.value := two[t.value].(refs := two[t.value].refs - 1)]
  {
    forall id ensures Holds(t, id) <==> t.value == id || Holds(t.left, id) || Holds(t.right, id) {
      HoldsOnce(t, owner, id);
    }
    forall id ensures !(t.value == id && Holds(t.left, id)) && !(t.value == id && Holds(t.right, id))
      ensures !(Holds(t.left, id) && Holds(t.right, id))
    {
      HoldsOnce(t, owner, id);
    }
  }

  lemma HoldersUpdate(trees: seq<Tree<Id>>, i: nat, t: Tree<Id>, id: Id)
    requires i < |trees|
    ensures Holders(trees[i := t], id) == Holders(trees, id) - {i} + if Holds(t, id) then {i} else {}
  {
  }

  lemma HoldersCount(trees: seq<Tree<Id>>, i: nat, t: Tree<Id>, id: Id)
    requires i < |trees| && (trees[i] == Leaf || t == Leaf)
    ensures |Holders(trees[i := t], id)|
         == |Holders(trees, id)| - (if Holds(trees[i], id) then 1 else 0) + (if Holds(t, id) then 1 else 0)
  {
    HoldersUpdate(trees, i, t, id);
    assert !Holds(Leaf, id);
  }

  function RegsOf(args: seq<Arg>): set<VReg> {
    set k | 0 <= k < |args| && (args[k].Reg? || args[k].TReg?) :: args[k].reg
  }

  lemma RegsOfNext(args: seq<Arg>, i: nat)
    requires i < |args|
    ensures RegsOf(args[..i + 1]) == RegsOf(args[..i]) + ArgUse(args[i]) + ArgDef(args[i])
  {
    var a, b := args[..i], args[..i + 1];
    assert forall k | 0 <= k < i :: a[k] == b[k];
    assert b[i] == args[i];
  }

  lemma RegsOfThree(op: Op)
    ensures RegsOf([op.a1, op.a2, op.a3]) == Mentions(op)
  {
    var args := [op.a1, op.a2, op.a3];
    assert args[..0] == [] && args[..3] == args;
    RegsOfNext(args, 0);
    RegsOfNext(args, 1);
    RegsOfNext(args, 2);
  }

  // ---------- one round of the loop ----------

  ghost predicate TreeIn(t: Tree<Id>, cells: map<Id, Cell>, owner: map<Id, VReg>) {
    Llrb.Valid(t) && Owned(t, owner) && IdsIn(t, cells)
  }

  /** The trees' ids are cells, and every cell counts the trees that hold it. */
  ghost predicate CellsIn(trees: seq<Tree<Id>>, cells: map<Id, Cell>, owner: map<Id, VReg>, next: Id) {
    && (forall i {:trigger trees[i]} | 0 <= i < |trees| :: TreeIn(trees[i], cells, owner))
    && (forall id <- cells :: id < next && id in owner && cells[id].refs == |Holders(trees, id)|)
  }

  /** The cells from `first` on are the ones made in this round; the tree holds them, uncounted. */
  ghost predicate NewCells(t: Tree<Id>, cells: map<Id, Cell>, owner: map<Id, VReg>, touched: seq<VReg>, first: Id,
      next: Id) {
    && first <= next
    && (forall id <- cells :: id < first ==> cells[id].refs >= 1)
    && (forall id <- cells :: id >= first ==>
          id in owner && owner[id] in touched && owner[id] in Content(t) && Content(t)[owner[id]] == id)
  }

  ghost function TouchedAll(base: map<VReg, Hint>, regs: seq<VReg>, pos: int, ret: bool): map<VReg, Hint> {
    base + map v | v in regs :: Touched(base, v, pos, ret)
  }

  lemma TouchTree(t: Tree<Id>, cells: map<Id, Cell>, owner: map<Id, VReg>, reg: VReg, id: Id, c: Cell)
    requires TreeIn(t, cells, owner) && id !in cells
    ensures TreeIn(Insert(t, reg, id), cells[id := c], owner[id := reg])
  {
    InsertCorrect(t, reg, id);
  }

  lemma TouchCells(trees: seq<Tree<Id>>, cells: map<Id, Cell>, owner: map<Id, VReg>, reg: VReg, next: Id, c: Cell)
    requires CellsIn(trees, cells, owner, next) && c.refs == 0
    ensures CellsIn(trees, cells[next := c], owner[next := reg], next + 1)
  {
    forall i | 0 <= i < |trees|
      ensures TreeIn(trees[i], cells[next := c], owner[next := reg]) && !Holds(trees[i], next)
    {
      assert TreeIn(trees[i], cells, owner);
    }
    assert Holders(trees, next) == {};
  }

  lemma TouchNew(t: Tree<Id>, cells: map<Id, Cell>, owner: map<Id, VReg>, regs: seq<VReg>, n: nat, first: Id, next: Id,
      c: Cell)
    requires n < |regs| && regs[n] !in regs[..n] && TreeIn(t, cells, owner) && forall id <- cells :: id < next
    requires NewCells(t, cells, owner, regs[..n], first, next) && c.refs == 0
    ensures NewCells(Insert(t, regs[n], next), cells[next := c], owner[next := regs[n]], regs[..n + 1], first, next + 1)
  {
    InsertCorrect(t, regs[n], next);
    assert regs[..n + 1] == regs[..n] + [regs[n]];
  }

  lemma DerefInsert(t: Tree<Id>, cells: map<Id, Cell>, reg: VReg, id: Id, c: Cell)
    requires Llrb.Valid(t) && IdsIn(t, cells) && id !in cells
    ensures Deref(Insert(t, reg, id), cells[id := c]) == Deref(t, cells)[reg := c.hint]
  {
    var u, more := Insert(t, reg, id), cells[id := c];
    InsertCorrect(t, reg, id);
    assert IdsIn(u, more);
    DerefContent(t, cells);
    DerefContent(u, more);
    forall v | v in Deref(u, more) ensures Deref(u, more)[v] == Deref(t, cells)[reg := c.hint][v] {
      if v != reg { assert Content(u)[v] == Content(t)[v]; }
    }
  }

  lemma TouchedNext(base: map<VReg, Hint>, regs: seq<VReg>, n: nat, pos: int, ret: bool)
    requires n < |regs|
    ensures TouchedAll(base, regs[..n + 1], pos, ret)
         == TouchedAll(base, regs[..n], pos, ret)[regs[n] := Touched(base, regs[n], pos, ret)]
  {
    assert regs[..n + 1] == regs[..n] + [regs[n]];
  }

  lemma CloneTree(t: Tree<Id>, cells: map<Id, Cell>, owner: map<Id, VReg>)
    requires TreeIn(t, cells, owner)
    ensures TreeIn(Clone(t), cells, owner) && Deref(Clone(t), cells) == Deref(t, cells)
  {
    var c := Clone(t);
    CloneCorrect(t);
    assert Content(c) == Content(t);
    SameDeref(c, t, cells);
  }

  lemma SameDeref(c: Tree<Id>, t: Tree<Id>, cells: map<Id, Cell>)
    requires Ordered(c) && Ordered(t) && Content(c) == Content(t) && IdsIn(t, cells)
    ensures Deref(c, cells) == Deref(t, cells)
  {
    var a, b := Deref(t, cells), Deref(c, cells);
    DerefContent(t, cells);
    DerefContent(c, cells);
    SameMap(a, b);
  }

  lemma SameMap(a: map<VReg, Hint>, b: map<VReg, Hint>)
    requires a.Keys == b.Keys && forall v <- a :: a[v] == b[v]
    ensures a == b
  {
    forall v ensures v in a <==> v in b {
      assert v in a.Keys <==> v in b.Keys;
    }
    forall v | v in a ensures a[v] == b[v] {}
  }

  lemma TouchedMentions(base: map<VReg, Hint>, regs: seq<VReg>, op: Op, pos: int)
    requires forall v :: v in regs <==> v in Mentions(op)
    ensures TouchedAll(base, [], pos, op.code.RET?) == base
    ensures TouchedAll(base, regs, pos, op.code.RET?)
         == base + map v | v in Mentions(op) :: Touched(base, v, pos, op.code.RET?)
  {
  }

  lemma NothingTouched(t: Tree<Id>, cells: map<Id, Cell>, owner: map<Id, VReg>, trees: seq<Tree<Id>>, next: Id)
    requires CellsIn(trees, cells, owner, next) && forall id <- cells :: cells[id].refs >= 1
    ensures NewCells(t, cells, owner, [], next, next)
  {
  }

  lemma TouchedHeld(t: Tree<Id>, cells: map<Id, Cell>, owner: map<Id, VReg>, regs: seq<VReg>, first: Id, next: Id)
    requires NewCells(t, cells, owner, regs, first, next)
    ensures forall id <- cells :: cells[id].refs >= 1 || Holds(t, id)
  {
    forall id | id in cells && id >= first ensures Holds(t, id) {
      var v := owner[id];
      assert v in Content(t) && Content(t)[v] == id;
    }
  }

  // ---------- what all rounds keep ----------

  ghost predicate KeepsHints(cells: map<Id, Cell>, more: map<Id, Cell>) {
    forall id <- cells :: id in more && more[id].hint == cells[id].hint
  }

  lemma {:induction false} DerefKept(t: Tree<Id>, cells: map<Id, Cell>, more: map<Id, Cell>)
    requires Ordered(t) && IdsIn(t, cells) && KeepsHints(cells, more)
    ensures Deref(t, more) == Deref(t, cells)
  {
    if t.Node? {
      SubtreeIds(t, cells);
      DerefKept(t.left, cells, more);
      DerefKept(t.right, cells, more);
    }
  }

  /** From op i on, the trees say what the hints are. */
  ghost predicate TreesSay(trees: seq<Tree<Id>>, cells: map<Id, Cell>, p: seq<Op>, i: nat) {
    && |trees| == |p|
    && forall k: nat {:trigger trees[k]} | i <= k < |p| :: Deref(trees[k], cells) == HintsAt(p, k)
  }

  lemma TreesSayKept(trees: seq<Tree<Id>>, cells: map<Id, Cell>, more: map<Id, Cell>, p: seq<Op>, i: nat,
                     owner: map<Id, VReg>, next: Id)
    requires TreesSay(trees, cells, p, i) && CellsIn(trees, cells, owner, next) && KeepsHints(cells, more)
    ensures TreesSay(trees, more, p, i)
  {
    forall k: nat | i <= k < |p| ensures Deref(trees[k], more) == HintsAt(p, k) {
      assert TreeIn(trees[k], cells, owner);
      DerefKept(trees[k], cells, more);
    }
  }

  /** The tree of op i, counted in. */
  lemma CountedIn(trees: seq<Tree<Id>>, i: nat, t: Tree<Id>, cells: map<Id, Cell>, owner: map<Id, VReg>, next: Id)
    requires i < |trees| && trees[i] == Leaf && CellsIn(trees, cells, owner, next) && TreeIn(t, cells, owner)
    requires forall id <- cells :: cells[id].refs >= 1 || Holds(t, id)
    ensures CellsIn(trees[i := t], Counted(cells, t, 1), owner, next)
    ensures forall id <- Counted(cells, t, 1) :: Counted(cells, t, 1)[id].refs >= 1
    ensures KeepsHints(cells, Counted(cells, t, 1))
  {
    var more, us := Counted(cells, t, 1), trees[i := t];
    forall k | 0 <= k < |us| ensures TreeIn(us[k], more, owner) {
      assert TreeIn(trees[k], cells, owner);
    }
    forall id | id in more ensures more[id].refs == |Holders(us, id)| && more[id].refs >= 1 {
      HoldersCount(trees, i, t, id);
      assert !Holds(Leaf, id);
    }
  }

  /** From op i on the ops have their hints, the others are as they were. */
  ghost predicate CollectedIn(ops: seq<Op>, trees: seq<Tree<Id>>, cells: map<Id, Cell>, p: seq<Op>, i: nat)
    requires i <= |p|
  {
    && |ops| == |p| && TreesSay(trees, cells, p, i)
    && (forall k {:trigger ops[k]} | 0 <= k < i :: ops[k] == p[k])
    && (forall k {:trigger trees[k]} | 0 <= k < i :: trees[k] == Leaf)
    && (forall k: nat {:trigger ops[k]} | i <= k < |p| :: ops[k] == p[k].(pos := PosAt(p, k), hints := HintsAt(p, k)))
  }

  /** One more op, whose tree is counted in. */
  lemma {:induction false} CollectedNext(ops: seq<Op>, trees: seq<Tree<Id>>, cells: map<Id, Cell>, p: seq<Op>, i: nat,
      t: Tree<Id>, op: Op, owner: map<Id, VReg>, next: Id)
    requires i < |p| && CollectedIn(ops, trees, cells, p, i + 1)
    requires TreeIn(t, cells, owner) && CellsIn(trees, cells, owner, next) && Deref(t, cells) == HintsAt(p, i)
    requires op == p[i].(pos := PosAt(p, i), hints := HintsAt(p, i))
    requires forall id <- cells :: cells[id].refs >= 1 || Holds(t, id)
    ensures var more := Counted(cells, t, 1);
      && CellsIn(trees[i := t], more, owner, next) && (forall id <- more :: more[id].refs >= 1)
      && CollectedIn(ops[i := op], trees[i := t], more, p, i)
  {
    var more := Counted(cells, t, 1);
    CountedIn(trees, i, t, cells, owner, next);
    TreesSayKept(trees, cells, more, p, i + 1, owner, next);
    DerefKept(t, cells, more);
  }

  /** The ops with their hint trees, and the cells the trees share. */
  class HintTable {
    var ops: seq<Op>
    var trees: seq<Tree<Id>>
    var cells: map<Id, Cell>
    var next: Id
    ghost var owner: map<Id, VReg>

    /** Reference counts are exact: a cell's count is the number of op trees holding it. */
    ghost predicate Valid()
      reads this
    {
      |trees| == |ops| && CellsIn(trees, cells, owner, next) && forall id <- cells :: cells[id].refs >= 1
    }

    constructor (p: seq<Op>)
      ensures Valid() && ops == p && cells == map[] && fresh(this)
      ensures forall i | 0 <= i < |p| :: trees[i] == Leaf
    {
      ops, trees, cells, next, owner := p, seq(|p|, _ => Leaf), map[], 0, map[];
    }

    method IncreaseRefs(t: Tree<Id>)
      requires Ordered(t) && Owned(t, owner) && IdsIn(t, cells)
      modifies this`cells
      ensures cells == Counted(old(cells), t, 1)
      decreases t
    {
      if t.Node? {
        CountedNode(cells, t, owner, 1);
        SubtreeOwned(t, owner);
        cells := cells[t.value := cells[t.value].(refs := cells[t.value].refs + 1)];
        IncreaseRefs(t.left);
        IncreaseRefs(t.right);
      } else {
        assert cells == Counted(cells, t, 1);
      }
    }

    /** jit_allocator_hints_free: no cell is touched after it is freed. */
    method FreeTree(t: Tree<Id>)
      requires Ordered(t) && Owned(t, owner) && AllCounted(t, cells)
      modifies this`cells
      ensures cells == Released(old(cells), t)
      decreases t
    {
      if t.Node? {
        ReleasedNode(cells, t, owner);
        SubtreeOwned(t, owner);
        FreeTree(t.left);
        FreeTree(t.right);
        var c := cells[t.value].(refs := cells[t.value].refs - 1);
        if c.refs == 0 {
          cells := cells - {t.value};
        } else {
          cells := cells[t.value := c];
        }
      } else {
        assert cells == Released(cells, t);
      }
    }

    lemma HeldCounted(i: nat)
      requires Valid() && i < |trees|
      ensures AllCounted(trees[i], cells)
    {
      forall id | Holds(trees[i], id) ensures id in cells && cells[id].refs >= 1 {
        assert id in cells;
      }
    }

    /** Freeing one op's tree takes back its references and frees exactly the cells no other tree holds. */
    method FreeOp(i: nat)
      requires Valid() && i < |trees|
      modifies this`cells, this`trees
      ensures Valid() && trees == old(trees)[i := Leaf]
      ensures cells.Keys == set id | id in old(cells) && Holders(trees, id) != {}
      ensures forall id <- cells :: cells[id].hint == old(cells)[id].hint
    {
      HeldCounted(i);
      FreeTree(trees[i]);
      FreedCounts(i, old(cells));
      trees := trees[i := Leaf];
      forall k | 0 <= k < |trees| ensures IdsIn(trees[k], cells) {
        StillHeld(k, old(cells));
      }
    }

    lemma StillHeld(k: nat, was: map<Id, Cell>)
      requires k < |trees| && IdsIn(trees[k], was)
      requires cells.Keys == set id | id in was && Holders(trees, id) != {}
      ensures IdsIn(trees[k], cells)
    {
      forall v | v in Content(trees[k]) ensures Content(trees[k])[v] in cells {
        var id := Content(trees[k])[v];
        assert Holds(trees[k], id) && k in Holders(trees, id);
      }
    }

    lemma FreedCounts(i: nat, was: map<Id, Cell>)
      requires i < |trees| && cells == Released(was, trees[i])
      requires forall id <- was :: was[id].refs == |Holders(trees, id)| >= 1
      ensures forall id <- cells :: cells[id].refs == |Holders(trees[i := Leaf], id)| >= 1
      ensures cells.Keys == set id | id in was && Holders(trees[i := Leaf], id) != {}
    {
      forall id | id in was
        ensures |Holders(trees[i := Leaf], id)| == was[id].refs - if Holds(trees[i], id) then 1 else 0
      {
        HoldersCount(trees, i, Leaf, id);
        assert !Holds(Leaf, id);
      }
    }

    /** Freeing every op's tree once, in any order, frees every cell. */
    method FreeAll(order: seq<nat>)
      requires Valid() && forall k | 0 <= k < |order| :: order[k] < |trees|
      requires forall i: nat | i < |trees| :: i in order
      requires forall i, j | 0 <= i < j < |order| :: order[i] != order[j]
      modifies this`cells, this`trees
      ensures cells.Keys == {}
    {
      for k := 0 to |order|
        invariant Valid() && |trees| == |old(trees)|
        invariant forall j | 0 <= j < k :: trees[order[j]] == Leaf
      {
        FreeOp(order[k]);
      }
      forall i: nat | i < |trees| ensures trees[i] == Leaf {
        assert i in order;
        var k :| 0 <= k < |order| && order[k] == i;
      }
      NobodyHolds();
    }

    lemma NobodyHolds()
      requires Valid() && forall i | 0 <= i < |trees| :: trees[i] == Leaf
      ensures cells.Keys == {}
    {
      forall id ensures id !in cells.Keys {
        assert id in cells ==> |Holders(trees, id)| >= 1;
        assert !Holds(Leaf, id);
        assert Holders(trees, id) == {};
      }
    }

    /** The registers the op mentions, each once. */
    method FoundRegs(op: Op) returns (regs: seq<VReg>)
      ensures forall v :: v in regs <==> v in Mentions(op)
      ensures forall i, j | 0 <= i < j < |regs| :: regs[i] != regs[j]
    {
      regs := [];
      var args := [op.a1, op.a2, op.a3];
      for i := 0 to 3
        invariant forall v :: v in regs <==> v in RegsOf(args[..i])
        invariant forall i, j | 0 <= i < j < |regs| :: regs[i] != regs[j]
      {
        if args[i].Reg? || args[i].TReg? {
          var reg, found := args[i].reg, false;
          for j := 0 to |regs|
            invariant !found && reg !in regs[..j]
          {
            if regs[j] == reg {
              found := true;
              break;
            }
          }
          assert found <==> reg in regs;
          if !found { regs := regs + [reg]; }
        }
        RegsOfNext(args, i);
      }
      RegsOfThree(op);
      assert args[..3] == args;
    }

    /** A new cell for one mentioned register, put in place of the one the tree had. */
    method Touch(t: Tree<Id>, ghost base: map<VReg, Hint>, regs: seq<VReg>, n: nat, ghost first: Id, pos: int,
        ret: bool)
      returns (t': Tree<Id>)
      requires n < |regs| && regs[n] !in regs[..n]
      requires TreeIn(t, cells, owner) && CellsIn(trees, cells, owner, next)
        && NewCells(t, cells, owner, regs[..n], first, next)
      requires Deref(t, cells) == TouchedAll(base, regs[..n], pos, ret)
      modifies this`cells, this`next, this`owner
      ensures TreeIn(t', cells, owner) && CellsIn(trees, cells, owner, next)
      ensures NewCells(t', cells, owner, regs[..n + 1], first, next)
      ensures Deref(t', cells) == TouchedAll(base, regs[..n + 1], pos, ret)
      ensures KeepsHints(old(cells), cells)
    {
      var reg := regs[n];
      var found := Search(t, reg);
      SearchFinds(t, reg);
      DerefContent(t, cells);
      var h := if found.Node? then cells[found.value].hint else Hint(0, 0, 0);
      h := h.(lastPos := pos);
      if ret {
        h := h.(eax := h.eax + 1);
      }
      assert h == Touched(base, reg, pos, ret);
      TouchTree(t, cells, owner, reg, next, Cell(h, 0));
      TouchCells(trees, cells, owner, reg, next, Cell(h, 0));
      TouchNew(t, cells, owner, regs, n, first, next, Cell(h, 0));
      DerefInsert(t, cells, reg, next, Cell(h, 0));
      TouchedNext(base, regs, n, pos, ret);
      cells := cells[next := Cell(h, 0)];
      owner := owner[next := reg];
      t' := Insert(t, reg, next);
      next := next + 1;
    }

    /** The op's tree, made from the tree of the op behind it. */
    method MakeTree(op: Op, last: Tree<Id>, ghost base: map<VReg, Hint>, pos: int) returns (t: Tree<Id>)
      requires TreeIn(last, cells, owner) && CellsIn(trees, cells, owner, next) && Deref(last, cells) == base
      requires forall id <- cells :: cells[id].refs >= 1
      modifies this`cells, this`next, this`owner
      ensures TreeIn(t, cells, owner) && CellsIn(trees, cells, owner, next)
      ensures forall id <- cells :: cells[id].refs >= 1 || Holds(t, id)
      ensures KeepsHints(old(cells), cells)
      ensures Deref(t, cells) == base + map v | v in Mentions(op) :: Touched(base, v, pos, op.code.RET?)
    {
      t := Clone(last);
      CloneTree(last, cells, owner);
      var regs := FoundRegs(op);
      TouchedMentions(base, regs, op, pos);
      t := TouchAll(t, base, regs, pos, op.code.RET?);
    }

    /** A new hint for each of the registers. */
    method TouchAll(t0: Tree<Id>, ghost base: map<VReg, Hint>, regs: seq<VReg>, pos: int, ret: bool)
        returns (t: Tree<Id>)
      requires forall i, j | 0 <= i < j < |regs| :: regs[i] != regs[j]
      requires TreeIn(t0, cells, owner) && CellsIn(trees, cells, owner, next)
        && Deref(t0, cells) == TouchedAll(base, [], pos, ret)
      requires forall id <- cells :: cells[id].refs >= 1
      modifies this`cells, this`next, this`owner
      ensures TreeIn(t, cells, owner) && CellsIn(trees, cells, owner, next)
      ensures forall id <- cells :: cells[id].refs >= 1 || Holds(t, id)
      ensures KeepsHints(old(cells), cells)
      ensures Deref(t, cells) == TouchedAll(base, regs, pos, ret)
    {
      t := t0;
      ghost var first := next;
      assert regs[..0] == [];
      NothingTouched(t, cells, owner, trees, next);
      for n := 0 to |regs|
        invariant TreeIn(t, cells, owner) && CellsIn(trees, cells, owner, next)
        invariant NewCells(t, cells, owner, regs[..n], first, next) && KeepsHints(old(cells), cells)
        invariant Deref(t, cells) == TouchedAll(base, regs[..n], pos, ret)
      {
        t := Touch(t, base, regs, n, first, pos, ret);
      }
      assert regs[..|regs|] == regs;
      TouchedHeld(t, cells, owner, regs, first, next);
    }

    /** Before round i: the ops from i on have their hints, the others are as they were. */
    ghost predicate Collected(p: seq<Op>, i: nat)
      requires i <= |p|
      reads this
    {
      CollectedIn(ops, trees, cells, p, i)
    }

    method Record(ghost p: seq<Op>, i: nat, t: Tree<Id>, pos: int)
      requires i < |p| && Collected(p, i + 1)
      requires TreeIn(t, cells, owner) && CellsIn(trees, cells, owner, next)
      requires forall id <- cells :: cells[id].refs >= 1 || Holds(t, id)
      requires pos == PosAt(p, i) && Deref(t, cells) == HintsAt(p, i)
      modifies this`cells, this`trees, this`ops
      ensures Valid() && Collected(p, i) && trees[i] == t
    {
      var op := ops[i].(pos := pos, hints := Deref(t, cells));
      CountIn(p, i, t, op);
      trees := trees[i := t];
      ops := ops[i := op];
    }

    /** The tree of op i is counted in. */
    method CountIn(ghost p: seq<Op>, i: nat, t: Tree<Id>, ghost op: Op)
      requires i < |p| && Collected(p, i + 1)
      requires TreeIn(t, cells, owner) && CellsIn(trees, cells, owner, next)
      requires forall id <- cells :: cells[id].refs >= 1 || Holds(t, id)
      requires Deref(t, cells) == HintsAt(p, i) && op == p[i].(pos := PosAt(p, i), hints := HintsAt(p, i))
      modifies this`cells
      ensures CellsIn(trees[i := t], cells, owner, next) && forall id <- cells :: cells[id].refs >= 1
      ensures CollectedIn(ops[i := op], trees[i := t], cells, p, i)
    {
      CollectedNext(ops, trees, cells, p, i, t, op, owner, next);
      IncreaseRefs(t);
    }

    /** From the last op to the first. */
    method CollectStatistics()
      requires Valid() && cells == map[] && forall i | 0 <= i < |trees| :: trees[i] == Leaf
      modifies this
      ensures Valid() && Collected(old(ops), 0)
    {
      ghost var p := ops;
      var last: Tree<Id>, opsFromReturn := Leaf, 0;
      for i := |ops| downto 0
        invariant |ops| == |p| && Valid() && Collected(p, i)
        invariant TreeIn(last, cells, owner)
        invariant i > 0 ==> Deref(last, cells) == Later(p, i - 1) && opsFromReturn == PosAt(p, i - 1)
      {
        ghost var was := cells;
        var t := MakeTree(ops[i], last, Later(p, i), opsFromReturn);
        TreesSayKept(trees, was, cells, p, i + 1, owner, next);
        Record(p, i, t, opsFromReturn);
        if ops[i].code.PROLOG? {
          last, opsFromReturn := Leaf, 0;
        } else {
          last, opsFromReturn := t, opsFromReturn + 1;
        }
      }
    }
  }
}
