/** The left-leaning red-black tree of llrb.c on values: every function takes the branches
    of the C function of the same name.  `LlrbHeap` proves the in-place code against them. */
module Llrb {

  datatype Tree<V> = Leaf | Node(left: Tree<V>, red: bool, key: int, value: V, right: Tree<V>)

  // ---------- what a tree stands for, and when it is well formed ----------

  ghost function Content<V>(t: Tree<V>): map<int, V> {
    match t
    case Leaf => map[]
    case Node(l, _, k, v, r) => Join(Content(l), k, v, Content(r))
  }

  ghost predicate Ordered<V>(t: Tree<V>) {
    match t
    case Leaf => true
    case Node(l, _, k, _, r) =>
      Ordered(l) && Ordered(r) && AllBelow(Content(l), k) && AllAbove(k, Content(r))
  }

  ghost function Join<V>(l: map<int, V>, k: int, v: V, r: map<int, V>): map<int, V> {
    (l + r)[k := v]
  }

  ghost predicate AllBelow<V>(m: map<int, V>, k: int) {
    forall x <- m :: x < k
  }

  ghost predicate AllAbove<V>(k: int, m: map<int, V>) {
    forall x <- m :: k < x
  }

  lemma JoinKeys<V>(l: map<int, V>, k: int, v: V, r: map<int, V>)
    ensures k in Join(l, k, v, r)
    ensures forall x <- l :: x in Join(l, k, v, r)
    ensures forall x <- r :: x in Join(l, k, v, r)
  {
  }

  /** Every path from the root to a leaf meets `n` black nodes. */
  ghost predicate Balanced<V>(t: Tree<V>, n: int) {
    match t
    case Leaf => n == 0
    case Node(l, red, _, _, r) =>
      var m := if red then n else n - 1;
      Balanced(l, m) && Balanced(r, m)
  }

  ghost function BlackHeight<V>(t: Tree<V>): nat {
    match t
    case Leaf => 0
    case Node(l, red, _, _, _) => BlackHeight(l) + if red then 0 else 1
  }

  predicate IsRed<V>(t: Tree<V>) {
    t.Node? && t.red
  }

  /** No red right link and no two red links in a row. */
  ghost predicate Lean<V>(t: Tree<V>) {
    match t
    case Leaf => true
    case Node(l, red, _, _, r) => !IsRed(r) && !(red && IsRed(l)) && Lean(l) && Lean(r)
  }

  /** As `Lean`, except that the root and its left child may both be red. */
  ghost predicate AlmostLean<V>(t: Tree<V>) {
    t.Node? ==> !IsRed(t.right) && Lean(t.left) && Lean(t.right)
  }

  ghost predicate Valid<V>(t: Tree<V>) {
    Ordered(t) && Lean(t) && !IsRed(t) && Balanced(t, BlackHeight(t))
  }

  // ---------- rotations and colour flips ----------

  function RotateLeft<V>(h: Tree<V>): Tree<V>
    requires h.Node? && h.right.Node?
  {
    var x := h.right;
    Node(Node(h.left, true, h.key, h.value, x.left), h.red, x.key, x.value, x.right)
  }

  function RotateRight<V>(h: Tree<V>): Tree<V>
    requires h.Node? && h.left.Node?
  {
    var x := h.left;
    Node(x.left, h.red, x.key, x.value, Node(x.right, true, h.key, h.value, h.right))
  }

  function ColorFlip<V>(h: Tree<V>): Tree<V>
    requires h.Node? && h.left.Node? && h.right.Node?
  {
    Node(h.left.(red := !h.left.red), !h.red, h.key, h.value, h.right.(red := !h.right.red))
  }

  function Fixup1<V>(h: Tree<V>): (r: Tree<V>)
    requires h.Node?
    ensures r.Node?
  {
    if IsRed(h.right) then RotateLeft(h) else h
  }

  function Fixup2<V>(h: Tree<V>): (r: Tree<V>)
    requires h.Node?
    ensures r.Node?
  {
    if IsRed(h.left) && IsRed(h.left.left) then ColorFlip(RotateRight(h)) else h
  }

  function Fixup3<V>(h: Tree<V>): (r: Tree<V>)
    requires h.Node?
    ensures r.Node?
  {
    if IsRed(h.left) && IsRed(h.right) then ColorFlip(h) else h
  }

  function Fixup<V>(h: Tree<V>): (r: Tree<V>)
    requires h.Node?
    ensures r.Node?
  {
    Fixup3(Fixup2(Fixup1(h)))
  }

  ghost predicate SameEntries<V>(t: Tree<V>, u: Tree<V>) {
    Ordered(u) && Content(t) == Content(u)
  }

  lemma Regroup<V>(a: map<int, V>, x: int, v: V, b: map<int, V>, y: int, w: V, c: map<int, V>)
    requires AllBelow(a, x) && AllAbove(x, b) && AllBelow(b, y) && AllAbove(y, c) && x < y
    ensures Join(a, x, v, Join(b, y, w, c)) == Join(Join(a, x, v, b), y, w, c)
    ensures AllAbove(x, Join(b, y, w, c)) && AllBelow(Join(a, x, v, b), y)
  {
  }

  lemma RotateLeftEntries<V>(h: Tree<V>)
    requires h.Node? && h.right.Node? && Ordered(h)
    ensures SameEntries(h, RotateLeft(h))
  {
    var x := h.right;
    JoinKeys(Content(x.left), x.key, x.value, Content(x.right));
    Regroup(Content(h.left), h.key, h.value, Content(x.left), x.key, x.value, Content(x.right));
  }

  lemma RotateRightEntries<V>(h: Tree<V>)
    requires h.Node? && h.left.Node? && Ordered(h)
    ensures SameEntries(h, RotateRight(h))
  {
    var x := h.left;
    JoinKeys(Content(x.left), x.key, x.value, Content(x.right));
    Regroup(Content(x.left), x.key, x.value, Content(x.right), h.key, h.value, Content(h.right));
  }

  lemma ColorFlipEntries<V>(h: Tree<V>)
    requires h.Node? && h.left.Node? && h.right.Node? && Ordered(h)
    ensures SameEntries(h, ColorFlip(h))
  {
  }

  lemma FixupEntries<V>(h: Tree<V>)
    requires h.Node? && Ordered(h)
    ensures SameEntries(h, Fixup(h))
  {
    if IsRed(h.right) { RotateLeftEntries(h); }
    var a := Fixup1(h);
    if IsRed(a.left) && IsRed(a.left.left) {
      RotateRightEntries(a);
      ColorFlipEntries(RotateRight(a));
    }
    var b := Fixup2(a);
    if IsRed(b.left) && IsRed(b.right) { ColorFlipEntries(b); }
  }

  // ---------- search ----------

  function Search<V>(t: Tree<V>, key: int): Tree<V> {
    if t.Leaf? || t.key == key then t
    else if t.key > key then Search(t.left, key)
    else Search(t.right, key)
  }

  lemma {:induction false} SearchFinds<V>(t: Tree<V>, key: int)
    requires Ordered(t)
    ensures Search(t, key).Node? <==> key in Content(t)
    ensures key in Content(t) ==> Search(t, key).key == key && Search(t, key).value == Content(t)[key]
  {
    if t.Node? {
      SearchFinds(t.left, key);
      SearchFinds(t.right, key);
    }
  }

  // ---------- insertion ----------

  function Split<V>(h: Tree<V>): (r: Tree<V>)
    requires h.Node?
    ensures r.Node? && Depth(r.left) == Depth(h.left) && Depth(r.right) == Depth(h.right)
  {
    if IsRed(h.left) && IsRed(h.right) then ColorFlip(h) else h
  }

  ghost function Depth<V>(t: Tree<V>): nat {
    match t
    case Leaf => 0
    case Node(l, _, _, _, r) => 1 + if Depth(l) < Depth(r) then Depth(r) else Depth(l)
  }

  function NodeInsert<V>(h: Tree<V>, key: int, value: V): (r: Tree<V>)
    ensures r.Node?
    decreases Depth(h)
  {
    if h.Leaf? then Node(Leaf, true, key, value, Leaf)
    else
      var g := Split(h);
      if g.key == key then Fixup(g.(value := value))
      else if g.key > key then Fixup(g.(left := NodeInsert(g.left, key, value)))
      else Fixup(g.(right := NodeInsert(g.right, key, value)))
  }

  function Insert<V>(t: Tree<V>, key: int, value: V): (r: Tree<V>)
    ensures r.Node?
  {
    var r := NodeInsert(t, key, value);
    r.(red := false)
  }

  /** A red-red pair can surface only at the root, and only below a root that was red:
      the fixup of the black parent repairs it. */
  lemma {:induction false} NodeInsertShape<V>(h: Tree<V>, n: int, key: int, value: V)
    requires Lean(h) && Balanced(h, n)
    ensures Balanced(NodeInsert(h, key, value), n)
    ensures AlmostLean(NodeInsert(h, key, value))
    ensures !IsRed(h) ==> Lean(NodeInsert(h, key, value)) || h.Leaf?
    ensures !IsRed(h) && IsRed(NodeInsert(h, key, value)) ==> !IsRed(NodeInsert(h, key, value).left)
  {
    if h.Node? {
      var m := if h.red then n else n - 1;
      if h.key > key {
        NodeInsertShape(h.left, m, key, value);
      } else if h.key < key {
        NodeInsertShape(h.right, m, key, value);
      }
    }
  }

  lemma PutLeft<V>(l: map<int, V>, k: int, v: V, r: map<int, V>, key: int, value: V)
    requires key < k && AllBelow(l, k) && AllAbove(k, r)
    ensures Join(l[key := value], k, v, r) == Join(l, k, v, r)[key := value]
    ensures AllBelow(l[key := value], k)
  {
  }

  lemma PutRight<V>(l: map<int, V>, k: int, v: V, r: map<int, V>, key: int, value: V)
    requires k < key && AllBelow(l, k) && AllAbove(k, r)
    ensures Join(l, k, v, r[key := value]) == Join(l, k, v, r)[key := value]
    ensures AllAbove(k, r[key := value])
  {
  }

  lemma {:induction false} NodeInsertContent<V>(h: Tree<V>, key: int, value: V)
    requires Ordered(h) && Lean(h)
    ensures Ordered(NodeInsert(h, key, value))
    ensures Content(NodeInsert(h, key, value)) == Content(h)[key := value]
  {
    if h.Node? {
      var l, r := Content(h.left), Content(h.right);
      if h.key == key {
        FixupEntries(h.(value := value));
      } else if h.key > key {
        NodeInsertContent(h.left, key, value);
        PutLeft(l, h.key, h.value, r, key, value);
        FixupEntries(h.(left := NodeInsert(h.left, key, value)));
      } else {
        NodeInsertContent(h.right, key, value);
        PutRight(l, h.key, h.value, r, key, value);
        FixupEntries(h.(right := NodeInsert(h.right, key, value)));
      }
    }
  }

  lemma Blacken<V>(t: Tree<V>, n: int)
    requires t.Node? && Ordered(t) && AlmostLean(t) && Balanced(t, n)
    ensures Valid(t.(red := false)) && Content(t.(red := false)) == Content(t)
  {
    var b := t.(red := false);
    var m := if t.red then n + 1 else n;
    assert Balanced(b, m);
    BalancedIsBlackHeight(b, m);
  }

  lemma {:induction false} BalancedIsBlackHeight<V>(t: Tree<V>, n: int)
    requires Balanced(t, n)
    ensures BlackHeight(t) == n
  {
    if t.Node? {
      BalancedIsBlackHeight(t.left, if t.red then n else n - 1);
    }
  }

  /** rb_insert: a valid tree stays valid and stands for the old map updated at the key. */
  lemma InsertCorrect<V>(t: Tree<V>, key: int, value: V)
    requires Valid(t)
    ensures Valid(Insert(t, key, value))
    ensures Content(Insert(t, key, value)) == Content(t)[key := value]
  {
    NodeInsertShape(t, BlackHeight(t), key, value);
    NodeInsertContent(t, key, value);
    Blacken(NodeInsert(t, key, value), BlackHeight(t));
  }

  // ---------- deletion ----------

  /** What the recursive deletion needs of the node it enters: the node and its two
      children hold exactly one red node.  A valid root need not satisfy this. */
  ghost predicate OneRed<V>(h: Tree<V>) {
    && h.Node? && Lean(h.left) && Lean(h.right)
    && (if h.red then !IsRed(h.left) && !IsRed(h.right) else IsRed(h.left) != IsRed(h.right))
  }

  /** A black node with two black children: the root case the C code does not redden first. */
  ghost predicate AllBlack<V>(h: Tree<V>) {
    h.Node? && Lean(h.left) && Lean(h.right) && !h.red && !IsRed(h.left) && !IsRed(h.right)
  }

  function MoveRedLeft<V>(h: Tree<V>): (r: Tree<V>)
    requires h.Node? && h.left.Node? && h.right.Node?
    ensures r.Node?
  {
    var f := ColorFlip(h);
    if IsRed(f.right.left) then
      ColorFlip(RotateLeft(f.(right := RotateRight(f.right))))
    else f
  }

  function MoveRedRight<V>(h: Tree<V>): (r: Tree<V>)
    requires h.Node? && h.left.Node? && h.right.Node?
    ensures r.Node?
  {
    var f := ColorFlip(h);
    if IsRed(f.left.left) then ColorFlip(RotateRight(f)) else f
  }

  function NodeMin<V>(t: Tree<V>): int
    requires t.Node?
  {
    if t.left.Leaf? then t.key else NodeMin(t.left)
  }

  /** The node that deletion recurses under when the key lies to the left. */
  function LeftStep<V>(h: Tree<V>): (r: Tree<V>)
    requires h.Node?
    requires h.left.Node? && !IsRed(h.left) && !IsRed(h.left.left) ==> h.right.Node?
    ensures r.Node?
  {
    if !IsRed(h.left) && h.left.Node? && !IsRed(h.left.left) then MoveRedLeft(h) else h
  }

  function LeanRight<V>(h: Tree<V>): (r: Tree<V>)
    requires h.Node?
    ensures r.Node?
  {
    if IsRed(h.left) then RotateRight(h) else h
  }

  /** The node that deletion recurses under when the key lies to the right or here. */
  function RightStep<V>(h: Tree<V>): (r: Tree<V>)
    requires h.Node?
    requires !IsRed(h.right) && h.right.Node? && !IsRed(h.right.left) ==> h.left.Node?
    ensures r.Node?
  {
    if !IsRed(h.right) && h.right.Node? && !IsRed(h.right.left) then MoveRedRight(h) else h
  }


  ghost function Size<V>(t: Tree<V>): nat {
    match t
    case Leaf => 0
    case Node(l, _, _, _, r) => Size(l) + 1 + Size(r)
  }

  lemma MoveRedLeftEntries<V>(h: Tree<V>)
    requires h.Node? && h.left.Node? && h.right.Node? && Ordered(h)
    ensures SameEntries(h, MoveRedLeft(h)) && h.key <= MoveRedLeft(h).key
  {
    var f := ColorFlip(h);
    ColorFlipEntries(h);
    if IsRed(f.right.left) {
      RotateRightEntries(f.right);
      var g := f.(right := RotateRight(f.right));
      assert g.right.key in Content(g.right);
      RotateLeftEntries(g);
      ColorFlipEntries(RotateLeft(g));
    }
  }

  lemma MoveRedRightEntries<V>(h: Tree<V>)
    requires h.Node? && h.left.Node? && h.right.Node? && Ordered(h)
    ensures SameEntries(h, MoveRedRight(h)) && MoveRedRight(h).key <= h.key
    ensures MoveRedRight(h).key == h.key || MoveRedRight(h).key == h.left.key < h.key
  {
    var f := ColorFlip(h);
    ColorFlipEntries(h);
    if IsRed(f.left.left) {
      assert f.left.key in Content(f.left);
      RotateRightEntries(f);
      ColorFlipEntries(RotateRight(f));
    }
  }

  /** The steps before a recursive call rearrange the node but keep its entries. */
  lemma LeftStepEntries<V>(h: Tree<V>)
    requires h.Node? && Ordered(h)
    requires h.left.Node? && !IsRed(h.left) && !IsRed(h.left.left) ==> h.right.Node?
    ensures SameEntries(h, LeftStep(h)) && h.key <= LeftStep(h).key
  {
    if h.left.Node? && h.right.Node? { MoveRedLeftEntries(h); }
  }

  lemma LeanRightEntries<V>(h: Tree<V>)
    requires h.Node? && Ordered(h)
    ensures SameEntries(h, LeanRight(h))
    ensures if IsRed(h.left) then LeanRight(h).key == h.left.key < h.key else LeanRight(h) == h
  {
    if IsRed(h.left) {
      assert h.left.key in Content(h.left);
      RotateRightEntries(h);
    }
  }

  lemma RightStepEntries<V>(h: Tree<V>)
    requires h.Node? && Ordered(h)
    requires !IsRed(h.right) && h.right.Node? && !IsRed(h.right.left) ==> h.left.Node?
    ensures SameEntries(h, RightStep(h))
    ensures RightStep(h).key == h.key || (h.left.Node? && RightStep(h).key == h.left.key < h.key)
  {
    if h.left.Node? && h.right.Node? { MoveRedRightEntries(h); }
  }

  lemma FlipSize<V>(h: Tree<V>)
    requires h.Node? && h.left.Node? && h.right.Node?
    ensures Size(ColorFlip(h)) == Size(h)
  {
    assert Size(h.left.(red := !h.left.red)) == Size(h.left);
    assert Size(h.right.(red := !h.right.red)) == Size(h.right);
  }

  lemma RotateSize<V>(h: Tree<V>)
    requires h.Node?
    ensures h.left.Node? ==> Size(RotateRight(h)) == Size(h)
    ensures h.right.Node? ==> Size(RotateLeft(h)) == Size(h)
  {
  }

  lemma StepSize<V>(h: Tree<V>)
    requires h.Node?
    ensures Size(LeanRight(h)) == Size(h)
    ensures h.left.Node? && h.right.Node? ==> Size(MoveRedLeft(h)) == Size(MoveRedRight(h)) == Size(h)
  {
    RotateSize(h);
    if h.left.Node? && h.right.Node? {
      FlipSize(h);
      var f := ColorFlip(h);
      if IsRed(f.right.left) {
        RotateSize(f.right);
        var g := f.(right := RotateRight(f.right));
        assert Size(g) == Size(f);
        RotateSize(g);
        FlipSize(RotateLeft(g));
      }
      if IsRed(f.left.left) {
        RotateSize(f);
        FlipSize(RotateRight(f));
      }
    }
  }

  lemma {:induction false} NodeMinIsLeast<V>(t: Tree<V>)
    requires t.Node? && Ordered(t)
    ensures NodeMin(t) in Content(t)
    ensures forall k <- Content(t) :: NodeMin(t) <= k
  {
    JoinKeys(Content(t.left), t.key, t.value, Content(t.right));
    if t.left.Node? { NodeMinIsLeast(t.left); }
  }

  /** What deletion may be called on: an absent subtree, a node with one red among it and its
      children (a red right child only when the key is not to the left), or an all-black root. */
  ghost predicate Deletable<V>(h: Tree<V>, key: int) {
    h.Leaf? || AllBlack(h) || (OneRed(h) && (IsRed(h.right) ==> h.key <= key))
  }

  /** The black height after a step: flipping an all-black root red removes two. */
  ghost function HeightAfter<V>(h: Tree<V>, s: Tree<V>, n: int): int {
    if AllBlack(h) && IsRed(s) then n - 2 else n
  }

  ghost function ChildHeight<V>(s: Tree<V>, n: int): int {
    if IsRed(s) then n else n - 1
  }

  /** Below the root deletion keeps the black height; at an all-black root it may also
      leave a red-red pair at the top, or nothing. */
  ghost predicate Deleted<V>(h: Tree<V>, r: Tree<V>, n: int) {
    || (Lean(r) && Balanced(r, n) && (!AllBlack(h) && !IsRed(h) ==> !IsRed(r)))
    || (AllBlack(h) && AlmostLean(r) && IsRed(r) && Balanced(r, n - 2))
    || (AllBlack(h) && r.Leaf? && n == 1)
  }

  /** The facts about a node two levels down that the step lemmas need. */
  lemma Unfold<V>(h: Tree<V>, n: int)
    requires h.Node? && Lean(h.left) && Lean(h.right) && Balanced(h, n)
    ensures var m := ChildHeight(h, n);
      && m >= 0
      && (h.left.Node? ==> Lean(h.left.left) && Lean(h.left.right) && !IsRed(h.left.right)
                           && (h.left.red ==> !IsRed(h.left.left))
                           && Balanced(h.left.left, ChildHeight(h.left, m))
                           && Balanced(h.left.right, ChildHeight(h.left, m)))
      && (h.right.Node? ==> Lean(h.right.left) && Lean(h.right.right) && !IsRed(h.right.right)
                            && (h.right.red ==> !IsRed(h.right.left))
                            && Balanced(h.right.left, ChildHeight(h.right, m))
                            && Balanced(h.right.right, ChildHeight(h.right, m)))
      && (h.left.Node? && !h.left.red ==> m >= 1) && (h.right.Node? && !h.right.red ==> m >= 1)
      && (h.left.Leaf? ==> m == 0) && (h.right.Leaf? ==> m == 0)
  {
    var m := ChildHeight(h, n);
    BalancedIsBlackHeight(h.left, m);
    BalancedIsBlackHeight(h.right, m);
  }

  /** Fixup on lean subtrees of equal height: lean again, except a red pair at a red root. */
  lemma FixupShape<V>(h: Tree<V>, n: int)
    requires h.Node? && Lean(h.left) && Lean(h.right) && Balanced(h, n)
    ensures AlmostLean(Fixup(h))
    ensures !h.red || IsRed(h.left) == IsRed(h.right) ==> Lean(Fixup(h))
    ensures h.red && IsRed(h.left) != IsRed(h.right) ==> IsRed(Fixup(h))
    ensures Balanced(Fixup(h), if h.red && IsRed(h.left) && IsRed(h.right) then n + 2 else n)
  {
    Unfold(h, n);
  }

  lemma LeftStepShape<V>(h: Tree<V>, n: int, key: int)
    requires Balanced(h, n) && h.Node? && h.left.Node? && key < h.key && Deletable(h, key)
    ensures !IsRed(h.left) ==> h.right.Node?
    ensures var s := LeftStep(h);
      && OneRed(s.left) && !IsRed(s.left.right)
      && Balanced(s, HeightAfter(h, s, n))
  {
    Unfold(h, n);
    if !IsRed(h.left) && !IsRed(h.left.left) {
      var f := ColorFlip(h);
      if IsRed(f.right.left) {
        var x := f.right.left;
        assert Lean(x.left) && Lean(x.right);
        var g := RotateLeft(f.(right := RotateRight(f.right)));
        assert g == Node(Node(f.left, true, h.key, h.value, x.left), f.red, x.key, x.value,
          Node(x.right, true, h.right.key, h.right.value, h.right.right));
      }
    }
  }

  lemma LeftStepFixed<V>(h: Tree<V>, n: int, key: int, l: Tree<V>)
    requires Balanced(h, n) && h.Node? && h.left.Node? && key < h.key && Deletable(h, key)
    requires !IsRed(h.left) ==> h.right.Node?
    requires Lean(l) && (IsRed(l) ==> IsRed(LeftStep(h).left))
    requires Balanced(l, ChildHeight(LeftStep(h), HeightAfter(h, LeftStep(h), n)))
    ensures Deleted(h, Fixup(LeftStep(h).(left := l)), n)
  {
    Unfold(h, n);
    LeftStepShape(h, n, key);
    var s := LeftStep(h);
    FixupShape(s.(left := l), HeightAfter(h, s, n));
  }

  lemma RightStepShape<V>(h: Tree<V>, n: int, key: int)
    requires Balanced(h, n) && h.Node? && h.key <= key && Deletable(h, key) && LeanRight(h).right.Node?
    ensures var g := LeanRight(h); IsRed(g.right) || g.left.Node?
    ensures var s := RightStep(LeanRight(h));
      && OneRed(s.right) && Balanced(s, HeightAfter(h, s, n))
      && (IsRed(s.right.right) ==> h.left.Node? && s.key == h.left.key && s.right.key == h.key)
  {
    Unfold(h, n);
  }

  lemma RightStepFixed<V>(h: Tree<V>, n: int, key: int, k: int, v: V, r: Tree<V>)
    requires Balanced(h, n) && h.Node? && h.key <= key && Deletable(h, key) && LeanRight(h).right.Node?
    requires var g := LeanRight(h); IsRed(g.right) || g.left.Node?
    requires Lean(r) && (IsRed(r) ==> IsRed(RightStep(LeanRight(h)).right))
    requires Balanced(r, ChildHeight(RightStep(LeanRight(h)), HeightAfter(h, RightStep(LeanRight(h)), n)))
    ensures Deleted(h, Fixup(RightStep(LeanRight(h)).(key := k, value := v, right := r)), n)
  {
    Unfold(h, n);
    RightStepShape(h, n, key);
    var s := RightStep(LeanRight(h));
    FixupShape(s.(key := k, value := v, right := r), HeightAfter(h, s, n));
  }

  /** Every path to a leaf meets as many black nodes as the leftmost one. */
  ghost predicate Level<V>(t: Tree<V>) {
    Balanced(t, BlackHeight(t))
  }

  /** The child that deletion recurses into is level again, of the height that is left. */
  lemma StepLevel<V>(h: Tree<V>, s: Tree<V>)
    requires Level(h) && s.Node? && Balanced(s, HeightAfter(h, s, BlackHeight(h)))
    ensures var m := ChildHeight(s, HeightAfter(h, s, BlackHeight(h)));
      && BlackHeight(s.left) == BlackHeight(s.right) == m && Level(s.left) && Level(s.right)
  {
    var m := ChildHeight(s, HeightAfter(h, s, BlackHeight(h)));
    BalancedIsBlackHeight(s.left, m);
    BalancedIsBlackHeight(s.right, m);
  }

  function DeleteMin<V>(h: Tree<V>): (r: Tree<V>)
    requires OneRed(h) && !IsRed(h.right) && Level(h)
    ensures Deleted(h, r, BlackHeight(h))
    decreases Size(h)
  {
    if h.left.Leaf? then Leaf
    else
      LeftStepShape(h, BlackHeight(h), h.key - 1);
      StepSize(h);
      StepLevel(h, LeftStep(h));
      var l := DeleteMin(LeftStep(h).left);
      LeftStepFixed(h, BlackHeight(h), h.key - 1, l);
      Fixup(LeftStep(h).(left := l))
  }

  /** Going right, the stepped node is not above the key, and if it holds the key its right
      child can be entered by `DeleteMin`. */
  lemma RightStepKeys<V>(h: Tree<V>, n: int, key: int)
    requires Balanced(h, n) && Ordered(h) && h.Node? && h.key <= key && Deletable(h, key)
    requires LeanRight(h).right.Node?
    ensures var g := LeanRight(h); IsRed(g.right) || g.left.Node?
    ensures SameEntries(h, RightStep(LeanRight(h))) && RightStep(LeanRight(h)).key <= key
    ensures Size(RightStep(LeanRight(h))) == Size(h)
    ensures Deletable(RightStep(LeanRight(h)).right, key)
    ensures RightStep(LeanRight(h)).key == key ==> !IsRed(RightStep(LeanRight(h)).right.right)
  {
    RightStepShape(h, n, key);
    LeanRightEntries(h);
    RightStepEntries(LeanRight(h));
    StepSize(h);
    StepSize(LeanRight(h));
    if h.left.Node? { assert h.left.key in Content(h.left); }
  }

  /** Deletion may go on below a step to the left, ... */
  lemma LeftReady<V>(h: Tree<V>, key: int)
    requires Ordered(h) && Level(h) && Deletable(h, key) && h.Node? && h.left.Node? && key < h.key
    ensures !IsRed(h.left) ==> h.right.Node?
    ensures var g := LeftStep(h);
      && Ordered(g) && Content(g) == Content(h) && h.key <= g.key
      && Level(g.left) && Deletable(g.left, key) && Size(g) == Size(h)
  {
    LeftStepShape(h, BlackHeight(h), key);
    LeftStepEntries(h);
    StepSize(h);
    StepLevel(h, LeftStep(h));
  }

  /** ... and what comes back makes the node right again. */
  lemma LeftDone<V>(h: Tree<V>, key: int, l: Tree<V>)
    requires Level(h) && Deletable(h, key) && h.Node? && h.left.Node? && key < h.key
    requires !IsRed(h.left) ==> h.right.Node?
    requires Deleted(LeftStep(h).left, l, BlackHeight(LeftStep(h).left))
    ensures Deleted(h, Fixup(LeftStep(h).(left := l)), BlackHeight(h))
  {
    LeftStepShape(h, BlackHeight(h), key);
    StepLevel(h, LeftStep(h));
    LeftStepFixed(h, BlackHeight(h), key, l);
  }

  lemma RightReady<V>(h: Tree<V>, key: int)
    requires Ordered(h) && Level(h) && h.Node? && h.key <= key && Deletable(h, key) && LeanRight(h).right.Node?
    ensures var g := LeanRight(h); IsRed(g.right) || g.left.Node?
    ensures var s := RightStep(LeanRight(h));
      && Ordered(s) && Content(s) == Content(h) && s.key <= key && Size(s) == Size(h)
      && Level(s.right) && Deletable(s.right, key) && OneRed(s.right)
      && (s.key == key ==> !IsRed(s.right.right))
  {
    RightStepShape(h, BlackHeight(h), key);
    RightStepKeys(h, BlackHeight(h), key);
    StepLevel(h, RightStep(LeanRight(h)));
  }

  lemma RightDone<V>(h: Tree<V>, key: int, k: int, v: V, r: Tree<V>)
    requires Level(h) && h.Node? && h.key <= key && Deletable(h, key) && LeanRight(h).right.Node?
    requires var g := LeanRight(h); IsRed(g.right) || g.left.Node?
    requires var s := RightStep(LeanRight(h)); Deleted(s.right, r, BlackHeight(s.right))
    ensures Deleted(h, Fixup(RightStep(LeanRight(h)).(key := k, value := v, right := r)), BlackHeight(h))
  {
    RightStepShape(h, BlackHeight(h), key);
    StepLevel(h, RightStep(LeanRight(h)));
    RightStepFixed(h, BlackHeight(h), key, k, v, r);
  }

  /** delete_node: the new subtree, and whether the key was found. */
  function DeleteNode<V>(h: Tree<V>, key: int): (r: (Tree<V>, bool))
    requires Ordered(h) && Level(h) && Deletable(h, key)
    ensures Deleted(h, r.0, BlackHeight(h))
    decreases Size(h)
  {
    if h.Leaf? then (Leaf, false)
    else if key < h.key then
      if h.left.Leaf? then (Fixup(h), false)
      else
        LeftReady(h, key);
        var d := DeleteNode(LeftStep(h).left, key);
        LeftDone(h, key, d.0);
        (Fixup(LeftStep(h).(left := d.0)), d.1)
    else
      Unfold(h, BlackHeight(h));
      var g := LeanRight(h);
      if key == g.key && g.right.Leaf? then (Leaf, true)
      else if g.right.Leaf? then (Fixup(g), false)
      else
        RightReady(h, key);
        var s := RightStep(g);
        if key == s.key then
          var r := DeleteMin(s.right);
          var least := NodeMin(s.right);
          NodeMinIsLeast(s.right);
          SearchFinds(s.right, least);
          RightDone(h, key, least, Search(s.right, least).value, r);
          (Fixup(s.(key := least, value := Search(s.right, least).value, right := r)), true)
        else
          var d := DeleteNode(s.right, key);
          RightDone(h, key, s.key, s.value, d.0);
          (Fixup(s.(right := d.0)), d.1)
  }

  function Delete<V>(t: Tree<V>, key: int): (r: (Tree<V>, bool))
    requires Valid(t)
  {
    var d := DeleteNode(t, key);
    (if d.0.Node? then d.0.(red := false) else Leaf, d.1)
  }

  lemma CutLeft<V>(l: map<int, V>, k: int, v: V, r: map<int, V>, key: int)
    requires key < k && AllBelow(l, k) && AllAbove(k, r)
    ensures Join(l - {key}, k, v, r) == Join(l, k, v, r) - {key}
    ensures AllBelow(l - {key}, k)
  {
  }

  lemma CutRight<V>(l: map<int, V>, k: int, v: V, r: map<int, V>, key: int)
    requires k < key && AllBelow(l, k) && AllAbove(k, r)
    ensures Join(l, k, v, r - {key}) == Join(l, k, v, r) - {key}
    ensures AllAbove(k, r - {key})
  {
  }

  lemma CutHere<V>(l: map<int, V>, k: int, v: V, r: map<int, V>, least: int)
    requires AllBelow(l, k) && AllAbove(k, r) && least in r && (forall x <- r :: least <= x)
    ensures Join(l, least, r[least], r - {least}) == Join(l, k, v, r) - {k}
    ensures AllBelow(l, least) && AllAbove(least, r - {least})
  {
  }

  lemma {:induction false} DeleteMinContent<V>(h: Tree<V>)
    requires OneRed(h) && !IsRed(h.right) && Level(h) && Ordered(h)
    ensures Ordered(DeleteMin(h))
    ensures Content(DeleteMin(h)) == Content(h) - {NodeMin(h)}
    decreases Size(h)
  {
    Unfold(h, BlackHeight(h));
    NodeMinIsLeast(h);
    if h.left.Node? {
      LeftStepShape(h, BlackHeight(h), h.key - 1);
      LeftStepEntries(h);
      StepSize(h);
      var s := LeftStep(h);
      StepLevel(h, s);
      DeleteMinContent(s.left);
      NodeMinIsLeast(s.left);
      JoinKeys(Content(s.left), s.key, s.value, Content(s.right));
      assert NodeMin(s.left) == NodeMin(h);
      CutLeft(Content(s.left), s.key, s.value, Content(s.right), NodeMin(h));
      FixupEntries(s.(left := DeleteMin(s.left)));
    }
  }

  lemma {:induction false} DeleteNodeContent<V>(h: Tree<V>, key: int)
    requires Ordered(h) && Level(h) && Deletable(h, key)
    ensures Ordered(DeleteNode(h, key).0)
    ensures Content(DeleteNode(h, key).0) == Content(h) - {key}
    ensures DeleteNode(h, key).1 <==> key in Content(h)
    decreases Size(h), 1
  {
    if h.Node? {
      if key < h.key {
        if h.left.Leaf? {
          FixupEntries(h);
        } else {
          LeftReady(h, key);
          DeleteLeftContent(LeftStep(h), key);
        }
      } else {
        Unfold(h, BlackHeight(h));
        var g := LeanRight(h);
        LeanRightEntries(h);
        if g.right.Leaf? {
          FixupEntries(g);
        } else {
          RightReady(h, key);
          DeleteRightContent(RightStep(g), key);
        }
      }
    }
  }

  /** The part of `DeleteNodeContent` after the step to the left. */
  lemma DeleteLeftContent<V>(s: Tree<V>, key: int)
    requires s.Node? && Ordered(s) && key < s.key && Level(s.left) && Deletable(s.left, key)
    ensures
      var d := DeleteNode(s.left, key);
      var f := Fixup(s.(left := d.0));
      Ordered(f) && Content(f) == Content(s) - {key} && (d.1 <==> key in Content(s))
    decreases Size(s), 0
  {
    DeleteNodeContent(s.left, key);
    CutLeft(Content(s.left), s.key, s.value, Content(s.right), key);
    FixupEntries(s.(left := DeleteNode(s.left, key).0));
  }

  /** The part of `DeleteNodeContent` after the step to the right. */
  lemma DeleteRightContent<V>(s: Tree<V>, key: int)
    requires s.Node? && Ordered(s) && s.key <= key && s.right.Node?
    requires Level(s.right) && Deletable(s.right, key) && OneRed(s.right)
    requires s.key == key ==> !IsRed(s.right.right)
    ensures s.key == key ==>
      var least := NodeMin(s.right);
      && Search(s.right, least).Node?
      && var f := Fixup(s.(key := least, value := Search(s.right, least).value, right := DeleteMin(s.right)));
         Ordered(f) && Content(f) == Content(s) - {key}
    ensures s.key < key ==>
      var d := DeleteNode(s.right, key);
      var f := Fixup(s.(right := d.0));
      Ordered(f) && Content(f) == Content(s) - {key} && (d.1 <==> key in Content(s))
    decreases Size(s), 0
  {
    var l, r := Content(s.left), Content(s.right);
    if key == s.key {
      var least := NodeMin(s.right);
      NodeMinIsLeast(s.right);
      SearchFinds(s.right, least);
      DeleteMinContent(s.right);
      CutHere(l, s.key, s.value, r, least);
      FixupEntries(s.(key := least, value := r[least], right := DeleteMin(s.right)));
    } else {
      DeleteNodeContent(s.right, key);
      CutRight(l, s.key, s.value, r, key);
      FixupEntries(s.(right := DeleteNode(s.right, key).0));
    }
  }

  /** rb_delete: from any valid tree, for present and absent keys alike, a valid tree that
      stands for the old map without the key; the flag says whether the key was there. */
  lemma {:induction false} DeleteCorrect<V>(t: Tree<V>, key: int)
    requires Valid(t)
    ensures Valid(Delete(t, key).0)
    ensures Content(Delete(t, key).0) == Content(t) - {key}
    ensures Delete(t, key).1 <==> key in Content(t)
  {
    var n: int := BlackHeight(t);
    DeleteNodeContent(t, key);
    var d := DeleteNode(t, key).0;
    if d.Node? {
      Blacken(d, if Balanced(d, n) then n else n - 2);
    }
  }

  // ---------- whole-tree operations ----------

  function AddAll<V>(target: Tree<V>, t: Tree<V>): Tree<V>
    decreases t
  {
    if t.Leaf? then target
    else AddAll(Insert(AddAll(target, t.left), t.key, t.value), t.right)
  }

  function Clone<V>(t: Tree<V>): Tree<V> {
    AddAll(Leaf, t)
  }

  lemma UnionJoin<V>(m: map<int, V>, l: map<int, V>, k: int, v: V, r: map<int, V>)
    requires AllAbove(k, r)
    ensures (m + l)[k := v] + r == m + Join(l, k, v, r)
  {
  }

  /** rb_addall: the union, the entries of the added tree winning. */
  lemma {:induction false} AddAllCorrect<V>(target: Tree<V>, t: Tree<V>)
    requires Valid(target) && Ordered(t)
    ensures Valid(AddAll(target, t))
    ensures Content(AddAll(target, t)) == Content(target) + Content(t)
    decreases t
  {
    if t.Node? {
      var a := AddAll(target, t.left);
      AddAllCorrect(target, t.left);
      InsertCorrect(a, t.key, t.value);
      AddAllCorrect(Insert(a, t.key, t.value), t.right);
      UnionJoin(Content(target), Content(t.left), t.key, t.value, Content(t.right));
    }
  }

  lemma CloneCorrect<V>(t: Tree<V>)
    requires Ordered(t)
    ensures Valid(Clone(t)) && Content(Clone(t)) == Content(t)
  {
    AddAllCorrect(Leaf, t);
  }

  predicate Subset<V, W>(root: Tree<V>, t: Tree<W>) {
    t.Leaf? || (Search(root, t.key).Node? && Subset(root, t.left) && Subset(root, t.right))
  }

  /** rb_subset and rb_equal compare keys only, as sets. */
  lemma {:induction false} SubsetCorrect<V, W>(root: Tree<V>, t: Tree<W>)
    requires Ordered(root) && Ordered(t)
    ensures Subset(root, t) <==> Content(t).Keys <= Content(root).Keys
  {
    if t.Node? {
      SubsetCorrect(root, t.left);
      SubsetCorrect(root, t.right);
      SearchFinds(root, t.key);
      JoinKeys(Content(t.left), t.key, t.value, Content(t.right));
      assert Content(t).Keys == Content(t.left).Keys + {t.key} + Content(t.right).Keys;
    }
  }

  predicate Equal<V, W>(t: Tree<V>, u: Tree<W>) {
    Subset(t, u) && Subset(u, t)
  }

  lemma EqualCorrect<V, W>(t: Tree<V>, u: Tree<W>)
    requires Ordered(t) && Ordered(u)
    ensures Equal(t, u) <==> Content(t).Keys == Content(u).Keys
  {
    SubsetCorrect(t, u);
    SubsetCorrect(u, t);
  }

  // ---------- search depth ----------

  /** How many nodes a search for the key looks at. */
  ghost function SearchSteps<V>(t: Tree<V>, key: int): nat {
    if t.Leaf? then 0
    else if t.key == key then 1
    else if t.key > key then 1 + SearchSteps(t.left, key)
    else 1 + SearchSteps(t.right, key)
  }

  ghost function Pow2(n: nat): nat {
    if n == 0 then 1 else 2 * Pow2(n - 1)
  }

  lemma {:induction false} Pow2Monotone(m: nat, n: nat)
    requires m <= n
    ensures Pow2(m) <= Pow2(n)
  {
    if m < n { Pow2Monotone(m, n - 1); }
  }

  lemma {:induction false} StepsAndSize<V>(t: Tree<V>, n: nat, key: int)
    requires Lean(t) && Balanced(t, n)
    ensures SearchSteps(t, key) <= 2 * n + if IsRed(t) then 1 else 0
    ensures Pow2(n) <= Size(t) + 1
  {
    if t.Node? {
      var m := if t.red then n else n - 1;
      BalancedIsBlackHeight(t.left, m);
      StepsAndSize(t.left, m, key);
      StepsAndSize(t.right, m, key);
    }
  }

  /** A search in a valid tree of s nodes looks at no more than 2 * log2(s + 1) of them. */
  lemma SearchIsLogarithmic<V>(t: Tree<V>, key: int)
    requires Valid(t)
    ensures Pow2((SearchSteps(t, key) + 1) / 2) <= Size(t) + 1
  {
    StepsAndSize(t, BlackHeight(t), key);
    Pow2Monotone((SearchSteps(t, key) + 1) / 2, BlackHeight(t));
  }
}
