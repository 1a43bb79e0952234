/** The tree of llrb.c in place: nodes that are relinked, recoloured and freed, against the tree
    on values. */
module LlrbHeap {
  import Llrb

  class RbNode {
    var left: RbNode?
    var right: RbNode?
    var red: bool
    var key: int
    var value: int

    /** node_new */
    constructor (key: int, value: int)
      ensures this.key == key && this.value == value && red && left == null && right == null
    {
      this.key, this.value, red := key, value, true;
      left, right := null, null;
    }
  }

  // ---------- linked nodes and the tree they stand for ----------

  /** Which nodes make up a tree, and how they hang together. */
  datatype Shape = Nil | At(left: Shape, node: RbNode, right: Shape)

  ghost function Nodes(s: Shape): set<RbNode> {
    match s
    case Nil => {}
    case At(l, x, r) => Nodes(l) + {x} + Nodes(r)
  }

  /** The nodes reached from n have this shape, none occurs twice, and they stand for the tree t. */
  ghost predicate Stands(n: RbNode?, s: Shape, t: Llrb.Tree<int>)
    reads Nodes(s)
    decreases s
  {
    match s
    case Nil => n == null && t.Leaf?
    case At(l, x, r) =>
      && n == x && t.Node? && t.red == x.red && t.key == x.key && t.value == x.value
      && x !in Nodes(l) && x !in Nodes(r) && Nodes(l) !! Nodes(r)
      && Stands(x.left, l, t.left) && Stands(x.right, r, t.right)
  }

  /** Both children of a tree are trees, apart from each other and from the root. */
  lemma Open(n: RbNode?, s: Shape, t: Llrb.Tree<int>)
    requires Stands(n, s, t) && n != null
    ensures t.Node? && s.At? && n == s.node && t.red == n.red && t.key == n.key && t.value == n.value
    ensures Nodes(s) == Nodes(s.left) + {n} + Nodes(s.right)
    ensures n !in Nodes(s.left) && n !in Nodes(s.right) && Nodes(s.left) !! Nodes(s.right)
    ensures Stands(n.left, s.left, t.left) && Stands(n.right, s.right, t.right)
    ensures allocated(Nodes(s.left)) && allocated(Nodes(s.right))
    ensures (n.left != null <==> t.left.Node?) && (n.right != null <==> t.right.Node?)
    ensures IsRed(n.left) == Llrb.IsRed(t.left) && IsRed(n.right) == Llrb.IsRed(t.right)
  {
  }

  /** A node over two trees that are apart. */
  lemma Close(n: RbNode, l: Shape, r: Shape, t: Llrb.Tree<int>, u: Llrb.Tree<int>)
    requires n !in Nodes(l) && n !in Nodes(r) && Nodes(l) !! Nodes(r)
    requires Stands(n.left, l, t) && Stands(n.right, r, u)
    ensures Stands(n, At(l, n, r), Llrb.Node(t, n.red, n.key, n.value, u))
    ensures Nodes(At(l, n, r)) == Nodes(l) + {n} + Nodes(r)
  {
  }

  function IsRed(n: RbNode?): bool
    reads n
  {
    n != null && n.red
  }

  /** The nodes of a tree that is at hand are allocated. */
  lemma InHeap(s: Shape)
    requires allocated(s)
    ensures allocated(Nodes(s))
  {
  }

  // ---------- rotations and colour flips ----------

  method RotateLeft(h: RbNode, ghost s: Shape, ghost t: Llrb.Tree<int>) returns (x: RbNode, ghost u: Shape)
    requires Stands(h, s, t) && t.Node? && t.right.Node?
    modifies h, h.right
    ensures Stands(x, u, Llrb.RotateLeft(t)) && Nodes(u) == Nodes(s)
  {
    Open(h, s, t);
    Open(h.right, s.right, t.right);
    x := h.right;
    h.right := x.left;
    x.left := h;
    x.red := h.red;
    h.red := true;
    ghost var (a, b, c) := (s.left, s.right.left, s.right.right);
    Close(h, a, b, t.left, t.right.left);
    Close(x, At(a, h, b), c, Llrb.RotateLeft(t).left, t.right.right);
    u := At(At(a, h, b), x, c);
  }

  method RotateRight(h: RbNode, ghost s: Shape, ghost t: Llrb.Tree<int>) returns (x: RbNode, ghost u: Shape)
    requires Stands(h, s, t) && t.Node? && t.left.Node?
    modifies h, h.left
    ensures Stands(x, u, Llrb.RotateRight(t)) && Nodes(u) == Nodes(s)
  {
    Open(h, s, t);
    Open(h.left, s.left, t.left);
    x := h.left;
    h.left := x.right;
    x.right := h;
    x.red := h.red;
    h.red := true;
    ghost var (a, b, c) := (s.left.left, s.left.right, s.right);
    Close(h, b, c, t.left.right, t.right);
    Close(x, a, At(b, h, c), t.left.left, Llrb.RotateRight(t).right);
    u := At(a, x, At(b, h, c));
  }

  method FlipNode(n: RbNode, ghost s: Shape, ghost t: Llrb.Tree<int>)
    requires Stands(n, s, t) && t.Node?
    modifies n`red
    ensures Stands(n, s, t.(red := !t.red))
  {
    Open(n, s, t);
    n.red := !n.red;
    Close(n, s.left, s.right, t.left, t.right);
  }

  method FlipLeft(h: RbNode, ghost s: Shape, ghost t: Llrb.Tree<int>)
    requires Stands(h, s, t) && t.Node? && t.left.Node?
    modifies Nodes(s)
    ensures Stands(h, s, t.(left := t.left.(red := !t.left.red)))
  {
    Open(h, s, t);
    FlipNode(h.left, s.left, t.left);
    Close(h, s.left, s.right, t.left.(red := !t.left.red), t.right);
  }

  method FlipRight(h: RbNode, ghost s: Shape, ghost t: Llrb.Tree<int>)
    requires Stands(h, s, t) && t.Node? && t.right.Node?
    modifies Nodes(s)
    ensures Stands(h, s, t.(right := t.right.(red := !t.right.red)))
  {
    Open(h, s, t);
    FlipNode(h.right, s.right, t.right);
    Close(h, s.left, s.right, t.left, t.right.(red := !t.right.red));
  }

  method ColorFlip(h: RbNode, ghost s: Shape, ghost t: Llrb.Tree<int>)
    requires Stands(h, s, t) && t.Node? && t.left.Node? && t.right.Node?
    modifies Nodes(s)
    ensures Stands(h, s, Llrb.ColorFlip(t))
  {
    ghost var flipped := t.(red := !t.red);
    Open(h, s, t);
    FlipNode(h, s, t);
    FlipLeft(h, s, flipped);
    FlipRight(h, s, flipped.(left := t.left.(red := !t.left.red)));
  }

  // ---------- fixup ----------

  method Fixup1(h: RbNode, ghost s: Shape, ghost t: Llrb.Tree<int>) returns (x: RbNode, ghost u: Shape)
    requires Stands(h, s, t) && t.Node?
    modifies Nodes(s)
    ensures Stands(x, u, Llrb.Fixup1(t)) && Nodes(u) == Nodes(s)
  {
    x, u := h, s;
    Open(h, s, t);
    if IsRed(h.right) {
      x, u := RotateLeft(h, s, t);
    }
  }

  method Fixup2(h: RbNode, ghost s: Shape, ghost t: Llrb.Tree<int>) returns (x: RbNode, ghost u: Shape)
    requires Stands(h, s, t) && t.Node?
    modifies Nodes(s)
    ensures Stands(x, u, Llrb.Fixup2(t)) && Nodes(u) == Nodes(s)
  {
    x, u := h, s;
    Open(h, s, t);
    if IsRed(h.left) {
      Open(h.left, s.left, t.left);
      if IsRed(h.left.left) {
        x, u := RotateRight(h, s, t);
        ColorFlip(x, u, Llrb.RotateRight(t));
      }
    }
  }

  /** Flips the colours of a node over two red children: the last step of fixup, and the first
      step of node_insert. */
  method FlipRedChildren(h: RbNode, ghost s: Shape, ghost t: Llrb.Tree<int>)
    requires Stands(h, s, t) && t.Node?
    modifies Nodes(s)
    ensures Stands(h, s, Llrb.Fixup3(t))
  {
    Open(h, s, t);
    if IsRed(h.left) && IsRed(h.right) {
      ColorFlip(h, s, t);
    }
  }

  method Fixup(h: RbNode, ghost s: Shape, ghost t: Llrb.Tree<int>) returns (x: RbNode, ghost u: Shape)
    requires Stands(h, s, t) && t.Node?
    modifies Nodes(s)
    ensures Stands(x, u, Llrb.Fixup(t)) && Nodes(u) == Nodes(s)
  {
    x, u := Fixup1(h, s, t);
    x, u := Fixup2(x, u, Llrb.Fixup1(t));
    FlipRedChildren(x, u, Llrb.Fixup2(Llrb.Fixup1(t)));
  }

  // ---------- search and insertion ----------

  method Search(h: RbNode?, key: int, ghost s: Shape, ghost t: Llrb.Tree<int>) returns (n: RbNode?)
    requires Stands(h, s, t)
    ensures n == null <==> Llrb.Search(t, key).Leaf?
    ensures n != null ==> n in Nodes(s) && n.key == key && n.value == Llrb.Search(t, key).value
    decreases s
  {
    if h == null || h.key == key {
      return h;
    }
    Open(h, s, t);
    if h.key > key {
      n := Search(h.left, key, s.left, t.left);
    } else {
      n := Search(h.right, key, s.right, t.right);
    }
  }

  /** Gives a node the left subtree that a recursive call returned. */
  method SetLeft(h: RbNode, l: RbNode?, ghost sl: Shape, ghost tl: Llrb.Tree<int>, ghost s: Shape,
      ghost t: Llrb.Tree<int>)
    returns (ghost u: Shape)
    requires t.Node? && s.At? && h == s.node && h.red == t.red && h.key == t.key && h.value == t.value
    requires Stands(h.right, s.right, t.right) && h !in Nodes(s.right)
    requires Stands(l, sl, tl) && h !in Nodes(sl) && Nodes(sl) !! Nodes(s.right)
    modifies h`left
    ensures Stands(h, u, t.(left := tl)) && Nodes(u) == Nodes(sl) + {h} + Nodes(s.right)
  {
    h.left := l;
    u := At(sl, h, s.right);
    Close(h, sl, s.right, tl, t.right);
  }

  method SetRight(h: RbNode, r: RbNode?, ghost sr: Shape, ghost tr: Llrb.Tree<int>, ghost s: Shape,
      ghost t: Llrb.Tree<int>)
    returns (ghost u: Shape)
    requires t.Node? && s.At? && h == s.node && h.red == t.red && h.key == t.key && h.value == t.value
    requires Stands(h.left, s.left, t.left) && h !in Nodes(s.left)
    requires Stands(r, sr, tr) && h !in Nodes(sr) && Nodes(s.left) !! Nodes(sr)
    modifies h`right
    ensures Stands(h, u, t.(right := tr)) && Nodes(u) == Nodes(s.left) + {h} + Nodes(sr)
  {
    h.right := r;
    u := At(s.left, h, sr);
    Close(h, s.left, sr, t.left, tr);
  }

  /** The keys of the tree, as a search meets them. */
  ghost predicate Has(t: Llrb.Tree<int>, key: int) {
    Llrb.Search(t, key).Node?
  }

  lemma RecolorHas(t: Llrb.Tree<int>, red: bool, key: int)
    requires t.Node?
    ensures Has(t.(red := red), key) <==> Has(t, key)
  {
  }

  lemma SplitHas(t: Llrb.Tree<int>, key: int)
    requires t.Node?
    ensures Has(Llrb.Split(t), key) <==> Has(t, key)
  {
    if t.left.Node? { RecolorHas(t.left, !t.left.red, key); }
    if t.right.Node? { RecolorHas(t.right, !t.right.red, key); }
  }

  method NodeInsert(h: RbNode?, key: int, value: int, ghost s: Shape, ghost t: Llrb.Tree<int>)
    returns (x: RbNode, found: bool, ghost u: Shape)
    requires Stands(h, s, t)
    modifies Nodes(s)
    ensures Stands(x, u, Llrb.NodeInsert(t, key, value)) && (forall n <- Nodes(u) :: n in Nodes(s) || fresh(n))
    ensures found <==> Has(t, key)
    decreases s, 1
  {
    if h == null {
      x := new RbNode(key, value);
      u := At(Nil, x, Nil);
      found := false;
      Close(x, Nil, Nil, Llrb.Leaf, Llrb.Leaf);
      assert Nodes(u) == {x};
    } else {
      FlipRedChildren(h, s, t);
      SplitHas(t, key);
      found, u := InsertBelow(h, key, value, s, Llrb.Split(t));
      x, u := Fixup(h, u, Inserted(Llrb.Split(t), key, value));
    }
  }

  ghost function Inserted(g: Llrb.Tree<int>, key: int, value: int): (r: Llrb.Tree<int>)
    requires g.Node?
    ensures r.Node?
  {
    if g.key == key then g.(value := value)
    else if g.key > key then g.(left := Llrb.NodeInsert(g.left, key, value))
    else g.(right := Llrb.NodeInsert(g.right, key, value))
  }

  /** The node itself takes the value, or one of its subtrees takes the key. */
  method InsertBelow(h: RbNode, key: int, value: int, ghost s: Shape, ghost t: Llrb.Tree<int>)
    returns (found: bool, ghost u: Shape)
    requires Stands(h, s, t) && t.Node?
    modifies Nodes(s)
    ensures Stands(h, u, Inserted(t, key, value)) && (forall n <- Nodes(u) :: n in Nodes(s) || fresh(n))
    ensures found <==> Has(t, key)
    decreases s, 0
  {
    Open(h, s, t);
    if h.key == key {
      h.value := value;
      u, found := s, true;
      Close(h, s.left, s.right, t.left, t.right);
    } else if h.key > key {
      var l;
      l, found, u := NodeInsert(h.left, key, value, s.left, t.left);
      u := SetLeft(h, l, u, Llrb.NodeInsert(t.left, key, value), s, t);
    } else {
      var r;
      r, found, u := NodeInsert(h.right, key, value, s.right, t.right);
      u := SetRight(h, r, u, Llrb.NodeInsert(t.right, key, value), s, t);
    }
  }

  /** rb_insert: the tree stands for the old map updated at the key, and `found` tells whether the
      key was there. */
  method Insert(root: RbNode?, key: int, value: int, ghost s: Shape, ghost t: Llrb.Tree<int>)
    returns (x: RbNode, found: bool, ghost u: Shape)
    requires Stands(root, s, t)
    modifies Nodes(s)
    ensures Stands(x, u, Llrb.Insert(t, key, value)) && (forall n <- Nodes(u) :: n in Nodes(s) || fresh(n))
    ensures found <==> Has(t, key)
  {
    x, found, u := NodeInsert(root, key, value, s, t);
    ghost var v := Llrb.NodeInsert(t, key, value);
    Open(x, u, v);
    x.red := false;
    Close(x, u.left, u.right, v.left, v.right);
  }

  // ---------- deletion ----------

  method MoveRedLeft(h: RbNode, ghost s: Shape, ghost t: Llrb.Tree<int>) returns (x: RbNode, ghost u: Shape)
    requires Stands(h, s, t) && t.Node? && t.left.Node? && t.right.Node?
    modifies Nodes(s)
    ensures Stands(x, u, Llrb.MoveRedLeft(t)) && Nodes(u) == Nodes(s)
  {
    ghost var f := Llrb.ColorFlip(t);
    Open(h, s, t);
    ColorFlip(h, s, t);
    x, u := h, s;
    Open(h, s, f);
    Open(h.right, s.right, f.right);
    if IsRed(h.right.left) {
      u := TurnRight(h, s, f);
      x, u := RotateLeft(h, u, f.(right := Llrb.RotateRight(f.right)));
      ColorFlip(x, u, Llrb.RotateLeft(f.(right := Llrb.RotateRight(f.right))));
    }
  }

  /** h->right = rotate_right(h->right) */
  method TurnRight(h: RbNode, ghost s: Shape, ghost t: Llrb.Tree<int>) returns (ghost u: Shape)
    requires Stands(h, s, t) && t.Node? && t.right.Node? && t.right.left.Node?
    modifies Nodes(s)
    ensures Stands(h, u, t.(right := Llrb.RotateRight(t.right))) && Nodes(u) == Nodes(s)
  {
    Open(h, s, t);
    Open(h.right, s.right, t.right);
    var r;
    r, u := RotateRight(h.right, s.right, t.right);
    u := SetRight(h, r, u, Llrb.RotateRight(t.right), s, t);
  }

  method MoveRedRight(h: RbNode, ghost s: Shape, ghost t: Llrb.Tree<int>) returns (x: RbNode, ghost u: Shape)
    requires Stands(h, s, t) && t.Node? && t.left.Node? && t.right.Node?
    modifies Nodes(s)
    ensures Stands(x, u, Llrb.MoveRedRight(t)) && Nodes(u) == Nodes(s)
  {
    ghost var f := Llrb.ColorFlip(t);
    Open(h, s, t);
    ColorFlip(h, s, t);
    x, u := h, s;
    Open(h, s, f);
    Open(h.left, s.left, f.left);
    if IsRed(h.left.left) {
      x, u := RotateRight(h, s, f);
      ColorFlip(x, u, Llrb.RotateRight(f));
    }
  }

  method LeftStep(h: RbNode, ghost s: Shape, ghost t: Llrb.Tree<int>) returns (x: RbNode, ghost u: Shape)
    requires Stands(h, s, t) && t.Node?
    requires t.left.Node? && !Llrb.IsRed(t.left) && !Llrb.IsRed(t.left.left) ==> t.right.Node?
    modifies Nodes(s)
    ensures Stands(x, u, Llrb.LeftStep(t)) && Nodes(u) == Nodes(s)
  {
    x, u := h, s;
    Open(h, s, t);
    if !IsRed(h.left) && h.left != null {
      Open(h.left, s.left, t.left);
      if !IsRed(h.left.left) {
        x, u := MoveRedLeft(h, s, t);
      }
    }
  }

  method RightStep(h: RbNode, ghost s: Shape, ghost t: Llrb.Tree<int>) returns (x: RbNode, ghost u: Shape)
    requires Stands(h, s, t) && t.Node?
    requires !Llrb.IsRed(t.right) && t.right.Node? && !Llrb.IsRed(t.right.left) ==> t.left.Node?
    modifies Nodes(s)
    ensures Stands(x, u, Llrb.RightStep(t)) && Nodes(u) == Nodes(s)
  {
    x, u := h, s;
    Open(h, s, t);
    if !IsRed(h.right) && h.right != null {
      Open(h.right, s.right, t.right);
      if !IsRed(h.right.left) {
        x, u := MoveRedRight(h, s, t);
      }
    }
  }

  method LeanRight(h: RbNode, ghost s: Shape, ghost t: Llrb.Tree<int>) returns (x: RbNode, ghost u: Shape)
    requires Stands(h, s, t) && t.Node?
    modifies Nodes(s)
    ensures Stands(x, u, Llrb.LeanRight(t)) && Nodes(u) == Nodes(s)
  {
    x, u := h, s;
    Open(h, s, t);
    if IsRed(h.left) {
      x, u := RotateRight(h, s, t);
    }
  }

  method NodeMin(h: RbNode, ghost s: Shape, ghost t: Llrb.Tree<int>) returns (least: int)
    requires Stands(h, s, t)
    ensures t.Node? && least == Llrb.NodeMin(t)
    decreases s
  {
    Open(h, s, t);
    if h.left == null {
      least := h.key;
    } else {
      least := NodeMin(h.left, s.left, t.left);
    }
  }

  /** One step of delete_min, on values. */
  lemma DeleteMinIs(t: Llrb.Tree<int>)
    requires Llrb.OneRed(t) && !Llrb.IsRed(t.right) && Llrb.Level(t) && t.left.Node?
    ensures t.left.Node? && !Llrb.IsRed(t.left) && !Llrb.IsRed(t.left.left) ==> t.right.Node?
    ensures var g := Llrb.LeftStep(t);
      && Llrb.OneRed(g.left) && !Llrb.IsRed(g.left.right) && Llrb.Level(g.left) && Llrb.Size(g.left) < Llrb.Size(t)
      && Llrb.DeleteMin(t) == Llrb.Fixup(g.(left := Llrb.DeleteMin(g.left)))
  {
    Llrb.LeftStepShape(t, Llrb.BlackHeight(t), t.key - 1);
    Llrb.StepSize(t);
    Llrb.StepLevel(t, Llrb.LeftStep(t));
  }

  /** delete_min: exactly one node is freed, the others are relinked. */
  method DeleteMin(h: RbNode, ghost s: Shape, ghost t: Llrb.Tree<int>)
    returns (x: RbNode?, freed: RbNode, ghost u: Shape)
    requires Stands(h, s, t) && Llrb.OneRed(t) && !Llrb.IsRed(t.right) && Llrb.Level(t)
    modifies Nodes(s)
    ensures Stands(x, u, Llrb.DeleteMin(t))
    ensures freed in Nodes(s) && Nodes(u) == Nodes(s) - {freed}
    decreases Llrb.Size(t), 0
  {
    Open(h, s, t);
    if h.left == null {
      x, freed, u := null, h, Nil;
      LastNode(s, t);
    } else {
      DeleteMinIs(t);
      ghost var g := Llrb.LeftStep(t);
      x, u := LeftStep(h, s, t);
      freed, u := DeleteMinBelow(x, u, g);
      x, u := Fixup(x, u, g.(left := Llrb.DeleteMin(g.left)));
    }
  }

  /** h->left = delete_min(h->left) */
  method DeleteMinBelow(h: RbNode, ghost s: Shape, ghost t: Llrb.Tree<int>)
    returns (freed: RbNode, ghost u: Shape)
    requires Stands(h, s, t) && t.Node?
    requires Llrb.OneRed(t.left) && !Llrb.IsRed(t.left.right) && Llrb.Level(t.left)
    modifies Nodes(s)
    ensures Stands(h, u, t.(left := Llrb.DeleteMin(t.left)))
    ensures freed in Nodes(s) && Nodes(u) == Nodes(s) - {freed}
    decreases Llrb.Size(t.left), 1
  {
    Open(h, s, t);
    var l;
    l, freed, u := DeleteMin(h.left, s.left, t.left);
    u := SetLeft(h, l, u, Llrb.DeleteMin(t.left), s, t);
  }

  /** The node that delete_min removes has no right child either. */
  lemma LastNode(s: Shape, t: Llrb.Tree<int>)
    requires s.At? && t.Node? && Stands(s.node, s, t)
    requires Llrb.Lean(t.right) && !Llrb.IsRed(t.right) && Llrb.Level(t) && t.left.Leaf?
    ensures s.left.Nil? && s.right.Nil?
  {
    Llrb.Unfold(t, Llrb.BlackHeight(t));
  }

  // ---------- deletion of a key ----------

  ghost predicate CanDelete(t: Llrb.Tree<int>, key: int) {
    Llrb.Ordered(t) && Llrb.Level(t) && Llrb.Deletable(t, key)
  }

  /** One step of delete_node to the left, on values. */
  lemma GoesLeft(t: Llrb.Tree<int>, key: int)
    requires CanDelete(t, key) && t.Node? && key < t.key
    ensures t.left.Node? && !Llrb.IsRed(t.left) && !Llrb.IsRed(t.left.left) ==> t.right.Node?
    ensures var g := Llrb.LeftStep(t);
      && CanDelete(g.left, key) && Llrb.Size(g.left) < Llrb.Size(t)
      && var d := Llrb.DeleteNode(g.left, key);
         Llrb.DeleteNode(t, key) == (Llrb.Fixup(g.(left := d.0)), d.1)
  {
    if t.left.Node? {
      Llrb.LeftReady(t, key);
    }
  }

  /** A node that holds the key and has no right child has no left child either. */
  lemma DropsOut(t: Llrb.Tree<int>, key: int)
    requires CanDelete(t, key) && t.Node? && t.key <= key
    requires Llrb.LeanRight(t).key == key && Llrb.LeanRight(t).right.Leaf?
    ensures Llrb.LeanRight(t).left.Leaf? && Llrb.DeleteNode(t, key) == (Llrb.Leaf, true)
  {
    Llrb.Unfold(t, Llrb.BlackHeight(t));
  }

  ghost predicate StepsRight(g: Llrb.Tree<int>) {
    g.Node? && (!Llrb.IsRed(g.right) && g.right.Node? && !Llrb.IsRed(g.right.left) ==> g.left.Node?)
  }

  /** A node that takes over the least entry of its right subtree. */
  ghost predicate CanReplace(t: Llrb.Tree<int>) {
    && t.Node? && Llrb.OneRed(t.right) && !Llrb.IsRed(t.right.right) && Llrb.Level(t.right)
    && Llrb.Ordered(t.right)
  }

  ghost function Replaced(t: Llrb.Tree<int>): (r: Llrb.Tree<int>)
    requires CanReplace(t)
    ensures r.Node?
  {
    var least := Llrb.NodeMin(t.right);
    Llrb.NodeMinIsLeast(t.right);
    Llrb.SearchFinds(t.right, least);
    t.(key := least, value := Llrb.Search(t.right, least).value, right := Llrb.DeleteMin(t.right))
  }

  /** One step of delete_node to the right, on values. */
  lemma GoesRight(t: Llrb.Tree<int>, key: int)
    requires CanDelete(t, key) && t.Node? && t.key <= key
    requires !(Llrb.LeanRight(t).key == key && Llrb.LeanRight(t).right.Leaf?)
    ensures StepsRight(Llrb.LeanRight(t))
    ensures var g := Llrb.RightStep(Llrb.LeanRight(t));
      && CanDelete(g.right, key) && Llrb.Size(g.right) < Llrb.Size(t)
      && (g.key == key ==> CanReplace(g) && Llrb.DeleteNode(t, key) == (Llrb.Fixup(Replaced(g)), true))
      && (g.key != key ==> var d := Llrb.DeleteNode(g.right, key);
                           Llrb.DeleteNode(t, key) == (Llrb.Fixup(g.(right := d.0)), d.1))
  {
    Llrb.Unfold(t, Llrb.BlackHeight(t));
    Llrb.LeanRightEntries(t);
    Llrb.StepSize(t);
    var g := Llrb.LeanRight(t);
    if g.right.Node? {
      Llrb.RightReady(t, key);
    }
  }

  /** The least key below a node, and the value found under it. */
  method LeastEntry(h: RbNode, ghost s: Shape, ghost t: Llrb.Tree<int>) returns (least: int, value: int)
    requires Stands(h, s, t) && t.Node? && Llrb.Ordered(t)
    ensures least == Llrb.NodeMin(t) && Has(t, least) && value == Llrb.Search(t, least).value
  {
    InHeap(s);
    Llrb.NodeMinIsLeast(t);
    Llrb.SearchFinds(t, Llrb.NodeMin(t));
    least := NodeMin(h, s, t);
    var n := Search(h, least, s, t);
    value := n.value;
  }

  /** The node takes over the least entry of its right subtree, and that entry's node is freed. */
  method Replace(h: RbNode, ghost s: Shape, ghost t: Llrb.Tree<int>)
    returns (freed: RbNode, ghost u: Shape)
    requires Stands(h, s, t) && CanReplace(t)
    modifies Nodes(s)
    ensures Stands(h, u, Replaced(t))
    ensures freed in Nodes(s) && Nodes(u) == Nodes(s) - {freed}
  {
    Open(h, s, t);
    var least, value := LeastEntry(h.right, s.right, t.right);
    h.value := value;
    h.key := least;
    ghost var v := t.(key := least, value := value);
    Close(h, s.left, s.right, t.left, t.right);
    freed, u := DeleteMinOnRight(h, s, v);
  }

  /** h->right = delete_min(h->right) */
  method DeleteMinOnRight(h: RbNode, ghost s: Shape, ghost t: Llrb.Tree<int>)
    returns (freed: RbNode, ghost u: Shape)
    requires Stands(h, s, t) && CanReplace(t)
    modifies Nodes(s)
    ensures Stands(h, u, t.(right := Llrb.DeleteMin(t.right)))
    ensures freed in Nodes(s) && Nodes(u) == Nodes(s) - {freed}
  {
    Open(h, s, t);
    var r;
    r, freed, u := DeleteMin(h.right, s.right, t.right);
    u := SetRight(h, r, u, Llrb.DeleteMin(t.right), s, t);
  }

  /** h->left = delete_node(h->left, key) */
  method DeleteOnLeft(h: RbNode, key: int, ghost s: Shape, ghost t: Llrb.Tree<int>)
    returns (freed: RbNode?, ghost u: Shape)
    requires Stands(h, s, t) && t.Node? && CanDelete(t.left, key)
    modifies Nodes(s)
    ensures Stands(h, u, t.(left := Llrb.DeleteNode(t.left, key).0))
    ensures freed != null <==> Llrb.DeleteNode(t.left, key).1
    ensures (freed != null ==> freed in Nodes(s)) && Nodes(u) == Nodes(s) - {freed}
    decreases Llrb.Size(t.left), 2
  {
    Open(h, s, t);
    var l;
    l, freed, u := DeleteNode(h.left, key, s.left, t.left);
    u := SetLeft(h, l, u, Llrb.DeleteNode(t.left, key).0, s, t);
  }

  /** h->right = delete_node(h->right, key) */
  method DeleteOnRight(h: RbNode, key: int, ghost s: Shape, ghost t: Llrb.Tree<int>)
    returns (freed: RbNode?, ghost u: Shape)
    requires Stands(h, s, t) && t.Node? && CanDelete(t.right, key)
    modifies Nodes(s)
    ensures Stands(h, u, t.(right := Llrb.DeleteNode(t.right, key).0))
    ensures freed != null <==> Llrb.DeleteNode(t.right, key).1
    ensures (freed != null ==> freed in Nodes(s)) && Nodes(u) == Nodes(s) - {freed}
    decreases Llrb.Size(t.right), 2
  {
    Open(h, s, t);
    var r;
    r, freed, u := DeleteNode(h.right, key, s.right, t.right);
    u := SetRight(h, r, u, Llrb.DeleteNode(t.right, key).0, s, t);
  }

  /** delete_node: a node is freed exactly when the key was found, and it is the only one that
      leaves the tree. */
  method DeleteNode(h: RbNode?, key: int, ghost s: Shape, ghost t: Llrb.Tree<int>)
    returns (x: RbNode?, freed: RbNode?, ghost u: Shape)
    requires Stands(h, s, t) && CanDelete(t, key)
    modifies Nodes(s)
    ensures Stands(x, u, Llrb.DeleteNode(t, key).0)
    ensures freed != null <==> Llrb.DeleteNode(t, key).1
    ensures (freed != null ==> freed in Nodes(s)) && Nodes(u) == Nodes(s) - {freed}
    decreases Llrb.Size(t), 1
  {
    if h == null {
      return null, null, Nil;
    }
    Open(h, s, t);
    if key < h.key {
      GoesLeft(t, key);
      ghost var g := Llrb.LeftStep(t);
      x, u := LeftStep(h, s, t);
      freed, u := DeleteOnLeft(x, key, u, g);
      x, u := Fixup(x, u, g.(left := Llrb.DeleteNode(g.left, key).0));
    } else {
      x, freed, u := DeleteHereOrRight(h, key, s, t);
    }
  }

  /** The second branch of delete_node. */
  method DeleteHereOrRight(h: RbNode, key: int, ghost s: Shape, ghost t: Llrb.Tree<int>)
    returns (x: RbNode?, freed: RbNode?, ghost u: Shape)
    requires Stands(h, s, t) && CanDelete(t, key) && t.Node? && t.key <= key
    modifies Nodes(s)
    ensures Stands(x, u, Llrb.DeleteNode(t, key).0)
    ensures freed != null <==> Llrb.DeleteNode(t, key).1
    ensures (freed != null ==> freed in Nodes(s)) && Nodes(u) == Nodes(s) - {freed}
    decreases Llrb.Size(t), 0
  {
    x, u := LeanRight(h, s, t);
    Open(x, u, Llrb.LeanRight(t));
    if key == x.key && x.right == null {
      DropsOut(t, key);
      return null, x, Nil;
    }
    GoesRight(t, key);
    ghost var g := Llrb.RightStep(Llrb.LeanRight(t));
    x, u := RightStep(x, u, Llrb.LeanRight(t));
    Open(x, u, g);
    if key == x.key {
      freed, u := Replace(x, u, g);
      x, u := Fixup(x, u, Replaced(g));
    } else {
      freed, u := DeleteOnRight(x, key, u, g);
      x, u := Fixup(x, u, g.(right := Llrb.DeleteNode(g.right, key).0));
    }
  }

  /** rb_delete */
  method Delete(root: RbNode?, key: int, ghost s: Shape, ghost t: Llrb.Tree<int>)
    returns (x: RbNode?, freed: RbNode?, ghost u: Shape)
    requires Stands(root, s, t) && Llrb.Valid(t)
    modifies Nodes(s)
    ensures Stands(x, u, Llrb.Delete(t, key).0)
    ensures freed != null <==> Llrb.Delete(t, key).1
    ensures (freed != null ==> freed in Nodes(s)) && Nodes(u) == Nodes(s) - {freed}
  {
    x, freed, u := DeleteNode(root, key, s, t);
    if x != null {
      ghost var v := Llrb.DeleteNode(t, key).0;
      Open(x, u, v);
      x.red := false;
      Close(x, u.left, u.right, v.left, v.right);
    }
  }

  // ---------- whole trees ----------

  /** rb_addall: the added tree is only read, and shares no node with the result. */
  method AddAll(target: RbNode?, n: RbNode?, ghost s: Shape, ghost t: Llrb.Tree<int>,
                ghost sn: Shape, ghost tn: Llrb.Tree<int>)
    returns (x: RbNode?, ghost u: Shape)
    requires Stands(target, s, t) && Stands(n, sn, tn) && Nodes(s) !! Nodes(sn)
    modifies Nodes(s)
    ensures Stands(x, u, Llrb.AddAll(t, tn)) && (forall o <- Nodes(u) :: o in Nodes(s) || fresh(o))
    ensures Stands(n, sn, tn) && Nodes(u) !! Nodes(sn)
    decreases sn
  {
    x, u := target, s;
    if n != null {
      Open(n, sn, tn);
      ghost var t1 := Llrb.AddAll(t, tn.left);
      x, u := AddAll(target, n.left, s, t, sn.left, tn.left);
      var found;
      x, found, u := Insert(x, n.key, n.value, u, t1);
      x, u := AddAll(x, n.right, u, Llrb.Insert(t1, tn.key, tn.value), sn.right, tn.right);
    }
  }

  /** rb_clone: all the nodes of the copy are new. */
  method Clone(n: RbNode?, ghost s: Shape, ghost t: Llrb.Tree<int>) returns (x: RbNode?, ghost u: Shape)
    requires Stands(n, s, t)
    ensures Stands(x, u, Llrb.Clone(t)) && Stands(n, s, t)
    ensures fresh(Nodes(u)) && Nodes(u) !! Nodes(s)
  {
    x, u := AddAll(null, n, Nil, Llrb.Leaf, s, t);
  }

  method Subset(root: RbNode?, n: RbNode?, ghost s: Shape, ghost t: Llrb.Tree<int>,
                ghost sn: Shape, ghost tn: Llrb.Tree<int>) returns (yes: bool)
    requires Stands(root, s, t) && Stands(n, sn, tn)
    ensures yes == Llrb.Subset(t, tn)
    decreases sn
  {
    if n == null {
      return true;
    }
    InHeap(s);
    Open(n, sn, tn);
    var found := Search(root, n.key, s, t);
    yes := found != null;
    if yes {
      yes := Subset(root, n.left, s, t, sn.left, tn.left);
    }
    if yes {
      yes := Subset(root, n.right, s, t, sn.right, tn.right);
    }
  }

  method Equal(n: RbNode?, m: RbNode?, ghost s: Shape, ghost t: Llrb.Tree<int>,
               ghost v: Shape, ghost w: Llrb.Tree<int>) returns (yes: bool)
    requires Stands(n, s, t) && Stands(m, v, w)
    ensures yes == Llrb.Equal(t, w)
  {
    InHeap(s);
    InHeap(v);
    yes := Subset(n, m, s, t, v, w);
    if yes {
      yes := Subset(m, n, v, w, s, t);
    }
  }

  /** The keys of a tree. */
  method Keys(n: RbNode?, ghost s: Shape, ghost t: Llrb.Tree<int>) returns (ks: set<int>)
    requires Stands(n, s, t) && Llrb.Ordered(t)
    ensures ks == Llrb.Content(t).Keys
    decreases s
  {
    if n == null {
      return {};
    }
    Open(n, s, t);
    Llrb.JoinKeys(Llrb.Content(t.left), t.key, t.value, Llrb.Content(t.right));
    var l := Keys(n.left, s.left, t.left);
    var r := Keys(n.right, s.right, t.right);
    ks := l + {n.key} + r;
  }
}
