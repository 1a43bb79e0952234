/** The register sets of set.h: a tree of nodes behind one pointer, refining a finite set of ints. */
module JitSet {
  import Llrb
  import L = LlrbHeap

  class RegSet {
    var root: L.RbNode?
    ghost var shape: L.Shape
    ghost var tree: Llrb.Tree<int>

    ghost predicate Valid()
      reads this, L.Nodes(shape)
    {
      L.Stands(root, shape, tree) && Llrb.Valid(tree)
    }

    /** The members of the set. */
    ghost function Bits(): set<int>
      reads this
    {
      Llrb.Content(tree).Keys
    }

    ghost function Nodes(): set<L.RbNode>
      reads this
    {
      L.Nodes(shape)
    }

    lemma InHeap()
      ensures allocated(Nodes())
    {
      L.InHeap(shape);
    }

    /** jitset_new */
    constructor ()
      ensures Valid() && Bits() == {} && Nodes() == {}
    {
      root, shape, tree := null, L.Nil, Llrb.Leaf;
    }

    /** jitset_clone: the same members, in nodes of its own. */
    method Clone() returns (clone: RegSet)
      requires Valid()
      ensures fresh(clone) && clone.Valid() && clone.Bits() == Bits()
      ensures fresh(clone.Nodes()) && clone.Nodes() !! Nodes() && Valid()
    {
      L.InHeap(shape);
      Llrb.CloneCorrect(tree);
      clone := new RegSet();
      var x;
      ghost var u;
      x, u := L.Clone(root, shape, tree);
      clone.root, clone.shape, clone.tree := x, u, Llrb.Clone(tree);
    }

    /** jitset_or, for two sets that share no node. */
    method Or(s: RegSet)
      requires Valid() && s.Valid() && s != this && Nodes() !! s.Nodes()
      modifies this, Nodes()
      ensures Valid() && Bits() == old(Bits()) + s.Bits()
      ensures s.Valid() && s.Bits() == old(s.Bits()) && Nodes() !! s.Nodes()
      ensures forall n <- Nodes() :: n in old(Nodes()) || fresh(n)
    {
      Llrb.AddAllCorrect(tree, s.tree);
      var x;
      ghost var u;
      x, u := L.AddAll(root, s.root, shape, tree, s.shape, s.tree);
      root, shape, tree := x, u, Llrb.AddAll(tree, s.tree);
    }

    /** jitset_get */
    method Get(bit: int) returns (yes: bool)
      requires Valid()
      ensures yes <==> bit in Bits()
    {
      Llrb.SearchFinds(tree, bit);
      var n := L.Search(root, bit, shape, tree);
      yes := n != null;
    }

    /** jitset_set */
    method Put(bit: int, value: bool)
      requires Valid()
      modifies this, Nodes()
      ensures Valid() && Bits() == if value then old(Bits()) + {bit} else old(Bits()) - {bit}
      ensures forall n <- Nodes() :: n in old(Nodes()) || fresh(n)
    {
      if value {
        Llrb.InsertCorrect(tree, bit, 1);
        var x, found;
        ghost var u;
        x, found, u := L.Insert(root, bit, 1, shape, tree);
        root, shape, tree := x, u, Llrb.Insert(tree, bit, 1);
      } else {
        Llrb.DeleteCorrect(tree, bit);
        var x, freed;
        ghost var u;
        x, freed, u := L.Delete(root, bit, shape, tree);
        root, shape, tree := x, u, Llrb.Delete(tree, bit).0;
      }
    }

    method Members() returns (members: set<int>)
      requires Valid()
      ensures members == Bits()
    {
      members := L.Keys(root, shape, tree);
    }

    /** jitset_equal */
    method Equal(s: RegSet) returns (yes: bool)
      requires Valid() && s.Valid()
      ensures yes <==> Bits() == s.Bits()
    {
      Llrb.EqualCorrect(tree, s.tree);
      yes := L.Equal(root, s.root, shape, tree, s.shape, s.tree);
    }
  }
}
