/** Lists made by replacing every op of another list with a block of ops. */
module Layout {
  import opened JitOps

  type Blocks = seq<seq<Op>>

  function Concat(bs: Blocks): seq<Op> {
    if bs == [] then [] else bs[0] + Concat(bs[1..])
  }

  /** Where block i starts in the list. */
  function Start(bs: Blocks, i: nat): nat
    requires i <= |bs|
  {
    |Concat(bs[..i])|
  }

  lemma {:induction false} ConcatAppend(a: Blocks, b: Blocks)
    ensures Concat(a + b) == Concat(a) + Concat(b)
  {
    if a == [] {
      assert a + b == b;
    } else {
      assert (a + b)[1..] == a[1..] + b;
      ConcatAppend(a[1..], b);
    }
  }

  lemma ConcatOne(b: seq<Op>)
    ensures Concat([b]) == b
  {
    assert [b][1..] == [];
  }

  lemma Prefix(bs: Blocks, i: nat)
    requires i < |bs|
    ensures Concat(bs[..i + 1]) == Concat(bs[..i]) + bs[i]
    ensures Start(bs, i + 1) == Start(bs, i) + |bs[i]|
  {
    ConcatOne(bs[i]);
    assert bs[..i + 1] == bs[..i] + [bs[i]];
    ConcatAppend(bs[..i], [bs[i]]);
  }

  lemma Split(bs: Blocks, i: nat)
    requires i < |bs|
    ensures Concat(bs) == Concat(bs[..i]) + bs[i] + Concat(bs[i + 1..])
    ensures Start(bs, i + 1) == Start(bs, i) + |bs[i]| <= |Concat(bs)|
  {
    Prefix(bs, i);
    assert bs == bs[..i + 1] + bs[i + 1..];
    ConcatAppend(bs[..i + 1], bs[i + 1..]);
  }

  /** The op at offset d of block i. */
  lemma At(bs: Blocks, i: nat, d: nat)
    requires i < |bs| && d < |bs[i]|
    ensures Start(bs, i) + d < |Concat(bs)|
    ensures Concat(bs)[Start(bs, i) + d] == bs[i][d]
  {
    Split(bs, i);
  }

  lemma StartEnds(bs: Blocks)
    ensures Start(bs, 0) == 0 && Start(bs, |bs|) == |Concat(bs)|
  {
    assert bs[..|bs|] == bs;
  }

  /** A target that occurs once, at offset d of block i, is found there. */
  lemma FindAt(bs: Blocks, i: nat, d: nat, id: nat)
    requires i < |bs| && d < |bs[i]| && IsTarget(bs[i][d], id)
    requires forall j, e | 0 <= j < |bs| && 0 <= e < |bs[j]| && IsTarget(bs[j][e], id) :: j == i && e == d
    ensures Find(Concat(bs), id) == Start(bs, i) + d
  {
    var q := Concat(bs);
    var k := Find(q, id);
    FindsFirst(q, id);
    At(bs, i, d);
    if k < |q| {
      var j, e := Locate(bs, k);
    }
  }

  lemma {:induction false} Locate(bs: Blocks, k: nat) returns (j: nat, e: nat)
    requires k < |Concat(bs)|
    ensures j < |bs| && e < |bs[j]| && k == Start(bs, j) + e && Concat(bs)[k] == bs[j][e]
    decreases |bs|
  {
    var n := |bs| - 1;
    Split(bs, n);
    StartEnds(bs);
    if k >= Start(bs, n) {
      j, e := n, k - Start(bs, n);
    } else {
      j, e := Locate(bs[..n], k);
      assert bs[..n][..j] == bs[..j];
    }
  }
}
