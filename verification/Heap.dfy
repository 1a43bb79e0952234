/** The kernel heap (stdlib.c): a list of blocks linked by their sizes, kept in the memory it
    hands out. */
module Heap {

  const MEM_CODE: int := 0x100000
  const MEM_DATA: int := MEM_CODE + 0x100000 * 31
  /** The size of a block header: the two numbers `allocated` and `freed`. */
  const HEADER: int := 16
  const FILL: int := 0xFC
  /** sizeof(size_t) */
  const WORD: nat := 8

  // ---------- memory ----------

  type Memory = map<int, int>

  function Get(m: Memory, a: int): int {
    if a in m then m[a] else 0
  }

  /** n bytes of v at a, the least first. */
  function Store(m: Memory, a: int, v: nat, n: nat): Memory
    decreases n
  {
    if n == 0 then m else Store(m[a := v % 256], a + 1, v / 256, n - 1)
  }

  function Load(m: Memory, a: int, n: nat): int
    decreases n
  {
    if n == 0 then 0 else Get(m, a) + 256 * Load(m, a + 1, n - 1)
  }

  /** memset */
  function Fill(m: Memory, a: int, b: int, n: nat): Memory
    decreases n
  {
    if n == 0 then m else Fill(m[a := b], a + 1, b, n - 1)
  }

  /** The two memories differ at most from lo up to hi. */
  ghost predicate SameOutside(m: Memory, m': Memory, lo: int, hi: int) {
    forall a {:trigger Get(m, a)} {:trigger Get(m', a)} | !(lo <= a < hi) :: Get(m', a) == Get(m, a)
  }

  lemma {:induction false} StoreFrame(m: Memory, a: int, v: nat, n: nat)
    ensures SameOutside(m, Store(m, a, v, n), a, a + n)
    decreases n
  {
    if n > 0 { StoreFrame(m[a := v % 256], a + 1, v / 256, n - 1); }
  }

  lemma {:induction false} FillFrame(m: Memory, a: int, b: int, n: nat)
    ensures SameOutside(m, Fill(m, a, b, n), a, a + n)
    decreases n
  {
    if n > 0 { FillFrame(m[a := b], a + 1, b, n - 1); }
  }

  lemma {:induction false} LoadFrame(m: Memory, m': Memory, lo: int, hi: int, a: int, n: nat)
    requires SameOutside(m, m', lo, hi) && (a + n <= lo || hi <= a)
    ensures Load(m', a, n) == Load(m, a, n)
    decreases n
  {
    if n > 0 {
      assert Get(m', a) == Get(m, a);
      LoadFrame(m, m', lo, hi, a + 1, n - 1);
    }
  }

  function Pow256(n: nat): nat {
    if n == 0 then 1 else 256 * Pow256(n - 1)
  }

  lemma {:induction false} LoadStore(m: Memory, a: int, v: nat, n: nat)
    requires v < Pow256(n)
    ensures Load(Store(m, a, v, n), a, n) == v
    decreases n
  {
    if n > 0 {
      var m1 := m[a := v % 256];
      LoadStore(m1, a + 1, v / 256, n - 1);
      StoreFrame(m1, a + 1, v / 256, n - 1);
      assert Get(Store(m1, a + 1, v / 256, n - 1), a) == Get(m1, a);
    }
  }

  function Read64(m: Memory, a: int): int {
    Load(m, a, WORD)
  }

  function Write64(m: Memory, a: int, v: nat): Memory {
    Store(m, a, v, WORD)
  }

  lemma EightBytes()
    ensures Pow256(WORD) == 0x1_0000_0000_0000_0000
  {
    assert Pow256(8) == 0x1_0000_0000_0000_0000 by {
      assert Pow256(1) == 256 && Pow256(2) == 0x1_0000 && Pow256(4) == 0x1_0000_0000;
    }
  }

  lemma Written(m: Memory, a: int, v: nat)
    requires v < 0x1_0000_0000_0000_0000
    ensures Read64(Write64(m, a, v), a) == v && SameOutside(m, Write64(m, a, v), a, a + 8)
  {
    EightBytes();
    LoadStore(m, a, v, WORD);
    StoreFrame(m, a, v, WORD);
  }

  // ---------- blocks ----------

  datatype Block = Block(size: nat, freed: bool)

  /** Blocks lie one behind the other from MEM_DATA on, each header in front of its block. */
  function Addr(bs: seq<Block>, i: nat): int
    requires i <= |bs|
  {
    if i == 0 then MEM_DATA else Addr(bs, i - 1) + HEADER + bs[i - 1].size
  }

  function Unfreed(bs: seq<Block>): nat {
    if bs == [] then 0 else Unfreed(bs[..|bs| - 1]) + (var b := bs[|bs| - 1]; if b.freed then 0 else b.size)
  }

  lemma {:induction false} AddrGrows(bs: seq<Block>, i: nat, j: nat)
    requires i < j <= |bs|
    ensures Addr(bs, i) + HEADER + bs[i].size <= Addr(bs, j)
  {
    if i + 1 < j { AddrGrows(bs, i, j - 1); }
  }

  /** Addresses depend on the sizes before only. */
  lemma {:induction false} AddrSame(bs: seq<Block>, cs: seq<Block>, i: nat)
    requires i <= |bs| && i <= |cs| && forall k | 0 <= k < i :: bs[k].size == cs[k].size
    ensures Addr(bs, i) == Addr(cs, i)
  {
    if i > 0 { AddrSame(bs, cs, i - 1); }
  }

  lemma UnfreedAppend(bs: seq<Block>, b: Block)
    ensures Unfreed(bs + [b]) == Unfreed(bs) + if b.freed then 0 else b.size
  {
    assert (bs + [b])[..|bs|] == bs;
  }

  lemma {:induction false} UnfreedFree(bs: seq<Block>, i: nat)
    requires i < |bs| && !bs[i].freed
    ensures Unfreed(bs[i := bs[i].(freed := true)]) == Unfreed(bs) - bs[i].size
  {
    var n := |bs| - 1;
    var cs := bs[i := bs[i].(freed := true)];
    if i < n {
      UnfreedFree(bs[..n], i);
      assert cs[..n] == bs[..n][i := bs[i].(freed := true)];
    } else {
      assert cs[..n] == bs[..n];
    }
  }

  ghost predicate HeaderAt(m: Memory, a: int, size: int, freed: int) {
    Read64(m, a) == size && Read64(m, a + 8) == freed
  }

  lemma HeaderFrame(m: Memory, m': Memory, lo: int, hi: int, a: int, size: int, freed: int)
    requires HeaderAt(m, a, size, freed) && SameOutside(m, m', lo, hi) && (a + HEADER <= lo || hi <= a)
    ensures HeaderAt(m', a, size, freed)
  {
    LoadFrame(m, m', lo, hi, a, WORD);
    LoadFrame(m, m', lo, hi, a + 8, WORD);
  }

  /** Both numbers of a header. */
  function WriteHeader(m: Memory, a: int, size: nat, freed: nat): Memory {
    Write64(Write64(m, a, size), a + 8, freed)
  }

  lemma HeaderWritten(m: Memory, a: int, size: nat, freed: nat)
    requires size < 0x1_0000_0000_0000_0000 && freed < 0x1_0000_0000_0000_0000
    ensures HeaderAt(WriteHeader(m, a, size, freed), a, size, freed)
    ensures SameOutside(m, WriteHeader(m, a, size, freed), a, a + HEADER)
  {
    var m1 := Write64(m, a, size);
    Written(m, a, size);
    Written(m1, a + 8, freed);
    LoadFrame(m1, Write64(m1, a + 8, freed), a + 8, a + 16, a, WORD);
  }

  function FreedField(b: Block): nat {
    if b.freed then b.size else 0
  }

  ghost predicate BlockAt(m: Memory, bs: seq<Block>, i: nat)
    requires i < |bs|
  {
    bs[i].size < 0x1_0000_0000_0000_0000 && HeaderAt(m, Addr(bs, i), bs[i].size, FreedField(bs[i]))
  }

  /** The memory holds exactly these blocks' headers, and a zero header behind them. */
  ghost predicate Holds(m: Memory, bs: seq<Block>) {
    && (forall i: nat {:trigger BlockAt(m, bs, i)} | i < |bs| :: BlockAt(m, bs, i))
    && HeaderAt(m, Addr(bs, |bs|), 0, 0)
  }

  lemma BlockKept(m: Memory, m': Memory, bs: seq<Block>, cs: seq<Block>, k: nat, lo: int, hi: int)
    requires k < |bs| && k < |cs| && cs[k] == bs[k] && Addr(cs, k) == Addr(bs, k) && BlockAt(m, bs, k)
    requires SameOutside(m, m', lo, hi) && (Addr(bs, k) + HEADER <= lo || hi <= Addr(bs, k))
    ensures BlockAt(m', cs, k)
  {
    HeaderFrame(m, m', lo, hi, Addr(bs, k), bs[k].size, FreedField(bs[k]));
  }

  /** A new block where the sentinel was, and a new sentinel behind it. */
  lemma {:induction false} Appended(m: Memory, m1: Memory, m2: Memory, bs: seq<Block>, size: nat)
    requires Holds(m, bs) && size < 0x1_0000_0000_0000_0000
    requires var a := Addr(bs, |bs|);
      && HeaderAt(m1, a, size, 0) && SameOutside(m, m1, a, a + HEADER)
      && HeaderAt(m2, a + HEADER + size, 0, 0)
      && SameOutside(m1, m2, a + HEADER + size, a + HEADER + size + HEADER)
    ensures Holds(m2, bs + [Block(size, false)])
  {
    var cs := bs + [Block(size, false)];
    AppendedHere(m1, m2, bs, cs, size);
    forall k: nat | k < |cs| ensures BlockAt(m2, cs, k) {
      if k < |bs| { AppendedElsewhere(m, m1, m2, bs, cs, size, k); }
    }
  }

  lemma AppendedHere(m1: Memory, m2: Memory, bs: seq<Block>, cs: seq<Block>, size: nat)
    requires cs == bs + [Block(size, false)] && size < 0x1_0000_0000_0000_0000
    requires var a := Addr(bs, |bs|);
      && HeaderAt(m1, a, size, 0) && SameOutside(m1, m2, a + HEADER + size, a + HEADER + size + HEADER)
    ensures BlockAt(m2, cs, |bs|) && Addr(cs, |cs|) == Addr(bs, |bs|) + HEADER + size
  {
    var a := Addr(bs, |bs|);
    AddrSame(bs, cs, |bs|);
    HeaderFrame(m1, m2, a + HEADER + size, a + HEADER + size + HEADER, a, size, 0);
  }

  lemma AppendedElsewhere(m: Memory, m1: Memory, m2: Memory, bs: seq<Block>, cs: seq<Block>, size: nat, k: nat)
    requires Holds(m, bs) && k < |bs| && cs == bs + [Block(size, false)]
    requires var a := Addr(bs, |bs|);
      SameOutside(m, m1, a, a + HEADER) && SameOutside(m1, m2, a + HEADER + size, a + HEADER + size + HEADER)
    ensures BlockAt(m2, cs, k)
  {
    var a := Addr(bs, |bs|);
    AddrSame(bs, cs, k);
    AddrGrows(bs, k, |bs|);
    assert BlockAt(m, bs, k);
    BlockKept(m, m1, bs, cs, k, a, a + HEADER);
    BlockKept(m1, m2, cs, cs, k, a + HEADER + size, a + HEADER + size + HEADER);
  }

  /** Blocks do not overlap. */
  lemma Apart(bs: seq<Block>, i: nat, k: nat)
    requires i < |bs| && k <= |bs| && i != k
    ensures if k < i then Addr(bs, k) + HEADER + bs[k].size <= Addr(bs, i)
            else Addr(bs, i) + HEADER + bs[i].size <= Addr(bs, k)
  {
    if k < i { AddrGrows(bs, k, i); } else { AddrGrows(bs, i, k); }
  }

  /** Writing inside a block leaves all headers alone. */
  lemma InsideBlock(m: Memory, m': Memory, bs: seq<Block>, i: nat)
    requires Holds(m, bs) && i < |bs|
    requires SameOutside(m, m', Addr(bs, i) + HEADER, Addr(bs, i) + HEADER + bs[i].size)
    ensures Holds(m', bs)
  {
    var lo, hi := Addr(bs, i) + HEADER, Addr(bs, i) + HEADER + bs[i].size;
    forall k: nat | k < |bs| ensures BlockAt(m', bs, k) {
      if k != i { Apart(bs, i, k); }
      assert BlockAt(m, bs, k);
      BlockKept(m, m', bs, bs, k, lo, hi);
    }
    Apart(bs, i, |bs|);
    HeaderFrame(m, m', lo, hi, Addr(bs, |bs|), 0, 0);
  }

  /** Marking a block as freed changes its header only. */
  lemma {:induction false} Marked(m: Memory, m': Memory, bs: seq<Block>, i: nat)
    requires Holds(m, bs) && i < |bs| && !bs[i].freed
    requires var a := Addr(bs, i); Read64(m', a + 8) == bs[i].size && SameOutside(m, m', a + 8, a + 16)
    ensures Holds(m', bs[i := bs[i].(freed := true)])
  {
    var a, cs := Addr(bs, i), bs[i := bs[i].(freed := true)];
    forall k: nat | k < |cs| ensures BlockAt(m', cs, k) {
      AddrSame(bs, cs, k);
      assert BlockAt(m, bs, k);
      if k == i {
        LoadFrame(m, m', a + 8, a + 16, a, WORD);
      } else {
        Apart(bs, i, k);
        BlockKept(m, m', bs, cs, k, a + 8, a + 16);
      }
    }
    AddrSame(bs, cs, |bs|);
    Apart(bs, i, |bs|);
    HeaderFrame(m, m', a + 8, a + 16, Addr(bs, |bs|), 0, 0);
  }

  lemma SizeFits(m: Memory, bs: seq<Block>, i: nat)
    requires Holds(m, bs) && i < |bs|
    ensures bs[i].size < 0x1_0000_0000_0000_0000
  {
    assert BlockAt(m, bs, i);
  }

  lemma FreedBlocks(bs: seq<Block>, i: nat)
    requires i < |bs| && !bs[i].freed
    ensures var cs := bs[i := bs[i].(freed := true)];
      Addr(cs, |cs|) == Addr(bs, |bs|) && Addr(cs, i) == Addr(bs, i) && Unfreed(cs) == Unfreed(bs) - bs[i].size
  {
    var cs := bs[i := bs[i].(freed := true)];
    AddrSame(bs, cs, |bs|);
    AddrSame(bs, cs, i);
    UnfreedFree(bs, i);
  }

  lemma MoreBlocks(bs: seq<Block>, size: nat)
    ensures var cs := bs + [Block(size, false)];
      Addr(cs, |cs|) == Addr(bs, |bs|) + HEADER + size && Unfreed(cs) == Unfreed(bs) + size
  {
    AddrSame(bs, bs + [Block(size, false)], |bs|);
    UnfreedAppend(bs, Block(size, false));
  }

  // ---------- leaks ----------

  datatype Leak = Leak(ptr: int, size: nat)

  /** The blocks from i up to n that are not freed, in order. */
  function Leaks(bs: seq<Block>, i: nat, n: nat): seq<Leak>
    requires i <= n <= |bs|
    decreases n - i
  {
    if i == n then []
    else (if bs[i].freed then [] else [Leak(Addr(bs, i) + HEADER, bs[i].size)]) + Leaks(bs, i + 1, n)
  }

  lemma {:induction false} LeaksSnoc(bs: seq<Block>, i: nat, n: nat)
    requires i <= n < |bs|
    ensures Leaks(bs, i, n + 1)
      == Leaks(bs, i, n) + if bs[n].freed then [] else [Leak(Addr(bs, n) + HEADER, bs[n].size)]
    decreases n - i
  {
    if i < n { LeaksSnoc(bs, i + 1, n); }
  }

  /** The first block of size zero ends the walk, because it looks like the sentinel. */
  function FirstEmpty(bs: seq<Block>): (n: nat)
    ensures n <= |bs| && (n < |bs| ==> bs[n].size == 0) && forall i | 0 <= i < n :: bs[i].size > 0
  {
    if bs == [] then 0 else if bs[0].size == 0 then 0 else 1 + FirstEmpty(bs[1..])
  }

  /** The walk has come to block i at address c. */
  ghost predicate Walked(bs: seq<Block>, i: nat, c: int, report: seq<Leak>) {
    i <= FirstEmpty(bs) && c == Addr(bs, i) && report == Leaks(bs, 0, i)
  }

  lemma WalkedNext(bs: seq<Block>, i: nat, c: int, report: seq<Leak>)
    requires i < |bs| && bs[i].size != 0 && Walked(bs, i, c, report)
    ensures Walked(bs, i + 1, c + HEADER + bs[i].size,
                   report + if bs[i].freed then [] else [Leak(c + HEADER, bs[i].size)])
  {
    LeaksSnoc(bs, 0, i);
  }

  /** Exactly the blocks that are not freed are in the list of leaks. */
  lemma {:induction false} LeaksExact(bs: seq<Block>, i: nat, n: nat, l: Leak)
    requires i <= n <= |bs|
    ensures l in Leaks(bs, i, n) <==>
      exists k :: i <= k < n && !bs[k].freed && l == Leak(Addr(bs, k) + HEADER, bs[k].size)
    decreases n - i
  {
    if i < n {
      LeaksExact(bs, i + 1, n, l);
      if l in Leaks(bs, i, n) && l !in Leaks(bs, i + 1, n) {
        assert l == Leak(Addr(bs, i) + HEADER, bs[i].size);
      }
    }
  }

  /** The walk reports every block that is not freed exactly when no block of size zero was ever
      handed out. */
  lemma {:induction false} ReportComplete(bs: seq<Block>)
    requires forall i | 0 <= i < |bs| && bs[i].freed :: bs[i].size > 0
    ensures (forall i | 0 <= i < |bs| && !bs[i].freed ::
               Leak(Addr(bs, i) + HEADER, bs[i].size) in Leaks(bs, 0, FirstEmpty(bs)))
       <==> (forall i | 0 <= i < |bs| :: bs[i].size > 0)
  {
    var n := FirstEmpty(bs);
    if n < |bs| {
      var l := Leak(Addr(bs, n) + HEADER, bs[n].size);
      LeaksExact(bs, 0, n, l);
      forall k | 0 <= k < n ensures Leak(Addr(bs, k) + HEADER, bs[k].size) != l {}
      assert !bs[n].freed && l !in Leaks(bs, 0, n);
    } else {
      forall i | 0 <= i < |bs| && !bs[i].freed ensures Leak(Addr(bs, i) + HEADER, bs[i].size) in Leaks(bs, 0, n) {
        LeaksExact(bs, 0, n, Leak(Addr(bs, i) + HEADER, bs[i].size));
      }
    }
  }

  // ---------- the heap ----------

  class Heap {
    var mem: Memory
    var memNext: int
    var memAlloced: int
    /** All blocks handed out so far, in order. */
    ghost var blocks: seq<Block>

    /** The blocks tile the memory from MEM_DATA to memNext, a zero header follows them, and
        memAlloced is the sum of the sizes of those not freed. */
    ghost predicate Valid()
      reads this
    {
      && Holds(mem, blocks) && memNext == Addr(blocks, |blocks|) && memAlloced == Unfreed(blocks)
      && forall i | 0 <= i < |blocks| && blocks[i].freed :: blocks[i].size > 0
    }

    /** Memory that is zero where the first header will be. */
    constructor (mem: Memory)
      requires HeaderAt(mem, MEM_DATA, 0, 0)
      ensures Valid() && blocks == [] && this.mem == mem && memNext == 0x200_0000
    {
      this.mem, memNext, memAlloced, blocks := mem, MEM_DATA, 0, [];
    }

    method PutHeader(a: int, size: nat, freed: nat)
      requires size < 0x1_0000_0000_0000_0000 && freed < 0x1_0000_0000_0000_0000
      modifies this`mem
      ensures HeaderAt(mem, a, size, freed) && SameOutside(old(mem), mem, a, a + HEADER)
    {
      HeaderWritten(mem, a, size, freed);
      mem := Write64(mem, a, size);
      mem := Write64(mem, a + 8, freed);
    }

    /** malloc_dbg: the block starts where the last one ended. */
    method Malloc(size: nat) returns (ptr: int)
      requires Valid() && size < 0x1_0000_0000_0000_0000
      modifies this
      ensures Valid() && blocks == old(blocks) + [Block(size, false)]
      ensures ptr == Addr(old(blocks), |old(blocks)|) + HEADER == old(memNext) + 16 && memNext == ptr + size
    {
      ghost var bs := blocks;
      var r := memNext;
      memAlloced := memAlloced + size;
      ptr := r + HEADER;
      memNext := ptr + size;
      PutBlock(r, size);
      MoreBlocks(bs, size);
      blocks := bs + [Block(size, false)];
    }

    /** The header of the new block and the sentinel behind it. */
    method PutBlock(r: int, size: nat)
      requires Holds(mem, blocks) && r == Addr(blocks, |blocks|) && size < 0x1_0000_0000_0000_0000
      modifies this`mem
      ensures Holds(mem, blocks + [Block(size, false)])
    {
      ghost var m := mem;
      PutHeader(r, size, 0);
      ghost var m1 := mem;
      PutHeader(r + HEADER + size, 0, 0);
      Appended(m, m1, mem, blocks, size);
    }

    /** free_dbg on the i-th block; false where its assertions fail, as they always do for a block
        that is freed a second time. */
    method Free(ptr: int, ghost i: nat) returns (ok: bool)
      requires Valid() && i < |blocks| && ptr == Addr(blocks, i) + HEADER
      modifies this
      ensures Valid() && (ok <==> old(blocks)[i].size > 0 && !old(blocks)[i].freed)
      ensures blocks == if ok then old(blocks)[i := old(blocks)[i].(freed := true)] else old(blocks)
      ensures ok ==> forall a :: ptr <= a < ptr + old(blocks)[i].size ==> Get(mem, a) == 0xFC
      ensures !ok ==> mem == old(mem)
    {
      assert BlockAt(mem, blocks, i);
      var r := ptr - HEADER;
      var size := Read64(mem, r);
      if size <= 0 || Read64(mem, r + 8) != 0 {
        return false;
      }
      memAlloced := memAlloced - size;
      MarkFreed(r, size, i);
      FillBlock(ptr, size, i);
      return true;
    }

    method MarkFreed(r: int, size: nat, ghost i: nat)
      requires Holds(mem, blocks) && memNext == Addr(blocks, |blocks|) && i < |blocks| && !blocks[i].freed
      requires r == Addr(blocks, i) && size == blocks[i].size > 0
      modifies this`mem, this`blocks
      ensures blocks == old(blocks)[i := old(blocks)[i].(freed := true)] && Holds(mem, blocks)
      ensures memNext == Addr(blocks, |blocks|) && r == Addr(blocks, i)
        && Unfreed(blocks) == Unfreed(old(blocks)) - size
    {
      ghost var bs, m := blocks, mem;
      SizeFits(m, bs, i);
      WriteFreed(r, size);
      ghost var m' := mem;
      Marked(m, m', bs, i);
      FreedBlocks(bs, i);
      blocks := bs[i := bs[i].(freed := true)];
    }

    method WriteFreed(r: int, size: nat)
      requires size < 0x1_0000_0000_0000_0000
      modifies this`mem
      ensures Read64(mem, r + 8) == size && SameOutside(old(mem), mem, r + 8, r + 16)
    {
      Written(mem, r + 8, size);
      mem := Write64(mem, r + 8, size);
    }

    method FillBlock(ptr: int, size: nat, ghost i: nat)
      requires Holds(mem, blocks) && i < |blocks| && ptr == Addr(blocks, i) + HEADER && size == blocks[i].size
      modifies this`mem
      ensures Holds(mem, blocks) && forall a :: ptr <= a < ptr + size ==> Get(mem, a) == FILL
    {
      FillFrame(mem, ptr, FILL, size);
      InsideBlock(mem, Fill(mem, ptr, FILL, size), blocks, i);
      FillFills(mem, ptr, FILL, size);
      mem := Fill(mem, ptr, FILL, size);
    }

    /** A write inside a block, by whoever asked for it, disturbs nothing. */
    method WriteByte(ghost i: nat, ptr: int, offset: nat, b: int)
      requires Valid() && i < |blocks| && ptr == Addr(blocks, i) + HEADER && offset < blocks[i].size
      modifies this`mem
      ensures Valid() && Get(mem, ptr + offset) == b
      ensures SameOutside(old(mem), mem, ptr + offset, ptr + offset + 1)
    {
      ghost var m := mem;
      mem := mem[ptr + offset := b];
      InsideBlock(m, mem, blocks, i);
    }

    lemma {:induction false} BlockRead(i: nat)
      requires Valid() && i <= |blocks|
      ensures i == |blocks| ==> Read64(mem, Addr(blocks, i)) == 0
      ensures i < |blocks| ==> Read64(mem, Addr(blocks, i)) == blocks[i].size
      ensures i < |blocks| ==> (Read64(mem, Addr(blocks, i) + 8) == 0 <==> !blocks[i].freed)
    {
      if i < |blocks| { assert BlockAt(mem, blocks, i); }
    }

    /** mem_walk_leaked: from header to header until one of size zero. */
    method WalkLeaked() returns (report: seq<Leak>)
      requires Valid()
      ensures report == Leaks(blocks, 0, FirstEmpty(blocks))
    {
      report := [];
      var c := MEM_DATA;
      ghost var i := 0;
      while Read64(mem, c) != 0
        invariant Walked(blocks, i, c, report)
        decreases |blocks| - i
      {
        BlockRead(i);
        WalkedNext(blocks, i, c, report);
        var size := Read64(mem, c);
        if Read64(mem, c + 8) == 0 {
          report := report + [Leak(c + HEADER, size)];
        }
        c := c + HEADER + size;
        i := i + 1;
      }
      BlockRead(i);
    }
  }

  lemma {:induction false} FillFills(m: Memory, a: int, b: int, n: nat)
    ensures forall x {:trigger Get(Fill(m, a, b, n), x)} :: a <= x < a + n ==> Get(Fill(m, a, b, n), x) == b
    decreases n
  {
    if n > 0 {
      FillFills(m[a := b], a + 1, b, n - 1);
      FillFrame(m[a := b], a + 1, b, n - 1);
      assert Get(Fill(m[a := b], a + 1, b, n - 1), a) == Get(m[a := b], a);
    }
  }
}
