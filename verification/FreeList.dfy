/** The address-ordered, coalescing free list of kernel/system/heap.c as a sequence of blocks. */
module FreeList {

  const ALIGNMENT: nat := 16
  const MIN_BLOCK: nat := 16

  datatype Block = Block(addr: nat, size: nat) {
    function End(): nat {
      addr + size
    }
  }

  predicate Aligned(b: Block) {
    b.addr % ALIGNMENT == 0 && b.size % ALIGNMENT == 0 && b.addr > 0 && b.size > 0
  }

  /** Ordered by address, with a gap between any two neighbours: each block is a maximal interval. */
  predicate Canonical(l: seq<Block>) {
    && (forall i :: 0 <= i < |l| ==> Aligned(l[i]))
    && (forall i :: 0 <= i < |l| - 1 ==> l[i].End() < l[i + 1].addr)
  }

  predicate Holds(b: Block, x: nat) {
    b.addr <= x < b.End()
  }

  /** Byte `x` is free. */
  ghost predicate Covers(l: seq<Block>, x: nat) {
    exists i :: 0 <= i < |l| && Holds(l[i], x)
  }

  lemma {:induction false} Ordered(l: seq<Block>, i: nat, j: nat)
    requires Canonical(l) && i < j < |l|
    ensures l[i].End() < l[j].addr
    decreases j - i
  {
    if i + 1 == j {
    } else {
      Ordered(l, i, j - 1);
    }
  }

  lemma CoversTail(l: seq<Block>, x: nat)
    requires Canonical(l) && l != []
    ensures Covers(l, x) <==> Holds(l[0], x) || Covers(l[1..], x)
    ensures Covers(l[1..], x) ==> x > l[0].End()
    ensures Canonical(l[1..])
  {
    if Covers(l, x) && !Holds(l[0], x) {
      var i :| 0 <= i < |l| && Holds(l[i], x);
      assert l[1..][i - 1] == l[i];
    }
    if Covers(l[1..], x) {
      var i :| 0 <= i < |l[1..]| && Holds(l[1..][i], x);
      assert l[i + 1] == l[1..][i];
      Ordered(l, 0, i + 1);
    }
  }

  /** A set of free bytes has exactly one canonical list. */
  lemma {:induction false} CanonicalUnique(l: seq<Block>, l': seq<Block>)
    requires Canonical(l) && Canonical(l')
    requires forall x: nat :: Covers(l, x) <==> Covers(l', x)
    ensures l == l'
    decreases |l|
  {
    if l == [] || l' == [] {
      if l != [] { FirstCovered(l); }
      if l' != [] { FirstCovered(l'); }
    } else {
      SameFirst(l, l');
      forall x: nat ensures Covers(l[1..], x) <==> Covers(l'[1..], x) {
        CoversTail(l, x);
        CoversTail(l', x);
      }
      CoversTail(l, 0);
      CoversTail(l', 0);
      CanonicalUnique(l[1..], l'[1..]);
      assert l == [l[0]] + l[1..] && l' == [l'[0]] + l'[1..];
    }
  }

  lemma FirstCovered(l: seq<Block>)
    requires Canonical(l) && l != []
    ensures Covers(l, l[0].addr)
  {
    assert Holds(l[0], l[0].addr);
  }

  lemma FirstStart(l: seq<Block>, l': seq<Block>)
    requires Canonical(l) && Canonical(l') && l != [] && l' != []
    requires forall x: nat :: Covers(l, x) <==> Covers(l', x)
    ensures l'[0].addr <= l[0].addr
  {
    assert Holds(l[0], l[0].addr) && Covers(l, l[0].addr);
    CoversTail(l', l[0].addr);
  }

  lemma FirstEnd(l: seq<Block>, l': seq<Block>)
    requires Canonical(l) && Canonical(l') && l != [] && l' != [] && l[0].addr == l'[0].addr
    requires forall x: nat :: Covers(l, x) <==> Covers(l', x)
    ensures l'[0].size <= l[0].size
  {
    if l[0].size < l'[0].size {
      var x := l[0].End();
      assert Holds(l'[0], x) && Covers(l', x);
      CoversTail(l, x);
    }
  }

  lemma SameFirst(l: seq<Block>, l': seq<Block>)
    requires Canonical(l) && Canonical(l') && l != [] && l' != []
    requires forall x: nat :: Covers(l, x) <==> Covers(l', x)
    ensures l[0] == l'[0]
  {
    FirstStart(l, l');
    FirstStart(l', l);
    FirstEnd(l, l');
    FirstEnd(l', l);
  }

  // ---------------------------------------------------------------- allocation

  /** The first block of at least `need` bytes, from block `i` on. */
  function FirstFit(l: seq<Block>, need: nat, i: nat): (k: nat)
    requires i <= |l|
    ensures i <= k <= |l| && (k < |l| ==> l[k].size >= need)
    ensures forall j :: i <= j < k ==> l[j].size < need
    decreases |l| - i
  {
    if i == |l| || l[i].size >= need then i else FirstFit(l, need, i + 1)
  }

  /** Block `k` after kmalloc has cut `need` bytes off its front, or removed it. */
  function Take(l: seq<Block>, k: nat, need: nat): seq<Block>
    requires k < |l| && l[k].size >= need
  {
    if l[k].size >= need + MIN_BLOCK then l[k := Block(l[k].addr + need, l[k].size - need)]
    else l[..k] + l[k + 1..]
  }

  lemma AlignedRest(b: Block, need: nat)
    requires Aligned(b) && need % ALIGNMENT == 0 && need <= b.size
    ensures b.size >= need + MIN_BLOCK ==> Aligned(Block(b.addr + need, b.size - need))
    ensures b.size < need + MIN_BLOCK ==> b.size == need
  {
  }

  /** The list stays canonical and loses exactly the `need` bytes: a block that is not split fits
      exactly. */
  lemma TakeCanonical(l: seq<Block>, k: nat, need: nat)
    requires Canonical(l) && k < |l| && l[k].size >= need && need % ALIGNMENT == 0
    ensures Canonical(Take(l, k, need))
    ensures l[k].size < need + MIN_BLOCK ==> l[k].size == need
  {
    var t := Take(l, k, need);
    AlignedRest(l[k], need);
    hide Aligned;
    if l[k].size < need + MIN_BLOCK {
      forall i | 0 <= i < |t| - 1 ensures t[i].End() < t[i + 1].addr {
        if i == k - 1 {
          Ordered(l, k - 1, k + 1);
        }
      }
    }
  }

  lemma TakeCovers(l: seq<Block>, k: nat, need: nat, x: nat)
    requires Canonical(l) && k < |l| && l[k].size >= need && need % ALIGNMENT == 0
    ensures Covers(Take(l, k, need), x) <==> Covers(l, x) && !(l[k].addr <= x < l[k].addr + need)
  {
    TakeCanonical(l, k, need);
    if Covers(Take(l, k, need), x) {
      TakeCoversOnly(l, k, need, x);
    }
    if Covers(l, x) && !(l[k].addr <= x < l[k].addr + need) {
      hide Aligned;
      var j :| 0 <= j < |l| && Holds(l[j], x);
      var i := if l[k].size >= need + MIN_BLOCK || j < k then j else j - 1;
      assert Holds(Take(l, k, need)[i], x);
    }
  }

  lemma TakeCoversOnly(l: seq<Block>, k: nat, need: nat, x: nat)
    requires Canonical(l) && k < |l| && l[k].size >= need && Covers(Take(l, k, need), x)
    ensures Covers(l, x) && !(l[k].addr <= x < l[k].addr + need)
  {
    hide Aligned;
    var t := Take(l, k, need);
    var i :| 0 <= i < |t| && Holds(t[i], x);
    var j := if l[k].size >= need + MIN_BLOCK || i < k then i else i + 1;
    assert Holds(l[j], x);
    if j < k { Ordered(l, j, k); } else if k < j { Ordered(l, k, j); }
  }

  // ---------------------------------------------------------------- insertion

  /** The position of the first block at or above `addr`, from block `i` on. */
  function Position(l: seq<Block>, addr: nat, i: nat): (k: nat)
    requires i <= |l|
    ensures i <= k <= |l| && (k < |l| ==> l[k].addr >= addr)
    ensures forall j :: i <= j < k ==> l[j].addr < addr
    decreases |l| - i
  {
    if i == |l| || l[i].addr >= addr then i else Position(l, addr, i + 1)
  }

  /** Block `k` takes in the next block if that one starts where it ends. */
  function MergeAt(l: seq<Block>, k: nat): seq<Block>
    requires k < |l|
  {
    if k + 1 < |l| && l[k].End() == l[k + 1].addr
    then l[..k] + [Block(l[k].addr, l[k].size + l[k + 1].size)] + l[k + 2..]
    else l
  }

  function Linked(l: seq<Block>, k: nat, b: Block): seq<Block>
    requires k <= |l|
  {
    l[..k] + [b] + l[k..]
  }

  /** A block is linked in by address, merged with the next block, and then into the previous one. */
  function Insert(l: seq<Block>, b: Block): seq<Block> {
    var k := Position(l, b.addr, 0);
    var merged := MergeAt(Linked(l, k, b), k);
    if k > 0 then MergeAt(merged, k - 1) else merged
  }

  /** No byte of `b` is free. */
  ghost predicate Apart(l: seq<Block>, b: Block) {
    forall i :: 0 <= i < |l| ==> l[i].End() <= b.addr || b.End() <= l[i].addr
  }

  /** Ordered by address, and all neighbours apart but those at the gaps [lo, hi), which may touch. */
  ghost predicate GapsBut(l: seq<Block>, lo: int, hi: int) {
    && (forall i :: 0 <= i < |l| ==> Aligned(l[i]))
    && (forall i :: 0 <= i < |l| - 1 ==> l[i].End() < l[i + 1].addr || (lo <= i < hi && l[i].End() == l[i + 1].addr))
  }

  lemma LinkedGaps(l: seq<Block>, b: Block)
    requires Canonical(l) && Aligned(b) && Apart(l, b)
    ensures var k := Position(l, b.addr, 0); GapsBut(Linked(l, k, b), k - 1, k + 1)
  {
    hide Position;
    var k := Position(l, b.addr, 0);
    var t := Linked(l, k, b);
    if k < |l| { assert Aligned(l[k]); }
    hide Aligned;
    forall i | 0 <= i < |t| - 1
      ensures t[i].End() < t[i + 1].addr || (k - 1 <= i < k + 1 && t[i].End() == t[i + 1].addr)
    {
      if i + 1 == k {
        assert t[i] == l[i];
      } else if i == k {
        assert t[i + 1] == l[k];
      }
    }
  }

  lemma MergeAtGaps(l: seq<Block>, lo: int, k: nat)
    requires GapsBut(l, lo, k + 1) && k < |l| && lo <= k
    ensures GapsBut(MergeAt(l, k), lo, k)
  {
    var t := MergeAt(l, k);
    if k + 1 < |l| && l[k].End() == l[k + 1].addr {
      AlignedSum(l[k], l[k + 1]);
      hide Aligned;
      forall i | 0 <= i < |t| - 1 ensures t[i].End() < t[i + 1].addr || (lo <= i < k && t[i].End() == t[i + 1].addr) {
        if i == k { assert t[i + 1] == l[k + 2]; }
      }
    }
  }

  lemma AlignedSum(a: Block, b: Block)
    requires Aligned(a) && Aligned(b)
    ensures Aligned(Block(a.addr, a.size + b.size))
  {
  }

  lemma LinkedCovers(l: seq<Block>, k: nat, b: Block, x: nat)
    requires k <= |l|
    ensures Covers(Linked(l, k, b), x) <==> Covers(l, x) || Holds(b, x)
  {
    var t := Linked(l, k, b);
    if Covers(t, x) {
      var i :| 0 <= i < |t| && Holds(t[i], x);
      if i != k {
        assert Holds(l[if i < k then i else i - 1], x);
      }
    }
    if Covers(l, x) {
      var j :| 0 <= j < |l| && Holds(l[j], x);
      assert Holds(t[if j < k then j else j + 1], x);
    }
    if Holds(b, x) {
      assert Holds(t[k], x);
    }
  }

  lemma MergeAtCovers(l: seq<Block>, k: nat, x: nat)
    requires k < |l|
    ensures Covers(MergeAt(l, k), x) <==> Covers(l, x)
  {
    var t := MergeAt(l, k);
    if k + 1 < |l| && l[k].End() == l[k + 1].addr {
      if Covers(t, x) {
        var i :| 0 <= i < |t| && Holds(t[i], x);
        if i == k {
          assert Holds(l[k], x) || Holds(l[k + 1], x);
        } else {
          assert Holds(l[if i < k then i else i + 1], x);
        }
      }
      if Covers(l, x) {
        var j :| 0 <= j < |l| && Holds(l[j], x);
        assert Holds(t[if j <= k then j else j - 1], x);
      }
    }
  }

  /** What the two merges of an insertion leave to merge. */
  lemma InsertGaps(l: seq<Block>, b: Block)
    requires Canonical(l) && Aligned(b) && Apart(l, b)
    ensures var k: int := Position(l, b.addr, 0);
            var l1 := Linked(l, k, b);
            var l2 := MergeAt(l1, k);
            && GapsBut(l1, k - 1, k + 1) && k < |l2| && GapsBut(l2, k - 1, k)
            && (k > 0 ==> l1[k - 1] == l2[k - 1] == l[k - 1] && GapsBut(MergeAt(l2, k - 1), k - 1, k - 1))
  {
    hide Aligned;
    var k: int := Position(l, b.addr, 0);
    LinkedGaps(l, b);
    MergeAtGaps(Linked(l, k, b), k - 1, k);
    if k > 0 {
      MergeAtGaps(MergeAt(Linked(l, k, b), k), k - 1, k - 1);
    }
  }

  /** Insertion keeps the list canonical and adds exactly the bytes of the block. */
  lemma InsertCorrect(l: seq<Block>, b: Block)
    requires Canonical(l) && Aligned(b) && Apart(l, b)
    ensures Canonical(Insert(l, b))
    ensures forall x: nat :: Covers(Insert(l, b), x) <==> Covers(l, x) || Holds(b, x)
  {
    hide Aligned, Covers, MergeAt;
    InsertGaps(l, b);
    forall x: nat ensures Covers(Insert(l, b), x) <==> Covers(l, x) || Holds(b, x) {
      var k := Position(l, b.addr, 0);
      var l1 := Linked(l, k, b);
      LinkedCovers(l, k, b, x);
      MergeAtCovers(l1, k, x);
      if k > 0 {
        MergeAtCovers(MergeAt(l1, k), k - 1, x);
      }
    }
  }
}
