/** The free list as it lies in memory: every block starts with a header that holds its size and the
    address of the next free block. */
module HeapLinks {
  import opened FreeList

  const NULL: nat := 0

  /** The size and next words of the block headers, by block address, and heap_head. */
  datatype Links = Links(sizes: map<nat, nat>, nexts: map<nat, nat>, head: nat)

  /** The address of block `i`, or the null pointer behind the last one. */
  function AddrAt(l: seq<Block>, i: nat): nat {
    if i < |l| then l[i].addr else NULL
  }

  ghost predicate SpellsAt(m: Links, l: seq<Block>, i: nat)
    requires i < |l|
  {
    var a := l[i].addr;
    a in m.sizes && a in m.nexts && m.sizes[a] == l[i].size && m.nexts[a] == AddrAt(l, i + 1)
  }

  /** Following the pointers from the head visits exactly the blocks of `l`. */
  ghost predicate Spells(m: Links, l: seq<Block>) {
    m.head == AddrAt(l, 0) && forall i :: 0 <= i < |l| ==> SpellsAt(m, l, i)
  }

  /** Addresses increase strictly, so no two blocks share a header. */
  ghost predicate Increasing(l: seq<Block>) {
    && (forall i :: 0 <= i < |l| ==> l[i].addr > NULL)
    && (forall i, j :: 0 <= i < j < |l| ==> l[i].addr < l[j].addr)
  }

  lemma GapsIncreasing(l: seq<Block>, lo: int, hi: int)
    requires GapsBut(l, lo, hi)
    ensures Increasing(l)
  {
    forall i, j | 0 <= i < j < |l| ensures l[i].addr < l[j].addr {
      GapsOrdered(l, lo, hi, i, j);
    }
    forall i | 0 <= i < |l| ensures l[i].addr > NULL {
      assert Aligned(l[i]);
    }
  }

  lemma {:induction false} GapsOrdered(l: seq<Block>, lo: int, hi: int, i: nat, j: nat)
    requires GapsBut(l, lo, hi) && i < j < |l|
    ensures l[i].addr < l[j].addr
    decreases j - i
  {
    assert Aligned(l[j - 1]);
    if i + 1 == j {
    } else {
      GapsOrdered(l, lo, hi, i, j - 1);
    }
  }

  /** The pointer to block `k` that the predecessor, or the head, holds. */
  function Redirect(m: Links, prev: nat, a: nat): Links {
    if prev == NULL then m.(head := a) else m.(nexts := m.nexts[prev := a])
  }

  function PrevAddr(l: seq<Block>, k: nat): nat
    requires k <= |l|
  {
    if k == 0 then NULL else l[k - 1].addr
  }

  // ---------------------------------------------------------------- insertion

  /** Links block `b` in before block `k`. */
  function LinkIn(m: Links, prev: nat, next: nat, b: Block): Links {
    Redirect(m.(sizes := m.sizes[b.addr := b.size], nexts := m.nexts[b.addr := next]), prev, b.addr)
  }

  lemma LinkInSpells(m: Links, l: seq<Block>, k: nat, b: Block)
    requires Spells(m, l) && k <= |l| && Increasing(Linked(l, k, b))
    ensures Spells(LinkIn(m, PrevAddr(l, k), AddrAt(l, k), b), Linked(l, k, b))
  {
    var t := Linked(l, k, b);
    var m' := LinkIn(m, PrevAddr(l, k), AddrAt(l, k), b);
    assert t[k] == b && (k > 0 ==> t[k - 1] == l[k - 1] && t[0] == l[0]);
    forall i | 0 <= i < |t| ensures SpellsAt(m', t, i) {
      if i < k {
        assert SpellsAt(m, l, i) && t[i] == l[i];
      } else if i > k {
        assert SpellsAt(m, l, i - 1) && t[i] == l[i - 1];
      }
    }
  }

  /** Merges block `k` with the next one: `size += next->size; next = next->next`. */
  function Absorb(m: Links, a: nat, next: nat): Links
    requires a in m.sizes && next in m.sizes && next in m.nexts
  {
    m.(sizes := m.sizes[a := m.sizes[a] + m.sizes[next]], nexts := m.nexts[a := m.nexts[next]])
  }

  lemma AbsorbSpells(m: Links, l: seq<Block>, k: nat)
    requires Spells(m, l) && Increasing(l) && k + 1 < |l|
    ensures SpellsAt(m, l, k) && SpellsAt(m, l, k + 1)
    ensures Spells(Absorb(m, l[k].addr, l[k + 1].addr),
                   l[..k] + [Block(l[k].addr, l[k].size + l[k + 1].size)] + l[k + 2..])
  {
    assert SpellsAt(m, l, k) && SpellsAt(m, l, k + 1);
    var m' := Absorb(m, l[k].addr, l[k + 1].addr);
    var t := l[..k] + [Block(l[k].addr, l[k].size + l[k + 1].size)] + l[k + 2..];
    forall i | 0 <= i < |t| ensures SpellsAt(m', t, i) {
      var j := if i <= k then i else i + 1;
      assert SpellsAt(m, l, j) && t[i].addr == l[j].addr;
      assert AddrAt(t, i + 1) == if j == k then AddrAt(l, k + 2) else AddrAt(l, j + 1);
    }
  }

  // ---------------------------------------------------------------- removal

  /** Cuts `need` bytes off the front of block `a`. */
  function Split(m: Links, prev: nat, a: nat, need: nat): Links
    requires a in m.sizes && a in m.nexts && m.sizes[a] >= need
  {
    Redirect(m.(sizes := m.sizes[a + need := m.sizes[a] - need][a := need], nexts := m.nexts[a + need := m.nexts[a]]),
             prev, a + need)
  }

  lemma SplitSpells(m: Links, l: seq<Block>, k: nat, need: nat)
    requires Spells(m, l) && Increasing(l) && k < |l| && 0 < need <= l[k].size
    requires Increasing(l[k := Block(l[k].addr + need, l[k].size - need)])
    ensures SpellsAt(m, l, k)
    ensures Spells(Split(m, PrevAddr(l, k), l[k].addr, need), l[k := Block(l[k].addr + need, l[k].size - need)])
    ensures Split(m, PrevAddr(l, k), l[k].addr, need).sizes[l[k].addr] == need
  {
    assert SpellsAt(m, l, k);
    var t := l[k := Block(l[k].addr + need, l[k].size - need)];
    var m' := Split(m, PrevAddr(l, k), l[k].addr, need);
    forall i | 0 <= i < |t| ensures SpellsAt(m', t, i) {
      assert SpellsAt(m, l, i);
      SplitApart(l, k, need, i);
    }
  }

  /** The header of the remainder, and the one of the block cut off, are no header of another block. */
  lemma SplitApart(l: seq<Block>, k: nat, need: nat, i: nat)
    requires Increasing(l) && k < |l| && 0 < need <= l[k].size && i < |l|
    requires Increasing(l[k := Block(l[k].addr + need, l[k].size - need)])
    ensures i != k ==> l[i].addr != l[k].addr && l[i].addr != l[k].addr + need
  {
    var t := l[k := Block(l[k].addr + need, l[k].size - need)];
    if i != k {
      assert t[i].addr != t[k].addr;
    }
  }

  lemma UnlinkSpells(m: Links, l: seq<Block>, k: nat)
    requires Spells(m, l) && Increasing(l) && k < |l|
    ensures SpellsAt(m, l, k) && Spells(Redirect(m, PrevAddr(l, k), m.nexts[l[k].addr]), l[..k] + l[k + 1..])
    ensures Redirect(m, PrevAddr(l, k), m.nexts[l[k].addr]).sizes == m.sizes
  {
    assert SpellsAt(m, l, k);
    var t := l[..k] + l[k + 1..];
    var m' := Redirect(m, PrevAddr(l, k), m.nexts[l[k].addr]);
    forall i | 0 <= i < |t| ensures SpellsAt(m', t, i) {
      var j := if i < k then i else i + 1;
      assert SpellsAt(m, l, j) && t[i] == l[j];
      assert AddrAt(t, i + 1) == if i + 1 == k then AddrAt(l, k + 1) else AddrAt(l, j + 1);
    }
  }
}
