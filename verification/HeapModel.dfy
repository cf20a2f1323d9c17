/** The kernel heap of kernel/system/heap.c on values: what every run of kmalloc, kfree and expansion
    keeps. */
module HeapModel {
  import opened Arithmetic
  import opened FreeList

  const HEADER: nat := 16
  const RETRY_PAGES: nat := 16
  const RETRY_BYTES: nat := 65536

  /** `live` maps the start of every allocated block to its size, header included. */
  datatype Heap = Heap(start: nat, size: nat, free: seq<Block>, live: map<nat, nat>) {
    function End(): nat {
      start + size
    }
  }

  ghost predicate CoversLive(live: map<nat, nat>, x: nat) {
    exists a :: a in live && Holds(Block(a, live[a]), x)
  }

  ghost predicate LiveOk(live: map<nat, nat>) {
    && (forall a :: a in live ==> Aligned(Block(a, live[a])))
    && (forall a, b :: a in live && b in live && a != b ==> a + live[a] <= b || b + live[b] <= a)
  }

  /** Free and live blocks tile the heap: every byte is in one of them, and in one only. */
  ghost predicate Tiles(h: Heap) {
    && (forall x: nat :: h.start <= x < h.End() <==> Covers(h.free, x) || CoversLive(h.live, x))
    && (forall x: nat :: !(Covers(h.free, x) && CoversLive(h.live, x)))
  }

  ghost predicate Inv(h: Heap) {
    && h.start > 0 && h.start % PAGE == 0 && h.size % PAGE == 0
    && Canonical(h.free) && LiveOk(h.live) && Tiles(h)
  }

  /** The free list is a function of the heap size and the live blocks: how the heap got there does not
      matter. */
  lemma HistoryIndependent(h: Heap, h': Heap)
    requires Inv(h) && Inv(h') && h.start == h'.start && h.size == h'.size && h.live == h'.live
    ensures h.free == h'.free
  {
    CanonicalUnique(h.free, h'.free);
  }

  lemma FreeInside(h: Heap, i: nat)
    requires Inv(h) && i < |h.free|
    ensures h.start <= h.free[i].addr && h.free[i].End() <= h.End()
  {
    var b := h.free[i];
    assert Aligned(b);
    assert Holds(b, b.addr) && Holds(b, b.End() - 1);
    assert Covers(h.free, b.addr) && Covers(h.free, b.End() - 1);
  }

  lemma LiveInside(h: Heap, a: nat)
    requires Inv(h) && a in h.live
    ensures h.start <= a && a + h.live[a] <= h.End()
  {
    var b := Block(a, h.live[a]);
    assert Aligned(b);
    assert Holds(b, b.addr) && Holds(b, b.End() - 1);
    assert CoversLive(h.live, b.addr) && CoversLive(h.live, b.End() - 1);
  }

  // ---------------------------------------------------------------- expansion

  /** heap_expand_pages: the new region is inserted as a free block. */
  function Expand(h: Heap, pages: nat): Heap {
    if pages == 0 then h
    else h.(size := h.size + pages * PAGE, free := Insert(h.free, Block(h.End(), pages * PAGE)))
  }

  lemma RegionAligned(h: Heap, pages: nat)
    requires h.start > 0 && h.start % PAGE == 0 && h.size % PAGE == 0 && pages > 0
    ensures Aligned(Block(h.End(), pages * PAGE)) && (h.size + pages * PAGE) % PAGE == 0
  {
    PageMultiple(h.start / PAGE + h.size / PAGE);
    PageMultiple(pages);
    PageMultiple(h.size / PAGE + pages);
  }

  lemma PageMultiple(n: nat)
    ensures n * PAGE % PAGE == 0 && n * PAGE % ALIGNMENT == 0
  {
    assert n * PAGE == ALIGNMENT * (n * 256);
  }

  lemma ExpandCorrect(h: Heap, pages: nat)
    requires Inv(h)
    ensures Inv(Expand(h, pages))
  {
    if pages > 0 {
      var b := Block(h.End(), pages * PAGE);
      RegionAligned(h, pages);
      assert Apart(h.free, b) by {
        forall i | 0 <= i < |h.free| ensures h.free[i].End() <= b.addr { FreeInside(h, i); }
      }
      InsertCorrect(h.free, b);
      var h' := Expand(h, pages);
      forall x: nat ensures h.start <= x < h'.End() <==> Covers(h'.free, x) || CoversLive(h.live, x) {
      }
      forall x: nat ensures !(Covers(h'.free, x) && CoversLive(h.live, x)) {
        if CoversLive(h.live, x) { assert x < h.End(); }
      }
    }
  }

  // ---------------------------------------------------------------- allocation

  /** The size of the block for a request, in 64-bit arithmetic. */
  function TotalSize(sz: nat): nat {
    var payload := (sz + ALIGNMENT - 1) % WORD / ALIGNMENT * ALIGNMENT;
    var total := (payload + HEADER) % WORD;
    if total < MIN_BLOCK then MIN_BLOCK else total
  }

  /** The block holds the header and `sz` bytes exactly when the size computation does not wrap. */
  lemma TotalSizeExact(sz: nat)
    requires sz < WORD
    ensures TotalSize(sz) % ALIGNMENT == 0 && TotalSize(sz) > 0
    ensures TotalSize(sz) >= HEADER + sz <==> sz <= WORD - 2 * ALIGNMENT
  {
  }

  predicate Fits(h: Heap, need: nat) {
    FirstFit(h.free, need, 0) < |h.free|
  }

  /** One pass of kmalloc over the free list, when some block fits: the new heap and the block. */
  function Allocate(h: Heap, need: nat): (Heap, nat)
    requires Fits(h, need)
  {
    var k := FirstFit(h.free, need, 0);
    var size := if h.free[k].size >= need + MIN_BLOCK then need else h.free[k].size;
    (h.(free := Take(h.free, k, need), live := h.live[h.free[k].addr := size]), h.free[k].addr)
  }

  /** The block is 16-aligned, inside the heap, of exactly the requested size, and apart from every live
      block. */
  lemma AllocateCorrect(h: Heap, need: nat)
    requires Inv(h) && Fits(h, need) && need % ALIGNMENT == 0 && need > 0
    ensures var (h', a) := Allocate(h, need);
            && Inv(h') && h'.live == h.live[a := need] && a !in h.live
            && a % ALIGNMENT == 0 && h.start <= a && a + need <= h.End()
            && (forall b :: b in h.live ==> a + need <= b || b + h.live[b] <= a)
  {
    var (h', a) := Allocate(h, need);
    var k := FirstFit(h.free, need, 0);
    TakeCanonical(h.free, k, need);
    FreeInside(h, k);
    assert Aligned(h.free[k]);
    AllocateApart(h, k, need);
    forall x: nat ensures CoversLive(h'.live, x) <==> CoversLive(h.live, x) || Holds(Block(a, need), x) {
      LiveAdd(h.live, a, need, x);
    }
    forall x: nat ensures Covers(h'.free, x) <==> Covers(h.free, x) && !Holds(Block(a, need), x) {
      TakeCovers(h.free, k, need, x);
    }
    forall x: nat | Holds(Block(a, need), x) ensures Covers(h.free, x) {
      assert Holds(h.free[k], x);
    }
  }

  lemma LiveAdd(live: map<nat, nat>, a: nat, size: nat, x: nat)
    requires a !in live
    ensures CoversLive(live[a := size], x) <==> CoversLive(live, x) || Holds(Block(a, size), x)
  {
    var live' := live[a := size];
    if CoversLive(live, x) {
      var b :| b in live && Holds(Block(b, live[b]), x);
      assert b in live' && Holds(Block(b, live'[b]), x);
    }
    if Holds(Block(a, size), x) {
      assert a in live' && Holds(Block(a, live'[a]), x);
    }
  }

  lemma AllocateApart(h: Heap, k: nat, need: nat)
    requires Inv(h) && k < |h.free| && 0 < need <= h.free[k].size
    ensures var a := h.free[k].addr; a !in h.live && forall b :: b in h.live ==> a + need <= b || b + h.live[b] <= a
  {
    var a := h.free[k].addr;
    forall b | b in h.live ensures a + need <= b || b + h.live[b] <= a {
      assert Aligned(Block(b, h.live[b]));
      var x := if a < b then b else a;
      if x < a + need && x < b + h.live[b] {
        assert Holds(h.free[k], x) && Holds(Block(b, h.live[b]), x);
        assert Covers(h.free, x) && CoversLive(h.live, x);
      }
    }
  }

  // ---------------------------------------------------------------- release

  /** kfree of a live block. */
  function Release(h: Heap, a: nat): Heap
    requires a in h.live
  {
    h.(free := Insert(h.free, Block(a, h.live[a])), live := h.live - {a})
  }

  lemma ReleaseCorrect(h: Heap, a: nat)
    requires Inv(h) && a in h.live
    ensures Inv(Release(h, a))
  {
    var b := Block(a, h.live[a]);
    var h' := Release(h, a);
    ReleaseApart(h, a);
    InsertCorrect(h.free, b);
    forall x: nat ensures CoversLive(h.live, x) <==> CoversLive(h'.live, x) || Holds(b, x) {
      assert h.live == h'.live[a := h.live[a]];
      LiveAdd(h'.live, a, h.live[a], x);
    }
    forall x: nat ensures !(CoversLive(h'.live, x) && Holds(b, x)) {
      if CoversLive(h'.live, x) {
        var c :| c in h'.live && Holds(Block(c, h'.live[c]), x);
        assert c in h.live && c != a;
      }
    }
  }

  lemma ReleaseApart(h: Heap, a: nat)
    requires Inv(h) && a in h.live
    ensures Aligned(Block(a, h.live[a])) && Apart(h.free, Block(a, h.live[a]))
  {
    var b := Block(a, h.live[a]);
    forall i | 0 <= i < |h.free| ensures h.free[i].End() <= b.addr || b.End() <= h.free[i].addr {
      assert Aligned(h.free[i]) && Aligned(b);
      var x := if h.free[i].addr < b.addr then b.addr else h.free[i].addr;
      if Holds(h.free[i], x) && Holds(b, x) {
        assert Covers(h.free, x) && CoversLive(h.live, x);
      }
    }
  }

  /** kfree right after a kmalloc that did not expand the heap restores the free list exactly. */
  lemma ReleaseUndoesAllocate(h: Heap, need: nat)
    requires Inv(h) && Fits(h, need) && need % ALIGNMENT == 0 && need > 0
    ensures Release(Allocate(h, need).0, Allocate(h, need).1) == h
  {
    hide Inv, Insert, Take, Aligned;
    AllocateCorrect(h, need);
    var (h1, a) := Allocate(h, need);
    ReleaseCorrect(h1, a);
    assert h1.live - {a} == h.live;
    HistoryIndependent(Release(h1, a), h);
  }

  // ---------------------------------------------------------------- the retry loop

  /** The size of the free block that ends at the end of the heap. */
  function Tail(h: Heap): nat {
    if h.free != [] && h.free[|h.free| - 1].End() == h.End() then h.free[|h.free| - 1].size else 0
  }

  /** The free list after expansion: the last block grows, or a new last block appears. */
  lemma ExpandTail(h: Heap, pages: nat)
    requires Inv(h) && pages > 0
    ensures var n := |h.free|;
            var h' := Expand(h, pages);
            && Tail(h') == Tail(h) + pages * PAGE
            && (if Tail(h) > 0
                then h'.free == h.free[..n - 1] + [Block(h.free[n - 1].addr, Tail(h) + pages * PAGE)]
                else h'.free == h.free + [Block(h.End(), pages * PAGE)])
  {
    var n := |h.free|;
    var b := Block(h.End(), pages * PAGE);
    var k := Position(h.free, b.addr, 0);
    if k < n {
      assert Aligned(h.free[k]);
      FreeInside(h, k);
    }
    assert k == n;
    assert Linked(h.free, n, b) == h.free + [b];
    if n > 0 {
      assert Aligned(h.free[n - 1]);
    }
  }

  lemma FitsIff(h: Heap, need: nat)
    ensures Fits(h, need) <==> exists i :: 0 <= i < |h.free| && h.free[i].size >= need
  {
  }

  /** Expansion makes a request fit exactly when the grown last block is large enough. */
  lemma ExpandFits(h: Heap, need: nat)
    requires Inv(h) && !Fits(h, need)
    ensures Fits(Expand(h, RETRY_PAGES), need) <==> Tail(h) + RETRY_BYTES >= need
  {
    hide Inv, Expand;
    var n := |h.free|;
    var h' := Expand(h, RETRY_PAGES);
    ExpandTail(h, RETRY_PAGES);
    FitsIff(h, need);
    FitsIff(h', need);
    var last := |h'.free| - 1;
    assert h'.free[last].size == Tail(h) + RETRY_BYTES;
    forall i | 0 <= i < last ensures h'.free[i].size < need {
      assert h'.free[i] == h.free[i];
    }
  }

  lemma TailTooSmall(h: Heap, need: nat)
    requires Inv(h) && !Fits(h, need) && need > 0
    ensures Tail(h) < need
  {
    FitsIff(h, need);
  }

  /** kmalloc with its retries. */
  function Malloc(h: Heap, need: nat): (Heap, nat)
    requires Inv(h) && need > 0
    decreases if need > Tail(h) then need - Tail(h) else 0
  {
    if Fits(h, need) then Allocate(h, need)
    else
      TailTooSmall(h, need);
      ExpandCorrect(h, RETRY_PAGES);
      ExpandTail(h, RETRY_PAGES);
      Malloc(Expand(h, RETRY_PAGES), need)
  }

  /** The number of expansions a request needs: the missing part of the last block, in steps of 64 KiB. */
  function Retries(h: Heap, need: nat): nat {
    if Fits(h, need) || need <= Tail(h) then 0 else (need - Tail(h) + RETRY_BYTES - 1) / RETRY_BYTES
  }

  function ExpandTimes(h: Heap, n: nat): Heap
    decreases n
  {
    if n == 0 then h else ExpandTimes(Expand(h, RETRY_PAGES), n - 1)
  }

  /** The retry loop ends after exactly `Retries` expansions: the request is served there, and does not fit before. */
  lemma {:induction false} MallocRetries(h: Heap, need: nat)
    requires Inv(h) && need > 0
    ensures var h1 := ExpandTimes(h, Retries(h, need));
            Inv(h1) && Fits(h1, need) && Malloc(h, need) == Allocate(h1, need)
    ensures forall k: nat :: k < Retries(h, need) ==> !Fits(ExpandTimes(h, k), need)
    decreases if need > Tail(h) then need - Tail(h) else 0
  {
    hide Inv, Expand, Allocate, Tail, Fits;
    if Fits(h, need) {
    } else {
      TailTooSmall(h, need);
      ExpandCorrect(h, RETRY_PAGES);
      ExpandTail(h, RETRY_PAGES);
      ExpandFits(h, need);
      var h1 := Expand(h, RETRY_PAGES);
      MallocRetries(h1, need);
      RetryCount(need, Tail(h));
      assert Retries(h, need) == 1 + Retries(h1, need);
      forall k: nat | k < Retries(h, need) ensures !Fits(ExpandTimes(h, k), need) {
        if k > 0 {
          assert ExpandTimes(h, k) == ExpandTimes(h1, k - 1);
        }
      }
    }
  }

  lemma RetryCount(need: nat, tail: nat)
    requires tail < need
    ensures var n := (need - tail + RETRY_BYTES - 1) / RETRY_BYTES;
            && n >= 1
            && (need <= tail + RETRY_BYTES ==> n == 1)
            && (need > tail + RETRY_BYTES ==> n == 1 + (need - (tail + RETRY_BYTES) + RETRY_BYTES - 1) / RETRY_BYTES)
  {
  }

  // ---------------------------------------------------------------- runs

  datatype Op = Kmalloc(size: nat) | Kfree(block: nat) | Grow(pages: nat)

  /** Callers free blocks that are live. */
  predicate Legal(h: Heap, op: Op) {
    match op
    case Kmalloc(sz) => sz < WORD
    case Kfree(a) => a in h.live
    case Grow(_) => true
  }

  function Step(h: Heap, op: Op): Heap
    requires Inv(h) && Legal(h, op)
  {
    match op
    case Kmalloc(sz) => if sz == 0 then h else (TotalSizeExact(sz); Malloc(h, TotalSize(sz)).0)
    case Kfree(a) => Release(h, a)
    case Grow(pages) => Expand(h, pages)
  }

  lemma StepCorrect(h: Heap, op: Op)
    requires Inv(h) && Legal(h, op)
    ensures Inv(Step(h, op)) && Step(h, op).start == h.start
  {
    match op
    case Kmalloc(sz) =>
      if sz > 0 {
        TotalSizeExact(sz);
        MallocCorrect(h, TotalSize(sz));
      }
    case Kfree(a) => ReleaseCorrect(h, a);
    case Grow(pages) => ExpandCorrect(h, pages);
  }

  lemma {:induction false} ExpandTimesKeeps(h: Heap, n: nat)
    requires Inv(h)
    ensures var h' := ExpandTimes(h, n);
            Inv(h') && h'.start == h.start && h'.live == h.live && h'.size == h.size + n * RETRY_BYTES
    decreases n
  {
    hide Inv, Insert;
    if n == 0 {
    } else {
      ExpandCorrect(h, RETRY_PAGES);
      ExpandTimesKeeps(Expand(h, RETRY_PAGES), n - 1);
    }
  }

  /** kmalloc returns a 16-aligned block inside the heap that is apart from every live block. */
  lemma MallocCorrect(h: Heap, need: nat)
    requires Inv(h) && need % ALIGNMENT == 0 && need > 0
    ensures var (h', a) := Malloc(h, need);
            && Inv(h') && h'.start == h.start && h'.live == h.live[a := need] && a !in h.live
            && h'.size == h.size + Retries(h, need) * RETRY_BYTES
            && a % ALIGNMENT == 0 && h.start <= a && a + need <= h'.End()
            && (forall b :: b in h.live ==> a + need <= b || b + h.live[b] <= a)
  {
    var n := Retries(h, need);
    MallocRetries(h, need);
    ExpandTimesKeeps(h, n);
    AllocateCorrect(ExpandTimes(h, n), need);
  }

  ghost predicate Reaches(h: Heap, ops: seq<Op>, h': Heap)
    decreases |ops|
  {
    if ops == [] then h' == h
    else Inv(h) && Legal(h, ops[0]) && Reaches(Step(h, ops[0]), ops[1..], h')
  }

  lemma {:induction false} RunCorrect(h: Heap, ops: seq<Op>, h': Heap)
    requires Inv(h) && Reaches(h, ops, h')
    ensures Inv(h') && h'.start == h.start
    decreases |ops|
  {
    if ops == [] {
    } else {
      StepCorrect(h, ops[0]);
      RunCorrect(Step(h, ops[0]), ops[1..], h');
    }
  }

  /** Two runs that end with the same heap size and the same live blocks end with the same free list. */
  lemma RunsAgree(h: Heap, ops: seq<Op>, h1: Heap, ops': seq<Op>, h2: Heap)
    requires Inv(h) && Reaches(h, ops, h1) && Reaches(h, ops', h2) && h1.size == h2.size && h1.live == h2.live
    ensures h1.free == h2.free
  {
    RunCorrect(h, ops, h1);
    RunCorrect(h, ops', h2);
    HistoryIndependent(h1, h2);
  }
}
