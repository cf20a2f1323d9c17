/** The kernel heap of kernel/system/heap.c, working in place on block headers. */
module KernelHeap {
  import opened Arithmetic
  import opened Wrappers
  import opened FreeList
  import opened HeapModel
  import opened HeapLinks
  import PageTables
  import PageTableRuns
  import Ram
  import Pmm
  import Vmm
  import Syscall
  import HeapBacking
  import AccessRights
  import Sets

  const HEAP_START: nat := 0xFFFF_8100_0000_0000
  const INITIAL_PAGES: nat := 256
  const HEAP_FLAGS := PageTables.Flags(true, false, true)

  /** How a round of kmalloc ends. */
  datatype Outcome = Served(block: nat) | Grown | OutOfMemory

  class AllocatorHeap {
    const machine: Vmm.Machine
    var start: nat
    var size: nat
    var head: nat
    /** The size and next words of the block headers in memory. */
    var sizes: map<nat, nat>
    var nexts: map<nat, nat>
    ghost var free: seq<Block>
    ghost var live: map<nat, nat>

    constructor (machine: Vmm.Machine)
      ensures this.machine == machine && start == 0 && size == 0 && head == NULL && free == [] && live == map[]
    {
      this.machine := machine;
      start, size, head, sizes, nexts := 0, 0, NULL, map[], map[];
      free, live := [], map[];
    }

    ghost function Model(): Heap
      reads this
    {
      Heap(start, size, free, live)
    }

    ghost function Memory(): Links
      reads this
    {
      Links(sizes, nexts, head)
    }

    /** The pointers spell the free list, and the header of every live block holds its size. */
    ghost predicate Headers()
      reads this
    {
      && Spells(Memory(), free)
      && (forall a :: a in live ==> a in sizes && sizes[a] == live[a])
    }

    ghost predicate Valid()
      reads this
    {
      Inv(Model()) && Headers()
    }

    /** The walk of heap_expand_pages and kfree to the first free block at or above `addr`. */
    method Find(addr: nat) returns (prev: nat, curr: nat)
      requires Spells(Memory(), free) && Increasing(free)
      ensures var k := Position(free, addr, 0); prev == PrevAddr(free, k) && curr == AddrAt(free, k)
    {
      prev, curr := NULL, head;
      ghost var i := 0;
      while curr != NULL && curr < addr
        invariant i <= |free| && curr == AddrAt(free, i) && prev == PrevAddr(free, i)
        invariant Position(free, addr, 0) == Position(free, addr, i)
        decreases |free| - i
      {
        assert SpellsAt(Memory(), free, i);
        prev := curr;
        curr := nexts[curr];
        i := i + 1;
      }
    }

    /** Links a block in between `prev` and the block behind it. */
    method LinkBlock(addr: nat, blockSize: nat, prev: nat)
      requires Spells(Memory(), free) && Increasing(Linked(free, Position(free, addr, 0), Block(addr, blockSize)))
      requires prev == PrevAddr(free, Position(free, addr, 0))
      modifies this`head, this`sizes, this`nexts, this`free
      ensures free == Linked(old(free), Position(old(free), addr, 0), Block(addr, blockSize)) && Spells(Memory(), free)
      ensures sizes == old(sizes)[addr := blockSize]
      ensures WritesOnly(old(Memory()), Memory(), {addr} + Nonnull(prev))
    {
      ghost var k := Position(free, addr, 0);
      LinkInSpells(Memory(), free, k, Block(addr, blockSize));
      if k > 0 {
        assert SpellsAt(Memory(), free, k - 1);
        assert Linked(free, k, Block(addr, blockSize))[k - 1] == free[k - 1];
      }
      sizes := sizes[addr := blockSize];
      if prev == NULL {
        nexts := nexts[addr := head];
        head := addr;
      } else {
        nexts := nexts[addr := nexts[prev]][prev := addr];
      }
      free := Linked(free, k, Block(addr, blockSize));
    }

    /** Merges the block at `addr` with the next one if they touch. */
    method MergeNext(addr: nat, ghost k: nat)
      requires Spells(Memory(), free) && Increasing(free) && k < |free| && free[k].addr == addr
      modifies this`sizes, this`nexts, this`free
      ensures free == MergeAt(old(free), k) && Spells(Memory(), free)
      ensures WritesOnly(old(Memory()), Memory(), {addr})
    {
      assert SpellsAt(Memory(), free, k);
      var next := nexts[addr];
      if next != NULL && addr + sizes[addr] == next {
        AbsorbSpells(Memory(), free, k);
        sizes := sizes[addr := sizes[addr] + sizes[next]];
        nexts := nexts[addr := nexts[next]];
      }
      free := MergeAt(free, k);
    }

    /** The common part of heap_expand_pages and kfree: a block enters the free list. */
    method InsertBlock(addr: nat, blockSize: nat)
      requires Spells(Memory(), free) && Canonical(free)
      requires Aligned(Block(addr, blockSize)) && Apart(free, Block(addr, blockSize))
      modifies this`head, this`sizes, this`nexts, this`free
      ensures free == Insert(old(free), Block(addr, blockSize)) && Spells(Memory(), free)
      ensures WritesOnly(old(Memory()), Memory(), {addr} + FreeAddrs(old(free)))
    {
      hide Aligned, Increasing, Canonical, Linked, MergeAt, Spells, Apart, FreeAddrs, Position;
      ghost var k := Position(free, addr, 0);
      InsertIncreasing(free, Block(addr, blockSize));
      PrevIsFree(free, k);
      ghost var writes := {addr} + FreeAddrs(free);
      var prev, curr := Find(addr);
      LinkBlock(addr, blockSize, prev);
      MergeNext(addr, k);
      if prev != NULL {
        MergeNext(prev, k - 1);
      }
      assert WritesOnly(old(Memory()), Memory(), writes);
    }

    ghost function FreeFrames(): nat
      requires machine.pmm.InBounds()
      reads machine.pmm, machine.pmm.bitmap
    {
      |machine.pmm.FreeSet()|
    }

    /** Every page of the heap is mapped in the kernel's pagemap with a frame of its own. */
    ghost predicate Backed()
      reads `start, `size, machine, machine.pmm, machine.pmm.bitmap
    {
      machine.Valid() && HeapBacking.Backed(machine.Abs(), start, size / PAGE, HEAP_FLAGS)
    }

    /** heap_expand_pages: 0 for no pages, 1 otherwise; `None` is the out-of-memory panic. */
    method Expand(pages: nat) returns (r: Option<nat>)
      requires Valid() && Backed()
      modifies this, machine, machine.pmm, machine.pmm.bitmap
      ensures r.Some? ==> Valid() && Backed() && Model() == HeapModel.Expand(old(Model()), pages)
      ensures r.Some? ==> r.value == if pages == 0 then 0 else 1
      ensures r.Some? ==> live == old(live) && Spares(old(Memory()), Memory(), live)
      ensures r.Some? && pages > 0 ==>
                PageTableRuns.Reaches(old(machine.Abs()),
                                      Syscall.MapOps(old(machine.kernel), old(start + size), pages, HEAP_FLAGS),
                                      machine.Abs())
      ensures r.Some? ==> FreeFrames() >= old(FreeFrames()) - pages * PageTableRuns.FRAMES_PER_PAGE
      ensures old(FreeFrames()) >= pages * PageTableRuns.FRAMES_PER_PAGE ==> r.Some?
    {
      hide Inv, Insert, Headers, PageTables.Inv, Ram.Tables, Pmm.ClearBits, PageTableRuns.Reaches, Syscall.MapOps;
      if pages == 0 {
        SparesSame(Memory(), live);
        return Some(0);
      }
      var base := start + size;
      ghost var s := machine.Abs();
      MachineBounds(machine);
      var ok := BackPages(base, pages);
      if !ok {
        return None;
      }
      BackedMore(Model(), s, machine.Abs(), pages);
      GrowRegion(base, pages);
      return Some(1);
    }

    /** The page loop of heap_expand_pages; `false` is the out-of-memory panic. */
    method BackPages(base: nat, pages: nat) returns (ok: bool)
      requires machine.Valid()
      modifies machine, machine.pmm, machine.pmm.bitmap
      ensures ok ==> machine.Valid()
      ensures ok ==> PageTableRuns.Reaches(old(machine.Abs()),
                                           Syscall.MapOps(old(machine.kernel), base, pages, HEAP_FLAGS), machine.Abs())
      ensures ok ==> FreeFrames() >= old(FreeFrames()) - pages * PageTableRuns.FRAMES_PER_PAGE
      ensures old(FreeFrames()) >= pages * PageTableRuns.FRAMES_PER_PAGE ==> ok
    {
      KernelRoot(machine.Abs());
      hide PageTables.Inv, Ram.Tables, Pmm.ClearBits, PageTableRuns.Reaches, Syscall.MapOps;
      ok := Syscall.MapRange(machine, machine.kernel, base, pages, HEAP_FLAGS);
    }

    /** heap_install; `false` is a panic: installed before, or out of memory. */
    method Install() returns (ok: bool)
      requires machine.Valid() && (start == 0 ==> head == NULL && size == 0 && free == [] && live == map[])
      modifies this, machine, machine.pmm, machine.pmm.bitmap
      ensures ok ==> old(start) == 0 && Valid() && Backed()
      ensures ok ==>
        Model() == Heap(HEAP_START, INITIAL_PAGES * PAGE, [Block(HEAP_START, INITIAL_PAGES * PAGE)], map[])
      ensures old(start) == 0 && old(FreeFrames()) >= INITIAL_PAGES * PageTableRuns.FRAMES_PER_PAGE ==> ok
    {
      hide PageTables.Inv, Ram.Tables, PageTableRuns.Reaches, Syscall.MapOps;
      if start != 0 {
        return false;
      }
      start, size := HEAP_START, 0;
      EmptyHeap(HEAP_START);
      var r := Expand(INITIAL_PAGES);
      return r.Some?;
    }

    /** The part of heap_expand_pages behind the page loop. */
    method GrowRegion(base: nat, pages: nat)
      requires Valid() && pages > 0 && base == start + size
      modifies this`size, this`head, this`sizes, this`nexts, this`free
      ensures Valid() && Model() == HeapModel.Expand(old(Model()), pages)
      ensures Spares(old(Memory()), Memory(), live)
    {
      hide Inv, Insert, Aligned, Apart, Canonical, Spells, FreeAddrs, Spares, AllOutside;
      ghost var h := Model();
      RegionApart(h, pages);
      ExpandCorrect(h, pages);
      AllLiveNotFree(h);
      FreeOutside(h);
      EndOutside(h);
      OutsideToo({base}, FreeAddrs(h.free), live);
      InsertBlock(base, pages * PAGE);
      LiveHeadersKept(old(Memory()), Memory(), {base} + FreeAddrs(h.free), live);
      WritesSpare(old(Memory()), Memory(), {base} + FreeAddrs(h.free), live);
      size := size + pages * PAGE;
    }

    /** The pass of kmalloc over the free list; `None` when no block is large enough. */
    method TakeFirstFit(need: nat) returns (r: Option<nat>)
      requires Valid() && need > 0 && need % ALIGNMENT == 0
      modifies this`head, this`sizes, this`nexts, this`free, this`live
      ensures Valid()
      ensures r.None? ==> !Fits(old(Model()), need) && Model() == old(Model())
      ensures r.Some? ==> Fits(old(Model()), need) && Allocate(old(Model()), need) == (Model(), r.value)
      ensures r.None? ==> Memory() == old(Memory())
      ensures r.Some? ==> Spares(old(Memory()), Memory(), old(live))
    {
      hide Spares;
      var prev, curr := NULL, head;
      ghost var i := 0;
      while curr != NULL
        invariant i <= |free| && curr == AddrAt(free, i) && prev == PrevAddr(free, i)
        invariant FirstFit(free, need, 0) == FirstFit(free, need, i)
        decreases |free| - i
      {
        assert SpellsAt(Memory(), free, i);
        if sizes[curr] >= need {
          CutBlock(prev, curr, need, i);
          return Some(curr);
        }
        prev := curr;
        curr := nexts[curr];
        i := i + 1;
      }
      GapsIncreasing(free, 0, 0);
      return None;
    }

    /** The branch of kmalloc that cuts the front off a block. */
    method SplitBlock(prev: nat, curr: nat, need: nat, ghost k: nat)
      requires Spells(Memory(), free) && Increasing(free) && k < |free| && 0 < need && need + MIN_BLOCK <= free[k].size
      requires Increasing(Take(free, k, need)) && curr == free[k].addr && prev == PrevAddr(free, k)
      modifies this`head, this`sizes, this`nexts, this`free
      ensures free == Take(old(free), k, need) && Spells(Memory(), free)
      ensures sizes == old(sizes)[curr + need := old(free)[k].size - need][curr := need]
      ensures WritesOnly(old(Memory()), Memory(), {curr, curr + need} + Nonnull(prev))
    {
      hide Increasing;
      assert SpellsAt(Memory(), free, k);
      SplitSpells(Memory(), free, k, need);
      hide Spells;
      var rest := curr + need;
      sizes := sizes[rest := sizes[curr] - need];
      nexts := nexts[rest := nexts[curr]];
      sizes := sizes[curr := need];
      if prev == NULL {
        head := rest;
      } else {
        nexts := nexts[prev := rest];
      }
      free := Take(free, k, need);
    }

    /** The branch of kmalloc that takes a whole block. */
    method UnlinkBlock(prev: nat, curr: nat, ghost need: nat, ghost k: nat)
      requires Spells(Memory(), free) && Increasing(free) && k < |free| && need <= free[k].size < need + MIN_BLOCK
      requires curr == free[k].addr && prev == PrevAddr(free, k)
      modifies this`head, this`nexts, this`free
      ensures free == Take(old(free), k, need) && Spells(Memory(), free)
      ensures WritesOnly(old(Memory()), Memory(), Nonnull(prev))
    {
      UnlinkSpells(Memory(), free, k);
      if prev == NULL {
        head := nexts[curr];
      } else {
        nexts := nexts[prev := nexts[curr]];
      }
      free := free[..k] + free[k + 1..];
    }

    /** The two branches of kmalloc on a block that is large enough. */
    method CutBlock(prev: nat, curr: nat, need: nat, ghost k: nat)
      requires Valid() && need > 0 && need % ALIGNMENT == 0 && k < |free| && k == FirstFit(free, need, 0)
      requires curr == free[k].addr && prev == PrevAddr(free, k)
      modifies this`head, this`sizes, this`nexts, this`free, this`live
      ensures Valid() && Allocate(old(Model()), need) == (Model(), curr)
      ensures Spares(old(Memory()), Memory(), old(live))
    {
      hide Inv, Increasing, FirstFit, Canonical, Take, Aligned, Spares, FreeAddrs, AllOutside;
      FreeOutside(Model());
      CutOutside(Model(), k, need);
      PrevOutside(Model(), k);
      AllocateCorrect(Model(), need);
      CutHeaders(Model(), k, need);
      CutIncreasing(Model(), k, need);
      assert SpellsAt(Memory(), free, k);
      hide Spells;
      if sizes[curr] >= need + MIN_BLOCK {
        OutsideToo({curr, curr + need}, Nonnull(prev), live);
        SplitBlock(prev, curr, need, k);
        WritesSpare(old(Memory()), Memory(), {curr, curr + need} + Nonnull(prev), live);
      } else {
        UnlinkBlock(prev, curr, need, k);
        WritesSpare(old(Memory()), Memory(), Nonnull(prev), live);
      }
      live := live[curr := sizes[curr]];
    }

    /** The size computation of kmalloc. */
    method RequestSize(sz: nat) returns (total: nat)
      requires 0 < sz < WORD
      ensures total == TotalSize(sz) && total > 0 && total % ALIGNMENT == 0
    {
      TotalSizeExact(sz);
      var payload := (sz + ALIGNMENT - 1) % WORD / ALIGNMENT * ALIGNMENT;
      total := (payload + HEADER) % WORD;
      if total < MIN_BLOCK {
        total := MIN_BLOCK;
      }
    }

    /** One round of kmalloc: serve the request, or expand the heap by 16 pages. The expansion either
        succeeds or panics, so the second attempt with one page is never made. */
    method Attempt(need: nat) returns (r: Outcome)
      requires Valid() && Backed() && need > 0 && need % ALIGNMENT == 0
      modifies this, machine, machine.pmm, machine.pmm.bitmap
      ensures !r.OutOfMemory? ==> Valid() && Backed()
      ensures r.Served? ==> Fits(old(Model()), need) && Allocate(old(Model()), need) == (Model(), r.block)
      ensures r.Grown? ==> !Fits(old(Model()), need) && Model() == HeapModel.Expand(old(Model()), RETRY_PAGES)
      ensures !r.OutOfMemory? ==> Spares(old(Memory()), Memory(), old(live)) && (r.Grown? ==> live == old(live))
      ensures !r.OutOfMemory? ==> FreeFrames() >= old(FreeFrames()) - RETRY_PAGES * PageTableRuns.FRAMES_PER_PAGE
      ensures old(FreeFrames()) >= RETRY_PAGES * PageTableRuns.FRAMES_PER_PAGE || Fits(old(Model()), need) ==>
                !r.OutOfMemory?
    {
      hide Inv, Headers, PageTableRuns.Reaches, Syscall.MapOps, Allocate, Fits, HeapModel.Expand, PageTables.Inv,
        Ram.Tables, Spares;
      var block := TakeFirstFit(need);
      if block.Some? {
        return Served(block.value);
      }
      var grown := Expand(RETRY_PAGES);
      return if grown.Some? then Grown else OutOfMemory;
    }

    /** The retry loop of kmalloc; `None` is the out-of-memory panic. */
    method Serve(total: nat) returns (r: Option<nat>, ghost expansions: nat)
      requires Valid() && Backed() && total > 0 && total % ALIGNMENT == 0
      modifies this, machine, machine.pmm, machine.pmm.bitmap
      ensures r.Some? ==> Valid() && Backed() && (Model(), r.value) == Malloc(old(Model()), total)
      ensures r.Some? ==> Spares(old(Memory()), Memory(), old(live)) && expansions == Retries(old(Model()), total)
      ensures var pages := Retries(old(Model()), total) * RETRY_PAGES;
              old(FreeFrames()) >= pages * PageTableRuns.FRAMES_PER_PAGE ==> r.Some?
    {
      hide Inv, Headers, PageTables.Inv, Tail, Retries, Malloc, Allocate, Fits, HeapModel.Expand, Spares;
      expansions := 0;
      SparesSame(Memory(), live);
      while true
        invariant Valid() && Backed() && Inv(Model())
        invariant live == old(live) && Spares(old(Memory()), Memory(), live)
        invariant Malloc(old(Model()), total) == Malloc(Model(), total)
        invariant expansions + Retries(Model(), total) == Retries(old(Model()), total)
        invariant FreeFrames() >= old(FreeFrames()) - expansions * RETRY_PAGES * PageTableRuns.FRAMES_PER_PAGE
        decreases if total > Tail(Model()) then total - Tail(Model()) else 0
      {
        ghost var h, m := Model(), Memory();
        if Fits(h, total) { RetryNone(h, total); } else { RetryOnce(h, total); }
        var attempt := Attempt(total);
        if !attempt.OutOfMemory? {
          SparesTrans(old(Memory()), m, Memory(), h.live);
        }
        match attempt
        case Served(block) => return Some(block), expansions;
        case OutOfMemory => return None, expansions;
        case Grown => expansions := expansions + 1;
      }
    }

    /** kmalloc; `None` is the out-of-memory panic. */
    method Kmalloc(sz: nat) returns (r: Option<nat>, ghost expansions: nat)
      requires Valid() && Backed() && sz < WORD
      modifies this, machine, machine.pmm, machine.pmm.bitmap
      ensures sz == 0 ==> r == Some(NULL) && Valid() && Backed() && Model() == old(Model())
      ensures sz > 0 && r.Some? ==>
                && Valid() && Backed()
                && (Model(), r.value - HEADER) == Malloc(old(Model()), TotalSize(sz))
                && expansions == Retries(old(Model()), TotalSize(sz))
      ensures r.Some? ==> Spares(old(Memory()), Memory(), old(live))
      ensures var pages := Retries(old(Model()), TotalSize(sz)) * RETRY_PAGES;
              old(FreeFrames()) >= pages * PageTableRuns.FRAMES_PER_PAGE ==> r.Some?
    {
      hide Inv, Headers, PageTables.Inv, Tail, Retries, Malloc, Spares, TotalSize, HeapBacking.Backed;
      if sz == 0 {
        SparesSame(Memory(), live);
        return Some(NULL), 0;
      }
      var total := RequestSize(sz);
      r, expansions := Serve(total);
      if r.Some? {
        r := Some(r.value + HEADER);
      }
    }

    /** kfree: `false` is a panic. A pointer that is neither live nor null must be one that the checks catch: out of
        bounds or misaligned. */
    method Kfree(ptr: nat) returns (ok: bool)
      requires Valid() && ptr < WORD
      requires ptr == NULL || BlockOf(ptr) in live || Caught(BlockOf(ptr))
      modifies this`head, this`sizes, this`nexts, this`free, this`live
      ensures Valid() && (ok <==> ptr == NULL || BlockOf(ptr) in old(live))
      ensures Model() == if ok && ptr != NULL then Release(old(Model()), BlockOf(ptr)) else old(Model())
      ensures Spares(old(Memory()), Memory(), live)
    {
      SparesSame(Memory(), live);
      if ptr == NULL {
        return true;
      }
      var block := BlockOf(ptr);
      var blockSize := if block in sizes then sizes[block] else 0;
      ghost var h := Model();
      if block in live {
        LivePasses(h, block);
      }
      hide Inv, Release, Spells, Spares;
      if block < start || block >= start + size {
        return false;
      }
      if blockSize < MIN_BLOCK {
        return false;
      }
      if block % ALIGNMENT != 0 {
        return false;
      }
      ReturnBlock(block, blockSize);
      return true;
    }

    /** The header in front of a pointer, in 64-bit arithmetic. */
    static function BlockOf(ptr: nat): nat {
      (ptr + WORD - HEADER) % WORD
    }

    predicate Caught(block: nat)
      reads `start, `size
    {
      block < start || block >= start + size || block % ALIGNMENT != 0
    }

    /** The part of kfree behind the checks. */
    method ReturnBlock(block: nat, blockSize: nat)
      requires Valid() && block in live && blockSize == live[block]
      modifies this`head, this`sizes, this`nexts, this`free, this`live
      ensures Valid() && Model() == Release(old(Model()), block)
      ensures Spares(old(Memory()), Memory(), live)
    {
      ghost var h := Model();
      ReleaseApart(h, block);
      ReleaseCorrect(h, block);
      AllLiveNotFree(h);
      FreeOutside(h);
      LiveOutside(h, block);
      OutsideToo({block}, FreeAddrs(h.free), live);
      hide Inv, Insert, Aligned, Apart, Canonical, Spells, FreeAddrs, Spares, AllOutside;
      InsertBlock(block, blockSize);
      WritesSpare(old(Memory()), Memory(), {block} + FreeAddrs(h.free), live);
      live := live - {block};
      SparesLess(old(Memory()), Memory(), h.live, live);
    }
  }

  // ---------------------------------------------------------------- what header writes leave alone

  /** The header at `a` holds the same words. */
  predicate SameHeader(m: Links, m': Links, a: nat) {
    && (a in m.sizes <==> a in m'.sizes) && (a in m.sizes && a in m'.sizes ==> m'.sizes[a] == m.sizes[a])
    && (a in m.nexts <==> a in m'.nexts) && (a in m.nexts && a in m'.nexts ==> m'.nexts[a] == m.nexts[a])
  }

  ghost predicate WritesOnly(m: Links, m': Links, s: set<nat>) {
    forall a: nat :: a !in s ==> SameHeader(m, m', a)
  }

  function Nonnull(a: nat): set<nat> {
    if a == NULL then {} else {a}
  }

  /** A header at `a`, of the bytes from `a` up to `a + HEADER`, has a byte of the payload of a block at `c`, which goes
      from `c + HEADER` to the end of the block. */
  predicate Hits(a: nat, c: nat, blockSize: nat) {
    c + HEADER < a + HEADER && a < c + blockSize
  }

  ghost predicate Outside(a: nat, live: map<nat, nat>) {
    forall c: nat :: c in live ==> !Hits(a, c, live[c])
  }

  ghost predicate AllOutside(s: set<nat>, live: map<nat, nat>) {
    forall a: nat :: a in s ==> Outside(a, live)
  }

  /** No header was written over the payload of a block of `live`. */
  ghost predicate Spares(m: Links, m': Links, live: map<nat, nat>) {
    forall a: nat :: SameHeader(m, m', a) || Outside(a, live)
  }

  lemma OutsideToo(s: set<nat>, t: set<nat>, live: map<nat, nat>)
    requires AllOutside(t, live) && forall a :: a in s ==> Outside(a, live)
    ensures AllOutside(s + t, live)
  {
    hide Outside;
  }

  lemma LiveHeadersKept(m: Links, m': Links, s: set<nat>, live: map<nat, nat>)
    requires WritesOnly(m, m', s) && forall a :: a in live ==> a !in s && a in m.sizes && m.sizes[a] == live[a]
    ensures forall a :: a in live ==> a in m'.sizes && m'.sizes[a] == live[a]
  {
    forall a | a in live ensures a in m'.sizes && m'.sizes[a] == live[a] {
      assert SameHeader(m, m', a);
    }
  }

  lemma WritesSpare(m: Links, m': Links, s: set<nat>, live: map<nat, nat>)
    requires WritesOnly(m, m', s) && AllOutside(s, live)
    ensures Spares(m, m', live)
  {
    hide SameHeader, Outside;
  }

  lemma SparesSame(m: Links, live: map<nat, nat>)
    ensures Spares(m, m, live)
  {
  }

  lemma SparesTrans(m: Links, m1: Links, m2: Links, live: map<nat, nat>)
    requires Spares(m, m1, live) && Spares(m1, m2, live)
    ensures Spares(m, m2, live)
  {
    hide Outside;
    forall a: nat ensures SameHeader(m, m2, a) || Outside(a, live) {
      assert SameHeader(m, m1, a) || Outside(a, live);
      assert SameHeader(m1, m2, a) || Outside(a, live);
    }
  }

  lemma SparesLess(m: Links, m': Links, live: map<nat, nat>, fewer: map<nat, nat>)
    requires Spares(m, m', live) && forall c :: c in fewer ==> c in live && fewer[c] == live[c]
    ensures Spares(m, m', fewer)
  {
    hide SameHeader;
    forall a: nat ensures SameHeader(m, m', a) || Outside(a, fewer) {
      assert SameHeader(m, m', a) || Outside(a, live);
    }
  }

  /** No free block starts inside a live one. */
  lemma FreeOutside(h: Heap)
    requires Inv(h)
    ensures AllOutside(FreeAddrs(h.free), h.live)
  {
    forall a: nat, c: nat | a in FreeAddrs(h.free) && c in h.live ensures !Hits(a, c, h.live[c]) {
      var i :| 0 <= i < |h.free| && h.free[i].addr == a;
      assert Aligned(h.free[i]);
      if Hits(a, c, h.live[c]) {
        CoveredBy(h.free, i, a);
        assert Holds(Block(c, h.live[c]), a) && CoversLive(h.live, a);
      }
    }
  }

  lemma PrevOutside(h: Heap, k: nat)
    requires Inv(h) && k <= |h.free|
    ensures AllOutside(Nonnull(PrevAddr(h.free, k)), h.live)
  {
    FreeOutside(h);
    PrevIsFree(h.free, k);
  }

  /** Nor does one that is cut off a free block. */
  lemma CutOutside(h: Heap, k: nat, need: nat)
    requires Inv(h) && k < |h.free|
    ensures Outside(h.free[k].addr, h.live) && (0 < need < h.free[k].size ==> Outside(h.free[k].addr + need, h.live))
  {
    var b := h.free[k];
    assert Aligned(b);
    forall c: nat | c in h.live
      ensures !Hits(b.addr, c, h.live[c]) && (0 < need < b.size ==> !Hits(b.addr + need, c, h.live[c]))
    {
      if Hits(b.addr, c, h.live[c]) {
        CoveredBy(h.free, k, b.addr);
        assert Holds(Block(c, h.live[c]), b.addr) && CoversLive(h.live, b.addr);
      }
      if 0 < need < b.size && Hits(b.addr + need, c, h.live[c]) {
        CoveredBy(h.free, k, b.addr + need);
        assert Holds(Block(c, h.live[c]), b.addr + need) && CoversLive(h.live, b.addr + need);
      }
    }
  }

  lemma EndOutside(h: Heap)
    requires Inv(h)
    ensures Outside(h.End(), h.live)
  {
    forall c: nat | c in h.live ensures !Hits(h.End(), c, h.live[c]) {
      LiveInside(h, c);
    }
  }

  lemma LiveOutside(h: Heap, a: nat)
    requires Inv(h) && a in h.live
    ensures Outside(a, h.live)
  {
  }

  lemma MachineBounds(m: Vmm.Machine)
    requires m.Valid()
    ensures var s := m.Abs();
            && 2 * |s.role| <= Ram.PAGES && |s.free| <= |s.role| && PageTables.Level(s, s.kernel) == 4
  {
    KernelRoot(m.Abs());
    Sets.BoundedSize(m.pmm.FreeSet(), m.pmm.highestPage + 1);
  }

  /** The heap stays backed when it grows. */
  lemma BackedMore(h: Heap, s: PageTables.State, s': PageTables.State, pages: nat)
    requires Inv(h) && PageTables.Inv(s) && HeapBacking.Backed(s, h.start, h.size / PAGE, HEAP_FLAGS)
    requires 2 * |s.role| <= Ram.PAGES && |s.free| <= |s.role| && PageTables.Level(s, s.kernel) == 4
    requires PageTableRuns.Reaches(s, Syscall.MapOps(s.kernel, h.start + h.size, pages, HEAP_FLAGS), s')
    ensures HeapBacking.Backed(s', h.start, (h.size + pages * PAGE) / PAGE, HEAP_FLAGS)
  {
    hide HeapBacking.Backed, PageTables.Inv, PageTableRuns.Reaches, Syscall.MapOps;
    assert h.size % PAGE == 0;
    HeapBacking.BackedGrows(s, h.start, h.size / PAGE, pages, HEAP_FLAGS, s');
  }

  /** Through every pagemap that translates it as the kernel's does, the processor lets the kernel read and write, but
      not execute, a page of the heap, and lets user code do nothing. */
  lemma HeapRights(s: PageTables.State, start: nat, pages: nat, k: nat, r: nat)
    requires PageTables.Inv(s) && AccessRights.OpenTables(s)
    requires HeapBacking.Backed(s, start, pages, HEAP_FLAGS) && k < pages
    requires PageTables.Level(s, s.kernel) == PageTables.Level(s, r) == 4
    requires var p := Ram.PathOf(start + k * PAGE);
      PageTables.Resolve(s.mem, r, p) == PageTables.Resolve(s.mem, s.kernel, p)
    ensures var e := AccessRights.Effective(s.mem, r, Ram.PathOf(start + k * PAGE));
      e.writable && e.noExecute && !e.user
  {
    hide PageTables.Inv, AccessRights.OpenTables, Ram.PathOf, AccessRights.Effective, PageTableRuns.Owned,
      PageTables.Resolve;
    var p := Ram.PathOf(start + k * PAGE);
    assert Syscall.RangePage(s, s.kernel, start, k, HEAP_FLAGS);
    PageTableRuns.OwnedPresent(s, s.kernel, p);
    AccessRights.OpenRights(s, r, p);
  }

  lemma RetryNone(h: Heap, need: nat)
    requires Inv(h) && need > 0 && Fits(h, need)
    ensures Retries(h, need) == 0 && Malloc(h, need) == Allocate(h, need)
  {
  }

  /** A round of the retry loop that expands the heap. */
  lemma RetryOnce(h: Heap, need: nat)
    requires Inv(h) && need > 0 && !Fits(h, need)
    ensures var h' := HeapModel.Expand(h, RETRY_PAGES);
            && Inv(h') && Malloc(h, need) == Malloc(h', need) && Retries(h, need) == 1 + Retries(h', need)
            && Tail(h) < need && Tail(h') > Tail(h)
  {
    hide HeapModel.Expand, Inv, Tail, Fits;
    TailTooSmall(h, need);
    ExpandCorrect(h, RETRY_PAGES);
    ExpandTail(h, RETRY_PAGES);
    ExpandFits(h, need);
    RetryCount(need, Tail(h));
  }

  lemma CoveredBy(l: seq<Block>, k: nat, x: nat)
    requires k < |l| && Holds(l[k], x)
    ensures Covers(l, x)
  {
  }

  lemma CutIncreasing(h: Heap, k: nat, need: nat)
    requires Inv(h) && k < |h.free| && h.free[k].size >= need && need % ALIGNMENT == 0
    ensures Increasing(h.free) && Increasing(Take(h.free, k, need))
  {
    var l := h.free;
    TakeCanonical(l, k, need);
    GapsIncreasing(l, 0, 0);
    GapsIncreasing(Take(l, k, need), 0, 0);
  }

  /** The headers written by kmalloc are no headers of blocks that stay live. */
  lemma CutHeaders(h: Heap, k: nat, need: nat)
    requires Inv(h) && k < |h.free| && 0 < need <= h.free[k].size
    ensures forall a :: a in h.live ==> a != h.free[k].addr && (h.free[k].size > need ==> a != h.free[k].addr + need)
  {
    forall a | a in h.live
      ensures a != h.free[k].addr && (h.free[k].size > need ==> a != h.free[k].addr + need)
    {
      assert Aligned(Block(a, h.live[a]));
      assert Holds(Block(a, h.live[a]), a) && CoversLive(h.live, a);
      if Holds(h.free[k], a) {
        CoveredBy(h.free, k, a);
      }
    }
  }

  lemma EmptyHeap(start: nat)
    requires start > 0 && start % PAGE == 0
    ensures Inv(Heap(start, 0, [], map[]))
  {
  }

  lemma KernelRoot(s: PageTables.State)
    requires PageTables.Inv(s)
    ensures PageTables.Level(s, s.kernel) == 4
  {
  }

  lemma LiveNotFree(h: Heap, a: nat)
    requires Inv(h) && a in h.live
    ensures a !in FreeAddrs(h.free)
  {
    forall i | 0 <= i < |h.free| ensures h.free[i].addr != a {
      assert Aligned(h.free[i]) && Aligned(Block(a, h.live[a]));
      if h.free[i].addr == a {
        assert Holds(h.free[i], a) && Holds(Block(a, h.live[a]), a);
        assert Covers(h.free, a) && CoversLive(h.live, a);
      }
    }
  }

  lemma AllLiveNotFree(h: Heap)
    requires Inv(h)
    ensures Canonical(h.free) && forall a :: a in h.live ==> a !in FreeAddrs(h.free)
  {
    forall a | a in h.live ensures a !in FreeAddrs(h.free) {
      LiveNotFree(h, a);
    }
  }

  /** A live block passes the three checks of kfree. */
  lemma LivePasses(h: Heap, a: nat)
    requires Inv(h) && a in h.live
    ensures h.start <= a < h.End() && h.live[a] >= MIN_BLOCK && a % ALIGNMENT == 0
  {
    assert Aligned(Block(a, h.live[a]));
    LiveInside(h, a);
  }

  lemma RegionApart(h: Heap, pages: nat)
    requires Inv(h) && pages > 0
    ensures Aligned(Block(h.End(), pages * PAGE)) && Apart(h.free, Block(h.End(), pages * PAGE))
    ensures h.End() !in h.live
  {
    RegionAligned(h, pages);
    forall i | 0 <= i < |h.free| ensures h.free[i].End() <= h.End() {
      FreeInside(h, i);
    }
    if h.End() in h.live {
      assert Aligned(Block(h.End(), h.live[h.End()]));
      LiveInside(h, h.End());
    }
  }

  /** All stages of an insertion are in address order, so no two headers coincide. */
  lemma InsertIncreasing(l: seq<Block>, b: Block)
    requires Canonical(l) && Aligned(b) && Apart(l, b)
    ensures var k := Position(l, b.addr, 0);
            var l1 := Linked(l, k, b);
            && Increasing(l) && k < |l1| && l1[k].addr == b.addr && Increasing(l1)
            && Increasing(MergeAt(l1, k))
            && (k > 0 ==>
                  && l[k - 1].addr > NULL && k - 1 < |MergeAt(l1, k)|
                  && MergeAt(l1, k)[k - 1].addr == l[k - 1].addr)
  {
    var k: int := Position(l, b.addr, 0);
    InsertGaps(l, b);
    GapsIncreasing(l, 0, 0);
    GapsIncreasing(Linked(l, k, b), k - 1, k + 1);
    GapsIncreasing(MergeAt(Linked(l, k, b), k), k - 1, k);
    hide Canonical, Increasing, Apart, Position;
  }

  lemma PrevIsFree(l: seq<Block>, k: nat)
    requires k <= |l|
    ensures k > 0 ==> PrevAddr(l, k) in FreeAddrs(l)
  {
  }

  ghost function FreeAddrs(l: seq<Block>): set<nat> {
    set i | 0 <= i < |l| :: l[i].addr
  }
}
