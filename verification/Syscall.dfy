/** Anonymous mmap and munmap of kernel/system/syscall.c as runs of the memory manager. */
module Syscall {
  import opened Arithmetic
  import opened Wrappers
  import opened PageTables
  import opened PageTableSteps
  import opened PageTableRuns
  import opened Ram
  import opened Vmm
  import opened UserMemory
  import opened AccessRights
  import Pmm

  /** What anonymous memory is mapped with. */
  const MMAP_FLAGS := Flags(true, true, true)

  // ---------------------------------------------------------------- ranges of pages

  ghost function MapOps(r: nat, base: nat, n: nat, flags: Flags): (ops: seq<Op>)
    ensures |ops| == n
  {
    seq(n, k requires 0 <= k < n => MapNew(r, PathOf(base + k * PAGE), flags))
  }

  ghost function UnmapOps(r: nat, base: nat, n: nat): (ops: seq<Op>)
    ensures |ops| == n
  {
    seq(n, k requires 0 <= k < n => UnmapAndFree(r, PathOf(base + k * PAGE)))
  }

  lemma {:induction false} ReachesMore(s: State, ops: seq<Op>, s1: State, op: Op)
    requires Reaches(s, ops, s1) && Legal(s1, op) && Step(s1, op).Some?
    ensures Reaches(s, ops + [op], Step(s1, op).value)
    decreases |ops|
  {
    if ops == [] {
    } else {
      assert (ops + [op])[1..] == ops[1..] + [op];
      ReachesMore(Step(s, ops[0]).value, ops[1..], s1, op);
    }
  }

  lemma {:induction false} ReachesSplit(s: State, ops: seq<Op>, op: Op, s': State)
    requires Reaches(s, ops + [op], s')
    ensures exists s1 :: Reaches(s, ops, s1) && Legal(s1, op) && Step(s1, op) == Some(s')
    decreases |ops|
  {
    if ops == [] {
      assert (ops + [op])[1..] == [];
      assert Reaches(s, ops, s);
    } else {
      assert (ops + [op])[1..] == ops[1..] + [op];
      ReachesSplit(Step(s, ops[0]).value, ops[1..], op, s');
      var s1 :| Reaches(Step(s, ops[0]).value, ops[1..], s1) && Legal(s1, op) && Step(s1, op) == Some(s');
      assert Reaches(s, ops, s1);
    }
  }

  /** The page `k` of a range is mapped, with a frame of its own. */
  ghost predicate RangePage(s: State, r: nat, base: nat, k: nat, flags: Flags) {
    var p := PathOf(base + k * PAGE);
    Owned(s, r, p) && Resolve(s.mem, r, p).flags == flags
  }

  lemma DifferentPages(base: nat, j: nat, k: nat)
    requires j < k < j + PAGES
    ensures PathOf(base + j * PAGE) != PathOf(base + k * PAGE)
  {
    hide PathOf;
    assert (base + j * PAGE) / PAGE == base / PAGE + j && (base + k * PAGE) / PAGE == base / PAGE + k;
    if PathOf(base + j * PAGE) == PathOf(base + k * PAGE) {
      DistinctPages(base + j * PAGE, base + k * PAGE);
    }
  }

  lemma MapOpsLast(r: nat, base: nat, n: nat, flags: Flags)
    ensures MapOps(r, base, n + 1, flags) == MapOps(r, base, n, flags) + [MapNew(r, PathOf(base + n * PAGE), flags)]
  {
  }

  /** The page mapped last. */
  lemma PageMapped(s: State, r: nat, base: nat, k: nat, flags: Flags)
    requires var op := MapNew(r, PathOf(base + k * PAGE), flags); Inv(s) && Legal(s, op) && Step(s, op).Some?
    ensures RangePage(Step(s, MapNew(r, PathOf(base + k * PAGE), flags)).value, r, base, k, flags)
  {
    hide Inv, MapFresh, PathOf, Owned, StableSlots, RolesPersist;
    MapFreshCorrect(s, r, PathOf(base + k * PAGE), flags);
  }

  /** A page mapped before. */
  lemma PageKept(s: State, r: nat, base: nat, j: nat, k: nat, flags: Flags)
    requires var op := MapNew(r, PathOf(base + k * PAGE), flags); Inv(s) && Legal(s, op) && Step(s, op).Some?
    requires j < k < j + PAGES && RangePage(s, r, base, j, flags)
    ensures RangePage(Step(s, MapNew(r, PathOf(base + k * PAGE), flags)).value, r, base, j, flags)
  {
    hide Inv, Step, PathOf, Owned, Resolve;
    DifferentPages(base, j, k);
    StepKeepsOwned(s, MapNew(r, PathOf(base + k * PAGE), flags), r, PathOf(base + j * PAGE));
  }

  /** After mapping a range page by page, every page of it has a frame of its own. */
  lemma {:induction false} RangeMapped(s: State, r: nat, base: nat, n: nat, flags: Flags, s': State, j: nat)
    requires Inv(s) && Level(s, r) == 4 && n <= PAGES && Reaches(s, MapOps(r, base, n, flags), s') && j < n
    ensures RangePage(s', r, base, j, flags)
  {
    hide PathOf, Inv, Step, Legal, Reaches, MapOps, RangePage, StableSlots;
    var op := MapNew(r, PathOf(base + (n - 1) * PAGE), flags);
    MapOpsLast(r, base, n - 1, flags);
    ReachesSplit(s, MapOps(r, base, n - 1, flags), op, s');
    var s1 :| Reaches(s, MapOps(r, base, n - 1, flags), s1) && Legal(s1, op) && Step(s1, op) == Some(s');
    RunCorrect(s, MapOps(r, base, n - 1, flags), s1);
    if j < n - 1 {
      RangeMapped(s, r, base, n - 1, flags, s1, j);
      PageKept(s1, r, base, j, n - 1, flags);
    } else {
      PageMapped(s1, r, base, n - 1, flags);
    }
  }

  /** The processor lets user code read and write, but not execute, every address that mmap has mapped for a process. */
  lemma MmapRights(s: State, r: nat, base: nat, n: nat, s': State, a: nat)
    requires Inv(s) && Level(s, r) == 4 && UserTables(s, r) && n <= PAGES
    requires Reaches(s, MapOps(r, base, n, MMAP_FLAGS), s')
    requires base % PAGE == 0 && base <= a < base + n * PAGE && PathOf(a)[0] < UPPER_HALF
    ensures Mapped(s', r, a)
    ensures var e := Effective(s'.mem, r, PathOf(a)); e.user && e.writable && e.noExecute
  {
    hide Inv, UserTables, Reaches, PathOf, Effective, Owned, Resolve;
    var ops, j := MapOps(r, base, n, MMAP_FLAGS), (a - base) / PAGE;
    RunCorrect(s, ops, s');
    RunUser(s, ops, s', r);
    assert PathOf(base + j * PAGE) == PathOf(a) by { SamePath(base + j * PAGE, a); }
    RangeMapped(s, r, base, n, MMAP_FLAGS, s', j);
    assert RangePage(s', r, base, j, MMAP_FLAGS);
    OwnedPresent(s', r, PathOf(a));
    EffectiveIsLeaf(s', r, PathOf(a));
  }

  lemma SamePath(a: nat, b: nat)
    requires a / PAGE == b / PAGE
    ensures PathOf(a) == PathOf(b)
  {
    hide PathOf;
    PathInjective(a, b);
  }

  /** The page loops of heap_expand_pages and of anonymous mmap; `false` is the out-of-memory panic. */
  method MapRange(m: Machine, r: nat, base: nat, n: nat, flags: Flags) returns (ok: bool)
    requires m.Valid() && Level(m.Abs(), r) == 4
    modifies m, m.pmm, m.pmm.bitmap
    ensures ok ==> m.Valid() && Level(m.Abs(), r) == 4
    ensures ok ==> Reaches(old(m.Abs()), MapOps(r, base, n, flags), m.Abs())
    ensures |old(m.Abs()).free| >= n * FRAMES_PER_PAGE ==> ok
    ensures ok ==> |m.Abs().free| >= |old(m.Abs()).free| - n * FRAMES_PER_PAGE
  {
    hide PathOf, Inv, Tables, Pmm.ClearBits, MapFresh, Reaches, MapOps, Resolve, IsData;
    ReachesNothing(m.Abs(), r, base, flags);
    for i := 0 to n
      invariant m.Valid() && Level(m.Abs(), r) == 4
      invariant |m.Abs().free| >= |old(m.Abs()).free| - i * FRAMES_PER_PAGE
      invariant Reaches(old(m.Abs()), MapOps(r, base, i, flags), m.Abs())
    {
      ghost var s := m.Abs();
      MapFreshBudget(s, r, PathOf(base + i * PAGE), flags);
      var mapped := m.MapFresh(r, base + i * PAGE, flags);
      if !mapped {
        return false;
      }
      MapOne(old(m.Abs()), s, m.Abs(), r, base, i, flags);
    }
    return true;
  }

  lemma ReachesNothing(s: State, r: nat, base: nat, flags: Flags)
    ensures Reaches(s, MapOps(r, base, 0, flags), s) && Reaches(s, UnmapOps(r, base, 0), s)
  {
  }

  /** One round of a mapping loop. */
  lemma MapOne(s0: State, s: State, s': State, r: nat, base: nat, i: nat, flags: Flags)
    requires Inv(s) && Level(s, r) == 4 && Reaches(s0, MapOps(r, base, i, flags), s)
    requires MapFresh(s, r, PathOf(base + i * PAGE), flags) == Some(s')
    ensures Reaches(s0, MapOps(r, base, i + 1, flags), s') && Level(s', r) == 4
  {
    hide PathOf, Inv, MapFresh, Reaches, MapOps, FlatStep;
    var op := MapNew(r, PathOf(base + i * PAGE), flags);
    StepCorrect(s, op);
    ReachesMore(s0, MapOps(r, base, i, flags), s, op);
    MapOpsLast(r, base, i, flags);
  }

  // ---------------------------------------------------------------- the system calls

  class Process {
    var pagemap: nat
    var heapStart: nat
    var heapPosition: nat

    constructor (pagemap: nat, heap: nat)
      ensures this.pagemap == pagemap && heapStart == heap && heapPosition == heap
    {
      this.pagemap := pagemap;
      heapStart, heapPosition := heap, heap;
    }

    /** The number of pages of a request; mmap keeps 32 bits of it. */
    static function RequestPages(size: nat): nat {
      Pmm.AlignUp(size) / PAGE
    }

    /** syscall_mmap without a file; `None` is the out-of-memory panic. */
    method Mmap(m: Machine, size: nat) returns (result: Option<nat>)
      requires m.Valid() && Level(m.Abs(), pagemap) == 4
      modifies this`heapPosition, m, m.pmm, m.pmm.bitmap
      ensures result.Some? ==>
                var n := RequestPages(size) % UINT;
                && m.Valid() && result.value == ReturnedInt(old(heapPosition))
                && heapPosition == old(heapPosition) + n * PAGE
                && Reaches(old(m.Abs()), MapOps(pagemap, old(heapPosition), n, MMAP_FLAGS), m.Abs())
      ensures |old(m.Abs()).free| >= RequestPages(size) % UINT * FRAMES_PER_PAGE ==> result.Some?
    {
      var start := heapPosition;
      var n := RequestPages(size) % UINT;
      var ok := MapRange(m, pagemap, start, n, MMAP_FLAGS);
      if !ok {
        return None;
      }
      heapPosition := start + n * PAGE;
      return Some(ReturnedInt(start));
    }

    /** The bound checks of syscall_unmap, in 64-bit arithmetic. */
    predicate Allowed(addr: nat, size: nat)
      reads this
    {
      heapStart <= addr && (addr + size) % WORD <= heapPosition
    }

    /** syscall_unmap; `None` is one of its panics: outside the heap, or a page that is not mapped. The offset of the
        page is computed in 32 bits, so that round 2^20 meets the first page again, which is not mapped any more. */
    method Munmap(m: Machine, addr: nat, size: nat) returns (result: Option<nat>)
      requires m.Valid() && Level(m.Abs(), pagemap) == 4 && addr < WORD && size < WORD
      requires Allowed(addr, size) ==> OwnedPages(m.Abs(), pagemap, addr / PAGE * PAGE, 0, RequestPages(size))
      modifies m, m.pmm, m.pmm.bitmap
      ensures result.Some? <==> Accepts(old(m.Abs()), pagemap, heapStart, heapPosition, addr, size)
      ensures result.Some? ==>
                && m.Valid() && result.value == 0
                && Reaches(old(m.Abs()), UnmapOps(pagemap, addr / PAGE * PAGE, RequestPages(size)), m.Abs())
                && Unmapped(old(m.Abs()), m.Abs(), pagemap, addr / PAGE * PAGE, RequestPages(size))
      ensures result.Some? && size <= UINT ==> LeavesOverhang(old(m.Abs()), m.Abs(), pagemap, addr, size)
    {
      hide PathOf, Inv, Tables, Pmm.ClearBits, Resolve, Reaches, UnmapOps, RequestPages, UnmapFree, Owned, Pmm.AlignUp,
        LeavesOverhang;
      if addr < heapStart || (addr + size) % WORD > heapPosition {
        return None;
      }
      var base, n := addr / PAGE * PAGE, RequestPages(size);
      ghost var s0 := m.Abs();
      ReachesNothing(s0, pagemap, base, MMAP_FLAGS);
      var i := 0;
      while i < n
        invariant 0 <= i <= n && i <= ROUNDS
        invariant m.Valid() && Level(m.Abs(), pagemap) == 4
        invariant Reaches(s0, UnmapOps(pagemap, base, i), m.Abs())
        invariant forall k: nat :: k < i ==> Mapped(s0, pagemap, base + k * PAGE)
        invariant OwnedPages(m.Abs(), pagemap, base, i, n) && Unmapped(s0, m.Abs(), pagemap, base, i)
      {
        ghost var s := m.Abs();
        var virt := Visited(base, i);
        VisitedPage(base, i);
        RoundPage(s0, s, pagemap, base, i, n);
        var ok := m.UnmapFree(pagemap, virt);
        if !ok {
          return None;
        }
        UnmapOne(s0, s, m.Abs(), pagemap, base, i, n);
        i := i + 1;
      }
      if size <= UINT {
        MunmapLeaves(s0, m.Abs(), pagemap, addr, size);
      }
      return Some(0);
    }
  }

  /** The rounds of syscall_unmap before the 32-bit offset of the page wraps around. */
  const ROUNDS: nat := 0x10_0000

  /** The address that round `i` of syscall_unmap looks at. */
  function Visited(base: nat, i: nat): nat {
    (base + i * PAGE % UINT) % WORD
  }

  lemma VisitedPage(base: nat, i: nat)
    requires base % PAGE == 0
    ensures Visited(base, i) % PAGE == 0
    ensures PathOf(Visited(base, i)) == PathOf(base + (i % ROUNDS) * PAGE)
  {
    hide PathOf;
    OffsetWraps(i);
    WordPage(base + (i % ROUNDS) * PAGE);
    PathInjective(Visited(base, i), base + (i % ROUNDS) * PAGE);
  }

  lemma OffsetWraps(i: nat)
    ensures i * PAGE % UINT == (i % ROUNDS) * PAGE && (i < ROUNDS ==> i % ROUNDS == i)
  {
    var q, x := i / 0x10_0000, i % 0x10_0000;
    assert i * 4096 == q * 0x1_0000_0000 + x * 4096;
    assert x * 4096 < 0x1_0000_0000;
  }

  lemma WordPage(b: nat)
    requires b % PAGE == 0
    ensures b % WORD % PAGE == 0 && b % WORD / PAGE % PAGES == b / PAGE % PAGES
  {
    var q := b / WORD;
    assert b == q * WORD + b % WORD;
    assert b / PAGE == q * 0x1_0000 * PAGES + b % WORD / PAGE;
  }

  /** Of the `n` pages that syscall_unmap visits, those from `i` on own their frames if they are mapped. */
  ghost predicate OwnedPages(s: State, r: nat, base: nat, i: nat, n: nat) {
    forall k: nat :: i <= k < n && k < ROUNDS && Mapped(s, r, base + k * PAGE) ==> Owned(s, r, PathOf(base + k * PAGE))
  }

  /** The first `i` pages are unmapped, and the others are as they were. */
  ghost predicate Unmapped(s0: State, s: State, r: nat, base: nat, i: nat) {
    && (forall k: nat :: k < i ==> !Mapped(s, r, base + k * PAGE))
    && (forall k: nat :: i <= k < PAGES ==> PageEntry(s, r, base + k * PAGE) == PageEntry(s0, r, base + k * PAGE))
  }

  /** Round `i` finds its page as it was at the beginning, or, after the last possible round, unmapped. */
  lemma RoundPage(s0: State, s: State, r: nat, base: nat, i: nat, n: nat)
    requires i < n && i <= ROUNDS && base % PAGE == 0 && OwnedPages(s, r, base, i, n) && Unmapped(s0, s, r, base, i)
    ensures var a := Visited(base, i);
            && (Mapped(s, r, a) ==> Owned(s, r, PathOf(a)))
            && (Mapped(s, r, a) <==> i < ROUNDS && Mapped(s0, r, base + i * PAGE))
  {
    hide PathOf, Resolve, Owned;
    VisitedPage(base, i);
    OffsetWraps(i);
    if i < ROUNDS {
      assert PageEntry(s, r, base + i * PAGE) == PageEntry(s0, r, base + i * PAGE);
    } else {
      assert !Mapped(s, r, base + 0 * PAGE);
    }
  }

  /** A process owns its mapped lower-half pages, so a request inside a lower-half heap visits no others. */
  lemma HeapPagesOwned(s: State, r: nat, heapPosition: nat, addr: nat, size: nat)
    requires Inv(s) && Level(s, r) == 4 && r != s.kernel
    requires addr + size <= heapPosition <= LOWER_END
    ensures OwnedPages(s, r, addr / PAGE * PAGE, 0, Process.RequestPages(size))
  {
    hide PathOf, Inv, Resolve, Owned;
    var base, n := addr / PAGE * PAGE, Process.RequestPages(size);
    PagesExact(size);
    forall k: nat | k < n && k < ROUNDS && Mapped(s, r, base + k * PAGE) ensures Owned(s, r, PathOf(base + k * PAGE)) {
      LowerHalfPath(base + k * PAGE);
      UserPage(s, r, base + k * PAGE);
    }
  }

  // ---------------------------------------------------------------- when munmap does what it should

  /** What munmap should accept: a range of the heap that is mapped throughout. */
  ghost predicate Proper(s: State, r: nat, heapStart: nat, heapPosition: nat, addr: nat, size: nat) {
    && heapStart <= addr && addr + size <= heapPosition
    && (forall a: nat :: addr <= a < addr + size ==> Mapped(s, r, a))
  }

  /** What it accepts. */
  ghost predicate Accepts(s: State, r: nat, heapStart: nat, heapPosition: nat, addr: nat, size: nat) {
    && heapStart <= addr && (addr + size) % WORD <= heapPosition && Process.RequestPages(size) <= ROUNDS
    && (forall k: nat :: k < Process.RequestPages(size) ==> Mapped(s, r, addr / PAGE * PAGE + k * PAGE))
  }

  /** The end of as many pages as hold `size` bytes, from the page of `addr` on. */
  function CountedEnd(addr: nat, size: nat): nat {
    addr / PAGE * PAGE + (size + PAGE - 1) / PAGE * PAGE
  }

  /** An unaligned range can reach one page further. */
  predicate Overhangs(addr: nat, size: nat) {
    size > 0 && addr + size > CountedEnd(addr, size)
  }

  /** For a page-aligned heap position: a request of at most 4 GiB whose end does not wrap around is proper exactly if
      it is accepted and the page that it overhangs, if any, is mapped. A longer one is never accepted, and a wrapping
      one is never proper. */
  lemma MunmapExact(s: State, r: nat, heapStart: nat, heapPosition: nat, addr: nat, size: nat)
    requires addr < WORD && size < WORD && heapPosition % PAGE == 0 && heapPosition < WORD
    ensures addr + size < WORD && size <= UINT ==>
              (Proper(s, r, heapStart, heapPosition, addr, size)
               <==> && Accepts(s, r, heapStart, heapPosition, addr, size)
                    && (Overhangs(addr, size) ==> Mapped(s, r, CountedEnd(addr, size))))
    ensures addr + size < WORD && size > UINT ==> !Accepts(s, r, heapStart, heapPosition, addr, size)
    ensures addr + size >= WORD ==> !Proper(s, r, heapStart, heapPosition, addr, size)
  {
    hide PathOf, Resolve, Mapped;
    if size + PAGE <= WORD {
      PagesExact(size);
    }
    if addr + size < WORD && size <= UINT {
      if Proper(s, r, heapStart, heapPosition, addr, size) {
        ProperAccepted(s, r, heapStart, heapPosition, addr, size);
      }
      if Accepts(s, r, heapStart, heapPosition, addr, size)
         && (Overhangs(addr, size) ==> Mapped(s, r, CountedEnd(addr, size)))
      {
        AcceptedProper(s, r, heapStart, heapPosition, addr, size);
      }
    }
  }

  lemma ProperAccepted(s: State, r: nat, heapStart: nat, heapPosition: nat, addr: nat, size: nat)
    requires Proper(s, r, heapStart, heapPosition, addr, size) && addr + size < WORD && size <= UINT
    requires heapPosition < WORD
    ensures Accepts(s, r, heapStart, heapPosition, addr, size)
    ensures Overhangs(addr, size) ==> Mapped(s, r, CountedEnd(addr, size))
  {
    hide PathOf, Resolve, PageEntry, Process.RequestPages;
    PagesExact(size);
    var base := addr / PAGE * PAGE;
    forall k: nat | k < Process.RequestPages(size) ensures Mapped(s, r, base + k * PAGE) {
      if k == 0 {
        assert Mapped(s, r, addr);
        SamePage(s, r, addr, base);
      }
    }
  }

  lemma AcceptedProper(s: State, r: nat, heapStart: nat, heapPosition: nat, addr: nat, size: nat)
    requires Accepts(s, r, heapStart, heapPosition, addr, size) && addr + size < WORD && size <= UINT
    requires Overhangs(addr, size) ==> Mapped(s, r, CountedEnd(addr, size))
    ensures Proper(s, r, heapStart, heapPosition, addr, size)
  {
    hide PathOf, Resolve, PageEntry, Process.RequestPages;
    PagesExact(size);
    forall a: nat | addr <= a < addr + size ensures Mapped(s, r, a) {
      InCounted(s, r, addr, size, a);
    }
  }

  /** An address of the range lies on one of the pages counted or on the one behind them. */
  lemma InCounted(s: State, r: nat, addr: nat, size: nat, a: nat)
    requires addr <= a < addr + size
    ensures var base, n, k := addr / PAGE * PAGE, (size + PAGE - 1) / PAGE, a / PAGE - addr / PAGE;
      && 0 <= k <= n && (k < n <==> a < CountedEnd(addr, size)) && (k == n ==> Overhangs(addr, size))
      && PageEntry(s, r, a) == PageEntry(s, r, base + k * PAGE) && base + n * PAGE == CountedEnd(addr, size)
  {
    hide PathOf, Resolve;
    var k := a / PAGE - addr / PAGE;
    SamePage(s, r, a, addr / PAGE * PAGE + k * PAGE);
  }

  lemma SamePage(s: State, r: nat, a: nat, b: nat)
    requires a / PAGE == b / PAGE
    ensures PageEntry(s, r, a) == PageEntry(s, r, b)
  {
    hide PathOf, Resolve;
    PathInjective(a, b);
  }

  /** After a request was served, an address of its range is still mapped exactly if it was mapped on the page that the
      range overhangs. */
  ghost predicate LeavesOverhang(s0: State, s: State, r: nat, addr: nat, size: nat) {
    forall a: nat :: addr <= a < addr + size ==>
      (Mapped(s, r, a) <==> a >= CountedEnd(addr, size) && Mapped(s0, r, a))
  }

  lemma MunmapLeaves(s0: State, s: State, r: nat, addr: nat, size: nat)
    requires size <= UINT && Unmapped(s0, s, r, addr / PAGE * PAGE, Process.RequestPages(size))
    ensures LeavesOverhang(s0, s, r, addr, size)
    ensures (exists a: nat :: addr <= a < addr + size && Mapped(s, r, a))
            <==> Overhangs(addr, size) && Mapped(s0, r, CountedEnd(addr, size))
  {
    hide PathOf, Resolve, Process.RequestPages;
    PagesExact(size);
    forall a: nat | addr <= a < addr + size
      ensures Mapped(s, r, a) <==> a >= CountedEnd(addr, size) && Mapped(s0, r, a)
    {
      InCounted(s0, r, addr, size, a);
      InCounted(s, r, addr, size, a);
    }
    if Overhangs(addr, size) && Mapped(s0, r, CountedEnd(addr, size)) {
      assert Mapped(s, r, CountedEnd(addr, size));
    }
    if a: nat :| addr <= a < addr + size && Mapped(s, r, a) {
      InCounted(s0, r, addr, size, a);
    }
  }

  /** Two bytes across a page boundary: only the first of their pages has to be mapped for the request to be served. */
  lemma UnalignedRequestAccepted(s: State, r: nat)
    requires Mapped(s, r, 0x40_0000) && !Mapped(s, r, 0x40_1000)
    ensures Accepts(s, r, 0x40_0000, 0x50_0000, 0x40_0FFF, 2)
    ensures !Proper(s, r, 0x40_0000, 0x50_0000, 0x40_0FFF, 2)
  {
    hide PathOf, Resolve, Mapped;
    PagesExact(2);
    assert Overhangs(0x40_0FFF, 2);
  }

  /** A proper request of 4 GiB and one byte is not accepted: its last round meets the first page again. */
  lemma LongRequestFails(s: State, r: nat, heapStart: nat, heapPosition: nat, addr: nat)
    requires Proper(s, r, heapStart, heapPosition, addr, UINT + 1)
    ensures !Accepts(s, r, heapStart, heapPosition, addr, UINT + 1)
    ensures Process.RequestPages(UINT + 1) == ROUNDS + 1
    ensures Visited(addr / PAGE * PAGE, ROUNDS) == Visited(addr / PAGE * PAGE, 0)
  {
    hide Mapped;
    PagesExact(UINT + 1);
    VisitedAgain(addr / PAGE * PAGE);
  }

  lemma VisitedAgain(base: nat)
    ensures Visited(base, ROUNDS) == Visited(base, 0)
  {
  }

  /** A request whose size wraps around when it is aligned is accepted without a look at any page. */
  lemma WrappedSizeAccepted(s: State, r: nat)
    ensures Accepts(s, r, 0x40_0000, 0x50_0000, 0x40_0000, WORD - 1)
    ensures !Proper(s, r, 0x40_0000, 0x50_0000, 0x40_0000, WORD - 1)
  {
    assert Process.RequestPages(WORD - 1) == 0;
  }

  /** The last page of the address space is accepted for every heap, if it is mapped. */
  lemma WrappedRangeAccepted(s: State, r: nat, heapStart: nat, heapPosition: nat)
    requires heapStart <= heapPosition <= LOWER_END && Mapped(s, r, WORD - PAGE)
    ensures Accepts(s, r, heapStart, heapPosition, WORD - PAGE, PAGE)
    ensures !Proper(s, r, heapStart, heapPosition, WORD - PAGE, PAGE)
  {
    hide PathOf, Resolve;
    assert Process.RequestPages(PAGE) == 1;
    assert (WORD - PAGE) / PAGE * PAGE + 0 * PAGE == WORD - PAGE;
  }

  /** The conversion `(int)` of a 64-bit address, widened again into the result register. */
  /** The pages that mmap maps hold the request, and no page less would, exactly if it is less than 2^32 pages long. */
  lemma MmapExact(size: nat)
    requires size < WORD
    ensures var n := Process.RequestPages(size) % UINT;
      size <= n * PAGE < size + PAGE <==> size <= (UINT - 1) * PAGE
  {
  }

  function ReturnedInt(a: nat): nat {
    var low := a % UINT;
    if low < UINT / 2 then low else low + (WORD - UINT)
  }

  /** mmap returns the address it mapped exactly when the address is a sign-extended 32-bit number. */
  lemma ReturnedIntExact(a: nat)
    requires a < WORD
    ensures ReturnedInt(a) == a <==> a < UINT / 2 || a >= WORD - UINT / 2
  {
  }

  lemma UserPage(s: State, r: nat, virt: nat)
    requires Inv(s) && Level(s, r) == 4 && r != s.kernel && PathOf(virt)[0] < UPPER_HALF
    ensures Mapped(s, r, virt) ==> Owned(s, r, PathOf(virt))
  {
    if Mapped(s, r, virt) {
      UserPagesOwned(s, r, PathOf(virt));
    }
  }

  /** One round of the loop of syscall_unmap unmaps its page and leaves the others alone. */
  lemma UnmapOne(s0: State, s: State, s': State, r: nat, base: nat, i: nat, n: nat)
    requires Inv(s) && Level(s, r) == 4 && i < n && i < ROUNDS
    requires Reaches(s0, UnmapOps(r, base, i), s) && OwnedPages(s, r, base, i, n) && Unmapped(s0, s, r, base, i)
    requires UnmapFree(s, r, PathOf(base + i * PAGE)) == Some(s')
    ensures Reaches(s0, UnmapOps(r, base, i + 1), s') && Level(s', r) == 4
    ensures OwnedPages(s', r, base, i + 1, n) && Unmapped(s0, s', r, base, i + 1)
  {
    hide PathOf, Inv, Resolve, UnmapFree, Reaches, UnmapOps, Owned;
    var op := UnmapAndFree(r, PathOf(base + i * PAGE));
    assert Legal(s, op);
    StepCorrect(s, op);
    ReachesMore(s0, UnmapOps(r, base, i), s, op);
    UnmapOpsLast(r, base, i);
    forall k: nat | k < PAGES && k != i ensures PageEntry(s', r, base + k * PAGE) == PageEntry(s, r, base + k * PAGE) {
      if k < i { DifferentPages(base, k, i); } else { DifferentPages(base, i, k); }
    }
    forall k: nat | i + 1 <= k < n && k < ROUNDS && Mapped(s', r, base + k * PAGE)
      ensures Owned(s', r, PathOf(base + k * PAGE))
    {
      assert Mapped(s, r, base + k * PAGE);
      DifferentPages(base, i, k);
      StepKeepsOwned(s, op, r, PathOf(base + k * PAGE));
    }
  }

  lemma UnmapOpsLast(r: nat, base: nat, n: nat)
    ensures UnmapOps(r, base, n + 1) == UnmapOps(r, base, n) + [UnmapAndFree(r, PathOf(base + n * PAGE))]
  {
  }

  lemma PagesExact(size: nat)
    requires size + PAGE - 1 < WORD
    ensures Process.RequestPages(size) == (size + PAGE - 1) / PAGE
    ensures Process.RequestPages(size) <= ROUNDS <==> size <= UINT
  {
  }
}
