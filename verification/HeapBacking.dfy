/** The pages behind the kernel heap: each has a frame of its own, whatever else is mapped and unmapped. */
module HeapBacking {
  import opened Arithmetic
  import opened Wrappers
  import opened PageTables
  import opened PageTableSteps
  import opened PageTableRuns
  import opened Ram
  import opened Syscall
  import Sets

  /** The pages from `start` on are different pages of the kernel's pagemap, and each owns its frame. */
  ghost predicate Backed(s: State, start: nat, pages: nat, flags: Flags) {
    pages <= PAGES && forall k: nat :: k < pages ==> RangePage(s, s.kernel, start, k, flags)
  }

  // ---------------------------------------------------------------- how many pages there can be

  ghost function FrameAt(s: State, start: nat, k: nat): nat {
    var e := Resolve(s.mem, s.kernel, PathOf(start + k * PAGE));
    if e.Present? then e.frame else 0
  }

  lemma DifferentFrames(s: State, start: nat, pages: nat, flags: Flags, j: nat, k: nat)
    requires Inv(s) && Level(s, s.kernel) == 4 && Backed(s, start, pages, flags) && j < k < pages
    ensures FrameAt(s, start, j) != FrameAt(s, start, k)
  {
    hide PathOf, Inv, Owned;
    assert RangePage(s, s.kernel, start, j, flags) && RangePage(s, s.kernel, start, k, flags);
    OwnedPresent(s, s.kernel, PathOf(start + j * PAGE));
    OwnedPresent(s, s.kernel, PathOf(start + k * PAGE));
    RolesExclude(s, s.kernel, PathOf(start + j * PAGE), s.kernel, PathOf(start + k * PAGE));
    DifferentPages(start, j, k);
  }

  /** There are no more such pages than frames. */
  lemma BackedBound(s: State, start: nat, pages: nat, flags: Flags)
    requires Inv(s) && Level(s, s.kernel) == 4 && Backed(s, start, pages, flags)
    ensures pages <= |s.role|
  {
    hide Inv, PathOf, Owned;
    var frames := seq(pages, k requires 0 <= k => FrameAt(s, start, k));
    forall k | 0 <= k < pages ensures frames[k] < |s.role| {
      assert RangePage(s, s.kernel, start, k, flags);
      OwnedPresent(s, s.kernel, PathOf(start + k * PAGE));
    }
    forall j, k | 0 <= j < k < pages ensures frames[j] != frames[k] {
      DifferentFrames(s, start, pages, flags, j, k);
    }
    Sets.Pigeonhole(frames, |s.role|);
  }

  // ---------------------------------------------------------------- growing

  lemma FreshTakesFrame(s: State, r: nat, p: Path, flags: Flags)
    requires |p| == 4 && MapFresh(s, r, p, flags).Some?
    ensures |MapFresh(s, r, p, flags).value.free| < |s.free|
  {
    var a := Allocate(s).value;
    DescentTakes(a.0, r, p, TableFlags(flags));
  }

  lemma DescentTakes(s: State, r: nat, p: Path, flags: Flags)
    requires |p| == 4 && DescentOf(s, r, p, flags).Some?
    ensures DescentOf(s, r, p, flags).value.0.free <= s.free
    ensures |DescentOf(s, r, p, flags).value.0.free| <= |s.free|
  {
    Sets.SubsetSize(DescentOf(s, r, p, flags).value.0.free, s.free);
  }

  /** A run that maps `n` pages starts with at least `n` free frames. */
  lemma {:induction false} MapsBound(s: State, r: nat, base: nat, n: nat, flags: Flags, s': State)
    requires Reaches(s, MapOps(r, base, n, flags), s')
    ensures |s'.free| + n <= |s.free|
  {
    hide PathOf, Reaches, MapFresh, MapOps;
    if n == 0 {
      RunNothing(s, r, base, flags, s');
    } else {
      var op := MapNew(r, PathOf(base + (n - 1) * PAGE), flags);
      MapOpsLast(r, base, n - 1, flags);
      ReachesSplit(s, MapOps(r, base, n - 1, flags), op, s');
      var s1 :| Reaches(s, MapOps(r, base, n - 1, flags), s1) && Legal(s1, op) && Step(s1, op) == Some(s');
      MapsBound(s, r, base, n - 1, flags, s1);
      FreshTakesFrame(s1, r, op.page, flags);
    }
  }

  lemma RunNothing(s: State, r: nat, base: nat, flags: Flags, s': State)
    requires Reaches(s, MapOps(r, base, 0, flags), s')
    ensures s' == s
  {
  }

  /** Mapping the pages behind a range keeps the pages of the range. */
  lemma {:induction false} RangeKept(s: State, r: nat, start: nat, m: nat, n: nat, flags: Flags, s': State, k: nat)
    requires Inv(s) && Level(s, r) == 4 && k < m && m + n <= PAGES && RangePage(s, r, start, k, flags)
    requires Reaches(s, MapOps(r, start + m * PAGE, n, flags), s')
    ensures RangePage(s', r, start, k, flags)
  {
    hide PathOf, Inv, Step, Legal, Reaches, MapOps, RangePage, StableSlots;
    if n == 0 {
      RunNothing(s, r, start + m * PAGE, flags, s');
    } else {
      var op := MapNew(r, PathOf(start + (m + n - 1) * PAGE), flags);
      assert start + m * PAGE + (n - 1) * PAGE == start + (m + n - 1) * PAGE;
      MapOpsLast(r, start + m * PAGE, n - 1, flags);
      ReachesSplit(s, MapOps(r, start + m * PAGE, n - 1, flags), op, s');
      var s1 :| Reaches(s, MapOps(r, start + m * PAGE, n - 1, flags), s1) && Legal(s1, op) && Step(s1, op) == Some(s');
      RunCorrect(s, MapOps(r, start + m * PAGE, n - 1, flags), s1);
      RangeKept(s, r, start, m, n - 1, flags, s1, k);
      PageKept(s1, r, start, k, m + n - 1, flags);
    }
  }

  /** heap_expand_pages: the range grows by the pages mapped behind it. */
  lemma BackedGrows(s: State, start: nat, m: nat, n: nat, flags: Flags, s': State)
    requires Inv(s) && Level(s, s.kernel) == 4 && Backed(s, start, m, flags) && 2 * |s.role| <= PAGES
    requires Reaches(s, MapOps(s.kernel, start + m * PAGE, n, flags), s')
    requires |s.free| <= |s.role|
    ensures Backed(s', start, m + n, flags)
  {
    hide PathOf, Inv, Reaches, MapOps, RangePage;
    BackedBound(s, start, m, flags);
    MapsBound(s, s.kernel, start + m * PAGE, n, flags, s');
    RunCorrect(s, MapOps(s.kernel, start + m * PAGE, n, flags), s');
    forall k: nat | k < m + n ensures RangePage(s', s'.kernel, start, k, flags) {
      if k < m {
        RangeKept(s, s.kernel, start, m, n, flags, s', k);
      } else {
        RangeMapped(s, s.kernel, start + m * PAGE, n, flags, s', k - m);
        SameRangePage(s', s'.kernel, start, m, k, flags);
      }
    }
  }

  lemma SameRangePage(s: State, r: nat, start: nat, m: nat, k: nat, flags: Flags)
    requires m <= k && RangePage(s, r, start + m * PAGE, k - m, flags)
    ensures RangePage(s, r, start, k, flags)
  {
    hide PathOf, Owned, Resolve;
    assert start + m * PAGE + (k - m) * PAGE == start + k * PAGE;
  }

  // ---------------------------------------------------------------- staying

  /** A run that names no page of the heap leaves the heap backed. */
  lemma RunKeepsBacked(s: State, ops: seq<Op>, s': State, start: nat, pages: nat, flags: Flags)
    requires Inv(s) && Reaches(s, ops, s') && Level(s, s.kernel) == 4 && Backed(s, start, pages, flags)
    requires forall k: nat :: k < pages ==> Spares(s, ops, s.kernel, PathOf(start + k * PAGE))
    ensures Backed(s', start, pages, flags)
  {
    hide PathOf, Inv, Reaches, Owned, Resolve, Spares;
    RunCorrect(s, ops, s');
    forall k: nat | k < pages ensures RangePage(s', s'.kernel, start, k, flags) {
      assert RangePage(s, s.kernel, start, k, flags);
      RunKeepsOwned(s, ops, s', s.kernel, PathOf(start + k * PAGE));
    }
  }

  /** No frame behind the heap is free, a page table, or the frame of another owned page, such as one of a process. */
  lemma BackedSeparate(s: State, start: nat, pages: nat, flags: Flags, k: nat, r': nat, p': Path)
    requires Inv(s) && Level(s, s.kernel) == 4 && Backed(s, start, pages, flags) && k < pages
    requires Level(s, r') == 4 && ValidPath(p')
    ensures Separate(s, s.kernel, PathOf(start + k * PAGE), r', p')
  {
    hide PathOf, Inv;
    assert RangePage(s, s.kernel, start, k, flags);
    RolesExclude(s, s.kernel, PathOf(start + k * PAGE), r', p');
  }
}
