/** Ranges of pages that are vacant, and what mapping them page by page leaves alone. */
module PageRanges {
  import opened Arithmetic
  import opened PageTables
  import opened PageTableRuns
  import opened Ram
  import opened UserMemory

  /** `p` is one of the pages from `start` up to `end`. */
  ghost predicate Covers(start: nat, end: nat, p: Path) {
    exists a: nat :: start <= a < end && a % PAGE == 0 && PathOf(a) == p
  }

  ghost predicate Vacant(s: State, r: nat, start: nat, end: nat) {
    forall a: nat :: start <= a < end && a % PAGE == 0 ==> !Mapped(s, r, a)
  }

  /** The pages are vacant, are different pages, and enough frames are free to map them all. */
  ghost predicate Ready(s: State, r: nat, start: nat, end: nat) {
    start <= end <= start + SPACE && Vacant(s, r, start, end) && |s.free| >= (end - start) / PAGE * FRAMES_PER_PAGE
  }

  /** Only pages of the range were mapped, and no more frames taken than they can need. */
  ghost predicate Progress(s0: State, s: State, r: nat, start: nat, end: nat) {
    && start <= end
    && (forall p: Path :: ValidPath(p) && |p| == 4 && !Covers(start, end, p) ==>
          Resolve(s.mem, r, p) == Resolve(s0.mem, r, p))
    && |s.free| >= |s0.free| - (end - start) / PAGE * FRAMES_PER_PAGE
  }

  lemma NotCovered(start: nat, a: nat)
    requires start % PAGE == 0 && a % PAGE == 0 && start <= a < start + SPACE
    ensures !Covers(start, a, PathOf(a))
  {
    hide PathOf;
    if Covers(start, a, PathOf(a)) {
      var b: nat :| start <= b < a && b % PAGE == 0 && PathOf(b) == PathOf(a);
      DistinctPages(b, a);
    }
  }

  /** The next page of a range that is ready can be mapped. */
  lemma NextReady(s0: State, s: State, r: nat, start: nat, a: nat, end: nat)
    requires Ready(s0, r, start, end) && Progress(s0, s, r, start, a) && start <= a < end
    requires start % PAGE == 0 && a % PAGE == 0 && end % PAGE == 0
    ensures !Mapped(s, r, a) && |s.free| >= FRAMES_PER_PAGE
  {
    hide PathOf, Resolve, Covers;
    NotCovered(start, a);
    assert !Mapped(s0, r, a);
    assert (end - start) / PAGE >= (a - start) / PAGE + 1;
  }

  /** Mapping it is progress. */
  lemma MapProgress(s0: State, s: State, r: nat, start: nat, a: nat, flags: Flags)
    requires Inv(s) && Level(s, r) == 4 && Progress(s0, s, r, start, a) && start % PAGE == 0 && a % PAGE == 0
    requires MapFresh(s, r, PathOf(a), flags).Some?
    ensures Progress(s0, MapFresh(s, r, PathOf(a), flags).value, r, start, a + PAGE)
  {
    hide PathOf, Resolve, MapFresh, Inv;
    var s' := MapFresh(s, r, PathOf(a), flags).value;
    MapFreshCorrect(s, r, PathOf(a), flags);
    MapFreshBudget(s, r, PathOf(a), flags);
    assert (a + PAGE - start) / PAGE == (a - start) / PAGE + 1;
    forall p: Path | ValidPath(p) && |p| == 4 && !Covers(start, a + PAGE, p)
      ensures Resolve(s'.mem, r, p) == Resolve(s0.mem, r, p)
    {
      CoversMore(start, a, p);
    }
  }

  lemma CoversMore(start: nat, a: nat, p: Path)
    requires start <= a && a % PAGE == 0 && !Covers(start, a + PAGE, p)
    ensures !Covers(start, a, p) && PathOf(a) != p
  {
    hide PathOf;
  }

  lemma ProgressStart(s: State, r: nat, start: nat)
    ensures Progress(s, s, r, start, start)
  {
  }

  /** Writing data is not noticed. */
  lemma DataProgress(s0: State, s: State, s': State, r: nat, start: nat, end: nat)
    requires Inv(s) && Level(s, r) == 4 && Progress(s0, s, r, start, end) && DataOnly(s, s')
    ensures Progress(s0, s', r, start, end)
  {
    hide Resolve, Covers, Inv;
    DataOnlyKeeps(s, s');
  }

  ghost predicate Apart(start: nat, end: nat, lo: nat, hi: nat) {
    forall a: nat :: lo <= a < hi && a % PAGE == 0 ==> !Covers(start, end, PathOf(a))
  }

  /** A range apart from the one that was mapped stays vacant. */
  lemma StaysVacant(s: State, s': State, r: nat, start: nat, end: nat, lo: nat, hi: nat)
    requires Progress(s, s', r, start, end) && Vacant(s, r, lo, hi) && Apart(start, end, lo, hi)
    ensures Vacant(s', r, lo, hi)
  {
    hide Resolve, PathOf, Covers;
    forall a: nat | lo <= a < hi && a % PAGE == 0 ensures !Mapped(s', r, a) {
      assert !Mapped(s, r, a);
    }
  }
}
