/** The start of a process from an ELF file, kernel/system/process.c: a new pagemap and the image loaded into it. */
module Spawn {
  import opened Arithmetic
  import opened Wrappers
  import opened PageTables
  import opened PageTableSteps
  import opened PageTableRuns
  import opened Ram
  import opened Vmm
  import opened UserMemory
  import opened AccessRights
  import opened PageRanges
  import opened Elf
  import Pmm

  /** Every program header is in the file, every segment can be loaded below the end of the lower half, and no two
      segments share a page. */
  predicate Fits(image: seq<Byte>) {
    && HeaderOk(image)
    && (forall i: nat :: i < SegmentCount(image) ==> InFile(image, i))
    && (forall i: nat :: i < SegmentCount(image) && IsLoad(image, i) ==>
          Loadable(image, LoadAt(image, i)) && EndPage(LoadAt(image, i)) <= LOWER_END)
    && (forall i: nat, j: nat :: i < j < SegmentCount(image) && IsLoad(image, i) && IsLoad(image, j) ==>
          var g, h := LoadAt(image, i), LoadAt(image, j);
          EndPage(g) <= FirstPage(h) || EndPage(h) <= FirstPage(g))
  }

  /** The lower half of a new pagemap maps nothing. */
  lemma NewPagemapVacant(s: State, start: nat, end: nat)
    requires Inv(s) && NewPagemap(s).Some? && end <= LOWER_END
    ensures Vacant(NewPagemap(s).value.0, NewPagemap(s).value.1, start, end)
  {
    hide PathOf, Inv, NewPagemap;
    NewPagemapCorrect(s);
    var (s', g) := NewPagemap(s).value;
    forall a: nat | start <= a < end && a % PAGE == 0 ensures !Mapped(s', g, a) {
      LowerHalfPath(a);
      NoPath(s'.mem, g, PathOf(a));
    }
  }

  lemma NoPath(mem: seq<Table>, r: nat, p: Path)
    requires |p| == 4 && EntryAt(mem, r, p[0]) == Zero
    ensures Resolve(mem, r, p) == Zero
  {
    assert Init(p[..1]) == [] && Init(p[..2]) == p[..1] && Init(p[..3]) == p[..2];
    assert Walk(mem, r, p[..1]) == None;
    assert Walk(mem, r, p[..2]) == None;
  }

  lemma RangesApart(start: nat, end: nat, lo: nat, hi: nat)
    requires end <= LOWER_END && hi <= LOWER_END && (end <= lo || hi <= start)
    ensures Apart(start, end, lo, hi)
  {
    hide PathOf;
    forall a: nat | lo <= a < hi && a % PAGE == 0 ensures !Covers(start, end, PathOf(a)) {
      if Covers(start, end, PathOf(a)) {
        var b: nat :| start <= b < end && b % PAGE == 0 && PathOf(b) == PathOf(a);
        if a <= b {
          DistinctPages(a, b);
        } else {
          DistinctPages(b, a);
        }
      }
    }
  }

  /** The image fits, and the frames suffice for the PML4 and the pages with their tables. */
  ghost predicate Affordable(image: seq<Byte>, s: State) {
    Fits(image) && |s.free| > PagesNeeded(image, SegmentCount(image)) * FRAMES_PER_PAGE
  }

  lemma NewPagemapTakesOne(s: State)
    requires Inv(s) && s.free != {}
    ensures NewPagemap(s).Some? && |NewPagemap(s).value.0.free| == |s.free| - 1
  {
    AllocateOk(s);
  }

  /** Such an image is ready to be loaded into a new pagemap. */
  lemma AffordableIsReady(image: seq<Byte>, s: State)
    requires Inv(s) && Affordable(image, s)
    ensures NewPagemap(s).Some? && ImageReady(image, NewPagemap(s).value.0, NewPagemap(s).value.1)
  {
    hide Field, Vacant, Apart, Inv, PagesNeeded, NewPagemap, Loadable, FirstPage, EndPage;
    NewPagemapTakesOne(s);
    var (s', r) := NewPagemap(s).value;
    forall j: nat | j < SegmentCount(image) && IsLoad(image, j)
      ensures var g := LoadAt(image, j); Vacant(s', r, FirstPage(g), EndPage(g)) && EndPage(g) <= FirstPage(g) + SPACE
    {
      NewPagemapVacant(s, FirstPage(LoadAt(image, j)), EndPage(LoadAt(image, j)));
    }
    forall j: nat, k: nat | j < k < SegmentCount(image) && IsLoad(image, j) && IsLoad(image, k)
      ensures var g, h := LoadAt(image, j), LoadAt(image, k); Apart(FirstPage(g), EndPage(g), FirstPage(h), EndPage(h))
    {
      var g, h := LoadAt(image, j), LoadAt(image, k);
      RangesApart(FirstPage(g), EndPage(g), FirstPage(h), EndPage(h));
    }
  }

  /** Every address of segment `g` shows its byte of the image, in the lower half with exactly the rights of the
      segment. */
  ghost predicate Runs(ram: seq<Page>, s: State, r: nat, image: seq<Byte>, g: Segment) {
    && Loaded(ram, s, r, image, g)
    && (forall a: nat :: g.vaddr <= a < g.vaddr + g.memsz && a < LOWER_END ==>
          Asks(g.flags, Effective(s.mem, r, PathOf(a))))
  }

  lemma LoadedRuns(ram: seq<Page>, s: State, r: nat, image: seq<Byte>, g: Segment)
    requires Inv(s) && Level(s, r) == 4 && UserTables(s, r) && Loaded(ram, s, r, image, g)
    ensures Runs(ram, s, r, image, g)
  {
    hide PathOf, Inv, UserTables, Effective, Loaded, Asks;
    forall a: nat | g.vaddr <= a < g.vaddr + g.memsz && a < LOWER_END
      ensures Asks(g.flags, Effective(s.mem, r, PathOf(a)))
    {
      LowerHalfPath(a);
      SegmentRights(ram, s, r, image, g, a);
    }
  }

  ghost predicate AllRun(ram: seq<Page>, s: State, r: nat, image: seq<Byte>) {
    && HeaderOk(image)
    && (forall i: nat :: i < SegmentCount(image) ==> InFile(image, i))
    && (forall i: nat :: i < SegmentCount(image) && IsLoad(image, i) ==> Runs(ram, s, r, image, LoadAt(image, i)))
  }

  lemma LoadedAllRun(ram: seq<Page>, s: State, r: nat, image: seq<Byte>)
    requires Inv(s) && Level(s, r) == 4 && UserTables(s, r)
    requires HeaderOk(image) && LoadedUpTo(ram, s, r, image, SegmentCount(image))
    ensures AllRun(ram, s, r, image)
  {
    hide Inv, UserTables, Loaded, Runs, Field;
    forall i: nat | i < SegmentCount(image) && IsLoad(image, i) ensures Runs(ram, s, r, image, LoadAt(image, i)) {
      LoadedRuns(ram, s, r, image, LoadAt(image, i));
    }
  }

  /** The first two steps of process_spawn_elf; `None` is a panic. An image that fits is loaded whenever there are
      enough frames, and then runs as its program headers say. */
  method SpawnElf(m: Machine, image: seq<Byte>) returns (p: Option<(nat, Info)>)
    requires m.Valid() && ProperImage(image)
    modifies m, m.pmm, m.pmm.bitmap
    ensures p.Some? ==> m.Valid() && Level(m.Abs(), p.value.0) == 4 && AllRun(m.ram, m.Abs(), p.value.0, image)
    ensures p.Some? ==> p.value.1 == InfoOf(image)
    ensures Affordable(image, old(m.Abs())) ==> p.Some?
  {
    hide Inv, Pmm.ClearBits, UserTables, AllRun, LoadedUpTo, Affordable, ImageReady, Keeps, ProperImage, HeaderOk,
      InfoOf;
    if Affordable(image, m.Abs()) {
      AffordableIsReady(image, m.Abs());
    }
    var r := m.NewPagemap();
    if r.None? {
      return None;
    }
    NewPagemapCorrect(old(m.Abs()));
    NewPagemapUser(old(m.Abs()));
    var info := Load(m, r.value, image);
    if info.None? {
      return None;
    }
    LoadedAllRun(m.ram, m.Abs(), r.value, image);
    return Some((r.value, info.value));
  }
}
