/** The ELF64 loader of kernel/system/elf.c: segments are mapped page by page, copied and cleared
    through the page tables. */
module Elf {
  import opened Arithmetic
  import opened Wrappers
  import opened PageTables
  import opened PageTableRuns
  import opened Ram
  import opened Vmm
  import opened UserMemory
  import opened AccessRights
  import opened PageRanges
  import opened Bits
  import Pmm

  const HEADER_SIZE: nat := 64
  const PHDR_SIZE: nat := 56
  const PT_LOAD: nat := 1

  datatype Segment = Segment(kind: nat, flags: nat, offset: nat, vaddr: nat, filesz: nat, memsz: nat)

  datatype Info = Info(entry: nat, size: nat, base: nat)

  // ---------------------------------------------------------------- the file

  function Field(image: seq<Byte>, at: nat, n: nat): nat
    requires at + n <= |image|
  {
    FromBytes(image[at..at + n])
  }

  /** The five checks on the ELF header. */
  predicate HeaderOk(image: seq<Byte>) {
    && |image| >= HEADER_SIZE
    && image[0] == 0x7F && image[1] == 0x45 && image[2] == 0x4C && image[3] == 0x46
    && image[4] == 2
    && Field(image, 18, 2) == 0x3E
    && Field(image, 54, 2) == PHDR_SIZE
  }

  function SegmentStart(image: seq<Byte>, i: nat): nat
    requires |image| >= HEADER_SIZE
  {
    Field(image, 32, 8) + i * PHDR_SIZE
  }

  function SegmentCount(image: seq<Byte>): nat
    requires |image| >= HEADER_SIZE
  {
    Field(image, 56, 2)
  }

  function SegmentAt(image: seq<Byte>, start: nat): Segment
    requires start + PHDR_SIZE <= |image|
  {
    Segment(Field(image, start, 4), Field(image, start + 4, 4), Field(image, start + 8, 8),
            Field(image, start + 16, 8), Field(image, start + 32, 8), Field(image, start + 40, 8))
  }

  /** The program header `i` is in the file. */
  predicate InFile(image: seq<Byte>, i: nat)
    requires |image| >= HEADER_SIZE
  {
    SegmentStart(image, i) + PHDR_SIZE <= |image|
  }

  /** No address of the segment wraps around, and the file part is not longer than the segment. */
  predicate Proper(g: Segment) {
    g.filesz <= g.memsz && g.offset + g.filesz < WORD && g.vaddr + g.memsz + PAGE - 1 < WORD
  }

  predicate ProperImage(image: seq<Byte>) {
    HeaderOk(image) ==>
      && SegmentStart(image, SegmentCount(image)) < WORD
      && (forall i: nat :: i < SegmentCount(image) && InFile(image, i) ==>
            var g := SegmentAt(image, SegmentStart(image, i));
            g.kind == PT_LOAD ==> Proper(g))
  }

  const PF_X: nat := 1
  const PF_W: nat := 2

  /** The flags that the pages of a segment are mapped with. */
  function SegmentFlags(g: Segment): Flags {
    Flags(g.flags / 2 % 2 == 1, true, g.flags % 2 == 0)
  }

  /** The rights that a program header asks for: user, writable with PF_W, executable with PF_X. */
  ghost predicate Asks(pFlags: nat, f: Flags) {
    f.user && (f.writable <==> And(pFlags, PF_W) != 0) && (f.noExecute <==> And(pFlags, PF_X) == 0)
  }

  lemma FlagsAsked(g: Segment, f: Flags)
    ensures f == SegmentFlags(g) <==> Asks(g.flags, f)
  {
    BitTest(g.flags, 0);
    BitTest(g.flags, 1);
    assert Shl(1, 0) == 1 && Shl(1, 1) == 2;
  }

  // ---------------------------------------------------------------- what loading keeps

  /** Page `p` is still owned, with the same entry and the same bytes. */
  ghost predicate KeptPage(ram: seq<Page>, s: State, ram': seq<Page>, s': State, r: nat, p: Path)
    requires |p| == 4
  {
    && Owned(s, r, p) && Owned(s', r, p) && Resolve(s'.mem, r, p) == Resolve(s.mem, r, p)
    && var f := Resolve(s.mem, r, p).frame;
    f < |ram| && f < |ram'| && ram'[f] == ram[f]
  }

  ghost predicate Keeps(ram: seq<Page>, s: State, ram': seq<Page>, s': State, r: nat) {
    forall p: Path :: ValidPath(p) && |p| == 4 && Owned(s, r, p) ==> KeptPage(ram, s, ram', s', r, p)
  }

  lemma KeepsTrans(ram: seq<Page>, s: State, ram1: seq<Page>, s1: State, ram2: seq<Page>, s2: State, r: nat)
    requires Keeps(ram, s, ram1, s1, r) && Keeps(ram1, s1, ram2, s2, r)
    ensures Keeps(ram, s, ram2, s2, r)
  {
    hide Owned, Resolve;
    forall p: Path | ValidPath(p) && |p| == 4 && Owned(s, r, p) ensures KeptPage(ram, s, ram2, s2, r, p) {
      assert KeptPage(ram, s, ram1, s1, r, p);
      assert KeptPage(ram1, s1, ram2, s2, r, p);
    }
  }

  /** Mapping a page that was not owned keeps the owned pages. */
  lemma MapFreshKeeps(ram: seq<Page>, s: State, ram': seq<Page>, s': State, r: nat, p: Path, flags: Flags)
    requires Inv(s) && Level(s, r) == 4 && ValidPath(p) && |p| == 4 && !Owned(s, r, p)
    requires MapFresh(s, r, p, flags) == Some(s')
    requires |ram| == |ram'| == |s.role|
    requires forall h :: 0 <= h < |ram| && IsData(s.role, h) ==> ram'[h] == ram[h]
    ensures Keeps(ram, s, ram', s', r) && Level(s', r) == 4
    ensures Owned(s', r, p) && Resolve(s'.mem, r, p).flags == flags
  {
    hide MapFresh;
    MapFreshCorrect(s, r, p, flags);
    var g := Allocate(s).value.1;
    assert Resolve(s'.mem, r, p) == Present(g, flags);
    forall q: Path | ValidPath(q) && |q| == 4 && Owned(s, r, q) ensures KeptPage(ram, s, ram', s', r, q) {
      RolesExclude(s, r, q, r, q);
      OwnedPersists(s, s', 0, r, q);
    }
  }

  // ---------------------------------------------------------------- one segment

  /** The page at `a` belongs to the segment being loaded: fresh, and with its flags. */
  ghost predicate FreshPage(s0: State, s: State, r: nat, a: nat, flags: Flags) {
    Owned(s, r, PathOf(a)) && PageEntry(s, r, a).flags == flags && !Owned(s0, r, PathOf(a))
  }

  ghost predicate FreshPages(s0: State, s: State, r: nat, start: nat, end: nat, flags: Flags) {
    forall a: nat :: start <= a < end && a % PAGE == 0 ==> FreshPage(s0, s, r, a, flags)
  }

  lemma FreshPagesKept(s0: State, ram: seq<Page>, s: State, ram': seq<Page>, s': State, r: nat, start: nat, end: nat,
                       flags: Flags)
    requires FreshPages(s0, s, r, start, end, flags) && Keeps(ram, s, ram', s', r)
    ensures FreshPages(s0, s', r, start, end, flags)
  {
    hide Owned, Resolve, PathOf;
    forall a: nat | start <= a < end && a % PAGE == 0 ensures FreshPage(s0, s', r, a, flags) {
      assert FreshPage(s0, s, r, a, flags);
      assert KeptPage(ram, s, ram', s', r, PathOf(a));
    }
  }

  lemma WrapsAround(a: nat)
    requires a >= SPACE
    ensures PathOf(a - SPACE) == PathOf(a)
  {
    hide PathOf;
    assert (a - SPACE) / PAGE == a / PAGE - PAGES;
    PathInjective(a - SPACE, a);
  }

  /** A page that is not owned is less than a whole address space away from the first one. */
  lemma NotWrapped(s0: State, s: State, r: nat, start: nat, a: nat, flags: Flags)
    requires FreshPages(s0, s, r, start, a, flags) && !Owned(s, r, PathOf(a))
    requires start % PAGE == 0 && start <= a && a - start <= SPACE
    ensures a - start < SPACE
  {
    hide PathOf;
    if a - start == SPACE {
      assert FreshPage(s0, s, r, start, flags);
      WrapsAround(a);
    }
  }

  /** The page loop of elf64_load: `false` is a page that is already mapped, or out of memory. */
  method MapPages(m: Machine, r: nat, start: nat, end: nat, flags: Flags) returns (ok: bool)
    requires m.Valid() && Level(m.Abs(), r) == 4 && start % PAGE == 0 && end % PAGE == 0 && start < end
    modifies m, m.pmm, m.pmm.bitmap
    ensures ok ==> m.Valid() && Level(m.Abs(), r) == 4 && end - start <= SPACE
    ensures ok ==> Keeps(old(m.ram), old(m.Abs()), m.ram, m.Abs(), r)
    ensures ok ==> FreshPages(old(m.Abs()), m.Abs(), r, start, end, flags)
    ensures ok && flags.user && UserTables(old(m.Abs()), r) ==> UserTables(m.Abs(), r)
    ensures ok ==> Progress(old(m.Abs()), m.Abs(), r, start, end)
    ensures Ready(old(m.Abs()), r, start, end) ==> ok
  {
    hide Owned, Resolve, PathOf, Pmm.ClearBits, MapFresh, Inv, Tables, UserTables, Progress, Ready, FreshPages, Keeps;
    ghost var s0, ram0 := m.Abs(), m.ram;
    KeepsSelf(m.ram, m.Abs(), r);
    ProgressStart(s0, r, start);
    FreshStart(s0, r, start, flags);
    var a := start;
    while a < end
      invariant start <= a <= end && a % PAGE == 0 && a - start <= SPACE
      invariant m.Valid() && Level(m.Abs(), r) == 4
      invariant Keeps(ram0, s0, m.ram, m.Abs(), r) && FreshPages(s0, m.Abs(), r, start, a, flags)
      invariant flags.user && UserTables(s0, r) ==> UserTables(m.Abs(), r)
      invariant Progress(s0, m.Abs(), r, start, a)
      decreases end - a
    {
      ghost var s, ram := m.Abs(), m.ram;
      if Ready(s0, r, start, end) {
        NextReady(s0, s, r, start, a, end);
        MapFreshBudget(s, r, PathOf(a), flags);
      }
      var phys := m.VirtToPhys(r, a);
      if phys != 0 {
        return false;
      }
      UnmappedPage(s, r, a);
      StillUnowned(ram0, s0, ram, s, r, a);
      NotWrapped(s0, s, r, start, a, flags);
      var mapped := m.MapFresh(r, a, flags);
      if !mapped {
        return false;
      }
      MappedPage(s0, ram, s, m.ram, m.Abs(), r, start, a, flags);
      KeepsTrans(ram0, s0, ram, s, m.ram, m.Abs(), r);
      MapProgress(s0, s, r, start, a, flags);
      if flags.user && UserTables(s, r) {
        MapFreshUser(s, r, PathOf(a), flags);
      }
      a := a + PAGE;
    }
    return true;
  }

  lemma FreshStart(s: State, r: nat, start: nat, flags: Flags)
    ensures FreshPages(s, s, r, start, start, flags)
  {
  }

  lemma KeepsSelf(ram: seq<Page>, s: State, r: nat)
    requires |ram| == |s.role|
    ensures Keeps(ram, s, ram, s, r)
  {
  }

  lemma StillUnowned(ram0: seq<Page>, s0: State, ram: seq<Page>, s: State, r: nat, a: nat)
    requires Keeps(ram0, s0, ram, s, r) && !Owned(s, r, PathOf(a))
    ensures !Owned(s0, r, PathOf(a))
  {
  }

  lemma UnmappedPage(s: State, r: nat, a: nat)
    requires Inv(s) && Level(s, r) == 4 && a % PAGE == 0
    requires Mapped(s, r, a) ==> PageEntry(s, r, a).frame * PAGE == 0
    ensures !Owned(s, r, PathOf(a)) && (Mapped(s, r, a) ==> PageEntry(s, r, a).frame == 0)
  {
    if Owned(s, r, PathOf(a)) {
      RolesExclude(s, r, PathOf(a), r, PathOf(a));
    }
  }

  /** One round of the page loop. */
  lemma MappedPage(s0: State, ram: seq<Page>, s: State, ram': seq<Page>, s': State, r: nat, start: nat, a: nat,
                   flags: Flags)
    requires Inv(s) && Level(s, r) == 4 && start <= a && a % PAGE == 0 && start % PAGE == 0
    requires !Owned(s, r, PathOf(a)) && (Mapped(s, r, a) ==> PageEntry(s, r, a).frame == 0)
    requires MapFresh(s, r, PathOf(a), flags) == Some(s') && |ram| == |ram'| == |s.role|
    requires forall h :: 0 <= h < |ram| && IsData(s.role, h) ==> ram'[h] == ram[h]
    requires FreshPages(s0, s, r, start, a, flags)
    requires !Owned(s0, r, PathOf(a))
    ensures Keeps(ram, s, ram', s', r) && FreshPages(s0, s', r, start, a + PAGE, flags)
    ensures Level(s', r) == 4
  {
    hide PathOf, MapFresh, Inv, Owned, Keeps, Resolve;
    MapFreshKeeps(ram, s, ram', s', r, PathOf(a), flags);
    FreshPagesKept(s0, ram, s, ram', s', r, start, a, flags);
    assert FreshPage(s0, s', r, a, flags);
    forall b: nat | start <= b < a + PAGE && b % PAGE == 0 ensures FreshPage(s0, s', r, b, flags) {
      if b >= a {
        assert b == a;
      }
    }
  }

  // ---------------------------------------------------------------- the contents of a segment

  /** Address `a` shows the byte that the segment has there: from the file, then zero. */
  ghost predicate ShowsByte(ram: seq<Page>, s: State, r: nat, image: seq<Byte>, g: Segment, a: nat)
    requires g.offset + g.filesz <= |image| && g.vaddr <= a
  {
    && Owned(s, r, PathOf(a))
    && PageEntry(s, r, a).flags == SegmentFlags(g)
    && ByteAt(ram, s, r, a) == Some(if a < g.vaddr + g.filesz then image[g.offset + (a - g.vaddr)] else 0)
  }

  /** Every address of the segment shows its byte, on an owned page with the flags of the segment. */
  ghost predicate Loaded(ram: seq<Page>, s: State, r: nat, image: seq<Byte>, g: Segment) {
    && g.offset + g.filesz <= |image|
    && (forall a: nat :: g.vaddr <= a < g.vaddr + g.memsz ==> ShowsByte(ram, s, r, image, g, a))
  }

  lemma LoadedKept(ram: seq<Page>, s: State, ram': seq<Page>, s': State, r: nat, image: seq<Byte>, g: Segment)
    requires Loaded(ram, s, r, image, g) && Keeps(ram, s, ram', s', r)
    ensures Loaded(ram', s', r, image, g)
  {
    hide Owned, Resolve, PathOf;
    forall a: nat | g.vaddr <= a < g.vaddr + g.memsz ensures ShowsByte(ram', s', r, image, g, a) {
      assert ShowsByte(ram, s, r, image, g, a);
      assert KeptPage(ram, s, ram', s', r, PathOf(a));
    }
  }

  /** The pages of a segment cover its addresses. */
  lemma PageOfAddress(s0: State, s: State, r: nat, start: nat, end: nat, flags: Flags, a: nat)
    requires FreshPages(s0, s, r, start, end, flags) && start % PAGE == 0 && end % PAGE == 0 && start <= a < end
    ensures FreshPage(s0, s, r, a, flags)
  {
    hide PathOf, Owned;
    var b := a / PAGE * PAGE;
    assert start <= b <= a && b / PAGE == a / PAGE && b % PAGE == 0;
    assert FreshPage(s0, s, r, b, flags);
    SamePage(a, b);
  }

  /** No frame of a page owned before is behind an address of the new segment. */
  lemma OldFramesMissed(s0: State, s: State, r: nat, start: nat, end: nat, flags: Flags, virt: nat, n: nat, p: Path,
                        o: nat)
    requires Inv(s) && Level(s, r) == 4 && FreshPages(s0, s, r, start, end, flags)
    requires start % PAGE == 0 && end % PAGE == 0 && start <= virt && virt + n <= end
    requires ValidPath(p) && |p| == 4 && Owned(s0, r, p) && Owned(s, r, p)
    ensures !Hits(s, r, virt, n, Resolve(s.mem, r, p).frame, o)
  {
    hide PathOf, Resolve, Inv, Walk;
    forall a: nat | virt <= a < virt + n && Mapped(s, r, a)
      ensures PageEntry(s, r, a).frame != Resolve(s.mem, r, p).frame
    {
      PageOfAddress(s0, s, r, start, end, flags, a);
      RolesExclude(s, r, PathOf(a), r, p);
    }
  }

  /** `ram1` and `s` are memory after the page loop; the segment lies in the pages [start, end). */
  ghost predicate Prepared(s0: State, s: State, r: nat, start: nat, end: nat, g: Segment, image: seq<Byte>) {
    && Inv(s) && Level(s, r) == 4 && FreshPages(s0, s, r, start, end, SegmentFlags(g))
    && start % PAGE == 0 && end % PAGE == 0 && end - start <= SPACE
    && start <= g.vaddr && g.vaddr + g.memsz <= end
    && g.filesz <= g.memsz && g.offset + g.filesz <= |image|
  }

  lemma SegmentShown(ram1: seq<Page>, ram2: seq<Page>, ram3: seq<Page>, s0: State, s: State, r: nat,
                     start: nat, end: nat, g: Segment, image: seq<Byte>, a: nat)
    requires Prepared(s0, s, r, start, end, g, image)
    requires Written(ram1, ram2, s, r, g.vaddr, image[g.offset..g.offset + g.filesz])
    requires Written(ram2, ram3, s, r, g.vaddr + g.filesz, Zeros(g.memsz - g.filesz))
    requires g.vaddr <= a < g.vaddr + g.memsz
    ensures ShowsByte(ram3, s, r, image, g, a)
  {
    hide PathOf, Resolve, Inv;
    PageOfAddress(s0, s, r, start, end, SegmentFlags(g), a);
    if a < g.vaddr + g.filesz {
      assert ByteAt(ram2, s, r, a) == Some(image[g.offset..g.offset + g.filesz][a - g.vaddr]);
      var f, o := PageEntry(s, r, a).frame, a % PAGE;
      forall b: nat | g.vaddr + g.filesz <= b < g.vaddr + g.filesz + (g.memsz - g.filesz) && Mapped(s, r, b)
        ensures PageEntry(s, r, b).frame != f || b % PAGE != o
      {
        PageOfAddress(s0, s, r, start, end, SegmentFlags(g), b);
        if PageEntry(s, r, b).frame == f {
          SameFrame(s, r, a, b);
        }
      }
      assert !Hits(s, r, g.vaddr + g.filesz, g.memsz - g.filesz, f, o);
    } else {
      assert ByteAt(ram3, s, r, a) == Some(Zeros(g.memsz - g.filesz)[a - (g.vaddr + g.filesz)]);
    }
  }

  lemma SegmentKeeps(ram1: seq<Page>, ram2: seq<Page>, ram3: seq<Page>, s0: State, ram0: seq<Page>, s: State, r: nat,
                     start: nat, end: nat, g: Segment, image: seq<Byte>)
    requires Prepared(s0, s, r, start, end, g, image)
    requires Written(ram1, ram2, s, r, g.vaddr, image[g.offset..g.offset + g.filesz])
    requires Written(ram2, ram3, s, r, g.vaddr + g.filesz, Zeros(g.memsz - g.filesz))
    requires Keeps(ram0, s0, ram1, s, r)
    ensures Keeps(ram0, s0, ram3, s, r)
  {
    hide PathOf, Resolve, Inv, Walk, Hits;
    forall p: Path | ValidPath(p) && |p| == 4 && Owned(s0, r, p) ensures KeptPage(ram0, s0, ram3, s, r, p) {
      assert KeptPage(ram0, s0, ram1, s, r, p);
      var f := Resolve(s.mem, r, p).frame;
      forall o: nat | o < PAGE ensures ram3[f][o] == ram1[f][o] {
        OldFramesMissed(s0, s, r, start, end, SegmentFlags(g), g.vaddr, g.filesz, p, o);
        OldFramesMissed(s0, s, r, start, end, SegmentFlags(g), g.vaddr + g.filesz, g.memsz - g.filesz, p, o);
      }
      assert ram3[f] == ram1[f];
    }
  }

  /** Translations that agree show the same bytes, so what was written under one holds under the other. */
  lemma WrittenUnder(ram: seq<Page>, ram': seq<Page>, s: State, s': State, r: nat, virt: nat, src: seq<Byte>)
    requires Inv(s) && Level(s, r) == 4 && DataOnly(s, s') && Written(ram, ram', s', r, virt, src)
    ensures Written(ram, ram', s, r, virt, src)
  {
    hide PathOf, Inv;
    DataOnlyKeeps(s, s');
    hide Resolve;
    assert forall a: nat :: PageEntry(s', r, a) == PageEntry(s, r, a);
    forall a: nat | virt <= a < virt + |src| ensures ByteAt(ram', s, r, a) == Some(src[a - virt]) {
      assert ByteAt(ram', s', r, a) == Some(src[a - virt]);
    }
    forall f: nat, o: nat | f < |ram| && o < PAGE && !Hits(s, r, virt, |src|, f, o) ensures ram'[f][o] == ram[f][o] {
      assert !Hits(s', r, virt, |src|, f, o);
    }
  }

  lemma DataOnlyLoaded(ram0: seq<Page>, s0: State, ram: seq<Page>, s: State, s': State, r: nat, image: seq<Byte>,
                       g: Segment)
    requires Inv(s) && Level(s, r) == 4 && DataOnly(s, s')
    requires Loaded(ram, s, r, image, g) && Keeps(ram0, s0, ram, s, r)
    ensures Loaded(ram, s', r, image, g) && Keeps(ram0, s0, ram, s', r)
  {
    hide PathOf, Inv, Walk;
    DataOnlyKeeps(s, s');
    hide Resolve, Owned;
    forall a: nat | g.vaddr <= a < g.vaddr + g.memsz ensures ShowsByte(ram, s', r, image, g, a) {
      assert ShowsByte(ram, s, r, image, g, a);
    }
    forall p: Path | ValidPath(p) && |p| == 4 && Owned(s0, r, p) ensures KeptPage(ram0, s0, ram, s', r, p) {
      assert KeptPage(ram0, s0, ram, s, r, p);
    }
  }

  // ---------------------------------------------------------------- the loader

  function FirstPage(g: Segment): nat {
    g.vaddr / PAGE * PAGE
  }

  function EndPage(g: Segment): nat {
    (g.vaddr + g.memsz + PAGE - 1) / PAGE * PAGE
  }

  /** None of the panics of the segment loop applies. */
  predicate Loadable(image: seq<Byte>, g: Segment) {
    0 < FirstPage(g) < EndPage(g) && g.filesz > 0 && g.offset + g.filesz <= |image|
  }

  /** The body of the segment loop of elf64_load for a PT_LOAD header; `false` is one of its panics. */
  method LoadSegment(m: Machine, r: nat, image: seq<Byte>, g: Segment) returns (ok: bool)
    requires m.Valid() && Level(m.Abs(), r) == 4 && Proper(g)
    modifies m, m.pmm, m.pmm.bitmap
    ensures ok ==> m.Valid() && Level(m.Abs(), r) == 4
    ensures ok ==> Loaded(m.ram, m.Abs(), r, image, g)
    ensures ok ==> Keeps(old(m.ram), old(m.Abs()), m.ram, m.Abs(), r)
    ensures ok && UserTables(old(m.Abs()), r) ==> UserTables(m.Abs(), r)
    ensures ok ==> Loadable(image, g) && Progress(old(m.Abs()), m.Abs(), r, FirstPage(g), EndPage(g))
    ensures Loadable(image, g) && Ready(old(m.Abs()), r, FirstPage(g), EndPage(g)) ==> ok
  {
    hide PathOf, Resolve, Inv, Owned, Pmm.ClearBits, Tables, Keeps, Written, Loaded, UserTables, Progress, Ready;
    var startPage := g.vaddr / PAGE * PAGE;
    var segmentEnd := g.vaddr + g.memsz;
    var endPage := (segmentEnd + PAGE - 1) / PAGE * PAGE;
    if startPage >= endPage || startPage == 0 {
      return false;
    }
    var mapped := MapPages(m, r, startPage, endPage, SegmentFlags(g));
    if !mapped {
      return false;
    }
    var fileEnd := g.offset + g.filesz;
    if fileEnd > |image| || g.filesz == 0 {
      return false;
    }
    ghost var s, ram1 := m.Abs(), m.ram;
    assert Prepared(old(m.Abs()), s, r, startPage, endPage, g, image);
    hide Prepared, FreshPages, OwnedRange, DataOnly;
    SegmentOwned(old(m.Abs()), s, r, startPage, endPage, g, image);
    SegmentMapped(old(m.Abs()), s, r, startPage, endPage, g, image);
    var copied := MapCopy(m, r, g.vaddr, image[g.offset..fileEnd]);
    if !copied {
      return false;
    }
    ghost var s2, ram2 := m.Abs(), m.ram;
    DataOnlyOwned(s, s2, r, g.vaddr + g.filesz, g.memsz - g.filesz);
    DataOnlyMapped(s, s2, r, g.vaddr, g.memsz);
    if g.memsz > g.filesz {
      var cleared := MapZero(m, r, g.vaddr + g.filesz, g.memsz - g.filesz);
      if !cleared {
        return false;
      }
      WrittenUnder(ram2, m.ram, s, s2, r, g.vaddr + g.filesz, Zeros(g.memsz - g.filesz));
    } else {
      WrittenNothing(m.ram, s, r, g.vaddr + g.filesz);
      assert Zeros(0) == [];
    }
    DataOnlyUser(s, m.Abs(), r);
    DataProgress(old(m.Abs()), s, m.Abs(), r, startPage, endPage);
    SegmentLoaded(old(m.ram), old(m.Abs()), ram1, ram2, m.ram, s, m.Abs(), r, startPage, endPage, g, image);
    return true;
  }

  lemma SegmentOwned(s0: State, s: State, r: nat, start: nat, end: nat, g: Segment, image: seq<Byte>)
    requires Prepared(s0, s, r, start, end, g, image)
    ensures OwnedRange(s, r, g.vaddr, g.filesz) && OwnedRange(s, r, g.vaddr + g.filesz, g.memsz - g.filesz)
    ensures g.vaddr % PAGE + g.filesz <= SPACE && (g.vaddr + g.filesz) % PAGE + (g.memsz - g.filesz) <= SPACE
  {
    hide PathOf, Resolve, Inv, Owned;
    forall a: nat | g.vaddr <= a < g.vaddr + g.memsz ensures Owned(s, r, PathOf(a)) {
      PageOfAddress(s0, s, r, start, end, SegmentFlags(g), a);
    }
    InPages(start, end, g.vaddr, g.filesz);
    InPages(start, end, g.vaddr + g.filesz, g.memsz - g.filesz);
  }

  lemma SegmentMapped(s0: State, s: State, r: nat, start: nat, end: nat, g: Segment, image: seq<Byte>)
    requires Prepared(s0, s, r, start, end, g, image)
    ensures forall a: nat :: g.vaddr <= a < g.vaddr + g.memsz ==> Mapped(s, r, a)
  {
    hide PathOf, Inv;
    forall a: nat | g.vaddr <= a < g.vaddr + g.memsz ensures Mapped(s, r, a) {
      PageOfAddress(s0, s, r, start, end, SegmentFlags(g), a);
    }
  }

  lemma DataOnlyMapped(s: State, s': State, r: nat, virt: nat, n: nat)
    requires Inv(s) && Level(s, r) == 4 && DataOnly(s, s')
    requires forall a: nat :: virt <= a < virt + n ==> Mapped(s, r, a)
    ensures forall a: nat :: virt <= a < virt + n ==> Mapped(s', r, a)
  {
    hide PathOf;
    DataOnlyKeeps(s, s');
    hide Resolve, Inv;
    forall a: nat | virt <= a < virt + n ensures Mapped(s', r, a) {
      assert Mapped(s, r, a) && PageEntry(s', r, a) == PageEntry(s, r, a);
    }
  }

  lemma InPages(start: nat, end: nat, a: nat, n: nat)
    requires start % PAGE == 0 && end % PAGE == 0 && start <= a && a + n <= end && end - start <= SPACE
    ensures a % PAGE + n <= SPACE
  {
    assert a % PAGE <= a - start;
  }

  lemma DataOnlyOwned(s: State, s': State, r: nat, virt: nat, n: nat)
    requires Inv(s) && Level(s, r) == 4 && DataOnly(s, s') && OwnedRange(s, r, virt, n)
    ensures OwnedRange(s', r, virt, n)
  {
    hide PathOf;
    DataOnlyKeeps(s, s');
    hide Resolve, Owned, Inv;
    forall a: nat | virt <= a < virt + n && Mapped(s', r, a) ensures Owned(s', r, PathOf(a)) {
      assert PageEntry(s', r, a) == PageEntry(s, r, a);
      assert Mapped(s, r, a);
    }
  }

  lemma DataOnlyUser(s: State, s': State, r: nat)
    requires Inv(s) && DataOnly(s, s') && Level(s, r) == 4
    ensures UserTables(s, r) ==> UserTables(s', r)
  {
    if UserTables(s, r) {
      forall h: nat, j: nat | LowerTable(s', r, h, j) && EntryAt(s'.mem, h, j).Present?
        ensures EntryAt(s'.mem, h, j).flags == USER_TABLE
      {
        assert LowerTable(s, r, h, j) && Level(s, h) >= 1;
      }
    }
  }

  lemma SegmentLoaded(ram0: seq<Page>, s0: State, ram1: seq<Page>, ram2: seq<Page>, ram3: seq<Page>, s: State,
                      s': State, r: nat, start: nat, end: nat, g: Segment, image: seq<Byte>)
    requires Prepared(s0, s, r, start, end, g, image) && DataOnly(s, s')
    requires Written(ram1, ram2, s, r, g.vaddr, image[g.offset..g.offset + g.filesz])
    requires Written(ram2, ram3, s, r, g.vaddr + g.filesz, Zeros(g.memsz - g.filesz))
    requires Keeps(ram0, s0, ram1, s, r)
    ensures Loaded(ram3, s', r, image, g) && Keeps(ram0, s0, ram3, s', r) && Inv(s')
  {
    hide PathOf, Resolve, Owned, Written, Keeps, Inv, ShowsByte;
    forall a: nat | g.vaddr <= a < g.vaddr + g.memsz ensures ShowsByte(ram3, s, r, image, g, a) {
      SegmentShown(ram1, ram2, ram3, s0, s, r, start, end, g, image, a);
    }
    SegmentKeeps(ram1, ram2, ram3, s0, ram0, s, r, start, end, g, image);
    DataOnlyLoaded(ram0, s0, ram3, s, s', r, image, g);
    DataOnlyKeeps(s, s');
  }

  /** The least virtual address and the greatest end of the PT_LOAD segments among the first `n`. */
  function Base(image: seq<Byte>, n: nat): nat
    requires HeaderOk(image) && forall i: nat :: i < n ==> InFile(image, i)
  {
    if n == 0 then WORD - 1
    else
      assert InFile(image, n - 1);
      var g := SegmentAt(image, SegmentStart(image, n - 1));
      if g.kind == PT_LOAD && g.vaddr < Base(image, n - 1) then g.vaddr else Base(image, n - 1)
  }

  function End(image: seq<Byte>, n: nat): nat
    requires HeaderOk(image) && forall i: nat :: i < n ==> InFile(image, i)
  {
    if n == 0 then 0
    else
      assert InFile(image, n - 1);
      var g := SegmentAt(image, SegmentStart(image, n - 1));
      if g.kind == PT_LOAD && g.vaddr + g.memsz > End(image, n - 1) then g.vaddr + g.memsz else End(image, n - 1)
  }

  /** What the loader reports: entry point, size and base. */
  function InfoOf(image: seq<Byte>): Info
    requires HeaderOk(image) && forall i: nat :: i < SegmentCount(image) ==> InFile(image, i)
  {
    var n := SegmentCount(image);
    Info(Field(image, 24, 8), (End(image, n) - Base(image, n)) % WORD, Base(image, n))
  }

  ghost predicate LoadedUpTo(ram: seq<Page>, s: State, r: nat, image: seq<Byte>, n: nat)
    requires HeaderOk(image)
  {
    forall i: nat :: i < n ==>
      && InFile(image, i)
      && var g := SegmentAt(image, SegmentStart(image, i));
      g.kind == PT_LOAD ==> Loaded(ram, s, r, image, g)
  }

  lemma LoadedUpToKept(ram: seq<Page>, s: State, ram': seq<Page>, s': State, r: nat, image: seq<Byte>, n: nat)
    requires HeaderOk(image) && LoadedUpTo(ram, s, r, image, n) && Keeps(ram, s, ram', s', r)
    ensures LoadedUpTo(ram', s', r, image, n)
  {
    hide Keeps, Loaded, Field;
    forall i: nat | i < n
      ensures && InFile(image, i)
              && var g := SegmentAt(image, SegmentStart(image, i));
              g.kind == PT_LOAD ==> Loaded(ram', s', r, image, g)
    {
      var g := SegmentAt(image, SegmentStart(image, i));
      if g.kind == PT_LOAD {
        LoadedKept(ram, s, ram', s', r, image, g);
      }
    }
  }

  /** Segment `i` is to be loaded. */
  predicate IsLoad(image: seq<Byte>, i: nat)
    requires HeaderOk(image)
  {
    InFile(image, i) && SegmentAt(image, SegmentStart(image, i)).kind == PT_LOAD
  }

  function LoadAt(image: seq<Byte>, i: nat): Segment
    requires HeaderOk(image) && IsLoad(image, i)
  {
    SegmentAt(image, SegmentStart(image, i))
  }

  /** Base and end bound all PT_LOAD segments, and each is met by one unless there is none. */
  lemma {:induction false} BaseAndEnd(image: seq<Byte>, n: nat)
    requires HeaderOk(image) && forall i: nat :: i < n ==> InFile(image, i)
    ensures forall i: nat :: i < n && IsLoad(image, i) ==>
              var g := LoadAt(image, i); Base(image, n) <= g.vaddr && g.vaddr + g.memsz <= End(image, n)
    ensures || Base(image, n) == WORD - 1
            || exists i: nat :: i < n && IsLoad(image, i) && LoadAt(image, i).vaddr == Base(image, n)
    ensures || End(image, n) == 0
            || exists i: nat :: i < n && IsLoad(image, i) &&
                                LoadAt(image, i).vaddr + LoadAt(image, i).memsz == End(image, n)
  {
    hide Field, SegmentStart, SegmentAt;
    if n == 0 {
      assert Base(image, n) == WORD - 1 && End(image, n) == 0;
    } else {
      BaseAndEnd(image, n - 1);
      assert InFile(image, n - 1);
      if IsLoad(image, n - 1) {
        var g := LoadAt(image, n - 1);
        assert Base(image, n) == g.vaddr || Base(image, n) == Base(image, n - 1);
      }
    }
  }

  /** The pages of the first `n` segments. */
  function PagesNeeded(image: seq<Byte>, n: nat): nat
    requires HeaderOk(image)
  {
    if n == 0 then 0
    else PagesNeeded(image, n - 1)
         + (if IsLoad(image, n - 1) then SegmentPages(LoadAt(image, n - 1)) else 0)
  }

  function SegmentPages(g: Segment): nat {
    if FirstPage(g) <= EndPage(g) then (EndPage(g) - FirstPage(g)) / PAGE else 0
  }

  /** From segment `i` on, each segment is in the file and loadable, its pages are vacant, different from each other and
      apart from those of the segments behind it. */
  ghost predicate LoadableFrom(image: seq<Byte>, s: State, r: nat, i: nat)
    requires HeaderOk(image)
  {
    && (forall j: nat :: i <= j < SegmentCount(image) ==> InFile(image, j))
    && (forall j: nat :: i <= j < SegmentCount(image) && IsLoad(image, j) ==>
          var g := LoadAt(image, j);
          Loadable(image, g) && EndPage(g) <= FirstPage(g) + SPACE && Vacant(s, r, FirstPage(g), EndPage(g)))
    && (forall j: nat, k: nat :: i <= j < k < SegmentCount(image) && IsLoad(image, j) && IsLoad(image, k) ==>
          var g, h := LoadAt(image, j), LoadAt(image, k);
          Apart(FirstPage(g), EndPage(g), FirstPage(h), EndPage(h)))
  }

  /** An image that the pagemap has room for, and enough free frames. */
  ghost predicate ImageReady(image: seq<Byte>, s: State, r: nat) {
    && HeaderOk(image) && LoadableFrom(image, s, r, 0)
    && |s.free| >= PagesNeeded(image, SegmentCount(image)) * FRAMES_PER_PAGE
  }

  lemma SegmentDone(image: seq<Byte>, s: State, s': State, r: nat, i: nat)
    requires HeaderOk(image) && i < SegmentCount(image) && IsLoad(image, i) && LoadableFrom(image, s, r, i)
    requires var g := LoadAt(image, i); Progress(s, s', r, FirstPage(g), EndPage(g))
    ensures LoadableFrom(image, s', r, i + 1)
  {
    hide Vacant, Apart, Progress, Field;
    var g := LoadAt(image, i);
    forall j: nat | i + 1 <= j < SegmentCount(image) && IsLoad(image, j)
      ensures var h := LoadAt(image, j); Vacant(s', r, FirstPage(h), EndPage(h))
    {
      var h := LoadAt(image, j);
      StaysVacant(s, s', r, FirstPage(g), EndPage(g), FirstPage(h), EndPage(h));
    }
  }

  lemma SegmentSkipped(image: seq<Byte>, s: State, r: nat, i: nat)
    requires HeaderOk(image) && LoadableFrom(image, s, r, i)
    ensures LoadableFrom(image, s, r, i + 1)
  {
  }

  lemma NextInFile(image: seq<Byte>, s: State, r: nat, i: nat)
    requires HeaderOk(image) && LoadableFrom(image, s, r, i) && i < SegmentCount(image)
    ensures InFile(image, i)
  {
  }

  lemma FramesTaken(s: State, s': State, r: nat, g: Segment)
    requires Progress(s, s', r, FirstPage(g), EndPage(g))
    ensures |s'.free| >= |s.free| - SegmentPages(g) * FRAMES_PER_PAGE
  {
  }

  lemma {:induction false} PagesNeededMore(image: seq<Byte>, i: nat, n: nat)
    requires HeaderOk(image) && i <= n
    ensures PagesNeeded(image, i) <= PagesNeeded(image, n)
    decreases n - i
  {
    if i == n {
    } else {
      PagesNeededMore(image, i + 1, n);
    }
  }

  /** The frames left over suffice for segment `i`. */
  lemma SegmentIsReady(image: seq<Byte>, s0: State, s: State, r: nat, i: nat)
    requires ImageReady(image, s0, r) && i < SegmentCount(image) && IsLoad(image, i) && LoadableFrom(image, s, r, i)
    requires |s.free| >= |s0.free| - PagesNeeded(image, i) * FRAMES_PER_PAGE
    ensures var g := LoadAt(image, i); Loadable(image, g) && Ready(s, r, FirstPage(g), EndPage(g))
  {
    hide Vacant, Apart, Field;
    PagesNeededMore(image, i + 1, SegmentCount(image));
  }

  /** elf64_load; `None` is one of its panics. Reading any PT_LOAD segment back through the page tables
      gives its file bytes and then zeros, whatever segments come later. */
  method Load(m: Machine, r: nat, image: seq<Byte>) returns (info: Option<Info>)
    requires m.Valid() && Level(m.Abs(), r) == 4 && ProperImage(image)
    modifies m, m.pmm, m.pmm.bitmap
    ensures info.Some? ==> m.Valid() && Level(m.Abs(), r) == 4
    ensures info.Some? ==> HeaderOk(image) && LoadedUpTo(m.ram, m.Abs(), r, image, SegmentCount(image))
    ensures info.Some? ==> info.value == InfoOf(image)
    ensures info.Some? ==> Keeps(old(m.ram), old(m.Abs()), m.ram, m.Abs(), r)
    ensures info.Some? && UserTables(old(m.Abs()), r) ==> UserTables(m.Abs(), r)
    ensures ImageReady(image, old(m.Abs()), r) ==> info.Some?
  {
    hide Inv, Tables, Pmm.ClearBits, Keeps, UserTables, Loaded, Field, LoadableFrom, Progress, Ready;
    if |image| < HEADER_SIZE || !HeaderOk(image) {
      return None;
    }
    KeepsSelf(m.ram, m.Abs(), r);
    var n := SegmentCount(image);
    var base, end := WORD - 1, 0;
    for i := 0 to n
      invariant m.Valid() && Level(m.Abs(), r) == 4
      invariant LoadedUpTo(m.ram, m.Abs(), r, image, i)
      invariant Keeps(old(m.ram), old(m.Abs()), m.ram, m.Abs(), r)
      invariant UserTables(old(m.Abs()), r) ==> UserTables(m.Abs(), r)
      invariant base == Base(image, i) && end == End(image, i)
      invariant |m.Abs().free| >= |old(m.Abs()).free| - PagesNeeded(image, i) * FRAMES_PER_PAGE
      invariant ImageReady(image, old(m.Abs()), r) ==> LoadableFrom(image, m.Abs(), r, i)
    {
      if ImageReady(image, old(m.Abs()), r) {
        NextInFile(image, m.Abs(), r, i);
      }
      if !InFile(image, i) {
        return None;
      }
      var g := SegmentAt(image, SegmentStart(image, i));
      if g.kind == PT_LOAD {
        ghost var ram, s := m.ram, m.Abs();
        if ImageReady(image, old(m.Abs()), r) {
          SegmentIsReady(image, old(m.Abs()), s, r, i);
        }
        var ok := LoadSegment(m, r, image, g);
        if !ok {
          return None;
        }
        LoadedUpToKept(ram, s, m.ram, m.Abs(), r, image, i);
        KeepsTrans(old(m.ram), old(m.Abs()), ram, s, m.ram, m.Abs(), r);
        FramesTaken(s, m.Abs(), r, g);
        if ImageReady(image, old(m.Abs()), r) {
          SegmentDone(image, s, m.Abs(), r, i);
        }
        if g.vaddr < base {
          base := g.vaddr;
        }
        if g.vaddr + g.memsz > end {
          end := g.vaddr + g.memsz;
        }
      } else if ImageReady(image, old(m.Abs()), r) {
        SegmentSkipped(image, m.Abs(), r, i);
      }
    }
    return Some(Info(Field(image, 24, 8), (end - base) % WORD, base));
  }

  /** The processor grants an address of a loaded segment the rights of the segment exactly if the intermediate entries
      admit them. In the lower half of a pagemap that restricts nothing there, as a new one, they do. */
  lemma SegmentRights(ram: seq<Page>, s: State, r: nat, image: seq<Byte>, g: Segment, a: nat)
    requires Inv(s) && Level(s, r) == 4 && Loaded(ram, s, r, image, g) && g.vaddr <= a < g.vaddr + g.memsz
    ensures Asks(g.flags, Effective(s.mem, r, PathOf(a))) <==> Admitted(s.mem, r, PathOf(a), SegmentFlags(g))
    ensures UserTables(s, r) && PathOf(a)[0] < UPPER_HALF ==> Asks(g.flags, Effective(s.mem, r, PathOf(a)))
    ensures OpenTables(s) ==>
              var e := Effective(s.mem, r, PathOf(a));
              (e.writable <==> And(g.flags, PF_W) != 0) && (e.noExecute <==> And(g.flags, PF_X) == 0)
  {
    hide Effective, Admitted, PathOf, UserTables, Inv, Resolve, Asks, SegmentFlags, OpenTables;
    FlagsAsked(g, Effective(s.mem, r, PathOf(a)));
    FlagsAsked(g, SegmentFlags(g));
    assert ShowsByte(ram, s, r, image, g, a);
    EffectiveExact(s.mem, r, PathOf(a));
    if UserTables(s, r) && PathOf(a)[0] < UPPER_HALF {
      EffectiveIsLeaf(s, r, PathOf(a));
    }
    if OpenTables(s) {
      OpenRights(s, r, PathOf(a));
      AskedBits(g.flags, SegmentFlags(g));
    }
  }

  lemma AskedBits(pFlags: nat, f: Flags)
    requires Asks(pFlags, f)
    ensures (f.writable <==> And(pFlags, PF_W) != 0) && (f.noExecute <==> And(pFlags, PF_X) == 0)
  {
  }
}
