/** The virtual memory manager of kernel/system/vmm.c, working in place on physical memory. A pagemap
    is the frame of its PML4. */
module Vmm {
  import opened Arithmetic
  import opened Wrappers
  import opened PageTables
  import opened PageTableSteps
  import opened PageTableTheorems
  import opened PageTableRuns
  import opened Ram
  import Pmm

  class Machine {
    const pmm: Pmm.FrameAllocator
    var ram: seq<Page>
    var kernel: nat
    ghost var role: seq<Role>

    constructor (pmm: Pmm.FrameAllocator, ram: seq<Page>, kernel: nat, ghost role: seq<Role>)
      ensures this.pmm == pmm && this.ram == ram && this.kernel == kernel && this.role == role
    {
      this.pmm := pmm;
      this.ram := ram;
      this.kernel := kernel;
      this.role := role;
    }

    ghost predicate Sane()
      reads this, pmm, pmm.bitmap
    {
      pmm.Valid() && pmm.highestPage + 1 == |ram| <= FRAME_LIMIT && |role| == |ram|
    }

    /** The state of the page-table theory that this memory represents. */
    ghost function Abs(): State
      requires Sane()
      reads this, pmm, pmm.bitmap
    {
      State(Tables(ram), pmm.FreeSet(), role, kernel)
    }

    ghost predicate Valid()
      reads this, pmm, pmm.bitmap
    {
      Sane() && Inv(Abs())
    }

    method Load(f: nat, i: nat) returns (e: Entry)
      requires Sane() && f < |ram| && i < SLOTS
      ensures e == EntryAt(Abs().mem, f, i)
    {
      e := Decode(FromBytes(ram[f][8 * i..8 * i + 8]));
    }

    method Store(f: nat, i: nat, e: Entry)
      requires Sane() && f < |ram| && i < SLOTS && Storable(e)
      modifies this`ram
      ensures Sane() && Abs() == old(Abs()).(mem := Put(old(Abs()).mem, f, i, e))
      ensures forall h :: 0 <= h < |ram| && h != f ==> ram[h] == old(ram)[h]
    {
      TablesStore(ram, f, i, e);
      ram := ram[f := StoreWord(ram[f], i, Encode(e))];
    }

    /** vmm_is_table_empty. */
    method IsTableEmpty(f: nat) returns (empty: bool)
      requires Sane() && f < |ram|
      ensures empty <==> IsEmpty(Abs().mem[f])
    {
      for i := 0 to SLOTS
        invariant forall j :: 0 <= j < i ==> Abs().mem[f][j] == Zero
      {
        var e := Load(f, i);
        if e != Zero {
          return false;
        }
      }
      return true;
    }

    /** pmm_allocate with its memset; `None` is the out-of-memory panic. */
    method AllocateFrame() returns (r: Option<nat>)
      requires Sane()
      modifies this, pmm, pmm.bitmap
      ensures Sane() && |ram| == old(|ram|) && pmm.totalPages == old(pmm.totalPages)
      ensures r.None? ==> Allocate(old(Abs())).None? && ram == old(ram) && pmm.FreeSet() == {}
      ensures r.Some? ==> Allocate(old(Abs())) == Some((Abs(), r.value)) && r.value < |ram|
      ensures r.Some? ==> ram == old(ram)[r.value := ZeroPage()]
    {
      hide Pmm.ClearBits, Entries;
      r := pmm.Allocate();
      if r.Some? {
        var g := r.value;
        EntriesZero();
        ram := ram[g := ZeroPage()];
        role := role[g := Other];
        assert Abs().mem == old(Abs()).mem[g := EmptyTable()];
      }
    }

    /** The start of vmm_install: an empty PML4 for the kernel. From here on the invariant holds. */
    method InstallRoot() returns (ok: bool)
      requires Sane() && 0 !in pmm.FreeSet()
      modifies this, pmm, pmm.bitmap
      ensures ok <==> old(pmm.FreeSet()) != {}
      ensures ok ==> Valid() && Boot(Abs()) && pmm.totalPages == old(pmm.totalPages)
    {
      hide Tables, Inv;
      var r := AllocateFrame();
      if r.None? {
        return false;
      }
      ghost var free, root := pmm.FreeSet(), r.value;
      kernel := r.value;
      role := seq(|ram|, f requires 0 <= f => if f == root then Root else if f in free then Free else Other);
      BootInv(Abs());
      return true;
    }

    /** vmm_get_next_level without `allocate`. */
    method NextIfPresent(f: nat, i: nat) returns (r: Option<nat>)
      requires Sane() && f < |ram| && i < SLOTS
      ensures r == if EntryAt(Abs().mem, f, i).Present? then Some(EntryAt(Abs().mem, f, i).frame) else None
    {
      var e := Load(f, i);
      return if e.Present? then Some(e.frame) else None;
    }

    /** vmm_get_next_level with `allocate`; `None` is the out-of-memory panic. */
    method GetNextLevel(f: nat, i: nat, flags: Flags) returns (r: Option<nat>)
      requires Sane() && f < |ram| && i < SLOTS
      modifies this, pmm, pmm.bitmap
      ensures Sane() && |ram| == old(|ram|) && pmm.totalPages == old(pmm.totalPages)
      ensures r.None? <==> NextLevel(old(Abs()), f, i, flags).None?
      ensures r.Some? ==> NextLevel(old(Abs()), f, i, flags) == Some((Abs(), r.value))
      ensures forall h :: 0 <= h < |ram| && h != f && h !in old(pmm.FreeSet()) ==> ram[h] == old(ram)[h]
      ensures pmm.FreeSet() <= old(pmm.FreeSet())
    {
      r := NextIfPresent(f, i);
      if r.None? {
        ghost var child := ChildRole(Abs(), f, i);
        r := AllocateFrame();
        if r.Some? {
          Store(f, i, Present(r.value, flags));
          role := role[r.value := child];
        }
      }
    }

    /** The three calls of vmm_get_next_level in vmm_map_page. */
    method Descend(r: nat, p: Path, flags: Flags) returns (pt: Option<nat>)
      requires Sane() && |p| == 4 && ValidPath(p) && r < |ram| && DescentInRange(Abs(), r, p, flags)
      requires Shape(Abs())
      modifies this, pmm, pmm.bitmap
      ensures Sane() && |ram| == old(|ram|) && pmm.totalPages == old(pmm.totalPages)
      ensures pt.None? <==> DescentOf(old(Abs()), r, p, flags).None?
      ensures pt.Some? ==> DescentOf(old(Abs()), r, p, flags) == Some((Abs(), pt.value))
      ensures pt.Some? ==> pt.value < |ram| && !IsData(old(role), pt.value)
      ensures forall h :: 0 <= h < |ram| && IsData(old(role), h) ==> ram[h] == old(ram)[h]
    {
      hide PageTables.NextLevel, Pmm.ClearBits, Tables;
      var pdpt := GetNextLevel(r, p[0], flags);
      if pdpt.None? {
        return None;
      }
      var pd := GetNextLevel(pdpt.value, p[1], flags);
      if pd.None? {
        return None;
      }
      pt := GetNextLevel(pd.value, p[2], flags);
    }

    /** vmm_map_page; `false` is the out-of-memory panic. `own` says that the frame was allocated for
        this page. */
    method MapPage(r: nat, virt: nat, phys: nat, flags: Flags, ghost own: bool) returns (ok: bool)
      requires Valid() && MayMap(Abs(), r, PathOf(virt), phys / PAGE, own) && phys / PAGE < FRAME_LIMIT
      modifies this, pmm, pmm.bitmap
      ensures Sane() && |ram| == old(|ram|) && pmm.totalPages == old(pmm.totalPages)
      ensures ok <==> PageTables.MapPage(old(Abs()), r, PathOf(virt), phys / PAGE, flags, own).Some?
      ensures ok ==> PageTables.MapPage(old(Abs()), r, PathOf(virt), phys / PAGE, flags, own) == Some(Abs())
      ensures ok ==> Valid() && OnePage(old(Abs()), Abs(), r, PathOf(virt), Present(phys / PAGE, flags))
      ensures forall h :: 0 <= h < |ram| && IsData(old(role), h) ==> ram[h] == old(ram)[h]
    {
      DescentStaysInRange(Abs(), r, PathOf(virt), TableFlags(flags));
      ok := MapPath(r, PathOf(virt), phys / PAGE, flags, own);
      if ok {
        MapPageCorrect(old(Abs()), r, PathOf(virt), phys / PAGE, flags, own);
      }
    }

    /** The body of vmm_map_page. */
    method MapPath(r: nat, p: Path, frame: nat, flags: Flags, ghost own: bool) returns (ok: bool)
      requires Sane() && |p| == 4 && ValidPath(p) && r < |ram| && DescentInRange(Abs(), r, p, TableFlags(flags))
      requires Shape(Abs()) && frame < FRAME_LIMIT
      modifies this, pmm, pmm.bitmap
      ensures Sane() && |ram| == old(|ram|) && pmm.totalPages == old(pmm.totalPages)
      ensures ok <==> PageTables.MapPage(old(Abs()), r, p, frame, flags, own).Some?
      ensures ok ==> PageTables.MapPage(old(Abs()), r, p, frame, flags, own) == Some(Abs())
      ensures forall h :: 0 <= h < |ram| && IsData(old(role), h) ==> ram[h] == old(ram)[h]
    {
      hide Pmm.ClearBits, DescentOf, DescentInRange;
      var pt := Descend(r, p, TableFlags(flags));
      if pt.None? {
        return false;
      }
      role := SetLeaf(Abs(), pt.value, p[3], Present(frame, flags), own).role;
      Store(pt.value, p[3], Present(frame, flags));
      return true;
    }

    /** One of the three nested tests of vmm_unmap_page: an empty table is cut off and freed. */
    method ReleaseIfEmpty(q: nat, i: nat, f: nat) returns (released: bool)
      requires Sane() && q < |ram| && f < |ram| && i < SLOTS
      requires 0 < f && f !in pmm.FreeSet()
      modifies this, pmm, pmm.bitmap
      ensures Sane() && |ram| == old(|ram|) && pmm.totalPages == old(pmm.totalPages)
      ensures released <==> IsEmpty(old(Abs()).mem[f])
      ensures Abs() == if released then Release(old(Abs()), q, i, f) else old(Abs())
    {
      hide Pmm.ClearBits;
      released := IsTableEmpty(f);
      if released {
        Store(q, i, Zero);
        var ok := pmm.Free(f * PAGE);
        role := role[f := Free];
      }
    }

    /** The tests of vmm_unmap_page after the entry in `pt` was cleared. */
    method FreeEmptyTables(r: nat, p: Path, pdpt: nat, pd: nat, pt: nat)
      requires Sane() && |p| == 4 && PrunePlan(Abs(), r, p, pdpt, pd, pt)
      modifies this, pmm, pmm.bitmap
      ensures Sane() && |ram| == old(|ram|) && pmm.totalPages == old(pmm.totalPages)
      ensures Abs() == Prune(old(Abs()), r, p[..3])
    {
      var released := ReleaseIfEmpty(pd, p[2], pt);
      if released {
        released := ReleaseIfEmpty(pdpt, p[1], pd);
        if released {
          if p[0] >= UPPER_HALF {
            return;
          }
          released := ReleaseIfEmpty(r, p[0], pdpt);
        }
      }
    }

    /** The body of vmm_unmap_page for an aligned address. */
    method UnmapPath(r: nat, p: Path)
      requires Sane() && ValidPath(p) && |p| == 4 && WalkPlan(Abs(), r, p) && UnmapPlan(Abs(), r, p)
      modifies this, pmm, pmm.bitmap
      ensures Sane() && |ram| == old(|ram|) && pmm.totalPages == old(pmm.totalPages)
      ensures Abs() == PageTables.UnmapPage(old(Abs()), r, p)
    {
      var pdpt := NextIfPresent(r, p[0]);
      if pdpt.None? {
        return;
      }
      var pd := NextIfPresent(pdpt.value, p[1]);
      if pd.None? {
        return;
      }
      var pt := NextIfPresent(pd.value, p[2]);
      if pt.None? {
        return;
      }
      var e := Load(pt.value, p[3]);
      if !e.Present? {
        return;
      }
      role := SetLeaf(Abs(), pt.value, p[3], Zero, false).role;
      Store(pt.value, p[3], Zero);
      FreeEmptyTables(r, p, pdpt.value, pd.value, pt.value);
    }

    /** vmm_unmap_page; `false` is the panic on an unaligned address. */
    method UnmapPage(r: nat, virt: nat) returns (ok: bool)
      requires Valid() && Level(Abs(), r) == 4
      modifies this, pmm, pmm.bitmap
      ensures Valid() && |ram| == old(|ram|) && pmm.totalPages == old(pmm.totalPages)
      ensures ok <==> virt % PAGE == 0
      ensures Abs() == if ok then PageTables.UnmapPage(old(Abs()), r, PathOf(virt)) else old(Abs())
      ensures ok ==> OnePage(old(Abs()), Abs(), r, PathOf(virt), Zero)
    {
      if virt % PAGE != 0 {
        return false;
      }
      UnmapPageCorrect(Abs(), r, PathOf(virt));
      WalkInRange(Abs(), r, PathOf(virt));
      UnmapInRange(Abs(), r, PathOf(virt));
      UnmapPath(r, PathOf(virt));
      return true;
    }

    /** vmm_new_pagemap; `None` is the out-of-memory panic. */
    method NewPagemap() returns (r: Option<nat>)
      requires Valid()
      modifies this, pmm, pmm.bitmap
      ensures Sane() && |ram| == old(|ram|) && pmm.totalPages == old(pmm.totalPages)
      ensures r.None? <==> PageTables.NewPagemap(old(Abs())).None?
      ensures r.Some? ==> Valid() && PageTables.NewPagemap(old(Abs())) == Some((Abs(), r.value))
    {
      hide Pmm.ClearBits;
      if PageTables.Allocate(Abs()).Some? {
        AllocateOk(Abs());
      }
      r := AllocateFrame();
      if r.Some? {
        EntriesCopyHigh(ram[kernel]);
        ram := ram[r.value := CopyHigh(ram[kernel])];
        role := role[r.value := Root];
        NewPagemapCorrect(old(Abs()));
        assert Abs().mem == PageTables.NewPagemap(old(Abs())).value.0.mem;
      }
    }

    /** Allocates a frame and maps it: one page of heap expansion, anonymous mmap, the page-fault
        handler, the user stack or an ELF segment. `false` is the out-of-memory panic. */
    method MapFresh(r: nat, virt: nat, flags: Flags) returns (ok: bool)
      requires Valid() && Level(Abs(), r) == 4
      modifies this, pmm, pmm.bitmap
      ensures Sane() && |ram| == old(|ram|) && pmm.totalPages == old(pmm.totalPages)
      ensures ok <==> PageTables.MapFresh(old(Abs()), r, PathOf(virt), flags).Some?
      ensures ok ==> Valid() && PageTables.MapFresh(old(Abs()), r, PathOf(virt), flags) == Some(Abs())
      ensures ok ==> var e := Resolve(Abs().mem, r, PathOf(virt));
                     e.Present? && e.flags == flags && e.frame < |ram| && ram[e.frame] == ZeroPage()
      ensures forall h :: 0 <= h < |ram| && IsData(old(role), h) ==> ram[h] == old(ram)[h]
    {
      hide Pmm.ClearBits, PageTables.MapPage;
      var a := AllocateFrame();
      if a.None? {
        return false;
      }
      AllocateOk(old(Abs()));
      ok := MapPage(r, virt, a.value * PAGE, flags, true);
      if ok {
        assert Resolve(Abs().mem, r, PathOf(virt)) == Present(a.value, flags);
      }
    }

    /** One round of the loop of syscall_unmap; `false` is the failed assertion on an unmapped page. */
    method UnmapFree(r: nat, virt: nat) returns (ok: bool)
      requires Valid() && Level(Abs(), r) == 4 && virt % PAGE == 0
      requires Resolve(Abs().mem, r, PathOf(virt)).Present? ==> Owned(Abs(), r, PathOf(virt))
      modifies this, pmm, pmm.bitmap
      ensures Valid() && |ram| == old(|ram|) && pmm.totalPages == old(pmm.totalPages)
      ensures ok <==> Resolve(old(Abs()).mem, r, PathOf(virt)).Present?
      ensures ok ==> PageTables.UnmapFree(old(Abs()), r, PathOf(virt)) == Some(Abs())
      ensures !ok ==> Abs() == old(Abs())
    {
      hide Pmm.ClearBits, PageTables.UnmapPage, UpOk, DownOk, LeafOk, OwnedOk, Full, StableSlots, OnePage, UnmapPlan,
        WalkPlan, PathOf, Tables, RolesPersist;
      var phys := VirtToPhys(r, virt);
      ghost var s := Abs();
      var p := PathOf(virt);
      if Resolve(s.mem, r, p).Present? {
        UnmapFreeCorrect(s, r, p);
        RolesExclude(s, r, p, r, p);
      }
      if phys == 0 {
        return false;
      }
      var freed := pmm.Free(phys);
      role := role[phys / PAGE := Free];
      FreedPlan(s, r, p);
      UnmapPath(r, p);
      return true;
    }

    /** The counters of the frame allocator. */
    ghost function Counters(): (int, int, int)
      reads pmm
    {
      (pmm.freePages, pmm.usedPages, pmm.totalPages)
    }

    /** vmm_map_page of an unmapped lower-half page and vmm_unmap_page of it: every table that is in use, the set of
        free frames and all three counters are as before. */
    method MapThenUnmapPage(r: nat, virt: nat, phys: nat, flags: Flags, ghost own: bool) returns (ok: bool)
      requires Valid() && MayMap(Abs(), r, PathOf(virt), phys / PAGE, own) && phys / PAGE < FRAME_LIMIT
      requires virt % PAGE == 0 && PathOf(virt)[0] < UPPER_HALF && Resolve(Abs().mem, r, PathOf(virt)) == Zero
      modifies this, pmm, pmm.bitmap
      ensures ok <==> PageTables.MapPage(old(Abs()), r, PathOf(virt), phys / PAGE, flags, own).Some?
      ensures ok ==> Valid() && Restores(old(Abs()), Abs()) && Counters() == old(Counters())
    {
      hide PathOf, Inv, Tables, Pmm.ClearBits, PageTables.MapPage, PageTables.UnmapPage, OnePage;
      ok := MapPage(r, virt, phys, flags, own);
      if ok {
        MapPageCorrect(old(Abs()), r, PathOf(virt), phys / PAGE, flags, own);
        MapThenUnmap(old(Abs()), r, PathOf(virt), phys / PAGE, flags, own);
        var aligned := UnmapPage(r, virt);
      }
    }

    /** One page of anonymous mmap and one of munmap: the same, and its frame is free again. */
    method MapThenUnmapFresh(r: nat, virt: nat, flags: Flags) returns (ok: bool)
      requires Valid() && Level(Abs(), r) == 4
      requires virt % PAGE == 0 && PathOf(virt)[0] < UPPER_HALF && Resolve(Abs().mem, r, PathOf(virt)) == Zero
      modifies this, pmm, pmm.bitmap
      ensures ok <==> PageTables.MapFresh(old(Abs()), r, PathOf(virt), flags).Some?
      ensures ok ==> Valid() && Restores(old(Abs()), Abs()) && Counters() == old(Counters())
    {
      hide PathOf, Inv, Tables, Pmm.ClearBits, PageTables.MapFresh, PageTables.UnmapFree, OnePage, Resolve;
      ok := MapFresh(r, virt, flags);
      if ok {
        MapFreshCorrect(old(Abs()), r, PathOf(virt), flags);
        MmapThenMunmap(old(Abs()), r, PathOf(virt), flags);
        var freed := UnmapFree(r, virt);
      }
    }

    /** vmm_virt_to_phys: zero when the page is not mapped. */
    method VirtToPhys(r: nat, virt: nat) returns (phys: nat)
      requires Valid() && Level(Abs(), r) == 4
      ensures phys == match Resolve(Abs().mem, r, PathOf(virt))
                      case Present(f, _) => f * PAGE + virt % PAGE
                      case _ => 0
    {
      var p := PathOf(virt);
      WalkInRange(Abs(), r, p);
      var pdpt := NextIfPresent(r, p[0]);
      if pdpt.None? {
        return 0;
      }
      var pd := NextIfPresent(pdpt.value, p[1]);
      if pd.None? {
        return 0;
      }
      var pt := NextIfPresent(pd.value, p[2]);
      if pt.None? {
        return 0;
      }
      var e := Load(pt.value, p[3]);
      return if e.Present? then e.frame * PAGE + virt % PAGE else 0;
    }
  }

  /** The frame holds data: it is neither a table nor free. */
  ghost predicate IsData(role: seq<Role>, f: nat) {
    f < |role| && (role[f].Leaf? || role[f].Other?)
  }

  /** The tables of vmm_map_page are in memory and not data frames. */
  ghost predicate DescentInRange(s: State, r: nat, p: Path, flags: Flags)
    requires |p| == 4
  {
    && !IsData(s.role, r)
    && (NextLevel(s, r, p[0], flags).Some? ==>
          var (s1, f1) := NextLevel(s, r, p[0], flags).value;
          && f1 < |s.mem| && !IsData(s.role, f1)
          && (NextLevel(s1, f1, p[1], flags).Some? ==>
                var (s2, f2) := NextLevel(s1, f1, p[1], flags).value;
                && f2 < |s.mem| && !IsData(s.role, f2)
                && (NextLevel(s2, f2, p[2], flags).Some? ==>
                      var f3 := NextLevel(s2, f2, p[2], flags).value.1;
                      f3 < |s.mem| && !IsData(s.role, f3))))
  }

  lemma DescentStaysInRange(s: State, r: nat, p: Path, flags: Flags)
    requires Inv(s) && Level(s, r) == 4 && ValidPath(p) && |p| == 4
    ensures r < |s.mem| && DescentInRange(s, r, p, flags)
  {
    hide NextLevel, UpOk, DownOk, LeafOk, OwnedOk, SameView, StableSlots, SameSharing;
    assert Full(s, r);
    if NextLevel(s, r, p[0], flags).Some? {
      var (s1, f1) := NextLevel(s, r, p[0], flags).value;
      NextLevelOk(s, r, p[0], flags);
      if NextLevel(s1, f1, p[1], flags).Some? {
        var (s2, f2) := NextLevel(s1, f1, p[1], flags).value;
        NextLevelOk(s1, f1, p[1], flags);
        if NextLevel(s2, f2, p[2], flags).Some? {
          NextLevelOk(s2, f2, p[2], flags);
        }
      }
    }
  }

  /** Every frame on the walk of `p` is in memory, and the walk goes level by level. */
  ghost predicate WalkPlan(s: State, r: nat, p: Path)
    requires |p| == 4
  {
    var pdpt, pd, pt := Walk(s.mem, r, p[..1]), Walk(s.mem, r, p[..2]), Walk(s.mem, r, p[..3]);
    && r < |s.mem|
    && pdpt == FollowEntry(s.mem, Some(r), p[0]) && (pdpt.Some? ==> pdpt.value < |s.mem|)
    && pd == FollowEntry(s.mem, pdpt, p[1]) && (pd.Some? ==> pd.value < |s.mem|)
    && pt == FollowEntry(s.mem, pd, p[2]) && (pt.Some? ==> pt.value < |s.mem|)
  }

  function FollowEntry(mem: seq<Table>, f: Option<nat>, i: nat): Option<nat> {
    if f.Some? && EntryAt(mem, f.value, i).Present? then Some(EntryAt(mem, f.value, i).frame) else None
  }

  lemma WalkInRange(s: State, r: nat, p: Path)
    requires Inv(s) && Level(s, r) == 4 && ValidPath(p) && |p| == 4
    ensures WalkPlan(s, r, p)
  {
    assert Init(p[..1]) == [] && Init(p[..2]) == p[..1] && Init(p[..3]) == p[..2];
    forall k | 1 <= k <= 3 && Walk(s.mem, r, p[..k]).Some?
      ensures Walk(s.mem, r, p[..k]).value < |s.mem|
    {
      WalkRole(s, r, p[..k]);
    }
  }

  ghost predicate CanRelease(s: State, q: nat, i: nat, f: nat) {
    0 < f < |s.mem| && q < |s.mem| && f !in s.free && i < SLOTS
  }

  /** Pruning from the tables of page `p`, written out level by level. */
  ghost predicate PrunePlan(s: State, r: nat, p: Path, pdpt: nat, pd: nat, pt: nat)
    requires |p| == 4
  {
    && CanRelease(s, pd, p[2], pt)
    && if !IsEmpty(s.mem[pt]) then Prune(s, r, p[..3]) == s
       else
         var s1 := Release(s, pd, p[2], pt);
         && CanRelease(s1, pdpt, p[1], pd)
         && if !IsEmpty(s1.mem[pd]) then Prune(s, r, p[..3]) == s1
            else
              var s2 := Release(s1, pdpt, p[1], pd);
              && CanRelease(s2, r, p[0], pdpt)
              && Prune(s, r, p[..3]) ==
                 if IsEmpty(s2.mem[pdpt]) && p[0] < UPPER_HALF then Release(s2, r, p[0], pdpt) else s2
  }

  lemma PruneInRange(s: State, r: nat, p: Path)
    requires Tree(s) && Level(s, r) == 4 && ValidPath(p) && |p| == 4 && Walk(s.mem, r, p[..3]).Some?
    ensures Walk(s.mem, r, p[..2]).Some? && Walk(s.mem, r, p[..1]).Some?
    ensures PrunePlan(s, r, p, Walk(s.mem, r, p[..1]).value, Walk(s.mem, r, p[..2]).value, Walk(s.mem, r, p[..3]).value)
  {
    hide Tree, Walk, IsEmpty, Release, Prune, SameView, StableSlots, OnlyFrees, Full;
    assert Init(p[..3]) == p[..2] && Init(p[..2]) == p[..1] && Init(p[..1]) == [];
    PruneLevel(s, r, p[..3]);
    PruneTable(s, r, p[..2]);
    var pdpt, pd, pt := Walk(s.mem, r, p[..1]).value, Walk(s.mem, r, p[..2]).value, Walk(s.mem, r, p[..3]).value;
    if IsEmpty(s.mem[pt]) {
      var s1 := Release(s, pd, p[2], pt);
      PruneLevel(s1, r, p[..2]);
      assert Walk(s1.mem, r, p[..1]) == Some(pdpt) by { PruneLevelAbove(s, r, p); }
      if IsEmpty(s1.mem[pd]) {
        var s2 := Release(s1, pdpt, p[1], pd);
        PruneLevel(s2, r, p[..1]);
        PruneAtRoot(s2, r);
        PruneAtRoot(Release(s2, r, p[0], pdpt), r);
      }
    }
  }

  lemma PruneAtRoot(s: State, r: nat)
    ensures Walk(s.mem, r, []) == Some(r) && Prune(s, r, []) == s
  {
  }

  lemma PruneLevelAbove(s: State, r: nat, p: Path)
    requires Tree(s) && Level(s, r) == 4 && ValidPath(p) && |p| == 4 && Walk(s.mem, r, p[..3]).Some?
    requires Walk(s.mem, r, p[..2]).Some? && Walk(s.mem, r, p[..3]).value < |s.mem|
    requires IsEmpty(s.mem[Walk(s.mem, r, p[..3]).value])
    ensures Walk(Release(s, Walk(s.mem, r, p[..2]).value, p[2], Walk(s.mem, r, p[..3]).value).mem, r, p[..1])
            == Walk(s.mem, r, p[..1])
  {
    assert Init(p[..3]) == p[..2] && Init(p[..2]) == p[..1];
    WalkRole(s, r, p[..3]);
    WalkRole(s, r, p[..2]);
    WalkRole(s, r, p[..1]);
    ReleaseWalk(s, Walk(s.mem, r, p[..2]).value, p[2], Walk(s.mem, r, p[..3]).value, r, p[..1]);
  }

  ghost predicate UnmapPlan(s: State, r: nat, p: Path)
    requires |p| == 4
  {
    Walk(s.mem, r, p[..3]).Some? ==>
      && Walk(s.mem, r, p[..2]).Some? && Walk(s.mem, r, p[..1]).Some?
      && var pt := Walk(s.mem, r, p[..3]).value;
      var s' := SetLeaf(s, pt, p[3], Zero, false);
      && |s'.role| == |s.role|
      && PrunePlan(s', r, p, Walk(s.mem, r, p[..1]).value, Walk(s.mem, r, p[..2]).value, pt)
  }

  lemma UnmapInRange(s: State, r: nat, p: Path)
    requires Inv(s) && Level(s, r) == 4 && ValidPath(p) && |p| == 4
    ensures UnmapPlan(s, r, p)
  {
    if Walk(s.mem, r, p[..3]).Some? {
      var t := Walk(s.mem, r, p[..3]).value;
      WalkRole(s, r, p[..3]);
      SetLeafTree(s, t, p[3], Zero, false);
      SetLeafFrame(s, t, p[3], Zero, false);
      SetLeafWalk(s, t, p[3], Zero, false, r, p[..3]);
      SetLeafWalk(s, t, p[3], Zero, false, r, p[..2]);
      SetLeafWalk(s, t, p[3], Zero, false, r, p[..1]);
      PruneInRange(SetLeaf(s, t, p[3], Zero, false), r, p);
    }
  }

  /** The walks of vmm_unmap_page do not depend on the frame that was just freed. */
  lemma FreedPlan(s: State, r: nat, p: Path)
    requires Inv(s) && Level(s, r) == 4 && ValidPath(p) && |p| == 4 && Owned(s, r, p)
    ensures var g := Resolve(s.mem, r, p).frame;
            && FreeFrame(s, g) == Some(Freed(s, g))
            && WalkPlan(Freed(s, g), r, p) && UnmapPlan(Freed(s, g), r, p)
  {
    var g := Resolve(s.mem, r, p).frame;
    RolesExclude(s, r, p, r, p);
    WalkInRange(s, r, p);
    UnmapInRange(s, r, p);
    var t := Walk(s.mem, r, p[..3]).value;
    var x := SetLeaf(s, t, p[3], Zero, false);
    assert SetLeaf(Freed(s, g), t, p[3], Zero, false) == Freed(x, g);
    var pdpt, pd := Walk(s.mem, r, p[..1]).value, Walk(s.mem, r, p[..2]).value;
    RolesExclude(s, r, p, r, p[..1]);
    RolesExclude(s, r, p, r, p[..2]);
    RolesExclude(s, r, p, r, p[..3]);
    FreedPrune(x, r, p, pdpt, pd, t, g);
  }

  lemma FreedPrune(x: State, r: nat, p: Path, pdpt: nat, pd: nat, pt: nat, g: nat)
    requires |p| == 4 && PrunePlan(x, r, p, pdpt, pd, pt) && g < |x.role|
    requires g != pdpt && g != pd && g != pt
    ensures PrunePlan(Freed(x, g), r, p, pdpt, pd, pt)
  {
    hide Prune, Release, IsEmpty;
    PruneCommutes(x, r, p[..3], g);
    ReleaseCommutes(x, pd, p[2], pt, g);
    if IsEmpty(x.mem[pt]) {
      var x1 := Release(x, pd, p[2], pt);
      ReleaseCommutes(x1, pdpt, p[1], pd, g);
      if IsEmpty(x1.mem[pd]) {
        ReleaseCommutes(Release(x1, pdpt, p[1], pd), r, p[0], pdpt, g);
      }
    }
  }
}
