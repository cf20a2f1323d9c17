/** Whole runs of the memory manager: which frames share no role, which translations never change. */
module PageTableRuns {
  import opened Wrappers
  import opened PageTables
  import opened PageTableSteps
  import opened PageTableTheorems

  // ---------------------------------------------------------------- new pagemaps

  /** vmm_new_pagemap: the new pagemap is empty below and the kernel's above. */
  lemma NewPagemapCorrect(s: State)
    requires Inv(s) && NewPagemap(s).Some?
    ensures var (s', g) := NewPagemap(s).value;
            && Inv(s') && StableSlots(s, s') && SameView(s, s') && Level(s', g) == 4 && g != s.kernel
            && Level(s, g) == 0
            && (forall i: nat :: EntryAt(s'.mem, g, i) == if i < UPPER_HALF then Zero else EntryAt(s.mem, s.kernel, i))
            && RolesPersist(s, s', 0)
  {
    hide NewPagemap, DownOk, UpOk, LeafOk, OwnedOk, EntryAt, Resolve;
    NewRootFrame(s);
    NewRootTree(s);
    var (s', g) := NewPagemap(s).value;
    SameTablesView(s, s');
    forall h: nat | h < |s'.role| ensures Full(s', h) {
      assert Full(s, h);
    }
  }

  /** What is new is one frame, which was free. */
  lemma NewRootFrame(s: State)
    requires Inv(s) && NewPagemap(s).Some?
    ensures var (s', g) := NewPagemap(s).value;
            && g < |s.role| == |s'.mem| == |s.mem| && s.role[g].Free? && s'.role == s.role[g := Root]
            && s'.kernel == s.kernel && g != s.kernel
            && (forall h: nat :: h != g ==> Level(s', h) == Level(s, h))
            && (forall h: nat :: h < |s.mem| && h != g ==> s'.mem[h] == s.mem[h])
            && (forall h: nat, j: nat :: h != g ==> EntryAt(s'.mem, h, j) == EntryAt(s.mem, h, j))
            && (forall i: nat :: EntryAt(s'.mem, g, i) == if i < UPPER_HALF then Zero else EntryAt(s.mem, s.kernel, i))
  {
    hide DownOk, UpOk, LeafOk, OwnedOk, Full, SameView, StableSlots;
    AllocateOk(s);
  }

  lemma NewRootTree(s: State)
    requires Inv(s) && NewPagemap(s).Some?
    ensures Tree(NewPagemap(s).value.0)
  {
    AllocateOk(s);
    var (s', g) := NewPagemap(s).value;
    assert forall h: nat :: h != g ==> Level(s', h) == Level(s, h);
    assert forall h: nat, j: nat :: h != g ==> EntryAt(s'.mem, h, j) == EntryAt(s.mem, h, j);
    forall h: nat, j: nat | Level(s', h) >= 1 && j < SLOTS ensures DownOk(s', h, j) {
      NewRootDown(s, h, j);
    }
    forall h: nat | h < |s'.role| ensures UpOk(s', h) && LeafOk(s', h) {
      assert UpOk(s, h) && LeafOk(s, h);
    }
    forall t: nat, j: nat | j < SLOTS ensures OwnedOk(s', t, j) {
      assert OwnedOk(s, t, j);
    }
  }

  lemma NewRootDown(s: State, h: nat, j: nat)
    requires Inv(s) && NewPagemap(s).Some?
    requires Level(NewPagemap(s).value.0, h) >= 1 && j < SLOTS
    ensures DownOk(NewPagemap(s).value.0, h, j)
  {
    AllocateOk(s);
    var (s', g) := NewPagemap(s).value;
    assert EntryAt(s'.mem, s.kernel, j) == EntryAt(s.mem, s.kernel, j);
    assert UpOk(s, s.kernel);
    assert ChildRole(s', s'.kernel, j) == ChildRole(s, s.kernel, j);
    if h == g {
      assert DownOk(s, s.kernel, j);
    } else {
      assert DownOk(s, h, j);
      assert UpOk(s, h);
      assert ChildRole(s', h, j) == ChildRole(s, h, j);
      assert SharedSlot(s, h, j) ==> SharedSlot(s', h, j);
    }
  }

  // ---------------------------------------------------------------- who owns a page

  /** Page `p` of `r` is mapped to a frame whose role is to be the target of that one entry. */
  ghost predicate Owned(s: State, r: nat, p: Path)
    requires |p| == 4
  {
    var e := Resolve(s.mem, r, p);
    && e.Present? && e.frame < |s.role|
    && s.role[e.frame] == Leaf(Walk(s.mem, r, p[..3]).value, p[3])
  }

  lemma OwnedPresent(s: State, r: nat, p: Path)
    requires |p| == 4 && Owned(s, r, p)
    ensures Resolve(s.mem, r, p).Present? && Resolve(s.mem, r, p).frame < |s.role|
  {
  }

  /** The frame that page `p` has for itself, or the null frame. */
  ghost function OwnedFrame(s: State, r: nat, p: Path): nat
    requires |p| == 4
  {
    if Owned(s, r, p) then Resolve(s.mem, r, p).frame else 0
  }

  /** No frame has two roles: the target of an owned page is neither free nor a page table, no free
      frame is a page table, and no two owned pages have the same target. */
  lemma RolesExclude(s: State, r: nat, p: Path, r': nat, p': Path)
    requires Inv(s) && Level(s, r) == 4 && ValidPath(p) && |p| == 4 && Owned(s, r, p)
    requires Level(s, r') == 4 && ValidPath(p')
    ensures var f := Resolve(s.mem, r, p).frame;
            && f !in s.free && f != 0
            && (|p'| <= 3 ==> Walk(s.mem, r', p') != Some(f))
            && (|p'| <= 3 && Walk(s.mem, r', p').Some? ==> Walk(s.mem, r', p').value !in s.free)
            && (|p'| == 4 && Owned(s, r', p') && Resolve(s.mem, r', p').frame == f ==>
                  p' == p && SameSlot(s, r, r', p[0]))
  {
    var t := Walk(s.mem, r, p[..3]).value;
    WalkRole(s, r, p[..3]);
    if |p'| <= 3 {
      if Walk(s.mem, r', p').Some? { WalkRole(s, r', p'); }
    } else if Owned(s, r', p') && Resolve(s.mem, r', p').frame == Resolve(s.mem, r, p).frame {
      assert Walk(s.mem, r', p'[..3]) == Some(t);
      WalkInjective(s, r, p[..3], r', p'[..3]);
      assert p == p[..3] + [p[3]] && p' == p'[..3] + [p'[3]];
    }
  }

  /** Every mapped page of the lower half of a pagemap other than the kernel's is owned. */
  lemma UserPagesOwned(s: State, r: nat, p: Path)
    requires Inv(s) && Level(s, r) == 4 && r != s.kernel && ValidPath(p) && |p| == 4 && p[0] < UPPER_HALF
    requires Resolve(s.mem, r, p).Present?
    ensures Owned(s, r, p)
  {
    WalkRole(s, r, p[..3]);
    assert OwnedOk(s, Walk(s.mem, r, p[..3]).value, p[3]);
  }

  /** A table keeps its role until it is freed; a leaf frame other than `x` keeps its role. */
  ghost predicate RolesPersist(s: State, s': State, x: nat) {
    && |s'.role| == |s.role|
    && (forall h: nat :: h < |s.role| ==>
          && (Level(s, h) >= 1 ==> s'.role[h] == s.role[h] || s'.role[h].Free?)
          && (s.role[h].Leaf? && h != x ==> s'.role[h] == s.role[h]))
  }

  lemma {:induction false} WalkPersists(s: State, s': State, x: nat, r: nat, p: Path)
    requires Tree(s) && Tree(s') && RolesPersist(s, s', x) && StableSlots(s, s')
    requires Level(s, r) == 4 && ValidPath(p) && |p| <= 3
    requires Walk(s.mem, r, p).Some? && Level(s', Walk(s.mem, r, p).value) >= 1
    ensures Walk(s'.mem, r, p) == Walk(s.mem, r, p)
    decreases |p|
  {
    if p == [] {
    } else {
      WalkRole(s, r, p);
      WalkRole(s, r, Init(p));
      var t := Walk(s.mem, r, p).value;
      assert UpOk(s', t) && UpOk(s, t);
      WalkPersists(s, s', x, r, Init(p));
    }
  }

  /** An owned page stays owned, and mapped as it was, across a step that targets another frame. */
  lemma OwnedPersists(s: State, s': State, x: nat, r: nat, p: Path)
    requires Inv(s) && Inv(s') && RolesPersist(s, s', x) && StableSlots(s, s')
    requires Level(s, r) == 4 && ValidPath(p) && |p| == 4 && Owned(s, r, p)
    requires Resolve(s.mem, r, p).frame != x && Resolve(s'.mem, r, p) == Resolve(s.mem, r, p)
    ensures Owned(s', r, p)
  {
    var t := Walk(s.mem, r, p[..3]).value;
    WalkRole(s, r, p[..3]);
    assert LeafOk(s', Resolve(s.mem, r, p).frame);
    WalkPersists(s, s', x, r, p[..3]);
  }

  // ---------------------------------------------------------------- mapping a fresh frame

  /** The descent makes no page owned. */
  lemma DescentOwned(s: State, r: nat, p: Path, s3: State, t: nat)
    requires Inv(s) && Level(s, r) == 4 && ValidPath(p) && |p| == 4 && Descended(s, r, p, s3, t)
    requires Resolve(s.mem, r, p).Present? && !Owned(s, r, p)
    ensures Resolve(s3.mem, r, p).frame < |s3.role| ==> s3.role[Resolve(s3.mem, r, p).frame] != Leaf(t, p[3])
  {
    var f := Resolve(s.mem, r, p).frame;
    assert Resolve(s3.mem, r, p) == Resolve(s.mem, r, p);
    WalkRole(s, r, p[..3]);
    WalkPersists(s, s3, 0, r, p[..3]);
    if f < |s.role| {
      assert s.role[f].Free? || s3.role[f] == s.role[f];
    }
  }

  /** A leaf write changes the role of the frame mapped so far, if the page has it for itself, and of the new frame. */
  lemma SetLeafPersists(s: State, s3: State, t: nat, i: nat, e: Entry, own: bool, x: nat)
    requires LeafWrite(s3, t, i, e, own) && RolesPersist(s, s3, x)
    requires var e := EntryAt(s3.mem, t, i);
      e.Present? && e.frame < |s3.role| && s3.role[e.frame] == Leaf(t, i) ==> e.frame == x
    requires own ==> e.frame < |s.role| && s.role[e.frame].Other?
    ensures RolesPersist(s, SetLeaf(s3, t, i, e, own), x)
  {
  }

  /** The frame that the page has for itself is the one that its leaf entry names as its own. */
  lemma DescentFrame(s: State, r: nat, p: Path, s3: State, t: nat)
    requires Inv(s) && Level(s, r) == 4 && ValidPath(p) && |p| == 4 && Descended(s, r, p, s3, t)
    ensures RolesPersist(s, s3, OwnedFrame(s, r, p))
    ensures var e := EntryAt(s3.mem, t, p[3]);
      e.Present? && e.frame < |s3.role| && s3.role[e.frame] == Leaf(t, p[3]) ==> e.frame == OwnedFrame(s, r, p)
  {
    hide DownOk, LeafOk, OwnedOk, UpOk;
    assert Resolve(s3.mem, r, p) == Resolve(s.mem, r, p);
    if !Owned(s, r, p) && Resolve(s.mem, r, p).Present? {
      DescentOwned(s, r, p, s3, t);
    }
  }

  /** A leaf entry that is written for a frame of its own makes the page owned. */
  lemma SetLeafOwned(s: State, r: nat, p: Path, t: nat, e: Entry)
    requires Tree(s) && Level(s, r) == 4 && ValidPath(p) && |p| == 4 && Walk(s.mem, r, p[..3]) == Some(t)
    requires LeafWrite(s, t, p[3], e, true)
    ensures Owned(SetLeaf(s, t, p[3], e, true), r, p)
  {
    hide DownOk, LeafOk, OwnedOk, UpOk;
    SetLeafWalk(s, t, p[3], e, true, r, p[..3]);
    SetLeafFrame(s, t, p[3], e, true);
  }

  /** The role of the frame that page `p` maps so far is the only leaf role that may change. */
  lemma MapPagePersists(s: State, r: nat, p: Path, frame: nat, flags: Flags, own: bool)
    requires Inv(s) && MayMap(s, r, p, frame, own)
    requires MapPage(s, r, p, frame, flags, own).Some?
    ensures var s' := MapPage(s, r, p, frame, flags, own).value;
            && RolesPersist(s, s', OwnedFrame(s, r, p))
            && (own ==> Owned(s', r, p))
  {
    hide DescentOf, DownOk, LeafOk, OwnedOk, Owned, OwnedFrame, RolesPersist, SetLeaf;
    DescentCorrect(s, r, p, TableFlags(flags));
    var (s3, t) := DescentOf(s, r, p, TableFlags(flags)).value;
    WalkRole(s3, r, p[..3]);
    DescentFrame(s, r, p, s3, t);
    SetLeafPersists(s, s3, t, p[3], Present(frame, flags), own, OwnedFrame(s, r, p));
    if own {
      SetLeafOwned(s3, r, p, t, Present(frame, flags));
    }
  }

  /** Mapping a freshly allocated frame changes one page, which it owns afterwards. */
  lemma MapFreshCorrect(s: State, r: nat, p: Path, flags: Flags)
    requires Inv(s) && Level(s, r) == 4 && ValidPath(p) && |p| == 4
    requires MapFresh(s, r, p, flags).Some?
    ensures var s' := MapFresh(s, r, p, flags).value;
            var g := Allocate(s).value.1;
            && Inv(s') && StableSlots(s, s') && OnePage(s, s', r, p, Present(g, flags)) && Owned(s', r, p)
            && g in s.free && g != 0
            && RolesPersist(s, s', OwnedFrame(s, r, p))
  {
    hide MapPage, Tree, Full, RolesPersist, Owned, OwnedFrame, SameView;
    AllocateOk(s);
    AllocateRoots(s);
    var (a, g) := Allocate(s).value;
    MapPageCorrect(a, r, p, g, flags, true);
    MapPagePersists(a, r, p, g, flags, true);
    var s' := MapFresh(s, r, p, flags).value;
    StableTrans(s, a, s');
    AllocatePersists(s, r, p, s');
    OnePageAfter(s, a, s', r, p, Present(g, flags));
  }

  lemma AllocateRoots(s: State)
    requires Inv(s) && s.free != {}
    ensures var (a, g) := Allocate(s).value;
            && g in s.free && g != 0
            && (forall h: nat :: Level(s, h) == 4 ==> Level(a, h) == 4)
            && (forall h: nat, i: nat :: Level(s, h) == 4 ==> EntryAt(a.mem, h, i) == EntryAt(s.mem, h, i))
  {
    hide DownOk, UpOk, LeafOk, OwnedOk, Full;
    AllocateOk(s);
  }

  lemma AllocatePersists(s: State, r: nat, p: Path, s': State)
    requires Inv(s) && s.free != {} && Level(s, r) == 4 && ValidPath(p) && |p| == 4
    requires var a := Allocate(s).value.0; RolesPersist(a, s', OwnedFrame(a, r, p))
    ensures RolesPersist(s, s', OwnedFrame(s, r, p))
  {
    hide DownOk, UpOk, LeafOk, OwnedOk, Full;
    AllocateOk(s);
    var a := Allocate(s).value.0;
    assert Resolve(a.mem, r, p) == Resolve(s.mem, r, p);
    SameTablesWalk(s, a.mem, r, p[..3]);
  }

  lemma OnePageAfter(s: State, a: State, s': State, r: nat, p: Path, e: Entry)
    requires |p| == 4 && SameView(s, a) && OnePage(a, s', r, p, e) && Level(s, r) == 4
    requires forall h: nat :: Level(s, h) == 4 ==> Level(a, h) == 4
    requires forall h: nat, i: nat :: Level(s, h) == 4 ==> EntryAt(a.mem, h, i) == EntryAt(s.mem, h, i)
    ensures OnePage(s, s', r, p, e)
  {
    hide Resolve;
    forall r': nat, p': Path | Level(s, r') == 4 && ValidPath(p') && |p'| == 4
      ensures Resolve(s'.mem, r', p') == if p' == p && SameSlot(s, r, r', p[0]) then e else Resolve(s.mem, r', p')
    {
      assert SameSlot(s, r, r', p[0]) <==> SameSlot(a, r, r', p[0]);
    }
  }

  // ---------------------------------------------------------------- freeing and unmapping

  /** Frame `g` is put back into the free set. */
  ghost function Freed(s: State, g: nat): State {
    s.(free := s.free + {g}, role := if g < |s.role| then s.role[g := Free] else s.role)
  }

  lemma ReleaseCommutes(s: State, q: nat, i: nat, f: nat, g: nat)
    requires g < |s.role|
    ensures Release(Freed(s, g), q, i, f) == Freed(Release(s, q, i, f), g)
    ensures |Release(s, q, i, f).role| == |s.role|
  {
    assert s.free + {g} + {f} == s.free + {f} + {g};
  }

  lemma {:induction false} PruneCommutes(s: State, r: nat, p: Path, g: nat)
    requires g < |s.role|
    ensures Prune(Freed(s, g), r, p) == Freed(Prune(s, r, p), g)
    decreases |p|
  {
    if p == [] {
    } else {
      match (Walk(s.mem, r, p), Walk(s.mem, r, Init(p)))
      case (Some(f), Some(q)) =>
        if f < |s.mem| && IsEmpty(s.mem[f]) && !(|p| == 1 && UPPER_HALF <= p[0]) {
          var s1 := Release(s, q, Last(p), f);
          PruneCommutes(s1, r, Init(p), g);
          ReleaseCommutes(s, q, Last(p), f, g);
        }
      case _ =>
    }
  }

  /** A frame with no user can be freed. */
  lemma FreedCorrect(s: State, g: nat)
    requires Inv(s) && 0 < g < |s.role| && s.role[g].Other?
    ensures Inv(Freed(s, g)) && StableSlots(s, Freed(s, g))
  {
    var s' := Freed(s, g);
    assert forall h: nat :: Level(s', h) == Level(s, h);
    forall h: nat, j: nat | Level(s', h) >= 1 && j < SLOTS ensures DownOk(s', h, j) {
      assert DownOk(s, h, j);
    }
    forall h: nat | h < |s'.role| ensures UpOk(s', h) && LeafOk(s', h) && Full(s', h) {
      assert UpOk(s, h) && LeafOk(s, h) && Full(s, h);
    }
    forall t: nat, j: nat | j < SLOTS ensures OwnedOk(s', t, j) {
      assert OwnedOk(s, t, j);
    }
  }

  lemma UnmapPersists(s: State, r: nat, p: Path)
    requires Inv(s) && Level(s, r) == 4 && ValidPath(p) && |p| == 4
    ensures var s' := UnmapPage(s, r, p);
            var e := Resolve(s.mem, r, p);
            && RolesPersist(s, s', OwnedFrame(s, r, p))
            && (e.Present? && Owned(s, r, p) ==> s'.role[e.frame].Other?)
  {
    hide DownOk, LeafOk, OwnedOk;
    if Resolve(s.mem, r, p).Present? {
      var t := Walk(s.mem, r, p[..3]).value;
      WalkRole(s, r, p[..3]);
      SetLeafTree(s, t, p[3], Zero, false);
      SetLeafFrame(s, t, p[3], Zero, false);
      SetLeafWalk(s, t, p[3], Zero, false, r, p[..3]);
      PruneCorrect(SetLeaf(s, t, p[3], Zero, false), r, p[..3]);
    }
  }

  /** One round of munmap: on a mapped user page no panic of pmm_free fires, and the state is that of
      unmapping the page and then freeing its frame. */
  lemma UnmapFreeCorrect(s: State, r: nat, p: Path)
    requires Inv(s) && Level(s, r) == 4 && ValidPath(p) && |p| == 4 && Owned(s, r, p)
    ensures UnmapFree(s, r, p).Some?
    ensures var s' := UnmapFree(s, r, p).value;
            var g := Resolve(s.mem, r, p).frame;
            && s' == Freed(UnmapPage(s, r, p), g)
            && Inv(s') && StableSlots(s, s') && OnePage(s, s', r, p, Zero)
            && RolesPersist(s, s', OwnedFrame(s, r, p))
  {
    var g := Resolve(s.mem, r, p).frame;
    RolesExclude(s, r, p, r, p);
    var t := Walk(s.mem, r, p[..3]).value;
    var s1 := FreeFrame(s, g).value;
    var u := UnmapPage(s, r, p);
    assert SetLeaf(s1, t, p[3], Zero, false) == Freed(SetLeaf(s, t, p[3], Zero, false), g);
    PruneCommutes(SetLeaf(s, t, p[3], Zero, false), r, p[..3], g);
    UnmapPageCorrect(s, r, p);
    UnmapPersists(s, r, p);
    FreedCorrect(u, g);
    StableTrans(s, u, Freed(u, g));
  }

  /** Anonymous mmap of an unmapped page and munmap of it give back every frame, tables included. */
  lemma MmapThenMunmap(s: State, r: nat, p: Path, flags: Flags)
    requires Inv(s) && Level(s, r) == 4 && ValidPath(p) && |p| == 4 && p[0] < UPPER_HALF
    requires Resolve(s.mem, r, p) == Zero && MapFresh(s, r, p, flags).Some?
    ensures var s1 := MapFresh(s, r, p, flags).value;
            UnmapFree(s1, r, p).Some? && Restores(s, UnmapFree(s1, r, p).value)
  {
    hide MapPage, UnmapPage, RolesPersist;
    MapFreshCorrect(s, r, p, flags);
    AllocateOk(s);
    var (a, g) := Allocate(s).value;
    var s1 := MapFresh(s, r, p, flags).value;
    assert Resolve(s1.mem, r, p) == Present(g, flags);
    assert Resolve(a.mem, r, p) == Zero;
    UnmapFreeCorrect(s1, r, p);
    MapThenUnmap(a, r, p, g, flags, true);
  }

  // ---------------------------------------------------------------- runs

  /** A step of the memory manager on one page, as a caller makes it. */
  datatype Op =
    | Create
    | MapNew(root: nat, page: Path, flags: Flags)
    | MapFixed(root: nat, page: Path, frame: nat, flags: Flags)
    | Unmap(root: nat, page: Path)
    | UnmapAndFree(root: nat, page: Path)

  /** Callers pass an existing pagemap. Fixed frames (kernel image, direct map, low identity map) are
      mapped only by the kernel; munmap acts on pages that own their frames, as all lower-half pages of a
      process do. */
  ghost predicate Legal(s: State, op: Op) {
    match op
    case Create => true
    case MapNew(r, p, _) => Level(s, r) == 4 && ValidPath(p) && |p| == 4
    case MapFixed(r, p, _, _) => Level(s, r) == 4 && ValidPath(p) && |p| == 4 && (r == s.kernel || UPPER_HALF <= p[0])
    case Unmap(r, p) => Level(s, r) == 4 && ValidPath(p) && |p| == 4
    case UnmapAndFree(r, p) =>
      Level(s, r) == 4 && ValidPath(p) && |p| == 4 && (Resolve(s.mem, r, p).Present? ==> Owned(s, r, p))
  }

  ghost function Step(s: State, op: Op): Option<State>
    requires Legal(s, op)
  {
    match op
    case Create => var r :- NewPagemap(s); Some(r.0)
    case MapNew(r, p, flags) => MapFresh(s, r, p, flags)
    case MapFixed(r, p, frame, flags) => MapPage(s, r, p, frame, flags, false)
    case Unmap(r, p) => Some(UnmapPage(s, r, p))
    case UnmapAndFree(r, p) => UnmapFree(s, r, p)
  }

  /** The step on the flat views alone: at most one page changes. */
  ghost predicate FlatStep(s: State, op: Op, s': State)
    requires Legal(s, op)
  {
    match op
    case Create => SameView(s, s')
    case MapNew(r, p, flags) => exists g :: g in s.free && OnePage(s, s', r, p, Present(g, flags))
    case MapFixed(r, p, frame, flags) => OnePage(s, s', r, p, Present(frame, flags))
    case Unmap(r, p) => OnePage(s, s', r, p, Zero)
    case UnmapAndFree(r, p) => OnePage(s, s', r, p, Zero)
  }

  /** Every step keeps the invariant and is a step of the flat map; munmap stops only on a page that is
      not mapped. */
  lemma StepCorrect(s: State, op: Op)
    requires Inv(s) && Legal(s, op)
    ensures Step(s, op).Some? ==>
              && Inv(Step(s, op).value) && StableSlots(s, Step(s, op).value) && FlatStep(s, op, Step(s, op).value)
    ensures op.UnmapAndFree? ==> (Step(s, op).Some? <==> Resolve(s.mem, op.root, op.page).Present?)
    ensures op.Unmap? ==> Step(s, op).Some?
  {
    match op
    case Create =>
      if NewPagemap(s).Some? { NewPagemapCorrect(s); }
    case MapNew(r, p, flags) =>
      if MapFresh(s, r, p, flags).Some? { MapFreshCorrect(s, r, p, flags); }
    case MapFixed(r, p, frame, flags) =>
      if MapPage(s, r, p, frame, flags, false).Some? { MapPageCorrect(s, r, p, frame, flags, false); }
    case Unmap(r, p) =>
      UnmapPageCorrect(s, r, p);
    case UnmapAndFree(r, p) =>
      if Resolve(s.mem, r, p).Present? { UnmapFreeCorrect(s, r, p); }
  }

  ghost predicate Reaches(s: State, ops: seq<Op>, s': State)
    decreases |ops|
  {
    if ops == [] then s' == s
    else Legal(s, ops[0]) && Step(s, ops[0]).Some? && Reaches(Step(s, ops[0]).value, ops[1..], s')
  }

  lemma {:induction false} RunCorrect(s: State, ops: seq<Op>, s': State)
    requires Inv(s) && Reaches(s, ops, s')
    ensures Inv(s') && StableSlots(s, s')
    decreases |ops|
  {
    if ops == [] {
    } else {
      StepCorrect(s, ops[0]);
      var s1 := Step(s, ops[0]).value;
      RunCorrect(s1, ops[1..], s');
      StableTrans(s, s1, s');
    }
  }

  /** The machine after boot, before anything is mapped: the kernel PML4 is empty. */
  ghost predicate Boot(s: State) {
    && |s.role| == |s.mem| && 0 < s.kernel < |s.mem| && s.mem[s.kernel] == EmptyTable()
    && (forall f :: f in s.free ==> 0 < f < |s.mem| && f != s.kernel)
    && s.role == seq(|s.mem|, f requires 0 <= f => if f == s.kernel then Root else if f in s.free then Free else Other)
  }

  /** On every run from boot, an owned page has a frame that is neither free nor a page table nor the frame of
      another owned page, and no page table is free. All mapped lower-half pages of processes are owned, and so are
      pages that were mapped with a fresh frame, such as those of the kernel heap. */
  lemma RunSeparates(s: State, ops: seq<Op>, s': State, r: nat, p: Path, r': nat, p': Path)
    requires Boot(s) && Reaches(s, ops, s')
    requires Level(s', r) == 4 && ValidPath(p) && |p| == 4 && Owned(s', r, p)
    requires Level(s', r') == 4 && ValidPath(p')
    ensures Separate(s', r, p, r', p')
  {
    BootInv(s);
    RunCorrect(s, ops, s');
    RolesExclude(s', r, p, r', p');
  }

  /** The frame of page `p` is not free; it is no page table and not the frame of another owned page on the walk of
      `p'`; and that walk meets no free frame. */
  ghost predicate Separate(s: State, r: nat, p: Path, r': nat, p': Path)
    requires |p| == 4
  {
    && Resolve(s.mem, r, p).Present?
    && var f := Resolve(s.mem, r, p).frame;
    && f !in s.free && f != 0
    && (|p'| <= 3 && Walk(s.mem, r', p').Some? ==> Walk(s.mem, r', p').value !in s.free + {f})
    && (|p'| == 4 && Owned(s, r', p') && Resolve(s.mem, r', p').frame == f ==> p' == p && SameSlot(s, r, r', p[0]))
  }

  /** No step of the run names the page, under this pagemap or one that shares its slot. */
  ghost predicate Spares(s: State, ops: seq<Op>, r: nat, p: Path)
    requires p != []
    decreases |ops|
  {
    ops != [] ==>
      && Legal(s, ops[0]) && Step(s, ops[0]).Some?
      && (ops[0].Create? || !(ops[0].page == p && SameSlot(s, ops[0].root, r, p[0])))
      && Spares(Step(s, ops[0]).value, ops[1..], r, p)
  }

  /** A run that does not name an owned page leaves it owned, with the same frame and flags. */
  lemma {:induction false} RunKeepsOwned(s: State, ops: seq<Op>, s': State, r: nat, p: Path)
    requires Inv(s) && Reaches(s, ops, s') && Level(s, r) == 4 && ValidPath(p) && |p| == 4
    requires Owned(s, r, p) && Spares(s, ops, r, p)
    ensures Owned(s', r, p) && Resolve(s'.mem, r, p) == Resolve(s.mem, r, p) && Level(s', r) == 4
    decreases |ops|
  {
    hide Inv, Owned, Resolve, Step, SameSlot;
    if ops == [] {
      assert s' == s;
    } else {
      StepCorrect(s, ops[0]);
      StepKeepsOwned(s, ops[0], r, p);
      RunKeepsOwned(Step(s, ops[0]).value, ops[1..], s', r, p);
    }
  }

  /** A page that was mapped with a fresh frame anywhere in a run from boot, in the kernel's pagemap or a process's, in
      either half, and not named since, still has that frame, apart from all free frames, page tables and owned
      pages. */
  lemma MappedStaysSeparate(s: State, before: seq<Op>, s1: State, r: nat, p: Path, flags: Flags, after: seq<Op>,
                            s': State, r': nat, p': Path)
    requires Boot(s) && Reaches(s, before, s1) && Legal(s1, MapNew(r, p, flags))
    requires MapFresh(s1, r, p, flags).Some?
    requires var s2 := MapFresh(s1, r, p, flags).value; Reaches(s2, after, s') && Spares(s2, after, r, p)
    requires Level(s', r') == 4 && ValidPath(p')
    ensures Owned(s', r, p) && Resolve(s'.mem, r, p) == Present(Allocate(s1).value.1, flags)
    ensures Separate(s', r, p, r', p')
  {
    hide Inv, Owned, MapFresh, Reaches, Spares;
    BootInv(s);
    RunCorrect(s, before, s1);
    MapFreshCorrect(s1, r, p, flags);
    var s2 := MapFresh(s1, r, p, flags).value;
    RunCorrect(s2, after, s');
    RunKeepsOwned(s2, after, s', r, p);
    RolesExclude(s', r, p, r', p');
  }

  lemma BootInv(s: State)
    requires Boot(s)
    ensures Inv(s)
  {
    assert forall f: nat :: Level(s, f) >= 1 <==> f == s.kernel;
  }

  /** A pagemap agrees for ever with the kernel's on the higher-half slots present at its creation. */
  lemma KernelHalfShared(s: State, ops: seq<Op>, s': State, p: Path)
    requires Inv(s) && NewPagemap(s).Some? && Reaches(NewPagemap(s).value.0, ops, s')
    requires ValidPath(p) && |p| == 4 && UPPER_HALF <= p[0] && EntryAt(s.mem, s.kernel, p[0]).Present?
    ensures Resolve(s'.mem, NewPagemap(s).value.1, p) == Resolve(s'.mem, s.kernel, p)
  {
    var (s1, g) := NewPagemap(s).value;
    NewPagemapCorrect(s);
    RunCorrect(s1, ops, s');
    assert EntryAt(s1.mem, g, p[0]) == EntryAt(s1.mem, s.kernel, p[0]);
    SameSlotWalk(s'.mem, g, s.kernel, p[..3]);
  }

  /** A step leaves every owned page that is not its own page mapped as it was, and owned. */
  lemma StepKeepsOwned(s: State, op: Op, r: nat, p: Path)
    requires Inv(s) && Legal(s, op) && Step(s, op).Some?
    requires Level(s, r) == 4 && ValidPath(p) && |p| == 4 && Owned(s, r, p)
    requires !op.Create? ==> !(op.page == p && SameSlot(s, op.root, r, p[0]))
    ensures Owned(Step(s, op).value, r, p) && Resolve(Step(s, op).value.mem, r, p) == Resolve(s.mem, r, p)
  {
    StepCorrect(s, op);
    var s' := Step(s, op).value;
    RolesExclude(s, r, p, r, p);
    match op
    case Create =>
      NewPagemapCorrect(s);
      OwnedPersists(s, s', 0, r, p);
    case MapNew(r0, p0, flags) =>
      MapFreshCorrect(s, r0, p0, flags);
      OtherPage(s, s', r0, p0, r, p);
    case MapFixed(r0, p0, frame, flags) =>
      MapPagePersists(s, r0, p0, frame, flags, false);
      OtherPage(s, s', r0, p0, r, p);
    case Unmap(r0, p0) =>
      UnmapPersists(s, r0, p0);
      OtherPage(s, s', r0, p0, r, p);
    case UnmapAndFree(r0, p0) =>
      UnmapFreeCorrect(s, r0, p0);
      OtherPage(s, s', r0, p0, r, p);
  }

  lemma OtherPage(s: State, s': State, r0: nat, p0: Path, r: nat, p: Path)
    requires Inv(s) && Inv(s') && StableSlots(s, s') && Level(s, r0) == 4 && ValidPath(p0) && |p0| == 4
    requires Level(s, r) == 4 && ValidPath(p) && |p| == 4 && Owned(s, r, p)
    requires !(p0 == p && SameSlot(s, r0, r, p[0]))
    requires RolesPersist(s, s', OwnedFrame(s, r0, p0)) && exists e :: OnePage(s, s', r0, p0, e)
    ensures Owned(s', r, p) && Resolve(s'.mem, r, p) == Resolve(s.mem, r, p)
  {
    var e :| OnePage(s, s', r0, p0, e);
    RolesExclude(s, r, p, r0, p0);
    OwnedPersists(s, s', OwnedFrame(s, r0, p0), r, p);
  }

  /** A step on a lower-half page of one pagemap changes no translation of any other. */
  lemma LowerHalfIsolated(s: State, op: Op, r': nat, p': Path)
    requires Inv(s) && Legal(s, op) && Step(s, op).Some? && !op.Create? && op.page[0] < UPPER_HALF
    requires Level(s, r') == 4 && r' != op.root && ValidPath(p') && |p'| == 4
    ensures Resolve(Step(s, op).value.mem, r', p') == Resolve(s.mem, r', p')
  {
    StepCorrect(s, op);
  }

  // ---------------------------------------------------------------- frames that suffice

  /** The frames that mapping one page can take: the page and three tables. */
  const FRAMES_PER_PAGE: nat := 4

  lemma NextLevelBudget(s: State, f: nat, i: nat, flags: Flags)
    requires s.free != {}
    ensures NextLevel(s, f, i, flags).Some? && |NextLevel(s, f, i, flags).value.0.free| >= |s.free| - 1
  {
  }

  lemma DescentBudget(s: State, r: nat, p: Path, flags: Flags)
    requires |p| == 4 && |s.free| >= 3
    ensures DescentOf(s, r, p, flags).Some? && |DescentOf(s, r, p, flags).value.0.free| >= |s.free| - 3
  {
    hide NextLevel;
    NextLevelBudget(s, r, p[0], flags);
    var r1 := NextLevel(s, r, p[0], flags).value;
    NextLevelBudget(r1.0, r1.1, p[1], flags);
    var r2 := NextLevel(r1.0, r1.1, p[1], flags).value;
    NextLevelBudget(r2.0, r2.1, p[2], flags);
  }

  /** Four free frames suffice for mapping a page, and no more are taken. */
  lemma MapFreshBudget(s: State, r: nat, p: Path, flags: Flags)
    requires |p| == 4
    ensures |s.free| >= FRAMES_PER_PAGE ==> MapFresh(s, r, p, flags).Some?
    ensures MapFresh(s, r, p, flags).Some? ==> |MapFresh(s, r, p, flags).value.free| >= |s.free| - FRAMES_PER_PAGE
  {
    hide DescentOf;
    if |s.free| >= FRAMES_PER_PAGE {
      var a := Allocate(s).value;
      DescentBudget(a.0, r, p, TableFlags(flags));
    }
  }
}
