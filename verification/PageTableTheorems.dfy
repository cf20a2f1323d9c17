/** The operations of kernel/system/vmm.c refine a flat map from page to entry, keep the role map, and
    undo each other. */
module PageTableTheorems {
  import opened Wrappers
  import opened PageTables
  import opened PageTableSteps

  lemma ViewTrans(s: State, s1: State, s2: State)
    requires SameView(s, s1) && StableSlots(s, s1) && SameView(s1, s2) && StableSlots(s1, s2)
    ensures SameView(s, s2) && StableSlots(s, s2)
  {
    forall r: nat, i: nat | Level(s, r) == 4 && UPPER_HALF <= i && EntryAt(s.mem, r, i).Present?
      ensures EntryAt(s2.mem, r, i) == EntryAt(s.mem, r, i)
    {
      assert EntryAt(s1.mem, r, i) == EntryAt(s.mem, r, i);
    }
  }

  // ---------------------------------------------------------------- map

  /** The frame to be mapped is nobody's yet; or the mapping is not owned and not in a user table. */
  ghost predicate MayMap(s: State, r: nat, p: Path, frame: nat, own: bool) {
    && Level(s, r) == 4 && ValidPath(p) && |p| == 4
    && (own ==> 0 < frame < |s.role| && s.role[frame].Other?)
    && (!own ==> r == s.kernel || UPPER_HALF <= p[0])
  }

  /** The states and tables of the three calls of vmm_get_next_level in vmm_map_page. */
  datatype Levels = Levels(s1: State, f1: nat, s2: State, f2: nat, s3: State, f3: nat)

  ghost predicate Descends(s: State, r: nat, p: Path, flags: Flags, l: Levels)
    requires |p| == 4
  {
    && NextLevel(s, r, p[0], flags) == Some((l.s1, l.f1))
    && NextLevel(l.s1, l.f1, p[1], flags) == Some((l.s2, l.f2))
    && NextLevel(l.s2, l.f2, p[2], flags) == Some((l.s3, l.f3))
  }

  ghost function Descent(s: State, r: nat, p: Path, flags: Flags): (l: Levels)
    requires |p| == 4 && DescentOf(s, r, p, flags).Some?
    ensures Descends(s, r, p, flags, l)
  {
    var r1 := NextLevel(s, r, p[0], flags).value;
    var r2 := NextLevel(r1.0, r1.1, p[1], flags).value;
    var r3 := NextLevel(r2.0, r2.1, p[2], flags).value;
    Levels(r1.0, r1.1, r2.0, r2.1, r3.0, r3.1)
  }

  /** What allocating tables on the way to a page below entry `i` of PML4 `r` keeps. */
  ghost predicate Unnoticed(s: State, s': State, r: nat, i: nat) {
    SameView(s, s') && StableSlots(s, s') && KeepsRoles(s, s') && SameSharing(s, s', r, i)
  }

  lemma UnnoticedTrans(s: State, s1: State, s2: State, r: nat, i: nat)
    requires Unnoticed(s, s1, r, i) && Unnoticed(s1, s2, r, i)
    ensures Unnoticed(s, s2, r, i)
  {
    ViewTrans(s, s1, s2);
  }

  /** One call of vmm_get_next_level on the table that the walk of `q` reached. */
  lemma DescendOnce(s: State, r: nat, q: Path, f: nat, i: nat, flags: Flags, s': State, g: nat)
    requires Tree(s) && FullExcept(s, f) && Level(s, r) == 4 && ValidPath(q + [i]) && |q| <= 2
    requires Walk(s.mem, r, q) == Some(f) && NextLevel(s, f, i, flags) == Some((s', g))
    ensures Tree(s') && FullExcept(s', g) && Level(s', r) == 4 && Level(s', g) == 3 - |q|
    ensures Walk(s'.mem, r, q) == Some(f) && Walk(s'.mem, r, q + [i]) == Some(g)
    ensures Unnoticed(s, s', r, (q + [i])[0])
  {
    hide DownOk, UpOk, LeafOk, OwnedOk, SameView, KeepsRoles, SameSharing;
    assert (q + [i])[|q|] == i && forall j :: 0 <= j < |q| ==> q[j] == (q + [i])[j];
    WalkRole(s, r, q);
    NextLevelOk(s, f, i, flags);
    NextLevelWalk(s, f, i, flags, r, q);
    assert Init(q + [i]) == q && Last(q + [i]) == i;
  }

  lemma MapLevels(s: State, r: nat, p: Path, flags: Flags, l: Levels)
    requires Inv(s) && Level(s, r) == 4 && ValidPath(p) && |p| == 4 && Descends(s, r, p, flags, l)
    ensures Tree(l.s1) && Tree(l.s2) && Tree(l.s3)
    ensures FullExcept(l.s1, l.f1) && FullExcept(l.s2, l.f2) && FullExcept(l.s3, l.f3)
    ensures Level(l.s1, l.f1) == 3 && Level(l.s2, l.f2) == 2 && Level(l.s3, l.f3) == 1
    ensures Level(l.s1, r) == 4 && Level(l.s2, r) == 4 && Level(l.s3, r) == 4
    ensures Walk(l.s1.mem, r, p[..1]) == Some(l.f1) && Walk(l.s2.mem, r, p[..2]) == Some(l.f2)
    ensures Walk(l.s3.mem, r, p[..3]) == Some(l.f3)
    ensures Unnoticed(s, l.s3, r, p[0])
  {
    hide Tree, Unnoticed, NextLevel, Full;
    assert p[..1] == [] + [p[0]] && p[..2] == p[..1] + [p[1]] && p[..3] == p[..2] + [p[2]];
    DescendOnce(s, r, [], r, p[0], flags, l.s1, l.f1);
    DescendOnce(l.s1, r, p[..1], l.f1, p[1], flags, l.s2, l.f2);
    DescendOnce(l.s2, r, p[..2], l.f2, p[2], flags, l.s3, l.f3);
    UnnoticedTrans(s, l.s1, l.s2, r, p[0]);
    UnnoticedTrans(s, l.s2, l.s3, r, p[0]);
  }

  /** After the descent the view is unchanged and the page table of `p` is in place. */
  ghost predicate Descended(s: State, r: nat, p: Path, s': State, t: nat)
    requires |p| == 4
  {
    && Tree(s') && FullExcept(s', t) && Level(s', t) == 1 && Level(s', r) == 4
    && Walk(s'.mem, r, p[..3]) == Some(t)
    && Unnoticed(s, s', r, p[0])
  }

  lemma DescentCorrect(s: State, r: nat, p: Path, flags: Flags)
    requires Inv(s) && Level(s, r) == 4 && ValidPath(p) && |p| == 4 && DescentOf(s, r, p, flags).Some?
    ensures var (s', t) := DescentOf(s, r, p, flags).value; Descended(s, r, p, s', t)
  {
    MapLevels(s, r, p, flags, Descent(s, r, p, flags));
  }

  /** vmm_map_page changes exactly one page of the flat view and keeps the invariant. */
  lemma MapPageCorrect(s: State, r: nat, p: Path, frame: nat, flags: Flags, own: bool)
    requires Inv(s) && MayMap(s, r, p, frame, own)
    requires MapPage(s, r, p, frame, flags, own).Some?
    ensures var s' := MapPage(s, r, p, frame, flags, own).value;
            && Inv(s') && StableSlots(s, s')
            && OnePage(s, s', r, p, Present(frame, flags))
  {
    hide DescentOf;
    DescentCorrect(s, r, p, TableFlags(flags));
    var (s3, f3) := DescentOf(s, r, p, TableFlags(flags)).value;
    WalkRole(s3, r, p[..3]);
    var e := Present(frame, flags);
    assert LeafWrite(s3, f3, p[3], e, own);
    SetLeafTree(s3, f3, p[3], e, own);
    SetLeafView(s3, f3, p[3], e, own, r, p);
    var s' := SetLeaf(s3, f3, p[3], e, own);
    assert StableSlots(s, s') by { StableTrans(s, s3, s'); }
  }

  lemma StableTrans(s: State, s1: State, s2: State)
    requires StableSlots(s, s1) && StableSlots(s1, s2)
    ensures StableSlots(s, s2)
  {
    forall r: nat, i: nat | Level(s, r) == 4 && UPPER_HALF <= i && EntryAt(s.mem, r, i).Present?
      ensures EntryAt(s2.mem, r, i) == EntryAt(s.mem, r, i)
    {
      assert EntryAt(s1.mem, r, i) == EntryAt(s.mem, r, i);
    }
  }

  // ---------------------------------------------------------------- unmap

  /** Tables may become free frames; no other role changes. */
  ghost predicate OnlyFrees(s: State, s': State) {
    && |s'.role| == |s.role|
    && (forall h: nat :: h < |s.role| && s'.role[h] != s.role[h] ==> s.role[h].Table? && s'.role[h].Free?)
  }

  /** The table at the end of a walk and the one above it; an empty one can be freed, but no PDPT of the higher half. */
  lemma PruneTable(s: State, r: nat, p: Path)
    requires Tree(s) && Level(s, r) == 4 && ValidPath(p) && 1 <= |p| <= 3 && Walk(s.mem, r, p).Some?
    ensures Walk(s.mem, r, Init(p)).Some?
    ensures var f := Walk(s.mem, r, p).value;
            var q := Walk(s.mem, r, Init(p)).value;
            && 0 < f < |s.mem| && q < |s.mem| && q != f && f !in s.free && Last(p) < SLOTS
            && (IsEmpty(s.mem[f]) && !(|p| == 1 && UPPER_HALF <= p[0]) ==> Releasable(s, q, Last(p), f))
            && (!IsEmpty(s.mem[f]) || (|p| == 1 && UPPER_HALF <= p[0]) ==> Full(s, f))
  {
    hide DownOk, LeafOk, OwnedOk;
    WalkRole(s, r, p);
    WalkRole(s, r, Init(p));
    assert UpOk(s, r);
  }

  /** One level of pruning: the frames it touches are in memory, and the tables above stay in place. */
  lemma PruneLevel(s: State, r: nat, p: Path)
    requires Tree(s) && Level(s, r) == 4 && ValidPath(p) && 1 <= |p| <= 3 && Walk(s.mem, r, p).Some?
    ensures Walk(s.mem, r, Init(p)).Some?
    ensures var f := Walk(s.mem, r, p).value;
            var q := Walk(s.mem, r, Init(p)).value;
            && 0 < f < |s.mem| && q < |s.mem| && f !in s.free && Last(p) < SLOTS
            && (IsEmpty(s.mem[f]) && !(|p| == 1 && UPPER_HALF <= p[0]) ==>
                  var s1 := Release(s, q, Last(p), f);
                  && Prune(s, r, p) == Prune(s1, r, Init(p))
                  && Tree(s1) && Level(s1, r) == 4 && Walk(s1.mem, r, Init(p)) == Some(q)
                  && SameView(s, s1) && StableSlots(s, s1) && OnlyFrees(s, s1)
                  && (FullExcept(s, f) ==> FullExcept(s1, q)))
            && (!IsEmpty(s.mem[f]) || (|p| == 1 && UPPER_HALF <= p[0]) ==>
                  Prune(s, r, p) == s && (FullExcept(s, f) ==> Inv(s)))
  {
    hide Tree, SameView, Walk, IsEmpty, Release, Prune, Full, OnlyFrees, Releasable;
    PruneTable(s, r, p);
    PruneUnfolds(s, r, p);
    var f := Walk(s.mem, r, p).value;
    var q := Walk(s.mem, r, Init(p)).value;
    if IsEmpty(s.mem[f]) && !(|p| == 1 && UPPER_HALF <= p[0]) {
      ReleaseOk(s, q, Last(p), f);
      ReleaseWalk(s, q, Last(p), f, r, Init(p));
      ReleaseFrees(s, q, Last(p), f);
    }
  }

  lemma PruneUnfolds(s: State, r: nat, p: Path)
    requires 1 <= |p| && Walk(s.mem, r, p).Some? && Walk(s.mem, r, Init(p)).Some? && Walk(s.mem, r, p).value < |s.mem|
    ensures var f, q := Walk(s.mem, r, p).value, Walk(s.mem, r, Init(p)).value;
      Prune(s, r, p) == if IsEmpty(s.mem[f]) && !(|p| == 1 && UPPER_HALF <= p[0])
                        then Prune(Release(s, q, Last(p), f), r, Init(p)) else s
  {
  }

  lemma ReleaseFrees(s: State, q: nat, i: nat, f: nat)
    requires Releasable(s, q, i, f)
    ensures OnlyFrees(s, Release(s, q, i, f))
  {
  }

  lemma {:induction false} PruneCorrect(s: State, r: nat, p: Path)
    requires Tree(s) && Level(s, r) == 4 && ValidPath(p) && |p| <= 3
    requires Walk(s.mem, r, p).Some? && FullExcept(s, Walk(s.mem, r, p).value)
    ensures Inv(Prune(s, r, p)) && SameView(s, Prune(s, r, p)) && StableSlots(s, Prune(s, r, p))
    ensures OnlyFrees(s, Prune(s, r, p))
    decreases |p|
  {
    hide Tree, SameView, StableSlots, Release;
    if p == [] {
      PruneRoot(s, r);
    } else {
      PruneLevel(s, r, p);
      var f := Walk(s.mem, r, p).value;
      var q := Walk(s.mem, r, Init(p)).value;
      if IsEmpty(s.mem[f]) && !(|p| == 1 && UPPER_HALF <= p[0]) {
        var s1 := Release(s, q, Last(p), f);
        PruneCorrect(s1, r, Init(p));
        ViewTrans(s, s1, Prune(s1, r, Init(p)));
      } else {
        ViewSelf(s);
      }
    }
  }

  /** A PML4 is never freed. */
  lemma PruneRoot(s: State, r: nat)
    requires Tree(s) && Level(s, r) == 4 && FullExcept(s, r)
    ensures Prune(s, r, []) == s && Inv(s) && SameView(s, s) && StableSlots(s, s)
  {
    assert UpOk(s, r);
  }

  lemma ViewSelf(s: State)
    ensures SameView(s, s) && StableSlots(s, s)
  {
  }

  /** vmm_unmap_page removes exactly one page of the flat view, whatever tables it frees. */
  lemma UnmapPageCorrect(s: State, r: nat, p: Path)
    requires Inv(s) && Level(s, r) == 4 && ValidPath(p) && |p| == 4
    ensures var s' := UnmapPage(s, r, p);
            && Inv(s') && StableSlots(s, s')
            && OnePage(s, s', r, p, Zero)
  {
    var s' := UnmapPage(s, r, p);
    if Resolve(s.mem, r, p).Present? {
      var t := Walk(s.mem, r, p[..3]).value;
      WalkRole(s, r, p[..3]);
      var s1 := SetLeaf(s, t, p[3], Zero, false);
      SetLeafTree(s, t, p[3], Zero, false);
      SetLeafView(s, t, p[3], Zero, false, r, p);
      SetLeafWalk(s, t, p[3], Zero, false, r, p[..3]);
      PruneCorrect(s1, r, p[..3]);
      StableTrans(s, s1, s');
      UnmapView(s, s1, s', r, p);
    } else {
      forall r': nat | Level(s, r') == 4 && SameSlot(s, r, r', p[0])
        ensures Resolve(s.mem, r', p) == Zero
      {
        if r != r' { SameSlotWalk(s.mem, r, r', p[..3]); }
      }
    }
  }

  lemma UnmapView(s: State, s1: State, s': State, r: nat, p: Path)
    requires ValidPath(p) && |p| == 4 && Level(s, r) == 4
    requires OnePage(s, s1, r, p, Zero) && StableSlots(s, s1) && SameView(s1, s') && StableSlots(s1, s')
    ensures OnePage(s, s', r, p, Zero)
  {
    forall r': nat, p': Path | Level(s, r') == 4 && ValidPath(p') && |p'| == 4
      ensures Resolve(s'.mem, r', p') == if p' == p && SameSlot(s, r, r', p[0]) then Zero else Resolve(s.mem, r', p')
    {
      assert Resolve(s'.mem, r', p') == Resolve(s1.mem, r', p');
    }
  }

  // ---------------------------------------------------------------- map, then unmap

  /** The same free frames, and the same contents of every frame that is not free. */
  ghost predicate Restores(s: State, s': State) {
    && s'.free == s.free && |s'.mem| == |s.mem|
    && (forall f: nat :: f < |s.mem| && f !in s.free ==> s'.mem[f] == s.mem[f])
  }

  lemma RestoresWalk(s: State, s': State, r: nat, p: Path)
    requires Tree(s) && Restores(s, s') && Level(s, r) == 4 && ValidPath(p) && |p| <= 3
    ensures Walk(s'.mem, r, p) == Walk(s.mem, r, p)
    ensures Walk(s.mem, r, p).Some? ==> Walk(s.mem, r, p).value !in s.free
  {
    SameTablesWalk(s, s'.mem, r, p);
    if Walk(s.mem, r, p).Some? {
      WalkRole(s, r, p);
    }
  }

  /** `x` is, up to free frames, the state after vmm_get_next_level allocated below entry `i` of `f`. */
  ghost predicate AfterAlloc(s: State, f: nat, i: nat, flags: Flags, r: nat, q: Path, x: State) {
    && Tree(s) && FullExcept(s, f) && Level(s, r) == 4 && ValidPath(q) && |q| <= 2 && i < SLOTS
    && Walk(s.mem, r, q) == Some(f) && !EntryAt(s.mem, f, i).Present? && s.free != {}
    && Restores(NextLevel(s, f, i, flags).value.0, x)
  }

  lemma UndoWalks(s: State, f: nat, i: nat, flags: Flags, r: nat, q: Path, x: State)
    requires AfterAlloc(s, f, i, flags, r, q, x)
    ensures var g := NextLevel(s, f, i, flags).value.1;
            && Walk(x.mem, r, q) == Some(f) && Walk(x.mem, r, q + [i]) == Some(g)
            && g < |x.mem| && IsEmpty(x.mem[g])
  {
    hide DownOk, UpOk, LeafOk, OwnedOk, FullExcept, Unnoticed, Walk;
    var (s', g) := NextLevel(s, f, i, flags).value;
    WalkRole(s, r, q);
    assert (q + [i])[|q|] == i && forall j :: 0 <= j < |q| ==> q[j] == (q + [i])[j];
    DescendOnce(s, r, q, f, i, flags, s', g);
    RestoresWalk(s', x, r, q);
    RestoresWalk(s', x, r, q + [i]);
  }

  lemma UndoMemory(s: State, f: nat, i: nat, flags: Flags, r: nat, q: Path, x: State)
    requires AfterAlloc(s, f, i, flags, r, q, x)
    ensures Restores(s, Release(x, f, i, NextLevel(s, f, i, flags).value.1))
  {
    var (s', g) := NextLevel(s, f, i, flags).value;
    WalkRole(s, r, q);
    assert DownOk(s, f, i);
    var y := Release(x, f, i, g);
    forall h: nat | h < |s.mem| && h !in s.free ensures y.mem[h] == s.mem[h] {
      assert h != g && x.mem[h] == s'.mem[h];
    }
  }

  /** Pruning undoes one allocating call of vmm_get_next_level and goes on with the level above. */
  lemma PruneUndoes(s: State, f: nat, i: nat, flags: Flags, r: nat, q: Path, x: State)
    requires AfterAlloc(s, f, i, flags, r, q, x) && (q + [i])[0] < UPPER_HALF
    ensures var g := NextLevel(s, f, i, flags).value.1;
            Restores(s, Release(x, f, i, g)) && Prune(x, r, q + [i]) == Prune(Release(x, f, i, g), r, q)
  {
    UndoWalks(s, f, i, flags, r, q, x);
    UndoMemory(s, f, i, flags, r, q, x);
    assert Init(q + [i]) == q && Last(q + [i]) == i;
  }

  /** Pruning stops at a table that was there before. */
  lemma PruneStops(s: State, r: nat, p: Path, x: State)
    requires Inv(s) && Level(s, r) == 4 && ValidPath(p) && 1 <= |p| <= 3 && p[0] < UPPER_HALF
    requires Walk(s.mem, r, p).Some? && Restores(s, x)
    ensures Prune(x, r, p) == x
  {
    RestoresWalk(s, x, r, p);
    WalkRole(s, r, p);
    assert Full(s, Walk(s.mem, r, p).value);
  }

  /** Mapping an unmapped lower-half page and unmapping it again gives back every frame and leaves
      every table as it was. */
  lemma MapThenUnmap(s: State, r: nat, p: Path, frame: nat, flags: Flags, own: bool)
    requires Inv(s) && MayMap(s, r, p, frame, own) && p[0] < UPPER_HALF
    requires Resolve(s.mem, r, p) == Zero
    requires MapPage(s, r, p, frame, flags, own).Some?
    ensures Restores(s, UnmapPage(MapPage(s, r, p, frame, flags, own).value, r, p))
  {
    var l := Descent(s, r, p, TableFlags(flags));
    var s3, f3 := l.s3, l.f3;
    MapLevels(s, r, p, TableFlags(flags), l);
    var s4 := MapPage(s, r, p, frame, flags, own).value;
    SetLeafWalk(s3, f3, p[3], Present(frame, flags), own, r, p[..3]);
    WalkRole(s3, r, p[..3]);
    var x := SetLeaf(s4, f3, p[3], Zero, false);
    assert EntryAt(s3.mem, f3, p[3]) == Zero by {
      assert Resolve(s3.mem, r, p) == Zero && DownOk(s3, f3, p[3]);
    }
    PutBack(s3.mem, f3, p[3], Present(frame, flags));
    assert x.mem == s3.mem;
    assert UnmapPage(s4, r, p) == Prune(x, r, p[..3]);
    UndoLevels(s, r, p, TableFlags(flags), l, x);
  }

  lemma PutBack(mem: seq<Table>, f: nat, i: nat, e: Entry)
    requires f < |mem| && i < SLOTS
    ensures Put(Put(mem, f, i, e), f, i, mem[f][i]) == mem
  {
    assert mem[f][i := e][i := mem[f][i]] == mem[f];
  }

  /** A table with an entry was not just allocated. */
  lemma NotFresh(s: State, f: nat, i: nat, flags: Flags, j: nat)
    requires Tree(s) && Level(s, f) >= 2 && NextLevel(s, f, i, flags).Some?
    requires EntryAt(NextLevel(s, f, i, flags).value.0.mem, NextLevel(s, f, i, flags).value.1, j).Present?
    ensures NextLevel(s, f, i, flags).value.0 == s && EntryAt(s.mem, f, i).Present?
  {
  }

  lemma NextLevelCases(s: State, f: nat, i: nat, flags: Flags)
    requires NextLevel(s, f, i, flags).Some?
    ensures EntryAt(s.mem, f, i).Present? ==> NextLevel(s, f, i, flags).value.0 == s
    ensures !EntryAt(s.mem, f, i).Present? ==> s.free != {}
  {
  }

  lemma UndoLevels(s: State, r: nat, p: Path, f: Flags, l: Levels, x: State)
    requires Inv(s) && Level(s, r) == 4 && ValidPath(p) && |p| == 4 && p[0] < UPPER_HALF
    requires Descends(s, r, p, f, l) && Restores(l.s3, x)
    ensures Restores(s, Prune(x, r, p[..3]))
  {
    hide Tree, Full, NextLevel, Walk, Prune, Restores, Release, Unnoticed, EntryAt;
    NextLevelCases(l.s2, l.f2, p[2], f);
    MapLevels(s, r, p, f, l);
    assert p[..1] + [p[1]] == p[..2] && p[..2] + [p[2]] == p[..3] && [] + [p[0]] == p[..1];
    if EntryAt(l.s2.mem, l.f2, p[2]).Present? {
      NotFresh(l.s1, l.f1, p[1], f, p[2]);
      NotFresh(s, r, p[0], f, p[1]);
      PruneStops(s, r, p[..3], x);
    } else {
      PruneUndoes(l.s2, l.f2, p[2], f, r, p[..2], x);
      UndoTwoLevels(s, r, p, f, l, Release(x, l.f2, p[2], l.f3));
    }
  }

  lemma UndoTwoLevels(s: State, r: nat, p: Path, f: Flags, l: Levels, x: State)
    requires Inv(s) && Level(s, r) == 4 && ValidPath(p) && |p| == 4 && p[0] < UPPER_HALF
    requires Descends(s, r, p, f, l) && Restores(l.s2, x)
    ensures Restores(s, Prune(x, r, p[..2]))
  {
    hide Tree, Full, NextLevel, Walk, Prune, Restores, Release, Unnoticed, EntryAt;
    NextLevelCases(l.s1, l.f1, p[1], f);
    MapLevels(s, r, p, f, l);
    assert p[..1] + [p[1]] == p[..2];
    if EntryAt(l.s1.mem, l.f1, p[1]).Present? {
      NotFresh(s, r, p[0], f, p[1]);
      PruneStops(s, r, p[..2], x);
    } else {
      PruneUndoes(l.s1, l.f1, p[1], f, r, p[..1], x);
      UndoOneLevel(s, r, p, f, l, Release(x, l.f1, p[1], l.f2));
    }
  }

  lemma UndoOneLevel(s: State, r: nat, p: Path, f: Flags, l: Levels, x: State)
    requires Inv(s) && Level(s, r) == 4 && ValidPath(p) && |p| == 4 && p[0] < UPPER_HALF
    requires Descends(s, r, p, f, l) && Restores(l.s1, x)
    ensures Restores(s, Prune(x, r, p[..1]))
  {
    assert [] + [p[0]] == p[..1];
    if EntryAt(s.mem, r, p[0]).Present? {
      assert Init(p[..1]) == [];
      PruneStops(s, r, p[..1], x);
    } else {
      assert Full(s, r);
      PruneUndoes(s, r, p[0], f, r, [], x);
    }
  }
}
