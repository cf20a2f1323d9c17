/** Access rights combined over the four levels of a walk (section 4.6 of the Intel SDM, Vol. 3A). */
module AccessRights {
  import opened Wrappers
  import opened PageTables
  import opened PageTableSteps
  import opened PageTableTheorems
  import opened PageTableRuns

  const USER_TABLE := Flags(true, true, false)

  /** Writable and user need every level; one level is enough to forbid execution. */
  function Combine(a: Flags, b: Flags): Flags {
    Flags(a.writable && b.writable, a.user && b.user, a.noExecute || b.noExecute)
  }

  function EntryFlags(mem: seq<Table>, f: Option<nat>, i: nat): Flags {
    if f.Some? && EntryAt(mem, f.value, i).Present? then EntryAt(mem, f.value, i).flags else Flags(false, false, true)
  }

  /** The rights of page `p` as the processor computes them. */
  function Effective(mem: seq<Table>, r: nat, p: Path): Flags
    requires |p| == 4
  {
    Combine(Combine(EntryFlags(mem, Some(r), p[0]), EntryFlags(mem, Walk(mem, r, p[..1]), p[1])),
            Combine(EntryFlags(mem, Walk(mem, r, p[..2]), p[2]), EntryFlags(mem, Walk(mem, r, p[..3]), p[3])))
  }

  /** An intermediate entry with flags `t` lets the rights `f` through. */
  predicate Admits(t: Flags, f: Flags) {
    (f.writable ==> t.writable) && (f.user ==> t.user) && (t.noExecute ==> f.noExecute)
  }

  /** The three intermediate entries of page `p` let the rights `f` through. */
  predicate Admitted(mem: seq<Table>, r: nat, p: Path, f: Flags)
    requires |p| == 4
  {
    && Admits(EntryFlags(mem, Some(r), p[0]), f)
    && Admits(EntryFlags(mem, Walk(mem, r, p[..1]), p[1]), f)
    && Admits(EntryFlags(mem, Walk(mem, r, p[..2]), p[2]), f)
  }

  /** The rights of a mapped page, in either half, are its own flags exactly if the entries above it admit them. */
  lemma EffectiveExact(mem: seq<Table>, r: nat, p: Path)
    requires |p| == 4 && Resolve(mem, r, p).Present?
    ensures var f := Resolve(mem, r, p).flags; Effective(mem, r, p) == f <==> Admitted(mem, r, p, f)
  {
    assert EntryFlags(mem, Walk(mem, r, p[..3]), p[3]) == Resolve(mem, r, p).flags;
  }

  /** Table `f` holds intermediate entries of the lower half of pagemap `r`; of the PML4, entry `i`. */
  ghost predicate LowerTable(s: State, r: nat, f: nat, i: nat) {
    f < |s.role| &&
    ((f == r && i < UPPER_HALF)
     || (s.role[f].Table? && s.role[f].low && s.role[f].root == r && s.role[f].level > 1))
  }

  /** The intermediate entries of the lower half of `r` restrict nothing. */
  ghost predicate UserTables(s: State, r: nat) {
    forall f: nat, i: nat :: LowerTable(s, r, f, i) && EntryAt(s.mem, f, i).Present? ==>
                               EntryAt(s.mem, f, i).flags == USER_TABLE
  }

  /** The rights of a lower-half page are the flags it was mapped with. */
  lemma EffectiveIsLeaf(s: State, r: nat, p: Path)
    requires Inv(s) && UserTables(s, r) && Level(s, r) == 4 && ValidPath(p) && |p| == 4 && p[0] < UPPER_HALF
    requires Resolve(s.mem, r, p).Present?
    ensures Effective(s.mem, r, p) == Resolve(s.mem, r, p).flags
  {
    assert Init(p[..1]) == [] && Init(p[..2]) == p[..1] && Init(p[..3]) == p[..2];
    WalkRole(s, r, p[..3]);
    WalkRole(s, r, p[..2]);
    WalkRole(s, r, p[..1]);
    var pdpt, pd := Walk(s.mem, r, p[..1]).value, Walk(s.mem, r, p[..2]).value;
    assert LowerTable(s, r, r, p[0]) && LowerTable(s, r, pdpt, p[1]) && LowerTable(s, r, pd, p[2]);
  }

  lemma NextLevelUser(s: State, r: nat, f: nat, i: nat)
    requires Tree(s) && UserTables(s, r) && Level(s, r) == 4 && Level(s, f) >= 2 && i < SLOTS
    requires NextLevel(s, f, i, USER_TABLE).Some?
    ensures UserTables(NextLevel(s, f, i, USER_TABLE).value.0, r)
  {
    var (s', g) := NextLevel(s, f, i, USER_TABLE).value;
    if !EntryAt(s.mem, f, i).Present? {
      forall h: nat, j: nat | LowerTable(s', r, h, j) && EntryAt(s'.mem, h, j).Present?
        ensures EntryAt(s'.mem, h, j).flags == USER_TABLE
      {
        assert h != g;
        assert LowerTable(s, r, h, j);
      }
    }
  }

  lemma SetLeafUser(s: State, r: nat, t: nat, i: nat, e: Entry, own: bool)
    requires Tree(s) && UserTables(s, r) && Level(s, r) == 4 && LeafWrite(s, t, i, e, own)
    ensures UserTables(SetLeaf(s, t, i, e, own), r)
  {
    var s' := SetLeaf(s, t, i, e, own);
    SetLeafFrame(s, t, i, e, own);
    assert UpOk(s, t);
    forall h: nat, j: nat | LowerTable(s', r, h, j) && EntryAt(s'.mem, h, j).Present?
      ensures EntryAt(s'.mem, h, j).flags == USER_TABLE
    {
      assert LowerTable(s, r, h, j);
    }
  }

  lemma DescentUser(s: State, r: nat, p: Path, l: Levels)
    requires Inv(s) && UserTables(s, r) && Level(s, r) == 4 && ValidPath(p) && |p| == 4
    requires Descends(s, r, p, USER_TABLE, l)
    ensures UserTables(l.s3, r)
  {
    hide Tree, UserTables, NextLevel, Full, Unnoticed;
    MapLevels(s, r, p, USER_TABLE, l);
    NextLevelUser(s, r, r, p[0]);
    NextLevelUser(l.s1, r, l.f1, p[1]);
    NextLevelUser(l.s2, r, l.f2, p[2]);
  }

  lemma MapPageUser(s: State, r: nat, p: Path, frame: nat, flags: Flags)
    requires Inv(s) && UserTables(s, r) && MayMap(s, r, p, frame, true) && flags.user
    requires MapPage(s, r, p, frame, flags, true).Some?
    ensures UserTables(MapPage(s, r, p, frame, flags, true).value, r)
  {
    hide Tree, UserTables, NextLevel, Full, SetLeaf;
    var l := Descent(s, r, p, USER_TABLE);
    MapLevels(s, r, p, USER_TABLE, l);
    DescentUser(s, r, p, l);
    SetLeafUser(l.s3, r, l.f3, p[3], Present(frame, flags), true);
  }

  /** Mapping user pages keeps the intermediate entries unrestricted. */
  lemma MapFreshUser(s: State, r: nat, p: Path, flags: Flags)
    requires Inv(s) && UserTables(s, r) && Level(s, r) == 4 && ValidPath(p) && |p| == 4 && flags.user
    requires MapFresh(s, r, p, flags).Some?
    ensures UserTables(MapFresh(s, r, p, flags).value, r)
  {
    hide UserTables, DownOk, UpOk, LeafOk, OwnedOk, Full, MapPage;
    AllocateOk(s);
    var (a, g) := Allocate(s).value;
    AllocateUser(s, r);
    MapPageUser(a, r, p, g, flags);
  }

  lemma AllocateUser(s: State, r: nat)
    requires Inv(s) && UserTables(s, r) && Level(s, r) == 4 && s.free != {}
    ensures UserTables(Allocate(s).value.0, r)
  {
    var (a, g) := Allocate(s).value;
    forall h: nat, j: nat | LowerTable(a, r, h, j) && EntryAt(a.mem, h, j).Present?
      ensures EntryAt(a.mem, h, j).flags == USER_TABLE
    {
      assert LowerTable(s, r, h, j);
    }
  }

  /** A table hangs under a PML4. */
  lemma {:induction false} RootOfTable(s: State, f: nat)
    requires Tree(s) && f < |s.role| && s.role[f].Table?
    ensures Level(s, s.role[f].root) == 4
    decreases 4 - s.role[f].level
  {
    assert UpOk(s, f);
    if s.role[f].level < 3 {
      RootOfTable(s, s.role[f].parent);
    } else {
      assert UpOk(s, s.role[f].parent);
    }
  }

  /** A new pagemap has no intermediate entries in its lower half. */
  lemma NewPagemapUser(s: State)
    requires Inv(s) && NewPagemap(s).Some?
    ensures UserTables(NewPagemap(s).value.0, NewPagemap(s).value.1)
  {
    NewPagemapCorrect(s);
    var (s', g) := NewPagemap(s).value;
    forall h: nat, j: nat ensures LowerTable(s', g, h, j) ==> EntryAt(s'.mem, h, j) == Zero {
      if h != g && h < |s.role| && s.role[h].Table? {
        RootOfTable(s, h);
      }
    }
  }

  // ---------------------------------------------------------------- rights over whole runs

  /** The flags of the tables on the way to a page let the rights of the page through. */
  lemma TableFlagsAdmit(f: Flags)
    ensures Admits(TableFlags(f), f) && Open(TableFlags(f))
  {
  }

  /** An intermediate entry restricts neither writing nor execution. */
  predicate Open(f: Flags) {
    f.writable && !f.noExecute
  }

  /** No intermediate entry of any pagemap does. */
  ghost predicate OpenTables(s: State) {
    forall f: nat, i: nat :: Level(s, f) >= 2 && EntryAt(s.mem, f, i).Present? ==> Open(EntryAt(s.mem, f, i).flags)
  }

  /** No intermediate entry is new. */
  ghost predicate NoNewEntries(s: State, s': State) {
    forall f: nat, i: nat :: Level(s', f) >= 2 && EntryAt(s'.mem, f, i).Present? ==>
      && f < |s.role| && f < |s'.role| && s'.role[f] == s.role[f]
      && EntryAt(s'.mem, f, i) == EntryAt(s.mem, f, i)
  }

  lemma NoNewTrans(s: State, s1: State, s2: State)
    requires NoNewEntries(s, s1) && NoNewEntries(s1, s2)
    ensures NoNewEntries(s, s2)
  {
  }

  lemma NoNewOpen(s: State, s': State)
    requires OpenTables(s) && NoNewEntries(s, s')
    ensures OpenTables(s')
  {
  }

  lemma NoNewUser(s: State, s': State, r: nat)
    requires UserTables(s, r) && NoNewEntries(s, s') && Level(s', r) == 4
    ensures UserTables(s', r)
  {
    forall h: nat, j: nat | LowerTable(s', r, h, j) && EntryAt(s'.mem, h, j).Present?
      ensures EntryAt(s'.mem, h, j).flags == USER_TABLE
    {
      assert LowerTable(s, r, h, j);
    }
  }

  lemma AllocateNoNew(s: State)
    requires Inv(s) && s.free != {}
    ensures NoNewEntries(s, Allocate(s).value.0)
  {
    hide DownOk, UpOk, LeafOk, OwnedOk, Full;
    AllocateOk(s);
  }

  lemma SetLeafNoNew(s: State, t: nat, i: nat, e: Entry, own: bool)
    requires Tree(s) && LeafWrite(s, t, i, e, own)
    ensures NoNewEntries(s, SetLeaf(s, t, i, e, own))
  {
    hide DownOk, UpOk, LeafOk, OwnedOk;
    SetLeafFrame(s, t, i, e, own);
  }

  lemma ReleaseNoNew(s: State, q: nat, i: nat, f: nat)
    requires Tree(s) && Releasable(s, q, i, f)
    ensures NoNewEntries(s, Release(s, q, i, f))
  {
    hide DownOk, UpOk, LeafOk, OwnedOk;
  }

  lemma {:induction false} PruneNoNew(s: State, r: nat, p: Path)
    requires Tree(s) && Level(s, r) == 4 && ValidPath(p) && |p| <= 3
    requires Walk(s.mem, r, p).Some? && FullExcept(s, Walk(s.mem, r, p).value)
    ensures NoNewEntries(s, Prune(s, r, p))
    decreases |p|
  {
    hide Tree, Release, SameView, StableSlots, NoNewEntries;
    if p == [] {
      PruneRoot(s, r);
      NoNewSelf(s);
    } else {
      PruneLevel(s, r, p);
      PruneTable(s, r, p);
      var f, q := Walk(s.mem, r, p).value, Walk(s.mem, r, Init(p)).value;
      if IsEmpty(s.mem[f]) && !(|p| == 1 && UPPER_HALF <= p[0]) {
        var s1 := Release(s, q, Last(p), f);
        ReleaseNoNew(s, q, Last(p), f);
        PruneNoNew(s1, r, Init(p));
        NoNewTrans(s, s1, Prune(s1, r, Init(p)));
      } else {
        NoNewSelf(s);
      }
    }
  }

  lemma NoNewSelf(s: State)
    ensures NoNewEntries(s, s)
  {
  }

  lemma UnmapNoNew(s: State, r: nat, p: Path)
    requires Inv(s) && Level(s, r) == 4 && ValidPath(p) && |p| == 4
    ensures NoNewEntries(s, UnmapPage(s, r, p))
  {
    hide DownOk, LeafOk, OwnedOk, NoNewEntries, SameView;
    NoNewSelf(s);
    if Resolve(s.mem, r, p).Present? {
      var t := Walk(s.mem, r, p[..3]).value;
      WalkRole(s, r, p[..3]);
      SetLeafTree(s, t, p[3], Zero, false);
      SetLeafFrame(s, t, p[3], Zero, false);
      SetLeafWalk(s, t, p[3], Zero, false, r, p[..3]);
      SetLeafNoNew(s, t, p[3], Zero, false);
      var s1 := SetLeaf(s, t, p[3], Zero, false);
      PruneNoNew(s1, r, p[..3]);
      NoNewTrans(s, s1, Prune(s1, r, p[..3]));
    }
  }

  lemma UnmapFreeNoNew(s: State, r: nat, p: Path)
    requires Inv(s) && Level(s, r) == 4 && ValidPath(p) && |p| == 4 && Owned(s, r, p)
    ensures UnmapFree(s, r, p).Some? && NoNewEntries(s, UnmapFree(s, r, p).value)
  {
    hide UnmapPage, DownOk, UpOk, LeafOk, OwnedOk, Full, OnePage, StableSlots, RolesPersist;
    UnmapFreeCorrect(s, r, p);
    UnmapNoNew(s, r, p);
    FreedNoNew(UnmapPage(s, r, p), Resolve(s.mem, r, p).frame);
    NoNewTrans(s, UnmapPage(s, r, p), UnmapFree(s, r, p).value);
  }

  lemma FreedNoNew(s: State, g: nat)
    ensures NoNewEntries(s, Freed(s, g))
  {
  }

  lemma NextLevelOpen(s: State, f: nat, i: nat, flags: Flags)
    requires Tree(s) && OpenTables(s) && Open(flags) && Level(s, f) >= 2 && NextLevel(s, f, i, flags).Some?
    ensures OpenTables(NextLevel(s, f, i, flags).value.0)
  {
    hide DownOk, UpOk, LeafOk, OwnedOk;
    var (s', g) := NextLevel(s, f, i, flags).value;
    forall h: nat, j: nat | Level(s', h) >= 2 && EntryAt(s'.mem, h, j).Present?
      ensures Open(EntryAt(s'.mem, h, j).flags)
    {
      if !EntryAt(s.mem, f, i).Present? {
        assert g in s.free && g != f;
        assert h != g && Level(s', h) == Level(s, h);
        assert EntryAt(s'.mem, h, j) == Present(g, flags) || EntryAt(s'.mem, h, j) == EntryAt(s.mem, h, j);
      }
    }
  }

  lemma MapPageOpen(s: State, r: nat, p: Path, frame: nat, flags: Flags, own: bool)
    requires Inv(s) && OpenTables(s) && MayMap(s, r, p, frame, own) && MapPage(s, r, p, frame, flags, own).Some?
    ensures OpenTables(MapPage(s, r, p, frame, flags, own).value)
  {
    hide Tree, OpenTables, NextLevel, Full, SetLeaf;
    var f := TableFlags(flags);
    var l := Descent(s, r, p, f);
    MapLevels(s, r, p, f, l);
    TableFlagsAdmit(flags);
    KeepsTree(s);
    NextLevelOpen(s, r, p[0], f);
    NextLevelOpen(l.s1, l.f1, p[1], f);
    NextLevelOpen(l.s2, l.f2, p[2], f);
    MayWriteLeaf(s, r, p, frame, flags, own, l);
    SetLeafNoNew(l.s3, l.f3, p[3], Present(frame, flags), own);
    NoNewOpen(l.s3, SetLeaf(l.s3, l.f3, p[3], Present(frame, flags), own));
  }

  lemma KeepsTree(s: State)
    requires Inv(s)
    ensures Tree(s)
  {
  }

  lemma MayWriteLeaf(s: State, r: nat, p: Path, frame: nat, flags: Flags, own: bool, l: Levels)
    requires Inv(s) && MayMap(s, r, p, frame, own) && Descends(s, r, p, TableFlags(flags), l)
    ensures LeafWrite(l.s3, l.f3, p[3], Present(frame, flags), own)
  {
    hide DownOk, LeafOk, OwnedOk, NextLevel, Full;
    MapLevels(s, r, p, TableFlags(flags), l);
    WalkRole(l.s3, r, p[..3]);
  }

  /** Every step keeps the intermediate entries open. */
  lemma StepOpen(s: State, op: Op)
    requires Inv(s) && OpenTables(s) && Legal(s, op) && Step(s, op).Some?
    ensures OpenTables(Step(s, op).value)
  {
    hide Inv, OpenTables, MapPage, UnmapPage, UnmapFree, NewPagemap, NoNewEntries, Owned;
    match op
    case Create => NewPagemapOpen(s);
    case MapNew(r, p, flags) => MapFreshOpen(s, r, p, flags);
    case MapFixed(r, p, frame, flags) => MapPageOpen(s, r, p, frame, flags, false);
    case Unmap(r, p) =>
      UnmapNoNew(s, r, p);
      NoNewOpen(s, UnmapPage(s, r, p));
    case UnmapAndFree(r, p) =>
      StepCorrect(s, op);
      UnmapFreeNoNew(s, r, p);
      NoNewOpen(s, UnmapFree(s, r, p).value);
  }

  lemma MapFreshOpen(s: State, r: nat, p: Path, flags: Flags)
    requires Inv(s) && OpenTables(s) && Level(s, r) == 4 && ValidPath(p) && |p| == 4
    requires MapFresh(s, r, p, flags).Some?
    ensures OpenTables(MapFresh(s, r, p, flags).value)
  {
    hide OpenTables, DownOk, UpOk, LeafOk, OwnedOk, Full, MapPage, NoNewEntries;
    AllocateOk(s);
    AllocateNoNew(s);
    var (a, g) := Allocate(s).value;
    NoNewOpen(s, a);
    MapPageOpen(a, r, p, g, flags, true);
  }

  lemma NewPagemapOpen(s: State)
    requires Inv(s) && OpenTables(s) && NewPagemap(s).Some?
    ensures OpenTables(NewPagemap(s).value.0)
  {
    hide NewPagemap, DownOk, UpOk, LeafOk, OwnedOk, Full;
    NewRootFrame(s);
    var (s', g) := NewPagemap(s).value;
    forall h: nat, j: nat | Level(s', h) >= 2 && EntryAt(s'.mem, h, j).Present?
      ensures Open(EntryAt(s'.mem, h, j).flags)
    {
      if h == g {
        assert EntryAt(s'.mem, g, j) == EntryAt(s.mem, s.kernel, j);
      } else {
        assert Level(s', h) == Level(s, h);
      }
    }
  }

  lemma {:induction false} RunOpen(s: State, ops: seq<Op>, s': State)
    requires Inv(s) && OpenTables(s) && Reaches(s, ops, s')
    ensures OpenTables(s')
    decreases |ops|
  {
    hide Inv, OpenTables, Step;
    if ops == [] {
      assert s' == s;
    } else {
      StepCorrect(s, ops[0]);
      StepOpen(s, ops[0]);
      RunOpen(Step(s, ops[0]).value, ops[1..], s');
    }
  }

  lemma OpenIntermediate(s: State, r: nat, p: Path)
    requires Inv(s) && OpenTables(s) && Level(s, r) == 4 && ValidPath(p) && |p| == 4 && Resolve(s.mem, r, p).Present?
    ensures Open(EntryFlags(s.mem, Some(r), p[0]))
    ensures Open(EntryFlags(s.mem, Walk(s.mem, r, p[..1]), p[1]))
    ensures Open(EntryFlags(s.mem, Walk(s.mem, r, p[..2]), p[2]))
  {
    hide DownOk, UpOk, LeafOk, OwnedOk, Full;
    assert Init(p[..1]) == [] && Init(p[..2]) == p[..1] && Init(p[..3]) == p[..2];
    WalkRole(s, r, p[..3]);
    WalkRole(s, r, p[..2]);
    WalkRole(s, r, p[..1]);
  }

  /** With open tables, writing and execution are allowed exactly as the page was mapped. */
  lemma OpenRights(s: State, r: nat, p: Path)
    requires Inv(s) && OpenTables(s) && Level(s, r) == 4 && ValidPath(p) && |p| == 4 && Resolve(s.mem, r, p).Present?
    ensures var e, f := Effective(s.mem, r, p), Resolve(s.mem, r, p).flags;
      e.writable == f.writable && e.noExecute == f.noExecute && (e.user ==> f.user)
  {
    hide Inv, OpenTables;
    OpenIntermediate(s, r, p);
  }

  /** On every run from boot, the processor lets every mapped page of every pagemap, in either half, be written and
      executed exactly as the page was mapped, and never lets user code at a page that was not mapped for it. */
  lemma RunRights(s: State, ops: seq<Op>, s': State, r: nat, p: Path)
    requires Boot(s) && Reaches(s, ops, s') && Level(s', r) == 4 && ValidPath(p) && |p| == 4
    requires Resolve(s'.mem, r, p).Present?
    ensures var e, f := Effective(s'.mem, r, p), Resolve(s'.mem, r, p).flags;
      e.writable == f.writable && e.noExecute == f.noExecute && (e.user ==> f.user)
  {
    hide Inv, OpenTables, Reaches, Effective, Resolve;
    BootInv(s);
    BootOpen(s);
    RunCorrect(s, ops, s');
    RunOpen(s, ops, s');
    OpenRights(s', r, p);
  }

  lemma BootOpen(s: State)
    requires Boot(s)
    ensures OpenTables(s)
  {
    assert forall f: nat :: Level(s, f) >= 1 <==> f == s.kernel;
  }

  // ---------------------------------------------------------------- user pages over whole runs

  /** The step maps no page into the lower half of `r` that is not for user code. */
  predicate MapsUser(op: Op, r: nat) {
    match op
    case MapNew(r', p, flags) => r' == r && p != [] && p[0] < UPPER_HALF ==> flags.user
    case MapFixed(r', p, _, flags) => r' == r && p != [] && p[0] < UPPER_HALF ==> flags.user
    case _ => true
  }

  lemma NextLevelOther(s: State, r: nat, f: nat, i: nat, flags: Flags)
    requires Tree(s) && UserTables(s, r) && Level(s, r) == 4 && Level(s, f) >= 2 && i < SLOTS
    requires NextLevel(s, f, i, flags).Some? && (LowerTable(s, r, f, i) ==> flags == USER_TABLE)
    ensures UserTables(NextLevel(s, f, i, flags).value.0, r)
  {
    hide DownOk, UpOk, LeafOk, OwnedOk;
    var (s', g) := NextLevel(s, f, i, flags).value;
    if !EntryAt(s.mem, f, i).Present? {
      forall h: nat, j: nat | LowerTable(s', r, h, j) && EntryAt(s'.mem, h, j).Present?
        ensures EntryAt(s'.mem, h, j).flags == USER_TABLE
      {
        assert h != g;
        assert LowerTable(s, r, h, j);
      }
    }
  }

  /** A table on the way to a page belongs to the lower half of `r` only if the page does. */
  lemma OnTheWay(s: State, r0: nat, p: Path, f: nat, i: nat, r: nat)
    requires Tree(s) && Level(s, r0) == 4 && Level(s, r) == 4 && ValidPath(p) && |p| <= 2
    requires Walk(s.mem, r0, p) == Some(f) && LowerTable(s, r, f, i)
    ensures r0 == r && (if p == [] then i else p[0]) < UPPER_HALF
  {
    hide DownOk, LeafOk, OwnedOk;
    WalkRole(s, r0, p);
    assert UpOk(s, r) && UpOk(s, r0) && UpOk(s, f);
    if p != [] {
      assert f != r && s.role[f].low;
      assert !SharedSlot(s, r0, p[0]);
    }
  }

  lemma MapPageOther(s: State, r0: nat, p: Path, frame: nat, flags: Flags, own: bool, r: nat)
    requires Inv(s) && UserTables(s, r) && Level(s, r) == 4 && MayMap(s, r0, p, frame, own)
    requires MapPage(s, r0, p, frame, flags, own).Some? && (r0 == r && p[0] < UPPER_HALF ==> flags.user)
    ensures UserTables(MapPage(s, r0, p, frame, flags, own).value, r)
  {
    hide Tree, UserTables, NextLevel, Full, SetLeaf, LowerTable, KeepsRoles, SameView, SameSharing;
    var f := TableFlags(flags);
    var l := Descent(s, r0, p, f);
    MapLevels(s, r0, p, f, l);
    KeepsTree(s);
    LevelsKeepRoot(s, r0, p, f, l, r);
    if LowerTable(s, r, r0, p[0]) { OnTheWay(s, r0, [], r0, p[0], r); }
    NextLevelOther(s, r, r0, p[0], f);
    if LowerTable(l.s1, r, l.f1, p[1]) { OnTheWay(l.s1, r0, p[..1], l.f1, p[1], r); }
    NextLevelOther(l.s1, r, l.f1, p[1], f);
    if LowerTable(l.s2, r, l.f2, p[2]) { OnTheWay(l.s2, r0, p[..2], l.f2, p[2], r); }
    NextLevelOther(l.s2, r, l.f2, p[2], f);
    MayWriteLeaf(s, r0, p, frame, flags, own, l);
    SetLeafUser(l.s3, r, l.f3, p[3], Present(frame, flags), own);
  }

  lemma LevelsKeepRoot(s: State, r0: nat, p: Path, flags: Flags, l: Levels, r: nat)
    requires Inv(s) && Level(s, r0) == 4 && ValidPath(p) && |p| == 4 && Descends(s, r0, p, flags, l) && Level(s, r) == 4
    ensures Level(l.s1, r) == 4 && Level(l.s2, r) == 4 && Level(l.s3, r) == 4
  {
    hide DownOk, LeafOk, OwnedOk, UpOk, Full, SameView, SameSharing;
    MapLevels(s, r0, p, flags, l);
    NextLevelKeepsRoot(s, r0, p[0], flags, r);
    NextLevelKeepsRoot(l.s1, l.f1, p[1], flags, r);
    NextLevelKeepsRoot(l.s2, l.f2, p[2], flags, r);
  }

  lemma NextLevelKeepsRoot(s: State, f: nat, i: nat, flags: Flags, r: nat)
    requires Tree(s) && Level(s, r) == 4 && NextLevel(s, f, i, flags).Some?
    ensures Level(NextLevel(s, f, i, flags).value.0, r) == 4
  {
    hide DownOk, UpOk, LeafOk, OwnedOk;
  }

  /** Such a step keeps the lower half of `r` unrestricted, whatever pagemap it works on. */
  lemma StepUser(s: State, op: Op, r: nat)
    requires Inv(s) && UserTables(s, r) && Level(s, r) == 4 && Legal(s, op) && Step(s, op).Some? && MapsUser(op, r)
    ensures UserTables(Step(s, op).value, r) && Level(Step(s, op).value, r) == 4
  {
    hide Inv, UserTables, MapPage, UnmapPage, UnmapFree, NewPagemap, NoNewEntries, Owned, FlatStep, Allocate;
    StepCorrect(s, op);
    match op
    case Create => NewPagemapOther(s, r);
    case MapNew(r0, p, flags) => MapFreshOther(s, r0, p, flags, r);
    case MapFixed(r0, p, frame, flags) => MapPageOther(s, r0, p, frame, flags, false, r);
    case Unmap(r0, p) =>
      UnmapNoNew(s, r0, p);
      NoNewUser(s, UnmapPage(s, r0, p), r);
    case UnmapAndFree(r0, p) =>
      UnmapFreeNoNew(s, r0, p);
      NoNewUser(s, UnmapFree(s, r0, p).value, r);
  }

  lemma MapFreshOther(s: State, r0: nat, p: Path, flags: Flags, r: nat)
    requires Inv(s) && UserTables(s, r) && Level(s, r) == 4 && Level(s, r0) == 4 && ValidPath(p) && |p| == 4
    requires MapFresh(s, r0, p, flags).Some? && (r0 == r && p[0] < UPPER_HALF ==> flags.user)
    ensures UserTables(MapFresh(s, r0, p, flags).value, r)
  {
    hide UserTables, DownOk, UpOk, LeafOk, OwnedOk, Full, MapPage;
    AllocateOk(s);
    AllocateUser(s, r);
    var (a, g) := Allocate(s).value;
    MapPageOther(a, r0, p, g, flags, true, r);
  }

  lemma NewPagemapOther(s: State, r: nat)
    requires Inv(s) && UserTables(s, r) && Level(s, r) == 4 && NewPagemap(s).Some?
    ensures UserTables(NewPagemap(s).value.0, r)
  {
    hide NewPagemap, DownOk, UpOk, LeafOk, OwnedOk, Full;
    NewRootFrame(s);
    var (s', g) := NewPagemap(s).value;
    forall h: nat, j: nat | LowerTable(s', r, h, j) && EntryAt(s'.mem, h, j).Present?
      ensures EntryAt(s'.mem, h, j).flags == USER_TABLE
    {
      assert h != g && LowerTable(s, r, h, j);
    }
  }

  lemma {:induction false} RunUser(s: State, ops: seq<Op>, s': State, r: nat)
    requires Inv(s) && UserTables(s, r) && Level(s, r) == 4 && Reaches(s, ops, s')
    requires forall i :: 0 <= i < |ops| ==> MapsUser(ops[i], r)
    ensures UserTables(s', r) && Level(s', r) == 4
    decreases |ops|
  {
    hide Inv, UserTables, Step, MapsUser;
    if ops == [] {
      assert s' == s;
    } else {
      StepCorrect(s, ops[0]);
      StepUser(s, ops[0], r);
      RunUser(Step(s, ops[0]).value, ops[1..], s', r);
    }
  }

  /** From its creation on, whatever other pagemaps do, the processor grants every lower-half page of a pagemap exactly
      the flags it was mapped with, as long as everything mapped there is for user code. */
  lemma ProcessRights(s: State, ops: seq<Op>, s': State, p: Path)
    requires Inv(s) && NewPagemap(s).Some? && Reaches(NewPagemap(s).value.0, ops, s')
    requires ValidPath(p) && |p| == 4 && p[0] < UPPER_HALF
    requires var r := NewPagemap(s).value.1;
      (forall i :: 0 <= i < |ops| ==> MapsUser(ops[i], r)) && Resolve(s'.mem, r, p).Present?
    ensures var r := NewPagemap(s).value.1; Effective(s'.mem, r, p) == Resolve(s'.mem, r, p).flags
  {
    hide Inv, UserTables, Reaches, NewPagemap, MapsUser, Effective, Resolve;
    var (s1, r) := NewPagemap(s).value;
    NewPagemapCorrect(s);
    NewPagemapUser(s);
    RunCorrect(s1, ops, s');
    RunUser(s1, ops, s', r);
    EffectiveIsLeaf(s', r, p);
  }
}
