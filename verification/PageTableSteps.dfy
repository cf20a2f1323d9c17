/** What each elementary step on the page tables keeps: the invariant of the role map, and the flat
    view of every pagemap. */
module PageTableSteps {
  import opened Wrappers
  import opened PageTables

  /** Every page of every pagemap resolves as before. */
  ghost predicate SameView(s: State, s': State) {
    forall r: nat, p: Path :: Level(s, r) == 4 && ValidPath(p) && |p| == 4 ==>
                                Resolve(s'.mem, r, p) == Resolve(s.mem, r, p)
  }

  /** PML4s stay PML4s, and a present higher-half slot never changes. */
  ghost predicate StableSlots(s: State, s': State) {
    && s'.kernel == s.kernel
    && (forall r: nat :: Level(s, r) == 4 ==> Level(s', r) == 4)
    && (forall r: nat, i: nat :: Level(s, r) == 4 && UPPER_HALF <= i && EntryAt(s.mem, r, i).Present? ==>
                                   EntryAt(s'.mem, r, i) == EntryAt(s.mem, r, i))
  }

  /** Only free frames change their role, to become tables. */
  ghost predicate KeepsRoles(s: State, s': State) {
    && |s'.role| == |s.role|
    && (forall f: nat :: f < |s.role| ==>
          s'.role[f] == s.role[f] || (s.role[f].Free? && s'.role[f].Table?))
  }

  /** Entry `i` of PML4 `r` leads to the same pagemaps' tables as before. */
  ghost predicate SameSharing(s: State, s': State, r: nat, i: nat) {
    forall r': nat :: Level(s, r') == 4 ==> (SameSlot(s', r, r', i) <==> SameSlot(s, r, r', i))
  }

  // ---------------------------------------------------------------- changes outside the tables

  ghost predicate SameTables(s: State, mem': seq<Table>) {
    |mem'| == |s.mem| && forall f: nat :: Level(s, f) >= 1 && f < |s.mem| ==> mem'[f] == s.mem[f]
  }

  lemma {:induction false} SameTablesWalk(s: State, mem': seq<Table>, r: nat, p: Path)
    requires Tree(s) && SameTables(s, mem') && Level(s, r) == 4 && ValidPath(p) && |p| <= 3
    ensures Walk(mem', r, p) == Walk(s.mem, r, p)
    decreases |p|
  {
    if p == [] {
    } else {
      SameTablesWalk(s, mem', r, Init(p));
      if Walk(s.mem, r, Init(p)).Some? {
        WalkRole(s, r, Init(p));
      }
    }
  }

  lemma SameTablesView(s: State, s': State)
    requires Tree(s) && SameTables(s, s'.mem)
    ensures SameView(s, s')
  {
    forall r: nat, p: Path | Level(s, r) == 4 && ValidPath(p) && |p| == 4
      ensures Resolve(s'.mem, r, p) == Resolve(s.mem, r, p)
    {
      SameTablesWalk(s, s'.mem, r, p[..3]);
      if Walk(s.mem, r, p[..3]).Some? {
        WalkRole(s, r, p[..3]);
      }
    }
  }

  /** A frame leaves the free set and is cleared; no table and no page changes. */
  lemma AllocateOk(s: State)
    requires Tree(s) && s.free != {}
    ensures var (s', g) := Allocate(s).value;
            && Tree(s')
            && g < |s.role| && s.role[g].Free? && s'.role == s.role[g := Other]
            && s'.free == s.free - {g}
            && s'.mem == s.mem[g := EmptyTable()]
            && SameView(s, s') && StableSlots(s, s')
            && (Inv(s) ==> Inv(s'))
  {
    var (s', g) := Allocate(s).value;
    assert forall f: nat :: Level(s', f) == Level(s, f);
    assert SameTables(s, s'.mem);
    SameTablesView(s, s');
    forall f: nat, i: nat | Level(s', f) >= 1 && i < SLOTS ensures DownOk(s', f, i) {
      assert DownOk(s, f, i);
    }
    forall h: nat | h < |s'.role| ensures UpOk(s', h) && LeafOk(s', h) {
      assert UpOk(s, h) && LeafOk(s, h);
    }
    forall t: nat, i: nat | i < SLOTS ensures OwnedOk(s', t, i) {
      assert OwnedOk(s, t, i);
    }
    if Inv(s) {
      forall f: nat | f < |s'.role| ensures Full(s', f) {
        assert Full(s, f);
      }
    }
  }

  // ---------------------------------------------------------------- vmm_get_next_level

  /** Present entries stay, and a new one leads to the table that was returned. */
  lemma NextLevelEntry(s: State, f: nat, i: nat, flags: Flags, h: nat, j: nat)
    requires Tree(s) && Level(s, f) >= 2 && i < SLOTS && NextLevel(s, f, i, flags).Some? && Level(s, h) >= 1
    ensures var (s', g) := NextLevel(s, f, i, flags).value;
            var e, e' := EntryAt(s.mem, h, j), EntryAt(s'.mem, h, j);
            && (e.Present? ==> e' == e)
            && (!e.Present? && e'.Present? ==> e'.frame == g && g < |s'.mem| && s'.mem[g] == EmptyTable())
  {
    hide DownOk, LeafOk, OwnedOk, UpOk;
  }

  lemma {:induction false} NextLevelWalk(s: State, f: nat, i: nat, flags: Flags, r: nat, p: Path)
    requires Tree(s) && Level(s, f) >= 2 && i < SLOTS && NextLevel(s, f, i, flags).Some?
    requires Level(s, r) == 4 && ValidPath(p) && |p| <= 3
    ensures var (s', g) := NextLevel(s, f, i, flags).value;
            && (Walk(s.mem, r, p).Some? ==> Walk(s'.mem, r, p) == Walk(s.mem, r, p))
            && (Walk(s.mem, r, p).None? && Walk(s'.mem, r, p).Some? ==>
                  Walk(s'.mem, r, p).value == g && s'.mem[g] == EmptyTable())
    decreases |p|
  {
    hide Tree, NextLevel;
    if p == [] {
    } else {
      NextLevelWalk(s, f, i, flags, r, Init(p));
      if Walk(s.mem, r, Init(p)).Some? {
        WalkRole(s, r, Init(p));
        NextLevelEntry(s, f, i, flags, Walk(s.mem, r, Init(p)).value, Last(p));
      }
    }
  }

  lemma NextLevelOk(s: State, f: nat, i: nat, flags: Flags)
    requires Tree(s) && FullExcept(s, f) && Level(s, f) >= 2 && i < SLOTS
    requires NextLevel(s, f, i, flags).Some?
    ensures var (s', g) := NextLevel(s, f, i, flags).value;
            && Tree(s') && FullExcept(s', g)
            && Level(s', g) == Level(s, f) - 1
            && EntryAt(s'.mem, f, i).Present? && EntryAt(s'.mem, f, i).frame == g
            && SameView(s, s') && StableSlots(s, s') && KeepsRoles(s, s')
            && (forall j: nat, r: nat :: Level(s, r) == 4 && (Level(s, f) == 4 ==> r == f && i == j) ==>
                                           SameSharing(s, s', r, j))
  {
    var (s', g) := NextLevel(s, f, i, flags).value;
    if EntryAt(s.mem, f, i).Present? {
      assert DownOk(s, f, i);
      assert UpOk(s, g) && UpOk(s, f);
      assert Full(s, f);
    } else {
      AllocateOk(s);
      assert UpOk(s, f);
      assert forall h: nat :: h != g ==> Level(s', h) == Level(s, h);
      NextLevelTree(s, f, i, flags);
      NextLevelView(s, f, i, flags);
      NextLevelSharing(s, f, i, flags);
      forall h: nat | h < |s'.role| && h != g ensures Full(s', h) {
        assert h != f ==> Full(s, h);
        assert h == f ==> s'.mem[h][i] != Zero;
      }
    }
  }

  /** `s'` is `s` after the free frame `g` became the child of entry `i` of table `f`. */
  ghost predicate Adopts(s: State, s': State, f: nat, i: nat, g: nat) {
    && |s'.mem| == |s.mem| && |s'.role| == |s.role| && s'.kernel == s.kernel
    && g < |s.role| && s.role[g].Free?
    && Level(s, f) >= 2 && i < SLOTS && EntryAt(s.mem, f, i) == Zero
    && s'.role == s.role[g := ChildRole(s, f, i)]
    && EntryAt(s'.mem, f, i).Present? && EntryAt(s'.mem, f, i).frame == g
    && (forall j: nat :: EntryAt(s'.mem, g, j) == Zero)
    && (forall h: nat, j: nat :: h != g && !(h == f && j == i) ==> EntryAt(s'.mem, h, j) == EntryAt(s.mem, h, j))
  }

  lemma AdoptDown(s: State, s': State, f: nat, i: nat, g: nat, h: nat, j: nat)
    requires Tree(s) && Adopts(s, s', f, i, g)
    requires Level(s', h) >= 1 && j < SLOTS
    ensures DownOk(s', h, j)
  {
    assert UpOk(s, s.kernel);
    if h != g {
      assert DownOk(s, h, j);
      assert ChildRole(s', h, j) == ChildRole(s, h, j);
      assert ChildRole(s', s'.kernel, j) == ChildRole(s, s.kernel, j);
      if EntryAt(s.mem, h, j).Present? && Level(s, h) > 1 {
        assert PointsDown(s, h, j, EntryAt(s.mem, h, j).frame);
        assert SharedSlot(s, h, j) ==> SharedSlot(s', h, j);
      }
    }
  }

  lemma AdoptUp(s: State, s': State, f: nat, i: nat, g: nat, h: nat)
    requires Tree(s) && Adopts(s, s', f, i, g)
    requires h < |s'.role|
    ensures UpOk(s', h) && LeafOk(s', h)
  {
    assert UpOk(s, h) && LeafOk(s, h) && UpOk(s, f);
  }

  lemma NextLevelTree(s: State, f: nat, i: nat, flags: Flags)
    requires Tree(s) && Level(s, f) >= 2 && i < SLOTS
    requires !EntryAt(s.mem, f, i).Present? && s.free != {}
    ensures var (s', g) := NextLevel(s, f, i, flags).value; Tree(s')
  {
    var (s', g) := NextLevel(s, f, i, flags).value;
    assert UpOk(s, f) && DownOk(s, f, i);
    assert Adopts(s, s', f, i, g);
    forall h: nat, j: nat | Level(s', h) >= 1 && j < SLOTS ensures DownOk(s', h, j) {
      AdoptDown(s, s', f, i, g, h, j);
    }
    forall h: nat | h < |s'.role| ensures UpOk(s', h) && LeafOk(s', h) {
      AdoptUp(s, s', f, i, g, h);
    }
    forall t: nat, j: nat | j < SLOTS ensures OwnedOk(s', t, j) {
      assert OwnedOk(s, t, j);
    }
  }

  lemma NextLevelSharing(s: State, f: nat, i: nat, flags: Flags)
    requires Tree(s) && Level(s, f) >= 2 && i < SLOTS
    requires !EntryAt(s.mem, f, i).Present? && s.free != {}
    ensures forall j: nat, r: nat :: Level(s, r) == 4 && (Level(s, f) == 4 ==> r == f && i == j) ==>
              SameSharing(s, NextLevel(s, f, i, flags).value.0, r, j)
  {
    var (s', g) := NextLevel(s, f, i, flags).value;
    forall j: nat, r: nat, r': nat | Level(s, r) == 4 && Level(s, r') == 4 && (Level(s, f) == 4 ==> r == f && i == j)
      ensures SameSlot(s', r, r', j) <==> SameSlot(s, r, r', j)
    {
      if j < SLOTS && r' != r {
        assert DownOk(s, r', j) && EntryAt(s'.mem, r', j) == EntryAt(s.mem, r', j);
      }
    }
  }

  lemma NextLevelView(s: State, f: nat, i: nat, flags: Flags)
    requires Tree(s) && Level(s, f) >= 2 && i < SLOTS && NextLevel(s, f, i, flags).Some?
    ensures var (s', g) := NextLevel(s, f, i, flags).value; SameView(s, s')
  {
    var (s', g) := NextLevel(s, f, i, flags).value;
    forall r: nat, p: Path | Level(s, r) == 4 && ValidPath(p) && |p| == 4
      ensures Resolve(s'.mem, r, p) == Resolve(s.mem, r, p)
    {
      NextLevelWalk(s, f, i, flags, r, p[..3]);
      if Walk(s.mem, r, p[..3]).Some? {
        WalkRole(s, r, p[..3]);
      }
    }
  }

  // ---------------------------------------------------------------- leaf entries

  /** A leaf write may hand over a frame nobody uses, or, outside user tables, name any frame. */
  ghost predicate LeafWrite(s: State, t: nat, i: nat, e: Entry, own: bool) {
    && Level(s, t) == 1 && i < SLOTS && !e.Stale?
    && (own ==> e.Present? && 0 < e.frame < |s.role| && s.role[e.frame].Other?)
    && (e.Present? && !own ==> !UserTable(s, t))
  }

  lemma SetLeafFrame(s: State, t: nat, i: nat, e: Entry, own: bool)
    requires Tree(s) && LeafWrite(s, t, i, e, own)
    ensures var s' := SetLeaf(s, t, i, e, own);
            && |s'.role| == |s.role| == |s'.mem| && s'.kernel == s.kernel && s'.free == s.free
            && (forall h: nat :: Level(s', h) == Level(s, h))
            && (forall h: nat :: h < |s.role| && s'.role[h] != s.role[h] ==>
                                   (s.role[h].Leaf? || s.role[h].Other?) && (s'.role[h].Leaf? || s'.role[h].Other?))
            && (forall h: nat, j: nat :: !(h == t && j == i) ==> EntryAt(s'.mem, h, j) == EntryAt(s.mem, h, j))
            && EntryAt(s'.mem, t, i) == e
  {
  }

  lemma SetLeafDown(s: State, t: nat, i: nat, e: Entry, own: bool, h: nat, j: nat)
    requires Tree(s) && LeafWrite(s, t, i, e, own)
    requires Level(s, h) >= 1 && j < SLOTS
    ensures DownOk(SetLeaf(s, t, i, e, own), h, j)
  {
    var s' := SetLeaf(s, t, i, e, own);
    SetLeafFrame(s, t, i, e, own);
    assert DownOk(s, h, j) && UpOk(s, t) && UpOk(s, h) && UpOk(s, s.kernel);
    if EntryAt(s'.mem, h, j).Present? && Level(s, h) > 1 {
      assert PointsDown(s, h, j, EntryAt(s.mem, h, j).frame);
      assert ChildRole(s', h, j) == ChildRole(s, h, j);
      assert ChildRole(s', s'.kernel, j) == ChildRole(s, s.kernel, j);
      assert SharedSlot(s, h, j) ==> SharedSlot(s', h, j);
    }
  }

  lemma SetLeafUp(s: State, t: nat, i: nat, e: Entry, own: bool, h: nat)
    requires Tree(s) && LeafWrite(s, t, i, e, own)
    requires h < |s.role|
    ensures UpOk(SetLeaf(s, t, i, e, own), h) && LeafOk(SetLeaf(s, t, i, e, own), h)
  {
    SetLeafFrame(s, t, i, e, own);
    assert UpOk(s, h) && LeafOk(s, h) && UpOk(s, t);
    var s' := SetLeaf(s, t, i, e, own);
    if s.role[h].Table? {
      assert ChildRole(s', s.role[h].parent, s.role[h].index) == ChildRole(s, s.role[h].parent, s.role[h].index);
    }
  }

  lemma SetLeafTree(s: State, t: nat, i: nat, e: Entry, own: bool)
    requires Tree(s) && LeafWrite(s, t, i, e, own)
    ensures var s' := SetLeaf(s, t, i, e, own);
            && Tree(s') && StableSlots(s, s')
            && (forall h: nat :: Level(s', h) == Level(s, h))
            && (FullExcept(s, t) ==> FullExcept(s', t))
            && (FullExcept(s, t) && e.Present? ==> Inv(s'))
  {
    var s' := SetLeaf(s, t, i, e, own);
    SetLeafFrame(s, t, i, e, own);
    forall h: nat, j: nat | Level(s', h) >= 1 && j < SLOTS ensures DownOk(s', h, j) {
      SetLeafDown(s, t, i, e, own, h, j);
    }
    forall h: nat | h < |s'.role| ensures UpOk(s', h) && LeafOk(s', h) {
      SetLeafUp(s, t, i, e, own, h);
    }
    forall h: nat, j: nat | j < SLOTS ensures OwnedOk(s', h, j) {
      assert OwnedOk(s, h, j) && OwnedOk(s, t, i);
    }
    if FullExcept(s, t) {
      forall h: nat | h < |s'.role| && h != t ensures Full(s', h) {
        assert Full(s, h);
      }
      assert e.Present? ==> s'.mem[t][i] != Zero;
    }
  }

  lemma {:induction false} SetLeafWalk(s: State, t: nat, i: nat, e: Entry, own: bool, r: nat, p: Path)
    requires Tree(s) && Level(s, t) == 1 && Level(s, r) == 4 && ValidPath(p) && |p| <= 3
    ensures Walk(SetLeaf(s, t, i, e, own).mem, r, p) == Walk(s.mem, r, p)
    decreases |p|
  {
    if p == [] {
    } else {
      SetLeafWalk(s, t, i, e, own, r, Init(p));
      if Walk(s.mem, r, Init(p)).Some? {
        WalkRole(s, r, Init(p));
      }
    }
  }

  /** Writing the entry of page `p` changes that page and nothing else, in every pagemap. */
  lemma SetLeafView(s: State, t: nat, i: nat, e: Entry, own: bool, r: nat, p: Path)
    requires Tree(s) && LeafWrite(s, t, i, e, own)
    requires Level(s, r) == 4 && ValidPath(p) && |p| == 4
    requires Walk(s.mem, r, p[..3]) == Some(t) && p[3] == i
    ensures OnePage(s, SetLeaf(s, t, i, e, own), r, p, e)
  {
    var s' := SetLeaf(s, t, i, e, own);
    forall r': nat, p': Path | Level(s, r') == 4 && ValidPath(p') && |p'| == 4
      ensures Resolve(s'.mem, r', p') == if p' == p && SameSlot(s, r, r', p[0]) then e else Resolve(s.mem, r', p')
    {
      SetLeafPage(s, t, i, e, own, r, p, r', p');
    }
  }

  lemma SetLeafPage(s: State, t: nat, i: nat, e: Entry, own: bool, r: nat, p: Path, r': nat, p': Path)
    requires Tree(s) && LeafWrite(s, t, i, e, own)
    requires Level(s, r) == 4 && ValidPath(p) && |p| == 4 && Level(s, r') == 4 && ValidPath(p') && |p'| == 4
    requires Walk(s.mem, r, p[..3]) == Some(t) && p[3] == i
    ensures var s' := SetLeaf(s, t, i, e, own);
            Resolve(s'.mem, r', p') == if p' == p && SameSlot(s, r, r', p[0]) then e else Resolve(s.mem, r', p')
  {
    hide DownOk, LeafOk, OwnedOk;
    var s' := SetLeaf(s, t, i, e, own);
    SetLeafWalk(s, t, i, e, own, r', p'[..3]);
    WalkRole(s, r, p[..3]);
    assert UpOk(s, r) && UpOk(s, r');
    if Walk(s.mem, r', p'[..3]) == Some(t) {
      WalkInjective(s, r, p[..3], r', p'[..3]);
      assert p == p[..3] + [p[3]] && p' == p'[..3] + [p'[3]];
    } else if p' == p && SameSlot(s, r, r', p[0]) {
      SameSlotWalk(s.mem, r, r', p[..3]);
      assert false;
    }
  }

  /** Every page resolves as before, except that page `p` of `r`, and of every pagemap that shares
      its PML4 slot, now resolves to `e`. */
  ghost predicate OnePage(s: State, s': State, r: nat, p: Path, e: Entry)
    requires |p| == 4
  {
    forall r': nat, p': Path :: Level(s, r') == 4 && ValidPath(p') && |p'| == 4 ==>
      Resolve(s'.mem, r', p') == if p' == p && SameSlot(s, r, r', p[0]) then e else Resolve(s.mem, r', p')
  }

  lemma {:induction false} SameSlotWalk(mem: seq<Table>, r: nat, r': nat, p: Path)
    requires p != []
    requires EntryAt(mem, r, p[0]) == EntryAt(mem, r', p[0])
    ensures Walk(mem, r, p) == Walk(mem, r', p)
    decreases |p|
  {
    if |p| > 1 {
      assert Init(p)[0] == p[0];
      SameSlotWalk(mem, r, r', Init(p));
    } else {
      assert Init(p) == [];
    }
  }

  // ---------------------------------------------------------------- freeing emptied tables

  /** `f` is an empty table below entry `i` of `q`, and not a higher-half PDPT. */
  ghost predicate Releasable(s: State, q: nat, i: nat, f: nat) {
    && f < |s.role| && f < |s.mem| && s.role[f].Table? && s.role[f].parent == q && s.role[f].index == i
    && IsEmpty(s.mem[f])
    && !(Level(s, q) == 4 && UPPER_HALF <= i)
  }

  lemma ReleaseDown(s: State, q: nat, i: nat, f: nat, h: nat, j: nat)
    requires Tree(s) && Releasable(s, q, i, f)
    requires Level(Release(s, q, i, f), h) >= 1 && j < SLOTS
    ensures DownOk(Release(s, q, i, f), h, j)
  {
    var s' := Release(s, q, i, f);
    assert UpOk(s, f) && UpOk(s, q) && UpOk(s, s.kernel) && UpOk(s, h);
    assert DownOk(s, h, j);
    assert ChildRole(s', h, j) == ChildRole(s, h, j) && ChildRole(s', s'.kernel, j) == ChildRole(s, s.kernel, j);
    if EntryAt(s'.mem, h, j).Present? && Level(s, h) > 1 {
      assert PointsDown(s, h, j, EntryAt(s.mem, h, j).frame);
      assert SharedSlot(s, h, j) ==> SharedSlot(s', h, j);
    }
  }

  lemma ReleaseOk(s: State, q: nat, i: nat, f: nat)
    requires Tree(s) && Releasable(s, q, i, f)
    ensures var s' := Release(s, q, i, f);
            && Tree(s') && StableSlots(s, s') && SameView(s, s')
            && (FullExcept(s, f) ==> FullExcept(s', q))
  {
    var s' := Release(s, q, i, f);
    assert UpOk(s, f) && UpOk(s, q) && UpOk(s, s.kernel);
    assert forall h: nat :: h != f ==> Level(s', h) == Level(s, h);
    forall h: nat, j: nat | Level(s', h) >= 1 && j < SLOTS ensures DownOk(s', h, j) {
      ReleaseDown(s, q, i, f, h, j);
    }
    forall h: nat | h < |s'.role| ensures UpOk(s', h) && LeafOk(s', h) {
      assert UpOk(s, h) && LeafOk(s, h);
    }
    forall h: nat, j: nat | j < SLOTS ensures OwnedOk(s', h, j) {
      assert OwnedOk(s, h, j);
    }
    if FullExcept(s, f) {
      forall h: nat | h < |s'.role| && h != q ensures Full(s', h) {
        assert h != f ==> Full(s, h);
      }
    }
    ReleaseView(s, q, i, f);
  }

  lemma {:induction false} ReleaseWalk(s: State, q: nat, i: nat, f: nat, r: nat, p: Path)
    requires Tree(s) && Releasable(s, q, i, f)
    requires Level(s, r) == 4 && ValidPath(p) && |p| <= 3
    ensures var mem' := Release(s, q, i, f).mem;
            && (Walk(s.mem, r, p) != Some(f) ==> Walk(mem', r, p) == Walk(s.mem, r, p))
            && (Walk(s.mem, r, p) == Some(f) ==> Walk(mem', r, p).None? || Walk(mem', r, p) == Some(f))
    decreases |p|
  {
    hide DownOk, LeafOk, OwnedOk;
    if p == [] {
    } else {
      ReleaseWalk(s, q, i, f, r, Init(p));
      assert UpOk(s, f);
      if Walk(s.mem, r, Init(p)).Some? {
        WalkRole(s, r, Init(p));
      }
    }
  }

  lemma ReleaseView(s: State, q: nat, i: nat, f: nat)
    requires Tree(s) && Releasable(s, q, i, f)
    ensures SameView(s, Release(s, q, i, f))
  {
    var s' := Release(s, q, i, f);
    assert UpOk(s, f);
    forall r: nat, p: Path | Level(s, r) == 4 && ValidPath(p) && |p| == 4
      ensures Resolve(s'.mem, r, p) == Resolve(s.mem, r, p)
    {
      ReleaseWalk(s, q, i, f, r, p[..3]);
      if Walk(s.mem, r, p[..3]).Some? {
        WalkRole(s, r, p[..3]);
      }
    }
  }
}
