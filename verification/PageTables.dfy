/** The 4-level page tables of kernel/system/vmm.c as operations on physical memory.

    Physical memory is a sequence of frames, each read by the walker as 512 entries. A role map
    says what each frame is used for; its clauses relate a table only to its parent and its
    children, and tree separation follows from them. */
module PageTables {
  import opened Wrappers
  import opened Sets

  const SLOTS: nat := 512
  const UPPER_HALF: nat := 256

  datatype Flags = Flags(writable: bool, user: bool, noExecute: bool)

  /** A page-table entry: all zero, not present but not zero, or present. */
  datatype Entry = Zero | Stale(bits: nat) | Present(frame: nat, flags: Flags)

  type Table = t: seq<Entry> | |t| == SLOTS witness seq(SLOTS, _ => Zero)

  function EmptyTable(): (t: Table)
    ensures forall i :: 0 <= i < SLOTS ==> t[i] == Zero
  {
    seq(SLOTS, _ => Zero)
  }

  /** What a frame is used for. `Table` records the level (3 is the PDPT), the PML4 it hangs under,
      whether it serves the lower half, and the parent entry; `Leaf` the entry that maps it. */
  datatype Role =
    | Free
    | Root
    | Table(level: int, root: nat, low: bool, parent: nat, index: nat)
    | Leaf(table: nat, slot: nat)
    | Other

  datatype State = State(mem: seq<Table>, free: set<nat>, role: seq<Role>, kernel: nat)

  type Path = seq<nat>

  predicate ValidPath(p: Path) {
    |p| <= 4 && forall j :: 0 <= j < |p| ==> p[j] < SLOTS
  }

  function EntryAt(mem: seq<Table>, f: nat, i: nat): Entry {
    if f < |mem| && i < SLOTS then mem[f][i] else Zero
  }

  function Put(mem: seq<Table>, f: nat, i: nat, e: Entry): (r: seq<Table>)
    ensures |r| == |mem|
  {
    if f < |mem| && i < SLOTS then mem[f := mem[f][i := e]] else mem
  }

  /** The loop of vmm_is_table_empty. */
  predicate IsEmpty(t: Table) {
    forall i :: 0 <= i < SLOTS ==> t[i] == Zero
  }

  function Init(p: Path): Path
    requires p != []
  {
    p[..|p| - 1]
  }

  function Last(p: Path): nat
    requires p != []
  {
    p[|p| - 1]
  }

  /** The frame reached from PML4 `r` by following the indices of `p` without allocating. */
  function Walk(mem: seq<Table>, r: nat, p: Path): Option<nat>
    decreases |p|
  {
    if p == [] then Some(r)
    else
      var f :- Walk(mem, r, Init(p));
      var e := EntryAt(mem, f, Last(p));
      if e.Present? then Some(e.frame) else None
  }

  /** The flat view of a pagemap: the leaf entry of a page, `Zero` when some level is missing. */
  function Resolve(mem: seq<Table>, r: nat, p: Path): Entry
    requires |p| == 4
  {
    match Walk(mem, r, p[..3])
    case None => Zero
    case Some(t) => if EntryAt(mem, t, p[3]).Present? then EntryAt(mem, t, p[3]) else Zero
  }

  // ---------------------------------------------------------------- the invariant

  ghost function Level(s: State, f: nat): int {
    if f >= |s.role| then 0
    else if s.role[f].Root? then 4
    else if s.role[f].Table? then s.role[f].level
    else 0
  }

  /** The role of the table that entry `i` of table `f` points to. */
  ghost function ChildRole(s: State, f: nat, i: nat): Role {
    if f < |s.role| && s.role[f].Table? then
      Table(s.role[f].level - 1, s.role[f].root, s.role[f].low, f, i)
    else
      Table(3, f, i < UPPER_HALF, f, i)
  }

  /** A PML4 slot of the higher half that was copied from the kernel pagemap. */
  ghost predicate SharedSlot(s: State, f: nat, i: nat) {
    Level(s, f) == 4 && UPPER_HALF <= i && EntryAt(s.mem, f, i) == EntryAt(s.mem, s.kernel, i)
  }

  ghost predicate PointsDown(s: State, f: nat, i: nat, g: nat) {
    && g < |s.role|
    && (s.role[g] == ChildRole(s, f, i) || (SharedSlot(s, f, i) && s.role[g] == ChildRole(s, s.kernel, i)))
  }

  ghost predicate DownOk(s: State, f: nat, i: nat) {
    var e := EntryAt(s.mem, f, i);
    e == Zero || (e.Present? && (Level(s, f) > 1 ==> PointsDown(s, f, i, e.frame)))
  }

  ghost predicate UpOk(s: State, g: nat)
    requires g < |s.role|
  {
    var t := s.role[g];
    t.Table? ==>
      && 1 <= t.level <= 3
      && t.index < SLOTS
      && Level(s, t.parent) == t.level + 1
      && ChildRole(s, t.parent, t.index) == t
      && EntryAt(s.mem, t.parent, t.index).Present?
      && EntryAt(s.mem, t.parent, t.index).frame == g
  }

  ghost predicate LeafOk(s: State, g: nat)
    requires g < |s.role|
  {
    var t := s.role[g];
    t.Leaf? ==>
      && t.slot < SLOTS
      && Level(s, t.table) == 1
      && EntryAt(s.mem, t.table, t.slot).Present?
      && EntryAt(s.mem, t.table, t.slot).frame == g
  }

  /** A page table of the lower half of a pagemap other than the kernel's. */
  ghost predicate UserTable(s: State, t: nat) {
    t < |s.role| && s.role[t].Table? && s.role[t].level == 1 && s.role[t].low && s.role[t].root != s.kernel
  }

  ghost predicate OwnedOk(s: State, t: nat, i: nat) {
    var e := EntryAt(s.mem, t, i);
    UserTable(s, t) && e.Present? ==> e.frame < |s.role| && s.role[e.frame] == Leaf(t, i)
  }

  ghost predicate Full(s: State, f: nat)
    requires f < |s.role| && |s.role| == |s.mem|
  {
    s.role[f].Table? && s.role[f].low ==> !IsEmpty(s.mem[f])
  }

  ghost predicate Shape(s: State) {
    && |s.role| == |s.mem|
    && Level(s, s.kernel) == 4
    && |s.role| > 0 && s.role[0].Other?
    && (forall f: nat :: f in s.free <==> f < |s.role| && s.role[f].Free?)
  }

  ghost predicate Tree(s: State) {
    && Shape(s)
    && (forall f: nat, i: nat :: Level(s, f) >= 1 && i < SLOTS ==> DownOk(s, f, i))
    && (forall g: nat :: g < |s.role| ==> UpOk(s, g))
    && (forall g: nat :: g < |s.role| ==> LeafOk(s, g))
    && (forall t: nat, i: nat :: i < SLOTS ==> OwnedOk(s, t, i))
  }

  /** Every lower-half table below the PML4, other than `x`, has an entry. */
  ghost predicate FullExcept(s: State, x: nat)
    requires |s.role| == |s.mem|
  {
    forall f: nat :: f < |s.role| && f != x ==> Full(s, f)
  }

  ghost predicate Inv(s: State) {
    Tree(s) && forall f: nat :: f < |s.role| ==> Full(s, f)
  }

  // ---------------------------------------------------------------- separation of walks

  /** A walk of `d` indices ends in a table of level 4 - d whose role records its last step. */
  lemma {:induction false} WalkRole(s: State, r: nat, p: Path)
    requires Tree(s) && Level(s, r) == 4 && ValidPath(p) && |p| <= 3
    requires Walk(s.mem, r, p).Some?
    ensures var f := Walk(s.mem, r, p).value;
            && f < |s.role|
            && Level(s, f) == 4 - |p|
            && (p != [] ==>
                  && s.role[f].Table?
                  && s.role[f].low == (p[0] < UPPER_HALF)
                  && s.role[f].index == Last(p)
                  && Walk(s.mem, r, Init(p)).Some?
                  && (s.role[f].parent == Walk(s.mem, r, Init(p)).value
                      || (|p| == 1 && SharedSlot(s, r, p[0]) && s.role[f].parent == s.kernel))
                  && (s.role[f].root == r
                      || (SharedSlot(s, r, p[0]) && s.role[f].root == s.kernel)))
    decreases |p|
  {
    if p == [] {
    } else {
      WalkRole(s, r, Init(p));
      var q := Walk(s.mem, r, Init(p)).value;
      assert DownOk(s, q, Last(p)) && UpOk(s, q) && UpOk(s, s.kernel);
      assert |p| > 1 ==> Init(p)[0] == p[0];
    }
  }

  /** Two PML4 slots that lead to the same table. */
  ghost predicate SameSlot(s: State, r: nat, r': nat, i: nat) {
    r == r' || (UPPER_HALF <= i && EntryAt(s.mem, r, i).Present? && EntryAt(s.mem, r, i) == EntryAt(s.mem, r', i))
  }

  /** Different walks end in different tables, unless they go through a shared kernel slot. */
  lemma {:induction false} WalkInjective(s: State, r: nat, p: Path, r': nat, p': Path)
    requires Tree(s) && Level(s, r) == 4 && Level(s, r') == 4
    requires ValidPath(p) && ValidPath(p') && |p| <= 3 && |p'| <= 3
    requires Walk(s.mem, r, p).Some? && Walk(s.mem, r, p) == Walk(s.mem, r', p')
    ensures p == p'
    ensures p == [] ==> r == r'
    ensures p != [] ==> SameSlot(s, r, r', p[0])
    decreases |p|
  {
    WalkRole(s, r, p);
    WalkRole(s, r', p');
    if p == [] {
    } else {
      assert p == Init(p) + [Last(p)] && p' == Init(p') + [Last(p')];
      if |p| > 1 {
        WalkInjective(s, r, Init(p), r', Init(p'));
        assert Init(p)[0] == p[0];
      } else {
        assert Init(p) == [] && Init(p') == [];
      }
    }
  }

  // ---------------------------------------------------------------- frames

  /** pmm_allocate: takes the lowest free frame and clears it; `None` is the out-of-memory panic. */
  ghost function Allocate(s: State): Option<(State, nat)> {
    if s.free == {} then None
    else
      var g := Least(s.free);
      Some((s.(mem := if g < |s.mem| then s.mem[g := EmptyTable()] else s.mem,
               free := s.free - {g},
               role := if g < |s.role| then s.role[g := Other] else s.role), g))
  }

  // ---------------------------------------------------------------- operations

  /** vmm_get_next_level with `allocate` set. */
  ghost function NextLevel(s: State, f: nat, i: nat, flags: Flags): Option<(State, nat)> {
    var e := EntryAt(s.mem, f, i);
    if e.Present? then Some((s, e.frame))
    else
      match Allocate(s)
      case None => None
      case Some((s1, g)) =>
        Some((s1.(mem := Put(s1.mem, f, i, Present(g, flags)),
                  role := if g < |s1.role| then s1.role[g := ChildRole(s, f, i)] else s1.role), g))
  }

  /** Writes leaf entry `i` of page table `t`; the frame it owned so far loses its role. */
  ghost function SetLeaf(s: State, t: nat, i: nat, e: Entry, own: bool): State {
    var old' := EntryAt(s.mem, t, i);
    var role1 := if old'.Present? && old'.frame < |s.role| && s.role[old'.frame] == Leaf(t, i)
                 then s.role[old'.frame := Other] else s.role;
    var role2 := if own && e.Present? && e.frame < |role1| then role1[e.frame := Leaf(t, i)] else role1;
    s.(mem := Put(s.mem, t, i, e), role := role2)
  }

  /** Intermediate entries are writable, and user when the page is. */
  function TableFlags(flags: Flags): Flags {
    Flags(true, flags.user, false)
  }

  /** The table reached by vmm_map_page before it writes the leaf entry. */
  ghost function DescentOf(s: State, r: nat, p: Path, flags: Flags): Option<(State, nat)>
    requires |p| == 4
  {
    var r1 :- NextLevel(s, r, p[0], flags);
    var r2 :- NextLevel(r1.0, r1.1, p[1], flags);
    NextLevel(r2.0, r2.1, p[2], flags)
  }

  /** vmm_map_page. */
  ghost function MapPage(s: State, r: nat, p: Path, frame: nat, flags: Flags, own: bool): Option<State>
    requires |p| == 4
  {
    var d :- DescentOf(s, r, p, TableFlags(flags));
    Some(SetLeaf(d.0, d.1, p[3], Present(frame, flags), own))
  }

  /** Clears the parent entry of an emptied table and frees its frame. */
  ghost function Release(s: State, parent: nat, i: nat, f: nat): State {
    s.(mem := Put(s.mem, parent, i, Zero),
       free := s.free + {f},
       role := if f < |s.role| then s.role[f := Free] else s.role)
  }

  /** The nested tests of vmm_unmap_page, from the table at `p` upwards: an emptied table is freed,
      except a PDPT of the higher half. */
  ghost function Prune(s: State, r: nat, p: Path): State
    decreases |p|
  {
    if p == [] then s
    else
      match (Walk(s.mem, r, p), Walk(s.mem, r, Init(p)))
      case (Some(f), Some(q)) =>
        if f < |s.mem| && IsEmpty(s.mem[f]) && !(|p| == 1 && UPPER_HALF <= p[0])
        then Prune(Release(s, q, Last(p), f), r, Init(p))
        else s
      case _ => s
  }

  /** vmm_unmap_page. */
  ghost function UnmapPage(s: State, r: nat, p: Path): State
    requires |p| == 4
  {
    match Walk(s.mem, r, p[..3])
    case None => s
    case Some(t) =>
      if EntryAt(s.mem, t, p[3]).Present? then Prune(SetLeaf(s, t, p[3], Zero, false), r, p[..3]) else s
  }

  /** The PML4 of a new pagemap: an empty lower half, and the kernel's higher half. */
  function NewRoot(kernel: Table): Table {
    EmptyTable()[..UPPER_HALF] + kernel[UPPER_HALF..]
  }

  /** vmm_new_pagemap. */
  ghost function NewPagemap(s: State): Option<(State, nat)> {
    var r :- Allocate(s);
    var g := r.1;
    if g < |r.0.mem| && g < |r.0.role| && s.kernel < |r.0.mem| then
      Some((r.0.(mem := r.0.mem[g := NewRoot(r.0.mem[s.kernel])], role := r.0.role[g := Root]), g))
    else None
  }

  /** A frame is allocated and mapped: heap expansion, anonymous mmap, the page-fault handler, the
      user stack and the ELF loader all do this page by page. */
  ghost function MapFresh(s: State, r: nat, p: Path, flags: Flags): Option<State>
    requires |p| == 4
  {
    var a :- Allocate(s);
    MapPage(a.0, r, p, a.1, flags, true)
  }

  /** pmm_free; `None` is one of its panics (null, out of bounds, already free). */
  ghost function FreeFrame(s: State, g: nat): Option<State> {
    if g == 0 || g >= |s.role| || g in s.free then None
    else Some(s.(free := s.free + {g}, role := s.role[g := Free]))
  }

  /** One round of the loop of syscall_unmap: the frame is freed first, then the page is unmapped.
      `None` is the failed assertion on an unmapped page, or a panic of pmm_free. */
  ghost function UnmapFree(s: State, r: nat, p: Path): Option<State>
    requires |p| == 4
  {
    var e := Resolve(s.mem, r, p);
    if !e.Present? then None
    else
      var s1 :- FreeFrame(s, e.frame);
      Some(UnmapPage(s1, r, p))
  }
}
