/** Copying and clearing through the page tables: vmm_map_copy and vmm_map_zero of
    kernel/system/vmm.c. */
module UserMemory {
  import opened Arithmetic
  import opened Wrappers
  import opened PageTables
  import opened PageTableSteps
  import opened PageTableRuns
  import opened Ram
  import opened Vmm
  import Pmm

  /** The addresses that the walk tells apart. */
  const SPACE: nat := 0x1_0000_0000_0000

  ghost function PageEntry(s: State, r: nat, a: nat): Entry {
    Resolve(s.mem, r, PathOf(a))
  }

  ghost predicate Mapped(s: State, r: nat, a: nat) {
    PageEntry(s, r, a).Present?
  }

  /** The byte that pagemap `r` shows at address `a`. */
  ghost function ByteAt(ram: seq<Page>, s: State, r: nat, a: nat): Option<Byte> {
    var e := PageEntry(s, r, a);
    if e.Present? && e.frame < |ram| then Some(ram[e.frame][a % PAGE]) else None
  }

  /** Some address of the range is translated to byte `o` of frame `f`. */
  ghost predicate Hits(s: State, r: nat, virt: nat, n: nat, f: nat, o: nat) {
    exists a: nat :: virt <= a < virt + n && Mapped(s, r, a) && PageEntry(s, r, a).frame == f && a % PAGE == o
  }

  /** The range shows `src`, and no other byte of memory has changed. */
  ghost predicate Written(ram: seq<Page>, ram': seq<Page>, s: State, r: nat, virt: nat, src: seq<Byte>) {
    && |ram'| == |ram|
    && (forall a: nat :: virt <= a < virt + |src| ==> ByteAt(ram', s, r, a) == Some(src[a - virt]))
    && (forall f: nat, o: nat :: f < |ram| && o < PAGE && !Hits(s, r, virt, |src|, f, o) ==> ram'[f][o] == ram[f][o])
  }

  // ---------------------------------------------------------------- addresses and frames

  lemma SamePage(a: nat, b: nat)
    requires a / PAGE == b / PAGE
    ensures PathOf(a) == PathOf(b)
  {
    PathInjective(a, b);
  }

  lemma DistinctPages(a: nat, b: nat)
    requires a <= b && b / PAGE - a / PAGE < PAGES && PathOf(a) == PathOf(b)
    ensures a / PAGE == b / PAGE
  {
    hide PathOf;
    PathInjective(a, b);
    SameResidue(a / PAGE, b / PAGE);
  }

  lemma SameResidue(x: nat, y: nat)
    requires x <= y < x + PAGES && x % PAGES == y % PAGES
    ensures x == y
  {
  }

  /** Two addresses that are translated to the same frame are on the same page. */
  lemma SameFrame(s: State, r: nat, a: nat, b: nat)
    requires Inv(s) && Level(s, r) == 4 && a <= b && b / PAGE - a / PAGE < PAGES
    requires Owned(s, r, PathOf(a)) && Owned(s, r, PathOf(b))
    requires PageEntry(s, r, a).frame == PageEntry(s, r, b).frame
    ensures a / PAGE == b / PAGE
  {
    RolesExclude(s, r, PathOf(a), r, PathOf(b));
    DistinctPages(a, b);
  }

  /** Every mapped address of the range has its frame for itself. */
  ghost predicate OwnedRange(s: State, r: nat, virt: nat, n: nat) {
    forall a: nat :: virt <= a < virt + n && Mapped(s, r, a) ==> Owned(s, r, PathOf(a))
  }

  // ---------------------------------------------------------------- writing data

  /** `s'` is `s` up to the contents of data frames. */
  ghost predicate DataOnly(s: State, s': State) {
    s' == s.(mem := s'.mem) && SameTables(s, s'.mem)
  }

  lemma DataOnlyKeeps(s: State, s': State)
    requires Inv(s) && DataOnly(s, s')
    ensures Inv(s') && SameView(s, s')
    ensures forall r: nat, p: Path :: Level(s, r) == 4 && ValidPath(p) && |p| == 4 && Owned(s, r, p) ==> Owned(s', r, p)
  {
    SameTablesView(s, s');
    assert forall f: nat, i: nat :: Level(s, f) >= 1 ==> EntryAt(s'.mem, f, i) == EntryAt(s.mem, f, i);
    forall f: nat, i: nat | Level(s', f) >= 1 && i < SLOTS ensures DownOk(s', f, i) {
      assert DownOk(s, f, i);
    }
    forall h: nat | h < |s'.role| ensures UpOk(s', h) && LeafOk(s', h) && Full(s', h) {
      assert UpOk(s, h) && LeafOk(s, h) && Full(s, h);
    }
    forall t: nat, i: nat | i < SLOTS ensures OwnedOk(s', t, i) {
      assert OwnedOk(s, t, i);
    }
    forall r: nat, p: Path | Level(s, r) == 4 && ValidPath(p) && |p| == 4 && Owned(s, r, p) ensures Owned(s', r, p) {
      SameTablesWalk(s, s'.mem, r, p[..3]);
    }
  }

  /** memcpy into one page. */
  function Splice(p: Page, o: nat, bytes: seq<Byte>): Page
    requires o + |bytes| <= PAGE
  {
    p[..o] + bytes + p[o + |bytes|..]
  }

  /** How much of the rest fits into the page of address `a`. */
  function Chunk(a: nat, rest: nat): (n: nat)
    ensures n <= rest && a % PAGE + n <= PAGE && (rest > 0 ==> n > 0)
  {
    if PAGE - a % PAGE > rest then rest else PAGE - a % PAGE
  }

  lemma ChunkAddress(a: nat, b: nat, n: nat)
    requires a <= b < a + n && a % PAGE + n <= PAGE
    ensures b / PAGE == a / PAGE && b % PAGE == a % PAGE + (b - a)
  {
  }

  /** The state of the copy loop: `src[..k]` has been written, and `n` more bytes fit into the page of
      the next address. */
  ghost predicate CopyStep(ram: seq<Page>, ram1: seq<Page>, s: State, r: nat, virt: nat, src: seq<Byte>, k: nat, n: nat)
  {
    && Inv(s) && Level(s, r) == 4 && OwnedRange(s, r, virt, |src|) && virt % PAGE + |src| <= SPACE
    && |ram| == |s.mem| == |s.role| && k + n <= |src| && n > 0 && (virt + k) % PAGE + n <= PAGE
    && Written(ram, ram1, s, r, virt, src[..k])
    && Mapped(s, r, virt + k)
  }

  /** Memory after one memcpy of the loop. */
  ghost function AfterChunk(ram1: seq<Page>, s: State, r: nat, a: nat, bytes: seq<Byte>): seq<Page>
    requires a % PAGE + |bytes| <= PAGE
  {
    var f := PageEntry(s, r, a);
    if f.Present? && f.frame < |ram1| then ram1[f.frame := Splice(ram1[f.frame], a % PAGE, bytes)] else ram1
  }

  lemma ChunkShown(ram: seq<Page>, ram1: seq<Page>, s: State, r: nat, virt: nat, src: seq<Byte>, k: nat, n: nat, b: nat)
    requires CopyStep(ram, ram1, s, r, virt, src, k, n) && virt <= b < virt + k + n
    ensures ByteAt(AfterChunk(ram1, s, r, virt + k, src[k..k + n]), s, r, b) == Some(src[b - virt])
  {
    hide PathOf, Resolve, Inv;
    var a := virt + k;
    var f := PageEntry(s, r, a).frame;
    assert Owned(s, r, PathOf(a)) && f < |ram1|;
    if b < a {
      assert ByteAt(ram1, s, r, b) == Some(src[..k][b - virt]);
      if PageEntry(s, r, b).frame == f {
        SameFrame(s, r, b, a);
      }
    } else {
      ChunkAddress(a, b, n);
      SamePage(a, b);
    }
  }

  lemma ChunkFrames(ram: seq<Page>, ram1: seq<Page>, s: State, r: nat, virt: nat, src: seq<Byte>, k: nat, n: nat,
                    g: nat, o: nat)
    requires CopyStep(ram, ram1, s, r, virt, src, k, n) && g < |ram| && o < PAGE
    requires !Hits(s, r, virt, k + n, g, o)
    ensures AfterChunk(ram1, s, r, virt + k, src[k..k + n])[g][o] == ram[g][o]
  {
    hide PathOf, Resolve, Inv, Owned;
    var a := virt + k;
    HitsShorter(s, r, virt, k, k + n, g, o);
    if g == PageEntry(s, r, a).frame && a % PAGE <= o < a % PAGE + n {
      HitsChunk(s, r, virt, k, n, o);
      assert false;
    }
  }

  /** One round of the copy loop extends what has been written. */
  lemma WrittenExtends(ram: seq<Page>, ram1: seq<Page>, s: State, r: nat, virt: nat, src: seq<Byte>, k: nat, n: nat)
    requires CopyStep(ram, ram1, s, r, virt, src, k, n)
    ensures Written(ram, AfterChunk(ram1, s, r, virt + k, src[k..k + n]), s, r, virt, src[..k + n])
  {
    hide PathOf, Resolve, Inv, Owned, Hits, ByteAt;
    var ram2 := AfterChunk(ram1, s, r, virt + k, src[k..k + n]);
    forall b: nat | virt <= b < virt + (k + n) ensures ByteAt(ram2, s, r, b) == Some(src[..k + n][b - virt]) {
      ChunkShown(ram, ram1, s, r, virt, src, k, n, b);
    }
    forall g: nat, o: nat | g < |ram| && o < PAGE && !Hits(s, r, virt, k + n, g, o) ensures ram2[g][o] == ram[g][o] {
      ChunkFrames(ram, ram1, s, r, virt, src, k, n, g, o);
    }
  }

  lemma HitsChunk(s: State, r: nat, virt: nat, k: nat, n: nat, o: nat)
    requires Mapped(s, r, virt + k) && (virt + k) % PAGE + n <= PAGE
    requires (virt + k) % PAGE <= o < (virt + k) % PAGE + n
    ensures Hits(s, r, virt, k + n, PageEntry(s, r, virt + k).frame, o)
  {
    hide PathOf, Resolve;
    var a := virt + k;
    var b := a + (o - a % PAGE);
    ChunkAddress(a, b, n);
    SamePage(a, b);
    assert Mapped(s, r, b);
  }

  lemma HitsShorter(s: State, r: nat, virt: nat, n: nat, m: nat, f: nat, o: nat)
    requires n <= m
    ensures Hits(s, r, virt, n, f, o) ==> Hits(s, r, virt, m, f, o)
  {
  }

  // ---------------------------------------------------------------- the loops

  /** The memcpy of vmm_map_copy and the memset of vmm_map_zero: writes into the frame behind `a`. */
  method WriteChunk(m: Machine, r: nat, a: nat, phys: nat, bytes: seq<Byte>, ghost s: State)
    requires m.Valid() && Inv(s) && DataOnly(s, m.Abs()) && Level(s, r) == 4 && a % PAGE + |bytes| <= PAGE
    requires Owned(s, r, PathOf(a)) && phys == PageEntry(s, r, a).frame * PAGE + a % PAGE
    modifies m`ram
    ensures m.Valid() && DataOnly(s, m.Abs()) && m.ram == AfterChunk(old(m.ram), s, r, a, bytes)
  {
    hide PathOf, Resolve, Pmm.ClearBits, Tree, Walk, Entries;
    var f := phys / PAGE;
    assert s.role[f].Leaf?;
    m.ram := m.ram[f := Splice(m.ram[f], phys % PAGE, bytes)];
    assert SameTables(s, m.Abs().mem);
    DataOnlyKeeps(s, m.Abs());
  }

  /** vmm_map_copy; `false` is the panic on an unmapped page. */
  method MapCopy(m: Machine, r: nat, virt: nat, src: seq<Byte>) returns (ok: bool)
    requires m.Valid() && Level(m.Abs(), r) == 4 && OwnedRange(m.Abs(), r, virt, |src|)
    requires virt % PAGE + |src| <= SPACE
    modifies m`ram
    ensures m.Valid() && DataOnly(old(m.Abs()), m.Abs())
    ensures (forall a: nat :: virt <= a < virt + |src| ==> Mapped(old(m.Abs()), r, a)) ==> ok
    ensures ok ==> Written(old(m.ram), m.ram, old(m.Abs()), r, virt, src)
  {
    hide PathOf, Resolve, Inv, Owned, Written, Pmm.ClearBits, Tables;
    ghost var s := m.Abs();
    WrittenNothing(m.ram, s, r, virt);
    var copied := 0;
    while copied < |src|
      invariant copied <= |src|
      invariant m.Valid() && DataOnly(s, m.Abs()) && |m.ram| == |s.role|
      invariant Written(old(m.ram), m.ram, s, r, virt, src[..copied])
    {
      var a := virt + copied;
      DataOnlyEntry(s, m.Abs(), r, a);
      var phys := m.VirtToPhys(r, a);
      if phys == 0 {
        assert !Mapped(s, r, a);
        return false;
      }
      var n := Chunk(a, |src| - copied);
      assert CopyStep(old(m.ram), m.ram, s, r, virt, src, copied, n);
      WrittenExtends(old(m.ram), m.ram, s, r, virt, src, copied, n);
      WriteChunk(m, r, a, phys, src[copied..copied + n], s);
      copied := copied + n;
    }
    assert src[..|src|] == src;
    return true;
  }

  function Zeros(n: nat): seq<Byte> {
    seq(n, _ => 0)
  }

  /** vmm_map_zero; `false` is the panic on an unmapped page. */
  method MapZero(m: Machine, r: nat, virt: nat, len: nat) returns (ok: bool)
    requires m.Valid() && Level(m.Abs(), r) == 4 && OwnedRange(m.Abs(), r, virt, len)
    requires virt % PAGE + len <= SPACE
    modifies m`ram
    ensures m.Valid() && DataOnly(old(m.Abs()), m.Abs())
    ensures (forall a: nat :: virt <= a < virt + len ==> Mapped(old(m.Abs()), r, a)) ==> ok
    ensures ok ==> Written(old(m.ram), m.ram, old(m.Abs()), r, virt, Zeros(len))
  {
    hide PathOf, Resolve, Inv, Owned, Written, Pmm.ClearBits, Tables;
    ghost var s := m.Abs();
    ghost var src := Zeros(len);
    WrittenNothing(m.ram, s, r, virt);
    var cleared := 0;
    while cleared < len
      invariant cleared <= len
      invariant m.Valid() && DataOnly(s, m.Abs()) && |m.ram| == |s.role|
      invariant Written(old(m.ram), m.ram, s, r, virt, src[..cleared])
    {
      var a := virt + cleared;
      DataOnlyEntry(s, m.Abs(), r, a);
      var phys := m.VirtToPhys(r, a);
      if phys == 0 {
        assert !Mapped(s, r, a);
        return false;
      }
      var n := Chunk(a, len - cleared);
      assert CopyStep(old(m.ram), m.ram, s, r, virt, src, cleared, n);
      WrittenExtends(old(m.ram), m.ram, s, r, virt, src, cleared, n);
      assert src[cleared..cleared + n] == Zeros(n);
      WriteChunk(m, r, a, phys, Zeros(n), s);
      cleared := cleared + n;
    }
    assert src[..len] == src;
    return true;
  }

  lemma WrittenNothing(ram: seq<Page>, s: State, r: nat, virt: nat)
    ensures Written(ram, ram, s, r, virt, [])
  {
  }

  lemma DataOnlyEntry(s: State, s': State, r: nat, a: nat)
    requires Inv(s) && DataOnly(s, s') && Level(s, r) == 4 && (Mapped(s, r, a) ==> Owned(s, r, PathOf(a)))
    ensures PageEntry(s', r, a) == PageEntry(s, r, a)
    ensures Mapped(s, r, a) ==> PageEntry(s, r, a).frame * PAGE + a % PAGE > 0
  {
    DataOnlyKeeps(s, s');
    MappedNonZero(s, r, a);
  }

  /** An owned page is never translated to the null frame. */
  lemma MappedNonZero(s: State, r: nat, a: nat)
    requires Inv(s) && Level(s, r) == 4 && (Mapped(s, r, a) ==> Owned(s, r, PathOf(a)))
    ensures Mapped(s, r, a) ==> PageEntry(s, r, a).frame * PAGE + a % PAGE > 0
  {
    if Mapped(s, r, a) {
      RolesExclude(s, r, PathOf(a), r, PathOf(a));
    }
  }
}
