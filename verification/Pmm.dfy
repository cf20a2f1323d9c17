/** The physical frame allocator of kernel/system/pmm.c: a bitmap with a set bit for every page that
    is in use or does not exist. */
module Pmm {
  import opened Arithmetic
  import opened Wrappers
  import opened Sets

  const BITMAP_SIZE: nat := 1024 * 1024
  const PAGES_BELOW_1MB: nat := 256

  // ---------------------------------------------------------------- bits of a byte

  function Mask(k: nat): bv8
    requires k < 8
  {
    (1 as bv8) << k
  }

  predicate Bit(b: bv8, k: nat)
    requires k < 8
  {
    b & Mask(k) != 0
  }

  lemma MaskValues()
    ensures Mask(0) == 1 && Mask(1) == 2 && Mask(2) == 4 && Mask(3) == 8
    ensures Mask(4) == 16 && Mask(5) == 32 && Mask(6) == 64 && Mask(7) == 128
  {
  }

  function WithBit(b: bv8, k: nat, value: bool): bv8
    requires k < 8
  {
    if value then b | Mask(k) else b & !Mask(k)
  }

  lemma WithBitAt(b: bv8, k: nat, value: bool, j: nat)
    requires k < 8 && j < 8
    ensures Bit(WithBit(b, k, value), j) == if j == k then value else Bit(b, j)
  {
    MaskValues();
    if j == k {
      assert Mask(k) != 0;
    } else {
      assert Mask(k) & Mask(j) == 0;
    }
  }

  // ---------------------------------------------------------------- bits of a bitmap

  /** BITMAP_GET. */
  predicate GetBit(s: seq<bv8>, i: nat)
    requires i / 8 < |s|
  {
    Bit(s[i / 8], i % 8)
  }

  /** BITMAP_SET and BITMAP_CLEAR. */
  function PutBit(s: seq<bv8>, i: nat, value: bool): (r: seq<bv8>)
    requires i / 8 < |s|
    ensures |r| == |s|
  {
    s[i / 8 := WithBit(s[i / 8], i % 8, value)]
  }

  lemma PutGet(s: seq<bv8>, i: nat, value: bool, j: nat)
    requires i / 8 < |s| && j / 8 < |s|
    ensures GetBit(PutBit(s, i, value), j) == if j == i then value else GetBit(s, j)
  {
    if i / 8 == j / 8 {
      WithBitAt(s[i / 8], i % 8, value, j % 8);
    }
  }

  /** The pages up to `highest` whose bit is clear. */
  ghost function ClearBits(s: seq<bv8>, highest: nat): set<nat>
    requires highest / 8 < |s|
  {
    set i: nat | i <= highest && !GetBit(s, i)
  }

  lemma ClearBitsPut(s: seq<bv8>, highest: nat, i: nat, value: bool)
    requires highest / 8 < |s| && i <= highest
    ensures ClearBits(PutBit(s, i, value), highest) ==
            if value then ClearBits(s, highest) - {i} else ClearBits(s, highest) + {i}
  {
    forall j: nat | j <= highest
      ensures GetBit(PutBit(s, i, value), j) == if j == i then value else GetBit(s, j)
    {
      PutGet(s, i, value, j);
    }
  }

  // ---------------------------------------------------------------- the memory map

  datatype Kind = Usable | BootloaderReclaimable | Reserved

  datatype MapEntry = MapEntry(base: nat, length: nat, kind: Kind)

  predicate IsRam(e: MapEntry) {
    e.kind.Usable? || e.kind.BootloaderReclaimable?
  }

  /** ALIGN_UP to a page, in 64-bit arithmetic. */
  function AlignUp(a: nat): nat {
    (a + PAGE - 1) % WORD / PAGE * PAGE
  }

  /** No address computed from the entry wraps around. */
  predicate NonWrapping(e: MapEntry) {
    e.base + e.length < WORD && e.base + PAGE - 1 < WORD
  }

  /** The page range that pmm_install computes for the entry is right: no address wraps around, or the entry ends in the
      page behind the end of the address space and starts in the last one. */
  predicate RangeRight(e: MapEntry) {
    NonWrapping(e) || (e.base + PAGE - 1 >= WORD && WORD <= e.base + e.length < WORD + PAGE)
  }

  predicate WhollyIn(e: MapEntry, page: nat) {
    e.base <= page * PAGE && (page + 1) * PAGE <= e.base + e.length
  }

  ghost predicate RamPage(entries: seq<MapEntry>, page: nat) {
    exists k :: 0 <= k < |entries| && IsRam(entries[k]) && WhollyIn(entries[k], page)
  }

  /** First page and end of the page range that pmm_install releases for a usable entry. */
  function FirstPage(e: MapEntry): nat {
    AlignUp(e.base) / PAGE
  }

  function EndPage(e: MapEntry): nat {
    (e.base + e.length) % WORD / PAGE
  }

  lemma PagesOfEntry(e: MapEntry, page: nat)
    requires e.base < WORD && RangeRight(e)
    ensures FirstPage(e) <= page < EndPage(e) <==> WhollyIn(e, page)
  {
    if !NonWrapping(e) {
      assert EndPage(e) == 0;
    }
  }

  /** The range is the pages that lie wholly in the entry exactly if `RangeRight`. */
  lemma EntryExact(e: MapEntry)
    requires e.base < WORD && e.length < WORD
    ensures (forall page: nat {:trigger WhollyIn(e, page)} :: FirstPage(e) <= page < EndPage(e) <==> WhollyIn(e, page))
            <==> RangeRight(e)
  {
    if RangeRight(e) {
      forall page: nat ensures FirstPage(e) <= page < EndPage(e) <==> WhollyIn(e, page) {
        PagesOfEntry(e, page);
      }
    } else if e.base + e.length < WORD {
      assert FirstPage(e) <= 0 < EndPage(e) && !WhollyIn(e, 0);
    } else {
      WrongPage(e);
    }
  }

  /** Of an entry that reaches beyond the address space, the page at its end is not released. */
  lemma WrongPage(e: MapEntry)
    requires e.base < WORD <= e.base + e.length < 2 * WORD && !RangeRight(e)
    ensures var page := (e.base + e.length) / PAGE - 1;
      page >= 0 && WhollyIn(e, page) && page >= EndPage(e)
  {
    var page := (e.base + e.length) / PAGE - 1;
    assert EndPage(e) == (e.base + e.length) / PAGE - 0x10_0000_0000_0000;
  }

  /** The pages that the first `k` entries of the map release. */
  ghost predicate Released(entries: seq<MapEntry>, k: nat, page: nat) {
    exists j :: 0 <= j < k && j < |entries| && IsRam(entries[j]) && FirstPage(entries[j]) <= page < EndPage(entries[j])
  }

  /** The ranges of all RAM entries are right. */
  predicate RangesRight(entries: seq<MapEntry>) {
    forall k :: 0 <= k < |entries| && IsRam(entries[k]) ==> entries[k].base < WORD && RangeRight(entries[k])
  }

  lemma ReleasedNext(entries: seq<MapEntry>, k: nat)
    requires k < |entries|
    ensures forall page: nat :: Released(entries, k + 1, page) <==>
              Released(entries, k, page)
              || (IsRam(entries[k]) && FirstPage(entries[k]) <= page < EndPage(entries[k]))
  {
    hide FirstPage, EndPage, IsRam;
    forall page: nat | Released(entries, k, page) ensures Released(entries, k + 1, page) {
      var j :| 0 <= j < k && IsRam(entries[j]) && FirstPage(entries[j]) <= page < EndPage(entries[j]);
      assert IsRam(entries[j]);
    }
  }

  lemma ReleasedIsRam(entries: seq<MapEntry>)
    requires RangesRight(entries)
    ensures forall page: nat :: Released(entries, |entries|, page) <==> RamPage(entries, page)
  {
    forall page: nat ensures Released(entries, |entries|, page) <==> RamPage(entries, page) {
      forall j | 0 <= j < |entries| && IsRam(entries[j])
        ensures FirstPage(entries[j]) <= page < EndPage(entries[j]) <==> WhollyIn(entries[j], page)
      {
        PagesOfEntry(entries[j], page);
      }
    }
  }

  function HighestAddress(entries: seq<MapEntry>): nat {
    if entries == [] then 0
    else
      var e := entries[|entries| - 1];
      var rest := HighestAddress(entries[..|entries| - 1]);
      if Top(e) > rest then Top(e) else rest
  }

  /** The end of an entry, in 64-bit arithmetic. */
  function Top(e: MapEntry): nat {
    (e.base + e.length) % WORD
  }

  /** It is the greatest end of an entry. */
  lemma {:induction false} HighestIsMaximum(entries: seq<MapEntry>)
    ensures forall k :: 0 <= k < |entries| ==> Top(entries[k]) <= HighestAddress(entries)
    ensures entries != [] ==> exists k :: 0 <= k < |entries| && Top(entries[k]) == HighestAddress(entries)
  {
    if entries == [] {
      assert HighestAddress(entries) == 0;
    } else {
      var n := |entries| - 1;
      var rest := entries[..n];
      HighestIsMaximum(rest);
      assert forall k :: 0 <= k < n ==> entries[k] == rest[k];
      if HighestAddress(entries) == Top(entries[n]) {
        assert Top(entries[n]) == HighestAddress(entries);
      } else {
        var k :| 0 <= k < n && Top(rest[k]) == HighestAddress(rest);
        assert Top(entries[k]) == HighestAddress(entries);
      }
    }
  }

  function HighestPage(entries: seq<MapEntry>): nat {
    var page := (HighestAddress(entries) - 1) % WORD / PAGE;
    if page >= BITMAP_SIZE * 8 then BITMAP_SIZE * 8 - 1 else page
  }

  /** No RAM page that the bitmap can hold is beyond the highest page, and that is the page of the last byte of the map,
      or the last page of the bitmap. */
  lemma HighestPageCovers(entries: seq<MapEntry>)
    requires RangesRight(entries)
    ensures forall page: nat :: RamPage(entries, page) && page < BITMAP_SIZE * 8 ==> page <= HighestPage(entries)
    ensures var last := HighestAddress(entries) - 1; var page := HighestPage(entries);
      0 <= last < WORD ==>
        page < BITMAP_SIZE * 8 && if last < BITMAP_SIZE * 8 * PAGE then page * PAGE <= last < (page + 1) * PAGE
                                  else page == BITMAP_SIZE * 8 - 1
  {
    HighestIsMaximum(entries);
    forall page: nat | RamPage(entries, page) && page < BITMAP_SIZE * 8 ensures page <= HighestPage(entries) {
      var k :| 0 <= k < |entries| && IsRam(entries[k]) && WhollyIn(entries[k], page);
      PagesOfEntry(entries[k], page);
      EndBelow(entries[k], page, HighestAddress(entries));
    }
  }

  lemma EndBelow(e: MapEntry, page: nat, highest: nat)
    requires page < EndPage(e) && Top(e) <= highest < WORD
    ensures page <= (highest - 1) % WORD / PAGE || page >= BITMAP_SIZE * 8
  {
  }

  ghost function ReleasedPages(entries: seq<MapEntry>, highest: nat): set<nat> {
    set i: nat | i <= highest && Released(entries, |entries|, i)
  }

  ghost function RamPages(entries: seq<MapEntry>, highest: nat): set<nat> {
    set i: nat | i <= highest && RamPage(entries, i)
  }

  /** Where the kernel image and its bitmap lie. */
  datatype KernelLayout = KernelLayout(physicalBase: nat, virtualBase: nat, textBegin: nat, bssEnd: nat, bitmap: nat)

  function KernelFirst(l: KernelLayout): nat {
    l.physicalBase / PAGE
  }

  function KernelEnd(l: KernelLayout): nat {
    (l.physicalBase + AlignUp((l.bssEnd - l.textBegin) % WORD)) % WORD / PAGE
  }

  function BitmapPhysical(l: KernelLayout): nat {
    (l.bitmap - l.virtualBase + l.physicalBase) % WORD
  }

  function BitmapFirst(l: KernelLayout): nat {
    BitmapPhysical(l) / PAGE
  }

  function BitmapEnd(l: KernelLayout): nat {
    ((BitmapPhysical(l) + BITMAP_SIZE) % WORD + PAGE - 1) % WORD / PAGE
  }

  predicate KernelPage(l: KernelLayout, page: nat) {
    KernelFirst(l) <= page < KernelEnd(l) || BitmapFirst(l) <= page < BitmapEnd(l) || page < PAGES_BELOW_1MB
  }

  /** The page holds one of the `size` bytes from `base` on. */
  predicate Touches(page: nat, base: nat, size: nat) {
    size > 0 && page * PAGE < base + size && base < (page + 1) * PAGE
  }

  function KernelSize(l: KernelLayout): nat {
    (l.bssEnd - l.textBegin) % WORD
  }

  /** The image starts so low in its first page that it takes no more pages than its size does. */
  predicate StartsLow(l: KernelLayout) {
    KernelSize(l) == 0 || l.physicalBase % PAGE + (KernelSize(l) - 1) % PAGE < PAGE
  }

  /** The reserved pages are those with a byte of the bitmap, and those with a byte of the kernel image exactly if it
      starts low. */
  lemma KernelExact(l: KernelLayout)
    requires l.physicalBase + KernelSize(l) + PAGE < WORD && BitmapPhysical(l) + BITMAP_SIZE + PAGE < WORD
    ensures forall page: nat ::
      BitmapFirst(l) <= page < BitmapEnd(l) <==> Touches(page, BitmapPhysical(l), BITMAP_SIZE)
    ensures (forall page: nat ::
               KernelFirst(l) <= page < KernelEnd(l) <==> Touches(page, l.physicalBase, KernelSize(l)))
            <==> StartsLow(l)
  {
    var base, size := l.physicalBase, KernelSize(l);
    if size > 0 {
      var last := (base + size - 1) / PAGE;
      LastPage(base, size);
      KernelEndIs(l);
      assert Touches(last, base, size);
      assert forall page: nat :: Touches(page, base, size) <==> base / PAGE <= page <= last;
    }
  }

  /** What is reserved in all then. */
  lemma ReservedExact(l: KernelLayout, page: nat)
    requires l.physicalBase + KernelSize(l) + PAGE < WORD && BitmapPhysical(l) + BITMAP_SIZE + PAGE < WORD
    requires StartsLow(l)
    ensures KernelPage(l, page)
            <==> || Touches(page, l.physicalBase, KernelSize(l))
                 || Touches(page, BitmapPhysical(l), BITMAP_SIZE)
                 || page * PAGE < 0x10_0000
  {
    hide KernelFirst, KernelEnd, BitmapFirst, BitmapEnd, BitmapPhysical, KernelSize, StartsLow, Touches;
    KernelExact(l);
  }

  /** The bitmap is a variable of the kernel, so it lies in the image: its pages are reserved twice. */
  lemma BitmapInKernel(l: KernelLayout)
    requires l.virtualBase == l.textBegin <= l.bitmap && l.bitmap + BITMAP_SIZE <= l.bssEnd < WORD
    requires l.physicalBase + KernelSize(l) < WORD
    ensures l.physicalBase <= BitmapPhysical(l) && BitmapPhysical(l) + BITMAP_SIZE <= l.physicalBase + KernelSize(l)
  {
  }

  lemma LastPage(base: nat, size: nat)
    requires size > 0
    ensures (base + size - 1) / PAGE == base / PAGE + (size - 1) / PAGE
            <==> base % PAGE + (size - 1) % PAGE < PAGE
  {
  }

  lemma KernelEndIs(l: KernelLayout)
    requires l.physicalBase + KernelSize(l) + PAGE < WORD && KernelSize(l) > 0
    ensures KernelEnd(l) == l.physicalBase / PAGE + (KernelSize(l) - 1) / PAGE + 1
  {
  }

  // ---------------------------------------------------------------- counters over runs

  /** The free pages, the counters and the last page that the bitmap covers. */
  datatype Frames = Frames(free: set<nat>, used: nat, total: nat, highest: nat)

  datatype FrameOp = Take | Give(page: nat)

  /** pmm_allocate and pmm_free, with the counters in 64-bit arithmetic; `None` is a panic. */
  ghost function FrameStep(f: Frames, op: FrameOp): Option<Frames> {
    match op
    case Take =>
      if f.free == {} then None else Some(f.(free := f.free - {Least(f.free)}, used := (f.used + 1) % WORD))
    case Give(page) =>
      if page == 0 || page > f.highest || page in f.free then None
      else Some(f.(free := f.free + {page}, used := (f.used - 1) % WORD))
  }

  /** Every free page is one of `ram`, and used and free pages add up to the number of pages of `ram`. */
  ghost predicate Accounts(f: Frames, ram: set<nat>) {
    f.free <= ram && |ram| == f.total < WORD && f.used + |f.free| == f.total
  }

  /** Allocating keeps the account, and freeing does exactly for pages of `ram`. */
  lemma StepAccounts(f: Frames, op: FrameOp, ram: set<nat>)
    requires Accounts(f, ram) && FrameStep(f, op).Some?
    ensures Accounts(FrameStep(f, op).value, ram) <==> op.Take? || op.page in ram
  {
    var f' := FrameStep(f, op).value;
    match op
    case Take =>
      assert |f'.free| == |f.free| - 1;
      OneMore(f.used);
    case Give(page) =>
      assert |f'.free| == |f.free| + 1;
      if page in ram {
        SubsetSize(f'.free, ram);
        OneLess(f.used);
      } else {
        assert page in f'.free;
      }
  }

  lemma OneMore(used: nat)
    ensures used + 1 < WORD ==> (used + 1) % WORD == used + 1
  {
  }

  lemma OneLess(used: nat)
    ensures 0 < used <= WORD ==> (used - 1) % WORD == used - 1
  {
  }

  ghost predicate FrameRun(f: Frames, ops: seq<FrameOp>, f': Frames)
    decreases |ops|
  {
    if ops == [] then f' == f
    else FrameStep(f, ops[0]).Some? && FrameRun(FrameStep(f, ops[0]).value, ops[1..], f')
  }

  /** On every run that frees only pages of `ram`, used and free pages add up and no other page becomes free. */
  lemma {:induction false} RunAccounts(f: Frames, ops: seq<FrameOp>, f': Frames, ram: set<nat>)
    requires Accounts(f, ram) && FrameRun(f, ops, f')
    requires forall i :: 0 <= i < |ops| && ops[i].Give? ==> ops[i].page in ram
    ensures Accounts(f', ram)
    decreases |ops|
  {
    if ops == [] {
    } else {
      StepAccounts(f, ops[0], ram);
      RunAccounts(FrameStep(f, ops[0]).value, ops[1..], f', ram);
    }
  }

  // ---------------------------------------------------------------- the allocator

  lemma CountersAdd(total: nat, free: int, used: int)
    requires used == (total - free) % WORD
    ensures (used + 1) % WORD == (total - (free - 1)) % WORD
    ensures (used - 1) % WORD == (total - (free + 1)) % WORD
  {
  }

  class FrameAllocator {
    const bitmap: array<bv8>
    var highestPage: nat
    var usedPages: nat
    var freePages: nat
    var totalPages: nat

    constructor ()
      ensures fresh(bitmap) && bitmap.Length == BITMAP_SIZE
    {
      bitmap := new bv8[BITMAP_SIZE];
    }

    ghost predicate InBounds()
      reads this
    {
      bitmap.Length == BITMAP_SIZE && highestPage < BITMAP_SIZE * 8
    }

    ghost function FreeSet(): set<nat>
      requires InBounds()
      reads this, bitmap
    {
      ClearBits(bitmap[..], highestPage)
    }

    ghost function Abs(): Frames
      requires InBounds()
      reads this, bitmap
    {
      Frames(FreeSet(), usedPages, totalPages, highestPage)
    }

    method Get(i: nat) returns (value: bool)
      requires InBounds() && i <= highestPage
      ensures value <==> i !in FreeSet()
    {
      value := bitmap[i / 8] & Mask(i % 8) != 0;
    }

    method Put(i: nat, value: bool)
      requires InBounds() && i <= highestPage
      modifies bitmap
      ensures FreeSet() == if value then old(FreeSet()) - {i} else old(FreeSet()) + {i}
    {
      var k := i / 8;
      bitmap[k] := WithBit(bitmap[k], i % 8, value);
      assert bitmap[..] == PutBit(old(bitmap[..]), i, value);
      ClearBitsPut(old(bitmap[..]), highestPage, i, value);
    }

    /** The free counter counts the clear bits, and used and free pages add up, in 64-bit arithmetic. */
    ghost predicate Valid()
      reads this, bitmap
    {
      && InBounds()
      && freePages == |FreeSet()|
      && usedPages == (totalPages - freePages) % WORD
    }

    /** The scan of pmm_allocate: the lowest page whose bit is clear. */
    method Scan() returns (r: Option<nat>)
      requires InBounds()
      ensures r.None? ==> FreeSet() == {}
      ensures r.Some? ==> IsLeast(r.value, FreeSet()) && r.value <= highestPage
    {
      var i := 0;
      while i <= highestPage
        invariant i <= highestPage + 1
        invariant forall j :: j in FreeSet() ==> i <= j
      {
        var taken := Get(i);
        if !taken {
          return Some(i);
        }
        i := i + 1;
      }
      return None;
    }

    /** pmm_allocate: takes the lowest free page; `None` is the out-of-memory panic. */
    method Allocate() returns (r: Option<nat>)
      requires Valid()
      modifies this, bitmap
      ensures Valid() && highestPage == old(highestPage) && totalPages == old(totalPages)
      ensures r.None? <==> old(FreeSet()) == {}
      ensures r.None? ==> FreeSet() == {}
      ensures r.Some? ==> IsLeast(r.value, old(FreeSet())) && FreeSet() == old(FreeSet()) - {r.value}
      ensures r.Some? ==> r.value <= highestPage
      ensures r.Some? ==> FrameStep(old(Abs()), Take) == Some(Abs())
    {
      r := Scan();
      if r.Some? {
        CountersAdd(totalPages, freePages, usedPages);
        Put(r.value, true);
        usedPages := (usedPages + 1) % WORD;
        freePages := freePages - 1;
      }
    }

    /** One of the three loops of pmm_install that take a page range away again. */
    method Reserve(first: nat, end: nat)
      requires InBounds() && freePages == |FreeSet()|
      modifies this`freePages, bitmap
      ensures InBounds() && freePages == |FreeSet()|
      ensures forall i :: i in FreeSet() <==> i in old(FreeSet()) && !(first <= i < end)
    {
      hide FreeSet, InBounds;
      var page := first;
      while page < end
        invariant InBounds() && freePages == |FreeSet()|
        invariant forall i :: i in FreeSet() <==> i in old(FreeSet()) && !(first <= i < page && i < end)
      {
        ReserveOne(page);
        page := page + 1;
      }
    }

    method ReserveOne(page: nat)
      requires InBounds() && freePages == |FreeSet()|
      modifies this`freePages, bitmap
      ensures InBounds() && freePages == |FreeSet()| && FreeSet() == old(FreeSet()) - {page}
    {
      if page <= highestPage {
        var taken := Get(page);
        if !taken {
          freePages := freePages - 1;
        }
        Put(page, true);
      }
    }

    /** The inner loop of pmm_install: clears the bits of a page range and counts the pages. */
    method ReleaseRange(first: nat, end: nat)
      requires InBounds() && totalPages == |FreeSet()|
      modifies this`totalPages, bitmap
      ensures InBounds() && totalPages == |FreeSet()|
      ensures forall i :: i in FreeSet() <==> i in old(FreeSet()) || (i <= highestPage && first <= i < end)
    {
      var page := first;
      while page < end
        invariant totalPages == |FreeSet()|
        invariant forall i :: i in FreeSet() <==>
                    i in old(FreeSet()) || (i <= highestPage && first <= i < page && i < end)
      {
        if page <= highestPage {
          var taken := Get(page);
          if taken {
            Put(page, false);
            totalPages := totalPages + 1;
          }
        }
        page := page + 1;
      }
    }

    /** The first loop of pmm_install, and the limit to the pages that the bitmap covers. */
    method FindHighest(entries: seq<MapEntry>)
      requires bitmap.Length == BITMAP_SIZE
      modifies this`highestPage
      ensures InBounds() && highestPage == HighestPage(entries)
    {
      var highestAddress := 0;
      for k := 0 to |entries|
        invariant highestAddress == HighestAddress(entries[..k])
      {
        assert entries[..k + 1][..k] == entries[..k];
        var top := (entries[k].base + entries[k].length) % WORD;
        if top > highestAddress {
          highestAddress := top;
        }
      }
      assert entries[..|entries|] == entries;
      highestPage := (highestAddress - 1) % WORD / PAGE;
      if highestPage >= BITMAP_SIZE * 8 {
        highestPage := BITMAP_SIZE * 8 - 1;
      }
    }

    /** The second loop of pmm_install. */
    method ReleaseRam(entries: seq<MapEntry>)
      requires InBounds() && totalPages == 0 && FreeSet() == {}
      modifies this`totalPages, bitmap
      ensures InBounds() && totalPages == |FreeSet()|
      ensures forall i: nat :: i in FreeSet() <==> i <= highestPage && Released(entries, |entries|, i)
    {
      for k := 0 to |entries|
        invariant totalPages == |FreeSet()|
        invariant forall i: nat :: i in FreeSet() <==> i <= highestPage && Released(entries, k, i)
      {
        ReleasedNext(entries, k);
        if IsRam(entries[k]) {
          var base := AlignUp(entries[k].base);
          var top := (entries[k].base + entries[k].length) % WORD / PAGE * PAGE;
          if top > base {
            ReleaseRange(base / PAGE, top / PAGE);
          }
        }
      }
    }

    /** pmm_install: a page is free exactly when it lies wholly in RAM and not in the kernel, the
        bitmap or the first megabyte. */
    method Install(entries: seq<MapEntry>, l: KernelLayout)
      requires bitmap.Length == BITMAP_SIZE
      modifies this, bitmap
      ensures Valid() && highestPage == HighestPage(entries)
      ensures RangesRight(entries) ==>
                forall i: nat :: i in FreeSet() <==> i < BITMAP_SIZE * 8 && RamPage(entries, i) && !KernelPage(l, i)
      ensures RangesRight(entries) ==>
                totalPages == |RamPages(entries, highestPage)|
      ensures usedPages + freePages == totalPages && Accounts(Abs(), ReleasedPages(entries, highestPage))
    {
      hide RangesRight, RamPage, KernelPage, HighestPage;
      if RangesRight(entries) {
        HighestPageCovers(entries);
      }
      Populate(entries);
      BoundedSize(FreeSet(), highestPage + 1);
      ReserveKernel(l);
      usedPages := totalPages - freePages;
    }

    /** The loops of pmm_install that find and release the RAM. */
    method Populate(entries: seq<MapEntry>)
      requires bitmap.Length == BITMAP_SIZE
      modifies this, bitmap
      ensures InBounds() && highestPage == HighestPage(entries)
      ensures freePages == totalPages == |FreeSet()| && FreeSet() == ReleasedPages(entries, highestPage)
      ensures RangesRight(entries) ==>
                FreeSet() == RamPages(entries, highestPage)
    {
      FindHighest(entries);
      Fill();
      totalPages := 0;
      ReleaseRam(entries);
      assert FreeSet() == ReleasedPages(entries, highestPage);
      if RangesRight(entries) {
        ReleasedIsRam(entries);
        assert FreeSet() == RamPages(entries, highestPage);
      }
      freePages := totalPages;
    }

    /** The last three loops of pmm_install. */
    method ReserveKernel(l: KernelLayout)
      requires InBounds() && freePages == |FreeSet()|
      modifies this`freePages, bitmap
      ensures InBounds() && freePages == |FreeSet()| <= old(freePages)
      ensures forall i :: i in FreeSet() <==> i in old(FreeSet()) && !KernelPage(l, i)
    {
      Reserve(KernelFirst(l), KernelEnd(l));
      Reserve(BitmapFirst(l), BitmapEnd(l));
      Reserve(0, PAGES_BELOW_1MB);
      SubsetSize(FreeSet(), old(FreeSet()));
    }

    /** memset(bitmap, 0xFF, PMM_BITMAP_SIZE). */
    method Fill()
      requires InBounds()
      modifies bitmap
      ensures FreeSet() == {}
    {
      for k := 0 to bitmap.Length
        invariant forall j :: 0 <= j < k ==> bitmap[j] == 0xFF
      {
        bitmap[k] := 0xFF;
      }
      forall i: nat | i <= highestPage ensures GetBit(bitmap[..], i) {
        MaskValues();
      }
    }

    /** pmm_free; `false` is one of its panics: null, unaligned, out of bounds, already free. */
    method Free(phys: nat) returns (ok: bool)
      requires Valid()
      modifies this, bitmap
      ensures Valid() && highestPage == old(highestPage) && totalPages == old(totalPages)
      ensures ok <==> phys != 0 && phys % PAGE == 0 && phys / PAGE <= highestPage
                      && phys / PAGE !in old(FreeSet())
      ensures FreeSet() == if ok then old(FreeSet()) + {phys / PAGE} else old(FreeSet())
      ensures ok ==> FrameStep(old(Abs()), Give(phys / PAGE)) == Some(Abs())
    {
      if phys == 0 || phys % PAGE != 0 {
        return false;
      }
      var i := phys / PAGE;
      if i > highestPage {
        return false;
      }
      var taken := Get(i);
      if !taken {
        return false;
      }
      CountersAdd(totalPages, freePages, usedPages);
      Put(i, false);
      usedPages := (usedPages - 1) % WORD;
      freePages := freePages + 1;
      return true;
    }
  }
}
