/** Physical memory as bytes, and page-table entries as the little-endian words in it. */
module Ram {
  import opened Arithmetic
  import opened Bits
  import opened PageTables

  type Byte = b: int | 0 <= b < 256

  const ADDRESS_LIMIT: nat := 0x10_0000_0000_0000
  const NX_BIT: nat := 0x8000_0000_0000_0000

  /** The frames that an entry can name: the address field has 40 bits. */
  const FRAME_LIMIT: nat := 0x100_0000_0000

  type Page = p: seq<Byte> | |p| == PAGE witness seq(PAGE, _ => 0)

  // ---------------------------------------------------------------- words

  function ToBytes(v: nat, n: nat): (r: seq<Byte>)
    ensures |r| == n
  {
    if n == 0 then [] else [v % 256] + ToBytes(v / 256, n - 1)
  }

  function FromBytes(s: seq<Byte>): nat {
    if s == [] then 0 else s[0] + 256 * FromBytes(s[1..])
  }

  function Limit(n: nat): (r: nat)
    ensures r > 0
  {
    if n == 0 then 1 else 256 * Limit(n - 1)
  }

  lemma {:induction false} BytesRoundTrip(v: nat, n: nat)
    requires v < Limit(n)
    ensures FromBytes(ToBytes(v, n)) == v
  {
    if n == 0 {
    } else {
      BytesRoundTrip(v / 256, n - 1);
      assert ToBytes(v, n)[1..] == ToBytes(v / 256, n - 1);
    }
  }

  // ---------------------------------------------------------------- entries

  function FlagBits(f: Flags): nat {
    1 + (if f.writable then 2 else 0) + (if f.user then 4 else 0) + (if f.noExecute then NX_BIT else 0)
  }

  function Encode(e: Entry): nat {
    match e
    case Zero => 0
    case Stale(bits) => bits
    case Present(frame, flags) => frame * PAGE + FlagBits(flags)
  }

  function Decode(v: nat): Entry {
    if v == 0 then Zero
    else if v % 2 == 0 then Stale(v)
    else Present(v % ADDRESS_LIMIT / PAGE, Flags(v / 2 % 2 == 1, v / 4 % 2 == 1, v / NX_BIT % 2 == 1))
  }

  /** What the kernel stores in a table: nothing, or a frame within the address field. */
  predicate Storable(e: Entry) {
    e == Zero || (e.Present? && e.frame < FRAME_LIMIT)
  }

  lemma LimitEight()
    ensures Limit(8) == WORD
  {
    assert Limit(4) == 0x1_0000_0000;
  }

  /** The fields of a word that is put together from a frame, low flag bits and the top bit. */
  lemma WordFields(frame: nat, w: nat, u: nat, x: nat, v: nat)
    requires frame < FRAME_LIMIT && w < 2 && u < 2 && x < 2
    requires v == frame * PAGE + 1 + 2 * w + 4 * u + x * NX_BIT
    ensures v % ADDRESS_LIMIT / PAGE == frame
    ensures v % 2 == 1 && v / 2 % 2 == w && v / 4 % 2 == u && v / NX_BIT % 2 == x
    ensures v < WORD
  {
    AddressField(frame, 1 + 2 * w + 4 * u, x);
    assert v == frame * PAGE + 1 + 2 * w + 4 * u + ADDRESS_LIMIT * (x * 2048);
    LowBits(frame * 512 + x * 0x1000_0000_0000_0000, w, u, v);
    TopBit(frame * PAGE + 1 + 2 * w + 4 * u, x, v);
  }

  lemma LowBits(rest: nat, w: nat, u: nat, v: nat)
    requires w < 2 && u < 2 && v == 8 * rest + 4 * u + 2 * w + 1
    ensures v % 2 == 1 && v / 2 % 2 == w && v / 4 % 2 == u
  {
  }

  lemma TopBit(low: nat, x: nat, v: nat)
    requires x < 2 && low < NX_BIT && v == low + x * NX_BIT
    ensures v / NX_BIT % 2 == x
  {
  }

  lemma AddressField(frame: nat, low: nat, x: nat)
    requires frame < FRAME_LIMIT && low < PAGE
    ensures (frame * PAGE + low + ADDRESS_LIMIT * (x * 2048)) % ADDRESS_LIMIT == frame * PAGE + low
    ensures (frame * PAGE + low) / PAGE == frame
  {
    Euclid(frame * PAGE + low + ADDRESS_LIMIT * (x * 2048), ADDRESS_LIMIT, x * 2048, frame * PAGE + low);
    Euclid(frame * PAGE + low, PAGE, frame, low);
  }

  lemma EntryRoundTrip(e: Entry)
    requires Storable(e)
    ensures Decode(Encode(e)) == e && Encode(e) < Limit(8)
  {
    LimitEight();
    if e.Present? {
      WordFields(e.frame, if e.flags.writable then 1 else 0, if e.flags.user then 1 else 0,
                 if e.flags.noExecute then 1 else 0, Encode(e));
    }
  }

  // ---------------------------------------------------------------- bit operations on entries

  const PTE_PRESENT: nat := 1
  const PTE_WRITABLE: nat := 2
  const PTE_USER: nat := 4
  const PTE_ADDR_MASK: nat := 0xF_FFFF_FFFF_F000

  lemma PowersOfTwo()
    ensures Shl(1, 0) == 1 && Shl(1, 1) == 2 && Shl(1, 2) == 4 && Shl(1, 12) == PAGE && Shl(1, 40) == FRAME_LIMIT
    ensures Shl(1, 51) == 0x8_0000_0000_0000 && Shl(1, 52) == ADDRESS_LIMIT && Shl(1, 63) == NX_BIT
    ensures Shl(1, 64) == WORD
  {
    assert Shl(1, 12) == PAGE;
    assert Shl(1, 26) == 0x400_0000;
    assert Shl(1, 40) == FRAME_LIMIT;
    assert Shl(1, 51) == 0x8_0000_0000_0000;
    assert Shl(1, 63) == NX_BIT;
  }

  /** An address has no bit in common with flags. */
  lemma FlagsApart(frame: nat, low: nat, x: nat)
    requires frame < FRAME_LIMIT && low < PAGE && x < 2
    ensures And(frame * PAGE, low + x * NX_BIT) == 0
  {
    PowersOfTwo();
    hide And, Shl, Shr;
    var flags := low + x * NX_BIT;
    ShlMul(frame, 12);
    AndComm(Shl(frame, 12), flags);
    AndField(12, frame, flags);
    ShrDiv(flags, 12);
    assert flags / PAGE == x * 0x8_0000_0000_0000;
    ShlMul(x, 51);
    AndLow(51, x, frame);
    AndZeroShifted(12);
  }

  lemma AndZeroShifted(k: nat)
    ensures Shl(0, k) == 0
  {
    ShlMul(0, k);
  }

  /** The word that vmm_map_page and vmm_get_next_level put together with `|`, whether or not the flags include
      PTE_PRESENT, is the encoded entry. */
  lemma EncodeBits(frame: nat, flags: Flags, word: nat)
    requires frame < FRAME_LIMIT && (word == FlagBits(flags) || word + PTE_PRESENT == FlagBits(flags))
    ensures Or(Or(frame * PAGE, word), PTE_PRESENT) == Encode(Present(frame, flags))
  {
    hide And, Or;
    var x := if flags.noExecute then 1 else 0;
    FlagsApart(frame, word - x * NX_BIT, x);
    OrAnd(frame * PAGE, word);
    OrOne(frame * PAGE + word);
    FlagParity(frame, flags, word);
  }

  lemma FlagParity(frame: nat, flags: Flags, word: nat)
    requires word == FlagBits(flags) || word + PTE_PRESENT == FlagBits(flags)
    ensures (frame * PAGE + word) % 2 == 1 <==> word == FlagBits(flags)
  {
    var h := (if flags.writable then 1 else 0) + (if flags.user then 2 else 0)
             + (if flags.noExecute then NX_BIT / 2 else 0);
    assert FlagBits(flags) == 2 * h + 1;
    assert frame * PAGE + FlagBits(flags) == 2 * (frame * 2048 + h) + 1;
  }

  /** The tests and masks of the page walk read the fields of the decoded entry. */
  lemma DecodeBits(v: nat)
    requires v < WORD
    ensures Decode(v).Present? <==> And(v, PTE_PRESENT) != 0
    ensures Decode(v).Present? ==>
      && Decode(v).frame * PAGE == And(v, PTE_ADDR_MASK)
      && (Decode(v).flags.writable <==> And(v, PTE_WRITABLE) != 0)
      && (Decode(v).flags.user <==> And(v, PTE_USER) != 0)
      && (Decode(v).flags.noExecute <==> And(v, NX_BIT) != 0)
    ensures And(v, PTE_ADDR_MASK) + And(v, WORD - 1 - PTE_ADDR_MASK) == v
  {
    PowersOfTwo();
    hide And, Shl;
    BitTest(v, 0);
    BitTest(v, 1);
    BitTest(v, 2);
    BitTest(v, 63);
    AddressMask(v);
    AndComplement(64, v, PTE_ADDR_MASK);
  }

  lemma BitTest(v: nat, k: nat)
    ensures Shl(1, k) > 0 && (And(v, Shl(1, k)) != 0 <==> v / Shl(1, k) % 2 == 1)
  {
    ShrDiv(v, k);
    AndField(k, 1, v);
    var b := Shr(v, k);
    AndOnes(1, b);
    assert And(b, 1) == b % 2;
    ShlMul(b % 2, k);
  }

  lemma AddressMask(v: nat)
    ensures And(v, PTE_ADDR_MASK) == v % ADDRESS_LIMIT / PAGE * PAGE
  {
    PowersOfTwo();
    hide And, Shl, Shr;
    var ones := FRAME_LIMIT - 1;
    ShlMul(ones, 12);
    AndField(12, ones, v);
    ShrDiv(v, 12);
    var w := v / PAGE;
    AndOnes(40, w);
    ShrDiv(w, 40);
    ShlMul(w / FRAME_LIMIT, 40);
    ShlMul(w - w / FRAME_LIMIT * FRAME_LIMIT, 12);
    assert v / ADDRESS_LIMIT == w / FRAME_LIMIT;
  }

  // ---------------------------------------------------------------- pages

  /** The page read as 512 entries. */
  function Entries(p: Page): (t: Table) {
    seq(SLOTS, i requires 0 <= i < SLOTS => Decode(FromBytes(p[8 * i..8 * i + 8])))
  }

  function StoreWord(p: Page, i: nat, v: nat): (r: Page)
    requires i < SLOTS
  {
    p[..8 * i] + ToBytes(v, 8) + p[8 * i + 8..]
  }

  lemma EntriesStore(p: Page, i: nat, e: Entry)
    requires i < SLOTS && Storable(e)
    ensures Entries(StoreWord(p, i, Encode(e))) == Entries(p)[i := e]
  {
    var q := StoreWord(p, i, Encode(e));
    EntryRoundTrip(e);
    BytesRoundTrip(Encode(e), 8);
    forall j | 0 <= j < SLOTS ensures Entries(q)[j] == Entries(p)[i := e][j] {
      if j == i {
        assert q[8 * i..8 * i + 8] == ToBytes(Encode(e), 8);
      } else {
        assert q[8 * j..8 * j + 8] == p[8 * j..8 * j + 8];
      }
    }
  }

  function ZeroPage(): Page {
    seq(PAGE, _ => 0)
  }

  lemma {:induction false} ZeroBytes(s: seq<Byte>)
    requires forall k :: 0 <= k < |s| ==> s[k] == 0
    ensures FromBytes(s) == 0
  {
    if s == [] {
    } else {
      ZeroBytes(s[1..]);
    }
  }

  lemma EntriesZero()
    ensures Entries(ZeroPage()) == EmptyTable()
  {
    forall i | 0 <= i < SLOTS ensures Entries(ZeroPage())[i] == Zero {
      ZeroBytes(ZeroPage()[8 * i..8 * i + 8]);
    }
  }

  /** memcpy of the higher half of the kernel PML4 into a cleared page. */
  function CopyHigh(kernel: Page): Page {
    ZeroPage()[..PAGE / 2] + kernel[PAGE / 2..]
  }

  lemma EntriesCopyHigh(kernel: Page)
    ensures Entries(CopyHigh(kernel)) == NewRoot(Entries(kernel))
  {
    var q := CopyHigh(kernel);
    forall i | 0 <= i < SLOTS ensures Entries(q)[i] == NewRoot(Entries(kernel))[i] {
      if i < UPPER_HALF {
        assert q[8 * i..8 * i + 8] == ZeroPage()[8 * i..8 * i + 8];
        ZeroBytes(q[8 * i..8 * i + 8]);
      } else {
        assert q[8 * i..8 * i + 8] == kernel[8 * i..8 * i + 8];
      }
    }
  }

  /** The whole memory read as tables. */
  function Tables(ram: seq<Page>): (mem: seq<Table>)
    ensures |mem| == |ram|
  {
    seq(|ram|, f requires 0 <= f < |ram| => Entries(ram[f]))
  }

  lemma TablesStore(ram: seq<Page>, f: nat, i: nat, e: Entry)
    requires f < |ram| && i < SLOTS && Storable(e)
    ensures Tables(ram[f := StoreWord(ram[f], i, Encode(e))]) == Put(Tables(ram), f, i, e)
  {
    EntriesStore(ram[f], i, e);
  }

  // ---------------------------------------------------------------- virtual addresses

  const PAGES: nat := 0x10_0000_0000

  /** The four indices of a virtual address. */
  function PathOf(virt: nat): (p: Path)
    ensures ValidPath(p) && |p| == 4
  {
    [virt / 0x80_0000_0000 % 512, virt / 0x4000_0000 % 512, virt / 0x20_0000 % 512, virt / 0x1000 % 512]
  }

  /** The end of the lower half of the address space. */
  const LOWER_END: nat := 0x8000_0000_0000

  lemma LowerHalfPath(virt: nat)
    requires virt < LOWER_END
    ensures PathOf(virt)[0] < UPPER_HALF
  {
  }

  /** The page number of an address, of which only 36 bits take part in the walk. */
  function PageOf(virt: nat): nat {
    virt / PAGE % PAGES
  }

  function PathNumber(p: Path): nat
    requires |p| == 4
  {
    p[0] * 0x800_0000 + p[1] * 0x4_0000 + p[2] * 512 + p[3]
  }

  lemma PathNumberInjective(p: Path, q: Path)
    requires ValidPath(p) && ValidPath(q) && |p| == 4 && |q| == 4
    requires PathNumber(p) == PathNumber(q)
    ensures p == q
  {
    assert p[0] == q[0];
    assert p[1] == q[1];
    assert p[2] == q[2];
  }

  lemma PathValue(virt: nat)
    ensures PageOf(virt) == PathNumber(PathOf(virt))
  {
    var n := virt / PAGE;
    DivDiv(virt, PAGE, 512);
    DivDiv(virt, PAGE, 0x4_0000);
    DivDiv(virt, PAGE, 0x800_0000);
    ModSplit(n, 512, 0x800_0000);
    ModSplit(n / 512, 512, 0x4_0000);
    ModSplit(n / 0x4_0000, 512, 512);
    DivDiv(n, 512, 512);
    DivDiv(n, 0x4_0000, 512);
  }

  /** Addresses have the same path exactly when they have the same page number. */
  lemma PathInjective(a: nat, b: nat)
    ensures PathOf(a) == PathOf(b) <==> PageOf(a) == PageOf(b)
  {
    PathValue(a);
    PathValue(b);
    if PageOf(a) == PageOf(b) {
      PathNumberInjective(PathOf(a), PathOf(b));
    }
  }
}
