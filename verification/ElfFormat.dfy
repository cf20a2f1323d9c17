/** Headers laid out as ELF64 asks, and what the loader reads from them. */
module ElfFormat {
  import opened Ram
  import opened Elf

  /** A field of a record: its value and its width in bytes. */
  datatype Entry = Entry(value: nat, width: nat)

  predicate Fits(fs: seq<Entry>) {
    forall i :: 0 <= i < |fs| ==> fs[i].value < Limit(fs[i].width)
  }

  /** The fields one after the other, least significant byte first. */
  function Layout(fs: seq<Entry>): seq<Byte> {
    if fs == [] then [] else Layout(fs[..|fs| - 1]) + ToBytes(fs[|fs| - 1].value, fs[|fs| - 1].width)
  }

  function Offset(fs: seq<Entry>, i: nat): nat
    requires i <= |fs|
  {
    if i == 0 then 0 else Offset(fs, i - 1) + fs[i - 1].width
  }

  lemma {:induction false} LayoutLength(fs: seq<Entry>, i: nat)
    requires i <= |fs|
    ensures |Layout(fs[..i])| == Offset(fs, i)
  {
    if i == 0 {
    } else {
      LayoutLength(fs, i - 1);
      assert fs[..i][..i - 1] == fs[..i - 1];
    }
  }

  lemma Prefix(a: seq<Byte>, b: seq<Byte>, o: nat, w: nat)
    requires o + w <= |a|
    ensures (a + b)[o..o + w] == a[o..o + w]
  {
  }

  lemma Suffix(a: seq<Byte>, b: seq<Byte>)
    ensures (a + b)[|a|..|a| + |b|] == b
  {
  }

  /** Every field is read back from its offset. */
  lemma {:induction false} FieldRead(fs: seq<Entry>, n: nat, i: nat)
    requires Fits(fs) && i < n <= |fs|
    ensures Offset(fs, i) + fs[i].width <= |Layout(fs[..n])|
    ensures Field(Layout(fs[..n]), Offset(fs, i), fs[i].width) == fs[i].value
    decreases n
  {
    hide ToBytes, FromBytes;
    var o, w, rest := Offset(fs, i), fs[i].width, Layout(fs[..n - 1]);
    assert fs[..n][..n - 1] == fs[..n - 1];
    if i == n - 1 {
      LayoutLength(fs, i);
      BytesRoundTrip(fs[i].value, w);
      Suffix(rest, ToBytes(fs[i].value, w));
    } else {
      FieldRead(fs, n - 1, i);
      Prefix(rest, ToBytes(fs[n - 1].value, fs[n - 1].width), o, w);
    }
  }

  lemma SliceOf(image: seq<Byte>, start: nat, part: seq<Byte>, o: nat, w: nat)
    requires start + |part| <= |image| && image[start..start + |part|] == part && o + w <= |part|
    ensures image[start + o..start + o + w] == part[o..o + w]
  {
    var l, r := image[start + o..start + o + w], part[o..o + w];
    forall j | 0 <= j < w ensures l[j] == r[j] {
      assert image[start..start + |part|][o + j] == image[start + o + j];
    }
  }

  lemma FieldIn(image: seq<Byte>, start: nat, fs: seq<Entry>, i: nat)
    requires Fits(fs) && i < |fs| && start + |Layout(fs)| <= |image|
    requires image[start..start + |Layout(fs)|] == Layout(fs)
    ensures Offset(fs, i) + fs[i].width <= |Layout(fs)|
    ensures Field(image, start + Offset(fs, i), fs[i].width) == fs[i].value
  {
    hide Layout, Offset, Fits, FromBytes;
    FieldRead(fs, |fs|, i);
    assert fs[..|fs|] == fs;
    SliceOf(image, start, Layout(fs), Offset(fs, i), fs[i].width);
  }

  // ---------------------------------------------------------------- program headers

  /** Elf64_Phdr. */
  datatype ProgramHeader = ProgramHeader(kind: nat, flags: nat, offset: nat, vaddr: nat, paddr: nat, filesz: nat,
                                         memsz: nat, align: nat)

  function ProgramFields(p: ProgramHeader): (fs: seq<Entry>) {
    [Entry(p.kind, 4), Entry(p.flags, 4), Entry(p.offset, 8), Entry(p.vaddr, 8), Entry(p.paddr, 8), Entry(p.filesz, 8),
     Entry(p.memsz, 8), Entry(p.align, 8)]
  }

  lemma ProgramOffsets(p: ProgramHeader)
    ensures var fs := ProgramFields(p);
      && Offset(fs, 0) == 0 && Offset(fs, 1) == 4 && Offset(fs, 2) == 8 && Offset(fs, 3) == 16 && Offset(fs, 4) == 24
      && Offset(fs, 5) == 32 && Offset(fs, 6) == 40 && Offset(fs, 7) == 48 && |Layout(fs)| == PHDR_SIZE
  {
    var fs := ProgramFields(p);
    assert Offset(fs, 1) == 4;
    assert Offset(fs, 2) == 8;
    assert Offset(fs, 3) == 16;
    assert Offset(fs, 4) == 24;
    assert Offset(fs, 5) == 32;
    assert Offset(fs, 6) == 40;
    assert Offset(fs, 7) == 48;
    LayoutLength(fs, 8);
    assert fs[..8] == fs;
  }

  /** The loader reads a program header as it was written. */
  lemma SegmentRead(image: seq<Byte>, start: nat, p: ProgramHeader)
    requires Fits(ProgramFields(p)) && start + PHDR_SIZE <= |image|
    requires image[start..start + PHDR_SIZE] == Layout(ProgramFields(p))
    ensures SegmentAt(image, start) == Segment(p.kind, p.flags, p.offset, p.vaddr, p.filesz, p.memsz)
  {
    hide Field, Layout, Offset, Fits;
    ProgramOffsets(p);
    var fs := ProgramFields(p);
    FieldIn(image, start, fs, 0);
    FieldIn(image, start, fs, 1);
    FieldIn(image, start, fs, 2);
    FieldIn(image, start, fs, 3);
    FieldIn(image, start, fs, 5);
    FieldIn(image, start, fs, 6);
  }

  // ---------------------------------------------------------------- the file header

  /** Elf64_Ehdr; of its 16 identification bytes, the magic number as one word, the class, and the rest. */
  datatype FileHeader = FileHeader(magic: nat, class_: nat, ident: nat, padding: nat, kind: nat, machine: nat,
                                   version: nat, entry: nat, phoff: nat, shoff: nat, flags: nat, ehsize: nat,
                                   phentsize: nat, phnum: nat, shentsize: nat, shnum: nat, shstrndx: nat)

  function HeaderFields(h: FileHeader): (fs: seq<Entry>) {
    [Entry(h.magic, 4), Entry(h.class_, 1), Entry(h.ident, 3), Entry(h.padding, 8), Entry(h.kind, 2),
     Entry(h.machine, 2), Entry(h.version, 4), Entry(h.entry, 8), Entry(h.phoff, 8), Entry(h.shoff, 8),
     Entry(h.flags, 4), Entry(h.ehsize, 2), Entry(h.phentsize, 2), Entry(h.phnum, 2), Entry(h.shentsize, 2),
     Entry(h.shnum, 2), Entry(h.shstrndx, 2)]
  }

  lemma HeaderOffsets(h: FileHeader)
    ensures var fs := HeaderFields(h);
      && Offset(fs, 0) == 0 && Offset(fs, 1) == 4 && Offset(fs, 5) == 18 && Offset(fs, 7) == 24 && Offset(fs, 8) == 32
      && Offset(fs, 12) == 54 && Offset(fs, 13) == 56 && |Layout(fs)| == HEADER_SIZE
  {
    var fs := HeaderFields(h);
    assert Offset(fs, 1) == 4;
    assert Offset(fs, 2) == 5;
    assert Offset(fs, 3) == 8;
    assert Offset(fs, 4) == 16;
    assert Offset(fs, 5) == 18;
    assert Offset(fs, 6) == 20;
    assert Offset(fs, 7) == 24;
    assert Offset(fs, 8) == 32;
    assert Offset(fs, 9) == 40;
    assert Offset(fs, 10) == 48;
    assert Offset(fs, 11) == 52;
    assert Offset(fs, 12) == 54;
    assert Offset(fs, 13) == 56;
    assert Offset(fs, 14) == 58;
    assert Offset(fs, 15) == 60;
    assert Offset(fs, 16) == 62;
    LayoutLength(fs, 17);
    assert fs[..17] == fs;
  }

  /** The bytes 7f 45 4c 46. */
  const ELF_MAGIC: nat := 0x464C_457F
  const ELFCLASS64: nat := 2
  const EM_X86_64: nat := 62

  /** The loader accepts exactly the headers of 64-bit x86-64 files with program headers of the right size, and reads
      the entry point and where and how many the program headers are as they were written. */
  lemma HeaderRead(image: seq<Byte>, h: FileHeader)
    requires Fits(HeaderFields(h)) && |image| >= HEADER_SIZE && image[..HEADER_SIZE] == Layout(HeaderFields(h))
    ensures HeaderOk(image)
            <==> h.magic == ELF_MAGIC && h.class_ == ELFCLASS64 && h.machine == EM_X86_64 && h.phentsize == PHDR_SIZE
    ensures SegmentCount(image) == h.phnum && Field(image, 24, 8) == h.entry
    ensures forall i: nat :: SegmentStart(image, i) == h.phoff + i * PHDR_SIZE
  {
    hide Field, Layout, Offset, Fits;
    HeaderOffsets(h);
    var fs := HeaderFields(h);
    assert image[0..0 + HEADER_SIZE] == Layout(fs);
    FieldIn(image, 0, fs, 0);
    FieldIn(image, 0, fs, 1);
    FieldIn(image, 0, fs, 5);
    FieldIn(image, 0, fs, 7);
    FieldIn(image, 0, fs, 8);
    FieldIn(image, 0, fs, 12);
    FieldIn(image, 0, fs, 13);
    MagicBytes(image);
    OneByte(image, 4);
  }

  lemma OneByte(image: seq<Byte>, at: nat)
    requires at < |image|
    ensures Field(image, at, 1) == image[at]
  {
    assert image[at..at + 1] == [image[at]];
    assert FromBytes([image[at]][1..]) == 0;
  }

  lemma MagicBytes(image: seq<Byte>)
    requires |image| >= 4
    ensures Field(image, 0, 4) == ELF_MAGIC
            <==> image[0] == 0x7F && image[1] == 0x45 && image[2] == 0x4C && image[3] == 0x46
  {
    var s := image[0..4];
    var b, c, d: int := s[1], s[2], s[3];
    assert s[1..][1..][1..][1..] == [];
    assert FromBytes(s[1..][1..][1..]) == d;
    assert FromBytes(s[1..][1..]) == c + 256 * d;
    assert FromBytes(s[1..]) == b + 256 * (c + 256 * d);
  }
}
