/** PE files as a linker writes them: the fields of headers and section table are
    read back from where they stand. */
module PeFile {
  import opened Bytes
  import opened Pe
  import PostProcess

  /** `t` stands in `s` at offset `i`. */
  predicate Has(s: seq<Byte>, i: nat, t: seq<Byte>)
  {
    i + |t| <= |s| && s[i..i + |t|] == t
  }

  lemma {:induction false} Parts(s: seq<Byte>, i: nat, a: seq<Byte>, b: seq<Byte>)
    requires Has(s, i, a + b)
    ensures Has(s, i, a) && Has(s, i + |a|, b)
  {
    var ab := s[i..i + |a| + |b|];
    assert s[i..i + |a|] == ab[..|a|] == a;
    assert s[i + |a|..i + |a| + |b|] == ab[|a|..] == b;
  }

  lemma {:induction false} ReadWord16(s: seq<Byte>, i: nat, w: Word16)
    requires Has(s, i, Le16(w))
    ensures i + 2 <= |s| && Word16At(s, i) == w
  {
    assert s[i..i + 2][0] == s[i] && s[i..i + 2][1] == s[i + 1];
  }

  lemma {:induction false} ReadWord32(s: seq<Byte>, i: nat, w: Word32)
    requires Has(s, i, Le32(w))
    ensures i + 4 <= |s| && Word32At(s, i) == w
  {
    Parts(s, i, Le16(w % U16), Le16(w / U16));
    ReadWord16(s, i, w % U16);
    ReadWord16(s, i + 2, w / U16);
  }

  // ----- the header

  /** The fields of a PE32+ header that are looked at; `other` is what stands between them. */
  datatype Fields = Fields(
    machine: Word16,
    numberOfSections: Word16,
    optionalHeaderSize: Word16,
    characteristics: Word16,
    magic: Word16,
    entryPoint: Word32,
    imageBaseLow: Word32,
    imageBaseHigh: Word32,
    sectionAlignment: Word32,
    fileAlignment: Word32,
    imageSize: Word32,
    sizeOfHeaders: Word32,
    checkSum: Word32,
    dllCharacteristics: Word16,
    numberOfDirectories: Word32,
    security: Directory,
    relocation: Directory,
    other: seq<seq<Byte>>)

  /** Signature, time stamp and symbols; linker version and sizes; base of code; versions; subsystem;
      stack and heap; the directories before and behind the two. */
  predicate IsHeader(f: Fields)
  {
    && |f.other| == 9 && |f.other[0]| == 2 && |f.other[1]| == 12 && |f.other[2]| == 14 && |f.other[3]| == 4
    && |f.other[4]| == 16 && |f.other[5]| == 2 && |f.other[6]| == 36 && |f.other[7]| == 32 && |f.other[8]| == 80
  }

  function Front(f: Fields): (s: seq<Byte>)
    requires IsHeader(f)
    ensures |s| == 40
  {
    [0x50, 0x45] + (f.other[0] + (Le16(f.machine) + (Le16(f.numberOfSections) + (f.other[1] +
      (Le16(f.optionalHeaderSize) + (Le16(f.characteristics) + (Le16(f.magic) + f.other[2])))))))
  }

  function Middle(f: Fields): (s: seq<Byte>)
    requires IsHeader(f)
    ensures |s| == 56
  {
    Le32(f.entryPoint) + (f.other[3] + (Le32(f.imageBaseLow) + (Le32(f.imageBaseHigh) +
      (Le32(f.sectionAlignment) + (Le32(f.fileAlignment) + (f.other[4] + (Le32(f.imageSize) +
        (Le32(f.sizeOfHeaders) + (Le32(f.checkSum) + (f.other[5] + Le16(f.dllCharacteristics)))))))))))
  }

  function Back(f: Fields): (s: seq<Byte>)
    requires IsHeader(f)
    ensures |s| == 168
  {
    f.other[6] + (Le32(f.numberOfDirectories) + (f.other[7] +
      (Le32(f.security.virtualAddress) + (Le32(f.security.size) +
        (Le32(f.relocation.virtualAddress) + (Le32(f.relocation.size) + f.other[8]))))))
  }

  function EncodeHeader(f: Fields): (s: seq<Byte>)
    requires IsHeader(f)
    ensures |s| == PE32_PLUS_SIZE
  {
    Front(f) + (Middle(f) + Back(f))
  }

  lemma {:induction false} FrontRead(s: seq<Byte>, pe: nat, f: Fields)
    requires IsHeader(f) && Has(s, pe, Front(f))
    ensures pe + 40 <= |s| && Word16At(s, pe) == NT_SIGNATURE
    ensures Word16At(s, pe + 4) == f.machine && Word16At(s, pe + 6) == f.numberOfSections
    ensures Word16At(s, pe + 20) == f.optionalHeaderSize && Word16At(s, pe + 22) == f.characteristics
    ensures Word16At(s, pe + 24) == f.magic
  {
    assert Le16(0x4550) == [0x50, 0x45];
    hide Has, Le16, Word16At;
    var g := Le16(f.magic) + f.other[2];
    var e := Le16(f.optionalHeaderSize) + (Le16(f.characteristics) + g);
    var c := Le16(f.machine) + (Le16(f.numberOfSections) + (f.other[1] + e));
    Parts(s, pe, [0x50, 0x45], f.other[0] + c);
    Parts(s, pe + 2, f.other[0], c);
    Parts(s, pe + 4, Le16(f.machine), Le16(f.numberOfSections) + (f.other[1] + e));
    Parts(s, pe + 6, Le16(f.numberOfSections), f.other[1] + e);
    Parts(s, pe + 8, f.other[1], e);
    Parts(s, pe + 20, Le16(f.optionalHeaderSize), Le16(f.characteristics) + g);
    Parts(s, pe + 22, Le16(f.characteristics), g);
    Parts(s, pe + 24, Le16(f.magic), f.other[2]);
    ReadWord16(s, pe, 0x4550);
    ReadWord16(s, pe + 4, f.machine);
    ReadWord16(s, pe + 6, f.numberOfSections);
    ReadWord16(s, pe + 20, f.optionalHeaderSize);
    ReadWord16(s, pe + 22, f.characteristics);
    ReadWord16(s, pe + 24, f.magic);
  }

  lemma {:induction false} MiddleRead(s: seq<Byte>, at: nat, f: Fields)
    requires IsHeader(f) && Has(s, at, Middle(f))
    ensures at + 56 <= |s| && Word32At(s, at) == f.entryPoint
    ensures Word64At(s, at + 8) == f.imageBaseLow + U32 * f.imageBaseHigh
    ensures Word32At(s, at + 16) == f.sectionAlignment && Word32At(s, at + 20) == f.fileAlignment
    ensures Word32At(s, at + 40) == f.imageSize && Word32At(s, at + 44) == f.sizeOfHeaders
    ensures Word32At(s, at + 48) == f.checkSum && Word16At(s, at + 54) == f.dllCharacteristics
  {
    hide Has, Le16, Le32, Word16At, Word32At;
    var l := f.other[5] + Le16(f.dllCharacteristics);
    var h := Le32(f.imageSize) + (Le32(f.sizeOfHeaders) + (Le32(f.checkSum) + l));
    var e := Le32(f.sectionAlignment) + (Le32(f.fileAlignment) + (f.other[4] + h));
    var c := Le32(f.imageBaseLow) + (Le32(f.imageBaseHigh) + e);
    Parts(s, at, Le32(f.entryPoint), f.other[3] + c);
    Parts(s, at + 4, f.other[3], c);
    Parts(s, at + 8, Le32(f.imageBaseLow), Le32(f.imageBaseHigh) + e);
    Parts(s, at + 12, Le32(f.imageBaseHigh), e);
    Parts(s, at + 16, Le32(f.sectionAlignment), Le32(f.fileAlignment) + (f.other[4] + h));
    Parts(s, at + 20, Le32(f.fileAlignment), f.other[4] + h);
    Parts(s, at + 24, f.other[4], h);
    Parts(s, at + 40, Le32(f.imageSize), Le32(f.sizeOfHeaders) + (Le32(f.checkSum) + l));
    Parts(s, at + 44, Le32(f.sizeOfHeaders), Le32(f.checkSum) + l);
    Parts(s, at + 48, Le32(f.checkSum), l);
    Parts(s, at + 52, f.other[5], Le16(f.dllCharacteristics));
    ReadWord32(s, at, f.entryPoint);
    ReadWord32(s, at + 8, f.imageBaseLow);
    ReadWord32(s, at + 12, f.imageBaseHigh);
    ReadWord32(s, at + 16, f.sectionAlignment);
    ReadWord32(s, at + 20, f.fileAlignment);
    ReadWord32(s, at + 40, f.imageSize);
    ReadWord32(s, at + 44, f.sizeOfHeaders);
    ReadWord32(s, at + 48, f.checkSum);
    ReadWord16(s, at + 54, f.dllCharacteristics);
  }

  lemma {:induction false} BackRead(s: seq<Byte>, at: nat, f: Fields)
    requires IsHeader(f) && Has(s, at, Back(f))
    ensures at + 168 <= |s| && Word32At(s, at + 36) == f.numberOfDirectories
    ensures Word32At(s, at + 72) == f.security.virtualAddress && Word32At(s, at + 76) == f.security.size
    ensures Word32At(s, at + 80) == f.relocation.virtualAddress && Word32At(s, at + 84) == f.relocation.size
  {
    assert at + 168 <= |s|;
    hide Has, Le32, Word32At;
    var g := Le32(f.relocation.virtualAddress) + (Le32(f.relocation.size) + f.other[8]);
    var d := Le32(f.security.virtualAddress) + (Le32(f.security.size) + g);
    Parts(s, at, f.other[6], Le32(f.numberOfDirectories) + (f.other[7] + d));
    Parts(s, at + 36, Le32(f.numberOfDirectories), f.other[7] + d);
    Parts(s, at + 40, f.other[7], d);
    Parts(s, at + 72, Le32(f.security.virtualAddress), Le32(f.security.size) + g);
    Parts(s, at + 76, Le32(f.security.size), g);
    Parts(s, at + 80, Le32(f.relocation.virtualAddress), Le32(f.relocation.size) + f.other[8]);
    Parts(s, at + 84, Le32(f.relocation.size), f.other[8]);
    ReadWord32(s, at + 36, f.numberOfDirectories);
    ReadWord32(s, at + 72, f.security.virtualAddress);
    ReadWord32(s, at + 76, f.security.size);
    ReadWord32(s, at + 80, f.relocation.virtualAddress);
    ReadWord32(s, at + 84, f.relocation.size);
  }

  function Max(a: nat, b: nat): (m: nat) { if a < b then b else a }

  /** The header that is written is the header that is read; alignments of zero get their defaults. */
  lemma {:induction false} HeaderReads(s: seq<Byte>, pe: nat, f: Fields)
    requires IsHeader(f) && Has(s, pe, EncodeHeader(f))
    ensures pe + PE32_PLUS_SIZE <= |s|
    ensures var c := HeaderAt(s, pe);
            && c.peOffset == pe && c.optionalHeaderSize == f.optionalHeaderSize
            && c.imageBase == f.imageBaseLow + U32 * f.imageBaseHigh && c.imageSize == f.imageSize
            && c.entryPoint == f.entryPoint && c.sizeOfHeaders == f.sizeOfHeaders
            && c.numberOfSections == f.numberOfSections && c.numberOfDirectories == f.numberOfDirectories
            && c.dllCharacteristics == f.dllCharacteristics && c.relocDir == f.relocation && c.secDir == f.security
            && c.sectionAlignment == Max(if f.sectionAlignment == 0 then 4096 else f.sectionAlignment,
                                         if f.fileAlignment == 0 then 512 else f.fileAlignment)
    ensures var c := HeaderAt(s, pe);
            && c.CheckSumOffset() + 4 <= |s| && Word32At(s, c.CheckSumOffset()) == f.checkSum
            && c.SecDirOffset() + 8 <= |s| && Word32At(s, c.SecDirOffset()) == f.security.virtualAddress
            && Word32At(s, c.SecDirOffset() + 4) == f.security.size
  {
    Parts(s, pe, Front(f), Middle(f) + Back(f));
    Parts(s, pe + 40, Middle(f), Back(f));
    hide Has, Front, Middle, Back, Word16At, Word32At, Word64At;
    FrontRead(s, pe, f);
    MiddleRead(s, pe + 40, f);
    BackRead(s, pe + 96, f);
  }

  // ----- the section table

  /** A section header: between its fields stand line numbers. */
  function EncodeSection(x: Section, lines: seq<Byte>): (s: seq<Byte>)
    requires |x.name| == 8 && |lines| == 6
    ensures |s| == SECTION_HEADER_SIZE
  {
    x.name + (Le32(x.virtualSize) + (Le32(x.virtualAddress) + (Le32(x.sizeOfRawData) + (Le32(x.pointerToRawData) +
      (Le32(x.pointerToRelocations) + (lines[..4] + (Le16(x.numberOfRelocations) + (lines[4..] +
        Le32(x.characteristics)))))))))
  }

  lemma {:induction false} SectionReads(s: seq<Byte>, at: nat, x: Section, lines: seq<Byte>)
    requires |x.name| == 8 && |lines| == 6 && Has(s, at, EncodeSection(x, lines))
    ensures at + SECTION_HEADER_SIZE <= |s| && SectionAt(s, at) == x
  {
    assert at + SECTION_HEADER_SIZE <= |s|;
    var i := lines[4..] + Le32(x.characteristics);
    var g := lines[..4] + (Le16(x.numberOfRelocations) + i);
    var e := Le32(x.pointerToRawData) + (Le32(x.pointerToRelocations) + g);
    var b := Le32(x.virtualSize) + (Le32(x.virtualAddress) + (Le32(x.sizeOfRawData) + e));
    Parts(s, at, x.name, b);
    assert s[at..at + 8] == x.name;
    hide Has, Le16, Le32, Word16At, Word32At;
    Parts(s, at + 8, Le32(x.virtualSize), Le32(x.virtualAddress) + (Le32(x.sizeOfRawData) + e));
    Parts(s, at + 12, Le32(x.virtualAddress), Le32(x.sizeOfRawData) + e);
    Parts(s, at + 16, Le32(x.sizeOfRawData), e);
    Parts(s, at + 20, Le32(x.pointerToRawData), Le32(x.pointerToRelocations) + g);
    Parts(s, at + 24, Le32(x.pointerToRelocations), g);
    Parts(s, at + 28, lines[..4], Le16(x.numberOfRelocations) + i);
    Parts(s, at + 32, Le16(x.numberOfRelocations), i);
    Parts(s, at + 34, lines[4..], Le32(x.characteristics));
    ReadWord32(s, at + 8, x.virtualSize);
    ReadWord32(s, at + 12, x.virtualAddress);
    ReadWord32(s, at + 16, x.sizeOfRawData);
    ReadWord32(s, at + 20, x.pointerToRawData);
    ReadWord32(s, at + 24, x.pointerToRelocations);
    ReadWord16(s, at + 32, x.numberOfRelocations);
    ReadWord32(s, at + 36, x.characteristics);
  }

  predicate AreSections(xs: seq<Section>)
  {
    forall i :: 0 <= i < |xs| ==> |xs[i].name| == 8
  }

  function EncodeSections(xs: seq<Section>, lines: seq<Byte>): (s: seq<Byte>)
    requires AreSections(xs) && |lines| == 6
    ensures |s| == SECTION_HEADER_SIZE * |xs|
  {
    if xs == [] then [] else EncodeSection(xs[0], lines) + EncodeSections(xs[1..], lines)
  }

  lemma {:induction false} TableReads(s: seq<Byte>, at: nat, xs: seq<Section>, lines: seq<Byte>, i: nat)
    requires AreSections(xs) && |lines| == 6 && Has(s, at, EncodeSections(xs, lines)) && i < |xs|
    ensures at + SECTION_HEADER_SIZE * i + SECTION_HEADER_SIZE <= |s|
    ensures SectionAt(s, at + SECTION_HEADER_SIZE * i) == xs[i]
    decreases |xs|
  {
    hide Has, EncodeSection, SectionAt;
    Parts(s, at, EncodeSection(xs[0], lines), EncodeSections(xs[1..], lines));
    if i == 0 {
      SectionReads(s, at, xs[0], lines);
    } else {
      TableReads(s, at + SECTION_HEADER_SIZE, xs[1..], lines, i - 1);
    }
  }

  /** The sections that are written behind the optional header are the sections that are read. */
  lemma {:induction false} SectionsRead(s: seq<Byte>, c: Context, xs: seq<Section>, lines: seq<Byte>)
    requires AreSections(xs) && |lines| == 6 && c.numberOfSections == |xs|
    requires Has(s, c.peOffset + 24 + c.optionalHeaderSize, EncodeSections(xs, lines))
    ensures TableInside(s, c) && Sections(s, c) == xs
  {
    assert TableInside(s, c);
    hide Has, EncodeSections, SectionAt;
    var at := c.peOffset + 24 + c.optionalHeaderSize;
    forall i | 0 <= i < |xs| ensures Sections(s, c)[i] == xs[i] {
      TableReads(s, at, xs, lines, i);
    }
  }

  // ----- a file

  /** A file with a DOS stub is read from the offset that the stub names, and the header is accepted if and only if
      its fields are those of a loadable 64-bit image whose section table lies in file, headers and image. */
  lemma {:induction false} FileAccepted(s: seq<Byte>, pe: Word32, f: Fields, requireNx: bool)
    requires IsHeader(f) && Has(s, 0, [0x4d, 0x5a]) && Has(s, 60, Le32(pe)) && Has(s, pe, EncodeHeader(f))
    ensures HeaderOk(s, requireNx) <==>
              && 64 <= pe && f.machine == 0x8664 && f.magic == 0x20b
              && f.characteristics % 2 == 0 && f.fileAlignment % 2 == 0
              && f.numberOfDirectories <= 16 && f.optionalHeaderSize == 112 + 8 * f.numberOfDirectories
              && var table := pe + 24 + f.optionalHeaderSize;
              && table + 40 * f.numberOfSections <= |s| && table + 40 * f.numberOfSections <= f.sizeOfHeaders
              && table + 40 * (f.numberOfSections + 1) <= f.imageSize && f.sizeOfHeaders <= f.imageSize
              && (requireNx ==> f.dllCharacteristics / 0x100 % 2 == 1)
  {
    StubRead(s, pe);
    FieldsRead(s, pe, f);
    OkIs(s, pe, requireNx);
    hide Has, Word16At, Word32At, HeaderAt, Le32, EncodeHeader, IsHeader, TableFits, Context.NxCompatible, HeaderOk;
    HeaderReads(s, pe, f);
    var h := HeaderAt(s, pe);
    TableFitsIs(|s|, pe + 24 + f.optionalHeaderSize, h);
    NxIs(h);
  }

  lemma {:induction false} StubRead(s: seq<Byte>, pe: Word32)
    requires Has(s, 0, [0x4d, 0x5a]) && Has(s, 60, Le32(pe))
    ensures 64 <= |s| && Word32At(s, 60) == pe && DosSigned(s) && PeOffset(s) == pe
  {
    assert Le16(0x5a4d) == [0x4d, 0x5a];
    hide Has, Word16At, Word32At, Le16, Le32;
    ReadWord16(s, 0, 0x5a4d);
    ReadWord32(s, 60, pe);
  }

  lemma {:induction false} FieldsRead(s: seq<Byte>, pe: nat, f: Fields)
    requires IsHeader(f) && Has(s, pe, EncodeHeader(f))
    ensures pe + PE32_PLUS_SIZE <= |s| && Word16At(s, pe) == NT_SIGNATURE && Word16At(s, pe + 4) == f.machine
    ensures Word16At(s, pe + 24) == f.magic && Word16At(s, pe + 22) == f.characteristics
    ensures Word32At(s, pe + 60) == f.fileAlignment
  {
    Parts(s, pe, Front(f), Middle(f) + Back(f));
    Parts(s, pe + 40, Middle(f), Back(f));
    hide Has, Front, Middle, Back, Word16At, Word32At;
    FrontRead(s, pe, f);
    MiddleRead(s, pe + 40, f);
  }

  lemma {:induction false} OkIs(s: seq<Byte>, pe: nat, requireNx: bool)
    requires 64 <= |s| && DosSigned(s) && PeOffset(s) == pe == Word32At(s, 60) && pe + PE32_PLUS_SIZE <= |s|
    ensures HeaderOk(s, requireNx) <==>
              && 64 <= pe && Word16At(s, pe) == NT_SIGNATURE && Word16At(s, pe + 4) == X64_MACHINE
              && Word16At(s, pe + 24) == PE32_PLUS_MAGIC
              && Word16At(s, pe + 22) % 2 == 0 && Word32At(s, pe + 60) % 2 == 0
              && var h := HeaderAt(s, pe);
              && h.numberOfDirectories <= DIRECTORY_ENTRIES && h.optionalHeaderSize == 112 + 8 * h.numberOfDirectories
              && TableFits(|s|, pe + 24 + h.optionalHeaderSize, h) && h.sizeOfHeaders <= h.imageSize
              && (requireNx ==> h.NxCompatible())
  {
    hide Word16At, Word32At, HeaderAt, TableFits, Context.NxCompatible;
  }

  lemma TableFitsIs(size: nat, table: nat, h: Context)
    ensures TableFits(size, table, h) <==>
              && table + 40 * h.numberOfSections <= size && table + 40 * h.numberOfSections <= h.sizeOfHeaders
              && table + 40 * (h.numberOfSections + 1) <= h.imageSize
  {
  }

  lemma NxIs(h: Context)
    ensures h.NxCompatible() <==> h.dllCharacteristics / 0x100 % 2 == 1
  {
  }

  // ----- NX validation of post-process-pe.c

  lemma {:induction false} SameWords(m: Memory, i: nat)
    requires i + 2 <= |m.data|
    ensures m.U16At(i) == Word16At(m.data, i)
    ensures i + 4 <= |m.data| ==> m.U32At(i) == Word32At(m.data, i)
  {
  }

  /** A file's header passes the validation if and only if its NX flag is set, both alignments are whole pages, and
      no section is both writable and executable; a file alignment of zero counts as 512. */
  lemma {:induction false} NxIff(m: Memory, pe: nat, f: Fields, xs: seq<Section>, lines: seq<Byte>)
    requires IsHeader(f) && Has(m.data, pe, EncodeHeader(f)) && AreSections(xs) && |lines| == 6
    requires f.numberOfSections == |xs| && Has(m.data, pe + 24 + f.optionalHeaderSize, EncodeSections(xs, lines))
    ensures PostProcess.NxOk(m, pe) <==>
              && f.dllCharacteristics / 0x100 % 2 == 1
              && f.fileAlignment != 0 && f.fileAlignment % 4096 == 0
              && Max(if f.sectionAlignment == 0 then 4096 else f.sectionAlignment, f.fileAlignment) % 4096 == 0
              && forall x :: x in xs ==>
                   !(x.characteristics / 0x8000_0000 % 2 == 1 && x.characteristics / 0x2000_0000 % 2 == 1)
  {
    hide Has, Word16At, Word32At, EncodeHeader, EncodeSections, Memory.U16At, Memory.U32At, PostProcess.WritableCode,
         PostProcess.SectionFlags;
    NxFields(m, pe, f);
    forall i | 0 <= i < |xs|
      ensures PostProcess.SectionFlags(m, pe, i) == xs[i].characteristics
      ensures PostProcess.WritableCode(xs[i].characteristics) <==>
                xs[i].characteristics / 0x8000_0000 % 2 == 1 && xs[i].characteristics / 0x2000_0000 % 2 == 1
    {
      FlagsRead(m, pe, f, xs, lines, i);
      CodeIs(xs[i].characteristics);
    }
    assert (forall x :: x in xs ==>
              !(x.characteristics / 0x8000_0000 % 2 == 1 && x.characteristics / 0x2000_0000 % 2 == 1)) <==>
           (forall i :: 0 <= i < |xs| ==> !PostProcess.WritableCode(PostProcess.SectionFlags(m, pe, i)));
  }

  lemma CodeIs(flags: Word32)
    ensures PostProcess.WritableCode(flags) <==> flags / 0x8000_0000 % 2 == 1 && flags / 0x2000_0000 % 2 == 1
  {
  }

  lemma {:induction false} NxFields(m: Memory, pe: nat, f: Fields)
    requires IsHeader(f) && Has(m.data, pe, EncodeHeader(f))
    ensures m.U16At(pe + 94) == f.dllCharacteristics && m.U16At(pe + 6) == f.numberOfSections
    ensures m.U16At(pe + 20) == f.optionalHeaderSize
    ensures m.U32At(pe + 56) == f.sectionAlignment && m.U32At(pe + 60) == f.fileAlignment
  {
    Parts(m.data, pe, Front(f), Middle(f) + Back(f));
    Parts(m.data, pe + 40, Middle(f), Back(f));
    hide Has, Front, Middle, Back, Word16At, Word32At, Memory.U16At, Memory.U32At;
    FrontRead(m.data, pe, f);
    MiddleRead(m.data, pe + 40, f);
    SameWords(m, pe + 94);
    SameWords(m, pe + 6);
    SameWords(m, pe + 20);
    SameWords(m, pe + 56);
    SameWords(m, pe + 60);
  }

  lemma {:induction false} FlagsRead(m: Memory, pe: nat, f: Fields, xs: seq<Section>, lines: seq<Byte>, i: nat)
    requires IsHeader(f) && Has(m.data, pe, EncodeHeader(f)) && AreSections(xs) && |lines| == 6 && i < |xs|
    requires Has(m.data, pe + 24 + f.optionalHeaderSize, EncodeSections(xs, lines))
    ensures PostProcess.SectionFlags(m, pe, i) == xs[i].characteristics
  {
    hide Has, Word16At, Word32At, EncodeHeader, EncodeSections, Memory.U16At, Memory.U32At;
    NxFields(m, pe, f);
    var at := pe + 24 + f.optionalHeaderSize;
    TableReads(m.data, at, xs, lines, i);
    SameWords(m, at + 40 * i + 36);
  }

  /** The security directory is in order if and only if it starts in the file, or is empty and starts at its end. */
  lemma {:induction false} DirectoryInside(s: seq<Byte>, pe: nat, f: Fields)
    requires IsHeader(f) && Has(s, pe, EncodeHeader(f))
    ensures pe + PE32_PLUS_SIZE <= |s|
    ensures SecDirInside(s, HeaderAt(s, pe)) <==>
              f.security.virtualAddress < |s| || (f.security.virtualAddress == |s| && f.security.size == 0)
  {
    hide Has, EncodeHeader, HeaderAt;
    HeaderReads(s, pe, f);
  }
}
