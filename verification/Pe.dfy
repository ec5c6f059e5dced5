/** PE headers as pe-relocate.c reads them (64-bit images on a 64-bit machine). */
module Pe {
  import opened Bytes

  // ----- layout

  const DOS_HEADER_SIZE := 64
  const DOS_SIGNATURE := 0x5a4d
  const NT_SIGNATURE := 0x4550
  const X64_MACHINE := 0x8664
  const PE32_PLUS_MAGIC := 0x20b
  const PE32_SIZE := 248
  const PE32_PLUS_SIZE := 264
  const SECTION_HEADER_SIZE := 40
  const DIRECTORY_ENTRIES := 16
  const PAGE_SIZE := 4096

  datatype Directory = Directory(virtualAddress: Word32, size: Word32)

  datatype Section = Section(
    name: seq<Byte>,
    virtualSize: Word32,
    virtualAddress: Word32,
    sizeOfRawData: Word32,
    pointerToRawData: Word32,
    pointerToRelocations: Word32,
    numberOfRelocations: Word16,
    characteristics: Word32)
  {
    predicate Code() { characteristics / 0x20 % 2 == 1 }
    predicate Initialized() { characteristics / 0x40 % 2 == 1 }
    predicate Uninitialized() { characteristics / 0x80 % 2 == 1 }
    predicate Discardable() { characteristics / 0x0200_0000 % 2 == 1 }
    predicate Executable() { characteristics / 0x2000_0000 % 2 == 1 }
    predicate Readable() { characteristics / 0x4000_0000 % 2 == 1 }
    predicate Writable() { characteristics / 0x8000_0000 % 2 == 1 }
  }

  datatype Context = Context(
    peOffset: nat,
    optionalHeaderSize: Word16,
    imageBase: nat,
    imageSize: Word32,
    entryPoint: Word32,
    sizeOfHeaders: Word32,
    sectionAlignment: Word32,
    numberOfSections: Word16,
    numberOfDirectories: Word32,
    dllCharacteristics: Word16,
    relocDir: Directory,
    secDir: Directory)
  {
    function FirstSection(): (i: nat) { peOffset + 24 + optionalHeaderSize }
    function CheckSumOffset(): (i: nat) { peOffset + 88 }
    function SecDirOffset(): (i: nat) { peOffset + 168 }
    predicate NxCompatible() { dllCharacteristics / 0x100 % 2 == 1 }
  }

  function SectionAt(data: seq<Byte>, i: nat): (s: Section)
    requires i + SECTION_HEADER_SIZE <= |data|
  {
    Section(data[i..i + 8], Word32At(data, i + 8), Word32At(data, i + 12), Word32At(data, i + 16),
            Word32At(data, i + 20), Word32At(data, i + 24), Word16At(data, i + 32), Word32At(data, i + 36))
  }

  predicate DosSigned(data: seq<Byte>)
  {
    DOS_HEADER_SIZE <= |data| && Word16At(data, 0) == DOS_SIGNATURE
  }

  /** The section table lies in the file. */
  predicate TableInside(data: seq<Byte>, c: Context)
  {
    c.FirstSection() + SECTION_HEADER_SIZE * c.numberOfSections <= |data|
  }

  function Sections(data: seq<Byte>, c: Context): (ss: seq<Section>)
    requires TableInside(data, c)
    ensures |ss| == c.numberOfSections
  {
    seq(c.numberOfSections, k requires 0 <= k < c.numberOfSections =>
          SectionAt(data, c.FirstSection() + SECTION_HEADER_SIZE * k))
  }

  // ----- bounds checks

  /** An offset into a buffer of the given size, or NULL. */
  function ImageAddress(size: nat, address: nat): (p: Option<nat>)
    ensures p.Some? <==> address < size
    ensures p.Some? ==> p.value == address
  {
    if size <= address then None else Some(address)
  }

  /** Pointer comparison; NULL is below every address of a buffer. */
  predicate Below(p: Option<nat>, q: Option<nat>)
  {
    q.Some? && (p.None? || p.value < q.value)
  }

  /** The last byte of a section, in the 32-bit arithmetic of the source. */
  function LastByte(s: Section): (a: Word32)
  {
    (s.virtualAddress + s.virtualSize - 1) % U32
  }

  function GetSectionVma(c: Context, s: Section): (status: Status)
  {
    var base := ImageAddress(c.imageSize, s.virtualAddress);
    var end := ImageAddress(c.imageSize, LastByte(s));
    if !s.Discardable() && (base.None? || end.None?) then Unsupported
    else if !s.Uninitialized() &&
            (s.virtualAddress < c.sizeOfHeaders || s.pointerToRawData < c.sizeOfHeaders) then Unsupported
    else if Below(end, base) then Unsupported
    else Success
  }

  /** The `end < base` test leaves no room for a 32-bit wrap: a section that
      passes it with both ends inside the image lies inside the image. */
  lemma {:induction false} NoWrap(c: Context, s: Section)
    requires ImageAddress(c.imageSize, s.virtualAddress).Some?
    requires !Below(ImageAddress(c.imageSize, LastByte(s)), ImageAddress(c.imageSize, s.virtualAddress))
    ensures 1 <= s.virtualSize && s.virtualAddress + s.virtualSize <= c.imageSize
  {
    var last := s.virtualAddress + s.virtualSize - 1;
    assert LastByte(s) == if last < 0 then last + U32 else if last < U32 then last else last - U32;
  }

  // ----- read_header

  /** The fields of a 64-bit PE header at `pe`, with the alignment defaults. */
  function HeaderAt(data: seq<Byte>, pe: nat): (c: Context)
    requires pe + PE32_PLUS_SIZE <= |data|
    ensures c.peOffset == pe && 0 < c.sectionAlignment
  {
    var fileAlignment := if Word32At(data, pe + 60) == 0 then 0x200 else Word32At(data, pe + 60);
    var alignment := if Word32At(data, pe + 56) == 0 then PAGE_SIZE else Word32At(data, pe + 56);
    Context(
      peOffset := pe,
      optionalHeaderSize := Word16At(data, pe + 20),
      imageBase := Word64At(data, pe + 48),
      imageSize := Word32At(data, pe + 80),
      entryPoint := Word32At(data, pe + 40),
      sizeOfHeaders := Word32At(data, pe + 84),
      sectionAlignment := if alignment < fileAlignment then fileAlignment else alignment,
      numberOfSections := Word16At(data, pe + 6),
      numberOfDirectories := Word32At(data, pe + 132),
      dllCharacteristics := Word16At(data, pe + 94),
      relocDir := Directory(Word32At(data, pe + 176), Word32At(data, pe + 180)),
      secDir := Directory(Word32At(data, pe + 168), Word32At(data, pe + 172)))
  }

  /** What an accepted header promises about the file. */
  ghost predicate HeaderFacts(data: seq<Byte>, c: Context)
  {
    && c.peOffset + PE32_PLUS_SIZE <= |data|
    && c == HeaderAt(data, c.peOffset)
    && c.sizeOfHeaders <= c.imageSize
    && c.numberOfDirectories <= DIRECTORY_ENTRIES
    && c.optionalHeaderSize == 112 + 8 * c.numberOfDirectories
    && 0 < c.sectionAlignment
    && (DosSigned(data) ==>
          && c.peOffset == Word32At(data, 60) >= DOS_HEADER_SIZE
          && TableInside(data, c)
          && c.FirstSection() + SECTION_HEADER_SIZE * c.numberOfSections <= c.sizeOfHeaders)
  }

  predicate SecDirInside(data: seq<Byte>, c: Context)
  {
    c.secDir.virtualAddress < |data| || (c.secDir.virtualAddress == |data| && c.secDir.size == 0)
  }

  /** Where the PE header stands: behind the DOS stub, if there is one. */
  function PeOffset(data: seq<Byte>): (pe: nat)
    requires DOS_HEADER_SIZE <= |data|
  {
    if DosSigned(data) then Word32At(data, 60) else 0
  }

  /** The section table, which the checks place behind the DOS header's offset
      even in a file without DOS signature. */
  function TableOffset(data: seq<Byte>, c: Context): (i: nat)
    requires DOS_HEADER_SIZE <= |data|
  {
    Word32At(data, 60) + 24 + c.optionalHeaderSize
  }

  predicate TableFits(size: nat, table: nat, h: Context)
  {
    && table + SECTION_HEADER_SIZE * h.numberOfSections <= Min(size, h.sizeOfHeaders)
    && table + SECTION_HEADER_SIZE * (h.numberOfSections + 1) <= h.imageSize
  }

  /** Exactly the headers that are accepted, up to the security directory. */
  predicate HeaderOk(data: seq<Byte>, requireNx: bool)
  {
    && DOS_HEADER_SIZE <= |data| && (DosSigned(data) ==> DOS_HEADER_SIZE <= Word32At(data, 60))
    && var pe := PeOffset(data);
    && pe + PE32_PLUS_SIZE <= |data|
    && var h := HeaderAt(data, pe);
    && Word16At(data, pe) == NT_SIGNATURE && Word16At(data, pe + 4) == X64_MACHINE
    && Word16At(data, pe + 24) == PE32_PLUS_MAGIC
    && Word16At(data, pe + 22) % 2 == 0 && Word32At(data, pe + 60) % 2 == 0
    && h.numberOfDirectories <= DIRECTORY_ENTRIES && h.optionalHeaderSize == 112 + 8 * h.numberOfDirectories
    && TableFits(|data|, TableOffset(data, h), h) && h.sizeOfHeaders <= h.imageSize
    && (requireNx ==> h.NxCompatible())
  }

  lemma {:induction false} OkFacts(data: seq<Byte>, requireNx: bool)
    requires HeaderOk(data, requireNx)
    ensures HeaderFacts(data, HeaderAt(data, PeOffset(data)))
  {
    hide HeaderAt, Word16At, Word32At;
  }

  /** An accepted header is the one in the file; of the checks on the section
      table, the optional header and the directory entry, `HeaderOk` names those
      that the others do not imply. */
  method ReadHeader(data: seq<Byte>, checkSecDir: bool, requireNx: bool) returns (status: Status, c: Option<Context>)
    requires |data| < U32
    ensures status == if !HeaderOk(data, requireNx) then Unsupported
                      else if checkSecDir && !SecDirInside(data, HeaderAt(data, PeOffset(data))) then InvalidParameter
                      else Success
    ensures c == if status.Success? then Some(HeaderAt(data, PeOffset(data))) else None
    ensures c.Some? ==> HeaderFacts(data, c.value)
  {
    hide HeaderAt, HeaderFacts, Word16At, Word32At, TableFits;
    c := None;
    if |data| < DOS_HEADER_SIZE {
      return Unsupported, None;
    }
    var lfanew := Word32At(data, 60);
    var pe := 0;
    if Word16At(data, 0) == DOS_SIGNATURE {
      if lfanew < DOS_HEADER_SIZE || |data| - 4 < lfanew {
        return Unsupported, None;
      }
      pe := lfanew;
    }
    if |data| - pe < PE32_SIZE {
      return Unsupported, None;
    }
    var magic := Word16At(data, pe + 24);
    if magic == PE32_PLUS_MAGIC && |data| - pe < PE32_PLUS_SIZE {
      return Unsupported, None;
    }
    // image_is_loadable, for a 64-bit x86 loader without 32-bit support
    if Word16At(data, pe + 4) != X64_MACHINE || magic != PE32_PLUS_MAGIC {
      return Unsupported, None;
    }
    var h := HeaderAt(data, pe);
    if Word32At(data, pe + 60) % 2 != 0 || DIRECTORY_ENTRIES < h.numberOfDirectories {
      return Unsupported, None;
    }
    if h.optionalHeaderSize < 112 || h.optionalHeaderSize - 112 != 8 * h.numberOfDirectories {
      return Unsupported, None;
    }
    status := CheckTable(|data|, lfanew + 4 + 20 + h.optionalHeaderSize, h);
    if !status.Success? {
      return status, None;
    }
    // only the low half of the signature is compared
    if Word16At(data, pe) != NT_SIGNATURE || Word16At(data, pe + 22) % 2 == 1 {
      return Unsupported, None;
    }
    if requireNx && !h.NxCompatible() {
      return Unsupported, None;
    }
    if |data| < h.FirstSection() || h.imageSize < h.sizeOfHeaders || |data| - 8 < h.SecDirOffset() {
      return Unsupported, None;
    }
    if checkSecDir && (|data| < h.secDir.virtualAddress || (h.secDir.virtualAddress == |data| && 0 < h.secDir.size)) {
      return InvalidParameter, None;
    }
    OkFacts(data, requireNx);
    return Success, Some(h);
  }

  /** The section table against the image, the headers and the file; the
      divisions of the source amount to `TableFits`. */
  method CheckTable(size: nat, table: nat, h: Context) returns (status: Status)
    ensures status == if TableFits(size, table, h) then Success else Unsupported
  {
    if h.imageSize < table || (h.imageSize - table) / SECTION_HEADER_SIZE <= h.numberOfSections {
      return Unsupported;
    }
    if h.sizeOfHeaders < table || (h.sizeOfHeaders - table) / SECTION_HEADER_SIZE < h.numberOfSections {
      return Unsupported;
    }
    if size < h.numberOfSections * SECTION_HEADER_SIZE + table {
      return Unsupported;
    }
    return Success;
  }
}
