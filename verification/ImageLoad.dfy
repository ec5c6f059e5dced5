/** The loading half of `handle_image`: memory is allocated, headers and sections
    are copied from the file to their virtual addresses, and the result is relocated. */
module ImageLoad {
  import opened Bytes
  import opened Pe
  import opened Authenticode
  import Relocate

  const RELOC_NAME: seq<Byte> := [0x2e, 0x72, 0x65, 0x6c, 0x6f, 0x63, 0, 0]

  function Base(c: Context, x: Section): (p: Option<nat>) { ImageAddress(c.imageSize, x.virtualAddress) }

  function End(c: Context, x: Section): (p: Option<nat>) { ImageAddress(c.imageSize, LastByte(x)) }

  /** Sections the loader looks at: readable, and not discardable and empty. */
  predicate Considered(x: Section)
  {
    x.Readable() && !(x.Discardable() && x.virtualSize == 0)
  }

  predicate Copied(x: Section) { Considered(x) && !x.Discardable() }

  predicate IsReloc(x: Section) { x.name == RELOC_NAME }

  /** The relocation directory starts where the section does and ends inside it. */
  predicate RelocMatches(c: Context, x: Section)
  {
    var last := ImageAddress(c.imageSize, (c.relocDir.virtualAddress + c.relocDir.size - 1) % U32);
    && x.sizeOfRawData != 0 && x.virtualSize != 0 && Base(c, x).Some? && End(c, x).Some?
    && ImageAddress(c.imageSize, c.relocDir.virtualAddress) == Base(c, x)
    && !Below(End(c, x), last)
  }

  /** The checks one considered section must pass. */
  predicate Passes(c: Context, x: Section, requireNx: bool)
  {
    && !(requireNx && !x.Discardable() && x.Writable() && x.Executable())
    && !Below(End(c, x), Base(c, x))
    && (IsReloc(x) ==> RelocMatches(c, x))
    && (!x.Discardable() ==>
          && Base(c, x).Some? && End(c, x).Some?
          && (x.Uninitialized() || (c.sizeOfHeaders <= x.virtualAddress && c.sizeOfHeaders <= x.pointerToRawData)))
  }

  ghost predicate Loadable(c: Context, ss: seq<Section>, requireNx: bool)
  {
    && (forall i :: 0 <= i < |ss| && Considered(ss[i]) ==> Passes(c, ss[i], requireNx))
    && (forall i, j :: 0 <= i < j < |ss| && Considered(ss[i]) && Considered(ss[j]) ==>
         !(IsReloc(ss[i]) && IsReloc(ss[j])))
  }

  /** Bytes taken from the file for a section: its raw data, cut to its size. */
  function Taken(x: Section): (n: nat)
  {
    if x.Uninitialized() then 0 else Min(x.virtualSize, x.sizeOfRawData)
  }

  /** Every copy reads inside the file and writes inside the image. */
  lemma {:induction false} CopiesStayInside(data: seq<Byte>, c: Context, ss: seq<Section>, i: nat, requireNx: bool)
    requires Accepted(data, c, ss) && i < |ss| && Copied(ss[i]) && Passes(c, ss[i], requireNx)
    ensures 1 <= ss[i].virtualSize && ss[i].virtualAddress + ss[i].virtualSize <= c.imageSize
    ensures 0 < Taken(ss[i]) ==> ss[i].pointerToRawData + Taken(ss[i]) <= |data|
    ensures c.sizeOfHeaders <= |data|
  {
    NoWrap(c, ss[i]);
    assert RawInside(data, ss[i]);
  }

  /** A section as it appears in memory: its raw data, zero-extended. */
  function Content(data: seq<Byte>, x: Section): (s: seq<Byte>)
    requires 0 < Taken(x) ==> x.pointerToRawData + Taken(x) <= |data|
    ensures |s| == x.virtualSize
  {
    (if Taken(x) == 0 then [] else data[x.pointerToRawData..x.pointerToRawData + Taken(x)]) +
    Zeros(x.virtualSize - Taken(x))
  }

  function Place(image: seq<Byte>, at: nat, s: seq<Byte>): (r: seq<Byte>)
    requires at + |s| <= |image|
    ensures |r| == |image|
    ensures forall k :: 0 <= k < |image| ==> r[k] == if at <= k < at + |s| then s[k - at] else image[k]
  {
    image[..at] + s + image[at + |s|..]
  }

  /** Where a section may be placed. */
  predicate Fits(data: seq<Byte>, size: nat, x: Section)
  {
    && x.virtualAddress + x.virtualSize <= size
    && (0 < Taken(x) ==> x.pointerToRawData + Taken(x) <= |data|)
  }

  predicate AllFit(data: seq<Byte>, size: nat, ss: seq<Section>)
  {
    forall i :: 0 <= i < |ss| ==> Copied(ss[i]) ==> Fits(data, size, ss[i])
  }

  function PlaceAll(image: seq<Byte>, data: seq<Byte>, ss: seq<Section>): (r: seq<Byte>)
    requires AllFit(data, |image|, ss)
    ensures |r| == |image|
  {
    if ss == [] then image
    else
      var front, x := ss[..|ss| - 1], ss[|ss| - 1];
      var before := PlaceAll(image, data, front);
      if Copied(x) then Place(before, x.virtualAddress, Content(data, x)) else before
  }

  predicate Apart(x: Section, y: Section)
  {
    x.virtualAddress + x.virtualSize <= y.virtualAddress || y.virtualAddress + y.virtualSize <= x.virtualAddress
  }

  predicate Uncovered(ss: seq<Section>, i: nat)
    requires i < |ss|
  {
    forall j :: i < j < |ss| && Copied(ss[j]) ==> Apart(ss[i], ss[j])
  }

  /** A section that no later one overlaps stands in memory as its content. */
  lemma {:induction false} SectionReadsBack(image: seq<Byte>, data: seq<Byte>, ss: seq<Section>, i: nat)
    requires AllFit(data, |image|, ss)
    requires i < |ss| && Copied(ss[i])
    requires Uncovered(ss, i)
    ensures PlaceAll(image, data, ss)[ss[i].virtualAddress..ss[i].virtualAddress + ss[i].virtualSize] ==
              Content(data, ss[i])
  {
    if i < |ss| - 1 {
      SectionReadsBack(image, data, ss[..|ss| - 1], i);
    }
  }

  /** Bytes outside every copied section keep what was there before. */
  lemma {:induction false} RestUntouched(image: seq<Byte>, data: seq<Byte>, ss: seq<Section>, k: nat)
    requires AllFit(data, |image|, ss)
    requires k < |image|
    requires forall j :: 0 <= j < |ss| && Copied(ss[j]) ==>
               !(ss[j].virtualAddress <= k < ss[j].virtualAddress + ss[j].virtualSize)
    ensures PlaceAll(image, data, ss)[k] == image[k]
  {
    if ss != [] {
      RestUntouched(image, data, ss[..|ss| - 1], k);
    }
  }

  /** Fills one section in place: raw bytes, then zeros. */
  method FillSection(data: seq<Byte>, image: array<Byte>, x: Section)
    requires Fits(data, image.Length, x)
    modifies image
    ensures image[..] == Place(old(image[..]), x.virtualAddress, Content(data, x))
  {
    var at := x.virtualAddress;
    var size := Taken(x);
    forall k | 0 <= k < size {
      image[at + k] := data[x.pointerToRawData + k];
    }
    forall k | size <= k < x.virtualSize {
      image[at + k] := 0;
    }
    assert image[..] == Place(old(image[..]), at, Content(data, x));
  }

  /** How many considered sections hold the entry point before their last byte. */
  function EntryCount(c: Context, ss: seq<Section>): (n: nat)
  {
    if ss == [] then 0
    else
      var x := ss[|ss| - 1];
      EntryCount(c, ss[..|ss| - 1]) +
      if Considered(x) && x.virtualAddress <= c.entryPoint < LastByte(x) then 1 else 0
  }

  ghost predicate RelocSeen(ss: seq<Section>)
  {
    exists k :: 0 <= k < |ss| && Considered(ss[k]) && IsReloc(ss[k])
  }

  /** The relocation section the loader ends up with. */
  function RelocOf(ss: seq<Section>): (r: Option<Section>)
  {
    if ss == [] then None
    else
      var x := ss[|ss| - 1];
      if Considered(x) && IsReloc(x) then Some(x) else RelocOf(ss[..|ss| - 1])
  }

  /** One more section keeps the table loadable when it passes, and is not a
      second relocation section. */
  lemma {:induction false} LoadableStep(c: Context, ss: seq<Section>, i: nat, requireNx: bool)
    requires i < |ss|
    ensures ss[..i + 1][..i] == ss[..i]
    ensures Loadable(c, ss[..i + 1], requireNx) <==>
              Loadable(c, ss[..i], requireNx) &&
              (Considered(ss[i]) ==> Passes(c, ss[i], requireNx) && !(IsReloc(ss[i]) && RelocSeen(ss[..i])))
    ensures RelocSeen(ss[..i + 1]) <==> RelocSeen(ss[..i]) || (Considered(ss[i]) && IsReloc(ss[i]))
    ensures RelocOf(ss[..i + 1]) == if Considered(ss[i]) && IsReloc(ss[i]) then Some(ss[i]) else RelocOf(ss[..i])
    ensures Loadable(c, ss, requireNx) ==> Loadable(c, ss[..i + 1], requireNx)
  {
    hide Considered, Passes, IsReloc;
    var s, s' := ss[..i], ss[..i + 1];
    assert forall k :: 0 <= k < i ==> s'[k] == s[k] && s[k] == ss[k];
    assert s'[i] == ss[i];
  }

  /** The checks in the order of the source; every failure is the same error. */
  method CheckSection(c: Context, x: Section, requireNx: bool, relocSeen: bool) returns (ok: bool)
    requires Considered(x)
    ensures ok <==> Passes(c, x, requireNx) && !(IsReloc(x) && relocSeen)
  {
    if !x.Discardable() && x.Writable() && x.Executable() && requireNx {
      return false;
    }
    var base := ImageAddress(c.imageSize, x.virtualAddress);
    var end := ImageAddress(c.imageSize, (x.virtualAddress + x.virtualSize - 1) % U32);
    if Below(end, base) {
      return false;
    }
    if x.name == RELOC_NAME {
      if relocSeen {
        return false;
      }
      var relocBase := ImageAddress(c.imageSize, c.relocDir.virtualAddress);
      var relocEnd := ImageAddress(c.imageSize, (c.relocDir.virtualAddress + c.relocDir.size - 1) % U32);
      if !(x.sizeOfRawData != 0 && x.virtualSize != 0 && base.Some? && end.Some? && relocBase == base
           && !Below(end, relocEnd)) {
        return false;
      }
    }
    if x.Discardable() {
      return true;
    }
    if base.None? || end.None? {
      return false;
    }
    if !x.Uninitialized() && (x.virtualAddress < c.sizeOfHeaders || x.pointerToRawData < c.sizeOfHeaders) {
      return false;
    }
    return true;
  }

  /** Copies the headers, then every section. */
  method LoadSections(data: seq<Byte>, c: Context, ss: seq<Section>, image: array<Byte>, requireNx: bool)
    returns (status: Status, entryPoints: nat, reloc: Option<Section>)
    requires |data| < U32 && Accepted(data, c, ss) && c.sizeOfHeaders <= c.imageSize <= image.Length
    modifies image
    ensures status.Success? ==> entryPoints == EntryCount(c, ss) && reloc == RelocOf(ss)
    ensures status == if Loadable(c, ss, requireNx) then Success else Unsupported
    ensures status.Success? ==>
              && AllFit(data, image.Length, ss)
              && image[..] == PlaceAll(data[..c.sizeOfHeaders] + old(image[c.sizeOfHeaders..]), data, ss)
  {
    hide Considered, Passes, IsReloc, Loadable, RelocSeen, RelocOf, Content, Place, LastByte, PlaceAll, AllFit,
         Accepted;
    AcceptedHeaders(data, c, ss);
    ghost var start := data[..c.sizeOfHeaders] + image[c.sizeOfHeaders..];
    forall k | 0 <= k < c.sizeOfHeaders {
      image[k] := data[k];
    }
    reloc := None;
    entryPoints := 0;
    LoadableNothing(c, ss[..0], requireNx);
    NothingPlaced(start, data, ss[..0]);
    for i := 0 to |ss|
      invariant Loadable(c, ss[..i], requireNx) && reloc.Some? == RelocSeen(ss[..i]) && reloc == RelocOf(ss[..i])
      invariant entryPoints == EntryCount(c, ss[..i])
      invariant AllFit(data, image.Length, ss[..i]) && image[..] == PlaceAll(start, data, ss[..i])
    {
      LoadableStep(c, ss, i, requireNx);
      PlacedStep(start, data, ss, i);
      if Considered(ss[i]) {
        var ok := CheckSection(c, ss[i], requireNx, reloc.Some?);
        if !ok {
          return Unsupported, entryPoints, reloc;
        }
        if ss[i].virtualAddress <= c.entryPoint < LastByte(ss[i]) {
          entryPoints := entryPoints + 1;
        }
        if IsReloc(ss[i]) {
          reloc := Some(ss[i]);
        }
        if !ss[i].Discardable() {
          CopiesStayInside(data, c, ss, i, requireNx);
          FillSection(data, image, ss[i]);
        }
      }
    }
    assert ss[..|ss|] == ss;
    return Success, entryPoints, reloc;
  }

  lemma {:induction false} PlacedStep(start: seq<Byte>, data: seq<Byte>, ss: seq<Section>, i: nat)
    requires i < |ss| && AllFit(data, |start|, ss[..i])
    ensures AllFit(data, |start|, ss[..i + 1]) <==> (Copied(ss[i]) ==> Fits(data, |start|, ss[i]))
    ensures AllFit(data, |start|, ss[..i + 1]) ==>
              PlaceAll(start, data, ss[..i + 1]) ==
                if Copied(ss[i]) then Place(PlaceAll(start, data, ss[..i]), ss[i].virtualAddress, Content(data, ss[i]))
                else PlaceAll(start, data, ss[..i])
  {
    hide Copied, Place, Content, Fits;
    assert ss[..i + 1][..i] == ss[..i];
    assert forall k :: 0 <= k < i ==> ss[..i + 1][k] == ss[..i][k];
    assert ss[..i + 1][i] == ss[i];
  }

  lemma {:induction false} AcceptedHeaders(data: seq<Byte>, c: Context, ss: seq<Section>)
    requires Accepted(data, c, ss)
    ensures c.sizeOfHeaders <= |data|
  {
  }

  lemma {:induction false} NothingPlaced(start: seq<Byte>, data: seq<Byte>, ss: seq<Section>)
    requires ss == []
    ensures AllFit(data, |start|, ss) && PlaceAll(start, data, ss) == start
  {
  }

  lemma LoadableNothing(c: Context, ss: seq<Section>, requireNx: bool)
    requires ss == []
    ensures Loadable(c, ss, requireNx) && !RelocSeen(ss) && RelocOf(ss) == None
  {
  }

  // ----- the memory an image is given

  /** Bitwise conjunction. */
  function And(a: nat, b: nat): (r: nat)
    ensures r <= a && r <= b
  {
    if a == 0 || b == 0 then 0 else 2 * And(a / 2, b / 2) + if a % 2 == 1 && b % 2 == 1 then 1 else 0
  }

  function Pow2(n: nat): (r: nat)
    ensures 0 < r
  {
    if n == 0 then 1 else 2 * Pow2(n - 1)
  }

  function PageAligned(n: nat): (r: nat)
    ensures n <= r < n + PAGE_SIZE && r % PAGE_SIZE == 0
  {
    n + (PAGE_SIZE - n % PAGE_SIZE) % PAGE_SIZE
  }

  /** The bytes allocated, in the 32 bits of `alloc_size`. */
  function AllocSize(c: Context): (n: nat)
  {
    PageAligned(c.imageSize + c.sectionAlignment) % U32
  }

  /** From the allocated address to the buffer: `ALIGN_VALUE`, whose mask is
      meant for powers of two and applied to any alignment. */
  function Skip(address: nat, alignment: Word32): (n: nat)
    requires 0 < alignment
    ensures n < alignment
  {
    And((alignment - address) % U32, alignment - 1)
  }

  /** The image lies inside the allocation at `address`. */
  predicate Covered(c: Context, address: nat)
    requires 0 < c.sectionAlignment
  {
    Skip(address, c.sectionAlignment) + c.imageSize <= AllocSize(c)
  }

  lemma {:induction false} AndSelf(a: nat)
    ensures And(a, a) == a
  {
    if a > 0 {
      AndSelf(a / 2);
    }
  }

  /** Bits above the lowest `n` that both share stay. */
  lemma {:induction false} AndTop(a: nat, b: nat, h: nat, n: nat)
    requires h * Pow2(n) <= a < h * Pow2(n) + Pow2(n) && h * Pow2(n) <= b < h * Pow2(n) + Pow2(n)
    ensures h * Pow2(n) <= And(a, b)
    decreases n
  {
    if n == 0 {
      AndSelf(a);
    } else {
      assert h * Pow2(n) == 2 * (h * Pow2(n - 1));
      AndTop(a / 2, b / 2, h, n - 1);
    }
  }

  /** An alignment less than a page below four gigabytes moves an image loaded at zero by pages. */
  lemma {:induction false} SkipFar(alignment: Word32)
    requires U32 - PAGE_SIZE < alignment
    ensures PAGE_SIZE <= Skip(0, alignment)
  {
    assert Pow2(12) == PAGE_SIZE by {
      assert Pow2(4) == 16 && Pow2(8) == 16 * Pow2(4) && Pow2(12) == 16 * Pow2(8);
    }
    AndTop(alignment, alignment - 1, 0xfffff, 12);
    assert (alignment - 0) % U32 == alignment;
  }

  /** The allocation covers the image, wherever the firmware puts it, if and only
      if the rounded sum of image size and alignment is below four gigabytes. */
  lemma {:induction false} CoveredIff(c: Context)
    requires 0 < c.sectionAlignment
    ensures (forall address: nat :: address % PAGE_SIZE == 0 ==> Covered(c, address)) <==>
              PageAligned(c.imageSize + c.sectionAlignment) < U32
  {
    hide And, PageAligned;
    var sum := PageAligned(c.imageSize + c.sectionAlignment);
    if U32 <= sum {
      assert sum <= 2 * U32;
      assert AllocSize(c) == if sum == 2 * U32 then 0 else sum - U32;
      if U32 - PAGE_SIZE < c.sectionAlignment {
        SkipFar(c.sectionAlignment);
      }
      assert !Covered(c, 0);
    }
  }

  /** Two pages of image and an alignment of four gigabytes less a page get one page. */
  lemma {:induction false} AllocationWraps(c: Context, address: nat)
    requires c.imageSize == 0x2000 && c.sectionAlignment == 0xffff_f000
    ensures AllocSize(c) == PAGE_SIZE && !Covered(c, address)
  {
    assert PageAligned(0x1_0000_1000) == 0x1_0000_1000;
  }

  // ----- handle_image after verification

  /** The layout passes: entry point, section checks, and a relocation directory. */
  ghost predicate LaidOut(c: Context, ss: seq<Section>, requireNx: bool)
  {
    c.entryPoint < c.imageSize && Loadable(c, ss, requireNx) && 5 < c.numberOfDirectories
  }

  /** What relocation does to an image that stands at `buffer`. */
  function Relocation(m: Memory, c: Context, ss: seq<Section>, buffer: nat): (w: Relocate.Walk)
  {
    if c.relocDir.size == 0 || RelocOf(ss).None? then Relocate.Walk([], true)
    else Relocate.Table(m, RelocOf(ss).value.pointerToRawData, c, (buffer - c.imageBase) % U64)
  }

  lemma {:induction false} RelocationInside(m: Memory, c: Context, ss: seq<Section>, buffer: nat, room: nat)
    requires c.imageSize + Relocate.REACH - 1 <= room
    ensures Relocate.AllInside(Relocation(m, c, ss, buffer).fixups, room)
  {
    hide Relocate.Table, RelocOf;
    if c.relocDir.size != 0 && RelocOf(ss).Some? {
      Relocate.FixupsInside(m, RelocOf(ss).value.pointerToRawData, c, (buffer - c.imageBase) % U64, room);
    }
  }

  /** The image in memory: headers and sections placed, then relocated. */
  function Loaded(memory: seq<Byte>, m: Memory, c: Context, ss: seq<Section>, buffer: nat): (r: seq<Byte>)
    requires c.sizeOfHeaders <= |m.data| && c.sizeOfHeaders <= |memory| && AllFit(m.data, |memory|, ss)
    requires c.imageSize + Relocate.REACH - 1 <= |memory|
    ensures |r| == |memory|
  {
    RelocationInside(m, c, ss, buffer, |memory|);
    Relocate.ApplyAll(PlaceAll(m.data[..c.sizeOfHeaders] + memory[c.sizeOfHeaders..], m.data, ss),
                      Relocation(m, c, ss, buffer).fixups)
  }

  /** A section that no later one overlaps and no fixup touches is its content, zero-extended. */
  lemma {:induction false} LoadedReadsBack(memory: seq<Byte>, m: Memory, c: Context, ss: seq<Section>, buffer: nat,
                                           i: nat)
    requires c.sizeOfHeaders <= |m.data| && c.sizeOfHeaders <= |memory| && AllFit(m.data, |memory|, ss)
    requires c.imageSize + Relocate.REACH - 1 <= |memory| && i < |ss| && Copied(ss[i]) && Uncovered(ss, i)
    requires var fs := Relocation(m, c, ss, buffer).fixups;
             forall j, k :: 0 <= j < |fs| && ss[i].virtualAddress <= k < ss[i].virtualAddress + ss[i].virtualSize ==>
               !Relocate.Covers(fs[j], k)
    ensures Loaded(memory, m, c, ss, buffer)[ss[i].virtualAddress..ss[i].virtualAddress + ss[i].virtualSize]
            == Content(m.data, ss[i])
  {
    hide PlaceAll, Relocation, Content, Relocate.ApplyAll, Uncovered, Copied, Relocate.Covers;
    var x := ss[i];
    assert Copied(ss[i]) ==> Fits(m.data, |memory|, ss[i]);
    RelocationInside(m, c, ss, buffer, |memory|);
    var placed := PlaceAll(m.data[..c.sizeOfHeaders] + memory[c.sizeOfHeaders..], m.data, ss);
    SectionReadsBack(m.data[..c.sizeOfHeaders] + memory[c.sizeOfHeaders..], m.data, ss, i);
    forall k | x.virtualAddress <= k < x.virtualAddress + x.virtualSize
      ensures Loaded(memory, m, c, ss, buffer)[k] == placed[k]
    {
      Relocate.UncoveredByte(placed, Relocation(m, c, ss, buffer).fixups, k);
    }
  }

  /** Allocates, copies and relocates an image that can be digested; `memory` is
      what starts at the aligned buffer. */
  method LoadImage(m: Memory, c: Context, requireNx: bool, allocOk: bool, address: nat, memory: array<Byte>)
    returns (status: Status, pages: nat, buffer: nat, entryPoints: nat)
    requires |m.data| < U32 && HeaderFacts(m.data, c) && DosSigned(m.data) && Accepted(m.data, c, Sections(m.data, c))
    requires c.imageSize + Relocate.REACH - 1 <= memory.Length
    modifies memory
    ensures pages * PAGE_SIZE == AllocSize(c) && buffer == address + Skip(address, c.sectionAlignment)
    ensures var ss := Sections(m.data, c);
            && status == (if !allocOk then OutOfResources
                          else if LaidOut(c, ss, requireNx) && Relocation(m, c, ss, buffer).ok then Success
                          else Unsupported)
            && (status.Success? ==>
                  && AllFit(m.data, memory.Length, ss) && entryPoints == EntryCount(c, ss)
                  && memory[..] == Loaded(old(memory[..]), m, c, ss, buffer))
  {
    hide Considered, Passes, IsReloc, Loadable, Content, Place, LastByte, HeaderAt, PlaceAll, EntryCount, GetSectionVma,
         RawTotal, And, RelocOf, Relocate.Table, Relocate.ApplyAll;
    var size := PageAligned(c.imageSize + c.sectionAlignment) % U32;
    pages, buffer, entryPoints := size / PAGE_SIZE, address + Skip(address, c.sectionAlignment), 0;
    WholePages(c);
    if !allocOk {
      return OutOfResources, pages, buffer, 0;
    }
    if ImageAddress(c.imageSize, c.entryPoint).None? {
      return Unsupported, pages, buffer, 0;
    }
    var ss := Sections(m.data, c);
    ghost var before := memory[..];
    var reloc;
    status, entryPoints, reloc := LoadSections(m.data, c, ss, memory, requireNx);
    if !status.Success? {
      return;
    }
    if c.numberOfDirectories <= 5 {
      return Unsupported, pages, buffer, entryPoints;
    }
    RelocationInside(m, c, ss, buffer, |before|);
    if c.relocDir.size != 0 && reloc.Some? {
      status := Relocate.RelocateCoff(m, reloc.value.pointerToRawData, c, (buffer - c.imageBase) % U64, memory);
    } else {
      Relocate.ApplyNone(memory[..]);
    }
  }

  /** The layout passes, relocation succeeds, and one section holds the entry point. */
  ghost predicate Starts(m: Memory, c: Context, ss: seq<Section>, requireNx: bool, buffer: nat)
  {
    LaidOut(c, ss, requireNx) && Relocation(m, c, ss, buffer).ok && EntryCount(c, ss) == 1
  }

  lemma {:induction false} WholePages(c: Context)
    ensures AllocSize(c) / PAGE_SIZE * PAGE_SIZE == AllocSize(c)
  {
    hide PageAligned;
  }

  /** Header, digest and load of a file that needs no verification: the status for every
      file, and then the image, with each section that no later one overlaps as its
      content, before relocation. */
  method LoadFile(m: Memory, requireNx: bool, allocOk: bool, address: nat, memory: array<Byte>)
    returns (status: Status, c: Option<Context>, buffer: nat)
    requires |m.data| < U32 && U32 + Relocate.REACH <= memory.Length
    modifies memory
    ensures status.Success? <==>
              && HeaderOk(m.data, requireNx) && DosSigned(m.data)
              && var h := HeaderAt(m.data, PeOffset(m.data));
              && SecDirInside(m.data, h) && Accepted(m.data, h, Sections(m.data, h)) && allocOk
              && Starts(m, h, Sections(m.data, h), requireNx, address + Skip(address, h.sectionAlignment))
    ensures status.Success? ==>
              && c == Some(HeaderAt(m.data, PeOffset(m.data)))
              && var ss := Sections(m.data, c.value);
              && AllFit(m.data, memory.Length, ss) && memory[..] == Loaded(old(memory[..]), m, c.value, ss, buffer)
  {
    hide Considered, Passes, IsReloc, Loadable, Content, Place, LastByte, HeaderAt, PlaceAll, EntryCount, Uncovered,
         GetSectionVma, RawTotal, And, PageAligned, Loaded, Relocation, LaidOut, HeaderOk, Accepted, Sections, AllFit,
         Skip, SecDirInside, PeOffset;
    buffer := 0;
    status, c := ReadHeader(m.data, true, requireNx);
    if c.None? {
      return;
    }
    var stream;
    status, stream := GenerateHash(m.data, c.value);
    if !status.Success? {
      return;
    }
    var pages, entryPoints;
    status, pages, buffer, entryPoints := LoadImage(m, c.value, requireNx, allocOk, address, memory);
    if !status.Success? {
      return;
    }
    if entryPoints != 1 {
      return Unsupported, c, buffer;
    }
  }
}
