/** What stands in memory once an image is loaded, byte by byte, in terms of the
    file and its section headers. */
module LoadedImage {
  import opened Bytes
  import opened Pe
  import opened ImageLoad
  import Relocate
  import FixupTable

  /** Readable and not discardable, by the bits of the section's characteristics. */
  predicate Mapped(x: Section)
  {
    x.characteristics / 0x4000_0000 % 2 == 1 && x.characteristics / 0x0200_0000 % 2 == 0
  }

  /** Raw data belongs to the section, and not only space. */
  predicate HasData(x: Section) { x.characteristics / 0x80 % 2 == 0 }

  predicate Spans(x: Section, k: nat) { x.virtualAddress <= k < x.virtualAddress + x.virtualSize }

  /** No mapped section of these holds the byte. */
  predicate Free(ss: seq<Section>, k: nat)
  {
    forall j :: 0 <= j < |ss| ==> !(Mapped(ss[j]) && Spans(ss[j], k))
  }

  predicate FreeField(ss: seq<Section>, at: nat)
  {
    forall k :: at <= k < at + 8 ==> Free(ss, k)
  }

  lemma MappedIsCopied(x: Section)
    ensures Mapped(x) <==> Copied(x)
  {
  }

  // ----- which section tables load

  /** Readable, and not discardable and empty. */
  predicate LookedAt(x: Section)
  {
    x.characteristics / 0x4000_0000 % 2 == 1 && !(x.characteristics / 0x0200_0000 % 2 == 1 && x.virtualSize == 0)
  }

  predicate NamedReloc(x: Section) { x.name == [0x2e, 0x72, 0x65, 0x6c, 0x6f, 0x63, 0, 0] }

  predicate Within(c: Context, x: Section) { 1 <= x.virtualSize && x.virtualAddress + x.virtualSize <= c.imageSize }

  /** A section that loads, without wrapping numbers: it is not writable code if that is forbidden; it does not
      start in the image and end behind it; unless it is discardable it lies in the image, its data
      behind the headers; and relocations start with the directory and do not end before it. */
  predicate Loads(c: Context, x: Section, requireNx: bool)
  {
    var discardable := x.characteristics / 0x0200_0000 % 2 == 1;
    && !(requireNx && !discardable &&
         x.characteristics / 0x8000_0000 % 2 == 1 && x.characteristics / 0x2000_0000 % 2 == 1)
    && (x.virtualAddress < c.imageSize ==> Within(c, x))
    && (!discardable ==> Within(c, x))
    && (!discardable && HasData(x) ==> c.sizeOfHeaders <= x.virtualAddress && c.sizeOfHeaders <= x.pointerToRawData)
    && (NamedReloc(x) ==>
          && Within(c, x) && x.sizeOfRawData != 0 && c.relocDir.virtualAddress == x.virtualAddress
          && var last := (c.relocDir.virtualAddress + c.relocDir.size - 1) % 0x1_0000_0000;
          c.imageSize <= last || last < x.virtualAddress + x.virtualSize)
  }

  lemma {:induction false} PassesIff(c: Context, x: Section, requireNx: bool)
    ensures Passes(c, x, requireNx) <==> Loads(c, x, requireNx)
  {
    LastByteIs(x);
    if x.virtualAddress < c.imageSize && !Below(End(c, x), Base(c, x)) {
      NoWrap(c, x);
    }
  }

  lemma LastByteIs(x: Section)
    ensures var last := x.virtualAddress + x.virtualSize - 1;
            LastByte(x) == if last < 0 then U32 - 1 else if last < U32 then last else last - U32
  {
  }

  /** A section table loads if and only if every section looked at does, and no two hold relocations. */
  lemma {:induction false} LoadableIff(c: Context, ss: seq<Section>, requireNx: bool)
    ensures Loadable(c, ss, requireNx) <==>
              && (forall i :: 0 <= i < |ss| && LookedAt(ss[i]) ==> Loads(c, ss[i], requireNx))
              && (forall i, j :: 0 <= i < j < |ss| && LookedAt(ss[i]) && LookedAt(ss[j]) ==>
                    !(NamedReloc(ss[i]) && NamedReloc(ss[j])))
  {
    hide Passes, Loads;
    forall i | 0 <= i < |ss| ensures Passes(c, ss[i], requireNx) <==> Loads(c, ss[i], requireNx) {
      PassesIff(c, ss[i], requireNx);
    }
    forall i | 0 <= i < |ss|
      ensures (Considered(ss[i]) <==> LookedAt(ss[i])) && (IsReloc(ss[i]) <==> NamedReloc(ss[i]))
    {
    }
    hide Considered, LookedAt, IsReloc, NamedReloc;
  }

  /** The section holds the entry point before its last byte, whose address is taken in 32 bits. */
  predicate Enters(c: Context, x: Section)
  {
    LookedAt(x) && x.virtualAddress <= c.entryPoint < (x.virtualAddress + x.virtualSize - 1) % 0x1_0000_0000
  }

  predicate NoneEnters(c: Context, ss: seq<Section>)
  {
    forall i :: 0 <= i < |ss| ==> !Enters(c, ss[i])
  }

  /** Section `i` is the only one that holds it. */
  predicate Alone(c: Context, ss: seq<Section>, i: nat)
  {
    i < |ss| && Enters(c, ss[i]) && forall j :: 0 <= j < |ss| && j != i ==> !Enters(c, ss[j])
  }

  /** No entry point is counted if and only if no section holds it, and one if and only if exactly one does. */
  lemma {:induction false} OneEntryIff(c: Context, ss: seq<Section>)
    ensures EntryCount(c, ss) == 0 <==> NoneEnters(c, ss)
    ensures EntryCount(c, ss) == 1 <==> exists i: nat :: Alone(c, ss, i)
    decreases |ss|
  {
    hide Enters, NoneEnters, Alone;
    if ss == [] {
      NoEntries(c);
    } else {
      var front := ss[..|ss| - 1];
      OneEntryIff(c, front);
      CountStep(c, ss);
      EntryStep(c, ss);
      AloneStep(c, ss, front);
    }
  }

  lemma NoEntries(c: Context)
    ensures NoneEnters(c, []) && forall i: nat :: !Alone(c, [], i)
  {
  }

  lemma CountStep(c: Context, ss: seq<Section>)
    requires ss != []
    ensures EntryCount(c, ss) == EntryCount(c, ss[..|ss| - 1]) + if Enters(c, ss[|ss| - 1]) then 1 else 0
  {
  }

  lemma {:induction false} EntryStep(c: Context, ss: seq<Section>)
    requires ss != []
    ensures NoneEnters(c, ss) <==> NoneEnters(c, ss[..|ss| - 1]) && !Enters(c, ss[|ss| - 1])
  {
    hide Enters;
    var front := ss[..|ss| - 1];
    assert forall i :: 0 <= i < |front| ==> front[i] == ss[i];
  }

  lemma {:induction false} AloneStep(c: Context, ss: seq<Section>, front: seq<Section>)
    requires ss != [] && front == ss[..|ss| - 1]
    ensures (exists i: nat :: Alone(c, ss, i)) <==>
              if Enters(c, ss[|ss| - 1]) then NoneEnters(c, front) else exists i: nat :: Alone(c, front, i)
  {
    hide Enters;
    var n := |ss| - 1;
    assert forall i :: 0 <= i < n ==> front[i] == ss[i];
    if Enters(c, ss[n]) {
      if i: nat :| Alone(c, ss, i) {
        assert i == n;
      }
      if NoneEnters(c, front) {
        assert Alone(c, ss, n);
      }
    } else {
      forall i: nat ensures Alone(c, ss, i) <==> Alone(c, front, i) {
      }
    }
  }

  // ----- before relocation

  /** A byte that no section behind `i` holds is that section's. */
  lemma {:induction false} PlacedByte(image: seq<Byte>, data: seq<Byte>, ss: seq<Section>, i: nat, k: nat)
    requires AllFit(data, |image|, ss) && i < |ss| && Mapped(ss[i]) && k < ss[i].virtualSize
    requires Free(ss[i + 1..], ss[i].virtualAddress + k)
    ensures ss[i].virtualAddress + k < |image| && Fits(data, |image|, ss[i])
    ensures PlaceAll(image, data, ss)[ss[i].virtualAddress + k] == Content(data, ss[i])[k]
  {
    hide Content, Mapped, Copied, Fits;
    var last, front := |ss| - 1, ss[..|ss| - 1];
    MappedIsCopied(ss[i]);
    assert Fits(data, |image|, ss[i]);
    FitsRoom(data, |image|, ss[i]);
    assert AllFit(data, |image|, front);
    if i < last {
      assert ss[i + 1..][last - i - 1] == ss[last];
      assert front[i + 1..] == ss[i + 1..][..last - i - 1];
      PlacedByte(image, data, front, i, k);
      MappedIsCopied(ss[last]);
      assert Copied(ss[last]) ==> Fits(data, |image|, ss[last]);
      FitsRoom(data, |image|, ss[last]);
    }
  }

  lemma FitsRoom(data: seq<Byte>, size: nat, x: Section)
    ensures Fits(data, size, x) ==> x.virtualAddress + x.virtualSize <= size
  {
  }

  lemma {:induction false} FreeByte(image: seq<Byte>, data: seq<Byte>, ss: seq<Section>, k: nat)
    requires AllFit(data, |image|, ss) && k < |image| && Free(ss, k)
    ensures PlaceAll(image, data, ss)[k] == image[k]
  {
    hide PlaceAll, Mapped, Copied;
    forall j | 0 <= j < |ss| && Copied(ss[j]) ensures !Spans(ss[j], k) {
      MappedIsCopied(ss[j]);
    }
    RestUntouched(image, data, ss, k);
  }

  /** Byte `k` of a section is byte `k` of its raw data, or zero behind that. */
  lemma {:induction false} ContentByte(data: seq<Byte>, size: nat, x: Section, k: nat)
    requires Fits(data, size, x) && k < x.virtualSize
    ensures if HasData(x) && k < x.sizeOfRawData
            then x.pointerToRawData + k < |data| && Content(data, x)[k] == data[x.pointerToRawData + k]
            else Content(data, x)[k] == 0
  {
  }

  // ----- after it

  predicate Untouched(m: Memory, c: Context, ss: seq<Section>, buffer: nat, k: nat)
  {
    forall f :: f in Relocation(m, c, ss, buffer).fixups ==> !Relocate.Covers(f, k)
  }

  /** There is room for the image, and every mapped section lies in it and in the file. */
  predicate Ready(memory: seq<Byte>, m: Memory, c: Context, ss: seq<Section>)
  {
    && c.sizeOfHeaders <= |m.data| && c.sizeOfHeaders <= |memory| && AllFit(m.data, |memory|, ss)
    && c.imageSize + Relocate.REACH - 1 <= |memory|
  }

  function Start(memory: seq<Byte>, m: Memory, c: Context): (s: seq<Byte>)
    requires c.sizeOfHeaders <= |m.data| && c.sizeOfHeaders <= |memory|
  {
    m.data[..c.sizeOfHeaders] + memory[c.sizeOfHeaders..]
  }

  lemma {:induction false} UntouchedByte(memory: seq<Byte>, m: Memory, c: Context, ss: seq<Section>, buffer: nat,
                                         k: nat)
    requires Ready(memory, m, c, ss) && k < |memory| && Untouched(m, c, ss, buffer, k)
    ensures Loaded(memory, m, c, ss, buffer)[k] == PlaceAll(Start(memory, m, c), m.data, ss)[k]
  {
    hide PlaceAll, Relocation, Relocate.ApplyAll, AllFit;
    RelocationInside(m, c, ss, buffer, |memory|);
    Relocate.UncoveredByte(PlaceAll(Start(memory, m, c), m.data, ss), Relocation(m, c, ss, buffer).fixups, k);
  }

  /** A byte of a mapped section that no later one holds and no fixup touches: the file's byte at the same
      distance, or zero where there is no raw data. */
  lemma {:induction false} SectionByte(memory: seq<Byte>, m: Memory, c: Context, ss: seq<Section>, buffer: nat, i: nat,
                                       k: nat)
    requires Ready(memory, m, c, ss) && i < |ss| && Mapped(ss[i]) && k < ss[i].virtualSize
    requires Free(ss[i + 1..], ss[i].virtualAddress + k) && Untouched(m, c, ss, buffer, ss[i].virtualAddress + k)
    ensures var x := ss[i];
            && x.virtualAddress + k < |memory|
            && if HasData(x) && k < x.sizeOfRawData
               then x.pointerToRawData + k < |m.data| &&
                    Loaded(memory, m, c, ss, buffer)[x.virtualAddress + k] == m.data[x.pointerToRawData + k]
               else Loaded(memory, m, c, ss, buffer)[x.virtualAddress + k] == 0
  {
    hide PlaceAll, Relocation, Content, Fits, Mapped, HasData, Loaded;
    PlacedByte(Start(memory, m, c), m.data, ss, i, k);
    UntouchedByte(memory, m, c, ss, buffer, ss[i].virtualAddress + k);
    ContentByte(m.data, |memory|, ss[i], k);
  }

  /** A byte that no mapped section holds and no fixup touches: the file's in the headers, and what was there
      before behind them. */
  lemma {:induction false} OtherByte(memory: seq<Byte>, m: Memory, c: Context, ss: seq<Section>, buffer: nat, k: nat)
    requires Ready(memory, m, c, ss) && k < |memory| && Free(ss, k) && Untouched(m, c, ss, buffer, k)
    ensures Loaded(memory, m, c, ss, buffer)[k] == if k < c.sizeOfHeaders then m.data[k] else memory[k]
  {
    hide PlaceAll, Relocation, Loaded;
    FreeByte(Start(memory, m, c), m.data, ss, k);
    UntouchedByte(memory, m, c, ss, buffer, k);
  }

  // ----- with a well-formed relocation table

  /** Section `r` is the last one named ".reloc", and is readable and not discardable and empty. */
  predicate RelocAt(ss: seq<Section>, r: nat)
  {
    && r < |ss| && ss[r].name == [0x2e, 0x72, 0x65, 0x6c, 0x6f, 0x63, 0, 0]
    && ss[r].characteristics / 0x4000_0000 % 2 == 1
    && (ss[r].virtualSize == 0 ==> ss[r].characteristics / 0x0200_0000 % 2 == 0)
    && forall j :: r < j < |ss| ==> ss[j].name != ss[r].name
  }

  /** Its raw data is the encoding of the blocks, and the relocation directory has just that size. */
  ghost predicate HasTable(m: Memory, c: Context, ss: seq<Section>, r: nat, bs: seq<Relocate.Block>, size: nat)
  {
    && RelocAt(ss, r) && c.imageSize < 0x8000_0000
    && bs != [] && (forall i :: 0 <= i < |bs| ==> Relocate.WellFormed(bs[i], c.imageSize))
    && Holds(m, ss[r].pointerToRawData, Relocate.EncodeTable(bs))
    && ss[r].pointerToRawData + |Relocate.EncodeTable(bs)| <= c.imageSize
    && c.relocDir.size == |Relocate.EncodeTable(bs)|
    && FixupTable.InMemory(FixupTable.Asks(bs), size) && FixupTable.FieldsApart(FixupTable.Asks(bs))
  }

  lemma {:induction false} RelocFound(ss: seq<Section>, r: nat)
    requires RelocAt(ss, r)
    ensures RelocOf(ss) == Some(ss[r])
    decreases |ss|
  {
    var last := |ss| - 1;
    if r < last {
      assert ss[last].name != ss[r].name;
      assert ss[..last][r] == ss[r];
      RelocFound(ss[..last], r);
    }
  }

  lemma {:induction false} RelocationIs(memory: seq<Byte>, m: Memory, c: Context, ss: seq<Section>, buffer: nat, r: nat,
                                        bs: seq<Relocate.Block>)
    requires HasTable(m, c, ss, r, bs, |memory|)
    ensures Relocation(m, c, ss, buffer) ==
              Relocate.Table(m, ss[r].pointerToRawData, c, (buffer - c.imageBase) % U64)
  {
    hide Relocate.Table, FixupTable.Asks, FixupTable.FieldsApart, Holds;
    RelocFound(ss, r);
    assert Relocate.WellFormed(bs[0], c.imageSize);
    Relocate.BlockDecodes(m, ss[r].pointerToRawData, bs);
  }

  /** The table is accepted; what its entries name has the distance between the image's address and its
      preferred one added, and every other byte is as placed. */
  lemma {:induction false} TableApplied(memory: seq<Byte>, m: Memory, c: Context, ss: seq<Section>, buffer: nat, r: nat,
                                        bs: seq<Relocate.Block>)
    requires Ready(memory, m, c, ss) && HasTable(m, c, ss, r, bs, |memory|)
    ensures Relocation(m, c, ss, buffer).ok
    ensures var placed, now := PlaceAll(Start(memory, m, c), m.data, ss), Loaded(memory, m, c, ss, buffer);
            && (forall a :: a in FixupTable.Asks(bs) && FixupTable.Size(a.kind) != 0 ==>
                  FixupTable.Adjusted(placed, now, a, (buffer - c.imageBase) % U64))
            && (forall k :: 0 <= k < |memory| && FixupTable.Outside(bs, k) ==> now[k] == placed[k])
  {
    assert r < |ss|;
    hide Relocate.Table, FixupTable.Asks, FixupTable.FieldsApart, Holds, PlaceAll, Relocate.ApplyAll, AllFit,
         Relocation, Relocate.WellFormed, FixupTable.Adjusted, FixupTable.InMemory, Relocate.EncodeTable, RelocAt;
    RelocationIs(memory, m, c, ss, buffer, r, bs);
    RelocationInside(m, c, ss, buffer, |memory|);
    FixupTable.CoffRelocates(PlaceAll(Start(memory, m, c), m.data, ss), m, ss[r].pointerToRawData, c, bs,
                             (buffer - c.imageBase) % U64);
  }

  /** The eight bytes at `k` of a section's raw data are placed as they are. */
  lemma {:induction false} PlacedField(image: seq<Byte>, data: seq<Byte>, ss: seq<Section>, i: nat, k: nat)
    requires AllFit(data, |image|, ss) && i < |ss| && Mapped(ss[i]) && HasData(ss[i])
    requires k + 8 <= ss[i].virtualSize && k + 8 <= ss[i].sizeOfRawData
    requires FreeField(ss[i + 1..], ss[i].virtualAddress + k)
    ensures ss[i].virtualAddress + k + 8 <= |image| && ss[i].pointerToRawData + k + 8 <= |data|
    ensures var at, raw := ss[i].virtualAddress + k, ss[i].pointerToRawData + k;
            PlaceAll(image, data, ss)[at..at + 8] == data[raw..raw + 8]
  {
    hide PlaceAll, Content, Fits, Mapped, Free, HasData;
    var x := ss[i];
    var at, raw := x.virtualAddress + k, x.pointerToRawData + k;
    var placed := PlaceAll(image, data, ss);
    PlacedRaw(image, data, ss, i, k + 7);
    forall p | at <= p < at + 8 ensures placed[p] == data[raw + (p - at)] {
      PlacedRaw(image, data, ss, i, p - x.virtualAddress);
    }
    var now, was := placed[at..at + 8], data[raw..raw + 8];
    forall p | 0 <= p < 8 ensures now[p] == was[p] {
      assert now[p] == placed[at + p];
    }
  }

  lemma {:induction false} PlacedRaw(image: seq<Byte>, data: seq<Byte>, ss: seq<Section>, i: nat, j: nat)
    requires AllFit(data, |image|, ss) && i < |ss| && Mapped(ss[i]) && HasData(ss[i])
    requires j < ss[i].virtualSize && j < ss[i].sizeOfRawData && Free(ss[i + 1..], ss[i].virtualAddress + j)
    ensures ss[i].virtualAddress + j < |image| && ss[i].pointerToRawData + j < |data|
    ensures PlaceAll(image, data, ss)[ss[i].virtualAddress + j] == data[ss[i].pointerToRawData + j]
  {
    hide PlaceAll, Content, Fits, Mapped, Free, HasData;
    PlacedByte(image, data, ss, i, j);
    ContentByte(data, |image|, ss[i], j);
  }

  /** An eight-byte pointer of a section, which the linker wrote for the preferred address, points to the same
      place of the image at its address. */
  lemma {:induction false} PointerMoved(memory: seq<Byte>, m: Memory, c: Context, ss: seq<Section>, buffer: nat, r: nat,
                                        bs: seq<Relocate.Block>, i: nat, k: nat, target: nat)
    requires Ready(memory, m, c, ss) && HasTable(m, c, ss, r, bs, |memory|)
    requires i < |ss| && Mapped(ss[i]) && HasData(ss[i])
    requires k + 8 <= ss[i].virtualSize && k + 8 <= ss[i].sizeOfRawData
    requires FreeField(ss[i + 1..], ss[i].virtualAddress + k)
    requires FixupTable.Ask(ss[i].virtualAddress + k, 10) in FixupTable.Asks(bs)
    requires ss[i].pointerToRawData + k + 8 <= |m.data|
    requires LeValue(m.data[ss[i].pointerToRawData + k..ss[i].pointerToRawData + k + 8]) == (c.imageBase + target) % U64
    ensures ss[i].virtualAddress + k + 8 <= |memory|
    ensures LeValue(Loaded(memory, m, c, ss, buffer)[ss[i].virtualAddress + k..ss[i].virtualAddress + k + 8]) ==
              (buffer + target) % U64
  {
    hide PlaceAll, Loaded, Relocation, LeValue, Mapped, HasData, Free, HasTable, FixupTable.Asks;
    var a := FixupTable.Ask(ss[i].virtualAddress + k, 10);
    PlacedField(Start(memory, m, c), m.data, ss, i, k);
    TableApplied(memory, m, c, ss, buffer, r, bs);
    assert FixupTable.Size(a.kind) == 8;
    Moved(c.imageBase, buffer, target);
  }

  lemma Moved(base: nat, buffer: nat, target: nat)
    ensures ((base + target) % U64 + (buffer - base) % U64) % U64 == (buffer + target) % U64
  {
  }

  // ----- where the image stands

  lemma {:induction false} AndMask(a: nat, n: nat)
    ensures And(a, Pow2(n) - 1) == a % Pow2(n)
  {
    Doubled(n);
    hide And, Pow2;
    if n == 0 {
      AndNothing(a);
    } else {
      AndMask(a / 2, n - 1);
      AndStep(a, Pow2(n - 1));
      HalfModulo(a, Pow2(n - 1));
    }
  }

  lemma Doubled(n: nat)
    ensures Pow2(n) == if n == 0 then 1 else 2 * Pow2(n - 1)
  {
  }

  lemma AndNothing(a: nat)
    ensures And(a, 0) == 0 && a % 1 == 0
  {
  }

  lemma {:induction false} AndStep(a: nat, p: nat)
    requires 0 < p
    ensures And(a, 2 * p - 1) == 2 * And(a / 2, p - 1) + a % 2
  {
    assert (2 * p - 1) / 2 == p - 1 && (2 * p - 1) % 2 == 1;
  }

  lemma {:induction false} HalfModulo(a: nat, p: nat)
    requires 0 < p
    ensures a % (2 * p) == 2 * (a / 2 % p) + a % 2
  {
    var h := a / 2;
    var q, r := h / p, h % p;
    assert h == q * p + r;
    assert a == q * (2 * p) + (2 * r + a % 2);
    Bytes.Quotient(a, 2 * p, q, 2 * r + a % 2);
    assert a == (2 * p) * (a / (2 * p)) + a % (2 * p);
  }

  lemma {:induction false} Pow2Split(m: nat, n: nat)
    requires n <= m
    ensures Pow2(m) == Pow2(n) * Pow2(m - n)
  {
    if n > 0 {
      Pow2Split(m - 1, n - 1);
    }
  }

  lemma Pow2Word()
    ensures Pow2(32) == U32
  {
    assert Pow2(8) == 0x100;
    Pow2Split(16, 8);
    Pow2Split(32, 16);
  }

  lemma Negative(a: int, z: int)
    requires 0 < a && z < 0
    ensures a * z < 0
  {
  }

  lemma {:induction false} Multiple(a: nat, z: int, v: nat)
    requires 0 < a && v == a * z
    ensures v % a == 0
  {
    if z < 0 {
      Negative(a, z);
    } else {
      assert v == z * a + 0;
      Bytes.Quotient(v, a, z, 0);
      assert v == a * (v / a) + v % a;
    }
  }

  lemma Distribute(a: int, x: int, y: int)
    ensures a * (1 - x - y) == a - a * x - a * y
  {
  }

  lemma Regroup(a: int, b: int, k: int)
    ensures a * b * k == a * (b * k)
  {
  }

  /** For an alignment that is a power of two the buffer is the next aligned address. */
  lemma {:induction false} BufferAligned(address: nat, n: nat)
    requires n <= 31
    ensures var a := Pow2(n); a < U32 && Skip(address, a) < a && (address + Skip(address, a)) % a == 0
  {
    hide And, Pow2;
    var a, b := Pow2(n), Pow2(32 - n);
    assert a * b == U32 && a < U32 by { Divides(n); }
    var x := (a - address) % U32;
    AndMask(x, n);
    NextMultiple(address, a, b, x);
  }

  lemma {:induction false} Divides(n: nat)
    requires n <= 31
    ensures Pow2(n) * Pow2(32 - n) == U32 && Pow2(n) < U32
  {
    Pow2Word();
    Pow2Split(32, n);
    Smaller(Pow2(n), Pow2(31 - n));
    assert Pow2(32 - n) == 2 * Pow2(31 - n);
  }

  lemma Smaller(a: nat, b: nat)
    requires 0 < a && 0 < b
    ensures a < a * (2 * b)
  {
  }

  lemma {:induction false} NextMultiple(address: nat, a: nat, b: nat, x: nat)
    requires 0 < a && a * b == U32 && x == (a - address) % U32
    ensures (address + x % a) % a == 0
  {
    var k, q, r := (a - address) / U32, x / a, x % a;
    assert a - address == U32 * k + x;
    assert x == a * q + r;
    Regroup(a, b, k);
    Distribute(a, b * k, q);
    assert address + r == a * (1 - b * k - q);
    Multiple(a, 1 - b * k - q, address + r);
  }
}
