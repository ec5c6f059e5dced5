/** Everything together: what secure-mode `handle_image` makes of the bytes of a
    file, and what that means for the runs of the loader protocol. */
module Boot {
  import opened Bytes
  import opened Pe
  import Authenticode
  import ImageLoad
  import LoaderProtocol
  import LoaderRuns
  import Policy
  import Relocate
  import SectionCache
  import Verify
  import Databases
  import SignatureList

  /** What does not change from image to image: databases, cryptography, the
      revocation level, the NX policy, and the bytes behind the files. */
  datatype World = World(
    stores: Verify.Stores,
    crypto: Verify.Crypto,
    sbat: Verify.Sbat,
    requireNx: bool,
    behind: nat -> Byte)
  {
    function File(data: seq<Byte>): (m: Memory) { Memory(data, behind) }
  }

  predicate Headed(world: World, data: seq<Byte>)
  {
    HeaderOk(data, world.requireNx) && SecDirInside(data, HeaderAt(data, PeOffset(data)))
  }

  function Header(world: World, data: seq<Byte>): (c: Context)
    requires Headed(world, data)
  {
    HeaderAt(data, PeOffset(data))
  }

  /** The header is accepted and its section table lies in the file. */
  predicate Tabled(world: World, data: seq<Byte>)
  {
    Headed(world, data) && TableInside(data, Header(world, data))
  }

  /** Shim's decision on the bytes of a file; a size that is negative as an `int` is refused. */
  predicate Accepts(world: World, data: seq<Byte>, parent: bool, inProtocol: bool)
  {
    && Headed(world, data) && |data| < 0x8000_0000
    && Verify.Approved(world.stores, world.crypto, world.sbat, world.File(data), Header(world, data), parent,
         inProtocol)
  }

  // ----- the sections that are cached

  predicate Cacheable(x: Section) { ImageLoad.Considered(x) && (x.Code() || x.Initialized()) }

  /** Memory by address: the loaded image at `buffer`, and whatever is elsewhere. */
  datatype View = View(memory: seq<Byte>, buffer: nat, elsewhere: nat -> Byte)
  {
    function At(a: nat): (b: Byte)
    {
      if buffer <= a < buffer + |memory| then memory[a - buffer] else elsewhere(a)
    }

    function Bytes(a: nat, n: nat): (s: seq<Byte>)
      ensures |s| == n
    {
      seq<Byte>(n, k requires 0 <= k < n => At(a + k))
    }
  }

  /** Where the cached bytes of a section start: a section that has its base outside
      the image, which only a discardable one may, is taken from address zero. */
  function CacheBase(c: Context, x: Section, buffer: nat): (a: nat)
  {
    if x.virtualAddress < c.imageSize then buffer + x.virtualAddress else 0
  }

  /** How many there are: from the base to the last byte, where NULL counts as zero. */
  function CacheLength(c: Context, x: Section, buffer: nat): (n: nat)
  {
    if x.virtualAddress < c.imageSize then x.virtualSize
    else if LastByte(x) < c.imageSize then buffer + LastByte(x) + 1 else 1
  }

  /** What is cached for a section: its name, and the size and digest of those bytes. */
  function CachedAs(c: Context, x: Section, view: View, sha256: seq<Byte> -> seq<Byte>): (r: LoaderProtocol.Section)
  {
    var n := CacheLength(c, x, view.buffer);
    LoaderProtocol.Section(x.name, n, sha256(view.Bytes(CacheBase(c, x, view.buffer), n)))
  }

  /** For a section inside the image they are its memory. */
  lemma {:induction false} CachedInside(c: Context, x: Section, view: View, sha256: seq<Byte> -> seq<Byte>)
    requires x.virtualAddress < c.imageSize && x.virtualAddress + x.virtualSize <= |view.memory|
    ensures CachedAs(c, x, view, sha256) ==
              LoaderProtocol.Section(x.name, x.virtualSize,
                                     sha256(view.memory[x.virtualAddress..x.virtualAddress + x.virtualSize]))
  {
    var s := view.Bytes(view.buffer + x.virtualAddress, x.virtualSize);
    forall k | 0 <= k < x.virtualSize ensures s[k] == view.memory[x.virtualAddress + k] {
      assert s[k] == view.At(view.buffer + x.virtualAddress + k);
    }
    assert s == view.memory[x.virtualAddress..x.virtualAddress + x.virtualSize];
  }

  /** For a section that starts behind the image they start at address zero: one byte, or all up to the
      section's last byte if that, in 32 bits, lies in the image. */
  lemma {:induction false} CachedOutside(c: Context, x: Section, view: View, sha256: seq<Byte> -> seq<Byte>)
    requires c.imageSize <= x.virtualAddress
    ensures var last := (x.virtualAddress + x.virtualSize - 1) % U32;
            var n := if last < c.imageSize then view.buffer + last + 1 else 1;
            CachedAs(c, x, view, sha256) == LoaderProtocol.Section(x.name, n, sha256(view.Bytes(0, n)))
  {
  }

  function CachedSections(c: Context, ss: seq<Section>, view: View, sha256: seq<Byte> -> seq<Byte>):
    (r: seq<LoaderProtocol.Section>)
  {
    if ss == [] then []
    else
      CachedSections(c, ss[..|ss| - 1], view, sha256) +
      if Cacheable(ss[|ss| - 1]) then [CachedAs(c, ss[|ss| - 1], view, sha256)] else []
  }

  lemma {:induction false} CachedFrom(c: Context, ss: seq<Section>, view: View, sha256: seq<Byte> -> seq<Byte>, k: nat)
    requires k < |CachedSections(c, ss, view, sha256)|
    ensures exists i :: 0 <= i < |ss| && Cacheable(ss[i]) &&
              CachedSections(c, ss, view, sha256)[k] == CachedAs(c, ss[i], view, sha256)
  {
    hide Cacheable, CachedAs;
    var front := ss[..|ss| - 1];
    if k < |CachedSections(c, front, view, sha256)| {
      CachedFrom(c, front, view, sha256, k);
      var i :| 0 <= i < |front| && Cacheable(front[i]) &&
        CachedSections(c, front, view, sha256)[k] == CachedAs(c, front[i], view, sha256);
      assert ss[i] == front[i];
    }
  }

  /** Readable, not discardable and empty, and marked as code or initialized data. */
  predicate Cached(x: Section)
  {
    && x.characteristics / 0x4000_0000 % 2 == 1 && !(x.characteristics / 0x0200_0000 % 2 == 1 && x.virtualSize == 0)
    && (x.characteristics / 0x20 % 2 == 1 || x.characteristics / 0x40 % 2 == 1)
  }

  /** Exactly the sections of that kind are cached. */
  lemma {:induction false} CachedIff(c: Context, ss: seq<Section>, view: View, sha256: seq<Byte> -> seq<Byte>,
                                     r: LoaderProtocol.Section)
    ensures r in CachedSections(c, ss, view, sha256) <==>
              exists x :: x in ss && Cached(x) && r == CachedAs(c, x, view, sha256)
    decreases |ss|
  {
    assert forall x :: Cached(x) <==> Cacheable(x);
    hide Cached, Cacheable, CachedAs;
    if ss != [] {
      var front, x := ss[..|ss| - 1], ss[|ss| - 1];
      CachedIff(c, front, view, sha256, r);
      assert ss == front + [x];
    }
  }

  /** A file that, loaded somewhere, has a cacheable section of this size and digest. */
  ghost predicate Carries(world: World, data: seq<Byte>, size: nat, digest: SectionCache.Digest)
  {
    && Tabled(world, data)
    && exists i, before, buffer, elsewhere :: SectionOf(world, data, i, before, buffer, elsewhere, size, digest)
  }

  ghost predicate SectionOf(world: World, data: seq<Byte>, i: nat, before: seq<Byte>, buffer: nat,
                            elsewhere: nat -> Byte, size: nat, digest: SectionCache.Digest)
    requires Tabled(world, data)
  {
    var c := Header(world, data);
    var ss := Sections(data, c);
    && c.sizeOfHeaders <= |data| && U32 + Relocate.REACH <= |before| && ImageLoad.AllFit(data, |before|, ss)
    && i < |ss| && Cacheable(ss[i])
    && var now := ImageLoad.Loaded(before, world.File(data), c, ss, buffer);
    var x := CachedAs(c, ss[i], View(now, buffer, elsewhere), world.crypto.sha256);
    size == x.size && digest == x.digest
  }

  // ----- handle_image

  lemma {:induction false} ApprovedIsHashable(world: World, data: seq<Byte>, parent: bool, inProtocol: bool)
    requires Accepts(world, data, parent, inProtocol)
    ensures Verify.Hashable(data, Header(world, data))
  {
    hide Verify.Verdict, Verify.SbatTidy, HeaderAt;
  }

  /** The loop that caches the sections of a loaded image. */
  method CollectSections(c: Context, ss: seq<Section>, memory: array<Byte>, buffer: nat, elsewhere: nat -> Byte,
                         sha256: seq<Byte> -> seq<Byte>) returns (r: seq<LoaderProtocol.Section>)
    ensures r == CachedSections(c, ss, View(memory[..], buffer, elsewhere), sha256)
  {
    hide Cacheable, CachedAs;
    r := [];
    var view := View(memory[..], buffer, elsewhere);
    for i := 0 to |ss|
      invariant r == CachedSections(c, ss[..i], view, sha256)
    {
      assert ss[..i + 1][..i] == ss[..i];
      if Cacheable(ss[i]) {
        r := r + [CachedAs(c, ss[i], view, sha256)];
      }
    }
    assert ss[..|ss|] == ss;
  }

  lemma {:induction false} SectionsCarried(world: World, data: seq<Byte>, before: seq<Byte>, view: View, k: nat)
    requires Tabled(world, data)
    requires var c := Header(world, data);
             var ss := Sections(data, c);
             && c.sizeOfHeaders <= |data| && ImageLoad.AllFit(data, |before|, ss) && U32 + Relocate.REACH <= |before|
             && view.memory == ImageLoad.Loaded(before, world.File(data), c, ss, view.buffer)
             && k < |CachedSections(c, ss, view, world.crypto.sha256)|
    ensures var x :=
              CachedSections(Header(world, data), Sections(data, Header(world, data)), view, world.crypto.sha256)[k];
            Carries(world, data, x.size, x.digest)
  {
    hide Header, Headed, Sections, ImageLoad.Loaded, ImageLoad.AllFit, CachedSections, CachedAs, Cacheable;
    var c := Header(world, data);
    var ss := Sections(data, c);
    CachedFrom(c, ss, view, world.crypto.sha256, k);
    var x := CachedSections(c, ss, view, world.crypto.sha256)[k];
    var i :| 0 <= i < |ss| && Cacheable(ss[i]) && x == CachedAs(c, ss[i], view, world.crypto.sha256);
    assert SectionOf(world, data, i, before, view.buffer, view.elsewhere, x.size, x.digest);
  }

  /** What the firmware grants: where the file lies, the SBAT check's allocations, the
      image's pages and their address, how many sections find room in the cache; and
      what memory holds apart from the image. */
  datatype Grant = Grant(
    fileAddress: nat,
    room: Verify.Room,
    pagesOk: bool,
    address: nat,
    firstUncached: nat,
    elsewhere: nat -> Byte)

  /** The layout succeeds, with the image at the aligned address. */
  ghost predicate Loads(world: World, data: seq<Byte>, g: Grant)
  {
    && Tabled(world, data)
    && var c := Header(world, data);
    var buffer := g.address + ImageLoad.Skip(g.address, c.sectionAlignment);
    && g.pagesOk && ImageLoad.LaidOut(c, Sections(data, c), world.requireNx)
    && ImageLoad.Relocation(world.File(data), c, Sections(data, c), buffer).ok
  }

  /** The image as loaded and the sections as cached are those of the file. */
  ghost predicate Described(world: World, data: seq<Byte>, g: Grant, entryPoints: nat,
                            sections: seq<LoaderProtocol.Section>, before: seq<Byte>, now: seq<Byte>)
  {
    && Tabled(world, data)
    && var c := Header(world, data);
    var ss := Sections(data, c);
    var buffer := g.address + ImageLoad.Skip(g.address, c.sectionAlignment);
    && c.sizeOfHeaders <= |data| && U32 + Relocate.REACH <= |before| && ImageLoad.AllFit(data, |before|, ss)
    && now == ImageLoad.Loaded(before, world.File(data), c, ss, buffer)
    && entryPoints == ImageLoad.EntryCount(c, ss)
    && sections == CachedSections(c, ss, View(now, buffer, g.elsewhere), world.crypto.sha256)
  }

  /** The file can be digested and, in secure mode, is accepted, and the SBAT check finds room. */
  predicate Passed(world: World, data: seq<Byte>, secure: bool, parent: bool, inProtocol: bool, g: Grant)
  {
    if secure then
      Accepts(world, data, parent, inProtocol) &&
      Verify.RoomFor(g.room, world.sbat, Verify.SbatBytes(data, Sections(data, Header(world, data)), 0))
    else Headed(world, data) && Verify.Hashable(data, Header(world, data))
  }

  /** Every database walk made for the file comes to an end. */
  predicate WalksEnd(world: World, data: seq<Byte>, parent: bool)
  {
    Headed(world, data) && |data| < 0x8000_0000 ==>
      Verify.BufferEnds(world.stores, world.crypto, world.File(data), Header(world, data), parent)
  }

  ghost function TruthOf(world: World): (truth: LoaderProtocol.Truth)
  {
    LoaderProtocol.Truth(
      (data, parent, inProtocol) => Accepts(world, data, parent, inProtocol),
      (data: seq<Byte>, size: nat, digest: SectionCache.Digest) => Carries(world, data, size, digest),
      world.crypto.sha256)
  }

  /** Whether the file may be loaded at all: its header, then verification or, outside
      secure mode, the digest alone. */
  method Admit(world: World, verifier: Verify.Verifier, data: seq<Byte>, secure: bool, parent: bool, inProtocol: bool,
               g: Grant) returns (ok: bool, c: Option<Context>)
    requires |data| < U32 && (secure ==> WalksEnd(world, data, parent)) && (secure || !parent)
    modifies verifier
    ensures c == if Headed(world, data) then Some(Header(world, data)) else None
    ensures ok <==> Passed(world, data, secure, parent, inProtocol, g)
    ensures ok ==> c.Some? && Verify.Hashable(data, c.value) && HeaderFacts(data, c.value)
  {
    hide HeaderAt, HeaderOk, SecDirInside, HeaderFacts, Verify.BufferEnds, Verify.RoomFor, Verify.SbatBytes,
         Verify.Verdict, Verify.SbatTidy;
    var status;
    status, c := ReadHeader(data, true, world.requireNx);
    if c.None? {
      return false, None;
    }
    if secure {
      if 0x8000_0000 <= |data| {
        return false, c;
      }
      status := verifier.VerifyBuffer(world.stores, world.crypto, world.sbat, world.File(data), c.value, parent,
                                      inProtocol, g.fileAddress, g.room);
      return status.Success?, c;
    }
    var stream;
    status, stream := Authenticode.GenerateHash(data, c.value);
    HashableIff(data, c.value);
    return status.Success?, c;
  }

  lemma {:induction false} HashableIff(data: seq<Byte>, c: Context)
    requires HeaderFacts(data, c)
    ensures DosSigned(data) ==> TableInside(data, c)
    ensures Verify.Hashable(data, c) <==> DosSigned(data) && Authenticode.Accepted(data, c, Sections(data, c))
  {
    hide Authenticode.Accepted, Sections, HeaderAt;
  }

  /** Loads a file that can be digested, and collects its sections for the cache. */
  method Load(world: World, data: seq<Byte>, c: Context, g: Grant, memory: array<Byte>)
    returns (ok: bool, entryPoints: nat, sections: seq<LoaderProtocol.Section>)
    requires |data| < U32 && Headed(world, data) && c == Header(world, data) && HeaderFacts(data, c)
    requires Verify.Hashable(data, c) && U32 + Relocate.REACH <= memory.Length
    modifies memory
    ensures ok <==> Loads(world, data, g)
    ensures ok ==> Described(world, data, g, entryPoints, sections, old(memory[..]), memory[..])
    ensures !ok ==> sections == []
    ensures forall k :: 0 <= k < |sections| ==> Carries(world, data, sections[k].size, sections[k].digest)
  {
    hide Header, Headed, CachedSections, ImageLoad.LaidOut, ImageLoad.Relocation, ImageLoad.Loaded, ImageLoad.AllFit,
         ImageLoad.EntryCount, ImageLoad.Skip, Carries, HeaderAt, HeaderFacts, Authenticode.Accepted;
    var m := world.File(data);
    ghost var before := memory[..];
    var status, pages, buffer;
    status, pages, buffer, entryPoints := ImageLoad.LoadImage(m, c, world.requireNx, g.pagesOk, g.address, memory);
    if !status.Success? {
      return false, entryPoints, [];
    }
    HeadersInside(data, c);
    var ss := Sections(data, c);
    sections := CollectSections(c, ss, memory, buffer, g.elsewhere, world.crypto.sha256);
    ghost var view := View(memory[..], buffer, g.elsewhere);
    forall k | 0 <= k < |sections| ensures Carries(world, data, sections[k].size, sections[k].digest) {
      SectionsCarried(world, data, before, view, k);
    }
    return true, entryPoints, sections;
  }

  lemma {:induction false} HeadersInside(data: seq<Byte>, c: Context)
    requires Verify.Hashable(data, c)
    ensures c.sizeOfHeaders <= |data|
  {
    ImageLoad.AcceptedHeaders(data, c, Sections(data, c));
  }

  /** Header, verification, layout and relocation of a file, as far as they get,
      summed up for the loader protocol. */
  method Examine(world: World, verifier: Verify.Verifier, data: seq<Byte>, secure: bool, parent: bool, inProtocol: bool,
                 g: Grant, memory: array<Byte>) returns (w: LoaderProtocol.Work)
    requires |data| < U32 && (secure ==> WalksEnd(world, data, parent)) && (secure || !parent)
    requires U32 + Relocate.REACH <= memory.Length
    modifies verifier, memory
    ensures w.image == data && w.firstUncached == g.firstUncached
    ensures w.wellFormed <==> Headed(world, data)
    ensures w.fullVerdict <==> secure && !parent && Passed(world, data, true, false, inProtocol, g)
    ensures w.childVerdict <==> secure && parent && Passed(world, data, true, true, inProtocol, g)
    ensures w.laidOut <==> Passed(world, data, secure, parent, inProtocol, g) && Loads(world, data, g)
    ensures w.laidOut ==> Described(world, data, g, w.entryPoints, w.sections, old(memory[..]), memory[..])
    ensures LoaderProtocol.Honest(w, TruthOf(world), inProtocol)
  {
    hide WalksEnd, Header, Headed, Accepts, Loads, Described, Verify.RoomFor, Verify.SbatBytes, Carries, HeaderFacts,
         Verify.Hashable;
    var ok, c := Admit(world, verifier, data, secure, parent, inProtocol, g);
    w := LoaderProtocol.Work(data, c.Some?, ok && secure && !parent, ok && secure && parent, false, [],
                             g.firstUncached, 0);
    if ok {
      var laidOut, entryPoints, sections := Load(world, data, c.value, g, memory);
      w := w.(laidOut := laidOut, entryPoints := entryPoints, sections := sections);
    }
  }

  /** One section of the file holds its entry point. */
  predicate OneEntry(world: World, data: seq<Byte>)
  {
    Tabled(world, data) && ImageLoad.EntryCount(Header(world, data), Sections(data, Header(world, data))) == 1
  }

  /** The cache has room for all cacheable sections of the file. */
  predicate CacheHolds(world: World, data: seq<Byte>, room: nat)
  {
    Tabled(world, data) && CacheableCount(Sections(data, Header(world, data))) <= room
  }

  /** `handle_image` from bytes to cache: success if and only if the file passes, the
      layout succeeds, one section holds the entry point, and there is room in
      the cache for every section, unless the parent was verified. */
  method HandleImage(world: World, verifier: Verify.Verifier, loader: LoaderProtocol.Loader, data: seq<Byte>,
                     handle: SectionCache.Handle, parent: SectionCache.Handle, secure: bool, viaCache: bool,
                     inProtocol: bool, g: Grant, memory: array<Byte>)
    returns (status: Status, ghost w: LoaderProtocol.Work)
    requires |data| < U32 && (secure ==> WalksEnd(world, data, viaCache)) && (secure || !viaCache)
    requires U32 + Relocate.REACH <= memory.Length && loader.cache.Valid()
    modifies verifier, memory, loader`log, loader.cache, loader.cache.entries
    ensures loader.cache.Valid()
    ensures status.Success? <==>
              && Passed(world, data, secure, viaCache, inProtocol, g) && Loads(world, data, g)
              && OneEntry(world, data) && (viaCache || CacheHolds(world, data, g.firstUncached))
    ensures LoaderProtocol.Honest(w, TruthOf(world), inProtocol)
    ensures LoaderProtocol.Outcome(loader.View(), status) ==
              LoaderProtocol.HandleImage(old(loader.View()), secure, handle, parent, |data|, world.crypto.sha256(data),
                                         viaCache, w)
  {
    hide WalksEnd, Headed, Header, Accepts, Loads, CachedSections, ImageLoad.Loaded, ImageLoad.AllFit,
         ImageLoad.EntryCount, ImageLoad.Skip, LoaderProtocol.Honest, LoaderProtocol.CacheSections, CacheableCount,
         Sections;
    var work := Examine(world, verifier, data, secure, viaCache, inProtocol, g, memory);
    w := work;
    if work.laidOut {
      var c, ss := Header(world, data), Sections(data, Header(world, data));
      var buffer := g.address + ImageLoad.Skip(g.address, c.sectionAlignment);
      CountIs(c, ss, View(memory[..], buffer, g.elsewhere), world.crypto.sha256);
    }
    status := loader.RunHandleImage(secure, handle, parent, |data|, world.crypto.sha256(data), viaCache, work);
  }

  function CacheableCount(ss: seq<Section>): (n: nat)
  {
    if ss == [] then 0 else CacheableCount(ss[..|ss| - 1]) + if Cacheable(ss[|ss| - 1]) then 1 else 0
  }

  lemma {:induction false} CountIs(c: Context, ss: seq<Section>, view: View, sha256: seq<Byte> -> seq<Byte>)
    ensures |CachedSections(c, ss, view, sha256)| == CacheableCount(ss)
  {
    hide Cacheable, CachedAs;
    if ss != [] {
      CountIs(c, ss[..|ss| - 1], view, sha256);
    }
  }

  // ----- every run

  /** Everything that is loaded was examined as above, and is what was measured for the cache. */
  ghost predicate AllHonest(world: World, actions: seq<LoaderProtocol.Action>)
  {
    forall i :: 0 <= i < |actions| ==> LoaderProtocol.HonestAction(actions[i], TruthOf(world))
  }

  /** The section of the parent that the admitted image is: cached while the parent,
      accepted on its own, was loaded, of the image's size and digest, and not flushed since. */
  ghost predicate Vouched(world: World, log: seq<LoaderProtocol.Event>, shim: SectionCache.Handle, k: nat, j: nat)
    requires k < |log| && log[k].Admitted?
  {
    var e := log[k];
    && j < k && log[j].Cached? && log[j].handle == e.parent
    && Accepts(world, log[j].image, false, e.parent != shim)
    && Carries(world, log[j].image, |e.image|, world.crypto.sha256(e.image))
    && forall i :: j < i < k ==> log[i] != LoaderProtocol.Flushed(e.parent)
  }

  /** In every secure-mode run every admitted image was accepted: without a verified
      parent, or with the size and digest of a section of a parent that was. */
  lemma {:induction false} OnlyAcceptedRuns(world: World, s: LoaderProtocol.State, actions: seq<LoaderProtocol.Action>,
                                            t: LoaderProtocol.State, k: nat)
    requires LoaderProtocol.Initial(s) && LoaderProtocol.Run(s, true, actions, t) && AllHonest(world, actions)
    requires k < |t.log| && t.log[k].Admitted?
    ensures Accepts(world, t.log[k].image, t.log[k].viaCache, t.log[k].handle != s.shim)
    ensures t.log[k].viaCache ==> exists j: nat :: Vouched(world, t.log, s.shim, k, j)
  {
    hide Accepts, Carries, LoaderProtocol.HonestAction, LoaderProtocol.Run;
    var truth := TruthOf(world);
    LoaderProtocol.RunAccepts(s, actions, t, truth);
    var e := t.log[k];
    assert truth.judge(e.image, e.viaCache, e.handle != s.shim);
    if e.viaCache {
      var j := LoaderProtocol.CacheAdmissions(s, actions, t, truth, k);
      assert Vouched(world, t.log, s.shim, k, j);
    }
  }

  /** If nothing else of the image's size has the image's digest, the image is the cached section. */
  lemma {:induction false} CachedImageIsSection(world: World, data: seq<Byte>, image: seq<Byte>)
    requires Carries(world, data, |image|, world.crypto.sha256(image))
    requires forall b :: |b| == |image| && world.crypto.sha256(b) == world.crypto.sha256(image) ==> b == image
    ensures exists i, before, buffer, elsewhere :: IsSection(world, data, i, before, buffer, elsewhere, image)
  {
    hide ImageLoad.Loaded, ImageLoad.AllFit, Cacheable, Sections;
    var i, before, buffer, elsewhere :|
      SectionOf(world, data, i, before, buffer, elsewhere, |image|, world.crypto.sha256(image));
    assert IsSection(world, data, i, before, buffer, elsewhere, image);
  }

  /** `image` is what stands in memory for section `i` of the loaded file. */
  ghost predicate IsSection(world: World, data: seq<Byte>, i: nat, before: seq<Byte>, buffer: nat,
                            elsewhere: nat -> Byte, image: seq<Byte>)
  {
    && Tabled(world, data)
    && var c := Header(world, data);
    var ss := Sections(data, c);
    && c.sizeOfHeaders <= |data| && U32 + Relocate.REACH <= |before| && ImageLoad.AllFit(data, |before|, ss)
    && i < |ss| && Cacheable(ss[i])
    && var now := ImageLoad.Loaded(before, world.File(data), c, ss, buffer);
    image == View(now, buffer, elsewhere).Bytes(CacheBase(c, ss[i], buffer), CacheLength(c, ss[i], buffer))
  }

  /** An image whose hash stands in a well-formed denylist that is asked for its kind is
      not admitted in any run, not even as a section of a verified parent. */
  lemma {:induction false} DeniedNeverAdmitted(world: World, s: LoaderProtocol.State,
                                               actions: seq<LoaderProtocol.Action>, t: LoaderProtocol.State, k: nat,
                                               v: Option<Memory>, ls: seq<Databases.SigList>, l: Databases.SigList,
                                               sig: seq<Byte>)
    requires LoaderProtocol.Initial(s) && LoaderProtocol.Run(s, true, actions, t) && AllHonest(world, actions)
    requires k < |t.log| && t.log[k].Admitted?
    requires Verify.Encodes(v, ls) && l in ls && sig in l.sigs && Verify.Asked(world.stores, v, l.kind)
    requires forall b :: |world.crypto.sha256(b)| == 32 && |world.crypto.sha1(b)| == 20
    ensures Headed(world, t.log[k].image) && Verify.Hashable(t.log[k].image, Header(world, t.log[k].image))
    ensures var d := Verify.DigestsOf(world.crypto, t.log[k].image, Header(world, t.log[k].image));
            Databases.Payload(sig) != if l.kind == SignatureList.SHA256 then d.sha256 else d.sha1
  {
    hide Verify.Verdict, Verify.DigestsOf, Verify.Hashable, LoaderProtocol.Run, AllHonest, Verify.Encodes;
    OnlyAcceptedRuns(world, s, actions, t, k);
    var image, parent := t.log[k].image, t.log[k].viaCache;
    ApprovedIsHashable(world, image, parent, t.log[k].handle != s.shim);
    var c := Header(world, image);
    var d := Verify.DigestsOf(world.crypto, image, c);
    DigestSize(world, image, c);
    if Databases.Payload(sig) == if l.kind == SignatureList.SHA256 then d.sha256 else d.sha1 {
      Verify.DeniedNeverRuns(world.stores, world.crypto, world.File(image), c.secDir, d, parent, v, ls, l, sig);
    }
  }

  lemma {:induction false} DigestSize(world: World, data: seq<Byte>, c: Context)
    requires Verify.Hashable(data, c) && forall b :: |world.crypto.sha256(b)| == 32 && |world.crypto.sha1(b)| == 20
    ensures var d := Verify.DigestsOf(world.crypto, data, c); |d.sha256| == 32 && |d.sha1| == 20
  {
    hide Authenticode.Stream;
  }

  // ----- the same by calls and their outcomes

  function WorkOf(a: LoaderProtocol.Action): (w: LoaderProtocol.Work)
    requires a.Boot? || a.Load?
  {
    if a.Boot? then a.work else a.request.work
  }

  /** The image that call number `k` loaded for `parent` was accepted on its own, has a section of the given
      size and digest, and has not ended before call number `n`. */
  ghost predicate Backed(world: World, s: LoaderProtocol.State, actions: seq<LoaderProtocol.Action>, k: nat, n: nat,
                         parent: SectionCache.Handle, size: nat, digest: SectionCache.Digest)
    requires n <= |actions|
  {
    && LoaderRuns.LiveSince(s, actions, k, n, parent, size, digest)
    && Accepts(world, WorkOf(actions[k]).image, false, actions[k].Load?)
    && Carries(world, WorkOf(actions[k]).image, size, digest)
  }

  /** A load that succeeds in secure mode: the bytes are accepted on their own, or with a verified parent
      that is still loaded and one of whose sections has their size and digest. */
  lemma {:induction false} LoadedIsAccepted(world: World, s: LoaderProtocol.State,
                                            actions: seq<LoaderProtocol.Action>, n: nat) returns (k: nat)
    requires LoaderProtocol.Initial(s) && AllHonest(world, actions)
    requires n < |actions| && actions[n].Load? && LoaderRuns.Succeeds(s, actions, n)
    ensures var r := actions[n].request;
            var image := r.work.image;
            || Accepts(world, image, false, true)
            || (Accepts(world, image, true, true) &&
                Backed(world, s, actions, k, n, r.parent, |image|, world.crypto.sha256(image)))
  {
    hide Accepts, Carries, LoaderRuns.Succeeds, LoaderRuns.Before;
    k := LoaderRuns.LoadMeans(s, actions, n);
    var r := actions[n].request;
    assert LoaderProtocol.HonestAction(actions[n], TruthOf(world));
    if !r.work.fullVerdict {
      assert LoaderProtocol.HonestAction(actions[k], TruthOf(world));
      OfferIsCarried(world, WorkOf(actions[k]), actions[k].Load?, r.Size(), r.Digest());
    }
  }

  lemma {:induction false} OfferIsCarried(world: World, w: LoaderProtocol.Work, inProtocol: bool, size: nat,
                                          digest: SectionCache.Digest)
    requires LoaderRuns.Offers(w, size, digest) && LoaderProtocol.Honest(w, TruthOf(world), inProtocol)
    ensures Accepts(world, w.image, false, inProtocol) && Carries(world, w.image, size, digest)
  {
    hide Accepts, Carries;
    var i :| 0 <= i < |w.sections| && w.sections[i].size == size && w.sections[i].digest == digest;
    assert TruthOf(world).carries(w.image, w.sections[i].size, w.sections[i].digest);
  }

  /** What that means with well-formed databases and a well-formed certificate table: no denylist holds the
      image's hash, and an allowlist does or one of its signatures counts. */
  lemma {:induction false} AcceptedIsTrusted(world: World, p: Policy.Lists, data: seq<Byte>, parent: bool,
                                             inProtocol: bool, es: seq<Verify.Certificate>)
    requires Accepts(world, data, parent, inProtocol) && Policy.Stored(world.stores, p)
    requires forall b :: |world.crypto.sha256(b)| == 32 && |world.crypto.sha1(b)| == 20
    requires var dir := Header(world, data).secDir;
             Verify.Stands(world.File(data), dir, es) &&
             Verify.LastFits(world.File(data), dir.virtualAddress + dir.size, es)
    ensures Verify.Hashable(data, Header(world, data))
    ensures var d := Verify.DigestsOf(world.crypto, data, Header(world, data));
            && !Policy.HashDenied(p, d)
            && (|| parent || Policy.HashAllowed(world.stores, p, d)
                || exists e :: e in es && e.kind == Verify.PKCS_SIGNED_DATA &&
                     Policy.Trusted(world.stores, p, world.crypto, e.body, d))
  {
    hide Verify.Verdict, Verify.DigestsOf, Verify.Hashable, Policy.HashDenied, Policy.HashAllowed, Policy.Trusted,
         Verify.SbatTidy, Verify.SbatBytes, Verify.Stands, Verify.LastFits, Policy.Stored, HeaderAt;
    var c := Header(world, data);
    ApprovedIsHashable(world, data, parent, inProtocol);
    var d := Verify.DigestsOf(world.crypto, data, c);
    DigestSize(world, data, c);
    Policy.VerdictIff(world.stores, p, world.crypto, world.File(data), c.secDir, es, d, parent);
  }
}
