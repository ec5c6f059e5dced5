/** Base relocation (`relocate_coff` in pe-relocate.c): a table of blocks in the
    file drives in-place additions to fields of the loaded image. */
module Relocate {
  import opened Bytes
  import opened Pe

  // ----- little-endian fields of a given width

  function Range(w: nat): (n: nat)
    ensures 0 < n
  {
    if w == 0 then 1 else 0x100 * Range(w - 1)
  }

  function LeBytes(v: nat, w: nat): (s: seq<Byte>)
    ensures |s| == w
  {
    if w == 0 then [] else [v % 0x100] + LeBytes(v / 0x100, w - 1)
  }

  lemma {:induction false} LeRoundTrip(v: nat, w: nat)
    requires v < Range(w)
    ensures LeValue(LeBytes(v, w)) == v
  {
    if w > 0 {
      LeRoundTrip(v / 0x100, w - 1);
      assert LeBytes(v, w)[1..] == LeBytes(v / 0x100, w - 1);
    }
  }

  // ----- what one table entry asks for

  /** Add `delta` to the `width`-byte field at `offset`. */
  datatype Fixup = Fixup(offset: nat, width: nat, delta: nat)

  datatype Kind = Nothing | Fix(fixup: Fixup) | Unknown

  function KindOf(entry: nat, base: nat, adjust: nat): (k: Kind)
    requires entry < U16 && adjust < U64
    ensures k.Fix? ==> k.fixup.width in {2, 4, 8} && k.fixup.delta < Range(k.fixup.width)
  {
    var at := base + entry % 0x1000;
    match entry / 0x1000
    case 0 => Nothing
    case 1 => Fix(Fixup(at, 2, adjust % U32 / U16))
    case 2 => Fix(Fixup(at, 2, adjust % U16))
    case 3 => Fix(Fixup(at, 4, adjust % U32))
    case 10 => Fix(Fixup(at, 8, adjust))
    case _ => Unknown
  }

  /** The fixups asked for before the walk ended, and whether it ended well. */
  datatype Walk = Walk(fixups: seq<Fixup>, ok: bool)

  function Entries(m: Memory, pos: nat, end: nat, base: nat, adjust: nat): (w: Walk)
    requires adjust < U64
    decreases if pos < end then end - pos else 0
  {
    if end <= pos then Walk([], true)
    else
      match KindOf(m.U16At(pos), base, adjust)
      case Unknown => Walk([], false)
      case Nothing => Entries(m, pos + 2, end, base, adjust)
      case Fix(f) => var r := Entries(m, pos + 2, end, base, adjust); Walk([f] + r.fixups, r.ok)
  }

  /** The block walk; each accepted block moves it forward, so it ends. */
  function Blocks(m: Memory, pos: nat, last: nat, dirSize: nat, size: int, adjust: nat): (w: Walk)
    requires adjust < U64
    decreases if pos < last then last - pos else 0
  {
    if last <= pos then Walk([], true)
    else
      var base, blockSize := m.U32At(pos), m.U32At(pos + 4);
      if blockSize == 0 || dirSize < blockSize || size < pos + blockSize || size <= base then Walk([], false)
      else
        var e := Entries(m, pos + 8, pos + blockSize, base, adjust);
        if !e.ok then e
        else var r := Blocks(m, pos + blockSize, last, dirSize, size, adjust); Walk(e.fixups + r.fixups, r.ok)
  }

  /** The image size as a C `int`: negative from two gigabytes on. */
  function SignedSize(c: Context): (n: int)
  {
    if c.imageSize < 0x8000_0000 then c.imageSize else c.imageSize - U32
  }

  /** An offset checked against the signed size, which `ImageAddress` takes as
      an unsigned 64-bit one. */
  function SignedAddress(c: Context, address: nat): (p: Option<nat>)
  {
    ImageAddress(SignedSize(c) % U64, address)
  }

  /** Where the table starts and its last byte, in 32-bit arithmetic. */
  function Table(m: Memory, raw: Word32, c: Context, adjust: nat): (w: Walk)
    requires adjust < U64
  {
    var base := SignedAddress(c, raw);
    var last := SignedAddress(c, (raw + c.relocDir.size - 1) % U32);
    if base.None? && last.None? then Walk([], true)
    else if base.None? || last.None? then Walk([], false)
    else if adjust == 0 then Walk([], true)
    else Blocks(m, base.value, last.value, c.relocDir.size, SignedSize(c), adjust)
  }

  /** An image of two gigabytes or more is relocated only if nothing has to be. */
  lemma {:induction false} HugeImage(m: Memory, raw: Word32, c: Context, adjust: nat)
    requires adjust < U64 && 0x8000_0000 <= c.imageSize
    ensures Table(m, raw, c, adjust) == Walk([], adjust == 0 || (raw + c.relocDir.size - 1) % U32 <= raw)
  {
    assert SignedSize(c) % U64 == SignedSize(c) + U64;
  }

  // ----- applying fixups

  predicate Inside(f: Fixup, size: nat)
  {
    f.offset + f.width <= size
  }

  predicate AllInside(fs: seq<Fixup>, size: nat)
  {
    forall i :: 0 <= i < |fs| ==> Inside(fs[i], size)
  }

  /** The bytes of the field once `delta` is added modulo its width. */
  function Patched(image: seq<Byte>, f: Fixup): (s: seq<Byte>)
    requires Inside(f, |image|)
    ensures |s| == f.width
  {
    LeBytes((LeValue(image[f.offset..f.offset + f.width]) + f.delta) % Range(f.width), f.width)
  }

  function Apply(image: seq<Byte>, f: Fixup): (r: seq<Byte>)
    requires Inside(f, |image|)
    ensures |r| == |image|
  {
    image[..f.offset] + Patched(image, f) + image[f.offset + f.width..]
  }

  function ApplyAll(image: seq<Byte>, fs: seq<Fixup>): (r: seq<Byte>)
    requires AllInside(fs, |image|)
    ensures |r| == |image|
    decreases |fs|
  {
    if fs == [] then image else ApplyAll(Apply(image, fs[0]), fs[1..])
  }

  lemma {:induction false} ApplyAllConcat(image: seq<Byte>, fs: seq<Fixup>, gs: seq<Fixup>)
    requires AllInside(fs, |image|) && AllInside(gs, |image|) && AllInside(fs + gs, |image|)
    ensures ApplyAll(image, fs + gs) == ApplyAll(ApplyAll(image, fs), gs)
    decreases |fs|
  {
    if fs == [] {
      assert fs + gs == gs;
    } else {
      assert (fs + gs)[1..] == fs[1..] + gs && (fs + gs)[0] == fs[0];
      ApplyAllConcat(Apply(image, fs[0]), fs[1..], gs);
    }
  }

  predicate Apart(f: Fixup, g: Fixup)
  {
    f.offset + f.width <= g.offset || g.offset + g.width <= f.offset
  }

  /** No fixup occurs twice and different ones do not overlap. */
  ghost predicate Disjoint(fs: seq<Fixup>)
  {
    && (forall f :: multiset(fs)[f] <= 1)
    && (forall f, g :: f in fs && g in fs && f != g ==> Apart(f, g))
  }

  predicate Covers(f: Fixup, k: nat)
  {
    f.offset <= k < f.offset + f.width
  }

  lemma ApplyAt(image: seq<Byte>, f: Fixup, k: nat)
    requires Inside(f, |image|) && k < |image|
    ensures Apply(image, f)[k] == if Covers(f, k) then Patched(image, f)[k - f.offset] else image[k]
  {
  }

  /** A byte that no fixup covers stays, whatever the others do to each other. */
  lemma {:induction false} UncoveredByte(image: seq<Byte>, fs: seq<Fixup>, k: nat)
    requires AllInside(fs, |image|) && k < |image| && forall i :: 0 <= i < |fs| ==> !Covers(fs[i], k)
    ensures ApplyAll(image, fs)[k] == image[k]
    decreases |fs|
  {
    hide Apply, Patched;
    if fs != [] {
      ApplyAt(image, fs[0], k);
      UncoveredByte(Apply(image, fs[0]), fs[1..], k);
    }
  }

  lemma {:induction false} PatchedElsewhere(image: seq<Byte>, f: Fixup, g: Fixup)
    requires Inside(f, |image|) && Inside(g, |image|) && Apart(f, g)
    ensures Patched(Apply(image, f), g) == Patched(image, g)
  {
    var image' := Apply(image, f);
    assert image'[g.offset..g.offset + g.width] == image[g.offset..g.offset + g.width] by {
      forall k | g.offset <= k < g.offset + g.width ensures image'[k] == image[k] {
        ApplyAt(image, f, k);
      }
    }
  }

  lemma {:induction false} DisjointTail(fs: seq<Fixup>)
    requires Disjoint(fs) && fs != []
    ensures Disjoint(fs[1..]) && fs[0] !in fs[1..]
    ensures forall g :: g in fs[1..] ==> g in fs && Apart(fs[0], g)
  {
    var m, m' := multiset(fs), multiset(fs[1..]);
    assert fs == [fs[0]] + fs[1..];
    assert m == multiset{fs[0]} + m';
    assert m[fs[0]] <= 1;
    forall f ensures m'[f] <= 1 {
      assert m[f] <= 1;
    }
  }

  /** Every byte of the result, for disjoint fixups: patched from the original
      image by the one fixup that covers it, or unchanged. */
  lemma {:induction false} FinalByte(image: seq<Byte>, fs: seq<Fixup>, k: nat)
    requires AllInside(fs, |image|) && Disjoint(fs) && k < |image|
    ensures (forall f :: f in fs ==> !Covers(f, k)) ==> ApplyAll(image, fs)[k] == image[k]
    ensures forall f :: f in fs && Covers(f, k) ==>
              Inside(f, |image|) && ApplyAll(image, fs)[k] == Patched(image, f)[k - f.offset]
    decreases |fs|
  {
    if fs != [] {
      var first, rest := fs[0], fs[1..];
      var next := Apply(image, first);
      DisjointTail(fs);
      FinalByte(next, rest, k);
      ApplyAt(image, first, k);
      assert fs == [first] + rest;
      forall f | f in fs && Covers(f, k)
        ensures Inside(f, |image|) && ApplyAll(image, fs)[k] == Patched(image, f)[k - f.offset]
      {
        if f in rest {
          var i :| 0 <= i < |rest| && rest[i] == f;
          assert Inside(fs[i + 1], |image|);
          PatchedElsewhere(image, first, f);
        } else {
          assert forall g :: g in rest ==> !Covers(g, k);
        }
      }
    }
  }

  lemma {:induction false} FieldPatched(image: seq<Byte>, fs: seq<Fixup>, f: Fixup)
    requires AllInside(fs, |image|) && Disjoint(fs) && f in fs && Inside(f, |image|)
    ensures ApplyAll(image, fs)[f.offset..f.offset + f.width] == Patched(image, f)
  {
    hide Disjoint, Patched, ApplyAll;
    forall k | f.offset <= k < f.offset + f.width
      ensures ApplyAll(image, fs)[k] == Patched(image, f)[k - f.offset]
    {
      FinalByte(image, fs, k);
      assert Covers(f, k);
    }
  }

  lemma {:induction false} PatchedValue(image: seq<Byte>, f: Fixup)
    requires Inside(f, |image|)
    ensures LeValue(Patched(image, f)) ==
              (LeValue(image[f.offset..f.offset + f.width]) + f.delta) % Range(f.width)
  {
    hide LeValue, LeBytes, Range;
    LeRoundTrip((LeValue(image[f.offset..f.offset + f.width]) + f.delta) % Range(f.width), f.width);
  }

  /** Every field ends up as its old value plus the adjustment, modulo its
      width, and no other byte changes. */
  lemma {:induction false} FieldsAdjusted(image: seq<Byte>, fs: seq<Fixup>, i: nat)
    requires AllInside(fs, |image|) && Disjoint(fs) && i < |fs|
    ensures var f := fs[i];
            && Inside(f, |image|)
            && LeValue(ApplyAll(image, fs)[f.offset..f.offset + f.width]) ==
                 (LeValue(image[f.offset..f.offset + f.width]) + f.delta) % Range(f.width)
    ensures forall k :: 0 <= k < |image| && (forall f :: f in fs ==> !Covers(f, k)) ==>
              ApplyAll(image, fs)[k] == image[k]
  {
    hide Disjoint, LeValue, LeBytes, ApplyAll, Range, Patched, Covers;
    assert Inside(fs[i], |image|);
    FieldPatched(image, fs, fs[i]);
    PatchedValue(image, fs[i]);
    forall k | 0 <= k < |image| && forall g :: g in fs ==> !Covers(g, k)
      ensures ApplyAll(image, fs)[k] == image[k]
    {
      FinalByte(image, fs, k);
    }
  }

  /** The order of the fixups, and so of the blocks, does not matter. */
  lemma {:induction false} OrderIrrelevant(image: seq<Byte>, fs: seq<Fixup>, gs: seq<Fixup>)
    requires AllInside(fs, |image|) && Disjoint(fs) && multiset(fs) == multiset(gs)
    ensures AllInside(gs, |image|) && ApplyAll(image, gs) == ApplyAll(image, fs)
  {
    assert forall f :: f in gs <==> f in multiset(gs);
    assert forall f :: f in fs <==> f in multiset(fs);
    forall i | 0 <= i < |gs| ensures Inside(gs[i], |image|) {
      assert gs[i] in fs;
      var j :| 0 <= j < |fs| && fs[j] == gs[i];
      assert Inside(fs[j], |image|);
    }
    forall k | 0 <= k < |image| ensures ApplyAll(image, gs)[k] == ApplyAll(image, fs)[k] {
      FinalByte(image, fs, k);
      FinalByte(image, gs, k);
    }
  }

  // ----- relocate_coff

  /** `*field += delta`, for a field of `width` bytes. */
  method AddInPlace(image: array<Byte>, f: Fixup)
    requires Inside(f, image.Length)
    modifies image
    ensures image[..] == Apply(old(image[..]), f)
  {
    var new_ := Patched(image[..], f);
    ghost var was := image[..];
    forall k | 0 <= k < f.width {
      image[f.offset + k] := new_[k];
    }
    forall k | 0 <= k < |was| ensures image[k] == Apply(was, f)[k] {
      ApplyAt(was, f, k);
    }
  }

  /** One more fixup applied after `done`. */
  lemma {:induction false} AppliedNext(image: seq<Byte>, done: seq<Fixup>, f: Fixup)
    requires AllInside(done, |image|) && Inside(f, |image|)
    ensures AllInside(done + [f], |image|)
    ensures ApplyAll(image, done + [f]) == Apply(ApplyAll(image, done), f)
  {
    ApplyAllConcat(image, done, [f]);
    var r := ApplyAll(image, done);
    assert [f][1..] == [];
    assert ApplyAll(r, [f]) == ApplyAll(Apply(r, f), [f][1..]);
  }

  lemma EntriesStep(m: Memory, pos: nat, end: nat, base: nat, adjust: nat)
    requires adjust < U64
    ensures end <= pos ==> Entries(m, pos, end, base, adjust) == Walk([], true)
    ensures pos < end ==>
              var e, r := Entries(m, pos, end, base, adjust), Entries(m, pos + 2, end, base, adjust);
              match KindOf(m.U16At(pos), base, adjust)
              case Unknown => e == Walk([], false)
              case Nothing => e == r
              case Fix(f) => e == Walk([f] + r.fixups, r.ok)
  {
  }

  lemma ApplyNone(image: seq<Byte>)
    ensures ApplyAll(image, []) == image
  {
  }

  /** How far behind a block's base its fields can end. */
  const REACH := 0x1007

  lemma {:induction false} EntriesInside(m: Memory, pos: nat, end: nat, base: nat, adjust: nat, size: nat)
    requires adjust < U64 && base + REACH <= size
    ensures AllInside(Entries(m, pos, end, base, adjust).fixups, size)
    decreases if pos < end then end - pos else 0
  {
    hide Entries, KindOf;
    EntriesStep(m, pos, end, base, adjust);
    if pos < end {
      EntriesInside(m, pos + 2, end, base, adjust, size);
      KindInside(m.U16At(pos), base, adjust, size);
    }
  }

  lemma {:induction false} KindInside(entry: nat, base: nat, adjust: nat, size: nat)
    requires entry < U16 && adjust < U64 && base + REACH <= size
    ensures KindOf(entry, base, adjust).Fix? ==> Inside(KindOf(entry, base, adjust).fixup, size)
  {
  }

  /** The checks on the blocks keep every field in the image or in the 4102 bytes behind it. */
  lemma {:induction false} BlocksInside(m: Memory, pos: nat, last: nat, dirSize: nat, size: int, adjust: nat, room: nat)
    requires adjust < U64 && size + REACH - 1 <= room
    ensures AllInside(Blocks(m, pos, last, dirSize, size, adjust).fixups, room)
    decreases if pos < last then last - pos else 0
  {
    hide Entries, Memory.U32At, Blocks;
    BlocksStep(m, pos, last, dirSize, size, adjust);
    var base, n := m.U32At(pos), m.U32At(pos + 4);
    if pos < last && n != 0 && base < size {
      EntriesInside(m, pos + 8, pos + n, base, adjust, room);
      BlocksInside(m, pos + n, last, dirSize, size, adjust, room);
    }
  }

  lemma {:induction false} FixupsInside(m: Memory, raw: Word32, c: Context, adjust: nat, room: nat)
    requires adjust < U64 && c.imageSize + REACH - 1 <= room
    ensures AllInside(Table(m, raw, c, adjust).fixups, room)
  {
    hide Blocks;
    var base := SignedAddress(c, raw);
    var last := SignedAddress(c, (raw + c.relocDir.size - 1) % U32);
    if base.Some? && last.Some? {
      BlocksInside(m, base.value, last.value, c.relocDir.size, SignedSize(c), adjust, room);
    }
  }

  /** Every field that a block may ask for lies inside the image if and only if the block's
      base is that far from the end; the code asks only that the base is inside. */
  lemma {:induction false} FieldsInsideIff(base: nat, adjust: nat, size: nat)
    requires adjust < U64
    ensures (forall entry: nat :: entry < U16 && KindOf(entry, base, adjust).Fix? ==>
               Inside(KindOf(entry, base, adjust).fixup, size)) <==> base + REACH <= size
  {
    hide KindOf;
    assert KindOf(0xafff, base, adjust) == Fix(Fixup(base + 0xfff, 8, adjust)) by { LastField(base, adjust); }
    if base + REACH <= size {
      forall entry: nat | entry < U16 && KindOf(entry, base, adjust).Fix?
        ensures Inside(KindOf(entry, base, adjust).fixup, size)
      {
        KindInside(entry, base, adjust, size);
      }
    }
  }

  lemma LastField(base: nat, adjust: nat)
    requires adjust < U64
    ensures KindOf(0xafff, base, adjust) == Fix(Fixup(base + 0xfff, 8, adjust))
  {
  }

  /** Runs the entries of one block over the image. */
  method RunEntries(m: Memory, start: nat, end: nat, base: nat, adjust: nat, image: array<Byte>) returns (ok: bool)
    requires adjust < U64 && base + REACH <= image.Length
    modifies image
    ensures ok == Entries(m, start, end, base, adjust).ok
    ensures AllInside(Entries(m, start, end, base, adjust).fixups, image.Length)
    ensures image[..] == ApplyAll(old(image[..]), Entries(m, start, end, base, adjust).fixups)
  {
    hide Entries, ApplyAll, Apply, KindOf, Inside, Memory.U16At;
    EntriesInside(m, start, end, base, adjust, image.Length);
    ghost var all := Entries(m, start, end, base, adjust);
    ghost var was := image[..];
    ghost var done: seq<Fixup> := [];
    ApplyNone(was);
    var pos := start;
    while pos < end
      invariant |was| == image.Length && AllInside(done, |was|) && image[..] == ApplyAll(was, done)
      invariant all.fixups == done + Entries(m, pos, end, base, adjust).fixups
      invariant all.ok == Entries(m, pos, end, base, adjust).ok
    {
      EntriesStep(m, pos, end, base, adjust);
      match KindOf(m.U16At(pos), base, adjust) {
        case Nothing =>
        case Fix(f) =>
          KindInside(m.U16At(pos), base, adjust, |was|);
          AddInPlace(image, f);
          AppliedNext(was, done, f);
          done := done + [f];
        case Unknown =>
          assert all.fixups == done;
          return false;
      }
      pos := pos + 2;
    }
    EntriesStep(m, pos, end, base, adjust);
    assert all.fixups == done;
    return true;
  }

  lemma BlocksStep(m: Memory, pos: nat, last: nat, dirSize: nat, size: int, adjust: nat)
    requires adjust < U64
    ensures last <= pos ==> Blocks(m, pos, last, dirSize, size, adjust) == Walk([], true)
    ensures pos < last ==>
              var w, base, n := Blocks(m, pos, last, dirSize, size, adjust), m.U32At(pos), m.U32At(pos + 4);
              if n == 0 || dirSize < n || size < pos + n || size <= base then w == Walk([], false)
              else
                var e := Entries(m, pos + 8, pos + n, base, adjust);
                var r := Blocks(m, pos + n, last, dirSize, size, adjust);
                w == if e.ok then Walk(e.fixups + r.fixups, r.ok) else e
  {
  }

  /** Runs every block; `last` is the address of the table's last byte. */
  method RunBlocks(m: Memory, start: nat, last: nat, c: Context, adjust: nat, image: array<Byte>) returns (ok: bool)
    requires adjust < U64 && c.imageSize + REACH - 1 <= image.Length
    modifies image
    ensures ok == Blocks(m, start, last, c.relocDir.size, SignedSize(c), adjust).ok
    ensures AllInside(Blocks(m, start, last, c.relocDir.size, SignedSize(c), adjust).fixups, image.Length)
    ensures image[..] == ApplyAll(old(image[..]), Blocks(m, start, last, c.relocDir.size, SignedSize(c), adjust).fixups)
  {
    hide Entries, ApplyAll, Memory.U32At, Blocks;
    var size := SignedSize(c);
    BlocksInside(m, start, last, c.relocDir.size, size, adjust, image.Length);
    ghost var all := Blocks(m, start, last, c.relocDir.size, size, adjust);
    ghost var was := image[..];
    ghost var done: seq<Fixup> := [];
    ApplyNone(was);
    var pos := start;
    while pos < last
      invariant |was| == image.Length && AllInside(done, |was|) && image[..] == ApplyAll(was, done)
      invariant all.fixups == done + Blocks(m, pos, last, c.relocDir.size, size, adjust).fixups
      invariant all.ok == Blocks(m, pos, last, c.relocDir.size, size, adjust).ok
    {
      BlocksStep(m, pos, last, c.relocDir.size, size, adjust);
      var base, blockSize := m.U32At(pos), m.U32At(pos + 4);
      if blockSize == 0 {
        assert all.fixups == done;
        return false;
      } else if c.relocDir.size < blockSize {
        assert all.fixups == done;
        return false;
      }
      var end := pos + blockSize;
      if size < end || SignedAddress(c, base).None? {
        assert all.fixups == done;
        return false;
      }
      ghost var e := Entries(m, pos + 8, end, base, adjust);
      BlockInside(all.fixups, done, e.fixups, Blocks(m, pos, last, c.relocDir.size, size, adjust).fixups, |was|);
      ApplyAllConcat(was, done, e.fixups);
      ok := RunEntries(m, pos + 8, end, base, adjust, image);
      done := done + e.fixups;
      if !ok {
        return false;
      }
      pos := end;
    }
    BlocksStep(m, pos, last, c.relocDir.size, size, adjust);
    assert all.fixups == done;
    return true;
  }

  lemma {:induction false} BlockInside(all: seq<Fixup>, done: seq<Fixup>, e: seq<Fixup>, rest: seq<Fixup>, size: nat)
    requires AllInside(all, size) && all == done + rest && e <= rest
    ensures AllInside(e, size) && AllInside(done, size) && AllInside(done + e, size)
  {
    forall i | 0 <= i < |e| ensures Inside(e[i], size) {
      assert all[|done| + i] == e[i];
    }
    forall i | 0 <= i < |done| ensures Inside(done[i], size) {
      assert all[i] == done[i];
    }
  }

  /** Relocates the image, given with the memory behind it. */
  method RelocateCoff(m: Memory, raw: Word32, c: Context, adjust: nat, image: array<Byte>) returns (status: Status)
    requires adjust < U64 && c.imageSize + REACH - 1 <= image.Length
    modifies image
    ensures status == if Table(m, raw, c, adjust).ok then Success else Unsupported
    ensures AllInside(Table(m, raw, c, adjust).fixups, image.Length)
    ensures image[..] == ApplyAll(old(image[..]), Table(m, raw, c, adjust).fixups)
  {
    hide Blocks, ApplyAll, AllInside, SignedAddress;
    FixupsInside(m, raw, c, adjust, image.Length);
    ApplyNone(image[..]);
    var base := SignedAddress(c, raw);
    var last := SignedAddress(c, (raw + c.relocDir.size - 1) % U32);
    if base.None? && last.None? {
      return Success;
    }
    if base.None? || last.None? {
      return Unsupported;
    }
    if adjust == 0 {
      return Success;
    }
    var ok := RunBlocks(m, base.value, last.value, c, adjust, image);
    return if ok then Success else Unsupported;
  }

  // ----- well-formed tables

  datatype Block = Block(base: Word32, entries: seq<Word16>)

  function BlockSize(b: Block): (n: nat) { 8 + 2 * |b.entries| }

  predicate WellFormed(b: Block, size: nat)
  {
    && BlockSize(b) < U32 && b.base < size
    && forall i :: 0 <= i < |b.entries| ==> b.entries[i] / 0x1000 in {0, 1, 2, 3, 10}
  }

  function EncodeTable(bs: seq<Block>): (s: seq<Byte>)
  {
    if bs == [] then []
    else (Le32(bs[0].base) + Le32(BlockSize(bs[0]) % U32)) + Le16s(bs[0].entries) + EncodeTable(bs[1..])
  }

  function FixupsOf(es: seq<Word16>, base: nat, adjust: nat): (fs: seq<Fixup>)
    requires adjust < U64
  {
    if es == [] then []
    else
      var k := KindOf(es[0], base, adjust);
      (if k.Fix? then [k.fixup] else []) + FixupsOf(es[1..], base, adjust)
  }

  function TableFixups(bs: seq<Block>, adjust: nat): (fs: seq<Fixup>)
    requires adjust < U64
  {
    if bs == [] then [] else FixupsOf(bs[0].entries, bs[0].base, adjust) + TableFixups(bs[1..], adjust)
  }

  lemma {:induction false} EntriesDecode(m: Memory, pos: nat, es: seq<Word16>, base: nat, adjust: nat)
    requires adjust < U64 && Holds(m, pos, Le16s(es))
    requires forall i :: 0 <= i < |es| ==> es[i] / 0x1000 in {0, 1, 2, 3, 10}
    ensures Entries(m, pos, pos + 2 * |es|, base, adjust) == Walk(FixupsOf(es, base, adjust), true)
    decreases |es|
  {
    if es != [] {
      HoldsParts(m, pos, Le16(es[0]), Le16s(es[1..]));
      ReadLe16(m, pos, es[0]);
      EntriesDecode(m, pos + 2, es[1..], base, adjust);
    }
  }

  /** Walking the encoding of a table visits its blocks and entries in order. */
  lemma {:induction false} TableDecodes(m: Memory, pos: nat, bs: seq<Block>, dirSize: nat, size: nat, adjust: nat)
    requires adjust < U64 && bs != [] && forall i :: 0 <= i < |bs| ==> WellFormed(bs[i], size)
    requires Holds(m, pos, EncodeTable(bs)) && pos + |EncodeTable(bs)| <= size && |EncodeTable(bs)| <= dirSize
    ensures Blocks(m, pos, pos + |EncodeTable(bs)| - 1, dirSize, size, adjust) == Walk(TableFixups(bs, adjust), true)
    decreases |bs|
  {
    hide Entries, Le16s, FixupsOf, Memory.U32At, EncodeTable, Holds, Blocks;
    assert WellFormed(bs[0], size);
    var b, rest := bs[0], bs[1..];
    BlockDecodes(m, pos, bs);
    EntriesDecode(m, pos + 8, b.entries, b.base, adjust);
    var last, next := pos + |EncodeTable(bs)| - 1, pos + BlockSize(b);
    BlocksStep(m, pos, last, dirSize, size, adjust);
    if rest == [] {
      BlocksStep(m, next, last, dirSize, size, adjust);
    } else {
      TableDecodes(m, next, rest, dirSize, size, adjust);
    }
  }

  lemma {:induction false} BlockDecodes(m: Memory, pos: nat, bs: seq<Block>)
    requires bs != [] && BlockSize(bs[0]) < U32 && Holds(m, pos, EncodeTable(bs))
    ensures m.U32At(pos) == bs[0].base && m.U32At(pos + 4) == BlockSize(bs[0])
    ensures Holds(m, pos + 8, Le16s(bs[0].entries))
    ensures Holds(m, pos + BlockSize(bs[0]), EncodeTable(bs[1..]))
    ensures |EncodeTable(bs)| == BlockSize(bs[0]) + |EncodeTable(bs[1..])|
    ensures EncodeTable([]) == []
  {
    hide Le16s, Holds, Memory.U32At, Le32;
    var b, rest := bs[0], EncodeTable(bs[1..]);
    var header, entries := Le32(b.base) + Le32(BlockSize(b)), Le16s(b.entries);
    Assoc(header, entries, rest);
    HoldsParts(m, pos, header, entries + rest);
    HoldsParts(m, pos + 8, entries, rest);
    HoldsParts(m, pos, Le32(b.base), Le32(BlockSize(b)));
    ReadLe32(m, pos, b.base);
    ReadLe32(m, pos + 4, BlockSize(b));
  }

  /** A table that the walk accepts, with its only block at the last byte of the image, asks for a
      field that lies behind the image. */
  lemma {:induction false} FieldBehindImage(m: Memory, pos: nat, dirSize: nat, size: nat, adjust: nat)
    requires 0 < size <= U32 && adjust < U64 && Holds(m, pos, EncodeTable([Block(size - 1, [0xafff])]))
    requires pos + 10 <= size && 10 <= dirSize
    ensures Blocks(m, pos, pos + 9, dirSize, size, adjust) == Walk([Fixup(size - 1 + 0xfff, 8, adjust)], true)
    ensures !AllInside(Blocks(m, pos, pos + 9, dirSize, size, adjust).fixups, size)
  {
    hide Entries, Le16s, Memory.U32At, EncodeTable, Holds, Blocks, KindOf, TableFixups, FixupsOf;
    var bs := [Block(size - 1, [0xafff])];
    BlockDecodes(m, pos, bs);
    assert bs[1..] == [] && BlockSize(bs[0]) == 10;
    LastField(size - 1, adjust);
    assert TableFixups(bs, adjust) == [Fixup(size - 1 + 0xfff, 8, adjust)] by {
      OneFixup(bs, adjust);
    }
    TableDecodes(m, pos, bs, dirSize, size, adjust);
    assert !Inside([Fixup(size - 1 + 0xfff, 8, adjust)][0], size);
  }

  lemma {:induction false} OneFixup(bs: seq<Block>, adjust: nat)
    requires adjust < U64 && |bs| == 1 && |bs[0].entries| == 1 && KindOf(bs[0].entries[0], bs[0].base, adjust).Fix?
    ensures TableFixups(bs, adjust) == [KindOf(bs[0].entries[0], bs[0].base, adjust).fixup]
  {
    hide KindOf;
    var es := bs[0].entries;
    assert es[1..] == [] && FixupsOf(es[1..], bs[0].base, adjust) == [];
    assert bs[1..] == [] && TableFixups(bs[1..], adjust) == [];
  }

  lemma {:induction false} FixupsSplit(bs: seq<Block>, i: nat, adjust: nat)
    requires adjust < U64 && i <= |bs|
    ensures TableFixups(bs, adjust) == TableFixups(bs[..i], adjust) + TableFixups(bs[i..], adjust)
  {
    if i > 0 {
      var first := FixupsOf(bs[0].entries, bs[0].base, adjust);
      FixupsSplit(bs[1..], i - 1, adjust);
      assert bs[..i][1..] == bs[1..][..i - 1] && bs[i..] == bs[1..][i - 1..];
      Assoc(first, TableFixups(bs[1..][..i - 1], adjust), TableFixups(bs[i..], adjust));
    } else {
      assert bs[0..] == bs && bs[..0] == [];
    }
  }

  lemma {:induction false} FixupsAround(ds: seq<Block>, i: nat, adjust: nat)
    requires adjust < U64 && i < |ds|
    ensures multiset(TableFixups(ds, adjust)) ==
              multiset(FixupsOf(ds[i].entries, ds[i].base, adjust)) +
              multiset(TableFixups(ds[..i] + ds[i + 1..], adjust))
  {
    var others := ds[..i] + ds[i + 1..];
    FixupsSplit(ds, i, adjust);
    FixupsSplit(others, i, adjust);
    assert others[..i] == ds[..i] && others[i..] == ds[i + 1..] && ds[i..][1..] == ds[i + 1..];
  }

  lemma {:induction false} FixupsOfPermutation(bs: seq<Block>, ds: seq<Block>, adjust: nat)
    requires adjust < U64 && multiset(bs) == multiset(ds)
    ensures multiset(TableFixups(bs, adjust)) == multiset(TableFixups(ds, adjust))
    decreases |bs|
  {
    hide TableFixups, FixupsOf;
    assert |multiset(bs)| == |bs| && |multiset(ds)| == |ds|;
    if bs == [] {
      assert ds == [];
    } else {
      var i := FindFirst(bs, ds);
      FixupsFirst(bs, adjust);
      FixupsAround(ds, i, adjust);
      FixupsOfPermutation(bs[1..], ds[..i] + ds[i + 1..], adjust);
    }
  }

  lemma {:induction false} FindFirst(bs: seq<Block>, ds: seq<Block>) returns (i: nat)
    requires bs != [] && multiset(bs) == multiset(ds)
    ensures i < |ds| && ds[i] == bs[0] && multiset(bs[1..]) == multiset(ds[..i] + ds[i + 1..])
  {
    assert bs[0] in multiset(ds);
    i :| 0 <= i < |ds| && ds[i] == bs[0];
    RemoveAt(bs, 0);
    RemoveAt(ds, i);
    assert bs[..0] + bs[1..] == bs[1..];
    Cancel(multiset(bs[1..]), multiset(ds[..i] + ds[i + 1..]), bs[0]);
  }

  lemma {:induction false} FixupsFirst(bs: seq<Block>, adjust: nat)
    requires adjust < U64 && bs != []
    ensures multiset(TableFixups(bs, adjust)) ==
              multiset(FixupsOf(bs[0].entries, bs[0].base, adjust)) + multiset(TableFixups(bs[1..], adjust))
  {
    hide FixupsOf;
  }

  /** Two tables with the same blocks, in any order, relocate alike. */
  lemma {:induction false} BlockOrderIrrelevant(image: seq<Byte>, m: Memory, m': Memory, pos: nat, bs: seq<Block>,
                                                ds: seq<Block>, dirSize: nat, size: nat, adjust: nat)
    requires adjust < U64 && bs != [] && multiset(bs) == multiset(ds)
    requires forall i :: 0 <= i < |bs| ==> WellFormed(bs[i], size)
    requires forall i :: 0 <= i < |ds| ==> WellFormed(ds[i], size)
    requires Holds(m, pos, EncodeTable(bs)) && Holds(m', pos, EncodeTable(ds))
    requires pos + |EncodeTable(bs)| <= size && |EncodeTable(bs)| <= dirSize
    requires pos + |EncodeTable(ds)| <= size && |EncodeTable(ds)| <= dirSize
    requires AllInside(TableFixups(bs, adjust), |image|) && Disjoint(TableFixups(bs, adjust))
    ensures var w := Blocks(m, pos, pos + |EncodeTable(bs)| - 1, dirSize, size, adjust);
            var w' := Blocks(m', pos, pos + |EncodeTable(ds)| - 1, dirSize, size, adjust);
            && w.ok && w'.ok && AllInside(w.fixups, |image|) && AllInside(w'.fixups, |image|)
            && ApplyAll(image, w.fixups) == ApplyAll(image, w'.fixups)
  {
    hide EncodeTable, TableFixups, ApplyAll, Disjoint, Blocks, WellFormed;
    assert |multiset(bs)| == |bs| && |multiset(ds)| == |ds|;
    TableDecodes(m, pos, bs, dirSize, size, adjust);
    TableDecodes(m', pos, ds, dirSize, size, adjust);
    FixupsOfPermutation(bs, ds, adjust);
    OrderIrrelevant(image, TableFixups(bs, adjust), TableFixups(ds, adjust));
  }
}
