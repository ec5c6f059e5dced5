/** What a well-formed relocation table does to memory, entry by entry. */
module FixupTable {
  import opened Bytes
  import opened Pe
  import opened Relocate

  /** What one entry asks for: a place, and the type of the relocation. */
  datatype Ask = Ask(at: nat, kind: nat)

  /** How many bytes an entry of a type changes: none for padding, a word for the high
      and the low half of the adjustment, four or eight bytes for all of it. */
  function Size(kind: nat): (n: nat)
  {
    match kind
    case 1 => 2
    case 2 => 2
    case 3 => 4
    case 10 => 8
    case _ => 0
  }

  function AsksOf(base: nat, es: seq<Word16>): (r: seq<Ask>)
    ensures |r| == |es| && forall i :: 0 <= i < |es| ==> r[i] == Ask(base + es[i] % 0x1000, es[i] / 0x1000)
  {
    seq(|es|, i requires 0 <= i < |es| => Ask(base + es[i] % 0x1000, es[i] / 0x1000))
  }

  /** The entries of all blocks, in order. */
  function Asks(bs: seq<Block>): (r: seq<Ask>)
  {
    if bs == [] then [] else AsksOf(bs[0].base, bs[0].entries) + Asks(bs[1..])
  }

  /** Every entry of every block is there. */
  lemma {:induction false} EntryAsked(bs: seq<Block>, i: nat, j: nat)
    requires i < |bs| && j < |bs[i].entries|
    ensures Ask(bs[i].base + bs[i].entries[j] % 0x1000, bs[i].entries[j] / 0x1000) in Asks(bs)
  {
    if i > 0 {
      EntryAsked(bs[1..], i - 1, j);
    } else {
      assert AsksOf(bs[0].base, bs[0].entries)[j] in Asks(bs);
    }
  }

  predicate Touches(a: Ask, k: nat) { a.at <= k < a.at + Size(a.kind) }

  /** No entry of the table asks for the byte. */
  predicate Outside(bs: seq<Block>, k: nat)
  {
    forall a :: a in Asks(bs) ==> !Touches(a, k)
  }

  predicate InMemory(rs: seq<Ask>, size: nat)
  {
    forall i :: 0 <= i < |rs| && Size(rs[i].kind) != 0 ==> rs[i].at + Size(rs[i].kind) <= size
  }

  /** No byte is asked for twice. */
  ghost predicate FieldsApart(rs: seq<Ask>)
  {
    forall i, j :: 0 <= i < j < |rs| ==>
      || Size(rs[i].kind) == 0 || Size(rs[j].kind) == 0
      || rs[i].at + Size(rs[i].kind) <= rs[j].at || rs[j].at + Size(rs[j].kind) <= rs[i].at
  }

  predicate Known(kind: nat) { kind in {0, 1, 2, 3, 10} }

  // ----- entries and fixups

  function Added(kind: nat, adjust: nat): (n: nat)
  {
    match kind
    case 1 => adjust / U16 % U16
    case 2 => adjust % U16
    case 3 => adjust % U32
    case _ => adjust
  }

  function FixupOf(a: Ask, adjust: nat): (f: Fixup) { Fixup(a.at, Size(a.kind), Added(a.kind, adjust)) }

  function Fixups(rs: seq<Ask>, adjust: nat): (fs: seq<Fixup>)
  {
    if rs == [] then []
    else (if Size(rs[0].kind) == 0 then [] else [FixupOf(rs[0], adjust)]) + Fixups(rs[1..], adjust)
  }

  lemma {:induction false} KindIs(e: Word16, base: nat, adjust: nat)
    requires adjust < U64 && Known(e / 0x1000)
    ensures KindOf(e, base, adjust) ==
              var a := Ask(base + e % 0x1000, e / 0x1000);
              if Size(a.kind) == 0 then Nothing else Fix(FixupOf(a, adjust))
  {
    UpperHalf(adjust);
  }

  lemma UpperHalf(adjust: nat)
    ensures adjust % U32 / U16 == adjust / U16 % U16
  {
  }

  lemma {:induction false} BlockFixups(es: seq<Word16>, base: nat, adjust: nat)
    requires adjust < U64 && forall i :: 0 <= i < |es| ==> Known(es[i] / 0x1000)
    ensures FixupsOf(es, base, adjust) == Fixups(AsksOf(base, es), adjust)
    decreases |es|
  {
    hide KindOf, FixupOf, Size;
    if es != [] {
      KindIs(es[0], base, adjust);
      BlockFixups(es[1..], base, adjust);
      assert AsksOf(base, es)[1..] == AsksOf(base, es[1..]);
    }
  }

  lemma {:induction false} FixupsJoin(rs: seq<Ask>, more: seq<Ask>, adjust: nat)
    ensures Fixups(rs + more, adjust) == Fixups(rs, adjust) + Fixups(more, adjust)
  {
    hide FixupOf, Size;
    if rs == [] {
      assert rs + more == more;
    } else {
      assert (rs + more)[1..] == rs[1..] + more;
      FixupsJoin(rs[1..], more, adjust);
      var first := if Size(rs[0].kind) == 0 then [] else [FixupOf(rs[0], adjust)];
      Assoc(first, Fixups(rs[1..], adjust), Fixups(more, adjust));
    }
  }

  lemma {:induction false} TableFixupsAre(bs: seq<Block>, size: nat, adjust: nat)
    requires adjust < U64 && forall i :: 0 <= i < |bs| ==> WellFormed(bs[i], size)
    ensures TableFixups(bs, adjust) == Fixups(Asks(bs), adjust)
    decreases |bs|
  {
    hide FixupsOf, Fixups;
    if bs == [] {
      assert Fixups([], adjust) == [] by { NoFixups(adjust); }
    } else {
      assert WellFormed(bs[0], size);
      BlockFixups(bs[0].entries, bs[0].base, adjust);
      TableFixupsAre(bs[1..], size, adjust);
      FixupsJoin(AsksOf(bs[0].base, bs[0].entries), Asks(bs[1..]), adjust);
    }
  }

  lemma NoFixups(adjust: nat)
    ensures Fixups([], adjust) == []
  {
  }

  lemma {:induction false} FixupsMembers(rs: seq<Ask>, adjust: nat, f: Fixup)
    ensures f in Fixups(rs, adjust) <==> exists a :: a in rs && Size(a.kind) != 0 && f == FixupOf(a, adjust)
  {
    hide FixupOf, Size;
    if rs != [] {
      FixupsMembers(rs[1..], adjust, f);
      assert rs == [rs[0]] + rs[1..];
    }
  }

  lemma {:induction false} DisjointCons(f: Fixup, fs: seq<Fixup>)
    requires Disjoint(fs) && 0 < f.width && forall g :: g in fs ==> Relocate.Apart(f, g)
    ensures Disjoint([f] + fs)
  {
    assert f !in fs;
    assert multiset([f] + fs) == multiset{f} + multiset(fs);
    forall g ensures multiset([f] + fs)[g] <= 1 {
      assert multiset(fs)[g] <= 1 && (g == f ==> g !in multiset(fs));
    }
  }

  lemma {:induction false} FixupsDisjoint(rs: seq<Ask>, adjust: nat)
    requires FieldsApart(rs)
    ensures Disjoint(Fixups(rs, adjust))
  {
    hide Disjoint, Size, FieldsApart;
    if rs == [] {
      assert Disjoint(Fixups(rs, adjust)) by { NoneDisjoint(adjust); }
    } else {
      var rest, first := rs[1..], FixupOf(rs[0], adjust);
      TailApart(rs);
      FixupsDisjoint(rest, adjust);
      if Size(rs[0].kind) != 0 {
        forall g | g in Fixups(rest, adjust) ensures Relocate.Apart(first, g) {
          FirstApart(rs, adjust, g);
        }
        DisjointCons(first, Fixups(rest, adjust));
      } else {
        assert Fixups(rs, adjust) == Fixups(rest, adjust);
      }
    }
  }

  lemma {:induction false} TailApart(rs: seq<Ask>)
    requires FieldsApart(rs) && rs != []
    ensures FieldsApart(rs[1..])
  {
    hide Size;
    var rest := rs[1..];
    assert forall i :: 0 <= i < |rest| ==> rest[i] == rs[i + 1];
  }

  lemma {:induction false} FirstApart(rs: seq<Ask>, adjust: nat, g: Fixup)
    requires FieldsApart(rs) && rs != [] && Size(rs[0].kind) != 0 && g in Fixups(rs[1..], adjust)
    ensures Relocate.Apart(FixupOf(rs[0], adjust), g)
  {
    hide Size, Fixups;
    var rest := rs[1..];
    FixupsMembers(rest, adjust, g);
    var a :| a in rest && Size(a.kind) != 0 && g == FixupOf(a, adjust);
    var i :| 0 <= i < |rest| && rest[i] == a;
    assert rs[i + 1] == a;
  }

  lemma NoneDisjoint(adjust: nat)
    ensures Disjoint(Fixups([], adjust))
  {
    assert Fixups([], adjust) == [];
  }

  lemma {:induction false} FixupsInMemory(rs: seq<Ask>, adjust: nat, size: nat)
    requires InMemory(rs, size)
    ensures AllInside(Fixups(rs, adjust), size)
  {
    var fs := Fixups(rs, adjust);
    forall j | 0 <= j < |fs| ensures Inside(fs[j], size) {
      FixupsMembers(rs, adjust, fs[j]);
      var a :| a in rs && Size(a.kind) != 0 && fs[j] == FixupOf(a, adjust);
      var i :| 0 <= i < |rs| && rs[i] == a;
    }
  }

  // ----- what a table does

  lemma Ranges()
    ensures Range(2) == U16 && Range(4) == U32 && Range(8) == U64
  {
    assert Range(1) == 0x100;
    assert Range(3) == 0x100 * Range(2);
    assert Range(5) == 0x100 * Range(4) && Range(6) == 0x100 * Range(5) && Range(7) == 0x100 * Range(6);
  }

  /** The `n` bytes at `at` are what they were plus `delta`, modulo `range`. */
  ghost predicate Plus(was: seq<Byte>, now: seq<Byte>, at: nat, n: nat, delta: nat, range: nat)
    requires |was| == |now| && 0 < range
  {
    at + n <= |was| && LeValue(now[at..at + n]) == (LeValue(was[at..at + n]) + delta) % range
  }

  /** Memory before and after, at the field of one entry: the eight, four or two bytes that the entry names
      have the adjustment added, or its upper half; padding changes nothing. */
  ghost predicate Adjusted(was: seq<Byte>, now: seq<Byte>, a: Ask, adjust: nat)
    requires |was| == |now|
  {
    && (a.kind == 10 ==> Plus(was, now, a.at, 8, adjust, 0x1_0000_0000_0000_0000))
    && (a.kind == 3 ==> Plus(was, now, a.at, 4, adjust, 0x1_0000_0000))
    && (a.kind == 2 ==> Plus(was, now, a.at, 2, adjust, 0x1_0000))
    && (a.kind == 1 ==> Plus(was, now, a.at, 2, adjust / 0x1_0000, 0x1_0000))
  }

  lemma {:induction false} FieldAdjusted(image: seq<Byte>, rs: seq<Ask>, adjust: nat, a: Ask)
    requires adjust < U64 && InMemory(rs, |image|) && FieldsApart(rs) && a in rs
    ensures AllInside(Fixups(rs, adjust), |image|)
    ensures Adjusted(image, ApplyAll(image, Fixups(rs, adjust)), a, adjust)
  {
    hide Disjoint, ApplyAll, LeValue, Range, FieldsApart;
    FixupsInMemory(rs, adjust, |image|);
    FixupsDisjoint(rs, adjust);
    var fs := Fixups(rs, adjust);
    if Size(a.kind) != 0 {
      FixupsMembers(rs, adjust, FixupOf(a, adjust));
      var i :| 0 <= i < |fs| && fs[i] == FixupOf(a, adjust);
      FieldsAdjusted(image, fs, i);
      Ranges();
      var v := LeValue(image[a.at..a.at + Size(a.kind)]);
      if a.kind == 3 {
        AddedModulo(v, adjust, U32);
      } else if a.kind == 2 {
        AddedModulo(v, adjust, U16);
      } else if a.kind == 1 {
        AddedModulo(v, adjust / U16, U16);
      }
    }
  }

  lemma AddedModulo(v: nat, a: nat, n: nat)
    requires n in {U16, U32}
    ensures (v + a % n) % n == (v + a) % n
  {
  }

  /** A table of well-formed blocks whose fields do not overlap is accepted; every entry changes its field
      as its type says, and no other byte changes. */
  lemma {:induction false} TableRelocates(image: seq<Byte>, m: Memory, pos: nat, bs: seq<Block>, dirSize: nat,
                                          size: nat, adjust: nat)
    requires adjust < U64 && bs != [] && forall i :: 0 <= i < |bs| ==> WellFormed(bs[i], size)
    requires Holds(m, pos, EncodeTable(bs)) && pos + |EncodeTable(bs)| <= size && |EncodeTable(bs)| <= dirSize
    requires InMemory(Asks(bs), |image|) && FieldsApart(Asks(bs))
    ensures var w := Blocks(m, pos, pos + |EncodeTable(bs)| - 1, dirSize, size, adjust);
            && w.ok && AllInside(w.fixups, |image|)
            && var now := ApplyAll(image, w.fixups);
            && (forall a :: a in Asks(bs) ==> Adjusted(image, now, a, adjust))
            && (forall k :: 0 <= k < |image| && Outside(bs, k) ==> now[k] == image[k])
  {
    hide Blocks, EncodeTable, TableFixups, Asks, Adjusted, Holds, ApplyAll, FieldsApart, InMemory, Fixups, WellFormed;
    var rs := Asks(bs);
    TableDecodes(m, pos, bs, dirSize, size, adjust);
    TableFixupsAre(bs, size, adjust);
    FixupsInMemory(rs, adjust, |image|);
    forall a | a in rs ensures Adjusted(image, ApplyAll(image, Fixups(rs, adjust)), a, adjust) {
      FieldAdjusted(image, rs, adjust, a);
    }
    forall k | 0 <= k < |image| && Outside(bs, k)
      ensures ApplyAll(image, Fixups(rs, adjust))[k] == image[k]
    {
      OtherByte(image, rs, adjust, k);
    }
  }

  lemma {:induction false} OtherByte(image: seq<Byte>, rs: seq<Ask>, adjust: nat, k: nat)
    requires AllInside(Fixups(rs, adjust), |image|) && k < |image| && forall a :: a in rs ==> !Touches(a, k)
    ensures ApplyAll(image, Fixups(rs, adjust))[k] == image[k]
  {
    hide ApplyAll, Fixups;
    var fs := Fixups(rs, adjust);
    forall j | 0 <= j < |fs| ensures !Covers(fs[j], k) {
      FixupsMembers(rs, adjust, fs[j]);
    }
    UncoveredByte(image, fs, k);
  }

  lemma {:induction false} ValueBound(s: seq<Byte>)
    ensures LeValue(s) < Range(|s|)
  {
    if s != [] {
      ValueBound(s[1..]);
    }
  }

  lemma {:induction false} NothingAdded(image: seq<Byte>, a: Ask)
    requires a.at + Size(a.kind) <= |image|
    ensures Adjusted(image, image, a, 0)
  {
    hide LeValue, Range;
    Ranges();
    ValueBound(image[a.at..a.at + Size(a.kind)]);
  }

  lemma {:induction false} StaysPut(image: seq<Byte>, rs: seq<Ask>, a: Ask)
    requires InMemory(rs, |image|) && a in rs && Size(a.kind) != 0
    ensures Adjusted(image, image, a, 0)
  {
    hide Adjusted, Size;
    var i :| 0 <= i < |rs| && rs[i] == a;
    NothingAdded(image, a);
  }

  lemma {:induction false} TableIsBlocks(m: Memory, raw: Word32, c: Context, bs: seq<Block>, adjust: nat)
    requires adjust < U64 && c.imageSize < 0x8000_0000 && bs != [] && WellFormed(bs[0], c.imageSize)
    requires Holds(m, raw, EncodeTable(bs)) && raw + |EncodeTable(bs)| <= c.imageSize
    requires c.relocDir.size == |EncodeTable(bs)|
    ensures Table(m, raw, c, adjust) ==
              if adjust == 0 then Walk([], true)
              else Blocks(m, raw, raw + |EncodeTable(bs)| - 1, c.relocDir.size, c.imageSize, adjust)
  {
    hide Blocks, EncodeTable, Holds, Table;
    BlockDecodes(m, raw, bs);
    TableAt(m, raw, c, adjust);
  }

  lemma {:induction false} TableAt(m: Memory, raw: Word32, c: Context, adjust: nat)
    requires adjust < U64 && c.imageSize < 0x8000_0000
    requires 0 < c.relocDir.size && raw + c.relocDir.size <= c.imageSize
    ensures Table(m, raw, c, adjust) ==
              if adjust == 0 then Walk([], true)
              else Blocks(m, raw, raw + c.relocDir.size - 1, c.relocDir.size, c.imageSize, adjust)
  {
    hide Blocks, SignedSize, SignedAddress;
    var last := raw + c.relocDir.size - 1;
    assert last % U32 == last;
    Unsigned(c, raw);
    Unsigned(c, last);
  }

  /** Below two gigabytes the signed size makes no difference. */
  lemma Unsigned(c: Context, address: nat)
    requires c.imageSize < 0x8000_0000
    ensures SignedSize(c) == c.imageSize && SignedAddress(c, address) == ImageAddress(c.imageSize, address)
  {
  }

  /** The same for the whole of `relocate_coff`, on an image below two gigabytes whose relocation directory
      is the table; an adjustment of zero needs no walk. */
  lemma {:induction false} CoffRelocates(image: seq<Byte>, m: Memory, raw: Word32, c: Context, bs: seq<Block>,
                                         adjust: nat)
    requires adjust < U64 && c.imageSize < 0x8000_0000
    requires bs != [] && forall i :: 0 <= i < |bs| ==> WellFormed(bs[i], c.imageSize)
    requires Holds(m, raw, EncodeTable(bs)) && raw + |EncodeTable(bs)| <= c.imageSize
    requires c.relocDir.size == |EncodeTable(bs)|
    requires InMemory(Asks(bs), |image|) && FieldsApart(Asks(bs))
    ensures var w := Table(m, raw, c, adjust);
            && w.ok && AllInside(w.fixups, |image|)
            && var now := ApplyAll(image, w.fixups);
            && (forall a :: a in Asks(bs) && Size(a.kind) != 0 ==> Adjusted(image, now, a, adjust))
            && (forall k :: 0 <= k < |image| && Outside(bs, k) ==> now[k] == image[k])
  {
    hide Blocks, EncodeTable, Asks, Adjusted, Holds, ApplyAll, FieldsApart, WellFormed, Size, Outside, InMemory, Table;
    assert WellFormed(bs[0], c.imageSize);
    TableIsBlocks(m, raw, c, bs, adjust);
    if adjust == 0 {
      ApplyNone(image);
      forall a | a in Asks(bs) && Size(a.kind) != 0 ensures Adjusted(image, image, a, 0) {
        StaysPut(image, Asks(bs), a);
      }
    } else {
      TableRelocates(image, m, raw, bs, c.relocDir.size, c.imageSize, adjust);
    }
  }

  /** A directory that starts and ends outside the image relocates nothing, and one that does only one of both
      is refused. */
  lemma {:induction false} DirectoryOutside(m: Memory, raw: Word32, c: Context, adjust: nat)
    requires adjust < U64 && c.imageSize < 0x8000_0000
    ensures var last := (raw + c.relocDir.size - 1) % U32;
            && (c.imageSize <= raw && c.imageSize <= last ==> Table(m, raw, c, adjust) == Walk([], true))
            && ((c.imageSize <= raw <==> last < c.imageSize) ==> Table(m, raw, c, adjust) == Walk([], false))
  {
    hide Blocks;
  }
}
