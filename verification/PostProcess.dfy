/** The build-time fixes of post-process-pe.c: the NX flag, the timestamp and
    the checksum of a PE file, made in a mapping of the file. */
module PostProcess {
  import opened Bytes

  // Offsets from the PE signature; the same for 32-bit and 64-bit images.
  const TIMESTAMP := 8
  const CHECKSUM := 88
  const DLL_CHARACTERISTICS := 94
  const NUMBER_OF_SECTIONS := 6
  const OPTIONAL_HEADER_SIZE := 20
  const SECTION_ALIGNMENT := 56
  const FILE_ALIGNMENT := 60
  const SECTION_HEADER_SIZE := 40
  const SECTION_FLAGS := 36
  const PAGE_SIZE := 4096
  const HEADER_END := 96
  const NX_COMPAT := 0x100

  // ----- fields

  function Put16(s: seq<Byte>, at: nat, w: Word16): (r: seq<Byte>)
    requires at + 2 <= |s|
    ensures |r| == |s|
    ensures forall k :: 0 <= k < |s| && !(at <= k < at + 2) ==> r[k] == s[k]
    ensures Word16At(r, at) == w
  {
    s[at := w % 0x100][at + 1 := w / 0x100]
  }

  function Put32(s: seq<Byte>, at: nat, w: Word32): (r: seq<Byte>)
    requires at + 4 <= |s|
    ensures |r| == |s|
    ensures forall k :: 0 <= k < |s| && !(at <= k < at + 4) ==> r[k] == s[k]
    ensures Word32At(r, at) == w
  {
    Put16(Put16(s, at, w % U16), at + 2, w / U16)
  }

  // ----- the three passes

  predicate HasNx(flags: Word16) { flags / NX_COMPAT % 2 == 1 }

  function SetNx(flags: Word16, nx: bool): (r: Word16)
    ensures HasNx(r) == nx
    ensures r % NX_COMPAT == flags % NX_COMPAT && r / 0x200 == flags / 0x200
  {
    if HasNx(flags) == nx then flags else if nx then flags + NX_COMPAT else flags - NX_COMPAT
  }

  function Flagged(s: seq<Byte>, pe: nat, nx: bool): (r: seq<Byte>)
    requires pe + HEADER_END <= |s|
    ensures |r| == |s|
  {
    Put16(s, pe + DLL_CHARACTERISTICS, SetNx(Word16At(s, pe + DLL_CHARACTERISTICS), nx))
  }

  function Stamped(s: seq<Byte>, pe: nat): (r: seq<Byte>)
    requires pe + HEADER_END <= |s|
    ensures |r| == |s|
  {
    Put32(s, pe + TIMESTAMP, 0)
  }

  /** One word into the running sum, in 32 bits with the carry brought around. */
  function Fold(sum: Word32, word: Word16): (r: Word32)
  {
    var c := (sum + word) % U32;
    (c + c / U16) % U32 % U16
  }

  function Folded(s: seq<Byte>, n: nat): (r: Word32)
    requires 2 * n <= |s|
  {
    if n == 0 then 0 else Fold(Folded(s, n - 1), Word16At(s, 2 * (n - 1)))
  }

  /** The file with its checksum field set: the folded sum of its words with that
      field zero, plus the file's size; a last odd byte is not summed. */
  function Summed(s: seq<Byte>, pe: nat): (r: seq<Byte>)
    requires pe + HEADER_END <= |s|
    ensures |r| == |s|
  {
    var blank := Put32(s, pe + CHECKSUM, 0);
    Put32(s, pe + CHECKSUM, (Folded(blank, |s| / 2) + |s|) % U32)
  }

  function Processed(s: seq<Byte>, pe: nat, nx: bool): (r: seq<Byte>)
    requires pe + HEADER_END <= |s|
    ensures |r| == |s|
  {
    Summed(Stamped(Flagged(s, pe, nx), pe), pe)
  }

  // ----- the passes in place

  method Store16(data: array<Byte>, at: nat, w: Word16)
    requires at + 2 <= data.Length
    modifies data
    ensures data[..] == Put16(old(data[..]), at, w)
  {
    data[at] := w % 0x100;
    data[at + 1] := w / 0x100;
  }

  method Store32(data: array<Byte>, at: nat, w: Word32)
    requires at + 4 <= data.Length
    modifies data
    ensures data[..] == Put32(old(data[..]), at, w)
  {
    Store16(data, at, w % U16);
    Store16(data, at + 2, w / U16);
  }

  lemma PutSame16(s: seq<Byte>, at: nat)
    requires at + 2 <= |s|
    ensures Put16(s, at, Word16At(s, at)) == s
  {
  }

  lemma {:induction false} PutSame32(s: seq<Byte>, at: nat)
    requires at + 4 <= |s|
    ensures Put32(s, at, Word32At(s, at)) == s
  {
    var low, high := Word16At(s, at), Word16At(s, at + 2);
    var w: int := Word32At(s, at);
    assert w % U16 == low && w / U16 == high;
    PutSame16(s, at);
    PutSame16(s, at + 2);
  }

  method SetDllCharacteristics(data: array<Byte>, pe: nat, nx: bool)
    requires pe + HEADER_END <= data.Length
    modifies data
    ensures data[..] == Flagged(old(data[..]), pe, nx)
  {
    hide Put16;
    var old_ := Word16At(data[..], pe + DLL_CHARACTERISTICS);
    var new_ := SetNx(old_, nx);
    if old_ == new_ {
      PutSame16(data[..], pe + DLL_CHARACTERISTICS);
      return;
    }
    Store16(data, pe + DLL_CHARACTERISTICS, new_);
  }

  method FixTimestamp(data: array<Byte>, pe: nat)
    requires pe + HEADER_END <= data.Length
    modifies data
    ensures data[..] == Stamped(old(data[..]), pe)
  {
    hide Put32, Word32At;
    if Word32At(data[..], pe + TIMESTAMP) != 0 {
      Store32(data, pe + TIMESTAMP, 0);
    } else {
      PutSame32(data[..], pe + TIMESTAMP);
    }
  }

  method FixChecksum(data: array<Byte>, pe: nat)
    requires pe + HEADER_END <= data.Length
    modifies data
    ensures data[..] == Summed(old(data[..]), pe)
  {
    hide Put32, Folded, Word16At, Fold;
    ghost var was := data[..];
    Store32(data, pe + CHECKSUM, 0);
    ghost var blank := data[..];
    var sum: Word32 := 0;
    var i := 0;
    ghost var n := 0;
    FoldedNone(blank);
    while i < data.Length - 1
      invariant data[..] == blank && i == 2 * n <= data.Length && sum == Folded(blank, n)
    {
      var high: int := data[i + 1];
      var word := high * 0x100 + data[i];
      WordHere(data[..], i);
      sum := AddWord(sum, word);
      FoldedStep(blank, n);
      i, n := i + 2, n + 1;
    }
    assert n == data.Length / 2;
    sum := (sum + data.Length) % U32;
    PutTwice32(was, pe + CHECKSUM, 0, sum);
    Store32(data, pe + CHECKSUM, sum);
  }

  /** One step of the sum, in 32 bits. */
  method AddWord(sum: Word32, word: Word16) returns (r: Word32)
    ensures r == Fold(sum, word)
  {
    r := (sum + word) % U32;
    r := (r + r / U16) % U32 % U16;
  }

  lemma WordHere(s: seq<Byte>, i: nat)
    requires i + 2 <= |s|
    ensures var high: int := s[i + 1]; Word16At(s, i) == high * 0x100 + s[i]
  {
  }

  lemma FoldedNone(s: seq<Byte>)
    ensures Folded(s, 0) == 0
  {
  }

  lemma FoldedStep(s: seq<Byte>, n: nat)
    requires 2 * n + 2 <= |s|
    ensures Folded(s, n + 1) == Fold(Folded(s, n), Word16At(s, 2 * n))
  {
  }

  lemma PutTwice32(s: seq<Byte>, at: nat, v: Word32, w: Word32)
    requires at + 4 <= |s|
    ensures Put32(Put32(s, at, v), at, w) == Put32(s, at, w)
  {
  }

  // ----- NX validation

  function FileAlignment(m: Memory, pe: nat): (n: nat)
  {
    if m.U32At(pe + FILE_ALIGNMENT) == 0 then 0x200 else m.U32At(pe + FILE_ALIGNMENT)
  }

  function SectionAlignment(m: Memory, pe: nat): (n: nat)
  {
    var n := if m.U32At(pe + SECTION_ALIGNMENT) == 0 then PAGE_SIZE else m.U32At(pe + SECTION_ALIGNMENT);
    if n < FileAlignment(m, pe) then FileAlignment(m, pe) else n
  }

  /** The flags of section `i`; loading does not check that they lie in the file. */
  function SectionFlags(m: Memory, pe: nat, i: nat): (flags: nat)
  {
    m.U32At(pe + 24 + m.U16At(pe + OPTIONAL_HEADER_SIZE) + SECTION_HEADER_SIZE * i + SECTION_FLAGS)
  }

  predicate WritableCode(flags: nat) { flags / 0x8000_0000 % 2 == 1 && flags / 0x2000_0000 % 2 == 1 }

  /** Flag set, both alignments whole pages, and no section both writable and executable. */
  predicate NxOk(m: Memory, pe: nat)
  {
    && HasNx(m.U16At(pe + DLL_CHARACTERISTICS))
    && FileAlignment(m, pe) % PAGE_SIZE == 0 && SectionAlignment(m, pe) % PAGE_SIZE == 0
    && forall i :: 0 <= i < m.U16At(pe + NUMBER_OF_SECTIONS) ==> !WritableCode(SectionFlags(m, pe, i))
  }

  /** Every complaint counts only if NX compatibility is required. */
  method ValidateNxCompat(m: Memory, pe: nat, requireNx: bool) returns (ok: bool)
    ensures ok <==> !requireNx || NxOk(m, pe)
  {
    hide Memory.U16At, Memory.U32At, WritableCode;
    ok := true;
    if !HasNx(m.U16At(pe + DLL_CHARACTERISTICS)) && requireNx {
      ok := false;
    }
    if FileAlignment(m, pe) % PAGE_SIZE != 0 && requireNx {
      ok := false;
    }
    if SectionAlignment(m, pe) % PAGE_SIZE != 0 && requireNx {
      ok := false;
    }
    ghost var before := ok;
    for i := 0 to m.U16At(pe + NUMBER_OF_SECTIONS)
      invariant ok <==> before && (requireNx ==> forall k :: 0 <= k < i ==> !WritableCode(SectionFlags(m, pe, k)))
    {
      if WritableCode(SectionFlags(m, pe, i)) && requireNx {
        ok := false;
      }
    }
  }

  /** What `handle_one` leaves in the file: a failed validation ends the program
      when only the flag has been set. */
  function Handled(s: seq<Byte>, pe: nat, nx: bool, requireNx: bool, beyond: nat -> Byte): (r: seq<Byte>)
    requires pe + HEADER_END <= |s|
    ensures |r| == |s|
  {
    if requireNx && !NxOk(Memory(Flagged(s, pe, nx), beyond), pe) then Flagged(s, pe, nx) else Processed(s, pe, nx)
  }

  /** `handle_one` after loading; `beyond` is what follows the mapping. */
  method HandleOne(data: array<Byte>, pe: nat, nx: bool, requireNx: bool, beyond: nat -> Byte) returns (ok: bool)
    requires pe + HEADER_END <= data.Length
    modifies data
    ensures ok <==> !requireNx || NxOk(Memory(Flagged(old(data[..]), pe, nx), beyond), pe)
    ensures data[..] == Handled(old(data[..]), pe, nx, requireNx, beyond)
  {
    hide Flagged, Stamped, Summed, NxOk;
    SetDllCharacteristics(data, pe, nx);
    ok := ValidateNxCompat(Memory(data[..], beyond), pe, requireNx);
    if !ok {
      return;
    }
    FixTimestamp(data, pe);
    FixChecksum(data, pe);
  }

  // ----- what the fold computes

  function WordSum(s: seq<Byte>, n: nat): (r: nat)
    requires 2 * n <= |s|
  {
    if n == 0 then 0 else WordSum(s, n - 1) + Word16At(s, 2 * (n - 1))
  }

  lemma FoldIs(sum: Word32, word: Word16)
    requires sum < U16
    ensures Fold(sum, word) == if sum + word < U16 then sum + word else sum + word - 0xffff
  {
  }

  lemma SameModulo(a: nat, b: nat, w: nat)
    requires a % 0xffff == b % 0xffff
    ensures (a + w) % 0xffff == (b + w) % 0xffff
  {
  }

  /** The fold stays within 16 bits and keeps the sum of the words modulo 65535. */
  lemma {:induction false} FoldKeepsSum(s: seq<Byte>, n: nat)
    requires 2 * n <= |s|
    ensures Folded(s, n) < U16 && Folded(s, n) % 0xffff == WordSum(s, n) % 0xffff
  {
    hide Fold, Word16At;
    if n > 0 {
      FoldKeepsSum(s, n - 1);
      var w := Word16At(s, 2 * (n - 1));
      FoldIs(Folded(s, n - 1), w);
      SameModulo(Folded(s, n - 1), WordSum(s, n - 1), w);
    }
  }

  /** It is zero only if every word is. */
  lemma {:induction false} FoldZeroIff(s: seq<Byte>, n: nat)
    requires 2 * n <= |s|
    ensures Folded(s, n) == 0 <==> forall k :: 0 <= k < n ==> Word16At(s, 2 * k) == 0
  {
    hide Fold, Word16At;
    if n > 0 {
      FoldZeroIff(s, n - 1);
      FoldKeepsSum(s, n - 1);
      FoldIs(Folded(s, n - 1), Word16At(s, 2 * (n - 1)));
    }
  }

  // ----- running twice

  lemma {:induction false} SummedTwice(s: seq<Byte>, pe: nat)
    requires pe + HEADER_END <= |s|
    ensures Summed(Summed(s, pe), pe) == Summed(s, pe)
  {
    hide Put32, Folded;
    var at := pe + CHECKSUM;
    var sum := (Folded(Put32(s, at, 0), |s| / 2) + |s|) % U32;
    PutTwice32(s, at, sum, 0);
    PutTwice32(s, at, sum, sum);
  }

  lemma {:induction false} Settled(s: seq<Byte>, pe: nat, nx: bool)
    requires pe + HEADER_END <= |s|
    requires HasNx(Word16At(s, pe + DLL_CHARACTERISTICS)) == nx && Word32At(s, pe + TIMESTAMP) == 0
    ensures Flagged(s, pe, nx) == s && Stamped(s, pe) == s
  {
    hide Put32, Put16, Word32At, Word16At;
    PutSame16(s, pe + DLL_CHARACTERISTICS);
    PutSame32(s, pe + TIMESTAMP);
  }

  /** A second run with the same options changes nothing. */
  lemma {:induction false} ProcessedTwice(s: seq<Byte>, pe: nat, nx: bool)
    requires pe + HEADER_END <= |s|
    ensures Processed(Processed(s, pe, nx), pe, nx) == Processed(s, pe, nx)
  {
    var t := Stamped(Flagged(s, pe, nx), pe);
    hide Flagged, Stamped, Summed, Word32At, Word16At;
    Settled(Summed(t, pe), pe, nx);
    SummedTwice(t, pe);
  }

  /** What validation looks at is the same in both files. */
  ghost predicate SameView(m: Memory, m': Memory, pe: nat)
  {
    && |m.data| == |m'.data| && m.beyond == m'.beyond && pe + HEADER_END <= |m.data|
    && (forall k ::
          && 0 <= k < |m.data|
          && !(pe + TIMESTAMP <= k < pe + TIMESTAMP + 4)
          && !(pe + CHECKSUM <= k < pe + CHECKSUM + 4)
          ==> m.data[k] == m'.data[k])
  }

  lemma {:induction false} SameWord(m: Memory, m': Memory, pe: nat, at: nat)
    requires SameView(m, m', pe)
    requires at + 4 <= pe + TIMESTAMP || pe + TIMESTAMP + 4 <= at
    requires at + 4 <= pe + CHECKSUM || pe + CHECKSUM + 4 <= at
    ensures m.U32At(at) == m'.U32At(at) && m.U16At(at) == m'.U16At(at)
  {
    assert forall k :: at <= k < at + 4 ==> m.At(k) == m'.At(k);
  }

  /** Timestamp and checksum are none of its business. */
  lemma {:induction false} SameNx(m: Memory, m': Memory, pe: nat)
    requires SameView(m, m', pe) && 96 <= m.U16At(pe + OPTIONAL_HEADER_SIZE)
    ensures NxOk(m, pe) <==> NxOk(m', pe)
  {
    hide Memory.U32At, Memory.U16At, SameView, WritableCode;
    SameWord(m, m', pe, pe + DLL_CHARACTERISTICS);
    SameWord(m, m', pe, pe + FILE_ALIGNMENT);
    SameWord(m, m', pe, pe + SECTION_ALIGNMENT);
    SameWord(m, m', pe, pe + 4);
    SameSections(m, m', pe);
    SameWord(m, m', pe, pe + OPTIONAL_HEADER_SIZE);
    forall i: nat ensures SectionFlags(m, pe, i) == SectionFlags(m', pe, i) {
      SameWord(m, m', pe, pe + 24 + m.U16At(pe + OPTIONAL_HEADER_SIZE) + SECTION_HEADER_SIZE * i + SECTION_FLAGS);
    }
  }

  lemma {:induction false} SameSections(m: Memory, m': Memory, pe: nat)
    requires SameView(m, m', pe)
    ensures m.U16At(pe + NUMBER_OF_SECTIONS) == m'.U16At(pe + NUMBER_OF_SECTIONS)
  {
  }

  /** A second run with the same options changes nothing and ends alike, aborted or not. */
  lemma {:induction false} HandledTwice(s: seq<Byte>, pe: nat, nx: bool, requireNx: bool, beyond: nat -> Byte)
    requires pe + HEADER_END <= |s| && 96 <= Memory(s, beyond).U16At(pe + OPTIONAL_HEADER_SIZE)
    ensures var r := Handled(s, pe, nx, requireNx, beyond);
            && Handled(r, pe, nx, requireNx, beyond) == r
            && (NxOk(Memory(Flagged(r, pe, nx), beyond), pe) <==> NxOk(Memory(Flagged(s, pe, nx), beyond), pe))
  {
    var f, p := Flagged(s, pe, nx), Processed(s, pe, nx);
    FlaggedTwice(s, pe, nx);
    ProcessedFlagged(s, pe, nx);
    ProcessedView(s, pe, nx, beyond);
    hide Flagged, Processed, NxOk, Memory.U16At;
    OptionalHeaderStays(s, pe, nx, beyond);
    SameNx(Memory(f, beyond), Memory(p, beyond), pe);
    ProcessedTwice(s, pe, nx);
  }

  lemma {:induction false} FlaggedTwice(s: seq<Byte>, pe: nat, nx: bool)
    requires pe + HEADER_END <= |s|
    ensures Flagged(Flagged(s, pe, nx), pe, nx) == Flagged(s, pe, nx)
  {
    hide Put16, Word16At, HasNx;
    PutSame16(Flagged(s, pe, nx), pe + DLL_CHARACTERISTICS);
  }

  /** The processed file has the flag already. */
  lemma {:induction false} ProcessedFlagged(s: seq<Byte>, pe: nat, nx: bool)
    requires pe + HEADER_END <= |s|
    ensures Flagged(Processed(s, pe, nx), pe, nx) == Processed(s, pe, nx)
  {
    var t := Stamped(Flagged(s, pe, nx), pe);
    hide Flagged, Stamped, Summed, Word32At, Word16At;
    Settled(Summed(t, pe), pe, nx);
  }

  lemma {:induction false} ProcessedView(s: seq<Byte>, pe: nat, nx: bool, beyond: nat -> Byte)
    requires pe + HEADER_END <= |s|
    ensures SameView(Memory(Flagged(s, pe, nx), beyond), Memory(Processed(s, pe, nx), beyond), pe)
  {
    hide Put32, Put16, Folded;
  }

  lemma {:induction false} OptionalHeaderStays(s: seq<Byte>, pe: nat, nx: bool, beyond: nat -> Byte)
    requires pe + HEADER_END <= |s|
    ensures Memory(Flagged(s, pe, nx), beyond).U16At(pe + OPTIONAL_HEADER_SIZE) ==
              Memory(s, beyond).U16At(pe + OPTIONAL_HEADER_SIZE)
  {
  }

  /** What is left in the file: the flag is as asked; if validation is required and fails nothing else changed;
      otherwise the timestamp is zero. */
  lemma {:induction false} HandledIs(s: seq<Byte>, pe: nat, nx: bool, requireNx: bool, beyond: nat -> Byte)
    requires pe + HEADER_END <= |s|
    ensures var r := Handled(s, pe, nx, requireNx, beyond);
            && (Word16At(r, pe + 94) / 0x100 % 2 == 1 <==> nx)
            && (if requireNx && !NxOk(Memory(Flagged(s, pe, nx), beyond), pe)
                then forall k :: 0 <= k < |s| && k != pe + 94 && k != pe + 95 ==> r[k] == s[k]
                else Word32At(r, pe + 8) == 0)
  {
    hide NxOk, Folded;
    var f := Flagged(s, pe, nx);
    var t := Stamped(f, pe);
    var r := Summed(t, pe);
    assert Word16At(r, pe + 94) == Word16At(t, pe + 94) == Word16At(f, pe + 94);
    assert Word32At(r, pe + 8) == Word32At(t, pe + 8);
  }

  /** The checksum less the file's size is congruent to the sum of the file's words modulo 65535, its own field
      counted as zero. */
  lemma {:induction false} ChecksumIs(s: seq<Byte>, pe: nat)
    requires pe + HEADER_END <= |s| && |s| + U16 < U32
    ensures var v, blank := Word32At(Summed(s, pe), pe + 88), Put32(s, pe + 88, 0);
            |s| <= v < |s| + U16 && (v - |s|) % 0xffff == WordSum(blank, |s| / 2) % 0xffff
  {
    hide Folded, Word32At, WordSum;
    FoldKeepsSum(Put32(s, pe + CHECKSUM, 0), |s| / 2);
  }
}
