/** The byte stream that `generate_hash` digests: headers without checksum and
    security directory entry, sections in file order, and most of the rest. */
module Authenticode {
  import opened Bytes
  import opened Pe

  // ----- the section table, sorted by file position

  /** Inserts after every section that does not start later. */
  function Insert(s: seq<Section>, x: Section): (r: seq<Section>)
  {
    if s == [] || s[|s| - 1].pointerToRawData <= x.pointerToRawData then s + [x]
    else Insert(s[..|s| - 1], x) + [s[|s| - 1]]
  }

  function Sort(ss: seq<Section>): (r: seq<Section>)
  {
    if ss == [] then [] else Insert(Sort(ss[..|ss| - 1]), ss[|ss| - 1])
  }

  ghost predicate Sorted(s: seq<Section>)
  {
    forall i, j :: 0 <= i < j < |s| ==> s[i].pointerToRawData <= s[j].pointerToRawData
  }

  /** The sections that satisfy `p`, in order. */
  function Only(s: seq<Section>, p: Section -> bool): (r: seq<Section>)
  {
    if s == [] then [] else Only(s[..|s| - 1], p) + if p(s[|s| - 1]) then [s[|s| - 1]] else []
  }

  function StartsAt(k: Word32): (p: Section -> bool) { (x: Section) => x.pointerToRawData == k }

  function NonEmpty(): (p: Section -> bool) { (x: Section) => x.sizeOfRawData != 0 }

  lemma {:induction false} InsertMembers(s: seq<Section>, x: Section)
    ensures |Insert(s, x)| == |s| + 1
    ensures multiset(Insert(s, x)) == multiset(s) + multiset{x}
  {
    if s != [] && x.pointerToRawData < s[|s| - 1].pointerToRawData {
      InsertMembers(s[..|s| - 1], x);
      assert s == s[..|s| - 1] + [s[|s| - 1]];
    }
  }

  lemma {:induction false} InsertSorted(s: seq<Section>, x: Section)
    requires Sorted(s)
    ensures Sorted(Insert(s, x))
  {
    if s != [] && x.pointerToRawData < s[|s| - 1].pointerToRawData {
      var last := s[|s| - 1];
      var r := Insert(s[..|s| - 1], x);
      InsertSorted(s[..|s| - 1], x);
      InsertMembers(s[..|s| - 1], x);
      forall i | 0 <= i < |r| ensures r[i].pointerToRawData <= last.pointerToRawData {
        assert r[i] in multiset(r);
        assert r[i] in s[..|s| - 1] || r[i] == x;
      }
    }
  }

  lemma {:induction false} InsertKeepsOrder(s: seq<Section>, x: Section, k: Word32)
    ensures Only(Insert(s, x), StartsAt(k)) == Only(s, StartsAt(k)) + if x.pointerToRawData == k then [x] else []
  {
    var p := StartsAt(k);
    if s != [] && x.pointerToRawData < s[|s| - 1].pointerToRawData {
      var front, last := s[..|s| - 1], s[|s| - 1];
      var r := Insert(front, x) + [last];
      InsertKeepsOrder(front, x, k);
      assert r[..|r| - 1] == Insert(front, x);
    } else {
      assert (s + [x])[..|s|] == s;
    }
  }

  lemma {:induction false} InsertOnly(s: seq<Section>, x: Section, p: Section -> bool)
    ensures multiset(Only(Insert(s, x), p)) == multiset(Only(s, p)) + if p(x) then multiset{x} else multiset{}
  {
    if s != [] && x.pointerToRawData < s[|s| - 1].pointerToRawData {
      var front, last := s[..|s| - 1], s[|s| - 1];
      var r := Insert(front, x) + [last];
      InsertOnly(front, x, p);
      assert r[..|r| - 1] == Insert(front, x);
    } else {
      assert (s + [x])[..|s|] == s;
    }
  }

  lemma {:induction false} SortKeepsOrder(ss: seq<Section>, k: Word32)
    ensures Only(Sort(ss), StartsAt(k)) == Only(ss, StartsAt(k))
  {
    if ss != [] {
      var front, last := ss[..|ss| - 1], ss[|ss| - 1];
      SortKeepsOrder(front, k);
      InsertKeepsOrder(Sort(front), last, k);
    }
  }

  lemma {:induction false} SortSorted(ss: seq<Section>)
    ensures Sorted(Sort(ss)) && multiset(Sort(ss)) == multiset(ss) && |Sort(ss)| == |ss|
  {
    if ss != [] {
      var front, last := ss[..|ss| - 1], ss[|ss| - 1];
      SortSorted(front);
      InsertSorted(Sort(front), last);
      InsertMembers(Sort(front), last);
      assert ss == front + [last];
    }
  }

  /** The header table is the stable sorted permutation of the sections: in
      order of file position, and sections of one position in table order. */
  lemma {:induction false} SortIsStable(ss: seq<Section>)
    ensures Sorted(Sort(ss)) && multiset(Sort(ss)) == multiset(ss)
    ensures forall k: Word32 :: Only(Sort(ss), StartsAt(k)) == Only(ss, StartsAt(k))
  {
    SortSorted(ss);
    forall k: Word32 ensures Only(Sort(ss), StartsAt(k)) == Only(ss, StartsAt(k)) {
      SortKeepsOrder(ss, k);
    }
  }

  lemma {:induction false} SortOnly(ss: seq<Section>, p: Section -> bool)
    ensures multiset(Only(Sort(ss), p)) == multiset(Only(ss, p))
  {
    if ss != [] {
      SortOnly(ss[..|ss| - 1], p);
      InsertOnly(Sort(ss[..|ss| - 1]), ss[|ss| - 1], p);
    }
  }

  lemma {:induction false} OnlySorted(s: seq<Section>, p: Section -> bool)
    requires Sorted(s)
    ensures Sorted(Only(s, p))
    ensures forall x :: x in Only(s, p) <==> x in s && p(x)
  {
    if s != [] {
      var front, last := s[..|s| - 1], s[|s| - 1];
      var r := Only(front, p);
      assert s == front + [last];
      OnlySorted(front, p);
      forall i | 0 <= i < |r| ensures r[i].pointerToRawData <= last.pointerToRawData {
        assert r[i] in r;
        var j :| 0 <= j < |front| && front[j] == r[i];
        assert s[j] == r[i];
      }
    }
  }

  lemma {:induction false} InsertAt(s: seq<Section>, x: Section, pos: nat)
    requires pos <= |s| && (0 < pos ==> s[pos - 1].pointerToRawData <= x.pointerToRawData)
    requires forall k :: pos <= k < |s| ==> x.pointerToRawData < s[k].pointerToRawData
    ensures Insert(s, x) == s[..pos] + [x] + s[pos..]
    decreases |s|
  {
    if pos < |s| {
      var front, last := s[..|s| - 1], s[|s| - 1];
      InsertAt(front, x, pos);
      SplitLast(s, pos);
      Assoc(s[..pos] + [x], front[pos..], [last]);
    } else {
      assert s[..pos] == s && s[pos..] == [];
    }
  }

  lemma {:induction false} InsertIs(s: seq<Section>, x: Section, pos: nat, r: seq<Section>)
    requires pos <= |s| && (0 < pos ==> s[pos - 1].pointerToRawData <= x.pointerToRawData)
    requires forall k :: pos <= k < |s| ==> x.pointerToRawData < s[k].pointerToRawData
    requires |r| == |s| + 1 && r[pos] == x
    requires forall k :: 0 <= k < pos ==> r[k] == s[k]
    requires forall k :: pos < k <= |s| ==> r[k] == s[k - 1]
    ensures r == Insert(s, x)
  {
    InsertAt(s, x, pos);
  }

  /** The insertion step of the sort, in place: room is made from the right. */
  method InsertInPlace(table: array<Section>, index: nat, x: Section)
    requires index < table.Length
    modifies table
    ensures table[..index + 1] == Insert(old(table[..index]), x)
  {
    hide Insert;
    ghost var was := table[..index];
    var pos := index;
    while 0 < pos && x.pointerToRawData < table[pos - 1].pointerToRawData
      invariant pos <= index
      invariant forall k :: 0 <= k < pos ==> table[k] == was[k]
      invariant forall k :: pos < k <= index ==> table[k] == was[k - 1]
      invariant forall k :: pos <= k < index ==> x.pointerToRawData < was[k].pointerToRawData
    {
      table[pos] := table[pos - 1];
      pos := pos - 1;
    }
    table[pos] := x;
    InsertIs(was, x, pos, table[..index + 1]);
  }

  // ----- sizes

  function RawTotal(ss: seq<Section>): (n: nat)
  {
    if ss == [] then 0 else RawTotal(ss[..|ss| - 1]) + ss[|ss| - 1].sizeOfRawData
  }

  lemma {:induction false} RawTotalPrefix(ss: seq<Section>, i: nat)
    requires i <= |ss|
    ensures RawTotal(ss[..i]) <= RawTotal(ss)
  {
    if i < |ss| {
      RawTotalPrefix(ss[..|ss| - 1], i);
      assert ss[..|ss| - 1][..i] == ss[..i];
    } else {
      assert ss[..i] == ss;
    }
  }

  lemma {:induction false} InsertTotal(s: seq<Section>, x: Section)
    ensures RawTotal(Insert(s, x)) == RawTotal(s) + x.sizeOfRawData
  {
    if s != [] && x.pointerToRawData < s[|s| - 1].pointerToRawData {
      var r := Insert(s[..|s| - 1], x);
      InsertTotal(s[..|s| - 1], x);
      assert (r + [s[|s| - 1]])[..|r|] == r;
    } else {
      assert (s + [x])[..|s|] == s;
    }
  }

  lemma {:induction false} SortTotal(ss: seq<Section>)
    ensures RawTotal(Sort(ss)) == RawTotal(ss)
  {
    if ss != [] {
      SortTotal(ss[..|ss| - 1]);
      InsertTotal(Sort(ss[..|ss| - 1]), ss[|ss| - 1]);
    }
  }

  // ----- the digested stream

  predicate RawInside(data: seq<Byte>, x: Section)
  {
    x.sizeOfRawData != 0 ==> x.pointerToRawData + x.sizeOfRawData <= |data|
  }

  predicate AllInside(data: seq<Byte>, ss: seq<Section>)
  {
    forall i :: 0 <= i < |ss| ==> RawInside(data, ss[i])
  }

  function RawBytes(data: seq<Byte>, x: Section): (s: seq<Byte>)
    requires RawInside(data, x)
  {
    if x.sizeOfRawData == 0 then [] else data[x.pointerToRawData..x.pointerToRawData + x.sizeOfRawData]
  }

  function SectionBytes(data: seq<Byte>, ss: seq<Section>): (s: seq<Byte>)
    requires AllInside(data, ss)
  {
    if ss == [] then [] else SectionBytes(data, ss[..|ss| - 1]) + RawBytes(data, ss[|ss| - 1])
  }

  function Zeros(n: nat): (s: seq<Byte>)
    ensures |s| == n && forall k :: 0 <= k < n ==> s[k] == 0
  {
    if n == 0 then [] else Zeros(n - 1) + [0]
  }

  /** Bytes that round `n` up to a multiple of 8. */
  function Pad(n: nat): (p: nat)
    ensures p < 8 && (n + p) % 8 == 0
  {
    (8 - n % 8) % 8
  }

  /** Where the running sum stands once all sections are counted. */
  function Sum(c: Context, ss: seq<Section>): (n: nat)
  {
    c.sizeOfHeaders + RawTotal(ss)
  }

  predicate TailOk(data: seq<Byte>, c: Context, sum: nat)
  {
    sum < |data| && c.secDir.size != 0 ==>
      c.secDir.size <= |data| - sum && c.secDir.virtualAddress == |data| - c.secDir.size
  }

  function Tail(data: seq<Byte>, c: Context, sum: nat): (s: seq<Byte>)
    requires sum <= |data| && TailOk(data, c, sum)
  {
    if sum < |data| && c.secDir.size != 0 then data[sum..|data| - c.secDir.size]
    else if (sum + c.secDir.size) % U32 < |data| then data[sum..] + Zeros(Pad(|data|))
    else []
  }

  function HeaderBytes(data: seq<Byte>, c: Context): (s: seq<Byte>)
    requires c.SecDirOffset() + 8 <= c.sizeOfHeaders <= |data|
  {
    data[..c.CheckSumOffset()] + data[c.CheckSumOffset() + 4..c.SecDirOffset()] +
    data[c.SecDirOffset() + 8..c.sizeOfHeaders]
  }

  predicate AllVma(c: Context, ss: seq<Section>)
  {
    forall i :: 0 <= i < |ss| ==> GetSectionVma(c, ss[i]).Success?
  }

  /** Exactly the images `generate_hash` accepts. */
  predicate Accepted(data: seq<Byte>, c: Context, ss: seq<Section>)
  {
    && DosSigned(data) && DOS_HEADER_SIZE < |data|
    && (ss == [] ==> c.FirstSection() < |data|)
    && c.SecDirOffset() + 8 <= c.sizeOfHeaders
    && Sum(c, ss) <= |data|
    && AllVma(c, ss)
    && AllInside(data, ss)
    && TailOk(data, c, Sum(c, ss))
  }

  lemma {:induction false} SortInside(data: seq<Byte>, ss: seq<Section>)
    ensures AllInside(data, Sort(ss)) <==> AllInside(data, ss)
  {
    SortSorted(ss);
    var r := Sort(ss);
    assert forall i :: 0 <= i < |ss| ==> ss[i] in multiset(r);
    assert forall i :: 0 <= i < |r| ==> r[i] in multiset(ss);
  }

  function Stream(data: seq<Byte>, c: Context, ss: seq<Section>): (s: seq<Byte>)
    requires Accepted(data, c, ss)
  {
    SortInside(data, ss);
    HeaderBytes(data, c) + SectionBytes(data, Sort(ss)) + Tail(data, c, Sum(c, ss))
  }

  // ----- generate_hash

  lemma RawTotalNone(ss: seq<Section>)
    requires ss == []
    ensures RawTotal(ss) == 0
  {
  }

  lemma {:induction false} SizeStep(ss: seq<Section>, i: nat)
    requires i < |ss|
    ensures ss[..i + 1][..i] == ss[..i]
    ensures RawTotal(ss[..i + 1]) == RawTotal(ss[..i]) + ss[i].sizeOfRawData
  {
    assert ss[..i + 1][..i] == ss[..i];
  }

  /** Checks every section against the running sum, in 32-bit arithmetic, and
      sorts the table into a copy. */
  method ValidateAndSort(size: nat, c: Context, ss: seq<Section>) returns (ok: bool, table: seq<Section>)
    requires size < U32 && c.sizeOfHeaders <= size
    ensures ok <==> AllVma(c, ss) && Sum(c, ss) <= size
    ensures ok ==> table == Sort(ss)
  {
    hide GetSectionVma, Insert, RawTotal;
    var headers := new Section[|ss|](_ => Section([], 0, 0, 0, 0, 0, 0, 0));
    var sum := 0;
    assert RawTotal(ss[..0]) == 0 by { RawTotalNone(ss[..0]); }
    for i := 0 to |ss|
      invariant sum == RawTotal(ss[..i]) && c.sizeOfHeaders + sum <= size
      invariant AllVma(c, ss[..i])
      invariant headers[..i] == Sort(ss[..i])
    {
      SizeStep(ss, i);
      RawTotalPrefix(ss, i + 1);
      if !GetSectionVma(c, ss[i]).Success? {
        return false, [];
      }
      if ss[i].sizeOfRawData > (size - c.sizeOfHeaders - sum) % U32 {
        return false, [];
      }
      sum := (sum + ss[i].sizeOfRawData) % U32;
      InsertInPlace(headers, i, ss[i]);
    }
    assert ss[..|ss|] == ss && headers[..|ss|] == headers[..];
    return true, headers[..];
  }

  lemma NothingHashed(data: seq<Byte>, ss: seq<Section>)
    requires ss == []
    ensures AllInside(data, ss) && SectionBytes(data, ss) == [] && RawTotal(ss) == 0
  {
  }

  lemma {:induction false} PrefixStep(data: seq<Byte>, table: seq<Section>, i: nat)
    requires i < |table| && AllInside(data, table[..i])
    ensures RawTotal(table[..i + 1]) == RawTotal(table[..i]) + table[i].sizeOfRawData
    ensures AllInside(data, table[..i + 1]) <==> RawInside(data, table[i])
    ensures RawInside(data, table[i]) ==>
              SectionBytes(data, table[..i + 1]) == SectionBytes(data, table[..i]) + RawBytes(data, table[i])
  {
    assert table[..i + 1][..i] == table[..i] && table[..i + 1][i] == table[i];
  }

  /** Feeds the sorted sections to the digest; `sum` is the 32-bit running sum. */
  method HashSections(data: seq<Byte>, c: Context, table: seq<Section>)
    returns (ok: bool, stream: seq<Byte>, sum: nat)
    requires |data| < U32 && Sum(c, table) <= |data|
    ensures ok <==> AllInside(data, table)
    ensures ok ==> stream == SectionBytes(data, table) && sum == Sum(c, table)
  {
    hide SectionBytes, RawTotal;
    stream, sum := [], c.sizeOfHeaders;
    NothingHashed(data, table[..0]);
    for i := 0 to |table|
      invariant AllInside(data, table[..i]) && stream == SectionBytes(data, table[..i])
      invariant sum == c.sizeOfHeaders + RawTotal(table[..i])
    {
      PrefixStep(data, table, i);
      RawTotalPrefix(table, i + 1);
      var x := table[i];
      if x.sizeOfRawData != 0 {
        var base := ImageAddress(|data|, x.pointerToRawData);
        if base.None? || |data| - x.pointerToRawData < x.sizeOfRawData {
          return false, stream, sum;
        }
        stream := stream + data[base.value..base.value + x.sizeOfRawData];
        sum := (sum + x.sizeOfRawData) % U32;
      }
    }
    assert table[..|table|] == table;
    return true, stream, sum;
  }

  lemma TailArithmetic(size: nat, cert: Word32, sum: nat)
    requires sum < size < U32 && cert <= size - sum
    ensures (size - cert - sum) % U32 == size - cert - sum
    ensures (sum + (size - cert - sum)) % U32 == size - cert
  {
  }

  /** The rest of the file: up to the certificate table, or padded to 8. */
  method HashTail(data: seq<Byte>, c: Context, sum0: nat) returns (ok: bool, stream: seq<Byte>)
    requires |data| < U32 && sum0 <= |data|
    ensures ok <==> TailOk(data, c, sum0)
    ensures ok ==> stream == Tail(data, c, sum0)
  {
    stream := [];
    var sum := sum0;
    if sum < |data| && c.secDir.size != 0 {
      var hashSize := (|data| - c.secDir.size - sum) % U32;
      if c.secDir.size <= |data| - sum {
        TailArithmetic(|data|, c.secDir.size, sum);
      }
      if |data| - sum < c.secDir.size || (sum + hashSize) % U32 != c.secDir.virtualAddress {
        return false, [];
      }
      stream := data[sum..sum + hashSize];
      sum := (sum + hashSize) % U32;
      assert sum + c.secDir.size == |data| && (sum + c.secDir.size) % U32 == |data|;
    }
    var rest := HashRest(data, sum, c.secDir.size);
    return true, stream + rest;
  }

  /** Unsigned data after the last section, padded to a multiple of 8. */
  method HashRest(data: seq<Byte>, sum: nat, cert: Word32) returns (stream: seq<Byte>)
    requires sum <= |data| < U32
    ensures stream == if (sum + cert) % U32 < |data| then data[sum..] + Zeros(Pad(|data|)) else []
  {
    if |data| <= (sum + cert) % U32 {
      return [];
    }
    var hashSize := |data| - sum;
    stream := data[sum..sum + hashSize];
    var reached := (sum + hashSize) % U32;
    stream := stream + Zeros((8 - reached % 8) % 8);
  }

  /** The stream handed to SHA-256 and SHA-1; digest and allocation failures
      are the caller's. */
  method GenerateHash(data: seq<Byte>, c: Context) returns (status: Status, stream: seq<Byte>)
    requires |data| < U32 && HeaderFacts(data, c)
    ensures status.Success? <==> DosSigned(data) && Accepted(data, c, Sections(data, c))
    ensures status.Success? ==> stream == Stream(data, c, Sections(data, c))
  {
    hide Insert, Sort, RawTotal, SectionBytes, GetSectionVma, Tail, TailOk, AllInside, AllVma, HeaderAt, SectionAt;
    stream := [];
    if |data| <= DOS_HEADER_SIZE || Word16At(data, 0) != DOS_SIGNATURE {
      return InvalidParameter, [];
    }
    var checkSum, secDir := c.CheckSumOffset(), c.SecDirOffset();
    stream := data[..checkSum] + data[checkSum + 4..secDir];
    var hashSize := (c.sizeOfHeaders - (secDir + 8)) % U32;
    if |data| < hashSize || |data| < secDir + 8 + hashSize {
      return InvalidParameter, [];
    }
    WrapTooBig(|data|, c.sizeOfHeaders, secDir + 8);
    stream := stream + data[secDir + 8..secDir + 8 + hashSize];
    assert stream == HeaderBytes(data, c);
    var ss := Sections(data, c);
    if ss == [] && |data| <= c.FirstSection() {
      return InvalidParameter, [];
    }
    var ok, table := ValidateAndSort(|data|, c, ss);
    if !ok {
      return InvalidParameter, [];
    }
    SortTotal(ss);
    SortInside(data, ss);
    var body, sum;
    ok, body, sum := HashSections(data, c, table);
    if !ok {
      return InvalidParameter, [];
    }
    var tail;
    ok, tail := HashTail(data, c, sum);
    if !ok {
      return InvalidParameter, [];
    }
    return Success, stream + body + tail;
  }

  /** If the header size is too small, its 32-bit difference fails the checks. */
  lemma WrapTooBig(size: nat, headers: Word32, at: nat)
    requires size < U32 && at <= size
    requires at + (headers - at) % U32 <= size
    ensures at <= headers <= size && (headers - at) % U32 == headers - at
  {
  }

  // ----- tiled files

  /** `tiles` cover [from, to) of the file without gap or overlap. */
  ghost predicate Tile(tiles: seq<Section>, from: nat, to: nat)
  {
    if tiles == [] then from == to
    else
      var last := tiles[|tiles| - 1];
      last.pointerToRawData + last.sizeOfRawData == to && Tile(tiles[..|tiles| - 1], from, last.pointerToRawData)
  }

  lemma {:induction false} TileBounds(tiles: seq<Section>, from: nat, to: nat)
    requires Tile(tiles, from, to) && forall i :: 0 <= i < |tiles| ==> tiles[i].sizeOfRawData != 0
    ensures from <= to && RawTotal(tiles) == to - from
    ensures forall i :: 0 <= i < |tiles| ==>
              from <= tiles[i].pointerToRawData && tiles[i].pointerToRawData + tiles[i].sizeOfRawData <= to
    ensures forall i, j :: 0 <= i < j < |tiles| ==> tiles[i].pointerToRawData < tiles[j].pointerToRawData
  {
    if tiles != [] {
      var front, last := tiles[..|tiles| - 1], tiles[|tiles| - 1];
      TileBounds(front, from, last.pointerToRawData);
      assert forall i :: 0 <= i < |front| ==> front[i] == tiles[i];
    }
  }

  lemma Glue(data: seq<Byte>, a: nat, b: nat, c: nat)
    requires a <= b <= c <= |data|
    ensures data[a..b] + data[b..c] == data[a..c]
  {
  }

  lemma {:induction false} TileBytes(data: seq<Byte>, tiles: seq<Section>, from: nat, to: nat)
    requires Tile(tiles, from, to) && from <= to <= |data| && AllInside(data, tiles)
    requires forall i :: 0 <= i < |tiles| ==> tiles[i].sizeOfRawData != 0
    ensures SectionBytes(data, tiles) == data[from..to]
  {
    if tiles != [] {
      var front, last := tiles[..|tiles| - 1], tiles[|tiles| - 1];
      TileBounds(tiles, from, to);
      TileBytes(data, front, from, last.pointerToRawData);
      Glue(data, from, last.pointerToRawData, to);
    }
  }

  ghost predicate Increasing(t: seq<Section>)
  {
    forall i, j :: 0 <= i < j < |t| ==> t[i].pointerToRawData < t[j].pointerToRawData
  }

  lemma {:induction false} LastAgrees(s: seq<Section>, t: seq<Section>)
    requires Sorted(s) && Increasing(t) && multiset(s) == multiset(t) && |s| == |t| && s != []
    ensures s[|s| - 1] == t[|t| - 1]
    ensures Sorted(s[..|s| - 1]) && Increasing(t[..|t| - 1])
  {
    var n := |s| - 1;
    assert s[n] in multiset(t) && t[n] in multiset(s);
    var i :| 0 <= i <= n && t[i] == s[n];
    var j :| 0 <= j <= n && s[j] == t[n];
  }

  /** A strictly increasing sequence is the only sorted order of its members. */
  lemma {:induction false} SortedUnique(s: seq<Section>, t: seq<Section>)
    requires Sorted(s) && Increasing(t) && multiset(s) == multiset(t)
    ensures s == t
  {
    hide Sorted, Increasing;
    assert |s| == |multiset(s)| == |multiset(t)| == |t|;
    if s != [] {
      LastAgrees(s, t);
      DropLast(s);
      DropLast(t);
      SortedUnique(s[..|s| - 1], t[..|t| - 1]);
      assert s == s[..|s| - 1] + [s[|s| - 1]] && t == t[..|t| - 1] + [t[|t| - 1]];
    }
  }

  /** Sections without raw data add nothing to the stream or the sum. */
  lemma {:induction false} EmptySectionsSilent(data: seq<Byte>, ss: seq<Section>, kept: seq<Section>)
    requires AllInside(data, ss) && kept == Only(ss, NonEmpty())
    ensures AllInside(data, kept) && RawTotal(kept) == RawTotal(ss)
    ensures SectionBytes(data, kept) == SectionBytes(data, ss)
    decreases |ss|
  {
    if ss != [] {
      var front, last := ss[..|ss| - 1], ss[|ss| - 1];
      var k := Only(front, NonEmpty());
      EmptySectionsSilent(data, front, k);
      if last.sizeOfRawData != 0 {
        assert kept == k + [last];
        assert kept[..|kept| - 1] == k && kept[|kept| - 1] == last;
      } else {
        assert kept == k;
        assert SectionBytes(data, front) + RawBytes(data, last) == SectionBytes(data, front);
      }
    }
  }

  /** The file without its checksum, security directory entry and what follows
      `to`, each byte once and in order. */
  function Unsigned(data: seq<Byte>, c: Context, to: nat): (s: seq<Byte>)
    requires c.SecDirOffset() + 8 <= to <= |data|
  {
    data[..c.CheckSumOffset()] + data[c.CheckSumOffset() + 4..c.SecDirOffset()] + data[c.SecDirOffset() + 8..to]
  }

  /** A file whose non-empty sections tile it from the headers on, with any
      certificate table after them at the very end, is accepted, and the stream is
      the file itself minus those fields; zero padding appears only when an
      unsigned file goes on after its last section. */
  lemma {:induction false} TiledFileIsHashedWhole(data: seq<Byte>, c: Context, ss: seq<Section>, tiles: seq<Section>,
                                                  end: nat)
    requires |data| < U32 && DosSigned(data) && DOS_HEADER_SIZE < |data| && AllVma(c, ss)
    requires (ss == [] ==> c.FirstSection() < |data|) && c.SecDirOffset() + 8 <= c.sizeOfHeaders
    requires multiset(tiles) == multiset(Only(ss, NonEmpty())) && Tile(tiles, c.sizeOfHeaders, end)
    requires if c.secDir.size == 0 then end <= |data|
             else end <= c.secDir.virtualAddress && c.secDir.virtualAddress + c.secDir.size == |data|
    ensures Accepted(data, c, ss) && c.SecDirOffset() + 8 <= end
    ensures Stream(data, c, ss) ==
              if c.secDir.size != 0 then Unsigned(data, c, c.secDir.virtualAddress)
              else Unsigned(data, c, |data|) + if end < |data| then Zeros(Pad(|data|)) else []
  {
    hide Sort, Only, Tile, SectionBytes, RawTotal, GetSectionVma, HeaderBytes, Unsigned, Tail;
    SortSorted(ss);
    SortOnly(ss, NonEmpty());
    OnlySorted(Sort(ss), NonEmpty());
    var solid := Only(Sort(ss), NonEmpty());
    forall i | 0 <= i < |tiles| ensures tiles[i].sizeOfRawData != 0 {
      assert tiles[i] in multiset(solid);
      assert NonEmpty()(tiles[i]);
    }
    TileBounds(tiles, c.sizeOfHeaders, end);
    SortedUnique(solid, tiles);
    TiledInside(data, ss, tiles, c.sizeOfHeaders, end);
    EmptySectionsSilent(data, Sort(ss), solid);
    SortTotal(ss);
    assert Sum(c, ss) == end;
    TileBytes(data, tiles, c.sizeOfHeaders, end);
    TiledStream(data, c, end);
  }

  lemma {:induction false} TiledInside(data: seq<Byte>, ss: seq<Section>, tiles: seq<Section>, from: nat, to: nat)
    requires tiles == Only(Sort(ss), NonEmpty()) && Tile(tiles, from, to) && to <= |data|
    ensures AllInside(data, Sort(ss)) && AllInside(data, ss)
  {
    hide Sort, Only, Tile;
    SortSorted(ss);
    OnlySorted(Sort(ss), NonEmpty());
    assert forall i :: 0 <= i < |tiles| ==> tiles[i] in tiles;
    TileBounds(tiles, from, to);
    forall i | 0 <= i < |Sort(ss)| ensures RawInside(data, Sort(ss)[i]) {
      var x := Sort(ss)[i];
      if x.sizeOfRawData != 0 {
        assert x in tiles;
      }
    }
    SortInside(data, ss);
  }

  lemma {:induction false} UnsignedGrows(data: seq<Byte>, c: Context, a: nat, b: nat)
    requires c.SecDirOffset() + 8 <= a <= b <= |data|
    ensures Unsigned(data, c, a) + data[a..b] == Unsigned(data, c, b)
  {
    var headers := data[..c.CheckSumOffset()] + data[c.CheckSumOffset() + 4..c.SecDirOffset()];
    Glue(data, c.SecDirOffset() + 8, a, b);
    Assoc(headers, data[c.SecDirOffset() + 8..a], data[a..b]);
  }

  lemma {:induction false} TiledStream(data: seq<Byte>, c: Context, end: nat)
    requires |data| < U32 && c.SecDirOffset() + 8 <= c.sizeOfHeaders <= end <= |data|
    requires if c.secDir.size == 0 then end <= |data|
             else end <= c.secDir.virtualAddress && c.secDir.virtualAddress + c.secDir.size == |data|
    ensures TailOk(data, c, end)
    ensures HeaderBytes(data, c) + data[c.sizeOfHeaders..end] + Tail(data, c, end) ==
              if c.secDir.size != 0 then Unsigned(data, c, c.secDir.virtualAddress)
              else Unsigned(data, c, |data|) + if end < |data| then Zeros(Pad(|data|)) else []
  {
    assert HeaderBytes(data, c) == Unsigned(data, c, c.sizeOfHeaders);
    hide Unsigned, HeaderBytes;
    UnsignedGrows(data, c, c.sizeOfHeaders, end);
    if c.secDir.size != 0 {
      UnsignedGrows(data, c, end, c.secDir.virtualAddress);
    } else if end < |data| {
      UnsignedGrows(data, c, end, |data|);
      assert data[end..] == data[end..|data|];
      Assoc(Unsigned(data, c, end), data[end..], Zeros(Pad(|data|)));
    } else {
      assert Tail(data, c, end) == [];
    }
  }
}
