/** SBAT metadata of an image (sbat.c): packing the parsed rows into one block,
    and checking their generations against the revocation level. */
module SbatSection {
  import opened Bytes
  import opened Csv

  const COLUMNS := 6
  const ENTRY_SIZE := 56  // a pointer to the entry, and the entry's six pointers

  type Text = seq<Byte>

  // ----- what a packed block holds

  function RowBytes(row: seq<Text>): (b: seq<Byte>)
  {
    if row == [] then [] else (row[0] + [NUL]) + RowBytes(row[1..])
  }

  function TableBytes(rows: seq<seq<Text>>): (b: seq<Byte>)
  {
    if rows == [] then [] else RowBytes(rows[0]) + TableBytes(rows[1..])
  }

  /** Where the strings of a row start, when the first stands at `at`. */
  function RowOffsets(row: seq<Text>, at: nat): (o: seq<nat>)
    ensures |o| == |row|
  {
    if row == [] then [] else [at] + RowOffsets(row[1..], at + |row[0]| + 1)
  }

  function Offsets(rows: seq<seq<Text>>, at: nat): (o: seq<seq<nat>>)
    ensures |o| == |rows|
  {
    if rows == [] then [] else [RowOffsets(rows[0], at)] + Offsets(rows[1..], at + |RowBytes(rows[0])|)
  }

  predicate RowOk(row: seq<Text>)
  {
    COLUMNS <= |row| && forall c :: 0 <= c < |row| ==> row[c] != []
  }

  predicate RowsOk(rows: seq<seq<Text>>)
  {
    forall r :: 0 <= r < |rows| ==> RowOk(rows[r])
  }

  /** The string `t` and its NUL stand at offset `at`. */
  predicate StringIn(s: seq<Byte>, at: nat, t: Text)
  {
    at + |t| < |s| && s[at..at + |t|] == t && s[at + |t|] == NUL
  }

  lemma {:induction false} RowStrings(s: seq<Byte>, at: nat, row: seq<Text>, c: nat)
    requires at + |RowBytes(row)| <= |s| && s[at..at + |RowBytes(row)|] == RowBytes(row) && c < |row|
    ensures StringIn(s, RowOffsets(row, at)[c], row[c])
    ensures RowOffsets(row, at)[c] + |row[c]| < at + |RowBytes(row)|
    ensures if c + 1 < |row| then RowOffsets(row, at)[c + 1] == RowOffsets(row, at)[c] + |row[c]| + 1
            else at + |RowBytes(row)| == RowOffsets(row, at)[c] + |row[c]| + 1
    decreases |row|
  {
    hide StringIn;
    var t, rest := row[0], RowBytes(row[1..]);
    Split(s, at, t + [NUL], rest);
    if c == 0 {
      StringStands(s, at, t);
    } else {
      RowStrings(s, at + |t| + 1, row[1..], c - 1);
    }
  }

  lemma {:induction false} StringStands(s: seq<Byte>, at: nat, t: Text)
    requires at + |t| + 1 <= |s| && s[at..at + |t| + 1] == t + [NUL]
    ensures StringIn(s, at, t)
  {
    Split(s, at, t, [NUL]);
    assert s[at..at + |t| + 1][|t|] == NUL;
  }

  lemma {:induction false} Split(s: seq<Byte>, at: nat, a: seq<Byte>, b: seq<Byte>)
    requires at + |a + b| <= |s| && s[at..at + |a + b|] == a + b
    ensures s[at..at + |a|] == a && s[at + |a|..at + |a| + |b|] == b
  {
    var ab := s[at..at + |a| + |b|];
    assert s[at..at + |a|] == ab[..|a|];
    assert s[at + |a|..at + |a| + |b|] == ab[|a|..];
  }

  /** Every string of every row stands at its offset; strings and rows follow
      each other without gap or overlap. */
  lemma {:induction false} TableStrings(s: seq<Byte>, at: nat, rows: seq<seq<Text>>, r: nat, c: nat)
    requires at + |TableBytes(rows)| <= |s| && s[at..at + |TableBytes(rows)|] == TableBytes(rows)
    requires r < |rows| && c < |rows[r]|
    ensures |Offsets(rows, at)[r]| == |rows[r]|
    ensures StringIn(s, Offsets(rows, at)[r][c], rows[r][c])
    ensures c + 1 < |rows[r]| ==> Offsets(rows, at)[r][c + 1] == Offsets(rows, at)[r][c] + |rows[r][c]| + 1
    ensures at <= Offsets(rows, at)[r][c] && Offsets(rows, at)[r][c] + |rows[r][c]| < at + |TableBytes(rows)|
    decreases |rows|
  {
    hide StringIn, RowBytes;
    Split(s, at, RowBytes(rows[0]), TableBytes(rows[1..]));
    if r == 0 {
      RowStrings(s, at, rows[0], c);
      RowOffsetsFrom(rows[0], at, c);
    } else {
      TableStrings(s, at + |RowBytes(rows[0])|, rows[1..], r - 1, c);
    }
  }

  lemma {:induction false} RowOffsetsFrom(row: seq<Text>, at: nat, c: nat)
    requires c < |row|
    ensures at <= RowOffsets(row, at)[c]
    decreases |row|
  {
    if c > 0 {
      RowOffsetsFrom(row[1..], at + |row[0]| + 1, c - 1);
    }
  }

  // ----- the two passes

  /** The parsed rows are offsets of strings in the edited data. */
  predicate Matches(now: seq<Byte>, rows: seq<seq<nat>>, texts: seq<seq<Text>>)
  {
    |rows| == |texts| && forall r :: 0 <= r < |rows| ==> RowMatches(now, rows[r], texts[r])
  }

  predicate RowMatches(now: seq<Byte>, row: seq<nat>, texts: seq<Text>)
  {
    |row| == |texts| && forall c :: 0 <= c < |row| ==> StringIn(now, row[c], texts[c]) && NoNul(texts[c])
  }

  method StrLen(data: array<Byte>, at: nat, ghost t: Text) returns (n: nat)
    requires StringIn(data[..], at, t) && NoNul(t)
    ensures n == |t|
  {
    n := 0;
    while data[at + n] != NUL
      invariant n <= |t|
      decreases |t| - n
    {
      n := n + 1;
    }
  }

  /** The size of one row's strings, or a rejection. */
  method CountRow(data: array<Byte>, row: seq<nat>, ghost texts: seq<Text>) returns (ok: bool, size: nat)
    requires RowMatches(data[..], row, texts)
    ensures ok <==> RowOk(texts)
    ensures ok ==> size == |RowBytes(texts)|
  {
    hide StringIn, RowBytes;
    size := 0;
    if |row| < COLUMNS {
      return false, 0;
    }
    var i := 0;
    RowPrefix(texts, 0);
    while i < |row|
      invariant i <= |row| && size == |RowBytes(texts[..i])|
      invariant forall c :: 0 <= c < i ==> texts[c] != []
    {
      assert StringIn(data[..], row[i], texts[i]);
      FirstByte(data[..], row[i], texts[i]);
      if data[row[i]] == NUL {
        return false, 0;
      }
      var n := StrLen(data, row[i], texts[i]);
      RowPrefix(texts, i + 1);
      size := size + n + 1;
      i := i + 1;
    }
    assert texts[..i] == texts;
    return true, size;
  }

  lemma {:induction false} FirstByte(s: seq<Byte>, at: nat, t: Text)
    requires StringIn(s, at, t) && NoNul(t)
    ensures at < |s| && (s[at] == NUL <==> t == [])
  {
    if t != [] {
      assert s[at] == s[at..at + |t|][0];
    }
  }

  lemma {:induction false} RowBytesAppend(row: seq<Text>, t: Text)
    ensures RowBytes(row + [t]) == RowBytes(row) + (t + [NUL])
  {
    if row == [] {
      assert RowBytes([t]) == (t + [NUL]) + RowBytes([]);
    } else {
      RowBytesAppend(row[1..], t);
      assert (row + [t])[1..] == row[1..] + [t];
    }
  }

  lemma {:induction false} RowPrefix(row: seq<Text>, i: nat)
    requires i <= |row|
    ensures i == 0 ==> RowBytes(row[..i]) == []
    ensures i > 0 ==> RowBytes(row[..i]) == RowBytes(row[..i - 1]) + (row[i - 1] + [NUL])
  {
    if i > 0 {
      RowBytesAppend(row[..i - 1], row[i - 1]);
      assert row[..i] == row[..i - 1] + [row[i - 1]];
    }
  }

  lemma {:induction false} TableBytesAppend(rows: seq<seq<Text>>, row: seq<Text>)
    ensures TableBytes(rows + [row]) == TableBytes(rows) + RowBytes(row)
  {
    hide RowBytes;
    if rows == [] {
      assert TableBytes([row]) == RowBytes(row) + TableBytes([]);
    } else {
      TableBytesAppend(rows[1..], row);
      assert (rows + [row])[1..] == rows[1..] + [row];
    }
  }

  lemma {:induction false} TablePrefix(rows: seq<seq<Text>>, i: nat)
    requires i <= |rows|
    ensures i == 0 ==> TableBytes(rows[..i]) == []
    ensures i > 0 ==> TableBytes(rows[..i]) == TableBytes(rows[..i - 1]) + RowBytes(rows[i - 1])
  {
    if i > 0 {
      TableBytesAppend(rows[..i - 1], rows[i - 1]);
      assert rows[..i] == rows[..i - 1] + [rows[i - 1]];
    }
  }

  /** The first pass: every row complete, and the bytes that all of them need. */
  method CountRows(data: array<Byte>, rows: seq<seq<nat>>, ghost texts: seq<seq<Text>>) returns (ok: bool, size: nat)
    requires Matches(data[..], rows, texts)
    ensures ok <==> RowsOk(texts)
    ensures ok ==> size == ENTRY_SIZE * |rows| + |TableBytes(texts)|
  {
    hide RowMatches, RowOk, RowBytes, TableBytes;
    size := 0;
    var n := 0;
    TablePrefix(texts, 0);
    while n < |rows|
      invariant n <= |rows| && size == ENTRY_SIZE * n + |TableBytes(texts[..n])|
      invariant forall r :: 0 <= r < n ==> RowOk(texts[r])
    {
      assert RowMatches(data[..], rows[n], texts[n]);
      var good, more := CountRow(data, rows[n], texts[n]);
      if !good {
        return false, 0;
      }
      TablePrefix(texts, n + 1);
      size := size + ENTRY_SIZE + more;
      n := n + 1;
    }
    assert texts[..n] == texts;
    return true, size;
  }

  /** Copies a string and its NUL to the end of what has been written. */
  method StpCpy(block: array<Byte>, to: nat, data: array<Byte>, at: nat, ghost t: Text) returns (end: nat)
    requires StringIn(data[..], at, t) && NoNul(t) && to + |t| < block.Length && block != data
    modifies block
    ensures end == to + |t| && block[..end + 1] == old(block[..to]) + (t + [NUL])
  {
    var i := 0;
    while data[at + i] != NUL
      invariant i <= |t| && block[..to] == old(block[..to]) && block[to..to + i] == t[..i]
      decreases |t| - i
    {
      block[to + i] := data[at + i];
      i := i + 1;
    }
    block[to + i] := NUL;
    end := to + i;
    assert block[..end + 1] == block[..to] + block[to..to + i] + [NUL];
  }

  lemma {:induction false} OffsetsAppend(row: seq<Text>, t: Text, at: nat)
    ensures RowOffsets(row + [t], at) == RowOffsets(row, at) + [at + |RowBytes(row)|]
  {
    if row != [] {
      OffsetsAppend(row[1..], t, at + |row[0]| + 1);
      assert (row + [t])[1..] == row[1..] + [t];
    }
  }

  lemma {:induction false} TableOffsetsAppend(rows: seq<seq<Text>>, row: seq<Text>, at: nat)
    ensures Offsets(rows + [row], at) == Offsets(rows, at) + [RowOffsets(row, at + |TableBytes(rows)|)]
  {
    hide RowBytes, RowOffsets;
    if rows != [] {
      TableOffsetsAppend(rows[1..], row, at + |RowBytes(rows[0])|);
      assert (rows + [row])[1..] == rows[1..] + [row];
    }
  }

  lemma {:induction false} RowFits(row: seq<Text>, i: nat)
    requires i < |row|
    ensures |RowBytes(row[..i])| + |row[i]| + 1 <= |RowBytes(row)|
    decreases |row|
  {
    if i > 0 {
      RowFits(row[1..], i - 1);
      assert row[..i][1..] == row[1..][..i - 1];
    }
  }

  lemma {:induction false} TableFits(rows: seq<seq<Text>>, i: nat)
    requires i < |rows|
    ensures |TableBytes(rows[..i])| + |RowBytes(rows[i])| <= |TableBytes(rows)|
    decreases |rows|
  {
    hide RowBytes;
    if i > 0 {
      TableFits(rows[1..], i - 1);
      assert rows[..i][1..] == rows[1..][..i - 1];
    }
  }

  /** Packs one row's strings at `strtab`. */
  method PackRow(block: array<Byte>, strtab: nat, data: array<Byte>, row: seq<nat>, ghost texts: seq<Text>)
    returns (next: nat, entry: seq<nat>)
    requires RowMatches(data[..], row, texts) && block != data && strtab + |RowBytes(texts)| <= block.Length
    modifies block
    ensures next == strtab + |RowBytes(texts)| && block[..next] == old(block[..strtab]) + RowBytes(texts)
    ensures entry == RowOffsets(texts, strtab)
  {
    hide RowBytes, RowOffsets, StringIn;
    var i := 0;
    next, entry := strtab, [];
    RowPrefix(texts, 0);
    assert block[..next] == old(block[..strtab]) + [];
    while i < |row|
      invariant i <= |row| && next == strtab + |RowBytes(texts[..i])| <= block.Length
      invariant block[..next] == old(block[..strtab]) + RowBytes(texts[..i])
      invariant entry == RowOffsets(texts[..i], strtab)
    {
      assert StringIn(data[..], row[i], texts[i]) && NoNul(texts[i]);
      RowFits(texts, i);
      RowPrefix(texts, i + 1);
      OffsetsAppend(texts[..i], texts[i], strtab);
      assert texts[..i + 1] == texts[..i] + [texts[i]];
      entry := entry + [next];
      var end := StpCpy(block, next, data, row[i], texts[i]);
      Assoc(old(block[..strtab]), RowBytes(texts[..i]), texts[i] + [NUL]);
      next := end + 1;
      i := i + 1;
    }
    assert texts[..i] == texts;
  }

  /** The second pass: strings one after the other behind the entries. */
  method PackRows(block: array<Byte>, data: array<Byte>, rows: seq<seq<nat>>, ghost texts: seq<seq<Text>>)
    returns (entries: seq<seq<nat>>)
    requires Matches(data[..], rows, texts) && block != data
    requires block.Length == ENTRY_SIZE * |rows| + |TableBytes(texts)|
    modifies block
    ensures block[ENTRY_SIZE * |rows|..] == TableBytes(texts)
    ensures entries == Offsets(texts, ENTRY_SIZE * |rows|)
  {
    hide RowBytes, RowOffsets, TableBytes, Offsets, RowMatches;
    var start := ENTRY_SIZE * |rows|;
    var strtab, n := start, 0;
    entries := [];
    TablePrefix(texts, 0);
    ghost var front := block[..start];
    assert block[..strtab] == front + [];
    while n < |rows|
      invariant n <= |rows| && strtab == start + |TableBytes(texts[..n])| <= block.Length
      invariant block[..strtab] == front + TableBytes(texts[..n])
      invariant entries == Offsets(texts[..n], start)
    {
      assert RowMatches(data[..], rows[n], texts[n]);
      TableFits(texts, n);
      TablePrefix(texts, n + 1);
      TableOffsetsAppend(texts[..n], texts[n], start);
      assert texts[..n + 1] == texts[..n] + [texts[n]];
      var entry;
      strtab, entry := PackRow(block, strtab, data, rows[n], texts[n]);
      Assoc(front, TableBytes(texts[..n]), RowBytes(texts[n]));
      entries := entries + [entry];
      n := n + 1;
    }
    assert texts[..n] == texts;
    assert block[start..] == block[..strtab][start..];
  }

  // ----- parse_sbat_section

  function FieldText(s: seq<Byte>, f: Line): (t: Text)
  {
    if f.start <= f.end <= |s| then s[f.start..f.end] else []
  }

  function FieldTexts(s: seq<Byte>, fs: seq<Line>): (r: seq<Text>)
    ensures |r| == |fs| && forall c :: 0 <= c < |fs| ==> r[c] == FieldText(s, fs[c])
  {
    seq(|fs|, c requires 0 <= c < |fs| => FieldText(s, fs[c]))
  }

  /** The rows of a section as text: for each line its first six fields. */
  function SectionTexts(s: seq<Byte>, from: nat, hi: nat): (r: seq<seq<Text>>)
    requires hi < |s| && s[hi] == NUL
    ensures |r| == |AllLines(s, from, hi)|
  {
    var ls := AllLines(s, from, hi);
    seq(|ls|, k requires 0 <= k < |ls| => FieldTexts(s, Columns(s, ls[k], COLUMNS)))
  }

  lemma {:induction false} ColumnText(was: seq<Byte>, now: seq<Byte>, from: nat, hi: nat, r: nat, c: nat)
    requires hi < |was| == |now| && was[hi] == NUL
    requires forall k :: from <= k < |was| ==> now[k] == AllEdited(was, from, hi, COLUMNS, k)
    requires r < |AllLines(was, from, hi)| && c < |Columns(was, AllLines(was, from, hi)[r], COLUMNS)|
    ensures var f := Columns(was, AllLines(was, from, hi)[r], COLUMNS)[c];
            StringIn(now, f.start, FieldText(was, f)) && NoNul(FieldText(was, f))
  {
    hide AllEdited, Columns, AllLines;
    RowsReadBack(was, now, from, hi, COLUMNS, r, c);
  }

  lemma {:induction false} ParsedMatch(was: seq<Byte>, now: seq<Byte>, from: nat, hi: nat)
    requires hi < |was| == |now| && was[hi] == NUL
    requires forall k :: from <= k < |was| ==> now[k] == AllEdited(was, from, hi, COLUMNS, k)
    ensures Matches(now, RowsOf(was, AllLines(was, from, hi), COLUMNS), SectionTexts(was, from, hi))
  {
    hide AllEdited, AllLines, StringIn, Columns, Csv.NoNul;
    var ls := AllLines(was, from, hi);
    var rows := RowsOf(was, ls, COLUMNS);
    forall r | 0 <= r < |ls| ensures RowMatches(now, rows[r], SectionTexts(was, from, hi)[r]) {
      var fs := Columns(was, ls[r], COLUMNS);
      forall c | 0 <= c < |fs|
        ensures StringIn(now, rows[r][c], FieldText(was, fs[c])) && NoNul(FieldText(was, fs[c]))
      {
        ColumnText(was, now, from, hi, r, c);
      }
    }
  }

  /** Parses the section in place and packs its rows into a block of exactly the
      bytes counted; the strings stand behind the entries in the order of the text. */
  method ParseSbatSection(data: array<Byte>, size: nat, allocFails: nat, poolOk: bool)
    returns (status: Status, block: array?<Byte>, entries: seq<seq<nat>>)
    requires size <= data.Length < U32 && (size != 0 ==> data[size - 1] == NUL)
    modifies data
    ensures size <= 1 ==> status == InvalidParameter
    ensures 1 < size ==>
              var was, end := old(data[..]), size - 1;
              var texts := SectionTexts(was, Start(was, end), end);
              && status == (if allocFails < |texts| then OutOfResources
                            else if !RowsOk(texts) then InvalidParameter
                            else if texts != [] && !poolOk then OutOfResources
                            else Success)
              && (status.Success? ==> |entries| == |texts|)
              && (status.Success? && texts != [] ==>
                    && block != null && fresh(block) && block.Length == ENTRY_SIZE * |texts| + |TableBytes(texts)|
                    && block[ENTRY_SIZE * |texts|..] == TableBytes(texts)
                    && entries == Offsets(texts, ENTRY_SIZE * |texts|))
  {
    hide AllEdited, RowsOk, TableBytes, Offsets, Matches, Start, OnlyDelimiters, AllLines, SectionTexts, RowsOf;
    block, entries := null, [];
    if size == 0 {
      return InvalidParameter, null, [];
    }
    ghost var was, end := data[..], size - 1;
    var rows;
    status, rows := ParseCsvData(data, size - 1, COLUMNS, allocFails);
    if size == 1 {
      return InvalidParameter, null, [];
    }
    ghost var texts := SectionTexts(was, Start(was, end), end);
    if !status.Success? {
      return;
    }
    ParsedMatch(was, data[..], Start(was, end), end);
    var ok, allocsz := CountRows(data, rows, texts);
    if !ok {
      return InvalidParameter, null, [];
    }
    if |rows| == 0 {
      return Success, null, [];
    }
    if !poolOk {
      return OutOfResources, null, [];
    }
    block := new Byte[allocsz](_ => 0);
    entries := PackRows(block, data, rows, texts);
  }

  // ----- the revocation check

  /** A component, of an image or of the level: its name, and its generation as written. */
  datatype Component = Component(name: Text, generation: Text)

  /** The first entry of the level with this name, or the number of entries. */
  function FirstNamed(level: seq<Component>, name: Text, i: nat): (k: nat)
    requires i <= |level|
    ensures i <= k <= |level|
    ensures forall j :: i <= j < k ==> level[j].name != name
    ensures k < |level| ==> level[k].name == name
    decreases |level| - i
  {
    if i == |level| || level[i].name == name then i else FirstNamed(level, name, i + 1)
  }

  /** The 16 bits kept of a converted generation. */
  function Generation(atoi: Text -> nat, c: Component): (g: Word16) { atoi(c.generation) % U16 }

  /** The first entry of the same name, if any, does not ask for a later generation. */
  predicate NotRevoked(atoi: Text -> nat, level: seq<Component>, e: Component)
  {
    var k := FirstNamed(level, e.name, 0);
    k < |level| ==> Generation(atoi, level[k]) <= Generation(atoi, e)
  }

  method VerifySingleEntry(atoi: Text -> nat, entry: Component, levelEntry: Component)
    returns (status: Status, found: bool)
    ensures found <==> entry.name == levelEntry.name
    ensures status.Success? <==> (found ==> Generation(atoi, levelEntry) <= Generation(atoi, entry))
    ensures status.Success? || status.SecurityViolation?
  {
    found := false;
    if entry.name == levelEntry.name {
      found := true;
      if Generation(atoi, entry) < Generation(atoi, levelEntry) {
        return SecurityViolation, found;
      }
    }
    return Success, found;
  }

  method VerifyEntry(atoi: Text -> nat, level: seq<Component>, entry: Component) returns (status: Status)
    ensures status == if NotRevoked(atoi, level, entry) then Success else SecurityViolation
  {
    var pos := 0;
    while pos < |level|
      invariant pos <= |level| && FirstNamed(level, entry.name, 0) == FirstNamed(level, entry.name, pos)
    {
      var found;
      status, found := VerifySingleEntry(atoi, entry, level[pos]);
      if !status.Success? {
        return;
      }
      if found {
        return;
      }
      pos := pos + 1;
    }
    return Success;
  }

  /** An image passes if and only if none of its components is revoked. */
  method VerifySbatHelper(atoi: Text -> nat, level: seq<Component>, entries: seq<Component>) returns (status: Status)
    ensures status ==
              if forall i :: 0 <= i < |entries| ==> NotRevoked(atoi, level, entries[i]) then Success
              else SecurityViolation
  {
    if level == [] {
      return Success;
    }
    var i := 0;
    while i < |entries|
      invariant i <= |entries| && forall k :: 0 <= k < i ==> NotRevoked(atoi, level, entries[k])
    {
      status := VerifyEntry(atoi, level, entries[i]);
      if !status.Success? {
        return;
      }
      i := i + 1;
    }
    return Success;
  }

  // ----- verify_sbat_section

  /** What the section's bytes say: the name and the generation of every row. */
  function Components(texts: seq<seq<Text>>): (r: seq<Component>)
    requires RowsOk(texts)
    ensures |r| == |texts| && forall k :: 0 <= k < |r| ==> r[k] == Component(texts[k][0], texts[k][1])
  {
    seq(|texts|, k requires 0 <= k < |texts| => Component(texts[k][0], texts[k][1]))
  }

  /** The rows of a section, NUL appended, as the text parser sees them. */
  function SectionRows(section: seq<Byte>): (texts: seq<seq<Text>>)
  {
    SectionTexts(section + [NUL], Start(section + [NUL], |section|), |section|)
  }

  /** The verdict on an image's .sbat section when every allocation succeeds. */
  function SbatVerdict(atoi: Text -> nat, level: seq<Component>, inProtocol: bool, section: seq<Byte>): (status: Status)
  {
    if level == [] then Success
    else if section == [] then (if inProtocol then Success else SecurityViolation)
    else if !RowsOk(SectionRows(section)) then InvalidParameter
    else if forall i :: 0 <= i < |SectionRows(section)| ==> NotRevoked(atoi, level, Components(SectionRows(section))[i])
    then Success else SecurityViolation
  }

  /** The string at an offset of the packed block. */
  method ReadString(block: array<Byte>, at: nat, ghost t: Text) returns (r: Text)
    requires StringIn(block[..], at, t) && NoNul(t)
    ensures r == t
  {
    var n := StrLen(block, at, t);
    return block[at..at + n];
  }

  /** Every string of the section is free of NULs. */
  lemma {:induction false} SectionTextsNoNul(s: seq<Byte>, from: nat, hi: nat, r: nat, c: nat)
    requires hi < |s| && s[hi] == NUL && r < |SectionTexts(s, from, hi)| && c < |SectionTexts(s, from, hi)[r]|
    ensures NoNul(SectionTexts(s, from, hi)[r][c])
  {
    hide AllEdited, AllLines, Columns, StringIn;
    var now := seq(|s|, k requires 0 <= k < |s| => AllEdited(s, from, hi, COLUMNS, k));
    ColumnText(s, now, from, hi, r, c);
  }

  /** Reads names and generations back from the packed block. */
  method ReadComponents(block: array<Byte>, entries: seq<seq<nat>>, ghost texts: seq<seq<Text>>)
    returns (r: seq<Component>)
    requires RowsOk(texts) && entries == Offsets(texts, ENTRY_SIZE * |texts|)
    requires block.Length == ENTRY_SIZE * |texts| + |TableBytes(texts)| &&
             block[ENTRY_SIZE * |texts|..] == TableBytes(texts)
    requires forall k, c :: 0 <= k < |texts| && 0 <= c < |texts[k]| ==> NoNul(texts[k][c])
    ensures r == Components(texts)
  {
    hide TableBytes, Offsets, StringIn, Csv.NoNul;
    r := [];
    var at := ENTRY_SIZE * |entries|;
    var i := 0;
    assert block[at..at + |TableBytes(texts)|] == TableBytes(texts);
    while i < |entries|
      invariant i <= |entries| && r == Components(texts)[..i]
    {
      assert RowOk(texts[i]);
      TableStrings(block[..], at, texts, i, 0);
      TableStrings(block[..], at, texts, i, 1);
      var name := ReadString(block, entries[i][0], texts[i][0]);
      var generation := ReadString(block, entries[i][1], texts[i][1]);
      r := r + [Component(name, generation)];
      i := i + 1;
    }
  }

  /** The section that the loader found is copied, parsed and checked. */
  method VerifySbatSection(atoi: Text -> nat, level: seq<Component>, inProtocol: bool, section: seq<Byte>,
                           bufferOk: bool, allocFails: nat, poolOk: bool)
    returns (status: Status)
    requires |section| + 1 < U32
    ensures var rows := SectionRows(section);
            status == if level != [] && section != [] &&
                         (!bufferOk || allocFails < |rows| || (RowsOk(rows) && rows != [] && !poolOk)) then
                           OutOfResources
                      else SbatVerdict(atoi, level, inProtocol, section)
  {
    hide RowsOk, TableBytes, Offsets, Start, AllLines, SectionTexts, NotRevoked;
    if level == [] {
      return Success;
    }
    if section == [] {
      return if inProtocol then Success else SecurityViolation;
    }
    if !bufferOk {
      return OutOfResources;
    }
    var data := new Byte[|section| + 1](i requires 0 <= i <= |section| => if i < |section| then section[i] else NUL);
    ghost var was := section + [NUL];
    assert data[..] == was;
    var block, entries;
    status, block, entries := ParseSbatSection(data, |section| + 1, allocFails, poolOk);
    if !status.Success? {
      return;
    }
    ghost var texts := SectionRows(section);
    var components := [];
    if entries != [] {
      forall k, c | 0 <= k < |texts| && 0 <= c < |texts[k]| ensures NoNul(texts[k][c]) {
        SectionTextsNoNul(was, Start(was, |section|), |section|, k, c);
      }
      components := ReadComponents(block, entries, texts);
    }
    status := VerifySbatHelper(atoi, level, components);
  }

  /** Entries added at the end of a level lift no revocation. */
  lemma {:induction false} RevocationStays(atoi: Text -> nat, level: seq<Component>, more: seq<Component>, e: Component)
    requires !NotRevoked(atoi, level, e)
    ensures !NotRevoked(atoi, level + more, e)
  {
    var k := FirstNamed(level, e.name, 0);
    FirstNamedExtends(level, more, e.name, 0);
  }

  lemma {:induction false} FirstNamedExtends(level: seq<Component>, more: seq<Component>, name: Text, i: nat)
    requires i <= |level| && FirstNamed(level, name, i) < |level|
    ensures FirstNamed(level + more, name, i) == FirstNamed(level, name, i)
    decreases |level| - i
  {
    if level[i].name != name {
      FirstNamedExtends(level, more, name, i + 1);
    }
  }
}
