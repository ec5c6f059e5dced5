/** SBAT metadata as it is written: lines of comma-separated fields, read back by the
    parser and judged by the revocation level. */
module SbatText {
  import opened Bytes
  import opened Csv
  import opened SbatSection

  /** A field has no delimiter; it may be empty. */
  predicate IsField(t: seq<Byte>)
  {
    forall k :: 0 <= k < |t| ==> t[k] != NUL && t[k] != LF && t[k] != CR && t[k] != COMMA
  }

  /** A line has at least one comma. */
  predicate IsRow(row: seq<Text>)
  {
    2 <= |row| && forall c :: 0 <= c < |row| ==> IsField(row[c])
  }

  predicate AreRows(rows: seq<seq<Text>>)
  {
    forall r :: 0 <= r < |rows| ==> IsRow(rows[r])
  }

  function RowText(row: seq<Text>): (t: seq<Byte>)
  {
    if row == [] then [] else if |row| == 1 then row[0] else row[0] + ([COMMA] + RowText(row[1..]))
  }

  function Text(rows: seq<seq<Text>>): (t: seq<Byte>)
  {
    if rows == [] then [] else RowText(rows[0]) + ([LF] + Text(rows[1..]))
  }

  /** `t` stands in `s` at [i, hi). */
  predicate Stands(s: seq<Byte>, i: nat, hi: nat, t: seq<Byte>)
  {
    i <= hi <= |s| && s[i..hi] == t
  }

  lemma {:induction false} StandsParts(s: seq<Byte>, i: nat, hi: nat, a: seq<Byte>, b: Byte, c: seq<Byte>)
    requires Stands(s, i, hi, a + ([b] + c))
    ensures i + |a| + 1 <= hi && Stands(s, i, i + |a|, a) && s[i + |a|] == b && Stands(s, i + |a| + 1, hi, c)
  {
    var t := s[i..hi];
    assert s[i..i + |a|] == t[..|a|] == a;
    assert s[i + |a|] == t[|a|] == b;
    assert s[i + |a| + 1..hi] == t[|a| + 1..] == c;
  }

  // ----- fields

  /** Field `c` of the list is the text `t` of `s`. */
  predicate Reads(s: seq<Byte>, f: Line, t: seq<Byte>)
  {
    f.start <= f.end <= |s| && s[f.start..f.end] == t
  }

  lemma {:induction false} CommaAt(s: seq<Byte>, i: nat, c: nat, hi: nat)
    requires i <= c <= hi <= |s| && (forall k :: i <= k < c ==> s[k] != COMMA) && (c < hi ==> s[c] == COMMA)
    ensures CommaFrom(s, i, hi) == c
    decreases c - i
  {
    if i < c {
      CommaAt(s, i + 1, c, hi);
    }
  }

  lemma {:induction false} NoComma(s: seq<Byte>, i: nat, hi: nat, t: seq<Byte>)
    requires Stands(s, i, hi, t) && IsField(t)
    ensures forall k :: i <= k < hi ==> s[k] != COMMA && !IsEol(s[k]) && s[k] != NUL
  {
    forall k | i <= k < hi ensures s[k] != COMMA && !IsEol(s[k]) && s[k] != NUL {
      assert s[k] == s[i..hi][k - i] == t[k - i];
    }
  }

  lemma {:induction false} FieldsRead(s: seq<Byte>, i: nat, hi: nat, row: seq<Text>)
    requires Stands(s, i, hi, RowText(row)) && row != [] && forall c :: 0 <= c < |row| ==> IsField(row[c])
    ensures |Fields(s, i, hi)| == |row|
    ensures forall c :: 0 <= c < |row| ==> Reads(s, Fields(s, i, hi)[c], row[c])
    decreases |row|
  {
    hide CommaFrom, IsField;
    var t := row[0];
    if |row| == 1 {
      NoComma(s, i, hi, t);
      CommaAt(s, i, hi, hi);
    } else {
      StandsParts(s, i, hi, t, COMMA, RowText(row[1..]));
      NoComma(s, i, i + |t|, t);
      CommaAt(s, i, i + |t|, hi);
      FieldsRead(s, i + |t| + 1, hi, row[1..]);
      var rest := Fields(s, i + |t| + 1, hi);
      assert Fields(s, i, hi) == [Line(i, i + |t|)] + rest;
      forall c | 0 <= c < |row| ensures Reads(s, Fields(s, i, hi)[c], row[c]) {
        if 0 < c {
          assert Fields(s, i, hi)[c] == rest[c - 1] && row[c] == row[1..][c - 1];
        }
      }
    }
  }

  // ----- lines

  lemma {:induction false} RowPlain(s: seq<Byte>, i: nat, hi: nat, row: seq<Text>)
    requires Stands(s, i, hi, RowText(row)) && forall c :: 0 <= c < |row| ==> IsField(row[c])
    ensures forall k :: i <= k < hi ==> !IsEol(s[k]) && s[k] != NUL
    decreases |row|
  {
    hide IsField;
    if |row| == 1 {
      NoComma(s, i, hi, row[0]);
    } else if row != [] {
      StandsParts(s, i, hi, row[0], COMMA, RowText(row[1..]));
      NoComma(s, i, i + |row[0]|, row[0]);
      RowPlain(s, i + |row[0]| + 1, hi, row[1..]);
    }
  }

  lemma {:induction false} EndAt(s: seq<Byte>, i: nat, e: nat, hi: nat)
    requires i <= e <= hi <= |s| && (forall k :: i <= k < e ==> !IsEol(s[k])) && (e < hi ==> IsEol(s[e]))
    ensures LineEnd(s, i, hi) == e
    decreases e - i
  {
    if i < e {
      EndAt(s, i + 1, e, hi);
    }
  }

  lemma {:induction false} SkipOne(s: seq<Byte>, i: nat, hi: nat)
    requires i < hi <= |s| && IsEol(s[i])
    ensures Lines(s, i, hi) == Lines(s, i + 1, hi)
  {
    assert SkipEol(s, i, hi) == SkipEol(s, i + 1, hi);
  }

  /** The first line of the text is the first row. */
  lemma {:induction false} FirstLine(s: seq<Byte>, i: nat, hi: nat, row: seq<Text>, rest: seq<Byte>)
    requires Stands(s, i, hi, RowText(row) + ([LF] + rest)) && IsRow(row)
    ensures var e := i + |RowText(row)|;
            && i < e < hi && Stands(s, i, e, RowText(row)) && Stands(s, e + 1, hi, rest) && s[e] == LF
            && (forall k :: i <= k < e ==> s[k] != NUL)
            && Lines(s, i, hi) == [Line(i, e)] + Lines(s, e + 1, hi)
  {
    hide Lines, IsField, RowText;
    StandsParts(s, i, hi, RowText(row), LF, rest);
    RowPlain(s, i, i + |RowText(row)|, row);
    RowNotEmpty(row);
    LinesStart(s, i, i + |RowText(row)|, hi);
  }

  lemma {:induction false} LinesStart(s: seq<Byte>, i: nat, e: nat, hi: nat)
    requires i < e < hi <= |s| && (forall k :: i <= k < e ==> !IsEol(s[k])) && s[e] == LF
    ensures Lines(s, i, hi) == [Line(i, e)] + Lines(s, e + 1, hi)
  {
    hide LineEnd, SkipEol;
    EndAt(s, i, e, hi);
    NothingSkipped(s, i, hi);
    SkipOne(s, e, hi);
  }

  /** The line lies in [i, hi) and is the row. */
  predicate IsLine(s: seq<Byte>, i: nat, hi: nat, l: Line, row: seq<Text>)
  {
    i <= l.start < l.end < hi <= |s| && Stands(s, l.start, l.end, RowText(row))
  }

  lemma {:induction false} LinesRead(s: seq<Byte>, i: nat, hi: nat, rows: seq<seq<Text>>)
    requires Stands(s, i, hi, Text(rows)) && AreRows(rows)
    ensures |Lines(s, i, hi)| == |rows|
    ensures forall r :: 0 <= r < |rows| ==> IsLine(s, i, hi, Lines(s, i, hi)[r], rows[r])
    ensures forall k :: i <= k < hi ==> s[k] != NUL
    decreases |rows|
  {
    hide Lines, IsRow, RowText;
    if rows == [] {
      NoLines(s, i);
    } else {
      var row, rest := rows[0], rows[1..];
      assert IsRow(rows[0]);
      FirstLine(s, i, hi, row, Text(rest));
      var e := i + |RowText(row)|;
      LinesRead(s, e + 1, hi, rest);
      var all, more := Lines(s, i, hi), Lines(s, e + 1, hi);
      forall r | 0 <= r < |rows| ensures IsLine(s, i, hi, all[r], rows[r]) {
        if 0 < r {
          assert all[r] == more[r - 1] && rows[r] == rest[r - 1];
        }
      }
    }
  }

  lemma NoLines(s: seq<Byte>, i: nat)
    requires i <= |s|
    ensures Lines(s, i, i) == []
  {
  }

  lemma RowNotEmpty(row: seq<Text>)
    requires 2 <= |row|
    ensures RowText(row) != []
  {
  }

  lemma NothingSkipped(s: seq<Byte>, i: nat, hi: nat)
    requires i < hi <= |s| && !IsEol(s[i])
    ensures SkipEol(s, i, hi) == i
  {
  }

  // ----- a section

  /** A section: perhaps a byte order mark, the text, and padding. */
  function Section(rows: seq<seq<Text>>, mark: bool, padding: seq<Byte>): (s: seq<Byte>)
  {
    (if mark then BOM else []) + Text(rows) + padding
  }

  predicate IsPadding(s: seq<Byte>) { forall k :: 0 <= k < |s| ==> s[k] == NUL }

  /** The text does not look like a byte order mark. */
  predicate Unmarked(rows: seq<seq<Text>>) { !(BOM <= Text(rows)) }

  /** Rows are cut to six fields. */
  function Cut(row: seq<Text>): (r: seq<Text>) { row[..Min(6, |row|)] }

  lemma {:induction false} TextEnds(rows: seq<seq<Text>>)
    requires AreRows(rows) && rows != []
    ensures var t := Text(rows);
            2 <= |t| && t[|t| - 1] == LF && !IsEol(t[|t| - 2]) && !IsEol(t[0]) && t[0] != NUL
    decreases |rows|
  {
    hide IsField, RowText;
    var row := rows[0];
    assert IsRow(rows[0]);
    var b := RowText(row);
    RowPlain(b, 0, |b|, row) by {
      assert b[0..|b|] == b;
    }
    RowNotEmpty(row);
    if |rows| == 1 {
      assert Text(rows[1..]) == [];
    } else {
      TextEnds(rows[1..]);
    }
  }

  /** Where the parser starts and where the text ends. */
  lemma {:induction false} SectionLaidOut(rows: seq<seq<Text>>, mark: bool, padding: seq<Byte>)
    requires AreRows(rows) && rows != [] && IsPadding(padding) && (!mark ==> Unmarked(rows))
    ensures var section := Section(rows, mark, padding);
            var s, from := section + [NUL], if mark then 3 else 0;
            && Start(s, |section|) == from && from + |Text(rows)| <= |section|
            && Stands(s, from, from + |Text(rows)|, Text(rows))
            && (forall k :: from + |Text(rows)| <= k < |s| ==> s[k] == NUL)
  {
    hide Text;
    var section := Section(rows, mark, padding);
    var s, from := section + [NUL], if mark then 3 else 0;
    var t := Text(rows);
    TextEnds(rows);
    assert s[from..from + |t|] == t;
    forall k | from + |t| <= k < |s| ensures s[k] == NUL {
      assert k < |section| ==> s[k] == padding[k - (from + |t|)];
    }
    assert Min(3, |section| + 1) == 3 && BOM[..3] == BOM;
    if mark {
      assert s[..3] == BOM;
    } else {
      NotMarked(s, t, rows);
    }
  }

  lemma {:induction false} NotMarked(s: seq<Byte>, t: seq<Byte>, rows: seq<seq<Text>>)
    requires 3 <= |s| && 2 <= |t| <= |s| && s[..|t|] == t && t == Text(rows) && Unmarked(rows)
    requires t[|t| - 1] == LF
    ensures s[..3] != BOM
  {
    if |t| == 2 {
      assert s[..3][1] == s[1] == s[..2][1] == t[1];
    } else {
      assert s[..3] == t[..3];
    }
  }

  lemma {:induction false} NulAt(s: seq<Byte>, i: nat, z: nat, end: nat)
    requires i <= z <= end < |s| && (forall k :: i <= k < z ==> s[k] != NUL) && s[z] == NUL
    ensures NulFrom(s, i, end) == z
    decreases z - i
  {
    if i < z {
      NulAt(s, i + 1, z, end);
    }
  }

  /** The lines of the section are those of the text. */
  lemma {:induction false} AllLinesRead(s: seq<Byte>, from: nat, z: nat, hi: nat, rows: seq<seq<Text>>)
    requires AreRows(rows) && rows != [] && Stands(s, from, z, Text(rows)) && z <= hi < |s|
    requires s[z] == NUL && s[hi] == NUL
    ensures AllLines(s, from, hi) == Lines(s, from, z)
  {
    hide Lines, Text, IsRow;
    LinesRead(s, from, z, rows);
    TextEnds(rows);
    var t := Text(rows);
    assert s[z - 1] == s[from..z][|t| - 1] == t[|t| - 1];
    assert s[z - 2] == s[from..z][|t| - 2] == t[|t| - 2];
    assert s[from] == s[from..z][0];
    NulAt(s, from, z, hi);
  }

  lemma {:induction false} ColumnsRead(s: seq<Byte>, i: nat, hi: nat, l: Line, row: seq<Text>)
    requires IsLine(s, i, hi, l, row) && IsRow(row)
    ensures FieldTexts(s, Columns(s, l, COLUMNS)) == Cut(row)
  {
    hide RowText, IsField, CommaFrom;
    FieldsRead(s, l.start, l.end, row);
    var all := Fields(s, l.start, l.end);
    assert CommaFrom(s, l.start, l.end) != l.end;
    var n := Min(6, |row|);
    forall c | 0 <= c < n ensures FieldText(s, all[..n][c]) == row[c] {
      assert Reads(s, all[c], row[c]);
    }
  }

  /** What is written is what is read: the rows in order, each cut to six fields. */
  lemma {:induction false} SectionReads(rows: seq<seq<Text>>, mark: bool, padding: seq<Byte>)
    requires AreRows(rows) && rows != [] && IsPadding(padding) && (!mark ==> Unmarked(rows))
    ensures var texts := SectionRows(Section(rows, mark, padding));
            |texts| == |rows| && forall r :: 0 <= r < |rows| ==> texts[r] == Cut(rows[r])
  {
    hide Text, Lines, Columns, IsRow, FieldTexts, Start, Section;
    SectionLaidOut(rows, mark, padding);
    var section := Section(rows, mark, padding);
    var s, from := section + [NUL], if mark then 3 else 0;
    var z := from + |Text(rows)|;
    AllLinesRead(s, from, z, |section|, rows);
    LinesRead(s, from, z, rows);
    forall r | 0 <= r < |rows| ensures SectionRows(section)[r] == Cut(rows[r]) {
      assert IsLine(s, from, z, Lines(s, from, z)[r], rows[r]);
      assert IsRow(rows[r]);
      ColumnsRead(s, from, z, Lines(s, from, z)[r], rows[r]);
    }
  }

  // ----- its verdict

  /** Six fields or more, and none of the first six is empty. */
  predicate Complete(row: seq<Text>)
  {
    6 <= |row| && forall c :: 0 <= c < 6 ==> row[c] != []
  }

  /** The first level entry with the name asks for a later generation, in 16 bits. */
  ghost predicate Revokes(atoi: Text -> nat, level: seq<Component>, name: Text, generation: Text)
  {
    exists k :: 0 <= k < |level| && level[k].name == name && (forall j :: 0 <= j < k ==> level[j].name != name) &&
      atoi(generation) % 0x1_0000 < atoi(level[k].generation) % 0x1_0000
  }

  lemma {:induction false} RevokesIff(atoi: Text -> nat, level: seq<Component>, e: Component)
    ensures NotRevoked(atoi, level, e) <==> !Revokes(atoi, level, e.name, e.generation)
  {
    var k := FirstNamed(level, e.name, 0);
    if Revokes(atoi, level, e.name, e.generation) {
      var m :| 0 <= m < |level| && level[m].name == e.name && (forall j :: 0 <= j < m ==> level[j].name != e.name) &&
        atoi(e.generation) % 0x1_0000 < atoi(level[m].generation) % 0x1_0000;
      assert k == m;
    }
  }

  lemma {:induction false} CompleteIff(row: seq<Text>)
    requires IsRow(row)
    ensures RowOk(Cut(row)) <==> Complete(row)
  {
    hide IsField;
    var r := Cut(row);
    if Complete(row) {
      forall c | 0 <= c < |r| ensures r[c] != [] {
        assert r[c] == row[c];
      }
    }
    if RowOk(r) {
      forall c | 0 <= c < 6 ensures row[c] != [] {
        assert r[c] == row[c];
      }
    }
  }

  /** The verdict on a section: it passes an empty level; otherwise every line must have six fields that are
      not empty, and no component may be below the first level entry of its name. */
  lemma {:induction false} VerdictIs(atoi: Text -> nat, level: seq<Component>, inProtocol: bool, rows: seq<seq<Text>>,
                                     mark: bool, padding: seq<Byte>)
    requires AreRows(rows) && rows != [] && IsPadding(padding) && (!mark ==> Unmarked(rows))
    ensures SbatVerdict(atoi, level, inProtocol, Section(rows, mark, padding)) ==
              if level == [] then Success
              else if exists r :: 0 <= r < |rows| && !Complete(rows[r]) then InvalidParameter
              else if exists r :: 0 <= r < |rows| && Revokes(atoi, level, rows[r][0], rows[r][1]) then SecurityViolation
              else Success
  {
    hide Text, IsRow, NotRevoked, Complete, RowOk, Revokes, Section, SectionRows;
    var section := Section(rows, mark, padding);
    var texts := SectionRows(section);
    SectionReads(rows, mark, padding);
    SectionNotEmpty(rows, mark, padding);
    forall r | 0 <= r < |rows| ensures RowOk(texts[r]) <==> Complete(rows[r]) {
      assert IsRow(rows[r]) && texts[r] == Cut(rows[r]);
      CompleteIff(rows[r]);
    }
    if RowsOk(texts) {
      forall r | 0 <= r < |rows|
        ensures 2 <= |rows[r]| && (NotRevoked(atoi, level, Components(texts)[r]) <==>
                                   !Revokes(atoi, level, rows[r][0], rows[r][1]))
      {
        assert RowOk(texts[r]) && texts[r] == Cut(rows[r]);
        TwoFields(rows[r]);
        RevokesIff(atoi, level, Components(texts)[r]);
      }
    }
  }

  lemma TwoFields(row: seq<Text>)
    requires RowOk(Cut(row))
    ensures 6 <= |row| && Cut(row)[0] == row[0] && Cut(row)[1] == row[1]
  {
  }

  lemma SectionNotEmpty(rows: seq<seq<Text>>, mark: bool, padding: seq<Byte>)
    requires AreRows(rows) && rows != []
    ensures Section(rows, mark, padding) != []
  {
    TextEnds(rows);
  }

  /** Without a section an image passes inside the protocol, or without a level, and nowhere else. */
  lemma {:induction false} NoSection(atoi: Text -> nat, level: seq<Component>, inProtocol: bool)
    ensures SbatVerdict(atoi, level, inProtocol, []) == if level == [] || inProtocol then Success else SecurityViolation
  {
  }
}
